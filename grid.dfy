/** The shared maze grid: cell codes, row-major addressing, the carvable lattice,
    and the counting facts every seed-growing generator relies on. */
module Grid {

  /** A cell code as stored in the maze buffer. */
  type Code = c: int | 0 <= c <= 3

  const B: Code := 0  // wall
  const W: Code := 1  // passage
  const R: Code := 2  // start
  const G: Code := 3  // goal

  function Abs(n: int): nat
  {
    if n < 0 then -n else n
  }

  /** Row-major address of (x, y) in a grid `width` cells wide, y * width + x, written as x
      moved by whole rows; IdxValue states the product form. Defining it without the product
      keeps non-linear arithmetic out of every proof that only compares grid contents. */
  function Idx(x: int, y: int, width: int): int
    decreases Abs(y)
  {
    if y == 0 then x
    else if y > 0 then Idx(x, y - 1, width) + width
    else Idx(x, y + 1, width) - width
  }

  lemma {:induction false} IdxValue(x: int, y: int, width: int)
    ensures Idx(x, y, width) == y * width + x
    decreases Abs(y)
  {
    if y > 0 {
      IdxValue(x, y - 1, width);
    } else if y < 0 {
      IdxValue(x, y + 1, width);
    }
  }

  /** Entries of a `width` by `height` buffer: the address one row past the last, which is
      width * height (AreaValue). */
  function Area(width: int, height: int): int
  {
    Idx(0, height, width)
  }

  lemma AreaValue(width: int, height: int)
    ensures Area(width, height) == width * height
  {
    IdxValue(0, height, width);
  }

  /** n is odd, n % 2 == 1 (OddMod), stated by steps of two so that parity facts about
      neighbouring positions follow without division. */
  predicate Odd(n: int)
    decreases Abs(n)
  {
    if n == 0 then false
    else if n == 1 || n == -1 then true
    else if n > 1 then Odd(n - 2)
    else Odd(n + 2)
  }

  lemma {:induction false} OddMod(n: int)
    ensures Odd(n) <==> n % 2 == 1
    decreases Abs(n)
  {
    if n > 1 {
      OddMod(n - 2);
    } else if n < -1 {
      OddMod(n + 2);
    }
  }

  /** Of two consecutive integers exactly one is odd. */
  lemma {:induction false} OddNext(n: int)
    ensures Odd(n + 1) <==> !Odd(n)
    decreases Abs(n)
  {
    if n > 1 {
      OddNext(n - 2);
    } else if n < -1 {
      OddNext(n + 2);
    }
  }

  /** Odd dimensions of at least 3, so that at least one carvable cell exists. */
  predicate ValidDims(width: int, height: int)
  {
    width >= 3 && height >= 3 && width % 2 == 1 && height % 2 == 1
  }

  predicate InBounds(x: int, y: int, width: int, height: int)
  {
    0 <= x < width && 0 <= y < height
  }

  /** A carvable cell: odd/odd and strictly inside the border ring. */
  predicate IsCell(x: int, y: int, width: int, height: int)
  {
    1 <= x <= width - 2 && 1 <= y <= height - 2 && Odd(x) && Odd(y)
  }

  /** A midpoint between two carvable cells two apart: inside the ring, exactly one coordinate odd. */
  predicate IsLink(x: int, y: int, width: int, height: int)
  {
    1 <= x <= width - 2 && 1 <= y <= height - 2 && Odd(x) != Odd(y)
  }

  predicate Carvable(x: int, y: int, width: int, height: int)
  {
    IsCell(x, y, width, height) || IsLink(x, y, width, height)
  }

  /** The four moves between neighbouring carvable cells, in the order the generators list them. */
  const Steps: seq<(int, int)> := [(0, 2), (0, -2), (2, 0), (-2, 0)]

  /** The two carvable cells (x, y) and (nx, ny) are two apart along one axis. */
  predicate Adjacent(x: int, y: int, nx: int, ny: int)
  {
    (nx - x, ny - y) in Steps
  }

  /** (a, b) comes before (x, y) in row-by-row scan order. */
  predicate Before(a: int, b: int, x: int, y: int)
  {
    b < y || (b == y && a < x)
  }

  lemma MulAtLeast(a: int, b: int)
    requires a >= 1 && b >= 0
    ensures a * b >= b
  {
    if a > 1 {
      MulAtLeast(a - 1, b);
      assert a * b == (a - 1) * b + b;
    }
  }

  lemma IdxCoords(x: int, y: int, width: int)
    requires 0 <= x < width && 0 <= y
    ensures Idx(x, y, width) / width == y && Idx(x, y, width) % width == x
  {
    IdxValue(x, y, width);
    var i := Idx(x, y, width);
    var q, r := i / width, i % width;
    assert i == q * width + r;
    assert (q - y) * width == x - r;
    if q > y {
      MulAtLeast(q - y, width);
    } else if q < y {
      assert (y - q) * width == r - x;
      MulAtLeast(y - q, width);
    }
  }

  lemma IdxRange(x: int, y: int, width: int, height: int)
    requires InBounds(x, y, width, height)
    ensures 0 <= Idx(x, y, width) < Area(width, height)
  {
    IdxValue(x, y, width);
    AreaValue(width, height);
    if y < height - 1 {
      MulAtLeast(height - 1 - y, width);
      assert (height - 1 - y) * width == (height - 1) * width - y * width;
    }
    assert (height - 1) * width + width == width * height;
  }

  /** The address of a coordinate pair determines the pair. */
  lemma IdxInjective(x: int, y: int, x': int, y': int, width: int)
    requires 0 <= x < width && 0 <= y && 0 <= x' < width && 0 <= y'
    requires Idx(x, y, width) == Idx(x', y', width)
    ensures x == x' && y == y'
  {
    IdxCoords(x, y, width);
    IdxCoords(x', y', width);
  }

  /** Past the last carvable column of row y, the cells before the scan position are those
      before the first cell of the next carvable row. */
  lemma BeforeNextRow(x: int, y: int, width: int, height: int)
    requires width - 1 <= x && Odd(y)
    ensures forall a, b :: IsCell(a, b, width, height) ==> (Before(a, b, x, y) <==> Before(a, b, 1, y + 2))
  {
    assert !Odd(y + 1) by {
      OddNext(y);
    }
  }

  /** A step from a carvable cell that lands strictly inside the border reaches a carvable
      cell, and the cell halfway is a link. */
  lemma StepFromCell(x: int, y: int, dx: int, dy: int, width: int, height: int)
    requires IsCell(x, y, width, height) && (dx, dy) in Steps
    requires 1 <= x + dx < width - 1 && 1 <= y + dy < height - 1
    ensures IsCell(x + dx, y + dy, width, height)
    ensures IsLink(x + dx / 2, y + dy / 2, width, height)
  {
    OddNext(x);
    OddNext(x - 1);
    OddNext(y);
    OddNext(y - 1);
  }

  // ---------------------------------------------------------------------------
  // Reading a grid held as a row-major sequence

  /** The code at (x, y), or B where the address falls outside the buffer. */
  function At(s: seq<Code>, x: int, y: int, width: int): Code
  {
    var i := Idx(x, y, width);
    if 0 <= i < |s| then s[i] else B
  }

  /** A write at (a, b) is seen at (a, b) and nowhere else in bounds. */
  lemma {:induction false} AtUpdate(s: seq<Code>, width: int, height: int, a: int, b: int, v: Code, x: int, y: int)
    requires |s| == Area(width, height)
    requires InBounds(a, b, width, height) && InBounds(x, y, width, height)
    ensures 0 <= Idx(a, b, width) < |s|
    ensures At(s[Idx(a, b, width) := v], x, y, width) == if (x, y) == (a, b) then v else At(s, x, y, width)
  {
    IdxRange(a, b, width, height);
    IdxRange(x, y, width, height);
    if Idx(x, y, width) == Idx(a, b, width) {
      IdxInjective(x, y, a, b, width);
    }
  }

  // ---------------------------------------------------------------------------
  // The footprint of the lattice generators

  /** Every non-wall entry is a passage on a carvable cell or link. The border ring and
      the even/even corners are therefore walls. */
  ghost predicate CarvedOnly(s: seq<Code>, width: int, height: int)
  {
    && width > 0
    && height > 0
    && |s| == Area(width, height)
    && forall x, y :: InBounds(x, y, width, height) && At(s, x, y, width) != B ==>
         At(s, x, y, width) == W && Carvable(x, y, width, height)
  }

  ghost predicate AllWall(s: seq<Code>)
  {
    forall i :: 0 <= i < |s| ==> s[i] == B
  }

  /** The all-wall grid satisfies the footprint. */
  lemma AllWallCarvedOnly(s: seq<Code>, width: int, height: int)
    requires width > 0 && height > 0 && |s| == Area(width, height) && AllWall(s)
    ensures CarvedOnly(s, width, height)
  {
  }

  // ---------------------------------------------------------------------------
  // Counting carved cells and links

  datatype Kind = Cells | Links

  predicate OfKind(k: Kind, x: int, y: int, width: int, height: int)
  {
    match k
    case Cells => IsCell(x, y, width, height)
    case Links => IsLink(x, y, width, height)
  }

  /** Passages of kind k in row y left of column x. */
  function RowCount(s: seq<Code>, k: Kind, width: int, height: int, y: int, x: int): nat
    decreases x
  {
    if x <= 0 then 0
    else RowCount(s, k, width, height, y, x - 1) + (if OfKind(k, x - 1, y, width, height) && At(s, x - 1, y, width) == W then 1 else 0)
  }

  /** Passages of kind k in the rows above row y. */
  function GridCount(s: seq<Code>, k: Kind, width: int, height: int, y: int): nat
    decreases y
  {
    if y <= 0 then 0
    else GridCount(s, k, width, height, y - 1) + RowCount(s, k, width, height, y - 1, width)
  }

  /** Number of passage cells of the whole grid. */
  function Carved(s: seq<Code>, width: int, height: int): nat
  {
    GridCount(s, Cells, width, height, height)
  }

  /** Number of carvable cells of a grid: floor(width/2) * floor(height/2). */
  function TotalCells(width: int, height: int): int
  {
    (width / 2) * (height / 2)
  }

  /** Carvable cells of row y left of column x (odd x' < x, on an odd interior row). */
  function CellsInRow(width: int, height: int, y: int, x: nat): nat
  {
    if Odd(y) && 1 <= y <= height - 2 then x / 2 else 0
  }

  lemma {:induction false} AllWallRowCount(s: seq<Code>, k: Kind, width: int, height: int, y: int, x: int)
    requires AllWall(s)
    ensures RowCount(s, k, width, height, y, x) == 0
    decreases x
  {
    if x > 0 {
      AllWallRowCount(s, k, width, height, y, x - 1);
    }
  }

  /** Nothing is carved in the all-wall grid. */
  lemma {:induction false} AllWallCount(s: seq<Code>, k: Kind, width: int, height: int, y: int)
    requires AllWall(s)
    ensures GridCount(s, k, width, height, y) == 0
    decreases y
  {
    if y > 0 {
      AllWallCount(s, k, width, height, y - 1);
      AllWallRowCount(s, k, width, height, y - 1, width);
    }
  }

  lemma {:induction false} RowCountBound(s: seq<Code>, width: int, height: int, y: int, x: int)
    requires ValidDims(width, height) && 0 <= x <= width
    ensures RowCount(s, Cells, width, height, y, x) <= CellsInRow(width, height, y, x)
    ensures RowCount(s, Cells, width, height, y, x) == CellsInRow(width, height, y, x) ==>
              forall x' :: 0 <= x' < x && IsCell(x', y, width, height) ==> At(s, x', y, width) == W
    decreases x
  {
    if x > 0 {
      RowCountBound(s, width, height, y, x - 1);
      OddMod(x - 1);
    }
  }

  /** The carvable cells above row y are those above row y - 1 plus those of row y - 1. */
  lemma CellsAbove(width: int, height: int, y: int)
    requires ValidDims(width, height) && 0 < y <= height
    ensures (width / 2) * (y / 2) == (width / 2) * ((y - 1) / 2) + CellsInRow(width, height, y - 1, width)
  {
    var a := width / 2;
    OddMod(y - 1);
    if (y - 1) % 2 == 1 {
      assert y / 2 == (y - 1) / 2 + 1;
      assert a * (y / 2) == a * ((y - 1) / 2) + a;
    } else {
      assert y / 2 == (y - 1) / 2;
    }
  }

  lemma {:induction false} GridCountBound(s: seq<Code>, width: int, height: int, y: int)
    requires ValidDims(width, height) && 0 <= y <= height
    ensures GridCount(s, Cells, width, height, y) <= (width / 2) * (y / 2)
    ensures GridCount(s, Cells, width, height, y) == (width / 2) * (y / 2) ==>
              forall x', y' :: 0 <= y' < y && IsCell(x', y', width, height) ==> At(s, x', y', width) == W
    decreases y
  {
    if y > 0 {
      GridCountBound(s, width, height, y - 1);
      RowCountBound(s, width, height, y - 1, width);
      CellsAbove(width, height, y);
    }
  }

  /** The carved count never exceeds the number of carvable cells, and reaching it means
      every carvable cell is a passage. */
  lemma CarvedBound(s: seq<Code>, width: int, height: int)
    requires ValidDims(width, height)
    ensures Carved(s, width, height) <= TotalCells(width, height)
    ensures Carved(s, width, height) == TotalCells(width, height) ==>
              forall x, y :: IsCell(x, y, width, height) ==> At(s, x, y, width) == W
  {
    GridCountBound(s, width, height, height);
  }

  lemma {:induction false} RowShort(s: seq<Code>, width: int, height: int, y: int, x: int) returns (x': int)
    requires ValidDims(width, height) && 0 <= x <= width
    requires RowCount(s, Cells, width, height, y, x) < CellsInRow(width, height, y, x)
    ensures 0 <= x' < x && IsCell(x', y, width, height) && At(s, x', y, width) != W
    decreases x
  {
    RowCountBound(s, width, height, y, x - 1);
    OddMod(x - 1);
    if IsCell(x - 1, y, width, height) && At(s, x - 1, y, width) != W {
      x' := x - 1;
    } else {
      x' := RowShort(s, width, height, y, x - 1);
    }
  }

  lemma {:induction false} GridShort(s: seq<Code>, width: int, height: int, y: int) returns (x': int, y': int)
    requires ValidDims(width, height) && 0 <= y <= height
    requires GridCount(s, Cells, width, height, y) < (width / 2) * (y / 2)
    ensures 0 <= y' < y && IsCell(x', y', width, height) && At(s, x', y', width) != W
    decreases y
  {
    GridCountBound(s, width, height, y - 1);
    CellsAbove(width, height, y);
    if RowCount(s, Cells, width, height, y - 1, width) < CellsInRow(width, height, y - 1, width) {
      x' := RowShort(s, width, height, y - 1, width);
      y' := y - 1;
    } else {
      x', y' := GridShort(s, width, height, y - 1);
    }
  }

  /** While fewer than all carvable cells are carved, some carvable cell is still a wall. */
  lemma UncarvedCell(s: seq<Code>, width: int, height: int) returns (x: int, y: int)
    requires ValidDims(width, height) && CarvedOnly(s, width, height)
    requires Carved(s, width, height) < TotalCells(width, height)
    ensures IsCell(x, y, width, height) && At(s, x, y, width) == B
  {
    x, y := GridShort(s, width, height, height);
  }

  /** With every carvable cell a passage, the carved count is the number of carvable cells. */
  lemma AllOpenCount(s: seq<Code>, width: int, height: int)
    requires ValidDims(width, height)
    requires forall x, y :: IsCell(x, y, width, height) ==> At(s, x, y, width) == W
    ensures Carved(s, width, height) == TotalCells(width, height)
  {
    CarvedBound(s, width, height);
    if Carved(s, width, height) < TotalCells(width, height) {
      var x, y := GridShort(s, width, height, height);
      assert false;
    }
  }

  // ---------------------------------------------------------------------------
  // Opening positions

  /** s' has the length of s and equals it at every position of the grid except that (mx, my)
      and (nx, ny) are passages. With |s| == Area(width, height) this fixes all of s'. */
  ghost predicate CarvedPair(s: seq<Code>, s': seq<Code>, mx: int, my: int, nx: int, ny: int, width: int, height: int)
  {
    && |s'| == |s|
    && forall x, y :: InBounds(x, y, width, height) ==>
         At(s', x, y, width) == if (x == mx && y == my) || (x == nx && y == ny) then W else At(s, x, y, width)
  }

  /** Writing W at two in-bounds positions changes those two and nothing else. */
  lemma CarvePair(s: seq<Code>, width: int, height: int, mx: int, my: int, nx: int, ny: int)
    requires |s| == Area(width, height)
    requires InBounds(mx, my, width, height) && InBounds(nx, ny, width, height)
    ensures 0 <= Idx(mx, my, width) < |s| && 0 <= Idx(nx, ny, width) < |s|
    ensures CarvedPair(s, s[Idx(mx, my, width) := W][Idx(nx, ny, width) := W], mx, my, nx, ny, width, height)
  {
    IdxRange(mx, my, width, height);
    IdxRange(nx, ny, width, height);
    var s1 := s[Idx(mx, my, width) := W];
    var s' := s1[Idx(nx, ny, width) := W];
    forall x, y | InBounds(x, y, width, height)
      ensures At(s', x, y, width) == if (x == mx && y == my) || (x == nx && y == ny) then W else At(s, x, y, width)
    {
      AtUpdate(s, width, height, mx, my, W, x, y);
      AtUpdate(s1, width, height, nx, ny, W, x, y);
    }
  }

  /** `maze[my * width + mx] = PASSAGE; maze[ny * width + nx] = PASSAGE`: opens a link and the
      cell behind it (or, with both positions equal, one cell). */
  method Open(maze: array<Code>, mx: int, my: int, nx: int, ny: int, width: int, height: int)
    requires maze.Length == Area(width, height)
    requires InBounds(mx, my, width, height) && InBounds(nx, ny, width, height)
    modifies maze
    ensures CarvedPair(old(maze[..]), maze[..], mx, my, nx, ny, width, height)
  {
    ghost var s: seq<Code> := maze[..];
    CarvePair(s, width, height, mx, my, nx, ny);
    maze[Idx(mx, my, width)] := W;
    maze[Idx(nx, ny, width)] := W;
    assert maze[..] == s[Idx(mx, my, width) := W][Idx(nx, ny, width) := W];
  }

  /** Opening carvable positions keeps the footprint. */
  lemma PairKeeps(s: seq<Code>, s': seq<Code>, mx: int, my: int, nx: int, ny: int, width: int, height: int)
    requires CarvedOnly(s, width, height) && CarvedPair(s, s', mx, my, nx, ny, width, height)
    requires Carvable(mx, my, width, height) && Carvable(nx, ny, width, height)
    ensures CarvedOnly(s', width, height)
  {
  }

  /** What opening (px, py) adds to a count of passages of kind k: one if it is of that kind
      and was not a passage yet. */
  function Gain(s: seq<Code>, k: Kind, px: int, py: int, width: int, height: int): int
  {
    if OfKind(k, px, py, width, height) && At(s, px, py, width) != W then 1 else 0
  }

  lemma {:induction false} RowCountPair(s: seq<Code>, s': seq<Code>, k: Kind, mx: int, my: int, nx: int, ny: int, width: int, height: int, y: int, x: int)
    requires CarvedPair(s, s', mx, my, nx, ny, width, height)
    requires 0 <= y < height && x <= width
    ensures RowCount(s', k, width, height, y, x) == RowCount(s, k, width, height, y, x)
      + (if my == y && 0 <= mx < x then Gain(s, k, mx, my, width, height) else 0)
      + (if ny == y && 0 <= nx < x && (nx, ny) != (mx, my) then Gain(s, k, nx, ny, width, height) else 0)
    decreases x
  {
    if x > 0 {
      RowCountPair(s, s', k, mx, my, nx, ny, width, height, y, x - 1);
      assert InBounds(x - 1, y, width, height);
    }
  }

  lemma {:induction false} GridCountPair(s: seq<Code>, s': seq<Code>, k: Kind, mx: int, my: int, nx: int, ny: int, width: int, height: int, y: int)
    requires CarvedPair(s, s', mx, my, nx, ny, width, height)
    requires InBounds(mx, my, width, height) && InBounds(nx, ny, width, height) && y <= height
    ensures GridCount(s', k, width, height, y) == GridCount(s, k, width, height, y)
      + (if my < y then Gain(s, k, mx, my, width, height) else 0)
      + (if ny < y && (nx, ny) != (mx, my) then Gain(s, k, nx, ny, width, height) else 0)
    decreases y
  {
    if y > 0 {
      GridCountPair(s, s', k, mx, my, nx, ny, width, height, y - 1);
      RowCountPair(s, s', k, mx, my, nx, ny, width, height, y - 1, width);
    }
  }

  /** Opening a cell, alone or behind a link, keeps the footprint and adds one carved cell
      exactly when that cell was a wall. */
  lemma CellOpened(s: seq<Code>, s': seq<Code>, mx: int, my: int, nx: int, ny: int, width: int, height: int)
    requires CarvedOnly(s, width, height) && CarvedPair(s, s', mx, my, nx, ny, width, height)
    requires IsCell(nx, ny, width, height) && (IsLink(mx, my, width, height) || (mx, my) == (nx, ny))
    ensures CarvedOnly(s', width, height)
    ensures Carved(s', width, height) == Carved(s, width, height) + (if At(s, nx, ny, width) == B then 1 else 0)
  {
    GridCountPair(s, s', Cells, mx, my, nx, ny, width, height, height);
    assert InBounds(nx, ny, width, height);
  }

  // ---------------------------------------------------------------------------
  // The lattice of carvable cells is connected

  /** The lattice distance between two positions. */
  function Distance(ax: int, ay: int, cx: int, cy: int): nat
  {
    Abs(ax - cx) + Abs(ay - cy)
  }

  /** From a carvable cell other than (ax, ay), one step of two towards (ax, ay) lands on a
      carvable cell strictly closer to it. */
  lemma StepTowards(ax: int, ay: int, wx: int, wy: int, width: int, height: int) returns (dx: int, dy: int)
    requires IsCell(ax, ay, width, height) && IsCell(wx, wy, width, height) && (wx, wy) != (ax, ay)
    ensures (dx, dy) in Steps && IsCell(wx + dx, wy + dy, width, height)
    ensures Distance(ax, ay, wx + dx, wy + dy) < Distance(ax, ay, wx, wy)
  {
    if wx < ax {
      dx, dy := 2, 0;
      OddNext(wx);
    } else if wx > ax {
      dx, dy := -2, 0;
      OddNext(ax);
    } else if wy < ay {
      dx, dy := 0, 2;
      OddNext(wy);
    } else {
      dx, dy := 0, -2;
      OddNext(ay);
    }
  }

  /** If the lattice holds both a passage cell and a cell that is not a passage, some cell that
      is not a passage has a passage neighbour two apart: walk from the second towards the first. */
  lemma {:induction false} WallNextToPassage(s: seq<Code>, width: int, height: int, ax: int, ay: int, wx: int, wy: int)
    returns (cx: int, cy: int, dx: int, dy: int)
    requires IsCell(ax, ay, width, height) && IsCell(wx, wy, width, height)
    requires At(s, ax, ay, width) == W && At(s, wx, wy, width) != W
    ensures IsCell(cx, cy, width, height) && (dx, dy) in Steps
    ensures IsCell(cx + dx, cy + dy, width, height)
    ensures At(s, cx, cy, width) != W && At(s, cx + dx, cy + dy, width) == W
    decreases Distance(ax, ay, wx, wy)
  {
    dx, dy := StepTowards(ax, ay, wx, wy, width, height);
    if At(s, wx + dx, wy + dy, width) == W {
      cx, cy := wx, wy;
    } else {
      cx, cy, dx, dy := WallNextToPassage(s, width, height, ax, ay, wx + dx, wy + dy);
    }
  }
}
