/** The hunt-and-kill generator: a random walk that carves into wall cells, and when stuck a
    row-by-row hunt for a wall cell next to the carved region. */
module HuntAndKill {
  import opened Grid
  import Chance
  import opened Carving
  import Reach

  /** A read of a typed array at any integer index: out-of-range indices give `undefined`. */
  datatype Read = Undefined | Value(c: Code)

  function RawRead(s: seq<Code>, i: int): (r: Read)
    ensures r != Undefined <==> 0 <= i < |s|
  {
    if 0 <= i < |s| then Value(s[i]) else Undefined
  }

  /** The neighbour test of the hunt: reading the row-major address of (hx + dx, hy + dy),
      with no bounds check, yields a passage. */
  function RawIsPassage(s: seq<Code>, hx: int, hy: int, d: (int, int), width: int): bool
  {
    RawRead(s, Idx(hx + d.0, hy + d.1, width)) == Value(W)
  }

  /** `dirs.filter(...)` in the hunt: the directions, in order, whose unchecked read is a passage. */
  function Neighbours(s: seq<Code>, dirs: seq<(int, int)>, hx: int, hy: int, width: int): (r: seq<(int, int)>)
    ensures forall d :: d in r <==> d in dirs && RawIsPassage(s, hx, hy, d, width)
    ensures |r| <= |dirs|
  {
    if |dirs| == 0 then []
    else
      var rest := Neighbours(s, dirs[1..], hx, hy, width);
      if RawIsPassage(s, hx, hy, dirs[0], width) then [dirs[0]] + rest else rest
  }

  lemma MulSucc(a: int, w: int)
    ensures (a + 1) * w == a * w + w && (a - 1) * w == a * w - w
  {
  }

  /** The unchecked read from a carvable cell two steps away sees a passage exactly when the
      neighbour is a carvable cell that is a passage: reads off the ends of the buffer are
      `undefined`, and reads that wrap into the previous or next row land on the border
      columns, which stay walls. */
  lemma RawReadIsCell(s: seq<Code>, hx: int, hy: int, d: (int, int), width: int, height: int)
    requires CarvedOnly(s, width, height) && IsCell(hx, hy, width, height) && d in Steps
    ensures RawIsPassage(s, hx, hy, d, width) <==>
      IsCell(hx + d.0, hy + d.1, width, height) && At(s, hx + d.0, hy + d.1, width) == W
  {
    var (nx, ny) := (hx + d.0, hy + d.1);
    if InBounds(nx, ny, width, height) {
      IdxRange(nx, ny, width, height);
      assert RawRead(s, Idx(nx, ny, width)) == Value(At(s, nx, ny, width));
      if !IsCell(nx, ny, width, height) {
        assert !Carvable(nx, ny, width, height);
      }
    } else if nx == -1 {
      IdxValue(nx, ny, width);
      IdxValue(width - 1, hy - 1, width);
      MulSucc(hy - 1, width);
      assert Idx(nx, ny, width) == Idx(width - 1, hy - 1, width);
      IdxRange(width - 1, hy - 1, width, height);
      assert !Carvable(width - 1, hy - 1, width, height);
    } else if nx == width {
      IdxValue(nx, ny, width);
      IdxValue(0, hy + 1, width);
      MulSucc(hy, width);
      assert Idx(nx, ny, width) == Idx(0, hy + 1, width);
      IdxRange(0, hy + 1, width, height);
      assert !Carvable(0, hy + 1, width, height);
    } else if ny == -1 {
      IdxValue(nx, ny, width);
    } else {
      assert ny == height;
      IdxValue(nx, ny, width);
      AreaValue(width, height);
    }
  }

  /** What the hunt looks for: a carvable wall cell with at least one passage neighbour. */
  ghost predicate Target(s: seq<Code>, dirs: seq<(int, int)>, a: int, b: int, width: int, height: int)
  {
    IsCell(a, b, width, height) && At(s, a, b, width) == B && |Neighbours(s, dirs, a, b, width)| > 0
  }

  /** One row of the hunt: the first carvable wall cell of row hy with a passage neighbour. */
  method HuntRow(s: seq<Code>, dirs: seq<(int, int)>, hy: int, width: int, height: int) returns (found: bool, fx: int)
    requires ValidDims(width, height) && |s| == Area(width, height)
    requires 1 <= hy < height - 1 && Odd(hy)
    ensures found ==> Target(s, dirs, fx, hy, width, height)
    ensures forall a :: IsCell(a, hy, width, height) && (found ==> a < fx) ==> !Target(s, dirs, a, hy, width, height)
  {
    found, fx := false, 0;
    var hx := 1;
    while hx < width - 1 && !found
      invariant 1 <= hx <= width && Odd(hx)
      invariant found ==> Target(s, dirs, fx, hy, width, height) && fx < hx
      invariant forall a :: IsCell(a, hy, width, height) && (if found then a < fx else a < hx) ==>
        !Target(s, dirs, a, hy, width, height)
    {
      IdxRange(hx, hy, width, height);
      if s[Idx(hx, hy, width)] == B {
        var neighbours := Neighbours(s, dirs, hx, hy, width);
        if |neighbours| > 0 {
          found, fx := true, hx;
        }
      }
      OddNext(hx);
      hx := hx + 2;
    }
  }

  /** The hunt phase of scripts/gen.js huntAndKill: scans the carvable cells row by row and
      reports the first wall cell with a passage neighbour, or that there is none. */
  method Hunt(s: seq<Code>, dirs: seq<(int, int)>, width: int, height: int) returns (found: bool, fx: int, fy: int)
    requires ValidDims(width, height) && |s| == Area(width, height)
    ensures found ==> Target(s, dirs, fx, fy, width, height)
    ensures forall a, b :: IsCell(a, b, width, height) && (found ==> Before(a, b, fx, fy)) ==>
      !Target(s, dirs, a, b, width, height)
  {
    found, fx, fy := false, 0, 0;
    var hy := 1;
    while hy < height - 1 && !found
      invariant 1 <= hy <= height && Odd(hy)
      invariant found ==> Target(s, dirs, fx, fy, width, height)
      invariant forall a, b :: IsCell(a, b, width, height) && (if found then Before(a, b, fx, fy) else b < hy) ==>
        !Target(s, dirs, a, b, width, height)
    {
      found, fx := HuntRow(s, dirs, hy, width, height);
      fy := hy;
      OddNext(hy);
      hy := hy + 2;
    }
  }

  /** While some carvable cell is still a wall, the hunt has a target. */
  lemma HuntSucceeds(s: seq<Code>, dirs: seq<(int, int)>, x: int, y: int, width: int, height: int) returns (a: int, b: int)
    requires ValidDims(width, height) && CarvedOnly(s, width, height) && multiset(dirs) == multiset(Steps)
    requires IsCell(x, y, width, height) && At(s, x, y, width) == W
    requires Carved(s, width, height) < TotalCells(width, height)
    ensures Target(s, dirs, a, b, width, height)
  {
    var ux, uy := UncarvedCell(s, width, height);
    var dx, dy;
    a, b, dx, dy := WallNextToPassage(s, width, height, x, y, ux, uy);
    assert InBounds(a, b, width, height);
    assert (dx, dy) in multiset(dirs);
    RawReadIsCell(s, a, b, (dx, dy), width, height);
    assert (dx, dy) in Neighbours(s, dirs, a, b, width);
  }

  /** Opening a carvable wall cell (hx, hy) and the link towards a passage cell two steps away,
      and moving there, adds one visited cell and keeps every passage reachable from the
      start: the new cell hangs off the passage it was joined to. */
  lemma HuntCarve(s: seq<Code>, s': seq<Code>, visited: int, hx: int, hy: int, sx: int, sy: int, dx: int, dy: int, width: int, height: int)
    requires CarvedOnly(s, width, height) && visited == Carved(s, width, height)
    requires Reach.Connected(s, sx, sy, width, height)
    requires IsCell(hx, hy, width, height) && At(s, hx, hy, width) == B && (dx, dy) in Steps
    requires IsCell(hx + dx, hy + dy, width, height) && At(s, hx + dx, hy + dy, width) == W
    requires CarvedPair(s, s', hx + dx / 2, hy + dy / 2, hx, hy, width, height)
    ensures Walk(s', visited + 1, hx, hy, sx, sy, width, height)
  {
    StepFromCell(hx, hy, dx, dy, width, height);
    CellOpened(s, s', hx + dx / 2, hy + dy / 2, hx, hy, width, height);
    assert InBounds(hx, hy, width, height);
    assert (hx + dx) + (-dx) / 2 == hx + dx / 2 && (hy + dy) + (-dy) / 2 == hy + dy / 2;
    assert (-dx, -dy) in Steps;
    Reach.CarveFrom(s, s', sx, sy, hx + dx, hy + dy, -dx, -dy, width, height);
  }

  /** The hunt branch of scripts/gen.js huntAndKill: takes the first target in scan order, opens
      the link to one of its passage neighbours chosen at random, and moves there. The hunt
      cannot come back empty while a carvable cell is still a wall. */
  method HuntAndOpen(maze: array<Code>, visited: int, x: int, y: int, ghost sx: int, ghost sy: int, dirs: seq<(int, int)>, width: int, height: int)
    returns (hx: int, hy: int)
    requires ValidDims(width, height) && maze.Length == Area(width, height)
    requires Walk(maze[..], visited, x, y, sx, sy, width, height) && multiset(dirs) == multiset(Steps)
    requires visited < TotalCells(width, height)
    modifies maze
    ensures Walk(maze[..], visited + 1, hx, hy, sx, sy, width, height)
  {
    var found;
    found, hx, hy := Hunt(maze[..], dirs, width, height);
    if !found {
      var a, b := HuntSucceeds(maze[..], dirs, x, y, width, height);
      assert false;
    }
    var neighbours := Neighbours(maze[..], dirs, hx, hy, width);
    var j := Chance.Pick(|neighbours|);
    var (dx, dy) := neighbours[j];
    assert (dx, dy) in dirs && (dx, dy) in multiset(Steps);
    RawReadIsCell(maze[..], hx, hy, (dx, dy), width, height);
    StepFromCell(hx, hy, dx, dy, width, height);
    ghost var s: seq<Code> := maze[..];
    Open(maze, hx + dx / 2, hy + dy / 2, hx, hy, width, height);
    HuntCarve(s, maze[..], visited, hx, hy, sx, sy, dx, dy, width, height);
  }

  /** scripts/gen.js huntAndKill. Starts at a random carvable cell, walks into wall cells while
      it can, and hunts otherwise. Carves only the lattice, keeps `visited` equal to the number
      of passage cells, always makes progress, and finishes with every carvable cell carved and
      every passage reachable from (1, 1), the start the maze is reported with. */
  method HuntAndKill(maze: array<Code>, width: int, height: int)
    requires ValidDims(width, height) && maze.Length == Area(width, height)
    requires AllWall(maze[..])
    modifies maze
    ensures CarvedOnly(maze[..], width, height)
    ensures forall x, y :: IsCell(x, y, width, height) ==> At(maze[..], x, y, width) == W
    ensures Reach.Connected(maze[..], 1, 1, width, height)
  {
    var kx := Chance.Pick(width / 2);
    var ky := Chance.Pick(height / 2);
    var x := kx * 2 + 1;
    var y := ky * 2 + 1;
    OddMod(x);
    OddMod(y);
    ghost var s0: seq<Code> := maze[..];
    Open(maze, x, y, x, y, width, height);
    WalkStart(s0, maze[..], x, y, width, height);
    ghost var (sx, sy) := (x, y);

    var dirs := Steps;
    var totalCells := (width / 2) * (height / 2);
    var visited := 1;

    while visited < totalCells
      invariant Walk(maze[..], visited, x, y, sx, sy, width, height)
      invariant multiset(dirs) == multiset(Steps)
      decreases totalCells - visited
    {
      dirs := Chance.AnyOrder(dirs);
      var moved, k := FirstOpening(maze[..], x, y, dirs, width, height);
      if moved {
        assert dirs[k] in multiset(Steps);
        x, y := WalkOn(maze, visited, x, y, sx, sy, dirs[k].0, dirs[k].1, width, height);
        visited := visited + 1;
      } else {
        x, y := HuntAndOpen(maze, visited, x, y, sx, sy, dirs, width, height);
        visited := visited + 1;
      }
    }
    CarvedBound(maze[..], width, height);
    assert IsCell(1, 1, width, height) && IsCell(sx, sy, width, height);
    Reach.ConnectedMove(maze[..], sx, sy, 1, 1, width, height);
  }
}
