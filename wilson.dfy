/** Wilson's generator: loop-erased random walks from cells outside the maze, each committed
    as a new branch once it reaches the maze. */
module Wilson {
  import opened Grid
  import Chance
  import opened Carving
  import Reach
  import opened Search

  // ---------------------------------------------------------------------------
  // The cell list

  /** The carvable cells of rows before y, then of row y left of column x, in scan order. */
  function ScanCount(x: int, y: int, width: int): int
  {
    ((y - 1) / 2) * (width / 2) + (x - 1) / 2
  }

  /** A carvable row adds floor(width/2) cells to the count. */
  lemma ScanCountRow(y: int, width: int)
    requires width >= 3 && width % 2 == 1 && Odd(y) && y >= 1
    ensures ScanCount(1, y + 2, width) == ScanCount(1, y, width) + (width - 1) / 2
  {
    OddMod(y);
    assert (y + 1) / 2 == (y - 1) / 2 + 1;
  }

  /** The inner loop of the cell listing: appends the carvable cells of row y, west to east. */
  method RowCells(cells: seq<(int, int)>, y: int, width: int, height: int) returns (cells': seq<(int, int)>)
    requires ValidDims(width, height) && 1 <= y < height - 1 && Odd(y)
    requires forall c :: c in cells ==> IsCell(c.0, c.1, width, height) && c.1 < y
    requires forall a, b :: IsCell(a, b, width, height) && b < y ==> (a, b) in cells
    ensures forall c :: c in cells' ==> IsCell(c.0, c.1, width, height) && c.1 < y + 2
    ensures forall a, b :: IsCell(a, b, width, height) && b < y + 2 ==> (a, b) in cells'
    ensures |cells'| == |cells| + (width - 1) / 2
  {
    cells' := cells;
    var x := 1;
    while x < width - 1
      invariant 1 <= x <= width && Odd(x)
      invariant forall c :: c in cells' ==> IsCell(c.0, c.1, width, height) && Before(c.0, c.1, x, y)
      invariant forall a, b :: IsCell(a, b, width, height) && Before(a, b, x, y) ==> (a, b) in cells'
      invariant |cells'| == |cells| + (x - 1) / 2
    {
      cells' := cells' + [(x, y)];
      OddNext(x);
      x := x + 2;
    }
    assert x == width by {
      OddMod(x);
      OddMod(width);
    }
    OddNext(y);
  }

  /** The first loop of scripts/gen.js wilsonsAlgorithm: lists the carvable cells row by row.
      The list holds exactly the carvable cells and has floor(width/2) *
      floor(height/2) entries. */
  method CellList(width: int, height: int) returns (cells: seq<(int, int)>)
    requires ValidDims(width, height)
    ensures forall c :: c in cells ==> IsCell(c.0, c.1, width, height)
    ensures forall a, b :: IsCell(a, b, width, height) ==> (a, b) in cells
    ensures |cells| == TotalCells(width, height)
  {
    cells := [];
    var y := 1;
    while y < height - 1
      invariant 1 <= y <= height && Odd(y)
      invariant forall c :: c in cells ==> IsCell(c.0, c.1, width, height) && c.1 < y
      invariant forall a, b :: IsCell(a, b, width, height) && b < y ==> (a, b) in cells
      invariant |cells| == ScanCount(1, y, width)
    {
      cells := RowCells(cells, y, width, height);
      ScanCountRow(y, width);
      OddNext(y);
      y := y + 2;
    }
    assert y == height by {
      OddMod(y);
      OddMod(height);
    }
  }

  // ---------------------------------------------------------------------------
  // The maze set

  /** The state between walks: the footprint, and `inMaze` holds exactly the addresses of the
      carvable cells that are passages, so its size is the carved count. */
  ghost predicate Tracked(s: seq<Code>, inMaze: set<int>, width: int, height: int)
  {
    && CarvedOnly(s, width, height)
    && (forall k :: k in inMaze ==> CellAddress(k, width, height))
    && (forall a, b :: IsCell(a, b, width, height) ==> (Idx(a, b, width) in inMaze <==> At(s, a, b, width) == W))
    && |inMaze| == Carved(s, width, height)
  }

  /** k is the row-major address of a carvable cell. */
  ghost predicate CellAddress(k: int, width: int, height: int)
  {
    exists a, b :: IsCell(a, b, width, height) && Idx(a, b, width) == k
  }

  /** Opening a carvable cell (alone or behind a link) and adding its address keeps the maze set
      in step with the grid. */
  lemma AddCell(s: seq<Code>, s': seq<Code>, inMaze: set<int>, mx: int, my: int, x: int, y: int, width: int, height: int)
    requires Tracked(s, inMaze, width, height)
    requires IsCell(x, y, width, height) && (IsLink(mx, my, width, height) || (mx == x && my == y))
    requires CarvedPair(s, s', mx, my, x, y, width, height)
    ensures Tracked(s', inMaze + {Idx(x, y, width)}, width, height)
  {
    CellOpened(s, s', mx, my, x, y, width, height);
    var inMaze' := inMaze + {Idx(x, y, width)};
    assert InBounds(x, y, width, height);
    assert CellAddress(Idx(x, y, width), width, height);
    assert Idx(x, y, width) in inMaze <==> At(s, x, y, width) == W;
    if Idx(x, y, width) in inMaze {
      assert inMaze' == inMaze;
    } else {
      assert At(s, x, y, width) == B;
      assert |inMaze'| == |inMaze| + 1;
    }
    forall a, b | IsCell(a, b, width, height)
      ensures Idx(a, b, width) in inMaze' <==> At(s', a, b, width) == W
    {
      assert InBounds(a, b, width, height);
      if Idx(a, b, width) == Idx(x, y, width) {
        IdxInjective(a, b, x, y, width);
      }
    }
  }

  /** Opening the start cell of an all-wall grid makes it the whole maze. */
  lemma StartCell(s: seq<Code>, s': seq<Code>, x: int, y: int, width: int, height: int)
    requires ValidDims(width, height) && |s| == Area(width, height) && AllWall(s)
    requires IsCell(x, y, width, height) && CarvedPair(s, s', x, y, x, y, width, height)
    ensures Tracked(s', {Idx(x, y, width)}, width, height)
  {
    AllWallCarvedOnly(s, width, height);
    AllWallCount(s, Cells, width, height, height);
    forall a, b | IsCell(a, b, width, height)
      ensures At(s, a, b, width) == B
    {
      IdxRange(a, b, width, height);
    }
    AddCell(s, s', {}, x, y, x, y, width, height);
  }

  // ---------------------------------------------------------------------------
  // Committing a walk

  /** The link halfway between two cells two apart. */
  function Mid(a: (int, int), b: (int, int)): (int, int)
  {
    ((a.0 + b.0) / 2, (a.1 + b.1) / 2)
  }

  /** The position halfway between two neighbouring carvable cells is a link. */
  lemma MidLink(a: (int, int), b: (int, int), width: int, height: int)
    requires IsCell(a.0, a.1, width, height) && IsCell(b.0, b.1, width, height) && Adjacent(a.0, a.1, b.0, b.1)
    ensures IsLink(Mid(a, b).0, Mid(a, b).1, width, height) && InBounds(Mid(a, b).0, Mid(a, b).1, width, height)
  {
    var (dx, dy) := (b.0 - a.0, b.1 - a.1);
    StepFromCell(a.0, a.1, dx, dy, width, height);
    assert Mid(a, b) == (a.0 + dx / 2, a.1 + dy / 2);
  }

  /** The links between consecutive entries of a path. */
  function Mids(path: seq<(int, int)>): (r: seq<(int, int)>)
    ensures |r| == if |path| < 2 then 0 else |path| - 1
  {
    if |path| < 2 then [] else Mids(path[..|path| - 1]) + [Mid(path[|path| - 2], path[|path| - 1])]
  }

  /** The addresses of the entries of a path. */
  function Addresses(path: seq<(int, int)>, width: int): set<int>
  {
    if |path| == 0 then {} else Addresses(path[..|path| - 1], width) + {Idx(path[|path| - 1].0, path[|path| - 1].1, width)}
  }

  /** Every entry is a carvable cell and consecutive entries are two apart along one axis. */
  ghost predicate Chain(path: seq<(int, int)>, width: int, height: int)
  {
    && (forall k :: 0 <= k < |path| ==> IsCell(path[k].0, path[k].1, width, height))
    && (forall k :: 0 < k < |path| ==> Adjacent(path[k - 1].0, path[k - 1].1, path[k].0, path[k].1))
  }

  /** s' is s with every cell of `path` and every link between consecutive entries opened. */
  ghost predicate Committed(s: seq<Code>, s': seq<Code>, path: seq<(int, int)>, width: int, height: int)
  {
    && |s'| == |s|
    && forall x, y :: InBounds(x, y, width, height) ==>
         At(s', x, y, width) == if (x, y) in path || (x, y) in Mids(path) then W else At(s, x, y, width)
  }

  /** Opening entry i of the path and the link before it extends the committed prefix by one. */
  lemma CommitStep(s0: seq<Code>, s: seq<Code>, s': seq<Code>, path: seq<(int, int)>, i: int, mx: int, my: int, width: int, height: int)
    requires 0 <= i < |path| && Committed(s0, s, path[..i], width, height)
    requires (mx, my) == if i == 0 then path[0] else Mid(path[i - 1], path[i])
    requires CarvedPair(s, s', mx, my, path[i].0, path[i].1, width, height)
    ensures Committed(s0, s', path[..i + 1], width, height)
  {
    assert path[..i + 1][..i] == path[..i];
    assert path[..i + 1] == path[..i] + [path[i]];
    if i > 0 {
      assert Mids(path[..i + 1]) == Mids(path[..i]) + [(mx, my)];
    }
  }

  /** The position opened together with entry i: the entry itself for the first, else the
      link back to the previous entry. */
  function EntryLink(path: seq<(int, int)>, i: int): (int, int)
    requires 0 <= i < |path|
  {
    if i == 0 then path[0] else Mid(path[i - 1], path[i])
  }

  /** One pass of the commit loop: `maze[y * width + x] = W`, then for i > 0 the write at the
      midpoint `((y + py) / 2) * width + (x + px) / 2`. */
  method OpenEntry(maze: array<Code>, path: seq<(int, int)>, i: int, width: int, height: int)
    requires maze.Length == Area(width, height) && Chain(path, width, height) && 0 <= i < |path|
    modifies maze
    ensures IsCell(path[i].0, path[i].1, width, height)
    ensures IsLink(EntryLink(path, i).0, EntryLink(path, i).1, width, height) || EntryLink(path, i) == path[i]
    ensures CarvedPair(old(maze[..]), maze[..], EntryLink(path, i).0, EntryLink(path, i).1, path[i].0, path[i].1, width, height)
  {
    var (x, y) := path[i];
    assert IsCell(x, y, width, height) && InBounds(x, y, width, height);
    var mx, my := x, y;
    if i > 0 {
      var (px, py) := path[i - 1];
      MidLink(path[i - 1], path[i], width, height);
      mx, my := (x + px) / 2, (y + py) / 2;
    }
    Open(maze, mx, my, x, y, width, height);
  }

  /** One pass of the commit loop keeps the loop invariant. */
  lemma CommitKeeps(s0: seq<Code>, s: seq<Code>, s': seq<Code>, inMaze0: set<int>, inMaze: set<int>,
                    path: seq<(int, int)>, i: int, width: int, height: int)
    requires 0 <= i < |path| && IsCell(path[i].0, path[i].1, width, height)
    requires IsLink(EntryLink(path, i).0, EntryLink(path, i).1, width, height) || EntryLink(path, i) == path[i]
    requires CarvedPair(s, s', EntryLink(path, i).0, EntryLink(path, i).1, path[i].0, path[i].1, width, height)
    requires Tracked(s, inMaze, width, height) && inMaze == inMaze0 + Addresses(path[..i], width)
    requires Committed(s0, s, path[..i], width, height)
    ensures Tracked(s', inMaze + {Idx(path[i].0, path[i].1, width)}, width, height)
    ensures inMaze + {Idx(path[i].0, path[i].1, width)} == inMaze0 + Addresses(path[..i + 1], width)
    ensures Committed(s0, s', path[..i + 1], width, height)
  {
    var (mx, my) := EntryLink(path, i);
    AddCell(s, s', inMaze, mx, my, path[i].0, path[i].1, width, height);
    CommitStep(s0, s, s', path, i, mx, my, width, height);
    assert path[..i + 1][..i] == path[..i];
  }

  /** The commit loop of scripts/gen.js wilsonsAlgorithm: opens every cell of the path and,
      from the second entry on, the link back to the previous entry, and adds every cell to the
      maze set. */
  method Commit(maze: array<Code>, inMaze: set<int>, path: seq<(int, int)>, width: int, height: int)
    returns (inMaze': set<int>)
    requires maze.Length == Area(width, height)
    requires Tracked(maze[..], inMaze, width, height) && Chain(path, width, height)
    modifies maze
    ensures Tracked(maze[..], inMaze', width, height)
    ensures inMaze' == inMaze + Addresses(path, width)
    ensures Committed(old(maze[..]), maze[..], path, width, height)
  {
    inMaze' := inMaze;
    ghost var s0: seq<Code> := maze[..];
    var i := 0;
    while i < |path|
      invariant 0 <= i <= |path|
      invariant Tracked(maze[..], inMaze', width, height)
      invariant inMaze' == inMaze + Addresses(path[..i], width)
      invariant Committed(s0, maze[..], path[..i], width, height)
    {
      ghost var s: seq<Code> := maze[..];
      OpenEntry(maze, path, i, width, height);
      CommitKeeps(s0, s, maze[..], inMaze, inMaze', path, i, width, height);
      inMaze' := inMaze' + {Key(path[i], width)};
      i := i + 1;
    }
    assert path[..|path|] == path;
  }

  /** Entry k of the links is the link between entries k and k + 1. */
  lemma {:induction false} MidsAt(path: seq<(int, int)>, k: int)
    requires 0 <= k < |path| - 1
    ensures Mids(path)[k] == Mid(path[k], path[k + 1])
    decreases |path|
  {
    var prefix := path[..|path| - 1];
    if k < |path| - 2 {
      MidsAt(prefix, k);
      assert prefix[k] == path[k] && prefix[k + 1] == path[k + 1];
    }
  }

  /** The link between two neighbouring cells is one unit step from each of them. */
  lemma MidSteps(a: (int, int), b: (int, int))
    requires Adjacent(a.0, a.1, b.0, b.1)
    ensures UnitStep(b.0, b.1, Mid(a, b).0, Mid(a, b).1) && UnitStep(Mid(a, b).0, Mid(a, b).1, a.0, a.1)
  {
  }

  /** A cell next to a reached cell is reached when it and the link between them are passages. */
  lemma StepBack(s: seq<Code>, sx: int, sy: int, a: (int, int), b: (int, int), width: int, height: int)
    requires IsCell(a.0, a.1, width, height) && IsCell(b.0, b.1, width, height) && Adjacent(a.0, a.1, b.0, b.1)
    requires At(s, a.0, a.1, width) == W && At(s, Mid(a, b).0, Mid(a, b).1, width) == W
    requires Reach.Reached(s, sx, sy, b.0, b.1, width, height)
    ensures Reach.Reached(s, sx, sy, a.0, a.1, width, height)
  {
    var m := Mid(a, b);
    MidLink(a, b, width, height);
    MidSteps(a, b);
    Reach.ReachedStep(s, sx, sy, b.0, b.1, m.0, m.1, width, height);
    Reach.ReachedStep(s, sx, sy, m.0, m.1, a.0, a.1, width, height);
  }

  /** When the last entry of a committed chain is reached, so is every entry: walk back along
      the chain through the opened links. */
  lemma {:induction false} ChainReached(s: seq<Code>, s': seq<Code>, path: seq<(int, int)>, sx: int, sy: int, k: int, width: int, height: int)
    requires Chain(path, width, height) && Committed(s, s', path, width, height)
    requires 0 <= k < |path|
    requires Reach.Reached(s', sx, sy, path[|path| - 1].0, path[|path| - 1].1, width, height)
    ensures Reach.Reached(s', sx, sy, path[k].0, path[k].1, width, height)
    decreases |path| - k
  {
    if k < |path| - 1 {
      ChainReached(s, s', path, sx, sy, k + 1, width, height);
      var (a, b) := (path[k], path[k + 1]);
      MidLink(a, b, width, height);
      MidsAt(path, k);
      assert Mid(a, b) in Mids(path) && a in path;
      assert InBounds(a.0, a.1, width, height);
      StepBack(s', sx, sy, a, b, width, height);
    }
  }

  /** Committing a chain whose last entry is already a passage keeps every passage reachable
      from (sx, sy): the new branch hangs off the maze at its last entry. */
  lemma CommitConnected(s: seq<Code>, s': seq<Code>, path: seq<(int, int)>, sx: int, sy: int, width: int, height: int)
    requires Reach.Connected(s, sx, sy, width, height)
    requires Chain(path, width, height) && |path| > 0
    requires At(s, path[|path| - 1].0, path[|path| - 1].1, width) == W
    requires Committed(s, s', path, width, height)
    ensures Reach.Connected(s', sx, sy, width, height)
  {
    forall a, b | Enterable(s, Interior, a, b, width, height)
      ensures Enterable(s', Interior, a, b, width, height)
    {
      assert InBounds(a, b, width, height);
    }
    var last := path[|path| - 1];
    assert Enterable(s, Interior, last.0, last.1, width, height);
    Reach.ReachedWiden(s, s', sx, sy, last.0, last.1, width, height);
    forall a, b | Enterable(s', Interior, a, b, width, height)
      ensures Reach.Reached(s', sx, sy, a, b, width, height)
    {
      assert InBounds(a, b, width, height);
      if (a, b) in path {
        var k :| 0 <= k < |path| && path[k] == (a, b);
        ChainReached(s, s', path, sx, sy, k, width, height);
      } else if (a, b) in Mids(path) {
        var j :| 0 <= j < |Mids(path)| && Mids(path)[j] == (a, b);
        MidsAt(path, j);
        ChainReached(s, s', path, sx, sy, j, width, height);
        MidSteps(path[j], path[j + 1]);
        Reach.ReachedStep(s', sx, sy, path[j].0, path[j].1, a, b, width, height);
      } else {
        Reach.ReachedWiden(s, s', sx, sy, a, b, width, height);
      }
    }
  }

  // ---------------------------------------------------------------------------
  // The loop-erased walk

  /** No cell occurs twice in the path. */
  ghost predicate NoRepeats(path: seq<(int, int)>)
  {
    forall i, j :: 0 <= i < j < |path| ==> path[i] != path[j]
  }

  /** The walk path: a chain of carvable cells without repeats, every entry but the last one
      outside the maze set. */
  ghost predicate ErasedPath(path: seq<(int, int)>, inMaze: set<int>, width: int, height: int)
  {
    && |path| > 0 && Chain(path, width, height) && NoRepeats(path)
    && forall k :: 0 <= k < |path| - 1 ==> Idx(path[k].0, path[k].1, width) !in inMaze
  }

  /** `path.findIndex(([x, y]) => x === nx && y === ny)`: the first index holding (nx, ny),
      or -1 when there is none. */
  method FindIndex(path: seq<(int, int)>, nx: int, ny: int) returns (idx: int)
    ensures -1 <= idx < |path|
    ensures idx == -1 <==> (nx, ny) !in path
    ensures idx >= 0 ==> path[idx] == (nx, ny) && (nx, ny) !in path[..idx]
  {
    var i := 0;
    while i < |path|
      invariant 0 <= i <= |path| && (nx, ny) !in path[..i]
    {
      var (x, y) := path[i];
      if x == nx && y == ny {
        return i;
      }
      assert path[..i + 1] == path[..i] + [path[i]];
      i := i + 1;
    }
    assert path[..i] == path;
    return -1;
  }

  /** Moving onto a neighbouring carvable cell: a cell already on the path cuts the path back
      to it (erasing the loop), any other cell is appended. */
  lemma MoveKeeps(path: seq<(int, int)>, inMaze: set<int>, nx: int, ny: int, idx: int, width: int, height: int)
    requires ErasedPath(path, inMaze, width, height)
    requires Idx(path[|path| - 1].0, path[|path| - 1].1, width) !in inMaze
    requires IsCell(nx, ny, width, height) && Adjacent(path[|path| - 1].0, path[|path| - 1].1, nx, ny)
    requires -1 <= idx < |path| && (idx == -1 <==> (nx, ny) !in path) && (idx >= 0 ==> path[idx] == (nx, ny))
    ensures ErasedPath(if idx != -1 then path[..idx + 1] else path + [(nx, ny)], inMaze, width, height)
  {
    if idx == -1 {
      var path' := path + [(nx, ny)];
      forall i, j | 0 <= i < j < |path'|
        ensures path'[i] != path'[j]
      {
        if j == |path| {
          assert path[i] in path;
        }
      }
    }
  }

  /** The walk of scripts/gen.js wilsonsAlgorithm from a cell outside the maze: draws a
      direction, ignores a step that would leave the lattice, and otherwise moves, erasing any
      loop. The walk ends only with probability one, so the model spends one unit of `fuel`
      per draw; `reached` reports whether the walk ended on the maze. */
  method ErasedWalk(inMaze: set<int>, start: (int, int), width: int, height: int, fuel: nat)
    returns (path: seq<(int, int)>, fuel': nat, reached: bool)
    requires IsCell(start.0, start.1, width, height) && Idx(start.0, start.1, width) !in inMaze
    ensures ErasedPath(path, inMaze, width, height) && path[0] == start
    ensures reached <==> Idx(path[|path| - 1].0, path[|path| - 1].1, width) in inMaze
    ensures fuel' <= fuel
  {
    var current := start;
    path := [current];
    fuel' := fuel;
    var key := Key(current, width);
    while key !in inMaze && fuel' > 0
      invariant ErasedPath(path, inMaze, width, height) && path[0] == start
      invariant current == path[|path| - 1] && key == Idx(current.0, current.1, width)
      invariant fuel' <= fuel
      decreases fuel'
    {
      var k := Chance.Pick(|Steps|);
      var (dx, dy) := Steps[k];
      var nx := current.0 + dx;
      var ny := current.1 + dy;
      if 1 <= nx < width - 1 && 1 <= ny < height - 1 {
        StepFromCell(current.0, current.1, dx, dy, width, height);
        current := (nx, ny);
        var idx := FindIndex(path, nx, ny);
        MoveKeeps(path, inMaze, nx, ny, idx, width, height);
        if idx != -1 {
          path := path[..idx + 1];
        } else {
          path := path + [current];
        }
        key := Key(current, width);
      }
      fuel' := fuel' - 1;
    }
    reached := key in inMaze;
  }

  // ---------------------------------------------------------------------------
  // The generator

  /** `c[1] * width + c[0]`, the address the source uses as the key of cell c. */
  function Key(c: (int, int), width: int): (k: int)
    ensures k == Idx(c.0, c.1, width)
  {
    IdxValue(c.0, c.1, width);
    c.1 * width + c.0
  }

  /** One pass of the outer loop: draw cells until one lies outside the maze, walk from it,
      and commit the walk if it reached the maze. Spends at least one unit of fuel. */
  method Branch(maze: array<Code>, cells: seq<(int, int)>, inMaze: set<int>, ghost sx: int, ghost sy: int, width: int, height: int, fuel: nat)
    returns (inMaze': set<int>, fuel': nat)
    requires maze.Length == Area(width, height) && Tracked(maze[..], inMaze, width, height)
    requires Reach.Connected(maze[..], sx, sy, width, height)
    requires |cells| > 0 && forall c :: c in cells ==> IsCell(c.0, c.1, width, height)
    requires fuel > 0
    modifies maze
    ensures Tracked(maze[..], inMaze', width, height) && fuel' < fuel
    ensures inMaze <= inMaze' && Reach.Connected(maze[..], sx, sy, width, height)
  {
    inMaze' := inMaze;
    var k := Chance.Pick(|cells|);
    var current := cells[k];
    fuel' := fuel - 1;
    while Key(current, width) in inMaze && fuel' > 0
      invariant current in cells && fuel' < fuel
      invariant Tracked(maze[..], inMaze, width, height)
      invariant Reach.Connected(maze[..], sx, sy, width, height)
      decreases fuel'
    {
      k := Chance.Pick(|cells|);
      current := cells[k];
      fuel' := fuel' - 1;
    }
    if Key(current, width) !in inMaze {
      var path, reached;
      path, fuel', reached := ErasedWalk(inMaze, current, width, height, fuel');
      if reached {
        ghost var s: seq<Code> := maze[..];
        assert IsCell(path[|path| - 1].0, path[|path| - 1].1, width, height);
        inMaze' := Commit(maze, inMaze, path, width, height);
        CommitConnected(s, maze[..], path, sx, sy, width, height);
      }
    }
  }

  /** scripts/gen.js wilsonsAlgorithm. Opens one random cell, then, while the maze set is short
      of the cell count, starts a loop-erased walk from a random cell outside the maze and
      commits it once it reaches the maze. Every draw spends one unit of `fuel`. Carves only
      the lattice, keeps the passages one region, and is finished exactly when every carvable
      cell is carved. */
  method WilsonsAlgorithm(maze: array<Code>, width: int, height: int, fuel: nat) returns (finished: bool)
    requires ValidDims(width, height) && maze.Length == Area(width, height) && AllWall(maze[..])
    modifies maze
    ensures CarvedOnly(maze[..], width, height)
    ensures finished <==> forall x, y :: IsCell(x, y, width, height) ==> At(maze[..], x, y, width) == W
    ensures Reach.OneRegion(maze[..], width, height)
  {
    var cells := CellList(width, height);
    var k := Chance.Pick(|cells|);
    var start := cells[k];
    ghost var s0: seq<Code> := maze[..];
    assert IsCell(start.0, start.1, width, height) && InBounds(start.0, start.1, width, height);
    Open(maze, start.0, start.1, start.0, start.1, width, height);
    StartCell(s0, maze[..], start.0, start.1, width, height);
    Reach.ConnectedStart(s0, maze[..], start.0, start.1, width, height);
    var inMaze: set<int> := {Key(start, width)};
    var totalCells := |cells|;
    var fuel' := fuel;

    while |inMaze| < totalCells && fuel' > 0
      invariant Tracked(maze[..], inMaze, width, height)
      invariant Idx(start.0, start.1, width) in inMaze
      invariant Reach.Connected(maze[..], start.0, start.1, width, height)
      decreases fuel'
    {
      inMaze, fuel' := Branch(maze, cells, inMaze, start.0, start.1, width, height, fuel');
    }
    assert At(maze[..], start.0, start.1, width) == W;
    Reach.ConnectedRegion(maze[..], start.0, start.1, width, height);
    CarvedBound(maze[..], width, height);
    finished := |inMaze| >= totalCells;
    if !finished {
      var x, y := UncarvedCell(maze[..], width, height);
    }
  }
}
