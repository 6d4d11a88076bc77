/** Facts shared by the generators that grow a maze from a seed cell: when a cell is finished
    (no wall cell left around it), and why a run that leaves no unfinished passage cell
    behind has carved the whole lattice. */
module Carving {
  import opened Grid
  import Reach

  /** A neighbour position is a passage if it is a carvable cell at all. */
  ghost predicate OpenIfCell(s: seq<Code>, nx: int, ny: int, width: int, height: int)
  {
    IsCell(nx, ny, width, height) ==> At(s, nx, ny, width) == W
  }

  /** A cell whose four neighbours inside the border are all passages. */
  ghost predicate Finished(s: seq<Code>, x: int, y: int, width: int, height: int)
  {
    && OpenIfCell(s, x, y + 2, width, height)
    && OpenIfCell(s, x, y - 2, width, height)
    && OpenIfCell(s, x + 2, y, width, height)
    && OpenIfCell(s, x - 2, y, width, height)
  }

  /** Passage cells that are not in the working list are finished. */
  ghost predicate OffListFinished(s: seq<Code>, list: seq<(int, int)>, width: int, height: int)
  {
    forall x, y {:trigger Finished(s, x, y, width, height)} ::
      IsCell(x, y, width, height) && At(s, x, y, width) == W && (x, y) !in list ==>
        Finished(s, x, y, width, height)
  }

  /** Whether stepping from (x, y) by (dx, dy) lands on a wall cell strictly inside the border. */
  predicate OpensWall(s: seq<Code>, x: int, y: int, dx: int, dy: int, width: int, height: int)
  {
    1 <= x + dx < width - 1 && 1 <= y + dy < height - 1 && At(s, x + dx, y + dy, width) == B
  }

  /** A cell none of whose shuffled directions offers a wall cell inside the border is finished. */
  lemma {:induction false} StuckIsFinished(s: seq<Code>, directions: seq<(int, int)>, x: int, y: int, width: int, height: int)
    requires CarvedOnly(s, width, height) && multiset(directions) == multiset(Steps)
    requires forall k :: 0 <= k < |directions| ==> !OpensWall(s, x, y, directions[k].0, directions[k].1, width, height)
    ensures Finished(s, x, y, width, height)
  {
    forall d | d in Steps
      ensures OpenIfCell(s, x + d.0, y + d.1, width, height)
    {
      assert d in multiset(directions);
      var k :| 0 <= k < |directions| && directions[k] == d;
      if IsCell(x + d.0, y + d.1, width, height) {
        assert InBounds(x + d.0, y + d.1, width, height);
      }
    }
    assert Steps[0] == (0, 2) && Steps[1] == (0, -2) && Steps[2] == (2, 0) && Steps[3] == (-2, 0);
  }

  /** A wall cell cannot sit next to a finished cell. */
  lemma NotNextToFinished(s: seq<Code>, width: int, height: int, cx: int, cy: int, dx: int, dy: int)
    requires IsCell(cx, cy, width, height) && (dx, dy) in Steps
    requires Finished(s, cx + dx, cy + dy, width, height)
    ensures At(s, cx, cy, width) == W
  {
  }

  /** When every passage cell is finished and one exists, the whole lattice is carved. */
  lemma {:induction false} AllFinishedCarvesAll(s: seq<Code>, width: int, height: int, sx: int, sy: int)
    requires ValidDims(width, height) && CarvedOnly(s, width, height)
    requires IsCell(sx, sy, width, height) && At(s, sx, sy, width) == W
    requires OffListFinished(s, [], width, height)
    ensures forall x, y :: IsCell(x, y, width, height) ==> At(s, x, y, width) == W
  {
    forall x, y | IsCell(x, y, width, height)
      ensures At(s, x, y, width) == W
    {
      if At(s, x, y, width) != W {
        assert InBounds(x, y, width, height);
        var cx, cy, dx, dy := WallNextToPassage(s, width, height, sx, sy, x, y);
        assert (cx + dx, cy + dy) !in [];
        NotNextToFinished(s, width, height, cx, cy, dx, dy);
      }
    }
  }

  /** A finished cell stays finished when a pair of positions is carved. */
  lemma FinishedGrows(s: seq<Code>, s': seq<Code>, mx: int, my: int, nx: int, ny: int, x: int, y: int, width: int, height: int)
    requires CarvedPair(s, s', mx, my, nx, ny, width, height)
    requires Finished(s, x, y, width, height)
    ensures Finished(s', x, y, width, height)
  {
    assert InBounds(x, y + 2, width, height) || !IsCell(x, y + 2, width, height);
    assert InBounds(x, y - 2, width, height) || !IsCell(x, y - 2, width, height);
    assert InBounds(x + 2, y, width, height) || !IsCell(x + 2, y, width, height);
    assert InBounds(x - 2, y, width, height) || !IsCell(x - 2, y, width, height);
  }

  /** Carving a link and a fresh cell that is appended to the working list keeps off-list cells finished. */
  lemma {:induction false} AppendKeepsFinished(s: seq<Code>, s': seq<Code>, list: seq<(int, int)>, mx: int, my: int, nx: int, ny: int, width: int, height: int)
    requires OffListFinished(s, list, width, height)
    requires IsLink(mx, my, width, height)
    requires CarvedPair(s, s', mx, my, nx, ny, width, height)
    ensures OffListFinished(s', list + [(nx, ny)], width, height)
  {
    forall x, y {:trigger Finished(s', x, y, width, height)}
      | IsCell(x, y, width, height) && At(s', x, y, width) == W && (x, y) !in list + [(nx, ny)]
      ensures Finished(s', x, y, width, height)
    {
      assert InBounds(x, y, width, height) && (x, y) != (mx, my);
      assert (x, y) !in list;
      assert Finished(s, x, y, width, height);
      FinishedGrows(s, s', mx, my, nx, ny, x, y, width, height);
    }
  }

  /** Removing a finished entry from the working list keeps off-list cells finished. */
  lemma {:induction false} RemoveKeepsFinished(s: seq<Code>, list: seq<(int, int)>, i: int, width: int, height: int)
    requires OffListFinished(s, list, width, height)
    requires 0 <= i < |list| && Finished(s, list[i].0, list[i].1, width, height)
    ensures OffListFinished(s, list[..i] + list[i + 1..], width, height)
  {
    var list' := list[..i] + list[i + 1..];
    forall x, y {:trigger Finished(s, x, y, width, height)}
      | IsCell(x, y, width, height) && At(s, x, y, width) == W && (x, y) !in list'
      ensures Finished(s, x, y, width, height)
    {
      if (x, y) != list[i] {
        forall j | 0 <= j < |list|
          ensures list[j] != (x, y)
        {
          if j < i {
            assert list[j] == list'[j];
          } else if j > i {
            assert list[j] == list'[j - 1];
          }
        }
      }
    }
  }

  /** Every entry of a working list is a passage cell. */
  ghost predicate PassageCells(s: seq<Code>, list: seq<(int, int)>, width: int, height: int)
  {
    forall k :: 0 <= k < |list| ==>
      IsCell(list[k].0, list[k].1, width, height) && At(s, list[k].0, list[k].1, width) == W
  }

  /** The state of a generator that grows the maze from a working list of cells: the footprint,
      `count` equal to the number of passage cells, list entries that are passage cells, every
      passage cell off the list finished, the start cell carved, and every passage reachable
      from the start. */
  ghost predicate Growing(s: seq<Code>, list: seq<(int, int)>, count: int, sx: int, sy: int, width: int, height: int)
  {
    && CarvedOnly(s, width, height)
    && count == Carved(s, width, height)
    && PassageCells(s, list, width, height)
    && OffListFinished(s, list, width, height)
    && IsCell(sx, sy, width, height) && At(s, sx, sy, width) == W
    && Reach.Connected(s, sx, sy, width, height)
  }

  /** Opening the start cell of an all-wall grid and listing it starts the growth with one cell. */
  lemma GrowStart(s: seq<Code>, s': seq<Code>, sx: int, sy: int, width: int, height: int)
    requires ValidDims(width, height) && |s| == Area(width, height)
    requires AllWall(s) && IsCell(sx, sy, width, height)
    requires CarvedPair(s, s', sx, sy, sx, sy, width, height)
    ensures Growing(s', [(sx, sy)], 1, sx, sy, width, height)
  {
    AllWallCarvedOnly(s, width, height);
    AllWallCount(s, Cells, width, height, height);
    assert InBounds(sx, sy, width, height);
    CellOpened(s, s', sx, sy, sx, sy, width, height);
    Reach.ConnectedStart(s, s', sx, sy, width, height);
  }

  /** Appending a freshly carved cell keeps every list entry a passage cell. */
  lemma {:induction false} AppendKeepsCells(s: seq<Code>, s': seq<Code>, list: seq<(int, int)>, mx: int, my: int, nx: int, ny: int, width: int, height: int)
    requires PassageCells(s, list, width, height) && IsCell(nx, ny, width, height)
    requires CarvedPair(s, s', mx, my, nx, ny, width, height)
    ensures PassageCells(s', list + [(nx, ny)], width, height)
  {
    var list' := list + [(nx, ny)];
    forall k | 0 <= k < |list'|
      ensures IsCell(list'[k].0, list'[k].1, width, height) && At(s', list'[k].0, list'[k].1, width) == W
    {
      if k < |list| {
        assert list'[k] == list[k];
        assert InBounds(list[k].0, list[k].1, width, height);
      } else {
        assert InBounds(nx, ny, width, height);
      }
    }
  }

  /** Removing an entry keeps every remaining entry a passage cell. */
  lemma {:induction false} RemoveKeepsCells(s: seq<Code>, list: seq<(int, int)>, i: int, width: int, height: int)
    requires PassageCells(s, list, width, height) && 0 <= i < |list|
    ensures PassageCells(s, list[..i] + list[i + 1..], width, height)
  {
    var list' := list[..i] + list[i + 1..];
    forall k | 0 <= k < |list'|
      ensures IsCell(list'[k].0, list'[k].1, width, height) && At(s, list'[k].0, list'[k].1, width) == W
    {
      if k < i {
        assert list'[k] == list[k];
      } else {
        assert list'[k] == list[k + 1];
      }
    }
  }

  /** Opening the link from a carvable cell (x, y) towards a wall cell two steps away and
      appending that cell keeps the growth state and adds one passage cell. */
  lemma {:induction false} GrowAppend(s: seq<Code>, s': seq<Code>, list: seq<(int, int)>, count: int, sx: int, sy: int, x: int, y: int, dx: int, dy: int, width: int, height: int)
    requires Growing(s, list, count, sx, sy, width, height)
    requires IsCell(x, y, width, height) && At(s, x, y, width) == W
    requires (dx, dy) in Steps && OpensWall(s, x, y, dx, dy, width, height)
    requires CarvedPair(s, s', x + dx / 2, y + dy / 2, x + dx, y + dy, width, height)
    ensures Growing(s', list + [(x + dx, y + dy)], count + 1, sx, sy, width, height)
  {
    var (mx, my, nx, ny) := (x + dx / 2, y + dy / 2, x + dx, y + dy);
    StepFromCell(x, y, dx, dy, width, height);
    CellOpened(s, s', mx, my, nx, ny, width, height);
    AppendKeepsCells(s, s', list, mx, my, nx, ny, width, height);
    AppendKeepsFinished(s, s', list, mx, my, nx, ny, width, height);
    assert InBounds(sx, sy, width, height);
    Reach.CarveFrom(s, s', sx, sy, x, y, dx, dy, width, height);
  }

  /** Removing list entry i, none of whose shuffled directions leads to a wall cell, keeps the
      growth state. */
  lemma {:induction false} GrowRemove(s: seq<Code>, list: seq<(int, int)>, count: int, sx: int, sy: int, i: int, directions: seq<(int, int)>, width: int, height: int)
    requires Growing(s, list, count, sx, sy, width, height)
    requires 0 <= i < |list| && multiset(directions) == multiset(Steps)
    requires forall k :: 0 <= k < |directions| ==>
      !OpensWall(s, list[i].0, list[i].1, directions[k].0, directions[k].1, width, height)
    ensures Growing(s, list[..i] + list[i + 1..], count, sx, sy, width, height)
  {
    StuckIsFinished(s, directions, list[i].0, list[i].1, width, height);
    RemoveKeepsFinished(s, list, i, width, height);
    RemoveKeepsCells(s, list, i, width, height);
  }

  /** The carving step of the list-driven generators: opens the link from the passage cell
      (x, y) towards the wall cell two steps away in direction (dx, dy) and appends that cell
      to the working list. Only those two positions of the grid change. */
  method Extend(maze: array<Code>, list: seq<(int, int)>, count: int, sx: int, sy: int, x: int, y: int, dx: int, dy: int, width: int, height: int)
    returns (list': seq<(int, int)>)
    requires maze.Length == Area(width, height)
    requires Growing(maze[..], list, count, sx, sy, width, height)
    requires IsCell(x, y, width, height) && At(maze[..], x, y, width) == W
    requires (dx, dy) in Steps && OpensWall(maze[..], x, y, dx, dy, width, height)
    modifies maze
    ensures list' == list + [(x + dx, y + dy)]
    ensures Growing(maze[..], list', count + 1, sx, sy, width, height)
    ensures CarvedPair(old(maze[..]), maze[..], x + dx / 2, y + dy / 2, x + dx, y + dy, width, height)
  {
    StepFromCell(x, y, dx, dy, width, height);
    ghost var s: seq<Code> := maze[..];
    Open(maze, x + dx / 2, y + dy / 2, x + dx, y + dy, width, height);
    GrowAppend(s, maze[..], list, count, sx, sy, x, y, dx, dy, width, height);
    list' := list + [(x + dx, y + dy)];
  }

  /** The state of a walking generator that set out from (sx, sy): footprint, the visited count
      equal to the number of passage cells, the walker standing on a passage cell, and every
      passage reachable from the starting cell. */
  ghost predicate Walk(s: seq<Code>, visited: int, x: int, y: int, sx: int, sy: int, width: int, height: int)
  {
    && CarvedOnly(s, width, height)
    && visited == Carved(s, width, height)
    && IsCell(x, y, width, height) && At(s, x, y, width) == W
    && Reach.Connected(s, sx, sy, width, height)
  }

  /** Opening the start cell of an all-wall grid puts the walker there with one cell visited. */
  lemma WalkStart(s: seq<Code>, s': seq<Code>, x: int, y: int, width: int, height: int)
    requires ValidDims(width, height) && |s| == Area(width, height)
    requires AllWall(s) && IsCell(x, y, width, height)
    requires CarvedPair(s, s', x, y, x, y, width, height)
    ensures Walk(s', 1, x, y, x, y, width, height)
  {
    AllWallCarvedOnly(s, width, height);
    AllWallCount(s, Cells, width, height, height);
    assert InBounds(x, y, width, height);
    CellOpened(s, s', x, y, x, y, width, height);
    Reach.ConnectedStart(s, s', x, y, width, height);
  }

  /** Opening the link from a carvable cell (x, y) to a wall cell two steps away and moving there
      adds one visited cell. */
  lemma WalkCarve(s: seq<Code>, s': seq<Code>, visited: int, x: int, y: int, sx: int, sy: int, dx: int, dy: int, width: int, height: int)
    requires Walk(s, visited, x, y, sx, sy, width, height)
    requires (dx, dy) in Steps && OpensWall(s, x, y, dx, dy, width, height)
    requires CarvedPair(s, s', x + dx / 2, y + dy / 2, x + dx, y + dy, width, height)
    ensures Walk(s', visited + 1, x + dx, y + dy, sx, sy, width, height)
  {
    StepFromCell(x, y, dx, dy, width, height);
    CellOpened(s, s', x + dx / 2, y + dy / 2, x + dx, y + dy, width, height);
    assert InBounds(x + dx, y + dy, width, height);
    Reach.CarveFrom(s, s', sx, sy, x, y, dx, dy, width, height);
  }

  /** Moving onto a neighbouring cell inside the border that is not a wall keeps the walk state. */
  lemma WalkMove(s: seq<Code>, visited: int, x: int, y: int, sx: int, sy: int, dx: int, dy: int, width: int, height: int)
    requires Walk(s, visited, x, y, sx, sy, width, height) && (dx, dy) in Steps
    requires 1 <= x + dx < width - 1 && 1 <= y + dy < height - 1 && At(s, x + dx, y + dy, width) != B
    ensures Walk(s, visited, x + dx, y + dy, sx, sy, width, height)
  {
    StepFromCell(x, y, dx, dy, width, height);
    assert InBounds(x + dx, y + dy, width, height);
  }

  /** The carving step of the walking generators: opens the link towards a wall cell two steps
      away in direction (dx, dy) and moves there. */
  method WalkOn(maze: array<Code>, visited: int, x: int, y: int, ghost sx: int, ghost sy: int, dx: int, dy: int, width: int, height: int)
    returns (nx: int, ny: int)
    requires maze.Length == Area(width, height)
    requires Walk(maze[..], visited, x, y, sx, sy, width, height) && (dx, dy) in Steps
    requires OpensWall(maze[..], x, y, dx, dy, width, height)
    modifies maze
    ensures nx == x + dx && ny == y + dy
    ensures Walk(maze[..], visited + 1, nx, ny, sx, sy, width, height)
    ensures CarvedPair(old(maze[..]), maze[..], x + dx / 2, y + dy / 2, nx, ny, width, height)
  {
    StepFromCell(x, y, dx, dy, width, height);
    ghost var s: seq<Code> := maze[..];
    Open(maze, x + dx / 2, y + dy / 2, x + dx, y + dy, width, height);
    WalkCarve(s, maze[..], visited, x, y, sx, sy, dx, dy, width, height);
    nx, ny := x + dx, y + dy;
  }

  /** The direction scan shared by the carving generators: the first of the shuffled directions
      that leads to a wall cell inside the border, if any. */
  method FirstOpening(maze: seq<Code>, x: int, y: int, directions: seq<(int, int)>, width: int, height: int)
    returns (found: bool, k: int)
    requires |maze| == Area(width, height)
    ensures found ==> 0 <= k < |directions| && OpensWall(maze, x, y, directions[k].0, directions[k].1, width, height)
    ensures forall j :: 0 <= j < (if found then k else |directions|) ==>
      !OpensWall(maze, x, y, directions[j].0, directions[j].1, width, height)
  {
    var i := 0;
    while i < |directions|
      invariant 0 <= i <= |directions|
      invariant forall j :: 0 <= j < i ==> !OpensWall(maze, x, y, directions[j].0, directions[j].1, width, height)
    {
      var (dx, dy) := directions[i];
      var nx := x + dx;
      var ny := y + dy;
      if 1 <= nx < width - 1 && 1 <= ny < height - 1 {
        IdxRange(nx, ny, width, height);
        if maze[Idx(nx, ny, width)] == B {
          return true, i;
        }
      }
      i := i + 1;
    }
    return false, 0;
  }

}
