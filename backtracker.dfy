/** The recursive backtracker: a depth-first carve with an explicit stack. */
module Backtracker {
  import opened Grid
  import Chance
  import opened Carving
  import Reach

  /** Consecutive stack entries are two apart along one axis with a passage between them. */
  ghost predicate Chained(s: seq<Code>, stack: seq<(int, int)>, width: int)
  {
    forall k :: 0 < k < |stack| ==> Linked(s, stack[k - 1], stack[k], width)
  }

  /** Cells a and b are two apart along one axis with a passage halfway between them. */
  ghost predicate Linked(s: seq<Code>, a: (int, int), b: (int, int), width: int)
  {
    Adjacent(a.0, a.1, b.0, b.1) && At(s, (a.0 + b.0) / 2, (a.1 + b.1) / 2, width) == W
  }

  /** Pushing a cell (nx, ny) two steps from the top of the stack, after carving it and the
      link (mx, my) halfway, keeps consecutive entries linked. */
  lemma {:induction false} PushKeepsLinks(s: seq<Code>, s': seq<Code>, stack: seq<(int, int)>, mx: int, my: int, nx: int, ny: int, width: int, height: int)
    requires PassageCells(s, stack, width, height) && Chained(s, stack, width) && |stack| > 0
    requires Adjacent(stack[|stack| - 1].0, stack[|stack| - 1].1, nx, ny)
    requires mx == (stack[|stack| - 1].0 + nx) / 2 && my == (stack[|stack| - 1].1 + ny) / 2
    requires CarvedPair(s, s', mx, my, nx, ny, width, height)
    ensures Chained(s', stack + [(nx, ny)], width)
  {
    var stack' := stack + [(nx, ny)];
    forall k | 0 < k < |stack'|
      ensures Linked(s', stack'[k - 1], stack'[k], width)
    {
      if k < |stack| {
        var (a, b) := (stack[k - 1], stack[k]);
        assert stack'[k] == b && stack'[k - 1] == a && Linked(s, a, b, width);
        assert IsCell(b.0, b.1, width, height);
        assert InBounds((a.0 + b.0) / 2, (a.1 + b.1) / 2, width, height);
      } else {
        assert stack'[k - 1] == stack[|stack| - 1] && stack'[k] == (nx, ny);
      }
    }
  }

  /** The loop invariant of the backtracker: the growth state of the stack (footprint, carved
      count, entries carved, finished cells off the stack, start carved, passages reachable
      from the start) and the stack chain. */
  ghost predicate Progress(s: seq<Code>, stack: seq<(int, int)>, carvedCells: int, sx: int, sy: int, width: int, height: int)
  {
    Growing(s, stack, carvedCells, sx, sy, width, height) && Chained(s, stack, width)
  }

  /** Popping a top none of whose shuffled directions leads to a wall cell keeps the invariant. */
  lemma {:induction false} PopStep(s: seq<Code>, stack: seq<(int, int)>, carvedCells: int, sx: int, sy: int, directions: seq<(int, int)>, width: int, height: int)
    requires Progress(s, stack, carvedCells, sx, sy, width, height)
    requires |stack| > 0 && multiset(directions) == multiset(Steps)
    requires forall k :: 0 <= k < |directions| ==>
      !OpensWall(s, stack[|stack| - 1].0, stack[|stack| - 1].1, directions[k].0, directions[k].1, width, height)
    ensures Progress(s, stack[..|stack| - 1], carvedCells, sx, sy, width, height)
  {
    GrowRemove(s, stack, carvedCells, sx, sy, |stack| - 1, directions, width, height);
    assert stack[..|stack| - 1] + stack[|stack|..] == stack[..|stack| - 1];
  }

  /** Opens the link from the top of the stack towards the wall cell two steps away in
      direction (dx, dy) and pushes that cell. */
  method Push(maze: array<Code>, stack: seq<(int, int)>, carvedCells: int, sx: int, sy: int, dx: int, dy: int, width: int, height: int)
    returns (stack': seq<(int, int)>)
    requires maze.Length == Area(width, height)
    requires Progress(maze[..], stack, carvedCells, sx, sy, width, height)
    requires |stack| > 0 && (dx, dy) in Steps
    requires OpensWall(maze[..], stack[|stack| - 1].0, stack[|stack| - 1].1, dx, dy, width, height)
    modifies maze
    ensures stack' == stack + [(stack[|stack| - 1].0 + dx, stack[|stack| - 1].1 + dy)]
    ensures Progress(maze[..], stack', carvedCells + 1, sx, sy, width, height)
  {
    var (x, y) := stack[|stack| - 1];
    ghost var s: seq<Code> := maze[..];
    assert IsCell(x, y, width, height) && At(maze[..], x, y, width) == W;
    stack' := Extend(maze, stack, carvedCells, sx, sy, x, y, dx, dy, width, height);
    assert x + dx / 2 == (x + (x + dx)) / 2 && y + dy / 2 == (y + (y + dy)) / 2;
    PushKeepsLinks(s, maze[..], stack, x + dx / 2, y + dy / 2, x + dx, y + dy, width, height);
  }

  /** scripts/gen.js recursiveBacktracker. Carves only the lattice, each cell at most once
      (carvedCells always equals the number of passage cells), and finishes with every
      carvable cell carved and every passage reachable from the start. */
  method RecursiveBacktracker(maze: array<Code>, startX: int, startY: int, width: int, height: int)
    requires ValidDims(width, height) && maze.Length == Area(width, height)
    requires AllWall(maze[..]) && IsCell(startX, startY, width, height)
    modifies maze
    ensures CarvedOnly(maze[..], width, height)
    ensures forall x, y :: IsCell(x, y, width, height) ==> At(maze[..], x, y, width) == W
    ensures Reach.Connected(maze[..], startX, startY, width, height)
  {
    ghost var s0: seq<Code> := maze[..];
    assert InBounds(startX, startY, width, height);
    Open(maze, startX, startY, startX, startY, width, height);
    GrowStart(s0, maze[..], startX, startY, width, height);

    var stack := [(startX, startY)];
    var totalCells := (width / 2) * (height / 2);
    var carvedCells := 1;

    while |stack| > 0
      invariant Progress(maze[..], stack, carvedCells, startX, startY, width, height)
      decreases totalCells - carvedCells, |stack|
    {
      CarvedBound(maze[..], width, height);
      var (x, y) := stack[|stack| - 1];
      var directions := Chance.Shuffle(Steps);
      var carved, k := FirstOpening(maze[..], x, y, directions, width, height);
      if carved {
        assert directions[k] in multiset(Steps);
        stack := Push(maze, stack, carvedCells, startX, startY, directions[k].0, directions[k].1, width, height);
        carvedCells := carvedCells + 1;
      } else {
        PopStep(maze[..], stack, carvedCells, startX, startY, directions, width, height);
        stack := stack[..|stack| - 1];
      }
    }
    AllFinishedCarvesAll(maze[..], width, height, startX, startY);
  }
}
