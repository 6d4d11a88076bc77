/** The growing-tree generator: a working list of cells from which the next cell to extend is
    chosen by a selection policy. */
module GrowingTree {
  import opened Grid
  import Chance
  import opened Carving
  import Reach

  /** The `selection` argument of scripts/gen.js growingTree: 'last', 'random' or 'mix'. */
  datatype Selection = Last | Random | Mix

  /** The index the selection policy picks from a list of n entries: the newest entry for
      Last, any entry for Random, and for Mix the newest or any entry depending on a coin. */
  method Select(selection: Selection, n: nat) returns (index: nat)
    requires n > 0
    ensures index < n
    ensures selection == Last ==> index == n - 1
  {
    match selection {
      case Random =>
        index := Chance.Pick(n);
      case Mix =>
        var heads := Chance.Coin();
        if heads {
          index := n - 1;
        } else {
          index := Chance.Pick(n);
        }
      case Last =>
        index := n - 1;
    }
  }

  /** scripts/gen.js growingTree. Carves only the lattice, keeps `visited` equal to the number
      of passage cells, removes an entry whenever nothing was carved from it, and finishes
      with every carvable cell carved and every passage reachable from the start, whatever
      the selection policy. */
  method GrowingTree(maze: array<Code>, startX: int, startY: int, width: int, height: int, selection: Selection)
    requires ValidDims(width, height) && maze.Length == Area(width, height)
    requires AllWall(maze[..]) && IsCell(startX, startY, width, height)
    modifies maze
    ensures CarvedOnly(maze[..], width, height)
    ensures forall x, y :: IsCell(x, y, width, height) ==> At(maze[..], x, y, width) == W
    ensures Reach.Connected(maze[..], startX, startY, width, height)
  {
    var cells := [(startX, startY)];
    ghost var s0: seq<Code> := maze[..];
    assert InBounds(startX, startY, width, height);
    Open(maze, startX, startY, startX, startY, width, height);
    GrowStart(s0, maze[..], startX, startY, width, height);
    var dirs := Steps;
    var total := (width / 2) * (height / 2);
    var visited := 1;

    while |cells| > 0
      invariant Growing(maze[..], cells, visited, startX, startY, width, height)
      invariant multiset(dirs) == multiset(Steps)
      decreases total - visited, |cells|
    {
      CarvedBound(maze[..], width, height);
      var index := Select(selection, |cells|);
      var (x, y) := cells[index];
      dirs := Chance.AnyOrder(dirs);
      var carved, k := FirstOpening(maze[..], x, y, dirs, width, height);
      if carved {
        assert dirs[k] in multiset(Steps) && IsCell(x, y, width, height) && At(maze[..], x, y, width) == W;
        cells := Extend(maze, cells, visited, startX, startY, x, y, dirs[k].0, dirs[k].1, width, height);
        visited := visited + 1;
      } else {
        GrowRemove(maze[..], cells, visited, startX, startY, index, dirs, width, height);
        cells := cells[..index] + cells[index + 1..];
      }
    }
    AllFinishedCarvesAll(maze[..], width, height, startX, startY);
  }
}
