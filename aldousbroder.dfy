/** The Aldous-Broder generator: a random walk over the lattice that opens the link to every
    wall cell it steps onto. */
module AldousBroder {
  import opened Grid
  import Chance
  import opened Carving
  import Reach

  /** scripts/gen.js aldousBroder. The walk ends only with probability one, so the model stops
      after `maxSteps` draws; `finished` reports whether the source's loop condition failed
      first. Carves only the lattice, keeps visitedCells equal to the number of passage cells,
      keeps every passage reachable from the start, and is finished exactly when every
      carvable cell is carved. */
  method AldousBroder(maze: array<Code>, startX: int, startY: int, width: int, height: int, maxSteps: nat)
    returns (finished: bool)
    requires ValidDims(width, height) && maze.Length == Area(width, height)
    requires AllWall(maze[..]) && IsCell(startX, startY, width, height)
    modifies maze
    ensures CarvedOnly(maze[..], width, height)
    ensures finished <==> forall x, y :: IsCell(x, y, width, height) ==> At(maze[..], x, y, width) == W
    ensures Reach.Connected(maze[..], startX, startY, width, height)
  {
    var x := startX;
    var y := startY;
    ghost var s0: seq<Code> := maze[..];
    assert InBounds(x, y, width, height);
    Open(maze, x, y, x, y, width, height);
    WalkStart(s0, maze[..], x, y, width, height);

    var totalCells := (width / 2) * (height / 2);
    var visitedCells := 1;
    var steps := 0;

    while visitedCells < totalCells && steps < maxSteps
      invariant Walk(maze[..], visitedCells, x, y, startX, startY, width, height)
      decreases maxSteps - steps
    {
      var k := Chance.Pick(|Steps|);
      var (dx, dy) := Steps[k];
      var nx := x + dx;
      var ny := y + dy;
      if 1 <= nx < width - 1 && 1 <= ny < height - 1 {
        IdxRange(nx, ny, width, height);
        if maze[Idx(nx, ny, width)] == B {
          x, y := WalkOn(maze, visitedCells, x, y, startX, startY, dx, dy, width, height);
          visitedCells := visitedCells + 1;
        } else {
          WalkMove(maze[..], visitedCells, x, y, startX, startY, dx, dy, width, height);
          x, y := nx, ny;
        }
      }
      steps := steps + 1;
    }
    CarvedBound(maze[..], width, height);
    finished := visitedCells >= totalCells;
    if !finished {
      var wx, wy := UncarvedCell(maze[..], width, height);
    }
  }
}
