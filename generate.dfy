/** The Generate button of scripts/gen.js: size the grid, seed a start cell, run the selected
    generator, mark the start, place the goal at a farthest passage, and check the result. */
module Generate {
  import opened Grid
  import Chance
  import Search
  import Reach
  import Backtracker
  import Prim
  import Kruskal
  import Wilson
  import AldousBroder
  import BinaryTree
  import Sidewinder
  import HuntAndKill
  import GrowingTree
  import Division

  /** The values of the algorithm selector that run a generator. */
  const Algorithms: set<string> := {
    "recursive", "prim", "kruskal", "wilson", "aldous", "binary", "sidewinder", "huntandkill",
    "growingtree-last", "growingtree-random", "growingtree-mix", "division"
  }

  /** The generators that ignore the seeded start; the start is moved to (1, 1) after them. */
  const CornerStart: set<string> := {"kruskal", "wilson", "binary", "sidewinder", "huntandkill", "division"}

  /** A requested size, bumped to the next odd number when even. */
  function OddSize(n: int): (m: int)
    ensures m % 2 == 1 && n <= m <= n + 1
  {
    if n % 2 == 0 then n + 1 else n
  }

  /** A seed coordinate `1 + k * 2` with k drawn below `Math.floor(size / 2)` is a carvable
      position of an odd size of at least 3. */
  lemma SeedCarvable(k: int, size: int)
    requires size >= 3 && size % 2 == 1 && 0 <= k < size / 2
    ensures Odd(1 + k * 2) && 1 <= 1 + k * 2 <= size - 2
  {
    OddMod(1 + k * 2);
  }

  /** The switch over the selector: runs the selected generator on the all-wall grid and
      reports the start it leaves. A generator that can run out of steps reports whether it
      carved every cell; the others always do. An unknown selector leaves every wall. */
  method Carve(maze: array<Code>, algorithm: string, startX: int, startY: int, width: int, height: int, fuel: nat)
    returns (sx: int, sy: int, finished: bool)
    requires ValidDims(width, height) && maze.Length == Area(width, height)
    requires AllWall(maze[..]) && IsCell(startX, startY, width, height)
    modifies maze
    ensures CarvedOnly(maze[..], width, height) && IsCell(sx, sy, width, height)
    ensures if algorithm in CornerStart then sx == 1 && sy == 1 else sx == startX && sy == startY
    ensures algorithm in Algorithms && finished ==> forall x, y :: IsCell(x, y, width, height) ==> At(maze[..], x, y, width) == W
    ensures algorithm !in Algorithms ==> AllWall(maze[..])
    ensures algorithm != "wilson" && algorithm != "aldous" ==> finished
    ensures algorithm in Algorithms && algorithm != "division" && finished ==> Reach.Connected(maze[..], sx, sy, width, height)
  {
    sx, sy, finished := startX, startY, true;
    if algorithm == "recursive" {
      Backtracker.RecursiveBacktracker(maze, startX, startY, width, height);
    } else if algorithm == "prim" {
      Prim.PrimsAlgorithm(maze, startX, startY, width, height);
    } else if algorithm == "kruskal" {
      Kruskal.KruskalsAlgorithm(maze, width, height);
      sx, sy := 1, 1;
    } else if algorithm == "wilson" {
      finished := Wilson.WilsonsAlgorithm(maze, width, height, fuel);
      sx, sy := 1, 1;
      if finished {
        assert IsCell(1, 1, width, height);
        assert Search.Enterable(maze[..], Search.Interior, 1, 1, width, height);
      }
    } else if algorithm == "aldous" {
      finished := AldousBroder.AldousBroder(maze, startX, startY, width, height, fuel);
    } else if algorithm == "binary" {
      BinaryTree.BinaryTree(maze, width, height);
      sx, sy := 1, 1;
    } else if algorithm == "sidewinder" {
      Sidewinder.Sidewinder(maze, width, height);
      sx, sy := 1, 1;
    } else if algorithm == "huntandkill" {
      HuntAndKill.HuntAndKill(maze, width, height);
      sx, sy := 1, 1;
    } else if algorithm == "growingtree-last" {
      GrowingTree.GrowingTree(maze, startX, startY, width, height, GrowingTree.Last);
    } else if algorithm == "growingtree-random" {
      GrowingTree.GrowingTree(maze, startX, startY, width, height, GrowingTree.Random);
    } else if algorithm == "growingtree-mix" {
      GrowingTree.GrowingTree(maze, startX, startY, width, height, GrowingTree.Mix);
    } else if algorithm == "division" {
      Division.DivisionMaze(maze, width, height);
      sx, sy := 1, 1;
    } else {
      AllWallCarvedOnly(maze[..], width, height);
    }
  }

  /** Marking the goal keeps every passage inside the border enterable for checkSolvability:
      it stays a passage or becomes the goal. */
  lemma GoalMarkWidens(s: seq<Code>, gx: int, gy: int, width: int, height: int)
    requires |s| == Area(width, height) && InBounds(gx, gy, width, height) && 0 <= Idx(gx, gy, width) < |s|
    ensures forall a, b :: Search.Enterable(s, Search.Interior, a, b, width, height) ==>
      Search.Enterable(s[Idx(gx, gy, width) := G], Search.Walkable, a, b, width, height)
  {
    forall a, b | Search.Enterable(s, Search.Interior, a, b, width, height)
      ensures Search.Enterable(s[Idx(gx, gy, width) := G], Search.Walkable, a, b, width, height)
    {
      AtUpdate(s, width, height, gx, gy, G, a, b);
    }
  }

  /** The goal found by findFarthest in s is reachable by checkSolvability once marked, in no
      more steps than findFarthest took. */
  lemma GoalReachable(s: seq<Code>, sx: int, sy: int, gx: int, gy: int, far: nat, width: int, height: int)
    requires |s| == Area(width, height) && InBounds(gx, gy, width, height) && 0 <= Idx(gx, gy, width) < |s|
    requires Search.Within(s, Search.Interior, sx, sy, gx, gy, far, width, height)
    ensures Search.Within(s[Idx(gx, gy, width) := G], Search.Walkable, sx, sy, gx, gy, far, width, height)
  {
    GoalMarkWidens(s, gx, gy, width, height);
    Search.WithinWiden(s, Search.Interior, s[Idx(gx, gy, width) := G], Search.Walkable, sx, sy, gx, gy, far, width, height);
  }

  /** The Generate click handler of scripts/gen.js, without its timing and page updates. The
      grid is the requested size rounded up to odd, carved by the selected generator from an
      all-wall start; the start is a carvable cell, (1, 1) for the generators that ignore the
      seed; the goal is a passage farthest from the start, or the start itself when nothing is
      reachable; the final grid is the carved grid with the start and then the goal marked; and
      the check always finds the goal, at its exact shortest distance, no farther than the
      distance findFarthest reached it at. */
  method GenerateMaze(requestedWidth: int, requestedHeight: int, algorithm: string, fuel: nat)
    returns (maze: array<Code>, width: int, height: int, startX: int, startY: int, goalX: int, goalY: int,
             solvable: bool, pathLength: int, finished: bool, ghost carved: seq<Code>, ghost marked: seq<Code>, ghost far: nat)
    requires requestedWidth >= 2 && requestedHeight >= 2
    ensures width == OddSize(requestedWidth) && height == OddSize(requestedHeight) && ValidDims(width, height)
    ensures maze.Length == Area(width, height) && |carved| == maze.Length
    ensures IsCell(startX, startY, width, height) && (algorithm in CornerStart ==> startX == 1 && startY == 1)
    ensures CarvedOnly(carved, width, height)
    ensures algorithm in Algorithms && finished ==> forall x, y :: IsCell(x, y, width, height) ==> At(carved, x, y, width) == W
    ensures algorithm !in Algorithms ==> AllWall(carved)
    ensures algorithm != "wilson" && algorithm != "aldous" ==> finished
    ensures algorithm in Algorithms && algorithm != "division" && finished ==> Reach.Connected(carved, startX, startY, width, height)
    ensures InBounds(goalX, goalY, width, height)
    ensures 0 <= Idx(startX, startY, width) < |carved| && 0 <= Idx(goalX, goalY, width) < |carved|
    ensures marked == carved[Idx(startX, startY, width) := R] && maze[..] == marked[Idx(goalX, goalY, width) := G]
    ensures Search.Shortest(marked, Search.Interior, startX, startY, goalX, goalY, far, width, height)
    ensures forall x, y, n: nat :: Search.Within(marked, Search.Interior, startX, startY, x, y, n, width, height) ==>
      Search.Within(marked, Search.Interior, startX, startY, x, y, far, width, height)
    ensures 0 <= pathLength <= far
    ensures solvable && Search.Shortest(maze[..], Search.Walkable, startX, startY, goalX, goalY, pathLength, width, height)
  {
    width, height := OddSize(requestedWidth), OddSize(requestedHeight);
    AreaValue(width, height);
    maze := new Code[Area(width, height)](_ => B);
    var kx := Chance.Pick(width / 2);
    var ky := Chance.Pick(height / 2);
    startX, startY := 1 + kx * 2, 1 + ky * 2;
    SeedCarvable(kx, width);
    SeedCarvable(ky, height);
    startX, startY, finished := Carve(maze, algorithm, startX, startY, width, height, fuel);
    carved := maze[..];
    assert InBounds(startX, startY, width, height);
    IdxRange(startX, startY, width, height);
    maze[Idx(startX, startY, width)] := R;
    marked := maze[..];
    goalX, goalY, far := Search.FindFarthest(maze[..], startX, startY, width, height);
    Search.WithinEnd(marked, Search.Interior, startX, startY, goalX, goalY, far, width, height);
    IdxRange(goalX, goalY, width, height);
    maze[Idx(goalX, goalY, width)] := G;
    GoalReachable(marked, startX, startY, goalX, goalY, far, width, height);
    solvable, pathLength := Search.CheckSolvability(maze[..], startX, startY, goalX, goalY, width, height);
    if solvable {
      Search.ShortestUnique(maze[..], Search.Walkable, startX, startY, goalX, goalY, pathLength, far, width, height);
    }
  }
}
