/** The stand-alone generator main.py: a depth-first carve with an explicit stack over a grid
    held as a numpy array of shape (HEIGHT, WIDTH), start and goal marks, and the colour table
    that turns the grid into an image. The array is held flat: numpy's row-major layout puts
    entry [y, x] at offset y * WIDTH + x. */
module Script {
  import opened Grid
  import Chance
  import opened Carving
  import Backtracker
  import Search
  import opened Colours
  import Viewer
  import Reach

  /** COLOR_MAP: the image colour of each cell code, indexed by the code. */
  const ColorMap: seq<Rgb> := [Rgb(0, 0, 0), Rgb(255, 255, 255), Rgb(255, 0, 0), Rgb(0, 255, 0)]

  /** The script paints every code in the colour the browser generator uses for it. */
  lemma ColorMapAgrees(c: Code)
    ensures ColorMap[c] == Colour(c)
  {
  }

  /** `random.randrange(1, stop, 2)`: one of 1, 3, 5, ... below stop. */
  method RandRangeOdd(stop: int) returns (c: int)
    requires stop >= 2
    ensures Odd(c) && 1 <= c < stop
  {
    var k := Chance.Pick(stop / 2);
    c := 1 + k * 2;
    OddMod(c);
  }

  /** A seed drawn below an odd size of at least 3 is a carvable coordinate. */
  lemma SeedInside(c: int, size: int)
    requires size >= 3 && size % 2 == 1 && Odd(c) && 1 <= c < size
    ensures c <= size - 2
  {
    OddMod(c);
  }

  /** main.py carve_maze_iterative: carves the start, then repeatedly looks at the top of the
      stack, shuffles the four moves, carves the first one that reaches a wall cell inside the
      border together with the link halfway, and pushes it, or pops the top when there is none.
      carved_cells always equals the number of passage cells, which bounds the loop. Carves
      only the lattice and finishes with every carvable cell carved and every passage
      reachable from the start. */
  method CarveMazeIterative(maze: array<Code>, startX: int, startY: int, width: int, height: int)
    requires ValidDims(width, height) && maze.Length == Area(width, height)
    requires AllWall(maze[..]) && IsCell(startX, startY, width, height)
    modifies maze
    ensures CarvedOnly(maze[..], width, height)
    ensures forall x, y :: IsCell(x, y, width, height) ==> At(maze[..], x, y, width) == W
    ensures Reach.Connected(maze[..], startX, startY, width, height)
  {
    var stack := [(startX, startY)];
    ghost var s0: seq<Code> := maze[..];
    assert InBounds(startX, startY, width, height);
    Open(maze, startX, startY, startX, startY, width, height);
    GrowStart(s0, maze[..], startX, startY, width, height);
    var totalPathCells := (width / 2) * (height / 2);
    var carvedCells := 1;

    while |stack| > 0
      invariant Backtracker.Progress(maze[..], stack, carvedCells, startX, startY, width, height)
      decreases totalPathCells - carvedCells, |stack|
    {
      CarvedBound(maze[..], width, height);
      var (x, y) := stack[|stack| - 1];
      var directions := Chance.Shuffle(Steps);
      var carved, k := FirstOpening(maze[..], x, y, directions, width, height);
      if carved {
        assert directions[k] in multiset(Steps);
        stack := Backtracker.Push(maze, stack, carvedCells, startX, startY, directions[k].0, directions[k].1, width, height);
        carvedCells := carvedCells + 1;
      } else {
        Backtracker.PopStep(maze[..], stack, carvedCells, startX, startY, directions, width, height);
        stack := stack[..|stack| - 1];
      }
    }
    AllFinishedCarvesAll(maze[..], width, height, startX, startY);
  }

  /** `COLOR_MAP[maze]`: the image, one colour per grid entry. */
  function ColourImage(maze: seq<Code>): (image: seq<Rgb>)
    ensures |image| == |maze|
    ensures forall i :: 0 <= i < |maze| ==> image[i] == Colour(maze[i])
    ensures forall i :: 0 <= i < |maze| ==> Viewer.Classify(image[i].r, image[i].g, image[i].b) == maze[i]
  {
    var image := seq(|maze|, i requires 0 <= i < |maze| => ColorMap[maze[i]]);
    assert forall i :: 0 <= i < |maze| ==> image[i] == Colour(maze[i]) by {
      forall i | 0 <= i < |maze| {
        ColorMapAgrees(maze[i]);
      }
    }
    assert forall i :: 0 <= i < |maze| ==> Viewer.Classify(image[i].r, image[i].g, image[i].b) == maze[i] by {
      forall i | 0 <= i < |maze| {
        Viewer.ClassifyColour(maze[i]);
      }
    }
    image
  }

  /** The script body of main.py, from the size settings on, without the progress bars and the
      file output: the grid is the requested size rounded up to odd; the start is a carvable
      cell; every carvable cell is carved; the start is marked, then the goal at a passage
      farthest from it, or at the start itself when nothing is reachable; and the image holds
      each final code's colour, which the browser player reads back as that code. */
  method RunScript(requestedWidth: int, requestedHeight: int)
    returns (maze: array<Code>, width: int, height: int, startX: int, startY: int, goalX: int, goalY: int,
             image: seq<Rgb>, ghost carved: seq<Code>, ghost marked: seq<Code>, ghost far: nat)
    requires requestedWidth >= 2 && requestedHeight >= 2
    ensures ValidDims(width, height) && requestedWidth <= width <= requestedWidth + 1 && requestedHeight <= height <= requestedHeight + 1
    ensures maze.Length == Area(width, height) && |carved| == maze.Length
    ensures IsCell(startX, startY, width, height)
    ensures CarvedOnly(carved, width, height) && forall x, y :: IsCell(x, y, width, height) ==> At(carved, x, y, width) == W
    ensures Reach.Connected(carved, startX, startY, width, height)
    ensures InBounds(goalX, goalY, width, height)
    ensures 0 <= Idx(startX, startY, width) < |carved| && 0 <= Idx(goalX, goalY, width) < |carved|
    ensures marked == carved[Idx(startX, startY, width) := R] && maze[..] == marked[Idx(goalX, goalY, width) := G]
    ensures Search.Shortest(marked, Search.Interior, startX, startY, goalX, goalY, far, width, height)
    ensures forall x, y, n: nat :: Search.Within(marked, Search.Interior, startX, startY, x, y, n, width, height) ==>
      Search.Within(marked, Search.Interior, startX, startY, x, y, far, width, height)
    ensures |image| == maze.Length
    ensures forall i :: 0 <= i < |image| ==> image[i] == Colour(maze[i]) && Viewer.Classify(image[i].r, image[i].g, image[i].b) == maze[i]
  {
    width, height := requestedWidth, requestedHeight;
    if width % 2 == 0 {
      width := width + 1;
    }
    if height % 2 == 0 {
      height := height + 1;
    }
    AreaValue(width, height);
    maze := new Code[Area(width, height)](_ => B);
    startX := RandRangeOdd(width);
    startY := RandRangeOdd(height);
    SeedInside(startX, width);
    SeedInside(startY, height);
    CarveMazeIterative(maze, startX, startY, width, height);
    carved := maze[..];
    assert InBounds(startX, startY, width, height);
    IdxRange(startX, startY, width, height);
    maze[Idx(startX, startY, width)] := R;
    marked := maze[..];
    goalX, goalY, far := Search.FindFarthest(maze[..], startX, startY, width, height);
    Search.WithinEnd(marked, Search.Interior, startX, startY, goalX, goalY, far, width, height);
    IdxRange(goalX, goalY, width, height);
    maze[Idx(goalX, goalY, width)] := G;
    image := ColourImage(maze[..]);
  }
}
