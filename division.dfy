/** The recursive division generator: the inside of the border starts open, and each
    rectangle at least three wide and three high is split by a wall line with one gap, then
    both halves are divided again. */
module Division {
  import opened Grid
  import Chance

  predicate OnBorder(x: int, y: int, width: int, height: int)
  {
    x == 0 || y == 0 || x == width - 1 || y == height - 1
  }

  /** The grid after `maze.fill(W)` and the border loops: walls on the border ring, passages
      everywhere inside it. */
  ghost predicate Framed(s: seq<Code>, width: int, height: int)
  {
    && |s| == Area(width, height)
    && forall x, y :: InBounds(x, y, width, height) ==>
         At(s, x, y, width) == if OnBorder(x, y, width, height) then B else W
  }

  /** A rectangle [x1, x2) by [y1, y2) handed to `divide`: it starts on an odd line and ends
      on an even one, inside the border. */
  predicate Region(x1: int, y1: int, x2: int, y2: int, width: int, height: int)
  {
    && 1 <= x1 < x2 <= width - 1 && 1 <= y1 < y2 <= height - 1
    && Odd(x1) && Odd(y1) && !Odd(x2) && !Odd(y2)
  }

  predicate Inside(x: int, y: int, x1: int, y1: int, x2: int, y2: int)
  {
    x1 <= x < x2 && y1 <= y < y2
  }

  /** `lo + 2 * k + 1` for the k-th of the (hi - lo - 1) / 2 choices: the dividing line lies on
      an even coordinate strictly inside [lo, hi), with at least one line on each side. */
  function WallAt(lo: int, hi: int, k: int): (c: int)
    requires Odd(lo) && 0 <= k < (hi - lo - 1) / 2
    ensures lo < c < hi - 1 && !Odd(c)
  {
    OddMod(lo);
    OddMod(lo + 2 * k + 1);
    lo + 2 * k + 1
  }

  /** `lo + 2 * k` for the k-th of the (hi - lo) / 2 choices: the gap lies on an odd
      coordinate inside [lo, hi). */
  function GapAt(lo: int, hi: int, k: int): (c: int)
    requires Odd(lo) && 0 <= k < (hi - lo) / 2
    ensures lo <= c < hi - 1 && Odd(c)
  {
    OddMod(lo);
    OddMod(lo + 2 * k);
    lo + 2 * k
  }

  /** The positions `addWall` closes: the line across the rectangle, except the gap. */
  predicate OnLine(x: int, y: int, horizontal: bool, line: int, gap: int, x1: int, y1: int, x2: int, y2: int)
  {
    if horizontal then y == line && x1 <= x < x2 && x != gap
    else x == line && y1 <= y < y2 && y != gap
  }

  /** `maze[y * width + x] = B`: closes one position and changes nothing else. */
  method Close(maze: array<Code>, x: int, y: int, width: int, height: int)
    requires maze.Length == Area(width, height) && InBounds(x, y, width, height)
    modifies maze
    ensures forall a, b :: InBounds(a, b, width, height) ==>
      At(maze[..], a, b, width) == if a == x && b == y then B else At(old(maze[..]), a, b, width)
  {
    ghost var s: seq<Code> := maze[..];
    IdxRange(x, y, width, height);
    maze[Idx(x, y, width)] := B;
    assert maze[..] == s[Idx(x, y, width) := B];
    forall a, b | InBounds(a, b, width, height)
      ensures At(maze[..], a, b, width) == if a == x && b == y then B else At(s, a, b, width)
    {
      AtUpdate(s, width, height, x, y, B, a, b);
    }
  }

  /** The opening of scripts/gen.js divisionMaze: fills the grid with passages, then walls the
      border ring. */
  method Frame(maze: array<Code>, width: int, height: int)
    requires width > 0 && height > 0 && maze.Length == Area(width, height)
    modifies maze
    ensures Framed(maze[..], width, height)
  {
    for i := 0 to maze.Length
      invariant forall j :: 0 <= j < i ==> maze[j] == W
    {
      maze[i] := W;
    }
    forall a, b | InBounds(a, b, width, height)
      ensures At(maze[..], a, b, width) == W
    {
      IdxRange(a, b, width, height);
    }
    for x := 0 to width
      invariant forall a, b :: InBounds(a, b, width, height) ==>
        At(maze[..], a, b, width) == if (b == 0 || b == height - 1) && a < x then B else W
    {
      Close(maze, x, 0, width, height);
      Close(maze, x, height - 1, width, height);
    }
    for y := 0 to height
      invariant forall a, b :: InBounds(a, b, width, height) ==>
        At(maze[..], a, b, width) == if b == 0 || b == height - 1 || ((a == 0 || a == width - 1) && b < y) then B else W
    {
      Close(maze, 0, y, width, height);
      Close(maze, width - 1, y, width, height);
    }
  }

  /** The `addWall` helper of scripts/gen.js divisionMaze. A horizontal wall goes on an even row
      strictly inside the rectangle and spans it except one odd column; a vertical wall
      likewise with rows and columns exchanged. Exactly the positions on the line other than
      the gap become walls. */
  method AddWall(maze: array<Code>, x1: int, y1: int, x2: int, y2: int, horizontal: bool, width: int, height: int)
    returns (line: int, ghost gap: int)
    requires maze.Length == Area(width, height) && Region(x1, y1, x2, y2, width, height)
    requires x2 - x1 >= 3 && y2 - y1 >= 3
    modifies maze
    ensures if horizontal then y1 < line < y2 - 1 && x1 <= gap < x2 - 1 else x1 < line < x2 - 1 && y1 <= gap < y2 - 1
    ensures !Odd(line) && Odd(gap)
    ensures forall x, y :: InBounds(x, y, width, height) ==>
      At(maze[..], x, y, width) == if OnLine(x, y, horizontal, line, gap, x1, y1, x2, y2) then B else At(old(maze[..]), x, y, width)
  {
    if horizontal {
      var k := Chance.Pick((y2 - y1 - 1) / 2);
      line := WallAt(y1, y2, k);
      var j := Chance.Pick((x2 - x1) / 2);
      var gapX := GapAt(x1, x2, j);
      gap := gapX;
      for x := x1 to x2
        invariant forall a, b :: InBounds(a, b, width, height) ==>
          At(maze[..], a, b, width) == if b == line && x1 <= a < x && a != gapX then B else At(old(maze[..]), a, b, width)
      {
        if x != gapX {
          Close(maze, x, line, width, height);
        }
      }
    } else {
      var k := Chance.Pick((x2 - x1 - 1) / 2);
      line := WallAt(x1, x2, k);
      var j := Chance.Pick((y2 - y1) / 2);
      var gapY := GapAt(y1, y2, j);
      gap := gapY;
      for y := y1 to y2
        invariant forall a, b :: InBounds(a, b, width, height) ==>
          At(maze[..], a, b, width) == if a == line && y1 <= b < y && b != gapY then B else At(old(maze[..]), a, b, width)
      {
        if y != gapY {
          Close(maze, line, y, width, height);
        }
      }
    }
  }

  /** s' differs from s only by walls written inside the rectangle, never on a cell (odd/odd). */
  ghost predicate WallsOnly(s: seq<Code>, s': seq<Code>, x1: int, y1: int, x2: int, y2: int, width: int, height: int)
  {
    forall x, y :: InBounds(x, y, width, height) ==>
      At(s', x, y, width) == At(s, x, y, width) ||
      (At(s', x, y, width) == B && Inside(x, y, x1, y1, x2, y2) && !(Odd(x) && Odd(y)))
  }

  /** Every even/even position inside the rectangle is a wall in s'. */
  ghost predicate CornersClosed(s': seq<Code>, x1: int, y1: int, x2: int, y2: int, width: int)
  {
    forall x, y :: Inside(x, y, x1, y1, x2, y2) && !Odd(x) && !Odd(y) ==> At(s', x, y, width) == B
  }

  /** s' is s with the wall at column x1 + 1 on rows y1 + 1 and y1 + 2. */
  ghost predicate ThreeSplit(s: seq<Code>, s': seq<Code>, x1: int, y1: int, width: int, height: int)
  {
    forall x, y :: InBounds(x, y, width, height) ==>
      At(s', x, y, width) == if x == x1 + 1 && (y == y1 + 1 || y == y1 + 2) then B else At(s, x, y, width)
  }

  /** What `divide(x1, y1, x2, y2)` does to the grid s, giving s': it writes only walls, only
      inside the rectangle and never on a cell (odd/odd); it closes every even/even position
      inside the rectangle; it leaves a rectangle less than three wide or high alone; and a
      3 by 3 rectangle gets exactly the wall at column x1 + 1 on rows y1 + 1 and y1 + 2. */
  ghost predicate Divided(s: seq<Code>, s': seq<Code>, x1: int, y1: int, x2: int, y2: int, width: int, height: int)
  {
    && |s'| == |s|
    && WallsOnly(s, s', x1, y1, x2, y2, width, height)
    && CornersClosed(s', x1, y1, x2, y2, width)
    && (x2 - x1 < 3 || y2 - y1 < 3 ==> s' == s)
    && (x2 - x1 == 3 && y2 - y1 == 3 ==> ThreeSplit(s, s', x1, y1, width, height))
  }

  /** A rectangle less than three wide or high has no even/even position: its short side is a
      single odd line. */
  lemma Thin(x1: int, y1: int, x2: int, y2: int, width: int, height: int)
    requires Region(x1, y1, x2, y2, width, height) && (x2 - x1 < 3 || y2 - y1 < 3)
    ensures forall x, y :: Inside(x, y, x1, y1, x2, y2) ==> Odd(x) || Odd(y)
  {
    OddMod(x1);
    OddMod(x2);
    OddMod(y1);
    OddMod(y2);
    if x2 - x1 < 3 {
      assert x2 == x1 + 1;
    } else {
      assert y2 == y1 + 1;
    }
  }

  /** The line of a split followed by walls only on either side is walls only on the whole
      rectangle. */
  lemma SplitWallsOnly(s: seq<Code>, s1: seq<Code>, s2: seq<Code>, s3: seq<Code>, x1: int, y1: int, x2: int, y2: int,
                       horizontal: bool, line: int, gap: int, width: int, height: int)
    requires !Odd(line)
    requires forall x, y :: InBounds(x, y, width, height) ==>
      At(s1, x, y, width) == if OnLine(x, y, horizontal, line, gap, x1, y1, x2, y2) then B else At(s, x, y, width)
    requires if horizontal then y1 <= line < y2 && WallsOnly(s1, s2, x1, y1, x2, line, width, height) && WallsOnly(s2, s3, x1, line + 1, x2, y2, width, height)
             else x1 <= line < x2 && WallsOnly(s1, s2, x1, y1, line, y2, width, height) && WallsOnly(s2, s3, line + 1, y1, x2, y2, width, height)
    ensures WallsOnly(s, s3, x1, y1, x2, y2, width, height)
  {
  }

  /** The line of a split closes its even positions (the gap is odd), and the two sides close
      theirs, so the whole rectangle is closed. */
  lemma SplitCornersClosed(s: seq<Code>, s1: seq<Code>, s2: seq<Code>, s3: seq<Code>, x1: int, y1: int, x2: int, y2: int,
                           horizontal: bool, line: int, gap: int, width: int, height: int)
    requires !Odd(line) && Odd(gap)
    requires forall x, y :: InBounds(x, y, width, height) ==>
      At(s1, x, y, width) == if OnLine(x, y, horizontal, line, gap, x1, y1, x2, y2) then B else At(s, x, y, width)
    requires 0 <= x1 && x2 <= width && 0 <= y1 && y2 <= height
    requires if horizontal then
               && y1 <= line < y2
               && WallsOnly(s1, s2, x1, y1, x2, line, width, height) && CornersClosed(s2, x1, y1, x2, line, width)
               && WallsOnly(s2, s3, x1, line + 1, x2, y2, width, height) && CornersClosed(s3, x1, line + 1, x2, y2, width)
             else
               && x1 <= line < x2
               && WallsOnly(s1, s2, x1, y1, line, y2, width, height) && CornersClosed(s2, x1, y1, line, y2, width)
               && WallsOnly(s2, s3, line + 1, y1, x2, y2, width, height) && CornersClosed(s3, line + 1, y1, x2, y2, width)
    ensures CornersClosed(s3, x1, y1, x2, y2, width)
  {
    forall x, y | Inside(x, y, x1, y1, x2, y2) && !Odd(x) && !Odd(y)
      ensures At(s3, x, y, width) == B
    {
      assert InBounds(x, y, width, height);
    }
  }

  /** A 3 by 3 rectangle is split at column x1 + 1 with the gap at row y1, and both sides are
      one column wide and left alone. */
  lemma SplitThree(s: seq<Code>, s1: seq<Code>, s2: seq<Code>, s3: seq<Code>, x1: int, y1: int, x2: int, y2: int,
                   line: int, gap: int, width: int, height: int)
    requires Odd(x1) && Odd(y1) && x2 == x1 + 3 && y2 == y1 + 3
    requires x1 < line < x2 - 1 && y1 <= gap < y2 - 1 && !Odd(line) && Odd(gap)
    requires forall x, y :: InBounds(x, y, width, height) ==>
      At(s1, x, y, width) == if OnLine(x, y, false, line, gap, x1, y1, x2, y2) then B else At(s, x, y, width)
    requires s2 == s1 && s3 == s2
    ensures ThreeSplit(s, s3, x1, y1, width, height)
  {
    assert line == x1 + 1 && gap == y1 by {
      OddMod(x1);
      OddMod(y1);
      OddMod(line);
      OddMod(gap);
    }
  }

  /** A split along column `line` followed by dividing the two sides is a division of the whole
      rectangle. */
  lemma SplitColumns(s: seq<Code>, s1: seq<Code>, s2: seq<Code>, s3: seq<Code>, x1: int, y1: int, x2: int, y2: int, line: int, gap: int, width: int, height: int)
    requires ValidDims(width, height) && |s| == Area(width, height)
    requires Region(x1, y1, x2, y2, width, height) && x2 - x1 >= 3 && y2 - y1 >= 3 && x2 - x1 >= y2 - y1
    requires x1 < line < x2 - 1 && y1 <= gap < y2 - 1 && !Odd(line) && Odd(gap)
    requires |s1| == |s| && forall x, y :: InBounds(x, y, width, height) ==>
      At(s1, x, y, width) == if OnLine(x, y, false, line, gap, x1, y1, x2, y2) then B else At(s, x, y, width)
    requires Divided(s1, s2, x1, y1, line, y2, width, height)
    requires Divided(s2, s3, line + 1, y1, x2, y2, width, height)
    ensures Divided(s, s3, x1, y1, x2, y2, width, height)
  {
    SplitWallsOnly(s, s1, s2, s3, x1, y1, x2, y2, false, line, gap, width, height);
    SplitCornersClosed(s, s1, s2, s3, x1, y1, x2, y2, false, line, gap, width, height);
    if x2 - x1 == 3 && y2 - y1 == 3 {
      assert line == x1 + 1 by {
        OddMod(x1);
        OddMod(line);
      }
      SplitThree(s, s1, s2, s3, x1, y1, x2, y2, line, gap, width, height);
    }
  }

  /** A split along row `line` followed by dividing the two sides is a division of the whole
      rectangle. */
  lemma SplitRows(s: seq<Code>, s1: seq<Code>, s2: seq<Code>, s3: seq<Code>, x1: int, y1: int, x2: int, y2: int, line: int, gap: int, width: int, height: int)
    requires ValidDims(width, height) && |s| == Area(width, height)
    requires Region(x1, y1, x2, y2, width, height) && x2 - x1 >= 3 && y2 - y1 >= 3 && x2 - x1 < y2 - y1
    requires y1 < line < y2 - 1 && x1 <= gap < x2 - 1 && !Odd(line) && Odd(gap)
    requires |s1| == |s| && forall x, y :: InBounds(x, y, width, height) ==>
      At(s1, x, y, width) == if OnLine(x, y, true, line, gap, x1, y1, x2, y2) then B else At(s, x, y, width)
    requires Divided(s1, s2, x1, y1, x2, line, width, height)
    requires Divided(s2, s3, x1, line + 1, x2, y2, width, height)
    ensures Divided(s, s3, x1, y1, x2, y2, width, height)
  {
    SplitWallsOnly(s, s1, s2, s3, x1, y1, x2, y2, true, line, gap, width, height);
    SplitCornersClosed(s, s1, s2, s3, x1, y1, x2, y2, true, line, gap, width, height);
  }

  /** The inner `divide` of scripts/gen.js divisionMaze, with its yields left out: a rectangle
      at least three wide and three high is split, across its longer side (horizontally only
      when it is strictly higher than wide), and both parts are divided in turn. Both parts are
      strictly smaller, so the recursion ends. */
  method Divide(maze: array<Code>, x1: int, y1: int, x2: int, y2: int, width: int, height: int)
    requires ValidDims(width, height) && maze.Length == Area(width, height)
    requires Region(x1, y1, x2, y2, width, height)
    modifies maze
    ensures Divided(old(maze[..]), maze[..], x1, y1, x2, y2, width, height)
    decreases x2 - x1 + y2 - y1, 1
  {
    var w := x2 - x1;
    var h := y2 - y1;
    if w < 3 || h < 3 {
      Thin(x1, y1, x2, y2, width, height);
      return;
    }
    var horizontal := w < h;
    if horizontal {
      DivideRows(maze, x1, y1, x2, y2, width, height);
    } else {
      DivideColumns(maze, x1, y1, x2, y2, width, height);
    }
  }

  /** The horizontal branch of `divide`: a wall along a row, then the parts above and below. */
  method DivideRows(maze: array<Code>, x1: int, y1: int, x2: int, y2: int, width: int, height: int)
    requires ValidDims(width, height) && maze.Length == Area(width, height)
    requires Region(x1, y1, x2, y2, width, height) && x2 - x1 >= 3 && y2 - y1 >= 3 && x2 - x1 < y2 - y1
    modifies maze
    ensures Divided(old(maze[..]), maze[..], x1, y1, x2, y2, width, height)
    decreases x2 - x1 + y2 - y1, 0
  {
    ghost var s: seq<Code> := maze[..];
    var wallY, gap := AddWall(maze, x1, y1, x2, y2, true, width, height);
    ghost var s1: seq<Code> := maze[..];
    assert Region(x1, wallY + 1, x2, y2, width, height) by {
      OddNext(wallY);
    }
    Divide(maze, x1, y1, x2, wallY, width, height);
    ghost var s2: seq<Code> := maze[..];
    Divide(maze, x1, wallY + 1, x2, y2, width, height);
    SplitRows(s, s1, s2, maze[..], x1, y1, x2, y2, wallY, gap, width, height);
  }

  /** The vertical branch of `divide`: a wall along a column, then the parts left and right. */
  method DivideColumns(maze: array<Code>, x1: int, y1: int, x2: int, y2: int, width: int, height: int)
    requires ValidDims(width, height) && maze.Length == Area(width, height)
    requires Region(x1, y1, x2, y2, width, height) && x2 - x1 >= 3 && y2 - y1 >= 3 && x2 - x1 >= y2 - y1
    modifies maze
    ensures Divided(old(maze[..]), maze[..], x1, y1, x2, y2, width, height)
    decreases x2 - x1 + y2 - y1, 0
  {
    ghost var s: seq<Code> := maze[..];
    var wallX, gap := AddWall(maze, x1, y1, x2, y2, false, width, height);
    ghost var s1: seq<Code> := maze[..];
    assert Region(wallX + 1, y1, x2, y2, width, height) by {
      OddNext(wallX);
    }
    Divide(maze, x1, y1, wallX, y2, width, height);
    ghost var s2: seq<Code> := maze[..];
    Divide(maze, wallX + 1, y1, x2, y2, width, height);
    SplitColumns(s, s1, s2, maze[..], x1, y1, x2, y2, wallX, gap, width, height);
  }

  /** The grid divisionMaze leaves in a 5 by 5 buffer whatever the draws: the border, and a wall
      at column 2 on rows 2 and 3 with its gap at row 1. */
  predicate FiveByFive(x: int, y: int, code: Code)
  {
    code == if OnBorder(x, y, 5, 5) || (x == 2 && (y == 2 || y == 3)) then B else W
  }

  /** scripts/gen.js divisionMaze. The result keeps the lattice footprint: the border ring and
      every even/even position are walls, every carvable cell is a passage, and nothing but
      walls and passages is written. On a 5 by 5 grid the result does not depend on the draws. */
  method DivisionMaze(maze: array<Code>, width: int, height: int)
    requires ValidDims(width, height) && maze.Length == Area(width, height)
    modifies maze
    ensures CarvedOnly(maze[..], width, height)
    ensures forall x, y :: IsCell(x, y, width, height) ==> At(maze[..], x, y, width) == W
    ensures forall x, y :: InBounds(x, y, width, height) && !Odd(x) && !Odd(y) ==> At(maze[..], x, y, width) == B
    ensures width == 5 && height == 5 ==>
      forall x, y :: InBounds(x, y, width, height) ==> FiveByFive(x, y, At(maze[..], x, y, width))
  {
    Frame(maze, width, height);
    ghost var s: seq<Code> := maze[..];
    assert Region(1, 1, width - 1, height - 1, width, height) by {
      OddMod(width);
      OddMod(height);
      OddMod(width - 1);
      OddMod(height - 1);
    }
    Divide(maze, 1, 1, width - 1, height - 1, width, height);
    forall x, y | InBounds(x, y, width, height) && At(maze[..], x, y, width) != B
      ensures At(maze[..], x, y, width) == W && Carvable(x, y, width, height)
    {
      assert !OnBorder(x, y, width, height);
    }
  }
}
