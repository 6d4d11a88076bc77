/** The binary tree generator: every carvable cell, in scan order, opens its link to the north
    or to the east. */
module BinaryTree {
  import opened Grid
  import Chance
  import opened Scan
  import Reach

  /** Cell (a, b) has opened exactly one of its north and east links, except the cell in the
      last carvable column of the top row, which has neither. */
  ghost predicate OneLink(s: seq<Code>, a: int, b: int, width: int)
  {
    if a == width - 2 && b == 1 then At(s, a, b - 1, width) == B && At(s, a + 1, b, width) == B
    else (At(s, a, b - 1, width) == W) != (At(s, a + 1, b, width) == W)
  }

  /** The state of the scan standing at (x, y): the scan invariant, one link per scanned cell,
      and one open link per scanned cell except the top row's last. */
  ghost predicate Tree(s: seq<Code>, x: int, y: int, width: int, height: int)
  {
    && Scanned(s, x, y, width, height)
    && OneLinkBefore(s, x, y, width, height)
    && GridCount(s, Links, width, height, height) + (if Before(width - 2, 1, x, y) then 1 else 0) == Carved(s, width, height)
  }

  /** Every cell scanned before (x, y) has its one link. */
  ghost predicate OneLinkBefore(s: seq<Code>, x: int, y: int, width: int, height: int)
  {
    forall a, b :: IsCell(a, b, width, height) && Before(a, b, x, y) ==> OneLink(s, a, b, width)
  }

  /** Opening cell (x, y) and then the link (mx, my) it chose gives it exactly that one link. */
  lemma OwnOneLink(s: seq<Code>, s1: seq<Code>, s2: seq<Code>, x: int, y: int, mx: int, my: int, width: int, height: int)
    requires Scanned(s, x, y, width, height) && IsCell(x, y, width, height)
    requires CarvedPair(s, s1, x, y, x, y, width, height)
    requires OwnLink(x, y, mx, my, width) || (mx == x && my == y && x == width - 2 && y == 1)
    requires CarvedPair(s1, s2, mx, my, mx, my, width, height)
    ensures OneLink(s2, x, y, width)
  {
    assert InBounds(x, y - 1, width, height) && InBounds(x + 1, y, width, height);
    assert !Odd(y - 1) && !Odd(x + 1) by {
      OddNext(y - 1);
      OddNext(x);
    }
    assert IsLink(x, y - 1, width, height) ==> At(s, x, y - 1, width) == B by {
      if IsLink(x, y - 1, width, height) {
        NotYetOpen(s, x, y, x, y - 1, width, height);
      }
    }
    assert IsLink(x + 1, y, width, height) ==> At(s, x + 1, y, width) == B by {
      if IsLink(x + 1, y, width, height) {
        NotYetOpen(s, x, y, x + 1, y, width, height);
      }
    }
  }

  /** The cells scanned before (x, y) keep their one link when (x, y) and a link it owns open. */
  lemma OthersKeep(s: seq<Code>, s1: seq<Code>, s2: seq<Code>, x: int, y: int, mx: int, my: int, width: int, height: int)
    requires IsCell(x, y, width, height)
    requires OneLinkBefore(s, x, y, width, height)
    requires CarvedPair(s, s1, x, y, x, y, width, height)
    requires OwnLink(x, y, mx, my, width) || (mx == x && my == y)
    requires CarvedPair(s1, s2, mx, my, mx, my, width, height)
    ensures OneLinkBefore(s2, x, y, width, height)
  {
    forall a, b | IsCell(a, b, width, height) && Before(a, b, x, y)
      ensures OneLink(s2, a, b, width)
    {
      assert InBounds(a, b - 1, width, height) && InBounds(a + 1, b, width, height);
      assert OneLink(s, a, b, width);
      assert !Odd(b - 1) && !Odd(y - 1) && !Odd(a + 1) by {
        OddNext(b - 1);
        OddNext(y - 1);
        OddNext(a);
      }
    }
  }

  /** Opening cell (x, y) and then the link (mx, my) it chose extends one link per cell to
      (x, y). */
  lemma OneLinkStep(s: seq<Code>, s1: seq<Code>, s2: seq<Code>, x: int, y: int, mx: int, my: int, width: int, height: int)
    requires Scanned(s, x, y, width, height) && IsCell(x, y, width, height)
    requires OneLinkBefore(s, x, y, width, height)
    requires CarvedPair(s, s1, x, y, x, y, width, height)
    requires OwnLink(x, y, mx, my, width) || (mx == x && my == y && x == width - 2 && y == 1)
    requires CarvedPair(s1, s2, mx, my, mx, my, width, height)
    ensures OneLinkBefore(s2, x + 2, y, width, height)
  {
    OwnOneLink(s, s1, s2, x, y, mx, my, width, height);
    OthersKeep(s, s1, s2, x, y, mx, my, width, height);
    assert !Odd(x + 1) by {
      OddNext(x);
    }
  }

  /** The link cell (x, y) opens: north when y > 1, east when x < width - 2, none at the top
      row's last cell. */
  ghost predicate OwnLink(x: int, y: int, mx: int, my: int, width: int)
  {
    (mx == x && my == y - 1 && y > 1) || (mx == x + 1 && my == y && x < width - 2)
  }

  /** The direction choice of scripts/gen.js binaryTree for cell (x, y): lists north when y > 1
      and east when x < width - 2, and picks one of them if any. Finds a link exactly when the
      cell is not the top row's last. */
  method ChooseLink(x: int, y: int, width: int, height: int) returns (found: bool, mx: int, my: int)
    requires ValidDims(width, height) && IsCell(x, y, width, height)
    ensures found <==> !(x == width - 2 && y == 1)
    ensures found ==> OwnLink(x, y, mx, my, width) && IsLink(mx, my, width, height)
  {
    var dirs: seq<(int, int)> := [];
    if y > 1 {
      dirs := dirs + [(0, -2)];
    }
    if x < width - 2 {
      dirs := dirs + [(2, 0)];
    }
    found, mx, my := |dirs| > 0, x, y;
    if found {
      var k := Chance.Pick(|dirs|);
      var (dx, dy) := dirs[k];
      assert (dx == 0 && dy == -2 && y > 1) || (dx == 2 && dy == 0 && x < width - 2);
      mx, my := x + dx / 2, y + dy / 2;
      assert IsLink(mx, my, width, height) by {
        OddMod(x);
        OddMod(y);
        OddMod(width);
        StepFromCell(x, y, dx, dy, width, height);
      }
    } else {
      OddMod(x);
      OddMod(width);
    }
  }

  /** The top row's last cell opens no link: the scan moves on with the links unchanged. */
  lemma TreeLast(s: seq<Code>, s1: seq<Code>, x: int, y: int, width: int, height: int)
    requires ValidDims(width, height) && Tree(s, x, y, width, height) && IsCell(x, y, width, height)
    requires CarvedPair(s, s1, x, y, x, y, width, height) && x == width - 2 && y == 1
    ensures Tree(s1, x + 2, y, width, height)
  {
    OpenCell(s, s1, x, y, width, height);
    CarvePair(s1, width, height, x, y, x, y);
    assert s1[Idx(x, y, width) := W][Idx(x, y, width) := W] == s1;
    OneLinkStep(s, s1, s1, x, y, x, y, width, height);
  }

  /** Any other cell opens the link it chose, which was still a wall: one more open link. */
  lemma TreeLink(s: seq<Code>, s1: seq<Code>, s2: seq<Code>, x: int, y: int, mx: int, my: int, width: int, height: int)
    requires ValidDims(width, height) && Tree(s, x, y, width, height) && IsCell(x, y, width, height)
    requires CarvedPair(s, s1, x, y, x, y, width, height)
    requires OwnLink(x, y, mx, my, width) && IsLink(mx, my, width, height) && CarvedPair(s1, s2, mx, my, mx, my, width, height)
    ensures Tree(s2, x + 2, y, width, height)
  {
    OpenCell(s, s1, x, y, width, height);
    NotYetOpen(s, x, y, mx, my, width, height);
    assert InBounds(mx, my, width, height);
    OpenLink(s1, s2, x + 2, y, mx, my, width, height);
    OneLinkStep(s, s1, s2, x, y, mx, my, width, height);
    assert x + 1 != width - 2 by {
      OddNext(x);
      OddMod(width - 2);
      OddMod(width);
    }
  }

  /** Opening cell (x, y) and then, unless it is the top row's last, the link it chose moves the
      scan on by one cell. */
  lemma TreeStep(s: seq<Code>, s1: seq<Code>, s2: seq<Code>, x: int, y: int, mx: int, my: int, width: int, height: int)
    requires ValidDims(width, height) && Tree(s, x, y, width, height) && IsCell(x, y, width, height)
    requires CarvedPair(s, s1, x, y, x, y, width, height)
    requires if x == width - 2 && y == 1 then s2 == s1
      else OwnLink(x, y, mx, my, width) && IsLink(mx, my, width, height) && CarvedPair(s1, s2, mx, my, mx, my, width, height)
    ensures Tree(s2, x + 2, y, width, height)
  {
    if x == width - 2 && y == 1 {
      TreeLast(s, s1, x, y, width, height);
    } else {
      TreeLink(s, s1, s2, x, y, mx, my, width, height);
    }
  }

  /** One pass of the inner loop of scripts/gen.js binaryTree: opens cell (x, y), then the link
      it chose, if any. */
  method CarveCell(maze: array<Code>, x: int, y: int, width: int, height: int)
    requires ValidDims(width, height) && maze.Length == Area(width, height)
    requires Tree(maze[..], x, y, width, height) && IsCell(x, y, width, height)
    modifies maze
    ensures Tree(maze[..], x + 2, y, width, height)
  {
    ghost var s: seq<Code> := maze[..];
    assert InBounds(x, y, width, height);
    Open(maze, x, y, x, y, width, height);
    ghost var s1: seq<Code> := maze[..];
    var found, mx, my := ChooseLink(x, y, width, height);
    if found {
      assert InBounds(mx, my, width, height);
      Open(maze, mx, my, mx, my, width, height);
    }
    TreeStep(s, s1, maze[..], x, y, mx, my, width, height);
  }

  /** Every cell reaches the top row's last cell: its one open link leads north or east to a
      cell nearer that corner. */
  lemma {:induction false} TreeReached(s: seq<Code>, x: int, y: int, width: int, height: int)
    requires ValidDims(width, height) && CarvedOnly(s, width, height)
    requires forall a, b :: IsCell(a, b, width, height) ==> At(s, a, b, width) == W && OneLink(s, a, b, width)
    requires IsCell(x, y, width, height)
    ensures Reach.Reached(s, width - 2, 1, x, y, width, height)
    decreases width - x + y
  {
    if x == width - 2 && y == 1 {
      Reach.ReachedStart(s, x, y, width, height);
    } else {
      assert OneLink(s, x, y, width) && At(s, x, y, width) == W;
      assert InBounds(x, y - 1, width, height) && InBounds(x + 1, y, width, height);
      OddNext(y - 1);
      OddNext(x);
      var north := At(s, x, y - 1, width) == W;
      var (mx, my) := if north then (x, y - 1) else (x + 1, y);
      var (nx, ny) := if north then (x, y - 2) else (x + 2, y);
      assert Carvable(mx, my, width, height);
      assert IsCell(nx, ny, width, height) by {
        OddMod(width);
        OddMod(x + 2);
      }
      TreeReached(s, nx, ny, width, height);
      Reach.ReachedStep(s, width - 2, 1, nx, ny, mx, my, width, height);
      Reach.ReachedStep(s, width - 2, 1, mx, my, x, y, width, height);
    }
  }

  /** A grid in which every carvable cell is open with its one link has its passages reachable
      from (1, 1). */
  lemma TreeConnected(s: seq<Code>, width: int, height: int)
    requires ValidDims(width, height) && CarvedOnly(s, width, height)
    requires forall a, b :: IsCell(a, b, width, height) ==> At(s, a, b, width) == W && OneLink(s, a, b, width)
    ensures Reach.Connected(s, 1, 1, width, height)
  {
    forall a, b | IsCell(a, b, width, height)
      ensures Reach.Reached(s, width - 2, 1, a, b, width, height)
    {
      TreeReached(s, a, b, width, height);
    }
    Reach.CellsConnect(s, width - 2, 1, width, height);
    assert IsCell(width - 2, 1, width, height) by {
      OddMod(width);
      OddMod(width - 2);
    }
    assert IsCell(1, 1, width, height);
    Reach.ConnectedMove(s, width - 2, 1, 1, 1, width, height);
  }

  /** scripts/gen.js binaryTree. Opens every carvable cell; each opens exactly one link, north
      or east, except the top row's last cell, which opens none; so exactly one link fewer than
      cells is open, and every passage is reachable from (1, 1). */
  method BinaryTree(maze: array<Code>, width: int, height: int)
    requires ValidDims(width, height) && maze.Length == Area(width, height) && AllWall(maze[..])
    modifies maze
    ensures CarvedOnly(maze[..], width, height)
    ensures forall a, b :: IsCell(a, b, width, height) ==> At(maze[..], a, b, width) == W && OneLink(maze[..], a, b, width)
    ensures GridCount(maze[..], Links, width, height, height) == TotalCells(width, height) - 1
    ensures Reach.Connected(maze[..], 1, 1, width, height)
  {
    ScanStart(maze[..], width, height);
    var y := 1;
    while y < height - 1
      invariant 1 <= y <= height && Odd(y)
      invariant Tree(maze[..], 1, y, width, height)
    {
      var x := 1;
      while x < width - 1
        invariant 1 <= x <= width && Odd(x)
        invariant Tree(maze[..], x, y, width, height)
      {
        CarveCell(maze, x, y, width, height);
        x := x + 2;
      }
      ScanNextRow(maze[..], x, y, width, height);
      y := y + 2;
    }
    assert y == height by {
      OddMod(y);
      OddMod(height);
    }
    ScanDone(maze[..], width, height);
    TreeConnected(maze[..], width, height);
  }
}
