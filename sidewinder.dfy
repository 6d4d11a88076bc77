/** The sidewinder generator: each carvable row is cut into runs of cells joined eastwards, and
    every run is closed by opening the north link of one of its cells. */
module Sidewinder {
  import opened Grid
  import Chance
  import opened Scan
  import Reach
  import opened Search

  /** One open link per scanned cell, except one for the whole top row once it is scanned. */
  ghost predicate LinkBalance(s: seq<Code>, x: int, y: int, width: int, height: int)
  {
    GridCount(s, Links, width, height, height) + (if Before(width - 2, 1, x, y) then 1 else 0) == Carved(s, width, height)
  }

  /** The run's cells are scanned cells of row y whose north links are still walls. */
  ghost predicate RunOpen(s: seq<Code>, run: seq<(int, int)>, x: int, y: int, width: int, height: int)
  {
    forall k :: 0 <= k < |run| ==>
      IsCell(run[k].0, run[k].1, width, height) && run[k].1 == y && run[k].0 < x && At(s, run[k].0, run[k].1 - 1, width) == B
  }

  /** The top row's scanned cells are joined east up to the last carvable column. */
  ghost predicate TopJoined(s: seq<Code>, x: int, y: int, width: int, height: int)
  {
    forall a :: IsCell(a, 1, width, height) && Before(a, 1, x, y) && a < width - 2 ==> At(s, a + 1, 1, width) == W
  }

  /** The state of the scan standing at (x, y) with the open run `run`. */
  ghost predicate Winding(s: seq<Code>, run: seq<(int, int)>, x: int, y: int, width: int, height: int)
  {
    && Scanned(s, x, y, width, height)
    && LinkBalance(s, x, y, width, height)
    && RunOpen(s, run, x, y, width, height)
    && TopJoined(s, x, y, width, height)
  }

  /** Opening cell (x, y) keeps every entry of the run, and (x, y) joins it with its north link
      still a wall. */
  lemma PushCell(s: seq<Code>, s1: seq<Code>, run: seq<(int, int)>, x: int, y: int, width: int, height: int)
    requires Winding(s, run, x, y, width, height) && IsCell(x, y, width, height)
    requires CarvedPair(s, s1, x, y, x, y, width, height)
    ensures Scanned(s1, x + 2, y, width, height)
    ensures Carved(s1, width, height) == Carved(s, width, height) + 1
    ensures GridCount(s1, Links, width, height, height) == GridCount(s, Links, width, height, height)
    ensures RunOpen(s1, run + [(x, y)], x + 2, y, width, height)
    ensures TopJoined(s1, x, y, width, height)
  {
    OpenCell(s, s1, x, y, width, height);
    assert !Odd(y - 1) by {
      OddNext(y - 1);
    }
    assert InBounds(x, y - 1, width, height);
    if IsLink(x, y - 1, width, height) {
      NotYetOpen(s, x, y, x, y - 1, width, height);
    }
    forall k | 0 <= k < |run|
      ensures At(s1, run[k].0, y - 1, width) == B
    {
      assert InBounds(run[k].0, y - 1, width, height);
    }
    forall a | IsCell(a, 1, width, height) && Before(a, 1, x, y) && a < width - 2
      ensures At(s1, a + 1, 1, width) == W
    {
      assert InBounds(a + 1, 1, width, height);
    }
  }

  /** Opening a link below the top row keeps the top row joined, one cell further on. */
  lemma TopJoinedStep(s1: seq<Code>, s2: seq<Code>, x: int, y: int, mx: int, my: int, width: int, height: int)
    requires TopJoined(s1, x, y, width, height) && |s2| == |s1| && InBounds(mx, my, width, height)
    requires CarvedPair(s1, s2, mx, my, mx, my, width, height)
    requires x >= width - 2 || y > 1
    ensures TopJoined(s2, x + 2, y, width, height)
  {
    forall a | IsCell(a, 1, width, height) && Before(a, 1, x + 2, y) && a < width - 2
      ensures At(s2, a + 1, 1, width) == W
    {
      assert InBounds(a + 1, 1, width, height);
    }
  }

  /** Closing the run below the top row: the north link of run cell (rx, y) is opened. */
  lemma CloseNorth(s1: seq<Code>, s2: seq<Code>, x: int, y: int, rx: int, width: int, height: int)
    requires ValidDims(width, height) && Scanned(s1, x + 2, y, width, height)
    requires GridCount(s1, Links, width, height, height) + (if Before(width - 2, 1, x, y) then 1 else 0) + 1 == Carved(s1, width, height)
    requires TopJoined(s1, x, y, width, height)
    requires IsCell(x, y, width, height) && IsCell(rx, y, width, height) && rx < x + 2 && At(s1, rx, y - 1, width) == B
    requires y > 1 && CarvedPair(s1, s2, rx, y - 1, rx, y - 1, width, height)
    ensures Winding(s2, [], x + 2, y, width, height)
  {
    assert IsLink(rx, y - 1, width, height) by {
      OddNext(y - 1);
      OddMod(y);
    }
    assert !Odd(y - 1) by {
      OddNext(y - 1);
    }
    OpenLink(s1, s2, x + 2, y, rx, y - 1, width, height);
    TopJoinedStep(s1, s2, x, y, rx, y - 1, width, height);
  }

  /** Closing the run: opening the north link of one of its cells when that cell is below the
      top row, then starting an empty run. In the top row a run is closed only at the last
      carvable column. */
  lemma CloseStep(s: seq<Code>, s1: seq<Code>, s2: seq<Code>, run: seq<(int, int)>, x: int, y: int, rx: int, ry: int, width: int, height: int)
    requires ValidDims(width, height) && Winding(s, run, x, y, width, height) && IsCell(x, y, width, height)
    requires CarvedPair(s, s1, x, y, x, y, width, height)
    requires (rx, ry) in run + [(x, y)] && (x >= width - 2 || y > 1)
    requires if ry > 1 then CarvedPair(s1, s2, rx, ry - 1, rx, ry - 1, width, height) else s2 == s1
    ensures Winding(s2, [], x + 2, y, width, height)
  {
    PushCell(s, s1, run, x, y, width, height);
    var k :| 0 <= k < |run + [(x, y)]| && (run + [(x, y)])[k] == (rx, ry);
    assert IsCell(rx, ry, width, height) && ry == y && rx < x + 2 && At(s1, rx, y - 1, width) == B;
    if ry > 1 {
      CloseNorth(s1, s2, x, y, rx, width, height);
    } else {
      assert x == width - 2 by {
        OddMod(x);
        OddMod(width);
      }
      TopJoinedStep(s1, s2, x, y, x, y, width, height);
    }
  }

  /** Opening the east link of (x, y) leaves the north links of the run's cells walls. */
  lemma RunOpenEast(s1: seq<Code>, s2: seq<Code>, run: seq<(int, int)>, x: int, y: int, width: int, height: int)
    requires ValidDims(width, height) && IsCell(x, y, width, height) && |s1| == Area(width, height)
    requires RunOpen(s1, run, x + 2, y, width, height)
    requires CarvedPair(s1, s2, x + 1, y, x + 1, y, width, height)
    ensures RunOpen(s2, run, x + 2, y, width, height)
  {
    forall k | 0 <= k < |run|
      ensures At(s2, run[k].0, run[k].1 - 1, width) == B
    {
      assert InBounds(run[k].0, y - 1, width, height);
      assert !Odd(y - 1) by {
        OddNext(y - 1);
      }
    }
  }

  /** Not closing the run: opening the east link of (x, y) and keeping (x, y) in the run. */
  lemma EastStep(s: seq<Code>, s1: seq<Code>, s2: seq<Code>, run: seq<(int, int)>, x: int, y: int, width: int, height: int)
    requires ValidDims(width, height) && Winding(s, run, x, y, width, height) && IsCell(x, y, width, height)
    requires CarvedPair(s, s1, x, y, x, y, width, height)
    requires x < width - 2 && CarvedPair(s1, s2, x + 1, y, x + 1, y, width, height)
    ensures Winding(s2, run + [(x, y)], x + 2, y, width, height)
  {
    PushCell(s, s1, run, x, y, width, height);
    assert IsLink(x + 1, y, width, height) && !Odd(x + 1) by {
      OddNext(x);
    }
    NotYetOpen(s, x, y, x + 1, y, width, height);
    assert InBounds(x + 1, y, width, height);
    OpenLink(s1, s2, x + 2, y, x + 1, y, width, height);
    assert x + 1 != width - 2 by {
      OddNext(x);
      OddMod(width - 2);
      OddMod(width);
    }
    RunOpenEast(s1, s2, run + [(x, y)], x, y, width, height);
    forall a | IsCell(a, 1, width, height) && Before(a, 1, x + 2, y) && a < width - 2
      ensures At(s2, a + 1, 1, width) == W
    {
      assert InBounds(a + 1, 1, width, height);
    }
  }

  /** Past the last carvable column of row y the scan stands at the first cell of row y + 2,
      with a new empty run. */
  lemma WindNextRow(s: seq<Code>, run: seq<(int, int)>, x: int, y: int, width: int, height: int)
    requires ValidDims(width, height) && Winding(s, run, x, y, width, height) && width - 1 <= x && Odd(y)
    ensures Winding(s, [], 1, y + 2, width, height)
  {
    ScanNextRow(s, x, y, width, height);
    BeforeNextRow(x, y, width, height);
  }

  // ---------------------------------------------------------------------------
  // Reachability from (1, 1)

  /** The run holds the cells of row y just west of column x, west to east. */
  predicate RunCells(run: seq<(int, int)>, x: int, y: int)
  {
    forall k :: 0 <= k < |run| ==> run[k] == (x - 2 * (|run| - k), y)
  }

  /** (a, b) belongs to the open run below the top row: one of its cells or the east link after
      one of them. */
  predicate Pending(run: seq<(int, int)>, x: int, y: int, a: int, b: int)
  {
    y > 1 && b == y && x - 2 * |run| <= a < x
  }

  /** The reachability state of the scan: the run is the stretch of row y west of x, that
      stretch is open, and every passage outside the open run below the top row is reachable
      from (1, 1). */
  ghost predicate Threaded(s: seq<Code>, run: seq<(int, int)>, x: int, y: int, width: int, height: int)
  {
    && RunCells(run, x, y)
    && (forall a :: x - 2 * |run| <= a < x ==> At(s, a, y, width) == W)
    && (forall a, b :: Enterable(s, Interior, a, b, width, height) && !Pending(run, x, y, a, b) ==>
          Reach.Reached(s, 1, 1, a, b, width, height))
  }

  /** An all-wall grid has no passage to reach. */
  lemma ThreadStart(s: seq<Code>, width: int, height: int)
    requires |s| == Area(width, height) && AllWall(s)
    ensures Threaded(s, [], 1, 1, width, height)
  {
    forall a, b | Enterable(s, Interior, a, b, width, height)
      ensures false
    {
      IdxRange(a, b, width, height);
    }
  }

  /** Along an open stretch of row y every position is reached once one of them is. */
  lemma {:induction false} StretchReached(s: seq<Code>, lo: int, hi: int, y: int, p: int, a: int, width: int, height: int)
    requires forall c :: lo <= c <= hi ==> Enterable(s, Interior, c, y, width, height)
    requires lo <= p <= hi && lo <= a <= hi && Reach.Reached(s, 1, 1, p, y, width, height)
    ensures Reach.Reached(s, 1, 1, a, y, width, height)
    decreases if a < p then p - a else a - p
  {
    if a < p {
      StretchReached(s, lo, hi, y, p, a + 1, width, height);
      Reach.ReachedStep(s, 1, 1, a + 1, y, a, y, width, height);
    } else if a > p {
      StretchReached(s, lo, hi, y, p, a - 1, width, height);
      Reach.ReachedStep(s, 1, 1, a - 1, y, a, y, width, height);
    }
  }

  /** In the top row a newly opened cell is reached through the open link west of it. */
  lemma TopCellReached(s: seq<Code>, s2: seq<Code>, x: int, width: int, height: int)
    requires TopJoined(s, x, 1, width, height) && IsCell(x, 1, width, height) && At(s2, x, 1, width) == W
    requires forall a, b :: Enterable(s, Interior, a, b, width, height) ==> Reach.Reached(s, 1, 1, a, b, width, height)
    requires forall a, b :: Enterable(s, Interior, a, b, width, height) ==> Enterable(s2, Interior, a, b, width, height)
    ensures Reach.Reached(s2, 1, 1, x, 1, width, height)
  {
    if x == 1 {
      Reach.ReachedStart(s2, 1, 1, width, height);
    } else {
      assert IsCell(x - 2, 1, width, height) && Before(x - 2, 1, x, 1) by {
        OddMod(x);
        OddMod(x - 2);
      }
      assert Enterable(s, Interior, x - 1, 1, width, height);
      Reach.ReachedWiden(s, s2, 1, 1, x - 1, 1, width, height);
      Reach.ReachedStep(s2, 1, 1, x - 1, 1, x, 1, width, height);
    }
  }

  /** Opening (x, y) and its east link extends the open run by one cell. */
  lemma ThreadEast(s: seq<Code>, s2: seq<Code>, run: seq<(int, int)>, x: int, y: int, width: int, height: int)
    requires Winding(s, run, x, y, width, height) && Threaded(s, run, x, y, width, height)
    requires IsCell(x, y, width, height) && x < width - 2
    requires CarvedPair(s, s2, x + 1, y, x, y, width, height)
    ensures Threaded(s2, run + [(x, y)], x + 2, y, width, height)
  {
    var run' := run + [(x, y)];
    Reach.CarvedWidens(s, s2, x + 1, y, x, y, width, height);
    assert x - 2 * |run| >= 1 by {
      if |run| > 0 {
        assert run[0] == (x - 2 * |run|, y);
      }
    }
    forall a | x + 2 - 2 * |run'| <= a < x + 2
      ensures At(s2, a, y, width) == W
    {
      assert InBounds(a, y, width, height);
    }
    if y == 1 {
      TopCellReached(s, s2, x, width, height);
      Reach.ReachedStep(s2, 1, 1, x, 1, x + 1, 1, width, height);
    }
    forall a, b | Enterable(s2, Interior, a, b, width, height) && !Pending(run', x + 2, y, a, b)
      ensures Reach.Reached(s2, 1, 1, a, b, width, height)
    {
      assert InBounds(a, b, width, height);
      if !(b == y && (a == x || a == x + 1)) {
        Reach.ReachedWiden(s, s2, 1, 1, a, b, width, height);
      }
    }
  }

  /** Closing the run below the top row: the north link of run cell (rx, y) joins the whole
      open stretch to the reached cell above it, so every passage is reachable from (1, 1). */
  lemma ThreadCloseNorth(s: seq<Code>, s2: seq<Code>, run: seq<(int, int)>, x: int, y: int, rx: int, width: int, height: int)
    requires ValidDims(width, height) && Winding(s, run, x, y, width, height) && Threaded(s, run, x, y, width, height)
    requires IsCell(x, y, width, height) && IsCell(rx, y, width, height) && x - 2 * |run| <= rx <= x && y > 1
    requires CarvedPair(s, s2, rx, y - 1, x, y, width, height)
    ensures Threaded(s2, [], x + 2, y, width, height)
  {
    var lo := x - 2 * |run|;
    Reach.CarvedWidens(s, s2, rx, y - 1, x, y, width, height);
    assert IsCell(rx, y - 2, width, height) && Before(rx, y - 2, x, y) by {
      OddMod(y);
      OddMod(y - 2);
    }
    assert InBounds(rx, y - 1, width, height) && InBounds(rx, y - 2, width, height);
    assert Enterable(s, Interior, rx, y - 2, width, height);
    Reach.ReachedWiden(s, s2, 1, 1, rx, y - 2, width, height);
    Reach.ReachedStep(s2, 1, 1, rx, y - 2, rx, y - 1, width, height);
    Reach.ReachedStep(s2, 1, 1, rx, y - 1, rx, y, width, height);
    assert lo >= 1 by {
      if |run| > 0 {
        assert run[0] == (lo, y);
      }
    }
    forall c | lo <= c <= x
      ensures Enterable(s2, Interior, c, y, width, height)
    {
      assert InBounds(c, y, width, height);
    }
    forall a, b | Enterable(s2, Interior, a, b, width, height)
      ensures Reach.Reached(s2, 1, 1, a, b, width, height)
    {
      assert InBounds(a, b, width, height);
      if b == y && lo <= a <= x {
        StretchReached(s2, lo, x, y, rx, a, width, height);
      } else if !(a == rx && b == y - 1) {
        Reach.ReachedWiden(s, s2, 1, 1, a, b, width, height);
      }
    }
  }

  /** Closing the run at the end of the top row: the last cell is reached through the link
      west of it, so every passage is reachable from (1, 1). */
  lemma ThreadCloseTop(s: seq<Code>, s2: seq<Code>, run: seq<(int, int)>, x: int, width: int, height: int)
    requires Winding(s, run, x, 1, width, height) && Threaded(s, run, x, 1, width, height)
    requires IsCell(x, 1, width, height) && CarvedPair(s, s2, x, 1, x, 1, width, height)
    ensures Threaded(s2, [], x + 2, 1, width, height)
  {
    Reach.CarvedWidens(s, s2, x, 1, x, 1, width, height);
    assert InBounds(x, 1, width, height);
    TopCellReached(s, s2, x, width, height);
    forall a, b | Enterable(s2, Interior, a, b, width, height)
      ensures Reach.Reached(s2, 1, 1, a, b, width, height)
    {
      assert InBounds(a, b, width, height);
      if !(a == x && b == 1) {
        Reach.ReachedWiden(s, s2, 1, 1, a, b, width, height);
      }
    }
  }

  /** Closing the run through run cell (rx, ry) leaves every passage reachable from (1, 1). */
  lemma ThreadClose(s: seq<Code>, s2: seq<Code>, run: seq<(int, int)>, x: int, y: int, rx: int, ry: int, width: int, height: int)
    requires ValidDims(width, height) && Winding(s, run, x, y, width, height) && Threaded(s, run, x, y, width, height)
    requires IsCell(x, y, width, height) && (rx, ry) in run + [(x, y)]
    requires ClosedAt(s, s2, (rx, ry), x, y, width, height)
    ensures Threaded(s2, [], x + 2, y, width, height)
  {
    var k :| 0 <= k < |run| + 1 && (run + [(x, y)])[k] == (rx, ry);
    assert ry == y && x - 2 * |run| <= rx <= x;
    if y > 1 {
      assert IsCell(rx, y, width, height) by {
        if k < |run| {
          assert run[k] == (rx, ry);
        }
      }
      ThreadCloseNorth(s, s2, run, x, y, rx, width, height);
    } else {
      ThreadCloseTop(s, s2, run, x, width, height);
    }
  }

  /** Closing the run at (x, y) through run cell r: s' is s with (x, y) opened and, below the
      top row, the north link of r. */
  ghost predicate ClosedAt(s: seq<Code>, s': seq<Code>, r: (int, int), x: int, y: int, width: int, height: int)
  {
    if r.1 > 1 then CarvedPair(s, s', r.0, r.1 - 1, x, y, width, height)
    else CarvedPair(s, s', x, y, x, y, width, height)
  }

  /** Opening (x, y) and then (mx, my) opens the pair of them. */
  lemma OpenedBoth(s: seq<Code>, s1: seq<Code>, s2: seq<Code>, x: int, y: int, mx: int, my: int, width: int, height: int)
    requires CarvedPair(s, s1, x, y, x, y, width, height) && CarvedPair(s1, s2, mx, my, mx, my, width, height)
    ensures CarvedPair(s, s2, mx, my, x, y, width, height)
  {
  }

  /** One pass of the inner loop of scripts/gen.js sidewinder: opens cell (x, y) and adds it to
      the run; closes the run at the last carvable column, or below the top row on a draw, by
      opening the north link of a random run cell below the top row; otherwise opens the east
      link. Only the top row never closes before its last column. */
  method WindCell(maze: array<Code>, run: seq<(int, int)>, x: int, y: int, width: int, height: int)
    returns (run': seq<(int, int)>)
    requires ValidDims(width, height) && maze.Length == Area(width, height)
    requires Winding(maze[..], run, x, y, width, height) && IsCell(x, y, width, height)
    requires Threaded(maze[..], run, x, y, width, height)
    modifies maze
    ensures Winding(maze[..], run', x + 2, y, width, height)
    ensures Threaded(maze[..], run', x + 2, y, width, height)
    ensures x >= width - 2 ==> run' == []
    ensures y == 1 && x < width - 2 ==> run' != []
    ensures run' != [] ==> run' == run + [(x, y)] && CarvedPair(old(maze[..]), maze[..], x + 1, y, x, y, width, height)
    ensures run' == [] ==> exists r :: r in run + [(x, y)] && ClosedAt(old(maze[..]), maze[..], r, x, y, width, height)
  {
    ghost var s: seq<Code> := maze[..];
    assert InBounds(x, y, width, height);
    Open(maze, x, y, x, y, width, height);
    ghost var s1: seq<Code> := maze[..];
    run' := run + [(x, y)];
    var atEasternBoundary := x >= width - 2;
    var atNorthernBoundary := y <= 1;
    var shouldCloseOut := atEasternBoundary;
    if !shouldCloseOut && !atNorthernBoundary {
      shouldCloseOut := Chance.Coin();
    }
    if shouldCloseOut {
      var k := Chance.Pick(|run'|);
      var (rx, ry) := run'[k];
      assert run'[k] in run + [(x, y)];
      if ry > 1 {
        assert InBounds(rx, ry - 1, width, height) by {
          PushCell(s, s1, run, x, y, width, height);
        }
        Open(maze, rx, ry - 1, rx, ry - 1, width, height);
        OpenedBoth(s, s1, maze[..], x, y, rx, ry - 1, width, height);
      }
      assert ClosedAt(s, maze[..], (rx, ry), x, y, width, height);
      CloseStep(s, s1, maze[..], run, x, y, rx, ry, width, height);
      ThreadClose(s, maze[..], run, x, y, rx, ry, width, height);
      run' := [];
    } else {
      assert InBounds(x + 1, y, width, height);
      Open(maze, x + 1, y, x + 1, y, width, height);
      EastStep(s, s1, maze[..], run, x, y, width, height);
      OpenedBoth(s, s1, maze[..], x, y, x + 1, y, width, height);
      ThreadEast(s, maze[..], run, x, y, width, height);
    }
  }

  /** scripts/gen.js sidewinder. Opens every carvable cell, joins the whole top row eastwards,
      opens exactly one link fewer than there are cells, and leaves every passage reachable
      from (1, 1). */
  method Sidewinder(maze: array<Code>, width: int, height: int)
    requires ValidDims(width, height) && maze.Length == Area(width, height) && AllWall(maze[..])
    modifies maze
    ensures CarvedOnly(maze[..], width, height)
    ensures forall a, b :: IsCell(a, b, width, height) ==> At(maze[..], a, b, width) == W
    ensures forall a :: IsCell(a, 1, width, height) && a < width - 2 ==> At(maze[..], a + 1, 1, width) == W
    ensures GridCount(maze[..], Links, width, height, height) == TotalCells(width, height) - 1
    ensures Reach.Connected(maze[..], 1, 1, width, height)
  {
    ScanStart(maze[..], width, height);
    ThreadStart(maze[..], width, height);
    var y := 1;
    while y < height - 1
      invariant 1 <= y <= height && Odd(y)
      invariant Winding(maze[..], [], 1, y, width, height)
      invariant Threaded(maze[..], [], 1, y, width, height)
    {
      var run: seq<(int, int)> := [];
      var x := 1;
      while x < width - 1
        invariant 1 <= x <= width && Odd(x)
        invariant Winding(maze[..], run, x, y, width, height)
        invariant Threaded(maze[..], run, x, y, width, height)
        invariant x == width ==> run == []
      {
        run := WindCell(maze, run, x, y, width, height);
        x := x + 2;
      }
      assert x == width by {
        OddMod(x);
        OddMod(width);
      }
      WindNextRow(maze[..], run, x, y, width, height);
      y := y + 2;
    }
    assert y == height by {
      OddMod(y);
      OddMod(height);
    }
    ScanDone(maze[..], width, height);
  }
}
