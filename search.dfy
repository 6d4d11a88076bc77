/** The two breadth-first searches over a finished grid: findFarthest, which walks passages
    strictly inside the border, and checkSolvability, which walks passages and the goal
    anywhere in bounds. Both queue (position, distance) entries and mark positions when they
    are queued. */
module Search {
  import opened Grid

  /** Which positions a search may step onto. */
  datatype Rule =
    | Interior  // findFarthest: a passage strictly inside the border ring
    | Walkable  // checkSolvability: a passage or the goal, anywhere in bounds

  predicate Enterable(s: seq<Code>, rule: Rule, x: int, y: int, width: int, height: int)
  {
    match rule
    case Interior => 1 <= x < width - 1 && 1 <= y < height - 1 && At(s, x, y, width) == W
    case Walkable => InBounds(x, y, width, height) && (At(s, x, y, width) == W || At(s, x, y, width) == G)
  }

  /** The order in which both searches try the neighbours of a position. */
  const Directions: seq<(int, int)> := [(0, 1), (1, 0), (0, -1), (-1, 0)]

  /** (x, y) can be reached from the start (sx, sy) in at most d unit steps, each onto an
      enterable position: the end of a Route of at most d steps (RouteWithin, WithinRoute).
      The start itself needs no check: it is where the search begins. */
  predicate Within(s: seq<Code>, rule: Rule, sx: int, sy: int, x: int, y: int, d: nat, width: int, height: int)
    decreases d
  {
    (x == sx && y == sy) ||
    (d > 0 &&
      (Within(s, rule, sx, sy, x, y, d - 1, width, height) ||
        (Enterable(s, rule, x, y, width, height) &&
          (Within(s, rule, sx, sy, x, y - 1, d - 1, width, height) ||
            Within(s, rule, sx, sy, x - 1, y, d - 1, width, height) ||
            Within(s, rule, sx, sy, x, y + 1, d - 1, width, height) ||
            Within(s, rule, sx, sy, x + 1, y, d - 1, width, height)))))
  }

  /** The shortest route from the start to (x, y) has exactly d steps. */
  predicate Shortest(s: seq<Code>, rule: Rule, sx: int, sy: int, x: int, y: int, d: nat, width: int, height: int)
  {
    Within(s, rule, sx, sy, x, y, d, width, height) && (d == 0 || !Within(s, rule, sx, sy, x, y, d - 1, width, height))
  }

  lemma {:induction false} WithinMono(s: seq<Code>, rule: Rule, sx: int, sy: int, x: int, y: int, d: nat, e: nat, width: int, height: int)
    requires d <= e && Within(s, rule, sx, sy, x, y, d, width, height)
    ensures Within(s, rule, sx, sy, x, y, e, width, height)
    decreases e - d
  {
    if d < e {
      WithinMono(s, rule, sx, sy, x, y, d, e - 1, width, height);
    }
  }

  /** A shortest distance is unique, and no shorter route exists. */
  lemma ShortestUnique(s: seq<Code>, rule: Rule, sx: int, sy: int, x: int, y: int, d: nat, e: nat, width: int, height: int)
    requires Shortest(s, rule, sx, sy, x, y, d, width, height) && Within(s, rule, sx, sy, x, y, e, width, height)
    ensures d <= e
  {
    if e < d {
      WithinMono(s, rule, sx, sy, x, y, e, d - 1, width, height);
    }
  }

  /** Every position reachable from the start is the start itself or can be entered. */
  lemma {:induction false} WithinEnd(s: seq<Code>, rule: Rule, sx: int, sy: int, x: int, y: int, d: nat, width: int, height: int)
    requires Within(s, rule, sx, sy, x, y, d, width, height)
    ensures (x == sx && y == sy) || Enterable(s, rule, x, y, width, height)
    decreases d
  {
    if !(x == sx && y == sy) && Within(s, rule, sx, sy, x, y, d - 1, width, height) {
      WithinEnd(s, rule, sx, sy, x, y, d - 1, width, height);
    }
  }

  /** Reachability carries over from grid s under rule r to grid t under rule q when every
      position r lets the search enter in s, q lets it enter in t. */
  lemma {:induction false} WithinWiden(s: seq<Code>, r: Rule, t: seq<Code>, q: Rule, sx: int, sy: int, x: int, y: int, d: nat, width: int, height: int)
    requires forall a, b :: Enterable(s, r, a, b, width, height) ==> Enterable(t, q, a, b, width, height)
    requires Within(s, r, sx, sy, x, y, d, width, height)
    ensures Within(t, q, sx, sy, x, y, d, width, height)
    decreases d
  {
    if !(x == sx && y == sy) {
      if Within(s, r, sx, sy, x, y, d - 1, width, height) {
        WithinWiden(s, r, t, q, sx, sy, x, y, d - 1, width, height);
      }
      if Within(s, r, sx, sy, x, y - 1, d - 1, width, height) {
        WithinWiden(s, r, t, q, sx, sy, x, y - 1, d - 1, width, height);
      }
      if Within(s, r, sx, sy, x - 1, y, d - 1, width, height) {
        WithinWiden(s, r, t, q, sx, sy, x - 1, y, d - 1, width, height);
      }
      if Within(s, r, sx, sy, x, y + 1, d - 1, width, height) {
        WithinWiden(s, r, t, q, sx, sy, x, y + 1, d - 1, width, height);
      }
      if Within(s, r, sx, sy, x + 1, y, d - 1, width, height) {
        WithinWiden(s, r, t, q, sx, sy, x + 1, y, d - 1, width, height);
      }
    }
  }

  /** When none of the four neighbours of the start can be entered, the start is the only
      position reachable, in any number of steps. */
  lemma {:induction false} Alone(s: seq<Code>, rule: Rule, sx: int, sy: int, x: int, y: int, d: nat, width: int, height: int)
    requires !Enterable(s, rule, sx, sy + 1, width, height) && !Enterable(s, rule, sx + 1, sy, width, height)
    requires !Enterable(s, rule, sx, sy - 1, width, height) && !Enterable(s, rule, sx - 1, sy, width, height)
    ensures Within(s, rule, sx, sy, x, y, d, width, height) <==> x == sx && y == sy
    decreases d
  {
    if d > 0 {
      Alone(s, rule, sx, sy, x, y, d - 1, width, height);
      Alone(s, rule, sx, sy, x, y - 1, d - 1, width, height);
      Alone(s, rule, sx, sy, x - 1, y, d - 1, width, height);
      Alone(s, rule, sx, sy, x, y + 1, d - 1, width, height);
      Alone(s, rule, sx, sy, x + 1, y, d - 1, width, height);
    }
  }

  /** (c, d) is one unit step from (a, b) along one axis. */
  predicate UnitStep(a: int, b: int, c: int, d: int)
  {
    (a == c && (d == b + 1 || d == b - 1)) || (b == d && (c == a + 1 || c == a - 1))
  }

  /** p is a route from the start: it begins there, and every later position is a unit step
      from the one before and can be entered. */
  ghost predicate Route(s: seq<Code>, rule: Rule, p: seq<(int, int)>, sx: int, sy: int, width: int, height: int)
  {
    && |p| >= 1 && p[0].0 == sx && p[0].1 == sy
    && forall i :: 0 < i < |p| ==>
         UnitStep(p[i - 1].0, p[i - 1].1, p[i].0, p[i].1) && Enterable(s, rule, p[i].0, p[i].1, width, height)
  }

  /** The end of a route of at most d steps is within d steps. */
  lemma {:induction false} RouteWithin(s: seq<Code>, rule: Rule, p: seq<(int, int)>, sx: int, sy: int, d: nat, width: int, height: int)
    requires Route(s, rule, p, sx, sy, width, height) && |p| <= d + 1
    ensures Within(s, rule, sx, sy, p[|p| - 1].0, p[|p| - 1].1, d, width, height)
    decreases |p|
  {
    if |p| > 1 {
      var p' := p[..|p| - 1];
      assert Route(s, rule, p', sx, sy, width, height);
      RouteWithin(s, rule, p', sx, sy, d - 1, width, height);
      assert p'[|p'| - 1] == p[|p| - 2];
    }
  }

  /** A position within d steps is the end of a route of at most d steps. */
  lemma {:induction false} WithinRoute(s: seq<Code>, rule: Rule, sx: int, sy: int, x: int, y: int, d: nat, width: int, height: int)
    returns (p: seq<(int, int)>)
    requires Within(s, rule, sx, sy, x, y, d, width, height)
    ensures Route(s, rule, p, sx, sy, width, height) && |p| <= d + 1 && p[|p| - 1] == (x, y)
    decreases d
  {
    if x == sx && y == sy {
      p := [(x, y)];
    } else if Within(s, rule, sx, sy, x, y, d - 1, width, height) {
      p := WithinRoute(s, rule, sx, sy, x, y, d - 1, width, height);
    } else {
      var mx, my := x, y + 1;
      if Within(s, rule, sx, sy, x, y - 1, d - 1, width, height) {
        mx, my := x, y - 1;
      } else if Within(s, rule, sx, sy, x - 1, y, d - 1, width, height) {
        mx, my := x - 1, y;
      } else if !Within(s, rule, sx, sy, x, y + 1, d - 1, width, height) {
        mx, my := x + 1, y;
      }
      var p' := WithinRoute(s, rule, sx, sy, mx, my, d - 1, width, height);
      p := p' + [(x, y)];
      assert p[|p| - 2] == p'[|p'| - 1];
    }
  }

  /** When the start has no enterable neighbour, the only position at a shortest distance is
      the start, at distance 0: findFarthest then returns the start. */
  lemma AloneFarthest(s: seq<Code>, rule: Rule, sx: int, sy: int, fx: int, fy: int, far: nat, width: int, height: int)
    requires !Enterable(s, rule, sx, sy + 1, width, height) && !Enterable(s, rule, sx + 1, sy, width, height)
    requires !Enterable(s, rule, sx, sy - 1, width, height) && !Enterable(s, rule, sx - 1, sy, width, height)
    requires Shortest(s, rule, sx, sy, fx, fy, far, width, height)
    ensures fx == sx && fy == sy && far == 0
  {
    Alone(s, rule, sx, sy, fx, fy, far, width, height);
    ShortestUnique(s, rule, sx, sy, fx, fy, far, 0, width, height);
  }

  // ---------------------------------------------------------------------------
  // Search state

  /** A queue entry `[[x, y], dist]`. */
  datatype Entry = Entry(x: int, y: int, dist: int)

  /** The distance recorded for (x, y) when it was marked, or -1 when it is unmarked or out of
      bounds. */
  function LevelAt(level: seq<int>, x: int, y: int, width: int, height: int): int
  {
    var i := Idx(x, y, width);
    if InBounds(x, y, width, height) && 0 <= i < |level| then level[i] else -1
  }

  /** A write of v at (a, b) is seen at (a, b) and nowhere else. */
  lemma LevelUpdate(level: seq<int>, a: int, b: int, v: int, width: int, height: int)
    requires |level| == Area(width, height) && InBounds(a, b, width, height)
    ensures 0 <= Idx(a, b, width) < |level|
    ensures forall x, y ::
      LevelAt(level[Idx(a, b, width) := v], x, y, width, height) == if x == a && y == b then v else LevelAt(level, x, y, width, height)
  {
    IdxRange(a, b, width, height);
    var level' := level[Idx(a, b, width) := v];
    forall x, y
      ensures LevelAt(level', x, y, width, height) == if x == a && y == b then v else LevelAt(level, x, y, width, height)
    {
      if InBounds(x, y, width, height) {
        IdxRange(x, y, width, height);
        if Idx(x, y, width) == Idx(a, b, width) {
          IdxInjective(x, y, a, b, width);
        }
      }
    }
  }

  predicate Queued(q: seq<Entry>, x: int, y: int)
  {
    exists k :: 0 <= k < |q| && q[k].x == x && q[k].y == y
  }

  /** (x, y) is marked if it can be entered. */
  ghost predicate Seen(s: seq<Code>, rule: Rule, level: seq<int>, x: int, y: int, width: int, height: int)
  {
    Enterable(s, rule, x, y, width, height) ==> LevelAt(level, x, y, width, height) >= 0
  }

  /** Every neighbour of (x, y) that can be entered is marked. */
  ghost predicate Expanded(s: seq<Code>, rule: Rule, level: seq<int>, x: int, y: int, width: int, height: int)
  {
    && Seen(s, rule, level, x, y + 1, width, height)
    && Seen(s, rule, level, x + 1, y, width, height)
    && Seen(s, rule, level, x, y - 1, width, height)
    && Seen(s, rule, level, x - 1, y, width, height)
  }

  /** The marks (`visited`) are exactly the positions with a recorded level. */
  ghost predicate Marks(visited: seq<bool>, level: seq<int>, width: int, height: int)
  {
    && |visited| == Area(width, height) && |level| == Area(width, height)
    && forall i :: 0 <= i < |level| ==> (level[i] >= 0 <==> visited[i])
  }

  /** The start is marked, and every recorded level is the exact shortest distance. */
  ghost predicate Exact(s: seq<Code>, rule: Rule, sx: int, sy: int, level: seq<int>, width: int, height: int)
  {
    && LevelAt(level, sx, sy, width, height) >= 0
    && forall x, y :: LevelAt(level, x, y, width, height) >= 0 ==>
         Shortest(s, rule, sx, sy, x, y, LevelAt(level, x, y, width, height), width, height)
  }

  /** The queue holds marked positions with their levels, in non-decreasing order, all
      between lo and lo + 1. */
  ghost predicate Ordered(level: seq<int>, q: seq<Entry>, lo: int, width: int, height: int)
  {
    && lo >= 0
    && (forall k :: 0 <= k < |q| ==> LevelAt(level, q[k].x, q[k].y, width, height) == q[k].dist && lo <= q[k].dist <= lo + 1)
    && (forall j, k :: 0 <= j < k < |q| ==> q[j].dist <= q[k].dist)
  }

  /** Every marked position that has left the queue, except the pending position (px, py), has
      all its enterable neighbours marked. */
  ghost predicate Closed(s: seq<Code>, rule: Rule, level: seq<int>, q: seq<Entry>, px: int, py: int, width: int, height: int)
  {
    forall x, y :: LevelAt(level, x, y, width, height) >= 0 && !Queued(q, x, y) && !(x == px && y == py) ==>
      Expanded(s, rule, level, x, y, width, height)
  }

  /** The breadth-first invariant, with (px, py) the position being expanded. */
  ghost predicate Searching(s: seq<Code>, rule: Rule, sx: int, sy: int, visited: seq<bool>, level: seq<int>, q: seq<Entry>,
                            lo: int, px: int, py: int, width: int, height: int)
  {
    && |s| == Area(width, height) && InBounds(sx, sy, width, height)
    && Marks(visited, level, width, height)
    && Exact(s, rule, sx, sy, level, width, height)
    && Ordered(level, q, lo, width, height)
    && Closed(s, rule, level, q, px, py, width, height)
  }

  /** A marked position reached within n < lo steps has left the queue and been expanded. */
  lemma DoneCell(s: seq<Code>, rule: Rule, sx: int, sy: int, visited: seq<bool>, level: seq<int>, q: seq<Entry>,
                 lo: int, px: int, py: int, mx: int, my: int, n: nat, width: int, height: int)
    requires Searching(s, rule, sx, sy, visited, level, q, lo, px, py, width, height)
    requires LevelAt(level, px, py, width, height) < 0 || LevelAt(level, px, py, width, height) >= lo
    requires n < lo && Within(s, rule, sx, sy, mx, my, n, width, height) && LevelAt(level, mx, my, width, height) >= 0
    ensures Expanded(s, rule, level, mx, my, width, height)
  {
    var l := LevelAt(level, mx, my, width, height);
    ShortestUnique(s, rule, sx, sy, mx, my, l, n, width, height);
    forall k | 0 <= k < |q|
      ensures !(q[k].x == mx && q[k].y == my)
    {
    }
  }

  /** Every marked position reached within fewer than lo steps has all its enterable
      neighbours marked, and the start is marked. */
  ghost predicate Settled(s: seq<Code>, rule: Rule, sx: int, sy: int, level: seq<int>, lo: int, width: int, height: int)
  {
    && LevelAt(level, sx, sy, width, height) >= 0
    && forall x, y, n: nat {:trigger Expanded(s, rule, level, x, y, width, height), Within(s, rule, sx, sy, x, y, n, width, height)} ::
         n < lo && Within(s, rule, sx, sy, x, y, n, width, height) && LevelAt(level, x, y, width, height) >= 0 ==>
           Expanded(s, rule, level, x, y, width, height)
  }

  /** While the queue holds levels lo and lo + 1 only, the positions closer than lo are
      settled. */
  lemma SettledBelow(s: seq<Code>, rule: Rule, sx: int, sy: int, visited: seq<bool>, level: seq<int>, q: seq<Entry>,
                     lo: int, px: int, py: int, width: int, height: int)
    requires Searching(s, rule, sx, sy, visited, level, q, lo, px, py, width, height)
    requires LevelAt(level, px, py, width, height) < 0 || LevelAt(level, px, py, width, height) >= lo
    ensures Settled(s, rule, sx, sy, level, lo, width, height)
  {
    forall x, y, n: nat | n < lo && Within(s, rule, sx, sy, x, y, n, width, height) && LevelAt(level, x, y, width, height) >= 0
      ensures Expanded(s, rule, level, x, y, width, height)
    {
      DoneCell(s, rule, sx, sy, visited, level, q, lo, px, py, x, y, n, width, height);
    }
  }

  /** An enterable neighbour of a settled marked position is marked. */
  lemma FromNeighbour(s: seq<Code>, rule: Rule, sx: int, sy: int, level: seq<int>, lo: int,
                      x: int, y: int, nx: int, ny: int, n: nat, width: int, height: int)
    requires Settled(s, rule, sx, sy, level, lo, width, height)
    requires n < lo && Within(s, rule, sx, sy, nx, ny, n, width, height) && LevelAt(level, nx, ny, width, height) >= 0
    requires Enterable(s, rule, x, y, width, height)
    requires (nx == x && (ny == y - 1 || ny == y + 1)) || (ny == y && (nx == x - 1 || nx == x + 1))
    ensures LevelAt(level, x, y, width, height) >= 0
  {
    assert Expanded(s, rule, level, nx, ny, width, height);
  }

  /** With the positions closer than lo settled, every position within lo steps is marked. */
  lemma {:induction false} Reached(s: seq<Code>, rule: Rule, sx: int, sy: int, level: seq<int>, lo: int,
                                   x: int, y: int, e: nat, width: int, height: int)
    requires Settled(s, rule, sx, sy, level, lo, width, height)
    requires e <= lo && Within(s, rule, sx, sy, x, y, e, width, height)
    ensures LevelAt(level, x, y, width, height) >= 0
    decreases e
  {
    if x == sx && y == sy {
    } else if Within(s, rule, sx, sy, x, y, e - 1, width, height) {
      Reached(s, rule, sx, sy, level, lo, x, y, e - 1, width, height);
    } else if Within(s, rule, sx, sy, x, y - 1, e - 1, width, height) {
      Reached(s, rule, sx, sy, level, lo, x, y - 1, e - 1, width, height);
      FromNeighbour(s, rule, sx, sy, level, lo, x, y, x, y - 1, e - 1, width, height);
    } else if Within(s, rule, sx, sy, x - 1, y, e - 1, width, height) {
      Reached(s, rule, sx, sy, level, lo, x - 1, y, e - 1, width, height);
      FromNeighbour(s, rule, sx, sy, level, lo, x, y, x - 1, y, e - 1, width, height);
    } else if Within(s, rule, sx, sy, x, y + 1, e - 1, width, height) {
      Reached(s, rule, sx, sy, level, lo, x, y + 1, e - 1, width, height);
      FromNeighbour(s, rule, sx, sy, level, lo, x, y, x, y + 1, e - 1, width, height);
    } else {
      Reached(s, rule, sx, sy, level, lo, x + 1, y, e - 1, width, height);
      FromNeighbour(s, rule, sx, sy, level, lo, x, y, x + 1, y, e - 1, width, height);
    }
  }

  /** With the queue empty, everything reachable is marked. */
  lemma Exhausted(s: seq<Code>, rule: Rule, sx: int, sy: int, visited: seq<bool>, level: seq<int>, lo: int, width: int, height: int)
    requires Searching(s, rule, sx, sy, visited, level, [], lo, -1, -1, width, height)
    ensures forall x, y, n: nat :: Within(s, rule, sx, sy, x, y, n, width, height) ==> LevelAt(level, x, y, width, height) >= 0
  {
    forall x, y, n: nat | Within(s, rule, sx, sy, x, y, n, width, height)
      ensures LevelAt(level, x, y, width, height) >= 0
    {
      assert Searching(s, rule, sx, sy, visited, level, [], n, -1, -1, width, height);
      SettledBelow(s, rule, sx, sy, visited, level, [], n, -1, -1, width, height);
      Reached(s, rule, sx, sy, level, n, x, y, n, width, height);
    }
  }

  // ---------------------------------------------------------------------------
  // The search steps

  /** Positions not yet marked. */
  function Unseen(v: seq<bool>): nat
  {
    if |v| == 0 then 0 else Unseen(v[..|v| - 1]) + (if v[|v| - 1] then 0 else 1)
  }

  /** Marking an unmarked position leaves one fewer unmarked. */
  lemma {:induction false} UnseenMark(v: seq<bool>, i: int)
    requires 0 <= i < |v| && !v[i]
    ensures Unseen(v[i := true]) == Unseen(v) - 1
    decreases |v|
  {
    var v' := v[i := true];
    if i < |v| - 1 {
      assert v'[..|v| - 1] == v[..|v| - 1][i := true];
      UnseenMark(v[..|v| - 1], i);
    } else {
      assert v'[..|v| - 1] == v[..|v| - 1];
    }
  }

  /** Levels are only ever added: a marked position keeps its level. */
  ghost predicate Grows(level: seq<int>, level': seq<int>, width: int, height: int)
  {
    forall x, y :: LevelAt(level, x, y, width, height) >= 0 ==> LevelAt(level', x, y, width, height) == LevelAt(level, x, y, width, height)
  }

  /** The search before the first dequeue: only the start is marked, at level 0, and queued. */
  lemma StartSearch(s: seq<Code>, rule: Rule, sx: int, sy: int, visited: seq<bool>, level: seq<int>, width: int, height: int)
    requires |s| == Area(width, height) && InBounds(sx, sy, width, height) && 0 <= Idx(sx, sy, width) < Area(width, height)
    requires visited == seq(Area(width, height), _ => false)[Idx(sx, sy, width) := true]
    requires level == seq(Area(width, height), _ => -1)[Idx(sx, sy, width) := 0]
    ensures Searching(s, rule, sx, sy, visited, level, [Entry(sx, sy, 0)], 0, -1, -1, width, height)
    ensures forall x, y :: LevelAt(level, x, y, width, height) >= 0 ==> x == sx && y == sy
  {
    forall x, y | LevelAt(level, x, y, width, height) >= 0
      ensures x == sx && y == sy
    {
      IdxRange(x, y, width, height);
      if Idx(x, y, width) == Idx(sx, sy, width) {
        IdxInjective(x, y, sx, sy, width);
      }
    }
    assert [Entry(sx, sy, 0)][0] == Entry(sx, sy, 0);
    assert Queued([Entry(sx, sy, 0)], sx, sy);
  }

  /** Taking the head off the queue makes it the pending position and its level the new lo. */
  lemma Shift(s: seq<Code>, rule: Rule, sx: int, sy: int, visited: seq<bool>, level: seq<int>, q: seq<Entry>, lo: int, width: int, height: int)
    requires Searching(s, rule, sx, sy, visited, level, q, lo, -1, -1, width, height) && |q| > 0
    ensures Searching(s, rule, sx, sy, visited, level, q[1..], q[0].dist, q[0].x, q[0].y, width, height)
    ensures LevelAt(level, q[0].x, q[0].y, width, height) == q[0].dist >= lo
  {
    forall x, y | LevelAt(level, x, y, width, height) >= 0 && !Queued(q[1..], x, y) && !(x == q[0].x && y == q[0].y)
      ensures Expanded(s, rule, level, x, y, width, height)
    {
      forall k | 0 <= k < |q|
        ensures !(q[k].x == x && q[k].y == y)
      {
        if k > 0 {
          assert q[1..][k - 1] == q[k];
        }
      }
    }
  }

  /** An unmarked enterable neighbour of the pending position at level d is exactly d + 1
      steps away. */
  lemma VisitShortest(s: seq<Code>, rule: Rule, sx: int, sy: int, visited: seq<bool>, level: seq<int>, q: seq<Entry>,
                      d: int, x: int, y: int, nx: int, ny: int, width: int, height: int)
    requires Searching(s, rule, sx, sy, visited, level, q, d, x, y, width, height)
    requires LevelAt(level, x, y, width, height) == d
    requires (nx == x && (ny == y + 1 || ny == y - 1)) || (ny == y && (nx == x + 1 || nx == x - 1))
    requires Enterable(s, rule, nx, ny, width, height) && LevelAt(level, nx, ny, width, height) < 0
    ensures Shortest(s, rule, sx, sy, nx, ny, d + 1, width, height)
  {
    assert Within(s, rule, sx, sy, x, y, d, width, height);
    if Within(s, rule, sx, sy, nx, ny, d, width, height) {
      SettledBelow(s, rule, sx, sy, visited, level, q, d, x, y, width, height);
      Reached(s, rule, sx, sy, level, d, nx, ny, d, width, height);
    }
  }

  /** Adding a level keeps every expanded position expanded. */
  lemma ExpandedGrows(s: seq<Code>, rule: Rule, level: seq<int>, level': seq<int>, a: int, b: int, width: int, height: int)
    requires Grows(level, level', width, height) && Expanded(s, rule, level, a, b, width, height)
    ensures Expanded(s, rule, level', a, b, width, height)
  {
    assert LevelAt(level, a, b + 1, width, height) >= 0 ==> LevelAt(level', a, b + 1, width, height) >= 0;
    assert LevelAt(level, a + 1, b, width, height) >= 0 ==> LevelAt(level', a + 1, b, width, height) >= 0;
    assert LevelAt(level, a, b - 1, width, height) >= 0 ==> LevelAt(level', a, b - 1, width, height) >= 0;
    assert LevelAt(level, a - 1, b, width, height) >= 0 ==> LevelAt(level', a - 1, b, width, height) >= 0;
  }

  /** Marking (nx, ny) and queueing it keeps the expanded positions expanded. */
  lemma VisitClosed(s: seq<Code>, rule: Rule, level: seq<int>, level': seq<int>, q: seq<Entry>, x: int, y: int,
                    nx: int, ny: int, d: int, width: int, height: int)
    requires Closed(s, rule, level, q, x, y, width, height) && Grows(level, level', width, height)
    requires forall a, b :: LevelAt(level', a, b, width, height) >= 0 ==> LevelAt(level, a, b, width, height) >= 0 || (a == nx && b == ny)
    ensures Closed(s, rule, level', q + [Entry(nx, ny, d)], x, y, width, height)
  {
    var q' := q + [Entry(nx, ny, d)];
    forall a, b | LevelAt(level', a, b, width, height) >= 0 && !Queued(q', a, b) && !(a == x && b == y)
      ensures Expanded(s, rule, level', a, b, width, height)
    {
      assert !(a == nx && b == ny) by {
        assert q'[|q|] == Entry(nx, ny, d);
      }
      forall k | 0 <= k < |q|
        ensures !(q[k].x == a && q[k].y == b)
      {
        assert q'[k] == q[k];
      }
      ExpandedGrows(s, rule, level, level', a, b, width, height);
    }
  }

  /** Marking an unmarked enterable neighbour (nx, ny) of the pending position at level d + 1
      and queueing it keeps the search invariant. */
  lemma VisitStep(s: seq<Code>, rule: Rule, sx: int, sy: int, visited: seq<bool>, level: seq<int>, q: seq<Entry>,
                  d: int, x: int, y: int, nx: int, ny: int, width: int, height: int)
    requires Searching(s, rule, sx, sy, visited, level, q, d, x, y, width, height)
    requires LevelAt(level, x, y, width, height) == d
    requires (nx == x && (ny == y + 1 || ny == y - 1)) || (ny == y && (nx == x + 1 || nx == x - 1))
    requires Enterable(s, rule, nx, ny, width, height) && LevelAt(level, nx, ny, width, height) < 0
    ensures 0 <= Idx(nx, ny, width) < |level|
    ensures Searching(s, rule, sx, sy, visited[Idx(nx, ny, width) := true], level[Idx(nx, ny, width) := d + 1],
                      q + [Entry(nx, ny, d + 1)], d, x, y, width, height)
    ensures Grows(level, level[Idx(nx, ny, width) := d + 1], width, height)
  {
    assert InBounds(nx, ny, width, height);
    LevelUpdate(level, nx, ny, d + 1, width, height);
    var i := Idx(nx, ny, width);
    var level' := level[i := d + 1];
    VisitShortest(s, rule, sx, sy, visited, level, q, d, x, y, nx, ny, width, height);
    forall a, b | LevelAt(level', a, b, width, height) >= 0
      ensures Shortest(s, rule, sx, sy, a, b, LevelAt(level', a, b, width, height), width, height)
    {
      if !(a == nx && b == ny) {
        assert LevelAt(level', a, b, width, height) == LevelAt(level, a, b, width, height);
      }
    }
    assert Ordered(level', q + [Entry(nx, ny, d + 1)], d, width, height);
    VisitClosed(s, rule, level, level', q, x, y, nx, ny, d + 1, width, height);
  }

  lemma QueuedExtend(q: seq<Entry>, q': seq<Entry>, x: int, y: int)
    requires Queued(q, x, y) && |q| <= |q'| && q'[..|q|] == q
    ensures Queued(q', x, y)
  {
    var k :| 0 <= k < |q| && q[k].x == x && q[k].y == y;
    assert q'[k] == q[k];
  }

  lemma QueuedTail(q: seq<Entry>, x: int, y: int)
    requires Queued(q, x, y) && !(q[0].x == x && q[0].y == y)
    ensures Queued(q[1..], x, y)
  {
    var k :| 0 <= k < |q| && q[k].x == x && q[k].y == y;
    assert q[1..][k - 1] == q[k];
  }

  /** The test of one neighbour (nx, ny) in both searches: when it lies in the search's bounds,
      holds an enterable code and is not yet marked, it is marked and queued one step further
      than the pending position. Either way it is marked afterwards if it can be entered. */
  method Visit(maze: seq<Code>, rule: Rule, visited: array<bool>, ghost level: seq<int>, queue: seq<Entry>, ghost sx: int, ghost sy: int,
               x: int, y: int, d: int, nx: int, ny: int, width: int, height: int)
    returns (ghost level': seq<int>, queue': seq<Entry>)
    requires Searching(maze, rule, sx, sy, visited[..], level, queue, d, x, y, width, height)
    requires LevelAt(level, x, y, width, height) == d
    requires (nx == x && (ny == y + 1 || ny == y - 1)) || (ny == y && (nx == x + 1 || nx == x - 1))
    modifies visited
    ensures Searching(maze, rule, sx, sy, visited[..], level', queue', d, x, y, width, height)
    ensures Grows(level, level', width, height) && Seen(maze, rule, level', nx, ny, width, height)
    ensures |queue| <= |queue'| && queue'[..|queue|] == queue
    ensures forall a, b :: LevelAt(level', a, b, width, height) >= 0 && LevelAt(level, a, b, width, height) < 0 ==> Queued(queue', a, b)
    ensures Unseen(visited[..]) + |queue'| == Unseen(old(visited[..])) + |queue|
  {
    level', queue' := level, queue;
    var inBounds := match rule
      case Interior => 1 <= nx < width - 1 && 1 <= ny < height - 1
      case Walkable => 0 <= nx < width && 0 <= ny < height;
    if inBounds {
      IdxRange(nx, ny, width, height);
      var i := Idx(nx, ny, width);
      var open := match rule
        case Interior => maze[i] == W
        case Walkable => maze[i] == W || maze[i] == G;
      if open && !visited[i] {
        ghost var v := visited[..];
        VisitStep(maze, rule, sx, sy, v, level, queue, d, x, y, nx, ny, width, height);
        UnseenMark(v, i);
        LevelUpdate(level, nx, ny, d + 1, width, height);
        visited[i] := true;
        level' := level[i := d + 1];
        queue' := queue + [Entry(nx, ny, d + 1)];
        assert visited[..] == v[i := true];
        assert queue'[|queue|] == Entry(nx, ny, d + 1);
        assert Queued(queue', nx, ny);
      }
    }
  }

  lemma SeenGrows(s: seq<Code>, rule: Rule, level: seq<int>, level': seq<int>, x: int, y: int, width: int, height: int)
    requires Grows(level, level', width, height)
    ensures Seen(s, rule, level, x, y, width, height) ==> Seen(s, rule, level', x, y, width, height)
  {
    assert LevelAt(level, x, y, width, height) >= 0 ==> LevelAt(level', x, y, width, height) >= 0;
  }

  /** The neighbours of (x, y) in the first i directions are marked if they can be entered. */
  ghost predicate SeenFirst(s: seq<Code>, rule: Rule, level: seq<int>, x: int, y: int, i: int, width: int, height: int)
  {
    forall j :: 0 <= j < i && j < |Directions| ==>
      Seen(s, rule, level, x + Directions[j].0, y + Directions[j].1, width, height)
  }

  /** Trying direction i adds its neighbour to the marked ones and keeps the earlier ones. */
  lemma SeenFirstStep(s: seq<Code>, rule: Rule, level: seq<int>, level': seq<int>, x: int, y: int, i: int, width: int, height: int)
    requires 0 <= i < |Directions| && Grows(level, level', width, height)
    requires SeenFirst(s, rule, level, x, y, i, width, height)
    requires Seen(s, rule, level', x + Directions[i].0, y + Directions[i].1, width, height)
    ensures SeenFirst(s, rule, level', x, y, i + 1, width, height)
  {
    forall j | 0 <= j < i
      ensures Seen(s, rule, level', x + Directions[j].0, y + Directions[j].1, width, height)
    {
      SeenGrows(s, rule, level, level', x + Directions[j].0, y + Directions[j].1, width, height);
    }
  }

  /** All four directions tried: the position is expanded. */
  lemma SeenAll(s: seq<Code>, rule: Rule, level: seq<int>, x: int, y: int, width: int, height: int)
    requires SeenFirst(s, rule, level, x, y, |Directions|, width, height)
    ensures Expanded(s, rule, level, x, y, width, height)
  {
    assert Directions[0] == (0, 1) && Directions[1] == (1, 0) && Directions[2] == (0, -1) && Directions[3] == (-1, 0);
  }

  /** Once every direction has been tried, the pending position is expanded and no longer
      pending. */
  lemma Settle(s: seq<Code>, rule: Rule, level: seq<int>, q: seq<Entry>, x: int, y: int, width: int, height: int)
    requires Closed(s, rule, level, q, x, y, width, height) && Expanded(s, rule, level, x, y, width, height)
    ensures Closed(s, rule, level, q, -1, -1, width, height)
  {
  }

  /** The state of the neighbour loop after i directions, starting from marks v0, levels
      level0 and queue queue0: the search invariant with (x, y) pending, levels only added,
      old entries kept at the front, every new mark queued, one queue entry per new mark, and
      the neighbours in the first i directions marked if they can be entered. */
  ghost predicate Trying(maze: seq<Code>, rule: Rule, sx: int, sy: int, v0: seq<bool>, level0: seq<int>, queue0: seq<Entry>,
                         v: seq<bool>, level: seq<int>, queue: seq<Entry>, d: int, x: int, y: int, i: int, width: int, height: int)
  {
    && Searching(maze, rule, sx, sy, v, level, queue, d, x, y, width, height)
    && Grows(level0, level, width, height) && LevelAt(level, x, y, width, height) == d
    && |queue0| <= |queue| && queue[..|queue0|] == queue0
    && (forall a, b :: LevelAt(level, a, b, width, height) >= 0 && LevelAt(level0, a, b, width, height) < 0 ==> Queued(queue, a, b))
    && Unseen(v) + |queue| == Unseen(v0) + |queue0|
    && SeenFirst(maze, rule, level, x, y, i, width, height)
  }

  /** One pass of the neighbour loop: tries direction i. */
  method TryDirection(maze: seq<Code>, rule: Rule, visited: array<bool>, ghost v0: seq<bool>, ghost level0: seq<int>, ghost queue0: seq<Entry>,
                      ghost level: seq<int>, queue: seq<Entry>, ghost sx: int, ghost sy: int, x: int, y: int, d: int, i: int, width: int, height: int)
    returns (ghost level': seq<int>, queue': seq<Entry>)
    requires 0 <= i < |Directions|
    requires Trying(maze, rule, sx, sy, v0, level0, queue0, visited[..], level, queue, d, x, y, i, width, height)
    modifies visited
    ensures Trying(maze, rule, sx, sy, v0, level0, queue0, visited[..], level', queue', d, x, y, i + 1, width, height)
  {
    var (dx, dy) := Directions[i];
    level', queue' := Visit(maze, rule, visited, level, queue, sx, sy, x, y, d, x + dx, y + dy, width, height);
    forall a, b | LevelAt(level', a, b, width, height) >= 0 && LevelAt(level0, a, b, width, height) < 0
      ensures Queued(queue', a, b)
    {
      if LevelAt(level, a, b, width, height) >= 0 {
        QueuedExtend(queue, queue', a, b);
      }
    }
    SeenFirstStep(maze, rule, level, level', x, y, i, width, height);
  }

  /** The neighbour loop of both searches, over the four directions in the sources' order:
      afterwards the position (x, y) at level d is expanded, and every newly marked position
      is queued behind the old entries. */
  method Expand(maze: seq<Code>, rule: Rule, visited: array<bool>, ghost level: seq<int>, queue: seq<Entry>, ghost sx: int, ghost sy: int,
                x: int, y: int, d: int, width: int, height: int)
    returns (ghost level': seq<int>, queue': seq<Entry>)
    requires Searching(maze, rule, sx, sy, visited[..], level, queue, d, x, y, width, height)
    requires LevelAt(level, x, y, width, height) == d
    modifies visited
    ensures Searching(maze, rule, sx, sy, visited[..], level', queue', d, -1, -1, width, height)
    ensures Grows(level, level', width, height)
    ensures |queue| <= |queue'| && queue'[..|queue|] == queue
    ensures forall a, b :: LevelAt(level', a, b, width, height) >= 0 && LevelAt(level, a, b, width, height) < 0 ==> Queued(queue', a, b)
    ensures Unseen(visited[..]) + |queue'| == Unseen(old(visited[..])) + |queue|
  {
    level', queue' := level, queue;
    ghost var v0 := visited[..];
    assert queue[..|queue|] == queue;
    for i := 0 to |Directions|
      invariant Trying(maze, rule, sx, sy, v0, level, queue, visited[..], level', queue', d, x, y, i, width, height)
    {
      level', queue' := TryDirection(maze, rule, visited, v0, level, queue, level', queue', sx, sy, x, y, d, i, width, height);
    }
    SeenAll(maze, rule, level', x, y, width, height);
    Settle(maze, rule, level', queue', x, y, width, height);
  }

  /** scripts/gen.js findFarthest (and main.py find_farthest): a breadth-first search from the
      start over passages strictly inside the border. The returned position is at shortest
      distance `far` from the start, and nothing reachable is farther; when the start has no
      enterable neighbour that is the start itself (Alone). */
  method FindFarthest(maze: seq<Code>, sx: int, sy: int, width: int, height: int) returns (fx: int, fy: int, ghost far: nat)
    requires |maze| == Area(width, height) && InBounds(sx, sy, width, height)
    ensures Shortest(maze, Interior, sx, sy, fx, fy, far, width, height)
    ensures forall x, y, n: nat :: Within(maze, Interior, sx, sy, x, y, n, width, height) ==> Within(maze, Interior, sx, sy, x, y, far, width, height)
  {
    IdxRange(sx, sy, width, height);
    var visited := new bool[Area(width, height)](_ => false);
    visited[Idx(sx, sy, width)] := true;
    ghost var level := seq(Area(width, height), _ => -1)[Idx(sx, sy, width) := 0];
    StartSearch(maze, Interior, sx, sy, visited[..], level, width, height);
    var queue := [Entry(sx, sy, 0)];
    fx, fy := sx, sy;
    var maxDist := 0;
    while |queue| > 0
      invariant Searching(maze, Interior, sx, sy, visited[..], level, queue, maxDist, -1, -1, width, height)
      invariant LevelAt(level, fx, fy, width, height) == maxDist
      invariant forall x, y :: LevelAt(level, x, y, width, height) >= 0 && !Queued(queue, x, y) ==> LevelAt(level, x, y, width, height) <= maxDist
      decreases Unseen(visited[..]), |queue|
    {
      var entry := queue[0];
      ghost var q := queue;
      queue := queue[1..];
      Shift(maze, Interior, sx, sy, visited[..], level, q, maxDist, width, height);
      if entry.dist > maxDist {
        maxDist := entry.dist;
        fx, fy := entry.x, entry.y;
      }
      ghost var before := level;
      level, queue := Expand(maze, Interior, visited, level, queue, sx, sy, entry.x, entry.y, entry.dist, width, height);
      forall x, y | LevelAt(level, x, y, width, height) >= 0 && !Queued(queue, x, y)
        ensures LevelAt(level, x, y, width, height) <= maxDist
      {
        if LevelAt(before, x, y, width, height) >= 0 && !(x == entry.x && y == entry.y) {
          if Queued(q, x, y) {
            QueuedTail(q, x, y);
            QueuedExtend(q[1..], queue, x, y);
          }
        }
      }
    }
    Exhausted(maze, Interior, sx, sy, visited[..], level, maxDist, width, height);
    far := maxDist;
    forall x, y, n: nat | Within(maze, Interior, sx, sy, x, y, n, width, height)
      ensures Within(maze, Interior, sx, sy, x, y, far, width, height)
    {
      WithinMono(maze, Interior, sx, sy, x, y, LevelAt(level, x, y, width, height), far, width, height);
    }
  }

  /** scripts/gen.js checkSolvability: a breadth-first search from the start over passages
      and the goal, anywhere in bounds, that stops when it takes the goal off the queue. It
      answers solvable exactly when the goal is reachable, with the shortest distance to it;
      otherwise the length is 0. */
  method CheckSolvability(maze: seq<Code>, sx: int, sy: int, gx: int, gy: int, width: int, height: int)
    returns (solvable: bool, pathLength: int)
    requires |maze| == Area(width, height) && InBounds(sx, sy, width, height)
    ensures solvable ==> pathLength >= 0 && Shortest(maze, Walkable, sx, sy, gx, gy, pathLength, width, height)
    ensures !solvable ==> pathLength == 0 && forall n: nat :: !Within(maze, Walkable, sx, sy, gx, gy, n, width, height)
  {
    IdxRange(sx, sy, width, height);
    var visited := new bool[Area(width, height)](_ => false);
    visited[Idx(sx, sy, width)] := true;
    ghost var level := seq(Area(width, height), _ => -1)[Idx(sx, sy, width) := 0];
    StartSearch(maze, Walkable, sx, sy, visited[..], level, width, height);
    var queue := [Entry(sx, sy, 0)];
    assert queue[0] == Entry(sx, sy, 0);
    ghost var lo := 0;
    while |queue| > 0
      invariant Searching(maze, Walkable, sx, sy, visited[..], level, queue, lo, -1, -1, width, height)
      invariant LevelAt(level, gx, gy, width, height) >= 0 ==> Queued(queue, gx, gy)
      decreases Unseen(visited[..]), |queue|
    {
      var entry := queue[0];
      ghost var q := queue;
      queue := queue[1..];
      Shift(maze, Walkable, sx, sy, visited[..], level, q, lo, width, height);
      if entry.x == gx && entry.y == gy {
        return true, entry.dist;
      }
      lo := entry.dist;
      ghost var before := level;
      level, queue := Expand(maze, Walkable, visited, level, queue, sx, sy, entry.x, entry.y, entry.dist, width, height);
      if LevelAt(before, gx, gy, width, height) >= 0 {
        QueuedTail(q, gx, gy);
        QueuedExtend(q[1..], queue, gx, gy);
      }
    }
    Exhausted(maze, Walkable, sx, sy, visited[..], level, lo, width, height);
    return false, 0;
  }
}
