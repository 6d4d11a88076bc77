/** Reachability over passages, the moves findFarthest makes: unit steps onto passages strictly
    inside the border. A grid is connected from a start when every such passage can be reached
    from it; for the lattice generators that is the promise that the maze has no isolated
    region. */
module Reach {
  import opened Grid
  import opened Search

  /** (x, y) can be reached from (sx, sy) in some number of steps. */
  ghost predicate Reached(s: seq<Code>, sx: int, sy: int, x: int, y: int, width: int, height: int)
  {
    exists n: nat :: Within(s, Interior, sx, sy, x, y, n, width, height)
  }

  /** Every passage strictly inside the border can be reached from (sx, sy). */
  ghost predicate Connected(s: seq<Code>, sx: int, sy: int, width: int, height: int)
  {
    forall x, y :: Enterable(s, Interior, x, y, width, height) ==> Reached(s, sx, sy, x, y, width, height)
  }

  /** Every passage strictly inside the border can be reached from every other: the passages
      form one region. */
  ghost predicate OneRegion(s: seq<Code>, width: int, height: int)
  {
    forall x, y :: Enterable(s, Interior, x, y, width, height) ==> Connected(s, x, y, width, height)
  }

  lemma ReachedStart(s: seq<Code>, sx: int, sy: int, width: int, height: int)
    ensures Reached(s, sx, sy, sx, sy, width, height)
  {
    assert Within(s, Interior, sx, sy, sx, sy, 0, width, height);
  }

  /** One more unit step onto a passage extends a reach. */
  lemma ReachedStep(s: seq<Code>, sx: int, sy: int, x: int, y: int, nx: int, ny: int, width: int, height: int)
    requires Reached(s, sx, sy, x, y, width, height)
    requires UnitStep(x, y, nx, ny) && Enterable(s, Interior, nx, ny, width, height)
    ensures Reached(s, sx, sy, nx, ny, width, height)
  {
    var n: nat :| Within(s, Interior, sx, sy, x, y, n, width, height);
    assert Within(s, Interior, sx, sy, nx, ny, n + 1, width, height);
  }

  /** Reaches carry over to a grid in which every passage of s is still a passage. */
  lemma ReachedWiden(s: seq<Code>, t: seq<Code>, sx: int, sy: int, x: int, y: int, width: int, height: int)
    requires forall a, b :: Enterable(s, Interior, a, b, width, height) ==> Enterable(t, Interior, a, b, width, height)
    requires Reached(s, sx, sy, x, y, width, height)
    ensures Reached(t, sx, sy, x, y, width, height)
  {
    var n: nat :| Within(s, Interior, sx, sy, x, y, n, width, height);
    WithinWiden(s, Interior, t, Interior, sx, sy, x, y, n, width, height);
  }

  /** Between two passages a reach can be walked backwards. */
  lemma ReachedReverse(s: seq<Code>, ax: int, ay: int, tx: int, ty: int, width: int, height: int)
    requires Reached(s, ax, ay, tx, ty, width, height) && Enterable(s, Interior, ax, ay, width, height)
    ensures Reached(s, tx, ty, ax, ay, width, height)
  {
    var n: nat :| Within(s, Interior, ax, ay, tx, ty, n, width, height);
    var p := WithinRoute(s, Interior, ax, ay, tx, ty, n, width, height);
    var r := seq(|p|, i requires 0 <= i < |p| => p[|p| - 1 - i]);
    forall i | 0 < i < |r|
      ensures UnitStep(r[i - 1].0, r[i - 1].1, r[i].0, r[i].1) && Enterable(s, Interior, r[i].0, r[i].1, width, height)
    {
      var j := |p| - 1 - i;
      assert r[i] == p[j] && r[i - 1] == p[j + 1];
      assert UnitStep(p[j].0, p[j].1, p[j + 1].0, p[j + 1].1);
    }
    assert Route(s, Interior, r, tx, ty, width, height);
    RouteWithin(s, Interior, r, tx, ty, |r| - 1, width, height);
    assert r[|r| - 1] == p[0];
  }

  /** A reach from a to b followed by a reach from b to c is a reach from a to c. */
  lemma ReachedTrans(s: seq<Code>, ax: int, ay: int, tx: int, ty: int, cx: int, cy: int, width: int, height: int)
    requires Reached(s, ax, ay, tx, ty, width, height) && Reached(s, tx, ty, cx, cy, width, height)
    ensures Reached(s, ax, ay, cx, cy, width, height)
  {
    var n: nat :| Within(s, Interior, ax, ay, tx, ty, n, width, height);
    var m: nat :| Within(s, Interior, tx, ty, cx, cy, m, width, height);
    var p := WithinRoute(s, Interior, ax, ay, tx, ty, n, width, height);
    var q := WithinRoute(s, Interior, tx, ty, cx, cy, m, width, height);
    var r := p + q[1..];
    forall i | 0 < i < |r|
      ensures UnitStep(r[i - 1].0, r[i - 1].1, r[i].0, r[i].1) && Enterable(s, Interior, r[i].0, r[i].1, width, height)
    {
      if i < |p| {
        assert r[i] == p[i] && r[i - 1] == p[i - 1];
      } else {
        var j := i - |p| + 1;
        assert r[i] == q[j];
        assert r[i - 1] == q[j - 1];
      }
    }
    assert Route(s, Interior, r, ax, ay, width, height);
    RouteWithin(s, Interior, r, ax, ay, |r| - 1, width, height);
    assert r[|r| - 1] == (cx, cy);
  }

  /** A grid connected from one passage is connected from any other passage. */
  lemma ConnectedMove(s: seq<Code>, ax: int, ay: int, tx: int, ty: int, width: int, height: int)
    requires Connected(s, ax, ay, width, height)
    requires Enterable(s, Interior, ax, ay, width, height) && Enterable(s, Interior, tx, ty, width, height)
    ensures Connected(s, tx, ty, width, height)
  {
    ReachedReverse(s, ax, ay, tx, ty, width, height);
    forall x, y | Enterable(s, Interior, x, y, width, height)
      ensures Reached(s, tx, ty, x, y, width, height)
    {
      ReachedTrans(s, tx, ty, ax, ay, x, y, width, height);
    }
  }

  /** A grid connected from a passage has its passages in one region. */
  lemma ConnectedRegion(s: seq<Code>, sx: int, sy: int, width: int, height: int)
    requires Connected(s, sx, sy, width, height) && Enterable(s, Interior, sx, sy, width, height)
    ensures OneRegion(s, width, height)
  {
    forall x, y | Enterable(s, Interior, x, y, width, height)
      ensures Connected(s, x, y, width, height)
    {
      ConnectedMove(s, sx, sy, x, y, width, height);
    }
  }

  /** Opening one cell of an all-wall grid leaves a grid connected from that cell. */
  lemma ConnectedStart(s: seq<Code>, s': seq<Code>, sx: int, sy: int, width: int, height: int)
    requires |s| == Area(width, height) && AllWall(s)
    requires CarvedPair(s, s', sx, sy, sx, sy, width, height)
    ensures Connected(s', sx, sy, width, height)
  {
    forall x, y | Enterable(s', Interior, x, y, width, height)
      ensures Reached(s', sx, sy, x, y, width, height)
    {
      assert InBounds(x, y, width, height);
      assert x == sx && y == sy;
      ReachedStart(s', sx, sy, width, height);
    }
  }

  /** Carving only adds passages, so every passage of s stays enterable. */
  lemma CarvedWidens(s: seq<Code>, s': seq<Code>, mx: int, my: int, nx: int, ny: int, width: int, height: int)
    requires CarvedPair(s, s', mx, my, nx, ny, width, height)
    ensures forall a, b :: Enterable(s, Interior, a, b, width, height) ==> Enterable(s', Interior, a, b, width, height)
  {
    forall a, b | Enterable(s, Interior, a, b, width, height)
      ensures Enterable(s', Interior, a, b, width, height)
    {
      assert InBounds(a, b, width, height);
    }
  }

  /** Opening the link and the cell two steps from a passage cell (x, y) in direction (dx, dy)
      keeps the grid connected: the new positions are reached through (x, y). */
  lemma CarveFrom(s: seq<Code>, s': seq<Code>, sx: int, sy: int, x: int, y: int, dx: int, dy: int, width: int, height: int)
    requires Connected(s, sx, sy, width, height)
    requires IsCell(x, y, width, height) && At(s, x, y, width) == W && (dx, dy) in Steps
    requires 1 <= x + dx < width - 1 && 1 <= y + dy < height - 1
    requires CarvedPair(s, s', x + dx / 2, y + dy / 2, x + dx, y + dy, width, height)
    ensures Connected(s', sx, sy, width, height)
  {
    var (mx, my, nx, ny) := (x + dx / 2, y + dy / 2, x + dx, y + dy);
    CarvedWidens(s, s', mx, my, nx, ny, width, height);
    assert Enterable(s, Interior, x, y, width, height);
    ReachedWiden(s, s', sx, sy, x, y, width, height);
    assert InBounds(mx, my, width, height) && InBounds(nx, ny, width, height);
    ReachedStep(s', sx, sy, x, y, mx, my, width, height);
    ReachedStep(s', sx, sy, mx, my, nx, ny, width, height);
    forall a, b | Enterable(s', Interior, a, b, width, height)
      ensures Reached(s', sx, sy, a, b, width, height)
    {
      if !((a == mx && b == my) || (a == nx && b == ny)) {
        assert InBounds(a, b, width, height);
        ReachedWiden(s, s', sx, sy, a, b, width, height);
      }
    }
  }

  /** A link inside the border lies one unit step from a carvable cell. */
  lemma LinkNextToCell(x: int, y: int, width: int, height: int) returns (cx: int, cy: int)
    requires ValidDims(width, height) && IsLink(x, y, width, height)
    ensures IsCell(cx, cy, width, height) && UnitStep(cx, cy, x, y)
  {
    OddNext(x - 1);
    OddNext(y - 1);
    if Odd(x) {
      cx, cy := x, y - 1;
    } else {
      cx, cy := x - 1, y;
    }
  }

  /** When every carvable cell is a passage reached from (sx, sy) and only the lattice is
      carved, the grid is connected from (sx, sy): every open link sits next to a reached
      cell. */
  lemma CellsConnect(s: seq<Code>, sx: int, sy: int, width: int, height: int)
    requires ValidDims(width, height) && CarvedOnly(s, width, height)
    requires forall x, y :: IsCell(x, y, width, height) ==> At(s, x, y, width) == W && Reached(s, sx, sy, x, y, width, height)
    ensures Connected(s, sx, sy, width, height)
  {
    forall x, y | Enterable(s, Interior, x, y, width, height)
      ensures Reached(s, sx, sy, x, y, width, height)
    {
      assert InBounds(x, y, width, height);
      if !IsCell(x, y, width, height) {
        var cx, cy := LinkNextToCell(x, y, width, height);
        ReachedStep(s, sx, sy, cx, cy, x, y, width, height);
      }
    }
  }
}
