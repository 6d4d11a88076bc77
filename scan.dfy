/** Facts shared by the generators that visit the carvable cells once, row by row (binary tree
    and sidewinder): each cell is opened when the scan reaches it, and each link is opened by
    the cell that owns it, the cell west of it on a cell row or the cell below it between rows. */
module Scan {
  import opened Grid

  /** Link (p, q) belongs to a cell before (x, y) in scan order. */
  predicate OwnedBefore(p: int, q: int, x: int, y: int)
  {
    if Odd(q) then Before(p - 1, q, x, y) else Before(p, q + 1, x, y)
  }

  /** The grid of a row scan standing at cell (x, y): the footprint, the cells before (x, y) are
      passages and the rest walls, and every open link belongs to a cell before (x, y). */
  ghost predicate Scanned(s: seq<Code>, x: int, y: int, width: int, height: int)
  {
    && CarvedOnly(s, width, height)
    && (forall a, b :: IsCell(a, b, width, height) ==> (At(s, a, b, width) == W <==> Before(a, b, x, y)))
    && (forall a, b :: IsLink(a, b, width, height) && At(s, a, b, width) == W ==> OwnedBefore(a, b, x, y))
  }

  /** The owner of a link is a carvable cell: odd coordinates inside the border. */
  lemma OwnerIsCell(p: int, q: int, width: int, height: int)
    requires ValidDims(width, height) && IsLink(p, q, width, height)
    ensures Odd(q) ==> IsCell(p - 1, q, width, height)
    ensures !Odd(q) ==> IsCell(p, q + 1, width, height)
  {
    OddNext(p - 1);
    OddNext(q);
    OddMod(q);
    OddMod(p);
    OddMod(width);
    OddMod(height);
  }

  /** An all-wall grid is a scan standing at the first cell, with nothing counted. */
  lemma ScanStart(s: seq<Code>, width: int, height: int)
    requires ValidDims(width, height) && |s| == Area(width, height) && AllWall(s)
    ensures Scanned(s, 1, 1, width, height)
    ensures Carved(s, width, height) == 0 && GridCount(s, Links, width, height, height) == 0
  {
    AllWallCarvedOnly(s, width, height);
    AllWallCount(s, Cells, width, height, height);
    AllWallCount(s, Links, width, height, height);
    forall a, b | Carvable(a, b, width, height)
      ensures At(s, a, b, width) == B
    {
      IdxRange(a, b, width, height);
    }
  }

  /** Opening the cell the scan stands at moves the scan on by one cell and adds one passage
      cell. */
  lemma OpenCell(s: seq<Code>, s': seq<Code>, x: int, y: int, width: int, height: int)
    requires Scanned(s, x, y, width, height) && IsCell(x, y, width, height)
    requires CarvedPair(s, s', x, y, x, y, width, height)
    ensures Scanned(s', x + 2, y, width, height)
    ensures Carved(s', width, height) == Carved(s, width, height) + 1
    ensures GridCount(s', Links, width, height, height) == GridCount(s, Links, width, height, height)
  {
    assert InBounds(x, y, width, height) && At(s, x, y, width) == B;
    CellOpened(s, s', x, y, x, y, width, height);
    GridCountPair(s, s', Links, x, y, x, y, width, height, height);
    assert !Odd(x + 1) by {
      OddNext(x);
    }
    forall a, b | IsCell(a, b, width, height)
      ensures At(s', a, b, width) == W <==> Before(a, b, x + 2, y)
    {
      assert InBounds(a, b, width, height);
    }
    forall a, b | IsLink(a, b, width, height) && At(s', a, b, width) == W
      ensures OwnedBefore(a, b, x + 2, y)
    {
      assert InBounds(a, b, width, height);
    }
  }

  /** Opening a link that belongs to a cell already scanned keeps the scan, and adds one open
      link when it was still a wall. */
  lemma OpenLink(s: seq<Code>, s': seq<Code>, x: int, y: int, mx: int, my: int, width: int, height: int)
    requires Scanned(s, x, y, width, height) && IsLink(mx, my, width, height) && OwnedBefore(mx, my, x, y)
    requires CarvedPair(s, s', mx, my, mx, my, width, height)
    ensures Scanned(s', x, y, width, height)
    ensures Carved(s', width, height) == Carved(s, width, height)
    ensures GridCount(s', Links, width, height, height) ==
      GridCount(s, Links, width, height, height) + (if At(s, mx, my, width) == B then 1 else 0)
  {
    assert InBounds(mx, my, width, height);
    GridCountPair(s, s', Cells, mx, my, mx, my, width, height, height);
    GridCountPair(s, s', Links, mx, my, mx, my, width, height, height);
    forall a, b | IsCell(a, b, width, height)
      ensures At(s', a, b, width) == W <==> Before(a, b, x, y)
    {
      assert InBounds(a, b, width, height);
    }
    forall a, b | IsLink(a, b, width, height) && At(s', a, b, width) == W
      ensures OwnedBefore(a, b, x, y)
    {
      assert InBounds(a, b, width, height);
    }
  }

  /** A link whose owner the scan has not passed is still a wall. */
  lemma NotYetOpen(s: seq<Code>, x: int, y: int, mx: int, my: int, width: int, height: int)
    requires Scanned(s, x, y, width, height) && IsLink(mx, my, width, height) && !OwnedBefore(mx, my, x, y)
    ensures At(s, mx, my, width) == B
  {
    assert InBounds(mx, my, width, height);
  }

  /** Past the last carvable column of row y the scan stands at the first cell of row y + 2. */
  lemma ScanNextRow(s: seq<Code>, x: int, y: int, width: int, height: int)
    requires ValidDims(width, height) && Scanned(s, x, y, width, height) && width - 1 <= x && Odd(y)
    ensures Scanned(s, 1, y + 2, width, height)
    ensures Before(width - 2, 1, x, y) <==> Before(width - 2, 1, 1, y + 2)
  {
    BeforeNextRow(x, y, width, height);
    assert IsCell(width - 2, 1, width, height) by {
      OddNext(width - 2);
      OddMod(width);
      OddMod(width - 1);
    }
    forall a, b | IsLink(a, b, width, height) && At(s, a, b, width) == W
      ensures OwnedBefore(a, b, 1, y + 2)
    {
      OwnerIsCell(a, b, width, height);
    }
  }

  /** A finished scan has opened every carvable cell. */
  lemma ScanDone(s: seq<Code>, width: int, height: int)
    requires ValidDims(width, height) && Scanned(s, 1, height, width, height)
    ensures forall x, y :: IsCell(x, y, width, height) ==> At(s, x, y, width) == W
    ensures Carved(s, width, height) == TotalCells(width, height)
    ensures Before(width - 2, 1, 1, height)
  {
    AllOpenCount(s, width, height);
  }
}
