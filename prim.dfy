/** Prim's generator: a list of candidate walls, each a link and the cell behind it, drawn at
    random; a wall is opened when the cell behind it is still a wall. */
module Prim {
  import opened Grid
  import Chance
  import opened Carving
  import Reach

  /** A candidate wall: the link (wx, wy) and the cell (nx, ny) it leads to. */
  type Entry = (int, int, int, int)

  /** The entry for stepping from (x, y) by (dx, dy). */
  function EntryFor(x: int, y: int, dx: int, dy: int): Entry
  {
    (x + dx / 2, y + dy / 2, x + dx, y + dy)
  }

  /** Stepping from (x, y) by (dx, dy) stays strictly inside the border. */
  predicate InsideStep(x: int, y: int, dx: int, dy: int, width: int, height: int)
  {
    1 <= x + dx < width - 1 && 1 <= y + dy < height - 1
  }

  /** e is the entry for a step from (x, y) that stays inside the border. */
  predicate StepEntry(e: Entry, x: int, y: int, width: int, height: int)
  {
    var (dx, dy) := (e.2 - x, e.3 - y);
    (dx, dy) in Steps && InsideStep(x, y, dx, dy, width, height) && e == EntryFor(x, y, dx, dy)
  }

  /** `added` holds the entry for a step from (x, y) exactly when that step stays inside. */
  ghost predicate WallsFrom(added: seq<Entry>, x: int, y: int, width: int, height: int)
  {
    && (forall e :: e in added ==> StepEntry(e, x, y, width, height))
    && (forall d :: d in Steps && InsideStep(x, y, d.0, d.1, width, height) ==> EntryFor(x, y, d.0, d.1) in added)
  }

  /** Every entry is a link and the carvable cell behind it. */
  ghost predicate EntriesValid(walls: seq<Entry>, width: int, height: int)
  {
    forall e :: e in walls ==> IsLink(e.0, e.1, width, height) && IsCell(e.2, e.3, width, height)
  }

  /** The neighbour of (x, y) in direction (dx, dy) is a passage, or an entry leads to it. */
  ghost predicate Covered(s: seq<Code>, walls: seq<Entry>, x: int, y: int, dx: int, dy: int, width: int, height: int)
  {
    IsCell(x + dx, y + dy, width, height) ==>
      At(s, x + dx, y + dy, width) == W || EntryFor(x, y, dx, dy) in walls
  }

  /** Every neighbour of the cell is a passage or reachable through a listed entry. */
  ghost predicate Frontier(s: seq<Code>, walls: seq<Entry>, x: int, y: int, width: int, height: int)
  {
    && Covered(s, walls, x, y, 0, 2, width, height)
    && Covered(s, walls, x, y, 0, -2, width, height)
    && Covered(s, walls, x, y, 2, 0, width, height)
    && Covered(s, walls, x, y, -2, 0, width, height)
  }

  /** The loop invariant: footprint, count, entries well formed, every passage cell's
      neighbours covered, and the start carved. */
  ghost predicate Progress(s: seq<Code>, walls: seq<Entry>, carved: int, sx: int, sy: int, width: int, height: int)
  {
    && CarvedOnly(s, width, height)
    && carved == Carved(s, width, height)
    && EntriesValid(walls, width, height)
    && (forall x, y {:trigger Frontier(s, walls, x, y, width, height)} ::
          IsCell(x, y, width, height) && At(s, x, y, width) == W ==> Frontier(s, walls, x, y, width, height))
    && IsCell(sx, sy, width, height) && At(s, sx, sy, width) == W
  }

  /** The entry for the step d from (x, y) when it stays inside the border, and nothing otherwise. */
  function StepPart(x: int, y: int, d: (int, int), width: int, height: int): seq<Entry>
  {
    if InsideStep(x, y, d.0, d.1, width, height) then [EntryFor(x, y, d.0, d.1)] else []
  }

  /** The entries for the steps of `dirs` that stay inside the border, in the order of `dirs`. */
  function InsideEntries(x: int, y: int, dirs: seq<(int, int)>, width: int, height: int): (r: seq<Entry>)
    ensures |r| <= |dirs|
  {
    if |dirs| == 0 then []
    else InsideEntries(x, y, dirs[..|dirs| - 1], width, height) + StepPart(x, y, dirs[|dirs| - 1], width, height)
  }

  /** The four directions' entries, one after another. */
  lemma InsideEntriesSteps(x: int, y: int, width: int, height: int)
    ensures InsideEntries(x, y, Steps, width, height) ==
      StepPart(x, y, Steps[0], width, height) + StepPart(x, y, Steps[1], width, height)
        + StepPart(x, y, Steps[2], width, height) + StepPart(x, y, Steps[3], width, height)
  {
    assert Steps[..1][..0] == [] && Steps[..2][..1] == Steps[..1] && Steps[..3][..2] == Steps[..2];
    assert Steps[..4][..3] == Steps[..3] && Steps[..4] == Steps;
    assert InsideEntries(x, y, Steps[..1], width, height) == StepPart(x, y, Steps[0], width, height);
    assert InsideEntries(x, y, Steps[..2], width, height) ==
      StepPart(x, y, Steps[0], width, height) + StepPart(x, y, Steps[1], width, height);
    assert InsideEntries(x, y, Steps[..3], width, height) ==
      StepPart(x, y, Steps[0], width, height) + StepPart(x, y, Steps[1], width, height)
        + StepPart(x, y, Steps[2], width, height);
  }

  /** The entries listed for the four directions from (x, y) are exactly the steps from (x, y)
      that stay inside the border. */
  lemma InsideEntriesFrom(x: int, y: int, width: int, height: int)
    ensures WallsFrom(InsideEntries(x, y, Steps, width, height), x, y, width, height)
  {
    var r := InsideEntries(x, y, Steps, width, height);
    InsideEntriesSteps(x, y, width, height);
    forall e | e in r
      ensures StepEntry(e, x, y, width, height)
    {
      var k :| 0 <= k < 4 && e in StepPart(x, y, Steps[k], width, height);
    }
    forall d | d in Steps && InsideStep(x, y, d.0, d.1, width, height)
      ensures EntryFor(x, y, d.0, d.1) in r
    {
      var k :| 0 <= k < 4 && Steps[k] == d;
      assert EntryFor(x, y, d.0, d.1) in StepPart(x, y, Steps[k], width, height);
    }
  }

  /** The `addWalls` closure of scripts/gen.js primsAlgorithm: appends, for each of the four
      directions in order, the link and the cell behind it when that cell lies inside the border. */
  method AddWalls(walls: seq<Entry>, x: int, y: int, width: int, height: int) returns (walls': seq<Entry>)
    ensures walls' == walls + InsideEntries(x, y, Steps, width, height)
    ensures WallsFrom(walls'[|walls|..], x, y, width, height)
  {
    walls' := walls;
    var i := 0;
    while i < |Steps|
      invariant 0 <= i <= |Steps|
      invariant walls' == walls + InsideEntries(x, y, Steps[..i], width, height)
    {
      var (dx, dy) := Steps[i];
      var nx := x + dx;
      var ny := y + dy;
      assert Steps[..i + 1][..i] == Steps[..i];
      if 1 <= nx < width - 1 && 1 <= ny < height - 1 {
        walls' := walls' + [(x + dx / 2, y + dy / 2, nx, ny)];
      }
      i := i + 1;
    }
    assert Steps[..|Steps|] == Steps;
    assert walls'[|walls|..] == InsideEntries(x, y, Steps, width, height);
    InsideEntriesFrom(x, y, width, height);
  }

  /** The cell an entry was listed from: its link lies halfway between that cell and the
      entry's own cell. */
  function Origin(e: Entry): (c: (int, int))
    ensures e.0 == (c.0 + e.2) / 2 && e.1 == (c.1 + e.3) / 2
  {
    (2 * e.0 - e.2, 2 * e.1 - e.3)
  }

  /** The entry was listed from a passage cell one step away from its own cell. */
  ghost predicate Anchored(s: seq<Code>, e: Entry, width: int, height: int)
  {
    var (fx, fy) := Origin(e);
    IsCell(fx, fy, width, height) && At(s, fx, fy, width) == W && (e.2 - fx, e.3 - fy) in Steps
  }

  /** The reachability half of the loop invariant: every entry hangs off a passage cell, and
      every passage is reachable from the start. */
  ghost predicate Reaching(s: seq<Code>, walls: seq<Entry>, sx: int, sy: int, width: int, height: int)
  {
    && (forall e :: e in walls ==> Anchored(s, e, width, height))
    && Reach.Connected(s, sx, sy, width, height)
  }

  /** Entries listed from a passage cell hang off it. */
  lemma AddedAnchored(s: seq<Code>, added: seq<Entry>, x: int, y: int, width: int, height: int)
    requires IsCell(x, y, width, height) && At(s, x, y, width) == W
    requires WallsFrom(added, x, y, width, height)
    ensures forall e :: e in added ==> Anchored(s, e, width, height)
  {
    forall e | e in added
      ensures Anchored(s, e, width, height)
    {
      assert StepEntry(e, x, y, width, height);
      assert Origin(e) == (x, y);
    }
  }

  /** Carving the start cell and listing its entries establishes the reachability invariant. */
  lemma StartReach(s: seq<Code>, s': seq<Code>, walls: seq<Entry>, sx: int, sy: int, width: int, height: int)
    requires |s| == Area(width, height) && AllWall(s) && IsCell(sx, sy, width, height)
    requires CarvedPair(s, s', sx, sy, sx, sy, width, height)
    requires WallsFrom(walls, sx, sy, width, height)
    ensures Reaching(s', walls, sx, sy, width, height)
  {
    assert InBounds(sx, sy, width, height);
    Reach.ConnectedStart(s, s', sx, sy, width, height);
    AddedAnchored(s', walls, sx, sy, width, height);
  }

  /** Opening the link and the cell of an entry that hangs off a passage keeps every passage
      reachable from the start. */
  lemma CarveEntry(s: seq<Code>, s': seq<Code>, sx: int, sy: int, e: Entry, width: int, height: int)
    requires Reach.Connected(s, sx, sy, width, height)
    requires Anchored(s, e, width, height) && IsCell(e.2, e.3, width, height)
    requires CarvedPair(s, s', e.0, e.1, e.2, e.3, width, height)
    ensures Reach.Connected(s', sx, sy, width, height)
  {
    var (fx, fy) := Origin(e);
    var (dx, dy) := (e.2 - fx, e.3 - fy);
    assert fx + dx / 2 == e.0 && fy + dy / 2 == e.1 && fx + dx == e.2 && fy + dy == e.3;
    Reach.CarveFrom(s, s', sx, sy, fx, fy, dx, dy, width, height);
  }

  /** Opening the link and the cell of entry idx, then listing the new cell's entries, keeps
      the reachability invariant: the new cell is reached through the cell it was listed from. */
  lemma {:induction false} OpenReach(s: seq<Code>, s': seq<Code>, walls: seq<Entry>, sx: int, sy: int, idx: int, added: seq<Entry>, width: int, height: int)
    requires Reaching(s, walls, sx, sy, width, height) && EntriesValid(walls, width, height)
    requires 0 <= idx < |walls|
    requires CarvedPair(s, s', walls[idx].0, walls[idx].1, walls[idx].2, walls[idx].3, width, height)
    requires WallsFrom(added, walls[idx].2, walls[idx].3, width, height)
    ensures Reaching(s', walls[..idx] + walls[idx + 1..] + added, sx, sy, width, height)
  {
    var e := walls[idx];
    assert e in walls;
    CarveEntry(s, s', sx, sy, e, width, height);
    assert InBounds(e.2, e.3, width, height);
    AddedAnchored(s', added, e.2, e.3, width, height);
    var rest := walls[..idx] + walls[idx + 1..];
    forall a | a in rest + added
      ensures Anchored(s', a, width, height)
    {
      if a in rest {
        assert a in walls && Anchored(s, a, width, height);
        assert InBounds(Origin(a).0, Origin(a).1, width, height);
      }
    }
  }

  /** Dropping an entry leaves the grid alone and keeps the reachability invariant. */
  lemma SkipReach(s: seq<Code>, walls: seq<Entry>, sx: int, sy: int, idx: int, width: int, height: int)
    requires Reaching(s, walls, sx, sy, width, height) && 0 <= idx < |walls|
    ensures Reaching(s, walls[..idx] + walls[idx + 1..], sx, sy, width, height)
  {
    assert forall e :: e in walls[..idx] + walls[idx + 1..] ==> e in walls;
  }

  /** An entry other than the one removed is still listed after the removal. */
  lemma InRemoved(walls: seq<Entry>, idx: int, e: Entry)
    requires 0 <= idx < |walls| && e in walls && e != walls[idx]
    ensures e in walls[..idx] + walls[idx + 1..]
  {
    var j :| 0 <= j < |walls| && walls[j] == e;
    if j < idx {
      assert (walls[..idx] + walls[idx + 1..])[j] == e;
    } else {
      assert (walls[..idx] + walls[idx + 1..])[j - 1] == e;
    }
  }

  /** One direction of a frontier stays covered when entry idx is drawn, the remaining entries
      stay listed, the cell behind the drawn entry ends up a passage and passages stay passages. */
  lemma CoveredAfter(s: seq<Code>, s': seq<Code>, walls: seq<Entry>, walls': seq<Entry>, idx: int, x: int, y: int, dx: int, dy: int, width: int, height: int)
    requires Covered(s, walls, x, y, dx, dy, width, height) && 0 <= idx < |walls|
    requires forall e :: e in walls[..idx] + walls[idx + 1..] ==> e in walls'
    requires At(s', walls[idx].2, walls[idx].3, width) == W
    requires IsCell(x + dx, y + dy, width, height) && At(s, x + dx, y + dy, width) == W ==> At(s', x + dx, y + dy, width) == W
    ensures Covered(s', walls', x, y, dx, dy, width, height)
  {
    if IsCell(x + dx, y + dy, width, height) && At(s, x + dx, y + dy, width) != W && EntryFor(x, y, dx, dy) != walls[idx] {
      InRemoved(walls, idx, EntryFor(x, y, dx, dy));
    }
  }

  /** A cell whose neighbours are all passages or listed keeps that property after drawing entry idx. */
  lemma FrontierAfter(s: seq<Code>, s': seq<Code>, walls: seq<Entry>, walls': seq<Entry>, idx: int, x: int, y: int, width: int, height: int)
    requires Frontier(s, walls, x, y, width, height) && 0 <= idx < |walls|
    requires forall e :: e in walls[..idx] + walls[idx + 1..] ==> e in walls'
    requires At(s', walls[idx].2, walls[idx].3, width) == W
    requires forall a, b :: IsCell(a, b, width, height) && At(s, a, b, width) == W ==> At(s', a, b, width) == W
    ensures Frontier(s', walls', x, y, width, height)
  {
    CoveredAfter(s, s', walls, walls', idx, x, y, 0, 2, width, height);
    CoveredAfter(s, s', walls, walls', idx, x, y, 0, -2, width, height);
    CoveredAfter(s, s', walls, walls', idx, x, y, 2, 0, width, height);
    CoveredAfter(s, s', walls, walls', idx, x, y, -2, 0, width, height);
  }

  /** A freshly carved cell whose four entries were all appended has its frontier covered. */
  lemma FreshFrontier(s: seq<Code>, walls: seq<Entry>, added: seq<Entry>, x: int, y: int, width: int, height: int)
    requires WallsFrom(added, x, y, width, height)
    requires forall e :: e in added ==> e in walls
    ensures Frontier(s, walls, x, y, width, height)
  {
    assert (0, 2) in Steps && (0, -2) in Steps && (2, 0) in Steps && (-2, 0) in Steps;
  }

  /** Appended entries for a carvable cell are well formed. */
  lemma AddedValid(added: seq<Entry>, x: int, y: int, width: int, height: int)
    requires IsCell(x, y, width, height) && WallsFrom(added, x, y, width, height)
    ensures EntriesValid(added, width, height)
  {
    forall e | e in added
      ensures IsLink(e.0, e.1, width, height) && IsCell(e.2, e.3, width, height)
    {
      StepFromCell(x, y, e.2 - x, e.3 - y, width, height);
    }
  }

  /** Carving the start cell and listing its entries establishes the invariant. */
  lemma StartStep(s: seq<Code>, s': seq<Code>, walls: seq<Entry>, sx: int, sy: int, width: int, height: int)
    requires ValidDims(width, height) && |s| == Area(width, height)
    requires AllWall(s) && IsCell(sx, sy, width, height)
    requires CarvedPair(s, s', sx, sy, sx, sy, width, height)
    requires WallsFrom(walls, sx, sy, width, height)
    ensures Progress(s', walls, 1, sx, sy, width, height)
  {
    AllWallCarvedOnly(s, width, height);
    AllWallCount(s, Cells, width, height, height);
    assert InBounds(sx, sy, width, height);
    CellOpened(s, s', sx, sy, sx, sy, width, height);
    AddedValid(walls, sx, sy, width, height);
    forall x, y | IsCell(x, y, width, height) && At(s', x, y, width) == W
      ensures Frontier(s', walls, x, y, width, height)
    {
      assert InBounds(x, y, width, height);
      FreshFrontier(s', walls, walls, sx, sy, width, height);
    }
  }

  /** Drawing entry idx, whose cell is still a wall: opening the link and the cell, then
      listing the new cell's entries, keeps the invariant and adds one carved cell. */
  lemma {:induction false} OpenStep(s: seq<Code>, s': seq<Code>, walls: seq<Entry>, carved: int, sx: int, sy: int, idx: int, added: seq<Entry>, width: int, height: int)
    requires Progress(s, walls, carved, sx, sy, width, height)
    requires 0 <= idx < |walls| && At(s, walls[idx].2, walls[idx].3, width) == B
    requires CarvedPair(s, s', walls[idx].0, walls[idx].1, walls[idx].2, walls[idx].3, width, height)
    requires WallsFrom(added, walls[idx].2, walls[idx].3, width, height)
    ensures Progress(s', walls[..idx] + walls[idx + 1..] + added, carved + 1, sx, sy, width, height)
  {
    var (wx, wy, nx, ny) := walls[idx];
    var rest := walls[..idx] + walls[idx + 1..];
    var walls' := rest + added;
    assert walls[idx] in walls;
    assert IsLink(wx, wy, width, height) && IsCell(nx, ny, width, height);
    CellOpened(s, s', wx, wy, nx, ny, width, height);
    assert forall e :: e in rest ==> e in walls';
    assert forall e :: e in rest ==> e in walls;
    AddedValid(added, nx, ny, width, height);
    forall a, b | IsCell(a, b, width, height) && At(s, a, b, width) == W
      ensures At(s', a, b, width) == W
    {
      assert InBounds(a, b, width, height);
    }
    assert InBounds(nx, ny, width, height);
    forall x, y {:trigger Frontier(s', walls', x, y, width, height)}
      | IsCell(x, y, width, height) && At(s', x, y, width) == W
      ensures Frontier(s', walls', x, y, width, height)
    {
      assert InBounds(x, y, width, height);
      if x == nx && y == ny {
        FreshFrontier(s', walls', added, nx, ny, width, height);
      } else {
        assert At(s, x, y, width) == W;
        FrontierAfter(s, s', walls, walls', idx, x, y, width, height);
      }
    }
    assert InBounds(sx, sy, width, height);
  }

  /** The opening branch of the drawing loop: entry idx of `drawn` leads to a wall cell, and
      `walls` is `drawn` without it. Opens the link and the cell and lists the new cell's entries. */
  method OpenEntry(maze: array<Code>, drawn: seq<Entry>, idx: int, walls: seq<Entry>, carved: int, sx: int, sy: int, width: int, height: int)
    returns (walls': seq<Entry>)
    requires maze.Length == Area(width, height)
    requires Progress(maze[..], drawn, carved, sx, sy, width, height)
    requires 0 <= idx < |drawn| && walls == drawn[..idx] + drawn[idx + 1..]
    requires At(maze[..], drawn[idx].2, drawn[idx].3, width) == B
    requires Reaching(maze[..], drawn, sx, sy, width, height)
    modifies maze
    ensures Progress(maze[..], walls', carved + 1, sx, sy, width, height)
    ensures Reaching(maze[..], walls', sx, sy, width, height)
  {
    var (wx, wy, nx, ny) := drawn[idx];
    assert drawn[idx] in drawn;
    assert InBounds(wx, wy, width, height) && InBounds(nx, ny, width, height);
    ghost var s: seq<Code> := maze[..];
    Open(maze, wx, wy, nx, ny, width, height);
    walls' := AddWalls(walls, nx, ny, width, height);
    OpenStep(s, maze[..], drawn, carved, sx, sy, idx, walls'[|walls|..], width, height);
    OpenReach(s, maze[..], drawn, sx, sy, idx, walls'[|walls|..], width, height);
    assert walls' == walls + walls'[|walls|..];
  }

  /** Drawing an entry whose cell is already a passage: dropping it keeps the invariant. */
  lemma {:induction false} SkipStep(s: seq<Code>, walls: seq<Entry>, carved: int, sx: int, sy: int, idx: int, width: int, height: int)
    requires Progress(s, walls, carved, sx, sy, width, height)
    requires 0 <= idx < |walls| && At(s, walls[idx].2, walls[idx].3, width) != B
    ensures Progress(s, walls[..idx] + walls[idx + 1..], carved, sx, sy, width, height)
  {
    var rest := walls[..idx] + walls[idx + 1..];
    assert forall e :: e in rest ==> e in walls;
    var (wx, wy, nx, ny) := walls[idx];
    assert InBounds(nx, ny, width, height);
    forall x, y {:trigger Frontier(s, rest, x, y, width, height)}
      | IsCell(x, y, width, height) && At(s, x, y, width) == W
      ensures Frontier(s, rest, x, y, width, height)
    {
      FrontierAfter(s, s, walls, rest, idx, x, y, width, height);
    }
  }

  /** With no entries left, every passage cell is finished. */
  lemma DrainedIsFinished(s: seq<Code>, carved: int, sx: int, sy: int, width: int, height: int)
    requires Progress(s, [], carved, sx, sy, width, height)
    ensures OffListFinished(s, [], width, height)
  {
    forall x, y {:trigger Finished(s, x, y, width, height)}
      | IsCell(x, y, width, height) && At(s, x, y, width) == W && (x, y) !in []
      ensures Finished(s, x, y, width, height)
    {
      assert Frontier(s, [], x, y, width, height);
    }
  }

  /** One pass of the drawing loop of scripts/gen.js primsAlgorithm: draws a random entry and
      removes it; when its cell is still a wall, opens the link and the cell and lists the new
      cell's entries. Either one more cell is carved or the list is shorter. */
  method DrawStep(maze: array<Code>, walls: seq<Entry>, carved: int, sx: int, sy: int, width: int, height: int)
    returns (walls': seq<Entry>, carved': int)
    requires maze.Length == Area(width, height) && |walls| > 0
    requires Progress(maze[..], walls, carved, sx, sy, width, height)
    requires Reaching(maze[..], walls, sx, sy, width, height)
    modifies maze
    ensures Progress(maze[..], walls', carved', sx, sy, width, height)
    ensures Reaching(maze[..], walls', sx, sy, width, height)
    ensures carved' == carved + 1 || (carved' == carved && |walls'| < |walls| && maze[..] == old(maze[..]))
  {
    var idx := Chance.Pick(|walls|);
    var (wx, wy, nx, ny) := walls[idx];
    walls' := walls[..idx] + walls[idx + 1..];
    assert walls[idx] in walls && InBounds(nx, ny, width, height);
    IdxRange(nx, ny, width, height);
    if maze[Idx(nx, ny, width)] == B {
      walls' := OpenEntry(maze, walls, idx, walls', carved, sx, sy, width, height);
      carved' := carved + 1;
    } else {
      SkipStep(maze[..], walls, carved, sx, sy, idx, width, height);
      SkipReach(maze[..], walls, sx, sy, idx, width, height);
      carved' := carved;
    }
  }

  /** scripts/gen.js primsAlgorithm. Carves only the lattice, keeps carvedCells equal to the
      number of passage cells, and finishes with every carvable cell carved and every passage
      reachable from the start. */
  method PrimsAlgorithm(maze: array<Code>, startX: int, startY: int, width: int, height: int)
    requires ValidDims(width, height) && maze.Length == Area(width, height)
    requires AllWall(maze[..]) && IsCell(startX, startY, width, height)
    modifies maze
    ensures CarvedOnly(maze[..], width, height)
    ensures forall x, y :: IsCell(x, y, width, height) ==> At(maze[..], x, y, width) == W
    ensures Reach.Connected(maze[..], startX, startY, width, height)
  {
    var walls: seq<Entry> := [];
    ghost var s0: seq<Code> := maze[..];
    assert InBounds(startX, startY, width, height);
    Open(maze, startX, startY, startX, startY, width, height);
    walls := AddWalls(walls, startX, startY, width, height);
    StartStep(s0, maze[..], walls, startX, startY, width, height);
    StartReach(s0, maze[..], walls, startX, startY, width, height);
    var totalCells := (width / 2) * (height / 2);
    var carvedCells := 1;

    while |walls| > 0
      invariant Progress(maze[..], walls, carvedCells, startX, startY, width, height)
      invariant Reaching(maze[..], walls, startX, startY, width, height)
      decreases totalCells - carvedCells, |walls|
    {
      CarvedBound(maze[..], width, height);
      walls, carvedCells := DrawStep(maze, walls, carvedCells, startX, startY, width, height);
    }
    DrainedIsFinished(maze[..], carvedCells, startX, startY, width, height);
    AllFinishedCarvesAll(maze[..], width, height, startX, startY);
  }
}
