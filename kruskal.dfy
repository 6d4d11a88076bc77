/** Kruskal's generator: every carvable cell is opened first, then the east and south walls
    between neighbouring cells are drawn in random order and a wall's link is opened exactly
    when its two cells are still in different sets of a union-find forest. */
module Kruskal {
  import opened Grid
  import Chance
  import Search
  import Reach

  // ---------------------------------------------------------------------------
  // The union-find forest

  /** Parent links of a disjoint-set forest. The ghost ranks strictly increase from a key to
      its parent and stay below `bound`, so following parents reaches a root. */
  ghost predicate Forest(parent: map<int, int>, rank: map<int, nat>, bound: nat)
  {
    && rank.Keys == parent.Keys
    && parent.Values <= parent.Keys
    && (forall k :: k in rank ==> rank[k] < bound)
    && (forall k {:trigger parent[k]} :: k in parent && parent[k] != k ==> rank[k] < rank[parent[k]])
  }

  /** The root of k's tree: the key reached by following parents, the one that points at itself. */
  ghost function RootOf(parent: map<int, int>, rank: map<int, nat>, bound: nat, k: int): (r: int)
    requires Forest(parent, rank, bound) && k in parent
    ensures r in parent && parent[r] == r
    ensures r == k || rank[k] < rank[r]
    decreases bound - rank[k]
  {
    if parent[k] == k then k else RootOf(parent, rank, bound, parent[k])
  }

  /** Root r after the set named `from` is merged into the set named `to`. */
  function Relabel(r: int, from: int, to: int): int
  {
    if r == from then to else r
  }

  /** The keys that name a set. */
  ghost function Roots(parent: map<int, int>): set<int>
  {
    set k | k in parent && parent[k] == k
  }

  /** A key is a root exactly when it is its own root. */
  lemma RootIsFixed(parent: map<int, int>, rank: map<int, nat>, bound: nat, k: int)
    requires Forest(parent, rank, bound) && k in parent
    ensures k in Roots(parent) <==> RootOf(parent, rank, bound, k) == k
  {
  }

  /** Re-pointing a key at anything but itself removes it from the roots and leaves the other
      roots alone. */
  lemma RepointRoots(parent: map<int, int>, x: int, v: int)
    requires x in parent && v != x
    ensures Roots(parent[x := v]) == Roots(parent) - {x}
  {
    var parent' := parent[x := v];
    forall k
      ensures k in Roots(parent') <==> k in Roots(parent) - {x}
    {
      if k != x {
        assert k in parent' <==> k in parent;
      }
    }
  }

  /** Path compression at one key: pointing non-root key x straight at its root keeps the
      forest and y's root. */
  lemma {:induction false} CompressKeepsRoot(parent: map<int, int>, rank: map<int, nat>, bound: nat, x: int, y: int)
    requires Forest(parent, rank, bound) && x in parent && parent[x] != x && y in parent
    requires Forest(parent[x := RootOf(parent, rank, bound, x)], rank, bound)
    ensures RootOf(parent[x := RootOf(parent, rank, bound, x)], rank, bound, y) == RootOf(parent, rank, bound, y)
    decreases bound - rank[y]
  {
    if y != x && parent[y] != y {
      CompressKeepsRoot(parent, rank, bound, x, parent[y]);
    }
  }

  /** Pointing a non-root key x at a key of higher rank keeps a forest. */
  lemma RepointKeepsForest(parent: map<int, int>, rank: map<int, nat>, bound: nat, x: int, v: int)
    requires Forest(parent, rank, bound) && x in parent && v in parent && rank[x] < rank[v]
    ensures Forest(parent[x := v], rank, bound)
  {
  }

  /** Path compression keeps the forest, every key's root and the set of roots. */
  lemma Compress(parent: map<int, int>, rank: map<int, nat>, bound: nat, x: int)
    requires Forest(parent, rank, bound) && x in parent && parent[x] != x
    ensures Forest(parent[x := RootOf(parent, rank, bound, x)], rank, bound)
    ensures forall j {:trigger RootOf(parent[x := RootOf(parent, rank, bound, x)], rank, bound, j)} :: j in parent ==>
      RootOf(parent[x := RootOf(parent, rank, bound, x)], rank, bound, j) == RootOf(parent, rank, bound, j)
    ensures Roots(parent[x := RootOf(parent, rank, bound, x)]) == Roots(parent)
  {
    var parent' := parent[x := RootOf(parent, rank, bound, x)];
    RepointKeepsForest(parent, rank, bound, x, RootOf(parent, rank, bound, x));
    forall j | j in parent
      ensures RootOf(parent', rank, bound, j) == RootOf(parent, rank, bound, j)
    {
      CompressKeepsRoot(parent, rank, bound, x, j);
    }
    RepointRoots(parent, x, RootOf(parent, rank, bound, x));
    assert x !in Roots(parent);
  }

  /** The rank of root b after root a is hung below it. */
  function LinkedRank(rank: map<int, nat>, a: int, b: int): nat
    requires a in rank && b in rank
  {
    if rank[b] > rank[a] then rank[b] else rank[a] + 1
  }

  /** Hanging root a below root b, with b's rank raised above a's, keeps a forest. */
  lemma LinkKeepsForest(parent: map<int, int>, rank: map<int, nat>, bound: nat, a: int, b: int)
    requires Forest(parent, rank, bound) && a in parent && b in parent && a != b
    requires parent[a] == a && parent[b] == b
    ensures Forest(parent[a := b], rank[b := LinkedRank(rank, a, b)], bound + 1)
  {
    var parent', rank' := parent[a := b], rank[b := LinkedRank(rank, a, b)];
    forall k | k in parent' && parent'[k] != k
      ensures rank'[k] < rank'[parent'[k]]
    {
      if k != a {
        assert parent'[k] == parent[k] && rank[k] < rank[parent[k]];
      }
    }
  }

  /** Linking root a below root b changes y's root to b exactly when it was a. */
  lemma {:induction false} LinkMovesRoot(parent: map<int, int>, rank: map<int, nat>, bound: nat, a: int, b: int, y: int)
    requires Forest(parent, rank, bound) && a in parent && b in parent && a != b
    requires parent[a] == a && parent[b] == b && y in parent
    requires Forest(parent[a := b], rank[b := LinkedRank(rank, a, b)], bound + 1)
    ensures RootOf(parent[a := b], rank[b := LinkedRank(rank, a, b)], bound + 1, y)
      == if RootOf(parent, rank, bound, y) == a then b else RootOf(parent, rank, bound, y)
    decreases bound - rank[y]
  {
    if y != a && parent[y] != y {
      LinkMovesRoot(parent, rank, bound, a, b, parent[y]);
    }
  }

  /** Linking root a below root b keeps a forest, moves exactly the keys of a's set to b's
      set, and removes a from the roots. */
  lemma Link(parent: map<int, int>, rank: map<int, nat>, bound: nat, a: int, b: int)
    requires Forest(parent, rank, bound) && a in parent && b in parent && a != b
    requires parent[a] == a && parent[b] == b
    ensures Forest(parent[a := b], rank[b := LinkedRank(rank, a, b)], bound + 1)
    ensures forall j {:trigger RootOf(parent[a := b], rank[b := LinkedRank(rank, a, b)], bound + 1, j)} :: j in parent ==>
      RootOf(parent[a := b], rank[b := LinkedRank(rank, a, b)], bound + 1, j) == Relabel(RootOf(parent, rank, bound, j), a, b)
    ensures Roots(parent[a := b]) == Roots(parent) - {a}
  {
    var parent', rank' := parent[a := b], rank[b := LinkedRank(rank, a, b)];
    LinkKeepsForest(parent, rank, bound, a, b);
    forall j | j in parent
      ensures RootOf(parent', rank', bound + 1, j) == Relabel(RootOf(parent, rank, bound, j), a, b)
    {
      LinkMovesRoot(parent, rank, bound, a, b, j);
    }
    RepointRoots(parent, a, b);
  }

  /** `find` of scripts/gen.js kruskalsAlgorithm over the `sets` map: returns the root of k's
      set and, on the way back, points every key of the path straight at it. Every key stays
      in its set and the roots stay the same. The ranks are a ghost termination measure. */
  method Find(parent: map<int, int>, ghost rank: map<int, nat>, ghost bound: nat, k: int) returns (parent': map<int, int>, r: int)
    requires Forest(parent, rank, bound) && k in parent
    ensures Forest(parent', rank, bound) && parent'.Keys == parent.Keys
    ensures r == RootOf(parent, rank, bound, k) && parent'[k] == r
    ensures forall j {:trigger RootOf(parent', rank, bound, j)} :: j in parent ==>
      RootOf(parent', rank, bound, j) == RootOf(parent, rank, bound, j)
    ensures Roots(parent') == Roots(parent)
    decreases bound - rank[k]
  {
    parent' := parent;
    if parent[k] != k {
      var p;
      parent', p := Find(parent, rank, bound, parent[k]);
      assert RootOf(parent', rank, bound, k) == RootOf(parent, rank, bound, k) == p;
      Compress(parent', rank, bound, k);
      parent' := parent'[k := p];
    }
    r := parent'[k];
  }

  /** `union`: finds both roots and, when they differ, hangs a's root below b's and reports
      the merge. Exactly the keys of a's set move to b's set, and one root disappears. */
  method Union(parent: map<int, int>, ghost rank: map<int, nat>, ghost bound: nat, a: int, b: int)
    returns (parent': map<int, int>, ghost rank': map<int, nat>, ghost bound': nat, merged: bool)
    requires Forest(parent, rank, bound) && a in parent && b in parent
    ensures Forest(parent', rank', bound') && parent'.Keys == parent.Keys
    ensures merged <==> RootOf(parent, rank, bound, a) != RootOf(parent, rank, bound, b)
    ensures forall j {:trigger RootOf(parent', rank', bound', j)} :: j in parent ==>
      RootOf(parent', rank', bound', j) == Relabel(RootOf(parent, rank, bound, j), RootOf(parent, rank, bound, a), RootOf(parent, rank, bound, b))
    ensures Roots(parent') == if merged then Roots(parent) - {RootOf(parent, rank, bound, a)} else Roots(parent)
  {
    var rootA, rootB;
    parent', rootA := Find(parent, rank, bound, a);
    ghost var parent1 := parent';
    parent', rootB := Find(parent', rank, bound, b);
    assert rootA in Roots(parent1) && rootB in Roots(parent1);
    rank', bound' := rank, bound;
    if rootA != rootB {
      Link(parent', rank, bound, rootA, rootB);
      rank' := rank[rootB := LinkedRank(rank, rootA, rootB)];
      bound' := bound + 1;
      parent' := parent'[rootA := rootB];
      merged := true;
    } else {
      merged := false;
    }
  }

  // ---------------------------------------------------------------------------
  // The generator

  /** A wall entry [x1, y1, x2, y2]: two cells, the second two steps east or south of the first. */
  type Wall = (int, int, int, int)

  predicate WallOk(w: Wall, width: int, height: int)
  {
    && IsCell(w.0, w.1, width, height) && IsCell(w.2, w.3, width, height)
    && ((w.2 == w.0 + 2 && w.3 == w.1) || (w.2 == w.0 && w.3 == w.1 + 2))
  }

  /** The link of a wall: the position halfway between its two cells. */
  function LinkOf(w: Wall): (int, int)
  {
    (w.0 + (w.2 - w.0) / 2, w.1 + (w.3 - w.1) / 2)
  }

  /** The address the source writes for a wall's link,
      `y1 * width + x1 + (x2 - x1) / 2 + (y2 - y1) / 2 * width`, is the row-major address of
      the link, and the link lies between two cells. */
  lemma LinkAddress(w: Wall, width: int, height: int)
    requires WallOk(w, width, height)
    ensures w.1 * width + w.0 + (w.2 - w.0) / 2 + (w.3 - w.1) / 2 * width == Idx(LinkOf(w).0, LinkOf(w).1, width)
    ensures IsLink(LinkOf(w).0, LinkOf(w).1, width, height)
  {
    IdxValue(LinkOf(w).0, LinkOf(w).1, width);
    StepFromCell(w.0, w.1, w.2 - w.0, w.3 - w.1, width, height);
    if w.3 == w.1 + 2 {
      assert (w.1 + 1) * width == w.1 * width + width;
    }
  }

  /** The state of the cell-laying loops before cell (x, y): the grid, the sets and the wall
      list are laid up to (x, y), and there is one key per passage cell. */
  ghost predicate Laid(s: seq<Code>, parent: map<int, int>, walls: seq<Wall>, x: int, y: int, width: int, height: int)
  {
    && LaidGrid(s, x, y, width, height)
    && LaidSets(parent, x, y, width, height)
    && LaidWalls(walls, x, y, width, height)
    && |parent.Keys| == Carved(s, width, height)
  }

  /** The grid before cell (x, y): the footprint, the carvable cells before (x, y) in scan
      order are passages and the rest walls, and no link is open. */
  ghost predicate LaidGrid(s: seq<Code>, x: int, y: int, width: int, height: int)
  {
    && CarvedOnly(s, width, height)
    && (forall a, b :: IsCell(a, b, width, height) ==> (At(s, a, b, width) == W <==> Before(a, b, x, y)))
    && (forall a, b :: IsLink(a, b, width, height) ==> At(s, a, b, width) == B)
    && GridCount(s, Links, width, height, height) == 0
  }

  /** The sets before cell (x, y): every key is the address of a carvable cell before (x, y)
      and a set of its own, and every such cell is a key. */
  ghost predicate LaidSets(parent: map<int, int>, x: int, y: int, width: int, height: int)
  {
    && (forall k :: k in parent ==> parent[k] == k && LaidKey(k, x, y, width, height))
    && (forall a, b :: IsCell(a, b, width, height) && Before(a, b, x, y) ==> Idx(a, b, width) in parent)
  }

  /** The wall list before cell (x, y): every entry is well formed, and every carvable cell
      before (x, y) has its east and south entries unless it is in the last carvable column or
      row. */
  ghost predicate LaidWalls(walls: seq<Wall>, x: int, y: int, width: int, height: int)
  {
    && (forall w :: w in walls ==> WallOk(w, width, height))
    && (forall a, b :: IsCell(a, b, width, height) && Before(a, b, x, y) && a < width - 2 ==> (a, b, a + 2, b) in walls)
    && (forall a, b :: IsCell(a, b, width, height) && Before(a, b, x, y) && b < height - 2 ==> (a, b, a, b + 2) in walls)
  }

  /** k is the row-major address of a carvable cell before (x, y) in scan order. */
  ghost predicate LaidKey(k: int, x: int, y: int, width: int, height: int)
  {
    exists a, b :: IsCell(a, b, width, height) && Before(a, b, x, y) && Idx(a, b, width) == k
  }

  /** The entries the inner loop pushes for cell (x, y): east unless in the last carvable
      column, south unless in the last carvable row. */
  function CellWalls(x: int, y: int, width: int, height: int): seq<Wall>
  {
    (if x < width - 2 then [(x, y, x + 2, y)] else []) + (if y < height - 2 then [(x, y, x, y + 2)] else [])
  }

  /** Nothing is laid before the first cell of an all-wall grid. */
  lemma LaidStart(s: seq<Code>, width: int, height: int)
    requires ValidDims(width, height) && |s| == Area(width, height) && AllWall(s)
    ensures Laid(s, map[], [], 1, 1, width, height)
  {
    AllWallCarvedOnly(s, width, height);
    AllWallCount(s, Cells, width, height, height);
    AllWallCount(s, Links, width, height, height);
    forall a, b | Carvable(a, b, width, height)
      ensures At(s, a, b, width) == B
    {
      IdxRange(a, b, width, height);
    }
  }

  /** Opening cell (x, y) lays it in the grid and adds one passage cell. */
  lemma GridStep(s: seq<Code>, s': seq<Code>, x: int, y: int, width: int, height: int)
    requires LaidGrid(s, x, y, width, height) && IsCell(x, y, width, height)
    requires CarvedPair(s, s', x, y, x, y, width, height)
    ensures LaidGrid(s', x + 2, y, width, height)
    ensures Carved(s', width, height) == Carved(s, width, height) + 1
  {
    assert InBounds(x, y, width, height) && At(s, x, y, width) == B;
    CellOpened(s, s', x, y, x, y, width, height);
    GridCountPair(s, s', Links, x, y, x, y, width, height, height);
    assert !Odd(x + 1) by {
      OddNext(x);
    }
    forall a, b | IsCell(a, b, width, height)
      ensures At(s', a, b, width) == W <==> Before(a, b, x + 2, y)
    {
      assert InBounds(a, b, width, height);
    }
  }

  /** Making cell (x, y) a set of its own lays it in the sets and adds one key. */
  lemma SetsStep(parent: map<int, int>, x: int, y: int, width: int, height: int)
    requires LaidSets(parent, x, y, width, height) && IsCell(x, y, width, height)
    ensures Idx(x, y, width) !in parent
    ensures LaidSets(parent[Idx(x, y, width) := Idx(x, y, width)], x + 2, y, width, height)
    ensures |parent[Idx(x, y, width) := Idx(x, y, width)].Keys| == |parent.Keys| + 1
  {
    var k := Idx(x, y, width);
    var parent' := parent[k := k];
    forall a, b | IsCell(a, b, width, height) && Before(a, b, x, y)
      ensures Idx(a, b, width) != k
    {
      if Idx(a, b, width) == k {
        IdxInjective(a, b, x, y, width);
      }
    }
    assert k !in parent;
    assert parent'.Keys == parent.Keys + {k};
    assert LaidKey(k, x + 2, y, width, height);
    assert !Odd(x + 1) by {
      OddNext(x);
    }
    forall a, b | IsCell(a, b, width, height) && Before(a, b, x + 2, y)
      ensures Idx(a, b, width) in parent'
    {
      if a != x || b != y {
        assert Before(a, b, x, y);
      }
    }
  }

  /** Pushing the entries of cell (x, y) lays it in the wall list. */
  lemma WallsStep(walls: seq<Wall>, x: int, y: int, width: int, height: int)
    requires ValidDims(width, height) && LaidWalls(walls, x, y, width, height) && IsCell(x, y, width, height)
    ensures LaidWalls(walls + CellWalls(x, y, width, height), x + 2, y, width, height)
  {
    var walls' := walls + CellWalls(x, y, width, height);
    CellWallsOk(x, y, width, height);
    assert !Odd(x + 1) by {
      OddNext(x);
    }
    assert x < width - 2 ==> (x, y, x + 2, y) in CellWalls(x, y, width, height);
    assert y < height - 2 ==> (x, y, x, y + 2) in CellWalls(x, y, width, height);
    forall a, b | IsCell(a, b, width, height) && Before(a, b, x + 2, y) && a < width - 2
      ensures (a, b, a + 2, b) in walls'
    {
      if a != x || b != y {
        assert Before(a, b, x, y);
      }
    }
    forall a, b | IsCell(a, b, width, height) && Before(a, b, x + 2, y) && b < height - 2
      ensures (a, b, a, b + 2) in walls'
    {
      if a != x || b != y {
        assert Before(a, b, x, y);
      }
    }
  }

  /** Opening cell (x, y), making it a set of its own and pushing its walls lays it. */
  lemma LayStep(s: seq<Code>, s': seq<Code>, parent: map<int, int>, walls: seq<Wall>, x: int, y: int, width: int, height: int)
    requires ValidDims(width, height) && Laid(s, parent, walls, x, y, width, height) && IsCell(x, y, width, height)
    requires CarvedPair(s, s', x, y, x, y, width, height)
    ensures Idx(x, y, width) !in parent
    ensures Laid(s', parent[Idx(x, y, width) := Idx(x, y, width)], walls + CellWalls(x, y, width, height), x + 2, y, width, height)
  {
    GridStep(s, s', x, y, width, height);
    SetsStep(parent, x, y, width, height);
    WallsStep(walls, x, y, width, height);
  }

  /** The entries pushed for a carvable cell are well formed: the cell two steps east or south
      is carvable whenever the source's bound test lets the entry through. */
  lemma CellWallsOk(x: int, y: int, width: int, height: int)
    requires ValidDims(width, height) && IsCell(x, y, width, height)
    ensures forall w :: w in CellWalls(x, y, width, height) ==> WallOk(w, width, height)
  {
    OddMod(x);
    OddMod(y);
    if x < width - 2 {
      StepFromCell(x, y, 2, 0, width, height);
    }
    if y < height - 2 {
      StepFromCell(x, y, 0, 2, width, height);
    }
  }

  /** The laid grid past the last carvable column of row y is the laid grid before the next
      carvable row. */
  lemma GridNextRow(s: seq<Code>, x: int, y: int, width: int, height: int)
    requires LaidGrid(s, x, y, width, height) && width - 1 <= x && Odd(y)
    ensures LaidGrid(s, 1, y + 2, width, height)
  {
    BeforeNextRow(x, y, width, height);
  }

  /** The same for the sets. */
  lemma SetsNextRow(parent: map<int, int>, x: int, y: int, width: int, height: int)
    requires LaidSets(parent, x, y, width, height) && width - 1 <= x && Odd(y)
    ensures LaidSets(parent, 1, y + 2, width, height)
  {
    BeforeNextRow(x, y, width, height);
    forall k | k in parent
      ensures LaidKey(k, 1, y + 2, width, height)
    {
      var a, b :| IsCell(a, b, width, height) && Before(a, b, x, y) && Idx(a, b, width) == k;
    }
  }

  /** The same for the wall list. */
  lemma WallsNextRow(walls: seq<Wall>, x: int, y: int, width: int, height: int)
    requires LaidWalls(walls, x, y, width, height) && width - 1 <= x && Odd(y)
    ensures LaidWalls(walls, 1, y + 2, width, height)
  {
    BeforeNextRow(x, y, width, height);
  }

  /** Finishing a row moves the scan to the first cell of the next carvable row. */
  lemma NextRow(s: seq<Code>, parent: map<int, int>, walls: seq<Wall>, x: int, y: int, width: int, height: int)
    requires Laid(s, parent, walls, x, y, width, height) && width - 1 <= x && Odd(y)
    ensures Laid(s, parent, walls, 1, y + 2, width, height)
  {
    GridNextRow(s, x, y, width, height);
    SetsNextRow(parent, x, y, width, height);
    WallsNextRow(walls, x, y, width, height);
  }

  /** The body of the inner loop for cell (x, y): opens it, makes it a set of its own and
      pushes its walls. */
  method LayCell(maze: array<Code>, sets: map<int, int>, walls: seq<Wall>, x: int, y: int, width: int, height: int)
    returns (sets': map<int, int>, walls': seq<Wall>)
    requires ValidDims(width, height) && maze.Length == Area(width, height)
    requires Laid(maze[..], sets, walls, x, y, width, height) && IsCell(x, y, width, height)
    modifies maze
    ensures Laid(maze[..], sets', walls', x + 2, y, width, height)
  {
    ghost var s: seq<Code> := maze[..];
    assert InBounds(x, y, width, height);
    Open(maze, x, y, x, y, width, height);
    LayStep(s, maze[..], sets, walls, x, y, width, height);
    sets' := sets[Idx(x, y, width) := Idx(x, y, width)];
    walls' := PushWalls(walls, x, y, width, height);
  }

  /** The inner loop over the carvable cells of row y. */
  method LayRow(maze: array<Code>, sets: map<int, int>, walls: seq<Wall>, y: int, width: int, height: int)
    returns (sets': map<int, int>, walls': seq<Wall>)
    requires ValidDims(width, height) && maze.Length == Area(width, height)
    requires 1 <= y < height - 1 && Odd(y) && Laid(maze[..], sets, walls, 1, y, width, height)
    modifies maze
    ensures Laid(maze[..], sets', walls', 1, y + 2, width, height)
  {
    sets', walls' := sets, walls;
    var x := 1;
    while x < width - 1
      invariant 1 <= x <= width && Odd(x)
      invariant Laid(maze[..], sets', walls', x, y, width, height)
    {
      sets', walls' := LayCell(maze, sets', walls', x, y, width, height);
      OddNext(x);
      OddNext(x + 1);
      x := x + 2;
    }
    NextRow(maze[..], sets', walls', x, y, width, height);
  }

  /** The first loop nest of scripts/gen.js kruskalsAlgorithm: opens every carvable cell in scan
      order, makes each one a set of its own and pushes its east and south walls. */
  method LayCells(maze: array<Code>, width: int, height: int) returns (sets: map<int, int>, walls: seq<Wall>)
    requires ValidDims(width, height) && maze.Length == Area(width, height) && AllWall(maze[..])
    modifies maze
    ensures Laid(maze[..], sets, walls, 1, height, width, height)
  {
    sets, walls := map[], [];
    LaidStart(maze[..], width, height);
    var y := 1;
    while y < height - 1
      invariant 1 <= y <= height && Odd(y)
      invariant Laid(maze[..], sets, walls, 1, y, width, height)
    {
      sets, walls := LayRow(maze, sets, walls, y, width, height);
      OddNext(y);
      OddNext(y + 1);
      y := y + 2;
    }
    assert y == height by {
      OddMod(y);
    }
  }

  /** The two `walls.push` calls of the inner loop: the east entry unless x is in the last
      carvable column, then the south entry unless y is in the last carvable row. */
  method PushWalls(walls: seq<Wall>, x: int, y: int, width: int, height: int) returns (walls': seq<Wall>)
    ensures walls' == walls + CellWalls(x, y, width, height)
  {
    walls' := walls;
    if x < width - 2 {
      walls' := walls' + [(x, y, x + 2, y)];
    }
    if y < height - 2 {
      walls' := walls' + [(x, y, x, y + 2)];
    }
  }

  // ---------------------------------------------------------------------------
  // Connecting regions

  /** The address of the cell before link (a, b): west of it on a cell row, north of it
      otherwise. */
  function CellBefore(a: int, b: int, width: int): int
  {
    if Odd(b) then Idx(a - 1, b, width) else Idx(a, b - 1, width)
  }

  /** The address of the cell after link (a, b): east of it on a cell row, south of it
      otherwise. */
  function CellAfter(a: int, b: int, width: int): int
  {
    if Odd(b) then Idx(a + 1, b, width) else Idx(a, b + 1, width)
  }

  /** The two cells of a wall entry are the cells before and after its link. */
  lemma WallEnds(w: Wall, width: int, height: int)
    requires WallOk(w, width, height)
    ensures CellBefore(LinkOf(w).0, LinkOf(w).1, width) == Idx(w.0, w.1, width)
    ensures CellAfter(LinkOf(w).0, LinkOf(w).1, width) == Idx(w.2, w.3, width)
  {
    if w.3 == w.1 + 2 {
      OddNext(w.1);
    }
  }

  /** Every open link joins two cells of the same set. */
  ghost predicate Joined(s: seq<Code>, parent: map<int, int>, rank: map<int, nat>, bound: nat, width: int, height: int)
    requires Forest(parent, rank, bound)
  {
    forall a, b :: IsLink(a, b, width, height) && At(s, a, b, width) == W ==>
      && CellBefore(a, b, width) in parent && CellAfter(a, b, width) in parent
      && RootOf(parent, rank, bound, CellBefore(a, b, width)) == RootOf(parent, rank, bound, CellAfter(a, b, width))
  }

  /** The loop invariant of the region-connecting loop: every carvable cell is open and a key,
      the keys stay the same, every open link joins two cells of one set, and the open links
      plus the sets add up to the cells, so the links never close a cycle. */
  ghost predicate Connecting(s: seq<Code>, parent: map<int, int>, rank: map<int, nat>, bound: nat, keys: set<int>, width: int, height: int)
  {
    && Forest(parent, rank, bound) && parent.Keys == keys
    && CarvedOnly(s, width, height)
    && (forall a, b :: IsCell(a, b, width, height) ==> At(s, a, b, width) == W && Idx(a, b, width) in keys)
    && Joined(s, parent, rank, bound, width, height)
    && GridCount(s, Links, width, height, height) + |Roots(parent)| == |keys|
  }

  /** Once every cell is laid, each one is a set of its own and nothing joins them. */
  lemma ConnectStart(s: seq<Code>, parent: map<int, int>, walls: seq<Wall>, width: int, height: int)
    requires Laid(s, parent, walls, 1, height, width, height)
    ensures Forest(parent, ZeroRanks(parent), 1) && Roots(parent) == parent.Keys
    ensures Connecting(s, parent, ZeroRanks(parent), 1, parent.Keys, width, height)
  {
    assert Roots(parent) == parent.Keys;
  }

  /** A rank of zero for every key. */
  ghost function ZeroRanks(parent: map<int, int>): (rank: map<int, nat>)
    ensures rank.Keys == parent.Keys
  {
    map k | k in parent :: 0
  }

  /** A wall whose cells were in different sets: its link was closed, and opening it after
      the union keeps the invariant with one more open link and one set fewer. */
  lemma {:induction false} JoinStep(s: seq<Code>, s': seq<Code>, parent: map<int, int>, rank: map<int, nat>, bound: nat,
                                    parent': map<int, int>, rank': map<int, nat>, bound': nat, keys: set<int>, w: Wall, width: int, height: int)
    requires Connecting(s, parent, rank, bound, keys, width, height) && WallOk(w, width, height)
    requires Idx(w.0, w.1, width) in parent && Idx(w.2, w.3, width) in parent
    requires Forest(parent', rank', bound') && parent'.Keys == parent.Keys
    requires RootOf(parent, rank, bound, Idx(w.0, w.1, width)) != RootOf(parent, rank, bound, Idx(w.2, w.3, width))
    requires forall j {:trigger RootOf(parent', rank', bound', j)} :: j in parent ==>
      RootOf(parent', rank', bound', j) == Relabel(RootOf(parent, rank, bound, j), RootOf(parent, rank, bound, Idx(w.0, w.1, width)), RootOf(parent, rank, bound, Idx(w.2, w.3, width)))
    requires Roots(parent') == Roots(parent) - {RootOf(parent, rank, bound, Idx(w.0, w.1, width))}
    requires CarvedPair(s, s', LinkOf(w).0, LinkOf(w).1, LinkOf(w).0, LinkOf(w).1, width, height)
    ensures At(s, LinkOf(w).0, LinkOf(w).1, width) == B
    ensures Connecting(s', parent', rank', bound', keys, width, height)
  {
    var (lx, ly) := LinkOf(w);
    var r1, r2 := RootOf(parent, rank, bound, Idx(w.0, w.1, width)), RootOf(parent, rank, bound, Idx(w.2, w.3, width));
    LinkAddress(w, width, height);
    WallEnds(w, width, height);
    assert InBounds(lx, ly, width, height);
    assert At(s, lx, ly, width) == B;
    PairKeeps(s, s', lx, ly, lx, ly, width, height);
    GridCountPair(s, s', Links, lx, ly, lx, ly, width, height, height);
    assert r1 in Roots(parent);
    forall a, b | IsCell(a, b, width, height)
      ensures At(s', a, b, width) == W
    {
      assert InBounds(a, b, width, height);
    }
    forall a, b | IsLink(a, b, width, height) && At(s', a, b, width) == W
      ensures && CellBefore(a, b, width) in parent' && CellAfter(a, b, width) in parent'
              && RootOf(parent', rank', bound', CellBefore(a, b, width)) == RootOf(parent', rank', bound', CellAfter(a, b, width))
    {
      assert InBounds(a, b, width, height);
      if a == lx && b == ly {
        assert RootOf(parent', rank', bound', CellBefore(a, b, width)) == r2;
      } else {
        assert At(s, a, b, width) == W;
      }
    }
  }

  /** A wall whose cells were already in one set: nothing changes but path compression. */
  lemma KeepStep(s: seq<Code>, parent: map<int, int>, rank: map<int, nat>, bound: nat,
                 parent': map<int, int>, rank': map<int, nat>, bound': nat, keys: set<int>, r: int, width: int, height: int)
    requires Connecting(s, parent, rank, bound, keys, width, height)
    requires Forest(parent', rank', bound') && parent'.Keys == parent.Keys
    requires forall j {:trigger RootOf(parent', rank', bound', j)} :: j in parent ==>
      RootOf(parent', rank', bound', j) == Relabel(RootOf(parent, rank, bound, j), r, r)
    requires Roots(parent') == Roots(parent)
    ensures Connecting(s, parent', rank', bound', keys, width, height)
  {
    forall a, b | IsLink(a, b, width, height) && At(s, a, b, width) == W
      ensures && CellBefore(a, b, width) in parent' && CellAfter(a, b, width) in parent'
              && RootOf(parent', rank', bound', CellBefore(a, b, width)) == RootOf(parent', rank', bound', CellAfter(a, b, width))
    {
    }
  }

  // ---------------------------------------------------------------------------
  // Sets are regions

  /** Any two carvable cells of one set reach each other over passages. */
  ghost predicate SetsReached(s: seq<Code>, parent: map<int, int>, rank: map<int, nat>, bound: nat, width: int, height: int)
    requires Forest(parent, rank, bound)
  {
    forall a, b, c, d ::
      (IsCell(a, b, width, height) && IsCell(c, d, width, height) &&
       Idx(a, b, width) in parent && Idx(c, d, width) in parent &&
       RootOf(parent, rank, bound, Idx(a, b, width)) == RootOf(parent, rank, bound, Idx(c, d, width)))
      ==> Reach.Reached(s, a, b, c, d, width, height)
  }

  /** While every key is a set of its own, a set holds a single cell, which reaches itself. */
  lemma SetsReachedStart(s: seq<Code>, parent: map<int, int>, width: int, height: int)
    requires Forest(parent, ZeroRanks(parent), 1) && Roots(parent) == parent.Keys
    ensures SetsReached(s, parent, ZeroRanks(parent), 1, width, height)
  {
    forall a, b, c, d | IsCell(a, b, width, height) && IsCell(c, d, width, height) &&
                        Idx(a, b, width) in parent && Idx(c, d, width) in parent &&
                        RootOf(parent, ZeroRanks(parent), 1, Idx(a, b, width)) == RootOf(parent, ZeroRanks(parent), 1, Idx(c, d, width))
      ensures Reach.Reached(s, a, b, c, d, width, height)
    {
      assert Idx(a, b, width) in Roots(parent) && Idx(c, d, width) in Roots(parent);
      IdxInjective(a, b, c, d, width);
      Reach.ReachedStart(s, a, b, width, height);
    }
  }

  /** A reach into cell p, the opened link l between p and cell q, and a reach out of q make a
      reach in the grid with l open. */
  lemma Bridge(s: seq<Code>, s': seq<Code>, a: int, b: int, px: int, py: int, lx: int, ly: int,
               qx: int, qy: int, c: int, d: int, width: int, height: int)
    requires Reach.Reached(s, a, b, px, py, width, height) && Reach.Reached(s, qx, qy, c, d, width, height)
    requires 1 <= lx < width - 1 && 1 <= ly < height - 1 && CarvedPair(s, s', lx, ly, lx, ly, width, height)
    requires Search.UnitStep(px, py, lx, ly) && Search.UnitStep(lx, ly, qx, qy)
    requires Search.Enterable(s, Search.Interior, qx, qy, width, height)
    ensures Reach.Reached(s', a, b, c, d, width, height)
  {
    Reach.CarvedWidens(s, s', lx, ly, lx, ly, width, height);
    Reach.ReachedWiden(s, s', a, b, px, py, width, height);
    Reach.ReachedWiden(s, s', qx, qy, c, d, width, height);
    Reach.ReachedStep(s', a, b, px, py, lx, ly, width, height);
    Reach.ReachedStep(s', a, b, lx, ly, qx, qy, width, height);
    Reach.ReachedTrans(s', a, b, qx, qy, c, d, width, height);
  }

  /** After the sets of wall w's two cells are merged and w's link is opened, any two cells of
      one set still reach each other: within their old set, or through the old set of one
      end of w, the link, and the old set of the other end. */
  lemma {:induction false} JoinReached(s: seq<Code>, s': seq<Code>, parent: map<int, int>, rank: map<int, nat>, bound: nat,
                                       parent': map<int, int>, rank': map<int, nat>, bound': nat, w: Wall, width: int, height: int)
    requires Forest(parent, rank, bound) && Forest(parent', rank', bound') && parent'.Keys == parent.Keys
    requires SetsReached(s, parent, rank, bound, width, height) && WallOk(w, width, height)
    requires At(s, w.0, w.1, width) == W && At(s, w.2, w.3, width) == W
    requires Idx(w.0, w.1, width) in parent && Idx(w.2, w.3, width) in parent
    requires forall j {:trigger RootOf(parent', rank', bound', j)} :: j in parent ==>
      RootOf(parent', rank', bound', j) == Relabel(RootOf(parent, rank, bound, j), RootOf(parent, rank, bound, Idx(w.0, w.1, width)), RootOf(parent, rank, bound, Idx(w.2, w.3, width)))
    requires CarvedPair(s, s', LinkOf(w).0, LinkOf(w).1, LinkOf(w).0, LinkOf(w).1, width, height)
    ensures SetsReached(s', parent', rank', bound', width, height)
  {
    var (lx, ly) := LinkOf(w);
    var r1, r2 := RootOf(parent, rank, bound, Idx(w.0, w.1, width)), RootOf(parent, rank, bound, Idx(w.2, w.3, width));
    LinkAddress(w, width, height);
    Reach.CarvedWidens(s, s', lx, ly, lx, ly, width, height);
    forall a, b, c, d | IsCell(a, b, width, height) && IsCell(c, d, width, height) &&
                        Idx(a, b, width) in parent' && Idx(c, d, width) in parent' &&
                        RootOf(parent', rank', bound', Idx(a, b, width)) == RootOf(parent', rank', bound', Idx(c, d, width))
      ensures Reach.Reached(s', a, b, c, d, width, height)
    {
      var ra, rc := RootOf(parent, rank, bound, Idx(a, b, width)), RootOf(parent, rank, bound, Idx(c, d, width));
      if ra == rc {
        Reach.ReachedWiden(s, s', a, b, c, d, width, height);
      } else if ra == r1 {
        Bridge(s, s', a, b, w.0, w.1, lx, ly, w.2, w.3, c, d, width, height);
      } else {
        Bridge(s, s', a, b, w.2, w.3, lx, ly, w.0, w.1, c, d, width, height);
      }
    }
  }

  /** Path compression changes no root, so the sets keep their reaches. */
  lemma KeepReached(s: seq<Code>, parent: map<int, int>, rank: map<int, nat>, bound: nat,
                    parent': map<int, int>, rank': map<int, nat>, bound': nat, r: int, width: int, height: int)
    requires Forest(parent, rank, bound) && Forest(parent', rank', bound') && parent'.Keys == parent.Keys
    requires SetsReached(s, parent, rank, bound, width, height)
    requires forall j {:trigger RootOf(parent', rank', bound', j)} :: j in parent ==>
      RootOf(parent', rank', bound', j) == Relabel(RootOf(parent, rank, bound, j), r, r)
    ensures SetsReached(s, parent', rank', bound', width, height)
  {
  }

  /** The two cells of wall entry w are keys of one set. */
  ghost predicate WallJoined(parent: map<int, int>, rank: map<int, nat>, bound: nat, w: Wall, width: int)
    requires Forest(parent, rank, bound)
  {
    && Idx(w.0, w.1, width) in parent && Idx(w.2, w.3, width) in parent
    && RootOf(parent, rank, bound, Idx(w.0, w.1, width)) == RootOf(parent, rank, bound, Idx(w.2, w.3, width))
  }

  /** After a union of the cells of walls[i], the entries before it stay joined and walls[i]
      is joined too. */
  lemma WallsJoinedStep(parent: map<int, int>, rank: map<int, nat>, bound: nat,
                        parent': map<int, int>, rank': map<int, nat>, bound': nat, walls: seq<Wall>, i: int, width: int)
    requires Forest(parent, rank, bound) && Forest(parent', rank', bound') && parent'.Keys == parent.Keys
    requires 0 <= i < |walls|
    requires Idx(walls[i].0, walls[i].1, width) in parent && Idx(walls[i].2, walls[i].3, width) in parent
    requires forall k :: 0 <= k < i ==> WallJoined(parent, rank, bound, walls[k], width)
    requires forall j {:trigger RootOf(parent', rank', bound', j)} :: j in parent ==>
      RootOf(parent', rank', bound', j) == Relabel(RootOf(parent, rank, bound, j),
        RootOf(parent, rank, bound, Idx(walls[i].0, walls[i].1, width)), RootOf(parent, rank, bound, Idx(walls[i].2, walls[i].3, width)))
    ensures forall k :: 0 <= k < i + 1 ==> WallJoined(parent', rank', bound', walls[k], width)
  {
    forall k | 0 <= k < i + 1
      ensures WallJoined(parent', rank', bound', walls[k], width)
    {
      if k < i {
        assert WallJoined(parent, rank, bound, walls[k], width);
      }
    }
  }

  /** The second loop of scripts/gen.js kruskalsAlgorithm: for each wall entry in order, unites
      the sets of its two cells and opens its link exactly when they were different sets. */
  method ConnectRegions(maze: array<Code>, sets: map<int, int>, ghost rank: map<int, nat>, ghost bound: nat,
                        walls: seq<Wall>, width: int, height: int)
    returns (ghost sets': map<int, int>, ghost rank': map<int, nat>, ghost bound': nat)
    requires maze.Length == Area(width, height)
    requires Connecting(maze[..], sets, rank, bound, sets.Keys, width, height)
    requires SetsReached(maze[..], sets, rank, bound, width, height)
    requires forall w :: w in walls ==> WallOk(w, width, height)
    modifies maze
    ensures Connecting(maze[..], sets', rank', bound', sets.Keys, width, height)
    ensures SetsReached(maze[..], sets', rank', bound', width, height)
    ensures forall w :: w in walls ==> WallJoined(sets', rank', bound', w, width)
  {
    var parent := sets;
    rank', bound' := rank, bound;
    var i := 0;
    while i < |walls|
      invariant 0 <= i <= |walls|
      invariant Connecting(maze[..], parent, rank', bound', sets.Keys, width, height)
      invariant SetsReached(maze[..], parent, rank', bound', width, height)
      invariant forall k :: 0 <= k < i ==> WallJoined(parent, rank', bound', walls[k], width)
    {
      var (x1, y1, x2, y2) := walls[i];
      assert WallOk(walls[i], width, height);
      assert IsCell(x1, y1, width, height) && IsCell(x2, y2, width, height);
      var cell1 := y1 * width + x1;
      var cell2 := y2 * width + x2;
      assert cell1 == Idx(x1, y1, width) && cell2 == Idx(x2, y2, width) by {
        IdxValue(x1, y1, width);
        IdxValue(x2, y2, width);
      }
      ghost var parent0, rank0, bound0 := parent, rank', bound';
      var merged;
      parent, rank', bound', merged := Union(parent, rank', bound', cell1, cell2);
      WallsJoinedStep(parent0, rank0, bound0, parent, rank', bound', walls, i, width);
      if merged {
        ghost var s: seq<Code> := maze[..];
        LinkAddress(walls[i], width, height);
        var (lx, ly) := LinkOf(walls[i]);
        Open(maze, lx, ly, lx, ly, width, height);
        JoinStep(s, maze[..], parent0, rank0, bound0, parent, rank', bound', sets.Keys, walls[i], width, height);
        JoinReached(s, maze[..], parent0, rank0, bound0, parent, rank', bound', walls[i], width, height);
      } else {
        KeepStep(maze[..], parent0, rank0, bound0, parent, rank', bound', sets.Keys, RootOf(parent0, rank0, bound0, cell1), width, height);
        KeepReached(maze[..], parent0, rank0, bound0, parent, rank', bound', RootOf(parent0, rank0, bound0, cell1), width, height);
      }
      i := i + 1;
    }
    sets' := parent;
    forall w | w in walls
      ensures WallJoined(sets', rank', bound', w, width)
    {
      var k :| 0 <= k < |walls| && walls[k] == w;
    }
  }

  // ---------------------------------------------------------------------------
  // One set at the end

  /** Every carvable cell is a key and shares its set with its east and south neighbours. */
  ghost predicate NeighboursJoined(parent: map<int, int>, rank: map<int, nat>, bound: nat, width: int, height: int)
    requires Forest(parent, rank, bound)
  {
    && (forall a, b :: IsCell(a, b, width, height) ==> Idx(a, b, width) in parent)
    && (forall a, b :: IsCell(a, b, width, height) && IsCell(a + 2, b, width, height) ==>
          RootOf(parent, rank, bound, Idx(a, b, width)) == RootOf(parent, rank, bound, Idx(a + 2, b, width)))
    && (forall a, b :: IsCell(a, b, width, height) && IsCell(a, b + 2, width, height) ==>
          RootOf(parent, rank, bound, Idx(a, b, width)) == RootOf(parent, rank, bound, Idx(a, b + 2, width)))
  }

  /** With the east and south entries of every laid cell joined, neighbouring cells are joined. */
  lemma EntriesJoinNeighbours(parent: map<int, int>, rank: map<int, nat>, bound: nat,
                              laid: seq<Wall>, walls: seq<Wall>, width: int, height: int)
    requires Forest(parent, rank, bound)
    requires LaidWalls(laid, 1, height, width, height) && multiset(walls) == multiset(laid)
    requires forall w :: w in walls ==> WallJoined(parent, rank, bound, w, width)
    requires forall a, b :: IsCell(a, b, width, height) ==> Idx(a, b, width) in parent
    ensures NeighboursJoined(parent, rank, bound, width, height)
  {
    forall a, b | IsCell(a, b, width, height) && IsCell(a + 2, b, width, height)
      ensures RootOf(parent, rank, bound, Idx(a, b, width)) == RootOf(parent, rank, bound, Idx(a + 2, b, width))
    {
      assert (a, b, a + 2, b) in multiset(laid);
      assert WallJoined(parent, rank, bound, (a, b, a + 2, b), width);
    }
    forall a, b | IsCell(a, b, width, height) && IsCell(a, b + 2, width, height)
      ensures RootOf(parent, rank, bound, Idx(a, b, width)) == RootOf(parent, rank, bound, Idx(a, b + 2, width))
    {
      assert (a, b, a, b + 2) in multiset(laid);
      assert WallJoined(parent, rank, bound, (a, b, a, b + 2), width);
    }
  }

  /** With neighbours joined, every carvable cell is in the set of cell (1, 1): walk from the
      cell towards (1, 1) one neighbour at a time. */
  lemma {:induction false} InFirstSet(parent: map<int, int>, rank: map<int, nat>, bound: nat, x: int, y: int, width: int, height: int)
    requires Forest(parent, rank, bound) && NeighboursJoined(parent, rank, bound, width, height)
    requires ValidDims(width, height) && IsCell(x, y, width, height)
    ensures Idx(1, 1, width) in parent && Idx(x, y, width) in parent
    ensures RootOf(parent, rank, bound, Idx(x, y, width)) == RootOf(parent, rank, bound, Idx(1, 1, width))
    decreases Distance(1, 1, x, y)
  {
    assert IsCell(1, 1, width, height);
    if (x, y) != (1, 1) {
      var dx, dy := StepTowards(1, 1, x, y, width, height);
      InFirstSet(parent, rank, bound, x + dx, y + dy, width, height);
      // Towards (1, 1) every step goes west or north.
      if dx == -2 {
        assert RootOf(parent, rank, bound, Idx(x - 2, y, width)) == RootOf(parent, rank, bound, Idx(x - 2 + 2, y, width));
      } else {
        assert dy == -2;
        assert RootOf(parent, rank, bound, Idx(x, y - 2, width)) == RootOf(parent, rank, bound, Idx(x, y - 2 + 2, width));
      }
    }
  }

  /** With neighbours joined and every key a carvable cell's address, one set is left. */
  lemma OneSet(parent: map<int, int>, rank: map<int, nat>, bound: nat, width: int, height: int)
    requires Forest(parent, rank, bound) && NeighboursJoined(parent, rank, bound, width, height)
    requires ValidDims(width, height)
    requires forall k :: k in parent ==> LaidKey(k, 1, height, width, height)
    ensures |Roots(parent)| == 1
  {
    InFirstSet(parent, rank, bound, 1, 1, width, height);
    var r := RootOf(parent, rank, bound, Idx(1, 1, width));
    forall k | k in Roots(parent)
      ensures k == r
    {
      var a, b :| IsCell(a, b, width, height) && Before(a, b, 1, height) && Idx(a, b, width) == k;
      InFirstSet(parent, rank, bound, a, b, width, height);
    }
    assert Roots(parent) == {r};
  }

  // ---------------------------------------------------------------------------
  // The generator

  /** scripts/gen.js kruskalsAlgorithm. Opens every carvable cell and exactly one link fewer
      than there are cells, each link joining two regions that were still apart, and every
      passage can be reached from cell (1, 1). The wall entries are visited in the order of a
      shuffle of the scan-order list. */
  method KruskalsAlgorithm(maze: array<Code>, width: int, height: int)
    requires ValidDims(width, height) && maze.Length == Area(width, height) && AllWall(maze[..])
    modifies maze
    ensures CarvedOnly(maze[..], width, height)
    ensures forall x, y :: IsCell(x, y, width, height) ==> At(maze[..], x, y, width) == W
    ensures GridCount(maze[..], Links, width, height, height) == TotalCells(width, height) - 1
    ensures Reach.Connected(maze[..], 1, 1, width, height)
  {
    var sets, walls := LayCells(maze, width, height);
    ghost var laid := walls;
    ConnectStart(maze[..], sets, walls, width, height);
    SetsReachedStart(maze[..], sets, width, height);
    AllOpenCount(maze[..], width, height);
    walls := Chance.Shuffle(walls);
    assert forall w :: w in walls ==> WallOk(w, width, height) by {
      forall w | w in walls
        ensures WallOk(w, width, height)
      {
        assert w in multiset(laid);
      }
    }
    ghost var sets', rank', bound' := ConnectRegions(maze, sets, ZeroRanks(sets), 1, walls, width, height);
    EntriesJoinNeighbours(sets', rank', bound', laid, walls, width, height);
    OneSet(sets', rank', bound', width, height);
    forall x, y | IsCell(x, y, width, height)
      ensures At(maze[..], x, y, width) == W && Reach.Reached(maze[..], 1, 1, x, y, width, height)
    {
      assert IsCell(1, 1, width, height);
      InFirstSet(sets', rank', bound', x, y, width, height);
    }
    Reach.CellsConnect(maze[..], 1, 1, width, height);
  }
}
