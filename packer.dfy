// The greedy packer of optimize_mosaic.py: for each catalog tile, in order,
// scan origins in raster order and commit the tile wherever every cell of
// its rectangle is unplaced and has the origin's colour.

module Packer {
  import opened Options
  import opened Catalog

  /** The colour grid, row by row: grid[y][x]. The packer only reads it. */
  type Grid = seq<seq<Option<int>>>

  predicate IsGrid(grid: Grid) {
    |grid| == N && forall y :: 0 <= y < N ==> |grid[y]| == N
  }

  /** Colour of cell (i, j), that is column i of row j; None off the grid. */
  function At(grid: Grid, i: int, j: int): Option<int> {
    if 0 <= j < |grid| && 0 <= i < |grid[j]| then grid[j][i] else None
  }

  /** Cell (i, j) lies in the w x h rectangle whose top-left cell is (x, y). */
  predicate InRect(i: int, j: int, x: int, y: int, w: int, h: int) {
    x <= i < x + w && y <= j < y + h
  }

  /** A non-empty rectangle that lies inside the grid. */
  predicate RectInGrid(x: int, y: int, w: int, h: int) {
    1 <= w && 1 <= h && 0 <= x && x + w <= N && 0 <= y && y + h <= N
  }

  /** Piece p covers cell (i, j). */
  predicate Covers(p: Piece, i: int, j: int) {
    InRect(i, j, OriginX(p), OriginZ(p), p.w, p.h)
  }

  /** Piece p shares at least one cell with the w x h rectangle at (x, y). */
  predicate Overlaps(p: Piece, x: int, y: int, w: int, h: int) {
    OriginX(p) < x + w && x < OriginX(p) + p.w && OriginZ(p) < y + h && y < OriginZ(p) + p.h
  }

  /** Every cell of the rectangle holds colour `color`. */
  ghost predicate Uniform(grid: Grid, x: int, y: int, w: int, h: int, color: int)
  {
    RectInGrid(x, y, w, h) &&
    forall i, j :: InRect(i, j, x, y, w, h) ==> At(grid, i, j) == Some(color)
  }

  /** The rectangle lies in the grid, its origin is set, and every cell has the origin's colour. */
  ghost predicate UniformFrom(grid: Grid, x: int, y: int, w: int, h: int)
  {
    RectInGrid(x, y, w, h) && At(grid, x, y).Some? && Uniform(grid, x, y, w, h, At(grid, x, y).value)
  }

  /** A piece as the packer emits it: a catalog shape with its rotation tag,
      centred on whole cells, inside the grid, over cells of its own colour. */
  ghost predicate WellPlaced(grid: Grid, p: Piece)
  {
    Tile(p.w, p.h, p.part) in Tiles &&
    p.rot == RotationFor(p.w, p.h) &&
    p.cx == Centre(OriginX(p), p.w) && p.cz == Centre(OriginZ(p), p.h) &&
    Uniform(grid, OriginX(p), OriginZ(p), p.w, p.h, p.color)
  }

  ghost predicate AllWellPlaced(grid: Grid, ps: seq<Piece>)
  {
    forall k :: 0 <= k < |ps| ==> WellPlaced(grid, ps[k])
  }

  /** No cell is covered by two pieces. */
  ghost predicate Disjoint(ps: seq<Piece>) {
    forall a, b, i, j :: 0 <= a < b < |ps| && Covers(ps[a], i, j) ==> !Covers(ps[b], i, j)
  }

  /** Every set cell is covered by some piece. */
  ghost predicate CoversSetCells(grid: Grid, ps: seq<Piece>)
  {
    forall i, j :: 0 <= i < N && 0 <= j < N && At(grid, i, j) != None ==>
      exists k :: 0 <= k < |ps| && Covers(ps[k], i, j)
  }

  /** No piece covers an empty cell. */
  ghost predicate EmptyStaysEmpty(grid: Grid, ps: seq<Piece>)
  {
    forall k, i, j :: 0 <= k < |ps| && 0 <= i < N && 0 <= j < N && At(grid, i, j) == None ==>
      !Covers(ps[k], i, j)
  }

  /** The set cells of the grid: the 1x1 baseline, one piece per set cell. */
  ghost function SetCells(grid: Grid): set<(int, int)>
  {
    set i, j | 0 <= i < N && 0 <= j < N && At(grid, i, j) != None :: (i, j)
  }

  /** Scan position (t, y', x') comes before (ti, y, x): pass first, then row, then column. */
  predicate Before(t: int, y': int, x': int, ti: int, y: int, x: int) {
    t < ti || (t == ti && (y' < y || (y' == y && x' < x)))
  }

  /** Piece p was emitted at scan position (t, y, x) or earlier. */
  predicate AtOrBefore(p: Piece, t: int, y: int, x: int) {
    !Before(t, y, x, PassOf(p), OriginZ(p), OriginX(p))
  }

  /** Greedy priority for one catalog tile at one origin: if the tile would fit
      there on a uniform rectangle, a piece emitted at that scan position or
      earlier claims part of the rectangle. */
  ghost predicate Settled(grid: Grid, ps: seq<Piece>, t: int, x: int, y: int)
    requires 0 <= t < |Tiles|
  {
    UniformFrom(grid, x, y, Tiles[t].w, Tiles[t].h) ==>
      exists k :: 0 <= k < |ps| && AtOrBefore(ps[k], t, y, x) && Overlaps(ps[k], x, y, Tiles[t].w, Tiles[t].h)
  }

  /** Every (tile, origin) the scan has visited before (ti, y, x) is settled. */
  ghost predicate SettledBefore(grid: Grid, ps: seq<Piece>, ti: int, y: int, x: int)
  {
    forall t, y', x' :: 0 <= t < |Tiles| && Before(t, y', x', ti, y, x) ==> Settled(grid, ps, t, x', y')
  }

  /** Piece p is emitted at an earlier scan position than piece q. */
  predicate ScanBefore(p: Piece, q: Piece) {
    Before(PassOf(p), OriginZ(p), OriginX(p), PassOf(q), OriginZ(q), OriginX(q))
  }

  /** The pieces appear in the order the scan visits their (tile, origin). */
  ghost predicate InScanOrder(ps: seq<Piece>) {
    forall a, b :: 0 <= a < b < |ps| ==> ScanBefore(ps[a], ps[b])
  }

  /** Every piece so far was emitted before scan position (ti, y, x). */
  ghost predicate EmittedBefore(ps: seq<Piece>, ti: int, y: int, x: int) {
    forall k :: 0 <= k < |ps| ==> Before(PassOf(ps[k]), OriginZ(ps[k]), OriginX(ps[k]), ti, y, x)
  }

  /** Emitted-before is monotone in the scan position. */
  lemma EmittedLater(ps: seq<Piece>, ti: int, y: int, x: int, ti': int, y': int, x': int)
    requires EmittedBefore(ps, ti, y, x)
    requires ti < ti' || (ti == ti' && (y < y' || (y == y' && x <= x')))
    ensures EmittedBefore(ps, ti', y', x')
  {
  }

  /** Appending the piece found at scan position (ti, y, x) keeps the scan order. */
  lemma OrderAppend(ps: seq<Piece>, p: Piece, ti: int, y: int, x: int)
    requires InScanOrder(ps) && EmittedBefore(ps, ti, y, x)
    requires PassOf(p) == ti && OriginZ(p) == y && OriginX(p) == x
    ensures InScanOrder(ps + [p]) && EmittedBefore(ps + [p], ti, y, x + 1)
  {
    var ps' := ps + [p];
    assert forall k :: 0 <= k < |ps| ==> ps'[k] == ps[k];
    assert ps'[|ps|] == p;
  }

  /** The packer's output contract after scanning the whole catalog. */
  ghost predicate GreedyPriority(grid: Grid, ps: seq<Piece>)
  {
    SettledBefore(grid, ps, |Tiles|, 0, 0)
  }

  // ---------------------------------------------------------------------
  // Bookkeeping of the scan: `owner` maps each placed cell to its piece.

  function RectCells(x: int, y: int, w: int, h: int): set<(int, int)> {
    set i, j | x <= i < x + w && y <= j < y + h :: (i, j)
  }

  lemma RectCellsMember(c: (int, int), x: int, y: int, w: int, h: int)
    ensures c in RectCells(x, y, w, h) <==> InRect(c.0, c.1, x, y, w, h)
  {
    if InRect(c.0, c.1, x, y, w, h) {
      assert c == (c.0, c.1);
    }
  }

  /** The owner map after committing piece number k over the rectangle. */
  function Claim(owner: map<(int, int), int>, x: int, y: int, w: int, h: int, k: int): (o: map<(int, int), int>)
    ensures forall c :: c in o <==> c in owner || InRect(c.0, c.1, x, y, w, h)
    ensures forall c :: c in o ==> o[c] == if InRect(c.0, c.1, x, y, w, h) then k else owner[c]
  {
    var cells := RectCells(x, y, w, h);
    forall c ensures c in cells <==> InRect(c.0, c.1, x, y, w, h) {
      RectCellsMember(c, x, y, w, h);
    }
    map c | c in owner.Keys + cells :: if InRect(c.0, c.1, x, y, w, h) then k else owner[c]
  }

  /** What the scan keeps true of the pieces emitted so far, during pass ti. */
  ghost predicate PackInv(grid: Grid, ps: seq<Piece>, owner: map<(int, int), int>, ti: int)
  {
    (forall k :: 0 <= k < |ps| ==> WellPlaced(grid, ps[k]) && PassOf(ps[k]) <= ti) &&
    Disjoint(ps) &&
    OwnerSound(ps, owner) && OwnerComplete(ps, owner)
  }

  /** The placed mask marks exactly the owned cells. */
  ghost predicate Mirrors(placed: array2<bool>, owner: map<(int, int), int>)
    reads placed
    requires placed.Length0 == N && placed.Length1 == N
  {
    forall i, j :: 0 <= i < N && 0 <= j < N ==> (placed[j, i] <==> (i, j) in owner)
  }

  lemma SubsetCard<T>(a: set<T>, b: set<T>)
    requires a <= b
    ensures |a| <= |b|
  {
    assert b == a + (b - a);
    assert a * (b - a) == {};
  }

  /** Appending a piece keeps every earlier settled origin settled. */
  lemma SettledGrows(grid: Grid, ps: seq<Piece>, p: Piece, ti: int, y: int, x: int)
    requires IsGrid(grid)
    requires SettledBefore(grid, ps, ti, y, x)
    ensures SettledBefore(grid, ps + [p], ti, y, x)
  {
    var ps' := ps + [p];
    forall t, y', x' | 0 <= t < |Tiles| && Before(t, y', x', ti, y, x)
      ensures Settled(grid, ps', t, x', y')
    {
      assert Settled(grid, ps, t, x', y');
      if UniformFrom(grid, x', y', Tiles[t].w, Tiles[t].h) {
        var k :| 0 <= k < |ps| && AtOrBefore(ps[k], t, y', x') && Overlaps(ps[k], x', y', Tiles[t].w, Tiles[t].h);
        assert ps'[k] == ps[k];
      }
    }
  }

  /** The piece committed at a uniform rectangle is well placed, and placed by pass ti. */
  lemma CommitWellPlaced(grid: Grid, ps: seq<Piece>, ti: int, x: int, y: int, color: int)
    requires IsGrid(grid) && 0 <= ti < |Tiles|
    requires forall k :: 0 <= k < |ps| ==> WellPlaced(grid, ps[k]) && PassOf(ps[k]) <= ti
    requires Uniform(grid, x, y, Tiles[ti].w, Tiles[ti].h, color)
    ensures var ps' := ps + [MakePiece(color, x, y, Tiles[ti])];
            forall k :: 0 <= k < |ps'| ==> WellPlaced(grid, ps'[k]) && PassOf(ps'[k]) <= ti
  {
    var t := Tiles[ti];
    var p := MakePiece(color, x, y, t);
    var ps' := ps + [p];
    PassOfTile(ti, color, x, y);
    assert t in Tiles;
    assert WellPlaced(grid, p);
    forall k | 0 <= k < |ps'| ensures WellPlaced(grid, ps'[k]) && PassOf(ps'[k]) <= ti {
      if k < |ps| { assert ps'[k] == ps[k]; }
    }
  }

  /** A piece over unowned cells overlaps none of the pieces before it. */
  lemma CommitDisjoint(ps: seq<Piece>, owner: map<(int, int), int>, p: Piece)
    requires Disjoint(ps) && OwnerComplete(ps, owner)
    requires forall i, j :: Covers(p, i, j) ==> (i, j) !in owner
    ensures Disjoint(ps + [p])
  {
    var ps' := ps + [p];
    forall a, b, i, j | 0 <= a < b < |ps'| && Covers(ps'[a], i, j) ensures !Covers(ps'[b], i, j) {
      assert ps'[a] == ps[a];
      if b < |ps| { assert ps'[b] == ps[b]; }
      else { assert (i, j) in owner; }
    }
  }

  /** Every owned cell is covered by the piece that owns it. */
  ghost predicate OwnerSound(ps: seq<Piece>, owner: map<(int, int), int>) {
    forall c :: c in owner ==> 0 <= owner[c] < |ps| && Covers(ps[owner[c]], c.0, c.1)
  }

  /** Every covered cell is owned. */
  ghost predicate OwnerComplete(ps: seq<Piece>, owner: map<(int, int), int>) {
    forall k, i, j :: 0 <= k < |ps| && Covers(ps[k], i, j) ==> (i, j) in owner
  }

  lemma ClaimSound(ps: seq<Piece>, owner: map<(int, int), int>, p: Piece)
    requires OwnerSound(ps, owner)
    ensures OwnerSound(ps + [p], Claim(owner, OriginX(p), OriginZ(p), p.w, p.h, |ps|))
  {
    var ps' := ps + [p];
    var owner' := Claim(owner, OriginX(p), OriginZ(p), p.w, p.h, |ps|);
    forall c | c in owner' ensures 0 <= owner'[c] < |ps'| && Covers(ps'[owner'[c]], c.0, c.1) {
      if !InRect(c.0, c.1, OriginX(p), OriginZ(p), p.w, p.h) {
        assert ps'[owner[c]] == ps[owner[c]];
      }
    }
  }

  lemma ClaimComplete(ps: seq<Piece>, owner: map<(int, int), int>, p: Piece)
    requires OwnerComplete(ps, owner)
    ensures OwnerComplete(ps + [p], Claim(owner, OriginX(p), OriginZ(p), p.w, p.h, |ps|))
  {
    var ps' := ps + [p];
    var owner' := Claim(owner, OriginX(p), OriginZ(p), p.w, p.h, |ps|);
    forall k, i, j | 0 <= k < |ps'| && Covers(ps'[k], i, j) ensures (i, j) in owner' {
      if k < |ps| { assert ps'[k] == ps[k]; }
    }
  }

  /** Claiming the rectangle for the new piece keeps the owner map exact. */
  lemma CommitOwner(grid: Grid, ps: seq<Piece>, owner: map<(int, int), int>, ti: int, x: int, y: int, color: int)
    requires IsGrid(grid) && 0 <= ti < |Tiles|
    requires PackInv(grid, ps, owner, ti)
    requires RectInGrid(x, y, Tiles[ti].w, Tiles[ti].h)
    requires forall i, j :: InRect(i, j, x, y, Tiles[ti].w, Tiles[ti].h) ==> (i, j) !in owner
    ensures var ps' := ps + [MakePiece(color, x, y, Tiles[ti])];
            var owner' := Claim(owner, x, y, Tiles[ti].w, Tiles[ti].h, |ps|);
            OwnerSound(ps', owner') && OwnerComplete(ps', owner')
  {
    var t := Tiles[ti];
    var p := MakePiece(color, x, y, t);
    ClaimSound(ps, owner, p);
    ClaimComplete(ps, owner, p);
  }

  /** Committing tile ti at a free uniform rectangle keeps the invariant and settles that origin. */
  lemma Commit(grid: Grid, ps: seq<Piece>, owner: map<(int, int), int>, ti: int, x: int, y: int, color: int)
    requires IsGrid(grid) && 0 <= ti < |Tiles|
    requires PackInv(grid, ps, owner, ti) && SettledBefore(grid, ps, ti, y, x)
    requires Uniform(grid, x, y, Tiles[ti].w, Tiles[ti].h, color)
    requires forall i, j :: InRect(i, j, x, y, Tiles[ti].w, Tiles[ti].h) ==> (i, j) !in owner
    ensures var p := MakePiece(color, x, y, Tiles[ti]);
            PackInv(grid, ps + [p], Claim(owner, x, y, Tiles[ti].w, Tiles[ti].h, |ps|), ti) &&
            SettledBefore(grid, ps + [p], ti, y, x + 1)
  {
    var t := Tiles[ti];
    var p := MakePiece(color, x, y, t);
    CommitWellPlaced(grid, ps, ti, x, y, color);
    CommitDisjoint(ps, owner, p);
    CommitOwner(grid, ps, owner, ti, x, y, color);
    SettledGrows(grid, ps, p, ti, y, x);
    assert Overlaps((ps + [p])[|ps|], x, y, t.w, t.h);
  }

  /** Skipping an origin whose rectangle is not free and uniform also settles it. */
  lemma Skip(grid: Grid, ps: seq<Piece>, owner: map<(int, int), int>, ti: int, x: int, y: int)
    requires IsGrid(grid) && 0 <= ti < |Tiles|
    requires PackInv(grid, ps, owner, ti) && SettledBefore(grid, ps, ti, y, x) && EmittedBefore(ps, ti, y, x)
    requires UniformFrom(grid, x, y, Tiles[ti].w, Tiles[ti].h) ==>
               exists i, j :: InRect(i, j, x, y, Tiles[ti].w, Tiles[ti].h) && (i, j) in owner
    ensures SettledBefore(grid, ps, ti, y, x + 1)
  {
    var t := Tiles[ti];
    if UniformFrom(grid, x, y, t.w, t.h) {
      var i, j :| InRect(i, j, x, y, t.w, t.h) && (i, j) in owner;
      var k := owner[(i, j)];
      assert Covers(ps[k], i, j);
      assert Overlaps(ps[k], x, y, t.w, t.h);
    }
  }

  /** Finishing a row of origins moves the scan to the next row. */
  lemma RowDone(grid: Grid, ps: seq<Piece>, ti: int, y: int)
    requires IsGrid(grid) && 0 <= ti < |Tiles|
    requires SettledBefore(grid, ps, ti, y, N - Tiles[ti].w + 1)
    ensures SettledBefore(grid, ps, ti, y + 1, 0)
  {
    forall t, y', x' | 0 <= t < |Tiles| && Before(t, y', x', ti, y + 1, 0)
      ensures Settled(grid, ps, t, x', y')
    {
      if !Before(t, y', x', ti, y, N - Tiles[ti].w + 1) {
        assert !RectInGrid(x', y', Tiles[t].w, Tiles[t].h);
      }
    }
  }

  /** Finishing every row of a pass moves the scan to the next tile. */
  lemma PassDone(grid: Grid, ps: seq<Piece>, ti: int)
    requires IsGrid(grid) && 0 <= ti < |Tiles|
    requires SettledBefore(grid, ps, ti, N - Tiles[ti].h + 1, 0)
    ensures SettledBefore(grid, ps, ti + 1, 0, 0)
  {
    forall t, y', x' | 0 <= t < |Tiles| && Before(t, y', x', ti + 1, 0, 0)
      ensures Settled(grid, ps, t, x', y')
    {
      if !Before(t, y', x', ti, N - Tiles[ti].h + 1, 0) {
        assert !RectInGrid(x', y', Tiles[t].w, Tiles[t].h);
      }
    }
  }

  /** Because the catalog ends with the 1x1 tile, greedy priority implies full coverage. */
  lemma {:induction false} PriorityCovers(grid: Grid, ps: seq<Piece>)
    requires IsGrid(grid) && GreedyPriority(grid, ps)
    ensures CoversSetCells(grid, ps)
  {
    forall i, j | 0 <= i < N && 0 <= j < N && At(grid, i, j) != None
      ensures exists k :: 0 <= k < |ps| && Covers(ps[k], i, j)
    {
      assert Before(3, j, i, |Tiles|, 0, 0);
      assert Settled(grid, ps, 3, i, j);
      assert UniformFrom(grid, i, j, 1, 1);
      var k :| 0 <= k < |ps| && AtOrBefore(ps[k], 3, j, i) && Overlaps(ps[k], i, j, 1, 1);
      assert Covers(ps[k], i, j);
    }
  }

  /** Pieces lie on cells of their own colour, so none covers an empty cell. */
  lemma {:induction false} WellPlacedAvoidsEmpty(grid: Grid, ps: seq<Piece>)
    requires IsGrid(grid) && AllWellPlaced(grid, ps)
    ensures EmptyStaysEmpty(grid, ps)
  {
    forall k, i, j | 0 <= k < |ps| && 0 <= i < N && 0 <= j < N && At(grid, i, j) == None
      ensures !Covers(ps[k], i, j)
    {
      assert WellPlaced(grid, ps[k]);
    }
  }

  // ---------------------------------------------------------------------
  // The scan invariant fixes the list: at each scan position exactly one
  // list of pieces meets it, so the packer's output is determined.

  /** The pieces are what a scan can have emitted before position (ti, y, x). */
  ghost predicate ScannedTo(grid: Grid, ps: seq<Piece>, ti: int, y: int, x: int) {
    AllWellPlaced(grid, ps) && Disjoint(ps) && InScanOrder(ps) &&
    SettledBefore(grid, ps, ti, y, x) && EmittedBefore(ps, ti, y, x)
  }

  /** Two well-placed pieces emitted at the same scan position are the same piece. */
  lemma SameSlot(grid: Grid, p: Piece, q: Piece)
    requires WellPlaced(grid, p) && WellPlaced(grid, q)
    requires !ScanBefore(p, q) && !ScanBefore(q, p)
    ensures p == q
  {
    PassIndex(p);
    PassIndex(q);
    assert InRect(OriginX(p), OriginZ(p), OriginX(p), OriginZ(p), p.w, p.h);
    assert InRect(OriginX(q), OriginZ(q), OriginX(q), OriginZ(q), q.w, q.h);
  }

  /** A well-placed piece p emitted before (ti, y, x) shares a cell with a
      piece of qs emitted no later than p. */
  lemma Claimant(grid: Grid, qs: seq<Piece>, p: Piece, ti: int, y: int, x: int) returns (j: int, ci: int, cj: int)
    requires AllWellPlaced(grid, qs) && SettledBefore(grid, qs, ti, y, x)
    requires WellPlaced(grid, p) && Before(PassOf(p), OriginZ(p), OriginX(p), ti, y, x)
    ensures 0 <= j < |qs| && AtOrBefore(qs[j], PassOf(p), OriginZ(p), OriginX(p))
    ensures Covers(qs[j], ci, cj) && Covers(p, ci, cj)
  {
    PassIndex(p);
    var t, ox, oz := PassOf(p), OriginX(p), OriginZ(p);
    assert InRect(ox, oz, ox, oz, p.w, p.h);
    assert UniformFrom(grid, ox, oz, Tiles[t].w, Tiles[t].h);
    assert Settled(grid, qs, t, ox, oz);
    j :| 0 <= j < |qs| && AtOrBefore(qs[j], t, oz, ox) && Overlaps(qs[j], ox, oz, p.w, p.h);
    assert WellPlaced(grid, qs[j]);
    ci := if OriginX(qs[j]) < ox then ox else OriginX(qs[j]);
    cj := if OriginZ(qs[j]) < oz then oz else OriginZ(qs[j]);
  }

  /** When two such lists agree before index n, the n-th piece of ps has a
      counterpart in qs that is emitted no later. */
  lemma Reaches(grid: Grid, ps: seq<Piece>, qs: seq<Piece>, ti: int, y: int, x: int, n: int)
    requires ScannedTo(grid, ps, ti, y, x) && ScannedTo(grid, qs, ti, y, x)
    requires 0 <= n < |ps| && n <= |qs| && forall k :: 0 <= k < n ==> qs[k] == ps[k]
    ensures n < |qs| && !ScanBefore(ps[n], qs[n])
  {
    var p := ps[n];
    assert WellPlaced(grid, p);
    var j, ci, cj := Claimant(grid, qs, p, ti, y, x);
    // qs[j] cannot be one of the shared pieces: those lie before p in ps and do not overlap it
    assert forall k :: 0 <= k < n ==> !Covers(ps[k], ci, cj);
    assert n <= j;
    if j != n {
      assert ScanBefore(qs[n], qs[j]);
    }
  }

  lemma NextAgrees(grid: Grid, ps: seq<Piece>, qs: seq<Piece>, ti: int, y: int, x: int, n: int)
    requires ScannedTo(grid, ps, ti, y, x) && ScannedTo(grid, qs, ti, y, x)
    requires 0 <= n < |ps| && n <= |qs| && forall k :: 0 <= k < n ==> qs[k] == ps[k]
    ensures n < |qs| && qs[n] == ps[n]
  {
    Reaches(grid, ps, qs, ti, y, x, n);
    Reaches(grid, qs, ps, ti, y, x, n);
    SameSlot(grid, ps[n], qs[n]);
  }

  lemma {:induction false} AgreeUpTo(grid: Grid, ps: seq<Piece>, qs: seq<Piece>, ti: int, y: int, x: int, n: nat)
    requires ScannedTo(grid, ps, ti, y, x) && ScannedTo(grid, qs, ti, y, x)
    requires n <= |ps|
    ensures n <= |qs| && forall k :: 0 <= k < n ==> qs[k] == ps[k]
    decreases n
  {
    if n > 0 {
      AgreeUpTo(grid, ps, qs, ti, y, x, n - 1);
      NextAgrees(grid, ps, qs, ti, y, x, n - 1);
    }
  }

  /** At every scan position one list only meets the scan invariant. */
  lemma ScanUnique(grid: Grid, ps: seq<Piece>, qs: seq<Piece>, ti: int, y: int, x: int)
    requires ScannedTo(grid, ps, ti, y, x) && ScannedTo(grid, qs, ti, y, x)
    ensures ps == qs
  {
    AgreeUpTo(grid, ps, qs, ti, y, x, |ps|);
    AgreeUpTo(grid, qs, ps, ti, y, x, |qs|);
  }

  /** The scan invariant at a position fixes the piece list, whatever the owner maps. */
  lemma ScanInvUnique(grid: Grid, ps: seq<Piece>, qs: seq<Piece>, owner: map<(int, int), int>,
                      owner': map<(int, int), int>, ti: int, y: int, x: int)
    requires ScanInv(grid, ps, owner, ti, y, x) && ScanInv(grid, qs, owner', ti, y, x)
    ensures ps == qs
  {
    ScanUnique(grid, ps, qs, ti, y, x);
  }

  /** The packer's postcondition admits exactly one piece list per grid. */
  lemma GreedyUnique(grid: Grid, ps: seq<Piece>, qs: seq<Piece>)
    requires AllWellPlaced(grid, ps) && Disjoint(ps) && InScanOrder(ps) && GreedyPriority(grid, ps)
    requires AllWellPlaced(grid, qs) && Disjoint(qs) && InScanOrder(qs) && GreedyPriority(grid, qs)
    ensures ps == qs
  {
    ScanUnique(grid, ps, qs, |Tiles|, 0, 0);
  }

  // ---------------------------------------------------------------------
  // Compaction: the pieces tile the set cells exactly.

  /** Number of cells a piece covers. */
  function Area(p: Piece): int {
    p.w * p.h
  }

  function AreaSum(ps: seq<Piece>): int
    decreases |ps|
  {
    if ps == [] then 0 else AreaSum(ps[..|ps| - 1]) + Area(ps[|ps| - 1])
  }

  /** The cells the pieces cover. */
  function Covered(ps: seq<Piece>): set<(int, int)>
    decreases |ps|
  {
    if ps == [] then {}
    else
      var p := ps[|ps| - 1];
      Covered(ps[..|ps| - 1]) + RectCells(OriginX(p), OriginZ(p), p.w, p.h)
  }

  lemma {:induction false} CoveredMember(ps: seq<Piece>, c: (int, int))
    ensures c in Covered(ps) <==> exists k :: 0 <= k < |ps| && Covers(ps[k], c.0, c.1)
    decreases |ps|
  {
    if ps != [] {
      var n := |ps| - 1;
      var pre := ps[..n];
      CoveredMember(pre, c);
      RectCellsMember(c, OriginX(ps[n]), OriginZ(ps[n]), ps[n].w, ps[n].h);
      assert forall k :: 0 <= k < n ==> pre[k] == ps[k];
    }
  }

  /** A catalog shape has area 1 exactly when it is the 1x1 tile, and more otherwise. */
  lemma CatalogArea(p: Piece)
    requires Tile(p.w, p.h, p.part) in Tiles
    ensures if p.w == 1 && p.h == 1 then Area(p) == 1 else Area(p) >= 2
    ensures |RectCells(OriginX(p), OriginZ(p), p.w, p.h)| == Area(p)
  {
    var x, y := OriginX(p), OriginZ(p);
    if p.w == 1 && p.h == 1 {
      assert RectCells(x, y, 1, 1) == {(x, y)};
    } else if p.w == 2 && p.h == 1 {
      assert RectCells(x, y, 2, 1) == {(x, y), (x + 1, y)};
    } else if p.w == 1 {
      assert RectCells(x, y, 1, 2) == {(x, y), (x, y + 1)};
    } else {
      assert RectCells(x, y, 2, 2) == {(x, y), (x + 1, y), (x, y + 1), (x + 1, y + 1)};
    }
  }

  /** Disjoint pieces cover as many cells as their areas add up to. */
  lemma {:induction false} CoveredCard(grid: Grid, ps: seq<Piece>)
    requires AllWellPlaced(grid, ps) && Disjoint(ps)
    ensures |Covered(ps)| == AreaSum(ps)
    decreases |ps|
  {
    if ps != [] {
      var n := |ps| - 1;
      var pre := ps[..n];
      var p := ps[n];
      assert forall k :: 0 <= k < n ==> pre[k] == ps[k];
      CoveredCard(grid, pre);
      assert WellPlaced(grid, p);
      CatalogArea(p);
      var r := RectCells(OriginX(p), OriginZ(p), p.w, p.h);
      forall c | c in r ensures c !in Covered(pre) {
        CoveredMember(pre, c);
        RectCellsMember(c, OriginX(p), OriginZ(p), p.w, p.h);
      }
      assert Covered(pre) * r == {};
    }
  }

  /** Every piece has area at least 1, and the areas add up to the piece count
      exactly when every piece is 1x1. */
  lemma {:induction false} AreaAtLeast(grid: Grid, ps: seq<Piece>)
    requires AllWellPlaced(grid, ps)
    ensures AreaSum(ps) >= |ps|
    ensures AreaSum(ps) == |ps| <==> forall k :: 0 <= k < |ps| ==> ps[k].w == 1 && ps[k].h == 1
    decreases |ps|
  {
    if ps != [] {
      var n := |ps| - 1;
      var pre := ps[..n];
      assert forall k :: 0 <= k < n ==> pre[k] == ps[k];
      assert WellPlaced(grid, ps[n]);
      CatalogArea(ps[n]);
      AreaAtLeast(grid, pre);
    }
  }

  /** The covered cells are exactly the set cells. */
  lemma CoveredIsSetCells(grid: Grid, ps: seq<Piece>)
    requires AllWellPlaced(grid, ps) && CoversSetCells(grid, ps)
    ensures Covered(ps) == SetCells(grid)
  {
    forall c ensures c in Covered(ps) <==> c in SetCells(grid) {
      CoveredMember(ps, c);
      if c in Covered(ps) {
        var k :| 0 <= k < |ps| && Covers(ps[k], c.0, c.1);
        assert WellPlaced(grid, ps[k]);
        assert c == (c.0, c.1);
      }
    }
  }

  /** A larger tile that fits anywhere makes the packing strictly smaller than
      the 1x1 baseline. */
  lemma LargerFitShrinks(grid: Grid, ps: seq<Piece>, t: int, x: int, y: int)
    requires AllWellPlaced(grid, ps) && Disjoint(ps) && CoversSetCells(grid, ps) && GreedyPriority(grid, ps)
    requires 0 <= t < |Tiles| - 1 && UniformFrom(grid, x, y, Tiles[t].w, Tiles[t].h)
    ensures |ps| < |SetCells(grid)|
  {
    CoveredCard(grid, ps);
    CoveredIsSetCells(grid, ps);
    AreaAtLeast(grid, ps);
    assert Before(t, y, x, |Tiles|, 0, 0);
    assert Settled(grid, ps, t, x, y);
    var k :| 0 <= k < |ps| && AtOrBefore(ps[k], t, y, x) && Overlaps(ps[k], x, y, Tiles[t].w, Tiles[t].h);
    assert !(ps[k].w == 1 && ps[k].h == 1);
  }

  /** When no larger tile fits anywhere on one colour, every piece is 1x1. */
  lemma NoLargerFitUnit(grid: Grid, ps: seq<Piece>)
    requires AllWellPlaced(grid, ps)
    requires forall t, x, y :: 0 <= t < |Tiles| - 1 ==> !UniformFrom(grid, x, y, Tiles[t].w, Tiles[t].h)
    ensures forall k :: 0 <= k < |ps| ==> ps[k].w == 1 && ps[k].h == 1
  {
    forall k | 0 <= k < |ps| ensures ps[k].w == 1 && ps[k].h == 1 {
      var p := ps[k];
      assert WellPlaced(grid, p);
      PassIndex(p);
      assert InRect(OriginX(p), OriginZ(p), OriginX(p), OriginZ(p), p.w, p.h);
      assert UniformFrom(grid, OriginX(p), OriginZ(p), Tiles[PassOf(p)].w, Tiles[PassOf(p)].h);
    }
  }

  /** The packing uses as many pieces as there are set cells exactly when no
      larger tile fits anywhere on one colour, and fewer otherwise. */
  lemma Compaction(grid: Grid, ps: seq<Piece>)
    requires AllWellPlaced(grid, ps) && Disjoint(ps) && CoversSetCells(grid, ps) && GreedyPriority(grid, ps)
    ensures |ps| <= |SetCells(grid)|
    ensures |ps| == |SetCells(grid)| <==>
              forall t, x, y :: 0 <= t < |Tiles| - 1 ==> !UniformFrom(grid, x, y, Tiles[t].w, Tiles[t].h)
  {
    CoveredCard(grid, ps);
    CoveredIsSetCells(grid, ps);
    AreaAtLeast(grid, ps);
    forall t, x, y | 0 <= t < |Tiles| - 1 && UniformFrom(grid, x, y, Tiles[t].w, Tiles[t].h)
      ensures |ps| < |SetCells(grid)|
    {
      LargerFitShrinks(grid, ps, t, x, y);
    }
    if forall t, x, y :: 0 <= t < |Tiles| - 1 ==> !UniformFrom(grid, x, y, Tiles[t].w, Tiles[t].h) {
      NoLargerFitUnit(grid, ps);
    }
  }

  function Block(m: int, n: int): set<(int, int)> {
    set i, j | 0 <= i < m && 0 <= j < n :: (i, j)
  }

  function Row(m: int, j: int): set<(int, int)> {
    set i | 0 <= i < m :: (i, j)
  }

  lemma {:induction false} RowCard(m: nat, j: int)
    ensures |Row(m, j)| == m
  {
    if m > 0 {
      assert Row(m, j) == Row(m - 1, j) + {(m - 1, j)};
      RowCard(m - 1, j);
    }
  }

  lemma BlockSplit(m: int, n: int)
    requires n > 0
    ensures Block(m, n) == Block(m, n - 1) + Row(m, n - 1)
    ensures Block(m, n - 1) * Row(m, n - 1) == {}
  {
    forall c ensures c in Block(m, n) <==> c in Block(m, n - 1) + Row(m, n - 1) {
      if c in Block(m, n) && c.1 == n - 1 {
        assert c == (c.0, n - 1);
      }
    }
  }

  lemma {:induction false} BlockCard(m: nat, n: nat)
    ensures |Block(m, n)| == m * n
  {
    if n > 0 {
      BlockSplit(m, n);
      BlockCard(m, n - 1);
      RowCard(m, n - 1);
      assert m * n == m * (n - 1) + m;
    }
  }

  /** There are at most N * N = 1024 set cells: the packer's "down from" baseline. */
  lemma SetCellsAtMost(grid: Grid)
    requires IsGrid(grid)
    ensures |SetCells(grid)| <= N * N
  {
    BlockCard(N, N);
    SubsetCard(SetCells(grid), Block(N, N));
  }

  // ---------------------------------------------------------------------
  // The packer.

  /** No cell of the rectangle is marked in the placed mask. */
  ghost predicate Free(placed: array2<bool>, x: int, y: int, w: int, h: int)
    reads placed
    requires placed.Length0 == N && placed.Length1 == N && RectInGrid(x, y, w, h)
  {
    forall i, j :: InRect(i, j, x, y, w, h) ==> !placed[j, i]
  }

  /** The `can_place` loop: every cell of the rectangle is unplaced and has colour `color`. */
  method CanPlace(grid: Grid, placed: array2<bool>, x: int, y: int, w: int, h: int, color: int)
    returns (ok: bool)
    requires IsGrid(grid) && placed.Length0 == N && placed.Length1 == N
    requires RectInGrid(x, y, w, h)
    ensures ok <==> Free(placed, x, y, w, h) && Uniform(grid, x, y, w, h, color)
  {
    ok := true;
    var dy := 0;
    while dy < h
      invariant 0 <= dy <= h && ok
      invariant forall i, j :: InRect(i, j, x, y, w, dy) ==> !placed[j, i] && At(grid, i, j) == Some(color)
    {
      var dx := 0;
      while dx < w
        invariant 0 <= dx <= w && ok
        invariant forall i, j :: InRect(i, j, x, y, w, dy) || InRect(i, j, x, y + dy, dx, 1) ==>
                    !placed[j, i] && At(grid, i, j) == Some(color)
      {
        if placed[y + dy, x + dx] || grid[y + dy][x + dx] != Some(color) {
          assert InRect(x + dx, y + dy, x, y, w, h) && At(grid, x + dx, y + dy) == grid[y + dy][x + dx];
          ok := false;
          break;
        }
        dx := dx + 1;
      }
      if !ok {
        break;
      }
      dy := dy + 1;
    }
  }

  /** The marking loop: sets `placed` over the rectangle and nowhere else. */
  method Mark(placed: array2<bool>, x: int, y: int, w: int, h: int)
    requires placed.Length0 == N && placed.Length1 == N
    requires RectInGrid(x, y, w, h)
    modifies placed
    ensures forall i, j :: 0 <= i < N && 0 <= j < N ==>
              placed[j, i] == (old(placed[j, i]) || InRect(i, j, x, y, w, h))
  {
    for dy := 0 to h
      invariant forall i, j :: 0 <= i < N && 0 <= j < N ==>
                  placed[j, i] == (old(placed[j, i]) || InRect(i, j, x, y, w, dy))
    {
      for dx := 0 to w
        invariant forall i, j :: 0 <= i < N && 0 <= j < N ==>
                    placed[j, i] == (old(placed[j, i]) || InRect(i, j, x, y, w, dy) || InRect(i, j, x, y + dy, dx, 1))
      {
        placed[y + dy, x + dx] := true;
      }
    }
  }

  /** What holds at each scan position (ti, y, x): the emitted pieces and the
      owner map agree, every earlier position is settled, and the pieces are
      in scan order.  Together with Mirrors it is the invariant of the scan. */
  ghost predicate ScanInv(grid: Grid, ps: seq<Piece>, owner: map<(int, int), int>, ti: int, y: int, x: int)
  {
    PackInv(grid, ps, owner, ti) &&
    SettledBefore(grid, ps, ti, y, x) && InScanOrder(ps) && EmittedBefore(ps, ti, y, x)
  }

  /** One origin of the scan (the body of the `x` loop): skip an empty origin,
      otherwise run `can_place` and, when it holds, mark the rectangle and
      append the piece. */
  method ScanOrigin(grid: Grid, placed: array2<bool>, pieces: seq<Piece>, ghost owner: map<(int, int), int>,
                    ti: int, x: int, y: int)
    returns (pieces': seq<Piece>, ghost owner': map<(int, int), int>)
    requires IsGrid(grid) && placed.Length0 == N && placed.Length1 == N
    requires 0 <= ti < |Tiles| && RectInGrid(x, y, Tiles[ti].w, Tiles[ti].h)
    requires ScanInv(grid, pieces, owner, ti, y, x) && Mirrors(placed, owner)
    modifies placed
    ensures ScanInv(grid, pieces', owner', ti, y, x + 1) && Mirrors(placed, owner')
    ensures var c := At(grid, x, y);
            if c.Some? && Uniform(grid, x, y, Tiles[ti].w, Tiles[ti].h, c.value) &&
               old(Free(placed, x, y, Tiles[ti].w, Tiles[ti].h))
            then pieces' == pieces + [MakePiece(c.value, x, y, Tiles[ti])]
            else pieces' == pieces && unchanged(placed)
  {
    var tile := Tiles[ti];
    pieces', owner' := pieces, owner;
    var cell := grid[y][x];
    if cell.None? {
      assert ScanInv(grid, pieces, owner, ti, y, x + 1) by {
        Skip(grid, pieces, owner, ti, x, y);
        EmittedLater(pieces, ti, y, x, ti, y, x + 1);
      }
      return;
    }
    var color := cell.value;
    var canPlace := CanPlace(grid, placed, x, y, tile.w, tile.h, color);
    if !canPlace {
      assert ScanInv(grid, pieces, owner, ti, y, x + 1) by {
        BlockedOwned(placed, owner, x, y, tile.w, tile.h);
        Skip(grid, pieces, owner, ti, x, y);
        EmittedLater(pieces, ti, y, x, ti, y, x + 1);
      }
      return;
    }
    FreeUnowned(placed, owner, x, y, tile.w, tile.h);
    pieces', owner' := Place(grid, placed, pieces, owner, ti, x, y, color);
  }

  /** A rectangle with a marked cell has an owned cell. */
  lemma BlockedOwned(placed: array2<bool>, owner: map<(int, int), int>, x: int, y: int, w: int, h: int)
    requires placed.Length0 == N && placed.Length1 == N && RectInGrid(x, y, w, h)
    requires Mirrors(placed, owner)
    ensures !Free(placed, x, y, w, h) ==> exists i, j :: InRect(i, j, x, y, w, h) && (i, j) in owner
  {
    if !Free(placed, x, y, w, h) {
      var i, j :| InRect(i, j, x, y, w, h) && placed[j, i];
      assert (i, j) in owner;
    }
  }

  /** A rectangle free in the mask has no owned cell. */
  lemma FreeUnowned(placed: array2<bool>, owner: map<(int, int), int>, x: int, y: int, w: int, h: int)
    requires placed.Length0 == N && placed.Length1 == N && RectInGrid(x, y, w, h)
    requires Mirrors(placed, owner) && Free(placed, x, y, w, h)
    ensures forall i, j :: InRect(i, j, x, y, w, h) ==> (i, j) !in owner
  {
  }

  /** The committing branch: mark the rectangle and append the piece. */
  method Place(grid: Grid, placed: array2<bool>, pieces: seq<Piece>, ghost owner: map<(int, int), int>,
               ti: int, x: int, y: int, color: int)
    returns (pieces': seq<Piece>, ghost owner': map<(int, int), int>)
    requires IsGrid(grid) && placed.Length0 == N && placed.Length1 == N
    requires 0 <= ti < |Tiles| && RectInGrid(x, y, Tiles[ti].w, Tiles[ti].h)
    requires ScanInv(grid, pieces, owner, ti, y, x) && Mirrors(placed, owner)
    requires Uniform(grid, x, y, Tiles[ti].w, Tiles[ti].h, color)
    requires forall i, j :: InRect(i, j, x, y, Tiles[ti].w, Tiles[ti].h) ==> (i, j) !in owner
    modifies placed
    ensures ScanInv(grid, pieces', owner', ti, y, x + 1) && Mirrors(placed, owner')
    ensures pieces' == pieces + [MakePiece(color, x, y, Tiles[ti])]
    ensures forall i, j :: 0 <= i < N && 0 <= j < N ==>
              placed[j, i] == (old(placed[j, i]) || InRect(i, j, x, y, Tiles[ti].w, Tiles[ti].h))
  {
    var tile := Tiles[ti];
    var piece := MakePiece(color, x, y, tile);
    owner' := Claim(owner, x, y, tile.w, tile.h, |pieces|);
    pieces' := pieces + [piece];
    assert ScanInv(grid, pieces', owner', ti, y, x + 1) by {
      Commit(grid, pieces, owner, ti, x, y, color);
      PassOfTile(ti, color, x, y);
      OrderAppend(pieces, piece, ti, y, x);
    }
    MarkClaimed(placed, owner, x, y, tile.w, tile.h, |pieces|);
  }

  /** Marking the rectangle in the mask mirrors claiming it in the owner map. */
  method MarkClaimed(placed: array2<bool>, ghost owner: map<(int, int), int>, x: int, y: int, w: int, h: int, ghost k: int)
    requires placed.Length0 == N && placed.Length1 == N
    requires RectInGrid(x, y, w, h) && Mirrors(placed, owner)
    modifies placed
    ensures Mirrors(placed, Claim(owner, x, y, w, h, k))
    ensures forall i, j :: 0 <= i < N && 0 <= j < N ==>
              placed[j, i] == (old(placed[j, i]) || InRect(i, j, x, y, w, h))
  {
    Mark(placed, x, y, w, h);
    ghost var owner' := Claim(owner, x, y, w, h, k);
    forall i, j | 0 <= i < N && 0 <= j < N ensures placed[j, i] <==> (i, j) in owner' {
      assert placed[j, i] == (old(placed[j, i]) || InRect(i, j, x, y, w, h));
    }
  }

  /** One row of one pass: the `x` loop. */
  method ScanRow(grid: Grid, placed: array2<bool>, pieces: seq<Piece>, ghost owner: map<(int, int), int>,
                 ti: int, y: int)
    returns (pieces': seq<Piece>, ghost owner': map<(int, int), int>)
    requires IsGrid(grid) && placed.Length0 == N && placed.Length1 == N
    requires 0 <= ti < |Tiles| && 0 <= y <= N - Tiles[ti].h
    requires ScanInv(grid, pieces, owner, ti, y, 0) && Mirrors(placed, owner)
    modifies placed
    ensures ScanInv(grid, pieces', owner', ti, y + 1, 0) && Mirrors(placed, owner')
    ensures pieces <= pieces'
  {
    var tile := Tiles[ti];
    PassOfTile(ti, 0, 0, 0);
    pieces', owner' := pieces, owner;
    for x := 0 to N - tile.w + 1
      invariant ScanInv(grid, pieces', owner', ti, y, x) && Mirrors(placed, owner')
      invariant pieces <= pieces'
    {
      pieces', owner' := ScanOrigin(grid, placed, pieces', owner', ti, x, y);
    }
    RowDone(grid, pieces', ti, y);
    EmittedLater(pieces', ti, y, N - tile.w + 1, ti, y + 1, 0);
  }

  /** One pass of the catalog: the `y` loop. */
  method ScanPass(grid: Grid, placed: array2<bool>, pieces: seq<Piece>, ghost owner: map<(int, int), int>,
                  ti: int)
    returns (pieces': seq<Piece>, ghost owner': map<(int, int), int>)
    requires IsGrid(grid) && placed.Length0 == N && placed.Length1 == N
    requires 0 <= ti < |Tiles|
    requires ScanInv(grid, pieces, owner, ti, 0, 0) && Mirrors(placed, owner)
    modifies placed
    ensures ScanInv(grid, pieces', owner', ti + 1, 0, 0) && Mirrors(placed, owner')
    ensures pieces <= pieces'
  {
    var tile := Tiles[ti];
    PassOfTile(ti, 0, 0, 0);
    pieces', owner' := pieces, owner;
    for y := 0 to N - tile.h + 1
      invariant ScanInv(grid, pieces', owner', ti, y, 0) && Mirrors(placed, owner')
      invariant pieces <= pieces'
    {
      pieces', owner' := ScanRow(grid, placed, pieces', owner', ti, y);
    }
    PassDone(grid, pieces', ti);
    EmittedLater(pieces', ti, N - tile.h + 1, 0, ti + 1, 0, 0);
  }

  /** `optimize_grid`: the greedy tiling of the grid by the catalog. */
  method OptimizeGrid(grid: Grid) returns (pieces: seq<Piece>)
    requires IsGrid(grid)
    ensures AllWellPlaced(grid, pieces)
    ensures Disjoint(pieces)
    ensures CoversSetCells(grid, pieces)
    ensures EmptyStaysEmpty(grid, pieces)
    ensures GreedyPriority(grid, pieces)
    ensures InScanOrder(pieces)
    ensures |pieces| <= |SetCells(grid)| <= N * N
    ensures |pieces| == |SetCells(grid)| <==>
              forall t, x, y :: 0 <= t < |Tiles| - 1 ==> !UniformFrom(grid, x, y, Tiles[t].w, Tiles[t].h)
  {
    var placed := new bool[N, N]((_, _) => false);
    pieces := [];
    ghost var owner: map<(int, int), int> := map[];
    for ti := 0 to |Tiles|
      invariant ScanInv(grid, pieces, owner, ti, 0, 0) && Mirrors(placed, owner)
    {
      pieces, owner := ScanPass(grid, placed, pieces, owner, ti);
    }
    PriorityCovers(grid, pieces);
    WellPlacedAvoidsEmpty(grid, pieces);
    Compaction(grid, pieces);
    SetCellsAtMost(grid);
  }
}
