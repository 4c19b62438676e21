// The geometric part of `parse_ldr`: part records, already split into
// (colour, x, z), fill a 32 x 32 grid through the LDU -> grid transform,
// dropping records that fall outside the grid.  Also what the records the
// packer writes parse back to.

module LdrParse {
  import opened Options
  import opened Catalog
  import opened Packer

  /** A part line `1 <colour> <x> <y> <z> ...` after tokenising: colour, x and z in LDU. */
  datatype Record = Record(color: int, x: int, z: int)

  /** The record's transformed position is cell (gx, gz). */
  predicate Lands(r: Record, gx: int, gz: int) {
    GridCoord(r.x) == gx && GridCoord(r.z) == gz
  }

  /** The record's transformed position lies inside the grid. */
  predicate OnGrid(r: Record) {
    0 <= GridCoord(r.x) < N && 0 <= GridCoord(r.z) < N
  }

  /** Cell (gx, gz) after reading the records in order: the grid starts empty
      and each on-grid record overwrites the cell it lands on. */
  function ParsedCell(rs: seq<Record>, gx: int, gz: int): Option<int>
    decreases |rs|
  {
    if rs == [] then None
    else
      var r := rs[|rs| - 1];
      if OnGrid(r) && Lands(r, gx, gz) then Some(r.color) else ParsedCell(rs[..|rs| - 1], gx, gz)
  }

  /** `parse_ldr` after tokenising: fill a fresh all-empty grid from the records. */
  method ParseLdr(records: seq<Record>) returns (grid: array2<Option<int>>)
    ensures fresh(grid) && grid.Length0 == N && grid.Length1 == N
    ensures forall gz, gx :: 0 <= gx < N && 0 <= gz < N ==> grid[gz, gx] == ParsedCell(records, gx, gz)
  {
    grid := new Option<int>[N, N]((_, _) => None);
    for k := 0 to |records|
      invariant forall gz, gx :: 0 <= gx < N && 0 <= gz < N ==> grid[gz, gx] == ParsedCell(records[..k], gx, gz)
    {
      assert records[..k + 1][..k] == records[..k];
      var r := records[k];
      var gx := GridCoord(r.x);
      var gz := GridCoord(r.z);
      if 0 <= gx < N && 0 <= gz < N {
        grid[gz, gx] := Some(r.color);
      }
    }
    assert records[..|records|] == records;
  }

  /** The array's contents as the rows the packer reads. */
  function Rows(a: array2<Option<int>>): (g: Grid)
    reads a
    requires a.Length0 == N && a.Length1 == N
    ensures IsGrid(g)
    ensures forall gz, gx :: 0 <= gx < N && 0 <= gz < N ==> At(g, gx, gz) == a[gz, gx]
  {
    seq(N, j requires 0 <= j < N reads a => seq(N, i requires 0 <= i < N reads a => a[j, i]))
  }

  /** A record outside the grid changes no cell. */
  lemma OffGridIgnored(rs: seq<Record>, r: Record, gx: int, gz: int)
    requires !OnGrid(r)
    ensures ParsedCell(rs + [r], gx, gz) == ParsedCell(rs, gx, gz)
  {
    assert (rs + [r])[..|rs|] == rs;
  }

  /** A later on-grid record overwrites whatever an earlier one put in its cell. */
  lemma LaterOverwrites(rs: seq<Record>, r: Record)
    requires OnGrid(r)
    ensures ParsedCell(rs + [r], GridCoord(r.x), GridCoord(r.z)) == Some(r.color)
  {
  }

  /** Some record lands on (gx, gz) with colour c and no later record lands there. */
  ghost predicate LastLandingHas(rs: seq<Record>, gx: int, gz: int, c: int) {
    exists k :: 0 <= k < |rs| && Lands(rs[k], gx, gz) && rs[k].color == c &&
                forall k' :: k < k' < |rs| ==> !Lands(rs[k'], gx, gz)
  }

  /** Reference reading of the fill: an in-grid cell holds colour c exactly
      when the last record landing on it has colour c. */
  lemma {:induction false} LastWriterWins(rs: seq<Record>, gx: int, gz: int, c: int)
    requires 0 <= gx < N && 0 <= gz < N
    ensures ParsedCell(rs, gx, gz) == Some(c) <==> LastLandingHas(rs, gx, gz, c)
    decreases |rs|
  {
    if rs != [] {
      var n := |rs| - 1;
      var pre := rs[..n];
      LastWriterWins(pre, gx, gz, c);
      assert forall k :: 0 <= k < n ==> rs[k] == pre[k];
      if Lands(rs[n], gx, gz) {
        if LastLandingHas(rs, gx, gz, c) {
          var k :| 0 <= k < |rs| && Lands(rs[k], gx, gz) && rs[k].color == c &&
                   forall k' :: k < k' < |rs| ==> !Lands(rs[k'], gx, gz);
          assert k == n;
        }
        if rs[n].color == c {
          assert Lands(rs[n], gx, gz) && rs[n].color == c;
        }
      } else {
        if LastLandingHas(pre, gx, gz, c) {
          var k :| 0 <= k < |pre| && Lands(pre[k], gx, gz) && pre[k].color == c &&
                   forall k' :: k < k' < |pre| ==> !Lands(pre[k'], gx, gz);
          assert forall k' :: k < k' < |rs| ==> !Lands(rs[k'], gx, gz);
        }
        if LastLandingHas(rs, gx, gz, c) {
          var k :| 0 <= k < |rs| && Lands(rs[k], gx, gz) && rs[k].color == c &&
                   forall k' :: k < k' < |rs| ==> !Lands(rs[k'], gx, gz);
          assert k < n;
          assert forall k' :: k < k' < |pre| ==> !Lands(pre[k'], gx, gz);
        }
      }
    }
  }

  /** An in-grid cell stays empty exactly when no record lands on it. */
  lemma {:induction false} EmptyUnlessHit(rs: seq<Record>, gx: int, gz: int)
    requires 0 <= gx < N && 0 <= gz < N
    ensures ParsedCell(rs, gx, gz) == None <==> forall k :: 0 <= k < |rs| ==> !Lands(rs[k], gx, gz)
    decreases |rs|
  {
    if rs != [] {
      var n := |rs| - 1;
      var pre := rs[..n];
      EmptyUnlessHit(pre, gx, gz);
      assert forall k :: 0 <= k < n ==> rs[k] == pre[k];
    }
  }

  // ---------------------------------------------------------------------
  // Records written for placed pieces (`1 {color} {x} 0 {z} ...`).

  function ToRecord(p: Piece): Record {
    Record(p.color, p.cx, p.cz)
  }

  function Records(ps: seq<Piece>): seq<Record> {
    seq(|ps|, k requires 0 <= k < |ps| => ToRecord(ps[k]))
  }

  /** A placed piece's record lands exactly on the piece's origin cell. */
  lemma PieceLands(grid: Grid, p: Piece, gx: int, gz: int)
    requires IsGrid(grid) && WellPlaced(grid, p)
    ensures Lands(ToRecord(p), gx, gz) <==> OriginX(p) == gx && OriginZ(p) == gz
    ensures OnGrid(ToRecord(p))
  {
    CentreToCell(OriginX(p), p.w);
    CentreToCell(OriginZ(p), p.h);
  }

  /** Parsing the packer's records marks each piece's origin cell with its
      colour and leaves every other cell empty. */
  lemma {:induction false} WrittenPiecesParse(grid: Grid, ps: seq<Piece>, gx: int, gz: int)
    requires IsGrid(grid) && AllWellPlaced(grid, ps) && Disjoint(ps)
    requires 0 <= gx < N && 0 <= gz < N
    ensures forall k :: 0 <= k < |ps| && OriginX(ps[k]) == gx && OriginZ(ps[k]) == gz ==>
              ParsedCell(Records(ps), gx, gz) == Some(ps[k].color)
    ensures (forall k :: 0 <= k < |ps| ==> OriginX(ps[k]) != gx || OriginZ(ps[k]) != gz) ==>
              ParsedCell(Records(ps), gx, gz) == None
    decreases |ps|
  {
    if ps != [] {
      var n := |ps| - 1;
      var pre := ps[..n];
      var rs := Records(ps);
      assert rs[..n] == Records(pre);
      assert rs[n] == ToRecord(ps[n]);
      assert forall k :: 0 <= k < n ==> pre[k] == ps[k];
      assert WellPlaced(grid, ps[n]);
      PieceLands(grid, ps[n], gx, gz);
      WrittenPiecesParse(grid, pre, gx, gz);
      if OriginX(ps[n]) == gx && OriginZ(ps[n]) == gz {
        assert ParsedCell(rs, gx, gz) == Some(ps[n].color);
        forall k | 0 <= k < n ensures OriginX(ps[k]) != gx || OriginZ(ps[k]) != gz {
          assert WellPlaced(grid, ps[k]);
          assert Covers(ps[n], gx, gz);
          if OriginX(ps[k]) == gx && OriginZ(ps[k]) == gz {
            assert Covers(ps[k], gx, gz);
          }
        }
      } else {
        assert ParsedCell(rs, gx, gz) == ParsedCell(Records(pre), gx, gz);
      }
    }
  }

  /** Round trip: when every piece is 1x1, the written records parse back to
      the packed grid, cell for cell. */
  lemma UnitPiecesRoundTrip(grid: Grid, ps: seq<Piece>)
    requires IsGrid(grid) && AllWellPlaced(grid, ps) && Disjoint(ps) && CoversSetCells(grid, ps)
    requires forall k :: 0 <= k < |ps| ==> ps[k].w == 1 && ps[k].h == 1
    ensures forall gz, gx :: 0 <= gx < N && 0 <= gz < N ==> ParsedCell(Records(ps), gx, gz) == At(grid, gx, gz)
  {
    forall gz, gx | 0 <= gx < N && 0 <= gz < N
      ensures ParsedCell(Records(ps), gx, gz) == At(grid, gx, gz)
    {
      WrittenPiecesParse(grid, ps, gx, gz);
      if At(grid, gx, gz) != None {
        var k :| 0 <= k < |ps| && Covers(ps[k], gx, gz);
        assert WellPlaced(grid, ps[k]);
      } else {
        forall k | 0 <= k < |ps| ensures OriginX(ps[k]) != gx || OriginZ(ps[k]) != gz {
          assert WellPlaced(grid, ps[k]);
        }
      }
    }
  }

  /** A grid with no two equal set cells side by side. */
  ghost predicate Checkerboard(grid: Grid)
  {
    forall i, j :: 0 <= i < N && 0 <= j < N && At(grid, i, j) != None ==>
      (i + 1 < N ==> At(grid, i + 1, j) != At(grid, i, j)) && (j + 1 < N ==> At(grid, i, j + 1) != At(grid, i, j))
  }

  /** On a checkerboard no larger tile fits, so every placed piece is 1x1. */
  lemma CheckerboardUnitPieces(grid: Grid, ps: seq<Piece>)
    requires IsGrid(grid) && AllWellPlaced(grid, ps) && Checkerboard(grid)
    ensures forall k :: 0 <= k < |ps| ==> ps[k].w == 1 && ps[k].h == 1
  {
    forall k | 0 <= k < |ps| ensures ps[k].w == 1 && ps[k].h == 1 {
      var p := ps[k];
      assert WellPlaced(grid, p);
      var x, y := OriginX(p), OriginZ(p);
      assert InRect(x, y, x, y, p.w, p.h);
      assert p.w == 2 ==> InRect(x + 1, y, x, y, p.w, p.h);
      assert p.h == 2 ==> InRect(x, y + 1, x, y, p.w, p.h);
    }
  }
}
