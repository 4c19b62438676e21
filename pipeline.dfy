// The `__main__` flow of optimize_mosaic.py, without its file names and
// printing: parse the records, pack the grid, count the parts.

module Pipeline {
  import opened Options
  import opened Catalog
  import opened Packer
  import opened LdrParse
  import opened PartCount

  /** Some record lands on cell (gx, gz). */
  ghost predicate Landed(records: seq<Record>, gx: int, gz: int) {
    exists k :: 0 <= k < |records| && Lands(records[k], gx, gz)
  }

  /** Some piece covers cell (gx, gz). */
  ghost predicate Tiled(pieces: seq<Piece>, gx: int, gz: int) {
    exists k :: 0 <= k < |pieces| && Covers(pieces[k], gx, gz)
  }

  /** Parse, optimise and count.  The pieces cover exactly the cells some
      on-grid record lands on, each such cell once and with the colour of the
      last record landing there. */
  method Run(records: seq<Record>) returns (pieces: seq<Piece>, counts: map<Key, nat>)
    ensures forall gx, gz :: 0 <= gx < N && 0 <= gz < N ==> (Landed(records, gx, gz) <==> Tiled(pieces, gx, gz))
    ensures forall k, gx, gz :: 0 <= k < |pieces| && Covers(pieces[k], gx, gz) ==>
              LastLandingHas(records, gx, gz, pieces[k].color)
    ensures Disjoint(pieces)
    ensures forall key :: key in counts ==> counts[key] == CountOf(pieces, key)
    ensures Total(counts) == |pieces| <= N * N
  {
    var parsed := ParseLdr(records);
    var grid := Rows(parsed);
    pieces := OptimizeGrid(grid);
    counts := CountParts(pieces);
    forall gx, gz | 0 <= gx < N && 0 <= gz < N
      ensures Landed(records, gx, gz) <==> Tiled(pieces, gx, gz)
    {
      EmptyUnlessHit(records, gx, gz);
    }
    forall k, gx, gz | 0 <= k < |pieces| && Covers(pieces[k], gx, gz)
      ensures LastLandingHas(records, gx, gz, pieces[k].color)
    {
      assert WellPlaced(grid, pieces[k]);
      LastWriterWins(records, gx, gz, pieces[k].color);
    }
  }
}
