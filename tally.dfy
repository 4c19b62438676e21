// The part count of `write_optimized_ldr`: how many pieces there are of
// each (part number, width, height).

module PartCount {
  import opened Catalog

  /** The dictionary key of a piece: part number, width, height. */
  type Key = (string, int, int)

  function KeyOf(p: Piece): Key {
    (p.part, p.w, p.h)
  }

  /** Number of pieces in ps with the given key. */
  function CountOf(ps: seq<Piece>, key: Key): nat
    decreases |ps|
  {
    if ps == [] then 0
    else CountOf(ps[..|ps| - 1], key) + (if KeyOf(ps[|ps| - 1]) == key then 1 else 0)
  }

  /** Sum of the values of a count map. */
  ghost function Total(m: map<Key, nat>): nat
    decreases |m|
  {
    if m == map[] then 0
    else
      var k :| k in m;
      m[k] + Total(m - {k})
  }

  /** Total does not depend on which key is taken out first. */
  lemma {:induction false} TotalRemove(m: map<Key, nat>, k: Key)
    requires k in m
    ensures Total(m) == m[k] + Total(m - {k})
    decreases |m|
  {
    var k' :| k' in m && Total(m) == m[k'] + Total(m - {k'});
    if k' != k {
      var m1 := m - {k'};
      var m2 := m - {k};
      assert k in m1 && k' in m2;
      assert |m1| < |m| && |m2| < |m|;
      TotalRemove(m1, k);
      TotalRemove(m2, k');
      assert m1 - {k} == m2 - {k'};
    }
  }

  /** Adding one to a key's count adds one to the total. */
  lemma TotalBump(m: map<Key, nat>, k: Key)
    ensures Total(m[k := if k in m then m[k] + 1 else 1]) == Total(m) + 1
  {
    var m' := m[k := if k in m then m[k] + 1 else 1];
    TotalRemove(m', k);
    if k in m {
      TotalRemove(m, k);
      assert m' - {k} == m - {k};
    } else {
      assert m' - {k} == m;
    }
  }

  /** The counting loop of `write_optimized_ldr`. */
  method CountParts(pieces: seq<Piece>) returns (counts: map<Key, nat>)
    ensures forall key :: key in counts <==> CountOf(pieces, key) > 0
    ensures forall key :: key in counts ==> counts[key] == CountOf(pieces, key)
    ensures Total(counts) == |pieces|
  {
    counts := map[];
    for i := 0 to |pieces|
      invariant forall key :: key in counts <==> CountOf(pieces[..i], key) > 0
      invariant forall key :: key in counts ==> counts[key] == CountOf(pieces[..i], key)
      invariant Total(counts) == i
    {
      assert pieces[..i + 1][..i] == pieces[..i];
      var key := KeyOf(pieces[i]);
      TotalBump(counts, key);
      counts := counts[key := (if key in counts then counts[key] else 0) + 1];
    }
    assert pieces[..|pieces|] == pieces;
  }
}
