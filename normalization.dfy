/** Normalisation: divide every weight of a factor by the factor's total. */
module Normalization {
  import opened Factors

  /**
   * normalize(factor): same scope, same rows in the same order, every weight
   * divided by the total, so that the weights then sum to 1.
   */
  function Normalize(f: Factor): (r: Factor)
    requires Total(f.rows) != 0.0
    ensures r.scope == f.scope && |r.rows| == |f.rows|
    ensures forall i :: 0 <= i < |f.rows| ==>
              r.rows[i].vals == f.rows[i].vals && r.rows[i].prob == f.rows[i].prob / Total(f.rows)
    ensures Total(r.rows) == 1.0
    ensures WellFormed(f) ==> WellFormed(r)
  {
    var t := Total(f.rows);
    TotalScaled(f.rows, 1.0 / t);
    Factor(f.scope, Scaled(f.rows, 1.0 / t))
  }

  /** Weights that already sum to 1 come back unchanged. */
  lemma NormalizeUnit(f: Factor)
    requires Total(f.rows) == 1.0
    ensures Normalize(f) == f
  {
    assert Normalize(f).rows == f.rows;
  }

  /** Normalising twice is normalising once. */
  lemma NormalizeIdempotent(f: Factor)
    requires Total(f.rows) != 0.0
    ensures Normalize(Normalize(f)) == Normalize(f)
  {
    NormalizeUnit(Normalize(f));
  }
}
