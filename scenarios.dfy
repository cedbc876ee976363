/**
 * Three worked cases of the unit tests, computed by the model: multiplying
 * by a scalar, normalising, and summing out the only variable of a factor.
 */
module Scenarios {
  import opened Factors
  import opened Restriction
  import opened Marginal
  import opened Product
  import opened Normalization

  /** f0 of the tests: P(X, Y), already normalised. */
  function F0(): Factor
  {
    Factor(["X", "Y"], [Row([true, true], 0.1), Row([true, false], 0.2),
                        Row([false, true], 0.3), Row([false, false], 0.4)])
  }

  /** f1 of the tests: a factor over X, Y, Z. */
  function F1(): Factor
  {
    Factor(["X", "Y", "Z"], [Row([true, true, true], 0.1), Row([true, true, false], 0.2),
                             Row([true, false, true], 0.3), Row([true, false, false], 0.4),
                             Row([false, true, true], 0.5), Row([false, true, false], 0.6),
                             Row([false, false, true], 0.7), Row([false, false, false], 0.8)])
  }

  /** tests.py testMultiplyConstant: the scalar 0.1 scales every weight of f0, rows in place. */
  lemma MultiplyConstantExample()
    ensures WellFormed(F0())
    ensures Multiply(F0(), Factor([], [Row([], 0.1)]))
            == Ok(Factor(["X", "Y"], [Row([true, true], 0.01), Row([true, false], 0.02),
                                      Row([false, true], 0.03), Row([false, false], 0.04)]))
  {
    var r := Multiply(F0(), Factor([], [Row([], 0.1)])).value;
    assert r.rows == [Row([true, true], 0.01), Row([true, false], 0.02),
                      Row([false, true], 0.03), Row([false, false], 0.04)];
  }

  /** tests.py testNormalize: f0 already sums to 1, so normalising it gives it back. */
  lemma NormalizeExample()
    ensures Total(F0().rows) == 1.0 && Normalize(F0()) == F0()
  {
    var rows := F0().rows;
    assert Total(rows[3..]) == 0.4 by {
      assert rows[3..][1..] == [];
    }
    assert rows[2..][1..] == rows[3..];
    assert rows[1..][1..] == rows[2..];
    assert Total(rows[1..]) == 0.9;
    NormalizeUnit(F0());
  }

  /** tests.py testSumoutSingleCol: summing out the only variable leaves one row holding the total. */
  lemma SumOutSingleColumnExample()
    ensures SumOut(Factor(["X"], [Row([true], 0.1), Row([true], 0.2), Row([true], 0.3), Row([true], 0.4),
                                  Row([false], 0.5), Row([false], 0.6), Row([false], 0.7), Row([false], 0.8)]), "X")
            == Ok(Factor([], [Row([], 3.6)]))
  {
    var f := Factor(["X"], [Row([true], 0.1), Row([true], 0.2), Row([true], 0.3), Row([true], 0.4),
                            Row([false], 0.5), Row([false], 0.6), Row([false], 0.7), Row([false], 0.8)]);
    var rows := f.rows;
    assert Total(rows[7..]) == 0.8 by {
      assert rows[7..][1..] == [];
    }
    assert rows[6..][1..] == rows[7..] && Total(rows[6..]) == 1.5;
    assert rows[5..][1..] == rows[6..] && Total(rows[5..]) == 2.1;
    assert rows[4..][1..] == rows[5..] && Total(rows[4..]) == 2.6;
    assert rows[3..][1..] == rows[4..] && Total(rows[3..]) == 3.0;
    assert rows[2..][1..] == rows[3..] && Total(rows[2..]) == 3.3;
    assert rows[1..][1..] == rows[2..] && Total(rows[1..]) == 3.5;
    var r := SumOut(f, "X").value;
    assert r.scope == [] && |r.rows| == 1 && Total(r.rows) == 3.6;
    assert r.rows[0].vals == [] by {
      assert r.rows[0] in r.rows;
    }
    assert r.rows == [Row([], 3.6)];
  }
}
