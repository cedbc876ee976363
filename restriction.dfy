/**
 * Restriction of a factor: keep the rows in which one variable has a given
 * value and drop that variable's column.
 */
module Restriction {
  import opened Factors

  /** The rows whose column k holds x, in their original order, with column k dropped. */
  function KeepRows(rows: seq<Row>, k: nat, x: bool): seq<Row>
    requires forall row :: row in rows ==> k < |row.vals|
  {
    if rows == [] then []
    else
      (if rows[0].vals[k] == x then [Row(RemoveAt(rows[0].vals, k), rows[0].prob)] else [])
      + KeepRows(rows[1..], k, x)
  }

  /** s with every position moved one place on. */
  function Shift(s: seq<nat>): seq<nat>
  {
    seq(|s|, j requires 0 <= j < |s| => s[j] + 1)
  }

  /** The positions of the rows whose column k holds x, in increasing order. */
  function MatchIndices(rows: seq<Row>, k: nat, x: bool): seq<nat>
    requires forall row :: row in rows ==> k < |row.vals|
  {
    if rows == [] then []
    else (if rows[0].vals[k] == x then [0] else []) + Shift(MatchIndices(rows[1..], k, x))
  }

  /** The j-th kept row is the row at the j-th matching position, column k dropped, weight unchanged. */
  lemma {:induction false} KeepRowsAtMatches(rows: seq<Row>, k: nat, x: bool)
    requires forall row :: row in rows ==> k < |row.vals|
    ensures |KeepRows(rows, k, x)| == |MatchIndices(rows, k, x)|
    ensures forall j :: 0 <= j < |MatchIndices(rows, k, x)| ==>
              MatchIndices(rows, k, x)[j] < |rows|
              && KeepRows(rows, k, x)[j]
                 == Row(RemoveAt(rows[MatchIndices(rows, k, x)[j]].vals, k), rows[MatchIndices(rows, k, x)[j]].prob)
  {
    if rows != [] {
      KeepRowsAtMatches(rows[1..], k, x);
      var out', m' := KeepRows(rows[1..], k, x), MatchIndices(rows[1..], k, x);
      var out, m := KeepRows(rows, k, x), MatchIndices(rows, k, x);
      var h := if rows[0].vals[k] == x then 1 else 0;
      assert |m| == h + |m'| && |out| == h + |out'|;
      forall j | h <= j < |m|
        ensures m[j] < |rows| && out[j] == Row(RemoveAt(rows[m[j]].vals, k), rows[m[j]].prob)
      {
        assert m[j] == m'[j - h] + 1 && out[j] == out'[j - h];
        assert rows[m[j]] == rows[1..][m'[j - h]];
      }
    }
  }

  /** The matching positions are in range and strictly increasing. */
  lemma {:induction false} MatchIndicesIncrease(rows: seq<Row>, k: nat, x: bool)
    requires forall row :: row in rows ==> k < |row.vals|
    ensures forall j :: 0 <= j < |MatchIndices(rows, k, x)| ==> MatchIndices(rows, k, x)[j] < |rows|
    ensures forall a, b :: 0 <= a < b < |MatchIndices(rows, k, x)| ==>
              MatchIndices(rows, k, x)[a] < MatchIndices(rows, k, x)[b]
  {
    if rows != [] {
      MatchIndicesIncrease(rows[1..], k, x);
      var m', m := MatchIndices(rows[1..], k, x), MatchIndices(rows, k, x);
      var h := if rows[0].vals[k] == x then 1 else 0;
      assert m == (if h == 1 then [0] else []) + Shift(m');
      assert |m| == h + |m'|;
      forall j | 0 <= j < |m|
        ensures m[j] < |rows| && (j >= h ==> m[j] == m'[j - h] + 1) && (j < h ==> m[j] == 0)
      {
        if j >= h {
          assert m[j] == Shift(m')[j - h];
        }
      }
      forall a, b | 0 <= a < b < |m|
        ensures m[a] < m[b]
      {
        if a >= h {
          assert m'[a - h] < m'[b - h];
        }
      }
    }
  }

  /** A position is in Shift(s) exactly when it is one more than a position of s. */
  lemma ShiftMember(s: seq<nat>, i: nat)
    ensures i in Shift(s) <==> i > 0 && i - 1 in s
  {
    if i > 0 && i - 1 in s {
      var j :| 0 <= j < |s| && s[j] == i - 1;
      assert Shift(s)[j] == i;
    }
  }

  /** Position i is matching exactly when the row there holds x in column k. */
  lemma {:induction false} MatchIndicesAt(rows: seq<Row>, k: nat, x: bool, i: nat)
    requires forall row :: row in rows ==> k < |row.vals|
    requires i < |rows|
    ensures i in MatchIndices(rows, k, x) <==> rows[i].vals[k] == x
  {
    var rest := MatchIndices(rows[1..], k, x);
    var head: seq<nat> := if rows[0].vals[k] == x then [0] else [];
    assert MatchIndices(rows, k, x) == head + Shift(rest);
    ShiftMember(rest, i);
    if i > 0 {
      MatchIndicesAt(rows[1..], k, x, i - 1);
      assert rows[1..][i - 1] == rows[i];
    }
  }

  /** A position is matching exactly when the row there holds x in column k. */
  lemma MatchIndicesExact(rows: seq<Row>, k: nat, x: bool)
    requires forall row :: row in rows ==> k < |row.vals|
    ensures forall i :: 0 <= i < |rows| ==> (i in MatchIndices(rows, k, x) <==> rows[i].vals[k] == x)
  {
    forall i | 0 <= i < |rows|
      ensures i in MatchIndices(rows, k, x) <==> rows[i].vals[k] == x
    {
      MatchIndicesAt(rows, k, x, i);
    }
  }

  /** Restricting to true and to false splits the total weight between the two results. */
  lemma {:induction false} KeepRowsSplitMass(rows: seq<Row>, k: nat)
    requires forall row :: row in rows ==> k < |row.vals|
    ensures Total(KeepRows(rows, k, true)) + Total(KeepRows(rows, k, false)) == Total(rows)
  {
    if rows != [] {
      KeepRowsSplitMass(rows[1..], k);
      var r := Row(RemoveAt(rows[0].vals, k), rows[0].prob);
      if rows[0].vals[k] {
        assert KeepRows(rows, k, true) == [r] + KeepRows(rows[1..], k, true);
        assert KeepRows(rows, k, false) == KeepRows(rows[1..], k, false);
        TotalConcat([r], KeepRows(rows[1..], k, true));
      } else {
        assert KeepRows(rows, k, false) == [r] + KeepRows(rows[1..], k, false);
        assert KeepRows(rows, k, true) == KeepRows(rows[1..], k, true);
        TotalConcat([r], KeepRows(rows[1..], k, false));
      }
    }
  }

  /**
   * restrict(factor, variable, value): the rows where the variable has the
   * value, in their original order and with their weights, over the scope
   * without that variable; a variable the factor lacks is an error.
   */
  function Restrict(f: Factor, v: Var, x: bool): (r: Result<Factor>)
    requires WellFormed(f)
    ensures r.Ok? <==> v in f.scope
    ensures r.Err? ==> r.error == MissingVariable(v)
    ensures r.Ok? ==> WellFormed(r.value)
    ensures r.Ok? ==> r.value.scope == RemoveAt(f.scope, IndexOf(f.scope, v))
    ensures r.Ok? ==> forall w :: w in r.value.scope <==> w in f.scope && w != v
    ensures r.Ok? ==>
      var k, m := IndexOf(f.scope, v), MatchIndices(f.rows, IndexOf(f.scope, v), x);
      |r.value.rows| == |m|
      && (forall j :: 0 <= j < |m| ==>
            m[j] < |f.rows| && r.value.rows[j] == Row(RemoveAt(f.rows[m[j]].vals, k), f.rows[m[j]].prob))
      && (forall a, b :: 0 <= a < b < |m| ==> m[a] < m[b])
      && (forall i :: 0 <= i < |f.rows| ==> (i in m <==> f.rows[i].vals[k] == x))
  {
    if v !in f.scope then Err(MissingVariable(v))
    else
      var k := IndexOf(f.scope, v);
      KeepRowsAtMatches(f.rows, k, x);
      MatchIndicesIncrease(f.rows, k, x);
      MatchIndicesExact(f.rows, k, x);
      RemoveAtDistinct(f.scope, k);
      Ok(Factor(RemoveAt(f.scope, k), KeepRows(f.rows, k, x)))
  }

  /** The two restrictions of a variable share out the whole weight of the factor. */
  lemma RestrictSplitsMass(f: Factor, v: Var)
    requires WellFormed(f) && v in f.scope
    ensures Total(Restrict(f, v, true).value.rows) + Total(Restrict(f, v, false).value.rows)
            == Total(f.rows)
  {
    KeepRowsSplitMass(f.rows, IndexOf(f.scope, v));
  }
}
