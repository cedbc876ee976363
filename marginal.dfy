/**
 * Summing a variable out of a factor: drop its column and add up the weights
 * of the rows that then agree on every remaining column. The groups come out
 * in ascending lexicographic order of their assignment, false before true.
 */
module Marginal {
  import opened Factors

  /** Lexicographic order on assignments, comparing columns left to right, false before true. */
  predicate LexLess(a: seq<bool>, b: seq<bool>)
  {
    |a| > 0 && |b| > 0 && ((!a[0] && b[0]) || (a[0] == b[0] && LexLess(a[1..], b[1..])))
  }

  lemma {:induction false} LexIrreflexive(a: seq<bool>)
    ensures !LexLess(a, a)
  {
    if |a| > 0 {
      LexIrreflexive(a[1..]);
    }
  }

  lemma {:induction false} LexTransitive(a: seq<bool>, b: seq<bool>, c: seq<bool>)
    requires LexLess(a, b) && LexLess(b, c)
    ensures LexLess(a, c)
  {
    if a[0] == b[0] && b[0] == c[0] {
      LexTransitive(a[1..], b[1..], c[1..]);
    }
  }

  /** Two different assignments of the same length are ordered one way or the other. */
  lemma {:induction false} LexTotal(a: seq<bool>, b: seq<bool>)
    requires |a| == |b| && a != b
    ensures LexLess(a, b) || LexLess(b, a)
  {
    if a[0] == b[0] {
      assert a == [a[0]] + a[1..] && b == [b[0]] + b[1..];
      LexTotal(a[1..], b[1..]);
    }
  }

  /** The assignments of the rows strictly increase, so none repeats. */
  predicate StrictlySorted(g: seq<Row>)
  {
    forall i, j :: 0 <= i < j < |g| ==> LexLess(g[i].vals, g[j].vals)
  }

  /** The set of assignments that occur in the rows. */
  function KeysOf(rows: seq<Row>): set<seq<bool>>
  {
    set row | row in rows :: row.vals
  }

  /** The total weight of the rows whose assignment is key. */
  function Weight(rows: seq<Row>, key: seq<bool>): real
  {
    if rows == [] then 0.0
    else (if rows[0].vals == key then rows[0].prob else 0.0) + Weight(rows[1..], key)
  }

  /** Adds weight p to the group of key in the sorted groups g, opening the group if need be. */
  function Insert(g: seq<Row>, key: seq<bool>, p: real): seq<Row>
  {
    if g == [] then [Row(key, p)]
    else if key == g[0].vals then [Row(key, g[0].prob + p)] + g[1..]
    else if LexLess(key, g[0].vals) then [Row(key, p)] + g
    else [g[0]] + Insert(g[1..], key, p)
  }

  /** The rows grouped by assignment, one row per distinct assignment carrying the group's weight. */
  function Group(rows: seq<Row>): seq<Row>
  {
    if rows == [] then [] else Insert(Group(rows[1..]), rows[0].vals, rows[0].prob)
  }

  lemma {:induction false} KeysOfCons(r: Row, rows: seq<Row>)
    ensures KeysOf([r] + rows) == {r.vals} + KeysOf(rows)
  {
    var s := [r] + rows;
    assert forall row :: row in s <==> row == r || row in rows;
  }

  lemma {:induction false} InsertKeys(g: seq<Row>, key: seq<bool>, p: real, n: nat)
    requires Rectangular(g, n) && |key| == n
    ensures Rectangular(Insert(g, key, p), n)
    ensures KeysOf(Insert(g, key, p)) == KeysOf(g) + {key}
    decreases |g|
  {
    if g == [] {
    } else if key == g[0].vals {
      assert g == [g[0]] + g[1..];
      KeysOfCons(g[0], g[1..]);
      KeysOfCons(Row(key, g[0].prob + p), g[1..]);
    } else if LexLess(key, g[0].vals) {
      KeysOfCons(Row(key, p), g);
    } else {
      InsertKeys(g[1..], key, p, n);
      assert g == [g[0]] + g[1..];
      KeysOfCons(g[0], g[1..]);
      KeysOfCons(g[0], Insert(g[1..], key, p));
    }
  }

  /** Every assignment of sorted rows after the first is above the first. */
  lemma FirstIsLeast(g: seq<Row>, x: seq<bool>)
    requires StrictlySorted(g) && g != [] && x in KeysOf(g[1..])
    ensures LexLess(g[0].vals, x)
  {
    var row :| row in g[1..] && row.vals == x;
    var i :| 0 <= i < |g[1..]| && g[1..][i] == row;
    assert g[i + 1] == row;
  }

  lemma {:induction false} InsertKeepsSorted(g: seq<Row>, key: seq<bool>, p: real, n: nat)
    requires Rectangular(g, n) && |key| == n && StrictlySorted(g)
    ensures StrictlySorted(Insert(g, key, p))
    decreases |g|
  {
    var g' := Insert(g, key, p);
    if g == [] {
    } else if key == g[0].vals {
      assert forall i :: 0 <= i < |g| ==> g'[i].vals == g[i].vals;
    } else if LexLess(key, g[0].vals) {
      forall j | 0 <= j < |g|
        ensures LexLess(key, g[j].vals)
      {
        if j > 0 {
          LexTransitive(key, g[0].vals, g[j].vals);
        }
      }
    } else {
      var rest := Insert(g[1..], key, p);
      InsertKeepsSorted(g[1..], key, p, n);
      InsertKeys(g[1..], key, p, n);
      LexTotal(key, g[0].vals);
      forall j | 0 <= j < |rest|
        ensures LexLess(g[0].vals, rest[j].vals)
      {
        assert rest[j] in rest;
        assert rest[j].vals in KeysOf(rest);
        if rest[j].vals != key {
          FirstIsLeast(g, rest[j].vals);
        }
      }
      assert g' == [g[0]] + rest;
    }
  }

  lemma {:induction false} InsertAddsWeight(g: seq<Row>, key: seq<bool>, p: real)
    ensures Total(Insert(g, key, p)) == Total(g) + p
    ensures forall key' :: Weight(Insert(g, key, p), key') == Weight(g, key') + (if key' == key then p else 0.0)
    decreases |g|
  {
    var g' := Insert(g, key, p);
    if g == [] {
    } else if key == g[0].vals {
      assert g'[1..] == g[1..];
    } else if LexLess(key, g[0].vals) {
      assert g'[1..] == g;
    } else {
      InsertAddsWeight(g[1..], key, p);
      assert g'[1..] == Insert(g[1..], key, p);
    }
  }

  /**
   * Grouping yields strictly sorted rows, one per distinct assignment of the
   * input, each carrying the summed weight of its group; the total is kept.
   */
  lemma {:induction false} GroupSpec(rows: seq<Row>, n: nat)
    requires Rectangular(rows, n)
    ensures Rectangular(Group(rows), n) && StrictlySorted(Group(rows))
    ensures KeysOf(Group(rows)) == KeysOf(rows)
    ensures Total(Group(rows)) == Total(rows)
    ensures forall key :: Weight(Group(rows), key) == Weight(rows, key)
  {
    if rows != [] {
      GroupSpec(rows[1..], n);
      InsertKeepsSorted(Group(rows[1..]), rows[0].vals, rows[0].prob, n);
      InsertKeys(Group(rows[1..]), rows[0].vals, rows[0].prob, n);
      InsertAddsWeight(Group(rows[1..]), rows[0].vals, rows[0].prob);
      assert rows == [rows[0]] + rows[1..];
      KeysOfCons(rows[0], rows[1..]);
    }
  }

  /** In strictly sorted rows, the weight of a row's own assignment is that row's weight. */
  lemma {:induction false} WeightOfSorted(g: seq<Row>, j: nat)
    requires StrictlySorted(g) && j < |g|
    ensures Weight(g, g[j].vals) == g[j].prob
  {
    if j == 0 {
      WeightAbsent(g[1..], g[0].vals);
    } else {
      LexIrreflexive(g[j].vals);
      WeightOfSorted(g[1..], j - 1);
    }
  }

  lemma {:induction false} WeightAbsent(rows: seq<Row>, key: seq<bool>)
    requires forall i :: 0 <= i < |rows| ==> LexLess(key, rows[i].vals)
    ensures Weight(rows, key) == 0.0
  {
    if rows != [] {
      LexIrreflexive(key);
      WeightAbsent(rows[1..], key);
    }
  }

  /** Each group row carries the sum of the weights of the input rows with its assignment. */
  lemma GroupRowsAreSums(rows: seq<Row>, n: nat)
    requires Rectangular(rows, n)
    ensures forall j :: 0 <= j < |Group(rows)| ==> Group(rows)[j].prob == Weight(rows, Group(rows)[j].vals)
  {
    GroupSpec(rows, n);
    forall j | 0 <= j < |Group(rows)|
      ensures Group(rows)[j].prob == Weight(rows, Group(rows)[j].vals)
    {
      WeightOfSorted(Group(rows), j);
    }
  }

  /** The rows with column k dropped from every assignment, weights unchanged. */
  function Projected(rows: seq<Row>, k: nat): seq<Row>
    requires forall row :: row in rows ==> k < |row.vals|
  {
    seq(|rows|, i requires 0 <= i < |rows| => Row(RemoveAt(rows[i].vals, k), rows[i].prob))
  }

  lemma ProjectedRectangular(rows: seq<Row>, k: nat, n: nat)
    requires Rectangular(rows, n) && k < n
    ensures Rectangular(Projected(rows, k), n - 1)
  {
  }

  lemma {:induction false} ProjectedTotal(rows: seq<Row>, k: nat)
    requires forall row :: row in rows ==> k < |row.vals|
    ensures Total(Projected(rows, k)) == Total(rows)
  {
    if rows != [] {
      var p := Projected(rows, k);
      assert forall i :: 0 <= i < |p| - 1 ==> p[1..][i] == Projected(rows[1..], k)[i];
      assert p[1..] == Projected(rows[1..], k);
      ProjectedTotal(rows[1..], k);
    }
  }

  /** When every assignment is empty, the weight of the empty assignment is the total. */
  lemma {:induction false} WeightOfEmpty(rows: seq<Row>)
    requires Rectangular(rows, 0)
    ensures Weight(rows, []) == Total(rows)
  {
    if rows != [] {
      WeightOfEmpty(rows[1..]);
    }
  }

  /**
   * sumout(factor, variable): the scope loses the variable; the rows are the
   * groups of the remaining assignment, sorted ascending, each with the summed
   * weight of its group; with no variable left it is one row holding the
   * total. A variable the factor lacks is an error.
   */
  function SumOut(f: Factor, v: Var): (r: Result<Factor>)
    requires WellFormed(f)
    ensures r.Ok? <==> v in f.scope
    ensures r.Err? ==> r.error == MissingVariable(v)
    ensures r.Ok? ==> WellFormed(r.value)
    ensures r.Ok? ==> r.value.scope == RemoveAt(f.scope, IndexOf(f.scope, v))
    ensures r.Ok? ==> forall w :: w in r.value.scope <==> w in f.scope && w != v
    ensures r.Ok? ==> Total(r.value.rows) == Total(f.rows)
    ensures r.Ok? ==> StrictlySorted(r.value.rows)
    ensures r.Ok? && r.value.scope == [] ==> |r.value.rows| == 1
    ensures r.Ok? && r.value.scope != [] ==>
              KeysOf(r.value.rows) == KeysOf(Projected(f.rows, IndexOf(f.scope, v)))
    ensures r.Ok? ==> forall j :: 0 <= j < |r.value.rows| ==>
              r.value.rows[j].prob == Weight(Projected(f.rows, IndexOf(f.scope, v)), r.value.rows[j].vals)
  {
    if v !in f.scope then Err(MissingVariable(v))
    else
      var k := IndexOf(f.scope, v);
      var rest := RemoveAt(f.scope, k);
      var ps := Projected(f.rows, k);
      RemoveAtDistinct(f.scope, k);
      ProjectedTotal(f.rows, k);
      ProjectedRectangular(f.rows, k, |f.scope|);
      if rest == [] then
        WeightOfEmpty(ps);
        Ok(Factor([], [Row([], Total(f.rows))]))
      else
        GroupSpec(ps, |rest|);
        GroupRowsAreSums(ps, |rest|);
        Ok(Factor(rest, Group(ps)))
  }
}
