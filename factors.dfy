/**
 * The data model of the factor algebra. A factor is a table over an ordered
 * scope of boolean variables: every row holds one value per scope variable, in
 * scope order, and a weight. Weights are modelled as reals.
 */
module Factors {

  type Var = string

  /** One row of a factor: the assignment, in scope order, and its weight. */
  datatype Row = Row(vals: seq<bool>, prob: real)

  datatype Factor = Factor(scope: seq<Var>, rows: seq<Row>)

  /** The ways an operation on factors can fail. */
  datatype Error =
    | MissingVariable(name: Var)  // a column that the table does not have
    | NoSharedVariable            // a join of two tables with no common column
    | EmptyScalar                 // the value of a scalar table that has no row
    | NoFactors                   // taking the first factor of an empty list
    | ZeroTotal                   // normalising weights that sum to zero

  datatype Result<T> = Ok(value: T) | Err(error: Error)

  predicate Distinct<T(==)>(s: seq<T>)
  {
    forall i, j :: 0 <= i < j < |s| ==> s[i] != s[j]
  }

  /** Every row has exactly n values. */
  predicate Rectangular(rows: seq<Row>, n: nat)
  {
    forall i :: 0 <= i < |rows| ==> |rows[i].vals| == n
  }

  /** A table names each column once and every row fills every column. */
  predicate WellFormed(f: Factor)
  {
    Distinct(f.scope) && Rectangular(f.rows, |f.scope|)
  }

  /** Position of the first occurrence of x in s. */
  function IndexOf<T(==)>(s: seq<T>, x: T): (k: nat)
    requires x in s
    ensures k < |s| && s[k] == x && x !in s[..k]
  {
    if s[0] == x then 0
    else
      var k := IndexOf(s[1..], x);
      assert s[..k + 1] == [s[0]] + s[1..][..k];
      1 + k
  }

  /** The first occurrence of x is the only position that fits IndexOf's contract. */
  lemma IndexOfUnique<T>(s: seq<T>, x: T, k: nat)
    requires k < |s| && s[k] == x && x !in s[..k]
    ensures IndexOf(s, x) == k
  {
  }

  lemma IndexOfConcat<T>(s: seq<T>, t: seq<T>, x: T)
    requires x in s || x in t
    ensures x in s ==> IndexOf(s + t, x) == IndexOf(s, x)
    ensures x !in s ==> IndexOf(s + t, x) == |s| + IndexOf(t, x)
  {
    if x in s {
      var k := IndexOf(s, x);
      assert (s + t)[..k] == s[..k];
      IndexOfUnique(s + t, x, k);
    } else {
      var k := IndexOf(t, x);
      assert (s + t)[..|s| + k] == s + t[..k];
      IndexOfUnique(s + t, x, |s| + k);
    }
  }

  /** In a sequence without repetitions, the position of s[i] is i. */
  lemma IndexOfDistinct<T>(s: seq<T>, i: nat)
    requires Distinct(s) && i < |s|
    ensures IndexOf(s, s[i]) == i
  {
    IndexOfUnique(s, s[i], i);
  }

  /** s without its element at position k. */
  function RemoveAt<T>(s: seq<T>, k: nat): seq<T>
    requires k < |s|
  {
    s[..k] + s[k + 1..]
  }

  lemma RemoveAtDistinct<T>(s: seq<T>, k: nat)
    requires Distinct(s) && k < |s|
    ensures Distinct(RemoveAt(s, k))
    ensures forall w :: w in RemoveAt(s, k) <==> w in s && w != s[k]
  {
    var r := RemoveAt(s, k);
    assert forall i :: 0 <= i < |r| ==> r[i] == s[if i < k then i else i + 1];
    forall w
      ensures w in r <==> w in s && w != s[k]
    {
      if w in s && w != s[k] {
        var i :| 0 <= i < |s| && s[i] == w;
        assert r[if i < k then i else i - 1] == w;
      }
    }
  }

  /** The sum of the weights of the rows. */
  function Total(rows: seq<Row>): real
  {
    if rows == [] then 0.0 else rows[0].prob + Total(rows[1..])
  }

  lemma {:induction false} TotalConcat(a: seq<Row>, b: seq<Row>)
    ensures Total(a + b) == Total(a) + Total(b)
  {
    if a == [] {
      assert a + b == b;
    } else {
      assert (a + b)[1..] == a[1..] + b;
      TotalConcat(a[1..], b);
    }
  }

  /** The rows with every weight multiplied by c. */
  function Scaled(rows: seq<Row>, c: real): seq<Row>
  {
    seq(|rows|, i requires 0 <= i < |rows| => Row(rows[i].vals, rows[i].prob * c))
  }

  /** Scaling every weight scales the total by the same factor. */
  lemma {:induction false} TotalScaled(rows: seq<Row>, c: real)
    ensures Total(Scaled(rows, c)) == Total(rows) * c
  {
    if rows != [] {
      var r := Scaled(rows, c);
      assert forall i :: 0 <= i < |r| - 1 ==> r[1..][i] == Scaled(rows[1..], c)[i];
      assert r[1..] == Scaled(rows[1..], c);
      TotalScaled(rows[1..], c);
    }
  }

  /** Every variable that some factor of fs mentions. */
  function VarsOf(fs: seq<Factor>): set<Var>
  {
    set f, w | f in fs && w in f.scope :: w
  }
}
