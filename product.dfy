/**
 * The pointwise product of two factors. A scalar factor (empty scope) scales
 * the other side; two non-scalar factors are joined on the variables they
 * share, and joining factors that share nothing is an error.
 */
module Product {
  import opened Factors

  /** The variables of s that t also has, in the order of s. */
  function Common(s: seq<Var>, t: seq<Var>): (r: seq<Var>)
    ensures forall w :: w in r <==> w in s && w in t
    ensures Distinct(s) ==> Distinct(r)
  {
    if s == [] then []
    else
      assert Distinct(s) ==> Distinct(s[1..]) && s[0] !in s[1..];
      (if s[0] in t then [s[0]] else []) + Common(s[1..], t)
  }

  /** The variables of t that s lacks, in the order of t. */
  function Extra(t: seq<Var>, s: seq<Var>): (r: seq<Var>)
    ensures forall w :: w in r <==> w in t && w !in s
    ensures Distinct(t) ==> Distinct(r)
  {
    if t == [] then []
    else
      assert Distinct(t) ==> Distinct(t[1..]) && t[0] !in t[1..];
      (if t[0] !in s then [t[0]] else []) + Extra(t[1..], s)
  }

  /** The value a row over scope s gives variable w. */
  function ValueOf(row: Row, s: seq<Var>, w: Var): bool
    requires |row.vals| == |s| && w in s
  {
    row.vals[IndexOf(s, w)]
  }

  /** The values a row over scope s gives the variables vars, in the order of vars. */
  function ValuesOn(row: Row, s: seq<Var>, vars: seq<Var>): seq<bool>
    requires |row.vals| == |s| && forall w :: w in vars ==> w in s
  {
    seq(|vars|, c requires 0 <= c < |vars| => ValueOf(row, s, vars[c]))
  }

  /** The join key of every row of f: its values on the variables common. */
  function Keys(f: Factor, common: seq<Var>): (r: seq<seq<bool>>)
    requires WellFormed(f) && forall w :: w in common ==> w in f.scope
    ensures |r| == |f.rows|
  {
    seq(|f.rows|, i requires 0 <= i < |f.rows| =>
      assert f.rows[i] in f.rows;
      ValuesOn(f.rows[i], f.scope, common))
  }

  /** Two rows agree when they give every variable of both scopes the same value. */
  predicate Agree(l: Row, s1: seq<Var>, r: Row, s2: seq<Var>)
    requires |l.vals| == |s1| && |r.vals| == |s2|
  {
    forall w :: w in s1 && w in s2 ==> ValueOf(l, s1, w) == ValueOf(r, s2, w)
  }

  // ---------------------------------------------------------------------------
  // The order in which an inner join emits its pairs of rows: the left keys are
  // visited in order of first appearance; for each key, every left row with it
  // (in order) is paired with every right row with it (in order).
  // ---------------------------------------------------------------------------

  /** (i, j) for every j from j0 on whose right key is the key of left row i, by increasing j. */
  function Partners<K(==)>(k1: seq<K>, k2: seq<K>, i: nat, j0: nat): seq<(nat, nat)>
    requires i < |k1| && j0 <= |k2|
    decreases |k2| - j0
  {
    if j0 == |k2| then []
    else (if k2[j0] == k1[i] then [(i, j0)] else []) + Partners(k1, k2, i, j0 + 1)
  }

  /** The partners of every left row from i on that has the key of left row g. */
  function GroupPairs<K(==)>(k1: seq<K>, k2: seq<K>, g: nat, i: nat): seq<(nat, nat)>
    requires g < |k1| && i <= |k1|
    decreases |k1| - i
  {
    if i == |k1| then []
    else (if k1[i] == k1[g] then Partners(k1, k2, i, 0) else []) + GroupPairs(k1, k2, g, i + 1)
  }

  /** The groups of the keys that first appear at a left position from g on. */
  function JoinFrom<K(==)>(k1: seq<K>, k2: seq<K>, g: nat): seq<(nat, nat)>
    requires g <= |k1|
    decreases |k1| - g
  {
    if g == |k1| then []
    else (if IndexOf(k1, k1[g]) == g then GroupPairs(k1, k2, g, g) else []) + JoinFrom(k1, k2, g + 1)
  }

  /** The pairs (left row, right row) an inner join on keys k1 and k2 emits, in emission order. */
  function JoinPairs<K(==)>(k1: seq<K>, k2: seq<K>): seq<(nat, nat)>
  {
    JoinFrom(k1, k2, 0)
  }

  /** The pair p names a left and a right row with equal keys. */
  predicate Matches<K(==)>(k1: seq<K>, k2: seq<K>, p: (nat, nat))
  {
    p.0 < |k1| && p.1 < |k2| && k1[p.0] == k2[p.1]
  }

  /** Where the key of left row i first appears. */
  function FirstSeen<K(==)>(k1: seq<K>, i: nat): nat
    requires i < |k1|
  {
    IndexOf(k1, k1[i])
  }

  /** Emission order: by first appearance of the key, then by left row, then by right row. */
  predicate Before<K(==)>(k1: seq<K>, p: (nat, nat), q: (nat, nat))
  {
    p.0 < |k1| && q.0 < |k1|
    && (FirstSeen(k1, p.0) < FirstSeen(k1, q.0)
        || (FirstSeen(k1, p.0) == FirstSeen(k1, q.0) && (p.0 < q.0 || (p.0 == q.0 && p.1 < q.1))))
  }

  /** The pairs ps are listed in emission order. */
  predicate InEmissionOrder<K(==)>(k1: seq<K>, ps: seq<(nat, nat)>)
  {
    forall a, b :: 0 <= a < b < |ps| ==> Before(k1, ps[a], ps[b])
  }

  lemma {:induction false} PartnersSpec<K>(k1: seq<K>, k2: seq<K>, i: nat, j0: nat)
    requires i < |k1| && j0 <= |k2|
    ensures forall a :: 0 <= a < |Partners(k1, k2, i, j0)| ==>
              Partners(k1, k2, i, j0)[a].0 == i && j0 <= Partners(k1, k2, i, j0)[a].1
              && Matches(k1, k2, Partners(k1, k2, i, j0)[a])
    ensures forall a, b :: 0 <= a < b < |Partners(k1, k2, i, j0)| ==>
              Partners(k1, k2, i, j0)[a].1 < Partners(k1, k2, i, j0)[b].1
    ensures forall j :: j0 <= j < |k2| && k2[j] == k1[i] ==> (i, j) in Partners(k1, k2, i, j0)
    decreases |k2| - j0
  {
    if j0 < |k2| {
      PartnersSpec(k1, k2, i, j0 + 1);
    }
  }

  /** Every pair of a group matches, with a left row from i on that has the key of g. */
  lemma {:induction false} GroupPairsMatch<K>(k1: seq<K>, k2: seq<K>, g: nat, i: nat)
    requires g < |k1| && i <= |k1|
    ensures forall a :: 0 <= a < |GroupPairs(k1, k2, g, i)| ==>
              i <= GroupPairs(k1, k2, g, i)[a].0 && Matches(k1, k2, GroupPairs(k1, k2, g, i)[a])
              && k1[GroupPairs(k1, k2, g, i)[a].0] == k1[g]
    decreases |k1| - i
  {
    if i < |k1| {
      GroupPairsMatch(k1, k2, g, i + 1);
      PartnersSpec(k1, k2, i, 0);
      var head := if k1[i] == k1[g] then Partners(k1, k2, i, 0) else [];
      var tail := GroupPairs(k1, k2, g, i + 1);
      var all := GroupPairs(k1, k2, g, i);
      assert all == head + tail;
      forall a | 0 <= a < |all|
        ensures i <= all[a].0 && Matches(k1, k2, all[a]) && k1[all[a].0] == k1[g]
      {
        if a < |head| {
          assert all[a] == head[a];
        } else {
          assert all[a] == tail[a - |head|];
        }
      }
    }
  }

  /** The pairs ps are listed by left row, then by right row. */
  predicate PairsAscending(ps: seq<(nat, nat)>)
  {
    forall a, b :: 0 <= a < b < |ps| ==> ps[a].0 < ps[b].0 || (ps[a].0 == ps[b].0 && ps[a].1 < ps[b].1)
  }

  /** Pairs of left row i by increasing right row, then ascending pairs of later left rows, are ascending together. */
  lemma AscendingConcat(head: seq<(nat, nat)>, tail: seq<(nat, nat)>, i: nat)
    requires forall a :: 0 <= a < |head| ==> head[a].0 == i
    requires forall a, b :: 0 <= a < b < |head| ==> head[a].1 < head[b].1
    requires forall b :: 0 <= b < |tail| ==> i < tail[b].0
    requires PairsAscending(tail)
    ensures PairsAscending(head + tail)
  {
    var all := head + tail;
    forall a, b | 0 <= a < b < |all|
      ensures all[a].0 < all[b].0 || (all[a].0 == all[b].0 && all[a].1 < all[b].1)
    {
      if b < |head| {
        assert all[a] == head[a] && all[b] == head[b];
      } else if a < |head| {
        assert all[a] == head[a] && all[b] == tail[b - |head|];
      } else {
        assert all[a] == tail[a - |head|] && all[b] == tail[b - |head|];
      }
    }
  }

  /** A group lists its pairs by left row, then by right row. */
  lemma {:induction false} GroupPairsOrdered<K>(k1: seq<K>, k2: seq<K>, g: nat, i: nat)
    requires g < |k1| && i <= |k1|
    ensures PairsAscending(GroupPairs(k1, k2, g, i))
    decreases |k1| - i
  {
    if i < |k1| {
      GroupPairsOrdered(k1, k2, g, i + 1);
      GroupPairsMatch(k1, k2, g, i + 1);
      PartnersSpec(k1, k2, i, 0);
      var head := if k1[i] == k1[g] then Partners(k1, k2, i, 0) else [];
      var tail := GroupPairs(k1, k2, g, i + 1);
      assert GroupPairs(k1, k2, g, i) == head + tail;
      AscendingConcat(head, tail, i);
    }
  }

  /** A group holds every matching pair whose left row, from i on, has the key of g. */
  lemma {:induction false} GroupPairsComplete<K>(k1: seq<K>, k2: seq<K>, g: nat, i: nat)
    requires g < |k1| && i <= |k1|
    ensures forall i', j :: i <= i' < |k1| && 0 <= j < |k2| && k1[i'] == k1[g] && k2[j] == k1[i'] ==>
              (i', j) in GroupPairs(k1, k2, g, i)
    decreases |k1| - i
  {
    if i < |k1| {
      GroupPairsComplete(k1, k2, g, i + 1);
      PartnersSpec(k1, k2, i, 0);
      var head := if k1[i] == k1[g] then Partners(k1, k2, i, 0) else [];
      var tail := GroupPairs(k1, k2, g, i + 1);
      assert GroupPairs(k1, k2, g, i) == head + tail;
    }
  }

  /** Every pair of the group of a first-seen key g has a key first seen at g. */
  lemma GroupPairsFirstSeen<K>(k1: seq<K>, k2: seq<K>, g: nat)
    requires g < |k1| && IndexOf(k1, k1[g]) == g
    ensures forall a :: 0 <= a < |GroupPairs(k1, k2, g, g)| ==>
              Matches(k1, k2, GroupPairs(k1, k2, g, g)[a]) && FirstSeen(k1, GroupPairs(k1, k2, g, g)[a].0) == g
  {
    GroupPairsMatch(k1, k2, g, g);
  }

  lemma {:induction false} JoinFromMatches<K>(k1: seq<K>, k2: seq<K>, g: nat)
    requires g <= |k1|
    ensures forall a :: 0 <= a < |JoinFrom(k1, k2, g)| ==>
              Matches(k1, k2, JoinFrom(k1, k2, g)[a]) && g <= FirstSeen(k1, JoinFrom(k1, k2, g)[a].0)
    decreases |k1| - g
  {
    if g < |k1| {
      JoinFromMatches(k1, k2, g + 1);
      var first := IndexOf(k1, k1[g]) == g;
      var head := if first then GroupPairs(k1, k2, g, g) else [];
      if first {
        GroupPairsFirstSeen(k1, k2, g);
      }
      var tail := JoinFrom(k1, k2, g + 1);
      var all := JoinFrom(k1, k2, g);
      assert all == head + tail;
      forall a | 0 <= a < |all|
        ensures Matches(k1, k2, all[a]) && g <= FirstSeen(k1, all[a].0)
      {
        if a >= |head| {
          assert all[a] == tail[a - |head|];
        } else {
          assert all[a] == head[a];
        }
      }
    }
  }

  /** The group of a first-seen key g is in emission order. */
  lemma GroupPairsInOrder<K>(k1: seq<K>, k2: seq<K>, g: nat)
    requires g < |k1| && IndexOf(k1, k1[g]) == g
    ensures InEmissionOrder(k1, GroupPairs(k1, k2, g, g))
  {
    var gp := GroupPairs(k1, k2, g, g);
    GroupPairsFirstSeen(k1, k2, g);
    GroupPairsOrdered(k1, k2, g, g);
    forall a, b | 0 <= a < b < |gp|
      ensures Before(k1, gp[a], gp[b])
    {
      assert FirstSeen(k1, gp[a].0) == g == FirstSeen(k1, gp[b].0);
    }
  }

  /** Two runs of pairs, each in emission order, the first all of key first seen at g and the second all later, are in emission order together. */
  lemma OrderedConcat<K>(k1: seq<K>, head: seq<(nat, nat)>, tail: seq<(nat, nat)>, g: nat)
    requires InEmissionOrder(k1, head) && InEmissionOrder(k1, tail)
    requires forall a :: 0 <= a < |head| ==> head[a].0 < |k1| && FirstSeen(k1, head[a].0) == g
    requires forall b :: 0 <= b < |tail| ==> tail[b].0 < |k1| && g < FirstSeen(k1, tail[b].0)
    ensures InEmissionOrder(k1, head + tail)
  {
    var all := head + tail;
    forall a, b | 0 <= a < b < |all|
      ensures Before(k1, all[a], all[b])
    {
      if b < |head| {
        assert all[a] == head[a] && all[b] == head[b];
      } else if a < |head| {
        assert all[a] == head[a] && all[b] == tail[b - |head|];
      } else {
        assert all[a] == tail[a - |head|] && all[b] == tail[b - |head|];
      }
    }
  }

  lemma {:induction false} JoinFromOrdered<K>(k1: seq<K>, k2: seq<K>, g: nat)
    requires g <= |k1|
    ensures InEmissionOrder(k1, JoinFrom(k1, k2, g))
    decreases |k1| - g
  {
    if g < |k1| {
      var head := if IndexOf(k1, k1[g]) == g then GroupPairs(k1, k2, g, g) else [];
      var tail := JoinFrom(k1, k2, g + 1);
      assert JoinFrom(k1, k2, g) == head + tail;
      JoinFromOrdered(k1, k2, g + 1);
      JoinFromMatches(k1, k2, g + 1);
      if head != [] {
        GroupPairsFirstSeen(k1, k2, g);
        GroupPairsInOrder(k1, k2, g);
      }
      OrderedConcat(k1, head, tail, g);
    }
  }

  /** A matching pair whose key is first seen at g or later is emitted from g on. */
  lemma {:induction false} JoinFromHas<K>(k1: seq<K>, k2: seq<K>, g: nat, i: nat, j: nat)
    requires g <= |k1| && i < |k1| && j < |k2| && k1[i] == k2[j] && g <= FirstSeen(k1, i)
    ensures (i, j) in JoinFrom(k1, k2, g)
    decreases |k1| - g
  {
    var first := IndexOf(k1, k1[g]) == g;
    var head := if first then GroupPairs(k1, k2, g, g) else [];
    var tail := JoinFrom(k1, k2, g + 1);
    assert JoinFrom(k1, k2, g) == head + tail;
    if FirstSeen(k1, i) == g {
      assert (i, j) in head by {
        GroupPairsComplete(k1, k2, g, g);
        assert first && k1[i] == k1[g];
      }
    } else {
      JoinFromHas(k1, k2, g + 1, i, j);
    }
  }

  lemma JoinFromComplete<K>(k1: seq<K>, k2: seq<K>, g: nat)
    requires g <= |k1|
    ensures forall i, j :: 0 <= i < |k1| && 0 <= j < |k2| && k1[i] == k2[j] && g <= FirstSeen(k1, i) ==>
              (i, j) in JoinFrom(k1, k2, g)
  {
    forall i, j | 0 <= i < |k1| && 0 <= j < |k2| && k1[i] == k2[j] && g <= FirstSeen(k1, i)
      ensures (i, j) in JoinFrom(k1, k2, g)
    {
      JoinFromHas(k1, k2, g, i, j);
    }
  }

  /**
   * The join emits exactly the pairs of rows whose keys are equal, each once,
   * grouped by key in order of first appearance on the left, left rows outer
   * and right rows inner.
   */
  lemma JoinPairsSpec<K>(k1: seq<K>, k2: seq<K>)
    ensures forall a :: 0 <= a < |JoinPairs(k1, k2)| ==> Matches(k1, k2, JoinPairs(k1, k2)[a])
    ensures forall i, j :: 0 <= i < |k1| && 0 <= j < |k2| && k1[i] == k2[j] ==> (i, j) in JoinPairs(k1, k2)
    ensures forall a, b :: 0 <= a < b < |JoinPairs(k1, k2)| ==>
              Before(k1, JoinPairs(k1, k2)[a], JoinPairs(k1, k2)[b])
  {
    JoinFromMatches(k1, k2, 0);
    JoinFromOrdered(k1, k2, 0);
    JoinFromComplete(k1, k2, 0);
  }

  // ---------------------------------------------------------------------------
  // The product itself.
  // ---------------------------------------------------------------------------

  /** The joined row: the left values, then the right values on the extra variables. */
  function Combine(l: Row, r: Row, s2: seq<Var>, extra: seq<Var>): Row
    requires |r.vals| == |s2| && forall w :: w in extra ==> w in s2
  {
    Row(l.vals + ValuesOn(r, s2, extra), l.prob * r.prob)
  }

  /** The inner join of two non-scalar factors on their common variables. */
  function Join(f1: Factor, f2: Factor): (r: Factor)
    requires WellFormed(f1) && WellFormed(f2)
    ensures WellFormed(r)
    ensures r.scope == f1.scope + Extra(f2.scope, f1.scope)
  {
    var common := Common(f1.scope, f2.scope);
    var extra := Extra(f2.scope, f1.scope);
    var k1, k2 := Keys(f1, common), Keys(f2, common);
    var pairs := JoinPairs(k1, k2);
    JoinPairsSpec(k1, k2);
    var rows := seq(|pairs|, a requires 0 <= a < |pairs| =>
      assert f2.rows[pairs[a].1] in f2.rows;
      Combine(f1.rows[pairs[a].0], f2.rows[pairs[a].1], f2.scope, extra));
    assert Distinct(f1.scope + extra) by {
      var s := f1.scope + extra;
      forall i, j | 0 <= i < j < |s|
        ensures s[i] != s[j]
      {
        if j >= |f1.scope| {
          assert s[j] in extra;
          if i < |f1.scope| {
            assert s[i] in f1.scope;
          }
        }
      }
    }
    assert Rectangular(rows, |f1.scope| + |extra|) by {
      forall row | row in rows
        ensures |row.vals| == |f1.scope| + |extra|
      {
        var a :| 0 <= a < |rows| && rows[a] == row;
        assert f1.rows[pairs[a].0] in f1.rows;
      }
    }
    Factor(f1.scope + extra, rows)
  }

  /**
   * multiply(factor1, factor2). With exactly one scalar side, the other side
   * comes back with every weight multiplied by the scalar's first weight;
   * otherwise the sides are joined on their common variables. Sides that
   * share no variable, two scalars included, are an error, and so is a scalar
   * with no row facing a side that has rows.
   */
  function Multiply(f1: Factor, f2: Factor): (r: Result<Factor>)
    requires WellFormed(f1) && WellFormed(f2)
    ensures r.Err? ==> r.error == NoSharedVariable || r.error == EmptyScalar
    ensures r == Err(NoSharedVariable) <==>
              (f1.scope == []) == (f2.scope == []) && forall w :: w in f1.scope ==> w !in f2.scope
    ensures r == Err(EmptyScalar) <==>
              (f1.scope != [] && f2.scope == [] && f1.rows != [] && f2.rows == [])
              || (f1.scope == [] && f2.scope != [] && f2.rows != [] && f1.rows == [])
    ensures r.Ok? ==> WellFormed(r.value)
    ensures r.Ok? ==> forall w :: w in r.value.scope <==> w in f1.scope || w in f2.scope
    ensures r.Ok? && f2.scope == [] ==>
              r.value.scope == f1.scope && |r.value.rows| == |f1.rows|
              && forall i :: 0 <= i < |f1.rows| ==>
                   r.value.rows[i].vals == f1.rows[i].vals
                   && r.value.rows[i].prob == f1.rows[i].prob * f2.rows[0].prob
    ensures r.Ok? && f1.scope == [] ==>
              r.value.scope == f2.scope && |r.value.rows| == |f2.rows|
              && forall i :: 0 <= i < |f2.rows| ==>
                   r.value.rows[i].vals == f2.rows[i].vals
                   && r.value.rows[i].prob == f2.rows[i].prob * f1.rows[0].prob
    ensures r.Ok? && f1.scope != [] && f2.scope != [] ==>
              r.value.scope == f1.scope + Extra(f2.scope, f1.scope)
  {
    if (f1.scope == []) != (f2.scope == []) then
      if f2.scope == [] then
        if f1.rows == [] then Ok(f1)
        else if f2.rows == [] then Err(EmptyScalar)
        else Ok(Factor(f1.scope, Scaled(f1.rows, f2.rows[0].prob)))
      else
        if f2.rows == [] then Ok(f2)
        else if f1.rows == [] then Err(EmptyScalar)
        else Ok(Factor(f2.scope, Scaled(f2.rows, f1.rows[0].prob)))
    else if Common(f1.scope, f2.scope) == [] then
      assert forall w :: w in f1.scope ==> w !in f2.scope;
      Err(NoSharedVariable)
    else
      assert Common(f1.scope, f2.scope)[0] in f2.scope;
      Ok(Join(f1, f2))
  }

  /** Multiplying by the scalar 1 gives back the same factor, rows in the same order. */
  lemma MultiplyByOne(f: Factor)
    requires WellFormed(f) && f.scope != []
    ensures Multiply(f, Factor([], [Row([], 1.0)])) == Ok(f)
  {
    var r := Multiply(f, Factor([], [Row([], 1.0)]));
    if f.rows != [] {
      assert r.value.rows == f.rows;
    }
  }

  /** The pairs of rows the join of f1 and f2 emits, in emission order. */
  function PairsOf(f1: Factor, f2: Factor): seq<(nat, nat)>
    requires WellFormed(f1) && WellFormed(f2)
  {
    JoinPairs(Keys(f1, Common(f1.scope, f2.scope)), Keys(f2, Common(f1.scope, f2.scope)))
  }

  /** Two rows have equal join keys exactly when they agree on every common variable. */
  lemma KeysMatchIffAgree(f1: Factor, f2: Factor, i: nat, j: nat)
    requires WellFormed(f1) && WellFormed(f2) && i < |f1.rows| && j < |f2.rows|
    ensures Keys(f1, Common(f1.scope, f2.scope))[i] == Keys(f2, Common(f1.scope, f2.scope))[j]
            <==> Agree(f1.rows[i], f1.scope, f2.rows[j], f2.scope)
  {
    var common := Common(f1.scope, f2.scope);
    var k1, k2 := Keys(f1, common)[i], Keys(f2, common)[j];
    var l, r := f1.rows[i], f2.rows[j];
    if k1 == k2 {
      forall w | w in f1.scope && w in f2.scope
        ensures ValueOf(l, f1.scope, w) == ValueOf(r, f2.scope, w)
      {
        var c := IndexOf(common, w);
        assert k1[c] == k2[c];
      }
    }
    if Agree(l, f1.scope, r, f2.scope) {
      assert forall c :: 0 <= c < |common| ==> k1[c] == k2[c];
    }
  }

  /** Row a of a join holds, column by column, the values of the two rows that pair a names. */
  predicate Joined(f1: Factor, f2: Factor, p: (nat, nat), s: seq<Var>, out: Row)
    requires WellFormed(f1) && WellFormed(f2)
  {
    p.0 < |f1.rows| && p.1 < |f2.rows| && |out.vals| == |s|
    && (forall w :: w in f1.scope ==> w in s) && (forall w :: w in f2.scope ==> w in s)
    && out.prob == f1.rows[p.0].prob * f2.rows[p.1].prob
    && (forall w :: w in f1.scope ==> ValueOf(out, s, w) == ValueOf(f1.rows[p.0], f1.scope, w))
    && (forall w :: w in f2.scope ==> ValueOf(out, s, w) == ValueOf(f2.rows[p.1], f2.scope, w))
  }

  /** A combined row gives every variable of either side that side's value. */
  lemma CombineValues(l: Row, r: Row, s1: seq<Var>, s2: seq<Var>, extra: seq<Var>)
    requires |l.vals| == |s1| && |r.vals| == |s2| && extra == Extra(s2, s1)
    requires Agree(l, s1, r, s2)
    ensures |Combine(l, r, s2, extra).vals| == |s1 + extra|
    ensures forall w :: w in s1 ==> ValueOf(Combine(l, r, s2, extra), s1 + extra, w) == ValueOf(l, s1, w)
    ensures forall w :: w in s2 ==> ValueOf(Combine(l, r, s2, extra), s1 + extra, w) == ValueOf(r, s2, w)
  {
    var row, s := Combine(l, r, s2, extra), s1 + extra;
    forall w | w in s1
      ensures ValueOf(row, s, w) == ValueOf(l, s1, w)
    {
      IndexOfConcat(s1, extra, w);
    }
    forall w | w in s2
      ensures ValueOf(row, s, w) == ValueOf(r, s2, w)
    {
      IndexOfConcat(s1, extra, w);
      if w !in s1 {
        var e := IndexOf(extra, w);
        assert row.vals[|s1| + e] == ValuesOn(r, s2, extra)[e];
      }
    }
  }

  /**
   * The rows of a join: one per emitted pair, in emission order; each is the
   * union of a left and a right row that agree on the common variables, and
   * its weight is the product of theirs. Every agreeing pair is emitted.
   */
  lemma MultiplyRows(f1: Factor, f2: Factor)
    requires WellFormed(f1) && WellFormed(f2) && f1.scope != [] && f2.scope != []
    requires Multiply(f1, f2).Ok?
    ensures |Multiply(f1, f2).value.rows| == |PairsOf(f1, f2)|
    ensures forall a :: 0 <= a < |PairsOf(f1, f2)| ==>
              Joined(f1, f2, PairsOf(f1, f2)[a], Multiply(f1, f2).value.scope, Multiply(f1, f2).value.rows[a])
              && Agree(f1.rows[PairsOf(f1, f2)[a].0], f1.scope, f2.rows[PairsOf(f1, f2)[a].1], f2.scope)
    ensures forall i, j ::
              (0 <= i < |f1.rows| && 0 <= j < |f2.rows| && Agree(f1.rows[i], f1.scope, f2.rows[j], f2.scope))
              ==> (i, j) in PairsOf(f1, f2)
  {
    var common := Common(f1.scope, f2.scope);
    var extra := Extra(f2.scope, f1.scope);
    var k1, k2 := Keys(f1, common), Keys(f2, common);
    var pairs := PairsOf(f1, f2);
    JoinPairsSpec(k1, k2);
    var out := Multiply(f1, f2).value;
    assert out == Join(f1, f2);
    forall a | 0 <= a < |pairs|
      ensures Joined(f1, f2, pairs[a], out.scope, out.rows[a])
      ensures Agree(f1.rows[pairs[a].0], f1.scope, f2.rows[pairs[a].1], f2.scope)
    {
      var i, j := pairs[a].0, pairs[a].1;
      var l, r, row := f1.rows[i], f2.rows[j], out.rows[a];
      KeysMatchIffAgree(f1, f2, i, j);
      assert row == Combine(l, r, f2.scope, extra);
      CombineValues(l, r, f1.scope, f2.scope, extra);
    }
    forall i, j | 0 <= i < |f1.rows| && 0 <= j < |f2.rows| && Agree(f1.rows[i], f1.scope, f2.rows[j], f2.scope)
      ensures (i, j) in pairs
    {
      KeysMatchIffAgree(f1, f2, i, j);
    }
  }

  // ---------------------------------------------------------------------------
  // Commutativity: the two orders of a product hold the same entries.
  // ---------------------------------------------------------------------------

  /** Row x over scope s and row y over scope t: the same variables, the same values, the same weight. */
  predicate SameEntry(x: Row, s: seq<Var>, y: Row, t: seq<Var>)
    requires |x.vals| == |s| && |y.vals| == |t|
  {
    x.prob == y.prob && (forall w :: w in s ==> w in t) && (forall w :: w in t ==> w in s) && Agree(x, s, y, t)
  }

  /** Some row of b holds the entry of row x over scope s. */
  predicate HasEntry(b: Factor, x: Row, s: seq<Var>)
    requires WellFormed(b) && |x.vals| == |s|
  {
    exists j :: 0 <= j < |b.rows| && SameEntry(x, s, b.rows[j], b.scope)
  }

  /** Every row of a has a row of b holding the same entry. */
  predicate Covers(a: Factor, b: Factor)
    requires WellFormed(a) && WellFormed(b)
  {
    forall i :: 0 <= i < |a.rows| ==> HasEntry(b, a.rows[i], a.scope)
  }

  /** Row a of a join is the row that pairs left row PairsOf[a].0 with right row PairsOf[a].1. */
  lemma JoinRowAt(f1: Factor, f2: Factor, a: nat)
    requires WellFormed(f1) && WellFormed(f2) && f1.scope != [] && f2.scope != []
    requires Multiply(f1, f2).Ok? && a < |Multiply(f1, f2).value.rows|
    ensures a < |PairsOf(f1, f2)|
    ensures Joined(f1, f2, PairsOf(f1, f2)[a], Multiply(f1, f2).value.scope, Multiply(f1, f2).value.rows[a])
    ensures Agree(f1.rows[PairsOf(f1, f2)[a].0], f1.scope, f2.rows[PairsOf(f1, f2)[a].1], f2.scope)
  {
    MultiplyRows(f1, f2);
  }

  /** Left row i and right row j that agree are paired by some row b of the join. */
  lemma JoinRowOf(f1: Factor, f2: Factor, i: nat, j: nat) returns (b: nat)
    requires WellFormed(f1) && WellFormed(f2) && f1.scope != [] && f2.scope != []
    requires Multiply(f1, f2).Ok? && i < |f1.rows| && j < |f2.rows|
    requires Agree(f1.rows[i], f1.scope, f2.rows[j], f2.scope)
    ensures b < |PairsOf(f1, f2)| && b < |Multiply(f1, f2).value.rows| && PairsOf(f1, f2)[b] == (i, j)
  {
    MultiplyRows(f1, f2);
    b :| 0 <= b < |PairsOf(f1, f2)| && PairsOf(f1, f2)[b] == (i, j);
  }

  /** The row joining l and r over scope s1 and the row joining r and l over s2 hold the same entry. */
  lemma JoinedSwap(f1: Factor, f2: Factor, p: (nat, nat), s1: seq<Var>, out1: Row, s2: seq<Var>, out2: Row)
    requires WellFormed(f1) && WellFormed(f2)
    requires Joined(f1, f2, p, s1, out1) && Joined(f2, f1, (p.1, p.0), s2, out2)
    requires forall w :: w in s1 ==> w in f1.scope || w in f2.scope
    requires forall w :: w in s2 ==> w in f1.scope || w in f2.scope
    ensures SameEntry(out1, s1, out2, s2)
  {
    forall w | w in s1 && w in s2
      ensures ValueOf(out1, s1, w) == ValueOf(out2, s2, w)
    {
      if w in f1.scope {
        assert ValueOf(out1, s1, w) == ValueOf(f1.rows[p.0], f1.scope, w);
      } else {
        assert ValueOf(out1, s1, w) == ValueOf(f2.rows[p.1], f2.scope, w);
      }
    }
  }

  /** Row a of the join of f1 and f2 reappears, as the same entry, in the join of f2 and f1. */
  lemma JoinRowCovered(f1: Factor, f2: Factor, a: nat)
    requires WellFormed(f1) && WellFormed(f2) && f1.scope != [] && f2.scope != []
    requires Multiply(f1, f2).Ok? && Multiply(f2, f1).Ok? && a < |Multiply(f1, f2).value.rows|
    ensures HasEntry(Multiply(f2, f1).value, Multiply(f1, f2).value.rows[a], Multiply(f1, f2).value.scope)
  {
    var r1, r2 := Multiply(f1, f2).value, Multiply(f2, f1).value;
    JoinRowAt(f1, f2, a);
    var p := PairsOf(f1, f2)[a];
    assert Agree(f2.rows[p.1], f2.scope, f1.rows[p.0], f1.scope);
    var b := JoinRowOf(f2, f1, p.1, p.0);
    JoinRowAt(f2, f1, b);
    JoinedSwap(f1, f2, p, r1.scope, r1.rows[a], r2.scope, r2.rows[b]);
  }

  /** Every row of the join of f1 and f2 reappears, as the same entry, in the join of f2 and f1. */
  lemma JoinCovers(f1: Factor, f2: Factor)
    requires WellFormed(f1) && WellFormed(f2) && f1.scope != [] && f2.scope != []
    requires Multiply(f1, f2).Ok? && Multiply(f2, f1).Ok?
    ensures Covers(Multiply(f1, f2).value, Multiply(f2, f1).value)
  {
    forall a | 0 <= a < |Multiply(f1, f2).value.rows|
      ensures HasEntry(Multiply(f2, f1).value, Multiply(f1, f2).value.rows[a], Multiply(f1, f2).value.scope)
    {
      JoinRowCovered(f1, f2, a);
    }
  }

  /**
   * The product does not depend on the order of its operands: one order
   * succeeds exactly when the other does; with one scalar side both orders
   * give the same factor; and every row of either result holds an entry
   * that the other result also holds.
   */
  lemma MultiplyCommutes(f1: Factor, f2: Factor)
    requires WellFormed(f1) && WellFormed(f2)
    ensures Multiply(f1, f2).Ok? <==> Multiply(f2, f1).Ok?
    ensures (f1.scope == []) != (f2.scope == []) ==> Multiply(f1, f2) == Multiply(f2, f1)
    ensures Multiply(f1, f2).Ok? ==>
              Covers(Multiply(f1, f2).value, Multiply(f2, f1).value)
              && Covers(Multiply(f2, f1).value, Multiply(f1, f2).value)
  {
    if Multiply(f1, f2).Ok? {
      if (f1.scope == []) != (f2.scope == []) {
        var r := Multiply(f1, f2).value;
        assert Multiply(f2, f1).value == r;
        forall a | 0 <= a < |r.rows|
          ensures HasEntry(r, r.rows[a], r.scope)
        {
          assert SameEntry(r.rows[a], r.scope, r.rows[a], r.scope);
        }
      } else {
        JoinCovers(f1, f2);
        JoinCovers(f2, f1);
      }
    }
  }
}
