/**
 * The variable-elimination driver. It works on a list of live factors:
 * evidence variables are restricted to true, each hidden variable is summed
 * out of the product of the factors that mention it, and what is left is
 * multiplied together and normalised.
 */
module Elimination {
  import opened Factors
  import opened Restriction
  import opened Marginal
  import opened Product
  import opened Normalization

  predicate AllWellFormed(fs: seq<Factor>)
  {
    forall i :: 0 <= i < |fs| ==> WellFormed(fs[i])
  }

  /** The variables listed in s, as a set. */
  function Names(s: seq<Var>): set<Var>
  {
    set w | w in s
  }

  // ---------------------------------------------------------------------------
  // Evidence
  // ---------------------------------------------------------------------------

  /** One evidence step on one factor: restrict e to true if the factor mentions e. */
  function RestrictIfMentioned(f: Factor, e: Var): (r: Factor)
    requires WellFormed(f)
    ensures WellFormed(r)
    ensures forall w :: w in r.scope <==> w in f.scope && w != e
  {
    if e in f.scope then Restrict(f, e, true).value else f
  }

  /** A factor after every evidence step, in the order of the evidence list. */
  function RestrictAll(f: Factor, evidence: seq<Var>): (r: Factor)
    requires WellFormed(f)
    ensures WellFormed(r)
    ensures forall w :: w in r.scope <==> w in f.scope && w !in evidence
    decreases |evidence|
  {
    if evidence == [] then f
    else
      var n := |evidence| - 1;
      assert evidence == evidence[..n] + [evidence[n]];
      RestrictIfMentioned(RestrictAll(f, evidence[..n]), evidence[n])
  }

  /** The factor list after the evidence phase. */
  function EvidenceApplied(factors: seq<Factor>, evidence: seq<Var>): (r: seq<Factor>)
    requires AllWellFormed(factors)
    ensures |r| == |factors| && AllWellFormed(r)
  {
    seq(|factors|, i requires 0 <= i < |factors| => RestrictAll(factors[i], evidence))
  }

  /** After the evidence phase, no factor mentions an evidence variable, and no other variable is lost. */
  lemma EvidenceAppliedVars(factors: seq<Factor>, evidence: seq<Var>)
    requires AllWellFormed(factors)
    ensures forall w :: w in VarsOf(EvidenceApplied(factors, evidence)) <==>
              w in VarsOf(factors) && w !in evidence
  {
    var live := EvidenceApplied(factors, evidence);
    forall w
      ensures w in VarsOf(live) <==> w in VarsOf(factors) && w !in evidence
    {
      if w in VarsOf(live) {
        var f :| f in live && w in f.scope;
        var i :| 0 <= i < |live| && live[i] == f;
        assert w in factors[i].scope;
      }
      if w in VarsOf(factors) && w !in evidence {
        var f :| f in factors && w in f.scope;
        var i :| 0 <= i < |factors| && factors[i] == f;
        assert w in live[i].scope;
      }
    }
  }

  /** var_elimination.py lines 121-124: restrict every factor that mentions an evidence variable, in place. */
  method ApplyEvidence(factors: seq<Factor>, evidence: seq<Var>) returns (live: seq<Factor>)
    requires AllWellFormed(factors)
    ensures live == EvidenceApplied(factors, evidence)
  {
    live := factors;
    for n := 0 to |evidence|
      invariant |live| == |factors|
      invariant forall i :: 0 <= i < |live| ==> live[i] == RestrictAll(factors[i], evidence[..n])
    {
      assert evidence[..n + 1][..n] == evidence[..n];
      for i := 0 to |live|
        invariant |live| == |factors|
        invariant forall m :: 0 <= m < i ==> live[m] == RestrictAll(factors[m], evidence[..n + 1])
        invariant forall m :: i <= m < |live| ==> live[m] == RestrictAll(factors[m], evidence[..n])
      {
        if evidence[n] in live[i].scope {
          live := live[i := Restrict(live[i], evidence[n], true).value];
        }
      }
    }
    assert evidence[..|evidence|] == evidence;
  }

  // ---------------------------------------------------------------------------
  // Elimination of one hidden variable
  // ---------------------------------------------------------------------------

  /** The factors that mention h, in list order. */
  function Mentioning(fs: seq<Factor>, h: Var): (r: seq<Factor>)
    ensures forall i :: 0 <= i < |r| ==> h in r[i].scope
  {
    if fs == [] then [] else (if h in fs[0].scope then [fs[0]] else []) + Mentioning(fs[1..], h)
  }

  /** The factors that do not mention h, in list order. */
  function NotMentioning(fs: seq<Factor>, h: Var): (r: seq<Factor>)
    ensures forall i :: 0 <= i < |r| ==> h !in r[i].scope
    ensures |r| + |Mentioning(fs, h)| == |fs|
  {
    if fs == [] then [] else (if h in fs[0].scope then [] else [fs[0]]) + NotMentioning(fs[1..], h)
  }

  /** The two filters split the list: every factor goes to exactly the side that matches it. */
  lemma {:induction false} MentioningMembers(fs: seq<Factor>, h: Var)
    ensures forall f :: f in Mentioning(fs, h) <==> f in fs && h in f.scope
    ensures forall f :: f in NotMentioning(fs, h) <==> f in fs && h !in f.scope
  {
    if fs != [] {
      MentioningMembers(fs[1..], h);
      assert forall f :: f in fs <==> f == fs[0] || f in fs[1..] by {
        assert fs == [fs[0]] + fs[1..];
      }
    }
  }

  /** The factors of a suffix that mention h, one element at a time. */
  lemma MentioningAt(fs: seq<Factor>, i: nat, h: Var)
    requires i < |fs|
    ensures Mentioning(fs[i..], h) == (if h in fs[i].scope then [fs[i]] else []) + Mentioning(fs[i + 1..], h)
  {
    assert fs[i..][1..] == fs[i + 1..];
  }

  /** The factors of a suffix that do not mention h, one element at a time. */
  lemma NotMentioningAt(fs: seq<Factor>, i: nat, h: Var)
    requires i < |fs|
    ensures NotMentioning(fs[i..], h) == (if h in fs[i].scope then [] else [fs[i]]) + NotMentioning(fs[i + 1..], h)
  {
    assert fs[i..][1..] == fs[i + 1..];
  }

  /** With no factor mentioning h, the factors not mentioning it are the whole list. */
  lemma {:induction false} NoneMentioning(fs: seq<Factor>, h: Var)
    requires Mentioning(fs, h) == []
    ensures NotMentioning(fs, h) == fs
  {
    if fs != [] {
      assert h !in fs[0].scope;
      NoneMentioning(fs[1..], h);
    }
  }

  /** s back to front. */
  function Reversed<T>(s: seq<T>): (r: seq<T>)
    ensures |r| == |s| && forall i :: 0 <= i < |s| ==> r[i] == s[|s| - 1 - i]
  {
    if s == [] then [] else Reversed(s[1..]) + [s[0]]
  }

  lemma ReversedCons<T>(x: T, s: seq<T>)
    ensures Reversed([x] + s) == Reversed(s) + [x]
  {
    assert ([x] + s)[1..] == s;
  }

  lemma VarsOfConcat(a: seq<Factor>, b: seq<Factor>)
    ensures VarsOf(a + b) == VarsOf(a) + VarsOf(b)
  {
    assert forall f :: f in a + b <==> f in a || f in b;
  }

  /** The variables of the list are shared out between the two filters. */
  lemma {:induction false} VarsOfMentioning(fs: seq<Factor>, h: Var)
    ensures VarsOf(NotMentioning(fs, h)) + VarsOf(Mentioning(fs, h)) == VarsOf(fs)
  {
    if fs != [] {
      VarsOfMentioning(fs[1..], h);
      var x := if h in fs[0].scope then [fs[0]] else [];
      var y := if h in fs[0].scope then [] else [fs[0]];
      VarsOfConcat(x, Mentioning(fs[1..], h));
      VarsOfConcat(y, NotMentioning(fs[1..], h));
      assert fs == [fs[0]] + fs[1..];
      VarsOfConcat([fs[0]], fs[1..]);
    }
  }

  lemma VarsOfReversed(s: seq<Factor>)
    ensures VarsOf(Reversed(s)) == VarsOf(s)
  {
    var r := Reversed(s);
    assert forall f :: f in r ==> f in s by {
      forall f | f in r
        ensures f in s
      {
        var i :| 0 <= i < |r| && r[i] == f;
        assert s[|s| - 1 - i] == f;
      }
    }
    assert forall f :: f in s ==> f in r by {
      forall f | f in s
        ensures f in r
      {
        var i :| 0 <= i < |s| && s[i] == f;
        assert r[|s| - 1 - i] == f;
      }
    }
  }

  /** The left-to-right product acc * fs[0] * fs[1] * ..., stopping at the first error. */
  function FoldMultiply(acc: Factor, fs: seq<Factor>): (r: Result<Factor>)
    requires WellFormed(acc) && AllWellFormed(fs)
    ensures r.Err? ==> r.error == NoSharedVariable || r.error == EmptyScalar
    ensures r.Ok? ==> WellFormed(r.value)
    ensures r.Ok? ==> forall w :: w in r.value.scope <==> w in acc.scope || w in VarsOf(fs)
    decreases |fs|
  {
    if fs == [] then Ok(acc)
    else
      assert VarsOf(fs) == VarsOf([fs[0]]) + VarsOf(fs[1..]) by {
        assert fs == [fs[0]] + fs[1..];
        VarsOfConcat([fs[0]], fs[1..]);
      }
      match Multiply(acc, fs[0])
      case Err(e) => Err(e)
      case Ok(p) => FoldMultiply(p, fs[1..])
  }

  /** Factors that all mention h multiply without error. */
  lemma {:induction false} FoldMultiplySharing(acc: Factor, fs: seq<Factor>, h: Var)
    requires WellFormed(acc) && AllWellFormed(fs)
    requires h in acc.scope && forall i :: 0 <= i < |fs| ==> h in fs[i].scope
    ensures FoldMultiply(acc, fs).Ok?
    decreases |fs|
  {
    if fs != [] {
      assert h in fs[0].scope;
      var p := Multiply(acc, fs[0]).value;
      FoldMultiplySharing(p, fs[1..], h);
    }
  }

  /** var_elimination.py lines 140-141: sum h out if the product still mentions it. */
  function SumOutIfMentioned(p: Factor, h: Var): (r: Factor)
    requires WellFormed(p)
    ensures WellFormed(r)
    ensures forall w :: w in r.scope <==> w in p.scope && w != h
  {
    if h in p.scope then SumOut(p, h).value else p
  }

  lemma EliminatedVars(collected: seq<Factor>, p: Factor, r: Factor, h: Var)
    requires collected != []
    requires forall w :: w in p.scope <==> w in collected[0].scope || w in VarsOf(collected[1..])
    requires forall w :: w in r.scope <==> w in p.scope && w != h
    ensures VarsOf([r]) == VarsOf(collected) - {h}
  {
    assert collected == [collected[0]] + collected[1..];
    VarsOfConcat([collected[0]], collected[1..]);
  }

  /** var_elimination.py lines 134-141: multiply the collected factors together, then sum h out. */
  function Eliminated(collected: seq<Factor>, h: Var): (r: Factor)
    requires collected != [] && AllWellFormed(collected)
    requires forall i :: 0 <= i < |collected| ==> h in collected[i].scope
    ensures WellFormed(r)
    ensures VarsOf([r]) == VarsOf(collected) - {h}
  {
    FoldMultiplySharing(collected[0], collected[1..], h);
    var p := FoldMultiply(collected[0], collected[1..]).value;
    var r := SumOutIfMentioned(p, h);
    EliminatedVars(collected, p, r, h);
    r
  }

  /** The factors of live that mention h, in the order the source pops them: from the back. */
  function Collected(live: seq<Factor>, h: Var): (r: seq<Factor>)
    requires AllWellFormed(live)
    ensures AllWellFormed(r)
    ensures forall i :: 0 <= i < |r| ==> h in r[i].scope
    ensures VarsOf(r) == VarsOf(Mentioning(live, h))
  {
    MentioningMembers(live, h);
    VarsOfReversed(Mentioning(live, h));
    var r := Reversed(Mentioning(live, h));
    assert forall i :: 0 <= i < |r| ==> r[i] in Mentioning(live, h);
    r
  }

  /** The factors of live that do not mention h, in list order. */
  function Kept(live: seq<Factor>, h: Var): (r: seq<Factor>)
    requires AllWellFormed(live)
    ensures AllWellFormed(r) && r == NotMentioning(live, h)
  {
    MentioningMembers(live, h);
    var r := NotMentioning(live, h);
    assert forall i :: 0 <= i < |r| ==> r[i] in live;
    r
  }

  /**
   * var_elimination.py lines 127-142 for one hidden variable h: the factors that mention h leave
   * the list and their product with h summed out is appended.
   */
  function EliminateStep(live: seq<Factor>, h: Var): (r: seq<Factor>)
    requires AllWellFormed(live)
    ensures AllWellFormed(r)
  {
    var collected := Collected(live, h);
    Kept(live, h) + (if collected == [] then [] else [Eliminated(collected, h)])
  }

  /**
   * After one elimination step no factor mentions h and no other variable is
   * lost; the factors that did not mention h stay untouched, in order, at the
   * front; k >= 1 factors that mentioned h become one, so the list shrinks by
   * k - 1; with no factor mentioning h the list is unchanged.
   */
  lemma EliminateStepSpec(live: seq<Factor>, h: Var)
    requires AllWellFormed(live)
    ensures VarsOf(EliminateStep(live, h)) == VarsOf(live) - {h}
    ensures EliminateStep(live, h)[..|NotMentioning(live, h)|] == NotMentioning(live, h)
    ensures Mentioning(live, h) != [] ==>
              |EliminateStep(live, h)| == |live| - |Mentioning(live, h)| + 1
    ensures Mentioning(live, h) == [] ==> EliminateStep(live, h) == live
    ensures live != [] ==> EliminateStep(live, h) != []
  {
    var rest, collected := Kept(live, h), Collected(live, h);
    VarsOfMentioning(live, h);
    assert h !in VarsOf(rest);
    if collected == [] {
      NoneMentioning(live, h);
    } else {
      var e := Eliminated(collected, h);
      VarsOfConcat(rest, [e]);
    }
  }

  /** With s the prefix s0[..i + 1] followed by kept: s[i] is s0[i], and popping it leaves s0[..i] + kept. */
  lemma PopAt<T>(s0: seq<T>, i: nat, s: seq<T>, kept: seq<T>)
    requires i < |s0| && s == s0[..i + 1] + kept
    ensures i < |s| && s[i] == s0[i]
    ensures s[..i] + s[i + 1..] == s0[..i] + kept
    ensures s == s0[..i] + ([s0[i]] + kept)
  {
    assert s0[..i + 1] == s0[..i] + [s0[i]];
    assert s[..i] == s0[..i];
    assert s[i + 1..] == kept;
  }

  /** One step of the backward walk of Collect, at position i: the factors popped so far. */
  lemma CollectStepPopped(live0: seq<Factor>, h: Var, i: nat, toEliminate: seq<Factor>)
    requires i < |live0|
    requires toEliminate == Reversed(Mentioning(live0[i + 1..], h))
    ensures h in live0[i].scope ==> toEliminate + [live0[i]] == Reversed(Mentioning(live0[i..], h))
    ensures h !in live0[i].scope ==> toEliminate == Reversed(Mentioning(live0[i..], h))
  {
    MentioningAt(live0, i, h);
    if h in live0[i].scope {
      ReversedCons(live0[i], Mentioning(live0[i + 1..], h));
    } else {
      assert Mentioning(live0[i..], h) == Mentioning(live0[i + 1..], h);
    }
  }

  /**
   * var_elimination.py lines 128-133: walk the list from the back and pop every factor that
   * mentions h, collecting them in the order they are popped.
   */
  method Collect(live0: seq<Factor>, h: Var) returns (live: seq<Factor>, toEliminate: seq<Factor>)
    ensures live == NotMentioning(live0, h)
    ensures toEliminate == Reversed(Mentioning(live0, h))
  {
    toEliminate := [];
    live := live0;
    var i := |live0|;
    while i > 0
      invariant 0 <= i <= |live0|
      invariant live == live0[..i] + NotMentioning(live0[i..], h)
      invariant toEliminate == Reversed(Mentioning(live0[i..], h))
    {
      i := i - 1;
      NotMentioningAt(live0, i, h);
      PopAt(live0, i, live, NotMentioning(live0[i + 1..], h));
      CollectStepPopped(live0, h, i, toEliminate);
      if h in live[i].scope {
        toEliminate := toEliminate + [live[i]];
        live := live[..i] + live[i + 1..];
      }
    }
    assert live0[0..] == live0;
  }

  /** var_elimination.py lines 134-137 and 144-147: pop the first factor and multiply the rest into it, left to right. */
  method MultiplyAll(live: seq<Factor>) returns (r: Result<Factor>)
    requires AllWellFormed(live)
    ensures live == [] ==> r == Err(NoFactors)
    ensures live != [] ==> r == FoldMultiply(live[0], live[1..])
  {
    if |live| == 0 {
      return Err(NoFactors);
    }
    var resulting := live[0];
    var rest := live[1..];
    for j := 0 to |rest|
      invariant WellFormed(resulting)
      invariant FoldMultiply(resulting, rest[j..]) == FoldMultiply(live[0], rest)
    {
      assert WellFormed(live[j + 1]);
      var m := Multiply(resulting, rest[j]);
      if m.Err? {
        return m;
      }
      assert rest[j..][1..] == rest[j + 1..];
      resulting := m.value;
    }
    r := Ok(resulting);
  }

  /** var_elimination.py lines 128-142: pop every factor that mentions h, multiply them, sum h out, append. */
  method EliminateVariable(live0: seq<Factor>, h: Var) returns (live: seq<Factor>)
    requires AllWellFormed(live0)
    ensures live == EliminateStep(live0, h)
  {
    var toEliminate;
    live, toEliminate := Collect(live0, h);
    assert toEliminate == Collected(live0, h);
    if |toEliminate| != 0 {
      FoldMultiplySharing(toEliminate[0], toEliminate[1..], h);
      var newFactor := MultiplyAll(toEliminate);
      var p := newFactor.value;
      if h in p.scope {
        p := SumOut(p, h).value;
      }
      live := live + [p];
    }
  }

  // ---------------------------------------------------------------------------
  // The whole query
  // ---------------------------------------------------------------------------

  /** The live list after eliminating the hidden variables one after the other. */
  function EliminateAll(live: seq<Factor>, hidden: seq<Var>): (r: seq<Factor>)
    requires AllWellFormed(live)
    ensures AllWellFormed(r)
    decreases |hidden|
  {
    if hidden == [] then live
    else EliminateStep(EliminateAll(live, hidden[..|hidden| - 1]), hidden[|hidden| - 1])
  }

  /** After elimination no factor mentions a hidden variable, no other variable is lost, and the list is empty afterwards exactly when it was empty before. */
  lemma {:induction false} EliminateAllSpec(live: seq<Factor>, hidden: seq<Var>)
    requires AllWellFormed(live)
    ensures VarsOf(EliminateAll(live, hidden)) == VarsOf(live) - Names(hidden)
    ensures EliminateAll(live, hidden) == [] <==> live == []
    decreases |hidden|
  {
    if hidden != [] {
      var n := |hidden| - 1;
      var before := EliminateAll(live, hidden[..n]);
      var after := EliminateAll(live, hidden);
      assert after == EliminateStep(before, hidden[n]);
      EliminateAllSpec(live, hidden[..n]);
      EliminateStepSpec(before, hidden[n]);
      RemoveLast(VarsOf(live), VarsOf(before), VarsOf(after), hidden);
    }
  }

  /** Taking away the variables of hs[..n] and then hs[n] is taking away those of hs. */
  lemma RemoveLast(v0: set<Var>, v1: set<Var>, v2: set<Var>, hs: seq<Var>)
    requires hs != []
    requires v1 == v0 - Names(hs[..|hs| - 1])
    requires v2 == v1 - {hs[|hs| - 1]}
    ensures v2 == v0 - Names(hs)
  {
    assert hs == hs[..|hs| - 1] + [hs[|hs| - 1]];
    assert Names(hs) == Names(hs[..|hs| - 1]) + {hs[|hs| - 1]};
  }

  /**
   * inference(factor_list, query_variables, evidence_list, hidden_vars) with
   * the hidden variables given in elimination order: the evidence phase, the
   * elimination of every hidden variable, the product of what is left, and
   * its normalisation. A product with no rows is returned as it is (dividing
   * an empty column changes nothing); a zero total over some rows, where the
   * weights would all become NaN, is reported as an error.
   */
  function Infer(factors: seq<Factor>, evidence: seq<Var>, hidden: seq<Var>): (r: Result<Factor>)
    requires AllWellFormed(factors)
  {
    var live := EliminateAll(EvidenceApplied(factors, evidence), hidden);
    if live == [] then Err(NoFactors)
    else
      match FoldMultiply(live[0], live[1..])
      case Err(e) => Err(e)
      case Ok(p) =>
        if p.rows == [] then Ok(p)
        else if Total(p.rows) == 0.0 then Err(ZeroTotal)
        else Ok(Normalize(p))
  }

  /**
   * A successful query returns a factor over exactly the variables of the
   * network that are neither evidence nor hidden, whose weights sum to 1
   * unless it has no rows; the query fails for want of factors exactly when
   * the factor list is empty.
   */
  lemma InferSpec(factors: seq<Factor>, evidence: seq<Var>, hidden: seq<Var>)
    requires AllWellFormed(factors)
    ensures Infer(factors, evidence, hidden).Ok? ==> WellFormed(Infer(factors, evidence, hidden).value)
    ensures Infer(factors, evidence, hidden).Ok? && Infer(factors, evidence, hidden).value.rows != [] ==>
              Total(Infer(factors, evidence, hidden).value.rows) == 1.0
    ensures Infer(factors, evidence, hidden).Ok? ==>
              forall w :: w in Infer(factors, evidence, hidden).value.scope <==>
                w in VarsOf(factors) && w !in evidence && w !in hidden
    ensures Infer(factors, evidence, hidden) == Err(NoFactors) <==> factors == []
  {
    var applied := EvidenceApplied(factors, evidence);
    var live := EliminateAll(applied, hidden);
    EvidenceAppliedVars(factors, evidence);
    EliminateAllSpec(applied, hidden);
    if live != [] {
      var q := FoldMultiply(live[0], live[1..]);
      if q.Ok? {
        ProductVars(factors, evidence, hidden, VarsOf(applied), live, q.value);
      }
    }
  }

  /** The scope of the product of the live factors, in terms of the original factor list. */
  lemma ProductVars(factors: seq<Factor>, evidence: seq<Var>, hidden: seq<Var>,
                    applied: set<Var>, live: seq<Factor>, p: Factor)
    requires live != []
    requires forall w :: w in applied <==> w in VarsOf(factors) && w !in evidence
    requires VarsOf(live) == applied - Names(hidden)
    requires forall w :: w in p.scope <==> w in live[0].scope || w in VarsOf(live[1..])
    ensures forall w :: w in p.scope <==> w in VarsOf(factors) && w !in evidence && w !in hidden
  {
    assert live == [live[0]] + live[1..];
    VarsOfConcat([live[0]], live[1..]);
    forall w
      ensures w in p.scope <==> w in VarsOf(factors) && w !in evidence && w !in hidden
    {
      assert w in Names(hidden) <==> w in hidden;
      assert w in live[0].scope ==> w in VarsOf([live[0]]) by {
        assert live[0] in [live[0]];
      }
      assert w in VarsOf(live) <==> w in p.scope;
    }
  }

  /** var_elimination.py lines 116-150: the query, with the hidden variables as an explicit elimination order. */
  method Inference(factors: seq<Factor>, evidence: seq<Var>, hidden: seq<Var>) returns (r: Result<Factor>)
    requires AllWellFormed(factors)
    ensures r == Infer(factors, evidence, hidden)
    ensures r.Ok? && r.value.rows != [] ==> Total(r.value.rows) == 1.0
    ensures r.Ok? ==> forall w :: w in r.value.scope <==> w in VarsOf(factors) && w !in evidence && w !in hidden
  {
    var live := ApplyEvidence(factors, evidence);
    for n := 0 to |hidden|
      invariant live == EliminateAll(EvidenceApplied(factors, evidence), hidden[..n])
    {
      assert hidden[..n + 1][..n] == hidden[..n];
      live := EliminateVariable(live, hidden[n]);
    }
    assert hidden[..|hidden|] == hidden;
    var product := MultiplyAll(live);
    if product.Err? {
      r := product;
    } else if |product.value.rows| == 0 {
      r := product;
    } else if Total(product.value.rows) == 0.0 {
      r := Err(ZeroTotal);
    } else {
      r := Ok(Normalize(product.value));
    }
    InferSpec(factors, evidence, hidden);
  }
}
