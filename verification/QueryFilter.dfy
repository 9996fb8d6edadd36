/** filter.apply and subseqMatch of the query API: the fast form over a sorted
    slice against a linear scan. */
module QueryFilter {
  import opened Text
  import opened Order

  datatype Filter = Filter(equals: string, startswith: string, fuzzy: string)

  // ----- Subsequence matching --------------------------------------------------

  /** An increasing choice of positions of s that spells the pattern. */
  ghost predicate Embedding(s: string, pattern: string, at: seq<nat>) {
    && |at| == |pattern|
    && (forall i :: 0 <= i < |at| ==> at[i] < |s| && s[at[i]] == pattern[i])
    && forall i, j :: 0 <= i < j < |at| ==> at[i] < at[j]
  }

  ghost predicate Embeds(s: string, pattern: string) {
    exists at: seq<nat> :: Embedding(s, pattern, at)
  }

  /** The source's greedy scan finds an embedding whenever there is one. */
  method SubseqMatch(s: string, pattern: string) returns (found: bool)
    ensures found <==> Embeds(s, pattern)
  {
    var i, j := 0, 0;
    ghost var at: seq<nat> := [];
    assert Embedding(s[..0], pattern[..0], at);
    while i < |pattern| && j < |s|
      invariant i <= |pattern| && j <= |s|
      invariant Embedding(s[..j], pattern[..i], at)
      invariant forall e: seq<nat> :: Embedding(s, pattern, e) ==> forall k :: i <= k < |pattern| ==> e[k] >= j
    {
      if s[j] == pattern[i] {
        assert forall e: seq<nat> :: Embedding(s, pattern, e) ==>
          e[i] >= j && forall k :: i < k < |pattern| ==> e[k] > e[i];
        at := at + [j];
        i := i + 1;
      } else {
        forall e: seq<nat> | Embedding(s, pattern, e) ensures forall k :: i <= k < |pattern| ==> e[k] >= j + 1 {
          assert e[i] != j;
        }
      }
      j := j + 1;
    }
    found := i == |pattern|;
    if found {
      assert pattern[..i] == pattern;
      assert Embedding(s, pattern, at);
    } else {
      forall e: seq<nat> ensures !Embedding(s, pattern, e) { InsideText(s, pattern, e, i); }
    }
  }

  lemma InsideText(s: string, pattern: string, e: seq<nat>, i: nat)
    requires i < |pattern|
    ensures Embedding(s, pattern, e) ==> i < |e| && e[i] < |s|
  {
  }

  // ----- The linear specification ----------------------------------------------

  /** Whether entry k passes every filter that is set. */
  ghost predicate Passes(f: Filter, sorted: seq<string>, lower: seq<string>, k: nat)
    requires k < |sorted| == |lower|
  {
    && (f.startswith != "" ==> f.startswith <= sorted[k])
    && (f.equals != "" ==> sorted[k] == f.equals)
    && (f.fuzzy != "" ==> Embeds(lower[k], Lower(f.fuzzy)))
  }

  /** All entries from lo up that pass, in order. */
  ghost function Naive(f: Filter, sorted: seq<string>, lower: seq<string>, lo: nat, hi: nat): seq<string>
    requires lo <= hi <= |sorted| == |lower|
    decreases hi
  {
    if lo == hi then []
    else Naive(f, sorted, lower, lo, hi - 1) + if Passes(f, sorted, lower, hi - 1) then [sorted[hi - 1]] else []
  }

  /** The filter the code applies: a set equals switches fuzzy off. */
  function Applied(f: Filter): Filter {
    if f.equals != "" then f.(fuzzy := "") else f
  }

  lemma {:induction false} NaiveNone(f: Filter, sorted: seq<string>, lower: seq<string>, lo: nat, hi: nat)
    requires lo <= hi <= |sorted| == |lower|
    requires forall k :: lo <= k < hi ==> !Passes(f, sorted, lower, k)
    ensures Naive(f, sorted, lower, lo, hi) == []
  {
    if lo < hi { NaiveNone(f, sorted, lower, lo, hi - 1); }
  }

  lemma {:induction false} NaiveAll(f: Filter, sorted: seq<string>, lower: seq<string>, lo: nat, hi: nat)
    requires lo <= hi <= |sorted| == |lower|
    requires forall k :: lo <= k < hi ==> Passes(f, sorted, lower, k)
    ensures Naive(f, sorted, lower, lo, hi) == sorted[lo..hi]
  {
    if lo < hi {
      NaiveAll(f, sorted, lower, lo, hi - 1);
      assert sorted[lo..hi] == sorted[lo..hi - 1] + [sorted[hi - 1]];
    }
  }

  lemma {:induction false} NaiveSplit(f: Filter, sorted: seq<string>, lower: seq<string>, lo: nat, mid: nat, hi: nat)
    requires lo <= mid <= hi <= |sorted| == |lower|
    ensures Naive(f, sorted, lower, lo, hi) == Naive(f, sorted, lower, lo, mid) + Naive(f, sorted, lower, mid, hi)
    decreases hi
  {
    if mid < hi { NaiveSplit(f, sorted, lower, lo, mid, hi - 1); }
  }

  /** Nothing outside [lo, hi) passes, so the scan may be confined to it. */
  lemma NaiveWindow(f: Filter, sorted: seq<string>, lower: seq<string>, lo: nat, hi: nat)
    requires lo <= hi <= |sorted| == |lower|
    requires forall k :: 0 <= k < |sorted| && !(lo <= k < hi) ==> !Passes(f, sorted, lower, k)
    ensures Naive(f, sorted, lower, 0, |sorted|) == Naive(f, sorted, lower, lo, hi)
  {
    NaiveSplit(f, sorted, lower, 0, lo, |sorted|);
    NaiveSplit(f, sorted, lower, lo, hi, |sorted|);
    NaiveNone(f, sorted, lower, 0, lo);
    NaiveNone(f, sorted, lower, hi, |sorted|);
  }

  // ----- filter.apply ------------------------------------------------------------

  /** The two binary searches delimit exactly the entries with the prefix. */
  method PrefixWindow(sorted: seq<string>, p: string) returns (lo: nat, hi: nat)
    requires Sorted(sorted)
    ensures lo <= hi <= |sorted|
    ensures forall k :: 0 <= k < |sorted| ==> (lo <= k < hi <==> p <= sorted[k])
  {
    lo := SearchStrings(sorted, p);
    RankIs(sorted, p);
    forall k, l | lo <= k < l < |sorted| && p <= sorted[l] ensures p <= sorted[k] {
      PrefixInterval(p, sorted[k], sorted[l]);
    }
    forall k | 0 <= k < lo ensures !(p <= sorted[k]) {
      if p <= sorted[k] { PrefixLE(p, sorted[k]); }
    }
    var f := j requires 0 <= j < |sorted| - lo => !HasPrefix(sorted[lo + j], p);
    forall k, l | 0 <= k < l < |sorted| - lo && f(k) ensures f(l) {
      assert f(k) == !HasPrefix(sorted[lo + k], p) && f(l) == !HasPrefix(sorted[lo + l], p);
    }
    var n := Search(|sorted| - lo, f);
    hi := lo + n;
    forall k | lo <= k < |sorted| ensures k < hi <==> p <= sorted[k] { assert f(k - lo) == !HasPrefix(sorted[k], p); }
  }

  method Apply(f: Filter, sorted: seq<string>, lower: seq<string>) returns (out: seq<string>)
    requires StrictlySorted(sorted) && |lower| == |sorted|
    ensures out == Naive(Applied(f), sorted, lower, 0, |sorted|)
  {
    hide LE, Rank, Embeds;
    var lo, hi := 0, |sorted|;
    if f.startswith != "" {
      lo, hi := PrefixWindow(sorted, f.startswith);
    }
    ghost var g := Applied(f);
    NaiveWindow(g, sorted, lower, lo, hi);
    if f.equals != "" {
      var idx := SearchStrings(sorted, f.equals);
      RankIs(sorted, f.equals);
      assert forall k :: 0 <= k < |sorted| && sorted[k] == f.equals ==> k == idx by { FindsEqual(sorted, f.equals); }
      if lo <= idx < hi && sorted[idx] == f.equals {
        out := sorted[idx..idx + 1];
        NaiveWindow(g, sorted, lower, idx, idx + 1);
        NaiveAll(g, sorted, lower, idx, idx + 1);
        return;
      }
      NaiveNone(g, sorted, lower, lo, hi);
      return [];
    }
    if f.fuzzy == "" {
      NaiveAll(g, sorted, lower, lo, hi);
      return sorted[lo..hi];
    }
    var fuzzy := Lower(f.fuzzy);
    out := [];
    for j := lo to hi
      invariant out == Naive(g, sorted, lower, lo, j)
    {
      var hit := SubseqMatch(lower[j], fuzzy);
      if !hit { continue; }
      out := out + [sorted[j]];
    }
  }

  lemma FindsEqual(sorted: seq<string>, x: string)
    requires StrictlySorted(sorted)
    ensures forall k :: 0 <= k < |sorted| && sorted[k] == x ==> k == Rank(sorted, x)
  {
    RankIs(sorted, x);
    forall k | 0 <= k < |sorted| && sorted[k] == x ensures k == Rank(sorted, x) {
      LERefl(x);
      var r := Rank(sorted, x);
      if r < k { LEAntisym(sorted[r], x); }
    }
  }

  /** The fuzzy test would not have removed an entry that equals and startswith select. */
  ghost predicate FuzzyHarmless(f: Filter, sorted: seq<string>, lower: seq<string>)
    requires |lower| == |sorted|
  {
    forall k :: 0 <= k < |sorted| && sorted[k] == f.equals && f.startswith <= f.equals ==>
      Embeds(lower[k], Lower(f.fuzzy))
  }

  /** The documented AND of all three filters is what the code computes exactly
      when equals and fuzzy are not both set, or fuzzy would have changed nothing. */
  lemma AppliedIsConjunction(f: Filter, sorted: seq<string>, lower: seq<string>)
    requires StrictlySorted(sorted) && |lower| == |sorted|
    ensures Naive(Applied(f), sorted, lower, 0, |sorted|) == Naive(f, sorted, lower, 0, |sorted|) <==>
      (f.equals != "" && f.fuzzy != "" ==> FuzzyHarmless(f, sorted, lower))
  {
    if f.equals != "" && f.fuzzy != "" {
      EqualsScan(f, sorted, lower);
      EqualsScan(Applied(f), sorted, lower);
      HarmlessAtRank(f, sorted, lower);
    }
  }

  /** equals=web and fuzzy=x: the code returns web, the conjunction nothing. */
  lemma EqualsIgnoresFuzzy()
    ensures Naive(Applied(Filter("web", "", "x")), ["web"], ["web"], 0, 1) == ["web"]
    ensures Naive(Filter("web", "", "x"), ["web"], ["web"], 0, 1) == []
  {
    var f := Filter("web", "", "x");
    OneEntry(f, ["web"], ["web"], 0);
    OneEntry(Applied(f), ["web"], ["web"], 0);
    forall at: seq<nat> ensures !Embedding("web", Lower("x"), at) { InsideText("web", Lower("x"), at, 0); }
  }

  lemma HarmlessAtRank(f: Filter, sorted: seq<string>, lower: seq<string>)
    requires StrictlySorted(sorted) && |lower| == |sorted| && f.equals != "" && f.fuzzy != ""
    ensures var r := Rank(sorted, f.equals);
      FuzzyHarmless(f, sorted, lower) <==>
        (r < |sorted| && sorted[r] == f.equals ==>
           (Passes(Applied(f), sorted, lower, r) ==> Passes(f, sorted, lower, r)))
  {
    FindsEqual(sorted, f.equals);
    assert "" <= f.equals;
  }

  /** With equals set, the scan yields at most the one entry at its rank. */
  lemma EqualsScan(f: Filter, sorted: seq<string>, lower: seq<string>)
    requires StrictlySorted(sorted) && |lower| == |sorted| && f.equals != ""
    ensures var r := Rank(sorted, f.equals);
      Naive(f, sorted, lower, 0, |sorted|) ==
        if r < |sorted| && sorted[r] == f.equals && Passes(f, sorted, lower, r) then [f.equals] else []
  {
    FindsEqual(sorted, f.equals);
    var r := Rank(sorted, f.equals);
    if r < |sorted| && sorted[r] == f.equals {
      NaiveWindow(f, sorted, lower, r, r + 1);
      OneEntry(f, sorted, lower, r);
    } else {
      NaiveNone(f, sorted, lower, 0, |sorted|);
    }
  }

  lemma OneEntry(f: Filter, sorted: seq<string>, lower: seq<string>, k: nat)
    requires k < |sorted| == |lower|
    ensures Naive(f, sorted, lower, k, k + 1) == if Passes(f, sorted, lower, k) then [sorted[k]] else []
  {
    assert Naive(f, sorted, lower, k, k) == [];
  }
}
