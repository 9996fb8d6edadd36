/** Go's string order (bytewise lexicographic), sorting, and binary search. */
module Order {

  predicate LE(a: string, b: string) {
    a == "" || (b != "" && (a[0] < b[0] || (a[0] == b[0] && LE(a[1..], b[1..]))))
  }

  lemma {:induction false} LERefl(a: string)
    ensures LE(a, a)
  {
    if a != "" { LERefl(a[1..]); }
  }

  lemma {:induction false} LETotal(a: string, b: string)
    ensures LE(a, b) || LE(b, a)
  {
    if a != "" && b != "" && a[0] == b[0] { LETotal(a[1..], b[1..]); }
  }

  lemma {:induction false} LEAntisym(a: string, b: string)
    requires LE(a, b) && LE(b, a)
    ensures a == b
  {
    if a != "" {
      LEAntisym(a[1..], b[1..]);
      assert a == [a[0]] + a[1..] && b == [b[0]] + b[1..];
    }
  }

  lemma {:induction false} LETrans(a: string, b: string, c: string)
    requires LE(a, b) && LE(b, c)
    ensures LE(a, c)
  {
    if a != "" && a[0] == b[0] == c[0] { LETrans(a[1..], b[1..], c[1..]); }
  }

  /** One is a prefix of the other, or they first differ where a has the lesser character. */
  lemma {:induction false} LEIs(a: string, b: string)
    ensures LE(a, b) <==> a <= b || exists i :: LessAt(a, b, i)
  {
    if a != "" && b != "" {
      LEIs(a[1..], b[1..]);
      if a[0] < b[0] { assert LessAt(a, b, 0); }
      if a[0] == b[0] {
        assert a <= b <==> a[1..] <= b[1..];
        if i :| LessAt(a[1..], b[1..], i) {
          assert a[..i + 1] == [a[0]] + a[1..][..i] && b[..i + 1] == [b[0]] + b[1..][..i];
          assert LessAt(a, b, i + 1);
        }
        if i :| LessAt(a, b, i) {
          assert a[1..][..i - 1] == a[..i][1..] && b[1..][..i - 1] == b[..i][1..];
          assert LessAt(a[1..], b[1..], i - 1);
        }
      }
    }
  }

  predicate LessAt(a: string, b: string, i: int) {
    0 <= i < |a| && i < |b| && a[..i] == b[..i] && a[i] < b[i]
  }

  /** The strings with a given prefix form an interval that starts at the prefix. */
  lemma {:induction false} PrefixInterval(p: string, a: string, b: string)
    requires p <= b && LE(p, a) && LE(a, b)
    ensures p <= a
  {
    if p != "" {
      assert p[0] == b[0] && a[0] == p[0];
      PrefixInterval(p[1..], a[1..], b[1..]);
      assert p == [p[0]] + p[1..] && a == [a[0]] + a[1..];
    }
  }

  lemma {:induction false} PrefixLE(p: string, a: string)
    requires p <= a
    ensures LE(p, a)
  {
    if p != "" { PrefixLE(p[1..], a[1..]); }
  }

  lemma PrefixBetween(p: string, x: string, t: string, y: string)
    requires LE(p + x, t) && LE(t, p + y)
    ensures p <= t
  {
    hide LE;
    PrefixLE(p, p + x);
    LETrans(p, p + x, t);
    PrefixInterval(p, t, p + y);
  }

  predicate Sorted(xs: seq<string>) {
    forall i, j :: 0 <= i < j < |xs| ==> LE(xs[i], xs[j])
  }

  predicate StrictlySorted(xs: seq<string>) {
    forall i, j :: 0 <= i < j < |xs| ==> LE(xs[i], xs[j]) && xs[i] != xs[j]
  }

  // ----- Sorting by a string key ---------------------------------------------

  function Keys<T>(xs: seq<T>, key: T -> string): (ks: seq<string>)
    ensures |ks| == |xs| && forall i :: 0 <= i < |xs| ==> ks[i] == key(xs[i])
  {
    seq(|xs|, i requires 0 <= i < |xs| => key(xs[i]))
  }

  function Insert<T>(x: T, xs: seq<T>, key: T -> string): seq<T> {
    if xs == [] then [x]
    else if LE(key(x), key(xs[0])) then [x] + xs
    else [xs[0]] + Insert(x, xs[1..], key)
  }

  function SortBy<T>(xs: seq<T>, key: T -> string): seq<T> {
    if xs == [] then [] else Insert(xs[0], SortBy(xs[1..], key), key)
  }

  lemma {:induction false} InsertElements<T>(x: T, xs: seq<T>, key: T -> string)
    ensures multiset(Insert(x, xs, key)) == multiset(xs) + multiset{x}
  {
    hide LE;
    if xs != [] {
      assert xs == [xs[0]] + xs[1..];
      InsertElements(x, xs[1..], key);
    }
  }

  lemma {:induction false} InsertIs<T>(x: T, xs: seq<T>, key: T -> string)
    requires Sorted(Keys(xs, key))
    ensures Sorted(Keys(Insert(x, xs, key), key))
    ensures multiset(Insert(x, xs, key)) == multiset(xs) + multiset{x}
  {
    hide LE;
    InsertElements(x, xs, key);
    if xs != [] {
      if LE(key(x), key(xs[0])) {
        Prepend(x, xs, key);
      } else {
        var t := xs[1..];
        assert Keys(t, key) == Keys(xs, key)[1..];
        InsertIs(x, t, key);
        LETotal(key(x), key(xs[0]));
        HeadBelow(x, xs, Insert(x, t, key), key);
        PrependAll(xs[0], Insert(x, t, key), key);
      }
    }
  }

  lemma HeadBelow<T>(x: T, xs: seq<T>, rt: seq<T>, key: T -> string)
    requires xs != [] && Sorted(Keys(xs, key)) && LE(key(xs[0]), key(x))
    requires multiset(rt) == multiset(xs[1..]) + multiset{x}
    ensures forall y :: y in rt ==> LE(key(xs[0]), key(y))
  {
    hide LE;
    var t := xs[1..];
    forall y | y in rt ensures LE(key(xs[0]), key(y)) {
      assert y in multiset(rt);
      if y != x {
        var k :| 0 <= k < |t| && t[k] == y;
        assert LE(Keys(xs, key)[0], Keys(xs, key)[k + 1]);
      }
    }
  }

  lemma PrependAll<T>(x: T, xs: seq<T>, key: T -> string)
    requires Sorted(Keys(xs, key)) && forall y :: y in xs ==> LE(key(x), key(y))
    ensures Sorted(Keys([x] + xs, key))
  {
    hide LE;
    var r := [x] + xs;
    forall i, j | 0 <= i < j < |r| ensures LE(Keys(r, key)[i], Keys(r, key)[j]) {
      if i > 0 { assert LE(Keys(xs, key)[i - 1], Keys(xs, key)[j - 1]); } else { assert r[j] in xs; }
    }
  }

  lemma Prepend<T>(x: T, xs: seq<T>, key: T -> string)
    requires Sorted(Keys(xs, key)) && xs != [] && LE(key(x), key(xs[0]))
    ensures Sorted(Keys([x] + xs, key))
  {
    hide LE;
    forall y | y in xs ensures LE(key(x), key(y)) {
      var j :| 0 <= j < |xs| && xs[j] == y;
      if j > 0 {
        assert LE(Keys(xs, key)[0], Keys(xs, key)[j]);
        LETrans(key(x), key(xs[0]), key(xs[j]));
      }
    }
    PrependAll(x, xs, key);
  }

  lemma {:induction false} SortByIs<T>(xs: seq<T>, key: T -> string)
    ensures Sorted(Keys(SortBy(xs, key), key))
    ensures multiset(SortBy(xs, key)) == multiset(xs)
  {
    if xs != [] {
      SortByIs(xs[1..], key);
      InsertIs(xs[0], SortBy(xs[1..], key), key);
      assert xs == [xs[0]] + xs[1..];
    }
  }

  lemma SameElements<T>(xs: seq<T>, ys: seq<T>)
    requires multiset(xs) == multiset(ys)
    ensures |xs| == |ys| && forall x :: x in xs <==> x in ys
  {
    assert |multiset(xs)| == |xs| && |multiset(ys)| == |ys|;
    assert forall x :: x in xs <==> x in multiset(xs);
    assert forall x :: x in ys <==> x in multiset(ys);
  }

  /** Two sorted arrangements of the same strings are equal, so the result of an
      unstable sort does not depend on the sort. */
  lemma {:induction false} SortedUnique(xs: seq<string>, ys: seq<string>)
    requires Sorted(xs) && Sorted(ys) && multiset(xs) == multiset(ys)
    ensures xs == ys
  {
    hide LE;
    SameElements(xs, ys);
    if xs != [] {
      HeadIsLeast(xs, ys[0]);
      HeadIsLeast(ys, xs[0]);
      LEAntisym(xs[0], ys[0]);
      SortedTail(xs);
      SortedTail(ys);
      SortedUnique(xs[1..], ys[1..]);
    }
  }

  lemma SortedTail(xs: seq<string>)
    requires xs != [] && Sorted(xs)
    ensures Sorted(xs[1..]) && multiset(xs[1..]) == multiset(xs) - multiset{xs[0]} && xs == [xs[0]] + xs[1..]
  {
    hide LE;
    assert xs == [xs[0]] + xs[1..];
  }

  lemma HeadIsLeast(xs: seq<string>, x: string)
    requires Sorted(xs) && x in xs
    ensures LE(xs[0], x)
  {
    var j :| 0 <= j < |xs| && xs[j] == x;
    LERefl(x);
  }

  // ----- Binary search ---------------------------------------------------------

  /** sort.Search: the first index in [0, n) where f holds, n when there is none. */
  method Search(n: nat, f: int --> bool) returns (i: nat)
    requires forall k :: 0 <= k < n ==> f.requires(k)
    requires forall k, l :: 0 <= k < l < n && f(k) ==> f(l)
    ensures i <= n
    ensures forall k :: 0 <= k < i ==> !f(k)
    ensures forall k :: i <= k < n ==> f(k)
  {
    i := 0;
    var j := n;
    while i < j
      invariant 0 <= i <= j <= n
      invariant forall k :: 0 <= k < i ==> !f(k)
      invariant forall k :: j <= k < n ==> f(k)
    {
      var h := (i + j) / 2;
      if !f(h) { i := h + 1; } else { j := h; }
    }
  }

  /** The number of entries below x: where x is, or would be inserted. */
  function Rank(xs: seq<string>, x: string): (r: nat)
    ensures r <= |xs|
  {
    if xs == [] || LE(x, xs[0]) then 0 else 1 + Rank(xs[1..], x)
  }

  lemma {:induction false} RankIs(xs: seq<string>, x: string)
    requires Sorted(xs)
    ensures forall k :: 0 <= k < |xs| ==> (k < Rank(xs, x) <==> !LE(x, xs[k]))
  {
    if xs != [] {
      if LE(x, xs[0]) {
        forall k | 0 < k < |xs| ensures LE(x, xs[k]) { LETrans(x, xs[0], xs[k]); }
      } else {
        RankIs(xs[1..], x);
        forall k | 0 < k < |xs| ensures k < Rank(xs, x) <==> !LE(x, xs[k]) {
          assert xs[k] == xs[1..][k - 1];
        }
      }
    }
  }

  /** sort.SearchStrings on a sorted slice. */
  method SearchStrings(xs: seq<string>, x: string) returns (i: nat)
    requires Sorted(xs)
    ensures i == Rank(xs, x)
  {
    forall k, l | 0 <= k < l < |xs| && LE(x, xs[k]) ensures LE(x, xs[l]) { LETrans(x, xs[k], xs[l]); }
    var f := k requires 0 <= k < |xs| => LE(x, xs[k]);
    i := Search(|xs|, f);
    assert forall k :: 0 <= k < |xs| ==> f(k) == LE(x, xs[k]);
    RankAt(xs, x, i);
  }

  lemma {:induction false} RankAt(xs: seq<string>, x: string, i: nat)
    requires i <= |xs|
    requires forall k :: 0 <= k < i ==> !LE(x, xs[k])
    requires i < |xs| ==> LE(x, xs[i])
    ensures i == Rank(xs, x)
  {
    if i > 0 { RankAt(xs[1..], x, i - 1); }
  }
}
