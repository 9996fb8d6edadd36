/** Who owns a target Service and a routing key: "oldest creationTimestamp
    wins, ties by name", as the controllers and the index each compute it. */
module Ownership {
  import opened Wire
  import opened Api
  import Order

  predicate Older(a: ContextRoute, b: ContextRoute) {
    a.created < b.created || (a.created == b.created && Order.LE(a.name, b.name) && a.name != b.name)
  }

  predicate Tied(a: ContextRoute, b: ContextRoute) {
    a.created == b.created && a.name == b.name
  }

  lemma OlderTrans(a: ContextRoute, b: ContextRoute, c: ContextRoute)
    ensures Older(a, b) && Older(b, c) ==> Older(a, c)
    ensures !(Older(a, b) && Older(b, a))
    ensures Older(a, b) || Older(b, a) || Tied(a, b)
  {
    Order.LETotal(a.name, b.name);
    if a.created == b.created && Order.LE(a.name, b.name) {
      if Order.LE(b.name, a.name) { Order.LEAntisym(a.name, b.name); }
      if b.created == c.created && Order.LE(b.name, c.name) {
        Order.LETrans(a.name, b.name, c.name);
        if a.name == c.name { Order.LEAntisym(a.name, b.name); }
      }
    }
  }

  /** The fold all three loops run: the first oldest element that qualifies. */
  function Oldest(cs: seq<ContextRoute>, p: ContextRoute -> bool): Option<ContextRoute> {
    if cs == [] then None
    else
      var c, best := cs[|cs| - 1], Oldest(cs[..|cs| - 1], p);
      if p(c) && (best.None? || Older(c, best.value)) then Some(c) else best
  }

  ghost predicate IsOldest(w: ContextRoute, cs: seq<ContextRoute>, p: ContextRoute -> bool) {
    w in cs && p(w) && forall c :: c in cs && p(c) ==> !Older(c, w)
  }

  lemma {:induction false} OldestIs(cs: seq<ContextRoute>, p: ContextRoute -> bool)
    ensures match Oldest(cs, p)
      case None => forall c :: c in cs ==> !p(c)
      case Some(w) => IsOldest(w, cs, p)
  {
    if cs != [] {
      var init, c := cs[..|cs| - 1], cs[|cs| - 1];
      OldestIs(init, p);
      assert forall d :: d in cs <==> d in init || d == c;
      var best := Oldest(init, p);
      OlderTrans(c, c, c);
      if best.Some? && p(c) && Older(c, best.value) {
        forall d | d in init && p(d) ensures !Older(d, c) { OlderTrans(d, c, best.value); }
      }
    }
  }

  /** No two qualifying elements share creation time and name. */
  ghost predicate Separated(cs: seq<ContextRoute>, p: ContextRoute -> bool) {
    forall a, b :: a in cs && b in cs && p(a) && p(b) && Tied(a, b) ==> a == b
  }

  lemma OldestUnique(cs: seq<ContextRoute>, p: ContextRoute -> bool, w: ContextRoute)
    requires Separated(cs, p) && IsOldest(w, cs, p)
    ensures Oldest(cs, p) == Some(w)
  {
    OldestIs(cs, p);
    OlderTrans(w, Oldest(cs, p).value, w);
  }

  /** Every list order gives the same owner. */
  lemma OrderIrrelevant(cs: seq<ContextRoute>, ds: seq<ContextRoute>, p: ContextRoute -> bool)
    requires multiset(cs) == multiset(ds) && Separated(cs, p)
    ensures Oldest(cs, p) == Oldest(ds, p)
  {
    Order.SameElements(cs, ds);
    OldestIs(cs, p);
    OldestIs(ds, p);
    if Oldest(cs, p).Some? { OldestUnique(ds, p, Oldest(cs, p).value); }
  }

  // ----- The loops of the source ----------------------------------------------

  /** What the API server guarantees: names unique per namespace, UIDs unique. */
  ghost predicate WellFormed(cs: seq<ContextRoute>) {
    forall a, b :: a in cs && b in cs && (a.uid == b.uid || (a.ns == b.ns && a.name == b.name)) ==> a == b
  }

  function OnTarget(ns: string, target: string): ContextRoute -> bool {
    (c: ContextRoute) => c.ns == ns && !c.deleting && c.target == target
  }

  function Rivals(cr: ContextRoute): ContextRoute -> bool {
    (c: ContextRoute) => c.uid != cr.uid && EffectiveKey(c) == EffectiveKey(cr)
  }

  /** findCRForTarget in the EdgeTransformation controller. */
  method FindCRForTarget(list: seq<ContextRoute>, ns: string, target: string) returns (winner: Option<ContextRoute>)
    ensures winner == Oldest(list, OnTarget(ns, target))
  {
    winner := None;
    for i := 0 to |list|
      invariant winner == Oldest(list[..i], OnTarget(ns, target))
    {
      assert list[..i + 1][..i] == list[..i];
      var c := list[i];
      if c.ns != ns || c.deleting { continue; }
      if c.target != target { continue; }
      if winner.None? || Older(c, winner.value) {
        winner := Some(c);
      }
    }
    assert list[..|list|] == list;
  }

  /** The routing-key loop in checkConflicts. */
  method FindKeyOwner(list: seq<ContextRoute>, cr: ContextRoute) returns (keyOwner: Option<ContextRoute>)
    ensures keyOwner == Oldest(list, Rivals(cr))
  {
    keyOwner := None;
    for i := 0 to |list|
      invariant keyOwner == Oldest(list[..i], Rivals(cr))
    {
      assert list[..i + 1][..i] == list[..i];
      var other := list[i];
      if other.uid == cr.uid || EffectiveKey(other) != EffectiveKey(cr) { continue; }
      if keyOwner.None? || Older(other, keyOwner.value) {
        keyOwner := Some(other);
      }
    }
    assert list[..|list|] == list;
  }

  ghost predicate AgeSorted(cs: seq<ContextRoute>) {
    forall i, j :: 0 <= i < j < |cs| ==> !Older(cs[j], cs[i])
  }

  /** sort.Slice: some arrangement in which no later element is older. */
  method SortByAge(cs: seq<ContextRoute>) returns (out: seq<ContextRoute>)
    ensures AgeSorted(out) && multiset(out) == multiset(cs)
  {
    hide Older;
    out := [];
    for n := 0 to |cs|
      invariant AgeSorted(out) && multiset(out) == multiset(cs[..n])
    {
      var c, k := cs[n], 0;
      while k < |out| && !Older(c, out[k])
        invariant k <= |out| && forall i :: 0 <= i < k ==> !Older(c, out[i])
      {
        k := k + 1;
      }
      forall j | k <= j < |out| ensures !Older(out[j], c) {
        OlderTrans(out[j], c, out[k]);
        OlderTrans(c, out[j], c);
      }
      InsertByAge(out, c, k);
      assert cs[..n + 1] == cs[..n] + [c];
      out := out[..k] + [c] + out[k..];
    }
    assert cs[..|cs|] == cs;
  }

  lemma InsertByAge(out: seq<ContextRoute>, c: ContextRoute, k: nat)
    requires AgeSorted(out) && k <= |out|
    requires forall i :: 0 <= i < k ==> !Older(c, out[i])
    requires forall j :: k <= j < |out| ==> !Older(out[j], c)
    ensures AgeSorted(out[..k] + [c] + out[k..])
    ensures multiset(out[..k] + [c] + out[k..]) == multiset(out) + multiset{c}
  {
    hide Older;
    assert out == out[..k] + out[k..];
  }

  /** resolveOwner in the ContextRoute controller: filter, sort, take the head. */
  method ResolveOwner(list: seq<ContextRoute>, cr: ContextRoute) returns (owner: Option<ContextRoute>)
    requires WellFormed(list)
    ensures owner == Oldest(list, OnTarget(cr.ns, cr.target))
  {
    ghost var p := OnTarget(cr.ns, cr.target);
    var candidates: seq<ContextRoute> := [];
    for i := 0 to |list|
      invariant forall c :: c in candidates <==> c in list[..i] && p(c)
    {
      assert list[..i + 1] == list[..i] + [list[i]];
      var c := list[i];
      if c.ns != cr.ns || c.deleting { continue; }
      if c.target == cr.target { candidates := candidates + [c]; }
    }
    assert list[..|list|] == list;
    OldestIs(list, p);
    if |candidates| == 0 {
      return None;
    }
    var sorted := SortByAge(candidates);
    Order.SameElements(sorted, candidates);
    assert sorted[0] in candidates;
    OlderTrans(sorted[0], sorted[0], sorted[0]);
    forall c | c in list && p(c) ensures !Older(c, sorted[0]) {
      var j :| 0 <= j < |sorted| && sorted[j] == c;
    }
    OldestUnique(list, p, sorted[0]);
    owner := Some(sorted[0]);
  }

  // ----- What ownership means, field by field -----------------------------------------

  /** The pick comes first by creation time, and by name among those created together. */
  lemma OldestByFields(cs: seq<ContextRoute>, p: ContextRoute -> bool)
    ensures match Oldest(cs, p)
      case None => forall c :: c in cs ==> !p(c)
      case Some(w) =>
        && w in cs && p(w)
        && forall c :: c in cs && p(c) ==>
             w.created < c.created || (w.created == c.created && Order.LE(w.name, c.name))
  {
    OldestIs(cs, p);
    if Oldest(cs, p).Some? {
      var w := Oldest(cs, p).value;
      forall c | c in cs && p(c)
        ensures w.created < c.created || (w.created == c.created && Order.LE(w.name, c.name))
      {
        Order.LETotal(w.name, c.name);
        Order.LERefl(w.name);
      }
    }
  }

  /** The owner of a target Service among live CRs of its namespace. */
  lemma TargetOwnerByFields(cs: seq<ContextRoute>, ns: string, target: string)
    ensures match Oldest(cs, OnTarget(ns, target))
      case None => forall c :: c in cs ==> c.ns != ns || c.deleting || c.target != target
      case Some(w) =>
        && w in cs && w.ns == ns && !w.deleting && w.target == target
        && forall c :: c in cs && c.ns == ns && !c.deleting && c.target == target ==>
             w.created < c.created || (w.created == c.created && Order.LE(w.name, c.name))
  {
    OldestByFields(cs, OnTarget(ns, target));
    assert forall c :: OnTarget(ns, target)(c) == (c.ns == ns && !c.deleting && c.target == target);
  }

  /** The index's owner of a routing key among live CRs of the cluster. */
  lemma KeyOwnerByFields(cs: seq<ContextRoute>, key: string)
    ensures match Oldest(cs, LiveWithKey(key))
      case None => forall c :: c in cs && !c.deleting ==> EffectiveKey(c) != key
      case Some(w) =>
        && w in cs && !w.deleting && EffectiveKey(w) == key
        && forall c :: c in cs && !c.deleting && EffectiveKey(c) == key ==>
             w.created < c.created || (w.created == c.created && Order.LE(w.name, c.name))
  {
    OldestByFields(cs, LiveWithKey(key));
    assert forall c :: LiveWithKey(key)(c) == (!c.deleting && EffectiveKey(c) == key);
  }

  // ----- Acceptance ---------------------------------------------------------------

  predicate PassesTarget(cs: seq<ContextRoute>, cr: ContextRoute) {
    var w := Oldest(cs, OnTarget(cr.ns, cr.target));
    w.None? || w.value.name == cr.name
  }

  predicate PassesKey(cs: seq<ContextRoute>, cr: ContextRoute) {
    var o := Oldest(cs, Rivals(cr));
    o.None? || !Older(o.value, cr)
  }

  /** cr gets past checkConflicts. */
  predicate Accepted(cs: seq<ContextRoute>, cr: ContextRoute) {
    PassesTarget(cs, cr) && PassesKey(cs, cr)
  }

  method CheckConflicts(list: seq<ContextRoute>, cr: ContextRoute) returns (accepted: bool)
    requires WellFormed(list)
    ensures accepted == Accepted(list, cr)
  {
    var winner := ResolveOwner(list, cr);
    if winner.Some? && winner.value.name != cr.name {
      return false;
    }
    var keyOwner := FindKeyOwner(list, cr);
    accepted := !(keyOwner.Some? && Older(keyOwner.value, cr));
  }

  /** At most one live CR is accepted per target Service. */
  lemma OneOwnerPerTarget(cs: seq<ContextRoute>, a: ContextRoute, b: ContextRoute)
    requires WellFormed(cs) && a in cs && b in cs && !a.deleting && !b.deleting
    requires a.ns == b.ns && a.target == b.target
    requires PassesTarget(cs, a) && PassesTarget(cs, b)
    ensures a == b
  {
    OldestIs(cs, OnTarget(a.ns, a.target));
    assert OnTarget(a.ns, a.target)(a);
  }

  lemma PassesKeyIs(cs: seq<ContextRoute>, a: ContextRoute)
    ensures PassesKey(cs, a) <==> forall c :: c in cs && Rivals(a)(c) ==> !Older(c, a)
  {
    OldestIs(cs, Rivals(a));
    var o := Oldest(cs, Rivals(a));
    if o.Some? {
      forall c | c in cs && Rivals(a)(c) && Older(c, a) ensures Older(o.value, a) {
        OlderTrans(o.value, c, a);
      }
    }
  }

  /** A live CR is accepted exactly when it comes first on its target and no other
      CR with its routing key, terminating or not, comes strictly before it. */
  lemma AcceptedByFields(cs: seq<ContextRoute>, a: ContextRoute)
    requires WellFormed(cs) && a in cs && !a.deleting
    ensures Accepted(cs, a) <==>
      && (forall c :: c in cs && c.ns == a.ns && !c.deleting && c.target == a.target ==>
            a.created < c.created || (a.created == c.created && Order.LE(a.name, c.name)))
      && (forall c :: c in cs && c.uid != a.uid && EffectiveKey(c) == EffectiveKey(a) ==>
            a.created < c.created || (a.created == c.created && Order.LE(a.name, c.name)))
  {
    hide Order.LE;
    TargetOwnerByFields(cs, a.ns, a.target);
    var w := Oldest(cs, OnTarget(a.ns, a.target)).value;
    if Order.LE(a.name, w.name) && Order.LE(w.name, a.name) { Order.LEAntisym(a.name, w.name); }
    PassesKeyIs(cs, a);
    forall c ensures !Older(c, a) <==> a.created < c.created || (a.created == c.created && Order.LE(a.name, c.name)) {
      Order.LETotal(a.name, c.name);
      if Order.LE(a.name, c.name) && Order.LE(c.name, a.name) { Order.LEAntisym(a.name, c.name); }
      Order.LERefl(a.name);
    }
  }

  /** Two CRs with one routing key both pass exactly when they are tied on time
      and name (so live in two namespaces) and nobody with that key is older. */
  lemma TwoKeyOwners(cs: seq<ContextRoute>, a: ContextRoute, b: ContextRoute)
    requires WellFormed(cs) && a in cs && b in cs && a != b && EffectiveKey(a) == EffectiveKey(b)
    ensures PassesKey(cs, a) && PassesKey(cs, b) <==>
      Tied(a, b) && forall c :: c in cs && EffectiveKey(c) == EffectiveKey(a) ==> !Older(c, a)
  {
    PassesKeyIs(cs, a);
    PassesKeyIs(cs, b);
    assert Rivals(a)(b) && Rivals(b)(a);
    OlderTrans(a, b, a);
    OlderTrans(a, a, a);
    forall c | c in cs && EffectiveKey(c) == EffectiveKey(a) ensures c.uid == a.uid ==> c == a {}
  }

  /** So with distinct (time, name) pairs a routing key has at most one accepted CR. */
  lemma OneOwnerPerKey(cs: seq<ContextRoute>, a: ContextRoute, b: ContextRoute)
    requires WellFormed(cs) && a in cs && b in cs && (Tied(a, b) ==> a == b)
    requires EffectiveKey(a) == EffectiveKey(b) && PassesKey(cs, a) && PassesKey(cs, b)
    ensures a == b
  {
    if a != b { TwoKeyOwners(cs, a, b); }
  }

  function LiveWithKey(key: string): ContextRoute -> bool {
    (c: ContextRoute) => !c.deleting && EffectiveKey(c) == key
  }

  /** With none terminating and distinct (time, name) pairs, the CRs the
      controller accepts are exactly the index's owners that also win their target. */
  lemma IndexListsAccepted(cs: seq<ContextRoute>, a: ContextRoute)
    requires WellFormed(cs) && a in cs && forall c :: c in cs ==> !c.deleting
    requires forall b, c :: b in cs && c in cs && Tied(b, c) ==> b == c
    ensures Accepted(cs, a) <==>
      Oldest(cs, LiveWithKey(EffectiveKey(a))) == Some(a) && Oldest(cs, OnTarget(a.ns, a.target)) == Some(a)
  {
    var key, target := LiveWithKey(EffectiveKey(a)), OnTarget(a.ns, a.target);
    assert key(a) && target(a);
    PassesKeyIs(cs, a);
    OldestIs(cs, key);
    OldestIs(cs, target);
    OlderTrans(a, a, a);
    assert forall c :: c in cs ==> (key(c) <==> c == a || Rivals(a)(c));
    if PassesKey(cs, a) { OldestUnique(cs, key, a); }
  }

  /** The CR a translator takes its variants and key from is the winner of the
      target; it is an accepted one exactly when it also passes the key check,
      which findCRForTarget does not look at. */
  lemma TranslatorFollowsTargetWinner(cs: seq<ContextRoute>, ns: string, target: string, c: ContextRoute)
    requires WellFormed(cs) && Oldest(cs, OnTarget(ns, target)) == Some(c)
    ensures c.ns == ns && c.target == target && (Accepted(cs, c) <==> PassesKey(cs, c))
    ensures forall a :: a in cs && !a.deleting && a.ns == ns && a.target == target && Accepted(cs, a) ==> a == c
  {
    OldestIs(cs, OnTarget(ns, target));
    assert OnTarget(ns, target)(c);
    forall a | a in cs && !a.deleting && a.ns == ns && a.target == target && Accepted(cs, a) ensures a == c {
      OneOwnerPerTarget(cs, a, c);
    }
  }

  /** Without distinct pairs the key check lets two owners through. */
  lemma TiedOwnersExample()
    ensures var a := ContextRoute("a", "web", 1, 7, false, "web", "shop", Invalid);
      var b := ContextRoute("b", "web", 2, 7, false, "web", "shop", Invalid);
      Accepted([a, b], a) && Accepted([a, b], b)
  {
    var a := ContextRoute("a", "web", 1, 7, false, "web", "shop", Invalid);
    var b := ContextRoute("b", "web", 2, 7, false, "web", "shop", Invalid);
    var cs := [a, b];
    PassesKeyIs(cs, a);
    PassesKeyIs(cs, b);
    OldestIs(cs, OnTarget("a", "web"));
    OldestIs(cs, OnTarget("b", "web"));
    assert OnTarget("a", "web")(a) && OnTarget("b", "web")(b);
    assert "a"[0] != "b"[0];
  }
}
