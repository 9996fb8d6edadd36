/** What a published snapshot says about the objects themselves: each part of it
    read against the fields of the ContextRoutes, EdgeTransformations,
    RemoteRoutes and Services it was built from. */
module SnapshotContent {
  import opened Text
  import opened Wire
  import opened Api
  import opened Order
  import opened Ownership
  import opened Index
  import opened Freshness

  // ----- Conditions, RemoteRoutes, EdgeTransformations -------------------------------

  /** The first condition of the one kind that counts says r. */
  ghost predicate ReachableShown(conds: seq<Condition>, r: Option<bool>) {
    match r
    case None => forall i :: 0 <= i < |conds| ==> conds[i].kind != "UpstreamReachable"
    case Some(b) =>
      exists i ::
        && 0 <= i < |conds| && conds[i].kind == "UpstreamReachable" && conds[i].isTrue == b
        && forall j :: 0 <= j < i ==> conds[j].kind != "UpstreamReachable"
  }

  lemma {:induction false} ReachableIs(conds: seq<Condition>, r: Option<bool>)
    ensures Reachable(conds) == r <==> ReachableShown(conds, r)
  {
    if conds != [] {
      var rest := conds[1..];
      ReachableIs(rest, r);
      assert forall i :: 0 <= i < |rest| ==> rest[i] == conds[i + 1];
      assert forall i :: 1 <= i < |conds| ==> conds[i] == rest[i - 1];
      if conds[0].kind != "UpstreamReachable" {
        if b :| r == Some(b) && ReachableShown(rest, r) {
          var i :| && 0 <= i < |rest| && rest[i].kind == "UpstreamReachable" && rest[i].isTrue == b
                   && forall j :: 0 <= j < i ==> rest[j].kind != "UpstreamReachable";
          assert conds[i + 1].kind == "UpstreamReachable";
        }
        if b :| r == Some(b) && ReachableShown(conds, r) {
          var i :| && 0 <= i < |conds| && conds[i].kind == "UpstreamReachable" && conds[i].isTrue == b
                   && forall j :: 0 <= j < i ==> conds[j].kind != "UpstreamReachable";
          assert rest[i - 1].kind == "UpstreamReachable";
        }
      }
    }
  }

  /** The last live RemoteRoute of that name decides, None when there is none. */
  ghost predicate RemoteShown(rrs: seq<RemoteRoute>, service: string, shown: Option<Option<bool>>) {
    match shown
    case None => forall i :: 0 <= i < |rrs| ==> rrs[i].deleting || rrs[i].ns + "/" + rrs[i].name != service
    case Some(reachable) =>
      exists i ::
        && 0 <= i < |rrs| && !rrs[i].deleting && rrs[i].ns + "/" + rrs[i].name == service
        && (forall j :: i < j < |rrs| ==> rrs[j].deleting || rrs[j].ns + "/" + rrs[j].name != service)
        && ReachableShown(rrs[i].conditions, reachable)
  }

  lemma {:induction false} RemoteIsShown(rrs: seq<RemoteRoute>, service: string)
    ensures RemoteShown(rrs, service, RemoteFor(rrs, service))
  {
    if rrs != [] {
      hide ReachableShown, Reachable;
      var n := |rrs| - 1;
      RemoteIsShown(rrs[..n], service);
      assert forall i :: 0 <= i < n ==> rrs[..n][i] == rrs[i];
      ReachableIs(rrs[n].conditions, Reachable(rrs[n].conditions));
    }
  }

  /** The last live EdgeTransformation on that Service with a cookie decides, ""
      when there is none. */
  ghost predicate CookieShown(ets: seq<EdgeTransformation>, service: string, cookie: string) {
    if cookie == "" then
      forall i :: 0 <= i < |ets| ==>
        ets[i].deleting || ets[i].sourceCookie == "" || ets[i].ns + "/" + ets[i].target != service
    else
      exists i ::
        && 0 <= i < |ets| && !ets[i].deleting && ets[i].ns + "/" + ets[i].target == service
        && ets[i].sourceCookie == cookie
        && forall j :: i < j < |ets| ==>
             ets[j].deleting || ets[j].sourceCookie == "" || ets[j].ns + "/" + ets[j].target != service
  }

  lemma {:induction false} CookieIsShown(ets: seq<EdgeTransformation>, service: string)
    ensures CookieShown(ets, service, CookieFor(ets, service))
  {
    if ets != [] {
      var n := |ets| - 1;
      CookieIsShown(ets[..n], service);
      assert forall i :: 0 <= i < n ==> ets[..n][i] == ets[i];
    }
  }

  // ----- A snapshot ---------------------------------------------------------------------

  /** c is live and comes first among the live ContextRoutes with its routing key. */
  ghost predicate OwnsKey(crs: seq<ContextRoute>, c: ContextRoute) {
    && c in crs && !c.deleting
    && forall d :: d in crs && !d.deleting && EffectiveKey(d) == EffectiveKey(c) ==>
         c.created < d.created || (c.created == d.created && LE(c.name, d.name))
  }

  /** A row of the owner c. */
  ghost predicate RowTells(te: TupleEntry, c: ContextRoute, ets: seq<EdgeTransformation>, rrs: seq<RemoteRoute>) {
    && te.routingKey == EffectiveKey(c) && te.service == c.ns + "/" + c.target
    && te.tuple == te.service + ":" + te.alternative && (te.self <==> te.alternative == ".")
    && CookieShown(ets, te.service, te.sourceCookie)
    && (te.self ==> !te.remote)
    && (te.remote ==> RemoteShown(rrs, c.ns + "/" + te.alternative, Some(te.reachable)))
    && (!te.remote ==> te.reachable == None)
    && (!te.remote && !te.self ==> RemoteShown(rrs, c.ns + "/" + te.alternative, None))
  }

  /** What the snapshot has under a key is what its owner c offers: in the sorted
      list of alternatives, in the key's entry and in the rows. */
  ghost predicate KeyTells(snap: Snapshot, k: string, c: ContextRoute,
                           ets: seq<EdgeTransformation>, rrs: seq<RemoteRoute>,
                           offered: (ContextRoute, string) -> bool)
  {
    && EffectiveKey(c) == k && k in snap.alts && k in snap.meta
    && Sorted(snap.alts[k].list) && (forall n :: n in snap.alts[k].list <==> offered(c, n))
    && LowerOf(snap.alts[k].lower, snap.alts[k].list)
    && snap.meta[k].routingKey == k && CookieShown(ets, c.ns + "/" + c.target, snap.meta[k].sourceCookie)
    && (forall te :: te in snap.tuples && te.routingKey == k ==>
          RowTells(te, c, ets, rrs) && offered(c, te.alternative))
    && (forall n :: offered(c, n) ==> exists te :: te in snap.tuples && te.routingKey == k && te.alternative == n)
  }

  ghost predicate LowerOf(lower: seq<string>, xs: seq<string>) {
    |lower| == |xs| && forall i :: 0 <= i < |xs| ==> lower[i] == Lower(xs[i])
  }

  /** The remote flags per alternative and per key are those of the rows. */
  ghost predicate FlagsTell(snap: Snapshot) {
    && (forall te :: te in snap.tuples && te.remote ==> te.routingKey + ":" + te.alternative in snap.remoteByAlt)
    && (forall x :: x in snap.remoteByAlt ==> exists te :: FlagTold(snap, x, te))
    && (forall k :: k in snap.hasRemote <==> exists te :: te in snap.tuples && te.remote && te.routingKey == k)
  }

  ghost predicate FlagTold(snap: Snapshot, x: string, te: TupleEntry)
    requires x in snap.remoteByAlt
  {
    te in snap.tuples && te.remote && x == te.routingKey + ":" + te.alternative && snap.remoteByAlt[x] == te.reachable
  }

  /** The snapshot has one entry per routing key of a live ContextRoute, and under
      each what the key's owner offers. */
  ghost predicate Tells(snap: Snapshot, crs: seq<ContextRoute>, ets: seq<EdgeTransformation>, rrs: seq<RemoteRoute>,
                        offered: (ContextRoute, string) -> bool)
  {
    && StrictlySorted(snap.targets) && LowerOf(snap.targetsLower, snap.targets)
    && (forall k :: k in snap.targets <==> exists c :: c in crs && !c.deleting && EffectiveKey(c) == k)
    && (forall k :: k in snap.alts || k in snap.meta ==> k in snap.targets)
    && (forall k :: k in snap.targets ==>
          exists c :: OwnsKey(crs, c) && KeyTells(snap, k, c, ets, rrs, offered))
    && (forall te :: te in snap.tuples ==> te.routingKey in snap.targets)
    && (forall i, j :: 0 <= i < j < |snap.tuples| ==> LE(snap.tuples[i].tuple, snap.tuples[j].tuple))
    && |snap.tuplesLower| == |snap.tuples|
    && (forall i :: 0 <= i < |snap.tuples| ==> snap.tuplesLower[i] == Lower(snap.tuples[i].tuple))
    && FlagsTell(snap)
  }

  /** The target itself, and the Services listed for c without the target. */
  ghost predicate ListOffers(ls: Lists, c: ContextRoute, n: string) {
    n == "." || (c.selector.Selects? && EffectiveKey(c) in ls.svcsOf && n != c.target
                 && exists s :: s in ls.svcsOf[EffectiveKey(c)] && s.name == n)
  }

  ghost function OfferedIn(ls: Lists): (ContextRoute, string) -> bool {
    (c: ContextRoute, n: string) => ListOffers(ls, c, n)
  }

  lemma RowIs(ls: Lists, key: string, owner: ContextRoute, alt: string)
    requires EffectiveKey(owner) == key
    ensures RowTells(Row(ls, key, owner, alt), owner, ls.ets, ls.rrs) && Row(ls, key, owner, alt).alternative == alt
  {
    hide CookieShown, RemoteShown;
    CookieIsShown(ls.ets, owner.ns + "/" + owner.target);
    RemoteIsShown(ls.rrs, owner.ns + "/" + alt);
  }

  lemma OfferedIs(ls: Lists, c: ContextRoute)
    ensures var list := AltList(c, ListedFor(ls, EffectiveKey(c)));
      Sorted(list) && forall n :: n in list <==> ListOffers(ls, c, n)
  {
    hide LE;
    LERefl(SELF);
    if c.selector.Selects? { AltListIs(c, ListedFor(ls, EffectiveKey(c))); }
  }

  lemma TuplesAre(snap: Snapshot, ls: Lists, te: TupleEntry)
    requires IsBuild(snap, ls)
    ensures te in snap.tuples <==> te.routingKey in OwnerKeys(ls.crs) && te in RowsOf(ls, te.routingKey)
  {
    hide RemotesBuilt, KeyBuilt, Sorted, StrictlySorted, OwnerOf, AltList, Complete, RowsOf;
    assert te in snap.tuples <==> te in multiset(snap.tuples);
    assert te in RowsOf(ls, te.routingKey) <==> te in multiset(RowsOf(ls, te.routingKey));
  }

  lemma KeyIs(snap: Snapshot, ls: Lists, k: string) returns (c: ContextRoute)
    requires IsBuild(snap, ls) && k in OwnerKeys(ls.crs)
    ensures OwnsKey(ls.crs, c) && KeyTells(snap, k, c, ls.ets, ls.rrs, OfferedIn(ls))
    ensures OwnerOf(ls.crs, k) == Some(c)
  {
    hide RemotesBuilt, TuplesBuilt, Row, Sorted, StrictlySorted, Oldest, AltList, Complete, CookieShown,
         CookieFor, ListOffers, LE;
    assert KeyBuilt(snap.alts[k], snap.meta[k], ls, k);
    KeyOwnerByFields(ls.crs, k);
    c := OwnerOf(ls.crs, k).value;
    OfferedIs(ls, c);
    CookieIsShown(ls.ets, c.ns + "/" + c.target);
    var alts, rows := AltList(c, ListedFor(ls, k)), RowsOf(ls, k);
    forall te | te in snap.tuples && te.routingKey == k
      ensures RowTells(te, c, ls.ets, ls.rrs) && ListOffers(ls, c, te.alternative)
    {
      TuplesAre(snap, ls, te);
      var i :| 0 <= i < |rows| && rows[i] == te;
      assert alts[i] in alts;
      RowIs(ls, k, c, alts[i]);
    }
    forall n | ListOffers(ls, c, n)
      ensures exists te :: te in snap.tuples && te.routingKey == k && te.alternative == n
    {
      var i :| 0 <= i < |alts| && alts[i] == n;
      RowIs(ls, k, c, n);
      assert rows[i] in rows;
      assert Row(ls, k, c, n).routingKey == k;
      TuplesAre(snap, ls, rows[i]);
    }
  }

  /** The row of an owner's alternative is in the snapshot. */
  lemma RowInSnapshot(snap: Snapshot, ls: Lists, k: string, owner: ContextRoute, alt: string) returns (te: TupleEntry)
    requires IsBuild(snap, ls) && k in OwnerKeys(ls.crs) && OwnerOf(ls.crs, k) == Some(owner)
    requires alt in AltList(owner, ListedFor(ls, k))
    ensures te == Row(ls, k, owner, alt) && te in snap.tuples && te.routingKey == k && te.alternative == alt
  {
    te := Row(ls, k, owner, alt);
    TuplesAre(snap, ls, te);
    var alts, rows := AltList(owner, ListedFor(ls, k)), RowsOf(ls, k);
    hide IsBuild, OwnerOf, AltList, Row, OwnerKeys;
    var i :| 0 <= i < |alts| && alts[i] == alt;
    assert rows[i] == te;
  }

  lemma RemoteRow(snap: Snapshot, ls: Lists, te: TupleEntry)
    requires IsBuild(snap, ls) && te in snap.tuples && te.remote
    ensures te.routingKey in OwnerKeys(ls.crs) && IsRemote(ls, te.routingKey, te.alternative)
    ensures te.routingKey in snap.hasRemote && te.routingKey + ":" + te.alternative in snap.remoteByAlt
  {
    hide KeyBuilt, Sorted, StrictlySorted, AltList, Complete, TuplesBuilt, RemoteFor, CookieFor;
    TuplesAre(snap, ls, te);
    var k := te.routingKey;
    OwnerExists(ls.crs, k);
    var owner := OwnerOf(ls.crs, k).value;
    hide OwnerOf;
    var alts, rows := AltList(owner, ListedFor(ls, k)), RowsOf(ls, k);
    var i :| 0 <= i < |rows| && rows[i] == te;
    assert te == Row(ls, k, owner, alts[i]) && alts[i] in alts;
    assert IsRemote(ls, k, te.alternative);
  }

  /** The row behind a remote flag. */
  lemma RemoteIn(snap: Snapshot, ls: Lists, k: string, alt: string) returns (te: TupleEntry)
    requires IsBuild(snap, ls) && IsRemote(ls, k, alt)
    ensures te == Row(ls, k, OwnerOf(ls.crs, k).value, alt)
    ensures te in snap.tuples && te.remote && te.routingKey == k && te.alternative == alt
  {
    hide IsBuild, OwnerOf, AltList, Row, OwnerKeys;
    te := RowInSnapshot(snap, ls, k, OwnerOf(ls.crs, k).value, alt);
  }

  lemma FlagIsTold(snap: Snapshot, ls: Lists, x: string) returns (te: TupleEntry)
    requires IsBuild(snap, ls) && x in snap.remoteByAlt
    ensures FlagTold(snap, x, te)
  {
    hide TuplesBuilt, KeyBuilt, Complete, Sorted, StrictlySorted, OwnerOf, AltList, Row;
    var k, alt :| RemoteEntry(ls, OwnerKeys(ls.crs), x, k, alt, snap.remoteByAlt[x]);
    te := RemoteIn(snap, ls, k, alt);
  }

  lemma KeyFlagIsTold(snap: Snapshot, ls: Lists, k: string) returns (te: TupleEntry)
    requires IsBuild(snap, ls) && k in snap.hasRemote
    ensures te in snap.tuples && te.remote && te.routingKey == k
  {
    hide TuplesBuilt, KeyBuilt, Complete, Sorted, StrictlySorted, OwnerOf, AltList, Row;
    var alt :| IsRemote(ls, k, alt);
    te := RemoteIn(snap, ls, k, alt);
  }

  lemma FlagsAreTold(snap: Snapshot, ls: Lists)
    requires IsBuild(snap, ls)
    ensures FlagsTell(snap)
  {
    hide IsBuild, OwnerKeys, IsRemote;
    forall te | te in snap.tuples && te.remote
      ensures te.routingKey + ":" + te.alternative in snap.remoteByAlt && te.routingKey in snap.hasRemote
    {
      RemoteRow(snap, ls, te);
    }
    forall x | x in snap.remoteByAlt ensures exists te :: FlagTold(snap, x, te) {
      var te := FlagIsTold(snap, ls, x);
    }
    forall k | k in snap.hasRemote ensures exists te :: te in snap.tuples && te.remote && te.routingKey == k {
      var te := KeyFlagIsTold(snap, ls, k);
    }
  }

  /** Every build says what was listed, in the fields of the objects. */
  lemma BuildTells(snap: Snapshot, ls: Lists)
    requires IsBuild(snap, ls)
    ensures Tells(snap, ls.crs, ls.ets, ls.rrs, OfferedIn(ls))
  {
    hide KeyBuilt, Complete, RemotesBuilt, TuplesBuilt, KeyTells, OwnsKey, FlagsTell, RowsOf, LE, Lower;
    FlagsAreTold(snap, ls);
    forall k | k in snap.targets
      ensures exists c :: OwnsKey(ls.crs, c) && KeyTells(snap, k, c, ls.ets, ls.rrs, OfferedIn(ls))
    {
      var c := KeyIs(snap, ls, k);
    }
    forall te | te in snap.tuples ensures te.routingKey in snap.targets { TuplesAre(snap, ls, te); }
    var ks := Keys(snap.tuples, TupleKey);
    assert forall i :: 0 <= i < |ks| ==> ks[i] == snap.tuples[i].tuple;
  }

  // ----- What a quiet server shows ----------------------------------------------------

  /** The target itself, and the Services of c's namespace that its selector
      accepts, without the target. */
  ghost predicate Offers(svcs: seq<Service>, c: ContextRoute, n: string) {
    n == "." || (c.selector.Selects? && n != c.target
                 && exists s :: s in svcs && s.ns == c.ns && s.labels in c.selector.accepted && s.name == n)
  }

  ghost function OfferedBy(svcs: seq<Service>): (ContextRoute, string) -> bool {
    (c: ContextRoute, n: string) => Offers(svcs, c, n)
  }

  lemma ReadOffers(w: World, c: ContextRoute, n: string)
    requires OwnsKey(w.crs.val, c) && OwnerOf(w.crs.val, EffectiveKey(c)) == Some(c)
    ensures ListOffers(ListsNow(w), c, n) <==> Offers(w.svcs.val, c, n)
  {
    hide OwnerOf;
    var ls := ListsNow(w);
    if c.selector.Selects? {
      ListedAre(c, w.svcs.val);
      assert EffectiveKey(c) in NeededKeys(w.crs.val);
      assert ls.svcsOf[EffectiveKey(c)] == Listed(c, w.svcs.val);
    }
  }

  /** Over every interleaving: once nothing is on its way and no rebuild has been
      missed, the served snapshot tells the cluster as the cache has it now. */
  lemma QuietServerTellsCluster(states: seq<State>, acts: seq<Action>, i: nat)
    requires Run(states, acts) && i < |states| && Quiescent(states[i]) && !Missed(states, acts, i)
    ensures var w := states[i].world;
      Tells(Served(states[i]), w.crs.val, w.ets.val, w.rrs.val, OfferedBy(w.svcs.val))
  {
    PublishedIsFresh(states, acts, i);
    FreshTells(Served(states[i]), states[i].world);
  }

  lemma FreshTells(snap: Snapshot, w: World)
    requires IsBuild(snap, ListsNow(w))
    ensures Tells(snap, w.crs.val, w.ets.val, w.rrs.val, OfferedBy(w.svcs.val))
  {
    var ls := ListsNow(w);
    assert ls.crs == w.crs.val && ls.ets == w.ets.val && ls.rrs == w.rrs.val;
    BuildTells(snap, ls);
    hide IsBuild, FlagsTell, ListsNow, OwnsKey, KeyTells, LowerOf, StrictlySorted, LE, Lower;
    forall k | k in snap.targets
      ensures exists c :: OwnsKey(w.crs.val, c) && KeyTells(snap, k, c, w.ets.val, w.rrs.val, OfferedBy(w.svcs.val))
    {
      var c := FreshKey(snap, w, k);
    }
  }

  lemma FreshKey(snap: Snapshot, w: World, k: string) returns (c: ContextRoute)
    requires IsBuild(snap, ListsNow(w)) && k in snap.targets
    ensures OwnsKey(w.crs.val, c) && KeyTells(snap, k, c, w.ets.val, w.rrs.val, OfferedBy(w.svcs.val))
  {
    var ls := ListsNow(w);
    TargetsAre(snap, ls);
    hide IsBuild, OwnerOf, RowTells, CookieShown, LowerOf, Sorted, Offers, ListOffers;
    assert ls.crs == w.crs.val && ls.ets == w.ets.val && ls.rrs == w.rrs.val;
    c := KeyIs(snap, ls, k);
    forall n ensures OfferedIn(ls)(c, n) <==> OfferedBy(w.svcs.val)(c, n) { ReadOffers(w, c, n); }
  }

  lemma TargetsAre(snap: Snapshot, ls: Lists)
    requires IsBuild(snap, ls)
    ensures forall k :: k in snap.targets <==> k in OwnerKeys(ls.crs)
  {
  }
}
