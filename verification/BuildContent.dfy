/** What a snapshot says about the lists it was built from: exactly the owners'
    rows. A snapshot stays a build of other lists if and only if these agree. */
module BuildContent {
  import opened Wire
  import opened Api
  import opened Order
  import opened Index

  /** The same routing keys with the same rows, in the same order. */
  ghost predicate SameRows(ls: Lists, ls': Lists) {
    && OwnerKeys(ls.crs) == OwnerKeys(ls'.crs)
    && forall k :: k in OwnerKeys(ls.crs) ==> RowsOf(ls, k) == RowsOf(ls', k)
  }

  /** The rows of one key, as the lists and the snapshot's entries for it show them. */
  lemma OwnerRows(ls: Lists, k: string)
    requires k in OwnerKeys(ls.crs)
    ensures OwnerOf(ls.crs, k).Some?
    ensures var owner, rows := OwnerOf(ls.crs, k).value, RowsOf(ls, k);
      var alts := AltList(owner, ListedFor(ls, k));
      && |rows| == |alts| > 0
      && forall i :: 0 <= i < |rows| ==> rows[i] == Row(ls, k, owner, alts[i]) && rows[i].alternative == alts[i]
  {
    OwnerExists(ls.crs, k);
    hide OwnerOf, AltList;
    AltListNonEmpty(OwnerOf(ls.crs, k).value, ListedFor(ls, k));
  }

  lemma AltListNonEmpty(owner: ContextRoute, listed: seq<Service>)
    ensures AltList(owner, listed) != []
  {
    if owner.selector.Selects? {
      var all := [SELF] + ServiceNames(NotNamed(listed, owner.target));
      SortByIs(all, s => s);
      SameElements(SortBy(all, s => s), all);
    }
  }

  /** Equal rows list the same alternatives, show the same cookie and flag the
      same alternatives as remote. */
  lemma RowsTell(ls: Lists, ls': Lists, k: string)
    requires k in OwnerKeys(ls.crs) && k in OwnerKeys(ls'.crs) && RowsOf(ls, k) == RowsOf(ls', k)
    ensures OwnerOf(ls.crs, k).Some? && OwnerOf(ls'.crs, k).Some?
    ensures var o, o' := OwnerOf(ls.crs, k).value, OwnerOf(ls'.crs, k).value;
      && AltList(o, ListedFor(ls, k)) == AltList(o', ListedFor(ls', k))
      && CookieFor(ls.ets, ServiceName(o.ns, o.target)) == CookieFor(ls'.ets, ServiceName(o'.ns, o'.target))
      && forall a :: a in AltList(o, ListedFor(ls, k)) ==> Row(ls, k, o, a) == Row(ls', k, o', a)
  {
    OwnerRows(ls, k);
    OwnerRows(ls', k);
    hide OwnerOf, AltList, RowsOf;
    var o, o' := OwnerOf(ls.crs, k).value, OwnerOf(ls'.crs, k).value;
    var alts, alts', rows := AltList(o, ListedFor(ls, k)), AltList(o', ListedFor(ls', k)), RowsOf(ls, k);
    assert alts == alts' by {
      forall i | 0 <= i < |alts| ensures alts[i] == alts'[i] { assert rows[i].alternative == alts[i]; }
    }
    assert rows[0].sourceCookie == CookieFor(ls.ets, ServiceName(o.ns, o.target));
    forall a | a in alts ensures Row(ls, k, o, a) == Row(ls', k, o', a) {
      var i :| 0 <= i < |alts| && alts[i] == a;
      assert rows[i] == Row(ls, k, o, a);
    }
  }

  lemma KeyStays(entry: AltEntry, meta: TargetMeta, ls: Lists, ls': Lists, k: string)
    requires k in OwnerKeys(ls.crs) && k in OwnerKeys(ls'.crs) && RowsOf(ls, k) == RowsOf(ls', k)
    requires KeyBuilt(entry, meta, ls, k)
    ensures KeyBuilt(entry, meta, ls', k)
  {
    hide OwnerOf, AltList, RowsOf, CookieFor;
    RowsTell(ls, ls', k);
  }

  lemma RemoteStays(ls: Lists, ls': Lists, k: string, alt: string)
    requires SameRows(ls, ls') && IsRemote(ls, k, alt)
    ensures IsRemote(ls', k, alt)
    ensures Row(ls, k, OwnerOf(ls.crs, k).value, alt) == Row(ls', k, OwnerOf(ls'.crs, k).value, alt)
  {
    hide OwnerOf, AltList, RowsOf, Row;
    RowsTell(ls, ls', k);
  }

  lemma RemotesStay(remoteByAlt: map<string, Option<bool>>, hasRemote: set<string>, ls: Lists, ls': Lists)
    requires SameRows(ls, ls') && RemotesBuilt(remoteByAlt, hasRemote, ls, OwnerKeys(ls.crs))
    ensures RemotesBuilt(remoteByAlt, hasRemote, ls', OwnerKeys(ls'.crs))
  {
    hide IsRemote, Row, OwnerOf, RowsOf;
    var keys := OwnerKeys(ls.crs);
    forall k, alt | IsRemote(ls, k, alt) ensures IsRemote(ls', k, alt) { RemoteStays(ls, ls', k, alt); }
    forall k, alt | IsRemote(ls', k, alt) ensures IsRemote(ls, k, alt) { RemoteStays(ls', ls, k, alt); }
    forall x | x in remoteByAlt ensures exists k, alt :: RemoteEntry(ls', keys, x, k, alt, remoteByAlt[x]) {
      var k, alt :| RemoteEntry(ls, keys, x, k, alt, remoteByAlt[x]);
      RemoteStays(ls, ls', k, alt);
      assert RemoteEntry(ls', keys, x, k, alt, remoteByAlt[x]);
    }
  }

  lemma SameRowsSameBuild(snap: Snapshot, ls: Lists, ls': Lists)
    requires IsBuild(snap, ls) && Complete(ls') && SameRows(ls, ls')
    ensures IsBuild(snap, ls')
  {
    hide KeyBuilt, RemotesBuilt, RowsOf, OwnerKeys, Complete, Sorted, StrictlySorted;
    forall k | k in OwnerKeys(ls.crs) ensures KeyBuilt(snap.alts[k], snap.meta[k], ls', k) {
      KeyStays(snap.alts[k], snap.meta[k], ls, ls', k);
    }
    RemotesStay(snap.remoteByAlt, snap.hasRemote, ls, ls');
  }

  lemma BuiltKey(snap: Snapshot, ls: Lists, k: string)
    requires IsBuild(snap, ls) && k in OwnerKeys(ls.crs)
    ensures k in snap.alts && k in snap.meta && KeyBuilt(snap.alts[k], snap.meta[k], ls, k)
    ensures |RowsOf(ls, k)| == |snap.alts[k].list|
    ensures forall i :: 0 <= i < |RowsOf(ls, k)| ==> RowsOf(ls, k)[i].alternative == snap.alts[k].list[i]
  {
    hide RemotesBuilt, TuplesBuilt, OwnerOf, AltList, RowsOf, Row, Complete, Sorted, StrictlySorted;
    OwnerRows(ls, k);
    assert k in snap.alts.Keys && k in snap.meta.Keys;
  }

  lemma SameCounts(snap: Snapshot, ls: Lists, ls': Lists, k: string, te: TupleEntry)
    requires IsBuild(snap, ls) && IsBuild(snap, ls') && k in OwnerKeys(ls.crs) && k in OwnerKeys(ls'.crs)
    requires te.routingKey == k
    ensures te in RowsOf(ls, k) ==> te in RowsOf(ls', k)
  {
    hide KeyBuilt, RemotesBuilt, OwnerKeys, RowsOf, Complete, Sorted, StrictlySorted;
    assert multiset(snap.tuples)[te] == multiset(RowsOf(ls, k))[te] == multiset(RowsOf(ls', k))[te];
    assert te in RowsOf(ls, k) <==> te in multiset(RowsOf(ls, k));
    assert te in RowsOf(ls', k) <==> te in multiset(RowsOf(ls', k));
  }

  /** The snapshot's tuples hold each key's rows as a multiset, its alternatives
      their order. */
  lemma BuildTellsRows(snap: Snapshot, ls: Lists, ls': Lists, k: string)
    requires IsBuild(snap, ls) && IsBuild(snap, ls') && k in OwnerKeys(ls.crs) && k in OwnerKeys(ls'.crs)
    ensures RowsOf(ls, k) == RowsOf(ls', k)
  {
    hide IsBuild, OwnerOf, AltList, RowsOf, Row, OwnerKeys;
    BuiltKey(snap, ls, k);
    BuiltKey(snap, ls', k);
    OwnerRows(ls, k);
    OwnerRows(ls', k);
    var rows, rows' := RowsOf(ls, k), RowsOf(ls', k);
    forall i | 0 <= i < |rows| ensures rows[i] == rows'[i] {
      RowKey(ls, k, rows[i]);
      SameCounts(snap, ls, ls', k, rows[i]);
      var j :| 0 <= j < |rows'| && rows'[j] == rows[i];
    }
  }

  lemma RowKey(ls: Lists, k: string, te: TupleEntry)
    requires te in RowsOf(ls, k)
    ensures te.routingKey == k
  {
  }

  /** The exact condition: a build of some complete lists is a build of others if
      and only if these have the same owners' rows. */
  lemma SameBuildIff(snap: Snapshot, ls: Lists, ls': Lists)
    requires IsBuild(snap, ls) && Complete(ls')
    ensures IsBuild(snap, ls') <==> SameRows(ls, ls')
  {
    if IsBuild(snap, ls') {
      SameTargets(snap, ls, ls');
      hide IsBuild, OwnerKeys, RowsOf;
      forall k | k in OwnerKeys(ls.crs) ensures RowsOf(ls, k) == RowsOf(ls', k) { BuildTellsRows(snap, ls, ls', k); }
    }
    if SameRows(ls, ls') { SameRowsSameBuild(snap, ls, ls'); }
  }

  lemma SameTargets(snap: Snapshot, ls: Lists, ls': Lists)
    requires IsBuild(snap, ls) && IsBuild(snap, ls')
    ensures OwnerKeys(ls.crs) == OwnerKeys(ls'.crs)
  {
    hide OwnerKeys;
  }
}
