/** The query index: Index.Rebuild turns what the List calls returned into one
    immutable snapshot. */
module Index {
  import opened Text
  import opened Wire
  import opened Api
  import opened Ownership
  import opened Order

  const SELF := "."

  datatype AltEntry = AltEntry(list: seq<string>, lower: seq<string>)

  datatype TargetMeta = TargetMeta(routingKey: string, sourceCookie: string)

  /** reachable: Some(true) healthy, Some(false) offline, None not yet reported. */
  datatype TupleEntry = TupleEntry(
    service: string, alternative: string, self: bool, tuple: string, routingKey: string,
    sourceCookie: string, remote: bool, reachable: Option<bool>)

  datatype Snapshot = Snapshot(
    targets: seq<string>, targetsLower: seq<string>,
    alts: map<string, AltEntry>, meta: map<string, TargetMeta>,
    remoteByAlt: map<string, Option<bool>>, hasRemote: set<string>,
    tuples: seq<TupleEntry>, tuplesLower: seq<string>)

  /** What the List calls of one Rebuild returned: one list per kind, and one
      list of selected Services per owner, read under its routing key. */
  datatype Lists = Lists(
    crs: seq<ContextRoute>, ets: seq<EdgeTransformation>, rrs: seq<RemoteRoute>, svcsOf: map<string, seq<Service>>)

  // ----- The specification: what each part of a snapshot says -------------------

  function OwnerKeys(crs: seq<ContextRoute>): set<string> {
    set c | c in crs && !c.deleting :: EffectiveKey(c)
  }

  function OwnerOf(crs: seq<ContextRoute>, key: string): Option<ContextRoute> {
    Oldest(crs, LiveWithKey(key))
  }

  /** Every owner with a usable selector has had its Services listed. */
  ghost predicate Complete(ls: Lists) {
    forall k :: k in OwnerKeys(ls.crs) && OwnerOf(ls.crs, k).Some? && OwnerOf(ls.crs, k).value.selector.Selects? ==>
      k in ls.svcsOf
  }

  function ServiceName(ns: string, name: string): string {
    ns + "/" + name
  }

  predicate LiftsFor(et: EdgeTransformation, service: string) {
    !et.deleting && et.sourceCookie != "" && ServiceName(et.ns, et.target) == service
  }

  /** The cookie name a live EdgeTransformation lifts for a Service, "" when there is none. */
  function CookieFor(ets: seq<EdgeTransformation>, service: string): string {
    if ets == [] then ""
    else
      var et := ets[|ets| - 1];
      if LiftsFor(et, service) then et.sourceCookie
      else CookieFor(ets[..|ets| - 1], service)
  }

  function Reachable(conds: seq<Condition>): Option<bool> {
    if conds == [] then None
    else if conds[0].kind == "UpstreamReachable" then Some(conds[0].isTrue)
    else Reachable(conds[1..])
  }

  predicate Backs(rr: RemoteRoute, service: string) {
    !rr.deleting && ServiceName(rr.ns, rr.name) == service
  }

  /** Whether a live RemoteRoute backs this name, and how reachable it is. */
  function RemoteFor(rrs: seq<RemoteRoute>, service: string): Option<Option<bool>> {
    if rrs == [] then None
    else
      var rr := rrs[|rrs| - 1];
      if Backs(rr, service) then Some(Reachable(rr.conditions))
      else RemoteFor(rrs[..|rrs| - 1], service)
  }

  function ServiceNames(svcs: seq<Service>): seq<string> {
    Keys(svcs, (s: Service) => s.name)
  }

  /** The alternatives of an owner: itself and its variants, sorted. */
  function AltList(owner: ContextRoute, listed: seq<Service>): seq<string> {
    if owner.selector.Invalid? then [SELF]
    else SortBy([SELF] + ServiceNames(NotNamed(listed, owner.target)), s => s)
  }

  function ListedFor(ls: Lists, key: string): seq<Service> {
    if key in ls.svcsOf then ls.svcsOf[key] else []
  }

  function Row(ls: Lists, key: string, owner: ContextRoute, alt: string): TupleEntry {
    var service := ServiceName(owner.ns, owner.target);
    var remote := if alt == SELF then None else RemoteFor(ls.rrs, ServiceName(owner.ns, alt));
    TupleEntry(service, alt, alt == SELF, service + ":" + alt, key, CookieFor(ls.ets, service),
               remote.Some?, if remote.Some? then remote.value else None)
  }

  function Rows(ls: Lists, key: string, owner: ContextRoute, alts: seq<string>): (rows: seq<TupleEntry>)
    ensures |rows| == |alts|
  {
    seq(|alts|, i requires 0 <= i < |alts| => Row(ls, key, owner, alts[i]))
  }

  function RemoteKey(key: string, alt: string): string {
    key + ":" + alt
  }

  /** alt is an alternative of the key's owner that a RemoteRoute backs. */
  ghost predicate IsRemote(ls: Lists, key: string, alt: string) {
    && key in OwnerKeys(ls.crs) && OwnerOf(ls.crs, key).Some?
    && alt in AltList(OwnerOf(ls.crs, key).value, ListedFor(ls, key))
    && Row(ls, key, OwnerOf(ls.crs, key).value, alt).remote
  }

  function Lowered(xs: seq<string>): seq<string> {
    seq(|xs|, i requires 0 <= i < |xs| => Lower(xs[i]))
  }

  function TupleKey(te: TupleEntry): string {
    te.tuple
  }

  /** snap is a correct build of what was listed. Only the order of rows with
      equal tuple strings, and which of two alternatives with equal remote keys
      is kept, are left to Go's map iteration and sort. */
  ghost predicate IsBuild(snap: Snapshot, ls: Lists) {
    && Complete(ls)
    && StrictlySorted(snap.targets) && (forall k :: k in snap.targets <==> k in OwnerKeys(ls.crs))
    && snap.targetsLower == Lowered(snap.targets)
    && snap.alts.Keys == OwnerKeys(ls.crs) && snap.meta.Keys == OwnerKeys(ls.crs)
    && (forall k :: k in OwnerKeys(ls.crs) ==> KeyBuilt(snap.alts[k], snap.meta[k], ls, k))
    && RemotesBuilt(snap.remoteByAlt, snap.hasRemote, ls, OwnerKeys(ls.crs))
    && Sorted(Keys(snap.tuples, TupleKey)) && TuplesBuilt(multiset(snap.tuples), ls, OwnerKeys(ls.crs))
    && snap.tuplesLower == Lowered(Keys(snap.tuples, TupleKey))
  }

  ghost predicate KeyBuilt(entry: AltEntry, meta: TargetMeta, ls: Lists, k: string) {
    && OwnerOf(ls.crs, k).Some?
    && var owner := OwnerOf(ls.crs, k).value;
    && entry.list == AltList(owner, ListedFor(ls, k)) && entry.lower == Lowered(entry.list)
    && meta == TargetMeta(k, CookieFor(ls.ets, ServiceName(owner.ns, owner.target)))
  }

  /** Each row of each owner once, and nothing else. */
  ghost predicate TuplesBuilt(ts: multiset<TupleEntry>, ls: Lists, keys: set<string>) {
    forall te: TupleEntry :: ts[te] == if te.routingKey in keys then multiset(RowsOf(ls, te.routingKey))[te] else 0
  }

  function RowsOf(ls: Lists, key: string): seq<TupleEntry> {
    match OwnerOf(ls.crs, key)
    case None => []
    case Some(owner) => Rows(ls, key, owner, AltList(owner, ListedFor(ls, key)))
  }

  ghost predicate RemotesBuilt(remoteByAlt: map<string, Option<bool>>, hasRemote: set<string>,
                               ls: Lists, keys: set<string>)
  {
    RemotesSound(remoteByAlt, ls, keys) && RemotesCover(remoteByAlt, ls, keys) && HasRemoteIs(hasRemote, ls, keys)
  }

  ghost predicate RemotesSound(remoteByAlt: map<string, Option<bool>>, ls: Lists, keys: set<string>) {
    forall x :: x in remoteByAlt ==> exists k, alt :: RemoteEntry(ls, keys, x, k, alt, remoteByAlt[x])
  }

  ghost predicate RemotesCover(remoteByAlt: map<string, Option<bool>>, ls: Lists, keys: set<string>) {
    forall k, alt :: k in keys && IsRemote(ls, k, alt) ==> RemoteKey(k, alt) in remoteByAlt
  }

  ghost predicate HasRemoteIs(hasRemote: set<string>, ls: Lists, keys: set<string>) {
    forall k :: k in hasRemote <==> k in keys && exists alt :: IsRemote(ls, k, alt)
  }

  ghost predicate RemoteEntry(ls: Lists, keys: set<string>,
                              x: string, k: string, alt: string, reachable: Option<bool>)
  {
    && k in keys && IsRemote(ls, k, alt) && x == RemoteKey(k, alt)
    && reachable == Row(ls, k, OwnerOf(ls.crs, k).value, alt).reachable
  }

  // ----- The loops of Rebuild ------------------------------------------------------

  ghost predicate CookieTable(cookies: map<string, string>, ets: seq<EdgeTransformation>) {
    forall s :: CookieFor(ets, s) == if s in cookies then cookies[s] else ""
  }

  ghost predicate RemoteTable(remotes: map<string, Option<bool>>, rrs: seq<RemoteRoute>) {
    forall s :: RemoteFor(rrs, s) == if s in remotes then Some(remotes[s]) else None
  }

  ghost predicate OwnerTable(owners: map<string, ContextRoute>, crs: seq<ContextRoute>) {
    owners.Keys == OwnerKeys(crs) && forall k :: OwnerOf(crs, k) == if k in owners then Some(owners[k]) else None
  }

  method CookiesByService(ets: seq<EdgeTransformation>) returns (cookies: map<string, string>)
    ensures CookieTable(cookies, ets)
  {
    cookies := map[];
    for j := 0 to |ets|
      invariant CookieTable(cookies, ets[..j])
    {
      assert ets[..j + 1][..j] == ets[..j];
      var et := ets[j];
      if et.deleting || et.sourceCookie == "" { continue; }
      cookies := cookies[ServiceName(et.ns, et.target) := et.sourceCookie];
    }
    assert ets[..|ets|] == ets;
  }

  method FindReachable(conds: seq<Condition>) returns (reachable: Option<bool>)
    ensures reachable == Reachable(conds)
  {
    for i := 0 to |conds|
      invariant Reachable(conds) == Reachable(conds[i..])
    {
      assert conds[i..][1..] == conds[i + 1..];
      if conds[i].kind != "UpstreamReachable" { continue; }
      return Some(conds[i].isTrue);
    }
    reachable := None;
  }

  method RemotesByName(rrs: seq<RemoteRoute>) returns (remotes: map<string, Option<bool>>)
    ensures RemoteTable(remotes, rrs)
  {
    remotes := map[];
    for j := 0 to |rrs|
      invariant RemoteTable(remotes, rrs[..j])
    {
      assert rrs[..j + 1][..j] == rrs[..j];
      var rr := rrs[j];
      if rr.deleting { continue; }
      var reachable := FindReachable(rr.conditions);
      remotes := remotes[ServiceName(rr.ns, rr.name) := reachable];
    }
    assert rrs[..|rrs|] == rrs;
  }

  method ResolveOwners(crs: seq<ContextRoute>) returns (owners: map<string, ContextRoute>)
    ensures OwnerTable(owners, crs)
  {
    owners := map[];
    for j := 0 to |crs|
      invariant OwnerTable(owners, crs[..j])
    {
      assert crs[..j + 1][..j] == crs[..j];
      assert crs[..j + 1] == crs[..j] + [crs[j]];
      var cr := crs[j];
      if cr.deleting { continue; }
      var key := EffectiveKey(cr);
      if key !in owners || Older(cr, owners[key]) {
        owners := owners[key := cr];
      }
    }
    assert crs[..|crs|] == crs;
  }

  method SortedTargets(keys: set<string>) returns (targets: seq<string>)
    ensures StrictlySorted(targets) && forall k :: k in targets <==> k in keys
  {
    targets := [];
    var rest := keys;
    while rest != {}
      invariant rest <= keys && (forall k :: k in targets <==> k in keys - rest)
      invariant forall k :: k in targets ==> multiset(targets)[k] == 1
      decreases |rest|
    {
      var k :| k in rest;
      rest := rest - {k};
      targets := targets + [k];
    }
    ghost var appended := targets;
    SortByIs(targets, s => s);
    targets := SortBy(targets, s => s);
    assert Keys(targets, s => s) == targets;
    SameElements(appended, targets);
    forall i, j | 0 <= i < j < |targets| ensures targets[i] != targets[j] {
      if targets[i] == targets[j] { CountTwice(targets, i, j); }
    }
  }

  lemma CountTwice<T>(xs: seq<T>, i: nat, j: nat)
    requires i < j < |xs| && xs[i] == xs[j]
    ensures multiset(xs)[xs[i]] >= 2
  {
    assert xs == xs[..j] + [xs[j]] + xs[j + 1..];
    assert xs[..j][i] == xs[i] && xs[i] in multiset(xs[..j]);
  }

  method BuildAltEntry(owner: ContextRoute, listed: seq<Service>) returns (entry: AltEntry)
    ensures entry.list == AltList(owner, listed) && entry.lower == Lowered(entry.list)
  {
    if owner.selector.Invalid? {
      assert Lowered([SELF]) == [SELF] by { assert Lower(SELF) == SELF; }
      return AltEntry([SELF], [SELF]);
    }
    var variants := ExcludeTarget(listed, owner.target);
    var list := SortBy([SELF] + ServiceNames(variants), s => s);
    var lower: seq<string> := [];
    for j := 0 to |list|
      invariant lower == Lowered(list)[..j]
    {
      lower := lower + [Lower(list[j])];
    }
    entry := AltEntry(list, lower);
  }

  /** The inner loop: one row per alternative, and the remote flags found on the way. */
  method BuildRows(ghost ls: Lists, key: string, owner: ContextRoute, alts: seq<string>, cookie: string,
                   remotes: map<string, Option<bool>>)
    returns (rows: seq<TupleEntry>, flags: map<string, Option<bool>>)
    requires cookie == CookieFor(ls.ets, ServiceName(owner.ns, owner.target))
    requires RemoteTable(remotes, ls.rrs)
    ensures rows == Rows(ls, key, owner, alts)
    ensures FlagsOf(flags, ls, key, owner, alts)
  {
    hide LE, SortBy;
    rows, flags := [], map[];
    var service := ServiceName(owner.ns, owner.target);
    for i := 0 to |alts|
      invariant rows == Rows(ls, key, owner, alts)[..i]
      invariant FlagsOf(flags, ls, key, owner, alts[..i])
    {
      var alt := alts[i];
      ghost var before := flags;
      var te := TupleEntry(service, alt, false, service + ":" + alt, key, cookie, false, None);
      if alt == SELF {
        te := te.(self := true);
      } else if ServiceName(owner.ns, alt) in remotes {
        te := te.(remote := true, reachable := remotes[ServiceName(owner.ns, alt)]);
        flags := flags[RemoteKey(key, alt) := te.reachable];
      }
      assert te == Row(ls, key, owner, alt);
      assert alts[..i + 1] == alts[..i] + [alt];
      FlagsStep(before, ls, key, owner, alts[..i], alt);
      rows := rows + [te];
    }
    assert alts[..|alts|] == alts;
  }

  /** The remote flags of one owner's alternatives. */
  ghost predicate FlagsOf(flags: map<string, Option<bool>>,
                          ls: Lists, key: string, owner: ContextRoute, alts: seq<string>)
  {
    && (forall x :: x in flags ==> exists alt :: alt in alts && FlagFor(ls, key, owner, alt, x, flags[x]))
    && (forall alt :: alt in alts && Row(ls, key, owner, alt).remote ==> RemoteKey(key, alt) in flags)
  }

  ghost predicate FlagFor(ls: Lists, key: string, owner: ContextRoute,
                          alt: string, x: string, reachable: Option<bool>)
  {
    var row := Row(ls, key, owner, alt);
    row.remote && x == RemoteKey(key, alt) && reachable == row.reachable
  }

  lemma FlagsStep(flags: map<string, Option<bool>>, ls: Lists, key: string, owner: ContextRoute,
                  alts: seq<string>, alt: string)
    requires FlagsOf(flags, ls, key, owner, alts)
    ensures var row := Row(ls, key, owner, alt);
      FlagsOf(if row.remote then flags[RemoteKey(key, alt) := row.reachable] else flags, ls, key, owner, alts + [alt])
  {
    var row := Row(ls, key, owner, alt);
    var flags' := if row.remote then flags[RemoteKey(key, alt) := row.reachable] else flags;
    forall x | x in flags' ensures exists a :: a in alts + [alt] && FlagFor(ls, key, owner, a, x, flags'[x]) {
      if row.remote && x == RemoteKey(key, alt) {
        assert alt in alts + [alt] && FlagFor(ls, key, owner, alt, x, flags'[x]);
      } else {
        var a :| a in alts && FlagFor(ls, key, owner, a, x, flags[x]);
        assert a in alts + [alt];
      }
    }
  }

  lemma TuplesStep(ts: multiset<TupleEntry>, ls: Lists, keys: set<string>, k: string)
    requires TuplesBuilt(ts, ls, keys) && k !in keys
    ensures TuplesBuilt(ts + multiset(RowsOf(ls, k)), ls, keys + {k})
  {
    var rows := RowsOf(ls, k);
    forall te: TupleEntry | te.routingKey != k ensures multiset(rows)[te] == 0 {
      assert te in multiset(rows) <==> te in rows;
    }
  }

  lemma FlagsAreRemotes(flags: map<string, Option<bool>>, ls: Lists, k: string, owner: ContextRoute)
    requires k in OwnerKeys(ls.crs) && OwnerOf(ls.crs, k) == Some(owner)
    requires FlagsOf(flags, ls, k, owner, AltList(owner, ListedFor(ls, k)))
    ensures forall x :: x in flags ==> exists alt :: RemoteEntry(ls, {k}, x, k, alt, flags[x])
    ensures forall alt :: IsRemote(ls, k, alt) ==> RemoteKey(k, alt) in flags
  {
    forall x | x in flags ensures exists alt :: RemoteEntry(ls, {k}, x, k, alt, flags[x]) {
      var alt :| alt in AltList(owner, ListedFor(ls, k)) && FlagFor(ls, k, owner, alt, x, flags[x]);
      assert RemoteEntry(ls, {k}, x, k, alt, flags[x]);
    }
  }

  lemma RemotesStep(ra: map<string, Option<bool>>, hr: set<string>, ls: Lists, keys: set<string>, k: string,
                    owner: ContextRoute, flags: map<string, Option<bool>>)
    requires RemotesBuilt(ra, hr, ls, keys) && k in OwnerKeys(ls.crs) && OwnerOf(ls.crs, k) == Some(owner) && k !in keys
    requires FlagsOf(flags, ls, k, owner, AltList(owner, ListedFor(ls, k)))
    ensures RemotesBuilt(ra + flags, if flags == map[] then hr else hr + {k}, ls, keys + {k})
  {
    SoundStep(ra, ls, keys, k, owner, flags);
    CoverStep(ra, ls, keys, k, owner, flags);
    HasRemoteStep(hr, ls, keys, k, owner, flags);
  }

  lemma CoverStep(ra: map<string, Option<bool>>, ls: Lists, keys: set<string>, k: string,
                  owner: ContextRoute, flags: map<string, Option<bool>>)
    requires RemotesCover(ra, ls, keys) && k in OwnerKeys(ls.crs) && OwnerOf(ls.crs, k) == Some(owner)
    requires FlagsOf(flags, ls, k, owner, AltList(owner, ListedFor(ls, k)))
    ensures RemotesCover(ra + flags, ls, keys + {k})
  {
    FlagsAreRemotes(flags, ls, k, owner);
    forall j, alt | j in keys + {k} && IsRemote(ls, j, alt) ensures RemoteKey(j, alt) in ra + flags {
      if j == k { assert RemoteKey(k, alt) in flags; } else { assert RemoteKey(j, alt) in ra; }
    }
  }

  lemma HasRemoteStep(hr: set<string>, ls: Lists, keys: set<string>, k: string,
                      owner: ContextRoute, flags: map<string, Option<bool>>)
    requires HasRemoteIs(hr, ls, keys) && k !in keys && k in OwnerKeys(ls.crs) && OwnerOf(ls.crs, k) == Some(owner)
    requires FlagsOf(flags, ls, k, owner, AltList(owner, ListedFor(ls, k)))
    ensures HasRemoteIs(if flags == map[] then hr else hr + {k}, ls, keys + {k})
  {
    SomeFlag(flags, ls, k, owner);
  }

  lemma SoundStep(ra: map<string, Option<bool>>, ls: Lists, keys: set<string>, k: string,
                  owner: ContextRoute, flags: map<string, Option<bool>>)
    requires RemotesSound(ra, ls, keys) && k in OwnerKeys(ls.crs) && OwnerOf(ls.crs, k) == Some(owner)
    requires FlagsOf(flags, ls, k, owner, AltList(owner, ListedFor(ls, k)))
    ensures RemotesSound(ra + flags, ls, keys + {k})
  {
    var ra', keys' := ra + flags, keys + {k};
    FlagsAreRemotes(flags, ls, k, owner);
    forall x | x in ra' ensures exists j, alt :: RemoteEntry(ls, keys', x, j, alt, ra'[x]) {
      if x in flags {
        var alt :| RemoteEntry(ls, {k}, x, k, alt, flags[x]);
        assert RemoteEntry(ls, keys', x, k, alt, ra'[x]);
      } else {
        var j, alt :| RemoteEntry(ls, keys, x, j, alt, ra[x]);
        assert RemoteEntry(ls, keys', x, j, alt, ra'[x]);
      }
    }
  }

  lemma SomeFlag(flags: map<string, Option<bool>>, ls: Lists, k: string, owner: ContextRoute)
    requires k in OwnerKeys(ls.crs) && OwnerOf(ls.crs, k) == Some(owner)
    requires FlagsOf(flags, ls, k, owner, AltList(owner, ListedFor(ls, k)))
    ensures flags != map[] <==> exists alt :: IsRemote(ls, k, alt)
  {
    FlagsAreRemotes(flags, ls, k, owner);
    if flags != map[] {
      var x :| x in flags;
      var alt :| RemoteEntry(ls, {k}, x, k, alt, flags[x]);
      assert IsRemote(ls, k, alt);
    }
  }

  /** sort.Slice by Tuple: rows with equal tuples in any order. */
  method SortTuples(tuples: seq<TupleEntry>) returns (out: seq<TupleEntry>)
    ensures Sorted(Keys(out, TupleKey)) && multiset(out) == multiset(tuples)
  {
    out := SortBy(tuples, TupleKey);
    SortByIs(tuples, TupleKey);
  }

  /** The maps and rows being filled while Rebuild goes through the owners. */
  datatype Views = Views(
    alts: map<string, AltEntry>, meta: map<string, TargetMeta>,
    remoteByAlt: map<string, Option<bool>>, hasRemote: set<string>, tuples: seq<TupleEntry>)

  ghost predicate ViewsBuilt(v: Views, ls: Lists, keys: set<string>) {
    && v.alts.Keys == keys && v.meta.Keys == keys
    && (forall k :: k in keys ==> KeyBuilt(v.alts[k], v.meta[k], ls, k))
    && RemotesBuilt(v.remoteByAlt, v.hasRemote, ls, keys)
    && TuplesBuilt(multiset(v.tuples), ls, keys)
  }

  /** One iteration of the loop over the owners. */
  method AddOwner(ls: Lists, v: Views, ghost keys: set<string>, key: string, owner: ContextRoute,
                  cookies: map<string, string>, remotes: map<string, Option<bool>>)
    returns (v': Views)
    requires ViewsBuilt(v, ls, keys) && key !in keys && key in OwnerKeys(ls.crs) && OwnerOf(ls.crs, key) == Some(owner)
    requires CookieTable(cookies, ls.ets)
    requires RemoteTable(remotes, ls.rrs)
    ensures ViewsBuilt(v', ls, keys + {key})
  {
    var listed := if key in ls.svcsOf then ls.svcsOf[key] else [];
    var entry := BuildAltEntry(owner, listed);
    var service := ServiceName(owner.ns, owner.target);
    var cookie := if service in cookies then cookies[service] else "";
    var meta := TargetMeta(key, cookie);
    var rows, flags := BuildRows(ls, key, owner, entry.list, cookie, remotes);
    v' := Views(v.alts[key := entry], v.meta[key := meta], v.remoteByAlt + flags,
                if flags == map[] then v.hasRemote else v.hasRemote + {key}, v.tuples + rows);
    ViewsStep(v, ls, keys, key, owner, entry, meta, rows, flags);
  }

  lemma ViewsStep(v: Views, ls: Lists, keys: set<string>, key: string, owner: ContextRoute,
                  entry: AltEntry, meta: TargetMeta, rows: seq<TupleEntry>, flags: map<string, Option<bool>>)
    requires ViewsBuilt(v, ls, keys) && key !in keys && key in OwnerKeys(ls.crs) && OwnerOf(ls.crs, key) == Some(owner)
    requires KeyBuilt(entry, meta, ls, key) && rows == RowsOf(ls, key)
    requires FlagsOf(flags, ls, key, owner, AltList(owner, ListedFor(ls, key)))
    ensures ViewsBuilt(Views(v.alts[key := entry], v.meta[key := meta], v.remoteByAlt + flags,
      if flags == map[] then v.hasRemote else v.hasRemote + {key}, v.tuples + rows), ls, keys + {key})
  {
    hide RemotesBuilt, TuplesBuilt, KeyBuilt, FlagsOf, RowsOf;
    TuplesStep(multiset(v.tuples), ls, keys, key);
    RemotesStep(v.remoteByAlt, v.hasRemote, ls, keys, key, owner, flags);
    assert multiset(v.tuples + rows) == multiset(v.tuples) + multiset(RowsOf(ls, key));
  }

  const NO_VIEWS := Views(map[], map[], map[], {}, [])

  lemma NothingBuilt(ls: Lists)
    ensures ViewsBuilt(NO_VIEWS, ls, {})
  {
  }

  /** The snapshot Rebuild stores, given the finished views. */
  function Assembled(targets: seq<string>, v: Views, tuples: seq<TupleEntry>): Snapshot {
    Snapshot(targets, Lowered(targets), v.alts, v.meta, v.remoteByAlt, v.hasRemote,
             tuples, Lowered(Keys(tuples, TupleKey)))
  }

  lemma AssembledIsBuild(targets: seq<string>, v: Views, tuples: seq<TupleEntry>, ls: Lists)
    requires Complete(ls) && ViewsBuilt(v, ls, OwnerKeys(ls.crs))
    requires StrictlySorted(targets) && forall k :: k in targets <==> k in OwnerKeys(ls.crs)
    requires Sorted(Keys(tuples, TupleKey)) && multiset(tuples) == multiset(v.tuples)
    ensures IsBuild(Assembled(targets, v, tuples), ls)
  {
  }

  /** The loop over the owners, in whatever order the map yields them. */
  method BuildViews(ls: Lists, owners: map<string, ContextRoute>,
                    cookies: map<string, string>, remotes: map<string, Option<bool>>)
    returns (v: Views)
    requires OwnerTable(owners, ls.crs) && CookieTable(cookies, ls.ets) && RemoteTable(remotes, ls.rrs)
    ensures ViewsBuilt(v, ls, OwnerKeys(ls.crs))
  {
    hide *;
    v := NO_VIEWS;
    NothingBuilt(ls);
    var rest := owners.Keys;
    assert owners.Keys - rest == {};
    while rest != {}
      invariant rest <= owners.Keys
      invariant ViewsBuilt(v, ls, owners.Keys - rest)
      decreases |rest|
    {
      var key :| key in rest;
      OwnerAt(owners, ls.crs, key);
      v := AddOwner(ls, v, owners.Keys - rest, key, owners[key], cookies, remotes);
      OneLess(owners.Keys, rest, key);
      rest := rest - {key};
    }
    assert owners.Keys - rest == owners.Keys;
    OwnerTableKeys(owners, ls.crs);
  }

  lemma OwnerTableKeys(owners: map<string, ContextRoute>, crs: seq<ContextRoute>)
    requires OwnerTable(owners, crs)
    ensures owners.Keys == OwnerKeys(crs)
  {
  }

  lemma OneLess(all: set<string>, rest: set<string>, key: string)
    requires key in rest && rest <= all
    ensures all - (rest - {key}) == (all - rest) + {key} && rest - {key} <= all
  {
  }

  lemma OwnerAt(owners: map<string, ContextRoute>, crs: seq<ContextRoute>, key: string)
    requires OwnerTable(owners, crs) && key in owners
    ensures key in OwnerKeys(crs) && OwnerOf(crs, key) == Some(owners[key])
  {
    assert key in owners.Keys;
  }

  /** What is served before the first rebuild. */
  const EMPTY_SNAPSHOT := Snapshot([], [], map[], map[], map[], {}, [], [])

  const NO_LISTS := Lists([], [], [], map[])

  lemma EmptyIsBuild()
    ensures IsBuild(EMPTY_SNAPSHOT, NO_LISTS)
  {
    hide RowsOf;
    assert OwnerKeys([]) == {};
  }

  class Index {
    var snap: Snapshot

    /** One rebuild, from the lists it read to the published snapshot. */
    method Rebuild(ls: Lists)
      requires Complete(ls)
      modifies this
      ensures IsBuild(snap, ls)
    {
      var cookies := CookiesByService(ls.ets);
      var remotes := RemotesByName(ls.rrs);
      var owners := ResolveOwners(ls.crs);
      var targets := SortedTargets(owners.Keys);
      var v := BuildViews(ls, owners, cookies, remotes);
      var tuples := SortTuples(v.tuples);
      AssembledIsBuild(targets, v, tuples, ls);
      snap := Assembled(targets, v, tuples);
    }
  }

  // ----- A build exists of whatever was listed --------------------------------------

  lemma {:induction false} FlagsExist(ls: Lists, key: string, owner: ContextRoute, alts: seq<string>)
    returns (flags: map<string, Option<bool>>)
    ensures FlagsOf(flags, ls, key, owner, alts)
  {
    if alts == [] {
      flags := map[];
    } else {
      hide FlagsOf, Row;
      var init, alt := alts[..|alts| - 1], alts[|alts| - 1];
      var before := FlagsExist(ls, key, owner, init);
      FlagsStep(before, ls, key, owner, init, alt);
      var row := Row(ls, key, owner, alt);
      flags := if row.remote then before[RemoteKey(key, alt) := row.reachable] else before;
      assert init + [alt] == alts;
    }
  }

  lemma OwnerExists(crs: seq<ContextRoute>, key: string)
    requires key in OwnerKeys(crs)
    ensures OwnerOf(crs, key).Some?
  {
    var c :| c in crs && !c.deleting && EffectiveKey(c) == key;
    OldestIs(crs, LiveWithKey(key));
    assert LiveWithKey(key)(c);
  }

  lemma OwnerBuilt(ls: Lists, key: string) returns (entry: AltEntry, meta: TargetMeta)
    requires OwnerOf(ls.crs, key).Some?
    ensures KeyBuilt(entry, meta, ls, key)
  {
    hide AltList, OwnerOf, CookieFor;
    var owner := OwnerOf(ls.crs, key).value;
    var alts := AltList(owner, ListedFor(ls, key));
    entry := AltEntry(alts, Lowered(alts));
    meta := TargetMeta(key, CookieFor(ls.ets, ServiceName(owner.ns, owner.target)));
  }

  /** AddOwner's iteration, without the loops. */
  lemma OwnerAdded(before: Views, ls: Lists, keys: set<string>, key: string) returns (v: Views)
    requires ViewsBuilt(before, ls, keys) && key !in keys && key in OwnerKeys(ls.crs)
    ensures ViewsBuilt(v, ls, keys + {key})
  {
    hide *;
    OwnerExists(ls.crs, key);
    var owner := OwnerOf(ls.crs, key).value;
    var entry, meta := OwnerBuilt(ls, key);
    var flags := FlagsExist(ls, key, owner, AltList(owner, ListedFor(ls, key)));
    ViewsStep(before, ls, keys, key, owner, entry, meta, RowsOf(ls, key), flags);
    v := Views(before.alts[key := entry], before.meta[key := meta], before.remoteByAlt + flags,
               if flags == map[] then before.hasRemote else before.hasRemote + {key}, before.tuples + RowsOf(ls, key));
  }

  lemma {:induction false} ViewsExist(ls: Lists, keys: set<string>) returns (v: Views)
    requires keys <= OwnerKeys(ls.crs)
    ensures ViewsBuilt(v, ls, keys)
    decreases |keys|
  {
    hide *;
    if keys == {} {
      v := NO_VIEWS;
      NothingBuilt(ls);
    } else {
      var key :| key in keys;
      var before := ViewsExist(ls, keys - {key});
      assert key in OwnerKeys(ls.crs);
      v := OwnerAdded(before, ls, keys - {key}, key);
      assert keys - {key} + {key} == keys;
    }
  }

  lemma {:induction false} TargetsExist(keys: set<string>) returns (targets: seq<string>)
    ensures Sorted(targets) && multiset(targets) == multiset(keys)
  {
    if keys == {} {
      targets := [];
    } else {
      var k :| k in keys;
      var rest := TargetsExist(keys - {k});
      var id := (s: string) => s;
      assert Keys(rest, id) == rest;
      InsertIs(k, rest, id);
      targets := Insert(k, rest, id);
      assert Keys(targets, id) == targets;
      assert keys == keys - {k} + {k};
    }
  }

  lemma NoRepeats(targets: seq<string>, keys: set<string>)
    requires Sorted(targets) && multiset(targets) == multiset(keys)
    ensures StrictlySorted(targets) && forall k :: k in targets <==> k in keys
  {
    forall k ensures k in targets <==> k in keys { assert k in targets <==> k in multiset(targets); }
    forall i, j | 0 <= i < j < |targets| ensures targets[i] != targets[j] {
      if targets[i] == targets[j] { CountTwice(targets, i, j); }
    }
  }

  /** Rebuild has something to publish for any complete set of lists. */
  lemma BuildExists(ls: Lists) returns (snap: Snapshot)
    requires Complete(ls)
    ensures IsBuild(snap, ls)
  {
    hide IsBuild, ViewsBuilt, Complete, Sorted, StrictlySorted;
    var keys := OwnerKeys(ls.crs);
    var targets := TargetsExist(keys);
    NoRepeats(targets, keys);
    var v := ViewsExist(ls, keys);
    SortByIs(v.tuples, TupleKey);
    AssembledIsBuild(targets, v, SortBy(v.tuples, TupleKey), ls);
    snap := Assembled(targets, v, SortBy(v.tuples, TupleKey));
  }

  // ----- What the parts of a row mean ---------------------------------------------

  /** The cookie shown is one a live EdgeTransformation on the Service lifts, and
      it is empty only when there is none. */
  lemma {:induction false} CookieForIs(ets: seq<EdgeTransformation>, service: string)
    ensures CookieFor(ets, service) == "" <==> forall et :: et in ets ==> !LiftsFor(et, service)
    ensures CookieFor(ets, service) != "" ==>
      exists et :: et in ets && LiftsFor(et, service) && et.sourceCookie == CookieFor(ets, service)
  {
    if ets != [] {
      var init, last := ets[..|ets| - 1], ets[|ets| - 1];
      assert forall et :: et in ets <==> et in init || et == last;
      assert last in ets;
      CookieForIs(init, service);
    }
  }

  /** A name counts as remote exactly when a live RemoteRoute carries it. */
  lemma {:induction false} RemoteForIs(rrs: seq<RemoteRoute>, service: string)
    ensures RemoteFor(rrs, service).Some? <==> exists rr :: rr in rrs && Backs(rr, service)
    ensures RemoteFor(rrs, service).Some? ==>
      exists rr :: rr in rrs && Backs(rr, service) && RemoteFor(rrs, service).value == Reachable(rr.conditions)
  {
    if rrs != [] {
      var init, last := rrs[..|rrs| - 1], rrs[|rrs| - 1];
      assert forall rr :: rr in rrs <==> rr in init || rr == last;
      assert last in rrs;
      RemoteForIs(init, service);
    }
  }

  /** The alternatives of an owner are the target itself and exactly its
      variants' names, in order. */
  lemma AltListIs(owner: ContextRoute, listed: seq<Service>)
    requires owner.selector.Selects?
    ensures Sorted(AltList(owner, listed))
    ensures forall n :: n in AltList(owner, listed) <==>
      n == SELF || exists s :: s in listed && s.name == n && n != owner.target
  {
    hide LE, SortBy, NotNamed;
    var all := [SELF] + ServiceNames(NotNamed(listed, owner.target));
    SortByIs(all, s => s);
    assert Keys(SortBy(all, s => s), s => s) == SortBy(all, s => s);
    SameElements(SortBy(all, s => s), all);
    OthersAre(listed, owner.target);
    NamesOf(NotNamed(listed, owner.target));
  }

  lemma NamesOf(svcs: seq<Service>)
    ensures forall n :: n in [SELF] + ServiceNames(svcs) <==> n == SELF || exists s :: s in svcs && s.name == n
  {
    var names := ServiceNames(svcs);
    forall n ensures n in names <==> exists s :: s in svcs && s.name == n {
      if n in names {
        var i :| 0 <= i < |names| && names[i] == n;
        assert svcs[i] in svcs && svcs[i].name == n;
      }
      if s :| s in svcs && s.name == n {
        var i :| 0 <= i < |svcs| && svcs[i] == s;
        assert names[i] == n;
      }
    }
  }

  // ----- What the views of one snapshot have to do with each other ----------------

  /** Keys and alternatives without a colon are told apart by the remote key. */
  lemma RemoteKeyInjective(k: string, alt: string, k': string, alt': string)
    requires RemoteKey(k, alt) == RemoteKey(k', alt') && ':' !in alt && ':' !in alt'
    ensures k == k' && alt == alt'
  {
    var s := RemoteKey(k, alt);
    assert s[|k|] == ':' && s[|k'|] == ':';
    assert forall i :: |k| < i < |s| ==> s[i] == alt[i - |k| - 1];
    assert forall i :: |k'| < i < |s| ==> s[i] == alt'[i - |k'| - 1];
    assert |k| == |k'|;
    assert s[..|k|] == k && s[..|k'|] == k' && s[|k| + 1..] == alt && s[|k'| + 1..] == alt';
  }

  /** The target rows' remote flag and the per-alternative flags agree. */
  lemma HasRemoteAgrees(snap: Snapshot, ls: Lists, k: string)
    requires IsBuild(snap, ls) && k in snap.alts
    requires forall j, alt :: j in snap.alts && alt in snap.alts[j].list ==> ':' !in alt
    ensures k in snap.hasRemote <==> exists alt :: alt in snap.alts[k].list && RemoteKey(k, alt) in snap.remoteByAlt
  {
    hide TuplesBuilt, OwnerOf, AltList, Row, Sorted, StrictlySorted;
    if alt :| alt in snap.alts[k].list && RemoteKey(k, alt) in snap.remoteByAlt {
      var x := RemoteKey(k, alt);
      var j, a :| RemoteEntry(ls, OwnerKeys(ls.crs), x, j, a, snap.remoteByAlt[x]);
      assert KeyBuilt(snap.alts[j], snap.meta[j], ls, j);
      RemoteKeyInjective(k, alt, j, a);
    }
    if k in snap.hasRemote {
      var alt :| IsRemote(ls, k, alt);
      assert KeyBuilt(snap.alts[k], snap.meta[k], ls, k);
    }
  }

  lemma RowShape(snap: Snapshot, ls: Lists, i: nat)
    requires IsBuild(snap, ls) && i < |snap.tuples|
    ensures var te := snap.tuples[i];
      && te.routingKey in OwnerKeys(ls.crs) && te in RowsOf(ls, te.routingKey)
      && te.tuple == te.service + ":" + te.alternative
  {
    hide RemotesBuilt, KeyBuilt, Sorted, StrictlySorted, OwnerOf, AltList, Complete;
    var te := snap.tuples[i];
    assert te in multiset(snap.tuples);
    assert te in multiset(RowsOf(ls, te.routingKey));
  }

  /** The rows of one Service stand together, as the widget's list expects. */
  lemma ServiceRowsContiguous(snap: Snapshot, ls: Lists, i: nat, j: nat, l: nat)
    requires IsBuild(snap, ls) && i < j < l < |snap.tuples|
    requires snap.tuples[i].service == snap.tuples[l].service
    requires ':' !in snap.tuples[i].service && ':' !in snap.tuples[j].service
    ensures snap.tuples[j].service == snap.tuples[i].service
  {
    RowShape(snap, ls, i);
    RowShape(snap, ls, j);
    RowShape(snap, ls, l);
    var a, b, c := snap.tuples[i], snap.tuples[j], snap.tuples[l];
    var ks := Keys(snap.tuples, TupleKey);
    assert ks[i] == a.tuple && ks[j] == b.tuple && ks[l] == c.tuple;
    BetweenRows(a.service, a.alternative, b.tuple, c.alternative);
    FirstField(a.service, b.tuple[|a.service| + 1..], b.service, b.alternative);
  }

  lemma BetweenRows(service: string, x: string, t: string, y: string)
    requires LE(service + ":" + x, t) && LE(t, service + ":" + y)
    ensures |t| > |service| && t == service + ":" + t[|service| + 1..]
  {
    hide LE;
    var p := service + ":";
    PrefixBetween(p, x, t, y);
    assert t == p + t[|p|..];
  }

  lemma FirstField(s: string, r: string, s': string, r': string)
    requires s + ":" + r == s' + ":" + r' && ':' !in s && ':' !in s'
    ensures s == s'
  {
    FindIs(s, ':', r);
    FindIs(s', ':', r');
    assert (s + ":" + r)[..|s|] == s && (s' + ":" + r')[..|s'|] == s';
  }
}
