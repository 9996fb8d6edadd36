/** The lists a built snapshot serves are fit for the filter and for cursors. */
module Serving {
  import opened Api
  import opened Ownership
  import opened Wire
  import opened Order
  import opened Index
  import Pagination

  lemma KeyNonEmpty(cr: ContextRoute)
    ensures EffectiveKey(cr) != ""
  {
    if cr.routingKey == "" { assert EffectiveKey(cr)[|cr.ns|] == '.'; }
  }

  /** /service pages through strictly sorted, non-empty routing keys. */
  lemma TargetsServed(snap: Snapshot, ls: Lists)
    requires IsBuild(snap, ls)
    ensures Pagination.Served(snap.targets) && |snap.targetsLower| == |snap.targets|
  {
    forall k | k in snap.targets ensures k != "" {
      var c :| c in ls.crs && !c.deleting && EffectiveKey(c) == k;
      KeyNonEmpty(c);
    }
  }

  /** Different owners route different target Services. */
  ghost predicate NoSharedTarget(ls: Lists) {
    forall j, k :: j in OwnerKeys(ls.crs) && k in OwnerKeys(ls.crs) && ServiceOf(ls, j) == ServiceOf(ls, k) ==> j == k
  }

  function ServiceOf(ls: Lists, k: string): string {
    match OwnerOf(ls.crs, k)
    case None => ""
    case Some(o) => ServiceName(o.ns, o.target)
  }

  predicate Distinct(xs: seq<string>) {
    forall i, j :: 0 <= i < j < |xs| ==> xs[i] != xs[j]
  }

  /** Rows of one owner differ in their alternative. */
  lemma {:induction false} AtMostOnce(ls: Lists, key: string, owner: ContextRoute, alts: seq<string>, te: TupleEntry)
    requires Distinct(alts)
    ensures multiset(Rows(ls, key, owner, alts))[te] <= 1
  {
    hide Row;
    var rows := Rows(ls, key, owner, alts);
    if alts != [] {
      var tail := Rows(ls, key, owner, alts[1..]);
      assert rows == [rows[0]] + tail;
      AtMostOnce(ls, key, owner, alts[1..], te);
      if rows[0] == te {
        forall i | 0 <= i < |tail| ensures tail[i] != te { RowAlternative(ls, key, owner, alts, i + 1); }
        assert te !in tail;
      }
    }
  }

  lemma RowAlternative(ls: Lists, key: string, owner: ContextRoute, alts: seq<string>, i: nat)
    requires Distinct(alts) && 0 < i < |alts|
    ensures Row(ls, key, owner, alts[i]) != Row(ls, key, owner, alts[0])
  {
    assert Row(ls, key, owner, alts[i]).alternative == alts[i];
    assert Row(ls, key, owner, alts[0]).alternative == alts[0];
  }

  /** Kubernetes names: no colon in any Service, no Service listed twice for an owner. */
  ghost predicate PlainNames(snap: Snapshot) {
    && (forall i :: 0 <= i < |snap.tuples| ==> ':' !in snap.tuples[i].service)
    && (forall k :: k in snap.alts ==> Distinct(snap.alts[k].list))
  }

  lemma SameTupleSameRow(snap: Snapshot, ls: Lists, i: nat, j: nat)
    requires IsBuild(snap, ls) && PlainNames(snap) && NoSharedTarget(ls)
    requires i < j < |snap.tuples| && snap.tuples[i].tuple == snap.tuples[j].tuple
    ensures snap.tuples[i] == snap.tuples[j]
  {
    hide IsBuild, Row, RowsOf, OwnerOf, ServiceOf;
    RowShape(snap, ls, i);
    RowShape(snap, ls, j);
    var a, b := snap.tuples[i], snap.tuples[j];
    FirstField(a.service, a.alternative, b.service, b.alternative);
    assert (a.service + ":" + a.alternative)[|a.service| + 1..] == a.alternative;
    assert (b.service + ":" + b.alternative)[|b.service| + 1..] == b.alternative;
    RowService(ls, a.routingKey, a);
    RowService(ls, b.routingKey, b);
  }

  lemma RowService(ls: Lists, key: string, te: TupleEntry)
    requires te in RowsOf(ls, key)
    ensures OwnerOf(ls.crs, key).Some? && te.service == ServiceOf(ls, key)
    ensures te == Row(ls, key, OwnerOf(ls.crs, key).value, te.alternative)
  {
    var i :| 0 <= i < |RowsOf(ls, key)| && RowsOf(ls, key)[i] == te;
  }

  lemma RowOnce(snap: Snapshot, ls: Lists, i: nat)
    requires IsBuild(snap, ls) && PlainNames(snap) && i < |snap.tuples|
    ensures multiset(snap.tuples)[snap.tuples[i]] == 1
  {
    hide RemotesBuilt, Sorted, StrictlySorted, Complete, AltList, Rows, Row;
    var te := snap.tuples[i];
    RowShape(snap, ls, i);
    assert KeyBuilt(snap.alts[te.routingKey], snap.meta[te.routingKey], ls, te.routingKey);
    var owner := OwnerOf(ls.crs, te.routingKey).value;
    AtMostOnce(ls, te.routingKey, owner, AltList(owner, ListedFor(ls, te.routingKey)), te);
    assert te in multiset(snap.tuples);
  }

  /** Every alternative of an owner has its row. */
  lemma AlternativeRow(snap: Snapshot, ls: Lists, k: string, alt: string) returns (i: nat)
    requires IsBuild(snap, ls) && k in OwnerKeys(ls.crs) && alt in snap.alts[k].list
    ensures i < |snap.tuples| && snap.tuples[i].routingKey == k
    ensures snap.tuples[i].tuple == ServiceOf(ls, k) + ":" + alt
  {
    hide RemotesBuilt, Sorted, StrictlySorted, Complete, AltList;
    assert KeyBuilt(snap.alts[k], snap.meta[k], ls, k);
    var te := RowWith(ls, k, alt);
    hide RowsOf, KeyBuilt, OwnerOf, ServiceOf;
    assert te in multiset(RowsOf(ls, k)) && te in multiset(snap.tuples);
    i :| 0 <= i < |snap.tuples| && snap.tuples[i] == te;
  }

  lemma RowWith(ls: Lists, k: string, alt: string) returns (te: TupleEntry)
    requires OwnerOf(ls.crs, k).Some? && alt in AltList(OwnerOf(ls.crs, k).value, ListedFor(ls, k))
    ensures te in RowsOf(ls, k) && te.routingKey == k && te.tuple == ServiceOf(ls, k) + ":" + alt
  {
    hide OwnerOf, AltList;
    var alts := AltList(OwnerOf(ls.crs, k).value, ListedFor(ls, k));
    var a :| 0 <= a < |alts| && alts[a] == alt;
    te := RowsOf(ls, k)[a];
  }

  lemma SelfRow(snap: Snapshot, ls: Lists, k: string) returns (i: nat)
    requires IsBuild(snap, ls) && k in OwnerKeys(ls.crs)
    ensures i < |snap.tuples| && snap.tuples[i].routingKey == k
    ensures snap.tuples[i].tuple == ServiceOf(ls, k) + ":" + SELF
  {
    hide RemotesBuilt, Sorted, StrictlySorted, Complete, AltList, TuplesBuilt;
    assert KeyBuilt(snap.alts[k], snap.meta[k], ls, k);
    SelfListed(OwnerOf(ls.crs, k).value, ListedFor(ls, k));
    i := AlternativeRow(snap, ls, k, SELF);
  }

  lemma SelfListed(owner: ContextRoute, listed: seq<Service>)
    ensures SELF in AltList(owner, listed)
  {
    if owner.selector.Selects? {
      var all := [SELF] + ServiceNames(NotNamed(listed, owner.target));
      SortByIs(all, s => s);
      assert all[0] == SELF;
      SameElements(SortBy(all, s => s), all);
    }
  }

  /** The tuple list is fit for cursors exactly when no two owners share a
      target Service; then PaginationSurvivesSwaps and FixedWalk apply to it. */
  lemma TuplesServed(snap: Snapshot, ls: Lists)
    requires IsBuild(snap, ls) && PlainNames(snap)
    ensures Pagination.Served(Keys(snap.tuples, TupleKey)) <==> NoSharedTarget(ls)
  {
    if NoSharedTarget(ls) { UnsharedServed(snap, ls); }
    if Pagination.Served(Keys(snap.tuples, TupleKey)) {
      forall j, k | j in OwnerKeys(ls.crs) && k in OwnerKeys(ls.crs) && ServiceOf(ls, j) == ServiceOf(ls, k)
        ensures j == k
      {
        ServedUnshared(snap, ls, j, k);
      }
    }
  }

  lemma UnsharedServed(snap: Snapshot, ls: Lists)
    requires IsBuild(snap, ls) && PlainNames(snap) && NoSharedTarget(ls)
    ensures Pagination.Served(Keys(snap.tuples, TupleKey))
  {
    hide PlainNames, NoSharedTarget, IsBuild, LE, RowsOf;
    TupleKeysSorted(snap, ls);
    var ks := Keys(snap.tuples, TupleKey);
    forall i, j | 0 <= i < j < |ks| ensures ks[i] != ks[j] { DifferentTuples(snap, ls, i, j); }
    forall i | 0 <= i < |ks| ensures ks[i] != "" { RowShape(snap, ls, i); }
  }

  lemma TupleKeysSorted(snap: Snapshot, ls: Lists)
    requires IsBuild(snap, ls)
    ensures Sorted(Keys(snap.tuples, TupleKey))
  {
  }

  lemma DifferentTuples(snap: Snapshot, ls: Lists, i: nat, j: nat)
    requires IsBuild(snap, ls) && PlainNames(snap) && NoSharedTarget(ls) && i < j < |snap.tuples|
    ensures snap.tuples[i].tuple != snap.tuples[j].tuple
  {
    hide IsBuild, PlainNames, NoSharedTarget;
    if snap.tuples[i].tuple == snap.tuples[j].tuple {
      SameTupleSameRow(snap, ls, i, j);
      CountTwice(snap.tuples, i, j);
      RowOnce(snap, ls, i);
    }
  }

  lemma ServedUnshared(snap: Snapshot, ls: Lists, j: string, k: string)
    requires IsBuild(snap, ls) && Pagination.Served(Keys(snap.tuples, TupleKey))
    requires j in OwnerKeys(ls.crs) && k in OwnerKeys(ls.crs) && ServiceOf(ls, j) == ServiceOf(ls, k)
    ensures j == k
  {
    hide IsBuild, ServiceOf;
    var a := SelfRow(snap, ls, j);
    var b := SelfRow(snap, ls, k);
    var ks := Keys(snap.tuples, TupleKey);
    assert ks[a] == ks[b];
    assert a == b;
  }

  lemma TupleKeysNonEmpty(snap: Snapshot, ls: Lists)
    requires IsBuild(snap, ls)
    ensures Sorted(Keys(snap.tuples, TupleKey)) && "" !in Keys(snap.tuples, TupleKey)
  {
    hide IsBuild, LE, RowsOf;
    TupleKeysSorted(snap, ls);
    forall i | 0 <= i < |snap.tuples| ensures Keys(snap.tuples, TupleKey)[i] != "" { RowShape(snap, ls, i); }
  }

  /** Two owners of one Service: unless their row is the last, a client that asks
      for one row at a time never gets to the end of the list. */
  lemma SharedTargetNeverEnds(snap: Snapshot, ls: Lists, j: string, k: string)
    requires IsBuild(snap, ls) && j in OwnerKeys(ls.crs) && k in OwnerKeys(ls.crs) && j != k
    requires ServiceOf(ls, j) == ServiceOf(ls, k)
    requires exists i :: 0 <= i < |snap.tuples| && Follows(snap, i, ServiceOf(ls, j) + ":" + SELF)
    ensures !Pagination.Ends(Keys(snap.tuples, TupleKey), 1)
  {
    hide IsBuild, LE, ServiceOf, Pagination.Ends;
    var a := SelfRow(snap, ls, j);
    var b := SelfRow(snap, ls, k);
    var ks := Keys(snap.tuples, TupleKey);
    TupleKeysNonEmpty(snap, ls);
    var lo, hi := if a < b then a else b, if a < b then b else a;
    var i :| 0 <= i < |snap.tuples| && Follows(snap, i, ServiceOf(ls, j) + ":" + SELF);
    assert ks[lo] == ks[hi] && lo < hi;
    if i <= hi { InOrder(ks, i, hi); }
    Pagination.Between(ks, lo, lo + 1, hi);
    assert Pagination.CrowdedAt(ks, 1, lo);
    Pagination.WalkEndsIff(ks, 1);
  }

  /** Row i sorts after this tuple. */
  predicate Follows(snap: Snapshot, i: nat, tuple: string)
    requires i < |snap.tuples|
  {
    !LE(snap.tuples[i].tuple, tuple)
  }

  lemma FollowsIs(snap: Snapshot, i: nat, tuple: string)
    requires i < |snap.tuples| && !LE(snap.tuples[i].tuple, tuple)
    ensures Follows(snap, i, tuple)
  {
  }

  lemma InOrder(ks: seq<string>, i: nat, j: nat)
    requires Sorted(ks) && i <= j < |ks|
    ensures LE(ks[i], ks[j])
  {
    LERefl(ks[i]);
  }

  lemma ThirdOwnerFollows(snap: Snapshot, ls: Lists, j: string, k: string, l: string)
    requires IsBuild(snap, ls) && {j, k, l} <= OwnerKeys(ls.crs) && j != k && ServiceOf(ls, j) == ServiceOf(ls, k)
    requires !LE(ServiceOf(ls, l) + ":" + SELF, ServiceOf(ls, j) + ":" + SELF)
    ensures !Pagination.Ends(Keys(snap.tuples, TupleKey), 1)
  {
    hide *;
    var i := SelfRow(snap, ls, l);
    FollowsIs(snap, i, ServiceOf(ls, j) + ":" + SELF);
    SharedTargetNeverEnds(snap, ls, j, k);
  }

  /** Two ContextRoutes with different routing keys on Service n/web, and a third
      one on n/zoo, none of which selects a Service. */
  function ThreeOwnerLists(): Lists {
    Lists([ContextRoute("n", "a", 1, 1, false, "web", "ka", Selects({})),
           ContextRoute("n", "b", 2, 2, false, "web", "kb", Selects({})),
           ContextRoute("n", "c", 3, 3, false, "zoo", "kc", Selects({}))],
          [], [], map["ka" := [], "kb" := [], "kc" := []])
  }

  /** A cluster where that happens. */
  lemma LoopingSnapshot() returns (snap: Snapshot)
    ensures IsBuild(snap, ThreeOwnerLists()) && !Pagination.Ends(Keys(snap.tuples, TupleKey), 1)
  {
    ThreeOwners();
    hide *;
    snap := BuildExists(ThreeOwnerLists());
    ThirdOwnerFollows(snap, ThreeOwnerLists(), "ka", "kb", "kc");
  }

  lemma ThreeOwners()
    ensures var ls := ThreeOwnerLists();
      && Complete(ls) && "ka" != "kb" && {"ka", "kb", "kc"} <= OwnerKeys(ls.crs)
      && ServiceOf(ls, "ka") == ServiceOf(ls, "kb")
      && !LE(ServiceOf(ls, "kc") + ":" + SELF, ServiceOf(ls, "ka") + ":" + SELF)
  {
    var ls := ThreeOwnerLists();
    var a, b, c := ls.crs[0], ls.crs[1], ls.crs[2];
    assert "ka"[1] == 'a' && "kb"[1] == 'b' && "kc"[1] == 'c';
    SoleOwner(ls.crs, a, "ka");
    SoleOwner(ls.crs, b, "kb");
    SoleOwner(ls.crs, c, "kc");
    ZooAfterWeb();
  }

  lemma SoleOwner(crs: seq<ContextRoute>, c: ContextRoute, key: string)
    requires c in crs && !c.deleting && EffectiveKey(c) == key
    requires forall d :: d in crs && EffectiveKey(d) == key ==> d == c
    ensures key in OwnerKeys(crs) && OwnerOf(crs, key) == Some(c)
  {
    OldestIs(crs, LiveWithKey(key));
    assert LiveWithKey(key)(c);
  }

  lemma ZooAfterWeb()
    ensures !LE("n" + "/" + "zoo" + ":" + SELF, "n" + "/" + "web" + ":" + SELF)
  {
    var z, w := "n" + "/" + "zoo" + ":" + SELF, "n" + "/" + "web" + ":" + SELF;
    assert z[1..][1..] == z[2..] && w[1..][1..] == w[2..];
    assert LE(z, w) == LE(z[1..], w[1..]) == LE(z[2..], w[2..]);
    assert z[2..][0] == 'z' && w[2..][0] == 'w';
  }

  // ----- The rows of one routing key ----------------------------------------------------

  /** The widget starts a new group whenever the routing key changes: while no two
      owners share a target, each key has one group. */
  lemma KeyRowsContiguous(snap: Snapshot, ls: Lists, i: nat, j: nat, l: nat)
    requires IsBuild(snap, ls) && NoSharedTarget(ls) && i < j < l < |snap.tuples|
    requires forall h :: 0 <= h < |snap.tuples| ==> ':' !in snap.tuples[h].service
    requires snap.tuples[i].routingKey == snap.tuples[l].routingKey
    ensures snap.tuples[j].routingKey == snap.tuples[i].routingKey
  {
    hide IsBuild, RowsOf, ServiceOf, OwnerOf;
    RowShape(snap, ls, i);
    RowShape(snap, ls, j);
    RowShape(snap, ls, l);
    RowService(ls, snap.tuples[i].routingKey, snap.tuples[i]);
    RowService(ls, snap.tuples[j].routingKey, snap.tuples[j]);
    RowService(ls, snap.tuples[l].routingKey, snap.tuples[l]);
    ServiceRowsContiguous(snap, ls, i, j, l);
  }

  lemma {:induction false} LEAfter(p: string, a: string, b: string)
    ensures LE(p + a, p + b) <==> LE(a, b)
  {
    if p == "" {
      assert p + a == a && p + b == b;
    } else {
      assert (p + a)[1..] == p[1..] + a && (p + b)[1..] == p[1..] + b;
      LEAfter(p[1..], a, b);
    }
  }

  /** The owner lists an alternative that sorts after itself; every Service name does. */
  ghost predicate HasVariant(snap: Snapshot, k: string) {
    k in snap.alts && exists alt :: alt in snap.alts[k].list && !LE(alt, SELF)
  }

  /** If two owners of one Service both have a variant, a row of one of them
      stands between rows of the other. */
  lemma SharedRowsInterleave(snap: Snapshot, ls: Lists, j: string, k: string) returns (a: nat, b: nat, c: nat)
    requires IsBuild(snap, ls) && j in OwnerKeys(ls.crs) && k in OwnerKeys(ls.crs) && j != k
    requires ServiceOf(ls, j) == ServiceOf(ls, k) && HasVariant(snap, j) && HasVariant(snap, k)
    ensures a < b < c < |snap.tuples|
    ensures snap.tuples[a].routingKey == snap.tuples[c].routingKey != snap.tuples[b].routingKey
  {
    hide IsBuild, LE, ServiceOf;
    a := SelfRow(snap, ls, j);
    b := SelfRow(snap, ls, k);
    if a < b {
      c := VariantRow(snap, ls, j, b);
    } else {
      c := VariantRow(snap, ls, k, a);
      a, b := b, a;
    }
  }

  /** A variant's row comes after every row of the Service itself. */
  lemma VariantRow(snap: Snapshot, ls: Lists, k: string, i: nat) returns (c: nat)
    requires IsBuild(snap, ls) && k in OwnerKeys(ls.crs) && HasVariant(snap, k)
    requires i < |snap.tuples| && snap.tuples[i].tuple == ServiceOf(ls, k) + ":" + SELF
    ensures i < c < |snap.tuples| && snap.tuples[c].routingKey == k
  {
    hide IsBuild, LE, ServiceOf;
    var alt :| alt in snap.alts[k].list && !LE(alt, SELF);
    c := AlternativeRow(snap, ls, k, alt);
    LEAfter(ServiceOf(ls, k) + ":", alt, SELF);
    TupleKeysSorted(snap, ls);
    if c <= i { InOrder(Keys(snap.tuples, TupleKey), c, i); }
  }

  /** The rows of each routing key stand together: the widget shows one group per key. */
  ghost predicate OneGroupPerKey(snap: Snapshot) {
    forall i, j, l :: 0 <= i < j < l < |snap.tuples| ==> !Splits(snap, i, j, l)
  }

  predicate Splits(snap: Snapshot, i: nat, j: nat, l: nat)
    requires i < |snap.tuples| && j < |snap.tuples| && l < |snap.tuples|
  {
    snap.tuples[i].routingKey == snap.tuples[l].routingKey != snap.tuples[j].routingKey
  }

  /** Owners that share a Service have only its self row each. */
  ghost predicate SharersHaveOneRow(ls: Lists) {
    forall j, k :: j in OwnerKeys(ls.crs) && k in OwnerKeys(ls.crs) && Sharing(ls, j, k) ==> |RowsOf(ls, j)| == 1
  }

  predicate Sharing(ls: Lists, j: string, k: string) {
    j != k && ServiceOf(ls, j) == ServiceOf(ls, k)
  }

  lemma {:induction false} CountOfOne<T>(xs: seq<T>, x: T)
    requires |xs| == 1
    ensures multiset(xs)[x] <= 1
  {
    assert xs == [xs[0]];
  }

  lemma TupleCount(snap: Snapshot, ls: Lists, te: TupleEntry)
    requires IsBuild(snap, ls) && te.routingKey in OwnerKeys(ls.crs)
    ensures multiset(snap.tuples)[te] == multiset(RowsOf(ls, te.routingKey))[te]
  {
    hide RemotesBuilt, KeyBuilt, Sorted, StrictlySorted, OwnerKeys, RowsOf, Complete;
  }

  /** A key with a single row has it once among the tuples. */
  lemma LoneRow(snap: Snapshot, ls: Lists, i: nat, l: nat)
    requires IsBuild(snap, ls) && i < l < |snap.tuples|
    requires snap.tuples[i].routingKey == snap.tuples[l].routingKey
    ensures |RowsOf(ls, snap.tuples[i].routingKey)| != 1
  {
    hide IsBuild, RowsOf, OwnerKeys;
    RowShape(snap, ls, i);
    RowShape(snap, ls, l);
    var k, te := snap.tuples[i].routingKey, snap.tuples[i];
    if |RowsOf(ls, k)| == 1 {
      assert snap.tuples[l] == RowsOf(ls, k)[0] == te;
      TupleCount(snap, ls, te);
      CountOfOne(RowsOf(ls, k), te);
      CountTwice(snap.tuples, i, l);
    }
  }

  lemma GroupsStandTogether(snap: Snapshot, ls: Lists, i: nat, j: nat, l: nat)
    requires IsBuild(snap, ls) && SharersHaveOneRow(ls) && i < j < l < |snap.tuples|
    requires forall k :: k in OwnerKeys(ls.crs) ==> ':' !in ServiceOf(ls, k)
    ensures !Splits(snap, i, j, l)
  {
    hide IsBuild, RowsOf, ServiceOf, OwnerOf, OwnerKeys;
    var a, b, c := snap.tuples[i], snap.tuples[j], snap.tuples[l];
    RowShape(snap, ls, i);
    RowShape(snap, ls, j);
    RowShape(snap, ls, l);
    RowService(ls, a.routingKey, a);
    RowService(ls, b.routingKey, b);
    RowService(ls, c.routingKey, c);
    if Splits(snap, i, j, l) {
      ServiceRowsContiguous(snap, ls, i, j, l);
      assert Sharing(ls, a.routingKey, b.routingKey);
      LoneRow(snap, ls, i, l);
    }
  }

  /** The snapshot with two rows exchanged. */
  function Exchanged(snap: Snapshot, x: nat, y: nat): Snapshot
    requires x < |snap.tuples| && y < |snap.tuples|
  {
    snap.(tuples := snap.tuples[x := snap.tuples[y]][y := snap.tuples[x]])
  }

  /** Rows with equal tuples may come in either order. */
  lemma ExchangedIsBuild(snap: Snapshot, ls: Lists, x: nat, y: nat)
    requires IsBuild(snap, ls) && x < |snap.tuples| && y < |snap.tuples|
    requires snap.tuples[x].tuple == snap.tuples[y].tuple
    ensures IsBuild(Exchanged(snap, x, y), ls)
  {
    hide RemotesBuilt, KeyBuilt, TuplesBuilt, StrictlySorted, Sorted, Complete;
    var ts, ts' := snap.tuples, Exchanged(snap, x, y).tuples;
    assert multiset(ts') == multiset(ts);
    assert Keys(ts', TupleKey) == Keys(ts, TupleKey);
  }

  /** Two rows a, b of one key and one, c, of another that ties with a: the ties
      can be ordered so that the other key's row stands in between. */
  lemma TiesSplit(snap: Snapshot, ls: Lists, a: nat, b: nat, c: nat) returns (snap': Snapshot)
    requires IsBuild(snap, ls) && a < |snap.tuples| && b < |snap.tuples| && c < |snap.tuples| && a != b
    requires snap.tuples[a].routingKey == snap.tuples[b].routingKey != snap.tuples[c].routingKey
    requires snap.tuples[a].tuple == snap.tuples[c].tuple
    ensures IsBuild(snap', ls) && !OneGroupPerKey(snap')
  {
    hide IsBuild, LE;
    var ks := Keys(snap.tuples, TupleKey);
    TupleKeysSorted(snap, ls);
    var lo, hi := if a < b then a else b, if a < b then b else a;
    if lo < c < hi {
      snap' := snap;
      assert Splits(snap', lo, c, hi);
    } else if (c < lo && a == lo) || (hi < c && a == hi) {
      snap' := Exchanged(snap, a, c);
      ExchangedIsBuild(snap, ls, a, c);
      if c < lo { assert Splits(snap', c, a, b); } else { assert Splits(snap', b, a, c); }
    } else {
      if c < lo { Pagination.Between(ks, c, b, a); } else { Pagination.Between(ks, a, b, c); }
      snap' := Exchanged(snap, b, c);
      ExchangedIsBuild(snap, ls, b, c);
      if c < lo { assert Splits(snap', c, b, a); } else { assert Splits(snap', a, b, c); }
    }
  }

  /** A second row of an owner, besides the one at i. */
  lemma SecondRow(snap: Snapshot, ls: Lists, k: string, i: nat) returns (b: nat)
    requires IsBuild(snap, ls) && k in OwnerKeys(ls.crs) && |RowsOf(ls, k)| > 1
    requires i < |snap.tuples| && snap.tuples[i].routingKey == k
    ensures b < |snap.tuples| && b != i && snap.tuples[b].routingKey == k
  {
    hide IsBuild, OwnerOf, AltList, OwnerKeys;
    var rows, te := RowsOf(ls, k), snap.tuples[i];
    var r := if rows[0] != te then rows[0] else rows[1];
    assert r in rows && r.routingKey == k;
    hide RowsOf;
    TupleCount(snap, ls, r);
    if r != te {
      assert r in multiset(snap.tuples);
      b :| 0 <= b < |snap.tuples| && snap.tuples[b] == r;
    } else {
      CountTwice(rows, 0, 1);
      b := AnotherOf(snap.tuples, i);
    }
  }

  lemma AnotherOf<T>(xs: seq<T>, i: nat) returns (b: nat)
    requires i < |xs| && multiset(xs)[xs[i]] >= 2
    ensures b < |xs| && b != i && xs[b] == xs[i]
  {
    var rest := xs[..i] + xs[i + 1..];
    assert xs == xs[..i] + [xs[i]] + xs[i + 1..];
    assert xs[i] in multiset(rest);
    var j :| 0 <= j < |rest| && rest[j] == xs[i];
    b := if j < i then j else j + 1;
  }

  /** Some build of the lists splits the rows of an owner that shares its Service
      and has a second row. */
  lemma SharedRowsCanSplit(ls: Lists, j: string, k: string) returns (snap: Snapshot)
    requires Complete(ls) && j in OwnerKeys(ls.crs) && k in OwnerKeys(ls.crs) && Sharing(ls, j, k)
    requires |RowsOf(ls, j)| > 1
    ensures IsBuild(snap, ls) && !OneGroupPerKey(snap)
  {
    hide IsBuild, OneGroupPerKey, ServiceOf, RowsOf, Complete, OwnerKeys;
    var any := BuildExists(ls);
    var a := SelfRow(any, ls, j);
    var c := SelfRow(any, ls, k);
    var b := SecondRow(any, ls, j, a);
    snap := TiesSplit(any, ls, a, b, c);
  }

  lemma SomeRow(ls: Lists, k: string)
    requires k in OwnerKeys(ls.crs)
    ensures |RowsOf(ls, k)| >= 1
  {
    OwnerExists(ls.crs, k);
    hide AltList, OwnerOf;
    SelfListed(OwnerOf(ls.crs, k).value, ListedFor(ls, k));
  }

  /** The exact rule, over Go's freedom to order equal tuples: every build of the
      lists has one group per key if and only if the owners that share a Service
      have nothing but its self row. */
  lemma OneGroupPerKeyIff(ls: Lists)
    requires Complete(ls) && forall k :: k in OwnerKeys(ls.crs) ==> ':' !in ServiceOf(ls, k)
    ensures (forall snap :: IsBuild(snap, ls) ==> OneGroupPerKey(snap)) <==> SharersHaveOneRow(ls)
  {
    hide IsBuild, ServiceOf, RowsOf, OwnerKeys, Complete;
    if SharersHaveOneRow(ls) {
      forall snap, i: nat, j: nat, l: nat | IsBuild(snap, ls) && i < j < l < |snap.tuples|
        ensures !Splits(snap, i, j, l)
      {
        GroupsStandTogether(snap, ls, i, j, l);
      }
    } else {
      var j, k :| j in OwnerKeys(ls.crs) && k in OwnerKeys(ls.crs) && Sharing(ls, j, k) && |RowsOf(ls, j)| != 1;
      SomeRow(ls, j);
      var snap := SharedRowsCanSplit(ls, j, k);
    }
  }

  /** Two ContextRoutes on Service n/web, of which only the first has a variant. */
  function TwoOwnerLists(): Lists {
    Lists([ContextRoute("n", "a", 1, 1, false, "web", "ka", Selects({map[]})),
           ContextRoute("n", "b", 2, 2, false, "web", "kb", Selects({}))],
          [], [], map["ka" := [Service("n", "web-v2", "ClusterIP", map[], [80])], "kb" := []])
  }

  /** A cluster whose snapshot can show two groups for one key. */
  lemma SplitGroups() returns (snap: Snapshot)
    ensures IsBuild(snap, TwoOwnerLists()) && !OneGroupPerKey(snap)
  {
    TwoOwners();
    hide *;
    snap := SharedRowsCanSplit(TwoOwnerLists(), "ka", "kb");
  }

  lemma TwoOwners()
    ensures var ls := TwoOwnerLists();
      && Complete(ls) && "ka" in OwnerKeys(ls.crs) && "kb" in OwnerKeys(ls.crs) && Sharing(ls, "ka", "kb")
      && |RowsOf(ls, "ka")| > 1
  {
    var ls := TwoOwnerLists();
    assert "ka"[1] == 'a' && "kb"[1] == 'b';
    SoleOwner(ls.crs, ls.crs[0], "ka");
    SoleOwner(ls.crs, ls.crs[1], "kb");
    TwoNames(ls.crs[0], ls.svcsOf["ka"][0]);
  }

  lemma TwoNames(owner: ContextRoute, v: Service)
    requires owner.selector.Selects? && v.name != owner.target
    ensures |AltList(owner, [v])| == 2
  {
    assert [v][..0] == [] && NotNamed([v], owner.target) == [v];
    var all := [SELF] + ServiceNames(NotNamed([v], owner.target));
    hide SortBy, NotNamed;
    SortByIs(all, s => s);
    SameElements(SortBy(all, s => s), all);
  }

  // ----- The alternatives of one target ---------------------------------------------------

  /** What an owner's alternatives are listed from, before sorting. */
  function AltNames(owner: ContextRoute, listed: seq<Service>): seq<string> {
    [SELF] + if owner.selector.Invalid? then [] else ServiceNames(NotNamed(listed, owner.target))
  }

  lemma DistinctIs(xs: seq<string>)
    ensures Distinct(xs) <==> forall x :: multiset(xs)[x] <= 1
  {
    if Distinct(xs) {
      forall x ensures multiset(xs)[x] <= 1 { DistinctOnce(xs, x); }
    } else {
      var i, j :| 0 <= i < j < |xs| && xs[i] == xs[j];
      CountTwice(xs, i, j);
    }
  }

  lemma {:induction false} DistinctOnce(xs: seq<string>, x: string)
    requires Distinct(xs)
    ensures multiset(xs)[x] <= 1
  {
    if xs != [] {
      assert xs == [xs[0]] + xs[1..];
      DistinctOnce(xs[1..], x);
      assert xs[0] !in xs[1..];
    }
  }

  /** /alternative pages through a list that is fit for the filter and for cursors
      exactly when the names are non-empty, differ and are not the self marker,
      as Kubernetes guarantees for the Services of one namespace. */
  lemma AlternativesServed(snap: Snapshot, ls: Lists, k: string)
    requires IsBuild(snap, ls) && k in snap.alts
    ensures OwnerOf(ls.crs, k).Some?
    ensures var names := AltNames(OwnerOf(ls.crs, k).value, ListedFor(ls, k));
      Pagination.Served(snap.alts[k].list) <==> Distinct(names) && "" !in names
    ensures |snap.alts[k].lower| == |snap.alts[k].list|
  {
    hide TuplesBuilt, RemotesBuilt, OwnerOf, AltList, LE;
    assert KeyBuilt(snap.alts[k], snap.meta[k], ls, k);
    AltListServed(OwnerOf(ls.crs, k).value, ListedFor(ls, k));
  }

  lemma AltListServed(owner: ContextRoute, listed: seq<Service>)
    ensures Pagination.Served(AltList(owner, listed)) <==>
      Distinct(AltNames(owner, listed)) && "" !in AltNames(owner, listed)
  {
    hide LE, SortBy, NotNamed;
    var names, list, id := AltNames(owner, listed), AltList(owner, listed), (s: string) => s;
    if owner.selector.Selects? {
      SortByIs(names, id);
      assert Keys(list, id) == list;
    } else {
      assert names == list;
    }
    SameElements(list, names);
    DistinctIs(list);
    DistinctIs(names);
  }
}
