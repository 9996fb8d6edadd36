/** A chain of tiers as the controllers leave it in the cluster: the stored
    HTTPRoutes and the translators' configurations decide what each tier does. */
module Deployment {
  import opened Wire
  import opened Api
  import opened Ownership
  import opened MeshRoute
  import opened Backends
  import Agreement
  import C = Chain
  import CookieStore
  import Order
  import R = Reconcile
  import T = Translator
  import V = Version

  /** The EndpointSlices of a namespace's Services. */
  type SlicesIn = string -> map<string, seq<Slice>>

  function Address(b: Backend): string {
    b.ip + ":" + if b.port >= 0 then V.Print(b.port) else "-" + V.Print(-b.port)
  }

  /** The variant lines of the nginx map: the backends by name. */
  function NginxVariants(bs: seq<Backend>): seq<T.Variant> {
    Lines(Order.SortBy(bs, (b: Backend) => b.name))
  }

  function Lines(bs: seq<Backend>): (vs: seq<T.Variant>)
    ensures |vs| == |bs| && forall i :: 0 <= i < |bs| ==> vs[i].name == bs[i].name
  {
    seq(|bs|, i requires 0 <= i < |bs| => T.Variant(bs[i].name, Address(bs[i])))
  }

  /** The first live EdgeTransformation on a target. */
  function TranslatorOn(ets: seq<EdgeTransformation>, ns: string, target: string): Option<EdgeTransformation> {
    if ets == [] then None
    else if ets[0].ns == ns && !ets[0].deleting && ets[0].target == target then Some(ets[0])
    else TranslatorOn(ets[1..], ns, target)
  }

  lemma {:induction false} TranslatorOnIs(ets: seq<EdgeTransformation>, ns: string, target: string)
    ensures TranslatorOn(ets, ns, target).Some? <==> R.HasET(ets, ns, target)
  {
    if ets != [] {
      TranslatorOnIs(ets[1..], ns, target);
      if R.HasET(ets[1..], ns, target) {
        var i :| 0 <= i < |ets[1..]| && ets[1..][i].ns == ns && !ets[1..][i].deleting && ets[1..][i].target == target;
        assert ets[i + 1] == ets[1..][i];
      }
      if R.HasET(ets, ns, target) && TranslatorOn(ets, ns, target) != Some(ets[0]) {
        var i :| 0 <= i < |ets| && ets[i].ns == ns && !ets[i].deleting && ets[i].target == target;
        assert ets[1..][i - 1] == ets[i];
      }
    }
  }

  /** The tier a routed ContextRoute makes of its target. */
  function TierOf(s: R.Store, slices: SlicesIn, c: ContextRoute): C.Tier
    requires R.Programmable(s, c)
  {
    var variants := VariantsOf(c, s.svcs);
    match TranslatorOn(s.ets, c.ns, c.target)
    case Some(et) =>
      C.TranslatorTier(et.sourceCookie, EffectiveKey(c), NginxVariants(Collected(variants, slices(c.ns))))
    case None => C.MeshTier(c, R.FindService(s.svcs, c.ns, c.target).value, variants)
  }

  /** What happens at the target in the cluster: a translator runs its own
      configuration, and the mesh whatever HTTPRoute is stored. */
  ghost function StoredHop(t: R.Store, slices: SlicesIn, c: ContextRoute, req: T.Request): (T.Choice, T.Request)
    requires R.Programmable(t, c)
  {
    if TranslatorOn(t.ets, c.ns, c.target).Some? then C.Hop(TierOf(t, slices, c), req)
    else
      match R.RouteAt(t.routes, R.RouteKey(c.ns, c.target))
      case None => (T.Default, req)
      case Some(route) => (MeshChoice(route, req.baggage), req)
  }

  ghost function StoredChoices(t: R.Store, slices: SlicesIn, cs: seq<ContextRoute>, req: T.Request): (r: seq<T.Choice>)
    requires forall c :: c in cs ==> R.Programmable(t, c)
    ensures |r| == |cs|
  {
    if cs == [] then []
    else
      assert cs[0] in cs && forall c :: c in cs[1..] ==> c in cs;
      var (choice, out) := StoredHop(t, slices, cs[0], req);
      [choice] + StoredChoices(t, slices, cs[1..], out)
  }

  function TiersOf(s: R.Store, slices: SlicesIn, cs: seq<ContextRoute>): (ts: seq<C.Tier>)
    requires forall c :: c in cs ==> R.Programmable(s, c)
    ensures |ts| == |cs|
  {
    if cs == [] then []
    else
      assert cs[0] in cs && forall c :: c in cs[1..] ==> c in cs;
      [TierOf(s, slices, cs[0])] + TiersOf(s, slices, cs[1..])
  }

  /** Reconciled to the end in this run, and the owner of target and key. */
  predicate Settled(s: R.Store, ks: seq<R.Key>, c: ContextRoute) {
    R.Routed(s, c) && R.KeyOf(c) in R.Finished(s, ks)
  }

  predicate AllSettled(s: R.Store, ks: seq<R.Key>, cs: seq<ContextRoute>) {
    forall c :: c in cs ==> R.Programmable(s, c) && Settled(s, ks, c)
  }

  /** The controllers leave at each settled target what its tier assumes: the mesh
      follows the rendered rules, or no HTTPRoute competes with the translator,
      which follows the same ContextRoute. */
  lemma TierIsDeployed(s: R.Store, ks: seq<R.Key>, slices: SlicesIn, c: ContextRoute, req: T.Request)
    requires R.Steady(s) && Settled(s, ks, c)
    ensures var t := R.Run(s, ks);
      && R.Programmable(t, c) && StoredHop(t, slices, c, req) == C.Hop(TierOf(s, slices, c), req)
      && C.KeyOf(TierOf(s, slices, c)) == EffectiveKey(c)
      && Oldest(t.crs, OnTarget(c.ns, c.target)) == Some(c)
      && (TierOf(s, slices, c).TranslatorTier? ==> R.RouteAt(t.routes, R.RouteKey(c.ns, c.target)).None?)
  {
    var t := R.Run(s, ks);
    R.RunSpecs(s, ks);
    R.RunOnRoute(s, ks, c);
    TranslatorOnIs(s.ets, c.ns, c.target);
    TargetWinner(s.crs, c);
    hide R.Run, R.Finished, CRRoute, MeshChoice, VariantsOf, Collected, NginxVariants, Accepted;
  }

  lemma TargetWinner(crs: seq<ContextRoute>, c: ContextRoute)
    requires WellFormed(crs) && c in crs && !c.deleting && Accepted(crs, c)
    ensures Oldest(crs, OnTarget(c.ns, c.target)) == Some(c)
  {
    OldestIs(crs, OnTarget(c.ns, c.target));
    assert OnTarget(c.ns, c.target)(c);
  }

  /** So a chain of settled targets does in the cluster what the chain of their
      tiers does, */
  lemma {:induction false} ChainIsDeployed(s: R.Store, ks: seq<R.Key>, slices: SlicesIn, cs: seq<ContextRoute>,
                                           req: T.Request)
    requires R.Steady(s) && AllSettled(s, ks, cs)
    ensures forall c :: c in cs ==> R.Programmable(R.Run(s, ks), c)
    ensures StoredChoices(R.Run(s, ks), slices, cs, req) == C.Choices(TiersOf(s, slices, cs), req)
  {
    hide R.Run, R.Finished, R.Programmable, StoredHop, C.Hop, TierOf;
    forall c | c in cs ensures R.Programmable(R.Run(s, ks), c) { TierIsDeployed(s, ks, slices, c, req); }
    if cs != [] {
      assert cs[0] in cs && forall c :: c in cs[1..] ==> c in cs;
      TierIsDeployed(s, ks, slices, cs[0], req);
      var t := TierOf(s, slices, cs[0]);
      assert TiersOf(s, slices, cs)[0] == t && TiersOf(s, slices, cs)[1..] == TiersOf(s, slices, cs[1..]);
      ChainIsDeployed(s, ks, slices, cs[1..], C.Hop(t, req).1);
    }
  }

  /** and every one of them obeys the map that the request brings. */
  lemma ClusterObeysTheMap(s: R.Store, ks: seq<R.Key>, slices: SlicesIn, cs: seq<ContextRoute>,
                           m: CookieStore.Entries, req: T.Request)
    requires R.Steady(s) && AllSettled(s, ks, cs)
    requires C.WireMap(m) && EffectiveOf(m) != []
    requires C.ValidTiers(TiersOf(s, slices, cs)) && C.Brings(TiersOf(s, slices, cs), m, req.baggage)
    ensures forall c :: c in cs ==> R.Programmable(R.Run(s, ks), c)
    ensures forall i :: 0 <= i < |cs| ==>
      StoredChoices(R.Run(s, ks), slices, cs, req)[i] == C.Wanted(m, TiersOf(s, slices, cs)[i])
  {
    hide R.Run, R.Finished, R.Programmable, StoredChoices, C.Choices, C.Wanted, TiersOf, C.WireMap;
    ChainIsDeployed(s, ks, slices, cs, req);
    C.Carried(TiersOf(s, slices, cs), m, req);
  }

  /** A translator knows at most the variants the mesh rules would have. */
  lemma KnownVariants(s: R.Store, slices: SlicesIn, c: ContextRoute)
    requires R.Programmable(s, c)
    ensures C.VariantsAt(TierOf(s, slices, c)) <= Names(VariantsOf(c, s.svcs))
  {
    var variants := VariantsOf(c, s.svcs);
    if TranslatorOn(s.ets, c.ns, c.target).Some? {
      LinesNames(Collected(variants, slices(c.ns)));
      ReadyNamesAre(variants, slices(c.ns));
    }
  }

  lemma LinesNames(bs: seq<Backend>)
    ensures Agreement.VariantNames(NginxVariants(bs)) == set n | n in BackendNames(bs)
  {
    var name := (b: Backend) => b.name;
    var sorted := Order.SortBy(bs, name);
    Order.SortByIs(bs, name);
    Order.SameElements(sorted, bs);
    hide Order.SortBy, Address;
    NamesOfLines(sorted);
    assert forall n :: n in BackendNames(bs) ==> exists b :: b in bs && b.name == n;
    forall b | b in bs ensures b.name in BackendNames(bs) {
      var j :| 0 <= j < |bs| && bs[j] == b;
      assert BackendNames(bs)[j] == b.name;
    }
  }

  lemma NamesOfLines(bs: seq<Backend>)
    ensures forall n :: n in Agreement.VariantNames(Lines(bs)) <==> exists b :: b in bs && b.name == n
  {
    hide Address;
    var vs := Lines(bs);
    forall v | v in vs ensures exists b :: b in bs && b.name == v.name {
      var i :| 0 <= i < |vs| && vs[i] == v;
      assert bs[i] in bs;
    }
    forall b | b in bs ensures b.name in Agreement.VariantNames(vs) {
      var i :| 0 <= i < |bs| && bs[i] == b;
      assert vs[i] in vs;
    }
  }

  // ----- Where a fork ends up -----------------------------------------------------------

  /** Every line of the map carries the address picked for its own variant. */
  lemma LineAddress(svcs: seq<Service>, slicesOf: map<string, seq<Slice>>, v: T.Variant)
    requires v in NginxVariants(Collected(svcs, slicesOf))
    ensures var p := PickFor(slicesOf, v.name);
      && v.name in Names(svcs) && p.ip != ""
      && v.addr == p.ip + ":" + (if p.port >= 0 then V.Print(p.port) else "-" + V.Print(-p.port))
  {
    hide Pick, Order.SortBy;
    var name := (b: Backend) => b.name;
    var bs := Collected(svcs, slicesOf);
    var sorted := Order.SortBy(bs, name);
    Order.SortByIs(bs, name);
    Order.SameElements(sorted, bs);
    var i :| 0 <= i < |sorted| && NginxVariants(bs)[i] == v;
    var b := sorted[i];
    assert b in bs;
    var j :| 0 <= j < |bs| && bs[j] == b;
    assert BackendNames(bs)[j] == b.name;
    assert b.name in ReadyNames(svcs, slicesOf);
    ReadyNamesAre(svcs, slicesOf);
  }

  /** One line per backend, in the order of their names. */
  lemma LinesInOrder(bs: seq<Backend>)
    ensures var vs := NginxVariants(bs);
      |vs| == |bs| && forall i, j :: 0 <= i < j < |vs| ==> Order.LE(vs[i].name, vs[j].name)
  {
    hide Order.LE, Order.SortBy;
    var name := (b: Backend) => b.name;
    var sorted := Order.SortBy(bs, name);
    Order.SortByIs(bs, name);
    assert |multiset(sorted)| == |multiset(bs)|;
    var ks := Order.Keys(sorted, name);
    assert forall i :: 0 <= i < |ks| ==> ks[i] == NginxVariants(bs)[i].name;
  }

  /** At a settled target with a translator, a fork to n goes to the address and
      port picked from n's own slices; without a fork it goes to the default's. */
  lemma ForkReachesPod(s: R.Store, slices: SlicesIn, c: ContextRoute, req: T.Request, defaultAddr: string)
    requires R.Programmable(s, c) && TierOf(s, slices, c).TranslatorTier?
    ensures var t := TierOf(s, slices, c);
      var addr := T.MapAddress(t.variants, defaultAddr, ValueOf(T.Context(t.sourceCookie, req), t.key));
      match C.Hop(t, req).0
      case Default => addr == defaultAddr
      case Fork(n) =>
        var p := PickFor(slices(c.ns), n);
        && n in Names(VariantsOf(c, s.svcs)) && p.ip != ""
        && addr == p.ip + ":" + (if p.port >= 0 then V.Print(p.port) else "-" + V.Print(-p.port))
  {
    hide ValueOf, T.Context, Collected, NginxVariants, PickFor, VariantsOf, T.MapSelect, T.MapAddress, V.Print;
    var t := TierOf(s, slices, c);
    var value := ValueOf(T.Context(t.sourceCookie, req), t.key);
    T.MapAddressIs(t.variants, defaultAddr, value);
    match T.MapSelect(t.variants, value)
    case Default =>
    case Fork(n) =>
      var v :| v in t.variants && v.name == n && v.addr == T.MapAddress(t.variants, defaultAddr, value);
      LineAddress(VariantsOf(c, s.svcs), slices(c.ns), v);
  }

  /** The translator lifts the cookie that a live EdgeTransformation on the target
      names, under the ContextRoute's own key. */
  lemma TranslatorConfigured(s: R.Store, slices: SlicesIn, c: ContextRoute)
    requires R.Programmable(s, c) && TierOf(s, slices, c).TranslatorTier?
    ensures TierOf(s, slices, c).key == EffectiveKey(c)
    ensures exists et ::
      && et in s.ets && !et.deleting && et.ns == c.ns && et.target == c.target
      && et.sourceCookie == TierOf(s, slices, c).sourceCookie
  {
    TranslatorOnFields(s.ets, c.ns, c.target);
  }

  lemma {:induction false} TranslatorOnFields(ets: seq<EdgeTransformation>, ns: string, target: string)
    ensures match TranslatorOn(ets, ns, target)
      case None => true
      case Some(et) => et in ets && !et.deleting && et.ns == ns && et.target == target
  {
    if ets != [] { TranslatorOnFields(ets[1..], ns, target); }
  }

  /** At a settled target without a translator, a fork to n goes to Service n on its
      first port, and everything else to the target on its own. */
  lemma ForkReachesService(s: R.Store, ks: seq<R.Key>, slices: SlicesIn, c: ContextRoute, baggage: string)
    requires R.Steady(s) && Settled(s, ks, c) && TierOf(s, slices, c).MeshTier? && '\n' !in baggage
    requires ',' !in EffectiveKey(c) && forall n :: n in Names(VariantsOf(c, s.svcs)) ==> ',' !in n
    ensures var stored := R.RouteAt(R.Run(s, ks).routes, R.Key(c.ns, "route-prism-cr-" + c.target));
      && stored.Some? && stored.value.parent == c.target
      && var r := FirstMatch(stored.value.rules, baggage);
      && r.Some?
      && match MeshChoice(stored.value, baggage)
         case Default =>
           exists t :: t in s.svcs && t.ns == c.ns && t.name == c.target
             && r.value.backend == t.name && PortFits(r.value.port, t)
         case Fork(n) =>
           exists v :: v in VariantsOf(c, s.svcs) && v.name == n
             && r.value.backend == n && PortFits(r.value.port, v)
  {
    R.RunOnRoute(s, ks, c);
    TranslatorOnIs(s.ets, c.ns, c.target);
    R.ServiceIs(s.svcs, c.ns, c.target);
    var target := R.FindService(s.svcs, c.ns, c.target).value;
    var variants := VariantsOf(c, s.svcs);
    hide R.Run, R.Finished, VariantsOf, MeshRoute.FirstMatch, PieceCarries, Accepted, R.Steady;
    RouteServes(c, target, variants, baggage);
    MeshChoiceIs(c, target, variants, baggage);
  }
}
