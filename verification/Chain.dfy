/** A request on its way through a chain of tiers, each fronted by a translator
    or routed by the mesh alone. */
module Chain {
  import opened Text
  import opened Wire
  import opened Api
  import opened MeshRoute
  import opened Agreement
  import CookieStore
  import T = Translator

  datatype Tier =
    | TranslatorTier(sourceCookie: string, key: string, variants: seq<T.Variant>)
    | MeshTier(cr: ContextRoute, target: Service, svcs: seq<Service>)

  function KeyOf(t: Tier): string {
    match t
    case TranslatorTier(_, key, _) => key
    case MeshTier(cr, _, _) => EffectiveKey(cr)
  }

  function VariantsAt(t: Tier): set<string> {
    match t
    case TranslatorTier(_, _, vs) => VariantNames(vs)
    case MeshTier(_, _, svcs) => Names(svcs)
  }

  /** A tier that Kubernetes, the CRD's key rule and nginx accept; its cookie
      name is its own. */
  predicate ValidTier(t: Tier) {
    && SafeKey(KeyOf(t)) && (forall n :: n in VariantsAt(t) ==> Label(n))
    && (t.TranslatorTier? ==> T.MapLoads(t.variants))
  }

  /** One hop: which backend the tier picks and what its service receives and,
      copying Baggage and Cookie, sends on. */
  ghost function Hop(t: Tier, req: T.Request): (T.Choice, T.Request) {
    match t
    case TranslatorTier(cookie, key, vs) =>
      var ctx := T.Context(cookie, req);
      (T.MapSelect(vs, ValueOf(ctx, key)), T.Request(Emit(ctx), req.cookie))
    case MeshTier(cr, target, svcs) =>
      (MeshChoice(CRRoute(cr, target, svcs, true), req.baggage), req)
  }

  ghost function Choices(tiers: seq<Tier>, req: T.Request): (cs: seq<T.Choice>)
    ensures |cs| == |tiers|
  {
    if tiers == [] then []
    else
      var (c, out) := Hop(tiers[0], req);
      [c] + Choices(tiers[1..], out)
  }

  /** A map whose entries survive every wire form: distinct safe keys; values
      that are empty, "." or lower-case labels. */
  predicate WireMap(m: CookieStore.Entries) {
    DistinctKeys(m) && forall e :: e in m ==> SafeKey(e.key) && (e.val == "" || e.val == "." || Label(e.val))
  }

  /** What the map asks for at a tier. */
  function Wanted(m: CookieStore.Entries, t: Tier): T.Choice {
    var v := ValueOf(m, KeyOf(t));
    if v in VariantsAt(t) then T.Fork(v) else T.Default
  }

  lemma WireMapFacts(m: CookieStore.Entries)
    requires WireMap(m)
    ensures CookieStore.Clean(m) && DistinctKeys(EffectiveOf(m))
    ensures forall e :: e in EffectiveOf(m) ==> T.WireSafe(e) && SafeKey(e.key) && Label(e.val)
    ensures '\n' !in Emit(EffectiveOf(m))
  {
    DistinctEffective(m);
    NoNewline(EffectiveOf(m));
  }

  lemma NoNewline(es: seq<Member>)
    requires forall e :: e in es ==> SafeKey(e.key) && Label(e.val)
    ensures '\n' !in Emit(es)
  {
    var ps := Pairs(es, '=');
    forall p | p in ps ensures '\n' !in p { var e := PairsOf(es, p); }
    JoinFree(ps, ',', '\n');
  }

  lemma WireValue(m: CookieStore.Entries, key: string)
    requires WireMap(m)
    ensures Lower(ValueOf(m, key)) == ValueOf(m, key)
  {
    var v := ValueOf(m, key);
    ValueOfIs(m, key);
    if Label(v) { LabelLower(v); } else { assert v == "" || v == "."; }
  }

  /** A translator whose routing context is the map's forks to the map's entry
      for its own key and emits the map again. */
  lemma TranslatorHop(t: Tier, m: CookieStore.Entries, req: T.Request)
    requires WireMap(m) && ValidTier(t) && t.TranslatorTier?
    requires T.Context(t.sourceCookie, req) == EffectiveOf(m)
    ensures Hop(t, req) == (Wanted(m, t), T.Request(Emit(EffectiveOf(m)), req.cookie))
  {
    hide EffectiveOf, ValueOf, Emit, T.MapSelect, T.MapLoads, T.Context;
    WireMapFacts(m);
    EffectiveValue(m, t.key);
    MapReads(t.variants, t.key, ValueOf(m, t.key));
    WireValue(m, t.key);
    forall n | n in VariantsAt(t) ensures n != "" && n != "." { LabelLower(n); }
  }

  /** What this cookie header gives a translator that lifts this name. */
  function Lifted(cookie: string, name: string): seq<Member> {
    T.CookieMembers(T.CookieNamed(cookie, name))
  }

  /** The context is the map's when the header carries it, */
  lemma HeaderContext(m: CookieStore.Entries, req: T.Request, name: string)
    requires T.BaggageMembers(req.baggage) == EffectiveOf(m)
    ensures T.Context(name, req) == if EffectiveOf(m) != [] then EffectiveOf(m) else Lifted(req.cookie, name)
  {
  }

  /** and when the header says nothing and the cookie holds it. */
  lemma CookieContext(m: CookieStore.Entries, req: T.Request, name: string)
    requires WireMap(m) && T.BaggageMembers(req.baggage) == []
    requires T.CookieNamed(req.cookie, name) == CookieStore.Serialize(m)
    ensures T.Context(name, req) == EffectiveOf(m)
  {
    T.CookieMembersOfSerialized(m);
  }

  lemma PairReads(e: Member, key: string, n: string)
    requires T.WireSafe(e) && SafeKey(e.key) && Label(e.val) && Label(n)
    ensures var p := e.key + "=" + e.val;
      && T.Raw(T.BaggageHeader, p) == Some(e)
      && LeadClean(p) && (Fits(p, n) <==> n == e.val)
  {
    var p := e.key + "=" + e.val;
    assert p[0] == e.key[0] && !LuaSpace(p[0]) && ';' !in p;
    T.BodyIs(p);
    KeyValOf(e.key, '=', e.val);
    assert TrimLeft(p) == p && p[..0] == "";
    assert e.val[|e.val|..] == "";
    if Fits(p, n) { LabelEnds(e.val, n, e.val); }
  }

  lemma PairsOf(es: seq<Member>, p: string) returns (e: Member)
    requires p in Pairs(es, '=')
    ensures e in es && p == e.key + "=" + e.val
  {
    var i :| 0 <= i < |es| && p == Pairs(es, '=')[i];
    e := es[i];
  }

  lemma EmittedRuns(m: CookieStore.Entries)
    requires WireMap(m)
    ensures Runs(Emit(EffectiveOf(m)), ',') == Pairs(EffectiveOf(m), '=')
  {
    WireMapFacts(m);
    var ps := Pairs(EffectiveOf(m), '=');
    forall p | p in ps ensures p != [] && ',' !in p { var e := PairsOf(EffectiveOf(m), p); }
    RunsJoin(ps, ',');
  }

  lemma CarriedIsWanted(m: CookieStore.Entries, key: string, n: string)
    requires WireMap(m) && SafeKey(key) && Label(n) && PieceCarries(Emit(EffectiveOf(m)), key, n)
    ensures ValueOf(m, key) == n
  {
    var es := EffectiveOf(m);
    WireMapFacts(m);
    EmittedRuns(m);
    MeshReads(Emit(es), key, n);
    var p :| p in Keyed(Pairs(es, '='), key) && LeadClean(p) && T.Raw(T.BaggageHeader, p).Some? && Fits(p, n);
    KeyedIs(Pairs(es, '='), key);
    var e := PairsOf(es, p);
    PairReads(e, key, n);
    ValueOfIs(m, key);
  }

  lemma WantedIsCarried(m: CookieStore.Entries, key: string, n: string)
    requires WireMap(m) && SafeKey(key) && Label(n) && ValueOf(m, key) == n
    ensures PieceCarries(Emit(EffectiveOf(m)), key, n)
  {
    var es := EffectiveOf(m);
    WireMapFacts(m);
    EmittedRuns(m);
    ValueOfIs(m, key);
    LabelLower(n);
    var e := Member(key, n);
    assert e in es;
    var i :| 0 <= i < |es| && es[i] == e;
    var p := Pairs(es, '=')[i];
    PairReads(e, key, n);
    CarriesBackward(p, key, n);
    assert p in Runs(Emit(es), ',');
    NonEmptyIs(Split(Emit(es), ','));
  }

  /** A mesh tier that is sent the map forks to the map's entry for its own key. */
  lemma MeshHop(t: Tier, m: CookieStore.Entries, req: T.Request)
    requires WireMap(m) && ValidTier(t) && t.MeshTier?
    requires req.baggage == Emit(EffectiveOf(m))
    ensures Hop(t, req) == (Wanted(m, t), req)
  {
    var key, names := KeyOf(t), VariantsAt(t);
    WireMapFacts(m);
    assert forall n :: n in names ==> ',' !in n;
    assert ',' !in key;
    MeshChoiceIs(t.cr, t.target, t.svcs, req.baggage);
    forall n | n in names ensures PieceCarries(req.baggage, key, n) <==> ValueOf(m, key) == n {
      if ValueOf(m, key) == n { WantedIsCarried(m, key, n); }
      if PieceCarries(req.baggage, key, n) { CarriedIsWanted(m, key, n); }
    }
  }

  predicate ValidTiers(tiers: seq<Tier>) {
    forall i :: 0 <= i < |tiers| ==> ValidTier(tiers[i])
  }

  lemma EmittedReadBack(m: CookieStore.Entries)
    requires WireMap(m)
    ensures T.BaggageMembers(Emit(EffectiveOf(m))) == EffectiveOf(m)
  {
    WireMapFacts(m);
    T.EmitReadBack(EffectiveOf(m));
  }

  lemma FirstThenRest(tiers: seq<Tier>, m: CookieStore.Entries, req: T.Request)
    requires tiers != [] && Hop(tiers[0], req).0 == Wanted(m, tiers[0])
    requires var out := Hop(tiers[0], req).1;
      forall i :: 0 <= i < |tiers| - 1 ==> Choices(tiers[1..], out)[i] == Wanted(m, tiers[1..][i])
    ensures forall i :: 0 <= i < |tiers| ==> Choices(tiers, req)[i] == Wanted(m, tiers[i])
  {
    hide Hop, Wanted;
    var rest := Choices(tiers[1..], Hop(tiers[0], req).1);
    assert Choices(tiers, req) == [Hop(tiers[0], req).0] + rest;
    forall i | 0 <= i < |tiers| ensures Choices(tiers, req)[i] == Wanted(m, tiers[i]) {
      if i > 0 { assert Choices(tiers, req)[i] == rest[i - 1] && tiers[i] == tiers[1..][i - 1]; }
    }
  }

  /** No translator among these tiers lifts anything from a cookie of its own. */
  predicate NothingLifted(tiers: seq<Tier>, cookie: string) {
    forall i :: 0 <= i < |tiers| && tiers[i].TranslatorTier? ==> Lifted(cookie, tiers[i].sourceCookie) == []
  }

  /** A map with no effective entry leaves the header empty, so a later
      translator falls back to its own cookie; that cookie has to be silent. */
  predicate Unrivalled(tiers: seq<Tier>, m: CookieStore.Entries, cookie: string) {
    EffectiveOf(m) != [] || NothingLifted(tiers, cookie)
  }

  /** The request brings the map: a translator may find it in any spelling, a
      mesh tier needs it as a translator or the widget writes it. */
  predicate Brings(tiers: seq<Tier>, m: CookieStore.Entries, baggage: string) {
    && T.BaggageMembers(baggage) == EffectiveOf(m)
    && (tiers != [] && tiers[0].MeshTier? ==> baggage == Emit(EffectiveOf(m)))
  }

  lemma EmittedBrings(tiers: seq<Tier>, m: CookieStore.Entries)
    requires WireMap(m)
    ensures Brings(tiers, m, Emit(EffectiveOf(m)))
  {
    EmittedReadBack(m);
  }

  /** Once the Baggage header carries the map, every tier obeys it, whatever
      cookies the request has and whatever names the translators lift; only a map
      without effective entries can be displaced by another cookie. */
  lemma {:induction false} Carried(tiers: seq<Tier>, m: CookieStore.Entries, req: T.Request)
    requires WireMap(m) && ValidTiers(tiers) && Brings(tiers, m, req.baggage)
    requires Unrivalled(tiers, m, req.cookie)
    ensures forall i :: 0 <= i < |tiers| ==> Choices(tiers, req)[i] == Wanted(m, tiers[i])
  {
    if tiers != [] {
      hide WireMap, ValidTier, Hop, Wanted, T.Context, T.BaggageMembers, Emit, EffectiveOf, Lifted;
      var t := tiers[0];
      if t.TranslatorTier? {
        HeaderContext(m, req, t.sourceCookie);
        TranslatorHop(t, m, req);
      } else {
        MeshHop(t, m, req);
      }
      EmittedBrings(tiers[1..], m);
      Carried(tiers[1..], m, T.Request(Emit(EffectiveOf(m)), req.cookie));
      FirstThenRest(tiers, m, req);
    }
  }

  /** For any number of tiers behind an entry translator, each with a cookie name
      of its own: a request without effective Baggage, whose entry cookie holds
      the serialized map, forks at every tier exactly to the map's entry for that
      tier's own key if that is one of its variants, and goes to the tier's
      default otherwise. */
  lemma EveryTierObeysTheCookie(tiers: seq<Tier>, m: CookieStore.Entries, req: T.Request)
    requires tiers != [] && tiers[0].TranslatorTier?
    requires WireMap(m) && ValidTiers(tiers)
    requires T.BaggageMembers(req.baggage) == []
    requires T.CookieNamed(req.cookie, tiers[0].sourceCookie) == CookieStore.Serialize(m)
    requires Unrivalled(tiers, m, req.cookie)
    ensures forall i :: 0 <= i < |tiers| ==> Choices(tiers, req)[i] == Wanted(m, tiers[i])
  {
    hide WireMap, ValidTier, Hop, Wanted, Emit, Lifted, CookieStore.Serialize;
    hide T.BaggageMembers, T.CookieNamed, T.Context;
    CookieContext(m, req, tiers[0].sourceCookie);
    TranslatorHop(tiers[0], m, req);
    EmittedBrings(tiers[1..], m);
    Carried(tiers[1..], m, T.Request(Emit(EffectiveOf(m)), req.cookie));
    FirstThenRest(tiers, m, req);
  }

  // ----- Whatever the cookies ---------------------------------------------------------------

  /** The map a cookie name stands for, empty when there is no such cookie. */
  function HeldAs(held: map<string, CookieStore.Entries>, name: string): CookieStore.Entries {
    if name in held then held[name] else []
  }

  /** Under the name this tier lifts, if any, the cookie header has the serialized map. */
  predicate HoldsAt(cookie: string, held: map<string, CookieStore.Entries>, t: Tier) {
    t.TranslatorTier? ==>
      var m := HeldAs(held, t.sourceCookie);
      WireMap(m) && T.CookieNamed(cookie, t.sourceCookie) == CookieStore.Serialize(m)
  }

  predicate Holds(cookie: string, held: map<string, CookieStore.Entries>, tiers: seq<Tier>) {
    forall i :: 0 <= i < |tiers| ==> HoldsAt(cookie, held, tiers[i])
  }

  /** The map in force at a tier: the one that arrives in the header, or else
      the one in the cookie the tier lifts. */
  function InForce(t: Tier, m: CookieStore.Entries, held: map<string, CookieStore.Entries>): CookieStore.Entries {
    if EffectiveOf(m) == [] && t.TranslatorTier? then HeldAs(held, t.sourceCookie) else m
  }

  function Expected(tiers: seq<Tier>, m: CookieStore.Entries, held: map<string, CookieStore.Entries>)
    : (cs: seq<T.Choice>)
    ensures |cs| == |tiers|
  {
    if tiers == [] then []
    else
      var here := InForce(tiers[0], m, held);
      [Wanted(here, tiers[0])] + Expected(tiers[1..], here, held)
  }

  lemma HopInForce(tiers: seq<Tier>, m: CookieStore.Entries, held: map<string, CookieStore.Entries>, req: T.Request)
    requires tiers != [] && WireMap(m) && Brings(tiers, m, req.baggage)
    requires ValidTier(tiers[0]) && HoldsAt(req.cookie, held, tiers[0])
    ensures var t, here := tiers[0], InForce(tiers[0], m, held);
      WireMap(here) && Hop(t, req) == (Wanted(here, t), T.Request(Emit(EffectiveOf(here)), req.cookie))
  {
    hide WireMap, ValidTier, Hop, Wanted, Emit, EffectiveOf, Lifted, HeldAs, CookieStore.Serialize;
    hide T.Context, T.CookieNamed, T.BaggageMembers;
    var t := tiers[0];
    if t.TranslatorTier? {
      HeaderContext(m, req, t.sourceCookie);
      LiftedIs(HeldAs(held, t.sourceCookie), req.cookie, t.sourceCookie);
      TranslatorHop(t, InForce(t, m, held), req);
    } else {
      MeshHop(t, m, req);
    }
  }

  lemma {:induction false} ChoicesAreExpected(
      tiers: seq<Tier>, m: CookieStore.Entries, held: map<string, CookieStore.Entries>, req: T.Request)
    requires WireMap(m) && ValidTiers(tiers) && Holds(req.cookie, held, tiers) && Brings(tiers, m, req.baggage)
    ensures Choices(tiers, req) == Expected(tiers, m, held)
  {
    if tiers != [] {
      var here := InForce(tiers[0], m, held);
      var out := T.Request(Emit(EffectiveOf(here)), req.cookie);
      OneTierOn(tiers, m, held, req);
      hide *;
      ChoicesAreExpected(tiers[1..], here, held, out);
    } else {
      assert Choices(tiers, req) == Expected(tiers, m, held);
    }
  }

  /** The first tier of the chain, and what is left to show for the others. */
  lemma OneTierOn(tiers: seq<Tier>, m: CookieStore.Entries, held: map<string, CookieStore.Entries>, req: T.Request)
    requires WireMap(m) && ValidTiers(tiers) && Holds(req.cookie, held, tiers) && Brings(tiers, m, req.baggage)
    requires tiers != []
    ensures var here := InForce(tiers[0], m, held);
      var out := T.Request(Emit(EffectiveOf(here)), req.cookie);
      && WireMap(here) && ValidTiers(tiers[1..]) && Holds(req.cookie, held, tiers[1..])
      && Brings(tiers[1..], here, out.baggage)
      && Choices(tiers, req) == [Wanted(here, tiers[0])] + Choices(tiers[1..], out)
      && Expected(tiers, m, held) == [Wanted(here, tiers[0])] + Expected(tiers[1..], here, held)
  {
    hide WireMap, ValidTier, Hop, Wanted, Emit, EffectiveOf, InForce, HoldsAt, Brings;
    HopInForce(tiers, m, held, req);
    EmittedBrings(tiers[1..], InForce(tiers[0], m, held));
  }

  lemma LiftedIs(m: CookieStore.Entries, cookie: string, name: string)
    requires WireMap(m) && T.CookieNamed(cookie, name) == CookieStore.Serialize(m)
    ensures Lifted(cookie, name) == EffectiveOf(m)
  {
    T.CookieMembersOfSerialized(m);
  }

  // ----- Which cookie decides ----------------------------------------------------------------

  /** The translator finds an effective entry in its own cookie. */
  predicate Lifts(t: Tier, held: map<string, CookieStore.Entries>) {
    t.TranslatorTier? && EffectiveOf(HeldAs(held, t.sourceCookie)) != []
  }

  /** The first tier that does, |tiers| when there is none. */
  function FirstLifter(tiers: seq<Tier>, held: map<string, CookieStore.Entries>): (f: nat)
    ensures f <= |tiers| && (f < |tiers| ==> Lifts(tiers[f], held))
    ensures forall i :: 0 <= i < f ==> !Lifts(tiers[i], held)
  {
    if tiers == [] || Lifts(tiers[0], held) then 0 else 1 + FirstLifter(tiers[1..], held)
  }

  /** The map that decides at tier i: the header's if it has an effective entry,
      or else that of the first lifter up to here. */
  function Deciding(tiers: seq<Tier>, m: CookieStore.Entries, held: map<string, CookieStore.Entries>, i: nat)
    : CookieStore.Entries
  {
    var f := FirstLifter(tiers, held);
    if EffectiveOf(m) != [] then m
    else if f <= i && f < |tiers| then HeldAs(held, tiers[f].sourceCookie)
    else []
  }

  predicate HeldMaps(held: map<string, CookieStore.Entries>, tiers: seq<Tier>) {
    forall i :: 0 <= i < |tiers| && tiers[i].TranslatorTier? ==> WireMap(HeldAs(held, tiers[i].sourceCookie))
  }

  lemma NothingWanted(m: CookieStore.Entries, t: Tier)
    requires WireMap(m) && ValidTier(t) && EffectiveOf(m) == []
    ensures Wanted(m, t) == T.Default == Wanted([], t)
  {
    var key := KeyOf(t);
    EffectiveValue(m, key);
    forall n | n in VariantsAt(t) ensures n != "" && n != "." { LabelLower(n); }
  }

  lemma {:induction false} ExpectedIs(
      tiers: seq<Tier>, m: CookieStore.Entries, held: map<string, CookieStore.Entries>, i: nat)
    requires WireMap(m) && ValidTiers(tiers) && HeldMaps(held, tiers) && i < |tiers|
    ensures Expected(tiers, m, held)[i] == Wanted(Deciding(tiers, m, held, i), tiers[i])
  {
    hide WireMap, ValidTier, Wanted, EffectiveOf, HeldAs;
    var t, here, rest := tiers[0], InForce(tiers[0], m, held), tiers[1..];
    assert WireMap(here);
    if EffectiveOf(here) == [] {
      NothingWanted(here, t);
      NothingWanted(m, t);
    }
    if i > 0 {
      assert Expected(tiers, m, held)[i] == Expected(rest, here, held)[i - 1] && tiers[i] == rest[i - 1];
      ExpectedIs(rest, here, held, i - 1);
    }
  }

  /** The whole rule, for every chain and every set of cookies: a header that
      carries a map with an effective entry decides everywhere; otherwise the first
      cookie with an effective entry that some translator lifts decides at that
      tier and at all later ones, and every tier before takes its default. */
  lemma ChainFollowsFirstContext(
      tiers: seq<Tier>, m: CookieStore.Entries, held: map<string, CookieStore.Entries>, req: T.Request)
    requires WireMap(m) && ValidTiers(tiers) && Holds(req.cookie, held, tiers) && Brings(tiers, m, req.baggage)
    ensures forall i :: 0 <= i < |tiers| ==>
      Choices(tiers, req)[i] == Wanted(Deciding(tiers, m, held, i), tiers[i])
  {
    ChoicesAreExpected(tiers, m, held, req);
    HeldAreMaps(req.cookie, held, tiers);
    hide Choices, Expected, Wanted, Deciding, WireMap, ValidTiers, HeldMaps;
    forall i | 0 <= i < |tiers| ensures Choices(tiers, req)[i] == Wanted(Deciding(tiers, m, held, i), tiers[i]) {
      ExpectedIs(tiers, m, held, i);
    }
  }

  lemma HeldAreMaps(cookie: string, held: map<string, CookieStore.Entries>, tiers: seq<Tier>)
    requires Holds(cookie, held, tiers)
    ensures HeldMaps(held, tiers)
  {
    hide WireMap, CookieStore.Serialize, T.CookieNamed;
    forall i | 0 <= i < |tiers| && tiers[i].TranslatorTier? ensures WireMap(HeldAs(held, tiers[i].sourceCookie)) {
      assert HoldsAt(cookie, held, tiers[i]);
    }
  }

  /** The one way a map is not obeyed: it has no effective entry, so every tier
      should take its default. All do exactly if the first lifter's map has, from
      that tier on, no variant for any tier. */
  lemma NoForkMapObeyedIff(
      tiers: seq<Tier>, m: CookieStore.Entries, held: map<string, CookieStore.Entries>, req: T.Request)
    requires WireMap(m) && ValidTiers(tiers) && Holds(req.cookie, held, tiers) && Brings(tiers, m, req.baggage)
    requires EffectiveOf(m) == []
    ensures var f := FirstLifter(tiers, held);
      (forall i :: 0 <= i < |tiers| ==> Choices(tiers, req)[i] == Wanted(m, tiers[i])) <==>
      (forall i :: f <= i < |tiers| ==>
         ValueOf(HeldAs(held, tiers[f].sourceCookie), KeyOf(tiers[i])) !in VariantsAt(tiers[i]))
  {
    hide WireMap, Choices, EffectiveOf, ValueOf, Holds, Brings, FirstLifter;
    ChainFollowsFirstContext(tiers, m, held, req);
    forall i | 0 <= i < |tiers| ensures Wanted(m, tiers[i]) == T.Default == Wanted([], tiers[i]) {
      NothingWanted(m, tiers[i]);
    }
    var f := FirstLifter(tiers, held);
    assert forall i :: f <= i < |tiers| ==> Deciding(tiers, m, held, i) == HeldAs(held, tiers[f].sourceCookie);
    assert forall i :: 0 <= i < |tiers| && i < f ==> Deciding(tiers, m, held, i) == [];
  }
}
