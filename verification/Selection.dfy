/** The widget's effect on a chain of tiers: what its own requests reach, and what
    selecting a row, which writes one entry of one cookie, changes. */
module Selection {
  import opened Text
  import opened Wire
  import opened Agreement
  import opened Chain
  import Browser
  import CookieStore
  import T = Translator

  /** The page's source cookie holds the map, and the widget and the translators
      read it alike. */
  predicate PageHolds(page: seq<Member>, name: string, uri: Browser.URICodec, m: CookieStore.Entries) {
    && Browser.AllStored(page) && Browser.CookieSafe(Member(name, ""))
    && Browser.SameCookie(page, name, uri)
    && Browser.FirstOf(page, {name}) == CookieStore.Serialize(m) && '%' !in CookieStore.Serialize(m)
  }

  lemma PageReads(page: seq<Member>, name: string, uri: Browser.URICodec, m: CookieStore.Entries)
    requires PageHolds(page, name, uri, m) && CookieStore.Clean(m)
    ensures CookieStore.Parse(Browser.CookieOf(Browser.CookieHeader(page), name, uri)) == m
    ensures T.CookieNamed(Browser.CookieHeader(page), name) == CookieStore.Serialize(m)
  {
    Browser.ReadCookieLookup(page, name, uri);
    Browser.CookieHeaderLookup(page, name);
    CookieStore.ParseSerialize(m);
  }

  /** A request that carries the widget's own Baggage is obeyed by every tier,
      whichever kind it reaches first, even if it lost its cookies on the way. */
  lemma WidgetRequestObeyed(tiers: seq<Tier>, page: seq<Member>, name: string, uri: Browser.URICodec,
                            m: CookieStore.Entries, req: T.Request)
    requires WireMap(m) && ValidTiers(tiers) && PageHolds(page, name, uri, m)
    requires req.baggage == Browser.WidgetValue(Browser.CookieHeader(page), name, uri)
    requires Unrivalled(tiers, m, req.cookie)
    ensures forall i :: 0 <= i < |tiers| ==> Choices(tiers, req)[i] == Wanted(m, tiers[i])
  {
    EmittedBrings(tiers, m);
    hide Choices, Wanted, ValidTier, Browser.CookieHeader, Browser.CookieOf, CookieStore.Parse, EffectiveOf, Emit;
    WireMapFacts(m);
    PageReads(page, name, uri, m);
    Carried(tiers, m, req);
  }

  /** Every other cookie that these tiers lift says nothing. */
  predicate OthersSilent(tiers: seq<Tier>, name: string, cookie: string) {
    forall i :: 0 <= i < |tiers| && tiers[i].TranslatorTier? && tiers[i].sourceCookie != name ==>
      Lifted(cookie, tiers[i].sourceCookie) == []
  }

  lemma SilentIsUnrivalled(tiers: seq<Tier>, name: string, m: CookieStore.Entries, cookie: string)
    requires WireMap(m) && T.CookieNamed(cookie, name) == CookieStore.Serialize(m)
    requires EffectiveOf(m) != [] || OthersSilent(tiers, name, cookie)
    ensures Unrivalled(tiers, m, cookie)
  {
    LiftedIs(m, cookie, name);
  }

  lemma SetWireMap(m: CookieStore.Entries, key: string, alt: string)
    requires WireMap(m) && SafeKey(key) && (alt == "" || alt == "." || Label(alt))
    ensures WireMap(CookieStore.Set(m, key, alt))
    ensures forall k :: ValueOf(CookieStore.Set(m, key, alt), k) == if k == key then alt else ValueOf(m, k)
  {
    var m' := CookieStore.Set(m, key, alt);
    CookieStore.SetChangesOneKey(m, key, alt);
    forall k ensures ValueOf(m', k) == if k == key then alt else ValueOf(m, k) {
      ValueOfIs(m, k);
      ValueOfIs(m', k);
      if k == key { assert Member(key, alt) in m'; }
      else if exists e :: e in m && e.key == k { assert Member(k, ValueOf(m, k)) in m'; }
    }
  }

  lemma NeverWritten(m: CookieStore.Entries, c: char)
    requires WireMap(m) && (c == ';' || LuaSpace(c))
    ensures c !in CookieStore.Serialize(m)
  {
    var ps := Pairs(m, ':');
    forall p | p in ps ensures c !in p {
      var i :| 0 <= i < |m| && p == ps[i];
      assert m[i] in m;
    }
    JoinFree(ps, '|', c);
  }

  /** A written map is a value a browser stores as it is. */
  lemma WrittenIsStored(name: string, m: CookieStore.Entries)
    requires WireMap(m) && Browser.CookieSafe(Member(name, ""))
    ensures Browser.Stored(Member(name, CookieStore.Serialize(m)))
  {
    hide WireMap, CookieStore.Serialize;
    var raw := CookieStore.Serialize(m);
    NeverWritten(m, ';');
    if raw != "" && LuaSpace(raw[|raw| - 1]) { NeverWritten(m, raw[|raw| - 1]); }
  }

  /** The page after setEntry(name, key, alt). */
  function AfterSetEntry(page: seq<Member>, name: string, uri: Browser.URICodec, key: string, alt: string)
    : seq<Member>
  {
    CookieStore.Set(page, name, Browser.NextValue(Browser.CookieHeader(page), name, key, alt, uri))
  }

  /** What a translator finds on the page afterwards. */
  lemma SetEntryLookup(page: seq<Member>, name: string, uri: Browser.URICodec,
                       m: CookieStore.Entries, key: string, alt: string)
    requires WireMap(m) && PageHolds(page, name, uri, m)
    requires SafeKey(key) && (alt == "" || alt == "." || Label(alt))
    ensures var hdr := Browser.CookieHeader(AfterSetEntry(page, name, uri, key, alt));
      && T.CookieNamed(hdr, name) == CookieStore.Serialize(CookieStore.Set(m, key, alt))
      && forall n :: n != name ==> T.CookieNamed(hdr, n) == T.CookieNamed(Browser.CookieHeader(page), n)
  {
    hide T.CookieNamed, CookieStore.Serialize, CookieStore.Parse;
    hide Browser.CookieHeader, Browser.CookieOf, Browser.FirstOf;
    var m' := CookieStore.Set(m, key, alt);
    var page' := AfterSetEntry(page, name, uri, key, alt);
    WireMapFacts(m);
    PageReads(page, name, uri, m);
    SetWireMap(m, key, alt);
    WrittenIsStored(name, m');
    Browser.WriteLookup(page, name, CookieStore.Serialize(m'));
    Browser.CookieHeaderLookup(page', name);
    forall n | n != name
      ensures T.CookieNamed(Browser.CookieHeader(page'), n) == T.CookieNamed(Browser.CookieHeader(page), n)
    {
      Browser.CookieHeaderLookup(page', n);
      Browser.CookieHeaderLookup(page, n);
    }
  }

  /** The choice at a tier once the entry for key has become alt. */
  function Moved(t: Tier, key: string, alt: string, before: T.Choice): T.Choice {
    if KeyOf(t) != key then before else if alt in VariantsAt(t) then T.Fork(alt) else T.Default
  }

  /** After setEntry(name, key, alt) a page load is routed as before at every
      tier except those with this key, and these fork to alt if they have it. */
  lemma SetEntryMovesOneKey(tiers: seq<Tier>, page: seq<Member>, name: string, uri: Browser.URICodec,
                            m: CookieStore.Entries, key: string, alt: string, baggage: string)
    requires tiers != [] && ValidTiers(tiers) && tiers[0].TranslatorTier? && tiers[0].sourceCookie == name
    requires WireMap(m) && PageHolds(page, name, uri, m) && T.BaggageMembers(baggage) == []
    requires SafeKey(key) && (alt == "" || alt == "." || Label(alt))
    requires (EffectiveOf(m) != [] && EffectiveOf(CookieStore.Set(m, key, alt)) != []) ||
             OthersSilent(tiers, name, Browser.CookieHeader(page))
    ensures var page' := AfterSetEntry(page, name, uri, key, alt);
      var before := Choices(tiers, T.Request(baggage, Browser.CookieHeader(page)));
      var after := Choices(tiers, T.Request(baggage, Browser.CookieHeader(page')));
      forall i :: 0 <= i < |tiers| ==> after[i] == Moved(tiers[i], key, alt, before[i])
  {
    hide WireMap, ValidTier, Choices, T.BaggageMembers, T.CookieNamed, EffectiveOf, Browser.CookieHeader,
         PageHolds, ValueOf, T.CookieMembers, AfterSetEntry;
    var m' := CookieStore.Set(m, key, alt);
    var hdr := Browser.CookieHeader(page);
    var hdr' := Browser.CookieHeader(AfterSetEntry(page, name, uri, key, alt));
    WireMapFacts(m);
    PageReads(page, name, uri, m);
    SetWireMap(m, key, alt);
    SetEntryLookup(page, name, uri, m, key, alt);
    SilentIsUnrivalled(tiers, name, m, hdr);
    SilentIsUnrivalled(tiers, name, m', hdr');
    EveryTierObeysTheCookie(tiers, m, T.Request(baggage, hdr));
    EveryTierObeysTheCookie(tiers, m', T.Request(baggage, hdr'));
  }

  // ----- Selecting a row, whatever cookie it writes ------------------------------------------

  /** What the widget asks for when it stores alt under a tier's key. */
  function Selected(t: Tier, alt: string): T.Choice {
    if alt in VariantsAt(t) then T.Fork(alt) else T.Default
  }

  /** The page's cookies for the translators once name holds the map with the new entry. */
  function HeldAfter(held: map<string, CookieStore.Entries>, name: string, key: string, alt: string)
    : map<string, CookieStore.Entries>
  {
    held[name := CookieStore.Set(HeldAs(held, name), key, alt)]
  }

  /** A request without an effective header reaches these tiers with the page's
      cookies; held gives the map under each name they lift. */
  predicate Loads(tiers: seq<Tier>, page: seq<Member>, held: map<string, CookieStore.Entries>, baggage: string) {
    ValidTiers(tiers) && Holds(Browser.CookieHeader(page), held, tiers) && Brings(tiers, [], baggage)
  }

  /** setEntry(name, key, alt) is called for a row: any cookie name, the key and
      alternative of a tuple. */
  predicate Writable(page: seq<Member>, name: string, uri: Browser.URICodec,
                     held: map<string, CookieStore.Entries>, key: string, alt: string)
  {
    && WireMap(HeldAs(held, name)) && PageHolds(page, name, uri, HeldAs(held, name))
    && SafeKey(key) && (alt == "" || alt == "." || Label(alt))
  }

  lemma HoldsAfter(tiers: seq<Tier>, page: seq<Member>, name: string, uri: Browser.URICodec,
                   held: map<string, CookieStore.Entries>, key: string, alt: string)
    requires Holds(Browser.CookieHeader(page), held, tiers) && Writable(page, name, uri, held, key, alt)
    ensures var page' := AfterSetEntry(page, name, uri, key, alt);
      Holds(Browser.CookieHeader(page'), HeldAfter(held, name, key, alt), tiers)
  {
    hide WireMap, PageHolds, AfterSetEntry, Browser.CookieHeader, CookieStore.Serialize, T.CookieNamed;
    SetEntryLookup(page, name, uri, HeldAs(held, name), key, alt);
    SetWireMap(HeldAs(held, name), key, alt);
    var hdr' := Browser.CookieHeader(AfterSetEntry(page, name, uri, key, alt));
    forall i | 0 <= i < |tiers| ensures HoldsAt(hdr', HeldAfter(held, name, key, alt), tiers[i]) {
      assert HoldsAt(Browser.CookieHeader(page), held, tiers[i]);
    }
  }

  /** A request without a routing context in its header, with these cookies. */
  function PageLoad(page: seq<Member>, baggage: string): T.Request {
    T.Request(baggage, Browser.CookieHeader(page))
  }

  /** A page load before and after setEntry, tier by tier: the map that decides is
      that of the first lifter among the cookies as they are then. */
  lemma SetEntryDecides(tiers: seq<Tier>, page: seq<Member>, name: string, uri: Browser.URICodec,
                        held: map<string, CookieStore.Entries>, key: string, alt: string, baggage: string)
    requires Loads(tiers, page, held, baggage) && Writable(page, name, uri, held, key, alt)
    ensures var page', held' := AfterSetEntry(page, name, uri, key, alt), HeldAfter(held, name, key, alt);
      forall i :: 0 <= i < |tiers| ==>
        && Choices(tiers, PageLoad(page, baggage))[i] == Wanted(Deciding(tiers, [], held, i), tiers[i])
        && Choices(tiers, PageLoad(page', baggage))[i] == Wanted(Deciding(tiers, [], held', i), tiers[i])
  {
    hide Choices, Wanted, Deciding, PageHolds, AfterSetEntry, Browser.CookieHeader, HeldAfter, Holds, Brings;
    var page', held' := AfterSetEntry(page, name, uri, key, alt), HeldAfter(held, name, key, alt);
    HoldsAfter(tiers, page, name, uri, held, key, alt);
    ChainFollowsFirstContext(tiers, [], held, PageLoad(page, baggage));
    ChainFollowsFirstContext(tiers, [], held', PageLoad(page', baggage));
  }

  /** The first lifter up to tier i lifts the cookie that was written, or wants at
      tier i what was selected. */
  predicate Takes(tiers: seq<Tier>, held: map<string, CookieStore.Entries>, name: string, alt: string, i: nat)
    requires i < |tiers|
  {
    var f := FirstLifter(tiers, held);
    if f > i then alt !in VariantsAt(tiers[i])
    else
      || tiers[f].sourceCookie == name
      || Wanted(HeldAs(held, tiers[f].sourceCookie), tiers[i]) == Selected(tiers[i], alt)
  }

  /** A tier with the row's key shows the selection if and only if the first lifter
      up to it lifts the very cookie that was written, or wants the same anyway;
      before any lifter a tier shows nothing but its default. */
  lemma SelectionTakesIff(tiers: seq<Tier>, page: seq<Member>, name: string, uri: Browser.URICodec,
                          held: map<string, CookieStore.Entries>, key: string, alt: string, baggage: string, i: nat)
    requires Loads(tiers, page, held, baggage) && Writable(page, name, uri, held, key, alt)
    requires i < |tiers| && KeyOf(tiers[i]) == key
    ensures var page', held' := AfterSetEntry(page, name, uri, key, alt), HeldAfter(held, name, key, alt);
      Choices(tiers, PageLoad(page', baggage))[i] == Selected(tiers[i], alt) <==>
      Takes(tiers, held', name, alt, i)
  {
    hide Choices, WireMap, ValidTier, PageHolds, AfterSetEntry, Browser.CookieHeader, Holds, Brings;
    hide EffectiveOf, ValueOf, FirstLifter;
    SetEntryDecides(tiers, page, name, uri, held, key, alt, baggage);
    SetWireMap(HeldAs(held, name), key, alt);
    NoMapNoFork(tiers[i]);
  }

  lemma NoMapNoFork(t: Tier)
    requires ValidTier(t)
    ensures Wanted([], t) == T.Default && EffectiveOf([]) == []
  {
    NothingWanted([], t);
  }

  /** The first lifter lifts another cookie than this one. */
  predicate LiftsOther(tiers: seq<Tier>, held: map<string, CookieStore.Entries>, name: string) {
    var f := FirstLifter(tiers, held);
    f < |tiers| && tiers[f].sourceCookie != name
  }

  /** When the same tier is the first lifter before and after, every tier with
      another key stays as it was; and if that tier lifts another cookie than the
      one written, selecting the row has no effect at all. */
  lemma SameLifterKeepsOthers(tiers: seq<Tier>, page: seq<Member>, name: string, uri: Browser.URICodec,
                              held: map<string, CookieStore.Entries>, key: string, alt: string, baggage: string)
    requires Loads(tiers, page, held, baggage) && Writable(page, name, uri, held, key, alt)
    requires FirstLifter(tiers, held) == FirstLifter(tiers, HeldAfter(held, name, key, alt))
    ensures var before := Choices(tiers, PageLoad(page, baggage));
      var after := Choices(tiers, PageLoad(AfterSetEntry(page, name, uri, key, alt), baggage));
      forall i :: 0 <= i < |tiers| && (KeyOf(tiers[i]) != key || LiftsOther(tiers, held, name)) ==>
        after[i] == before[i]
  {
    hide Choices, WireMap, ValidTier, PageHolds, AfterSetEntry, Browser.CookieHeader, Holds, Brings;
    hide EffectiveOf, ValueOf, FirstLifter;
    SetEntryDecides(tiers, page, name, uri, held, key, alt, baggage);
    SetWireMap(HeldAs(held, name), key, alt);
  }

  // ----- Two inputs ---------------------------------------------------------------------------

  /** Two translators with cookies of their own: a routes web, b routes api, and
      each has the variant v2. */
  function TwoTiers(): seq<Tier> {
    var vs := [T.Variant("v2", "10.0.0.2:80")];
    [TranslatorTier("a", "web", vs), TranslatorTier("b", "api", vs)]
  }

  lemma TwoTiersAre()
    ensures ValidTiers(TwoTiers()) && SafeKey("web") && SafeKey("api") && Label("v2")
    ensures VariantsAt(TwoTiers()[0]) == {"v2"} == VariantsAt(TwoTiers()[1])
  {
    SafeNames();
    hide SafeKey, Label, T.LiteralKey, T.MapLoads;
    OneVariant(T.Variant("v2", "10.0.0.2:80"));
  }

  lemma SafeNames()
    ensures SafeKey("web") && SafeKey("api") && Label("v2") && T.LiteralKey("v2")
  {
    assert |"v2"| == 2;
  }

  lemma OneVariant(v: T.Variant)
    requires T.LiteralKey(v.name)
    ensures VariantNames([v]) == {v.name} && T.MapLoads([v])
  {
  }

  /** A map with one entry. */
  lemma OneEntry(key: string, val: string)
    requires SafeKey(key) && (val == "." || Label(val))
    ensures var m := [Member(key, val)];
      && WireMap(m) && CookieStore.Serialize(m) == key + ":" + val
      && EffectiveOf(m) == (if val == "." then [] else m)
      && ValueOf(m, key) == val && forall k :: k != key ==> ValueOf(m, k) == ""
  {
    var m := [Member(key, val)];
    EffectiveSnoc([], m[0]);
    assert m[..0] == [] && EffectiveOf([]) == [];
    if Label(val) { LabelLower(val); }
  }

  /** What these two tiers find on a page. */
  lemma TwoTiersHold(page: seq<Member>, held: map<string, CookieStore.Entries>)
    requires Browser.AllStored(page) && WireMap(HeldAs(held, "a")) && WireMap(HeldAs(held, "b"))
    requires Browser.FirstOf(page, {"a"}) == CookieStore.Serialize(HeldAs(held, "a"))
    requires Browser.FirstOf(page, {"b"}) == CookieStore.Serialize(HeldAs(held, "b"))
    ensures Loads(TwoTiers(), page, held, "")
  {
    hide WireMap, CookieStore.Serialize, Browser.CookieHeader, T.CookieNamed, ValidTier;
    Browser.CookieHeaderLookup(page, "a");
    Browser.CookieHeaderLookup(page, "b");
    TwoTiersAre();
    T.NoMembers();
    NoMapNoFork(TwoTiers()[0]);
  }

  /** The choices of the two tiers, given which of the two maps has a fork. */
  lemma TwoTiersChoose(page: seq<Member>, held: map<string, CookieStore.Entries>)
    requires Loads(TwoTiers(), page, held, "")
    ensures var ma, mb, ts := HeldAs(held, "a"), HeldAs(held, "b"), TwoTiers();
      Choices(ts, PageLoad(page, "")) ==
        if EffectiveOf(ma) != [] then [Wanted(ma, ts[0]), Wanted(ma, ts[1])]
        else [T.Default, if EffectiveOf(mb) != [] then Wanted(mb, ts[1]) else T.Default]
  {
    var ts := TwoTiers();
    hide Choices, Wanted, EffectiveOf, Holds, Brings, Browser.CookieHeader;
    ChainFollowsFirstContext(ts, [], held, PageLoad(page, ""));
    NoMapNoFork(ts[0]);
    NoMapNoFork(ts[1]);
    assert ts[1..][0] == ts[1];
  }

  /** A map without a fork is displaced: with the cookies a=web:. and b=api:v2 the
      second tier forks, though the entry cookie asks for the default everywhere. */
  lemma NoForkMapDisplaced()
    ensures var page := [Member("a", "web" + ":" + "."), Member("b", "api" + ":" + "v2")];
      Choices(TwoTiers(), PageLoad(page, "")) == [T.Default, T.Fork("v2")]
    ensures Wanted([Member("web", ".")], TwoTiers()[1]) == T.Default
  {
    var ma, mb := [Member("web", ".")], [Member("api", "v2")];
    var held := map["a" := ma, "b" := mb];
    var page := [Member("a", "web" + ":" + "."), Member("b", "api" + ":" + "v2")];
    TwoTiersAre();
    OneEntry("web", ".");
    OneEntry("api", "v2");
    assert Browser.AllStored(page) by {
      WrittenIsStored("a", ma);
      WrittenIsStored("b", mb);
    }
    hide WireMap, CookieStore.Serialize, EffectiveOf, ValueOf, Choices, Loads;
    TwoTiersHold(page, held);
    TwoTiersChoose(page, held);
    NothingWanted(ma, TwoTiers()[1]);
  }

  lemma NamesDiffer()
    ensures "a" != "b" && Browser.CookieSafe(Member("b", ""))
  {
    assert "a"[0] != "b"[0];
  }

  lemma NothingSerialized()
    ensures CookieStore.Serialize([]) == "" && WireMap([])
  {
    assert Pairs([], ':') == [];
  }

  /** A cookie the page does not have yet can be written too. */
  lemma UnsetWritable(page: seq<Member>, name: string, uri: Browser.URICodec,
                      held: map<string, CookieStore.Entries>, key: string, alt: string)
    requires Browser.AllStored(page) && Browser.FirstOf(page, {name}) == "" && name !in held
    requires Browser.CookieSafe(Member(name, "")) && uri.encode(name) == name && SafeKey(key) && Label(alt)
    ensures Writable(page, name, uri, held, key, alt)
  {
    assert {name, uri.encode(name)} == {name};
  }

  /** While cookie a has a fork, what is written into cookie b does not matter. */
  lemma EntryCookieDecides(page: seq<Member>, held: map<string, CookieStore.Entries>, uri: Browser.URICodec,
                           key: string, alt: string)
    requires Loads(TwoTiers(), page, held, "") && Writable(page, "b", uri, held, key, alt)
    requires EffectiveOf(HeldAs(held, "a")) != []
    ensures var page' := AfterSetEntry(page, "b", uri, key, alt);
      Choices(TwoTiers(), PageLoad(page', "")) == Choices(TwoTiers(), PageLoad(page, ""))
  {
    NamesDiffer();
    hide Choices, EffectiveOf, Loads, Writable, AfterSetEntry, CookieStore.Set;
    var held' := HeldAfter(held, "b", key, alt);
    assert HeldAs(held', "a") == HeldAs(held, "a");
    assert FirstLifter(TwoTiers(), held) == 0 == FirstLifter(TwoTiers(), held');
    SameLifterKeepsOthers(TwoTiers(), page, "b", uri, held, key, alt, "");
  }

  /** Selecting a row can have no effect: on a page with the cookie a=web:v2, the
      row of the second tier writes api:v2 into that tier's own cookie b, and both
      tiers go on choosing what a says. */
  lemma SelectionIgnored(uri: Browser.URICodec)
    requires uri.encode("b") == "b"
    ensures var page := [Member("a", "web" + ":" + "v2")];
      var page' := AfterSetEntry(page, "b", uri, "api", "v2");
      && Choices(TwoTiers(), PageLoad(page, "")) == [T.Fork("v2"), T.Default]
      && Choices(TwoTiers(), PageLoad(page', "")) == [T.Fork("v2"), T.Default]
      && Selected(TwoTiers()[1], "v2") == T.Fork("v2")
  {
    var ma := [Member("web", "v2")];
    var held := map["a" := ma];
    var page := [Member("a", "web" + ":" + "v2")];
    TwoTiersAre();
    OneEntry("web", "v2");
    assert Browser.AllStored(page) by { WrittenIsStored("a", ma); }
    NamesDiffer();
    NothingSerialized();
    assert Browser.FirstOf(page, {"a"}) == "web" + ":" + "v2" && Browser.FirstOf(page, {"b"}) == "";
    hide WireMap, CookieStore.Serialize, EffectiveOf, ValueOf, Choices, Loads, Writable, AfterSetEntry, SafeKey, Label;
    hide Browser.FirstOf, Browser.AllStored;
    UnsetWritable(page, "b", uri, held, "api", "v2");
    TwoTiersHold(page, held);
    TwoTiersChoose(page, held);
    EntryCookieDecides(page, held, uri, "api", "v2");
  }
}
