/** The translator tier: the access_by_lua block and the nginx map of
    nginx.smart.conf.tmpl. A header that is absent is the empty string. */
module Translator {
  import opened Text
  import opened Wire
  import CookieStore

  datatype Request = Request(baggage: string, cookie: string)

  /** Which of the two wire forms an entry is read from. */
  datatype Source = BaggageHeader | CookieValue

  /** What is left of an entry once leading whitespace and properties are gone. */
  function Body(e: string): string {
    var t := TrimLeft(e);
    t[..Find(t, ';')]
  }

  function Raw(src: Source, e: string): Option<Member> {
    match src
    case BaggageHeader => KeyVal(Body(e), '=')
    case CookieValue => KeyVal(e, ':')
  }

  /** One loop iteration of the Lua block: the member an entry contributes, if any. */
  function Entry(src: Source, e: string): (r: seq<Member>)
    ensures |r| <= 1 && forall m :: m in r ==> Effective(m)
  {
    match Raw(src, e)
    case None => []
    case Some(m) => if Effective(m) then [m] else []
  }

  function Entries(src: Source, es: seq<string>): seq<Member> {
    if es == [] then []
    else
      Entries(src, es[..|es| - 1]) + Entry(src, es[|es| - 1])
  }

  function BaggageMembers(hdr: string): seq<Member> {
    Entries(BaggageHeader, Runs(hdr, ','))
  }

  function CookieMembers(raw: string): seq<Member> {
    Entries(CookieValue, Runs(raw, '|'))
  }

  /** The value of the first cookie token with this name, "" when there is none. */
  function FirstCookie(tokens: seq<string>, name: string): string {
    if tokens == [] then ""
    else
      match KeyVal(TrimLeft(tokens[0]), '=')
      case Some(c) => if c.key == name then c.val else FirstCookie(tokens[1..], name)
      case None => FirstCookie(tokens[1..], name)
  }

  function CookieNamed(hdr: string, name: string): string {
    FirstCookie(Runs(hdr, ';'), name)
  }

  /** The routing context of a request: Baggage when it yields anything,
      otherwise the source cookie. */
  function Context(sourceCookie: string, req: Request): seq<Member> {
    var bs := BaggageMembers(req.baggage);
    if bs != [] then bs else CookieMembers(CookieNamed(req.cookie, sourceCookie))
  }

  /** The Lua block. mine is $prism_my_variant, out the request sent upstream. */
  method AccessBlock(sourceCookie: string, routingKey: string, req: Request)
    returns (mine: string, out: Request)
    ensures mine == ValueOf(Context(sourceCookie, req), routingKey)
    ensures out == Request(Emit(Context(sourceCookie, req)), req.cookie)
  {
    var parts: seq<string>;
    mine, parts := ReadEntries(BaggageHeader, routingKey, Runs(req.baggage, ','));
    if |parts| == 0 {
      var raw := FindCookie(sourceCookie, req.cookie);
      mine, parts := ReadEntries(CookieValue, routingKey, Runs(raw, '|'));
    }
    out := Request(if |parts| > 0 then Join(parts, ',') else "", req.cookie);
  }

  /** The two gmatch loops, which differ only in how an entry is cut up. */
  method ReadEntries(src: Source, routingKey: string, es: seq<string>)
    returns (mine: string, parts: seq<string>)
    ensures mine == ValueOf(Entries(src, es), routingKey)
    ensures parts == Pairs(Entries(src, es), '=')
  {
    mine, parts := "", [];
    ghost var ms: seq<Member> := [];
    for i := 0 to |es|
      invariant ms == Entries(src, es[..i])
      invariant mine == ValueOf(ms, routingKey) && parts == Pairs(ms, '=')
    {
      EntriesSnoc(src, es, i);
      assert ms + [] == ms;
      match Raw(src, es[i]) {
        case None =>
        case Some(m) =>
          if m.val != "" && m.val != "." {
            if m.key == routingKey { mine := m.val; }
            parts := parts + [m.key + "=" + m.val];
            ValueOfSnoc(ms, m, routingKey);
          }
      }
      ms := ms + Entry(src, es[i]);
    }
    assert es[..|es|] == es;
  }

  lemma EntriesSnoc(src: Source, es: seq<string>, i: nat)
    requires i < |es|
    ensures Entries(src, es[..i + 1]) == Entries(src, es[..i]) + Entry(src, es[i])
  {
    assert es[..i + 1][..i] == es[..i];
  }

  method FindCookie(name: string, hdr: string) returns (raw: string)
    ensures raw == CookieNamed(hdr, name)
  {
    var tokens := Runs(hdr, ';');
    var j := 0;
    while j < |tokens|
      invariant 0 <= j <= |tokens|
      invariant FirstCookie(tokens[j..], name) == FirstCookie(tokens, name)
    {
      assert tokens[j..][1..] == tokens[j + 1..];
      match KeyVal(TrimLeft(tokens[j]), '=') {
        case None =>
        case Some(c) =>
          if c.key == name { return c.val; }
      }
      j := j + 1;
    }
    raw := "";
  }

  lemma ValueOfSnoc(ms: seq<Member>, m: Member, key: string)
    ensures ValueOf(ms + [m], key) == if m.key == key then m.val else ValueOf(ms, key)
    ensures Pairs(ms + [m], '=') == Pairs(ms, '=') + [m.key + "=" + m.val]
  {
    assert (ms + [m])[..|ms|] == ms;
  }

  lemma EntriesAppend(src: Source, es: seq<string>, e: string)
    ensures Entries(src, es + [e]) == Entries(src, es) + Entry(src, e)
  {
    assert (es + [e])[..|es|] == es;
  }

  // ----- What the context consists of, character by character -----------------------------

  /** e is whitespace, key=val and, from a ';' on, properties. */
  predicate WrittenAs(e: string, m: Member, w: string, props: string) {
    && e == w + (m.key + "=" + m.val + props) && (forall c :: c in w ==> LuaSpace(c))
    && (m.key == "" || !LuaSpace(m.key[0])) && '=' !in m.key && ';' !in m.key && ';' !in m.val
    && (props == "" || props[0] == ';')
  }

  /** A comma-separated piece of the header writes this member, which names a fork. */
  ghost predicate HeaderHas(hdr: string, m: Member) {
    && m.val != "" && m.val != "."
    && exists e, w, props :: e in Split(hdr, ',') && WrittenAs(e, m, w, props)
  }

  /** So does a piece of the cookie value between bars. */
  ghost predicate CookieHas(raw: string, m: Member) {
    && m.val != "" && m.val != "." && ':' !in m.key
    && m.key + ":" + m.val in Split(raw, '|')
  }

  lemma RawWritten(e: string, m: Member) returns (w: string, props: string)
    requires Raw(BaggageHeader, e) == Some(m)
    ensures WrittenAs(e, m, w, props)
  {
    BodyCut(e);
    w := TrimLeftSplit(e);
    KeyValCut(Body(e), '=');
    props := TrimLeft(e)[|Body(e)|..];
    Assembled(e, m, w, TrimLeft(e), Body(e));
  }

  /** The parts an entry is cut into, put together. */
  lemma Assembled(e: string, m: Member, w: string, t: string, b: string)
    requires e == w + t && (forall c :: c in w ==> LuaSpace(c)) && (t == "" || !LuaSpace(t[0]))
    requires b <= t && ';' !in b && (|b| < |t| ==> t[|b|] == ';')
    requires b == m.key + "=" + m.val && '=' !in m.key
    ensures WrittenAs(e, m, w, t[|b|..])
  {
    hide LuaSpace;
    PartsFree(b, m.key, m.val);
    assert t == b + t[|b|..];
  }

  /** The body ends at the first ';' of the trimmed entry, or with it. */
  lemma BodyCut(e: string)
    ensures Body(e) <= TrimLeft(e) && ';' !in Body(e)
    ensures |Body(e)| < |TrimLeft(e)| ==> TrimLeft(e)[|Body(e)|] == ';'
  {
    FindFirst(TrimLeft(e), ';');
  }

  lemma PartsFree(b: string, key: string, val: string)
    requires b == key + "=" + val && ';' !in b
    ensures ';' !in key && ';' !in val && (key != "" ==> key[0] == b[0])
  {
    assert forall c :: c in key || c in val ==> c in b;
  }

  lemma WrittenRaw(e: string, m: Member, w: string, props: string)
    requires WrittenAs(e, m, w, props)
    ensures Raw(BaggageHeader, e) == Some(m) && e != ""
  {
    var b := m.key + "=" + m.val;
    var t := b + props;
    assert t[0] == if m.key == "" then '=' else m.key[0];
    TrimLeftIs(w, t);
    if props == "" {
      assert t == b;
      FindFirst(b, ';');
    } else {
      assert t == b + [';'] + props[1..];
      FindIs(b, ';', props[1..]);
    }
    assert t[..|b|] == b;
    KeyValOf(m.key, '=', m.val);
  }

  lemma {:induction false} EntriesAre(src: Source, es: seq<string>, m: Member)
    ensures m in Entries(src, es) <==> m.val != "" && m.val != "." && exists e :: e in es && Raw(src, e) == Some(m)
  {
    if es != [] {
      var init, e := es[..|es| - 1], es[|es| - 1];
      assert forall x :: x in es <==> x in init || x == e;
      EntriesAre(src, init, m);
    }
  }

  lemma HeaderMembersAre(hdr: string, m: Member)
    ensures m in BaggageMembers(hdr) <==> HeaderHas(hdr, m)
  {
    var es := Runs(hdr, ',');
    EntriesAre(BaggageHeader, es, m);
    NonEmptyIs(Split(hdr, ','));
    if m in BaggageMembers(hdr) {
      var e :| e in es && Raw(BaggageHeader, e) == Some(m);
      var w, props := RawWritten(e, m);
    }
    if HeaderHas(hdr, m) {
      var e, w, props :| e in Split(hdr, ',') && WrittenAs(e, m, w, props);
      WrittenRaw(e, m, w, props);
      assert e in es;
    }
  }

  lemma CookieMembersAre(raw: string, m: Member)
    ensures m in CookieMembers(raw) <==> CookieHas(raw, m)
  {
    var es := Runs(raw, '|');
    EntriesAre(CookieValue, es, m);
    NonEmptyIs(Split(raw, '|'));
    if m in CookieMembers(raw) {
      var e :| e in es && Raw(CookieValue, e) == Some(m);
      KeyValCut(e, ':');
    }
    if CookieHas(raw, m) {
      KeyValOf(m.key, ':', m.val);
      assert m.key + ":" + m.val in es;
    }
  }

  /** The context is what the header's pieces write, or, when they name no fork,
      what the pieces of the named cookie do. */
  lemma ContextIs(sourceCookie: string, req: Request, m: Member)
    ensures m in Context(sourceCookie, req) <==>
      if exists x :: HeaderHas(req.baggage, x) then HeaderHas(req.baggage, m)
      else CookieHas(CookieNamed(req.cookie, sourceCookie), m)
  {
    hide HeaderHas, CookieHas;
    HeaderMembersAre(req.baggage, m);
    CookieMembersAre(CookieNamed(req.cookie, sourceCookie), m);
    var bs := BaggageMembers(req.baggage);
    if bs != [] {
      HeaderMembersAre(req.baggage, bs[0]);
    } else if x :| HeaderHas(req.baggage, x) {
      HeaderMembersAre(req.baggage, x);
    }
  }

  /** Pieces contribute in order, each on its own. */
  lemma {:induction false} EntriesInOrder(src: Source, a: seq<string>, b: seq<string>)
    ensures Entries(src, a + b) == Entries(src, a) + Entries(src, b)
  {
    if b == [] {
      assert a + b == a && Entries(src, b) == [];
    } else {
      var init, e := b[..|b| - 1], b[|b| - 1];
      EntriesInOrder(src, a, init);
      OneMoreInOrder(src, a, init, e);
      assert b == init + [e];
    }
  }

  lemma OneMoreInOrder(src: Source, a: seq<string>, b: seq<string>, e: string)
    requires Entries(src, a + b) == Entries(src, a) + Entries(src, b)
    ensures Entries(src, a + (b + [e])) == Entries(src, a) + Entries(src, b + [e])
  {
    hide Entries, Entry;
    EntriesAppend(src, a + b, e);
    EntriesAppend(src, b, e);
    assert a + (b + [e]) == a + b + [e];
  }

  // ----- Normalisation: what one translator emits, the next one reads --------

  /** Members that survive being written as "key=val" in a Baggage header. */
  predicate WireSafe(m: Member) {
    && Effective(m)
    && ',' !in m.key && ';' !in m.key && '=' !in m.key && (m.key == "" || !LuaSpace(m.key[0]))
    && ',' !in m.val && ';' !in m.val
  }

  lemma BodySafe(e: string)
    ensures ';' !in Body(e) && (Body(e) == "" || !LuaSpace(Body(e)[0]))
    ensures forall c :: c in Body(e) ==> c in e
  {
    var t := TrimLeft(e);
    var w := TrimLeftSplit(e);
    FindFirst(t, ';');
    assert forall c :: c in t ==> c in w + t;
    assert Find(t, ';') > 0 ==> Body(e)[0] == t[0];
  }

  lemma BaggageEntrySafe(e: string)
    requires ',' !in e
    ensures forall m :: m in Entry(BaggageHeader, e) ==> WireSafe(m)
  {
    BodySafe(e);
    KeyValCut(Body(e), '=');
    match Raw(BaggageHeader, e)
    case None =>
    case Some(m) =>
      assert m.key != "" ==> m.key[0] == Body(e)[0];
      assert ',' !in Body(e) && ';' !in Body(e);
  }

  lemma BodyIs(e: string)
    requires e != "" && !LuaSpace(e[0]) && ';' !in e
    ensures Body(e) == e
  {
    FindFirst(e, ';');
    assert e[..|e|] == e;
  }

  lemma EntryOfPair(m: Member)
    requires WireSafe(m)
    ensures Entry(BaggageHeader, m.key + "=" + m.val) == [m]
  {
    var e := m.key + "=" + m.val;
    assert e[0] == if m.key == "" then '=' else m.key[0];
    BodyIs(e);
    KeyValOf(m.key, '=', m.val);
  }

  lemma {:induction false} EntriesOfPairs(ms: seq<Member>)
    requires forall m :: m in ms ==> WireSafe(m)
    ensures Entries(BaggageHeader, Pairs(ms, '=')) == ms
  {
    if ms == [] {
      assert Pairs(ms, '=') == [];
    } else {
      hide Entries, Entry, WireSafe;
      var init, last := ms[..|ms| - 1], ms[|ms| - 1];
      assert ms == init + [last];
      assert last in ms && forall m :: m in init ==> m in ms;
      EntriesOfPairs(init);
      EntryOfPair(last);
      PairsSnoc(init, last, '=');
      EntriesAppend(BaggageHeader, Pairs(init, '='), last.key + "=" + last.val);
    }
  }

  lemma {:induction false} EntriesSafe(es: seq<string>)
    requires forall e :: e in es ==> ',' !in e
    ensures forall m :: m in Entries(BaggageHeader, es) ==> WireSafe(m)
  {
    if es != [] {
      assert es[|es| - 1] in es && forall e :: e in es[..|es| - 1] ==> e in es;
      EntriesSafe(es[..|es| - 1]);
      BaggageEntrySafe(es[|es| - 1]);
    }
  }

  lemma BaggageMembersSafe(hdr: string)
    ensures forall m :: m in BaggageMembers(hdr) ==> WireSafe(m)
  {
    RunsFree(hdr, ',');
    EntriesSafe(Runs(hdr, ','));
  }

  /** Writing members into a Baggage header and reading it again gives the same
      members in the same order, exactly for the wire-safe ones. */
  lemma EmitReadBack(ms: seq<Member>)
    ensures BaggageMembers(Emit(ms)) == ms <==> forall m :: m in ms ==> WireSafe(m)
  {
    BaggageMembersSafe(Emit(ms));
    if forall m :: m in ms ==> WireSafe(m) {
      var ps := Pairs(ms, '=');
      forall p | p in ps ensures p != [] && ',' !in p {
        var i :| 0 <= i < |ms| && p == ps[i];
        assert ms[i] in ms;
      }
      RunsJoin(ps, ',');
      EntriesOfPairs(ms);
    }
  }

  /** Passing any request with effective Baggage through a translator keeps its
      member sequence, hence the value of every routing key, and a second
      translator changes nothing any more, whatever its own cookie name. */
  lemma NormalisationPreservesMeaning(sourceCookie: string, nextCookie: string, req: Request)
    requires BaggageMembers(req.baggage) != []
    ensures var out := Request(Emit(Context(sourceCookie, req)), req.cookie);
      && BaggageMembers(out.baggage) == BaggageMembers(req.baggage)
      && Context(nextCookie, out) == Context(sourceCookie, req)
      && Request(Emit(Context(nextCookie, out)), out.cookie) == out
  {
    BaggageMembersSafe(req.baggage);
    EmitReadBack(BaggageMembers(req.baggage));
  }

  // ----- The widget's cookie -------------------------------------------------

  lemma CookieEntryOfPair(m: Member)
    requires CookieStore.CleanEntry(m)
    ensures Entry(CookieValue, m.key + ":" + m.val) == if Effective(m) then [m] else []
  {
    KeyValOf(m.key, ':', m.val);
  }

  lemma {:induction false} CookieEntriesOfPairs(m: seq<Member>)
    requires forall e :: e in m ==> CookieStore.CleanEntry(e)
    ensures Entries(CookieValue, Pairs(m, ':')) == EffectiveOf(m)
  {
    if m == [] {
      assert Pairs(m, ':') == [];
    } else {
      hide Entries, Entry, EffectiveOf, CookieStore.CleanEntry;
      var init, last := m[..|m| - 1], m[|m| - 1];
      assert m == init + [last];
      assert last in m && forall e :: e in init ==> e in m;
      CookieEntriesOfPairs(init);
      CookieEntryOfPair(last);
      EffectiveSnoc(init, last);
      PairsSnoc(init, last, ':');
      EntriesAppend(CookieValue, Pairs(init, ':'), last.key + ":" + last.val);
    }
  }

  /** The Lua cookie branch reads from a serialized cookie exactly the entries
      the widget's own parser keeps for its Baggage value. */
  lemma CookieMembersOfSerialized(m: CookieStore.Entries)
    requires CookieStore.Clean(m)
    ensures CookieMembers(CookieStore.Serialize(m)) == EffectiveOf(m)
  {
    var ps := Pairs(m, ':');
    forall p | p in ps ensures p != [] && '|' !in p {
      var i :| 0 <= i < |m| && p == ps[i];
      assert m[i] in m;
    }
    RunsJoin(ps, '|');
    CookieEntriesOfPairs(m);
  }

  lemma NoMembers()
    ensures BaggageMembers("") == []
  {
    assert Split([], ',') == [[]] && NonEmpty([[]]) == [] + NonEmpty([]);
  }

  // ----- The nginx map ----------------------------------------------------------

  datatype Variant = Variant(name: string, addr: string)

  datatype Choice = Default | Fork(name: string)

  /** The blocks nginx accepts: a key that is a map keyword, a regular
      expression or an escape is not taken literally, and keys are compared
      without case. */
  predicate MapLoads(vs: seq<Variant>) {
    && (forall i :: 0 <= i < |vs| ==> LiteralKey(vs[i].name))
    && forall i, j :: 0 <= i < j < |vs| ==> Lower(vs[i].name) != Lower(vs[j].name)
  }

  predicate LiteralKey(key: string) {
    key != "" && key != "default" && key != "include" && key[0] != '~' && key[0] != '\\'
  }

  function MapSelect(vs: seq<Variant>, value: string): Choice {
    if vs == [] then Default
    else if Lower(vs[0].name) == Lower(value) then Fork(vs[0].name)
    else MapSelect(vs[1..], value)
  }

  lemma {:induction false} MapSelectIs(vs: seq<Variant>, value: string)
    requires MapLoads(vs)
    ensures MapSelect(vs, value) == Default <==> forall v :: v in vs ==> Lower(v.name) != Lower(value)
    ensures forall v :: v in vs && Lower(v.name) == Lower(value) ==> MapSelect(vs, value) == Fork(v.name)
  {
    if vs != [] {
      assert forall v :: v in vs <==> v == vs[0] || v in vs[1..];
      MapSelectIs(vs[1..], value);
    }
  }

  /** $variant_addr: the address on the line the value selects, or the default's. */
  function MapAddress(vs: seq<Variant>, defaultAddr: string, value: string): string {
    if vs == [] then defaultAddr
    else if Lower(vs[0].name) == Lower(value) then vs[0].addr
    else MapAddress(vs[1..], defaultAddr, value)
  }

  /** The request goes to the address on the line of the variant that was chosen. */
  lemma {:induction false} MapAddressIs(vs: seq<Variant>, defaultAddr: string, value: string)
    ensures match MapSelect(vs, value)
      case Default => MapAddress(vs, defaultAddr, value) == defaultAddr
      case Fork(n) => exists v :: v in vs && v.name == n && v.addr == MapAddress(vs, defaultAddr, value)
  {
    if vs != [] {
      assert vs[0] in vs && forall v :: v in vs[1..] ==> v in vs;
      MapAddressIs(vs[1..], defaultAddr, value);
    }
  }
}
