/** The browser's side of the source cookie: what document.cookie and the Cookie
    header say, readCookie and setEntry (cookieStore.ts), readBaggageValue
    (headerOverride.ts), and what a translator makes of the same cookies. */
module Browser {
  import opened Text
  import opened Wire
  import opened CookieStore
  import T = Translator

  /** encodeURIComponent and decodeURIComponent. */
  datatype URICodec = URICodec(encode: string -> string, decode: string -> string)

  // ----- The cookies of a page ----------------------------------------------------

  /** cookie-name and cookie-octet never contain these (RFC 6265 section 4.1.1). */
  predicate CookieSafe(c: Member) {
    && c.key != "" && !LuaSpace(c.key[0]) && ';' !in c.key && '=' !in c.key && ';' !in c.val
  }

  /** A user agent drops whitespace at the end of a value (RFC 6265 section 5.2). */
  predicate Stored(c: Member) {
    CookieSafe(c) && (c.val == "" || !LuaSpace(c.val[|c.val| - 1]))
  }

  /** document.cookie, and the Cookie header a browser sends: "n=v; n=v" (section 4.2.1). */
  function CookieHeader(cookies: seq<Member>): string {
    Join(CookieTokens(cookies), ';')
  }

  function CookieTokens(cookies: seq<Member>): (r: seq<string>)
    ensures |r| == |cookies|
  {
    if cookies == [] then [] else [CookieToken(cookies[0])] + SpacedTokens(cookies[1..])
  }

  function SpacedTokens(cookies: seq<Member>): (r: seq<string>)
    ensures |r| == |cookies|
    ensures forall i :: 0 <= i < |r| ==> r[i] == " " + CookieToken(cookies[i])
  {
    seq(|cookies|, i requires 0 <= i < |cookies| => " " + CookieToken(cookies[i]))
  }

  function CookieToken(c: Member): string {
    c.key + "=" + c.val
  }

  /** The value of the first cookie with one of these names, "" when there is none. */
  function FirstOf(cookies: seq<Member>, names: set<string>): string {
    if cookies == [] then ""
    else if cookies[0].key in names then cookies[0].val
    else FirstOf(cookies[1..], names)
  }

  // ----- readCookie, readBaggageValue, setEntry --------------------------------------

  function FindRaw(parts: seq<string>, names: set<string>): string {
    if parts == [] then ""
    else
      match KeyVal(Trim(parts[0]), '=')
      case Some(c) => if c.key in names then c.val else FindRaw(parts[1..], names)
      case None => FindRaw(parts[1..], names)
  }

  function Decoded(raw: string, uri: URICodec): string {
    if '%' in raw then uri.decode(raw) else raw
  }

  function CookieOf(doc: string, name: string, uri: URICodec): string {
    Decoded(FindRaw(Split(doc, ';'), {name, uri.encode(name)}), uri)
  }

  method ReadCookie(doc: string, name: string, uri: URICodec) returns (value: string)
    ensures value == CookieOf(doc, name, uri)
  {
    var parts := Split(doc, ';');
    var names := {name, uri.encode(name)};
    for i := 0 to |parts|
      invariant FindRaw(parts[i..], names) == FindRaw(parts, names)
    {
      assert parts[i..][1..] == parts[i + 1..];
      match KeyVal(Trim(parts[i]), '=') {
        case None =>
        case Some(c) =>
          if c.key != name && c.key != uri.encode(name) { continue; }
          return if '%' in c.val then uri.decode(c.val) else c.val;
      }
    }
    value := "";
  }

  /** What the widget's fetch and XMLHttpRequest overrides send as Baggage. */
  function WidgetValue(doc: string, sourceCookie: string, uri: URICodec): string {
    if sourceCookie == "" then "" else Emit(EffectiveOf(Parse(CookieOf(doc, sourceCookie, uri))))
  }

  method ReadBaggageValue(doc: string, sourceCookie: string, uri: URICodec) returns (value: string)
    ensures value == WidgetValue(doc, sourceCookie, uri)
    ensures sourceCookie == "" ==> value == ""
  {
    if sourceCookie == "" { return ""; }
    var raw := ReadCookie(doc, sourceCookie, uri);
    var entries := ParseCookie(raw);
    value := EmitEffective(entries);
  }

  /** The loop of readBaggageValue. */
  method EmitEffective(entries: Entries) returns (value: string)
    ensures value == Emit(EffectiveOf(entries))
  {
    if |entries| == 0 { return ""; }
    var parts: seq<string> := [];
    assert EffectiveOf([]) == [] && Pairs([], '=') == [];
    hide EffectiveOf, Join, Pairs;
    for i := 0 to |entries|
      invariant parts == Pairs(EffectiveOf(entries[..i]), '=')
    {
      var e := entries[i];
      assert entries[..i + 1] == entries[..i] + [e];
      EffectiveSnoc(entries[..i], e);
      PairsSnoc(EffectiveOf(entries[..i]), e, '=');
      assert EffectiveOf(entries[..i]) + [] == EffectiveOf(entries[..i]);
      if e.val == "." || e.val == "" { continue; }
      parts := parts + [e.key + "=" + e.val];
    }
    assert entries[..|entries|] == entries;
    value := Join(parts, ',');
  }

  /** setEntry's new value for the source cookie. */
  function NextValue(doc: string, name: string, routingKey: string, variant: string, uri: URICodec): string {
    Serialize(Set(Parse(CookieOf(doc, name, uri)), routingKey, variant))
  }

  /** A page's cookies in the order document.cookie lists them. */
  class CookieJar {
    var jar: seq<Member>

    /** Writing a known cookie keeps its place (RFC 6265 section 5.3, step 11). */
    method WriteCookie(name: string, value: string)
      modifies this
      ensures jar == Set(old(jar), name, value)
    {
      jar := Set(jar, name, value);
    }

    method SetEntry(name: string, routingKey: string, variant: string, uri: URICodec) returns (next: string)
      modifies this
      ensures next == NextValue(CookieHeader(old(jar)), name, routingKey, variant, uri)
      ensures jar == Set(old(jar), name, next)
    {
      var raw := ReadCookie(CookieHeader(jar), name, uri);
      var entries := ParseCookie(raw);
      entries := Set(entries, routingKey, variant);
      next := SerializeEntries(entries);
      WriteCookie(name, next);
    }

    /** Committing a row of the list: its own source cookie is written, or else the
        widget's; without either nothing happens. */
    method Commit(rowCookie: string, configCookie: string, routingKey: string, alternative: string, uri: URICodec)
      modifies this
      ensures var name := if rowCookie != "" then rowCookie else configCookie;
        jar == if name == "" then old(jar)
               else Set(old(jar), name, NextValue(CookieHeader(old(jar)), name, routingKey, alternative, uri))
    {
      var cookieName := if rowCookie != "" then rowCookie else configCookie;
      if cookieName == "" { return; }
      var next := SetEntry(cookieName, routingKey, alternative, uri);
    }
  }

  // ----- Both readers find the same cookie ---------------------------------------------

  lemma TokenReadBack(c: Member, w: string)
    requires CookieSafe(c) && forall x :: x in w ==> LuaSpace(x)
    ensures KeyVal(TrimLeft(w + CookieToken(c)), '=') == Some(c)
  {
    assert CookieToken(c)[0] == c.key[0];
    TrimLeftIs(w, CookieToken(c));
    KeyValOf(c.key, '=', c.val);
  }

  predicate AllStored(cookies: seq<Member>) {
    forall c :: c in cookies ==> Stored(c)
  }

  predicate AllSafe(cookies: seq<Member>) {
    forall c :: c in cookies ==> CookieSafe(c)
  }

  lemma {:induction false} SpacedForLua(cookies: seq<Member>, name: string)
    requires AllSafe(cookies)
    ensures T.FirstCookie(SpacedTokens(cookies), name) == FirstOf(cookies, {name})
  {
    if cookies != [] {
      assert cookies[0] in cookies && forall c :: c in cookies[1..] ==> c in cookies;
      TokenReadBack(cookies[0], " ");
      SpacedForLua(cookies[1..], name);
      SpacedHead(cookies);
    }
  }

  lemma SpacedHead(cookies: seq<Member>)
    requires cookies != []
    ensures var ts := SpacedTokens(cookies);
      ts[0] == " " + CookieToken(cookies[0]) && ts[1..] == SpacedTokens(cookies[1..])
  {
  }

  lemma TokensHead(cookies: seq<Member>)
    requires cookies != []
    ensures var ts := CookieTokens(cookies);
      ts[0] == "" + CookieToken(cookies[0]) && ts[1..] == SpacedTokens(cookies[1..])
  {
    assert "" + CookieToken(cookies[0]) == CookieToken(cookies[0]);
  }

  lemma TokensForLua(cookies: seq<Member>, name: string)
    requires AllSafe(cookies)
    ensures T.FirstCookie(CookieTokens(cookies), name) == FirstOf(cookies, {name})
  {
    if cookies != [] {
      assert cookies[0] in cookies && forall c :: c in cookies[1..] ==> c in cookies;
      TokenReadBack(cookies[0], "");
      SpacedForLua(cookies[1..], name);
      TokensHead(cookies);
    }
  }

  /** The part is the cookie's token between whitespace. */
  ghost predicate Padded(part: string, c: Member) {
    exists w, w' :: PaddedBy(part, c, w, w')
  }

  predicate PaddedBy(part: string, c: Member, w: string, w': string) {
    part == w + CookieToken(c) + w' && forall x :: x in w + w' ==> LuaSpace(x)
  }

  /** Whatever whitespace stands around the tokens, the widget finds the first
      cookie with one of the names. */
  lemma {:induction false} PaddedLookup(parts: seq<string>, cookies: seq<Member>, names: set<string>)
    requires AllStored(cookies) && |parts| == |cookies|
    requires forall i :: 0 <= i < |parts| ==> Padded(parts[i], cookies[i])
    ensures FindRaw(parts, names) == FirstOf(cookies, names)
  {
    if cookies != [] {
      var c := cookies[0];
      assert c in cookies && forall x :: x in cookies[1..] ==> x in cookies;
      PaddedRead(parts[0], c);
      forall i | 0 <= i < |parts[1..]| ensures Padded(parts[1..][i], cookies[1..][i]) {
        assert Padded(parts[i + 1], cookies[i + 1]);
      }
      PaddedLookup(parts[1..], cookies[1..], names);
    }
  }

  lemma PaddedRead(part: string, c: Member)
    requires Stored(c) && Padded(part, c)
    ensures KeyVal(Trim(part), '=') == Some(c)
  {
    var w, w' :| PaddedBy(part, c, w, w');
    var t := CookieToken(c);
    assert t[0] == c.key[0] && t[|t| - 1] == if c.val == "" then '=' else c.val[|c.val| - 1];
    assert forall x :: x in w || x in w' ==> x in w + w';
    TrimOf(w, t, w');
    KeyValOf(c.key, '=', c.val);
  }

  lemma TokensPadded(cookies: seq<Member>, i: nat)
    requires i < |cookies|
    ensures Padded(CookieTokens(cookies)[i], cookies[i])
  {
    var t := CookieTokens(cookies)[i];
    TokensHead(cookies);
    if i > 0 {
      assert t == SpacedTokens(cookies[1..])[i - 1];
      assert t == " " + CookieToken(cookies[i]) + "";
      assert PaddedBy(t, cookies[i], " ", "");
    } else {
      assert t == "" + CookieToken(cookies[0]) + "";
      assert PaddedBy(t, cookies[0], "", "");
    }
  }

  lemma TokensForWidget(cookies: seq<Member>, names: set<string>)
    requires AllStored(cookies)
    ensures FindRaw(CookieTokens(cookies), names) == FirstOf(cookies, names)
  {
    forall i | 0 <= i < |cookies| ensures Padded(CookieTokens(cookies)[i], cookies[i]) { TokensPadded(cookies, i); }
    PaddedLookup(CookieTokens(cookies), cookies, names);
  }

  predicate FirstAt(cookies: seq<Member>, names: set<string>, i: nat) {
    i < |cookies| && cookies[i].key in names && forall j :: 0 <= j < i ==> cookies[j].key !in names
  }

  /** The first cookie with one of the names: none before it has one. */
  lemma {:induction false} FirstOfIs(cookies: seq<Member>, names: set<string>)
    ensures (forall c :: c in cookies ==> c.key !in names) ==> FirstOf(cookies, names) == ""
    ensures forall i :: 0 <= i < |cookies| && FirstAt(cookies, names, i) ==> FirstOf(cookies, names) == cookies[i].val
  {
    if cookies != [] {
      FirstOfIs(cookies[1..], names);
      forall i | 0 <= i < |cookies| && FirstAt(cookies, names, i)
        ensures FirstOf(cookies, names) == cookies[i].val
      {
        if i > 0 {
          assert cookies[0].key !in names;
          assert forall j :: 0 <= j < i - 1 ==> cookies[1..][j] == cookies[j + 1];
          assert cookies[1..][i - 1] == cookies[i];
        }
      }
    }
  }

  lemma TokensFree(cookies: seq<Member>)
    requires AllSafe(cookies)
    ensures forall t :: t in CookieTokens(cookies) ==> t != [] && ';' !in t
  {
    var ts := CookieTokens(cookies);
    forall i | 0 <= i < |ts| ensures ts[i] != [] && ';' !in ts[i] {
      assert cookies[i] in cookies;
      assert ts[i] == (if i == 0 then "" else " ") + CookieToken(cookies[i]) by {
        if i == 0 { TokensHead(cookies); } else { assert ts[i] == SpacedTokens(cookies[1..])[i - 1]; }
      }
      TokenFree(cookies[i], if i == 0 then "" else " ");
    }
  }

  lemma TokenFree(c: Member, w: string)
    requires CookieSafe(c) && ';' !in w
    ensures ';' !in w + CookieToken(c) && w + CookieToken(c) != []
  {
  }

  /** The cookie the translator's loop finds is the first of that name. */
  lemma CookieHeaderLookup(cookies: seq<Member>, name: string)
    requires AllSafe(cookies)
    ensures T.CookieNamed(CookieHeader(cookies), name) == FirstOf(cookies, {name})
  {
    TokensFree(cookies);
    RunsJoin(CookieTokens(cookies), ';');
    TokensForLua(cookies, name);
  }

  /** readCookie finds the first cookie under the plain or the encoded name. */
  lemma ReadCookieLookup(cookies: seq<Member>, name: string, uri: URICodec)
    requires AllStored(cookies)
    ensures CookieOf(CookieHeader(cookies), name, uri) == Decoded(FirstOf(cookies, {name, uri.encode(name)}), uri)
  {
    var names := {name, uri.encode(name)};
    if cookies == [] {
      assert Split([], ';') == [[]] && FindRaw([[]], names) == FindRaw([[]][1..], names);
    } else {
      TokensFree(cookies);
      SplitJoin(CookieTokens(cookies), ';');
      TokensForWidget(cookies, names);
    }
  }

  /** Writing a cookie changes what is read under its own name only. */
  lemma {:induction false} WriteLookup(cookies: seq<Member>, name: string, val: string)
    ensures FirstOf(Set(cookies, name, val), {name}) == val
    ensures forall n :: n != name ==> FirstOf(Set(cookies, name, val), {n}) == FirstOf(cookies, {n})
    ensures forall c :: c in Set(cookies, name, val) ==> c == Member(name, val) || c in cookies
  {
    if cookies != [] {
      assert forall c :: c in cookies <==> c == cookies[0] || c in cookies[1..];
      if cookies[0].key == name {
        assert Set(cookies, name, val)[1..] == cookies[1..];
      } else {
        assert Set(cookies, name, val)[1..] == Set(cookies[1..], name, val);
        WriteLookup(cookies[1..], name, val);
      }
    }
  }

  /** The cookie the widget reads is the one the translator reads: no earlier
      cookie sits under the URI-encoded name, which is the name itself for the
      token-safe names in use. */
  predicate SameCookie(cookies: seq<Member>, name: string, uri: URICodec) {
    FirstOf(cookies, {name, uri.encode(name)}) == FirstOf(cookies, {name})
  }
}
