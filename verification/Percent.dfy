/** Percent signs in the source cookie: the widget decodes them and a translator
    does not. When the two still send the same Baggage, and when they do not. */
module Percent {
  import opened Text
  import opened Wire
  import opened CookieStore
  import opened Browser
  import T = Translator

  /** What decodeURIComponent does to a value it accepts: it only touches
      escapes, each escape stands for fewer characters than it takes up, and the
      separator '|' is not part of one. */
  ghost predicate Unescapes(decode: string -> string) {
    && (forall s :: '%' !in s ==> decode(s) == s)
    && (forall s :: '%' in s ==> |decode(s)| < |s|)
    && (forall a, b :: decode(a + "|" + b) == decode(a) + "|" + decode(b))
  }

  predicate HexDigit(c: char) {
    '0' <= c <= '9' || 'a' <= c <= 'f' || 'A' <= c <= 'F'
  }

  function HexValue(c: char): (v: nat)
    requires HexDigit(c)
    ensures v < 16
  {
    if c <= '9' then (c - '0') as int else if c <= 'F' then (c - 'A') as int + 10 else (c - 'a') as int + 10
  }

  predicate StartsEscape(s: string) {
    |s| >= 3 && s[0] == '%' && HexDigit(s[1]) && HexDigit(s[2])
  }

  function EscapeChar(s: string): char
    requires StartsEscape(s)
  {
    (16 * HexValue(s[1]) + HexValue(s[2])) as char
  }

  /** decodeURIComponent, byte by byte. A '%' that starts no escape, on which it
      throws, is dropped. */
  function Unescape(s: string): string {
    if s == "" then ""
    else if StartsEscape(s) then [EscapeChar(s)] + Unescape(s[3..])
    else if s[0] == '%' then Unescape(s[1..])
    else [s[0]] + Unescape(s[1..])
  }

  lemma {:induction false} UnescapeShortens(s: string)
    ensures |Unescape(s)| <= |s| && ('%' in s ==> |Unescape(s)| < |s|) && ('%' !in s ==> Unescape(s) == s)
  {
    if s != "" {
      if StartsEscape(s) {
        UnescapeShortens(s[3..]);
      } else {
        UnescapeShortens(s[1..]);
        assert s == [s[0]] + s[1..];
      }
    }
  }

  /** One step of Unescape. */
  lemma UnescapeStep(s: string)
    requires s != ""
    ensures Unescape(s) ==
      if StartsEscape(s) then [EscapeChar(s)] + Unescape(s[3..])
      else if s[0] == '%' then Unescape(s[1..])
      else [s[0]] + Unescape(s[1..])
    ensures Unescape("") == ""
  {
  }

  lemma Regroup(x: string, y: string, z: string)
    ensures x + (y + "|" + z) == x + y + "|" + z && "" + "|" + z == "|" + z
  {
  }

  lemma {:induction false} UnescapePieces(a: string, b: string)
    ensures Unescape(a + "|" + b) == Unescape(a) + "|" + Unescape(b)
  {
    hide Unescape, HexDigit, HexValue;
    var s := a + "|" + b;
    UnescapeStep(s);
    if a == "" {
      assert s[0] == '|' && s[1..] == b;
      Regroup("", "", Unescape(b));
    } else {
      UnescapeStep(a);
      EscapeInside(a, b);
      assert s[0] == a[0] && s[1..] == a[1..] + "|" + b;
      if StartsEscape(a) {
        assert s[1] == a[1] && s[2] == a[2] && s[3..] == a[3..] + "|" + b;
        UnescapePieces(a[3..], b);
        Regroup([EscapeChar(a)], Unescape(a[3..]), Unescape(b));
      } else {
        UnescapePieces(a[1..], b);
        Regroup([a[0]], Unescape(a[1..]), Unescape(b));
      }
    }
  }

  /** '|' is no hexadecimal digit, so no escape reaches across it. */
  lemma EscapeInside(a: string, b: string)
    requires a != ""
    ensures StartsEscape(a + "|" + b) == StartsEscape(a)
  {
    var s := a + "|" + b;
    assert s[0] == a[0] && s[|a|] == '|' && !HexDigit('|');
    if |a| > 1 { assert s[1] == a[1]; }
    if |a| > 2 { assert s[2] == a[2]; }
  }

  lemma UnescapeIs()
    ensures Unescapes(Unescape)
  {
    forall s ensures '%' !in s ==> Unescape(s) == s { UnescapeShortens(s); }
    forall s ensures '%' in s ==> |Unescape(s)| < |s| { UnescapeShortens(s); }
    forall a, b ensures Unescape(a + "|" + b) == Unescape(a) + "|" + Unescape(b) { UnescapePieces(a, b); }
  }

  /** The bytes these members take up in a header, each with its '=' and ','. */
  function Size(ms: seq<Member>): nat {
    if ms == [] then 0 else |ms[0].key| + |ms[0].val| + 2 + Size(ms[1..])
  }

  lemma {:induction false} EmitSize(ms: seq<Member>)
    ensures |Emit(ms)| == if ms == [] then 0 else Size(ms) - 1
  {
    if |ms| > 1 {
      assert Pairs(ms, '=')[1..] == Pairs(ms[1..], '=');
      EmitSize(ms[1..]);
    }
  }

  function PartWeight(p: string): nat {
    match KeyVal(p, ':')
    case None => 0
    case Some(e) => if e.key != "" && Effective(e) then |p| + 1 else 0
  }

  /** The bytes of those parts that parse to an effective entry. */
  function Weight(parts: seq<string>): nat {
    if parts == [] then 0 else PartWeight(parts[0]) + Weight(parts[1..])
  }

  lemma {:induction false} WeightConcat(a: seq<string>, b: seq<string>)
    ensures Weight(a + b) == Weight(a) + Weight(b)
  {
    if a == [] {
      assert a + b == b;
    } else {
      assert (a + b)[1..] == a[1..] + b;
      WeightConcat(a[1..], b);
    }
  }

  lemma {:induction false} SetSize(m: Entries, key: string, val: string)
    ensures Size(EffectiveOf(Set(m, key, val))) <=
      Size(EffectiveOf(m)) + if Effective(Member(key, val)) then |key| + |val| + 2 else 0
  {
    var e := Member(key, val);
    if m == [] {
      assert [e][1..] == [];
    } else {
      EffectiveHead(m);
      EffectiveHead(Set(m, key, val));
      if m[0].key == key {
        assert Set(m, key, val)[1..] == m[1..];
      } else {
        assert Set(m, key, val)[1..] == Set(m[1..], key, val);
        SetSize(m[1..], key, val);
      }
    }
  }

  lemma EffectiveHead(m: Entries)
    requires m != []
    ensures Size(EffectiveOf(m)) ==
      (if Effective(m[0]) then |m[0].key| + |m[0].val| + 2 else 0) + Size(EffectiveOf(m[1..]))
  {
    var rest := EffectiveOf(m[1..]);
    assert ([m[0]] + rest)[1..] == rest && [] + rest == rest;
  }

  lemma {:induction false} ParseSize(parts: seq<string>)
    ensures Size(EffectiveOf(ParseParts(parts))) <= Weight(parts)
  {
    if parts != [] {
      var init, p := parts[..|parts| - 1], parts[|parts| - 1];
      assert parts == init + [p];
      WeightConcat(init, [p]);
      ParseSize(init);
      KeyValCut(p, ':');
      match KeyVal(p, ':')
      case None =>
      case Some(e) => SetSize(ParseParts(init), e.key, e.val);
    }
  }

  function Total(parts: seq<string>): nat {
    if parts == [] then 0 else |parts[0]| + 1 + Total(parts[1..])
  }

  lemma {:induction false} WeightTotal(parts: seq<string>)
    ensures Weight(parts) <= Total(parts)
  {
    if parts != [] { WeightTotal(parts[1..]); }
  }

  lemma {:induction false} SplitTotal(s: string, sep: char)
    ensures Total(Split(s, sep)) == |s| + 1
  {
    if s != [] {
      SplitTotal(s[1..], sep);
      var rest := Split(s[1..], sep);
      assert ([[s[0]] + rest[0]] + rest[1..])[1..] == rest[1..];
      assert ([[]] + rest)[1..] == rest;
    }
  }

  // ----- The written map, piece by piece, after decoding ---------------------------------

  /** The parts a decoded map is split into. */
  function DecodedParts(m: Entries, decode: string -> string): seq<string> {
    if m == [] then []
    else
      var e := m[|m| - 1];
      DecodedParts(m[..|m| - 1], decode) + Split(decode(e.key + ":" + e.val), '|')
  }

  lemma {:induction false} JoinSnoc(ps: seq<string>, p: string, sep: char)
    requires ps != []
    ensures Join(ps + [p], sep) == Join(ps, sep) + [sep] + p
  {
    if |ps| > 1 {
      assert (ps + [p])[1..] == ps[1..] + [p];
      JoinSnoc(ps[1..], p, sep);
    }
  }

  lemma {:induction false} DecodedSplit(m: Entries, decode: string -> string)
    requires Unescapes(decode) && m != []
    ensures Split(decode(Serialize(m)), '|') == DecodedParts(m, decode)
  {
    hide Unescapes, Split;
    var init, e := m[..|m| - 1], m[|m| - 1];
    var p := e.key + ":" + e.val;
    assert m == init + [e];
    PairsSnoc(init, e, ':');
    if init == [] {
      assert Serialize(m) == p && DecodedParts(m, decode) == [] + Split(decode(p), '|');
    } else {
      JoinSnoc(Pairs(init, ':'), p, '|');
      DecodedSplit(init, decode);
      PieceByPiece(decode, Serialize(init), p);
      SplitConcat(decode(Serialize(init)), '|', decode(p));
    }
  }

  lemma PieceByPiece(decode: string -> string, a: string, b: string)
    requires Unescapes(decode)
    ensures decode(a + "|" + b) == decode(a) + "|" + decode(b)
  {
  }

  /** A part that parses to nothing, or to a no-fork entry whose key has no fork in m. */
  predicate HarmlessPart(p: string, m: Entries) {
    match KeyVal(p, ':')
    case None => true
    case Some(d) => d.key == "" || (!Effective(d) && forall x :: x in m && Effective(x) ==> x.key != d.key)
  }

  /** Decoding turns a no-fork entry into harmless parts only, as it does whenever
      the key has no percent sign. */
  predicate Harmless(e: Member, m: Entries, decode: string -> string) {
    forall p :: p in Split(decode(e.key + ":" + e.val), '|') ==> HarmlessPart(p, m)
  }

  predicate AllHarmless(m: Entries, decode: string -> string) {
    forall e :: e in m && !Effective(e) ==> Harmless(e, m, decode)
  }

  predicate Plain(e: Member) {
    '%' !in e.key && '%' !in e.val
  }

  lemma PlainPart(e: Member, decode: string -> string)
    requires Unescapes(decode) && CleanEntry(e) && Plain(e)
    ensures Split(decode(e.key + ":" + e.val), '|') == [e.key + ":" + e.val]
    ensures KeyVal(e.key + ":" + e.val, ':') == Some(e)
  {
    var p := e.key + ":" + e.val;
    assert '%' !in p && decode(p) == p;
    SplitOne(p, '|');
    KeyValOf(e.key, ':', e.val);
  }

  lemma PlainIsHarmless(m: Entries, e: Member, decode: string -> string)
    requires Unescapes(decode) && Clean(m) && e in m && !Effective(e) && '%' !in e.key
    ensures Harmless(e, m, decode)
  {
    PlainPart(e, decode);
    forall x | x in m && Effective(x) ensures x.key != e.key {
      var i :| 0 <= i < |m| && m[i] == x;
      var j :| 0 <= j < |m| && m[j] == e;
      assert i < j || j < i;
    }
  }

  // ----- No percent sign in an effective entry: nothing changes ----------------------------

  /** What has been parsed so far of a map whose effective entries are plain. */
  predicate KeepsForks(acc: Entries, seen: Entries, m: Entries) {
    && EffectiveOf(acc) == EffectiveOf(seen)
    && forall d :: d in acc && !Effective(d) ==> forall x :: x in m && Effective(x) ==> x.key != d.key
  }

  lemma {:induction false} SetNoFork(acc: Entries, key: string, val: string)
    requires !Effective(Member(key, val)) && forall x :: x in acc && Effective(x) ==> x.key != key
    ensures EffectiveOf(Set(acc, key, val)) == EffectiveOf(acc)
    ensures forall d :: d in Set(acc, key, val) ==> d in acc || d == Member(key, val)
  {
    if acc == [] {
      assert [Member(key, val)][1..] == [];
    } else {
      assert forall d :: d in acc <==> d == acc[0] || d in acc[1..];
      if acc[0].key == key {
        assert Set(acc, key, val)[1..] == acc[1..];
      } else {
        assert Set(acc, key, val)[1..] == Set(acc[1..], key, val);
        SetNoFork(acc[1..], key, val);
      }
    }
  }

  lemma HarmlessEntry(acc: Entries, d: Member, seen: Entries, m: Entries)
    requires KeepsForks(acc, seen, m) && (forall x :: x in seen ==> x in m)
    requires !Effective(d) && forall x :: x in m && Effective(x) ==> x.key != d.key
    ensures KeepsForks(Set(acc, d.key, d.val), seen, m)
  {
    forall x | x in acc && Effective(x) ensures x.key != d.key { assert x in EffectiveOf(acc); }
    SetNoFork(acc, d.key, d.val);
  }

  lemma {:induction false} HarmlessParse(before: seq<string>, parts: seq<string>, seen: Entries, m: Entries)
    requires KeepsForks(ParseParts(before), seen, m) && (forall x :: x in seen ==> x in m)
    requires forall p :: p in parts ==> HarmlessPart(p, m)
    ensures KeepsForks(ParseParts(before + parts), seen, m)
  {
    hide KeepsForks;
    if parts == [] {
      assert before + parts == before;
    } else {
      var init, p := parts[..|parts| - 1], parts[|parts| - 1];
      assert p in parts && forall q :: q in init ==> q in parts;
      HarmlessParse(before, init, seen, m);
      var all := before + parts;
      assert all[..|all| - 1] == before + init && all[|all| - 1] == p;
      match KeyVal(p, ':')
      case None =>
      case Some(d) =>
        if d.key != "" { HarmlessEntry(ParseParts(before + init), d, seen, m); }
    }
  }

  lemma ForkParse(before: seq<string>, seen: Entries, e: Member, m: Entries)
    requires KeepsForks(ParseParts(before), seen, m) && Effective(e) && CleanEntry(e) && e in m
    requires forall x :: x in seen ==> x.key != e.key
    ensures KeepsForks(ParseParts(before + [e.key + ":" + e.val]), seen + [e], m)
  {
    var acc := ParseParts(before);
    forall x | x in acc ensures x.key != e.key {
      if Effective(x) { assert x in EffectiveOf(seen); }
    }
    ParseSnoc(before, e);
    EffectiveSnoc(acc, e);
    EffectiveSnoc(seen, e);
  }

  lemma {:induction false} ForksSurvive(n: nat, m: Entries, decode: string -> string)
    requires Unescapes(decode) && Clean(m) && AllHarmless(m, decode) && n <= |m|
    requires forall e :: e in m && Effective(e) ==> Plain(e)
    ensures KeepsForks(ParseParts(DecodedParts(m[..n], decode)), m[..n], m)
  {
    if n > 0 {
      var seen, e := m[..n - 1], m[n - 1];
      assert m[..n][..n - 1] == seen && m[..n] == seen + [e] && e in m;
      ForksSurvive(n - 1, m, decode);
      var before := DecodedParts(seen, decode);
      assert DecodedParts(m[..n], decode) == before + Split(decode(e.key + ":" + e.val), '|');
      hide Unescapes, KeepsForks, ParseParts, DecodedParts;
      if Effective(e) {
        PlainPart(e, decode);
        forall x | x in seen ensures x.key != e.key { var i :| 0 <= i < n - 1 && m[i] == x; }
        ForkParse(before, seen, e, m);
      } else {
        HarmlessParse(before, Split(decode(e.key + ":" + e.val), '|'), seen, m);
        NoForkSeen(ParseParts(before + Split(decode(e.key + ":" + e.val), '|')), seen, e, m);
      }
    }
  }

  lemma NoForkSeen(acc: Entries, seen: Entries, e: Member, m: Entries)
    requires KeepsForks(acc, seen, m) && !Effective(e)
    ensures KeepsForks(acc, seen + [e], m)
  {
    EffectiveSnoc(seen, e);
  }

  // ----- A percent sign in an effective entry: the widget sends less -----------------------

  /** One written entry after decoding. */
  lemma DecodedPart(e: Member, m: Entries, decode: string -> string)
    requires Unescapes(decode) && CleanEntry(e) && (Effective(e) || Harmless(e, m, decode))
    ensures var p, w := e.key + ":" + e.val, Weight(Split(decode(e.key + ":" + e.val), '|'));
      && w <= (if Effective(e) then |p| + 1 else 0)
      && (Effective(e) && !Plain(e) ==> w < |p| + 1)
  {
    var p := e.key + ":" + e.val;
    if Effective(e) {
      WeightTotal(Split(decode(p), '|'));
      SplitTotal(decode(p), '|');
    } else {
      NoWeight(Split(decode(p), '|'), m);
    }
  }

  lemma {:induction false} NoWeight(parts: seq<string>, m: Entries)
    requires forall p :: p in parts ==> HarmlessPart(p, m)
    ensures Weight(parts) == 0
  {
    if parts != [] {
      assert parts[0] in parts && forall p :: p in parts[1..] ==> p in parts;
      NoWeight(parts[1..], m);
    }
  }

  lemma SizeSnoc(ms: seq<Member>, e: Member)
    ensures Size(EffectiveOf(ms + [e])) ==
      Size(EffectiveOf(ms)) + if Effective(e) then |e.key| + |e.val| + 2 else 0
  {
    EffectiveSnoc(ms, e);
    SizeConcat(EffectiveOf(ms), if Effective(e) then [e] else []);
  }

  lemma {:induction false} SizeConcat(a: seq<Member>, b: seq<Member>)
    ensures Size(a + b) == Size(a) + Size(b)
    ensures |b| == 1 ==> Size(b) == |b[0].key| + |b[0].val| + 2
  {
    if a == [] {
      assert a + b == b;
      assert |b| == 1 ==> b[1..] == [];
    } else {
      assert (a + b)[1..] == a[1..] + b;
      SizeConcat(a[1..], b);
    }
  }

  /** Some effective entry has a percent sign. */
  ghost predicate Escaped(ms: seq<Member>) {
    exists e :: e in ms && Effective(e) && !Plain(e)
  }

  lemma EscapedSnoc(ms: seq<Member>, e: Member)
    ensures Escaped(ms + [e]) <==> Escaped(ms) || (Effective(e) && !Plain(e))
  {
    assert forall x :: x in ms + [e] <==> x in ms || x == e;
  }

  lemma {:induction false} DecodedWeight(n: nat, m: Entries, decode: string -> string)
    requires Unescapes(decode) && Clean(m) && AllHarmless(m, decode) && n <= |m|
    ensures var w := Weight(DecodedParts(m[..n], decode));
      w <= Size(EffectiveOf(m[..n])) && (Escaped(m[..n]) ==> w < Size(EffectiveOf(m[..n])))
  {
    if n > 0 {
      var seen, e := m[..n - 1], m[n - 1];
      assert m[..n][..n - 1] == seen && m[..n] == seen + [e] && e in m;
      hide Unescapes, Weight, Size, EffectiveOf, Effective, Plain, Split, Escaped;
      DecodedWeight(n - 1, m, decode);
      DecodedPart(e, m, decode);
      WeightConcat(DecodedParts(seen, decode), Split(decode(e.key + ":" + e.val), '|'));
      SizeSnoc(seen, e);
      EscapedSnoc(seen, e);
    }
  }

  // ----- The agreement ----------------------------------------------------------------------

  /** For a page whose source cookie holds a serialized map, the translator picks
      the map's own value for its key, "." and "" meaning none, and it emits the
      string the widget would have sent as Baggage itself when the cookie has no
      percent sign; as long as the no-fork entries decode to nothing of
      consequence, it does so if and only if no effective entry has one. */
  lemma WidgetAndTranslatorAgree(cookies: seq<Member>, name: string, uri: URICodec, m: Entries, routingKey: string)
    requires AllStored(cookies)
    requires name != "" && SameCookie(cookies, name, uri) && Unescapes(uri.decode)
    requires FirstOf(cookies, {name}) == Serialize(m) && Clean(m)
    ensures var ctx := T.Context(name, T.Request("", CookieHeader(cookies)));
      ValueOf(ctx, routingKey) == if ValueOf(m, routingKey) == "." then "" else ValueOf(m, routingKey)
    ensures '%' !in Serialize(m) ==> SameBaggage(cookies, name, uri)
    ensures AllHarmless(m, uri.decode) ==>
      (SameBaggage(cookies, name, uri) <==> forall e :: e in m && Effective(e) ==> Plain(e))
  {
    hide Unescapes, Serialize, EffectiveOf, Emit, Parse, AllHarmless, T.CookieNamed, CookieHeader, Plain;
    CookieHeaderLookup(cookies, name);
    ReadCookieLookup(cookies, name, uri);
    T.CookieMembersOfSerialized(m);
    T.NoMembers();
    EffectiveValue(m, routingKey);
    ParseSerialize(m);
    DecodesPlain(Serialize(m), uri.decode);
    if AllHarmless(m, uri.decode) { DecodedAgrees(m, uri.decode); }
  }

  /** The translator emits for these cookies what the widget would send. */
  ghost predicate SameBaggage(cookies: seq<Member>, name: string, uri: URICodec) {
    Emit(T.Context(name, T.Request("", CookieHeader(cookies)))) == WidgetValue(CookieHeader(cookies), name, uri)
  }

  lemma DecodesPlain(s: string, decode: string -> string)
    requires Unescapes(decode)
    ensures '%' !in s ==> decode(s) == s
  {
  }

  lemma DecodedAgrees(m: Entries, decode: string -> string)
    requires Unescapes(decode) && Clean(m) && AllHarmless(m, decode)
    ensures Emit(EffectiveOf(m)) == Emit(EffectiveOf(Parse(decode(Serialize(m))))) <==>
      forall e :: e in m && Effective(e) ==> Plain(e)
  {
    if m == [] {
      NothingWritten();
      DecodesPlain("", decode);
      ParseSerialize(m);
    } else {
      DecodedSplit(m, decode);
      assert m[..|m|] == m;
      hide Unescapes, Serialize, Split, AllHarmless, ParseParts, DecodedParts, Emit, Plain, EffectiveOf, Size, Weight;
      if forall e :: e in m && Effective(e) ==> Plain(e) {
        ForksSurvive(|m|, m, decode);
      } else {
        DecodedWeight(|m|, m, decode);
        ParseSize(DecodedParts(m, decode));
        EmitSize(EffectiveOf(m));
        EmitSize(EffectiveOf(Parse(decode(Serialize(m)))));
        NoneWeighs();
        SomeSize(EffectiveOf(m));
      }
    }
  }

  lemma NothingWritten()
    ensures Serialize([]) == ""
  {
    assert Pairs([], ':') == [];
  }

  lemma NoneWeighs()
    ensures Size([]) == 0
  {
  }

  lemma SomeSize(ms: seq<Member>)
    ensures ms != [] ==> Size(ms) >= 2
  {
  }

  /** Such a cookie: for c=web:v%32 the widget sends web=v2 and the translator emits web=v%32. */
  lemma PercentExample(encode: string -> string)
    requires encode("c") == "c"
    ensures var hdr := CookieHeader([Member("c", "web:v%32")]);
      && WidgetValue(hdr, "c", URICodec(encode, Unescape)) == "web=v2"
      && Emit(T.Context("c", T.Request("", hdr))) == "web=v%32"
  {
    hide WidgetValue, CookieHeader, Emit, T.Context, Unescape;
    var raw, val := "web:v%32", "v%32";
    assert "web" + ":" + "v2" == "web:v2" && "web" + "=" + "v2" == "web=v2";
    assert "web" + ":" + val == raw && "web" + "=" + val == "web=v%32" && raw[5] == '%';
    PercentDecoded();
    ReadsLone("c", raw, "web", "v2", URICodec(encode, Unescape));
    EmitsLone("c", "web", val);
    OneEntry("web", val);
  }

  /** And one with a no-fork entry that is not harmless: for c=a%3Av:. the widget
      sends a=v:. and the translator emits nothing. */
  lemma NoForkKeyExample(encode: string -> string)
    requires encode("c") == "c"
    ensures var hdr := CookieHeader([Member("c", "a%3Av:.")]);
      && WidgetValue(hdr, "c", URICodec(encode, Unescape)) == "a=v:."
      && Emit(T.Context("c", T.Request("", hdr))) == ""
  {
    hide WidgetValue, CookieHeader, Emit, T.Context, Unescape, EffectiveOf;
    var raw, key := "a%3Av:.", "a%3Av";
    assert "a" + ":" + "v:." == "a:v:." && "a" + "=" + "v:." == "a=v:.";
    assert key + ":" + "." == raw && raw[1] == '%';
    ColonDecoded();
    ReadsLone("c", raw, "a", "v:.", URICodec(encode, Unescape));
    EmitsLone("c", key, ".");
    NoForkAlone(Member(key, "."));
  }

  lemma NoForkAlone(e: Member)
    requires !Effective(e)
    ensures Emit(EffectiveOf([e])) == ""
  {
    EffectiveSnoc([], e);
    assert [] + [e] == [e] && Pairs([], '=') == [];
  }

  lemma ColonDecoded()
    ensures Unescape("a%3Av:.") == "a:v:."
  {
    assert Unescape("%3A" + "v:.") == ":v:." by {
      var s := "%3A" + "v:.";
      assert StartsEscape(s) && s[3..] == "v:." && EscapeChar(s) == ':';
      UnescapePlain("v:.", "");
      assert "v:." + "" == "v:.";
      assert [':'] + "v:." == ":v:.";
    }
    UnescapePlain("a", "%3A" + "v:.");
    assert "a" + ("%3A" + "v:.") == "a%3Av:." && "a" + ":v:." == "a:v:.";
  }

  lemma PercentDecoded()
    ensures Unescape("web:v%32") == "web:v2"
  {
    assert Unescape("%32") == "2" by { assert "%32"[3..] == ""; }
    UnescapePlain("web:v", "%32");
    assert "web:v" + "%32" == "web:v%32" && "web:v" + "2" == "web:v2";
  }

  lemma {:induction false} UnescapePlain(a: string, b: string)
    requires '%' !in a
    ensures Unescape(a + b) == a + Unescape(b)
  {
    hide Unescape;
    if a == "" {
      assert a + b == b && a + Unescape(b) == Unescape(b);
    } else {
      assert (a + b)[0] == a[0] && (a + b)[1..] == a[1..] + b;
      UnescapeStep(a + b);
      UnescapePlain(a[1..], b);
      assert [a[0]] + (a[1..] + Unescape(b)) == a + Unescape(b);
    }
  }

  /** The widget's side of a page with one cookie, */
  lemma ReadsLone(name: string, raw: string, key: string, decoded: string, uri: URICodec)
    requires Stored(Member(name, raw)) && uri.encode(name) == name && '%' in raw
    requires CleanEntry(Member(key, decoded)) && Effective(Member(key, decoded))
    requires uri.decode(raw) == key + ":" + decoded
    ensures WidgetValue(CookieHeader([Member(name, raw)]), name, uri) == key + "=" + decoded
  {
    hide EffectiveOf, Emit, Parse, CookieHeader, CookieOf;
    OneEntry(key, decoded);
    ReadCookieLookup([Member(name, raw)], name, uri);
    LoneCookie(Member(name, raw), {name, uri.encode(name)});
  }

  /** and the translator's. */
  lemma EmitsLone(name: string, key: string, val: string)
    requires Stored(Member(name, key + ":" + val)) && CleanEntry(Member(key, val))
    ensures Emit(T.Context(name, T.Request("", CookieHeader([Member(name, key + ":" + val)])))) ==
      Emit(EffectiveOf([Member(key, val)]))
  {
    hide EffectiveOf, Emit, CookieHeader, T.CookieMembers, T.CookieNamed, T.BaggageMembers;
    var c, m := Member(name, key + ":" + val), [Member(key, val)];
    assert Serialize(m) == key + ":" + val && Clean(m);
    LoneCookie(c, {name});
    CookieHeaderLookup([c], name);
    T.CookieMembersOfSerialized(m);
    T.NoMembers();
  }

  lemma LoneCookie(c: Member, names: set<string>)
    requires c.key in names
    ensures FirstOf([c], names) == c.val
  {
  }

  lemma OneEntry(key: string, val: string)
    requires CleanEntry(Member(key, val)) && Effective(Member(key, val))
    ensures var m := [Member(key, val)];
      && Clean(m) && Serialize(m) == key + ":" + val && Parse(key + ":" + val) == m
      && EffectiveOf(m) == m && Emit(m) == key + "=" + val
  {
    var m := [Member(key, val)];
    assert Serialize(m) == key + ":" + val;
    ParseSerialize(m);
    EffectiveSnoc([], m[0]);
    assert [] + m == m;
  }
}
