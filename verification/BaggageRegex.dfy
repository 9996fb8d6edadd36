/** The regular expression of baggageMatchRegex (render_httproute.go): its text,
    how RE2 reads that text, what the expression matches when it must match a
    whole header value, and which headers those are. */
module BaggageRegex {
  import opened Text
  import opened Wire

  datatype Class = NotNewline | Space | Not(c: char) | Is(c: char)

  predicate InClass(k: Class, x: char) {
    match k
    case NotNewline => x != '\n'
    case Space => Re2Space(x)
    case Not(c) => x != c
    case Is(c) => x == c
  }

  datatype Regex =
    | Empty
    | One(cls: Class)
    | Cat(left: Regex, right: Regex)
    | Opt(body: Regex)
    | Star(body: Regex)

  /** s as a whole is in the language of r. */
  ghost predicate Matches(r: Regex, s: string)
    decreases r, |s|
  {
    match r
    case Empty => s == ""
    case One(k) => |s| == 1 && InClass(k, s[0])
    case Cat(a, b) => exists i :: 0 <= i <= |s| && Matches(a, s[..i]) && Matches(b, s[i..])
    case Opt(a) => s == "" || Matches(a, s)
    case Star(a) => s == "" || exists i :: 0 < i <= |s| && Matches(a, s[..i]) && Matches(r, s[i..])
  }

  // ----- The text and how RE2 reads it ----------------------------------------------

  predicate Meta(c: char) {
    c in "\\.+*?()|[]{}^$"
  }

  /** regexp.QuoteMeta. */
  function QuoteMeta(s: string): string {
    if s == "" then ""
    else (if Meta(s[0]) then ['\\', s[0]] else [s[0]]) + QuoteMeta(s[1..])
  }

  function Pattern(routingKey: string, svc: string): string {
    "(?:.*,)?" + ("\\s*" + (QuoteMeta(routingKey) + ("=" + (QuoteMeta(svc) + ("(?:;[^,]*)?" + ("\\s*" + "(?:,.*)?"))))))
  }

  /** One atom of the syntax the pattern uses, and what follows it; None for
      anything else RE2 would read differently. */
  function Atom(s: string): (r: (Option<Regex>, string))
    requires s != ""
    ensures |r.1| < |s|
    decreases |s|, 0
  {
    if "(?:" <= s then
      var (body, rest) := Sequence(s[3..]);
      if rest != "" && rest[0] == ')' then (body, rest[1..]) else (None, "")
    else if s[0] == '\\' then
      if |s| == 1 then (None, "")
      else if s[1] == 's' then (Some(One(Space)), s[2..])
      else if Meta(s[1]) then (Some(One(Is(s[1]))), s[2..])
      else (None, "")
    else if s[0] == '[' then
      if |s| >= 4 && s[1] == '^' && !Meta(s[2]) && s[3] == ']' then (Some(One(Not(s[2]))), s[4..]) else (None, "")
    else if s[0] == '.' then (Some(One(NotNewline)), s[1..])
    else if Meta(s[0]) then (None, "")
    else (Some(One(Is(s[0]))), s[1..])
  }

  /** Atoms with an optional * or ?, up to a closing parenthesis or the end. */
  function Sequence(s: string): (r: (Option<Regex>, string))
    ensures |r.1| <= |s|
    decreases |s|, 1
  {
    if s == "" || s[0] == ')' then (Some(Empty), s)
    else
      var (atom, rest) := Atom(s);
      var quantified := rest != "" && (rest[0] == '*' || rest[0] == '?');
      var (tail, end) := Sequence(if quantified then rest[1..] else rest);
      if atom.None? || tail.None? then (None, "")
      else
        var item := if !quantified then atom.value else if rest[0] == '*' then Star(atom.value) else Opt(atom.value);
        (Some(Cat(item, tail.value)), end)
  }

  /** The expression a pattern stands for, if it is all read. */
  function Compile(pattern: string): Option<Regex> {
    var (r, rest) := Sequence(pattern);
    if rest == "" then r else None
  }

  /** A literal in front of another expression. */
  function Literal(t: string, r: Regex): Regex {
    if t == "" then r else Cat(One(Is(t[0])), Literal(t[1..], r))
  }

  const BEFORE := Opt(Cat(Star(One(NotNewline)), Cat(One(Is(',')), Empty)))
  const PROPS := Opt(Cat(One(Is(';')), Cat(Star(One(Not(','))), Empty)))
  const AFTER := Opt(Cat(One(Is(',')), Cat(Star(One(NotNewline)), Empty)))

  function CoreRegex(routingKey: string, svc: string): Regex {
    Cat(Star(One(Space)), Literal(routingKey, Literal("=", Literal(svc, TAIL))))
  }

  const TAIL := Cat(PROPS, Cat(Star(One(Space)), Cat(AFTER, Empty)))

  function BaggageMatchRegex(routingKey: string, svc: string): Regex {
    Cat(BEFORE, CoreRegex(routingKey, svc))
  }

  predicate Unquantified(s: string) {
    s == "" || (s[0] != '*' && s[0] != '?')
  }

  lemma QuotedUnquantified(t: string, tail: string)
    requires Unquantified(tail)
    ensures Unquantified(QuoteMeta(t) + tail)
  {
    if t == "" { assert QuoteMeta(t) + tail == tail; }
  }

  lemma QuotedChar(c: char, rest: string)
    requires Unquantified(rest)
    ensures Sequence((if Meta(c) then ['\\', c] else [c]) + rest) ==
      (var (tail, end) := Sequence(rest); if tail.None? then (None, "") else (Some(Cat(One(Is(c)), tail.value)), end))
  {
    var s := (if Meta(c) then ['\\', c] else [c]) + rest;
    assert s[0] != '(' && "(?:"[0] == '(';
    assert s[0] != ')' && !Meta('s');
    assert (if Meta(c) then s[2..] else s[1..]) == rest;
    assert Atom(s) == (Some(One(Is(c))), rest);
  }

  /** However many special characters it holds, a quoted text is read back as itself. */
  lemma {:induction false} QuotedLiteral(t: string, rest: string)
    requires Unquantified(rest) && Sequence(rest).0.Some?
    ensures Sequence(QuoteMeta(t) + rest) == (Some(Literal(t, Sequence(rest).0.value)), Sequence(rest).1)
  {
    hide Sequence;
    if t == "" {
      assert QuoteMeta(t) + rest == rest;
    } else {
      var q := QuoteMeta(t[1..]) + rest;
      QuotedLiteral(t[1..], rest);
      QuotedUnquantified(t[1..], rest);
      QuotedChar(t[0], q);
      assert QuoteMeta(t) + rest == (if Meta(t[0]) then ['\\', t[0]] else [t[0]]) + q;
    }
  }

  /** An atom, starred, then the rest. */
  lemma StarRead(text: string, k: Class, rest: string)
    requires text != "" && text[0] != ')' && Atom(text + ("*" + rest)) == (Some(One(k)), "*" + rest)
    requires Sequence(rest).0.Some?
    ensures Sequence(text + ("*" + rest)) == (Some(Cat(Star(One(k)), Sequence(rest).0.value)), Sequence(rest).1)
  {
    hide Atom;
    assert ("*" + rest)[1..] == rest;
  }

  lemma AtomAny(rest: string)
    ensures Atom("." + rest) == (Some(One(NotNewline)), rest)
  {
    assert "(?:"[0] == '(' && ("." + rest)[1..] == rest;
  }

  lemma AtomSpace(rest: string)
    ensures Atom("\\s" + rest) == (Some(One(Space)), rest)
  {
    assert "(?:"[0] == '(' && ("\\s" + rest)[2..] == rest;
  }

  lemma AtomNotComma(rest: string)
    ensures Atom("[^,]" + rest) == (Some(One(Not(','))), rest)
  {
    assert "(?:"[0] == '(' && ("[^,]" + rest)[4..] == rest;
  }

  /** A group made optional, then the rest. */
  lemma GroupRead(inner: string, body: Regex, rest: string)
    requires Sequence(inner + (")?" + rest)) == (Some(body), ")?" + rest) && Sequence(rest).0.Some?
    ensures Sequence("(?:" + (inner + (")?" + rest))) ==
      (Some(Cat(Opt(body), Sequence(rest).0.value)), Sequence(rest).1)
  {
    AtomGroup(inner, body, rest);
    hide Atom;
    var s := "(?:" + (inner + (")?" + rest));
    assert s[0] != ')' && ("?" + rest)[1..] == rest;
  }

  lemma AtomGroup(inner: string, body: Regex, rest: string)
    requires Sequence(inner + (")?" + rest)) == (Some(body), ")?" + rest)
    ensures Atom("(?:" + (inner + (")?" + rest))) == (Some(body), "?" + rest)
  {
    hide Sequence;
    var x := inner + (")?" + rest);
    var s := "(?:" + x;
    assert s[3..] == x && s[..3] == "(?:";
    assert (")?" + rest)[1..] == "?" + rest;
  }

  lemma PlainRead(c: char, rest: string)
    requires !Meta(c) && Unquantified(rest) && Sequence(rest).0.Some?
    ensures Sequence([c] + rest) == (Some(Cat(One(Is(c)), Sequence(rest).0.value)), Sequence(rest).1)
  {
    QuotedChar(c, rest);
  }

  lemma Close(rest: string)
    ensures Sequence(")?" + rest) == (Some(Empty), ")?" + rest)
  {
  }

  lemma BeforeRead(rest: string)
    requires Sequence(rest).0.Some?
    ensures Sequence("(?:.*,)?" + rest) == (Some(Cat(BEFORE, Sequence(rest).0.value)), Sequence(rest).1)
  {
    hide Sequence, Atom;
    var x := ")?" + rest;
    Close(rest);
    PlainRead(',', x);
    AtomAny("*" + ("," + x));
    StarRead(".", NotNewline, "," + x);
    assert "." + ("*" + ("," + x)) == ".*," + x;
    GroupRead(".*,", Cat(Star(One(NotNewline)), Cat(One(Is(',')), Empty)), rest);
    assert "(?:.*,)?" + rest == "(?:" + (".*," + x);
  }

  /** A character and a starred atom at the end of a group. */
  lemma HeadedStar(c: char, text: string, k: Class, rest: string)
    requires !Meta(c) && text != "" && text[0] !in ")*?"
    requires Atom(text + ("*" + (")?" + rest))) == (Some(One(k)), "*" + (")?" + rest))
    ensures Sequence([c] + (text + ("*" + (")?" + rest)))) ==
      (Some(Cat(One(Is(c)), Cat(Star(One(k)), Empty))), ")?" + rest)
  {
    hide Sequence, Atom;
    Close(rest);
    StarRead(text, k, ")?" + rest);
    PlainRead(c, text + ("*" + (")?" + rest)));
  }

  lemma PropsRead(rest: string)
    requires Sequence(rest).0.Some?
    ensures Sequence("(?:;[^,]*)?" + rest) == (Some(Cat(PROPS, Sequence(rest).0.value)), Sequence(rest).1)
  {
    hide Sequence, Atom;
    var x := ")?" + rest;
    AtomNotComma("*" + x);
    HeadedStar(';', "[^,]", Not(','), rest);
    assert [';'] + ("[^,]" + ("*" + x)) == ";[^,]*" + x;
    GroupRead(";[^,]*", Cat(One(Is(';')), Cat(Star(One(Not(','))), Empty)), rest);
    assert "(?:;[^,]*)?" + rest == "(?:" + (";[^,]*" + x);
  }

  lemma AfterRead(rest: string)
    requires Sequence(rest).0.Some?
    ensures Sequence("(?:,.*)?" + rest) == (Some(Cat(AFTER, Sequence(rest).0.value)), Sequence(rest).1)
  {
    hide Sequence, Atom;
    var x := ")?" + rest;
    AtomAny("*" + x);
    HeadedStar(',', ".", NotNewline, rest);
    assert [','] + ("." + ("*" + x)) == ",.*" + x;
    GroupRead(",.*", Cat(One(Is(',')), Cat(Star(One(NotNewline)), Empty)), rest);
    assert "(?:,.*)?" + rest == "(?:" + (",.*" + x);
  }

  lemma SpacesRead(rest: string)
    requires Sequence(rest).0.Some?
    ensures Sequence("\\s*" + rest) == (Some(Cat(Star(One(Space)), Sequence(rest).0.value)), Sequence(rest).1)
  {
    hide Sequence, Atom;
    AtomSpace("*" + rest);
    StarRead("\\s", Space, rest);
    assert "\\s" + ("*" + rest) == "\\s*" + rest;
  }

  /** The generated text, whatever the key and the Service are called, is read
      by RE2 as the intended expression: quoting makes them literal. */
  lemma PatternCompiles(routingKey: string, svc: string)
    ensures Compile(Pattern(routingKey, svc)) == Some(BaggageMatchRegex(routingKey, svc))
  {
    var p7 := "(?:,.*)?" + "";
    var p6, p5 := "\\s*" + p7, "(?:;[^,]*)?" + ("\\s*" + p7);
    var p4 := QuoteMeta(svc) + p5;
    var p3 := "=" + p4;
    var p2 := QuoteMeta(routingKey) + p3;
    assert Sequence("") == (Some(Empty), "");
    hide Sequence, QuoteMeta;
    AfterRead("");
    SpacesRead(p7);
    PropsRead(p6);
    QuotedLiteral(svc, p5);
    QuotedUnquantified(svc, p5);
    PlainRead('=', p4);
    QuotedLiteral(routingKey, p3);
    SpacesRead(p2);
    BeforeRead("\\s*" + p2);
    assert p7 == "(?:,.*)?";
    assert Literal("=", Literal(svc, TAIL)) == Cat(One(Is('=')), Literal(svc, TAIL));
  }

  // ----- The language of the expression ------------------------------------------------

  predicate All(k: Class, s: string) {
    forall i :: 0 <= i < |s| ==> InClass(k, s[i])
  }

  lemma {:induction false} StarOne(k: Class, s: string)
    ensures Matches(Star(One(k)), s) <==> All(k, s)
    decreases |s|
  {
    if s != "" {
      if Matches(Star(One(k)), s) {
        var i :| 0 < i <= |s| && Matches(One(k), s[..i]) && Matches(Star(One(k)), s[i..]);
        StarOne(k, s[i..]);
        assert forall j :: i <= j < |s| ==> s[j] == s[i..][j - i];
      }
      if All(k, s) {
        StarOne(k, s[1..]);
        assert Matches(One(k), s[..1]) && Matches(Star(One(k)), s[1..]);
      }
    }
  }

  lemma CatIntro(a: Regex, b: Regex, s: string, t: string)
    requires Matches(a, s) && Matches(b, t)
    ensures Matches(Cat(a, b), s + t)
  {
    hide Matches;
    var u := s + t;
    assert u[..|s|] == s && u[|s|..] == t;
    CatAt(a, b, u, |s|);
  }

  lemma CatAt(a: Regex, b: Regex, u: string, i: nat)
    requires i <= |u| && Matches(a, u[..i]) && Matches(b, u[i..])
    ensures Matches(Cat(a, b), u)
  {
  }

  lemma CatElim(a: Regex, b: Regex, s: string) returns (x: string, y: string)
    requires Matches(Cat(a, b), s)
    ensures s == x + y && Matches(a, x) && Matches(b, y)
  {
    var i :| 0 <= i <= |s| && Matches(a, s[..i]) && Matches(b, s[i..]);
    hide Matches;
    x, y := s[..i], s[i..];
  }

  lemma CatEmpty(a: Regex, s: string)
    ensures Matches(Cat(a, Empty), s) <==> Matches(a, s)
  {
    if Matches(a, s) {
      CatIntro(a, Empty, s, "");
      assert s + "" == s;
    }
    if Matches(Cat(a, Empty), s) {
      var x, y := CatElim(a, Empty, s);
      assert s == x;
    }
  }

  lemma {:induction false} LiteralIs(t: string, r: Regex, s: string)
    ensures Matches(Literal(t, r), s) <==> t <= s && Matches(r, s[|t|..])
  {
    if t == "" {
      assert s[0..] == s;
    } else {
      var a, b := One(Is(t[0])), Literal(t[1..], r);
      if s != "" { LiteralIs(t[1..], r, s[1..]); }
      if Matches(Cat(a, b), s) {
        var x, y := CatElim(a, b, s);
        assert s[0] == x[0] == t[0] && y == s[1..];
        assert s == [t[0]] + s[1..] && t == [t[0]] + t[1..] && s[|t|..] == s[1..][|t| - 1..];
      }
      if t <= s && Matches(r, s[|t|..]) {
        assert s[0] == t[0] && s[..1] == [t[0]] && s[1..][|t| - 1..] == s[|t|..];
        CatAt(a, b, s, 1);
      }
    }
  }

  /** An optional group that is one character followed by a run of a class. */
  lemma HeadedIs(head: char, k: Class, s: string)
    ensures Matches(Opt(Cat(One(Is(head)), Cat(Star(One(k)), Empty))), s) <==>
      s == "" || (s[0] == head && All(k, s[1..]))
  {
    if s != "" {
      LiteralIs([head], Cat(Star(One(k)), Empty), s);
      assert Literal([head], Cat(Star(One(k)), Empty)) == Cat(One(Is(head)), Cat(Star(One(k)), Empty));
      CatEmpty(Star(One(k)), s[1..]);
      StarOne(k, s[1..]);
      assert [head] <= s <==> s[0] == head by { assert s[..1] == [s[0]]; }
    }
  }

  lemma PropsIs(s: string)
    ensures Matches(PROPS, s) <==> s == "" || (s[0] == ';' && ',' !in s)
  {
    HeadedIs(';', Not(','), s);
    if s != "" {
      assert s == [s[0]] + s[1..];
    }
  }

  lemma BeforeIs(s: string)
    requires '\n' !in s
    ensures Matches(BEFORE, s) <==> s == "" || s[|s| - 1] == ','
  {
    var any, comma := Star(One(NotNewline)), Cat(One(Is(',')), Empty);
    assert Matches(BEFORE, s) <==> s == "" || Matches(Cat(any, comma), s);
    assert Matches(One(Is(',')), ",");
    assert forall y :: Matches(One(Is(',')), y) ==> y == ",";
    hide Matches;
    if s != "" && Matches(Cat(any, comma), s) {
      var x, y := CatElim(any, comma, s);
      CatEmpty(One(Is(',')), y);
      assert s[|s| - 1] == y[|y| - 1];
    }
    if s != "" && s[|s| - 1] == ',' {
      var init := s[..|s| - 1];
      assert s == init + ",";
      assert All(NotNewline, init) by { assert forall i :: 0 <= i < |init| ==> init[i] in s; }
      StarOne(NotNewline, init);
      CatEmpty(One(Is(',')), ",");
      CatIntro(any, comma, init, ",");
    }
  }

  /** What one comma-separated piece of the header must look like: optional
      whitespace, key=svc, optional ";properties", optional whitespace. */
  ghost predicate Carries(piece: string, routingKey: string, svc: string) {
    exists w: string, props: string, v: string :: CarriesAs(piece, routingKey, svc, w, props, v)
  }

  ghost predicate CarriesAs(piece: string, routingKey: string, svc: string, w: string, props: string, v: string) {
    && piece == w + (routingKey + "=" + svc) + props + v
    && All(Space, w) && All(Space, v)
    && (props == "" || props[0] == ';')
  }

  lemma TailIs(s: string) returns (props: string, v: string, q: string)
    requires Matches(TAIL, s)
    ensures s == props + (v + q) && All(Space, v) && Matches(AFTER, q)
    ensures props == "" || (props[0] == ';' && ',' !in props)
  {
    hide Matches;
    var ws := Star(One(Space));
    var s1, q1;
    props, s1 := CatElim(PROPS, Cat(ws, Cat(AFTER, Empty)), s);
    v, q1 := CatElim(ws, Cat(AFTER, Empty), s1);
    CatEmpty(AFTER, q1);
    q := q1;
    StarOne(Space, v);
    PropsIs(props);
  }

  lemma CoreLiteral(routingKey: string, svc: string, s: string)
    ensures Matches(Literal(routingKey, Literal("=", Literal(svc, TAIL))), s) <==>
      routingKey + "=" + svc <= s && Matches(TAIL, s[|routingKey| + 1 + |svc|..])
  {
    hide Matches, Literal;
    var k := |routingKey|;
    LiteralIs(routingKey, Literal("=", Literal(svc, TAIL)), s);
    if routingKey <= s {
      var s1 := s[k..];
      LiteralIs("=", Literal(svc, TAIL), s1);
      if "=" <= s1 {
        LiteralIs(svc, TAIL, s1[1..]);
        if svc <= s1[1..] { assert s1[1..][|svc|..] == s[k + 1 + |svc|..]; }
      }
    }
    PrefixParts(routingKey, "=", svc, s);
  }

  lemma PrefixParts(a: string, b: string, c: string, s: string)
    ensures a + b + c <= s <==> a <= s && b <= s[|a|..] && c <= s[|a|..][|b|..]
  {
    if a <= s && b <= s[|a|..] && c <= s[|a|..][|b|..] {
      var s1 := s[|a|..];
      assert s == a + s1 && s1 == b + s1[|b|..] && s1[|b|..] == c + s1[|b|..][|c|..];
      assert s == a + b + c + s1[|b|..][|c|..];
    }
    if a + b + c <= s {
      var r := s[|a + b + c|..];
      assert s == a + (b + (c + r)) && s[|a|..] == b + (c + r) && (b + (c + r))[|b|..] == c + r;
    }
  }

  lemma Regroup(a: string, b: string, c: string, d: string, e: string)
    ensures a + (b + (c + (d + e))) == a + b + c + d + e == a + (b + c + d) + e
  {
  }

  /** How an accepted header is put together. */
  ghost predicate Layout(h: string, routingKey: string, svc: string,
                         p: string, w: string, props: string, v: string, q: string)
  {
    && h == p + (w + (routingKey + "=" + svc) + props + v) + q
    && (p == "" || p[|p| - 1] == ',') && (q == "" || q[0] == ',')
    && All(Space, w) && All(Space, v) && (props == "" || (props[0] == ';' && ',' !in props))
  }

  lemma MatchLayout(h: string, routingKey: string, svc: string)
    returns (p: string, w: string, props: string, v: string, q: string)
    requires '\n' !in h && Matches(BaggageMatchRegex(routingKey, svc), h)
    ensures Layout(h, routingKey, svc, p, w, props, v, q)
  {
    hide Matches;
    var lit := routingKey + "=" + svc;
    var rest, s1;
    p, rest := CatElim(BEFORE, CoreRegex(routingKey, svc), h);
    w, s1 := CatElim(Star(One(Space)), Literal(routingKey, Literal("=", Literal(svc, TAIL))), rest);
    CoreLiteral(routingKey, svc, s1);
    props, v, q := TailIs(s1[|lit|..]);
    assert s1 == lit + (props + (v + q));
    StarOne(Space, w);
    BeforeIs(p);
    HeadedIs(',', NotNewline, q);
    Regroup(w, lit, props, v, q);
    assert h == p + (w + lit + props + v) + q;
  }

  lemma LayoutMatch(h: string, routingKey: string, svc: string,
                    p: string, w: string, props: string, v: string, q: string)
    requires '\n' !in h && Layout(h, routingKey, svc, p, w, props, v, q)
    ensures Matches(BaggageMatchRegex(routingKey, svc), h)
  {
    hide Matches, Literal;
    var lit := routingKey + "=" + svc;
    var tail, ws := props + (v + q), Star(One(Space));
    assert '\n' !in p && '\n' !in q;
    BeforeIs(p);
    HeadedIs(',', NotNewline, q);
    StarOne(Space, w);
    StarOne(Space, v);
    PropsIs(props);
    CatEmpty(AFTER, q);
    CatIntro(ws, Cat(AFTER, Empty), v, q);
    CatIntro(PROPS, Cat(ws, Cat(AFTER, Empty)), props, v + q);
    assert lit <= lit + tail && (lit + tail)[|lit|..] == tail;
    CoreLiteral(routingKey, svc, lit + tail);
    CatIntro(ws, Literal(routingKey, Literal("=", Literal(svc, TAIL))), w, lit + tail);
    CatIntro(BEFORE, CoreRegex(routingKey, svc), p, w + (lit + tail));
    Regroup(w, lit, props, v, q);
    assert h == p + (w + (lit + tail));
  }

  lemma CoreCommaFree(w: string, routingKey: string, svc: string, props: string, v: string)
    requires All(Space, w) && All(Space, v) && ',' !in routingKey && ',' !in svc && ',' !in props
    ensures ',' !in w + (routingKey + "=" + svc) + props + v
  {
  }

  lemma MatchGivesPiece(h: string, routingKey: string, svc: string)
    requires '\n' !in h && ',' !in routingKey && ',' !in svc
    requires Matches(BaggageMatchRegex(routingKey, svc), h)
    ensures exists piece :: piece in Split(h, ',') && Carries(piece, routingKey, svc)
  {
    hide Matches;
    var p, w, props, v, q := MatchLayout(h, routingKey, svc);
    var piece := w + (routingKey + "=" + svc) + props + v;
    CoreCommaFree(w, routingKey, svc, props, v);
    PieceOf(p, piece, q, ',');
    assert CarriesAs(piece, routingKey, svc, w, props, v);
  }

  lemma PieceGivesMatch(h: string, piece: string, routingKey: string, svc: string)
    requires '\n' !in h && piece in Split(h, ',') && Carries(piece, routingKey, svc)
    ensures Matches(BaggageMatchRegex(routingKey, svc), h)
  {
    hide Matches;
    var j := PieceAt(h, piece, ',');
    var p, q := h[..j], h[j + |piece|..];
    var w: string, props: string, v: string :| CarriesAs(piece, routingKey, svc, w, props, v);
    SplitFree(h, ',');
    assert forall c :: c in props ==> c in piece;
    assert Layout(h, routingKey, svc, p, w, props, v, q);
    LayoutMatch(h, routingKey, svc, p, w, props, v, q);
  }

  /** The expression accepts a header iff one of its comma-separated pieces, as
      a whole, carries key=svc; so never part of a longer key or name. */
  lemma RegexLanguage(h: string, routingKey: string, svc: string)
    requires '\n' !in h && ',' !in routingKey && ',' !in svc
    ensures Matches(BaggageMatchRegex(routingKey, svc), h) <==>
      exists piece :: piece in Split(h, ',') && Carries(piece, routingKey, svc)
  {
    hide Matches;
    if Matches(BaggageMatchRegex(routingKey, svc), h) {
      MatchGivesPiece(h, routingKey, svc);
    }
    if piece :| piece in Split(h, ',') && Carries(piece, routingKey, svc) {
      PieceGivesMatch(h, piece, routingKey, svc);
    }
  }
}
