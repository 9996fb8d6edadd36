/** Byte strings (one char per byte) and the splitting, joining and scanning
    that the cookie, Baggage and regex code is written in terms of. */
module Text {

  // ----- Scanning ---------------------------------------------------------

  /** Position of the first c in s, or |s| when there is none. */
  function Find(s: string, c: char): (i: nat)
    ensures i <= |s|
  {
    if s == [] || s[0] == c then 0 else 1 + Find(s[1..], c)
  }

  lemma {:induction false} FindFirst(s: string, c: char)
    ensures var i := Find(s, c);
      && c !in s[..i] && (i < |s| ==> s[i] == c) && (i == |s| <==> c !in s)
  {
    if s != [] && s[0] != c {
      FindFirst(s[1..], c);
      var i := Find(s, c);
      assert s[..i] == [s[0]] + s[1..][..i - 1];
      assert s == [s[0]] + s[1..];
    }
  }

  lemma {:induction false} FindIs(a: string, c: char, b: string)
    requires c !in a
    ensures Find(a + [c] + b, c) == |a|
  {
    if a != [] {
      assert a[0] in a && (a + [c] + b)[1..] == a[1..] + [c] + b;
      FindIs(a[1..], c, b);
    }
  }

  /** C isspace, the class Lua writes %s. */
  predicate LuaSpace(c: char) {
    c == ' ' || '\t' <= c <= '\r'
  }

  /** The class RE2 writes \s: unlike Lua's it has no vertical tab. */
  predicate Re2Space(c: char) {
    LuaSpace(c) && c != '\U{0B}'
  }

  /** The two classes, character by character: only Lua's has the vertical tab. */
  lemma SpaceClasses(c: char)
    ensures LuaSpace(c) <==> c in " \t\n\r\U{0B}\U{0C}"
    ensures Re2Space(c) <==> c in " \t\n\r\U{0C}"
  {
    assert '\t' <= c <= '\r' <==> c == '\t' || c == '\n' || c == '\U{0B}' || c == '\U{0C}' || c == '\r';
  }

  /** gsub(s, "^%s+", ""). */
  function TrimLeft(s: string): (t: string)
    ensures |t| <= |s|
  {
    if s != [] && LuaSpace(s[0]) then TrimLeft(s[1..]) else s
  }

  /** s is a run of whitespace followed by TrimLeft(s), which starts with none. */
  lemma {:induction false} TrimLeftSplit(s: string) returns (w: string)
    ensures s == w + TrimLeft(s) && forall c :: c in w ==> LuaSpace(c)
    ensures TrimLeft(s) == "" || !LuaSpace(TrimLeft(s)[0])
  {
    if s != [] && LuaSpace(s[0]) {
      var w0 := TrimLeftSplit(s[1..]);
      w := [s[0]] + w0;
      assert s == [s[0]] + s[1..];
    } else {
      w := [];
    }
  }

  lemma {:induction false} TrimLeftIs(w: string, t: string)
    requires forall c :: c in w ==> LuaSpace(c)
    requires t == [] || !LuaSpace(t[0])
    ensures TrimLeft(w + t) == t
  {
    if w == [] {
      assert w + t == t;
    } else {
      assert (w + t)[1..] == w[1..] + t;
      assert w[0] in w;
      TrimLeftIs(w[1..], t);
    }
  }

  /** JavaScript's trim, for ASCII: leading and trailing whitespace. */
  function Trim(s: string): string {
    TrimRight(TrimLeft(s))
  }

  function TrimRight(s: string): string {
    if s != [] && LuaSpace(s[|s| - 1]) then TrimRight(s[..|s| - 1]) else s
  }

  /** Trim takes whitespace off both ends and leaves none there. */
  lemma TrimIs(s: string) returns (w: string, w': string)
    ensures s == w + Trim(s) + w' && (forall c :: c in w + w' ==> LuaSpace(c))
    ensures Trim(s) != "" ==> !LuaSpace(Trim(s)[0]) && !LuaSpace(Trim(s)[|Trim(s)| - 1])
  {
    w := TrimLeftSplit(s);
    w' := TrimRightSplit(TrimLeft(s));
    assert TrimLeft(s) == Trim(s) + w';
    if Trim(s) != "" { assert Trim(s)[0] == TrimLeft(s)[0]; }
  }

  lemma {:induction false} TrimRightSplit(s: string) returns (w: string)
    ensures s == TrimRight(s) + w && forall c :: c in w ==> LuaSpace(c)
    ensures TrimRight(s) == "" || !LuaSpace(TrimRight(s)[|TrimRight(s)| - 1])
  {
    if s != [] && LuaSpace(s[|s| - 1]) {
      var w0 := TrimRightSplit(s[..|s| - 1]);
      w := w0 + [s[|s| - 1]];
      assert s == s[..|s| - 1] + [s[|s| - 1]];
    } else {
      w := [];
    }
  }

  lemma {:induction false} TrimRightIs(t: string, w: string)
    requires forall c :: c in w ==> LuaSpace(c)
    requires t == "" || !LuaSpace(t[|t| - 1])
    ensures TrimRight(t + w) == t
  {
    if w == [] {
      assert t + w == t;
    } else {
      assert (t + w)[..|t + w| - 1] == t + w[..|w| - 1];
      assert w[|w| - 1] in w;
      TrimRightIs(t, w[..|w| - 1]);
    }
  }

  /** A text between whitespace is what Trim leaves. */
  lemma TrimOf(w: string, t: string, w': string)
    requires (forall c :: c in w ==> LuaSpace(c)) && (forall c :: c in w' ==> LuaSpace(c))
    requires t != "" && !LuaSpace(t[0]) && !LuaSpace(t[|t| - 1])
    ensures Trim(w + t + w') == t
  {
    assert w + t + w' == w + (t + w');
    TrimLeftIs(w, t + w');
    TrimRightIs(t, w');
  }

  /** Exactly the capital letters change, each to its small one. */
  lemma LowerTable(i: nat, c: char)
    ensures i < 26 ==> LowerChar("ABCDEFGHIJKLMNOPQRSTUVWXYZ"[i]) == "abcdefghijklmnopqrstuvwxyz"[i]
    ensures LowerChar(c) != c ==> c in "ABCDEFGHIJKLMNOPQRSTUVWXYZ"
  {
    assert 'A' <= c <= 'Z' ==> "ABCDEFGHIJKLMNOPQRSTUVWXYZ"[(c - 'A') as int] == c;
  }

  function LowerChar(c: char): char {
    if 'A' <= c <= 'Z' then c - 'A' + 'a' else c
  }

  function Lower(s: string): (t: string)
    ensures |t| == |s| && forall i :: 0 <= i < |s| ==> t[i] == LowerChar(s[i])
  {
    seq(|s|, i requires 0 <= i < |s| => LowerChar(s[i]))
  }

  predicate HasPrefix(s: string, p: string) {
    p <= s
  }

  // ----- Splitting and joining --------------------------------------------

  /** s.split(sep): n separators give n + 1 pieces, some possibly empty. */
  function Split(s: string, sep: char): (ps: seq<string>)
    ensures |ps| >= 1
  {
    if s == [] then [[]]
    else
      var rest := Split(s[1..], sep);
      if s[0] == sep then [[]] + rest
      else
        [[s[0]] + rest[0]] + rest[1..]
  }

  function Join(ps: seq<string>, sep: char): string {
    if ps == [] then []
    else if |ps| == 1 then ps[0]
    else ps[0] + [sep] + Join(ps[1..], sep)
  }

  lemma {:induction false} SplitFree(s: string, sep: char)
    ensures forall p :: p in Split(s, sep) ==> sep !in p
  {
    if s != [] {
      SplitFree(s[1..], sep);
      var rest := Split(s[1..], sep);
      assert forall p :: p in rest[1..] ==> p in rest;
      assert rest[0] in rest;
    }
  }

  /** The pieces put together again are the text. */
  lemma {:induction false} JoinSplit(s: string, sep: char)
    ensures Join(Split(s, sep), sep) == s
  {
    if s != [] {
      JoinSplit(s[1..], sep);
      var rest := Split(s[1..], sep);
      assert s == [s[0]] + s[1..];
      if s[0] == sep {
        assert ([[]] + rest)[1..] == rest;
      } else {
        assert ([[s[0]] + rest[0]] + rest[1..])[1..] == rest[1..];
      }
    }
  }

  function NonEmpty(ps: seq<string>): seq<string> {
    if ps == [] then []
    else (if ps[0] == [] then [] else [ps[0]]) + NonEmpty(ps[1..])
  }

  /** The matches of Lua's gmatch(s, "([^sep]+)"): the maximal runs without sep. */
  function Runs(s: string, sep: char): seq<string> {
    NonEmpty(Split(s, sep))
  }

  lemma {:induction false} NonEmptyIs(ps: seq<string>)
    ensures forall p :: p in NonEmpty(ps) <==> p in ps && p != []
  {
    if ps != [] {
      NonEmptyIs(ps[1..]);
      assert forall p :: p in ps <==> p == ps[0] || p in ps[1..];
    }
  }

  lemma RunsFree(s: string, sep: char)
    ensures forall p :: p in Runs(s, sep) ==> p != [] && sep !in p
  {
    SplitFree(s, sep);
    NonEmptyIs(Split(s, sep));
  }

  lemma {:induction false} SplitOne(a: string, sep: char)
    requires sep !in a
    ensures Split(a, sep) == [a]
  {
    if a != [] {
      assert a[0] in a;
      SplitOne(a[1..], sep);
      assert [a[0]] + a[1..] == a;
    }
  }

  lemma {:induction false} SplitCons(a: string, sep: char, b: string)
    requires sep !in a
    ensures Split(a + [sep] + b, sep) == [a] + Split(b, sep)
  {
    var s := a + [sep] + b;
    if a == [] {
      assert s[1..] == b;
    } else {
      assert a[0] in a && s[0] == a[0];
      assert s[1..] == a[1..] + [sep] + b;
      SplitCons(a[1..], sep, b);
      assert [a[0]] + a[1..] == a;
    }
  }

  lemma {:induction false} SplitConcat(a: string, sep: char, b: string)
    ensures Split(a + [sep] + b, sep) == Split(a, sep) + Split(b, sep)
  {
    var s := a + [sep] + b;
    if a == [] {
      assert s[1..] == b;
    } else {
      assert s[0] == a[0] && s[1..] == a[1..] + [sep] + b;
      SplitConcat(a[1..], sep, b);
    }
  }

  lemma {:induction false} SplitJoin(ps: seq<string>, sep: char)
    requires ps != [] && forall p :: p in ps ==> sep !in p
    ensures Split(Join(ps, sep), sep) == ps
  {
    assert ps[0] in ps;
    if |ps| == 1 {
      SplitOne(ps[0], sep);
    } else {
      SplitJoin(ps[1..], sep);
      SplitCons(ps[0], sep, Join(ps[1..], sep));
    }
  }

  lemma {:induction false} JoinFree(ps: seq<string>, sep: char, c: char)
    requires c != sep && forall p :: p in ps ==> c !in p
    ensures c !in Join(ps, sep)
  {
    if ps != [] {
      assert ps[0] in ps;
      if |ps| > 1 {
        assert forall p :: p in ps[1..] ==> p in ps;
        JoinFree(ps[1..], sep, c);
      }
    }
  }

  lemma {:induction false} NonEmptyAll(ps: seq<string>)
    requires forall p :: p in ps ==> p != []
    ensures NonEmpty(ps) == ps
  {
    if ps != [] {
      assert ps[0] in ps;
      assert forall p :: p in ps[1..] ==> p in ps;
      NonEmptyAll(ps[1..]);
    }
  }

  lemma {:induction false} RunsJoin(ps: seq<string>, sep: char)
    requires forall p :: p in ps ==> p != [] && sep !in p
    ensures Runs(Join(ps, sep), sep) == ps
  {
    if ps == [] {
      assert Split([], sep) == [[]] && NonEmpty([[]]) == [] + NonEmpty([]);
    } else {
      SplitJoin(ps, sep);
      NonEmptyAll(ps);
    }
  }

  /** A sep-free body bordered by separators (or the ends) is one of the pieces. */
  lemma {:induction false} PieceOf(p: string, body: string, q: string, sep: char)
    requires sep !in body
    requires p == [] || p[|p| - 1] == sep
    requires q == [] || q[0] == sep
    ensures body in Split(p + body + q, sep)
  {
    if p == [] {
      if q == [] {
        assert p + body + q == body;
        SplitOne(body, sep);
      } else {
        assert p + body + q == body + [sep] + q[1..];
        SplitCons(body, sep, q[1..]);
      }
    } else {
      var i := Find(p, sep);
      FindFirst(p, sep);
      hide Split, Find;
      assert i < |p| by { assert p[|p| - 1] in p; }
      var tail := p[i + 1..];
      assert tail == [] || tail[|tail| - 1] == sep;
      PieceOf(tail, body, q, sep);
      assert p + body + q == p[..i] + [sep] + (tail + body + q);
      SplitCons(p[..i], sep, tail + body + q);
    }
  }

  /** One step of Split: cut at the first separator. */
  lemma SplitStep(s: string, sep: char)
    ensures Find(s, sep) == |s| ==> Split(s, sep) == [s]
    ensures Find(s, sep) < |s| ==>
      Split(s, sep) == [s[..Find(s, sep)]] + Split(s[Find(s, sep) + 1..], sep)
  {
    var i := Find(s, sep);
    FindFirst(s, sep);
    if i == |s| {
      SplitOne(s, sep);
    } else {
      assert s == s[..i] + [sep] + s[i + 1..];
      SplitCons(s[..i], sep, s[i + 1..]);
    }
  }

  lemma SliceOfDrop(s: string, d: nat, lo: nat, hi: nat)
    requires d <= |s| && lo <= hi <= |s| - d
    ensures s[d..][lo..hi] == s[d + lo..d + hi]
    ensures lo > 0 ==> s[d..][lo - 1] == s[d + lo - 1]
    ensures hi < |s| - d ==> s[d..][hi] == s[d + hi]
  {
  }

  /** Conversely every piece sits at some offset between separators (or the ends). */
  lemma {:induction false} PieceAt(s: string, body: string, sep: char) returns (j: nat)
    requires body in Split(s, sep)
    ensures j + |body| <= |s| && s[j..j + |body|] == body
    ensures j == 0 || s[j - 1] == sep
    ensures j + |body| == |s| || s[j + |body|] == sep
  {
    SplitStep(s, sep);
    FindFirst(s, sep);
    hide Split, Find;
    var i := Find(s, sep);
    if i == |s| {
      j := 0;
    } else {
      var tail := s[i + 1..];
      if body == s[..i] {
        j := 0;
      } else {
        assert body in Split(tail, sep);
        var k := PieceAt(tail, body, sep);
        j := i + 1 + k;
        SliceOfDrop(s, i + 1, k, k + |body|);
      }
    }
  }
}
