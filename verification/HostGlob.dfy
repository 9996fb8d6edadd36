/** Hostname globs compiled to Lua patterns (hostnameGlobToLuaPattern and
    luaPatternEscape), under the matcher of Lua's string.match. */
module HostGlob {
  import opened Text

  // ----- Lua patterns --------------------------------------------------------------

  /** %a, %d and so on; an upper-case letter is the complement, any other
      character after % stands for itself. */
  predicate EscapeClass(c: char, k: char) {
    match LowerChar(k)
    case 'a' => IsAlpha(c) != ('A' <= k <= 'Z')
    case 'd' => ('0' <= c <= '9') != ('A' <= k <= 'Z')
    case 'l' => ('a' <= c <= 'z') != ('A' <= k <= 'Z')
    case 'u' => ('A' <= c <= 'Z') != ('A' <= k <= 'Z')
    case 's' => LuaSpace(c) != ('A' <= k <= 'Z')
    case 'w' => (IsAlpha(c) || '0' <= c <= '9') != ('A' <= k <= 'Z')
    case 'x' => ('0' <= c <= '9' || 'a' <= LowerChar(c) <= 'f') != ('A' <= k <= 'Z')
    case 'c' => (c < ' ' || c == '\U{7F}') != ('A' <= k <= 'Z')
    case 'z' => (c == '\0') != ('A' <= k <= 'Z')
    case 'p' => ('!' <= c <= '~' && !IsAlpha(c) && !('0' <= c <= '9')) != ('A' <= k <= 'Z')
    case _ => c == k
  }

  predicate IsAlpha(c: char) {
    'a' <= LowerChar(c) <= 'z'
  }

  /** The index after the ']' that closes a set; the character at i is not yet
      part of the set's end when first holds. 0 stands for a malformed set. */
  function SetEnd(p: string, i: nat, first: bool): (n: nat)
    ensures n <= |p|
    decreases |p| - i
  {
    if i >= |p| then 0
    else if p[i] == ']' && !first then i + 1
    else if p[i] == '%' && i + 1 < |p| then SetEnd(p, i + 2, false)
    else SetEnd(p, i + 1, false)
  }

  /** The length of the single-character item p starts with, 0 when malformed. */
  function ItemLen(p: string): (n: nat)
    requires p != ""
    ensures n <= |p|
  {
    if p[0] == '%' then (if |p| < 2 then 0 else 2)
    else if p[0] == '[' then SetEnd(p, if |p| > 1 && p[1] == '^' then 2 else 1, true)
    else 1
  }

  /** matchbracketclass, from position i up to the closing bracket at end. */
  predicate InSet(c: char, p: string, i: nat, end: nat)
    requires end < |p|
    decreases |p| - i
  {
    if i >= end then false
    else if p[i] == '%' then EscapeClass(c, p[i + 1]) || InSet(c, p, i + 2, end)
    else if i + 2 < end && p[i + 1] == '-' then p[i] <= c <= p[i + 2] || InSet(c, p, i + 3, end)
    else p[i] == c || InSet(c, p, i + 1, end)
  }

  predicate ItemMatches(c: char, item: string)
    requires item != ""
  {
    if item[0] == '.' then true
    else if item[0] == '%' && |item| == 2 then EscapeClass(c, item[1])
    else if item[0] == '[' && |item| > 1 then
      if item[1] == '^' then !InSet(c, item, 2, |item| - 1) else InSet(c, item, 1, |item| - 1)
    else item[0] == c
  }

  /** p matches at the start of s. Captures only record positions; balanced
      matches, frontiers and back references (%b, %f, %1) are not modelled. */
  predicate MatchHere(s: string, p: string)
    decreases |p|, |s|, 0
  {
    if p == "" then true
    else if p[0] == '(' || p[0] == ')' then MatchHere(s, p[1..])
    else if p == "$" then s == ""
    else if p[0] == '%' && |p| > 1 && (p[1] == 'b' || p[1] == 'f' || '0' <= p[1] <= '9') then false
    else
      var n := ItemLen(p);
      if n == 0 then false
      else
        var item, rest := p[..n], p[n..];
        var hit := s != "" && ItemMatches(s[0], item);
        if rest != "" && rest[0] == '?' then (hit && MatchHere(s[1..], rest[1..])) || MatchHere(s, rest[1..])
        else if rest != "" && rest[0] == '+' then hit && Repeat(s[1..], item, rest[1..])
        else if rest != "" && (rest[0] == '*' || rest[0] == '-') then Repeat(s, item, rest[1..])
        else hit && MatchHere(s[1..], rest)
  }

  /** Some number of items, then the rest of the pattern. */
  predicate Repeat(s: string, item: string, rest: string)
    requires item != ""
    decreases |rest|, |s|, 1
  {
    MatchHere(s, rest) || (s != "" && ItemMatches(s[0], item) && Repeat(s[1..], item, rest))
  }

  /** string.match(s, p) finds something. */
  predicate LuaMatch(s: string, p: string) {
    if p != "" && p[0] == '^' then MatchHere(s, p[1..])
    else exists i :: 0 <= i <= |s| && MatchHere(s[i..], p)
  }

  // ----- The compiler ------------------------------------------------------------------

  predicate Magic(c: char) {
    c in "%^$().[]*+-?"
  }

  function Escape(s: string): string {
    if s == "" then ""
    else (if Magic(s[0]) then ['%', s[0]] else [s[0]]) + Escape(s[1..])
  }

  function GlobPattern(glob: string): string {
    if "*." <= glob then "^[^.]+%." + Escape(glob[2..]) + "$"
    else "^" + Escape(glob) + "$"
  }

  /** What the CRD promises: a leading "*." stands for one subdomain label. */
  predicate GlobAccepts(glob: string, host: string) {
    if "*." <= glob then exists i :: 0 < i < |host| && LabelThen(host, i, glob[2..])
    else host == glob
  }

  predicate LabelThen(host: string, i: nat, rest: string) {
    i < |host| && '.' !in host[..i] && host[i] == '.' && host[i + 1..] == rest
  }

  // ----- Meaning is kept ---------------------------------------------------------------

  lemma NotQuantified(t: string)
    ensures var p := Escape(t) + "$"; p != "" && p[0] !in "?+*-"
  {
  }

  /** An item without a quantifier consumes one character. */
  lemma PlainItem(s: string, p: string, n: nat)
    requires p != "" && p[0] != '(' && p[0] != ')' && p != "$"
    requires p[0] == '%' && |p| > 1 ==> p[1] != 'b' && p[1] != 'f' && !('0' <= p[1] <= '9')
    requires ItemLen(p) == n && 0 < n < |p| && p[n] !in "?+*-"
    ensures MatchHere(s, p) <==> s != "" && ItemMatches(s[0], p[..n]) && MatchHere(s[1..], p[n..])
  {
    var rest := p[n..];
    assert rest[0] == p[n];
    assert rest[0] != '?' && rest[0] != '+' && rest[0] != '*' && rest[0] != '-';
  }

  /** One escaped or plain character matches itself and nothing else. */
  lemma LiteralStep(s: string, c: char, tail: string)
    requires tail != "" && tail[0] !in "?+*-"
    ensures MatchHere(s, (if Magic(c) then ['%', c] else [c]) + tail) <==>
      s != "" && s[0] == c && MatchHere(s[1..], tail)
  {
    hide MatchHere;
    if Magic(c) {
      var p := ['%', c] + tail;
      assert p[..2] == ['%', c] && p[2..] == tail && p[2] == tail[0];
      MagicClass(c);
      PlainItem(s, p, 2);
      assert forall x :: ItemMatches(x, p[..2]) <==> x == c;
    } else {
      var p := [c] + tail;
      assert p[..1] == [c] && p[1..] == tail && p[1] == tail[0];
      assert c != '%' && c != '[' && c != '.' && c != '(' && c != ')' && c != '$';
      PlainItem(s, p, 1);
      assert forall x :: ItemMatches(x, p[..1]) <==> x == c;
    }
  }

  lemma MagicClass(c: char)
    requires Magic(c)
    ensures c != 'b' && c != 'f' && !('0' <= c <= '9') && forall x :: EscapeClass(x, c) <==> x == c
  {
    assert c <= '?' || c == '[' || c == ']' || c == '^';
  }

  /** An escaped literal followed by $ matches exactly that literal. */
  lemma {:induction false} LiteralTail(s: string, t: string)
    ensures MatchHere(s, Escape(t) + "$") <==> s == t
  {
    if t == "" {
      assert Escape(t) + "$" == "$";
    } else {
      var c, tail := t[0], Escape(t[1..]) + "$";
      NotQuantified(t[1..]);
      assert Escape(t) + "$" == (if Magic(c) then ['%', c] else [c]) + tail;
      hide MatchHere;
      LiteralStep(s, c, tail);
      if s != "" {
        LiteralTail(s[1..], t[1..]);
        assert s == [s[0]] + s[1..] && t == [c] + t[1..];
      }
    }
  }

  const LABEL := "[^.]"

  lemma LabelItem(c: char)
    ensures ItemMatches(c, LABEL) <==> c != '.'
  {
    assert InSet(c, LABEL, 3, 3) == false;
    assert InSet(c, LABEL, 2, 3) == (LABEL[2] == c || InSet(c, LABEL, 3, 3));
  }

  lemma DotThen(s: string, rest: string)
    ensures MatchHere(s, "%." + Escape(rest) + "$") <==> s != "" && s[0] == '.' && s[1..] == rest
  {
    var tail := Escape(rest) + "$";
    var p := "%." + Escape(rest) + "$";
    NotQuantified(rest);
    assert p == "%." + tail && p[..2] == "%." && p[2..] == tail && p != "$";
    if s != "" { LiteralTail(s[1..], rest); }
  }

  lemma {:induction false} LabelRun(s: string, rest: string)
    ensures Repeat(s, LABEL, "%." + Escape(rest) + "$") <==> exists i :: 0 <= i < |s| && LabelThen(s, i, rest)
  {
    DotThen(s, rest);
    if s != "" {
      LabelItem(s[0]);
      LabelRun(s[1..], rest);
      if i :| 0 <= i < |s[1..]| && LabelThen(s[1..], i, rest) && s[0] != '.' {
        assert s[..i + 1] == [s[0]] + s[1..][..i] && s[i + 2..] == s[1..][i + 1..];
        assert LabelThen(s, i + 1, rest);
      }
      if i :| 0 <= i < |s| && LabelThen(s, i, rest) {
        if i > 0 {
          assert s[0] in s[..i] && s[..i] == [s[0]] + s[1..][..i - 1] && s[i + 1..] == s[1..][i..];
          assert LabelThen(s[1..], i - 1, rest);
        } else {
          assert s[..0] == "";
        }
      }
      if s[0] == '.' && s[1..] == rest { assert LabelThen(s, 0, rest); }
    }
  }

  /** For every glob and host, Lua matches the compiled pattern exactly when the
      glob accepts the host. */
  lemma CompiledGlobIsExact(glob: string, host: string)
    ensures LuaMatch(host, GlobPattern(glob)) <==> GlobAccepts(glob, host)
  {
    hide Escape, LabelThen;
    if "*." <= glob {
      var rest := glob[2..];
      var tail := "%." + Escape(rest) + "$";
      var p := GlobPattern(glob)[1..];
      assert p == LABEL + "+" + tail;
      assert p[..4] == LABEL && p[4..] == "+" + tail && p[4..][1..] == tail;
      assert SetEnd(p, 3, false) == 4;
      if host != "" {
        LabelItem(host[0]);
        LabelRun(host[1..], rest);
        WildcardSplit(host, rest);
      }
    } else {
      assert GlobPattern(glob)[1..] == Escape(glob) + "$";
      LiteralTail(host, glob);
    }
  }

  lemma WildcardSplit(host: string, rest: string)
    requires host != ""
    ensures (host[0] != '.' && exists i :: 0 <= i < |host[1..]| && LabelThen(host[1..], i, rest)) <==>
      exists i :: 0 < i < |host| && LabelThen(host, i, rest)
  {
    if i :| 0 <= i < |host[1..]| && LabelThen(host[1..], i, rest) && host[0] != '.' {
      assert host[..i + 1] == [host[0]] + host[1..][..i] && host[i + 2..] == host[1..][i + 1..];
      assert LabelThen(host, i + 1, rest);
    }
    if i :| 0 < i < |host| && LabelThen(host, i, rest) {
      assert host[0] in host[..i] && host[..i] == [host[0]] + host[1..][..i - 1] && host[i + 1..] == host[1..][i..];
      assert LabelThen(host[1..], i - 1, rest);
    }
  }
}
