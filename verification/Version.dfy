/** Decimal numbers as strconv reads and fmt prints them, and the version
    strings of the mesh preflight. */
module Version {
  import opened Text

  const MAX_INT := 0x7FFF_FFFF_FFFF_FFFF

  predicate IsDigit(c: char) {
    '0' <= c <= '9'
  }

  predicate AllDigits(s: string) {
    forall i :: 0 <= i < |s| ==> IsDigit(s[i])
  }

  function Value(s: string): nat
    requires AllDigits(s)
  {
    if s == "" then 0 else Value(s[..|s| - 1]) * 10 + (s[|s| - 1] - '0') as nat
  }

  /** %d for a non-negative number. */
  function Print(n: nat): (s: string)
    ensures s != "" && AllDigits(s)
  {
    (if n < 10 then "" else Print(n / 10)) + ['0' + (n % 10) as char]
  }

  lemma {:induction false} ValuePrint(n: nat)
    ensures Value(Print(n)) == n
  {
    var s := Print(n);
    assert s[..|s| - 1] == if n < 10 then "" else Print(n / 10);
    if n >= 10 { ValuePrint(n / 10); }
  }

  /** Base ten, read from left to right: */
  lemma {:induction false} ValueOfConcat(a: string, b: string)
    requires AllDigits(a) && AllDigits(b)
    ensures Value(a + b) == Value(a) * TenTo(|b|) + Value(b)
  {
    if b == "" {
      assert a + b == a;
    } else {
      var init, last := b[..|b| - 1], b[|b| - 1];
      assert (a + b)[..|a + b| - 1] == a + init && (a + b)[|a + b| - 1] == last;
      ValueOfConcat(a, init);
      assert Value(a + b) == Value(a + init) * 10 + (last - '0') as nat;
      assert Value(b) == Value(init) * 10 + (last - '0') as nat;
      Shift(Value(a), TenTo(|init|), Value(init));
    }
  }

  lemma Shift(a: nat, t: nat, b: nat)
    ensures (a * t + b) * 10 == a * (t * 10) + b * 10
  {
  }

  lemma ValueOfDigit(c: char)
    requires IsDigit(c)
    ensures Value([c]) == c as int - '0' as int
  {
    assert [c][..0] == "" && Value("") == 0;
  }

  function TenTo(k: nat): nat {
    if k == 0 then 1 else TenTo(k - 1) * 10
  }

  /** and Print writes the one numeral without a leading zero. */
  lemma {:induction false} PrintOfValue(s: string)
    requires AllDigits(s) && s != "" && (|s| == 1 || s[0] != '0')
    ensures Print(Value(s)) == s
    ensures s[0] != '0' ==> Value(s) > 0
  {
    var init, last := s[..|s| - 1], s[|s| - 1];
    assert s == init + [last] && AllDigits(init) && IsDigit(last);
    ValueSnoc(init, last);
    PrintStep(Value(init), last);
    hide *;
    if init != "" {
      assert init[0] == s[0];
      PrintOfValue(init);
    }
  }

  lemma ValueSnoc(init: string, c: char)
    requires AllDigits(init) && IsDigit(c)
    ensures Value(init + [c]) == Value(init) * 10 + (c - '0') as nat && (init == "" ==> Value(init) == 0)
  {
    assert (init + [c])[..|init|] == init;
  }

  lemma PrintStep(n: nat, c: char)
    requires IsDigit(c)
    ensures Print(n * 10 + (c - '0') as nat) == (if n == 0 then "" else Print(n)) + [c]
  {
    var d := (c - '0') as nat;
    assert (n * 10 + d) / 10 == n && (n * 10 + d) % 10 == d;
    assert '0' + d as char == c;
  }

  datatype Version = Version(major: nat, minor: nat, patch: nat)

  function ToString(v: Version): string {
    Print(v.major) + "." + Print(v.minor) + "." + Print(v.patch)
  }

  function DigitRun(s: string): (n: nat)
    ensures n <= |s| && AllDigits(s[..n]) && (n < |s| ==> !IsDigit(s[n]))
  {
    if s == "" || !IsDigit(s[0]) then 0
    else
      var n := DigitRun(s[1..]);
      assert s[..n + 1] == [s[0]] + s[1..][..n];
      n + 1
  }

  /** atoiPrefix: the number, and whether there is one that fits an int. */
  function AtoiPrefix(s: string): (nat, bool) {
    var n := DigitRun(s);
    if n == 0 || Value(s[..n]) > MAX_INT then (0, false) else (Value(s[..n]), true)
  }

  method AtoiPrefixLoop(s: string) returns (n: nat, ok: bool)
    ensures (n, ok) == AtoiPrefix(s)
  {
    var end := 0;
    while end < |s| && IsDigit(s[end])
      invariant end <= |s| && DigitRun(s) == end + DigitRun(s[end..])
    {
      assert s[end..][1..] == s[end + 1..];
      end := end + 1;
    }
    if end == 0 { return 0, false; }
    if Value(s[..end]) > MAX_INT { return 0, false; }
    return Value(s[..end]), true;
  }

  /** strings.SplitN(s, ".", 3), as head, middle and tail; |parts| is 1 to 3. */
  function SplitDots(s: string): seq<string> {
    var i := Find(s, '.');
    if i == |s| then [s]
    else
      var rest := s[i + 1..];
      var j := Find(rest, '.');
      if j == |rest| then [s[..i], rest] else [s[..i], rest[..j], rest[j + 1..]]
  }

  function ParseVersion(s: string): Version {
    var parts := SplitDots(TrimLead(s));
    if |parts| < 2 then Version(0, 0, 0)
    else
      var (major, ok) := AtoiPrefix(parts[0]);
      var (minor, ok') := AtoiPrefix(parts[1]);
      if !ok || !ok' then Version(0, 0, 0)
      else Version(major, minor, if |parts| == 3 then AtoiPrefix(parts[2]).0 else 0)
  }

  lemma {:induction false} RunOfDigits(d: string, rest: string)
    requires AllDigits(d) && (rest == "" || !IsDigit(rest[0]))
    ensures DigitRun(d + rest) == |d|
  {
    if d == "" {
      assert d + rest == rest;
    } else {
      assert (d + rest)[1..] == d[1..] + rest;
      RunOfDigits(d[1..], rest);
    }
  }

  lemma PrintedPrefix(n: nat, rest: string)
    requires rest == "" || !IsDigit(rest[0])
    ensures AtoiPrefix(Print(n) + rest) == if n <= MAX_INT then (n, true) else (0, false)
  {
    RunOfDigits(Print(n), rest);
    ValuePrint(n);
    assert (Print(n) + rest)[..|Print(n)|] == Print(n);
  }

  lemma SplitPrinted(a: string, b: string, rest: string)
    requires AllDigits(a) && AllDigits(b)
    ensures SplitDots(a + "." + (b + "." + rest)) == [a, b, rest]
  {
    var t, tail := a + "." + (b + "." + rest), b + "." + rest;
    assert '.' !in a && '.' !in b;
    FindIs(a, '.', tail);
    FindIs(b, '.', rest);
    assert t[..|a|] == a && t[|a| + 1..] == tail;
    assert tail[..|b|] == b && tail[|b| + 1..] == rest;
  }

  function TrimLead(s: string): string {
    if "v" <= s then s[1..] else s
  }

  lemma LeadDropped(lead: string, t: string)
    requires (lead == "" || lead == "v") && t != "" && IsDigit(t[0])
    ensures TrimLead(lead + t) == t
  {
    var s := lead + t;
    if lead == "" { assert s == t; } else { assert s[..1] == "v" && s[1..] == t; }
  }

  /** Parsing a printed version, with or without the leading v and with any
      suffix that does not start with a digit, returns it exactly when every
      component fits Go's int. */
  lemma ParsePrinted(v: Version, lead: string, suffix: string)
    requires (lead == "" || lead == "v") && (suffix == "" || !IsDigit(suffix[0]))
    ensures ParseVersion(lead + ToString(v) + suffix) == v <==>
      v.major <= MAX_INT && v.minor <= MAX_INT && v.patch <= MAX_INT
  {
    hide Print, SplitDots, AtoiPrefix, TrimLead, Value;
    var a, b, c := Print(v.major), Print(v.minor), Print(v.patch);
    var t := a + "." + (b + "." + (c + suffix));
    assert lead + ToString(v) + suffix == lead + t;
    assert t[0] == a[0];
    LeadDropped(lead, t);
    SplitPrinted(a, b, c + suffix);
    PrintedPrefix(v.major, "");
    PrintedPrefix(v.minor, "");
    PrintedPrefix(v.patch, suffix);
    assert a + "" == a && b + "" == b;
  }

  /** Any version with a dot: each component counts up to its first non-digit, a
      missing or unreadable patch is 0, and without a readable major and minor
      there is no version. */
  lemma ParseComponents(lead: string, a: string, x: string, b: string, y: string, tail: string)
    requires lead == "" || lead == "v"
    requires AllDigits(a) && AllDigits(b) && '.' !in x && '.' !in y
    requires (x == "" || !IsDigit(x[0])) && (y == "" || !IsDigit(y[0])) && (tail == "" || tail[0] == '.')
    requires lead == "" && a == "" ==> x == "" || x[0] != 'v'
    ensures var v := ParseVersion(lead + (a + x + "." + (b + y + tail)));
      if a == "" || b == "" || Value(a) > MAX_INT || Value(b) > MAX_INT then v == Version(0, 0, 0)
      else v.major == Value(a) && v.minor == Value(b) && PatchIs(v.patch, tail)
  {
    hide TrimLead, SplitDots, AtoiPrefix, PatchIs, Value;
    var s := a + x + "." + (b + y + tail);
    assert b + y + tail == (b + y) + tail && '.' !in a && '.' !in b;
    LeadTrimmed(lead, s);
    PrefixParsed(a, x);
    PrefixParsed(b, y);
    PatchParsed(tail);
    ComponentsSplit(a + x, b + y, tail);
  }

  lemma LeadTrimmed(lead: string, s: string)
    requires (lead == "" || lead == "v") && s != "" && (lead == "" ==> s[0] != 'v')
    ensures TrimLead(lead + s) == s
  {
    if lead == "" { assert lead + s == s; } else { assert (lead + s)[..1] == "v"; }
  }

  lemma ComponentsSplit(head: string, middle: string, tail: string)
    requires '.' !in head && '.' !in middle && (tail == "" || tail[0] == '.')
    ensures SplitDots(head + "." + (middle + tail)) == [head, middle] + if tail == "" then [] else [tail[1..]]
  {
    var s, rest := head + "." + (middle + tail), middle + tail;
    FindIs(head, '.', rest);
    assert s[..|head|] == head && s[|head| + 1..] == rest;
    if tail == "" {
      assert rest == middle;
      FindFirst(middle, '.');
    } else {
      assert rest == middle + "." + tail[1..];
      FindIs(middle, '.', tail[1..]);
      assert rest[..|middle|] == middle && rest[|middle| + 1..] == tail[1..];
    }
  }

  /** The digits behind the second dot, 0 when there are none or too many. */
  ghost predicate PatchIs(patch: nat, tail: string) {
    if tail == "" then patch == 0
    else exists n :: 0 <= n < |tail| && NumberAt(tail[1..], n, patch)
  }

  ghost predicate NumberAt(s: string, n: nat, value: nat) {
    && n <= |s| && AllDigits(s[..n]) && (n < |s| ==> !IsDigit(s[n]))
    && value == if Value(s[..n]) > MAX_INT then 0 else Value(s[..n])
  }

  lemma PatchParsed(tail: string)
    ensures PatchIs(if tail == "" then 0 else AtoiPrefix(tail[1..]).0, tail)
  {
    if tail != "" {
      var n := DigitRun(tail[1..]);
      assert NumberAt(tail[1..], n, AtoiPrefix(tail[1..]).0);
    }
  }

  lemma PrefixParsed(a: string, x: string)
    requires AllDigits(a) && (x == "" || !IsDigit(x[0]))
    ensures AtoiPrefix(a + x) == if a == "" || Value(a) > MAX_INT then (0, false) else (Value(a), true)
  {
    RunOfDigits(a, x);
    assert (a + x)[..|a|] == a;
  }

  /** Without a dot there is no version. */
  lemma ParseUndotted(s: string)
    requires '.' !in s
    ensures ParseVersion(s) == Version(0, 0, 0)
  {
    FindFirst(TrimLead(s), '.');
  }
}
