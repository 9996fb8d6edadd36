/** The widget's multi-tier cookie value (cookieStore.ts). A JavaScript Map is
    the sequence of its entries in insertion order. */
module CookieStore {
  import opened Text
  import opened Wire

  type Entries = seq<Member>

  /** Map.set: a known key keeps its place, a new one goes last. */
  function Set(m: Entries, key: string, val: string): Entries {
    if m == [] then [Member(key, val)]
    else if m[0].key == key then [Member(key, val)] + m[1..]
    else [m[0]] + Set(m[1..], key, val)
  }

  function ParseParts(parts: seq<string>): Entries {
    if parts == [] then []
    else
      var p := parts[|parts| - 1];
      var out := ParseParts(parts[..|parts| - 1]);
      match KeyVal(p, ':')
      case None => out
      case Some(e) => if e.key != "" then Set(out, e.key, e.val) else out
  }

  function Parse(raw: string): Entries {
    ParseParts(Split(raw, '|'))
  }

  function Serialize(m: Entries): string {
    Join(Pairs(m, ':'), '|')
  }

  predicate CleanEntry(e: Member) {
    e.key != "" && ':' !in e.key && '|' !in e.key && '|' !in e.val
  }

  /** The maps the wire format can carry; ParseRange shows they are exactly
      those that Parse returns. */
  predicate Clean(m: Entries) {
    DistinctKeys(m) && forall e :: e in m ==> CleanEntry(e)
  }

  // ----- The loops of the source ------------------------------------------

  method ParseCookie(raw: string) returns (out: Entries)
    ensures out == Parse(raw)
  {
    out := [];
    if raw == "" {
      assert Split(raw, '|') == [[]] && ParseParts([[]]) == ParseParts([]);
      return;
    }
    var parts := Split(raw, '|');
    for i := 0 to |parts|
      invariant out == ParseParts(parts[..i])
    {
      assert parts[..i + 1][..i] == parts[..i];
      match KeyVal(parts[i], ':') {
        case None =>
        case Some(e) =>
          if e.key != "" { out := Set(out, e.key, e.val); }
      }
    }
    assert parts[..|parts|] == parts;
  }

  method SerializeEntries(entries: Entries) returns (raw: string)
    ensures raw == Serialize(entries)
  {
    var parts: seq<string> := [];
    for i := 0 to |entries|
      invariant parts == Pairs(entries, ':')[..i]
    {
      parts := parts + [entries[i].key + ":" + entries[i].val];
    }
    assert parts == Pairs(entries, ':');
    raw := Join(parts, '|');
  }

  // ----- What Set does ------------------------------------------------------

  function Without(m: Entries, key: string): Entries {
    if m == [] then []
    else (if m[0].key == key then [] else [m[0]]) + Without(m[1..], key)
  }

  lemma {:induction false} SetMembers(m: Entries, key: string, val: string)
    requires DistinctKeys(m)
    ensures forall e :: e in Set(m, key, val) <==> e == Member(key, val) || (e in m && e.key != key)
  {
    if m != [] {
      var t, r := m[1..], Set(m, key, val);
      assert forall e :: e in m <==> e == m[0] || e in t;
      assert forall e :: e in r <==> e == r[0] || e in r[1..];
      if m[0].key == key {
        assert r[1..] == t;
      } else {
        SetMembers(t, key, val);
        assert r[1..] == Set(t, key, val);
      }
    }
  }

  lemma {:induction false} SetPlaces(m: Entries, key: string, val: string)
    requires DistinctKeys(m)
    ensures |m| <= |Set(m, key, val)| <= |m| + 1
    ensures forall i :: 0 <= i < |m| ==> Set(m, key, val)[i].key == m[i].key
    ensures |Set(m, key, val)| > |m| ==>
      Set(m, key, val)[|m|].key == key && forall i :: 0 <= i < |m| ==> m[i].key != key
    ensures DistinctKeys(Set(m, key, val))
  {
    if m != [] {
      var t, r := m[1..], Set(m, key, val);
      if m[0].key != key {
        SetPlaces(t, key, val);
        forall i | 0 <= i < |m| ensures r[i].key == m[i].key {
          if i > 0 { assert r[i] == Set(t, key, val)[i - 1] && m[i] == t[i - 1]; }
        }
        if |r| > |m| {
          forall i | 0 <= i < |m| ensures m[i].key != key {
            if i > 0 { assert m[i] == t[i - 1]; }
          }
        }
      }
    }
  }

  lemma {:induction false} SetWithout(m: Entries, key: string, val: string)
    requires DistinctKeys(m)
    ensures Without(Set(m, key, val), key) == Without(m, key)
  {
    if m != [] {
      var r := Set(m, key, val);
      if m[0].key == key {
        assert r[1..] == m[1..];
      } else {
        SetWithout(m[1..], key, val);
        assert r[1..] == Set(m[1..], key, val);
      }
    }
  }

  /** Only the one key changes: it now maps to val, keeps its place if it had
      one, and all other entries stay, in order. */
  lemma SetChangesOneKey(m: Entries, key: string, val: string)
    requires DistinctKeys(m)
    ensures var r := Set(m, key, val);
      && DistinctKeys(r)
      && (forall e :: e in r <==> e == Member(key, val) || (e in m && e.key != key))
      && Without(r, key) == Without(m, key)
      && |m| <= |r| && (forall i :: 0 <= i < |m| ==> r[i].key == m[i].key)
  {
    SetMembers(m, key, val);
    SetPlaces(m, key, val);
    SetWithout(m, key, val);
  }

  // ----- What a value means, well formed or not ---------------------------------------------

  /** The part sets this key: everything up to its first colon, and not nothing. */
  predicate SetsKey(part: string, key: string) {
    key != "" && ':' !in key && key + ":" <= part
  }

  /** Part i is the last to set e's key, and sets it to e's value. */
  predicate LastSets(parts: seq<string>, i: nat, e: Member) {
    && i < |parts| && SetsKey(parts[i], e.key) && e.val == parts[i][|e.key| + 1..]
    && forall j :: i < j < |parts| ==> !SetsKey(parts[j], e.key)
  }

  ghost predicate StoodLast(parts: seq<string>, e: Member) {
    exists i: nat :: LastSets(parts, i, e)
  }

  predicate FirstSets(parts: seq<string>, i: nat, key: string) {
    i < |parts| && SetsKey(parts[i], key) && forall j :: 0 <= j < i ==> !SetsKey(parts[j], key)
  }

  lemma SetsKeyIs(part: string, key: string)
    ensures SetsKey(part, key) <==> key != "" && KeyVal(part, ':').Some? && KeyVal(part, ':').value.key == key
    ensures SetsKey(part, key) ==> KeyVal(part, ':').value.val == part[|key| + 1..]
  {
    KeyValCut(part, ':');
    if SetsKey(part, key) {
      var val := part[|key| + 1..];
      assert part == key + ":" + val;
      KeyValOf(key, ':', val);
    }
    if KeyVal(part, ':').Some? && KeyVal(part, ':').value.key == key {
      assert part == key + ":" + KeyVal(part, ':').value.val;
    }
  }

  lemma {:induction false} PartsDistinct(parts: seq<string>)
    ensures DistinctKeys(ParseParts(parts))
  {
    if parts != [] {
      PartsDistinct(parts[..|parts| - 1]);
      match KeyVal(parts[|parts| - 1], ':')
      case None =>
      case Some(e) => SetPlaces(ParseParts(parts[..|parts| - 1]), e.key, e.val);
    }
  }

  lemma StoodLastStep(parts: seq<string>, e: Member)
    requires parts != []
    ensures var init, p := parts[..|parts| - 1], parts[|parts| - 1];
      StoodLast(parts, e) <==>
        if SetsKey(p, e.key) then e.val == p[|e.key| + 1..] else StoodLast(init, e)
  {
    var n := |parts| - 1;
    var init, p := parts[..n], parts[n];
    assert forall j :: 0 <= j < n ==> init[j] == parts[j];
    if SetsKey(p, e.key) {
      if e.val == p[|e.key| + 1..] { assert LastSets(parts, n, e); }
    } else {
      if i: nat :| LastSets(init, i, e) { assert LastSets(parts, i, e); }
      if i: nat :| LastSets(parts, i, e) { assert LastSets(init, i, e); }
    }
  }

  lemma EntryStep(parts: seq<string>, e: Member)
    requires parts != []
    ensures var init, p := parts[..|parts| - 1], parts[|parts| - 1];
      e in ParseParts(parts) <==>
        if SetsKey(p, e.key) then e.val == p[|e.key| + 1..] else e in ParseParts(init)
  {
    var init, p := parts[..|parts| - 1], parts[|parts| - 1];
    SetsKeyIs(p, e.key);
    PartsDistinct(init);
    match KeyVal(p, ':')
    case None =>
    case Some(d) =>
      SetsKeyIs(p, d.key);
      if d.key != "" { SetMembers(ParseParts(init), d.key, d.val); }
  }

  /** An entry is in the map exactly when some part sets it and no later part sets
      its key again. */
  lemma {:induction false} EntryFromPart(parts: seq<string>, e: Member)
    ensures e in ParseParts(parts) <==> StoodLast(parts, e)
  {
    if parts != [] {
      hide ParseParts, StoodLast, SetsKey;
      EntryStep(parts, e);
      StoodLastStep(parts, e);
      EntryFromPart(parts[..|parts| - 1], e);
    }
  }

  /** Entries stand in the order in which their keys are first set. */
  lemma {:induction false} PlaceFromPart(parts: seq<string>, a: nat) returns (i: nat)
    requires a < |ParseParts(parts)|
    ensures FirstSets(parts, i, ParseParts(parts)[a].key)
  {
    var n := |parts| - 1;
    var init, p := parts[..n], parts[n];
    var out, key := ParseParts(init), ParseParts(parts)[a].key;
    PartsDistinct(init);
    SetsKeyIs(p, key);
    match KeyVal(p, ':') {
      case None =>
      case Some(d) => if d.key != "" { SetPlaces(out, d.key, d.val); }
    }
    if a < |out| {
      i := PlaceFromPart(init, a);
      assert forall j :: 0 <= j < i ==> init[j] == parts[j];
    } else {
      i := n;
      forall j | 0 <= j < n ensures !SetsKey(parts[j], key) {
        assert init[j] == parts[j];
        if SetsKey(init[j], key) { KeyPresent(init, j, key); }
      }
    }
  }

  /** A key that is set has a last setting. */
  lemma {:induction false} SetSomewhere(parts: seq<string>, j: nat, key: string) returns (e: Member)
    requires j < |parts| && SetsKey(parts[j], key)
    ensures e.key == key && StoodLast(parts, e)
    decreases |parts| - j
  {
    if k :| j < k < |parts| && SetsKey(parts[k], key) {
      e := SetSomewhere(parts, k, key);
    } else {
      e := Member(key, parts[j][|key| + 1..]);
      assert LastSets(parts, j, e);
    }
  }

  lemma KeyPresent(parts: seq<string>, j: nat, key: string)
    requires j < |parts| && SetsKey(parts[j], key)
    ensures exists b :: 0 <= b < |ParseParts(parts)| && ParseParts(parts)[b].key == key
  {
    var e := SetSomewhere(parts, j, key);
    EntryFromPart(parts, e);
    var b :| 0 <= b < |ParseParts(parts)| && ParseParts(parts)[b] == e;
  }

  /** What Parse makes of any value at all: each key with its last value, */
  lemma ParseMeans(raw: string)
    ensures forall e :: e in Parse(raw) <==> StoodLast(Split(raw, '|'), e)
  {
    forall e ensures e in Parse(raw) <==> StoodLast(Split(raw, '|'), e) {
      EntryFromPart(Split(raw, '|'), e);
    }
  }

  /** in the order of their first. */
  lemma ParseKeepsFirstPlaces(raw: string, a: nat, b: nat) returns (i: nat, j: nat)
    requires a < b < |Parse(raw)|
    ensures FirstSets(Split(raw, '|'), i, Parse(raw)[a].key) && FirstSets(Split(raw, '|'), j, Parse(raw)[b].key)
    ensures i < j
  {
    i, j := PlacesInOrder(Split(raw, '|'), a, b);
  }

  lemma {:induction false} PlacesInOrder(parts: seq<string>, a: nat, b: nat) returns (i: nat, j: nat)
    requires a < b < |ParseParts(parts)|
    ensures FirstSets(parts, i, ParseParts(parts)[a].key) && FirstSets(parts, j, ParseParts(parts)[b].key) && i < j
  {
    var n := |parts| - 1;
    var init, p := parts[..n], parts[n];
    var out := ParseParts(init);
    PartsDistinct(init);
    match KeyVal(p, ':') {
      case None =>
      case Some(d) => if d.key != "" { SetPlaces(out, d.key, d.val); }
    }
    i := PlaceFromPart(parts, a);
    j := PlaceFromPart(parts, b);
    var i' := PlaceFromPart(init, a);
    assert FirstSets(parts, i', ParseParts(parts)[a].key) by {
      assert forall l :: 0 <= l <= i' ==> init[l] == parts[l];
    }
    SamePlace(parts, i, i', ParseParts(parts)[a].key);
    if b < |out| {
      var x, y := PlacesInOrder(init, a, b);
      assert forall l :: 0 <= l < n ==> init[l] == parts[l];
      SamePlace(parts, i, x, ParseParts(parts)[a].key);
      SamePlace(parts, j, y, ParseParts(parts)[b].key);
    } else {
      assert j < n ==> init[j] == parts[j];
      if j < n { KeyPresent(init, j, ParseParts(parts)[b].key); }
    }
  }

  lemma SamePlace(parts: seq<string>, i: nat, j: nat, key: string)
    requires FirstSets(parts, i, key) && FirstSets(parts, j, key)
    ensures i == j
  {
  }

  // ----- Round trips ----------------------------------------------------------

  lemma {:induction false} ParsePartsClean(parts: seq<string>)
    requires forall p :: p in parts ==> '|' !in p
    ensures Clean(ParseParts(parts))
  {
    if parts != [] {
      var p, init := parts[|parts| - 1], parts[..|parts| - 1];
      assert p in parts;
      ParsePartsClean(init);
      KeyValCut(p, ':');
      match KeyVal(p, ':')
      case None =>
      case Some(e) => SetChangesOneKey(ParseParts(init), e.key, e.val);
    }
  }

  lemma {:induction false} SetNew(m: Entries, key: string, val: string)
    requires forall e :: e in m ==> e.key != key
    ensures Set(m, key, val) == m + [Member(key, val)]
  {
    if m != [] {
      assert m[0] in m;
      assert forall e :: e in m[1..] ==> e in m;
      SetNew(m[1..], key, val);
    }
  }

  lemma ParseSnoc(parts: seq<string>, e: Member)
    requires CleanEntry(e) && forall o :: o in ParseParts(parts) ==> o.key != e.key
    ensures ParseParts(parts + [e.key + ":" + e.val]) == ParseParts(parts) + [e]
  {
    var p := e.key + ":" + e.val;
    assert (parts + [p])[..|parts|] == parts;
    KeyValOf(e.key, ':', e.val);
    SetNew(ParseParts(parts), e.key, e.val);
  }

  lemma CleanInit(m: Entries)
    requires Clean(m) && m != []
    ensures var init, last := m[..|m| - 1], m[|m| - 1];
      Clean(init) && CleanEntry(last) && forall e :: e in init ==> e.key != last.key
  {
    var init, last := m[..|m| - 1], m[|m| - 1];
    forall e | e in init ensures CleanEntry(e) && e.key != last.key {
      var i :| 0 <= i < |init| && e == init[i];
      assert e == m[i] && m[i] in m;
    }
    assert last in m;
  }

  lemma {:induction false} ParsePairs(m: Entries)
    requires Clean(m)
    ensures ParseParts(Pairs(m, ':')) == m
  {
    if m != [] {
      var init, last := m[..|m| - 1], m[|m| - 1];
      CleanInit(m);
      ParsePairs(init);
      ParseSnoc(Pairs(init, ':'), last);
      assert Pairs(m, ':') == Pairs(init, ':') + [last.key + ":" + last.val];
    }
  }

  lemma ParseSerialize(m: Entries)
    requires Clean(m)
    ensures Parse(Serialize(m)) == m
  {
    if m == [] {
      assert Split([], '|') == [[]] && ParseParts([[]]) == ParseParts([]);
    } else {
      var ps := Pairs(m, ':');
      forall p | p in ps ensures '|' !in p {
        var i :| 0 <= i < |m| && p == ps[i];
        assert m[i] in m;
      }
      SplitJoin(ps, '|');
      ParsePairs(m);
    }
  }

  /** Parse reads back what Serialize wrote, order included, for exactly the
      maps in Parse's range, and that range is the clean maps. */
  lemma RoundTrip(m: Entries)
    ensures Parse(Serialize(m)) == m <==> Clean(m)
    ensures Clean(m) <==> exists raw :: Parse(raw) == m
  {
    forall raw ensures Clean(Parse(raw)) { SplitFree(raw, '|'); ParsePartsClean(Split(raw, '|')); }
    if Clean(m) {
      ParseSerialize(m);
      assert Parse(Serialize(m)) == m;
    }
  }

  /** setEntry, read back: for any stored cookie value the new map is the old
      one with this single entry set, exactly when the entry is clean. */
  lemma SetEntryReadBack(raw: string, key: string, val: string)
    ensures var m := Parse(raw);
      Parse(Serialize(Set(m, key, val))) == Set(m, key, val) <==> CleanEntry(Member(key, val))
  {
    var m := Parse(raw);
    SplitFree(raw, '|');
    ParsePartsClean(Split(raw, '|'));
    SetChangesOneKey(m, key, val);
    RoundTrip(Set(m, key, val));
    assert Member(key, val) in Set(m, key, val);
  }
}
