/** One key/value entry of the routing context, shared by the cookie
    ("key:val|key:val") and the Baggage header ("key=val,key=val"). */
module Wire {
  import opened Text

  datatype Member = Member(key: string, val: string)

  datatype Option<T> = None | Some(value: T)

  /** Cut at the first separator; None when there is none. */
  function KeyVal(s: string, sep: char): Option<Member> {
    var i := Find(s, sep);
    if i == |s| then None else Some(Member(s[..i], s[i + 1..]))
  }

  lemma KeyValCut(s: string, sep: char)
    ensures match KeyVal(s, sep)
      case None => sep !in s
      case Some(m) => s == m.key + [sep] + m.val && sep !in m.key
  {
    FindFirst(s, sep);
  }

  lemma KeyValOf(key: string, sep: char, val: string)
    requires sep !in key
    ensures KeyVal(key + [sep] + val, sep) == Some(Member(key, val))
  {
    var s := key + [sep] + val;
    FindIs(key, sep, val);
    assert s[|key|] == sep && s[..|key|] == key && s[|key| + 1..] == val;
  }

  /** "" and "." both mean "no fork at this tier". */
  predicate Effective(m: Member) {
    m.val != "" && m.val != "."
  }

  function EffectiveOf(ms: seq<Member>): (r: seq<Member>)
    ensures forall m :: m in r <==> m in ms && Effective(m)
  {
    if ms == [] then []
    else (if Effective(ms[0]) then [ms[0]] else []) + EffectiveOf(ms[1..])
  }

  lemma {:induction false} EffectiveSnoc(ms: seq<Member>, m: Member)
    ensures EffectiveOf(ms + [m]) == EffectiveOf(ms) + if Effective(m) then [m] else []
  {
    if ms != [] {
      assert (ms + [m])[1..] == ms[1..] + [m];
      EffectiveSnoc(ms[1..], m);
    }
  }

  function Pairs(ms: seq<Member>, eq: char): (r: seq<string>)
    ensures |r| == |ms| && forall i :: 0 <= i < |ms| ==> r[i] == ms[i].key + [eq] + ms[i].val
  {
    seq(|ms|, i requires 0 <= i < |ms| => ms[i].key + [eq] + ms[i].val)
  }

  lemma PairsSnoc(ms: seq<Member>, m: Member, eq: char)
    ensures Pairs(ms + [m], eq) == Pairs(ms, eq) + [m.key + [eq] + m.val]
  {
  }

  /** table.concat(parts, ",") over "k=v" parts. */
  function Emit(ms: seq<Member>): string {
    Join(Pairs(ms, '='), ',')
  }

  predicate DistinctKeys(ms: seq<Member>) {
    forall i, j :: 0 <= i < j < |ms| ==> ms[i].key != ms[j].key
  }

  /** The value the last member with this key carries, "" when there is none. */
  function ValueOf(ms: seq<Member>, key: string): string {
    if ms == [] then ""
    else if ms[|ms| - 1].key == key then ms[|ms| - 1].val
    else ValueOf(ms[..|ms| - 1], key)
  }

  lemma {:induction false} ValueOfIs(ms: seq<Member>, key: string)
    ensures (forall m :: m in ms ==> m.key != key) ==> ValueOf(ms, key) == ""
    ensures (exists m :: m in ms && m.key == key) ==> Member(key, ValueOf(ms, key)) in ms
    ensures DistinctKeys(ms) ==> forall m :: m in ms && m.key == key ==> m.val == ValueOf(ms, key)
  {
    if ms != [] {
      var init, last := ms[..|ms| - 1], ms[|ms| - 1];
      assert forall m :: m in ms <==> m in init || m == last;
      ValueOfIs(init, key);
      if DistinctKeys(ms) {
        assert DistinctKeys(init);
        assert forall m :: m in init ==> m.key != last.key;
      }
      if last.key == key {
        assert last == Member(key, last.val);
      }
    }
  }

  lemma {:induction false} DistinctEffective(ms: seq<Member>)
    requires DistinctKeys(ms)
    ensures DistinctKeys(EffectiveOf(ms))
  {
    if ms != [] {
      DistinctEffective(ms[1..]);
      assert forall m :: m in EffectiveOf(ms[1..]) ==> m in ms[1..] && m.key != ms[0].key;
    }
  }

  /** Dropping the "no fork" members loses no routing decision. */
  lemma EffectiveValue(ms: seq<Member>, key: string)
    requires DistinctKeys(ms)
    ensures ValueOf(EffectiveOf(ms), key) == if ValueOf(ms, key) == "." then "" else ValueOf(ms, key)
  {
    var es := EffectiveOf(ms);
    ValueOfIs(ms, key);
    ValueOfIs(es, key);
    DistinctEffective(ms);
    var v := ValueOf(ms, key);
    if exists m :: m in ms && m.key == key {
      assert Member(key, v) in ms;
      if Effective(Member(key, v)) {
        assert Member(key, v) in es;
      } else {
        assert forall m :: m in es ==> m.key != key;
      }
    }
  }

  /** The value comes from the last member with the key: none after it has it. */
  lemma {:induction false} ValueOfLast(ms: seq<Member>, key: string) returns (i: nat)
    requires exists m :: m in ms && m.key == key
    ensures i < |ms| && ms[i] == Member(key, ValueOf(ms, key))
    ensures forall j :: i < j < |ms| ==> ms[j].key != key
  {
    var n := |ms| - 1;
    if ms[n].key == key {
      i := n;
    } else {
      assert exists m :: m in ms[..n] && m.key == key by {
        var m :| m in ms && m.key == key;
        assert m in ms[..n];
      }
      i := ValueOfLast(ms[..n], key);
    }
  }
}
