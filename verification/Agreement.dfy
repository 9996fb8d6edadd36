/** When the mesh and a translator, given the same Baggage header and the same
    variants, send a request to the same backend. */
module Agreement {
  import opened Text
  import opened Wire
  import opened BaggageRegex
  import opened Api
  import opened MeshRoute
  import Order
  import T = Translator

  /** Routing keys as the CRD documents them: no separator of either wire form, no whitespace. */
  predicate SafeKey(key: string) {
    key != "" && forall i :: 0 <= i < |key| ==> !LuaSpace(key[i]) && key[i] !in ",;=:|"
  }

  /** Service names are lower-case DNS labels. */
  predicate Label(name: string) {
    name != "" && forall i :: 0 <= i < |name| ==> 'a' <= name[i] <= 'z' || '0' <= name[i] <= '9' || name[i] == '-'
  }

  /** The Lua block reads a member with this key from the piece. */
  predicate KeyedBy(e: string, key: string) {
    T.Raw(T.BaggageHeader, e).Some? && T.Raw(T.BaggageHeader, e).value.key == key
  }

  function RawValue(e: string): string
    requires T.Raw(T.BaggageHeader, e).Some?
  {
    T.Raw(T.BaggageHeader, e).value.val
  }

  function Keyed(es: seq<string>, key: string): seq<string> {
    if es == [] then []
    else Keyed(es[..|es| - 1], key) + if KeyedBy(es[|es| - 1], key) then [es[|es| - 1]] else []
  }

  /** RE2's \s covers all of the leading whitespace Lua would strip. */
  predicate LeadClean(e: string) {
    '\U{0B}' !in e[..|e| - |TrimLeft(e)|]
  }

  /** n is the piece's value up to whitespace at its end, which only RE2 drops. */
  predicate Fits(e: string, n: string)
    requires T.Raw(T.BaggageHeader, e).Some?
  {
    var v := RawValue(e);
    if ';' in e then v == n else n <= v && All(Space, v[|n|..])
  }

  lemma CarriesForward(e: string, key: string, n: string, w: string, props: string, v: string)
    requires SafeKey(key) && Label(n) && CarriesAs(e, key, n, w, props, v)
    ensures KeyedBy(e, key) && LeadClean(e) && Fits(e, n)
  {
    SafeChars(key, n, w, v);
    if props == "" {
      var body := key + "=" + (n + v);
      assert e == w + (body + "");
      PieceRead(e, w, key, n + v, "");
      assert (n + v)[|n|..] == v;
      assert ';' !in e;
    } else {
      assert e == w + (key + "=" + n + (props + v));
      PieceRead(e, w, key, n, props + v);
      assert props[0] in e;
    }
  }

  lemma SafeChars(key: string, n: string, w: string, v: string)
    requires SafeKey(key) && Label(n) && All(Space, w) && All(Space, v)
    ensures ';' !in key && '=' !in key && !LuaSpace(key[0]) && ';' !in n && ';' !in w && ';' !in v
    ensures '\U{0B}' !in w && forall c :: c in w ==> LuaSpace(c)
  {
  }

  /** What Lua reads from whitespace, key=value and an optional rest from the first ';'. */
  lemma PieceRead(e: string, w: string, key: string, val: string, tail: string)
    requires e == w + (key + "=" + val + tail) && forall c :: c in w ==> LuaSpace(c)
    requires key != "" && !LuaSpace(key[0]) && '=' !in key && ';' !in key
    requires ';' !in val && (tail == "" || tail[0] == ';')
    ensures T.Raw(T.BaggageHeader, e) == Some(Member(key, val))
    ensures TrimLeft(e) == key + "=" + val + tail && e[..|e| - |TrimLeft(e)|] == w
  {
    var body := key + "=" + val;
    var t := body + tail;
    assert t[0] == key[0];
    TrimLeftIs(w, t);
    BodyEnds(body, tail);
    KeyValOf(key, '=', val);
  }

  lemma BodyEnds(body: string, tail: string)
    requires ';' !in body && (tail == "" || tail[0] == ';')
    ensures (body + tail)[..Find(body + tail, ';')] == body
  {
    if tail == "" {
      assert body + tail == body;
      FindFirst(body, ';');
    } else {
      assert body + tail == body + [';'] + tail[1..];
      FindIs(body, ';', tail[1..]);
    }
  }

  lemma CarriesBackward(e: string, key: string, n: string)
    requires SafeKey(key) && Label(n) && KeyedBy(e, key) && LeadClean(e) && Fits(e, n)
    ensures Carries(e, key, n)
  {
    var v := RawValue(e);
    var w, tail := PieceParts(e, key);
    if ';' in e {
      Rebuild(e, w, key, n, tail, "");
    } else {
      Rebuild(e, w, key, n, "", v[|n|..]);
    }
  }

  /** Conversely, how a piece with this key is put together. */
  lemma PieceParts(e: string, key: string) returns (w: string, tail: string)
    requires KeyedBy(e, key) && LeadClean(e)
    ensures e == w + (key + "=" + RawValue(e) + tail) && All(Space, w)
    ensures if ';' in e then tail != "" && tail[0] == ';' else tail == ""
  {
    var t := TrimLeft(e);
    w := TrimLeftSplit(e);
    assert e[..|e| - |t|] == w;
    FindFirst(t, ';');
    KeyValCut(T.Body(e), '=');
    tail := t[Find(t, ';')..];
    assert t == T.Body(e) + tail;
    assert ';' !in w && (';' in e <==> ';' in t);
  }

  lemma Rebuild(e: string, w: string, key: string, n: string, props: string, v: string)
    requires e == w + (key + "=" + (n + v) + props) && (v == "" || props == "")
    requires All(Space, w) && All(Space, v) && (props == "" || props[0] == ';')
    ensures Carries(e, key, n)
  {
    assert e == w + (key + "=" + n) + props + v;
    assert CarriesAs(e, key, n, w, props, v);
  }

  lemma {:induction false} KeyedIs(es: seq<string>, key: string)
    ensures forall e :: e in Keyed(es, key) <==> e in es && KeyedBy(e, key)
  {
    if es != [] {
      KeyedIs(es[..|es| - 1], key);
      assert forall e :: e in es <==> e == es[|es| - 1] || e in es[..|es| - 1];
    }
  }

  /** The header names n to the mesh: some member with this key, whose leading
      whitespace RE2 knows, has n as its value up to whitespace at its end. */
  ghost predicate MeshRead(hdr: string, key: string, n: string) {
    exists e :: e in Keyed(Runs(hdr, ','), key) && LeadClean(e) && T.Raw(T.BaggageHeader, e).Some? && Fits(e, n)
  }

  /** The mesh forks to n iff some piece with this key fits n. */
  lemma MeshReads(hdr: string, key: string, n: string)
    requires SafeKey(key) && Label(n)
    ensures PieceCarries(hdr, key, n) <==> MeshRead(hdr, key, n)
  {
    KeyedIs(Runs(hdr, ','), key);
    NonEmptyIs(Split(hdr, ','));
    if PieceCarries(hdr, key, n) {
      var e :| e in Split(hdr, ',') && Carries(e, key, n);
      var w: string, props: string, v: string :| CarriesAs(e, key, n, w, props, v);
      CarriesForward(e, key, n, w, props, v);
    }
    if e :| e in Keyed(Runs(hdr, ','), key) && LeadClean(e) && T.Raw(T.BaggageHeader, e).Some? && Fits(e, n) {
      CarriesBackward(e, key, n);
    }
  }

  /** The value the Lua block leaves in mine: that of the last effective member. */
  lemma {:induction false} TranslatorReads(es: seq<string>, key: string)
    ensures Keyed(es, key) == [] ==> ValueOf(T.Entries(T.BaggageHeader, es), key) == ""
    ensures |Keyed(es, key)| == 1 ==>
      var e := Keyed(es, key)[0];
      T.Raw(T.BaggageHeader, e).Some? && ValueOf(T.Entries(T.BaggageHeader, es), key) ==
        if Effective(Member(key, RawValue(e))) then RawValue(e) else ""
  {
    if es != [] {
      var init, e := es[..|es| - 1], es[|es| - 1];
      var ms := T.Entries(T.BaggageHeader, init);
      TranslatorReads(init, key);
      assert ms + [] == ms;
      match T.Raw(T.BaggageHeader, e)
      case None =>
      case Some(m) => T.ValueOfSnoc(ms, m, key);
    }
  }

  /** The piece names a variant to one side only: by a value that equals it only
      without case or after whitespace RE2 does not know, or by a value followed
      by whitespace that Lua does not drop. */
  predicate Misread(e: string, names: set<string>)
    requires T.Raw(T.BaggageHeader, e).Some?
  {
    var v := RawValue(e);
    || (Lower(v) in names && (Lower(v) != v || !LeadClean(e)))
    || (LeadClean(e) && ';' !in e && exists n :: n in names && n < v && All(Space, v[|n|..]))
  }

  lemma LabelLower(n: string)
    requires Label(n)
    ensures Lower(n) == n && Effective(Member("", n))
  {
    assert n[0] != '.';
  }

  /** A label is the only one that fits, and it ends before any whitespace. */
  lemma FitsUnique(e: string, n: string, m: string)
    requires Label(n) && Label(m) && T.Raw(T.BaggageHeader, e).Some? && Fits(e, n) && Fits(e, m)
    ensures n == m
  {
    LabelEnds(RawValue(e), n, m);
    LabelEnds(RawValue(e), m, n);
  }

  lemma LabelEnds(v: string, n: string, m: string)
    ensures n <= v && All(Space, v[|n|..]) && m <= v && Label(m) ==> |m| <= |n|
  {
    if |n| < |v| { assert v[|n|..][0] == v[|n|]; }
  }

  function VariantNames(vs: seq<T.Variant>): set<string> {
    set v | v in vs :: v.name
  }

  /** What the translator forks to for a lone piece. */
  lemma MapReads(vs: seq<T.Variant>, key: string, v: string)
    requires T.MapLoads(vs) && forall n :: n in VariantNames(vs) ==> Label(n)
    ensures T.MapSelect(vs, if Effective(Member(key, v)) then v else "") ==
      if Lower(v) in VariantNames(vs) then T.Fork(Lower(v)) else T.Default
  {
    var x := if Effective(Member(key, v)) then v else "";
    T.MapSelectIs(vs, x);
    forall n | n in VariantNames(vs) ensures Lower(n) == n && n != "" && n != "." { LabelLower(n); }
    assert Lower(".") == "." && Lower("") == "";
    if Lower(v) in VariantNames(vs) {
      var a :| a in vs && a.name == Lower(v);
      assert v != "." && v != "";
    } else {
      assert forall a :: a in vs ==> a.name in VariantNames(vs) && Lower(a.name) == a.name;
    }
  }

  /** What the mesh forks to for a lone piece. */
  lemma LoneMesh(c: T.Choice, names: set<string>, hdr: string, key: string, e: string)
    requires SafeKey(key) && (forall n :: n in names ==> Label(n))
    requires Keyed(Runs(hdr, ','), key) == [e] && LeastCarried(c, names, hdr, key)
    ensures T.Raw(T.BaggageHeader, e).Some?
    ensures forall n :: n in names ==> (c == T.Fork(n) <==> LeadClean(e) && Fits(e, n))
    ensures c == T.Default <==> forall n :: n in names ==> !(LeadClean(e) && Fits(e, n))
  {
    KeyedIs(Runs(hdr, ','), key);
    assert e in Keyed(Runs(hdr, ','), key);
    forall n | n in names ensures PieceCarries(hdr, key, n) <==> LeadClean(e) && Fits(e, n) { MeshReads(hdr, key, n); }
    forall n, m | n in names && m in names && Fits(e, n) && Fits(e, m) ensures n == m { FitsUnique(e, n, m); }
  }

  lemma {:induction false} ValueIsEffective(ms: seq<Member>, key: string)
    requires forall m :: m in ms ==> Effective(m)
    ensures ValueOf(ms, key) == "" || Effective(Member(key, ValueOf(ms, key)))
  {
    if ms != [] {
      assert ms[|ms| - 1] in ms && forall m :: m in ms[..|ms| - 1] ==> m in ms;
      ValueIsEffective(ms[..|ms| - 1], key);
    }
  }

  lemma {:induction false} EntriesEffective(es: seq<string>)
    ensures forall m :: m in T.Entries(T.BaggageHeader, es) ==> Effective(m)
  {
    if es != [] { EntriesEffective(es[..|es| - 1]); }
  }

  /** For any header at all, and a translator that knows some or all of the mesh's
      variants, the two choose the same backend exactly when the value the Lua
      block ends up with, lower-cased, is the least name the mesh reads, or is no
      variant the translator knows while the mesh reads none. */
  lemma AgreeOnAnyHeader(cr: ContextRoute, target: Service, svcs: seq<Service>, vs: seq<T.Variant>, hdr: string)
    requires '\n' !in hdr && SafeKey(EffectiveKey(cr))
    requires VariantNames(vs) <= Names(svcs) && T.MapLoads(vs) && forall n :: n in Names(svcs) ==> Label(n)
    ensures var key, names := EffectiveKey(cr), Names(svcs);
      var last := Lower(ValueOf(T.BaggageMembers(hdr), key));
      T.MapSelect(vs, ValueOf(T.BaggageMembers(hdr), key)) == MeshChoice(CRRoute(cr, target, svcs, true), hdr) <==>
      if last in VariantNames(vs)
        then MeshRead(hdr, key, last) && forall n :: n in names && MeshRead(hdr, key, n) ==> Order.LE(last, n)
        else forall n :: n in names ==> !MeshRead(hdr, key, n)
  {
    hide Keyed, LeadClean, Fits, Runs, T.MapSelect, T.MapLoads, MeshChoice, CRRoute, ValueOf, Order.LE;
    var key, names := EffectiveKey(cr), Names(svcs);
    var v := ValueOf(T.BaggageMembers(hdr), key);
    EntriesEffective(Runs(hdr, ','));
    ValueIsEffective(T.BaggageMembers(hdr), key);
    assert ',' !in key && forall n :: n in names ==> ',' !in n;
    MeshChoiceIs(cr, target, svcs, hdr);
    MapReads(vs, key, v);
    forall n | n in names ensures PieceCarries(hdr, key, n) <==> MeshRead(hdr, key, n) { MeshReads(hdr, key, n); }
    forall m, n | m in names && n in names && Order.LE(m, n) && Order.LE(n, m) ensures m == n { Order.LEAntisym(m, n); }
  }

  /** For any header with at most one member for the routing key, mesh and
      translator choose the same backend exactly when that member is not misread. */
  lemma MeshAndTranslatorAgree(cr: ContextRoute, target: Service, svcs: seq<Service>, vs: seq<T.Variant>, hdr: string)
    requires '\n' !in hdr && SafeKey(EffectiveKey(cr))
    requires VariantNames(vs) == Names(svcs) && T.MapLoads(vs) && forall n :: n in Names(svcs) ==> Label(n)
    requires |Keyed(Runs(hdr, ','), EffectiveKey(cr))| <= 1
    ensures var key := EffectiveKey(cr);
      T.MapSelect(vs, ValueOf(T.BaggageMembers(hdr), key)) == MeshChoice(CRRoute(cr, target, svcs, true), hdr) <==>
      forall e :: e in Keyed(Runs(hdr, ','), key) ==> T.Raw(T.BaggageHeader, e).Some? && !Misread(e, Names(svcs))
  {
    var key, names := EffectiveKey(cr), Names(svcs);
    var es := Keyed(Runs(hdr, ','), key);
    var c := MeshChoice(CRRoute(cr, target, svcs, true), hdr);
    assert forall n :: n in names ==> ',' !in n;
    assert ',' !in key;
    MeshChoiceIs(cr, target, svcs, hdr);
    TranslatorReads(Runs(hdr, ','), key);
    if es == [] {
      forall n | n in names ensures !PieceCarries(hdr, key, n) { MeshReads(hdr, key, n); }
      MapReads(vs, key, "");
      assert Lower("") == "";
    } else {
      var e := es[0];
      assert es == [e];
      LoneMesh(c, names, hdr, key, e);
      MapReads(vs, key, RawValue(e));
      LoneAgree(e, names, c);
    }
  }

  lemma LoneAgree(e: string, names: set<string>, c: T.Choice)
    requires T.Raw(T.BaggageHeader, e).Some? && forall n :: n in names ==> Label(n)
    requires forall n :: n in names ==> (c == T.Fork(n) <==> LeadClean(e) && Fits(e, n))
    requires c == T.Default <==> forall n :: n in names ==> !(LeadClean(e) && Fits(e, n))
    ensures (if Lower(RawValue(e)) in names then T.Fork(Lower(RawValue(e))) else T.Default) == c <==> !Misread(e, names)
  {
    var v := RawValue(e);
    forall n | n in names ensures Lower(n) == n { LabelLower(n); }
    assert v in names ==> Fits(e, v) by { assert v <= v && v[|v|..] == ""; }
    if Lower(v) in names {
      LowerFits(e, Lower(v));
    } else {
      forall n | n in names && Fits(e, n) ensures n < v && ';' !in e && All(Space, v[|n|..]) {
        assert n != v;
      }
    }
  }

  /** The lower-cased value fits its piece only when it is the value. */
  lemma LowerFits(e: string, n: string)
    requires T.Raw(T.BaggageHeader, e).Some? && Label(n) && n == Lower(RawValue(e))
    ensures Fits(e, n) <==> n == RawValue(e)
    ensures forall m :: Label(m) && m < RawValue(e) ==> !All(Space, RawValue(e)[|m|..])
  {
    var v := RawValue(e);
    assert |n| == |v|;
    forall m | Label(m) && m < v ensures !All(Space, v[|m|..]) {
      assert n[|m|] == LowerChar(v[|m|]) && v[|m|..][0] == v[|m|];
    }
    if n <= v { assert n == v; }
    assert n == v ==> v[|n|..] == "";
  }

  /** The promise fails: with the one variant v2, the header k=V2 forks at the
      translator only, and "k=v2 " at the mesh only. */
  lemma AgreementFails(cr: ContextRoute, target: Service, svc: Service)
    requires EffectiveKey(cr) == "k" && svc.name == "v2"
    ensures OneSided(cr, target, svc, "V2", T.Fork("v2"), T.Default)
    ensures OneSided(cr, target, svc, "v2 ", T.Default, T.Fork("v2"))
  {
    ExampleValues();
    ExampleTranslator("V2");
    ExampleTranslator("v2 ");
    ExampleMesh(cr, target, svc, "V2");
    ExampleMesh(cr, target, svc, "v2 ");
  }

  /** On the header k=v the translator chooses t and the mesh chooses m. */
  ghost predicate OneSided(cr: ContextRoute, target: Service, svc: Service, v: string, t: T.Choice, m: T.Choice) {
    && T.MapSelect([T.Variant("v2", "10.0.0.2:80")], ValueOf(T.BaggageMembers("k=" + v), "k")) == t
    && MeshChoice(CRRoute(cr, target, [svc], true), "k=" + v) == m
  }

  lemma ExampleValues()
    ensures Lower("V2") == "v2" && Lower("v2 ") != "v2"
    ensures !("v2" <= "V2") && "v2" <= "v2 " && All(Space, "v2 "[2..])
  {
    assert "V2"[0] != "v2"[0];
    assert |Lower("v2 ")| == 3;
  }

  lemma ExampleTranslator(v: string)
    requires v != "" && v != "." && ',' !in v && ';' !in v
    ensures T.MapSelect([T.Variant("v2", "10.0.0.2:80")], ValueOf(T.BaggageMembers("k=" + v), "k")) ==
      if Lower(v) == "v2" then T.Fork("v2") else T.Default
  {
    hide Keyed, T.Entries, ValueOf, Runs, KeyedBy, LeadClean;
    var vs := [T.Variant("v2", "10.0.0.2:80")];
    LoneKeyed(v);
    assert VariantNames(vs) == {"v2"};
    TranslatorReads(Runs("k=" + v, ','), "k");
    MapReads(vs, "k", v);
  }

  lemma ExampleMesh(cr: ContextRoute, target: Service, svc: Service, v: string)
    requires EffectiveKey(cr) == "k" && svc.name == "v2"
    requires v != "" && ',' !in v && ';' !in v && '\n' !in v
    ensures MeshChoice(CRRoute(cr, target, [svc], true), "k=" + v) ==
      if "v2" <= v && All(Space, v[2..]) then T.Fork("v2") else T.Default
  {
    hide Keyed, Runs, KeyedBy, LeadClean, CRRoute, FirstMatch, Fits, LeastCarried;
    var e := "k=" + v;
    LoneKeyed(v);
    var c := MeshChoice(CRRoute(cr, target, [svc], true), e);
    assert Names([svc]) == {"v2"};
    MeshChoiceIs(cr, target, [svc], e);
    LoneMesh(c, {"v2"}, e, "k", e);
    FitsExample(e, v);
  }

  lemma FitsExample(e: string, v: string)
    requires T.Raw(T.BaggageHeader, e) == Some(Member("k", v)) && e == "k=" + v && ';' !in v
    ensures Fits(e, "v2") <==> "v2" <= v && All(Space, v[2..])
  {
  }

  lemma LoneKeyed(v: string)
    requires v != "" && ',' !in v && ';' !in v
    ensures var e := "k=" + v;
      Keyed(Runs(e, ','), "k") == [e] && T.Raw(T.BaggageHeader, e) == Some(Member("k", v)) && LeadClean(e)
  {
    var e, none: seq<string> := "k=" + v, [];
    assert Join([e], ',') == e;
    RunsJoin([e], ',');
    T.BodyIs(e);
    KeyValOf("k", '=', v);
    assert e == "k" + ['='] + v;
    assert [e][..0] == none && Keyed([e], "k") == none + [e];
    assert TrimLeft(e) == e && e[..0] == "";
  }
}
