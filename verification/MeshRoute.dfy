/** The mesh tier: the HTTPRoute that renderCRHTTPRoute attaches to a target and
    the backend that a mesh picks from its rules. */
module MeshRoute {
  import opened Text
  import opened Wire
  import opened BaggageRegex
  import opened Api
  import Order
  import T = Translator

  /** header: the regular expression the Baggage header must match, if any. */
  datatype Rule = Rule(header: Option<string>, backend: string, port: int)

  datatype HTTPRoute = HTTPRoute(ns: string, name: string, owner: string, parent: string, rules: seq<Rule>)

  function FirstPort(svc: Service): int {
    if svc.ports == [] then 80 else svc.ports[0]
  }

  function SortedByName(svcs: seq<Service>): seq<Service> {
    Order.SortBy(svcs, (s: Service) => s.name)
  }

  function VariantRules(routingKey: string, svcs: seq<Service>): (rs: seq<Rule>)
    ensures |rs| == |svcs|
  {
    seq(|svcs|, i requires 0 <= i < |svcs| =>
      Rule(Some(Pattern(routingKey, svcs[i].name)), svcs[i].name, FirstPort(svcs[i])))
  }

  function RouteName(target: string): string {
    "route-prism-cr-" + target
  }

  function CRRoute(cr: ContextRoute, target: Service, variants: seq<Service>, includeCatchAll: bool): HTTPRoute {
    HTTPRoute(target.ns, RouteName(target.name), cr.name, target.name,
      VariantRules(EffectiveKey(cr), SortedByName(variants)) +
      if includeCatchAll then [Rule(None, target.name, FirstPort(target))] else [])
  }

  method RenderCRHTTPRoute(cr: ContextRoute, target: Service, variants: seq<Service>, includeCatchAll: bool)
    returns (route: HTTPRoute)
    ensures route == CRRoute(cr, target, variants, includeCatchAll)
    ensures route.ns == target.ns && route.name == "route-prism-cr-" + target.name
    ensures route.owner == cr.name && route.parent == target.name
    ensures |route.rules| == |variants| + if includeCatchAll then 1 else 0
    ensures includeCatchAll ==>
      var last := route.rules[|variants|];
      last.header == None && last.backend == target.name && PortFits(last.port, target)
    ensures !includeCatchAll ==> forall r :: r in route.rules ==> r.header.Some?
  {
    SortedSize(variants);
    var key := EffectiveKey(cr);
    var sorted := SortedByName(variants);
    var rules: seq<Rule> := [];
    for i := 0 to |sorted|
      invariant rules == VariantRules(key, sorted)[..i]
    {
      var v := sorted[i];
      rules := rules + [Rule(Some(Pattern(key, v.name)), v.name, FirstPort(v))];
    }
    if includeCatchAll {
      rules := rules + [Rule(None, target.name, FirstPort(target))];
    }
    route := HTTPRoute(target.ns, RouteName(target.name), cr.name, target.name, rules);
  }

  lemma SortedSize(svcs: seq<Service>)
    ensures |SortedByName(svcs)| == |svcs|
  {
    Order.SortByIs(svcs, (s: Service) => s.name);
    Order.SameElements(SortedByName(svcs), svcs);
  }

  // ----- What the mesh does with the rules -----------------------------------

  ghost predicate RuleMatches(r: Rule, baggage: string) {
    match r.header
    case None => true
    case Some(pattern) => Compile(pattern).Some? && Matches(Compile(pattern).value, baggage)
  }

  /** The first rule that matches wins. */
  ghost function FirstMatch(rules: seq<Rule>, baggage: string): Option<Rule> {
    if rules == [] then None
    else if RuleMatches(rules[0], baggage) then Some(rules[0])
    else FirstMatch(rules[1..], baggage)
  }

  function ChoiceOf(r: Option<Rule>): T.Choice {
    if r.Some? && r.value.header.Some? then T.Fork(r.value.backend) else T.Default
  }

  ghost function MeshChoice(route: HTTPRoute, baggage: string): T.Choice {
    ChoiceOf(FirstMatch(route.rules, baggage))
  }

  ghost predicate PieceCarries(baggage: string, routingKey: string, svc: string) {
    exists piece :: piece in Split(baggage, ',') && Carries(piece, routingKey, svc)
  }

  function Names(svcs: seq<Service>): set<string> {
    set s | s in svcs :: s.name
  }

  /** c is the least of these names that some member carries for the key, or
      Default when none is carried. */
  ghost predicate LeastCarried(c: T.Choice, names: set<string>, baggage: string, key: string) {
    match c
    case Default => forall n :: n in names ==> !PieceCarries(baggage, key, n)
    case Fork(n) =>
      && n in names && PieceCarries(baggage, key, n)
      && forall m :: m in names && PieceCarries(baggage, key, m) ==> Order.LE(n, m)
  }

  lemma {:induction false} FirstMatchIs(key: string, svcs: seq<Service>, tail: seq<Rule>, baggage: string)
    requires Order.Sorted(Order.Keys(svcs, (s: Service) => s.name))
    requires forall r :: r in tail ==> r.header.None?
    requires '\n' !in baggage && ',' !in key && forall n :: n in Names(svcs) ==> ',' !in n
    ensures LeastCarried(ChoiceOf(FirstMatch(VariantRules(key, svcs) + tail, baggage)), Names(svcs), baggage, key)
  {
    hide Compile, Pattern, Matches, BaggageMatchRegex, Carries, Order.LE;
    var rules := VariantRules(key, svcs);
    if svcs == [] {
      assert rules + tail == tail;
      if tail != [] { assert tail[0] in tail; }
    } else {
      var k := (s: Service) => s.name;
      assert svcs[0] in svcs && forall s :: s in svcs <==> s == svcs[0] || s in svcs[1..];
      assert Names(svcs) == {svcs[0].name} + Names(svcs[1..]);
      PatternCompiles(key, svcs[0].name);
      RegexLanguage(baggage, key, svcs[0].name);
      assert (rules + tail)[1..] == VariantRules(key, svcs[1..]) + tail;
      if RuleMatches(rules[0], baggage) {
        forall s | s in svcs ensures Order.LE(svcs[0].name, s.name) {
          var i :| 0 <= i < |svcs| && svcs[i] == s;
          Order.LERefl(s.name);
          assert i > 0 ==> Order.LE(Order.Keys(svcs, k)[0], Order.Keys(svcs, k)[i]);
        }
      } else {
        assert Order.Keys(svcs[1..], k) == Order.Keys(svcs, k)[1..];
        FirstMatchIs(key, svcs[1..], tail, baggage);
      }
    }
  }

  /** The mesh picks the least variant name that some member of the header
      carries for the routing key, and the target when there is none. */
  lemma MeshChoiceIs(cr: ContextRoute, target: Service, variants: seq<Service>, baggage: string)
    requires '\n' !in baggage && ',' !in EffectiveKey(cr) && forall n :: n in Names(variants) ==> ',' !in n
    ensures var c := MeshChoice(CRRoute(cr, target, variants, true), baggage);
      LeastCarried(c, Names(variants), baggage, EffectiveKey(cr))
  {
    var sorted := SortedByName(variants);
    Order.SortByIs(variants, (s: Service) => s.name);
    Order.SameElements(sorted, variants);
    assert Names(sorted) == Names(variants);
    FirstMatchIs(EffectiveKey(cr), sorted, [Rule(None, target.name, FirstPort(target))], baggage);
  }

  /** A Service's port in a rule: the first it lists, or 80. */
  predicate PortFits(port: int, svc: Service) {
    (svc.ports == [] && port == 80) || (svc.ports != [] && port == svc.ports[0])
  }

  lemma {:induction false} FirstMatchServes(key: string, svcs: seq<Service>, tail: seq<Rule>, baggage: string)
    ensures var r := FirstMatch(VariantRules(key, svcs) + tail, baggage);
      || r == FirstMatch(tail, baggage)
      || exists v ::
           && v in svcs && r.Some? && r.value.header.Some?
           && r.value.backend == v.name && PortFits(r.value.port, v)
  {
    hide RuleMatches, Pattern;
    var rules := VariantRules(key, svcs);
    if svcs == [] {
      assert rules + tail == tail;
    } else {
      assert (rules + tail)[1..] == VariantRules(key, svcs[1..]) + tail;
      assert svcs[0] in svcs && forall v :: v in svcs[1..] ==> v in svcs;
      FirstMatchServes(key, svcs[1..], tail, baggage);
    }
  }

  /** Every request is served: by the variant the mesh picks, or by the target when
      no variant's name is carried; each on its first port. */
  lemma RouteServes(cr: ContextRoute, target: Service, variants: seq<Service>, baggage: string)
    requires '\n' !in baggage && ',' !in EffectiveKey(cr) && forall n :: n in Names(variants) ==> ',' !in n
    ensures var r := FirstMatch(CRRoute(cr, target, variants, true).rules, baggage);
      && r.Some?
      && ((forall v :: v in variants ==> !PieceCarries(baggage, EffectiveKey(cr), v.name)) ==>
            r.value.backend == target.name && PortFits(r.value.port, target))
      && ((exists v :: v in variants && PieceCarries(baggage, EffectiveKey(cr), v.name)) ==>
            exists v :: v in variants && PieceCarries(baggage, EffectiveKey(cr), v.name)
              && r.value.backend == v.name && PortFits(r.value.port, v)
              && forall w :: w in variants && PieceCarries(baggage, EffectiveKey(cr), w.name) ==>
                   Order.LE(v.name, w.name))
  {
    hide PieceCarries, FirstMatch, CRRoute;
    var last := [Rule(None, target.name, FirstPort(target))];
    var sorted := SortedByName(variants);
    CatchAll(target, baggage);
    RulesOf(cr, target, variants);
    FirstMatchServes(EffectiveKey(cr), sorted, last, baggage);
    Order.SortByIs(variants, (s: Service) => s.name);
    Order.SameElements(sorted, variants);
    MeshChoiceIs(cr, target, variants, baggage);
    var r := FirstMatch(CRRoute(cr, target, variants, true).rules, baggage);
    assert forall v :: v in variants ==> v.name in Names(variants);
    if r.value.header.Some? {
      var v :| v in sorted && r.value.backend == v.name && PortFits(r.value.port, v);
      assert v in variants;
    }
  }

  lemma CatchAll(target: Service, baggage: string)
    ensures var last := Rule(None, target.name, FirstPort(target));
      FirstMatch([last], baggage) == Some(last) && PortFits(last.port, target)
  {
  }

  lemma RulesOf(cr: ContextRoute, target: Service, variants: seq<Service>)
    ensures CRRoute(cr, target, variants, true).rules ==
      VariantRules(EffectiveKey(cr), SortedByName(variants)) + [Rule(None, target.name, FirstPort(target))]
  {
  }
}
