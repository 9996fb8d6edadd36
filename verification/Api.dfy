/** The Kubernetes objects the operator reads: its three custom resources and
    Services, reduced to the fields that steer routing. */
module Api {

  datatype Service = Service(ns: string, name: string, kind: string, labels: map<string, string>, ports: seq<int>)

  /** A label selector, as the label sets it accepts; Invalid when
      LabelSelectorAsSelector returns an error. */
  datatype Selector = Invalid | Selects(accepted: set<map<string, string>>)

  datatype ContextRoute = ContextRoute(
    ns: string, name: string, uid: nat, created: int, deleting: bool,
    target: string, routingKey: string, selector: Selector)

  datatype EdgeTransformation = EdgeTransformation(
    ns: string, name: string, deleting: bool, target: string, sourceCookie: string)

  datatype Condition = Condition(kind: string, isTrue: bool)

  datatype RemoteRoute = RemoteRoute(ns: string, name: string, deleting: bool, conditions: seq<Condition>)

  /** EffectiveRoutingKey. */
  function EffectiveKey(cr: ContextRoute): string {
    if cr.routingKey != "" then cr.routingKey else cr.ns + "." + cr.target
  }

  /** A key that is set is used as it is, the default is namespace.target, and two
      defaults of one namespace differ when the targets do. */
  lemma EffectiveKeyIs(cr: ContextRoute, other: ContextRoute)
    ensures cr.routingKey != "" ==> EffectiveKey(cr) == cr.routingKey
    ensures cr.routingKey == "" ==>
      && |EffectiveKey(cr)| == |cr.ns| + 1 + |cr.target| && cr.ns <= EffectiveKey(cr)
      && EffectiveKey(cr)[|cr.ns|] == '.' && EffectiveKey(cr)[|cr.ns| + 1..] == cr.target
    ensures cr.routingKey == other.routingKey == "" && cr.ns == other.ns && EffectiveKey(cr) == EffectiveKey(other) ==>
      cr.target == other.target
  {
    assert cr.routingKey == "" ==> EffectiveKey(cr)[|cr.ns| + 1..] == cr.target;
    assert other.routingKey == "" ==> EffectiveKey(other)[|other.ns| + 1..] == other.target;
  }

  /** What a List of Services with the CR's namespace and selector returns. */
  function Listed(cr: ContextRoute, svcs: seq<Service>): seq<Service>
    requires cr.selector.Selects?
  {
    if svcs == [] then []
    else
      var rest := Listed(cr, svcs[1..]);
      if svcs[0].ns == cr.ns && svcs[0].labels in cr.selector.accepted then [svcs[0]] + rest else rest
  }

  function NotNamed(svcs: seq<Service>, name: string): seq<Service> {
    if svcs == [] then []
    else
      var init, last := svcs[..|svcs| - 1], svcs[|svcs| - 1];
      if last.name == name then NotNamed(init, name) else NotNamed(init, name) + [last]
  }

  /** The variants of a CR: the selected Services except the target itself. */
  function VariantsOf(cr: ContextRoute, svcs: seq<Service>): seq<Service>
    requires cr.selector.Selects?
  {
    NotNamed(Listed(cr, svcs), cr.target)
  }

  /** The loop both the controllers and the index run over a Service list. */
  method ExcludeTarget(svcs: seq<Service>, target: string) returns (variants: seq<Service>)
    ensures variants == NotNamed(svcs, target)
  {
    variants := [];
    for i := 0 to |svcs|
      invariant variants == NotNamed(svcs[..i], target)
    {
      assert svcs[..i + 1][..i] == svcs[..i];
      if svcs[i].name == target { continue; }
      variants := variants + [svcs[i]];
    }
    assert svcs[..|svcs|] == svcs;
  }

  /** The variants are the Services of the CR's namespace whose labels the selector
      accepts, except the target, */
  lemma VariantsAre(cr: ContextRoute, svcs: seq<Service>)
    requires cr.selector.Selects?
    ensures forall s :: s in VariantsOf(cr, svcs) <==>
      s in svcs && s.ns == cr.ns && s.labels in cr.selector.accepted && s.name != cr.target
  {
    ListedAre(cr, svcs);
    OthersAre(Listed(cr, svcs), cr.target);
  }

  lemma {:induction false} ListedAre(cr: ContextRoute, svcs: seq<Service>)
    requires cr.selector.Selects?
    ensures forall s :: s in Listed(cr, svcs) <==> s in svcs && s.ns == cr.ns && s.labels in cr.selector.accepted
  {
    if svcs != [] {
      ListedAre(cr, svcs[1..]);
      assert forall s :: s in svcs <==> s == svcs[0] || s in svcs[1..];
    }
  }

  lemma {:induction false} OthersAre(svcs: seq<Service>, name: string)
    ensures forall s :: s in NotNamed(svcs, name) <==> s in svcs && s.name != name
  {
    if svcs != [] {
      var init, last := svcs[..|svcs| - 1], svcs[|svcs| - 1];
      OthersAre(init, name);
      assert forall s :: s in svcs <==> s in init || s == last;
    }
  }

  /** each as often as it is listed. */
  lemma VariantsCount(cr: ContextRoute, svcs: seq<Service>, s: Service)
    requires cr.selector.Selects?
    ensures multiset(VariantsOf(cr, svcs))[s] ==
      if s.ns == cr.ns && s.labels in cr.selector.accepted && s.name != cr.target then multiset(svcs)[s] else 0
  {
    ListedCount(cr, svcs, s);
    OthersCount(Listed(cr, svcs), cr.target, s);
  }

  lemma {:induction false} ListedCount(cr: ContextRoute, svcs: seq<Service>, s: Service)
    requires cr.selector.Selects?
    ensures multiset(Listed(cr, svcs))[s] ==
      if s.ns == cr.ns && s.labels in cr.selector.accepted then multiset(svcs)[s] else 0
  {
    if svcs != [] {
      ListedCount(cr, svcs[1..], s);
      assert svcs == [svcs[0]] + svcs[1..];
    }
  }

  lemma {:induction false} OthersCount(svcs: seq<Service>, name: string, s: Service)
    ensures multiset(NotNamed(svcs, name))[s] == if s.name != name then multiset(svcs)[s] else 0
  {
    if svcs != [] {
      var init, last := svcs[..|svcs| - 1], svcs[|svcs| - 1];
      OthersCount(init, name, s);
      assert svcs == init + [last];
    }
  }
}
