/** The ContextRoute controller: one Reconcile as a step on the cluster's
    objects, and what any number of steps in any order leads to. */
module Reconcile {
  import opened Wire
  import opened Api
  import opened Ownership
  import opened MeshRoute
  import Order

  datatype Key = Key(ns: string, name: string)

  datatype Status = Status(targetService: string, conflict: Option<string>, variants: seq<string>, ready: string)

  datatype Store = Store(
    crs: seq<ContextRoute>, svcs: seq<Service>, ets: seq<EdgeTransformation>,
    finalizers: set<Key>, status: map<Key, Status>, routes: map<Key, HTTPRoute>)

  datatype Outcome = Done | Requeue | Failed

  function KeyOf(cr: ContextRoute): Key {
    Key(cr.ns, cr.name)
  }

  function Lookup(crs: seq<ContextRoute>, k: Key): Option<ContextRoute> {
    if crs == [] then None
    else if KeyOf(crs[0]) == k then Some(crs[0])
    else Lookup(crs[1..], k)
  }

  function FindService(svcs: seq<Service>, ns: string, name: string): Option<Service> {
    if svcs == [] then None
    else if svcs[0].ns == ns && svcs[0].name == name then Some(svcs[0])
    else FindService(svcs[1..], ns, name)
  }

  predicate HasET(ets: seq<EdgeTransformation>, ns: string, target: string) {
    exists i :: 0 <= i < |ets| && ets[i].ns == ns && !ets[i].deleting && ets[i].target == target
  }

  predicate GammaSupported(svc: Service) {
    svc.kind == "" || svc.kind == "ClusterIP"
  }

  function StatusOf(s: Store, k: Key): Status {
    if k in s.status then s.status[k] else Status("", None, [], "")
  }

  function RouteKey(ns: string, target: string): Key {
    Key(ns, RouteName(target))
  }

  /** deleteOwnedHTTPRoute. */
  function DropRoute(routes: map<Key, HTTPRoute>, ns: string, target: string): map<Key, HTTPRoute> {
    if target == "" then routes else routes - {RouteKey(ns, target)}
  }

  function SortedNames(svcs: seq<Service>): seq<string> {
    Order.SortBy(Order.Keys(svcs, (s: Service) => s.name), s => s)
  }

  /** One Reconcile. */
  function Step(s: Store, k: Key): (Store, Outcome) {
    match Lookup(s.crs, k)
    case None => (s, Done)
    case Some(cr) =>
      if cr.deleting then
        if k in s.finalizers then
          (s.(routes := DropRoute(s.routes, cr.ns, StatusOf(s, k).targetService),
              finalizers := s.finalizers - {k}, crs := Removed(s.crs, k)), Done)
        else (s, Done)
      else if k !in s.finalizers then (s.(finalizers := s.finalizers + {k}), Requeue)
      else
        var st := StatusOf(s, k).(targetService := cr.target);
        var owner := Oldest(s.crs, OnTarget(cr.ns, cr.target));
        if owner.Some? && owner.value.name != cr.name then
          (Report(s, k, st.(conflict := Some(owner.value.name), variants := [], ready := "Conflict")), Done)
        else if !PassesKey(s.crs, cr) then
          (Report(s, k, st.(conflict := None, variants := [], ready := "RoutingKeyConflict")), Done)
        else
          Program(s, k, cr, st.(conflict := None))
  }

  function Removed(crs: seq<ContextRoute>, k: Key): seq<ContextRoute> {
    if crs == [] then [] else (if KeyOf(crs[0]) == k then [] else [crs[0]]) + Removed(crs[1..], k)
  }

  function Report(s: Store, k: Key, st: Status): Store {
    s.(status := s.status[k := st])
  }

  /** What an accepted CR does. */
  function Program(s: Store, k: Key, cr: ContextRoute, st: Status): (Store, Outcome) {
    match FindService(s.svcs, cr.ns, cr.target)
    case None => (Report(s, k, st.(ready := "TargetNotFound")), Done)
    case Some(target) =>
      if !GammaSupported(target) then (Report(s, k, st.(ready := "UnsupportedTargetType")), Done)
      else if cr.selector.Invalid? then (s, Failed)
      else
        var variants := VariantsOf(cr, s.svcs);
        var st' := st.(variants := SortedNames(variants));
        if HasET(s.ets, cr.ns, target.name) then
          (Report(s, k, st'.(ready := "DelegatedToEdgeTransformation")).(
            routes := DropRoute(s.routes, cr.ns, cr.target)), Done)
        else
          (Report(s, k, st'.(ready := "Reconciled")).(
            routes := s.routes[RouteKey(target.ns, target.name) := CRRoute(cr, target, variants, true)]), Done)
  }

  // ----- The controller as code on the API server's objects ----------------------

  method HasEdgeTransformationOnTarget(ets: seq<EdgeTransformation>, ns: string, target: string) returns (has: bool)
    ensures has == HasET(ets, ns, target)
  {
    for i := 0 to |ets|
      invariant forall j :: 0 <= j < i ==> !(ets[j].ns == ns && !ets[j].deleting && ets[j].target == target)
    {
      if ets[i].ns == ns && !ets[i].deleting && ets[i].target == target {
        return true;
      }
    }
    has := false;
  }

  class Cluster {
    var crs: seq<ContextRoute>
    var svcs: seq<Service>
    var ets: seq<EdgeTransformation>
    var finalizers: set<Key>
    var status: map<Key, Status>
    var routes: map<Key, HTTPRoute>

    function State(): Store
      reads this
    {
      Store(crs, svcs, ets, finalizers, status, routes)
    }

    method Reconcile(k: Key) returns (outcome: Outcome)
      requires WellFormed(crs)
      modifies this`crs, this`finalizers, this`status, this`routes
      ensures (State(), outcome) == Step(old(State()), k)
    {
      var found := Lookup(crs, k);
      if found.None? { return Done; }
      var cr := found.value;
      if cr.deleting {
        if k in finalizers {
          routes := DropRoute(routes, cr.ns, StatusOf(State(), k).targetService);
          finalizers := finalizers - {k};
          crs := Removed(crs, k);
        }
        return Done;
      }
      if k !in finalizers {
        finalizers := finalizers + {k};
        return Requeue;
      }
      var st := StatusOf(State(), k).(targetService := cr.target);
      var owner := ResolveOwner(crs, cr);
      if owner.Some? && owner.value.name != cr.name {
        status := status[k := st.(conflict := Some(owner.value.name), variants := [], ready := "Conflict")];
        return Done;
      }
      st := st.(conflict := None);
      var keyOwner := FindKeyOwner(crs, cr);
      if keyOwner.Some? && Older(keyOwner.value, cr) {
        status := status[k := st.(variants := [], ready := "RoutingKeyConflict")];
        return Done;
      }
      var target := FindService(svcs, cr.ns, cr.target);
      if target.None? {
        status := status[k := st.(ready := "TargetNotFound")];
        return Done;
      }
      if !GammaSupported(target.value) {
        status := status[k := st.(ready := "UnsupportedTargetType")];
        return Done;
      }
      if cr.selector.Invalid? { return Failed; }
      var variants := ExcludeTarget(Listed(cr, svcs), cr.target);
      var hasET := HasEdgeTransformationOnTarget(ets, cr.ns, target.value.name);
      if hasET {
        routes := DropRoute(routes, cr.ns, st.targetService);
      } else {
        var hr := RenderCRHTTPRoute(cr, target.value, variants, true);
        routes := routes[Key(hr.ns, hr.name) := hr];
      }
      st := st.(variants := SortedNames(variants));
      status := status[k := st.(ready := if hasET then "DelegatedToEdgeTransformation" else "Reconciled")];
      outcome := Done;
    }
  }

  // ----- Convergence ----------------------------------------------------------------

  /** The target exists and can carry an HTTPRoute, and the selector parses. */
  predicate Programmable(s: Store, c: ContextRoute) {
    && c.selector.Selects?
    && FindService(s.svcs, c.ns, c.target).Some? && GammaSupported(FindService(s.svcs, c.ns, c.target).value)
  }

  /** Names, UIDs and targets are as the API server admits them. */
  ghost predicate Admitted(s: Store) {
    WellFormed(s.crs) && forall c :: c in s.crs ==> c.target != ""
  }

  /** And no CR is terminating. */
  ghost predicate Steady(s: Store) {
    Admitted(s) && forall c :: c in s.crs ==> !c.deleting
  }

  /** The CRs that get to program their route. */
  predicate Routed(s: Store, c: ContextRoute) {
    c in s.crs && !c.deleting && Accepted(s.crs, c) && Programmable(s, c)
  }

  /** The HTTPRoute a routed CR should have: none while an EdgeTransformation has the target. */
  function Wanted(s: Store, c: ContextRoute): Option<HTTPRoute>
    requires c.selector.Selects? && FindService(s.svcs, c.ns, c.target).Some?
  {
    if HasET(s.ets, c.ns, c.target) then None
    else Some(CRRoute(c, FindService(s.svcs, c.ns, c.target).value, VariantsOf(c, s.svcs), true))
  }

  function RouteAt(routes: map<Key, HTTPRoute>, k: Key): Option<HTTPRoute> {
    if k in routes then Some(routes[k]) else None
  }

  lemma {:induction false} LookupIs(crs: seq<ContextRoute>, k: Key)
    ensures match Lookup(crs, k)
      case None => forall c :: c in crs ==> KeyOf(c) != k
      case Some(c) => c in crs && KeyOf(c) == k
  {
    if crs != [] {
      LookupIs(crs[1..], k);
      assert forall c :: c in crs <==> c == crs[0] || c in crs[1..];
    }
  }

  /** Names being unique, a CR is found under its own key. */
  lemma LookupOf(crs: seq<ContextRoute>, c: ContextRoute)
    requires WellFormed(crs) && c in crs
    ensures Lookup(crs, KeyOf(c)) == Some(c)
  {
    LookupIs(crs, KeyOf(c));
  }

  lemma {:induction false} ServiceIs(svcs: seq<Service>, ns: string, name: string)
    ensures match FindService(svcs, ns, name)
      case None => forall svc :: svc in svcs ==> svc.ns != ns || svc.name != name
      case Some(svc) => svc in svcs && svc.ns == ns && svc.name == name
  {
    if svcs != [] {
      ServiceIs(svcs[1..], ns, name);
      assert forall svc :: svc in svcs <==> svc == svcs[0] || svc in svcs[1..];
    }
  }

  /** The CR that programs its route in this step, if any. */
  predicate Programs(s: Store, k: Key, c: ContextRoute) {
    && Lookup(s.crs, k) == Some(c) && k in s.finalizers
    && !c.deleting && Accepted(s.crs, c) && Programmable(s, c)
  }

  /** The route whose deletion this step finishes: the one a terminating CR's status records. */
  function Drops(s: Store, k: Key): Option<Key> {
    match Lookup(s.crs, k)
    case None => None
    case Some(c) =>
      var recorded := StatusOf(s, k).targetService;
      if c.deleting && k in s.finalizers && recorded != "" then Some(RouteKey(c.ns, recorded)) else None
  }

  /** What a step does to the routes, case by case. */
  lemma StepRoutes(s: Store, k: Key, c: ContextRoute)
    requires Lookup(s.crs, k) == Some(c) && !c.deleting && c.target != ""
    ensures var (s', o) := Step(s, k);
      && (o == Requeue <==> k !in s.finalizers)
      && (o == Failed <==> k in s.finalizers && FailsOnSelector(s, c))
      && s'.routes ==
           if !Programs(s, k, c) then s.routes
           else if Wanted(s, c).None? then s.routes - {RouteKey(c.ns, c.target)}
           else s.routes[RouteKey(c.ns, c.target) := Wanted(s, c).value]
  {
    hide HasET, VariantsOf, CRRoute, PassesKey, Oldest, SortedNames, Order.LE;
    ServiceIs(s.svcs, c.ns, c.target);
  }

  /** The one case in which Reconcile returns an error. */
  predicate FailsOnSelector(s: Store, c: ContextRoute) {
    && Accepted(s.crs, c) && c.selector.Invalid?
    && FindService(s.svcs, c.ns, c.target).Some? && GammaSupported(FindService(s.svcs, c.ns, c.target).value)
  }

  predicate SameSpecs(s: Store, t: Store) {
    t.crs == s.crs && t.svcs == s.svcs && t.ets == s.ets
  }

  lemma StepSpecs(s: Store, k: Key)
    requires Steady(s)
    ensures SameSpecs(s, Step(s, k).0)
  {
    hide Oldest, PassesKey, Program, DropRoute, Removed;
    LookupIs(s.crs, k);
    if Lookup(s.crs, k).Some? {
      var cr := Lookup(s.crs, k).value;
      ProgramSpecs(s, k, cr, StatusOf(s, k).(targetService := cr.target, conflict := None));
    }
  }

  lemma ProgramSpecs(s: Store, k: Key, cr: ContextRoute, st: Status)
    ensures SameSpecs(s, Program(s, k, cr, st).0)
  {
    hide VariantsOf, HasET, CRRoute, SortedNames, FindService, DropRoute, GammaSupported;
  }

  /** A step touches at most the route of the CR it programs, which it settles, or
      the one whose deletion it finishes, which is gone. */
  lemma StepEffect(s: Store, k: Key)
    requires Admitted(s)
    ensures var (s', o) := Step(s, k);
      && (o == Requeue ==> s'.routes == s.routes)
      && (o == Done ==> forall c :: Routed(s, c) && KeyOf(c) == k ==> Programs(s, k, c))
      && (forall c :: Programs(s, k, c) ==>
           && Routed(s, c) && KeyOf(c) == k && o == Done
           && RouteAt(s'.routes, RouteKey(c.ns, c.target)) == Wanted(s, c))
      && (Drops(s, k).Some? ==> RouteAt(s'.routes, Drops(s, k).value) == None)
      && (forall r :: (forall c :: Programs(s, k, c) ==> r != RouteKey(c.ns, c.target)) && Drops(s, k) != Some(r) ==>
           RouteAt(s'.routes, r) == RouteAt(s.routes, r))
  {
    hide Accepted, Step, Wanted, FindService, GammaSupported;
    LookupIs(s.crs, k);
    match Lookup(s.crs, k)
    case None => NobodyThere(s, k);
    case Some(c) =>
      if c.deleting { DeletingStep(s, k, c); } else { StepRoutes(s, k, c); }
      assert forall d :: Programs(s, k, d) ==> d == c;
      assert forall d :: d in s.crs && KeyOf(d) == k ==> d == c;
  }

  lemma NothingDropped(s: Store, k: Key)
    requires Steady(s)
    ensures Drops(s, k).None?
  {
    LookupIs(s.crs, k);
  }

  lemma DeletingStep(s: Store, k: Key, c: ContextRoute)
    requires Lookup(s.crs, k) == Some(c) && c.deleting
    ensures var (s', o) := Step(s, k);
      o == Done && s'.routes == if Drops(s, k).Some? then s.routes - {Drops(s, k).value} else s.routes
  {
  }

  lemma NobodyThere(s: Store, k: Key)
    requires Lookup(s.crs, k).None?
    ensures Step(s, k) == (s, Done)
  {
  }

  function Run(s: Store, ks: seq<Key>): Store
    decreases |ks|
  {
    if ks == [] then s else Run(Step(s, ks[0]).0, ks[1..])
  }

  /** The CRs that were reconciled to the end: no requeue and no error. */
  function Finished(s: Store, ks: seq<Key>): set<Key>
    decreases |ks|
  {
    if ks == [] then {}
    else
      var (s', o) := Step(s, ks[0]);
      (if o == Done then {ks[0]} else {}) + Finished(s', ks[1..])
  }

  lemma RouteKeyInjective(ns: string, target: string, ns': string, target': string)
    requires RouteKey(ns, target) == RouteKey(ns', target')
    ensures ns == ns' && target == target'
  {
    var p := "route-prism-cr-";
    assert RouteName(target)[|p|..] == target && RouteName(target')[|p|..] == target';
  }

  /** The routes of different routed CRs are separate, so one step settles one of them for good. */
  lemma StepOnRoute(s: Store, k: Key, c: ContextRoute)
    requires Steady(s) && Routed(s, c)
    ensures var (s', o) := Step(s, k);
      RouteAt(s'.routes, RouteKey(c.ns, c.target)) ==
        if k == KeyOf(c) && o == Done then Wanted(s, c) else RouteAt(s.routes, RouteKey(c.ns, c.target))
  {
    hide Step, FindService, GammaSupported, PassesKey, Drops;
    StepEffect(s, k);
    NothingDropped(s, k);
    forall d | Programs(s, k, d) && RouteKey(d.ns, d.target) == RouteKey(c.ns, c.target) ensures d == c {
      RouteKeyInjective(c.ns, c.target, d.ns, d.target);
      OneOwnerPerTarget(s.crs, c, d);
    }
  }

  lemma {:induction false} RunOnRoute(s: Store, ks: seq<Key>, c: ContextRoute)
    requires Steady(s) && Routed(s, c)
    ensures RouteAt(Run(s, ks).routes, RouteKey(c.ns, c.target)) ==
      if KeyOf(c) in Finished(s, ks) then Wanted(s, c) else RouteAt(s.routes, RouteKey(c.ns, c.target))
    decreases |ks|
  {
    if ks != [] {
      hide Step, Accepted, FindService, GammaSupported, CRRoute, VariantsOf;
      StepSpecs(s, ks[0]);
      StepOnRoute(s, ks[0], c);
      RunOnRoute(Step(s, ks[0]).0, ks[1..], c);
    }
  }

  lemma {:induction false} RunElsewhere(s: Store, ks: seq<Key>, r: Key)
    requires Steady(s) && forall c :: Routed(s, c) ==> r != RouteKey(c.ns, c.target)
    ensures RouteAt(Run(s, ks).routes, r) == RouteAt(s.routes, r)
    decreases |ks|
  {
    if ks != [] {
      hide Step, Accepted, FindService, GammaSupported, CRRoute, VariantsOf, Drops;
      StepSpecs(s, ks[0]);
      StepEffect(s, ks[0]);
      NothingDropped(s, ks[0]);
      RunElsewhere(Step(s, ks[0]).0, ks[1..], r);
    }
  }

  lemma {:induction false} RunSpecs(s: Store, ks: seq<Key>)
    requires Steady(s)
    ensures SameSpecs(s, Run(s, ks))
    decreases |ks|
  {
    if ks != [] {
      hide Step;
      StepSpecs(s, ks[0]);
      RunSpecs(Step(s, ks[0]).0, ks[1..]);
    }
  }

  /** Whatever the interleaving, with no CR terminating: the route of every routed
      CR that was reconciled to the end is the rendered one, or absent when a
      live EdgeTransformation has the target, and every route that is no routed
      CR's is as it was. A CR that lost its target or key, or that has no usable
      target or selector, changes no route and keeps no other from its own. */
  lemma Converges(s: Store, ks: seq<Key>)
    requires Steady(s)
    ensures var t := Run(s, ks);
      && (forall c :: Routed(s, c) && KeyOf(c) in Finished(s, ks) ==>
            RouteAt(t.routes, RouteKey(c.ns, c.target)) == Wanted(s, c))
      && (forall r :: (forall c :: Routed(s, c) ==> r != RouteKey(c.ns, c.target)) ==>
            RouteAt(t.routes, r) == RouteAt(s.routes, r))
  {
    forall c | Routed(s, c) && KeyOf(c) in Finished(s, ks)
      ensures RouteAt(Run(s, ks).routes, RouteKey(c.ns, c.target)) == Wanted(s, c)
    {
      RunOnRoute(s, ks, c);
    }
    forall r | forall c :: Routed(s, c) ==> r != RouteKey(c.ns, c.target)
      ensures RouteAt(Run(s, ks).routes, r) == RouteAt(s.routes, r)
    {
      RunElsewhere(s, ks, r);
    }
  }

  /** Once all routed CRs are there, no further Reconcile changes any route. */
  lemma StaysConverged(s: Store, ks: seq<Key>, k: Key)
    requires Steady(s) && forall c :: Routed(s, c) ==> KeyOf(c) in Finished(s, ks)
    ensures Step(Run(s, ks), k).0.routes == Run(s, ks).routes
  {
    hide Run, Finished, Step, Accepted, FindService, GammaSupported, CRRoute, VariantsOf, Drops;
    var t := Run(s, ks);
    RunSpecs(s, ks);
    StepEffect(t, k);
    NothingDropped(t, k);
    var t' := Step(t, k).0;
    forall r ensures RouteAt(t'.routes, r) == RouteAt(t.routes, r) {
      if c :| Programs(t, k, c) && r == RouteKey(c.ns, c.target) {
        RunOnRoute(s, ks, c);
        assert RouteAt(t'.routes, r) == Wanted(t, c) == Wanted(s, c);
      }
    }
    SameRoutes(t'.routes, t.routes);
  }

  lemma SameRoutes(a: map<Key, HTTPRoute>, b: map<Key, HTTPRoute>)
    requires forall r :: RouteAt(a, r) == RouteAt(b, r)
    ensures a == b
  {
    forall r ensures (r in a <==> r in b) && (r in a ==> a[r] == b[r]) { assert RouteAt(a, r) == RouteAt(b, r); }
  }

  /** Two rounds over all CRs, in any order, are enough for everyone whose
      Reconcile does not fail: the first installs the missing finalizers, the
      second finishes. */
  lemma TwoRoundsFinish(s: Store, first: seq<Key>, second: seq<Key>)
    requires Steady(s) && forall c :: c in s.crs ==> KeyOf(c) in first && KeyOf(c) in second
    ensures forall c :: c in s.crs ==> (KeyOf(c) in Finished(s, first + second) <==> !FailsOnSelector(s, c))
  {
    hide Run, Finished, FailsOnSelector;
    forall c | c in s.crs ensures KeyOf(c) in Finished(s, first + second) <==> !FailsOnSelector(s, c) {
      if FailsOnSelector(s, c) {
        NeverFinishes(s, first + second, c);
      } else {
        RoundInstalls(s, first, KeyOf(c), c);
        RunSpecs(s, first);
        SameVerdict(s, Run(s, first), c);
        RoundFinishes(Run(s, first), second, c);
        FinishedConcat(s, first, second);
      }
    }
  }

  lemma SameVerdict(s: Store, t: Store, c: ContextRoute)
    requires SameSpecs(s, t)
    ensures FailsOnSelector(t, c) == FailsOnSelector(s, c) && Routed(t, c) == Routed(s, c)
  {
  }

  lemma StepFinalizers(s: Store, k: Key)
    requires Steady(s)
    ensures s.finalizers <= Step(s, k).0.finalizers
    ensures (exists c :: c in s.crs && KeyOf(c) == k) ==> k in Step(s, k).0.finalizers
  {
    hide Oldest, PassesKey, VariantsOf, HasET, CRRoute, SortedNames, FindService, DropRoute, GammaSupported, Removed;
    LookupIs(s.crs, k);
  }

  lemma {:induction false} RoundInstalls(s: Store, ks: seq<Key>, k: Key, c: ContextRoute)
    requires Steady(s) && c in s.crs && KeyOf(c) == k && (k in ks || k in s.finalizers)
    ensures k in Run(s, ks).finalizers
    decreases |ks|
  {
    if ks != [] {
      StepSpecs(s, ks[0]);
      StepFinalizers(s, ks[0]);
      hide Step;
      RoundInstalls(Step(s, ks[0]).0, ks[1..], k, c);
    }
  }

  lemma {:induction false} RoundFinishes(s: Store, ks: seq<Key>, c: ContextRoute)
    requires Steady(s) && c in s.crs && KeyOf(c) in s.finalizers && KeyOf(c) in ks && !FailsOnSelector(s, c)
    ensures KeyOf(c) in Finished(s, ks)
    decreases |ks|
  {
    StepSpecs(s, ks[0]);
    StepFinalizers(s, ks[0]);
    LookupOf(s.crs, c);
    StepRoutes(s, KeyOf(c), c);
    SameVerdict(s, Step(s, ks[0]).0, c);
    hide Step, FailsOnSelector;
    if ks[0] != KeyOf(c) { RoundFinishes(Step(s, ks[0]).0, ks[1..], c); }
  }

  lemma {:induction false} NeverFinishes(s: Store, ks: seq<Key>, c: ContextRoute)
    requires Steady(s) && c in s.crs && FailsOnSelector(s, c)
    ensures KeyOf(c) !in Finished(s, ks)
    decreases |ks|
  {
    if ks != [] {
      StepSpecs(s, ks[0]);
      LookupOf(s.crs, c);
      StepRoutes(s, KeyOf(c), c);
      SameVerdict(s, Step(s, ks[0]).0, c);
      hide Step, FailsOnSelector;
      NeverFinishes(Step(s, ks[0]).0, ks[1..], c);
    }
  }

  lemma {:induction false} FinishedConcat(s: Store, first: seq<Key>, second: seq<Key>)
    ensures Finished(s, first + second) == Finished(s, first) + Finished(Run(s, first), second)
    decreases |first|
  {
    hide Step;
    if first == [] {
      assert first + second == second;
    } else {
      assert (first + second)[1..] == first[1..] + second;
      FinishedConcat(Step(s, first[0]).0, first[1..], second);
    }
  }

  // ----- What the status says ---------------------------------------------------------

  /** The status of a CR that was reconciled to the end: it names the winner of a
      lost target, says which check failed or how the route is programmed, and
      lists the variants of a routed CR in order. */
  ghost predicate Reflects(s: Store, c: ContextRoute, st: Status) {
    && st.targetService == c.target
    && (st.ready == "Conflict" <==> !PassesTarget(s.crs, c))
    && st.conflict == (if PassesTarget(s.crs, c) then None
                       else Some(Oldest(s.crs, OnTarget(c.ns, c.target)).value.name))
    && (st.ready == "RoutingKeyConflict" <==> PassesTarget(s.crs, c) && !PassesKey(s.crs, c))
    && (st.ready == "TargetNotFound" <==> Accepted(s.crs, c) && FindService(s.svcs, c.ns, c.target).None?)
    && (st.ready == "UnsupportedTargetType" <==>
          && Accepted(s.crs, c) && FindService(s.svcs, c.ns, c.target).Some?
          && !GammaSupported(FindService(s.svcs, c.ns, c.target).value))
    && (st.ready == "DelegatedToEdgeTransformation" <==> Routed(s, c) && HasET(s.ets, c.ns, c.target))
    && (st.ready == "Reconciled" <==> Routed(s, c) && !HasET(s.ets, c.ns, c.target))
    && (Routed(s, c) ==> Order.Sorted(st.variants) && multiset(st.variants) == multiset(VariantNamesOf(s, c)))
    && (!Accepted(s.crs, c) ==> st.variants == [])
  }

  function VariantNamesOf(s: Store, c: ContextRoute): seq<string> {
    if c.selector.Selects? then Order.Keys(VariantsOf(c, s.svcs), (v: Service) => v.name) else []
  }

  lemma ProgramStatus(s: Store, k: Key, c: ContextRoute, st: Status)
    requires Program(s, k, c, st).1 == Done
    ensures var st' := StatusOf(Program(s, k, c, st).0, k);
      && st'.targetService == st.targetService && st'.conflict == st.conflict
      && (if FindService(s.svcs, c.ns, c.target).None? then st'.ready == "TargetNotFound"
          else if !GammaSupported(FindService(s.svcs, c.ns, c.target).value) then st'.ready == "UnsupportedTargetType"
          else
            && Programmable(s, c)
            && st'.ready == (if HasET(s.ets, c.ns, c.target) then "DelegatedToEdgeTransformation" else "Reconciled")
            && st'.variants == SortedNames(VariantsOf(c, s.svcs)))
  {
    hide HasET, VariantsOf, CRRoute, SortedNames, GammaSupported, DropRoute;
    ServiceIs(s.svcs, c.ns, c.target);
  }

  lemma StatusWritten(s: Store, k: Key, c: ContextRoute)
    requires Lookup(s.crs, k) == Some(c) && c in s.crs && !c.deleting && Step(s, k).1 == Done
    ensures Reflects(s, c, StatusOf(Step(s, k).0, k))
  {
    hide HasET, VariantsOf, PassesKey, Oldest, SortedNames, Order.Sorted, Program, FindService, GammaSupported;
    if Accepted(s.crs, c) {
      ProgramStatus(s, k, c, StatusOf(s, k).(targetService := c.target, conflict := None));
      if Programmable(s, c) { ListedNames(s, c); }
    }
  }

  lemma ListedNames(s: Store, c: ContextRoute)
    requires Programmable(s, c)
    ensures c.selector.Selects? && Order.Sorted(SortedNames(VariantsOf(c, s.svcs)))
    ensures multiset(SortedNames(VariantsOf(c, s.svcs))) == multiset(VariantNamesOf(s, c))
  {
    NamesSorted(VariantsOf(c, s.svcs));
  }

  lemma NamesSorted(svcs: seq<Service>)
    ensures Order.Sorted(SortedNames(svcs))
    ensures multiset(SortedNames(svcs)) == multiset(Order.Keys(svcs, (v: Service) => v.name))
  {
    var names := Order.Keys(svcs, (v: Service) => v.name);
    Order.SortByIs(names, s => s);
    assert Order.Keys(SortedNames(svcs), s => s) == SortedNames(svcs);
  }

  lemma StatusKept(s: Store, j: Key, k: Key)
    requires Steady(s) && (j != k || Step(s, j).1 != Done)
    ensures StatusOf(Step(s, j).0, k) == StatusOf(s, k)
  {
    hide HasET, VariantsOf, CRRoute, PassesKey, Oldest, SortedNames, GammaSupported, FindService;
    LookupIs(s.crs, j);
  }

  lemma SameReflection(s: Store, t: Store, c: ContextRoute, st: Status)
    requires SameSpecs(s, t)
    ensures Reflects(t, c, st) == Reflects(s, c, st)
  {
  }

  lemma {:induction false} StatusThroughRun(s: Store, ks: seq<Key>, c: ContextRoute)
    requires Steady(s) && c in s.crs && (KeyOf(c) in Finished(s, ks) || Reflects(s, c, StatusOf(s, KeyOf(c))))
    ensures Reflects(s, c, StatusOf(Run(s, ks), KeyOf(c)))
    decreases |ks|
  {
    if ks != [] {
      hide Step, StatusOf, Reflects;
      var s', o := Step(s, ks[0]).0, Step(s, ks[0]).1;
      var k := KeyOf(c);
      StepSpecs(s, ks[0]);
      LookupOf(s.crs, c);
      if ks[0] == k && o == Done { StatusWritten(s, k, c); } else { StatusKept(s, ks[0], k); }
      SameReflection(s, s', c, StatusOf(s', k));
      StatusThroughRun(s', ks[1..], c);
      SameReflection(s, s', c, StatusOf(Run(s', ks[1..]), k));
    }
  }

  /** Through any run the status of every CR that was reconciled to the end tells
      who owns what, and Reconciled and DelegatedToEdgeTransformation tell which
      route there is. */
  lemma StatusReflectsOwnership(s: Store, ks: seq<Key>, c: ContextRoute)
    requires Steady(s) && c in s.crs && KeyOf(c) in Finished(s, ks)
    ensures var t := Run(s, ks);
      var st, route := StatusOf(t, KeyOf(c)), RouteAt(t.routes, RouteKey(c.ns, c.target));
      && Reflects(s, c, st)
      && (st.ready == "Reconciled" ==> Routed(s, c) && route.Some? && route == Wanted(s, c))
      && (st.ready == "DelegatedToEdgeTransformation" ==> route.None?)
  {
    hide Run, Finished, Accepted, StatusOf, PassesTarget, PassesKey;
    StatusThroughRun(s, ks, c);
    if Routed(s, c) { RunOnRoute(s, ks, c); }
  }

  /** The routing-key check holds a CR back exactly when an older one has its key. */
  lemma OnlyYoungerHeldBack(s: Store, ks: seq<Key>, c: ContextRoute)
    requires Steady(s) && c in s.crs && KeyOf(c) in Finished(s, ks)
    ensures StatusOf(Run(s, ks), KeyOf(c)).ready == "RoutingKeyConflict" <==>
      PassesTarget(s.crs, c) && exists o :: o in s.crs && EffectiveKey(o) == EffectiveKey(c) && Older(o, c)
  {
    hide Run, Finished, StatusOf, PassesTarget, PassesKey;
    StatusThroughRun(s, ks, c);
    PassesKeyIs(s.crs, c);
    OlderTrans(c, c, c);
    assert forall o :: o in s.crs && Older(o, c) ==> o.uid != c.uid;
  }

  /** So of two colliding CRs that both won their targets, with nobody older, only
      the younger is not ready. */
  lemma OlderOfTwoStays(s: Store, ks: seq<Key>, a: ContextRoute, b: ContextRoute)
    requires Steady(s) && a in s.crs && b in s.crs && EffectiveKey(a) == EffectiveKey(b) && Older(a, b)
    requires forall o :: o in s.crs && EffectiveKey(o) == EffectiveKey(a) ==> !Older(o, a)
    requires KeyOf(a) in Finished(s, ks) && KeyOf(b) in Finished(s, ks)
    requires PassesTarget(s.crs, a) && PassesTarget(s.crs, b)
    ensures StatusOf(Run(s, ks), KeyOf(a)).ready != "RoutingKeyConflict"
    ensures StatusOf(Run(s, ks), KeyOf(b)).ready == "RoutingKeyConflict"
    ensures Accepted(s.crs, a) && !Accepted(s.crs, b)
  {
    hide Run, Finished, StatusOf, PassesTarget, Older, EffectiveKey;
    OnlyYoungerHeldBack(s, ks, a);
    OnlyYoungerHeldBack(s, ks, b);
    StatusThroughRun(s, ks, a);
    StatusThroughRun(s, ks, b);
  }

  // ----- The status and the route, field by field --------------------------------------

  /** No live CR on c's target comes before c, by creation time and then by name. */
  ghost predicate FirstOnTarget(crs: seq<ContextRoute>, c: ContextRoute) {
    forall d :: d in crs && d.ns == c.ns && !d.deleting && d.target == c.target ==>
      c.created < d.created || (c.created == d.created && Order.LE(c.name, d.name))
  }

  /** No other CR with c's routing key comes strictly before c. */
  ghost predicate FirstOnKey(crs: seq<ContextRoute>, c: ContextRoute) {
    forall d :: d in crs && d.uid != c.uid && EffectiveKey(d) == EffectiveKey(c) ==>
      c.created < d.created || (c.created == d.created && Order.LE(c.name, d.name))
  }

  ghost predicate TargetOf(svcs: seq<Service>, c: ContextRoute, t: Service) {
    t in svcs && t.ns == c.ns && t.name == c.target
  }

  ghost predicate HandedOver(ets: seq<EdgeTransformation>, c: ContextRoute) {
    exists et :: et in ets && !et.deleting && et.ns == c.ns && et.target == c.target
  }

  /** Which check failed, in the order the checks are made, or who programs the route. */
  ghost predicate ReadyTells(s: Store, c: ContextRoute, ready: string) {
    if !FirstOnTarget(s.crs, c) then ready == "Conflict"
    else if !FirstOnKey(s.crs, c) then ready == "RoutingKeyConflict"
    else if !exists t :: TargetOf(s.svcs, c, t) then ready == "TargetNotFound"
    else exists t :: TargetOf(s.svcs, c, t) && ProgramTells(s, c, t, ready)
  }

  ghost predicate ProgramTells(s: Store, c: ContextRoute, t: Service, ready: string) {
    if t.kind != "" && t.kind != "ClusterIP" then ready == "UnsupportedTargetType"
    else if HandedOver(s.ets, c) then ready == "DelegatedToEdgeTransformation"
    else ready == "Reconciled"
  }

  ghost predicate WinnerNamed(s: Store, c: ContextRoute, conflict: Option<string>) {
    match conflict
    case None => FirstOnTarget(s.crs, c)
    case Some(name) =>
      exists w ::
        && w in s.crs && w.name == name && w.ns == c.ns && w.target == c.target && w != c
        && FirstOnTarget(s.crs, w)
  }

  lemma FirstIsAccepted(s: Store, c: ContextRoute)
    requires Steady(s) && c in s.crs
    ensures PassesTarget(s.crs, c) <==> FirstOnTarget(s.crs, c)
    ensures PassesTarget(s.crs, c) ==> (PassesKey(s.crs, c) <==> FirstOnKey(s.crs, c))
    ensures !PassesTarget(s.crs, c) ==> WinnerNamed(s, c, Some(Oldest(s.crs, OnTarget(c.ns, c.target)).value.name))
  {
    hide Order.LE, PassesKey, Oldest;
    TargetOwnerByFields(s.crs, c.ns, c.target);
    var w := Oldest(s.crs, OnTarget(c.ns, c.target)).value;
    if Order.LE(c.name, w.name) && Order.LE(w.name, c.name) { Order.LEAntisym(c.name, w.name); }
    AcceptedByFields(s.crs, c);
  }

  lemma EdgeTransformationIs(ets: seq<EdgeTransformation>, c: ContextRoute)
    ensures HasET(ets, c.ns, c.target) <==> HandedOver(ets, c)
  {
    if et :| et in ets && !et.deleting && et.ns == c.ns && et.target == c.target {
      var i :| 0 <= i < |ets| && ets[i] == et;
    }
  }

  lemma ReflectionTells(s: Store, c: ContextRoute, st: Status)
    requires Steady(s) && c in s.crs && Reflects(s, c, st) && !FailsOnSelector(s, c)
    ensures ReadyTells(s, c, st.ready) && WinnerNamed(s, c, st.conflict)
    ensures st.ready == "Reconciled" || st.ready == "DelegatedToEdgeTransformation" ==> VariantsTold(s, c, st.variants)
  {
    hide PassesTarget, PassesKey, FirstOnTarget, FirstOnKey, Order.Sorted, Order.LE, Oldest, HandedOver, HasET,
         VariantsTold, VariantNamesOf;
    FirstIsAccepted(s, c);
    EdgeTransformationIs(s.ets, c);
    ServiceIs(s.svcs, c.ns, c.target);
    var svc := FindService(s.svcs, c.ns, c.target);
    assert svc.Some? ==> TargetOf(s.svcs, c, svc.value);
    if Routed(s, c) { VariantsAreTold(s, c, st.variants); }
    assert WinnerNamed(s, c, st.conflict);
    if PassesTarget(s.crs, c) && PassesKey(s.crs, c) && svc.Some? {
      assert ProgramTells(s, c, svc.value, st.ready);
    }
  }

  /** Through any run the status of a CR that was reconciled to the end says, in
      the fields of the cluster's objects: who has the target, why it is not
      ready or how its route is programmed, and with which variants; and the
      route is there exactly as it says. */
  lemma StatusByFields(s: Store, ks: seq<Key>, c: ContextRoute)
    requires Steady(s) && c in s.crs && KeyOf(c) in Finished(s, ks)
    ensures var t := Run(s, ks);
      var st, route := StatusOf(t, KeyOf(c)), RouteAt(t.routes, Key(c.ns, "route-prism-cr-" + c.target));
      && st.targetService == c.target && ReadyTells(s, c, st.ready) && WinnerNamed(s, c, st.conflict)
      && (st.ready == "Reconciled" ==> route.Some? && route.value.parent == c.target)
      && (st.ready == "DelegatedToEdgeTransformation" ==> route.None?)
      && (st.ready == "Reconciled" || st.ready == "DelegatedToEdgeTransformation" ==> VariantsTold(s, c, st.variants))
  {
    hide Run, Finished, Accepted, ReadyTells, WinnerNamed, VariantsTold, StatusOf;
    StatusThroughRun(s, ks, c);
    if FailsOnSelector(s, c) { NeverFinishes(s, ks, c); }
    ReflectionTells(s, c, StatusOf(Run(s, ks), KeyOf(c)));
    ServiceIs(s.svcs, c.ns, c.target);
    if Routed(s, c) { RunOnRoute(s, ks, c); }
  }

  /** The names of the Services that c's selector accepts in its namespace, except
      the target, in order. */
  ghost predicate VariantsTold(s: Store, c: ContextRoute, names: seq<string>) {
    && c.selector.Selects? && Order.Sorted(names)
    && forall n :: n in names <==>
         n != c.target && exists v :: v in s.svcs && v.name == n && v.ns == c.ns && v.labels in c.selector.accepted
  }

  lemma VariantsAreTold(s: Store, c: ContextRoute, names: seq<string>)
    requires c.selector.Selects? && Order.Sorted(names) && multiset(names) == multiset(VariantNamesOf(s, c))
    ensures VariantsTold(s, c, names)
  {
    hide Order.Sorted, Order.LE, VariantsOf;
    VariantsAre(c, s.svcs);
    var vs, all := VariantsOf(c, s.svcs), VariantNamesOf(s, c);
    Order.SameElements(names, all);
    forall n | n in all
      ensures n != c.target && exists v :: v in s.svcs && v.name == n && v.ns == c.ns && v.labels in c.selector.accepted
    {
      var i :| 0 <= i < |all| && all[i] == n;
      assert vs[i] in vs;
    }
    forall v | v in s.svcs && v.ns == c.ns && v.labels in c.selector.accepted && v.name != c.target
      ensures v.name in all
    {
      var i :| 0 <= i < |vs| && vs[i] == v;
      assert all[i] == v.name;
    }
  }

  /** A CR without a usable target keeps the variants its status listed before. */
  lemma VariantsKept(s: Store, c: ContextRoute)
    requires Steady(s) && c in s.crs && KeyOf(c) in s.finalizers && Accepted(s.crs, c)
    requires forall t :: TargetOf(s.svcs, c, t) ==> t.kind != "" && t.kind != "ClusterIP"
    ensures StatusOf(Step(s, KeyOf(c)).0, KeyOf(c)).variants == StatusOf(s, KeyOf(c)).variants
  {
    hide PassesKey, Oldest, CRRoute, VariantsOf, HasET, DropRoute, SortedNames;
    LookupOf(s.crs, c);
    ServiceIs(s.svcs, c.ns, c.target);
    var svc := FindService(s.svcs, c.ns, c.target);
    assert svc.Some? ==> TargetOf(s.svcs, c, svc.value);
  }

  // ----- Deleting a CR that lost its target -------------------------------------------

  /** Finishing the deletion of d spares a route exactly when d's status does not
      record its target. */
  lemma DeletionSpares(s: Store, d: ContextRoute, ns: string, target: string)
    requires WellFormed(s.crs) && d in s.crs && d.deleting && KeyOf(d) in s.finalizers
    requires target != "" && RouteKey(ns, target) in s.routes
    ensures var s' := Step(s, KeyOf(d)).0;
      && (RouteKey(ns, target) in s'.routes <==> !(d.ns == ns && StatusOf(s, KeyOf(d)).targetService == target))
      && (forall r :: r in s'.routes ==> r in s.routes && s'.routes[r] == s.routes[r])
      && s'.finalizers == s.finalizers - {KeyOf(d)} && (forall c :: c in s'.crs <==> c in s.crs && c != d)
  {
    LookupOf(s.crs, d);
    RemovedIs(s.crs, KeyOf(d));
    var recorded := StatusOf(s, KeyOf(d)).targetService;
    if RouteKey(d.ns, recorded) == RouteKey(ns, target) { RouteKeyInjective(d.ns, recorded, ns, target); }
  }

  lemma {:induction false} RemovedIs(crs: seq<ContextRoute>, k: Key)
    ensures forall c :: c in Removed(crs, k) <==> c in crs && KeyOf(c) != k
  {
    if crs != [] {
      RemovedIs(crs[1..], k);
      assert forall c :: c in crs <==> c == crs[0] || c in crs[1..];
    }
  }

  /** Lists that differ, up to deletion marks, only in CRs other than c accept c alike. */
  lemma StaysAccepted(crs: seq<ContextRoute>, rest: seq<ContextRoute>, c: ContextRoute)
    requires WellFormed(crs) && WellFormed(rest) && c in crs && c in rest && !c.deleting && Accepted(crs, c)
    requires forall e :: e in rest ==> e in crs || (e.deleting && e.(deleting := false) in crs)
    ensures Accepted(rest, c)
  {
    PassesKeyIs(crs, c);
    PassesKeyIs(rest, c);
    forall e | e in rest && Rivals(c)(e) ensures !Older(e, c) {
      if e !in crs { assert Rivals(c)(e.(deleting := false)); }
    }
    var p := OnTarget(c.ns, c.target);
    OldestIs(crs, p);
    assert p(c) && IsOldest(c, crs, p);
    assert forall e :: e in rest && p(e) ==> e in crs;
    OldestUnique(rest, p, c);
  }

  /** A CR that lost its target to c records that target in its status all the
      same, so finishing its deletion removes c's route; the next Reconcile of c
      puts it back. */
  lemma LoserDeletionDropsAndRestores(s: Store, d: ContextRoute, c: ContextRoute)
    requires WellFormed(s.crs) && d in s.crs && d.deleting && KeyOf(d) in s.finalizers
    requires Routed(s, c) && c.target != "" && KeyOf(c) in s.finalizers
    requires d.ns == c.ns && StatusOf(s, KeyOf(d)).targetService == c.target
    ensures var s1 := Step(s, KeyOf(d)).0;
      && RouteAt(s1.routes, RouteKey(c.ns, c.target)) == None
      && RouteAt(Step(s1, KeyOf(c)).0.routes, RouteKey(c.ns, c.target)) == Wanted(s, c)
  {
    LookupOf(s.crs, d);
    var s1 := Step(s, KeyOf(d)).0;
    assert s1.crs == Removed(s.crs, KeyOf(d)) && s1.routes == DropRoute(s.routes, d.ns, c.target);
    RemovedIs(s.crs, KeyOf(d));
    hide Step, Accepted;
    StaysAccepted(s.crs, s1.crs, c);
    LookupOf(s1.crs, c);
    StepRoutes(s1, KeyOf(c), c);
  }

  /** kubectl delete: the API server sets the deletion timestamp and waits for the finalizer. */
  function Marked(crs: seq<ContextRoute>, k: Key): seq<ContextRoute> {
    if crs == [] then []
    else [if KeyOf(crs[0]) == k then crs[0].(deleting := true) else crs[0]] + Marked(crs[1..], k)
  }

  lemma {:induction false} MarkedIs(crs: seq<ContextRoute>, k: Key)
    ensures forall c :: c in crs && KeyOf(c) != k ==> c in Marked(crs, k)
    ensures forall c :: c in crs && KeyOf(c) == k ==> c.(deleting := true) in Marked(crs, k)
    ensures forall e :: e in Marked(crs, k) ==>
      (e in crs && KeyOf(e) != k) ||
      exists c :: c in crs && KeyOf(c) == k && e == c.(deleting := true)
  {
    if crs != [] {
      MarkedIs(crs[1..], k);
      assert forall c :: c in crs <==> c == crs[0] || c in crs[1..];
      assert forall e :: e in Marked(crs, k) <==> e == Marked(crs, k)[0] || e in Marked(crs[1..], k);
    }
  }

  lemma MarkedWellFormed(crs: seq<ContextRoute>, k: Key)
    requires WellFormed(crs)
    ensures WellFormed(Marked(crs, k))
  {
    MarkedIs(crs, k);
    hide Marked;
    forall a, b | a in Marked(crs, k) && b in Marked(crs, k) && (a.uid == b.uid || (a.ns == b.ns && a.name == b.name))
      ensures a == b
    {
      var a0 := Original(crs, k, a);
      var b0 := Original(crs, k, b);
    }
  }

  lemma Original(crs: seq<ContextRoute>, k: Key, e: ContextRoute) returns (c: ContextRoute)
    requires e in Marked(crs, k)
    ensures c in crs && KeyOf(c) == KeyOf(e) && c.uid == e.uid
    ensures e == if KeyOf(c) == k then c.(deleting := true) else c
  {
    MarkedIs(crs, k);
    if e in crs && KeyOf(e) != k {
      c := e;
    } else {
      c :| c in crs && KeyOf(c) == k && e == c.(deleting := true);
    }
  }

  lemma LosesTarget(crs: seq<ContextRoute>, l: ContextRoute, c: ContextRoute)
    requires WellFormed(crs) && l in crs && c in crs && !l.deleting && !c.deleting && Accepted(crs, c)
    requires l != c && l.ns == c.ns && l.target == c.target
    ensures !PassesTarget(crs, l)
  {
    if PassesTarget(crs, l) { OneOwnerPerTarget(crs, l, c); }
  }

  lemma {:induction false} FinishedInstalled(s: Store, ks: seq<Key>, c: ContextRoute)
    requires Steady(s) && c in s.crs && KeyOf(c) in Finished(s, ks)
    ensures KeyOf(c) in Run(s, ks).finalizers
    decreases |ks|
  {
    var s' := Step(s, ks[0]).0;
    StepSpecs(s, ks[0]);
    StepFinalizers(s, ks[0]);
    hide Step;
    if KeyOf(c) in Finished(s', ks[1..]) { FinishedInstalled(s', ks[1..], c); }
    else { RoundInstalls(s', ks[1..], KeyOf(c), c); }
  }

  /** Where that leads from any steady store: once the winner c and the loser l
      of one target have been reconciled to the end, deleting l takes c's route
      away until c is reconciled again. */
  lemma DeletingLoserDropsRoute(s: Store, ks: seq<Key>, l: ContextRoute, c: ContextRoute)
    requires Steady(s) && Routed(s, c) && l in s.crs && l != c && l.ns == c.ns && l.target == c.target
    requires KeyOf(l) in Finished(s, ks) && KeyOf(c) in Finished(s, ks)
    ensures var r, t := RouteKey(c.ns, c.target), Run(s, ks);
      var deleted := Step(t.(crs := Marked(t.crs, KeyOf(l))), KeyOf(l)).0;
      && StatusOf(t, KeyOf(l)).ready == "Conflict"
      && RouteAt(t.routes, r) == Wanted(s, c)
      && RouteAt(deleted.routes, r) == None
      && RouteAt(Step(deleted, KeyOf(c)).0.routes, r) == Wanted(s, c)
  {
    var t, k := Run(s, ks), KeyOf(l);
    RunSpecs(s, ks);
    RunOnRoute(s, ks, c);
    StatusThroughRun(s, ks, l);
    FinishedInstalled(s, ks, l);
    FinishedInstalled(s, ks, c);
    LosesTarget(s.crs, l, c);
    var u := t.(crs := Marked(t.crs, k));
    MarkedIs(t.crs, k);
    MarkedWellFormed(t.crs, k);
    hide Run, Finished, Step, Accepted, Marked;
    StaysAccepted(t.crs, u.crs, c);
    LoserDeletionDropsAndRestores(u, l.(deleting := true), c);
  }

  /** Such a store, reached from one where nothing has been reconciled yet: two
      CRs on Service web, each visited twice. */
  lemma LoserDeletionExample(a: ContextRoute, b: ContextRoute, web: Service) returns (s: Store, ks: seq<Key>)
    requires a == ContextRoute("n", "a", 1, 1, false, "web", "ka", Selects({}))
    requires b == ContextRoute("n", "b", 2, 2, false, "web", "kb", Selects({}))
    requires web == Service("n", "web", "ClusterIP", map[], [80])
    ensures s == Store([a, b], [web], [], {}, map[], map[])
    ensures var t, r := Run(s, ks), RouteKey("n", "web");
      r in t.routes && r !in Step(t.(crs := Marked(t.crs, KeyOf(b))), KeyOf(b)).0.routes
  {
    s := Store([a, b], [web], [], {}, map[], map[]);
    var round := [KeyOf(a), KeyOf(b)];
    ks := round + round;
    assert a.name[0] != b.name[0];
    assert FindService([web], "n", "web") == Some(web);
    ExampleAccepts(a, b);
    hide Run, Finished, Step, Accepted, Marked;
    TwoRoundsFinish(s, round, round);
    DeletingLoserDropsRoute(s, ks, b, a);
  }

  lemma ExampleAccepts(a: ContextRoute, b: ContextRoute)
    requires a == ContextRoute("n", "a", 1, 1, false, "web", "ka", Selects({}))
    requires b == ContextRoute("n", "b", 2, 2, false, "web", "kb", Selects({}))
    ensures WellFormed([a, b]) && Accepted([a, b], a)
  {
    assert "ka"[1] != "kb"[1] && "a"[0] != "b"[0];
    var p := OnTarget("n", "web");
    OldestIs([a, b], p);
    assert IsOldest(a, [a, b], p) by { assert p(a); }
    OldestUnique([a, b], p, a);
    PassesKeyIs([a, b], a);
  }
}
