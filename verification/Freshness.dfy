/** How the index is kept fresh: informer events, the debouncer's timer, the
    rebuild lock, the separate List reads and the atomic publication, as a state
    machine whose steps may interleave in any order. */
module Freshness {
  import opened Wire
  import opened Api
  import opened Index
  import opened BuildContent

  datatype Kind = CR | SVC | ET | RR

  /** A value of the informer cache and the number of updates that led to it. */
  datatype Cell<T> = Cell(ver: nat, val: T)

  datatype World = World(
    crs: Cell<seq<ContextRoute>>, svcs: Cell<seq<Service>>,
    ets: Cell<seq<EdgeTransformation>>, rrs: Cell<seq<RemoteRoute>>)

  /** What one Rebuild has read so far. It lists Services once per owner that
      has a usable selector, so these reads may see different versions. */
  datatype Reads = Reads(
    crs: Option<Cell<seq<ContextRoute>>>, ets: Option<Cell<seq<EdgeTransformation>>>,
    rrs: Option<Cell<seq<RemoteRoute>>>, svcs: map<string, Cell<seq<Service>>>)

  datatype Published = Published(snap: Snapshot, seen: Reads)

  datatype State = State(
    world: World,
    registered: set<Kind>,        // kinds whose event handler has been added
    pending: map<Kind, nat>,      // events not yet delivered to the handlers
    timer: bool,                  // the debouncer's timer is armed
    started: bool,                // Start has launched the initial Rebuild
    queued: nat,                  // Rebuild calls waiting for rebuildMu
    job: Option<Reads>,           // the Rebuild that holds rebuildMu
    pub: Option<Published>)       // the snapshot pointer, None for emptySnapshot

  datatype Action =
    | Update(kind: Kind)
    | Register(kind: Kind, existing: nat)
    | Launch
    | Deliver(kind: Kind)
    | Fire
    | Acquire
    | ReadCRs | ReadETs | ReadRRs | ReadServices(key: string)
    | Publish(snap: Snapshot)
    | Fail
    | Stop

  // ----- Rebuild's reads -----------------------------------------------------------

  function NeededKeys(crs: seq<ContextRoute>): set<string> {
    set k | k in OwnerKeys(crs) && OwnerOf(crs, k).Some? && OwnerOf(crs, k).value.selector.Selects?
  }

  predicate AllRead(r: Reads) {
    r.crs.Some? && r.ets.Some? && r.rrs.Some? && r.svcs.Keys == NeededKeys(r.crs.value.val)
  }

  function ListsFrom(r: Reads): Lists
    requires AllRead(r)
  {
    var crs := r.crs.value.val;
    Lists(crs, r.ets.value.val, r.rrs.value.val,
          map k | k in NeededKeys(crs) :: Listed(OwnerOf(crs, k).value, r.svcs[k].val))
  }

  /** All lists taken from the cache at one instant. */
  function ReadsOf(w: World): Reads {
    Reads(Some(w.crs), Some(w.ets), Some(w.rrs), map k | k in NeededKeys(w.crs.val) :: w.svcs)
  }

  // ----- Steps -------------------------------------------------------------------------

  predicate Initial(s: State) {
    && s.registered == {} && (forall k: Kind :: Pending(s, k) == 0)
    && !s.timer && !s.started && s.queued == 0 && s.job.None? && s.pub.None?
  }

  /** Only this kind's cell moves on, by one version. */
  predicate Updates(k: Kind, w: World, w': World) {
    match k
    case CR => w' == w.(crs := w'.crs) && w'.crs.ver == w.crs.ver + 1
    case SVC => w' == w.(svcs := w'.svcs) && w'.svcs.ver == w.svcs.ver + 1
    case ET => w' == w.(ets := w'.ets) && w'.ets.ver == w.ets.ver + 1
    case RR => w' == w.(rrs := w'.rrs) && w'.rrs.ver == w.rrs.ver + 1
  }

  /** registerEventHandlers goes through the kinds in this order. */
  predicate NextToRegister(s: State, k: Kind) {
    s.registered == match k case CR => {} case SVC => {CR} case ET => {CR, SVC} case RR => {CR, SVC, ET}
  }

  predicate EveryKind(ks: set<Kind>) {
    CR in ks && SVC in ks && ET in ks && RR in ks
  }

  function Pending(s: State, k: Kind): nat {
    if k in s.pending then s.pending[k] else 0
  }

  ghost predicate Next(a: Action, s: State, s': State) {
    match a
    case Update(k) =>
      && Updates(k, s.world, s'.world)
      && s' == s.(world := s'.world,
                  pending := if k in s.registered then s.pending[k := Pending(s, k) + 1] else s.pending)
    case Register(k, existing) =>
      && NextToRegister(s, k)
      && s' == s.(registered := s.registered + {k}, pending := s.pending[k := Pending(s, k) + existing])
    case Launch =>
      EveryKind(s.registered) && !s.started && s' == s.(started := true, queued := s.queued + 1)
    case Deliver(k) =>
      Pending(s, k) > 0 && s' == s.(pending := s.pending[k := Pending(s, k) - 1], timer := true)
    case Fire =>
      s.timer && s' == s.(timer := false, queued := s.queued + 1)
    case Acquire =>
      s.job.None? && s.queued > 0 && s' == s.(queued := s.queued - 1, job := Some(Reads(None, None, None, map[])))
    case ReadCRs =>
      s.job.Some? && s.job.value.crs.None? && s' == s.(job := Some(s.job.value.(crs := Some(s.world.crs))))
    case ReadETs =>
      && s.job.Some? && s.job.value.crs.Some? && s.job.value.ets.None?
      && s' == s.(job := Some(s.job.value.(ets := Some(s.world.ets))))
    case ReadRRs =>
      && s.job.Some? && s.job.value.ets.Some? && s.job.value.rrs.None?
      && s' == s.(job := Some(s.job.value.(rrs := Some(s.world.rrs))))
    case ReadServices(key) =>
      && s.job.Some? && s.job.value.crs.Some? && s.job.value.rrs.Some?
      && key in NeededKeys(s.job.value.crs.value.val) && key !in s.job.value.svcs
      && s' == s.(job := Some(s.job.value.(svcs := s.job.value.svcs[key := s.world.svcs])))
    case Publish(snap) =>
      && s.job.Some? && AllRead(s.job.value) && IsBuild(snap, ListsFrom(s.job.value))
      && s' == s.(job := None, pub := Some(Published(snap, s.job.value)))
    case Fail =>
      s.job.Some? && s' == s.(job := None)
    case Stop =>
      s' == s.(timer := false)
  }

  /** states is a run under these actions, List errors and stops included. */
  ghost predicate Run(states: seq<State>, acts: seq<Action>) {
    && |states| == |acts| + 1 && Initial(states[0])
    && forall i :: 0 <= i < |acts| ==> Next(acts[i], states[i], states[i + 1])
  }

  /** Nothing is on its way any more. */
  predicate Quiescent(s: State) {
    && s.started && (forall k: Kind :: Pending(s, k) == 0)
    && !s.timer && s.queued == 0 && s.job.None?
  }

  /** Whether a rebuild has gone missing: a List error ended it, or stop
      disarmed the timer before it, and no other one has begun since. */
  predicate MissedAfter(a: Action, s: State, missed: bool) {
    match a
    case Fail => true
    case Stop => missed || s.timer
    case Acquire => false
    case _ => missed
  }

  predicate Missed(states: seq<State>, acts: seq<Action>, i: nat)
    requires i <= |acts| < |states|
  {
    i > 0 && MissedAfter(acts[i - 1], states[i - 1], Missed(states, acts, i - 1))
  }

  // ----- The invariant --------------------------------------------------------------

  /** A later Rebuild that will see this kind's current value is still to come. */
  predicate Signalled(s: State, k: Kind) {
    !s.started || Pending(s, k) > 0 || s.timer || s.queued > 0
  }

  /** Whatever r has read of this kind is the current value. */
  predicate UpToDate(r: Reads, w: World, k: Kind) {
    match k
    case CR => r.crs.Some? ==> r.crs.value == w.crs
    case ET => r.ets.Some? ==> r.ets.value == w.ets
    case RR => r.rrs.Some? ==> r.rrs.value == w.rrs
    case SVC => forall key :: key in r.svcs ==> r.svcs[key] == w.svcs
  }

  /** What will be, or is, in the published snapshot. */
  function View(s: State): Option<Reads> {
    if s.job.Some? then s.job else if s.pub.Some? then Some(s.pub.value.seen) else None
  }

  ghost predicate Inv(s: State, missed: bool) {
    && (s.started ==> EveryKind(s.registered))
    && (s.pub.Some? ==> AllRead(s.pub.value.seen) && IsBuild(s.pub.value.snap, ListsFrom(s.pub.value.seen)))
    && (!missed && View(s).None? ==> !s.started || s.queued > 0)
    && (!missed ==> forall k: Kind :: Signalled(s, k) || (View(s).Some? && UpToDate(View(s).value, s.world, k)))
  }

  lemma InvStep(a: Action, s: State, s': State, missed: bool)
    requires Inv(s, missed) && Next(a, s, s')
    ensures Inv(s', MissedAfter(a, s, missed))
  {
    hide IsBuild, ListsFrom, AllRead, NeededKeys;
    if !MissedAfter(a, s, missed) {
      forall k: Kind ensures Signalled(s', k) || (View(s').Some? && UpToDate(View(s').value, s'.world, k)) {
        if !missed { assert Signalled(s, k) || (View(s).Some? && UpToDate(View(s).value, s.world, k)); }
        if a.Update? && a.kind == k && s.started { assert k in s.registered; }
      }
    }
  }

  lemma {:induction false} InvHolds(states: seq<State>, acts: seq<Action>, i: nat)
    requires Run(states, acts) && i < |states|
    ensures Inv(states[i], Missed(states, acts, i))
  {
    if i > 0 {
      hide MissedAfter;
      InvHolds(states, acts, i - 1);
      assert Next(acts[i - 1], states[i - 1], states[i - 1 + 1]);
      InvStep(acts[i - 1], states[i - 1], states[i], Missed(states, acts, i - 1));
    }
  }

  // ----- Publications never go back --------------------------------------------------

  predicate NotNewer<T>(a: Option<Cell<T>>, b: Option<Cell<T>>) {
    a.Some? && b.Some? ==> a.value.ver <= b.value.ver
  }

  /** Every list r has read is at least as new as every one of that kind in q. */
  predicate NoStaler(q: Reads, r: Reads) {
    && NotNewer(q.crs, r.crs) && NotNewer(q.ets, r.ets) && NotNewer(q.rrs, r.rrs)
    && forall j, k :: j in q.svcs && k in r.svcs ==> q.svcs[j].ver <= r.svcs[k].ver
  }

  /** a was read from a cache cell that is now b. */
  predicate Earlier<T(==)>(a: Cell<T>, b: Cell<T>) {
    a.ver < b.ver || a == b
  }

  predicate Past(r: Reads, w: World) {
    && (r.crs.Some? ==> Earlier(r.crs.value, w.crs)) && (r.ets.Some? ==> Earlier(r.ets.value, w.ets))
    && (r.rrs.Some? ==> Earlier(r.rrs.value, w.rrs)) && forall k :: k in r.svcs ==> Earlier(r.svcs[k], w.svcs)
  }

  predicate Ordered(s: State) {
    && (s.pub.Some? ==> Past(s.pub.value.seen, s.world))
    && (s.job.Some? ==> Past(s.job.value, s.world))
    && (s.pub.Some? && s.job.Some? ==> NoStaler(s.pub.value.seen, s.job.value))
  }

  lemma OrderedStep(a: Action, s: State, s': State)
    requires Ordered(s) && Next(a, s, s')
    ensures Ordered(s')
    ensures s.pub.Some? ==> s'.pub.Some? && (s'.pub == s.pub || NoStaler(s.pub.value.seen, s'.pub.value.seen))
  {
    hide IsBuild, ListsFrom, AllRead, NeededKeys;
  }

  lemma {:induction false} OrderedHolds(states: seq<State>, acts: seq<Action>, i: nat)
    requires Run(states, acts) && i < |states|
    ensures Ordered(states[i])
  {
    if i > 0 {
      OrderedHolds(states, acts, i - 1);
      assert Next(acts[i - 1], states[i - 1], states[i - 1 + 1]);
      OrderedStep(acts[i - 1], states[i - 1], states[i]);
    }
  }

  /** A slow Rebuild never replaces what a later one read: in every run, List
      errors and stops included, each publication is at least as new, kind by
      kind, as the one before. */
  lemma PublicationsMoveForward(states: seq<State>, acts: seq<Action>, i: nat)
    requires Run(states, acts) && i < |acts| && acts[i].Publish? && states[i].pub.Some?
    ensures states[i + 1].pub.Some? && NoStaler(states[i].pub.value.seen, states[i + 1].pub.value.seen)
  {
    OrderedHolds(states, acts, i);
    assert Next(acts[i], states[i], states[i + 1]);
  }

  // ----- When the published snapshot is fresh ------------------------------------------

  function Served(s: State): Snapshot {
    if s.pub.Some? then s.pub.value.snap else EMPTY_SNAPSHOT
  }

  /** The lists the served snapshot was built from. */
  function SeenLists(s: State): Lists {
    if s.pub.Some? && AllRead(s.pub.value.seen) then ListsFrom(s.pub.value.seen) else NO_LISTS
  }

  /** The lists a Rebuild would read now. */
  function ListsNow(w: World): Lists {
    ListsFrom(ReadsOf(w))
  }

  /** The served snapshot is a build of the cache as it is now. */
  ghost predicate Fresh(s: State) {
    IsBuild(Served(s), ListsNow(s.world))
  }

  /** No kind has been updated since r read it. */
  predicate Unmoved(r: Reads, w: World) {
    && (r.crs.Some? ==> r.crs.value.ver == w.crs.ver) && (r.ets.Some? ==> r.ets.value.ver == w.ets.ver)
    && (r.rrs.Some? ==> r.rrs.value.ver == w.rrs.ver) && forall k :: k in r.svcs ==> r.svcs[k].ver == w.svcs.ver
  }

  lemma AllCurrent(r: Reads, w: World)
    requires AllRead(r) && forall k: Kind :: UpToDate(r, w, k)
    ensures r == ReadsOf(w)
  {
    hide NeededKeys;
    assert UpToDate(r, w, CR) && UpToDate(r, w, ET) && UpToDate(r, w, RR) && UpToDate(r, w, SVC);
    assert r.svcs == ReadsOf(w).svcs;
  }

  lemma NowComplete(w: World)
    ensures AllRead(ReadsOf(w)) && Complete(ListsNow(w))
  {
    ListsComplete(ReadsOf(w));
  }

  lemma ServedIsBuild(s: State, missed: bool)
    requires Inv(s, missed)
    ensures IsBuild(Served(s), SeenLists(s))
  {
    EmptyIsBuild();
  }

  /** In every reachable state, quiet or not: the served snapshot is a build of
      the current cache if and only if no routing key has come, gone or changed a
      row since the lists were read. */
  lemma FreshIffSameRows(states: seq<State>, acts: seq<Action>, i: nat)
    requires Run(states, acts) && i < |states|
    ensures Fresh(states[i]) <==> SameRows(SeenLists(states[i]), ListsNow(states[i].world))
  {
    hide IsBuild, ListsFrom, NeededKeys, Next, Missed, SameRows, Inv;
    InvHolds(states, acts, i);
    ServedIsBuild(states[i], Missed(states, acts, i));
    NowComplete(states[i].world);
    SameBuildIff(Served(states[i]), SeenLists(states[i]), ListsNow(states[i].world));
  }

  /** Over every interleaving: when no event is undelivered, no timer armed and no
      Rebuild queued or running, the served snapshot is a build of the current
      cache unless a rebuild has been missed, through a List error or a stop; and
      then it still is if no kind has moved on since it was read. */
  lemma PublishedIsFresh(states: seq<State>, acts: seq<Action>, i: nat)
    requires Run(states, acts) && i < |states| && Quiescent(states[i])
    ensures !Missed(states, acts, i) ==> states[i].pub.Some? && Fresh(states[i])
    ensures Fresh(states[i]) <==> SameRows(SeenLists(states[i]), ListsNow(states[i].world))
    ensures states[i].pub.Some? && Unmoved(states[i].pub.value.seen, states[i].world) ==> Fresh(states[i])
  {
    hide IsBuild, ListsFrom, NeededKeys, Next, Missed, Ordered, SameRows;
    var s := states[i];
    InvHolds(states, acts, i);
    OrderedHolds(states, acts, i);
    FreshIffSameRows(states, acts, i);
    if !Missed(states, acts, i) {
      assert !Signalled(s, CR) && !Signalled(s, ET) && !Signalled(s, RR) && !Signalled(s, SVC);
      AllCurrent(s.pub.value.seen, s.world);
    }
    if s.pub.Some? { UnmovedIsCurrent(s); }
  }

  /** Cells with the version the cache has now are the cache's. */
  lemma UnmovedIsCurrent(s: State)
    requires Ordered(s) && s.pub.Some? && AllRead(s.pub.value.seen)
    ensures Unmoved(s.pub.value.seen, s.world) <==> s.pub.value.seen == ReadsOf(s.world)
  {
    hide NeededKeys;
    var r, w := s.pub.value.seen, s.world;
    if Unmoved(r, w) {
      forall k: Kind ensures UpToDate(r, w, k) { }
      AllCurrent(r, w);
    }
  }

  /** Nothing the environment may do is ruled out: at any time any kind can change
      to anything, a List can fail and the server can stop. */
  lemma EnvironmentMoves(s: State, k: Kind, w: World)
    ensures exists s' ::
      && Next(Update(k), s, s')
      && match k
         case CR => s'.world.crs.val == w.crs.val
         case SVC => s'.world.svcs.val == w.svcs.val
         case ET => s'.world.ets.val == w.ets.val
         case RR => s'.world.rrs.val == w.rrs.val
    ensures s.job.Some? ==> exists s' :: Next(Fail, s, s') && s'.job.None? && s'.world == s.world
    ensures exists s' :: Next(Stop, s, s') && !s'.timer && s'.world == s.world
  {
    var now := s.world;
    var world := match k
      case CR => now.(crs := Cell(now.crs.ver + 1, w.crs.val))
      case SVC => now.(svcs := Cell(now.svcs.ver + 1, w.svcs.val))
      case ET => now.(ets := Cell(now.ets.ver + 1, w.ets.val))
      case RR => now.(rrs := Cell(now.rrs.ver + 1, w.rrs.val));
    assert Next(Update(k), s, s.(world := world,
      pending := if k in s.registered then s.pending[k := Pending(s, k) + 1] else s.pending));
    assert s.job.Some? ==> Next(Fail, s, s.(job := None));
    assert Next(Stop, s, s.(timer := false));
  }

  // ----- Quiescence is reached ---------------------------------------------------------

  /** The steps that do not depend on somebody changing the cluster. */
  predicate Internal(a: Action) {
    a.Deliver? || a.Fire? || a.Acquire? || a.ReadCRs? || a.ReadETs? || a.ReadRRs? || a.ReadServices? || a.Publish?
  }

  function Undelivered(s: State): nat {
    Pending(s, CR) + Pending(s, SVC) + Pending(s, ET) + Pending(s, RR)
  }

  function Unread(job: Option<Reads>): nat {
    match job
    case None => 0
    case Some(r) => 1 + (if r.crs.None? then 1 else 0) + (if r.ets.None? then 1 else 0) + (if r.rrs.None? then 1 else 0)
  }

  function UnreadServices(job: Option<Reads>): nat {
    if job.Some? && job.value.crs.Some? then |NeededKeys(job.value.crs.value.val) - job.value.svcs.Keys| else 0
  }

  /** What is left to do, most significant first. */
  function Work(s: State): (nat, nat, nat, nat, nat) {
    (Undelivered(s), if s.timer then 1 else 0, s.queued, Unread(s.job), UnreadServices(s.job))
  }

  predicate Less(x: (nat, nat, nat, nat, nat), y: (nat, nat, nat, nat, nat)) {
    || x.0 < y.0
    || (x.0 == y.0 && x.1 < y.1)
    || (x.0 == y.0 && x.1 == y.1 && x.2 < y.2)
    || (x.0 == y.0 && x.1 == y.1 && x.2 == y.2 && x.3 < y.3)
    || (x.0 == y.0 && x.1 == y.1 && x.2 == y.2 && x.3 == y.3 && x.4 < y.4)
  }

  /** Without further changes to the cluster the machinery comes to rest: every
      internal step leaves less to do, */
  lemma InternalStepsRunOut(a: Action, s: State, s': State)
    requires Internal(a) && Next(a, s, s')
    ensures Less(Work(s'), Work(s))
  {
    hide IsBuild, ListsFrom, NeededKeys, Pending, Undelivered, UnreadServices, AllRead, Updates;
    if a.Deliver? {
      OneEventLess(s, s', a.kind);
    } else {
      SameEvents(s, s');
      if a.ReadServices? { OneListLess(s, s', a.key); }
    }
  }

  lemma SameEvents(s: State, s': State)
    requires s'.pending == s.pending
    ensures Undelivered(s') == Undelivered(s)
  {
  }

  lemma OneEventLess(s: State, s': State, k: Kind)
    requires Pending(s, k) > 0 && s'.pending == s.pending[k := Pending(s, k) - 1]
    ensures Undelivered(s') < Undelivered(s)
  {
    assert forall j: Kind :: j != k ==> Pending(s', j) == Pending(s, j);
    assert Pending(s', k) == Pending(s, k) - 1;
    match k case CR => case SVC => case ET => case RR =>
  }

  lemma OneListLess(s: State, s': State, key: string)
    requires Next(ReadServices(key), s, s')
    ensures UnreadServices(s'.job) < UnreadServices(s.job)
  {
    hide NeededKeys, IsBuild, ListsFrom, AllRead;
    var needed, was, now := NeededKeys(s.job.value.crs.value.val), s.job.value.svcs.Keys, s'.job.value.svcs.Keys;
    assert needed - now == needed - was - {key};
    assert key in needed - was;
  }

  /** The order in which a Rebuild reads: Services only of owners it has seen. */
  predicate InOrder(r: Reads) {
    && (r.ets.Some? ==> r.crs.Some?) && (r.rrs.Some? ==> r.ets.Some?)
    && (if r.crs.Some? then r.svcs.Keys <= NeededKeys(r.crs.value.val) else r.svcs == map[])
  }

  lemma {:induction false} JobsInOrder(states: seq<State>, acts: seq<Action>, i: nat)
    requires Run(states, acts) && i < |states| && states[i].job.Some?
    ensures InOrder(states[i].job.value)
  {
    hide IsBuild, ListsFrom, NeededKeys;
    if i > 0 {
      assert Next(acts[i - 1], states[i - 1], states[i - 1 + 1]);
      if states[i - 1].job.Some? { JobsInOrder(states, acts, i - 1); }
    }
  }

  lemma ListsComplete(r: Reads)
    requires AllRead(r)
    ensures Complete(ListsFrom(r))
  {
  }

  /** The next step of the Rebuild that holds the lock. */
  lemma JobStep(s: State) returns (a: Action, s': State)
    requires s.job.Some? && InOrder(s.job.value)
    ensures Internal(a) && Next(a, s, s')
  {
    hide IsBuild, ListsFrom, NeededKeys;
    var r := s.job.value;
    if r.crs.None? {
      a, s' := ReadCRs, s.(job := Some(r.(crs := Some(s.world.crs))));
    } else if r.ets.None? {
      a, s' := ReadETs, s.(job := Some(r.(ets := Some(s.world.ets))));
    } else if r.rrs.None? {
      a, s' := ReadRRs, s.(job := Some(r.(rrs := Some(s.world.rrs))));
    } else if k :| k in NeededKeys(r.crs.value.val) && k !in r.svcs {
      a, s' := ReadServices(k), s.(job := Some(r.(svcs := r.svcs[k := s.world.svcs])));
    } else {
      assert AllRead(r);
      ListsComplete(r);
      var snap := BuildExists(ListsFrom(r));
      a, s' := Publish(snap), s.(job := None, pub := Some(Published(snap, r)));
    }
  }

  /** Until everything is quiet some internal step is possible: a Rebuild that
      has read all it needs has a snapshot to publish, */
  lemma StepPossible(s: State) returns (a: Action, s': State)
    requires s.started && !Quiescent(s)
    requires s.job.Some? ==> InOrder(s.job.value)
    ensures Internal(a) && Next(a, s, s')
  {
    if s.job.Some? {
      a, s' := JobStep(s);
    } else if s.queued > 0 {
      a, s' := Acquire, s.(queued := s.queued - 1, job := Some(Reads(None, None, None, map[])));
    } else if s.timer {
      a, s' := Fire, s.(timer := false, queued := s.queued + 1);
    } else {
      var k: Kind :| Pending(s, k) > 0;
      a, s' := Deliver(k), s.(pending := s.pending[k := Pending(s, k) - 1], timer := true);
    }
  }

  /** and in a run it is. */
  lemma NeverStuck(states: seq<State>, acts: seq<Action>, i: nat)
    requires Run(states, acts) && i < |states| && states[i].started && !Quiescent(states[i])
    ensures exists a, s' :: Internal(a) && Next(a, states[i], s')
  {
    hide Next, Quiescent;
    if states[i].job.Some? { JobsInOrder(states, acts, i); }
    var a, s' := StepPossible(states[i]);
  }

  // ----- Longer runs ---------------------------------------------------------------------

  function Last(states: seq<State>): State
    requires states != []
  {
    states[|states| - 1]
  }

  lemma RunSnoc(states: seq<State>, acts: seq<Action>, a: Action, s: State)
    requires Run(states, acts) && Next(a, Last(states), s)
    ensures Run(states + [s], acts + [a])
    ensures Missed(states + [s], acts + [a], |acts| + 1) ==
      MissedAfter(a, Last(states), Missed(states, acts, |acts|))
  {
    hide Next;
    var n := |acts|;
    assert (states + [s])[n] == Last(states) && (acts + [a])[n] == a;
    MissedSoFar(states, acts, a, s, n);
    forall i | 0 <= i < n + 1 ensures Next((acts + [a])[i], (states + [s])[i], (states + [s])[i + 1]) {
      if i < n { assert Next(acts[i], states[i], states[i + 1]); }
    }
  }

  lemma {:induction false} MissedSoFar(states: seq<State>, acts: seq<Action>, a: Action, s: State, i: nat)
    requires i <= |acts| < |states|
    ensures Missed(states + [s], acts + [a], i) == Missed(states, acts, i)
  {
    if i > 0 { MissedSoFar(states, acts, a, s, i - 1); }
  }

  /** b continues the run a with internal steps only, up to a quiet state. */
  predicate Settles(a: seq<Action>, b: seq<Action>, last: State) {
    a <= b && (forall i :: |a| <= i < |b| ==> Internal(b[i])) && Quiescent(last)
  }

  /** From any state of any run once the server has started, internal steps alone
      lead to a quiet state over the same cache; it is fresh if nothing had been
      missed before. */
  lemma {:induction false} ComesToRest(states: seq<State>, acts: seq<Action>)
    returns (states': seq<State>, acts': seq<Action>)
    requires Run(states, acts) && Last(states).started
    ensures Run(states', acts') && Settles(acts, acts', Last(states'))
    ensures Last(states').world == Last(states).world
    ensures !Missed(states, acts, |acts|) ==> Fresh(Last(states'))
    decreases Work(Last(states)).0, Work(Last(states)).1, Work(Last(states)).2,
              Work(Last(states)).3, Work(Last(states)).4
  {
    hide Run, Next, Quiescent, Work, Missed, Fresh, Internal, MissedAfter;
    RunShape(states, acts);
    var s := Last(states);
    if Quiescent(s) {
      PublishedIsFresh(states, acts, |acts|);
      states', acts' := states, acts;
    } else {
      if s.job.Some? { JobsInOrder(states, acts, |acts|); }
      var a, s' := StepPossible(s);
      InternalFacts(a, s, s', Missed(states, acts, |acts|));
      InternalStepsRunOut(a, s, s');
      RunSnoc(states, acts, a, s');
      assert Last(states + [s']) == s';
      states', acts' := ComesToRest(states + [s'], acts + [a]);
      assert forall i :: |acts| <= i < |acts'| ==> Internal(acts'[i]) by {
        assert (acts + [a])[|acts|] == a && acts'[..|acts| + 1] == acts + [a];
      }
    }
  }

  lemma RunShape(states: seq<State>, acts: seq<Action>)
    requires Run(states, acts)
    ensures |states| == |acts| + 1
  {
  }

  lemma InternalFacts(a: Action, s: State, s': State, missed: bool)
    requires Internal(a) && Next(a, s, s')
    ensures s'.world == s.world && (s.started ==> s'.started) && (!missed ==> !MissedAfter(a, s, missed))
  {
    hide IsBuild, ListsFrom, NeededKeys;
  }

  // ----- How it goes stale -----------------------------------------------------------------

  /** The states these actions lead to when k's update makes the cache w. */
  function Failing(s: State, k: Kind, w: World): seq<State> {
    var s1 := s.(world := w, pending := s.pending[k := 1]);
    var s2 := s1.(pending := s1.pending[k := 0], timer := true);
    var s3 := s2.(timer := false, queued := 1);
    var s4 := s3.(queued := 0, job := Some(Reads(None, None, None, map[])));
    [s1, s2, s3, s4, s4.(job := None)]
  }

  lemma FailingSteps(s: State, k: Kind, w: World)
    requires Quiescent(s) && k in s.registered && Updates(k, s.world, w)
    ensures var p := Failing(s, k, w);
      && Next(Update(k), s, p[0]) && Next(Deliver(k), p[0], p[1]) && Next(Fire, p[1], p[2])
      && Next(Acquire, p[2], p[3]) && Next(Fail, p[3], p[4])
      && Quiescent(p[4]) && p[4].world == w && p[4].pub == s.pub
  {
    hide IsBuild, ListsFrom, NeededKeys, AllRead, Updates;
    var p := Failing(s, k, w);
    assert Pending(s, k) == 0 && Pending(p[0], k) == 1;
    forall j: Kind ensures Pending(p[4], j) == 0 { assert Pending(s, j) == 0; }
  }

  /** What was read before an update is not what is there after it. */
  lemma UpdateOutdates(s: State, k: Kind, w: World)
    requires Ordered(s) && s.pub.Some? && AllRead(s.pub.value.seen) && Updates(k, s.world, w)
    requires k == SVC ==> s.pub.value.seen.svcs != map[]
    ensures s.pub.value.seen != ReadsOf(w)
  {
    hide NeededKeys;
    var r := s.pub.value.seen;
    if k == SVC {
      var key :| key in r.svcs;
      assert r.svcs[key] != w.svcs && (r == ReadsOf(w) ==> key in ReadsOf(w).svcs);
    }
  }

  /** A failed Rebuild is not retried: any quiet run goes on, by one update of any
      kind, its delivery, the timer, the lock and a List error, to a state that is
      quiet again. A fresh snapshot has then gone stale if and only if the update
      changed some key's rows. */
  lemma FailureLeavesStale(states: seq<State>, acts: seq<Action>, k: Kind, w: World)
    returns (states': seq<State>, acts': seq<Action>)
    requires Run(states, acts) && Quiescent(Last(states)) && Updates(k, Last(states).world, w)
    ensures Run(states', acts') && acts' == acts + [Update(k), Deliver(k), Fire, Acquire, Fail]
    ensures Quiescent(Last(states')) && Missed(states', acts', |acts'|)
    ensures Last(states').world == w && Last(states').pub == Last(states).pub
    ensures Fresh(Last(states)) ==> (Fresh(Last(states')) <==> SameRows(ListsNow(Last(states).world), ListsNow(w)))
    ensures Last(states).pub.Some? && (k == SVC ==> Last(states).pub.value.seen.svcs != map[]) ==>
      Last(states).pub.value.seen != ReadsOf(w)
  {
    hide IsBuild, ListsFrom, NeededKeys, AllRead, Updates, Run, Next, Missed, Quiescent, Ordered, Pending, Signalled,
         SameRows, ReadsOf, Complete;
    RunShape(states, acts);
    var s, p := Last(states), Failing(Last(states), k, w);
    InvHolds(states, acts, |acts|);
    OrderedHolds(states, acts, |acts|);
    assert k in s.registered by { StartedIsRegistered(s, k, Missed(states, acts, |acts|)); }
    FailingSteps(s, k, w);
    if s.pub.Some? && (k == SVC ==> s.pub.value.seen.svcs != map[]) { UpdateOutdates(s, k, w); }
    NowComplete(w);
    if Fresh(s) { SameBuildIff(Served(s), ListsNow(s.world), ListsNow(w)); }
    var as1 := acts + [Update(k)];
    var ss1 := states + [p[0]];
    RunSnoc(states, acts, Update(k), p[0]);
    RunSnoc(ss1, as1, Deliver(k), p[1]);
    RunSnoc(ss1 + [p[1]], as1 + [Deliver(k)], Fire, p[2]);
    RunSnoc(ss1 + [p[1]] + [p[2]], as1 + [Deliver(k)] + [Fire], Acquire, p[3]);
    RunSnoc(ss1 + [p[1]] + [p[2]] + [p[3]], as1 + [Deliver(k)] + [Fire] + [Acquire], Fail, p[4]);
    states', acts' := ss1 + [p[1]] + [p[2]] + [p[3]] + [p[4]], as1 + [Deliver(k)] + [Fire] + [Acquire] + [Fail];
  }

  /** The same objects, whatever their versions. */
  predicate SameValues(w: World, w': World) {
    w.crs.val == w'.crs.val && w.svcs.val == w'.svcs.val && w.ets.val == w'.ets.val && w.rrs.val == w'.rrs.val
  }

  lemma SameValuesSameLists(w: World, w': World)
    requires SameValues(w, w')
    ensures ListsNow(w) == ListsNow(w') && SameRows(ListsNow(w), ListsNow(w'))
  {
    hide RowsOf, NeededKeys, Listed;
    assert ListsNow(w).svcsOf == ListsNow(w').svcsOf;
  }

  /** So a missed rebuild does no harm when it was triggered by an update that
      changed nothing, such as a resync. */
  lemma HarmlessFailure(states: seq<State>, acts: seq<Action>, k: Kind, w: World)
    returns (states': seq<State>, acts': seq<Action>)
    requires Run(states, acts) && Quiescent(Last(states)) && !Missed(states, acts, |acts|)
    requires Updates(k, Last(states).world, w) && SameValues(Last(states).world, w)
    ensures Run(states', acts') && Quiescent(Last(states')) && Missed(states', acts', |acts'|) && Fresh(Last(states'))
  {
    hide Run, Missed, Quiescent, Updates, Fresh, SameRows, ListsFrom, ReadsOf, Next;
    RunShape(states, acts);
    PublishedIsFresh(states, acts, |acts|);
    SameValuesSameLists(Last(states).world, w);
    states', acts' := FailureLeavesStale(states, acts, k, w);
  }

  lemma StartedIsRegistered(s: State, k: Kind, missed: bool)
    requires Inv(s, missed) && Quiescent(s)
    ensures k in s.registered
  {
    match k case CR => case SVC => case ET => case RR =>
  }

  /** Start's own steps, from nothing to the launched initial Rebuild. */
  lemma Boot(w: World) returns (states: seq<State>, acts: seq<Action>)
    ensures Run(states, acts) && Last(states).started && Last(states).world == w && !Missed(states, acts, |acts|)
  {
    hide IsBuild, ListsFrom, NeededKeys, AllRead;
    var s0 := State(w, {}, map[], false, false, 0, None, None);
    var s1 := s0.(registered := {CR}, pending := map[CR := 0]);
    var s2 := s1.(registered := {CR, SVC}, pending := s1.pending[SVC := 0]);
    var s3 := s2.(registered := {CR, SVC, ET}, pending := s2.pending[ET := 0]);
    var s4 := s3.(registered := {CR, SVC, ET, RR}, pending := s3.pending[RR := 0]);
    var s5 := s4.(started := true, queued := 1);
    assert {CR} + {SVC} == {CR, SVC} && {CR, SVC} + {ET} == {CR, SVC, ET} && {CR, SVC, ET} + {RR} == {CR, SVC, ET, RR};
    assert Next(Register(CR, 0), s0, s1) && Next(Register(SVC, 0), s1, s2) && Next(Register(ET, 0), s2, s3);
    assert Next(Register(RR, 0), s3, s4) && Next(Launch, s4, s5);
    hide Next, Run;
    RunStart(s0);
    RunSnoc([s0], [], Register(CR, 0), s1);
    RunSnoc([s0] + [s1], [] + [Register(CR, 0)], Register(SVC, 0), s2);
    RunSnoc([s0] + [s1] + [s2], [] + [Register(CR, 0)] + [Register(SVC, 0)], Register(ET, 0), s3);
    states, acts := [s0] + [s1] + [s2] + [s3], [] + [Register(CR, 0)] + [Register(SVC, 0)] + [Register(ET, 0)];
    RunSnoc(states, acts, Register(RR, 0), s4);
    states, acts := states + [s4], acts + [Register(RR, 0)];
    RunSnoc(states, acts, Launch, s5);
    states, acts := states + [s5], acts + [Launch];
  }

  lemma RunStart(s: State)
    requires Initial(s)
    ensures Run([s], []) && !Missed([s], [], 0)
  {
  }

  /** So the index can go on serving a snapshot without a ContextRoute that is
      there: the server starts on an empty cluster, comes to rest, cr is created,
      and the Rebuild this triggers fails. */
  lemma StaleRun(cr: ContextRoute) returns (states: seq<State>, acts: seq<Action>)
    requires !cr.deleting
    ensures Run(states, acts) && Quiescent(Last(states)) && Last(states).world.crs.val == [cr]
    ensures EffectiveKey(cr) !in Served(Last(states)).targets && !Fresh(Last(states))
  {
    hide Run, Next, Missed, Quiescent, KeyBuilt, RemotesBuilt, TuplesBuilt;
    var empty := World(Cell(0, []), Cell(0, []), Cell(0, []), Cell(0, []));
    var w := empty.(crs := Cell(1, [cr]));
    var ss, as1 := Boot(empty);
    var ss2, as2 := ComesToRest(ss, as1);
    states, acts := FailureLeavesStale(ss2, as2, CR, w);
    assert OwnerKeys([]) == {};
    assert cr in [cr] && EffectiveKey(cr) in OwnerKeys([cr]);
  }
}
