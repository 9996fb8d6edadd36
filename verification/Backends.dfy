/** Which variants a translator knows: collectVariantBackends and
    firstReadyEndpoint of the EdgeTransformation controller. */
module Backends {
  import opened Wire
  import opened Api
  import opened Order
  import opened MeshRoute

  datatype Endpoint = Endpoint(ready: Option<bool>, addresses: seq<string>)

  /** An EndpointSlice of a Service; a port may be unset. */
  datatype Slice = Slice(ipv4: bool, ports: seq<Option<int>>, endpoints: seq<Endpoint>)

  datatype Candidate = Candidate(ip: string, port: int)

  function SlicePort(ports: seq<Option<int>>): int {
    if ports == [] then 0 else if ports[0].Some? then ports[0].value else SlicePort(ports[1..])
  }

  /** What each element of a list contributes, in list order. */
  function Flat<T>(xs: seq<T>, f: T -> seq<Candidate>): seq<Candidate> {
    if xs == [] then [] else Flat(xs[..|xs| - 1], f) + f(xs[|xs| - 1])
  }

  function AddressCandidates(port: int): string -> seq<Candidate> {
    (a: string) => [Candidate(a, port)]
  }

  /** The addresses of an endpoint unless it is not ready, each with the slice's port. */
  function EndpointCandidates(port: int): Endpoint -> seq<Candidate> {
    (ep: Endpoint) => if ep.ready == Some(false) then [] else Flat(ep.addresses, AddressCandidates(port))
  }

  function SliceCandidates(): Slice -> seq<Candidate> {
    (sl: Slice) => if !sl.ipv4 then [] else Flat(sl.endpoints, EndpointCandidates(SlicePort(sl.ports)))
  }

  function Candidates(slices: seq<Slice>): seq<Candidate> {
    Flat(slices, SliceCandidates())
  }

  /** The fold over the candidates in list order. */
  function Best(cs: seq<Candidate>): Candidate {
    if cs == [] then Candidate("", 0)
    else
      var best, c := Best(cs[..|cs| - 1]), cs[|cs| - 1];
      if best.ip == "" || (LE(c.ip, best.ip) && c.ip != best.ip) then c else best
  }

  lemma BestSnoc(cs: seq<Candidate>, c: Candidate)
    ensures Best(cs + [c]) ==
      if Best(cs).ip == "" || (LE(c.ip, Best(cs).ip) && c.ip != Best(cs).ip) then c else Best(cs)
  {
    assert (cs + [c])[..|cs|] == cs;
  }

  /** The endpoint a translator sends a variant's requests to; port 80 when none is set. */
  function Pick(slices: seq<Slice>): Candidate {
    var b := Best(Candidates(slices));
    Candidate(b.ip, PortOf(b))
  }

  function PortOf(c: Candidate): int {
    if c.port == 0 then 80 else c.port
  }

  method FirstReadyEndpoint(slices: seq<Slice>) returns (ip: string, port: int)
    ensures Candidate(ip, port) == Pick(slices)
  {
    hide Best, SlicePort;
    var best := Candidate("", 0);
    NoCandidates();
    for i := 0 to |slices|
      invariant best == Best(Candidates(slices[..i]))
    {
      assert slices[..i + 1][..i] == slices[..i];
      var sl := slices[i];
      assert Candidates(slices[..i]) + [] == Candidates(slices[..i]);
      if !sl.ipv4 { continue; }
      var p := FindPort(sl.ports);
      best := ScanEndpoints(sl.endpoints, p, best, Candidates(slices[..i]));
    }
    assert slices[..|slices|] == slices;
    ip, port := best.ip, if best.port == 0 then 80 else best.port;
  }

  lemma NoCandidates()
    ensures Best([]) == Candidate("", 0) && Candidates([]) == []
  {
  }

  method ScanEndpoints(eps: seq<Endpoint>, port: int, sofar: Candidate, ghost cs: seq<Candidate>)
    returns (best: Candidate)
    requires sofar == Best(cs)
    ensures best == Best(cs + Flat(eps, EndpointCandidates(port)))
  {
    hide Best;
    best := sofar;
    ghost var f := EndpointCandidates(port);
    assert cs + Flat(eps[..0], f) == cs;
    for e := 0 to |eps|
      invariant best == Best(cs + Flat(eps[..e], f))
    {
      assert eps[..e + 1][..e] == eps[..e];
      var ep := eps[e];
      ghost var before := cs + Flat(eps[..e], f);
      assert cs + (Flat(eps[..e], f) + f(ep)) == before + f(ep) && before + [] == before;
      if ep.ready == Some(false) { continue; }
      best := ScanAddresses(ep.addresses, port, best, before);
    }
    assert eps[..|eps|] == eps;
  }

  method ScanAddresses(addrs: seq<string>, port: int, sofar: Candidate, ghost cs: seq<Candidate>)
    returns (best: Candidate)
    requires sofar == Best(cs)
    ensures best == Best(cs + Flat(addrs, AddressCandidates(port)))
  {
    hide Best;
    best := sofar;
    ghost var f := AddressCandidates(port);
    assert cs + Flat(addrs[..0], f) == cs;
    for a := 0 to |addrs|
      invariant best == Best(cs + Flat(addrs[..a], f))
    {
      assert addrs[..a + 1][..a] == addrs[..a];
      var c := Candidate(addrs[a], port);
      BestSnoc(cs + Flat(addrs[..a], f), c);
      assert cs + (Flat(addrs[..a], f) + [c]) == cs + Flat(addrs[..a], f) + [c];
      if best.ip == "" || (LE(c.ip, best.ip) && c.ip != best.ip) {
        best := c;
      }
    }
    assert addrs[..|addrs|] == addrs;
  }

  method FindPort(ports: seq<Option<int>>) returns (port: int)
    ensures port == SlicePort(ports)
  {
    for k := 0 to |ports|
      invariant SlicePort(ports) == SlicePort(ports[k..])
    {
      assert ports[k..][1..] == ports[k + 1..];
      if ports[k].Some? { return ports[k].value; }
    }
    port := 0;
  }

  /** The pick is the least ready IPv4 address; "" when there is none. */
  lemma {:induction false} BestIsLeast(cs: seq<Candidate>)
    requires forall c :: c in cs ==> c.ip != ""
    ensures Best(cs).ip == "" <==> cs == []
    ensures cs != [] ==> Best(cs) in cs && forall c :: c in cs ==> LE(Best(cs).ip, c.ip)
  {
    if cs != [] {
      var init, last := cs[..|cs| - 1], cs[|cs| - 1];
      assert forall c :: c in cs <==> c in init || c == last;
      BestIsLeast(init);
      var best := Best(init);
      LERefl(last.ip);
      if best.ip != "" {
        LETotal(last.ip, best.ip);
        forall c | c in init ensures LE(Best(cs).ip, c.ip) {
          if LE(last.ip, best.ip) { LETrans(last.ip, best.ip, c.ip); }
        }
      }
    }
  }

  // ----- What list order can change -----------------------------------------------------

  lemma {:induction false} FlatConcat<T>(xs: seq<T>, ys: seq<T>, f: T -> seq<Candidate>)
    ensures Flat(xs + ys, f) == Flat(xs, f) + Flat(ys, f)
  {
    if ys == [] {
      assert xs + ys == xs;
    } else {
      assert (xs + ys)[..|xs + ys| - 1] == xs + ys[..|ys| - 1];
      FlatConcat(xs, ys[..|ys| - 1], f);
    }
  }

  lemma FlatOne<T>(x: T, f: T -> seq<Candidate>)
    ensures Flat([x], f) == f(x)
  {
    assert [x][..0] == [] && [] + f(x) == f(x);
  }

  /** Moving one element to the end. */
  lemma FlatMove<T>(ys: seq<T>, j: nat, f: T -> seq<Candidate>)
    requires j < |ys|
    ensures var rest := ys[..j] + ys[j + 1..];
      && multiset(rest) == multiset(ys) - multiset{ys[j]}
      && multiset(Flat(ys, f)) == multiset(Flat(rest, f)) + multiset(f(ys[j]))
  {
    var a, b := ys[..j], ys[j + 1..];
    assert ys == a + [ys[j]] + b;
    FlatConcat(a + [ys[j]], b, f);
    FlatConcat(a, [ys[j]], f);
    FlatConcat(a, b, f);
    FlatOne(ys[j], f);
  }

  lemma {:induction false} FlatPermutes<T>(xs: seq<T>, ys: seq<T>, f: T -> seq<Candidate>)
    requires multiset(xs) == multiset(ys)
    ensures multiset(Flat(xs, f)) == multiset(Flat(ys, f))
  {
    hide Flat;
    SameElements(xs, ys);
    if xs == [] {
      assert ys == [];
    } else {
      var n := |xs| - 1;
      assert xs[n] in ys;
      var j :| 0 <= j < |ys| && ys[j] == xs[n];
      FlatMove(xs, n, f);
      FlatMove(ys, j, f);
      FlatPermutes(xs[..n] + xs[n + 1..], ys[..j] + ys[j + 1..], f);
    }
  }

  lemma {:induction false} FlatPointwise<T>(xs: seq<T>, ys: seq<T>, f: T -> seq<Candidate>)
    requires |xs| == |ys| && forall i :: 0 <= i < |xs| ==> multiset(f(xs[i])) == multiset(f(ys[i]))
    ensures multiset(Flat(xs, f)) == multiset(Flat(ys, f))
  {
    if xs != [] { FlatPointwise(xs[..|xs| - 1], ys[..|ys| - 1], f); }
  }

  /** The same endpoint with its addresses in any order, */
  ghost predicate SameEndpoint(x: Endpoint, y: Endpoint) {
    x.ready == y.ready && multiset(x.addresses) == multiset(y.addresses)
  }

  /** the same slice with its endpoints in any order, */
  ghost predicate SameSlice(x: Slice, y: Slice) {
    x.ipv4 == y.ipv4 && x.ports == y.ports && exists mid :: EndpointsVia(x.endpoints, mid, y.endpoints)
  }

  ghost predicate EndpointsVia(xs: seq<Endpoint>, mid: seq<Endpoint>, ys: seq<Endpoint>) {
    multiset(mid) == multiset(xs) && |mid| == |ys| && forall i :: 0 <= i < |ys| ==> SameEndpoint(mid[i], ys[i])
  }

  /** and the same slices in any order. */
  ghost predicate SameSlices(xs: seq<Slice>, ys: seq<Slice>) {
    exists mid :: SlicesVia(xs, mid, ys)
  }

  ghost predicate SlicesVia(xs: seq<Slice>, mid: seq<Slice>, ys: seq<Slice>) {
    multiset(mid) == multiset(xs) && |mid| == |ys| && forall i :: 0 <= i < |ys| ==> SameSlice(mid[i], ys[i])
  }

  lemma SliceReordered(x: Slice, y: Slice)
    requires SameSlice(x, y)
    ensures multiset(SliceCandidates()(x)) == multiset(SliceCandidates()(y))
  {
    var port := SlicePort(x.ports);
    var mid :| EndpointsVia(x.endpoints, mid, y.endpoints);
    EndpointsReordered(x.endpoints, mid, y.endpoints, port);
  }

  lemma EndpointsReordered(xs: seq<Endpoint>, mid: seq<Endpoint>, ys: seq<Endpoint>, port: int)
    requires EndpointsVia(xs, mid, ys)
    ensures multiset(Flat(xs, EndpointCandidates(port))) == multiset(Flat(ys, EndpointCandidates(port)))
  {
    hide Flat;
    var f := EndpointCandidates(port);
    FlatPermutes(xs, mid, f);
    forall i | 0 <= i < |mid| ensures multiset(f(mid[i])) == multiset(f(ys[i])) {
      FlatPermutes(mid[i].addresses, ys[i].addresses, AddressCandidates(port));
    }
    FlatPointwise(mid, ys, f);
  }

  lemma SlicesReordered(xs: seq<Slice>, ys: seq<Slice>)
    requires SameSlices(xs, ys)
    ensures multiset(Candidates(xs)) == multiset(Candidates(ys))
  {
    hide Flat, SameSlice, SliceCandidates;
    var mid :| SlicesVia(xs, mid, ys);
    var f := SliceCandidates();
    FlatPermutes(xs, mid, f);
    forall i | 0 <= i < |mid| ensures multiset(f(mid[i])) == multiset(f(ys[i])) { SliceReordered(mid[i], ys[i]); }
    FlatPointwise(mid, ys, f);
  }

  /** Addresses are never empty. */
  ghost predicate Addressed(slices: seq<Slice>) {
    forall c :: c in Candidates(slices) ==> c.ip != ""
  }

  ghost predicate Least(c: Candidate, cs: seq<Candidate>) {
    c in cs && forall d :: d in cs ==> LE(c.ip, d.ip)
  }

  /** Whatever order slices, endpoints and addresses are listed in, the address is the same. */
  lemma AddressDoesNotDependOnOrder(xs: seq<Slice>, ys: seq<Slice>)
    requires SameSlices(xs, ys) && Addressed(xs)
    ensures Pick(xs).ip == Pick(ys).ip && Addressed(ys)
  {
    SlicesReordered(xs, ys);
    var cs, ds := Candidates(xs), Candidates(ys);
    SameElements(cs, ds);
    BestIsLeast(cs);
    BestIsLeast(ds);
    if cs != [] { LEAntisym(Best(cs).ip, Best(ds).ip); }
  }

  /** The port that comes with the least address is the same wherever that address appears. */
  ghost predicate OnePort(cs: seq<Candidate>) {
    forall c, d :: Least(c, cs) && Least(d, cs) ==> PortOf(c) == PortOf(d)
  }

  lemma {:induction false} BestKept(cs: seq<Candidate>, ds: seq<Candidate>)
    requires Best(cs).ip != "" && forall d :: d in ds ==> LE(Best(cs).ip, d.ip)
    ensures Best(cs + ds) == Best(cs)
  {
    hide Best, LE;
    if ds == [] {
      assert cs + ds == cs;
    } else {
      var init, d := ds[..|ds| - 1], ds[|ds| - 1];
      assert d in ds && forall x :: x in init ==> x in ds;
      BestKept(cs, init);
      BestSnoc(cs + init, d);
      assert cs + init + [d] == cs + ds;
      if LE(d.ip, Best(cs).ip) { LEAntisym(d.ip, Best(cs).ip); }
    }
  }

  lemma {:induction false} FlatFrom<T>(xs: seq<T>, f: T -> seq<Candidate>, c: Candidate) returns (i: nat)
    requires c in Flat(xs, f)
    ensures i < |xs| && c in f(xs[i])
  {
    var n := |xs| - 1;
    if c in f(xs[n]) { i := n; } else { i := FlatFrom(xs[..n], f, c); }
  }

  /** All candidates of one slice have the slice's port. */
  lemma PortOfSlice(sl: Slice, c: Candidate)
    requires c in SliceCandidates()(sl)
    ensures c.port == SlicePort(sl.ports)
  {
    var port := SlicePort(sl.ports);
    var e := FlatFrom(sl.endpoints, EndpointCandidates(port), c);
    var a := FlatFrom(sl.endpoints[e].addresses, AddressCandidates(port), c);
  }

  lemma PermutedIsSame(xs: seq<Slice>, ys: seq<Slice>)
    requires multiset(ys) == multiset(xs)
    ensures SameSlices(xs, ys)
  {
    forall j | 0 <= j < |ys| ensures SameSlice(ys[j], ys[j]) {
      assert EndpointsVia(ys[j].endpoints, ys[j].endpoints, ys[j].endpoints);
    }
    assert SlicesVia(xs, ys, ys);
  }

  /** Moving one slice to the front. */
  lemma SliceFirst(xs: seq<Slice>, i: nat) returns (ys: seq<Slice>, rest: seq<Candidate>)
    requires i < |xs|
    ensures SameSlices(xs, ys) && Candidates(ys) == SliceCandidates()(xs[i]) + rest
  {
    var f, head, tail := SliceCandidates(), xs[i], xs[..i] + xs[i + 1..];
    hide Flat, SliceCandidates, SameSlices;
    ys, rest := [head] + tail, Flat(tail, f);
    assert xs == xs[..i] + [head] + xs[i + 1..];
    PermutedIsSame(xs, ys);
    FlatConcat([head], tail, f);
    FlatOne(head, f);
  }

  /** Some order of the slices picks the port of any one of the least candidates. */
  lemma ListedFirst(xs: seq<Slice>, c: Candidate) returns (ys: seq<Slice>)
    requires Addressed(xs) && Least(c, Candidates(xs))
    ensures SameSlices(xs, ys) && Pick(ys) == Candidate(c.ip, PortOf(c))
  {
    var i := FlatFrom(xs, SliceCandidates(), c);
    var rest;
    ys, rest := SliceFirst(xs, i);
    var cs := SliceCandidates()(xs[i]);
    SlicesReordered(xs, ys);
    SameElements(Candidates(xs), Candidates(ys));
    LeastOfPrefix(cs, rest, c);
    PortOfSlice(xs[i], c);
    PortOfSlice(xs[i], Best(cs));
  }

  lemma LeastOfPrefix(cs: seq<Candidate>, ds: seq<Candidate>, c: Candidate)
    requires c in cs && (forall d :: d in cs + ds ==> LE(c.ip, d.ip) && d.ip != "")
    ensures Best(cs + ds) == Best(cs) && Best(cs) in cs && Best(cs).ip == c.ip
  {
    hide Best, LE;
    assert forall d :: d in cs || d in ds ==> d in cs + ds;
    BestIsLeast(cs);
    LEAntisym(Best(cs).ip, c.ip);
    BestKept(cs, ds);
  }

  /** The port is not always so: the pick is the same for every order exactly
      when the least address comes with one port. */
  lemma PickDoesNotDependOnOrderIff(xs: seq<Slice>)
    requires Addressed(xs)
    ensures (forall ys :: SameSlices(xs, ys) ==> Pick(ys) == Pick(xs)) <==> OnePort(Candidates(xs))
  {
    var cs := Candidates(xs);
    if OnePort(cs) {
      forall ys | SameSlices(xs, ys) ensures Pick(ys) == Pick(xs) { OnePortPick(xs, ys); }
    }
    if forall ys :: SameSlices(xs, ys) ==> Pick(ys) == Pick(xs) {
      forall c, d | Least(c, cs) && Least(d, cs) ensures PortOf(c) == PortOf(d) {
        var ys := ListedFirst(xs, c);
        var zs := ListedFirst(xs, d);
      }
    }
  }

  lemma OnePortPick(xs: seq<Slice>, ys: seq<Slice>)
    requires Addressed(xs) && OnePort(Candidates(xs)) && SameSlices(xs, ys)
    ensures Pick(ys) == Pick(xs)
  {
    AddressDoesNotDependOnOrder(xs, ys);
    SlicesReordered(xs, ys);
    var cs, ds := Candidates(xs), Candidates(ys);
    SameElements(cs, ds);
    BestIsLeast(cs);
    BestIsLeast(ds);
    if cs != [] {
      assert Least(Best(cs), cs) && Least(Best(ds), cs);
    } else {
      assert ds == [];
    }
  }

  /** One address in two slices with different ports: the order decides the port. */
  lemma PortDependsOnOrder()
    ensures var ep := Endpoint(None, ["10.0.0.5"]);
      var x, y := Slice(true, [Some(8080)], [ep]), Slice(true, [Some(9090)], [ep]);
      Pick([x, y]) == Candidate("10.0.0.5", 8080) && Pick([y, x]) == Candidate("10.0.0.5", 9090)
  {
    var ep := Endpoint(None, ["10.0.0.5"]);
    TwoSlices(ep, "10.0.0.5", 8080, 9090);
    TwoSlices(ep, "10.0.0.5", 9090, 8080);
  }

  lemma TwoSlices(ep: Endpoint, ip: string, p: int, q: int)
    requires ep == Endpoint(None, [ip]) && ip != "" && p != 0
    ensures Pick([Slice(true, [Some(p)], [ep]), Slice(true, [Some(q)], [ep])]) == Candidate(ip, p)
  {
    var x, y := Slice(true, [Some(p)], [ep]), Slice(true, [Some(q)], [ep]);
    var f := SliceCandidates();
    OneSlice(ep, ip, p);
    OneSlice(ep, ip, q);
    assert [x, y] == [x] + [y];
    FlatConcat([x], [y], f);
    BestIsLeast([Candidate(ip, p)]);
    LERefl(ip);
    BestKept([Candidate(ip, p)], [Candidate(ip, q)]);
  }

  lemma OneSlice(ep: Endpoint, ip: string, p: int)
    requires ep == Endpoint(None, [ip])
    ensures Flat([Slice(true, [Some(p)], [ep])], SliceCandidates()) == [Candidate(ip, p)]
  {
    FlatOne(Slice(true, [Some(p)], [ep]), SliceCandidates());
    FlatOne(ep, EndpointCandidates(p));
    FlatOne(ip, AddressCandidates(p));
  }

  // ----- The pick in terms of the slices ------------------------------------------------

  /** Address a of endpoint e of slice i counts: IPv4, and not reported unready. */
  predicate ReadyAt(slices: seq<Slice>, i: nat, e: nat, a: nat) {
    && i < |slices| && slices[i].ipv4
    && e < |slices[i].endpoints| && slices[i].endpoints[e].ready != Some(false)
    && a < |slices[i].endpoints[e].addresses|
  }

  function AddressAt(slices: seq<Slice>, i: nat, e: nat, a: nat): string
    requires ReadyAt(slices, i, e, a)
  {
    slices[i].endpoints[e].addresses[a]
  }

  /** The first port that is set, unless it is 0; otherwise 80. */
  ghost predicate PortIs(ports: seq<Option<int>>, port: int) {
    || ((forall k :: 0 <= k < |ports| ==> ports[k].None?) && port == 80)
    || exists k ::
         && 0 <= k < |ports| && FirstSet(ports, k)
         && port == if ports[k].value == 0 then 80 else ports[k].value
  }

  predicate FirstSet(ports: seq<Option<int>>, k: nat) {
    k < |ports| && ports[k].Some? && forall j :: 0 <= j < k ==> ports[j].None?
  }

  lemma {:induction false} SlicePortIs(ports: seq<Option<int>>)
    ensures PortIs(ports, if SlicePort(ports) == 0 then 80 else SlicePort(ports))
  {
    if ports != [] {
      if ports[0].Some? {
        assert FirstSet(ports, 0);
      } else {
        SlicePortIs(ports[1..]);
        var p := if SlicePort(ports) == 0 then 80 else SlicePort(ports);
        if k :| 0 <= k < |ports[1..]| && FirstSet(ports[1..], k) {
          assert FirstSet(ports, k + 1) by {
            forall j | 0 <= j < k + 1 ensures ports[j].None? { if j > 0 { assert ports[1..][j - 1].None?; } }
          }
        }
      }
    }
  }

  lemma {:induction false} FlatHas<T>(xs: seq<T>, f: T -> seq<Candidate>, i: nat, c: Candidate)
    requires i < |xs| && c in f(xs[i])
    ensures c in Flat(xs, f)
  {
    if i < |xs| - 1 { FlatHas(xs[..|xs| - 1], f, i, c); }
  }

  /** Where a slice's candidate comes from. */
  lemma CandidateFrom(slices: seq<Slice>, i: nat, c: Candidate) returns (e: nat, a: nat)
    requires i < |slices| && c in SliceCandidates()(slices[i])
    ensures ReadyAt(slices, i, e, a) && c == Candidate(AddressAt(slices, i, e, a), SlicePort(slices[i].ports))
  {
    var sl, port := slices[i], SlicePort(slices[i].ports);
    e := FlatFrom(sl.endpoints, EndpointCandidates(port), c);
    a := FlatFrom(sl.endpoints[e].addresses, AddressCandidates(port), c);
  }

  lemma CandidateAt(slices: seq<Slice>, i: nat, e: nat, a: nat)
    requires ReadyAt(slices, i, e, a)
    ensures var c := Candidate(AddressAt(slices, i, e, a), SlicePort(slices[i].ports));
      c in SliceCandidates()(slices[i]) && c in Candidates(slices)
  {
    var sl, port := slices[i], SlicePort(slices[i].ports);
    var c := Candidate(AddressAt(slices, i, e, a), port);
    FlatHas(sl.endpoints[e].addresses, AddressCandidates(port), a, c);
    FlatHas(sl.endpoints, EndpointCandidates(port), e, c);
    FlatHas(slices, SliceCandidates(), i, c);
  }

  /** No address is the empty string. */
  ghost predicate NamedAddresses(slices: seq<Slice>) {
    forall i, e, a :: ReadyAt(slices, i, e, a) ==> AddressAt(slices, i, e, a) != ""
  }

  lemma NamedIsAddressed(slices: seq<Slice>)
    requires NamedAddresses(slices)
    ensures Addressed(slices)
  {
    forall c | c in Candidates(slices) ensures c.ip != "" {
      var i := FlatFrom(slices, SliceCandidates(), c);
      var e, a := CandidateFrom(slices, i, c);
    }
  }

  /** The first slice with a ready endpoint at this address. */
  lemma {:induction false} FirstSlice(slices: seq<Slice>, ip: string, n: nat) returns (i: nat)
    requires n <= |slices| && exists c :: c in Flat(slices[..n], SliceCandidates()) && c.ip == ip
    ensures i < n && (exists c :: c in SliceCandidates()(slices[i]) && c.ip == ip)
    ensures forall c :: c in Candidates(slices[..i]) ==> c.ip != ip
  {
    var f := SliceCandidates();
    assert n > 0;
    assert slices[..n][..n - 1] == slices[..n - 1];
    if exists c :: c in Flat(slices[..n - 1], f) && c.ip == ip {
      i := FirstSlice(slices, ip, n - 1);
    } else {
      i := n - 1;
    }
  }

  /** The pick from the slices alone. Without a ready IPv4 address it is empty.
      Otherwise it is the least such address, and the port is that of the first
      slice with a ready endpoint there. */
  lemma PickByFields(slices: seq<Slice>)
    requires NamedAddresses(slices)
    ensures Pick(slices).ip == "" <==> forall i, e, a :: !ReadyAt(slices, i, e, a)
    ensures Pick(slices).ip != "" ==> exists i, e, a :: PickedAt(slices, Pick(slices), i, e, a)
  {
    var f, cs := SliceCandidates(), Candidates(slices);
    NamedIsAddressed(slices);
    BestIsLeast(cs);
    forall i, e, a | ReadyAt(slices, i, e, a) ensures cs != [] { CandidateAt(slices, i, e, a); }
    if cs != [] {
      var ip := Best(cs).ip;
      assert slices[..|slices|] == slices;
      var i := FirstSlice(slices, ip, |slices|);
      BestComesFrom(slices, i, ip);
      var e, a := CandidateFrom(slices, i, Best(cs));
      SlicePortIs(slices[i].ports);
      forall i': nat, e': nat, a': nat | ReadyAt(slices, i', e', a')
        ensures LE(ip, AddressAt(slices, i', e', a')) && (i' < i ==> AddressAt(slices, i', e', a') != ip)
      {
        NoneBetter(slices, i, ip, i', e', a');
      }
      hide Best, LE, Flat, SlicePort;
      assert PickedAt(slices, Pick(slices), i, e, a);
    }
  }

  lemma NoneBetter(slices: seq<Slice>, i: nat, ip: string, i': nat, e': nat, a': nat)
    requires ReadyAt(slices, i', e', a') && i < |slices|
    requires forall c :: c in Candidates(slices) ==> LE(ip, c.ip)
    requires forall c :: c in Candidates(slices[..i]) ==> c.ip != ip
    ensures LE(ip, AddressAt(slices, i', e', a')) && (i' < i ==> AddressAt(slices, i', e', a') != ip)
  {
    CandidateAt(slices, i', e', a');
    if i' < i {
      assert ReadyAt(slices[..i], i', e', a');
      CandidateAt(slices[..i], i', e', a');
    }
  }

  ghost predicate PickedAt(slices: seq<Slice>, c: Candidate, i: nat, e: nat, a: nat) {
    && ReadyAt(slices, i, e, a) && c.ip == AddressAt(slices, i, e, a) && PortIs(slices[i].ports, c.port)
    && forall i': nat, e': nat, a': nat :: ReadyAt(slices, i', e', a') ==>
         LE(c.ip, AddressAt(slices, i', e', a')) && (i' < i ==> AddressAt(slices, i', e', a') != c.ip)
  }

  lemma BestComesFrom(slices: seq<Slice>, i: nat, ip: string)
    requires i < |slices| && Addressed(slices) && Candidates(slices) != [] && ip == Best(Candidates(slices)).ip
    requires exists c :: c in SliceCandidates()(slices[i]) && c.ip == ip
    requires forall c :: c in Candidates(slices[..i]) ==> c.ip != ip
    ensures Best(Candidates(slices)) in SliceCandidates()(slices[i])
  {
    var f, cs := SliceCandidates(), Candidates(slices);
    var before, here, rest := Flat(slices[..i], f), f(slices[i]), Flat(slices[i + 1..], f);
    assert slices == slices[..i] + [slices[i]] + slices[i + 1..];
    FlatConcat(slices[..i] + [slices[i]], slices[i + 1..], f);
    FlatConcat(slices[..i], [slices[i]], f);
    FlatOne(slices[i], f);
    hide Flat, Best, LE, SliceCandidates;
    BestIsLeast(cs);
    var upTo := before + here;
    assert cs == upTo + rest;
    assert forall c :: c in upTo || c in rest ==> c in cs;
    var c :| c in here && c.ip == ip;
    assert c in upTo;
    BestIsLeast(upTo);
    LEAntisym(Best(upTo).ip, ip);
    BestKept(upTo, rest);
  }

  // ----- collectVariantBackends -------------------------------------------------------

  /** A VariantBackend of the nginx template. */
  datatype Backend = Backend(name: string, ip: string, port: int)

  /** The pick for a Service, from its slices. */
  function PickFor(slicesOf: map<string, seq<Slice>>, name: string): Candidate {
    Pick(if name in slicesOf then slicesOf[name] else [])
  }

  predicate Ready(slicesOf: map<string, seq<Slice>>, name: string) {
    PickFor(slicesOf, name).ip != ""
  }

  /** The Services among svcs that have a ready endpoint, in order. */
  function ReadyNames(svcs: seq<Service>, slicesOf: map<string, seq<Slice>>): seq<string> {
    if svcs == [] then []
    else
      var init, name := ReadyNames(svcs[..|svcs| - 1], slicesOf), svcs[|svcs| - 1].name;
      if Ready(slicesOf, name) then init + [name] else init
  }

  function BackendNames(bs: seq<Backend>): seq<string> {
    seq(|bs|, i requires 0 <= i < |bs| => bs[i].name)
  }

  /** These names with their picked endpoints. */
  function BackendsOf(names: seq<string>, slicesOf: map<string, seq<Slice>>): (bs: seq<Backend>)
    ensures BackendNames(bs) == names
  {
    seq(|names|, i requires 0 <= i < |names| =>
      Backend(names[i], PickFor(slicesOf, names[i]).ip, PickFor(slicesOf, names[i]).port))
  }

  /** What a translator is given: the variants with a ready endpoint, in list
      order, each with its picked endpoint. */
  function Collected(svcs: seq<Service>, slicesOf: map<string, seq<Slice>>): (bs: seq<Backend>)
    ensures BackendNames(bs) == ReadyNames(svcs, slicesOf)
    ensures forall b :: b in bs ==> Candidate(b.ip, b.port) == PickFor(slicesOf, b.name)
  {
    BackendsOf(ReadyNames(svcs, slicesOf), slicesOf)
  }

  method CollectVariantBackends(cr: ContextRoute, svcs: seq<Service>, slicesOf: map<string, seq<Slice>>)
    returns (out: seq<Backend>)
    requires cr.selector.Selects?
    ensures out == Collected(VariantsOf(cr, svcs), slicesOf)
    ensures BackendNames(out) == ReadyNames(VariantsOf(cr, svcs), slicesOf)
    ensures forall b :: b in out ==> Ready(slicesOf, b.name) && Candidate(b.ip, b.port) == PickFor(slicesOf, b.name)
  {
    var variants := ExcludeTarget(Listed(cr, svcs), cr.target);
    out := [];
    hide Collected, Pick, NotNamed, Listed;
    assert Collected(variants[..0], slicesOf) == [] by { NothingCollected(variants[..0], slicesOf); }
    for i := 0 to |variants|
      invariant out == Collected(variants[..i], slicesOf)
      invariant forall b :: b in out ==> Ready(slicesOf, b.name)
    {
      var name := variants[i].name;
      var ip, port := FirstReadyEndpoint(if name in slicesOf then slicesOf[name] else []);
      CollectedSnoc(variants[..i], variants[i], slicesOf);
      assert variants[..i + 1] == variants[..i] + [variants[i]];
      if ip == "" { continue; }
      out := out + [Backend(name, ip, port)];
    }
    assert variants[..|variants|] == variants;
  }

  lemma NothingCollected(svcs: seq<Service>, slicesOf: map<string, seq<Slice>>)
    requires svcs == []
    ensures Collected(svcs, slicesOf) == []
  {
  }

  lemma CollectedSnoc(svcs: seq<Service>, svc: Service, slicesOf: map<string, seq<Slice>>)
    ensures var p := PickFor(slicesOf, svc.name);
      Collected(svcs + [svc], slicesOf) ==
        Collected(svcs, slicesOf) + if p.ip == "" then [] else [Backend(svc.name, p.ip, p.port)]
  {
    hide Pick;
    assert (svcs + [svc])[..|svcs|] == svcs;
    assert ReadyNames(svcs + [svc], slicesOf) ==
      ReadyNames(svcs, slicesOf) + if Ready(slicesOf, svc.name) then [svc.name] else [];
  }

  /** Which variants a translator gets, one by one: those with a ready IPv4 address,
      at the address and port picked from their slices. */
  lemma CollectedByFields(svc: Service, slicesOf: map<string, seq<Slice>>)
    requires forall n :: n in slicesOf ==> NamedAddresses(slicesOf[n])
    ensures var bs := Collected([svc], slicesOf);
      && (bs == [] <==> svc.name !in slicesOf || forall i, e, a :: !ReadyAt(slicesOf[svc.name], i, e, a))
      && (bs != [] ==>
            && |bs| == 1 && bs[0].name == svc.name
            && exists i, e, a :: PickedAt(slicesOf[svc.name], Candidate(bs[0].ip, bs[0].port), i, e, a))
  {
    ReadyByFields(slicesOf, svc.name);
    assert [svc][..0] == [] && ReadyNames([], slicesOf) == [];
    assert ReadyNames([svc], slicesOf) == if Ready(slicesOf, svc.name) then [svc.name] else [];
    hide Pick;
    if svc.name in slicesOf { PickByFields(slicesOf[svc.name]); }
  }

  lemma ReadyByFields(slicesOf: map<string, seq<Slice>>, name: string)
    requires name in slicesOf ==> NamedAddresses(slicesOf[name])
    ensures Ready(slicesOf, name) <==> name in slicesOf && exists i, e, a :: ReadyAt(slicesOf[name], i, e, a)
  {
    if name in slicesOf { PickByFields(slicesOf[name]); } else { NoCandidates(); }
  }

  /** And in list order. */
  lemma {:induction false} CollectedInOrder(a: seq<Service>, b: seq<Service>, slicesOf: map<string, seq<Slice>>)
    ensures Collected(a + b, slicesOf) == Collected(a, slicesOf) + Collected(b, slicesOf)
  {
    NamesInOrder(a, b, slicesOf);
  }

  lemma {:induction false} NamesInOrder(a: seq<Service>, b: seq<Service>, slicesOf: map<string, seq<Slice>>)
    ensures ReadyNames(a + b, slicesOf) == ReadyNames(a, slicesOf) + ReadyNames(b, slicesOf)
  {
    if b == [] {
      assert a + b == a;
    } else {
      var ab := a + b;
      assert ab[..|ab| - 1] == a + b[..|b| - 1] && ab[|ab| - 1] == b[|b| - 1];
      NamesInOrder(a, b[..|b| - 1], slicesOf);
    }
  }

  lemma {:induction false} ReadyNamesAre(svcs: seq<Service>, slicesOf: map<string, seq<Slice>>)
    ensures forall n :: n in ReadyNames(svcs, slicesOf) <==> n in Names(svcs) && Ready(slicesOf, n)
  {
    if svcs != [] {
      var init, last := svcs[..|svcs| - 1], svcs[|svcs| - 1];
      ReadyNamesAre(init, slicesOf);
      assert forall s :: s in svcs <==> s in init || s == last;
      assert Names(svcs) == Names(init) + {last.name};
    }
  }

  /** A translator never knows a variant the mesh rules do not have, and it knows
      them all exactly when each has a ready endpoint. */
  lemma TranslatorVariants(cr: ContextRoute, svcs: seq<Service>, slicesOf: map<string, seq<Slice>>)
    requires cr.selector.Selects?
    ensures var variants := VariantsOf(cr, svcs);
      var known := set n | n in ReadyNames(variants, slicesOf);
      && known <= Names(variants)
      && (known == Names(variants) <==> forall n :: n in Names(variants) ==> Ready(slicesOf, n))
  {
    ReadyNamesAre(VariantsOf(cr, svcs), slicesOf);
  }
}
