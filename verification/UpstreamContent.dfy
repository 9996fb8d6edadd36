/** What a resolved RemoteRoute and its scraped status say, in the fields of the
    spec's entries, of the parsed URLs and of Envoy's dump. */
module UpstreamContent {
  import opened Text
  import opened Wire
  import opened Upstreams
  import V = Version

  // ----- Numbers ---------------------------------------------------------------------

  /** s is a decimal numeral, with or without a sign, of n, which a 64-bit int holds. */
  ghost predicate Numeral(s: string, n: int) {
    && -0x8000_0000_0000_0000 <= n < 0x8000_0000_0000_0000
    && exists sign, digits ::
         && SignedDigits(s, sign, digits)
         && n == if sign == "-" then -(V.Value(digits) as int) else V.Value(digits)
  }

  ghost predicate SignedDigits(s: string, sign: string, digits: string) {
    s == sign + digits && (sign == "" || sign == "+" || sign == "-") && digits != "" && V.AllDigits(digits)
  }

  lemma AtoiIs(s: string, n: int)
    ensures Atoi(s) == Some(n) <==> Numeral(s, n)
  {
    hide V.Value;
    if Atoi(s) == Some(n) {
      var sign := if "-" <= s then "-" else if "+" <= s then "+" else "";
      assert SignedDigits(s, sign, s[|sign|..]);
    }
    if Numeral(s, n) {
      var sign, digits :| SignedDigits(s, sign, digits)
        && n == if sign == "-" then -(V.Value(digits) as int) else V.Value(digits);
      assert s[|sign|..] == digits;
      assert V.IsDigit(digits[0]) && (sign == "" ==> s[0] == digits[0]);
    }
  }

  /** Four numbers up to 255 between dots. */
  ghost predicate DottedQuad(s: string) {
    exists a, b, c, d :: Quad(s, a, b, c, d)
  }

  ghost predicate Quad(s: string, a: string, b: string, c: string, d: string) {
    && s == a + "." + (b + "." + (c + "." + d))
    && OctetText(a) && OctetText(b) && OctetText(c) && OctetText(d)
  }

  ghost predicate OctetText(s: string) {
    '.' !in s && exists n :: Numeral(s, n) && 0 <= n <= 255
  }

  lemma LooksLikeIPIs(s: string)
    ensures LooksLikeIP(s) <==> DottedQuad(s)
  {
    hide Atoi, Numeral;
    var ps := Split(s, '.');
    if LooksLikeIP(s) {
      SplitFree(s, '.');
      JoinSplit(s, '.');
      forall i | 0 <= i < 4 ensures OctetText(ps[i]) {
        assert ps[i] in ps;
        AtoiIs(ps[i], Atoi(ps[i]).value);
      }
      FourJoined(ps);
      assert Quad(s, ps[0], ps[1], ps[2], ps[3]);
    }
    if a, b, c, d :| Quad(s, a, b, c, d) {
      SplitCons(a, '.', b + "." + (c + "." + d));
      SplitCons(b, '.', c + "." + d);
      SplitCons(c, '.', d);
      SplitOne(d, '.');
      assert ps == [a, b, c, d];
      forall i | 0 <= i < 4 ensures Atoi(ps[i]).Some? && 0 <= Atoi(ps[i]).value <= 255 {
        var n :| Numeral(ps[i], n) && 0 <= n <= 255;
        AtoiIs(ps[i], n);
      }
    }
  }

  lemma FourJoined(ps: seq<string>)
    requires |ps| == 4
    ensures Join(ps, '.') == ps[0] + "." + (ps[1] + "." + (ps[2] + "." + ps[3]))
  {
    assert ps[1..][1..] == ps[2..] && ps[2..][1..] == ps[3..] && ps[3..] == [ps[3]];
    assert Join(ps[2..], '.') == ps[2] + "." + ps[3];
    assert Join(ps[1..], '.') == ps[1] + "." + Join(ps[2..], '.');
  }

  // ----- What resolveUpstreams returns -------------------------------------------------

  /** The URL can be used, with this scheme. */
  ghost predicate Taken(parse: string -> Option<URL>, raw: string, scheme: string) {
    match parse(raw)
    case None => false
    case Some(u) => u.scheme == scheme && u.host != "" && (u.port == "" || exists n :: Numeral(u.port, n))
  }

  ghost predicate Names(up: Upstream, raw: string) {
    match up.group case Some(g) => raw in g.urls case None => raw == up.url
  }

  /** Every entry has a URL or a group, there is a URL, all of them can be used with
      this scheme, and no two groups differ in mode. */
  ghost predicate SpecAccepted(parse: string -> Option<URL>, ups: seq<Upstream>, scheme: string) {
    && (scheme == "http" || scheme == "https")
    && (forall i :: 0 <= i < |ups| && ups[i].group == None ==> ups[i].url != "")
    && (exists i, raw :: 0 <= i < |ups| && Names(ups[i], raw))
    && (forall i, raw :: 0 <= i < |ups| && Names(ups[i], raw) ==> Taken(parse, raw, scheme))
    && forall i, j :: 0 <= i < j < |ups| && ups[i].group.Some? && ups[j].group.Some? ==>
         ups[i].group.value.mode == ups[j].group.value.mode
  }

  /** The port is the URL's own, cut to 32 bits, or else the scheme's; a host that
      is no address is the TLS server name. */
  ghost predicate EndpointTells(u: URL, e: Endpoint) {
    && e.host == u.host
    && (u.port == "" ==> e.port == if u.scheme == "http" then 80 else 443)
    && (forall n :: Numeral(u.port, n) ==> PortCut(n, e.port))
    && e.hostname == if u.scheme == "https" && !DottedQuad(u.host) then u.host else ""
  }

  /** int32(n) is n where it fits. */
  ghost predicate PortCut(n: int, port: int) {
    && -0x8000_0000 <= port < 0x8000_0000 && (n - port) % 0x1_0000_0000 == 0
    && (-0x8000_0000 <= n < 0x8000_0000 ==> port == n)
  }

  ghost predicate EndpointsTell(parse: string -> Option<URL>, raws: seq<string>, eps: seq<Endpoint>) {
    |eps| == |raws| && forall j :: 0 <= j < |raws| ==>
      match parse(raws[j]) case None => false case Some(u) => EndpointTells(u, eps[j])
  }

  ghost predicate ResolutionTells(parse: string -> Option<URL>, ups: seq<Upstream>, r: Resolution) {
    match r
    case Rejected => forall scheme :: !SpecAccepted(parse, ups, scheme)
    case Resolved(groups, https, lbPolicy) =>
      && SpecAccepted(parse, ups, if https then "https" else "http")
      && |groups| == |ups|
      && (forall i :: 0 <= i < |ups| ==>
            && groups[i].name == ups[i].name
            && EndpointsTell(parse, match ups[i].group case Some(g) => g.urls case None => [ups[i].url],
                             groups[i].endpoints))
      && lbPolicy ==
           if exists i :: 0 <= i < |ups| && ups[i].group.Some? && ups[i].group.value.mode == "Random"
           then "RANDOM" else "ROUND_ROBIN"
  }

  lemma TakenIs(parse: string -> Option<URL>, raw: string, scheme: string)
    requires scheme == "http" || scheme == "https"
    ensures Taken(parse, raw, scheme) <==> UsableURL(parse, raw) && SchemeOf(parse, raw) == scheme
  {
    hide Atoi, Numeral;
    if parse(raw).Some? {
      var port := parse(raw).value.port;
      if Atoi(port).Some? { AtoiIs(port, Atoi(port).value); }
      if n :| Numeral(port, n) { AtoiIs(port, n); }
    }
  }

  lemma {:induction false} AllURLsIs(ups: seq<Upstream>)
    ensures forall raw :: raw in AllURLs(ups) <==> exists i :: 0 <= i < |ups| && Names(ups[i], raw)
  {
    if ups != [] {
      var n := |ups| - 1;
      AllURLsIs(ups[..n]);
      assert forall raw :: raw in URLsOf(ups[n]) <==> Names(ups[n], raw);
      hide Names;
      assert forall i :: 0 <= i < n ==> ups[..n][i] == ups[i];
    }
  }

  lemma SchemesAre(parse: string -> Option<URL>, ups: seq<Upstream>, scheme: string)
    requires scheme == "http" || scheme == "https"
    ensures Acceptable(parse, ups) && Uniform(parse, AllURLs(ups), scheme) <==> SpecAccepted(parse, ups, scheme)
  {
    AllURLsIs(ups);
    UniformIs(parse, AllURLs(ups), scheme);
    ModesDiffer(ups);
    hide Taken, UsableURL, SchemeOf, Names, AllURLs, Uniform, ModesOf;
    var raws := AllURLs(ups);
    if raws != [] { assert raws[0] in raws; }
    if i, raw :| 0 <= i < |ups| && Names(ups[i], raw) { assert raw in raws; }
    assert raws != [] <==> exists i, raw :: 0 <= i < |ups| && Names(ups[i], raw);
    assert (forall raw :: raw in raws ==> Taken(parse, raw, scheme)) <==>
      forall i, raw :: 0 <= i < |ups| && Names(ups[i], raw) ==> Taken(parse, raw, scheme);
    assert Filled(ups) <==> forall i :: 0 <= i < |ups| && ups[i].group == None ==> ups[i].url != "";
  }

  lemma UniformIs(parse: string -> Option<URL>, raws: seq<string>, scheme: string)
    requires scheme == "http" || scheme == "https"
    ensures Uniform(parse, raws, scheme) <==> forall raw :: raw in raws ==> Taken(parse, raw, scheme)
  {
    hide Taken, UsableURL, SchemeOf;
    forall raw ensures Taken(parse, raw, scheme) <==> UsableURL(parse, raw) && SchemeOf(parse, raw) == scheme {
      TakenIs(parse, raw, scheme);
    }
  }

  lemma ModesDiffer(ups: seq<Upstream>)
    ensures (forall m, n :: m in ModesOf(ups) && n in ModesOf(ups) ==> m == n) <==>
      forall i, j :: 0 <= i < j < |ups| && ups[i].group.Some? && ups[j].group.Some? ==>
        ups[i].group.value.mode == ups[j].group.value.mode
  {
    assert forall i :: 0 <= i < |ups| && ups[i].group.Some? ==> ups[i].group.value.mode in ModesOf(ups);
  }

  lemma EndpointIsTold(parse: string -> Option<URL>, raw: string)
    requires UsableURL(parse, raw)
    ensures EndpointTells(parse(raw).value, EndpointOf(parse, raw))
  {
    hide Atoi, Numeral, LooksLikeIP, DottedQuad;
    var u := parse(raw).value;
    LooksLikeIPIs(u.host);
    forall n | Numeral(u.port, n) ensures PortCut(n, EndpointOf(parse, raw).port) {
      AtoiIs(u.port, n);
      assert Numeral(u.port, n) ==> u.port != "" by { NumeralNonEmpty(u.port, n); }
    }
  }

  lemma NumeralNonEmpty(s: string, n: int)
    requires Numeral(s, n)
    ensures s != ""
  {
  }

  lemma EndpointsAreTold(parse: string -> Option<URL>, raws: seq<string>, eps: seq<Endpoint>)
    requires EndpointsAre(parse, eps, raws)
    ensures EndpointsTell(parse, raws, eps)
  {
    hide EndpointOf, EndpointTells;
    forall j | 0 <= j < |raws|
      ensures parse(raws[j]).Some? && EndpointTells(parse(raws[j]).value, eps[j])
    {
      EndpointIsTold(parse, raws[j]);
    }
  }

  /** What resolveUpstreams answers, on every spec and whatever url.Parse does. */
  lemma ResolutionIsTold(parse: string -> Option<URL>, ups: seq<Upstream>, r: Resolution)
    requires ResolutionOf(parse, ups, r)
    ensures ResolutionTells(parse, ups, r)
  {
    hide SpecAccepted, Uniform, EndpointsAre, EndpointsTell, UsableURL, SchemeOf, AllURLs;
    SchemesAre(parse, ups, "http");
    SchemesAre(parse, ups, "https");
    SpecSchemes(parse, ups);
    if Acceptable(parse, ups) {
      EitherScheme(parse, ups);
      forall i | 0 <= i < |ups|
        ensures EndpointsTell(parse, match ups[i].group case Some(g) => g.urls case None => [ups[i].url],
                              r.groups[i].endpoints)
      {
        EndpointsAreTold(parse, URLsOf(ups[i]), r.groups[i].endpoints);
      }
    }
  }

  lemma SpecSchemes(parse: string -> Option<URL>, ups: seq<Upstream>)
    ensures forall scheme :: SpecAccepted(parse, ups, scheme) ==> scheme == "http" || scheme == "https"
  {
  }

  lemma EitherScheme(parse: string -> Option<URL>, ups: seq<Upstream>)
    requires Acceptable(parse, ups)
    ensures Uniform(parse, AllURLs(ups), "http") || Uniform(parse, AllURLs(ups), "https")
  {
    var scheme :| Uniform(parse, AllURLs(ups), scheme);
    assert UsableURL(parse, AllURLs(ups)[0]);
  }

  // ----- What the scrape says ----------------------------------------------------------

  /** Where the dump has a host of that priority in the cluster "remote", one that
      failed no check and has no worse EDS state if only those count. */
  function HostsAt(dump: seq<Cluster>, priority: int, healthyOnly: bool): set<(int, int)> {
    set c, i |
      && 0 <= c < |dump| && 0 <= i < |dump[c].hosts| && dump[c].name == "remote"
      && dump[c].hosts[i].priority == priority
      && (healthyOnly ==>
            && !dump[c].hosts[i].failedHC && !dump[c].hosts[i].failedOutlier
            && (dump[c].hosts[i].eds == "" || dump[c].hosts[i].eds == "HEALTHY")) :: (c, i)
  }

  function IndicesAt(hosts: seq<Host>, priority: int, healthyOnly: bool): set<int> {
    set i | 0 <= i < |hosts| && hosts[i].priority == priority && (healthyOnly ==> HealthyHost(hosts[i]))
  }

  lemma IndicesSnoc(hosts: seq<Host>, n: nat, priority: int, only: bool)
    requires n < |hosts|
    ensures var here := hosts[n].priority == priority && (only ==> HealthyHost(hosts[n]));
      IndicesAt(hosts[..n + 1], priority, only) == IndicesAt(hosts[..n], priority, only) + if here then {n} else {}
  {
    hide HealthyHost;
    assert hosts[..n + 1][n] == hosts[n];
    assert forall i :: 0 <= i < n ==> hosts[..n + 1][i] == hosts[..n][i];
  }

  lemma {:induction false} CountIsIndices(hosts: seq<Host>, priority: int, only: bool)
    ensures Count(hosts, priority, only) == |IndicesAt(hosts, priority, only)|
  {
    if hosts != [] {
      var n := |hosts| - 1;
      CountIsIndices(hosts[..n], priority, only);
      IndicesSnoc(hosts, n, priority, only);
      assert hosts[..n + 1] == hosts;
      hide HealthyHost;
      assert n !in IndicesAt(hosts[..n], priority, only);
    }
  }

  lemma {:induction false} CountConcat(a: seq<Host>, b: seq<Host>, priority: int, only: bool)
    ensures Count(a + b, priority, only) == Count(a, priority, only) + Count(b, priority, only)
  {
    if b == [] {
      assert a + b == a;
    } else {
      assert (a + b)[..|a + b| - 1] == a + b[..|b| - 1];
      CountConcat(a, b[..|b| - 1], priority, only);
    }
  }

  function Paired(c: int, indices: set<int>): set<(int, int)> {
    set i | i in indices :: (c, i)
  }

  lemma {:induction false} PairedSize(c: int, indices: set<int>)
    ensures |Paired(c, indices)| == |indices|
  {
    if indices != {} {
      var i := Member(indices);
      PairedSize(c, indices - {i});
      assert Paired(c, indices) == Paired(c, indices - {i}) + {(c, i)};
    }
  }

  lemma Member<T>(xs: set<T>) returns (x: T)
    requires xs != {}
    ensures x in xs
  {
    x :| x in xs;
  }

  lemma HostsSnoc(dump: seq<Cluster>, n: nat, priority: int, only: bool)
    requires n < |dump|
    ensures var before, here := HostsAt(dump[..n], priority, only), Paired(n, IndicesAt(dump[n].hosts, priority, only));
      && HostsAt(dump[..n + 1], priority, only) == before + (if dump[n].name == "remote" then here else {})
      && before !! here
  {
    assert forall c :: 0 <= c < n ==> dump[..n + 1][c] == dump[..n][c];
    assert dump[..n + 1][n] == dump[n];
  }

  /** The counts are numbers of hosts in the dump. */
  lemma {:induction false} CountIsHosts(dump: seq<Cluster>, priority: int, only: bool)
    ensures Count(RemoteHosts(dump), priority, only) == |HostsAt(dump, priority, only)|
  {
    if dump == [] {
      assert HostsAt(dump, priority, only) == {};
    } else {
      var n := |dump| - 1;
      assert dump[..n + 1] == dump;
      HostsSnoc(dump, n, priority, only);
      CountIsHosts(dump[..n], priority, only);
      CountConcat(RemoteHosts(dump[..n]), dump[n].hosts, priority, only);
      assert RemoteHosts(dump[..n]) + [] == RemoteHosts(dump[..n]);
      CountIsIndices(dump[n].hosts, priority, only);
      PairedSize(n, IndicesAt(dump[n].hosts, priority, only));
      hide Count, HostsAt, IndicesAt, Paired;
    }
  }

  lemma HealthyIsHosts(dump: seq<Cluster>, priority: int)
    ensures HealthyAt(RemoteHosts(dump), priority) <==> HostsAt(dump, priority, true) != {}
  {
    hide HealthyAt, HostsAt;
    CountIs(RemoteHosts(dump), priority);
    CountIsHosts(dump, priority, true);
  }

  /** The status of the entry at this position, after a scrape that worked. */
  ghost predicate StatusTells(st: UpstreamStatus, up: Upstream, dump: seq<Cluster>, position: int) {
    && st.name == up.name
    && st.urls == (match up.group case Some(g) => g.urls case None => if up.url == "" then [] else [up.url])
    && st.healthyEndpoints == |HostsAt(dump, position, true)|
    && (st.healthy <==> HostsAt(dump, position, true) != {})
    && (st.message == "" <==> HostsAt(dump, position, true) != {})
    && (st.message == "no host_statuses reported by Envoy yet" <==> HostsAt(dump, position, false) == {})
    && (st.message == "active health check failing" <==>
          HostsAt(dump, position, true) == {} && HostsAt(dump, position, false) != {})
  }

  /** The active upstream is the name of the first entry with a host that is up, ""
      without one. */
  ghost predicate ActiveTold(active: string, ups: seq<Upstream>, dump: seq<Cluster>) {
    || (active == "" && forall i :: 0 <= i < |ups| ==> HostsAt(dump, i, true) == {})
    || exists i ::
         && 0 <= i < |ups| && HostsAt(dump, i, true) != {} && active == ups[i].name
         && forall j :: 0 <= j < i ==> HostsAt(dump, j, true) == {}
  }

  lemma StatusIsTold(st: UpstreamStatus, up: Upstream, dump: seq<Cluster>, position: int)
    requires StatusIs(st, up, RemoteHosts(dump), position)
    ensures StatusTells(st, up, dump, position)
  {
    hide HealthyAt, HostsAt, Count;
    CountIsHosts(dump, position, true);
    CountIsHosts(dump, position, false);
    HealthyIsHosts(dump, position);
    HealthyAmongAll(dump, position);
    var empty, failing := "no host_statuses reported by Envoy yet", "active health check failing";
    assert empty[0] != failing[0];
  }

  lemma HealthyAmongAll(dump: seq<Cluster>, position: int)
    ensures HostsAt(dump, position, true) <= HostsAt(dump, position, false)
  {
  }

  /** What refreshUpstreamHealth writes after a scrape that worked. */
  lemma RefreshIsTold(ups: seq<Upstream>, dump: seq<Cluster>, statuses: seq<UpstreamStatus>, active: string)
    requires |statuses| == |ups|
    requires forall i :: 0 <= i < |ups| ==> StatusIs(statuses[i], ups[i], RemoteHosts(dump), i)
    requires ActiveIs(active, ups, RemoteHosts(dump))
    ensures forall i :: 0 <= i < |ups| ==> StatusTells(statuses[i], ups[i], dump, i)
    ensures ActiveTold(active, ups, dump)
  {
    hide StatusIs, StatusTells, HealthyAt, HostsAt;
    forall i | 0 <= i < |ups| ensures StatusTells(statuses[i], ups[i], dump, i) {
      StatusIsTold(statuses[i], ups[i], dump, i);
    }
    forall i ensures HealthyAt(RemoteHosts(dump), i) <==> HostsAt(dump, i, true) != {} { HealthyIsHosts(dump, i); }
  }
}
