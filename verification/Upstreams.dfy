/** RemoteRoute upstreams: resolveUpstreams turns the spec into priority-ordered
    Envoy groups, and the health scrape picks the active one. */
module Upstreams {
  import opened Text
  import opened Wire
  import V = Version

  datatype Group = Group(mode: string, urls: seq<string>)

  datatype Upstream = Upstream(name: string, url: string, group: Option<Group>)

  /** What url.Parse reports; None for its error. */
  datatype URL = URL(scheme: string, host: string, port: string)

  datatype Endpoint = Endpoint(host: string, port: int, hostname: string)

  datatype EnvoyGroup = EnvoyGroup(name: string, endpoints: seq<Endpoint>)

  datatype Resolution = Resolved(groups: seq<EnvoyGroup>, https: bool, lbPolicy: string) | Rejected

  // ----- Numbers as strconv.Atoi and int32() treat them ---------------------------

  function Atoi(s: string): Option<int> {
    var negative := "-" <= s;
    var digits := if negative || "+" <= s then s[1..] else s;
    if digits == "" || !V.AllDigits(digits) then None
    else
      var n: int := if negative then -(V.Value(digits) as int) else V.Value(digits);
      if -V.MAX_INT - 1 <= n <= V.MAX_INT then Some(n) else None
  }

  function ToInt32(n: int): int {
    (n + 0x8000_0000) % 0x1_0000_0000 - 0x8000_0000
  }

  predicate LooksLikeIP(s: string) {
    var parts := Split(s, '.');
    |parts| == 4 && forall i :: 0 <= i < 4 ==> Atoi(parts[i]).Some? && 0 <= Atoi(parts[i]).value <= 255
  }

  // ----- The specification ------------------------------------------------------------

  /** A well-formed http(s) URL with a host and, if it names one, a numeric port. */
  predicate UsableURL(parse: string -> Option<URL>, raw: string) {
    match parse(raw)
    case None => false
    case Some(u) => (u.scheme == "http" || u.scheme == "https") && u.host != "" && (u.port == "" || Atoi(u.port).Some?)
  }

  function SchemeOf(parse: string -> Option<URL>, raw: string): string {
    match parse(raw) case None => "" case Some(u) => u.scheme
  }

  function EndpointOf(parse: string -> Option<URL>, raw: string): Endpoint
    requires UsableURL(parse, raw)
  {
    var u := parse(raw).value;
    Endpoint(u.host,
             if u.port != "" then ToInt32(Atoi(u.port).value) else if u.scheme == "http" then 80 else 443,
             if u.scheme == "https" && !LooksLikeIP(u.host) then u.host else "")
  }

  function URLsOf(up: Upstream): seq<string> {
    if up.group.Some? then up.group.value.urls else [up.url]
  }

  function AllURLs(ups: seq<Upstream>): seq<string> {
    if ups == [] then [] else AllURLs(ups[..|ups| - 1]) + URLsOf(ups[|ups| - 1])
  }

  function ModesOf(ups: seq<Upstream>): set<string> {
    set i | 0 <= i < |ups| && ups[i].group.Some? :: ups[i].group.value.mode
  }

  /** Every URL usable and of the given scheme. */
  predicate Uniform(parse: string -> Option<URL>, raws: seq<string>, scheme: string) {
    forall i :: 0 <= i < |raws| ==> UsableURL(parse, raws[i]) && SchemeOf(parse, raws[i]) == scheme
  }

  predicate Filled(ups: seq<Upstream>) {
    forall i :: 0 <= i < |ups| ==> ups[i].group.Some? || ups[i].url != ""
  }

  /** The constraints of the spec. */
  ghost predicate Acceptable(parse: string -> Option<URL>, ups: seq<Upstream>) {
    && Filled(ups) && AllURLs(ups) != []
    && (exists scheme :: Uniform(parse, AllURLs(ups), scheme))
    && forall m, n :: m in ModesOf(ups) && n in ModesOf(ups) ==> m == n
  }

  /** One endpoint per URL, in order. */
  predicate EndpointsAre(parse: string -> Option<URL>, eps: seq<Endpoint>, raws: seq<string>) {
    |eps| == |raws| && forall i :: 0 <= i < |raws| ==> UsableURL(parse, raws[i]) && eps[i] == EndpointOf(parse, raws[i])
  }

  /** One group per entry, in order; its position is its Envoy priority. */
  predicate GroupsAre(parse: string -> Option<URL>, groups: seq<EnvoyGroup>, ups: seq<Upstream>) {
    |groups| == |ups| && forall i :: 0 <= i < |ups| ==>
      groups[i].name == ups[i].name && EndpointsAre(parse, groups[i].endpoints, URLsOf(ups[i]))
  }

  /** r is what the constraints leave: Rejected exactly when one is broken, and
      otherwise the groups, the shared scheme and the shared mode. */
  ghost predicate ResolutionOf(parse: string -> Option<URL>, ups: seq<Upstream>, r: Resolution) {
    && (r.Resolved? <==> Acceptable(parse, ups))
    && (r.Resolved? ==>
          && GroupsAre(parse, r.groups, ups)
          && (r.https <==> Uniform(parse, AllURLs(ups), "https"))
          && r.lbPolicy == if "Random" in ModesOf(ups) then "RANDOM" else "ROUND_ROBIN")
  }

  // ----- resolveUpstreams ---------------------------------------------------------------

  /** The addURL closure: checks one URL against the scheme seen so far. */
  method AddURL(parse: string -> Option<URL>, scheme: string, eps: seq<Endpoint>, raw: string)
    returns (ok: bool, scheme': string, eps': seq<Endpoint>)
    requires scheme == "" || scheme == "http" || scheme == "https"
    ensures ok <==> UsableURL(parse, raw) && (scheme == "" || scheme == SchemeOf(parse, raw))
    ensures ok ==> scheme' == SchemeOf(parse, raw) && scheme' != "" && eps' == eps + [EndpointOf(parse, raw)]
  {
    ok, scheme', eps' := false, scheme, eps;
    var parsed := parse(raw);
    if parsed.None? { return; }
    var u := parsed.value;
    if u.scheme != "http" && u.scheme != "https" { return; }
    if scheme == "" {
      scheme' := u.scheme;
    } else if scheme != u.scheme {
      return;
    }
    if u.host == "" { return; }
    var port: int;
    if u.port != "" {
      var n := Atoi(u.port);
      if n.None? { return; }
      port := ToInt32(n.value);
    } else {
      port := if u.scheme == "http" then 80 else 443;
    }
    var hostname := if u.scheme == "https" && !LooksLikeIP(u.host) then u.host else "";
    ok, eps' := true, eps + [Endpoint(u.host, port, hostname)];
  }

  /** All URLs of one entry; scheme is "" as long as none was seen anywhere. */
  method AddURLs(parse: string -> Option<URL>, scheme: string, raws: seq<string>, ghost before: seq<string>)
    returns (ok: bool, scheme': string, eps: seq<Endpoint>)
    requires SchemeSeen(parse, before, scheme)
    ensures ok ==> SchemeSeen(parse, before + raws, scheme') && EndpointsAre(parse, eps, raws)
    ensures !ok ==> forall s :: !Uniform(parse, before + raws, s)
  {
    ok, scheme', eps := true, scheme, [];
    assert before + raws[..0] == before;
    assert EndpointsAre(parse, eps, raws[..0]);
    hide SchemeSeen, EndpointsAre, UsableURL, EndpointOf, Uniform, SchemeOf;
    for i := 0 to |raws|
      invariant ok && SchemeSeen(parse, before + raws[..i], scheme') && EndpointsAre(parse, eps, raws[..i])
    {
      ghost var seen, prior := before + raws[..i], scheme';
      SeenScheme(parse, seen, prior);
      PrefixSnoc(before, raws, i);
      var scheme2, eps2;
      ok, scheme2, eps2 := AddURL(parse, scheme', eps, raws[i]);
      if !ok {
        NotUniform(parse, seen, prior, raws[i], before + raws);
        return;
      }
      OneMoreURL(parse, seen, prior, raws, i, eps);
      scheme', eps := scheme2, eps2;
    }
    assert raws[..|raws|] == raws;
  }

  lemma SeenScheme(parse: string -> Option<URL>, seen: seq<string>, scheme: string)
    ensures SchemeSeen(parse, seen, scheme) ==> scheme == "" || scheme == "http" || scheme == "https"
  {
  }

  lemma PrefixSnoc(before: seq<string>, raws: seq<string>, i: nat)
    requires i < |raws|
    ensures before + raws[..i + 1] == before + raws[..i] + [raws[i]]
    ensures before + raws[..i] + [raws[i]] <= before + raws
  {
  }

  /** The state of addURL's scheme variable after these URLs. */
  predicate SchemeSeen(parse: string -> Option<URL>, seen: seq<string>, scheme: string) {
    if seen == [] then scheme == ""
    else (scheme == "http" || scheme == "https") && Uniform(parse, seen, scheme)
  }

  lemma OneMoreURL(parse: string -> Option<URL>, seen: seq<string>, scheme: string,
                   raws: seq<string>, i: nat, eps: seq<Endpoint>)
    requires i < |raws| && SchemeSeen(parse, seen, scheme) && EndpointsAre(parse, eps, raws[..i])
    requires UsableURL(parse, raws[i]) && (scheme == "" || scheme == SchemeOf(parse, raws[i]))
    ensures SchemeSeen(parse, seen + [raws[i]], SchemeOf(parse, raws[i]))
    ensures EndpointsAre(parse, eps + [EndpointOf(parse, raws[i])], raws[..i + 1])
  {
    hide EndpointOf;
    assert raws[..i + 1] == raws[..i] + [raws[i]];
  }

  lemma NotUniform(parse: string -> Option<URL>, seen: seq<string>, scheme: string, raw: string, all: seq<string>)
    requires seen + [raw] <= all && SchemeSeen(parse, seen, scheme)
    requires !(UsableURL(parse, raw) && (scheme == "" || scheme == SchemeOf(parse, raw)))
    ensures forall s :: !Uniform(parse, all, s)
  {
    assert all[|seen|] == (seen + [raw])[|seen|] == raw;
    if seen != [] { assert all[0] == (seen + [raw])[0] == seen[0]; }
  }

  /** What the loop over the entries has established after these entries. */
  ghost predicate ReadSoFar(parse: string -> Option<URL>, seen: seq<Upstream>,
                            groups: seq<EnvoyGroup>, scheme: string, modes: set<string>)
  {
    && GroupsAre(parse, groups, seen) && Filled(seen) && modes == ModesOf(seen)
    && SchemeSeen(parse, AllURLs(seen), scheme)
  }

  lemma ReadOneMore(parse: string -> Option<URL>, ups: seq<Upstream>, i: nat, groups: seq<EnvoyGroup>,
                    scheme: string, modes: set<string>, scheme': string, eps: seq<Endpoint>)
    requires i < |ups| && ReadSoFar(parse, ups[..i], groups, scheme, modes)
    requires ups[i].group.Some? || ups[i].url != ""
    requires SchemeSeen(parse, AllURLs(ups[..i]) + URLsOf(ups[i]), scheme') && EndpointsAre(parse, eps, URLsOf(ups[i]))
    ensures ReadSoFar(parse, ups[..i + 1], groups + [EnvoyGroup(ups[i].name, eps)], scheme',
                      modes + if ups[i].group.Some? then {ups[i].group.value.mode} else {})
  {
    hide SchemeSeen, GroupsAre, EndpointsAre, ModesOf;
    assert ups[..i + 1][..i] == ups[..i];
    ModesSnoc(ups, i);
    GroupsSnoc(parse, groups, ups, i, eps);
  }

  /** Why each early return is right. */
  lemma EntryRejects(parse: string -> Option<URL>, ups: seq<Upstream>, i: nat)
    requires i < |ups|
    requires || (ups[i].group.None? && ups[i].url == "")
             || forall s :: !Uniform(parse, AllURLs(ups[..i]) + URLsOf(ups[i]), s)
    ensures !Acceptable(parse, ups)
  {
    hide Uniform, ModesOf;
    assert ups[..i + 1][..i] == ups[..i];
    assert AllURLs(ups[..i + 1]) == AllURLs(ups[..i]) + URLsOf(ups[i]);
    if !(ups[i].group.None? && ups[i].url == "") { PrefixUniform(parse, ups, i + 1); }
  }

  /** Why the checks after the loop are. */
  lemma AllRead(parse: string -> Option<URL>, ups: seq<Upstream>,
                groups: seq<EnvoyGroup>, scheme: string, modes: set<string>)
    requires ReadSoFar(parse, ups, groups, scheme, modes)
    ensures Acceptable(parse, ups) <==> scheme != "" && |modes| <= 1
    ensures scheme != "" ==> (scheme == "https" <==> Uniform(parse, AllURLs(ups), "https"))
  {
    hide SchemeSeen, GroupsAre, Uniform, ModesOf;
    SeenIs(parse, AllURLs(ups), scheme);
    if |modes| > 1 { TwoModes(modes); } else { OneMode(modes); }
  }

  method ResolveUpstreams(parse: string -> Option<URL>, ups: seq<Upstream>) returns (r: Resolution)
    ensures ResolutionOf(parse, ups, r)
  {
    hide UsableURL, SchemeOf, EndpointOf, URLsOf, AllURLs, ModesOf, Uniform, Filled, Acceptable, EndpointsAre,
         GroupsAre, SchemeSeen, ReadSoFar;
    var groups: seq<EnvoyGroup>, scheme, modes: set<string> := [], "", {};
    NothingRead(parse);
    assert ups[..0] == [];
    for i := 0 to |ups|
      invariant ReadSoFar(parse, ups[..i], groups, scheme, modes)
    {
      var up := ups[i];
      var raws: seq<string>;
      ghost var before := modes;
      match up.group {
        case Some(g) =>
          modes := modes + {g.mode};
          raws := g.urls;
        case None =>
          if up.url == "" {
            EntryRejects(parse, ups, i);
            return Rejected;
          }
          raws := [up.url];
      }
      URLsRead(up, raws);
      SchemeSoFar(parse, ups[..i], groups, scheme, before);
      var ok, scheme', eps := AddURLs(parse, scheme, raws, AllURLs(ups[..i]));
      if !ok {
        EntryRejects(parse, ups, i);
        return Rejected;
      }
      ReadOneMore(parse, ups, i, groups, scheme, before, scheme', eps);
      assert up.group.None? ==> before + {} == before;
      scheme := scheme';
      groups := groups + [EnvoyGroup(up.name, eps)];
    }
    assert ups[..|ups|] == ups;
    AllRead(parse, ups, groups, scheme, modes);
    if scheme == "" { return Rejected; }
    if |modes| > 1 { return Rejected; }
    var lbPolicy := if "Random" in modes then "RANDOM" else "ROUND_ROBIN";
    ReadIs(parse, ups, groups, scheme, modes);
    r := Resolved(groups, scheme == "https", lbPolicy);
  }

  lemma ReadIs(parse: string -> Option<URL>, ups: seq<Upstream>,
               groups: seq<EnvoyGroup>, scheme: string, modes: set<string>)
    requires ReadSoFar(parse, ups, groups, scheme, modes)
    ensures GroupsAre(parse, groups, ups) && modes == ModesOf(ups)
  {
  }

  lemma NothingRead(parse: string -> Option<URL>)
    ensures ReadSoFar(parse, [], [], "", {})
  {
  }

  lemma URLsRead(up: Upstream, raws: seq<string>)
    requires raws == if up.group.Some? then up.group.value.urls else [up.url]
    ensures raws == URLsOf(up)
  {
  }

  lemma SchemeSoFar(parse: string -> Option<URL>, seen: seq<Upstream>,
                    groups: seq<EnvoyGroup>, scheme: string, modes: set<string>)
    requires ReadSoFar(parse, seen, groups, scheme, modes)
    ensures SchemeSeen(parse, AllURLs(seen), scheme)
  {
  }

  /** What the final scheme says about all URLs. */
  lemma SeenIs(parse: string -> Option<URL>, raws: seq<string>, scheme: string)
    requires SchemeSeen(parse, raws, scheme)
    ensures scheme == "" <==> raws == []
    ensures raws != [] ==> Uniform(parse, raws, scheme) && (scheme == "https" <==> Uniform(parse, raws, "https"))
  {
    hide UsableURL, SchemeOf;
    if raws != [] && Uniform(parse, raws, "https") {
      assert SchemeOf(parse, raws[0]) == scheme;
    }
  }

  lemma GroupsSnoc(parse: string -> Option<URL>, groups: seq<EnvoyGroup>,
                   ups: seq<Upstream>, i: nat, eps: seq<Endpoint>)
    requires i < |ups| && GroupsAre(parse, groups, ups[..i]) && EndpointsAre(parse, eps, URLsOf(ups[i]))
    ensures GroupsAre(parse, groups + [EnvoyGroup(ups[i].name, eps)], ups[..i + 1])
  {
    hide EndpointsAre;
  }

  lemma ModesSnoc(ups: seq<Upstream>, i: nat)
    requires i < |ups|
    ensures ModesOf(ups[..i + 1]) == ModesOf(ups[..i]) + if ups[i].group.Some? then {ups[i].group.value.mode} else {}
  {
    var a, b := ups[..i], ups[..i + 1];
    forall m | m in ModesOf(b) ensures m in ModesOf(a) || (ups[i].group.Some? && m == ups[i].group.value.mode) {
      var j :| 0 <= j < |b| && b[j].group.Some? && b[j].group.value.mode == m;
      if j < i { assert a[j] == b[j]; }
    }
    forall m | m in ModesOf(a) ensures m in ModesOf(b) {
      var j :| 0 <= j < |a| && a[j].group.Some? && a[j].group.value.mode == m;
      assert b[j] == a[j];
    }
    if ups[i].group.Some? { assert b[i] == ups[i]; }
  }

  lemma {:induction false} AllURLsPrefix(ups: seq<Upstream>, i: nat)
    requires i <= |ups|
    ensures AllURLs(ups[..i]) <= AllURLs(ups)
    decreases |ups|
  {
    if i < |ups| {
      AllURLsPrefix(ups[..|ups| - 1], i);
      assert ups[..|ups| - 1][..i] == ups[..i];
    } else {
      assert ups[..i] == ups;
    }
  }

  lemma PrefixUniform(parse: string -> Option<URL>, ups: seq<Upstream>, i: nat)
    requires i <= |ups| && forall s :: !Uniform(parse, AllURLs(ups[..i]), s)
    ensures forall s :: !Uniform(parse, AllURLs(ups), s)
  {
    AllURLsPrefix(ups, i);
    forall s ensures !Uniform(parse, AllURLs(ups), s) {
      UniformOnPrefix(parse, AllURLs(ups[..i]), AllURLs(ups), s);
    }
  }

  lemma UniformOnPrefix(parse: string -> Option<URL>, a: seq<string>, b: seq<string>, s: string)
    requires a <= b
    ensures Uniform(parse, b, s) ==> Uniform(parse, a, s)
  {
    hide UsableURL, SchemeOf;
    assert forall j :: 0 <= j < |a| ==> a[j] == b[j];
  }

  lemma TwoModes(modes: set<string>)
    requires |modes| > 1
    ensures exists m, n :: m in modes && n in modes && m != n
  {
    var m :| m in modes;
    assert |modes - {m}| > 0;
    var n :| n in modes - {m};
  }

  lemma OneMode(modes: set<string>)
    requires |modes| <= 1
    ensures forall m, n :: m in modes && n in modes ==> m == n
  {
    forall m, n | m in modes && n in modes ensures m == n {
      if m != n { assert {m, n} <= modes; Subset({m, n}, modes); }
    }
  }

  lemma {:induction false} Subset(a: set<string>, b: set<string>)
    requires a <= b
    ensures |a| <= |b|
  {
    if a != {} {
      var x :| x in a;
      Subset(a - {x}, b - {x});
    }
  }

  // ----- Health --------------------------------------------------------------------------

  datatype Host = Host(priority: int, failedHC: bool, failedOutlier: bool, eds: string)

  datatype Cluster = Cluster(name: string, hosts: seq<Host>)

  datatype UpstreamStatus = UpstreamStatus(
    name: string, urls: seq<string>, healthyEndpoints: nat, healthy: bool, message: string)

  predicate HealthyHost(h: Host) {
    !h.failedHC && !h.failedOutlier && (h.eds == "" || h.eds == "HEALTHY")
  }

  /** The hosts Envoy reports for the "remote" cluster. */
  function RemoteHosts(dump: seq<Cluster>): seq<Host> {
    if dump == [] then []
    else RemoteHosts(dump[..|dump| - 1]) + if dump[|dump| - 1].name == "remote" then dump[|dump| - 1].hosts else []
  }

  function Count(hosts: seq<Host>, priority: int, healthyOnly: bool): nat {
    if hosts == [] then 0
    else
      var h := hosts[|hosts| - 1];
      Count(hosts[..|hosts| - 1], priority, healthyOnly) +
      if h.priority == priority && (healthyOnly ==> HealthyHost(h)) then 1 else 0
  }

  predicate HealthyAt(hosts: seq<Host>, priority: int) {
    exists i :: 0 <= i < |hosts| && hosts[i].priority == priority && HealthyHost(hosts[i])
  }

  lemma {:induction false} CountIs(hosts: seq<Host>, priority: int)
    ensures Count(hosts, priority, true) > 0 <==> HealthyAt(hosts, priority)
  {
    if hosts != [] {
      var init := hosts[..|hosts| - 1];
      CountIs(init, priority);
      if HealthyAt(init, priority) {
        var i :| 0 <= i < |init| && init[i].priority == priority && HealthyHost(init[i]);
        assert hosts[i] == init[i];
      }
      if HealthyAt(hosts, priority) && !(hosts[|hosts| - 1].priority == priority && HealthyHost(hosts[|hosts| - 1])) {
        var i :| 0 <= i < |hosts| && hosts[i].priority == priority && HealthyHost(hosts[i]);
        assert init[i] == hosts[i];
      }
    }
  }

  /** The two counting loops over the dump. */
  method CountByPriority(dump: seq<Cluster>) returns (healthy: map<int, nat>, total: map<int, nat>)
    ensures Counted(healthy, total, RemoteHosts(dump))
  {
    healthy, total := map[], map[];
    for c := 0 to |dump|
      invariant Counted(healthy, total, RemoteHosts(dump[..c]))
    {
      assert dump[..c + 1][..c] == dump[..c];
      ghost var before := RemoteHosts(dump[..c]);
      assert before + [] == before;
      if dump[c].name != "remote" { continue; }
      var hosts := dump[c].hosts;
      for i := 0 to |hosts|
        invariant Counted(healthy, total, before + hosts[..i])
      {
        var h := hosts[i];
        CountedSnoc(healthy, total, before + hosts[..i], h);
        assert before + hosts[..i + 1] == before + hosts[..i] + [h];
        total := total[h.priority := At(total, h.priority) + 1];
        if HealthyHost(h) {
          healthy := healthy[h.priority := At(healthy, h.priority) + 1];
        }
      }
      assert hosts[..|hosts|] == hosts;
    }
    assert dump[..|dump|] == dump;
  }

  lemma CountedSnoc(healthy: map<int, nat>, total: map<int, nat>, hosts: seq<Host>, h: Host)
    requires Counted(healthy, total, hosts)
    ensures Counted(if HealthyHost(h) then healthy[h.priority := At(healthy, h.priority) + 1] else healthy,
                    total[h.priority := At(total, h.priority) + 1], hosts + [h])
  {
    forall p, only ensures Count(hosts + [h], p, only) ==
      Count(hosts, p, only) + if h.priority == p && (only ==> HealthyHost(h)) then 1 else 0
    {
      assert (hosts + [h])[..|hosts|] == hosts;
    }
  }

  function At(m: map<int, nat>, p: int): nat {
    if p in m then m[p] else 0
  }

  ghost predicate Counted(healthy: map<int, nat>, total: map<int, nat>, hosts: seq<Host>) {
    forall p :: At(healthy, p) == Count(hosts, p, true) && At(total, p) == Count(hosts, p, false)
  }

  /** What one entry's status says after a scrape. */
  predicate StatusIs(s: UpstreamStatus, up: Upstream, hosts: seq<Host>, priority: int) {
    && s.name == up.name && s.urls == SpecURLs(up)
    && s.healthyEndpoints == Count(hosts, priority, true) && s.healthy == HealthyAt(hosts, priority)
    && s.message == if Count(hosts, priority, false) == 0 then "no host_statuses reported by Envoy yet"
                    else if !s.healthy then "active health check failing" else ""
  }

  function SpecURLs(up: Upstream): seq<string> {
    if up.group.Some? then up.group.value.urls else if up.url != "" then [up.url] else []
  }

  /** An entry of initialUpstreamStatus. */
  function Unprobed(up: Upstream): UpstreamStatus {
    UpstreamStatus(up.name, SpecURLs(up), 0, false, "")
  }

  function ScrapeFailed(up: Upstream): UpstreamStatus {
    Unprobed(up).(message := "admin scrape failed")
  }

  /** refreshUpstreamHealth with the scraped dump, or None when the scrape failed:
      the active upstream is the entry of least priority with a healthy host. */
  method RefreshUpstreamHealth(ups: seq<Upstream>, dump: Option<seq<Cluster>>)
    returns (statuses: seq<UpstreamStatus>, active: string)
    ensures |statuses| == |ups|
    ensures dump.Some? ==> forall i :: 0 <= i < |ups| ==> StatusIs(statuses[i], ups[i], RemoteHosts(dump.value), i)
    ensures dump.None? ==> forall i :: 0 <= i < |ups| ==> statuses[i] == ScrapeFailed(ups[i])
    ensures ActiveIs(active, ups, if dump.Some? then RemoteHosts(dump.value) else [])
  {
    hide HealthyAt, Count, RemoteHosts, HealthyHost;
    statuses := [];
    for i := 0 to |ups|
      invariant |statuses| == i
      invariant forall j :: 0 <= j < i ==> statuses[j] == Unprobed(ups[j])
    {
      statuses := statuses + [Unprobed(ups[i])];
    }
    ghost var hosts := if dump.Some? then RemoteHosts(dump.value) else [];
    match dump {
      case Some(d) =>
        var healthy, total := CountByPriority(d);
        for i := 0 to |ups|
          invariant |statuses| == |ups|
          invariant forall j :: 0 <= j < i ==> StatusIs(statuses[j], ups[j], hosts, j)
          invariant forall j :: i <= j < |ups| ==> statuses[j] == Unprobed(ups[j])
        {
          CountIs(hosts, i);
          var n := At(healthy, i);
          var message := if At(total, i) == 0 then "no host_statuses reported by Envoy yet"
                         else if n == 0 then "active health check failing" else "";
          statuses := statuses[i := statuses[i].(healthyEndpoints := n, healthy := n > 0, message := message)];
        }
      case None =>
        NoHosts();
        for i := 0 to |ups|
          invariant |statuses| == |ups|
          invariant forall j :: 0 <= j < i ==> statuses[j] == ScrapeFailed(ups[j])
          invariant forall j :: i <= j < |ups| ==> statuses[j] == Unprobed(ups[j])
        {
          statuses := statuses[i := statuses[i].(message := "admin scrape failed")];
        }
    }
    assert forall j :: 0 <= j < |ups| ==> statuses[j].name == ups[j].name && statuses[j].healthy == HealthyAt(hosts, j);
    active := "";
    for i := 0 to |statuses|
      invariant active == "" && forall j :: 0 <= j < i ==> !HealthyAt(hosts, j)
    {
      if statuses[i].healthy {
        assert FirstHealthy(ups, hosts, i);
        return statuses, statuses[i].name;
      }
    }
  }

  lemma NoHosts()
    ensures forall p :: !HealthyAt([], p)
  {
  }

  /** The name of the entry of least priority with a healthy host, "" without one. */
  ghost predicate ActiveIs(active: string, ups: seq<Upstream>, hosts: seq<Host>) {
    || (active == "" && forall i :: 0 <= i < |ups| ==> !HealthyAt(hosts, i))
    || exists i :: FirstHealthy(ups, hosts, i) && active == ups[i].name
  }

  ghost predicate FirstHealthy(ups: seq<Upstream>, hosts: seq<Host>, i: int) {
    0 <= i < |ups| && HealthyAt(hosts, i) && forall j :: 0 <= j < i ==> !HealthyAt(hosts, j)
  }

  /** Entries have unique, non-empty names, so the active name tells which entry
      is meant, and an empty one tells that no entry is healthy. */
  lemma ActiveTells(active: string, ups: seq<Upstream>, hosts: seq<Host>)
    requires ActiveIs(active, ups, hosts)
    requires forall i :: 0 <= i < |ups| ==> ups[i].name != ""
    requires forall i, j :: 0 <= i < j < |ups| ==> ups[i].name != ups[j].name
    ensures active == "" <==> forall i :: 0 <= i < |ups| ==> !HealthyAt(hosts, i)
    ensures forall i :: 0 <= i < |ups| ==> (active == ups[i].name <==> FirstHealthy(ups, hosts, i))
  {
    hide HealthyAt;
    if i :| FirstHealthy(ups, hosts, i) {
      forall j | 0 <= j < |ups| && (active == ups[j].name || FirstHealthy(ups, hosts, j)) ensures j == i {
        if k :| FirstHealthy(ups, hosts, k) && active == ups[k].name { assert k == i; }
      }
    }
  }
}
