/** What `createCluster` asks of the cluster builder, once host-name resolution,
    TLS contexts and the builder itself are left to the cluster driver: the
    contact-point names in order, the shared port, the TLS mode and the
    credentials. */
module ClusterPlan {
  import opened Wrappers
  import opened JavaText
  import opened JavaErrors
  import opened CassandraClientUri

  /** `withSSL()` (verifying) or `withSSL(options)` with a trust-everybody context. */
  datatype SslMode = NoSsl | VerifyingSsl | TrustEverybodySsl

  datatype Credentials = Credentials(userName: string, password: string)

  datatype ContactPlan = ContactPlan(
    contactPoints: seq<string>,     // the names passed to `InetAddress.getByName`, in order
    withPort: Option<nat>,          // the argument of `withPort`, if it is called
    ssl: SslMode,
    sslConfigurations: nat,         // how many times the TLS policy is set (once per host)
    credentials: Option<Credentials>)

  /** The port before any host names one. */
  const UnsetPort: int := -1

  /** A host names a port when its first `:` is not its first character. */
  predicate NamesPort(host: string) {
    IndexOf(host, ':') > 0
  }

  /** The trimmed text after the first `:`. */
  function PortText(host: string): string
    requires NamesPort(host)
  {
    Trim(host[IndexOf(host, ':') + 1..])
  }

  /** The name handed to address resolution: the trimmed text before the first
      `:` when the host names a port, else the host unchanged. */
  function ContactName(host: string): (r: string)
    ensures !NamesPort(host) ==> r == host
    ensures NamesPort(host) ==> ':' !in r && |r| < |host|
    ensures NamesPort(host) && |r| > 0 ==> !IsBlank(r[0]) && !IsBlank(r[|r| - 1])
  {
    if NamesPort(host) then Trim(host[..IndexOf(host, ':')]) else host
  }

  /** A host naming a port whose text `Integer.parseInt` rejects. */
  predicate BadPort(host: string) {
    NamesPort(host) && ParseInt(PortText(host)).None?
  }

  /** The port value after the loop visits `host`. */
  function NextPort(host: string, port: int): (r: Result<int, Failure>)
    ensures r.Failure? <==> BadPort(host)
    ensures r.Failure? ==> r.error == NumberFormat(PortText(host))
    ensures r.Success? && !NamesPort(host) ==> r.value == port
    ensures r.Success? && NamesPort(host) ==> ParseInt(PortText(host)) == Some(r.value)
  {
    if !NamesPort(host) then Success(port)
    else
      var parsed := ParseInt(PortText(host));
      if parsed.None? then Failure(NumberFormat(PortText(host))) else Success(parsed.value)
  }

  datatype HostsPlan = HostsPlan(names: seq<string>, port: int)

  /** The loop over the hosts, from the port value `port` on. */
  function PlanHosts(hosts: seq<string>, port: int): (r: Result<HostsPlan, Failure>)
    ensures r.Success? ==> |r.value.names| == |hosts|
  {
    if |hosts| == 0 then Success(HostsPlan([], port))
    else
      var next :- NextPort(hosts[0], port);
      var rest :- PlanHosts(hosts[1..], next);
      Success(HostsPlan([ContactName(hosts[0])] + rest.names, rest.port))
  }

  /** One step of the loop: a bad first host fails at once; otherwise the loop
      fails as the loop over the tail does, with the same error. */
  lemma PlanHostsStep(hosts: seq<string>, port: int)
    requires |hosts| > 0
    ensures NextPort(hosts[0], port).Failure? ==>
      PlanHosts(hosts, port) == Failure(NextPort(hosts[0], port).error)
    ensures NextPort(hosts[0], port).Success? ==>
      var tail := PlanHosts(hosts[1..], NextPort(hosts[0], port).value);
      && PlanHosts(hosts, port).Failure? == tail.Failure?
      && (tail.Failure? ==> PlanHosts(hosts, port).error == tail.error)
  {
  }

  /** Host `i` is the first host `bad` holds of. */
  predicate FirstWhere(hosts: seq<string>, i: int, bad: string -> bool) {
    0 <= i < |hosts| && bad(hosts[i]) && forall j :: 0 <= j < i ==> !bad(hosts[j])
  }

  /** Host `i` is the first host with a bad port. */
  predicate FirstBadPort(hosts: seq<string>, i: int) {
    FirstWhere(hosts, i, BadPort)
  }

  /** The first match in the tail is the first match of the whole list when
      the head does not match; and some host matches iff the head or some
      host of the tail does. */
  lemma FirstWhereShift(hosts: seq<string>, bad: string -> bool)
    requires |hosts| > 0
    ensures forall i :: !bad(hosts[0]) && FirstWhere(hosts[1..], i, bad) ==> FirstWhere(hosts, i + 1, bad)
    ensures (exists i :: 0 <= i < |hosts| && bad(hosts[i])) <==>
      bad(hosts[0]) || exists i :: 0 <= i < |hosts[1..]| && bad(hosts[1..][i])
  {
    var tail := hosts[1..];
    assert forall i :: 1 <= i < |hosts| ==> hosts[i] == tail[i - 1];
    if exists i :: 0 <= i < |hosts| && bad(hosts[i]) {
      var i :| 0 <= i < |hosts| && bad(hosts[i]);
      if i > 0 {
        assert bad(tail[i - 1]);
      }
    }
  }

  /** The loop fails exactly when some host's port text does not parse, and then
      with the text of the first such host. */
  lemma {:induction false} PlanHostsFailure(hosts: seq<string>, port: int)
    ensures PlanHosts(hosts, port).Failure? <==> exists i :: 0 <= i < |hosts| && BadPort(hosts[i])
    ensures PlanHosts(hosts, port).Failure? ==>
      exists i :: FirstBadPort(hosts, i) && PlanHosts(hosts, port).error == NumberFormat(PortText(hosts[i]))
  {
    if |hosts| > 0 {
      PlanHostsStep(hosts, port);
      FirstWhereShift(hosts, BadPort);
      var step := NextPort(hosts[0], port);
      if step.Failure? {
        assert FirstBadPort(hosts, 0);
      } else {
        var tail := hosts[1..];
        PlanHostsFailure(tail, step.value);
        if PlanHosts(tail, step.value).Failure? {
          var i :| FirstBadPort(tail, i) && PlanHosts(tail, step.value).error == NumberFormat(PortText(tail[i]));
          assert FirstBadPort(hosts, i + 1);
          assert tail[i] == hosts[i + 1];
        }
      }
    }
  }

  /** Every host becomes one contact point, in order. */
  lemma {:induction false} PlanHostsNames(hosts: seq<string>, port: int)
    requires PlanHosts(hosts, port).Success?
    ensures forall i :: 0 <= i < |hosts| ==> PlanHosts(hosts, port).value.names[i] == ContactName(hosts[i])
  {
    if |hosts| > 0 {
      var next := NextPort(hosts[0], port).value;
      PlanHostsNames(hosts[1..], next);
      assert PlanHosts(hosts, port).value.names ==
        [ContactName(hosts[0])] + PlanHosts(hosts[1..], next).value.names;
    }
  }

  /** Host `i` names port `p` and no later host names a port. */
  predicate LastNamedPort(hosts: seq<string>, i: int, p: int) {
    0 <= i < |hosts| && NamesPort(hosts[i]) && ParseInt(PortText(hosts[i])) == Some(p) &&
    forall j :: i < j < |hosts| ==> !NamesPort(hosts[j])
  }

  /** A last port-naming host of the tail is one of the whole list. */
  lemma LastNamedPortShift(hosts: seq<string>, i: int, p: int)
    requires |hosts| > 0 && LastNamedPort(hosts[1..], i, p)
    ensures LastNamedPort(hosts, i + 1, p)
  {
    assert hosts[i + 1] == hosts[1..][i];
    forall j | i + 1 < j < |hosts|
      ensures !NamesPort(hosts[j])
    {
      assert hosts[j] == hosts[1..][j - 1];
    }
  }

  /** The port after the whole loop is the port after the loop over the tail,
      started from the port the first host leaves. */
  lemma PlanHostsUnfold(hosts: seq<string>, port: int)
    requires |hosts| > 0 && PlanHosts(hosts, port).Success?
    ensures NextPort(hosts[0], port).Success?
    ensures PlanHosts(hosts[1..], NextPort(hosts[0], port).value).Success?
    ensures PlanHosts(hosts, port).value.port ==
      PlanHosts(hosts[1..], NextPort(hosts[0], port).value).value.port
  {
  }

  /** The last host that names a port decides the port; with none, the port
      keeps its starting value. */
  lemma {:induction false} PlanHostsPort(hosts: seq<string>, port: int)
    requires PlanHosts(hosts, port).Success?
    ensures var p := PlanHosts(hosts, port).value.port;
      || (p == port && forall i :: 0 <= i < |hosts| ==> !NamesPort(hosts[i]))
      || exists i :: LastNamedPort(hosts, i, p)
  {
    if |hosts| > 0 {
      PlanHostsUnfold(hosts, port);
      var tail := hosts[1..];
      var next := NextPort(hosts[0], port).value;
      PlanHostsPort(tail, next);
      var p := PlanHosts(hosts, port).value.port;
      if exists i :: LastNamedPort(tail, i, p) {
        var i :| LastNamedPort(tail, i, p);
        LastNamedPortShift(hosts, i, p);
      } else {
        TailNamesNoPort(hosts);
        if NamesPort(hosts[0]) {
          assert LastNamedPort(hosts, 0, p);
        }
      }
    }
  }

  /** No host of the tail names a port, so no host after the first does. */
  lemma TailNamesNoPort(hosts: seq<string>)
    requires |hosts| > 0
    requires forall i :: 0 <= i < |hosts| - 1 ==> !NamesPort(hosts[1..][i])
    ensures forall i :: 1 <= i < |hosts| ==> !NamesPort(hosts[i])
  {
    assert forall i :: 1 <= i < |hosts| ==> hosts[i] == hosts[1..][i - 1];
  }

  /** TLS: off unless `sslEnabled`; then verifying or trust-everybody. */
  function SslModeOf(u: ClientUri): (r: SslMode)
    ensures r == NoSsl <==> !u.sslEnabled
    ensures r == VerifyingSsl <==> u.sslEnabled && u.verifyServerCert
  {
    if !u.sslEnabled then NoSsl
    else if u.verifyServerCert then VerifyingSsl
    else TrustEverybodySsl
  }

  /** Credentials are applied iff the user is non-null and non-empty and the
      password is non-null. */
  function CredentialsOf(u: ClientUri): (r: Option<Credentials>)
    ensures r.Some? <==> u.userName.Some? && u.userName.value != "" && u.password.Some?
    ensures r.Some? ==> r.value == Credentials(u.userName.value, u.password.value)
  {
    if u.userName.Some? && |u.userName.value| > 0 && u.password.Some? then
      Some(Credentials(u.userName.value, u.password.value))
    else None
  }

  /** `createCluster`, up to the calls into the cluster driver. */
  function Plan(u: ClientUri): (r: Result<ContactPlan, Failure>)
    ensures r.Success? ==> |r.value.contactPoints| == |u.hosts|
    ensures r.Success? ==> r.value.sslConfigurations == (if u.sslEnabled then |u.hosts| else 0)
    ensures r.Success? ==> r.value.ssl == SslModeOf(u) && r.value.credentials == CredentialsOf(u)
  {
    var hosts :- PlanHosts(u.hosts, UnsetPort);
    Success(ContactPlan(
      contactPoints := hosts.names,
      withPort := if hosts.port > UnsetPort then Some(hosts.port) else None,
      ssl := SslModeOf(u),
      sslConfigurations := if u.sslEnabled then |u.hosts| else 0,
      credentials := CredentialsOf(u)))
  }

  /** The port reaches the builder only when the last host naming a port names a
      non-negative one, and then it is that host's port. */
  lemma PlanPort(u: ClientUri)
    requires Plan(u).Success?
    ensures Plan(u).value.withPort.Some? <==>
      exists i, p :: LastNamedPort(u.hosts, i, p) && p >= 0
    ensures Plan(u).value.withPort.Some? ==>
      exists i :: LastNamedPort(u.hosts, i, Plan(u).value.withPort.value)
  {
    PlanHostsPort(u.hosts, UnsetPort);
    var p := PlanHosts(u.hosts, UnsetPort).value.port;
    forall i, q | LastNamedPort(u.hosts, i, q)
      ensures q == p
    {
      if exists k :: LastNamedPort(u.hosts, k, p) {
        var k :| LastNamedPort(u.hosts, k, p);
        assert k == i;
      }
    }
  }

  /** Everything the plan names for each host, and the loop's failure condition. */
  lemma PlanContacts(u: ClientUri)
    ensures Plan(u).Failure? <==> exists i :: 0 <= i < |u.hosts| && BadPort(u.hosts[i])
    ensures Plan(u).Success? ==>
      forall i :: 0 <= i < |u.hosts| ==> Plan(u).value.contactPoints[i] == ContactName(u.hosts[i])
  {
    PlanHostsFailure(u.hosts, UnsetPort);
    if Plan(u).Success? {
      PlanHostsNames(u.hosts, UnsetPort);
    }
  }

  /** Without a property bag, TLS, when enabled, never verifies the server:
      the URI cannot switch `verifyServerCertificate` on. */
  lemma UriAloneNeverVerifies(uri: string)
    requires Parse(uri, None).Success?
    requires Plan(Parse(uri, None).value).Success?
    ensures var plan := Plan(Parse(uri, None).value).value;
      plan.ssl == (if Parse(uri, None).value.sslEnabled then TrustEverybodySsl else NoSsl)
  {
    VerifyServerCertOnlyFromProperties(uri, None);
  }
}
