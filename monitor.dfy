/**
 * One pass of `main` (monitor.py, lines 112-166): the enabled hosts of the
 * configuration, in order, each pinged once and then, port by port, probed
 * and recorded in the CSV log. The network and the clock are oracles.
 */
module Monitor {
  import opened Wrappers
  import opened Ping
  import opened CsvLog

  /** A value as `json.load` produces it (numbers as reals). */
  datatype Json =
    | Null
    | Bool(b: bool)
    | Number(x: real)
    | Str(s: string)
    | Array(items: seq<Json>)
    | Object(members: seq<(string, Json)>)

  /** Python truthiness of a loaded JSON value. */
  predicate Truthy(v: Json)
  {
    match v
    case Null => false
    case Bool(b) => b
    case Number(x) => x != 0.0
    case Str(s) => s != ""
    case Array(items) => items != []
    case Object(members) => members != []
  }

  /** One entry of the configuration's `hosts` list; `None` is a missing key. */
  datatype Host = Host(
    name: Option<string>,
    ip: Option<string>,
    ports: Option<seq<int>>,
    hostType: Option<string>,
    enabled: Option<Json>)

  /** `h.get("enabled", True)` is truthy. */
  predicate IsEnabled(h: Host)
  {
    match h.enabled
    case None => true
    case Some(v) => Truthy(v)
  }

  function NameOf(h: Host): string { h.name.GetOr("unnamed") }

  function TypeOf(h: Host): string { h.hostType.GetOr("unknown") }

  function PortsOf(h: Host): seq<int> { h.ports.GetOr([]) }

  /** `ip = host.get("ip")` is truthy: present and non-empty. */
  predicate HasIp(h: Host)
  {
    h.ip.Some? && h.ip.value != ""
  }

  /** `[h for h in hosts if h.get("enabled", True)]`. */
  function Enabled(config: seq<Host>): (r: seq<Host>)
    ensures |r| <= |config|
    ensures forall h :: h in r <==> h in config && IsEnabled(h)
  {
    if config == [] then []
    else (if IsEnabled(config[0]) then [config[0]] else []) + Enabled(config[1..])
  }

  /** The filter works element by element: it keeps order and drops only disabled hosts. */
  lemma {:induction false} EnabledConcat(a: seq<Host>, b: seq<Host>)
    ensures Enabled(a + b) == Enabled(a) + Enabled(b)
    decreases |a|
  {
    if a == [] {
      assert a + b == b;
    } else {
      assert (a + b)[0] == a[0];
      assert (a + b)[1..] == a[1..] + b;
      EnabledConcat(a[1..], b);
    }
  }

  /** A single host is kept exactly when it is enabled. */
  lemma EnabledSingle(h: Host)
    ensures Enabled([h]) == if IsEnabled(h) then [h] else []
  {
    assert [h][1..] == [];
  }

  const Online: string := "ONLINE"
  const Offline: string := "OFFLINE"
  const Open: string := "ABERTA"
  const Closed: string := "FECHADA"
  const Unreachable: string := "HOST_INDISPON\U{CD}VEL"

  /** The port column of a host declared without ports. */
  const NoPort: string := "-"

  /**
   * The status of one port (lines 152-154): unreachable whenever the host is
   * down, otherwise open or closed as the connection attempt went.
   */
  function PortStatus(alive: bool, connected: bool): (r: string)
    ensures r == Unreachable <==> !alive
    ensures r == Open <==> alive && connected
    ensures r == Closed <==> alive && !connected
  {
    var status := if alive && connected then Open else Closed;
    if !alive then Unreachable else status
  }

  /** The list handed to `write_log_row`. */
  function DataRow(timestamp: string, name: string, hostType: string, ip: string, port: Cell,
                   status: string, latency: string): Row
  {
    [Text(timestamp), Text(name), Text(hostType), Text(ip), port, Text(status), Text(latency)]
  }

  /**
   * The answers of the outside world in one run, keyed by the host's position
   * `k` in the enabled list and the port's position `j` in its `ports`:
   * the `ping` run, the result of `check_port`, and the formatted clock.
   */
  datatype Network = Network(
    ping: nat -> PingOutcome,
    portOpen: (nat, nat) -> bool,
    clock: (nat, nat) -> string)

  /** A `check_port(ip, port)` call. */
  datatype Probe = Probe(ip: string, port: int)

  /** The host at position `k` answered its ping. */
  predicate Alive(k: nat, net: Network)
  {
    PingHost(net.ping(k)).alive
  }

  /** The latency column: the ping's latency while the host is up, "-" otherwise. */
  function LatencyColumn(k: nat, net: Network): string
  {
    var reply := PingHost(net.ping(k));
    if reply.alive then reply.latency else Unknown
  }

  /**
   * The row written for the `j`-th declared port, `port`, of a host that is
   * `alive` or not with ping latency `latency` (lines 152-164).
   */
  function PortLine(k: nat, j: nat, name: string, hostType: string, ip: string, port: int,
                    alive: bool, latency: string, net: Network): Row
  {
    DataRow(net.clock(k, j), name, hostType, ip, Int(port),
            PortStatus(alive, alive && net.portOpen(k, j)), if alive then latency else Unknown)
  }

  /** The rows of `main`'s inner loop over `ports`, in order. */
  function PortLines(k: nat, name: string, hostType: string, ip: string, ports: seq<int>,
                     alive: bool, latency: string, net: Network): seq<Row>
  {
    seq(|ports|, j requires 0 <= j < |ports| => PortLine(k, j, name, hostType, ip, ports[j], alive, latency, net))
  }

  /** The `check_port` calls of `main`'s inner loop: every port in order, but only while the host is up. */
  function PortProbes(ip: string, ports: seq<int>, alive: bool): seq<Probe>
  {
    if !alive then [] else seq(|ports|, j requires 0 <= j < |ports| => Probe(ip, ports[j]))
  }

  /** The rows the host at position `k` gives to `write_log_row`, in order (lines 124-164). */
  function HostRows(k: nat, h: Host, net: Network): seq<Row>
  {
    if !HasIp(h) then []
    else if PortsOf(h) == [] then
      [DataRow(net.clock(k, 0), NameOf(h), TypeOf(h), h.ip.value, Text(NoPort),
               if Alive(k, net) then Online else Offline, LatencyColumn(k, net))]
    else
      PortLines(k, NameOf(h), TypeOf(h), h.ip.value, PortsOf(h), Alive(k, net), PingHost(net.ping(k)).latency, net)
  }

  /** The `check_port` calls made for the host at position `k`, in order. */
  function HostProbes(k: nat, h: Host, net: Network): seq<Probe>
  {
    if !HasIp(h) then [] else PortProbes(h.ip.value, PortsOf(h), Alive(k, net))
  }

  /** The rows of the first `n` hosts. */
  function Rows(hosts: seq<Host>, net: Network, n: nat): seq<Row>
    requires n <= |hosts|
  {
    if n == 0 then [] else Rows(hosts, net, n - 1) + HostRows(n - 1, hosts[n - 1], net)
  }

  /** The `check_port` calls for the first `n` hosts. */
  function Probes(hosts: seq<Host>, net: Network, n: nat): seq<Probe>
    requires n <= |hosts|
  {
    if n == 0 then [] else Probes(hosts, net, n - 1) + HostProbes(n - 1, hosts[n - 1], net)
  }

  /** Everything one run writes to the log. */
  function RunRows(config: seq<Host>, net: Network): seq<Row>
  {
    Rows(Enabled(config), net, |Enabled(config)|)
  }

  /** Every `check_port` call of one run. */
  function RunProbes(config: seq<Host>, net: Network): seq<Probe>
  {
    Probes(Enabled(config), net, |Enabled(config)|)
  }

  /**
   * The body of `main`'s loop for the host at position `k` (lines 124-164):
   * skipped without an ip, otherwise pinged once and recorded port by port.
   */
  method RecordHost(log: LogFile, k: nat, host: Host, net: Network) returns (probes: seq<Probe>)
    modifies log
    ensures log.lines == AppendAll(old(log.lines), HostRows(k, host, net))
    ensures probes == HostProbes(k, host, net)
  {
    probes := [];
    var name, ports, hostType := NameOf(host), PortsOf(host), TypeOf(host);
    if !HasIp(host) {
      return;
    }
    var ip := host.ip.value;
    var reply := PingHost(net.ping(k));
    var alive, latency := reply.alive, reply.latency;
    if ports == [] {
      var status := if alive then Online else Offline;
      var row := DataRow(net.clock(k, 0), name, hostType, ip, Text(NoPort), status,
                         if alive then latency else Unknown);
      log.WriteRow(row);
      assert HostRows(k, host, net) == [row];
    } else {
      probes := RecordPorts(log, k, name, hostType, ip, ports, alive, latency, net);
    }
  }

  /**
   * `main`'s inner loop (lines 151-164): each port in turn probed while the
   * host is up, given its status and written to the log.
   */
  method RecordPorts(log: LogFile, k: nat, name: string, hostType: string, ip: string, ports: seq<int>,
                     alive: bool, latency: string, net: Network) returns (probes: seq<Probe>)
    modifies log
    ensures log.lines == AppendAll(old(log.lines), PortLines(k, name, hostType, ip, ports, alive, latency, net))
    ensures probes == PortProbes(ip, ports, alive)
  {
    ghost var rows := PortLines(k, name, hostType, ip, ports, alive, latency, net);
    ghost var all := PortProbes(ip, ports, alive);
    probes := [];
    var j := 0;
    while j < |ports|
      invariant 0 <= j <= |ports|
      invariant log.lines == AppendAll(old(log.lines), rows[..j])
      invariant probes == if alive then all[..j] else []
    {
      var port := ports[j];
      var connected := false;
      if alive {
        connected := net.portOpen(k, j);
        probes := probes + [Probe(ip, port)];
      }
      var portStatus := if alive && connected then Open else Closed;
      if !alive {
        portStatus := Unreachable;
      }
      var row := DataRow(net.clock(k, j), name, hostType, ip, Int(port), portStatus,
                         if alive then latency else Unknown);
      assert row == rows[j];
      ghost var before := log.lines;
      log.WriteRow(row);
      AppendAllStep(old(log.lines), rows, j, before, log.lines);
      if alive {
        PrefixStep(all, j);
      }
      j := j + 1;
    }
    assert rows[..j] == rows;
  }

  /** One more element of a prefix. */
  lemma PrefixStep<T>(s: seq<T>, j: nat)
    requires j < |s|
    ensures s[..j + 1] == s[..j] + [s[j]]
  {
  }

  /** `main` after `load_config`: the enabled hosts in order, each recorded in the log. */
  method Run(log: LogFile, config: seq<Host>, net: Network) returns (probes: seq<Probe>)
    modifies log
    ensures log.lines == AppendAll(old(log.lines), RunRows(config, net))
    ensures probes == RunProbes(config, net)
  {
    var enabled := Enabled(config);
    probes := [];
    if enabled == [] {
      return;
    }
    var i := 0;
    while i < |enabled|
      invariant 0 <= i <= |enabled|
      invariant log.lines == AppendAll(old(log.lines), Rows(enabled, net, i))
      invariant probes == Probes(enabled, net, i)
    {
      var hostProbes := RecordHost(log, i, enabled[i], net);
      probes := probes + hostProbes;
      assert Rows(enabled, net, i + 1) == Rows(enabled, net, i) + HostRows(i, enabled[i], net);
      AppendAllConcat(old(log.lines), Rows(enabled, net, i), HostRows(i, enabled[i], net));
      i := i + 1;
    }
  }

  /** A host without an ip writes nothing and probes nothing; the run goes on with the next host. */
  lemma SkippedHost(hosts: seq<Host>, net: Network, k: nat)
    requires k < |hosts| && !HasIp(hosts[k])
    ensures HostRows(k, hosts[k], net) == [] && HostProbes(k, hosts[k], net) == []
    ensures Rows(hosts, net, k + 1) == Rows(hosts, net, k)
    ensures Probes(hosts, net, k + 1) == Probes(hosts, net, k)
  {
    assert Rows(hosts, net, k) + [] == Rows(hosts, net, k);
    assert Probes(hosts, net, k) + [] == Probes(hosts, net, k);
  }

  /** No enabled host: no row, no probe, and the log (or its absence) is left as it was. */
  lemma NoEnabledHost(config: seq<Host>, net: Network, file: Option<seq<Row>>)
    requires forall h :: h in config ==> !IsEnabled(h)
    ensures RunRows(config, net) == [] && RunProbes(config, net) == []
    ensures AppendAll(file, RunRows(config, net)) == file
  {
    AllDisabled(config);
  }

  /** The filter of a list of disabled hosts is empty. */
  lemma {:induction false} AllDisabled(config: seq<Host>)
    requires forall h :: h in config ==> !IsEnabled(h)
    ensures Enabled(config) == []
    decreases |config|
  {
    if config != [] {
      assert config[0] in config;
      forall h | h in config[1..] ensures !IsEnabled(h) {
        assert h in config;
      }
      AllDisabled(config[1..]);
    }
  }

  /**
   * A host with an ip and no ports: one row, port "-", ONLINE exactly when the
   * ping answered, the latency "-" when it did not, and no port probed.
   */
  lemma NoPortsOneRow(k: nat, h: Host, net: Network)
    requires HasIp(h) && PortsOf(h) == []
    ensures |HostRows(k, h, net)| == 1
    ensures HostRows(k, h, net)[0][1..5] == [Text(NameOf(h)), Text(TypeOf(h)), Text(h.ip.value), Text(NoPort)]
    ensures HostRows(k, h, net)[0][5] == Text(Online) <==> Alive(k, net)
    ensures HostRows(k, h, net)[0][5] == Text(Offline) <==> !Alive(k, net)
    ensures HostRows(k, h, net)[0][6] ==
              Text(if Alive(k, net) then PingHost(net.ping(k)).latency else Unknown)
    ensures HostProbes(k, h, net) == []
  {
  }

  /**
   * A host with an ip and N ports: N rows in declaration order, duplicates
   * kept. A host that is down gets HOST_INDISPONIVEL and latency "-" on every
   * row and no port probed; a host that is up gets ABERTA exactly where the
   * probe connected, FECHADA elsewhere, and every port probed in order.
   */
  lemma PortRows(k: nat, h: Host, net: Network)
    requires HasIp(h) && PortsOf(h) != []
    ensures |HostRows(k, h, net)| == |PortsOf(h)|
    ensures !Alive(k, net) ==> HostProbes(k, h, net) == []
    ensures !Alive(k, net) ==> forall j :: 0 <= j < |PortsOf(h)| ==>
              HostRows(k, h, net)[j] ==
                DataRow(net.clock(k, j), NameOf(h), TypeOf(h), h.ip.value, Int(PortsOf(h)[j]), Unreachable, Unknown)
    ensures Alive(k, net) ==> |HostProbes(k, h, net)| == |PortsOf(h)|
    ensures Alive(k, net) ==> forall j :: 0 <= j < |PortsOf(h)| ==>
              && HostProbes(k, h, net)[j] == Probe(h.ip.value, PortsOf(h)[j])
              && HostRows(k, h, net)[j] ==
                   DataRow(net.clock(k, j), NameOf(h), TypeOf(h), h.ip.value, Int(PortsOf(h)[j]),
                           if net.portOpen(k, j) then Open else Closed, PingHost(net.ping(k)).latency)
  {
  }

  /**
   * The shape of every row a run writes: 7 columns, one of the five statuses,
   * port "-" exactly on ONLINE/OFFLINE rows, and a latency other than "-" only
   * where the host answered its ping.
   */
  predicate IsObservation(r: Row)
  {
    && |r| == 7
    && (r[5] == Text(Online) || r[5] == Text(Offline) || r[5] == Text(Open)
        || r[5] == Text(Closed) || r[5] == Text(Unreachable))
    && (r[4] == Text(NoPort) <==> r[5] == Text(Online) || r[5] == Text(Offline))
    && (r[6] != Text(Unknown) ==> r[5] == Text(Online) || r[5] == Text(Open) || r[5] == Text(Closed))
  }

  /** Every row of `rows` has the observation shape. */
  predicate Observations(rows: seq<Row>)
  {
    forall i :: 0 <= i < |rows| ==> IsObservation(rows[i])
  }

  /** Every row of one port has the observation shape. */
  lemma PortLineIsObservation(k: nat, j: nat, name: string, hostType: string, ip: string, port: int,
                              alive: bool, latency: string, net: Network)
    ensures IsObservation(PortLine(k, j, name, hostType, ip, port, alive, latency, net))
  {
  }

  /** Every row of one host has the observation shape. */
  lemma HostRowsAreObservations(k: nat, h: Host, net: Network)
    ensures Observations(HostRows(k, h, net))
  {
    if HasIp(h) && PortsOf(h) != [] {
      var alive, latency := Alive(k, net), PingHost(net.ping(k)).latency;
      var rows := PortLines(k, NameOf(h), TypeOf(h), h.ip.value, PortsOf(h), alive, latency, net);
      assert HostRows(k, h, net) == rows;
      forall i | 0 <= i < |rows| ensures IsObservation(rows[i]) {
        PortLineIsObservation(k, i, NameOf(h), TypeOf(h), h.ip.value, PortsOf(h)[i], alive, latency, net);
      }
    }
  }

  /** Two batches of rows of the observation shape make one. */
  lemma ObservationsJoin(a: seq<Row>, b: seq<Row>)
    requires Observations(a) && Observations(b)
    ensures Observations(a + b)
  {
    forall i | 0 <= i < |a + b| ensures IsObservation((a + b)[i]) {
      if i < |a| {
        assert (a + b)[i] == a[i];
      } else {
        assert (a + b)[i] == b[i - |a|];
      }
    }
  }

  /** The header does not have the observation shape. */
  lemma NotHeader(rows: seq<Row>)
    requires Observations(rows)
    ensures Header !in rows
  {
    assert !IsObservation(Header);
  }

  /** Every row the first `n` hosts give has the observation shape, so none is a copy of the header. */
  lemma {:induction false} RowsAreObservations(hosts: seq<Host>, net: Network, n: nat)
    requires n <= |hosts|
    ensures Observations(Rows(hosts, net, n))
    ensures Header !in Rows(hosts, net, n)
  {
    if n > 0 {
      RowsAreObservations(hosts, net, n - 1);
      RowsObservationsStep(hosts, net, n);
    }
    NotHeader(Rows(hosts, net, n));
  }

  /** One more host keeps every row of the observation shape. */
  lemma RowsObservationsStep(hosts: seq<Host>, net: Network, n: nat)
    requires 0 < n <= |hosts|
    requires Observations(Rows(hosts, net, n - 1))
    ensures Observations(Rows(hosts, net, n))
  {
    var prev := Rows(hosts, net, n - 1);
    var last := HostRows(n - 1, hosts[n - 1], net);
    HostRowsAreObservations(n - 1, hosts[n - 1], net);
    ObservationsJoin(prev, last);
    assert Rows(hosts, net, n) == prev + last;
  }

  /**
   * A run on a fresh log: when it writes anything, the header is the first line
   * and occurs once; when it writes nothing, no file is created.
   */
  lemma RunOnFreshLog(config: seq<Host>, net: Network)
    ensures RunRows(config, net) == [] ==> AppendAll(None, RunRows(config, net)) == None
    ensures RunRows(config, net) != [] ==>
              && AppendAll(None, RunRows(config, net)).Some?
              && AppendAll(None, RunRows(config, net)).value[0] == Header
              && multiset(AppendAll(None, RunRows(config, net)).value)[Header] == 1
  {
    var rows := RunRows(config, net);
    AppendAllToFresh(rows);
    if rows != [] {
      RowsAreObservations(Enabled(config), net, |Enabled(config)|);
      HeaderOnce(rows);
    }
  }

  /** The `check_port` call a row stands for: one for each ABERTA or FECHADA row. */
  function ProbeOf(r: Row): seq<Probe>
  {
    if |r| == 7 && r[3].Text? && r[4].Int? && (r[5] == Text(Open) || r[5] == Text(Closed)) then
      [Probe(r[3].text, r[4].value)]
    else
      []
  }

  /** The `check_port` calls the rows stand for, in order. */
  function ProbesOfRows(rows: seq<Row>): seq<Probe>
    decreases |rows|
  {
    if rows == [] then [] else ProbesOfRows(rows[..|rows| - 1]) + ProbeOf(rows[|rows| - 1])
  }

  /** The probes of two batches of rows are the probes of the first, then of the second. */
  lemma {:induction false} ProbesOfRowsConcat(a: seq<Row>, b: seq<Row>)
    ensures ProbesOfRows(a + b) == ProbesOfRows(a) + ProbesOfRows(b)
    decreases |b|
  {
    if b == [] {
      assert a + b == a;
    } else {
      var init := b[..|b| - 1];
      assert (a + b)[..|a + b| - 1] == a + init;
      assert (a + b)[|a + b| - 1] == b[|b| - 1];
      ProbesOfRowsConcat(a, init);
    }
  }

  /** `ProbesOfRowsConcat` with the two halves already known. */
  lemma ProbesOfRowsJoin(a: seq<Row>, b: seq<Row>, pa: seq<Probe>, pb: seq<Probe>)
    requires ProbesOfRows(a) == pa && ProbesOfRows(b) == pb
    ensures ProbesOfRows(a + b) == pa + pb
  {
    ProbesOfRowsConcat(a, b);
  }

  /** Rows that each stand for the matching probe stand, together, for all of them in order. */
  lemma {:induction false} ProbesOfRowsPointwise(rows: seq<Row>, probes: seq<Probe>)
    requires |rows| == |probes|
    requires forall i :: 0 <= i < |rows| ==> ProbeOf(rows[i]) == [probes[i]]
    ensures ProbesOfRows(rows) == probes
    decreases |rows|
  {
    if rows != [] {
      var n := |rows| - 1;
      ProbesOfRowsPointwise(rows[..n], probes[..n]);
      assert probes == probes[..n] + [probes[n]];
    }
  }

  /** Rows none of which stands for a probe stand for none. */
  lemma {:induction false} ProbesOfRowsNone(rows: seq<Row>)
    requires forall i :: 0 <= i < |rows| ==> ProbeOf(rows[i]) == []
    ensures ProbesOfRows(rows) == []
    decreases |rows|
  {
    if rows != [] {
      ProbesOfRowsNone(rows[..|rows| - 1]);
    }
  }

  /** The probes of the inner loop are exactly its ABERTA/FECHADA rows, in order. */
  lemma PortLinesProbes(k: nat, name: string, hostType: string, ip: string, ports: seq<int>,
                        alive: bool, latency: string, net: Network)
    ensures ProbesOfRows(PortLines(k, name, hostType, ip, ports, alive, latency, net)) == PortProbes(ip, ports, alive)
  {
    var rows := PortLines(k, name, hostType, ip, ports, alive, latency, net);
    var probes := PortProbes(ip, ports, alive);
    if alive {
      forall i | 0 <= i < |rows| ensures ProbeOf(rows[i]) == [probes[i]] {
      }
      ProbesOfRowsPointwise(rows, probes);
    } else {
      forall i | 0 <= i < |rows| ensures ProbeOf(rows[i]) == [] {
      }
      ProbesOfRowsNone(rows);
    }
  }

  /** A host's probes are exactly the ABERTA/FECHADA rows it writes, in order. */
  lemma HostProbesMatchRows(k: nat, h: Host, net: Network)
    ensures ProbesOfRows(HostRows(k, h, net)) == HostProbes(k, h, net)
  {
    var rows := HostRows(k, h, net);
    if HasIp(h) && PortsOf(h) != [] {
      PortLinesProbes(k, NameOf(h), TypeOf(h), h.ip.value, PortsOf(h), Alive(k, net), PingHost(net.ping(k)).latency, net);
    } else if HasIp(h) {
      assert ProbesOfRows(rows) == ProbesOfRows([]) + ProbeOf(rows[0]);
    }
  }

  /**
   * Over a whole run, a connection was attempted for exactly the rows that
   * report ABERTA or FECHADA, to that row's ip and port, in log order; no
   * HOST_INDISPONIVEL row had one.
   */
  lemma {:induction false} RunProbesMatchRows(hosts: seq<Host>, net: Network, n: nat)
    requires n <= |hosts|
    ensures ProbesOfRows(Rows(hosts, net, n)) == Probes(hosts, net, n)
  {
    if n > 0 {
      var prev, pp := Rows(hosts, net, n - 1), Probes(hosts, net, n - 1);
      var last, hp := HostRows(n - 1, hosts[n - 1], net), HostProbes(n - 1, hosts[n - 1], net);
      assert ProbesOfRows(prev) == pp by {
        RunProbesMatchRows(hosts, net, n - 1);
      }
      assert ProbesOfRows(last) == hp by {
        HostProbesMatchRows(n - 1, hosts[n - 1], net);
      }
      ProbesOfRowsJoin(prev, last, pp, hp);
      assert Rows(hosts, net, n) == prev + last;
      assert Probes(hosts, net, n) == pp + hp;
    }
  }

  /**
   * The host `web1` at 10.0.0.5 with ports 80 and 443, up, with 80 accepting
   * and 443 refusing: an ABERTA row then a FECHADA row, both with the latency;
   * and the same host down: two HOST_INDISPONIVEL rows with latency "-".
   */
  lemma Web1(net: Network, web1: Host)
    requires web1 == Host(Some("web1"), Some("10.0.0.5"), Some([80, 443]), None, Some(Bool(true)))
    requires net.portOpen(0, 0) && !net.portOpen(0, 1)
    ensures Alive(0, net) ==>
              (var lat := PingHost(net.ping(0)).latency;
               RunRows([web1], net) ==
                 [DataRow(net.clock(0, 0), "web1", "unknown", "10.0.0.5", Int(80), Open, lat),
                  DataRow(net.clock(0, 1), "web1", "unknown", "10.0.0.5", Int(443), Closed, lat)])
    ensures !Alive(0, net) ==>
              RunRows([web1], net) ==
                [DataRow(net.clock(0, 0), "web1", "unknown", "10.0.0.5", Int(80), Unreachable, Unknown),
                 DataRow(net.clock(0, 1), "web1", "unknown", "10.0.0.5", Int(443), Unreachable, Unknown)]
  {
    var alive, latency := Alive(0, net), PingHost(net.ping(0)).latency;
    var rows := PortLines(0, "web1", "unknown", "10.0.0.5", [80, 443], alive, latency, net);
    EnabledSingle(web1);
    assert Rows([web1], net, 1) == HostRows(0, web1, net);
    assert HostRows(0, web1, net) == rows;
    assert rows == [rows[0], rows[1]];
  }
}
