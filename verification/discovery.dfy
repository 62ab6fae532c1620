/** Discovery of the GPS receiver: sweep the serial ports COM1 to COM100 in
    ascending order, skip every port whose opening or first read raises
    SerialException, stop at the first port whose first stripped line
    starts with `$GPRMC`, and sweep the whole range again, excluding
    nothing, when a sweep finds none. The initial connection and every
    reconnection run this same sweep. */
module Discovery {
  import opened Text
  import opened Options

  const FirstPort := 1
  const LastPort := 100
  const DiscoveryTalker := "$GPRMC"

  /** What probing one port gives: `Unavailable` when opening it or reading
      its first line raised SerialException, otherwise the first line as
      read (empty when nothing arrived within the read timeout). */
  datatype Probe = Unavailable | Replied(line: string)

  /** The ports as one sweep finds them: `ports(n)` is what probing
      `COM<n>` gives during that sweep. */
  type Ports = nat -> Probe

  /** The probed port proves to be a GPS receiver. */
  predicate IsGps(p: Probe)
  {
    p.Replied? && StartsWith(Strip(p.line), DiscoveryTalker)
  }

  /** The first GPS port at or after `from`, if any. */
  function FirstGps(ports: Ports, from: nat): (r: Option<nat>)
    requires FirstPort <= from <= LastPort + 1
    ensures r.Some? ==> from <= r.value <= LastPort
    decreases LastPort + 1 - from
  {
    if from > LastPort then None
    else if IsGps(ports(from)) then Some(from)
    else FirstGps(ports, from + 1)
  }

  /** The port `FirstGps` finds is a GPS port and no port before it from
      `from` on is one; when it finds none, no port from `from` to COM100
      is one. */
  lemma {:induction false} FirstGpsSpec(ports: Ports, from: nat)
    requires FirstPort <= from <= LastPort + 1
    ensures var r := FirstGps(ports, from);
      && (r.Some? ==> IsGps(ports(r.value)) && forall q :: from <= q < r.value ==> !IsGps(ports(q)))
      && (r.None? ==> forall q :: from <= q <= LastPort ==> !IsGps(ports(q)))
    decreases LastPort + 1 - from
  {
    if from <= LastPort && !IsGps(ports(from)) {
      FirstGpsSpec(ports, from + 1);
    }
  }

  /** The port numbers `lo` to `hi - 1`, ascending. */
  function Range(lo: nat, hi: nat): (s: seq<nat>)
    requires lo <= hi
    ensures |s| == hi - lo
  {
    seq(hi - lo, i => lo + i)
  }

  /** Probing one more port extends the probe order by that port. */
  lemma RangeStep(lo: nat, hi: nat)
    requires lo <= hi
    ensures Range(lo, hi + 1) == Range(lo, hi) + [hi]
  {
    assert forall i :: 0 <= i < hi - lo ==> Range(lo, hi + 1)[i] == Range(lo, hi)[i];
  }

  /** `k` complete sweeps, one after the other. */
  function FullSweeps(k: nat): seq<nat>
  {
    if k == 0 then [] else FullSweeps(k - 1) + Range(FirstPort, LastPort + 1)
  }

  /** One sweep over the ports (the `for` loop). `probed` lists the ports
      probed, in order: every port from COM1 up to the one found, or all
      hundred when none is found; the port found is the first GPS port. */
  method Sweep(ports: Ports) returns (found: Option<nat>, probed: seq<nat>)
    ensures found == FirstGps(ports, FirstPort)
    ensures probed == Range(FirstPort, if found.Some? then found.value + 1 else LastPort + 1)
  {
    probed := [];
    for n := FirstPort to LastPort + 1
      invariant probed == Range(FirstPort, n)
      invariant FirstGps(ports, FirstPort) == FirstGps(ports, n)
    {
      RangeStep(FirstPort, n);
      probed := probed + [n];
      if IsGps(ports(n)) {
        found := Some(n);
        return;
      }
    }
    found := None;
  }

  /** Where discovery connects: the first sweep (counting from 0) that
      finds a GPS port, and that port. */
  datatype Connection = Connection(sweep: nat, port: nat)

  /** A connection found in the sweeps after the first `n`, counted from
      the start. */
  function Shift(r: Option<Connection>, n: nat): Option<Connection>
  {
    match r
    case None => None
    case Some(c) => Some(Connection(c.sweep + n, c.port))
  }

  /** Discovery over a succession of sweeps: the first sweep that finds a
      GPS port connects to the first such port; `None` means every sweep
      came up empty, so the program is still sweeping. */
  function Discover(sweeps: seq<Ports>): (r: Option<Connection>)
    ensures r.Some? ==> r.value.sweep < |sweeps| && FirstGps(sweeps[r.value.sweep], FirstPort) == Some(r.value.port)
  {
    if sweeps == [] then None
    else match FirstGps(sweeps[0], FirstPort)
      case Some(p) => Some(Connection(0, p))
      case None => Shift(Discover(sweeps[1..]), 1)
  }

  /** Discovery connects only after every earlier sweep came up empty. */
  lemma {:induction false} DiscoverEarlier(sweeps: seq<Ports>)
    ensures var r := Discover(sweeps);
      r.Some? ==> forall j :: 0 <= j < r.value.sweep ==> FirstGps(sweeps[j], FirstPort).None?
  {
    if sweeps != [] && FirstGps(sweeps[0], FirstPort).None? {
      DiscoverEarlier(sweeps[1..]);
      assert forall j :: 1 <= j < |sweeps| ==> sweeps[j] == sweeps[1..][j - 1];
    }
  }

  /** Discovery connects at the first sweep that finds a GPS port, to the
      first GPS port of that sweep. */
  lemma {:induction false} DiscoverFirst(sweeps: seq<Ports>, i: nat)
    requires i < |sweeps| && FirstGps(sweeps[i], FirstPort).Some?
    requires forall j :: 0 <= j < i ==> FirstGps(sweeps[j], FirstPort).None?
    ensures Discover(sweeps) == Some(Connection(i, FirstGps(sweeps[i], FirstPort).value))
  {
    if i > 0 {
      assert FirstGps(sweeps[0], FirstPort).None?;
      DiscoverFirst(sweeps[1..], i - 1);
    }
  }

  /** Discovery keeps sweeping exactly when every sweep came up empty. */
  lemma {:induction false} DiscoverNone(sweeps: seq<Ports>)
    ensures Discover(sweeps).None? <==> forall j :: 0 <= j < |sweeps| ==> FirstGps(sweeps[j], FirstPort).None?
  {
    if sweeps != [] && FirstGps(sweeps[0], FirstPort).None? {
      DiscoverNone(sweeps[1..]);
      assert forall j :: 1 <= j < |sweeps| ==> sweeps[j] == sweeps[1..][j - 1];
    }
  }

  /** The discovery loop (`while not connection_found`): sweeps until one
      finds a GPS port. Every empty sweep probes the whole range again, so
      the probe order is a number of complete sweeps followed by COM1 up to
      the port connected to. */
  method Connect(sweeps: seq<Ports>) returns (connection: Option<Connection>, probed: seq<nat>)
    ensures connection == Discover(sweeps)
    ensures connection.Some? ==> probed == FullSweeps(connection.value.sweep) + Range(FirstPort, connection.value.port + 1)
    ensures connection.None? ==> probed == FullSweeps(|sweeps|)
  {
    probed := [];
    var i := 0;
    while i < |sweeps|
      invariant i <= |sweeps|
      invariant probed == FullSweeps(i)
      invariant Discover(sweeps) == Shift(Discover(sweeps[i..]), i)
    {
      var found, order := Sweep(sweeps[i]);
      probed := probed + order;
      if found.Some? {
        SweepFound(sweeps, i);
        connection := Some(Connection(i, found.value));
        return;
      }
      SweepEmpty(sweeps, i);
      FullSweepsStep(i, order);
      i := i + 1;
    }
    assert sweeps[i..] == [];
    connection := None;
  }

  /** A sweep that finds a GPS port ends discovery there. */
  lemma SweepFound(sweeps: seq<Ports>, i: nat)
    requires i < |sweeps| && FirstGps(sweeps[i], FirstPort).Some?
    ensures Shift(Discover(sweeps[i..]), i) == Some(Connection(i, FirstGps(sweeps[i], FirstPort).value))
  {
    assert sweeps[i..][0] == sweeps[i];
  }

  /** A sweep that finds none hands discovery on to the next sweep. */
  lemma SweepEmpty(sweeps: seq<Ports>, i: nat)
    requires i < |sweeps| && FirstGps(sweeps[i], FirstPort).None?
    ensures Shift(Discover(sweeps[i..]), i) == Shift(Discover(sweeps[i + 1..]), i + 1)
  {
    assert sweeps[i..][0] == sweeps[i];
    assert sweeps[i..][1..] == sweeps[i + 1..];
  }

  lemma FullSweepsStep(k: nat, order: seq<nat>)
    requires order == Range(FirstPort, LastPort + 1)
    ensures FullSweeps(k + 1) == FullSweeps(k) + order
  {
  }
}
