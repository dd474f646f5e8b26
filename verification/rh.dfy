/** The xHCI root hub: port speeds, reacting to a device being connected
    or disconnected, remembering the first device on each port, and the
    scan of the port status and control registers (PORTSC) for changes. */
module RootHub {
  import opened Errors
  import opened Usb

  // ---------------------------------------------------------------------
  // Port speeds

  /** `port_speed_to_usb_speed`: the protocol speed's major revision picks
      the speed; for USB 1 a non-zero minor revision means full speed. The
      major revision must be one of 1, 2, 3. */
  function PortSpeedToUsbSpeed(major: nat, minor: nat): (s: Speed)
    requires 0 < major <= 3
    ensures s != SpeedMax
  {
    match major
    case 3 => Super
    case 2 => High
    case _ => if minor != 0 then Full else Low
  }

  /** The USB major revision a speed belongs to. */
  function MajorOf(s: Speed): nat
  {
    match s
    case Low => 1
    case Full => 1
    case High => 2
    case Super => 3
    case SpeedMax => 0
  }

  /** The speed keeps the port's major revision, and a USB 1 port is full
      speed exactly when its minor revision is non-zero. */
  lemma PortSpeedKeepsMajor(major: nat, minor: nat)
    requires 0 < major <= 3
    ensures MajorOf(PortSpeedToUsbSpeed(major, minor)) == major
    ensures IsUsb11(PortSpeedToUsbSpeed(major, minor)) <==> major == 1
    ensures major == 1 ==> (PortSpeedToUsbSpeed(major, minor) == Full <==> minor != 0)
  {
  }

  // ---------------------------------------------------------------------
  // The per-port device table

  /** `devices[p - 1]` is the device recorded for port `p`; `attached` is
      the root hub's list of child devices in attachment order. */
  datatype RootHubState = RootHubState(devices: seq<Option<nat>>, attached: seq<nat>)

  predicate ValidPort(rh: RootHubState, port: nat)
  {
    1 <= port <= |rh.devices|
  }

  /** The table write at the end of `rh_setup_device`: the device joins the
      child list, and is recorded for its port only if no device is recorded
      there yet. */
  function RecordDevice(rh: RootHubState, port: nat, device: nat): (rh': RootHubState)
    requires ValidPort(rh, port)
    ensures |rh'.devices| == |rh.devices|
    ensures rh'.attached == rh.attached + [device]
    ensures forall i :: 0 <= i < |rh.devices| && i != port - 1 ==> rh'.devices[i] == rh.devices[i]
  {
    var d := if rh.devices[port - 1].None? then rh.devices[port - 1 := Some(device)] else rh.devices;
    RootHubState(d, rh.attached + [device])
  }

  /** The first device on a port wins: recording a second one leaves the
      port's entry as the first made it. */
  lemma FirstDeviceWins(rh: RootHubState, port: nat, first: nat, second: nat)
    requires ValidPort(rh, port) && rh.devices[port - 1].None?
    ensures RecordDevice(rh, port, first).devices[port - 1] == Some(first)
    ensures RecordDevice(RecordDevice(rh, port, first), port, second).devices[port - 1] == Some(first)
  {
  }

  /** A port with a device already recorded keeps it. */
  lemma RecordedDeviceKept(rh: RootHubState, port: nat, device: nat)
    requires ValidPort(rh, port) && rh.devices[port - 1].Some?
    ensures RecordDevice(rh, port, device).devices == rh.devices
  {
  }

  datatype SetupOutcome = SetupOutcome(status: Errno, rh: RootHubState)

  /** `rh_setup_device`: create the device (`created` is false when that
      allocation fails), enumerate it, bind its function, record it. Each
      failure is returned and leaves the root hub's table as it was. */
  function SetupDevice(rh: RootHubState, port: nat, device: nat, created: bool,
                       enumerateResult: Errno, bindResult: Errno): (o: SetupOutcome)
    requires ValidPort(rh, port)
    ensures !created ==> o == SetupOutcome(ENOMEM, rh)
    ensures created && enumerateResult != EOK ==> o == SetupOutcome(enumerateResult, rh)
    ensures created && enumerateResult == EOK && bindResult != EOK ==> o == SetupOutcome(bindResult, rh)
    ensures o.status == EOK <==> created && enumerateResult == EOK && bindResult == EOK
    ensures o.status == EOK ==> o.rh == RecordDevice(rh, port, device)
  {
    if !created then SetupOutcome(ENOMEM, rh)
    else if enumerateResult != EOK then SetupOutcome(enumerateResult, rh)
    else if bindResult != EOK then SetupOutcome(bindResult, rh)
    else SetupOutcome(EOK, RecordDevice(rh, port, device))
  }

  /** The child list without `device`. */
  function Without(s: seq<nat>, device: nat): (r: seq<nat>)
    ensures forall x :: x in r <==> x in s && x != device
    ensures |r| <= |s|
  {
    if |s| == 0 then []
    else if s[0] == device then Without(s[1..], device)
    else [s[0]] + Without(s[1..], device)
  }

  datatype DisconnectOutcome = DisconnectOutcome(status: Errno, rh: RootHubState, offline: Option<nat>)

  /** `handle_disconnected_device`: with no device recorded for the port the
      call is extraneous and changes nothing; otherwise the recorded device
      is taken offline, leaves the child list and the port's entry is
      cleared. Teardown errors are only reported, so the result is EOK. */
  function HandleDisconnected(rh: RootHubState, port: nat): (o: DisconnectOutcome)
    requires ValidPort(rh, port)
    ensures o.status == EOK
    ensures rh.devices[port - 1].None? ==> o.rh == rh && o.offline.None?
    ensures rh.devices[port - 1].Some? ==>
              && o.offline == rh.devices[port - 1]
              && o.rh.devices == rh.devices[port - 1 := None]
              && (forall x :: x in o.rh.attached <==> x in rh.attached && x != rh.devices[port - 1].value)
  {
    match rh.devices[port - 1]
    case None => DisconnectOutcome(EOK, rh, None)
    case Some(dev) =>
      DisconnectOutcome(EOK, RootHubState(rh.devices[port - 1 := None], Without(rh.attached, dev)), Some(dev))
  }

  /** Connecting a device to an empty port and disconnecting it again
      restores the table and, if the device was not listed before, the
      child list. */
  lemma ConnectDisconnectRoundTrip(rh: RootHubState, port: nat, device: nat)
    requires ValidPort(rh, port) && rh.devices[port - 1].None? && device !in rh.attached
    ensures var o := HandleDisconnected(RecordDevice(rh, port, device), port);
            o.rh == rh && o.offline == Some(device)
  {
    WithoutAppended(rh.attached, device);
  }

  lemma {:induction false} WithoutAppended(s: seq<nat>, device: nat)
    requires device !in s
    ensures Without(s + [device], device) == s
    decreases |s|
  {
    if |s| > 0 {
      assert (s + [device])[1..] == s[1..] + [device];
      WithoutAppended(s[1..], device);
    }
  }

  // ---------------------------------------------------------------------
  // Connection

  /** What `handle_connected_device` goes on to do with the port. */
  datatype ConnectAction = SetUp | ResetPort | NoAction

  datatype ConnectOutcome = ConnectOutcome(status: Errno, action: ConnectAction)

  /** Port link state values (xHCI PORTSC.PLS): U0 ("enabled"), RxDetect
      (5, which the driver reports as a USB 3 port that failed to enable)
      and Inactive (6, which falls into the driver's catch-all EINVAL). */
  const LinkStateU0: nat := 0
  const LinkStateRxDetect: nat := 5
  const LinkStateInactive: nat := 6

  /** `handle_connected_device`: a USB 3 port has already been enabled by
      the controller when its link is in U0 and the device is set up then;
      a link in RxDetect is EAGAIN, any other state (Inactive included)
      EINVAL. A USB 2 port is
      reset first and the call succeeds. */
  function HandleConnected(major: nat, linkState: nat, setupResult: Errno): (o: ConnectOutcome)
    ensures o.action == SetUp <==> major == 3 && linkState == LinkStateU0
    ensures o.action == ResetPort <==> major != 3
    ensures o.action == SetUp ==> o.status == setupResult
    ensures o.action == ResetPort ==> o.status == EOK
    ensures o.action == NoAction ==> o.status == (if linkState == LinkStateRxDetect then EAGAIN else EINVAL)
  {
    if major == 3 then
      if linkState == LinkStateU0 then ConnectOutcome(setupResult, SetUp)
      else if linkState == LinkStateRxDetect then ConnectOutcome(EAGAIN, NoAction)
      else ConnectOutcome(EINVAL, NoAction)
    else ConnectOutcome(EOK, ResetPort)
  }

  // ---------------------------------------------------------------------
  // The port change scan

  /** A 32-bit register value as the set of positions of its 1 bits:
      `x & y` is `x * y`, `x & ~(1 << b)` is `x - {b}`. */
  type Bits = set<nat>

  /** PORTSC bit positions (section 5.4.8 of the xHCI specification). */
  const Ccs: nat := 0       // current connect status
  const Csc: nat := 17      // connect status change
  const Pec: nat := 18      // port enabled/disabled change
  const Wrc: nat := 19      // warm port reset change
  const Occ: nat := 20      // over-current change
  const Prc: nat := 21      // port reset change
  const Plc: nat := 22      // port link state change
  const Cec: nat := 23      // port config error change

  /** `port_change_mask`: the change bits that imply a port change. */
  const PortChangeMask: Bits := {Csc, Pec, Wrc, Occ, Prc, Plc, Cec}

  /** What the scan of one port dispatches. */
  datatype PortEvent = Connected | Disconnected | ResetDone

  /** One port of `xhci_rh_handle_port_change`: what is written back to
      PORTSC, the handlers called in order, and the change bits left over
      for the "ignored" warning. */
  datatype PortScan = PortScan(writeBack: Bits, events: seq<PortEvent>, ignored: Bits)

  /** One iteration of `xhci_rh_handle_port_change`. The register value
      read is written back unchanged, which clears every change bit set in
      it. The change bits are then handled one by one: a connect status
      change calls the connect or disconnect handler by the connect status
      bit of the register read again afterwards (`portscNow`); a completed reset on a port that is
      not USB 3 sets the device up; the other changes are only logged. */
  function ScanPort(portsc: Bits, portscNow: Bits, major: nat): (o: PortScan)
    ensures o.writeBack == portsc
    ensures o.ignored == {}
    ensures Connected in o.events <==> Csc in portsc && Ccs in portscNow
    ensures Disconnected in o.events <==> Csc in portsc && Ccs !in portscNow
    ensures ResetDone in o.events <==> Prc in portsc && major != 3
    ensures |o.events| <= 2
    ensures |o.events| == 2 ==> o.events[1] == ResetDone
  {
    var e0 := portsc * PortChangeMask;
    var csc := [if Ccs in portscNow then Connected else Disconnected];
    var (e1, a1) := if Csc in e0 then (e0 - {Csc}, csc) else (e0, []);
    var e2 := if Pec in e1 then e1 - {Pec} else e1;
    var e3 := if Wrc in e2 then e2 - {Wrc} else e2;
    var e4 := if Occ in e3 then e3 - {Occ} else e3;
    var (e5, a5) := if Prc in e4 then (e4 - {Prc}, if major != 3 then [ResetDone] else []) else (e4, []);
    var e6 := if Plc in e5 then e5 - {Plc} else e5;
    var e7 := if Cec in e6 then e6 - {Cec} else e6;
    PortScan(portsc, a1 + a5, e7)
  }

  /** The USB 2 connection sequence: a new device on a USB 2 port makes the
      driver reset the port, and the reset-change the controller reports
      afterwards is what sets the device up. A USB 3 port is never set up
      from a reset change. */
  lemma Usb2SetupAfterReset(major: nat, linkState: nat, setupResult: Errno, portsc: Bits, portscNow: Bits)
    requires Prc in portsc && Csc !in portsc
    ensures major != 3 ==> HandleConnected(major, linkState, setupResult).action == ResetPort &&
                           ScanPort(portsc, portscNow, major).events == [ResetDone]
    ensures major == 3 ==> ScanPort(portsc, portscNow, major).events == []
  {
  }

  /** `xhci_rh_handle_port_change`: every port, 1 to max_ports, is scanned
      in turn. The port status change event calls it whichever port it
      names, since one event may stand for several changes. The counter
      here cannot wrap, so every port is scanned exactly once for any port
      count; the 8-bit counter of the driver is `PortsVisitedAsWritten`. */
  method HandlePortChange(ports: seq<Bits>, portsNow: seq<Bits>, majors: seq<nat>) returns (scans: seq<PortScan>)
    requires |portsNow| == |ports| && |majors| == |ports|
    ensures |scans| == |ports|
    ensures forall i :: 0 <= i < |ports| ==> scans[i].writeBack == ports[i] && scans[i].ignored == {}
    ensures forall i :: 0 <= i < |ports| ==>
              (ResetDone in scans[i].events <==> Prc in ports[i] && majors[i] != 3)
    ensures forall i :: 0 <= i < |ports| ==>
              (Connected in scans[i].events <==> Csc in ports[i] && Ccs in portsNow[i])
    ensures forall i :: 0 <= i < |ports| ==>
              (Disconnected in scans[i].events <==> Csc in ports[i] && Ccs !in portsNow[i])
  {
    scans := [];
    var i := 0;
    while i < |ports|
      invariant 0 <= i <= |ports| && |scans| == i
      invariant forall j :: 0 <= j < i ==> scans[j] == ScanPort(ports[j], portsNow[j], majors[j])
    {
      scans := scans + [ScanPort(ports[i], portsNow[i], majors[i])];
      i := i + 1;
    }
  }

  // ---------------------------------------------------------------------
  // The port counter as written

  /** `++i` on the driver's `uint8_t` port counter: 255 wraps to 0. */
  function CounterStep(i: nat): (j: nat)
    requires i < 256
    ensures j < 256
    ensures j == 0 <==> i == 255
    ensures i < 255 ==> j == i + 1
  {
    (i + 1) % 256
  }

  /** The port ids `xhci_rh_handle_port_change` hands to the scan in its
      first `fuel` passes, counting from `i` with an 8-bit counter while
      `i <= maxPorts`; `maxPorts` is the 8-bit MaxPorts field. */
  function PortsVisitedAsWritten(maxPorts: nat, i: nat, fuel: nat): (ids: seq<nat>)
    requires maxPorts < 256 && i < 256
    ensures |ids| <= fuel
    ensures forall k :: 0 <= k < |ids| ==> ids[k] <= maxPorts
    decreases fuel
  {
    if fuel == 0 || i > maxPorts then []
    else [i] + PortsVisitedAsWritten(maxPorts, CounterStep(i), fuel - 1)
  }

  /** With 255 ports the counter never exceeds max_ports, so every pass
      goes on: the k-th pass scans port (i + k) mod 256. */
  lemma {:induction false} AsWrittenFullCountWraps(i: nat, fuel: nat)
    requires i < 256
    ensures |PortsVisitedAsWritten(255, i, fuel)| == fuel
    ensures forall k :: 0 <= k < fuel ==> PortsVisitedAsWritten(255, i, fuel)[k] == (i + k) % 256
    decreases fuel
  {
    if fuel > 0 {
      var j := CounterStep(i);
      AsWrittenFullCountWraps(j, fuel - 1);
      var rest := PortsVisitedAsWritten(255, j, fuel - 1);
      assert PortsVisitedAsWritten(255, i, fuel) == [i] + rest;
      forall k | 0 < k < fuel
        ensures PortsVisitedAsWritten(255, i, fuel)[k] == (i + k) % 256
      {
        assert rest[k - 1] == (j + (k - 1)) % 256;
      }
    }
  }

  /** The discrepancy: a controller reporting 255 ports keeps the loop
      running for any number of passes, and the pass after port 255 scans
      port 0, whose register set the driver addresses as `portrs[-1]`. */
  lemma AsWrittenLoopNeverEnds(fuel: nat)
    ensures |PortsVisitedAsWritten(255, 1, fuel)| == fuel
    ensures fuel > 255 ==> PortsVisitedAsWritten(255, 1, fuel)[255] == 0
  {
    AsWrittenFullCountWraps(1, fuel);
  }

  /** Below 255 ports the 8-bit counter is harmless: ports `i` to
      max_ports are scanned once each, in order, and the loop ends. */
  lemma {:induction false} AsWrittenVisitsFrom(maxPorts: nat, i: nat, fuel: nat)
    requires maxPorts < 255 && 1 <= i <= maxPorts + 1 && fuel >= maxPorts + 1 - i
    ensures PortsVisitedAsWritten(maxPorts, i, fuel) == seq(maxPorts + 1 - i, k => i + k)
    decreases maxPorts + 1 - i
  {
    if i <= maxPorts {
      AsWrittenVisitsFrom(maxPorts, i + 1, fuel - 1);
      var rest := PortsVisitedAsWritten(maxPorts, i + 1, fuel - 1);
      assert PortsVisitedAsWritten(maxPorts, i, fuel) == [i] + rest;
    }
  }

  /** For fewer than 255 ports the driver's loop scans ports 1 to
      max_ports exactly once, as `HandlePortChange` does for any count. */
  lemma AsWrittenLoopBelowFullCount(maxPorts: nat, fuel: nat)
    requires maxPorts < 255 && fuel >= maxPorts
    ensures PortsVisitedAsWritten(maxPorts, 1, fuel) == seq(maxPorts, k => k + 1)
  {
    AsWrittenVisitsFrom(maxPorts, 1, fuel);
  }
}
