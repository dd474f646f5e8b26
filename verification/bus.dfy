/** The xHCI bus: where a new device sits in the topology (transaction
    translator, tier, route string), the single default address, the
    slot-indexed device table, and the endpoint fields taken from a
    descriptor. */
module Bus {
  import opened Errors
  import opened Usb

  // ---------------------------------------------------------------------
  // Topology: TT and route string

  /** The transaction translator a low- or full-speed device talks through:
      the high-speed hub's address and the port on it. */
  datatype Tt = Tt(address: nat, port: nat)

  /** What enumeration reads of the parent hub. The route string is the
      32-bit `route_str`, kept here as its numeric value. */
  datatype Hub = Hub(speed: Speed, address: nat, tt: Tt, tier: nat, routeString: nat, rhPort: nat)

  /** What enumeration writes into the new device. */
  datatype Placement = Placement(tt: Tt, tier: nat, routeString: nat, rhPort: nat)

  /** 2^k, the place value of bit k. */
  function Pow2(k: nat): (p: nat)
    ensures p >= 1
  {
    if k == 0 then 1 else 2 * Pow2(k - 1)
  }

  /** Place values multiply: shifting by a then by b is shifting by a + b. */
  lemma {:induction false} Pow2Add(a: nat, b: nat)
    ensures Pow2(a + b) == Pow2(a) * Pow2(b)
    decreases b
  {
    if b > 0 {
      Pow2Add(a, b - 1);
      calc {
        Pow2(a + b);
        2 * Pow2(a + b - 1);
        2 * (Pow2(a) * Pow2(b - 1));
        Pow2(a) * (2 * Pow2(b - 1));
      }
    }
  }

  /** Place value of nibble `i` of a route string. */
  function Pow16(i: nat): nat
  {
    Pow2(4 * i)
  }

  /** Bitwise OR of two unsigned values, bit by bit from the least
      significant end. */
  function BitOr(a: nat, b: nat): nat
    decreases a + b
  {
    if a == 0 then b
    else if b == 0 then a
    else 2 * BitOr(a / 2, b / 2) + (if a % 2 == 1 || b % 2 == 1 then 1 else 0)
  }

  /** ORing in a value shifted above all bits of `a` adds it. */
  lemma {:induction false} BitOrDisjoint(a: nat, b: nat, k: nat)
    requires a < Pow2(k)
    ensures BitOr(a, b * Pow2(k)) == a + b * Pow2(k)
    decreases k
  {
    if k == 0 || a == 0 || b == 0 {
    } else {
      var x := b * Pow2(k);
      assert x == 2 * (b * Pow2(k - 1));
      assert x / 2 == b * Pow2(k - 1) && x % 2 == 0;
      BitOrDisjoint(a / 2, b, k - 1);
    }
  }

  /** The reference encoding of a route string (section 8.9 of the USB 3
      specification): the downstream port used at tier `i + 2` sits in
      nibble `i`. */
  function RouteOf(path: seq<nat>): nat
  {
    if |path| == 0 then 0 else RouteOf(path[..|path| - 1]) + path[|path| - 1] * Pow16(|path| - 1)
  }

  lemma {:induction false} RouteOfBound(path: seq<nat>)
    requires forall i :: 0 <= i < |path| ==> path[i] < 16
    ensures RouteOf(path) < Pow16(|path|)
    decreases |path|
  {
    if |path| > 0 {
      var n := |path| - 1;
      assert forall i :: 0 <= i < n ==> path[..n][i] == path[i];
      RouteOfBound(path[..n]);
      Pow16Succ(n);
      NibbleTimesPlace(path[n], Pow16(n));
    }
  }

  lemma Pow16Succ(n: nat)
    ensures Pow16(n + 1) == 16 * Pow16(n)
  {
    Pow2Add(4 * n, 4);
    assert Pow2(4) == 16;
  }

  lemma NibbleTimesPlace(d: nat, p: nat)
    requires d < 16
    ensures d * p <= 15 * p
  {
  }

  /** The topology part of `xhci_bus_enumerate_device`. A low- or
      full-speed device below a high-speed hub gets that hub as its TT,
      any other device inherits the hub's TT. The device is one tier below
      its hub; from tier 2 on its port number (low four bits) is ORed into
      the route string at nibble tier - 2 and the root-hub port is
      inherited; a device on the root hub keeps `rhPort` as it was. */
  function EnumeratePlacement(hub: Hub, port: nat, speed: Speed, rhPort: nat): (p: Placement)
    ensures p.tier == hub.tier + 1
    ensures p.tt == (if hub.speed == High && IsUsb11(speed) then Tt(hub.address, port) else hub.tt)
    ensures p.rhPort == (if p.tier >= 2 then hub.rhPort else rhPort)
  {
    var tier := hub.tier + 1;
    var tt := if hub.speed == High && IsUsb11(speed) then Tt(hub.address, port) else hub.tt;
    if tier >= 2 then
      Placement(tt, tier, BitOr(hub.routeString, (port % 16) * Pow16(tier - 2)), hub.rhPort)
    else
      Placement(tt, tier, hub.routeString, rhPort)
  }

  /** The route string grows by one hop: when the hub's route string
      encodes the ports on the path to the hub, the device's encodes that
      path followed by its own port. */
  lemma RouteStringExtends(hub: Hub, path: seq<nat>, port: nat, speed: Speed, rhPort: nat)
    requires hub.tier >= 1 && |path| == hub.tier - 1
    requires forall i :: 0 <= i < |path| ==> path[i] < 16
    requires hub.routeString == RouteOf(path)
    ensures EnumeratePlacement(hub, port, speed, rhPort).routeString == RouteOf(path + [port % 16])
  {
    RouteOfBound(path);
    BitOrDisjoint(hub.routeString, port % 16, 4 * |path|);
    assert (path + [port % 16])[..|path|] == path;
  }

  /** A device on a root-hub port has an empty route string whatever port
      it is on, when the root hub's own is empty. */
  lemma RootPortNotInRoute(hub: Hub, port: nat, speed: Speed, rhPort: nat)
    requires hub.tier == 0 && hub.routeString == 0
    ensures EnumeratePlacement(hub, port, speed, rhPort).routeString == RouteOf([])
    ensures EnumeratePlacement(hub, port, speed, rhPort).tier == 1
  {
  }

  // ---------------------------------------------------------------------
  // The default address and the slot table

  /** `devicesBySlot[s]` is the device (by id) holding slot `s`;
      `defaultAddressSpeed` is `SpeedMax` while the default address is
      free, and otherwise the speed of the device that reserved it. */
  datatype BusState = BusState(devicesBySlot: seq<Option<nat>>, defaultAddressSpeed: Speed)

  datatype BusStep = BusStep(status: Errno, bus: BusState)

  /** `request_address`: software may only ask for the default address,
      which it reserves for one device at a time. A non-strict request for
      it is a caller error. */
  function RequestAddress(b: BusState, address: int, strict: bool, speed: Speed): (s: BusStep)
    requires address == AddressDefault ==> strict
    ensures address != AddressDefault ==> s == BusStep(ENOTSUP, b)
    ensures address == AddressDefault && b.defaultAddressSpeed != SpeedMax ==> s == BusStep(ENOENT, b)
    ensures address == AddressDefault && b.defaultAddressSpeed == SpeedMax ==>
              s.status == EOK && s.bus == b.(defaultAddressSpeed := speed)
  {
    if address != AddressDefault then BusStep(ENOTSUP, b)
    else if b.defaultAddressSpeed != SpeedMax then BusStep(ENOENT, b)
    else BusStep(EOK, b.(defaultAddressSpeed := speed))
  }

  /** `release_address`: frees the default address; other addresses are
      not software's to release. */
  function ReleaseAddress(b: BusState, address: int): (s: BusStep)
    ensures address != AddressDefault ==> s == BusStep(ENOTSUP, b)
    ensures address == AddressDefault ==> s == BusStep(EOK, b.(defaultAddressSpeed := SpeedMax))
  {
    if address != AddressDefault then BusStep(ENOTSUP, b)
    else BusStep(EOK, b.(defaultAddressSpeed := SpeedMax))
  }

  predicate DefaultAddressFree(b: BusState)
  {
    b.defaultAddressSpeed == SpeedMax
  }

  /** The default address is exclusive: once reserved (with a real speed),
      a second request fails until it is released, after which a request
      succeeds again. */
  lemma DefaultAddressExclusive(b: BusState, s1: Speed, s2: Speed, s3: Speed)
    requires DefaultAddressFree(b) && s1 != SpeedMax
    ensures var r1 := RequestAddress(b, AddressDefault, true, s1);
            && r1.status == EOK && !DefaultAddressFree(r1.bus)
            && RequestAddress(r1.bus, AddressDefault, true, s2).status == ENOENT
            && var r2 := ReleaseAddress(r1.bus, AddressDefault);
               && DefaultAddressFree(r2.bus)
               && RequestAddress(r2.bus, AddressDefault, true, s3).status == EOK
  {
  }

  /** Reserving and then releasing the default address leaves the bus as
      it was. */
  lemma ReserveReleaseRoundTrip(b: BusState, speed: Speed)
    requires DefaultAddressFree(b)
    ensures ReleaseAddress(RequestAddress(b, AddressDefault, true, speed).bus, AddressDefault).bus == b
  {
  }

  /** `xhci_bus_init` as written: the slot table has `maxSlots` entries,
      all empty, and the default address starts free. */
  function BusInitAsWritten(maxSlots: nat, tableAllocated: bool): (res: Result<BusState>)
    ensures !tableAllocated <==> res == Err(ENOMEM)
    ensures res.Ok? ==> |res.value.devicesBySlot| == maxSlots && DefaultAddressFree(res.value)
  {
    if !tableAllocated then Err(ENOMEM)
    else Ok(BusState(seq(maxSlots, _ => None), SpeedMax))
  }

  /** Device slots are numbered 1..MaxSlots by the controller, and the
      table is indexed by slot id directly: with `maxSlots` entries the
      highest slot id falls off the end. */
  lemma AsWrittenTableMissesLastSlot(maxSlots: nat)
    requires maxSlots >= 1
    ensures BusInitAsWritten(maxSlots, true).Ok?
    ensures !ValidSlotIndex(BusInitAsWritten(maxSlots, true).value, maxSlots)
  {
  }

  predicate ValidSlotIndex(b: BusState, slot: nat)
  {
    slot < |b.devicesBySlot|
  }

  /** `xhci_bus_init` with the table sized for slot ids 1..maxSlots. */
  function BusInit(maxSlots: nat, tableAllocated: bool): (res: Result<BusState>)
    ensures !tableAllocated <==> res == Err(ENOMEM)
    ensures res.Ok? ==> DefaultAddressFree(res.value)
    ensures res.Ok? ==> forall slot :: 1 <= slot <= maxSlots ==>
              ValidSlotIndex(res.value, slot) && res.value.devicesBySlot[slot].None?
  {
    if !tableAllocated then Err(ENOMEM)
    else Ok(BusState(seq(maxSlots + 1, _ => None), SpeedMax))
  }

  /** Lines 166-167 of `xhci_bus_enumerate_device`: the slot must be empty,
      and afterwards it holds the device; no other slot changes. */
  function RegisterSlot(b: BusState, slot: nat, device: nat): (b': BusState)
    requires ValidSlotIndex(b, slot) && b.devicesBySlot[slot].None?
    ensures |b'.devicesBySlot| == |b.devicesBySlot|
    ensures b'.devicesBySlot[slot] == Some(device)
    ensures forall s :: 0 <= s < |b.devicesBySlot| && s != slot ==> b'.devicesBySlot[s] == b.devicesBySlot[s]
    ensures b'.defaultAddressSpeed == b.defaultAddressSpeed
  {
    b.(devicesBySlot := b.devicesBySlot[slot := Some(device)])
  }

  /** Every slot the controller can hand out can be registered in a freshly
      initialised bus. */
  lemma FreshBusAcceptsEverySlot(maxSlots: nat, slot: nat, device: nat)
    requires 1 <= slot <= maxSlots
    ensures BusInit(maxSlots, true).Ok?
    ensures var b := BusInit(maxSlots, true).value;
            ValidSlotIndex(b, slot) && b.devicesBySlot[slot].None? &&
            RegisterSlot(b, slot, device).devicesBySlot[slot] == Some(device)
  {
  }

  // ---------------------------------------------------------------------
  // Endpoints

  /** The endpoint descriptor fields `prepare_endpoint` reads. */
  datatype EndpointDesc = EndpointDesc(
    endpoint: nat, direction: UsbDirection, transferType: TransferKind,
    maxPacketSize: nat, packets: nat, maxStreams: nat, maxBurst: nat)

  /** The fields `prepare_endpoint` writes into the endpoint. */
  datatype EndpointConfig = EndpointConfig(
    endpoint: nat, direction: UsbDirection, transferType: TransferKind,
    maxPacketSize: nat, packets: nat, maxStreams: nat, maxBurst: nat, mult: nat)

  /** The descriptor an endpoint configuration was made from. */
  function DescOf(c: EndpointConfig): EndpointDesc
  {
    EndpointDesc(c.endpoint, c.direction, c.transferType, c.maxPacketSize, c.packets, c.maxStreams, c.maxBurst)
  }

  datatype Prepared = Prepared(config: EndpointConfig, status: Errno)

  /** `prepare_endpoint`: the fields are copied (Mult forced to 0) before
      the transfer structures are allocated, whose result is returned. */
  function PrepareEndpoint(desc: EndpointDesc, allocResult: Errno): (p: Prepared)
    ensures p.status == allocResult
    ensures DescOf(p.config) == desc && p.config.mult == 0
  {
    Prepared(EndpointConfig(desc.endpoint, desc.direction, desc.transferType, desc.maxPacketSize,
                            desc.packets, desc.maxStreams, desc.maxBurst, 0), allocResult)
  }

  /** `CTRL_PIPE_MIN_PACKET_SIZE`: the smallest control max packet size. */
  const CtrlPipeMinPacketSize: nat := 8

  /** `ep0_desc`: the default control endpoint. */
  const Ep0Desc: EndpointDesc := EndpointDesc(0, DirBoth, Control, CtrlPipeMinPacketSize, 1, 0, 0)

  /** The default control endpoint comes out as a bidirectional control
      endpoint 0 with one packet of the minimal size and no USB 3 extras. */
  lemma Ep0Prepared(allocResult: Errno)
    ensures var c := PrepareEndpoint(Ep0Desc, allocResult).config;
            c.endpoint == 0 && c.direction == DirBoth && c.transferType == Control &&
            c.maxPacketSize == 8 && c.packets == 1 && c.maxStreams == 0 && c.maxBurst == 0 && c.mult == 0
  {
  }

  // ---------------------------------------------------------------------
  // Enumeration as a whole

  /** A low- or full-speed hub below a high-speed hub passes that TT on:
      any device below it is served by the high-speed hub's port the
      full-speed hub hangs on. */
  lemma TtThroughSlowHub(hs: Hub, port1: nat, hubSpeed: Speed, rhPort: nat,
                         hubAddress: nat, port2: nat, speed2: Speed)
    requires hs.speed == High && IsUsb11(hubSpeed)
    ensures var p1 := EnumeratePlacement(hs, port1, hubSpeed, rhPort);
            var slow := Hub(hubSpeed, hubAddress, p1.tt, p1.tier, p1.routeString, p1.rhPort);
            EnumeratePlacement(slow, port2, speed2, rhPort).tt == Tt(hs.address, port1)
  {
  }

  datatype Enumerated = Enumerated(status: Errno, bus: BusState, placement: Placement)

  /** `xhci_bus_enumerate_device`: place the device, address it (the slot
      the controller assigns is an input), record it under its slot, then
      explore it; when exploring fails the device's address is released
      and the device stays in the slot table. */
  function EnumerateDevice(b: BusState, hub: Hub, port: nat, speed: Speed, rhPort: nat, device: nat,
                           address: int, addressed: Result<nat>, exploreResult: Errno): (o: Enumerated)
    requires addressed.Ok? ==> ValidSlotIndex(b, addressed.value) && b.devicesBySlot[addressed.value].None?
    requires addressed.Err? ==> addressed.error != EOK
    ensures o.placement == EnumeratePlacement(hub, port, speed, rhPort)
    ensures o.status == EOK <==> addressed.Ok? && exploreResult == EOK
    ensures addressed.Err? ==> o.status == addressed.error && o.bus == b
    ensures addressed.Ok? ==>
              && |o.bus.devicesBySlot| == |b.devicesBySlot|
              && o.bus.devicesBySlot[addressed.value] == Some(device)
              && (forall s :: 0 <= s < |b.devicesBySlot| && s != addressed.value ==> o.bus.devicesBySlot[s] == b.devicesBySlot[s])
    ensures addressed.Ok? && exploreResult != EOK ==>
              o.status == exploreResult &&
              (address == AddressDefault ==> DefaultAddressFree(o.bus)) &&
              (address != AddressDefault ==> o.bus.defaultAddressSpeed == b.defaultAddressSpeed)
    ensures addressed.Ok? && exploreResult == EOK ==> o.bus.defaultAddressSpeed == b.defaultAddressSpeed
  {
    var placement := EnumeratePlacement(hub, port, speed, rhPort);
    match addressed
    case Err(e) => Enumerated(e, b, placement)
    case Ok(slot) =>
      var b1 := RegisterSlot(b, slot, device);
      if exploreResult != EOK then Enumerated(exploreResult, ReleaseAddress(b1, address).bus, placement)
      else Enumerated(EOK, b1, placement)
  }
}
