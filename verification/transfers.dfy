/** Transfer scheduling on top of the transfer ring: building the TRBs of a
    control, bulk or interrupt transfer, the guards of
    `xhci_transfer_schedule`, and decoding a Transfer Event. */
module Transfers {
  import opened Errors
  import opened Trbs
  import opened Usb
  import TransferRing
  import Cursor

  // ---------------------------------------------------------------------
  // Control transfer stage helpers (xHCI Table 7)

  /** `get_status_direction_flag`: the Status Stage is OUT exactly when the
      request is device-to-host and has a data stage, IN otherwise. */
  function StatusDirection(requestType: Byte, length: Word): Direction
  {
    if IsDeviceToHost(requestType) && length > 0 then Out else In
  }

  /** Direction of the Data Stage TRB built by `schedule_control`. */
  function DataDirection(requestType: Byte): Direction
  {
    if IsDeviceToHost(requestType) then In else Out
  }

  function Opposite(d: Direction): Direction
  {
    if d == In then Out else In
  }

  /** The Status Stage runs opposite to the Data Stage when there is one,
      and IN when there is none, as Table 7 of the xHCI specification asks. */
  lemma StatusOppositeToData(requestType: Byte, length: Word)
    ensures length > 0 ==> StatusDirection(requestType, length) == Opposite(DataDirection(requestType))
    ensures length == 0 ==> StatusDirection(requestType, length) == In
  {
  }

  /** `get_transfer_type` as written: a request with a data stage that is
      host-to-device is given "no data stage". */
  function TransferTypeAsWritten(requestType: Byte, length: Word): TransferType
  {
    if length == 0 then NoDataStage
    else if IsDeviceToHost(requestType) then InDataStage
    else NoDataStage
  }

  /** The TRT value Table 7 of the xHCI specification prescribes: no data
      stage when wLength is 0, otherwise the data stage's direction. */
  function TransferTypeOf(requestType: Byte, length: Word): (trt: TransferType)
    ensures trt == NoDataStage <==> length == 0
    ensures trt == InDataStage <==> length > 0 && IsDeviceToHost(requestType)
    ensures trt == OutDataStage <==> length > 0 && !IsDeviceToHost(requestType)
  {
    if length == 0 then NoDataStage
    else if IsDeviceToHost(requestType) then InDataStage
    else OutDataStage
  }

  /** The as-written TRT says "no data stage" for every host-to-device
      request with data, although `schedule_control` does emit a Data Stage
      TRB for it. */
  lemma AsWrittenTrtMissesOutData(requestType: Byte, length: Word)
    requires length > 0 && !IsDeviceToHost(requestType)
    ensures TransferTypeAsWritten(requestType, length) == NoDataStage
    ensures TransferTypeOf(requestType, length) == OutDataStage
    ensures |ControlTd(SetupPacket(requestType, 0, 0, 0, length), 0, 0)| == 3
    ensures ControlTd(SetupPacket(requestType, 0, 0, 0, length), 0, 0)[1].kind == DataStage
  {
  }

  /** Where the two agree: everywhere except host-to-device with data. */
  lemma AsWrittenTrtAgreesOtherwise(requestType: Byte, length: Word)
    requires length == 0 || IsDeviceToHost(requestType)
    ensures TransferTypeAsWritten(requestType, length) == TransferTypeOf(requestType, length)
  {
  }

  /** `configure_endpoint_needed`: a standard SET_CONFIGURATION or
      SET_INTERFACE request needs a Configure Endpoint command first. */
  predicate ConfigureEndpointNeeded(setup: SetupPacket)
  {
    RequestKind(setup.requestType) == RequestKindStandard &&
    (setup.request == RequestSetConfiguration || setup.request == RequestSetInterface)
  }

  /** The standard requests that change the device's endpoints, and only
      those, make `schedule_control` wait for a Configure Endpoint command:
      whatever the setup packet, a failing command stops the transfer
      exactly when the request is a standard SET_CONFIGURATION or
      SET_INTERFACE, so a class or vendor request with the same code, or
      any other standard request, goes ahead. */
  lemma ConfigureOnlyForSetRequests(setup: SetupPacket, configureResult: Errno, bufferPhys: nat, bufferSize: nat)
    requires configureResult != EOK
    ensures ScheduleControl(setup, bufferPhys, bufferSize, configureResult).Err? <==>
              RequestKind(setup.requestType) == RequestKindStandard &&
              (setup.request == RequestSetConfiguration || setup.request == RequestSetInterface)
  {
  }

  // ---------------------------------------------------------------------
  // The setup packet as immediate data of the Setup Stage TRB

  const Pow8: nat := 0x100
  const Pow16: nat := 0x1_0000
  const Pow32: nat := 0x1_0000_0000
  const Pow48: nat := 0x1_0000_0000_0000
  const Pow64: nat := 0x1_0000_0000_0000_0000

  /** The 64-bit parameter of a Setup Stage TRB (section 6.4.1.2.1 of the
      xHCI specification): bmRequestType in bits 7:0, bRequest in 15:8,
      wValue in 31:16, wIndex in 47:32, wLength in 63:48. */
  function SetupParameter(setup: SetupPacket): nat
  {
    setup.requestType + Pow8 * setup.request + Pow16 * setup.value +
    Pow32 * setup.index + Pow48 * setup.length
  }

  /** Reading the fields back out of a Setup Stage parameter. */
  function SetupFromParameter(param: nat): SetupPacket
  {
    SetupPacket(param % Pow8, (param / Pow8) % Pow8, (param / Pow16) % Pow16,
                (param / Pow32) % Pow16, (param / Pow48) % Pow16)
  }

  /** The packed parameter fits 64 bits and gives back the setup packet. */
  lemma SetupParameterRoundTrip(setup: SetupPacket)
    ensures SetupParameter(setup) < Pow64
    ensures SetupFromParameter(SetupParameter(setup)) == setup
  {
    RequestTypeField(setup);
    RequestField(setup);
    ValueField(setup);
    IndexField(setup);
    LengthField(setup);
  }

  lemma RequestTypeField(s: SetupPacket)
    ensures SetupParameter(s) % Pow8 == s.requestType
  {
    assert SetupParameter(s) == s.requestType + Pow8 * (s.request + Pow8 * (s.value + Pow16 * (s.index + Pow16 * s.length)));
  }

  lemma RequestField(s: SetupPacket)
    ensures (SetupParameter(s) / Pow8) % Pow8 == s.request
  {
    var g := s.request + Pow8 * (s.value + Pow16 * (s.index + Pow16 * s.length));
    assert SetupParameter(s) == s.requestType + Pow8 * g;
    assert SetupParameter(s) / Pow8 == g;
  }

  lemma ValueField(s: SetupPacket)
    ensures (SetupParameter(s) / Pow16) % Pow16 == s.value
  {
    var g := s.value + Pow16 * (s.index + Pow16 * s.length);
    assert SetupParameter(s) == (s.requestType + Pow8 * s.request) + Pow16 * g;
    assert SetupParameter(s) / Pow16 == g;
  }

  lemma IndexField(s: SetupPacket)
    ensures (SetupParameter(s) / Pow32) % Pow16 == s.index
  {
    var g := s.index + Pow16 * s.length;
    assert SetupParameter(s) == (s.requestType + Pow8 * s.request + Pow16 * s.value) + Pow32 * g;
    assert SetupParameter(s) / Pow32 == g;
  }

  lemma LengthField(s: SetupPacket)
    ensures SetupParameter(s) / Pow48 == s.length
    ensures SetupParameter(s) < Pow64
  {
    assert SetupParameter(s) == (s.requestType + Pow8 * s.request + Pow16 * s.value + Pow32 * s.index) + Pow48 * s.length;
  }

  // ---------------------------------------------------------------------
  // TRB construction

  /** The TRBs of a control TD with the given Setup Stage transfer type: a
      Setup Stage TRB carrying the setup packet as immediate data, a Data
      Stage TRB over the bounce buffer when wLength is non-zero, and a Status
      Stage TRB that interrupts on completion. */
  function ControlTdWith(setup: SetupPacket, bufferPhys: nat, bufferSize: nat, trt: TransferType): (td: seq<Trb>)
    ensures |td| == (if setup.length > 0 then 3 else 2)
    ensures td[0].kind == SetupStage && td[0].idt && td[0].transferLength == 8 && td[0].trt == trt
    ensures SetupFromParameter(td[0].parameter) == setup
    ensures td[|td| - 1].kind == StatusStage && td[|td| - 1].ioc
    ensures setup.length > 0 ==>
              td[1].kind == DataStage && td[1].parameter == bufferPhys &&
              td[1].transferLength == bufferSize && td[1].tdSize == 1
    ensures forall i :: 0 <= i < |td| ==> !td[i].chain && td[i].kind != Link
  {
    SetupParameterRoundTrip(setup);
    var setupTrb := Clean.(kind := SetupStage, parameter := SetupParameter(setup), transferLength := 8,
                           idt := true, trt := trt);
    var dataTrb := Clean.(kind := DataStage, parameter := bufferPhys, transferLength := bufferSize,
                          tdSize := 1, dir := DataDirection(setup.requestType));
    var statusTrb := Clean.(kind := StatusStage, ioc := true,
                            dir := StatusDirection(setup.requestType, setup.length));
    if setup.length > 0 then [setupTrb, dataTrb, statusTrb] else [setupTrb, statusTrb]
  }

  /** The TD `schedule_control` builds, as written: the Setup Stage takes
      its transfer type from `get_transfer_type`, so it never announces an
      OUT data stage. */
  function ControlTd(setup: SetupPacket, bufferPhys: nat, bufferSize: nat): (td: seq<Trb>)
    ensures |td| == (if setup.length > 0 then 3 else 2)
    ensures td[0].kind == SetupStage && td[0].idt && td[0].transferLength == 8
    ensures SetupFromParameter(td[0].parameter) == setup
    ensures td[0].trt == (if setup.length > 0 && IsDeviceToHost(setup.requestType) then InDataStage else NoDataStage)
    ensures td[|td| - 1].kind == StatusStage && td[|td| - 1].ioc
    ensures setup.length > 0 ==>
              td[1].kind == DataStage && td[1].parameter == bufferPhys &&
              td[1].transferLength == bufferSize && td[1].tdSize == 1
    ensures forall i :: 0 <= i < |td| ==> !td[i].chain && td[i].kind != Link
  {
    ControlTdWith(setup, bufferPhys, bufferSize, TransferTypeAsWritten(setup.requestType, setup.length))
  }

  /** The control TD with the transfer type Table 7 of the xHCI
      specification prescribes. It differs from the as-written TD only in
      the Setup Stage's transfer type. */
  function ControlTdIntended(setup: SetupPacket, bufferPhys: nat, bufferSize: nat): (td: seq<Trb>)
    ensures |td| == |ControlTd(setup, bufferPhys, bufferSize)|
    ensures td[0] == ControlTd(setup, bufferPhys, bufferSize)[0].(trt := td[0].trt)
    ensures td[1..] == ControlTd(setup, bufferPhys, bufferSize)[1..]
    ensures td[0].trt == TransferTypeOf(setup.requestType, setup.length)
  {
    ControlTdWith(setup, bufferPhys, bufferSize, TransferTypeOf(setup.requestType, setup.length))
  }

  /** The stages of the intended control TD agree with one another: the
      Setup Stage's TRT announces exactly the Data Stage that follows, with
      its direction, and the Status Stage runs the other way. */
  lemma ControlTdConsistent(setup: SetupPacket, bufferPhys: nat, bufferSize: nat)
    ensures var td := ControlTdIntended(setup, bufferPhys, bufferSize);
            && (td[0].trt == NoDataStage <==> td[1].kind != DataStage)
            && (td[0].trt == InDataStage <==> td[1].kind == DataStage && td[1].dir == In)
            && (td[0].trt == OutDataStage <==> td[1].kind == DataStage && td[1].dir == Out)
            && (td[1].kind == DataStage ==> td[2].dir == Opposite(td[1].dir))
            && (td[1].kind != DataStage ==> td[1].dir == In)
  {
    StatusOppositeToData(setup.requestType, setup.length);
  }

  /** The TD as written breaks that agreement for every host-to-device
      request with data: an OUT Data Stage follows a Setup Stage that
      announces none. */
  lemma AsWrittenTdMislabelsOutData(setup: SetupPacket, bufferPhys: nat, bufferSize: nat)
    requires setup.length > 0 && !IsDeviceToHost(setup.requestType)
    ensures var td := ControlTd(setup, bufferPhys, bufferSize);
            && td[1].kind == DataStage && td[1].dir == Out
            && td[0].trt == NoDataStage
            && !(td[0].trt == OutDataStage <==> td[1].kind == DataStage && td[1].dir == Out)
  {
  }

  /** On every other request the as-written TD is the intended one. */
  lemma AsWrittenTdAgreesOtherwise(setup: SetupPacket, bufferPhys: nat, bufferSize: nat)
    requires setup.length == 0 || IsDeviceToHost(setup.requestType)
    ensures ControlTd(setup, bufferPhys, bufferSize) == ControlTdIntended(setup, bufferPhys, bufferSize)
  {
    AsWrittenTrtAgreesOtherwise(setup.requestType, setup.length);
  }

  /** `schedule_control` up to the ring: when the request needs a Configure
      Endpoint command and that command fails, its error is returned and no
      TD is handed to the ring; otherwise the control TD is. */
  function ScheduleControl(setup: SetupPacket, bufferPhys: nat, bufferSize: nat, configureResult: Errno): (res: Result<seq<Trb>>)
    ensures res.Err? <==> ConfigureEndpointNeeded(setup) && configureResult != EOK
    ensures res.Err? ==> res.error == configureResult
    ensures res.Ok? ==> res.value == ControlTd(setup, bufferPhys, bufferSize)
  {
    if ConfigureEndpointNeeded(setup) && configureResult != EOK then Err(configureResult)
    else Ok(ControlTd(setup, bufferPhys, bufferSize))
  }

  /** The Normal TRB `schedule_bulk` and `schedule_interrupt` build. */
  function NormalTrb(bufferPhys: nat, bufferSize: nat): (t: Trb)
    ensures t.kind == Normal && t.ioc && !t.chain
    ensures t.parameter == bufferPhys && t.transferLength == bufferSize
    ensures t.tdSize == 1
    ensures !t.cycle && !t.idt && !t.toggleCycle
  {
    Clean.(kind := Normal, parameter := bufferPhys, transferLength := bufferSize, tdSize := 1, ioc := true)
  }

  /** `schedule_bulk` and `schedule_interrupt`: a one-TRB TD on the
      endpoint's ring. On success the slot under the old enqueue cursor
      holds the Normal TRB stamped with the producer cycle state and the
      cursor moved one step; when the ring is full nothing changes. */
  function ScheduleNormal(r: TransferRing.Ring, bufferPhys: nat, bufferSize: nat): (res: TransferRing.EnqueueResult)
    requires TransferRing.Valid(r)
    ensures res.status == EOK || res.status == EAGAIN
    ensures res.status == EAGAIN ==> res.ring == r && res.phys == 0
    ensures res.status == EOK ==> res.ring == TransferRing.CommitOne(r, NormalTrb(bufferPhys, bufferSize))
    ensures res.status == EOK ==>
              && TransferRing.Valid(res.ring)
              && res.phys == TransferRing.EnqueuePhys(r)
              && |res.ring.segments| == |r.segments|
              && TransferRing.SlotAt(res.ring, r.enqueue) == NormalTrb(bufferPhys, bufferSize).(cycle := r.pcs)
              && res.ring.enqueue == Cursor.Next(TransferRing.Usable, |r.segments|, r.enqueue)
  {
    var t := NormalTrb(bufferPhys, bufferSize);
    assert ![t][0].chain;
    assert TransferRing.TdLen([t]) == 1;
    TransferRing.Enqueue(r, [t])
  }

  // ---------------------------------------------------------------------
  // xhci_transfer_schedule

  /** `schedule_isochronous` and the handler table: the ring-facing work of
      each transfer kind is an input, isochronous transfers are refused. */
  function HandlerResult(kind: TransferKind, controlResult: Errno, normalResult: Errno): (e: Errno)
    ensures kind == Isochronous ==> e == ENOTSUP
  {
    match kind
    case Control => controlResult
    case Isochronous => ENOTSUP
    case Bulk => normalResult
    case Interrupt => normalResult
  }

  datatype Doorbell = Doorbell(slotId: nat, target: nat)

  /** What scheduling did: the returned status, whether the endpoint is left
      with the batch active, and the doorbell rung, if any. */
  datatype ScheduleOutcome = ScheduleOutcome(status: Errno, active: bool, doorbell: Option<Doorbell>)

  /** The inputs of one call of `xhci_transfer_schedule`. */
  datatype ScheduleRequest = ScheduleRequest(
    online: bool,               // the device is online
    endpoint: nat,              // endpoint number
    segmentCount: nat,          // segments of the endpoint's ring
    bufferSize: nat,
    bufferAllocated: bool,      // malloc32 of the bounce buffer succeeded
    kind: TransferKind,
    slotId: nat,
    endpointIndex: nat)         // xhci_endpoint_index

  predicate PassesGuards(q: ScheduleRequest)
  {
    (q.online || q.endpoint == 0) && q.segmentCount > 0 && (q.bufferSize == 0 || q.bufferAllocated)
  }

  /** `xhci_transfer_schedule`: offline devices only use endpoint 0, an
      uninitialised ring is refused, a failed bounce buffer is ENOMEM; then
      the endpoint is activated, and deactivated again if the handler
      fails; on success the endpoint's doorbell (index + 1) is rung. */
  function Schedule(q: ScheduleRequest, controlResult: Errno, normalResult: Errno, doorbellResult: Errno): (o: ScheduleOutcome)
    ensures !q.online && q.endpoint > 0 ==> o == ScheduleOutcome(EAGAIN, false, None)
    ensures (q.online || q.endpoint == 0) && q.segmentCount == 0 ==> o == ScheduleOutcome(EINVAL, false, None)
    ensures (q.online || q.endpoint == 0) && q.segmentCount > 0 && q.bufferSize > 0 && !q.bufferAllocated ==>
              o == ScheduleOutcome(ENOMEM, false, None)
    ensures o.doorbell.Some? <==> PassesGuards(q) && HandlerResult(q.kind, controlResult, normalResult) == EOK
    ensures o.doorbell.Some? ==> o.doorbell.value == Doorbell(q.slotId, q.endpointIndex + 1) && o.status == doorbellResult
    ensures o.active <==> o.doorbell.Some?
    ensures PassesGuards(q) && o.doorbell.None? ==> o.status == HandlerResult(q.kind, controlResult, normalResult)
  {
    if !q.online && q.endpoint > 0 then ScheduleOutcome(EAGAIN, false, None)
    else if q.segmentCount == 0 then ScheduleOutcome(EINVAL, false, None)
    else if q.bufferSize > 0 && !q.bufferAllocated then ScheduleOutcome(ENOMEM, false, None)
    else
      var err := HandlerResult(q.kind, controlResult, normalResult);
      if err != EOK then ScheduleOutcome(err, false, None)
      else ScheduleOutcome(doorbellResult, true, Some(Doorbell(q.slotId, q.endpointIndex + 1)))
  }

  /** A failing guard never reaches the handler: the outcome is the same
      whatever the handler and the doorbell would have returned. */
  lemma GuardsPrecedeHandler(q: ScheduleRequest, c1: Errno, n1: Errno, d1: Errno, c2: Errno, n2: Errno, d2: Errno)
    requires !PassesGuards(q)
    ensures Schedule(q, c1, n1, d1) == Schedule(q, c2, n2, d2)
    ensures Schedule(q, c1, n1, d1).status in {EAGAIN, EINVAL, ENOMEM}
  {
  }

  // ---------------------------------------------------------------------
  // Transfer events

  /** `XHCI_TRBC_SUCCESS`, completion code 1 (xHCI section 6.4.5). */
  const CompletionSuccess: nat := 1

  /** `size_t` is 64 bits wide here. */
  const SizeModulus: nat := Pow64

  datatype Batch = Batch(bufferSize: nat)

  /** The part of an endpoint a transfer event touches: the software copy
      of the ring's dequeue pointer and the active batch. */
  datatype Endpoint = Endpoint(ringDequeue: nat, active: Option<Batch>)

  datatype Device = Device(endpoints: map<nat, Endpoint>)

  /** How the finished batch is reported to the USB framework. */
  datatype Completion = Completion(error: Errno, transferredSize: nat)

  datatype EventOutcome = EventOutcome(status: Errno, devices: seq<Option<Device>>, completion: Option<Completion>)

  /** `batch->buffer_size - TRB_TRANSFER_LENGTH(*trb)` in `size_t`
      arithmetic: wraps modulo 2^64 when the residue exceeds the buffer. */
  function TransferredSize(bufferSize: nat, residue: nat): (n: nat)
    requires bufferSize < SizeModulus && residue < SizeModulus
    ensures n < SizeModulus
    ensures (n + residue) % SizeModulus == bufferSize
  {
    if residue <= bufferSize then bufferSize - residue else bufferSize + SizeModulus - residue
  }

  /** `xhci_handle_transfer_event`. The slot id indexes `devices_by_slot`
      unchecked, so the caller must keep it in range. */
  function HandleTransferEvent(devices: seq<Option<Device>>, ev: Trb): (o: EventOutcome)
    requires ev.slotId < |devices|
    requires ev.transferLength < SizeModulus
    requires forall s, e :: 0 <= s < |devices| && devices[s].Some? && e in devices[s].value.endpoints ==>
               devices[s].value.endpoints[e].active.Some? ==> devices[s].value.endpoints[e].active.value.bufferSize < SizeModulus
    ensures |o.devices| == |devices|
    ensures forall s :: 0 <= s < |devices| && s != ev.slotId ==> o.devices[s] == devices[s]
    ensures devices[ev.slotId].None? ==> o == EventOutcome(ENOENT, devices, None)
    ensures devices[ev.slotId].Some? && ev.endpointDci / 2 !in devices[ev.slotId].value.endpoints ==>
              o == EventOutcome(ENOENT, devices, None)
    ensures devices[ev.slotId].Some? && ev.endpointDci / 2 in devices[ev.slotId].value.endpoints ==>
              var before := devices[ev.slotId].value.endpoints;
              var ep := before[ev.endpointDci / 2];
              && o.devices[ev.slotId].Some?
              && o.devices[ev.slotId].value.endpoints.Keys == before.Keys
              && (forall e :: e in before && e != ev.endpointDci / 2 ==> o.devices[ev.slotId].value.endpoints[e] == before[e])
              && o.devices[ev.slotId].value.endpoints[ev.endpointDci / 2] == Endpoint(ev.parameter, None)
              && (o.status == EOK <==> ep.active.Some?)
              && (o.completion.Some? <==> ep.active.Some?)
              && (ep.active.Some? ==>
                    && (o.completion.value.error == EOK <==> ev.completionCode == CompletionSuccess)
                    && (o.completion.value.error == ENAK <==> ev.completionCode != CompletionSuccess)
                    && o.completion.value.transferredSize == TransferredSize(ep.active.value.bufferSize, ev.transferLength)
                    && (ev.transferLength <= ep.active.value.bufferSize ==>
                          o.completion.value.transferredSize + ev.transferLength == ep.active.value.bufferSize))
    ensures o.status == EOK || o.status == ENOENT
  {
    match devices[ev.slotId]
    case None => EventOutcome(ENOENT, devices, None)
    case Some(dev) =>
      var epNum := ev.endpointDci / 2;
      if epNum !in dev.endpoints then EventOutcome(ENOENT, devices, None)
      else
        var ep := dev.endpoints[epNum].(ringDequeue := ev.parameter);
        match ep.active
        case None =>
          EventOutcome(ENOENT, devices[ev.slotId := Some(dev.(endpoints := dev.endpoints[epNum := ep]))], None)
        case Some(batch) =>
          var err := if ev.completionCode == CompletionSuccess then EOK else ENAK;
          var done := Completion(err, TransferredSize(batch.bufferSize, ev.transferLength));
          var ep' := ep.(active := None);
          EventOutcome(EOK, devices[ev.slotId := Some(dev.(endpoints := dev.endpoints[epNum := ep']))], Some(done))
  }

  /** A transfer event completes the active batch once: a second event for
      the same endpoint finds no batch and reports ENOENT. */
  lemma NoDoubleCompletion(devices: seq<Option<Device>>, ev: Trb, ev2: Trb)
    requires ev.slotId < |devices| && ev.transferLength < SizeModulus
    requires forall s, e :: 0 <= s < |devices| && devices[s].Some? && e in devices[s].value.endpoints ==>
               devices[s].value.endpoints[e].active.Some? ==> devices[s].value.endpoints[e].active.value.bufferSize < SizeModulus
    requires HandleTransferEvent(devices, ev).status == EOK
    requires ev2.slotId == ev.slotId && ev2.endpointDci / 2 == ev.endpointDci / 2 && ev2.transferLength < SizeModulus
    ensures var o := HandleTransferEvent(devices, ev);
            var o2 := HandleTransferEvent(o.devices, ev2);
            o2.status == ENOENT && o2.completion.None?
  {
    var o := HandleTransferEvent(devices, ev);
    forall s, e | 0 <= s < |o.devices| && o.devices[s].Some? && e in o.devices[s].value.endpoints &&
                  o.devices[s].value.endpoints[e].active.Some?
      ensures o.devices[s].value.endpoints[e].active.value.bufferSize < SizeModulus
    {
    }
  }
}
