# xHCI host controller driver core, modelled in Dafny

This project models the core of the HelenOS xHCI (USB 3) host controller
driver:

- the **transfer ring** that software fills with Transfer Request Blocks
  (TRBs) for the controller: initialisation, the two-phase enqueue (a dry
  run that refuses a transfer descriptor when the ring is too full, then the
  copy that stamps cycle bits, follows Link TRBs and toggles the producer
  cycle state), and link resolution;
- the **event ring** the controller fills for software: initialisation and
  dequeue with the consumer cycle state;
- **transfer scheduling**: the TRBs of control, bulk and interrupt transfers,
  the guards of `xhci_transfer_schedule`, and the decoding of a Transfer
  Event;
- the **bus**: transaction translator and route string of a new device, the
  single default USB address, the slot-indexed device table and endpoint
  preparation;
- the **root hub**: port speeds, connect and disconnect handling, the
  first-device-per-port rule and the scan of the port status registers.

The model is functional. Each ring is an immutable value: its segments are
sequences of TRB records, and a cursor is a (segment, slot) pair. Allocation
outcomes, controller command results and register reads that the code
depends on are parameters. Module `Cursor` shows that walking the usable
slots is "+1, wrapping once per revolution". On that basis the ring
properties are stated over positions and their linear index.

Modules: `Errors` (error codes, `Option`, `Result`), `Cursor`, `Trbs`,
`Segments`, `TransferRing`, `EventRing`, `Usb`, `Transfers`, `Bus`,
`RootHub`.

## Model

| member | source | states |
|---|---|---|
| TransferRing.Init | uspace/drv/bus/usb/xhci/trb_ring.c:94-121 | a failed allocation returns its error; otherwise one segment of zeroed slots whose last slot is a Link TRB to the segment's own base with cycle bit 1 and Toggle-Cycle (the Link TRB's fields follow `xhci_trb_link_fill`, which is not part of this model), the cursor on slot 0, the dequeue address at the base (equal to the enqueue address) and PCS = 1 |
| TransferRing.Advance | uspace/drv/bus/usb/xhci/trb_ring.c:141-149 | moving one slot and resolving a Link TRB lands on the next usable slot, wrapping from the last segment to slot 0 of the first |
| TransferRing.TdLen | uspace/drv/bus/usb/xhci/trb_ring.c:186-194 | a TD runs up to and including its first non-chained TRB; every TRB before that one is chained |
| TransferRing.ProbeWalk | uspace/drv/bus/usb/xhci/trb_ring.c:185-194 | the dry run fails exactly when one of the positions reached by the TD's advances has the dequeue address; on success it ends that many advances on |
| TransferRing.Enqueue | uspace/drv/bus/usb/xhci/trb_ring.c:172-234 | the result is EOK or EAGAIN; EAGAIN leaves the ring exactly as it was and reports address 0; EOK keeps the ring valid, keeps the dequeue address and segments, and reports the address of the slot the first TRB went to |
| TransferRing.EnqueueFullIff | uspace/drv/bus/usb/xhci/trb_ring.c:185-194 | EAGAIN exactly when the cursor would reach the dequeue address while placing the TD |
| TransferRing.EnqueueKeepsGap | uspace/drv/bus/usb/xhci/trb_ring.c:185-199 | after a successful enqueue the cursor has moved TdLen advances and is not at the dequeue address, so producer and consumer never meet |
| TransferRing.EnqueueNeverLaps | uspace/drv/bus/usb/xhci/trb_ring.c:185-194 | when the dequeue address is a slot of the ring, an accepted TD has fewer TRBs than the ring's capacity, so it never laps the ring |
| TransferRing.InitCapacity | uspace/drv/bus/usb/xhci/trb_ring.c:107-114 | a fresh ring accepts a TD exactly when it has fewer TRBs than a segment has usable slots |
| TransferRing.CommitOne | uspace/drv/bus/usb/xhci/trb_ring.c:205-223 | the TRB is stored at the cursor with cycle bit = PCS; the cursor takes one step; a crossed Link TRB gets cycle bit = PCS and toggles PCS exactly when it has Toggle-Cycle; no other slot changes |
| TransferRing.CommitOneKeepsToggle | uspace/drv/bus/usb/xhci/trb_ring.c:213-222 | stamping a crossed Link TRB keeps Toggle-Cycle on the last segment's link only |
| TransferRing.Commit | uspace/drv/bus/usb/xhci/trb_ring.c:204-224 | the copy phase keeps the ring valid and leaves the cursor TdLen advances on |
| TransferRing.CommitSpec | uspace/drv/bus/usb/xhci/trb_ring.c:204-224 | TRB k of the TD lands k advances on, with the PCS in force there; every crossed link is stamped with the PCS before the crossing; PCS toggles exactly when a revolution completes; nothing else changes |
| TransferRing.EnqueueWrites | uspace/drv/bus/usb/xhci/trb_ring.c:172-234 | the full effect of a successful enqueue on slot contents, links and PCS, in the terms of CommitSpec |
| Segments.SlotPhysInjective | uspace/drv/bus/usb/xhci/trb_ring.c:151-155 | two cursor positions have the same physical address exactly when they are the same position, so the address comparisons of the dry run compare positions |
| EventRing.Init | uspace/drv/bus/usb/xhci/trb_ring.c:240-269 | the result is Ok exactly when both the segment and the segment table are allocated; a failed segment allocation returns its own error and a failed table allocation returns ENOMEM; on Ok there is one zeroed segment, the cursor is on slot 0, the reported pointer is at the base and CCS = 1 |
| EventRing.Dequeue | uspace/drv/bus/usb/xhci/trb_ring.c:295-326 | the reported pointer becomes the cursor's address even when the ring is empty; ENOENT exactly when the slot's cycle bit differs from CCS, leaving the cursor and CCS alone; otherwise it returns the slot, steps on, and flips CCS exactly at the last slot of the last segment |
| EventRing.InitIsEmpty | uspace/drv/bus/usb/xhci/trb_ring.c:254-264 | the first dequeue on a new event ring returns ENOENT |
| EventRing.EmptyDequeueIdempotent | uspace/drv/bus/usb/xhci/trb_ring.c:301-304 | polling an empty ring again returns the same result and state |
| EventRing.DequeueFlipsAtWrap | uspace/drv/bus/usb/xhci/trb_ring.c:308-323 | the cursor's linear index goes up by one and wraps to 0, and CCS flips exactly at that wrap |
| EventRing.InitDrained | uspace/drv/bus/usb/xhci/trb_ring.c:240-269 | no slot of a new event ring holds an event for the first revolution |
| EventRing.EventsDeliveredInOrder | uspace/drv/bus/usb/xhci/trb_ring.c:295-326 | when the controller writes fewer than a revolution of events into a drained ring, successive dequeues return exactly those events in order, and the next call finds the ring empty |
| Transfers.StatusOppositeToData | uspace/drv/bus/usb/xhci/transfers.c:57-64 | the Status Stage runs opposite to the Data Stage when there is one, and IN when there is none |
| Transfers.TransferTypeOf | uspace/drv/bus/usb/xhci/transfers.c:75-85 | corrected TRT: no data stage exactly when wLength is 0, otherwise IN or OUT by bit 7 of bmRequestType |
| Transfers.AsWrittenTrtMissesOutData | uspace/drv/bus/usb/xhci/transfers.c:75-85 | as written, every host-to-device request with data gets TRT "no data stage", although a Data Stage TRB follows |
| Transfers.AsWrittenTrtAgreesOtherwise | uspace/drv/bus/usb/xhci/transfers.c:75-85 | the as-written and corrected TRT agree on all other requests |
| Transfers.ConfigureOnlyForSetRequests | uspace/drv/bus/usb/xhci/transfers.c:87-94 | for every setup packet, a failed Configure Endpoint command stops the control transfer exactly when the request is a standard SET_CONFIGURATION or SET_INTERFACE; class and vendor requests with those codes, and all other standard requests, go ahead |
| Transfers.SetupParameterRoundTrip | uspace/drv/bus/usb/xhci/transfers.c:138-142 | the setup packet packed into the Setup Stage parameter fits 64 bits and unpacks to the same packet |
| Transfers.ControlTd | uspace/drv/bus/usb/xhci/transfers.c:132-182 | as written: 3 TRBs with data and 2 without; Setup Stage first, with immediate data, length 8, the setup packet as parameter, and TRT "IN data stage" for a device-to-host request with data and "no data stage" otherwise; a Data Stage over the buffer with TD size 1 when wLength > 0; Status Stage last, with interrupt-on-completion; no TRB is chained or a Link TRB |
| Transfers.ControlTdIntended | uspace/drv/bus/usb/xhci/transfers.c:150 | corrected: the same TD except that the Setup Stage carries the TRT of Table 7 of the xHCI specification |
| Transfers.AsWrittenTdMislabelsOutData | uspace/drv/bus/usb/xhci/transfers.c:150-171 | for every host-to-device request with data, the as-written TD has an OUT Data Stage after a Setup Stage announcing no data stage |
| Transfers.AsWrittenTdAgreesOtherwise | uspace/drv/bus/usb/xhci/transfers.c:150 | for every other request the as-written TD equals the intended one |
| Transfers.ControlTdConsistent | uspace/drv/bus/usb/xhci/transfers.c:150-182 | in the intended TD, the Setup Stage's TRT announces exactly the Data Stage that follows and its direction, and the Status Stage runs the other way |
| Transfers.ScheduleControl | uspace/drv/bus/usb/xhci/transfers.c:184-191 | an error exactly when a Configure Endpoint is needed and fails, and then that command's error; otherwise the as-written control TD |
| Transfers.NormalTrb | uspace/drv/bus/usb/xhci/transfers.c:196-208 | a Normal TRB over the buffer with its length, TD size 1, interrupt-on-completion, no chain, no immediate data and cycle bit 0 until the ring stamps it |
| Transfers.ScheduleNormal | uspace/drv/bus/usb/xhci/transfers.c:194-234 | a bulk or interrupt transfer is one TRB: on EOK the ring is exactly one commit step on, so the old cursor's slot holds the Normal TRB with cycle bit = PCS, the cursor moved one step, a crossed link is stamped and PCS toggles as CommitOne states, and nothing else changes; on EAGAIN the ring is unchanged and the address is 0 |
| Transfers.HandlerResult | uspace/drv/bus/usb/xhci/transfers.c:236-241 | isochronous transfers are refused with ENOTSUP |
| Transfers.Schedule | uspace/drv/bus/usb/xhci/transfers.c:300-353 | offline devices get EAGAIN except on endpoint 0; an uninitialised ring gives EINVAL; a failed bounce-buffer allocation for a non-empty buffer gives ENOMEM; every guard failure leaves the endpoint inactive; a doorbell rings exactly when the guards pass and the handler succeeds, on endpoint index + 1, and the doorbell's result is returned; the endpoint stays active exactly then; a handler error is returned |
| Transfers.GuardsPrecedeHandler | uspace/drv/bus/usb/xhci/transfers.c:309-329 | when a guard fails, the outcome does not depend on the handler or doorbell, and it is EAGAIN, EINVAL or ENOMEM |
| Transfers.TransferredSize | uspace/drv/bus/usb/xhci/transfers.c:274 | the size is below 2^64 and adds up to the buffer size with the residual length, modulo 2^64 |
| Transfers.HandleTransferEvent | uspace/drv/bus/usb/xhci/transfers.c:243-289 | ENOENT leaves everything alone for an empty slot or a missing endpoint (number = DCI / 2); otherwise the endpoint's dequeue pointer becomes the event's TRB address even when no batch is active; EOK exactly when a batch was active, which completes with EOK on completion code SUCCESS and ENAK otherwise, with buffer size minus residue transferred in 64-bit `size_t` arithmetic (wrapping modulo 2^64 when the residue exceeds the buffer); the endpoint is left inactive; no other slot or endpoint changes |
| Transfers.NoDoubleCompletion | uspace/drv/bus/usb/xhci/transfers.c:264-277 | a second event on the same endpoint completes nothing and returns ENOENT |
| Bus.EnumeratePlacement | uspace/drv/bus/usb/xhci/bus.c:132-154 | a low- or full-speed device under a high-speed hub gets that hub and port as TT, any other device inherits the hub's TT; the tier is the hub's plus one; from tier 2 the root-hub port is inherited |
| Bus.BitOrDisjoint | uspace/drv/bus/usb/xhci/bus.c:152 | ORing in a value shifted above all bits of the route string adds it |
| Bus.RouteStringExtends | uspace/drv/bus/usb/xhci/bus.c:144-154 | if the hub's route string encodes the path of hub ports leading to it, one nibble per tier, the device's encodes that path followed by its own port |
| Bus.RootPortNotInRoute | uspace/drv/bus/usb/xhci/bus.c:149-154 | a device on a root-hub port is at tier 1 with an empty route string |
| Bus.TtThroughSlowHub | uspace/drv/bus/usb/xhci/bus.c:132-142 | devices below a slow hub that hangs on a high-speed hub use the high-speed hub's port as TT |
| Bus.RequestAddress | uspace/drv/bus/usb/xhci/bus.c:484-502 | any address but the default one is ENOTSUP; an already reserved default address is ENOENT; otherwise the default address is reserved with the device's speed; failures change nothing |
| Bus.ReleaseAddress | uspace/drv/bus/usb/xhci/bus.c:504-513 | releasing the default address frees it; any other address is ENOTSUP and changes nothing |
| Bus.DefaultAddressExclusive | uspace/drv/bus/usb/xhci/bus.c:484-513 | a reserved default address refuses a second request until it is released; then a request succeeds again |
| Bus.ReserveReleaseRoundTrip | uspace/drv/bus/usb/xhci/bus.c:484-513 | reserving and then releasing the default address restores the bus state |
| Bus.BusInitAsWritten | uspace/drv/bus/usb/xhci/bus.c:555-569 | as written: ENOMEM exactly when the table allocation fails; otherwise a slot table of max_slots entries and a free default address |
| Bus.AsWrittenTableMissesLastSlot | uspace/drv/bus/usb/xhci/bus.c:561 | with max_slots entries, the highest slot id is not an index of the table |
| Bus.BusInit | uspace/drv/bus/usb/xhci/bus.c:555-569 | corrected: every slot id from 1 to max_slots indexes an empty table entry; the default address starts free |
| Bus.RegisterSlot | uspace/drv/bus/usb/xhci/bus.c:166-167 | an empty slot entry comes to hold the device; no other entry changes |
| Bus.FreshBusAcceptsEverySlot | uspace/drv/bus/usb/xhci/bus.c:166-167 | any slot id the controller can assign can be registered in a fresh bus |
| Bus.EnumerateDevice | uspace/drv/bus/usb/xhci/bus.c:127-180 | EOK exactly when addressing and exploring both succeed; a failed addressing returns its error and changes nothing; once addressed the device is in its slot entry, even when exploring fails; a failed exploration releases the device's address |
| Bus.PrepareEndpoint | uspace/drv/bus/usb/xhci/bus.c:63-77 | the descriptor can be read back from the endpoint's fields, Mult is 0, and the allocation's result is returned |
| Bus.Ep0Prepared | uspace/drv/bus/usb/xhci/bus.c:54-61 | the default control endpoint is bidirectional control endpoint 0 with one 8-byte packet and no USB 3 extras |
| RootHub.PortSpeedToUsbSpeed | uspace/drv/bus/usb/xhci/rh.c:76-87 | a port's speed is never the "no speed" sentinel |
| RootHub.PortSpeedKeepsMajor | uspace/drv/bus/usb/xhci/rh.c:76-87 | the speed belongs to the port's major revision; a USB 1 port is full speed exactly when its minor revision is non-zero |
| RootHub.RecordDevice | uspace/drv/bus/usb/xhci/rh.c:128-134 | the device is appended to the child list; no other port's entry changes |
| RootHub.FirstDeviceWins | uspace/drv/bus/usb/xhci/rh.c:130-133 | on an empty port the first device is recorded and a second one does not replace it |
| RootHub.RecordedDeviceKept | uspace/drv/bus/usb/xhci/rh.c:130-133 | a port with a recorded device keeps its table entry |
| RootHub.SetupDevice | uspace/drv/bus/usb/xhci/rh.c:91-141 | a failed device creation is ENOMEM; enumeration and bind errors are returned; every failure leaves the table and list alone; EOK exactly when all succeed, and then the device is recorded |
| RootHub.HandleDisconnected | uspace/drv/bus/usb/xhci/rh.c:181-267 | always EOK; with no device on the port nothing changes; otherwise that device is taken offline, removed from the child list and the port's entry cleared |
| RootHub.ConnectDisconnectRoundTrip | uspace/drv/bus/usb/xhci/rh.c:181-204 | recording a device on an empty port and disconnecting it restores the root hub's state |
| RootHub.HandleConnected | uspace/drv/bus/usb/xhci/rh.c:143-177 | a USB 3 port is set up exactly when its link is in U0; the setup's result is returned; a link in RxDetect (5) gives EAGAIN and any other state, Inactive (6) included, EINVAL; a port that is not USB 3 is reset with EOK |
| RootHub.ScanPort | uspace/drv/bus/usb/xhci/rh.c:286-349 | the read value is written back unchanged; no change bit is ever left over for the "ignored" warning; a connect status change calls the connect or disconnect handler by the current connect status; a reset change sets up a port that is not USB 3; a connect event comes before a setup |
| RootHub.Usb2SetupAfterReset | uspace/drv/bus/usb/xhci/rh.c:323-334 | a new USB 2 device makes the driver reset the port, and the following reset change sets it up; a USB 3 port is never set up on a reset change |
| RootHub.HandlePortChange | uspace/drv/bus/usb/xhci/rh.c:286-349 | every port is scanned exactly once, for any port count (the counter cannot wrap; see Findings); each scan writes its value back, leaves nothing ignored, and dispatches connect and setup as ScanPort states |
| RootHub.CounterStep | uspace/drv/bus/usb/xhci/rh.c:288 | the driver's `++i` on an 8-bit counter stays below 256, steps to i + 1 below 255 and gives 0 exactly from 255 |
| RootHub.PortsVisitedAsWritten | uspace/drv/bus/usb/xhci/rh.c:288 | the port ids the driver's 8-bit loop scans within a pass bound: never more passes than the bound, and never an id above max_ports |
| RootHub.AsWrittenLoopNeverEnds | uspace/drv/bus/usb/xhci/rh.c:288 | with 255 ports the driver's loop makes as many passes as any bound allows, and pass 256 scans port 0 (`portrs[-1]`) |
| RootHub.AsWrittenFullCountWraps | uspace/drv/bus/usb/xhci/rh.c:288 | with 255 ports, pass k of the driver's loop from counter i scans port (i + k) mod 256, for every pass |
| RootHub.AsWrittenVisitsFrom | uspace/drv/bus/usb/xhci/rh.c:288 | below 255 ports the driver's loop from counter i scans ports i to max_ports once each, in order, and stops |
| RootHub.AsWrittenLoopBelowFullCount | uspace/drv/bus/usb/xhci/rh.c:288 | below 255 ports the driver's loop scans exactly ports 1 to max_ports, as `HandlePortChange` does for every port count |

## Left out

- Memory: DMA page allocation, `malloc32`, `memset` and `memcpy` are not modelled. An allocation's outcome is a parameter, and a new segment is zero-filled.
- Locking: the fibril mutexes are not modelled. Each operation is one atomic step. The early return at `bus.c:158-160` leaves the bus guard locked; the model does not track locks.
- Ring teardown: `xhci_trb_ring_fini` and `xhci_event_ring_fini` only release memory.
- Event ring segment table: the entry written by `xhci_fill_erst_entry` and its layout are not modelled.
- Multi-TRB enqueue: `xhci_trb_ring_enqueue_multiple` is not part of this model. `Transfers.ScheduleControl` yields the TD that would be handed to it.
- Caller's TD: `xhci_trb_ring_enqueue` also overwrites the cycle bit of the TRBs in the caller's TD (`trb_ring.c:206`). The model returns only the new ring.
- Ring growth: the modelled code creates rings with one segment. The ring lemmas allow any number of segments, with Toggle-Cycle only on the last link.
- Controller side: the controller's consumption shows up only as the ring's `dequeue` address.
- Event production: the events the controller writes are given by `EventRing.Produce`, an assumed model of section 4.9.4 of the xHCI specification, not of driver code.
- TRB bit layout: the accessor macros are not part of this model. A TRB is a record of named fields.
- Field widths: the 17-bit transfer length and the 8-bit slot id are not bounded.
- Controller commands: the results of enabling a slot, addressing, Configure Endpoint, ringing the doorbell, creating and binding device functions, and exploring a device are parameters.
- Disconnect teardown: the steps after the table update in `handle_disconnected_device` are not modelled. Their errors are only logged: aborting transfers, unbinding, removing EP0, deconfiguring, removing from the bus, disabling the slot.
- Endpoint lookup: `xhci_device_get_endpoint` is not part of this model. A device's endpoints are a map from endpoint number.
- Batch completion: the buffer copy, toggle reset and `usb_transfer_batch_finish` are not modelled.
- Register reads: the port speed (`xhci_rh_get_port_speed`) and the port link state are given as numbers. PORTSC is modelled as the set of its 1 bits.
- Root hub init: `xhci_rh_init` is not modelled.
- Logging: all logging is left out.
- Segment geometry: the segment header is taken to be 24 bytes, as on a 64-bit target, giving 254 slots per segment and 253 usable ones. On a 32-bit target the header is 12 bytes, giving 255 slots and 254 usable; the bound in `TransferRing.InitCapacity` follows this choice.
- Control TD: `Transfers.ControlTd` and `Transfers.ScheduleControl` model the code as written, with the transfer type of `get_transfer_type`. The corrected TD is `Transfers.ControlTdIntended`.
- Bus.EnumeratePlacement: the route string is modelled as its unbounded numeric value. The C `(port & 0xf) << offset` could overflow 32 bits only beyond tier 9, which USB topologies do not reach.
- Bus.EnumeratePlacement: a device on a root-hub port (tier 1) does not get `rh_port` assigned in the modelled code. The model keeps the previous value, which is given as a parameter.
- Bus.DefaultAddressExclusive: the lemma requires a real speed. A reservation made with `USB_SPEED_MAX` would leave the default address looking free, since that value is the "free" marker.
- Transfers.HandleTransferEvent: the slot id must index the device table. The source reads `devices_by_slot[slot_id]` unchecked. The debug assertion that an IN transfer moved no more than its buffer (`transfered_size <= buffer_size`) and the copy back into the caller's buffer are not modelled: the model reports the wrapped size the subtraction yields whatever the direction.
- RootHub.HandlePortChange: scans each port once with a counter that cannot wrap, which is what the driver intends. The driver's `uint8_t` counter, which never stops when MaxPorts is 255, is modelled by RootHub.PortsVisitedAsWritten and listed under Findings.
- TransferRing.Init: `xhci_trb_link_fill` (trb_ring.c:108) is not part of this model. The Link TRB it writes is taken to carry the target address and Toggle-Cycle, as a one-segment ring needs for its cycle state to flip on every lap.
- TransferRing.EnqueueWrites: the lemma requires that the dequeue address is a slot of the ring and that Toggle-Cycle sits on the last link only. Both are invariants of rings created by `xhci_trb_ring_init`.

## Findings

| source | as written | input that shows it | evidently intended | confidence | as-written member | corrected member |
|---|---|---|---|---|---|---|
| uspace/drv/bus/usb/xhci/transfers.c:75-85 | `get_transfer_type` returns "no data stage" (0) for every host-to-device request with wLength > 0, yet `schedule_control` emits a Data Stage TRB for it | bmRequestType 0x00, wLength 8: TRT 0 with a Data Stage TRB following | TRT 2, OUT data stage, as Table 7 of the xHCI specification defines; the enum's unused `DATA_STAGE_OUT = 2` points the same way | high, not executed | Transfers.ControlTd, Transfers.AsWrittenTdMislabelsOutData | Transfers.ControlTdIntended, Transfers.ControlTdConsistent |
| uspace/drv/bus/usb/xhci/bus.c:561 | the slot table has `max_slots` entries, but it is indexed directly by slot id (`bus.c:166-167`, `transfers.c:249`), and the controller numbers device slots 1 to MaxSlots | MaxSlots = 32 and the controller assigns slot 32: the write at `bus.c:167` is one past the end | `max_slots + 1` entries, with entry 0 unused | medium, not executed | Bus.BusInitAsWritten, Bus.AsWrittenTableMissesLastSlot | Bus.BusInit, Bus.FreshBusAcceptsEverySlot |
| uspace/drv/bus/usb/xhci/rh.c:288 | the port loop counts with a `uint8_t i` while `i <= max_ports`, and `max_ports` is the 8-bit MaxPorts field (`rh.h:67`, `rh.c:69`) | MaxPorts = 255: after port 255 `++i` wraps to 0, the next pass addresses `portrs[-1]`, and `i <= 255` holds forever, so the loop never ends | a counter wider than 8 bits, so ports 1 to max_ports are each scanned once and the loop ends | medium, not executed | RootHub.PortsVisitedAsWritten, RootHub.AsWrittenLoopNeverEnds | RootHub.HandlePortChange, RootHub.AsWrittenLoopBelowFullCount |
