/** The Transfer Request Block as an abstract record.

    A TRB is 16 bytes in memory; the model keeps its fields as named values
    instead of a bit layout, since the accessor macros that pack them are not
    part of this model. Only the fields the modelled code reads or writes
    are present. */
module Trbs {

  /** Size of one TRB in bytes. */
  const TrbSize: nat := 16

  /** TRB types used by the modelled code. `Invalid` is type 0, the type of
      a zero-filled slot. */
  datatype TrbType =
    | Invalid
    | Normal
    | SetupStage
    | DataStage
    | StatusStage
    | Link
    | TransferEvent
    | OtherType(code: nat)

  /** The DIR bit of Data and Status Stage TRBs (0 = OUT, 1 = IN). */
  datatype Direction = Out | In

  /** The TRT field of a Setup Stage TRB (xHCI Table 7 of the 1.1
      specification): 0 = no data stage, 2 = OUT data stage, 3 = IN data
      stage. */
  datatype TransferType = NoDataStage | OutDataStage | InDataStage
  {
    function Code(): nat
    {
      match this
      case NoDataStage => 0
      case OutDataStage => 2
      case InDataStage => 3
    }
  }

  datatype Trb = Trb(
    kind: TrbType,
    cycle: bool,
    chain: bool,
    toggleCycle: bool,      // Link TRB: TC flag
    ioc: bool,              // interrupt on completion
    idt: bool,              // immediate data
    dir: Direction,         // Data/Status Stage direction
    trt: TransferType,      // Setup Stage transfer type
    transferLength: nat,
    tdSize: nat,
    parameter: nat,         // 64-bit parameter: buffer or link pointer, setup packet
    completionCode: nat,    // event TRBs
    slotId: nat,            // event TRBs
    endpointDci: nat        // event TRBs
  )

  /** A zero-filled TRB (`xhci_trb_clean`, or freshly zeroed memory). */
  const Clean: Trb := Trb(Invalid, false, false, false, false, false, Out, NoDataStage, 0, 0, 0, 0, 0, 0)

  /** A Link TRB pointing at `target` with the Toggle-Cycle flag set, as the
      ring initialisation fills the last slot of its segment. */
  function LinkTrb(target: nat): (t: Trb)
    ensures t.kind == Link && t.parameter == target && t.toggleCycle
    ensures !t.chain
  {
    Clean.(kind := Link, parameter := target, toggleCycle := true)
  }
}
