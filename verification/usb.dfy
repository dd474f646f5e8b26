/** USB-level values the xHCI driver works with: speeds, the control setup
    packet and the request-type fields of chapter 9 of the USB 2.0
    specification. */
module Usb {

  type Byte = x: nat | x < 0x100
  type Word = x: nat | x < 0x1_0000

  /** `usb_speed_t`. `SpeedMax` is the sentinel the bus uses for "no
      speed", that is, the default address is free. */
  datatype Speed = Low | Full | High | Super | SpeedMax

  /** `usb_speed_is_11`: a USB 1.1 speed. */
  predicate IsUsb11(s: Speed)
  {
    s == Low || s == Full
  }

  /** `USB_ADDRESS_DEFAULT`. */
  const AddressDefault: int := 0

  datatype TransferKind = Control | Isochronous | Bulk | Interrupt

  datatype UsbDirection = DirIn | DirOut | DirBoth

  /** The eight-byte setup packet of a control transfer. */
  datatype SetupPacket = SetupPacket(requestType: Byte, request: Byte, value: Word, index: Word, length: Word)

  /** Bit 7 of bmRequestType (`REQUEST_TYPE_DTD`, 0x80): device-to-host. */
  predicate IsDeviceToHost(requestType: Byte)
  {
    (requestType / 0x80) % 2 == 1
  }

  /** Bits 6:5 of bmRequestType: 0 standard, 1 class, 2 vendor. */
  function RequestKind(requestType: Byte): nat
  {
    (requestType / 0x20) % 4
  }

  const RequestKindStandard: nat := 0
  const RequestSetConfiguration: Byte := 9
  const RequestSetInterface: Byte := 11
}
