/** Packet and event numbers of the host controller interface: Bluetooth Core
  * Specification, Vol 4 Part E, section 7.7.
  */
module Hci {
  import opened Common

  const HCI_EVENT_PKT: byte := 0x04
  const EVT_LE_META_EVENT: byte := 0x3E
  const EVT_CMD_COMPLETE: byte := 0x0E
  const EVT_LE_ADVERTISING_REPORT: byte := 0x02
  const EVT_LE_EXTENDED_ADVERTISING_REPORT: byte := 0x0D
}
