/** What a packet asks for: the requests and registers of the debug port and its MEM-AP (ADIv5). */
module DebugPort {
  /** Register addresses: bits 2 and 3 of the request. */
  type Register = r: nat | r == 0 || r == 4 || r == 8 || r == 12

  /** Access port or debug port, read or write, register address. */
  datatype Request = Request(ap: bool, read: bool, reg: Register)

  const DP_IDCODE: Register := 0 // when read
  const DP_ABORT: Register := 0  // when written
  const DP_CTRL_STAT: Register := 4
  const DP_SELECT: Register := 8
  const DP_RDBUFF: Register := 12
  const AP_CSW: Register := 0
  const AP_TAR: Register := 4
  const AP_DRW: Register := 12
}
