/** Accept states of RFC 5531 section 9, and those that stand for failures of the client's own. */
module Stats {
  import opened Bytes

  const SUCCESS: u32 := 0
  const PROG_UNAVAIL: u32 := 1
  const PROG_MISMATCH: u32 := 2
  const PROC_UNAVAIL: u32 := 3
  const GARBAGE_ARGS: u32 := 4
  const SYSTEM_ERR: u32 := 5

  const SEND_ERR: u32 := 97
  const CANCELED: u32 := 98
  const GARBAGE_RET: u32 := 99
}
