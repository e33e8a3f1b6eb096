/** Mailbox buffers and what an exchange with the mailbox of a slave can yield. */
module Mailbox {
  import opened Bytes

  const MAX_MBX: nat := 1486              // EC_MAXMBX
  const MBX_BUF: nat := MAX_MBX + 1       // size of a mailbox buffer
  const LENGTH: nat := 0                  // offsets of header fields
  const MBXTYPE: nat := 5

  // error codes, returned negated
  const PACKET_ERROR: int := 3
  const FOE_ERROR: int := 5
  const FOE_BUF2SMALL: int := 6
  const FOE_PACKETNUMBER: int := 7
  const FOE_FILE_NOTFOUND: int := 10
  const EOE_INVALID_RX_DATA: int := 11

  type Mbx = s: seq<byte> | |s| == MBX_BUF witness seq(MBX_BUF, _ => 0)
  type Failure = x: int | x <= 0
  type Success = x: int | x > 0 witness 1

  /** One exchange with the slave: the request does not reach it, it does not answer,
      or it answers. */
  datatype Outcome = Unsent(failed: Failure) | Silent(failed: Failure) | Answered(wkc: Success, reply: Mbx)

  function Wkc(o: Outcome): int {
    if o.Answered? then o.wkc else o.failed
  }

  /** Protocol of a mailbox message; the upper bits hold its counter. */
  function Kind(f: Mbx): byte {
    f[MBXTYPE] % 0x10
  }
}
