/** A frame of the cyclic exchange in bytes: how it is built, and where the receiver
    finds data, counters and clock in what comes back. */
module ProcessFrame {
  import opened Bytes
  import opened EtherCat
  import opened Framing
  import opened FramingTheorems
  import Exchange = CyclicExchange

  const CMD_LWR: byte := 11
  const CMD_LRW: byte := 12
  const CMD_FRMW: byte := 14
  const DCSYSTIME: word := 0x0910         // ECT_REG_DCSYSTIME
  const TIME_SIZE: nat := 8
  const CMD_OFFSET: nat := EC_LENGTH      // EC_CMDOFFSET

  function CommandByte(cmd: Exchange.Command): byte {
    match cmd
    case LRD => CMD_LRD
    case LWR => CMD_LWR
    case LRW => CMD_LRW
  }

  /** The process-data datagram of a piece: its command, its logical address, and the data
      unless it only reads. */
  ghost predicate IsPiece(i: Item, cmd: Exchange.Command, LogAdr: nat, data: seq<byte>) {
    && i.d.command == (match cmd case LRD => 10 case LWR => 11 case LRW => 12)
    && i.d.adp + 0x1_0000 * i.d.ado == LogAdr && |i.d.data| == |data|
    && forall k :: 0 <= k < |data| ==> i.d.data[k] == if cmd == Exchange.LRD then 0 else data[k]
  }

  /** Builds the frame of one piece, with the clock datagram if it is the first one. */
  method BuildFrame(tx: TxBuffer, idx: byte, cmd: Exchange.Command, LogAdr: nat, data: seq<byte>, first: bool,
                    configadr: word, DCtime: seq<byte>)
    returns (DCO: nat, ghost items: seq<Item>)
    requires tx.txbuf.Length == MAX_FRAME && |data| <= SEGMENT_LIMIT && LogAdr < 0x1_0000_0000 && |DCtime| == TIME_SIZE
    modifies tx, tx.txbuf
    ensures tx.Frame(items) && FlagsRight(items) && |items| == if first then 2 else 1
    ensures IsPiece(items[0], cmd, LogAdr, data)
    ensures first ==> items[1].d.command == CMD_FRMW && items[1].d.adp == configadr && items[1].d.ado == DCSYSTIME
                      && items[1].d.data == DCtime
    ensures DCO == if first then Exchange.ClockOffset(|data|) else 0
    ensures first ==> DCO == DataOffset(items, 1)
    ensures tx.txbuflength == START + OVERHEAD + |data| + if first then OVERHEAD + TIME_SIZE else 0
  {
    hide Encoded, ItemBytes, Word, Patch, DataOffset;
    var w1, w2 := LogAdr % 0x1_0000, LogAdr / 0x1_0000;
    DCO := 0;
    ghost var item := tx.SetupDatagram(CommandByte(cmd), idx, w1, w2, data);
    items := [item];
    if first {
      ghost var clock;
      DCO, clock := tx.AddDatagram(CMD_FRMW, idx, false, configadr, DCSYSTIME, DCtime, items);
      items := Added(items, clock);
      OffsetOfClock(items);
    }
  }

  lemma OffsetOfClock(items: seq<Item>)
    requires ValidItems(items) && |items| == 2
    ensures DataOffset(items, 1) == Exchange.ClockOffset(|items[0].d.data|)
  {
    hide ItemBytes;
    PrefixLength(items, 1);
    assert items[..0] == [];
  }

  // ----- what comes back -----

  function Bits(s: seq<byte>): seq<bv8> {
    seq(|s|, k requires 0 <= k < |s| => s[k] as bv8)
  }

  /** A 64-bit time, as it stands in eight bytes. */
  function Time(s: seq<byte>): int
    requires |s| == TIME_SIZE
  {
    var t := Long(s, 0) + 0x1_0000_0000 * Long(s, 4);
    if t < 0x8000_0000_0000_0000 then t else t - 0x1_0000_0000_0000_0000
  }

  /** What the receiver takes out of a frame for an entry of the index stack. */
  function ReplyIn(rx: seq<byte>, cmd: Exchange.Command, e: Exchange.Entry): Exchange.Reply
    requires EC_HEADER + e.length + WKC_SIZE <= |rx| && Word(rx, 0) % 0x1000 + 2 <= |rx|
    requires e.dcoffset + TIME_SIZE <= |rx|
  {
    Exchange.Reply(cmd, Bits(rx[EC_HEADER..EC_HEADER + e.length]), Word(rx, EC_HEADER + e.length),
                   Word(rx, Word(rx, 0) % 0x1000),
                   if e.dcoffset > 0 then Time(rx[e.dcoffset..e.dcoffset + TIME_SIZE]) else 0)
  }

  /** A frame that went round: the same datagrams, with other data and counters. */
  ghost predicate Returned(a: seq<Item>, b: seq<Item>) {
    && |a| == |b| && ValidItems(b)
    && forall k :: 0 <= k < |a| ==> |b[k].d.data| == |a[k].d.data| && b[k].d.command == a[k].d.command
  }

  /** The counter behind the data of the first datagram, and its command. */
  lemma FirstDatagram(items: seq<Item>)
    requires ValidItems(items) && items != [] && |Encoded(items)| < 0x800
    ensures var rx, n := Received(items), |items[0].d.data|;
            && EC_HEADER + n + WKC_SIZE <= |rx| && rx[CMD_OFFSET] == items[0].d.command
            && rx[EC_HEADER..EC_HEADER + n] == items[0].d.data && Word(rx, EC_HEADER + n) == items[0].wkc
  {
    hide HeaderBytes;
    var rx, b, n := Received(items), ItemBytes(items[0]), |items[0].d.data|;
    assert items == [items[0]] + items[1..];
    assert rx[EC_LENGTH..EC_LENGTH + |b|] == b;
    EndsInCounter(items[0]);
    WordInside(rx, EC_LENGTH, b, |b| - 2);
    SliceInside(rx, EC_LENGTH, EC_LENGTH + |b|, EC_HEADER, EC_HEADER + n);
    StartsWithCommand(items[0]);
    assert rx[EC_LENGTH] == b[0];
  }

  lemma StartsWithCommand(i: Item)
    requires |i.d.data| < 0x800
    ensures ItemBytes(i)[0] == i.d.command
  {
  }

  /** Main result.  For every frame of the exchange and whatever the slaves made of it,
      the receiver takes out the data and counter of the process-data datagram, the
      counter of the last datagram, and the time in the clock datagram. */
  lemma ReplyFound(sent: seq<Item>, back: seq<Item>, cmd: Exchange.Command, offset: nat, clock: bool)
    requires |sent| == (if clock then 2 else 1) && ValidItems(sent) && |Encoded(sent)| < 0x800
    requires sent[0].d.command == CommandByte(cmd) && (clock ==> |sent[1].d.data| == TIME_SIZE)
    requires Returned(sent, back)
    ensures |Encoded(back)| == |Encoded(sent)|
    ensures var n := |sent[0].d.data|;
            var e := Exchange.Entry(offset, n, if clock then Exchange.ClockOffset(n) else 0);
            var rx := Received(back);
            && rx[CMD_OFFSET] == CommandByte(cmd)
            && EC_HEADER + n + WKC_SIZE <= |rx| && Word(rx, 0) % 0x1000 + 2 <= |rx| && e.dcoffset + TIME_SIZE <= |rx|
            && ReplyIn(rx, cmd, e) == Exchange.Reply(cmd, Bits(back[0].d.data), back[0].wkc, back[|back| - 1].wkc,
                                                     if clock then Time(back[1].d.data) else 0)
  {
    hide Encoded, ItemBytes, Word, DataOffset, Received, Time, Bits;
    SameOffsets(sent, back, |sent|);
    SameEncodedLength(sent, back);
    FirstDatagram(back);
    LengthFindsCounter(back);
    if clock {
      OffsetOfClock(back);
      OffsetFindsData(back, 1);
    }
  }

  lemma SameEncodedLength(a: seq<Item>, b: seq<Item>)
    requires ValidItems(a) && ValidItems(b) && |a| == |b| && DataOffset(a, |a|) == DataOffset(b, |a|)
    ensures |Encoded(a)| == |Encoded(b)|
  {
    hide Encoded;
    assert a[..|a|] == a && b[..|b|] == b;
  }
}
