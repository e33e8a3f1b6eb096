/** Building a frame of datagrams in a transmit buffer. */
module Framing {
  import opened Bytes
  import opened EtherCat

  const ECAT_TYPE: nat := 0x1000          // EC_ECATTYPE
  const FOLLOWS: nat := 0x8000            // EC_DATAGRAMFOLLOWS
  const CMD_NOP: byte := 0
  const CMD_APRD: byte := 1
  const CMD_FPRD: byte := 4
  const CMD_BRD: byte := 7
  const CMD_LRD: byte := 10
  const START: nat := ETH_HEADER + EC_LENGTH  // first datagram
  const OVERHEAD: nat := 12                   // header and working counter of a datagram

  /** A datagram; the interrupt field is whatever the buffer held. */
  datatype Datagram = Datagram(command: byte, index: byte, adp: word, ado: word, irpt: word, data: seq<byte>)

  /** A datagram, its flag that another one follows, and its working counter. */
  datatype Item = Item(d: Datagram, more: bool, wkc: word)

  predicate ValidItems(items: seq<Item>) {
    forall i :: i in items ==> |i.d.data| < 0x800
  }

  function HeaderBytes(i: Item): (b: seq<byte>)
    requires |i.d.data| < 0x800
    ensures |b| == 10
  {
    [i.d.command, i.d.index] + WordBytes(i.d.adp) + WordBytes(i.d.ado)
    + WordBytes(|i.d.data| + if i.more then FOLLOWS else 0) + WordBytes(i.d.irpt)
  }

  function ItemBytes(i: Item): (b: seq<byte>)
    requires |i.d.data| < 0x800
    ensures |b| == OVERHEAD + |i.d.data|
  {
    HeaderBytes(i) + i.d.data + WordBytes(i.wkc)
  }

  function Encoded(items: seq<Item>): seq<byte>
    requires ValidItems(items)
  {
    if items == [] then [] else ItemBytes(items[0]) + Encoded(items[1..])
  }

  lemma {:induction false} EncodedAppend(items: seq<Item>, more: seq<Item>)
    requires ValidItems(items) && ValidItems(more)
    ensures Encoded(items + more) == Encoded(items) + Encoded(more)
    decreases |items|
  {
    if items == [] {
      assert items + more == more;
    } else {
      EncodedAppend(items[1..], more);
      assert (items + more)[1..] == items[1..] + more;
      assert ItemBytes(items[0]) + (Encoded(items[1..]) + Encoded(more)) == Encoded(items) + Encoded(more);
    }
  }

  /** Commands that only read are sent with zeros. */
  predicate ReadsOnly(command: byte) {
    command in {CMD_NOP, CMD_APRD, CMD_FPRD, CMD_BRD, CMD_LRD}
  }

  function Payload(command: byte, data: seq<byte>): (p: seq<byte>)
    ensures |p| == |data|
  {
    if ReadsOnly(command) then seq(|data|, _ => 0) else data
  }

  predicate Sent(i: Item, com: byte, idx: byte, adp: word, ado: word, more: bool, data: seq<byte>) {
    && i.d.command == com && i.d.index == idx && i.d.adp == adp && i.d.ado == ado
    && i.d.data == Payload(com, data) && i.more == more && i.wkc == 0
  }

  /** Adding a datagram sets the flag of the first one. */
  function Added(items: seq<Item>, item: Item): seq<Item>
    requires items != []
  {
    Flagged(items) + [item]
  }

  /** Where the data of datagram number k is in the received frame. */
  function DataOffset(items: seq<Item>, k: nat): nat
    requires k <= |items| && ValidItems(items)
  {
    EC_HEADER + |Encoded(items[..k])|
  }

  lemma EncodedOne(i: Item)
    requires |i.d.data| < 0x800
    ensures Encoded([i]) == ItemBytes(i)
  {
    assert [i][1..] == [];
  }

  lemma EncodedLength(items: seq<Item>)
    requires ValidItems(items) && items != []
    ensures |Encoded(items)| >= OVERHEAD + |items[0].d.data|
  {
  }

  /** A flag takes no room, and a datagram is added at the end. */
  lemma EncodedAdded(items: seq<Item>, item: Item)
    requires ValidItems(items) && items != [] && |item.d.data| < 0x800
    ensures ValidItems(Added(items, item)) && ValidItems(Flagged(items)) && |Added(items, item)| == |items| + 1
    ensures Encoded(Added(items, item)) == Encoded(Flagged(items)) + ItemBytes(item)
    ensures |Encoded(Flagged(items))| == |Encoded(items)| && Added(items, item)[..|items|] == Flagged(items)
  {
    assert Flagged(items)[1..] == items[1..];
    EncodedOne(item);
    EncodedAppend(Flagged(items), [item]);
    assert Added(items, item) == Flagged(items) + [item];
  }

  function Flagged(items: seq<Item>): seq<Item>
    requires items != []
  {
    [items[0].(more := true)] + items[1..]
  }

  /** Setting the flag in the length field of the first datagram. */
  lemma FlagFirst(s: seq<byte>, items: seq<Item>, end: nat)
    requires ValidItems(items) && items != [] && START <= end <= |s| && s[START..end] == Encoded(items)
    ensures START + 8 <= end
    ensures var w := Word(s, START + 6);
            && w == |items[0].d.data| + (if items[0].more then FOLLOWS else 0)
            && Patch(s, START + 6, WordBytes(if w < FOLLOWS then w + FOLLOWS else w))[START..end]
               == Encoded(Flagged(items))
  {
    var b := Encoded(items);
    var i := items[0];
    assert b[..OVERHEAD + |i.d.data|] == ItemBytes(i);
    WordInside(s, START, b, 6);
    assert Word(b, 6) == Word(HeaderBytes(i), 6);
    var dl := WordBytes(|i.d.data| + FOLLOWS);
    assert Patch(s, START + 6, dl)[START..end] == Patch(b, 6, dl);
    FlagItem(i, Encoded(items[1..]));
    assert Flagged(items)[1..] == items[1..];
  }

  lemma FlagItem(i: Item, rest: seq<byte>)
    requires |i.d.data| < 0x800
    ensures Patch(ItemBytes(i) + rest, 6, WordBytes(|i.d.data| + FOLLOWS)) == ItemBytes(i.(more := true)) + rest
  {
  }

  /** Writing elsewhere. */
  lemma PatchKeeps(s: seq<byte>, at: nat, data: seq<byte>, lo: nat, hi: nat)
    requires at + |data| <= |s| && lo <= hi <= |s| && (hi <= at || at + |data| <= lo)
    ensures Patch(s, at, data)[lo..hi] == s[lo..hi]
    ensures hi - lo == 2 ==> Word(Patch(s, at, data), lo) == Word(s, lo)
  {
  }

  /** The length field and the flag. */
  lemma WithFlag(s0: seq<byte>, items: seq<Item>, end: nat, length: word) returns (s2: seq<byte>)
    requires ValidItems(items) && items != [] && START <= end <= |s0| && s0[START..end] == Encoded(items)
    ensures START + 8 <= end
    ensures var s1 := Patch(s0, ETH_HEADER, WordBytes(length));
            var w := Word(s1, START + 6);
            s2 == Patch(s1, START + 6, WordBytes(if w < FOLLOWS then w + FOLLOWS else w))
    ensures s2[START..end] == Encoded(Flagged(items)) && Word(s2, ETH_HEADER) == length
    ensures s2[..ETH_HEADER] == s0[..ETH_HEADER]
  {
    hide ItemBytes, Word, Encoded, Patch, WordBytes;
    EncodedLength(items);
    var s1 := Patch(s0, ETH_HEADER, WordBytes(length));
    PatchKeeps(s0, ETH_HEADER, WordBytes(length), START, end);
    WordInside(s1, ETH_HEADER, WordBytes(length), 0);
    FlagFirst(s1, items, end);
    var w := Word(s1, START + 6);
    var dl := WordBytes(if w < FOLLOWS then w + FOLLOWS else w);
    s2 := Patch(s1, START + 6, dl);
    PatchKeeps(s1, START + 6, dl, ETH_HEADER, START);
    PatchKeeps(s0, ETH_HEADER, WordBytes(length), 0, ETH_HEADER);
    PatchKeeps(s1, START + 6, dl, 0, ETH_HEADER);
  }

  lemma ItemAppended(s2: seq<byte>, items: seq<Item>, item: Item, end: nat)
    requires ValidItems(items) && items != [] && |item.d.data| < 0x800
    requires START <= end && end + OVERHEAD + |item.d.data| <= |s2|
    requires ValidItems(Flagged(items)) && s2[START..end] == Encoded(Flagged(items))
    ensures var s3 := Patch(s2, end, ItemBytes(item));
            && ValidItems(Added(items, item)) && Word(s3, ETH_HEADER) == Word(s2, ETH_HEADER)
            && s3[..ETH_HEADER] == s2[..ETH_HEADER]
            && s3[START..end + OVERHEAD + |item.d.data|] == Encoded(Added(items, item))
            && DataOffset(Added(items, item), |items|) == end + EC_HEADER - EC_LENGTH - ETH_HEADER
  {
    hide ItemBytes, Word, Encoded, Patch, Added, Flagged;
    var s3 := Patch(s2, end, ItemBytes(item));
    PatchKeeps(s2, end, ItemBytes(item), 0, ETH_HEADER);
    PatchKeeps(s2, end, ItemBytes(item), ETH_HEADER, START);
    PatchKeeps(s2, end, ItemBytes(item), START, end);
    EncodedAdded(items, item);
    assert s3[START..end + |ItemBytes(item)|] == s3[START..end] + s3[end..end + |ItemBytes(item)|];
  }

  class TxBuffer {
    const txbuf: array<byte>
    var txbuflength: nat

    constructor ()
      ensures fresh(txbuf) && txbuf.Length == MAX_FRAME
    {
      txbuf := new byte[MAX_FRAME](_ => 0);
      txbuflength := 0;
    }

    /** The frame holds these datagrams; the length field counts the bytes after it. */
    ghost predicate Frame(items: seq<Item>)
      reads this, txbuf
    {
      && txbuf.Length == MAX_FRAME && ValidItems(items) && START <= txbuflength <= MAX_FRAME
      && txbuf[START..txbuflength] == Encoded(items)
      && Word(txbuf[..], ETH_HEADER) == ECAT_TYPE + txbuflength - START
    }

    /** Command to length field of a datagram header; the interrupt field stays. */
    method WriteHeader(at: nat, com: byte, idx: byte, adp: word, ado: word, dlength: word)
      requires at + 10 <= txbuf.Length
      modifies txbuf
      ensures txbuf[..] == Patch(old(txbuf[..]), at,
                                 [com, idx] + WordBytes(adp) + WordBytes(ado) + WordBytes(dlength))
    {
      hide WordBytes;
      Copy(txbuf, at, [com, idx]);
      CopyWord(txbuf, at + 2, adp);
      PatchPatch(old(txbuf[..]), at, [com, idx], WordBytes(adp));
      CopyWord(txbuf, at + 4, ado);
      PatchPatch(old(txbuf[..]), at, [com, idx] + WordBytes(adp), WordBytes(ado));
      CopyWord(txbuf, at + 6, dlength);
      PatchPatch(old(txbuf[..]), at, [com, idx] + WordBytes(adp) + WordBytes(ado), WordBytes(dlength));
    }

    /** Header, data and zero working counter from `at` on. */
    method WriteDatagram(at: nat, com: byte, idx: byte, adp: word, ado: word, more: bool, data: seq<byte>)
      returns (ghost item: Item)
      requires txbuf.Length == MAX_FRAME && |data| < 0x800 && at + OVERHEAD + |data| <= MAX_FRAME
      modifies txbuf
      ensures item == Item(Datagram(com, idx, adp, ado, old(Word(txbuf[..], at + 8)), Payload(com, data)), more, 0)
      ensures txbuf[..] == Patch(old(txbuf[..]), at, ItemBytes(item))
    {
      hide WordBytes, Payload;
      ghost var before := txbuf[..];
      item := Item(Datagram(com, idx, adp, ado, Word(txbuf[..], at + 8), Payload(com, data)), more, 0);
      var dlength := |data| + if more then FOLLOWS else 0;
      WriteHeader(at, com, idx, adp, ado, dlength);
      HeaderKeeps(before, at, item);
      Copy(txbuf, at + 10, Payload(com, data));
      PatchPatch(before, at, HeaderBytes(item), item.d.data);
      Copy(txbuf, at + 10 + |data|, [0x00, 0x00]);
      ZeroBytes();
      PatchPatch(before, at, HeaderBytes(item) + item.d.data, [0, 0]);
    }

    method SetupDatagram(com: byte, idx: byte, adp: word, ado: word, data: seq<byte>) returns (ghost item: Item)
      requires txbuf.Length == MAX_FRAME && START + OVERHEAD + |data| <= MAX_FRAME
      modifies this, txbuf
      ensures Sent(item, com, idx, adp, ado, false, data) && Frame([item])
      ensures txbuflength == START + OVERHEAD + |data|
      ensures txbuf[..ETH_HEADER] == old(txbuf[..ETH_HEADER])
    {
      hide ItemBytes, Payload, WordBytes, Word;
      CopyWord(txbuf, ETH_HEADER, ECAT_TYPE + EC_HEADER + |data|);
      ghost var s1 := txbuf[..];
      item := WriteDatagram(START, com, idx, adp, ado, false, data);
      txbuflength := ETH_HEADER + EC_HEADER + WKC_SIZE + |data|;
      EncodedOne(item);
      PatchKeeps(s1, START, ItemBytes(item), ETH_HEADER, START);
      assert txbuf[..ETH_HEADER] == s1[..ETH_HEADER];
    }

    /** Adds a datagram; returns where its data will be in the received frame, which
        comes without the Ethernet header. */
    method AddDatagram(com: byte, idx: byte, more: bool, adp: word, ado: word, data: seq<byte>, ghost items: seq<Item>)
      returns (offset: nat, ghost item: Item)
      requires Frame(items) && items != [] && txbuflength + OVERHEAD + |data| <= MAX_FRAME
      modifies this, txbuf
      ensures Sent(item, com, idx, adp, ado, more, data) && Frame(Added(items, item))
      ensures offset == DataOffset(Added(items, item), |items|)
      ensures txbuflength == old(txbuflength) + OVERHEAD + |data|
      ensures txbuf[..ETH_HEADER] == old(txbuf[..ETH_HEADER])
    {
      hide ItemBytes, Payload, WordBytes, Word, Encoded, Patch, DataOffset, Added;
      var prevlength := txbuflength;
      ghost var s0 := txbuf[..];
      CopyWord(txbuf, ETH_HEADER, Word(txbuf[..], ETH_HEADER) + EC_HEADER + |data|);
      var dlength: nat := Word(txbuf[..], START + 6);
      if dlength < FOLLOWS {
        dlength := dlength + FOLLOWS;
      }
      CopyWord(txbuf, START + 6, dlength);
      ghost var s2 := WithFlag(s0, items, prevlength, Word(s0, ETH_HEADER) + EC_HEADER + |data|);
      item := WriteDatagram(prevlength, com, idx, adp, ado, more, data);
      txbuflength := prevlength + EC_HEADER - EC_LENGTH + WKC_SIZE + |data|;
      offset := prevlength + EC_HEADER - EC_LENGTH - ETH_HEADER;
      ItemAppended(s2, items, item, prevlength);
    }
  }

  lemma ZeroBytes()
    ensures WordBytes(0) == [0, 0]
  {
  }

  lemma PatchPatch(s: seq<byte>, at: nat, a: seq<byte>, b: seq<byte>)
    requires at + |a| + |b| <= |s|
    ensures Patch(Patch(s, at, a), at + |a|, b) == Patch(s, at, a + b)
  {
  }

  /** The interrupt field left alone counts as written. */
  lemma HeaderKeeps(s: seq<byte>, at: nat, i: Item)
    requires |i.d.data| < 0x800 && at + 10 <= |s| && i.d.irpt == Word(s, at + 8)
    ensures Patch(s, at, [i.d.command, i.d.index] + WordBytes(i.d.adp) + WordBytes(i.d.ado)
                         + WordBytes(|i.d.data| + if i.more then FOLLOWS else 0)) == Patch(s, at, HeaderBytes(i))
  {
    hide WordBytes, Patch, Word;
    SliceWord(s, at + 8);
    TailKept(s, at, [i.d.command, i.d.index] + WordBytes(i.d.adp) + WordBytes(i.d.ado)
                    + WordBytes(|i.d.data| + if i.more then FOLLOWS else 0), WordBytes(i.d.irpt));
  }

  lemma SliceWord(s: seq<byte>, i: nat)
    requires i + 2 <= |s|
    ensures WordBytes(Word(s, i)) == s[i..i + 2]
  {
  }

  /** Writing over bytes with themselves. */
  lemma TailKept(s: seq<byte>, at: nat, a: seq<byte>, b: seq<byte>)
    requires at + |a| + |b| <= |s| && s[at + |a|..at + |a| + |b|] == b
    ensures Patch(s, at, a + b) == Patch(s, at, a)
  {
  }
}
