/** Reading the states of many slaves in one frame, and of all slaves in few frames. */
module StateCheck {
  import opened Bytes
  import opened EtherCat
  import opened Framing
  import opened FramingTheorems

  const ALSTAT: word := 0x0130            // ECT_REG_ALSTAT
  const ALSTATUS_SIZE: nat := 6           // state, unused, status code

  // ----- one frame -----

  /** Every slave answers the datagram with its address and that of the state register. */
  function Served(items: seq<Item>, status: word -> seq<byte>): (r: seq<Item>)
    ensures |r| == |items|
    ensures forall k :: 0 <= k < |items| ==> r[k] == ServedItem(items[k], status)
  {
    if items == [] then [] else [ServedItem(items[0], status)] + Served(items[1..], status)
  }

  function ServedItem(i: Item, status: word -> seq<byte>): Item {
    if i.d.command == CMD_FPRD && i.d.ado == ALSTAT && |i.d.data| == |status(i.d.adp)| then
      i.(d := i.d.(data := status(i.d.adp)), wkc := if i.wkc < 0xffff then i.wkc + 1 else 0)
    else i
  }

  lemma ServedSize(items: seq<Item>, status: word -> seq<byte>)
    requires ValidItems(items)
    ensures ValidItems(Served(items, status)) && |Encoded(Served(items, status))| == |Encoded(items)|
    decreases |items|
  {
    hide ItemBytes;
    forall i | i in Served(items, status)
      ensures |i.d.data| < 0x800
    {
      var k :| 0 <= k < |items| && Served(items, status)[k] == i;
      assert items[k] in items;
    }
    if items != [] {
      ServedSize(items[1..], status);
      assert Served(items, status)[1..] == Served(items[1..], status);
    }
  }

  /** The line takes a frame and gives it back with the answers in it. */
  ghost predicate Line(wire: seq<byte> -> seq<byte>, status: word -> seq<byte>) {
    && (forall a :: |status(a)| == ALSTATUS_SIZE)
    && forall items :: ValidItems(items) && |Encoded(items)| < 0x800 && ValidItems(Served(items, status))
         && |Encoded(Served(items, status))| < 0x800
         ==> wire(Received(items)) == Received(Served(items, status))
  }

  /** One state request, at its place in the list. */
  ghost predicate Request(i: Item, config: word) {
    i.d.command == CMD_FPRD && i.d.adp == config && i.d.ado == ALSTAT && |i.d.data| == ALSTATUS_SIZE
  }

  /** The first datagrams ask the slaves of the list, one after the other. */
  ghost predicate Requests(items: seq<Item>, configlst: seq<word>) {
    |items| <= |configlst| && forall k :: 0 <= k < |items| ==> Request(items[k], configlst[k])
  }

  method FprdMulti(tx: TxBuffer, idx: byte, configlst: seq<word>, wire: seq<byte> -> seq<byte>, arrives: bool,
                   slstatlst: seq<seq<byte>>, ghost status: word -> seq<byte>) returns (r: seq<seq<byte>>)
    requires tx.txbuf.Length == MAX_FRAME && 1 <= |configlst| <= MAX_FPRD_MULTI && |slstatlst| == |configlst|
    requires Line(wire, status)
    modifies tx, tx.txbuf
    ensures |r| == |configlst|
    ensures forall k :: 0 <= k < |r| ==> r[k] == if arrives then status(configlst[k]) else slstatlst[k]
  {
    hide Encoded, ItemBytes, Line, Received, DataOffset, Word, Requests;
    ghost var items;
    var sldatapos;
    items, sldatapos := BuildMulti(tx, idx, configlst);
    if arrives {
      FrameIsReceived(tx, items);
      var rx := wire(tx.txbuf[ETH_HEADER..tx.txbuflength]);
      r := [];
      for slcnt := 0 to |configlst|
        invariant |r| == slcnt
        invariant forall k :: 0 <= k < slcnt ==> r[k] == status(configlst[k])
      {
        AnswerFound(items, configlst, wire, status, slcnt);
        r := r + [rx[sldatapos[slcnt]..sldatapos[slcnt] + ALSTATUS_SIZE]];
      }
    } else {
      r := slstatlst;
    }
  }

  lemma FrameIsReceived(tx: TxBuffer, items: seq<Item>)
    requires tx.Frame(items)
    ensures |Encoded(items)| < 0x800 && tx.txbuf[ETH_HEADER..tx.txbuflength] == Received(items)
  {
    hide Encoded;
    var b := tx.txbuf[..];
    assert b[ETH_HEADER..START] == WordBytes(Word(b, ETH_HEADER));
    assert tx.txbuf[ETH_HEADER..tx.txbuflength] == b[ETH_HEADER..START] + tx.txbuf[START..tx.txbuflength];
  }

  /** The answer of slave number k, at the offset noted for it. */
  lemma AnswerFound(items: seq<Item>, configlst: seq<word>, wire: seq<byte> -> seq<byte>, status: word -> seq<byte>,
                    k: nat)
    requires ValidItems(items) && Requests(items, configlst) && k < |items| && |Encoded(items)| < 0x800
    requires Line(wire, status)
    ensures var at := DataOffset(items, k); var rx := wire(Received(items));
            at + ALSTATUS_SIZE <= |rx| && rx[at..at + ALSTATUS_SIZE] == status(configlst[k])
  {
    hide Encoded, ItemBytes, DataOffset, Received;
    var reply := Served(items, status);
    ServedSize(items, status);
    forall j | 0 <= j < |items|
      ensures |items[j].d.data| == |reply[j].d.data| && reply[j].d.data == status(configlst[j])
    {
      assert Request(items[j], configlst[j]) && |status(configlst[j])| == ALSTATUS_SIZE;
    }
    SameOffsets(items, reply, k);
    OffsetFindsData(reply, k);
  }

  /** A frame under construction: the requests so far, flagged, and where their data is. */
  ghost predicate Building(items: seq<Item>, configlst: seq<word>, sldatapos: seq<nat>) {
    && ValidItems(items) && Requests(items, configlst) && |items| == |sldatapos| > 0
    && (forall k :: 0 <= k < |items| ==> sldatapos[k] == DataOffset(items, k))
    && forall k :: 0 <= k < |items| ==> (items[k].more <==> |items| > 1)
  }

  lemma FirstRequest(item: Item, configlst: seq<word>)
    requires configlst != [] && Request(item, configlst[0]) && !item.more
    ensures Building([item], configlst, [EC_HEADER])
  {
    assert [item][..0] == [];
  }

  /** One more request; the last one leaves the flags of a complete frame. */
  lemma NextRequest(items: seq<Item>, configlst: seq<word>, sldatapos: seq<nat>, item: Item, at: nat)
    requires Building(items, configlst, sldatapos) && |items| < |configlst| && Request(item, configlst[|items|])
    requires ValidItems(Added(items, item)) && at == DataOffset(Added(items, item), |items|)
    ensures item.more ==> Building(Added(items, item), configlst, sldatapos + [at])
    ensures !item.more ==> FlagsRight(Added(items, item))
    ensures Requests(Added(items, item), configlst) && |Added(items, item)| == |items| + 1
    ensures forall k :: 0 <= k <= |items| ==> (sldatapos + [at])[k] == DataOffset(Added(items, item), k)
  {
    hide Encoded, ItemBytes, Request, DataOffset;
    var more := Added(items, item);
    forall k | 0 <= k < |items|
      ensures DataOffset(more, k) == DataOffset(items, k)
    {
      assert more[..k] == Flagged(items)[..k];
      OffsetOfPrefix(more, Flagged(items), k);
      SameOffsets(Flagged(items), items, k);
    }
    forall k | 0 <= k < |more|
      ensures Request(more[k], configlst[k])
    {
      if k < |items| {
        FlagKeepsRequest(items[k], configlst[k]);
      }
    }
  }

  lemma FlagKeepsRequest(i: Item, config: word)
    requires Request(i, config)
    ensures Request(i.(more := true), config)
  {
  }

  lemma OffsetOfPrefix(a: seq<Item>, b: seq<Item>, k: nat)
    requires ValidItems(a) && ValidItems(b) && k <= |a| && k <= |b| && a[..k] == b[..k]
    ensures DataOffset(a, k) == DataOffset(b, k)
  {
  }

  method BuildMulti(tx: TxBuffer, idx: byte, configlst: seq<word>) returns (ghost items: seq<Item>, sldatapos: seq<nat>)
    requires tx.txbuf.Length == MAX_FRAME && 1 <= |configlst| <= MAX_FPRD_MULTI
    modifies tx, tx.txbuf
    ensures tx.Frame(items) && FlagsRight(items) && Requests(items, configlst) && |items| == |sldatapos| == |configlst|
    ensures forall k :: 0 <= k < |items| ==> sldatapos[k] == DataOffset(items, k)
    ensures tx.txbuflength == START + |items| * (OVERHEAD + ALSTATUS_SIZE)
  {
    hide Encoded, ItemBytes, DataOffset, Word, Payload, Added, Building;
    var zero := seq(ALSTATUS_SIZE, _ => 0);
    ghost var item := tx.SetupDatagram(CMD_FPRD, idx, configlst[0], ALSTAT, zero);
    items := [item];
    sldatapos := [EC_HEADER];
    FirstRequest(item, configlst);
    var n := |configlst|;
    var slcnt := 1;
    while slcnt < n - 1
      invariant 1 <= slcnt <= n && |items| == slcnt == |sldatapos|
      invariant tx.Frame(items) && Building(items, configlst, sldatapos) && (n == 1 || slcnt < n)
      invariant tx.txbuflength == START + slcnt * (OVERHEAD + ALSTATUS_SIZE)
    {
      ghost var before := items;
      var at;
      at, item := tx.AddDatagram(CMD_FPRD, idx, true, configlst[slcnt], ALSTAT, zero, items);
      NextRequest(items, configlst, sldatapos, item, at);
      items := Added(items, item);
      sldatapos := sldatapos + [at];
      slcnt := slcnt + 1;
    }
    BuildingParts(items, configlst, sldatapos);
    if slcnt < n {
      var at;
      at, item := tx.AddDatagram(CMD_FPRD, idx, false, configlst[slcnt], ALSTAT, zero, items);
      NextRequest(items, configlst, sldatapos, item, at);
      items := Added(items, item);
      sldatapos := sldatapos + [at];
    }
  }

  lemma BuildingParts(items: seq<Item>, configlst: seq<word>, sldatapos: seq<nat>)
    requires Building(items, configlst, sldatapos)
    ensures ValidItems(items) && Requests(items, configlst)
    ensures forall k :: 0 <= k < |items| ==> sldatapos[k] == DataOffset(items, k)
    ensures |items| == 1 ==> FlagsRight(items)
  {
  }
}
