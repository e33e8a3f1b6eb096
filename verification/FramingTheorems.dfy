/** Frames parse back to their datagrams, and answers are found where they are. */
module FramingTheorems {
  import opened Bytes
  import opened EtherCat
  import opened Framing

  // ----- parsing -----

  datatype Parsed = Malformed | Datagrams(list: seq<Datagram>)

  /** Reads datagrams as long as the flag says that one follows. */
  function Parse(b: seq<byte>): Parsed
    decreases |b|
  {
    if |b| < OVERHEAD then Malformed
    else
      var length := Word(b, 6) % 0x800;
      if |b| < OVERHEAD + length then Malformed
      else
        var d := Datagram(b[0], b[1], Word(b, 2), Word(b, 4), Word(b, 8), b[10..10 + length]);
        if Word(b, 6) >= FOLLOWS then
          var rest := Parse(b[OVERHEAD + length..]);
          if rest.Malformed? then Malformed else Datagrams([d] + rest.list)
        else Datagrams([d])
  }

  function DatagramsOf(items: seq<Item>): (r: seq<Datagram>)
    ensures |r| == |items|
  {
    if items == [] then [] else [items[0].d] + DatagramsOf(items[1..])
  }

  /** Every datagram but the last is flagged. */
  predicate FlagsRight(items: seq<Item>) {
    items != [] && forall k :: 0 <= k < |items| ==> (items[k].more <==> k + 1 < |items|)
  }

  lemma ItemParsed(i: Item, rest: seq<byte>)
    requires |i.d.data| < 0x800
    ensures var b := ItemBytes(i) + rest;
            && |b| >= OVERHEAD + |i.d.data| && Word(b, 6) % 0x800 == |i.d.data| && (Word(b, 6) >= FOLLOWS <==> i.more)
            && Datagram(b[0], b[1], Word(b, 2), Word(b, 4), Word(b, 8), b[10..10 + |i.d.data|]) == i.d
            && b[OVERHEAD + |i.d.data|..] == rest
  {
    var b := ItemBytes(i) + rest;
    var h := HeaderBytes(i);
    assert b[0..10] == h && b[10..10 + |i.d.data|] == i.d.data;
    HeaderWords(i);
    WordInside(b, 0, h, 2);
    WordInside(b, 0, h, 4);
    WordInside(b, 0, h, 6);
    WordInside(b, 0, h, 8);
    assert b[0] == h[0] && b[1] == h[1];
  }

  lemma HeaderWords(i: Item)
    requires |i.d.data| < 0x800
    ensures var h := HeaderBytes(i);
            && h[0] == i.d.command && h[1] == i.d.index && Word(h, 2) == i.d.adp && Word(h, 4) == i.d.ado
            && Word(h, 6) == |i.d.data| + (if i.more then FOLLOWS else 0) && Word(h, 8) == i.d.irpt
  {
  }

  /** Main result.  The bytes of a frame parse back to its datagrams if and only if
      every datagram but the last one is flagged. */
  lemma {:induction false} ParsesBack(items: seq<Item>)
    requires ValidItems(items) && items != []
    ensures Parse(Encoded(items)) == Datagrams(DatagramsOf(items)) <==> FlagsRight(items)
    decreases |items|
  {
    hide ItemBytes, HeaderBytes, Word;
    var rest := items[1..];
    ItemParsed(items[0], Encoded(rest));
    if rest == [] {
      assert DatagramsOf(items) == [items[0].d];
      assert items[0].more ==> Parse([]).Malformed?;
    } else {
      ParsesBack(rest);
      FlagsTail(items);
      if items[0].more {
        var p := Parse(Encoded(rest));
        if p.Datagrams? {
          assert ([items[0].d] + p.list)[1..] == p.list && ([items[0].d] + DatagramsOf(rest))[1..] == DatagramsOf(rest);
        }
      }
    }
  }

  lemma FlagsTail(items: seq<Item>)
    requires |items| > 1
    ensures FlagsRight(items) <==> items[0].more && FlagsRight(items[1..])
  {
    if items[0].more && FlagsRight(items[1..]) {
      forall k | 0 <= k < |items|
        ensures items[k].more <==> k + 1 < |items|
      {
        if k > 0 {
          assert items[1..][k - 1] == items[k];
        }
      }
    }
    if FlagsRight(items) {
      assert forall k :: 0 <= k < |items| - 1 ==> items[1..][k] == items[k + 1];
    }
  }

  // ----- runs of setup and add -----

  /** What a setup and these adds leave in the frame. */
  function Built(first: Item, adds: seq<Item>): (items: seq<Item>)
    ensures |items| == 1 + |adds|
    decreases |adds|
  {
    if adds == [] then [first] else Added(Built(first, adds[..|adds| - 1]), adds[|adds| - 1])
  }

  lemma {:induction false} BuiltFlags(first: Item, adds: seq<Item>)
    ensures Built(first, adds)[0].more <==> first.more || adds != []
    ensures forall k :: 0 <= k < |adds| ==> Built(first, adds)[k + 1] == adds[k]
    decreases |adds|
  {
    if adds != [] {
      BuiltFlags(first, adds[..|adds| - 1]);
    }
  }

  /** Main result.  A setup and any number of adds give a frame that parses back, if
      and only if exactly the last add is told that nothing follows. */
  lemma AddsParseBack(first: Item, adds: seq<Item>)
    requires ValidItems(Built(first, adds)) && !first.more
    ensures Parse(Encoded(Built(first, adds))) == Datagrams(DatagramsOf(Built(first, adds)))
      <==> forall k :: 0 <= k < |adds| ==> (adds[k].more <==> k + 1 < |adds|)
  {
    hide Parse, Encoded, DatagramsOf, Built;
    var items := Built(first, adds);
    ParsesBack(items);
    BuiltFlags(first, adds);
    if FlagsRight(items) {
      forall k | 0 <= k < |adds|
        ensures adds[k].more <==> k + 1 < |adds|
      {
        assert items[k + 1] == adds[k];
      }
    }
    if forall k :: 0 <= k < |adds| ==> (adds[k].more <==> k + 1 < |adds|) {
      forall k | 0 <= k < |items|
        ensures items[k].more <==> k + 1 < |items|
      {
        if k > 0 {
          assert items[k - 1 + 1] == adds[k - 1];
        }
      }
    }
  }

  // ----- the received frame -----

  /** A received frame: the length word and the datagrams, without Ethernet header. */
  function Received(items: seq<Item>): seq<byte>
    requires ValidItems(items) && |Encoded(items)| < 0x800
  {
    WordBytes(ECAT_TYPE + |Encoded(items)|) + Encoded(items)
  }

  /** The length word points at the working counter of the last datagram. */
  lemma LengthFindsCounter(items: seq<Item>)
    requires ValidItems(items) && items != [] && |Encoded(items)| < 0x800
    ensures var rx := Received(items); var l := Word(rx, 0) % 0x1000;
            l + 2 == |rx| && Word(rx, l) == items[|items| - 1].wkc
  {
    hide ItemBytes, Encoded, Word;
    var n := |items| - 1;
    assert items == items[..n] + [items[n]];
    EncodedAppend(items[..n], [items[n]]);
    EncodedOne(items[n]);
    var rx := Received(items);
    WordInside(rx, 0, WordBytes(ECAT_TYPE + |Encoded(items)|), 0);
    EndsInCounter(items[n]);
    var b := ItemBytes(items[n]);
    assert rx[|rx| - |b|..|rx|] == b;
    WordInside(rx, |rx| - |b|, b, |b| - 2);
  }

  lemma EndsInCounter(i: Item)
    requires |i.d.data| < 0x800
    ensures var b := ItemBytes(i); Word(b, |b| - 2) == i.wkc && b[10..10 + |i.d.data|] == i.d.data
  {
    hide HeaderBytes;
    var b := ItemBytes(i);
    assert b[|b| - 2..|b|] == WordBytes(i.wkc);
    WordInside(b, |b| - 2, WordBytes(i.wkc), 0);
  }

  /** The offset of a datagram points at its data. */
  lemma OffsetFindsData(items: seq<Item>, k: nat)
    requires ValidItems(items) && k < |items| && |Encoded(items)| < 0x800
    ensures var at := DataOffset(items, k); var d := items[k].d.data;
            at + |d| <= |Received(items)| && Received(items)[at..at + |d|] == d
  {
    hide ItemBytes, Encoded, Word;
    assert items == items[..k] + ([items[k]] + items[k + 1..]);
    EncodedAppend(items[..k], [items[k]] + items[k + 1..]);
    EncodedAppend([items[k]], items[k + 1..]);
    EncodedOne(items[k]);
    EndsInCounter(items[k]);
    var rx, b := Received(items), ItemBytes(items[k]);
    var start := 2 + |Encoded(items[..k])|;
    assert rx[start..start + |b|] == b;
    SliceInside(rx, start, start + |b|, start + 10, start + 10 + |items[k].d.data|);
  }

  /** Offsets depend on the lengths only, so the answer has them where the request had. */
  lemma {:induction false} SameOffsets(a: seq<Item>, b: seq<Item>, k: nat)
    requires ValidItems(a) && ValidItems(b) && |a| == |b| && k <= |a|
    requires forall j :: 0 <= j < |a| ==> |a[j].d.data| == |b[j].d.data|
    ensures DataOffset(a, k) == DataOffset(b, k)
    decreases k
  {
    hide ItemBytes;
    if k == 0 {
      assert a[..0] == [] && b[..0] == [];
    } else {
      SameOffsets(a, b, k - 1);
      PrefixLength(a, k);
      PrefixLength(b, k);
    }
  }

  lemma PrefixLength(items: seq<Item>, k: nat)
    requires ValidItems(items) && 0 < k <= |items|
    ensures DataOffset(items, k) == DataOffset(items, k - 1) + OVERHEAD + |items[k - 1].d.data|
  {
    assert items[..k] == items[..k - 1] + [items[k - 1]];
    EncodedAppend(items[..k - 1], [items[k - 1]]);
    EncodedOne(items[k - 1]);
  }

  /** The commands NOP, APRD, FPRD, BRD and LRD are sent with zeros, all others with the
      data. */
  lemma PayloadMeans(command: byte, data: seq<byte>, k: nat)
    requires k < |data|
    ensures |Payload(command, data)| == |data|
    ensures Payload(command, data)[k] == if command in {0, 1, 4, 7, 10} then 0 else data[k]
  {
  }
}
