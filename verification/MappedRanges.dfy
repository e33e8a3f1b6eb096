/** The FMMUs of a mapped group cover exactly the ranges of its layout. */
module MappedRanges {
  import opened EtherCat
  import opened Packing
  import opened Mapping
  import opened ImageLayout
  import opened ImageTheorems
  import Exchange = ExchangeTheorems
  import MappingTheorems

  /** The bytes of a span. */
  function BytesOf(s: Span): Exchange.Range {
    Exchange.Range(Lo(s), Hi(s))
  }

  /** From the first byte of the first FMMU to the last byte of the last one. */
  function RangeOf(fmmus: seq<Fmmu>): Exchange.Range
    requires fmmus != []
  {
    var last := fmmus[|fmmus| - 1];
    Exchange.Range(fmmus[0].logStart, last.logStart + last.logLength)
  }

  lemma {:induction false} TileEnds(fmmus: seq<Fmmu>, from: nat, to: nat)
    requires fmmus != [] && MappingTheorems.Tile(fmmus, from, to)
    ensures RangeOf(fmmus) == Exchange.Range(from, to)
    decreases |fmmus|
  {
    if |fmmus| > 1 {
      TileEnds(fmmus[1..], from + fmmus[0].logLength, to);
    } else {
      assert fmmus[1..] == [];
    }
  }

  /** The FMMUs of one direction of one slave. */
  lemma FmmuBytes(sms: seq<Sm>, kind: nat, bits: nat, c: Cursor)
    requires bits > 0 && ValidSms(sms, kind, bits) && c.bit < 8
    ensures Fmmus(sms, kind, bits, c.log, c.bit) != []
    ensures RangeOf(Fmmus(sms, kind, bits, c.log, c.bit)) == BytesOf(SpanAt(c, bits))
  {
    FmmusNonEmpty(sms, kind, bits, c.log, c.bit);
    if BitOriented(bits) {
      BitBytes(sms[NextOfKind(sms, kind, 0)].start, bits, c);
    } else {
      hide Fmmus, MappingTheorems.Tile;
      MappingTheorems.FmmusCoverRange(sms, kind, bits, c.log, c.bit);
      TileEnds(Fmmus(sms, kind, bits, c.log, c.bit), SpanAt(c, bits).start / 8, SpanAt(c, bits).end / 8);
    }
  }

  lemma BitBytes(phys: nat, bits: nat, c: Cursor)
    requires 1 <= bits <= 7 && c.bit < 8
    ensures RangeOf([BitFmmu(phys, bits, c.log, c.bit)]) == BytesOf(SpanAt(c, bits))
  {
  }

  /** The same slaves with more FMMUs. */
  ghost predicate Grown(before: seq<IoSlave>, after: seq<IoSlave>) {
    |before| == |after| && forall k :: 0 <= k < |before| ==> |before[k].fmmus| <= |after[k].fmmus|
  }

  /** What the new FMMUs of the slaves 1 .. n - 1 cover, slave by slave. */
  ghost function NewRanges(before: seq<IoSlave>, after: seq<IoSlave>, n: nat): seq<Exchange.Range>
    requires Grown(before, after) && n <= |before|
  {
    if n <= 1 then []
    else
      var more := after[n - 1].fmmus[|before[n - 1].fmmus|..];
      NewRanges(before, after, n - 1) + if more == [] then [] else [RangeOf(more)]
  }

  /** What becomes of each slave. */
  lemma {:induction false} MappedListAt(list: seq<IoSlave>, out: bool, group: nat, logstart: nat, aligned: bool,
                                        from: Progress, n: nat, k: nat)
    requires n <= |list| && AllMappable(list, out) && from.at.bit < 8 && k < |list|
    ensures Advanced(from, Demands(list, out, group, k), aligned).at.bit < 8
    ensures MappedList(list, out, group, logstart, aligned, from, n)[k] ==
      if 1 <= k < n
      then Mapped(list[k], out, group, logstart, Advanced(from, Demands(list, out, group, k), aligned).at)
      else list[k]
    decreases n
  {
    hide Advanced, Demands, Mapped;
    DemandsAt(list, out, group, aligned, from, k);
    if n > 1 {
      MappedListAt(list, out, group, logstart, aligned, from, n - 1, k);
    }
  }

  lemma {:induction false} SpansAppend(c: Cursor, demands: seq<nat>, bits: nat, aligned: bool)
    ensures Spans(c, demands + [bits], aligned)
      == Spans(c, demands, aligned) + if bits == 0 then [] else [SpanAt(End(c, demands, aligned), bits)]
    decreases |demands|
  {
    if demands == [] {
      assert [] + [bits] == [bits] && [bits][1..] == [];
    } else {
      assert (demands + [bits])[1..] == demands[1..] + [bits];
      SpansAppend(if demands[0] == 0 then c else Next(c, demands[0], aligned), demands[1..], bits, aligned);
    }
  }

  function AllBytesOf(spans: seq<Span>): seq<Exchange.Range> {
    seq(|spans|, k requires 0 <= k < |spans| => BytesOf(spans[k]))
  }

  /** What one slave gains. */
  lemma NewFmmus(s: IoSlave, out: bool, group: nat, logstart: nat, c: Cursor)
    requires Mappable(s, out) && c.bit < 8
    ensures var r := Mapped(s, out, group, logstart, c);
            && |s.fmmus| <= |r.fmmus|
            && if Member(s, group) && Bits(s, out) > 0
               then r.fmmus[|s.fmmus|..] != [] && RangeOf(r.fmmus[|s.fmmus|..]) == BytesOf(SpanAt(c, Bits(s, out)))
               else r.fmmus[|s.fmmus|..] == []
  {
    hide Fmmus, RangeOf, BytesOf, ValidSms;
    if Member(s, group) && Bits(s, out) > 0 {
      FmmuBytes(s.sms, Kind(out), Bits(s, out), c);
      var f := Fmmus(s.sms, Kind(out), Bits(s, out), c.log, c.bit);
      assert (s.fmmus + f)[|s.fmmus|..] == f;
    }
  }

  /** What all slaves gain in one direction. */
  lemma {:induction false} DirectionRanges(list: seq<IoSlave>, out: bool, group: nat, logstart: nat, aligned: bool,
                                           from: Progress, n: nat)
    requires n <= |list| && AllMappable(list, out) && from.at.bit < 8
    ensures var r := MappedList(list, out, group, logstart, aligned, from, |list|);
            && Grown(list, r)
            && NewRanges(list, r, n) == AllBytesOf(Spans(from.at, Demands(list, out, group, n), aligned))
    decreases n
  {
    hide Advanced, Mapped, Spans, MappedList, RangeOf, BytesOf;
    var r := MappedList(list, out, group, logstart, aligned, from, |list|);
    forall k | 0 <= k < |list|
      ensures |list[k].fmmus| <= |r[k].fmmus|
    {
      MappedListAt(list, out, group, logstart, aligned, from, |list|, k);
      if k > 0 {
        NewFmmus(list[k], out, group, logstart, Advanced(from, Demands(list, out, group, k), aligned).at);
      }
    }
    if n <= 1 {
      NoSpans(from.at, aligned);
    } else {
      var k := n - 1;
      var before := Demands(list, out, group, k);
      var at := Advanced(from, before, aligned).at;
      DirectionRanges(list, out, group, logstart, aligned, from, k);
      MappedListAt(list, out, group, logstart, aligned, from, |list|, k);
      NewFmmus(list[k], out, group, logstart, at);
      SpansAppend(from.at, before, Bits(list[k], out), aligned);
      AdvancedAt(from, before, aligned);
      assert before + [] == before;
    }
  }

  lemma AdvancedAt(from: Progress, demands: seq<nat>, aligned: bool)
    ensures Advanced(from, demands, aligned).at == End(from.at, demands, aligned)
  {
  }

  lemma NoSpans(c: Cursor, aligned: bool)
    ensures AllBytesOf(Spans(c, [], aligned)) == []
  {
  }

  /** The slave list between the two directions. */
  function OutputsMapped(list: seq<IoSlave>, group: nat, logstart: nat, aligned: bool): seq<IoSlave>
    requires 1 <= |list| && AllMappable(list, true)
  {
    MappedList(list, true, group, logstart, aligned, Progress(Cursor(logstart, 0), EMPTY, 0), |list|)
  }

  /** Main result.  The FMMUs that the mapping of a group adds for outputs and for inputs
      cover exactly the ranges of its layout, in order. */
  lemma FmmusCoverLayout(list: seq<IoSlave>, group: nat, logstart: nat, aligned: bool)
    requires 1 <= |list| && AllMappable(list, true) && AllMappable(list, false)
    ensures var outs, ins := Demands(list, true, group, |list|), Demands(list, false, group, |list|);
            var mid, end := OutputsMapped(list, group, logstart, aligned), GroupList(list, group, logstart, aligned);
            && Grown(list, mid) && Grown(mid, end)
            && NewRanges(list, mid, |list|) == AllBytesOf(OutSpans(logstart, outs, aligned))
            && NewRanges(mid, end, |list|) == AllBytesOf(InSpans(logstart, outs, ins, aligned))
  {
    hide MappedList, Spans, Demands, NewRanges, Grown, PackAll, OutBlocks;
    var from := Progress(Cursor(logstart, 0), EMPTY, 0);
    var outs := Demands(list, true, group, |list|);
    var mid := OutputsMapped(list, group, logstart, aligned);
    OutputsKeepInputs(list, group, logstart, aligned, from, |list|);
    DemandsAt(list, true, group, aligned, from, |list|);
    SameInDemands(list, mid, group, |list|);
    DirectionRanges(list, true, group, logstart, aligned, from, |list|);
    var next := Progress(Flushed(End(from.at, outs, aligned)), PackAll(EMPTY, OutBlocks(from.at, outs, aligned)), 0);
    DirectionRanges(mid, false, group, logstart, aligned, next, |list|);
  }

  // ----- where each slave finds its data -----

  lemma {:induction false} SpansCount(c: Cursor, demands: seq<nat>, aligned: bool)
    ensures |Spans(c, demands, aligned)| == Active(demands)
    decreases |demands|
  {
    if demands != [] {
      SpansCount(if demands[0] == 0 then c else Next(c, demands[0], aligned), demands[1..], aligned);
    }
  }

  /** The number of a slave among those that want bits. */
  function Rank(list: seq<IoSlave>, out: bool, group: nat, k: nat): nat
    requires k <= |list|
  {
    Active(Demands(list, out, group, k))
  }

  /** A slave of the group that wants bits. */
  predicate Wants(s: IoSlave, out: bool, group: nat) {
    Member(s, group) && Bits(s, out) > 0
  }

  /** The span of slave k is the one of its number. */
  lemma {:induction false} SpanOfSlave(list: seq<IoSlave>, out: bool, group: nat, aligned: bool, c: Cursor, n: nat,
                                       k: nat)
    requires 1 <= k < n <= |list| && Wants(list[k], out, group)
    ensures var spans, j := Spans(c, Demands(list, out, group, n), aligned), Rank(list, out, group, k);
            && j < |spans|
            && spans[j] == SpanAt(End(c, Demands(list, out, group, k), aligned), Bits(list[k], out))
    decreases n
  {
    hide Spans, SpanAt, End, Member;
    var before, last := Demands(list, out, group, n - 1), list[n - 1];
    assert before + [] == before;
    SpansAppend(c, before, Bits(last, out), aligned);
    SpansCount(c, before, aligned);
    if k < n - 1 {
      SpanOfSlave(list, out, group, aligned, c, n - 1, k);
    }
  }

  /** The offset and start bit of a slave name the first bit of its span. */
  ghost predicate PointsTo(at: Option, startbit: nat, s: Span, group: nat, logstart: nat) {
    && at.Some? && startbit < 8
    && 8 * at.value + startbit == s.start - if group == 0 then 0 else 8 * logstart
  }

  lemma FirstFmmu(sms: seq<Sm>, kind: nat, bits: nat, c: Cursor)
    requires bits > 0 && ValidSms(sms, kind, bits) && c.bit < 8
    ensures var f := Fmmus(sms, kind, bits, c.log, c.bit);
            f != [] && 8 * f[0].logStart + f[0].startBit == SpanAt(c, bits).start && f[0].startBit < 8
  {
    FmmusNonEmpty(sms, kind, bits, c.log, c.bit);
    hide Fmmus, ValidSms, MappingTheorems.FirstOfKind, RangeEnd;
    if BitOriented(bits) {
      MappingTheorems.BitsMapped(sms, kind, bits, c.log, c.bit);
    } else {
      hide RangeStart, MappingTheorems.Tile;
      MappingTheorems.FmmusCoverRange(sms, kind, bits, c.log, c.bit);
      TileStart(Fmmus(sms, kind, bits, c.log, c.bit), RangeStart(bits, 8 * c.log + c.bit));
    }
  }

  lemma TileStart(fmmus: seq<Fmmu>, start: nat)
    requires fmmus != [] && start % 8 == 0
    ensures forall to :: MappingTheorems.Tile(fmmus, start / 8, to) ==>
              8 * fmmus[0].logStart + fmmus[0].startBit == start && fmmus[0].startBit == 0
  {
  }

  /** What becomes of one slave. */
  ghost predicate MappedTo(s: IoSlave, r: IoSlave, out: bool, group: nat, logstart: nat, c: Cursor)
    requires Mappable(s, out) && c.bit < 8
  {
    if Wants(s, out, group) then
      && PointsTo(if out then r.outputs else r.inputs, if out then r.ostartbit else r.istartbit,
                  SpanAt(c, Bits(s, out)), group, logstart)
      && r.fmmus == s.fmmus + Fmmus(s.sms, Kind(out), Bits(s, out), c.log, c.bit)
    else r == s
  }

  lemma SlavePointers(s: IoSlave, out: bool, group: nat, logstart: nat, c: Cursor)
    requires Mappable(s, out) && c.bit < 8
    ensures MappedTo(s, Mapped(s, out, group, logstart, c), out, group, logstart, c)
    ensures var r := Mapped(s, out, group, logstart, c);
            if out then r.inputs == s.inputs && r.istartbit == s.istartbit
            else r.outputs == s.outputs && r.ostartbit == s.ostartbit
  {
    hide Fmmus, ValidSms, SpanAt;
    if Wants(s, out, group) {
      FirstFmmu(s.sms, Kind(out), Bits(s, out), c);
    }
  }

  /** What the application finds at slave k: its outputs and inputs start at the first bit
      of its own spans, and a direction without bits has none. */
  ghost predicate Found(list: seq<IoSlave>, end: seq<IoSlave>, k: nat, group: nat, logstart: nat,
                        outSpans: seq<Span>, inSpans: seq<Span>)
    requires k < |list| == |end|
  {
    var s, r := list[k], end[k];
    var i, j := Rank(list, true, group, k), Rank(list, false, group, k);
    && (if (group == 0 || s.group == group) && s.obits > 0
        then i < |outSpans| && PointsTo(r.outputs, r.ostartbit, outSpans[i], group, logstart)
        else r.outputs == None && r.ostartbit == s.ostartbit)
    && (if (group == 0 || s.group == group) && s.ibits > 0
        then j < |inSpans| && PointsTo(r.inputs, r.istartbit, inSpans[j], group, logstart)
        else r.inputs == None && r.istartbit == s.istartbit)
  }

  /** The two passes over slave k. */
  lemma TwoPasses(list: seq<IoSlave>, group: nat, logstart: nat, aligned: bool, k: nat)
    requires 1 <= k < |list| && AllMappable(list, true) && AllMappable(list, false)
    ensures var c0 := Cursor(logstart, 0);
            var c1 := Flushed(End(c0, Demands(list, true, group, |list|), aligned));
            var at := End(c0, Demands(list, true, group, k), aligned);
            var at2 := End(c1, Demands(list, false, group, k), aligned);
            && at.bit < 8 && at2.bit < 8 && Mappable(Mapped(list[k], true, group, logstart, at), false)
            && GroupList(list, group, logstart, aligned)[k]
               == Mapped(Mapped(list[k], true, group, logstart, at), false, group, logstart, at2)
  {
    hide Demands, PackAll, OutBlocks, Mapped, End, Spans, ValidSms;
    var from := Progress(Cursor(logstart, 0), EMPTY, 0);
    var outs := Demands(list, true, group, |list|);
    var mid := OutputsMapped(list, group, logstart, aligned);
    OutputsKeepInputs(list, group, logstart, aligned, from, |list|);
    DemandsAt(list, true, group, aligned, from, |list|);
    var next := Progress(Flushed(End(from.at, outs, aligned)), PackAll(EMPTY, OutBlocks(from.at, outs, aligned)), 0);
    MappedListAt(list, true, group, logstart, aligned, from, |list|, k);
    MappedListAt(mid, false, group, logstart, aligned, next, |list|, k);
    SameInDemands(list, mid, group, k);
    AdvancedAt(from, Demands(list, true, group, k), aligned);
    AdvancedAt(next, Demands(list, false, group, k), aligned);
  }

  /** Main result.  After the mapping of a group the offsets and start bits that the
      application uses name the first bit of each slave's own spans. */
  lemma SlavesFindTheirData(list: seq<IoSlave>, group: nat, logstart: nat, aligned: bool)
    requires 1 <= |list| && AllMappable(list, true) && AllMappable(list, false)
    ensures var outs, ins := Demands(list, true, group, |list|), Demands(list, false, group, |list|);
            var end := GroupList(list, group, logstart, aligned);
            && |end| == |list| && end[0] == list[0]
            && forall k: nat :: 1 <= k < |list| ==>
                 Found(list, end, k, group, logstart, OutSpans(logstart, outs, aligned),
                       InSpans(logstart, outs, ins, aligned))
  {
    var end := GroupList(list, group, logstart, aligned);
    MasterKept(list, group, logstart, aligned);
    hide GroupList;
    var outs, ins := Demands(list, true, group, |list|), Demands(list, false, group, |list|);
    forall k: nat | 1 <= k < |list|
      ensures Found(list, end, k, group, logstart, OutSpans(logstart, outs, aligned),
                    InSpans(logstart, outs, ins, aligned))
    {
      SlaveFindsItsData(list, group, logstart, aligned, k);
    }
  }

  lemma MasterKept(list: seq<IoSlave>, group: nat, logstart: nat, aligned: bool)
    requires 1 <= |list| && AllMappable(list, true) && AllMappable(list, false)
    ensures var end := GroupList(list, group, logstart, aligned); |end| == |list| && end[0] == list[0]
  {
    hide Demands, PackAll, OutBlocks, End, MappedList;
    var from := Progress(Cursor(logstart, 0), EMPTY, 0);
    var outs := Demands(list, true, group, |list|);
    var mid := OutputsMapped(list, group, logstart, aligned);
    OutputsKeepInputs(list, group, logstart, aligned, from, |list|);
    DemandsAt(list, true, group, aligned, from, |list|);
    var next := Progress(Flushed(End(from.at, outs, aligned)), PackAll(EMPTY, OutBlocks(from.at, outs, aligned)), 0);
    MappedListKeepsRest(list, true, group, logstart, aligned, from, |list|);
    MappedListKeepsRest(mid, false, group, logstart, aligned, next, |list|);
  }

  lemma SlaveFindsItsData(list: seq<IoSlave>, group: nat, logstart: nat, aligned: bool, k: nat)
    requires 1 <= k < |list| && AllMappable(list, true) && AllMappable(list, false)
    ensures var outs, ins := Demands(list, true, group, |list|), Demands(list, false, group, |list|);
            var end := GroupList(list, group, logstart, aligned);
            && |end| == |list|
            && Found(list, end, k, group, logstart, OutSpans(logstart, outs, aligned),
                     InSpans(logstart, outs, ins, aligned))
  {
    MasterKept(list, group, logstart, aligned);
    hide Demands, Mapped, End, Spans, SpanAt, ValidSms, Fmmus, Rank, GroupList, Flushed;
    var c0 := Cursor(logstart, 0);
    var c1 := Flushed(End(c0, Demands(list, true, group, |list|), aligned));
    var at := End(c0, Demands(list, true, group, k), aligned);
    var at2 := End(c1, Demands(list, false, group, k), aligned);
    TwoPasses(list, group, logstart, aligned, k);
    var mid := Mapped(list[k], true, group, logstart, at);
    SlavePointers(list[k], true, group, logstart, at);
    SlavePointers(mid, false, group, logstart, at2);
    SameNeeds(list[k], group, logstart, at);
    if Wants(list[k], true, group) {
      SpanOfSlave(list, true, group, aligned, c0, |list|, k);
    }
    if Wants(list[k], false, group) {
      SpanOfSlave(list, false, group, aligned, c1, |list|, k);
    }
  }

  lemma SameNeeds(s: IoSlave, group: nat, logstart: nat, c: Cursor)
    requires Mappable(s, true) && c.bit < 8
    ensures var r := Mapped(s, true, group, logstart, c);
            r.ibits == s.ibits && r.obits == s.obits && r.group == s.group && r.sms == s.sms
  {
  }

  // ----- what stands behind the spans -----

  /** The FMMUs map a span to the sync managers of a type: fewer than eight bits to the
      start of the first one, bytes in order exactly if the table allows it. */
  ghost predicate Serves(fmmus: seq<Fmmu>, s: Span, sms: seq<Sm>, kind: nat, bits: nat) {
    if bits <= 7 then
      exists n: nat :: MappingTheorems.FirstOfKind(sms, kind, n) &&
                       MappingTheorems.BitsFrom(fmmus, sms[n].start, bits, s.start / 8, s.start % 8)
    else
      && ValidSms(sms, kind, bits)
      && (MappingTheorems.MapsInOrder(fmmus, s.start / 8, sms, kind, bits)
          <==> MappingTheorems.TableInOrder(sms, kind, bits, 0, 0, 0))
  }

  lemma SpanServed(sms: seq<Sm>, kind: nat, bits: nat, c: Cursor)
    requires bits > 0 && ValidSms(sms, kind, bits) && c.bit < 8
    ensures Serves(Fmmus(sms, kind, bits, c.log, c.bit), SpanAt(c, bits), sms, kind, bits)
  {
    hide Fmmus, MappingTheorems.FirstOfKind, MappingTheorems.BitsFrom, MappingTheorems.MapsInOrder,
         MappingTheorems.TableInOrder, ValidSms, RangeEnd;
    if bits <= 7 {
      MappingTheorems.BitsMapped(sms, kind, bits, c.log, c.bit);
      assert SpanAt(c, bits).start / 8 == c.log && SpanAt(c, bits).start % 8 == c.bit;
    } else {
      MappingTheorems.MappedInOrder(sms, kind, bits, c.log, c.bit);
    }
  }

  /** Main result.  Every member of the group keeps its FMMUs and gains those that map its
      own output span to sync managers of type 3 and its own input span to type 4. */
  lemma SlaveServed(list: seq<IoSlave>, group: nat, logstart: nat, aligned: bool, k: nat)
    returns (fo: seq<Fmmu>, fi: seq<Fmmu>)
    requires 1 <= k < |list| && AllMappable(list, true) && AllMappable(list, false)
    ensures var s, end := list[k], GroupList(list, group, logstart, aligned);
            var outs, ins := Demands(list, true, group, |list|), Demands(list, false, group, |list|);
            var outSpans, inSpans := OutSpans(logstart, outs, aligned), InSpans(logstart, outs, ins, aligned);
            var i, j := Rank(list, true, group, k), Rank(list, false, group, k);
            && |end| == |list| && end[k].fmmus == s.fmmus + fo + fi && end[k].sms == s.sms
            && (if (group == 0 || s.group == group) && s.obits > 0
                then i < |outSpans| && Serves(fo, outSpans[i], s.sms, 3, s.obits) else fo == [])
            && (if (group == 0 || s.group == group) && s.ibits > 0
                then j < |inSpans| && Serves(fi, inSpans[j], s.sms, 4, s.ibits) else fi == [])
  {
    MasterKept(list, group, logstart, aligned);
    hide Demands, Mapped, End, Spans, SpanAt, ValidSms, Fmmus, Rank, GroupList, Flushed, Serves, PointsTo;
    var s := list[k];
    var c0 := Cursor(logstart, 0);
    var c1 := Flushed(End(c0, Demands(list, true, group, |list|), aligned));
    var at := End(c0, Demands(list, true, group, k), aligned);
    var at2 := End(c1, Demands(list, false, group, k), aligned);
    TwoPasses(list, group, logstart, aligned, k);
    SlavePointers(s, true, group, logstart, at);
    SlavePointers(Mapped(s, true, group, logstart, at), false, group, logstart, at2);
    SameNeeds(s, group, logstart, at);
    SameSms(Mapped(s, true, group, logstart, at), group, logstart, at2);
    fo, fi := [], [];
    if Wants(s, true, group) {
      fo := Fmmus(s.sms, 3, s.obits, at.log, at.bit);
      SpanOfSlave(list, true, group, aligned, c0, |list|, k);
      SpanServed(s.sms, 3, s.obits, at);
    }
    if Wants(s, false, group) {
      fi := Fmmus(s.sms, 4, s.ibits, at2.log, at2.bit);
      SpanOfSlave(list, false, group, aligned, c1, |list|, k);
      SpanServed(s.sms, 4, s.ibits, at2);
    }
  }

  lemma SameSms(s: IoSlave, group: nat, logstart: nat, c: Cursor)
    requires Mappable(s, false) && c.bit < 8
    ensures Mapped(s, false, group, logstart, c).sms == s.sms
  {
  }
}
