/** What the process-image layout guarantees: disjoint ranges in order, segments
    that hold everything, and slaves that are not divided between segments. */
module ImageTheorems {
  import opened EtherCat
  import opened Packing
  import opened Mapping
  import opened ImageLayout

  // ----- ranges -----

  /** The demands of the slaves that get a range. */
  function Wanted(demands: seq<nat>): seq<nat> {
    if demands == [] then []
    else (if demands[0] > 0 then [demands[0]] else []) + Wanted(demands[1..])
  }

  function RangeSize(bits: nat): nat {
    if BitOriented(bits) then bits else 8 * Bytes(bits)
  }

  /** Ranges follow each other from bit `from` to bit `to` and have the wanted sizes. */
  ghost predicate InOrder(spans: seq<Span>, wanted: seq<nat>, from: nat, to: nat) {
    && |spans| == |wanted| && from <= to
    && (forall k :: 0 <= k < |spans| ==> from <= spans[k].start && spans[k].end <= to)
    && (forall k :: 0 <= k < |spans| ==> spans[k].end == spans[k].start + RangeSize(wanted[k]))
    && forall i, j :: 0 <= i < j < |spans| ==> spans[i].end <= spans[j].start
  }

  lemma NextBit(c: Cursor, bits: nat, aligned: bool)
    requires bits > 0
    ensures Bit(c) <= SpanAt(c, bits).start && SpanAt(c, bits).end <= Bit(Next(c, bits, aligned))
    ensures SpanAt(c, bits).end == SpanAt(c, bits).start + RangeSize(bits)
  {
  }

  lemma InOrderCons(first: Span, bits: nat, rest: seq<Span>, wanted: seq<nat>, from: nat, mid: nat, to: nat)
    requires from <= first.start && first.end <= mid && first.end == first.start + RangeSize(bits)
    requires InOrder(rest, wanted, mid, to)
    ensures InOrder([first] + rest, [bits] + wanted, from, to)
  {
    var spans := [first] + rest;
    forall k | 0 <= k < |spans|
      ensures from <= spans[k].start && spans[k].end <= to
      ensures spans[k].end == spans[k].start + RangeSize(([bits] + wanted)[k])
    {
      if k > 0 {
        assert spans[k] == rest[k - 1];
      }
    }
  }

  lemma {:induction false} SpansInOrder(c: Cursor, demands: seq<nat>, aligned: bool)
    ensures InOrder(Spans(c, demands, aligned), Wanted(demands), Bit(c), Bit(End(c, demands, aligned)))
    decreases |demands|
  {
    if demands != [] {
      hide InOrder, Next;
      if demands[0] == 0 {
        SpansInOrder(c, demands[1..], aligned);
        assert Wanted(demands) == Wanted(demands[1..]);
      } else {
        var n := Next(c, demands[0], aligned);
        SpansInOrder(n, demands[1..], aligned);
        NextBit(c, demands[0], aligned);
        InOrderCons(SpanAt(c, demands[0]), demands[0], Spans(n, demands[1..], aligned), Wanted(demands[1..]),
                    Bit(c), Bit(n), Bit(End(n, demands[1..], aligned)));
      }
    }
  }

  /** The ranges of a group: those of the outputs, then those of the inputs. */
  function OutSpans(logstart: nat, outs: seq<nat>, aligned: bool): seq<Span> {
    Spans(Cursor(logstart, 0), outs, aligned)
  }

  function InSpans(logstart: nat, outs: seq<nat>, ins: seq<nat>, aligned: bool): seq<Span> {
    Spans(Flushed(End(Cursor(logstart, 0), outs, aligned)), ins, aligned)
  }

  lemma FlushedBit(c: Cursor)
    requires c.bit < 8
    ensures Bit(c) <= Bit(Flushed(c)) == 8 * Flushed(c).log
  {
  }

  /** Over any list of slaves the logical ranges have the requested sizes and are
      pairwise disjoint, all outputs lying in the first Obytes bytes of the group
      and all inputs in the Ibytes bytes after them. */
  lemma RangesInOrder(logstart: nat, outs: seq<nat>, ins: seq<nat>, aligned: bool)
    ensures var g := GroupOf(logstart, outs, ins, aligned);
            var mid := 8 * (logstart + g.obytes);
            && InOrder(OutSpans(logstart, outs, aligned), Wanted(outs), 8 * logstart, mid)
            && InOrder(InSpans(logstart, outs, ins, aligned), Wanted(ins), mid, mid + 8 * g.ibytes)
  {
    var c0 := Cursor(logstart, 0);
    var c1 := Flushed(End(c0, outs, aligned));
    EndLater(c0, outs, aligned);
    EndLater(c1, ins, aligned);
    EndAppend(c0, outs, 0, aligned);
    EndAppend(c1, ins, 0, aligned);
    SpansInOrder(c0, outs, aligned);
    SpansInOrder(c1, ins, aligned);
    FlushedBit(End(c0, outs, aligned));
    FlushedBit(End(c1, ins, aligned));
    InOrderWider(OutSpans(logstart, outs, aligned), Wanted(outs), Bit(c0), Bit(End(c0, outs, aligned)), Bit(c1));
    InOrderWider(InSpans(logstart, outs, ins, aligned), Wanted(ins), Bit(c1), Bit(End(c1, ins, aligned)),
                 Bit(Flushed(End(c1, ins, aligned))));
  }

  lemma InOrderWider(spans: seq<Span>, wanted: seq<nat>, from: nat, to: nat, wider: nat)
    requires InOrder(spans, wanted, from, to) && to <= wider
    ensures InOrder(spans, wanted, from, wider)
  {
  }

  // ----- no gaps -----

  function RoundUp(bit: nat): nat {
    (bit + 7) / 8 * 8
  }

  /** Where a range goes if all bits before `after` are taken. */
  function PlaceAfter(bits: nat, after: nat, aligned: bool): nat {
    if bits <= 7 && !aligned then after else RoundUp(after)
  }

  /** The first bit behind the ranges before number k. */
  function EndBefore(spans: seq<Span>, from: nat, k: nat): nat
    requires k <= |spans|
  {
    if k == 0 then from else spans[k - 1].end
  }

  function Last(spans: seq<Span>, from: nat): nat {
    EndBefore(spans, from, |spans|)
  }

  /** Every range starts as early as it may behind the one before it. */
  ghost predicate Packed(spans: seq<Span>, wanted: seq<nat>, from: nat, aligned: bool) {
    && |spans| == |wanted|
    && forall k: nat :: k < |spans| ==> spans[k].start == PlaceAfter(wanted[k], EndBefore(spans, from, k), aligned)
  }

  lemma NextPacked(c: Cursor, bits: nat, aligned: bool)
    requires bits > 0 && c.bit < 8 && (aligned ==> c.bit == 0)
    ensures SpanAt(c, bits).start == PlaceAfter(bits, Bit(c), aligned)
    ensures var n, e := Next(c, bits, aligned), SpanAt(c, bits).end;
            Bit(n) == (if aligned then RoundUp(e) else e) && RoundUp(Bit(n)) == RoundUp(e)
  {
    var e := RangeEnd(bits, Bit(c));
    RoundUpOf(Bit(c));
    RoundUpOf(e);
    RoundUpOf(RoundUp(e));
    hide RoundUp, RangeEnd;
  }

  /** Up to the next whole byte. */
  lemma RoundUpOf(bit: nat)
    ensures RoundUp(bit) == 8 * Bytes(bit) == if bit % 8 == 0 then bit else 8 * (bit / 8) + 8
  {
  }

  lemma PackedCons(first: Span, bits: nat, rest: seq<Span>, wanted: seq<nat>, from: nat, mid: nat, aligned: bool)
    requires first.start == PlaceAfter(bits, from, aligned) && Packed(rest, wanted, mid, aligned)
    requires RoundUp(mid) == RoundUp(first.end) && mid == if aligned then RoundUp(first.end) else first.end
    ensures Packed([first] + rest, [bits] + wanted, from, aligned)
    ensures RoundUp(Last([first] + rest, from)) == RoundUp(Last(rest, mid))
  {
    hide RoundUp;
    var spans := [first] + rest;
    forall k: nat | 1 <= k < |spans|
      ensures spans[k].start == PlaceAfter(([bits] + wanted)[k], EndBefore(spans, from, k), aligned)
    {
      var j: nat := k - 1;
      assert spans[k] == rest[j] && ([bits] + wanted)[k] == wanted[j];
      assert rest[j].start == PlaceAfter(wanted[j], EndBefore(rest, mid, j), aligned);
      assert if j == 0 then spans[j] == first else spans[j] == rest[j - 1];
    }
  }

  lemma {:induction false} SpansPacked(c: Cursor, demands: seq<nat>, aligned: bool)
    requires c.bit < 8 && (aligned ==> c.bit == 0)
    ensures Packed(Spans(c, demands, aligned), Wanted(demands), Bit(c), aligned)
    ensures Bit(Flushed(End(c, demands, aligned))) == RoundUp(Last(Spans(c, demands, aligned), Bit(c)))
    decreases |demands|
  {
    if demands != [] {
      hide Packed, PlaceAfter, RoundUp, Next, SpanAt, Last, Flushed;
      if demands[0] == 0 {
        SpansPacked(c, demands[1..], aligned);
        assert Wanted(demands) == Wanted(demands[1..]);
      } else {
        var n := Next(c, demands[0], aligned);
        NextPacked(c, demands[0], aligned);
        SpansPacked(n, demands[1..], aligned);
        PackedCons(SpanAt(c, demands[0]), demands[0], Spans(n, demands[1..], aligned), Wanted(demands[1..]),
                   Bit(c), Bit(n), aligned);
      }
    }
  }

  /** No bit of the image is left unused that could have been used: the outputs start
      with the group, the inputs at the byte behind them, each range follows the one before
      it directly, or at the next byte if it has eight bits or more or all are aligned. */
  lemma LayoutPacked(logstart: nat, outs: seq<nat>, ins: seq<nat>, aligned: bool)
    ensures var g := GroupOf(logstart, outs, ins, aligned);
            var mid := 8 * (logstart + g.obytes);
            var outSpans, inSpans := OutSpans(logstart, outs, aligned), InSpans(logstart, outs, ins, aligned);
            && Packed(outSpans, Wanted(outs), 8 * logstart, aligned) && Packed(inSpans, Wanted(ins), mid, aligned)
            && mid == RoundUp(Last(outSpans, 8 * logstart)) && mid + 8 * g.ibytes == RoundUp(Last(inSpans, mid))
  {
    hide Packed, RoundUp, Last, PackAll, OutBlocks, Spans, Flushed, End, Segments, Active, Wanted;
    var c0 := Cursor(logstart, 0);
    var e0 := End(c0, outs, aligned);
    var c1 := Flushed(e0);
    EndAppend(c0, outs, 0, aligned);
    FlushedByte(e0);
    EndAppend(c1, ins, 0, aligned);
    FlushedByte(End(c1, ins, aligned));
    SpansPacked(c0, outs, aligned);
    SpansPacked(c1, ins, aligned);
    SizesAre(logstart, outs, ins, aligned);
  }

  lemma FlushedByte(c: Cursor)
    requires c.bit < 8
    ensures Flushed(c).bit == 0 && Bit(Flushed(c)) == 8 * Flushed(c).log
  {
  }

  lemma SizesAre(logstart: nat, outs: seq<nat>, ins: seq<nat>, aligned: bool)
    ensures var g, c1 := GroupOf(logstart, outs, ins, aligned), Flushed(End(Cursor(logstart, 0), outs, aligned));
            && logstart + g.obytes == c1.log && logstart + g.obytes + g.ibytes == Flushed(End(c1, ins, aligned)).log
  {
    hide End, PackAll, OutBlocks;
  }

  // ----- segments -----

  lemma {:induction false} BlocksSum(c: Cursor, demands: seq<nat>, aligned: bool)
    ensures Sum(Blocks(c, demands, aligned)) == End(c, demands, aligned).log - c.log
    decreases |demands|
  {
    if demands != [] {
      if demands[0] == 0 {
        BlocksSum(c, demands[1..], aligned);
      } else {
        var n := Next(c, demands[0], aligned);
        BlocksSum(n, demands[1..], aligned);
        assert ([n.log - c.log] + Blocks(n, demands[1..], aligned))[1..] == Blocks(n, demands[1..], aligned);
      }
    }
  }

  lemma OutBlocksSum(c: Cursor, demands: seq<nat>, aligned: bool)
    ensures Sum(OutBlocks(c, demands, aligned)) == Flushed(End(c, demands, aligned)).log - c.log
  {
    BlocksSum(c, demands, aligned);
    var f := FlushBlock(End(c, demands, aligned));
    SumConcat(Blocks(c, demands, aligned), f);
    assert f == [1] ==> Sum(f) == 1 + Sum(f[1..]);
  }

  /** All blocks of a group in the order in which they are packed. */
  function GroupBlocks(logstart: nat, outs: seq<nat>, ins: seq<nat>, aligned: bool): seq<nat> {
    var c0 := Cursor(logstart, 0);
    OutBlocks(c0, outs, aligned) + OutBlocks(Flushed(End(c0, outs, aligned)), ins, aligned)
  }

  /** Each slave fits a frame and the segment table is long enough. */
  ghost predicate Fits(logstart: nat, outs: seq<nat>, ins: seq<nat>, aligned: bool) {
    && Fit(EMPTY, GroupBlocks(logstart, outs, ins, aligned))
    && |Segments(GreedyAll(EMPTY, GroupBlocks(logstart, outs, ins, aligned)))| <= MAX_SEGMENTS
  }

  lemma GroupSegments(logstart: nat, outs: seq<nat>, ins: seq<nat>, aligned: bool)
    ensures GroupOf(logstart, outs, ins, aligned).segments
      == Segments(PackAll(EMPTY, GroupBlocks(logstart, outs, ins, aligned)))
    ensures Sum(GroupBlocks(logstart, outs, ins, aligned))
      == GroupOf(logstart, outs, ins, aligned).obytes + GroupOf(logstart, outs, ins, aligned).ibytes
  {
    var c0 := Cursor(logstart, 0);
    var c1 := Flushed(End(c0, outs, aligned));
    PackAllConcat(EMPTY, OutBlocks(c0, outs, aligned), OutBlocks(c1, ins, aligned));
    SumConcat(OutBlocks(c0, outs, aligned), OutBlocks(c1, ins, aligned));
    OutBlocksSum(c0, outs, aligned);
    OutBlocksSum(c1, ins, aligned);
  }

  /** The segments add up to the whole image exactly when the table is long enough
      for all of them; and then each fits a frame with a clock datagram. */
  lemma SegmentsHoldImage(logstart: nat, outs: seq<nat>, ins: seq<nat>, aligned: bool)
    requires Fit(EMPTY, GroupBlocks(logstart, outs, ins, aligned))
    ensures var g := GroupOf(logstart, outs, ins, aligned);
            && (Sum(g.segments) == g.obytes + g.ibytes
                <==> |Segments(GreedyAll(EMPTY, GroupBlocks(logstart, outs, ins, aligned)))| <= MAX_SEGMENTS)
            && 1 <= |g.segments| <= MAX_SEGMENTS
            && forall s :: s in g.segments ==> s <= SEGMENT_LIMIT
  {
    var blocks := GroupBlocks(logstart, outs, ins, aligned);
    GroupSegments(logstart, outs, ins, aligned);
    AllBytesHeld(EMPTY, blocks);
    SegmentsFit(EMPTY, blocks);
    HeldIsSum(PackAll(EMPTY, blocks));
  }

  lemma {:induction false} GreedyPrefix(p: Packer, ds: seq<nat>)
    ensures var q := GreedyAll(p, ds);
            && |p.closed| < |Segments(q)| && Segments(q)[..|p.closed|] == p.closed
            && p.size <= Segments(q)[|p.closed|]
    decreases |ds|
  {
    if ds != [] {
      GreedyPrefix(Greedy(p, ds[0]), ds[1..]);
      var q := GreedyAll(p, ds);
      if p.size + ds[0] > SEGMENT_LIMIT {
        assert Segments(q)[..|p.closed| + 1] == p.closed + [p.size];
        assert Segments(q)[..|p.closed|] == Segments(q)[..|p.closed| + 1][..|p.closed|] == p.closed;
        assert Segments(q)[|p.closed|] == Segments(q)[..|p.closed| + 1][|p.closed|];
      }
    }
  }

  /** Isegment and Ioffset name the byte right after the outputs. */
  lemma InputsStart(logstart: nat, outs: seq<nat>, ins: seq<nat>, aligned: bool)
    requires Fits(logstart, outs, ins, aligned)
    ensures var g := GroupOf(logstart, outs, ins, aligned);
            && g.isegment < |g.segments| && g.ioffset <= g.segments[g.isegment]
            && Sum(g.segments[..g.isegment]) + g.ioffset == g.obytes
  {
    var c0 := Cursor(logstart, 0);
    var c1 := Flushed(End(c0, outs, aligned));
    var b1, b2 := OutBlocks(c0, outs, aligned), OutBlocks(c1, ins, aligned);
    GroupSegments(logstart, outs, ins, aligned);
    GreedyAllConcat(EMPTY, b1, b2);
    var p1 := GreedyAll(EMPTY, b1);
    GreedyHoldsAll(p1, b2);
    FitPrefix(b1, b2);
    AllBytesHeld(EMPTY, b1);
    AllBytesHeld(EMPTY, b1 + b2);
    GreedyPrefix(p1, b2);
    GreedyHoldsAll(EMPTY, b1);
    OutBlocksSum(c0, outs, aligned);
  }

  lemma FitPrefix(a: seq<nat>, b: seq<nat>)
    requires Fit(EMPTY, a + b)
    ensures Fit(EMPTY, a)
  {
    forall k | 0 <= k < |a|
      ensures a[k] <= SEGMENT_LIMIT
    {
      assert (a + b)[k] == a[k];
    }
  }

  // ----- undivided slaves -----

  /** First byte of a range and the byte after its last. */
  function Lo(s: Span): nat {
    s.start / 8
  }

  function Hi(s: Span): nat {
    Bytes(s.end)
  }

  /** A range of fewer than eight bits that lies in two bytes. */
  predicate Straddles(s: Span) {
    s.start < s.end < s.start + 8 && Hi(s) > Lo(s) + 1
  }

  lemma BigSpanIsBlock(c: Cursor, bits: nat, aligned: bool)
    requires bits > 7 && c.bit < 8
    ensures var s, n := SpanAt(c, bits), Next(c, bits, aligned);
            c.log <= Lo(s) && Hi(s) <= n.log
  {
    var first := if c.bit > 0 then c.log + 1 else c.log;
    assert Bytes(Bit(c)) == first;
    assert SpanAt(c, bits) == Span(8 * first, 8 * (first + Bytes(bits)));
    assert 8 * (first + Bytes(bits)) / 8 == first + Bytes(bits);
    assert Hi(SpanAt(c, bits)) == first + Bytes(bits);
  }

  /** A byte-oriented slave is packed as part of a single block. */
  lemma {:induction false} BigSpansWhole(p: Packer, c: Cursor, demands: seq<nat>, aligned: bool, rest: seq<nat>,
                                         base: nat, k: nat)
    requires base + Held(p) == c.log && c.bit < 8
    requires k < |Spans(c, demands, aligned)|
    requires Spans(c, demands, aligned)[k].end >= Spans(c, demands, aligned)[k].start + 8
    ensures var s := Spans(c, demands, aligned)[k];
            Within(Segments(GreedyAll(p, Blocks(c, demands, aligned) + rest)), base, Lo(s), Hi(s))
    decreases |demands|
  {
    hide Next, Within, Lo, Hi, SpanAt, Greedy, GreedyAll, Held, Spans, Blocks;
    SpansUnfold(c, demands, aligned);
    if demands[0] == 0 {
      BigSpansWhole(p, c, demands[1..], aligned, rest, base, k);
    } else {
      var n := Next(c, demands[0], aligned);
      var d := n.log - c.log;
      var more := Blocks(n, demands[1..], aligned) + rest;
      assert Blocks(c, demands, aligned) + rest == [d] + more;
      GreedyUnfold(p, d, more);
      NextSmall(c, demands[0], aligned);
      if k == 0 {
        BigSpanIsBlock(c, demands[0], aligned);
        BlockWhole(p, d, more, base, Lo(SpanAt(c, demands[0])), Hi(SpanAt(c, demands[0])));
      } else {
        GreedyHolds(p, d);
        BigSpansWhole(Greedy(p, d), n, demands[1..], aligned, rest, base, k - 1);
      }
    }
  }

  lemma GreedyUnfold(p: Packer, d: nat, more: seq<nat>)
    ensures GreedyAll(p, [d] + more) == GreedyAll(Greedy(p, d), more)
  {
    assert ([d] + more)[1..] == more;
  }

  lemma SpansUnfold(c: Cursor, demands: seq<nat>, aligned: bool)
    requires c.bit < 8 && Spans(c, demands, aligned) != []
    ensures demands != []
    ensures demands[0] == 0 ==>
      && Spans(c, demands, aligned) == Spans(c, demands[1..], aligned)
      && Blocks(c, demands, aligned) == Blocks(c, demands[1..], aligned)
    ensures demands[0] > 0 ==>
      var n := Next(c, demands[0], aligned);
      && Spans(c, demands, aligned) == [SpanAt(c, demands[0])] + Spans(n, demands[1..], aligned)
      && Blocks(c, demands, aligned) == [n.log - c.log] + Blocks(n, demands[1..], aligned)
    ensures demands[0] > 0 && SpanAt(c, demands[0]).end >= SpanAt(c, demands[0]).start + 8 ==> demands[0] > 7
  {
    hide Next, SpanAt, Spans, Blocks;
    SpansNone(c, aligned);
    if demands[0] == 0 {
      SpansSkip(c, demands, aligned);
    } else {
      SpansTake(c, demands, aligned);
      SpanBits(c, demands[0]);
    }
  }

  lemma SpansNone(c: Cursor, aligned: bool)
    ensures Spans(c, [], aligned) == []
  {
  }

  lemma SpansSkip(c: Cursor, demands: seq<nat>, aligned: bool)
    requires demands != [] && demands[0] == 0
    ensures Spans(c, demands, aligned) == Spans(c, demands[1..], aligned)
    ensures Blocks(c, demands, aligned) == Blocks(c, demands[1..], aligned)
  {
  }

  lemma SpansTake(c: Cursor, demands: seq<nat>, aligned: bool)
    requires demands != [] && demands[0] > 0
    ensures var n := Next(c, demands[0], aligned);
            && Spans(c, demands, aligned) == [SpanAt(c, demands[0])] + Spans(n, demands[1..], aligned)
            && Blocks(c, demands, aligned) == [n.log - c.log] + Blocks(n, demands[1..], aligned)
  {
    hide SpanAt, Next, RangeEnd, Bit;
  }

  lemma SpanBits(c: Cursor, bits: nat)
    ensures bits > 0 && SpanAt(c, bits).end >= SpanAt(c, bits).start + 8 ==> bits > 7
  {
  }

  lemma NextSmall(c: Cursor, bits: nat, aligned: bool)
    requires c.bit < 8
    ensures Next(c, bits, aligned).bit < 8
  {
  }

  /** With byte alignment no range straddles two bytes. */
  lemma {:induction false} AlignedNeverStraddles(c: Cursor, demands: seq<nat>)
    requires c.bit == 0
    ensures forall k :: 0 <= k < |Spans(c, demands, true)| ==> !Straddles(Spans(c, demands, true)[k])
    decreases |demands|
  {
    if demands != [] {
      if demands[0] == 0 {
        AlignedNeverStraddles(c, demands[1..]);
      } else {
        hide Spans;
        AlignedFirst(c, demands[0]);
        AlignedNeverStraddles(Next(c, demands[0], true), demands[1..]);
        AlignedSpans(c, demands);
      }
    }
  }

  lemma AlignedSpans(c: Cursor, demands: seq<nat>)
    requires demands != [] && demands[0] > 0
    ensures Spans(c, demands, true) == [SpanAt(c, demands[0])] + Spans(Next(c, demands[0], true), demands[1..], true)
  {
  }

  lemma AlignedFirst(c: Cursor, bits: nat)
    requires c.bit == 0 && bits > 0
    ensures !Straddles(SpanAt(c, bits))
  {
    if BitOriented(bits) {
      assert SpanAt(c, bits) == Span(8 * c.log, 8 * c.log + bits);
    }
  }

  /** A range of the group. */
  ghost predicate IsSpan(s: Span, logstart: nat, outs: seq<nat>, ins: seq<nat>, aligned: bool) {
    s in OutSpans(logstart, outs, aligned) || s in InSpans(logstart, outs, ins, aligned)
  }

  /** A range packed bitwise across a byte boundary at which a segment ends. */
  ghost predicate Torn(s: Span, logstart: nat, outs: seq<nat>, ins: seq<nat>, aligned: bool) {
    Straddles(s) && Boundary(GroupOf(logstart, outs, ins, aligned).segments, logstart, Lo(s) + 1)
  }

  /** Main result.  A slave is divided between segments if and only if its range is
      packed bitwise across a byte boundary and a segment ends there. */
  lemma SlaveUndivided(s: Span, logstart: nat, outs: seq<nat>, ins: seq<nat>, aligned: bool)
    requires Fits(logstart, outs, ins, aligned) && IsSpan(s, logstart, outs, ins, aligned)
    ensures Within(GroupOf(logstart, outs, ins, aligned).segments, logstart, Lo(s), Hi(s))
      <==> !Torn(s, logstart, outs, ins, aligned)
  {
    hide Within, Spans, Boundary, GroupOf, Fit, PackAll, GreedyAll, GroupBlocks;
    if s.end >= s.start + 8 {
      BigUndivided(s, logstart, outs, ins, aligned);
    } else {
      var segments := GroupOf(logstart, outs, ins, aligned).segments;
      SegmentsHoldImage(logstart, outs, ins, aligned);
      SpanPlace(s, logstart, outs, ins, aligned);
      if Straddles(s) {
        PairWithin(segments, logstart, Lo(s));
      } else {
        ByteWithin(segments, logstart, Lo(s));
      }
    }
  }

  lemma BigUndivided(s: Span, logstart: nat, outs: seq<nat>, ins: seq<nat>, aligned: bool)
    requires Fits(logstart, outs, ins, aligned) && IsSpan(s, logstart, outs, ins, aligned) && s.end >= s.start + 8
    ensures Within(GroupOf(logstart, outs, ins, aligned).segments, logstart, Lo(s), Hi(s))
  {
    hide Within, Spans;
    GroupSegments(logstart, outs, ins, aligned);
    AllBytesHeld(EMPTY, GroupBlocks(logstart, outs, ins, aligned));
    if s in OutSpans(logstart, outs, aligned) {
      BigOutput(s, logstart, outs, ins, aligned);
    } else {
      BigInput(s, logstart, outs, ins, aligned);
    }
  }

  lemma SpanPlace(s: Span, logstart: nat, outs: seq<nat>, ins: seq<nat>, aligned: bool)
    requires IsSpan(s, logstart, outs, ins, aligned)
    ensures var g := GroupOf(logstart, outs, ins, aligned);
            && g.logstart == logstart && s.start < s.end && logstart <= Lo(s) < Hi(s) <= logstart + g.obytes + g.ibytes
            && (s in OutSpans(logstart, outs, aligned) ==> Hi(s) <= logstart + g.obytes)
            && (s in InSpans(logstart, outs, ins, aligned) ==> logstart + g.obytes <= Lo(s))
  {
    RangesInOrder(logstart, outs, ins, aligned);
    WantedPositive(outs);
    WantedPositive(ins);
  }

  lemma WantedPositive(demands: seq<nat>)
    ensures forall k :: 0 <= k < |Wanted(demands)| ==> Wanted(demands)[k] > 0
    ensures |Wanted(demands)| == Active(demands)
  {
  }

  lemma BigOutput(s: Span, logstart: nat, outs: seq<nat>, ins: seq<nat>, aligned: bool)
    requires s in OutSpans(logstart, outs, aligned) && s.end >= s.start + 8
    ensures Within(Segments(GreedyAll(EMPTY, GroupBlocks(logstart, outs, ins, aligned))), logstart, Lo(s), Hi(s))
  {
    hide Within, GreedyAll, Spans;
    var c0 := Cursor(logstart, 0);
    var k :| 0 <= k < |Spans(c0, outs, aligned)| && Spans(c0, outs, aligned)[k] == s;
    var rest := FlushBlock(End(c0, outs, aligned)) + OutBlocks(Flushed(End(c0, outs, aligned)), ins, aligned);
    assert Blocks(c0, outs, aligned) + rest == GroupBlocks(logstart, outs, ins, aligned);
    BigSpansWhole(EMPTY, c0, outs, aligned, rest, logstart, k);
  }

  lemma BigInput(s: Span, logstart: nat, outs: seq<nat>, ins: seq<nat>, aligned: bool)
    requires s in InSpans(logstart, outs, ins, aligned) && s.end >= s.start + 8
    ensures Within(Segments(GreedyAll(EMPTY, GroupBlocks(logstart, outs, ins, aligned))), logstart, Lo(s), Hi(s))
  {
    hide Within, GreedyAll, Spans;
    var c0 := Cursor(logstart, 0);
    var c1 := Flushed(End(c0, outs, aligned));
    EndAppend(c0, outs, 0, aligned);
    var k :| 0 <= k < |Spans(c1, ins, aligned)| && Spans(c1, ins, aligned)[k] == s;
    var b1 := OutBlocks(c0, outs, aligned);
    var p1 := GreedyAll(EMPTY, b1);
    GreedyHoldsAll(EMPTY, b1);
    OutBlocksSum(c0, outs, aligned);
    EndLater(c0, outs, aligned);
    GreedyAllConcat(EMPTY, b1, OutBlocks(c1, ins, aligned));
    BigSpansWhole(p1, c1, ins, aligned, FlushBlock(End(c1, ins, aligned)), logstart, k);
  }

  lemma StraddlerCursors(c: Cursor, n: nat)
    requires c.bit == 0 && n >= 1
    ensures Next(c, 8 * n, false) == Cursor(c.log + n, 0)
    ensures Next(c, 7, false) == Cursor(c.log, 7) && SpanAt(c, 7) == Span(8 * c.log, 8 * c.log + 7)
  {
    assert Bytes(Bit(c)) == c.log && Bytes(8 * n) == n;
    assert RangeEnd(8 * n, Bit(c)) == 8 * (c.log + n);
  }

  lemma StraddlerLast(c: Cursor)
    requires c.bit == 7
    ensures Next(c, 7, false) == Cursor(c.log + 1, 6) && SpanAt(c, 7) == Span(8 * c.log + 7, 8 * c.log + 14)
  {
  }

  lemma StraddlerBlocks(outs: seq<nat>, n: nat)
    requires outs == [8 * n, 7, 7] && n >= 1
    ensures Blocks(Cursor(0, 0), outs, false) == [n, 0, 1] && End(Cursor(0, 0), outs, false) == Cursor(n + 1, 6)
    ensures |Spans(Cursor(0, 0), outs, false)| == 3
    ensures Spans(Cursor(0, 0), outs, false)[2] == Span(8 * n + 7, 8 * n + 14)
  {
    hide Next, SpanAt;
    StraddlerCursors(Cursor(0, 0), n);
    StraddlerCursors(Cursor(n, 0), n);
    StraddlerLast(Cursor(n, 7));
    var one, two, last := outs[2..], outs[1..], [Span(8 * n + 7, 8 * n + 14)];
    assert one == [7] && one[1..] == [] && two[1..] == one;
    assert Blocks(Cursor(n, 7), one, false) == [1] && Spans(Cursor(n, 7), one, false) == last;
    assert Blocks(Cursor(n, 0), two, false) == [0, 1];
    assert End(Cursor(n, 7), one, false) == Cursor(n + 1, 6);
    assert Spans(Cursor(n, 0), two, false)[1..] == last;
  }

  lemma StraddlerPack(blocks: seq<nat>)
    requires blocks == [1465, 0, 1, 1]
    ensures PackAll(EMPTY, blocks) == GreedyAll(EMPTY, blocks) == Packer([1466], 1)
  {
    assert blocks[1..][1..] == blocks[2..] && blocks[2..][1..] == blocks[3..] && blocks[3..][1..] == [];
    assert PackAll(Packer([], 1466), blocks[3..]) == GreedyAll(Packer([], 1466), blocks[3..]) == Packer([1466], 1);
    assert PackAll(Packer([], 1465), blocks[2..]) == GreedyAll(Packer([], 1465), blocks[2..]) == Packer([1466], 1);
    assert PackAll(Packer([], 1465), blocks[1..]) == GreedyAll(Packer([], 1465), blocks[1..]) == Packer([1466], 1);
  }

  /** Without byte alignment such a slave can be divided: 1465 bytes and two slaves
      of seven bits each, the second of which crosses from byte 1465 to 1466. */
  lemma StraddlerDivided()
    ensures var outs, s := [8 * 1465, 7, 7], Span(11727, 11734);
            && Fits(0, outs, [], false) && s in OutSpans(0, outs, false) && Straddles(s)
            && GroupOf(0, outs, [], false).segments == [1466, 1]
            && !Within([1466, 1], 0, Lo(s), Hi(s))
  {
    StraddlerSpan();
    StraddlerSegments();
    hide Blocks, End, PackAll, GreedyAll, Spans, Next, Fits, GroupOf, OutSpans;
    var s := Span(11727, 11734);
    assert [1466, 1][1..] == [1];
    assert !Within([1], 1466, Lo(s), Hi(s));
  }

  lemma StraddlerSpan()
    ensures Span(11727, 11734) in OutSpans(0, [8 * 1465, 7, 7], false)
  {
    hide Blocks, End, Spans, Next;
    StraddlerBlocks([8 * 1465, 7, 7], 1465);
  }

  lemma StraddlerGroup()
    ensures GroupBlocks(0, [8 * 1465, 7, 7], [], false) == [1465, 0, 1, 1]
  {
    hide Spans, Next;
    StraddlerBlocks([8 * 1465, 7, 7], 1465);
  }

  lemma StraddlerFit(blocks: seq<nat>)
    requires blocks == [1465, 0, 1, 1]
    ensures Fit(EMPTY, blocks)
  {
  }

  lemma StraddlerSegments()
    ensures Fits(0, [8 * 1465, 7, 7], [], false) && GroupOf(0, [8 * 1465, 7, 7], [], false).segments == [1466, 1]
  {
    hide GroupBlocks, GroupOf, Fit, PackAll, GreedyAll;
    StraddlerGroup();
    StraddlerFit([1465, 0, 1, 1]);
    StraddlerPack([1465, 0, 1, 1]);
    GroupSegments(0, [8 * 1465, 7, 7], [], false);
  }
}
