/** Images of more than sixteen segments: when a cycle reads all of them back, and one
    layout of which it does not. */
module LongImages {
  import opened EtherCat
  import opened Packing
  import opened CyclicExchange
  import opened ExchangeTheorems
  import opened ImageTheorems
  import opened MappedRanges
  import opened ProcessData
  import ImageLayout

  // ----- segments of a layout -----

  /** Only the first piece may be empty. */
  ghost predicate LaterPositive(sizes: seq<nat>) {
    forall k :: 1 <= k < |sizes| ==> sizes[k] > 0
  }

  /** The packer never opens a segment for an empty block. */
  lemma {:induction false} GreedyPositive(p: Packer, ds: seq<nat>)
    requires Fit(p, ds) && LaterPositive(Segments(p))
    ensures LaterPositive(Segments(GreedyAll(p, ds)))
    decreases |ds|
  {
    if ds != [] {
      var s, q := Segments(p), Greedy(p, ds[0]);
      assert s[|p.closed|] == p.size;
      forall k | 1 <= k < |Segments(q)|
        ensures Segments(q)[k] > 0
      {
        assert k < |p.closed| ==> Segments(q)[k] == s[k];
      }
      GreedyPositive(q, ds[1..]);
    }
  }

  lemma LaidPositive(logstart: nat, outs: seq<nat>, ins: seq<nat>, aligned: bool)
    requires Fits(logstart, outs, ins, aligned)
    ensures LaterPositive(ImageLayout.GroupOf(logstart, outs, ins, aligned).segments)
  {
    hide GreedyAll, PackAll, GroupBlocks;
    var blocks := GroupBlocks(logstart, outs, ins, aligned);
    GroupSegments(logstart, outs, ins, aligned);
    AllBytesHeld(EMPTY, blocks);
    GreedyPositive(EMPTY, blocks);
  }

  lemma PositiveSum(sizes: seq<nat>, k: nat)
    requires k < |sizes| && sizes[k] > 0
    ensures Sum(sizes) > 0
  {
    SumSplit(sizes, k);
    assert sizes[k..][0] == sizes[k];
  }

  /** The first n pieces are all there is if and only if there are no more. */
  lemma FirstIsAll(sizes: seq<nat>, n: nat)
    requires LaterPositive(sizes) && n > 0
    ensures Sum(First(sizes, n)) == Sum(sizes) <==> |sizes| <= n
  {
    if n < |sizes| {
      SumSplit(sizes, n);
      PositiveSum(sizes[n..], 0);
    }
  }

  /** A loop over such pieces does not end before the last one. */
  lemma {:induction false} CutAll(sizes: seq<nat>, length: nat)
    requires sizes != [] && LaterPositive(sizes) && length == Sum(sizes)
    ensures Cut(sizes, length, false) == sizes
    decreases |sizes|
  {
    if |sizes| > 1 {
      PositiveSum(sizes[1..], 0);
      CutAll(sizes[1..], length - sizes[0]);
    }
  }

  /** Main result.  After any mapping a cycle reads the whole image back if and only if,
      on the read-write path, the segment table has at most sixteen entries, or, on the
      split path, the inputs start at most sixteen segments before its end. */
  lemma LaidAllRead(logstart: nat, outs: seq<nat>, ins: seq<nat>, aligned: bool, blockLRW: bool, hasdc: bool)
    requires Fits(logstart, outs, ins, aligned)
    ensures var g := Laid(ImageLayout.GroupOf(logstart, outs, ins, aligned), blockLRW, hasdc);
            && ValidGroup(g)
            && (AllRead(g) <==>
                if blockLRW then g.ibytes == 0 || |g.segments| - g.isegment <= MAX_BUF
                else |g.segments| <= MAX_BUF)
  {
    var g := Laid(ImageLayout.GroupOf(logstart, outs, ins, aligned), blockLRW, hasdc);
    LaidIsValid(logstart, outs, ins, aligned, blockLRW, hasdc);
    LaidPositive(logstart, outs, ins, aligned);
    hide Fits, ImageLayout.GroupOf;
    PositiveAllRead(g);
  }

  lemma PositiveAllRead(g: Group)
    requires ValidGroup(g) && LaterPositive(g.segments)
    ensures AllRead(g) <==>
            if g.blockLRW then g.ibytes == 0 || |g.segments| - g.isegment <= MAX_BUF
            else |g.segments| <= MAX_BUF
  {
    hide Sum, Cut;
    PiecesTile(g);
    if !g.blockLRW {
      CutAll(g.segments, g.obytes + g.ibytes);
      FirstIsAll(g.segments, MAX_BUF);
    } else if g.ibytes > 0 {
      InputSizesSum(g);
      CutAll(InputSizes(g), g.ibytes);
      FirstIsAll(InputSizes(g), MAX_BUF);
    } else {
      assert First(LrdSizes(g), MAX_BUF) == LrdSizes(g);
    }
  }

  // ----- seventeen segments -----

  function Repeat(n: nat, x: nat): (s: seq<nat>)
    ensures |s| == n
  {
    seq(n, _ => x)
  }

  lemma RepeatStep(n: nat, x: nat)
    requires n > 0
    ensures Repeat(n, x)[0] == x && Repeat(n, x)[1..] == Repeat(n - 1, x)
    ensures [x] + Repeat(n - 1, x) == Repeat(n, x)
  {
  }

  lemma {:induction false} RepeatSum(n: nat, x: nat)
    ensures Sum(Repeat(n, x)) == n * x
    decreases n
  {
    if n > 0 {
      RepeatStep(n, x);
      RepeatSum(n - 1, x);
    }
  }

  /** A slave that fills a segment, at a byte boundary. */
  lemma WholeSlave(c: ImageLayout.Cursor)
    requires c.bit == 0
    ensures ImageLayout.Next(c, 11728, true) == ImageLayout.Cursor(c.log + 1466, 0)
    ensures ImageLayout.SpanAt(c, 11728) == ImageLayout.Span(8 * c.log, 8 * c.log + 11728)
  {
  }

  lemma DemandsStep(c: ImageLayout.Cursor, demands: seq<nat>)
    requires demands != [] && demands[0] > 0
    ensures var n := ImageLayout.Next(c, demands[0], true);
            && ImageLayout.Blocks(c, demands, true) == [n.log - c.log] + ImageLayout.Blocks(n, demands[1..], true)
            && ImageLayout.End(c, demands, true) == ImageLayout.End(n, demands[1..], true)
            && ImageLayout.Spans(c, demands, true)
               == [ImageLayout.SpanAt(c, demands[0])] + ImageLayout.Spans(n, demands[1..], true)
  {
    hide ImageLayout.SpanAt, ImageLayout.Next;
  }

  lemma NoDemands(c: ImageLayout.Cursor)
    ensures ImageLayout.Blocks(c, [], true) == [] && ImageLayout.End(c, [], true) == c
    ensures ImageLayout.Spans(c, [], true) == []
  {
  }

  function WholeDemands(n: nat): seq<nat> {
    Repeat(n, 11728)
  }

  /** Slaves that each fill a segment. */
  lemma {:induction false} WholeSlaves(c: ImageLayout.Cursor, n: nat)
    requires c.bit == 0
    ensures ImageLayout.Blocks(c, WholeDemands(n), true) == Repeat(n, 1466)
    ensures ImageLayout.End(c, WholeDemands(n), true) == ImageLayout.Cursor(c.log + n * 1466, 0)
    ensures n > 0 ==> ImageLayout.Span(8 * c.log + (n - 1) * 11728, 8 * c.log + n * 11728)
                      in ImageLayout.Spans(c, WholeDemands(n), true)
    decreases n
  {
    hide ImageLayout.SpanAt, ImageLayout.Next, ImageLayout.Blocks, ImageLayout.End, ImageLayout.Spans;
    if n == 0 {
      NoDemands(c);
    } else {
      RepeatStep(n, 11728);
      RepeatStep(n, 1466);
      DemandsStep(c, WholeDemands(n));
      WholeSlave(c);
      WholeSlaves(ImageLayout.Cursor(c.log + 1466, 0), n - 1);
    }
  }

  lemma {:induction false} WholeSegments(closed: seq<nat>, n: nat)
    ensures Segments(GreedyAll(Packer(closed, 1466), Repeat(n, 1466)))
      == closed + [1466] + Repeat(n, 1466)
    decreases n
  {
    if n > 0 {
      RepeatStep(n, 1466);
      WholeSegments(closed + [1466], n - 1);
    }
  }

  lemma WholeBlocks(n: nat)
    ensures GroupBlocks(0, [], WholeDemands(n), true) == Repeat(n, 1466)
    ensures ImageLayout.GroupOf(0, [], WholeDemands(n), true).obytes == 0
    ensures ImageLayout.GroupOf(0, [], WholeDemands(n), true).ibytes == n * 1466
  {
    hide WholeDemands, PackAll;
    NoDemands(ImageLayout.Cursor(0, 0));
    WholeSlaves(ImageLayout.Cursor(0, 0), n);
    hide ImageLayout.Blocks, ImageLayout.End;
  }

  /** n slaves that each fill a segment give n segments. */
  lemma WholeLayout(n: nat)
    requires 0 < n <= MAX_SEGMENTS
    ensures Fits(0, [], WholeDemands(n), true)
    ensures ImageLayout.GroupOf(0, [], WholeDemands(n), true).segments == Repeat(n, 1466)
  {
    hide PackAll, GreedyAll, GroupBlocks, WholeDemands, ImageLayout.GroupOf;
    var blocks := Repeat(n, 1466);
    WholeBlocks(n);
    RepeatStep(n, 1466);
    GreedyUnfold(EMPTY, 1466, Repeat(n - 1, 1466));
    WholeSegments([], n - 1);
    AllBytesHeld(EMPTY, blocks);
    GroupSegments(0, [], WholeDemands(n), true);
  }

  /** The layout of n such slaves, all of them inputs. */
  function LongGroup(n: nat): Group {
    Laid(ImageLayout.GroupOf(0, [], WholeDemands(n), true), false, false)
  }

  /** The slaves, all of which answer. */
  function LongNet(n: nat): Net {
    Ones(AllBytesOf(InSpans(0, [], WholeDemands(n), true)))
  }

  lemma LongUnread(n: nat)
    requires MAX_BUF < n <= MAX_SEGMENTS
    ensures ValidGroup(LongGroup(n)) && LongGroup(n).obytes == 0 && LongGroup(n).ibytes == n * 1466
    ensures LongGroup(n).logstart == 0 && LongGroup(n).segments == Repeat(n, 1466)
    ensures ReadEnd(LongGroup(n)) == MAX_BUF * 1466 && !AllRead(LongGroup(n))
  {
    hide Fits, WholeDemands, ImageLayout.GroupOf, ValidGroup, ReadEnd, AllRead, Sum;
    OriginOfGroup(0, [], WholeDemands(n), true);
    WholeLayout(n);
    WholeBlocks(n);
    LaidIsValid(0, [], WholeDemands(n), true, false, false);
    SixteenRead(LongGroup(n), n);
  }

  lemma SixteenRead(g: Group, n: nat)
    requires ValidGroup(g) && !g.blockLRW && g.segments == Repeat(n, 1466) && MAX_BUF < n
    ensures ReadEnd(g) == g.logstart + MAX_BUF * 1466 && !AllRead(g)
  {
    hide Sum, Cut;
    RepeatSum(n, 1466);
    CutAll(g.segments, g.obytes + g.ibytes);
    assert First(g.segments, MAX_BUF) == Repeat(MAX_BUF, 1466);
    RepeatSum(MAX_BUF, 1466);
  }

  /** Seventeen to sixty-four slaves of 1466 input bytes each: the bytes of the seventeenth
      stay as they were although every slave answers and every frame comes back, and the
      counter is not the expected one. */
  lemma SeventeenSegments(n: nat, time: int)
    requires 17 <= n <= 64
    ensures Fits(0, [], WholeDemands(n), true) && NoneTorn(0, [], WholeDemands(n), true)
    ensures MapsLayout(LongNet(n), 0, [], WholeDemands(n), true)
    ensures var g, image := LongGroup(n), Zeros(n * 1466);
            && ValidGroup(g) && g.segments == Repeat(n, 1466) && g.obytes == 0 && g.ibytes == n * 1466
            && |Cycle(g, LongNet(n), image, time).image| == |Cycle(Unsegmented(g), LongNet(n), image, time).image|
               == n * 1466
            && Cycle(g, LongNet(n), image, time).image[16 * 1466] == 0
            && Cycle(Unsegmented(g), LongNet(n), image, time).image[16 * 1466] == 1
            && Cycle(g, LongNet(n), image, time).wkc != Expected(LongNet(n))
  {
    hide Fits, ValidGroup, AllRead, ReadEnd, Cycle, Unsegmented, NoneTorn, LongGroup, WholeDemands, MapsLayout,
         AllBytesOf, InSpans, OutSpans, ImageLayout.GroupOf;
    LongUnread(n);
    WholeLayout(n);
    AlignedNoneTorn(0, [], WholeDemands(n));
    LongMapped(n);
    UnreadByte(LongGroup(n), LongNet(n).ins, time);
    LongCounter(n, time);
  }

  lemma LongMapped(n: nat)
    ensures MapsLayout(LongNet(n), 0, [], WholeDemands(n), true)
  {
    hide WholeDemands;
    NoOutputs();
  }

  lemma LongCounter(n: nat, time: int)
    requires MAX_BUF < n <= MAX_SEGMENTS
    ensures ValidGroup(LongGroup(n)) && LongGroup(n).obytes == 0 && LongGroup(n).ibytes == n * 1466
    ensures Cycle(LongGroup(n), LongNet(n), Zeros(n * 1466), time).wkc != Expected(LongNet(n))
  {
    hide Fits, ValidGroup, AllRead, Cycle, NoneTorn, WholeDemands, ImageLayout.GroupOf, Pick, ReadEnd, InSpans,
         OutSpans, Hi;
    var ds, ins := WholeDemands(n), AllBytesOf(InSpans(0, [], WholeDemands(n), true));
    var up := seq(|ins|, _ => true);
    LongUnread(n);
    WholeLayout(n);
    AlignedNoneTorn(0, [], ds);
    PickAll(ins, up);
    PickAll([], []);
    NoOutputs();
    LongMapped(n);
    LaidIsMapped(LongNet(n), 0, [], ds, true, false, false);
    CounterDetects(LongNet(n), [], up, 0, [], ds, true, false, false, Zeros(n * 1466), time);
    LastSpan(n);
  }

  lemma LastSpan(n: nat)
    requires n > 0
    ensures exists s :: s in InSpans(0, [], WholeDemands(n), true) && Hi(s) == n * 1466
  {
    hide ImageLayout.Spans, WholeDemands;
    WholeSlaves(ImageLayout.Cursor(0, 0), n);
    NoOutputs();
    var last := ImageLayout.Span((n - 1) * 11728, n * 11728);
    assert last in InSpans(0, [], WholeDemands(n), true) && Hi(last) == n * 1466;
  }

  lemma NoOutputs()
    ensures OutSpans(0, [], true) == []
    ensures ImageLayout.Flushed(ImageLayout.End(ImageLayout.Cursor(0, 0), [], true)) == ImageLayout.Cursor(0, 0)
  {
  }
}
