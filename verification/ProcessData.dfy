/** The process data cycle from end to end: layout, frames, slaves and counter. */
module ProcessData {
  import opened EtherCat
  import opened CyclicExchange
  import opened ExchangeTheorems
  import opened ImageTheorems
  import opened MappedRanges
  import ImageLayout

  // ----- what is read back -----

  /** The pieces that bring inputs back, and the logical address of the first one. */
  function ReadPieces(g: Group): seq<nat>
    requires ValidGroup(g)
  {
    if g.blockLRW then LrdSizes(g) else LrwSizes(g)
  }

  function ReadFrom(g: Group): nat {
    if g.blockLRW then g.logstart + g.obytes else g.logstart
  }

  /** The pieces that write, and how many of their entries find room on the stack. */
  function WritePieces(g: Group): seq<nat>
    requires ValidGroup(g)
  {
    if g.blockLRW then LwrSizes(g) else LrwSizes(g)
  }

  function WriteRoom(g: Group): nat
    requires ValidGroup(g)
  {
    if g.blockLRW then RoomAfter(|LrdSizes(g)|) else MAX_BUF
  }

  function RoomAfter(n: nat): nat {
    if n < MAX_BUF then MAX_BUF - n else 0
  }

  /** The logical address behind the last byte that is read back. */
  function ReadEnd(g: Group): nat
    requires ValidGroup(g)
  {
    ReadFrom(g) + Sum(First(ReadPieces(g), MAX_BUF))
  }

  /** The same for the bytes whose writing is acknowledged. */
  function WriteEnd(g: Group): nat
    requires ValidGroup(g)
  {
    g.logstart + Sum(First(WritePieces(g), WriteRoom(g)))
  }

  /** The frames past the sixteenth bring no image bytes back. */
  predicate AllRead(g: Group)
    requires ValidGroup(g)
  {
    ReadEnd(g) == g.logstart + g.obytes + g.ibytes
  }

  lemma EndsInside(g: Group)
    requires ValidGroup(g)
    ensures ReadFrom(g) <= ReadEnd(g) <= g.logstart + g.obytes + g.ibytes
    ensures g.logstart <= WriteEnd(g) <= g.logstart + if g.blockLRW then g.obytes else g.obytes + g.ibytes
    ensures |ReadPieces(g)| <= MAX_BUF ==> AllRead(g)
    ensures |WritePieces(g)| <= WriteRoom(g) ==> WriteEnd(g) >= g.logstart + g.obytes
  {
    hide LrdSizes, LwrSizes, LrwSizes, ValidGroup, Sum;
    PiecesTile(g);
    FirstSum(ReadPieces(g), MAX_BUF);
    FirstSum(WritePieces(g), WriteRoom(g));
  }

  // ----- a cycle -----

  /** The result of a cycle in which every frame comes back: the frames that have an
      entry on the stack are taken back. */
  function Cycle(g: Group, net: Net, image: seq<bv8>, time: int): State
    requires ValidGroup(g) && |image| == g.obytes + g.ibytes > 0
  {
    var all := AllCame(|SentFrames(g, image)|);
    CycleMatches(g, net, image, time);
    TakeAll(State(image, 0, false, time), Stacked(PushedEntries(g)), Returned(g, net, image, all))
  }

  lemma CycleMatches(g: Group, net: Net, image: seq<bv8>, time: int)
    requires ValidGroup(g) && |image| == g.obytes + g.ibytes > 0
    ensures AllMatch(image, Stacked(PushedEntries(g)),
                     Returned(g, net, image, AllCame(|SentFrames(g, image)|)))
  {
    hide Merge, Shares, Came, TakeAll, AllMatch, ValidGroup, Returned, SentFrames, PushedEntries, LrdSizes, LwrSizes,
         LrwSizes, Stacked;
    if g.blockLRW {
      AllCameSum(|LrdSizes(g)|, |LwrSizes(g)|);
      SplitExchange(g, net, image, time, AllCame(|LrdSizes(g)|), AllCame(|LwrSizes(g)|));
    } else {
      ReadWriteExchange(g, net, image, time, AllCame(|LrwSizes(g)|));
    }
  }

  lemma AllCameSum(a: nat, b: nat)
    ensures AllCame(a) + AllCame(b) == AllCame(a + b)
  {
  }

  lemma HeardOfAll(n: nat)
    ensures Heard(AllCame(n)) == FirstCame(n, MAX_BUF)
  {
  }

  lemma HeardOfBoth(a: nat, b: nat)
    ensures Heard(AllCame(a) + AllCame(b))[..a] == FirstCame(a, MAX_BUF)
    ensures Heard(AllCame(a) + AllCame(b))[a..] == FirstCame(b, RoomAfter(a))
  {
  }

  /** Every byte of the image after the cycle.  Bytes that are read back depend on their
      logical address and on what was sent there, the others stay. */
  lemma CycleImage(g: Group, net: Net, image: seq<bv8>, time: int, k: nat)
    requires ValidGroup(g) && k < |image| == g.obytes + g.ibytes
    ensures |Cycle(g, net, image, time).image| == |image|
    ensures Cycle(g, net, image, time).image[k] ==
      if ReadFrom(g) <= g.logstart + k < ReadEnd(g)
      then Merge(net, g.logstart + k, if g.blockLRW then 0 else image[k])
      else image[k]
  {
    hide Merge, Returned, TakeAll, Came, SentFrames, PushedEntries, AllMatch, LrdSizes, LwrSizes, LrwSizes, Shares,
         FirstCame, Heard, ValidGroup, Stacked, First, Sum;
    PiecesTile(g);
    if g.blockLRW {
      var a, b := |LrdSizes(g)|, |LwrSizes(g)|;
      AllCameSum(a, b);
      HeardOfBoth(a, b);
      SplitExchange(g, net, image, time, AllCame(a), AllCame(b));
      if k >= g.obytes {
        CameFirst(LrdSizes(g), g.obytes, k, MAX_BUF);
      }
    } else {
      HeardOfAll(|LrwSizes(g)|);
      ReadWriteExchange(g, net, image, time, AllCame(|LrwSizes(g)|));
      CameFirst(LrwSizes(g), 0, k, MAX_BUF);
    }
  }

  /** The clock after the cycle: it comes with the first frame, on either path. */
  lemma CycleClock(g: Group, net: Net, image: seq<bv8>, time: int)
    requires ValidGroup(g) && |image| == g.obytes + g.ibytes > 0
    ensures Cycle(g, net, image, time).time == if g.hasdc then net.time else time
  {
    hide Merge, Returned, TakeAll, Came, SentFrames, PushedEntries, AllMatch, LrdSizes, LwrSizes, LrwSizes, Shares,
         Heard, ValidGroup, Stacked;
    if g.blockLRW {
      var a, b := |LrdSizes(g)|, |LwrSizes(g)|;
      AllCameSum(a, b);
      SplitExchange(g, net, image, time, AllCame(a), AllCame(b));
    } else {
      ReadWriteExchange(g, net, image, time, AllCame(|LrwSizes(g)|));
    }
  }

  /** The same group with the whole image in a single segment. */
  function Unsegmented(g: Group): (u: Group)
    requires ValidGroup(g)
    ensures ValidGroup(u)
  {
    var n := g.obytes + g.ibytes;
    assert [n][1..] == [] && [n][..0] == [];
    assert Sum([n]) == n && Sum([n][..0]) == 0;
    g.(segments := [n], isegment := 0, ioffset := g.obytes)
  }

  /** All of it is read back. */
  lemma UnsegmentedRead(g: Group)
    requires ValidGroup(g)
    ensures AllRead(Unsegmented(g)) && ReadFrom(Unsegmented(g)) == ReadFrom(g)
    ensures Unsegmented(g) == g.(segments := Unsegmented(g).segments, isegment := Unsegmented(g).isegment,
                                 ioffset := Unsegmented(g).ioffset)
  {
    var u := Unsegmented(g);
    assert u.segments[1..] == [];
    assert |ReadPieces(u)| <= 1;
    EndsInside(u);
  }

  /** The image after a cycle is the one after an exchange in one piece. */
  ghost predicate AsUnsegmented(g: Group)
    requires ValidGroup(g) && g.obytes + g.ibytes > 0
  {
    forall net: Net, image: seq<bv8>, time: int :: |image| == g.obytes + g.ibytes ==>
      Cycle(g, net, image, time).image == Cycle(Unsegmented(g), net, image, time).image
  }

  lemma SameImage(g: Group, net: Net, image: seq<bv8>, time: int)
    requires ValidGroup(g) && |image| == g.obytes + g.ibytes > 0 && AllRead(g)
    ensures Cycle(g, net, image, time).image == Cycle(Unsegmented(g), net, image, time).image
  {
    hide Cycle, Merge, ValidGroup, ReadPieces, Unsegmented;
    UnsegmentedRead(g);
    CycleImage(g, net, image, time, 0);
    CycleImage(Unsegmented(g), net, image, time, 0);
    forall k | 0 <= k < |image|
      ensures Cycle(g, net, image, time).image[k] == Cycle(Unsegmented(g), net, image, time).image[k]
    {
      CycleImage(g, net, image, time, k);
      CycleImage(Unsegmented(g), net, image, time, k);
    }
  }

  /** Slaves that set every byte to 1. */
  function Ones(rs: seq<Range>): Net {
    Net(_ => 0xff, _ => 1, [], rs, 0, 0)
  }

  function Zeros(n: nat): (image: seq<bv8>)
    ensures |image| == n
  {
    seq(n, _ => 0)
  }

  /** The first byte that is not read back stays as it was. */
  lemma UnreadByte(g: Group, rs: seq<Range>, time: int)
    requires ValidGroup(g) && g.obytes + g.ibytes > 0 && !AllRead(g)
    ensures var k, image := ReadEnd(g) - g.logstart, Zeros(g.obytes + g.ibytes);
            && 0 <= k < |image|
            && |Cycle(g, Ones(rs), image, time).image| == |image|
            && |Cycle(Unsegmented(g), Ones(rs), image, time).image| == |image|
            && Cycle(g, Ones(rs), image, time).image[k] == 0
            && Cycle(Unsegmented(g), Ones(rs), image, time).image[k] == 1
  {
    hide Cycle, ValidGroup, ReadPieces, Unsegmented;
    EndsInside(g);
    UnsegmentedRead(g);
    var k, image := ReadEnd(g) - g.logstart, Zeros(g.obytes + g.ibytes);
    CycleImage(g, Ones(rs), image, time, k);
    CycleImage(Unsegmented(g), Ones(rs), image, time, k);
  }

  /** Main result.  A segmented cycle leaves the process image as one exchange of the
      whole image would if and only if the frames past the sixteenth bring nothing back,
      and in any case gives the slaves the same output bytes. */
  lemma SegmentsDoNotMatter(g: Group)
    requires ValidGroup(g) && g.obytes + g.ibytes > 0
    ensures AsUnsegmented(g) <==> AllRead(g)
    ensures forall image: seq<bv8>, a: nat ::
      |image| == g.obytes + g.ibytes && g.logstart <= a < g.logstart + g.obytes ==>
        WrittenTo(SentFrames(g, image), a) == WrittenTo(SentFrames(Unsegmented(g), image), a)
  {
    hide Cycle, ValidGroup, SentFrames, WrittenTo, Unsegmented, AllRead;
    UnsegmentedRead(g);
    if AllRead(g) {
      forall net: Net, image: seq<bv8>, time: int | |image| == g.obytes + g.ibytes
        ensures Cycle(g, net, image, time).image == Cycle(Unsegmented(g), net, image, time).image
      {
        SameImage(g, net, image, time);
      }
    } else {
      UnreadByte(g, [], 0);
    }
    forall image: seq<bv8>, a: nat | |image| == g.obytes + g.ibytes && g.logstart <= a < g.logstart + g.obytes
      ensures WrittenTo(SentFrames(g, image), a) == WrittenTo(SentFrames(Unsegmented(g), image), a)
    {
      OutputsReachSlaves(g, image, a);
      OutputsReachSlaves(Unsegmented(g), image, a);
    }
  }

  // ----- the two paths -----

  /** Where a slave maps input bits they arrive, whatever was sent; where it maps
      none the byte comes back as sent. */
  lemma MergeBits(net: Net, a: nat, b: bv8)
    ensures Merge(net, a, b) & net.mask(a) == net.value(a) & net.mask(a)
    ensures net.mask(a) == 0 ==> Merge(net, a, b) == b
  {
  }

  function OnPath(g: Group, blockLRW: bool): (r: Group)
    ensures ValidGroup(g) ==> ValidGroup(r)
  {
    g.(blockLRW := blockLRW)
  }

  /** Slaves map no input bits in the outputs. */
  ghost predicate NoInputBits(net: Net, g: Group) {
    forall a :: g.logstart <= a < g.logstart + g.obytes ==> net.mask(a) == 0
  }

  /** How far the inputs are read back. */
  function InputsRead(g: Group): nat
    requires ValidGroup(g)
  {
    if ReadEnd(g) < g.logstart + g.obytes then g.logstart + g.obytes else ReadEnd(g)
  }

  /** The two paths bring back the same input bits. */
  ghost predicate SameInputs(g: Group)
    requires ValidGroup(g) && g.obytes + g.ibytes > 0
  {
    forall net: Net, image: seq<bv8>, time: int, k: nat ::
      NoInputBits(net, g) && k < |image| == g.obytes + g.ibytes ==> SameByte(g, net, image, time, k)
  }

  ghost predicate SameByte(g: Group, net: Net, image: seq<bv8>, time: int, k: nat)
    requires ValidGroup(g) && k < |image| == g.obytes + g.ibytes
  {
    var m := net.mask(g.logstart + k);
    var x, y := Cycle(OnPath(g, false), net, image, time).image, Cycle(OnPath(g, true), net, image, time).image;
    |x| == |y| == |image| && x[k] & m == y[k] & m
  }

  /** Both paths leave the output byte k as it was. */
  ghost predicate OutputKept(g: Group, net: Net, image: seq<bv8>, time: int, k: nat)
    requires ValidGroup(g) && k < g.obytes && |image| == g.obytes + g.ibytes
  {
    var x, y := Cycle(OnPath(g, false), net, image, time).image, Cycle(OnPath(g, true), net, image, time).image;
    |x| == |y| == |image| && x[k] == y[k] == image[k]
  }

  /** Both paths keep the outputs. */
  lemma OutputByte(g: Group, net: Net, image: seq<bv8>, time: int, k: nat)
    requires ValidGroup(g) && k < g.obytes && |image| == g.obytes + g.ibytes && NoInputBits(net, g)
    ensures OutputKept(g, net, image, time, k)
  {
    hide Cycle, Merge, ReadEnd, ValidGroup;
    CycleImage(OnPath(g, false), net, image, time, k);
    CycleImage(OnPath(g, true), net, image, time, k);
    MergeBits(net, g.logstart + k, image[k]);
  }

  /** A byte is the same where both paths read it back, or neither. */
  lemma InputByte(g: Group, net: Net, image: seq<bv8>, time: int, k: nat)
    requires ValidGroup(g) && k < |image| == g.obytes + g.ibytes && NoInputBits(net, g)
    requires InputsRead(OnPath(g, false)) == InputsRead(OnPath(g, true))
    ensures SameByte(g, net, image, time, k)
  {
    hide Cycle, Merge, ReadEnd, ValidGroup;
    if k < g.obytes {
      OutputByte(g, net, image, time, k);
    } else {
      CycleImage(OnPath(g, false), net, image, time, k);
      CycleImage(OnPath(g, true), net, image, time, k);
      MergeBits(net, g.logstart + k, image[k]);
      MergeBits(net, g.logstart + k, 0);
    }
  }

  /** Slaves that set every input byte to 1. */
  function InputOnes(from: nat): Net {
    Net(a => if a < from then 0 else 0xff, _ => 1, [], [], 0, 0)
  }

  /** The first byte that only one of the paths reads back. */
  lemma PathsDiffer(g: Group)
    requires ValidGroup(g) && g.obytes + g.ibytes > 0
    requires InputsRead(OnPath(g, false)) != InputsRead(OnPath(g, true))
    ensures !SameInputs(g)
  {
    hide Cycle, ReadPieces, ValidGroup;
    var p, q := OnPath(g, false), OnPath(g, true);
    EndsInside(p);
    EndsInside(q);
    var k: nat := (if InputsRead(p) < InputsRead(q) then InputsRead(p) else InputsRead(q)) - g.logstart;
    var net, image := InputOnes(g.logstart + g.obytes), Zeros(g.obytes + g.ibytes);
    CycleImage(p, net, image, 0, k);
    CycleImage(q, net, image, 0, k);
    assert NoInputBits(net, g) && !SameByte(g, net, image, 0, k);
  }

  /** Main result.  The two paths agree on every mapped input bit if and only if they read
      the inputs back equally far, and both keep the outputs. */
  lemma PathsAgree(g: Group)
    requires ValidGroup(g) && g.obytes + g.ibytes > 0
    ensures SameInputs(g) <==> InputsRead(OnPath(g, false)) == InputsRead(OnPath(g, true))
    ensures forall net: Net, image: seq<bv8>, time: int, k: nat ::
      NoInputBits(net, g) && k < g.obytes && |image| == g.obytes + g.ibytes ==> OutputKept(g, net, image, time, k)
  {
    hide Cycle, NoInputBits, SameByte, OutputKept, InputsRead, ValidGroup;
    if InputsRead(OnPath(g, false)) == InputsRead(OnPath(g, true)) {
      forall net: Net, image: seq<bv8>, time: int, k: nat | NoInputBits(net, g) && k < |image| == g.obytes + g.ibytes
        ensures SameByte(g, net, image, time, k)
      {
        InputByte(g, net, image, time, k);
      }
    } else {
      PathsDiffer(g);
    }
    forall net: Net, image: seq<bv8>, time: int, k: nat |
      NoInputBits(net, g) && k < g.obytes && |image| == g.obytes + g.ibytes
      ensures OutputKept(g, net, image, time, k)
    {
      OutputByte(g, net, image, time, k);
    }
  }

  // ----- the expected working counter -----

  /** The group record handed from the layout to the exchange. */
  function Laid(l: ImageLayout.Group, blockLRW: bool, hasdc: bool): Group {
    Group(l.logstart, l.obytes, l.ibytes, l.segments, l.isegment, l.ioffset, blockLRW, hasdc)
  }

  lemma LaidIsValid(logstart: nat, outs: seq<nat>, ins: seq<nat>, aligned: bool, blockLRW: bool, hasdc: bool)
    requires Fits(logstart, outs, ins, aligned)
    ensures ValidGroup(Laid(ImageLayout.GroupOf(logstart, outs, ins, aligned), blockLRW, hasdc))
  {
    SegmentsHoldImage(logstart, outs, ins, aligned);
    InputsStart(logstart, outs, ins, aligned);
  }

  /** The slaves map what the layout gave them. */
  ghost predicate MapsLayout(net: Net, logstart: nat, outs: seq<nat>, ins: seq<nat>, aligned: bool) {
    && net.outs == AllBytesOf(OutSpans(logstart, outs, aligned))
    && net.ins == AllBytesOf(InSpans(logstart, outs, ins, aligned))
  }

  lemma LaidIsMapped(net: Net, logstart: nat, outs: seq<nat>, ins: seq<nat>, aligned: bool, blockLRW: bool, hasdc: bool)
    requires MapsLayout(net, logstart, outs, ins, aligned)
    ensures ExchangeTheorems.Mapped(Laid(ImageLayout.GroupOf(logstart, outs, ins, aligned), blockLRW, hasdc), net)
    ensures var l := ImageLayout.GroupOf(logstart, outs, ins, aligned);
            Expected(net) == 2 * l.outputsWKC + l.inputsWKC
  {
    var first, second := OutSpans(logstart, outs, aligned), InSpans(logstart, outs, ins, aligned);
    forall k | 0 <= k < |first|
      ensures SpanBounds(first[k], logstart, outs, ins, aligned)
      ensures Hi(first[k]) <= logstart + ImageLayout.GroupOf(logstart, outs, ins, aligned).obytes
    {
      SpanPlace(first[k], logstart, outs, ins, aligned);
    }
    forall k | 0 <= k < |second|
      ensures SpanBounds(second[k], logstart, outs, ins, aligned)
      ensures logstart + ImageLayout.GroupOf(logstart, outs, ins, aligned).obytes <= Lo(second[k])
    {
      SpanPlace(second[k], logstart, outs, ins, aligned);
    }
    RangesInOrder(logstart, outs, ins, aligned);
    WantedPositive(outs);
    WantedPositive(ins);
  }

  ghost predicate SpanBounds(s: ImageLayout.Span, logstart: nat, outs: seq<nat>, ins: seq<nat>, aligned: bool) {
    var g := ImageLayout.GroupOf(logstart, outs, ins, aligned);
    logstart <= Lo(s) < Hi(s) <= logstart + g.obytes + g.ibytes
  }

  /** No range of the group is packed bitwise across the end of a segment. */
  ghost predicate NoneTorn(logstart: nat, outs: seq<nat>, ins: seq<nat>, aligned: bool) {
    forall s :: IsSpan(s, logstart, outs, ins, aligned) ==> !Torn(s, logstart, outs, ins, aligned)
  }

  lemma AlignedNoneTorn(logstart: nat, outs: seq<nat>, ins: seq<nat>)
    ensures NoneTorn(logstart, outs, ins, true)
  {
    var c0 := ImageLayout.Cursor(logstart, 0);
    var c1 := ImageLayout.Flushed(ImageLayout.End(c0, outs, true));
    ImageLayout.EndAppend(c0, outs, 0, true);
    AlignedNeverStraddles(c0, outs);
    AlignedNeverStraddles(c1, ins);
  }

  /** Main result.  When all slaves answer and up to sixteen frames all come back, the
      counter of a cycle is 2 * outputsWKC + inputsWKC, on either path, if and only if no
      range is packed bitwise across the end of a segment. */
  lemma ExpectedCounterReached(net: Net, logstart: nat, outs: seq<nat>, ins: seq<nat>, aligned: bool,
                               blockLRW: bool, hasdc: bool, image: seq<bv8>, time: int)
    requires Fits(logstart, outs, ins, aligned) && MapsLayout(net, logstart, outs, ins, aligned)
    requires var l := ImageLayout.GroupOf(logstart, outs, ins, aligned); |image| == l.obytes + l.ibytes > 0
    ensures var l := ImageLayout.GroupOf(logstart, outs, ins, aligned);
            var g := Laid(l, blockLRW, hasdc);
            && ValidGroup(g)
            && (|SentFrames(g, image)| <= MAX_BUF ==>
                (Cycle(g, net, image, time).wkc == 2 * l.outputsWKC + l.inputsWKC
                 <==> NoneTorn(logstart, outs, ins, aligned)))
  {
    var g := Laid(ImageLayout.GroupOf(logstart, outs, ins, aligned), blockLRW, hasdc);
    LaidIsValid(logstart, outs, ins, aligned, blockLRW, hasdc);
    LaidIsMapped(net, logstart, outs, ins, aligned, blockLRW, hasdc);
    LaidUndivided(net, logstart, outs, ins, aligned, blockLRW, hasdc);
    hide Undivided, ExchangeTheorems.Mapped, Fits, ImageLayout.GroupOf, Laid, MapsLayout, NoneTorn;
    if |SentFrames(g, image)| <= MAX_BUF {
      FullCounter(g, net, image, time);
    }
  }

  // ----- detecting slaves that do not answer -----

  /** The ranges of the slaves that answer. */
  function Pick(rs: seq<Range>, up: seq<bool>): seq<Range>
    requires |rs| == |up|
  {
    if rs == [] then [] else (if up[0] then [rs[0]] else []) + Pick(rs[1..], up[1..])
  }

  lemma {:induction false} PickAll(rs: seq<Range>, up: seq<bool>)
    requires |rs| == |up|
    ensures |Pick(rs, up)| <= |rs| && forall r :: r in Pick(rs, up) ==> r in rs
    ensures |Pick(rs, up)| == |rs| <==> false !in up
    ensures false !in up ==> Pick(rs, up) == rs
    decreases |rs|
  {
    if rs != [] {
      PickAll(rs[1..], up[1..]);
      assert false in up <==> !up[0] || false in up[1..];
    }
  }

  /** Of the slaves mapped by the layout those flagged answer, each in the one direction
      or the other. */
  ghost predicate Answering(net: Net, outUp: seq<bool>, inUp: seq<bool>, logstart: nat, outs: seq<nat>,
                            ins: seq<nat>, aligned: bool) {
    var first, second := OutSpans(logstart, outs, aligned), InSpans(logstart, outs, ins, aligned);
    && |outUp| == |first| && |inUp| == |second|
    && net.outs == Pick(AllBytesOf(first), outUp) && net.ins == Pick(AllBytesOf(second), inUp)
  }

  /** No range lies in frames that are not taken back. */
  ghost predicate RangesTaken(g: Group, outs: seq<ImageLayout.Span>, ins: seq<ImageLayout.Span>)
    requires ValidGroup(g)
  {
    && (forall s :: s in outs ==> Hi(s) <= WriteEnd(g))
    && forall s :: s in ins ==> Hi(s) <= ReadEnd(g)
  }

  ghost predicate EndBy(rs: seq<Range>, end: nat) {
    forall r :: r in rs ==> r.hi <= end
  }

  /** Undivided slaves are counted once if all their bytes are in the first m frames. */
  lemma {:induction false} CountedFirst(sizes: seq<nat>, m: nat, base: nat, rs: seq<Range>)
    requires Undivided(rs, sizes, base) && forall k :: 0 <= k < |rs| ==> base <= rs[k].lo < rs[k].hi
    ensures TouchedSum(First(sizes, m), base, rs) <= |rs|
    ensures TouchedSum(First(sizes, m), base, rs) == |rs| <==> EndBy(rs, base + Sum(First(sizes, m)))
    decreases |rs|
  {
    hide Touched, Within, Sum, First;
    if rs != [] {
      TouchedFirst(sizes, m, base, rs[0].lo, rs[0].hi);
      CountedFirst(sizes, m, base, rs[1..]);
      assert forall r :: r in rs <==> r == rs[0] || r in rs[1..];
    }
  }

  /** The counter of slaves of which some may not answer. */
  lemma PickedCounter(sizes: seq<nat>, m: nat, base: nat, rs: seq<Range>, up: seq<bool>)
    requires |rs| == |up| && Undivided(rs, sizes, base) && forall k :: 0 <= k < |rs| ==> base <= rs[k].lo < rs[k].hi
    ensures var n := TouchedSum(First(sizes, m), base, Pick(rs, up));
            && n <= |rs|
            && (n == |rs| <==> false !in up && EndBy(rs, base + Sum(First(sizes, m))))
  {
    hide Within, Sum, First, TouchedSum;
    var some := Pick(rs, up);
    PickAll(rs, up);
    forall k | 0 <= k < |some|
      ensures base <= some[k].lo < some[k].hi && Within(sizes, base, some[k].lo, some[k].hi)
    {
      assert some[k] in rs;
    }
    CountedFirst(sizes, m, base, Pick(rs, up));
  }

  /** All ranges of the layout lie on the pieces of the path, and none is divided. */
  lemma LaidOnPieces(full: Net, logstart: nat, outs: seq<nat>, ins: seq<nat>, aligned: bool, blockLRW: bool,
                     hasdc: bool)
    requires Fits(logstart, outs, ins, aligned) && MapsLayout(full, logstart, outs, ins, aligned)
    requires NoneTorn(logstart, outs, ins, aligned)
    ensures var g := Laid(ImageLayout.GroupOf(logstart, outs, ins, aligned), blockLRW, hasdc);
            && ValidGroup(g) && ExchangeTheorems.Mapped(g, full)
            && Undivided(full.outs, WritePieces(g), g.logstart) && Undivided(full.ins, ReadPieces(g), ReadFrom(g))
  {
    var g := Laid(ImageLayout.GroupOf(logstart, outs, ins, aligned), blockLRW, hasdc);
    LaidIsValid(logstart, outs, ins, aligned, blockLRW, hasdc);
    LaidIsMapped(full, logstart, outs, ins, aligned, blockLRW, hasdc);
    LaidUndivided(full, logstart, outs, ins, aligned, blockLRW, hasdc);
    hide Undivided, ExchangeTheorems.Mapped, Fits, ImageLayout.GroupOf, Laid, MapsLayout, NoneTorn, ValidGroup,
         LrdSizes, LwrSizes, LrwSizes;
    SameDivision(g, full);
  }

  lemma EndBySpans(spans: seq<ImageLayout.Span>, end: nat)
    ensures EndBy(AllBytesOf(spans), end) <==> forall s :: s in spans ==> Hi(s) <= end
  {
    var rs := AllBytesOf(spans);
    if EndBy(rs, end) {
      forall s | s in spans
        ensures Hi(s) <= end
      {
        var k :| 0 <= k < |spans| && spans[k] == s;
        assert rs[k] in rs;
      }
    }
  }

  /** The counter of a cycle in which some of the mapped slaves answer. */
  lemma AnsweringCounter(g: Group, full: Net, net: Net, outUp: seq<bool>, inUp: seq<bool>, image: seq<bv8>, time: int)
    requires ValidGroup(g) && ExchangeTheorems.Mapped(g, full) && |image| == g.obytes + g.ibytes > 0
    requires Undivided(full.outs, WritePieces(g), g.logstart) && Undivided(full.ins, ReadPieces(g), ReadFrom(g))
    requires |outUp| == |full.outs| && net.outs == Pick(full.outs, outUp)
    requires |inUp| == |full.ins| && net.ins == Pick(full.ins, inUp)
    ensures Cycle(g, net, image, time).wkc == Expected(full)
      <==> false !in outUp && false !in inUp && EndBy(full.outs, WriteEnd(g)) && EndBy(full.ins, ReadEnd(g))
  {
    hide Undivided, ValidGroup, WritePieces, ReadPieces, WriteRoom, First, TouchedSum, Cycle, Sum, EndBy, Pick;
    CycleCounter(g, net, image, time);
    PickedCounter(WritePieces(g), WriteRoom(g), g.logstart, full.outs, outUp);
    PickedCounter(ReadPieces(g), MAX_BUF, ReadFrom(g), full.ins, inUp);
  }

  /** Main result.  When no range is torn and every frame comes back, the counter of a
      cycle is the expected one if and only if every mapped slave answers and no range
      lies in frames past the sixteenth. */
  lemma CounterDetects(net: Net, outUp: seq<bool>, inUp: seq<bool>, logstart: nat, outs: seq<nat>, ins: seq<nat>,
                       aligned: bool, blockLRW: bool, hasdc: bool, image: seq<bv8>, time: int)
    requires Fits(logstart, outs, ins, aligned) && NoneTorn(logstart, outs, ins, aligned)
    requires Answering(net, outUp, inUp, logstart, outs, ins, aligned)
    requires var l := ImageLayout.GroupOf(logstart, outs, ins, aligned); |image| == l.obytes + l.ibytes > 0
    ensures var l := ImageLayout.GroupOf(logstart, outs, ins, aligned);
            var g := Laid(l, blockLRW, hasdc);
            && ValidGroup(g)
            && (Cycle(g, net, image, time).wkc == 2 * l.outputsWKC + l.inputsWKC
                <==> false !in outUp && false !in inUp
                     && RangesTaken(g, OutSpans(logstart, outs, aligned), InSpans(logstart, outs, ins, aligned)))
  {
    var first, second := OutSpans(logstart, outs, aligned), InSpans(logstart, outs, ins, aligned);
    var full := net.(outs := AllBytesOf(first), ins := AllBytesOf(second));
    var g := Laid(ImageLayout.GroupOf(logstart, outs, ins, aligned), blockLRW, hasdc);
    LaidOnPieces(full, logstart, outs, ins, aligned, blockLRW, hasdc);
    LaidIsMapped(full, logstart, outs, ins, aligned, blockLRW, hasdc);
    hide Undivided, Fits, ImageLayout.GroupOf, NoneTorn, ValidGroup, WritePieces, ReadPieces, WriteEnd, ReadEnd,
         OutSpans, InSpans, Cycle, EndBy, Hi, Pick, ExchangeTheorems.Mapped;
    AnsweringCounter(g, full, net, outUp, inUp, image, time);
    EndBySpans(first, WriteEnd(g));
    EndBySpans(second, ReadEnd(g));
  }

  lemma FewFramesTaken(logstart: nat, outs: seq<nat>, ins: seq<nat>, aligned: bool, blockLRW: bool, hasdc: bool,
                       image: seq<bv8>)
    requires Fits(logstart, outs, ins, aligned)
    requires var l := ImageLayout.GroupOf(logstart, outs, ins, aligned); |image| == l.obytes + l.ibytes > 0
    ensures var g := Laid(ImageLayout.GroupOf(logstart, outs, ins, aligned), blockLRW, hasdc);
            && ValidGroup(g)
            && (|SentFrames(g, image)| <= MAX_BUF ==>
                RangesTaken(g, OutSpans(logstart, outs, aligned), InSpans(logstart, outs, ins, aligned)))
  {
    var g := Laid(ImageLayout.GroupOf(logstart, outs, ins, aligned), blockLRW, hasdc);
    LaidIsValid(logstart, outs, ins, aligned, blockLRW, hasdc);
    hide ImageLayout.GroupOf, OutSpans, InSpans, Fits, ValidGroup, WriteEnd, ReadEnd, Hi;
    if |SentFrames(g, image)| <= MAX_BUF {
      FewFramesRead(g, image);
      forall s | IsSpan(s, logstart, outs, ins, aligned)
        ensures s in OutSpans(logstart, outs, aligned) ==> Hi(s) <= WriteEnd(g)
        ensures s in InSpans(logstart, outs, ins, aligned) ==> Hi(s) <= ReadEnd(g)
      {
        SpanPlace(s, logstart, outs, ins, aligned);
      }
    }
  }

  lemma FewFramesRead(g: Group, image: seq<bv8>)
    requires ValidGroup(g) && |image| == g.obytes + g.ibytes > 0 && |SentFrames(g, image)| <= MAX_BUF
    ensures AllRead(g) && WriteEnd(g) >= g.logstart + g.obytes
  {
    hide ValidGroup, LrdSizes, LwrSizes, LrwSizes, Frames, WriteEnd, ReadEnd;
    EndsInside(g);
    FramesPerPath(g, image);
  }

  lemma FramesPerPath(g: Group, image: seq<bv8>)
    requires ValidGroup(g) && |image| == g.obytes + g.ibytes > 0
    ensures |SentFrames(g, image)| == if g.blockLRW then |LrdSizes(g)| + |LwrSizes(g)| else |LrwSizes(g)|
  {
    hide ValidGroup, LrdSizes, LwrSizes, LrwSizes, Frames;
    PiecesTile(g);
    if g.blockLRW {
      FramesCount(LRD, image, LrdSizes(g), g.obytes, g.logstart + g.obytes, g.hasdc);
      FramesCount(LWR, image, LwrSizes(g), 0, g.logstart, g.hasdc && g.ibytes == 0);
    } else {
      FramesCount(LRW, image, LrwSizes(g), 0, g.logstart, g.hasdc);
    }
  }

  /** With byte alignment nothing is torn, so that up to sixteen frames give the expected
      counter if and only if every mapped slave answers. */
  lemma AlignedCounterReached(net: Net, outUp: seq<bool>, inUp: seq<bool>, logstart: nat, outs: seq<nat>, ins: seq<nat>,
                              blockLRW: bool, hasdc: bool, image: seq<bv8>, time: int)
    requires Fits(logstart, outs, ins, true) && Answering(net, outUp, inUp, logstart, outs, ins, true)
    requires var l := ImageLayout.GroupOf(logstart, outs, ins, true); |image| == l.obytes + l.ibytes > 0
    ensures var l := ImageLayout.GroupOf(logstart, outs, ins, true);
            var g := Laid(l, blockLRW, hasdc);
            && ValidGroup(g)
            && (|SentFrames(g, image)| <= MAX_BUF ==>
                (Cycle(g, net, image, time).wkc == 2 * l.outputsWKC + l.inputsWKC
                 <==> false !in outUp && false !in inUp))
  {
    hide Cycle, Fits, Answering, NoneTorn, ValidGroup, RangesTaken;
    AlignedNoneTorn(logstart, outs, ins);
    CounterDetects(net, outUp, inUp, logstart, outs, ins, true, blockLRW, hasdc, image, time);
    FewFramesTaken(logstart, outs, ins, true, blockLRW, hasdc, image);
  }

  /** Slaves that answer where their FMMUs say map the layout. */
  lemma MappedSlavesMapLayout(net: Net, list: seq<ImageLayout.IoSlave>, group: nat, logstart: nat, aligned: bool)
    requires 1 <= |list| && ImageLayout.AllMappable(list, true) && ImageLayout.AllMappable(list, false)
    ensures var mid := OutputsMapped(list, group, logstart, aligned);
            var end := ImageLayout.GroupList(list, group, logstart, aligned);
            && Grown(list, mid) && Grown(mid, end)
            && (net.outs == NewRanges(list, mid, |list|) && net.ins == NewRanges(mid, end, |list|)
                <==> MapsLayout(net, logstart, ImageLayout.Demands(list, true, group, |list|),
                                ImageLayout.Demands(list, false, group, |list|), aligned))
  {
    hide OutputsMapped, ImageLayout.GroupList, Grown, NewRanges, OutSpans, InSpans, ImageLayout.Demands;
    FmmusCoverLayout(list, group, logstart, aligned);
  }

  lemma SpanWithin(s: ImageLayout.Span, logstart: nat, outs: seq<nat>, ins: seq<nat>, aligned: bool)
    requires Fits(logstart, outs, ins, aligned) && IsSpan(s, logstart, outs, ins, aligned)
    ensures var r := BytesOf(s);
            Within(ImageLayout.GroupOf(logstart, outs, ins, aligned).segments, logstart, r.lo, r.hi)
            <==> !Torn(s, logstart, outs, ins, aligned)
  {
    hide Within, Torn, Fits, ImageLayout.GroupOf;
    SlaveUndivided(s, logstart, outs, ins, aligned);
  }

  lemma LaidUndivided(net: Net, logstart: nat, outs: seq<nat>, ins: seq<nat>, aligned: bool, blockLRW: bool,
                      hasdc: bool)
    requires Fits(logstart, outs, ins, aligned) && MapsLayout(net, logstart, outs, ins, aligned)
    ensures var g := Laid(ImageLayout.GroupOf(logstart, outs, ins, aligned), blockLRW, hasdc);
            Undivided(net.outs, g.segments, g.logstart) && Undivided(net.ins, g.segments, g.logstart)
            <==> NoneTorn(logstart, outs, ins, aligned)
  {
    hide Within, Torn, Fits, OutSpans, InSpans, ImageLayout.GroupOf, BytesOf;
    var first, second := OutSpans(logstart, outs, aligned), InSpans(logstart, outs, ins, aligned);
    var segments := ImageLayout.GroupOf(logstart, outs, ins, aligned).segments;
    forall s | IsSpan(s, logstart, outs, ins, aligned)
      ensures Within(segments, logstart, BytesOf(s).lo, BytesOf(s).hi) <==> !Torn(s, logstart, outs, ins, aligned)
    {
      SpanWithin(s, logstart, outs, ins, aligned);
    }
    OriginOfGroup(logstart, outs, ins, aligned);
    UndividedSpans(net.outs, first, segments, logstart);
    UndividedSpans(net.ins, second, segments, logstart);
  }

  lemma UndividedSpans(rs: seq<Range>, spans: seq<ImageLayout.Span>, segments: seq<nat>, base: nat)
    requires rs == AllBytesOf(spans)
    ensures Undivided(rs, segments, base)
      <==> forall s :: s in spans ==> Within(segments, base, BytesOf(s).lo, BytesOf(s).hi)
  {
    hide Within, BytesOf;
    if Undivided(rs, segments, base) {
      forall s | s in spans
        ensures Within(segments, base, BytesOf(s).lo, BytesOf(s).hi)
      {
        var k :| 0 <= k < |spans| && spans[k] == s;
        assert rs[k] == BytesOf(s);
      }
    }
  }

  lemma OriginOfGroup(logstart: nat, outs: seq<nat>, ins: seq<nat>, aligned: bool)
    ensures ImageLayout.GroupOf(logstart, outs, ins, aligned).logstart == logstart
  {
  }

  /** The counter of a cycle, slave by slave. */
  lemma CycleCounter(g: Group, net: Net, image: seq<bv8>, time: int)
    requires ValidGroup(g) && |image| == g.obytes + g.ibytes > 0
    ensures Cycle(g, net, image, time).wkc
      == 2 * TouchedSum(First(WritePieces(g), WriteRoom(g)), g.logstart, net.outs)
         + TouchedSum(First(ReadPieces(g), MAX_BUF), ReadFrom(g), net.ins)
  {
    hide ValidGroup, Shares, TakeAll, Returned, SentFrames, PushedEntries, LrwSizes, LrdSizes, LwrSizes, TouchedSum,
         FirstCame, Heard, Stacked, First, Came, AllMatch;
    if g.blockLRW {
      var a, b := |LrdSizes(g)|, |LwrSizes(g)|;
      AllCameSum(a, b);
      HeardOfBoth(a, b);
      SplitExchange(g, net, image, time, AllCame(a), AllCame(b));
      FirstCounter(net, LRD, LrdSizes(g), g.logstart + g.obytes, MAX_BUF);
      FirstCounter(net, LWR, LwrSizes(g), g.logstart, RoomAfter(a));
    } else {
      HeardOfAll(|LrwSizes(g)|);
      ReadWriteExchange(g, net, image, time, AllCame(|LrwSizes(g)|));
      FirstCounter(net, LRW, LrwSizes(g), g.logstart, MAX_BUF);
    }
  }

  lemma FirstCounter(net: Net, cmd: Command, sizes: seq<nat>, base: nat, m: nat)
    ensures Shares(net, cmd, sizes, base, FirstCame(|sizes|, m)) ==
      match cmd
      case LRD => TouchedSum(First(sizes, m), base, net.ins)
      case LWR => 2 * TouchedSum(First(sizes, m), base, net.outs)
      case LRW => 2 * TouchedSum(First(sizes, m), base, net.outs) + TouchedSum(First(sizes, m), base, net.ins)
  {
    hide Shares, TouchedSum;
    SharesFirst(net, cmd, sizes, base, m);
    SharesByRange(net, cmd, First(sizes, m), base);
  }

  /** When all frames are taken back. */
  lemma FullCounter(g: Group, net: Net, image: seq<bv8>, time: int)
    requires ValidGroup(g) && ExchangeTheorems.Mapped(g, net) && |image| == g.obytes + g.ibytes > 0
    requires |SentFrames(g, image)| <= MAX_BUF
    ensures Cycle(g, net, image, time).wkc == Expected(net)
      <==> Undivided(net.outs, g.segments, g.logstart) && Undivided(net.ins, g.segments, g.logstart)
  {
    hide Undivided, ExchangeTheorems.Mapped, ValidGroup, Shares, LrwSizes, LrdSizes, LwrSizes, TouchedSum, Cycle,
         SentFrames;
    SameDivision(g, net);
    FramesPerPath(g, image);
    CycleCounter(g, net, image, time);
    if g.blockLRW {
      SplitCounter(g, net);
      SharesByRange(net, LRD, LrdSizes(g), g.logstart + g.obytes);
      SharesByRange(net, LWR, LwrSizes(g), g.logstart);
    } else {
      ReadWriteCounter(g, net);
      SharesByRange(net, LRW, LrwSizes(g), g.logstart);
    }
  }
}
