/** The cyclic exchange of the process image in frames: one LRW per segment, or an
    LRD and an LWR part, with the clock datagram riding on the first frame. */
module CyclicExchange {
  import opened EtherCat

  /** Command numbers of the logical-memory datagrams. */
  datatype Command = LRD | LWR | LRW

  /** A frame: its process-data datagram, and whether a clock datagram follows it. */
  datatype Frame = Frame(cmd: Command, address: nat, data: seq<bv8>, clock: bool)

  /** One entry of the index stack: where in the process image the data belongs,
      its length, and the offset of the clock data in the frame (0 if absent). */
  datatype Entry = Entry(offset: nat, length: nat, dcoffset: nat)

  /** What comes back for one entry: nothing, or the datagram with its working
      counter, the counter of the last datagram of the frame, and the clock data. */
  datatype Reply = Lost | Reply(cmd: Command, data: seq<bv8>, wkc: nat, lastWkc: nat, time: int)

  /** The group record as far as the exchange reads it. */
  datatype Group = Group(
    logstart: nat, obytes: nat, ibytes: nat, segments: seq<nat>, isegment: nat, ioffset: nat,
    blockLRW: bool, hasdc: bool)

  /** `Isegment` and `Ioffset` name the first input byte and the segments hold the
      image: what the layout of the group guarantees. */
  ghost predicate ValidGroup(g: Group) {
    && 1 <= |g.segments| && g.isegment < |g.segments| && g.ioffset <= g.segments[g.isegment]
    && Sum(g.segments) == g.obytes + g.ibytes
    && Sum(g.segments[..g.isegment]) + g.ioffset == g.obytes
  }

  // ----- cutting the image into frames -----

  /** Sizes of the pieces of a do-while loop over `sizes` that ends once `length`
      bytes are sent; `clip` shortens the last piece to what is left. */
  function Cut(sizes: seq<nat>, length: int, clip: bool): seq<nat>
    requires sizes != []
    decreases |sizes|
  {
    var sub := if clip && 0 <= length < sizes[0] then length else sizes[0];
    [sub] + if length - sub != 0 && |sizes| > 1 then Cut(sizes[1..], length - sub, clip) else []
  }

  /** Sizes of the LRD pieces before cutting. */
  function InputSizes(g: Group): seq<nat>
    requires g.isegment < |g.segments| && g.ioffset <= g.segments[g.isegment]
  {
    [g.segments[g.isegment] - g.ioffset] + g.segments[g.isegment + 1..]
  }

  /** The frames of consecutive pieces from image offset `offset`, logical address
      `address`. */
  function Frames(cmd: Command, image: seq<bv8>, sizes: seq<nat>, offset: nat, address: nat, clock: bool): seq<Frame>
    requires offset + Sum(sizes) <= |image|
    decreases |sizes|
  {
    if sizes == [] then []
    else
      [Frame(cmd, address, Sent(cmd, image[offset..offset + sizes[0]]), clock)]
        + Frames(cmd, image, sizes[1..], offset + sizes[0], address + sizes[0], false)
  }

  /** A pure read is sent with a cleared placeholder. */
  function Sent(cmd: Command, data: seq<bv8>): (r: seq<bv8>)
    ensures |r| == |data|
  {
    if cmd == LRD then seq(|data|, _ => 0) else data
  }

  /** The index-stack entries pushed for the same pieces. */
  function Entries(sizes: seq<nat>, offset: nat, clock: bool): seq<Entry>
    decreases |sizes|
  {
    if sizes == [] then []
    else
      [Entry(offset, sizes[0], if clock then ClockOffset(sizes[0]) else 0)]
        + Entries(sizes[1..], offset + sizes[0], false)
  }

  /** Where the clock data of a second datagram sits in the received frame. */
  function ClockOffset(length: nat): nat {
    EC_HEADER + length + WKC_SIZE + EC_HEADER - EC_LENGTH
  }

  /** Piece sizes, and what is sent and pushed, on each path. */
  function LrwSizes(g: Group): seq<nat>
    requires ValidGroup(g)
  {
    Cut(g.segments, g.obytes + g.ibytes, false)
  }

  function LrdSizes(g: Group): seq<nat>
    requires ValidGroup(g)
  {
    if g.ibytes == 0 then [] else Cut(InputSizes(g), g.ibytes, false)
  }

  function LwrSizes(g: Group): seq<nat>
    requires ValidGroup(g)
  {
    if g.obytes == 0 then [] else Cut(g.segments, g.obytes, true)
  }

  lemma {:induction false} CutSum(sizes: seq<nat>, length: nat, clip: bool)
    requires sizes != []
    requires if clip then length <= Sum(sizes) else length == Sum(sizes)
    ensures Sum(Cut(sizes, length, clip)) == length
    decreases |sizes|
  {
    var sub := if clip && length < sizes[0] then length else sizes[0];
    if length - sub != 0 && |sizes| > 1 {
      CutSum(sizes[1..], length - sub, clip);
      assert Cut(sizes, length, clip)[1..] == Cut(sizes[1..], length - sub, clip);
    } else {
      assert sizes[1..] == [] ==> Sum(sizes) == sizes[0];
      assert Cut(sizes, length, clip) == [sub];
      assert [sub][1..] == [];
    }
  }

  lemma {:induction false} CutWithin(sizes: seq<nat>, length: nat, clip: bool, base: nat, lo: nat, hi: nat)
    requires sizes != [] && Within(sizes, base, lo, hi) && lo < hi <= base + length
    ensures Within(Cut(sizes, length, clip), base, lo, hi)
    decreases |sizes|
  {
    var sub := if clip && length < sizes[0] then length else sizes[0];
    if base <= lo && hi <= base + sizes[0] {
    } else {
      WithinStart(sizes[1..], base + sizes[0], lo, hi);
      CutWithin(sizes[1..], length - sub, clip, base + sizes[0], lo, hi);
      assert Cut(sizes, length, clip)[1..] == Cut(sizes[1..], length - sub, clip);
    }
  }

  /** And the other way round. */
  lemma {:induction false} CutWithinBack(sizes: seq<nat>, length: int, clip: bool, base: nat, lo: nat, hi: nat)
    requires sizes != [] && Within(Cut(sizes, length, clip), base, lo, hi) && (clip ==> length >= 0)
    ensures Within(sizes, base, lo, hi)
    decreases |sizes|
  {
    var sub := if clip && 0 <= length < sizes[0] then length else sizes[0];
    if !(base <= lo && hi <= base + sub) {
      CutWithinBack(sizes[1..], length - sub, clip, base + sizes[0], lo, hi);
      assert Cut(sizes, length, clip)[1..] == Cut(sizes[1..], length - sub, clip);
    }
  }

  lemma InputSizesSum(g: Group)
    requires ValidGroup(g)
    ensures Sum(InputSizes(g)) == g.ibytes
  {
    var k := g.isegment;
    SumSplit(g.segments, k);
    assert g.segments[k..] == [g.segments[k]] + g.segments[k + 1..];
    SumConcat([g.segments[k]], g.segments[k + 1..]);
    assert [g.segments[k]][1..] == [];
    assert InputSizes(g)[1..] == g.segments[k + 1..];
  }

  /** The pieces of each path add up to the bytes they are for. */
  lemma PiecesTile(g: Group)
    requires ValidGroup(g)
    ensures Sum(LrwSizes(g)) == g.obytes + g.ibytes
    ensures Sum(LrdSizes(g)) == g.ibytes
    ensures Sum(LwrSizes(g)) == g.obytes
  {
    CutSum(g.segments, g.obytes + g.ibytes, false);
    InputSizesSum(g);
    if g.ibytes > 0 {
      CutSum(InputSizes(g), g.ibytes, false);
    }
    if g.obytes > 0 {
      CutSum(g.segments, g.obytes, true);
    }
  }

  // ----- sending and receiving, in place -----

  function SentFrames(g: Group, image: seq<bv8>): seq<Frame>
    requires ValidGroup(g) && |image| == g.obytes + g.ibytes
  {
    PiecesTile(g);
    if g.obytes + g.ibytes == 0 then []
    else if g.blockLRW then
      Frames(LRD, image, LrdSizes(g), g.obytes, g.logstart + g.obytes, g.hasdc)
        + Frames(LWR, image, LwrSizes(g), 0, g.logstart, g.hasdc && g.ibytes == 0)
    else Frames(LRW, image, LrwSizes(g), 0, g.logstart, g.hasdc)
  }

  function PushedEntries(g: Group): seq<Entry>
    requires ValidGroup(g)
  {
    if g.obytes + g.ibytes == 0 then []
    else if g.blockLRW then
      Entries(LrdSizes(g), g.obytes, g.hasdc) + Entries(LwrSizes(g), 0, g.hasdc && g.ibytes == 0)
    else Entries(LrwSizes(g), 0, g.hasdc)
  }

  /** Image, counter, whether any frame came back, and the clock. */
  datatype State = State(image: seq<bv8>, wkc: nat, valid: bool, time: int)

  function Overwrite(image: seq<bv8>, offset: nat, data: seq<bv8>): (r: seq<bv8>)
    requires offset + |data| <= |image|
    ensures |r| == |image|
    ensures forall k :: 0 <= k < |image| ==>
      r[k] == if offset <= k < offset + |data| then data[k - offset] else image[k]
  {
    image[..offset] + data + image[offset + |data|..]
  }

  predicate Matches(image: seq<bv8>, e: Entry, r: Reply) {
    e.offset + e.length <= |image| && (r.Reply? ==> |r.data| >= e.length)
  }

  /** The effect of one reply. */
  function Take(s: State, e: Entry, r: Reply): (t: State)
    requires Matches(s.image, e, r)
    ensures |t.image| == |s.image|
  {
    if r.Lost? then s
    else if r.cmd == LWR then
      if e.dcoffset > 0 then s.(wkc := r.wkc * 2, time := r.time, valid := true)
      else s.(wkc := s.wkc + r.lastWkc * 2, valid := true)
    else
      var image := Overwrite(s.image, e.offset, r.data[..e.length]);
      if e.dcoffset > 0 then State(image, r.wkc, true, r.time)
      else State(image, s.wkc + r.lastWkc, true, s.time)
  }

  ghost predicate AllMatch(image: seq<bv8>, es: seq<Entry>, rs: seq<Reply>) {
    |es| == |rs| && forall i :: 0 <= i < |es| ==> Matches(image, es[i], rs[i])
  }

  function TakeAll(s: State, es: seq<Entry>, rs: seq<Reply>): (t: State)
    requires AllMatch(s.image, es, rs)
    ensures |t.image| == |s.image|
    decreases |es|
  {
    if es == [] then s else TakeAll(Take(s, es[0], rs[0]), es[1..], rs[1..])
  }

  /** What is sent and pushed so far, and what the pieces still ahead will add, make
      up the whole. */
  ghost predicate Pending(cmd: Command, image: seq<bv8>, left: seq<nat>, data: nat, address: nat, first: bool,
                          sent: seq<Frame>, stack: seq<Entry>, frames: seq<Frame>, entries: seq<Entry>) {
    && data + Sum(left) <= |image|
    && sent + Frames(cmd, image, left, data, address, first) == frames
    && stack + Entries(left, data, first) == entries
  }

  lemma AllPending(cmd: Command, image: seq<bv8>, left: seq<nat>, data: nat, address: nat, first: bool,
                   sent: seq<Frame>, stack: seq<Entry>)
    requires data + Sum(left) <= |image|
    ensures Pending(cmd, image, left, data, address, first, sent, stack,
                    sent + Frames(cmd, image, left, data, address, first), stack + Entries(left, data, first))
  {
  }

  /** Sending and pushing the next piece. */
  lemma NextPending(cmd: Command, image: seq<bv8>, left: seq<nat>, data: nat, address: nat, first: bool,
                    sent: seq<Frame>, stack: seq<Entry>, frames: seq<Frame>, entries: seq<Entry>)
    requires left != [] && Pending(cmd, image, left, data, address, first, sent, stack, frames, entries)
    ensures data + left[0] <= |image|
    ensures Pending(cmd, image, left[1..], data + left[0], address + left[0], false,
                    sent + [Frame(cmd, address, Sent(cmd, image[data..data + left[0]]), first)],
                    stack + [Entry(data, left[0], if first then ClockOffset(left[0]) else 0)], frames, entries)
  {
    hide Sent;
    FramesStep(cmd, image, left, data, address, first);
  }

  /** The entries that find room on the stack; the frames of the others are sent but
      never taken back. */
  function Stacked(es: seq<Entry>): seq<Entry> {
    if |es| <= MAX_BUF then es else es[..MAX_BUF]
  }

  lemma StackedMore(es: seq<Entry>, e: Entry)
    ensures Stacked(es + [e]) == if |Stacked(es)| < MAX_BUF then Stacked(es) + [e] else Stacked(es)
  {
  }

  lemma NothingPending(cmd: Command, image: seq<bv8>, data: nat, address: nat, first: bool,
                       sent: seq<Frame>, stack: seq<Entry>, frames: seq<Frame>, entries: seq<Entry>)
    requires Pending(cmd, image, [], data, address, first, sent, stack, frames, entries)
    ensures sent == frames && stack == entries
  {
  }

  /** The master's side: the process image, the index stack, the clock variable, and
      the frames handed to the driver. */
  class Master {
    const iomap: array<bv8>
    var stack: seq<Entry>
    var pulled: nat
    var time: int
    var sent: seq<Frame>

    constructor (iomap: array<bv8>)
      ensures this.iomap == iomap && stack == [] && pulled == 0 && sent == []
    {
      this.iomap := iomap;
      stack, pulled, time, sent := [], 0, 0, [];
    }

    method PushIndex(e: Entry)
      modifies this`stack
      ensures stack == if old(|stack|) < MAX_BUF then old(stack) + [e] else old(stack)
    {
      if |stack| < MAX_BUF {
        stack := stack + [e];
      }
    }

    /** The body shared by the three loops; `pushed` are all entries so far. */
    method SendFrame(cmd: Command, address: nat, data: nat, sublength: nat, first: bool, ghost pushed: seq<Entry>)
      requires data + sublength <= iomap.Length && stack == Stacked(pushed)
      modifies this`stack, this`sent
      ensures sent == old(sent) + [Frame(cmd, address, Sent(cmd, iomap[data..data + sublength]), first)]
      ensures stack == Stacked(pushed + [Entry(data, sublength, if first then ClockOffset(sublength) else 0)])
    {
      var DCO := 0;
      if first {
        DCO := ClockOffset(sublength);
      }
      sent := sent + [Frame(cmd, address, Sent(cmd, iomap[data..data + sublength]), first)];
      StackedMore(pushed, Entry(data, sublength, DCO));
      PushIndex(Entry(data, sublength, DCO));
    }

    /** One iteration of a sending loop; `left` are the pieces still to be sent. */
    method SendNext(cmd: Command, size: nat, length: nat, clip: bool, data: nat, LogAdr: nat, first: bool,
                    ghost image: seq<bv8>, ghost left: seq<nat>, ghost pushed: seq<Entry>,
                    ghost frames: seq<Frame>, ghost entries: seq<Entry>)
      returns (sublength: nat, ghost now: seq<Entry>)
      requires left != [] && left[0] == if clip && length < size then length else size
      requires iomap[..] == image && stack == Stacked(pushed)
      requires Pending(cmd, image, left, data, LogAdr, first, sent, pushed, frames, entries)
      modifies this`stack, this`sent
      ensures sublength == left[0] && stack == Stacked(now)
      ensures Pending(cmd, image, left[1..], data + sublength, LogAdr + sublength, false, sent, now, frames, entries)
    {
      hide Sent, Pending, Frames, Entries, Sum, Stacked;
      NextPending(cmd, image, left, data, LogAdr, first, sent, pushed, frames, entries);
      sublength := size;
      if clip && length - sublength < 0 {
        sublength := length;
      }
      SendFrame(cmd, LogAdr, data, sublength, first, pushed);
      now := pushed + [Entry(data, sublength, if first then ClockOffset(sublength) else 0)];
    }

    /** A do-while loop over the remaining segment sizes. */
    method SendPieces(cmd: Command, sizes: seq<nat>, length0: nat, clip: bool, data0: nat, address0: nat, first0: bool,
                      ghost pushed: seq<Entry>)
      requires sizes != [] && if clip then length0 <= Sum(sizes) else length0 == Sum(sizes)
      requires data0 + length0 <= iomap.Length && stack == Stacked(pushed)
      modifies this`stack, this`sent
      ensures Sum(Cut(sizes, length0, clip)) == length0
      ensures sent == old(sent) + Frames(cmd, iomap[..], Cut(sizes, length0, clip), data0, address0, first0)
      ensures stack == Stacked(pushed + Entries(Cut(sizes, length0, clip), data0, first0))
    {
      hide Frames, Entries, Sum, Remaining, Pending, Stacked;
      ghost var image, left := iomap[..], Cut(sizes, length0, clip);
      CutSum(sizes, length0, clip);
      AllPending(cmd, image, left, data0, address0, first0, sent, pushed);
      RemainingFirst(sizes, length0, clip);
      SendLoop(cmd, sizes, length0, clip, data0, address0, first0, image, left, pushed,
               sent + Frames(cmd, image, left, data0, address0, first0), pushed + Entries(left, data0, first0));
    }

    method SendLoop(cmd: Command, sizes: seq<nat>, length0: nat, clip: bool, data0: nat, address0: nat, first0: bool,
                    ghost image: seq<bv8>, ghost left0: seq<nat>, ghost pushed0: seq<Entry>,
                    ghost frames: seq<Frame>, ghost entries: seq<Entry>)
      requires iomap[..] == image && stack == Stacked(pushed0) && Remaining(sizes, 0, length0, clip, true, left0)
      requires Pending(cmd, image, left0, data0, address0, first0, sent, pushed0, frames, entries)
      modifies this`stack, this`sent
      ensures sent == frames && stack == Stacked(entries)
    {
      hide Remaining, Pending, Stacked;
      var length: nat, data: nat, LogAdr: nat := length0, data0, address0;
      var first, segment: nat, more := first0, 0, true;
      ghost var left, pushed := left0, pushed0;
      while more
        invariant Remaining(sizes, segment, length, clip, more, left)
        invariant segment <= |sizes| && stack == Stacked(pushed)
        invariant Pending(cmd, image, left, data, LogAdr, first, sent, pushed, frames, entries)
        decreases more, |sizes| - segment
      {
        RemainingStep(sizes, segment, length, clip, left);
        var sublength;
        sublength, pushed :=
          SendNext(cmd, sizes[segment], length, clip, data, LogAdr, first, image, left, pushed, frames, entries);
        left := left[1..];
        first := false;
        segment := segment + 1;
        length := length - sublength;
        LogAdr := LogAdr + sublength;
        data := data + sublength;
        more := length != 0 && segment < |sizes|;
      }
      RemainingDone(sizes, segment, length, clip, left);
      NothingPending(cmd, image, data, LogAdr, first, sent, pushed, frames, entries);
    }

    /** Sends the outputs and the placeholders of the inputs.  All frames are sent, and
        the first sixteen can be taken back. */
    method SendProcessData(g: Group) returns (wkc: int)
      requires ValidGroup(g) && iomap.Length == g.obytes + g.ibytes && stack == []
      modifies this`stack, this`sent
      ensures sent == old(sent) + SentFrames(g, iomap[..])
      ensures stack == Stacked(PushedEntries(g))
      ensures wkc == if g.obytes + g.ibytes > 0 then 1 else 0
    {
      hide Cut, Frames, Entries, Sum;
      PiecesTile(g);
      wkc := 0;
      var first := g.hasdc;
      var length := g.obytes + g.ibytes;
      if length > 0 {
        wkc := 1;
        if g.blockLRW {
          NoPieces(LRD, iomap[..], g.obytes, g.logstart + g.obytes, first);
          NoPieces(LWR, iomap[..], 0, g.logstart, false);
          if g.ibytes > 0 {
            InputSizesSum(g);
            SendPieces(LRD, InputSizes(g), g.ibytes, false, g.obytes, g.logstart + g.obytes, first, []);
            first := false;
          }
          NoPieces(LWR, iomap[..], 0, g.logstart, first);
          if g.obytes > 0 {
            SendPieces(LWR, g.segments, g.obytes, true, 0, g.logstart, first,
                       Entries(LrdSizes(g), g.obytes, g.hasdc));
          }
        } else {
          SendPieces(LRW, g.segments, length, false, 0, g.logstart, first, []);
        }
      }
    }

    /** Takes back the frames in the order in which they were pushed. */
    method ReceiveProcessData(replies: seq<Reply>) returns (r: int)
      requires pulled == 0 && AllMatch(iomap[..], stack, replies)
      modifies this, iomap
      ensures var end := TakeAll(State(old(iomap[..]), 0, false, old(time)), old(stack), replies);
              && iomap[..] == end.image && time == end.time
              && r == if end.valid then end.wkc else -1
      ensures stack == [] && pulled == 0
    {
      ghost var start := State(iomap[..], 0, false, time);
      ghost var entries := stack;
      var wkc: nat, valid := 0, false;
      assert stack[0..] == stack && replies[0..] == replies;
      while pulled < |stack|
        invariant stack == entries && pulled <= |stack| == |replies|
        invariant AllMatch(iomap[..], stack[pulled..], replies[pulled..])
        invariant TakeAll(State(iomap[..], wkc, valid, time), stack[pulled..], replies[pulled..])
          == TakeAll(start, entries, replies)
        decreases |stack| - pulled
      {
        wkc, valid := TakeOne(stack[pulled], replies[pulled], wkc, valid, stack[pulled..], replies[pulled..]);
        pulled := pulled + 1;
      }
      stack, pulled := [], 0;
      r := if valid then wkc else -1;
    }

    /** One reply. */
    method TakeOne(e: Entry, reply: Reply, wkc0: nat, valid0: bool, ghost es: seq<Entry>, ghost rs: seq<Reply>)
      returns (wkc: nat, valid: bool)
      requires es != [] && rs != [] && es[0] == e && rs[0] == reply && AllMatch(iomap[..], es, rs)
      modifies this`time, iomap
      ensures AllMatch(iomap[..], es[1..], rs[1..])
      ensures TakeAll(State(iomap[..], wkc, valid, time), es[1..], rs[1..])
        == old(TakeAll(State(iomap[..], wkc0, valid0, time), es, rs))
    {
      wkc, valid := wkc0, valid0;
      ghost var before := State(iomap[..], wkc, valid, time);
      assert Matches(iomap[..], es[0], rs[0]);
      if reply.Reply? {
        if reply.cmd == LRD || reply.cmd == LRW {
          CopyIn(e.offset, reply.data[..e.length]);
          if e.dcoffset > 0 {
            wkc := reply.wkc;
            time := reply.time;
          } else {
            wkc := wkc + reply.lastWkc;
          }
          valid := true;
        } else if reply.cmd == LWR {
          if e.dcoffset > 0 {
            wkc := reply.wkc * 2;
            time := reply.time;
          } else {
            wkc := wkc + reply.lastWkc * 2;
          }
          valid := true;
        }
      }
      assert State(iomap[..], wkc, valid, time) == Take(before, e, reply);
    }

    method CopyIn(offset: nat, data: seq<bv8>)
      requires offset + |data| <= iomap.Length
      modifies iomap
      ensures iomap[..] == Overwrite(old(iomap[..]), offset, data)
    {
      for j := 0 to |data|
        invariant forall k :: 0 <= k < iomap.Length ==>
          iomap[k] == if offset <= k < offset + j then data[k - offset] else old(iomap[k])
      {
        iomap[offset + j] := data[j];
      }
    }
  }

  lemma EntryPerPiece(sizes: seq<nat>, offset: nat, clock: bool)
    ensures |Entries(sizes, offset, clock)| == |sizes|
    decreases |sizes|
  {
    if sizes != [] {
      EntryPerPiece(sizes[1..], offset + sizes[0], false);
    }
  }

  /** The pieces left when the loop is about to test its condition. */
  ghost predicate Remaining(sizes: seq<nat>, segment: nat, length: nat, clip: bool, more: bool, left: seq<nat>) {
    if more then
      && segment < |sizes| && left == Cut(sizes[segment..], length, clip)
      && (if clip then length <= Sum(sizes[segment..]) else length == Sum(sizes[segment..]))
    else left == []
  }

  lemma RemainingFirst(sizes: seq<nat>, length: nat, clip: bool)
    requires sizes != [] && if clip then length <= Sum(sizes) else length == Sum(sizes)
    ensures Remaining(sizes, 0, length, clip, true, Cut(sizes, length, clip))
  {
    assert sizes[0..] == sizes;
  }

  lemma RemainingStep(sizes: seq<nat>, segment: nat, length: nat, clip: bool, left: seq<nat>)
    requires Remaining(sizes, segment, length, clip, true, left)
    ensures left != [] && segment < |sizes|
    ensures left[0] == if clip && length < sizes[segment] then length else sizes[segment]
    ensures left[0] <= length
    ensures var more := length - left[0] != 0 && segment + 1 < |sizes|;
            Remaining(sizes, segment + 1, length - left[0], clip, more, left[1..])
  {
    CutStep(sizes[segment..], length, clip);
    assert sizes[segment..][1..] == sizes[segment + 1..];
  }

  lemma RemainingDone(sizes: seq<nat>, segment: nat, length: nat, clip: bool, left: seq<nat>)
    requires Remaining(sizes, segment, length, clip, false, left)
    ensures left == []
  {
  }

  /** What one iteration takes off the cut. */
  lemma CutStep(sizes: seq<nat>, length: nat, clip: bool)
    requires sizes != [] && if clip then length <= Sum(sizes) else length == Sum(sizes)
    ensures var sub := if clip && length < sizes[0] then length else sizes[0];
            var cut := Cut(sizes, length, clip);
            && sub <= length && cut != [] && cut[0] == sub && Sum(cut) == length && Sum(cut[1..]) == length - sub
            && cut[1..] == (if length - sub != 0 && |sizes| > 1 then Cut(sizes[1..], length - sub, clip) else [])
            && (if clip then length - sub <= Sum(sizes[1..]) else length - sub == Sum(sizes[1..]))
  {
    CutSum(sizes, length, clip);
    var sub := if clip && length < sizes[0] then length else sizes[0];
    var rest := if length - sub != 0 && |sizes| > 1 then Cut(sizes[1..], length - sub, clip) else [];
    assert Cut(sizes, length, clip) == [sub] + rest;
    assert Sum(sizes) == sizes[0] + Sum(sizes[1..]);
    assert ([sub] + rest)[1..] == rest;
  }

  lemma FramesStep(cmd: Command, image: seq<bv8>, sizes: seq<nat>, offset: nat, address: nat, clock: bool)
    requires sizes != [] && offset + Sum(sizes) <= |image|
    ensures Sum(sizes) == sizes[0] + Sum(sizes[1..])
    ensures Frames(cmd, image, sizes, offset, address, clock)
      == [Frame(cmd, address, Sent(cmd, image[offset..offset + sizes[0]]), clock)]
         + Frames(cmd, image, sizes[1..], offset + sizes[0], address + sizes[0], false)
    ensures Entries(sizes, offset, clock)
      == [Entry(offset, sizes[0], if clock then ClockOffset(sizes[0]) else 0)]
         + Entries(sizes[1..], offset + sizes[0], false)
  {
    hide Sent;
  }

  lemma NoPieces(cmd: Command, image: seq<bv8>, offset: nat, address: nat, clock: bool)
    requires offset <= |image|
    ensures Frames(cmd, image, [], offset, address, clock) == [] && Entries([], offset, clock) == []
    ensures Sum([]) == 0
  {
  }
}
