/** The segmented exchange has the effect of one exchange of the whole image, and
    its working counter is the expected one exactly when no slave is divided. */
module ExchangeTheorems {
  import opened EtherCat
  import opened CyclicExchange

  /** Bytes lo .. hi - 1 of logical memory that one slave maps in one direction. */
  datatype Range = Range(lo: nat, hi: nat)

  /** The slaves seen from logical memory: the mapped input bits of every byte with
      their values, the mapped ranges, and what the clock datagram brings back. */
  datatype Net = Net(mask: nat -> bv8, value: nat -> bv8, outs: seq<Range>, ins: seq<Range>, clockWkc: nat, time: int)

  /** A byte that passed the slaves in a reading datagram. */
  function Merge(net: Net, a: nat, b: bv8): bv8 {
    (b & !net.mask(a)) | (net.value(a) & net.mask(a))
  }

  /** Number of slaves with a range that overlaps the datagram. */
  function Hits(rs: seq<Range>, a: nat, b: nat): nat {
    if rs == [] then 0 else (if Overlap(a, b, rs[0].lo, rs[0].hi) then 1 else 0) + Hits(rs[1..], a, b)
  }

  /** The working counter of a datagram: a slave adds one when it is read, one when
      it is written, and two for being written by a read-write command. */
  function Counter(net: Net, cmd: Command, a: nat, b: nat): nat {
    match cmd
    case LRD => Hits(net.ins, a, b)
    case LWR => Hits(net.outs, a, b)
    case LRW => 2 * Hits(net.outs, a, b) + Hits(net.ins, a, b)
  }

  function Answer(net: Net, f: Frame): Reply {
    var data := if f.cmd == LWR then f.data
                else seq(|f.data|, j requires 0 <= j < |f.data| => Merge(net, f.address + j, f.data[j]));
    var wkc := Counter(net, f.cmd, f.address, f.address + |f.data|);
    Reply(f.cmd, data, wkc, if f.clock then net.clockWkc else wkc, if f.clock then net.time else 0)
  }

  /** The answers to a list of frames, some of which may get lost. */
  function Answers(net: Net, fs: seq<Frame>, arrived: seq<bool>): (rs: seq<Reply>)
    requires |fs| == |arrived|
    ensures |rs| == |fs|
  {
    if fs == [] then []
    else [if arrived[0] then Answer(net, fs[0]) else Lost] + Answers(net, fs[1..], arrived[1..])
  }

  /** What a frame adds to the total: a written slave counts twice on either path. */
  function Share(net: Net, cmd: Command, a: nat, b: nat): nat {
    if cmd == LWR then 2 * Counter(net, cmd, a, b) else Counter(net, cmd, a, b)
  }

  function Shares(net: Net, cmd: Command, sizes: seq<nat>, address: nat, arrived: seq<bool>): nat
    requires |sizes| == |arrived|
  {
    if sizes == [] then 0
    else (if arrived[0] then Share(net, cmd, address, address + sizes[0]) else 0)
         + Shares(net, cmd, sizes[1..], address + sizes[0], arrived[1..])
  }

  /** Whether the frame that carries image byte k came back. */
  function Came(sizes: seq<nat>, offset: nat, k: nat, arrived: seq<bool>): bool
    requires |sizes| == |arrived|
  {
    sizes != [] && if k < offset + sizes[0] then arrived[0] else Came(sizes[1..], offset + sizes[0], k, arrived[1..])
  }

  lemma FramesCount(cmd: Command, image: seq<bv8>, sizes: seq<nat>, offset: nat, address: nat, clock: bool)
    requires offset + Sum(sizes) <= |image|
    ensures |Frames(cmd, image, sizes, offset, address, clock)| == |sizes|
    decreases |sizes|
  {
    if sizes != [] {
      FramesCount(cmd, image, sizes[1..], offset + sizes[0], address + sizes[0], false);
    }
  }

  /** Every frame of an exchange has its entry, and all can be taken back if and only if
      there are no more than sixteen. */
  lemma AllTakenBack(g: Group, image: seq<bv8>)
    requires ValidGroup(g) && |image| == g.obytes + g.ibytes
    ensures |SentFrames(g, image)| == |PushedEntries(g)|
    ensures Stacked(PushedEntries(g)) == PushedEntries(g) <==> |SentFrames(g, image)| <= MAX_BUF
  {
    hide Frames, Entries, LrdSizes, LwrSizes, LrwSizes;
    PiecesTile(g);
    if |image| > 0 {
      if g.blockLRW {
        FramesCount(LRD, image, LrdSizes(g), g.obytes, g.logstart + g.obytes, g.hasdc);
        FramesCount(LWR, image, LwrSizes(g), 0, g.logstart, g.hasdc && g.ibytes == 0);
        EntryPerPiece(LrdSizes(g), g.obytes, g.hasdc);
        EntryPerPiece(LwrSizes(g), 0, g.hasdc && g.ibytes == 0);
      } else {
        FramesCount(LRW, image, LrwSizes(g), 0, g.logstart, g.hasdc);
        EntryPerPiece(LrwSizes(g), 0, g.hasdc);
      }
    }
  }

  /** The effect of one direction of frames on the image: bytes of lost frames and
      of write frames stay, all others are what the slaves made of the byte sent. */
  function After(net: Net, cmd: Command, sent: seq<bv8>, sizes: seq<nat>, offset: nat, address: nat,
                 arrived: seq<bool>, image: seq<bv8>, k: nat): bv8
    requires |sizes| == |arrived| && offset + Sum(sizes) <= |sent| && k < |image|
  {
    if cmd != LWR && offset <= k < offset + Sum(sizes) && Came(sizes, offset, k, arrived)
    then Merge(net, address + (k - offset), if cmd == LRD then 0 else sent[k])
    else image[k]
  }

  lemma AnswerMatches(net: Net, cmd: Command, sent: seq<bv8>, size: nat, offset: nat, address: nat, clock: bool,
                      came: bool, image: seq<bv8>)
    requires offset + size <= |sent| == |image|
    ensures var f := Frame(cmd, address, Sent(cmd, sent[offset..offset + size]), clock);
            var e := Entry(offset, size, if clock then ClockOffset(size) else 0);
            Matches(image, e, if came then Answer(net, f) else Lost)
  {
  }

  lemma AllMatchCons(image: seq<bv8>, e: Entry, es: seq<Entry>, r: Reply, rs: seq<Reply>)
    requires Matches(image, e, r) && AllMatch(image, es, rs)
    ensures AllMatch(image, [e] + es, [r] + rs)
  {
    hide Matches;
    forall i | 0 <= i < |es| + 1
      ensures Matches(image, ([e] + es)[i], ([r] + rs)[i])
    {
      if i > 0 {
        assert ([e] + es)[i] == es[i - 1] && ([r] + rs)[i] == rs[i - 1];
      }
    }
  }

  lemma AnswersCons(net: Net, f: Frame, fs: seq<Frame>, arrived: seq<bool>)
    requires |arrived| == |fs| + 1
    ensures Answers(net, [f] + fs, arrived)
      == [if arrived[0] then Answer(net, f) else Lost] + Answers(net, fs, arrived[1..])
  {
    hide Answer;
    assert ([f] + fs)[1..] == fs;
  }

  lemma NothingMatches(net: Net, cmd: Command, sent: seq<bv8>, offset: nat, address: nat, clock: bool, image: seq<bv8>)
    requires offset <= |sent|
    ensures Sum([]) == 0 && Frames(cmd, sent, [], offset, address, clock) == []
    ensures AllMatch(image, Entries([], offset, clock), Answers(net, [], []))
  {
  }

  lemma {:induction false} AnswersMatch(net: Net, cmd: Command, sent: seq<bv8>, sizes: seq<nat>, offset: nat,
                                        address: nat, clock: bool, arrived: seq<bool>, image: seq<bv8>)
    requires |sizes| == |arrived| && offset + Sum(sizes) <= |sent| == |image|
    ensures |Frames(cmd, sent, sizes, offset, address, clock)| == |sizes|
    ensures AllMatch(image, Entries(sizes, offset, clock),
                     Answers(net, Frames(cmd, sent, sizes, offset, address, clock), arrived))
    decreases |sizes|
  {
    hide Matches, AllMatch, Answer, Answers, Sent, Frames, Entries;
    if sizes == [] {
      NothingMatches(net, cmd, sent, offset, address, clock, image);
    } else {
      var f := Frame(cmd, address, Sent(cmd, sent[offset..offset + sizes[0]]), clock);
      var e := Entry(offset, sizes[0], if clock then ClockOffset(sizes[0]) else 0);
      FramesStep(cmd, sent, sizes, offset, address, clock);
      AnswerMatches(net, cmd, sent, sizes[0], offset, address, clock, arrived[0], image);
      AnswersMatch(net, cmd, sent, sizes[1..], offset + sizes[0], address + sizes[0], false, arrived[1..], image);
      var fs := Frames(cmd, sent, sizes[1..], offset + sizes[0], address + sizes[0], false);
      AnswersCons(net, f, fs, arrived);
      AllMatchCons(image, e, Entries(sizes[1..], offset + sizes[0], false),
                   if arrived[0] then Answer(net, f) else Lost, Answers(net, fs, arrived[1..]));
    }
  }

  /** Effect of one reply. */
  ghost predicate FirstEffect(net: Net, cmd: Command, sent: seq<bv8>, size: nat, offset: nat, address: nat,
                              clock: bool, came: bool, s: State, t: State)
    requires offset + size <= |sent|
  {
    && |t.image| == |s.image|
    && t.wkc == s.wkc + (if came then Share(net, cmd, address, address + size) else 0)
    && t.valid == (s.valid || came)
    && t.time == (if clock && came then net.time else s.time)
    && forall k :: 0 <= k < |s.image| ==>
         t.image[k] == if cmd != LWR && came && offset <= k < offset + size
                       then Merge(net, address + (k - offset), if cmd == LRD then 0 else sent[k])
                       else s.image[k]
  }

  /** One reply. */
  lemma TakeFirst(net: Net, cmd: Command, sent: seq<bv8>, size: nat, offset: nat, address: nat, clock: bool,
                  came: bool, s: State)
    requires offset + size <= |sent| == |s.image| && (clock ==> s.wkc == 0)
    ensures var f := Frame(cmd, address, Sent(cmd, sent[offset..offset + size]), clock);
            var e := Entry(offset, size, if clock then ClockOffset(size) else 0);
            var r := if came then Answer(net, f) else Lost;
            Matches(s.image, e, r) &&
            var t := Take(s, e, r);
            FirstEffect(net, cmd, sent, size, offset, address, clock, came, s, t)
  {
    hide Merge, Counter;
    var f := Frame(cmd, address, Sent(cmd, sent[offset..offset + size]), clock);
    assert |f.data| == size;
    if came && cmd != LWR {
      var data := Answer(net, f).data;
      assert data[..size] == data;
    }
  }

  /** Image, counter, validity and clock after the frames of one direction. */
  ghost predicate Effect(net: Net, cmd: Command, sent: seq<bv8>, sizes: seq<nat>, offset: nat, address: nat,
                         clock: bool, arrived: seq<bool>, s: State, t: State)
    requires |sizes| == |arrived| && offset + Sum(sizes) <= |sent|
  {
    && |t.image| == |s.image|
    && t.wkc == s.wkc + Shares(net, cmd, sizes, address, arrived)
    && t.valid == (s.valid || true in arrived)
    && t.time == (if clock && arrived != [] && arrived[0] then net.time else s.time)
    && forall k :: 0 <= k < |s.image| ==>
         t.image[k] == After(net, cmd, sent, sizes, offset, address, arrived, s.image, k)
  }

  lemma EffectStep(net: Net, cmd: Command, sent: seq<bv8>, sizes: seq<nat>, offset: nat, address: nat,
                   clock: bool, arrived: seq<bool>, s: State, t1: State, t: State)
    requires sizes != [] && |sizes| == |arrived| && offset + Sum(sizes) <= |sent|
    requires Sum(sizes) == sizes[0] + Sum(sizes[1..])
    requires FirstEffect(net, cmd, sent, sizes[0], offset, address, clock, arrived[0], s, t1)
    requires Effect(net, cmd, sent, sizes[1..], offset + sizes[0], address + sizes[0], false, arrived[1..], t1, t)
    ensures Effect(net, cmd, sent, sizes, offset, address, clock, arrived, s, t)
  {
    hide Merge, Share;
    assert true in arrived <==> arrived[0] || true in arrived[1..];
    forall k | 0 <= k < |s.image|
      ensures t.image[k] == After(net, cmd, sent, sizes, offset, address, arrived, s.image, k)
    {
      assert t.image[k]
        == After(net, cmd, sent, sizes[1..], offset + sizes[0], address + sizes[0], arrived[1..], t1.image, k);
    }
  }

  /** The effect of the frames of one direction, whichever of them are lost. */
  lemma {:induction false} TakePieces(net: Net, cmd: Command, sent: seq<bv8>, sizes: seq<nat>, offset: nat,
                                      address: nat, clock: bool, arrived: seq<bool>, s: State)
    requires |sizes| == |arrived| && offset + Sum(sizes) <= |sent| == |s.image| && (clock ==> s.wkc == 0)
    ensures |Frames(cmd, sent, sizes, offset, address, clock)| == |sizes|
    ensures var es := Entries(sizes, offset, clock);
            var rs := Answers(net, Frames(cmd, sent, sizes, offset, address, clock), arrived);
            && AllMatch(s.image, es, rs)
            && Effect(net, cmd, sent, sizes, offset, address, clock, arrived, s, TakeAll(s, es, rs))
    decreases |sizes|
  {
    hide Take, Answer, Sent, After, Share, Shares, Merge, Matches, Effect;
    AnswersMatch(net, cmd, sent, sizes, offset, address, clock, arrived, s.image);
    if sizes != [] {
      var es, frames := Entries(sizes, offset, clock), Frames(cmd, sent, sizes, offset, address, clock);
      var rs := Answers(net, frames, arrived);
      FramesStep(cmd, sent, sizes, offset, address, clock);
      TakeFirst(net, cmd, sent, sizes[0], offset, address, clock, arrived[0], s);
      assert frames[1..] == Frames(cmd, sent, sizes[1..], offset + sizes[0], address + sizes[0], false);
      assert es[1..] == Entries(sizes[1..], offset + sizes[0], false);
      assert rs[1..] == Answers(net, frames[1..], arrived[1..]);
      var t1 := Take(s, es[0], rs[0]);
      TakePieces(net, cmd, sent, sizes[1..], offset + sizes[0], address + sizes[0], false, arrived[1..], t1);
      EffectStep(net, cmd, sent, sizes, offset, address, clock, arrived, s, t1, TakeAll(s, es, rs));
    } else {
      NoEffect(net, cmd, sent, offset, address, clock, s);
    }
  }

  lemma NoEffect(net: Net, cmd: Command, sent: seq<bv8>, offset: nat, address: nat, clock: bool, s: State)
    requires offset <= |sent|
    ensures Sum([]) == 0 && Effect(net, cmd, sent, [], offset, address, clock, [], s, s)
  {
  }

  // ----- the whole exchange -----

  lemma {:induction false} TakeAllConcat(s: State, a: seq<Entry>, b: seq<Entry>, ra: seq<Reply>, rb: seq<Reply>)
    requires AllMatch(s.image, a, ra) && AllMatch(TakeAll(s, a, ra).image, b, rb)
    ensures AllMatch(s.image, a + b, ra + rb)
    ensures TakeAll(s, a + b, ra + rb) == TakeAll(TakeAll(s, a, ra), b, rb)
    decreases |a|
  {
    if a == [] {
      assert a + b == b && ra + rb == rb;
    } else {
      assert (a + b)[1..] == a[1..] + b && (ra + rb)[1..] == ra[1..] + rb;
      forall i | 0 <= i < |a + b|
        ensures Matches(s.image, (a + b)[i], (ra + rb)[i])
      {
        if i >= |a| {
          assert Matches(TakeAll(s, a, ra).image, b[i - |a|], rb[i - |a|]);
        }
      }
      TakeAllConcat(Take(s, a[0], ra[0]), a[1..], b, ra[1..], rb);
    }
  }

  lemma {:induction false} AnswersConcat(net: Net, a: seq<Frame>, b: seq<Frame>, ca: seq<bool>, cb: seq<bool>)
    requires |a| == |ca| && |b| == |cb|
    ensures Answers(net, a + b, ca + cb) == Answers(net, a, ca) + Answers(net, b, cb)
    decreases |a|
  {
    if a == [] {
      assert a + b == b && ca + cb == cb;
    } else {
      assert (a + b)[1..] == a[1..] + b && (ca + cb)[1..] == ca[1..] + cb;
      AnswersConcat(net, a[1..], b, ca[1..], cb);
    }
  }

  // ----- the stack -----

  /** Of the frames that came back, those whose entry found room on the stack. */
  function Heard(arrived: seq<bool>): (heard: seq<bool>)
    ensures |heard| == |arrived|
  {
    seq(|arrived|, k requires 0 <= k < |arrived| => arrived[k] && k < MAX_BUF)
  }

  /** The first m of n frames came back. */
  function FirstCame(n: nat, m: nat): (came: seq<bool>)
    ensures |came| == n
  {
    seq(n, k => k < m)
  }

  function AllCame(n: nat): seq<bool> {
    FirstCame(n, n)
  }

  lemma {:induction false} NoneAnswer(net: Net, fs: seq<Frame>, k: nat)
    requires k < |fs|
    ensures Answers(net, fs, FirstCame(|fs|, 0))[k] == Lost
    decreases k
  {
    assert FirstCame(|fs|, 0)[1..] == FirstCame(|fs[1..]|, 0);
    if k > 0 {
      NoneAnswer(net, fs[1..], k - 1);
    }
  }

  lemma {:induction false} LostTaken(s: State, es: seq<Entry>, rs: seq<Reply>)
    requires AllMatch(s.image, es, rs) && forall k :: 0 <= k < |rs| ==> rs[k] == Lost
    ensures TakeAll(s, es, rs) == s
    decreases |es|
  {
    if es != [] {
      LostTaken(s, es[1..], rs[1..]);
    }
  }

  /** Taking back only what is on the stack is as if the other frames were lost. */
  lemma StackedTaken(net: Net, s: State, es: seq<Entry>, fs: seq<Frame>, arrived: seq<bool>)
    requires |es| == |fs| == |arrived| && AllMatch(s.image, es, Answers(net, fs, Heard(arrived)))
    ensures |Stacked(es)| <= |es|
    ensures var m := |Stacked(es)|;
            var rs := Answers(net, fs[..m], arrived[..m]);
            && AllMatch(s.image, Stacked(es), rs)
            && TakeAll(s, Stacked(es), rs) == TakeAll(s, es, Answers(net, fs, Heard(arrived)))
  {
    hide Matches, Answer, TakeAll;
    var m := |Stacked(es)|;
    var first, rest := fs[..m], fs[m..];
    var lost := FirstCame(|rest|, 0);
    assert fs == first + rest && Heard(arrived) == arrived[..m] + lost && es == Stacked(es) + es[m..];
    AnswersConcat(net, first, rest, arrived[..m], lost);
    var all, rs, none := Answers(net, fs, Heard(arrived)), Answers(net, first, arrived[..m]), Answers(net, rest, lost);
    forall i | 0 <= i < m
      ensures Matches(s.image, Stacked(es)[i], rs[i])
    {
      assert Matches(s.image, es[i], all[i]);
    }
    forall i | 0 <= i < |rest|
      ensures none[i] == Lost && Matches(TakeAll(s, Stacked(es), rs).image, es[m..][i], none[i])
    {
      NoneAnswer(net, rest, i);
      assert Matches(s.image, es[m + i], all[m + i]);
      LostMatches(s.image, TakeAll(s, Stacked(es), rs).image, es[m + i]);
    }
    TakeAllConcat(s, Stacked(es), es[m..], rs, none);
    LostTaken(TakeAll(s, Stacked(es), rs), es[m..], none);
  }

  lemma LostMatches(a: seq<bv8>, b: seq<bv8>, e: Entry)
    requires Matches(a, e, Lost) && |a| == |b|
    ensures Matches(b, e, Lost)
  {
  }

  // ----- exchanges -----

  /** The read-write path if every entry found room. */
  lemma ReadWriteTaken(g: Group, net: Net, image: seq<bv8>, time: int, arrived: seq<bool>)
    requires ValidGroup(g) && |image| == g.obytes + g.ibytes > 0 && !g.blockLRW && |arrived| == |LrwSizes(g)|
    ensures |SentFrames(g, image)| == |arrived| > 0
    ensures var start := State(image, 0, false, time);
            var rs := Answers(net, SentFrames(g, image), arrived);
            AllMatch(image, PushedEntries(g), rs) &&
            var t := TakeAll(start, PushedEntries(g), rs);
            && t.wkc == Shares(net, LRW, LrwSizes(g), g.logstart, arrived) && t.valid == (true in arrived)
            && t.time == (if g.hasdc && arrived[0] then net.time else time)
            && forall k :: 0 <= k < |image| ==>
                 t.image[k] == if Came(LrwSizes(g), 0, k, arrived) then Merge(net, g.logstart + k, image[k])
                               else image[k]
  {
    hide Merge, Shares, Came, Answers, TakeAll;
    PiecesTile(g);
    TakePieces(net, LRW, image, LrwSizes(g), 0, g.logstart, g.hasdc, arrived, State(image, 0, false, time));
  }

  /** The same for the separate read and write path. */
  lemma SplitTaken(g: Group, net: Net, image: seq<bv8>, time: int, inCame: seq<bool>, outCame: seq<bool>)
    requires ValidGroup(g) && |image| == g.obytes + g.ibytes > 0 && g.blockLRW
    requires |inCame| == |LrdSizes(g)| && |outCame| == |LwrSizes(g)|
    ensures |SentFrames(g, image)| == |inCame + outCame| > 0
    ensures var start := State(image, 0, false, time);
            var rs := Answers(net, SentFrames(g, image), inCame + outCame);
            AllMatch(image, PushedEntries(g), rs) &&
            var t := TakeAll(start, PushedEntries(g), rs);
            && t.wkc == Shares(net, LRD, LrdSizes(g), g.logstart + g.obytes, inCame)
                      + Shares(net, LWR, LwrSizes(g), g.logstart, outCame)
            && t.valid == (true in inCame || true in outCame)
            && t.time == (if g.hasdc && (inCame + outCame)[0] then net.time else time)
            && forall k :: 0 <= k < |image| ==>
                 t.image[k] == if k >= g.obytes && Came(LrdSizes(g), g.obytes, k, inCame)
                               then Merge(net, g.logstart + k, 0) else image[k]
  {
    hide Merge, Shares, Came, Answers, TakeAll;
    PiecesTile(g);
    var start := State(image, 0, false, time);
    var address := g.logstart + g.obytes;
    var e1, e2 := Entries(LrdSizes(g), g.obytes, g.hasdc), Entries(LwrSizes(g), 0, g.hasdc && g.ibytes == 0);
    var f1 := Frames(LRD, image, LrdSizes(g), g.obytes, address, g.hasdc);
    var f2 := Frames(LWR, image, LwrSizes(g), 0, g.logstart, g.hasdc && g.ibytes == 0);
    TakePieces(net, LRD, image, LrdSizes(g), g.obytes, address, g.hasdc, inCame, start);
    FramesCount(LWR, image, LwrSizes(g), 0, g.logstart, g.hasdc && g.ibytes == 0);
    var r1, r2 := Answers(net, f1, inCame), Answers(net, f2, outCame);
    var mid := TakeAll(start, e1, r1);
    if g.ibytes == 0 {
      NoShares(net, LRD, address);
    }
    TakePieces(net, LWR, image, LwrSizes(g), 0, g.logstart, g.hasdc && g.ibytes == 0, outCame, mid);
    TakeAllConcat(start, e1, e2, r1, r2);
    AnswersConcat(net, f1, f2, inCame, outCame);
  }

  lemma NoShares(net: Net, cmd: Command, address: nat)
    ensures Shares(net, cmd, [], address, []) == 0
  {
  }

  /** The frames whose entries are on the stack, with the answers that came back. */
  function Returned(g: Group, net: Net, image: seq<bv8>, arrived: seq<bool>): (rs: seq<Reply>)
    requires ValidGroup(g) && |image| == g.obytes + g.ibytes && |arrived| == |SentFrames(g, image)|
    ensures |rs| == |Stacked(PushedEntries(g))|
  {
    AllTakenBack(g, image);
    var m := |Stacked(PushedEntries(g))|;
    Answers(net, SentFrames(g, image)[..m], arrived[..m])
  }

  /** The read-write path with any losses and any number of frames: bytes of frames that
      came back, and had room on the stack, are what the slaves made of them, the others
      are as they were.  The clock comes with the first frame. */
  lemma ReadWriteExchange(g: Group, net: Net, image: seq<bv8>, time: int, arrived: seq<bool>)
    requires ValidGroup(g) && |image| == g.obytes + g.ibytes > 0 && !g.blockLRW && |arrived| == |LrwSizes(g)|
    ensures |SentFrames(g, image)| == |arrived| > 0
    ensures var start, heard := State(image, 0, false, time), Heard(arrived);
            var rs := Returned(g, net, image, arrived);
            AllMatch(image, Stacked(PushedEntries(g)), rs) &&
            var t := TakeAll(start, Stacked(PushedEntries(g)), rs);
            && t.wkc == Shares(net, LRW, LrwSizes(g), g.logstart, heard) && t.valid == (true in heard)
            && t.time == (if g.hasdc && arrived[0] then net.time else time)
            && forall k :: 0 <= k < |image| ==>
                 t.image[k] == if Came(LrwSizes(g), 0, k, heard) then Merge(net, g.logstart + k, image[k])
                               else image[k]
  {
    hide Merge, Shares, Came, Answers, TakeAll, SentFrames, PushedEntries, LrwSizes, ValidGroup, AllMatch, Stacked;
    ReadWriteTaken(g, net, image, time, Heard(arrived));
    AllTakenBack(g, image);
    StackedTaken(net, State(image, 0, false, time), PushedEntries(g), SentFrames(g, image), arrived);
  }

  /** The separate read and write path: first the answers of the reads, then those of the
      writes. */
  lemma SplitExchange(g: Group, net: Net, image: seq<bv8>, time: int, inCame: seq<bool>, outCame: seq<bool>)
    requires ValidGroup(g) && |image| == g.obytes + g.ibytes > 0 && g.blockLRW
    requires |inCame| == |LrdSizes(g)| && |outCame| == |LwrSizes(g)|
    ensures |SentFrames(g, image)| == |inCame + outCame| > 0
    ensures var start, heard := State(image, 0, false, time), Heard(inCame + outCame);
            var inHeard, outHeard := heard[..|inCame|], heard[|inCame|..];
            var rs := Returned(g, net, image, inCame + outCame);
            AllMatch(image, Stacked(PushedEntries(g)), rs) &&
            var t := TakeAll(start, Stacked(PushedEntries(g)), rs);
            && t.wkc == Shares(net, LRD, LrdSizes(g), g.logstart + g.obytes, inHeard)
                      + Shares(net, LWR, LwrSizes(g), g.logstart, outHeard)
            && t.valid == (true in inHeard || true in outHeard)
            && t.time == (if g.hasdc && (inCame + outCame)[0] then net.time else time)
            && forall k :: 0 <= k < |image| ==>
                 t.image[k] == if k >= g.obytes && Came(LrdSizes(g), g.obytes, k, inHeard)
                               then Merge(net, g.logstart + k, 0) else image[k]
  {
    hide Merge, Shares, Came, Answers, TakeAll, SentFrames, PushedEntries, LrdSizes, LwrSizes, ValidGroup, AllMatch,
         Stacked;
    var heard := Heard(inCame + outCame);
    var inHeard, outHeard := heard[..|inCame|], heard[|inCame|..];
    assert heard == inHeard + outHeard;
    SplitTaken(g, net, image, time, inHeard, outHeard);
    AllTakenBack(g, image);
    StackedTaken(net, State(image, 0, false, time), PushedEntries(g), SentFrames(g, image), inCame + outCame);
  }

  // ----- when the first frames come back -----

  lemma {:induction false} CameFirst(sizes: seq<nat>, offset: nat, k: nat, m: nat)
    requires offset <= k < offset + Sum(sizes)
    ensures Came(sizes, offset, k, FirstCame(|sizes|, m)) <==> k < offset + Sum(First(sizes, m))
    decreases |sizes|
  {
    if m == 0 {
      NoneCame(sizes, offset, k);
    } else {
      FirstStep(sizes, m);
      assert FirstCame(|sizes|, m)[1..] == FirstCame(|sizes[1..]|, m - 1);
      if k >= offset + sizes[0] {
        CameFirst(sizes[1..], offset + sizes[0], k, m - 1);
      }
    }
  }

  lemma {:induction false} NoneCame(sizes: seq<nat>, offset: nat, k: nat)
    ensures !Came(sizes, offset, k, FirstCame(|sizes|, 0)) && Sum(First(sizes, 0)) == 0
    decreases |sizes|
  {
    if sizes != [] {
      assert FirstCame(|sizes|, 0)[1..] == FirstCame(|sizes[1..]|, 0);
      NoneCame(sizes[1..], offset + sizes[0], k);
    }
  }

  lemma {:induction false} SharesFirst(net: Net, cmd: Command, sizes: seq<nat>, base: nat, m: nat)
    ensures Shares(net, cmd, sizes, base, FirstCame(|sizes|, m))
      == Shares(net, cmd, First(sizes, m), base, AllCame(|First(sizes, m)|))
    decreases |sizes|
  {
    hide Share;
    if sizes != [] {
      if m == 0 {
        assert FirstCame(|sizes|, 0)[1..] == FirstCame(|sizes[1..]|, 0);
        SharesFirst(net, cmd, sizes[1..], base + sizes[0], 0);
      } else {
        FirstStep(sizes, m);
        var first := First(sizes, m);
        assert FirstCame(|sizes|, m)[1..] == FirstCame(|sizes[1..]|, m - 1);
        assert first[1..] == First(sizes[1..], m - 1) && AllCame(|first|)[1..] == AllCame(|first[1..]|);
        SharesFirst(net, cmd, sizes[1..], base + sizes[0], m - 1);
      }
    }
  }

  // ----- what the slaves receive -----

  datatype Option = None | Some(value: bv8)

  /** The byte that the frames leave at a logical address, if they write it. */
  function WrittenTo(fs: seq<Frame>, a: nat): Option {
    if fs == [] then None
    else
      var f, later := fs[0], WrittenTo(fs[1..], a);
      if later.None? && f.cmd != LRD && f.address <= a < f.address + |f.data| then Some(f.data[a - f.address])
      else later
  }

  lemma {:induction false} WrittenPieces(cmd: Command, image: seq<bv8>, sizes: seq<nat>, offset: nat, address: nat,
                                         clock: bool, a: nat)
    requires offset + Sum(sizes) <= |image|
    ensures WrittenTo(Frames(cmd, image, sizes, offset, address, clock), a)
      == if cmd != LRD && address <= a < address + Sum(sizes) then Some(image[offset + (a - address)]) else None
    decreases |sizes|
  {
    if sizes != [] {
      FramesStep(cmd, image, sizes, offset, address, clock);
      var fs := Frames(cmd, image, sizes, offset, address, clock);
      assert fs[1..] == Frames(cmd, image, sizes[1..], offset + sizes[0], address + sizes[0], false);
      hide Frames;
      WrittenPieces(cmd, image, sizes[1..], offset + sizes[0], address + sizes[0], false, a);
    }
  }

  lemma {:induction false} WrittenConcat(f: seq<Frame>, h: seq<Frame>, a: nat)
    ensures WrittenTo(f + h, a) == if WrittenTo(h, a).Some? then WrittenTo(h, a) else WrittenTo(f, a)
    decreases |f|
  {
    if f == [] {
      assert f + h == h;
    } else {
      assert (f + h)[1..] == f[1..] + h;
      WrittenConcat(f[1..], h, a);
    }
  }

  /** Every output byte of the image reaches its logical address on either path, and
      the split path writes nothing else. */
  lemma OutputsReachSlaves(g: Group, image: seq<bv8>, a: nat)
    requires ValidGroup(g) && |image| == g.obytes + g.ibytes
    ensures g.logstart <= a < g.logstart + g.obytes ==>
      WrittenTo(SentFrames(g, image), a) == Some(image[a - g.logstart])
    ensures g.blockLRW && !(g.logstart <= a < g.logstart + g.obytes) ==> WrittenTo(SentFrames(g, image), a) == None
  {
    hide WrittenTo, Frames, LrdSizes, LwrSizes, LrwSizes, Sum;
    PiecesTile(g);
    if |image| == 0 {
      NothingWritten(a);
    } else if g.blockLRW {
      var address := g.logstart + g.obytes;
      WrittenConcat(Frames(LRD, image, LrdSizes(g), g.obytes, address, g.hasdc),
                    Frames(LWR, image, LwrSizes(g), 0, g.logstart, g.hasdc && g.ibytes == 0), a);
      WrittenPieces(LRD, image, LrdSizes(g), g.obytes, address, g.hasdc, a);
      WrittenPieces(LWR, image, LwrSizes(g), 0, g.logstart, g.hasdc && g.ibytes == 0, a);
    } else {
      WrittenPieces(LRW, image, LrwSizes(g), 0, g.logstart, g.hasdc, a);
    }
  }

  lemma NothingWritten(a: nat)
    ensures WrittenTo([], a) == None
  {
  }

  // ----- the working counter -----

  function TouchedSum(sizes: seq<nat>, base: nat, rs: seq<Range>): nat {
    if rs == [] then 0 else Touched(sizes, base, rs[0].lo, rs[0].hi) + TouchedSum(sizes, base, rs[1..])
  }

  lemma {:induction false} TouchedSumStep(sizes: seq<nat>, base: nat, rs: seq<Range>)
    requires sizes != []
    ensures TouchedSum(sizes, base, rs) == Hits(rs, base, base + sizes[0]) + TouchedSum(sizes[1..], base + sizes[0], rs)
    decreases |rs|
  {
    if rs != [] {
      TouchedSumStep(sizes, base, rs[1..]);
    }
  }

  lemma {:induction false} TouchedNone(base: nat, rs: seq<Range>)
    ensures TouchedSum([], base, rs) == 0
    decreases |rs|
  {
    if rs != [] {
      TouchedNone(base, rs[1..]);
    }
  }

  /** Counting by frames is counting by slaves. */
  lemma {:induction false} SharesByRange(net: Net, cmd: Command, sizes: seq<nat>, base: nat)
    ensures Shares(net, cmd, sizes, base, AllCame(|sizes|)) ==
      match cmd
      case LRD => TouchedSum(sizes, base, net.ins)
      case LWR => 2 * TouchedSum(sizes, base, net.outs)
      case LRW => 2 * TouchedSum(sizes, base, net.outs) + TouchedSum(sizes, base, net.ins)
    decreases |sizes|
  {
    if sizes == [] {
      TouchedNone(base, net.ins);
      TouchedNone(base, net.outs);
    } else {
      hide TouchedSum, Hits;
      TouchedSumStep(sizes, base, net.ins);
      TouchedSumStep(sizes, base, net.outs);
      assert AllCame(|sizes|)[1..] == AllCame(|sizes[1..]|);
      SharesByRange(net, cmd, sizes[1..], base + sizes[0]);
    }
  }

  /** Ranges that lie between two logical addresses and are not empty. */
  ghost predicate Inside(rs: seq<Range>, from: nat, to: nat) {
    forall k :: 0 <= k < |rs| ==> from <= rs[k].lo < rs[k].hi <= to
  }

  ghost predicate Undivided(rs: seq<Range>, sizes: seq<nat>, base: nat) {
    forall k :: 0 <= k < |rs| ==> Within(sizes, base, rs[k].lo, rs[k].hi)
  }

  /** Each slave is counted once exactly when none is divided. */
  lemma {:induction false} CountedOnce(sizes: seq<nat>, base: nat, rs: seq<Range>)
    requires Inside(rs, base, base + Sum(sizes))
    ensures TouchedSum(sizes, base, rs) >= |rs|
    ensures TouchedSum(sizes, base, rs) == |rs| <==> Undivided(rs, sizes, base)
    decreases |rs|
  {
    hide Touched, Within, Sum;
    if rs != [] {
      TouchedSome(sizes, base, rs[0].lo, rs[0].hi);
      TouchedOnce(sizes, base, rs[0].lo, rs[0].hi);
      CountedOnce(sizes, base, rs[1..]);
      assert Undivided(rs, sizes, base) <==>
             Within(sizes, base, rs[0].lo, rs[0].hi) && Undivided(rs[1..], sizes, base) by {
        assert forall k :: 1 <= k < |rs| ==> rs[k] == rs[1..][k - 1];
      }
    }
  }

  /** The counter that the application expects. */
  function Expected(net: Net): nat {
    2 * |net.outs| + |net.ins|
  }

  /** What the layout guarantees of the mapped ranges. */
  ghost predicate Mapped(g: Group, net: Net) {
    && Inside(net.outs, g.logstart, g.logstart + g.obytes)
    && Inside(net.ins, g.logstart + g.obytes, g.logstart + g.obytes + g.ibytes)
  }

  lemma {:induction false} UndividedCut(rs: seq<Range>, sizes: seq<nat>, length: nat, clip: bool, base: nat)
    requires sizes != [] && Inside(rs, base, base + length)
    ensures Undivided(rs, sizes, base) <==> Undivided(rs, Cut(sizes, length, clip), base)
  {
    hide Within;
    forall k | 0 <= k < |rs|
      ensures Within(sizes, base, rs[k].lo, rs[k].hi) <==> Within(Cut(sizes, length, clip), base, rs[k].lo, rs[k].hi)
    {
      if Within(sizes, base, rs[k].lo, rs[k].hi) {
        CutWithin(sizes, length, clip, base, rs[k].lo, rs[k].hi);
      }
      if Within(Cut(sizes, length, clip), base, rs[k].lo, rs[k].hi) {
        CutWithinBack(sizes, length, clip, base, rs[k].lo, rs[k].hi);
      }
    }
  }

  /** Main result, read-write path: when every frame comes back, the counter is the
      expected one if and only if no slave is divided between two frames. */
  lemma ReadWriteCounter(g: Group, net: Net)
    requires ValidGroup(g) && Mapped(g, net)
    ensures Shares(net, LRW, LrwSizes(g), g.logstart, AllCame(|LrwSizes(g)|)) == Expected(net)
      <==> Undivided(net.outs, LrwSizes(g), g.logstart) && Undivided(net.ins, LrwSizes(g), g.logstart)
  {
    hide TouchedSum, Shares, Undivided;
    PiecesTile(g);
    SharesByRange(net, LRW, LrwSizes(g), g.logstart);
    CountedOnce(LrwSizes(g), g.logstart, net.outs);
    CountedOnce(LrwSizes(g), g.logstart, net.ins);
  }

  lemma SplitCounter(g: Group, net: Net)
    requires ValidGroup(g) && Mapped(g, net)
    ensures Shares(net, LRD, LrdSizes(g), g.logstart + g.obytes, AllCame(|LrdSizes(g)|))
          + Shares(net, LWR, LwrSizes(g), g.logstart, AllCame(|LwrSizes(g)|)) == Expected(net)
      <==> Undivided(net.outs, LwrSizes(g), g.logstart) && Undivided(net.ins, LrdSizes(g), g.logstart + g.obytes)
  {
    hide TouchedSum, Shares, Undivided;
    PiecesTile(g);
    SharesByRange(net, LRD, LrdSizes(g), g.logstart + g.obytes);
    SharesByRange(net, LWR, LwrSizes(g), g.logstart);
    CountedOnce(LwrSizes(g), g.logstart, net.outs);
    CountedOnce(LrdSizes(g), g.logstart + g.obytes, net.ins);
  }

  /** Either path divides exactly the slaves that the segments divide. */
  lemma SameDivision(g: Group, net: Net)
    requires ValidGroup(g) && Mapped(g, net)
    ensures Undivided(net.outs, LrwSizes(g), g.logstart) <==> Undivided(net.outs, g.segments, g.logstart)
    ensures Undivided(net.ins, LrwSizes(g), g.logstart) <==> Undivided(net.ins, g.segments, g.logstart)
    ensures Undivided(net.outs, LwrSizes(g), g.logstart) <==> Undivided(net.outs, g.segments, g.logstart)
    ensures Undivided(net.ins, LrdSizes(g), g.logstart + g.obytes) <==> Undivided(net.ins, g.segments, g.logstart)
  {
    hide Within, Undivided;
    UndividedCut(net.outs, g.segments, g.obytes + g.ibytes, false, g.logstart);
    UndividedCut(net.ins, g.segments, g.obytes + g.ibytes, false, g.logstart);
    if g.obytes > 0 {
      UndividedCut(net.outs, g.segments, g.obytes, true, g.logstart);
    } else {
      NoneUndivided(net.outs, LwrSizes(g), g.segments, g.logstart, g.logstart);
    }
    if g.ibytes > 0 {
      UndividedInputs(g, net);
      UndividedCut(net.ins, InputSizes(g), g.ibytes, false, g.logstart + g.obytes);
    } else {
      NoneUndivided(net.ins, LrdSizes(g), g.segments, g.logstart + g.obytes, g.logstart);
    }
  }

  lemma NoneUndivided(rs: seq<Range>, a: seq<nat>, b: seq<nat>, at: nat, base: nat)
    requires Inside(rs, at, at)
    ensures Undivided(rs, a, at) && Undivided(rs, b, base)
  {
  }

  lemma UndividedInputs(g: Group, net: Net)
    requires ValidGroup(g) && Mapped(g, net)
    ensures Undivided(net.ins, InputSizes(g), g.logstart + g.obytes) <==> Undivided(net.ins, g.segments, g.logstart)
  {
    hide Within;
    forall k | 0 <= k < |net.ins|
      ensures Within(InputSizes(g), g.logstart + g.obytes, net.ins[k].lo, net.ins[k].hi)
        <==> Within(g.segments, g.logstart, net.ins[k].lo, net.ins[k].hi)
    {
      var lo, hi := net.ins[k].lo, net.ins[k].hi;
      if Within(g.segments, g.logstart, lo, hi) {
        WithinSuffix(g.segments, g.isegment, g.ioffset, g.logstart, lo, hi);
      }
      if Within(InputSizes(g), g.logstart + g.obytes, lo, hi) {
        WithinOfSuffix(g.segments, g.isegment, g.ioffset, g.logstart, lo, hi);
      }
    }
  }
}
