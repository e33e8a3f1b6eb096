/** Receiving over two sockets, and the repair of a single cable break. */
module Redundancy {
  import opened EtherCat
  import opened Nic
  import opened Options

  /** Both receive sides and the transmit buffers. */
  datatype PortState = PortState(prim: Rx, sec: Rx, tx: seq<Body>)

  ghost predicate ValidState(s: PortState) {
    ValidRx(s.prim) && ValidRx(s.sec) && |s.tx| == MAX_BUF
  }

  /** Polls a socket until the frame for `idx` is there or the polls are used up;
      `last` is the result of the poll before. */
  function Listen(r: Rx, idx: nat, stream: seq<Option<Packet>>, last: int): (x: (Rx, int))
    requires ValidRx(r) && idx < MAX_BUF
    ensures ValidRx(x.0)
    decreases |stream|
  {
    if stream == [] || last > NO_FRAME then (r, last)
    else Listen(Polled(r, idx, stream[0]), idx, stream[1..], Result(r, idx, stream[0]))
  }

  function SourceOf(r: Rx, idx: nat, wkc: int): Source
    requires ValidRx(r) && idx < MAX_BUF
  {
    if wkc > NO_FRAME then r.source[idx] else Nothing
  }

  /** What is sent again over the secondary socket. */
  function Resent(s: PortState, idx: nat, prim: Rx, source: Source): seq<Body>
    requires ValidState(s) && ValidRx(prim) && idx < MAX_BUF
  {
    if source == Primary then s.tx[idx := prim.buf[idx]] else s.tx
  }

  /** The blocking receive: state and counter afterwards. */
  function Waited(s: PortState, idx: nat, redundant: bool, primIn: seq<Option<Packet>>, secIn: seq<Option<Packet>>,
                  again: seq<Option<Packet>>): (PortState, int)
    requires ValidState(s) && idx < MAX_BUF
  {
    var (prim, wkc) := Listen(s.prim, idx, primIn, NO_FRAME);
    if !redundant then (s.(prim := prim), wkc)
    else
      var (sec, wkc2) := Listen(s.sec, idx, secIn, NO_FRAME);
      var primrx, secrx := SourceOf(prim, idx, wkc), SourceOf(sec, idx, wkc2);
      if primrx == Secondary && secrx == Primary then
        (PortState(prim.(buf := prim.buf[idx := sec.buf[idx]]), sec, s.tx), wkc2)
      else if (primrx == Nothing || primrx == Primary) && secrx == Secondary then
        var (sec2, wkc3) := Listen(sec.(stat := sec.stat[idx := BufTx]), idx, again, NO_FRAME);
        var tx := Resent(s, idx, prim, primrx);
        if wkc3 > NO_FRAME then (PortState(prim.(buf := prim.buf[idx := sec2.buf[idx]]), sec2, tx), wkc3)
        else (PortState(prim, sec2, tx), wkc)
      else (PortState(prim, sec, s.tx), wkc)
  }

  class Port {
    const prim: Stack
    const sec: Stack
    const txbuf: array<Body>
    const redundant: bool
    var lastidx: nat

    ghost predicate Valid()
      reads this
    {
      && prim.Valid() && sec.Valid() && txbuf.Length == MAX_BUF && lastidx < MAX_BUF
      && prim.rxbufstat != sec.rxbufstat && prim.rxbuf != sec.rxbuf && prim.rxsa != sec.rxsa
      && txbuf != prim.rxbuf && txbuf != sec.rxbuf
    }

    ghost function View(): (s: PortState)
      requires Valid()
      reads this, prim.rxbufstat, prim.rxbuf, prim.rxsa, sec.rxbufstat, sec.rxbuf, sec.rxsa, txbuf
      ensures ValidState(s)
    {
      PortState(prim.View(), sec.View(), txbuf[..])
    }

    constructor (redundant: bool)
      ensures Valid() && this.redundant == redundant
    {
      this.redundant := redundant;
      prim := new Stack();
      sec := new Stack();
      txbuf := new Body[MAX_BUF](_ => Body(0, [], 0));
      lastidx := 0;
    }

    /** Allocates an index on both receive sides. */
    method GetIndex() returns (idx: nat)
      requires Valid()
      modifies this`lastidx, prim.rxbufstat, sec.rxbufstat
      ensures Valid() && lastidx == idx == NextIndex(old(prim.rxbufstat[..]), old(lastidx))
      ensures prim.rxbufstat[..] == old(prim.rxbufstat[..])[idx := BufAlloc]
      ensures sec.rxbufstat[..] == if redundant then old(sec.rxbufstat[..])[idx := BufAlloc] else old(sec.rxbufstat[..])
    {
      idx := prim.FindIndex(lastidx);
      prim.rxbufstat[idx] := BufAlloc;
      if redundant {
        sec.rxbufstat[idx] := BufAlloc;
      }
      lastidx := idx;
    }

    /** One poll loop; the timer expires after the polls of `stream`. */
    method ListenOn(stack: Stack, idx: nat, stream: seq<Option<Packet>>) returns (wkc: int)
      requires stack.Valid() && idx < MAX_BUF
      modifies stack.rxbufstat, stack.rxbuf, stack.rxsa
      ensures (stack.View(), wkc) == Listen(old(stack.View()), idx, stream, NO_FRAME)
    {
      wkc := NO_FRAME;
      var t := 0;
      ghost var start := stack.View();
      assert stream[0..] == stream;
      while wkc <= NO_FRAME && t < |stream|
        invariant t <= |stream|
        invariant Listen(stack.View(), idx, stream[t..], wkc) == Listen(start, idx, stream, NO_FRAME)
        decreases |stream| - t
      {
        wkc := stack.InFrame(idx, stream[t]);
        t := t + 1;
      }
    }

    /** Waits on both sockets in turn until both frames are in or time is up. */
    method ListenBoth(idx: nat, primIn: seq<Option<Packet>>, secIn: seq<Option<Packet>>) returns (wkc: int, wkc2: int)
      requires Valid() && idx < MAX_BUF && |primIn| == |secIn| > 0
      modifies prim.rxbufstat, prim.rxbuf, prim.rxsa, sec.rxbufstat, sec.rxbuf, sec.rxsa
      ensures (prim.View(), wkc) == Listen(old(prim.View()), idx, primIn, NO_FRAME)
      ensures redundant ==> (sec.View(), wkc2) == Listen(old(sec.View()), idx, secIn, NO_FRAME)
      ensures !redundant ==> sec.View() == old(sec.View()) && wkc2 == 0
    {
      wkc, wkc2 := NO_FRAME, NO_FRAME;
      if !redundant {
        wkc2 := 0;
      }
      var t, waiting := 0, true;
      ghost var p, s := prim.View(), sec.View();
      assert primIn[0..] == primIn && secIn[0..] == secIn;
      while waiting
        invariant t <= |primIn| && (waiting ==> t < |primIn|)
        invariant !waiting ==> t == |primIn| || (wkc > NO_FRAME && wkc2 > NO_FRAME)
        invariant Listen(prim.View(), idx, primIn[t..], wkc) == Listen(p, idx, primIn, NO_FRAME)
        invariant redundant ==> Listen(sec.View(), idx, secIn[t..], wkc2) == Listen(s, idx, secIn, NO_FRAME)
        invariant !redundant ==> sec.View() == s && wkc2 == 0
        decreases waiting, |primIn| - t
      {
        if wkc <= NO_FRAME {
          wkc := prim.InFrame(idx, primIn[t]);
        }
        if redundant {
          if wkc2 <= NO_FRAME {
            wkc2 := sec.InFrame(idx, secIn[t]);
          }
        }
        t := t + 1;
        waiting := (wkc <= NO_FRAME || wkc2 <= NO_FRAME) && t < |primIn|;
      }
    }

    /** The blocking redundant receive: waits, then decides by the routes the frames
        took whether to send again.  `again` is what the secondary socket delivers
        after that. */
    method WaitInFrameRed(idx: nat, primIn: seq<Option<Packet>>, secIn: seq<Option<Packet>>,
                          again: seq<Option<Packet>>) returns (wkc: int)
      requires Valid() && idx < MAX_BUF && |primIn| == |secIn| > 0
      modifies prim.rxbufstat, prim.rxbuf, prim.rxsa, sec.rxbufstat, sec.rxbuf, sec.rxsa, txbuf
      ensures (View(), wkc) == Waited(old(View()), idx, redundant, primIn, secIn, again)
    {
      hide Listen;
      var wkc2;
      wkc, wkc2 := ListenBoth(idx, primIn, secIn);
      if redundant {
        var primrx := Nothing;
        if wkc > NO_FRAME {
          primrx := prim.rxsa[idx];
        }
        var secrx := Nothing;
        if wkc2 > NO_FRAME {
          secrx := sec.rxsa[idx];
        }
        if primrx == Secondary && secrx == Primary {
          prim.rxbuf[idx] := sec.rxbuf[idx];
          wkc := wkc2;
        }
        if (primrx == Nothing && secrx == Secondary) || (primrx == Primary && secrx == Secondary) {
          if primrx == Primary && secrx == Secondary {
            txbuf[idx] := prim.rxbuf[idx];
          }
          sec.SetBufStat(idx, BufTx);
          wkc2 := ListenOn(sec, idx, again);
          if wkc2 > NO_FRAME {
            prim.rxbuf[idx] := sec.rxbuf[idx];
            wkc := wkc2;
          }
        }
      }
    }
  }

  // ----- the redundant line -----

  /** A slave as a transformer of the frame contents it processes. */
  type SlaveFn = Body -> Body

  function Pass(slaves: seq<SlaveFn>, b: Body): Body
    decreases |slaves|
  {
    if slaves == [] then b else Pass(slaves[1..], slaves[0](b))
  }

  lemma {:induction false} PassSplit(slaves: seq<SlaveFn>, k: nat, b: Body)
    requires k <= |slaves|
    ensures Pass(slaves, b) == Pass(slaves[k..], Pass(slaves[..k], b))
    decreases k
  {
    if k == 0 {
      assert slaves[0..] == slaves && slaves[..0] == [];
    } else {
      assert slaves[..k][1..] == slaves[1..][..k - 1] && slaves[1..][k - 1..] == slaves[k..];
      PassSplit(slaves[1..], k - 1, slaves[0](b));
    }
  }

  /** What reaches the primary socket when `frame` is sent on the primary and
      `dummy` on the secondary one, and the cable behind slave k is broken (none if
      the line is whole).  Slaves process frames only on the way away from the
      primary side; a frame that comes from the secondary side passes them
      unprocessed unless a break turns it round. */
  function AtPrimary(slaves: seq<SlaveFn>, cut: Option<nat>, idx: nat, frame: Body, dummy: Body): Option<Packet>
    requires cut.Some? ==> cut.value <= |slaves|
  {
    if cut.None? then Some(Packet(true, idx, Secondary, dummy))
    else if cut.value == 0 then None
    else Some(Packet(true, idx, Primary, Pass(slaves[..cut.value], frame)))
  }

  function AtSecondary(slaves: seq<SlaveFn>, cut: Option<nat>, idx: nat, frame: Body, dummy: Body): Option<Packet>
    requires cut.Some? ==> cut.value <= |slaves|
  {
    if cut.None? then Some(Packet(true, idx, Primary, Pass(slaves, frame)))
    else if cut.value == |slaves| then None
    else Some(Packet(true, idx, Secondary, Pass(slaves[cut.value..], dummy)))
  }

  /** The stream brings the packet once, at any time and among any others, or no
      packet for this index at all. */
  ghost predicate Delivers(stream: seq<Option<Packet>>, idx: nat, p: Option<Packet>) {
    if p.None? then forall t :: 0 <= t < |stream| ==> Foreign(stream[t], idx)
    else exists at :: 0 <= at < |stream| && stream[at] == p && forall t :: 0 <= t < at ==> Foreign(stream[t], idx)
  }

  predicate Foreign(a: Option<Packet>, idx: nat) {
    a.None? || !a.value.ethercat || a.value.index != idx
  }

  lemma {:induction false} ListenMisses(r: Rx, idx: nat, stream: seq<Option<Packet>>, last: int)
    requires ValidRx(r) && idx < MAX_BUF && r.stat[idx] != BufRcvd && last <= NO_FRAME
    requires forall t :: 0 <= t < |stream| ==> Foreign(stream[t], idx)
    ensures Listen(r, idx, stream, last).1 <= NO_FRAME
    decreases |stream|
  {
    if stream != [] {
      assert Foreign(stream[0], idx);
      ListenMisses(Polled(r, idx, stream[0]), idx, stream[1..], Result(r, idx, stream[0]));
    }
  }

  lemma {:induction false} ListenGets(r: Rx, idx: nat, stream: seq<Option<Packet>>, last: int, p: Packet, at: nat)
    requires ValidRx(r) && idx < MAX_BUF && r.stat[idx] != BufRcvd && last <= NO_FRAME
    requires at < |stream| && stream[at] == Some(p) && p.ethercat && p.index == idx
    requires forall t :: 0 <= t < at ==> Foreign(stream[t], idx)
    ensures var (x, wkc) := Listen(r, idx, stream, last);
            wkc == p.body.wkc && x.buf[idx] == p.body && x.source[idx] == p.source && x.stat[idx] == BufComplete
    decreases |stream|
  {
    var x, result := Polled(r, idx, stream[0]), Result(r, idx, stream[0]);
    if at > 0 {
      assert Foreign(stream[0], idx);
      assert stream[1..][at - 1] == stream[at];
      ListenGets(x, idx, stream[1..], result, p, at - 1);
    } else {
      assert Listen(x, idx, stream[1..], result) == (x, result);
    }
  }

  lemma ListenDelivers(r: Rx, idx: nat, stream: seq<Option<Packet>>, p: Option<Packet>)
    requires ValidRx(r) && idx < MAX_BUF && r.stat[idx] != BufRcvd && Delivers(stream, idx, p)
    requires p.Some? ==> p.value.ethercat && p.value.index == idx
    ensures var (x, wkc) := Listen(r, idx, stream, NO_FRAME);
            if p.None? then wkc <= NO_FRAME
            else wkc == p.value.body.wkc && x.buf[idx] == p.value.body && x.source[idx] == p.value.source
                 && x.stat[idx] == BufComplete
  {
    if p.None? {
      ListenMisses(r, idx, stream, NO_FRAME);
    } else {
      var at :| 0 <= at < |stream| && stream[at] == p && forall t :: 0 <= t < at ==> Foreign(stream[t], idx);
      ListenGets(r, idx, stream, NO_FRAME, p.value, at);
    }
  }

  // ----- a port without redundancy -----

  /** What a poll that finds nothing for the index reports. */
  function Missed(arrival: Option<Packet>): int {
    if arrival.None? then NO_FRAME else OTHER_FRAME
  }

  /** The index keeps its buffer when only other frames come in. */
  lemma {:induction false} ListenKeeps(r: Rx, idx: nat, stream: seq<Option<Packet>>, last: int)
    requires ValidRx(r) && idx < MAX_BUF && r.stat[idx] != BufRcvd && last <= NO_FRAME
    requires forall t :: 0 <= t < |stream| ==> Foreign(stream[t], idx)
    ensures var (x, wkc) := Listen(r, idx, stream, last);
            && wkc == (if stream == [] then last else Missed(stream[|stream| - 1]))
            && x.buf[idx] == r.buf[idx] && x.source[idx] == r.source[idx] && x.stat[idx] == r.stat[idx]
    decreases |stream|
  {
    if stream != [] {
      assert Foreign(stream[0], idx);
      ListenKeeps(Polled(r, idx, stream[0]), idx, stream[1..], Result(r, idx, stream[0]));
    }
  }

  /** Main result, without redundancy.  Among any other frames the wait takes the frame
      of its index: counter and contents are that frame's.  If there is none, its buffer
      stays, and the last poll decides between no frame and another one.  The secondary
      side and the transmit buffers are left alone. */
  lemma PlainWait(s: PortState, idx: nat, primIn: seq<Option<Packet>>, secIn: seq<Option<Packet>>,
                  again: seq<Option<Packet>>, p: Option<Packet>)
    requires ValidState(s) && idx < MAX_BUF && s.prim.stat[idx] != BufRcvd && primIn != []
    requires Delivers(primIn, idx, p) && (p.Some? ==> p.value.ethercat && p.value.index == idx)
    ensures var (t, wkc) := Waited(s, idx, false, primIn, secIn, again);
            && t.sec == s.sec && t.tx == s.tx
            && if p.Some?
               then wkc == p.value.body.wkc && t.prim.buf[idx] == p.value.body && t.prim.stat[idx] == BufComplete
               else && wkc == Missed(primIn[|primIn| - 1]) && wkc <= NO_FRAME
                    && t.prim.buf[idx] == s.prim.buf[idx] && t.prim.stat[idx] == s.prim.stat[idx]
  {
    hide Listen;
    ListenDelivers(s.prim, idx, primIn, p);
    if p.None? {
      ListenKeeps(s.prim, idx, primIn, NO_FRAME);
    }
  }

  /** So on a whole line the caller gets the frame processed by all slaves in order. */
  lemma PlainLine(s: PortState, idx: nat, slaves: seq<SlaveFn>, primIn: seq<Option<Packet>>,
                  secIn: seq<Option<Packet>>, again: seq<Option<Packet>>)
    requires ValidState(s) && idx < MAX_BUF && s.prim.stat[idx] == BufTx && primIn != []
    requires Delivers(primIn, idx, Some(Packet(true, idx, Primary, Pass(slaves, s.tx[idx]))))
    ensures var (t, wkc) := Waited(s, idx, false, primIn, secIn, again);
            t.prim.buf[idx] == Pass(slaves, s.tx[idx]) && wkc == Pass(slaves, s.tx[idx]).wkc
  {
    hide Waited, Pass, Delivers;
    PlainWait(s, idx, primIn, secIn, again, Some(Packet(true, idx, Primary, Pass(slaves, s.tx[idx]))));
  }

  /** A frame that another wait has stored is taken without reading the socket. */
  lemma StoredFrameTaken(s: PortState, idx: nat, primIn: seq<Option<Packet>>, secIn: seq<Option<Packet>>,
                         again: seq<Option<Packet>>)
    requires ValidState(s) && idx < MAX_BUF && s.prim.stat[idx] == BufRcvd && primIn != []
    ensures var (t, wkc) := Waited(s, idx, false, primIn, secIn, again);
            && wkc == s.prim.buf[idx].wkc && t.sec == s.sec && t.tx == s.tx
            && t.prim.buf == s.prim.buf && t.prim.source == s.prim.source
            && t.prim.stat == s.prim.stat[idx := BufComplete]
  {
    var x := Polled(s.prim, idx, primIn[0]);
    assert Listen(x, idx, primIn[1..], s.prim.buf[idx].wkc) == (x, s.prim.buf[idx].wkc);
  }

  // ----- the routes of any two frames -----

  /** A frame for the index, or none. */
  predicate ForIndex(p: Option<Packet>, idx: nat) {
    p.Some? ==> p.value.ethercat && p.value.index == idx
  }

  function Route(p: Option<Packet>): Source {
    if p.Some? then p.value.source else Nothing
  }

  /** The counter and the primary buffer afterwards are those of the packet; without one
      the buffer stays. */
  ghost predicate Got(p: Option<Packet>, before: Body, after: Body, wkc: int) {
    if p.Some? then wkc == p.value.body.wkc && after == p.value.body else wkc <= NO_FRAME && after == before
  }

  /** With redundancy, whatever the two sockets deliver: the frame that went round counts
      if the two crossed; a frame that came back to the secondary socket is sent again, as
      the primary socket received it if it did; otherwise the primary socket decides. */
  lemma RouteDecides(s: PortState, idx: nat, primIn: seq<Option<Packet>>, secIn: seq<Option<Packet>>,
                     again: seq<Option<Packet>>, p: Option<Packet>, q: Option<Packet>, r: Option<Packet>)
    requires ValidState(s) && idx < MAX_BUF && s.prim.stat[idx] == BufTx && s.sec.stat[idx] == BufTx
    requires ForIndex(p, idx) && ForIndex(q, idx) && ForIndex(r, idx)
    requires Delivers(primIn, idx, p) && Delivers(secIn, idx, q) && Delivers(again, idx, r)
    ensures var (t, wkc) := Waited(s, idx, true, primIn, secIn, again);
            var resend := Route(p) != Secondary && Route(q) == Secondary;
            var crossed := Route(p) == Secondary && Route(q) == Primary;
            && Got(if crossed then q else if resend && r.Some? then r else p, s.prim.buf[idx], t.prim.buf[idx], wkc)
            && t.tx == (if resend && Route(p) == Primary then s.tx[idx := p.value.body] else s.tx)
  {
    hide Listen, Delivers;
    ListenDelivers(s.prim, idx, primIn, p);
    ListenDelivers(s.sec, idx, secIn, q);
    if p.None? {
      ListenKept(s.prim, idx, primIn);
    }
    var sec := Listen(s.sec, idx, secIn, NO_FRAME).0;
    ListenDelivers(sec.(stat := sec.stat[idx := BufTx]), idx, again, r);
  }

  lemma ListenKept(r: Rx, idx: nat, stream: seq<Option<Packet>>)
    requires ValidRx(r) && idx < MAX_BUF && r.stat[idx] != BufRcvd && Delivers(stream, idx, None)
    ensures Listen(r, idx, stream, NO_FRAME).0.buf[idx] == r.buf[idx]
  {
    ListenKeeps(r, idx, stream, NO_FRAME);
  }

  /** What reaches the secondary socket when `sent`, whose source address is the
      primary one, is sent there behind a break after slave k. */
  function AfterResend(slaves: seq<SlaveFn>, k: nat, idx: nat, sent: Body): Packet
    requires k < |slaves|
  {
    Packet(true, idx, Primary, Pass(slaves[k..], sent))
  }

  /** The transmit buffer when the frame is sent again. */
  function SentAgain(slaves: seq<SlaveFn>, k: nat, frame: Body): Body
    requires k < |slaves|
  {
    if k == 0 then frame else Pass(slaves[..k], frame)
  }

  /** The wait is over an index that was sent on both sockets, and the frames that can
      return do so in time. */
  ghost predicate Waiting(s: PortState, idx: nat, slaves: seq<SlaveFn>, cut: Option<nat>, dummy: Body,
                          primIn: seq<Option<Packet>>, secIn: seq<Option<Packet>>) {
    && ValidState(s) && idx < MAX_BUF && slaves != [] && (cut.Some? ==> cut.value <= |slaves|)
    && s.prim.stat[idx] == BufTx && s.sec.stat[idx] == BufTx
    && Delivers(primIn, idx, AtPrimary(slaves, cut, idx, s.tx[idx], dummy))
    && Delivers(secIn, idx, AtSecondary(slaves, cut, idx, s.tx[idx], dummy))
  }

  /** Main result.  Whatever single cable is broken, if any, and however the frames
      that can return are interleaved with others, the primary buffer ends up with
      the frame processed by all slaves in order, and its counter is returned. */
  lemma SingleBreakRepaired(s: PortState, idx: nat, slaves: seq<SlaveFn>, cut: Option<nat>, dummy: Body,
                            primIn: seq<Option<Packet>>, secIn: seq<Option<Packet>>, again: seq<Option<Packet>>)
    requires Waiting(s, idx, slaves, cut, dummy, primIn, secIn)
    requires cut.Some? && cut.value < |slaves| ==>
      Delivers(again, idx, Some(AfterResend(slaves, cut.value, idx, SentAgain(slaves, cut.value, s.tx[idx]))))
    ensures var (t, wkc) := Waited(s, idx, true, primIn, secIn, again);
            t.prim.buf[idx] == Pass(slaves, s.tx[idx]) && wkc == Pass(slaves, s.tx[idx]).wkc
  {
    hide Listen, Delivers, Pass;
    var frame := s.tx[idx];
    ListenDelivers(s.prim, idx, primIn, AtPrimary(slaves, cut, idx, frame, dummy));
    ListenDelivers(s.sec, idx, secIn, AtSecondary(slaves, cut, idx, frame, dummy));
    if cut.Some? {
      PassSplit(slaves, cut.value, frame);
      if cut.value == |slaves| {
        assert slaves[..cut.value] == slaves;
      } else {
        var sec := Listen(s.sec, idx, secIn, NO_FRAME).0;
        ListenDelivers(sec.(stat := sec.stat[idx := BufTx]), idx, again,
                       Some(AfterResend(slaves, cut.value, idx, SentAgain(slaves, cut.value, frame))));
        assert slaves[0..] == slaves;
      }
    }
  }

  /** If the frame sent again does not return, a break inside the line shows only in
      the counter: the caller gets the frame processed by the slaves before it. */
  lemma LostRepairIsPartial(s: PortState, idx: nat, slaves: seq<SlaveFn>, k: nat, dummy: Body,
                            primIn: seq<Option<Packet>>, secIn: seq<Option<Packet>>, again: seq<Option<Packet>>)
    requires Waiting(s, idx, slaves, Some(k), dummy, primIn, secIn) && k < |slaves|
    requires Delivers(again, idx, None)
    ensures var (t, wkc) := Waited(s, idx, true, primIn, secIn, again);
            if k == 0 then wkc <= NO_FRAME
            else t.prim.buf[idx] == Pass(slaves[..k], s.tx[idx]) && wkc == Pass(slaves[..k], s.tx[idx]).wkc
  {
    hide Listen, Delivers, Pass;
    ListenDelivers(s.prim, idx, primIn, AtPrimary(slaves, Some(k), idx, s.tx[idx], dummy));
    ListenDelivers(s.sec, idx, secIn, AtSecondary(slaves, Some(k), idx, s.tx[idx], dummy));
    var sec := Listen(s.sec, idx, secIn, NO_FRAME).0;
    ListenDelivers(sec.(stat := sec.stat[idx := BufTx]), idx, again, None);
  }
}
