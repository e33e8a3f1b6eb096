/** Putting fragments back together: a blocking receive, and one mailbox at a time. */
module EoEReceive {
  import opened Bytes
  import opened Mailbox
  import opened EoE

  /** The receivers copy as many bytes as the length field says. */
  predicate Sane(f: Mbx) {
    Word(f, LENGTH) <= MBX_BUF - 6
  }

  function Info1Of(f: Mbx): word { Word(f, FRAMEINFO1) }
  function Info2Of(f: Mbx): word { Word(f, FRAMEINFO2) }

  // ----- one mailbox at a time -----

  /** Working variables of the assembler, the size of its buffer, and the buffer. */
  datatype State = State(fragno: nat, framesize: nat, offset: nat, frameno: nat, psize: int, buf: seq<byte>)

  /** The caller gives the true size of the buffer; the frame size comes from a header. */
  predicate Ready(a: State) {
    0 <= a.psize <= |a.buf| && a.framesize <= MAX_PAYLOAD
  }

  function Cleared(a: State): State {
    a.(fragno := 0, framesize := 0, offset := 0, frameno := 0)
  }

  /** Length of the data, in 16 bits. */
  function DataSize(f: Mbx): word {
    (Word(f, LENGTH) - 4) % 0x1_0000
  }

  /** The fragment goes where the working variables point, if it fits. */
  function Stored(a: State, f: Mbx): State
    requires Sane(f) && Ready(a)
  {
    var n := DataSize(f);
    if a.offset + n <= a.framesize && a.offset + n <= a.psize then
      a.(buf := Patch(a.buf, a.offset, f[DATA..DATA + n]), offset := (a.offset + n) % 0x1_0000,
         fragno := (a.fragno + 1) % 0x100)
    else a
  }

  function Finished(a: State, info1: word): (State, int) {
    if IsLast(info1) then
      (Cleared(a).(psize := if HasTime(info1) then (a.offset - 4) % 0x1_0000 else a.offset), 1)
    else (a, 0)
  }

  /** After a fragment with an expected number. */
  function Accepted(a: State, f: Mbx): (State, int)
    requires Sane(f) && Ready(a)
  {
    if a.fragno == 0 then
      var first := a.(framesize := 32 * OffsetOf(Info2Of(f)), offset := 0, frameno := FrameNo(Info2Of(f)));
      Finished(Stored(first, f), Info1Of(f))
    else if a.frameno != FrameNo(Info2Of(f)) || a.offset != 32 * OffsetOf(Info2Of(f)) then
      (Cleared(a), -EOE_INVALID_RX_DATA)
    else Finished(Stored(a, f), Info1Of(f))
  }

  function Fed(a: State, f: Mbx): (State, int)
    requires Sane(f) && Ready(a)
  {
    if Kind(f) != MBXT_EOE then (a, -PACKET_ERROR)
    else
      var b := if a.fragno != FragNo(Info2Of(f)) && a.fragno != 0 then Cleared(a) else a;
      if a.fragno != FragNo(Info2Of(f)) && FragNo(Info2Of(f)) > 0 then (b, -EOE_INVALID_RX_DATA) else Accepted(b, f)
  }

  class Assembler {
    var rxfragmentno: nat
    var rxframesize: nat
    var rxframeoffset: nat
    var rxframeno: nat
    var psize: int
    const p: array<byte>

    constructor (p: array<byte>)
      ensures this.p == p && View() == State(0, 0, 0, 0, p.Length, p[..])
    {
      this.p := p;
      rxfragmentno, rxframesize, rxframeoffset, rxframeno, psize := 0, 0, 0, 0, p.Length;
    }

    ghost function View(): State
      reads this, p
    {
      State(rxfragmentno, rxframesize, rxframeoffset, rxframeno, psize, p[..])
    }

    method Clear()
      modifies this
      ensures View() == Cleared(old(View()))
    {
      rxfragmentno, rxframesize, rxframeoffset, rxframeno := 0, 0, 0, 0;
    }

    method Store(mbx: Mbx)
      requires Sane(mbx) && Ready(View())
      modifies this, p
      ensures View() == Stored(old(View()), mbx)
    {
      var eoedatasize := DataSize(mbx);
      if rxframeoffset + eoedatasize <= rxframesize && rxframeoffset + eoedatasize <= psize {
        Copy(p, rxframeoffset, mbx[DATA..DATA + eoedatasize]);
        rxframeoffset := (rxframeoffset + eoedatasize) % 0x1_0000;
        rxfragmentno := (rxfragmentno + 1) % 0x100;
      }
    }

    method Finish(frameinfo1: word) returns (wkc: int)
      modifies this
      ensures (View(), wkc) == Finished(old(View()), frameinfo1)
    {
      wkc := 0;
      if IsLast(frameinfo1) {
        if HasTime(frameinfo1) {
          rxframeoffset := (rxframeoffset - 4) % 0x1_0000;
        }
        psize := rxframeoffset;
        Clear();
        wkc := 1;
      }
    }

    /** Takes one mailbox: 0 if the fragment is fine, 1 if it ends a frame, else an
        error code. */
    method ReadFragment(mbx: Mbx) returns (wkc: int)
      requires Sane(mbx) && Ready(View())
      modifies this, p
      ensures (View(), wkc) == Fed(old(View()), mbx)
    {
      hide Word, Stored, Finished, FragNo, FrameNo, Kind;
      wkc := 0;
      if Kind(mbx) == MBXT_EOE {
        var frameinfo1, frameinfo2 := Info1Of(mbx), Info2Of(mbx);
        if rxfragmentno != FragNo(frameinfo2) {
          if rxfragmentno != 0 {
            Clear();
          }
          if FragNo(frameinfo2) > 0 {
            wkc := -EOE_INVALID_RX_DATA;
            return;
          }
        }
        if rxfragmentno == 0 {
          rxframesize := 32 * OffsetOf(frameinfo2);
          rxframeoffset := 0;
          rxframeno := FrameNo(frameinfo2);
        } else {
          if rxframeno != FrameNo(frameinfo2) || rxframeoffset != 32 * OffsetOf(frameinfo2) {
            Clear();
            wkc := -EOE_INVALID_RX_DATA;
            return;
          }
        }
        Store(mbx);
        wkc := Finish(frameinfo1);
      } else {
        wkc := -PACKET_ERROR;
      }
    }
  }

  // ----- blocking receive -----

  /** Working variables of the blocking receive. */
  datatype Partial = Partial(fragno: nat, frameno: nat, offset: nat, buf: seq<byte>)

  /** The blocking receive also relies on the length field covering its header. */
  predicate SaneArrivals(arrivals: seq<Outcome>) {
    forall k :: 0 <= k < |arrivals| && arrivals[k].Answered? ==> 4 <= Word(arrivals[k].reply, LENGTH) <= MBX_BUF - 6
  }

  /** Error code of a fragment, or 0. */
  function Check(a: Partial, f: Mbx, buffersize: nat, port: byte): int {
    if Kind(f) != MBXT_EOE then -PACKET_ERROR
    else if a.fragno != FragNo(Info2Of(f)) && FragNo(Info2Of(f)) > 0 then -EOE_INVALID_RX_DATA
    else if a.fragno == 0 then
      if 32 * OffsetOf(Info2Of(f)) > buffersize || port != PortOf(Info1Of(f)) then -EOE_INVALID_RX_DATA else 0
    else if a.frameno != FrameNo(Info2Of(f)) || a.offset != 32 * OffsetOf(Info2Of(f)) then -EOE_INVALID_RX_DATA
    else 0
  }

  function Kept(a: Partial, f: Mbx, buffersize: nat): (b: Partial)
    requires 4 <= Word(f, LENGTH) <= MBX_BUF - 6 && buffersize <= |a.buf|
    ensures |b.buf| == |a.buf| && (a.offset <= buffersize ==> b.offset <= buffersize)
  {
    var n := Word(f, LENGTH) - 4;
    var b := if a.fragno == 0 then a.(frameno := FrameNo(Info2Of(f))) else a;
    if b.offset + n <= buffersize then
      b.(buf := Patch(b.buf, b.offset, f[DATA..DATA + n]), offset := b.offset + n, fragno := (b.fragno + 1) % 0x100)
    else b
  }

  /** Counter or error code, reported size, and buffer after the given arrivals;
      nothing more arrives after them. */
  function Joined(a: Partial, arrivals: seq<Outcome>, buffersize: nat, port: byte): (int, int, seq<byte>)
    requires SaneArrivals(arrivals) && buffersize <= |a.buf|
    decreases |arrivals|
  {
    if arrivals == [] then (0, buffersize, a.buf)
    else if !arrivals[0].Answered? then (arrivals[0].failed, buffersize, a.buf)
    else
      var f := arrivals[0].reply;
      if Check(a, f, buffersize, port) != 0 then (Check(a, f, buffersize, port), buffersize, a.buf)
      else
        var b := Kept(a, f, buffersize);
        if IsLast(Info1Of(f)) then
          (arrivals[0].wkc, if HasTime(Info1Of(f)) then b.offset - 4 else b.offset, b.buf)
        else Joined(b, arrivals[1..], buffersize, port)
  }

  /** The next arrival, nothing if there is none. */
  function Arrival(arrivals: seq<Outcome>, n: nat): Outcome {
    if n < |arrivals| then arrivals[n] else Silent(0)
  }

  /** One turn of the loop. */
  lemma JoinedStep(a: Partial, arrivals: seq<Outcome>, n: nat, buffersize: nat, port: byte)
    requires SaneArrivals(arrivals) && buffersize <= |a.buf| && n <= |arrivals|
    ensures var o := Arrival(arrivals, n);
            Joined(a, arrivals[n..], buffersize, port) ==
            if !o.Answered? then (o.failed, buffersize, a.buf)
            else if Check(a, o.reply, buffersize, port) != 0 then
              (Check(a, o.reply, buffersize, port), buffersize, a.buf)
            else
              var b := Kept(a, o.reply, buffersize);
              if IsLast(Info1Of(o.reply)) then
                (o.wkc, if HasTime(Info1Of(o.reply)) then b.offset - 4 else b.offset, b.buf)
              else Joined(b, arrivals[n + 1..], buffersize, port)
  {
    hide Check, Kept, IsLast, HasTime;
    if n < |arrivals| {
      assert arrivals[n..][0] == arrivals[n] && arrivals[n..][1..] == arrivals[n + 1..];
    }
  }

  method Recv(p: array<byte>, psize: nat, port: byte, arrivals: seq<Outcome>) returns (wkc: int, size: int)
    requires psize <= p.Length && SaneArrivals(arrivals)
    modifies p
    ensures (wkc, size, p[..]) == Joined(Partial(0, 0xff, 0, old(p[..])), arrivals, psize, port)
  {
    hide Info1Of, IsLast, HasTime, Check, Kept, Joined;
    var notLast, n: nat := true, 0;
    var rxfragmentno: nat, rxframeno: nat, rxframeoffset: nat := 0, 0xff, 0;
    ghost var result := Joined(Partial(0, 0xff, 0, p[..]), arrivals, psize, port);
    size := psize;
    assert arrivals[0..] == arrivals;
    JoinedStep(Partial(0, 0xff, 0, p[..]), arrivals, 0, psize, port);
    var o := Arrival(arrivals, 0);
    wkc := Wkc(o);
    while wkc > 0 && notLast
      invariant n <= |arrivals| && rxframeoffset <= psize
      invariant notLast && wkc > 0 ==> n < |arrivals| && o == arrivals[n] && o.Answered?
      invariant notLast && wkc > 0 ==> wkc == o.wkc && size == psize
      invariant notLast && wkc > 0 ==>
        Joined(Partial(rxfragmentno, rxframeno, rxframeoffset, p[..]), arrivals[n..], psize, port) == result
      invariant !notLast || wkc <= 0 ==> (wkc, size, p[..]) == result
      decreases notLast && wkc > 0, |arrivals| - n
    {
      var f := o.reply;
      ghost var a := Partial(rxfragmentno, rxframeno, rxframeoffset, p[..]);
      JoinedStep(a, arrivals, n, psize, port);
      var error := CheckFragment(f, rxfragmentno, rxframeno, rxframeoffset, psize, port, p[..]);
      if error != 0 {
        wkc := error;
      } else {
        rxfragmentno, rxframeno, rxframeoffset := KeepFragment(p, f, rxfragmentno, rxframeno, rxframeoffset, psize);
        if IsLast(Info1Of(f)) {
          size := rxframeoffset;
          if HasTime(Info1Of(f)) {
            size := rxframeoffset - 4;
          }
          notLast := false;
        } else {
          n := n + 1;
          o := Arrival(arrivals, n);
          wkc := Wkc(o);
          JoinedStep(Partial(rxfragmentno, rxframeno, rxframeoffset, p[..]), arrivals, n, psize, port);
        }
      }
    }
  }

  method KeepFragment(p: array<byte>, f: Mbx, fragno: nat, frameno: nat, offset: nat, buffersize: nat)
    returns (fragno': nat, frameno': nat, offset': nat)
    requires 4 <= Word(f, LENGTH) <= MBX_BUF - 6 && buffersize <= p.Length
    modifies p
    ensures Partial(fragno', frameno', offset', p[..])
      == Kept(Partial(fragno, frameno, offset, old(p[..])), f, buffersize)
  {
    fragno', frameno', offset' := fragno, frameno, offset;
    if fragno == 0 {
      frameno' := FrameNo(Info2Of(f));
    }
    var eoedatasize := Word(f, LENGTH) - 4;
    if offset + eoedatasize <= buffersize {
      Copy(p, offset, f[DATA..DATA + eoedatasize]);
      offset' := offset + eoedatasize;
      fragno' := (fragno + 1) % 0x100;
    }
  }

  /** The checks of the blocking receive, in its order. */
  method CheckFragment(f: Mbx, fragno: nat, frameno: nat, offset: nat, buffersize: nat, port: byte,
                       ghost buf: seq<byte>)
    returns (error: int)
    ensures error == Check(Partial(fragno, frameno, offset, buf), f, buffersize, port) <= 0
  {
    error := 0;
    if Kind(f) == MBXT_EOE {
      if fragno != FragNo(Info2Of(f)) && FragNo(Info2Of(f)) > 0 {
        error := -EOE_INVALID_RX_DATA;
      } else if fragno == 0 {
        if 32 * OffsetOf(Info2Of(f)) > buffersize || port != PortOf(Info1Of(f)) {
          error := -EOE_INVALID_RX_DATA;
        }
      } else if frameno != FrameNo(Info2Of(f)) || offset != 32 * OffsetOf(Info2Of(f)) {
        error := -EOE_INVALID_RX_DATA;
      }
    } else {
      error := -PACKET_ERROR;
    }
  }
}
