/** Fragments of a frame are put back together, from any state of the assembler. */
module EoETheorems {
  import opened Bytes
  import opened Chunks
  import opened Mailbox
  import opened EoE
  import opened EoEReceive

  lemma BlockOffset(k: nat, block: nat)
    requires block % 32 == 0
    ensures k * block % 32 == 0 && 32 * (k * block / 32) == k * block
  {
    var b := block / 32;
    assert k * block == 32 * (k * b) by {
      assert block == 32 * b;
    }
  }

  lemma Few(k: nat, block: nat, limit: nat)
    requires block >= 32 && k * block <= limit
    ensures 32 * k <= limit
  {
    assert k * block >= k * 32;
  }

  /** All fragments of a frame sent through a mailbox of mbxl bytes. */
  ghost predicate AllOf(frames: seq<Mbx>, p: seq<byte>, mbxl: nat, port: byte, frameno: nat)
    requires 42 <= mbxl
  {
    var maxdata := MaxData(mbxl);
    Fragments(frames, p, maxdata, port, frameno) && |frames| == Count(|p|, maxdata, Block(maxdata))
  }

  /** Every fragment lies inside the mailbox, and all but the last hold as many whole
      blocks of 32 bytes as fit. */
  lemma FragmentsFit(frames: seq<Mbx>, p: seq<byte>, mbxl: nat, port: byte, frameno: nat, k: nat)
    requires 42 <= mbxl <= MAX_MBX && AllOf(frames, p, mbxl, port, frameno) && k < |frames|
    ensures Sane(frames[k]) && 4 <= Word(frames[k], LENGTH) <= mbxl - 6
    ensures k + 1 < |frames| ==>
              Word(frames[k], LENGTH) == 4 + (mbxl - 10) / 32 * 32 && !IsLast(Info1Of(frames[k]))
  {
    hide Info1, Info2, Word, OffsetField;
    var maxdata := MaxData(mbxl);
    assert FragmentAt(frames[k], k, p, maxdata, port, frameno);
    FinalIsLast(|p|, maxdata, Block(maxdata), k);
    PieceAt(p, maxdata, Block(maxdata), k, k * Block(maxdata));
  }

  // ----- one mailbox at a time -----

  /** Return codes and final state when fragments arrive one by one. */
  function FedAll(a: State, frames: seq<Mbx>): (State, seq<int>)
    requires forall f :: f in frames ==> Sane(f)
    decreases |frames|
  {
    if frames == [] || !Ready(a) then (a, [])
    else
      var (b, code) := Fed(a, frames[0]);
      var (c, codes) := FedAll(b, frames[1..]);
      (c, [code] + codes)
  }

  /** State after the first k fragments, `at` bytes in all. */
  function Midway(p: seq<byte>, at: nat, frameno: nat, k: nat, psize: int, buf: seq<byte>): State
    requires at <= |p| <= |buf|
  {
    State(k, 32 * ((|p| + 31) / 32), at, frameno % 0x10, psize, p[..at] + buf[at..])
  }

  /** What fragment number k says. */
  lemma FragmentFields(f: Mbx, k: nat, p: seq<byte>, maxdata: nat, port: byte, frameno: nat)
    requires 32 <= maxdata && FragmentAt(f, k, p, maxdata, port, frameno)
    ensures var at := k * Block(maxdata);
            && Kind(f) == MBXT_EOE && !HasTime(Info1Of(f)) && PortOf(Info1Of(f)) == port % 0x10
            && IsLast(Info1Of(f)) == Final(|p|, maxdata, Block(maxdata), k)
            && FrameNo(Info2Of(f)) == frameno % 0x10 && FragNo(Info2Of(f)) == k % 0x40
            && OffsetOf(Info2Of(f)) == OffsetField(|p|, at, k) % 0x40
            && Word(f, LENGTH) == 4 + |Piece(p, maxdata, Block(maxdata), k)|
            && DATA + |Piece(p, maxdata, Block(maxdata), k)| <= MBX_BUF
            && f[DATA..DATA + |Piece(p, maxdata, Block(maxdata), k)|] == Piece(p, maxdata, Block(maxdata), k)
  {
    hide Info1, Info2, Piece, Final, OffsetField, HasTime, IsLast, PortOf, FrameNo, FragNo, OffsetOf, Kind;
  }

  /** The fragment continues the frame, or starts a new one. */
  predicate InStep(a: State, f: Mbx) {
    && Kind(f) == MBXT_EOE
    && (FragNo(Info2Of(f)) == 0
        || (a.fragno == FragNo(Info2Of(f)) && a.frameno == FrameNo(Info2Of(f))
            && a.offset == 32 * OffsetOf(Info2Of(f))))
  }

  /** The working variables it is stored with. */
  function Target(a: State, f: Mbx): State {
    if FragNo(Info2Of(f)) == 0 then State(0, 32 * OffsetOf(Info2Of(f)), 0, FrameNo(Info2Of(f)), a.psize, a.buf) else a
  }

  lemma FedCases(a: State, f: Mbx)
    requires Ready(a) && Sane(f)
    ensures Ready(Target(a, f))
    ensures InStep(a, f) ==> Fed(a, f) == Finished(Stored(Target(a, f), f), Info1Of(f))
    ensures !InStep(a, f) ==> Fed(a, f).1 < 0 && Fed(a, f).0 in {a, Cleared(a)}
  {
    hide HasTime, IsLast, FrameNo, FragNo, Kind, Word, Stored, Finished;
  }

  /** The offset field, read back. */
  lemma OffsetRead(n: nat, at: nat, k: nat, block: nat)
    requires block >= 32 && block % 32 == 0 && at == k * block <= n <= MAX_PAYLOAD
    ensures k < 0x40 && at % 32 == 0
    ensures k > 0 ==> 32 * (OffsetField(n, at, k) % 0x40) == at
    ensures k == 0 ==> 32 * (OffsetField(n, at, k) % 0x40) == 32 * ((n + 31) / 32)
  {
    BlockOffset(k, block);
    Few(k, block, n);
  }

  /** Fragment k, arriving in the state after k others (in any state if it is the first). */
  lemma FedAt(a: State, f: Mbx, k: nat, at: nat, p: seq<byte>, maxdata: nat, port: byte, frameno: nat, buf: seq<byte>)
    requires 32 <= maxdata && FragmentAt(f, k, p, maxdata, port, frameno) && Sane(f) && Ready(a)
    requires at == k * Block(maxdata) <= |p| <= MAX_PAYLOAD && |p| <= a.psize <= |buf|
    requires a.buf == p[..at] + buf[at..] && (k > 0 ==> a == Midway(p, at, frameno, k, a.psize, buf))
    ensures Final(|p|, maxdata, Block(maxdata), k) ==> Fed(a, f) == (State(0, 0, 0, 0, |p|, p + buf[|p|..]), 1)
    ensures !Final(|p|, maxdata, Block(maxdata), k) ==>
              && at + Block(maxdata) <= |p|
              && Fed(a, f) == (Midway(p, at + Block(maxdata), frameno, k + 1, a.psize, buf), 0)
  {
    hide FragmentAt, Piece, Final, HasTime, IsLast, PortOf, FrameNo, FragNo, OffsetOf, Kind, Word, Block, Fed, Stored,
         OffsetField;
    FragmentFields(f, k, p, maxdata, port, frameno);
    PieceAt(p, maxdata, Block(maxdata), k, at);
    OffsetRead(|p|, at, k, Block(maxdata));
    FedCases(a, f);
    StoredAt(Target(a, f), f, p, at, Piece(p, maxdata, Block(maxdata), k), buf);
    assert p[..|p|] == p;
  }

  lemma StoredAt(a: State, f: Mbx, p: seq<byte>, at: nat, piece: seq<byte>, buf: seq<byte>)
    requires Ready(a) && Sane(f) && at + |piece| <= |p| <= a.psize <= |buf| && |p| <= a.framesize
    requires a.offset == at && a.fragno < 0xff && p[at..at + |piece|] == piece && a.buf == p[..at] + buf[at..]
    requires Word(f, LENGTH) == 4 + |piece| && f[DATA..DATA + |piece|] == piece
    ensures Stored(a, f)
      == a.(fragno := a.fragno + 1, offset := at + |piece|, buf := p[..at + |piece|] + buf[at + |piece|..])
  {
    hide Word, Patch;
    PatchAt(p, at, piece, buf);
  }

  lemma PatchAt(p: seq<byte>, at: nat, piece: seq<byte>, buf: seq<byte>)
    requires at + |piece| <= |p| <= |buf| && p[at..at + |piece|] == piece
    ensures Patch(p[..at] + buf[at..], at, piece) == p[..at + |piece|] + buf[at + |piece|..]
  {
  }

  function Zeros(n: nat): (r: seq<int>)
    ensures |r| == n && forall k :: 0 <= k < n ==> r[k] == 0
  {
    seq(n, _ => 0)
  }

  lemma FedAllStep(a: State, frames: seq<Mbx>, k: nat)
    requires (forall f :: f in frames ==> Sane(f)) && k < |frames| && Ready(a)
    ensures var (b, code) := Fed(a, frames[k]); var (c, codes) := FedAll(b, frames[k + 1..]);
            FedAll(a, frames[k..]) == (c, [code] + codes) && (k + 1 == |frames| ==> c == b && codes == [])
  {
    hide Fed;
    assert frames[k..][0] == frames[k] && frames[k..][1..] == frames[k + 1..];
  }

  lemma {:induction false} FedRest(a: State, frames: seq<Mbx>, k: nat, at: nat, p: seq<byte>, mbxl: nat, port: byte,
                                   frameno: nat, buf: seq<byte>)
    requires 42 <= mbxl <= MAX_MBX && AllOf(frames, p, mbxl, port, frameno) && k < |frames| && Ready(a)
    requires forall f :: f in frames ==> Sane(f)
    requires at == k * Block(MaxData(mbxl)) <= |p| <= MAX_PAYLOAD && |p| <= a.psize <= |buf|
    requires a.buf == p[..at] + buf[at..] && (k > 0 ==> a == Midway(p, at, frameno, k, a.psize, buf))
    ensures FedAll(a, frames[k..]) == (State(0, 0, 0, 0, |p|, p + buf[|p|..]), Zeros(|frames| - k - 1) + [1])
    decreases |frames| - k
  {
    hide Fed, FedAll, FragmentAt, Final, Piece, Count, Block;
    var maxdata := MaxData(mbxl);
    var block := Block(maxdata);
    assert FragmentAt(frames[k], k, p, maxdata, port, frameno);
    FinalIsLast(|p|, maxdata, block, k);
    FedAt(a, frames[k], k, at, p, maxdata, port, frameno, buf);
    FedAllStep(a, frames, k);
    if k + 1 == |frames| {
      assert Fed(a, frames[k]).1 == 1 && [1] + [] == Zeros(0) + [1];
    } else {
      NextOffset(k, at, block);
      FedRest(Fed(a, frames[k]).0, frames, k + 1, at + block, p, mbxl, port, frameno, buf);
      assert [0] + (Zeros(|frames| - k - 2) + [1]) == Zeros(|frames| - k - 1) + [1];
    }
  }

  lemma NextOffset(k: nat, at: nat, block: nat)
    requires at == k * block
    ensures (k + 1) * block == at + block
  {
  }

  /** The assembled part stays inside the frame and the buffer. */
  predicate Bounded(a: State) {
    Ready(a) && a.offset <= a.framesize && a.offset <= a.psize
  }

  /** Storing a fragment writes inside the frame and the buffer only. */
  lemma StoredInside(a: State, f: Mbx)
    requires Bounded(a) && Sane(f)
    ensures var b := Stored(a, f);
            && Bounded(b) && b.psize == a.psize && b.framesize == a.framesize && |b.buf| == |a.buf|
            && forall k :: 0 <= k < |a.buf| && b.buf[k] != a.buf[k] ==> k < a.psize && k < a.framesize
  {
  }

  lemma FedBounded(a: State, f: Mbx)
    requires Ready(a) && Sane(f) && Kind(f) == MBXT_EOE && !HasTime(Info1Of(f))
    requires Bounded(a) || FragNo(Info2Of(f)) == 0
    ensures var (b, code) := Fed(a, f); Bounded(b) && b.psize <= a.psize && (code == 1 ==> b.psize <= MAX_PAYLOAD)
  {
    hide HasTime, IsLast, FrameNo, FragNo, Kind, DataSize, Fed, Stored;
    FedCases(a, f);
    StoredInside(Target(a, f), f);
  }

  lemma {:induction false} FedAllBounded(a: State, frames: seq<Mbx>)
    requires Ready(a) && frames != []
    requires forall f :: f in frames ==> Sane(f) && Kind(f) == MBXT_EOE && !HasTime(Info1Of(f))
    requires Bounded(a) || FragNo(Info2Of(frames[0])) == 0
    ensures var (b, codes) := FedAll(a, frames);
            |codes| == |frames| && b.psize <= a.psize && (codes[|codes| - 1] == 1 ==> b.psize <= MAX_PAYLOAD)
    decreases |frames|
  {
    hide Fed, HasTime, FragNo, Kind;
    FedBounded(a, frames[0]);
    if |frames| > 1 {
      FedAllBounded(Fed(a, frames[0]).0, frames[1..]);
    } else {
      assert frames[1..] == [];
    }
  }

  /** The frame is returned: code 0 for all fragments but the last, then 1. */
  predicate Returned(a: State, frames: seq<Mbx>, p: seq<byte>)
    requires forall f :: f in frames ==> Sane(f)
  {
    var (b, codes) := FedAll(a, frames);
    && |codes| == |frames| > 0 && b.psize == |p| <= |b.buf| && b.buf[..|p|] == p
    && codes == Zeros(|frames| - 1) + [1]
  }

  /** Main result.  Whatever the assembler was doing, the fragments of one frame bring
      it back in step and give the payload, if and only if the payload is at most 2016
      bytes and fits the buffer. */
  lemma Resynchronises(a: State, frames: seq<Mbx>, p: seq<byte>, mbxl: nat, port: byte, frameno: nat)
    requires 42 <= mbxl <= MAX_MBX && AllOf(frames, p, mbxl, port, frameno) && Ready(a)
    ensures forall f :: f in frames ==> Sane(f)
    ensures Returned(a, frames, p) <==> |p| <= MAX_PAYLOAD && |p| <= a.psize
  {
    hide AllOf, FedAll, HasTime, FragNo, Kind, Word, Zeros;
    Headers(frames, p, mbxl, port, frameno);
    FedAllBounded(a, frames);
    if |p| <= MAX_PAYLOAD && |p| <= a.psize {
      assert p[..0] + a.buf[0..] == a.buf && frames[0..] == frames;
      FedRest(a, frames, 0, 0, p, mbxl, port, frameno, a.buf);
    }
  }

  lemma Headers(frames: seq<Mbx>, p: seq<byte>, mbxl: nat, port: byte, frameno: nat)
    requires 42 <= mbxl <= MAX_MBX && AllOf(frames, p, mbxl, port, frameno)
    ensures forall f :: f in frames ==> Sane(f) && Kind(f) == MBXT_EOE && !HasTime(Info1Of(f))
    ensures frames != [] && FragNo(Info2Of(frames[0])) == 0
  {
    hide Count, Block, FragmentAt, HasTime, FragNo, Kind, Sane;
    forall k | 0 <= k < |frames|
      ensures Sane(frames[k]) && Kind(frames[k]) == MBXT_EOE && !HasTime(Info1Of(frames[k]))
      ensures k == 0 ==> FragNo(Info2Of(frames[k])) == 0
    {
      FragmentsFit(frames, p, mbxl, port, frameno, k);
      FragmentFields(frames[k], k, p, MaxData(mbxl), port, frameno);
    }
  }

  /** Bytes assembled once a fragment is taken. */
  function Assembled(a: State, f: Mbx): nat
    requires Sane(f) && Ready(a)
  {
    Stored(Target(a, f), f).offset
  }

  /** Any mailbox at all, well-formed or not: nothing is written beyond the frame size
      or the buffer size, the working variables stay bounded, and a frame's size is
      reported right if and only if it is not shorter than its timestamp; else it wraps in
      16 bits. */
  lemma AnyMailbox(a: State, f: Mbx)
    requires Bounded(a) && Sane(f)
    ensures var (b, code) := Fed(a, f);
            && |b.buf| == |a.buf| && b.offset <= b.framesize <= MAX_PAYLOAD
            && (code != 1 ==> Bounded(b) && b.psize == a.psize)
            && forall k :: 0 <= k < |a.buf| && b.buf[k] != a.buf[k] ==>
                 k < a.psize && k < if FragNo(Info2Of(f)) == 0 then 32 * OffsetOf(Info2Of(f)) else a.framesize
    ensures var (b, code) := Fed(a, f);
            code == 1 ==>
              && (b.psize == Assembled(a, f) - (if HasTime(Info1Of(f)) then 4 else 0)
                  <==> !(HasTime(Info1Of(f)) && Assembled(a, f) < 4))
              && (HasTime(Info1Of(f)) && Assembled(a, f) < 4 ==> b.psize == Assembled(a, f) + 0xfffc)
  {
    hide HasTime, IsLast, FrameNo, FragNo, Kind, DataSize, Fed, Stored;
    FedCases(a, f);
    StoredInside(Target(a, f), f);
  }

  /** The assembler with its working variables cleared. */
  function Idle(a: State): State {
    State(0, 0, 0, 0, a.psize, a.buf)
  }

  /** Every error, in the fields of the mailbox: another protocol leaves the assembler as
      it is; a fragment out of turn, of another frame or at another offset clears its
      working variables, so that only a first fragment is taken next. */
  lemma FragmentErrors(a: State, f: Mbx)
    requires Ready(a) && Sane(f)
    ensures var number, offset, frame := Word(f, 8) % 0x40, 32 * (Word(f, 8) / 0x40 % 0x40), Word(f, 8) / 0x1000;
            && (f[5] % 0x10 != 2 ==> Fed(a, f) == (a, -3))
            && (f[5] % 0x10 == 2 && number > 0 && a.fragno == 0 ==> Fed(a, f) == (a, -11))
            && (f[5] % 0x10 == 2 && number > 0 && a.fragno > 0 ==>
                  (a.fragno == number && a.frameno == frame && a.offset == offset) || Fed(a, f) == (Idle(a), -11))
    ensures InStep(a, f) ==> Fed(a, f).1 == if Word(f, 6) / 0x100 % 2 == 1 then 1 else 0
  {
    hide HasTime, Word, Stored;
  }

  /** A fragment that does not fit the frame or the buffer is not stored. */
  lemma TooBig(a: State, f: Mbx)
    requires Ready(a) && Sane(f) && InStep(a, f)
    requires var t, n := Target(a, f), (Word(f, 0) - 4) % 0x1_0000; t.offset + n > t.framesize || t.offset + n > t.psize
    ensures var t, b := Target(a, f), Fed(a, f).0;
            && b.buf == a.buf
            && if Word(f, 6) / 0x100 % 2 == 1 then b.fragno == b.framesize == b.offset == b.frameno == 0 else b == t
  {
    hide HasTime, Word, Fed, Finished;
    FedCases(a, f);
    FinishedIs(Target(a, f), Info1Of(f));
  }

  lemma FinishedIs(a: State, info1: word)
    ensures var b := Finished(a, info1).0;
            && b.buf == a.buf
            && if info1 / 0x100 % 2 == 1 then b.fragno == b.framesize == b.offset == b.frameno == 0 else b == a
  {
    hide HasTime;
  }

  // ----- blocking receive -----

  function Arriving(frames: seq<Mbx>): (r: seq<Outcome>)
    ensures |r| == |frames| && forall k :: 0 <= k < |frames| ==> r[k] == Answered(1, frames[k])
  {
    seq(|frames|, k requires 0 <= k < |frames| => Answered(1, frames[k]))
  }

  /** The size reported never exceeds the buffer. */
  lemma {:induction false} JoinedBounded(a: Partial, arrivals: seq<Outcome>, buffersize: nat, port: byte)
    requires SaneArrivals(arrivals) && buffersize <= |a.buf| && a.offset <= buffersize
    ensures Joined(a, arrivals, buffersize, port).1 <= buffersize
    decreases |arrivals|
  {
    if arrivals != [] && arrivals[0].Answered? && Check(a, arrivals[0].reply, buffersize, port) == 0 {
      JoinedBounded(Kept(a, arrivals[0].reply, buffersize), arrivals[1..], buffersize, port);
    }
  }

  /** Received in full: a counter, the size and the bytes. */
  predicate Got(r: (int, int, seq<byte>), p: seq<byte>) {
    r.0 > 0 && r.1 == |p| <= |r.2| && r.2[..|p|] == p
  }

  lemma {:induction false} JoinedRest(a: Partial, frames: seq<Mbx>, k: nat, p: seq<byte>, mbxl: nat, port: byte,
                                      frameno: nat, buffersize: nat, buf: seq<byte>)
    requires 42 <= mbxl <= MAX_MBX && AllOf(frames, p, mbxl, port, frameno) && k < |frames|
    requires SaneArrivals(Arriving(frames)) && |p| <= buffersize <= |buf|
    requires k * Block(MaxData(mbxl)) <= |p| && (k > 0 ==> (k - 1) * Block(MaxData(mbxl)) < 2048)
    requires a.buf == p[..k * Block(MaxData(mbxl))] + buf[k * Block(MaxData(mbxl))..]
    requires a.offset == k * Block(MaxData(mbxl))
    requires a.fragno == k && (k > 0 ==> a.frameno == frameno % 0x10)
    requires k == 0 ==> Check(a, frames[0], buffersize, port) == 0
    ensures Got(Joined(a, Arriving(frames)[k..], buffersize, port), p) <==> (|frames| - 1) * Block(MaxData(mbxl)) < 2048
    decreases |frames| - k
  {
    hide Count, Block, FragmentAt, Final, Piece, Joined, Kept, Check, IsLast, HasTime, PortOf, FrameNo, FragNo,
         OffsetOf, Kind, Word;
    var maxdata := MaxData(mbxl);
    var block := Block(maxdata);
    var at := k * block;
    assert FragmentAt(frames[k], k, p, maxdata, port, frameno);
    FinalIsLast(|p|, maxdata, block, k);
    PieceAt(p, maxdata, block, k, at);
    FragmentFields(frames[k], k, p, maxdata, port, frameno);
    BlockOffset(k, block);
    JoinedStep(a, Arriving(frames), k, buffersize, port);
    assert Arriving(frames)[k] == Answered(1, frames[k]);
    CheckAt(a, frames[k], k, |p|, block, buffersize, port);
    Monotone(k, |frames| - 1, block);
    if at < 2048 {
      Few(k, block, 2047);
      KeptAt(a, frames[k], k, at, p, maxdata, port, frameno, buffersize, buf);
      var b := Kept(a, frames[k], buffersize);
      if k + 1 < |frames| {
        JoinedRest(b, frames, k + 1, p, mbxl, port, frameno, buffersize, buf);
      }
    }
  }

  lemma Monotone(j: nat, k: nat, block: nat)
    requires j <= k
    ensures j * block <= k * block
  {
  }

  /** The check of fragment k passes exactly if its offset has not wrapped. */
  lemma CheckAt(a: Partial, f: Mbx, k: nat, n: nat, block: nat, buffersize: nat, port: byte)
    requires block >= 32 && block % 32 == 0 && (k > 0 ==> (k - 1) * block < 2048)
    requires a.fragno == k && a.offset == k * block && (k > 0 ==> a.frameno == FrameNo(Info2Of(f)))
    requires Kind(f) == MBXT_EOE && FragNo(Info2Of(f)) == k % 0x40
    requires OffsetOf(Info2Of(f)) == OffsetField(n, k * block, k) % 0x40
    requires k == 0 ==> Check(a, f, buffersize, port) == 0
    ensures Check(a, f, buffersize, port) <= 0 && (Check(a, f, buffersize, port) == 0 <==> k * block < 2048)
  {
    hide FrameNo, FragNo, OffsetOf, Kind, PortOf;
    if k > 0 {
      BlockOffset(k, block);
      Few(k - 1, block, 2047);
      if k * block < 2048 {
        Few(k, block, 2047);
      }
    }
  }

  lemma KeptAt(a: Partial, f: Mbx, k: nat, at: nat, p: seq<byte>, maxdata: nat, port: byte, frameno: nat,
               buffersize: nat, buf: seq<byte>)
    requires 32 <= maxdata && FragmentAt(f, k, p, maxdata, port, frameno) && Word(f, LENGTH) <= MBX_BUF - 6
    requires |p| <= buffersize <= |buf| && at == k * Block(maxdata) <= |p| && k < 0x40
    requires a.buf == p[..at] + buf[at..] && a.offset == at && a.fragno == k && (k > 0 ==> a.frameno == frameno % 0x10)
    ensures 4 <= Word(f, LENGTH)
    ensures var b := Kept(a, f, buffersize);
            var end := if Final(|p|, maxdata, Block(maxdata), k) then |p| else at + Block(maxdata);
            end <= |p| && b == Partial(k + 1, frameno % 0x10, end, p[..end] + buf[end..])
  {
    hide FragmentAt, Piece, Final, FrameNo, FragNo, OffsetOf, Word, Block, Patch, Kept;
    FragmentFields(f, k, p, maxdata, port, frameno);
    PieceAt(p, maxdata, Block(maxdata), k, at);
    KeptPiece(a, f, p, at, Piece(p, maxdata, Block(maxdata), k), buffersize, buf);
    assert p[..|p|] == p;
  }

  lemma KeptPiece(a: Partial, f: Mbx, p: seq<byte>, at: nat, piece: seq<byte>, buffersize: nat, buf: seq<byte>)
    requires at + |piece| <= |p| <= buffersize <= |buf| && p[at..at + |piece|] == piece
    requires Word(f, LENGTH) == 4 + |piece| && DATA + |piece| <= MBX_BUF && f[DATA..DATA + |piece|] == piece
    requires a.buf == p[..at] + buf[at..] && a.offset == at && a.fragno < 0xff
    ensures Word(f, LENGTH) <= MBX_BUF - 6
    ensures Kept(a, f, buffersize) == Partial(a.fragno + 1, if a.fragno == 0 then FrameNo(Info2Of(f)) else a.frameno,
                                              at + |piece|, p[..at + |piece|] + buf[at + |piece|..])
  {
    hide FrameNo, Word, Patch;
    PatchAt(p, at, piece, buf);
  }

  /** Main result.  The blocking receive gets back what was sent, if and only if the
      port number has four bits, the buffer holds the payload and the announced size
      (whole blocks), and no fragment starts at or beyond byte 2048. */
  lemma ReceiveReturnsSend(frames: seq<Mbx>, p: seq<byte>, mbxl: nat, port: byte, frameno: nat, buffersize: nat,
                           buf: seq<byte>)
    requires 42 <= mbxl <= MAX_MBX && AllOf(frames, p, mbxl, port, frameno) && buffersize <= |buf|
    ensures SaneArrivals(Arriving(frames))
    ensures Got(Joined(Partial(0, 0xff, 0, buf), Arriving(frames), buffersize, port), p) <==>
            && port < 0x10 && |p| <= buffersize && 32 * ((|p| + 31) / 32 % 0x40) <= buffersize
            && (|frames| - 1) * Block(MaxData(mbxl)) < 2048
  {
    hide Count, Block, FragmentAt, Joined, Check;
    forall k | 0 <= k < |frames|
      ensures 4 <= Word(frames[k], LENGTH) <= MBX_BUF - 6
    {
      FragmentsFit(frames, p, mbxl, port, frameno, k);
    }
    var a := Partial(0, 0xff, 0, buf);
    JoinedBounded(a, Arriving(frames), buffersize, port);
    FirstCheck(frames, p, mbxl, port, frameno, buffersize, buf);
    assert Arriving(frames)[0..] == Arriving(frames);
    JoinedStep(a, Arriving(frames), 0, buffersize, port);
    if Check(a, frames[0], buffersize, port) == 0 && |p| <= buffersize {
      assert p[..0] + buf[0..] == buf;
      JoinedRest(a, frames, 0, p, mbxl, port, frameno, buffersize, buf);
    }
  }

  lemma FirstCheck(frames: seq<Mbx>, p: seq<byte>, mbxl: nat, port: byte, frameno: nat, buffersize: nat, buf: seq<byte>)
    requires 42 <= mbxl <= MAX_MBX && AllOf(frames, p, mbxl, port, frameno)
    ensures var error := Check(Partial(0, 0xff, 0, buf), frames[0], buffersize, port);
            error <= 0 && (error == 0 <==> port < 0x10 && 32 * ((|p| + 31) / 32 % 0x40) <= buffersize)
  {
    hide FrameNo, FragNo, OffsetOf, Kind, PortOf, FragmentAt;
    assert FragmentAt(frames[0], 0, p, MaxData(mbxl), port, frameno);
    FragmentFields(frames[0], 0, p, MaxData(mbxl), port, frameno);
  }

  // ----- any arrivals -----

  /** The working variables after the first n arrivals. */
  function After(a: Partial, arrivals: seq<Outcome>, n: nat, buffersize: nat): (b: Partial)
    requires SaneArrivals(arrivals) && buffersize <= |a.buf| && n <= |arrivals|
    ensures |b.buf| == |a.buf|
  {
    if n == 0 then a
    else
      var b, o := After(a, arrivals, n - 1, buffersize), arrivals[n - 1];
      if o.Answered? then Kept(b, o.reply, buffersize) else b
  }

  /** The fragment continues the frame, or starts one for this port that fits. */
  predicate Expected(a: Partial, f: Mbx, buffersize: nat, port: byte) {
    var number, offset, frame := Word(f, 8) % 0x40, 32 * (Word(f, 8) / 0x40 % 0x40), Word(f, 8) / 0x1000;
    && f[5] % 0x10 == 2 && (a.fragno == number || number == 0)
    && if a.fragno == 0 then offset <= buffersize && Word(f, 6) / 0x10 % 0x10 == port
       else a.frameno == frame && a.offset == offset
  }

  lemma CheckMeans(a: Partial, f: Mbx, buffersize: nat, port: byte)
    ensures Check(a, f, buffersize, port)
      == if Expected(a, f, buffersize, port) then 0 else if f[5] % 0x10 == 2 then -11 else -3
  {
    hide Word;
  }

  /** A fragment is kept behind those before it if it fits the buffer; if not, all stays. */
  lemma KeptMeans(a: Partial, f: Mbx, buffersize: nat)
    requires 4 <= Word(f, LENGTH) <= MBX_BUF - 6 && buffersize <= |a.buf|
    ensures var n, b := Word(f, 0) - 4, Kept(a, f, buffersize);
            && b.frameno == (if a.fragno == 0 then Word(f, 8) / 0x1000 else a.frameno)
            && if a.offset + n <= buffersize
               then && b.offset == a.offset + n && b.fragno == (a.fragno + 1) % 0x100
                    && b.buf[..b.offset] == a.buf[..a.offset] + f[10..10 + n] && b.buf[b.offset..] == a.buf[b.offset..]
               else b == a.(frameno := b.frameno)
  {
    hide Word, Patch;
    var n := Word(f, 0) - 4;
    if a.offset + n <= buffersize {
      PatchIs(a.buf, a.offset, f[10..10 + n]);
    }
  }

  lemma PatchIs(s: seq<byte>, at: nat, data: seq<byte>)
    requires at + |data| <= |s|
    ensures var t := Patch(s, at, data); t[..at + |data|] == s[..at] + data && t[at + |data|..] == s[at + |data|..]
  {
  }

  /** The first n arrivals are expected fragments, none of them the last. */
  ghost predicate Continuing(a: Partial, arrivals: seq<Outcome>, n: nat, buffersize: nat, port: byte)
    requires SaneArrivals(arrivals) && buffersize <= |a.buf| && n <= |arrivals|
  {
    forall k :: 0 <= k < n ==>
      && arrivals[k].Answered? && Word(arrivals[k].reply, 6) / 0x100 % 2 == 0
      && Expected(After(a, arrivals, k, buffersize), arrivals[k].reply, buffersize, port)
  }

  /** Main result.  Whatever arrives, the first arrival that is not an expected fragment,
      or is the last one, ends the blocking receive: with an error the size stays, else it
      is that of all fragments, less a time stamp. */
  lemma RecvEnds(a: Partial, arrivals: seq<Outcome>, n: nat, buffersize: nat, port: byte)
    requires SaneArrivals(arrivals) && buffersize <= |a.buf| && n <= |arrivals|
    requires Continuing(a, arrivals, n, buffersize, port)
    ensures var r, b := Joined(a, arrivals, buffersize, port), After(a, arrivals, n, buffersize);
            if n == |arrivals| then r == (0, buffersize, b.buf)
            else if !arrivals[n].Answered? then r == (Wkc(arrivals[n]), buffersize, b.buf)
            else
              var f, c := arrivals[n].reply, After(a, arrivals, n + 1, buffersize);
              if !Expected(b, f, buffersize, port) then
                r == (if f[5] % 0x10 == 2 then -11 else -3, buffersize, b.buf)
              else Word(f, 6) / 0x100 % 2 == 1 ==>
                r == (Wkc(arrivals[n]), c.offset - (if Word(f, 6) / 0x200 % 2 == 1 then 4 else 0), c.buf)
  {
    hide Joined, Check, Kept, Expected, Word;
    assert arrivals[0..] == arrivals;
    JoinedAfter(a, arrivals, n, buffersize, port);
    JoinedStep(After(a, arrivals, n, buffersize), arrivals, n, buffersize, port);
    if n < |arrivals| && arrivals[n].Answered? {
      CheckMeans(After(a, arrivals, n, buffersize), arrivals[n].reply, buffersize, port);
    }
  }

  lemma {:induction false} JoinedAfter(a: Partial, arrivals: seq<Outcome>, n: nat, buffersize: nat, port: byte)
    requires SaneArrivals(arrivals) && buffersize <= |a.buf| && n <= |arrivals|
    requires Continuing(a, arrivals, n, buffersize, port)
    ensures Joined(a, arrivals, buffersize, port)
      == Joined(After(a, arrivals, n, buffersize), arrivals[n..], buffersize, port)
    decreases n
  {
    hide Joined, Check, Kept, Expected, Word;
    if n == 0 {
      assert arrivals[0..] == arrivals;
    } else {
      var b, o := After(a, arrivals, n - 1, buffersize), arrivals[n - 1];
      JoinedAfter(a, arrivals, n - 1, buffersize, port);
      JoinedStep(b, arrivals, n - 1, buffersize, port);
      CheckMeans(b, o.reply, buffersize, port);
    }
  }
}
