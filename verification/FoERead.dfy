/** Reading a file over the mailbox, and reading back what was written. */
module FoERead {
  import opened Bytes
  import opened Chunks
  import opened Mailbox
  import opened FoE

  /** The reader relies on length fields that cover the header and stay in the mailbox. */
  predicate Sane(f: Mbx) {
    6 <= Word(f, LENGTH) <= MBX_BUF - 6
  }

  ghost predicate SaneAnswers(receiving: nat -> Outcome) {
    forall k :: receiving(k).Answered? ==> Sane(receiving(k).reply)
  }

  function DataOf(f: Mbx): (d: seq<byte>)
    requires Sane(f)
    ensures |d| == Word(f, LENGTH) - 6
  {
    f[DATA..DATA + Word(f, LENGTH) - 6]
  }

  /** Error code of packet number k + 1 when `have` bytes are there, or 0. */
  function Check(f: Mbx, k: nat, have: nat, buffersize: nat): int
    requires Sane(f)
  {
    if Kind(f) != MBXT_FOE then -PACKET_ERROR
    else if f[OPCODE] == FOE_DATA then
      if Long(f, NUMBER) == k + 1 && have + |DataOf(f)| <= buffersize then 0 else -FOE_BUF2SMALL
    else if f[OPCODE] == FOE_ERROR_OP then -FOE_ERROR
    else -PACKET_ERROR
  }

  /** Counter or error code, size, file contents and number of packets acknowledged, from
      packet number k + 1 on. */
  ghost function Reading(receiving: nat -> Outcome, sending: nat -> int, k: nat, file: seq<byte>, size: nat,
                         buffersize: nat, maxdata: nat): (r: (int, nat, seq<byte>, nat))
    requires SaneAnswers(receiving) && |file| <= buffersize && maxdata > 0
    ensures |file| <= |r.2| <= buffersize && r.2[..|file|] == file
    decreases buffersize - |file|
  {
    var o := receiving(k);
    if !o.Answered? then (o.failed, size, file, k)
    else if Check(o.reply, k, |file|, buffersize) != 0 then (Check(o.reply, k, |file|, buffersize), |file|, file, k)
    else
      var file' := file + DataOf(o.reply);
      if sending(k + 1) > 0 && |DataOf(o.reply)| == maxdata then
        Reading(receiving, sending, k + 1, file', |file'|, buffersize, maxdata)
      else (sending(k + 1), |file'|, file', k + 1)
  }

  /** The whole transfer; mailbox write number 0 is the request. */
  ghost function Read(receiving: nat -> Outcome, sending: nat -> int, buffersize: nat, mbxl: nat)
    : (int, nat, seq<byte>, nat)
    requires SaneAnswers(receiving) && mbxl >= 13
  {
    if sending(0) <= 0 then (sending(0), buffersize, [], 0)
    else Reading(receiving, sending, 0, [], buffersize, buffersize, MaxData(mbxl))
  }

  /** Reads into `p`; also returns the packet numbers it acknowledges. */
  method FOEread(p: array<byte>, psize: nat, mbxl: nat, receiving: nat -> Outcome, sending: nat -> int)
    returns (wkc: int, size: nat, acked: seq<nat>)
    requires 13 <= mbxl <= MAX_MBX && SaneAnswers(receiving) && psize <= p.Length
    modifies p
    ensures var r := Read(receiving, sending, psize, mbxl);
            (wkc, size) == (r.0, r.1) && p[..] == r.2 + old(p[|r.2|..]) && |acked| == r.3
    ensures forall k :: 0 <= k < |acked| ==> acked[k] == k + 1
  {
    hide Check, Kind, Sane, DataOf, Reading;
    ghost var r := Read(receiving, sending, psize, mbxl);
    ghost var before := p[..];
    var maxdata := mbxl - 12;
    var dataread: nat, prevpacket: nat := 0, 0;
    size, acked := psize, [];
    wkc := sending(0);
    var worktodo := wkc > 0;
    assert p[..0] == [];
    while worktodo
      invariant dataread <= psize && |acked| == prevpacket
      invariant worktodo ==> r == Reading(receiving, sending, prevpacket, p[..dataread], size, psize, maxdata)
      invariant !worktodo ==> r == (wkc, size, p[..dataread], prevpacket)
      invariant p[dataread..] == before[dataread..]
      invariant forall k :: 0 <= k < |acked| ==> acked[k] == k + 1
      decreases worktodo, psize - dataread
    {
      worktodo := false;
      var o := receiving(prevpacket);
      ReadingStep(receiving, sending, prevpacket, p[..dataread], size, psize, maxdata);
      wkc := Wkc(o);
      if o.Answered? {
        assert Sane(o.reply);
        var error := CheckPacket(o.reply, prevpacket, dataread, psize);
        if error == 0 {
          dataread := Append(p, dataread, DataOf(o.reply));
          worktodo := |DataOf(o.reply)| == maxdata;
          prevpacket := prevpacket + 1;
          acked := acked + [prevpacket];
          wkc := sending(prevpacket);
          if wkc <= 0 {
            worktodo := false;
          }
        } else {
          wkc := error;
        }
        size := dataread;
      }
    }
    assert p[..] == p[..dataread] + p[dataread..];
  }

  lemma ReadingStep(receiving: nat -> Outcome, sending: nat -> int, k: nat, file: seq<byte>, size: nat,
                    buffersize: nat, maxdata: nat)
    requires SaneAnswers(receiving) && |file| <= buffersize && maxdata > 0
    ensures var o := receiving(k);
            && (o.Answered? ==> Sane(o.reply))
            && (o.Answered? && Check(o.reply, k, |file|, buffersize) == 0 ==> |file| + |DataOf(o.reply)| <= buffersize)
            && Reading(receiving, sending, k, file, size, buffersize, maxdata) ==
               if !o.Answered? then (o.failed, size, file, k)
               else if Check(o.reply, k, |file|, buffersize) != 0 then
                 (Check(o.reply, k, |file|, buffersize), |file|, file, k)
               else if sending(k + 1) > 0 && |DataOf(o.reply)| == maxdata then
                 Reading(receiving, sending, k + 1, file + DataOf(o.reply), |file + DataOf(o.reply)|, buffersize,
                         maxdata)
               else (sending(k + 1), |file + DataOf(o.reply)|, file + DataOf(o.reply), k + 1)
  {
  }

  method CheckPacket(f: Mbx, k: nat, have: nat, buffersize: nat) returns (error: int)
    requires Sane(f)
    ensures error == Check(f, k, have, buffersize)
  {
    error := 0;
    if Kind(f) == MBXT_FOE {
      if f[OPCODE] == FOE_DATA {
        if !(Long(f, NUMBER) == k + 1 && have + |DataOf(f)| <= buffersize) {
          error := -FOE_BUF2SMALL;
        }
      } else if f[OPCODE] == FOE_ERROR_OP {
        error := -FOE_ERROR;
      } else {
        error := -PACKET_ERROR;
      }
    } else {
      error := -PACKET_ERROR;
    }
  }

  // ----- any answers -----

  /** Data packet number k + 1, in the fields of the mailbox. */
  predicate IsData(o: Outcome, k: nat) {
    o.Answered? && o.reply[5] % 0x10 == 4 && o.reply[6] == 3 && Long(o.reply, 8) == k + 1
  }

  /** The data of the first n answers. */
  ghost function DataTo(receiving: nat -> Outcome, n: nat): seq<byte>
    requires SaneAnswers(receiving)
  {
    if n == 0 then []
    else
      var o := receiving(n - 1);
      DataTo(receiving, n - 1) + if o.Answered? then o.reply[12..6 + Word(o.reply, 0)] else []
  }

  /** Packets k .. n - 1 came, were full, fit the buffer, and were acknowledged. */
  ghost predicate FullTo(receiving: nat -> Outcome, sending: nat -> int, k: nat, n: nat, buffersize: nat, mbxl: nat)
    requires SaneAnswers(receiving)
  {
    forall j: nat :: k <= j < n ==>
      && IsData(receiving(j), j) && Word(receiving(j).reply, 0) == mbxl - 6
      && |DataTo(receiving, j + 1)| <= buffersize && sending(j + 1) > 0
  }

  /** What the answer after them makes of the transfer. */
  ghost predicate EndsWith(r: (int, nat, seq<byte>, nat), receiving: nat -> Outcome, sending: nat -> int, n: nat,
                           size: nat, buffersize: nat, mbxl: nat)
    requires SaneAnswers(receiving)
  {
    var o, had, have := receiving(n), DataTo(receiving, n), DataTo(receiving, n + 1);
    if !o.Answered? then r == (Wkc(o), size, had, n)
    else if !(IsData(o, n) && |have| <= buffersize) then
      r == (if o.reply[5] % 0x10 != 4 then -3 else if o.reply[6] == 3 then -6 else if o.reply[6] == 5 then -5 else -3,
            |had|, had, n)
    else
      && r == (sending(n + 1), |have|, have, n + 1)
      && !(sending(n + 1) > 0 && Word(o.reply, 0) == mbxl - 6)
  }

  lemma {:induction false} ReadingMeans(receiving: nat -> Outcome, sending: nat -> int, k: nat, size: nat,
                                        buffersize: nat, mbxl: nat) returns (n: nat)
    requires SaneAnswers(receiving) && mbxl >= 13 && |DataTo(receiving, k)| <= buffersize
    requires k > 0 ==> size == |DataTo(receiving, k)|
    ensures k <= n && FullTo(receiving, sending, k, n, buffersize, mbxl)
    ensures EndsWith(Reading(receiving, sending, k, DataTo(receiving, k), size, buffersize, MaxData(mbxl)),
                     receiving, sending, n, if n == 0 then size else |DataTo(receiving, n)|, buffersize, mbxl)
    decreases buffersize - |DataTo(receiving, k)|
  {
    hide Reading, Long, Word;
    n := k;
    var o, had := receiving(k), DataTo(receiving, k);
    ReadingStep(receiving, sending, k, had, size, buffersize, MaxData(mbxl));
    if o.Answered? && Check(o.reply, k, |had|, buffersize) == 0 {
      assert DataTo(receiving, k + 1) == had + DataOf(o.reply);
      if sending(k + 1) > 0 && |DataOf(o.reply)| == MaxData(mbxl) {
        n := ReadingMeans(receiving, sending, k + 1, |DataTo(receiving, k + 1)|, buffersize, mbxl);
      }
    }
  }

  /** Main result.  Whatever is answered, the buffer ends up with the data of the packets
      that came in order; the first answer that is none, does not fit, is short or could
      not be acknowledged ends the transfer and gives result and size. */
  lemma ReadMeans(receiving: nat -> Outcome, sending: nat -> int, buffersize: nat, mbxl: nat) returns (n: nat)
    requires SaneAnswers(receiving) && mbxl >= 13
    ensures var r := Read(receiving, sending, buffersize, mbxl);
            if sending(0) <= 0 then r == (sending(0), buffersize, [], 0)
            else
              && FullTo(receiving, sending, 0, n, buffersize, mbxl)
              && EndsWith(r, receiving, sending, n, if n == 0 then buffersize else |DataTo(receiving, n)|,
                          buffersize, mbxl)
  {
    hide Reading, FullTo, EndsWith;
    n := 0;
    if sending(0) > 0 {
      n := ReadingMeans(receiving, sending, 0, buffersize, buffersize, mbxl);
    }
  }

  // ----- round trip -----

  /** The packets of a whole file. */
  ghost predicate AllOf(frames: seq<Mbx>, p: seq<byte>, mbxl: nat)
    requires mbxl >= 13
  {
    Packets(frames, p, MaxData(mbxl)) && |frames| == Count(|p|, MaxData(mbxl) - 1, MaxData(mbxl))
  }

  /** Every packet fits the mailbox, packets are numbered from 1, and exactly the last
      is shorter than a full one. */
  lemma PacketsFit(frames: seq<Mbx>, p: seq<byte>, mbxl: nat, k: nat)
    requires 13 <= mbxl <= MAX_MBX && AllOf(frames, p, mbxl) && k < |frames|
    ensures Sane(frames[k]) && Word(frames[k], LENGTH) <= mbxl - 6 && Long(frames[k], NUMBER) == k + 1
    ensures |DataOf(frames[k])| < MaxData(mbxl) <==> k + 1 == |frames|
  {
    hide Count, Word;
    assert PacketAt(frames[k], k, p, MaxData(mbxl));
    FinalIsLast(|p|, MaxData(mbxl) - 1, MaxData(mbxl), k);
  }

  ghost predicate Delivers(receiving: nat -> Outcome, frames: seq<Mbx>) {
    forall k :: 0 <= k < |frames| ==> receiving(k) == Answered(1, frames[k])
  }

  ghost predicate AcksSent(sending: nat -> int) {
    forall k :: sending(k) > 0
  }

  predicate Got(r: (int, nat, seq<byte>, nat), p: seq<byte>) {
    r.0 > 0 && r.1 == |p| && r.2 == p
  }

  lemma {:induction false} ReadRest(receiving: nat -> Outcome, sending: nat -> int, frames: seq<Mbx>, k: nat, at: nat,
                                    p: seq<byte>, size: nat, buffersize: nat, mbxl: nat)
    requires 13 <= mbxl <= MAX_MBX && AllOf(frames, p, mbxl) && k < |frames| && SaneAnswers(receiving)
    requires Delivers(receiving, frames) && AcksSent(sending)
    requires at == Offset(k, MaxData(mbxl)) <= |p| && at <= buffersize
    ensures Got(Reading(receiving, sending, k, p[..at], size, buffersize, MaxData(mbxl)), p) <==> |p| <= buffersize
    decreases |frames| - k
  {
    hide Reading, Count, Packet, Kind, Word, DataOf, Offset;
    var maxdata := MaxData(mbxl);
    ReadingStep(receiving, sending, k, p[..at], size, buffersize, maxdata);
    NextPiece(p, maxdata, k, at);
    var end := if |p| - at < maxdata then |p| else at + maxdata;
    PacketRead(frames, p, mbxl, k, at, end);
    assert p[..at] + p[at..end] == p[..end];
    if end > buffersize {
    } else if k + 1 < |frames| {
      ReadRest(receiving, sending, frames, k + 1, end, p, end, buffersize, mbxl);
    } else {
      assert p[..end] == p;
    }
  }

  lemma PacketRead(frames: seq<Mbx>, p: seq<byte>, mbxl: nat, k: nat, at: nat, end: nat)
    requires 13 <= mbxl <= MAX_MBX && AllOf(frames, p, mbxl) && k < |frames|
    requires at == Offset(k, MaxData(mbxl)) <= |p|
    requires end == if |p| - at < MaxData(mbxl) then |p| else at + MaxData(mbxl)
    ensures Sane(frames[k]) && DataOf(frames[k]) == p[at..end]
    ensures forall buffersize :: Check(frames[k], k, at, buffersize) == if end <= buffersize then 0 else -FOE_BUF2SMALL
  {
    hide Count;
    assert PacketAt(frames[k], k, p, MaxData(mbxl));
    PieceAt(p, MaxData(mbxl) - 1, MaxData(mbxl), k, at);
    assert Piece(p, MaxData(mbxl) - 1, MaxData(mbxl), k) == p[at..end];
  }

  /** Main result.  With equal mailboxes, reading the packets of a written file returns
      the file, for every size, if and only if it fits the buffer. */
  lemma ReadReturnsWrite(receiving: nat -> Outcome, sending: nat -> int, frames: seq<Mbx>, p: seq<byte>,
                         buffersize: nat, mbxl: nat)
    requires 13 <= mbxl <= MAX_MBX && AllOf(frames, p, mbxl) && SaneAnswers(receiving)
    requires Delivers(receiving, frames) && AcksSent(sending)
    ensures Got(Read(receiving, sending, buffersize, mbxl), p) <==> |p| <= buffersize
  {
    hide Reading, Packets;
    assert p[..0] == [];
    ReadRest(receiving, sending, frames, 0, 0, p, buffersize, buffersize, mbxl);
  }
}
