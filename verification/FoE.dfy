/** File transfer over the mailbox: numbered packets, the first short one ends the file. */
module FoE {
  import opened Bytes
  import opened Chunks
  import opened Mailbox

  const MBXT_FOE: byte := 4
  const OPCODE: nat := 6
  const NUMBER: nat := 8                  // password, packet number or error code
  const DATA: nat := 12
  const FOE_DATA: byte := 3
  const FOE_ACK: byte := 4
  const FOE_ERROR_OP: byte := 5
  const FOE_BUSY: byte := 6
  const NOT_FOUND: nat := 0x8001

  /** Data of a full packet in a mailbox of mbxl bytes. */
  function MaxData(mbxl: nat): nat
    requires mbxl >= 13
  {
    mbxl - 12
  }

  predicate Packet(f: Mbx, number: nat, data: seq<byte>) {
    && DATA + |data| <= MBX_BUF && Kind(f) == MBXT_FOE && f[OPCODE] == FOE_DATA
    && Word(f, LENGTH) == 6 + |data| && Long(f, NUMBER) == number && f[DATA..DATA + |data|] == data
  }

  /** The k-th packet has number k + 1 and is full unless it is the last. */
  predicate PacketAt(f: Mbx, k: nat, p: seq<byte>, maxdata: nat)
    requires maxdata > 0
  {
    k * maxdata <= |p| && Packet(f, k + 1, Piece(p, maxdata - 1, maxdata, k))
  }

  predicate Packets(frames: seq<Mbx>, p: seq<byte>, maxdata: nat)
    requires maxdata > 0
  {
    forall k :: 0 <= k < |frames| ==> PacketAt(frames[k], k, p, maxdata)
  }

  lemma AddPacket(frames: seq<Mbx>, f: Mbx, p: seq<byte>, maxdata: nat)
    requires maxdata > 0 && Packets(frames, p, maxdata) && PacketAt(f, |frames|, p, maxdata)
    ensures Packets(frames + [f], p, maxdata)
  {
    hide PacketAt;
  }

  lemma NoPackets(p: seq<byte>, maxdata: nat)
    requires maxdata > 0
    ensures Packets([], p, maxdata)
  {
  }

  // ----- writing -----

  predicate IsAck(o: Outcome, number: nat) {
    o.Answered? && Kind(o.reply) == MBXT_FOE && o.reply[OPCODE] == FOE_ACK && Long(o.reply, NUMBER) == number
  }

  predicate IsBusy(o: Outcome) {
    o.Answered? && Kind(o.reply) == MBXT_FOE && o.reply[OPCODE] == FOE_BUSY
  }

  /** The request and the first n packets were sent, each after the acknowledgement of
      the one before. */
  ghost predicate Going(receiving: nat -> Outcome, sending: nat -> int, n: nat) {
    sending(0) > 0 && forall k :: 0 <= k < n ==> IsAck(receiving(k), k) && sending(k + 1) > 0
  }

  /** Everything was sent and acknowledged. */
  ghost predicate Written(receiving: nat -> Outcome, sending: nat -> int, count: nat) {
    Going(receiving, sending, count) && IsAck(receiving(count), count)
  }

  /** The slave was busy, and the transfer ended there. */
  ghost predicate EndedBusy(receiving: nat -> Outcome, sending: nat -> int, count: nat) {
    exists n :: 0 <= n <= count && Going(receiving, sending, n) && IsBusy(receiving(n))
  }

  /** The result if an answer is neither the acknowledgement due nor busy. */
  function WriteError(f: Mbx): Failure {
    if Kind(f) != MBXT_FOE then -PACKET_ERROR
    else if f[OPCODE] == FOE_ACK then -FOE_PACKETNUMBER
    else if f[OPCODE] == FOE_ERROR_OP then if Long(f, NUMBER) == NOT_FOUND then -FOE_FILE_NOTFOUND else -FOE_ERROR
    else -PACKET_ERROR
  }

  /** How a transfer of `count` packets ends, n of which are sent: result and number of
      packets sent. */
  function WriteEnd(receiving: nat -> Outcome, sending: nat -> int, n: nat, count: nat): (int, nat)
    requires n <= count
    decreases count - n
  {
    var o := receiving(n);
    if !o.Answered? then (o.failed, n)
    else if IsBusy(o) then (o.wkc, n)
    else if !IsAck(o, n) then (WriteError(o.reply), n)
    else if n == count then (o.wkc, n)
    else if sending(n + 1) > 0 then WriteEnd(receiving, sending, n + 1, count)
    else (sending(n + 1), n + 1)
  }

  /** How a transfer goes on after n packets. */
  lemma Outcomes(receiving: nat -> Outcome, sending: nat -> int, count: nat, n: nat)
    requires Going(receiving, sending, n) && n <= count
    ensures IsBusy(receiving(n)) ==> EndedBusy(receiving, sending, count)
    ensures IsAck(receiving(n), n) && n == count ==> Written(receiving, sending, count)
    ensures IsAck(receiving(n), n) && n < count && sending(n + 1) > 0 ==> Going(receiving, sending, n + 1)
    ensures !IsBusy(receiving(n)) && !(IsAck(receiving(n), n) && (n == count || sending(n + 1) > 0)) ==>
              !Written(receiving, sending, count) && !EndedBusy(receiving, sending, count)
    ensures IsBusy(receiving(n)) ==> !Written(receiving, sending, count)
  {
    hide Kind;
    forall m | 0 <= m <= count && Going(receiving, sending, m) && IsBusy(receiving(m))
      ensures m >= n
    {
    }
  }

  lemma WriteEndStep(receiving: nat -> Outcome, sending: nat -> int, n: nat, count: nat)
    requires n <= count
    ensures var o := receiving(n);
            WriteEnd(receiving, sending, n, count) ==
            if !o.Answered? then (o.failed, n)
            else if IsBusy(o) then (o.wkc, n)
            else if !IsAck(o, n) then (WriteError(o.reply), n)
            else if n == count then (o.wkc, n)
            else if sending(n + 1) > 0 then WriteEnd(receiving, sending, n + 1, count)
            else (sending(n + 1), n + 1)
  {
    hide IsBusy, IsAck, WriteError;
  }

  lemma NotStarted(receiving: nat -> Outcome, sending: nat -> int, count: nat)
    ensures sending(0) > 0 ==> Going(receiving, sending, 0)
    ensures sending(0) <= 0 ==> !Written(receiving, sending, count) && !EndedBusy(receiving, sending, count)
  {
  }

  /** Main result.  The n packets sent were acknowledged one by one; the next exchange
      decides, in the fields of the mailbox. */
  lemma {:induction false} WriteStops(receiving: nat -> Outcome, sending: nat -> int, k: nat, n: nat, count: nat)
    requires k <= n <= count && forall j :: k <= j < n ==> IsAck(receiving(j), j) && sending(j + 1) > 0
    ensures var r, o := WriteEnd(receiving, sending, k, count), receiving(n);
            if !o.Answered? then r == (Wkc(o), n)
            else
              var f := o.reply;
              if f[5] % 0x10 != 4 || f[6] !in {4, 5, 6} then r == (-3, n)
              else if f[6] == 6 then r == (Wkc(o), n)
              else if f[6] == 5 then r == (if Long(f, 8) == 0x8001 then -10 else -5, n)
              else if Long(f, 8) != n then r == (-7, n)
              else if n == count then r == (Wkc(o), n)
              else sending(n + 1) <= 0 ==> r == (sending(n + 1), n + 1)
    decreases n - k
  {
    if k < n {
      hide Long;
      WriteStops(receiving, sending, k + 1, n, count);
    }
  }

  method DataFrame(mbx: array<byte>, number: nat, data: seq<byte>)
    requires mbx.Length == MBX_BUF && DATA + |data| <= MBX_BUF && number < 0x8000_0000
    modifies mbx
    ensures Packet(mbx[..], number, data)
  {
    CopyWord(mbx, LENGTH, 6 + |data|);
    mbx[MBXTYPE] := MBXT_FOE;
    mbx[OPCODE] := FOE_DATA;
    CopyLong(mbx, NUMBER, number);
    Copy(mbx, DATA, data);
  }

  method MakeFrame(number: nat, data: seq<byte>) returns (f: Mbx)
    requires DATA + |data| <= MBX_BUF && number < 0x8000_0000
    ensures Packet(f, number, data)
  {
    var mbx := new byte[MBX_BUF](_ => 0);
    DataFrame(mbx, number, data);
    f := mbx[..];
  }

  datatype Reaction = Continue | Retry | Fail(code: Failure)

  /** What an answer to packet `number` means. */
  method React(f: Mbx, number: nat) returns (r: Reaction)
    ensures r.Continue? <==> IsAck(Answered(1, f), number)
    ensures r.Retry? <==> IsBusy(Answered(1, f))
    ensures r.Fail? ==> r.code == WriteError(f)
  {
    if Kind(f) != MBXT_FOE {
      r := Fail(-PACKET_ERROR);
    } else if f[OPCODE] == FOE_ACK {
      r := if Long(f, NUMBER) == number then Continue else Fail(-FOE_PACKETNUMBER);
    } else if f[OPCODE] == FOE_BUSY {
      r := Retry;
    } else if f[OPCODE] == FOE_ERROR_OP {
      r := Fail(if Long(f, NUMBER) == NOT_FOUND then -FOE_FILE_NOTFOUND else -FOE_ERROR);
    } else {
      r := Fail(-PACKET_ERROR);
    }
  }

  function Offset(k: nat, maxdata: nat): nat {
    k * maxdata
  }

  /** The next stretch of the file is the next piece. */
  lemma NextPiece(p: seq<byte>, maxdata: nat, k: nat, at: nat)
    requires 0 < maxdata && k < Count(|p|, maxdata - 1, maxdata) && at == Offset(k, maxdata)
    ensures k <= at <= |p| && (|p| - at < maxdata <==> k + 1 == Count(|p|, maxdata - 1, maxdata))
    ensures |p| - at >= maxdata ==> at + maxdata == Offset(k + 1, maxdata)
  {
    hide Count;
    FinalIsLast(|p|, maxdata - 1, maxdata, k);
  }

  lemma NumberedPiece(f: Mbx, p: seq<byte>, maxdata: nat, k: nat, at: nat)
    requires maxdata > 0 && at == Offset(k, maxdata) <= |p|
    requires Packet(f, k + 1, p[at..if |p| - at < maxdata then |p| else at + maxdata])
    ensures PacketAt(f, k, p, maxdata)
  {
    PieceAt(p, maxdata - 1, maxdata, k, at);
  }

  /** The file and how far it has been sent. */
  class Writer {
    const p: seq<byte>
    const maxdata: nat
    var at: nat                 // the data pointer
    var rest: nat               // what is left of the size
    var sendpacket: nat
    var segmentdata: nat
    var dofinalzero: bool
    var sent: seq<Mbx>

    constructor (p: seq<byte>, mbxl: nat)
      requires 13 <= mbxl <= MAX_MBX && |p| < 0x7fff_ffff
      ensures this.p == p && maxdata == MaxData(mbxl) && Due() && LastSize() && InStep() && sendpacket == 0
    {
      this.p := p;
      maxdata := mbxl - 12;
      at, rest, sendpacket, segmentdata, dofinalzero, sent := 0, |p|, 0, 0, true, [];
      NoPackets(p, mbxl - 12);
    }

    ghost function Total(): nat
      requires maxdata > 0
    {
      Count(|p|, maxdata - 1, maxdata)
    }

    /** The next packet due is number sendpacket + 1: the data pointer is where its piece
        starts, and a zero-size packet is due exactly when nothing is left but the file
        is not ended. */
    ghost predicate Due()
      reads this
    {
      && 0 < maxdata <= MAX_MBX - 12 && |p| < 0x7fff_ffff && sendpacket <= Total() && rest == |p| - at
      && if sendpacket < Total() then at == Offset(sendpacket, maxdata) && (rest > 0 || dofinalzero)
         else rest == 0 && !dofinalzero
    }

    /** The packet sent last, if any, had `segmentdata` bytes. */
    ghost predicate LastSize()
      requires maxdata > 0
      reads this
    {
      sendpacket > 0 ==> segmentdata <= at && at - segmentdata == Offset(sendpacket - 1, maxdata)
    }

    /** Exactly the first packets were sent, none of them twice. */
    ghost predicate InStep()
      requires maxdata > 0
      reads this
    {
      sendpacket == |sent| && Packets(sent, p, maxdata)
    }

    /** Sends the next packet if there is one. */
    method Next() returns (more: bool)
      requires Due()
      modifies this
      ensures Due() && (more ==> LastSize())
      ensures more == (old(sendpacket) < Total()) && sendpacket == old(sendpacket) + if more then 1 else 0
      ensures |sent| == |old(sent)| + (if more then 1 else 0) && sent[..|old(sent)|] == old(sent)
      ensures more ==> PacketAt(sent[|old(sent)|], old(sendpacket), p, maxdata)
      ensures old(InStep()) ==> InStep()
    {
      hide Packet, Packets, PacketAt, Final, Piece, Count, Offset;
      var tsize := rest;
      if tsize > maxdata {
        tsize := maxdata;
      }
      more := tsize > 0 || dofinalzero;
      if more {
        NextPiece(p, maxdata, sendpacket, at);
        dofinalzero := false;
        segmentdata := tsize;
        rest := rest - segmentdata;
        if rest == 0 && segmentdata == maxdata {
          dofinalzero := true;
        }
        sendpacket := sendpacket + 1;
        var f := MakeFrame(sendpacket, p[at..at + segmentdata]);
        NumberedPiece(f, p, maxdata, sendpacket - 1, at);
        at := at + segmentdata;
        if sendpacket - 1 == |sent| && Packets(sent, p, maxdata) {
          AddPacket(sent, f, p, maxdata);
        }
        sent := sent + [f];
      }
    }

    /** Takes the last packet back: the writer is where it was before the last Next, so
        the same piece is due again under the same number. */
    method Rewind()
      requires Due() && LastSize()
      modifies this
      ensures Due() && sent == old(sent)
      ensures sendpacket == if old(sendpacket) > 0 then old(sendpacket) - 1 else 0
      ensures old(sendpacket) > 0 ==> sendpacket < Total()
    {
      hide Count, Offset;
      if sendpacket > 0 {
        if rest == 0 {
          dofinalzero := true;
        }
        rest := rest + segmentdata;
        at := at - segmentdata;
        sendpacket := sendpacket - 1;
      }
    }
  }

  /** Writes the file `p`.  `receiving` is the k-th answer, `sending` the counter of the
      k-th mailbox write, of which number 0 is the request.  A positive counter is
      returned when the file was written, and also when a busy answer ended it. */
  method FOEwrite(p: seq<byte>, mbxl: nat, receiving: nat -> Outcome, sending: nat -> int)
    returns (wkc: int, sent: seq<Mbx>)
    requires 13 <= mbxl <= MAX_MBX && |p| < 0x7fff_ffff
    ensures Packets(sent, p, MaxData(mbxl))
    ensures var count := Count(|p|, MaxData(mbxl) - 1, MaxData(mbxl));
            && (wkc > 0 <==> Written(receiving, sending, count) || EndedBusy(receiving, sending, count))
            && (wkc, |sent|) == if sending(0) > 0 then WriteEnd(receiving, sending, 0, count) else (sending(0), 0)
  {
    hide Packet, Packets, Count, Going, Written, EndedBusy, WriteEnd, WriteError;
    ghost var count := Count(|p|, MaxData(mbxl) - 1, MaxData(mbxl));
    var w := new Writer(p, mbxl);
    NotStarted(receiving, sending, count);
    wkc := sending(0);
    var worktodo := wkc > 0;
    while worktodo
      invariant w.p == p && w.maxdata == MaxData(mbxl) && Packets(w.sent, p, w.maxdata) && |w.sent| <= count
      invariant worktodo ==> w.Due() && w.LastSize() && w.InStep() && Going(receiving, sending, |w.sent|)
      invariant !worktodo ==> (wkc > 0 <==> Written(receiving, sending, count) || EndedBusy(receiving, sending, count))
      invariant sending(0) > 0 && worktodo ==>
        WriteEnd(receiving, sending, |w.sent|, count) == WriteEnd(receiving, sending, 0, count)
      invariant !worktodo ==>
        (wkc, |w.sent|) == if sending(0) > 0 then WriteEnd(receiving, sending, 0, count) else (sending(0), 0)
      decreases worktodo, count - |w.sent|
    {
      worktodo := false;
      var o := receiving(|w.sent|);
      Outcomes(receiving, sending, count, |w.sent|);
      WriteEndStep(receiving, sending, |w.sent|, count);
      wkc := Wkc(o);
      if o.Answered? {
        var reaction := React(o.reply, w.sendpacket);
        if reaction.Continue? {
          worktodo := w.Next();
          if worktodo {
            wkc := sending(|w.sent|);
            if wkc <= 0 {
              worktodo := false;
            }
          }
        } else if reaction.Retry? {
          w.Rewind();
        } else {
          wkc := reaction.code;
        }
      }
    }
    sent := w.sent;
  }
}
