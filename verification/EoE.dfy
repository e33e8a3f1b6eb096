/** Ethernet frames tunnelled through the mailbox in fragments. */
module EoE {
  import opened Bytes
  import opened Chunks
  import opened Mailbox

  const MBXT_EOE: byte := 2
  const FRAMEINFO1: nat := 6
  const FRAMEINFO2: nat := 8
  const DATA: nat := 10
  const MAX_PAYLOAD: nat := 2016          // 63 blocks of 32 bytes

  // ----- header fields -----

  function PortOf(info1: word): nat { info1 / 0x10 % 0x10 }
  predicate IsLast(info1: word) { info1 / 0x100 % 2 == 1 }
  predicate HasTime(info1: word) { info1 / 0x200 % 2 == 1 }
  function FragNo(info2: word): nat { info2 % 0x40 }
  function OffsetOf(info2: word): nat { info2 / 0x40 % 0x40 }
  function FrameNo(info2: word): nat { info2 / 0x1000 }

  function Info1(port: byte, last: bool): (r: word)
    ensures PortOf(r) == port % 0x10 && IsLast(r) == last && !HasTime(r) && r % 0x10 == 0 && r < 0x200
  {
    (if last then 0x100 else 0) + 0x10 * (port % 0x10)
  }

  function Info2(fragno: nat, offset: nat, frameno: nat): (r: word)
    ensures FragNo(r) == fragno % 0x40 && OffsetOf(r) == offset % 0x40 && FrameNo(r) == frameno % 0x10
  {
    fragno % 0x40 + 0x40 * (offset % 0x40) + 0x1000 * (frameno % 0x10)
  }

  // ----- sending -----

  /** Data of a mailbox of mbxl bytes, and of a fragment that is not the last. */
  function MaxData(mbxl: nat): nat
    requires mbxl >= 42
  {
    mbxl - 10
  }

  function Block(maxdata: nat): (b: nat)
    ensures b % 32 == 0 && b <= maxdata < b + 32
  {
    maxdata / 32 * 32
  }

  predicate Fragment(f: Mbx, info1: word, info2: word, data: seq<byte>) {
    && DATA + |data| <= MBX_BUF && Kind(f) == MBXT_EOE && Word(f, LENGTH) == 4 + |data|
    && Word(f, FRAMEINFO1) == info1 && Word(f, FRAMEINFO2) == info2 && f[DATA..DATA + |data|] == data
  }

  /** Offset field: the size of the frame in the first fragment, both in blocks of 32. */
  function OffsetField(n: nat, at: nat, k: nat): nat {
    if k == 0 then (n + 31) / 32 else at / 32
  }

  predicate FragmentAt(f: Mbx, k: nat, p: seq<byte>, maxdata: nat, port: byte, frameno: nat) {
    var block := Block(maxdata);
    && k * block <= |p|
    && Fragment(f, Info1(port, Final(|p|, maxdata, block, k)), Info2(k, OffsetField(|p|, k * block, k), frameno),
                Piece(p, maxdata, block, k))
  }

  predicate Fragments(frames: seq<Mbx>, p: seq<byte>, maxdata: nat, port: byte, frameno: nat) {
    forall k :: 0 <= k < |frames| ==> FragmentAt(frames[k], k, p, maxdata, port, frameno)
  }

  lemma AddFragment(frames: seq<Mbx>, f: Mbx, p: seq<byte>, maxdata: nat, port: byte, frameno: nat)
    requires Fragments(frames, p, maxdata, port, frameno) && FragmentAt(f, |frames|, p, maxdata, port, frameno)
    ensures Fragments(frames + [f], p, maxdata, port, frameno)
  {
    hide FragmentAt;
  }

  class Sender {
    var txframeno: byte

    method WriteFragment(mbx: array<byte>, info1: word, info2: word, data: seq<byte>)
      requires mbx.Length == MBX_BUF && DATA + |data| <= MBX_BUF
      modifies mbx
      ensures Fragment(mbx[..], info1, info2, data)
    {
      CopyWord(mbx, LENGTH, 4 + |data|);
      mbx[MBXTYPE] := MBXT_EOE;
      CopyWord(mbx, FRAMEINFO1, info1);
      CopyWord(mbx, FRAMEINFO2, info2);
      Copy(mbx, DATA, data);
    }

    /** Puts fragment number k, which starts at byte `at`, into the mailbox. */
    method NextFragment(mbx: array<byte>, port: byte, p: seq<byte>, maxdata: nat, k: nat, at: nat)
      returns (txframesize: nat, last: bool)
      requires mbx.Length == MBX_BUF && 32 <= maxdata <= MAX_MBX - 10
      requires k < Count(|p|, maxdata, Block(maxdata)) && at == k * Block(maxdata) <= |p|
      modifies mbx
      ensures FragmentAt(mbx[..], k, p, maxdata, port, txframeno)
      ensures last == (k + 1 == Count(|p|, maxdata, Block(maxdata)))
      ensures !last ==> txframesize == Block(maxdata) && at + txframesize == (k + 1) * Block(maxdata) <= |p|
    {
      hide Fragment, Final, Piece, Count, Info1, Info2, OffsetField;
      ghost var block := Block(maxdata);
      FinalIsLast(|p|, maxdata, block, k);
      PieceAt(p, maxdata, block, k, at);
      txframesize := |p| - at;
      if txframesize > maxdata {
        txframesize := maxdata / 32 * 32;
      }
      last := txframesize == |p| - at;
      assert p[at..at + txframesize] == Piece(p, maxdata, block, k);
      WriteFragment(mbx, Info1(port, last), Info2(k, OffsetField(|p|, at, k), txframeno), p[at..at + txframesize]);
    }

    /** Sends `p`.  `sending` is the counter of the k-th mailbox write.  The first write
        that fails ends it; the last one made gives the result. */
    method Send(port: byte, p: seq<byte>, mbxl: nat, sending: nat -> int) returns (wkc: int, sent: seq<Mbx>)
      requires 42 <= mbxl <= MAX_MBX
      modifies this
      ensures txframeno == (old(txframeno) + 1) % 0x100
      ensures Fragments(sent, p, MaxData(mbxl), port, txframeno)
      ensures var count := Count(|p|, MaxData(mbxl), Block(MaxData(mbxl)));
              && 1 <= |sent| <= count && wkc == sending(|sent| - 1)
              && (wkc > 0 ==> |sent| == count) && forall k :: 0 <= k < |sent| - 1 ==> sending(k) > 0
    {
      hide Fragment, Fragments, FragmentAt, Count;
      var mbx := new byte[MBX_BUF](_ => 0);
      var maxdata := mbxl - 0x0a;
      ghost var block := Block(maxdata);
      ghost var count := Count(|p|, maxdata, block);
      var txfragmentno, txframeoffset, notLast := 0, 0, true;
      txframeno := if txframeno == 0xff then 0 else txframeno + 1;
      wkc, sent := 1, [];
      NoFragments(p, maxdata, port, txframeno);
      while notLast && wkc > 0
        invariant txframeno == (old(txframeno) + 1) % 0x100
        invariant Fragments(sent, p, maxdata, port, txframeno)
        invariant |sent| <= count && txframeoffset <= |p|
        invariant notLast && wkc > 0 ==> txfragmentno == |sent| < count && txframeoffset == |sent| * block
        invariant forall k :: 0 <= k < |sent| - 1 ==> sending(k) > 0
        invariant wkc == (if sent == [] then 1 else sending(|sent| - 1)) && (sent == [] ==> notLast)
        invariant !notLast ==> |sent| == count
        decreases notLast && wkc > 0, count - |sent|
      {
        var txframesize, last := NextFragment(mbx, port, p, maxdata, txfragmentno, txframeoffset);
        if last {
          notLast := false;
        }
        AddFragment(sent, mbx[..], p, maxdata, port, txframeno);
        wkc := sending(|sent|);
        sent := sent + [mbx[..]];
        if notLast && wkc > 0 {
          txframeoffset := txframeoffset + txframesize;
          txfragmentno := txfragmentno + 1;
        }
      }
    }
  }

  lemma NoFragments(p: seq<byte>, maxdata: nat, port: byte, frameno: nat)
    ensures Fragments([], p, maxdata, port, frameno)
  {
  }
}
