/** SDO transfers over the CANopen mailbox: expedited, normal and segmented. */
module CoE {
  import opened Bytes
  import opened Chunks
  import opened Mailbox

  const MBXT_COE: byte := 3
  const SDO_REQ: word := 0x2000           // service in the upper four bits
  const SDO_RES: word := 0x3000
  const SDO_DOWN_INIT: byte := 0x21
  const SDO_DOWN_INIT_CA: byte := 0x31
  const SDO_DOWN_EXP: byte := 0x23
  const SDO_UP_REQ: byte := 0x40
  const SDO_UP_REQ_CA: byte := 0x50
  const SDO_SEG_UP_REQ: byte := 0x60

  // offsets of the fields of an SDO frame
  const CANOPEN: nat := 6
  const COMMAND: nat := 8
  const INDEX: nat := 9
  const SUBINDEX: nat := 11
  const LDATA0: nat := 12
  const LDATA1: nat := 16

  // ----- contents of frames -----

  predicate CoeHeader(f: Mbx, service: word) {
    Kind(f) == MBXT_COE && Word(f, CANOPEN) / 0x1000 == service / 0x1000
  }

  predicate Expedited(f: Mbx, index: word, sub: byte, data: seq<byte>) {
    && |data| <= 4 && CoeHeader(f, SDO_REQ) && Word(f, LENGTH) == 0x0a
    && f[COMMAND] == SDO_DOWN_EXP + 4 * ((4 - |data|) % 4)
    && Word(f, INDEX) == index && f[SUBINDEX] == sub
    && f[LDATA0..LDATA0 + |data|] == data
  }

  predicate Initiate(f: Mbx, command: byte, index: word, sub: byte, total: nat, data: seq<byte>) {
    && LDATA1 + |data| <= MBX_BUF && CoeHeader(f, SDO_REQ) && Word(f, LENGTH) == 0x0a + |data|
    && f[COMMAND] == command && Word(f, INDEX) == index && f[SUBINDEX] == sub
    && Long(f, LDATA0) == total && f[LDATA1..LDATA1 + |data|] == data
  }

  predicate Segment(f: Mbx, last: bool, toggle: bool, data: seq<byte>) {
    && INDEX + |data| <= MBX_BUF && CoeHeader(f, SDO_REQ)
    && Word(f, LENGTH) == (if last && |data| < 7 then 0x0a else |data| + 3)
    && f[COMMAND] == (if !last then 0x00 else if |data| < 7 then 0x01 + 2 * (7 - |data|) else 0x01)
                     + (if toggle then 0x10 else 0)
    && f[INDEX..INDEX + |data|] == data
  }

  /** The k-th segment carries the k-th piece of `maxdata` bytes; toggles alternate. */
  predicate SegmentAt(f: Mbx, k: nat, data: seq<byte>, maxdata: nat) {
    && k * maxdata <= |data|
    && Segment(f, Final(|data|, maxdata, maxdata, k), k % 2 == 1, Piece(data, maxdata, maxdata, k))
  }

  predicate Segments(frames: seq<Mbx>, data: seq<byte>, maxdata: nat) {
    forall k :: 0 <= k < |frames| ==> SegmentAt(frames[k], k, data, maxdata)
  }

  lemma NoSegments(data: seq<byte>, maxdata: nat)
    ensures Segments([], data, maxdata)
  {
  }

  lemma AddSegment(frames: seq<Mbx>, f: Mbx, data: seq<byte>, maxdata: nat)
    requires Segments(frames, data, maxdata) && SegmentAt(f, |frames|, data, maxdata)
    ensures Segments(frames + [f], data, maxdata)
  {
    hide SegmentAt;
  }

  function Command(ca: bool): byte {
    if ca then SDO_DOWN_INIT_CA else SDO_DOWN_INIT
  }

  function SubIndex(ca: bool, sub: byte): byte {
    if ca && sub > 1 then 1 else sub
  }

  /** Payload of the first frame of a mailbox of mbxl bytes, and of the others. */
  function FirstData(mbxl: nat): nat
    requires mbxl >= 16
  {
    mbxl - 16
  }

  function SegData(mbxl: nat): nat
    requires mbxl >= 16
  {
    mbxl - 9
  }

  function FrameCount(n: nat, ca: bool, mbxl: nat): (c: nat)
    requires mbxl >= 16
    ensures c >= 1
  {
    if (n <= 4 && !ca) || n <= FirstData(mbxl) then 1 else 1 + Count(n - FirstData(mbxl), SegData(mbxl), SegData(mbxl))
  }

  /** The frames are the first ones of a download of `p`. */
  ghost predicate Download(frames: seq<Mbx>, index: word, sub: byte, ca: bool, p: seq<byte>, mbxl: nat)
    requires mbxl >= 16
  {
    frames != [] &&
    var first := FirstData(mbxl);
    if |p| <= 4 && !ca then |frames| == 1 && Expedited(frames[0], index, sub, p)
    else if |p| <= first then |frames| == 1 && Initiate(frames[0], Command(ca), index, SubIndex(ca, sub), |p|, p)
    else
      && Initiate(frames[0], Command(ca), index, SubIndex(ca, sub), |p|, p[..first])
      && Segments(frames[1..], p[first..], SegData(mbxl))
  }

  // ----- answers -----

  predicate InitAck(f: Mbx, index: word, sub: byte) {
    CoeHeader(f, SDO_RES) && Word(f, INDEX) == index && f[SUBINDEX] == sub
  }

  predicate SegAck(f: Mbx) {
    CoeHeader(f, SDO_RES) && f[COMMAND] / 0x20 == 1
  }

  predicate Accepts(o: Outcome) {
    o.Answered? && SegAck(o.reply)
  }

  predicate Refuses(o: Outcome) {
    o.Answered? && !SegAck(o.reply)
  }

  ghost predicate SegmentsReported(slave: nat -> Outcome, count: nat) {
    Accepts(slave(count)) && forall k :: 1 <= k < count ==> !Refuses(slave(k))
  }

  /** When a download of `count` frames reports success. */
  ghost predicate Reported(slave: nat -> Outcome, count: nat, index: word, sub: byte)
    requires count >= 1
  {
    && slave(0).Answered? && InitAck(slave(0).reply, index, sub)
    && (count > 1 ==> SegmentsReported(slave, count - 1))
  }

  /** How the segments end from number k on, `count` in all: counter and number sent.  A
      refusal ends them, a lost one does not. */
  function SegmentsEnd(slave: nat -> Outcome, k: nat, count: nat): (int, nat)
    requires 1 <= k <= count
    decreases count - k
  {
    if Refuses(slave(k)) then (0, k)
    else if k == count then (Wkc(slave(k)), k)
    else SegmentsEnd(slave, k + 1, count)
  }

  /** How a download of `count` frames ends. */
  function DownloadEnd(slave: nat -> Outcome, count: nat, index: word, sub: byte): (int, nat)
    requires count >= 1
  {
    var o := slave(0);
    if o.Answered? && InitAck(o.reply, index, sub) then
      if count == 1 then (o.wkc, 1)
      else
        var (wkc, n) := SegmentsEnd(slave, 1, count - 1);
        (wkc, n + 1)
    else (if o.Answered? then 0 else o.failed, 1)
  }

  /** Service request in the mailbox header. */
  method Header(mbx: array<byte>, length: word)
    requires mbx.Length == MBX_BUF
    modifies mbx
    ensures Word(mbx[..], LENGTH) == length && CoeHeader(mbx[..], SDO_REQ)
    ensures forall k :: COMMAND <= k < MBX_BUF ==> mbx[k] == old(mbx[k])
  {
    CopyWord(mbx, LENGTH, length);
    mbx[MBXTYPE] := MBXT_COE;
    CopyWord(mbx, CANOPEN, SDO_REQ);
  }

  method ExpeditedFrame(mbx: array<byte>, index: word, sub: byte, data: seq<byte>)
    requires mbx.Length == MBX_BUF && |data| <= 4
    modifies mbx
    ensures Expedited(mbx[..], index, sub, data)
  {
    Header(mbx, 0x0a);
    mbx[COMMAND] := SDO_DOWN_EXP + 4 * ((4 - |data|) % 4);
    CopyWord(mbx, INDEX, index);
    mbx[SUBINDEX] := sub;
    Copy(mbx, LDATA0, data);
  }

  /** The first frame of a normal download, with as much data as fits. */
  method InitFrame(mbx: array<byte>, index: word, sub: byte, ca: bool, total: nat, data: seq<byte>)
    requires mbx.Length == MBX_BUF && |data| <= MAX_MBX - 16 && total < 0x8000_0000
    modifies mbx
    ensures Initiate(mbx[..], Command(ca), index, SubIndex(ca, sub), total, data)
  {
    Header(mbx, 0x0a + |data|);
    mbx[COMMAND] := if ca then SDO_DOWN_INIT_CA else SDO_DOWN_INIT;
    CopyWord(mbx, INDEX, index);
    mbx[SUBINDEX] := sub;
    if ca && sub > 1 {
      mbx[SUBINDEX] := 1;
    }
    CopyLong(mbx, LDATA0, total);
    Copy(mbx, LDATA1, data);
  }

  method SegmentFrame(mbx: array<byte>, last: bool, toggle: bool, data: seq<byte>)
    requires mbx.Length == MBX_BUF && |data| <= MAX_MBX - 9
    modifies mbx
    ensures Segment(mbx[..], last, toggle, data)
  {
    var command: byte := if last then 0x01 else 0x00;
    var length := |data| + 3;
    if last && |data| < 7 {
      length := 0x0a;
      command := 0x01 + 2 * (7 - |data|);
    }
    Header(mbx, length);
    mbx[COMMAND] := command + (if toggle then 0x10 else 0x00);
    Copy(mbx, INDEX, data);
  }

  method WriteSegments(mbx: array<byte>, data: seq<byte>, maxdata: nat, slave: nat -> Outcome)
    returns (wkc: int, sent: seq<Mbx>)
    requires mbx.Length == MBX_BUF && 0 < maxdata <= MAX_MBX - 9
    modifies mbx
    ensures Segments(sent, data, maxdata)
    ensures wkc > 0 <==> SegmentsReported(slave, Count(|data|, maxdata, maxdata))
    ensures (wkc, |sent|) == SegmentsEnd(slave, 1, Count(|data|, maxdata, maxdata))
  {
    hide Segments, Segment, Final, Piece, Count, SegAck;
    NoSegments(data, maxdata);
    ghost var count := Count(|data|, maxdata, maxdata);
    var hp, notLast, toggle := 0, true, false;
    wkc, sent := 0, [];
    while notLast
      invariant hp <= |data| && Segments(sent, data, maxdata)
      invariant notLast ==> hp == |sent| * maxdata && |sent| < count && toggle == (|sent| % 2 == 1)
      invariant notLast ==> forall k :: 1 <= k <= |sent| ==> !Refuses(slave(k))
      invariant !notLast ==> (wkc > 0 <==> SegmentsReported(slave, count))
      invariant notLast ==> SegmentsEnd(slave, |sent| + 1, count) == SegmentsEnd(slave, 1, count)
      invariant !notLast ==> (wkc, |sent|) == SegmentsEnd(slave, 1, count)
      decreases notLast, |data| - hp
    {
      FinalIsLast(|data|, maxdata, maxdata, |sent|);
      PieceAt(data, maxdata, maxdata, |sent|, hp);
      var framedatasize := |data| - hp;
      notLast := false;
      if framedatasize > maxdata {
        framedatasize := maxdata;
        notLast := true;
      }
      assert data[hp..hp + framedatasize] == Piece(data, maxdata, maxdata, |sent|);
      SegmentFrame(mbx, !notLast, toggle, data[hp..hp + framedatasize]);
      AddSegment(sent, mbx[..], data, maxdata);
      sent := sent + [mbx[..]];
      var o := slave(|sent|);
      wkc := Wkc(o);
      if Refuses(o) {
        wkc := 0;
        notLast := false;
      }
      hp := hp + framedatasize;
      toggle := !toggle;
    }
  }

  /** Download, one subindex or all of them.  `slave` is what happens at the k-th
      exchange.  Success is reported exactly when the first and the last frame are
      accepted and none is refused in between. */
  method SDOwrite(index: word, sub: byte, ca: bool, p: seq<byte>, mbxl: nat, slave: nat -> Outcome)
    returns (wkc: int, sent: seq<Mbx>)
    requires 16 <= mbxl <= MAX_MBX && |p| < 0x8000_0000
    ensures Download(sent, index, sub, ca, p, mbxl)
    ensures wkc > 0 <==> Reported(slave, FrameCount(|p|, ca, mbxl), index, SubIndex(ca, sub))
    ensures (wkc, |sent|) == DownloadEnd(slave, FrameCount(|p|, ca, mbxl), index, SubIndex(ca, sub))
  {
    hide Segments, Segment, Initiate, Expedited, InitAck, Count, SegmentsReported, SegmentsEnd;
    var mbx := new byte[MBX_BUF](_ => 0);
    var maxdata := mbxl - 0x10;
    if |p| <= 4 && !ca {
      ExpeditedFrame(mbx, index, sub, p);
      sent := [mbx[..]];
      var o := slave(0);
      wkc := Wkc(o);
      if o.Answered? && !InitAck(o.reply, index, sub) {
        wkc := 0;
      }
    } else {
      var framedatasize := |p|;
      var notLast := false;
      if framedatasize > maxdata {
        framedatasize := maxdata;
        notLast := true;
      }
      InitFrame(mbx, index, sub, ca, |p|, p[..framedatasize]);
      sent := [mbx[..]];
      NoSegments(p[framedatasize..], maxdata + 7);
      assert sent[1..] == [] && (framedatasize == |p| ==> p[..framedatasize] == p);
      var o := slave(0);
      wkc := Wkc(o);
      if o.Answered? {
        if InitAck(o.reply, index, SubIndex(ca, sub)) {
          if notLast {
            var more;
            wkc, more := WriteSegments(mbx, p[framedatasize..], maxdata + 7, slave);
            assert (sent + more)[1..] == more;
            sent := sent + more;
          }
        } else {
          wkc := 0;
        }
      }
    }
  }

  // ----- upload -----

  /** How an upload ended: whether it did, the counter, the bytes put in the
      parameter buffer, and the size reported. */
  datatype Upload = Upload(done: bool, wkc: int, copied: seq<byte>, size: nat)

  predicate InitReply(f: Mbx, index: word) {
    CoeHeader(f, SDO_RES) && Word(f, INDEX) == index
  }

  predicate SegmentReply(f: Mbx) {
    CoeHeader(f, SDO_RES) && f[COMMAND] / 0x20 == 0
  }

  predicate IsExpedited(f: Mbx) {
    f[COMMAND] / 2 % 2 == 1
  }

  function ExpeditedSize(f: Mbx): (n: nat)
    ensures 1 <= n <= 4
  {
    4 - f[COMMAND] / 4 % 4
  }

  predicate IsLast(f: Mbx) {
    f[COMMAND] % 2 == 1
  }

  /** The receiver relies on length fields that cover the headers and stay inside the
      mailbox buffer, and on an announced size that is not negative. */
  predicate SaneInit(f: Mbx) {
    IsExpedited(f) || (10 <= Word(f, LENGTH) <= MBX_BUF - 6 && Long(f, LDATA0) < 0x8000_0000)
  }

  predicate SaneSegment(f: Mbx) {
    3 <= Word(f, LENGTH) <= MBX_BUF - 6
  }

  predicate SaneReplies(replies: seq<Outcome>) {
    forall k :: 0 <= k < |replies| && replies[k].Answered? ==> SaneSegment(replies[k].reply)
  }

  /** Bytes of a segment; a last one of minimum length says how many are unused. */
  function SegmentSize(f: Mbx): (n: nat)
    requires SaneSegment(f)
    ensures INDEX + n <= MBX_BUF
  {
    var size := Word(f, LENGTH) - 3;
    if IsLast(f) && size == 7 then size - f[COMMAND] / 2 % 8 else size
  }

  function SegmentBytes(f: Mbx): (b: seq<byte>)
    requires SaneSegment(f)
    ensures |b| == SegmentSize(f)
  {
    f[INDEX..INDEX + SegmentSize(f)]
  }

  /** The segments: an exchange without an answer is simply asked again. */
  function Collect(replies: seq<Outcome>, acc: seq<byte>, wkc: int): (u: Upload)
    requires SaneReplies(replies)
    ensures acc <= u.copied && u.size == |u.copied|
    decreases |replies|
  {
    if replies == [] then Upload(false, wkc, acc, |acc|)
    else if !replies[0].Answered? then Collect(replies[1..], acc, replies[0].failed)
    else
      var f := replies[0].reply;
      if !SegmentReply(f) then Upload(true, 0, acc, |acc|)
      else if IsLast(f) then Upload(true, replies[0].wkc, acc + SegmentBytes(f), |acc| + SegmentSize(f))
      else Collect(replies[1..], acc + SegmentBytes(f), replies[0].wkc)
  }

  function Normal(f: Mbx, replies: seq<Outcome>, wkc: int): (u: Upload)
    requires 10 <= Word(f, LENGTH) <= MBX_BUF - 6 && SaneReplies(replies)
  {
    var sdolen, framedatasize := Long(f, LDATA0), Word(f, LENGTH) - 10;
    if framedatasize < sdolen then Collect(replies, f[LDATA1..LDATA1 + framedatasize], wkc)
    else Upload(true, wkc, f[LDATA1..LDATA1 + sdolen], sdolen)
  }

  function Uploaded(first: Outcome, replies: seq<Outcome>, index: word, psize: nat): Upload
    requires first.Answered? ==> SaneInit(first.reply)
    requires SaneReplies(replies)
  {
    if !first.Answered? then Upload(true, first.failed, [], psize)
    else
      var f := first.reply;
      if !InitReply(f, index) then Upload(true, 0, [], psize)
      else if IsExpedited(f) then
        var size := ExpeditedSize(f);
        if psize >= size then Upload(true, first.wkc, f[LDATA0..LDATA0 + size], size) else Upload(true, 0, [], psize)
      else
        if Long(f, LDATA0) > psize then Upload(true, 0, [], psize) else Normal(f, replies, first.wkc)
  }

  /** Upload into `p`.  `first` is what happens at the initial exchange, `replies` at
      the following ones; the source asks until a last segment arrives, so it may
      still be asking (`done` false) when they are used up.  The segments are not
      checked against the announced size, so they must fit. */
  method SDOread(p: array<byte>, psize: nat, index: word, ca: bool, first: Outcome, replies: seq<Outcome>)
    returns (done: bool, wkc: int, size: nat, commands: seq<byte>)
    requires first.Answered? ==> SaneInit(first.reply)
    requires SaneReplies(replies)
    requires psize <= p.Length && |Uploaded(first, replies, index, psize).copied| <= p.Length
    modifies p
    ensures var u := Uploaded(first, replies, index, psize);
            && done == u.done && wkc == u.wkc && size == u.size
            && p[..] == u.copied + old(p[|u.copied|..])
    ensures commands != [] && commands[0] == if ca then SDO_UP_REQ_CA else SDO_UP_REQ
    ensures forall k :: 1 <= k < |commands| ==> commands[k] == SDO_SEG_UP_REQ + if k % 2 == 0 then 0x10 else 0
  {
    hide Collect, InitReply, IsExpedited, ExpeditedSize, SaneSegment, Word, Long;
    commands := [if ca then SDO_UP_REQ_CA else SDO_UP_REQ];
    done, size, wkc := true, psize, Wkc(first);
    if first.Answered? {
      var f := first.reply;
      if InitReply(f, index) {
        if IsExpedited(f) {
          var bytesize := ExpeditedSize(f);
          if psize >= bytesize {
            Copy(p, 0, f[LDATA0..LDATA0 + bytesize]);
            size := bytesize;
          } else {
            wkc := 0;
          }
        } else if Long(f, LDATA0) <= psize {
          var more;
          done, wkc, size, more := ReadNormal(p, f, replies, wkc);
          commands := commands + more;
        } else {
          wkc := 0;
        }
      } else {
        wkc := 0;
      }
    }
  }

  /** A normal response: the parameter, or its first part. */
  method ReadNormal(p: array<byte>, f: Mbx, replies: seq<Outcome>, wkc0: int)
    returns (done: bool, wkc: int, size: nat, commands: seq<byte>)
    requires SaneReplies(replies) && 10 <= Word(f, LENGTH) <= MBX_BUF - 6
    requires |Normal(f, replies, wkc0).copied| <= p.Length
    modifies p
    ensures var u := Normal(f, replies, wkc0);
            && done == u.done && wkc == u.wkc && size == u.size
            && p[..] == u.copied + old(p[|u.copied|..])
    ensures forall k :: 0 <= k < |commands| ==> commands[k] == SDO_SEG_UP_REQ + if k % 2 == 1 then 0x10 else 0
  {
    hide Collect, SaneReplies, Word, Long;
    done, wkc, commands := true, wkc0, [];
    var sdolen, framedatasize := Long(f, LDATA0), Word(f, LENGTH) - 10;
    if framedatasize < sdolen {
      Copy(p, 0, f[LDATA1..LDATA1 + framedatasize]);
      done, wkc, size, commands := ReadSegments(p, framedatasize, replies, wkc);
    } else {
      Copy(p, 0, f[LDATA1..LDATA1 + sdolen]);
      size := sdolen;
    }
  }

  lemma CollectNone(acc: seq<byte>, wkc: int)
    ensures Collect([], acc, wkc) == Upload(false, wkc, acc, |acc|)
  {
  }

  /** One exchange of the collection. */
  lemma CollectStep(replies: seq<Outcome>, n: nat, acc: seq<byte>, wkc: int)
    requires SaneReplies(replies) && n < |replies|
    ensures var u := Collect(replies[n..], acc, wkc); var o := replies[n];
            u == if !o.Answered? then Collect(replies[n + 1..], acc, o.failed)
                 else if !SegmentReply(o.reply) then Upload(true, 0, acc, |acc|)
                 else if IsLast(o.reply) then
                   Upload(true, o.wkc, acc + SegmentBytes(o.reply), |acc| + SegmentSize(o.reply))
                 else Collect(replies[n + 1..], acc + SegmentBytes(o.reply), o.wkc)
  {
    hide CoeHeader, SegmentReply, SegmentSize, SegmentBytes, IsLast, SaneSegment;
    assert replies[n..][0] == replies[n] && replies[n..][1..] == replies[n + 1..];
  }

  method ReadSegments(p: array<byte>, start: nat, replies: seq<Outcome>, wkc0: int)
    returns (done: bool, wkc: int, size: nat, commands: seq<byte>)
    requires SaneReplies(replies) && start <= p.Length
    requires |Collect(replies, p[..start], wkc0).copied| <= p.Length
    modifies p
    ensures var u := Collect(replies, old(p[..start]), wkc0);
            && done == u.done && wkc == u.wkc && size == u.size
            && p[..] == u.copied + old(p[|u.copied|..])
    ensures forall k :: 0 <= k < |commands| ==> commands[k] == SDO_SEG_UP_REQ + if k % 2 == 1 then 0x10 else 0
  {
    hide SegmentReply, SegmentSize, SegmentBytes, IsLast, SaneSegment, Collect;
    ghost var u := Collect(replies, p[..start], wkc0);
    ghost var rest := p[|u.copied|..];
    var notLast, toggle, n := true, false, 0;
    wkc, size, commands := wkc0, start, [];
    assert replies[0..] == replies;
    while notLast && n < |replies|
      invariant n <= |replies| && size <= |u.copied| && |commands| == n
      invariant p[|u.copied|..] == rest && toggle == (n % 2 == 1)
      invariant notLast ==> Collect(replies[n..], p[..size], wkc) == u
      invariant !notLast ==> u == Upload(true, wkc, p[..size], size)
      invariant forall k :: 0 <= k < n ==> commands[k] == SDO_SEG_UP_REQ + if k % 2 == 1 then 0x10 else 0
    {
      commands := commands + [SDO_SEG_UP_REQ + if toggle then 0x10 else 0];
      var o := replies[n];
      CollectStep(replies, n, p[..size], wkc);
      wkc := Wkc(o);
      if o.Answered? {
        if SegmentReply(o.reply) {
          if IsLast(o.reply) {
            notLast := false;
          }
          size := Append(p, size, SegmentBytes(o.reply));
        } else {
          notLast := false;
          wkc := 0;
        }
      }
      toggle := !toggle;
      n := n + 1;
    }
    done := !notLast;
    assert notLast ==> replies[n..] == [];
    CollectNone(p[..size], wkc);
    assert p[..] == p[..size] + p[size..];
  }
}
