/** What a download carries is what an upload of the same frames returns. */
module CoETheorems {
  import opened Bytes
  import opened Chunks
  import opened Mailbox
  import opened CoE

  /** Every frame a download sends lies inside the mailbox, header included. */
  lemma FramesFit(frames: seq<Mbx>, index: word, sub: byte, ca: bool, p: seq<byte>, mbxl: nat, k: nat)
    requires 16 <= mbxl <= MAX_MBX && Download(frames, index, sub, ca, p, mbxl) && k < |frames|
    ensures 6 + Word(frames[k], LENGTH) <= mbxl
  {
    hide SegmentAt;
    if k > 0 {
      assert frames[1..][k - 1] == frames[k];
      SegmentFits(frames[k], k - 1, p[FirstData(mbxl)..], mbxl);
    }
  }

  /** And all but the last fill it. */
  lemma FramesFull(frames: seq<Mbx>, index: word, sub: byte, ca: bool, p: seq<byte>, mbxl: nat, k: nat)
    requires 16 <= mbxl <= MAX_MBX && Complete(frames, index, sub, ca, p, mbxl) && k + 1 < |frames|
    ensures 6 + Word(frames[k], LENGTH) == mbxl
  {
    hide SegmentAt, Count, Initiate, Expedited;
    var first := FirstData(mbxl);
    if k == 0 {
      InitiateLength(frames[0], Command(ca), index, SubIndex(ca, sub), |p|, p[..first]);
    } else {
      assert frames[1..][k - 1] == frames[k];
      SegmentFull(frames[k], k - 1, p[first..], mbxl);
    }
  }

  lemma SegmentFull(f: Mbx, k: nat, data: seq<byte>, mbxl: nat)
    requires 16 <= mbxl <= MAX_MBX && SegmentAt(f, k, data, SegData(mbxl))
    requires k + 1 < Count(|data|, SegData(mbxl), SegData(mbxl))
    ensures 6 + Word(f, LENGTH) == mbxl
  {
    hide Segment, Piece, Count, Final;
    var n := SegData(mbxl);
    PieceFull(data, n, k);
    SegmentLength(f, Final(|data|, n, n, k), k % 2 == 1, Piece(data, n, n, k));
  }

  lemma PieceFull(data: seq<byte>, n: nat, k: nat)
    requires n > 0 && k + 1 < Count(|data|, n, n)
    ensures k * n <= |data| && !Final(|data|, n, n, k) && |Piece(data, n, n, k)| == n
  {
    hide Piece, Count, Final;
    FinalIsLast(|data|, n, n, k);
    var at := k * n;
    PieceAt(data, n, n, k, at);
  }

  lemma InitiateLength(f: Mbx, command: byte, index: word, sub: byte, total: nat, data: seq<byte>)
    requires Initiate(f, command, index, sub, total, data)
    ensures Word(f, LENGTH) == 10 + |data|
  {
  }

  lemma SegmentFits(f: Mbx, k: nat, data: seq<byte>, mbxl: nat)
    requires 16 <= mbxl <= MAX_MBX && SegmentAt(f, k, data, SegData(mbxl))
    ensures 6 + Word(f, LENGTH) <= mbxl
  {
    hide Segment, Piece;
    var n := SegData(mbxl);
    SegmentLength(f, Final(|data|, n, n, k), k % 2 == 1, Piece(data, n, n, k));
  }

  lemma SegmentLength(f: Mbx, last: bool, toggle: bool, data: seq<byte>)
    requires Segment(f, last, toggle, data)
    ensures Word(f, LENGTH) == if last && |data| < 7 then 10 else |data| + 3
  {
  }

  /** The toggle bit of the k-th segment is the parity of k. */
  lemma TogglesAlternate(frames: seq<Mbx>, index: word, sub: byte, ca: bool, p: seq<byte>, mbxl: nat, k: nat)
    requires 16 <= mbxl <= MAX_MBX && Download(frames, index, sub, ca, p, mbxl) && 1 <= k < |frames|
    ensures frames[k][COMMAND] / 0x10 == (k - 1) % 2
  {
    assert frames[1..][k - 1] == frames[k];
    assert SegmentAt(frames[k], k - 1, p[FirstData(mbxl)..], SegData(mbxl));
  }

  // ----- round trip -----

  /** A frame sent back by a slave: the mailbox as it was written, marked as an
      answer, in a cleared buffer. */
  function Relayed(f: Mbx, mbxl: nat): (g: Mbx)
    requires 16 <= mbxl <= MAX_MBX
    ensures g[COMMAND..mbxl] == f[COMMAND..mbxl] && Word(g, LENGTH) == Word(f, LENGTH)
    ensures f[MBXTYPE] == g[MBXTYPE] && Word(g, CANOPEN) == SDO_RES
  {
    f[..CANOPEN] + WordBytes(SDO_RES) + f[COMMAND..mbxl] + seq(MBX_BUF - mbxl, _ => 0)
  }

  function Answers(frames: seq<Mbx>, mbxl: nat): (r: seq<Outcome>)
    requires 16 <= mbxl <= MAX_MBX
    ensures |r| == |frames|
    ensures forall k :: 0 <= k < |frames| ==> r[k] == Answered(1, Relayed(frames[k], mbxl))
  {
    seq(|frames|, k requires 0 <= k < |frames| => Answered(1, Relayed(frames[k], mbxl)))
  }

  /** A field of a relayed frame. */
  lemma RelayedField(f: Mbx, mbxl: nat, lo: nat, hi: nat)
    requires 16 <= mbxl <= MAX_MBX && COMMAND <= lo <= hi <= mbxl
    ensures Relayed(f, mbxl)[lo..hi] == f[lo..hi]
  {
    SliceInside(Relayed(f, mbxl), COMMAND, mbxl, lo, hi);
    SliceInside(f, COMMAND, mbxl, lo, hi);
  }

  lemma RelayedSegment(f: Mbx, mbxl: nat, last: bool, toggle: bool, data: seq<byte>)
    requires 16 <= mbxl <= MAX_MBX && Segment(f, last, toggle, data) && |data| <= SegData(mbxl)
    ensures var g := Relayed(f, mbxl);
            SaneSegment(g) && SegmentReply(g) && IsLast(g) == last && SegmentBytes(g) == data
  {
    var g := Relayed(f, mbxl);
    RelayedField(f, mbxl, COMMAND, COMMAND + 1);
    assert g[COMMAND] == g[COMMAND..COMMAND + 1][0] == f[COMMAND];
    RelayedField(f, mbxl, INDEX, INDEX + |data|);
    SegmentCommand(f[COMMAND], last, toggle, |data|);
  }

  /** What the receiver reads out of the command byte of a segment. */
  lemma SegmentCommand(c: byte, last: bool, toggle: bool, n: nat)
    requires c == (if !last then 0x00 else if n < 7 then 0x01 + 2 * (7 - n) else 0x01) + (if toggle then 0x10 else 0)
    ensures c / 0x20 == 0 && (c % 2 == 1 <==> last)
    ensures last && n < 7 ==> 7 - c / 2 % 8 == n
    ensures last && n >= 7 ==> c / 2 % 8 == 0
  {
  }

  lemma SaneAnswers(frames: seq<Mbx>, data: seq<byte>, maxdata: nat, mbxl: nat)
    requires 16 <= mbxl <= MAX_MBX && maxdata == SegData(mbxl) && Segments(frames, data, maxdata)
    ensures SaneReplies(Answers(frames, mbxl))
  {
    hide Relayed, SegmentAt, SegmentBytes, SegmentReply, SaneSegment;
    forall k | 0 <= k < |frames|
      ensures SaneSegment(Answers(frames, mbxl)[k].reply)
    {
      RelayedAt(frames[k], data, mbxl, k);
    }
  }

  lemma RelayedAt(f: Mbx, data: seq<byte>, mbxl: nat, k: nat)
    requires 16 <= mbxl <= MAX_MBX && SegmentAt(f, k, data, SegData(mbxl))
    ensures var g := Relayed(f, mbxl);
            && SaneSegment(g) && SegmentReply(g) && SegmentBytes(g) == Piece(data, SegData(mbxl), SegData(mbxl), k)
            && IsLast(g) == Final(|data|, SegData(mbxl), SegData(mbxl), k)
  {
    hide Relayed, Segment, SegmentBytes, SegmentReply, SaneSegment, IsLast, Piece, Final;
    var maxdata := SegData(mbxl);
    RelayedSegment(f, mbxl, Final(|data|, maxdata, maxdata, k), k % 2 == 1, Piece(data, maxdata, maxdata, k));
  }

  /** From the k-th segment on, the receiver collects the rest of the data. */
  lemma {:induction false} Collected(frames: seq<Mbx>, data: seq<byte>, mbxl: nat, k: nat, acc: seq<byte>, wkc: int)
    requires 16 <= mbxl <= MAX_MBX && Segments(frames, data, SegData(mbxl))
    requires k < |frames| == Count(|data|, SegData(mbxl), SegData(mbxl))
    requires SaneReplies(Answers(frames, mbxl))
    ensures k * SegData(mbxl) <= |data|
    ensures var rest := acc + data[k * SegData(mbxl)..];
            Collect(Answers(frames, mbxl)[k..], acc, wkc) == Upload(true, 1, rest, |rest|)
    decreases |frames| - k
  {
    hide Relayed, SegmentAt, SegmentBytes, SegmentReply, SaneSegment, Collect, IsLast, Piece, Final, Count;
    var maxdata := SegData(mbxl);
    FinalIsLast(|data|, maxdata, maxdata, k);
    var at := k * maxdata;
    PieceAt(data, maxdata, maxdata, k, at);
    var piece := Piece(data, maxdata, maxdata, k);
    RelayedAt(frames[k], data, mbxl, k);
    CollectStep(Answers(frames, mbxl), k, acc, wkc);
    if !Final(|data|, maxdata, maxdata, k) {
      Collected(frames, data, mbxl, k + 1, acc + piece, 1);
      assert acc + piece + data[at + maxdata..] == acc + data[at..];
    }
  }

  /** A complete download of `p`. */
  ghost predicate Complete(frames: seq<Mbx>, index: word, sub: byte, ca: bool, p: seq<byte>, mbxl: nat)
    requires mbxl >= 16
  {
    Download(frames, index, sub, ca, p, mbxl) && |frames| == FrameCount(|p|, ca, mbxl)
  }

  ghost predicate Sane(frames: seq<Mbx>, mbxl: nat)
    requires 16 <= mbxl <= MAX_MBX
  {
    frames != [] && SaneInit(Relayed(frames[0], mbxl)) && SaneReplies(Answers(frames[1..], mbxl))
  }

  lemma ExpeditedReturned(f: Mbx, index: word, sub: byte, p: seq<byte>, mbxl: nat, psize: nat)
    requires 16 <= mbxl <= MAX_MBX && Expedited(f, index, sub, p)
    ensures var g := Relayed(f, mbxl); SaneInit(g) && InitReply(g, index) && IsExpedited(g)
    ensures p != [] ==> var g := Relayed(f, mbxl); ExpeditedSize(g) == |p| && g[LDATA0..LDATA0 + |p|] == p
    ensures p == [] ==> ExpeditedSize(Relayed(f, mbxl)) == 4
  {
    var g := Relayed(f, mbxl);
    RelayedField(f, mbxl, COMMAND, COMMAND + 1);
    assert g[COMMAND] == g[COMMAND..COMMAND + 1][0] == f[COMMAND];
    RelayedField(f, mbxl, LDATA0, LDATA0 + |p|);
    RelayedField(f, mbxl, INDEX, INDEX + 2);
    WordInside(g, INDEX, f[INDEX..INDEX + 2], 0);
    WordInside(f, INDEX, f[INDEX..INDEX + 2], 0);
  }

  lemma InitiateReturned(f: Mbx, command: byte, index: word, sub: byte, total: nat, data: seq<byte>, mbxl: nat)
    requires 16 <= mbxl <= MAX_MBX && Initiate(f, command, index, sub, total, data)
    requires LDATA1 + |data| <= mbxl && total < 0x8000_0000 && command in {SDO_DOWN_INIT, SDO_DOWN_INIT_CA}
    ensures var g := Relayed(f, mbxl);
            && SaneInit(g) && InitReply(g, index) && !IsExpedited(g)
            && Long(g, LDATA0) == total && Word(g, LENGTH) - 10 == |data| && g[LDATA1..LDATA1 + |data|] == data
  {
    var g := Relayed(f, mbxl);
    RelayedField(f, mbxl, COMMAND, COMMAND + 1);
    assert g[COMMAND] == g[COMMAND..COMMAND + 1][0] == f[COMMAND];
    RelayedField(f, mbxl, INDEX, LDATA1);
    var fields := f[INDEX..LDATA1];
    WordInside(g, INDEX, fields, 0);
    WordInside(f, INDEX, fields, 0);
    WordInside(g, INDEX, fields, 3);
    WordInside(f, INDEX, fields, 3);
    WordInside(g, INDEX, fields, 5);
    WordInside(f, INDEX, fields, 5);
    RelayedField(f, mbxl, LDATA1, LDATA1 + |data|);
  }

  lemma CompleteIsSane(frames: seq<Mbx>, index: word, sub: byte, ca: bool, p: seq<byte>, mbxl: nat)
    requires 16 <= mbxl <= MAX_MBX && |p| < 0x8000_0000 && Complete(frames, index, sub, ca, p, mbxl)
    ensures Sane(frames, mbxl)
  {
    hide Expedited, Initiate, Relayed, SaneInit;
    var first := FirstData(mbxl);
    if |p| <= 4 && !ca {
      ExpeditedReturned(frames[0], index, sub, p, mbxl, 0);
      NoSegments(p, SegData(mbxl));
      SaneAnswers(frames[1..], p, SegData(mbxl), mbxl);
    } else {
      var n := if |p| <= first then |p| else first;
      assert p[..n] == if |p| <= first then p else p[..first];
      InitiateReturned(frames[0], Command(ca), index, SubIndex(ca, sub), |p|, p[..n], mbxl);
      NoSegments(p[n..], SegData(mbxl));
      SaneAnswers(frames[1..], p[n..], SegData(mbxl), mbxl);
    }
  }

  /** Main result.  For every payload, mailbox size and buffer, the upload rules
      return from the frames of a download exactly the payload, if and only if the
      buffer holds it and it is not an empty single subindex. */
  lemma UploadReturnsDownload(frames: seq<Mbx>, index: word, sub: byte, ca: bool, p: seq<byte>, mbxl: nat, psize: nat)
    requires 16 <= mbxl <= MAX_MBX && |p| < 0x8000_0000 && Complete(frames, index, sub, ca, p, mbxl)
    ensures Sane(frames, mbxl)
    ensures var u := Uploaded(Answered(1, Relayed(frames[0], mbxl)), Answers(frames[1..], mbxl), index, psize);
            u.done && u.wkc > 0 && u.copied == p && u.size == |p| <==> psize >= |p| && (ca || p != [])
  {
    hide Expedited, Initiate, Relayed, SaneInit, Segments, SegmentBytes, InitReply, Collect, IsExpedited,
         ExpeditedSize, Answers, SaneReplies;
    CompleteIsSane(frames, index, sub, ca, p, mbxl);
    var first := FirstData(mbxl);
    if |p| <= 4 && !ca {
      ExpeditedReturned(frames[0], index, sub, p, mbxl, psize);
    } else if |p| <= first {
      InitiateReturned(frames[0], Command(ca), index, SubIndex(ca, sub), |p|, p, mbxl);
    } else {
      InitiateReturned(frames[0], Command(ca), index, SubIndex(ca, sub), |p|, p[..first], mbxl);
      SegmentsReturned(frames, p, mbxl, first);
    }
  }

  lemma SegmentsReturned(frames: seq<Mbx>, p: seq<byte>, mbxl: nat, first: nat)
    requires 16 <= mbxl <= MAX_MBX && first == FirstData(mbxl) < |p| && frames != []
    requires Segments(frames[1..], p[first..], SegData(mbxl)) && Sane(frames, mbxl)
    requires |frames[1..]| == Count(|p[first..]|, SegData(mbxl), SegData(mbxl))
    ensures Collect(Answers(frames[1..], mbxl), p[..first], 1) == Upload(true, 1, p, |p|)
  {
    var replies := Answers(frames[1..], mbxl);
    Collected(frames[1..], p[first..], mbxl, 0, p[..first], 1);
    assert replies[0..] == replies && p[first..][0..] == p[first..];
    assert p[..first] + p[first..] == p;
  }

  // ----- reported success -----

  /** A slave that takes the first and the last frame but never sees number `lost`. */
  function Losing(lost: nat, ack: Mbx, segAck: Mbx): nat -> Outcome {
    k => if k == lost then Unsent(0) else Answered(1, if k == 0 then ack else segAck)
  }

  /** Success means that every frame reached the slave exactly when the download
      takes at most two frames: the loop goes on after a segment that was not sent. */
  lemma SuccessMeansDelivered(n: nat, ca: bool, mbxl: nat, index: word, sub: byte, ack: Mbx, segAck: Mbx)
    requires 16 <= mbxl <= MAX_MBX && InitAck(ack, index, sub) && SegAck(segAck)
    ensures var count := FrameCount(n, ca, mbxl);
            (forall slave: nat -> Outcome | Reported(slave, count, index, sub) ::
               forall k :: 0 <= k < count ==> !slave(k).Unsent?)
            <==> (n <= 4 && !ca) || n <= FirstData(mbxl) + SegData(mbxl)
  {
    var count := FrameCount(n, ca, mbxl);
    if (n <= 4 && !ca) || n <= FirstData(mbxl) + SegData(mbxl) {
      assert count <= 2;
    } else {
      assert count >= 3;
      var slave := Losing(1, ack, segAck);
      assert Reported(slave, count, index, sub) && slave(1).Unsent?;
    }
  }

  // ----- which answers count -----

  /** A response of the CoE service, in the fields of the mailbox. */
  predicate IsResponse(f: Mbx) {
    f[5] % 0x10 == 3 && Word(f, 6) / 0x1000 == 3
  }

  /** A segment: response, command specifier 0. */
  predicate IsSegment(f: Mbx) {
    IsResponse(f) && f[8] < 0x20
  }

  /** The bytes in a segment; the last one says how many of seven are unused. */
  function Content(f: Mbx): seq<byte>
    requires SaneSegment(f)
  {
    var n := Word(f, 0) - 3;
    f[9..9 + if f[8] % 2 == 1 && n == 7 then 7 - f[8] / 2 % 8 else n]
  }

  /** The contents of the answers among the first n exchanges. */
  function Contents(replies: seq<Outcome>, n: nat): seq<byte>
    requires SaneReplies(replies) && n <= |replies|
  {
    if n == 0 then []
    else
      var o := replies[n - 1];
      Contents(replies, n - 1) + if o.Answered? && IsSegment(o.reply) then Content(o.reply) else []
  }

  /** The exchange either brings no answer or a segment that is not the last. */
  predicate Continues(o: Outcome) {
    o.Answered? ==> IsSegment(o.reply) && o.reply[8] % 2 == 0
  }

  /** The exchange number n, the first that does not, brings the last segment. */
  ghost predicate EndsAt(replies: seq<Outcome>, n: nat) {
    && n < |replies| && (forall k :: 0 <= k < n ==> Continues(replies[k]))
    && replies[n].Answered? && IsSegment(replies[n].reply) && replies[n].reply[8] % 2 == 1
  }

  lemma ContentsFirst(replies: seq<Outcome>, n: nat)
    requires SaneReplies(replies) && 0 < n <= |replies| && SaneReplies(replies[1..])
    ensures Contents(replies, n) == Contents(replies[..1], 1) + Contents(replies[1..], n - 1)
    decreases n
  {
    hide IsSegment, Content, SaneSegment;
    if n > 1 {
      ContentsFirst(replies, n - 1);
      assert replies[1..][n - 2] == replies[n - 1];
    } else {
      assert Contents(replies, 1) == Contents(replies, 0) + Contents(replies[..1], 1);
    }
  }

  lemma SegmentMeans(f: Mbx)
    ensures SegmentReply(f) <==> IsSegment(f)
    ensures IsLast(f) <==> f[8] % 2 == 1
    ensures SaneSegment(f) ==> SegmentBytes(f) == Content(f)
  {
  }

  /** The upload succeeds if and only if the last segment comes, and then it holds the
      contents of all segments behind `acc`. */
  ghost predicate Gathers(replies: seq<Outcome>, acc: seq<byte>, u: Upload)
    requires SaneReplies(replies)
  {
    && (u.done && u.wkc > 0 <==> exists n: nat :: EndsAt(replies, n))
    && forall n: nat :: EndsAt(replies, n) ==> GathersTo(replies, acc, u, n)
  }

  ghost predicate GathersTo(replies: seq<Outcome>, acc: seq<byte>, u: Upload, n: nat)
    requires SaneReplies(replies) && n < |replies|
  {
    var all := acc + Contents(replies, n + 1);
    u == Upload(true, Wkc(replies[n]), all, |all|)
  }

  /** Main result.  A segmented upload succeeds if and only if the last segment comes
      before any answer that is not a segment. */
  lemma {:induction false} CollectMeans(replies: seq<Outcome>, acc: seq<byte>, wkc: int)
    requires SaneReplies(replies)
    ensures Gathers(replies, acc, Collect(replies, acc, wkc))
    decreases |replies|
  {
    hide IsSegment, Content, SaneSegment, SegmentReply, IsLast, SegmentBytes, SegmentSize, Gathers, Contents, EndsAt;
    if replies == [] {
      NeverEnds(replies, acc, Collect(replies, acc, wkc));
    } else {
      var o, rest := replies[0], replies[1..];
      if o.Answered? {
        SegmentMeans(o.reply);
      }
      OneReply(replies, acc, wkc);
      if Continues(o) {
        var more := if o.Answered? then acc + Content(o.reply) else acc;
        CollectMeans(rest, more, Wkc(o));
        EndsWithRest(replies, acc, more, Collect(rest, more, Wkc(o)));
      } else if o.Answered? && IsSegment(o.reply) {
        EndsAtOnce(replies, acc, Collect(replies, acc, wkc));
      } else {
        NeverEnds(replies, acc, Collect(replies, acc, wkc));
      }
    }
  }

  /** The first exchange of a collection. */
  lemma OneReply(replies: seq<Outcome>, acc: seq<byte>, wkc: int)
    requires SaneReplies(replies) && replies != []
    ensures var u, o := Collect(replies, acc, wkc), replies[0];
            u == if !o.Answered? then Collect(replies[1..], acc, Wkc(o))
                 else if !SegmentReply(o.reply) then Upload(true, 0, acc, |acc|)
                 else
                   var more := acc + SegmentBytes(o.reply);
                   if IsLast(o.reply) then Upload(true, Wkc(o), more, |more|) else Collect(replies[1..], more, Wkc(o))
  {
    hide SegmentReply, IsLast, SaneSegment;
  }

  lemma NeverEnds(replies: seq<Outcome>, acc: seq<byte>, u: Upload)
    requires SaneReplies(replies) && !(u.done && u.wkc > 0)
    requires replies != [] ==> !Continues(replies[0]) && !(replies[0].Answered? && IsSegment(replies[0].reply))
    ensures Gathers(replies, acc, u)
  {
    hide Continues, IsSegment;
    forall n: nat | EndsAt(replies, n)
      ensures false
    {
      EndsFirst(replies, n);
    }
  }

  lemma EndsFirst(replies: seq<Outcome>, n: nat)
    requires EndsAt(replies, n)
    ensures replies != []
    ensures if n == 0 then replies[0].Answered? && IsSegment(replies[0].reply) else Continues(replies[0])
  {
    hide Continues, IsSegment;
  }

  lemma EndsAtOnce(replies: seq<Outcome>, acc: seq<byte>, u: Upload)
    requires SaneReplies(replies) && replies != [] && !Continues(replies[0])
    requires replies[0].Answered? && IsSegment(replies[0].reply)
    requires var all := acc + Content(replies[0].reply); u == Upload(true, Wkc(replies[0]), all, |all|)
    ensures Gathers(replies, acc, u)
  {
    hide IsSegment, Content;
    assert Contents(replies, 0) == [] && Contents(replies, 1) == Content(replies[0].reply);
    assert EndsAt(replies, 0);
    forall n: nat | EndsAt(replies, n)
      ensures n == 0
    {
      EndsFirst(replies, n);
    }
  }

  lemma EndsWithRest(replies: seq<Outcome>, acc: seq<byte>, more: seq<byte>, u: Upload)
    requires SaneReplies(replies) && replies != [] && Continues(replies[0])
    requires more == if replies[0].Answered? then acc + Content(replies[0].reply) else acc
    requires SaneReplies(replies[1..]) && Gathers(replies[1..], more, u)
    ensures Gathers(replies, acc, u)
  {
    hide IsSegment, Content, EndsAt, GathersTo, Contents;
    var rest := replies[1..];
    forall n: nat
      ensures EndsAt(replies, n) <==> n > 0 && EndsAt(rest, n - 1)
      ensures EndsAt(replies, n) ==> n < |replies| && GathersTo(replies, acc, u, n)
    {
      EndsLater(replies, n);
      EndsInside(replies, n);
      if EndsAt(replies, n) {
        EndsInside(rest, n - 1);
        GathersLater(replies, acc, more, u, n);
      }
    }
    forall n: nat | EndsAt(rest, n)
      ensures EndsAt(replies, n + 1)
    {
      EndsLater(replies, n + 1);
    }
  }

  lemma GathersLater(replies: seq<Outcome>, acc: seq<byte>, more: seq<byte>, u: Upload, n: nat)
    requires 0 < n < |replies| && SaneReplies(replies) && SaneReplies(replies[1..]) && Continues(replies[0])
    requires more == if replies[0].Answered? then acc + Content(replies[0].reply) else acc
    requires GathersTo(replies[1..], more, u, n - 1)
    ensures GathersTo(replies, acc, u, n)
  {
    hide IsSegment, Content, Contents, SaneReplies;
    ContentsFirst(replies, n + 1);
    ContentsOne(replies);
    assert acc + Contents(replies, n + 1) == more + Contents(replies[1..], n);
  }

  lemma EndsInside(replies: seq<Outcome>, n: nat)
    ensures EndsAt(replies, n) ==> n < |replies|
  {
  }

  lemma ContentsOne(replies: seq<Outcome>)
    requires SaneReplies(replies) && replies != []
    ensures Contents(replies[..1], 1)
      == if replies[0].Answered? && IsSegment(replies[0].reply) then Content(replies[0].reply) else []
  {
    assert Contents(replies[..1], 0) == [];
  }

  lemma EndsLater(replies: seq<Outcome>, n: nat)
    requires replies != [] && Continues(replies[0])
    ensures EndsAt(replies, n) <==> n > 0 && EndsAt(replies[1..], n - 1)
  {
    hide Continues, IsSegment;
    var rest := replies[1..];
    if n > 0 {
      assert forall k :: 0 <= k < |rest| ==> rest[k] == replies[k + 1];
      if EndsAt(rest, n - 1) {
        forall k | 0 <= k < n
          ensures Continues(replies[k])
        {
          assert k > 0 ==> Continues(rest[k - 1]);
        }
      }
    } else {
      NotBoth(replies[0]);
    }
  }

  lemma NotBoth(o: Outcome)
    requires Continues(o)
    ensures !(o.Answered? && IsSegment(o.reply) && o.reply[8] % 2 == 1)
  {
  }

  /** The response to an upload request for the index. */
  predicate IsUpload(first: Outcome, index: word) {
    first.Answered? && IsResponse(first.reply) && Word(first.reply, 9) == index
  }

  /** An expedited response holds one to four bytes, a normal one announces its size. */
  function Announced(f: Mbx): nat {
    if f[8] / 2 % 2 == 1 then 4 - f[8] / 4 % 4 else Long(f, 12)
  }

  /** A normal response with less than it announces: segments are to follow. */
  predicate Segmented(f: Mbx) {
    f[8] / 2 % 2 == 0 && Word(f, 0) < 10 + Long(f, 12)
  }

  /** Main result.  An upload succeeds if and only if the first answer is a response for
      the index, what it announces fits the buffer, and, where segments are needed, the
      last one comes before any other answer; then the buffer holds the data of the
      response, or the first part and all segments.  Until then the size stays. */
  lemma UploadSucceeds(first: Outcome, replies: seq<Outcome>, index: word, psize: nat)
    requires (first.Answered? ==> SaneInit(first.reply)) && SaneReplies(replies)
    ensures var u := Uploaded(first, replies, index, psize);
            && (u.done && u.wkc > 0 <==>
                && IsUpload(first, index) && Announced(first.reply) <= psize
                && (Segmented(first.reply) ==> exists n: nat :: EndsAt(replies, n)))
            && (IsUpload(first, index) && Announced(first.reply) <= psize ==>
                  UploadHolds(first.reply, first.wkc, replies, u))
            && (!(IsUpload(first, index) && Announced(first.reply) <= psize) ==>
                  u == Upload(true, if first.Answered? then 0 else Wkc(first), [], psize))
  {
    hide Collect, EndsAt, SaneReplies, Word, Long;
    if first.Answered? {
      var f := first.reply;
      if f[8] / 2 % 2 == 0 {
        CollectMeans(replies, f[16..Word(f, 0) + 6], first.wkc);
      }
    }
  }

  ghost predicate UploadHolds(f: Mbx, wkc: int, replies: seq<Outcome>, u: Upload)
    requires SaneInit(f) && SaneReplies(replies)
  {
    var n := Announced(f);
    if f[8] / 2 % 2 == 1 then u == Upload(true, wkc, f[12..12 + n], n)
    else if Segmented(f) then Gathers(replies, f[16..Word(f, 0) + 6], u)
    else u == Upload(true, wkc, f[16..16 + n], n)
  }

  /** The answers that a download accepts, in the fields of the mailbox. */
  lemma AcksMean(f: Mbx, index: word, sub: byte)
    ensures InitAck(f, index, sub) <==> IsResponse(f) && Word(f, 9) == index && f[11] == sub
    ensures SegAck(f) <==> IsResponse(f) && 0x20 <= f[8] < 0x40
  {
  }

  // ----- how a download ends -----

  lemma {:induction false} SegmentsStop(slave: nat -> Outcome, k: nat, n: nat, count: nat)
    requires 1 <= k <= n <= count && forall j :: k <= j < n ==> !Refuses(slave(j))
    ensures Refuses(slave(n)) ==> SegmentsEnd(slave, k, count) == (0, n)
    ensures !Refuses(slave(n)) && n == count ==> SegmentsEnd(slave, k, count) == (Wkc(slave(n)), n)
    decreases n - k
  {
    if k < n {
      SegmentsStop(slave, k + 1, n, count);
    }
  }

  /** Main result.  A download ends with the first frame that is refused, with result 0;
      if none is, all frames are sent, and the result is that of the last exchange. */
  lemma DownloadStops(slave: nat -> Outcome, count: nat, index: word, sub: byte, n: nat)
    requires n < count
    requires n > 0 ==> slave(0).Answered? && InitAck(slave(0).reply, index, sub)
    requires forall j :: 1 <= j < n ==> !Refuses(slave(j))
    ensures var refused := slave(n).Answered? && !(if n == 0 then InitAck(slave(0).reply, index, sub)
                                                   else SegAck(slave(n).reply));
            && (refused ==> DownloadEnd(slave, count, index, sub) == (0, n + 1))
            && (!refused && n == count - 1 ==> DownloadEnd(slave, count, index, sub) == (Wkc(slave(n)), count))
            && (n == 0 && !slave(0).Answered? ==> DownloadEnd(slave, count, index, sub) == (Wkc(slave(0)), 1))
  {
    hide InitAck, SegAck;
    if n > 0 {
      SegmentsStop(slave, 1, n, count - 1);
    }
  }

  /** The first frame of a download, in the fields of the mailbox: a request for the
      object, expedited with the number of unused bytes, or normal with the whole size. */
  lemma FirstFrameMeans(frames: seq<Mbx>, index: word, sub: byte, ca: bool, p: seq<byte>, mbxl: nat)
    requires 16 <= mbxl <= MAX_MBX && Download(frames, index, sub, ca, p, mbxl)
    ensures var f := frames[0];
            && f[5] % 0x10 == 3 && Word(f, 6) / 0x1000 == 2 && Word(f, 9) == index
            && f[11] == (if ca && sub > 1 then 1 else sub)
            && if |p| <= 4 && !ca then f[8] == if p == [] then 0x23 else 0x33 - 4 * |p|
               else f[8] == (if ca then 0x31 else 0x21) && Long(f, 12) == |p|
  {
    hide Segments, Word, Long;
  }
}
