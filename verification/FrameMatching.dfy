/** Matching answers to requests when several threads share the frame buffers: all
    interleavings of allocating, sending, losing, reading and releasing. */
module FrameMatching {
  import opened EtherCat
  import opened Nic
  import opened Options

  /** The shared buffers, who holds each index, what was last sent with it and by
      whom, and the answers still on the wire. */
  datatype Sys = Sys(rx: Rx, lastidx: nat, owner: seq<Option<nat>>, sent: seq<nat>, sender: seq<nat>,
                     flying: multiset<Packet>)

  /** The atomic actions.  The receive function looks at the buffer status before it
      takes the lock, so taking a stored frame and reading the socket are separate. */
  datatype Step =
    | Alloc(thread: nat)
    | Send(idx: nat, answer: Packet)
    | Lose(packet: Packet)
    | Take(idx: nat)
    | Read(idx: nat, arrival: Option<Packet>)
    | Release(idx: nat)

  function Next(s: Sys, step: Step): (t: Sys)
    requires Shape(s) && Enabled(s, step)
    ensures Shape(t)
  {
    match step
    case Alloc(t) =>
      var i := NextIndex(s.rx.stat, s.lastidx);
      s.(rx := s.rx.(stat := s.rx.stat[i := BufAlloc]), lastidx := i, owner := s.owner[i := Some(t)])
    case Send(i, p) =>
      s.(rx := s.rx.(stat := s.rx.stat[i := BufTx]), sent := s.sent[i := p.body.serial],
         sender := s.sender[i := s.owner[i].value], flying := s.flying + multiset{p})
    case Lose(p) => s.(flying := s.flying - multiset{p})
    case Take(i) => s.(rx := s.rx.(stat := s.rx.stat[i := BufComplete]))
    case Read(i, arrival) =>
      s.(rx := Received(s.rx, i, arrival),
         flying := if arrival.Some? then s.flying - multiset{arrival.value} else s.flying)
    case Release(i) => s.(rx := s.rx.(stat := s.rx.stat[i := BufEmpty]), owner := s.owner[i := None])
  }

  predicate Shape(s: Sys) {
    ValidRx(s.rx) && s.lastidx < MAX_BUF && |s.owner| == |s.sent| == |s.sender| == MAX_BUF
  }

  predicate Held(s: Sys, i: nat)
    requires Shape(s)
  {
    i < MAX_BUF && s.owner[i].Some?
  }

  /** An index under which a request is out. */
  predicate Busy(b: BufStat) {
    b == BufTx || b == BufRcvd || b == BufComplete
  }

  /** No answer to an earlier frame with this index is still on the wire. */
  ghost predicate NoneStale(s: Sys, i: nat, serial: nat) {
    forall q :: q in s.flying && q.index == i ==> q.body.serial == serial
  }

  /** Traffic that does not answer anything the master sent. */
  predicate Junk(p: Packet) {
    !p.ethercat || p.index >= MAX_BUF
  }

  /** What callers do: at most 16 requests at a time, only holders send, wait and
      release, they wait only for what they sent, and sending succeeds. */
  ghost predicate Enabled(s: Sys, step: Step)
    requires Shape(s)
  {
    match step
    case Alloc(t) => exists e :: 0 <= e < MAX_BUF && s.rx.stat[e] == BufEmpty
    case Send(i, p) => Held(s, i) && p.ethercat && p.index == i
    case Lose(p) => p in s.flying
    case Take(i) => Held(s, i) && s.rx.stat[i] == BufRcvd
    case Read(i, arrival) =>
      && Held(s, i) && Busy(s.rx.stat[i])
      && (arrival.Some? ==> arrival.value in s.flying || Junk(arrival.value))
    case Release(i) => Held(s, i)
  }

  /** The index a step answers with a working counter, if any. */
  predicate Answers(step: Step, i: nat) {
    match step
    case Take(j) => i == j
    case Read(j, arrival) => i == j && arrival.Some? && arrival.value.ethercat && arrival.value.index == i
    case _ => false
  }

  /** What holds of one index: it is free exactly when nobody holds it, and a request
      under it is its holder's. */
  ghost predicate IndexInv(s: Sys, i: nat)
    requires Shape(s) && i < MAX_BUF
  {
    && (s.rx.stat[i] == BufEmpty <==> s.owner[i] == None)
    && (Busy(s.rx.stat[i]) ==> s.owner[i] == Some(s.sender[i]))
  }

  ghost predicate Inv(s: Sys) {
    && Shape(s)
    && (forall q :: q in s.flying ==> q.ethercat && q.index < MAX_BUF)
    && forall i :: 0 <= i < MAX_BUF ==> IndexInv(s, i)
  }

  /** A stored answer under index i, and every one on the wire, is to what was last sent
      with it. */
  ghost predicate Matched(s: Sys, i: nat)
    requires Shape(s) && i < MAX_BUF
  {
    && (s.rx.stat[i] == BufRcvd || s.rx.stat[i] == BufComplete ==> s.rx.buf[i].serial == s.sent[i])
    && NoneStale(s, i, s.sent[i])
  }

  /** Index i is not used for a new frame while answers to an old one are on the wire. */
  ghost predicate NotReused(s: Sys, step: Step, i: nat) {
    step.Send? && step.idx == i ==> NoneStale(s, i, step.answer.body.serial)
  }

  ghost predicate Init(s: Sys) {
    && Shape(s) && s.flying == multiset{}
    && forall i :: 0 <= i < MAX_BUF ==> s.rx.stat[i] == BufEmpty && s.owner[i] == None
  }

  lemma InvStepAt(s: Sys, step: Step, j: nat)
    requires Inv(s) && Enabled(s, step) && j < MAX_BUF
    ensures IndexInv(Next(s, step), j)
  {
    hide Search, NextIndex;
    assert IndexInv(s, j);
    if step.Alloc? {
      BusyOnlyWhenFull(s.rx.stat, s.lastidx);
    }
  }

  /** Every step keeps who holds what. */
  lemma InvStep(s: Sys, step: Step)
    requires Inv(s) && Enabled(s, step)
    ensures Inv(Next(s, step))
  {
    hide IndexInv;
    forall j | 0 <= j < MAX_BUF
      ensures IndexInv(Next(s, step), j)
    {
      InvStepAt(s, step, j);
    }
  }

  /** And every one that does not reuse index i too early keeps its answers matched. */
  lemma MatchedStep(s: Sys, step: Step, i: nat)
    requires Inv(s) && Enabled(s, step) && i < MAX_BUF && Matched(s, i) && NotReused(s, step, i)
    ensures Matched(Next(s, step), i)
  {
    hide Search, NextIndex, IndexInv;
    match step
    case Read(j, arrival) => ReadMatched(s, j, arrival, i);
    case Alloc(_) => BusyOnlyWhenFull(s.rx.stat, s.lastidx);
    case Send(_, _) =>
    case Lose(_) =>
    case Take(_) =>
    case Release(_) =>
  }

  lemma ReadMatched(s: Sys, j: nat, arrival: Option<Packet>, i: nat)
    requires Inv(s) && Enabled(s, Read(j, arrival)) && i < MAX_BUF && Matched(s, i)
    ensures Matched(Next(s, Read(j, arrival)), i)
  {
    hide IndexInv;
    var u := Next(s, Read(j, arrival));
    assert forall q :: q in u.flying ==> q in s.flying;
    if arrival.Some? && arrival.value.ethercat && arrival.value.index == i {
      assert arrival.value in s.flying;
    }
  }

  // ----- whole runs -----

  ghost predicate Run(s: Sys, steps: seq<Step>, t: Sys)
    decreases |steps|
  {
    && Shape(s) && Shape(t)
    && if steps == [] then s == t
       else Enabled(s, steps[0]) && Run(Next(s, steps[0]), steps[1..], t)
  }

  lemma {:induction false} InvRun(s: Sys, steps: seq<Step>, t: Sys)
    requires Inv(s) && Run(s, steps, t)
    ensures Inv(t)
    decreases |steps|
  {
    hide Inv;
    if steps != [] {
      InvStep(s, steps[0]);
      InvRun(Next(s, steps[0]), steps[1..], t);
    }
  }

  /** No step of a run reuses index i too early. */
  ghost predicate NeverReused(s: Sys, steps: seq<Step>, i: nat)
    decreases |steps|
  {
    steps != [] ==>
      && NotReused(s, steps[0], i)
      && (Shape(s) && Enabled(s, steps[0]) ==> NeverReused(Next(s, steps[0]), steps[1..], i))
  }

  lemma {:induction false} MatchedRun(s: Sys, steps: seq<Step>, t: Sys, i: nat)
    requires Inv(s) && Run(s, steps, t) && i < MAX_BUF && Shape(s) && Shape(t)
    requires Matched(s, i) && NeverReused(s, steps, i)
    ensures Matched(t, i)
    decreases |steps|
  {
    hide Inv, Matched, NotReused;
    if steps != [] {
      InvStep(s, steps[0]);
      MatchedStep(s, steps[0], i);
      MatchedRun(Next(s, steps[0]), steps[1..], t, i);
    }
  }

  /** Main result.  In every run from empty buffers that does not reuse an index too
      early, whatever is done with the others, a waiter that gets a counter for the index
      finds in the buffer the answer to the frame it last sent with it. */
  lemma WaiterSeesItsAnswer(s: Sys, steps: seq<Step>, t: Sys, step: Step, i: nat)
    requires Init(s) && Run(s, steps, t) && Shape(t) && i < MAX_BUF && NeverReused(s, steps, i)
    requires Enabled(t, step) && Answers(step, i)
    ensures var u := Next(t, step);
            && u.rx.buf[i].serial == t.sent[i] && u.rx.stat[i] == BufComplete
            && t.owner[i] == Some(t.sender[i])
  {
    InitInv(s, i);
    InvRun(s, steps, t);
    MatchedRun(s, steps, t, i);
    assert IndexInv(t, i);
  }

  lemma InitInv(s: Sys, i: nat)
    requires Init(s) && i < MAX_BUF
    ensures Inv(s) && Matched(s, i)
  {
  }

  /** In every run, the index handed out is held by nobody, and afterwards by the
      thread that asked; nobody else gains or loses one. */
  lemma IndexHandedOutIsFree(s: Sys, steps: seq<Step>, t: Sys, thread: nat)
    requires Init(s) && Run(s, steps, t) && Shape(t) && Enabled(t, Alloc(thread))
    ensures var i := NextIndex(t.rx.stat, t.lastidx);
            && t.owner[i] == None && Next(t, Alloc(thread)).owner[i] == Some(thread)
            && forall j :: 0 <= j < MAX_BUF && j != i ==> Next(t, Alloc(thread)).owner[j] == t.owner[j]
  {
    InitInv(s, 0);
    InvRun(s, steps, t);
    BusyOnlyWhenFull(t.rx.stat, t.lastidx);
    assert IndexInv(t, NextIndex(t.rx.stat, t.lastidx));
  }

  /** An arrival for an index with a request out is stored, whoever reads it. */
  lemma ArrivalStored(s: Sys, i: nat, p: Packet)
    requires Inv(s) && Enabled(s, Read(i, Some(p))) && p in s.flying && s.rx.stat[p.index] == BufTx
    ensures var u := Next(s, Read(i, Some(p)));
            u.rx.buf[p.index] == p.body && u.rx.stat[p.index] == if p.index == i then BufComplete else BufRcvd
  {
  }

  /** The holder's own actions on an index. */
  predicate ByHolder(step: Step, i: nat) {
    match step
    case Send(j, _) => i == j
    case Take(j) => i == j
    case Read(j, _) => i == j
    case Release(j) => i == j
    case _ => false
  }

  lemma StoredKeptStep(s: Sys, step: Step, i: nat)
    requires Inv(s) && Enabled(s, step) && i < MAX_BUF && s.rx.stat[i] == BufRcvd && !ByHolder(step, i)
    ensures var u := Next(s, step); u.rx.stat[i] == BufRcvd && u.rx.buf[i] == s.rx.buf[i] && u.sent[i] == s.sent[i]
  {
    if step.Alloc? {
      BusyOnlyWhenFull(s.rx.stat, s.lastidx);
    }
  }

  /** Once stored, it stays until the holder of the index acts, through any number of
      actions of the others. */
  lemma {:induction false} StoredKept(s: Sys, steps: seq<Step>, t: Sys, i: nat)
    requires Inv(s) && Run(s, steps, t) && Shape(t) && i < MAX_BUF && s.rx.stat[i] == BufRcvd
    requires forall k :: 0 <= k < |steps| ==> !ByHolder(steps[k], i)
    ensures t.rx.stat[i] == BufRcvd && t.rx.buf[i] == s.rx.buf[i] && t.sent[i] == s.sent[i]
    decreases |steps|
  {
    if steps != [] {
      InvStep(s, steps[0]);
      StoredKeptStep(s, steps[0], i);
      StoredKept(Next(s, steps[0]), steps[1..], t, i);
    }
  }

  // ----- why the conditions are needed -----

  /** Reading for index i can yield a foreign answer exactly when one is in flight. */
  lemma ForeignAnswerIffStale(s: Sys, i: nat)
    requires Inv(s) && Held(s, i) && Busy(s.rx.stat[i])
    ensures (exists a: Option<Packet> ::
               Enabled(s, Read(i, a)) && Answers(Read(i, a), i) && Next(s, Read(i, a)).rx.buf[i].serial != s.sent[i])
      <==> !NoneStale(s, i, s.sent[i])
  {
    if !NoneStale(s, i, s.sent[i]) {
      var q :| q in s.flying && q.index == i && q.body.serial != s.sent[i];
      assert Enabled(s, Read(i, Some(q))) && Answers(Read(i, Some(q)), i);
    }
  }

  /** A send that fails marks the index empty although it is still held.  The next
      allocation gives it to a second thread exactly when no empty index comes before it
      in cyclic order. */
  lemma FailedSendSharesIndex(s: Sys, i: nat)
    requires Inv(s) && Held(s, i)
    ensures var failed := s.(rx := s.rx.(stat := s.rx.stat[i := BufEmpty]));
            var from := if s.lastidx + 1 >= MAX_BUF then 0 else s.lastidx + 1;
            && failed.owner[i].Some?
            && (NextIndex(failed.rx.stat, failed.lastidx) == i
                <==> forall j :: 0 <= j < MAX_BUF && Steps(from, j) < Steps(from, i) ==> s.rx.stat[j] != BufEmpty)
  {
    hide IndexInv, Search;
    var stat, from := s.rx.stat[i := BufEmpty], if s.lastidx + 1 >= MAX_BUF then 0 else s.lastidx + 1;
    FirstEmpty(stat, from, MAX_BUF, i);
    assert forall j :: 0 <= j < MAX_BUF && Steps(from, j) < Steps(from, i) ==> stat[j] == s.rx.stat[j];
  }

  /** A request that is sent can always be answered: its answer is on the wire, the holder
      may read it and then has it, and it is on the wire no more; nor is it once lost. */
  lemma SentCanBeAnswered(s: Sys, i: nat, p: Packet)
    requires Shape(s) && Enabled(s, Send(i, p))
    ensures var t := Next(s, Send(i, p));
            && t.sent[i] == p.body.serial && s.owner[i] == Some(t.sender[i]) && t.rx.stat[i] == BufTx
            && Enabled(t, Read(i, Some(p))) && Enabled(t, Lose(p))
            && Next(t, Lose(p)) == t.(flying := s.flying)
            && var u := Next(t, Read(i, Some(p)));
               u.rx.buf[i] == p.body && u.rx.stat[i] == BufComplete && u.flying == s.flying
  {
    var t := Next(s, Send(i, p));
    assert t.flying - multiset{p} == s.flying;
  }
}
