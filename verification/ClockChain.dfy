/** The chain of clock slaves threaded through the slave list. */
module ClockChain {
  import opened Topology
  import opened DistributedClocks

  /** The last clock slave before number i, 0 if there is none. */
  function PrevClock(list: seq<Slave>, i: nat): (p: nat)
    requires 1 <= i <= |list|
    ensures p < i
    ensures p > 0 ==> list[p].hasdc
    ensures forall k :: p < k < i ==> !list[k].hasdc
  {
    if i == 1 then 0 else if list[i - 1].hasdc then i - 1 else PrevClock(list, i - 1)
  }

  /** `next` and `previous` links agree for the clock slaves before number i, the
      master record standing at the head of the chain.  All other `next` links are
      as they were in `before`. */
  ghost predicate Chained(before: seq<Slave>, list: seq<Slave>, i: nat)
    requires 1 <= i <= |list| == |before|
  {
    && (list[0].hasdc <==> PrevClock(list, i) > 0)
    && (forall k :: 1 <= k < i && list[k].hasdc ==>
          list[k].dcPrevious == PrevClock(list, k) && list[PrevClock(list, k)].dcNext == k)
    && forall k :: 0 <= k < |list| && ((k > 0 && !list[k].hasdc) || k >= PrevClock(list, i)) ==>
         list[k].dcNext == before[k].dcNext
  }

  /** The only columns the chain depends on. */
  ghost predicate SameClocks(a: seq<Slave>, b: seq<Slave>) {
    |a| == |b| && forall k :: 1 <= k < |a| ==> a[k].hasdc == b[k].hasdc
  }

  lemma SamePrevClock(a: seq<Slave>, b: seq<Slave>, i: nat)
    requires SameClocks(a, b) && 1 <= i <= |a|
    ensures PrevClock(a, i) == PrevClock(b, i)
  {
  }

  lemma NextPrevClock(list: seq<Slave>, i: nat)
    requires 1 <= i < |list|
    ensures PrevClock(list, i + 1) == if list[i].hasdc then i else PrevClock(list, i)
  {
  }

  /** What a slave that is not a clock changes of the chain, and what a clock slave. */
  ghost predicate SameLinks(a: seq<Slave>, b: seq<Slave>) {
    && SameClocks(a, b) && a != [] && b[0].hasdc == a[0].hasdc
    && forall k :: 0 <= k < |a| ==> b[k].dcNext == a[k].dcNext && b[k].dcPrevious == a[k].dcPrevious
  }

  ghost predicate LinkedIn(a: seq<Slave>, b: seq<Slave>, from: nat, i: nat)
    requires i < |a|
  {
    && SameClocks(a, b) && b[0].hasdc && b[i].dcPrevious == from
    && forall k :: 0 <= k < |a| ==>
         && b[k].dcNext == (if k == from then i else a[k].dcNext)
         && (k != i ==> b[k].dcPrevious == a[k].dcPrevious)
  }

  lemma StepLinks(r: Run, regs: seq<Stamps>, i: nat)
    requires Sound(r, regs, i) && i < |regs|
    ensures var s := Step(r, regs, i);
            if r.list[i].hasdc then LinkedIn(r.list, s.list, if r.list[0].hasdc then r.prev else 0, i) && s.prev == i
            else SameLinks(r.list, s.list) && s.prev == r.prev
  {
    hide Earliest, PortList, Delay, OpenPort, Ancestor, ValidWiring;
  }

  lemma NotAClock(before: seq<Slave>, a: seq<Slave>, b: seq<Slave>, i: nat)
    requires 1 <= i < |a| == |before| && !a[i].hasdc && Chained(before, a, i) && SameLinks(a, b)
    ensures Chained(before, b, i + 1) && PrevClock(b, i + 1) == PrevClock(a, i)
  {
    hide PrevClock;
    NextPrevClock(b, i);
    SamePrevClock(a, b, i);
    forall k | 1 <= k < i + 1 && b[k].hasdc
      ensures b[k].dcPrevious == PrevClock(b, k) && b[PrevClock(b, k)].dcNext == k
    {
      SamePrevClock(a, b, k);
    }
  }

  lemma AClock(before: seq<Slave>, a: seq<Slave>, b: seq<Slave>, i: nat)
    requires 1 <= i < |a| == |before| && a[i].hasdc && Chained(before, a, i)
    requires LinkedIn(a, b, if a[0].hasdc then PrevClock(a, i) else 0, i)
    ensures Chained(before, b, i + 1) && PrevClock(b, i + 1) == i
  {
    hide PrevClock;
    NextPrevClock(b, i);
    SamePrevClock(a, b, i);
    forall k | 1 <= k < i + 1 && b[k].hasdc
      ensures b[k].dcPrevious == PrevClock(b, k) && b[PrevClock(b, k)].dcNext == k
    {
      SamePrevClock(a, b, k);
      if k < i {
        EarlierPrev(a, k, i);
      }
    }
  }

  /** The clock before k is not the one before a later clock. */
  lemma EarlierPrev(list: seq<Slave>, k: nat, i: nat)
    requires 1 <= k < i <= |list| && list[k].hasdc
    ensures PrevClock(list, k) < k <= PrevClock(list, i)
  {
  }

  lemma StepChains(before: seq<Slave>, r: Run, regs: seq<Stamps>, i: nat)
    requires Sound(r, regs, i) && i < |regs| == |before|
    requires Chained(before, r.list, i) && r.prev == PrevClock(r.list, i)
    ensures var s := Step(r, regs, i);
            |s.list| == |before| && Chained(before, s.list, i + 1) && s.prev == PrevClock(s.list, i + 1)
  {
    hide Step, Chained, PrevClock, LinkedIn, SameLinks;
    StepLinks(r, regs, i);
    ChainHead(before, r.list, i);
    var s := Step(r, regs, i);
    if r.list[i].hasdc {
      AClock(before, r.list, s.list, i);
    } else {
      NotAClock(before, r.list, s.list, i);
    }
  }

  lemma ChainHead(before: seq<Slave>, list: seq<Slave>, i: nat)
    requires 1 <= i <= |list| == |before| && Chained(before, list, i)
    ensures list[0].hasdc || PrevClock(list, i) == 0
  {
  }

  lemma {:induction false} StepsChain(before: seq<Slave>, r: Run, regs: seq<Stamps>, i: nat)
    requires Sound(r, regs, i) && |before| == |regs|
    requires Chained(before, r.list, i) && r.prev == PrevClock(r.list, i)
    ensures Chained(before, Steps(r, regs, i, |regs|).list, |regs|)
    ensures SameClocks(r.list, Steps(r, regs, i, |regs|).list)
    decreases |regs| - i
  {
    hide Step, Chained, PrevClock, LinkedIn;
    if i < |regs| {
      StepChains(before, r, regs, i);
      StepsChain(before, Step(r, regs, i), regs, i + 1);
      LinksKeepClocks(r, regs, i);
    }
  }

  lemma LinksKeepClocks(r: Run, regs: seq<Stamps>, i: nat)
    requires Sound(r, regs, i) && i < |regs|
    ensures SameClocks(r.list, Step(r, regs, i).list)
  {
    hide Step;
    StepLinks(r, regs, i);
  }

  /** The slaves visited by following the `next` links from entry `at`. */
  function Follow(list: seq<Slave>, at: nat): seq<nat>
    requires at < |list|
    decreases |list| - at
  {
    var next := list[at].dcNext;
    if at < next < |list| then [next] + Follow(list, next) else []
  }

  /** The clock slaves from number i on. */
  function ClocksFrom(list: seq<Slave>, i: nat): seq<nat>
    requires i <= |list|
    decreases |list| - i
  {
    if i == |list| then [] else (if list[i].hasdc then [i] else []) + ClocksFrom(list, i + 1)
  }

  lemma {:induction false} FollowChain(before: seq<Slave>, list: seq<Slave>, i: nat)
    requires 1 <= i <= |list| == |before| && Chained(before, list, |list|)
    requires forall k :: 0 <= k < |before| ==> before[k].dcNext == 0
    ensures Follow(list, PrevClock(list, i)) == ClocksFrom(list, i)
    decreases |list| - i
  {
    hide PrevClock, Chained, Follow;
    if i == |list| {
      LastLink(before, list);
    } else {
      NextPrevClock(list, i);
      FollowChain(before, list, i + 1);
      if list[i].hasdc {
        NextLink(before, list, i);
      }
    }
  }

  lemma NextLink(before: seq<Slave>, list: seq<Slave>, i: nat)
    requires 1 <= i < |list| == |before| && Chained(before, list, |list|) && list[i].hasdc
    ensures Follow(list, PrevClock(list, i)) == [i] + Follow(list, i)
  {
    hide PrevClock;
  }

  lemma LastLink(before: seq<Slave>, list: seq<Slave>)
    requires 1 <= |list| == |before| && Chained(before, list, |list|)
    requires forall k :: 0 <= k < |before| ==> before[k].dcNext == 0
    ensures Follow(list, PrevClock(list, |list|)) == []
  {
    hide PrevClock;
  }

  lemma {:induction false} SameClocksFrom(a: seq<Slave>, b: seq<Slave>, i: nat)
    requires SameClocks(a, b) && 1 <= i <= |a|
    ensures ClocksFrom(a, i) == ClocksFrom(b, i)
    decreases |a| - i
  {
    if i < |a| {
      SameClocksFrom(a, b, i + 1);
    }
  }

  lemma StartOfChain(before: seq<Slave>, list: seq<Slave>)
    requires 1 <= |list| == |before| && !list[0].hasdc
    requires forall k :: 0 <= k < |list| ==> list[k].dcNext == before[k].dcNext
    ensures PrevClock(list, 1) == 0 && Chained(before, list, 1)
  {
  }

  /** For every slave list: the links of the clock slaves agree both ways and no other
      `next` link is touched.  In a list without old links, following them from the
      master record visits exactly the clock slaves, in order. */
  lemma ClockSlavesChained(list: seq<Slave>, regs: seq<Stamps>)
    requires 1 <= |list| == |regs| && ValidWiring(list)
    ensures var done := Configured(list, regs);
            && |done| == |list| && Chained(list, done, |list|)
            && ((forall k :: 0 <= k < |list| ==> list[k].dcNext == 0) ==> Follow(done, 0) == ClocksFrom(list, 1))
  {
    hide PrevClock, Chained, Step, Follow, ClocksFrom;
    var start := list[0 := list[0].(hasdc := false)];
    StartOfChain(list, start);
    StepsChain(list, Run(start, 0, 0), regs, 1);
    var done := Configured(list, regs);
    SamePrevClock(start, done, 1);
    SameClocksFrom(list, done, 1);
    if forall k :: 0 <= k < |list| ==> list[k].dcNext == 0 {
      FollowChain(list, done, 1);
    }
  }

  // ----- the other fields -----

  /** Place of a port in the order in which entry ports are looked for. */
  function Turn(p: Port): nat {
    match p
    case 0 => 0
    case 3 => 1
    case 1 => 2
    case _ => 3
  }

  /** The entry port is the active port with the earliest time; among equal ones the first
      in the order 0, 3, 1, 2. */
  ghost predicate IsEntry(e: Port, active: set<Port>, s: Stamps) {
    && e in active
    && forall p: Port :: p in active ==>
         PortTime(s, e) <= PortTime(s, p) && (PortTime(s, e) == PortTime(s, p) ==> Turn(e) <= Turn(p))
  }

  lemma {:induction false} EarliestOf(ports: seq<Port>, s: Stamps)
    requires ports != [] && forall j, k :: 0 <= j < k < |ports| ==> Turn(ports[j]) < Turn(ports[k])
    ensures var e := Earliest(ports, s);
            && e in ports
            && forall p :: p in ports ==>
                 PortTime(s, e) <= PortTime(s, p) && (PortTime(s, e) == PortTime(s, p) ==> Turn(e) <= Turn(p))
    decreases |ports|
  {
    hide PortTime, Turn;
    var k := |ports| - 1;
    if k > 0 {
      EarliestOf(ports[..k], s);
      assert ports == ports[..k] + [ports[k]];
    }
  }

  lemma EntryIsEarliest(active: set<Port>, s: Stamps)
    requires active != {}
    ensures IsEntry(Earliest(PortList(active), s), active, s)
  {
    hide PortTime, Earliest;
    var ports := PortList(active);
    ListedInTurn(active);
    EarliestOf(ports, s);
  }

  lemma ListedInTurn(active: set<Port>)
    ensures forall p: Port :: p in PortList(active) <==> p in active
    ensures var ports := PortList(active); forall j, k :: 0 <= j < k < |ports| ==> Turn(ports[j]) < Turn(ports[k])
  {
    forall p: Port
      ensures p in PortList(active) <==> p in active
    {
      assert p == 0 || p == 1 || p == 2 || p == 3;
    }
  }

  /** What the setup makes of slave k, apart from links and consumed ports: a clock slave
      gets its receive times and its entry port; one without a clock gets times 0, and
      its parent port and delay stay. */
  ghost predicate SetUp(before: Slave, after: Slave, regs: Stamps) {
    && after.topology == before.topology && after.active == before.active && after.hasdc == before.hasdc
    && after.parent == before.parent
    && if before.hasdc then after.stamps == regs && IsEntry(after.entryport, before.active, regs)
       else
         && after.stamps == Stamps(0, 0, 0, 0) && after.entryport == before.entryport
         && after.parentport == before.parentport && after.pdelay == before.pdelay
  }

  /** Apart from links and consumed ports. */
  ghost predicate SameData(a: Slave, b: Slave) {
    b == a.(consumed := b.consumed, dcNext := b.dcNext, dcPrevious := b.dcPrevious)
  }

  lemma StepSetsUp(r: Run, regs: seq<Stamps>, i: nat)
    requires Sound(r, regs, i) && i < |regs|
    ensures var s := Step(r, regs, i).list;
            && |s| == |regs| && SetUp(r.list[i], s[i], regs[i])
            && (forall k :: 1 <= k < |regs| && k != i ==> SameData(r.list[k], s[k]))
            && forall k :: i < k < |regs| ==> s[k] == r.list[k]
  {
    hide Earliest, PortList, Delay, OpenPort, Ancestor, IsEntry;
    if r.list[i].hasdc {
      EntryIsEarliest(r.list[i].active, regs[i]);
    }
  }

  lemma {:induction false} StepsSetUp(r: Run, regs: seq<Stamps>, i: nat, k: nat)
    requires Sound(r, regs, i) && 1 <= k < |regs|
    ensures var s := Steps(r, regs, i, |regs|).list;
            && |s| == |regs|
            && if k < i then SameData(r.list[k], s[k]) else SetUp(r.list[k], s[k], regs[k])
    decreases |regs| - i
  {
    hide Step, SetUp, SameData;
    if i < |regs| {
      StepSetsUp(r, regs, i);
      StepsSetUp(Step(r, regs, i), regs, i + 1, k);
      SetUpStays(r.list[k], Step(r, regs, i).list[k], Steps(r, regs, i, |regs|).list[k], regs[k]);
    } else {
      Unchanged(r.list[k]);
    }
  }

  lemma Unchanged(s: Slave)
    ensures SameData(s, s)
  {
  }

  lemma SetUpStays(a: Slave, b: Slave, c: Slave, regs: Stamps)
    ensures SetUp(a, b, regs) && SameData(b, c) ==> SetUp(a, c, regs)
    ensures SameData(a, b) && SameData(b, c) ==> SameData(a, c)
    ensures a == b && SetUp(b, c, regs) ==> SetUp(a, c, regs)
  {
  }

  /** For every slave list: the receive times, the entry port, and what is left alone. */
  lemma SlavesSetUp(list: seq<Slave>, regs: seq<Stamps>, k: nat)
    requires 1 <= |list| == |regs| && ValidWiring(list) && 1 <= k < |list|
    ensures var done := Configured(list, regs); |done| == |list| && SetUp(list[k], done[k], regs[k])
  {
    hide Step, SetUp;
    StepsSetUp(Run(list[0 := list[0].(hasdc := false)], 0, 0), regs, 1, k);
  }

  /** Whatever times were latched: if the frame seems to return later than it left, at the
      parent and at the slave itself, the delay is at least that of the parent. */
  lemma DelaysGrow(s: Slave, p: Slave, port: Port, later: bool)
    requires PortTime(p.stamps, PrevPort(p.active, port)) <= PortTime(p.stamps, port)
    requires s.topology > 1 ==>
      PortTime(s.stamps, s.entryport) <= PortTime(s.stamps, PrevPort(s.active, s.entryport))
    ensures Delay(s, p, port, later) >= p.pdelay
  {
    hide PrevPort, PortTime;
  }

  /** Halving drops the odd unit, towards zero. */
  lemma HalfTruncates(x: int)
    ensures if x >= 0 then 2 * Half(x) <= x <= 2 * Half(x) + 1 else 2 * Half(x) - 1 <= x <= 2 * Half(x)
  {
  }
}
