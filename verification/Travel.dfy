/** How a frame travels a tree of slaves, what the slaves latch of it, and what the
    clock setup should make of that. */
module Travel {
  import opened Topology
  import opened DistributedClocks
  import opened Options

  // ----- how a frame travels -----

  /** Time between a frame entering the root of `t` and leaving it again. */
  function Duration(t: Tree): int {
    Trip(t.kids)
  }

  function Trip(f: Forest): int {
    match f
    case Nil => 0
    case Branch(_, d, sub, rest) => 2 * d + Duration(sub) + Trip(rest)
  }

  /** Steps from port `e` to port `p` in the cycle 0 - 3 - 1 - 2. */
  function Ahead(e: Port, p: Port): nat {
    var place := [0, 2, 3, 1];
    if place[p] >= place[e] then place[p] - place[e] else place[p] - place[e] + 4
  }

  /** Branches are listed in the order in which the frame meets their ports. */
  ghost predicate FrameOrder(e: Port, f: Forest, last: nat) {
    f.Branch? ==> last < Ahead(e, f.port) && FrameOrder(e, f.rest, Ahead(e, f.port))
  }

  /** Branches are listed in the order 3 - 1 - 2 - 0 in which parent ports are
      consumed. */
  ghost predicate ConsumeOrder(f: Forest) {
    f.Branch? ==> (f.rest.Branch? ==> Turn(f.port) < Turn(f.rest.port)) && ConsumeOrder(f.rest)
  }

  function Turn(p: Port): nat {
    [3, 1, 2, 0][p]
  }

  function PortSet(f: Forest): set<Port> {
    if f.Nil? then {} else {f.port} + PortSet(f.rest)
  }

  /** What the hardware is: the frame meets the ports of a clock slave in ring order,
      no link takes less than no time, and the first link below a slave that is not
      entered through port 0 takes some. */
  ghost predicate Wired(t: Tree) {
    && (t.hasdc ==> FrameOrder(t.entry, t.kids, 0) && (t.entry == 0 || t.kids.Nil? || t.kids.delay > 0))
    && (!t.hasdc ==> Count(t.kids) <= 3)
    && WiredForest(t.kids)
  }

  ghost predicate WiredForest(f: Forest) {
    f.Branch? ==> f.delay >= 0 && Wired(f.sub) && WiredForest(f.rest)
  }

  /** `list` and `regs` are what the hardware shows of tree `t` when its root is
      slave i below slave `parent` and the frame enters it at true time `time`. */
  ghost predicate Shows(list: seq<Slave>, regs: seq<Stamps>, t: Tree, i: nat, parent: nat, time: int)
    decreases t
  {
    && 1 <= i < |list| == |regs|
    && list[i].topology == Count(t.kids) + 1 && list[i].hasdc == t.hasdc && list[i].parent == parent
    && (t.hasdc ==>
          && list[i].active == {t.entry} + PortSet(t.kids)
          && PortTime(regs[i], t.entry) == time + t.clock)
    && ShowsForest(list, regs, t, t.kids, i, i + 1, time)
  }

  /** The branches `f` of `t`, numbered from `first`, when the frame is about to
      leave through the first of them at time `now`. */
  ghost predicate ShowsForest(list: seq<Slave>, regs: seq<Stamps>, t: Tree, f: Forest,
                              i: nat, first: nat, now: int)
    requires i < |list| == |regs|
    decreases f
  {
    f.Branch? ==>
      var back := now + 2 * f.delay + Duration(f.sub);
      && (t.hasdc ==> PortTime(regs[i], f.port) == back + t.clock)
      && Shows(list, regs, f.sub, first, i, now + f.delay)
      && ShowsForest(list, regs, t, f.rest, i, first + Size(f.sub), back)
  }

  /** Every clock slave of `t` carries its true travel time since `start`, and the
      port of its clock parent that really leads to it (`above` for those with no
      clock slave of `t` above them; none if the master is next). */
  ghost predicate Exact(list: seq<Slave>, t: Tree, i: nat, time: int, start: int, above: Option<Port>)
    decreases t
  {
    && i < |list|
    && (t.hasdc ==> list[i].pdelay == time - start && (above.Some? ==> list[i].parentport == above.value))
    && ExactForest(list, t.hasdc, t.kids, i + 1, time, start, above)
  }

  ghost predicate ExactForest(list: seq<Slave>, own: bool, f: Forest, first: nat, now: int, start: int,
                              above: Option<Port>)
    decreases f
  {
    f.Branch? ==>
      && Exact(list, f.sub, first, now + f.delay, start, if own then Some(f.port) else above)
      && ExactForest(list, own, f.rest, first + Size(f.sub), now + 2 * f.delay + Duration(f.sub), start, above)
  }

  // ----- port arithmetic -----

  /** If no active port lies between `q` and `p` then `q` is the previous port. */
  lemma PrevPortIs(active: set<Port>, p: Port, q: Port)
    requires q in active && q != p
    requires forall r: Port :: r in active && r != p ==> Ahead(p, r) <= Ahead(p, q)
    ensures PrevPort(active, p) == q
  {
    assert 0 in active && p != 0 ==> Ahead(p, 0) <= Ahead(p, q);
    assert 1 in active && p != 1 ==> Ahead(p, 1) <= Ahead(p, q);
    assert 2 in active && p != 2 ==> Ahead(p, 2) <= Ahead(p, q);
    assert 3 in active && p != 3 ==> Ahead(p, 3) <= Ahead(p, q);
  }

  /** Seen from the entry port `e`: nothing active strictly between `q` and `p`. */
  lemma PrevPortSeenFrom(active: set<Port>, e: Port, p: Port, q: Port)
    requires e in active && q in active
    requires Ahead(e, q) < Ahead(e, p) 
    requires forall r: Port :: r in active ==> Ahead(e, r) <= Ahead(e, q) || Ahead(e, p) <= Ahead(e, r)
    ensures PrevPort(active, p) == q
  {
    forall r: Port | r in active && r != p
      ensures Ahead(p, r) <= Ahead(p, q)
    {
      assert Ahead(e, r) <= Ahead(e, q) || Ahead(e, p) <= Ahead(e, r);
    }
    PrevPortIs(active, p, q);
  }

  lemma PrevPortOfEntry(active: set<Port>, e: Port, q: Port)
    requires q in active && q != e
    requires forall r: Port :: r in active ==> Ahead(e, r) <= Ahead(e, q)
    ensures PrevPort(active, e) == q
  {
    PrevPortIs(active, e, q);
  }

  lemma FrameOrderBound(e: Port, f: Forest, last: nat)
    requires FrameOrder(e, f, last)
    ensures forall r :: r in PortSet(f) ==> last < Ahead(e, r)
    ensures e !in PortSet(f)
  {
  }

  // ----- what one clock slave reads -----

  lemma TripNonNegative(f: Forest)
    requires WiredForest(f)
    ensures Trip(f) >= 0
  {
    if f.Branch? {
      TripNonNegative(f.sub.kids);
    }
  }

  function LastPort(f: Forest, entry: Port): Port {
    if f.Nil? then entry else LastPort(f.rest, f.port)
  }

  /** The frame is back from the last branch after the whole trip. */
  lemma {:induction false} LastStamp(list: seq<Slave>, regs: seq<Stamps>, t: Tree, f: Forest, prev: Port,
                                     i: nat, first: nat, now: int, last: nat)
    requires t.hasdc && i < |list| == |regs| && ShowsForest(list, regs, t, f, i, first, now)
    requires FrameOrder(t.entry, f, last)
    requires PortTime(regs[i], prev) == now + t.clock
    ensures PortTime(regs[i], LastPort(f, prev)) == now + Trip(f) + t.clock
    ensures f.Branch? ==> LastPort(f, prev) in PortSet(f)
    ensures f.Branch? ==> forall r :: r in PortSet(f) ==> Ahead(t.entry, r) <= Ahead(t.entry, LastPort(f, prev))
    decreases f
  {
    if f.Branch? {
      var back := now + 2 * f.delay + Duration(f.sub);
      LastStamp(list, regs, t, f.rest, f.port, i, first + Size(f.sub), back, Ahead(t.entry, f.port));
      FrameOrderBound(t.entry, f.rest, Ahead(t.entry, f.port));
    }
  }

  /** It comes back through a port no earlier than it left. */
  lemma {:induction false} LaterStamps(list: seq<Slave>, regs: seq<Stamps>, t: Tree, f: Forest,
                                       i: nat, first: nat, now: int)
    requires t.hasdc && i < |list| == |regs| && ShowsForest(list, regs, t, f, i, first, now)
    requires WiredForest(f)
    ensures forall r :: r in PortSet(f) ==> PortTime(regs[i], r) >= now + t.clock
    ensures f.Branch? && f.delay > 0 ==> forall r :: r in PortSet(f) ==> PortTime(regs[i], r) > now + t.clock
    decreases f
  {
    if f.Branch? {
      TripNonNegative(f.sub.kids);
      LaterStamps(list, regs, t, f.rest, i, first + Size(f.sub), now + 2 * f.delay + Duration(f.sub));
    }
  }

  lemma {:induction false} EarliestIs(ports: seq<Port>, s: Stamps, e: Port)
    requires ports != []
    requires forall p :: p in ports && p != e ==>
      PortTime(s, e) < PortTime(s, p) || (e == ports[0] && PortTime(s, e) <= PortTime(s, p))
    ensures Earliest(ports, s) in ports
    ensures e in ports ==> Earliest(ports, s) == e
    decreases |ports|
  {
    var k := |ports| - 1;
    if k > 0 {
      EarliestIs(ports[..k], s, e);
    }
  }

  lemma PortListHas(active: set<Port>)
    ensures forall p: Port :: p in PortList(active) <==> p in active
    ensures 0 in active ==> PortList(active)[0] == 0
  {
  }

  /** What a clock slave stores once its receive times are read. */
  lemma LatchedFacts(list: seq<Slave>, regs: seq<Stamps>, t: Tree, i: nat, parent: nat, time: int, s: Slave)
    requires Shows(list, regs, t, i, parent, time) && Wired(t) && t.hasdc
    requires s.active == list[i].active
    ensures var l := Latched(s, regs[i]);
            && l.entryport == t.entry && l.consumed == PortSet(t.kids)
            && (t.kids.Branch? ==>
                  PortTime(regs[i], PrevPort(s.active, t.entry)) == time + Duration(t) + t.clock)
  {
    LaterStamps(list, regs, t, t.kids, i, i + 1, time);
    FrameOrderBound(t.entry, t.kids, 0);
    PortListHas(s.active);
    EarliestIs(PortList(s.active), regs[i], t.entry);
    LastStamp(list, regs, t, t.kids, t.entry, i, i + 1, time, 0);
    if t.kids.Branch? {
      PrevPortOfEntry(s.active, t.entry, LastPort(t.kids, t.entry));
    }
  }

  // ----- the parents that the delays rely on are those the search finds -----

  function Topologies(list: seq<Slave>): seq<nat> {
    seq(|list|, i requires 0 <= i < |list| => list[i].topology)
  }

  lemma {:induction false} ShownParents(list: seq<Slave>, regs: seq<Stamps>, t: Tree, i: nat, parent: nat, time: int)
    requires Shows(list, regs, t, i, parent, time)
    ensures At(Topologies(list), i, LinkCounts(t))
    ensures forall k :: 0 <= k < Size(t) ==> i + k < |list| && list[i + k].parent == Parents(t, i, parent)[k]
    decreases t
  {
    ShownForestParents(list, regs, t, t.kids, i, i + 1, time);
    AtJoin(Topologies(list), i, [Count(t.kids) + 1], ForestLinkCounts(t.kids));
    forall k | 1 <= k < Size(t)
      ensures i + k < |list| && list[i + k].parent == Parents(t, i, parent)[k]
    {
      assert i + k == i + 1 + (k - 1);
    }
  }

  lemma {:induction false} ShownForestParents(list: seq<Slave>, regs: seq<Stamps>, t: Tree, f: Forest,
                                              i: nat, first: nat, now: int)
    requires i < |list| == |regs| && first <= |list| && ShowsForest(list, regs, t, f, i, first, now)
    ensures At(Topologies(list), first, ForestLinkCounts(f))
    ensures forall k :: 0 <= k < ForestSize(f) ==>
      first + k < |list| && list[first + k].parent == ForestParents(f, first, i)[k]
    decreases f
  {
    if f.Branch? {
      var next := first + Size(f.sub);
      ShownParents(list, regs, f.sub, first, i, now + f.delay);
      ShownForestParents(list, regs, t, f.rest, i, next, now + 2 * f.delay + Duration(f.sub));
      AtJoin(Topologies(list), first, LinkCounts(f.sub), ForestLinkCounts(f.rest));
      forall k | 0 <= k < ForestSize(f)
        ensures first + k < |list| && list[first + k].parent == ForestParents(f, first, i)[k]
      {
        if k >= Size(f.sub) {
          assert first + k == next + (k - Size(f.sub));
        }
      }
    }
  }

  lemma {:induction false} FrameOrderCount(e: Port, f: Forest, last: nat)
    requires FrameOrder(e, f, last) && last <= 3
    ensures Count(f) <= 3 - last
    decreases f
  {
    if f.Branch? {
      FrameOrderCount(e, f.rest, Ahead(e, f.port));
    }
  }

  lemma {:induction false} WiredFits(t: Tree)
    requires Wired(t)
    ensures AtMostThreeKids(t)
    decreases t
  {
    if t.hasdc {
      FrameOrderCount(t.entry, t.kids, 0);
    }
    WiredForestFits(t.kids);
  }

  lemma {:induction false} WiredForestFits(f: Forest)
    requires WiredForest(f)
    ensures AllAtMostThreeKids(f)
    decreases f
  {
    if f.Branch? {
      WiredFits(f.sub);
      WiredForestFits(f.rest);
    }
  }

  lemma SearchedParents(list: seq<Slave>, regs: seq<Stamps>, t: Tree, time: int, i: nat)
    requires |list| == Size(t) + 1 && Shows(list, regs, t, 1, 0, time) && Wired(t)
    requires 1 <= i < |list|
    ensures list[i].parent == ParentOf(Topologies(list), i)
  {
    ShownParents(list, regs, t, 1, 0, time);
    WiredFits(t);
    SearchFindsParents(Topologies(list), t, 1, 0);
    var k := i - 1;
    assert ParentOf(Topologies(list), 1 + k) == Parents(t, 1, 0)[k] == list[1 + k].parent;
  }
}
