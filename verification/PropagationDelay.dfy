/** What the clock setup makes of any tree of slaves: which ports its branches use up,
    and which parent ports and delays come out exact. */
module PropagationDelay {
  import opened Topology
  import opened DistributedClocks
  import opened Options
  import opened Travel

  // ----- the ports that branches use up -----

  /** Ports of a clock slave used up while the loop passes `t`, which hangs below it
      with no clock slave in between.  A slave without a clock uses one up only as
      the end of an unbranched branch, as long as the clock slave is `held`. */
  function Takes(t: Tree, held: bool): nat {
    if t.hasdc then 1
    else if t.kids.Nil? then if held then 1 else 0
    else TakesForest(t.kids, held && t.kids.rest.Nil?)
  }

  function TakesForest(f: Forest, held: bool): nat {
    if f.Nil? then 0 else Takes(f.sub, held) + TakesForest(f.rest, held)
  }

  /** What is left of a set of ports after n parent-port searches. */
  function Left(b: set<Port>, n: nat): set<Port> {
    if n == 0 then b else Left(b - {OpenPort(b)}, n - 1)
  }

  lemma {:induction false} LeftSum(b: set<Port>, m: nat, n: nat)
    ensures Left(b, m + n) == Left(Left(b, m), n)
    decreases m
  {
    if m > 0 {
      LeftSum(b - {OpenPort(b)}, m - 1, n);
    }
  }

  /** A clock slave has to wait for a branch only if it has another one. */
  predicate Several(t: Tree) {
    t.kids.Branch? && t.kids.rest.Branch?
  }

  /** Every clock slave reached first in `t` finds `port` to be the next port of its
      clock parent, of which `b` are left, and the frame takes as long to get there
      as it takes back: `go` and `back` are the times outside `t`. */
  ghost predicate Served(t: Tree, port: Port, b: set<Port>, held: bool, go: int, back: int)
    decreases t, 1
  {
    if t.hasdc then OpenPort(b) == port && go == back && ServedBelow(t.kids, PortSet(t.kids), Several(t))
    else ServedThrough(t.kids, port, b, held && !Several(t), go, back)
  }

  /** The branches of a slave without a clock. */
  ghost predicate ServedThrough(f: Forest, port: Port, b: set<Port>, held: bool, go: int, back: int)
    decreases f, 0
  {
    f.Branch? ==>
      && Served(f.sub, port, b, held, go + f.delay, f.delay + Trip(f.rest) + back)
      && ServedThrough(f.rest, port, Left(b, Takes(f.sub, held)), held, go + 2 * f.delay + Duration(f.sub), back)
  }

  /** The branches of a clock slave. */
  ghost predicate ServedBelow(f: Forest, b: set<Port>, held: bool)
    decreases f, 0
  {
    f.Branch? ==>
      && Served(f.sub, f.port, b, held, f.delay, f.delay)
      && ServedBelow(f.rest, Left(b, Takes(f.sub, held)), held)
  }

  /** The same where no clock slave is above: `start` is the reference time. */
  ghost predicate Reached(t: Tree, time: int, start: int)
    decreases t, 1
  {
    if t.hasdc then time == start && ServedBelow(t.kids, PortSet(t.kids), Several(t))
    else ReachedThrough(t.kids, time, start)
  }

  ghost predicate ReachedThrough(f: Forest, now: int, start: int)
    decreases f, 0
  {
    f.Branch? ==>
      Reached(f.sub, now + f.delay, start) && ReachedThrough(f.rest, now + 2 * f.delay + Duration(f.sub), start)
  }

  // ----- one link -----

  /** A link from port `port` of the clock slave `p`, which the frame entered at
      true time `entered`, passed `prev` at `now`, and whose clock is off by `clock`. */
  datatype Link = Link(p: nat, prev: Port, port: Port, entered: int, now: int, clock: int)

  ghost predicate Ready(s: Slave, k: Link, start: int) {
    && s.hasdc && s.topology > 1 && PrevPort(s.active, k.port) == k.prev
    && PortTime(s.stamps, s.entryport) == k.entered + k.clock
    && PortTime(s.stamps, k.prev) == k.now + k.clock
    && k.entered <= k.now && s.pdelay == k.entered - start
  }

  /** Half the difference of the loop times, plus the time spent in earlier branches
      and the delay of the parent, is the travel time exactly if the frame takes as
      long from the parent to the slave as it takes back. */
  lemma DelayIsTravelTime(s: Slave, p: Slave, k: Link, start: int, go: nat, inside: int, back: nat, later: bool)
    requires Ready(p, k, start) && (go + back) % 2 == 0
    requires PortTime(p.stamps, k.port) == k.now + go + inside + back + k.clock
    requires if s.topology > 1
             then PortTime(s.stamps, PrevPort(s.active, s.entryport)) - PortTime(s.stamps, s.entryport) == inside
             else inside == 0
    requires later || k.now == k.entered
    ensures Delay(s, p, k.port, later) == k.now + go - start <==> go == back
  {
    assert Half(go + back) == (go + back) / 2;
  }

  lemma MeasuredFacts(list: seq<Slave>, i: nat, child: nat, k: Link, start: int, go: nat, inside: int, back: nat)
    requires 0 < k.p < child <= i < |list|
    requires Ready(list[k.p], k, start) && (go + back) % 2 == 0
    requires PortTime(list[k.p].stamps, k.port) == k.now + go + inside + back + k.clock
    requires var s := list[i];
      if s.topology > 1 then
        PortTime(s.stamps, PrevPort(s.active, s.entryport)) - PortTime(s.stamps, s.entryport) == inside
      else inside == 0
    requires child - k.p > 1 || k.now == k.entered
    ensures var s := Measured(list, i, child, k.p);
            && s[i].parentport == OpenPort(list[k.p].consumed)
            && (s[i].parentport == k.port ==> (s[i].pdelay == k.now + go - start <==> go == back))
  {
    hide Delay, Ready, PortTime, PrevPort;
    var open := OpenPort(list[k.p].consumed);
    var p := list[k.p].(consumed := list[k.p].consumed - {open});
    ReadyKept(list[k.p], p, k, start);
    DelayIsTravelTime(list[i], p, k, start, go, inside, back, child - k.p > 1);
  }

  lemma ReadyKept(s: Slave, t: Slave, k: Link, start: int)
    requires Ready(s, k, start) && t == s.(consumed := t.consumed)
    ensures Ready(t, k, start) && s.topology > 1 && t.topology > 1
  {
  }

  /** The columns of the slave list that never change below the master record. */
  ghost predicate SameWiring(a: seq<Slave>, b: seq<Slave>) {
    && |a| == |b|
    && forall i :: 1 <= i < |a| ==>
         && a[i].topology == b[i].topology && a[i].active == b[i].active
         && a[i].hasdc == b[i].hasdc && a[i].parent == b[i].parent
  }

  lemma {:induction false} SameAncestor(a: seq<Slave>, b: seq<Slave>, i: nat)
    requires ValidWiring(a) && ValidWiring(b) && SameWiring(a, b) && 1 <= i < |a|
    ensures Ancestor(a, i) == Ancestor(b, i)
    decreases i
  {
    var p := a[i].parent;
    if p != 0 && !a[p].hasdc {
      SameAncestor(a, b, p);
    }
  }

  /** Everything that matters later on: not the chain field, and the free ports of
      clock slaves only. */
  function Core(s: Slave): Slave {
    s.(dcNext := 0, consumed := if s.hasdc then s.consumed else {})
  }

  /** Outside [lo, hi) only the free ports of slave p differ. */
  ghost predicate Kept(a: seq<Slave>, b: seq<Slave>, lo: nat, hi: nat, p: nat) {
    && |a| == |b|
    && (forall k :: 0 < k < |a| && !(lo <= k < hi) && k != p ==> Core(a[k]) == Core(b[k]))
    && (0 < p < |a| && !(lo <= p < hi) ==> Core(a[p].(consumed := {})) == Core(b[p].(consumed := {})))
  }

  lemma KeptJoin(a: seq<Slave>, b: seq<Slave>, c: seq<Slave>, lo: nat, mid: nat, hi: nat, p: nat, q: nat)
    requires lo <= mid <= hi && Kept(a, b, lo, mid, p) && Kept(b, c, mid, hi, q)
    requires q == p || lo <= q < hi
    ensures Kept(a, c, lo, hi, p)
  {
    forall k | 0 < k < |a| && !(lo <= k < hi) && k != p
      ensures Core(a[k]) == Core(c[k])
    {
      assert Core(a[k]) == Core(b[k]) == Core(c[k]);
    }
  }

  /** The list just before the measurement of clock slave i. */
  function Prepared(r: Run, regs: seq<Stamps>, i: nat): (l: seq<Slave>)
    requires Sound(r, regs, i) && i < |regs|
  {
    var list := r.list[i := r.list[i].(consumed := r.list[i].active)];
    var linked := Linked(list, r.prev, i);
    linked[i := Latched(linked[i], regs[i])]
  }

  lemma PreparedFacts(l0: seq<Slave>, regs: seq<Stamps>, r: Run, t: Tree, i: nat, parent: nat, time: int)
    requires Sound(r, regs, i) && SameWiring(l0, r.list)
    requires Shows(l0, regs, t, i, parent, time) && Wired(t) && t.hasdc
    ensures var l := Prepared(r, regs, i);
            && SameWiring(l0, l) && ValidWiring(l) && Kept(r.list, l, i, i + 1, 0)
            && (forall k :: 0 < k < i ==> l[k].consumed == r.list[k].consumed)
            && l[i] == r.list[i].(stamps := regs[i], entryport := t.entry, consumed := PortSet(t.kids),
                                  dcPrevious := l[i].dcPrevious)
            && (if l[i].topology > 1 then
                  PortTime(l[i].stamps, PrevPort(l[i].active, l[i].entryport))
                    - PortTime(l[i].stamps, l[i].entryport) == Duration(t)
                else Duration(t) == 0)
  {
    ShowsNode(l0, regs, t, i, parent, time);
    PreparedShape(l0, regs, r, i);
    var l := Prepared(r, regs, i);
    var s := r.list[i].(consumed := r.list[i].active, dcPrevious := l[i].dcPrevious);
    LatchedFacts(l0, regs, t, i, parent, time, s);
    hide Shows, ShowsForest, PortTime, PrevPort, Latched, PortSet, Prepared, Kept, SameWiring, ValidWiring;
  }

  /** Which fields of which slaves the preparation touches. */
  lemma PreparedShape(l0: seq<Slave>, regs: seq<Stamps>, r: Run, i: nat)
    requires Sound(r, regs, i) && SameWiring(l0, r.list) && i < |regs| && r.list[i].active != {}
    ensures var l := Prepared(r, regs, i);
            && SameWiring(l0, l) && ValidWiring(l) && Kept(r.list, l, i, i + 1, 0)
            && (forall k :: 0 < k < i ==> l[k].consumed == r.list[k].consumed)
            && l[i] == Latched(r.list[i].(consumed := r.list[i].active, dcPrevious := l[i].dcPrevious), regs[i])
  {
    hide Earliest, PortList;
  }

  lemma ShowsNode(l0: seq<Slave>, regs: seq<Stamps>, t: Tree, i: nat, parent: nat, time: int)
    requires Shows(l0, regs, t, i, parent, time) && t.hasdc
    ensures i < |l0| == |regs| && l0[i].topology == Count(t.kids) + 1 && l0[i].active == {t.entry} + PortSet(t.kids)
    ensures PortTime(regs[i], t.entry) == time + t.clock
    ensures l0[i].topology > 1 <==> t.kids.Branch?
    ensures t.kids.Nil? ==> Duration(t) == 0
  {
  }


  // ----- passing a subtree -----

  lemma StepsJoin(r: Run, regs: seq<Stamps>, i: nat, m: nat, n: nat)
    requires Sound(r, regs, i) && i <= m <= n <= |regs|
    ensures Steps(Steps(r, regs, i, m), regs, m, n) == Steps(r, regs, i, n)
    decreases m - i
  {
    if i < m {
      StepsJoin(Step(r, regs, i), regs, i + 1, m, n);
    }
  }

  lemma {:induction false} ExactFrame(a: seq<Slave>, b: seq<Slave>, t: Tree, i: nat, time: int, start: int,
                                      above: Option<Port>)
    requires |a| == |b| && Exact(a, t, i, time, start, above)
    requires forall j :: i <= j < i + Size(t) && j < |a| ==>
      a[j].pdelay == b[j].pdelay && a[j].parentport == b[j].parentport
    ensures Exact(b, t, i, time, start, above)
    decreases t
  {
    ExactForestFrame(a, b, t.hasdc, t.kids, i + 1, time, start, above);
  }

  lemma {:induction false} ExactForestFrame(a: seq<Slave>, b: seq<Slave>, own: bool, f: Forest, first: nat,
                                            now: int, start: int, above: Option<Port>)
    requires |a| == |b| && ExactForest(a, own, f, first, now, start, above)
    requires forall j :: first <= j < first + ForestSize(f) && j < |a| ==>
      a[j].pdelay == b[j].pdelay && a[j].parentport == b[j].parentport
    ensures ExactForest(b, own, f, first, now, start, above)
    decreases f
  {
    if f.Branch? {
      ExactFrame(a, b, f.sub, first, now + f.delay, start, if own then Some(f.port) else above);
      ExactForestFrame(a, b, own, f.rest, first + Size(f.sub), now + 2 * f.delay + Duration(f.sub), start, above);
    }
  }

  lemma {:induction false} ShowsFits(list: seq<Slave>, regs: seq<Stamps>, t: Tree, i: nat, parent: nat, time: int)
    requires Shows(list, regs, t, i, parent, time)
    ensures i + Size(t) <= |list|
    decreases t
  {
    ShowsForestFits(list, regs, t, t.kids, i, i + 1, time);
  }

  lemma {:induction false} ShowsForestFits(list: seq<Slave>, regs: seq<Stamps>, t: Tree, f: Forest, i: nat,
                                           first: nat, now: int)
    requires i < |list| == |regs| && ShowsForest(list, regs, t, f, i, first, now) && first <= |list|
    ensures first + ForestSize(f) <= |list|
    decreases f
  {
    if f.Branch? {
      ShowsFits(list, regs, f.sub, first, i, now + f.delay);
      ShowsForestFits(list, regs, t, f.rest, i, first + Size(f.sub), now + 2 * f.delay + Duration(f.sub));
    }
  }

  /** The slave whose free port a leaf without a clock would use up. */
  function HoldAt(l0: seq<Slave>, hold: nat, parent: nat): nat
    requires parent < |l0|
  {
    if parent > 0 && l0[parent].topology > 2 then parent else hold
  }

  lemma {:induction false} AncestorIsClock(l0: seq<Slave>, i: nat)
    requires ValidWiring(l0) && 1 <= i < |l0|
    ensures var p := Ancestor(l0, i).1; p > 0 ==> l0[p].hasdc
    decreases i
  {
    var p := l0[i].parent;
    if p != 0 && !l0[p].hasdc {
      AncestorIsClock(l0, p);
    }
  }

  /** The loop reaches the root of `t`, slave i, below clock slave p (0 if none). */
  ghost predicate Arrives(l0: seq<Slave>, regs: seq<Stamps>, r: Run, t: Tree, i: nat, parent: nat, time: int,
                          p: nat, held: bool) {
    && Sound(r, regs, i) && ValidWiring(l0) && SameWiring(l0, r.list)
    && Shows(l0, regs, t, i, parent, time) && Wired(t) && i + Size(t) <= |l0|
    && Ancestor(l0, i).1 == p && (r.hold > 0 && r.hold != p ==> !l0[r.hold].hasdc)
    && (held <==> p > 0 && HoldAt(l0, r.hold, parent) == p)
  }

  /** It has passed `t`. */
  ghost predicate Leaves(l0: seq<Slave>, r: Run, s: Run, t: Tree, i: nat, p: nat, held: bool) {
    && p < |l0| == |r.list| == |s.list|
    && SameWiring(l0, s.list) && Kept(r.list, s.list, i, i + Size(t), p) && s.hold == 0
    && (p > 0 ==> s.list[p].consumed == Left(r.list[p].consumed, Takes(t, held)))
  }

  /** It reaches the branches `f` of slave i, the root of `t`. */
  ghost predicate ArrivesBelow(l0: seq<Slave>, regs: seq<Stamps>, r: Run, t: Tree, f: Forest, i: nat, first: nat,
                               now: int, p: nat, held: bool) {
    && Sound(r, regs, first) && ValidWiring(l0) && SameWiring(l0, r.list)
    && 0 < i < first && first + ForestSize(f) <= |l0|
    && l0[i].hasdc == t.hasdc && l0[i].topology == Count(t.kids) + 1 && Count(f) <= Count(t.kids)
    && ShowsForest(l0, regs, t, f, i, first, now) && WiredForest(f)
    && (if t.hasdc then p == i else Ancestor(l0, i).1 == p)
    && (r.hold > 0 && r.hold != p ==> !l0[r.hold].hasdc) && (f.Nil? ==> r.hold == 0)
    && (f.Branch? ==> (held <==> p > 0 && HoldAt(l0, r.hold, i) == p))
  }

  ghost predicate LeavesBelow(l0: seq<Slave>, r: Run, s: Run, f: Forest, first: nat, p: nat, held: bool) {
    && p < |l0| == |r.list| == |s.list|
    && SameWiring(l0, s.list) && Kept(r.list, s.list, first, first + ForestSize(f), p) && s.hold == 0
    && (p > 0 ==> s.list[p].consumed == Left(r.list[p].consumed, TakesForest(f, held)))
  }

  /** One iteration for a clock slave. */
  lemma PassClock(l0: seq<Slave>, regs: seq<Stamps>, r: Run, t: Tree, i: nat, parent: nat, time: int, p: nat,
                  held: bool)
    requires Arrives(l0, regs, r, t, i, parent, time, p, held) && t.hasdc
    ensures var m := Step(r, regs, i);
            && SameWiring(l0, m.list) && Kept(r.list, m.list, i, i + 1, p)
            && (p > 0 ==> m.list[p].consumed == Left(r.list[p].consumed, 1))
            && m.list[i].stamps == regs[i] && m.list[i].entryport == t.entry && m.list[i].consumed == PortSet(t.kids)
            && (p == 0 ==> m.list[i].pdelay == r.list[i].pdelay)
            && ArrivesBelow(l0, regs, m, t, t.kids, i, i + 1, time, i, Several(t))
  {
    var l := Prepared(r, regs, i);
    PreparedFacts(l0, regs, r, t, i, parent, time);
    SameAncestor(l0, l, i);
    AncestorIsClock(l0, i);
    var child := Ancestor(l, i).0;
    assert Step(r, regs, i) == Run(if p > 0 then Measured(l, i, child, p) else l, 0, i);
    SeveralKids(t);
  }

  lemma SeveralKids(t: Tree)
    ensures Several(t) <==> Count(t.kids) + 1 > 2
  {
    assert t.kids.Branch? ==> Count(t.kids) == 1 + Count(t.kids.rest);
  }

  /** What one iteration for a slave without a clock changes. */
  lemma InlineStep(r: Run, regs: seq<Stamps>, i: nat)
    requires Sound(r, regs, i) && i < |regs| && !r.list[i].hasdc
    ensures var m := Step(r, regs, i);
            var h := HoldAt(r.list, r.hold, r.list[i].parent);
            var leaf := r.list[i].topology == 1;
            && m.hold == (if leaf then 0 else h) && |m.list| == |r.list|
            && m.list[i] == r.list[i].(stamps := m.list[i].stamps, consumed := m.list[i].consumed)
            && forall k :: 0 <= k < |r.list| && k != i ==>
                 m.list[k] == if leaf && h > 0 && k == h then r.list[k].(consumed := Left(r.list[k].consumed, 1))
                              else r.list[k]
  {
    hide OpenPort;
  }

  /** One iteration for a slave without a clock. */
  lemma PassInline(l0: seq<Slave>, regs: seq<Stamps>, r: Run, t: Tree, i: nat, parent: nat, time: int, p: nat,
                   held: bool)
    requires Arrives(l0, regs, r, t, i, parent, time, p, held) && !t.hasdc
    ensures var m := Step(r, regs, i);
            && SameWiring(l0, m.list) && Kept(r.list, m.list, i, i + 1, p)
            && (p > 0 ==> m.list[p].consumed == Left(r.list[p].consumed, if t.kids.Nil? && held then 1 else 0))
            && ArrivesBelow(l0, regs, m, t, t.kids, i, i + 1, time, p, held && !Several(t))
  {
    hide Step, FrameOrder, PortSet;
    AncestorIsClock(l0, i);
    SeveralKids(t);
    InlineStep(r, regs, i);
  }

  lemma {:induction false} TreePass(l0: seq<Slave>, regs: seq<Stamps>, r: Run, t: Tree, i: nat, parent: nat, time: int,
                                    p: nat, held: bool)
    requires Arrives(l0, regs, r, t, i, parent, time, p, held) && i + Size(t) <= |regs| && Sound(r, regs, i)
    ensures Leaves(l0, r, Steps(r, regs, i, i + Size(t)), t, i, p, held)
    decreases t, 1
  {
    hide *;
    if t.hasdc {
      ClockPass(l0, regs, r, t, i, parent, time, p, held);
    } else {
      InlinePass(l0, regs, r, t, i, parent, time, p, held);
    }
  }

  lemma ClockAbove(l0: seq<Slave>, regs: seq<Stamps>, r: Run, t: Tree, i: nat, parent: nat, time: int, p: nat,
                   held: bool)
    requires Arrives(l0, regs, r, t, i, parent, time, p, held)
    ensures p < i && (p > 0 ==> l0[p].hasdc)
  {
    AncestorIsClock(l0, i);
  }

  lemma {:induction false} ClockPass(l0: seq<Slave>, regs: seq<Stamps>, r: Run, t: Tree, i: nat, parent: nat, time: int,
                                     p: nat, held: bool)
    requires Arrives(l0, regs, r, t, i, parent, time, p, held) && t.hasdc
    ensures Leaves(l0, r, Steps(r, regs, i, i + Size(t)), t, i, p, held)
    decreases t, 0
  {
    hide Step, ArrivesBelow, Shows, Wired, HoldAt, PortSet, OpenPort, Several, Ancestor, ValidWiring;
    PassClock(l0, regs, r, t, i, parent, time, p, held);
    ClockAbove(l0, regs, r, t, i, parent, time, p, held);
    var m := Step(r, regs, i);
    BelowPass(l0, regs, m, t, t.kids, i, i + 1, time, i, Several(t));
    var s := Steps(m, regs, i + 1, i + Size(t));
    hide Left;
    assert p > 0 ==> p != i && Core(m.list[p]) == Core(s.list[p]) && m.list[p].hasdc && s.list[p].hasdc;
    KeptJoin(r.list, m.list, s.list, i, i + 1, i + Size(t), p, i);
  }

  lemma {:induction false} InlinePass(l0: seq<Slave>, regs: seq<Stamps>, r: Run, t: Tree, i: nat, parent: nat,
                                      time: int, p: nat, held: bool)
    requires Arrives(l0, regs, r, t, i, parent, time, p, held) && !t.hasdc
    ensures Leaves(l0, r, Steps(r, regs, i, i + Size(t)), t, i, p, held)
    decreases t, 0
  {
    hide Step, ArrivesBelow, Shows, Wired, HoldAt, Ancestor, ValidWiring;
    PassInline(l0, regs, r, t, i, parent, time, p, held);
    var m := Step(r, regs, i);
    BelowPass(l0, regs, m, t, t.kids, i, i + 1, time, p, held && !Several(t));
    var s := Steps(m, regs, i + 1, i + Size(t));
    KeptJoin(r.list, m.list, s.list, i, i + 1, i + Size(t), p, p);
  }

  lemma {:induction false} BelowPass(l0: seq<Slave>, regs: seq<Stamps>, r: Run, t: Tree, f: Forest, i: nat, first: nat,
                                     now: int, p: nat, held: bool)
    requires first + ForestSize(f) <= |regs| && Sound(r, regs, first)
    requires ArrivesBelow(l0, regs, r, t, f, i, first, now, p, held)
    ensures LeavesBelow(l0, r, Steps(r, regs, first, first + ForestSize(f)), f, first, p, held)
    decreases f, 2
  {
    hide Step, Steps, ArrivesBelow, Arrives, Leaves, LeavesBelow;
    if f.Nil? {
      NothingPassed(l0, regs, r, t, f, i, first, now, p, held);
    } else {
      var next, end := first + Size(f.sub), first + ForestSize(f);
      FirstArrives(l0, regs, r, t, f, i, first, now, p, held);
      TreePass(l0, regs, r, f.sub, first, i, now + f.delay, p, held);
      var m := Steps(r, regs, first, next);
      RestArrives(l0, regs, r, m, t, f, i, first, now, p, held);
      BelowPass(l0, regs, m, t, f.rest, i, next, now + 2 * f.delay + Duration(f.sub), p, held);
      StepsJoin(r, regs, first, next, end);
      PassedJoin(l0, r, m, Steps(m, regs, next, end), f, first, p, held);
    }
  }

  lemma NothingPassed(l0: seq<Slave>, regs: seq<Stamps>, r: Run, t: Tree, f: Forest, i: nat, first: nat, now: int,
                      p: nat, held: bool)
    requires ArrivesBelow(l0, regs, r, t, f, i, first, now, p, held) && f.Nil?
    ensures LeavesBelow(l0, r, Steps(r, regs, first, first + ForestSize(f)), f, first, p, held)
  {
  }

  /** The first of the branches. */
  lemma FirstArrives(l0: seq<Slave>, regs: seq<Stamps>, r: Run, t: Tree, f: Forest, i: nat, first: nat, now: int,
                     p: nat, held: bool)
    requires ArrivesBelow(l0, regs, r, t, f, i, first, now, p, held) && f.Branch?
    ensures Arrives(l0, regs, r, f.sub, first, i, now + f.delay, p, held)
    ensures Ancestor(l0, first) == if t.hasdc then (first, i) else Ancestor(l0, i)
  {
    assert Shows(l0, regs, f.sub, first, i, now + f.delay);
    assert l0[first].parent == i;
  }

  /** And the others. */
  lemma RestArrives(l0: seq<Slave>, regs: seq<Stamps>, r: Run, m: Run, t: Tree, f: Forest, i: nat, first: nat, now: int,
                    p: nat, held: bool)
    requires ArrivesBelow(l0, regs, r, t, f, i, first, now, p, held) && f.Branch?
    requires Sound(m, regs, first + Size(f.sub)) && Leaves(l0, r, m, f.sub, first, p, held)
    ensures ArrivesBelow(l0, regs, m, t, f.rest, i, first + Size(f.sub), now + 2 * f.delay + Duration(f.sub), p, held)
  {
    hide Kept, SameWiring, Left, Takes;
    assert Count(f) == 1 + Count(f.rest);
    assert f.rest.Branch? ==> Count(f.rest) >= 1;
  }

  lemma PassedJoin(l0: seq<Slave>, r: Run, m: Run, s: Run, f: Forest, first: nat, p: nat, held: bool)
    requires f.Branch? && Leaves(l0, r, m, f.sub, first, p, held)
    requires LeavesBelow(l0, m, s, f.rest, first + Size(f.sub), p, held)
    ensures LeavesBelow(l0, r, s, f, first, p, held)
  {
    hide Kept, SameWiring, Left, Takes;
    KeptJoin(r.list, m.list, s.list, first, first + Size(f.sub), first + ForestSize(f), p, p);
    if p > 0 {
      LeftSum(r.list[p].consumed, Takes(f.sub, held), TakesForest(f.rest, held));
    }
  }

  // ----- exactness below a clock slave -----

  lemma {:induction false} TripEven(f: Forest)
    ensures Trip(f) % 2 == 0
    decreases f
  {
    if f.Branch? {
      TripEven(f.sub.kids);
      TripEven(f.rest);
    }
  }

  /** Exactness of a subtree depends on its own slaves only. */
  lemma ExactLater(a: seq<Slave>, b: seq<Slave>, t: Tree, i: nat, time: int, start: int, above: Option<Port>,
                   lo: nat, hi: nat, p: nat)
    requires Kept(a, b, lo, hi, p) && 0 < i && i + Size(t) <= lo && p <= i + Size(t)
    ensures Exact(a, t, i, time, start, above) <==> Exact(b, t, i, time, start, above)
  {
    forall j | i <= j < i + Size(t) && j < |a|
      ensures a[j].pdelay == b[j].pdelay && a[j].parentport == b[j].parentport
    {
      assert j != p ==> Core(a[j]) == Core(b[j]);
      assert j == p ==> Core(a[j].(consumed := {})) == Core(b[j].(consumed := {}));
    }
    if Exact(a, t, i, time, start, above) {
      ExactFrame(a, b, t, i, time, start, above);
    }
    if Exact(b, t, i, time, start, above) {
      ExactFrame(b, a, t, i, time, start, above);
    }
  }

  /** The loop reaches `t` over link k of a clock slave whose own delay is exact; the
      frame needs `go` to get here and `back` to return to that slave from here. */
  ghost predicate OnLink(l0: seq<Slave>, r: Run, k: Link, start: int, t: Tree, i: nat, child: nat, go: int, back: int) {
    && ValidWiring(l0) && 1 <= i < |l0| == |r.list| && 0 < k.p < i && Ancestor(l0, i) == (child, k.p)
    && Ready(r.list[k.p], k, start) && go >= 0 && back >= 0 && (go + back) % 2 == 0
    && (child - k.p > 1 || k.now == k.entered)
    && PortTime(r.list[k.p].stamps, k.port) == k.now + go + Duration(t) + back + k.clock
  }

  /** One iteration for a clock slave on a link. */
  lemma MeasureOnLink(l0: seq<Slave>, regs: seq<Stamps>, r: Run, k: Link, start: int, t: Tree, i: nat, parent: nat,
                      child: nat, go: int, back: int, held: bool)
    requires Arrives(l0, regs, r, t, i, parent, k.now + go, k.p, held) && t.hasdc
    requires OnLink(l0, r, k, start, t, i, child, go, back)
    ensures i < |Step(r, regs, i).list|
    ensures var m := Step(r, regs, i).list[i];
            m.pdelay == k.now + go - start && m.parentport == k.port
            <==> OpenPort(r.list[k.p].consumed) == k.port && go == back
  {
    var l := Prepared(r, regs, i);
    PreparedFacts(l0, regs, r, t, i, parent, k.now + go);
    SameAncestor(l0, l, i);
    assert Core(l[k.p]) == Core(r.list[k.p]);
    assert l[k.p].consumed == r.list[k.p].consumed;
    ReadyCore(r.list[k.p], l[k.p], k, start);
    MeasuredFacts(l, i, child, k, start, go, Duration(t), back);
    assert Step(r, regs, i) == Run(Measured(l, i, child, k.p), 0, i);
  }

  lemma ReadyCore(s: Slave, t: Slave, k: Link, start: int)
    requires Ready(s, k, start) && Core(s.(consumed := {})) == Core(t.(consumed := {}))
    ensures Ready(t, k, start) && s.stamps == t.stamps
  {
    assert s.(consumed := {}, dcNext := 0) == t.(consumed := {}, dcNext := 0);
  }

  lemma {:induction false} TreeExact(l0: seq<Slave>, regs: seq<Stamps>, r: Run, k: Link, start: int, t: Tree, i: nat,
                                     parent: nat, child: nat, go: int, back: int, held: bool)
    requires Arrives(l0, regs, r, t, i, parent, k.now + go, k.p, held) && Sound(r, regs, i) && i + Size(t) <= |regs|
    requires OnLink(l0, r, k, start, t, i, child, go, back) && k.p < |r.list|
    ensures Exact(Steps(r, regs, i, i + Size(t)).list, t, i, k.now + go, start, Some(k.port))
      <==> Served(t, k.port, r.list[k.p].consumed, held, go, back)
    decreases t, 1
  {
    hide *;
    if t.hasdc {
      ClockExact(l0, regs, r, k, start, t, i, parent, child, go, back, held);
    } else {
      InlineExact(l0, regs, r, k, start, t, i, parent, child, go, back, held);
    }
  }

  lemma ExactHead(list: seq<Slave>, t: Tree, i: nat, time: int, start: int, above: Option<Port>)
    requires i < |list|
    ensures Exact(list, t, i, time, start, above) <==>
      && (t.hasdc ==> list[i].pdelay == time - start && (above.Some? ==> list[i].parentport == above.value))
      && ExactForest(list, t.hasdc, t.kids, i + 1, time, start, above)
  {
  }

  lemma {:induction false} ClockExact(l0: seq<Slave>, regs: seq<Stamps>, r: Run, k: Link, start: int, t: Tree, i: nat,
                                      parent: nat, child: nat, go: int, back: int, held: bool)
    requires Arrives(l0, regs, r, t, i, parent, k.now + go, k.p, held) && t.hasdc
    requires OnLink(l0, r, k, start, t, i, child, go, back)
    ensures Exact(Steps(r, regs, i, i + Size(t)).list, t, i, k.now + go, start, Some(k.port))
      <==> Served(t, k.port, r.list[k.p].consumed, held, go, back)
    decreases t, 0
  {
    hide Step, ArrivesBelow, Ready, OnLink, Exact, ServedBelow, AboutToLeave;
    var time := k.now + go;
    PassClock(l0, regs, r, t, i, parent, time, k.p, held);
    MeasureOnLink(l0, regs, r, k, start, t, i, parent, child, go, back, held);
    var m := Step(r, regs, i);
    BelowPass(l0, regs, m, t, t.kids, i, i + 1, time, i, Several(t));
    var s := Steps(m, regs, i + 1, i + Size(t));
    assert Core(m.list[i].(consumed := {})) == Core(s.list[i].(consumed := {}));
    ExactHead(s.list, t, i, time, start, Some(k.port));
    if m.list[i].pdelay == time - start && m.list[i].parentport == k.port {
      LeavesFirst(l0, regs, m, t, i, parent, time, start);
      BelowExact(l0, regs, m, t, t.kids, i, t.entry, i + 1, time, time, start, Several(t), Some(k.port));
    }
  }

  /** The frame is about to leave clock slave p, the root of `t`, for the branches
      `f`, having passed port `prev` at `now`; the delay of p is exact. */
  ghost predicate AboutToLeave(l0: seq<Slave>, regs: seq<Stamps>, r: Run, t: Tree, f: Forest, p: nat, prev: Port,
                               first: nat, entered: int, now: int, start: int) {
    && t.hasdc && 0 < p < first && p < |l0| == |r.list| == |regs| && SameWiring(l0, r.list)
    && l0[p].hasdc && l0[p].active == {t.entry} + PortSet(t.kids) && l0[p].topology == Count(t.kids) + 1
    && Count(f) <= Count(t.kids) && PortSet(f) <= PortSet(t.kids) && prev in l0[p].active
    && (forall q :: q in l0[p].active ==> Ahead(t.entry, q) <= Ahead(t.entry, prev) || q in PortSet(f))
    && FrameOrder(t.entry, f, Ahead(t.entry, prev))
    && r.list[p].stamps == regs[p] && r.list[p].entryport == t.entry && r.list[p].pdelay == entered - start
    && PortTime(regs[p], t.entry) == entered + t.clock && PortTime(regs[p], prev) == now + t.clock
    && entered <= now && (first == p + 1 ==> now == entered)
  }

  lemma LeavesFirst(l0: seq<Slave>, regs: seq<Stamps>, m: Run, t: Tree, i: nat, parent: nat, time: int, start: int)
    requires Shows(l0, regs, t, i, parent, time) && Wired(t) && t.hasdc && SameWiring(l0, m.list)
    requires |m.list| == |l0| && m.list[i].stamps == regs[i] && m.list[i].entryport == t.entry
    requires m.list[i].pdelay == time - start
    ensures AboutToLeave(l0, regs, m, t, t.kids, i, t.entry, i + 1, time, time, start)
  {
  }

  /** The first of the branches hangs on a link. */
  lemma FirstOnLink(l0: seq<Slave>, regs: seq<Stamps>, r: Run, t: Tree, f: Forest, p: nat, prev: Port,
                    first: nat, entered: int, now: int, start: int, held: bool)
    requires AboutToLeave(l0, regs, r, t, f, p, prev, first, entered, now, start) && f.Branch?
    requires ArrivesBelow(l0, regs, r, t, f, p, first, now, p, held)
    ensures OnLink(l0, r, Link(p, prev, f.port, entered, now, t.clock), start, f.sub, first, first, f.delay, f.delay)
  {
    FirstArrives(l0, regs, r, t, f, p, first, now, p, held);
    FrameOrderBound(t.entry, f.rest, Ahead(t.entry, f.port));
    PrevPortSeenFrom(l0[p].active, t.entry, f.port, prev);
    assert Count(f) == 1 + Count(f.rest);
  }

  lemma RestAboutToLeave(l0: seq<Slave>, regs: seq<Stamps>, r: Run, m: Run, t: Tree, f: Forest, p: nat, prev: Port,
                         first: nat, entered: int, now: int, start: int, held: bool)
    requires AboutToLeave(l0, regs, r, t, f, p, prev, first, entered, now, start) && f.Branch?
    requires ArrivesBelow(l0, regs, r, t, f, p, first, now, p, held)
    requires Leaves(l0, r, m, f.sub, first, p, held)
    ensures AboutToLeave(l0, regs, m, t, f.rest, p, f.port, first + Size(f.sub), entered,
                         now + 2 * f.delay + Duration(f.sub), start)
  {
    FrameOrderBound(t.entry, f.rest, Ahead(t.entry, f.port));
    assert WiredForest(f) && Wired(f.sub);
    TripNonNegative(f.sub.kids);
    assert Core(r.list[p].(consumed := {})) == Core(m.list[p].(consumed := {}));
    assert Count(f) == 1 + Count(f.rest);
  }

  lemma {:induction false} BelowExact(l0: seq<Slave>, regs: seq<Stamps>, r: Run, t: Tree, f: Forest, p: nat, prev: Port,
                                      first: nat, entered: int, now: int, start: int, held: bool, above: Option<Port>)
    requires ArrivesBelow(l0, regs, r, t, f, p, first, now, p, held)
    requires Sound(r, regs, first) && first + ForestSize(f) <= |regs| && p < |r.list|
    requires AboutToLeave(l0, regs, r, t, f, p, prev, first, entered, now, start)
    ensures ExactForest(Steps(r, regs, first, first + ForestSize(f)).list, true, f, first, now, start, above)
      <==> ServedBelow(f, r.list[p].consumed, held)
    decreases f, 2
  {
    hide Step, Steps, ArrivesBelow, Arrives, OnLink, Exact, AboutToLeave, Served, Kept, SameWiring;
    if f.Branch? {
      var next, end := first + Size(f.sub), first + ForestSize(f);
      var k := Link(p, prev, f.port, entered, now, t.clock);
      FirstArrives(l0, regs, r, t, f, p, first, now, p, held);
      FirstOnLink(l0, regs, r, t, f, p, prev, first, entered, now, start, held);
      TreePass(l0, regs, r, f.sub, first, p, now + f.delay, p, held);
      TreeExact(l0, regs, r, k, start, f.sub, first, p, first, f.delay, f.delay, held);
      var m := Steps(r, regs, first, next);
      RestArrives(l0, regs, r, m, t, f, p, first, now, p, held);
      RestAboutToLeave(l0, regs, r, m, t, f, p, prev, first, entered, now, start, held);
      var now' := now + 2 * f.delay + Duration(f.sub);
      BelowPass(l0, regs, m, t, f.rest, p, next, now', p, held);
      BelowExact(l0, regs, m, t, f.rest, p, f.port, next, entered, now', start, held, above);
      StepsJoin(r, regs, first, next, end);
      ExactLater(m.list, Steps(m, regs, next, end).list, f.sub, first, now + f.delay, start, Some(f.port),
                 next, end, p);
    }
  }

  /** A slave without a clock only lengthens the link. */
  lemma {:induction false} InlineExact(l0: seq<Slave>, regs: seq<Stamps>, r: Run, k: Link, start: int, t: Tree, i: nat,
                                       parent: nat, child: nat, go: int, back: int, held: bool)
    requires Arrives(l0, regs, r, t, i, parent, k.now + go, k.p, held) && !t.hasdc
    requires OnLink(l0, r, k, start, t, i, child, go, back)
    ensures Exact(Steps(r, regs, i, i + Size(t)).list, t, i, k.now + go, start, Some(k.port))
      <==> Served(t, k.port, r.list[k.p].consumed, held, go, back)
    decreases t, 0
  {
    hide Step, ArrivesBelow, Exact, ServedThrough, StillOnLink;
    var time := k.now + go;
    PassInline(l0, regs, r, t, i, parent, time, k.p, held);
    var m := Step(r, regs, i);
    BelowPass(l0, regs, m, t, t.kids, i, i + 1, time, k.p, held && !Several(t));
    var s := Steps(m, regs, i + 1, i + Size(t));
    ExactHead(s.list, t, i, time, start, Some(k.port));
    if t.kids.Branch? {
      StemOnLink(l0, regs, r, m, k, start, t, i, parent, child, go, back, held);
      ThroughExact(l0, regs, m, k, start, t, t.kids, i, i + 1, child, go, back, held && !Several(t));
    } else {
      NoneExact(s.list, t.kids, i + 1, time, start, Some(k.port), r.list[k.p].consumed, held, go, back);
    }
  }

  lemma NoneExact(list: seq<Slave>, f: Forest, first: nat, now: int, start: int, above: Option<Port>,
                  b: set<Port>, held: bool, go: int, back: int)
    requires f.Nil? && above.Some?
    ensures ExactForest(list, false, f, first, now, start, above) && ServedThrough(f, above.value, b, held, go, back)
  {
  }

  /** As OnLink, for the branches `f` of slave i. */
  ghost predicate StillOnLink(l0: seq<Slave>, r: Run, k: Link, start: int, f: Forest, i: nat, child: nat,
                              go: int, back: int) {
    && ValidWiring(l0) && 1 <= i < |l0| == |r.list| && 0 < k.p < i && Ancestor(l0, i) == (child, k.p)
    && Ready(r.list[k.p], k, start) && go >= 0 && back >= 0 && (go + back) % 2 == 0
    && (child - k.p > 1 || k.now == k.entered)
    && PortTime(r.list[k.p].stamps, k.port) == k.now + go + Trip(f) + back + k.clock
  }

  lemma StemOnLink(l0: seq<Slave>, regs: seq<Stamps>, r: Run, m: Run, k: Link, start: int, t: Tree, i: nat,
                   parent: nat, child: nat, go: int, back: int, held: bool)
    requires OnLink(l0, r, k, start, t, i, child, go, back) && Kept(r.list, m.list, i, i + 1, k.p)
    ensures StillOnLink(l0, m, k, start, t.kids, i, child, go, back)
  {
    ReadyCore(r.list[k.p], m.list[k.p], k, start);
  }

  lemma LinkParity(go: int, back: int, d: int, trip: int)
    requires (go + back) % 2 == 0 && trip % 2 == 0
    ensures (go + d + (d + trip + back)) % 2 == 0
  {
  }

  lemma BranchTimes(l0: seq<Slave>, regs: seq<Stamps>, r: Run, t: Tree, f: Forest, i: nat, first: nat, now: int,
                    p: nat, held: bool)
    requires ArrivesBelow(l0, regs, r, t, f, i, first, now, p, held) && f.Branch?
    ensures f.delay >= 0 && Trip(f.rest) >= 0 && Trip(f.rest) % 2 == 0 && 1 <= i < first < |l0|
    ensures Trip(f) == 2 * f.delay + Duration(f.sub) + Trip(f.rest)
  {
    hide ShowsForest, SameWiring, HoldAt, Ancestor, ValidWiring;
    assert WiredForest(f) && WiredForest(f.rest);
    TripNonNegative(f.rest);
    TripEven(f.rest);
  }

  lemma BranchOnLink(l0: seq<Slave>, regs: seq<Stamps>, r: Run, k: Link, start: int, t: Tree, f: Forest, i: nat,
                     first: nat, child: nat, go: int, back: int, held: bool)
    requires StillOnLink(l0, r, k, start, f, i, child, go, back) && f.Branch? && !t.hasdc
    requires ArrivesBelow(l0, regs, r, t, f, i, first, k.now + go, k.p, held)
    ensures OnLink(l0, r, k, start, f.sub, first, child, go + f.delay, f.delay + Trip(f.rest) + back)
  {
    hide Ready, PortTime, Ancestor, ArrivesBelow, Duration;
    FirstArrives(l0, regs, r, t, f, i, first, k.now + go, k.p, held);
    BranchTimes(l0, regs, r, t, f, i, first, k.now + go, k.p, held);
    LinkParity(go, back, f.delay, Trip(f.rest));
  }

  lemma RestOnLink(l0: seq<Slave>, regs: seq<Stamps>, r: Run, m: Run, k: Link, start: int, t: Tree, f: Forest, i: nat,
                   first: nat, child: nat, go: int, back: int, held: bool)
    requires StillOnLink(l0, r, k, start, f, i, child, go, back) && f.Branch?
    requires ArrivesBelow(l0, regs, r, t, f, i, first, k.now + go, k.p, held)
    requires Leaves(l0, r, m, f.sub, first, k.p, held)
    ensures StillOnLink(l0, m, k, start, f.rest, i, child, go + 2 * f.delay + Duration(f.sub), back)
  {
    ReadyCore(r.list[k.p], m.list[k.p], k, start);
    assert WiredForest(f) && Wired(f.sub);
    TripNonNegative(f.sub.kids);
    TripEven(f.sub.kids);
  }

  lemma {:induction false} ThroughExact(l0: seq<Slave>, regs: seq<Stamps>, r: Run, k: Link, start: int, t: Tree,
                                        f: Forest, i: nat, first: nat, child: nat, go: int, back: int, held: bool)
    requires ArrivesBelow(l0, regs, r, t, f, i, first, k.now + go, k.p, held) && !t.hasdc
    requires Sound(r, regs, first) && first + ForestSize(f) <= |regs| && k.p < |r.list| && k.p < i < first
    requires StillOnLink(l0, r, k, start, f, i, child, go, back)
    ensures ExactForest(Steps(r, regs, first, first + ForestSize(f)).list, false, f, first, k.now + go, start,
                        Some(k.port))
      <==> ServedThrough(f, k.port, r.list[k.p].consumed, held, go, back)
    decreases f, 2
  {
    hide Step, Steps, ArrivesBelow, Arrives, OnLink, StillOnLink, Exact, Served, Kept, SameWiring;
    if f.Branch? {
      var next, end, now := first + Size(f.sub), first + ForestSize(f), k.now + go;
      FirstArrives(l0, regs, r, t, f, i, first, now, k.p, held);
      BranchOnLink(l0, regs, r, k, start, t, f, i, first, child, go, back, held);
      TreePass(l0, regs, r, f.sub, first, i, now + f.delay, k.p, held);
      TreeExact(l0, regs, r, k, start, f.sub, first, i, child, go + f.delay, f.delay + Trip(f.rest) + back, held);
      var m := Steps(r, regs, first, next);
      RestArrives(l0, regs, r, m, t, f, i, first, now, k.p, held);
      RestOnLink(l0, regs, r, m, k, start, t, f, i, first, child, go, back, held);
      var go' := go + 2 * f.delay + Duration(f.sub);
      BelowPass(l0, regs, m, t, f.rest, i, next, k.now + go', k.p, held);
      ThroughExact(l0, regs, m, k, start, t, f.rest, i, next, child, go', back, held);
      StepsJoin(r, regs, first, next, end);
      ExactLater(m.list, Steps(m, regs, next, end).list, f.sub, first, now + f.delay, start, Some(k.port),
                 next, end, k.p);
    }
  }

  // ----- the whole network -----

  /** No clock slave is above slave i, and no delay is set from there on. */
  ghost predicate Fresh(r: Run, i: nat) {
    forall k :: i <= k < |r.list| ==> r.list[k].pdelay == 0
  }

  lemma FreshLater(a: Run, b: Run, lo: nat, hi: nat)
    requires Fresh(a, lo) && Kept(a.list, b.list, lo, hi, 0) && 0 < lo <= hi
    ensures Fresh(b, hi)
  {
    forall k | hi <= k < |b.list|
      ensures b.list[k].pdelay == 0
    {
      assert Core(a.list[k]) == Core(b.list[k]);
    }
  }

  lemma {:induction false} RootExact(l0: seq<Slave>, regs: seq<Stamps>, r: Run, t: Tree, i: nat, parent: nat, time: int,
                                     start: int)
    requires Arrives(l0, regs, r, t, i, parent, time, 0, false) && Sound(r, regs, i) && i + Size(t) <= |regs|
    requires Fresh(r, i)
    ensures Exact(Steps(r, regs, i, i + Size(t)).list, t, i, time, start, None) <==> Reached(t, time, start)
    decreases t, 1
  {
    hide Step, ArrivesBelow, Exact, ServedBelow, ReachedThrough, AboutToLeave;
    var m := Step(r, regs, i);
    var s := Steps(m, regs, i + 1, i + Size(t));
    ExactHead(s.list, t, i, time, start, None);
    if t.hasdc {
      PassClock(l0, regs, r, t, i, parent, time, 0, false);
      BelowPass(l0, regs, m, t, t.kids, i, i + 1, time, i, Several(t));
      assert Core(m.list[i].(consumed := {})) == Core(s.list[i].(consumed := {}));
      if time == start {
        LeavesFirst(l0, regs, m, t, i, parent, time, start);
        BelowExact(l0, regs, m, t, t.kids, i, t.entry, i + 1, time, time, start, Several(t), None);
      }
    } else {
      PassInline(l0, regs, r, t, i, parent, time, 0, false);
      FreshLater(r, m, i, i + 1);
      RootBelowExact(l0, regs, m, t, t.kids, i, i + 1, time, start);
    }
  }

  lemma {:induction false} RootBelowExact(l0: seq<Slave>, regs: seq<Stamps>, r: Run, t: Tree, f: Forest, i: nat,
                                          first: nat, now: int, start: int)
    requires ArrivesBelow(l0, regs, r, t, f, i, first, now, 0, false) && !t.hasdc && 0 < first
    requires Sound(r, regs, first) && first + ForestSize(f) <= |regs| && Fresh(r, first)
    ensures ExactForest(Steps(r, regs, first, first + ForestSize(f)).list, false, f, first, now, start, None)
      <==> ReachedThrough(f, now, start)
    decreases f, 2
  {
    hide Step, Steps, ArrivesBelow, Arrives, Exact, Reached, Kept, SameWiring, Fresh;
    if f.Branch? {
      var next, end := first + Size(f.sub), first + ForestSize(f);
      FirstArrives(l0, regs, r, t, f, i, first, now, 0, false);
      TreePass(l0, regs, r, f.sub, first, i, now + f.delay, 0, false);
      RootExact(l0, regs, r, f.sub, first, i, now + f.delay, start);
      var m := Steps(r, regs, first, next);
      RestArrives(l0, regs, r, m, t, f, i, first, now, 0, false);
      FreshLater(r, m, first, next);
      var now' := now + 2 * f.delay + Duration(f.sub);
      BelowPass(l0, regs, m, t, f.rest, i, next, now', 0, false);
      RootBelowExact(l0, regs, m, t, f.rest, i, next, now', start);
      StepsJoin(r, regs, first, next, end);
      ExactLater(m.list, Steps(m, regs, next, end).list, f.sub, first, now + f.delay, start, None, next, end, 0);
    }
  }

  /** The clock setup makes the network exact if and only if every clock slave is
      served its own port and reached over a link that takes equally long both ways. */
  lemma SetupExact(list: seq<Slave>, regs: seq<Stamps>, t: Tree, time: int, start: int)
    requires |list| == |regs| == Size(t) + 1 && ValidWiring(list)
    requires Shows(list, regs, t, 1, 0, time) && Wired(t)
    requires forall k :: 1 <= k < |list| ==> list[k].pdelay == 0
    ensures Exact(Configured(list, regs), t, 1, time, start, None) <==> Reached(t, time, start)
  {
    var r := Run(list[0 := list[0].(hasdc := false)], 0, 0);
    assert Ancestor(list, 1) == (1, 0);
    RootExact(list, regs, r, t, 1, 0, time, start);
  }
}
