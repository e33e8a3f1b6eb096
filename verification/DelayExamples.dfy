/** Two networks for which the clock setup goes wrong. */
module DelayExamples {
  import opened Topology
  import opened DistributedClocks
  import opened Options
  import opened Travel
  import opened PropagationDelay
  import opened DelayConditions

  lemma StepsThree(r: Run, regs: seq<Stamps>, i: nat)
    requires Sound(r, regs, i) && i + 3 <= |regs|
    ensures var m := Step(r, regs, i); var n := Step(m, regs, i + 1);
            Steps(r, regs, i, i + 3) == Step(n, regs, i + 2)
  {
    hide Step;
    var m := Step(r, regs, i);
    var n := Step(m, regs, i + 1);
    assert Steps(n, regs, i + 2, i + 3) == Steps(Step(n, regs, i + 2), regs, i + 3, i + 3);
    assert Steps(m, regs, i + 1, i + 3) == Steps(n, regs, i + 2, i + 3);
  }

  /** What a leaf shows. */
  lemma LeafShows(list: seq<Slave>, regs: seq<Stamps>, t: Tree, i: nat, parent: nat, time: int)
    requires t.kids.Nil? && 1 <= i < |list| == |regs|
    requires list[i].topology == 1 && list[i].hasdc == t.hasdc && list[i].parent == parent
    requires t.hasdc ==> list[i].active == {t.entry} && PortTime(regs[i], t.entry) == time + t.clock
    ensures Shows(list, regs, t, i, parent, time) && Wired(t) && Size(t) == 1 && Duration(t) == 0
  {
    assert PortSet(t.kids) == {};
  }

  /** A slave with two branches, given what the branches show. */
  lemma PairShows(list: seq<Slave>, regs: seq<Stamps>, t: Tree, i: nat, parent: nat, time: int)
    requires Several(t) && t.kids.rest.rest.Nil? && 1 <= i < |list| == |regs|
    requires list[i].topology == 3 && list[i].hasdc == t.hasdc && list[i].parent == parent
    requires var (a, b) := (t.kids, t.kids.rest);
      var mid := time + 2 * a.delay + Duration(a.sub);
      && Shows(list, regs, a.sub, i + 1, i, time + a.delay) && Wired(a.sub) && a.delay > 0
      && Shows(list, regs, b.sub, i + 1 + Size(a.sub), i, mid + b.delay) && Wired(b.sub) && b.delay > 0
      && (t.hasdc ==>
            && list[i].active == {t.entry, a.port, b.port} && PortTime(regs[i], t.entry) == time + t.clock
            && PortTime(regs[i], a.port) == mid + t.clock
            && PortTime(regs[i], b.port) == mid + 2 * b.delay + Duration(b.sub) + t.clock
            && 0 < Ahead(t.entry, a.port) < Ahead(t.entry, b.port))
    ensures Shows(list, regs, t, i, parent, time) && Wired(t)
    ensures Size(t) == 1 + Size(t.kids.sub) + Size(t.kids.rest.sub)
    ensures Duration(t) == 2 * t.kids.delay + Duration(t.kids.sub) + 2 * t.kids.rest.delay + Duration(t.kids.rest.sub)
  {
    hide Ahead, PortTime;
    var (a, b) := (t.kids, t.kids.rest);
    assert Count(b) == 1 && Count(a) == 2 && PortSet(b) == {b.port} && PortSet(a) == {a.port, b.port};
    assert {t.entry} + PortSet(a) == {t.entry, a.port, b.port};
    assert Trip(b) == 2 * b.delay + Duration(b.sub) && ForestSize(b) == Size(b.sub);
    assert ShowsForest(list, regs, t, b, i, i + 1 + Size(a.sub), time + 2 * a.delay + Duration(a.sub));
    assert WiredForest(b) && WiredForest(a);
    assert t.hasdc ==> FrameOrder(t.entry, b, Ahead(t.entry, a.port));
  }

  // ----- branches out of turn -----

  /** A slave entered through port 1 with branches on ports 2 and 3, in that
      order, over links of 10 and 20, and what the hardware shows of it. */
  function CrossedTree(): Tree {
    var leaf := Node(true, 0, 0, Nil);
    Node(true, 1, 0, Branch(2, 10, leaf, Branch(3, 20, leaf, Nil)))
  }

  function CrossedList(): seq<Slave> {
    var s := Slave(3, {1, 2, 3}, true, 0, Stamps(0, 0, 0, 0), {}, 0, 0, 0, 0, 0);
    var leaf := s.(topology := 1, active := {0}, parent := 1);
    [s.(hasdc := false), s, leaf, leaf]
  }

  function CrossedRegs(): seq<Stamps> {
    [Stamps(0, 0, 0, 0), Stamps(0, 0, 20, 60), Stamps(10, 0, 0, 0), Stamps(40, 0, 0, 0)]
  }

  lemma CrossedFirstStep(r: Run)
    requires r == Run(CrossedList(), 0, 0)
    ensures Sound(r, CrossedRegs(), 1)
    ensures var s := Step(r, CrossedRegs(), 1);
            && s.list[1].consumed == {2, 3} && s.list[1].stamps == CrossedRegs()[1] && s.list[1].entryport == 1
            && s.list[1].pdelay == 0 && SameWiring(CrossedList(), s.list) && s.prev == 1 && s.list[0].hasdc
  {
    CrossedEntry();
    hide Earliest, PortList;
  }

  lemma CrossedEntry()
    ensures Earliest(PortList({1, 2, 3}), CrossedRegs()[1]) == 1
  {
    assert PortList({1, 2, 3}) == [3, 1, 2];
    assert [3, 1, 2][..2] == [3, 1] && [3, 1][..1] == [3];
    assert Earliest([3, 1], CrossedRegs()[1]) == 1;
  }

  lemma CrossedLaterSteps(r: Run)
    requires Sound(r, CrossedRegs(), 2) && SameWiring(CrossedList(), r.list) && r.prev == 1 && r.list[0].hasdc
    requires r.list[1].consumed == {2, 3} && r.list[1].stamps == CrossedRegs()[1] && r.list[1].entryport == 1
    requires r.list[1].pdelay == 0
    ensures Step(r, CrossedRegs(), 2).list[2].pdelay == 20
  {
  }

  lemma LaterPdelayKept(r: Run, regs: seq<Stamps>, i: nat, j: nat)
    requires Sound(r, regs, i) && 0 < j < i < |regs|
    ensures Step(r, regs, i).list[j].pdelay == r.list[j].pdelay
  {
  }

  lemma CrossedNetwork()
    ensures Network(CrossedList(), CrossedRegs(), CrossedTree(), 0)
    ensures AllClocks(CrossedTree()) && !Ordered(CrossedTree())
  {
    hide Shows, ShowsForest, Wired, WiredForest, Size, Duration;
    var t, list, regs := CrossedTree(), CrossedList(), CrossedRegs();
    LeafShows(list, regs, t.kids.sub, 2, 1, 10);
    LeafShows(list, regs, t.kids.rest.sub, 3, 1, 40);
    PairShows(list, regs, t, 1, 0, 0);
    assert AllClocks(t.kids.sub) && AllClocksBelow(t.kids.rest);
  }

  /** When the two orders differ the delays can be wrong: here the first branch
      is given the delay of the second. */
  lemma WrongOrderWrongDelay()
    ensures var t, list, regs := CrossedTree(), CrossedList(), CrossedRegs();
            && Network(list, regs, t, 0)
            && Configured(list, regs)[2].pdelay == 20 && !Exact(Configured(list, regs), t, 1, 0, 0, None)
  {
    hide Step, Shows, Exact, SameWiring, Wired, Ordered;
    var t, list, regs := CrossedTree(), CrossedList(), CrossedRegs();
    CrossedNetwork();
    ClockTreesExact(list, regs, t, 0);
    var r0 := Run(list, 0, 0);
    assert list[0 := list[0].(hasdc := false)] == list;
    CrossedFirstStep(r0);
    var r1 := Step(r0, regs, 1);
    CrossedLaterSteps(r1);
    var r2 := Step(r1, regs, 2);
    LaterPdelayKept(r2, regs, 3, 2);
    StepsThree(r0, regs, 1);
  }

  // ----- a branched branch without clocks -----

  /** A clock slave with two branches: on port 3 a slave without a clock that has two
      leaves, on port 1 a clock slave; all links take 10. */
  function ForkedTree(): Tree {
    var leaf := Node(false, 0, 0, Nil);
    var fork := Node(false, 0, 0, Branch(1, 10, leaf, Branch(2, 10, leaf, Nil)));
    Node(true, 0, 0, Branch(3, 10, fork, Branch(1, 10, Node(true, 0, 0, Nil), Nil)))
  }

  function ForkedList(): seq<Slave> {
    var s := Slave(3, {0, 1, 3}, true, 0, Stamps(0, 0, 0, 0), {}, 0, 0, 0, 0, 0);
    var leaf := s.(topology := 1, active := {0}, hasdc := false, parent := 2);
    [s.(hasdc := false), s, s.(active := {0, 1, 2}, hasdc := false, parent := 1), leaf, leaf,
     leaf.(hasdc := true, parent := 1)]
  }

  function ForkedRegs(): seq<Stamps> {
    var none := Stamps(0, 0, 0, 0);
    [none, Stamps(0, 80, 0, 60), none, none, none, Stamps(70, 0, 0, 0)]
  }

  lemma ForkedShows()
    ensures Shows(ForkedList(), ForkedRegs(), ForkedTree(), 1, 0, 0) && Wired(ForkedTree())
    ensures Size(ForkedTree()) == 5
  {
    hide Shows, ShowsForest, Wired, WiredForest, Size, Duration;
    var t, list, regs := ForkedTree(), ForkedList(), ForkedRegs();
    var fork, last := t.kids.sub, t.kids.rest.sub;
    LeafShows(list, regs, fork.kids.sub, 3, 2, 20);
    LeafShows(list, regs, fork.kids.rest.sub, 4, 2, 40);
    PairShows(list, regs, fork, 2, 1, 10);
    LeafShows(list, regs, last, 5, 1, 70);
    PairShows(list, regs, t, 1, 0, 0);
  }

  lemma ForkedNotRegular()
    ensures Slow(ForkedTree()) && There(ForkedTree()) == 0 && !Regular(ForkedTree())
  {
    var t := ForkedTree();
    var fork := t.kids.sub;
    assert ForestClocks(fork.kids.rest) == 0 && Clocks(fork) == 0 && !Unbranched(fork);
    assert PortSet(t.kids) == {1, 3};
    assert Slow(fork.kids.sub) && SlowForest(fork.kids.rest) && AllSlow(fork.kids.rest) && Slow(fork);
  }

  lemma ForkedFirstStep(r: Run)
    requires r == Run(ForkedList(), 0, 0)
    ensures Sound(r, ForkedRegs(), 1)
    ensures var s := Step(r, ForkedRegs(), 1);
            && s.list[1].consumed == {1, 3} && s.list[1].stamps == ForkedRegs()[1] && s.list[1].entryport == 0
            && s.list[1].pdelay == 0 && SameWiring(ForkedList(), s.list) && s.list[0].hasdc && s.hold == 0
  {
    ForkedEntry();
    hide Earliest, PortList;
  }

  lemma ForkedEntry()
    ensures Earliest(PortList({0, 1, 3}), ForkedRegs()[1]) == 0
  {
    assert PortList({0, 1, 3}) == [0, 3, 1];
    assert [0, 3, 1][..2] == [0, 3] && [0, 3][..1] == [0];
    assert Earliest([0, 3], ForkedRegs()[1]) == 0;
  }

  /** The three slaves of the first branch leave the clock slave both its ports. */
  lemma ForkedMiddleSteps(r: Run)
    requires Sound(r, ForkedRegs(), 2) && SameWiring(ForkedList(), r.list) && r.hold == 0 && r.list[0].hasdc
    ensures var s := Steps(r, ForkedRegs(), 2, 5);
            SameWiring(ForkedList(), s.list) && s.list[1] == r.list[1] && s.list[0].hasdc
  {
    hide Step;
    var regs := ForkedRegs();
    InlineStep(r, regs, 2);
    var m := Step(r, regs, 2);
    InlineStep(m, regs, 3);
    var n := Step(m, regs, 3);
    InlineStep(n, regs, 4);
    StepsThree(r, regs, 2);
  }

  lemma ForkedLastStep(r: Run)
    requires Sound(r, ForkedRegs(), 5) && SameWiring(ForkedList(), r.list) && r.list[0].hasdc
    requires r.list[1].consumed == {1, 3} && r.list[1].stamps == ForkedRegs()[1] && r.list[1].entryport == 0
    requires r.list[1].pdelay == 0
    ensures var s := Step(r, ForkedRegs(), 5); s.list[5].parentport == 3 && s.list[5].pdelay == 30
  {
  }

  /** The fork uses up its own inner ports and none of the clock slave, so the clock
      slave after it is taken to be on port 3 at delay 30 instead of on port 1 at 70. */
  lemma SideBranchWrongDelay()
    ensures var t, list, regs := ForkedTree(), ForkedList(), ForkedRegs();
            && Network(list, regs, t, 0)
            && Configured(list, regs)[5].parentport == 3 && Configured(list, regs)[5].pdelay == 30
            && !Exact(Configured(list, regs), t, 1, 0, 0, None)
  {
    hide Step, Shows, Exact, SameWiring, Wired, Regular, Slow, Size;
    var t, list, regs := ForkedTree(), ForkedList(), ForkedRegs();
    ForkedShows();
    ForkedNotRegular();
    assert Network(list, regs, t, 0);
    DelaysAreTravelTimes(list, regs, t, 0);
    var r0 := Run(list, 0, 0);
    assert list[0 := list[0].(hasdc := false)] == list;
    ForkedFirstStep(r0);
    var r1 := Step(r0, regs, 1);
    ForkedMiddleSteps(r1);
    var r2 := Steps(r1, regs, 2, 5);
    ForkedLastStep(r2);
    StepsJoin(r0, regs, 1, 2, 6);
    StepsJoin(r1, regs, 2, 5, 6);
    assert Steps(r0, regs, 1, 2) == Steps(r1, regs, 2, 2) == r1;
    assert Steps(r2, regs, 5, 6) == Steps(Step(r2, regs, 5), regs, 6, 6);
  }
}
