/** For which networks the clock setup finds the true travel times and ports. */
module DelayConditions {
  import opened Topology
  import opened DistributedClocks
  import opened Options
  import opened Travel
  import opened PropagationDelay

  /** Number of clock slaves of `t` with no other clock slave of `t` above them. */
  function Clocks(t: Tree): nat {
    if t.hasdc then 1 else ForestClocks(t.kids)
  }

  function ForestClocks(f: Forest): nat {
    if f.Nil? then 0 else Clocks(f.sub) + ForestClocks(f.rest)
  }

  /** A single line of slaves without clocks. */
  predicate Unbranched(t: Tree) {
    !t.hasdc && (t.kids.Branch? ==> t.kids.rest.Nil? && Unbranched(t.kids.sub))
  }

  /** Time from entering `t` to the first clock slave in it, and from leaving that
      one to leaving `t`. */
  function There(t: Tree): int {
    if t.hasdc then 0 else ForestThere(t.kids)
  }

  function ForestThere(f: Forest): int {
    if ForestClocks(f) == 0 then 0
    else if Clocks(f.sub) > 0 then f.delay + There(f.sub)
    else 2 * f.delay + Duration(f.sub) + ForestThere(f.rest)
  }

  function Back(t: Tree): int {
    if t.hasdc then 0 else ForestBack(t.kids)
  }

  function ForestBack(f: Forest): int {
    if ForestClocks(f) == 0 then 0
    else if Clocks(f.sub) > 0 then Back(f.sub) + f.delay + Trip(f.rest)
    else ForestBack(f.rest)
  }

  /** Each branch with a clock slave finds its own port to be the next one in the
      order 3 - 1 - 2 - 0.  An unbranched branch without clock slaves uses up a port
      too, a branched one does not. */
  ghost predicate InTurn(f: Forest, b: set<Port>) {
    f.Branch? ==>
      if Clocks(f.sub) > 0 then OpenPort(b) == f.port && InTurn(f.rest, b - {f.port})
      else InTurn(f.rest, if Unbranched(f.sub) then b - {OpenPort(b)} else b)
  }

  /** At most one clock slave hangs on each branch, and the frame takes as long to it
      as back from it. */
  ghost predicate Balanced(f: Forest) {
    f.Branch? ==> Clocks(f.sub) <= 1 && There(f.sub) == Back(f.sub) && Balanced(f.rest)
  }

  ghost predicate Regular(t: Tree) {
    (t.hasdc ==> InTurn(t.kids, PortSet(t.kids)) && Balanced(t.kids)) && RegularForest(t.kids)
  }

  ghost predicate RegularForest(f: Forest) {
    f.Branch? ==> Regular(f.sub) && RegularForest(f.rest)
  }

  /** Links below slaves without a clock take some time. */
  ghost predicate Slow(t: Tree) {
    (!t.hasdc ==> AllSlow(t.kids)) && SlowForest(t.kids)
  }

  ghost predicate SlowForest(f: Forest) {
    f.Branch? ==> Slow(f.sub) && SlowForest(f.rest)
  }

  ghost predicate AllSlow(f: Forest) {
    f.Branch? ==> f.delay > 0 && AllSlow(f.rest)
  }

  // ----- why two clock slaves on a branch cannot both be served -----

  lemma {:induction false} ServedBounds(t: Tree, port: Port, b: set<Port>, held: bool, go: int, back: int)
    requires Served(t, port, b, held, go, back) && Clocks(t) > 0 && Wired(t)
    ensures go <= back + Duration(t) && back <= go + Duration(t)
    decreases t
  {
    TripNonNegative(t.kids);
    if !t.hasdc {
      ThroughBounds(t.kids, port, b, held && !Several(t), go, back);
    }
  }

  lemma {:induction false} ThroughBounds(f: Forest, port: Port, b: set<Port>, held: bool, go: int, back: int)
    requires ServedThrough(f, port, b, held, go, back) && ForestClocks(f) > 0 && WiredForest(f)
    ensures go <= back + Trip(f) && back <= go + Trip(f)
    decreases f
  {
    assert Wired(f.sub) && WiredForest(f.rest) && f.delay >= 0;
    TripNonNegative(f.sub.kids);
    TripNonNegative(f.rest);
    hide Served, Clocks, Wired, Takes, Left;
    if Clocks(f.sub) > 0 {
      ServedBounds(f.sub, port, b, held, go + f.delay, f.delay + Trip(f.rest) + back);
    } else {
      ThroughBounds(f.rest, port, Left(b, Takes(f.sub, held)), held, go + 2 * f.delay + Duration(f.sub), back);
    }
  }

  lemma {:induction false} ReachedBounds(t: Tree, time: int, start: int)
    requires Reached(t, time, start) && Clocks(t) > 0 && Wired(t)
    ensures time <= start <= time + Duration(t)
    decreases t
  {
    TripNonNegative(t.kids);
    if !t.hasdc {
      ReachedThroughBounds(t.kids, time, start);
    }
  }

  lemma {:induction false} ReachedThroughBounds(f: Forest, now: int, start: int)
    requires ReachedThrough(f, now, start) && ForestClocks(f) > 0 && WiredForest(f)
    ensures now <= start <= now + Trip(f)
    decreases f
  {
    assert Wired(f.sub) && WiredForest(f.rest) && f.delay >= 0;
    TripNonNegative(f.sub.kids);
    TripNonNegative(f.rest);
    hide Reached, Clocks, Wired;
    if Clocks(f.sub) > 0 {
      ReachedBounds(f.sub, now + f.delay, start);
    } else {
      ReachedThroughBounds(f.rest, now + 2 * f.delay + Duration(f.sub), start);
    }
  }

  // ----- the conditions -----

  /** With at most one clock slave in it a branch uses up one port if there is one,
      and otherwise exactly if it is unbranched. */
  lemma {:induction false} BranchTakes(t: Tree, held: bool)
    requires Clocks(t) <= 1
    ensures Takes(t, held) == if Clocks(t) == 1 || (held && Unbranched(t)) then 1 else 0
    decreases t
  {
    if !t.hasdc {
      BranchesTake(t.kids, held && !Several(t));
    }
  }

  lemma {:induction false} BranchesTake(f: Forest, held: bool)
    requires ForestClocks(f) <= 1 && (held && f.Branch? ==> f.rest.Nil?)
    ensures TakesForest(f, held) == if ForestClocks(f) == 1 || (held && f.Branch? && Unbranched(f.sub)) then 1 else 0
    decreases f
  {
    if f.Branch? {
      BranchTakes(f.sub, held);
      BranchesTake(f.rest, held);
    }
  }

  lemma {:induction false} NoClocksRegular(f: Forest)
    requires ForestClocks(f) == 0
    ensures RegularForest(f)
    decreases f
  {
    if f.Branch? {
      NoClocksRegular(f.sub.kids);
      NoClocksRegular(f.rest);
    }
  }

  lemma {:induction false} ServedIff(t: Tree, port: Port, b: set<Port>, held: bool, go: int, back: int)
    requires Wired(t) && Slow(t)
    ensures Served(t, port, b, held, go, back) <==>
      Clocks(t) == 0 || (Clocks(t) == 1 && OpenPort(b) == port && go + There(t) == back + Back(t) && Regular(t))
    decreases t, 1
  {
    if t.hasdc {
      hide InTurn, Balanced, RegularForest;
      BelowIff(t.kids, PortSet(t.kids), Several(t));
    } else {
      ThroughIff(t.kids, port, b, held && !Several(t), go, back);
    }
  }

  lemma {:induction false} ThroughIff(f: Forest, port: Port, b: set<Port>, held: bool, go: int, back: int)
    requires WiredForest(f) && SlowForest(f) && AllSlow(f) && (held && f.Branch? ==> f.rest.Nil?)
    ensures ServedThrough(f, port, b, held, go, back) <==>
      || ForestClocks(f) == 0
      || (ForestClocks(f) == 1 && OpenPort(b) == port && go + ForestThere(f) == back + ForestBack(f)
          && RegularForest(f))
    decreases f, 0
  {
    if f.Branch? {
      hide Regular, Served, There, Back, OpenPort, Left, Takes, Clocks;
      var go', b' := go + 2 * f.delay + Duration(f.sub), Left(b, Takes(f.sub, held));
      ServedIff(f.sub, port, b, held, go + f.delay, f.delay + Trip(f.rest) + back);
      ThroughIff(f.rest, port, b', held, go', back);
      if Clocks(f.sub) == 0 {
        NothingUsed(f, b, held);
      } else if ForestClocks(f.rest) == 0 {
        NoClocksRegular(f.rest);
      } else if ServedThrough(f, port, b, held, go, back) {
        ServedBounds(f.sub, port, b, held, go + f.delay, f.delay + Trip(f.rest) + back);
        ThroughBounds(f.rest, port, b', held, go', back);
        assert false;
      }
    }
  }

  lemma NothingUsed(f: Forest, b: set<Port>, held: bool)
    requires f.Branch? && Clocks(f.sub) == 0 && (held ==> f.rest.Nil?)
    ensures f.rest.Branch? ==> Left(b, Takes(f.sub, held)) == b
    ensures Regular(f.sub)
  {
    BranchTakes(f.sub, held);
    NoClocksRegular(f.sub.kids);
  }

  lemma {:induction false} BelowIff(f: Forest, b: set<Port>, held: bool)
    requires WiredForest(f) && SlowForest(f) && (!held && f.Branch? ==> f.rest.Nil?)
    ensures ServedBelow(f, b, held) <==> InTurn(f, b) && Balanced(f) && RegularForest(f)
    decreases f, 0
  {
    if f.Branch? {
      hide Regular, Served, There, Back, OpenPort, Clocks;
      ServedIff(f.sub, f.port, b, held, f.delay, f.delay);
      if Clocks(f.sub) <= 1 {
        BranchTakes(f.sub, held);
        BelowIff(f.rest, Left(b, Takes(f.sub, held)), held);
        LeftOne(b);
        NoClocksBalanced(f.sub);
      }
    }
  }

  lemma LeftOne(b: set<Port>)
    ensures Left(b, 1) == b - {OpenPort(b)} && Left(b, 0) == b
  {
  }

  lemma NoClocksBalanced(t: Tree)
    ensures Clocks(t) == 0 ==> There(t) == 0 && Back(t) == 0 && Regular(t)
  {
    if Clocks(t) == 0 {
      NoClocksRegular(t.kids);
    }
  }

  lemma {:induction false} ReachedIff(t: Tree, time: int, start: int)
    requires Wired(t) && Slow(t)
    ensures Reached(t, time, start) <==>
      Clocks(t) == 0 || (Clocks(t) == 1 && time + There(t) == start && Regular(t))
    decreases t, 1
  {
    if t.hasdc {
      hide InTurn, Balanced, RegularForest;
      BelowIff(t.kids, PortSet(t.kids), Several(t));
    } else {
      ReachedThroughIff(t.kids, time, start);
    }
  }

  lemma {:induction false} ReachedThroughIff(f: Forest, now: int, start: int)
    requires WiredForest(f) && SlowForest(f) && AllSlow(f)
    ensures ReachedThrough(f, now, start) <==>
      ForestClocks(f) == 0 || (ForestClocks(f) == 1 && now + ForestThere(f) == start && RegularForest(f))
    decreases f, 0
  {
    if f.Branch? {
      hide Regular, Reached, There, Clocks;
      var now' := now + 2 * f.delay + Duration(f.sub);
      ReachedIff(f.sub, now + f.delay, start);
      ReachedThroughIff(f.rest, now', start);
      if Clocks(f.sub) == 0 {
        NoClocksBalanced(f.sub);
      } else if ForestClocks(f.rest) == 0 {
        NoClocksRegular(f.rest);
      } else if ReachedThrough(f, now, start) {
        ReachedBounds(f.sub, now + f.delay, start);
        ReachedThroughBounds(f.rest, now', start);
        assert false;
      }
    }
  }

  /** What the hardware shows of `t` before the clock setup. */
  ghost predicate Network(list: seq<Slave>, regs: seq<Stamps>, t: Tree, time: int) {
    && |list| == |regs| == Size(t) + 1 && ValidWiring(list) && Shows(list, regs, t, 1, 0, time) && Wired(t)
    && forall k :: 1 <= k < |list| ==> list[k].pdelay == 0
  }

  /** Main result.  For every tree of slaves with and without clocks, all delays and
      parent ports come out exact if and only if every clock slave is served its own port
      over a link that takes equally long both ways.  If links below slaves without a
      clock take some time, that is so exactly when one clock slave is reached first and
      below every clock slave each branch is unambiguous: it holds at most one clock
      slave to be reached first, equally far both ways, and its port is the next one. */
  lemma DelaysAreTravelTimes(list: seq<Slave>, regs: seq<Stamps>, t: Tree, time: int)
    requires Network(list, regs, t, time)
    ensures var exact := Exact(Configured(list, regs), t, 1, time, time + There(t), None);
            && (exact <==> Reached(t, time, time + There(t)))
            && (Slow(t) ==> (exact <==> Clocks(t) <= 1 && Regular(t)))
  {
    hide Exact, Configured, Reached, Regular, Slow;
    SetupExact(list, regs, t, time, time + There(t));
    if Slow(t) {
      ReachedIff(t, time, time + There(t));
      NoClocksBalanced(t);
    }
  }

  // ----- networks of clock slaves only -----

  ghost predicate AllClocks(t: Tree) {
    t.hasdc && AllClocksBelow(t.kids)
  }

  ghost predicate AllClocksBelow(f: Forest) {
    f.Branch? ==> AllClocks(f.sub) && AllClocksBelow(f.rest)
  }

  /** At every slave the frame visits the branches in the order in which parent ports
      are used up. */
  ghost predicate Ordered(t: Tree) {
    ConsumeOrder(t.kids) && OrderedBelow(t.kids)
  }

  ghost predicate OrderedBelow(f: Forest) {
    f.Branch? ==> Ordered(f.sub) && OrderedBelow(f.rest)
  }


  lemma ConsumeOrderBound(f: Forest)
    requires ConsumeOrder(f) && f.Branch?
    ensures forall r :: r in PortSet(f.rest) ==> Turn(f.port) < Turn(r)
    decreases f
  {
    if f.rest.Branch? {
      ConsumeOrderBound(f.rest);
    }
  }

  lemma OpenPortIsNext(f: Forest)
    requires ConsumeOrder(f) && f.Branch?
    ensures OpenPort(PortSet(f)) == f.port
    ensures PortSet(f) - {f.port} == PortSet(f.rest)
  {
    ConsumeOrderBound(f);
  }
  lemma OpenPortLeast(b: set<Port>, p: Port)
    requires p in b
    ensures OpenPort(b) in b && Turn(OpenPort(b)) <= Turn(p)
  {
  }

  lemma {:induction false} ClocksInTurn(e: Port, f: Forest, last: nat)
    requires FrameOrder(e, f, last) && AllClocksBelow(f)
    ensures InTurn(f, PortSet(f)) <==> ConsumeOrder(f)
    ensures Balanced(f)
    decreases f
  {
    if f.Branch? {
      hide OpenPort;
      assert AllClocks(f.sub);
      FrameOrderBound(e, f.rest, Ahead(e, f.port));
      ClocksInTurn(e, f.rest, Ahead(e, f.port));
      assert PortSet(f) - {f.port} == PortSet(f.rest);
      if ConsumeOrder(f) {
        OpenPortIsNext(f);
      } else if f.rest.Branch? {
        OpenPortLeast(PortSet(f), f.rest.port);
        assert f.port != f.rest.port;
        assert Turn(f.port) != Turn(f.rest.port);
      }
    }
  }

  lemma {:induction false} ClocksRegular(t: Tree)
    requires AllClocks(t) && Wired(t)
    ensures (Regular(t) <==> Ordered(t)) && Slow(t) && Clocks(t) == 1
    decreases t
  {
    hide InTurn, Balanced, ConsumeOrder;
    ClocksInTurn(t.entry, t.kids, 0);
    ClocksBelowRegular(t.kids);
  }

  lemma {:induction false} ClocksBelowRegular(f: Forest)
    requires AllClocksBelow(f) && WiredForest(f)
    ensures (RegularForest(f) <==> OrderedBelow(f)) && SlowForest(f)
    decreases f
  {
    if f.Branch? {
      ClocksRegular(f.sub);
      ClocksBelowRegular(f.rest);
    }
  }

  /** Main result.  When every slave has a clock, all delays and parent ports are exact
      if and only if the two orders agree at every slave. */
  lemma ClockTreesExact(list: seq<Slave>, regs: seq<Stamps>, t: Tree, time: int)
    requires Network(list, regs, t, time) && AllClocks(t)
    ensures Exact(Configured(list, regs), t, 1, time, time, None) <==> Ordered(t)
  {
    ClocksRegular(t);
    DelaysAreTravelTimes(list, regs, t, time);
  }

  /** They always agree for a slave entered through port 0 or port 3. */
  lemma {:induction false} OrdersAgree(e: Port, f: Forest, last: nat)
    requires e == 0 || e == 3
    requires FrameOrder(e, f, last)
    ensures ConsumeOrder(f)
    decreases f
  {
    if f.Branch? {
      OrdersAgree(e, f.rest, Ahead(e, f.port));
    }
  }
  // ----- branches without clocks -----

  /** A branched branch without clocks does no harm if no branch with a clock follows. */
  ghost predicate Harmless(f: Forest) {
    f.Branch? ==>
      (Clocks(f.sub) > 0 || Unbranched(f.sub) || ForestClocks(f.rest) == 0) && Harmless(f.rest)
  }

  /** With a port too many no later branch with a clock finds its own. */
  lemma {:induction false} PortTooMany(f: Forest, b: set<Port>, q: Port)
    requires ConsumeOrder(f) && PortSet(f) <= b && q in b && (f.Branch? ==> Turn(q) < Turn(f.port))
    ensures InTurn(f, b) <==> ForestClocks(f) == 0
    decreases f
  {
    if f.Branch? {
      OpenPortLeast(b, q);
      ConsumeOrderBound(f);
      if Clocks(f.sub) == 0 {
        hide OpenPort;
        if Unbranched(f.sub) {
          assert f.port in b - {OpenPort(b)};
          assert PortSet(f.rest) <= b - {OpenPort(b)};
          PortTooMany(f.rest, b - {OpenPort(b)}, f.port);
        } else {
          PortTooMany(f.rest, b, q);
        }
      }
    }
  }

  lemma {:induction false} NoClocksHarmless(f: Forest)
    requires ForestClocks(f) == 0
    ensures Harmless(f)
    decreases f
  {
    if f.Branch? {
      NoClocksHarmless(f.rest);
    }
  }

  /** If the two orders agree, each branch with a clock finds its own port if and only
      if every branch without clocks is unbranched or has no branch with a clock after it. */
  lemma {:induction false} InTurnIff(f: Forest)
    requires ConsumeOrder(f)
    ensures InTurn(f, PortSet(f)) <==> Harmless(f)
    decreases f
  {
    if f.Branch? {
      hide OpenPort;
      OpenPortIsNext(f);
      if Clocks(f.sub) > 0 || Unbranched(f.sub) {
        InTurnIff(f.rest);
      } else {
        PortTooMany(f.rest, PortSet(f), f.port);
        if ForestClocks(f.rest) == 0 {
          NoClocksHarmless(f.rest);
        }
      }
    }
  }
}
