/** Locating the distributed-clock slaves and computing their propagation
    delays from latched port receive times. */
module DistributedClocks {
  import opened Topology

  /** Latched receive times of ports 0, 1, 2 and 3. */
  datatype Stamps = Stamps(a: int, b: int, c: int, d: int)

  /** The fields of a slave-list entry that the clock setup reads or writes.
      Port bitmaps are the sets of ports whose bit is set.  Entry 0 of a slave
      list is the master record. */
  datatype Slave = Slave(
    topology: nat, active: set<Port>, hasdc: bool, parent: nat,
    stamps: Stamps, consumed: set<Port>, entryport: Port, parentport: Port,
    pdelay: int, dcNext: nat, dcPrevious: nat)

  function PortTime(s: Stamps, port: Port): int {
    match port
    case 0 => s.a
    case 1 => s.b
    case 2 => s.c
    case _ => s.d
  }

  /** The nearest other active port that the frame visits before `port`. */
  function PrevPort(active: set<Port>, port: Port): Port {
    match port
    case 0 => if 2 in active then 2 else if 1 in active then 1 else if 3 in active then 3 else 0
    case 1 => if 3 in active then 3 else if 0 in active then 0 else if 2 in active then 2 else 1
    case 2 => if 1 in active then 1 else if 3 in active then 3 else if 0 in active then 0 else 2
    case _ => if 0 in active then 0 else if 2 in active then 2 else if 1 in active then 1 else 3
  }

  /** First unconsumed port in the order 3 - 1 - 2 - 0. */
  function OpenPort(b: set<Port>): Port {
    if 3 in b then 3 else if 1 in b then 1 else if 2 in b then 2 else 0
  }

  /** The active ports with their times, in the order 0 - 3 - 1 - 2. */
  function PortList(active: set<Port>): (ports: seq<Port>)
    ensures active != {} ==> ports != []
  {
    assert active != {} ==> 0 in active || 1 in active || 2 in active || 3 in active by {
      if p: Port :| p in active {
        assert p == 0 || p == 1 || p == 2 || p == 3;
      }
    }
    var l0 := if 0 in active then [0] else [];
    var l3 := if 3 in active then l0 + [3] else l0;
    var l1 := if 1 in active then l3 + [1] else l3;
    if 2 in active then l1 + [2] else l1
  }

  /** The earliest port, the first one listed on a tie. */
  function Earliest(ports: seq<Port>, s: Stamps): Port
    requires ports != []
  {
    var k := |ports| - 1;
    if k == 0 then ports[0]
    else
      var best := Earliest(ports[..k], s);
      if PortTime(s, ports[k]) < PortTime(s, best) then ports[k] else best
  }

  /** Division by two as the source computes it: towards zero. */
  function Half(x: int): int {
    if x >= 0 then x / 2 else -(-x / 2)
  }

  /** The delay assigned to slave `s` on port `port` of its clock parent `p`. */
  function Delay(s: Slave, p: Slave, port: Port, later: bool): int {
    var prev := PrevPort(p.active, port);
    var dt3 := PortTime(p.stamps, port) - PortTime(p.stamps, prev);
    var dt1 := if s.topology > 1
               then PortTime(s.stamps, PrevPort(s.active, s.entryport)) - PortTime(s.stamps, s.entryport)
               else 0;
    var dt1' := if dt1 > dt3 then -dt1 else dt1;
    var dt2 := if later then PortTime(p.stamps, prev) - PortTime(p.stamps, p.entryport) else 0;
    var dt2' := if dt2 < 0 then -dt2 else dt2;
    Half(dt3 - dt1') + dt2' + p.pdelay
  }

  /** Parents precede their children; a slave that answers has an open port. */
  ghost predicate ValidWiring(list: seq<Slave>) {
    forall i :: 1 <= i < |list| ==> list[i].parent < i && list[i].active != {}
  }

  /** The nearest clock slave above `i` (0 if none) and the slave just below it
      on the way to `i`. */
  function Ancestor(list: seq<Slave>, i: nat): (r: (nat, nat))
    requires ValidWiring(list) && 1 <= i < |list|
    ensures r.1 < r.0 <= i
  {
    var p := list[i].parent;
    if p == 0 || list[p].hasdc then (i, p) else Ancestor(list, p)
  }

  /** The state of the loop: the list, the held root of a branch that has shown
      no clock slave yet, and the last clock slave met. */
  datatype Run = Run(list: seq<Slave>, hold: nat, prev: nat)

  ghost predicate Sound(r: Run, regs: seq<Stamps>, i: nat) {
    && |r.list| == |regs| && ValidWiring(r.list)
    && 1 <= i <= |regs| && r.hold < i && r.prev < i
  }

  function Linked(list: seq<Slave>, prev: nat, i: nat): seq<Slave>
    requires prev < i < |list|
  {
    if !list[0].hasdc then
      list[0 := list[0].(hasdc := true, dcNext := i)][i := list[i].(dcPrevious := 0)]
    else
      list[prev := list[prev].(dcNext := i)][i := list[i].(dcPrevious := prev)]
  }

  /** Slave i with its receive times, its entry port and that port consumed. */
  function Latched(s: Slave, regs: Stamps): Slave
    requires s.active != {}
  {
    var entry := Earliest(PortList(s.active), regs);
    s.(stamps := regs, entryport := entry, consumed := s.active - {entry})
  }

  function Measured(list: seq<Slave>, i: nat, child: nat, p: nat): seq<Slave>
    requires 0 < p < child <= i < |list|
  {
    var open := OpenPort(list[p].consumed);
    var list1 := list[p := list[p].(consumed := list[p].consumed - {open})];
    var port := if list[p].topology == 1 then list[p].entryport else open;
    list1[i := list[i].(parentport := port, pdelay := Delay(list[i], list1[p], port, child - p > 1))]
  }

  /** One iteration of the loop, for slave i. */
  function Step(r: Run, regs: seq<Stamps>, i: nat): (s: Run)
    requires Sound(r, regs, i) && i < |regs|
    ensures Sound(s, regs, i + 1)
  {
    var list := r.list[i := r.list[i].(consumed := r.list[i].active)];
    if list[i].hasdc then
      var linked := Linked(list, r.prev, i);
      var latched := linked[i := Latched(linked[i], regs[i])];
      var (child, p) := Ancestor(latched, i);
      Run(if p > 0 then Measured(latched, i, child, p) else latched, 0, i)
    else
      var cleared := list[i := list[i].(stamps := Stamps(0, 0, 0, 0))];
      var p := cleared[i].parent;
      var hold := if p > 0 && cleared[p].topology > 2 then p else r.hold;
      if hold > 0 && cleared[i].topology == 1 then
        var b := cleared[hold].consumed;
        Run(cleared[hold := cleared[hold].(consumed := b - {OpenPort(b)})], 0, r.prev)
      else
        Run(cleared, hold, r.prev)
  }

  /** Slaves i .. n - 1. */
  function Steps(r: Run, regs: seq<Stamps>, i: nat, n: nat): (s: Run)
    requires Sound(r, regs, i) && i <= n <= |regs|
    ensures Sound(s, regs, n)
    decreases n - i
  {
    if i == n then r else Steps(Step(r, regs, i), regs, i + 1, n)
  }

  function Configured(list: seq<Slave>, regs: seq<Stamps>): seq<Slave>
    requires 1 <= |list| == |regs| && ValidWiring(list)
  {
    Steps(Run(list[0 := list[0].(hasdc := false)], 0, 0), regs, 1, |list|).list
  }

  // ----- the imperative form -----

  method ParentPort(list: array<Slave>, parent: nat) returns (port: Port)
    requires parent < list.Length
    modifies list
    ensures port == OpenPort(old(list[parent].consumed))
    ensures list[..] == old(list[..])[parent := old(list[parent]).(consumed := old(list[parent].consumed) - {port})]
  {
    port := 0;
    var b := list[parent].consumed;
    if 3 in b {
      port := 3;
      b := b - {3};
    } else if 1 in b {
      port := 1;
      b := b - {1};
    } else if 2 in b {
      port := 2;
      b := b - {2};
    } else if 0 in b {
      port := 0;
      b := b - {0};
    }
    assert b == list[parent].consumed - {port};
    list[parent] := list[parent].(consumed := b);
  }

  method ListPorts(active: set<Port>) returns (plist: seq<Port>)
    ensures plist == PortList(active)
  {
    plist := [];
    if 0 in active {
      plist := plist + [0];
    }
    if 3 in active {
      plist := plist + [3];
    }
    if 1 in active {
      plist := plist + [1];
    }
    if 2 in active {
      plist := plist + [2];
    }
  }

  method FindEntryPort(active: set<Port>, s: Stamps) returns (entry: Port)
    requires active != {}
    ensures entry == Earliest(PortList(active), s)
  {
    var plist := ListPorts(active);
    entry := plist[0];
    for k := 1 to |plist|
      invariant entry == Earliest(plist[..k], s)
    {
      assert plist[..k + 1][..k] == plist[..k];
      if PortTime(s, plist[k]) < PortTime(s, entry) {
        entry := plist[k];
      }
    }
    assert plist[..|plist|] == plist;
  }

  /** The delay measurement of slave i against its clock parent. */
  method Measure(list: array<Slave>, i: nat, child: nat, parent: nat)
    requires 0 < parent < child <= i < list.Length
    modifies list
    ensures list[..] == Measured(old(list[..]), i, child, parent)
  {
    var port := ParentPort(list, parent);
    if list[parent].topology == 1 {
      port := list[parent].entryport;
    }
    list[i] := list[i].(parentport := port);
    var s, p := list[i], list[parent];
    var prev := PrevPort(p.active, port);
    var dt1, dt2 := 0, 0;
    var dt3 := PortTime(p.stamps, port) - PortTime(p.stamps, prev);
    if s.topology > 1 {
      dt1 := PortTime(s.stamps, PrevPort(s.active, s.entryport)) - PortTime(s.stamps, s.entryport);
    }
    if dt1 > dt3 {
      dt1 := -dt1;
    }
    if child - parent > 1 {
      dt2 := PortTime(p.stamps, prev) - PortTime(p.stamps, p.entryport);
    }
    if dt2 < 0 {
      dt2 := -dt2;
    }
    list[i] := s.(pdelay := Half(dt3 - dt1) + dt2 + p.pdelay);
  }

  /** The branch of the loop body for a slave with a clock. */
  method ConfigClock(list: array<Slave>, prev: nat, regs: Stamps, i: nat)
    requires 1 <= i < list.Length && prev < i
    requires ValidWiring(list[..])
    modifies list
    ensures var latched := Linked(old(list[..]), prev, i)[i := Latched(Linked(old(list[..]), prev, i)[i], regs)];
            && ValidWiring(latched)
            && var (child, p) := Ancestor(latched, i);
               list[..] == if p > 0 then Measured(latched, i, child, p) else latched
  {
    if !list[0].hasdc {
      list[0] := list[0].(hasdc := true, dcNext := i);
      list[i] := list[i].(dcPrevious := 0);
    } else {
      list[prev] := list[prev].(dcNext := i);
      list[i] := list[i].(dcPrevious := prev);
    }
    assert list[..] == Linked(old(list[..]), prev, i);
    var entry := FindEntryPort(list[i].active, regs);
    list[i] := list[i].(stamps := regs, entryport := entry, consumed := list[i].active - {entry});
    ghost var latched := list[..];
    var child, parent := i, list[i].parent;
    while parent != 0 && !list[parent].hasdc
      invariant parent < child <= i && parent == list[child].parent
      invariant Ancestor(latched, i) == Ancestor(latched, child)
      decreases parent
    {
      child := parent;
      parent := list[parent].parent;
    }
    if parent > 0 {
      Measure(list, i, child, parent);
    }
  }

  /** The branch of the loop body for a slave without a clock. */
  method SkipSlave(list: array<Slave>, parenthold: nat, i: nat) returns (hold: nat)
    requires 1 <= i < list.Length && list[i].parent < i && parenthold < i
    modifies list
    ensures var cleared := old(list[..])[i := old(list[i]).(stamps := Stamps(0, 0, 0, 0))];
            var p := old(list[i]).parent;
            var h := if p > 0 && cleared[p].topology > 2 then p else parenthold;
            if h > 0 && cleared[i].topology == 1 then
              && hold == 0
              && list[..]
                == cleared[h := cleared[h].(consumed := cleared[h].consumed - {OpenPort(cleared[h].consumed)})]
            else hold == h && list[..] == cleared
  {
    hold := parenthold;
    list[i] := list[i].(stamps := Stamps(0, 0, 0, 0));
    var parent := list[i].parent;
    if parent > 0 && list[parent].topology > 2 {
      hold := parent;
    }
    if hold != 0 && list[i].topology == 1 {
      var _ := ParentPort(list, hold);
      hold := 0;
    }
  }

  /** The loop body. */
  method ConfigSlave(list: array<Slave>, regs: seq<Stamps>, i: nat, parenthold: nat, prevDCslave: nat)
    returns (hold: nat, prev: nat)
    requires Sound(Run(list[..], parenthold, prevDCslave), regs, i) && i < |regs|
    modifies list
    ensures Run(list[..], hold, prev) == Step(old(Run(list[..], parenthold, prevDCslave)), regs, i)
  {
    hold, prev := parenthold, prevDCslave;
    list[i] := list[i].(consumed := list[i].active);
    if list[i].hasdc {
      ConfigClock(list, prev, regs[i], i);
      hold := 0;
      prev := i;
    } else {
      hold := SkipSlave(list, hold, i);
    }
  }

  /** The whole clock setup.  `regs[i]` are the receive times latched by slave i. */
  method ConfigDc(list: array<Slave>, regs: seq<Stamps>) returns (found: bool)
    requires 1 <= list.Length == |regs| && ValidWiring(list[..])
    modifies list
    ensures list[..] == Configured(old(list[..]), regs)
    ensures found == list[0].hasdc
  {
    list[0] := list[0].(hasdc := false);
    var parenthold, prevDCslave := 0, 0;
    var i := 1;
    while i < list.Length
      invariant 1 <= i <= list.Length
      invariant Sound(Run(list[..], parenthold, prevDCslave), regs, i)
      invariant Steps(Run(list[..], parenthold, prevDCslave), regs, i, |regs|).list == Configured(old(list[..]), regs)
    {
      parenthold, prevDCslave := ConfigSlave(list, regs, i, parenthold, prevDCslave);
      i := i + 1;
    }
    found := list[0].hasdc;
  }
}
