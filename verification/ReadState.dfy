/** Reading the states of all slaves: one broadcast if that is enough, otherwise
    requests in groups. */
module ReadState {
  import opened EtherCat

  const NO_STATE: nat := 0xff

  /** The state register bit by bit, four state bits and the error bit. */
  datatype State = State(init: bool, preop: bool, safeop: bool, op: bool, error: bool)

  /** Registers of a slave: state, and status code as the set of its bits. */
  datatype Status = Status(state: State, code: set<nat>)

  const NOTHING := State(false, false, false, false, false)
  const ZERO := Status(NOTHING, {})

  /** The number in the state bits. */
  function Low(s: State): (r: nat)
    ensures r < 0x10
  {
    (if s.init then 1 else 0) + (if s.preop then 2 else 0) + (if s.safeop then 4 else 0) + if s.op then 8 else 0
  }

  function Either(a: State, b: State): State {
    State(a.init || b.init, a.preop || b.preop, a.safeop || b.safeop, a.op || b.op, a.error || b.error)
  }

  function StateBits(s: State): State {
    s.(error := false)
  }

  /** One of the states INIT, PRE_OP, SAFE_OP and OPERATIONAL; BOOT looks like a mixture. */
  predicate SingleState(s: State) {
    Low(s) in {1, 2, 4, 8}
  }

  /** What a broadcast read gathers. */
  function Or(regs: seq<Status>): State {
    if regs == [] then NOTHING else Either(regs[0].state, Or(regs[1..]))
  }

  predicate OneBroadcastEnough(rval: State, wkc: int, n: nat) {
    wkc >= n && !rval.error && SingleState(rval)
  }

  /** Slaves first .. last - 1 of a group, counted from 0. */
  datatype Group = Group(first: nat, last: nat)

  /** The groups, in order, cover the slaves from `first` on exactly once. */
  predicate Covers(groups: seq<Group>, first: nat, n: nat)
    decreases |groups|
  {
    if groups == [] then first == n
    else
      && groups[0].first == first < groups[0].last <= n && groups[0].last - first <= MAX_FPRD_MULTI
      && Covers(groups[1..], groups[0].last, n)
  }

  lemma {:induction false} CoversMore(groups: seq<Group>, first: nat, at: nat, g: Group)
    requires Covers(groups, first, at) && g.first == at < g.last && g.last - at <= MAX_FPRD_MULTI
    ensures Covers(groups + [g], first, g.last)
    decreases |groups|
  {
    if groups != [] {
      assert (groups + [g])[1..] == groups[1..] + [g];
      CoversMore(groups[1..], groups[0].last, at, g);
      CoversBeyond(groups[1..], groups[0].last, at);
    }
  }

  lemma {:induction false} CoversBeyond(groups: seq<Group>, first: nat, n: nat)
    requires Covers(groups, first, n)
    ensures first <= n
    decreases |groups|
  {
    if groups != [] {
      CoversBeyond(groups[1..], groups[0].last, n);
    }
  }

  /** What slave number k (from 0) is found to have: its registers, or nothing if the
      frame with its group did not come back. */
  function Seen(regs: seq<Status>, arrives: nat -> bool, k: nat): Status
    requires k < |regs|
  {
    if arrives(k / MAX_FPRD_MULTI) then regs[k] else ZERO
  }

  /** Smallest state of the first `upto` slaves. */
  ghost predicate IsLowest(lowest: nat, regs: seq<Status>, arrives: nat -> bool, upto: nat)
    requires upto <= |regs|
  {
    && (forall k :: 0 <= k < upto ==> lowest <= Low(Seen(regs, arrives, k).state))
    && if upto == 0 then lowest == NO_STATE
       else exists k :: 0 <= k < upto && lowest == Low(Seen(regs, arrives, k).state)
  }

  lemma LowestStep(lowest: nat, regs: seq<Status>, arrives: nat -> bool, k: nat)
    requires k < |regs| && IsLowest(lowest, regs, arrives, k)
    ensures var s := Low(Seen(regs, arrives, k).state);
            IsLowest(if s < lowest then s else lowest, regs, arrives, k + 1)
  {
    assert Low(Seen(regs, arrives, k).state) < NO_STATE;
  }

  /** All status codes of the first `upto` slaves. */
  function OrCodes(regs: seq<Status>, arrives: nat -> bool, upto: nat): set<nat>
    requires upto <= |regs|
  {
    if upto == 0 then {} else OrCodes(regs, arrives, upto - 1) + Seen(regs, arrives, upto - 1).code
  }

  /** What slave number k is found to have in the group that begins with `first`. */
  function Answer(regs: seq<Status>, arrives: nat -> bool, first: nat, k: nat): Status
    requires k < |regs|
  {
    if arrives(first / MAX_FPRD_MULTI) then regs[k] else ZERO
  }

  /** Slave number k is at index k - 1 of the arrays; number 0, the whole network, has
      fields of its own. */
  class Master {
    const state: array<State>
    const alstatuscode: array<set<nat>>
    var networkState: nat
    var networkCode: set<nat>

    constructor (slavecount: nat)
      ensures Valid(slavecount) && fresh(state) && fresh(alstatuscode)
    {
      state := new State[slavecount](_ => NOTHING);
      alstatuscode := new set<nat>[slavecount](_ => {});
      networkState, networkCode := 0, {};
    }

    ghost predicate Valid(n: nat) {
      state.Length == alstatuscode.Length == n
    }

    /** The first `upto` slaves have what was seen of them. */
    ghost predicate Updated(regs: seq<Status>, arrives: nat -> bool, upto: nat)
      requires Valid(|regs|) && upto <= |regs|
      reads state, alstatuscode
    {
      forall k :: 0 <= k < upto ==>
        state[k] == Seen(regs, arrives, k).state && alstatuscode[k] == Seen(regs, arrives, k).code
    }

    /** `rval` and `wkc` are the outcome of the broadcast, `regs` the registers of the
        slaves, `arrives` tells which group frames come back. */
    method ReadState(rval: State, wkc: int, regs: seq<Status>, arrives: nat -> bool)
      returns (lowest: nat, ghost groups: seq<Group>)
      requires regs != [] && Valid(|regs|)
      modifies this, state, alstatuscode
      ensures networkState == lowest
      ensures OneBroadcastEnough(rval, wkc, |regs|) ==>
                && groups == [] && lowest == Low(rval) && networkCode == {}
                && forall k :: 0 <= k < |regs| ==> state[k] == StateBits(rval) && alstatuscode[k] == {}
      ensures !OneBroadcastEnough(rval, wkc, |regs|) ==>
                && Covers(groups, 0, |regs|) && Updated(regs, arrives, |regs|)
                && IsLowest(lowest, regs, arrives, |regs|)
                && networkCode == OrCodes(regs, arrives, |regs|)
    {
      hide SingleState, Seen, Low, IsLowest, Covers, OrCodes;
      var allslavespresent := wkc >= |regs|;
      var bitwisestate := StateBits(rval);
      var noerrorflag := !rval.error;
      if noerrorflag {
        networkCode := {};
      }
      var allslavessamestate := SingleState(rval);
      if allslavessamestate {
        networkState := Low(rval);
      }
      groups := [];
      if noerrorflag && allslavessamestate && allslavespresent {
        for slave := 1 to |regs| + 1
          invariant networkState == Low(rval) && networkCode == {}
          invariant forall k :: 0 <= k < slave - 1 ==> state[k] == bitwisestate && alstatuscode[k] == {}
        {
          alstatuscode[slave - 1] := {};
          state[slave - 1] := bitwisestate;
        }
        lowest := Low(rval);
      } else {
        lowest, groups := ReadGroups(regs, arrives);
        networkState := lowest;
      }
    }

    method ReadGroups(regs: seq<Status>, arrives: nat -> bool) returns (lowest: nat, ghost groups: seq<Group>)
      requires regs != [] && Valid(|regs|)
      modifies this, state, alstatuscode
      ensures Covers(groups, 0, |regs|) && Updated(regs, arrives, |regs|)
      ensures IsLowest(lowest, regs, arrives, |regs|) && networkCode == OrCodes(regs, arrives, |regs|)
    {
      networkCode := {};
      lowest := NO_STATE;
      groups := [];
      var fslave, lslave := 1, 0;
      assert Covers(groups, 0, 0) && IsLowest(lowest, regs, arrives, 0) && OrCodes(regs, arrives, 0) == {};
      hide Seen, IsLowest, Covers, OrCodes;
      while lslave < |regs|
        invariant lslave <= |regs| && fslave == lslave + 1
        invariant lslave < |regs| ==> lslave % MAX_FPRD_MULTI == 0
        invariant Covers(groups, 0, lslave) && Updated(regs, arrives, lslave)
        invariant IsLowest(lowest, regs, arrives, lslave)
        invariant networkCode == OrCodes(regs, arrives, lslave)
      {
        lslave := |regs|;
        if lslave - fslave >= MAX_FPRD_MULTI {
          lslave := fslave + MAX_FPRD_MULTI - 1;
        }
        ghost var g := Group(fslave - 1, lslave);
        CoversMore(groups, 0, fslave - 1, g);
        groups := groups + [g];
        lowest := TakeGroup(fslave, lslave, lowest, regs, arrives);
        fslave := lslave + 1;
      }
    }

    /** Slaves fslave .. lslave, read in one frame. */
    method TakeGroup(fslave: nat, lslave: nat, lowest0: nat, regs: seq<Status>, arrives: nat -> bool)
      returns (lowest: nat)
      requires 1 <= fslave <= lslave <= |regs| && lslave - fslave < MAX_FPRD_MULTI && Valid(|regs|)
      requires (fslave - 1) % MAX_FPRD_MULTI == 0 && Updated(regs, arrives, fslave - 1)
      requires IsLowest(lowest0, regs, arrives, fslave - 1)
      requires networkCode == OrCodes(regs, arrives, fslave - 1)
      modifies this, state, alstatuscode
      ensures Updated(regs, arrives, lslave) && IsLowest(lowest, regs, arrives, lslave)
      ensures networkCode == OrCodes(regs, arrives, lslave)
    {
      hide IsLowest, Seen, Answer, Low;
      lowest := lowest0;
      for slave := fslave to lslave + 1
        invariant Updated(regs, arrives, slave - 1) && IsLowest(lowest, regs, arrives, slave - 1)
        invariant networkCode == OrCodes(regs, arrives, slave - 1)
      {
        var sl := Answer(regs, arrives, fslave - 1, slave - 1);
        SameGroup(regs, arrives, fslave - 1, slave - 1);
        LowestStep(lowest, regs, arrives, slave - 1);
        var rval := sl.state;
        alstatuscode[slave - 1] := sl.code;
        if Low(rval) < lowest {
          lowest := Low(rval);
        }
        state[slave - 1] := rval;
        networkCode := networkCode + alstatuscode[slave - 1];
      }
    }
  }

  lemma SameGroup(regs: seq<Status>, arrives: nat -> bool, first: nat, k: nat)
    requires first % MAX_FPRD_MULTI == 0 && first <= k < first + MAX_FPRD_MULTI && k < |regs|
    ensures Seen(regs, arrives, k) == Answer(regs, arrives, first, k)
  {
    assert k / MAX_FPRD_MULTI == first / MAX_FPRD_MULTI;
  }

  // ----- the two paths agree -----

  lemma {:induction false} OrHas(regs: seq<Status>, k: nat)
    requires k < |regs|
    ensures Either(regs[k].state, Or(regs)) == Or(regs)
    decreases |regs|
  {
    if k > 0 {
      OrHas(regs[1..], k - 1);
    }
  }

  lemma PartOfSingle(s: State, all: State)
    requires Either(s, all) == all && !all.error && SingleState(all)
    ensures !s.error && (Low(s) == 0 || s == StateBits(all))
  {
  }

  /** Main result.  When all slaves answer the broadcast and it is enough, it gives the
      state of every slave and the lowest of them, if and only if no slave reports
      state 0; in any case no slave has its error bit set. */
  lemma BroadcastAgrees(regs: seq<Status>, wkc: int)
    requires regs != [] && OneBroadcastEnough(Or(regs), wkc, |regs|)
    ensures forall k :: 0 <= k < |regs| ==> !regs[k].state.error
    ensures (forall k :: 0 <= k < |regs| ==> regs[k].state == StateBits(Or(regs)))
      <==> (forall k :: 0 <= k < |regs| ==> Low(regs[k].state) != 0)
    ensures IsLowest(Low(Or(regs)), regs, _ => true, |regs|)
      <==> forall k :: 0 <= k < |regs| ==> Low(regs[k].state) != 0
  {
    forall k | 0 <= k < |regs|
      ensures !regs[k].state.error && Seen(regs, _ => true, k) == regs[k]
      ensures Low(regs[k].state) == 0 || regs[k].state == StateBits(Or(regs))
    {
      OrHas(regs, k);
      PartOfSingle(regs[k].state, Or(regs));
    }
    if forall k :: 0 <= k < |regs| ==> Low(regs[k].state) != 0 {
      assert Low(Seen(regs, _ => true, 0).state) == Low(Or(regs));
    }
  }

  // ----- what is enough, and what is gathered -----

  /** The broadcast is enough if all slaves answered, none with an error, and exactly one
      of the four state bits is set. */
  lemma EnoughMeans(rval: State, wkc: int, n: nat)
    ensures OneBroadcastEnough(rval, wkc, n) <==>
            && n <= wkc
            && rval in {State(true, false, false, false, false), State(false, true, false, false, false),
                        State(false, false, true, false, false), State(false, false, false, true, false)}
  {
  }

  /** The numbers of the states. */
  lemma StateNumbers(s: State)
    ensures Low(State(true, false, false, false, s.error)) == 1 && Low(State(false, true, false, false, s.error)) == 2
    ensures Low(State(false, false, true, false, s.error)) == 4 && Low(State(false, false, false, true, s.error)) == 8
    ensures Low(s) == 0 <==> s == State(false, false, false, false, s.error)
  {
  }

  /** The status code of the network has exactly the bits of the slaves that were seen. */
  lemma {:induction false} CodesGathered(regs: seq<Status>, arrives: nat -> bool, upto: nat, bit: nat)
    requires upto <= |regs|
    ensures bit in OrCodes(regs, arrives, upto)
      <==> exists k :: 0 <= k < upto && arrives(k / 64) && bit in regs[k].code
    decreases upto
  {
    if upto > 0 {
      CodesGathered(regs, arrives, upto - 1, bit);
    }
  }
}
