/** The tree of slaves behind the master's flat slave list, and the backward
    search that recovers each slave's parent from the link counts alone. */
module Topology {

  /** ESC ports.  Frames visit the open ports of a slave in the cyclic order
      0 - 3 - 1 - 2. */
  type Port = p: int | 0 <= p < 4

  /** A slave together with everything reached through it.  `kids` lists the
      branches in the order in which the frame visits them; `entry` is the port
      facing the master; `clock` is the local clock minus the true time. */
  datatype Tree = Node(hasdc: bool, entry: Port, clock: int, kids: Forest)

  /** A branch leaves through `port` over a link with one-way delay `delay`. */
  datatype Forest = Nil | Branch(port: Port, delay: int, sub: Tree, rest: Forest)

  /** Number of slaves in a tree. */
  function Size(t: Tree): (n: nat)
    ensures n >= 1
  {
    1 + ForestSize(t.kids)
  }

  function ForestSize(f: Forest): nat {
    match f
    case Nil => 0
    case Branch(_, _, sub, rest) => Size(sub) + ForestSize(rest)
  }

  function Count(f: Forest): nat {
    if f.Nil? then 0 else 1 + Count(f.rest)
  }

  /** A slave has four ports and one of them faces the master. */
  ghost predicate AtMostThreeKids(t: Tree) {
    Count(t.kids) <= 3 && AllAtMostThreeKids(t.kids)
  }

  ghost predicate AllAtMostThreeKids(f: Forest) {
    f.Branch? ==> AtMostThreeKids(f.sub) && AllAtMostThreeKids(f.rest)
  }

  /** Link counts in the order in which the slaves are numbered, and the true
      parents when the root is slave number `self` below slave `parent`. */
  function LinkCounts(t: Tree): (s: seq<nat>)
    ensures |s| == Size(t)
  {
    [Count(t.kids) + 1] + ForestLinkCounts(t.kids)
  }

  function ForestLinkCounts(f: Forest): (s: seq<nat>)
    ensures |s| == ForestSize(f)
  {
    match f
    case Nil => []
    case Branch(_, _, sub, rest) => LinkCounts(sub) + ForestLinkCounts(rest)
  }

  function Parents(t: Tree, self: nat, parent: nat): (s: seq<nat>)
    ensures |s| == Size(t)
  {
    [parent] + ForestParents(t.kids, self + 1, self)
  }

  function ForestParents(f: Forest, first: nat, parent: nat): (s: seq<nat>)
    ensures |s| == ForestSize(f)
  {
    match f
    case Nil => []
    case Branch(_, _, sub, rest) =>
      Parents(sub, first, parent) + ForestParents(rest, first + Size(sub), parent)
  }

  // ----- the search of ecx_config_init -----

  /** What one visited slave adds to the running count. */
  function Weight(links: nat): int {
    if links == 1 then -1 else if links == 3 then 1 else if links == 4 then 2 else 0
  }

  /** Result of the backward scan that is about to look at slave `at`. */
  function Scan(links: seq<nat>, at: nat, topoc: int): nat
    requires 1 <= at < |links|
  {
    var c := topoc + Weight(links[at]);
    if (c >= 0 && links[at] > 1) || at == 1 then at else Scan(links, at - 1, c)
  }

  /** `links[i]` is the link count of slave i; entry 0 belongs to the master. */
  function ParentOf(links: seq<nat>, slave: nat): nat
    requires 1 <= slave < |links|
  {
    if slave == 1 then 0 else Scan(links, slave - 1, 0)
  }

  /** The search loop, for one slave. */
  method FindParent(links: seq<nat>, slave: nat) returns (parent: nat)
    requires 1 <= slave < |links|
    ensures parent == ParentOf(links, slave)
    ensures parent < slave
  {
    parent := 0;
    if slave > 1 {
      var topoc := 0;
      var slavec := slave - 1;
      while slavec > 0
        invariant 0 <= slavec < slave
        invariant parent < slave
        invariant if slavec > 0 then Scan(links, slavec, topoc) == ParentOf(links, slave)
                  else parent == ParentOf(links, slave)
      {
        var topology := links[slavec];
        if topology == 1 {
          topoc := topoc - 1;
        }
        if topology == 3 {
          topoc := topoc + 1;
        }
        if topology == 4 {
          topoc := topoc + 2;
        }
        if (topoc >= 0 && topology > 1) || slavec == 1 {
          parent := slavec;
          slavec := 1;
        }
        slavec := slavec - 1;
      }
    }
  }

  // ----- correctness for every tree -----

  /** `s` occurs in `links` starting at slave number `first`. */
  ghost predicate At(links: seq<nat>, first: nat, s: seq<nat>) {
    first + |s| <= |links| && links[first..first + |s|] == s
  }

  lemma AtSplit(links: seq<nat>, first: nat, a: seq<nat>, b: seq<nat>)
    requires At(links, first, a + b)
    ensures At(links, first, a)
    ensures At(links, first + |a|, b)
  {
    var whole := links[first..first + |a + b|];
    assert links[first..first + |a|] == whole[..|a|] == a;
    assert links[first + |a|..first + |a| + |b|] == whole[|a|..] == b;
  }

  lemma AtJoin(links: seq<nat>, first: nat, a: seq<nat>, b: seq<nat>)
    requires At(links, first, a) && At(links, first + |a|, b)
    ensures At(links, first, a + b)
  {
    var mid, end := first + |a|, first + |a| + |b|;
    assert links[first..end] == links[first..mid] + links[mid..end];
  }

  lemma AtHead(links: seq<nat>, first: nat, head: nat, tail: seq<nat>)
    requires At(links, first, [head] + tail)
    ensures first < |links| && links[first] == head
    ensures At(links, first + 1, tail)
  {
    AtSplit(links, first, [head], tail);
    assert links[first..first + 1][0] == head;
  }

  /** The scan walks back over a complete subtree without stopping and lowers
      the running count by exactly one. */
  lemma {:induction false} ScanSkipsSubtree(links: seq<nat>, t: Tree, first: nat, topoc: int)
    requires AtMostThreeKids(t) && topoc <= 0
    requires first >= 2 && At(links, first, LinkCounts(t))
    ensures Scan(links, first + Size(t) - 1, topoc) == Scan(links, first - 1, topoc - 1)
    decreases t
  {
    AtHead(links, first, Count(t.kids) + 1, ForestLinkCounts(t.kids));
    ScanSkipsForest(links, t.kids, first + 1, topoc);
  }

  /** A run of k complete sibling subtrees lowers it by k. */
  lemma {:induction false} ScanSkipsForest(links: seq<nat>, f: Forest, first: nat, topoc: int)
    requires AllAtMostThreeKids(f) && topoc <= 0
    requires first >= 2 && At(links, first, ForestLinkCounts(f))
    ensures Scan(links, first + ForestSize(f) - 1, topoc) == Scan(links, first - 1, topoc - Count(f))
    decreases f
  {
    if f.Branch? {
      AtSplit(links, first, LinkCounts(f.sub), ForestLinkCounts(f.rest));
      ScanSkipsForest(links, f.rest, first + Size(f.sub), topoc);
      ScanSkipsSubtree(links, f.sub, first, topoc - Count(f.rest));
    }
  }

  /** The search answers `parents` for the slaves from number `first` on. */
  ghost predicate Agree(links: seq<nat>, first: nat, parents: seq<nat>) {
    && 1 <= first && first + |parents| <= |links|
    && forall i :: 0 <= i < |parents| ==> ParentOf(links, first + i) == parents[i]
  }

  lemma AgreeJoin(links: seq<nat>, first: nat, a: seq<nat>, b: seq<nat>)
    requires Agree(links, first, a) && Agree(links, first + |a|, b)
    ensures Agree(links, first, a + b)
  {
    forall i | 0 <= i < |a + b|
      ensures ParentOf(links, first + i) == (a + b)[i]
    {
      if i >= |a| {
        assert ParentOf(links, first + |a| + (i - |a|)) == b[i - |a|];
      }
    }
  }

  /** In every tree, for every slave of it, the search answers the true parent. */
  lemma {:induction false} SearchFindsParents(links: seq<nat>, t: Tree, self: nat, parent: nat)
    requires AtMostThreeKids(t)
    requires self >= 1 && At(links, self, LinkCounts(t))
    requires ParentOf(links, self) == parent
    ensures Agree(links, self, Parents(t, self, parent))
    decreases t
  {
    AtHead(links, self, Count(t.kids) + 1, ForestLinkCounts(t.kids));
    SearchFindsForestParents(links, t.kids, self, self + 1, 0);
    AgreeJoin(links, self, [parent], ForestParents(t.kids, self + 1, self));
  }

  /** From slave `at`, the scan reaches slave `self` having met `k` subtrees. */
  ghost predicate Reaches(links: seq<nat>, at: nat, self: nat, k: nat) {
    && 1 <= self <= at < |links|
    && forall c: int :: c <= 0 ==> Scan(links, at, c) == Scan(links, self, c - k)
  }

  /** The same for the branches `f` of slave `self` that start at slave `first`,
      after `k` earlier branches. */
  lemma {:induction false} SearchFindsForestParents(links: seq<nat>, f: Forest, self: nat, first: nat, k: nat)
    requires AllAtMostThreeKids(f)
    requires k + Count(f) <= 3 && 1 <= self < first
    requires f.Branch? ==> first < |links| && Reaches(links, first - 1, self, k) && links[self] == k + Count(f) + 1
    requires At(links, first, ForestLinkCounts(f))
    ensures Agree(links, first, ForestParents(f, first, self))
    decreases f
  {
    hide Agree, Reaches;
    if f.Nil? {
      AgreeEmpty(links, first);
    } else {
      var next := first + Size(f.sub);
      AtSplit(links, first, LinkCounts(f.sub), ForestLinkCounts(f.rest));
      FirstBranchParent(links, f, self, first, k);
      SearchFindsParents(links, f.sub, first, self);
      NextBranchReaches(links, f.sub, self, first, k);
      SearchFindsForestParents(links, f.rest, self, next, k + 1);
      AgreeJoin(links, first, Parents(f.sub, first, self), ForestParents(f.rest, next, self));
    }
  }

  lemma AgreeEmpty(links: seq<nat>, first: nat)
    requires 1 <= first <= |links|
    ensures Agree(links, first, [])
  {
  }

  lemma FirstBranchParent(links: seq<nat>, f: Forest, self: nat, first: nat, k: nat)
    requires f.Branch? && k + Count(f) <= 3 && 1 <= self < first < |links|
    requires Reaches(links, first - 1, self, k) && links[self] == k + Count(f) + 1
    ensures ParentOf(links, first) == self
  {
    assert Scan(links, first - 1, 0) == Scan(links, self, 0 - k);
  }

  lemma NextBranchReaches(links: seq<nat>, sub: Tree, self: nat, first: nat, k: nat)
    requires AtMostThreeKids(sub) && first >= 1
    requires Reaches(links, first - 1, self, k)
    requires At(links, first, LinkCounts(sub))
    ensures Reaches(links, first + Size(sub) - 1, self, k + 1)
  {
    var at := first + Size(sub) - 1;
    forall c: int | c <= 0
      ensures Scan(links, at, c) == Scan(links, self, c - (k + 1))
    {
      ScanSkipsSubtree(links, sub, first, c);
    }
  }

  /** Main result: numbering any tree in the order of the ring and running the
      search on its link counts gives back the tree. */
  lemma ParentsRecovered(t: Tree, slave: nat)
    requires AtMostThreeKids(t) && 1 <= slave <= Size(t)
    ensures ParentOf([0] + LinkCounts(t), slave) == Parents(t, 1, 0)[slave - 1]
  {
    var links := [0] + LinkCounts(t);
    assert links[1..1 + Size(t)] == LinkCounts(t);
    SearchFindsParents(links, t, 1, 0);
    assert slave == 1 + (slave - 1);
  }
}
