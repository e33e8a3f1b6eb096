/** Dividing the process image into segments that each fit one frame. */
module Packing {
  import opened EtherCat

  /** The closed segments and the size of the current one. */
  datatype Packer = Packer(closed: seq<nat>, size: nat)

  const EMPTY := Packer([], 0)

  /** Adds a block of `d` bytes.  When the segment table is full the block is not
      added anywhere. */
  function Pack(p: Packer, d: nat): Packer {
    if p.size + d > SEGMENT_LIMIT then
      if |p.closed| < MAX_SEGMENTS - 1 then Packer(p.closed + [p.size], d) else p
    else p.(size := p.size + d)
  }

  /** The same with a table of any length. */
  function Greedy(p: Packer, d: nat): Packer {
    if p.size + d > SEGMENT_LIMIT then Packer(p.closed + [p.size], d) else p.(size := p.size + d)
  }

  function PackAll(p: Packer, ds: seq<nat>): Packer
    decreases |ds|
  {
    if ds == [] then p else PackAll(Pack(p, ds[0]), ds[1..])
  }

  function GreedyAll(p: Packer, ds: seq<nat>): Packer
    decreases |ds|
  {
    if ds == [] then p else GreedyAll(Greedy(p, ds[0]), ds[1..])
  }

  function Segments(p: Packer): (s: seq<nat>)
    ensures s != []
  {
    p.closed + [p.size]
  }

  function Held(p: Packer): nat {
    Sum(p.closed) + p.size
  }

  lemma HeldIsSum(p: Packer)
    ensures Sum(Segments(p)) == Held(p)
  {
    SumLast(p.closed, p.size);
  }

  /** Blocks that each fit a segment. */
  ghost predicate Fit(p: Packer, ds: seq<nat>) {
    p.size <= SEGMENT_LIMIT && forall k :: 0 <= k < |ds| ==> ds[k] <= SEGMENT_LIMIT
  }

  /** Every segment fits one frame together with the clock datagram. */
  lemma {:induction false} SegmentsFit(p: Packer, ds: seq<nat>)
    requires Fit(p, ds) && forall k :: 0 <= k < |p.closed| ==> p.closed[k] <= SEGMENT_LIMIT
    ensures forall s :: s in Segments(PackAll(p, ds)) ==> s <= SEGMENT_LIMIT
    ensures |p.closed| <= MAX_SEGMENTS - 1 ==> |Segments(PackAll(p, ds))| <= MAX_SEGMENTS
    decreases |ds|
  {
    if ds != [] {
      SegmentsFit(Pack(p, ds[0]), ds[1..]);
    }
  }

  lemma GreedyHolds(p: Packer, d: nat)
    ensures Held(Greedy(p, d)) == Held(p) + d
  {
    SumLast(p.closed, p.size);
  }

  lemma {:induction false} GreedyHoldsAll(p: Packer, ds: seq<nat>)
    ensures Held(GreedyAll(p, ds)) == Held(p) + Sum(ds)
    ensures |p.closed| <= |GreedyAll(p, ds).closed|
    decreases |ds|
  {
    if ds != [] {
      GreedyHolds(p, ds[0]);
      GreedyHoldsAll(Greedy(p, ds[0]), ds[1..]);
    }
  }

  lemma {:induction false} PackHoldsAtMost(p: Packer, ds: seq<nat>)
    ensures Held(PackAll(p, ds)) <= Held(p) + Sum(ds)
    decreases |ds|
  {
    if ds != [] {
      SumLast(p.closed, p.size);
      PackHoldsAtMost(Pack(p, ds[0]), ds[1..]);
    }
  }

  /** The segments hold all bytes exactly when the table is long enough for them. */
  lemma {:induction false} AllBytesHeld(p: Packer, ds: seq<nat>)
    requires Fit(p, ds) && |p.closed| < MAX_SEGMENTS
    ensures Held(PackAll(p, ds)) == Held(p) + Sum(ds) <==> |Segments(GreedyAll(p, ds))| <= MAX_SEGMENTS
    ensures |Segments(GreedyAll(p, ds))| <= MAX_SEGMENTS ==> PackAll(p, ds) == GreedyAll(p, ds)
    decreases |ds|
  {
    if ds != [] {
      GreedyHoldsAll(Greedy(p, ds[0]), ds[1..]);
      if Pack(p, ds[0]) == Greedy(p, ds[0]) {
        GreedyHolds(p, ds[0]);
        AllBytesHeld(Greedy(p, ds[0]), ds[1..]);
      } else {
        assert ds[0] > 0;
        PackHoldsAtMost(p, ds[1..]);
      }
    }
  }

  lemma {:induction false} StaysWithin(p: Packer, ds: seq<nat>, base: nat, lo: nat, hi: nat)
    requires Within(Segments(p), base, lo, hi)
    ensures Within(Segments(GreedyAll(p, ds)), base, lo, hi)
    decreases |ds|
  {
    if ds != [] {
      var q := Greedy(p, ds[0]);
      if p.size + ds[0] > SEGMENT_LIMIT {
        WithinAppend(Segments(p), [ds[0]], base, lo, hi);
      } else {
        WithinGrow(p.closed, p.size, q.size, base, lo, hi);
      }
      StaysWithin(q, ds[1..], base, lo, hi);
    }
  }

  /** No block is ever divided between two segments. */
  lemma BlockWhole(p: Packer, d: nat, ds: seq<nat>, base: nat, lo: nat, hi: nat)
    requires base + Held(p) <= lo && hi <= base + Held(p) + d
    ensures Within(Segments(GreedyAll(Greedy(p, d), ds)), base, lo, hi)
  {
    var q := Greedy(p, d);
    if p.size + d > SEGMENT_LIMIT {
      SumLast(p.closed, p.size);
      WithinLast(p.closed + [p.size], d, base, lo, hi);
    } else {
      WithinLast(p.closed, q.size, base, lo, hi);
    }
    StaysWithin(q, ds, base, lo, hi);
  }

  lemma {:induction false} PackAllConcat(p: Packer, a: seq<nat>, b: seq<nat>)
    ensures PackAll(p, a + b) == PackAll(PackAll(p, a), b)
    decreases |a|
  {
    if a == [] {
      assert a + b == b;
    } else {
      assert (a + b)[1..] == a[1..] + b;
      PackAllConcat(Pack(p, a[0]), a[1..], b);
    }
  }

  lemma {:induction false} GreedyAllConcat(p: Packer, a: seq<nat>, b: seq<nat>)
    ensures GreedyAll(p, a + b) == GreedyAll(GreedyAll(p, a), b)
    decreases |a|
  {
    if a == [] {
      assert a + b == b;
    } else {
      assert (a + b)[1..] == a[1..] + b;
      GreedyAllConcat(Greedy(p, a[0]), a[1..], b);
    }
  }
}
