/** Constants of the frame format, and sums and tilings shared by the modules. */
module EtherCat {

  const MAX_FRAME: nat := 1518            // EC_MAXECATFRAME, also the buffer size
  const ETH_HEADER: nat := 14
  const EC_HEADER: nat := 12              // length word and datagram header
  const EC_LENGTH: nat := 2
  const WKC_SIZE: nat := 2
  const MAX_LRW_DATA: nat := MAX_FRAME - 14 - 2 - 10 - 2 - 4
  const FIRST_DC_DATAGRAM: nat := 20
  const SEGMENT_LIMIT: nat := MAX_LRW_DATA - FIRST_DC_DATAGRAM
  const MAX_SEGMENTS: nat := 64           // EC_MAXIOSEGMENTS
  const MAX_BUF: nat := 16                // EC_MAXBUF
  const MAX_FPRD_MULTI: nat := 64

  function Sum(s: seq<nat>): nat {
    if s == [] then 0 else s[0] + Sum(s[1..])
  }

  lemma SumConcat(a: seq<nat>, b: seq<nat>)
    ensures Sum(a + b) == Sum(a) + Sum(b)
  {
    if a != [] {
      assert (a + b)[1..] == a[1..] + b;
    } else {
      assert a + b == b;
    }
  }

  lemma SumSplit(s: seq<nat>, k: nat)
    requires k <= |s|
    ensures Sum(s) == Sum(s[..k]) + Sum(s[k..])
  {
    assert s == s[..k] + s[k..];
    SumConcat(s[..k], s[k..]);
  }

  lemma SumLast(s: seq<nat>, x: nat)
    ensures Sum(s + [x]) == Sum(s) + x
  {
    SumConcat(s, [x]);
  }

  /** Consecutive pieces of the given sizes, laid out from `base`; the interval
      lo .. hi - 1 lies inside a single one. */
  ghost predicate Within(sizes: seq<nat>, base: nat, lo: nat, hi: nat) {
    sizes != [] && ((base <= lo && hi <= base + sizes[0]) || Within(sizes[1..], base + sizes[0], lo, hi))
  }

  predicate Overlap(a: nat, b: nat, lo: nat, hi: nat) {
    a < hi && lo < b && a < b && lo < hi
  }

  /** How many of the pieces share a byte with the interval. */
  function Touched(sizes: seq<nat>, base: nat, lo: nat, hi: nat): nat {
    if sizes == [] then 0
    else (if Overlap(base, base + sizes[0], lo, hi) then 1 else 0) + Touched(sizes[1..], base + sizes[0], lo, hi)
  }

  lemma {:induction false} TouchedAfter(sizes: seq<nat>, base: nat, lo: nat, hi: nat)
    requires hi <= base
    ensures Touched(sizes, base, lo, hi) == 0
    decreases |sizes|
  {
    if sizes != [] {
      TouchedAfter(sizes[1..], base + sizes[0], lo, hi);
    }
  }

  lemma {:induction false} TouchedSome(sizes: seq<nat>, base: nat, lo: nat, hi: nat)
    requires base <= lo < hi <= base + Sum(sizes)
    ensures Touched(sizes, base, lo, hi) >= 1
    decreases |sizes|
  {
    if lo >= base + sizes[0] {
      TouchedSome(sizes[1..], base + sizes[0], lo, hi);
    }
  }

  /** An interval covered by the pieces touches exactly one of them if and only if
      it lies inside one. */
  lemma {:induction false} TouchedOnce(sizes: seq<nat>, base: nat, lo: nat, hi: nat)
    requires base <= lo < hi <= base + Sum(sizes)
    ensures Touched(sizes, base, lo, hi) == 1 <==> Within(sizes, base, lo, hi)
    decreases |sizes|
  {
    var next := base + sizes[0];
    if lo >= next {
      TouchedOnce(sizes[1..], next, lo, hi);
    } else if hi <= next {
      TouchedAfter(sizes[1..], next, lo, hi);
    } else {
      TouchedBeyond(sizes[1..], next, lo, hi);
      NotWithinLater(sizes[1..], next, lo, hi);
    }
  }

  lemma {:induction false} TouchedBeyond(sizes: seq<nat>, base: nat, lo: nat, hi: nat)
    requires lo < base < hi <= base + Sum(sizes)
    ensures Touched(sizes, base, lo, hi) >= 1
    decreases |sizes|
  {
    if sizes[0] == 0 {
      TouchedBeyond(sizes[1..], base, lo, hi);
    }
  }

  lemma {:induction false} NotWithinLater(sizes: seq<nat>, base: nat, lo: nat, hi: nat)
    requires lo < base
    ensures !Within(sizes, base, lo, hi)
    decreases |sizes|
  {
    if sizes != [] {
      NotWithinLater(sizes[1..], base + sizes[0], lo, hi);
    }
  }

  lemma {:induction false} WithinAppend(sizes: seq<nat>, more: seq<nat>, base: nat, lo: nat, hi: nat)
    requires Within(sizes, base, lo, hi)
    ensures Within(sizes + more, base, lo, hi)
    decreases |sizes|
  {
    assert (sizes + more)[1..] == sizes[1..] + more;
    if !(base <= lo && hi <= base + sizes[0]) {
      WithinAppend(sizes[1..], more, base + sizes[0], lo, hi);
    }
  }

  /** Enlarging the last piece keeps intervals inside their piece. */
  lemma {:induction false} WithinGrow(sizes: seq<nat>, last: nat, bigger: nat, base: nat, lo: nat, hi: nat)
    requires last <= bigger && Within(sizes + [last], base, lo, hi)
    ensures Within(sizes + [bigger], base, lo, hi)
    decreases |sizes|
  {
    if sizes != [] {
      assert (sizes + [last])[1..] == sizes[1..] + [last];
      assert (sizes + [bigger])[1..] == sizes[1..] + [bigger];
      if !(base <= lo && hi <= base + sizes[0]) {
        WithinGrow(sizes[1..], last, bigger, base + sizes[0], lo, hi);
      }
    }
  }

  /** The last piece itself. */
  lemma {:induction false} WithinLast(sizes: seq<nat>, last: nat, base: nat, lo: nat, hi: nat)
    requires base + Sum(sizes) <= lo && hi <= base + Sum(sizes) + last
    ensures Within(sizes + [last], base, lo, hi)
    decreases |sizes|
  {
    if sizes != [] {
      assert (sizes + [last])[1..] == sizes[1..] + [last];
      WithinLast(sizes[1..], last, base + sizes[0], lo, hi);
    }
  }

  /** A single byte always lies inside one piece. */
  lemma {:induction false} ByteWithin(sizes: seq<nat>, base: nat, lo: nat)
    requires base <= lo < base + Sum(sizes)
    ensures Within(sizes, base, lo, lo + 1)
    decreases |sizes|
  {
    if lo >= base + sizes[0] {
      ByteWithin(sizes[1..], base + sizes[0], lo);
    }
  }

  /** Pieces from number k on, with the first one cut at `at`. */
  lemma {:induction false} WithinSuffix(sizes: seq<nat>, k: nat, cut: nat, base: nat, lo: nat, hi: nat)
    requires k < |sizes| && cut <= sizes[k] && lo < hi
    requires Within(sizes, base, lo, hi) && base + Sum(sizes[..k]) + cut <= lo
    ensures Within([sizes[k] - cut] + sizes[k + 1..], base + Sum(sizes[..k]) + cut, lo, hi)
    decreases k
  {
    var rest := [sizes[k] - cut] + sizes[k + 1..];
    assert rest[1..] == sizes[k + 1..];
    if k > 0 {
      assert sizes[..k][1..] == sizes[1..][..k - 1];
      assert sizes[1..][k..] == sizes[k + 1..];
      WithinSuffix(sizes[1..], k - 1, cut, base + sizes[0], lo, hi);
    } else {
      assert sizes[..0] == [];
    }
  }

  lemma {:induction false} WithinStart(sizes: seq<nat>, base: nat, lo: nat, hi: nat)
    requires Within(sizes, base, lo, hi)
    ensures base <= lo
    decreases |sizes|
  {
    if !(base <= lo && hi <= base + sizes[0]) {
      WithinStart(sizes[1..], base + sizes[0], lo, hi);
    }
  }

  /** One of the pieces starts or ends at this place. */
  ghost predicate Boundary(sizes: seq<nat>, base: nat, at: nat) {
    base == at || (sizes != [] && Boundary(sizes[1..], base + sizes[0], at))
  }

  lemma {:induction false} BoundaryLater(sizes: seq<nat>, base: nat, at: nat)
    requires Boundary(sizes, base, at)
    ensures base <= at
    decreases |sizes|
  {
    if base != at {
      BoundaryLater(sizes[1..], base + sizes[0], at);
    }
  }

  /** Two neighbouring bytes lie inside a single piece if and only if none ends between
      them. */
  lemma {:induction false} PairWithin(sizes: seq<nat>, base: nat, lo: nat)
    requires base <= lo && lo + 2 <= base + Sum(sizes)
    ensures Within(sizes, base, lo, lo + 2) <==> !Boundary(sizes, base, lo + 1)
    decreases |sizes|
  {
    var next := base + sizes[0];
    if lo >= next {
      PairWithin(sizes[1..], next, lo);
    } else {
      if Boundary(sizes[1..], next, lo + 1) {
        BoundaryLater(sizes[1..], next, lo + 1);
      }
      if lo + 2 > next {
        NotWithinLater(sizes[1..], next, lo, lo + 2);
      }
    }
  }

  /** Inside a piece of the rest is inside a piece of the whole. */
  lemma {:induction false} WithinOfSuffix(sizes: seq<nat>, k: nat, cut: nat, base: nat, lo: nat, hi: nat)
    requires k < |sizes| && cut <= sizes[k]
    requires Within([sizes[k] - cut] + sizes[k + 1..], base + Sum(sizes[..k]) + cut, lo, hi)
    ensures Within(sizes, base, lo, hi)
    decreases k
  {
    var rest := [sizes[k] - cut] + sizes[k + 1..];
    assert rest[1..] == sizes[k + 1..];
    if k > 0 {
      assert sizes[..k][1..] == sizes[1..][..k - 1];
      assert sizes[1..][k..] == sizes[k + 1..];
      WithinOfSuffix(sizes[1..], k - 1, cut, base + sizes[0], lo, hi);
    } else {
      assert sizes[..0] == [];
    }
  }

  /** The first n pieces, or all if there are fewer. */
  function First(sizes: seq<nat>, n: nat): seq<nat> {
    if n < |sizes| then sizes[..n] else sizes
  }

  lemma FirstStep(sizes: seq<nat>, n: nat)
    requires sizes != [] && n > 0
    ensures First(sizes, n) == [sizes[0]] + First(sizes[1..], n - 1)
    ensures Sum(First(sizes, n)) == sizes[0] + Sum(First(sizes[1..], n - 1))
  {
    assert First(sizes, n)[1..] == First(sizes[1..], n - 1);
  }

  lemma FirstSum(sizes: seq<nat>, n: nat)
    ensures Sum(First(sizes, n)) <= Sum(sizes)
  {
    if n < |sizes| {
      SumSplit(sizes, n);
    }
  }

  /** An interval inside one piece touches one of the first n exactly if it ends with
      them. */
  lemma {:induction false} TouchedFirst(sizes: seq<nat>, n: nat, base: nat, lo: nat, hi: nat)
    requires base <= lo < hi && Within(sizes, base, lo, hi)
    ensures Touched(First(sizes, n), base, lo, hi) == if hi <= base + Sum(First(sizes, n)) then 1 else 0
    decreases |sizes|
  {
    if n > 0 {
      FirstStep(sizes, n);
      var rest, next := First(sizes[1..], n - 1), base + sizes[0];
      assert First(sizes, n)[1..] == rest;
      if hi <= next {
        TouchedAfter(rest, next, lo, hi);
      } else {
        WithinStart(sizes[1..], next, lo, hi);
        TouchedFirst(sizes[1..], n - 1, next, lo, hi);
      }
    }
  }
}
