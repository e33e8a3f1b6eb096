/** Limits, slopes and the end of an executed trajectory. */
module TrajectoryTheorems {
  import opened Trajectory

  function Abs(x: real): (r: real)
    ensures r >= 0.0 && r >= x && r >= -x && (r == x || r == -x)
  {
    if x < 0.0 then -x else x
  }

  /** From the first waypoint on, the segment found is the one with the time in it. */
  lemma {:induction false} SegmentContains(times: seq<real>, e: real, i: nat)
    requires |times| >= 2 && i + 1 < |times| && times[i] <= e < times[|times| - 1]
    ensures var seg := Segment(times, e, i); i <= seg && times[seg] <= e < times[seg + 1]
    decreases |times| - i
  {
    if e >= times[i + 1] {
      SegmentContains(times, e, i + 1);
    }
  }

  /** In a valid trajectory it is the only one. */
  lemma OneSegment(waypoints: seq<Joints>, times: seq<real>, e: real, k: nat)
    requires ValidTrajectory(waypoints, times) && k + 1 < |times| && times[k] <= e < times[k + 1]
    ensures Segment(times, e, 0) == k
  {
    SegmentContains(times, e, 0);
    var seg := Segment(times, e, 0);
    Increasing(waypoints, times, if seg < k then seg + 1 else k, k);
    Increasing(waypoints, times, if k < seg then k + 1 else seg, seg);
  }

  lemma Increasing(waypoints: seq<Joints>, times: seq<real>, i: nat, k: nat)
    requires ValidTrajectory(waypoints, times) && i <= k < |times|
    ensures times[i] <= times[k]
  {
  }

  lemma AlphaInside(times: seq<real>, e: real, seg: nat)
    requires seg + 1 < |times| && times[seg] <= e <= times[seg + 1]
    ensures 0.0 <= Alpha(times, e, seg) <= 1.0
  {
    var dt := times[seg + 1] - times[seg];
    if dt > MIN_GAP {
      Fraction(e - times[seg], dt);
    }
  }

  lemma Fraction(x: real, d: real)
    requires d > 0.0 && 0.0 <= x <= d
    ensures 0.0 <= x / d <= 1.0 && x / d * d == x
  {
  }

  lemma Between(a: real, b: real, alpha: real, lo: real, hi: real)
    requires 0.0 <= alpha <= 1.0 && lo <= a <= hi && lo <= b <= hi
    ensures lo <= Lerp(a, b, alpha) <= hi
  {
    if b >= a {
      NonNegative(alpha, b - a);
      NonNegative(1.0 - alpha, b - a);
    } else {
      NonNegative(alpha, a - b);
      NonNegative(1.0 - alpha, a - b);
    }
  }

  lemma NonNegative(x: real, y: real)
    requires x >= 0.0 && y >= 0.0
    ensures x * y >= 0.0
  {
  }

  /** From the first waypoint's time on, every commanded position is inside the joint
      limits. */
  lemma InLimitsFromFirst(waypoints: seq<Joints>, times: seq<real>, e: real, j: nat)
    requires ValidTrajectory(waypoints, times) && e >= times[0] && j < DOF
    ensures LOWER[j] <= Position(waypoints, times, e, j) <= UPPER[j]
  {
    if e < times[|times| - 1] {
      SegmentContains(times, e, 0);
      var seg := Segment(times, e, 0);
      AlphaInside(times, e, seg);
      assert InLimits(waypoints[seg]) && InLimits(waypoints[seg + 1]);
      Between(waypoints[seg][j], waypoints[seg + 1][j], Alpha(times, e, seg), LOWER[j], UPPER[j]);
    } else {
      assert InLimits(waypoints[|waypoints| - 1]);
    }
  }

  /** A command of joint j inside its limits. */
  predicate Allowed(x: real, j: nat)
    requires j < DOF
  {
    LOWER[j] <= x <= UPPER[j]
  }

  /** Before the first waypoint's time the commands lie between the one at time 0 and
      that waypoint. */
  lemma EarlyCommand(waypoints: seq<Joints>, times: seq<real>, e: real, j: nat)
    requires ValidTrajectory(waypoints, times) && |times| >= 2 && 0.0 <= e < times[0] && j < DOF
    ensures 0.0 <= e / times[0] <= 1.0
    ensures Position(waypoints, times, e, j) == Lerp(Position(waypoints, times, 0.0, j), waypoints[0][j], e / times[0])
         || Position(waypoints, times, e, j) == waypoints[0][j]
  {
    NoSegment(times, e, 0);
    NoSegment(times, 0.0, 0);
    var dt := times[1] - times[0];
    Fraction(e, times[0]);
    if dt > MIN_GAP {
      EarlyLine(waypoints[0][j], waypoints[1][j] - waypoints[0][j], dt, times[0], e);
    }
  }

  lemma EarlyLine(w: real, delta: real, d: real, t: real, e: real)
    requires d > 0.0 && t > 0.0
    ensures var p := w + (0.0 - t) / d * delta;
            w + (e - t) / d * delta == p + e / t * (w - p)
  {
    var u, v := e / t, t / d;
    assert u * t == e && v * d == t;
    assert (0.0 - t) / d == -v;
    assert (e - t) / d == u * v - v by {
      assert (u * v - v) * d == u * (v * d) - v * d;
    }
    EarlyAlgebra(w, delta, u, v);
  }

  lemma EarlyAlgebra(w: real, delta: real, u: real, v: real)
    ensures var p := w + -v * delta; w + (u * v - v) * delta == p + u * (w - p)
  {
  }

  /** The first command: the line of the first segment, taken back to time 0. */
  function StartCommand(waypoints: seq<Joints>, times: seq<real>, j: nat): real
    requires 1 <= |waypoints| == |times| && j < DOF
  {
    var w := waypoints[0][j];
    if |times| >= 2 && times[1] - times[0] > MIN_GAP
    then w - times[0] / (times[1] - times[0]) * (waypoints[1][j] - w)
    else w
  }

  lemma StartsThere(waypoints: seq<Joints>, times: seq<real>, j: nat)
    requires ValidTrajectory(waypoints, times) && (|times| == 1 ==> times[0] == 0.0) && j < DOF
    ensures Position(waypoints, times, 0.0, j) == StartCommand(waypoints, times, j)
  {
    if |times| >= 2 {
      if times[0] > 0.0 {
        NoSegment(times, 0.0, 0);
      } else {
        OneSegment(waypoints, times, 0.0, 0);
      }
      var dt := times[1] - times[0];
      if dt > MIN_GAP {
        TakenBack(waypoints[0][j], waypoints[1][j] - waypoints[0][j], times[0], dt);
      }
    }
  }

  lemma TakenBack(w: real, delta: real, t: real, d: real)
    requires d > 0.0
    ensures w + (0.0 - t) / d * delta == w - t / d * delta
  {
    assert (0.0 - t) / d == -(t / d);
  }

  /** Main result.  Every command of a motion is inside the limits of a joint if and
      only if the first one is. */
  lemma StaysInLimits(waypoints: seq<Joints>, times: seq<real>, j: nat)
    requires ValidTrajectory(waypoints, times) && (|times| == 1 ==> times[0] == 0.0) && j < DOF
    ensures (forall e :: e >= 0.0 ==> Allowed(Position(waypoints, times, e, j), j))
      <==> Allowed(StartCommand(waypoints, times, j), j)
  {
    hide Position, StartCommand, Allowed;
    StartsThere(waypoints, times, j);
    if Allowed(Position(waypoints, times, 0.0, j), j) {
      forall e | e >= 0.0
        ensures Allowed(Position(waypoints, times, e, j), j)
      {
        AllowedFromStart(waypoints, times, e, j);
      }
    }
  }

  lemma AllowedFromStart(waypoints: seq<Joints>, times: seq<real>, e: real, j: nat)
    requires ValidTrajectory(waypoints, times) && (|times| == 1 ==> times[0] == 0.0) && j < DOF && e >= 0.0
    requires Allowed(Position(waypoints, times, 0.0, j), j)
    ensures Allowed(Position(waypoints, times, e, j), j)
  {
    hide Position, Lerp;
    if e >= times[0] {
      InLimitsFromFirst(waypoints, times, e, j);
    } else {
      assert InLimits(waypoints[0]);
      EarlyCommand(waypoints, times, e, j);
      Between(Position(waypoints, times, 0.0, j), waypoints[0][j], e / times[0], LOWER[j], UPPER[j]);
    }
  }

  /** A trajectory that starts at time 0 meets this. */
  lemma AllowedAtZero(waypoints: seq<Joints>, times: seq<real>, j: nat)
    requires ValidTrajectory(waypoints, times) && times[0] == 0.0 && j < DOF
    ensures Allowed(StartCommand(waypoints, times, j), j)
  {
    StartsThere(waypoints, times, j);
    InLimitsFromFirst(waypoints, times, 0.0, j);
  }

  /** Before the first waypoint's time the first segment is extended backwards: the
      command stays between its ends if and only if they are equal. */
  lemma ExtendedBackwards(waypoints: seq<Joints>, times: seq<real>, e: real, j: nat)
    requires ValidTrajectory(waypoints, times) && |times| >= 2 && e < times[0] && j < DOF
    requires times[1] - times[0] > MIN_GAP
    ensures var a, b := waypoints[0][j], waypoints[1][j]; var x := Position(waypoints, times, e, j);
            (if a <= b then a <= x <= b else b <= x <= a) <==> a == b
  {
    hide Lerp, InLimits;
    NoSegment(times, e, 0);
    var a, b := waypoints[0][j], waypoints[1][j];
    var alpha := Alpha(times, e, 0);
    NegativeFraction(e - times[0], times[1] - times[0]);
    OutsideUnlessEqual(a, b, alpha);
  }

  lemma OutsideUnlessEqual(a: real, b: real, alpha: real)
    requires alpha < 0.0
    ensures var x := Lerp(a, b, alpha); (if a <= b then a <= x <= b else b <= x <= a) <==> a == b
  {
    var x := Lerp(a, b, alpha);
    if a < b {
      Negative(alpha, b - a);
      assert x < a;
    } else if b < a {
      Negative(alpha, a - b);
      assert alpha * (b - a) == -(alpha * (a - b));
      assert x > a;
    } else {
      assert x == a;
    }
  }

  lemma Negative(x: real, y: real)
    requires x < 0.0 && y > 0.0
    ensures x * y < 0.0
  {
  }

  lemma NegativeFraction(x: real, d: real)
    requires d > 0.0 && x < 0.0
    ensures x / d < 0.0
  {
  }

  lemma {:induction false} NoSegment(times: seq<real>, e: real, i: nat)
    requires |times| >= 2 && forall k :: 0 <= k < |times| ==> e < times[k]
    ensures Segment(times, e, i) == 0
    decreases |times| - i
  {
    if i + 1 < |times| {
      NoSegment(times, e, i + 1);
    }
  }

  /** So a valid trajectory that starts late can be commanded out of the limits. */
  lemma LateStartLeavesLimits() returns (waypoints: seq<Joints>, times: seq<real>)
    ensures ValidTrajectory(waypoints, times) && |times| == 2 && times[0] > 0.0
    ensures Position(waypoints, times, 0.0, 0) > UPPER[0]
  {
    var a: Joints := [2.0, 0.0, 0.0, -1.0, 0.0, 1.0, 0.0];
    var b: Joints := [1.0, 0.0, 0.0, -1.0, 0.0, 1.0, 0.0];
    waypoints, times := [a, b], [1.0, 2.0];
    assert InLimits(a) && InLimits(b);
    assert Segment(times, 0.0, 0) == 0 by {
      NoSegment(times, 0.0, 0);
    }
    assert Alpha(times, 0.0, 0) == -1.0;
  }

  // ----- slopes -----

  /** No segment moves joint j faster than `slope`. */
  ghost predicate SlopesBelow(waypoints: seq<Joints>, times: seq<real>, j: nat, slope: real)
    requires |waypoints| == |times| && j < DOF
  {
    forall k :: 0 <= k < |times| - 1 ==> Abs(waypoints[k + 1][j] - waypoints[k][j]) <= slope * (times[k + 1] - times[k])
  }

  /** Joint j is at the same position at both ends of every gap of at most a nanosecond. */
  ghost predicate StillInNarrowGaps(waypoints: seq<Joints>, times: seq<real>, j: nat)
    requires |waypoints| == |times| && j < DOF
  {
    forall k :: 0 <= k < |times| - 1 && times[k + 1] - times[k] <= MIN_GAP ==> waypoints[k + 1][j] == waypoints[k][j]
  }

  /** A motion with a single waypoint has no commands before its time. */
  predicate Defined(times: seq<real>, e: real)
    requires times != []
  {
    |times| == 1 ==> times[0] <= e
  }

  ghost predicate CloseBy(waypoints: seq<Joints>, times: seq<real>, e1: real, e2: real, j: nat, slope: real)
    requires 1 <= |waypoints| == |times| && j < DOF && Defined(times, e1) && Defined(times, e2)
  {
    Abs(Position(waypoints, times, e2, j) - Position(waypoints, times, e1, j)) <= slope * (e2 - e1)
  }

  /** Commands at any two times differ by at most the slope times the time between. */
  ghost predicate Bounded(waypoints: seq<Joints>, times: seq<real>, j: nat, slope: real)
    requires 1 <= |waypoints| == |times| && j < DOF
  {
    forall e1, e2 :: Defined(times, e1) && e1 <= e2 ==> CloseBy(waypoints, times, e1, e2, j, slope)
  }

  /** Position on the line of segment k. */
  function OnSegment(waypoints: seq<Joints>, times: seq<real>, k: nat, e: real, j: nat): real
    requires |waypoints| == |times| && k + 1 < |times| && j < DOF
  {
    Lerp(waypoints[k][j], waypoints[k + 1][j], Alpha(times, e, k))
  }

  lemma OnSegmentSlope(waypoints: seq<Joints>, times: seq<real>, k: nat, e1: real, e2: real, j: nat, slope: real)
    requires |waypoints| == |times| && k + 1 < |times| && j < DOF && e1 <= e2 && slope >= 0.0
    requires SlopesBelow(waypoints, times, j, slope)
    ensures Abs(OnSegment(waypoints, times, k, e2, j) - OnSegment(waypoints, times, k, e1, j)) <= slope * (e2 - e1)
  {
    hide Lerp;
    var dt := times[k + 1] - times[k];
    var delta := waypoints[k + 1][j] - waypoints[k][j];
    LerpDiff(waypoints[k][j], waypoints[k + 1][j], Alpha(times, e1, k), Alpha(times, e2, k));
    if dt > MIN_GAP {
      LineSlope(e1 - times[k], e2 - times[k], dt, delta, slope);
    } else {
      NonNegative(slope, e2 - e1);
    }
  }

  lemma LerpDiff(a: real, b: real, alpha1: real, alpha2: real)
    ensures Lerp(a, b, alpha2) - Lerp(a, b, alpha1) == alpha2 * (b - a) - alpha1 * (b - a)
  {
  }

  lemma LineSlope(x1: real, x2: real, d: real, delta: real, slope: real)
    requires d > 0.0 && x1 <= x2 && Abs(delta) <= slope * d
    ensures Abs(x2 / d * delta - x1 / d * delta) <= slope * (x2 - x1)
  {
    var u := (x2 - x1) / d;
    assert u >= 0.0 && x2 / d - x1 / d == u && u * d == x2 - x1;
    assert x2 / d * delta - x1 / d * delta == u * delta;
    assert u * delta <= u * (slope * d) && -(u * (slope * d)) <= u * delta;
    assert u * (slope * d) == slope * (u * d);
  }

  /** The end of a segment's line is the next waypoint. */
  lemma OnSegmentEnd(waypoints: seq<Joints>, times: seq<real>, k: nat, j: nat)
    requires ValidTrajectory(waypoints, times) && k + 1 < |times| && j < DOF
    requires StillInNarrowGaps(waypoints, times, j)
    ensures OnSegment(waypoints, times, k, times[k + 1], j) == waypoints[k + 1][j]
    ensures Position(waypoints, times, times[k + 1], j) == waypoints[k + 1][j]
  {
    var dt := times[k + 1] - times[k];
    if dt > MIN_GAP {
      WholeFraction(dt);
    }
    LerpEnds(waypoints[k][j], waypoints[k + 1][j]);
    AtWaypoint(waypoints, times, k + 1, j);
  }

  lemma WholeFraction(d: real)
    requires d > 0.0
    ensures d / d == 1.0
  {
  }

  lemma LerpEnds(a: real, b: real)
    ensures Lerp(a, b, 0.0) == a && Lerp(a, b, 1.0) == b
  {
  }

  /** From the first waypoint on, however many segments lie in between. */
  lemma {:induction false} SlopeFromFirst(waypoints: seq<Joints>, times: seq<real>, e1: real, e2: real, j: nat,
                                          slope: real)
    requires ValidTrajectory(waypoints, times) && times[0] <= e1 <= e2 && j < DOF && slope >= 0.0
    requires SlopesBelow(waypoints, times, j, slope) && StillInNarrowGaps(waypoints, times, j)
    ensures CloseBy(waypoints, times, e1, e2, j, slope)
    decreases |times| - if e1 < times[|times| - 1] then Segment(times, e1, 0) else |times|
  {
    hide Alpha, Lerp, SlopesBelow, StillInNarrowGaps;
    var last := |times| - 1;
    if e1 < times[last] {
      SegmentContains(times, e1, 0);
      var k := Segment(times, e1, 0);
      var next := times[k + 1];
      if e2 < next {
        OneSegment(waypoints, times, e2, k);
        assert next <= times[last];
        OnSegmentSlope(waypoints, times, k, e1, e2, j, slope);
      } else {
        OnSegmentEnd(waypoints, times, k, j);
        OnSegmentSlope(waypoints, times, k, e1, next, j, slope);
        if k + 1 < last {
          assert times[k + 1] < times[k + 2];
          OneSegment(waypoints, times, next, k + 1);
        }
        SlopeFromFirst(waypoints, times, next, e2, j, slope);
        assert slope * (e2 - e1) == slope * (next - e1) + slope * (e2 - next);
      }
    } else {
      assert slope * (e2 - e1) >= 0.0;
    }
  }

  /** And before it, where the first segment is extended. */
  lemma SlopeFromAnywhere(waypoints: seq<Joints>, times: seq<real>, e1: real, e2: real, j: nat, slope: real)
    requires ValidTrajectory(waypoints, times) && Defined(times, e1) && e1 <= e2 && j < DOF && slope >= 0.0
    requires SlopesBelow(waypoints, times, j, slope) && StillInNarrowGaps(waypoints, times, j)
    ensures CloseBy(waypoints, times, e1, e2, j, slope)
  {
    hide SlopesBelow, StillInNarrowGaps, Position, OnSegment;
    if e1 >= times[0] {
      SlopeFromFirst(waypoints, times, e1, e2, j, slope);
    } else {
      BeforeFirst(waypoints, times, e1, j);
      if e2 < times[0] {
        BeforeFirst(waypoints, times, e2, j);
        OnSegmentSlope(waypoints, times, 0, e1, e2, j, slope);
      } else {
        OnSegmentSlope(waypoints, times, 0, e1, times[0], j, slope);
        AtWaypoint(waypoints, times, 0, j);
        SlopeFromFirst(waypoints, times, times[0], e2, j, slope);
        var a, b, c := Position(waypoints, times, e1, j), waypoints[0][j], Position(waypoints, times, e2, j);
        assert Abs(b - a) <= slope * (times[0] - e1) && Abs(c - b) <= slope * (e2 - times[0]);
        TwoSteps(slope, times[0] - e1, e2 - times[0], b - a, c - b);
      }
    }
  }

  lemma TwoSteps(slope: real, d1: real, d2: real, x1: real, x2: real)
    requires Abs(x1) <= slope * d1 && Abs(x2) <= slope * d2
    ensures Abs(x1 + x2) <= slope * (d1 + d2)
  {
  }

  lemma BeforeFirst(waypoints: seq<Joints>, times: seq<real>, e: real, j: nat)
    requires ValidTrajectory(waypoints, times) && |times| >= 2 && e < times[0] && j < DOF
    ensures Position(waypoints, times, e, j) == OnSegment(waypoints, times, 0, e, j)
    ensures OnSegment(waypoints, times, 0, times[0], j) == waypoints[0][j]
  {
    NoSegment(times, e, 0);
    assert Alpha(times, times[0], 0) == 0.0;
  }

  /** Main result.  A slope bounds the commands at any two times, however many segments
      lie in between, if and only if no segment is steeper and the joint does not move
      within a gap of at most a nanosecond. */
  lemma SlopeBound(waypoints: seq<Joints>, times: seq<real>, j: nat, slope: real)
    requires ValidTrajectory(waypoints, times) && j < DOF && slope >= 0.0
    ensures Bounded(waypoints, times, j, slope)
      <==> SlopesBelow(waypoints, times, j, slope) && StillInNarrowGaps(waypoints, times, j)
  {
    hide SlopesBelow, StillInNarrowGaps, CloseBy;
    if SlopesBelow(waypoints, times, j, slope) && StillInNarrowGaps(waypoints, times, j) {
      forall e1, e2 | Defined(times, e1) && e1 <= e2
        ensures CloseBy(waypoints, times, e1, e2, j, slope)
      {
        SlopeFromAnywhere(waypoints, times, e1, e2, j, slope);
      }
    }
    if Bounded(waypoints, times, j, slope) {
      BoundedSlopes(waypoints, times, j, slope);
    }
  }

  lemma BoundedSlopes(waypoints: seq<Joints>, times: seq<real>, j: nat, slope: real)
    requires ValidTrajectory(waypoints, times) && j < DOF && slope >= 0.0 && Bounded(waypoints, times, j, slope)
    ensures SlopesBelow(waypoints, times, j, slope) && StillInNarrowGaps(waypoints, times, j)
  {
    forall k | 0 <= k < |times| - 1
      ensures Abs(waypoints[k + 1][j] - waypoints[k][j]) <= slope * (times[k + 1] - times[k])
      ensures times[k + 1] - times[k] <= MIN_GAP ==> waypoints[k + 1][j] == waypoints[k][j]
    {
      BoundedGap(waypoints, times, k, j, slope);
    }
  }

  lemma BoundedGap(waypoints: seq<Joints>, times: seq<real>, k: nat, j: nat, slope: real)
    requires ValidTrajectory(waypoints, times) && j < DOF && slope >= 0.0 && Bounded(waypoints, times, j, slope)
    requires k + 1 < |times|
    ensures Abs(waypoints[k + 1][j] - waypoints[k][j]) <= slope * (times[k + 1] - times[k])
    ensures times[k + 1] - times[k] <= MIN_GAP ==> waypoints[k + 1][j] == waypoints[k][j]
  {
    hide Position, Abs;
    AtWaypoint(waypoints, times, k, j);
    AtWaypoint(waypoints, times, k + 1, j);
    assert CloseBy(waypoints, times, times[k], times[k + 1], j, slope);
    if times[k + 1] - times[k] <= MIN_GAP && waypoints[k + 1][j] != waypoints[k][j] {
      var e := NarrowGapJumps(waypoints, times, k, j, slope + 1.0);
      assert CloseBy(waypoints, times, e, times[k + 1], j, slope);
      Steeper(slope, times[k + 1] - e);
      assert false;
    }
  }

  lemma Steeper(slope: real, d: real)
    requires d >= 0.0
    ensures slope * d <= (slope + 1.0) * d
  {
  }

  /** Over a gap of at most a nanosecond between different positions, no slope at all
      bounds the commands. */
  lemma NarrowGapJumps(waypoints: seq<Joints>, times: seq<real>, k: nat, j: nat, slope: real) returns (e: real)
    requires ValidTrajectory(waypoints, times) && k + 1 < |times| && j < DOF && slope > 0.0
    requires times[k + 1] - times[k] <= MIN_GAP && waypoints[k][j] != waypoints[k + 1][j]
    ensures times[k] <= e < times[k + 1]
    ensures Abs(Position(waypoints, times, times[k + 1], j) - Position(waypoints, times, e, j))
      > slope * (times[k + 1] - e)
  {
    hide Position;
    var gap := times[k + 1] - times[k];
    assert gap > 0.0;
    var jump := Abs(waypoints[k + 1][j] - waypoints[k][j]);
    var d := if slope * gap < jump then gap else jump / (2.0 * slope);
    Shrink(jump, slope, gap);
    e := times[k + 1] - d;
    FlatSegment(waypoints, times, k, e, j);
    AtWaypoint(waypoints, times, k + 1, j);
  }

  lemma FlatSegment(waypoints: seq<Joints>, times: seq<real>, k: nat, e: real, j: nat)
    requires ValidTrajectory(waypoints, times) && k + 1 < |times| && j < DOF && times[k] <= e < times[k + 1]
    requires times[k + 1] - times[k] <= MIN_GAP
    ensures Position(waypoints, times, e, j) == waypoints[k][j]
  {
    OneSegment(waypoints, times, e, k);
    assert times[k + 1] <= times[|times| - 1];
  }

  /** Every waypoint is reached at its time. */
  lemma AtWaypoint(waypoints: seq<Joints>, times: seq<real>, k: nat, j: nat)
    requires ValidTrajectory(waypoints, times) && k < |times| && j < DOF
    ensures Position(waypoints, times, times[k], j) == waypoints[k][j]
  {
    if k + 1 < |times| {
      assert times[k] < times[k + 1] <= times[|times| - 1];
      OneSegment(waypoints, times, times[k], k);
      assert Alpha(times, times[k], k) == 0.0;
    }
  }

  lemma Shrink(jump: real, slope: real, gap: real)
    requires jump > 0.0 && slope > 0.0 && gap > 0.0
    ensures var d := if slope * gap < jump then gap else jump / (2.0 * slope);
            0.0 < d <= gap && slope * d < jump
  {
    if slope * gap >= jump {
      var d := jump / (2.0 * slope);
      assert d * (2.0 * slope) == jump;
      assert d > 0.0;
      assert d > gap ==> d * slope > gap * slope;
    }
  }

  // ----- whole motions -----

  lemma {:induction false} ElapsedGrows(periods: seq<real>, i: nat, k: nat)
    requires i <= k <= |periods| && forall n :: 0 <= n < |periods| ==> periods[n] >= 0.0
    ensures 0.0 <= Elapsed(periods, i) <= Elapsed(periods, k)
    decreases k
  {
    if i < k {
      ElapsedGrows(periods, i, k - 1);
    } else if k > 0 {
      ElapsedGrows(periods, k - 1, k - 1);
    }
  }

  /** Main result.  Over any sequence of ticks: if the first command is inside the
      limits all are; if a slope bounds the segments, and the joint is still in narrow
      gaps, any two commands differ by at most the slope times the time that passed; and
      once the time is past the end by the settling time the command is the last waypoint. */
  lemma WholeMotion(waypoints: seq<Joints>, times: seq<real>, periods: seq<real>, i: nat, k: nat, j: nat, slope: real)
    requires ValidTrajectory(waypoints, times) && (|times| == 1 ==> times[0] == 0.0)
    requires (forall n :: 0 <= n < |periods| ==> periods[n] >= 0.0) && i <= k <= |periods| && j < DOF && slope >= 0.0
    ensures 0.0 <= Elapsed(periods, i) <= Elapsed(periods, k)
    ensures var x := Position(waypoints, times, Elapsed(periods, i), j);
            var y := Position(waypoints, times, Elapsed(periods, k), j);
            && (Allowed(StartCommand(waypoints, times, j), j) ==> Allowed(x, j) && Allowed(y, j))
            && (SlopesBelow(waypoints, times, j, slope) && StillInNarrowGaps(waypoints, times, j) ==>
                  Abs(y - x) <= slope * (Elapsed(periods, k) - Elapsed(periods, i)))
            && (Elapsed(periods, k) >= times[|times| - 1] + SETTLE ==> y == waypoints[|waypoints| - 1][j])
  {
    hide Position, Elapsed, SlopesBelow, StillInNarrowGaps, StartCommand;
    ElapsedGrows(periods, i, k);
    StartsThere(waypoints, times, j);
    if Allowed(StartCommand(waypoints, times, j), j) {
      AllowedFromStart(waypoints, times, Elapsed(periods, i), j);
      AllowedFromStart(waypoints, times, Elapsed(periods, k), j);
    }
    if SlopesBelow(waypoints, times, j, slope) && StillInNarrowGaps(waypoints, times, j) {
      SlopeFromAnywhere(waypoints, times, Elapsed(periods, i), Elapsed(periods, k), j, slope);
    }
    EndsAtLast(waypoints, times, Elapsed(periods, k), j);
  }

  lemma EndsAtLast(waypoints: seq<Joints>, times: seq<real>, e: real, j: nat)
    requires ValidTrajectory(waypoints, times) && j < DOF && Defined(times, e)
    ensures e >= times[|times| - 1] ==> Position(waypoints, times, e, j) == waypoints[|waypoints| - 1][j]
  {
  }
}
