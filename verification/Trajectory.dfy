/** Executing a joint trajectory of the right arm. */
module Trajectory {
  const DOF: nat := 7
  const MAX_PTS: nat := 1000              // ARM_TRAJ_MAX_PTS
  const MIN_GAP: real := 0.000000001
  const SETTLE: real := 0.05
  const LOWER: seq<real> := [-2.7437, -1.7837, -2.9007, -3.0421, -2.8065, 0.5445, -3.0159]
  const UPPER: seq<real> := [2.7437, 1.7837, 2.9007, -0.1518, 2.8065, 4.5169, 3.0159]

  /** A double as it is found in shared memory. */
  datatype Double = Finite(x: real) | NotFinite

  type Joints = q: seq<real> | |q| == DOF witness [0.0, 0.0, 0.0, 0.0, 0.0, 0.0, 0.0]
  type RawJoints = q: seq<Double> | |q| == DOF witness seq(DOF, _ => NotFinite)

  // ----- taking over a trajectory -----

  predicate InLimits(q: Joints) {
    forall j :: 0 <= j < DOF ==> LOWER[j] <= q[j] <= UPPER[j]
  }

  predicate ValidRaw(q: RawJoints) {
    forall j :: 0 <= j < DOF ==> q[j].Finite? && LOWER[j] <= q[j].x <= UPPER[j]
  }

  /** Waypoints inside the limits, at increasing times from 0 on. */
  predicate ValidTrajectory(waypoints: seq<Joints>, times: seq<real>) {
    && 1 <= |waypoints| == |times| <= MAX_PTS
    && (forall i :: 0 <= i < |waypoints| ==> InLimits(waypoints[i]))
    && (forall i :: 0 <= i < |times| ==> times[i] >= 0.0)
    && forall i, k :: 0 <= i < k < |times| ==> times[i] < times[k]
  }

  predicate Acceptable(q: seq<RawJoints>, t: seq<Double>) {
    && 1 <= |q| == |t| <= MAX_PTS
    && forall i :: 0 <= i < |q| ==>
         && ValidRaw(q[i]) && t[i].Finite? && t[i].x >= 0.0
         && (i > 0 ==> t[i - 1].Finite? && t[i - 1].x < t[i].x)
  }

  method ValidateWaypoint(q: RawJoints) returns (ok: bool)
    ensures ok <==> ValidRaw(q)
  {
    for j := 0 to DOF
      invariant forall i :: 0 <= i < j ==> q[i].Finite? && LOWER[i] <= q[i].x <= UPPER[i]
    {
      if !q[j].Finite? {
        return false;
      }
      if q[j].x < LOWER[j] || q[j].x > UPPER[j] {
        return false;
      }
    }
    return true;
  }

  /** Copies the buffer; refuses it at the first bad waypoint or time. */
  method Load(q: seq<RawJoints>, t: seq<Double>) returns (ok: bool, waypoints: seq<Joints>, times: seq<real>)
    requires |q| == |t|
    ensures ok <==> Acceptable(q, t)
    ensures ok ==> ValidTrajectory(waypoints, times) && |waypoints| == |q|
    ensures ok ==> forall i :: 0 <= i < |q| ==>
              t[i] == Finite(times[i]) && forall j :: 0 <= j < DOF ==> q[i][j] == Finite(waypoints[i][j])
  {
    waypoints, times := [], [];
    if |q| == 0 || |q| > MAX_PTS {
      return false, [], [];
    }
    for i := 0 to |q|
      invariant |waypoints| == |times| == i
      invariant forall k :: 0 <= k < i ==>
        && ValidRaw(q[k]) && t[k] == Finite(times[k]) && times[k] >= 0.0 && (k > 0 ==> times[k - 1] < times[k])
        && forall j :: 0 <= j < DOF ==> q[k][j] == Finite(waypoints[k][j])
      invariant forall k :: 0 <= k < i - 1 ==> times[k] < times[i - 1]
      invariant forall a, k :: 0 <= a < k < i ==> times[a] < times[k]
    {
      var valid := ValidateWaypoint(q[i]);
      if !valid {
        return false, [], [];
      }
      if !t[i].Finite? || t[i].x < 0.0 || (i > 0 && t[i].x <= times[i - 1]) {
        return false, [], [];
      }
      waypoints := waypoints + [seq(DOF, j requires 0 <= j < DOF => q[i][j].x)];
      times := times + [t[i].x];
    }
    return true, waypoints, times;
  }

  // ----- the commanded position -----

  function Lerp(a: real, b: real, alpha: real): real {
    a + alpha * (b - a)
  }

  method Lerp7(a: Joints, b: Joints, alpha: real) returns (out: Joints)
    ensures forall j :: 0 <= j < DOF ==> out[j] == Lerp(a[j], b[j], alpha)
  {
    out := a;
    for i := 0 to DOF
      invariant forall j :: 0 <= j < DOF ==> out[j] == if j < i then Lerp(a[j], b[j], alpha) else a[j]
    {
      out := out[i := a[i] + alpha * (b[i] - a[i])];
    }
  }

  /** First segment from number i on that contains the time, or 0. */
  function Segment(times: seq<real>, e: real, i: nat): (seg: nat)
    requires |times| >= 2
    ensures seg + 1 < |times|
    decreases |times| - i
  {
    if i + 1 >= |times| then 0
    else if times[i] <= e < times[i + 1] then i
    else Segment(times, e, i + 1)
  }

  function Alpha(times: seq<real>, e: real, seg: nat): real
    requires seg + 1 < |times|
  {
    var dt := times[seg + 1] - times[seg];
    if dt > MIN_GAP then (e - times[seg]) / dt else 0.0
  }

  /** Position of joint j at time e. */
  function Position(waypoints: seq<Joints>, times: seq<real>, e: real, j: nat): real
    requires 1 <= |waypoints| == |times| && j < DOF && (|times| == 1 ==> times[0] <= e)
  {
    if e >= times[|times| - 1] then waypoints[|waypoints| - 1][j]
    else
      var seg := Segment(times, e, 0);
      Lerp(waypoints[seg][j], waypoints[seg + 1][j], Alpha(times, e, seg))
  }

  /** The motion callback and its time.  It looks at a second waypoint unless the
      time is past the last one. */
  class Motion {
    const waypoints: seq<Joints>
    const times: seq<real>
    var elapsed: real

    constructor (waypoints: seq<Joints>, times: seq<real>)
      requires ValidTrajectory(waypoints, times)
      ensures this.waypoints == waypoints && this.times == times && elapsed == 0.0
    {
      this.waypoints := waypoints;
      this.times := times;
      elapsed := 0.0;
    }

    method Tick(period: real) returns (q: Joints, finished: bool)
      requires ValidTrajectory(waypoints, times) && (|times| == 1 ==> times[0] <= elapsed + period)
      modifies this
      ensures elapsed == old(elapsed) + period
      ensures forall j :: 0 <= j < DOF ==> q[j] == Position(waypoints, times, elapsed, j)
      ensures finished <==> elapsed >= times[|times| - 1] + SETTLE
    {
      elapsed := elapsed + period;
      var last := |times| - 1;
      var totalDur := times[last];
      if elapsed >= totalDur {
        q := waypoints[last];
      } else {
        var seg := FindSegment(elapsed);
        var dt := times[seg + 1] - times[seg];
        var alpha := if dt > MIN_GAP then (elapsed - times[seg]) / dt else 0.0;
        q := Lerp7(waypoints[seg], waypoints[seg + 1], alpha);
      }
      finished := elapsed >= totalDur + SETTLE;
      if finished {
        q := waypoints[last];
      }
    }

    method FindSegment(e: real) returns (seg: nat)
      requires |times| >= 2
      ensures seg == Segment(times, e, 0)
    {
      seg := 0;
      var i, found := 0, false;
      while i < |times| - 1 && !found
        invariant i <= |times| - 1
        invariant if found then seg == Segment(times, e, 0)
                  else seg == 0 && Segment(times, e, i) == Segment(times, e, 0)
        decreases |times| - i, !found
      {
        if times[i] <= e < times[i + 1] {
          seg := i;
          found := true;
        } else {
          i := i + 1;
        }
      }
    }
  }

  /** Time after the first k ticks. */
  function Elapsed(periods: seq<real>, k: nat): real
    requires k <= |periods|
  {
    if k == 0 then 0.0 else Elapsed(periods, k - 1) + periods[k - 1]
  }

  lemma ElapsedStart(periods: seq<real>)
    ensures Elapsed(periods, 0) == 0.0
  {
  }

  lemma ElapsedNext(periods: seq<real>, k: nat)
    requires k < |periods|
    ensures Elapsed(periods, k + 1) == Elapsed(periods, k) + periods[k]
  {
  }

  /** Command number k is the position after k + 1 ticks. */
  predicate Obeys(q: Joints, waypoints: seq<Joints>, times: seq<real>, e: real)
    requires 1 <= |waypoints| == |times|
  {
    && (|times| == 1 ==> times[0] <= e)
    && forall j :: 0 <= j < DOF ==> q[j] == Position(waypoints, times, e, j)
  }

  /** The time at which the motion is finished. */
  predicate Settled(times: seq<real>, periods: seq<real>, k: nat)
    requires times != [] && k <= |periods|
  {
    Elapsed(periods, k) >= times[|times| - 1] + SETTLE
  }

  /** Takes over a trajectory and answers ticks of the given periods until the motion is
      finished. */
  method Execute(q: seq<RawJoints>, t: seq<Double>, periods: seq<real>)
    returns (ok: bool, waypoints: seq<Joints>, times: seq<real>, commands: seq<Joints>, finished: bool)
    requires |q| == |t| && forall n :: 0 <= n < |periods| ==> periods[n] >= 0.0
    requires |q| == 1 && t[0].Finite? ==> t[0].x <= 0.0
    ensures ok <==> Acceptable(q, t)
    ensures ok ==> ValidTrajectory(waypoints, times) && |waypoints| == |q| && |commands| <= |periods|
    ensures ok ==> forall i :: 0 <= i < |q| ==>
              t[i] == Finite(times[i]) && forall j :: 0 <= j < DOF ==> q[i][j] == Finite(waypoints[i][j])
    ensures ok && |times| == 1 ==> times[0] == 0.0
    ensures ok ==> forall k :: 0 <= k < |commands| ==> Obeys(commands[k], waypoints, times, Elapsed(periods, k + 1))
    ensures ok ==> forall k :: 0 < k <= |commands| ==> (Settled(times, periods, k) <==> finished && k == |commands|)
    ensures ok ==> if finished then commands != [] else |commands| == |periods|
  {
    commands, finished := [], false;
    ok, waypoints, times := Load(q, t);
    if !ok {
      return;
    }
    hide Position, Acceptable, ValidRaw, InLimits, Elapsed;
    var motion := new Motion(waypoints, times);
    ElapsedStart(periods);
    while !finished && |commands| < |periods|
      invariant |commands| <= |periods| && motion.waypoints == waypoints && motion.times == times
      invariant motion.elapsed == Elapsed(periods, |commands|) >= 0.0
      invariant forall k :: 0 <= k < |commands| ==> Obeys(commands[k], waypoints, times, Elapsed(periods, k + 1))
      invariant forall k :: 0 < k <= |commands| ==> (Settled(times, periods, k) <==> finished && k == |commands|)
      invariant finished ==> commands != []
      decreases |periods| - |commands|
    {
      var n := |commands|;
      ElapsedNext(periods, n);
      var q_des;
      q_des, finished := motion.Tick(periods[n]);
      commands := commands + [q_des];
    }
  }
}
