/** How many containers an app should be running (src/lib/autoscale.ts), and what applying the decisions over and
    over does to the count. Percentages and the bounds of a policy are reals, times milliseconds. */
module Autoscale {
  import opened Wrappers
  import opened Text

  const MIN_SAMPLES := 3

  datatype Policy = Policy(min: real, max: real, scaleUpCpu: real, scaleDownCpu: real, scaleUpCooldownMs: int,
                           scaleDownCooldownMs: int)

  datatype Direction = Up | Down

  datatype Reason = BelowMinimum(min: int) | AboveMaximum(max: int) | CpuAveraged(percent: int, containers: int)

  datatype Decision = Decision(desired: int, direction: Direction, reason: Reason)

  /** One look at the load. The average is missing when it is not a finite number. */
  datatype Observation = Observation(averageCpu: Option<real>, sampleCount: nat, now: int)

  /** The containers running and when the count last changed. */
  datatype Fleet = Fleet(count: int, lastScaledAt: Option<int>)

  /** `Math.round` */
  function Round(x: real): int { (x + 0.5).Floor }

  function LowerBound(p: Policy): int { Max(1, Round(p.min)) }

  function UpperBound(p: Policy): int { Max(LowerBound(p), Round(p.max)) }

  predicate CooledDown(fleet: Fleet, now: int, cooldownMs: int) {
    fleet.lastScaledAt.None? || now - fleet.lastScaledAt.value >= cooldownMs
  }

  function DecideScale(fleet: Fleet, o: Observation, p: Policy): Option<Decision> {
    var min := LowerBound(p);
    var max := UpperBound(p);
    if fleet.count < min then Some(Decision(min, Up, BelowMinimum(min)))
    else if fleet.count > max then Some(Decision(max, Down, AboveMaximum(max)))
    else if o.sampleCount < MIN_SAMPLES || o.averageCpu.None? then None
    else
      var cpu := o.averageCpu.value;
      if cpu >= p.scaleUpCpu && fleet.count < max then
        if CooledDown(fleet, o.now, p.scaleUpCooldownMs)
        then Some(Decision(fleet.count + 1, Up, CpuAveraged(Round(cpu), fleet.count))) else None
      else if cpu <= p.scaleDownCpu && fleet.count > min then
        if CooledDown(fleet, o.now, p.scaleDownCooldownMs)
        then Some(Decision(fleet.count - 1, Down, CpuAveraged(Round(cpu), fleet.count))) else None
      else None
  }

  /** With a count in bounds a container is added exactly when enough readings average at or above the line for
      more, there is room and the last change is long enough ago; and one is removed exactly when they average at
      or below the line for less, there is one to spare, no busy average comes first, and the last change is
      longer ago. */
  lemma DecisionsAnswerTheLoad(fleet: Fleet, o: Observation, p: Policy)
    requires LowerBound(p) <= fleet.count <= UpperBound(p)
    ensures var d, measured := DecideScale(fleet, o, p), o.sampleCount >= 3 && o.averageCpu.Some?;
            var busy := measured && o.averageCpu.value >= p.scaleUpCpu && fleet.count + 1 <= UpperBound(p);
            var idle := measured && o.averageCpu.value <= p.scaleDownCpu && fleet.count - 1 >= LowerBound(p);
            var age := if fleet.lastScaledAt.Some? then Some(o.now - fleet.lastScaledAt.value) else None;
            && (d.Some? && d.value.direction == Up <==> busy && (age.Some? ==> p.scaleUpCooldownMs <= age.value))
            && (d.Some? && d.value.direction == Down <==> idle && !busy && (age.Some? ==> p.scaleDownCooldownMs <= age.value))
            && (d.Some? ==> d.value.desired == fleet.count + (if d.value.direction == Up then 1 else -1))
            && (d.Some? ==> d.value.reason == CpuAveraged(Round(o.averageCpu.value), fleet.count))
  {
  }

  /** A count out of bounds is brought back at once, whatever is known of the load. */
  lemma BackIntoBounds(fleet: Fleet, o: Observation, p: Policy)
    requires !(LowerBound(p) <= fleet.count <= UpperBound(p))
    ensures DecideScale(fleet, o, p) ==
            Some(if fleet.count < LowerBound(p) then Decision(LowerBound(p), Up, BelowMinimum(LowerBound(p)))
                 else Decision(UpperBound(p), Down, AboveMaximum(UpperBound(p))))
  {
  }

  /** The bounds are the whole numbers nearest to what the policy says, the upper one of two, but never below 1
      and never the maximum below the minimum. */
  lemma BoundsAreNearest(p: Policy)
    ensures LowerBound(p) >= 1 && UpperBound(p) >= LowerBound(p)
    ensures p.min >= 1.0 ==> LowerBound(p) as real - 0.5 <= p.min < LowerBound(p) as real + 0.5
    ensures p.max >= p.min >= 1.0 ==> UpperBound(p) as real - 0.5 <= p.max < UpperBound(p) as real + 0.5
    ensures p.min < 1.0 ==> LowerBound(p) == 1
    ensures p.max <= p.min ==> UpperBound(p) == LowerBound(p)
  {
    if p.min <= p.max { RoundIsMonotone(p.min, p.max); } else { RoundIsMonotone(p.max, p.min); }
  }

  lemma RoundIsMonotone(x: real, y: real)
    requires x <= y
    ensures Round(x) <= Round(y)
  {
  }

  function PolicyFor(min: Option<real>, max: Option<real>): Policy {
    var resolvedMin := Max(1, Round(if min.Some? then min.value else 1.0));
    Policy(resolvedMin as real, Max(resolvedMin, Round(if max.Some? then max.value else resolvedMin as real)) as real,
           70.0, 30.0, 3 * 60 * 1000, 10 * 60 * 1000)
  }

  /** The bounds of a project's policy are already what a decision makes of them. */
  lemma PolicyForIsResolved(min: Option<real>, max: Option<real>)
    ensures LowerBound(PolicyFor(min, max)) as real == PolicyFor(min, max).min
    ensures UpperBound(PolicyFor(min, max)) as real == PolicyFor(min, max).max
    ensures max.None? ==> LowerBound(PolicyFor(min, max)) == UpperBound(PolicyFor(min, max))
    ensures min.None? ==> LowerBound(PolicyFor(min, max)) == 1
    ensures min.Some? ==> LowerBound(PolicyFor(min, max)) == Max(1, Round(min.value))
    ensures max.Some? ==> UpperBound(PolicyFor(min, max)) == Max(LowerBound(PolicyFor(min, max)), Round(max.value))
    ensures PolicyFor(min, max).scaleUpCpu == 70.0 && PolicyFor(min, max).scaleDownCpu == 30.0
    ensures PolicyFor(min, max).scaleUpCooldownMs == 180000 && PolicyFor(min, max).scaleDownCooldownMs == 600000
  {
    RoundOfWhole(LowerBound(PolicyFor(min, max)));
    RoundOfWhole(PolicyFor(min, max).max.Floor);
    RoundOfWhole(PolicyFor(min, max).min.Floor);
  }

  lemma RoundOfWhole(n: int)
    ensures Round(n as real) == n
  {
  }

  // ---------------------------------------------------------------- runs

  function Applied(fleet: Fleet, o: Observation, p: Policy): Fleet {
    var decision := DecideScale(fleet, o, p);
    if decision.None? then fleet else Fleet(decision.value.desired, Some(o.now))
  }

  /** The fleet before the observation at a position. */
  function FleetAt(start: Fleet, os: seq<Observation>, p: Policy, k: nat): Fleet
    requires k <= |os|
  {
    if k == 0 then start else Applied(FleetAt(start, os, p, k - 1), os[k - 1], p)
  }

  function DecisionAt(start: Fleet, os: seq<Observation>, p: Policy, k: nat): Option<Decision>
    requires k < |os|
  {
    DecideScale(FleetAt(start, os, p, k), os[k], p)
  }

  predicate InBounds(count: int, p: Policy) { LowerBound(p) <= count <= UpperBound(p) }

  predicate TimesGoOn(os: seq<Observation>) {
    forall i, j | 0 <= i < j < |os| :: os[i].now <= os[j].now
  }

  /** Whatever the load, a count out of bounds is brought to the nearest bound by the first decision, and after
      it the count stays in bounds and moves by at most one. */
  lemma {:induction false} BoundsAreKept(start: Fleet, os: seq<Observation>, p: Policy, k: nat)
    requires 0 < k <= |os|
    ensures InBounds(FleetAt(start, os, p, k).count, p)
    ensures var before, after := FleetAt(start, os, p, k - 1).count, FleetAt(start, os, p, k).count;
            if k == 1 && !InBounds(start.count, p)
            then after == (if start.count < LowerBound(p) then LowerBound(p) else UpperBound(p))
            else -1 <= after - before <= 1
  {
    assert FleetAt(start, os, p, 0) == start;
    if k > 1 { BoundsAreKept(start, os, p, k - 1); }
  }

  /** The time of the last change is at or after that of any change before, and not in the future. */
  lemma {:induction false} LastChange(start: Fleet, os: seq<Observation>, p: Policy, i: nat, j: nat)
    requires i < j <= |os| && TimesGoOn(os) && DecisionAt(start, os, p, i).Some?
    ensures FleetAt(start, os, p, j).lastScaledAt.Some?
    ensures os[i].now <= FleetAt(start, os, p, j).lastScaledAt.value <= os[j - 1].now
  {
    if i + 1 < j { LastChange(start, os, p, i, j - 1); }
  }

  /** Once in bounds, a container is added no sooner than the up cooldown after any change before, and removed no
      sooner than the down cooldown. */
  lemma ChangesAreApart(start: Fleet, os: seq<Observation>, p: Policy, i: nat, j: nat)
    requires i < j < |os| && TimesGoOn(os)
    requires DecisionAt(start, os, p, i).Some? && DecisionAt(start, os, p, j).Some?
    ensures var cooldown := if DecisionAt(start, os, p, j).value.direction == Up then p.scaleUpCooldownMs else p.scaleDownCooldownMs;
            os[j].now - os[i].now >= cooldown
  {
    LastChange(start, os, p, i, j);
    BoundsAreKept(start, os, p, j);
  }

  /** How often the count changed at the positions from `i` up to, not including, `j`. */
  function Changes(start: Fleet, os: seq<Observation>, p: Policy, i: nat, j: nat): nat
    requires i <= j <= |os|
  {
    if i == j then 0
    else Changes(start, os, p, i, j - 1) + (if DecisionAt(start, os, p, j - 1).Some? then 1 else 0)
  }

  lemma {:induction false} ChangesTakeTime(start: Fleet, os: seq<Observation>, p: Policy, i: nat, j: nat)
    requires i <= j <= |os| && TimesGoOn(os)
    requires Changes(start, os, p, i, j) > 0
    ensures var cooldown := Min(p.scaleUpCooldownMs, p.scaleDownCooldownMs);
            var fleet := FleetAt(start, os, p, j);
            && fleet.lastScaledAt.Some?
            && os[i].now + (Changes(start, os, p, i, j) - 1) * cooldown <= fleet.lastScaledAt.value <= os[j - 1].now
  {
    hide DecideScale, InBounds;
    var n := Changes(start, os, p, i, j - 1);
    var cooldown := Min(p.scaleUpCooldownMs, p.scaleDownCooldownMs);
    if n > 0 {
      ChangesTakeTime(start, os, p, i, j - 1);
      BoundsAreKept(start, os, p, j - 1);
      var before := FleetAt(start, os, p, j - 1);
      assert os[j - 2].now <= os[j - 1].now;
      if DecisionAt(start, os, p, j - 1).Some? {
        NextChangeWaits(before, os[j - 1], p);
        assert n * cooldown == (n - 1) * cooldown + cooldown;
      }
    } else {
      assert Changes(start, os, p, i, j) == 1 && (1 - 1) * cooldown == 0;
      assert i < j - 1 ==> os[i].now <= os[j - 1].now;
    }
  }

  lemma NextChangeWaits(fleet: Fleet, o: Observation, p: Policy)
    requires InBounds(fleet.count, p) && fleet.lastScaledAt.Some? && DecideScale(fleet, o, p).Some?
    ensures o.now - fleet.lastScaledAt.value >= Min(p.scaleUpCooldownMs, p.scaleDownCooldownMs)
  {
  }

  /** In any stretch of time W, the count changes at most W over the shorter cooldown, rounded down, plus one. */
  lemma ChangesAreFew(start: Fleet, os: seq<Observation>, p: Policy, i: nat, j: nat, window: int)
    requires i < j <= |os| && TimesGoOn(os) && os[j - 1].now - os[i].now <= window
    requires Min(p.scaleUpCooldownMs, p.scaleDownCooldownMs) > 0
    ensures Changes(start, os, p, i, j) <= window / Min(p.scaleUpCooldownMs, p.scaleDownCooldownMs) + 1
  {
    var cooldown := Min(p.scaleUpCooldownMs, p.scaleDownCooldownMs);
    var n := Changes(start, os, p, i, j);
    assert os[i].now <= os[j - 1].now;
    if n > 0 {
      ChangesTakeTime(start, os, p, i, j);
      Quotient(n - 1, cooldown, window);
    } else {
      Quotient(0, cooldown, window);
    }
  }

  lemma Quotient(n: nat, d: int, w: int)
    requires d > 0 && n * d <= w
    ensures n <= w / d
  {
    assert n * d < (w / d + 1) * d;
    LessCancels(n, w / d + 1, d);
  }

  lemma LessCancels(n: int, m: int, d: int)
    requires d > 0 && n * d < m * d
    ensures n < m
  {
    assert (m - n) * d > 0;
  }

  /** While the load stays between the two lines, or is not known well enough, nothing changes. */
  lemma {:induction false} BetweenTheLinesNothingChanges(start: Fleet, os: seq<Observation>, p: Policy, k: nat)
    requires k <= |os| && InBounds(start.count, p)
    requires forall o | o in os :: o.sampleCount >= 3 && o.averageCpu.Some? ==> p.scaleDownCpu < o.averageCpu.value < p.scaleUpCpu
    ensures FleetAt(start, os, p, k) == start
  {
    if k > 0 {
      BetweenTheLinesNothingChanges(start, os, p, k - 1);
      assert os[k - 1] in os;
    }
  }

  /** A project that keeps every container busy gets one more at each look after the cooldown, up to its
      maximum. */
  lemma {:induction false} BusyReachesTheMaximum(start: Fleet, os: seq<Observation>, p: Policy, k: nat)
    requires k <= |os| && InBounds(start.count, p)
    requires forall o | o in os :: o.sampleCount >= MIN_SAMPLES && o.averageCpu.Some? && o.averageCpu.value >= p.scaleUpCpu
    requires forall o | o in os :: o.averageCpu.value > p.scaleDownCpu
    requires forall i | 0 < i < |os| :: os[i].now - os[i - 1].now >= p.scaleUpCooldownMs
    requires os != [] ==> CooledDown(start, os[0].now, p.scaleUpCooldownMs)
    ensures FleetAt(start, os, p, k).count == Min(start.count + k, UpperBound(p))
    ensures k < |os| && start.count + k < UpperBound(p) ==> CooledDown(FleetAt(start, os, p, k), os[k].now, p.scaleUpCooldownMs)
  {
    if k > 0 {
      BusyReachesTheMaximum(start, os, p, k - 1);
      assert os[k - 1] in os;
    }
  }

  /** And an idle one loses one at each look after the longer cooldown, down to its minimum. */
  lemma {:induction false} IdleReachesTheMinimum(start: Fleet, os: seq<Observation>, p: Policy, k: nat)
    requires k <= |os| && InBounds(start.count, p)
    requires forall o | o in os :: o.sampleCount >= MIN_SAMPLES && o.averageCpu.Some? && o.averageCpu.value <= p.scaleDownCpu
    requires forall o | o in os :: o.averageCpu.value < p.scaleUpCpu
    requires forall i | 0 < i < |os| :: os[i].now - os[i - 1].now >= p.scaleDownCooldownMs
    requires os != [] ==> CooledDown(start, os[0].now, p.scaleDownCooldownMs)
    ensures FleetAt(start, os, p, k).count == Max(start.count - k, LowerBound(p))
    ensures k < |os| && start.count - k > LowerBound(p) ==> CooledDown(FleetAt(start, os, p, k), os[k].now, p.scaleDownCooldownMs)
  {
    if k > 0 {
      IdleReachesTheMinimum(start, os, p, k - 1);
      assert os[k - 1] in os;
    }
  }
}
