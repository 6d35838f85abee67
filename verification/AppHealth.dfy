/** When a watched project counts as down and what is sent about it (src/lib/app-health.ts). Times are
    milliseconds; they need not increase unless a statement says so. */
module AppHealth {
  import opened Wrappers
  import opened Text

  const HOUR_MS := 60 * 60 * 1000
  const DOWN_REMINDER_AFTER_MS := [24 * HOUR_MS, 72 * HOUR_MS]

  datatype Status = Up | Down | Unknown

  datatype HealthState = HealthState(status: Status, failCount: nat, downSince: Option<int>, notifiedAt: Option<int>,
                                     reminderStep: Option<nat>)

  datatype Notice = DownNotice | Reminder | UpNotice

  datatype Transition = Transition(state: HealthState, notify: Option<Notice>, downForMs: Option<int>)

  /** One run of the monitoring: the result, the threshold it read, and its time. */
  datatype Check = Check(healthy: bool, threshold: int, now: int)

  const FRESH := HealthState(Unknown, 0, None, None, Some(0))

  /** How many of the bounds are passed. */
  function Passed(bounds: seq<int>, downFor: int): (n: nat)
    ensures n <= |bounds|
  {
    if bounds == [] then 0 else (if downFor >= bounds[0] then 1 else 0) + Passed(bounds[1..], downFor)
  }

  function DueReminderStep(downSince: Option<int>, now: int): nat {
    if downSince.None? then 0 else Passed(DOWN_REMINDER_AFTER_MS, now - downSince.value)
  }

  function Step(s: HealthState): nat {
    if s.reminderStep.Some? then s.reminderStep.value else 0
  }

  function Needed(threshold: int): int { Max(1, threshold) }

  function NextHealthState(previous: HealthState, check: Check): Transition {
    var now := check.now;
    var wasDown := previous.status == Down;
    if check.healthy then
      Transition(HealthState(Up, 0, None, None, Some(0)),
                 if wasDown && previous.notifiedAt.Some? then Some(UpNotice) else None,
                 if wasDown && previous.downSince.Some? then Some(now - previous.downSince.value) else None)
    else
      var failCount := previous.failCount + 1;
      var confirmed := failCount >= Max(1, check.threshold);
      var downSince := if previous.downSince.Some? then previous.downSince else if confirmed then Some(now) else None;
      var due := DueReminderStep(downSince, now);
      var notify := if confirmed && previous.notifiedAt.None? then Some(DownNotice)
                    else if confirmed && due > Step(previous) then Some(Reminder)
                    else None;
      var reminderStep := if notify == Some(DownNotice) then 0 else if notify == Some(Reminder) then due else Step(previous);
      Transition(HealthState(if confirmed then Down else previous.status, failCount, downSince,
                             if notify.Some? then Some(now) else previous.notifiedAt, Some(reminderStep)),
                 notify,
                 if notify == Some(Reminder) && downSince.Some? then Some(now - downSince.value) else None)
  }

  /** A stored state without a step counts as one without a reminder. */
  lemma MissingStepIsZero(s: HealthState, check: Check)
    ensures NextHealthState(s.(reminderStep := None), check) == NextHealthState(s.(reminderStep := Some(0)), check)
  {
  }

  // ---------------------------------------------------------------- every run

  /** The state after the checks, from one that was never checked. */
  function After(checks: seq<Check>): HealthState {
    if checks == [] then FRESH
    else NextHealthState(After(checks[..|checks| - 1]), checks[|checks| - 1]).state
  }

  /** What the check at a position sends. */
  function Sent(checks: seq<Check>, i: nat): Transition
    requires i < |checks|
  {
    NextHealthState(After(checks[..i]), checks[i])
  }

  /** Everything sent so far, in order. */
  function Notices(checks: seq<Check>): seq<Notice> {
    if checks == [] then []
    else
      var n := |checks| - 1;
      var sent := Sent(checks, n).notify;
      Notices(checks[..n]) + (if sent.Some? then [sent.value] else [])
  }

  predicate DownTogether(s: HealthState) {
    && (s.status == Down <==> s.downSince.Some?)
    && (s.status == Down <==> s.notifiedAt.Some?)
    && Step(s) <= |DOWN_REMINDER_AFTER_MS|
    && (s.status != Down ==> Step(s) == 0)
  }

  /** Being down, having a start of the outage and having been told go together in every reachable state,
      whatever the results, thresholds and times. */
  lemma {:induction false} DownGoesTogether(checks: seq<Check>)
    ensures DownTogether(After(checks))
  {
    if checks != [] { DownGoesTogether(checks[..|checks| - 1]); }
  }

  /** Outages one after the other: `down`, at most two reminders, `up`; the last may still be open. `open` is
      the number of reminders sent when an outage is open at the start. */
  predicate Outages(open: Option<nat>, notices: seq<Notice>)
    decreases |notices|
  {
    notices == [] ||
    match notices[0]
    case DownNotice => open.None? && Outages(Some(0), notices[1..])
    case Reminder => open.Some? && open.value < 2 && Outages(Some(open.value + 1), notices[1..])
    case UpNotice => open.Some? && Outages(None, notices[1..])
  }

  /** The reminders of the outage still open after the notices; none when all have ended. */
  function StillOpen(open: Option<nat>, notices: seq<Notice>): Option<nat>
    decreases |notices|
  {
    if notices == [] then open
    else
      match notices[0]
      case DownNotice => StillOpen(Some(0), notices[1..])
      case Reminder => StillOpen(if open.Some? then Some(open.value + 1) else None, notices[1..])
      case UpNotice => StillOpen(None, notices[1..])
  }

  lemma OneNotice(open: Option<nat>, n: Notice)
    ensures Outages(open, [n]) <==>
            match n
            case DownNotice => open.None?
            case Reminder => open.Some? && open.value < 2
            case UpNotice => open.Some?
    ensures StillOpen(open, [n]) ==
            match n
            case DownNotice => Some(0)
            case Reminder => if open.Some? then Some(open.value + 1) else None
            case UpNotice => None
  {
    assert [n][1..] == [];
  }

  lemma {:induction false} OneMoreNotice(open: Option<nat>, notices: seq<Notice>, n: Notice)
    ensures Outages(open, notices + [n]) <==> Outages(open, notices) && Outages(StillOpen(open, notices), [n])
    ensures StillOpen(open, notices + [n]) == StillOpen(StillOpen(open, notices), [n])
    decreases |notices|
  {
    if notices == [] {
      assert [] + [n] == [n];
    } else {
      assert (notices + [n])[1..] == notices[1..] + [n];
      match notices[0]
      case DownNotice => OneMoreNotice(Some(0), notices[1..], n);
      case Reminder => OneMoreNotice(if open.Some? then Some(open.value + 1) else None, notices[1..], n);
      case UpNotice => OneMoreNotice(None, notices[1..], n);
    }
  }

  /** The notices of any run are outages one after the other, and an outage is open exactly while the project
      is down, with no more reminders sent than its step. */
  lemma {:induction false} NoticesAreOutages(checks: seq<Check>)
    ensures Outages(None, Notices(checks))
    ensures match StillOpen(None, Notices(checks))
            case None => After(checks).status != Down
            case Some(reminders) => After(checks).status == Down && reminders <= Step(After(checks))
  {
    if checks != [] {
      var n := |checks| - 1;
      NoticesAreOutages(checks[..n]);
      DownGoesTogether(checks[..n]);
      var sent := Sent(checks, n).notify;
      var before := Notices(checks[..n]);
      assert before + [] == before;
      if sent.Some? {
        OneMoreNotice(None, before, sent.value);
        OneNotice(StillOpen(None, before), sent.value);
      }
    }
  }

  // ---------------------------------------------------------------- a fixed threshold

  predicate FixedThreshold(checks: seq<Check>, threshold: int) {
    forall c | c in checks :: c.threshold == threshold
  }

  /** The failures in a row at the end. */
  function Streak(checks: seq<Check>): (n: nat)
    ensures n <= |checks|
  {
    if checks == [] || checks[|checks| - 1].healthy then 0 else 1 + Streak(checks[..|checks| - 1])
  }

  /** With one threshold, the project is down exactly while the last failures in a row reach it, and the outage
      counts from the failure that did. */
  lemma {:induction false} DownAtTheThreshold(checks: seq<Check>, threshold: int)
    requires FixedThreshold(checks, threshold)
    ensures After(checks).failCount == Streak(checks)
    ensures After(checks).status == Down <==> Streak(checks) >= Needed(threshold)
    ensures Streak(checks) >= Needed(threshold) ==>
              After(checks).downSince == Some(checks[|checks| - Streak(checks) + Needed(threshold) - 1].now)
  {
    if checks != [] {
      var n := |checks| - 1;
      assert FixedThreshold(checks[..n], threshold);
      assert checks[n] in checks;
      DownAtTheThreshold(checks[..n], threshold);
      DownGoesTogether(checks[..n]);
    }
  }

  /** With one threshold T, `down` is sent exactly at the T-th failure in a row (the first when T is below 1),
      and `up` exactly at a success that follows T or more; `up` says how long after the T-th failure it came. */
  lemma SentExactly(checks: seq<Check>, threshold: int, i: nat)
    requires FixedThreshold(checks, threshold) && i < |checks|
    ensures Sent(checks, i).notify == Some(DownNotice) <==> Streak(checks[..i + 1]) == Needed(threshold)
    ensures Sent(checks, i).notify == Some(UpNotice) <==> checks[i].healthy && Streak(checks[..i]) >= Needed(threshold)
    ensures Sent(checks, i).notify == Some(UpNotice) ==>
              Sent(checks, i).downForMs == Some(checks[i].now - checks[i - Streak(checks[..i]) + Needed(threshold) - 1].now)
  {
    assert FixedThreshold(checks[..i], threshold);
    assert checks[i] in checks && checks[..i + 1][..i] == checks[..i];
    DownAtTheThreshold(checks[..i], threshold);
    DownGoesTogether(checks[..i]);
  }

  // ---------------------------------------------------------------- reminders

  lemma PassedBounds(downFor: int)
    ensures Passed(DOWN_REMINDER_AFTER_MS, downFor) ==
            if downFor < 86_400_000 then 0 else if downFor < 259_200_000 then 1 else 2
  {
    var later := DOWN_REMINDER_AFTER_MS[1..];
    assert later == [72 * HOUR_MS] && later[1..] == [];
    assert Passed(later, downFor) == (if downFor >= 72 * HOUR_MS then 1 else 0) + Passed(later[1..], downFor);
  }

  /** A reminder that raises the step to k is sent only once the outage is as old as the k-th bound, and says how
      old it is. */
  lemma ReminderIsDue(checks: seq<Check>, i: nat)
    requires i < |checks| && Sent(checks, i).notify == Some(Reminder)
    ensures var before, k := After(checks[..i]), Step(Sent(checks, i).state);
            && before.status == Down && before.downSince.Some?
            && Step(before) < k <= 2
            && checks[i].now - before.downSince.value >= DOWN_REMINDER_AFTER_MS[k - 1]
            && Sent(checks, i).downForMs == Some(checks[i].now - before.downSince.value)
  {
    DownGoesTogether(checks[..i]);
    var before := After(checks[..i]);
    PassedBounds(checks[i].now - before.downSince.value);
  }

  predicate TimesGoOn(checks: seq<Check>) {
    forall i, j | 0 <= i < j < |checks| :: checks[i].now <= checks[j].now
  }

  /** The step of an outage is the number of bounds passed at a time. */
  predicate StepIsDueAt(s: HealthState, now: int) {
    s.status == Down ==> s.downSince.Some? && Step(s) == DueReminderStep(s.downSince, now) && s.downSince.value <= now
  }

  lemma CheckKeepsStepDue(s: HealthState, check: Check, now: int)
    requires DownTogether(s) && StepIsDueAt(s, now) && now <= check.now
    requires s.status == Down ==> s.failCount >= Needed(check.threshold)
    ensures StepIsDueAt(NextHealthState(s, check).state, check.now)
  {
    hide Passed;
    PassedBounds(0);
    if s.status == Down {
      PassedBounds(now - s.downSince.value);
      PassedBounds(check.now - s.downSince.value);
    }
  }

  /** With one threshold and a clock that does not go back, the step is always the number of bounds the outage
      has passed at the last check. */
  lemma {:induction false} StepIsWhatIsDue(checks: seq<Check>, threshold: int)
    requires FixedThreshold(checks, threshold) && TimesGoOn(checks) && checks != []
    ensures StepIsDueAt(After(checks), checks[|checks| - 1].now)
  {
    var n := |checks| - 1;
    assert checks[n] in checks;
    if n > 0 {
      assert FixedThreshold(checks[..n], threshold);
      StepIsWhatIsDue(checks[..n], threshold);
      DownAtTheThreshold(checks[..n], threshold);
      DownGoesTogether(checks[..n]);
      hide StepIsDueAt, NextHealthState, DownTogether, Streak;
      CheckKeepsStepDue(After(checks[..n]), checks[n], checks[n - 1].now);
    } else {
      assert After(checks[..0]) == FRESH;
      CheckKeepsStepDue(FRESH, checks[0], checks[0].now);
    }
  }

  /** What a check past the confirmed start of an outage is told, whatever the thresholds and times: a reminder
      goes out exactly when the step rises, which is when the outage, confirmed again, has passed more bounds than
      the reminders before covered. */
  lemma ReminderExactly(checks: seq<Check>, i: nat)
    requires i < |checks|
    ensures var before, reminded := After(checks[..i]), Sent(checks, i).notify == Some(Reminder);
            && (reminded <==> Step(Sent(checks, i).state) > Step(before))
            && (reminded <==>
                  && !checks[i].healthy && before.status == Down && before.downSince.Some?
                  && before.failCount + 1 >= checks[i].threshold
                  && exists k | 0 <= k < |DOWN_REMINDER_AFTER_MS| ::
                       k >= Step(before) && checks[i].now - before.downSince.value >= DOWN_REMINDER_AFTER_MS[k])
  {
    DownGoesTogether(checks[..i]);
    var before := After(checks[..i]);
    if before.status == Down {
      PassedBounds(checks[i].now - before.downSince.value);
      assert DOWN_REMINDER_AFTER_MS[0] == 24 * HOUR_MS && DOWN_REMINDER_AFTER_MS[1] == 72 * HOUR_MS;
    }
  }

  /** With one threshold T and a clock that does not go back, a reminder is sent exactly at a failure of an outage
      that passes a bound it had not passed at the check before, counted from the T-th failure in a row. */
  lemma ReminderAtEachBound(checks: seq<Check>, threshold: int, i: nat)
    requires FixedThreshold(checks, threshold) && TimesGoOn(checks) && 0 < i < |checks|
    ensures Sent(checks, i).notify == Some(Reminder) <==>
              && !checks[i].healthy && Streak(checks[..i]) >= Needed(threshold)
              && var since := checks[i - Streak(checks[..i]) + Needed(threshold) - 1].now;
                 PassesABound(DOWN_REMINDER_AFTER_MS, checks[i - 1].now - since, checks[i].now - since)
  {
    hide *;
    BeforeCheck(checks, threshold, i);
    ReminderAfter(After(checks[..i]), checks[i], checks[i - 1].now);
    SentIs(checks, i);
  }

  lemma SentIs(checks: seq<Check>, i: nat)
    requires i < |checks|
    ensures Sent(checks, i) == NextHealthState(After(checks[..i]), checks[i])
  {
  }

  /** What is known of the state before a check. */
  lemma BeforeCheck(checks: seq<Check>, threshold: int, i: nat)
    requires FixedThreshold(checks, threshold) && TimesGoOn(checks) && 0 < i < |checks|
    ensures var s, streak := After(checks[..i]), Streak(checks[..i]);
            && DownTogether(s) && StepIsDueAt(s, checks[i - 1].now) && checks[i - 1].now <= checks[i].now
            && checks[i].threshold == threshold && s.failCount == streak <= i
            && (s.status == Down <==> streak >= Needed(threshold)) && 1 <= Needed(threshold)
            && (s.status == Down ==> s.downSince == Some(checks[i - streak + Needed(threshold) - 1].now))
  {
    var before := checks[..i];
    assert FixedThreshold(before, threshold) && TimesGoOn(before) && before[|before| - 1] == checks[i - 1];
    assert checks[i] in checks;
    hide FixedThreshold, DownTogether, StepIsDueAt, After, Streak;
    DownAtTheThreshold(before, threshold);
    DownGoesTogether(before);
    StepIsWhatIsDue(before, threshold);
  }

  lemma ReminderAfter(s: HealthState, check: Check, lastNow: int)
    requires DownTogether(s) && StepIsDueAt(s, lastNow) && lastNow <= check.now
    requires s.status == Down ==> s.failCount >= Needed(check.threshold)
    ensures NextHealthState(s, check).notify == Some(Reminder) <==>
              && !check.healthy && s.status == Down
              && PassesABound(DOWN_REMINDER_AFTER_MS, lastNow - s.downSince.value, check.now - s.downSince.value)
  {
    if s.status == Down {
      PassedMore(DOWN_REMINDER_AFTER_MS, lastNow - s.downSince.value, check.now - s.downSince.value);
    }
  }

  /** Some bound lies past the first length and is reached by the second. */
  ghost predicate PassesABound(bounds: seq<int>, before: int, now: int) {
    exists k | 0 <= k < |bounds| :: before < bounds[k] <= now
  }

  lemma {:induction false} PassedMore(bounds: seq<int>, before: int, now: int)
    requires before <= now
    ensures Passed(bounds, before) <= Passed(bounds, now)
    ensures Passed(bounds, before) < Passed(bounds, now) <==> PassesABound(bounds, before, now)
  {
    if bounds != [] {
      PassedMore(bounds[1..], before, now);
      if PassesABound(bounds[1..], before, now) {
        var k :| 0 <= k < |bounds[1..]| && before < bounds[1..][k] <= now;
        assert bounds[k + 1] == bounds[1..][k];
      }
      if PassesABound(bounds, before, now) {
        var k :| 0 <= k < |bounds| && before < bounds[k] <= now;
        if k > 0 { assert bounds[1..][k - 1] == bounds[k]; }
      }
    }
  }

  /** A project that is not down is up exactly when it ever answered. */
  lemma {:induction false} UpOnceAnswered(checks: seq<Check>)
    requires After(checks).status != Down
    ensures After(checks).status == Up <==> exists c | c in checks :: c.healthy
  {
    if checks != [] {
      var n := |checks| - 1;
      assert checks == checks[..n] + [checks[n]];
      if !checks[n].healthy { UpOnceAnswered(checks[..n]); }
    }
  }

  /** An outage keeps the time of the last notice sent. */
  lemma {:induction false} NotifiedAtLastNotice(checks: seq<Check>)
    requires After(checks).notifiedAt.Some?
    ensures exists i | 0 <= i < |checks| :: IsLastNotice(checks, i) && After(checks).notifiedAt == Some(checks[i].now)
  {
    var n := |checks| - 1;
    if Sent(checks, n).notify.None? {
      NotifiedAtLastNotice(checks[..n]);
      hide After, Sent;
      var i :| 0 <= i < n && IsLastNotice(checks[..n], i) && After(checks[..n]).notifiedAt == Some(checks[..n][i].now);
      forall j | i <= j < n ensures Sent(checks, j) == Sent(checks[..n], j) { SentInPrefix(checks, n, j); }
      assert IsLastNotice(checks, i);
    } else {
      hide After;
      assert IsLastNotice(checks, n);
    }
  }

  lemma SentInPrefix(checks: seq<Check>, n: nat, j: nat)
    requires j < n <= |checks|
    ensures Sent(checks[..n], j) == Sent(checks, j)
  {
    assert checks[..n][..j] == checks[..j];
  }

  ghost predicate IsLastNotice(checks: seq<Check>, i: nat) {
    i < |checks| && Sent(checks, i).notify.Some? && forall j | i < j < |checks| :: Sent(checks, j).notify.None?
  }
}
