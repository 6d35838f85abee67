/** Telling someone that an app stays over its resource limit (src/lib/resource-alerts.ts). Percentages are
    reals, times milliseconds. */
module ResourceAlerts {
  import opened Wrappers

  datatype Threshold = Threshold(percent: real, sustainMs: int, clearMargin: real, staleAfterMs: int)

  datatype ResourceState = ResourceState(since: Option<int>, notifiedAt: Option<int>)

  datatype Notice = Pressure | Recovered

  datatype Transition = Transition(state: ResourceState, notify: Option<Notice>, underPressureForMs: Option<int>)

  datatype Reading = Reading(percent: real, now: int)

  const EMPTY := ResourceState(None, None)

  predicate Over(r: Reading, t: Threshold) { r.percent >= t.percent }

  /** Properly back down: under the line and past the margin. */
  predicate Cleared(r: Reading, t: Threshold) { !Over(r, t) && r.percent <= t.percent - t.clearMargin }

  function NextResourceState(previous: ResourceState, r: Reading, t: Threshold): Transition {
    if r.percent >= t.percent then
      var since := if previous.since.Some? then previous.since.value else r.now;
      if r.now - since >= t.sustainMs && previous.notifiedAt.None?
      then Transition(ResourceState(Some(since), Some(r.now)), Some(Pressure), None)
      else Transition(ResourceState(Some(since), previous.notifiedAt), None, None)
    else if r.percent > t.percent - t.clearMargin then Transition(previous, None, None)
    else if previous.notifiedAt.Some? then
      var forMs := if previous.since.Some? then r.now - previous.since.value else 0;
      if forMs > t.staleAfterMs then Transition(EMPTY, None, None)
      else Transition(EMPTY, Some(Recovered), Some(forMs))
    else Transition(EMPTY, None, None)
  }

  // ---------------------------------------------------------------- every run

  function After(readings: seq<Reading>, t: Threshold): ResourceState {
    if readings == [] then EMPTY
    else NextResourceState(After(readings[..|readings| - 1], t), readings[|readings| - 1], t).state
  }

  function Sent(readings: seq<Reading>, t: Threshold, i: nat): Transition
    requires i < |readings|
  {
    NextResourceState(After(readings[..i], t), readings[i], t)
  }

  /** The first reading over the line since the last cleared one. */
  function EpisodeStart(readings: seq<Reading>, t: Threshold): (s: Option<nat>)
    ensures s.Some? ==> s.value < |readings|
  {
    if readings == [] then None
    else
      var n := |readings| - 1;
      if Cleared(readings[n], t) then None
      else if EpisodeStart(readings[..n], t).Some? then EpisodeStart(readings[..n], t)
      else if Over(readings[n], t) then Some(n)
      else None
  }

  lemma {:induction false} EpisodeStartMeans(readings: seq<Reading>, t: Threshold)
    ensures match EpisodeStart(readings, t)
            case None => forall k | 0 <= k < |readings| && Over(readings[k], t) :: ClearedBetween(readings, t, k, |readings|)
            case Some(s) =>
              && Over(readings[s], t) && !ClearedBetween(readings, t, s, |readings|)
              && forall k | 0 <= k < s && Over(readings[k], t) :: ClearedBetween(readings, t, k, s)
  {
    if readings != [] {
      var n := |readings| - 1;
      EpisodeStartMeans(readings[..n], t);
      forall k, m | 0 <= k <= m <= n
        ensures ClearedBetween(readings[..n], t, k, m) == ClearedBetween(readings, t, k, m)
      {
        ClearedInPrefix(readings, t, n, k, m);
      }
      forall k | 0 <= k <= n
        ensures ClearedBetween(readings, t, k, n + 1) == (ClearedBetween(readings, t, k, n) || Cleared(readings[n], t))
      {
      }
    }
  }

  lemma ClearedInPrefix(readings: seq<Reading>, t: Threshold, n: nat, from: nat, to: nat)
    requires to <= n <= |readings|
    ensures ClearedBetween(readings[..n], t, from, to) == ClearedBetween(readings, t, from, to)
  {
    assert forall m | from <= m < to :: readings[..n][m] == readings[m];
    if ClearedBetween(readings, t, from, to) {
      var m :| from <= m < to && Cleared(readings[m], t);
      assert Cleared(readings[..n][m], t);
    }
  }

  /** Some reading from `from` up to, not including, `to` cleared. */
  predicate ClearedBetween(readings: seq<Reading>, t: Threshold, from: int, to: int) {
    exists m | from <= m < to :: 0 <= m < |readings| && Cleared(readings[m], t)
  }

  /** A reading over the line that comes late enough in its episode. */
  predicate Sustained(readings: seq<Reading>, t: Threshold, s: nat, k: nat) {
    s < |readings| && k < |readings| && Over(readings[k], t) && readings[k].now - readings[s].now >= t.sustainMs
  }

  /** The first late enough reading over the line in the episode under way. */
  function Told(readings: seq<Reading>, t: Threshold): (k: Option<nat>)
    ensures k.Some? ==> k.value < |readings|
  {
    if readings == [] || EpisodeStart(readings, t).None? then None
    else
      var n := |readings| - 1;
      var s := EpisodeStart(readings, t).value;
      if Told(readings[..n], t).Some? then Told(readings[..n], t)
      else if Sustained(readings, t, s, n) then Some(n)
      else None
  }

  lemma {:induction false} ToldMeans(readings: seq<Reading>, t: Threshold)
    requires EpisodeStart(readings, t).Some?
    ensures var s := EpisodeStart(readings, t).value;
            match Told(readings, t)
            case None => forall k | s <= k < |readings| :: !Sustained(readings, t, s, k)
            case Some(k) => s <= k && Sustained(readings, t, s, k) && forall j | s <= j < k :: !Sustained(readings, t, s, j)
  {
    var n := |readings| - 1;
    var s := EpisodeStart(readings, t).value;
    if EpisodeStart(readings[..n], t).Some? {
      ToldMeans(readings[..n], t);
      assert forall k | s <= k < n :: Sustained(readings, t, s, k) == Sustained(readings[..n], t, s, k);
    } else {
      assert s == n && Told(readings[..n], t) == None;
    }
  }

  /** The state is the start of the episode under way and the moment it was told. */
  lemma {:induction false} StateTracksEpisode(readings: seq<Reading>, t: Threshold)
    ensures After(readings, t) ==
            ResourceState(if EpisodeStart(readings, t).Some? then Some(readings[EpisodeStart(readings, t).value].now) else None,
                          if Told(readings, t).Some? then Some(readings[Told(readings, t).value].now) else None)
  {
    if readings != [] {
      var n := |readings| - 1;
      StateTracksEpisode(readings[..n], t);
      assert EpisodeStart(readings, t).Some? && EpisodeStart(readings[..n], t).None? ==> Told(readings[..n], t).None?;
    }
  }

  /** `pressure` is sent exactly at the first reading of an episode that is over the line and at least
      `sustainMs` after its start. */
  lemma PressureExactly(readings: seq<Reading>, t: Threshold, i: nat)
    requires i < |readings|
    ensures Sent(readings, t, i).notify == Some(Pressure) <==>
            match EpisodeStart(readings[..i + 1], t)
            case None => false
            case Some(s) => Sustained(readings, t, s, i) && forall k | s <= k < i :: !Sustained(readings, t, s, k)
  {
    var now := readings[..i + 1];
    assert now[..i] == readings[..i] && now[i] == readings[i];
    StateTracksEpisode(now, t);
    StateTracksEpisode(readings[..i], t);
    if EpisodeStart(now, t).Some? {
      var s := EpisodeStart(now, t).value;
      ToldMeans(now, t);
      assert forall k | s <= k <= i :: Sustained(readings, t, s, k) == Sustained(now, t, s, k);
      if EpisodeStart(readings[..i], t).Some? { ToldMeans(readings[..i], t); }
      assert forall k | s <= k < i :: Sustained(readings[..i], t, s, k) == Sustained(readings, t, s, k);
    }
  }

  /** When `pressure` is sent, the line was crossed at least `sustainMs` ago and no reading since has cleared. */
  lemma PressureIsSustained(readings: seq<Reading>, t: Threshold, i: nat)
    requires i < |readings| && Sent(readings, t, i).notify == Some(Pressure)
    ensures exists s | 0 <= s <= i ::
              && Sent(readings, t, i).state.since == Some(readings[s].now)
              && Over(readings[s], t) && !ClearedBetween(readings, t, s, i + 1)
              && readings[i].now - readings[s].now >= t.sustainMs
  {
    PressureExactly(readings, t, i);
    var now := readings[..i + 1];
    assert now[..i] == readings[..i] && now[i] == readings[i];
    EpisodeStartMeans(now, t);
    StateTracksEpisode(now, t);
    var s := EpisodeStart(now, t).value;
    assert After(now, t) == Sent(readings, t, i).state;
    ClearedInPrefix(readings, t, i + 1, s, i + 1);
  }

  // ---------------------------------------------------------------- from one pressure to its end

  /** While nothing clears, the episode and what was told stay, and nothing more is sent. */
  lemma {:induction false} NothingUntilCleared(readings: seq<Reading>, t: Threshold, i: nat, j: nat)
    requires i < j <= |readings| && Sent(readings, t, i).notify == Some(Pressure)
    requires !ClearedBetween(readings, t, i + 1, j)
    ensures After(readings[..j], t) == Sent(readings, t, i).state
    ensures forall k | i < k < j :: Sent(readings, t, k).notify == None
  {
    if j == i + 1 {
      assert readings[..j][..i] == readings[..i];
    } else {
      NothingUntilCleared(readings, t, i, j - 1);
      assert readings[..j][..j - 1] == readings[..j - 1];
      assert !Cleared(readings[j - 1], t);
    }
  }

  /** Between two `pressure` notices some reading cleared. */
  lemma ClearedBetweenPressures(readings: seq<Reading>, t: Threshold, i: nat, j: nat)
    requires i < j < |readings|
    requires Sent(readings, t, i).notify == Some(Pressure) && Sent(readings, t, j).notify == Some(Pressure)
    ensures ClearedBetween(readings, t, i + 1, j)
  {
    if !ClearedBetween(readings, t, i + 1, j) { NothingUntilCleared(readings, t, i, j); }
  }

  /** The first cleared reading after a `pressure` ends it: with one `recovered` that says how long it lasted, or
      silently when that is past `staleAfterMs`; before it nothing is sent, and nothing is left of it after. */
  lemma EveryPressureEndsOnce(readings: seq<Reading>, t: Threshold, i: nat, j: nat)
    requires i < j < |readings| && Sent(readings, t, i).notify == Some(Pressure)
    requires Cleared(readings[j], t) && !ClearedBetween(readings, t, i + 1, j)
    ensures var since := Sent(readings, t, i).state.since;
            && since.Some?
            && var lasted := readings[j].now - since.value;
            && Sent(readings, t, j) == Transition(EMPTY, if lasted > t.staleAfterMs then None else Some(Recovered),
                                                  if lasted > t.staleAfterMs then None else Some(lasted))
            && forall k | i < k < j :: Sent(readings, t, k).notify == None
  {
    NothingUntilCleared(readings, t, i, j);
  }

  /** `recovered` only follows a `pressure` that nothing has cleared since: one not yet answered. */
  lemma RecoveredAnswersPressure(readings: seq<Reading>, t: Threshold, j: nat) returns (i: nat)
    requires j < |readings| && Sent(readings, t, j).notify == Some(Recovered)
    ensures i < j && Sent(readings, t, i).notify == Some(Pressure) && !ClearedBetween(readings, t, i, j)
  {
    var before := readings[..j];
    StateTracksEpisode(before, t);
    i := Told(before, t).value;
    ToldMeans(before, t);
    EpisodeStartMeans(before, t);
    var s := EpisodeStart(before, t).value;
    ClearedInPrefix(readings, t, j, s, j);
    assert ClearedBetween(readings, t, i, j) ==> ClearedBetween(readings, t, s, j);
    StartWasThen(readings, t, j, i);
    assert forall k | s <= k <= i :: Sustained(before, t, s, k) == Sustained(readings, t, s, k);
    PressureExactly(readings, t, i);
  }

  /** An episode under way had the same start at any time since. */
  lemma {:induction false} StartWasThen(readings: seq<Reading>, t: Threshold, j: nat, i: nat)
    requires j <= |readings| && EpisodeStart(readings[..j], t).Some?
    requires EpisodeStart(readings[..j], t).value <= i < j
    ensures EpisodeStart(readings[..i + 1], t) == EpisodeStart(readings[..j], t)
  {
    if i + 1 < j {
      assert readings[..j][..j - 1] == readings[..j - 1];
      StartWasThen(readings, t, j - 1, i);
    }
  }

  // ---------------------------------------------------------------- the worst container

  /** A sample of one container; its percentage is missing when it is not a finite number. */
  datatype Sample = Sample(percent: Option<real>, containerName: string)

  /** The first of the highest finite samples. */
  method WorstSample(samples: seq<Sample>) returns (worst: Option<Sample>)
    ensures worst.None? <==> forall s | s in samples :: s.percent.None?
    ensures worst.Some? ==>
              worst.value.percent.Some? &&
              exists i | 0 <= i < |samples| ::
                && samples[i] == worst.value
                && (forall k | 0 <= k < i && samples[k].percent.Some? :: samples[k].percent.value < worst.value.percent.value)
                && (forall k | i <= k < |samples| && samples[k].percent.Some? ::
                      samples[k].percent.value <= worst.value.percent.value)
  {
    worst := None;
    ghost var at := 0;
    for n := 0 to |samples|
      invariant worst.None? ==> forall k | 0 <= k < n :: samples[k].percent.None?
      invariant worst.Some? ==>
                  && 0 <= at < n && samples[at] == worst.value && worst.value.percent.Some?
                  && (forall k | 0 <= k < at && samples[k].percent.Some? :: samples[k].percent.value < worst.value.percent.value)
                  && (forall k | at <= k < n && samples[k].percent.Some? :: samples[k].percent.value <= worst.value.percent.value)
    {
      var sample := samples[n];
      if sample.percent.None? { continue; }
      if worst.None? || sample.percent.value > worst.value.percent.value {
        worst := Some(sample);
        at := n;
      }
    }
  }
}
