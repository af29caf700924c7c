/** The provisioning budget: polling loops and steps that share one deadline (`contract.ts`). */
module PollBudget {
  import opened Numbers
  import opened Options

  const ATTEMPT_FLOOR_MS := 250

  function RemainingBudgetMs(deadline: int, now: int): nat {
    if deadline > now then deadline - now else 0
  }

  // ---------------------------------------------------------------------------------------------
  // Polling

  /** How an attempt settles: ready or not, and after how long. */
  datatype Attempt = Attempt(ready: bool, took: nat)

  /** What is polled: attempt `n`, begun at some time with some timeout. */
  type Target = (nat, int, nat) -> Attempt

  /** Each attempt settles within the timeout it was started with, and takes at least `least`. */
  ghost predicate Timely(target: Target, least: nat) {
    forall n, at, timeout :: timeout >= ATTEMPT_FLOOR_MS ==> least <= target(n, at, timeout).took <= timeout
  }

  datatype Pace = Pace(interval: nat, perAttempt: nat)

  datatype Polled = Polled(ready: bool, now: int, attempts: nat)

  /** A timer runs for at least one millisecond. */
  function Sleep(pace: Pace): nat {
    Max(pace.interval, 1)
  }

  function TimeoutAt(pace: Pace, deadline: int, now: int): nat {
    Min(pace.perAttempt, RemainingBudgetMs(deadline, now))
  }

  /** The loop, on a clock that only attempts and sleeps move. */
  function Poll(target: Target, pace: Pace, ghost least: nat, deadline: int, now: int, n: nat): Polled
    requires Timely(target, least)
    decreases RemainingBudgetMs(deadline, now)
  {
    if now >= deadline || TimeoutAt(pace, deadline, now) < ATTEMPT_FLOOR_MS then Polled(false, now, n)
    else
      var a := target(n, now, TimeoutAt(pace, deadline, now));
      var ended := now + a.took;
      if a.ready then Polled(true, ended, n + 1)
      else if ended + pace.interval >= deadline then Polled(false, ended, n + 1)
      else Poll(target, pace, least, deadline, ended + Sleep(pace), n + 1)
  }

  method PollLoop(target: Target, pace: Pace, ghost least: nat, budget: nat, start: int) returns (r: Polled)
    requires Timely(target, least)
    ensures r == Poll(target, pace, least, start + budget, start, 0)
  {
    var deadline := start + budget;
    var now, attempt := start, 0;
    while now < deadline
      invariant Poll(target, pace, least, deadline, now, attempt) == Poll(target, pace, least, deadline, start, 0)
      decreases deadline - now
    {
      var timeout := Min(pace.perAttempt, RemainingBudgetMs(deadline, now));
      if timeout < ATTEMPT_FLOOR_MS {
        break;
      }
      var a := target(attempt, now, timeout);
      attempt := attempt + 1;
      now := now + a.took;
      if a.ready {
        return Polled(true, now, attempt);
      }
      if now + pace.interval >= deadline {
        return Polled(false, now, attempt);
      }
      now := now + Max(pace.interval, 1);
    }
    r := Polled(false, now, attempt);
  }

  function OrElse(x: Option<nat>, default: nat): nat {
    if x.Some? then x.value else default
  }

  /** Two seconds apart unless told otherwise, an attempt taking at most as long. */
  function PollPace(interval: Option<nat>, perAttempt: Option<nat>): Pace {
    Pace(OrElse(interval, 2000), OrElse(perAttempt, OrElse(interval, 2000)))
  }

  function ListenPace(interval: Option<nat>, perAttempt: Option<nat>): Pace {
    Pace(OrElse(interval, 1000), OrElse(perAttempt, 5000))
  }

  method PollUntil(target: Target, ghost least: nat, budget: nat, interval: Option<nat>, perAttempt: Option<nat>,
                   start: int)
    returns (r: Polled)
    requires Timely(target, least)
    ensures
      var every := if interval.Some? then interval.value else 2000;
      var limit := if perAttempt.Some? then perAttempt.value else every;
      PollsWell(target, Pace(every, limit), least, budget, start, r)
  {
    r := PollLoop(target, PollPace(interval, perAttempt), least, budget, start);
    PollPollsWell(target, PollPace(interval, perAttempt), least, budget, start);
  }

  method WaitForServerListening(target: Target, ghost least: nat, budget: nat, interval: Option<nat>,
                                perAttempt: Option<nat>, start: int)
    returns (r: Polled)
    requires Timely(target, least)
    ensures
      var every := if interval.Some? then interval.value else 1000;
      var limit := if perAttempt.Some? then perAttempt.value else 5000;
      PollsWell(target, Pace(every, limit), least, budget, start, r)
  {
    r := PollLoop(target, ListenPace(interval, perAttempt), least, budget, start);
    PollPollsWell(target, ListenPace(interval, perAttempt), least, budget, start);
  }

  // ---------------------------------------------------------------------------------------------
  // What the loop keeps

  function CeilDiv(n: nat, d: nat): nat
    requires d > 0
  {
    (n + d - 1) / d
  }

  /** No more attempts than spans of that length begin within the budget. */
  predicate AtMostPerSpan(attempts: nat, budget: nat, span: nat) {
    span > 0 && attempts <= CeilDiv(budget, span)
  }

  lemma {:induction false} PollEndsInTime(target: Target, pace: Pace, least: nat, deadline: int, now: int, n: nat)
    requires Timely(target, least) && now <= deadline
    ensures now <= Poll(target, pace, least, deadline, now, n).now <= deadline
    decreases RemainingBudgetMs(deadline, now)
  {
    if now < deadline && TimeoutAt(pace, deadline, now) >= ATTEMPT_FLOOR_MS {
      var a := target(n, now, TimeoutAt(pace, deadline, now));
      if !a.ready && now + a.took + pace.interval < deadline {
        PollEndsInTime(target, pace, least, deadline, now + a.took + Sleep(pace), n + 1);
      }
    }
  }

  /** So many beginnings, each a span after the one before, fit the room there is. */
  predicate Fit(k: nat, span: nat, room: int) {
    k == 0 || (k - 1) * span < room
  }

  lemma FitOneMore(k: nat, span: nat, room: int, less: int)
    requires Fit(k, span, less) && less + span <= room && 0 < room
    ensures Fit(k + 1, span, room)
  {
    if k > 0 { OneMoreSpan(k, span); }
  }

  /** Every attempt after the first comes at least a sleep and an attempt's time later. */
  lemma {:induction false} AttemptsSpaced(target: Target, pace: Pace, least: nat, deadline: int, now: int, n: nat,
                                          span: nat)
    requires Timely(target, least) && now <= deadline && span == Sleep(pace) + least
    ensures var made := Poll(target, pace, least, deadline, now, n).attempts - n;
      made >= 0 && Fit(made, span, deadline - now)
    decreases RemainingBudgetMs(deadline, now)
  {
    if now < deadline && TimeoutAt(pace, deadline, now) >= ATTEMPT_FLOOR_MS {
      var a := target(n, now, TimeoutAt(pace, deadline, now));
      var next := now + a.took + Sleep(pace);
      if !a.ready && now + a.took + pace.interval < deadline {
        AttemptsSpaced(target, pace, least, deadline, next, n + 1, span);
        var rest := Poll(target, pace, least, deadline, next, n + 1);
        assert Poll(target, pace, least, deadline, now, n) == rest;
        FitOneMore(rest.attempts - (n + 1), span, deadline - now, deadline - next);
      }
    }
  }

  lemma OneMoreSpan(k: int, d: int)
    ensures k * d == (k - 1) * d + d
  {
  }

  lemma AtMostCeil(k: nat, n: nat, d: nat)
    requires d > 0 && Fit(k, d, n)
    ensures k <= CeilDiv(n, d)
  {
    if k > 0 {
      var q := CeilDiv(n, d);
      assert n + d - 1 < (q + 1) * d;
      OneMoreSpan(k, d);
      if q < k {
        Scaled(q + 1, k, d);
      }
    }
  }

  /** Polling ends by its deadline, after at most as many attempts as sleeps and attempts fit its budget. */
  lemma PollKeepsBudget(target: Target, pace: Pace, least: nat, budget: nat, start: int)
    requires Timely(target, least)
    ensures var r := Poll(target, pace, least, start + budget, start, 0);
      start <= r.now <= start + budget && AtMostPerSpan(r.attempts, budget, Sleep(pace) + least)
  {
    PollEndsInTime(target, pace, least, start + budget, start, 0);
    AttemptsSpaced(target, pace, least, start + budget, start, 0, Sleep(pace) + least);
    AtMostCeil(Poll(target, pace, least, start + budget, start, 0).attempts, budget, Sleep(pace) + least);
  }

  /** One attempt of the loop: when it began, the timeout it was given, how it settled. */
  datatype Try = Try(at: int, timeout: nat, outcome: Attempt)

  /** Attempt `n` as the budget allows it: begun in time, and with a timeout that ends in time. */
  predicate Made(target: Target, pace: Pace, deadline: int, n: nat, t: Try) {
    && t.outcome == target(n, t.at, t.timeout)
    && ATTEMPT_FLOOR_MS <= t.timeout <= pace.perAttempt
    && t.at + t.timeout <= deadline
  }

  /** Attempts one sleep apart, none ready but perhaps the last. */
  ghost predicate Tried(target: Target, pace: Pace, deadline: int, n: nat, tries: seq<Try>) {
    && (forall i :: 0 <= i < |tries| ==> Made(target, pace, deadline, n + i, tries[i]))
    && (forall i :: 0 <= i < |tries| - 1 ==>
          && !tries[i].outcome.ready
          && tries[i + 1].at == tries[i].at + tries[i].outcome.took + Sleep(pace))
  }

  lemma TriedBefore(target: Target, pace: Pace, deadline: int, n: nat, first: Try, rest: seq<Try>)
    requires Made(target, pace, deadline, n, first) && Tried(target, pace, deadline, n + 1, rest)
    requires !first.outcome.ready
    requires rest != [] ==> rest[0].at == first.at + first.outcome.took + Sleep(pace)
    ensures Tried(target, pace, deadline, n, [first] + rest)
  {
    var tries := [first] + rest;
    forall i | 0 <= i < |tries|
      ensures Made(target, pace, deadline, n + i, tries[i])
    {
      assert i > 0 ==> Made(target, pace, deadline, n + 1 + (i - 1), rest[i - 1]);
    }
  }

  /** Polling succeeds exactly when its last attempt was ready, and it stops at the first that is. */
  lemma {:induction false} ReadyIffLastTryReady(target: Target, pace: Pace, least: nat, deadline: int, now: int, n: nat)
    returns (tries: seq<Try>)
    requires Timely(target, least)
    ensures Tried(target, pace, deadline, n, tries)
    ensures tries != [] ==> tries[0].at == now
    ensures Poll(target, pace, least, deadline, now, n).attempts == n + |tries|
    ensures Poll(target, pace, least, deadline, now, n).ready <==> tries != [] && tries[|tries| - 1].outcome.ready
    decreases RemainingBudgetMs(deadline, now)
  {
    tries := [];
    if now < deadline && TimeoutAt(pace, deadline, now) >= ATTEMPT_FLOOR_MS {
      var a := target(n, now, TimeoutAt(pace, deadline, now));
      var first := Try(now, TimeoutAt(pace, deadline, now), a);
      var next := now + a.took + Sleep(pace);
      if a.ready || now + a.took + pace.interval >= deadline {
        tries := [first];
      } else {
        var rest := ReadyIffLastTryReady(target, pace, least, deadline, next, n + 1);
        TriedBefore(target, pace, deadline, n, first, rest);
        tries := [first] + rest;
      }
    }
  }

  // ---------------------------------------------------------------------------------------------
  // When polling succeeds, and when it may give up

  /** How long an attempt that begins at `at` may take: its own limit, or all the time that is left. */
  function Allowed(pace: Pace, deadline: int, at: int): nat {
    if deadline <= at then 0 else if deadline - at < pace.perAttempt then deadline - at else pace.perAttempt
  }

  /** When attempt `n + k` begins, if attempt `n` is due at `now` and none in between is ready: there is
   *  a quarter of a second for it, and the sleep before it ended before the deadline. */
  function Due(target: Target, pace: Pace, deadline: int, now: int, n: nat, k: nat): Option<int>
    decreases k
  {
    if deadline <= now || Allowed(pace, deadline, now) < 250 then None
    else if k == 0 then Some(now)
    else
      var ended := now + target(n, now, Allowed(pace, deadline, now)).took;
      if ended + pace.interval < deadline
      then Due(target, pace, deadline, ended + (if pace.interval < 1 then 1 else pace.interval), n + 1, k - 1)
      else None
  }

  predicate ReadyWhenDue(target: Target, pace: Pace, deadline: int, now: int, n: nat, k: nat) {
    var at := Due(target, pace, deadline, now, n, k);
    at.Some? && target(n + k, at.value, Allowed(pace, deadline, at.value)).ready
  }

  /** What `r` reports happened at attempt `n + k`. */
  predicate ReportsReady(target: Target, pace: Pace, deadline: int, now: int, n: nat, k: nat, r: Polled) {
    && ReadyWhenDue(target, pace, deadline, now, n, k) && r.attempts == n + k + 1
    && var at := Due(target, pace, deadline, now, n, k).value;
       r.now == at + target(n + k, at, Allowed(pace, deadline, at)).took
  }

  /** Polling that is ready has an attempt to show for it. */
  lemma {:induction false} ReadyWasDue(target: Target, pace: Pace, least: nat, deadline: int, now: int, n: nat)
    returns (k: nat)
    requires Timely(target, least) && Poll(target, pace, least, deadline, now, n).ready
    ensures ReportsReady(target, pace, deadline, now, n, k, Poll(target, pace, least, deadline, now, n))
    decreases RemainingBudgetMs(deadline, now)
  {
    var a := target(n, now, Allowed(pace, deadline, now));
    assert Allowed(pace, deadline, now) == TimeoutAt(pace, deadline, now);
    if a.ready {
      k := 0;
    } else {
      var next := now + a.took + Sleep(pace);
      var more := ReadyWasDue(target, pace, least, deadline, next, n + 1);
      assert Due(target, pace, deadline, now, n, more + 1) == Due(target, pace, deadline, next, n + 1, more);
      k := more + 1;
    }
  }

  /** Polling misses no attempt that is due and would be ready. */
  lemma {:induction false} DueIsNotMissed(target: Target, pace: Pace, least: nat, deadline: int, now: int, n: nat,
                                          k: nat)
    requires Timely(target, least) && ReadyWhenDue(target, pace, deadline, now, n, k)
    ensures var r := Poll(target, pace, least, deadline, now, n); r.ready && r.attempts <= n + k + 1
    decreases k
  {
    var a := target(n, now, Allowed(pace, deadline, now));
    assert Allowed(pace, deadline, now) == TimeoutAt(pace, deadline, now);
    if !a.ready {
      var next := now + a.took + Sleep(pace);
      assert Due(target, pace, deadline, now, n, k) == Due(target, pace, deadline, next, n + 1, k - 1);
      DueIsNotMissed(target, pace, least, deadline, next, n + 1, k - 1);
    }
  }

  /** No time for another attempt: the deadline has come, too little is left, or a sleep would reach it. */
  predicate NoTimeLeft(pace: Pace, deadline: int, now: int) {
    deadline <= now || Allowed(pace, deadline, now) < 250 || now + pace.interval >= deadline
  }

  lemma {:induction false} GivesUpOutOfTime(target: Target, pace: Pace, least: nat, deadline: int, now: int, n: nat)
    requires Timely(target, least) && !Poll(target, pace, least, deadline, now, n).ready
    ensures NoTimeLeft(pace, deadline, Poll(target, pace, least, deadline, now, n).now)
    decreases RemainingBudgetMs(deadline, now)
  {
    if now < deadline && TimeoutAt(pace, deadline, now) >= ATTEMPT_FLOOR_MS {
      var a := target(n, now, TimeoutAt(pace, deadline, now));
      if now + a.took + pace.interval < deadline {
        GivesUpOutOfTime(target, pace, least, deadline, now + a.took + Sleep(pace), n + 1);
      }
    }
  }

  /** Ready at an attempt that was due, and not beaten to it by any other. */
  ghost predicate ReadyAsDue(target: Target, pace: Pace, deadline: int, start: int, r: Polled) {
    && (r.ready ==> exists k: nat :: ReportsReady(target, pace, deadline, start, 0, k, r))
    && forall k: nat :: ReadyWhenDue(target, pace, deadline, start, 0, k) ==> r.ready && r.attempts <= k + 1
  }

  /** All a caller of the loop may count on. */
  ghost predicate PollsWell(target: Target, pace: Pace, least: nat, budget: nat, start: int, r: Polled) {
    && start <= r.now <= start + budget
    && AtMostPerSpan(r.attempts, budget, (if pace.interval < 1 then 1 else pace.interval) + least)
    && ReadyAsDue(target, pace, start + budget, start, r)
    && (!r.ready ==> NoTimeLeft(pace, start + budget, r.now))
  }

  lemma PollReadyAsDue(target: Target, pace: Pace, least: nat, deadline: int, start: int)
    requires Timely(target, least)
    ensures ReadyAsDue(target, pace, deadline, start, Poll(target, pace, least, deadline, start, 0))
  {
    var r := Poll(target, pace, least, deadline, start, 0);
    if r.ready {
      var k := ReadyWasDue(target, pace, least, deadline, start, 0);
    }
    forall k: nat | ReadyWhenDue(target, pace, deadline, start, 0, k)
      ensures r.ready && r.attempts <= k + 1
    {
      DueIsNotMissed(target, pace, least, deadline, start, 0, k);
    }
  }

  lemma PollPollsWell(target: Target, pace: Pace, least: nat, budget: nat, start: int)
    requires Timely(target, least)
    ensures PollsWell(target, pace, least, budget, start, Poll(target, pace, least, start + budget, start, 0))
  {
    PollKeepsBudget(target, pace, least, budget, start);
    PollReadyAsDue(target, pace, least, start + budget, start);
    if !Poll(target, pace, least, start + budget, start, 0).ready {
      GivesUpOutOfTime(target, pace, least, start + budget, start, 0);
    }
  }

  // ---------------------------------------------------------------------------------------------
  // Steps under one deadline

  /** A step is some work raced against the remaining budget, or polling within it. */
  datatype Step =
    | Work(minMs: nat, takes: nat, succeeds: bool)
    | Polling(target: Target, pace: Pace, least: nat)

  datatype Done = Done(ok: bool, now: int)

  /** Too little budget throws at once; work that outlasts the budget is abandoned at the deadline. */
  function WithBudget(deadline: int, now: int, minMs: nat, takes: nat, succeeds: bool): Done {
    var remaining := RemainingBudgetMs(deadline, now);
    if remaining < minMs then Done(false, now)
    else if takes < remaining then Done(succeeds, now + takes)
    else Done(false, now + remaining)
  }

  ghost predicate Sound(step: Step) {
    step.Polling? ==> Timely(step.target, step.least)
  }

  ghost function RunStep(deadline: int, now: int, step: Step): Done
    requires Sound(step)
  {
    match step
    case Work(minMs, takes, succeeds) => WithBudget(deadline, now, minMs, takes, succeeds)
    case Polling(target, pace, least) =>
      var r := Poll(target, pace, least, now + RemainingBudgetMs(deadline, now), now, 0);
      Done(r.ready, r.now)
  }

  /** One after the other, until one throws. */
  ghost function RunSteps(deadline: int, now: int, steps: seq<Step>): Done
    requires forall i :: 0 <= i < |steps| ==> Sound(steps[i])
    decreases |steps|
  {
    if steps == [] then Done(true, now)
    else
      var d := RunStep(deadline, now, steps[0]);
      if d.ok then RunSteps(deadline, d.now, steps[1..]) else d
  }

  /** Polling as one of several steps is polling with what remains of the deadline. */
  lemma PollingStepPollsWell(deadline: int, now: int, step: Step) returns (r: Polled)
    requires Sound(step) && step.Polling?
    ensures PollsWell(step.target, step.pace, step.least, if deadline <= now then 0 else deadline - now, now, r)
    ensures RunStep(deadline, now, step) == Done(r.ready, r.now)
  {
    var remaining := RemainingBudgetMs(deadline, now);
    r := Poll(step.target, step.pace, step.least, now + remaining, now, 0);
    PollPollsWell(step.target, step.pace, step.least, remaining, now);
  }

  lemma StepEndsInTime(deadline: int, now: int, step: Step)
    requires Sound(step)
    ensures now <= RunStep(deadline, now, step).now <= now + RemainingBudgetMs(deadline, now)
  {
    if step.Polling? {
      PollEndsInTime(step.target, step.pace, step.least, now + RemainingBudgetMs(deadline, now), now, 0);
    }
  }

  /** However many steps there are and however long each would take, they end by the shared deadline. */
  lemma {:induction false} SharedDeadlineHolds(deadline: int, start: int, steps: seq<Step>)
    requires forall i :: 0 <= i < |steps| ==> Sound(steps[i])
    ensures start <= RunSteps(deadline, start, steps).now <= start + RemainingBudgetMs(deadline, start)
    ensures start <= deadline ==> RunSteps(deadline, start, steps).now <= deadline
    decreases |steps|
  {
    if steps != [] {
      StepEndsInTime(deadline, start, steps[0]);
      var d := RunStep(deadline, start, steps[0]);
      if d.ok {
        SharedDeadlineHolds(deadline, d.now, steps[1..]);
      }
    }
  }

  /** How long the first `k` pieces of work take. */
  function Spent(steps: seq<Step>, k: nat): nat
    requires k <= |steps|
  {
    if k == 0 then 0 else Spent(steps, k - 1) + (if steps[k - 1].Work? then steps[k - 1].takes else 0)
  }

  /** Piece `k` begins with its minimum left and is done before the deadline. */
  predicate InTime(deadline: int, start: int, steps: seq<Step>, k: nat)
    requires k < |steps|
  {
    && steps[k].Work? && steps[k].succeeds
    && steps[k].minMs <= deadline - start - Spent(steps, k) && steps[k].takes < deadline - start - Spent(steps, k)
  }

  lemma {:induction false} SpentAfterFirst(steps: seq<Step>, k: nat)
    requires steps != [] && steps[0].Work? && k < |steps|
    ensures Spent(steps, k + 1) == steps[0].takes + Spent(steps[1..], k)
  {
    if k > 0 { SpentAfterFirst(steps, k - 1); }
  }

  lemma InTimeAfterFirst(deadline: int, start: int, steps: seq<Step>, k: nat)
    requires steps != [] && steps[0].Work? && k < |steps[1..]|
    ensures InTime(deadline, start, steps, k + 1) <==> InTime(deadline, start + steps[0].takes, steps[1..], k)
  {
    SpentAfterFirst(steps, k);
  }

  ghost predicate AllInTime(deadline: int, start: int, steps: seq<Step>) {
    forall k :: 0 <= k < |steps| ==> InTime(deadline, start, steps, k)
  }

  ghost predicate AllWork(steps: seq<Step>) {
    forall i :: 0 <= i < |steps| ==> steps[i].Work?
  }

  /** A sequence of work succeeds exactly when every piece succeeds in what the ones before it left. */
  lemma {:induction false} WorkSucceedsIffInTime(deadline: int, start: int, steps: seq<Step>)
    requires AllWork(steps)
    ensures var d := RunSteps(deadline, start, steps);
      && (d.ok <==> AllInTime(deadline, start, steps))
      && (d.ok ==> d.now == start + Spent(steps, |steps|))
    decreases |steps|
  {
    if steps != [] {
      var d := RunStep(deadline, start, steps[0]);
      assert d.ok <==> InTime(deadline, start, steps, 0);
      if d.ok {
        WorkSucceedsIffInTime(deadline, d.now, steps[1..]);
        LaterInTime(deadline, start, steps, d.now);
        SpentAfterFirst(steps, |steps| - 1);
      }
    }
  }

  lemma LaterInTime(deadline: int, start: int, steps: seq<Step>, next: int)
    requires steps != [] && steps[0].Work? && InTime(deadline, start, steps, 0) && next == start + steps[0].takes
    ensures AllInTime(deadline, start, steps) <==> AllInTime(deadline, next, steps[1..])
  {
    if AllInTime(deadline, next, steps[1..]) {
      forall k | 0 <= k < |steps|
        ensures InTime(deadline, start, steps, k)
      {
        if k > 0 { InTimeAfterFirst(deadline, start, steps, k - 1); }
      }
    }
    if AllInTime(deadline, start, steps) {
      forall k | 0 <= k < |steps[1..]|
        ensures InTime(deadline, next, steps[1..], k)
      {
        InTimeAfterFirst(deadline, start, steps, k);
      }
    }
  }
}
