/**
The canonical lock order of `locks.rs` and why flows that hold several lock files cannot deadlock
for good: per-repo locks by discriminator, then the global ones, and every out-of-order wait
bounded.
*/
module LockOrder {
  import opened Options
  import opened Bytes
  import opened Numbers

  // ---------------------------------------------------------------------------------------------
  // Discriminators

  predicate Alphanumeric(c: byte) {
    var ch := c as char;
    '0' <= ch <= '9' || 'A' <= ch <= 'Z' || 'a' <= ch <= 'z'
  }

  /** The first `n` ASCII alphanumerics of `id`. */
  function Alphanumerics(id: Text, n: nat): (r: Text)
    ensures |r| <= n && forall i :: 0 <= i < |r| ==> Alphanumeric(r[i])
  {
    if id == [] || n == 0 then []
    else if Alphanumeric(id[0]) then [id[0]] + Alphanumerics(id[1..], n - 1)
    else Alphanumerics(id[1..], n)
  }

  /** How many ASCII alphanumerics `id` has. */
  function Count(id: Text): nat {
    if id == [] then 0 else (if Alphanumeric(id[0]) then 1 else 0) + Count(id[1..])
  }

  /** Each alphanumeric of the id, while there is room, stands behind those before it. */
  lemma {:induction false} AlphanumericsAt(id: Text, n: nat, i: nat)
    requires i < |id| && Alphanumeric(id[i]) && Count(id[..i]) < n
    ensures Count(id[..i]) < |Alphanumerics(id, n)| && Alphanumerics(id, n)[Count(id[..i])] == id[i]
  {
    if i > 0 {
      assert id[..i][1..] == id[1..][..i - 1];
      AlphanumericsAt(id[1..], if Alphanumeric(id[0]) then n - 1 else n, i - 1);
    }
  }

  lemma {:induction false} AlphanumericsLength(id: Text, n: nat)
    ensures |Alphanumerics(id, n)| == Min(n, Count(id))
  {
    if id != [] && n > 0 {
      AlphanumericsLength(id[1..], if Alphanumeric(id[0]) then n - 1 else n);
    }
  }

  /** `repo` in ASCII, for an id without alphanumerics. */
  const FALLBACK: Text := [114, 101, 112, 111]

  function Discriminator(id: Text): (r: Text)
    ensures 1 <= |r| <= 12 && forall i :: 0 <= i < |r| ==> Alphanumeric(r[i])
  {
    var disc := Alphanumerics(id, 12);
    if disc == [] then FALLBACK else disc
  }

  /** A discriminator is the first twelve alphanumerics of the id, or `repo` if it has none. */
  lemma DiscriminatorOf(id: Text)
    ensures Count(id) == 0 ==> Discriminator(id) == [114, 101, 112, 111]
    ensures Count(id) > 0 ==> |Discriminator(id)| == Min(12, Count(id))
    ensures forall i :: 0 <= i < |id| && Alphanumeric(id[i]) && Count(id[..i]) < Min(12, Count(id)) ==>
      Discriminator(id)[Count(id[..i])] == id[i]
  {
    AlphanumericsLength(id, 12);
    forall i | 0 <= i < |id| && Alphanumeric(id[i]) && Count(id[..i]) < Min(12, Count(id))
      ensures Discriminator(id)[Count(id[..i])] == id[i]
    {
      AlphanumericsAt(id, 12, i);
    }
  }

  datatype LockFile = Repo(disc: Text) | Global(stem: GlobalLock)

  datatype GlobalLock = Schema | Registry | SyncSession

  /** Per-repo lock files by discriminator, below every global one. */
  predicate Below(a: LockFile, b: LockFile) {
    match (a, b)
    case (Repo(x), Repo(y)) => Less(x, y)
    case (Repo(_), Global(_)) => true
    case (Global(_), _) => false
  }

  lemma BelowIsStrictOrder(a: LockFile, b: LockFile, c: LockFile)
    ensures !Below(a, a)
    ensures Below(a, b) && Below(b, c) ==> Below(a, c)
    ensures a.Repo? && b.Repo? && a != b ==> Below(a, b) || Below(b, a)
    ensures a.Repo? && b.Global? ==> Below(a, b)
  {
    if a.Repo? { LessIrreflexive(a.disc); }
    if a.Repo? && b.Repo? { LessTotal(a.disc, b.disc); }
    if a.Repo? && b.Repo? && c.Repo? && Less(a.disc, b.disc) && Less(b.disc, c.disc) {
      LessTransitive(a.disc, b.disc, c.disc);
    }
  }

  function CanonicalLockOrder(a: Text, b: Text): (Text, Text) {
    if !Less(Discriminator(b), Discriminator(a)) then (a, b) else (b, a)
  }

  /**
  The canonical order keeps both ids, depends only on the pair and not on the roles, and puts
  first the lock file that is below, unless both ids share one lock file (the reentrant case).
  */
  lemma CanonicalOrderAscends(a: Text, b: Text)
    ensures var (x, y) := CanonicalLockOrder(a, b);
            && ((x, y) == (a, b) || (x, y) == (b, a))
            && (Discriminator(x) == Discriminator(y) || Below(Repo(Discriminator(x)), Repo(Discriminator(y))))
            && (Discriminator(a) != Discriminator(b) ==> CanonicalLockOrder(b, a) == (x, y))
            && (Discriminator(a) == Discriminator(b) ==> (x, y) == (a, b))
  {
    var p, q := Discriminator(a), Discriminator(b);
    LessTotal(p, q);
    if Less(p, q) { LessAsymmetric(p, q); }
    if Less(q, p) { LessAsymmetric(q, p); }
  }

  // ---------------------------------------------------------------------------------------------
  // Waiting

  /** One thread: the lock files it holds, and the one it is waiting for, if any. */
  datatype Thread = Thread(held: set<LockFile>, wait: Option<Wait>)

  datatype Wait = Blocking(file: LockFile) | Bounded(file: LockFile, call: Call)

  /** One bounded acquire: when it began, its timeout, and how its attempts go: attempt `k` finds the
   *  lock free or not and takes `took(k)` milliseconds. */
  datatype Call = Call(since: int, timeout: nat, free: nat -> bool, took: nat -> nat)

  /** The rule: a wait without a timeout is for a lock file above all those held. */
  ghost predicate Disciplined(t: Thread) {
    t.wait.Some? && t.wait.value.Blocking? ==> forall f :: f in t.held ==> Below(f, t.wait.value.file)
  }

  /** `next(i)` closes the cycle. */
  function After(i: nat, n: nat): nat
    requires i < n
  {
    if i + 1 == n then 0 else i + 1
  }

  /** Each thread waits for a lock file the next one holds, all the way round. */
  ghost predicate WaitCycle(ts: seq<Thread>) {
    && ts != []
    && forall i :: 0 <= i < |ts| ==> ts[i].wait.Some? && ts[i].wait.value.file in ts[After(i, |ts|)].held
  }

  ghost predicate AllBlock(ts: seq<Thread>) {
    forall i :: 0 <= i < |ts| ==> Disciplined(ts[i]) && ts[i].wait.Some? && ts[i].wait.value.Blocking?
  }

  lemma StepClimbs(ts: seq<Thread>, i: nat)
    requires WaitCycle(ts) && AllBlock(ts) && i < |ts|
    ensures Below(ts[i].wait.value.file, ts[After(i, |ts|)].wait.value.file)
  {
    assert Disciplined(ts[After(i, |ts|)]);
  }

  ghost predicate Climbs(files: seq<LockFile>) {
    forall i :: 0 < i < |files| ==> Below(files[i - 1], files[i])
  }

  lemma {:induction false} ClimbsToTheEnd(files: seq<LockFile>, n: nat)
    requires Climbs(files) && n < |files|
    ensures n > 0 ==> Below(files[0], files[n])
  {
    if n > 0 {
      ClimbsToTheEnd(files, n - 1);
      BelowIsStrictOrder(files[0], files[n - 1], files[n]);
    }
  }

  /** In a cycle of blocking waits every step climbs, so the last file would be above itself. */
  lemma BlockingWaitsClimb(ts: seq<Thread>) returns (files: seq<LockFile>)
    requires WaitCycle(ts) && AllBlock(ts)
    ensures |files| == |ts| && Climbs(files) && Below(files[|ts| - 1], files[0])
  {
    files := seq(|ts|, i requires 0 <= i < |ts| => ts[i].wait.value.file);
    forall i | 0 < i < |ts|
      ensures Below(files[i - 1], files[i])
    {
      StepClimbs(ts, i - 1);
    }
    StepClimbs(ts, |ts| - 1);
  }

  /** Every wait cycle of disciplined threads contains a bounded waiter. */
  lemma CycleHasBoundedWaiter(ts: seq<Thread>)
    requires WaitCycle(ts) && forall i :: 0 <= i < |ts| ==> Disciplined(ts[i])
    ensures exists i :: 0 <= i < |ts| && ts[i].wait.Some? && ts[i].wait.value.Bounded?
  {
    if AllBlock(ts) {
      var files := BlockingWaitsClimb(ts);
      ClimbsToTheEnd(files, |ts| - 1);
      BelowIsStrictOrder(files[0], files[|ts| - 1], files[0]);
      assert false;
    }
  }

  // ---------------------------------------------------------------------------------------------
  // Bounded waits end

  /** Milliseconds between two attempts of a bounded acquire. */
  function Poll(timeout: nat): nat {
    Min(50, Max(timeout, 1))
  }

  datatype Returned = Returned(acquired: bool, attempts: nat, end: int)

  function Deadline(c: Call): int {
    c.since + c.timeout
  }

  /** How the acquire goes on with attempt `k` at time `now`; a sleep takes exactly the poll interval. */
  function Goes(c: Call, now: int, k: nat): Returned
    decreases Max(Deadline(c) - now, 0)
  {
    var end := now + c.took(k);
    if c.free(k) || end >= Deadline(c) then Returned(c.free(k), k + 1, end)
    else Goes(c, end + Poll(c.timeout), k + 1)
  }

  function Result(c: Call): Returned {
    Goes(c, c.since, 0)
  }

  /** What one call to `acquire_timeout` comes to. */
  ghost predicate Prompt(c: Call, r: Returned) {
    var pause := if c.timeout == 0 then 1 else if c.timeout < 50 then c.timeout else 50;
    && r.attempts >= 1
    && (forall k :: 0 <= k < r.attempts - 1 ==> !c.free(k))
    && (r.acquired <==> c.free(r.attempts - 1))
    && (!r.acquired ==> c.since + c.timeout <= r.end)
    && r.end < c.since + c.timeout + pause + c.took(r.attempts - 1)
    && r.attempts <= c.timeout / pause + 2
  }

  lemma {:induction false} GoesOn(c: Call, now: int, k: nat)
    requires now < Deadline(c) + Poll(c.timeout)
    ensures var r := Goes(c, now, k);
      && r.attempts > k
      && (forall j :: k <= j < r.attempts - 1 ==> !c.free(j))
      && (r.acquired <==> c.free(r.attempts - 1))
      && (!r.acquired ==> Deadline(c) <= r.end)
      && r.end < Deadline(c) + Poll(c.timeout) + c.took(r.attempts - 1)
      && (r.attempts - 1 - k) * Poll(c.timeout) <= r.end - c.took(r.attempts - 1) - now
    decreases Max(Deadline(c) - now, 0)
  {
    var end := now + c.took(k);
    if !c.free(k) && end < Deadline(c) {
      GoesOn(c, end + Poll(c.timeout), k + 1);
      var r := Goes(c, end + Poll(c.timeout), k + 1);
      assert (r.attempts - 1 - k) * Poll(c.timeout) == (r.attempts - 1 - (k + 1)) * Poll(c.timeout) + Poll(c.timeout);
    }
  }

  /** Every bounded acquire is prompt. */
  lemma ResultIsPrompt(c: Call)
    ensures Prompt(c, Result(c))
  {
    GoesOn(c, c.since, 0);
    AttemptsBound(Result(c).attempts - 1, Poll(c.timeout), c.timeout);
  }

  /**
  `FileLock::acquire_timeout`, on a clock in milliseconds.  The call succeeds at the first attempt
  that finds the lock free, and a call that gives up does so within one poll interval and its last
  attempt of the deadline.
  */
  method AcquireTimeout(c: Call) returns (r: Returned)
    ensures r == Result(c) && Prompt(c, r)
  {
    var deadline := c.since + c.timeout;
    var poll := Min(50, Max(c.timeout, 1));
    var now, attempt := c.since, 0;
    ResultIsPrompt(c);
    while true
      invariant Goes(c, now, attempt) == Result(c)
      decreases Max(deadline - now, 0)
    {
      var acquired := c.free(attempt);
      now := now + c.took(attempt);
      attempt := attempt + 1;
      if acquired {
        return Returned(true, attempt, now);
      }
      if now >= deadline {
        return Returned(false, attempt, now);
      }
      now := now + poll;
    }
  }

  lemma AttemptsBound(k: nat, poll: nat, timeout: nat)
    requires poll > 0 && k * poll < timeout + poll
    ensures k <= timeout / poll + 1
  {
    var q := timeout / poll;
    assert timeout < (q + 1) * poll && (q + 2) * poll == (q + 1) * poll + poll;
    if q + 2 <= k {
      Scaled(q + 2, k, poll);
    }
  }

  // ---------------------------------------------------------------------------------------------
  // So every cycle ends

  /** A blocked thread is still waiting at `now`; a bounded wait is over when its call returns. */
  ghost predicate StillWaiting(t: Thread, now: int) {
    t.wait.Some? && (t.wait.value.Bounded? ==> now < Result(t.wait.value.call).end)
  }

  ghost predicate StandsThroughout(ts: seq<Thread>, from: int, until: int) {
    WaitCycle(ts) && forall i, now :: 0 <= i < |ts| && from <= now <= until ==> StillWaiting(ts[i], now)
  }

  /** When the bounded wait `w` is over at the latest. */
  function Latest(c: Call): int {
    ResultIsPrompt(c);
    c.since + c.timeout + Min(50, Max(c.timeout, 1)) + c.took(Result(c).attempts - 1)
  }

  lemma EndsBeforeLatest(c: Call)
    ensures Result(c).end < Latest(c)
  {
    ResultIsPrompt(c);
  }

  /**
  However long a wait cycle of threads that keep the rule stands, some bounded waiter in it bounds
  that time by its own timeout, one poll interval and its last attempt.
  */
  lemma CyclesBreak(ts: seq<Thread>, from: int, until: int)
    requires from <= until && StandsThroughout(ts, from, until)
    requires forall i :: 0 <= i < |ts| ==> Disciplined(ts[i])
    ensures exists i :: 0 <= i < |ts| && ts[i].wait.Some? && ts[i].wait.value.Bounded?
                        && until < Latest(ts[i].wait.value.call)
  {
    CycleHasBoundedWaiter(ts);
    var i :| 0 <= i < |ts| && ts[i].wait.Some? && ts[i].wait.value.Bounded?;
    EndsBeforeLatest(ts[i].wait.value.call);
    assert StillWaiting(ts[i], until);
  }

  /** And a waiter whose lock stays held gives up: it returns without the lock, after its timeout. */
  lemma ContendedGivesUp(c: Call)
    requires forall k :: 0 <= k < Result(c).attempts ==> !c.free(k)
    ensures !Result(c).acquired && Deadline(c) <= Result(c).end < Latest(c)
  {
    ResultIsPrompt(c);
  }
}
