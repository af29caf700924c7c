/**
The reentrant write lock of `locks.rs`: an OS lock per lock file, and a per-thread registry of
nesting depths that lets the holding thread acquire again without touching the OS lock.
*/
module WriteLock {

  type Thread = nat
  type File = string

  /** One thread's registry: lock file to nesting depth. */
  type Registry = map<File, nat>

  function DepthIn(held: Registry, f: File): nat {
    if f in held then held[f] else 0
  }

  function Registered(held: Registry, f: File): Registry {
    held[f := DepthIn(held, f) + 1]
  }

  function Released(held: Registry, f: File): Registry {
    if f !in held || held[f] == 0 then held
    else if held[f] == 1 then held - {f}
    else held[f := held[f] - 1]
  }

  /** The thread-local registry as written. */
  class HeldWriteLocks {
    var held: Registry

    method IsHeld(f: File) returns (b: bool)
      ensures b <==> DepthIn(held, f) > 0
    {
      b := f in held && held[f] > 0;
    }

    method Register(f: File)
      modifies this
      ensures held == Registered(old(held), f)
    {
      if f !in held {
        held := held[f := 0];
      }
      held := held[f := held[f] + 1];
    }

    method Release(f: File)
      requires f in held ==> held[f] > 0
      modifies this
      ensures held == Released(old(held), f)
    {
      if f in held {
        held := held[f := held[f] - 1];
        if held[f] == 0 {
          held := held - {f};
        }
      }
    }
  }

  lemma RegistryCounts(held: Registry, f: File, g: File)
    requires forall h :: h in held ==> held[h] > 0
    ensures DepthIn(Registered(held, f), g) == DepthIn(held, g) + (if f == g then 1 else 0)
    ensures DepthIn(held, f) > 0 ==> DepthIn(Released(held, f), g) + (if f == g then 1 else 0) == DepthIn(held, g)
    ensures forall h :: h in Registered(held, f) ==> Registered(held, f)[h] > 0
    ensures forall h :: h in Released(held, f) ==> Released(held, f)[h] > 0
  {
  }

  // ---------------------------------------------------------------------------------------------
  // Any number of threads

  /**
  A thread between the two halves of an operation: it owns the OS lock but has not registered it
  yet, or has dropped its last registration but not the OS lock.
  */
  datatype Phase = Idle | Acquired(file: File) | Unlocking(file: File)

  /** One thread: registry, phase, and its live guards per file, oldest first (`true` owns the OS lock). */
  datatype Local = Local(held: Registry, phase: Phase, guards: map<File, seq<bool>>)

  function Guards(l: Local, f: File): seq<bool> {
    if f in l.guards then l.guards[f] else []
  }

  /** `owner` is the OS: who holds each lock file. */
  datatype System = System(owner: map<File, Thread>, threads: seq<Local>)

  datatype Event =
    | Acquire(t: Thread, f: File)
    | Register(t: Thread)
    | Drop(t: Thread, f: File, k: nat)
    | Unlock(t: Thread)

  predicate Enabled(s: System, e: Event) {
    && e.t < |s.threads|
    && var l := s.threads[e.t];
       match e
       case Acquire(_, f) => l.phase.Idle? && (DepthIn(l.held, f) > 0 || f !in s.owner)
       case Register(_) => l.phase.Acquired?
       case Drop(_, f, k) => l.phase.Idle? && k < |Guards(l, f)|
       case Unlock(_) => l.phase.Unlocking?
  }

  function WithGuards(l: Local, f: File, guards: seq<bool>): Local {
    l.(guards := l.guards[f := guards])
  }

  /** What a step does to the thread that takes it. */
  function LocalStep(l: Local, e: Event): Local
    requires e.Drop? ==> e.k < |Guards(l, e.f)|
  {
    match e
    case Acquire(_, f) =>
      if DepthIn(l.held, f) > 0
      then WithGuards(l, f, Guards(l, f) + [false]).(held := Registered(l.held, f))
      else l.(phase := Acquired(f))
    case Register(_) =>
      if !l.phase.Acquired? then l
      else
        var f := l.phase.file;
        WithGuards(l, f, Guards(l, f) + [true]).(held := Registered(l.held, f), phase := Idle)
    case Drop(_, f, k) =>
      var guards := Guards(l, f);
      WithGuards(l, f, guards[..k] + guards[k + 1..]).(
      held := Released(l.held, f), phase := if guards[k] then Unlocking(f) else Idle)
    case Unlock(_) => l.(phase := Idle)
  }

  function OwnerStep(s: System, e: Event): map<File, Thread>
    requires Enabled(s, e)
  {
    match e
    case Acquire(t, f) => if DepthIn(s.threads[t].held, f) > 0 then s.owner else s.owner[f := t]
    case Unlock(t) => s.owner - {s.threads[t].phase.file}
    case _ => s.owner
  }

  function Next(s: System, e: Event): System
    requires Enabled(s, e)
  {
    System(OwnerStep(s, e), s.threads[e.t := LocalStep(s.threads[e.t], e)])
  }

  // ---------------------------------------------------------------------------------------------
  // The invariant

  /** The oldest guard owns the OS lock, and no other does. */
  predicate OneOwner(guards: seq<bool>) {
    forall k :: 0 <= k < |guards| ==> (guards[k] <==> k == 0)
  }

  /** One thread, on one file, given whether the OS says it owns that file. */
  predicate FileOk(l: Local, f: File, owns: bool) {
    && DepthIn(l.held, f) == |Guards(l, f)|
    && OneOwner(Guards(l, f))
    && (owns <==> Guards(l, f) != [] || (!l.phase.Idle? && l.phase.file == f))
    && (!l.phase.Idle? && l.phase.file == f ==> Guards(l, f) == [])
  }

  ghost predicate LocalOk(s: System, t: Thread)
    requires t < |s.threads|
  {
    && (forall f :: f in s.threads[t].held ==> s.threads[t].held[f] > 0)
    && forall f :: FileOk(s.threads[t], f, f in s.owner && s.owner[f] == t)
  }

  ghost predicate Inv(s: System) {
    && (forall t :: 0 <= t < |s.threads| ==> LocalOk(s, t))
    && forall f :: f in s.owner ==> s.owner[f] < |s.threads|
  }

  /** The outermost guard of a file is dropped last on its thread; the others in any order. */
  predicate OutermostLast(s: System, e: Event)
    requires e.t < |s.threads|
  {
    e.Drop? ==> e.k > 0 || |Guards(s.threads[e.t], e.f)| == 1
  }

  /** A guard is dropped only after every guard of the same file taken later on its thread. */
  predicate LastInFirstOut(s: System, e: Event)
    requires e.t < |s.threads|
  {
    e.Drop? ==> e.k + 1 == |Guards(s.threads[e.t], e.f)|
  }

  /** Scopes drop guards last in, first out, and so the outermost last. */
  lemma ScopesDropOutermostLast(s: System, e: Event)
    requires e.t < |s.threads| && LastInFirstOut(s, e)
    ensures OutermostLast(s, e)
  {
  }

  /** After the step, thread and owner agree on `f`. */
  predicate FileOkAfter(s: System, e: Event, f: File)
    requires Enabled(s, e)
  {
    var s' := Next(s, e);
    FileOk(s'.threads[e.t], f, f in s'.owner && s'.owner[f] == e.t)
  }

  lemma AcquireKeepsFile(s: System, e: Event, f: File)
    requires Enabled(s, e) && LocalOk(s, e.t) && e.Acquire?
    ensures FileOkAfter(s, e, f)
  {
    var l := s.threads[e.t];
    assert FileOk(l, f, f in s.owner && s.owner[f] == e.t);
    assert FileOk(l, e.f, e.f in s.owner && s.owner[e.f] == e.t);
    RegistryCounts(l.held, e.f, f);
  }

  lemma RegisterKeepsFile(s: System, e: Event, f: File)
    requires Enabled(s, e) && LocalOk(s, e.t) && e.Register?
    ensures FileOkAfter(s, e, f)
  {
    var l := s.threads[e.t];
    assert FileOk(l, f, f in s.owner && s.owner[f] == e.t);
    RegistryCounts(l.held, l.phase.file, f);
  }

  lemma DropKeepsFile(s: System, e: Event, f: File)
    requires Enabled(s, e) && LocalOk(s, e.t) && OutermostLast(s, e) && e.Drop?
    ensures FileOkAfter(s, e, f)
  {
    var l := s.threads[e.t];
    assert FileOk(l, f, f in s.owner && s.owner[f] == e.t);
    assert FileOk(l, e.f, e.f in s.owner && s.owner[e.f] == e.t);
    RegistryCounts(l.held, e.f, f);
  }

  lemma StepKeepsFile(s: System, e: Event, f: File)
    requires Enabled(s, e) && LocalOk(s, e.t) && OutermostLast(s, e)
    ensures FileOkAfter(s, e, f)
  {
    match e
    case Acquire(_, _) => AcquireKeepsFile(s, e, f);
    case Register(_) => RegisterKeepsFile(s, e, f);
    case Drop(_, _, _) => DropKeepsFile(s, e, f);
    case Unlock(_) => assert FileOk(s.threads[e.t], f, f in s.owner && s.owner[f] == e.t);
  }

  /** A step of one thread never touches what another thread's files look like. */
  lemma StepKeepsOthers(s: System, e: Event, t: Thread)
    requires Inv(s) && Enabled(s, e) && t < |s.threads| && t != e.t
    ensures LocalOk(Next(s, e), t)
  {
    var s' := Next(s, e);
    var l := s.threads[e.t];
    assert LocalOk(s, t) && LocalOk(s, e.t);
    if e.Unlock? { assert FileOk(l, l.phase.file, l.phase.file in s.owner && s.owner[l.phase.file] == e.t); }
    forall f
      ensures FileOk(s'.threads[t], f, f in s'.owner && s'.owner[f] == t)
    {
      assert FileOk(s.threads[t], f, f in s.owner && s.owner[f] == t);
    }
  }

  lemma StepKeepsRegistry(s: System, e: Event)
    requires Enabled(s, e) && LocalOk(s, e.t)
    ensures forall f :: f in Next(s, e).threads[e.t].held ==> Next(s, e).threads[e.t].held[f] > 0
  {
    var l := s.threads[e.t];
    if !l.phase.Idle? { RegistryCounts(l.held, l.phase.file, ""); }
    if e.Acquire? || e.Drop? { RegistryCounts(l.held, e.f, ""); }
  }

  lemma InvKept(s: System, e: Event)
    requires Inv(s) && Enabled(s, e) && OutermostLast(s, e)
    ensures Inv(Next(s, e))
  {
    StepKeepsRegistry(s, e);
    forall f
      ensures FileOk(Next(s, e).threads[e.t], f, f in Next(s, e).owner && Next(s, e).owner[f] == e.t)
    {
      StepKeepsFile(s, e, f);
    }
    forall t | 0 <= t < |s.threads| && t != e.t
      ensures LocalOk(Next(s, e), t)
    {
      StepKeepsOthers(s, e, t);
    }
  }

  // ---------------------------------------------------------------------------------------------
  // Every run

  predicate IsRun(s: System, run: seq<Event>)
    decreases |run|
  {
    run == [] || (Enabled(s, run[0]) && OutermostLast(s, run[0]) && IsRun(Next(s, run[0]), run[1..]))
  }

  function Final(s: System, run: seq<Event>): System
    requires IsRun(s, run)
    decreases |run|
  {
    if run == [] then s else Final(Next(s, run[0]), run[1..])
  }

  /** `n` threads, nothing held. */
  function Init(n: nat): System {
    System(map[], seq(n, i => Local(map[], Idle, map[])))
  }

  lemma {:induction false} RunKeepsInv(s: System, run: seq<Event>)
    requires Inv(s) && IsRun(s, run)
    ensures Inv(Final(s, run))
    decreases |run|
  {
    if run != [] {
      InvKept(s, run[0]);
      RunKeepsInv(Next(s, run[0]), run[1..]);
    }
  }

  /**
  Over every run that drops each outermost guard last: a thread's depth for a file is its number of
  live guards, positive depth means it holds the OS lock through exactly one of them, and no two
  threads have positive depth for one file.  A nested acquire never waits and leaves the OS alone.
  */
  lemma DepthMeansHeld(n: nat, run: seq<Event>, t: Thread, u: Thread, f: File)
    requires IsRun(Init(n), run)
    requires t < |Final(Init(n), run).threads| && u < |Final(Init(n), run).threads|
    ensures var s := Final(Init(n), run);
            var l := s.threads[t];
            && DepthIn(l.held, f) == |Guards(l, f)|
            && OneOwner(Guards(l, f))
            && (f in s.owner && s.owner[f] == t <==> DepthIn(l.held, f) > 0 || (!l.phase.Idle? && l.phase.file == f))
            && (DepthIn(l.held, f) > 0 && DepthIn(s.threads[u].held, f) > 0 ==> t == u)
            && (DepthIn(l.held, f) > 0 && l.phase.Idle? ==>
                  Enabled(s, Acquire(t, f)) && Next(s, Acquire(t, f)).owner == s.owner)
  {
    RunKeepsInv(Init(n), run);
    var s := Final(Init(n), run);
    assert LocalOk(s, t) && LocalOk(s, u);
    assert FileOk(s.threads[t], f, f in s.owner && s.owner[f] == t);
    assert FileOk(s.threads[u], f, f in s.owner && s.owner[f] == u);
  }

  /** How often the thread took the file, and how often it dropped a guard of it. */
  function Taken(run: seq<Event>, t: Thread, f: File): nat {
    if run == [] then 0 else (if run[0] == Acquire(t, f) then 1 else 0) + Taken(run[1..], t, f)
  }

  function Given(run: seq<Event>, t: Thread, f: File): nat {
    if run == [] then 0 else
      (if run[0].Drop? && run[0].t == t && run[0].f == f then 1 else 0) + Given(run[1..], t, f)
  }

  /** The thread's depth for the file, with the acquisition it has not registered yet. */
  function Standing(l: Local, f: File): nat {
    DepthIn(l.held, f) + if l.phase == Acquired(f) then 1 else 0
  }

  lemma StepCounts(s: System, e: Event, t: Thread, f: File)
    requires Inv(s) && Enabled(s, e) && t < |s.threads|
    ensures Standing(Next(s, e).threads[t], f) + Given([e], t, f) == Standing(s.threads[t], f) + Taken([e], t, f)
  {
    var l := s.threads[e.t];
    assert LocalOk(s, e.t);
    if e.Acquire? || e.Drop? {
      assert FileOk(l, e.f, e.f in s.owner && s.owner[e.f] == e.t);
      RegistryCounts(l.held, e.f, f);
    }
    if e.Register? {
      RegistryCounts(l.held, l.phase.file, f);
    }
  }

  lemma {:induction false} RunCounts(s: System, run: seq<Event>, t: Thread, f: File)
    requires Inv(s) && IsRun(s, run) && t < |s.threads|
    ensures t < |Final(s, run).threads|
    ensures Standing(Final(s, run).threads[t], f) + Given(run, t, f) == Standing(s.threads[t], f) + Taken(run, t, f)
    decreases |run|
  {
    if run != [] {
      StepCounts(s, run[0], t, f);
      InvKept(s, run[0]);
      RunCounts(Next(s, run[0]), run[1..], t, f);
    }
  }

  /** Between operations a thread's depth for a file is its acquisitions of it less its drops. */
  lemma DepthIsTakenLessGiven(n: nat, run: seq<Event>, t: Thread, f: File)
    requires IsRun(Init(n), run) && t < n
    ensures t < |Final(Init(n), run).threads|
    ensures var l := Final(Init(n), run).threads[t];
      l.phase.Idle? ==> DepthIn(l.held, f) + Given(run, t, f) == Taken(run, t, f)
  {
    RunCounts(Init(n), run, t, f);
  }

  // ---------------------------------------------------------------------------------------------
  // Why the drop order matters

  /** Dropping guard `k` completely: the registry half and, for the owning guard, the OS half. */
  function Dropped(s: System, t: Thread, f: File, k: nat): System
    requires Enabled(s, Drop(t, f, k))
  {
    var s' := Next(s, Drop(t, f, k));
    if s'.threads[t].phase.Unlocking? then Next(s', Unlock(t)) else s'
  }

  predicate CountsWhatItHolds(s: System, t: Thread, f: File)
    requires t < |s.threads|
  {
    DepthIn(s.threads[t].held, f) > 0 ==> f in s.owner && s.owner[f] == t
  }

  /**
  Positive depth keeps meaning "holds the OS lock" after a drop exactly when the dropped guard is
  not the oldest of several.
  */
  lemma DropSafeIff(s: System, t: Thread, f: File, k: nat)
    requires Inv(s) && Enabled(s, Drop(t, f, k))
    ensures CountsWhatItHolds(Dropped(s, t, f, k), t, f) <==> !(k == 0 && |Guards(s.threads[t], f)| > 1)
  {
    var l := s.threads[t];
    assert LocalOk(s, t);
    assert FileOk(l, f, f in s.owner && s.owner[f] == t);
    RegistryCounts(l.held, f, f);
  }

  /** A thread that holds `f` twice: the outer guard took the OS lock, the inner one only counts. */
  function Nested(f: File): (run: seq<Event>) {
    [Acquire(0, f), Register(0), Acquire(0, f)]
  }

  lemma NestedRun(f: File)
    ensures IsRun(Init(1), Nested(f))
    ensures Final(Init(1), Nested(f)) == System(map[f := 0], [Local(map[f := 2], Idle, map[f := [true, false]])])
  {
    var run := Nested(f);
    var s1 := System(map[f := 0], [Local(map[], Acquired(f), map[])]);
    var s2 := System(map[f := 0], [Local(map[f := 1], Idle, map[f := [true]])]);
    var s3 := System(map[f := 0], [Local(map[f := 2], Idle, map[f := [true, false]])]);
    assert Init(1).threads == [Local(map[], Idle, map[])];
    assert [] + [true] == [true] && [true] + [false] == [true, false];
    assert LocalStep(s1.threads[0], run[1]) == s2.threads[0];
    assert LocalStep(s2.threads[0], run[2]) == s3.threads[0];
    assert Next(Init(1), run[0]) == s1;
    assert Next(s1, run[1]) == s2;
    assert Next(s2, run[2]) == s3;
    assert run[1..][0] == run[1] && run[1..][1..][0] == run[2] && run[1..][1..][1..] == [];
    assert IsRun(s3, []) && Final(s3, []) == s3;
    assert IsRun(s2, run[1..][1..]) && Final(s2, run[1..][1..]) == s3;
    assert IsRun(s1, run[1..]) && Final(s1, run[1..]) == s3;
  }

  /** Dropping the outer guard first frees the OS lock and leaves the thread counting one. */
  lemma OuterFirstUnlocks(f: File)
    ensures IsRun(Init(1), Nested(f)) && Enabled(Final(Init(1), Nested(f)), Drop(0, f, 0))
    ensures var s := Dropped(Final(Init(1), Nested(f)), 0, f, 0);
            DepthIn(s.threads[0].held, f) == 1 && f !in s.owner
  {
    NestedRun(f);
  }
}
