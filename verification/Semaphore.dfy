/**
 Semaphores: a kernel object together with a shadow count that each call
 updates in a step of its own, after the kernel call has returned.

 Any number of threads act on one semaphore; a step is one kernel call or one
 update of the shadow count.
 */
module Semaphore {

  const MAXIMUM: nat := 4096
  const WRAP: nat := 0x1_0000_0000

  /** An unsigned 32-bit count. */
  type Ulong = n: nat | n < WRAP

  const TX_WAIT_FOREVER: Ulong := 0xFFFF_FFFF
  const TX_NO_WAIT: Ulong := 0
  const INFINITE: Ulong := 0xFFFF_FFFF

  /** The kernel timeout for a wait option. */
  function KernelTimeout(option: Ulong): Ulong {
    var t: Ulong := if option == TX_WAIT_FOREVER then INFINITE else option;
    if t == TX_NO_WAIT then 0 else t
  }

  /** The kernel object, which is missing when its creation was refused. */
  datatype Kernel = Missing | Count(n: nat)

  /** A thread between its kernel call and its update of the shadow count. */
  datatype Phase = Taken | NotTaken | Released | NotReleased

  /** How often a call has failed and then updated the shadow count all the same. */
  datatype State = State(kernel: Kernel, shadow: Ulong, pending: map<nat, Phase>, failedGets: nat, failedPuts: nat)

  datatype WaitResult = Object0 | TimeOut | WaitFailed

  datatype Status = Success | NoInstance | MutexError | SemaphoreError

  datatype Step =
    | Wait(thread: nat, timeout: Ulong, result: WaitResult)
    | Decrement(thread: nat)
    | Release(thread: nat)
    | Increment(thread: nat)

  /** It is the option itself. */
  lemma TimeoutIsOption(option: Ulong)
    ensures KernelTimeout(option) == option
  {
  }

  /** A new semaphore: the kernel refuses a count above its maximum, and the shadow count is set regardless. */
  function Created(initial: Ulong): State {
    State(if initial <= MAXIMUM then Count(initial) else Missing, initial, map[], 0, 0)
  }

  predicate IsGet(p: Phase) {
    p.Taken? || p.NotTaken?
  }

  /** The step can happen: a thread makes one call at a time, a wait succeeds only if there is something to take, and an
      infinite wait does not time out. */
  predicate Enabled(s: State, step: Step) {
    match step
    case Wait(t, timeout, result) =>
      && t !in s.pending
      && (result.Object0? ==> s.kernel.Count? && s.kernel.n > 0)
      && (result.TimeOut? ==> timeout != INFINITE)
    case Decrement(t) => t in s.pending && IsGet(s.pending[t])
    case Release(t) => t !in s.pending
    case Increment(t) => t in s.pending && !IsGet(s.pending[t])
  }

  predicate CanRelease(k: Kernel) {
    k.Count? && k.n < MAXIMUM
  }

  function Apply(s: State, step: Step): State
    requires Enabled(s, step)
  {
    match step
    case Wait(t, _, Object0) => s.(kernel := Count(s.kernel.n - 1), pending := s.pending[t := Taken])
    case Wait(t, _, _) => s.(pending := s.pending[t := NotTaken])
    case Decrement(t) =>
      s.(shadow := (s.shadow + WRAP - 1) % WRAP, pending := s.pending - {t},
         failedGets := s.failedGets + if s.pending[t].NotTaken? then 1 else 0)
    case Release(t) =>
      if CanRelease(s.kernel) then s.(kernel := Count(s.kernel.n + 1), pending := s.pending[t := Released])
      else s.(pending := s.pending[t := NotReleased])
    case Increment(t) =>
      s.(shadow := (s.shadow + 1) % WRAP, pending := s.pending - {t},
         failedPuts := s.failedPuts + if s.pending[t].NotReleased? then 1 else 0)
  }

  /** The threads in a given phase. */
  function InPhase(pending: map<nat, Phase>, p: Phase): set<nat> {
    set t | t in pending && pending[t] == p
  }

  function Pending(s: State, p: Phase): nat {
    |InPhase(s.pending, p)|
  }

  lemma Member(pending: map<nat, Phase>, q: Phase, t: nat)
    ensures t in InPhase(pending, q) <==> t in pending && pending[t] == q
  {
  }

  lemma Enter(pending: map<nat, Phase>, t: nat, p: Phase, q: Phase)
    requires t !in pending
    ensures |InPhase(pending[t := p], q)| == |InPhase(pending, q)| + if q == p then 1 else 0
  {
    hide InPhase;
    var before, after := InPhase(pending, q), InPhase(pending[t := p], q);
    forall u ensures u in after <==> u in before || (u == t && q == p) {
      Member(pending, q, u);
      Member(pending[t := p], q, u);
    }
    Member(pending, q, t);
    assert after == before + if q == p then {t} else {};
  }

  lemma Exit(pending: map<nat, Phase>, t: nat, q: Phase)
    requires t in pending
    ensures |InPhase(pending - {t}, q)| == |InPhase(pending, q)| - if q == pending[t] then 1 else 0
  {
    hide InPhase;
    var before, after := InPhase(pending, q), InPhase(pending - {t}, q);
    forall u ensures u in after <==> u in before && u != t {
      Member(pending, q, u);
      Member(pending - {t}, q, u);
    }
    Member(pending, q, t);
    assert after == before - {t};
  }

  /** What the kernel count stands for in the drift law: a missing object never moves from the initial count. */
  function KernelCount(s: State, initial: nat): nat {
    if s.kernel.Count? then s.kernel.n else initial
  }

  /** The shadow count before it wraps. */
  function Expected(s: State, initial: nat): int {
    KernelCount(s, initial) + Pending(s, Taken) - Pending(s, Released) + s.failedPuts - s.failedGets
  }

  predicate InRange(s: State, initial: nat) {
    && (s.kernel.Missing? <==> initial > MAXIMUM)
    && (s.kernel.Count? ==> s.kernel.n <= MAXIMUM)
    && (s.kernel.Missing? ==> Pending(s, Taken) == 0 && Pending(s, Released) == 0)
  }

  predicate Drift(s: State, initial: nat) {
    InRange(s, initial) && s.shadow == Expected(s, initial) % WRAP
  }

  lemma Wraps(x: int, y: nat, d: int)
    requires y == x % WRAP && -1 <= d <= 1
    ensures (y + WRAP + d) % WRAP == (x + d) % WRAP
  {
  }

  lemma CreatedDrift(initial: Ulong)
    ensures Drift(Created(initial), initial)
  {
    assert forall p :: InPhase(map[], p) == {};
  }

  lemma DriftStep(s: State, step: Step, initial: nat)
    requires Enabled(s, step) && Drift(s, initial)
    ensures Drift(Apply(s, step), initial)
  {
    hide InPhase;
    match step
    case Wait(t, _, result) =>
      forall q { Enter(s.pending, t, if result.Object0? then Taken else NotTaken, q); }
    case Decrement(t) =>
      forall q { Exit(s.pending, t, q); }
      Wraps(Expected(s, initial), s.shadow, -1);
    case Release(t) =>
      forall q { Enter(s.pending, t, if CanRelease(s.kernel) then Released else NotReleased, q); }
    case Increment(t) =>
      forall q { Exit(s.pending, t, q); }
      Wraps(Expected(s, initial), s.shadow, 1);
  }

  // ----- Whole runs -----

  /** Every step of the run can happen when its turn comes. */
  predicate Legal(s: State, steps: seq<Step>)
    decreases |steps|
  {
    steps == [] || (Enabled(s, steps[0]) && Legal(Apply(s, steps[0]), steps[1..]))
  }

  function Run(s: State, steps: seq<Step>): State
    requires Legal(s, steps)
    decreases |steps|
  {
    if steps == [] then s else Run(Apply(s, steps[0]), steps[1..])
  }

  /** In every interleaving the kernel count stays between 0 and the maximum, and the shadow count is off by exactly the
      calls in flight and the calls that failed. */
  lemma {:induction false} DriftLaw(s: State, steps: seq<Step>, initial: nat)
    requires Drift(s, initial) && Legal(s, steps)
    ensures Drift(Run(s, steps), initial)
    decreases |steps|
  {
    hide Drift, Enabled, Apply;
    if steps == [] {
    } else {
      DriftStep(s, steps[0], initial);
      DriftLaw(Apply(s, steps[0]), steps[1..], initial);
    }
  }

  /** With no call in flight the shadow count is the kernel count exactly when as many puts as gets have failed. */
  lemma QuiescentAgreement(initial: Ulong, steps: seq<Step>)
    requires initial <= MAXIMUM && Legal(Created(initial), steps)
    requires Run(Created(initial), steps).pending == map[]
    ensures var s := Run(Created(initial), steps);
            && s.kernel.Count? && s.kernel.n <= MAXIMUM
            && s.shadow == (s.kernel.n + (s.failedPuts - s.failedGets)) % WRAP
            && (s.shadow == s.kernel.n <==> (s.failedPuts - s.failedGets) % WRAP == 0)
  {
    hide Run, Legal;
    CreatedDrift(initial);
    DriftLaw(Created(initial), steps, initial);
    var s := Run(Created(initial), steps);
    assert InPhase(map[], Taken) == {} && InPhase(map[], Released) == {};
    var d := s.failedPuts - s.failedGets;
    assert Expected(s, initial) == s.kernel.n + d;
    SameResidue(s.kernel.n, d);
  }

  lemma SameResidue(n: nat, d: int)
    requires n < WRAP
    ensures (n + d) % WRAP == n <==> d % WRAP == 0
  {
  }

  /** Releases that raise the kernel's count in the course of the steps, and waits that succeed. */
  function Puts(s: State, steps: seq<Step>): nat
    requires Legal(s, steps)
    decreases |steps|
  {
    if steps == [] then 0 else
      Puts(Apply(s, steps[0]), steps[1..]) + if steps[0].Release? && Apply(s, steps[0]).kernel != s.kernel then 1 else 0
  }

  function Gets(steps: seq<Step>): nat {
    if steps == [] then 0 else
      Gets(steps[1..]) + if steps[0].Wait? && steps[0].result.Object0? then 1 else 0
  }

  /** What the kernel holds is what it held, plus what was put, less what was taken. */
  lemma {:induction false} KernelConserved(s: State, steps: seq<Step>)
    requires Legal(s, steps) && s.kernel.Count?
    ensures Run(s, steps).kernel.Count? && Run(s, steps).kernel.n == s.kernel.n + Puts(s, steps) - Gets(steps)
    decreases |steps|
  {
    if steps == [] {
    } else {
      KernelConserved(Apply(s, steps[0]), steps[1..]);
    }
  }

  lemma {:induction false} MissingGivesNothing(s: State, steps: seq<Step>)
    requires Legal(s, steps) && s.kernel.Missing?
    ensures Run(s, steps).kernel.Missing? && Puts(s, steps) == Gets(steps) == 0
    decreases |steps|
  {
    if steps == [] {
    } else {
      MissingGivesNothing(Apply(s, steps[0]), steps[1..]);
    }
  }

  /** In every interleaving, successful gets never outnumber the initial count and the successful puts, nor fall behind them
      by more than the maximum; and a semaphore the kernel refused never gives anything. */
  lemma Conservation(initial: Ulong, steps: seq<Step>)
    requires Legal(Created(initial), steps)
    ensures var s := Created(initial);
            if initial <= 4096 then
              && Gets(steps) <= initial + Puts(s, steps) <= Gets(steps) + 4096
              && Run(s, steps).kernel == Count(initial + Puts(s, steps) - Gets(steps))
            else
              Gets(steps) == Puts(s, steps) == 0
  {
    var s := Created(initial);
    if initial <= MAXIMUM {
      CreatedDrift(initial);
      DriftLaw(s, steps, initial);
      KernelConserved(s, steps);
    } else {
      MissingGivesNothing(s, steps);
    }
  }

  /** After any run a release raises the kernel's count if and only if the kernel made the object and fewer than 4096 are
      there, counting the initial ones and successful puts less successful gets; and a wait can succeed if and only if
      there is one. */
  lemma ReleasesBelowMaximum(initial: Ulong, steps: seq<Step>, t: nat, timeout: Ulong)
    requires Legal(Created(initial), steps) && t !in Run(Created(initial), steps).pending
    ensures var s := Run(Created(initial), steps);
            var there := initial + Puts(Created(initial), steps) - Gets(steps);
            && Enabled(s, Release(t))
            && there >= 0 && (initial <= 4096 <==> s.kernel == Count(there))
            && Apply(s, Release(t)).kernel == (if initial <= 4096 && there < 4096 then Count(there + 1) else s.kernel)
            && (Apply(s, Release(t)).kernel != s.kernel <==> initial <= 4096 && there < 4096)
            && (Enabled(s, Wait(t, timeout, Object0)) <==> initial <= 4096 && there > 0)
  {
    hide Run, Legal, Puts, Gets;
    Conservation(initial, steps);
    if initial > 4096 {
      StaysMissing(initial, steps);
    }
  }

  lemma StaysMissing(initial: Ulong, steps: seq<Step>)
    requires initial > 4096 && Legal(Created(initial), steps)
    ensures Run(Created(initial), steps).kernel.Missing?
  {
    MissingGivesNothing(Created(initial), steps);
  }

  // ----- The counts in terms of steps -----

  function Increments(steps: seq<Step>): nat {
    if steps == [] then 0 else Increments(steps[1..]) + if steps[0].Increment? then 1 else 0
  }

  function Decrements(steps: seq<Step>): nat {
    if steps == [] then 0 else Decrements(steps[1..]) + if steps[0].Decrement? then 1 else 0
  }

  lemma Residues(x: int, a: int, d: int)
    requires x % 0x1_0000_0000 == a % 0x1_0000_0000
    ensures (x + d) % 0x1_0000_0000 == (a + d) % 0x1_0000_0000
  {
  }

  /** The shadow count counts updates and nothing else. */
  lemma {:induction false} ShadowCounts(s: State, steps: seq<Step>)
    requires Legal(s, steps)
    ensures Run(s, steps).shadow == (s.shadow + Increments(steps) - Decrements(steps)) % 0x1_0000_0000
    decreases |steps|
  {
    if steps == [] {
    } else {
      var next := Apply(s, steps[0]);
      ShadowCounts(next, steps[1..]);
      var d := Increments(steps[1..]) - Decrements(steps[1..]);
      var e := if steps[0].Increment? then 1 else if steps[0].Decrement? then -1 else 0;
      ShadowStep(s, steps[0], e);
      Residues(next.shadow, s.shadow + e, d);
    }
  }

  lemma ShadowStep(s: State, step: Step, e: int)
    requires Enabled(s, step) && e == if step.Increment? then 1 else if step.Decrement? then -1 else 0
    ensures Apply(s, step).shadow % 0x1_0000_0000 == (s.shadow + e) % 0x1_0000_0000
  {
    if step.Decrement? {
      Wraps(s.shadow, s.shadow, -1);
    }
  }

  /** Waits that fail in the course of the steps, and releases that leave the kernel's count alone. */
  function FailedWaits(steps: seq<Step>): nat {
    if steps == [] then 0 else FailedWaits(steps[1..]) + if steps[0].Wait? && !steps[0].result.Object0? then 1 else 0
  }

  function FailedReleases(s: State, steps: seq<Step>): nat
    requires Legal(s, steps)
    decreases |steps|
  {
    if steps == [] then 0 else
      FailedReleases(Apply(s, steps[0]), steps[1..])
      + if steps[0].Release? && Apply(s, steps[0]).kernel == s.kernel then 1 else 0
  }

  lemma FailureStep(s: State, step: Step)
    requires Enabled(s, step)
    ensures var next := Apply(s, step);
            && next.failedGets + Pending(next, NotTaken)
               == s.failedGets + Pending(s, NotTaken) + (if step.Wait? && !step.result.Object0? then 1 else 0)
            && next.failedPuts + Pending(next, NotReleased)
               == s.failedPuts + Pending(s, NotReleased) + (if step.Release? && next.kernel == s.kernel then 1 else 0)
  {
    hide InPhase;
    match step
    case Wait(t, _, result) =>
      forall q { Enter(s.pending, t, if result.Object0? then Taken else NotTaken, q); }
    case Release(t) =>
      forall q { Enter(s.pending, t, if CanRelease(s.kernel) then Released else NotReleased, q); }
    case Decrement(t) =>
      forall q { Exit(s.pending, t, q); }
    case Increment(t) =>
      forall q { Exit(s.pending, t, q); }
  }

  /** What is counted as failed are the waits and releases that failed and have been followed by their update. */
  lemma {:induction false} FailuresCount(s: State, steps: seq<Step>)
    requires Legal(s, steps)
    ensures var end := Run(s, steps);
            && end.failedGets + Pending(end, NotTaken) == s.failedGets + Pending(s, NotTaken) + FailedWaits(steps)
            && end.failedPuts + Pending(end, NotReleased)
               == s.failedPuts + Pending(s, NotReleased) + FailedReleases(s, steps)
    decreases |steps|
  {
    hide Apply, Enabled, Pending;
    if steps == [] {
    } else {
      FailureStep(s, steps[0]);
      FailuresCount(Apply(s, steps[0]), steps[1..]);
    }
  }

  /** With no call in flight the two counts agree if and only if as many releases as waits have failed, modulo 2^32. */
  lemma AgreementInSteps(initial: Ulong, steps: seq<Step>)
    requires initial <= 4096 && Legal(Created(initial), steps) && Run(Created(initial), steps).pending == map[]
    ensures var s := Run(Created(initial), steps);
            && s.kernel.Count? && s.kernel.n == initial + Puts(Created(initial), steps) - Gets(steps)
            && s.shadow == (initial + Increments(steps) - Decrements(steps)) % 0x1_0000_0000
            && (s.shadow == s.kernel.n <==>
                  (FailedReleases(Created(initial), steps) - FailedWaits(steps)) % 0x1_0000_0000 == 0)
  {
    hide Run, Legal, Apply;
    Conservation(initial, steps);
    ShadowCounts(Created(initial), steps);
    QuiescentAgreement(initial, steps);
    FailuresCount(Created(initial), steps);
    assert forall p :: InPhase(map[], p) == {};
  }

  /** The counts do part: one timed-out get on an empty semaphore and the shadow count has wrapped around. */
  lemma FailedGetWraps(t: nat)
    ensures var steps := [Wait(t, KernelTimeout(TX_NO_WAIT), TimeOut), Decrement(t)];
            && Legal(Created(0), steps)
            && var s := Run(Created(0), steps); s.kernel == Count(0) && s.shadow == 0xFFFF_FFFF && s.pending == map[]
  {
    var steps := [Wait(t, KernelTimeout(TX_NO_WAIT), TimeOut), Decrement(t)];
    var one := Apply(Created(0), steps[0]);
    assert steps[1..] == [Decrement(t)] && [Decrement(t)][1..] == [];
    var two := Apply(one, Decrement(t));
    assert two.pending == map[];
    assert Run(one, steps[1..]) == two;
  }

  lemma {:induction false} RunAppend(s: State, a: seq<Step>, b: seq<Step>)
    requires Legal(s, a) && Legal(Run(s, a), b)
    ensures Legal(s, a + b) && Run(s, a + b) == Run(Run(s, a), b)
    decreases |a|
  {
    if a == [] {
      assert a + b == b;
    } else {
      assert (a + b)[1..] == a[1..] + b;
      RunAppend(Apply(s, a[0]), a[1..], b);
    }
  }

  /** Other threads' steps leave a thread where it is. */
  lemma {:induction false} PhaseKept(s: State, steps: seq<Step>, t: nat)
    requires Legal(s, steps) && t in s.pending
    requires forall i | 0 <= i < |steps| :: steps[i].thread != t
    ensures t in Run(s, steps).pending && Run(s, steps).pending[t] == s.pending[t]
    decreases |steps|
  {
    if steps == [] {
    } else {
      PhaseKept(Apply(s, steps[0]), steps[1..], t);
    }
  }

  // ----- The calls -----

  class SemaphoreBlock {
    var kernel: Kernel
    var shadow: Ulong
    ghost var pending: map<nat, Phase>
    ghost var failedGets: nat
    ghost var failedPuts: nat

    ghost function View(): State
      reads this
    {
      State(kernel, shadow, pending, failedGets, failedPuts)
    }

    constructor (initial: Ulong)
      ensures View() == Created(initial)
    {
      kernel := if initial <= MAXIMUM then Count(initial) else Missing;
      shadow := initial;
      pending, failedGets, failedPuts := map[], 0, 0;
    }

    method WaitForObject(t: nat, timeout: Ulong, result: WaitResult)
      requires Enabled(View(), Wait(t, timeout, result))
      modifies this
      ensures View() == Apply(old(View()), Wait(t, timeout, result))
    {
      if result == Object0 {
        kernel := Count(kernel.n - 1);
      }
      pending := pending[t := if result == Object0 then Taken else NotTaken];
    }

    method ReleaseObject(t: nat) returns (ok: bool)
      requires Enabled(View(), Release(t))
      modifies this
      ensures View() == Apply(old(View()), Release(t)) && ok == CanRelease(old(kernel))
      ensures kernel == if old(kernel).Count? && old(kernel).n < 4096 then Count(old(kernel).n + 1) else old(kernel)
    {
      ok := kernel.Count? && kernel.n < MAXIMUM;
      if ok {
        kernel := Count(kernel.n + 1);
      }
      pending := pending[t := if ok then Released else NotReleased];
    }

    method DecrementCount(t: nat)
      requires Enabled(View(), Decrement(t))
      modifies this
      ensures View() == Apply(old(View()), Decrement(t))
    {
      shadow := if shadow == 0 then WRAP - 1 else shadow - 1;
      failedGets := failedGets + if pending[t].NotTaken? then 1 else 0;
      pending := pending - {t};
    }

    method IncrementCount(t: nat)
      requires Enabled(View(), Increment(t))
      modifies this
      ensures View() == Apply(old(View()), Increment(t))
    {
      shadow := if shadow == WRAP - 1 then 0 else shadow + 1;
      failedPuts := failedPuts + if pending[t].NotReleased? then 1 else 0;
      pending := pending - {t};
    }

    /** The other threads' steps. */
    method Others(steps: seq<Step>)
      requires Legal(View(), steps)
      modifies this
      ensures View() == Run(old(View()), steps)
    {
      hide Enabled, Apply;
      var i := 0;
      assert steps[0..] == steps;
      while i < |steps|
        invariant i <= |steps| && Legal(View(), steps[i..]) && Run(View(), steps[i..]) == Run(old(View()), steps)
      {
        assert steps[i..][1..] == steps[i + 1..];
        match steps[i] {
          case Wait(t, timeout, result) => WaitForObject(t, timeout, result);
          case Release(t) => var ok := ReleaseObject(t);
          case Decrement(t) => DecrementCount(t);
          case Increment(t) => IncrementCount(t);
        }
        i := i + 1;
      }
    }

    /** A get: the kernel wait, whatever others do meanwhile, and then the shadow count, lowered even if the wait failed.
        A get that waits forever does not come back for want of an instance. */
    method Get(t: nat, option: Ulong, result: WaitResult, between: seq<Step>) returns (status: Status)
      requires Enabled(View(), Wait(t, KernelTimeout(option), result))
      requires Legal(Apply(View(), Wait(t, KernelTimeout(option), result)), between)
      requires forall i | 0 <= i < |between| :: between[i].thread != t
      modifies this
      ensures var steps := [Wait(t, KernelTimeout(option), result)] + between + [Decrement(t)];
              Legal(old(View()), steps) && View() == Run(old(View()), steps)
      ensures status == match result case Object0 => Success case TimeOut => NoInstance case WaitFailed => MutexError
      ensures option == TX_WAIT_FOREVER ==> status != NoInstance
    {
      ghost var s := View();
      var timeout := if option == TX_WAIT_FOREVER then INFINITE else option;
      timeout := if timeout == TX_NO_WAIT then 0 else timeout;
      WaitForObject(t, timeout, result);
      PhaseKept(View(), between, t);
      Others(between);
      DecrementCount(t);
      Call(s, Wait(t, timeout, result), between, Decrement(t));
      status := match result case Object0 => Success case TimeOut => NoInstance case WaitFailed => MutexError;
    }

    /** A put: the kernel release, whatever others do meanwhile, and then the shadow count, raised even if the release
        failed. */
    method Put(t: nat, between: seq<Step>) returns (status: Status)
      requires Enabled(View(), Release(t)) && Legal(Apply(View(), Release(t)), between)
      requires forall i | 0 <= i < |between| :: between[i].thread != t
      modifies this
      ensures Legal(old(View()), [Release(t)] + between + [Increment(t)])
      ensures View() == Run(old(View()), [Release(t)] + between + [Increment(t)])
      ensures status == if old(kernel).Count? && old(kernel).n < 4096 then Success else SemaphoreError
      ensures status == Success <==> Apply(old(View()), Release(t)).kernel != old(kernel)
    {
      ghost var s := View();
      var ok := ReleaseObject(t);
      PhaseKept(View(), between, t);
      Others(between);
      IncrementCount(t);
      Call(s, Release(t), between, Increment(t));
      status := if ok then Success else SemaphoreError;
    }
  }

  lemma Call(s: State, first: Step, between: seq<Step>, last: Step)
    requires Enabled(s, first) && Legal(Apply(s, first), between)
    requires Enabled(Run(Apply(s, first), between), last)
    ensures Legal(s, [first] + between + [last])
    ensures Run(s, [first] + between + [last]) == Apply(Run(Apply(s, first), between), last)
  {
    hide Enabled, Apply;
    assert ([first] + between)[1..] == between;
    RunAppend(s, [first] + between, [last]);
  }
}
