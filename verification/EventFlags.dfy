/**
 Event flags: a 32-bit mask under a critical section, and a get that polls it.

 Any number of threads act on one group; a step is one critical section.
 */
module EventFlags {

  const TX_AND: bv32 := 2
  const TX_OR: bv32 := 0
  const CLEAR_MASK: bv32 := 1

  /** Tick counts and wait options: unsigned 32-bit numbers that are only ever compared. */
  type Ticks = t: nat | t <= 0xFFFF_FFFF

  const TX_WAIT_FOREVER: Ticks := 0xFFFF_FFFF
  const TX_NO_WAIT: Ticks := 0
  const INFINITE: Ticks := 0xFFFF_FFFF

  datatype Status = Success | NoEvents

  function Union(a: bv32, b: bv32): bv32 {
    a | b
  }

  function Common(a: bv32, b: bv32): bv32 {
    a & b
  }

  function Without(a: bv32, b: bv32): bv32 {
    a & !b
  }

  /** What a get asks for. */
  datatype Want = Want(requested: bv32, option: bv32) {
    predicate Clears() {
      Common(option, CLEAR_MASK) != 0
    }

    predicate WantsAll() {
      Common(option, TX_AND) == TX_AND
    }

    /** A poll that sees `mask` is satisfied. */
    predicate MetBy(mask: bv32) {
      var common := Common(mask, requested);
      if WantsAll() && common != requested then false else common != 0
    }

    /** The mask a poll leaves behind. */
    function After(mask: bv32): bv32 {
      if MetBy(mask) && Clears() then Without(mask, requested) else mask
    }
  }

  datatype Step =
    | Set(flags: bv32, option: bv32)
    | Poll(thread: nat, want: Want)
  {
    function After(mask: bv32): bv32 {
      match this
      case Set(flags, option) =>
        if option == TX_OR then Union(mask, flags) else if option == TX_AND then Common(mask, flags) else mask
      case Poll(_, want) => want.After(mask)
    }
  }

  /** The mask after a run of steps. */
  function Run(mask: bv32, steps: seq<Step>): bv32
    decreases |steps|
  {
    if steps == [] then mask else Run(steps[0].After(mask), steps[1..])
  }

  /** The mask just before step `i`. */
  function At(mask: bv32, steps: seq<Step>, i: nat): bv32
    requires i <= |steps|
  {
    Run(mask, steps[..i])
  }

  lemma {:induction false} RunAppend(mask: bv32, a: seq<Step>, b: seq<Step>)
    ensures Run(mask, a + b) == Run(Run(mask, a), b)
    decreases |a|
  {
    if a == [] {
      assert a + b == b;
    } else {
      assert (a + b)[1..] == a[1..] + b;
      RunAppend(a[0].After(mask), a[1..], b);
    }
  }

  lemma OneStep(mask: bv32, steps: seq<Step>, i: nat)
    requires i < |steps|
    ensures At(mask, steps, i + 1) == steps[i].After(At(mask, steps, i))
  {
    assert steps[..i + 1] == steps[..i] + [steps[i]];
    RunAppend(mask, steps[..i], [steps[i]]);
  }

  // ----- One poll -----

  lemma Removing(mask: bv32, flags: bv32)
    ensures Common(Without(mask, flags), flags) == 0
    ensures Without(Without(mask, flags), flags) == Without(mask, flags)
  {
  }

  /** What being satisfied means: all the requested flags if bit 1 of the option is set (an AND), some of them otherwise,
      and never for a request of no flags at all. */
  lemma MetMeaning(w: Want, mask: bv32)
    ensures w.MetBy(mask) <==>
      w.requested != 0 &&
      if w.option & 2 != 0 then mask & w.requested == w.requested else mask & w.requested != 0
  {
    MetBits(w.requested, w.option, mask);
  }

  lemma MetBits(requested: bv32, option: bv32, mask: bv32)
    ensures Want(requested, option).MetBy(mask) <==>
      requested != 0 && if option & 2 != 0 then mask & requested == requested else mask & requested != 0
  {
  }

  /** What a poll leaves: if it is satisfied and bit 0 of the option is set, the mask without the requested flags, and
      otherwise the mask as it was. */
  lemma PollLeaves(w: Want, mask: bv32)
    ensures w.After(mask) == if w.MetBy(mask) && w.option & 1 != 0 then mask & !w.requested else mask
  {
    LeftBits(w.requested, w.option, mask, w.MetBy(mask));
  }

  lemma PollLeft(w: Want, mask: bv32, met: bool, next: bv32)
    requires met == w.MetBy(mask) && next == w.After(mask)
    ensures next == if met && w.option & 1 != 0 then mask & !w.requested else mask
  {
    hide Want.MetBy, Want.After;
    PollLeaves(w, mask);
  }

  lemma LeftBits(requested: bv32, option: bv32, mask: bv32, met: bool)
    ensures (if met && Want(requested, option).Clears() then Without(mask, requested) else mask)
            == if met && option & 1 != 0 then mask & !requested else mask
  {
  }

  /** An OR-set raises the flags it names, an AND-set lowers those it does not name, and neither changes any other; any
      other option changes nothing. */
  lemma SetLeaves(flags: bv32, option: bv32, mask: bv32, next: bv32)
    requires next == Set(flags, option).After(mask)
    ensures option == 0 ==> next & flags == flags && next & !flags == mask & !flags
    ensures option == 2 ==> next & flags == mask & flags && next & !flags == 0
    ensures option != 0 && option != 2 ==> next == mask
  {
    hide Union, Common;
    if option == 0 {
      Raised(mask, flags, next);
    } else if option == 2 {
      Lowered(mask, flags, next);
    }
  }

  lemma Raised(mask: bv32, flags: bv32, next: bv32)
    requires next == Union(mask, flags)
    ensures next & flags == flags && next & !flags == mask & !flags
  {
  }

  lemma Lowered(mask: bv32, flags: bv32, next: bv32)
    requires next == Common(mask, flags)
    ensures next & flags == mask & flags && next & !flags == 0
  {
  }

  /** A clearing AND takes every requested flag or none. */
  lemma AllOrNothing(w: Want, mask: bv32)
    requires w.WantsAll()
    ensures w.After(mask) == mask || (Common(mask, w.requested) == w.requested && Common(w.After(mask), w.requested) == 0)
  {
    hide Common, Without, Want.WantsAll, Want.Clears;
    Removing(mask, w.requested);
  }

  /** No poll touches a flag it did not request. */
  lemma OthersUntouched(w: Want, mask: bv32)
    ensures Without(w.After(mask), w.requested) == Without(mask, w.requested)
  {
    hide Common, Without, Want.WantsAll, Want.Clears;
    Removing(mask, w.requested);
  }

  // ----- Consumption ledger -----

  /** Some of the given flags are set. */
  predicate Up(mask: bv32, flag: bv32) {
    mask & flag != 0
  }

  /** Step `i` is a satisfied poll with a clear option, for the flag among others, that reports the flag as set. */
  predicate Consumes(mask: bv32, steps: seq<Step>, i: nat, flag: bv32)
    requires i < |steps|
  {
    && steps[i].Poll? && steps[i].want.MetBy(At(mask, steps, i)) && HasBit0(steps[i].want.option)
    && Covers(steps[i].want.requested, flag) && Up(At(mask, steps, i), flag)
  }

  predicate HasBit0(option: bv32) {
    option & 1 != 0
  }

  predicate Covers(requested: bv32, flag: bv32) {
    requested & flag == flag
  }

  lemma Cleared(mask: bv32, requested: bv32, flag: bv32, next: bv32)
    requires next == Without(mask, requested) && Covers(requested, flag)
    ensures !Up(next, flag)
  {
  }

  lemma Bit0Clears(w: Want)
    ensures w.Clears() <==> HasBit0(w.option)
  {
  }

  /** Such a poll takes the flag down. */
  lemma ConsumesClears(mask: bv32, steps: seq<Step>, i: nat, flag: bv32)
    requires i < |steps| && Consumes(mask, steps, i, flag)
    ensures !Up(At(mask, steps, i + 1), flag)
  {
    hide Run, Want.MetBy, Want.Clears, Without, Up, HasBit0, Covers;
    OneStep(mask, steps, i);
    Bit0Clears(steps[i].want);
    Cleared(At(mask, steps, i), steps[i].want.requested, flag, At(mask, steps, i + 1));
  }

  predicate Raises(s: Step, flag: bv32) {
    s.Set? && s.option == TX_OR && Up(s.flags, flag)
  }

  lemma NothingFromNothing(mask: bv32, flags: bv32, flag: bv32)
    requires mask & flag == 0
    ensures (mask & flags) & flag == 0 && (mask & !flags) & flag == 0
    ensures (mask | flags) & flag == flags & flag
  {
  }

  /** Only an OR-set turns a flag on. */
  lemma OnlyOrRaises(s: Step, mask: bv32, flag: bv32)
    requires !Up(mask, flag) && Up(s.After(mask), flag)
    ensures Raises(s, flag)
  {
    if s.Set? {
      NothingFromNothing(mask, s.flags, flag);
    }
  }

  /** A flag that is down at one time and up at a later one was raised in between. */
  lemma {:induction false} RaisedBetween(mask: bv32, steps: seq<Step>, i: nat, j: nat, flag: bv32) returns (r: nat)
    requires i <= j <= |steps|
    requires !Up(At(mask, steps, i), flag) && Up(At(mask, steps, j), flag)
    ensures i <= r < j && Raises(steps[r], flag)
    decreases j - i
  {
    hide Up, Raises;
    OneStep(mask, steps, j - 1);
    if !Up(At(mask, steps, j - 1), flag) {
      OnlyOrRaises(steps[j - 1], At(mask, steps, j - 1), flag);
      r := j - 1;
    } else {
      r := RaisedBetween(mask, steps, i, j - 1, flag);
    }
  }

  /** The last step before `j` that raises the flag, or -1. */
  function LastRaise(steps: seq<Step>, j: nat, flag: bv32): (r: int)
    requires j <= |steps|
    ensures -1 <= r < j && (r >= 0 ==> Raises(steps[r], flag))
    ensures forall x | r < x < j :: !Raises(steps[x], flag)
  {
    if j == 0 then -1 else if Raises(steps[j - 1], flag) then j - 1 else LastRaise(steps, j - 1, flag)
  }

  /** Each consumption of a flag is paid for by a set of its own: the last one before it, which comes after every earlier
      consumption. */
  lemma EachConsumptionHasItsOwnSet(mask: bv32, steps: seq<Step>, i: nat, j: nat, flag: bv32)
    requires !Up(mask, flag)
    requires i < j < |steps| && Consumes(mask, steps, i, flag) && Consumes(mask, steps, j, flag)
    ensures 0 <= LastRaise(steps, i, flag) < i < LastRaise(steps, j, flag) < j
  {
    ConsumesClears(mask, steps, i, flag);
    OwnSets(mask, steps, i, j, flag);
  }

  lemma OwnSets(mask: bv32, steps: seq<Step>, i: nat, j: nat, flag: bv32)
    requires !Up(mask, flag) && i < j < |steps|
    requires Up(At(mask, steps, i), flag) && !Up(At(mask, steps, i + 1), flag) && Up(At(mask, steps, j), flag)
    ensures 0 <= LastRaise(steps, i, flag) < i < LastRaise(steps, j, flag) < j
  {
    hide Up, Raises;
    var later := RaisedBetween(mask, steps, i + 1, j, flag);
    assert At(mask, steps, 0) == mask;
    var earlier := RaisedBetween(mask, steps, 0, i, flag);
  }

  /** The same said of options and bits: once a satisfied poll with a clear option has been shown a flag it asks for, nobody
      is shown it again before an OR-set raises it. */
  lemma ShownAgainOnlyIfSetAgain(mask: bv32, steps: seq<Step>, i: nat, j: nat, w: Want, now: bv32, later: bv32, flag: bv32)
    returns (r: nat)
    requires i < j < |steps| && steps[i].Poll? && steps[i].want == w && steps[j].Poll?
    requires now == At(mask, steps, i) && later == At(mask, steps, j)
    requires w.option & 1 != 0 && w.requested & flag == flag
    requires if w.option & 2 != 0 then now & w.requested == w.requested else now & w.requested != 0
    requires now & flag != 0 && later & flag != 0
    ensures i < r < j && steps[r].Set? && steps[r].option == 0 && steps[r].flags & flag != 0
  {
    hide Run, Want.MetBy, Up, HasBit0, Covers, Raises;
    ShownInBits(w, now, later, flag);
    ConsumesClears(mask, steps, i, flag);
    r := RaisedBetween(mask, steps, i + 1, j, flag);
    RaisesInBits(steps[r], flag);
  }

  lemma ShownInBits(w: Want, now: bv32, later: bv32, flag: bv32)
    requires w.option & 1 != 0 && w.requested & flag == flag
    requires if w.option & 2 != 0 then now & w.requested == w.requested else now & w.requested != 0
    requires now & flag != 0 && later & flag != 0
    ensures w.MetBy(now) && HasBit0(w.option) && Covers(w.requested, flag) && Up(now, flag) && Up(later, flag)
  {
    hide Want.MetBy;
    MetMeaning(w, now);
    NotNone(now, flag, w.requested);
  }

  lemma RaisesInBits(s: Step, flag: bv32)
    requires Raises(s, flag)
    ensures s.Set? && s.option == 0 && s.flags & flag != 0
  {
    hide Raises;
    match s
    case Set(flags, option) => RaiseBits(flags, option, flag);
    case Poll(_, _) => PollsRaiseNothing(s, flag);
  }

  lemma RaiseBits(flags: bv32, option: bv32, flag: bv32)
    requires Raises(Set(flags, option), flag)
    ensures option == 0 && flags & flag != 0
  {
  }

  lemma PollsRaiseNothing(s: Step, flag: bv32)
    ensures s.Poll? ==> !Raises(s, flag)
  {
  }

  lemma NotNone(mask: bv32, flag: bv32, requested: bv32)
    requires requested & flag == flag && mask & flag != 0
    ensures requested != 0
  {
  }

  /** Consumptions of the flag among the first `n` steps, and sets of it. */
  function Consumptions(mask: bv32, steps: seq<Step>, n: nat, flag: bv32): nat
    requires n <= |steps|
  {
    if n == 0 then 0 else Consumptions(mask, steps, n - 1, flag) + if Consumes(mask, steps, n - 1, flag) then 1 else 0
  }

  function Sets(steps: seq<Step>, n: nat, flag: bv32): nat
    requires n <= |steps|
  {
    if n == 0 then 0 else Sets(steps, n - 1, flag) + if Raises(steps[n - 1], flag) then 1 else 0
  }

  /** At every moment the flag has been consumed at most as often as it was set, less one while it is still up. */
  lemma {:induction false} LedgerNeverOverdrawn(mask: bv32, steps: seq<Step>, n: nat, flag: bv32)
    requires n <= |steps| && !Up(mask, flag)
    ensures Consumptions(mask, steps, n, flag) + (if Up(At(mask, steps, n), flag) then 1 else 0) <= Sets(steps, n, flag)
  {
    hide Up, Raises, Consumes, Run;
    if n == 0 {
      NothingRun(mask, steps);
    } else {
      LedgerNeverOverdrawn(mask, steps, n - 1, flag);
      OneStep(mask, steps, n - 1);
      if Consumes(mask, steps, n - 1, flag) {
        ConsumesClears(mask, steps, n - 1, flag);
        ConsumedWasUp(mask, steps, n - 1, flag);
      }
      if !Up(At(mask, steps, n - 1), flag) && Up(At(mask, steps, n), flag) {
        OnlyOrRaises(steps[n - 1], At(mask, steps, n - 1), flag);
      }
    }
  }

  lemma NothingRun(mask: bv32, steps: seq<Step>)
    ensures At(mask, steps, 0) == mask
  {
  }

  lemma ConsumedWasUp(mask: bv32, steps: seq<Step>, i: nat, flag: bv32)
    requires i < |steps| && Consumes(mask, steps, i, flag)
    ensures Up(At(mask, steps, i), flag)
  {
  }

  // ----- Polling refines blocking -----

  /** A run of the blocking machine: a get happens only when it is satisfied. */
  predicate Blocking(mask: bv32, steps: seq<Step>)
    decreases |steps|
  {
    steps == [] || ((steps[0].Poll? ==> steps[0].want.MetBy(mask)) && Blocking(steps[0].After(mask), steps[1..]))
  }

  /** The run without the polls that found nothing. */
  function WithoutFailures(mask: bv32, steps: seq<Step>): seq<Step>
    decreases |steps|
  {
    if steps == [] then [] else
      var rest := WithoutFailures(steps[0].After(mask), steps[1..]);
      if steps[0].Poll? && !steps[0].want.MetBy(mask) then rest else [steps[0]] + rest
  }

  function OnlySets(steps: seq<Step>): seq<Step> {
    if steps == [] then [] else (if steps[0].Set? then [steps[0]] else []) + OnlySets(steps[1..])
  }

  lemma PollUnmet(s: Step, mask: bv32)
    ensures s.Poll? && !s.want.MetBy(mask) ==> s.After(mask) == mask
  {
  }

  /** Every interleaving of polling threads is, failed polls aside, a run of the blocking machine with the same sets in the
      same order and the same final mask. */
  lemma {:induction false} PollingRefinesBlocking(mask: bv32, steps: seq<Step>)
    ensures var b := WithoutFailures(mask, steps);
            Blocking(mask, b) && Run(mask, b) == Run(mask, steps) && OnlySets(b) == OnlySets(steps)
    decreases |steps|
  {
    hide Step.After, Want.MetBy, Want.After;
    if steps == [] {
    } else {
      PollUnmet(steps[0], mask);
      PollingRefinesBlocking(steps[0].After(mask), steps[1..]);
      var rest := WithoutFailures(steps[0].After(mask), steps[1..]);
      assert ([steps[0]] + rest)[1..] == rest;
    }
  }

  // ----- The polling loop of one get -----

  /** What the other threads do after a poll, and the tick count the loop then reads. */
  datatype Slice = Slice(steps: seq<Step>, tick: Ticks)

  datatype Exit =
    | Met(round: nat, actual: bv32, mask: bv32)
    | GaveUp(round: nat, actual: bv32, mask: bv32)
    | Polling(mask: bv32)

  /** The mask after `k` slices of the other threads' work, had the caller never polled. */
  function Undisturbed(mask: bv32, world: seq<Slice>, k: nat): bv32
    requires k <= |world|
  {
    if k == 0 then mask else Run(Undisturbed(mask, world, k - 1), world[k - 1].steps)
  }

  /** No poll before the `k`-th would have been satisfied. */
  predicate UnmetBefore(mask: bv32, w: Want, world: seq<Slice>, k: nat)
    requires k <= |world| + 1
  {
    forall i | 0 <= i < k :: !w.MetBy(Undisturbed(mask, world, i))
  }

  /** How a get ends when others do what `world` says: at the first round that satisfies it, unless the loop test finds
      the timeout reached before; otherwise it is still polling when `world` is over. */
  predicate EndsAs(mask: bv32, w: Want, timeout: Ticks, world: seq<Slice>, e: Exit) {
    match e
    case Met(k, actual, after) =>
      && k <= |world| && UnmetBefore(mask, w, world, k)
      && (forall i | 0 <= i < k :: world[i].tick < timeout)
      && actual == Undisturbed(mask, world, k) && w.MetBy(actual) && after == w.After(actual)
    case GaveUp(k, actual, after) =>
      && k < |world| && UnmetBefore(mask, w, world, k + 1)
      && (forall i | 0 <= i < k :: world[i].tick < timeout) && world[k].tick >= timeout
      && actual == Undisturbed(mask, world, k) && after == Undisturbed(mask, world, k + 1)
    case Polling(after) =>
      && UnmetBefore(mask, w, world, |world| + 1)
      && (forall i | 0 <= i < |world| :: world[i].tick < timeout)
      && after == Undisturbed(mask, world, |world|)
  }

  /** Given the others' behaviour there is only one way to end. */
  lemma EndIsUnique(mask: bv32, w: Want, timeout: Ticks, world: seq<Slice>, e: Exit, f: Exit)
    requires EndsAs(mask, w, timeout, world, e) && EndsAs(mask, w, timeout, world, f)
    ensures e == f
  {
  }

  /** The interleaving `me` takes part in with `k` polls, each followed by a slice of the others' work. */
  function Turns(me: nat, w: Want, world: seq<Slice>, k: nat): seq<Step>
    requires k <= |world|
  {
    if k == 0 then [] else Turns(me, w, world, k - 1) + ([Poll(me, w)] + world[k - 1].steps)
  }

  /** The whole interleaving of a get that ends so. */
  function StepsOf(me: nat, w: Want, world: seq<Slice>, e: Exit): seq<Step> {
    match e
    case Met(k, _, _) => if k <= |world| then Turns(me, w, world, k) + [Poll(me, w)] else []
    case GaveUp(k, _, _) => if k < |world| then Turns(me, w, world, k + 1) else []
    case Polling(_) => Turns(me, w, world, |world|) + [Poll(me, w)]
  }

  /** Polls that find nothing leave the others' work undisturbed. */
  lemma {:induction false} TurnsUndisturbed(mask: bv32, me: nat, w: Want, world: seq<Slice>, k: nat)
    requires k <= |world| && UnmetBefore(mask, w, world, k)
    ensures Run(mask, Turns(me, w, world, k)) == Undisturbed(mask, world, k)
  {
    hide Want.MetBy;
    if k == 0 {
    } else {
      TurnsUndisturbed(mask, me, w, world, k - 1);
      var steps := [Poll(me, w)] + world[k - 1].steps;
      RunAppend(mask, Turns(me, w, world, k - 1), steps);
      assert steps[1..] == world[k - 1].steps;
    }
  }

  /** A get among others is a run of polls and sets, to which everything about runs applies: it leaves the mask that its
      interleaving leaves. */
  lemma EndIsRun(mask: bv32, me: nat, w: Want, timeout: Ticks, world: seq<Slice>, e: Exit)
    requires EndsAs(mask, w, timeout, world, e)
    ensures Run(mask, StepsOf(me, w, world, e)) == e.mask
  {
    hide Want.MetBy, Run, Step.After;
    match e
    case GaveUp(k, _, _) =>
      TurnsUndisturbed(mask, me, w, world, k + 1);
    case Met(k, actual, _) =>
      TurnsUndisturbed(mask, me, w, world, k);
      RunAppend(mask, Turns(me, w, world, k), [Poll(me, w)]);
      LastPoll(actual, me, w);
    case Polling(after) =>
      TurnsUndisturbed(mask, me, w, world, |world|);
      RunAppend(mask, Turns(me, w, world, |world|), [Poll(me, w)]);
      LastPoll(after, me, w);
  }

  lemma LastPoll(mask: bv32, me: nat, w: Want)
    ensures Run(mask, [Poll(me, w)]) == w.After(mask)
    ensures !w.MetBy(mask) ==> w.After(mask) == mask
  {
    assert [Poll(me, w)][1..] == [];
  }

  function Timeout(wait: Ticks, stale: Ticks, start: Ticks): Ticks {
    if wait == TX_NO_WAIT then start else if wait == TX_WAIT_FOREVER then INFINITE else stale
  }

  function StatusAt(timeout: Ticks, finish: Ticks): Status {
    if finish >= timeout then NoEvents else Success
  }

  /** The loop is about to make its `k`-th poll. */
  predicate Looping(mask: bv32, w: Want, timeout: Ticks, world: seq<Slice>, k: nat, current: bv32) {
    && k <= |world| && current == Undisturbed(mask, world, k) && UnmetBefore(mask, w, world, k)
    && (forall i | 0 <= i < k :: world[i].tick < timeout)
  }

  lemma PollOutcome(mask: bv32, w: Want, timeout: Ticks, world: seq<Slice>, k: nat, current: bv32)
    requires Looping(mask, w, timeout, world, k, current)
    ensures w.MetBy(current) ==> EndsAs(mask, w, timeout, world, Met(k, current, w.After(current)))
    ensures !w.MetBy(current) ==> w.After(current) == current
    ensures !w.MetBy(current) && k == |world| ==> EndsAs(mask, w, timeout, world, Polling(current))
    ensures !w.MetBy(current) && k < |world| ==>
              var next := Run(current, world[k].steps);
              if world[k].tick < timeout then Looping(mask, w, timeout, world, k + 1, next)
              else EndsAs(mask, w, timeout, world, GaveUp(k, current, next))
  {
    hide Run, Want.MetBy;
  }

  class Group {
    var current: bv32

    constructor ()
      ensures current == 0
    {
      current := 0;
    }

    method SetFlags(flags: bv32, option: bv32)
      modifies this
      ensures current == Set(flags, option).After(old(current))
    {
      hide Union, Common;
      if option == TX_OR {
        current := Union(current, flags);
      } else if option == TX_AND {
        current := Common(current, flags);
      }
    }

    /** One pass through the critical section of a get.  Bit 1 of the option asks for all flags, bit 0 for clearing. */
    method TryGet(w: Want) returns (met: bool, actual: bv32)
      modifies this
      ensures actual == old(current) && met == w.MetBy(old(current)) && current == w.After(old(current))
    {
      hide Common, Without;
      var flags := current;
      actual := flags;
      var satisfied := Common(flags, w.requested);
      if Common(w.option, TX_AND) == TX_AND && satisfied != w.requested {
        satisfied := 0;
      }
      if satisfied != 0 {
        if Common(w.option, CLEAR_MASK) != 0 {
          flags := Without(flags, w.requested);
          current := flags;
        }
      }
      met := satisfied != 0;
    }

    /** The other threads' steps. */
    method Others(steps: seq<Step>)
      modifies this
      ensures current == Run(old(current), steps)
    {
      for i := 0 to |steps|
        invariant Run(current, steps[i..]) == Run(old(current), steps)
      {
        match steps[i]
        case Set(flags, option) =>
          SetFlags(flags, option);
        case Poll(_, want) =>
          var met, actual := TryGet(want);
        assert steps[i..][1..] == steps[i + 1..];
      }
    }

    /**
     A get of `w` by `me`, among other threads that behave as `world` says: one interleaving of steps.  `stale` is
     whatever the uninitialised local `timeout` holds, `start` and `finish` are the tick counts read before and after
     the loop.
     */
    method Get(ghost me: nat, w: Want, wait: Ticks, stale: Ticks, start: Ticks, world: seq<Slice>, finish: Ticks)
      returns (status: Status, e: Exit)
      modifies this
      ensures current == Run(old(current), StepsOf(me, w, world, e))
      ensures EndsAs(old(current), w, Timeout(wait, stale, start), world, e) && current == e.mask
      ensures status == StatusAt(Timeout(wait, stale, start), finish)
    {
      hide EndsAs, Looping, Run, StepsOf, Want.MetBy, Want.After;
      var timeout := if wait == TX_WAIT_FOREVER then INFINITE else stale;
      timeout := if wait == TX_NO_WAIT then start else timeout;
      status := if finish >= timeout then NoEvents else Success;
      var k := 0;
      ghost var mask := current;
      StartsLooping(mask, w, timeout, world);
      while true
        invariant k <= |world| && Looping(mask, w, timeout, world, k, current)
        decreases |world| - k
      {
        PollOutcome(mask, w, timeout, world, k, current);
        var met, actual := TryGet(w);
        if met {
          e := Met(k, actual, current);
          break;
        } else if k == |world| {
          e := Polling(current);
          break;
        }
        Others(world[k].steps);
        if world[k].tick >= timeout {
          e := GaveUp(k, actual, current);
          break;
        }
        k := k + 1;
      }
      EndIsRun(mask, me, w, timeout, world, e);
    }
  }

  /** What a satisfied get does, in options and bits: the mask it reports has the flags it asked for, and it leaves that mask,
      without the requested flags exactly if bit 0 of its option is set. */
  lemma SatisfiedGet(mask: bv32, w: Want, timeout: Ticks, world: seq<Slice>, k: nat, actual: bv32, next: bv32)
    requires EndsAs(mask, w, timeout, world, Met(k, actual, next))
    ensures w.requested != 0
    ensures if w.option & 2 != 0 then actual & w.requested == w.requested else actual & w.requested != 0
    ensures next == if w.option & 1 != 0 then actual & !w.requested else actual
  {
    hide Want.MetBy, Want.After;
    MetMeansBits(w, actual, next);
  }

  /** What the ticks say about a get: it gives up when they reach the timeout, and polls on only while they have not; and it
      reports "no events" exactly if they have at the end.  The timeout is the tick count at the start without waiting,
      0xFFFFFFFF when waiting forever, and otherwise left to chance. */
  lemma GetInTicks(mask: bv32, w: Want, wait: Ticks, stale: Ticks, start: Ticks, world: seq<Slice>, finish: Ticks, e: Exit)
    requires EndsAs(mask, w, Timeout(wait, stale, start), world, e)
    ensures var timeout := if wait == 0 then start else if wait == 0xFFFF_FFFF then 0xFFFF_FFFF else stale;
            && (StatusAt(Timeout(wait, stale, start), finish) == NoEvents <==> finish >= timeout)
            && (e.GaveUp? ==> e.round < |world| && world[e.round].tick >= timeout)
            && forall i | 0 <= i < (if e.Polling? then |world| else e.round) && i < |world| :: world[i].tick < timeout
  {
    hide Want.MetBy, Want.After;
  }

  lemma MetMeansBits(w: Want, actual: bv32, next: bv32)
    requires w.MetBy(actual) && next == w.After(actual)
    ensures w.requested != 0
    ensures if w.option & 2 != 0 then actual & w.requested == w.requested else actual & w.requested != 0
    ensures next == if w.option & 1 != 0 then actual & !w.requested else actual
  {
    hide Want.MetBy, Want.After;
    MetMeaning(w, actual);
    PollLeft(w, actual, true, next);
  }

  lemma StartsLooping(mask: bv32, w: Want, timeout: Ticks, world: seq<Slice>)
    ensures Looping(mask, w, timeout, world, 0, mask)
  {
  }

  /** Some poll, had it been made, would have been satisfied. */
  predicate EverMet(mask: bv32, w: Want, world: seq<Slice>) {
    exists k | 0 <= k <= |world| :: w.MetBy(Undisturbed(mask, world, k))
  }

  /** Waiting forever, with tick counts below the infinite one, a get returns only from a round that satisfied it, and then
      with success; and it does return once there is such a round. */
  lemma ForeverMeansMet(mask: bv32, w: Want, stale: Ticks, start: Ticks, world: seq<Slice>, finish: Ticks, e: Exit)
    requires EndsAs(mask, w, Timeout(TX_WAIT_FOREVER, stale, start), world, e)
    requires finish < INFINITE && forall i | 0 <= i < |world| :: world[i].tick < INFINITE
    ensures !e.GaveUp? && StatusAt(Timeout(TX_WAIT_FOREVER, stale, start), finish) == Success
    ensures e.Met? <==> EverMet(mask, w, world)
  {
    hide Want.MetBy, Want.After;
    if e.Met? {
      assert w.MetBy(Undisturbed(mask, world, e.round));
    }
  }

  /** Without waiting there is exactly one poll, and as long as ticks do not run backwards the status is "no events" even
      when that poll was satisfied and consumed the flags. */
  lemma NoWaitPollsOnce(mask: bv32, w: Want, stale: Ticks, start: Ticks, world: seq<Slice>, finish: Ticks, e: Exit)
    requires EndsAs(mask, w, Timeout(TX_NO_WAIT, stale, start), world, e)
    requires start <= finish && world != [] && start <= world[0].tick
    ensures !e.Polling? && e.round == 0 && e.actual == mask
    ensures e.Met? <==> w.MetBy(mask)
    ensures e.mask == if w.MetBy(mask) then w.After(mask) else Run(mask, world[0].steps)
    ensures StatusAt(Timeout(TX_NO_WAIT, stale, start), finish) == NoEvents
  {
    assert Undisturbed(mask, world, 0) == mask;
    assert Undisturbed(mask, world, 1) == Run(mask, world[0].steps);
  }

  // ----- No lost wake-up -----

  /** The step takes away one of the given flags. */
  predicate Removes(mask: bv32, s: Step, flags: bv32) {
    Without(Common(mask, flags), s.After(mask)) != 0
  }

  /** Only an AND-set, or a clearing poll that is satisfied, takes a flag away. */
  lemma OnlyTakersRemove(mask: bv32, s: Step, flags: bv32)
    requires Removes(mask, s, flags)
    ensures if s.Set? then s.option == TX_AND else s.want.Clears() && s.want.MetBy(mask)
  {
    hide Common, Without, Union;
    NothingRemoved(mask, flags, if s.Set? then s.flags else 0);
  }

  lemma NothingRemoved(mask: bv32, flags: bv32, more: bv32)
    ensures Without(Common(mask, flags), mask) == 0 && Without(Common(mask, flags), Union(mask, more)) == 0
  {
  }

  lemma KeepsCommon(mask: bv32, next: bv32, requested: bv32)
    requires Without(Common(mask, requested), next) == 0
    ensures Common(mask, requested) == requested ==> Common(next, requested) == requested
    ensures Common(mask, requested) != 0 ==> Common(next, requested) != 0
  {
  }

  /** Once satisfied, a request stays satisfied until somebody takes one of its flags away. */
  lemma {:induction false} StaysMet(mask: bv32, w: Want, steps: seq<Step>)
    requires w.MetBy(mask)
    requires forall i | 0 <= i < |steps| :: !Removes(At(mask, steps, i), steps[i], w.requested)
    ensures w.MetBy(Run(mask, steps))
    decreases |steps|
  {
    hide Want.MetBy, Step.After;
    if steps == [] {
    } else {
      var early := steps[..|steps| - 1];
      assert forall i | 0 <= i < |early| :: early[..i] == steps[..i];
      assert forall i | 0 <= i < |early| :: At(mask, early, i) == At(mask, steps, i);
      StaysMet(mask, w, early);
      OneStep(mask, steps, |steps| - 1);
      assert steps[..|steps|] == steps;
      StaysMetStep(Run(mask, early), w, steps[|steps| - 1]);
    }
  }

  lemma StaysMetStep(mask: bv32, w: Want, s: Step)
    requires w.MetBy(mask) && !Removes(mask, s, w.requested)
    ensures w.MetBy(s.After(mask))
  {
    hide Step.After, Common, Without, Want.WantsAll;
    KeepsCommon(mask, s.After(mask), w.requested);
  }

  /** If the request is satisfied at any moment of slice `j` and nobody takes one of its flags away in the rest of that
      slice, a get that waits forever has returned by the poll that follows, if not before. */
  lemma NoLostWakeUp(mask: bv32, w: Want, stale: Ticks, start: Ticks, world: seq<Slice>, e: Exit, j: nat, p: nat)
    requires EndsAs(mask, w, Timeout(TX_WAIT_FOREVER, stale, start), world, e)
    requires forall i | 0 <= i < |world| :: world[i].tick < INFINITE
    requires j < |world| && p <= |world[j].steps|
    requires var m := At(Undisturbed(mask, world, j), world[j].steps, p);
             var rest := world[j].steps[p..];
             w.MetBy(m) && forall i | 0 <= i < |rest| :: !Removes(At(m, rest, i), rest[i], w.requested)
    ensures e.Met? && e.round <= j + 1
  {
    hide Want.MetBy, Step.After, Removes;
    var now := Undisturbed(mask, world, j);
    var early, rest := world[j].steps[..p], world[j].steps[p..];
    StaysMet(At(now, world[j].steps, p), w, rest);
    assert early + rest == world[j].steps;
    RunAppend(now, early, rest);
    assert w.MetBy(Undisturbed(mask, world, j + 1));
  }
}
