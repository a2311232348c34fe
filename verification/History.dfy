/**
 Whole runs of driver commands, from a program start in which every table
 entry is zero.
 */
module History {
  import opened Frame
  import opened Netx
  import opened Table
  import opened Fanout

  predicate AllKnown(net: Net, reqs: seq<Request>) {
    forall i | 0 <= i < |reqs| :: Known(net, reqs[i])
  }

  /** The state after the requests have been handled in order. */
  function Run(net: Net, reqs: seq<Request>): (o: Net)
    requires AllKnown(net, reqs)
    ensures |o.slots| == |net.slots| && o.nics.Keys == net.nics.Keys && o.ips == net.ips
  {
    if reqs == [] then net else
      KnownThroughout(net, Run(net, Early(reqs)), Last(reqs));
      Apply(Run(net, Early(reqs)), Last(reqs)).net
  }

  function Early<T>(s: seq<T>): seq<T>
    requires s != []
  {
    s[..|s| - 1]
  }

  function Last<T>(s: seq<T>): T
    requires s != []
  {
    s[|s| - 1]
  }

  lemma KnownThroughout(net: Net, later: Net, r: Request)
    requires Known(net, r) && later.nics.Keys == net.nics.Keys && later.ips == net.ips
    ensures Known(later, r)
  {
    assert forall a :: a in net.nics <==> a in later.nics.Keys;
  }

  /** The last request of a run and the state it meets. */
  function Before(net: Net, reqs: seq<Request>): (s: Net)
    requires reqs != [] && AllKnown(net, reqs)
    ensures Known(s, Last(reqs)) && |s.slots| == |net.slots|
  {
    KnownThroughout(net, Run(net, Early(reqs)), Last(reqs));
    Run(net, Early(reqs))
  }

  /** The statuses reported along the way. */
  function Statuses(net: Net, reqs: seq<Request>): (s: seq<Status>)
    requires AllKnown(net, reqs)
    ensures |s| == |reqs|
  {
    if reqs == [] then [] else Statuses(net, Early(reqs)) + [Apply(Before(net, reqs), Last(reqs)).status]
  }

  lemma NoRequests(net: Net, reqs: seq<Request>)
    ensures AllKnown(net, reqs[..0]) && Run(net, reqs[..0]) == net && Statuses(net, reqs[..0]) == []
  {
  }

  lemma OneMoreRequest(net: Net, reqs: seq<Request>, n: nat)
    requires AllKnown(net, reqs) && n < |reqs|
    ensures AllKnown(net, reqs[..n + 1]) && Known(Run(net, reqs[..n]), reqs[n])
    ensures var o := Apply(Run(net, reqs[..n]), reqs[n]);
            Run(net, reqs[..n + 1]) == o.net && Statuses(net, reqs[..n + 1]) == Statuses(net, reqs[..n]) + [o.status]
  {
    hide Apply;
    assert Early(reqs[..n + 1]) == reqs[..n];
    KnownThroughout(net, Run(net, reqs[..n]), reqs[n]);
  }

  predicate Boot(net: Net, groups: nat) {
    net.slots == BlankTable(|net.slots|, groups)
  }

  lemma {:induction false} RunKeepsSound(net: Net, reqs: seq<Request>)
    requires AllKnown(net, reqs) && Sound(net.slots)
    ensures Sound(Run(net, reqs).slots)
  {
    hide Apply, Sound;
    if reqs == [] {
    } else {
      RunKeepsSound(net, Early(reqs));
      ApplyKeepsSound(Before(net, reqs), Last(reqs));
    }
  }

  // ----- An absent pair -----

  lemma OnlyAttachOpens(net: Net, r: Request, k: nat)
    requires Known(net, r)
    ensures ChangeOf(net, r, k).Opened? ==> r.command.Attach?
  {
  }

  lemma AbsentStays(net: Net, r: Request, ip: Address, nic: Address)
    requires Known(net, r) && Sound(net.slots)
    requires Lookup(net.slots, ip, nic) == |net.slots|
    requires !(r.command.Attach? && r.ip == ip && r.nic == nic)
    ensures Lookup(Apply(net, r).net.slots, ip, nic) == |net.slots|
  {
    hide Apply, ChangeOf, SoundSlot;
    var next := Apply(net, r).net.slots;
    forall j | 0 <= j < |next| ensures !Matches(next[j], ip, nic) {
      PairKept(net, r, j);
      OnlyAttachOpens(net, r, j);
      assert !Matches(net.slots[j], ip, nic);
    }
  }

  /** Attach a pair that is not attached and detach it again: the table is back, and until the pair is attached anew
      every other command on it is refused, whatever else happens in between. */
  lemma {:induction false} DetachedPairIsRefused(net: Net, ip: Address, nic: Address, back: Command,
                                                 between: seq<Request>, r: Request)
    requires back.Detach? || back.Uninitialize?
    requires Known(net, Request(Attach, ip, nic, ZERO_MAC)) && Sound(net.slots)
    requires FreeSlot(net.slots) < |net.slots| && Lookup(net.slots, ip, nic) == |net.slots|
    requires AllKnown(net, between) && Known(net, r)
    requires forall i | 0 <= i < |between| :: !(between[i].command.Attach? && between[i].ip == ip && between[i].nic == nic)
    requires r.ip == ip && r.nic == nic && !r.command.Attach?
    ensures var attached := Apply(net, Request(Attach, ip, nic, ZERO_MAC)).net;
            var detached := Apply(attached, Request(back, ip, nic, ZERO_MAC)).net;
            && detached == net
            && Known(Run(detached, between), r)
            && Apply(Run(detached, between), r) == Outcome(Run(detached, between), InvalidInterface)
  {
    DetachUndoesAttach(net, ip, nic, back);
    AbsentThroughout(net, between, ip, nic);
    KnownThroughout(net, Run(net, between), r);
  }

  lemma {:induction false} AbsentThroughout(net: Net, reqs: seq<Request>, ip: Address, nic: Address)
    requires AllKnown(net, reqs) && Sound(net.slots)
    requires Lookup(net.slots, ip, nic) == |net.slots|
    requires forall i | 0 <= i < |reqs| :: !(reqs[i].command.Attach? && reqs[i].ip == ip && reqs[i].nic == nic)
    ensures Lookup(Run(net, reqs).slots, ip, nic) == |net.slots|
  {
    hide Apply, Sound;
    if reqs == [] {
    } else {
      AbsentThroughout(net, Early(reqs), ip, nic);
      RunKeepsSound(net, Early(reqs));
      AbsentStays(Before(net, reqs), Last(reqs), ip, nic);
    }
  }

  // ----- Groups -----

  /** What one request means for the multicast table of entry `k`. */
  datatype Change = Opened | Closed | Joined(m: Mac) | Left(m: Mac) | Same

  function ChangeOf(net: Net, r: Request, k: nat): Change
    requires Known(net, r)
  {
    var here := Lookup(net.slots, r.ip, r.nic) == k;
    var ok := Apply(net, r).status == Success;
    match r.command
    case Attach => if FreeSlot(net.slots) == k then Opened else Same
    case Detach | Uninitialize => if here then Closed else Same
    case MulticastJoin => if here && ok then Joined(r.address) else Same
    case MulticastLeave => if here && ok then Left(r.address) else Same
    case _ => Same
  }

  /** Successful joins of `g` less successful leaves of it that reached entry `k` since it was last attached. */
  function NetJoins(net: Net, reqs: seq<Request>, k: nat, g: Mac): int
    requires AllKnown(net, reqs)
  {
    if reqs == [] then 0 else
      var count := NetJoins(net, Early(reqs), k, g);
      match ChangeOf(Before(net, reqs), Last(reqs), k)
      case Opened => 0
      case Closed => 0
      case Joined(m) => if m == g then count + 1 else count
      case Left(m) => if m == g then count - 1 else count
      case Same => count
  }

  /** Entry `t` is what the change makes of entry `s`. */
  predicate Follows(s: Slot, t: Slot, c: Change) {
    match c
    case Opened => !s.inUse && t.inUse && t.mcast == s.mcast
    case Closed => !t.inUse
    case Joined(m) =>
      var p := PlaceOf(s.mcast, ZERO_MAC);
      t.inUse == s.inUse && p < |s.mcast| && t.mcast == s.mcast[p := m]
    case Left(m) =>
      var p := PlaceOf(s.mcast, m);
      t.inUse == s.inUse && p < |s.mcast| && t.mcast == s.mcast[p := ZERO_MAC]
    case Same => t.inUse == s.inUse && t.mcast == s.mcast
  }

  lemma AttachFollows(net: Net, r: Request, k: nat)
    requires Known(net, r) && k < |net.slots| && r.command.Attach?
    ensures Follows(net.slots[k], Apply(net, r).net.slots[k], ChangeOf(net, r, k))
  {
    hide SimulatedMac;
  }

  lemma GroupCommandFollows(net: Net, r: Request, k: nat)
    requires Known(net, r) && k < |net.slots| && (r.command.MulticastJoin? || r.command.MulticastLeave?)
    ensures Follows(net.slots[k], Apply(net, r).net.slots[k], ChangeOf(net, r, k))
  {
    hide PlaceOf;
  }

  lemma ChangeFollows(net: Net, r: Request, k: nat)
    requires Known(net, r) && k < |net.slots|
    ensures Follows(net.slots[k], Apply(net, r).net.slots[k], ChangeOf(net, r, k))
  {
    if r.command.Attach? {
      AttachFollows(net, r, k);
    } else if r.command.MulticastJoin? || r.command.MulticastLeave? {
      GroupCommandFollows(net, r, k);
    } else {
      OtherCommandFollows(net, r, k);
    }
  }

  lemma OtherCommandFollows(net: Net, r: Request, k: nat)
    requires Known(net, r) && k < |net.slots|
    requires !r.command.Attach? && !r.command.MulticastJoin? && !r.command.MulticastLeave?
    ensures Follows(net.slots[k], Apply(net, r).net.slots[k], ChangeOf(net, r, k))
  {
  }

  lemma CountAfterUpdate(s: seq<Mac>, k: nat, m: Mac, g: Mac)
    requires k < |s|
    ensures multiset(s[k := m])[g] == multiset(s)[g] - (if s[k] == g then 1 else 0) + (if m == g then 1 else 0)
  {
    assert s == s[..k] + [s[k]] + s[k + 1..];
    assert s[k := m] == s[..k] + [m] + s[k + 1..];
  }

  /** What a change does to the multiplicity of a nonzero address. */
  lemma CountFollows(s: Slot, t: Slot, c: Change, k: nat, g: Mac)
    requires SoundSlot(s, k) && SoundSlot(t, k) && Follows(s, t, c) && g != ZERO_MAC
    ensures multiset(t.mcast)[g] ==
      match c
      case Opened => 0
      case Closed => 0
      case Joined(m) => multiset(s.mcast)[g] + if m == g then 1 else 0
      case Left(m) => multiset(s.mcast)[g] - if m == g then 1 else 0
      case Same => multiset(s.mcast)[g]
  {
    BlankHasNoGroups(s, k, g);
    BlankHasNoGroups(t, k, g);
    match c
    case Joined(m) => CountAfterUpdate(s.mcast, PlaceOf(s.mcast, ZERO_MAC), m, g);
    case Left(m) => CountAfterUpdate(s.mcast, PlaceOf(s.mcast, m), ZERO_MAC, g);
    case _ =>
  }

  lemma BlankHasNoGroups(s: Slot, k: nat, g: Mac)
    requires SoundSlot(s, k) && g != ZERO_MAC
    ensures !s.inUse ==> multiset(s.mcast)[g] == 0
  {
    if !s.inUse {
      assert g !in Erased(s).mcast;
    }
  }

  /** The multicast table of every entry is its history: after any run, a nonzero address is there as often as it was
      joined and not left. */
  lemma {:induction false} GroupsAreHistory(net: Net, reqs: seq<Request>, groups: nat, k: nat, g: Mac)
    requires AllKnown(net, reqs) && Boot(net, groups)
    requires k < |net.slots| && g != ZERO_MAC
    ensures multiset(Run(net, reqs).slots[k].mcast)[g] == NetJoins(net, reqs, k, g)
  {
    hide Apply, SoundSlot, ChangeOf, Follows;
    if reqs == [] {
      BlankHasNoGroups(net.slots[k], k, g);
      assert !net.slots[k].inUse;
    } else {
      GroupsAreHistory(net, Early(reqs), groups, k, g);
      RunKeepsSound(net, Early(reqs));
      RunKeepsSound(net, reqs);
      var state := Before(net, reqs);
      ChangeFollows(state, Last(reqs), k);
      CountFollows(state.slots[k], Run(net, reqs).slots[k], ChangeOf(state, Last(reqs), k), k, g);
    }
  }

  /** Delivery agrees with history: a frame for an address that no filter accepts outright reaches each live entry other
      than the sender once per outstanding join of the address, as truncated by the header. */
  lemma DeliveryIsHistory(net: Net, reqs: seq<Request>, groups: nat, sender: nat, dst: Mac, k: nat)
    requires AllKnown(net, reqs) && Boot(net, groups)
    requires var slots := Run(net, reqs).slots;
             && k < |slots| && k != sender && slots[k].inUse
             && var g, own := Truncate(dst), slots[k].mac;
                && !(g.msw == 0xFFFF && g.lsw == 0xFFFF_FFFF) && g.msw != 0x3333 && !(g.msw == 0 && g.lsw == 0)
                && !(g.msw == own.msw && g.lsw == own.lsw)
    ensures var slots := Run(net, reqs).slots;
            multiset(Recipients(slots, sender, Truncate(dst), |slots|))[k] == NetJoins(net, reqs, k, Truncate(dst))
  {
    hide Accepts, Truncate;
    var slots := Run(net, reqs).slots;
    AcceptsInNumbers(slots[k], Truncate(dst));
    RecipientsExact(slots, sender, Truncate(dst), |slots|, k);
    GroupsAreHistory(net, reqs, groups, k, Truncate(dst));
  }

  // ----- The history an outsider keeps -----

  /** The same count kept by an observer who sees requests and statuses only, and knows nothing of the table. */
  function Ledger(net: Net, reqs: seq<Request>, ip: Address, nic: Address, g: Mac): int
    requires AllKnown(net, reqs)
  {
    if reqs == [] then 0 else
      var r := Last(reqs);
      var count := Ledger(net, Early(reqs), ip, nic, g);
      if r.ip != ip || r.nic != nic || Apply(Before(net, reqs), r).status != Success then count else
        match r.command
        case Attach | Detach | Uninitialize => 0
        case MulticastJoin => if r.address == g then count + 1 else count
        case MulticastLeave => if r.address == g then count - 1 else count
        case _ => count
  }

  /** A live entry after a request was either just opened for the request's pair, or was live for the same pair. */
  predicate KeepsPair(s: Slot, t: Slot, c: Change, r: Request) {
    t.inUse ==> if c.Opened? then t.ip == r.ip && t.nic == r.nic else s.inUse && t.ip == s.ip && t.nic == s.nic
  }

  lemma AttachKeepsPair(net: Net, r: Request, k: nat)
    requires Known(net, r) && k < |net.slots| && r.command.Attach?
    ensures KeepsPair(net.slots[k], Apply(net, r).net.slots[k], ChangeOf(net, r, k), r)
  {
    hide SimulatedMac;
  }

  lemma GroupCommandKeepsPair(net: Net, r: Request, k: nat)
    requires Known(net, r) && k < |net.slots| && (r.command.MulticastJoin? || r.command.MulticastLeave?)
    ensures KeepsPair(net.slots[k], Apply(net, r).net.slots[k], ChangeOf(net, r, k), r)
  {
    hide PlaceOf;
  }

  lemma OtherCommandKeepsPair(net: Net, r: Request, k: nat)
    requires Known(net, r) && k < |net.slots|
    requires !r.command.Attach? && !r.command.MulticastJoin? && !r.command.MulticastLeave?
    ensures KeepsPair(net.slots[k], Apply(net, r).net.slots[k], ChangeOf(net, r, k), r)
  {
  }

  lemma PairKept(net: Net, r: Request, k: nat)
    requires Known(net, r) && k < |net.slots|
    ensures KeepsPair(net.slots[k], Apply(net, r).net.slots[k], ChangeOf(net, r, k), r)
  {
    hide Apply, ChangeOf, KeepsPair;
    if r.command.Attach? {
      AttachKeepsPair(net, r, k);
    } else if r.command.MulticastJoin? || r.command.MulticastLeave? {
      GroupCommandKeepsPair(net, r, k);
    } else {
      OtherCommandKeepsPair(net, r, k);
    }
  }

  lemma OneOpens(net: Net, r: Request, j: nat, k: nat)
    requires Known(net, r) && j < k < |net.slots|
    ensures !(ChangeOf(net, r, j).Opened? && ChangeOf(net, r, k).Opened?)
    ensures ChangeOf(net, r, j).Opened? || ChangeOf(net, r, k).Opened? ==> r.command.Attach?
  {
  }

  // ----- Which pairs are attached -----

  /** The instances attached for a pair. */
  function LiveFor(slots: seq<Slot>, ip: Address, nic: Address): set<nat> {
    set k | 0 <= k < |slots| && Matches(slots[k], ip, nic)
  }

  /** What one request does to the number of attachments of a pair, judged by its status. */
  function Gain(net: Net, r: Request, ip: Address, nic: Address): int
    requires Known(net, r)
  {
    if r.ip != ip || r.nic != nic || Apply(net, r).status != Success then 0 else
      match r.command
      case Attach => 1
      case Detach | Uninitialize => -1
      case _ => 0
  }

  /** Successful attaches of a pair less successful detaches and uninitializes of it. */
  function Balance(net: Net, reqs: seq<Request>, ip: Address, nic: Address): int
    requires AllKnown(net, reqs)
  {
    if reqs == [] then 0 else
      Balance(net, Early(reqs), ip, nic) + Gain(Before(net, reqs), Last(reqs), ip, nic)
  }

  lemma LiveMembers(slots: seq<Slot>, ip: Address, nic: Address, k: nat)
    ensures k in LiveFor(slots, ip, nic) <==> k < |slots| && Matches(slots[k], ip, nic)
  {
  }

  lemma LiveAfterChange(a: seq<Slot>, b: seq<Slot>, k: nat, ip: Address, nic: Address)
    requires DifferAtMostAt(a, b, k) && k < |a|
    ensures |LiveFor(b, ip, nic)| == |LiveFor(a, ip, nic)| - (if Matches(a[k], ip, nic) then 1 else 0)
                                                          + (if Matches(b[k], ip, nic) then 1 else 0)
  {
    hide LiveFor, Matches;
    LiveMembers(a, ip, nic, k);
    LiveMembers(b, ip, nic, k);
    forall j ensures j in LiveFor(a, ip, nic) - {k} <==> j in LiveFor(b, ip, nic) - {k} {
      LiveMembers(a, ip, nic, j);
      LiveMembers(b, ip, nic, j);
    }
    assert LiveFor(a, ip, nic) - {k} == LiveFor(b, ip, nic) - {k};
    Without(LiveFor(a, ip, nic), k);
    Without(LiveFor(b, ip, nic), k);
  }

  lemma Without(s: set<nat>, k: nat)
    ensures |s| == |s - {k}| + if k in s then 1 else 0
  {
    if k in s {
      assert s == s - {k} + {k};
    } else {
      assert s == s - {k};
    }
  }

  lemma GainAtTouched(net: Net, r: Request, ip: Address, nic: Address)
    requires Known(net, r)
    ensures var k, next := Touched(net, r), Apply(net, r).net.slots;
            Gain(net, r, ip, nic) ==
              if k < |next| then
                (if Matches(next[k], ip, nic) then 1 else 0) - (if Matches(net.slots[k], ip, nic) then 1 else 0)
              else 0
  {
    hide SimulatedMac, PlaceOf;
  }

  /** The table has one live instance for each attachment of a pair that is still outstanding. */
  lemma {:induction false} BalanceIsLive(net: Net, reqs: seq<Request>, groups: nat, ip: Address, nic: Address)
    requires AllKnown(net, reqs) && Boot(net, groups)
    ensures Balance(net, reqs, ip, nic) == |LiveFor(Run(net, reqs).slots, ip, nic)|
  {
    hide Apply, Gain, Touched;
    if reqs == [] {
      assert LiveFor(net.slots, ip, nic) == {};
    } else {
      BalanceIsLive(net, Early(reqs), groups, ip, nic);
      var state, r := Before(net, reqs), Last(reqs);
      var next := Apply(state, r).net.slots;
      GainAtTouched(state, r, ip, nic);
      OneSlotChanges(state, r);
      if Touched(state, r) < |next| {
        LiveAfterChange(state.slots, next, Touched(state, r), ip, nic);
      } else {
        assert state.slots == next;
      }
    }
  }

  /** A request finds its instance exactly when its pair is attached according to the requests and statuses before it. */
  lemma FoundIffAttached(net: Net, reqs: seq<Request>, groups: nat, ip: Address, nic: Address)
    requires AllKnown(net, reqs) && Boot(net, groups)
    ensures Lookup(Run(net, reqs).slots, ip, nic) < |net.slots| <==> Balance(net, reqs, ip, nic) > 0
  {
    BalanceIsLive(net, reqs, groups, ip, nic);
    var slots := Run(net, reqs).slots;
    var i := Lookup(slots, ip, nic);
    if i < |slots| {
      assert i in LiveFor(slots, ip, nic);
    } else {
      assert LiveFor(slots, ip, nic) == {};
    }
  }

  /** No two live instances are attached for the pair. */
  predicate Alone(slots: seq<Slot>, ip: Address, nic: Address) {
    forall j, k | 0 <= j < k < |slots| :: !Matches(slots[j], ip, nic) || !Matches(slots[k], ip, nic)
  }

  lemma AtMostOneIsAlone(net: Net, reqs: seq<Request>, groups: nat, ip: Address, nic: Address)
    requires AllKnown(net, reqs) && Boot(net, groups) && Balance(net, reqs, ip, nic) <= 1
    ensures Alone(Run(net, reqs).slots, ip, nic)
  {
    BalanceIsLive(net, reqs, groups, ip, nic);
    var slots := Run(net, reqs).slots;
    forall j, k | 0 <= j < k < |slots| ensures !Matches(slots[j], ip, nic) || !Matches(slots[k], ip, nic) {
      if Matches(slots[j], ip, nic) && Matches(slots[k], ip, nic) {
        TwoMembers(LiveFor(slots, ip, nic), j, k);
      }
    }
  }

  lemma TwoMembers(s: set<nat>, j: nat, k: nat)
    requires j in s && k in s && j != k
    ensures |s| >= 2
  {
    Without(s, j);
    Without(s - {j}, k);
  }

  /** Entry `k` is the one that requests about its pair reach. */
  predicate Reached(slots: seq<Slot>, k: nat)
    requires k < |slots|
  {
    Lookup(slots, slots[k].ip, slots[k].nic) == k
  }

  /** How long the run was when the pair was last attached, detached or uninitialized. */
  function Reset(net: Net, reqs: seq<Request>, ip: Address, nic: Address): (n: nat)
    requires AllKnown(net, reqs)
    ensures n <= |reqs|
  {
    if reqs == [] then 0
    else if Gain(Before(net, reqs), Last(reqs), ip, nic) != 0 then |reqs|
    else Reset(net, Early(reqs), ip, nic)
  }

  /** Joins of `g` at entry `k` that were outstanding when its pair was last attached, detached or uninitialized. */
  function Residue(net: Net, reqs: seq<Request>, k: nat, ip: Address, nic: Address, g: Mac): int
    requires AllKnown(net, reqs)
  {
    NetJoins(net, reqs[..Reset(net, reqs, ip, nic)], k, g)
  }

  lemma SameMatchesSameLookup(a: seq<Slot>, b: seq<Slot>, ip: Address, nic: Address)
    requires |a| == |b| && forall j | 0 <= j < |a| :: Matches(a[j], ip, nic) <==> Matches(b[j], ip, nic)
    ensures Lookup(a, ip, nic) == Lookup(b, ip, nic)
  {
    hide Matches;
    var i, j := Lookup(a, ip, nic), Lookup(b, ip, nic);
    assert i < |a| ==> Matches(b[i], ip, nic);
    assert j < |b| ==> Matches(a[j], ip, nic);
  }

  /** Requests that neither attach nor detach a pair leave its instances where they are. */
  lemma NoGainKeepsPair(net: Net, r: Request, ip: Address, nic: Address)
    requires Known(net, r) && Gain(net, r, ip, nic) == 0
    ensures var next := Apply(net, r).net.slots;
            && (forall j | 0 <= j < |next| :: Matches(net.slots[j], ip, nic) <==> Matches(next[j], ip, nic))
            && Lookup(net.slots, ip, nic) == Lookup(next, ip, nic)
  {
    hide Apply, Gain, Touched, Matches;
    var next := Apply(net, r).net.slots;
    GainAtTouched(net, r, ip, nic);
    OneSlotChanges(net, r);
    forall j | 0 <= j < |next| ensures Matches(net.slots[j], ip, nic) <==> Matches(next[j], ip, nic) {
    }
    SameMatchesSameLookup(net.slots, next, ip, nic);
  }

  /** Such a request moves the table's count exactly when it is about the pair and the pair's requests reach the entry. */
  lemma GroupStep(net: Net, r: Request, k: nat)
    requires Known(net, r) && k < |net.slots| && net.slots[k].inUse
    requires Gain(net, r, net.slots[k].ip, net.slots[k].nic) == 0
    ensures var s, ok := net.slots[k], Apply(net, r).status == Success;
            var mine := ok && r.ip == s.ip && r.nic == s.nic && Reached(net.slots, k);
            ChangeOf(net, r, k) == match r.command
                                   case MulticastJoin => if mine then Joined(r.address) else Same
                                   case MulticastLeave => if mine then Left(r.address) else Same
                                   case _ => Same
    ensures var s := net.slots[k];
            r.ip == s.ip && r.nic == s.nic && Apply(net, r).status == Success ==>
              !r.command.Attach? && !r.command.Detach? && !r.command.Uninitialize?
  {
    hide SimulatedMac, PlaceOf;
  }

  /** The table's count is the observer's plus what was there before the observer began to count; for an instance that the
      requests of its pair do not reach, it has not moved since. */
  lemma {:induction false} LedgerSinceReset(net: Net, reqs: seq<Request>, k: nat, g: Mac)
    requires AllKnown(net, reqs) && (forall j | 0 <= j < |net.slots| :: !net.slots[j].inUse)
    requires k < |net.slots| && Run(net, reqs).slots[k].inUse
    ensures var slots := Run(net, reqs).slots;
            var ip, nic := slots[k].ip, slots[k].nic;
            NetJoins(net, reqs, k, g)
            == Residue(net, reqs, k, ip, nic, g) + if Reached(slots, k) then Ledger(net, reqs, ip, nic, g) else 0
  {
    hide Apply, ChangeOf, Gain, Lookup;
    if reqs == [] {
    } else {
      var state, r := Before(net, reqs), Last(reqs);
      var t := Run(net, reqs).slots[k];
      assert t == Apply(state, r).net.slots[k];
      if Gain(state, r, t.ip, t.nic) != 0 {
        GainResets(net, reqs, t.ip, t.nic, g);
        assert reqs[..|reqs|] == reqs;
      } else {
        NoGainKeepsPair(state, r, t.ip, t.nic);
        assert Matches(t, t.ip, t.nic) && Matches(state.slots[k], t.ip, t.nic);
        LedgerSinceReset(net, Early(reqs), k, g);
        GroupStep(state, r, k);
        var n := Reset(net, Early(reqs), t.ip, t.nic);
        assert Early(reqs)[..n] == reqs[..n];
      }
    }
  }

  lemma GainResets(net: Net, reqs: seq<Request>, ip: Address, nic: Address, g: Mac)
    requires AllKnown(net, reqs) && reqs != [] && Gain(Before(net, reqs), Last(reqs), ip, nic) != 0
    ensures Ledger(net, reqs, ip, nic, g) == 0
  {
    hide Apply;
  }

  lemma NoneInUse(net: Net, groups: nat)
    requires Boot(net, groups)
    ensures forall j | 0 <= j < |net.slots| :: !net.slots[j].inUse
  {
  }

  /** For an instance that the requests of its pair reach, the observer's count is the table's if and only if nothing was
      outstanding there when the pair was last attached, detached or uninitialized. */
  lemma LedgerIsNetJoinsIff(net: Net, reqs: seq<Request>, groups: nat, k: nat, g: Mac)
    requires AllKnown(net, reqs) && Boot(net, groups)
    requires k < |net.slots| && Run(net, reqs).slots[k].inUse && Reached(Run(net, reqs).slots, k)
    ensures var s := Run(net, reqs).slots[k];
            NetJoins(net, reqs, k, g) == Ledger(net, reqs, s.ip, s.nic, g)
            <==> Residue(net, reqs, k, s.ip, s.nic, g) == 0
  {
    hide Run, NetJoins, Ledger, Residue;
    NoneInUse(net, groups);
    LedgerSinceReset(net, reqs, k, g);
  }

  /** Since it was last attached, the pair has not been attached twice at once. */
  predicate AttachedAlone(net: Net, reqs: seq<Request>, ip: Address, nic: Address)
    requires AllKnown(net, reqs)
  {
    && reqs != [] && Balance(net, reqs, ip, nic) <= 1
    && (Gain(Before(net, reqs), Last(reqs), ip, nic) == 1 || AttachedAlone(net, Early(reqs), ip, nic))
  }

  lemma AloneIsReached(slots: seq<Slot>, k: nat)
    requires k < |slots| && slots[k].inUse && Alone(slots, slots[k].ip, slots[k].nic)
    ensures Reached(slots, k)
  {
    var ip, nic := slots[k].ip, slots[k].nic;
    assert Matches(slots[k], ip, nic) && Matches(slots[Lookup(slots, ip, nic)], ip, nic);
  }

  /** An attach that leaves its pair attached once opens the one entry the pair then has. */
  lemma OpensOnly(net: Net, r: Request, k: nat)
    requires Known(net, r) && k < |net.slots|
    requires var t := Apply(net, r).net.slots[k];
             t.inUse && Gain(net, r, t.ip, t.nic) == 1 && Alone(Apply(net, r).net.slots, t.ip, t.nic)
    ensures ChangeOf(net, r, k).Opened?
  {
    hide SimulatedMac, PlaceOf;
    var next := Apply(net, r).net.slots;
    assert Matches(next[Touched(net, r)], r.ip, r.nic) && Matches(next[k], r.ip, r.nic);
  }

  /** A pair attached only once has left nothing behind. */
  lemma {:induction false} AloneLeavesNothing(net: Net, reqs: seq<Request>, groups: nat, k: nat, g: Mac)
    requires AllKnown(net, reqs) && Boot(net, groups)
    requires k < |net.slots| && Run(net, reqs).slots[k].inUse
    requires var s := Run(net, reqs).slots[k]; AttachedAlone(net, reqs, s.ip, s.nic)
    ensures var s := Run(net, reqs).slots[k];
            Reached(Run(net, reqs).slots, k) && Residue(net, reqs, k, s.ip, s.nic, g) == 0
  {
    hide Apply, ChangeOf, Gain, Alone, Lookup;
    var state, r := Before(net, reqs), Last(reqs);
    var t := Run(net, reqs).slots[k];
    assert t == Apply(state, r).net.slots[k];
    AtMostOneIsAlone(net, reqs, groups, t.ip, t.nic);
    AloneIsReached(Run(net, reqs).slots, k);
    if Gain(state, r, t.ip, t.nic) == 1 {
      OpensOnly(state, r, k);
      assert reqs[..|reqs|] == reqs;
    } else {
      StillThere(net, reqs, groups, k);
      NoGainKeepsPair(state, r, t.ip, t.nic);
      assert Matches(t, t.ip, t.nic) && Matches(state.slots[k], t.ip, t.nic);
      AloneLeavesNothing(net, Early(reqs), groups, k, g);
      var n := Reset(net, Early(reqs), t.ip, t.nic);
      assert Early(reqs)[..n] == reqs[..n];
    }
  }

  /** A pair that was attached at most once and still has an instance has not just been detached. */
  lemma StillThere(net: Net, reqs: seq<Request>, groups: nat, k: nat)
    requires AllKnown(net, reqs) && Boot(net, groups) && reqs != []
    requires k < |net.slots| && Run(net, reqs).slots[k].inUse
    requires var s := Run(net, reqs).slots[k];
             AttachedAlone(net, Early(reqs), s.ip, s.nic) && Gain(Before(net, reqs), Last(reqs), s.ip, s.nic) != 1
    ensures var s := Run(net, reqs).slots[k]; Gain(Before(net, reqs), Last(reqs), s.ip, s.nic) == 0
  {
    hide Run;
    var s := Run(net, reqs).slots[k];
    FoundIffAttached(net, reqs, groups, s.ip, s.nic);
    assert Matches(s, s.ip, s.nic);
  }

  /** So the observer's count is the table's if the pair of entry `k` is attached only once. */
  lemma LedgerIsNetJoins(net: Net, reqs: seq<Request>, groups: nat, k: nat, g: Mac)
    requires AllKnown(net, reqs) && Boot(net, groups)
    requires k < |net.slots| && Run(net, reqs).slots[k].inUse
    requires var s := Run(net, reqs).slots[k]; AttachedAlone(net, reqs, s.ip, s.nic)
    ensures var s := Run(net, reqs).slots[k]; NetJoins(net, reqs, k, g) == Ledger(net, reqs, s.ip, s.nic, g)
  {
    hide Run, NetJoins, Ledger, Residue;
    AloneLeavesNothing(net, reqs, groups, k, g);
    LedgerIsNetJoinsIff(net, reqs, groups, k, g);
  }

  /** Attached again while attached, a pair keeps its first instance's groups, and the observer has lost count. */
  lemma SecondAttachMisleads(net: Net, ip: Address, nic: Address, g: Mac)
    requires Boot(net, 3) && |net.slots| == 4 && nic != NULL && nic in net.nics && g != ZERO_MAC
    ensures var reqs := [Request(Attach, ip, nic, ZERO_MAC), Request(MulticastJoin, ip, nic, g),
                         Request(Attach, ip, nic, ZERO_MAC)];
            && Matches(Run(net, reqs).slots[0], ip, nic)
            && NetJoins(net, reqs, 0, g) == 1 && Ledger(net, reqs, ip, nic, g) == 0
  {
    hide Apply, ChangeOf, Run, NetJoins, Ledger, AllKnown;
    var attach, join := Request(Attach, ip, nic, ZERO_MAC), Request(MulticastJoin, ip, nic, g);
    SecondAttachStates(net, ip, nic, g);
    NothingYet(net);
    OnceMore(net, [], attach, 0, g);
    assert [] + [attach] == [attach];
    OnceMore(net, [attach], join, 0, g);
    assert [attach] + [join] == [attach, join];
    OnceMore(net, [attach, join], attach, 0, g);
    assert [attach, join] + [attach] == [attach, join, attach];
  }

  lemma NothingYet(net: Net)
    ensures AllKnown(net, []) && Run(net, []) == net
  {
  }

  lemma OnceMore(net: Net, reqs: seq<Request>, r: Request, k: nat, g: Mac)
    requires AllKnown(net, reqs) && Known(net, r)
    ensures AllKnown(net, reqs + [r]) && Known(Run(net, reqs), r)
    ensures Run(net, reqs + [r]) == Apply(Run(net, reqs), r).net
    ensures NetJoins(net, reqs + [r], k, g) ==
      match ChangeOf(Run(net, reqs), r, k)
      case Opened | Closed => 0
      case Joined(m) => NetJoins(net, reqs, k, g) + if m == g then 1 else 0
      case Left(m) => NetJoins(net, reqs, k, g) - if m == g then 1 else 0
      case Same => NetJoins(net, reqs, k, g)
    ensures r.command.Attach? && Apply(Run(net, reqs), r).status == Success ==> Ledger(net, reqs + [r], r.ip, r.nic, g) == 0
  {
    hide Apply, ChangeOf;
    assert Early(reqs + [r]) == reqs;
  }

  /** The states that run goes through. */
  lemma SecondAttachStates(net: Net, ip: Address, nic: Address, g: Mac)
    requires Boot(net, 3) && |net.slots| == 4 && nic != NULL && nic in net.nics && g != ZERO_MAC
    ensures var attach, join := Request(Attach, ip, nic, ZERO_MAC), Request(MulticastJoin, ip, nic, g);
            var one := Apply(net, attach).net;
            var two := Apply(one, join).net;
            var three := Apply(two, attach);
            && ChangeOf(net, attach, 0) == Opened && ChangeOf(one, join, 0) == Joined(g) && ChangeOf(two, attach, 0) == Same
            && Matches(three.net.slots[0], ip, nic) && three.status == Success
  {
    hide SimulatedMac;
    var attach, join := Request(Attach, ip, nic, ZERO_MAC), Request(MulticastJoin, ip, nic, g);
    var one := Apply(net, attach).net;
    assert !net.slots[0].inUse;
    assert Matches(one.slots[0], ip, nic) && !one.slots[1].inUse && one.slots[0].mcast[0] == ZERO_MAC;
    assert Lookup(one.slots, ip, nic) == 0;
    var two := Apply(one, join).net;
    assert Matches(two.slots[0], ip, nic) && !two.slots[1].inUse;
  }

  /** How far an outsider can predict the network: of an address no filter accepts outright, a live instance other than the
      sender gets what was outstanding there when its (IP, interface) pair was last attached, detached or uninitialized,
      and, if the pair's requests reach it, what the pair was seen to join and not to leave since. */
  lemma DeliverySinceReset(net: Net, reqs: seq<Request>, groups: nat, sender: nat, dst: Mac, k: nat)
    requires AllKnown(net, reqs) && Boot(net, groups)
    requires var slots := Run(net, reqs).slots;
             && k < |slots| && k != sender && slots[k].inUse
             && var g, own := Truncate(dst), slots[k].mac;
                && !(g.msw == 0xFFFF && g.lsw == 0xFFFF_FFFF) && g.msw != 0x3333 && !(g.msw == 0 && g.lsw == 0)
                && !(g.msw == own.msw && g.lsw == own.lsw)
    ensures var slots, g := Run(net, reqs).slots, Truncate(dst);
            var ip, nic := slots[k].ip, slots[k].nic;
            var delivered, seen := multiset(Recipients(slots, sender, g, |slots|))[k], Ledger(net, reqs, ip, nic, g);
            && delivered == Residue(net, reqs, k, ip, nic, g) + (if Reached(slots, k) then seen else 0)
            && (Reached(slots, k) ==> (delivered == seen <==> Residue(net, reqs, k, ip, nic, g) == 0))
  {
    hide Run, NetJoins, Ledger, Residue, Recipients, Reached;
    DeliveryIsHistory(net, reqs, groups, sender, dst, k);
    NoneInUse(net, groups);
    LedgerSinceReset(net, reqs, k, Truncate(dst));
  }

  /** So it can be predicted altogether for a pair that is attached only once. */
  lemma DeliveryIsLedger(net: Net, reqs: seq<Request>, groups: nat, sender: nat, dst: Mac, k: nat)
    requires AllKnown(net, reqs) && Boot(net, groups)
    requires var slots := Run(net, reqs).slots;
             && k < |slots| && k != sender && slots[k].inUse && AttachedAlone(net, reqs, slots[k].ip, slots[k].nic)
             && var g, own := Truncate(dst), slots[k].mac;
                && !(g.msw == 0xFFFF && g.lsw == 0xFFFF_FFFF) && g.msw != 0x3333 && !(g.msw == 0 && g.lsw == 0)
                && !(g.msw == own.msw && g.lsw == own.lsw)
    ensures var slots := Run(net, reqs).slots;
            multiset(Recipients(slots, sender, Truncate(dst), |slots|))[k]
            == Ledger(net, reqs, slots[k].ip, slots[k].nic, Truncate(dst))
  {
    DeliveryIsHistory(net, reqs, groups, sender, dst, k);
    LedgerIsNetJoins(net, reqs, groups, k, Truncate(dst));
  }
}
