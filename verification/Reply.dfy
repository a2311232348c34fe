/**
 Answering a frame: the source address in a frame leads back to the instance
 that sent it and to no other, as long as nobody renames an instance, the
 sender stays attached, and no third instance joins its address.
 */
module Reply {
  import opened Words
  import opened Frame
  import opened Netx
  import opened Table
  import opened Fanout
  import opened History

  /** A request that keeps simulated addresses in place: it does not set an address, attaches an interface that is not
      attached yet, and initializes the interface it names. */
  predicate Plain(net: Net, r: Request)
    requires Known(net, r)
  {
    && !r.command.SetPhysicalAddress?
    && (r.command.Attach? ==> forall k | 0 <= k < |net.slots| :: net.slots[k].inUse ==> net.slots[k].nic != r.nic)
    && (r.command.Initialize? ==>
          net.nics[r.nic].index < |net.ips[r.ip]| && net.ips[r.ip][net.nics[r.nic].index] == r.nic)
  }

  predicate PlainRun(net: Net, reqs: seq<Request>)
    requires AllKnown(net, reqs)
  {
    reqs != [] ==> PlainRun(net, Early(reqs)) && Plain(Before(net, reqs), Last(reqs))
  }

  /** Entry `k` has been initialized since it was last attached. */
  predicate Initialized(net: Net, reqs: seq<Request>, k: nat)
    requires AllKnown(net, reqs)
  {
    reqs != [] &&
    var state, r := Before(net, reqs), Last(reqs);
    var c := ChangeOf(state, r, k);
    !c.Opened? && !c.Closed? &&
    (Initialized(net, Early(reqs), k) || (r.command.Initialize? && Lookup(state.slots, r.ip, r.nic) == k))
  }

  /** A live entry keeps its simulated address and has an interface block. */
  predicate OwnAddress(net: Net, k: nat)
    requires k < |net.slots|
  {
    net.slots[k].inUse ==> net.slots[k].mac == SimulatedMac(k) && net.slots[k].nic in net.nics
  }

  predicate NicsDistinct(slots: seq<Slot>) {
    forall j, k | 0 <= j < k < |slots| && slots[j].inUse && slots[k].inUse :: slots[j].nic != slots[k].nic
  }

  predicate Orderly(net: Net) {
    && Sound(net.slots)
    && NicsDistinct(net.slots)
    && (forall k | 0 <= k < |net.slots| :: OwnAddress(net, k))
  }

  lemma SimulatedIsOrdinary(k: nat)
    ensures SimulatedMac(k) != ZERO_MAC && SimulatedMac(k) != BROADCAST && SimulatedMac(k).msw != 0x3333
    ensures Truncate(SimulatedMac(k)) == SimulatedMac(k)
  {
  }

  lemma OwnAddressKept(net: Net, r: Request, k: nat)
    requires Known(net, r) && Plain(net, r) && k < |net.slots| && OwnAddress(net, k)
    ensures OwnAddress(Apply(net, r).net, k)
  {
    hide Apply, SimulatedMac;
    SlotKept(net, r, k);
    assert forall a :: a in net.nics <==> a in Apply(net, r).net.nics.Keys;
  }

  /** Unless an address is set, an entry keeps its address and interface, or is free, or has just been given its own. */
  lemma SlotKept(net: Net, r: Request, k: nat)
    requires Known(net, r) && !r.command.SetPhysicalAddress? && k < |net.slots|
    ensures var s, t := net.slots[k], Apply(net, r).net.slots[k];
            t.inUse ==> (s.inUse && t.mac == s.mac && t.nic == s.nic) || (t.mac == SimulatedMac(k) && t.nic == r.nic)
  {
    hide SimulatedMac, Apply;
    if r.command.Attach? {
      AttachKeepsSlot(net, r, k);
    } else {
      OtherCommandKeepsSlot(net, r, k);
    }
  }

  lemma AttachKeepsSlot(net: Net, r: Request, k: nat)
    requires Known(net, r) && r.command.Attach? && k < |net.slots|
    ensures var s, t := net.slots[k], Apply(net, r).net.slots[k];
            t == s || (t.mac == SimulatedMac(k) && t.nic == r.nic)
  {
    hide SimulatedMac;
  }

  lemma OtherCommandKeepsSlot(net: Net, r: Request, k: nat)
    requires Known(net, r) && !r.command.Attach? && !r.command.SetPhysicalAddress? && k < |net.slots|
    ensures var s, t := net.slots[k], Apply(net, r).net.slots[k];
            t.inUse ==> s.inUse && t.mac == s.mac && t.nic == s.nic
  {
    hide Apply, Lookup;
    OneSlotChanges(net, r);
    if k == Lookup(net.slots, r.ip, r.nic) {
      if r.command.MulticastJoin? || r.command.MulticastLeave? {
        GroupCommandKeepsFound(net, r, k);
      } else {
        OtherCommandKeepsFound(net, r, k);
      }
    }
  }

  lemma GroupCommandKeepsFound(net: Net, r: Request, k: nat)
    requires Known(net, r) && (r.command.MulticastJoin? || r.command.MulticastLeave?)
    requires k < |net.slots| && k == Lookup(net.slots, r.ip, r.nic)
    ensures var s, t := net.slots[k], Apply(net, r).net.slots[k];
            s.inUse && t.mac == s.mac && t.nic == s.nic
  {
    hide PlaceOf;
  }

  lemma OtherCommandKeepsFound(net: Net, r: Request, k: nat)
    requires Known(net, r) && !r.command.Attach? && !r.command.SetPhysicalAddress?
    requires !r.command.MulticastJoin? && !r.command.MulticastLeave?
    requires k < |net.slots| && k == Lookup(net.slots, r.ip, r.nic)
    ensures var s, t := net.slots[k], Apply(net, r).net.slots[k]; t.inUse ==> t == s && s.inUse
  {
  }

  lemma NicsStayDistinct(net: Net, r: Request)
    requires Known(net, r) && Plain(net, r) && NicsDistinct(net.slots)
    ensures NicsDistinct(Apply(net, r).net.slots)
  {
    hide Apply, ChangeOf, Follows;
    var next := Apply(net, r).net.slots;
    forall j, k | 0 <= j < k < |next| && next[j].inUse && next[k].inUse ensures next[j].nic != next[k].nic {
      PairKept(net, r, j);
      PairKept(net, r, k);
      OneOpens(net, r, j, k);
    }
  }

  lemma OrderlyKept(net: Net, r: Request)
    requires Known(net, r) && Plain(net, r) && Orderly(net)
    ensures Orderly(Apply(net, r).net)
  {
    hide Apply, Sound, NicsDistinct, OwnAddress, Plain;
    ApplyKeepsSound(net, r);
    NicsStayDistinct(net, r);
    var next := Apply(net, r).net;
    forall k | 0 <= k < |next.slots| ensures OwnAddress(next, k) {
      OwnAddressKept(net, r, k);
    }
  }

  lemma {:induction false} OrderlyThroughout(net: Net, reqs: seq<Request>, groups: nat)
    requires AllKnown(net, reqs) && Boot(net, groups) && PlainRun(net, reqs)
    ensures Orderly(Run(net, reqs))
  {
    hide Apply;
    if reqs == [] {
    } else {
      OrderlyThroughout(net, Early(reqs), groups);
      OrderlyKept(Before(net, reqs), Last(reqs));
    }
  }

  /** The interface block of entry `k` carries its simulated address. */
  predicate Configured(net: Net, k: nat) {
    k < |net.slots| && net.slots[k].inUse && net.slots[k].nic in net.nics
    && net.nics[net.slots[k].nic].physical == SimulatedMac(k)
  }

  lemma ConfiguredStep(net: Net, r: Request, k: nat)
    requires Known(net, r) && Plain(net, r) && Orderly(net) && k < |net.slots|
    requires !ChangeOf(net, r, k).Opened? && !ChangeOf(net, r, k).Closed?
    requires Configured(net, k) || (r.command.Initialize? && Lookup(net.slots, r.ip, r.nic) == k)
    ensures Configured(Apply(net, r).net, k)
  {
    hide SimulatedMac, Sound, PlaceOf;
    var i := Lookup(net.slots, r.ip, r.nic);
    assert OwnAddress(net, k);
    assert i < |net.slots| && i != k && net.slots[k].inUse ==> net.slots[k].nic != net.slots[i].nic;
  }

  lemma {:induction false} InitializedIsConfigured(net: Net, reqs: seq<Request>, groups: nat, k: nat)
    requires AllKnown(net, reqs) && Boot(net, groups) && PlainRun(net, reqs)
    requires k < |net.slots| && Initialized(net, reqs, k)
    ensures Configured(Run(net, reqs), k)
  {
    hide Apply, ChangeOf, Orderly, Configured, Plain;
    OrderlyThroughout(net, Early(reqs), groups);
    if Initialized(net, Early(reqs), k) {
      InitializedIsConfigured(net, Early(reqs), groups, k);
    }
    ConfiguredStep(Before(net, reqs), Last(reqs), k);
  }

  /** Entry `k` has joined the address of entry `a`. */
  predicate Joins(net: Net, k: nat, a: nat)
    requires k < |net.slots|
  {
    net.slots[k].inUse && SimulatedMac(a) in net.slots[k].mcast
  }

  /** A frame for a simulated address goes to the instance it belongs to, and to those that have joined it as a group. */
  lemma ShareOfSimulated(net: Net, sender: nat, a: nat, k: nat)
    requires Orderly(net) && |net.slots| <= 0x1_0000_0000
    requires a < |net.slots| && net.slots[a].inUse && sender != a && k < |net.slots|
    ensures k == a ==> Share(net.slots, sender, SimulatedMac(a), k) == 1
    ensures k != a ==> (Share(net.slots, sender, SimulatedMac(a), k) > 0 <==> k != sender && Joins(net, k, a))
  {
    hide SimulatedMac, Sound, NicsDistinct;
    SimulatedIsOrdinary(a);
    assert OwnAddress(net, k) && OwnAddress(net, a);
    if k != a && SimulatedMac(k) == SimulatedMac(a) {
      SimulatedMacInjective(k, a);
    }
  }

  lemma {:induction false} OnlyRecipient(slots: seq<Slot>, sender: nat, dst: Mac, a: nat, upTo: nat)
    requires upTo <= |slots|
    requires forall k | 0 <= k < |slots| :: Share(slots, sender, dst, k) == if k == a then 1 else 0
    ensures Recipients(slots, sender, dst, upTo) == if a < upTo then [a] else []
  {
    hide Share;
    if upTo == 0 {
    } else {
      OnlyRecipient(slots, sender, dst, a, upTo - 1);
    }
  }

  /** No live instance but `a` and `b` has joined the address of `a`. */
  predicate NobodyElseJoins(net: Net, a: nat, b: nat) {
    forall k | 0 <= k < |net.slots| && k != a && k != b :: !Joins(net, k, a)
  }

  lemma ReachesOnlyOwner(net: Net, a: nat, b: nat)
    requires Orderly(net) && a < |net.slots| <= 0x1_0000_0000 && net.slots[a].inUse && b != a
    ensures Recipients(net.slots, b, SimulatedMac(a), |net.slots|) == [a] <==> NobodyElseJoins(net, a, b)
  {
    hide SimulatedMac, Recipients, Share, Orderly, Joins;
    var dst, n := SimulatedMac(a), |net.slots|;
    forall k | 0 <= k < n
      ensures k == a ==> Share(net.slots, b, dst, k) == 1
      ensures k != a ==> (Share(net.slots, b, dst, k) > 0 <==> k != b && Joins(net, k, a))
    {
      ShareOfSimulated(net, b, a, k);
    }
    if NobodyElseJoins(net, a, b) {
      OnlyRecipient(net.slots, b, dst, a, n);
    } else {
      var k :| 0 <= k < n && k != a && k != b && Joins(net, k, a);
      RecipientsExact(net.slots, b, dst, n, k);
      assert multiset([a])[k] == 0;
    }
  }

  // ----- Between the frame and the answer -----

  /** How long the run was when entry `k` was last attached: which attachment of the entry this is. */
  function OpenedAt(net: Net, reqs: seq<Request>, k: nat): (n: nat)
    requires AllKnown(net, reqs)
    ensures n <= |reqs|
  {
    if reqs == [] then 0
    else if ChangeOf(Before(net, reqs), Last(reqs), k).Opened? then |reqs|
    else OpenedAt(net, Early(reqs), k)
  }

  predicate Detaches(r: Request, ip: Address, nic: Address) {
    (r.command.Detach? || r.command.Uninitialize?) && r.ip == ip && r.nic == nic
  }

  /** No request from the `n`-th on detaches or uninitializes the pair. */
  predicate NotDetached(reqs: seq<Request>, n: nat, ip: Address, nic: Address) {
    forall j | n <= j < |reqs| :: !Detaches(reqs[j], ip, nic)
  }

  /** A live entry stays live for its pair until a request detaches or uninitializes that pair. */
  lemma OpenStep(net: Net, r: Request, a: nat)
    requires Known(net, r) && NicsDistinct(net.slots) && a < |net.slots| && net.slots[a].inUse
    ensures var s, t := net.slots[a], Apply(net, r).net.slots[a];
            && !ChangeOf(net, r, a).Opened?
            && if Detaches(r, s.ip, s.nic) then !t.inUse else t.inUse && t.ip == s.ip && t.nic == s.nic
  {
    hide Apply, Follows, KeepsPair;
    DetachReaches(net, r, a);
    ChangeOfLive(net, r, a);
    ChangeFollows(net, r, a);
    PairKept(net, r, a);
    FollowsLive(net.slots[a], Apply(net, r).net.slots[a], ChangeOf(net, r, a), r);
  }

  lemma DetachReaches(net: Net, r: Request, a: nat)
    requires NicsDistinct(net.slots) && a < |net.slots| && net.slots[a].inUse
    ensures r.ip == net.slots[a].ip && r.nic == net.slots[a].nic <==> Lookup(net.slots, r.ip, r.nic) == a
  {
    if r.ip == net.slots[a].ip && r.nic == net.slots[a].nic {
      assert Matches(net.slots[a], r.ip, r.nic) && Matches(net.slots[Lookup(net.slots, r.ip, r.nic)], r.ip, r.nic);
    }
  }

  lemma ChangeOfLive(net: Net, r: Request, a: nat)
    requires Known(net, r) && a < |net.slots| && net.slots[a].inUse
    ensures !ChangeOf(net, r, a).Opened?
    ensures ChangeOf(net, r, a).Closed? <==>
              (r.command.Detach? || r.command.Uninitialize?) && Lookup(net.slots, r.ip, r.nic) == a
  {
    hide Apply;
  }

  lemma FollowsLive(s: Slot, t: Slot, c: Change, r: Request)
    requires s.inUse && Follows(s, t, c) && KeepsPair(s, t, c, r) && !c.Opened?
    ensures if c.Closed? then !t.inUse else t.inUse && t.ip == s.ip && t.nic == s.nic
  {
  }

  lemma OnlyOpeningRevives(net: Net, r: Request, a: nat)
    requires Known(net, r) && a < |net.slots| && !net.slots[a].inUse
    ensures Apply(net, r).net.slots[a].inUse ==> ChangeOf(net, r, a).Opened?
  {
    hide Apply, ChangeOf;
    ChangeFollows(net, r, a);
  }

  /** Entry `a` still belongs to the attachment it belonged to after `n` requests. */
  predicate SameAttachment(net: Net, reqs: seq<Request>, n: nat, a: nat)
    requires AllKnown(net, reqs) && n <= |reqs| && a < |net.slots|
  {
    Run(net, reqs).slots[a].inUse && OpenedAt(net, reqs, a) == OpenedAt(net, reqs[..n], a)
  }

  /** An attachment lasts exactly until its pair is detached or uninitialized. */
  lemma {:induction false} AttachmentLasts(net: Net, reqs: seq<Request>, n: nat, groups: nat, a: nat)
    requires AllKnown(net, reqs) && Boot(net, groups) && PlainRun(net, reqs)
    requires n <= |reqs| && a < |net.slots| && Run(net, reqs[..n]).slots[a].inUse
    ensures var s, t := Run(net, reqs[..n]).slots[a], Run(net, reqs).slots[a];
            if NotDetached(reqs, n, s.ip, s.nic) then
              SameAttachment(net, reqs, n, a) && t.ip == s.ip && t.nic == s.nic
            else
              !t.inUse || OpenedAt(net, reqs, a) > n
    decreases |reqs|
  {
    hide Apply, ChangeOf, Orderly, Plain, Detaches, Boot;
    if n == |reqs| {
      assert reqs[..n] == reqs;
    } else {
      var state, r := Before(net, reqs), Last(reqs);
      assert Early(reqs)[..n] == reqs[..n];
      AttachmentLasts(net, Early(reqs), n, groups, a);
      NicsDistinctAt(net, Early(reqs), groups);
      assert Run(net, reqs).slots == Apply(state, r).net.slots;
      var s := Run(net, reqs[..n]).slots[a];
      assert NotDetached(reqs, n, s.ip, s.nic) <==> NotDetached(Early(reqs), n, s.ip, s.nic) && !Detaches(r, s.ip, s.nic);
      if state.slots[a].inUse {
        OpenStep(state, r, a);
      } else {
        OnlyOpeningRevives(state, r, a);
      }
    }
  }

  lemma NicsDistinctAt(net: Net, reqs: seq<Request>, groups: nat)
    requires AllKnown(net, reqs) && Boot(net, groups) && PlainRun(net, reqs)
    ensures NicsDistinct(Run(net, reqs).slots)
  {
    hide Run;
    OrderlyThroughout(net, reqs, groups);
  }

  lemma {:induction false} PlainPrefix(net: Net, reqs: seq<Request>, n: nat)
    requires AllKnown(net, reqs) && PlainRun(net, reqs) && n <= |reqs|
    ensures AllKnown(net, reqs[..n]) && PlainRun(net, reqs[..n])
    decreases |reqs|
  {
    hide Apply, Plain;
    if n == |reqs| {
      assert reqs[..n] == reqs;
    } else {
      PlainPrefix(net, Early(reqs), n);
      assert Early(reqs)[..n] == reqs[..n];
    }
  }

  /** The source address a frame sent by entry `a` carries. */
  function SourceOf(net: Net, a: nat, dst: Mac, etherType: bv32, payload: seq<bv8>): Mac
    requires a < |net.slots| && net.slots[a].nic in net.nics
  {
    Source(Header(dst, net.nics[net.slots[a].nic].physical, etherType) + payload)
  }

  /** The source address of any frame that an initialized instance sends names it. */
  lemma SourceNamesSender(net: Net, reqs: seq<Request>, groups: nat, a: nat, dst: Mac, etherType: bv32, payload: seq<bv8>)
    requires AllKnown(net, reqs) && Boot(net, groups) && PlainRun(net, reqs)
    requires a < |net.slots| && Initialized(net, reqs, a) && Low16(etherType) == etherType
    ensures var s := Run(net, reqs);
            && s.slots[a].inUse && s.slots[a].nic in s.nics
            && SourceOf(s, a, dst, etherType, payload) == s.slots[a].mac == SimulatedMac(a)
  {
    hide Apply, SimulatedMac, Plain, Initialized, Header, Run;
    var s := Run(net, reqs);
    OrderlyThroughout(net, reqs, groups);
    InitializedIsConfigured(net, reqs, groups, a);
    assert OwnAddress(s, a);
    HeaderRoundTrip(dst, SimulatedMac(a), etherType, payload);
    SimulatedIsOrdinary(a);
  }

  /**
   An initialized instance sends a frame after the first `n` requests, and somebody else answers to its source address
   after all of them.  The answer reaches the instance as attached then, once, and reaches nobody else, exactly when
   its pair has not been detached or uninitialized in between and no third instance has joined its address by then.
   */
  lemma ReplyReachesSenderIff(net: Net, reqs: seq<Request>, n: nat, groups: nat, a: nat, b: nat,
                              dst: Mac, etherType: bv32, payload: seq<bv8>)
    requires AllKnown(net, reqs) && Boot(net, groups) && PlainRun(net, reqs) && n <= |reqs|
    requires a < |net.slots| <= 0x1_0000_0000 && b != a
    requires Initialized(net, reqs[..n], a) && Low16(etherType) == etherType
    ensures var s, later := Run(net, reqs[..n]), Run(net, reqs);
            && s.slots[a].nic in s.nics
            && var source := SourceOf(s, a, dst, etherType, payload);
               && source == s.slots[a].mac
               && (Recipients(later.slots, b, Truncate(source), |later.slots|) == [a] && SameAttachment(net, reqs, n, a)
                   <==> NotDetached(reqs, n, s.slots[a].ip, s.slots[a].nic) && NobodyElseJoins(later, a, b))
  {
    hide Apply, SimulatedMac, Plain, PlainRun, Initialized, SourceOf, Recipients, NobodyElseJoins, Run, Boot, OpenedAt;
    PlainPrefix(net, reqs, n);
    SourceNamesSender(net, reqs[..n], groups, a, dst, etherType, payload);
    SimulatedIsOrdinary(a);
    AttachmentLasts(net, reqs, n, groups, a);
    OrderlyThroughout(net, reqs, groups);
    if Run(net, reqs).slots[a].inUse {
      ReachesOnlyOwner(Run(net, reqs), a, b);
    }
  }

  /** So it does whenever nobody has joined that address in the run and the pair has not been detached since. */
  lemma ReplyReachesSender(net: Net, reqs: seq<Request>, n: nat, groups: nat, a: nat, b: nat,
                           dst: Mac, etherType: bv32, payload: seq<bv8>)
    requires AllKnown(net, reqs) && Boot(net, groups) && PlainRun(net, reqs) && n <= |reqs|
    requires a < |net.slots| <= 0x1_0000_0000 && b != a
    requires Initialized(net, reqs[..n], a) && Low16(etherType) == etherType
    requires forall i | 0 <= i < |reqs| && reqs[i].command.MulticastJoin? :: reqs[i].address != SimulatedMac(a)
    requires var s := Run(net, reqs[..n]).slots[a]; NotDetached(reqs, n, s.ip, s.nic)
    ensures var s, later := Run(net, reqs[..n]), Run(net, reqs);
            && s.slots[a].nic in s.nics && SameAttachment(net, reqs, n, a)
            && var source := SourceOf(s, a, dst, etherType, payload);
               source == s.slots[a].mac && Recipients(later.slots, b, Truncate(source), |later.slots|) == [a]
  {
    hide Apply, SimulatedMac, Plain, PlainRun, Initialized, SourceOf, Recipients, Run, OpenedAt, NotDetached;
    var later := Run(net, reqs);
    ReplyReachesSenderIff(net, reqs, n, groups, a, b, dst, etherType, payload);
    SimulatedIsOrdinary(a);
    forall k | 0 <= k < |later.slots| ensures SimulatedMac(a) !in later.slots[k].mcast {
      GroupsAreHistory(net, reqs, groups, k, SimulatedMac(a));
      NeverJoined(net, reqs, k, SimulatedMac(a));
    }
  }

  lemma {:induction false} NeverJoined(net: Net, reqs: seq<Request>, k: nat, g: Mac)
    requires AllKnown(net, reqs)
    requires forall i | 0 <= i < |reqs| && reqs[i].command.MulticastJoin? :: reqs[i].address != g
    ensures NetJoins(net, reqs, k, g) <= 0
  {
    hide Apply, Run;
    if reqs == [] {
    } else {
      NeverJoined(net, Early(reqs), k, g);
      assert Last(reqs) == reqs[|reqs| - 1];
    }
  }

  // ----- An answer that goes astray -----

  /** One more request, for everything this module says about runs. */
  lemma Onward(net: Net, reqs: seq<Request>, r: Request, k: nat)
    requires AllKnown(net, reqs) && Known(net, r)
    ensures AllKnown(net, reqs + [r]) && Known(Run(net, reqs), r)
    ensures Run(net, reqs + [r]) == Apply(Run(net, reqs), r).net
    ensures PlainRun(net, reqs + [r]) <==> PlainRun(net, reqs) && Plain(Run(net, reqs), r)
    ensures var state := Run(net, reqs);
            var c := ChangeOf(state, r, k);
            && (c.Opened? ==> OpenedAt(net, reqs + [r], k) == |reqs| + 1)
            && (!c.Opened? && !c.Closed? && r.command.Initialize? && Lookup(state.slots, r.ip, r.nic) == k ==>
                  Initialized(net, reqs + [r], k))
  {
    hide Apply, ChangeOf, Plain;
    assert Early(reqs + [r]) == reqs;
    KnownThroughout(net, Run(net, reqs), r);
  }

  /** One interface is attached under IP 1 and initialized, sends a frame, and is detached; another one is attached under
      IP 2. */
  function Succession(nic: Address, other: Address): seq<Request> {
    [Request(Attach, 1, nic, ZERO_MAC), Request(Initialize, 1, nic, ZERO_MAC),
     Request(Detach, 1, nic, ZERO_MAC), Request(Attach, 2, other, ZERO_MAC)]
  }

  /** The table is blank, and the first interface is the only one of IP 1. */
  predicate CanSucceed(net: Net, nic: Address, other: Address) {
    && net.slots == BlankTable(4, 3) && nic != other && nic != NULL && other != NULL
    && nic in net.nics && other in net.nics && 1 in net.ips
    && net.ips[1] == [nic] && net.nics[nic].index == 0
  }

  /** Attached and initialized. */
  lemma FirstHalf(net: Net, nic: Address, other: Address)
    requires CanSucceed(net, nic, other)
    ensures var r := Succession(nic, other);
            && Known(net, r[0]) && Plain(net, r[0])
            && var one := Apply(net, r[0]).net;
               && Known(one, r[1]) && Plain(one, r[1])
               && Lookup(one.slots, 1, nic) == 0
               && !ChangeOf(one, r[1], 0).Opened? && !ChangeOf(one, r[1], 0).Closed?
               && var two := Apply(one, r[1]).net;
                  Matches(two.slots[0], 1, nic) && forall k | 1 <= k < 4 :: !two.slots[k].inUse
  {
    hide SimulatedMac;
    var r := Succession(nic, other);
    var one := Apply(net, r[0]).net;
    assert !net.slots[0].inUse;
    assert Matches(one.slots[0], 1, nic);
    assert Apply(one, r[1]).net.slots == one.slots;
  }

  /** Detached, and another one attached. */
  lemma SecondHalf(two: Net, nic: Address, other: Address)
    requires |two.slots| == 4 && nic in two.nics && other in two.nics && nic != NULL && other != NULL
    requires Matches(two.slots[0], 1, nic) && forall k | 1 <= k < 4 :: !two.slots[k].inUse
    ensures var r := Succession(nic, other);
            && Known(two, r[2]) && Plain(two, r[2])
            && var three := Apply(two, r[2]).net;
               && Known(three, r[3]) && Plain(three, r[3]) && ChangeOf(three, r[3], 0).Opened?
               && var four := Apply(three, r[3]).net;
                  Matches(four.slots[0], 2, other) && forall k | 1 <= k < 4 :: !four.slots[k].inUse
  {
    hide SimulatedMac;
    var r := Succession(nic, other);
    var three := Apply(two, r[2]).net;
    assert Lookup(two.slots, 1, nic) == 0 && !three.slots[0].inUse;
    assert forall a :: a in two.nics <==> a in three.nics.Keys;
  }

  /** The run that goes through these states, in two parts: the frame is sent between them. */
  lemma SuccessionRuns(net: Net, nic: Address, other: Address)
    requires CanSucceed(net, nic, other)
    ensures var reqs := Succession(nic, other);
            && AllKnown(net, reqs) && AllKnown(net, reqs[..2])
            && PlainRun(net, reqs) && Initialized(net, reqs[..2], 0) && OpenedAt(net, reqs, 0) == 4
            && Matches(Run(net, reqs).slots[0], 2, other) && forall k | 1 <= k < 4 :: !Run(net, reqs).slots[k].inUse
  {
    hide Apply, ChangeOf, Plain, PlainRun, Initialized, OpenedAt, Known, AllKnown;
    var r := Succession(nic, other);
    FirstHalf(net, nic, other);
    NothingPlain(net);
    var one := Apply(net, r[0]).net;
    SameKnown(net, one, r[1]);
    Onward(net, [], r[0], 0);
    assert [] + [r[0]] == [r[0]];
    Onward(net, [r[0]], r[1], 0);
    assert [r[0]] + [r[1]] == r[..2];
    var two := Apply(one, r[1]).net;
    assert Run(net, r[..2]) == two;
    NicsKept(net, two, nic, other);
    SecondHalf(two, nic, other);
    SameKnown(net, two, r[2]);
    Onward(net, r[..2], r[2], 0);
    assert r[..2] + [r[2]] == r[..3];
    var three := Apply(two, r[2]).net;
    SameKnown(net, three, r[3]);
    Onward(net, r[..3], r[3], 0);
    assert r[..3] + [r[3]] == r;
  }

  lemma NothingPlain(net: Net)
    ensures AllKnown(net, []) && PlainRun(net, []) && Run(net, []) == net
  {
  }

  lemma SameKnown(net: Net, later: Net, r: Request)
    requires later.nics.Keys == net.nics.Keys && later.ips == net.ips && Known(later, r)
    ensures Known(net, r)
  {
    KnownThroughout(later, net, r);
  }

  lemma NicsKept(net: Net, later: Net, nic: Address, other: Address)
    requires later.nics.Keys == net.nics.Keys && nic in net.nics && other in net.nics
    ensures nic in later.nics && other in later.nics
  {
    assert nic in net.nics.Keys && other in net.nics.Keys;
  }

  /** The answer then reaches the other interface's instance, although nobody has joined or renamed anything. */
  lemma AnswerCanGoAstray(net: Net, nic: Address, other: Address)
    requires CanSucceed(net, nic, other)
    ensures var reqs := Succession(nic, other);
            && AllKnown(net, reqs) && PlainRun(net, reqs) && Initialized(net, reqs[..2], 0)
            && var later := Run(net, reqs);
               && Recipients(later.slots, 1, SimulatedMac(0), 4) == [0] && Matches(later.slots[0], 2, other)
               && !SameAttachment(net, reqs, 2, 0)
  {
    hide Apply, ChangeOf, Plain, PlainRun, Initialized, OpenedAt, SimulatedMac, Recipients, Run, AllKnown, Orderly;
    SuccessionRuns(net, nic, other);
    OrderlyThroughout(net, Succession(nic, other), 3);
    ReachesOnlyOwner(Run(net, Succession(nic, other)), 0, 1);
  }
}
