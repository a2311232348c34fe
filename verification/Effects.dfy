/**
 What each command does, said of the table's entries, the interface blocks and
 the numbers in the source, entry by entry and field by field.
 */
module Effects {
  import opened Words
  import opened Frame
  import opened Netx
  import opened Table

  /** Entry `i` is the first live one for the request's IP and interface. */
  predicate Finds(net: Net, r: Request, i: nat) {
    && i < |net.slots| && net.slots[i].inUse && net.slots[i].ip == r.ip && net.slots[i].nic == r.nic
    && forall j | 0 <= j < i :: !(net.slots[j].inUse && net.slots[j].ip == r.ip && net.slots[j].nic == r.nic)
  }

  /** No entry but `i` has changed, and no interface block. */
  predicate OnlySlot(net: Net, next: Net, i: nat) {
    && next.nics == net.nics && next.ips == net.ips && |next.slots| == |net.slots|
    && forall j | 0 <= j < |net.slots| && j != i :: next.slots[j] == net.slots[j]
  }

  /** No interface block but `a` has changed, and no entry. */
  predicate OnlyNic(net: Net, next: Net, a: Address) {
    && next.slots == net.slots && next.ips == net.ips && next.nics.Keys == net.nics.Keys
    && forall b | b in net.nics && b != a :: next.nics[b] == net.nics[b]
  }

  lemma FindsIsLookup(net: Net, r: Request, i: nat)
    requires Finds(net, r, i)
    ensures Lookup(net.slots, r.ip, r.nic) == i
  {
    assert Matches(net.slots[i], r.ip, r.nic);
    var k := Lookup(net.slots, r.ip, r.nic);
    assert k < |net.slots| ==> Matches(net.slots[k], r.ip, r.nic);
  }

  /** The table at program start is zero in every field. */
  lemma BlankIsZero(instances: nat, groups: nat, k: nat)
    requires k < instances
    ensures var s := BlankTable(instances, groups)[k];
            && !s.inUse && s.id == 0 && s.nic == 0 && s.ip == 0 && s.mac == Mac(0, 0)
            && |s.mcast| == groups && forall x | 0 <= x < groups :: s.mcast[x] == Mac(0, 0)
  {
  }

  /** The address given to instance `k` is the base address 00:11:22:33:44:56 plus `k`, as `IndexWord` counts. */
  lemma SimulatedIsBasePlusIndex(k: nat, w: bv32)
    requires w == IndexWord(k)
    ensures SimulatedMac(k) == Mac(0x0011, 0x2233_4456 + w)
  {
    hide IndexWord;
  }

  /** Attach takes the first free entry, gives it the request's pair, its own index and its simulated address, and leaves its
      multicast table; without a free entry it is refused. */
  lemma AttachEffect(net: Net, r: Request)
    requires Known(net, r) && r.command.Attach?
    ensures forall k | 0 <= k < |net.slots| && !net.slots[k].inUse && (forall j | 0 <= j < k :: net.slots[j].inUse) ::
              var o := Apply(net, r);
              && o.status == Success && OnlySlot(net, o.net, k)
              && var t := o.net.slots[k];
                 && t.inUse && t.id == k && t.nic == r.nic && t.ip == r.ip && t.mac == SimulatedMac(k)
                 && t.mcast == net.slots[k].mcast
    ensures (forall j | 0 <= j < |net.slots| :: net.slots[j].inUse) ==>
              Apply(net, r).status == InvalidInterface && Apply(net, r).net == net
  {
    hide SimulatedMac;
    var f := FreeSlot(net.slots);
    assert f < |net.slots| ==> !net.slots[f].inUse;
  }

  /** Any other command on a pair without a live instance is refused and changes nothing. */
  lemma RefusedEffect(net: Net, r: Request)
    requires Known(net, r) && !r.command.Attach?
    requires forall j | 0 <= j < |net.slots| :: !(net.slots[j].inUse && net.slots[j].ip == r.ip && net.slots[j].nic == r.nic)
    ensures Apply(net, r).status == InvalidInterface && Apply(net, r).net == net && AnswerTo(net, r) == Nothing
  {
  }

  /** Detach and uninitialize fill the entry with zeros. */
  lemma DetachEffect(net: Net, r: Request, i: nat)
    requires Known(net, r) && (r.command.Detach? || r.command.Uninitialize?) && Finds(net, r, i)
    ensures var o := Apply(net, r);
            && o.status == Success && OnlySlot(net, o.net, i)
            && var t := o.net.slots[i];
               && !t.inUse && t.id == 0 && t.nic == 0 && t.ip == 0 && t.mac == Mac(0, 0)
               && |t.mcast| == |net.slots[i].mcast| && forall x | 0 <= x < |t.mcast| :: t.mcast[x] == Mac(0, 0)
  {
    FindsIsLookup(net, r, i);
  }

  /** Initialize gives the interface block that the IP instance has at the interface's index an MTU of 1500, the instance's
      address, and mapping, and leaves every other block alone; it changes nothing if there is no such block. */
  lemma InitializeEffect(net: Net, r: Request, i: nat)
    requires Known(net, r) && r.command.Initialize? && Finds(net, r, i)
    ensures var o, index, list := Apply(net, r), net.nics[r.nic].index, net.ips[r.ip];
            && o.status == Success
            && (index < |list| ==>
                  var a := list[index];
                  && a in net.nics && OnlyNic(net, o.net, a) && a in o.net.nics
                  && var before, after := net.nics[a], o.net.nics[a];
                     && after.mtu == 1500 && after.physical == net.slots[i].mac && after.mapped
                     && after.index == before.index && after.linkUp == before.linkUp)
            && (index >= |list| ==> o.net == net)
  {
    FindsIsLookup(net, r, i);
  }

  /** Enable and disable set the interface's link flag, and nothing else. */
  lemma LinkEffect(net: Net, r: Request, i: nat)
    requires Known(net, r) && (r.command.Enable? || r.command.Disable?) && Finds(net, r, i)
    ensures var o := Apply(net, r);
            && o.status == Success && OnlyNic(net, o.net, r.nic) && r.nic in o.net.nics
            && var before, after := net.nics[r.nic], o.net.nics[r.nic];
               && (after.linkUp <==> r.command.Enable?)
               && after.index == before.index && after.physical == before.physical && after.mtu == before.mtu
               && after.mapped == before.mapped
  {
    FindsIsLookup(net, r, i);
  }

  /** Two multicast tables differ in place `k` at most. */
  predicate OnlyPlace(a: seq<Mac>, b: seq<Mac>, k: nat) {
    |a| == |b| && forall x | 0 <= x < |a| && x != k :: a[x] == b[x]
  }

  /** Everything but the multicast table is as it was. */
  predicate OnlyGroups(s: Slot, t: Slot) {
    t.inUse == s.inUse && t.id == s.id && t.nic == s.nic && t.ip == s.ip && t.mac == s.mac
  }

  /** Join writes the address over the first zero entry, and reports "no more entries" exactly if there is none. */
  lemma JoinEffect(net: Net, r: Request, i: nat)
    requires Known(net, r) && r.command.MulticastJoin? && Finds(net, r, i)
    ensures var o, s := Apply(net, r), net.slots[i];
            && (forall k | 0 <= k < |s.mcast| && s.mcast[k] == Mac(0, 0)
                           && (forall x | 0 <= x < k :: s.mcast[x] != Mac(0, 0)) ::
                  && o.status == Success && OnlySlot(net, o.net, i) && OnlyGroups(s, o.net.slots[i])
                  && OnlyPlace(s.mcast, o.net.slots[i].mcast, k) && o.net.slots[i].mcast[k] == r.address)
            && (Mac(0, 0) !in s.mcast <==> o.status == NoMoreEntries)
            && (o.status == NoMoreEntries ==> o.net == net)
  {
    FindsIsLookup(net, r, i);
    hide Lookup;
    var p := PlaceOf(net.slots[i].mcast, ZERO_MAC);
    assert p < |net.slots[i].mcast| ==> net.slots[i].mcast[p] in net.slots[i].mcast;
  }

  /** Leave writes zero over the first entry that holds the address, and reports "entry not found" exactly if none does. */
  lemma LeaveEffect(net: Net, r: Request, i: nat)
    requires Known(net, r) && r.command.MulticastLeave? && Finds(net, r, i)
    ensures var o, s := Apply(net, r), net.slots[i];
            && (forall k | 0 <= k < |s.mcast| && s.mcast[k] == r.address
                           && (forall x | 0 <= x < k :: s.mcast[x] != r.address) ::
                  && o.status == Success && OnlySlot(net, o.net, i) && OnlyGroups(s, o.net.slots[i])
                  && OnlyPlace(s.mcast, o.net.slots[i].mcast, k) && o.net.slots[i].mcast[k] == Mac(0, 0))
            && (r.address !in s.mcast <==> o.status == EntryNotFound)
            && (o.status == EntryNotFound ==> o.net == net)
  {
    FindsIsLookup(net, r, i);
    hide Lookup;
    var p := PlaceOf(net.slots[i].mcast, r.address);
    assert p < |net.slots[i].mcast| ==> net.slots[i].mcast[p] in net.slots[i].mcast;
  }

  /** Setting the address changes that of the first entry with the interface, live or not, under whatever IP. */
  lemma SetAddressEffect(net: Net, r: Request, i: nat, k: nat)
    requires Known(net, r) && r.command.SetPhysicalAddress? && Finds(net, r, i)
    requires k < |net.slots| && net.slots[k].nic == r.nic && forall j | 0 <= j < k :: net.slots[j].nic != r.nic
    ensures var o, s := Apply(net, r), net.slots[k];
            && o.status == Success && OnlySlot(net, o.net, k)
            && var t := o.net.slots[k];
               && t.mac == r.address && t.inUse == s.inUse && t.id == s.id
               && t.nic == s.nic && t.ip == s.ip && t.mcast == s.mcast
  {
    FindsIsLookup(net, r, i);
    hide Lookup;
    assert SlotOfNic(net.slots, r.nic) == k by {
      var f := SlotOfNic(net.slots, r.nic);
      assert f < |net.slots| ==> net.slots[f].nic == r.nic;
    }
  }

  /** Sends, queries and deferred processing change nothing here and succeed; anything else is an unhandled command.  A status
      query is answered with the link flag of the IP instance's first interface, an interface-type query with "unknown",
      and the other queries with zero. */
  lemma OtherEffect(net: Net, r: Request, i: nat)
    requires Known(net, r) && Finds(net, r, i)
    ensures match r.command
            case PacketSend | PacketBroadcast | ArpSend | ArpResponseSend | RarpSend | DeferredProcessing =>
              Apply(net, r) == Outcome(net, Success) && AnswerTo(net, r) == Nothing
            case GetStatus => Apply(net, r) == Outcome(net, Success)
                              && AnswerTo(net, r) == Link(net.nics[net.ips[r.ip][0]].linkUp)
            case GetFeature(f) => Apply(net, r) == Outcome(net, Success)
                                  && AnswerTo(net, r) == if f.InterfaceType? then UnknownType else Zero
            case Unknown => Apply(net, r) == Outcome(net, UnhandledCommand) && AnswerTo(net, r) == Nothing
            case _ => AnswerTo(net, r) == Nothing
  {
    FindsIsLookup(net, r, i);
    hide Lookup;
  }
}
