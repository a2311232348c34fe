/**
 The table of driver instances and what each command does to it.

 The source has four instances with room for three multicast addresses each;
 here both numbers are whatever the table was built with.
 */
module Table {
  import opened Words
  import opened Frame
  import opened Netx

  const LINK_MTU: nat := 1514
  const SIMULATED_ADDRESS_MSW: bv32 := 0x0011
  const SIMULATED_ADDRESS_LSW: bv32 := 0x2233_4456

  datatype Slot = Slot(inUse: bool, id: nat, nic: Address, ip: Address, mac: Mac, mcast: seq<Mac>)

  datatype Net = Net(slots: seq<Slot>, nics: map<Address, Nic>, ips: map<Address, seq<Address>>)

  /** What a driver can be asked about and this one does not support. */
  datatype Feature = Speed | DuplexType | ErrorCount | RxCount | TxCount | AllocErrors | InterfaceType

  datatype Command =
    | Attach | Detach | Initialize | Uninitialize | Enable | Disable
    | PacketSend | PacketBroadcast | ArpSend | ArpResponseSend | RarpSend
    | MulticastJoin | MulticastLeave | GetStatus | GetFeature(feature: Feature) | SetPhysicalAddress
    | DeferredProcessing | Unknown
  {
    predicate IsSend() {
      PacketSend? || PacketBroadcast? || ArpSend? || ArpResponseSend? || RarpSend?
    }
  }

  datatype Request = Request(command: Command, ip: Address, nic: Address, address: Mac)

  datatype Status = Success | InvalidInterface | NoMoreEntries | EntryNotFound | UnhandledCommand

  /** What is stored through the request's return pointer, if anything. */
  datatype Answer = Nothing | Link(up: bool) | Zero | UnknownType

  datatype Outcome = Outcome(net: Net, status: Status)

  /** A table entry filled with zeros, with room for `groups` multicast addresses. */
  function BlankSlot(groups: nat): Slot {
    Slot(false, 0, NULL, NULL, ZERO_MAC, seq(groups, _ => ZERO_MAC))
  }

  /** The entry after its storage has been zeroed. */
  function Erased(s: Slot): Slot {
    BlankSlot(|s.mcast|)
  }

  /** The address the driver invents for instance `k`. */
  function SimulatedMac(k: nat): Mac {
    Mac(SIMULATED_ADDRESS_MSW, SIMULATED_ADDRESS_LSW + IndexWord(k))
  }

  lemma SimulatedMacInjective(j: nat, k: nat)
    requires j < 0x1_0000_0000 && k < 0x1_0000_0000
    requires SimulatedMac(j) == SimulatedMac(k)
    ensures j == k
  {
    AddCancels(SIMULATED_ADDRESS_LSW, IndexWord(j), IndexWord(k));
    IndexWordInjective(j, k);
  }

  lemma AddCancels(base: bv32, a: bv32, b: bv32)
    requires base + a == base + b
    ensures a == b
  {
  }

  /** The first index at which `p` holds, or the length. */
  function First<T>(s: seq<T>, p: T -> bool): (i: nat)
    ensures i <= |s|
    ensures i < |s| ==> p(s[i])
    ensures forall j | 0 <= j < i :: !p(s[j])
  {
    if s == [] || p(s[0]) then 0 else
      var i := First(s[1..], p);
      assert forall j | 1 <= j < i + 1 :: s[j] == s[1..][j - 1];
      i + 1
  }

  predicate Matches(s: Slot, ip: Address, nic: Address) {
    s.inUse && s.ip == ip && s.nic == nic
  }

  /** The live instance a request is about. */
  function Lookup(slots: seq<Slot>, ip: Address, nic: Address): (i: nat)
    ensures i <= |slots|
    ensures i < |slots| ==> Matches(slots[i], ip, nic)
    ensures forall j | 0 <= j < i :: !Matches(slots[j], ip, nic)
  {
    First(slots, (s: Slot) => Matches(s, ip, nic))
  }

  lemma FoundIffMatched(slots: seq<Slot>, ip: Address, nic: Address)
    ensures Lookup(slots, ip, nic) < |slots| <==> exists k | 0 <= k < |slots| :: Matches(slots[k], ip, nic)
  {
  }

  /** The first instance that is not in use. */
  function FreeSlot(slots: seq<Slot>): (i: nat)
    ensures i <= |slots|
    ensures i < |slots| ==> !slots[i].inUse
    ensures forall j | 0 <= j < i :: slots[j].inUse
  {
    First(slots, (s: Slot) => !s.inUse)
  }

  /** The weaker search: it looks at the interface pointer alone. */
  function SlotOfNic(slots: seq<Slot>, nic: Address): (i: nat)
    ensures i <= |slots|
    ensures i < |slots| ==> slots[i].nic == nic
    ensures forall j | 0 <= j < i :: slots[j].nic != nic
  {
    First(slots, (s: Slot) => s.nic == nic)
  }

  function PlaceOf(mcast: seq<Mac>, m: Mac): (i: nat)
    ensures i <= |mcast|
    ensures i < |mcast| ==> mcast[i] == m
    ensures forall j | 0 <= j < i :: mcast[j] != m
  {
    First(mcast, x => x == m)
  }

  /** The control blocks a request makes the driver dereference exist: the interface for every command, and the IP
      instance with its interfaces for the two commands that look inside it. */
  predicate Known(net: Net, r: Request) {
    && r.nic != NULL && r.nic in net.nics
    && (r.command.Initialize? || r.command.GetStatus? ==>
          r.ip in net.ips && net.ips[r.ip] != [] && forall a | a in net.ips[r.ip] :: a in net.nics)
  }

  function WithSlot(net: Net, i: nat, s: Slot): Net
    requires i < |net.slots|
  {
    net.(slots := net.slots[i := s])
  }

  /** What a command does to the table and the interface blocks, and the status it reports. */
  function Apply(net: Net, r: Request): (o: Outcome)
    requires Known(net, r)
    ensures |o.net.slots| == |net.slots| && o.net.nics.Keys == net.nics.Keys && o.net.ips == net.ips
  {
    var i := Lookup(net.slots, r.ip, r.nic);
    if r.command.Attach? then
      var k := FreeSlot(net.slots);
      if k < |net.slots| then
        Outcome(WithSlot(net, k, Slot(true, k, r.nic, r.ip, SimulatedMac(k), net.slots[k].mcast)), Success)
      else
        Outcome(net, InvalidInterface)
    else if i == |net.slots| then
      Outcome(net, InvalidInterface)
    else
      var s := net.slots[i];
      match r.command
      case Detach | Uninitialize =>
        Outcome(WithSlot(net, i, Erased(s)), Success)
      case Initialize =>
        var index := net.nics[r.nic].index;
        if index < |net.ips[r.ip]| then
          var a := net.ips[r.ip][index];
          var nic := net.nics[a].(mtu := LINK_MTU - HEADER_SIZE, physical := s.mac, mapped := true);
          Outcome(net.(nics := net.nics[a := nic]), Success)
        else
          Outcome(net, Success)
      case Enable =>
        Outcome(net.(nics := net.nics[r.nic := net.nics[r.nic].(linkUp := true)]), Success)
      case Disable =>
        Outcome(net.(nics := net.nics[r.nic := net.nics[r.nic].(linkUp := false)]), Success)
      case MulticastJoin =>
        var k := PlaceOf(s.mcast, ZERO_MAC);
        if k < |s.mcast| then
          Outcome(WithSlot(net, i, s.(mcast := s.mcast[k := r.address])), Success)
        else
          Outcome(net, NoMoreEntries)
      case MulticastLeave =>
        var k := PlaceOf(s.mcast, r.address);
        if k < |s.mcast| then
          Outcome(WithSlot(net, i, s.(mcast := s.mcast[k := ZERO_MAC])), Success)
        else
          Outcome(net, EntryNotFound)
      case SetPhysicalAddress =>
        var k := SlotOfNic(net.slots, r.nic);
        if k < |net.slots| then
          Outcome(WithSlot(net, k, net.slots[k].(mac := r.address)), Success)
        else
          Outcome(net, InvalidInterface)
      case Unknown =>
        Outcome(net, UnhandledCommand)
      case _ =>
        Outcome(net, Success)
  }

  /** What is stored through the return pointer: nothing unless a query finds its instance. */
  function AnswerTo(net: Net, r: Request): Answer
    requires Known(net, r)
  {
    if Lookup(net.slots, r.ip, r.nic) == |net.slots| then Nothing else
      match r.command
      case GetStatus => Link(net.nics[net.ips[r.ip][0]].linkUp)
      case GetFeature(InterfaceType) => UnknownType
      case GetFeature(_) => Zero
      case _ => Nothing
  }

  /** A request that does not find its instance changes nothing. */
  lemma NotFound(net: Net, r: Request)
    requires Known(net, r) && !r.command.Attach? && Lookup(net.slots, r.ip, r.nic) == |net.slots|
    ensures Apply(net, r) == Outcome(net, InvalidInterface) && AnswerTo(net, r) == Nothing
  {
  }

  /** A send changes nothing in the table either, whether it finds its instance or not. */
  lemma SendStatus(net: Net, r: Request)
    requires Known(net, r)
    ensures r.command.IsSend() ==>
              && Apply(net, r).net == net && AnswerTo(net, r) == Nothing
              && Apply(net, r).status == if Lookup(net.slots, r.ip, r.nic) < |net.slots| then Success else InvalidInterface
  {
  }

  /** A free entry is entirely zero; a live one knows its own index and has an interface. */
  predicate SoundSlot(s: Slot, k: nat) {
    if s.inUse then s.id == k && s.nic != NULL else s == Erased(s)
  }

  predicate Sound(slots: seq<Slot>) {
    forall k | 0 <= k < |slots| :: SoundSlot(slots[k], k)
  }

  /** The table when the program starts: static storage, all zero. */
  function BlankTable(instances: nat, groups: nat): (s: seq<Slot>)
    ensures |s| == instances && Sound(s)
  {
    seq(instances, _ => BlankSlot(groups))
  }

  /** The one entry a request may change. */
  function Touched(net: Net, r: Request): nat {
    if r.command.Attach? then FreeSlot(net.slots)
    else if r.command.SetPhysicalAddress? then SlotOfNic(net.slots, r.nic)
    else Lookup(net.slots, r.ip, r.nic)
  }

  /** Two tables that differ in at most one entry. */
  predicate DifferAtMostAt(a: seq<Slot>, b: seq<Slot>, k: nat) {
    |a| == |b| && forall j | 0 <= j < |a| && j != k :: a[j] == b[j]
  }

  /** Every command leaves all entries but one alone. */
  lemma OneSlotChanges(net: Net, r: Request)
    requires Known(net, r)
    ensures DifferAtMostAt(net.slots, Apply(net, r).net.slots, Touched(net, r))
  {
  }

  /** The entry it may change stays sound. */
  lemma TouchedSlotSound(net: Net, r: Request)
    requires Known(net, r) && Sound(net.slots)
    requires Touched(net, r) < |net.slots|
    ensures SoundSlot(Apply(net, r).net.slots[Touched(net, r)], Touched(net, r))
  {
    assert SoundSlot(net.slots[Touched(net, r)], Touched(net, r));
  }

  /** Every command keeps the table sound. */
  lemma ApplyKeepsSound(net: Net, r: Request)
    requires Known(net, r) && Sound(net.slots)
    ensures Sound(Apply(net, r).net.slots)
  {
    hide Apply, SoundSlot, Touched;
    OneSlotChanges(net, r);
    var next := Apply(net, r).net.slots;
    forall k | 0 <= k < |next| ensures SoundSlot(next[k], k) {
      if k == Touched(net, r) {
        TouchedSlotSound(net, r);
      } else {
        assert SoundSlot(net.slots[k], k);
      }
    }
  }

  // ----- Setting the physical address: the second search -----

  /** Once the first search has succeeded the second one cannot fail, so its error branch is dead. */
  lemma SecondSearchSucceeds(net: Net, r: Request)
    requires Known(net, r) && Sound(net.slots)
    requires Lookup(net.slots, r.ip, r.nic) < |net.slots|
    ensures var k := SlotOfNic(net.slots, r.nic);
            k <= Lookup(net.slots, r.ip, r.nic) && net.slots[k].inUse && net.slots[k].nic == r.nic
  {
  }

  /** The two searches agree exactly when no earlier live instance has the interface under another IP. */
  lemma SecondSearchAgrees(net: Net, r: Request)
    requires Known(net, r) && Sound(net.slots)
    requires Lookup(net.slots, r.ip, r.nic) < |net.slots|
    ensures var i := Lookup(net.slots, r.ip, r.nic);
            SlotOfNic(net.slots, r.nic) == i <==>
            forall j | 0 <= j < i && net.slots[j].inUse && net.slots[j].nic == r.nic :: net.slots[j].ip == r.ip
  {
    var i, k := Lookup(net.slots, r.ip, r.nic), SlotOfNic(net.slots, r.nic);
    SecondSearchSucceeds(net, r);
    if k < i {
      assert !Matches(net.slots[k], r.ip, r.nic);
    }
  }

  /** They do disagree: attach one interface under two IPs, and the second IP renames the first's instance. */
  lemma SecondSearchCanHitAnother(net: Net, nic: Address, m: Mac)
    requires net.slots == BlankTable(4, 3)
    requires Known(net, Request(Attach, 1, nic, ZERO_MAC)) && Known(net, Request(Attach, 2, nic, ZERO_MAC))
    ensures var one := Apply(net, Request(Attach, 1, nic, ZERO_MAC)).net;
            var two := Apply(one, Request(Attach, 2, nic, ZERO_MAC)).net;
            var o := Apply(two, Request(SetPhysicalAddress, 2, nic, m));
            && o.status == Success
            && o.net.slots[0].ip == 1 && o.net.slots[0].mac == m
            && o.net.slots[1].ip == 2 && o.net.slots[1].mac == SimulatedMac(1)
  {
    hide SimulatedMac;
    var one := Apply(net, Request(Attach, 1, nic, ZERO_MAC)).net;
    assert !net.slots[0].inUse;
    assert one.slots[0] == Slot(true, 0, nic, 1, SimulatedMac(0), net.slots[0].mcast) && !one.slots[1].inUse;
    var two := Apply(one, Request(Attach, 2, nic, ZERO_MAC)).net;
    assert two.slots[0] == one.slots[0];
    assert two.slots[1] == Slot(true, 1, nic, 2, SimulatedMac(1), one.slots[1].mcast);
    assert Lookup(two.slots, 2, nic) == 1 by {
      assert Matches(two.slots[1], 2, nic) && !Matches(two.slots[0], 2, nic);
    }
    assert SlotOfNic(two.slots, nic) == 0;
  }

  // ----- The link status -----

  /** Whoever enables an interface and asks is told that the link is up, and whoever disables it that it is down, exactly
      when the interface is the first one of its IP instance. */
  lemma StatusIsOfFirstInterface(net: Net, ip: Address, nic: Address)
    requires Known(net, Request(GetStatus, ip, nic, ZERO_MAC)) && Lookup(net.slots, ip, nic) < |net.slots|
    ensures var ask := Request(GetStatus, ip, nic, ZERO_MAC);
            var up := Apply(net, Request(Enable, ip, nic, ZERO_MAC)).net;
            var down := Apply(net, Request(Disable, ip, nic, ZERO_MAC)).net;
            && Known(up, ask) && Known(down, ask)
            && (AnswerTo(up, ask) == Link(true) && AnswerTo(down, ask) == Link(false) <==> net.ips[ip][0] == nic)
  {
    var up := Apply(net, Request(Enable, ip, nic, ZERO_MAC)).net;
    var down := Apply(net, Request(Disable, ip, nic, ZERO_MAC)).net;
    assert up == net.(nics := net.nics[nic := net.nics[nic].(linkUp := true)]);
    assert down == net.(nics := net.nics[nic := net.nics[nic].(linkUp := false)]);
  }

  // ----- Attach and detach -----

  lemma AttachSucceedsIff(net: Net, r: Request)
    requires Known(net, r) && r.command.Attach?
    ensures Apply(net, r).status == Success <==> exists s :: s in net.slots && !s.inUse
  {
    var k := FreeSlot(net.slots);
    if k < |net.slots| {
      assert net.slots[k] in net.slots;
    } else {
      forall s | s in net.slots ensures s.inUse {
        var j :| 0 <= j < |net.slots| && net.slots[j] == s;
      }
    }
  }

  /** Detach and uninitialize undo attach exactly when attach took a place before every instance of the same pair. */
  lemma DetachUndoesAttach(net: Net, ip: Address, nic: Address, back: Command)
    requires back.Detach? || back.Uninitialize?
    requires Known(net, Request(Attach, ip, nic, ZERO_MAC)) && Sound(net.slots)
    requires FreeSlot(net.slots) < |net.slots|
    ensures var attached := Apply(net, Request(Attach, ip, nic, ZERO_MAC)).net;
            Apply(attached, Request(back, ip, nic, ZERO_MAC)).net == net <==>
            FreeSlot(net.slots) < Lookup(net.slots, ip, nic)
  {
    var k, i := FreeSlot(net.slots), Lookup(net.slots, ip, nic);
    var attached := Apply(net, Request(Attach, ip, nic, ZERO_MAC)).net;
    var detached := Apply(attached, Request(back, ip, nic, ZERO_MAC)).net;
    assert Matches(attached.slots[k], ip, nic);
    if k < i {
      assert Lookup(attached.slots, ip, nic) == k;
      assert detached.slots == net.slots;
    } else {
      assert i < k;
      assert Matches(attached.slots[i], ip, nic);
      assert detached.slots[k].inUse;
    }
  }

  /** It can fail to: attach a pair twice, and detaching takes the first place instead of the second. */
  lemma DetachCanTakeAnother(net: Net, ip: Address, nic: Address)
    requires net.slots == BlankTable(4, 3) && Known(net, Request(Attach, ip, nic, ZERO_MAC))
    ensures var attach, detach := Request(Attach, ip, nic, ZERO_MAC), Request(Detach, ip, nic, ZERO_MAC);
            var one := Apply(net, attach).net;
            var back := Apply(Apply(one, attach).net, detach).net;
            && one.slots[0].inUse && !one.slots[1].inUse
            && !back.slots[0].inUse && back.slots[1].inUse
  {
    hide SimulatedMac;
    var attach := Request(Attach, ip, nic, ZERO_MAC);
    var one := Apply(net, attach).net;
    assert !net.slots[0].inUse;
    assert Matches(one.slots[0], ip, nic) && !one.slots[1].inUse;
    var two := Apply(one, attach).net;
    assert Matches(two.slots[0], ip, nic) && two.slots[1].inUse;
    assert Lookup(two.slots, ip, nic) == 0;
  }
}
