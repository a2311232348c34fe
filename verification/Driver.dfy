/**
 The driver itself: the static table of instances, the command switch, the
 header writer, the fan-out loop and the receiver.
 */
module Driver {
  import opened Words
  import opened Frame
  import opened Netx
  import opened Table
  import opened Fanout
  import opened History
  import opened Trace

  class Driver {
    const services: Services
    const slots: array<Slot>
    const little: bool

    ghost function State(): Net
      reads this, slots, services`nics
    {
      Net(slots[..], services.nics, services.ips)
    }

    constructor (services: Services, instances: nat, groups: nat, little: bool)
      ensures this.services == services && this.little == little && fresh(slots)
      ensures slots[..] == BlankTable(instances, groups)
    {
      this.services, this.little := services, little;
      slots := new Slot[instances](_ => BlankSlot(groups));
    }

    // ----- Receiving -----

    /** Route one frame addressed to instance `k` by its type, and let go of it. */
    method Receive(ip: Address, p: Packet, k: nat)
      requires p.home == services && p.Held() && p.length >= HEADER_SIZE
      requires k < slots.Length && ip == slots[k].ip && services.Valid()
      modifies p`nic, p`prepend, p`length, services`log, services`held, services`left
      ensures services.Valid() && services.held == old(services.held) - {p}
      ensures services.left == old(services.left) + [p.Snapshot()]
      ensures services.log == old(services.log) + [Received(slots[..], k, old(p.Bytes()))]
    {
      var b := p.Bytes();
      var packetType := Pair(b[12], b[13]);
      p.SetNic(slots[k].nic);
      if packetType == ETHERNET_IP || packetType == ETHERNET_IPV6 {
        p.Strip(HEADER_SIZE);
        services.HandOff(k, ip, p, ToIp);
      } else if packetType == ETHERNET_ARP {
        p.Strip(HEADER_SIZE);
        services.HandOff(k, ip, p, ToArp);
      } else if packetType == ETHERNET_RARP {
        p.Strip(HEADER_SIZE);
        services.HandOff(k, ip, p, ToRarp);
      } else {
        services.HandOff(k, ip, p, Discard);
      }
    }

    // ----- Fan-out -----

    /** New custodies: nobody has changed their packets, and neither packets nor buffers were there before. */
    twostate predicate NewlySettled(new left: seq<Custody>)
      reads services, set c | c in left :: c.packet, set c | c in left :: c.packet.data
    {
      Settled(left, services.held) && forall c | c in left :: fresh(c.packet) && fresh(c.packet.data)
    }

    /** Copy a frame and have instance `k` receive the copy. */
    method Forward(p: Packet, k: nat) returns (ok: bool, ghost mine: seq<Custody>)
      requires p.home == services && p.Held() && p.length >= HEADER_SIZE && services.Valid()
      requires k < slots.Length && slots[k].ip in services.ips
      modifies services`log, services`copies, services`held, services`left
      ensures services.Valid() && services.held == old(services.held)
      ensures services.copies == old(services.copies) + [ok]
      ensures services.log == old(services.log) + if ok then [Received(slots[..], k, p.Bytes())] else []
      ensures services.left == old(services.left) + mine && NewlySettled(mine)
    {
      hide Received, Services.Valid;
      var ip := slots[k].ip;
      var c: Packet;
      mine := [];
      ok, c := services.Copy(p, ip);
      if ok {
        Receive(ip, c, k);
        mine := [c.Snapshot()];
      }
    }

    /** Take the header off again and release the original. */
    method Finish(p: Packet)
      requires p.home == services && p.Held() && p.length >= HEADER_SIZE && services.Valid()
      modifies p`prepend, p`length, services`log, services`held, services`left
      ensures p.prepend == old(p.prepend) + HEADER_SIZE && p.length == old(p.length) - HEADER_SIZE
      ensures services.Valid() && services.held == old(services.held) - {p}
      ensures services.log == old(services.log) + [Transmitted(p.prepend, old(p.Bytes())[HEADER_SIZE..])]
      ensures services.left == old(services.left) + [p.Snapshot()]
    {
      hide Services.Valid;
      p.Strip(HEADER_SIZE);
      services.TransmitRelease(p);
    }

    /** Forward to instance `k` once for each entry of its multicast table that holds the destination. */
    method ForwardToGroups(p: Packet, k: nat, msw: bv32, lsw: bv32, ghost to: seq<nat>,
                           ghost log0: seq<Event>, ghost copies0: seq<bool>)
      returns (ok: bool, ghost sent: nat, ghost mine: seq<Custody>)
      requires p.home == services && p.Held() && p.length >= HEADER_SIZE && services.Valid()
      requires k < slots.Length && (Mac(msw, lsw) in slots[k].mcast ==> slots[k].ip in services.ips)
      requires forall i | 0 <= i < |to| :: to[i] < slots.Length
      requires Progress(log0, copies0, services.log, services.copies, slots[..], to, p.Bytes())
      modifies services`log, services`copies, services`held, services`left
      ensures services.Valid() && services.held == old(services.held)
      ensures services.log == log0 + ReceivedAll(slots[..], to + Repeat(k, sent), p.Bytes())
      ensures services.copies == copies0 + CopyOutcomes(|to| + sent, ok)
      ensures var due := multiset(slots[k].mcast)[Mac(msw, lsw)]; if ok then sent == due else sent < due
      ensures services.left == old(services.left) + mine && NewlySettled(mine)
    {
      hide CopyOutcomes, ReceivedAll, Received, Services.Valid, Settled;
      var mcast := slots[k].mcast;
      var j := 0;
      sent, mine := 0, [];
      ok := true;
      NoneSettled(services.held);
      assert to + Repeat(k, 0) == to;
      while j < |mcast|
        invariant j <= |mcast| && sent == multiset(mcast[..j])[Mac(msw, lsw)]
        invariant ok && services.Valid() && services.held == old(services.held)
        invariant Progress(log0, copies0, services.log, services.copies, slots[..], to + Repeat(k, sent), p.Bytes())
        invariant services.left == old(services.left) + mine && NewlySettled(mine)
      {
        OneMoreCopy(mcast, Mac(msw, lsw), j);
        if msw == mcast[j].msw && lsw == mcast[j].lsw {
          CopySucceeds(log0, copies0, services.log, services.copies, slots[..], to + Repeat(k, sent), k, p.Bytes());
          CopyFails(log0, copies0, services.log, services.copies, slots[..], to + Repeat(k, sent), p.Bytes());
          ghost var more;
          ok, more := Forward(p, k);
          SettledMore(mine, more, services.held);
          mine := mine + more;
          if !ok {
            return;
          }
          assert to + Repeat(k, sent) + [k] == to + Repeat(k, sent + 1);
          sent := sent + 1;
        }
        j := j + 1;
      }
      assert mcast[..j] == mcast;
    }

    /** The copies one instance is due: a single one if it accepts the destination outright, and otherwise one for
        each place the destination has in its multicast table. */
    method Serve(p: Packet, k: nat, msw: bv32, lsw: bv32, ghost to: seq<nat>,
                 ghost log0: seq<Event>, ghost copies0: seq<bool>)
      returns (ok: bool, ghost sent: nat, ghost mine: seq<Custody>)
      requires p.home == services && p.Held() && p.length >= HEADER_SIZE && services.Valid()
      requires k < slots.Length && (Copies(slots[k], Mac(msw, lsw)) > 0 ==> slots[k].ip in services.ips)
      requires forall i | 0 <= i < |to| :: to[i] < slots.Length
      requires Progress(log0, copies0, services.log, services.copies, slots[..], to, p.Bytes())
      modifies services`log, services`copies, services`held, services`left
      ensures services.Valid() && services.held == old(services.held)
      ensures services.log == log0 + ReceivedAll(slots[..], to + Repeat(k, sent), p.Bytes())
      ensures services.copies == copies0 + CopyOutcomes(|to| + sent, ok)
      ensures if ok then sent == Copies(slots[k], Mac(msw, lsw)) else sent < Copies(slots[k], Mac(msw, lsw))
      ensures services.left == old(services.left) + mine && NewlySettled(mine)
    {
      hide CopyOutcomes, ReceivedAll, Received, Services.Valid, Settled, NewlySettled;
      if (msw == 0x0000_FFFF && lsw == 0xFFFF_FFFF)
         || (msw == slots[k].mac.msw && lsw == slots[k].mac.lsw)
         || msw == 0x0000_3333
         || (msw == 0 && lsw == 0) {
        CopySucceeds(log0, copies0, services.log, services.copies, slots[..], to, k, p.Bytes());
        CopyFails(log0, copies0, services.log, services.copies, slots[..], to, p.Bytes());
        assert to + Repeat(k, 0) == to && to + Repeat(k, 1) == to + [k];
        ok, mine := Forward(p, k);
        sent := if ok then 1 else 0;
      } else {
        ok, sent, mine := ForwardToGroups(p, k, msw, lsw, to, log0, copies0);
      }
    }

    /** Serve every live instance but the sender, in order, until a copy fails: `n` copies are delivered. */
    method FanOut(p: Packet, sender: nat, msw: bv32, lsw: bv32) returns (ghost n: nat, ghost mine: seq<Custody>)
      requires p.home == services && p.Held() && p.length >= HEADER_SIZE && services.Valid()
      requires forall k | k in Recipients(slots[..], sender, Mac(msw, lsw), slots.Length) :: slots[k].ip in services.ips
      modifies services`log, services`copies, services`held, services`left
      ensures services.Valid() && services.held == old(services.held)
      ensures var all := Recipients(slots[..], sender, Mac(msw, lsw), slots.Length);
              && n <= |all|
              && services.copies == old(services.copies) + CopyOutcomes(n, n == |all|)
              && services.log == old(services.log) + ReceivedAll(slots[..], all[..n], p.Bytes())
      ensures services.left == old(services.left) + mine && NewlySettled(mine)
    {
      hide CopyOutcomes, ReceivedAll, Received, Copies, Recipients, Services.Valid, Settled;
      ghost var frame, table, log0, copies0 := p.Bytes(), slots[..], services.log, services.copies;
      ghost var dst := Mac(msw, lsw);
      ghost var all := Recipients(table, sender, dst, |table|);
      NoCopiesYet(log0, copies0, table, frame);
      NoRecipients(table, sender, dst);
      NoneSettled(services.held);
      mine := [];
      var i := 0;
      while i < slots.Length
        invariant i <= slots.Length && services.Valid() && services.held == old(services.held)
        invariant Progress(log0, copies0, services.log, services.copies, table, Recipients(table, sender, dst, i), frame)
        invariant services.left == old(services.left) + mine && NewlySettled(mine)
      {
        ghost var before := Recipients(table, sender, dst, i);
        NextRecipients(table, sender, dst, i);
        if i != sender && slots[i].inUse {
          if Copies(slots[i], dst) > 0 {
            DueIsRecipient(table, sender, dst, i);
          }
          var ok;
          ghost var sent, more;
          ok, sent, more := Serve(p, i, msw, lsw, before, log0, copies0);
          SettledMore(mine, more, services.held);
          mine := mine + more;
          if !ok {
            StoppedInside(table, sender, dst, i, sent);
            n := |before| + sent;
            return;
          }
        }
        i := i + 1;
      }
      n := |all|;
      assert all[..n] == all;
    }

    /** Send a frame to every other live instance that accepts it, and release it.  `mine` holds the copies. */
    method Output(p: Packet, sender: nat) returns (ghost n: nat, ghost mine: seq<Custody>)
      requires p.home == services && p.Held() && p.length >= HEADER_SIZE && services.Valid()
      requires forall k | k in Recipients(slots[..], sender, Destination(p.Bytes()), slots.Length) ::
                 slots[k].ip in services.ips
      modifies p`prepend, p`length, services`log, services`copies, services`held, services`left
      ensures p.prepend == old(p.prepend) + HEADER_SIZE && p.length == old(p.length) - HEADER_SIZE
      ensures services.Valid() && services.held == old(services.held) - {p}
      ensures var frame := old(p.Bytes());
              var all := Recipients(slots[..], sender, Destination(frame), slots.Length);
              && n <= |all|
              && services.copies == old(services.copies) + CopyOutcomes(n, n == |all|)
              && services.log == old(services.log) + ReceivedAll(slots[..], all[..n], frame)
                                 + [Transmitted(p.prepend, frame[HEADER_SIZE..])]
      ensures services.left == old(services.left) + mine + [p.Snapshot()] && NewlySettled(mine)
    {
      hide CopyOutcomes, ReceivedAll, Received, Pair, Quad, Recipients, Services.Valid, Settled;
      var b := p.Bytes();
      var msw := Pair(b[0], b[1]);
      var lsw := Quad(b[2], b[3], b[4], b[5]);
      n, mine := FanOut(p, sender, msw, lsw);
      SettledFewer(mine, services.held, services.held - {p});
      Finish(p);
    }

    // ----- Sending -----

    /** Put an Ethernet header in front of a packet's bytes.  The four words start two bytes before the frame, so
        sixteen bytes are written in all. */
    method BuildHeader(p: Packet, dst: Mac, src: Mac, etherType: bv32)
      requires p.home == services && p.Held() && p.prepend >= 16
      modifies p`prepend, p`length, p.data
      ensures p.prepend == old(p.prepend) - HEADER_SIZE && p.length == old(p.length) + HEADER_SIZE
      ensures p.data[..] == old(p.data[..p.prepend - 16]) + HeaderBytes(dst, src, etherType) + old(p.data[p.prepend..])
      ensures p.Held() && p.Bytes() == Header(dst, src, etherType) + old(p.Bytes())
    {
      hide BigEndian, UpperPacked, LowerPacked;
      ghost var s, front, bytes := p.data[..], p.prepend, HeaderBytes(dst, src, etherType);
      p.prepend := p.prepend - HEADER_SIZE;
      p.length := p.length + HEADER_SIZE;
      var upper, lower := UpperPacked(src.msw, src.lsw), LowerPacked(src.lsw, etherType);
      WriteWords(p.data, p.prepend - 2, dst.msw, dst.lsw, upper, lower, little);
      PatchedFront(s, front, bytes, p.length - HEADER_SIZE);
    }

    /** What a packet carries. */
    ghost function CargoOf(p: Packet?): Cargo
      reads if p == null then {} else {p, p.home, p.data}
    {
      if p == null || !p.Held() then Cargo([], 0) else Cargo(p.Bytes(), p.prepend)
    }

    /** The type field for a send command. */
    method ChooseType(c: Command, version: nat) returns (etherType: bv32)
      requires c.IsSend()
      ensures etherType == EtherTypeFor(c, version) && Low16(etherType) == etherType
    {
      if c == ArpSend {
        etherType := ETHERNET_ARP;
      } else if c == ArpResponseSend {
        etherType := ETHERNET_ARP;
      } else if c == RarpSend {
        etherType := ETHERNET_RARP;
      } else if version == 4 {
        etherType := ETHERNET_IP;
      } else {
        etherType := ETHERNET_IPV6;
      }
    }

    /** Turn a packet into the frame a send command calls for. */
    method BuildFrame(r: Request, p: Packet)
      requires r.command.IsSend() && r.nic in services.nics
      requires p.home == services && p.Held() && p.prepend >= 16
      modifies p`prepend, p`length, p.data
      ensures p.prepend == old(p.prepend) - HEADER_SIZE && p.length == old(p.length) + HEADER_SIZE && p.Held()
      ensures p.data[..] == old(p.data[..p.prepend - 16])
                            + HeaderBytes(r.address, services.nics[r.nic].physical, EtherTypeFor(r.command, p.version))
                            + old(p.data[p.prepend..])
      ensures p.Bytes() == Header(r.address, services.nics[r.nic].physical, EtherTypeFor(r.command, p.version))
                           + old(p.Bytes())
      ensures Destination(p.Bytes()) == Truncate(r.address) && p.Bytes()[HEADER_SIZE..] == old(p.Bytes())
      ensures p.Bytes()[12..14] ==
                match r.command
                case ArpSend | ArpResponseSend => [0x08, 0x06]
                case RarpSend => [0x80, 0x35]
                case _ => if p.version == 4 then [0x08, 0x00] else [0x86, 0xDD]
    {
      hide HeaderBytes, Header, EtherTypeFor, Destination, Source, EtherType, BigEndian;
      TypeInHeader(r.address, services.nics[r.nic].physical, r.command, p.version);
      var etherType := ChooseType(r.command, p.version);
      ghost var src, payload := services.nics[r.nic].physical, p.Bytes();
      BuildHeader(p, r.address, services.nics[r.nic].physical, etherType);
      HeaderRoundTrip(r.address, src, etherType, payload);
    }

    /** Build the frame a send command calls for and transmit it. */
    method Send(r: Request, p: Packet, sender: nat) returns (ghost n: nat, ghost mine: seq<Custody>)
      requires r.command.IsSend() && r.nic in services.nics && services.Valid()
      requires forall k | k in Recipients(slots[..], sender, Truncate(r.address), slots.Length) ::
                 slots[k].ip in services.ips
      requires p.home == services && p.Held() && p.prepend >= 16 && p.data as object != slots
      modifies p`prepend, p`length, p.data, services`log, services`copies, services`held, services`left
      ensures p.prepend == old(p.prepend) && p.length == old(p.length)
      ensures p.data[..] == old(p.data[..p.prepend - 16])
                            + HeaderBytes(r.address, services.nics[r.nic].physical, EtherTypeFor(r.command, p.version))
                            + old(p.data[p.prepend..])
      ensures services.Valid() && services.held == old(services.held) - {p}
      ensures var all := Recipients(slots[..], sender, Truncate(r.address), slots.Length);
              && n <= |all|
              && services.copies == old(services.copies) + CopyOutcomes(n, n == |all|)
              && services.log == old(services.log) + Deliveries(slots[..], all[..n], RouteFor(r.command), old(p.Bytes()))
                                 + [Transmitted(p.prepend, old(p.Bytes()))]
      ensures services.left == old(services.left) + mine + [p.Snapshot()] && NewlySettled(mine)
    {
      hide CopyOutcomes, ReceivedAll, Deliveries, Recipients, HeaderBytes, Header, EtherTypeFor, Services.Valid, Settled;
      hide Destination, Truncate, RouteFor;
      ghost var src, payload := services.nics[r.nic].physical, p.Bytes();
      ghost var to := Recipients(slots[..], sender, Truncate(r.address), slots.Length);
      BuildFrame(r, p);
      n, mine := Output(p, sender);
      FramesCarryPayload(slots[..], to[..n], r.address, src, r.command, p.version, payload);
    }

    // ----- The instance table -----

    /** The live instance attached for this IP and interface, or the table's length. */
    method FindInstance(ip: Address, nic: Address) returns (i: nat)
      ensures i == Lookup(slots[..], ip, nic)
    {
      i := 0;
      while i < slots.Length
        invariant i <= slots.Length
        invariant forall j | 0 <= j < i :: !Matches(slots[j], ip, nic)
      {
        if slots[i].inUse && slots[i].ip == ip && slots[i].nic == nic {
          break;
        }
        i := i + 1;
      }
    }

    method AttachInstance(ip: Address, nic: Address) returns (status: Status)
      modifies slots
      ensures var k := FreeSlot(old(slots[..]));
              if k < slots.Length then
                status == Success
                && slots[..] == old(slots[..])[k := Slot(true, k, nic, ip, SimulatedMac(k), old(slots[..])[k].mcast)]
              else
                status == InvalidInterface && slots[..] == old(slots[..])
    {
      hide SimulatedMac;
      var i := 0;
      while i < slots.Length
        invariant i <= slots.Length
        invariant forall j | 0 <= j < i :: slots[j].inUse
      {
        if !slots[i].inUse {
          break;
        }
        i := i + 1;
      }
      if i < slots.Length {
        slots[i] := slots[i].(inUse := true);
        slots[i] := slots[i].(id := i);
        slots[i] := slots[i].(nic := nic);
        slots[i] := slots[i].(ip := ip);
        slots[i] := slots[i].(mac := SimulatedMac(i));
        status := Success;
      } else {
        status := InvalidInterface;
      }
    }

    method Join(i: nat, m: Mac) returns (status: Status)
      requires i < slots.Length
      modifies slots
      ensures var s := old(slots[i]);
              var k := PlaceOf(s.mcast, ZERO_MAC);
              if k < |s.mcast| then
                status == Success && slots[..] == old(slots[..])[i := s.(mcast := s.mcast[k := m])]
              else
                status == NoMoreEntries && slots[..] == old(slots[..])
    {
      var j := 0;
      while j < |slots[i].mcast|
        invariant j <= |slots[i].mcast|
        invariant forall x | 0 <= x < j :: slots[i].mcast[x] != ZERO_MAC
      {
        if slots[i].mcast[j].msw == 0 && slots[i].mcast[j].lsw == 0 {
          slots[i] := slots[i].(mcast := slots[i].mcast[j := m]);
          return Success;
        }
        j := j + 1;
      }
      status := NoMoreEntries;
    }

    method Leave(i: nat, m: Mac) returns (status: Status)
      requires i < slots.Length
      modifies slots
      ensures var s := old(slots[i]);
              var k := PlaceOf(s.mcast, m);
              if k < |s.mcast| then
                status == Success && slots[..] == old(slots[..])[i := s.(mcast := s.mcast[k := ZERO_MAC])]
              else
                status == EntryNotFound && slots[..] == old(slots[..])
    {
      var j := 0;
      while j < |slots[i].mcast|
        invariant j <= |slots[i].mcast|
        invariant forall x | 0 <= x < j :: slots[i].mcast[x] != m
      {
        if slots[i].mcast[j].msw == m.msw && slots[i].mcast[j].lsw == m.lsw {
          slots[i] := slots[i].(mcast := slots[i].mcast[j := ZERO_MAC]);
          return Success;
        }
        j := j + 1;
      }
      status := EntryNotFound;
    }

    method SetAddress(nic: Address, m: Mac) returns (status: Status)
      modifies slots
      ensures var k := SlotOfNic(old(slots[..]), nic);
              if k < slots.Length then
                status == Success && slots[..] == old(slots[..])[k := old(slots[..])[k].(mac := m)]
              else
                status == InvalidInterface && slots[..] == old(slots[..])
    {
      var i := 0;
      while i < slots.Length
        invariant i <= slots.Length
        invariant forall j | 0 <= j < i :: slots[j].nic != nic
      {
        if slots[i].nic == nic {
          break;
        }
        i := i + 1;
      }
      if i < slots.Length {
        slots[i] := slots[i].(mac := m);
        status := Success;
      } else {
        status := InvalidInterface;
      }
    }

    method ConfigureNic(ip: Address, nic: Address, i: nat)
      requires i < slots.Length && nic in services.nics && ip in services.ips
      modifies services`nics
      ensures var index := old(services.nics)[nic].index;
              services.nics ==
                if index < |services.ips[ip]| && services.ips[ip][index] in old(services.nics) then
                  var a := services.ips[ip][index];
                  old(services.nics)[a := old(services.nics)[a].(mtu := LINK_MTU - HEADER_SIZE,
                                                                 physical := slots[i].mac, mapped := true)]
                else old(services.nics)
    {
      var index := services.nics[nic].index;
      services.MtuSet(ip, index, LINK_MTU - HEADER_SIZE);
      services.PhysicalAddressSet(ip, index, slots[i].mac);
      services.AddressMappingConfigure(ip, index, true);
    }

    /** Every command that is not a send, once the instance it is about has been found. */
    method Control(r: Request, i: nat) returns (status: Status, answer: Answer)
      requires Known(State(), r) && !r.command.IsSend()
      requires !r.command.Attach? ==> i == Lookup(slots[..], r.ip, r.nic) < slots.Length
      modifies slots, services`nics
      ensures State() == Apply(old(State()), r).net && status == Apply(old(State()), r).status
      ensures answer == AnswerTo(old(State()), r)
    {
      hide SimulatedMac;
      status, answer := Success, Nothing;
      match r.command
      case Attach =>
        status := AttachInstance(r.ip, r.nic);
      case Detach | Uninitialize =>
        slots[i] := Erased(slots[i]);
      case Initialize =>
        ConfigureNic(r.ip, r.nic, i);
      case Enable =>
        services.nics := services.nics[r.nic := services.nics[r.nic].(linkUp := true)];
      case Disable =>
        services.nics := services.nics[r.nic := services.nics[r.nic].(linkUp := false)];
      case MulticastJoin =>
        status := Join(i, r.address);
      case MulticastLeave =>
        status := Leave(i, r.address);
      case GetStatus =>
        answer := Link(services.nics[services.ips[r.ip][0]].linkUp);
      case GetFeature(InterfaceType) =>
        answer := UnknownType;
      case GetFeature(_) =>
        answer := Zero;
      case SetPhysicalAddress =>
        status := SetAddress(r.nic, r.address);
      case Unknown =>
        status := UnhandledCommand;
      case DeferredProcessing =>
    }

    /** New custodies as after a request: those of copies, and that of the request's packet `p`, if it has one. */
    twostate predicate SettledWith(new left: seq<Custody>, p: Packet?)
      reads services, set c | c in left :: c.packet, set c | c in left :: c.packet.data
    {
      && Settled(left, services.held)
      && forall c | c in left :: c.packet == p || (fresh(c.packet) && fresh(c.packet.data))
    }

    /** A send whose instance has been found. */
    method Transmit(r: Request, p: Packet, sender: nat) returns (ghost n: nat, ghost gone: seq<Custody>)
      requires Known(State(), r) && Accepted(State(), r) && PoolsExist(State(), r) && services.Valid()
      requires sender == Lookup(slots[..], r.ip, r.nic)
      requires p.home == services && p.Held() && p.prepend >= 16 && p.data as object != slots
      modifies p`prepend, p`length, p.data, services`log, services`copies, services`held, services`left
      ensures unchanged(p) && State() == old(State())
      ensures p.data[..] == old(p.data[..p.prepend - 16])
                            + HeaderBytes(r.address, services.nics[r.nic].physical, EtherTypeFor(r.command, p.version))
                            + old(p.data[p.prepend..])
      ensures p.data[p.prepend - 2..p.prepend] ==
                match r.command
                case ArpSend | ArpResponseSend => [0x08, 0x06]
                case RarpSend => [0x80, 0x35]
                case _ => if p.version == 4 then [0x08, 0x00] else [0x86, 0xDD]
      ensures services.Valid() && services.held == old(services.held) - {p}
      ensures n <= |Due(old(State()), r)|
      ensures services.copies == old(services.copies) + Copied(old(State()), r, n)
      ensures services.log == old(services.log) + Sent(old(State()), r, old(CargoOf(p)), n)
      ensures services.left == old(services.left) + gone && SettledWith(gone, p)
    {
      hide Apply, Recipients, Sent, Copied, Due, PoolsExist, HeaderBytes, EtherTypeFor, Deliveries, CopyOutcomes;
      hide Services.Valid, Settled, BigEndian, Header;
      ghost var before, src := p.data[..], services.nics[r.nic].physical;
      TypeInHeader(r.address, src, r.command, p.version);
      ghost var net, cargo := State(), CargoOf(p);
      SentWhenAccepted(net, r, cargo, 0);
      n, gone := Send(r, p, sender);
      SentWhenAccepted(net, r, cargo, n);
      TailOfPatch(p.data[..], before, p.prepend, HeaderBytes(r.address, src, EtherTypeFor(r.command, p.version)));
      OneSettled(p, services.held);
      SettledMore(gone, [p.Snapshot()], services.held);
      gone := gone + [p.Snapshot()];
    }

    /**
     One driver request.  The table, the interface blocks and the status follow `Apply`.  A send that finds its
     instance delivers a prefix of the abstract transmission, the whole of it unless a copy failed, and releases
     the packet as it came; any other request, and a send that finds no instance, leaves the packet alone.  What has
     left the driver, the packet included, is not changed again.
     */
    method Handle(r: Request, p: Packet?) returns (status: Status, answer: Answer, ghost n: nat, ghost gone: seq<Custody>)
      requires Known(State(), r) && PoolsExist(State(), r) && services.Valid()
      requires r.command.IsSend() ==> p != null && p.home == services && p.Held() && p.prepend >= 16
      requires p != null ==> p.data as object != slots  // the packet's buffer is not the instance table
      modifies slots, services, if p == null then {} else {p, p.data}
      ensures State() == Apply(old(State()), r).net && status == Apply(old(State()), r).status
      ensures answer == AnswerTo(old(State()), r)
      ensures p != null ==> unchanged(p)
      ensures Accepted(old(State()), r) ==>
                p.data[..] == old(p.data[..p.prepend - 16])
                  + HeaderBytes(r.address, old(services.nics)[r.nic].physical, EtherTypeFor(r.command, p.version))
                  + old(p.data[p.prepend..])
      ensures Accepted(old(State()), r) ==>
                p.data[p.prepend - 2..p.prepend] ==
                  match r.command
                  case ArpSend | ArpResponseSend => [0x08, 0x06]
                  case RarpSend => [0x80, 0x35]
                  case _ => if p.version == 4 then [0x08, 0x00] else [0x86, 0xDD]
      ensures !Accepted(old(State()), r) && p != null ==> unchanged(p.data)
      ensures n <= |Due(old(State()), r)|
      ensures services.copies == old(services.copies) + Copied(old(State()), r, n)
      ensures services.log == old(services.log) + Sent(old(State()), r, old(CargoOf(p)), n)
      ensures services.held == if Accepted(old(State()), r) then old(services.held) - {p} else old(services.held)
      ensures r.command.IsSend() ==>
                (p !in services.held <==> exists k | 0 <= k < slots.Length :: Matches(old(slots[..])[k], r.ip, r.nic))
      ensures services.Valid() && services.left == old(services.left) + gone && SettledWith(gone, p)
    {
      hide Apply, AnswerTo, Recipients, Sent, Copied, Due, PoolsExist, HeaderBytes, EtherTypeFor, Deliveries, CopyOutcomes;
      hide Services.Valid, Settled, Matches, Lookup;
      ghost var net, cargo := State(), CargoOf(p);
      FoundIffMatched(net.slots, r.ip, r.nic);
      status, answer, n, gone := Success, Nothing, 0, [];
      NoneSettled(services.held);
      var i := 0;
      if r.command != Attach {
        i := FindInstance(r.ip, r.nic);
        if i == slots.Length {
          NotFound(net, r);
          NothingSent(net, r, cargo);
          return InvalidInterface, Nothing, 0, [];
        }
      }
      if r.command.IsSend() {
        SendStatus(net, r);
        n, gone := Transmit(r, p, i);
      } else {
        NothingSent(net, r, cargo);
        status, answer := Control(r, i);
      }
    }

    /** A packet that can be handed to a send, and what it carries. */
    ghost predicate Carries(p: Packet, cargo: Cargo)
      reads p, p.data
    {
      && p.home == services && 16 <= p.prepend && p.prepend + p.length <= p.data.Length
      && cargo == Cargo(p.data[p.prepend..p.prepend + p.length], p.prepend)
    }

    /** One request with a packet if and only if it is a send; other packets, and what left earlier, are none of its
        business.  A refused packet is as it was. */
    method HandleOne(r: Request, p: Packet?, ghost cargo: Cargo, ghost earlier: seq<Custody>)
      returns (status: Status, ghost n: nat, ghost gone: seq<Custody>)
      requires Known(State(), r) && PoolsExist(State(), r) && services.Valid()
      requires p != null <==> r.command.IsSend()
      requires p != null ==> p in services.held && Carries(p, cargo) && p.data as object != slots
      requires p != null ==> forall c | c in earlier && c.packet != p :: c.packet.data != p.data
      requires Settled(earlier, services.held) && forall c | c in earlier :: c.packet.data as object != slots
      modifies slots, services, if p == null then {} else {p, p.data}
      ensures State() == Apply(old(State()), r).net && status == Apply(old(State()), r).status
      ensures p != null ==> unchanged(p) && (status == Success <==> Accepted(old(State()), r))
      ensures p != null && status != Success ==> unchanged(p.data)
      ensures n <= |Due(old(State()), r)|
      ensures services.copies == old(services.copies) + Copied(old(State()), r, n)
      ensures services.log == old(services.log) + Sent(old(State()), r, cargo, n)
      ensures services.held == old(services.held) - if p != null && status == Success then {p} else {}
      ensures services.Valid() && services.left == old(services.left) + gone
      ensures Settled(earlier + gone, services.held)
      ensures forall c | c in gone :: c.packet == p || (fresh(c.packet) && fresh(c.packet.data))
    {
      hide Apply, Sent, Copied, Due, PoolsExist, HeaderBytes, EtherTypeFor, Services.Valid, Settled;
      SendStatus(State(), r);
      if p == null {
        NothingSent(State(), r, cargo);
        NothingSent(State(), r, CargoOf(p));
      }
      EachSettled(earlier, services.held);
      var answer;
      status, answer, n, gone := Handle(r, p);
      forall c | c in earlier ensures c.Intact() {
        assert old(c.Intact());
      }
      SettledEach(earlier, services.held);
      SettledMore(earlier, gone, services.held);
    }

    /** A packet is handed to one send after another only if the earlier one was refused, and different packets have
        different buffers. */
    ghost predicate Dealt(net: Net, reqs: seq<Request>, packets: seq<Packet?>)
      requires AllKnown(net, reqs) && |packets| == |reqs|
    {
      forall i, j | 0 <= i < j < |reqs| && packets[i] != null && packets[j] != null ::
        if packets[i] == packets[j] then !Accepted(StateAt(net, reqs, i), reqs[i]) else packets[i].data != packets[j].data
    }

    /**
     Any sequence of requests, each send with a packet the driver owns.  The state is that of the run, the statuses are
     those the run reports, and events and copies are those of the run for some numbers of successful copies.  The driver
     has given up exactly the packets whose send was accepted, and has not changed anything since it gave it up.
     */
    method Process(reqs: seq<Request>, packets: seq<Packet?>, ghost cargos: seq<Cargo>)
      returns (statuses: seq<Status>, ghost ns: seq<nat>, ghost gone: seq<Custody>)
      requires AllKnown(State(), reqs) && PoolsThroughout(State(), reqs) && services.Valid()
      requires |packets| == |cargos| == |reqs| && Dealt(State(), reqs, packets)
      requires forall i | 0 <= i < |reqs| :: packets[i] != null <==> reqs[i].command.IsSend()
      requires forall i | 0 <= i < |reqs| && packets[i] != null ::
                 packets[i] in services.held && Carries(packets[i], cargos[i])
      requires forall p | p in packets && p != null :: p.data as object != slots
      modifies slots, services, set p | p in packets && p != null, set p | p in packets && p != null :: p.data
      ensures State() == Run(old(State()), reqs) && statuses == Statuses(old(State()), reqs)
      ensures |ns| == |reqs| && Within(old(State()), reqs, ns)
      ensures services.log == old(services.log) + Events(old(State()), reqs, cargos, ns)
      ensures services.copies == old(services.copies) + Attempts(old(State()), reqs, ns)
      ensures services.held == old(services.held) - Spent(packets, statuses)
      ensures FromBlank(old(State())) ==> forall p | p in packets && p != null ::
                p !in services.held <==>
                exists i | 0 <= i < |reqs| && packets[i] == p ::
                  Balance(old(State()), reqs[..i], reqs[i].ip, reqs[i].nic) > 0
      ensures services.Valid() && services.left == old(services.left) + gone && Settled(gone, services.held)
      ensures forall c | c in gone :: c.packet in packets || (fresh(c.packet) && fresh(c.packet.data))
    {
      hide Apply, Run, Statuses, Known, AllKnown, Traced, Events, Attempts, Within, PoolsThroughout, PoolsExist;
      hide Due, Sent, Copied, StateAt, Accepted, Spent, Dealt, FromBlank, Balance, Services.Valid, Settled, Carries;
      ghost var start, log0, copies0 := State(), services.log, services.copies;
      statuses, ns, gone := [], [], [];
      var n := 0;
      NoRequests(start, reqs);
      NothingTraced(start, reqs, cargos, log0, copies0);
      NoneSettled(services.held);
      NoneSpent(packets);
      while n < |reqs|
        invariant n <= |reqs| == |packets| && AllKnown(start, reqs) && AllKnown(start, reqs[..n])
        invariant State() == Run(start, reqs[..n]) && statuses == Statuses(start, reqs[..n])
        invariant Traced(start, reqs, cargos, n, ns, log0, copies0, services.log, services.copies)
        invariant forall i | n <= i < |reqs| && packets[i] != null ::
                    packets[i] in services.held && Carries(packets[i], cargos[i])
        invariant services.held == old(services.held) - Spent(packets, statuses)
        invariant services.Valid() && services.left == old(services.left) + gone && Settled(gone, services.held)
        invariant forall c | c in gone :: c.packet in packets[..n] || (fresh(c.packet) && fresh(c.packet.data))
        invariant forall c | c in gone :: c.packet.data as object != slots
      {
        OneMoreRequest(start, reqs, n);
        StateAtIsRun(start, reqs, n);
        PoolsAt(start, reqs, n);
        DealtAt(start, reqs, packets, n);
        var status;
        ghost var made, more;
        ghost var log, copies := services.log, services.copies;
        status, made, more := HandleOne(reqs[n], packets[n], cargos[n], gone);
        OneMoreTraced(start, reqs, cargos, n, ns, made, log0, copies0, log, copies);
        OneMoreSpent(packets, statuses, status);
        statuses, ns, gone := statuses + [status], ns + [made], gone + more;
        n := n + 1;
      }
      assert reqs[..n] == reqs;
      AllTraced(start, reqs, cargos, ns, log0, copies0, services.log, services.copies);
      SpentIffAttached(start, reqs, packets);
    }

    lemma DealtAt(net: Net, reqs: seq<Request>, packets: seq<Packet?>, n: nat)
      requires AllKnown(net, reqs) && n < |reqs| == |packets| && Dealt(net, reqs, packets)
      ensures packets[n] != null ==>
                && (forall p | p in packets[..n] && p != null && p != packets[n] :: p.data != packets[n].data)
                && forall j | n < j < |reqs| && packets[j] != null ::
                     if packets[j] == packets[n] then !Accepted(StateAt(net, reqs, n), reqs[n])
                     else packets[j].data != packets[n].data
    {
    }

    /** There are sends whose packet is not released: on a table without instances the driver keeps it. */
    method SendOnBlank(r: Request, p: Packet) returns (status: Status)
      requires slots[..] == BlankTable(4, 3) && Known(State(), r) && r.command == PacketSend && services.Valid()
      requires p.home == services && p.Held() && p.prepend >= 16 && p.data as object != slots
      modifies slots, services, p, p.data
      ensures status == InvalidInterface && p.Held() && services.log == old(services.log)
    {
      hide Apply, PoolsExist, Due;
      BlankRefuses(State(), r.ip, r.nic, r.address);
      NothingSent(State(), r, CargoOf(p));
      var answer;
      ghost var n, gone;
      status, answer, n, gone := Handle(r, p);
    }
  }

  /** The last two of sixteen bytes patched in before `at`. */
  lemma TailOfPatch(after: seq<bv8>, before: seq<bv8>, at: nat, bytes: seq<bv8>)
    requires |bytes| == 16 <= at <= |before| && after == before[..at - 16] + bytes + before[at..]
    ensures after[at - 2..at] == bytes[14..16]
  {
  }

  /** The packets whose send was accepted. */
  function Spent(packets: seq<Packet?>, statuses: seq<Status>): (s: set<Packet>)
    requires |statuses| <= |packets|
  {
    if statuses == [] then {} else
      var n := |statuses| - 1;
      Spent(packets, statuses[..n]) + if packets[n] != null && statuses[n] == Success then {packets[n]} else {}
  }

  lemma {:induction false} SpentMeans(packets: seq<Packet?>, statuses: seq<Status>, p: Packet)
    requires |statuses| <= |packets|
    ensures p in Spent(packets, statuses) <==>
            exists i | 0 <= i < |statuses| && packets[i] == p :: statuses[i] == Success
  {
    if statuses == [] {
    } else {
      var n := |statuses| - 1;
      SpentMeans(packets, statuses[..n], p);
      assert forall i | 0 <= i < n :: statuses[..n][i] == statuses[i];
      assert packets[n] == p && statuses[n] == Success ==> p in Spent(packets, statuses);
    }
  }

  lemma NoneSpent(packets: seq<Packet?>)
    ensures Spent(packets, []) == {}
  {
  }

  lemma OneMoreSpent(packets: seq<Packet?>, statuses: seq<Status>, status: Status)
    requires |statuses| < |packets|
    ensures var p := packets[|statuses|];
            Spent(packets, statuses + [status])
            == Spent(packets, statuses) + if p != null && status == Success then {p} else {}
  {
    assert (statuses + [status])[..|statuses|] == statuses;
  }

  /** From a blank table those are the packets sent for a pair that was attached, going by requests and statuses. */
  lemma SpentIffAttached(net: Net, reqs: seq<Request>, packets: seq<Packet?>)
    requires AllKnown(net, reqs) && |packets| == |reqs|
    requires forall i | 0 <= i < |reqs| :: packets[i] != null <==> reqs[i].command.IsSend()
    ensures FromBlank(net) ==> forall p: Packet :: p in Spent(packets, Statuses(net, reqs)) <==>
              exists i | 0 <= i < |reqs| && packets[i] == p :: Balance(net, reqs[..i], reqs[i].ip, reqs[i].nic) > 0
  {
    hide Apply, Run, Balance, Statuses, FromBlank, Spent;
    AllAcceptedIffAttached(net, reqs);
    forall p: Packet { SpentMeans(packets, Statuses(net, reqs), p); }
  }
}
