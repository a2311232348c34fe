/**
 The NetX side of the driver: packets, interface control blocks, and the
 services the driver calls.  A control block is named by its address; address
 0 is the null pointer.

 `held` is the set of packets the driver owns.  A hand-off or release asks for
 membership and takes the packet out, so no packet is given away twice.  It
 also leaves a `Custody`, the packet as it was at that moment; `Settled` says
 that the packets of some custodies have been left alone since.
 */
module Netx {
  import opened Frame

  type Address = nat

  const NULL: Address := 0

  /** An interface control block, as far as the driver reads or writes it. */
  datatype Nic = Nic(index: nat, physical: Mac, linkUp: bool, mtu: nat, mapped: bool)

  /** What leaves the driver. */
  datatype Event =
    | Delivered(slot: nat, ip: Address, nic: Address, route: Route, bytes: seq<bv8>)
    | Transmitted(prepend: nat, bytes: seq<bv8>)

  /** A packet as it was when it left the driver. */
  datatype Custody = Custody(packet: Packet, prepend: nat, length: nat, version: nat, nic: Address, buffer: seq<bv8>) {

    /** The packet is still as it was. */
    ghost predicate Intact()
      reads packet, packet.data
    {
      && packet.prepend == prepend && packet.length == length && packet.version == version && packet.nic == nic
      && packet.data[..] == buffer
    }

    /** The event tells of this packet. */
    predicate Records(e: Event) {
      && prepend + length <= |buffer|
      && e.bytes == buffer[prepend..prepend + length]
      && match e
         case Delivered(_, _, n, _, _) => n == nic
         case Transmitted(start, _) => start == prepend
    }
  }

  /** No two of these packets are the same or share a buffer. */
  predicate Apart(left: seq<Custody>) {
    forall i, j | 0 <= i < j < |left| ::
      left[i].packet != left[j].packet && left[i].packet.data != left[j].packet.data
  }

  /** None of these packets is owned or has been changed, and no two of them are the same or share a buffer. */
  ghost predicate Settled(left: seq<Custody>, held: set<Packet>)
    reads set c | c in left :: c.packet, set c | c in left :: c.packet.data
  {
    Apart(left) && forall c | c in left :: c.packet !in held && c.Intact()
  }

  lemma NoneSettled(held: set<Packet>)
    ensures Settled([], held)
  {
  }

  lemma OneSettled(p: Packet, held: set<Packet>)
    requires p !in held
    ensures Settled([p.Snapshot()], held)
  {
  }

  lemma SettledMore(left: seq<Custody>, more: seq<Custody>, held: set<Packet>)
    requires Settled(left, held) && Settled(more, held)
    requires forall c, d | c in left && d in more :: c.packet != d.packet && c.packet.data != d.packet.data
    ensures Settled(left + more, held)
  {
  }

  lemma SettledFewer(left: seq<Custody>, held: set<Packet>, fewer: set<Packet>)
    requires Settled(left, held) && fewer <= held
    ensures Settled(left, fewer)
  {
  }

  lemma EachSettled(left: seq<Custody>, held: set<Packet>)
    requires Settled(left, held)
    ensures Apart(left) && forall c | c in left :: c.packet !in held && c.Intact()
  {
  }

  /** Field by field: what has settled is not owned, is as recorded, and shares neither packet nor buffer with another. */
  lemma SettledInFull(left: seq<Custody>, held: set<Packet>, i: nat, j: nat)
    requires Settled(left, held) && i < |left| && j < |left|
    ensures i != j ==> left[i].packet != left[j].packet && left[i].packet.data != left[j].packet.data
    ensures var c := left[i];
            && c.packet !in held && c.packet.data[..] == c.buffer
            && c.packet.prepend == c.prepend && c.packet.length == c.length && c.packet.version == c.version
            && c.packet.nic == c.nic
  {
    EachSettled(left, held);
    assert left[i] in left;
  }

  lemma SettledEach(left: seq<Custody>, held: set<Packet>)
    requires Apart(left) && forall c | c in left :: c.packet !in held && c.Intact()
    ensures Settled(left, held)
  {
  }

  class Packet {
    ghost const home: Services
    const data: array<bv8>
    var prepend: nat
    var length: nat
    var version: nat
    var nic: Address

    constructor (ghost home: Services, data: array<bv8>, prepend: nat, length: nat, version: nat, nic: Address)
      ensures this.home == home && this.data == data
      ensures this.prepend == prepend && this.length == length && this.version == version && this.nic == nic
    {
      this.home, this.data := home, data;
      this.prepend, this.length, this.version, this.nic := prepend, length, version, nic;
    }

    /** The driver owns the packet, and its bytes lie inside its buffer. */
    ghost predicate Held()
      reads this, home
    {
      this in home.held && prepend + length <= data.Length
    }

    /** The bytes from the prepend pointer on. */
    function Bytes(): (b: seq<bv8>)
      requires Held()
      reads this, data, home
      ensures |b| == length
    {
      data[prepend..prepend + length]
    }

    /** Take `n` bytes off the front. */
    method Strip(n: nat)
      requires Held() && n <= length
      modifies this`prepend, this`length
      ensures Held() && Bytes() == old(Bytes())[n..]
      ensures prepend == old(prepend) + n && length == old(length) - n
    {
      prepend := prepend + n;
      length := length - n;
    }

    ghost function Snapshot(): Custody
      reads this, data
    {
      Custody(this, prepend, length, version, nic, data[..])
    }

    method SetNic(a: Address)
      requires Held()
      modifies this`nic
      ensures nic == a
    {
      nic := a;
    }
  }

  class Services {
    var nics: map<Address, Nic>
    const ips: map<Address, seq<Address>>
    var log: seq<Event>
    var copies: seq<bool>
    ghost var held: set<Packet>
    ghost var left: seq<Custody>

    /** Every event has its packet. */
    ghost predicate Valid()
      reads `log, `left
    {
      |log| == |left| && forall i | 0 <= i < |log| :: left[i].Records(log[i])
    }

    /** Every event's bytes are those its packet had between its offset and its end. */
    lemma EventsAreOfPackets(i: nat)
      requires Valid() && i < |log|
      ensures |left| == |log|
      ensures var c := left[i];
              && c.prepend + c.length <= |c.buffer| && log[i].bytes == c.buffer[c.prepend..c.prepend + c.length]
              && (if log[i].Delivered? then log[i].nic == c.nic else log[i].prepend == c.prepend)
    {
    }

    constructor (nics: map<Address, Nic>, ips: map<Address, seq<Address>>)
      ensures this.nics == nics && this.ips == ips && log == [] && copies == [] && held == {} && left == []
      ensures Valid()
    {
      this.nics, this.ips := nics, ips;
      log, copies, held, left := [], [], {}, [];
    }

    /** Copy a packet from the default pool of an IP instance without waiting: no effect on failure, a fresh packet with
        the same bytes on success. */
    method Copy(p: Packet, ip: Address) returns (ok: bool, c: Packet)
      requires p.home == this && p.Held() && ip in ips
      modifies this`copies, this`held
      ensures copies == old(copies) + [ok]
      ensures !ok ==> held == old(held)
      ensures ok ==> fresh(c) && fresh(c.data) && held == old(held) + {c}
      ensures ok ==> c.home == this && c.Held() && c.Bytes() == p.Bytes() && c.version == p.version
    {
      ok := *;
      c := p;
      if ok {
        var room :| 0 <= room;
        var bytes := p.Bytes();
        var data := new bv8[room + |bytes|](i => if room <= i < room + |bytes| then bytes[i - room] else 0);
        assert data[room..room + |bytes|] == bytes;
        c := new Packet(this, data, room, |bytes|, p.version, NULL);
        held := held + {c};
        assert c.Bytes() == bytes;
      }
      copies := copies + [ok];
    }

    /** Give a packet to the stack's IP, ARP or RARP queue, or discard it. */
    method HandOff(slot: nat, ip: Address, p: Packet, route: Route)
      requires Valid() && p.home == this && p.Held()
      modifies this`log, this`held, this`left
      ensures Valid() && held == old(held) - {p} && left == old(left) + [p.Snapshot()]
      ensures log == old(log) + [Delivered(slot, ip, p.nic, route, old(p.Bytes()))]
    {
      log := log + [Delivered(slot, ip, p.nic, route, p.Bytes())];
      held, left := held - {p}, left + [p.Snapshot()];
    }

    /** Release a packet whose transmission is over. */
    method TransmitRelease(p: Packet)
      requires Valid() && p.home == this && p.Held()
      modifies this`log, this`held, this`left
      ensures Valid() && held == old(held) - {p} && left == old(left) + [p.Snapshot()]
      ensures log == old(log) + [Transmitted(p.prepend, old(p.Bytes()))]
    {
      log := log + [Transmitted(p.prepend, p.Bytes())];
      held, left := held - {p}, left + [p.Snapshot()];
    }

    /** The three settings of interface `index` of an IP instance do nothing when there is no such interface. */
    method MtuSet(ip: Address, index: nat, mtu: nat)
      requires ip in ips
      modifies this`nics
      ensures nics == if index < |ips[ip]| && ips[ip][index] in old(nics) then
                        var a := ips[ip][index]; old(nics)[a := old(nics)[a].(mtu := mtu)]
                      else
                        old(nics)
    {
      if index < |ips[ip]| && ips[ip][index] in nics {
        var a := ips[ip][index];
        nics := nics[a := nics[a].(mtu := mtu)];
      }
    }

    method PhysicalAddressSet(ip: Address, index: nat, m: Mac)
      requires ip in ips
      modifies this`nics
      ensures nics == if index < |ips[ip]| && ips[ip][index] in old(nics) then
                        var a := ips[ip][index]; old(nics)[a := old(nics)[a].(physical := m)]
                      else
                        old(nics)
    {
      if index < |ips[ip]| && ips[ip][index] in nics {
        var a := ips[ip][index];
        nics := nics[a := nics[a].(physical := m)];
      }
    }

    method AddressMappingConfigure(ip: Address, index: nat, mapped: bool)
      requires ip in ips
      modifies this`nics
      ensures nics == if index < |ips[ip]| && ips[ip][index] in old(nics) then
                        var a := ips[ip][index]; old(nics)[a := old(nics)[a].(mapped := mapped)]
                      else
                        old(nics)
    {
      if index < |ips[ip]| && ips[ip][index] in nics {
        var a := ips[ip][index];
        nics := nics[a := nics[a].(mapped := mapped)];
      }
    }
  }
}
