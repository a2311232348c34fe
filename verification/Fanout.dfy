/**
 What one transmission delivers: the abstract network behind the fan-out loop.

 Every live instance other than the sender gets `Copies` packets, in table
 order; each carries the payload and names the receiving interface, and goes
 to the queue the sending command calls for.
 */
module Fanout {
  import opened Words
  import opened Frame
  import opened Netx
  import opened Table

  const BROADCAST := Mac(0xFFFF, 0xFFFF_FFFF)

  /** Destinations an instance accepts without consulting its multicast table. */
  predicate Accepts(s: Slot, dst: Mac) {
    dst == BROADCAST || dst == s.mac || dst.msw == 0x3333 || dst == ZERO_MAC
  }

  /** In numbers: the broadcast address, anything whose upper half is 33:33, the zero address, and the instance's own. */
  lemma AcceptsInNumbers(s: Slot, dst: Mac)
    ensures Accepts(s, dst) <==>
              || (dst.msw == 0xFFFF && dst.lsw == 0xFFFF_FFFF) || dst.msw == 0x3333 || (dst.msw == 0 && dst.lsw == 0)
              || (dst.msw == s.mac.msw && dst.lsw == s.mac.lsw)
  {
    MacParts(dst, s.mac);
  }

  lemma MacParts(a: Mac, b: Mac)
    ensures a == b <==> a.msw == b.msw && a.lsw == b.lsw
  {
  }

  /** How many copies a live instance gets: one per joined entry, so a group joined twice counts twice. */
  function Copies(s: Slot, dst: Mac): nat {
    if Accepts(s, dst) then 1 else multiset(s.mcast)[dst]
  }

  /** How many copies entry `k` gets of a frame sent by `sender`. */
  function Share(slots: seq<Slot>, sender: nat, dst: Mac, k: nat): nat {
    if k < |slots| && k != sender && slots[k].inUse then Copies(slots[k], dst) else 0
  }

  function Repeat(k: nat, n: nat): (s: seq<nat>)
    ensures |s| == n && forall i | 0 <= i < n :: s[i] == k
  {
    seq(n, _ => k)
  }

  /** The receiving entries among the first `upTo`, in order, each as often as it gets a copy. */
  function Recipients(slots: seq<Slot>, sender: nat, dst: Mac, upTo: nat): (r: seq<nat>)
    requires upTo <= |slots|
    ensures forall i | 0 <= i < |r| :: r[i] < upTo
  {
    if upTo == 0 then []
    else Recipients(slots, sender, dst, upTo - 1) + Repeat(upTo - 1, Share(slots, sender, dst, upTo - 1))
  }

  /** The recipients of an earlier stage are a prefix of those of a later one. */
  lemma {:induction false} RecipientsGrow(slots: seq<Slot>, sender: nat, dst: Mac, k: nat, upTo: nat)
    requires k <= upTo <= |slots|
    ensures Recipients(slots, sender, dst, k) <= Recipients(slots, sender, dst, upTo)
    decreases upTo
  {
    if k == upTo {
    } else {
      RecipientsGrow(slots, sender, dst, k, upTo - 1);
    }
  }

  lemma CountInRepeat(k: nat, n: nat, j: nat)
    ensures multiset(Repeat(k, n))[j] == if j == k then n else 0
    decreases n
  {
    if n == 0 {
      assert Repeat(k, n) == [];
    } else {
      CountInRepeat(k, n - 1, j);
      assert Repeat(k, n) == Repeat(k, n - 1) + [k];
    }
  }

  lemma CountInAppend(a: seq<nat>, b: seq<nat>, k: nat)
    ensures multiset(a + b)[k] == multiset(a)[k] + multiset(b)[k]
  {
    assert multiset(a + b) == multiset(a) + multiset(b);
  }

  /** Every entry appears exactly as often as its share. */
  lemma {:induction false} RecipientsExact(slots: seq<Slot>, sender: nat, dst: Mac, upTo: nat, k: nat)
    requires upTo <= |slots|
    ensures multiset(Recipients(slots, sender, dst, upTo))[k] == if k < upTo then Share(slots, sender, dst, k) else 0
  {
    hide Share, Repeat;
    if upTo == 0 {
    } else {
      RecipientsExact(slots, sender, dst, upTo - 1, k);
      var late := Repeat(upTo - 1, Share(slots, sender, dst, upTo - 1));
      CountInRepeat(upTo - 1, Share(slots, sender, dst, upTo - 1), k);
      CountInAppend(Recipients(slots, sender, dst, upTo - 1), late, k);
    }
  }

  predicate Ascending(s: seq<nat>) {
    forall i, j | 0 <= i < j < |s| :: s[i] <= s[j]
  }

  /** Entries receive in table order. */
  lemma {:induction false} RecipientsOrdered(slots: seq<Slot>, sender: nat, dst: Mac, upTo: nat)
    requires upTo <= |slots|
    ensures Ascending(Recipients(slots, sender, dst, upTo))
  {
    if upTo == 0 {
    } else {
      RecipientsOrdered(slots, sender, dst, upTo - 1);
    }
  }

  /** An entry that is due a copy is among the recipients. */
  lemma DueIsRecipient(slots: seq<Slot>, sender: nat, dst: Mac, k: nat)
    requires k < |slots| && k != sender && slots[k].inUse && Copies(slots[k], dst) > 0
    ensures k in Recipients(slots, sender, dst, |slots|)
  {
    RecipientsExact(slots, sender, dst, |slots|, k);
    assert k in multiset(Recipients(slots, sender, dst, |slots|));
  }

  lemma NoRecipients(slots: seq<Slot>, sender: nat, dst: Mac)
    ensures Recipients(slots, sender, dst, 0) == []
  {
  }

  /** The recipients one entry further on. */
  lemma NextRecipients(slots: seq<Slot>, sender: nat, dst: Mac, k: nat)
    requires k < |slots|
    ensures var before, after := Recipients(slots, sender, dst, k), Recipients(slots, sender, dst, k + 1);
            after == if k == sender || !slots[k].inUse then before else before + Repeat(k, Copies(slots[k], dst))
  {
  }

  /** Stopping inside entry `k`, with fewer copies than its share, stops at a proper prefix. */
  lemma StoppedInside(slots: seq<Slot>, sender: nat, dst: Mac, k: nat, sent: nat)
    requires k < |slots| && k != sender && slots[k].inUse && sent < Copies(slots[k], dst)
    ensures var soFar := Recipients(slots, sender, dst, k) + Repeat(k, sent);
            var all := Recipients(slots, sender, dst, |slots|);
            |soFar| < |all| && soFar == all[..|soFar|]
  {
    RecipientsGrow(slots, sender, dst, k + 1, |slots|);
    assert Repeat(k, sent) <= Repeat(k, Copies(slots[k], dst));
  }

  /** One more matching entry of a multicast table is one more copy due. */
  lemma OneMoreCopy(mcast: seq<Mac>, dst: Mac, j: nat)
    requires j < |mcast|
    ensures multiset(mcast[..j + 1])[dst] == multiset(mcast[..j])[dst] + if mcast[j] == dst then 1 else 0
    ensures mcast[j] == dst ==> multiset(mcast[..j])[dst] < multiset(mcast)[dst]
  {
    assert mcast[..j + 1] == mcast[..j] + [mcast[j]];
    assert mcast == mcast[..j + 1] + mcast[j + 1..];
    assert multiset(mcast) == multiset(mcast[..j + 1]) + multiset(mcast[j + 1..]);
  }

  /** Deliveries of `payload` to the given entries. */
  function Deliveries(slots: seq<Slot>, to: seq<nat>, route: Route, payload: seq<bv8>): (e: seq<Event>)
    requires forall i | 0 <= i < |to| :: to[i] < |slots|
    ensures |e| == |to|
  {
    seq(|to|, i requires 0 <= i < |to| => Delivered(to[i], slots[to[i]].ip, slots[to[i]].nic, route, payload))
  }

  /** The type field a send command puts in the header. */
  function EtherTypeFor(c: Command, version: nat): (t: bv32)
    ensures Low16(t) == t
  {
    if c.ArpSend? || c.ArpResponseSend? then ETHERNET_ARP
    else if c.RarpSend? then ETHERNET_RARP
    else if version == 4 then ETHERNET_IP
    else ETHERNET_IPV6
  }

  /** In bytes: 08 06 for the two ARP commands, 80 35 for RARP, and otherwise 08 00 for version 4 and 86 DD for any other. */
  lemma TypeInBytes(c: Command, version: nat)
    ensures BigEndian(EtherTypeFor(c, version))[2..] ==
      match c
      case ArpSend | ArpResponseSend => [0x08, 0x06]
      case RarpSend => [0x80, 0x35]
      case _ => if version == 4 then [0x08, 0x00] else [0x86, 0xDD]
  {
    TypeConstants();
  }

  lemma TypeConstants()
    ensures BigEndian(ETHERNET_IP)[2..] == [0x08, 0x00] && BigEndian(ETHERNET_ARP)[2..] == [0x08, 0x06]
    ensures BigEndian(ETHERNET_RARP)[2..] == [0x80, 0x35] && BigEndian(ETHERNET_IPV6)[2..] == [0x86, 0xDD]
  {
  }

  /** Bytes 12 and 13 of the frame, and the two bytes before the payload in the buffer. */
  lemma TypeInHeader(dst: Mac, src: Mac, c: Command, version: nat)
    ensures var t := match c
                     case ArpSend | ArpResponseSend => [0x08, 0x06]
                     case RarpSend => [0x80, 0x35]
                     case _ => if version == 4 then [0x08, 0x00] else [0x86, 0xDD];
            && Header(dst, src, EtherTypeFor(c, version))[12..14] == t
            && HeaderBytes(dst, src, EtherTypeFor(c, version))[14..16] == t
  {
    hide BigEndian, HeaderBytes, EtherTypeFor;
    TypeInBytes(c, version);
    HeaderLayout(dst, src, EtherTypeFor(c, version));
    var h := HeaderBytes(dst, src, EtherTypeFor(c, version));
    assert h[2..][12..14] == h[14..16];
  }

  /** The queue a send command is meant for. */
  function RouteFor(c: Command): Route {
    match c
    case ArpSend | ArpResponseSend => ToArp
    case RarpSend => ToRarp
    case _ => ToIp
  }

  /** The receiver agrees with the sender about the queue; nothing the driver builds is discarded. */
  lemma DispatchAgrees(c: Command, version: nat)
    requires c.IsSend()
    ensures RouteOf(EtherTypeFor(c, version)) == RouteFor(c) != Discard
  {
  }

  /** What the receiver makes of one copy of a frame. */
  function Received(slots: seq<Slot>, k: nat, frame: seq<bv8>): (e: Event)
    requires k < |slots| && |frame| >= HEADER_SIZE
    ensures e.Delivered?
  {
    var route := RouteOf(EtherType(frame));
    Delivered(k, slots[k].ip, slots[k].nic, route, if route.Discard? then frame else frame[HEADER_SIZE..])
  }

  lemma RouteInBytes(hi: bv8, lo: bv8)
    ensures RouteOf(Pair(hi, lo)) ==
              if (hi == 0x08 && lo == 0x00) || (hi == 0x86 && lo == 0xDD) then ToIp
              else if hi == 0x08 && lo == 0x06 then ToArp
              else if hi == 0x80 && lo == 0x35 then ToRarp
              else Discard
  {
    PairIs(hi, lo);
  }

  lemma PairIs(hi: bv8, lo: bv8)
    ensures Pair(hi, lo) == ETHERNET_IP <==> hi == 0x08 && lo == 0x00
    ensures Pair(hi, lo) == ETHERNET_IPV6 <==> hi == 0x86 && lo == 0xDD
    ensures Pair(hi, lo) == ETHERNET_ARP <==> hi == 0x08 && lo == 0x06
    ensures Pair(hi, lo) == ETHERNET_RARP <==> hi == 0x80 && lo == 0x35
  {
  }

  /** In bytes: 08 00 and 86 DD go to IP, 08 06 to ARP and 80 35 to RARP, each without its first fourteen bytes; any other
      frame is discarded as it is.  The packet names the instance's own interface. */
  lemma ReceivedInBytes(slots: seq<Slot>, k: nat, frame: seq<bv8>, hi: bv8, lo: bv8)
    requires k < |slots| && |frame| >= 14 && hi == frame[12] && lo == frame[13]
    ensures var e := Received(slots, k, frame);
            && e.slot == k && e.ip == slots[k].ip && e.nic == slots[k].nic
            && (e.route == if (hi == 0x08 && lo == 0x00) || (hi == 0x86 && lo == 0xDD) then ToIp
                           else if hi == 0x08 && lo == 0x06 then ToArp
                           else if hi == 0x80 && lo == 0x35 then ToRarp
                           else Discard)
            && e.bytes == if e.route == Discard then frame else frame[14..]
  {
    hide RouteOf, Pair;
    RouteInBytes(hi, lo);
  }

  function ReceivedAll(slots: seq<Slot>, to: seq<nat>, frame: seq<bv8>): (e: seq<Event>)
    requires |frame| >= HEADER_SIZE
    requires forall i | 0 <= i < |to| :: to[i] < |slots|
    ensures |e| == |to|
  {
    seq(|to|, i requires 0 <= i < |to| => Received(slots, to[i], frame))
  }

  /** Frame in, payload out: what the receivers make of a driver-built frame is what the abstract network delivers. */
  lemma FramesCarryPayload(slots: seq<Slot>, to: seq<nat>, dst: Mac, src: Mac, c: Command, version: nat, payload: seq<bv8>)
    requires c.IsSend()
    requires forall i | 0 <= i < |to| :: to[i] < |slots|
    ensures var frame := Header(dst, src, EtherTypeFor(c, version)) + payload;
            ReceivedAll(slots, to, frame) == Deliveries(slots, to, RouteFor(c), payload)
  {
    HeaderRoundTrip(dst, src, EtherTypeFor(c, version), payload);
    DispatchAgrees(c, version);
  }

  /** `n` successful copies, and the failed one that ends an incomplete transmission. */
  function CopyOutcomes(n: nat, complete: bool): seq<bool> {
    seq(n, _ => true) + if complete then [] else [false]
  }

  /** `log` and `copies` extend `log0` and `copies0` by one successful copy for each entry of `to`, and no more. */
  predicate Progress(log0: seq<Event>, copies0: seq<bool>, log: seq<Event>, copies: seq<bool>,
                     slots: seq<Slot>, to: seq<nat>, frame: seq<bv8>)
    requires |frame| >= HEADER_SIZE && forall i | 0 <= i < |to| :: to[i] < |slots|
  {
    && log == log0 + ReceivedAll(slots, to, frame)
    && copies == copies0 + CopyOutcomes(|to|, true)
  }

  lemma NoCopiesYet(log: seq<Event>, copies: seq<bool>, slots: seq<Slot>, frame: seq<bv8>)
    requires |frame| >= HEADER_SIZE
    ensures Progress(log, copies, log, copies, slots, [], frame)
  {
  }

  lemma CopySucceeds(log0: seq<Event>, copies0: seq<bool>, log: seq<Event>, copies: seq<bool>,
                slots: seq<Slot>, to: seq<nat>, k: nat, frame: seq<bv8>)
    requires |frame| >= HEADER_SIZE && k < |slots| && forall i | 0 <= i < |to| :: to[i] < |slots|
    requires Progress(log0, copies0, log, copies, slots, to, frame)
    ensures forall i | 0 <= i < |to + [k]| :: (to + [k])[i] < |slots|
    ensures Progress(log0, copies0, log + [Received(slots, k, frame)], copies + [true], slots, to + [k], frame)
  {
    assert ReceivedAll(slots, to + [k], frame) == ReceivedAll(slots, to, frame) + [Received(slots, k, frame)];
    assert CopyOutcomes(|to| + 1, true) == CopyOutcomes(|to|, true) + [true];
  }

  lemma CopyFails(log0: seq<Event>, copies0: seq<bool>, log: seq<Event>, copies: seq<bool>,
               slots: seq<Slot>, to: seq<nat>, frame: seq<bv8>)
    requires |frame| >= HEADER_SIZE && forall i | 0 <= i < |to| :: to[i] < |slots|
    requires Progress(log0, copies0, log, copies, slots, to, frame)
    ensures copies + [false] == copies0 + CopyOutcomes(|to|, false)
  {
  }

  // ----- What one request sends -----

  /** A packet's bytes, and where they start. */
  datatype Cargo = Cargo(payload: seq<bv8>, prepend: nat)

  /** A send that finds its instance. */
  predicate Accepted(net: Net, r: Request) {
    r.command.IsSend() && Lookup(net.slots, r.ip, r.nic) < |net.slots|
  }

  /** Who is due a copy on account of a request, in order. */
  function Due(net: Net, r: Request): (to: seq<nat>)
    ensures forall i | 0 <= i < |to| :: to[i] < |net.slots|
  {
    if Accepted(net, r) then
      Recipients(net.slots, Lookup(net.slots, r.ip, r.nic), Truncate(r.address), |net.slots|)
    else
      []
  }

  /** The pools the copies are taken from exist: the fan-out dereferences the IP instance of each recipient. */
  predicate PoolsExist(net: Net, r: Request) {
    forall i | 0 <= i < |Due(net, r)| :: net.slots[Due(net, r)[i]].ip in net.ips
  }

  /** The events of a request of which `n` copies succeed. */
  function Sent(net: Net, r: Request, cargo: Cargo, n: nat): seq<Event>
    requires n <= |Due(net, r)|
  {
    if Accepted(net, r) then
      Deliveries(net.slots, Due(net, r)[..n], RouteFor(r.command), cargo.payload)
      + [Transmitted(cargo.prepend, cargo.payload)]
    else
      []
  }

  /** The copies it attempts. */
  function Copied(net: Net, r: Request, n: nat): seq<bool>
    requires n <= |Due(net, r)|
  {
    if Accepted(net, r) then CopyOutcomes(n, n == |Due(net, r)|) else []
  }

  /** All of that for a send that finds its instance. */
  lemma SentWhenAccepted(net: Net, r: Request, cargo: Cargo, n: nat)
    requires Accepted(net, r)
    ensures var all := Recipients(net.slots, Lookup(net.slots, r.ip, r.nic), Truncate(r.address), |net.slots|);
            && Due(net, r) == all
            && (n <= |all| ==>
                  && Sent(net, r, cargo, n) == Deliveries(net.slots, all[..n], RouteFor(r.command), cargo.payload)
                                               + [Transmitted(cargo.prepend, cargo.payload)]
                  && Copied(net, r, n) == CopyOutcomes(n, n == |all|))
    ensures PoolsExist(net, r) ==> forall k | k in Due(net, r) :: net.slots[k].ip in net.ips
  {
  }

  /** And for any other request. */
  lemma NothingSent(net: Net, r: Request, cargo: Cargo)
    requires !Accepted(net, r)
    ensures Due(net, r) == [] && Sent(net, r, cargo, 0) == [] && Copied(net, r, 0) == [] && PoolsExist(net, r)
  {
  }
}
