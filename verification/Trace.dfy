/**
 What whole runs send: the events and the copies of every request, and how
 they agree with the runs' history.
 */
module Trace {
  import opened Frame
  import opened Netx
  import opened Table
  import opened Fanout
  import opened History

  /** Whenever a send fans out, the pools of its recipients exist. */
  predicate PoolsThroughout(net: Net, reqs: seq<Request>)
    requires AllKnown(net, reqs)
  {
    reqs != [] ==> PoolsThroughout(net, Early(reqs)) && PoolsExist(Before(net, reqs), Last(reqs))
  }

  /** No request makes more successful copies than are due. */
  predicate Within(net: Net, reqs: seq<Request>, ns: seq<nat>)
    requires AllKnown(net, reqs) && |ns| == |reqs|
  {
    reqs != [] ==> Within(net, Early(reqs), Early(ns)) && Last(ns) <= |Due(Before(net, reqs), Last(reqs))|
  }

  /** The events of a run whose `i`-th request carries `cargos[i]` and makes `ns[i]` successful copies. */
  function Events(net: Net, reqs: seq<Request>, cargos: seq<Cargo>, ns: seq<nat>): seq<Event>
    requires AllKnown(net, reqs) && |cargos| == |ns| == |reqs| && Within(net, reqs, ns)
  {
    if reqs == [] then [] else
      Events(net, Early(reqs), Early(cargos), Early(ns)) + Sent(Before(net, reqs), Last(reqs), Last(cargos), Last(ns))
  }

  /** The outcomes of all the copies attempted along the way. */
  function Attempts(net: Net, reqs: seq<Request>, ns: seq<nat>): seq<bool>
    requires AllKnown(net, reqs) && |ns| == |reqs| && Within(net, reqs, ns)
  {
    if reqs == [] then [] else
      Attempts(net, Early(reqs), Early(ns)) + Copied(Before(net, reqs), Last(reqs), Last(ns))
  }

  /** The state the `i`-th request meets, or the last one. */
  function StateAt(net: Net, reqs: seq<Request>, i: nat): (s: Net)
    requires AllKnown(net, reqs) && i <= |reqs|
    ensures |s.slots| == |net.slots| && s.ips == net.ips && (i < |reqs| ==> Known(s, reqs[i]))
  {
    if i < |reqs| then
      OneMoreRequest(net, reqs, i);
      Run(net, reqs[..i])
    else
      Run(net, reqs)
  }

  lemma StateAtIsRun(net: Net, reqs: seq<Request>, i: nat)
    requires AllKnown(net, reqs) && i < |reqs|
    ensures AllKnown(net, reqs[..i]) && StateAt(net, reqs, i) == Run(net, reqs[..i])
  {
  }

  /** `log` and `copies` extend `log0` and `copies0` by what the first `n` requests send. */
  predicate Traced(net: Net, reqs: seq<Request>, cargos: seq<Cargo>, n: nat, ns: seq<nat>,
                   log0: seq<Event>, copies0: seq<bool>, log: seq<Event>, copies: seq<bool>)
    requires n <= |reqs| == |cargos| && AllKnown(net, reqs[..n])
  {
    && |ns| == n && Within(net, reqs[..n], ns)
    && log == log0 + Events(net, reqs[..n], cargos[..n], ns)
    && copies == copies0 + Attempts(net, reqs[..n], ns)
  }

  lemma NothingTraced(net: Net, reqs: seq<Request>, cargos: seq<Cargo>, log: seq<Event>, copies: seq<bool>)
    requires |cargos| == |reqs|
    ensures AllKnown(net, reqs[..0]) && Traced(net, reqs, cargos, 0, [], log, copies, log, copies)
  {
  }

  lemma {:induction false} OneMoreTraced(net: Net, reqs: seq<Request>, cargos: seq<Cargo>, n: nat, ns: seq<nat>, made: nat,
                      log0: seq<Event>, copies0: seq<bool>, log: seq<Event>, copies: seq<bool>)
    requires AllKnown(net, reqs) && n < |reqs| == |cargos|
    requires Traced(net, reqs, cargos, n, ns, log0, copies0, log, copies)
    requires made <= |Due(StateAt(net, reqs, n), reqs[n])|
    ensures AllKnown(net, reqs[..n + 1])
    ensures var state := StateAt(net, reqs, n);
            Traced(net, reqs, cargos, n + 1, ns + [made], log0, copies0,
                   log + Sent(state, reqs[n], cargos[n], made), copies + Copied(state, reqs[n], made))
  {
    hide Apply, Due, Sent, Copied, StateAt, Within, Events, Attempts;
    StateAtIsRun(net, reqs, n);
    Appended(net, reqs[..n], reqs[n], cargos[..n], cargos[n], ns, made);
    assert reqs[..n + 1] == reqs[..n] + [reqs[n]] && cargos[..n + 1] == cargos[..n] + [cargos[n]];
  }

  lemma Appended(net: Net, reqs: seq<Request>, r: Request, cargos: seq<Cargo>, cargo: Cargo, ns: seq<nat>, made: nat)
    requires AllKnown(net, reqs) && Known(net, r) && |cargos| == |ns| == |reqs| && Within(net, reqs, ns)
    requires Known(Run(net, reqs), r) && made <= |Due(Run(net, reqs), r)|
    ensures AllKnown(net, reqs + [r]) && Within(net, reqs + [r], ns + [made])
    ensures Events(net, reqs + [r], cargos + [cargo], ns + [made])
            == Events(net, reqs, cargos, ns) + Sent(Run(net, reqs), r, cargo, made)
    ensures Attempts(net, reqs + [r], ns + [made]) == Attempts(net, reqs, ns) + Copied(Run(net, reqs), r, made)
  {
    hide Apply, Due, Sent, Copied, Run;
    assert Early(reqs + [r]) == reqs && Early(cargos + [cargo]) == cargos && Early(ns + [made]) == ns;
  }

  lemma AllTraced(net: Net, reqs: seq<Request>, cargos: seq<Cargo>, ns: seq<nat>,
                  log0: seq<Event>, copies0: seq<bool>, log: seq<Event>, copies: seq<bool>)
    requires |reqs| == |cargos| && AllKnown(net, reqs)
    requires Traced(net, reqs, cargos, |reqs|, ns, log0, copies0, log, copies)
    ensures |ns| == |reqs| && Within(net, reqs, ns)
    ensures log == log0 + Events(net, reqs, cargos, ns) && copies == copies0 + Attempts(net, reqs, ns)
  {
    assert reqs[..|reqs|] == reqs && cargos[..|reqs|] == cargos;
  }

  lemma StateAtEarly(net: Net, reqs: seq<Request>, i: nat)
    requires AllKnown(net, reqs) && i < |reqs|
    ensures StateAt(net, Early(reqs), i) == StateAt(net, reqs, i)
    ensures i == |reqs| - 1 ==> StateAt(net, reqs, i) == Before(net, reqs)
  {
    hide Apply, Run;
    assert i < |Early(reqs)| ==> Early(reqs)[..i] == reqs[..i];
  }

  lemma {:induction false} PoolsAt(net: Net, reqs: seq<Request>, i: nat)
    requires AllKnown(net, reqs) && PoolsThroughout(net, reqs) && i < |reqs|
    ensures PoolsExist(StateAt(net, reqs, i), reqs[i])
  {
    hide Apply, PoolsExist, StateAt;
    StateAtEarly(net, reqs, i);
    if i == |reqs| - 1 {
    } else {
      PoolsAt(net, Early(reqs), i);
    }
  }

  lemma {:induction false} WithinAt(net: Net, reqs: seq<Request>, ns: seq<nat>, i: nat)
    requires AllKnown(net, reqs) && |ns| == |reqs| && Within(net, reqs, ns) && i < |reqs|
    ensures ns[i] <= |Due(StateAt(net, reqs, i), reqs[i])|
  {
    hide Apply, Due, StateAt;
    StateAtEarly(net, reqs, i);
    if i == |reqs| - 1 {
    } else {
      WithinAt(net, Early(reqs), Early(ns), i);
    }
  }

  /** The events of the `i`-th request of a run. */
  function SentAt(net: Net, reqs: seq<Request>, cargos: seq<Cargo>, ns: seq<nat>, i: nat): seq<Event>
    requires AllKnown(net, reqs) && |cargos| == |ns| == |reqs| && Within(net, reqs, ns) && i < |reqs|
  {
    WithinAt(net, reqs, ns, i);
    Sent(StateAt(net, reqs, i), reqs[i], cargos[i], ns[i])
  }

  /** Where the events of the `i`-th request begin. */
  function StartOf(net: Net, reqs: seq<Request>, cargos: seq<Cargo>, ns: seq<nat>, i: nat): nat
    requires AllKnown(net, reqs) && |cargos| == |ns| == |reqs| && Within(net, reqs, ns) && i <= |reqs|
  {
    if i == 0 then 0 else StartOf(net, reqs, cargos, ns, i - 1) + |SentAt(net, reqs, cargos, ns, i - 1)|
  }

  lemma WithinEarly(net: Net, reqs: seq<Request>, ns: seq<nat>)
    requires AllKnown(net, reqs) && |ns| == |reqs| && Within(net, reqs, ns)
    ensures reqs != [] ==> AllKnown(net, Early(reqs)) && Within(net, Early(reqs), Early(ns))
  {
    hide Apply, Due;
  }

  lemma SentAtEarly(net: Net, reqs: seq<Request>, cargos: seq<Cargo>, ns: seq<nat>, i: nat)
    requires AllKnown(net, reqs) && |cargos| == |ns| == |reqs| && Within(net, reqs, ns) && i < |reqs| - 1
    ensures SentAt(net, Early(reqs), Early(cargos), Early(ns), i) == SentAt(net, reqs, cargos, ns, i)
  {
    hide Apply, Due, StateAt, Sent;
    StateAtEarly(net, reqs, i);
  }

  lemma {:induction false} StartOfEarly(net: Net, reqs: seq<Request>, cargos: seq<Cargo>, ns: seq<nat>, i: nat)
    requires AllKnown(net, reqs) && |cargos| == |ns| == |reqs| && Within(net, reqs, ns) && i < |reqs|
    ensures StartOf(net, Early(reqs), Early(cargos), Early(ns), i) == StartOf(net, reqs, cargos, ns, i)
  {
    hide Apply, SentAt, Within;
    WithinEarly(net, reqs, ns);
    if i == 0 {
    } else {
      StartOfEarly(net, reqs, cargos, ns, i - 1);
      SentAtEarly(net, reqs, cargos, ns, i - 1);
    }
  }

  lemma {:induction false} EventsEnd(net: Net, reqs: seq<Request>, cargos: seq<Cargo>, ns: seq<nat>)
    requires AllKnown(net, reqs) && |cargos| == |ns| == |reqs| && Within(net, reqs, ns)
    ensures |Events(net, reqs, cargos, ns)| == StartOf(net, reqs, cargos, ns, |reqs|)
  {
    hide Apply, Due, StateAt, Sent;
    if reqs == [] {
    } else {
      EventsEnd(net, Early(reqs), Early(cargos), Early(ns));
      StartOfEarly(net, reqs, cargos, ns, |reqs| - 1);
      StateAtEarly(net, reqs, |reqs| - 1);
    }
  }

  /** The events of a run are those of its requests, one after the other. */
  lemma {:induction false} EventsInOrder(net: Net, reqs: seq<Request>, cargos: seq<Cargo>, ns: seq<nat>, i: nat)
    requires AllKnown(net, reqs) && |cargos| == |ns| == |reqs| && Within(net, reqs, ns) && i < |reqs|
    ensures var start, sent := StartOf(net, reqs, cargos, ns, i), SentAt(net, reqs, cargos, ns, i);
            var all := Events(net, reqs, cargos, ns);
            start + |sent| <= |all| && all[start..start + |sent|] == sent
  {
    hide Apply, Due, StateAt, Sent, StartOf, Within;
    WithinEarly(net, reqs, ns);
    EventsEnd(net, Early(reqs), Early(cargos), Early(ns));
    StartOfEarly(net, reqs, cargos, ns, i);
    if i == |reqs| - 1 {
      StateAtEarly(net, reqs, i);
    } else {
      EventsInOrder(net, Early(reqs), Early(cargos), Early(ns), i);
      SentAtEarly(net, reqs, cargos, ns, i);
    }
  }

  /** A failed copy shows. */
  lemma FailureShows(net: Net, r: Request, n: nat)
    requires n <= |Due(net, r)|
    ensures false in Copied(net, r, n) <==> Accepted(net, r) && n < |Due(net, r)|
  {
    hide Due;
    if Accepted(net, r) && n < |Due(net, r)| {
      assert Copied(net, r, n)[n] == false;
    }
  }

  /** If no copy fails, every accepted send reaches everybody it is due to. */
  lemma {:induction false} NoFailureMeansAll(net: Net, reqs: seq<Request>, ns: seq<nat>, i: nat)
    requires AllKnown(net, reqs) && |ns| == |reqs| && Within(net, reqs, ns) && i < |reqs|
    requires false !in Attempts(net, reqs, ns)
    ensures Accepted(StateAt(net, reqs, i), reqs[i]) ==> ns[i] == |Due(StateAt(net, reqs, i), reqs[i])|
  {
    hide Apply, Accepted, Due, Copied, StateAt;
    StateAtEarly(net, reqs, i);
    if i == |reqs| - 1 {
      FailureShows(Before(net, reqs), Last(reqs), Last(ns));
    } else {
      NoFailureMeansAll(net, Early(reqs), Early(ns), i);
    }
  }

  /** How many of the events are deliveries to entry `k`. */
  function DeliveredTo(events: seq<Event>, k: nat): nat {
    if events == [] then 0 else
      DeliveredTo(events[..|events| - 1], k)
      + if events[|events| - 1].Delivered? && events[|events| - 1].slot == k then 1 else 0
  }

  lemma {:induction false} DeliveriesCount(slots: seq<Slot>, to: seq<nat>, route: Route, payload: seq<bv8>, k: nat)
    requires forall i | 0 <= i < |to| :: to[i] < |slots|
    ensures DeliveredTo(Deliveries(slots, to, route, payload), k) == multiset(to)[k]
  {
    if to == [] {
    } else {
      var early := to[..|to| - 1];
      DeliveriesCount(slots, early, route, payload, k);
      var events := Deliveries(slots, to, route, payload);
      assert events[..|events| - 1] == Deliveries(slots, early, route, payload);
      assert to == early + [to[|to| - 1]];
    }
  }

  /** A send delivers to each entry as often as it is among the recipients reached. */
  lemma SentCount(net: Net, r: Request, cargo: Cargo, n: nat, k: nat)
    requires Accepted(net, r) && n <= |Due(net, r)|
    ensures DeliveredTo(Sent(net, r, cargo, n), k) == multiset(Due(net, r)[..n])[k]
  {
    hide Due;
    var to, events := Due(net, r)[..n], Sent(net, r, cargo, n);
    DeliveriesCount(net.slots, to, RouteFor(r.command), cargo.payload, k);
    assert events[..|events| - 1] == Deliveries(net.slots, to, RouteFor(r.command), cargo.payload);
  }

  lemma DueIsShare(net: Net, r: Request, k: nat)
    requires Accepted(net, r)
    ensures multiset(Due(net, r))[k] == Share(net.slots, Lookup(net.slots, r.ip, r.nic), Truncate(r.address), k)
  {
    RecipientsExact(net.slots, Lookup(net.slots, r.ip, r.nic), Truncate(r.address), |net.slots|, k);
  }

  lemma CountInPrefix(s: seq<nat>, n: nat, k: nat)
    requires n <= |s|
    ensures multiset(s[..n])[k] <= multiset(s)[k]
  {
    assert s == s[..n] + s[n..];
    CountInAppend(s[..n], s[n..], k);
  }

  /** Whatever copies fail, an accepted send delivers to every entry at most its share, and exactly that if none fails. */
  lemma {:induction false} LogIsShare(net: Net, reqs: seq<Request>, cargos: seq<Cargo>, ns: seq<nat>, i: nat, k: nat)
    requires AllKnown(net, reqs) && |cargos| == |ns| == |reqs| && Within(net, reqs, ns) && i < |reqs|
    requires Accepted(StateAt(net, reqs, i), reqs[i])
    ensures var state, r := StateAt(net, reqs, i), reqs[i];
            var share := Share(state.slots, Lookup(state.slots, r.ip, r.nic), Truncate(r.address), k);
            var delivered := DeliveredTo(SentAt(net, reqs, cargos, ns, i), k);
            delivered <= share && (false !in Attempts(net, reqs, ns) ==> delivered == share)
  {
    hide Apply, Sent, Accepted, Due, Share, StateAt, Within, Attempts;
    var state, r := StateAt(net, reqs, i), reqs[i];
    WithinAt(net, reqs, ns, i);
    SentCount(state, r, cargos[i], ns[i], k);
    DueIsShare(state, r, k);
    CountInPrefix(Due(state, r), ns[i], k);
    if false !in Attempts(net, reqs, ns) {
      NoFailureMeansAll(net, reqs, ns, i);
      assert Due(state, r)[..ns[i]] == Due(state, r);
    }
  }

  /** Entry `k` is a live instance other than the sender that does not accept the destination outright. */
  predicate ByGroup(net: Net, r: Request, k: nat) {
    && k < |net.slots| && net.slots[k].inUse && k != Lookup(net.slots, r.ip, r.nic)
    && var g, own := Truncate(r.address), net.slots[k].mac;
       && !(g.msw == 0xFFFF && g.lsw == 0xFFFF_FFFF) && g.msw != 0x3333 && !(g.msw == 0 && g.lsw == 0)
       && !(g.msw == own.msw && g.lsw == own.lsw)
  }

  /** The table is blank, as at program start. */
  ghost predicate FromBlank(net: Net) {
    exists groups :: Boot(net, groups)
  }

  /** What one send logs, in full: the deliveries go to attached entries, each with the IP and the interface of its entry,
      the payload, and the queue the command is for; last comes the release of the payload where it started.  Commands
      other than the five sends log nothing. */
  lemma SentInFull(net: Net, r: Request, cargo: Cargo, n: nat, j: nat)
    requires n <= |Due(net, r)|
    ensures var events := Sent(net, r, cargo, n);
            if (r.command.PacketSend? || r.command.PacketBroadcast? || r.command.ArpSend? || r.command.ArpResponseSend?
                || r.command.RarpSend?) && Lookup(net.slots, r.ip, r.nic) < |net.slots| then
              && |events| == n + 1 && events[n] == Transmitted(cargo.prepend, cargo.payload)
              && (j < n ==>
                    && events[j].Delivered? && events[j].slot < |net.slots|
                    && var s := net.slots[events[j].slot];
                       && events[j].ip == s.ip && events[j].nic == s.nic && events[j].bytes == cargo.payload
                       && events[j].route == match r.command
                                             case ArpSend | ArpResponseSend => ToArp
                                             case RarpSend => ToRarp
                                             case _ => ToIp)
            else
              events == []
  {
    hide Recipients;
  }

  /** What a run logs agrees with its history: from a blank table, when no copy fails, an accepted send delivers to a live
      instance that does not accept the destination outright as often as the destination, truncated, had been joined and
      not left there. */
  lemma {:induction false} LogIsHistory(net: Net, reqs: seq<Request>, cargos: seq<Cargo>, ns: seq<nat>, i: nat, k: nat)
    requires AllKnown(net, reqs) && |cargos| == |ns| == |reqs| && Within(net, reqs, ns) && i < |reqs|
    requires Accepted(StateAt(net, reqs, i), reqs[i])
    ensures FromBlank(net) && false !in Attempts(net, reqs, ns) && ByGroup(StateAt(net, reqs, i), reqs[i], k) ==>
              DeliveredTo(SentAt(net, reqs, cargos, ns, i), k) == NetJoins(net, reqs[..i], k, Truncate(reqs[i].address))
  {
    hide Apply, SentAt, Recipients, Run, Share, Boot;
    var state, r := StateAt(net, reqs, i), reqs[i];
    if FromBlank(net) && false !in Attempts(net, reqs, ns) && ByGroup(state, r, k) {
      var groups :| Boot(net, groups);
      LogIsShare(net, reqs, cargos, ns, i, k);
      DueIsShare(state, r, k);
      DeliveryIsHistory(net, reqs[..i], groups, Lookup(state.slots, r.ip, r.nic), r.address, k);
    }
  }

  /** The share of an entry, in numbers. */
  lemma ShareInNumbers(net: Net, r: Request, k: nat, g: Mac)
    requires g == Truncate(r.address)
    ensures var slots, sender := net.slots, Lookup(net.slots, r.ip, r.nic);
            Share(slots, sender, g, k) ==
              if k >= |slots| || !slots[k].inUse || k == sender then 0
              else if || (g.msw == 0xFFFF && g.lsw == 0xFFFF_FFFF) || g.msw == 0x3333 || (g.msw == 0 && g.lsw == 0)
                      || (g.msw == slots[k].mac.msw && g.lsw == slots[k].mac.lsw) then 1
              else multiset(slots[k].mcast)[g]
  {
    hide Accepts, Truncate;
    if k < |net.slots| {
      AcceptsInNumbers(net.slots[k], g);
    }
  }

  /** Every entry accounted for, in numbers: from a blank table, when no copy fails, an accepted send delivers nothing to the
      sender and to free entries; exactly one packet to any other instance if the destination, with its upper half cut to
      16 bits, is the broadcast address, starts with 33:33, is zero, or is the instance's own; and otherwise as many as it
      has outstanding joins of that destination. */
  lemma {:induction false} LogInNumbers(net: Net, reqs: seq<Request>, cargos: seq<Cargo>, ns: seq<nat>, i: nat, k: nat, g: Mac)
    requires AllKnown(net, reqs) && |cargos| == |ns| == |reqs| && Within(net, reqs, ns) && i < |reqs|
    requires Accepted(StateAt(net, reqs, i), reqs[i]) && g == Truncate(reqs[i].address)
    ensures var slots, r := StateAt(net, reqs, i).slots, reqs[i];
            FromBlank(net) && false !in Attempts(net, reqs, ns) ==>
              DeliveredTo(SentAt(net, reqs, cargos, ns, i), k) ==
                if k >= |slots| || !slots[k].inUse || k == Lookup(slots, r.ip, r.nic) then 0
                else if || (g.msw == 0xFFFF && g.lsw == 0xFFFF_FFFF) || g.msw == 0x3333 || (g.msw == 0 && g.lsw == 0)
                        || (g.msw == slots[k].mac.msw && g.lsw == slots[k].mac.lsw) then 1
                else NetJoins(net, reqs[..i], k, g)
  {
    hide Apply, SentAt, Recipients, Run, Boot, Truncate, Share;
    var state, r := StateAt(net, reqs, i), reqs[i];
    if FromBlank(net) && false !in Attempts(net, reqs, ns) {
      LogIsShare(net, reqs, cargos, ns, i, k);
      ShareInNumbers(state, r, k, g);
      if ByGroup(state, r, k) {
        LogIsHistory(net, reqs, cargos, ns, i, k);
      }
    }
  }

  /** In an outsider's terms: what was outstanding when the instance's pair was last attached, detached or uninitialized,
      and, if the pair's requests reach the instance, what the outsider has counted since.  So the outsider is right about
      an instance that is reached if and only if nothing was outstanding there then. */
  lemma {:induction false} LogSinceReset(net: Net, reqs: seq<Request>, cargos: seq<Cargo>, ns: seq<nat>, i: nat, k: nat)
    requires AllKnown(net, reqs) && |cargos| == |ns| == |reqs| && Within(net, reqs, ns) && i < |reqs|
    requires Accepted(StateAt(net, reqs, i), reqs[i])
    ensures var slots, r := StateAt(net, reqs, i).slots, reqs[i];
            FromBlank(net) && false !in Attempts(net, reqs, ns) && ByGroup(StateAt(net, reqs, i), r, k) ==>
              var ip, nic, g := slots[k].ip, slots[k].nic, Truncate(r.address);
              var delivered, seen := DeliveredTo(SentAt(net, reqs, cargos, ns, i), k), Ledger(net, reqs[..i], ip, nic, g);
              && delivered == Residue(net, reqs[..i], k, ip, nic, g) + (if Reached(slots, k) then seen else 0)
              && (Reached(slots, k) ==> (delivered == seen <==> Residue(net, reqs[..i], k, ip, nic, g) == 0))
  {
    hide Apply, SentAt, Run, Boot, NetJoins, Ledger, Residue, Reached;
    var state, r := StateAt(net, reqs, i), reqs[i];
    if FromBlank(net) && false !in Attempts(net, reqs, ns) && ByGroup(state, r, k) {
      var groups :| Boot(net, groups);
      LogIsHistory(net, reqs, cargos, ns, i, k);
      NoneInUse(net, groups);
      LedgerSinceReset(net, reqs[..i], k, Truncate(r.address));
    }
  }

  /** So an outsider is right about an instance whose pair is attached only once. */
  lemma {:induction false} LogIsLedger(net: Net, reqs: seq<Request>, cargos: seq<Cargo>, ns: seq<nat>, i: nat, k: nat)
    requires AllKnown(net, reqs) && |cargos| == |ns| == |reqs| && Within(net, reqs, ns) && i < |reqs|
    requires Accepted(StateAt(net, reqs, i), reqs[i])
    ensures var state, r := StateAt(net, reqs, i), reqs[i];
            && FromBlank(net) && false !in Attempts(net, reqs, ns) && ByGroup(state, r, k)
            && AttachedAlone(net, reqs[..i], state.slots[k].ip, state.slots[k].nic) ==>
              DeliveredTo(SentAt(net, reqs, cargos, ns, i), k)
              == Ledger(net, reqs[..i], state.slots[k].ip, state.slots[k].nic, Truncate(r.address))
  {
    hide Apply, SentAt, Run, Boot;
    var state, r := StateAt(net, reqs, i), reqs[i];
    if FromBlank(net) && false !in Attempts(net, reqs, ns) && ByGroup(state, r, k)
       && AttachedAlone(net, reqs[..i], state.slots[k].ip, state.slots[k].nic) {
      var groups :| Boot(net, groups);
      LogIsHistory(net, reqs, cargos, ns, i, k);
      LedgerIsNetJoins(net, reqs[..i], groups, k, Truncate(r.address));
    }
  }

  // ----- Which sends are accepted -----

  lemma {:induction false} StatusAt(net: Net, reqs: seq<Request>, i: nat)
    requires AllKnown(net, reqs) && i < |reqs|
    ensures Statuses(net, reqs)[i] == Apply(StateAt(net, reqs, i), reqs[i]).status
  {
    hide Apply, StateAt;
    StateAtEarly(net, reqs, i);
    if i == |reqs| - 1 {
    } else {
      StatusAt(net, Early(reqs), i);
    }
  }

  /** A send is accepted exactly when its pair has been attached more often than detached or uninitialized, going by the
      requests and statuses before it. */
  lemma AcceptedIffAttached(net: Net, reqs: seq<Request>, i: nat)
    requires AllKnown(net, reqs) && FromBlank(net) && i < |reqs| && reqs[i].command.IsSend()
    ensures Statuses(net, reqs)[i] == Success <==> Balance(net, reqs[..i], reqs[i].ip, reqs[i].nic) > 0
  {
    hide Apply, Run, Balance, Boot;
    var groups :| Boot(net, groups);
    StatusAt(net, reqs, i);
    SendStatus(StateAt(net, reqs, i), reqs[i]);
    FoundIffAttached(net, reqs[..i], groups, reqs[i].ip, reqs[i].nic);
  }

  lemma AllAcceptedIffAttached(net: Net, reqs: seq<Request>)
    requires AllKnown(net, reqs)
    ensures FromBlank(net) ==> forall i | 0 <= i < |reqs| && reqs[i].command.IsSend() ::
              Statuses(net, reqs)[i] == Success <==> Balance(net, reqs[..i], reqs[i].ip, reqs[i].nic) > 0
  {
    hide Apply, Run, Balance, Statuses, FromBlank;
    if FromBlank(net) {
      forall i | 0 <= i < |reqs| && reqs[i].command.IsSend()
        ensures Statuses(net, reqs)[i] == Success <==> Balance(net, reqs[..i], reqs[i].ip, reqs[i].nic) > 0
      {
        AcceptedIffAttached(net, reqs, i);
      }
    }
  }

  /** There are sends that are refused: on a blank table all of them. */
  lemma BlankRefuses(net: Net, ip: Address, nic: Address, dst: Mac)
    requires net.slots == BlankTable(4, 3) && Known(net, Request(PacketSend, ip, nic, dst))
    ensures Apply(net, Request(PacketSend, ip, nic, dst)) == Outcome(net, InvalidInterface)
    ensures !Accepted(net, Request(PacketSend, ip, nic, dst))
  {
    assert forall k | 0 <= k < 4 :: !net.slots[k].inUse;
  }

  // ----- Where the pools come from -----

  /** Every live instance is attached under an IP instance that exists. */
  predicate KnownIps(net: Net) {
    forall k | 0 <= k < |net.slots| && net.slots[k].inUse :: net.slots[k].ip in net.ips
  }

  lemma KnownIpsKept(net: Net, r: Request)
    requires Known(net, r) && KnownIps(net) && (r.command.Attach? ==> r.ip in net.ips)
    ensures KnownIps(Apply(net, r).net)
  {
    hide Apply, ChangeOf;
    var next := Apply(net, r).net;
    forall k | 0 <= k < |next.slots| && next.slots[k].inUse ensures next.slots[k].ip in next.ips {
      PairKept(net, r, k);
      OnlyAttachOpens(net, r, k);
    }
  }

  lemma KnownIpsSuffice(net: Net, r: Request)
    requires KnownIps(net)
    ensures PoolsExist(net, r)
  {
    hide Recipients;
    var to := Due(net, r);
    forall i | 0 <= i < |to| ensures net.slots[to[i]].ip in net.ips {
      var sender, dst := Lookup(net.slots, r.ip, r.nic), Truncate(r.address);
      RecipientsExact(net.slots, sender, dst, |net.slots|, to[i]);
      assert to[i] in multiset(to);
    }
  }

  /** From a blank table the pools always exist if every attach names an IP instance that does. */
  lemma {:induction false} AttachedPoolsExist(net: Net, reqs: seq<Request>, groups: nat)
    requires AllKnown(net, reqs) && Boot(net, groups)
    requires forall i | 0 <= i < |reqs| && reqs[i].command.Attach? :: reqs[i].ip in net.ips
    ensures PoolsThroughout(net, reqs) && KnownIps(Run(net, reqs))
  {
    hide Apply, PoolsExist;
    if reqs == [] {
    } else {
      AttachedPoolsExist(net, Early(reqs), groups);
      KnownIpsSuffice(Before(net, reqs), Last(reqs));
      KnownIpsKept(Before(net, reqs), Last(reqs));
    }
  }
}
