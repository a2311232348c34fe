/**
 Thread identity: a circular, doubly linked, intrusive list of thread blocks.

 The list's own head is an entry without a thread; every other entry is part
 of the thread block it belongs to.
 */
module ThreadList {

  const TX_THREAD_ID: bv32 := 0x5448_5244
  const TX_CLEAR_ID: bv32 := 0

  datatype Status = Success | DeleteError

  datatype RunState = Ready | Suspended

  /** The arguments of a create that end up in the block.  Pointers are addresses. */
  datatype Call = Call(entryPoint: nat, parameter: nat, name: nat, autoStart: bool)

  /** What the kernel gives a new thread: its handle and identifier, both 0 when it refuses one, and its stack limits when
      it lets the thread object be looked at. */
  datatype Given = Given(handle: nat, id: nat, limits: Limits)

  datatype Limits = Hidden | Stack(start: nat, end: nat)

  /** The contents of a thread block, its list entry aside. */
  datatype Block = Block(call: Call, handle: nat, win32Id: nat, id: bv32, state: RunState, stackStart: nat, stackEnd: nat)

  /** A block as a create leaves it. */
  function Filled(call: Call, given: Given): Block {
    Block(call, given.handle, given.id, TX_THREAD_ID, if call.autoStart then Ready else Suspended,
          if given.limits.Stack? then given.limits.start else 0, if given.limits.Stack? then given.limits.end else 0)
  }

  /** Field by field. */
  lemma FilledInFull(call: Call, given: Given)
    ensures var b := Filled(call, given);
            && b.call == call && b.handle == given.handle && b.win32Id == given.id && b.id == 0x5448_5244
            && (b.state == Ready <==> call.autoStart)
            && match given.limits
               case Hidden => b.stackStart == 0 && b.stackEnd == 0
               case Stack(start, end) => b.stackStart == start && b.stackEnd == end
  {
  }

  class Entry {
    var flink: Entry?
    var blink: Entry?
    var record: Thread?

    constructor (record: Thread?)
      ensures this.record == record && flink == null && blink == null
    {
      this.record := record;
      flink, blink := null, null;
    }
  }

  class Thread {
    const entry: Entry
    var call: Call
    var handle: nat
    var win32Id: nat
    var id: bv32
    var state: RunState
    var stackStart: nat
    var stackEnd: nat

    constructor ()
      ensures fresh(entry) && entry.record == this
    {
      entry := new Entry(null);
      call, handle, win32Id, id := Call(0, 0, 0, false), 0, 0, TX_CLEAR_ID;
      state, stackStart, stackEnd := Ready, 0, 0;
      new;
      entry.record := this;
    }

    ghost function Contents(): Block
      reads this
    {
      Block(call, handle, win32Id, id, state, stackStart, stackEnd)
    }

    /** Clear the block and fill it in. */
    method Fill(call: Call, given: Given)
      modifies this
      ensures Contents() == Filled(call, given)
    {
      this.call, handle, win32Id, id := Call(0, 0, 0, false), 0, 0, TX_CLEAR_ID;
      state, stackStart, stackEnd := Ready, 0, 0;
      this.call := call;
      state := if call.autoStart then Ready else Suspended;
      id := TX_THREAD_ID;
      handle, win32Id := given.handle, given.id;
      if given.limits.Stack? {
        stackStart := given.limits.start;
        stackEnd := given.limits.end;
      }
    }
  }

  class Threads {
    const head: Entry
    ghost var ring: seq<Entry>
    ghost var listed: seq<Thread>

    /** The ring starts at the head and comes back to it, and each link has its mirror image. */
    ghost predicate Linked()
      reads `ring, ring
    {
      && ring != [] && ring[0] == head
      && (forall i, j | 0 <= i < j < |ring| :: ring[i] != ring[j])
      && (forall i {:trigger ring[i].flink} | 0 <= i < |ring| - 1 :: ring[i].flink == ring[i + 1])
      && (forall i {:trigger ring[i].blink} | 1 <= i < |ring| :: ring[i].blink == ring[i - 1])
      && ring[|ring| - 1].flink == head && head.blink == ring[|ring| - 1]
    }

    /** The entries after the head belong to the threads of `listed`, in order. */
    ghost predicate Valid()
      reads this, ring
    {
      && Linked() && head.record == null && |ring| == |listed| + 1
      && (forall i | 0 <= i < |listed| :: listed[i].entry == ring[i + 1] && ring[i + 1].record == listed[i])
    }

    constructor ()
      ensures Valid() && listed == [] && fresh(head)
    {
      head := new Entry(null);
      new;
      ring, listed := [head], [];
      head.flink, head.blink := head, head;
    }

    method InsertTailList(e: Entry)
      requires Linked() && e !in ring
      modifies this`ring, e`flink, e`blink, ring`flink, ring`blink
      ensures Linked() && ring == old(ring) + [e]
    {
      assert head == ring[0];
      var last := head.blink;
      e.flink := head;
      e.blink := last;
      last.flink := e;
      head.blink := e;
      ring := ring + [e];
    }

    method RemoveEntryList(e: Entry, ghost k: nat)
      requires Linked() && 0 < k < |ring| && ring[k] == e
      modifies this`ring, ring`flink, ring`blink
      ensures Linked() && ring == old(ring)[..k] + old(ring)[k + 1..]
    {
      var next, previous := e.flink, e.blink;
      assert previous == ring[k - 1] && next == ring[if k + 1 < |ring| then k + 1 else 0];
      previous.flink := next;
      next.blink := previous;
      ring := ring[..k] + ring[k + 1..];
    }

    /** A block that is not listed has its entry outside the ring. */
    lemma UnlistedOutside(t: Thread)
      requires Valid() && t.entry.record == t && t !in listed
      ensures t.entry !in ring
    {
      assert forall i | 1 <= i < |ring| :: ring[i].record == listed[i - 1];
    }

    /** Create a thread: clear and fill its block, start it, list it last. */
    method Create(t: Thread, call: Call, given: Given) returns (status: Status)
      requires Valid() && t.entry.record == t && t !in listed
      modifies this, t, t.entry`flink, t.entry`blink, ring`flink, ring`blink
      ensures Valid() && listed == After(old(listed), Created(t, call, given)) && status == Success
      ensures t.Contents() == Filled(call, given)
      ensures t.call == call && t.handle == given.handle && t.win32Id == given.id && t.id == 0x5448_5244
      ensures t.state == if call.autoStart then Ready else Suspended
      ensures match given.limits
              case Hidden => t.stackStart == 0 && t.stackEnd == 0
              case Stack(start, end) => t.stackStart == start && t.stackEnd == end
    {
      hide Linked;
      UnlistedOutside(t);
      t.entry.flink, t.entry.blink := null, null;
      t.Fill(call, given);
      InsertTailList(t.entry);
      listed := listed + [t];
      status := Success;
    }

    /** Delete a thread that has ended within the wait; otherwise change nothing. */
    method Delete(t: Thread, ended: bool) returns (status: Status)
      requires Valid() && t in listed
      modifies this, t`id, ring`flink, ring`blink
      ensures Valid() && listed == After(old(listed), if ended then Deleted(t) else StillRunning(t))
      ensures ended ==> status == Success && t.id == 0 && t.Contents() == old(t.Contents()).(id := TX_CLEAR_ID)
      ensures !ended ==> status == DeleteError && unchanged(this) && unchanged(t) && unchanged(old(ring))
    {
      hide Linked;
      if !ended {
        return DeleteError;
      }
      t.id := TX_CLEAR_ID;
      ghost var k := IndexIn(listed, t);
      ghost var ring0, listed0 := ring, listed;
      RemoveEntryList(t.entry, k + 1);
      listed := listed[..k] + listed[k + 1..];
      forall i | 0 <= i < |listed| ensures listed[i].entry == ring[i + 1] && ring[i + 1].record == listed[i] {
        var j := if i < k then i else i + 1;
        assert listed[i] == listed0[j] && ring[i + 1] == ring0[j + 1];
      }
      status := Success;
    }

    /** The earliest listed thread that has the caller's identifier.  Not finding any is an assertion failure, and null
        where assertions are off. */
    method Identify(caller: nat) returns (r: Thread?, asserted: bool)
      requires Valid()
      ensures r == FirstById(listed, caller) && (asserted <==> forall t | t in listed :: t.win32Id != caller)
    {
      assert head == ring[0];
      var e := head.flink;
      ghost var i := 0;
      assert listed[0..] == listed;
      IdentifiesEarliest(listed, caller);
      while e != head
        invariant i <= |listed| && e == if i < |listed| then ring[i + 1] else head
        invariant FirstById(listed, caller) == FirstById(listed[i..], caller)
        decreases |listed| - i
      {
        assert e == ring[i + 1];
        var t := e.record;
        assert t == listed[i];
        if t.win32Id == caller {
          return t, false;
        }
        e := e.flink;
        i := i + 1;
      }
      return null, true;
    }

    /** Any sequence of completed creates and deletes, each create of a block that is not listed and each delete of one
        that is.  Every listed block is as its last create filled it. */
    method Perform(ops: seq<Op<Thread>>, ghost blocks: set<Thread>, ghost entries: set<Entry>)
      requires forall t | t in blocks :: t.entry in entries
      requires Valid() && listed == [] && Proper(ops)
      requires forall t | t in blocks :: t.entry.record == t
      requires forall i | 0 <= i < |ops| :: ops[i].thread in blocks
      modifies this, head, blocks, entries
      ensures Valid() && listed == Listed(ops)
      ensures forall t | t in listed :: t in blocks && AsBorn(ops, t)
    {
      hide Proper, Listed, After, AsBorn;
      var n := 0;
      Start(ops);
      while n < |ops|
        invariant n <= |ops| && Valid() && listed == Listed(ops[..n])
        invariant forall t | t in listed :: t in blocks && AsBorn(ops[..n], t)
        invariant forall t | t in blocks :: t.entry.record == t
      {
        ProperStep(ops, n);
        assert forall i | 1 <= i < |ring| :: ring[i] == listed[i - 1].entry && listed[i - 1] in listed;
        assert ops[n].thread in blocks && ops[n].thread.entry in entries;
        assert ops[..n + 1] == ops[..n] + [ops[n]];
        Step(ops[n].thread, ops[n], ops[..n], blocks);
        n := n + 1;
      }
      assert ops[..n] == ops;
    }

    /** One more operation after `early`. */
    method Step(t: Thread, op: Op<Thread>, ghost early: seq<Op<Thread>>, ghost blocks: set<Thread>)
      requires Valid() && op.thread == t && (t in listed <==> !op.Created?)
      requires t in blocks && forall u | u in blocks :: u.entry.record == u
      requires forall u | u in listed :: u in blocks && AsBorn(early, u)
      modifies this, t, ring`flink, ring`blink, t.entry`flink, t.entry`blink
      ensures Valid() && listed == After(old(listed), op)
      ensures forall u | u in listed :: u in blocks && AsBorn(early + [op], u)
    {
      hide AsBorn, Linked;
      NoTwiceListed();
      match op {
        case Created(_, call, given) =>
          var status := Create(t, call, given);
          JustBorn(early, op);
        case Deleted(_) =>
          var status := Delete(t, true);
        case StillRunning(_) =>
          var status := Delete(t, false);
      }
      forall u | u in listed && (u != t || !op.Created?) { AsBornStep(early, op, u); }
    }

    lemma NoTwiceListed()
      requires Valid()
      ensures forall i, j | 0 <= i < j < |listed| :: listed[i] != listed[j]
    {
      forall i, j | 0 <= i < j < |listed| ensures listed[i] != listed[j] {
        assert ring[i + 1] != ring[j + 1];
      }
    }

    /** After any such sequence, a caller whose identifier the kernel gave it at the `k`-th operation gets its own block
        exactly when no thread created before it and not deleted since was given that identifier too. */
    method PerformAndIdentify(ops: seq<Op<Thread>>, k: nat, ghost blocks: set<Thread>, ghost entries: set<Entry>)
      returns (r: Thread?, asserted: bool)
      requires forall t | t in blocks :: t.entry in entries
      requires Valid() && listed == [] && Proper(ops)
      requires forall t | t in blocks :: t.entry.record == t
      requires forall i | 0 <= i < |ops| :: ops[i].thread in blocks
      requires k < |ops| && ops[k].Created? && Alive(ops, ops[k].thread) && BornAt(ops, ops[k].thread) == k
      modifies this, head, blocks, entries
      ensures r == ops[k].thread <==>
              forall t | t in blocks && Alive(ops, t) && 0 <= BornAt(ops, t) < k :: Birth(ops, t).win32Id != ops[k].given.id
      ensures !asserted
    {
      hide Proper, Listed, Alive, BornAt;
      Perform(ops, blocks, entries);
      var own := ops[k].thread;
      forall t: Thread { ListedAreAlive(ops, t); }
      forall t: Thread { EarlierIsOlder(listed, ops, own, t); }
      IdentifiesCaller(listed, own);
      r, asserted := Identify(ops[k].given.id);
    }
  }

  // ----- What the list holds -----

  datatype Op<T> = Created(thread: T, call: Call, given: Given) | Deleted(thread: T) | StillRunning(thread: T)

  function IndexIn<T(==)>(s: seq<T>, t: T): (k: nat)
    requires t in s
    ensures k < |s| && s[k] == t && t !in s[..k]
  {
    if s[0] == t then 0 else IndexIn(s[1..], t) + 1
  }

  /** The list after one completed operation. */
  function After<T(==)>(listed: seq<T>, op: Op<T>): seq<T> {
    match op
    case Created(t, _, _) => listed + [t]
    case Deleted(t) => if t in listed then var k := IndexIn(listed, t); listed[..k] + listed[k + 1..] else listed
    case StillRunning(_) => listed
  }

  function Listed<T(==)>(ops: seq<Op<T>>): seq<T> {
    if ops == [] then [] else After(Listed(ops[..|ops| - 1]), ops[|ops| - 1])
  }

  /** Creates name blocks that are not listed, deletes name blocks that are. */
  predicate Proper<T(==)>(ops: seq<Op<T>>) {
    ops != [] ==>
      && Proper(ops[..|ops| - 1])
      && (ops[|ops| - 1].thread in Listed(ops[..|ops| - 1]) <==> !ops[|ops| - 1].Created?)
  }

  lemma {:induction false} ProperPrefix<T>(ops: seq<Op<T>>, n: nat)
    requires n <= |ops| && Proper(ops)
    ensures Proper(ops[..n])
    decreases |ops|
  {
    if n == |ops| {
      assert ops[..n] == ops;
    } else {
      ProperPrefix(ops[..|ops| - 1], n);
      assert ops[..|ops| - 1][..n] == ops[..n];
    }
  }

  lemma Start<T>(ops: seq<Op<T>>)
    ensures Listed(ops[..0]) == []
  {
  }

  lemma ProperStep<T>(ops: seq<Op<T>>, n: nat)
    requires n < |ops| && Proper(ops)
    ensures ops[n].thread in Listed(ops[..n]) <==> !ops[n].Created?
    ensures Listed(ops[..n + 1]) == After(Listed(ops[..n]), ops[n])
  {
    ProperPrefix(ops, n + 1);
    assert ops[..n + 1][..n] == ops[..n];
  }

  /** The last operation that completed on `t` created it. */
  predicate Alive<T(==)>(ops: seq<Op<T>>, t: T) {
    ops != [] &&
    var op := ops[|ops| - 1];
    if op.thread == t && !op.StillRunning? then op.Created? else Alive(ops[..|ops| - 1], t)
  }

  /** When `t` was last created, or -1. */
  function BornAt<T(==)>(ops: seq<Op<T>>, t: T): (n: int)
    ensures -1 <= n < |ops|
  {
    if ops == [] then -1
    else if ops[|ops| - 1].Created? && ops[|ops| - 1].thread == t then |ops| - 1
    else BornAt(ops[..|ops| - 1], t)
  }

  /** What the last create of `t` made of its block. */
  function Birth<T(==)>(ops: seq<Op<T>>, t: T): Block
    requires BornAt(ops, t) >= 0
  {
    BornByCreate(ops, t);
    var op := ops[BornAt(ops, t)];
    Filled(op.call, op.given)
  }

  lemma {:induction false} BornByCreate<T>(ops: seq<Op<T>>, t: T)
    requires BornAt(ops, t) >= 0
    ensures ops[BornAt(ops, t)].Created? && ops[BornAt(ops, t)].thread == t
  {
    if ops[|ops| - 1].Created? && ops[|ops| - 1].thread == t {
    } else {
      BornByCreate(ops[..|ops| - 1], t);
    }
  }

  /** The block is as its last create filled it. */
  ghost predicate AsBorn(ops: seq<Op<Thread>>, t: Thread)
    reads t
  {
    BornAt(ops, t) >= 0 && t.Contents() == Birth(ops, t)
  }

  lemma AsBornStep(early: seq<Op<Thread>>, op: Op<Thread>, t: Thread)
    requires op.thread != t || !op.Created?
    ensures AsBorn(early + [op], t) <==> AsBorn(early, t)
  {
    assert (early + [op])[..|early|] == early;
  }

  lemma JustBorn(early: seq<Op<Thread>>, op: Op<Thread>)
    requires op.Created? && op.thread.Contents() == Filled(op.call, op.given)
    ensures AsBorn(early + [op], op.thread)
  {
  }

  predicate ByAge<T(==)>(listed: seq<T>, ops: seq<Op<T>>) {
    forall i, j | 0 <= i < j < |listed| :: BornAt(ops, listed[i]) < BornAt(ops, listed[j])
  }

  /** The list holds the threads created and not yet deleted, each once, in the order of their creation. */
  lemma {:induction false} ListedAreAlive<T>(ops: seq<Op<T>>, t: T)
    requires Proper(ops)
    ensures t in Listed(ops) <==> Alive(ops, t)
    ensures ByAge(Listed(ops), ops)
  {
    if ops == [] {
    } else {
      var early, op := ops[..|ops| - 1], ops[|ops| - 1];
      ListedAreAlive(early, t);
      AfterKeepsAge(early, op, Listed(early));
      MembersAfter(Listed(early), op, t, early);
    }
  }

  /** In a list by age, the threads before `t` are those created earlier. */
  lemma EarlierIsOlder<T>(listed: seq<T>, ops: seq<Op<T>>, t: T, u: T)
    requires ByAge(listed, ops) && t in listed
    ensures u in listed[..IndexIn(listed, t)] <==> u in listed && BornAt(ops, u) < BornAt(ops, t)
  {
    var k := IndexIn(listed, t);
    if u in listed {
      var j := IndexIn(listed, u);
      assert j < k ==> listed[..k][j] == u;
    }
  }

  lemma AfterKeepsAge<T>(early: seq<Op<T>>, op: Op<T>, listed: seq<T>)
    requires ByAge(listed, early) && (op.thread in listed <==> !op.Created?)
    ensures ByAge(After(listed, op), early + [op])
  {
    var ops := early + [op];
    assert ops[..|ops| - 1] == early;
    forall t | !(op.Created? && op.thread == t) ensures BornAt(ops, t) == BornAt(early, t) {
    }
  }

  lemma MembersAfter<T>(listed: seq<T>, op: Op<T>, t: T, early: seq<Op<T>>)
    requires ByAge(listed, early) && (op.thread in listed <==> !op.Created?)
    ensures t in After(listed, op) <==> if op.thread == t && !op.StillRunning? then op.Created? else t in listed
  {
    if op.Deleted? {
      var k := IndexIn(listed, op.thread);
      assert listed == listed[..k] + [listed[k]] + listed[k + 1..];
      assert forall i | k < i < |listed| :: BornAt(early, listed[k]) < BornAt(early, listed[i]);
    }
  }

  // ----- Identity -----

  function FirstById(s: seq<Thread>, caller: nat): (r: Thread?)
    reads s
    ensures r != null ==> r in s && r.win32Id == caller
  {
    if s == [] then null else if s[0].win32Id == caller then s[0] else FirstById(s[1..], caller)
  }

  /** Identify returns the caller's own block exactly when no thread listed before it has the same identifier. */
  lemma {:induction false} IdentifiesCaller(listed: seq<Thread>, t: Thread)
    requires t in listed
    ensures FirstById(listed, t.win32Id) == t <==> forall u | u in listed[..IndexIn(listed, t)] :: u.win32Id != t.win32Id
  {
    if listed[0] == t {
    } else {
      IdentifiesCaller(listed[1..], t);
      var k := IndexIn(listed[1..], t);
      assert listed[..k + 1] == [listed[0]] + listed[1..][..k];
    }
  }

  /** It returns null exactly when no listed thread has the identifier, and otherwise the earliest one that does. */
  lemma {:induction false} IdentifiesEarliest(listed: seq<Thread>, caller: nat)
    ensures FirstById(listed, caller) == null <==> forall u | u in listed :: u.win32Id != caller
    ensures FirstById(listed, caller) != null ==>
      forall u | u in listed[..IndexIn(listed, FirstById(listed, caller))] :: u.win32Id != caller
  {
    if listed == [] || listed[0].win32Id == caller {
    } else {
      IdentifiesEarliest(listed[1..], caller);
    }
  }
}
