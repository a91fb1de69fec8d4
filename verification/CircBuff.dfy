/** The circular buffer of path/db/path_datahub.cpp: a producer process and a consumer process
    share an array and two index variables held by the variable server, and touch them only by
    single reads and updates.  A run is any sequence of such steps of the two processes. */
module CircBuff {
  import opened Arith

  /** The shared variables, by identifier. */
  type Store = map<int, int>

  /** The variable that the server answers with when the one asked for does not exist. */
  const BAD_VAR := 0
  const MAX_DB_BUILTIN_VAR := 2

  /** `junk` is what a reply buffer holds that nothing was read into. */
  datatype Config = Config(inID: int, outID: int, first: int, length: int, junk: int)

  /** The identifiers that the client library lets a program create; they are compared as unsigned
      numbers. */
  predicate Usable(id: int) {
    id < 0 || id > MAX_DB_BUILTIN_VAR
  }

  /** What the callers of the constructor promise of the identifiers: all of them can be created, and
      the index variables differ from each other and from the elements. */
  ghost predicate Apart(c: Config) {
    && Usable(c.inID) && Usable(c.outID) && c.inID != c.outID
    && (forall id :: c.first <= id < c.first + c.length ==> Usable(id))
    && !(c.first <= c.inID < c.first + c.length)
    && !(c.first <= c.outID < c.first + c.length)
  }

  /** And there is a slot. */
  ghost predicate Proper(c: Config) {
    Apart(c) && c.length >= 1
  }

  /** Where insertItem stands: between calls, in isFull before and after its first read, before
      the second read of the index, before the element update, before the index update. */
  datatype Producer =
    | PIdle
    | PReadIn(item: int)
    | PReadOut(item: int, inval: int)
    | PReadIn2(item: int)
    | PElem(item: int, inval: int)
    | PUpdate(item: int, inval: int)

  /** Where deleteItem stands. */
  datatype Consumer =
    | CIdle
    | CReadIn
    | CReadOut(inval: int)
    | CReadOut2
    | CElem(outval: int)
    | CUpdate(item: int, outval: int)

  /** `inserted` and `deleted` are the items of the completed successful calls; `seen` is how many
      had been inserted when the consumer last read the insertion index. */
  datatype State = State(store: Store, prod: Producer, cons: Consumer,
    inserted: seq<int>, deleted: seq<int>, seen: nat)

  datatype Event = Insert(item: int) | ProducerStep | Delete | ConsumerStep

  /** A read of a missing variable returns the data of the bad one. */
  function ReadVar(store: Store, id: int): int {
    if id in store then store[id] else if BAD_VAR in store then store[BAD_VAR] else 0
  }

  function UpdateVar(store: Store, id: int, value: int): Store {
    if id in store then store[id := value] else store
  }

  function ElemAt(c: Config, store: Store, index: int): int {
    if 0 <= index < c.length then ReadVar(store, c.first + index) else c.junk
  }

  function WithElem(c: Config, store: Store, index: int, value: int): Store {
    if 0 <= index < c.length then UpdateVar(store, c.first + index, value) else store
  }

  function Bump(c: Config, index: int): int {
    if index + 1 == c.length then 0 else index + 1
  }

  /** isFull on the two values read */
  predicate Full(c: Config, inval: int, outval: int) {
    if outval != 0 then inval == outval - 1 else inval == c.length - 1
  }

  /** One atomic step; an event that does not fit where its process stands changes nothing. */
  function Step(c: Config, s: State, e: Event): State {
    match e
    case Insert(item) => if s.prod.PIdle? then s.(prod := PReadIn(item)) else s
    case Delete => if s.cons.CIdle? then s.(cons := CReadIn) else s
    case ProducerStep => StepProducer(c, s)
    case ConsumerStep => StepConsumer(c, s)
  }

  function StepProducer(c: Config, s: State): State {
    match s.prod
    case PIdle => s
    case PReadIn(item) => s.(prod := PReadOut(item, ReadVar(s.store, c.inID)))
    case PReadOut(item, inval) =>
      s.(prod := if Full(c, inval, ReadVar(s.store, c.outID)) then PIdle else PReadIn2(item))
    case PReadIn2(item) => s.(prod := PElem(item, ReadVar(s.store, c.inID)))
    case PElem(item, inval) =>
      s.(store := WithElem(c, s.store, inval, item), prod := PUpdate(item, Bump(c, inval)))
    case PUpdate(item, inval) =>
      s.(store := UpdateVar(s.store, c.inID, inval), prod := PIdle, inserted := s.inserted + [item])
  }

  function StepConsumer(c: Config, s: State): State {
    match s.cons
    case CIdle => s
    case CReadIn => s.(cons := CReadOut(ReadVar(s.store, c.inID)), seen := |s.inserted|)
    case CReadOut(inval) =>
      s.(cons := if inval == ReadVar(s.store, c.outID) then CIdle else CReadOut2)
    case CReadOut2 => s.(cons := CElem(ReadVar(s.store, c.outID)))
    case CElem(outval) => s.(cons := CUpdate(ElemAt(c, s.store, outval), Bump(c, outval)))
    case CUpdate(item, outval) =>
      s.(store := UpdateVar(s.store, c.outID, outval), cons := CIdle, deleted := s.deleted + [item])
  }

  function RunFrom(c: Config, s: State, events: seq<Event>): State
    decreases |events|
  {
    if events == [] then s else RunFrom(c, Step(c, s, events[0]), events[1..])
  }

  // ------------------------------------------------------------------ the invariant

  /** The slot that item number k goes through. */
  function Slot(c: Config, k: nat): (j: int)
    requires c.length >= 1
    ensures 0 <= j < c.length
  {
    k % c.length
  }

  lemma SlotUnique(c: Config, a: nat, b: nat)
    requires c.length >= 1 && b <= a < b + c.length && Slot(c, a) == Slot(c, b)
    ensures a == b
  {
    ModUnique(a, b, c.length);
  }

  lemma SlotBump(c: Config, k: nat)
    requires c.length >= 1
    ensures 0 <= Slot(c, k) < c.length && Slot(c, k + 1) == Bump(c, Slot(c, k))
  {
    var n, q, r := c.length, k / c.length, k % c.length;
    assert k == n * q + r;
    if r + 1 == n {
      assert k + 1 == n * (q + 1);
      DivModUnique(n, q + 1, 0);
    } else {
      DivModUnique(n, q, r + 1);
    }
  }

  /** isFull on current values is exact. */
  lemma FullIff(c: Config, i: nat, d: nat)
    requires c.length >= 1 && d <= i <= d + c.length - 1
    ensures Full(c, Slot(c, i), Slot(c, d)) <==> i - d == c.length - 1
  {
    SlotBump(c, i);
    SlotBump(c, d);
    var j := Slot(c, i + 1);
    assert Full(c, Slot(c, i), Slot(c, d)) <==> j == Slot(c, d);
    if j == Slot(c, d) {
      if i + 1 < d + c.length {
        SlotUnique(c, i + 1, d);
      }
    } else if i - d == c.length - 1 {
      SlotWraps(c, d);
    }
  }

  lemma SlotWraps(c: Config, k: nat)
    requires c.length >= 1
    ensures Slot(c, k + c.length) == Slot(c, k)
  {
    var n, q, r := c.length, k / c.length, k % c.length;
    assert k == n * q + r;
    assert k + n == n * (q + 1) + r;
    DivModUnique(n, q + 1, r);
  }

  /** The shared store agrees with the history. */
  ghost predicate StoreInv(c: Config, s: State)
    requires c.length >= 1
  {
    var i, d := |s.inserted|, |s.deleted|;
    && d <= i <= d + c.length - 1
    && s.deleted == s.inserted[..d]
    && c.inID in s.store && s.store[c.inID] == Slot(c, i)
    && c.outID in s.store && s.store[c.outID] == Slot(c, d)
    && (forall j :: c.first <= j < c.first + c.length ==> j in s.store)
    && (forall k :: d <= k < i ==> s.store[c.first + Slot(c, k)] == s.inserted[k])
  }

  ghost predicate ProducerInv(c: Config, s: State)
    requires c.length >= 1
  {
    var i, d := |s.inserted|, |s.deleted|;
    match s.prod
    case PIdle => true
    case PReadIn(_) => true
    case PReadOut(_, inval) => inval == Slot(c, i)
    case PReadIn2(_) => i - d < c.length - 1
    case PElem(_, inval) => i - d < c.length - 1 && inval == Slot(c, i)
    case PUpdate(item, inval) =>
      && i - d < c.length - 1 && inval == Slot(c, i + 1)
      && c.first + Slot(c, i) in s.store && s.store[c.first + Slot(c, i)] == item
  }

  /** The consumer may act on an old insertion index, but never one older than its own deletions. */
  ghost predicate ConsumerInv(c: Config, s: State)
    requires c.length >= 1
  {
    var i, d := |s.inserted|, |s.deleted|;
    match s.cons
    case CIdle => true
    case CReadIn => true
    case CReadOut(inval) => d <= s.seen <= i && inval == Slot(c, s.seen)
    case CReadOut2 => d < i
    case CElem(outval) => d < i && outval == Slot(c, d)
    case CUpdate(item, outval) => d < i && outval == Slot(c, d + 1) && item == s.inserted[d]
  }

  ghost predicate Inv(c: Config, s: State)
    requires c.length >= 1
  {
    StoreInv(c, s) && ProducerInv(c, s) && ConsumerInv(c, s)
  }

  lemma ProducerStepInv(c: Config, s: State)
    requires Proper(c) && Inv(c, s)
    ensures Inv(c, StepProducer(c, s))
  {
    hide Slot;
    var i, d := |s.inserted|, |s.deleted|;
    SlotBump(c, i);
    SlotBump(c, d);
    match s.prod {
      case PReadOut(item, inval) => FullIff(c, i, d);
      case PElem(item, inval) => ElementStepInv(c, s);
      case PUpdate(item, inval) => IndexStepInv(c, s);
      case _ =>
    }
  }

  lemma ElementStepInv(c: Config, s: State)
    requires Proper(c) && Inv(c, s) && s.prod.PElem?
    ensures Inv(c, StepProducer(c, s))
  {
    hide Slot;
    SlotBump(c, |s.inserted|);
    ElementWriteIsSafe(c, s);
  }

  lemma IndexStepInv(c: Config, s: State)
    requires Proper(c) && Inv(c, s) && s.prod.PUpdate?
    ensures Inv(c, StepProducer(c, s))
  {
    hide Slot;
    var i, d, s' := |s.inserted|, |s.deleted|, StepProducer(c, s);
    SlotBump(c, i);
    forall k | d <= k < i + 1 ensures s'.store[c.first + Slot(c, k)] == s'.inserted[k] {
      SlotBump(c, k);
    }
  }

  /** The slot the producer is about to fill holds none of the items still to be deleted, nor one
      the consumer is reading. */
  lemma ElementWriteIsSafe(c: Config, s: State)
    requires Proper(c) && Inv(c, s) && s.prod.PElem?
    ensures 0 <= s.prod.inval < c.length
    ensures forall k :: |s.deleted| <= k < |s.inserted| ==> Slot(c, k) != s.prod.inval
    ensures s.cons.CElem? ==> s.cons.outval != s.prod.inval
  {
    SlotBump(c, |s.inserted|);
    forall k | |s.deleted| <= k < |s.inserted| ensures Slot(c, k) != s.prod.inval {
      if Slot(c, k) == Slot(c, |s.inserted|) {
        SlotUnique(c, |s.inserted|, k);
      }
    }
  }

  lemma ConsumerStepInv(c: Config, s: State)
    requires Proper(c) && Inv(c, s)
    ensures Inv(c, StepConsumer(c, s))
  {
    hide Slot;
    var i, d := |s.inserted|, |s.deleted|;
    SlotBump(c, i);
    SlotBump(c, d);
    match s.cons {
      case CReadOut(inval) => EmptyIff(c, s);
      case CUpdate(item, outval) =>
        var s' := StepConsumer(c, s);
        forall k | d + 1 <= k < i ensures s'.store[c.first + Slot(c, k)] == s'.inserted[k] {
          SlotBump(c, k);
        }
      case _ =>
    }
  }

  /** deleteItem gives up exactly when nothing was left at the moment it read the insertion
      index. */
  lemma EmptyIff(c: Config, s: State)
    requires Proper(c) && Inv(c, s) && s.cons.CReadOut?
    ensures StepConsumer(c, s).cons.CIdle? <==> s.seen == |s.deleted|
    ensures s.seen != |s.deleted| ==> |s.deleted| < |s.inserted|
  {
    if s.cons.inval == s.store[c.outID] {
      SlotUnique(c, s.seen, |s.deleted|);
    }
  }

  /** insertItem gives up exactly when length - 1 items are held at its read of the deletion
      index. */
  lemma RejectIff(c: Config, s: State)
    requires Proper(c) && Inv(c, s) && s.prod.PReadOut?
    ensures StepProducer(c, s).prod.PIdle? <==> |s.inserted| - |s.deleted| == c.length - 1
  {
    FullIff(c, |s.inserted|, |s.deleted|);
  }

  // ------------------------------------------------------------------ whole runs

  /** What the constructor leaves behind: every variable created, both indices 0. */
  ghost predicate Fresh(c: Config, store: Store) {
    && (forall j :: c.first <= j < c.first + c.length ==> j in store)
    && c.inID in store && store[c.inID] == 0
    && c.outID in store && store[c.outID] == 0
  }

  function Start(store: Store): State {
    State(store, PIdle, CIdle, [], [], 0)
  }

  lemma StepInv(c: Config, s: State, e: Event)
    requires Proper(c) && Inv(c, s)
    ensures Inv(c, Step(c, s, e))
  {
    if e.ProducerStep? {
      ProducerStepInv(c, s);
    } else if e.ConsumerStep? {
      ConsumerStepInv(c, s);
    }
  }

  lemma {:induction false} RunKeepsInv(c: Config, s: State, events: seq<Event>)
    requires Proper(c) && Inv(c, s)
    ensures Inv(c, RunFrom(c, s, events))
    decreases |events|
  {
    if events != [] {
      StepInv(c, s, events[0]);
      RunKeepsInv(c, Step(c, s, events[0]), events[1..]);
    }
  }

  lemma RunInv(c: Config, store: Store, events: seq<Event>)
    requires Proper(c) && Fresh(c, store)
    ensures Inv(c, RunFrom(c, Start(store), events))
  {
    assert Slot(c, 0) == 0;
    RunKeepsInv(c, Start(store), events);
  }

  /** Under every interleaving: the items deleted are a prefix of the items inserted, at most
      length - 1 are held, the element about to be written holds nothing unread, and the element
      about to be read holds the oldest unread item. */
  lemma EveryRunIsSafe(c: Config, store: Store, events: seq<Event>)
    requires Proper(c) && Fresh(c, store)
    ensures var s := RunFrom(c, Start(store), events);
      && s.deleted <= s.inserted
      && |s.inserted| - |s.deleted| <= c.length - 1
      && (s.prod.PElem? ==>
            && 0 <= s.prod.inval < c.length
            && (forall k :: |s.deleted| <= k < |s.inserted| ==> Slot(c, k) != s.prod.inval)
            && (s.cons.CElem? ==> s.cons.outval != s.prod.inval))
      && (s.cons.CElem? ==>
            && |s.deleted| < |s.inserted|
            && ElemAt(c, s.store, s.cons.outval) == s.inserted[|s.deleted|])
  {
    RunInv(c, store, events);
    var s := RunFrom(c, Start(store), events);
    SlotBump(c, |s.deleted|);
    if s.prod.PElem? {
      ElementWriteIsSafe(c, s);
    }
  }

  /** Under every interleaving a call fails only for cause: insertItem when length - 1 items are
      held as it reads the deletion index, deleteItem when none was left as it read the insertion
      index. */
  lemma EveryRefusalIsJustified(c: Config, store: Store, events: seq<Event>)
    requires Proper(c) && Fresh(c, store)
    ensures var s := RunFrom(c, Start(store), events);
      && (s.prod.PReadOut? ==>
            (StepProducer(c, s).prod.PIdle? <==> |s.inserted| - |s.deleted| == c.length - 1))
      && (s.cons.CReadOut? ==>
            (StepConsumer(c, s).cons.CIdle? <==> s.seen == |s.deleted|))
  {
    RunInv(c, store, events);
    var s := RunFrom(c, Start(store), events);
    if s.prod.PReadOut? {
      RejectIff(c, s);
    }
    if s.cons.CReadOut? {
      EmptyIff(c, s);
    }
  }

  /** A call of insertItem that the consumer does not interrupt, and its steps. */
  function InsertCall(c: Config, s: State, item: int, ok: bool): State {
    var t := StepProducer(c, StepProducer(c, Step(c, s, Insert(item))));
    if ok then StepProducer(c, StepProducer(c, StepProducer(c, t))) else t
  }

  /** A call of deleteItem that the producer does not interrupt, and its steps. */
  function DeleteCall(c: Config, s: State, ok: bool): State {
    var t := StepConsumer(c, StepConsumer(c, Step(c, s, Delete)));
    if ok then StepConsumer(c, StepConsumer(c, StepConsumer(c, t))) else t
  }

  /** The events of these calls. */
  function InsertEvents(item: int, ok: bool): seq<Event> {
    [Insert(item), ProducerStep, ProducerStep] + if ok then [ProducerStep, ProducerStep, ProducerStep] else []
  }

  function DeleteEvents(ok: bool): seq<Event> {
    [Delete, ConsumerStep, ConsumerStep] + if ok then [ConsumerStep, ConsumerStep, ConsumerStep] else []
  }

  /** Accepted or refused, both calls are runs of their events. */
  lemma CallsAreRuns(c: Config, s: State, item: int, ok: bool)
    ensures RunFrom(c, s, InsertEvents(item, ok)) == InsertCall(c, s, item, ok)
    ensures RunFrom(c, s, DeleteEvents(ok)) == DeleteCall(c, s, ok)
  {
    var p, q := ProducerStep, ConsumerStep;
    RunThree(c, s, Insert(item), p, p, if ok then [p, p, p] else []);
    RunThree(c, s, Delete, q, q, if ok then [q, q, q] else []);
    if ok {
      RunThree(c, StepProducer(c, StepProducer(c, Step(c, s, Insert(item)))), p, p, p, []);
      RunThree(c, StepConsumer(c, StepConsumer(c, Step(c, s, Delete))), q, q, q, []);
      assert [p, p, p] + [] == [p, p, p] && [q, q, q] + [] == [q, q, q];
    }
  }

  lemma RunOne(c: Config, s: State, e: Event, rest: seq<Event>)
    ensures RunFrom(c, s, [e] + rest) == RunFrom(c, Step(c, s, e), rest)
  {
    assert ([e] + rest)[1..] == rest;
  }

  lemma RunThree(c: Config, s: State, e: Event, f: Event, g: Event, rest: seq<Event>)
    ensures RunFrom(c, s, [e, f, g] + rest) == RunFrom(c, Step(c, Step(c, Step(c, s, e), f), g), rest)
  {
    RunOne(c, s, e, [f, g] + rest);
    RunOne(c, Step(c, s, e), f, [g] + rest);
    RunOne(c, Step(c, Step(c, s, e), f), g, rest);
    assert [e, f, g] + rest == [e] + ([f, g] + rest);
    assert [f, g] + rest == [f] + ([g] + rest);
  }

  lemma {:induction false} RunTogether(c: Config, s: State, a: seq<Event>, b: seq<Event>)
    ensures RunFrom(c, s, a + b) == RunFrom(c, RunFrom(c, s, a), b)
    decreases |a|
  {
    if a == [] {
      assert a + b == b;
    } else {
      assert (a + b)[0] == a[0] && (a + b)[1..] == a[1..] + b;
      RunTogether(c, Step(c, s, a[0]), a[1..], b);
    }
  }

  lemma InsertWithoutSlot(c: Config, s: State, item: int)
    requires c.length <= 0 && c.inID != c.outID && Fresh(c, s.store) && s.prod.PIdle?
    ensures InsertCall(c, s, item, true) == s.(store := s.store[c.inID := 1], inserted := s.inserted + [item])
  {
    var t := StepProducer(c, StepProducer(c, Step(c, s, Insert(item))));
    assert t == s.(prod := PReadIn2(item));
  }

  lemma DeleteWithoutSlot(c: Config, s: State)
    requires c.length <= 0 && c.inID in s.store && c.outID in s.store && s.cons.CIdle?
    requires s.store[c.inID] == 1 && s.store[c.outID] == 0
    ensures var t := DeleteCall(c, s, true);
      t.cons.CIdle? && t.prod == s.prod && t.inserted == s.inserted && t.deleted == s.deleted + [c.junk]
  {
    var t := StepConsumer(c, StepConsumer(c, Step(c, s, Delete)));
    assert t == s.(cons := CReadOut2, seen := |s.inserted|);
  }

  /** Without a slot every insertion into a fresh buffer is reported as done and lost: the deletion
      after it yields what happened to be in memory. */
  lemma NoSlots(c: Config, store: Store, item: int)
    requires c.length <= 0 && c.inID != c.outID && Fresh(c, store)
    ensures var s := RunFrom(c, Start(store), InsertEvents(item, true) + DeleteEvents(true));
      s.inserted == [item] && s.deleted == [c.junk] && s.prod.PIdle? && s.cons.CIdle?
  {
    hide Step, StepProducer, StepConsumer, RunFrom, InsertCall, DeleteCall, InsertEvents, DeleteEvents;
    var s := Start(store);
    var s1 := InsertCall(c, s, item, true);
    InsertWithoutSlot(c, s, item);
    DeleteWithoutSlot(c, s1);
    CallsAreRuns(c, s, item, true);
    CallsAreRuns(c, s1, item, true);
    RunTogether(c, s, InsertEvents(item, true), DeleteEvents(true));
  }

  /** What is deleted is a prefix of what was inserted, whatever the run. */
  ghost predicate Faithful(c: Config) {
    forall store, events :: Fresh(c, store) ==>
      RunFrom(c, Start(store), events).deleted <= RunFrom(c, Start(store), events).inserted
  }

  /** That holds exactly when there is a slot. */
  lemma FaithfulIff(c: Config)
    requires Apart(c)
    ensures Faithful(c) <==> c.length >= 1
  {
    if c.length >= 1 {
      forall store, events | Fresh(c, store)
        ensures RunFrom(c, Start(store), events).deleted <= RunFrom(c, Start(store), events).inserted
      {
        EveryRunIsSafe(c, store, events);
      }
    } else {
      var store := map[c.inID := 0, c.outID := 0];
      var events := InsertEvents(c.junk + 1, true) + DeleteEvents(true);
      assert Fresh(c, store);
      NoSlots(c, store, c.junk + 1);
      var s := RunFrom(c, Start(store), events);
      assert s.deleted[0] != s.inserted[0];
    }
  }

  // ------------------------------------------------------------------ constructors of two processes

  /** Each process constructs its own object: the variables are created again, without effect, and
      both index variables are set to 0 in two further updates. */
  datatype Act = Play(e: Event) | MakeVar(id: int) | ZeroIn | ZeroOut

  function Create(store: Store, id: int): Store {
    if Usable(id) && id !in store then store[id := 0] else store
  }

  function StepAct(c: Config, s: State, a: Act): State {
    match a
    case Play(e) => Step(c, s, e)
    case MakeVar(id) => s.(store := Create(s.store, id))
    case ZeroIn => s.(store := UpdateVar(s.store, c.inID, 0))
    case ZeroOut => s.(store := UpdateVar(s.store, c.outID, 0))
  }

  function RunActs(c: Config, s: State, acts: seq<Act>): State
    decreases |acts|
  {
    if acts == [] then s else RunActs(c, StepAct(c, s, acts[0]), acts[1..])
  }

  /** The index variables are set to 0 only while no insertion has been completed. */
  ghost predicate EarlyZeros(c: Config, s: State, acts: seq<Act>)
    decreases |acts|
  {
    acts == [] ||
    (&& (acts[0].ZeroIn? || acts[0].ZeroOut? ==> s.inserted == [])
     && EarlyZeros(c, StepAct(c, s, acts[0]), acts[1..]))
  }

  /** Then the other process's constructor may run at any time, in any interleaving, and all runs stay
      safe. */
  lemma {:induction false} EarlyConstructorsAreSafe(c: Config, s: State, acts: seq<Act>)
    requires Proper(c) && Inv(c, s) && EarlyZeros(c, s, acts)
    ensures Inv(c, RunActs(c, s, acts))
    ensures RunActs(c, s, acts).deleted <= RunActs(c, s, acts).inserted
    decreases |acts|
  {
    if acts != [] {
      match acts[0] {
        case Play(e) => StepInv(c, s, e);
        case MakeVar(id) => CreateKeepsInv(c, s, id);
        case _ => ZeroIsIdle(c, s, acts[0]);
      }
      EarlyConstructorsAreSafe(c, StepAct(c, s, acts[0]), acts[1..]);
    }
  }

  lemma ZeroIsIdle(c: Config, s: State, a: Act)
    requires Proper(c) && Inv(c, s) && s.inserted == [] && (a.ZeroIn? || a.ZeroOut?)
    ensures StepAct(c, s, a) == s
  {
    assert Slot(c, 0) == 0;
  }

  lemma CreateKeepsInv(c: Config, s: State, id: int)
    requires Proper(c) && Inv(c, s)
    ensures Inv(c, StepAct(c, s, MakeVar(id)))
  {
    forall k | |s.deleted| <= k < |s.inserted|
      ensures c.first + Slot(c, k) in s.store
    {
      SlotBump(c, k);
    }
  }

  /** A constructor that comes while items are held throws them away: between calls of the two
      processes, the next deletion is refused although there is something to delete. */
  lemma LateConstructorLosesItems(c: Config, s: State)
    requires Proper(c) && Inv(c, s) && s.prod.PIdle? && s.cons.CIdle? && |s.deleted| < |s.inserted|
    ensures var t := RunActs(c, s, Construction(c));
      && |t.deleted| < |t.inserted|
      && DeleteCall(c, t, false).cons.CIdle? && DeleteCall(c, t, false).deleted == s.deleted
  {
    ConstructionZeros(c, s);
  }

  /** The state with the first n items of both histories forgotten. */
  function Forget(s: State, n: nat): State
    requires n <= |s.inserted| && n <= |s.deleted|
  {
    s.(inserted := s.inserted[n..], deleted := s.deleted[n..], seen := if s.seen < n then 0 else s.seen - n)
  }

  /** No step looks at them. */
  lemma {:induction false} ForgetRun(c: Config, s: State, n: nat, events: seq<Event>)
    requires n <= |s.inserted| && n <= |s.deleted|
    ensures var t := RunFrom(c, s, events);
      && n <= |t.inserted| && n <= |t.deleted|
      && t.inserted[..n] == s.inserted[..n] && t.deleted[..n] == s.deleted[..n]
      && RunFrom(c, Forget(s, n), events) == Forget(t, n)
    decreases |events|
  {
    if events != [] {
      ForgetStep(c, s, n, events[0]);
      ForgetRun(c, Step(c, s, events[0]), n, events[1..]);
    }
  }

  lemma ForgetStep(c: Config, s: State, n: nat, e: Event)
    requires n <= |s.inserted| && n <= |s.deleted|
    ensures var t := Step(c, s, e);
      && n <= |t.inserted| && n <= |t.deleted|
      && t.inserted[..n] == s.inserted[..n] && t.deleted[..n] == s.deleted[..n]
      && Step(c, Forget(s, n), e) == Forget(t, n)
  {
    hide ElemAt, WithElem, ReadVar, UpdateVar, Full, Bump;
  }

  /** What is deleted stays a prefix of what was inserted, whatever happens from here on. */
  ghost predicate SafeFrom(c: Config, s: State) {
    forall events :: RunFrom(c, s, events).deleted <= RunFrom(c, s, events).inserted
  }

  /** The whole constructor: the elements, then both index variables, created and set to 0. */
  function Construction(c: Config): seq<Act> {
    MakeElements(c, c.length) + [MakeVar(c.inID), ZeroIn, MakeVar(c.outID), ZeroOut]
  }

  function MakeElements(c: Config, n: int): seq<Act> {
    if n <= 0 then [] else MakeElements(c, n - 1) + [MakeVar(c.first + n - 1)]
  }

  /** Between calls of the two processes a late constructor is safe exactly when nothing is held. */
  lemma LateConstructorSafeIff(c: Config, s: State)
    requires Proper(c) && Inv(c, s) && s.prod.PIdle? && s.cons.CIdle?
    ensures SafeFrom(c, RunActs(c, s, Construction(c))) <==> |s.deleted| == |s.inserted|
  {
    var t := s.(store := s.store[c.inID := 0][c.outID := 0]);
    ConstructionZeros(c, s);
    if |s.deleted| == |s.inserted| {
      forall events
        ensures RunFrom(c, t, events).deleted <= RunFrom(c, t, events).inserted
      {
        EmptyStaysSafe(c, t, events);
      }
    } else {
      var d := |s.deleted|;
      var events := InsertEvents(s.inserted[d] + 1, true) + DeleteEvents(true);
      OneThrough(c, t, s.inserted[d] + 1);
      var u := RunFrom(c, t, events);
      assert u.deleted[d] != u.inserted[d];
    }
  }

  lemma ConstructionZeros(c: Config, s: State)
    requires Proper(c) && StoreInv(c, s)
    ensures RunActs(c, s, Construction(c)) == s.(store := s.store[c.inID := 0][c.outID := 0])
  {
    ElementsExist(c, s, c.length);
    ConstructionEnds(c, s);
  }

  /** After the elements come the four acts on the index variables. */
  lemma ConstructionEnds(c: Config, s: State)
    ensures var t := StepAct(c, StepAct(c, RunActs(c, s, MakeElements(c, c.length)), MakeVar(c.inID)), ZeroIn);
      RunActs(c, s, Construction(c)) == StepAct(c, StepAct(c, t, MakeVar(c.outID)), ZeroOut)
  {
    hide StepAct;
    var elements, rest := MakeElements(c, c.length), [MakeVar(c.inID), ZeroIn, MakeVar(c.outID), ZeroOut];
    ActsTogether(c, s, elements, rest);
    FourActs(c, RunActs(c, s, elements), rest[0], rest[1], rest[2], rest[3]);
  }

  lemma FourActs(c: Config, s: State, a0: Act, a1: Act, a2: Act, a3: Act)
    ensures RunActs(c, s, [a0, a1, a2, a3]) ==
            StepAct(c, StepAct(c, StepAct(c, StepAct(c, s, a0), a1), a2), a3)
  {
    hide StepAct;
    var s1 := StepAct(c, s, a0);
    var s2 := StepAct(c, s1, a1);
    var s3 := StepAct(c, s2, a2);
    assert [a0, a1, a2, a3][1..] == [a1, a2, a3] && [a1, a2, a3][1..] == [a2, a3];
    assert [a2, a3][1..] == [a3] && [a3][1..] == [];
    assert RunActs(c, s, [a0, a1, a2, a3]) == RunActs(c, s1, [a1, a2, a3]);
    assert RunActs(c, s1, [a1, a2, a3]) == RunActs(c, s2, [a2, a3]);
    assert RunActs(c, s2, [a2, a3]) == RunActs(c, s3, [a3]);
    assert RunActs(c, s3, [a3]) == RunActs(c, StepAct(c, s3, a3), []);
  }

  lemma NoElements(c: Config, s: State, n: int)
    requires n <= 0
    ensures RunActs(c, s, MakeElements(c, n)) == s
  {
  }

  lemma ElementNext(c: Config, s: State, n: nat)
    ensures RunActs(c, s, MakeElements(c, n + 1)) ==
            StepAct(c, RunActs(c, s, MakeElements(c, n)), MakeVar(c.first + n))
  {
    hide StepAct;
    var last := [MakeVar(c.first + n)];
    ActsTogether(c, s, MakeElements(c, n), last);
    assert last[1..] == [];
  }

  lemma {:induction false} ElementsMade(c: Config, s: State, n: nat)
    ensures var t := RunActs(c, s, MakeElements(c, n)).store;
      && (forall id :: id in t <==> id in s.store || (Usable(id) && c.first <= id < c.first + n))
      && (forall id :: id in t ==> t[id] == if id in s.store then s.store[id] else 0)
  {
    if n > 0 {
      ElementsMade(c, s, n - 1);
      ElementNext(c, s, n - 1);
    }
  }

  /** The variables that a constructor may create. */
  predicate Named(c: Config, id: int) {
    Usable(id) && (c.first <= id < c.first + c.length || id == c.inID || id == c.outID)
  }

  /** What the constructor leaves in the store, whatever was there: all that was there, the elements and
      indices it may create, the indices and what is new at 0, the rest unchanged. */
  lemma ConstructionMakes(c: Config, store: Store)
    ensures var t := RunActs(c, Start(store), Construction(c)).store;
      && (Apart(c) ==> Fresh(c, t))
      && (forall id :: id in t <==> id in store || Named(c, id))
      && (forall id :: id in t ==>
            t[id] == if id in store && id != c.inID && id != c.outID then store[id] else 0)
  {
    var n := if c.length < 0 then 0 else c.length;
    NoElements(c, Start(store), if c.length < 0 then c.length else 0);
    NoElements(c, Start(store), 0);
    ElementsMade(c, Start(store), n);
    ConstructionEnds(c, Start(store));
  }

  lemma {:induction false} ElementsExist(c: Config, s: State, n: nat)
    requires forall j :: c.first <= j < c.first + n ==> j in s.store
    ensures RunActs(c, s, MakeElements(c, n)) == s
  {
    if n > 0 {
      ElementsExist(c, s, n - 1);
      ElementNext(c, s, n - 1);
    }
  }

  lemma {:induction false} ActsTogether(c: Config, s: State, a: seq<Act>, b: seq<Act>)
    ensures RunActs(c, s, a + b) == RunActs(c, RunActs(c, s, a), b)
    decreases |a|
  {
    if a == [] {
      assert a + b == b;
    } else {
      assert (a + b)[0] == a[0] && (a + b)[1..] == a[1..] + b;
      ActsTogether(c, StepAct(c, s, a[0]), a[1..], b);
    }
  }

  /** From an empty buffer with both indices at 0 the earlier history does not matter. */
  lemma EmptyStaysSafe(c: Config, s: State, events: seq<Event>)
    requires Proper(c) && Fresh(c, s.store) && s.prod.PIdle? && s.cons.CIdle? && s.deleted == s.inserted
    ensures RunFrom(c, s, events).deleted <= RunFrom(c, s, events).inserted
  {
    var n := |s.inserted|;
    var t, u := Forget(s, n), RunFrom(c, s, events);
    assert Slot(c, 0) == 0;
    assert Inv(c, t);
    RunKeepsInv(c, t, events);
    ForgetRun(c, s, n, events);
    assert u.deleted == s.deleted + u.deleted[n..] && u.inserted == s.inserted + u.inserted[n..];
    assert u.deleted[n..] <= u.inserted[n..];
  }

  /** With both indices at 0 an item inserted is the next one deleted, whatever is held. */
  lemma OneThrough(c: Config, s: State, item: int)
    requires Proper(c) && c.length >= 2 && Fresh(c, s.store) && s.prod.PIdle? && s.cons.CIdle?
    ensures var t := RunFrom(c, s, InsertEvents(item, true) + DeleteEvents(true));
      t.inserted == s.inserted + [item] && t.deleted == s.deleted + [item]
  {
    hide Step, StepProducer, StepConsumer, RunFrom, InsertCall, DeleteCall, InsertEvents, DeleteEvents;
    var t := InsertCall(c, s, item, true);
    InsertAtZero(c, s, item);
    DeleteAtZero(c, t);
    CallsAreRuns(c, s, item, true);
    CallsAreRuns(c, t, item, true);
    RunTogether(c, s, InsertEvents(item, true), DeleteEvents(true));
  }

  lemma InsertAtZero(c: Config, s: State, item: int)
    requires Proper(c) && c.length >= 2 && Fresh(c, s.store) && s.prod.PIdle?
    ensures InsertCall(c, s, item, true) ==
            s.(store := s.store[c.first := item][c.inID := 1], inserted := s.inserted + [item])
  {
    var t := StepProducer(c, StepProducer(c, Step(c, s, Insert(item))));
    assert t == s.(prod := PReadIn2(item));
  }

  lemma DeleteAtZero(c: Config, s: State)
    requires Proper(c) && c.length >= 2 && s.cons.CIdle? && c.first in s.store
    requires c.inID in s.store && c.outID in s.store && s.store[c.inID] == 1 && s.store[c.outID] == 0
    ensures var t := DeleteCall(c, s, true);
      t.inserted == s.inserted && t.deleted == s.deleted + [s.store[c.first]]
  {
    var t := StepConsumer(c, StepConsumer(c, Step(c, s, Delete)));
    assert t == s.(cons := CReadOut2, seen := |s.inserted|);
  }

  // ------------------------------------------------------------------ the class

  /** The simplified access to the variable server. */
  class Hub {
    var vars: Store

    constructor ()
      ensures vars == map[BAD_VAR := 0]
    {
      vars := map[BAD_VAR := 0];
    }

    /** A builtin identifier is refused, a variable that exists already is left alone. */
    method CreateHubVar(id: int)
      modifies this
      ensures vars == Create(old(vars), id)
    {
      if 0 <= id <= MAX_DB_BUILTIN_VAR {
        return;
      }
      if id !in vars {
        vars := vars[id := 0];
      }
    }

    method ReadHubVar(id: int) returns (value: int)
      ensures value == ReadVar(vars, id)
    {
      if id in vars {
        value := vars[id];
      } else {
        value := if BAD_VAR in vars then vars[BAD_VAR] else 0;
      }
    }

    method UpdateHubVar(id: int, value: int)
      modifies this
      ensures vars == UpdateVar(old(vars), id, value)
    {
      if id in vars {
        vars := vars[id := value];
      }
    }
  }

  /** PathCircBuff.  Every access to the hub is one step of the run, so a call made while the other
      process stands still is the sequence of steps that its ghost state records. */
  class PathCircBuff {
    const c: Config
    const hub: Hub

    constructor (inID: int, outID: int, hub: Hub, first: int, length: int, junk: int)
      modifies hub
      ensures this.hub == hub && c == Config(inID, outID, first, length, junk)
      ensures hub.vars == RunActs(c, Start(old(hub.vars)), Construction(c)).store
      ensures Apart(c) ==> Fresh(c, hub.vars)
      ensures forall id :: id in hub.vars <==> id in old(hub.vars) || Named(c, id)
      ensures forall id :: id in hub.vars ==>
                hub.vars[id] == if id in old(hub.vars) && id != inID && id != outID then old(hub.vars)[id] else 0
    {
      hide Step, RunActs, MakeElements, Construction;
      this.c, this.hub := Config(inID, outID, first, length, junk), hub;
      new;
      ghost var before := hub.vars;
      ghost var made := Start(before);
      NoElements(c, made, 0);
      NoElements(c, made, if length < 0 then length else 0);
      var i := 0;
      while i < length
        invariant 0 <= i && (i <= length || i == 0)
        invariant made == RunActs(c, Start(before), MakeElements(c, i)) && hub.vars == made.store
      {
        hub.CreateHubVar(first + i);
        ElementNext(c, Start(before), i);
        made := StepAct(c, made, MakeVar(first + i));
        i := i + 1;
      }
      ConstructionEnds(c, Start(before));
      hub.CreateHubVar(inID);
      hub.UpdateHubVar(inID, 0);
      hub.CreateHubVar(outID);
      hub.UpdateHubVar(outID, 0);
      ConstructionMakes(c, before);
    }

    method ReadElem(index: int) returns (value: int)
      ensures value == ElemAt(c, hub.vars, index)
    {
      value := c.junk;
      if !(index < 0 || index > c.length - 1) {
        value := hub.ReadHubVar(index + c.first);
      }
    }

    method UpdateElem(index: int, value: int)
      modifies hub
      ensures hub.vars == WithElem(c, old(hub.vars), index, value)
    {
      if !(index < 0 || index > c.length - 1) {
        hub.UpdateHubVar(index + c.first, value);
      }
    }

    method IsEmpty(ghost s: State) returns (empty: bool, ghost s': State)
      requires s.store == hub.vars && s.cons.CReadIn?
      ensures s' == StepConsumer(c, StepConsumer(c, s)) && empty == s'.cons.CIdle?
      ensures Proper(c) && Inv(c, s) ==> (empty <==> |s.deleted| == |s.inserted|)
    {
      if Proper(c) && Inv(c, s) {
        ConsumerStepInv(c, s);
        EmptyIff(c, StepConsumer(c, s));
      }
      var inval := hub.ReadHubVar(c.inID);
      s' := StepConsumer(c, s);
      var outval := hub.ReadHubVar(c.outID);
      s' := StepConsumer(c, s');
      empty := inval == outval;
    }

    method IsFull(ghost s: State) returns (full: bool, ghost s': State)
      requires s.store == hub.vars && s.prod.PReadIn?
      ensures s' == StepProducer(c, StepProducer(c, s)) && full == s'.prod.PIdle?
      ensures Proper(c) && Inv(c, s) ==> (full <==> |s.inserted| - |s.deleted| == c.length - 1)
    {
      if Proper(c) && Inv(c, s) {
        ProducerStepInv(c, s);
        RejectIff(c, StepProducer(c, s));
      }
      var inval := hub.ReadHubVar(c.inID);
      s' := StepProducer(c, s);
      var outval := hub.ReadHubVar(c.outID);
      s' := StepProducer(c, s');
      full := if outval != 0 then inval == outval - 1 else inval == c.length - 1;
    }

    method InsertItem(p: int, ghost s: State) returns (ok: bool, ghost s': State)
      requires s.store == hub.vars && s.prod.PIdle?
      modifies hub
      ensures hub.vars == s'.store && s'.prod.PIdle?
      ensures s' == InsertCall(c, s, p, ok)
      ensures s'.inserted == if ok then s.inserted + [p] else s.inserted
      ensures Proper(c) && Inv(c, s) ==> (ok <==> |s.inserted| - |s.deleted| < c.length - 1)
    {
      var full;
      full, s' := IsFull(Step(c, s, Insert(p)));
      ok := !full;
      if !full {
        var inval := hub.ReadHubVar(c.inID);
        s' := StepProducer(c, s');
        UpdateElem(inval, p);
        s' := StepProducer(c, s');
        inval := inval + 1;
        if inval == c.length {
          inval := 0;
        }
        hub.UpdateHubVar(c.inID, inval);
        s' := StepProducer(c, s');
      }
    }

    method DeleteItem(ghost s: State) returns (ok: bool, p: int, ghost s': State)
      requires s.store == hub.vars && s.cons.CIdle?
      modifies hub
      ensures hub.vars == s'.store && s'.cons.CIdle?
      ensures s' == DeleteCall(c, s, ok)
      ensures s'.deleted == if ok then s.deleted + [p] else s.deleted
      ensures Proper(c) && Inv(c, s) ==>
                (ok <==> |s.deleted| < |s.inserted|) && (ok ==> p == s.inserted[|s.deleted|])
    {
      var empty;
      empty, s' := IsEmpty(Step(c, s, Delete));
      ok, p := !empty, 0;
      if !empty {
        var outval := hub.ReadHubVar(c.outID);
        s' := StepConsumer(c, s');
        p := ReadElem(outval);
        s' := StepConsumer(c, s');
        outval := outval + 1;
        if outval == c.length {
          outval := 0;
        }
        hub.UpdateHubVar(c.outID, outval);
        s' := StepConsumer(c, s');
      }
    }
  }
}
