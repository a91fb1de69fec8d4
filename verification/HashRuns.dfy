/** Whole runs of operations on hash tables, traversals and copies included, against a finite map. */
module HashRuns {
  import opened Wrappers
  import opened HashSpec
  import opened HashTable

  datatype Op =
    | Store(key: Ptr, value: Ptr)
    | Add(key: Ptr, value: Ptr)
    | Fetch(key: Ptr)
    | Remove(key: Ptr)
    | Retire(key: Ptr)
    | Walk(f: Callback)
    | Copy
    | Cleanup

  /** What a run is about: the map, and how many tombstones wait for the next cleanup. */
  datatype MapState = MapState(contents: map<Key, Entry>, tombs: nat)

  /** What the callers of the operations owe: the sentinel is neither a key nor a record, st_add_direct
      is for absent keys, and a callback does not delete tombstones. */
  ghost predicate Legal(kind: HashType, never: Ptr, s: MapState, op: Op) {
    match op
    case Store(key, value) => KeyOf(kind, key) != KeyOf(kind, never) && value != never
    case Add(key, value) => key != never && value != never && KeyOf(kind, key) !in s.contents
    case Walk(f) => s.tombs == 0 || f(never, never) != Delete
    case Copy => true
    case Cleanup => true
    case _ => KeyOf(kind, op.key) != KeyOf(kind, never)
  }

  /** One operation; a walk is told which keys it visited. */
  ghost function Apply(kind: HashType, s: MapState, op: Op, visited: set<Key>): MapState {
    match op
    case Store(key, value) => s.(contents := Stored(kind, s.contents, key, value))
    case Add(key, value) => s.(contents := Stored(kind, s.contents, key, value))
    case Remove(key) => s.(contents := s.contents - {KeyOf(kind, key)})
    case Retire(key) =>
      MapState(s.contents - {KeyOf(kind, key)}, s.tombs + if KeyOf(kind, key) in s.contents then 1 else 0)
    case Walk(f) => s.(contents := Walked(s.contents, f, visited))
    case Cleanup => s.(tombs := 0)
    case Fetch(_) => s
    case Copy => s
  }

  ghost function Replay(kind: HashType, ops: seq<Op>, visits: seq<set<Key>>, start: MapState): MapState
    requires |visits| == |ops|
  {
    if ops == [] then start
    else
      var n := |ops| - 1;
      Apply(kind, Replay(kind, ops[..n], visits[..n], start), ops[n], visits[n])
  }

  /** Whether these visits can be those of the walks of a run: each complete in its state. */
  ghost predicate Possible(kind: HashType, never: Ptr, ops: seq<Op>, visits: seq<set<Key>>, start: MapState) {
    |visits| == |ops| &&
    (ops == [] ||
     var n := |ops| - 1;
     var s := Replay(kind, ops[..n], visits[..n], start);
     && Possible(kind, never, ops[..n], visits[..n], start)
     && (ops[n].Walk? ==> Complete(s.contents, s.tombs, ops[n].f, never, visits[n])))
  }

  /** Every operation of the run is legal in its state, in whatever order walks meet the entries. */
  ghost predicate AlwaysLegal(kind: HashType, never: Ptr, ops: seq<Op>, start: MapState) {
    forall k, visits :: 0 <= k < |ops| && Possible(kind, never, ops[..k], visits, start) ==>
                          Legal(kind, never, Replay(kind, ops[..k], visits, start), ops[k])
  }

  /** The record that an operation reports when the table holds this map. */
  ghost function Answer(kind: HashType, contents: map<Key, Entry>, op: Op): Option<Ptr> {
    if (op.Fetch? || op.Remove? || op.Retire?) && KeyOf(kind, op.key) in contents
    then Some(contents[KeyOf(kind, op.key)].record) else None
  }

  /** One answer an operation, each from the map as the operations before it left it. */
  ghost function Answers(kind: HashType, ops: seq<Op>, visits: seq<set<Key>>, start: MapState): seq<Option<Ptr>>
    requires |visits| == |ops|
  {
    if ops == [] then []
    else
      var n := |ops| - 1;
      Answers(kind, ops[..n], visits[..n], start) +
      [Answer(kind, Replay(kind, ops[..n], visits[..n], start).contents, ops[n])]
  }

  /** The state and the answers are those of a run with these visits. */
  ghost predicate Follows(kind: HashType, never: Ptr, ops: seq<Op>, visits: seq<set<Key>>, start: MapState,
                          s: MapState, answers: seq<Option<Ptr>>) {
    && Possible(kind, never, ops, visits, start)
    && s == Replay(kind, ops, visits, start)
    && answers == Answers(kind, ops, visits, start)
  }

  lemma OneMore(kind: HashType, never: Ptr, ops: seq<Op>, i: nat, visits: seq<set<Key>>, start: MapState, s: MapState,
                answers: seq<Option<Ptr>>, visited: set<Key>)
    requires i < |ops| && Follows(kind, never, ops[..i], visits, start, s, answers)
    requires ops[i].Walk? ==> Complete(s.contents, s.tombs, ops[i].f, never, visited)
    ensures Follows(kind, never, ops[..i + 1], visits + [visited], start, Apply(kind, s, ops[i], visited),
              answers + [Answer(kind, s.contents, ops[i])])
  {
    hide Complete, Apply, Answer;
    var more := visits + [visited];
    assert ops[..i + 1][..i] == ops[..i] && more[..i] == visits;
  }

  lemma NothingYet(kind: HashType, never: Ptr, ops: seq<Op>, start: MapState)
    ensures Follows(kind, never, ops[..0], [], start, start, [])
  {
    assert ops[..0] == [];
  }

  lemma StepIsLegal(kind: HashType, never: Ptr, ops: seq<Op>, i: nat, visits: seq<set<Key>>, start: MapState,
                    s: MapState, answers: seq<Option<Ptr>>)
    requires i < |ops| && Follows(kind, never, ops[..i], visits, start, s, answers)
    requires AlwaysLegal(kind, never, ops, start)
    ensures Legal(kind, never, s, ops[i])
  {
  }

  ghost function StateOf(t: Table): MapState
    requires t.Valid()
    reads t, t.bins
  {
    t.TombsAreTombstones();
    MapState(t.contents, t.Tombs())
  }

  /** Any legal run of operations, a copy carrying on in place of its original: the table in use
      follows the map through rehashes, tombstones, cleanups, traversals and copies. */
  method Perform(t: Table, ops: seq<Op>, sentinel: Ptr)
      returns (u: Table, answers: seq<Option<Ptr>>, ghost visits: seq<set<Key>>)
    requires sentinel == t.never && t.Valid() && t.numEntries + |ops| <= INT_MAX
    requires AlwaysLegal(t.kind, t.never, ops, StateOf(t))
    modifies t, t.bins
    ensures u.Valid() && u.kind == t.kind && u.never == t.never
    ensures Follows(t.kind, t.never, ops, visits, old(StateOf(t)), StateOf(u), answers)
  {
    hide *;
    ghost var start := StateOf(t);
    NothingYet(t.kind, t.never, ops, start);
    u, answers, visits := t, [], [];
    var i := 0;
    while i < |ops|
      invariant 0 <= i <= |ops|
      invariant u.Valid() && u.kind == t.kind && u.never == t.never
      invariant if u == t then u.bins == old(t.bins) || fresh(u.bins) else fresh(u) && fresh(u.bins)
      invariant u.numEntries <= old(t.numEntries) + i
      invariant Follows(t.kind, t.never, ops[..i], visits, start, StateOf(u), answers)
    {
      StepIsLegal(t.kind, t.never, ops, i, visits, start, StateOf(u), answers);
      ghost var s := StateOf(u);
      var answer;
      ghost var visited;
      u, answer, visited := PerformOne(u, ops[i], sentinel);
      OneMore(t.kind, t.never, ops, i, visits, start, s, answers, visited);
      answers := answers + [answer];
      visits := visits + [visited];
      i := i + 1;
    }
    assert ops[..i] == ops;
  }

  method PerformOne(t: Table, op: Op, sentinel: Ptr)
      returns (u: Table, answer: Option<Ptr>, ghost visited: set<Key>)
    requires sentinel == t.never && t.Valid() && t.numEntries < INT_MAX
    requires Legal(t.kind, t.never, StateOf(t), op)
    modifies t, t.bins
    ensures u.Valid() && u.kind == t.kind && u.never == t.never
    ensures if op.Copy? then fresh(u) && fresh(u.bins) && t.Valid() && StateOf(t) == old(StateOf(t))
            else u == t && (t.bins == old(t.bins) || fresh(t.bins))
    ensures u.numEntries <= old(t.numEntries) + 1
    ensures StateOf(u) == Apply(t.kind, old(StateOf(t)), op, visited)
    ensures op.Walk? ==> Complete(old(StateOf(t)).contents, old(StateOf(t)).tombs, op.f, t.never, visited)
    ensures answer == Answer(t.kind, old(StateOf(t)).contents, op)
  {
    hide Agrees, Flat, Placed, Prime, HashOf, Complete, Walked, VisitedKeys, Sweep;
    u, answer, visited := t, None, {};
    match op {
      case Store(key, value) =>
        var found := t.Insert(key, value);
      case Add(key, value) =>
        t.AddDirect(key, value);
      case Fetch(key) =>
        var found, record := t.Lookup(key);
        answer := if found then Some(record) else None;
      case Remove(key) =>
        var found, stored, value := t.Delete(key);
        answer := if found then Some(value.record) else None;
      case Retire(key) =>
        var found, stored, value := t.DeleteSafe(key, sentinel);
        answer := if found then Some(value.record) else None;
      case Walk(f) =>
        visited := VisitedKeys(Flat(t.bins[..]), f, t.kind, t.never);
        NoTombsSpared(t, f);
        t.Foreach(f);
      case Copy =>
        u := CopyTable(t);
      case Cleanup =>
        t.CleanupSafe(sentinel);
    }
  }

  method CopyTable(t: Table) returns (u: Table)
    requires t.Valid()
    ensures u.Valid() && fresh(u) && fresh(u.bins) && u.kind == t.kind && u.never == t.never
    ensures u.contents == t.contents && u.Tombs() == t.Tombs() && u.numEntries == t.numEntries
  {
    u := new Table.CopyOf(t);
  }

  /** It does go wrong: after one key is stored and retired, a walk that deletes everything takes the
      tombstone off the count of a table that is empty already. */
  method WalkBreaksCount(kind: HashType, key: Ptr, value: Ptr, never: Ptr) returns (t: Table)
    requires KeyOf(kind, key) != KeyOf(kind, never) && value != never
    ensures t.Core() && t.contents == map[] && t.numEntries == -1 && !t.Valid()
  {
    hide Agrees, Flat, Placed, Prime, HashOf, Complete, VisitedKeys, Sweep;
    t := new Table(kind, 0, never);
    var found := t.Insert(key, value);
    var gone, stored, record := t.DeleteSafe(key, never);
    t.TombsAreTombstones();
    assert t.contents == map[] && t.numEntries == 0 && |Flat(t.bins[..])| == 1;
    ghost var order := Flat(t.bins[..]);
    var all := (k: Ptr, r: Ptr) => Verdict.Delete;
    SweepAll(order, all);
    t.Foreach(all);
  }

  lemma {:induction false} SweepAll(order: seq<Entry>, f: Callback)
    requires forall k, r :: f(k, r) == Verdict.Delete
    ensures Sweep(order, f) == []
  {
    if order != [] {
      SweepAll(order[1..], f);
    }
  }

  lemma NoTombsSpared(t: Table, f: Callback)
    requires t.Core() && (t.Tombs() == 0 || f(t.never, t.never) != Delete)
    ensures SparesTombs(Flat(t.bins[..]), f, t.never)
  {
    var order := Flat(t.bins[..]);
    t.TombsAreTombstones();
    assert forall e :: e in order[..StopAt(order, f)] ==> e in order;
  }

  /** Runs of st_insert, st_lookup, st_delete, st_foreach and st_copy on a table without tombstones
      only have to keep clear of the sentinel. */
  ghost predicate Plain(kind: HashType, never: Ptr, op: Op) {
    && !op.Retire? && !op.Add?
    && (op.Store? ==> op.value != never)
    && (op.Store? || op.Fetch? || op.Remove? ==> KeyOf(kind, op.key) != KeyOf(kind, never))
  }

  lemma PlainRunsAreLegal(kind: HashType, never: Ptr, ops: seq<Op>, start: MapState)
    requires start.tombs == 0 && forall i :: 0 <= i < |ops| ==> Plain(kind, never, ops[i])
    ensures AlwaysLegal(kind, never, ops, start)
  {
    forall k, visits | 0 <= k < |ops| && Possible(kind, never, ops[..k], visits, start)
      ensures Legal(kind, never, Replay(kind, ops[..k], visits, start), ops[k])
    {
      NoTombsArise(kind, never, ops[..k], visits, start);
      assert Plain(kind, never, ops[k]);
    }
  }

  lemma {:induction false} NoTombsArise(kind: HashType, never: Ptr, ops: seq<Op>, visits: seq<set<Key>>,
                                        start: MapState)
    requires start.tombs == 0 && |visits| == |ops|
    requires forall i :: 0 <= i < |ops| ==> Plain(kind, never, ops[i])
    ensures Replay(kind, ops, visits, start).tombs == 0
  {
    if ops != [] {
      var n := |ops| - 1;
      assert Plain(kind, never, ops[n]);
      NoTombsArise(kind, never, ops[..n], visits[..n], start);
    }
  }

  /** The last store of a key that no removal followed: the first pointer used for the key since it
      was last absent, and the last record. A walk removes what it visited and marked. */
  ghost function LastWrite(kind: HashType, ops: seq<Op>, visits: seq<set<Key>>, c: Key): Option<(Ptr, Ptr)>
    requires |visits| == |ops|
  {
    if ops == [] then None
    else
      var n := |ops| - 1;
      var op, before := ops[n], LastWrite(kind, ops[..n], visits[..n], c);
      if op.Walk? then
        if before.Some? && c in visits[n] && op.f(before.value.0, before.value.1) == Verdict.Delete then None
        else before
      else if op.Cleanup? || op.Copy? || op.Fetch? || KeyOf(kind, op.key) != c then before
      else if op.Store? || op.Add? then Some((if before.Some? then before.value.0 else op.key, op.value))
      else None
  }

  /** What a run leaves in an empty table, read off the history of each key alone. */
  lemma {:induction false} ReplayIsLastWrite(kind: HashType, ops: seq<Op>, visits: seq<set<Key>>, c: Key)
    requires |visits| == |ops|
    ensures var m := Replay(kind, ops, visits, MapState(map[], 0)).contents;
      && (c in m <==> LastWrite(kind, ops, visits, c).Some?)
      && (c in m ==> LastWrite(kind, ops, visits, c) == Some((m[c].key, m[c].record)))
  {
    if ops != [] {
      var n := |ops| - 1;
      ReplayIsLastWrite(kind, ops[..n], visits[..n], c);
    }
  }

  lemma {:induction false} AnswerAt(kind: HashType, ops: seq<Op>, visits: seq<set<Key>>, start: MapState, i: nat)
    requires |visits| == |ops| && i < |ops|
    ensures |Answers(kind, ops, visits, start)| == |ops|
    ensures Answers(kind, ops, visits, start)[i] ==
            Answer(kind, Replay(kind, ops[..i], visits[..i], start).contents, ops[i])
  {
    hide Answer, Replay;
    var n := |ops| - 1;
    if i < n {
      AnswerAt(kind, ops[..n], visits[..n], start, i);
      assert ops[..n][..i] == ops[..i] && visits[..n][..i] == visits[..i];
    } else if n > 0 {
      AnswerAt(kind, ops[..n], visits[..n], start, 0);
    }
  }

  /** What each operation of a run on an empty table reports: lookups and removals the last record
      stored under the key and not removed since, if any, the other operations nothing. */
  lemma AnswersAreLastWrites(kind: HashType, ops: seq<Op>, visits: seq<set<Key>>, i: nat)
    requires |visits| == |ops| && i < |ops|
    ensures var answers := Answers(kind, ops, visits, MapState(map[], 0));
      && |answers| == |ops|
      && answers[i] ==
           if ops[i].Fetch? || ops[i].Remove? || ops[i].Retire? then
             match LastWrite(kind, ops[..i], visits[..i], KeyOf(kind, ops[i].key))
             case Some(write) => Some(write.1)
             case None => None
           else None
  {
    hide Replay, LastWrite, Answers;
    AnswerAt(kind, ops, visits, MapState(map[], 0), i);
    if ops[i].Fetch? || ops[i].Remove? || ops[i].Retire? {
      ReplayIsLastWrite(kind, ops[..i], visits[..i], KeyOf(kind, ops[i].key));
    }
  }
}
