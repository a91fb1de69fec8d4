/** The variable server of path/db/db_slv.c on its own data structures: a doubly linked list of
    entries, each owning a doubly linked list of trigger clients.  Every command handler is
    proved to be the matching step of the machine in ServerSpec. */
module Server {
  import opened DList
  import opened ServerSpec

  /** The sending side of the transport; `attempts` records every trigger that was tried. */
  class Network {
    var attempts: seq<int>

    constructor ()
      ensures attempts == []
    {
      attempts := [];
    }

    /** comm_async_trig; whether it succeeds is up to the environment. */
    method AsyncTrig(c: int, down: set<int>) returns (ok: bool)
      modifies this
      ensures attempts == old(attempts) + [c] && ok == (c !in down)
    {
      attempts := attempts + [c];
      ok := c !in down;
    }
  }

  /** The cursor p stands at index k, or past the end when k is the length. */
  ghost predicate At<T>(list: List<T>, p: Node?<T>, k: nat)
    reads list
  {
    k <= |list.nodes| && p == if k == |list.nodes| then null else list.nodes[k]
  }

  /** Deletes the cursor's node as slv_update does after a failed trigger: dl_rm_node rewinds the
      cursor, and the walk resumes behind it, or at the front when it was rewound to null. */
  method DropAndResume(clients: List<int>, p: Node<int>, ghost k: nat) returns (q: Node?<int>)
    requires clients.Valid() && At(clients, p, k)
    modifies clients, clients.pool
    ensures clients.pool == old(clients.pool)
    ensures clients.Valid() && clients.nodes == RemoveAt(old(clients.nodes), k)
    ensures clients.Items() == RemoveAt(old(clients.Items()), k)
    ensures At(clients, q, k)
  {
    var item, rewound := clients.RmNode(p, k);
    RemoveAtIndices(old(clients.nodes), k);
    ItemsRemoveAt(old(clients.nodes), k);
    if rewound == null {
      q := clients.first;
    } else {
      assert rewound == clients.nodes[k - 1];
      q := rewound.next;
    }
  }

  /** The body of the notification loop: the clients before the cursor are kept, those behind
      it are untried, and trying the next one either keeps it or removes it. */
  method TryClient(clients: List<int>, net: Network, p: Node<int>, down: set<int>,
      ghost kept: seq<int>, ghost untried: seq<int>)
      returns (q: Node?<int>)
    requires clients.Valid() && At(clients, p, |kept|)
    requires clients.Items() == kept + untried && untried != []
    modifies clients, clients.pool, net
    ensures clients.Valid() && clients.pool == old(clients.pool)
    ensures net.attempts == old(net.attempts) + [untried[0]]
    ensures var kept' := kept + (if untried[0] in down then [] else [untried[0]]);
      At(clients, q, |kept'|) && clients.Items() == kept' + untried[1..]
  {
    var ok := net.AsyncTrig(p.item, down);
    assert clients.Items()[|kept|] == untried[0];
    if !ok {
      q := DropAndResume(clients, p, |kept|);
      assert RemoveAt(kept + untried, |kept|) == kept + untried[1..];
    } else {
      q := p.next;
    }
  }

  /** Sequence facts of one turn of the walk, and of its end. */
  lemma WalkTurn(before: seq<int>, tried: seq<int>, untried: seq<int>, down: set<int>)
    requires untried != []
    ensures var next := tried + [untried[0]];
      && next + untried[1..] == tried + untried
      && (before + tried) + [untried[0]] == before + next
      && Reachable(next, down) == Reachable(tried, down) + (if untried[0] in down then [] else [untried[0]])
  {
    assert (tried + [untried[0]])[..|tried|] == tried;
  }

  lemma WalkEnd(tried: seq<int>, untried: seq<int>, kept: seq<int>)
    requires |kept + untried| == |kept|
    ensures tried + untried == tried && kept + untried == kept
  {
  }

  /** The notification loop of slv_update. */
  method Notify(clients: List<int>, net: Network, down: set<int>)
    requires clients.Valid()
    modifies clients, clients.pool, net
    ensures clients.Valid() && clients.pool == old(clients.pool)
    ensures clients.Items() == Reachable(old(clients.Items()), down)
    ensures net.attempts == old(net.attempts) + old(clients.Items())
  {
    var p := clients.first;
    ghost var before, all := net.attempts, clients.Items();
    ghost var tried, untried: seq<int>, kept: seq<int> := [], all, [];
    while p != null
      invariant clients.Valid() && clients.pool == old(clients.pool)
      invariant tried + untried == all && kept == Reachable(tried, down)
      invariant clients.Items() == kept + untried
      invariant At(clients, p, |kept|)
      invariant net.attempts == before + tried
      decreases |untried|
    {
      WalkTurn(before, tried, untried, down);
      p := TryClient(clients, net, p, down, kept, untried);
      tried, untried := tried + [untried[0]], untried[1..];
      kept := Reachable(tried, down);
    }
    WalkEnd(tried, untried, kept);
  }

  lemma FirstIndexIs(s: seq<int>, c: int, k: nat)
    requires k < |s| && s[k] == c && forall i :: 0 <= i < k ==> s[i] != c
    ensures FirstIndex(s, c) == k && c in s
  {
  }

  /** db_entry_typ: one variable, its value area and its list of trigger clients. */
  class Entry {
    const key: Key
    const size: nat
    var time: int
    var data: Bytes
    const clients: List<int>

    ghost function Repr(): set<object>
      reads clients
    {
      {this, clients} + clients.pool
    }

    ghost predicate Valid()
      reads Repr()
    {
      clients.Valid()
    }

    ghost function Abs(): Var
      reads this, clients
    {
      Var(key, size, time, data, clients.Items())
    }

    constructor (key: Key, size: nat, now: int)
      ensures Valid() && Repr() == {this, clients} && fresh(clients)
      ensures Abs() == FreshVar(key, size, now)
    {
      this.key, this.size, this.time, this.data := key, size, now, Zeros(MAX_DATA_SIZE);
      this.clients := new List<int>();
    }

    /** slv_update, once the variable is found. */
    method Update(from: Bytes, now: int, down: set<int>, net: Network)
      requires Valid() && size <= MAX_DATA_SIZE
      modifies Repr(), net
      ensures Valid() && Repr() == old(Repr())
      ensures Abs() == UpdateVar(old(Abs()), from, now, down)
      ensures net.attempts == old(net.attempts) + old(clients.Items())
    {
      data := Overwrite(size, from, data);
      time := now;
      Notify(clients, net, down);
    }

    /** slv_trig_set, once the variable is found: a client already in the list is refused. */
    method TrigSet(c: int) returns (ok: bool, ghost added: set<object>)
      requires Valid()
      modifies Repr()
      ensures Valid() && fresh(added) && Repr() == old(Repr()) + added
      ensures ok == (c !in old(clients.Items()))
      ensures Abs() == if ok then old(Abs()).(clients := old(clients.Items()) + [c]) else old(Abs())
    {
      var p, k := clients.First(x => x == c);
      if p != null {
        return false, {};
      }
      clients.Append(c);
      return true, clients.pool - old(clients.pool);
    }

    /** slv_trig_unset, once the variable is found.  comm_done answers FALSE on every transport
        the server can run on, so the status is FALSE even when a trigger was removed. */
    method TrigUnset(c: int) returns (ok: bool)
      requires Valid()
      modifies Repr()
      ensures Valid() && Repr() == old(Repr())
      ensures !ok
      ensures Abs() == if c in old(clients.Items()) then UnsetVar(old(Abs()), c) else old(Abs())
    {
      hide List.Valid, ItemsOf, Linked, FirstIndex;
      var p, k := clients.First(x => x == c);
      if p == null {
        return false;
      }
      FirstIndexIs(clients.Items(), c, k);
      ItemsRemoveAt(clients.nodes, k);
      var gone, q := clients.RmNode(p, k);
      RemoveAtIndices(old(clients.nodes), k);
      return false;
    }
  }

  /** The entry is among the owned objects and stands for this variable. */
  ghost predicate Holds(own: set<object>, e: Entry, x: Var)
    reads e.Repr()
  {
    e.Repr() <= own && e.Valid() && e.Abs() == x
  }

  ghost predicate HoldsAll(own: set<object>, entries: seq<Entry>, state: Db)
    reads own
  {
    && |entries| == |state|
    && forall i :: 0 <= i < |entries| ==>
         entries[i].clients in own && entries[i].Repr() <= own && Holds(own, entries[i], state[i])
  }

  /** Different entries own different trigger lists. */
  ghost predicate Apart(entries: seq<Entry>) {
    forall i, j :: 0 <= i < j < |entries| ==>
      entries[i] != entries[j] && entries[i].clients != entries[j].clients
  }

  lemma HoldsCons(own: set<object>, own': set<object>, e: Entry, x: Var, entries: seq<Entry>, state: Db)
    requires HoldsAll(own, entries, state) && own <= own' && Holds(own', e, x)
    ensures HoldsAll(own', [e] + entries, [x] + state)
  {
  }

  lemma ApartCons(own: set<object>, e: Entry, entries: seq<Entry>, state: Db)
    requires HoldsAll(own, entries, state) && Apart(entries) && e !in own && e.clients !in own
    ensures Apart([e] + entries)
  {
    assert forall i :: 0 <= i < |entries| ==> entries[i] in entries[i].Repr();
  }

  lemma HoldsOne(own: set<object>, e: Entry, x: Var)
    requires e.Repr() <= own && e.Valid() && e.Abs() == x
    ensures HoldsAll(own, [e], [x]) && Apart([e])
  {
  }

  lemma HoldsRemoved(own: set<object>, entries: seq<Entry>, state: Db, k: nat)
    requires HoldsAll(own, entries, state) && Apart(entries) && k < |entries|
    ensures HoldsAll(own, RemoveAt(entries, k), RemoveAt(state, k)) && Apart(RemoveAt(entries, k))
  {
    RemoveAtIndices(entries, k);
    RemoveAtIndices(state, k);
  }

  /** An entry shares no object with another entry. */
  lemma OthersApart(own: set<object>, entries: seq<Entry>, state: Db, k: nat)
    requires HoldsAll(own, entries, state) && Apart(entries) && k < |entries|
    ensures forall i :: 0 <= i < |entries| && i != k ==>
              entries[i].Repr() !! entries[k].Repr() && entries[i].Repr() <= own && Holds(own, entries[i], state[i])
    ensures |entries| == |state| && entries[k].Valid() && entries[k].Abs() == state[k] && entries[k].Repr() <= own
  {
    assert Holds(own, entries[k], state[k]);
    forall i | 0 <= i < |entries| && i != k ensures entries[i].Repr() !! entries[k].Repr() {
      assert Holds(own, entries[i], state[i]) && Holds(own, entries[k], state[k]);
    }
  }

  /** Replacing what entry k stands for is one update of the state. */
  lemma HoldsReplaced(own: set<object>, own': set<object>, entries: seq<Entry>, state: Db, k: nat, x: Var)
    requires |entries| == |state| && k < |entries| && own <= own'
    requires forall i :: 0 <= i < |entries| && i != k ==> Holds(own, entries[i], state[i])
    requires entries[k].Repr() <= own' && entries[k].Valid() && entries[k].Abs() == x
    ensures HoldsAll(own', entries, state[k := x])
  {
  }

  /** What the variable list stands for, and the objects its entries are made of. */
  datatype View = View(state: Db, own: set<object>)

  /** Reading the keys of the entries is reading those of the variables. */
  lemma FindIsFirst(own: set<object>, entries: seq<Entry>, state: Db, key: Key, k: nat)
    requires HoldsAll(own, entries, state) && k <= |entries|
    requires forall i :: 0 <= i < k ==> entries[i].key != key
    requires k < |entries| ==> entries[k].key == key
    ensures Find(state, key) == k
  {
    forall i | 0 <= i < |entries| ensures entries[i].key == state[i].key {
      assert Holds(own, entries[i], state[i]);
    }
  }

  lemma ItemsCons(n: Node<Entry>, nodes: seq<Node<Entry>>)
    ensures ItemsOf([n] + nodes) == [n.item] + ItemsOf(nodes)
  {
    hide ItemsOf;
  }

  /** The variable list together with the fixed facts of the server process. */
  class Slave {
    const config: Config
    const db: List<Entry>
    ghost var view: View

    /** The head and the nodes of the variable list, and all that the entries are made of. */
    ghost function Repr(): set<object>
      reads this, db
    {
      {db} + db.pool + view.own
    }

    ghost predicate Valid()
      reads this, Repr()
    {
      && db.Valid() && this !in view.own && db !in view.own && db.pool !! view.own
      && Apart(db.Items()) && HoldsAll(view.own, db.Items(), view.state)
    }

    /** slv_db_create: the list holds the bad variable from the start. */
    constructor (config: Config, now: int)
      ensures Valid() && fresh(Repr())
      ensures this.config == config && view.state == Init(now)
    {
      hide HoldsAll, Apart, Holds, List.Valid, ItemsOf, Linked, Zeros;
      var bad := new Entry(BAD, MAX_DATA_SIZE, now);
      var list := new List<Entry>();
      list.Insert(bad);
      HoldsOne(bad.Repr(), bad, bad.Abs());
      this.config, this.db := config, list;
      this.view := View(Init(now), bad.Repr());
      new;
      assert db.Items() == [bad];
    }

    /** db_entry_find: the node of the first variable with this key, or null. */
    method FindEntry(key: Key) returns (p: Node?<Entry>, ghost k: nat)
      requires Valid()
      ensures k == Find(view.state, key) && |view.state| == |db.nodes|
      ensures At(db, p, k)
    {
      p, k := db.First((e: Entry) => e.key == key);
      FindIsFirst(view.own, db.Items(), view.state, key, k);
    }

    /** DB_CREATE_CMD: db_entry_create */
    method Create(key: Key, size: nat, now: int) returns (ok: bool)
      requires Valid()
      modifies this, db, db.pool
      ensures Valid() && fresh(Repr() - old(Repr()))
      ensures Outcome(view.state, Status(ok), []) ==
              Step(config, old(view.state), ServerSpec.Create(key, size, now))
    {
      hide HoldsAll, Apart, Holds, List.Valid, ItemsOf, Linked, Zeros;
      if config.entrySize < size {
        return false;
      }
      var p, k := FindEntry(key);
      if p != null {
        return false;
      }
      var e := new Entry(key, size, now);
      Link(e);
      return true;
    }

    /** dl_insert of a new entry: one new variable at the front of the state. */
    method Link(e: Entry)
      requires Valid() && e.Valid() && e.Repr() !! Repr() + {this}
      modifies this, db, db.pool
      ensures Valid() && view == View([e.Abs()] + old(view.state), old(view.own) + e.Repr())
      ensures fresh(db.pool - old(db.pool))
    {
      hide HoldsAll, Apart, Holds, List.Valid, ItemsOf, Linked;
      ghost var entries := db.Items();
      ApartCons(view.own, e, entries, view.state);
      HoldsCons(view.own, view.own + e.Repr(), e, e.Abs(), entries, view.state);
      db.Insert(e);
      ItemsCons(db.nodes[0], old(db.nodes));
      view := View([e.Abs()] + view.state, view.own + e.Repr());
    }

    /** DB_READ_CMD; Fault stands for db_entry_bad on an empty list. */
    method Read(key: Key) returns (reply: Reply)
      requires Valid()
      ensures Outcome(view.state, reply, []) == Step(config, view.state, ServerSpec.Read(key))
    {
      var p, k := FindEntry(key);
      if p == null {
        p, k := db.last, |db.nodes| - 1;
      }
      if p == null {
        return Fault;
      }
      assert Holds(view.own, db.Items()[k], view.state[k]);
      return Value(p.item.key, p.item.time, p.item.data);
    }

    /** DB_UPDATE_CMD: slv_update; a trigger is sent to the clients of the variable found. */
    method Update(key: Key, data: Bytes, now: int, down: set<int>, net: Network) returns (ok: bool)
      requires Valid() && net !in Repr() && Copyable(view.state, ServerSpec.Update(key, data, now, down))
      modifies this, view.own, net
      ensures Valid() && view.own == old(view.own)
      ensures var out := Step(config, old(view.state), ServerSpec.Update(key, data, now, down));
        view.state == out.db && Status(ok) == out.reply &&
        net.attempts == old(net.attempts) + out.attempts
    {
      hide HoldsAll, Apart, Holds, UpdateVar, List.Valid, ItemsOf, Linked;
      var p, k := FindEntry(key);
      if p == null {
        return false;
      }
      UpdateStep(config, view.state, key, data, now, down);
      UpdateAt(p, k, data, now, down, net);
      return true;
    }

    method UpdateAt(p: Node<Entry>, ghost k: nat, data: Bytes, now: int, down: set<int>, net: Network)
      requires Valid() && net !in Repr() && k < |db.nodes| && p == db.nodes[k]
      requires k < |view.state| && view.state[k].size <= MAX_DATA_SIZE
      modifies this, view.own, net
      ensures Valid() && view.own == old(view.own)
      ensures view.state == old(view.state)[k := UpdateVar(old(view.state)[k], data, now, down)]
      ensures net.attempts == old(net.attempts) + old(view.state)[k].clients
    {
      hide HoldsAll, Apart, Holds, UpdateVar, List.Valid, ItemsOf, Linked;
      ghost var entries := db.Items();
      OthersApart(view.own, entries, view.state, k);
      p.item.Update(data, now, down, net);
      HoldsReplaced(view.own, view.own, entries, view.state, k, p.item.Abs());
      view := view.(state := view.state[k := p.item.Abs()]);
    }

    /** DB_DESTROY_CMD: db_entry_rm */
    method Destroy(key: Key) returns (ok: bool)
      requires Valid()
      modifies this, db, db.pool
      ensures Valid() && Repr() == old(Repr())
      ensures Outcome(view.state, Status(ok), []) == Step(config, old(view.state), ServerSpec.Destroy(key))
    {
      hide HoldsAll, Apart, Holds, List.Valid, ItemsOf, Linked;
      var p, k := FindEntry(key);
      if p == null {
        return false;
      }
      Unlink(p, k);
      return true;
    }

    /** dl_rm_node of an entry: its variable leaves the state. */
    method Unlink(p: Node<Entry>, ghost k: nat)
      requires Valid() && k < |db.nodes| && p == db.nodes[k] && k < |view.state|
      modifies this, db, db.pool
      ensures Valid() && Repr() == old(Repr())
      ensures view.state == RemoveAt(old(view.state), k)
    {
      hide HoldsAll, Apart, Holds, List.Valid, ItemsOf, Linked;
      HoldsRemoved(view.own, db.Items(), view.state, k);
      ItemsRemoveAt(db.nodes, k);
      var gone, before := db.RmNode(p, k);
      view := view.(state := RemoveAt(view.state, k));
    }

    /** DB_TRIG_SET_CMD: slv_trig_set */
    method TrigSet(key: Key, sender: int, proxy: int) returns (ok: bool, ghost added: set<object>)
      requires Valid()
      modifies this, view.own
      ensures Valid() && fresh(added) && view.own == old(view.own) + added
      ensures Outcome(view.state, Status(ok), []) ==
              Step(config, old(view.state), ServerSpec.TrigSet(key, sender, proxy))
    {
      hide HoldsAll, Apart, Holds, List.Valid, ItemsOf, Linked;
      var p, k := FindEntry(key);
      if p == null {
        return false, {};
      }
      var c := ClientOf(config, sender, proxy);
      ghost var before := view.state;
      ok, added := SetAt(p, k, c);
      SetStep(config, before, key, sender, proxy, view.state[k]);
    }

    method SetAt(p: Node<Entry>, ghost k: nat, c: int) returns (ok: bool, ghost added: set<object>)
      requires Valid() && k < |db.nodes| && p == db.nodes[k] && k < |view.state|
      modifies this, view.own
      ensures Valid() && fresh(added) && view.own == old(view.own) + added
      ensures var x := old(view.state)[k];
        && ok == (c !in x.clients)
        && view.state == old(view.state)[k := if ok then x.(clients := x.clients + [c]) else x]
    {
      hide HoldsAll, Apart, Holds, List.Valid, ItemsOf, Linked;
      ghost var entries := db.Items();
      OthersApart(view.own, entries, view.state, k);
      ok, added := p.item.TrigSet(c);
      assert this !in view.own + added;
      HoldsReplaced(view.own, view.own + added, entries, view.state, k, p.item.Abs());
      view := View(view.state[k := p.item.Abs()], view.own + added);
    }

    /** DB_TRIG_UNSET_CMD: slv_trig_unset */
    method TrigUnset(key: Key, sender: int, proxy: int) returns (ok: bool)
      requires Valid()
      modifies this, view.own
      ensures Valid() && view.own == old(view.own)
      ensures Outcome(view.state, Status(ok), []) ==
              Step(config, old(view.state), ServerSpec.TrigUnset(key, sender, proxy))
    {
      hide HoldsAll, Apart, Holds, ClientOf, UnsetVar, List.Valid, ItemsOf, Linked;
      var p, k := FindEntry(key);
      if p == null {
        return false;
      }
      ghost var entries := db.Items();
      OthersApart(view.own, entries, view.state, k);
      ok := p.item.TrigUnset(ClientOf(config, sender, proxy));
      HoldsReplaced(view.own, view.own, entries, view.state, k, p.item.Abs());
      UnsetStep(config, view.state, key, sender, proxy, p.item.Abs());
      view := view.(state := view.state[k := p.item.Abs()]);
    }

    /** slv_cmd: one client command is one step of the machine. */
    method Serve(cmd: Cmd, net: Network) returns (reply: Reply)
      requires Valid() && Copyable(view.state, cmd) && net !in Repr()
      modifies this, Repr(), net
      ensures Valid() && fresh(Repr() - old(Repr()))
      ensures var out := Step(config, old(view.state), cmd);
        view.state == out.db && reply == out.reply && net.attempts == old(net.attempts) + out.attempts
    {
      hide HoldsAll, Apart, Copyable, List.Valid, ItemsOf;
      var ok;
      match cmd {
        case Create(key, size, now) => ok := Create(key, size, now);
        case Read(key) => reply := Read(key); return;
        case Update(key, data, now, down) => ok := Update(key, data, now, down, net);
        case Destroy(key) => ok := Destroy(key);
        case TrigSet(key, sender, proxy) => ghost var added; ok, added := TrigSet(key, sender, proxy);
        case TrigUnset(key, sender, proxy) => ok := TrigUnset(key, sender, proxy);
        case Other => return NoReply;
      }
      reply := Status(ok);
    }
  }

  /** The command loop: a fresh server that is sent any commands is in the state of their run, has
      given its replies and tried its triggers. */
  method ServeAll(server: Slave, cmds: seq<Cmd>, net: Network, ghost now: int) returns (replies: seq<Reply>)
    requires server.Valid() && net !in server.Repr()
    requires server.view.state == Init(now) && AllCopyable(server.config, cmds)
    modifies server, server.Repr(), net
    ensures server.Valid() && fresh(server.Repr() - old(server.Repr()))
    ensures server.view.state == Run(server.config, now, cmds)
    ensures replies == Replies(server.config, now, cmds) && |replies| == |cmds|
    ensures forall i :: 0 <= i < |cmds| ==> Answers(server.config, now, cmds[..i], cmds[i], replies[i])
    ensures net.attempts == old(net.attempts) + Attempts(server.config, now, cmds)
  {
    hide Slave.Valid, Step, Copyable, AllCopyable, Run, Replies, Attempts, Answers;
    RunStart(server.config, now);
    replies := [];
    ghost var config, before := server.config, net.attempts;
    var i := 0;
    assert cmds[..0] == [];
    while i < |cmds|
      invariant 0 <= i <= |cmds|
      invariant server.Valid() && net !in server.Repr() && fresh(server.Repr() - old(server.Repr()))
      invariant server.view.state == Run(config, now, cmds[..i])
      invariant replies == Replies(config, now, cmds[..i])
      invariant net.attempts == before + Attempts(config, now, cmds[..i])
    {
      RunNext(config, now, cmds, i);
      ghost var mid := server.Repr();
      label Before:
      var reply := server.Serve(cmds[i], net);
      assert forall o :: o in server.Repr() - mid ==> !old@Before(allocated(o));
      assert forall o :: o in server.Repr() && old(allocated(o)) ==> old@Before(allocated(o));
      replies := replies + [reply];
      i := i + 1;
    }
    assert cmds[..i] == cmds;
    RepliesAnswer(config, now, cmds);
  }

  lemma UpdateStep(config: Config, db: Db, key: Key, data: Bytes, now: int, down: set<int>)
    requires Find(db, key) < |db|
    ensures var k := Find(db, key);
      Step(config, db, ServerSpec.Update(key, data, now, down)) ==
      Outcome(db[k := UpdateVar(db[k], data, now, down)], Status(true), db[k].clients)
  {
  }

  lemma SetStep(config: Config, db: Db, key: Key, sender: int, proxy: int, x: Var)
    requires Find(db, key) < |db|
    requires var v, c := db[Find(db, key)], ClientOf(config, sender, proxy);
      x == if c in v.clients then v else v.(clients := v.clients + [c])
    ensures var k, c := Find(db, key), ClientOf(config, sender, proxy);
      Step(config, db, ServerSpec.TrigSet(key, sender, proxy)) ==
      Outcome(db[k := x], Status(c !in db[k].clients), [])
  {
    var k := Find(db, key);
    assert db[k := db[k]] == db;
  }

  lemma UnsetStep(config: Config, db: Db, key: Key, sender: int, proxy: int, x: Var)
    requires Find(db, key) < |db|
    requires var v, c := db[Find(db, key)], ClientOf(config, sender, proxy);
      x == if c in v.clients then UnsetVar(v, c) else v
    ensures Step(config, db, ServerSpec.TrigUnset(key, sender, proxy)) ==
      Outcome(db[Find(db, key) := x], Status(false), [])
  {
    var k := Find(db, key);
    assert db[k := db[k]] == db;
  }
}
