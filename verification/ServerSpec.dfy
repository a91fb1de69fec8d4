/** The publish/subscribe variable server (path/db/db_slv.c) as a state machine on values: the
    list of variables, newest first, and one step per client command.  Server.dfy runs the same
    machine on linked lists; the lemmas here say what the machine promises over whole runs. */
module ServerSpec {
  import opened DList
  import opened Wrappers

  const MAX_DATA_SIZE := 128

  /** The transport of the whole server; it decides which number identifies a trigger client. */
  datatype Transport = Qnx4 | Qnx6 | Posix

  /** A variable is named by its number and its type. */
  datatype Key = Key(v: nat, t: nat)

  const BAD := Key(0, 0)

  /** The value area of a variable or of a message: MAX_DATA_SIZE bytes. */
  type Bytes = b: seq<Byte> | |b| == MAX_DATA_SIZE witness Zeros(MAX_DATA_SIZE)

  function Zeros(n: nat): (b: seq<Byte>)
    ensures |b| == n && forall i :: 0 <= i < n ==> b[i] == 0
  {
    if n == 0 then [] else Zeros(n - 1) + [0]
  }

  datatype Var = Var(key: Key, size: nat, time: int, bytes: Bytes, clients: seq<int>)

  type Db = seq<Var>

  /** Client commands.  `now` is the server's clock; `down` are the clients to which a trigger
      cannot be sent while the command is served; `proxy` is the number carried in the message. */
  datatype Cmd =
    | Create(key: Key, size: nat, now: int)
    | Read(key: Key)
    | Update(key: Key, data: Bytes, now: int, down: set<int>)
    | Destroy(key: Key)
    | TrigSet(key: Key, sender: int, proxy: int)
    | TrigUnset(key: Key, sender: int, proxy: int)
    | Other

  /** Fault stands for the null dereference of db_entry_bad on an empty variable list. */
  datatype Reply = NoReply | Status(ok: bool) | Value(key: Key, time: int, bytes: Bytes) | Fault

  datatype Outcome = Outcome(db: Db, reply: Reply, attempts: seq<int>)

  /** The fixed facts of one server process: its transport and sizeof( db_entry_typ ). */
  datatype Config = Config(transport: Transport, entrySize: nat)

  /** Index of the first variable with this key, or the length when there is none. */
  function Find(db: Db, key: Key): (k: nat)
    ensures k <= |db|
    ensures k < |db| ==> db[k].key == key
    ensures forall i :: 0 <= i < k ==> db[i].key != key
  {
    if db == [] then 0 else if db[0].key == key then 0 else 1 + Find(db[1..], key)
  }

  function Lookup(db: Db, key: Key): Option<Var> {
    var k := Find(db, key);
    if k < |db| then Some(db[k]) else None
  }

  function FreshVar(key: Key, size: nat, now: int): Var {
    Var(key, size, now, Zeros(MAX_DATA_SIZE), [])
  }

  /** bytecopy of the variable's size from the message into the stored value. What a variable larger
      than the value area would copy from and to beyond it is not described; see Copyable. */
  function Overwrite(size: nat, from: Bytes, onto: Bytes): Bytes {
    var n := if size <= MAX_DATA_SIZE then size else MAX_DATA_SIZE;
    from[..n] + onto[n..]
  }

  /** The clients that survive a notification: those not in `down`, in order. */
  function Reachable(clients: seq<int>, down: set<int>): seq<int> {
    if clients == [] then []
    else
      var n := |clients| - 1;
      Reachable(clients[..n], down) + (if clients[n] in down then [] else [clients[n]])
  }

  function ClientOf(config: Config, sender: int, proxy: int): int {
    if config.transport.Qnx4? then proxy else sender
  }

  function FirstIndex(clients: seq<int>, c: int): (k: nat)
    ensures k <= |clients|
    ensures k < |clients| ==> clients[k] == c
    ensures forall i :: 0 <= i < k ==> clients[i] != c
  {
    if clients == [] then 0 else if clients[0] == c then 0 else 1 + FirstIndex(clients[1..], c)
  }

  /** The server accepts a variable larger than the value area, up to the size of its own entries; an
      update of such a variable would copy past the area. */
  ghost predicate Copyable(db: Db, cmd: Cmd) {
    cmd.Update? && Lookup(db, cmd.key).Some? ==> Lookup(db, cmd.key).value.size <= MAX_DATA_SIZE
  }

  function Init(now: int): Db {
    [FreshVar(BAD, MAX_DATA_SIZE, now)]
  }

  function Step(config: Config, db: Db, cmd: Cmd): Outcome {
    match cmd
    case Create(key, size, now) =>
      if config.entrySize < size || Lookup(db, key).Some? then Outcome(db, Status(false), [])
      else Outcome([FreshVar(key, size, now)] + db, Status(true), [])
    case Read(key) =>
      (match Lookup(db, key)
       case Some(x) => Outcome(db, Value(x.key, x.time, x.bytes), [])
       case None =>
         if db == [] then Outcome(db, Fault, [])
         else var x := db[|db| - 1]; Outcome(db, Value(x.key, x.time, x.bytes), []))
    case Update(key, data, now, down) =>
      var k := Find(db, key);
      if k == |db| then Outcome(db, Status(false), [])
      else Outcome(db[k := UpdateVar(db[k], data, now, down)], Status(true), db[k].clients)
    case Destroy(key) =>
      var k := Find(db, key);
      if k == |db| then Outcome(db, Status(false), [])
      else Outcome(RemoveAt(db, k), Status(true), [])
    case TrigSet(key, sender, proxy) =>
      var k, c := Find(db, key), ClientOf(config, sender, proxy);
      if k == |db| || c in db[k].clients then Outcome(db, Status(false), [])
      else Outcome(db[k := db[k].(clients := db[k].clients + [c])], Status(true), [])
    case TrigUnset(key, sender, proxy) =>
      var k, c := Find(db, key), ClientOf(config, sender, proxy);
      if k == |db| || c !in db[k].clients then Outcome(db, Status(false), [])
      else Outcome(db[k := UnsetVar(db[k], c)], Status(false), [])
    case Other => Outcome(db, NoReply, [])
  }

  function UpdateVar(x: Var, data: Bytes, now: int, down: set<int>): Var {
    x.(bytes := Overwrite(x.size, data, x.bytes), time := now, clients := Reachable(x.clients, down))
  }

  function UnsetVar(x: Var, c: int): Var
    requires c in x.clients
  {
    x.(clients := RemoveAt(x.clients, FirstIndex(x.clients, c)))
  }

  // ------------------------------------------------------------------ state invariant

  ghost predicate UniqueKeys(db: Db) {
    forall i, j :: 0 <= i < j < |db| ==> db[i].key != db[j].key
  }

  ghost predicate NoClientTwice(db: Db) {
    forall i :: 0 <= i < |db| ==> Distinct(db[i].clients)
  }

  ghost predicate Inv(db: Db) {
    UniqueKeys(db) && NoClientTwice(db)
  }

  lemma {:induction false} ReachableKeeps(clients: seq<int>, down: set<int>)
    ensures forall c :: c in Reachable(clients, down) <==> c in clients && c !in down
    ensures Distinct(clients) ==> Distinct(Reachable(clients, down))
  {
    if clients != [] {
      ReachableKeeps(clients[..|clients| - 1], down);
      assert clients == clients[..|clients| - 1] + [clients[|clients| - 1]];
    }
  }

  lemma StepInv(config: Config, db: Db, cmd: Cmd)
    requires Inv(db) && Copyable(db, cmd)
    ensures Inv(Step(config, db, cmd).db)
  {
    var k := if cmd.Other? then 0 else Find(db, cmd.key);
    if cmd.Update? && k < |db| {
      ReachableKeeps(db[k].clients, cmd.down);
    }
  }

  // ------------------------------------------------------------------ one variable at a time

  /** What one command does to one variable, told without any list of variables. */
  function VarStep(config: Config, x: Option<Var>, key: Key, cmd: Cmd): Option<Var> {
    if cmd.Other? || cmd.key != key then x
    else
      match cmd
      case Create(_, size, now) =>
        if x.None? && size <= config.entrySize then Some(FreshVar(key, size, now)) else x
      case Read(_) => x
      case Update(_, data, now, down) =>
        if x.None? then x else Some(UpdateVar(x.value, data, now, down))
      case Destroy(_) => None
      case TrigSet(_, sender, proxy) =>
        var c := ClientOf(config, sender, proxy);
        if x.None? || c in x.value.clients then x
        else Some(x.value.(clients := x.value.clients + [c]))
      case TrigUnset(_, sender, proxy) =>
        var c := ClientOf(config, sender, proxy);
        if x.None? || c !in x.value.clients then x else Some(UnsetVar(x.value, c))
  }

  lemma FindIs(db: Db, key: Key, k: nat)
    requires UniqueKeys(db) && k < |db| && db[k].key == key
    ensures Find(db, key) == k
  {
  }

  lemma LookupReplaced(db: Db, k: nat, x: Var, key: Key)
    requires UniqueKeys(db) && k < |db| && x.key == db[k].key
    ensures UniqueKeys(db[k := x])
    ensures Lookup(db[k := x], key) == if x.key == key then Some(x) else Lookup(db, key)
  {
    var db' := db[k := x];
    if x.key == key {
      FindIs(db', key, k);
    } else if Find(db, key) < |db| {
      FindIs(db', key, Find(db, key));
    }
  }

  lemma LookupRemoved(db: Db, d: nat, key: Key)
    requires UniqueKeys(db) && d < |db|
    ensures UniqueKeys(RemoveAt(db, d))
    ensures Lookup(RemoveAt(db, d), key) == if db[d].key == key then None else Lookup(db, key)
  {
    var db', k := RemoveAt(db, d), Find(db, key);
    forall i | 0 <= i < |db'| ensures db'[i] == db[if i < d then i else i + 1] {}
    if k < |db| && k != d {
      FindIs(db', key, if k < d then k else k - 1);
    }
  }

  /** The server refines a map: on every key, a step of the list is a step of that variable. */
  lemma StepIsVarStep(config: Config, db: Db, cmd: Cmd, key: Key)
    requires Inv(db) && Copyable(db, cmd)
    ensures Lookup(Step(config, db, cmd).db, key) == VarStep(config, Lookup(db, key), key, cmd)
  {
    var k := if cmd.Other? then |db| else Find(db, cmd.key);
    if k < |db| {
      if cmd.Destroy? {
        LookupRemoved(db, k, key);
      } else if cmd.Update? || cmd.TrigSet? || cmd.TrigUnset? {
        var x := Step(config, db, cmd).db[k];
        LookupReplaced(db, k, x, key);
      }
    }
  }

  // ------------------------------------------------------------------ runs

  /** The variable list after a run of commands. */
  ghost function Run(config: Config, now: int, cmds: seq<Cmd>): Db {
    if cmds == [] then Init(now)
    else Step(config, Run(config, now, cmds[..|cmds| - 1]), cmds[|cmds| - 1]).db
  }

  /** The replies to a run of commands, and the triggers tried while serving it. */
  ghost function Replies(config: Config, now: int, cmds: seq<Cmd>): seq<Reply> {
    if cmds == [] then []
    else
      var earlier, cmd := cmds[..|cmds| - 1], cmds[|cmds| - 1];
      Replies(config, now, earlier) + [Step(config, Run(config, now, earlier), cmd).reply]
  }

  ghost function Attempts(config: Config, now: int, cmds: seq<Cmd>): seq<int> {
    if cmds == [] then []
    else
      var earlier, cmd := cmds[..|cmds| - 1], cmds[|cmds| - 1];
      Attempts(config, now, earlier) + Step(config, Run(config, now, earlier), cmd).attempts
  }

  /** Whether the variable exists after these commands: created (the bad variable from the
      start) and not destroyed since. */
  ghost predicate Exists(config: Config, cmds: seq<Cmd>, key: Key) {
    if cmds == [] then key == BAD
    else
      var earlier, cmd := cmds[..|cmds| - 1], cmds[|cmds| - 1];
      if cmd.Other? || cmd.key != key then Exists(config, earlier, key)
      else if cmd.Destroy? then false
      else Exists(config, earlier, key) || (cmd.Create? && cmd.size <= config.entrySize)
  }

  /** The size the variable was created with. */
  ghost function SizeOf(config: Config, cmds: seq<Cmd>, key: Key): nat {
    if cmds == [] then MAX_DATA_SIZE
    else
      var earlier, cmd := cmds[..|cmds| - 1], cmds[|cmds| - 1];
      if cmd.Create? && cmd.key == key && !Exists(config, earlier, key) then cmd.size
      else SizeOf(config, earlier, key)
  }

  /** No command updates a variable that was created larger than the value area. */
  ghost predicate AllCopyable(config: Config, cmds: seq<Cmd>) {
    cmds == [] ||
    (var earlier, cmd := cmds[..|cmds| - 1], cmds[|cmds| - 1];
     && AllCopyable(config, earlier)
     && (cmd.Update? && Exists(config, earlier, cmd.key) ==> SizeOf(config, earlier, cmd.key) <= MAX_DATA_SIZE))
  }

  lemma {:induction false} PrefixCopyable(config: Config, cmds: seq<Cmd>, n: nat)
    requires AllCopyable(config, cmds) && n <= |cmds|
    ensures AllCopyable(config, cmds[..n])
  {
    if n == |cmds| {
      assert cmds[..n] == cmds;
    } else {
      PrefixCopyable(config, cmds[..|cmds| - 1], n);
      assert cmds[..|cmds| - 1][..n] == cmds[..n];
    }
  }

  /** The data of the last accepted update since the variable was created, if any. */
  ghost function LastData(config: Config, cmds: seq<Cmd>, key: Key): Option<Bytes> {
    if cmds == [] then None
    else
      var earlier, cmd := cmds[..|cmds| - 1], cmds[|cmds| - 1];
      if cmd.Other? || cmd.key != key then LastData(config, earlier, key)
      else if !Exists(config, earlier, key) || cmd.Destroy? then None
      else if cmd.Update? then Some(cmd.data)
      else LastData(config, earlier, key)
  }

  /** When the variable was created or last updated. */
  ghost function LastTime(config: Config, now: int, cmds: seq<Cmd>, key: Key): int {
    if cmds == [] then now
    else
      var earlier, cmd := cmds[..|cmds| - 1], cmds[|cmds| - 1];
      if cmd.Create? && cmd.key == key && !Exists(config, earlier, key) then cmd.now
      else if cmd.Update? && cmd.key == key && Exists(config, earlier, key) then cmd.now
      else LastTime(config, now, earlier, key)
  }

  /** A client has a trigger on the variable: set while the variable existed, and since then
      neither unset, nor failed during an update, nor lost with the variable. */
  ghost predicate Registered(config: Config, cmds: seq<Cmd>, key: Key, c: int) {
    if cmds == [] then false
    else
      var earlier, cmd := cmds[..|cmds| - 1], cmds[|cmds| - 1];
      if cmd.Other? || cmd.key != key then Registered(config, earlier, key, c)
      else
        match cmd
        case TrigSet(_, sender, proxy) =>
          if ClientOf(config, sender, proxy) == c then Exists(config, earlier, key)
          else Registered(config, earlier, key, c)
        case TrigUnset(_, sender, proxy) =>
          ClientOf(config, sender, proxy) != c && Registered(config, earlier, key, c)
        case Update(_, _, _, down) => c !in down && Registered(config, earlier, key, c)
        case Destroy(_) => false
        case _ => Registered(config, earlier, key, c)
  }

  /** What the bytes of a variable of this size are, given its last accepted data. */
  ghost function Contents(size: nat, data: Option<Bytes>): Bytes {
    match data
    case None => Zeros(MAX_DATA_SIZE)
    case Some(d) => Overwrite(size, d, Zeros(MAX_DATA_SIZE))
  }

  /** Byte by byte: the data as far as the variable reaches, zeros behind it and before any data. */
  ghost predicate Stores(bytes: Bytes, size: nat, data: Option<Bytes>) {
    forall j :: 0 <= j < MAX_DATA_SIZE ==> bytes[j] == if data.Some? && j < size then data.value[j] else 0
  }

  lemma ContentsStored(size: nat, data: Option<Bytes>)
    ensures Stores(Contents(size, data), size, data)
  {
  }

  /** The list of variables agrees, on every key, with the history read off the commands. */
  lemma {:induction false} RunMatchesHistory(config: Config, now: int, cmds: seq<Cmd>, key: Key)
    requires AllCopyable(config, cmds)
    ensures Inv(Run(config, now, cmds))
    ensures var x := Lookup(Run(config, now, cmds), key);
      && x.Some? == Exists(config, cmds, key)
      && (x.Some? ==>
            && x.value.key == key
            && x.value.size == SizeOf(config, cmds, key)
            && x.value.time == LastTime(config, now, cmds, key)
            && x.value.bytes == Contents(x.value.size, LastData(config, cmds, key)))
  {
    if cmds != [] {
      var earlier, cmd := cmds[..|cmds| - 1], cmds[|cmds| - 1];
      var db := Run(config, now, earlier);
      RunMatchesHistory(config, now, earlier, key);
      if cmd.Update? {
        RunMatchesHistory(config, now, earlier, cmd.key);
      }
      StepInv(config, db, cmd);
      StepIsVarStep(config, db, cmd, key);
    }
  }

  /** The last command of a run finds a state in which it is no overrun. */
  lemma RunCopyable(config: Config, now: int, cmds: seq<Cmd>)
    requires cmds != [] && AllCopyable(config, cmds)
    ensures var db := Run(config, now, cmds[..|cmds| - 1]);
      Inv(db) && Copyable(db, cmds[|cmds| - 1])
  {
    var earlier, cmd := cmds[..|cmds| - 1], cmds[|cmds| - 1];
    RunMatchesHistory(config, now, earlier, if cmd.Update? then cmd.key else BAD);
  }

  lemma RunStart(config: Config, now: int)
    ensures Run(config, now, []) == Init(now)
    ensures Replies(config, now, []) == [] && Attempts(config, now, []) == []
  {
  }

  /** One more command of a run: a step from where the commands before it led. */
  lemma RunNext(config: Config, now: int, cmds: seq<Cmd>, i: nat)
    requires AllCopyable(config, cmds) && i < |cmds|
    ensures var db := Run(config, now, cmds[..i]);
      && Copyable(db, cmds[i])
      && Run(config, now, cmds[..i + 1]) == Step(config, db, cmds[i]).db
      && Replies(config, now, cmds[..i + 1]) == Replies(config, now, cmds[..i]) + [Step(config, db, cmds[i]).reply]
      && Attempts(config, now, cmds[..i + 1]) == Attempts(config, now, cmds[..i]) + Step(config, db, cmds[i]).attempts
  {
    hide Step;
    assert cmds[..i + 1][..i] == cmds[..i];
    PrefixCopyable(config, cmds, i + 1);
    RunCopyable(config, now, cmds[..i + 1]);
  }

  lemma {:induction false} RegisteredExists(config: Config, cmds: seq<Cmd>, key: Key, c: int)
    ensures Registered(config, cmds, key, c) ==> Exists(config, cmds, key)
  {
    if cmds != [] {
      RegisteredExists(config, cmds[..|cmds| - 1], key, c);
    }
  }

  lemma UnsetKeeps(x: Var, c: int, d: int)
    requires c in x.clients && Distinct(x.clients)
    ensures d in UnsetVar(x, c).clients <==> d in x.clients && d != c
  {
    var k, ys := FirstIndex(x.clients, c), UnsetVar(x, c).clients;
    if d in x.clients && d != c {
      var i :| 0 <= i < |x.clients| && x.clients[i] == d;
      assert ys[if i < k then i else i - 1] == d;
    }
  }

  lemma {:induction false} RunMatchesTriggers(config: Config, now: int, cmds: seq<Cmd>, key: Key, c: int)
    requires AllCopyable(config, cmds)
    ensures var x := Lookup(Run(config, now, cmds), key);
      (x.Some? && c in x.value.clients) <==> Registered(config, cmds, key, c)
  {
    if cmds != [] {
      var earlier, cmd := cmds[..|cmds| - 1], cmds[|cmds| - 1];
      var db := Run(config, now, earlier);
      var x := Lookup(db, key);
      RunMatchesTriggers(config, now, earlier, key, c);
      RunMatchesHistory(config, now, earlier, key);
      RegisteredExists(config, earlier, key, c);
      RunCopyable(config, now, cmds);
      StepIsVarStep(config, db, cmd, key);
      if cmd.Update? && x.Some? {
        ReachableKeeps(x.value.clients, cmd.down);
      } else if cmd.TrigUnset? && x.Some? && ClientOf(config, cmd.sender, cmd.proxy) in x.value.clients {
        UnsetKeeps(x.value, ClientOf(config, cmd.sender, cmd.proxy), c);
      }
    }
  }

  /** When a client's trigger was set: the position of the last TRIG_SET that registered it. */
  ghost function LastSet(config: Config, cmds: seq<Cmd>, key: Key, c: int): (i: int)
    ensures -1 <= i < |cmds|
  {
    if cmds == [] then -1
    else
      var n := |cmds| - 1;
      if Registers(config, cmds, key, c)
      then n else LastSet(config, cmds[..n], key, c)
  }

  ghost predicate InSetOrder(config: Config, cmds: seq<Cmd>, key: Key, clients: seq<int>) {
    forall i, j :: 0 <= i < j < |clients| ==>
      LastSet(config, cmds, key, clients[i]) < LastSet(config, cmds, key, clients[j])
  }

  lemma {:induction false} ReachableInOrder(config: Config, cmds: seq<Cmd>, key: Key, clients: seq<int>, down: set<int>)
    requires InSetOrder(config, cmds, key, clients)
    ensures InSetOrder(config, cmds, key, Reachable(clients, down))
  {
    if clients != [] {
      var n := |clients| - 1;
      ReachableInOrder(config, cmds, key, clients[..n], down);
      var rest := Reachable(clients[..n], down);
      forall i | 0 <= i < |rest|
        ensures LastSet(config, cmds, key, rest[i]) < LastSet(config, cmds, key, clients[n])
      {
        ReachableKeeps(clients[..n], down);
        assert rest[i] in rest;
      }
    }
  }

  /** After any run the trigger list of a variable is in the order in which its triggers were set. */
  lemma {:induction false} RunKeepsSetOrder(config: Config, now: int, cmds: seq<Cmd>, key: Key)
    requires AllCopyable(config, cmds)
    ensures var x := Lookup(Run(config, now, cmds), key);
      x.Some? ==> InSetOrder(config, cmds, key, x.value.clients)
  {
    if cmds != [] {
      var n := |cmds| - 1;
      var earlier, cmd, db := cmds[..n], cmds[n], Run(config, now, cmds[..n]);
      var x := Lookup(db, key);
      RunKeepsSetOrder(config, now, earlier, key);
      RunMatchesHistory(config, now, earlier, key);
      RunCopyable(config, now, cmds);
      StepIsVarStep(config, db, cmd, key);
      if x.Some? && !cmd.Other? && cmd.key == key {
        SetOrderStep(config, now, cmds, key, x.value.clients);
      }
    }
  }

  /** Whether the last command registers the client. */
  ghost predicate Registers(config: Config, cmds: seq<Cmd>, key: Key, c: int)
    requires cmds != []
  {
    var n := |cmds| - 1;
    cmds[n].TrigSet? && cmds[n].key == key && ClientOf(config, cmds[n].sender, cmds[n].proxy) == c
    && Exists(config, cmds[..n], key) && !Registered(config, cmds[..n], key, c)
  }

  lemma OrderKept(config: Config, cmds: seq<Cmd>, key: Key, clients: seq<int>)
    requires cmds != [] && InSetOrder(config, cmds[..|cmds| - 1], key, clients)
    requires forall d :: d in clients ==> !Registers(config, cmds, key, d)
    ensures InSetOrder(config, cmds, key, clients)
  {
    forall d | d in clients
      ensures LastSet(config, cmds, key, d) == LastSet(config, cmds[..|cmds| - 1], key, d)
    {
      assert !Registers(config, cmds, key, d);
    }
  }

  lemma OrderAppend(config: Config, cmds: seq<Cmd>, key: Key, clients: seq<int>, c: int)
    requires cmds != [] && InSetOrder(config, cmds[..|cmds| - 1], key, clients)
    requires forall d :: d in clients ==> !Registers(config, cmds, key, d)
    requires Registers(config, cmds, key, c)
    ensures InSetOrder(config, cmds, key, clients + [c])
  {
    OrderKept(config, cmds, key, clients);
    forall d | d in clients
      ensures LastSet(config, cmds, key, d) < LastSet(config, cmds, key, c)
    {
      assert !Registers(config, cmds, key, d);
    }
  }

  lemma OrderRemove(config: Config, cmds: seq<Cmd>, key: Key, clients: seq<int>, k: nat)
    requires InSetOrder(config, cmds, key, clients) && k < |clients|
    ensures InSetOrder(config, cmds, key, RemoveAt(clients, k))
  {
    hide LastSet;
    RemoveAtIndices(clients, k);
  }

  /** What the last command of a run does to the order of a trigger list. */
  lemma SetOrderStep(config: Config, now: int, cmds: seq<Cmd>, key: Key, clients: seq<int>)
    requires cmds != [] && AllCopyable(config, cmds)
    requires var earlier := cmds[..|cmds| - 1];
      && InSetOrder(config, earlier, key, clients) && Exists(config, earlier, key)
      && (var x := Lookup(Run(config, now, earlier), key); x.Some? && x.value.clients == clients)
    ensures var cmd := cmds[|cmds| - 1];
      && (!cmd.TrigSet? || cmd.key != key || ClientOf(config, cmd.sender, cmd.proxy) in clients ==>
            InSetOrder(config, cmds, key, clients))
      && (cmd.Update? ==> InSetOrder(config, cmds, key, Reachable(clients, cmd.down)))
      && (cmd.TrigSet? && cmd.key == key && ClientOf(config, cmd.sender, cmd.proxy) !in clients ==>
            InSetOrder(config, cmds, key, clients + [ClientOf(config, cmd.sender, cmd.proxy)]))
      && (cmd.TrigUnset? ==>
            forall k :: 0 <= k < |clients| ==> InSetOrder(config, cmds, key, RemoveAt(clients, k)))
  {
    var n := |cmds| - 1;
    var earlier, cmd := cmds[..n], cmds[n];
    forall d | d in clients
      ensures !Registers(config, cmds, key, d)
    {
      RunMatchesTriggers(config, now, earlier, key, d);
    }
    OrderKept(config, cmds, key, clients);
    hide InSetOrder, Reachable, Run, Exists, AllCopyable;
    match cmd {
      case TrigSet(k, sender, proxy) =>
        var c := ClientOf(config, sender, proxy);
        if k == key && c !in clients {
          RunMatchesTriggers(config, now, earlier, key, c);
          OrderAppend(config, cmds, key, clients, c);
        }
      case Update(_, _, _, down) =>
        ReachableInOrder(config, cmds, key, clients, down);
      case TrigUnset(_, _, _) =>
        forall k | 0 <= k < |clients|
          ensures InSetOrder(config, cmds, key, RemoveAt(clients, k))
        {
          OrderRemove(config, cmds, key, clients, k);
        }
      case _ =>
    }
  }

  /** An accepted update tries every client with a live trigger on the variable, no other client,
      none of them twice, and in the order in which the triggers were set. */
  lemma UpdateNotifiesRegistered(config: Config, now: int, cmds: seq<Cmd>, key: Key, data: Bytes,
      when: int, down: set<int>)
    requires AllCopyable(config, cmds)
    ensures var out := Step(config, Run(config, now, cmds), Update(key, data, when, down));
      && out.reply == Status(Exists(config, cmds, key))
      && Distinct(out.attempts) && InSetOrder(config, cmds, key, out.attempts)
      && (forall c :: c in out.attempts <==> Registered(config, cmds, key, c))
  {
    RunMatchesHistory(config, now, cmds, key);
    RunKeepsSetOrder(config, now, cmds, key);
    forall c ensures var out := Step(config, Run(config, now, cmds), Update(key, data, when, down));
      c in out.attempts <==> Registered(config, cmds, key, c)
    {
      RunMatchesTriggers(config, now, cmds, key, c);
    }
  }

  // ------------------------------------------------------------------ the bad variable

  ghost predicate BadLast(db: Db) {
    db != [] && db[|db| - 1].key == BAD
  }

  /** The bad variable stays last exactly as long as nobody destroys it. */
  lemma BadStaysLastIff(config: Config, db: Db, cmd: Cmd)
    requires Inv(db) && Copyable(db, cmd) && BadLast(db)
    ensures BadLast(Step(config, db, cmd).db) <==> cmd != Destroy(BAD)
  {
    var n := |db| - 1;
    FindIs(db, BAD, n);
    if cmd.Destroy? && Find(db, cmd.key) < |db| {
      var d, db' := Find(db, cmd.key), RemoveAt(db, Find(db, cmd.key));
      assert d < n ==> db'[n - 1] == db[n];
      assert d == n && n > 0 ==> db'[n - 1] == db[n - 1];
    }
  }

  lemma {:induction false} RunKeepsBadLast(config: Config, now: int, cmds: seq<Cmd>)
    requires AllCopyable(config, cmds) && Destroy(BAD) !in cmds
    ensures BadLast(Run(config, now, cmds))
  {
    if cmds != [] {
      var earlier := cmds[..|cmds| - 1];
      RunKeepsBadLast(config, now, earlier);
      RunCopyable(config, now, cmds);
      BadStaysLastIff(config, Run(config, now, earlier), cmds[|cmds| - 1]);
    }
  }

  /** What a READ returns after any run: the last accepted data, zero filled to the full area,
      when the variable exists; and, as long as nobody destroyed the bad variable, the bad
      variable exactly when the one asked for does not exist. */
  lemma ReadReturns(config: Config, now: int, cmds: seq<Cmd>, key: Key)
    requires AllCopyable(config, cmds)
    ensures var reply := Step(config, Run(config, now, cmds), Read(key)).reply;
      && (Exists(config, cmds, key) ==>
            && reply.Value? && reply.key == key && reply.time == LastTime(config, now, cmds, key)
            && Stores(reply.bytes, SizeOf(config, cmds, key), LastData(config, cmds, key)))
      && (Destroy(BAD) !in cmds && key != BAD ==>
            reply.Value? && (reply.key == BAD <==> !Exists(config, cmds, key)))
  {
    RunMatchesHistory(config, now, cmds, key);
    ContentsStored(SizeOf(config, cmds, key), LastData(config, cmds, key));
    if Destroy(BAD) !in cmds {
      RunKeepsBadLast(config, now, cmds);
    }
  }

  /** When an existing variable was created: the position of that command, -1 for the bad variable of
      the start. */
  ghost function CreatedAt(config: Config, cmds: seq<Cmd>, key: Key): (i: int)
    ensures -1 <= i < |cmds|
  {
    if cmds == [] then -1
    else
      var n := |cmds| - 1;
      if Creates(config, cmds[..n], cmds[n], key) then n else CreatedAt(config, cmds[..n], key)
  }

  ghost predicate Creates(config: Config, earlier: seq<Cmd>, cmd: Cmd, key: Key) {
    cmd.Create? && cmd.key == key && cmd.size <= config.entrySize && !Exists(config, earlier, key)
  }

  ghost predicate ByAge(config: Config, cmds: seq<Cmd>, db: Db) {
    forall i, j :: 0 <= i < j < |db| ==> CreatedAt(config, cmds, db[j].key) < CreatedAt(config, cmds, db[i].key)
  }

  /** The oldest variable is last. */
  lemma {:induction false} RunIsByAge(config: Config, now: int, cmds: seq<Cmd>)
    requires AllCopyable(config, cmds)
    ensures ByAge(config, cmds, Run(config, now, cmds))
  {
    if cmds != [] {
      var n := |cmds| - 1;
      var earlier, cmd, db := cmds[..n], cmds[n], Run(config, now, cmds[..n]);
      RunIsByAge(config, now, earlier);
      RunCopyable(config, now, cmds);
      forall i | 0 <= i < |db| ensures Exists(config, earlier, db[i].key) {
        ListedExists(config, now, earlier, i);
      }
      if !cmd.Other? {
        RunMatchesHistory(config, now, earlier, cmd.key);
      }
      AgeStep(config, cmds, db);
    }
  }

  lemma ListedExists(config: Config, now: int, cmds: seq<Cmd>, i: nat)
    requires AllCopyable(config, cmds) && i < |Run(config, now, cmds)|
    ensures Exists(config, cmds, Run(config, now, cmds)[i].key)
  {
    var db := Run(config, now, cmds);
    RunMatchesHistory(config, now, cmds, db[i].key);
    FindIs(db, db[i].key, i);
  }

  lemma AgeStep(config: Config, cmds: seq<Cmd>, db: Db)
    requires cmds != [] && ByAge(config, cmds[..|cmds| - 1], db)
    requires forall i :: 0 <= i < |db| ==> Exists(config, cmds[..|cmds| - 1], db[i].key)
    requires var cmd := cmds[|cmds| - 1];
      !cmd.Other? ==> Lookup(db, cmd.key).Some? == Exists(config, cmds[..|cmds| - 1], cmd.key)
    ensures ByAge(config, cmds, Step(config, db, cmds[|cmds| - 1]).db)
  {
    var n := |cmds| - 1;
    var earlier, cmd := cmds[..n], cmds[n];
    hide Exists, Step;
    forall i | 0 <= i < |db|
      ensures CreatedAt(config, cmds, db[i].key) == CreatedAt(config, earlier, db[i].key)
    {}
    StepByAge(config, cmds, db, cmd);
  }

  lemma StepByAge(config: Config, cmds: seq<Cmd>, db: Db, cmd: Cmd)
    requires ByAge(config, cmds, db)
    requires cmd.Create? && cmd.size <= config.entrySize && Lookup(db, cmd.key).None? ==>
               forall i :: 0 <= i < |db| ==> CreatedAt(config, cmds, db[i].key) < CreatedAt(config, cmds, cmd.key)
    ensures ByAge(config, cmds, Step(config, db, cmd).db)
  {
    hide CreatedAt, ClientOf, RemoveAt, Reachable, Overwrite;
    if cmd.Destroy? && Find(db, cmd.key) < |db| {
      RemoveAtIndices(db, Find(db, cmd.key));
    }
  }

  ghost predicate Oldest(config: Config, cmds: seq<Cmd>, key: Key) {
    && Exists(config, cmds, key)
    && forall k :: Exists(config, cmds, k) ==> CreatedAt(config, cmds, key) <= CreatedAt(config, cmds, k)
  }

  /** Whether a reply is the one that the history of the commands before asks for. A read of a variable
      that does not exist shows the oldest one, which is the bad one until somebody destroys that. */
  ghost predicate Answers(config: Config, now: int, earlier: seq<Cmd>, cmd: Cmd, reply: Reply) {
    match cmd
    case Create(key, size, _) => reply == Status(!Exists(config, earlier, key) && size <= config.entrySize)
    case Update(key, _, _, _) => reply == Status(Exists(config, earlier, key))
    case Destroy(key) => reply == Status(Exists(config, earlier, key))
    case TrigSet(key, sender, proxy) =>
      var c := if config.transport == Qnx4 then proxy else sender;
      reply == Status(Exists(config, earlier, key) && !Registered(config, earlier, key, c))
    case TrigUnset(_, _, _) => reply == Status(false)
    case Read(key) =>
      if (forall k :: !Exists(config, earlier, k)) then reply == Fault
      else
        && reply.Value?
        && (if Exists(config, earlier, key) then reply.key == key else Oldest(config, earlier, reply.key))
        && (!Exists(config, earlier, key) && Destroy(BAD) !in earlier ==> reply.key == BAD)
        && reply.time == LastTime(config, now, earlier, reply.key)
        && Stores(reply.bytes, SizeOf(config, earlier, reply.key), LastData(config, earlier, reply.key))
    case Other => reply == NoReply
  }

  /** Every reply of every run is the one that the history of the commands before asks for. */
  lemma RepliesMatchHistory(config: Config, now: int, cmds: seq<Cmd>, i: nat)
    requires AllCopyable(config, cmds) && i < |cmds|
    ensures |Replies(config, now, cmds)| == |cmds|
    ensures Answers(config, now, cmds[..i], cmds[i], Replies(config, now, cmds)[i])
  {
    ReplyAt(config, now, cmds, i);
    PrefixCopyable(config, cmds, i);
    var earlier, cmd := cmds[..i], cmds[i];
    if !cmd.Other? {
      RunMatchesHistory(config, now, earlier, cmd.key);
    }
    if cmd.TrigSet? {
      RunMatchesTriggers(config, now, earlier, cmd.key, ClientOf(config, cmd.sender, cmd.proxy));
    } else if cmd.Read? {
      ReadAnswers(config, now, earlier, cmd.key);
    }
  }

  lemma RepliesAnswer(config: Config, now: int, cmds: seq<Cmd>)
    requires AllCopyable(config, cmds)
    ensures |Replies(config, now, cmds)| == |cmds|
    ensures forall i :: 0 <= i < |cmds| ==> Answers(config, now, cmds[..i], cmds[i], Replies(config, now, cmds)[i])
  {
    hide Answers, AllCopyable;
    forall i | 0 <= i < |cmds|
      ensures |Replies(config, now, cmds)| == |cmds|
      ensures Answers(config, now, cmds[..i], cmds[i], Replies(config, now, cmds)[i])
    {
      RepliesMatchHistory(config, now, cmds, i);
    }
  }

  /** The reply at a position is the reply to that command in the state the earlier ones led to. */
  lemma {:induction false} ReplyAt(config: Config, now: int, cmds: seq<Cmd>, i: nat)
    requires i < |cmds|
    ensures |Replies(config, now, cmds)| == |cmds|
    ensures Replies(config, now, cmds)[i] == Step(config, Run(config, now, cmds[..i]), cmds[i]).reply
  {
    hide Step, Run;
    var n := |cmds| - 1;
    if i < n {
      ReplyAt(config, now, cmds[..n], i);
      assert cmds[..n][..i] == cmds[..i];
    } else if n > 0 {
      ReplyAt(config, now, cmds[..n], 0);
    }
  }

  lemma ReadAnswers(config: Config, now: int, cmds: seq<Cmd>, key: Key)
    requires AllCopyable(config, cmds)
    ensures Answers(config, now, cmds, Read(key), Step(config, Run(config, now, cmds), Read(key)).reply)
  {
    var db := Run(config, now, cmds);
    RunMatchesHistory(config, now, cmds, key);
    if Exists(config, cmds, key) {
      ContentsStored(SizeOf(config, cmds, key), LastData(config, cmds, key));
    } else if db == [] {
      forall k ensures !Exists(config, cmds, k) {
        RunMatchesHistory(config, now, cmds, k);
      }
    } else {
      var shown := db[|db| - 1].key;
      LastIsOldest(config, now, cmds);
      FindIs(db, shown, |db| - 1);
      RunMatchesHistory(config, now, cmds, shown);
      ContentsStored(SizeOf(config, cmds, shown), LastData(config, cmds, shown));
      if Destroy(BAD) !in cmds {
        RunKeepsBadLast(config, now, cmds);
      }
    }
  }

  lemma LastIsOldest(config: Config, now: int, cmds: seq<Cmd>)
    requires AllCopyable(config, cmds) && Run(config, now, cmds) != []
    ensures var db := Run(config, now, cmds); Oldest(config, cmds, db[|db| - 1].key)
  {
    hide Run, Exists, CreatedAt, AllCopyable, Inv;
    var db := Run(config, now, cmds);
    RunIsByAge(config, now, cmds);
    ListedExists(config, now, cmds, |db| - 1);
    forall k | Exists(config, cmds, k)
      ensures CreatedAt(config, cmds, db[|db| - 1].key) <= CreatedAt(config, cmds, k)
    {
      RunMatchesHistory(config, now, cmds, k);
      assert db[Find(db, k)].key == k;
    }
  }

  /** After DESTROY of the bad variable a read of a missing variable fails: on a fresh server
      there is no entry left to reply with, and with one variable created the reply shows that
      variable instead of the bad one. */
  lemma DestroyedBadVariable(config: Config, now: int, other: Key, asked: Key)
    requires other != BAD && asked != BAD && asked != other
    ensures Step(config, Run(config, now, [Destroy(BAD)]), Read(asked)).reply == Fault
    ensures var cmds := [Create(other, 0, now), Destroy(BAD)];
      Step(config, Run(config, now, cmds), Read(asked)).reply == Value(other, now, Zeros(MAX_DATA_SIZE))
  {
    var one, two := [Destroy(BAD)], [Create(other, 0, now), Destroy(BAD)];
    assert one[..0] == [] && two[..1] == [Create(other, 0, now)] && two[..1][..0] == [];
    assert Run(config, now, []) == Init(now);
    assert Find(Init(now), BAD) == 0;
    var made := Run(config, now, two[..1]);
    assert made == [FreshVar(other, 0, now)] + Init(now);
    assert Find(made, BAD) == 1;
    assert Run(config, now, two) == [FreshVar(other, 0, now)];
    assert Run(config, now, one) == [];
  }
}
