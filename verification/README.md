# Models of the PATH vehicle-control library

This project models the in-memory data structures of the PATH library and the small protocols built on
them, and proves what they promise. `dafny verify dfyconfig.toml` checks everything. The modules follow
the source files:

- **AVL trees** (`AvlSpec`, `AvlPath`, `Avl`; path/local/sys_btr.c). `AvlSpec` is textbook recursive
  insertion over tree values with its theorems. `AvlPath` shows that what the source does instead (one
  descent that remembers the last unbalanced ancestor, a second one that rewrites balance factors, one
  rotation) yields the same tree. `Avl` is the code itself on heap cells.
- **Database circular buffer** (`CircBuff`; path/db/path_datahub.cpp). A producer and a consumer, each
  a program counter over atomic server reads and writes, under every interleaving; and the class whose
  methods are those steps.
- **Variable server** (`ServerSpec`, `Server`; path/db/db_slv.c). The command loop as a state machine
  over variables and trigger lists, theorems over every run of commands, and the server class on top of
  the linked lists of `DList`, with the notification loop that deletes from the list it walks.
- **Linked lists** (`DList`; path/local/sys_list.c). Doubly linked lists on heap nodes against
  sequences, including the priority insertion.
- **Hash table** (`HashSpec`, `HashTable`, `HashRuns`; path/local/st.c). Insert, lookup, delete, deferred
  delete, cleanup, traversal, copy and rehash against a finite map, and every sequence of these
  operations.
- **CAN message codec** (`Bits`, `BitPack`; can/messages). Packing and unpacking bit fields in two
  32-bit words.
- **CAN driver queues** (`Ring`, `CanSpec`, `CanDriver`; path/local/sys_buff.c, can/drv_common/can_if.c,
  can/drv_i82527/can_dev.c). The ring and the list that keep the last items, the transmit protocol with
  its interrupt, timeout and flush, and the filtered receive side, over every run of events.
- **Byte queue** (`Fifo`), **random numbers** (`Random`), **calendar** (`Calendar`), **escape codec**
  (`Codec`) and **bounded filter** (`Arma`), from path/local.

`Wrappers`, `Arith` and `Seqs` hold shared types and facts about division and sequences.

Conventions. A null result is `None`. Characters, bytes, words and ids are bounded integers, and the
places where the source relies on wrap-around or on a signed shift write it out (`Int32`, `Shl`,
`Encoded`). The clock, the set of clients that cannot be reached and the number of writes an output
stream accepts are parameters. Methods that change an object state its whole new state through a
function of the old one; what that function promises is proved as lemmas beside it.

What the proofs show about the code, where it differs from what it promises:

- `can_dev_flush_q` throws out ten messages for every nine it reports, and the message it keeps has not
  been handed to the controller. `LostIff` gives the exact condition under which an interrupt then
  drops it unsent, `ElevenWritesLoseTheLast` a run in which that happens.
- The server does not protect the entry (0,0) from DESTROY. `BadStaysLastIff` and
  `DestroyedBadVariable` give the condition and the consequence; a read of a missing variable then shows
  the oldest variable there is, or fails when there is none (`ReadAnswers`).
- `comm_done` reports FALSE for every transport but TCP, so a successful trigger unset answers FALSE;
  the model does the same and the theorems are about its effect.
- `ARMA_BOUND_OUTPUT_REL` clamps around the prior input, not the prior output; `OutputMovesWithinIff`
  says exactly when the documented bound holds all the same, and `OutputJumps` shows a run in which it
  does not.
- `time_systonew` always yields zero tenths, so the round trip loses them (`SysThereAndBack`).
- `sys_time_from_midnight` is right for every time a four-byte `long` can hold; `SysTimeFromMidnight`
  gives the exact limit.
- A circular buffer without a slot loses every item (`NoSlots`); it is safe exactly from length 1 on
  (`FaithfulIff`). The constructor of the second process sets both indices to zero. Between calls that is
  safe, for every run from there on, exactly when the buffer is empty (`LateConstructorSafeIff`); before
  the first insertion is complete it is harmless at any point (`EarlyConstructorsAreSafe`).
- `st_foreach` takes one from the count for every tombstone it deletes. `Foreach` says exactly when the
  count stays right, `WalkBreaksCount` is a use of the table after which it is -1. `st_add_direct` leaves a table that agrees with a map exactly when the key was
  absent (`AddUnseenIff`).
- With `num_entries` an `int`, the hash table can never use up its table of sizes (`NeverRunsOut`).

## Model

| member | source | states |
|---|---|---|
| `AvlSpec.InsertAvl` | path/local/sys_btr.c:342-494 | insertion keeps every stored balance equal to the height difference, within one, and grows the tree by at most one level, exactly when it says so |
| `AvlSpec.InsertInorder` | path/local/sys_btr.c:179-320 | insertion into an ordered tree is insertion into its sorted sequence of items |
| `AvlSpec.InsertGood` | path/local/sys_btr.c:157-230 | a valid tree stays valid; its items gain exactly the new one, or the tree is unchanged when the key is there |
| `AvlSpec.FindIff` | path/local/sys_btr.c:515-539 | a search succeeds exactly when the key is present, and returns that very item |
| `AvlSpec.BuildFinds` | path/local/sys_btr.c:157-230 | after any arrivals the tree is valid, a search returns the first arrival of its key, and the height is Fibonacci-bounded |
| `AvlSpec.AvlHoldsMany` | path/local/sys_btr.c:383-400 | a valid tree of height h holds at least Fib(h+2)-1 items |
| `AvlPath.QuietInsert` | path/local/sys_btr.c:361-377 | where all nodes on the path are balanced, recursive insertion only hangs the leaf and marks the path |
| `AvlPath.BalancingIs` | path/local/sys_btr.c:267-318 | the remembered node is the last unbalanced one on the path, or the root, and everything below it on the path is balanced |
| `AvlPath.IterativeInsert` | path/local/sys_btr.c:179-230 | rebalancing only the subtree at the remembered node gives the tree of recursive insertion |
| `AvlPath.AddLeafInorder` | path/local/sys_btr.c:106-154 | adding a leaf without rebalancing still inserts into the sorted sequence of items |
| `Avl.Descend` | path/local/sys_btr.c:267-318 | the descent ends at the matching cell or at the parent of the new leaf, with the remembered node and its parent |
| `Avl.AvlInsert` | path/local/sys_btr.c:255-320 | the leaf is linked into the heap tree, or the match is returned and nothing changes |
| `Avl.MarkPath` | path/local/sys_btr.c:359-377 | the second descent turns the balanced path into the marked one and touches nothing else |
| `Avl.AvlBalance` | path/local/sys_btr.c:343-401 | the balance factors are those of the marked tree, and the verdict says which rotation is due |
| `Avl.AvlSingle` | path/local/sys_btr.c:418-438 | the heap cells now form the singly rotated tree |
| `Avl.AvlDouble` | path/local/sys_btr.c:455-494 | the heap cells now form the doubly rotated tree, with the three cases of balance factors |
| `Avl.BinaryTree.BtrAvl` | path/local/sys_btr.c:179-230 | the heap tree becomes that of textbook insertion, with the returned item for a new key, a duplicate and the null cases; its cells are the old ones and at most one new |
| `Avl.BinaryTree.constructor` | path/local/sys_btr.c:56-69 | an empty tree: a cell without an item |
| `Avl.AddAll` | path/local/sys_btr.c:157-230 | any number of insertions on the heap build the tree of textbook insertion, and each call returns the first arrival with its key |
| `Avl.BinaryTree.BtrFind` | path/local/sys_btr.c:515-539 | search on the heap returns what search on the tree value returns |
| `Avl.BinaryTree.BtrAdd` | path/local/sys_btr.c:106-154 | adds a leaf without rebalancing, or returns the item that is there; its cells are the old ones and at most one new |
| `Avl.BinaryTree.BtrWalk` | path/local/sys_btr.c:651-658 | the visits are those of a depth-first walk, in order and with levels |
| `Avl.WalkListsItems` | path/local/sys_btr.c:718-743 | the in-order and leaf visits list every item once, by increasing key |
| `Avl.VisitsInOrders` | path/local/sys_btr.c:718-743 | the preorder and postorder visits list every item in textbook preorder and postorder |
| `Avl.VisitsFit` | path/local/sys_btr.c:718-743 | every visit carries the level of its item, and leaf visits go exactly to items with nothing below them |
| `Avl.VisitsNest` | path/local/sys_btr.c:718-743 | the preorder visit of an item comes before, the postorder visit after, all visits to it and below it |
| `Avl.AddLeafKeepsDepth` | path/local/sys_btr.c:106-154 | adding without rebalancing moves no item, and the new one goes where a search for it ended |
| `CircBuff.ProducerStepInv` | path/db/path_datahub.cpp:220-243 | every step of an insertion keeps the invariant, whatever the consumer is doing |
| `CircBuff.ConsumerStepInv` | path/db/path_datahub.cpp:247-269 | every step of a deletion keeps the invariant, whatever the producer is doing |
| `CircBuff.ElementWriteIsSafe` | path/db/path_datahub.cpp:230-234 | the slot about to be written holds nothing unread |
| `CircBuff.FullIff` | path/db/path_datahub.cpp:202-216 | the fullness test on index values means that length-1 items are held |
| `CircBuff.EveryRunIsSafe` | path/db/path_datahub.cpp:186-269 | under every interleaving deletions are a prefix of insertions, at most length-1 items are held, nothing unread is overwritten and nothing unwritten is read |
| `CircBuff.EveryRefusalIsJustified` | path/db/path_datahub.cpp:190-269 | a call is refused exactly when the buffer was full or empty at its read of the other index |
| `CircBuff.CallsAreRuns` | path/db/path_datahub.cpp:220-269 | an uninterrupted call, accepted or refused, is the run of these events |
| `CircBuff.NoSlots` | path/db/path_datahub.cpp:205-269 | with length 0 or less every insertion into a fresh buffer is accepted and lost |
| `CircBuff.FaithfulIff` | path/db/path_datahub.cpp:186-269 | deletions are a prefix of insertions in every run exactly when the length is at least 1 |
| `CircBuff.EarlyConstructorsAreSafe` | path/db/path_datahub.cpp:168-184 | the other process may construct its object at any time before an insertion is complete, in any interleaving |
| `CircBuff.LateConstructorSafeIff` | path/db/path_datahub.cpp:168-184 | constructed between calls, it leaves deletions a prefix of insertions in every run from there exactly when nothing is held, whatever was inserted and deleted before |
| `CircBuff.LateConstructorLosesItems` | path/db/path_datahub.cpp:168-184 | constructed while items are held, it makes the next deletion fail |
| `CircBuff.Hub.CreateHubVar` | path/db/path_datahub.cpp:58-63 | a builtin identifier is refused, an existing variable is left alone |
| `CircBuff.PathCircBuff.constructor` | path/db/path_datahub.cpp:168-184 | for any identifiers and length the store is the one that the acts of a construction make: exactly the usable elements and indices are added, indices and new variables are zero, the rest stays; distinct usable identifiers make a fresh buffer |
| `CircBuff.ConstructionMakes` | path/db/path_datahub.cpp:168-184 | which variables exist after a construction, and what each holds |
| `CircBuff.PathCircBuff.IsEmpty` | path/db/path_datahub.cpp:190-200 | the two reads are two consumer steps; undisturbed, true exactly when nothing is held |
| `CircBuff.PathCircBuff.IsFull` | path/db/path_datahub.cpp:205-216 | the two reads are two producer steps; undisturbed, true exactly when length-1 items are held |
| `CircBuff.PathCircBuff.InsertItem` | path/db/path_datahub.cpp:220-243 | the method performs exactly the producer's steps; undisturbed, it succeeds exactly when a slot is free and adds the item |
| `CircBuff.PathCircBuff.DeleteItem` | path/db/path_datahub.cpp:247-269 | the method performs exactly the consumer's steps; undisturbed, it succeeds exactly when something is held and returns the oldest item |
| `ServerSpec.StepInv` | path/db/db_slv.c:343-427 | every command keeps keys unique and no client twice in a trigger list |
| `ServerSpec.StepIsVarStep` | path/db/db_slv.c:343-427 | the variable list refines a map: on each key a command acts as on that variable alone |
| `ServerSpec.RunMatchesHistory` | path/db/db_slv.c:343-681 | after any run a variable exists, and has its size, time and bytes, exactly as the history of its commands says |
| `ServerSpec.RunMatchesTriggers` | path/db/db_slv.c:752-920 | after any run a client has a trigger exactly when it was set and since neither unset, nor failed, nor lost with the variable |
| `ServerSpec.UpdateNotifiesRegistered` | path/db/db_slv.c:456-522 | an update tries exactly the registered clients, each once, in the order in which their triggers were set |
| `ServerSpec.RepliesMatchHistory` | path/db/db_slv.c:343-427 | every reply of every run is the one that the history of the commands before it asks for: CREATE succeeds exactly for a variable that is absent and not too large, UPDATE and DESTROY exactly for one that exists, TRIG_SET exactly for one that exists and has no trigger of the client, TRIG_UNSET never |
| `ServerSpec.ReadAnswers` | path/db/db_slv.c:360-371 | a READ shows the variable, else the oldest one there is, byte by byte and with its time; it faults exactly when there is none |
| `ServerSpec.RunIsByAge` | path/db/db_slv.c:646-681 | variables stay in order of creation, the oldest last |
| `ServerSpec.ReadReturns` | path/db/db_slv.c:360-371 | a read returns the last accepted data byte by byte, or the bad variable exactly when there is none |
| `ServerSpec.BadStaysLastIff` | path/db/db_slv.c:605-625 | the bad variable stays last exactly unless it is destroyed |
| `ServerSpec.RunKeepsBadLast` | path/db/db_slv.c:605-625 | in runs without that command it always is |
| `ServerSpec.DestroyedBadVariable` | path/db/db_slv.c:379-381 | what reads answer once it has been destroyed |
| `Server.Notify` | path/db/db_slv.c:473-518 | the walk tries every client once in list order and leaves, in order, those that were reached |
| `Server.DropAndResume` | path/db/db_slv.c:506-511 | deleting the current node and resuming goes on with the node after it |
| `Server.Slave.constructor` | path/db/db_slv.c:610-624 | a new server holds the bad variable alone |
| `Server.Slave.FindEntry` | path/db/db_slv.c:737-750 | the first entry with the key, or none |
| `Server.Slave.Create` | path/db/db_slv.c:646-681 | a new zeroed variable goes to the front, unless it exists or is too large |
| `Server.Slave.Read` | path/db/db_slv.c:360-371 | the entry found, or the last one |
| `Server.Slave.Update` | path/db/db_slv.c:456-522 | data and time are stored, clients that fail are dropped |
| `Server.Slave.Destroy` | path/db/db_slv.c:683-699 | the entry leaves the list |
| `Server.Slave.TrigSet` | path/db/db_slv.c:752-853 | the client is appended unless it has a trigger |
| `Server.Slave.TrigUnset` | path/db/db_slv.c:855-920 | the client leaves the list |
| `Server.Slave.Serve` | path/db/db_slv.c:343-427 | one command performs exactly one step of the state machine, reply and deliveries included |
| `Server.ServeAll` | path/db/db_slv.c:343-427 | any commands sent to a new server leave the linked lists in the state of their run, with its deliveries, and each reply is the one the history asks for |
| `DList.LinkedDistinct` | path/local/sys_list.c:538-553 | a chain whose backward links match its forward links has no node twice |
| `DList.List.Insert` | path/local/sys_list.c:572-591 | prepends, keeping links, ends and length |
| `DList.List.Append` | path/local/sys_list.c:609-628 | appends, keeping links, ends and length |
| `DList.List.RmFirst` | path/local/sys_list.c:644-665 | removes and returns the first item, if any |
| `DList.List.RmLast` | path/local/sys_list.c:682-703 | removes and returns the last item, if any |
| `DList.List.RmNode` | path/local/sys_list.c:724-754 | removes that node and leaves the cursor on the one before it |
| `DList.List.NthNode` | path/local/sys_list.c:777-797 | the n-th node, or none when n is out of range |
| `DList.List.NthInsert` | path/local/sys_list.c:883-915 | inserts at position n, at the end when n is too large, not at all when n is negative |
| `DList.List.InsertBefore` | path/local/sys_list.c:1109-1131 | inserts just before the node |
| `DList.List.InsertAfter` | path/local/sys_list.c:1154-1179 | inserts just after the node |
| `DList.List.First` | path/local/sys_list.c:946-962 | the first node that matches, or none |
| `DList.List.PqAdd` | path/local/sys_list.c:1044-1086 | the list becomes that of priority insertion |
| `DList.PqInsertAdds` | path/local/sys_list.c:1044-1086 | priority insertion adds exactly one item |
| `DList.PqInsertDescends` | path/local/sys_list.c:1061-1073 | a descending list stays descending |
| `DList.PqInsertStable` | path/local/sys_list.c:1061-1073 | items of equal rank stay in arrival order |
| `DList.PqRunIsStableSort` | path/local/sys_list.c:1044-1086 | any run of insertions is a stable sort of the arrivals |
| `HashSpec.EqualKeysHashEqually` | path/local/st.c:57-60 | keys that compare equal have the same hash |
| `HashSpec.HashIsBase997` | path/local/st.c:528-534 | the string hash, wrapped at every character, is the text read in base 997 and wrapped once |
| `HashSpec.NewSize` | path/local/st.c:103-124 | the first size of the table whose power of two exceeds the argument, and -1 from 2^30 on |
| `HashSpec.NextSize` | path/local/st.c:316-317 | the size after a table size is the next one and larger; only the last has none |
| `HashSpec.NeverRunsOut` | path/local/st.c:256-262 | an int number of entries never asks for a size beyond the table |
| `HashSpec.ChainSearch` | path/local/st.c:216-234 | a search of one chain decides whether the map has the key, and finds its entry; tombstones are invisible |
| `HashSpec.LiveCountIsSize` | path/local/st.c:417-446 | the map has as many keys as there are live entries |
| `HashSpec.AddUnseenIff` | path/local/st.c:295-306 | adding without a search leaves entries that agree with a map exactly when the key was absent |
| `HashSpec.SurvivingIsWalked` | path/local/st.c:467-501 | what a walk leaves of the map is the map without the keys visited and marked for deletion |
| `HashSpec.VisitIsComplete` | path/local/st.c:477-499 | a walk visits every key unless a stop came first |
| `HashSpec.WalkWithoutStop` | path/local/st.c:477-499 | without a stop the map is filtered by the callback |
| `HashSpec.CountKeptIff` | path/local/st.c:488-497 | the count of entries stays right exactly when the callback keeps tombstones or none comes before the first stop |
| `HashSpec.CleanupKeeps` | path/local/st.c:448-465 | sweeping with delete_never keeps the live entries and the whole map |
| `HashTable.MoveAll` | path/local/st.c:319-328 | redistribution loses and adds no entry and puts each where its hash says |
| `HashTable.Table.constructor` | path/local/st.c:139-162 | an empty table with the first size of the table whose power of two exceeds the one asked for |
| `HashTable.Table.Lookup` | path/local/st.c:236-254 | finds exactly the keys of the map, with their records |
| `HashTable.Table.Insert` | path/local/st.c:274-293 | the map gains the record; a known key keeps its stored pointer; the table grows, by one size, exactly when a new key finds 6 entries a bin; tombstones stay |
| `HashTable.Table.AddDirect` | path/local/st.c:295-306 | the same for a key that is absent |
| `HashTable.Table.Rehash` | path/local/st.c:308-332 | the next size, the same entries, the same map, every entry in the bin of its hash |
| `HashTable.Table.CopyOf` | path/local/st.c:334-373 | the same map over chains of its own, each reversed |
| `HashTable.Table.Delete` | path/local/st.c:375-415 | the key leaves the map, its stored pointer and record come back; the three outcomes for the value variable; tombstones stay |
| `HashTable.Table.DeleteSafe` | path/local/st.c:417-446 | the same effect on the map and the value variable, with one more tombstone and every chain of its old length |
| `HashTable.Table.Foreach` | path/local/st.c:467-501 | entries before the first stop leave exactly when the callback says so; the map loses exactly the visited keys so marked; the table stays valid exactly when no tombstone was deleted |
| `HashTable.Table.CleanupSafe` | path/local/st.c:456-465 | exactly the tombstones go; order, map and count stay, and the count is the number of entries left |
| `HashRuns.Perform` | path/local/st.c:236-501 | over any legal run of inserts, direct adds, lookups, deletes, deferred deletes, walks, copies and cleanups the table in use follows the map, answers included |
| `HashRuns.WalkBreaksCount` | path/local/st.c:417-501 | one insert, one deferred delete and a walk that deletes everything leave an empty table whose count is -1 |
| `HashRuns.PlainRunsAreLegal` | path/local/st.c:236-501 | runs of insert, lookup, delete, walk and copy only have to keep clear of the sentinel |
| `HashRuns.ReplayIsLastWrite` | path/local/st.c:274-501 | what a run leaves under a key is its last store not removed since, with the key pointer used first |
| `HashRuns.AnswersAreLastWrites` | path/local/st.c:236-446 | what each lookup and removal of a run reports is the last record stored under the key and not removed since |
| `BitPack.Pack` | can/messages/msg_pack.c:5-35 | the two words are the number that sums every field's low bits at its offset |
| `BitPack.PackLow` | can/messages/msg_pack.c:23-28 | a field below bit 32, straddling or not, is added to that number |
| `BitPack.PackedBits` | can/messages/msg_pack.c:5-35 | bit b of field j is the bit of the two words that lies b above the widths before it |
| `BitPack.Unpack` | can/messages/msg_unpack.c:9-50 | every destination holds its bits of the number, sign-extended where asked |
| `BitPack.ReadLowStraddles` | can/messages/msg_unpack.c:30-38 | a straddling field is put together from both words |
| `BitPack.ExtendByOr` | can/messages/msg_unpack.c:44-45 | or-ing in the ones is sign extension |
| `BitPack.ExtractNumber` | can/messages/msg_unpack.c:9-50 | each field of the packed number is the low bits that were put in |
| `BitPack.RoundTripIff` | can/messages/msg_unpack.c:9-50 | a value survives packing and unpacking exactly when it fits its field, signed or not |
| `BitPack.PackThenUnpack` | can/messages/msg_pack.c:5-35 | unpacking what was packed returns every field's low bits, extended |
| `BitPack.PackedFieldsRestore` | can/messages/msg_pack.c:5-35 | packing the fields of a number restores the bits they cover |
| `BitPack.UnpackThenPack` | can/messages/msg_unpack.c:9-50 | packing what was unpacked gives back the two words, up to the last field |
| `Ring.PushAllIsLastN` | path/local/sys_buff.c:241-245 | a buffer of n places holds the last n items added, oldest first; a list without a limit holds them all |
| `Ring.CircularBuffer.GetCircularIndex` | path/local/sys_buff.c:263-280 | storing into the returned slot adds the item, at the cost of the oldest one when full |
| `Ring.CircularBuffer.Add` | can/drv_common/can_if.c:20-29 | the ring takes the message |
| `Ring.CircularBuffer.PopFirst` | can/drv_common/can_if.c:37-53 | the oldest item leaves, or nothing |
| `Ring.ListBuffer.Add` | path/local/sys_buff.c:191-223 | the list takes the item, at the cost of the oldest one past its limit |
| `Ring.ListBuffer.Flush` | path/local/sys_buff.c:225-239 | items leave in order of arrival; a refused write loses one item |
| `Ring.Fill` | path/local/sys_buff.c:191-223 | what a list holds that was fed any items |
| `Ring.FeedBoth` | path/local/sys_buff.c:191-280 | fed the same items, ring and list hold the same |
| `CanSpec.QueueIsNewest` | can/drv_common/can_if.c:129-176 | in every run at most 10 messages are queued, the newest ones written |
| `CanSpec.NeverDropsOldest` | can/drv_common/can_if.c:144 | adding to the output queue never drops a message |
| `CanSpec.SendsInWriteOrder` | can/drv_common/can_if.c:118-176 | messages reach the controller in an order that never goes back |
| `CanSpec.SendsIff` | can/drv_common/can_if.c:129-176 | in every run a write sends exactly when nothing was waiting or nothing was sent for more than a second, an interrupt exactly when more than one message was waiting, and it is the first waiting message that goes |
| `CanSpec.CountersMatchHistory` | can/drv_common/can_if.c:159-162 | the time kept is that of the last send, and the timeouts counted are the writes that sent although messages were waiting |
| `CanSpec.CalmRunsAreFifo` | can/drv_common/can_if.c:155-176 | without flush and timeout they reach it exactly once, in order, the queue head being the one in flight |
| `CanSpec.MessagesAccountedFor` | can/drv_common/can_if.c:114-127 | every message is queued, taken by an interrupt or thrown out, ten a flush, of which nine are counted |
| `CanSpec.HeadUnsentIff` | can/drv_common/can_if.c:155-170 | the queue head has not been handed over exactly when a flush left it and neither interrupt nor late write came since |
| `CanSpec.LostIff` | can/drv_i82527/can_dev.c:531-540 | the message that an interrupt takes away never reaches the controller exactly in that case |
| `CanSpec.ElevenWritesLoseTheLast` | can/drv_common/can_if.c:118-170 | a run in which that happens |
| `CanSpec.PassesIff` | can/drv_common/can_if.c:83 | a frame passes exactly when it has the filter's id in every bit of the mask; mask 0 takes every frame, the full mask one id |
| `CanSpec.AcceptedAreSelected` | can/drv_common/can_if.c:71-87 | in every run the frames accepted are those that the filter in force on arrival selects, bit by bit |
| `CanSpec.NextRead` | can/drv_common/can_if.c:89-112 | a read returns the selected frame after those read or lost, and an error exactly when there is none |
| `CanSpec.ReadsInOrder` | can/drv_common/can_if.c:71-112 | reads return accepted frames, oldest first and none twice; every accepted frame is read, waiting or counted lost |
| `CanSpec.LosslessIff` | can/drv_common/can_if.c:71-112 | nothing is lost exactly when the reads are the accepted frames in order |
| `CanDriver.Driver.Write` | can/drv_common/can_if.c:129-176 | the method performs the write step |
| `CanDriver.Driver.FlushQ` | can/drv_common/can_if.c:118-127 | only the newest message stays, none if there was only one; what is reported |
| `CanDriver.Driver.InterruptRequestTx` | can/drv_i82527/can_dev.c:531-540 | the method performs the interrupt step |
| `CanDriver.Driver.CanSend` | can/drv_i82527/can_dev.c:550-605 | the queue head is handed to the controller and stays queued |
| `CanDriver.Driver.NewMsg` | can/drv_common/can_if.c:71-87 | a frame is queued exactly when it agrees with the filter under the mask |
| `CanDriver.Driver.Read` | can/drv_common/can_if.c:89-112 | the oldest frame, or an error message |
| `CanDriver.Driver.EmptyInput` | can/drv_common/can_if.c:183-192 | everything goes and is counted |
| `CanDriver.Transmit` | can/drv_common/can_if.c:114-176 | any sequence of writes and interrupts does what the run says |
| `CanDriver.Receive` | can/drv_common/can_if.c:71-112 | any sequence of frames, reads, filter changes and flushes does what the receive run says and returns its messages |
| `Fifo.Queue.Write` | path/local/sys_fifo.c:41-72 | the bytes are appended to the stream |
| `Fifo.Queue.Read` | path/local/sys_fifo.c:86-133 | the smaller of max and what is held, oldest first; the rest of a chunk stays |
| `Fifo.Queue.Flush` | path/local/sys_fifo.c:144-160 | the queue is empty and the number of bytes it held is reported |
| `Fifo.Pump` | path/local/sys_fifo.c:41-133 | over any mix of writes and reads the bytes read are a prefix of those written, and the rest is held |
| `Random.SchrageIsMultiplication` | path/local/sys_lib.c:277-282 | a seed update is multiplication modulo m, and nothing stored exceeds m in size |
| `Random.NeverZero` | path/local/sys_lib.c:268-296 | no seed ever becomes 0 |
| `Random.StepsApart` | path/local/sys_lib.c:277-296 | no two states have the same successor |
| `Random.CorrectionsCombine` | path/local/sys_lib.c:298-306 | the two corrections bring the combination into 1..32362 |
| `Random.HalfScaled` | path/local/sys_lib.c:308 | the result is below one half for exactly half of the combined values |
| `Random.StepNIsPower` | path/local/sys_lib.c:268-296 | after n draws each seed is its first value times the n-th power of its multiplier |
| `Random.Generator.Drand48` | path/local/sys_lib.c:268-309 | one step, and a result strictly between 0 and 1 |
| `Random.Generator.RandRange` | path/local/sys_lib.c:326-338 | strictly inside the bounds, or the minimum |
| `Random.Generator.GetVal` | path/local/sys_lib.c:357-369 | strictly within the range of the mean, on the side that the second draw chooses |
| `Random.Draws` | path/local/sys_lib.c:268-309 | any number of draws from the fixed seeds |
| `Calendar.TableFollowsRule` | path/local/sys_time.c:41-51 | the month table follows the calendar rule |
| `Calendar.ElapsedTable` | path/local/sys_time.c:29-32 | the table of elapsed days agrees with the month table |
| `Calendar.SysTimeDays` | path/local/sys_time.c:541-564 | the days before a date, by the month table |
| `Calendar.TimeSysToNew` | path/local/sys_time.c:939-1006 | succeeds exactly within 1989 to 1995, with what a clock set to midnight on 1 January 1989 shows after that many seconds; hour, minute and second are the time's |
| `Calendar.TimeNewToSys` | path/local/sys_time.c:1026-1060 | the ticks after which that clock shows the date and time, or the error value; fields out of range count on |
| `Calendar.TicksCountSeconds` | path/local/sys_time.c:1051-1052 | every valid date and time is what the clock, advanced second by second by the calendar rule, shows after a tenth of its ticks |
| `Calendar.ClockTicks` | path/local/sys_time.c:1051-1052 | the next second of any date has ten ticks more, over the ends of minutes, days, months, leap Februaries and years |
| `Calendar.TicksAdvance` | path/local/sys_time.c:1051-1052 | one more second, minute, hour or day adds 10, 600, 36000 or 864000 ticks whatever the fields |
| `Calendar.SysThereAndBack` | path/local/sys_time.c:939-1060 | a time comes back without its tenths |
| `Calendar.TicksApart` | path/local/sys_time.c:1026-1060 | different dates and times have different ticks |
| `Calendar.NewThereAndBack` | path/local/sys_time.c:939-1060 | a valid date and time comes back without its tenths |
| `Calendar.IncSysTime` | path/local/sys_time.c:385-399 | the sum, and whether it is in range |
| `Calendar.SysTimeFromMidnight` | path/local/sys_time.c:241-301 | the time modulo a day, exactly up to a day past the largest time |
| `Codec.PackBinaryData` | path/local/pack.c:17-33 | the string is the escaped data and a terminator |
| `Codec.UnpackBinaryData` | path/local/pack.c:39-60 | the decoded bytes that fit, and which of the three cases it was |
| `Codec.PackedDecodes` | path/local/pack.c:14-33 | packed data holds no null, is at most twice as long, and decodes to the data |
| `Codec.DecodedPacksIff` | path/local/pack.c:39-60 | packing what a text decodes to gives the text back exactly when packing could have produced it |
| `Codec.DecodedPacksNormal` | path/local/pack.c:39-60 | packing what any text decodes to gives the text with EOT for every other character that stands for an escaped null |
| `Codec.PackThenUnpack` | path/local/pack.c:17-60 | unpacking packed data into a buffer too small, right or too large |
| `Arma.RunStaysInside` | path/local/sys_arma.c:151-204 | an averaging filter stays within its inputs, with a relative input bound too, or within its absolute input bounds, over every run |
| `Arma.RunObeys` | path/local/sys_arma.c:151-204 | in every step of every run the stored input is the one nearest to what was fed, and the output the one nearest to the weighted sum, that the bound type allows |
| `Arma.RateIsLimited` | path/local/sys_arma.c:166-169 | with a relative input bound, fed one value for n steps, the stored input heads for it at the bound's pace, arrives exactly and stays |
| `Arma.UnboundedIsLinear` | path/local/sys_arma.c:178-179 | without bounds the responses to two inputs add up |
| `Arma.ImpulseResponse` | path/local/sys_arma.c:178-179 | and the response to a single one is coefX0, then coefX0 * coefY1 + coefX1 fading by coefY1 a step |
| `Arma.OutputMovesWithinIff` | path/local/sys_arma.c:188-192 | the documented relative output bound holds for every input exactly when the prior input equals the prior output, or the input has no weight and the mix stays clear of the bound |
| `Arma.OutputJumps` | path/local/sys_arma.c:188-192 | a run from a fresh filter in which it is exceeded |
| `Arma.Filter.GetValue` | path/local/sys_arma.c:151-204 | the method performs one step |
| `Arma.Feed` | path/local/sys_arma.c:151-204 | any inputs fed one after the other give the outputs and the state of the run |

## Left out

- Failing allocations, `free` and everything after it: every allocation succeeds.
- The QNX resource manager, signals, sockets, timers and message queues: a request is one atomic step, a
  trigger delivery succeeds or fails as its client is up or down.
- Registers, bit timing and interrupts of the CAN controllers: handing a message over is an entry in a log.
  The SJA1000 driver treats its queues as the i82527 driver does.
- Server: login, logout, the dumps and the `cmd` field of an entry are not modelled, and all clients use one transport.
- Server.Slave.Update: an UPDATE of a variable larger than the value area (128 bytes), which the guard of
  CREATE lets exist, is excluded; the source copies past the area. The client library creates none.
- Server.Slave.Serve: excludes the same command, as does `ServeAll`.
- ServerSpec.StepInv: excludes the same command, as do the other theorems about steps and runs (`Copyable`,
  `AllCopyable`).
- Hash table: chains are sequences, so the links within a chain are not modelled; the callback of `st_foreach`
  is a function of key and record and cannot change the table.
- HashTable.Table.constructor: requires a size below 2^30; from there on the source asks for -1 bins.
- HashTable.Table.AddDirect: requires the key to be absent, which the source does not check; `AddUnseenIff`
  says what that is worth.
- HashRuns.Perform: excludes walks that delete tombstones, after which the count of entries is wrong, and
  direct adds of a key that is present (`AddUnseenIff`).
- HashTable.Table.Insert: requires fewer than 2^31 - 1 entries, where the source's counter would overflow.
- HashTable.Table.DeleteSafe: the sentinel is one per table, and neither a key nor a record of its user.
- Byte queue: chunks are a sequence of values; sums of sizes do not overflow.
- BitPack.Unpack: destinations are whole words; writing through pointers to narrower fields, and the
  per-message wrappers, are not modelled.
- Ring.ListBuffer.Add: the refusal of a null pointer or of no bytes is not modelled.
- Ring.CircularBuffer.constructor: a ring of no places, for which the source allocates nothing, is excluded.
- Codec.UnpackBinaryData: requires a text whose escapes are complete; the source reads past the terminator of one
  that is cut off in the middle of an escape.
- Floating point: the seeds of the generator are whole numbers, its result and the filter are reals.
- Calendar.SysTimeDays: requires a year of the table and a month of the year; for others the source sums
  other rows or reads outside its tables.
- Calendar.TimeSysToNew: `long` is unbounded here; with four bytes the last times of 1995 cannot be written.
- Arma.RunObeys: requires a lower bound not above the upper one; between crossed bounds there is no nearest value.
- Arma.Filter.constructor: an unknown bound type, for which the source returns NULL, cannot be written.
- The singly linked lists and the remaining searches of sys_list.c, the message-size fragmentation of the CAN
  database tests, matrix, string, ini, log and command-line code.
