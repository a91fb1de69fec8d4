/** The transmit and receive sides of the CAN driver (can/drv_common/can_if.c and the transmit
    interrupt of can/drv_i82527/can_dev.c) as step functions, and what every run of them keeps.
    Handing a message to the controller is recorded in a log. */
module CanSpec {
  import opened Bits
  import opened Ring

  datatype Msg = Msg(id: Word, size: nat, data: seq<nat>, error: int)

  /** CAN_IN_BUFFER_SIZE and CAN_OUT_BUFFER_SIZE. */
  const CAN_BUFFER_SIZE: nat := 150

  // ------------------------------------------------------------------ transmit

  /** The output queue, what the controller was handed so far, and the driver's counters. */
  datatype Tx = Tx(queue: seq<Msg>, sent: seq<Msg>, last: int, timeouts: nat, flushed: int)

  datatype TxEvent = Write(m: Msg, now: int) | Interrupt(now: int)

  /** can_send: the head of the queue goes to the controller and stays in the queue. */
  function Send(s: Tx, now: int): Tx
    requires s.queue != []
  {
    s.(sent := s.sent + [s.queue[0]], last := now)
  }

  /** can_dev_flush_q: what stays, and what it reports. */
  function FlushKeeps(queue: seq<Msg>): seq<Msg> {
    if |queue| <= 1 then [] else [queue[|queue| - 1]]
  }

  function FlushReports(queue: seq<Msg>): nat {
    if |queue| <= 2 then 0 else |queue| - 2
  }

  function Queued(s: Tx, m: Msg): seq<Msg> {
    Push(s.queue, CAN_BUFFER_SIZE, m.(error := 0))
  }

  predicate Late(s: Tx, now: int) {
    now - s.last > 1
  }

  /** can_dev_write. */
  function StepWrite(s: Tx, m: Msg, now: int): Tx {
    var added := s.(queue := Queued(s, m));
    if |added.queue| == 1 then Send(added, now)
    else
      var retried := if Late(s, now) then Send(added, now).(timeouts := s.timeouts + 1) else added;
      if |added.queue| > 10
      then retried.(queue := FlushKeeps(added.queue), flushed := s.flushed + FlushReports(added.queue))
      else retried
  }

  /** Interrupt_Request_Tx. */
  function StepInterrupt(s: Tx, now: int): Tx {
    if |s.queue| <= 1 then s.(queue := []) else Send(s.(queue := s.queue[1..]), now)
  }

  function StepTx(s: Tx, e: TxEvent): Tx {
    match e
    case Write(m, now) => StepWrite(s, m, now)
    case Interrupt(now) => StepInterrupt(s, now)
  }

  function RunTx(run: seq<TxEvent>, start: int): Tx {
    if run == [] then Tx([], [], start, 0, 0)
    else StepTx(RunTx(run[..|run| - 1], start), run[|run| - 1])
  }

  function Written(run: seq<TxEvent>): seq<Msg> {
    if run == [] then []
    else
      var e := run[|run| - 1];
      Written(run[..|run| - 1]) + if e.Write? then [e.m.(error := 0)] else []
  }

  /** The writes whose message was handed to the controller, send by send. */
  function Sends(run: seq<TxEvent>, start: int): seq<int> {
    if run == [] then []
    else
      var before := run[..|run| - 1];
      Sends(before, start) +
      if Transmits(RunTx(before, start), run[|run| - 1]) then [SendIndex(run, start)] else []
  }

  /** The queue from which a step would send. */
  function QueueAtSend(s: Tx, e: TxEvent): seq<Msg> {
    match e
    case Write(m, _) => Queued(s, m)
    case Interrupt(_) => if s.queue == [] then [] else s.queue[1..]
  }

  predicate Transmits(s: Tx, e: TxEvent) {
    match e
    case Write(m, now) => |Queued(s, m)| == 1 || Late(s, now)
    case Interrupt(_) => |s.queue| > 1
  }

  predicate Flushes(s: Tx, e: TxEvent) {
    e.Write? && |Queued(s, e.m)| > 10
  }

  function Head(run: seq<TxEvent>, start: int): int {
    |Written(run)| - |RunTx(run, start).queue|
  }

  /** In every run at most 10 messages are queued, and they are the newest ones written: the queue
      never comes near the 150 places at which adding would drop its oldest message. */
  lemma {:induction false} QueueIsNewest(run: seq<TxEvent>, start: int)
    ensures var s, w := RunTx(run, start), Written(run);
      |s.queue| <= 10 && |s.queue| <= |w| && s.queue == w[|w| - |s.queue|..]
  {
    if run != [] {
      var before, e := run[..|run| - 1], run[|run| - 1];
      QueueIsNewest(before, start);
    }
  }

  lemma NeverDropsOldest(run: seq<TxEvent>, start: int, m: Msg)
    ensures Queued(RunTx(run, start), m) == RunTx(run, start).queue + [m.(error := 0)]
  {
    QueueIsNewest(run, start);
  }

  /** The write whose message the last step sent, if it sent one. */
  function SendIndex(run: seq<TxEvent>, start: int): int
    requires run != []
  {
    |Written(run)| - |QueueAtSend(RunTx(run[..|run| - 1], start), run[|run| - 1])|
  }

  /** One step from a state whose queue holds the newest of the messages written. */
  lemma StepFrom(s: Tx, w: seq<Msg>, e: TxEvent)
    requires |s.queue| <= 10 && |s.queue| <= |w| && s.queue == w[|w| - |s.queue|..]
    ensures var w' := w + if e.Write? then [e.m.(error := 0)] else [];
      var t, k := StepTx(s, e), |w'| - |QueueAtSend(s, e)|;
      && |w| - |s.queue| <= |w'| - |t.queue|
      && if Transmits(s, e)
         then 0 <= k < |w'| && |w| - |s.queue| <= k <= |w'| - |t.queue| && t.sent == s.sent + [w'[k]]
         else t.sent == s.sent
  {
  }

  lemma StepSends(run: seq<TxEvent>, start: int)
    requires run != []
    ensures var before, e, k := run[..|run| - 1], run[|run| - 1], SendIndex(run, start);
      && Head(before, start) <= Head(run, start)
      && Written(before) <= Written(run)
      && if Transmits(RunTx(before, start), e)
         then 0 <= k < |Written(run)| && Head(before, start) <= k <= Head(run, start) &&
              RunTx(run, start).sent == RunTx(before, start).sent + [Written(run)[k]]
         else RunTx(run, start).sent == RunTx(before, start).sent
  {
    var before, e := run[..|run| - 1], run[|run| - 1];
    QueueIsNewest(before, start);
    StepFrom(RunTx(before, start), Written(before), e);
    assert RunTx(run, start) == StepTx(RunTx(before, start), e);
    assert Written(run) == Written(before) + if e.Write? then [e.m.(error := 0)] else [];
    hide RunTx, Written, StepTx, QueueAtSend, Transmits;
  }

  predicate SendsFit(sends: seq<int>, sent: seq<Msg>, w: seq<Msg>, head: int) {
    && |sent| == |sends|
    && (forall i :: 0 <= i < |sends| ==> 0 <= sends[i] < |w| && sends[i] <= head && sent[i] == w[sends[i]])
    && (forall i, j :: 0 <= i < j < |sends| ==> sends[i] <= sends[j])
  }

  lemma SendsFitMore(sends: seq<int>, sent: seq<Msg>, w: seq<Msg>, head: int, w': seq<Msg>, head': int, k: int)
    requires SendsFit(sends, sent, w, head) && w <= w' && head <= head'
    ensures SendsFit(sends, sent, w', head')
    ensures head <= k <= head' && 0 <= k < |w'| ==> SendsFit(sends + [k], sent + [w'[k]], w', head')
  {
  }

  /** What reaches the controller are written messages, in an order that never goes back: no send is
      for a message older than an earlier send, and none for one that has left the queue. */
  lemma {:induction false} SendsInWriteOrder(run: seq<TxEvent>, start: int)
    ensures SendsFit(Sends(run, start), RunTx(run, start).sent, Written(run), Head(run, start))
  {
    if run != [] {
      var before := run[..|run| - 1];
      SendsInWriteOrder(before, start);
      StepSends(run, start);
      SendsFitMore(Sends(before, start), RunTx(before, start).sent, Written(before), Head(before, start),
        Written(run), Head(run, start), SendIndex(run, start));
      hide SendsFit, RunTx, Head;
    }
  }

  // ------------------------------------------------------------------ when the driver sends

  /** When something was last handed over: the time of the last event that added to what was sent. */
  function SentAt(run: seq<TxEvent>, start: int): int {
    if run == [] then start
    else
      var before := run[..|run| - 1];
      if |RunTx(run, start).sent| > |RunTx(before, start).sent| then run[|run| - 1].now else SentAt(before, start)
  }

  /** How many writes sent something although something was waiting already. */
  function Retries(run: seq<TxEvent>, start: int): nat {
    if run == [] then 0
    else
      var before := run[..|run| - 1];
      var s, t := RunTx(before, start), RunTx(run, start);
      Retries(before, start) + if run[|run| - 1].Write? && s.queue != [] && |t.sent| > |s.sent| then 1 else 0
  }

  lemma {:induction false} CountersMatchHistory(run: seq<TxEvent>, start: int)
    ensures RunTx(run, start).last == SentAt(run, start)
    ensures RunTx(run, start).timeouts == Retries(run, start)
  {
    if run != [] {
      var before := run[..|run| - 1];
      CountersMatchHistory(before, start);
      QueueIsNewest(before, start);
    }
  }

  /** In every run a write sends exactly when nothing was waiting or nothing was sent for more than a
      second, an interrupt exactly when more than the message it takes was waiting. Either sends one
      message: the first of those that wait, the new one included and the one taken left out. */
  lemma SendsIff(run: seq<TxEvent>, start: int, e: TxEvent)
    ensures var s, t := RunTx(run, start), RunTx(run + [e], start);
      var waiting := if e.Write? then s.queue + [e.m.(error := 0)] else if s.queue == [] then [] else s.queue[1..];
      if (if e.Write? then s.queue == [] || e.now - SentAt(run, start) > 1 else |s.queue| > 1)
      then waiting != [] && t.sent == s.sent + [waiting[0]]
      else t.sent == s.sent
  {
    CountersMatchHistory(run, start);
    QueueIsNewest(run, start);
    assert (run + [e])[..|run|] == run;
  }

  // ------------------------------------------------------------------ without flush and timeout

  /** No write finds the last send too long ago, none finds ten messages waiting. */
  predicate Calm(run: seq<TxEvent>, start: int) {
    run == [] ||
    (var before, e := RunTx(run[..|run| - 1], start), run[|run| - 1];
     && Calm(run[..|run| - 1], start)
     && !Flushes(before, e)
     && (e.Write? ==> before.queue == [] || !Late(before, e.now)))
  }

  /** Then every message is handed over exactly once, in the order of the writes; the last one handed
      over is the head of the queue. */
  lemma {:induction false} CalmRunsAreFifo(run: seq<TxEvent>, start: int)
    requires Calm(run, start)
    ensures var s, w := RunTx(run, start), Written(run);
      && |s.queue| <= |w| && s.sent == w[..|w| - |s.queue| + if s.queue == [] then 0 else 1]
      && (s.queue != [] ==> s.sent != [] && s.sent[|s.sent| - 1] == s.queue[0])
      && s.timeouts == 0 && s.flushed == 0
  {
    if run != [] {
      var before := run[..|run| - 1];
      CalmRunsAreFifo(before, start);
      QueueIsNewest(before, start);
    }
  }

  // ------------------------------------------------------------------ what a flush loses

  /** Interrupts that took a message from the queue, and flushes. */
  function Completed(run: seq<TxEvent>, start: int): nat {
    if run == [] then 0
    else
      var before := run[..|run| - 1];
      Completed(before, start) + if run[|run| - 1].Interrupt? && RunTx(before, start).queue != [] then 1 else 0
  }

  function FlushCount(run: seq<TxEvent>, start: int): nat {
    if run == [] then 0
    else
      var before := run[..|run| - 1];
      FlushCount(before, start) + if Flushes(RunTx(before, start), run[|run| - 1]) then 1 else 0
  }

  /** Every written message is still queued, was taken by an interrupt, or was thrown out, ten by each
      flush; the driver's counter admits to nine of the ten. */
  lemma {:induction false} MessagesAccountedFor(run: seq<TxEvent>, start: int)
    ensures var s, n := RunTx(run, start), FlushCount(run, start);
      |Written(run)| == |s.queue| + Completed(run, start) + 10 * n && s.flushed == 9 * n
  {
    if run != [] {
      MessagesAccountedFor(run[..|run| - 1], start);
      QueueIsNewest(run[..|run| - 1], start);
    }
  }

  /** The head of the queue was not handed over: a flush left it there, and since then no interrupt
      came and no late write. */
  predicate Stranded(run: seq<TxEvent>, start: int) {
    run != [] &&
    (var before, e := RunTx(run[..|run| - 1], start), run[|run| - 1];
     && e.Write?
     && (Flushes(before, e) || (before.queue != [] && !Late(before, e.now) && Stranded(run[..|run| - 1], start))))
  }

  /** How a step moves the head, and what it may send. */
  lemma StepHead(run: seq<TxEvent>, start: int)
    requires run != [] && RunTx(run, start).queue != []
    ensures var before, e := run[..|run| - 1], run[|run| - 1];
      var s := RunTx(before, start);
      && (Transmits(s, e) <==> e.Interrupt? || s.queue == [] || Late(s, e.now))
      && SendIndex(run, start) == (if e.Write? then Head(before, start) else Head(run, start))
      && (e.Interrupt? ==> Head(run, start) == Head(before, start) + 1)
      && (e.Write? && !Flushes(s, e) ==> Head(run, start) == Head(before, start))
      && (e.Write? && Flushes(s, e) ==> Head(run, start) > Head(before, start) && s.queue != [])
  {
    QueueIsNewest(run[..|run| - 1], start);
  }

  /** Exactly then the head of the queue has not reached the controller. */
  lemma {:induction false} HeadUnsentIff(run: seq<TxEvent>, start: int)
    requires RunTx(run, start).queue != []
    ensures Head(run, start) in Sends(run, start) <==> !Stranded(run, start)
  {
    if run != [] {
      var before, e := run[..|run| - 1], run[|run| - 1];
      hide RunTx, Head, SendIndex, Transmits, Flushes, Late;
      StepHead(run, start);
      SendsInWriteOrder(before, start);
      if RunTx(before, start).queue != [] {
        HeadUnsentIff(before, start);
      }
    }
  }

  lemma NextSend(run: seq<TxEvent>, start: int, k: int)
    requires run != [] && k < Head(run[..|run| - 1], start)
    ensures k < Head(run, start)
    ensures k in Sends(run, start) <==> k in Sends(run[..|run| - 1], start)
  {
    StepSends(run, start);
  }

  lemma {:induction false} LaterSends(run: seq<TxEvent>, more: seq<TxEvent>, start: int, k: int)
    requires k < Head(run, start)
    ensures k < Head(run + more, start)
    ensures k in Sends(run + more, start) <==> k in Sends(run, start)
  {
    if more == [] {
      assert run + more == run;
    } else {
      hide Sends, Head;
      var n, all := |more| - 1, run + more;
      assert all[..|all| - 1] == run + more[..n];
      LaterSends(run, more[..n], start, k);
      NextSend(all, start, k);
    }
  }

  /** The message that an interrupt takes from the queue never reaches the controller, whatever
      follows, exactly when it was stranded. */
  lemma LostIff(run: seq<TxEvent>, now: int, more: seq<TxEvent>, start: int)
    requires RunTx(run, start).queue != []
    ensures Head(run, start) !in Sends(run + [Interrupt(now)] + more, start) <==> Stranded(run, start)
  {
    var k, next := Head(run, start), run + [Interrupt(now)];
    assert next[..|run|] == run;
    HeadUnsentIff(run, start);
    QueueIsNewest(run, start);
    LaterSends(next, more, start, k);
  }

  function Burst(m: Msg, now: int, n: nat): seq<TxEvent> {
    if n == 0 then [] else Burst(m, now, n - 1) + [Write(m, now)]
  }

  lemma {:induction false} BurstQueues(m: Msg, now: int, n: nat)
    requires n <= 10
    ensures |RunTx(Burst(m, now, n), now).queue| == n
  {
    if n > 0 {
      BurstQueues(m, now, n - 1);
      assert Burst(m, now, n)[..n - 1] == Burst(m, now, n - 1) by { BurstLength(m, now, n - 1); }
      BurstLength(m, now, n);
    }
  }

  lemma {:induction false} BurstLength(m: Msg, now: int, n: nat)
    ensures |Burst(m, now, n)| == n
  {
    if n > 0 {
      BurstLength(m, now, n - 1);
    }
  }

  /** It does happen: eleven writes in a row, then the interrupt of the first, and the eleventh is
      gone without ever having been sent. */
  lemma ElevenWritesLoseTheLast(m: Msg, now: int, more: seq<TxEvent>)
    ensures var run := Burst(m, now, 11);
      && RunTx(run, now).queue == [m.(error := 0)]
      && Head(run, now) !in Sends(run + [Interrupt(now)] + more, now)
  {
    var run := Burst(m, now, 11);
    BurstLength(m, now, 10);
    assert run[..10] == Burst(m, now, 10);
    BurstQueues(m, now, 10);
    LostIff(run, now, more, now);
  }

  // ------------------------------------------------------------------ receive

  datatype Rx = Rx(queue: seq<Msg>, id: Word, mask: Word)

  datatype RxEvent = Arrive(m: Msg) | Take | EmptyQ | Filter(id: Word, mask: Word)

  /** The test of can_new_msg. */
  predicate Passes(s: Rx, m: Msg) {
    And(s.id, s.mask) == And(m.id, s.mask)
  }

  function StepRx(s: Rx, e: RxEvent): Rx {
    match e
    case Arrive(m) => if Passes(s, m) then s.(queue := Push(s.queue, CAN_BUFFER_SIZE, m)) else s
    case Take => if s.queue == [] then s else s.(queue := s.queue[1..])
    case EmptyQ => s.(queue := [])
    case Filter(id, mask) => s.(id := id, mask := mask)
  }

  /** What can_dev_read returns. */
  function ReadReply(queue: seq<Msg>): Msg {
    if queue == [] then Msg(0, 0, [0, 0, 0, 0, 0, 0, 0, 0], 1) else queue[0].(error := 0)
  }

  /** A run with its history: the frames that passed the filter in force when they arrived, the
      messages that the reads returned and which accepted frames they were, and how many frames were
      overwritten because 150 were waiting or thrown out by can_dev_empty_q. */
  datatype RxTrace = RxTrace(rx: Rx, accepted: seq<Msg>, got: seq<Msg>, taken: seq<int>, lost: nat)

  function Trace(t: RxTrace, e: RxEvent): RxTrace {
    var queue, after := t.rx.queue, t.(rx := StepRx(t.rx, e));
    match e
    case Arrive(m) =>
      if Passes(t.rx, m)
      then after.(accepted := t.accepted + [m], lost := t.lost + if |queue| >= CAN_BUFFER_SIZE then 1 else 0)
      else after
    case Take =>
      if queue == [] then after
      else after.(got := t.got + [ReadReply(queue)], taken := t.taken + [|t.accepted| - |queue|])
    case EmptyQ => after.(lost := t.lost + |queue|)
    case Filter(_, _) => after
  }

  function RunRx(run: seq<RxEvent>, id: Word, mask: Word): RxTrace {
    if run == [] then RxTrace(Rx([], id, mask), [], [], [], 0)
    else Trace(RunRx(run[..|run| - 1], id, mask), run[|run| - 1])
  }

  predicate TakenFit(taken: seq<int>, got: seq<Msg>, accepted: seq<Msg>, head: int) {
    && |taken| == |got| && head <= |accepted|
    && (forall i :: 0 <= i < |taken| ==> 0 <= taken[i] < head && got[i] == accepted[taken[i]].(error := 0))
    && (forall i, j :: 0 <= i < j < |taken| ==> taken[i] < taken[j])
  }

  lemma TakenFitMore(taken: seq<int>, got: seq<Msg>, accepted: seq<Msg>, head: int, accepted': seq<Msg>, head': int)
    requires TakenFit(taken, got, accepted, head) && accepted <= accepted' && head <= head' <= |accepted'|
    ensures TakenFit(taken, got, accepted', head')
    ensures 0 <= head < head' ==>
              TakenFit(taken + [head], got + [accepted'[head].(error := 0)], accepted', head')
  {
  }

  predicate RxOk(t: RxTrace) {
    var queue, accepted := t.rx.queue, t.accepted;
    && |queue| <= CAN_BUFFER_SIZE && |queue| <= |accepted| && queue == accepted[|accepted| - |queue|..]
    && TakenFit(t.taken, t.got, accepted, |accepted| - |queue|)
    && |accepted| == |t.got| + |queue| + t.lost
  }

  lemma TraceOk(t: RxTrace, e: RxEvent)
    requires RxOk(t)
    ensures RxOk(Trace(t, e))
  {
    var after, head := Trace(t, e), |t.accepted| - |t.rx.queue|;
    TakenFitMore(t.taken, t.got, t.accepted, head, after.accepted, |after.accepted| - |after.rx.queue|);
    assert t.rx.queue != [] ==> t.rx.queue[0] == t.accepted[head];
    hide TakenFit, Passes;
  }

  /** In every run the queue holds the newest accepted frames, at most 150; the reads return accepted
      frames, oldest first and none twice; and every accepted frame was read, is waiting, or was
      overwritten by a newer one or thrown out. */
  lemma {:induction false} ReadsInOrder(run: seq<RxEvent>, id: Word, mask: Word)
    ensures RxOk(RunRx(run, id, mask))
  {
    if run != [] {
      ReadsInOrder(run[..|run| - 1], id, mask);
      TraceOk(RunRx(run[..|run| - 1], id, mask), run[|run| - 1]);
      hide Trace, RxOk;
    }
  }

  // ------------------------------------------------------------------ which frames, and what a read says

  /** The frame has the id of the filter in every bit that the mask selects. */
  ghost predicate Selects(id: Word, mask: Word, frame: Word) {
    forall k: nat :: k < 32 && Bit(mask, k) ==> (Bit(id, k) <==> Bit(frame, k))
  }

  /** The test of can_new_msg is that; a mask of 0 takes every frame, the full mask one id. */
  lemma PassesIff(s: Rx, m: Msg)
    ensures Passes(s, m) <==> Selects(s.id, s.mask, m.id)
    ensures s.mask == 0 ==> Passes(s, m)
    ensures s.mask == WORD - 1 ==> (Passes(s, m) <==> m.id == s.id)
  {
    var a, b := And(s.id, s.mask), And(m.id, s.mask);
    hide And, Bit;
    forall k: nat
      ensures (Bit(a, k) <==> Bit(s.id, k) && Bit(s.mask, k)) && (Bit(b, k) <==> Bit(m.id, k) && Bit(s.mask, k))
    {
      AndBits(s.id, s.mask, k);
      AndBits(m.id, s.mask, k);
    }
    Pow2Word();
    if Selects(s.id, s.mask, m.id) {
      AndBelow(s.id, s.mask);
      AndBelow(m.id, s.mask);
      SameBits(a, b, 32);
    }
    AndMask(s.id, 32);
    AndMask(m.id, 32);
  }

  /** The filter in force after a run. */
  function FilterAfter(run: seq<RxEvent>, id: Word, mask: Word): (Word, Word) {
    if run == [] then (id, mask)
    else
      var e := run[|run| - 1];
      if e.Filter? then (e.id, e.mask) else FilterAfter(run[..|run| - 1], id, mask)
  }

  /** The frames that the filter in force when they came selects. */
  ghost function Selected(run: seq<RxEvent>, id: Word, mask: Word): seq<Msg> {
    if run == [] then []
    else
      var before, e := run[..|run| - 1], run[|run| - 1];
      var filter := FilterAfter(before, id, mask);
      Selected(before, id, mask) + if e.Arrive? && Selects(filter.0, filter.1, e.m.id) then [e.m] else []
  }

  /** Exactly those are accepted, over every run. */
  lemma {:induction false} AcceptedAreSelected(run: seq<RxEvent>, id: Word, mask: Word)
    ensures var t := RunRx(run, id, mask);
      t.accepted == Selected(run, id, mask) && (t.rx.id, t.rx.mask) == FilterAfter(run, id, mask)
  {
    if run != [] {
      var before, e := run[..|run| - 1], run[|run| - 1];
      AcceptedAreSelected(before, id, mask);
      hide Passes, Selects;
      if e.Arrive? {
        PassesIff(RunRx(before, id, mask).rx, e.m);
      }
    }
  }

  /** What the next read returns: the selected frame after those read or lost, without an error, or an
      error when there is none. */
  lemma NextRead(run: seq<RxEvent>, id: Word, mask: Word)
    ensures var t, frames := RunRx(run, id, mask), Selected(run, id, mask);
      var reply, n := ReadReply(t.rx.queue), |t.got| + t.lost;
      && n <= |frames|
      && (reply.error != 0 <==> n == |frames|)
      && (n < |frames| ==> reply == frames[n].(error := 0))
  {
    ReadsInOrder(run, id, mask);
    AcceptedAreSelected(run, id, mask);
    hide RunRx, Selected, TakenFit;
  }

  lemma FitRange(taken: seq<int>, got: seq<Msg>, accepted: seq<Msg>, k: int)
    requires TakenFit(taken, got, accepted, k) && |taken| == k
    ensures taken == Range(k)
  {
    OnlyRange(taken, k);
  }

  /** Nothing is lost exactly when the reads so far are the accepted frames so far, in order, up to
      those still waiting. */
  lemma LosslessIff(run: seq<RxEvent>, id: Word, mask: Word)
    ensures var t := RunRx(run, id, mask);
      t.lost == 0 <==> t.taken == Range(|t.accepted| - |t.rx.queue|)
  {
    hide RunRx, TakenFit, Range;
    ReadsInOrder(run, id, mask);
    var t := RunRx(run, id, mask);
    var k := |t.accepted| - |t.rx.queue|;
    assert |t.taken| + t.lost == k by { FitLength(t.taken, t.got, t.accepted, k); }
    if t.lost == 0 {
      FitRange(t.taken, t.got, t.accepted, k);
    }
  }

  lemma FitLength(taken: seq<int>, got: seq<Msg>, accepted: seq<Msg>, k: int)
    requires TakenFit(taken, got, accepted, k)
    ensures |taken| == |got|
  {
  }

  function Range(k: int): (r: seq<int>)
    ensures |r| == (if k < 0 then 0 else k)
  {
    if k <= 0 then [] else Range(k - 1) + [k - 1]
  }

  /** k increasing numbers from 0 to k - 1 are all of them. */
  lemma {:induction false} OnlyRange(s: seq<int>, k: nat)
    requires |s| == k && forall i :: 0 <= i < k ==> 0 <= s[i] < k
    requires forall i, j :: 0 <= i < j < k ==> s[i] < s[j]
    ensures s == Range(k)
  {
    if k > 0 {
      AtLeastIndex(s, k - 1);
      assert s[k - 1] == k - 1;
      OnlyRange(s[..k - 1], k - 1);
      assert s == s[..k - 1] + [k - 1];
    }
  }

  lemma {:induction false} AtLeastIndex(s: seq<int>, i: nat)
    requires i < |s| && s[0] >= 0
    requires forall i, j :: 0 <= i < j < |s| ==> s[i] < s[j]
    ensures s[i] >= i
  {
    if i > 0 {
      AtLeastIndex(s, i - 1);
    }
  }
}
