/** The CAN driver itself: two rings, a filter and the counters, updated in place by the calls of
    can/drv_common/can_if.c and by the transmit interrupt. The clock is a parameter. */
module CanDriver {
  import opened Bits
  import opened Ring
  import opened CanSpec

  class Driver {
    const inBuff: CircularBuffer<Msg>
    const outBuff: CircularBuffer<Msg>
    var filterId: Word
    var filterMask: Word
    var lastTimeCanSent: int
    var canTimeoutCount: nat
    var txBufferFlush: int
    /** What the controller was handed. */
    ghost var sent: seq<Msg>

    ghost predicate Valid()
      reads this, inBuff, outBuff
    {
      && inBuff.Valid() && outBuff.Valid() && inBuff.size == outBuff.size == CAN_BUFFER_SIZE
      && inBuff != outBuff && inBuff.data != outBuff.data
    }

    ghost function TxState(): Tx
      requires Valid()
      reads this, inBuff, outBuff, outBuff.data
    {
      Tx(outBuff.Contents(), sent, lastTimeCanSent, canTimeoutCount, txBufferFlush)
    }

    ghost function RxState(): Rx
      requires Valid()
      reads this, inBuff, outBuff, inBuff.data
    {
      Rx(inBuff.Contents(), filterId, filterMask)
    }

    constructor (id: Word, mask: Word)
      ensures Valid() && fresh(inBuff) && fresh(outBuff) && fresh(inBuff.data) && fresh(outBuff.data)
      ensures TxState() == RunTx([], 0) && RxState() == Rx([], id, mask)
    {
      inBuff := new CircularBuffer<Msg>(CAN_BUFFER_SIZE);
      outBuff := new CircularBuffer<Msg>(CAN_BUFFER_SIZE);
      filterId, filterMask := id, mask;
      lastTimeCanSent, canTimeoutCount, txBufferFlush := 0, 0, 0;
      sent := [];
    }

    /** can_send. */
    method CanSend(now: int)
      requires Valid() && outBuff.count > 0
      modifies this
      ensures Valid() && TxState() == Send(old(TxState()), now) && RxState() == old(RxState())
    {
      var msg := outBuff.ReadFirst();
      sent := sent + [msg];
      lastTimeCanSent := now;
    }

    /** can_dev_flush_q. */
    method FlushQ() returns (j: nat)
      requires Valid()
      modifies outBuff
      ensures Valid() && RxState() == old(RxState())
      ensures TxState() == old(TxState()).(queue := FlushKeeps(old(outBuff.Contents())))
      ensures j == FlushReports(old(outBuff.Contents()))
    {
      hide Window;
      ghost var q := outBuff.Contents();
      j := 0;
      var found, dummy := outBuff.PopFirst();
      while outBuff.count > 1
        invariant Valid() && RxState() == old(RxState())
        invariant TxState() == old(TxState()).(queue := outBuff.Contents())
        invariant outBuff.count <= |q| && outBuff.Contents() == q[|q| - outBuff.count..]
        invariant j == |q| - 1 - outBuff.count || (q == [] && j == 0)
        invariant |q| <= 1 ==> outBuff.count == 0 && j == 0
        invariant |q| > 1 ==> outBuff.count >= 1
        decreases outBuff.count
      {
        found, dummy := outBuff.PopFirst();
        j := j + 1;
      }
    }

    /** can_dev_write. */
    method Write(m: Msg, now: int)
      requires Valid()
      modifies this, outBuff, outBuff.data
      ensures Valid() && RxState() == old(RxState())
      ensures TxState() == StepWrite(old(TxState()), m, now)
    {
      hide Window;
      outBuff.Add(m.(error := 0));
      if outBuff.count == 1 {
        CanSend(now);
      } else {
        if now - lastTimeCanSent > 1 {
          canTimeoutCount := canTimeoutCount + 1;
          CanSend(now);
        }
        if outBuff.count > 10 {
          var j := FlushQ();
          txBufferFlush := txBufferFlush + j;
        }
      }
    }

    /** Interrupt_Request_Tx. */
    method InterruptRequestTx(now: int)
      requires Valid()
      modifies this, outBuff
      ensures Valid() && RxState() == old(RxState())
      ensures TxState() == StepInterrupt(old(TxState()), now)
    {
      var found, msg := outBuff.PopFirst();
      if outBuff.count != 0 {
        CanSend(now);
      }
    }

    /** can_new_msg. */
    method NewMsg(m: Msg)
      requires Valid()
      modifies inBuff, inBuff.data
      ensures Valid() && TxState() == old(TxState())
      ensures RxState() == StepRx(old(RxState()), Arrive(m))
    {
      if And(filterId, filterMask) == And(m.id, filterMask) {
        inBuff.Add(m);
      }
    }

    /** can_dev_read. */
    method Read() returns (msg: Msg)
      requires Valid()
      modifies inBuff
      ensures Valid() && TxState() == old(TxState())
      ensures RxState() == StepRx(old(RxState()), Take) && msg == ReadReply(old(inBuff.Contents()))
    {
      var found, m := inBuff.PopFirst();
      if !found {
        msg := Msg(0, 0, [0, 0, 0, 0, 0, 0, 0, 0], 1);
      } else {
        msg := m.(error := 0);
      }
    }

    /** can_dev_empty_q. */
    method EmptyInput() returns (j: nat)
      requires Valid()
      modifies inBuff
      ensures Valid() && TxState() == old(TxState())
      ensures RxState() == StepRx(old(RxState()), EmptyQ) && j == |old(inBuff.Contents())|
    {
      j := 0;
      var found, dummy := inBuff.PopFirst();
      while found
        invariant Valid() && TxState() == old(TxState())
        invariant RxState() == old(RxState()).(queue := inBuff.Contents())
        invariant j + inBuff.count + (if found then 1 else 0) == |old(inBuff.Contents())|
        invariant !found ==> inBuff.count == 0
        decreases inBuff.count, found
      {
        j := j + 1;
        found, dummy := inBuff.PopFirst();
      }
    }

    /** can_dev_add_filter. */
    method AddFilter(id: Word, mask: Word)
      requires Valid()
      modifies this
      ensures Valid() && TxState() == old(TxState())
      ensures RxState() == StepRx(old(RxState()), Filter(id, mask))
    {
      filterId, filterMask := id, mask;
    }
  }

  /** Frames, reads, filter changes and flushes in any order: the receive side does what the run says,
      and the reads that found something return its messages. */
  method Receive(d: Driver, run: seq<RxEvent>) returns (got: seq<Msg>)
    requires d.Valid() && d.RxState().queue == []
    modifies d, d.inBuff, d.inBuff.data
    ensures d.Valid() && d.TxState() == old(d.TxState())
    ensures var t := RunRx(run, old(d.filterId), old(d.filterMask)); d.RxState() == t.rx && got == t.got
  {
    ghost var id, mask := d.filterId, d.filterMask;
    got := [];
    var i := 0;
    while i < |run|
      invariant 0 <= i <= |run| && d.Valid() && d.TxState() == old(d.TxState())
      invariant var t := RunRx(run[..i], id, mask); d.RxState() == t.rx && got == t.got
    {
      assert run[..i + 1][..i] == run[..i];
      match run[i] {
        case Arrive(m) => d.NewMsg(m);
        case Take =>
          var held := d.inBuff.count;
          var msg := d.Read();
          if held > 0 {
            got := got + [msg];
          }
        case EmptyQ =>
          var n := d.EmptyInput();
        case Filter(newId, newMask) => d.AddFilter(newId, newMask);
      }
      i := i + 1;
    }
    assert run[..i] == run;
  }

  /** Writes and interrupts in any order: the driver does what the run says. */
  method Transmit(d: Driver, run: seq<TxEvent>)
    requires d.Valid() && d.TxState() == RunTx([], d.lastTimeCanSent)
    modifies d, d.outBuff, d.outBuff.data
    ensures d.Valid() && d.TxState() == RunTx(run, old(d.lastTimeCanSent))
  {
    ghost var start := d.lastTimeCanSent;
    var i := 0;
    while i < |run|
      invariant 0 <= i <= |run| && d.Valid()
      invariant d.TxState() == RunTx(run[..i], start)
    {
      assert run[..i + 1][..i] == run[..i];
      match run[i] {
        case Write(m, now) => d.Write(m, now);
        case Interrupt(now) => d.InterruptRequestTx(now);
      }
      i := i + 1;
    }
    assert run[..i] == run;
  }
}
