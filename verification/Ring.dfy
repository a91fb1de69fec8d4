/** The two bounded buffers of path/local/sys_buff.c: a ring over an array and a list that sheds its
    oldest item. Both hold the last items added, oldest first. */
module Ring {
  import opened Seqs

  // ------------------------------------------------------------------ what a bounded buffer holds

  /** Adding to a buffer of n places that drops its oldest item when it is full. */
  function Push<T>(held: seq<T>, n: nat, x: T): seq<T> {
    if |held| == n && n > 0 then held[1..] + [x] else held + [x]
  }

  function PushAll<T>(held: seq<T>, n: nat, xs: seq<T>): seq<T> {
    if xs == [] then held else Push(PushAll(held, n, xs[..|xs| - 1]), n, xs[|xs| - 1])
  }

  function LastN<T>(history: seq<T>, n: nat): seq<T> {
    if |history| <= n then history else history[|history| - n..]
  }

  /** A buffer of n places holds the last n items of its history, oldest first; one without a limit
      holds everything. */
  lemma {:induction false} PushAllIsLastN<T>(n: nat, xs: seq<T>)
    ensures PushAll([], n, xs) == if n == 0 then xs else LastN(xs, n)
  {
    if xs != [] {
      var k := |xs| - 1;
      PushAllIsLastN(n, xs[..k]);
      assert xs == xs[..k] + [xs[k]];
      PushLastN(xs[..k], n, xs[k]);
      hide LastN, Push;
    }
  }

  lemma PushLastN<T>(history: seq<T>, n: nat, x: T)
    ensures Push(if n == 0 then history else LastN(history, n), n, x) ==
            if n == 0 then history + [x] else LastN(history + [x], n)
  {
  }

  // ------------------------------------------------------------------ the ring

  /** `count` items from `start` on, going round at the end of the array. */
  function Window<T>(a: seq<T>, start: nat, count: nat): (s: seq<T>)
    requires start < |a| && count <= |a|
    ensures |s| == count
  {
    if start + count <= |a| then a[start..start + count] else a[start..] + a[..start + count - |a|]
  }

  lemma WindowAt<T>(a: seq<T>, start: nat, count: nat, i: nat)
    requires start < |a| && count <= |a| && i < count
    ensures Window(a, start, count)[i] == a[Wrap(start + i, |a|)]
  {
  }

  function Wrap(i: nat, n: nat): (j: nat)
    requires n > 0 && i < 2 * n
    ensures j < n
  {
    if i >= n then i - n else i
  }

  lemma WindowPush<T>(a: seq<T>, start: nat, count: nat, x: T)
    requires start < |a| && count < |a|
    ensures Window(a[Wrap(start + count, |a|) := x], start, count + 1) == Window(a, start, count) + [x]
  {
    var after := a[Wrap(start + count, |a|) := x];
    forall i | 0 <= i <= count
      ensures Window(after, start, count + 1)[i] == (Window(a, start, count) + [x])[i]
    {
      WindowAt(after, start, count + 1, i);
      if i < count {
        WindowAt(a, start, count, i);
      }
    }
  }

  lemma WindowPop<T>(a: seq<T>, start: nat, count: nat)
    requires start < |a| && 0 < count <= |a|
    ensures Window(a, Wrap(start + 1, |a|), count - 1) == Window(a, start, count)[1..]
    ensures Window(a, start, count)[0] == a[start]
  {
    var next := Wrap(start + 1, |a|);
    WindowAt(a, start, count, 0);
    forall i | 0 <= i < count - 1
      ensures Window(a, next, count - 1)[i] == Window(a, start, count)[1..][i]
    {
      WindowAt(a, next, count - 1, i);
      WindowAt(a, start, count, i + 1);
    }
  }

  /** Overwriting the oldest item of a full ring. */
  lemma WindowFull<T>(a: seq<T>, start: nat, x: T)
    requires start < |a|
    ensures Window(a[start := x], Wrap(start + 1, |a|), |a|) == Window(a, start, |a|)[1..] + [x]
  {
    var n, next, after := |a|, Wrap(start + 1, |a|), a[start := x];
    forall i | 0 <= i < n
      ensures Window(after, next, n)[i] == (Window(a, start, n)[1..] + [x])[i]
    {
      WindowAt(after, next, n, i);
      if i < n - 1 {
        WindowAt(a, start, n, i + 1);
      }
    }
  }

  class CircularBuffer<T(0)> {
    const data: array<T>
    const size: int
    var start: int
    var count: int

    ghost predicate Valid()
      reads this
    {
      data.Length == size > 0 && 0 <= start < size && 0 <= count <= size
    }

    ghost function Contents(): (s: seq<T>)
      requires Valid()
      reads this, data
      ensures |s| == count
    {
      Window(data[..], start, count)
    }

    /** init_circular_buffer. */
    constructor (maxData: int)
      requires maxData > 0
      ensures Valid() && fresh(data) && size == maxData && Contents() == []
    {
      data := new T[maxData];
      size := maxData;
      start := 0;
      count := 0;
    }

    /** get_circular_index: once the caller has stored its x in the slot, the ring has taken x. */
    method GetCircularIndex(ghost x: T) returns (index: int)
      requires Valid()
      modifies this
      ensures Valid() && 0 <= index < size
      ensures Window(data[..][index := x], start, count) == Push(old(Contents()), size, x)
    {
      hide Window;
      if size == count {
        WindowFull(data[..], start, x);
        index := start;
        start := start + 1;
        if start == size {
          start := 0;
        }
      } else {
        WindowPush(data[..], start, count, x);
        index := start + count;
        if index >= size {
          index := index - size;
        }
        count := count + 1;
      }
    }

    /** can_cq_add. */
    method Add(x: T)
      requires Valid()
      modifies this, data
      ensures Valid() && Contents() == Push(old(Contents()), size, x)
    {
      var index := GetCircularIndex(x);
      ghost var a := data[..];
      data[index] := x;
      assert data[..] == a[index := x];
    }

    /** can_cq_read_first, on a ring that holds something. */
    method ReadFirst() returns (x: T)
      requires Valid() && count > 0
      ensures x == Contents()[0]
    {
      WindowPop(data[..], start, count);
      x := data[start];
    }

    /** can_cq_pop_first: the oldest item, or nothing from an empty ring. */
    method PopFirst() returns (found: bool, x: T)
      requires Valid()
      modifies this
      ensures Valid() && found == (old(count) > 0)
      ensures found ==> old(Contents()) == [x] + Contents()
      ensures !found ==> Contents() == []
      ensures data[..] == old(data[..])
    {
      x := data[start];
      found := false;
      if count > 0 {
        WindowPop(data[..], start, count);
        count := count - 1;
        start := start + 1;
        if start == size {
          start := 0;
        }
        found := true;
      }
    }
  }

  // ------------------------------------------------------------------ the list

  class ListBuffer<T> {
    /** Zero for no limit. */
    const maxSize: nat
    /** Newest first. */
    var items: seq<T>

    ghost predicate Valid()
      reads this
    {
      maxSize > 0 ==> |items| <= maxSize
    }

    ghost function Held(): seq<T>
      reads this
    {
      Reversed(items)
    }

    /** buff_init. */
    constructor (maxSize: nat)
      ensures Valid() && this.maxSize == maxSize && Held() == []
    {
      this.maxSize := maxSize;
      items := [];
    }

    /** buff_add: in at the front, out at the back. */
    method Add(x: T)
      requires Valid()
      modifies this
      ensures Valid() && Held() == Push(old(Held()), maxSize, x)
    {
      ghost var held := Held();
      ReversedCons(x, items);
      assert held != [] ==> (held + [x])[1..] == held[1..] + [x];
      items := [x] + items;
      if maxSize != 0 && maxSize < |items| {
        assert Held() == [items[|items| - 1]] + Reversed(items[..|items| - 1]);
        items := items[..|items| - 1];
      }
    }

    /** buff_flush: items leave in order of arrival. The stream takes the first `room` of them; the
        one it refuses has already left the list and is lost. */
    method Flush(room: nat) returns (out: seq<T>)
      modifies this
      ensures room >= |old(Held())| ==> out == old(Held()) && Held() == []
      ensures room < |old(Held())| ==> out == old(Held())[..room] && Held() == old(Held())[room + 1..]
    {
      ghost var held := Held();
      out := [];
      while items != []
        invariant |out| <= room && held == out + Held()
        decreases |items|
      {
        var item := items[|items| - 1];
        assert Held() == [item] + Reversed(items[..|items| - 1]);
        items := items[..|items| - 1];
        if |out| == room {
          return;
        }
        out := out + [item];
      }
    }
  }

  /** What a list holds that is fed from the start: the last items up to its limit, or everything. */
  method Fill<T>(list: ListBuffer<T>, xs: seq<T>)
    requires list.Valid() && list.Held() == []
    modifies list
    ensures list.Valid()
    ensures list.Held() == if list.maxSize == 0 then xs else LastN(xs, list.maxSize)
  {
    var i := 0;
    while i < |xs|
      invariant 0 <= i <= |xs| && list.Valid()
      invariant list.Held() == PushAll([], list.maxSize, xs[..i])
    {
      assert xs[..i + 1][..i] == xs[..i];
      list.Add(xs[i]);
      i := i + 1;
    }
    assert xs[..i] == xs;
    PushAllIsLastN(list.maxSize, xs);
  }

  /** Fed the same items, ring and list hold the same. */
  method FeedBoth<T(0)>(ring: CircularBuffer<T>, list: ListBuffer<T>, xs: seq<T>)
    requires ring.Valid() && list.Valid() && ring.size == list.maxSize
    requires ring.Contents() == list.Held() == []
    modifies ring, ring.data, list
    ensures ring.Valid() && list.Valid()
    ensures ring.Contents() == list.Held() == LastN(xs, ring.size)
  {
    var i := 0;
    while i < |xs|
      invariant 0 <= i <= |xs| && ring.Valid() && list.Valid()
      invariant ring.Contents() == list.Held() == PushAll([], ring.size, xs[..i])
    {
      assert xs[..i + 1][..i] == xs[..i];
      ring.Add(xs[i]);
      list.Add(xs[i]);
      i := i + 1;
    }
    assert xs[..i] == xs;
    PushAllIsLastN(ring.size, xs);
  }
}
