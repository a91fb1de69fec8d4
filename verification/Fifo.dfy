/** The byte queue of path/local/sys_fifo.c: a list of chunks, each with a read position, that stands
    for one flat stream of bytes. */
module Fifo {
  import opened Seqs
  import opened Wrappers

  const ERROR := -1

  /** fifo_item_typ: `pread` is the offset of the next byte, `size` what is left. */
  datatype Chunk = Chunk(pdata: seq<Byte>, pread: nat, size: nat)

  predicate ChunkOk(c: Chunk) {
    c.size > 0 && c.pread + c.size == |c.pdata|
  }

  predicate AllOk(chunks: seq<Chunk>) {
    forall i :: 0 <= i < |chunks| ==> ChunkOk(chunks[i])
  }

  function Bytes(chunks: seq<Chunk>): seq<Byte>
    requires AllOk(chunks)
  {
    if chunks == [] then [] else chunks[0].pdata[chunks[0].pread..] + Bytes(chunks[1..])
  }

  lemma {:induction false} BytesAppend(chunks: seq<Chunk>, c: Chunk)
    requires AllOk(chunks)
    requires ChunkOk(c)
    ensures Bytes(chunks + [c]) == Bytes(chunks) + c.pdata[c.pread..]
  {
    if chunks == [] {
      assert (chunks + [c])[1..] == [];
    } else {
      assert (chunks + [c])[1..] == chunks[1..] + [c];
      BytesAppend(chunks[1..], c);
    }
  }

  lemma ConsBytes(c: Chunk, rest: seq<Chunk>)
    requires ChunkOk(c) && AllOk(rest)
    ensures AllOk([c] + rest) && Bytes([c] + rest) == c.pdata[c.pread..] + Bytes(rest)
  {
    assert ([c] + rest)[1..] == rest;
  }

  lemma HeadBytes(chunks: seq<Chunk>)
    requires AllOk(chunks) && chunks != []
    ensures ChunkOk(chunks[0]) && AllOk(chunks[1..])
    ensures Bytes(chunks) == chunks[0].pdata[chunks[0].pread..] + Bytes(chunks[1..])
  {
  }

  lemma SplitAt<T>(s: seq<T>, i: nat, k: nat)
    requires i + k <= |s|
    ensures s[i..] == s[i..i + k] + s[i + k..]
  {
  }

  class Queue {
    var chunks: seq<Chunk>

    ghost predicate Valid()
      reads this
    {
      AllOk(chunks)
    }

    ghost function Held(): seq<Byte>
      requires Valid()
      reads this
    {
      Bytes(chunks)
    }

    constructor ()
      ensures Valid() && Held() == []
    {
      chunks := [];
    }

    /** fifo_write. */
    method Write(psrc: seq<Byte>, size: int) returns (r: int)
      requires Valid() && size <= |psrc|
      modifies this
      ensures Valid()
      ensures r == if size < 0 then ERROR else size
      ensures Held() == old(Held()) + if size < 0 then [] else psrc[..size]
    {
      if size == 0 {
        return 0;
      }
      if size < 0 {
        return ERROR;
      }
      var item := Chunk(psrc[..size], 0, size);
      BytesAppend(chunks, item);
      chunks := chunks + [item];
      return size;
    }

    /** fifo_read: as many bytes as there are, up to max, oldest first; a chunk that is only partly
        read goes on from there the next time. */
    method Read(pdest: array<Byte>, max: int) returns (sum: int)
      requires Valid() && max <= pdest.Length
      modifies this, pdest
      ensures Valid()
      ensures sum == if max < 0 then ERROR else if max < |old(Held())| then max else |old(Held())|
      ensures max < 0 ==> Held() == old(Held()) && pdest[..] == old(pdest[..])
      ensures max >= 0 ==> old(Held()) == pdest[..sum] + Held() && pdest[sum..] == old(pdest[sum..])
    {
      if max == 0 {
        return 0;
      }
      if max < 0 {
        return ERROR;
      }
      sum := 0;
      hide AllOk, Bytes;
      while sum < max
        invariant Valid() && 0 <= sum <= max
        invariant old(Held()) == pdest[..sum] + Held()
        invariant pdest[sum..] == old(pdest[..])[sum..]
        decreases |chunks|, max - sum
      {
        if chunks == [] {
          break;
        }
        sum := ReadChunk(pdest, sum, max);
      }
    }

    /** The body of the loop of fifo_read: the whole first chunk, or the part of it that fits. */
    method ReadChunk(pdest: array<Byte>, sum: nat, max: nat) returns (next: nat)
      requires Valid() && chunks != [] && sum < max <= pdest.Length
      modifies this, pdest
      ensures Valid() && sum < next <= max
      ensures |chunks| < |old(chunks)| || (next == max && |chunks| == |old(chunks)|)
      ensures pdest[..next] + Held() == old(pdest[..sum]) + old(Held())
      ensures pdest[next..] == old(pdest[next..])
    {
      hide AllOk, Bytes;
      var item := chunks[0];
      HeadBytes(chunks);
      ghost var done, rest := pdest[..sum], Bytes(chunks[1..]);
      if sum + item.size <= max {
        Regroup(done, item.pdata[item.pread..], rest);
        ByteCopy(item.pdata, item.pread, item.size, pdest, sum);
        assert item.pdata[item.pread..item.pread + item.size] == item.pdata[item.pread..];
        next := sum + item.size;
        chunks := chunks[1..];
      } else {
        var part := max - sum;
        SplitAt(item.pdata, item.pread, part);
        RegroupPairs(done, item.pdata[item.pread..item.pread + part], item.pdata[item.pread + part..], rest);
        ByteCopy(item.pdata, item.pread, part, pdest, sum);
        var shrunk := item.(size := item.size - part, pread := item.pread + part);
        ConsBytes(shrunk, chunks[1..]);
        chunks := [shrunk] + chunks[1..];
        next := max;
      }
    }

    /** fifo_flush: everything goes, last chunk first; the result is how many bytes were left. */
    method Flush() returns (sum: nat)
      requires Valid()
      modifies this
      ensures Valid() && Held() == [] && sum == |old(Held())|
    {
      sum := 0;
      while chunks != []
        invariant Valid() && sum + |Held()| == |old(Held())|
        decreases |chunks|
      {
        var item := chunks[|chunks| - 1];
        ghost var front := chunks[..|chunks| - 1];
        assert chunks == front + [item];
        BytesAppend(front, item);
        chunks := chunks[..|chunks| - 1];
        sum := sum + item.size;
      }
    }
  }

  /** bytecopy. */
  method ByteCopy(src: seq<Byte>, from: nat, size: nat, dest: array<Byte>, at: nat)
    requires from + size <= |src| && at + size <= dest.Length
    modifies dest
    ensures dest[..at + size] == old(dest[..at]) + src[from..from + size]
    ensures dest[at + size..] == old(dest[at + size..])
  {
    var i := 0;
    while i < size
      invariant 0 <= i <= size
      invariant dest[..at + i] == old(dest[..at]) + src[from..from + i]
      invariant forall k :: at + i <= k < dest.Length ==> dest[k] == old(dest[k])
    {
      dest[at + i] := src[from + i];
      i := i + 1;
    }
  }

  datatype Op = Put(bytes: seq<Byte>) | Get(max: nat)

  /** Any mix of writes and reads: the bytes read so far and the bytes held make up the bytes
      written, so what was read is always a prefix of what was written. */
  method Pump(q: Queue, ops: seq<Op>) returns (written: seq<Byte>, got: seq<Byte>)
    requires q.Valid() && q.Held() == []
    modifies q
    ensures q.Valid() && written == AllPut(ops) == got + q.Held()
    ensures |got| == AllGot(ops)
  {
    hide AllOk, Bytes;
    written, got := [], [];
    var i := 0;
    while i < |ops|
      invariant 0 <= i <= |ops| && q.Valid()
      invariant written == AllPut(ops[..i]) == got + q.Held()
      invariant |got| == AllGot(ops[..i])
    {
      assert ops[..i + 1][..i] == ops[..i];
      match ops[i] {
        case Put(bytes) =>
          Regroup(got, q.Held(), bytes);
          var r := q.Write(bytes, |bytes|);
          written := written + bytes;
        case Get(max) =>
          var dest := new Byte[max];
          ghost var held := q.Held();
          var n := q.Read(dest, max);
          Regroup(got, dest[..n], q.Held());
          got := got + dest[..n];
      }
      i := i + 1;
    }
    assert ops[..i] == ops;
  }

  function AllPut(ops: seq<Op>): seq<Byte> {
    if ops == [] then []
    else AllPut(ops[..|ops| - 1]) + if ops[|ops| - 1].Put? then ops[|ops| - 1].bytes else []
  }

  /** Each read takes the smaller of what it asks for and what is there. */
  function AllGot(ops: seq<Op>): nat {
    if ops == [] then 0
    else
      var before, op := ops[..|ops| - 1], ops[|ops| - 1];
      match op
      case Put(_) => AllGot(before)
      case Get(max) => if AllGot(before) + max < |AllPut(before)| then AllGot(before) + max else |AllPut(before)|
  }
}
