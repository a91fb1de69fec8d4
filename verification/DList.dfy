/** The doubly linked list of path/local/sys_list.c: a head holding a length and the two end
    pointers, and nodes linked both ways.  The ghost sequence `nodes` lists the nodes in order;
    every operation is proved against the sequence of items that the list stands for. */
module DList {
  import opened Wrappers

  class Node<T> {
    const item: T
    var prev: Node?<T>
    var next: Node?<T>
    ghost const owner: List<T> // the list this node was made for; lists share no nodes

    constructor (item: T, prev: Node?<T>, next: Node?<T>, ghost owner: List<T>)
      ensures this.item == item && this.prev == prev && this.next == next && this.owner == owner
    {
      this.item, this.prev, this.next, this.owner := item, prev, next, owner;
    }
  }

  /** The forward and the backward chain both follow the sequence. */
  ghost predicate Linked<T>(nodes: seq<Node<T>>)
    reads nodes
  {
    && (nodes != [] ==> nodes[0].prev == null && nodes[|nodes| - 1].next == null)
    && (forall i {:trigger nodes[i].prev} :: 0 < i < |nodes| ==> nodes[i].prev == nodes[i - 1])
    && (forall i {:trigger nodes[i].next} :: 0 <= i < |nodes| - 1 ==> nodes[i].next == nodes[i + 1])
  }

  ghost predicate Distinct<T>(s: seq<T>) {
    forall i, j :: 0 <= i < j < |s| ==> s[i] != s[j]
  }

  /** A linked sequence cannot visit a node twice: equal nodes have equal predecessors, all the
      way down to the first node, which has none. */
  lemma {:induction false} LinkedDistinct<T>(nodes: seq<Node<T>>, i: nat, j: nat)
    requires Linked(nodes) && i < j < |nodes|
    ensures nodes[i] != nodes[j]
  {
    if nodes[i] == nodes[j] {
      assert nodes[j].prev == nodes[j - 1];
      if i > 0 {
        assert nodes[i].prev == nodes[i - 1];
        LinkedDistinct(nodes, i - 1, j - 1);
      }
    }
  }

  lemma LinkedAllDistinct<T>(nodes: seq<Node<T>>)
    requires Linked(nodes)
    ensures Distinct(nodes)
  {
    forall i, j | 0 <= i < j < |nodes| ensures nodes[i] != nodes[j] {
      LinkedDistinct(nodes, i, j);
    }
  }

  ghost function ItemsOf<T>(nodes: seq<Node<T>>): (items: seq<T>)
    ensures |items| == |nodes|
    ensures forall i :: 0 <= i < |nodes| ==> items[i] == nodes[i].item
  {
    if nodes == [] then [] else ItemsOf(nodes[..|nodes| - 1]) + [nodes[|nodes| - 1].item]
  }

  function RemoveAt<T>(s: seq<T>, k: nat): seq<T>
    requires k < |s|
  {
    s[..k] + s[k + 1..]
  }

  function InsertAt<T>(s: seq<T>, k: nat, x: T): seq<T>
    requires k <= |s|
  {
    s[..k] + [x] + s[k..]
  }

  class List<T> {
    var length: int
    var first: Node?<T>
    var last: Node?<T>
    ghost var nodes: seq<Node<T>>
    ghost var pool: set<Node<T>> // every node made for this list, linked or not

    ghost predicate Valid()
      reads this, pool
    {
      && (forall n :: n in pool ==> n.owner == this)
      && (forall i :: 0 <= i < |nodes| ==> nodes[i] in pool)
      && length == |nodes|
      && first == (if |nodes| == 0 then null else nodes[0])
      && last == (if |nodes| == 0 then null else nodes[|nodes| - 1])
      && Linked(nodes)
    }

    ghost function Items(): seq<T>
      reads this
    {
      ItemsOf(nodes)
    }

    constructor ()
      ensures Valid() && Items() == [] && nodes == [] && pool == {}
    {
      length, first, last, nodes, pool := 0, null, null, [], {};
    }

    /** dl_insert: a new node at the front. */
    method Insert(item: T)
      requires Valid()
      modifies this, pool
      ensures Valid() && nodes != [] && fresh(nodes[0]) && nodes[0].item == item
      ensures nodes == [nodes[0]] + old(nodes)
      ensures pool == old(pool) + {nodes[0]}
    {
      LinkedAllDistinct(nodes);
      var n := new Node(item, null, first, this);
      if length == 0 {
        last := n;
      } else {
        first.prev := n;
      }
      first := n;
      length := length + 1;
      nodes, pool := [n] + nodes, pool + {n};
    }

    /** dl_append: a new node at the end. */
    method Append(item: T)
      requires Valid()
      modifies this, pool
      ensures Valid() && nodes != [] && fresh(nodes[|nodes| - 1]) && nodes[|nodes| - 1].item == item
      ensures nodes == old(nodes) + [nodes[|nodes| - 1]]
      ensures pool == old(pool) + {nodes[|nodes| - 1]}
    {
      LinkedAllDistinct(nodes);
      var n := new Node(item, last, null, this);
      if length == 0 {
        first := n;
      } else {
        last.next := n;
      }
      last := n;
      length := length + 1;
      nodes, pool := nodes + [n], pool + {n};
    }

    /** dl_rm_first: None stands for the NULL returned on an empty list. */
    method RmFirst() returns (r: Option<T>)
      requires Valid()
      modifies this, pool
      ensures pool == old(pool)
      ensures Valid()
      ensures old(nodes) == [] ==> r == None && nodes == []
      ensures old(nodes) != [] ==> r == Some(old(Items())[0]) && nodes == old(nodes)[1..]
    {
      if first == null {
        return None;
      }
      LinkedAllDistinct(nodes);
      r := Some(first.item);
      first := first.next;
      length := length - 1;
      if length == 0 {
        last := null;
      } else {
        first.prev := null;
      }
      nodes := nodes[1..];
    }

    /** dl_rm_last */
    method RmLast() returns (r: Option<T>)
      requires Valid()
      modifies this, pool
      ensures pool == old(pool)
      ensures Valid()
      ensures old(nodes) == [] ==> r == None && nodes == []
      ensures old(nodes) != [] ==>
                var n := |old(nodes)| - 1;
                r == Some(old(Items())[n]) && nodes == old(nodes)[..n]
    {
      if length == 0 {
        return None;
      }
      LinkedAllDistinct(nodes);
      r := Some(last.item);
      last := last.prev;
      length := length - 1;
      if length == 0 {
        first := null;
      } else {
        last.next := null;
      }
      nodes := nodes[..|nodes| - 1];
    }

    /** dl_rm_node: unlinks the node `n`, which stands at index k, and moves the caller's cursor
        back to the node before it (null when there is none). */
    method RmNode(n: Node<T>, ghost k: nat) returns (item: T, current: Node?<T>)
      requires Valid() && k < |nodes| && nodes[k] == n
      modifies this, pool
      ensures pool == old(pool)
      ensures Valid() && nodes == RemoveAt(old(nodes), k)
      ensures item == n.item
      ensures current == if k == 0 then null else old(nodes)[k - 1]
    {
      current := n.prev;
      item := n.item;
      if n.prev == null {
        var r := RmFirst();
        item := r.value;
        current := null;
      } else if n.next == null {
        var r := RmLast();
        item := r.value;
      } else {
        Unlink(n, k);
      }
    }

    /** The interior case of dl_rm_node. */
    method Unlink(n: Node<T>, ghost k: nat)
      requires Valid() && 0 < k < |nodes| - 1 && nodes[k] == n
      modifies this, pool
      ensures pool == old(pool)
      ensures Valid() && nodes == RemoveAt(old(nodes), k)
    {
      LinkedAllDistinct(nodes);
      n.prev.next := n.next;
      n.next.prev := n.prev;
      length := length - 1;
      RemoveAtIndices(nodes, k);
      nodes := RemoveAt(nodes, k);
    }

    /** dl_nth_node: a walk of n links from the front; null when n is out of range. */
    method NthNode(n: int) returns (p: Node?<T>)
      requires Valid()
      ensures p == if 0 <= n < |nodes| then nodes[n] else null
    {
      if n < 0 || length <= n {
        return null;
      }
      p := first;
      var i := 0;
      while i < n
        invariant 0 <= i <= n && p == nodes[i]
      {
        p := p.next;
        i := i + 1;
      }
    }

    /** dl_first: the first node whose item matches. */
    method First(match_: T -> bool) returns (p: Node?<T>, ghost k: nat)
      requires Valid()
      ensures k <= |nodes| && p == (if k == |nodes| then null else nodes[k])
      ensures forall i :: 0 <= i < k ==> !match_(Items()[i])
      ensures k < |nodes| ==> match_(Items()[k])
      ensures p == null <==> forall i :: 0 <= i < |Items()| ==> !match_(Items()[i])
      ensures p != null ==> p in nodes && match_(p.item)
    {
      p, k := first, 0;
      while p != null
        invariant k <= |nodes| && p == (if k == |nodes| then null else nodes[k])
        invariant forall i :: 0 <= i < k ==> !match_(Items()[i])
        decreases |nodes| - k
      {
        if match_(p.item) {
          return;
        }
        p, k := p.next, k + 1;
      }
    }

    /** The interior insertion that dl_insert_before, dl_insert_after and dl_nth_insert share: a
        new node between two neighbours. */
    method InsertBetween(left: Node<T>, right: Node<T>, ghost k: nat, item: T)
      requires Valid() && 0 < k < |nodes| && nodes[k - 1] == left && nodes[k] == right
      modifies this, left, right
      ensures Valid() && k < |nodes| && fresh(nodes[k])
      ensures nodes == InsertAt(old(nodes), k, nodes[k]) && pool == old(pool) + {nodes[k]}
      ensures nodes[k].item == item
    {
      LinkedAllDistinct(nodes);
      var new_ := new Node(item, left, right, this);
      left.next := new_;
      right.prev := new_;
      length := length + 1;
      ghost var was := nodes;
      nodes, pool := InsertAt(nodes, k, new_), pool + {new_};
      InsertAtIndices(was, k, new_);
    }

    /** dl_insert_before: a new node in front of the node at index k. */
    method InsertBefore(n: Node<T>, ghost k: nat, item: T)
      requires Valid() && k < |nodes| && nodes[k] == n
      modifies this, pool
      ensures Valid() && k < |nodes| && fresh(nodes[k]) && nodes[k].item == item
      ensures nodes == InsertAt(old(nodes), k, nodes[k]) && pool == old(pool) + {nodes[k]}
    {
      var left := n.prev;
      if left == null {
        Insert(item);
      } else {
        InsertBetween(left, n, k, item);
      }
    }

    /** dl_insert_after: a new node behind the node at index k. */
    method InsertAfter(n: Node<T>, ghost k: nat, item: T)
      requires Valid() && k < |nodes| && nodes[k] == n
      modifies this, pool
      ensures Valid() && k + 1 < |nodes| && fresh(nodes[k + 1]) && nodes[k + 1].item == item
      ensures nodes == InsertAt(old(nodes), k + 1, nodes[k + 1]) && pool == old(pool) + {nodes[k + 1]}
    {
      var right := n.next;
      if right == null {
        Append(item);
      } else {
        InsertBetween(n, right, k + 1, item);
      }
    }

    /** dl_nth_insert: position 0 or past the end falls back on insert and append; a negative
        position fails. */
    method NthInsert(n: int, item: T) returns (ok: bool)
      requires Valid()
      modifies this, pool
      ensures old(pool) <= pool && fresh(pool - old(pool))
      ensures Valid() && ok == (n >= 0)
      ensures !ok ==> nodes == old(nodes)
      ensures ok ==>
                var k := if n < |old(nodes)| then n else |old(nodes)|;
                && k < |nodes| && nodes[k].item == item
                && nodes == InsertAt(old(nodes), k, nodes[k])
    {
      if n == 0 {
        Insert(item);
        return true;
      }
      if n >= length {
        Append(item);
        return true;
      }
      var right := NthNode(n);
      if right == null {
        return false;
      }
      var left := NthNode(n - 1);
      if left == null {
        return false;
      }
      InsertBetween(left, right, n, item);
      return true;
    }

    /** dl_pq_add: the new item goes in front of the first item that compares below it. */
    method PqAdd(item: T, rank: T -> int)
      requires Valid()
      modifies this, pool
      ensures old(pool) <= pool && fresh(pool - old(pool))
      ensures Valid() && Items() == PqInsert(old(Items()), item, rank)
    {
      hide List.Valid, ItemsOf, Linked, PqInsert;
      var p, k := First(x => rank(item) > rank(x));
      PqInsertAt(Items(), item, rank, k);
      if p != null {
        InsertBefore(p, k, item);
      } else {
        Append(item);
      }
      ItemsInsertAt(old(nodes), k, nodes[k]);
    }
  }

  lemma InsertAtIndices<T>(s: seq<T>, k: nat, x: T)
    requires k <= |s|
    ensures var t := InsertAt(s, k, x);
      && |t| == |s| + 1
      && t[k] == x
      && (forall i :: 0 <= i < k ==> t[i] == s[i])
      && (forall i :: k < i < |t| ==> t[i] == s[i - 1])
  {
  }

  lemma RemoveAtIndices<T>(s: seq<T>, k: nat)
    requires k < |s|
    ensures var t := RemoveAt(s, k);
      && |t| == |s| - 1
      && (forall i :: 0 <= i < k ==> t[i] == s[i])
      && (forall i :: k <= i < |t| ==> t[i] == s[i + 1])
  {
  }

  lemma ItemsRemoveAt<T>(nodes: seq<Node<T>>, k: nat)
    requires k < |nodes|
    ensures ItemsOf(RemoveAt(nodes, k)) == RemoveAt(ItemsOf(nodes), k)
  {
    hide RemoveAt, ItemsOf;
    RemoveAtIndices(nodes, k);
    RemoveAtIndices(ItemsOf(nodes), k);
  }

  lemma ItemsInsertAt<T>(nodes: seq<Node<T>>, k: nat, n: Node<T>)
    requires k <= |nodes|
    ensures ItemsOf(InsertAt(nodes, k, n)) == InsertAt(ItemsOf(nodes), k, n.item)
  {
    hide InsertAt, ItemsOf;
    InsertAtIndices(nodes, k, n);
    InsertAtIndices(ItemsOf(nodes), k, n.item);
    var items := ItemsOf(InsertAt(nodes, k, n));
    forall i | 0 <= i < |items| ensures items[i] == InsertAt(ItemsOf(nodes), k, n.item)[i] {}
  }

  /** Where dl_pq_add puts an item, as a function on item sequences. */
  function PqInsert<T>(s: seq<T>, x: T, rank: T -> int): seq<T> {
    if s == [] then [x]
    else if rank(x) > rank(s[0]) then [x] + s
    else [s[0]] + PqInsert(s[1..], x, rank)
  }

  lemma {:induction false} PqInsertAt<T>(s: seq<T>, x: T, rank: T -> int, k: nat)
    requires k <= |s|
    requires forall i :: 0 <= i < k ==> rank(x) <= rank(s[i])
    requires k < |s| ==> rank(x) > rank(s[k])
    ensures PqInsert(s, x, rank) == InsertAt(s, k, x)
  {
    if k > 0 {
      PqInsertAt(s[1..], x, rank, k - 1);
    }
  }

  ghost predicate Descending<T>(s: seq<T>, rank: T -> int) {
    forall i, j :: 0 <= i < j < |s| ==> rank(s[i]) >= rank(s[j])
  }

  /** The items of one rank, in list order. */
  function OfRank<T>(s: seq<T>, rank: T -> int, r: int): seq<T> {
    if s == [] then [] else (if rank(s[0]) == r then [s[0]] else []) + OfRank(s[1..], rank, r)
  }

  function PqRun<T>(arrivals: seq<T>, rank: T -> int): seq<T> {
    if arrivals == [] then []
    else PqInsert(PqRun(arrivals[..|arrivals| - 1], rank), arrivals[|arrivals| - 1], rank)
  }

  lemma {:induction false} OfRankAppend<T>(a: seq<T>, b: seq<T>, rank: T -> int, r: int)
    ensures OfRank(a + b, rank, r) == OfRank(a, rank, r) + OfRank(b, rank, r)
  {
    if a == [] {
      assert a + b == b;
    } else {
      var one := if rank(a[0]) == r then [a[0]] else [];
      assert (a + b)[0] == a[0] && (a + b)[1..] == a[1..] + b;
      OfRankAppend(a[1..], b, rank, r);
      assert OfRank(a + b, rank, r) == one + (OfRank(a[1..], rank, r) + OfRank(b, rank, r));
    }
  }

  lemma {:induction false} PqInsertAdds<T>(s: seq<T>, x: T, rank: T -> int)
    ensures multiset(PqInsert(s, x, rank)) == multiset(s) + multiset{x}
  {
    if s != [] && rank(x) <= rank(s[0]) {
      PqInsertAdds(s[1..], x, rank);
      assert s == [s[0]] + s[1..];
    }
  }

  lemma {:induction false} PqInsertDescends<T>(s: seq<T>, x: T, rank: T -> int)
    requires Descending(s, rank)
    ensures Descending(PqInsert(s, x, rank), rank)
  {
    if s != [] && rank(x) <= rank(s[0]) {
      PqInsertDescends(s[1..], x, rank);
      var t := PqInsert(s[1..], x, rank);
      PqInsertAdds(s[1..], x, rank);
      forall j | 0 <= j < |t| ensures rank(s[0]) >= rank(t[j]) {
        assert t[j] in multiset(t);
        assert t[j] == x || t[j] in s[1..];
      }
    }
  }

  lemma {:induction false} PqInsertStable<T>(s: seq<T>, x: T, rank: T -> int, r: int)
    requires Descending(s, rank)
    ensures OfRank(PqInsert(s, x, rank), rank, r) == OfRank(s, rank, r) + OfRank([x], rank, r)
  {
    if s == [] {
    } else if rank(x) > rank(s[0]) {
      NoneOfRank(s, rank, rank(x));
      assert ([x] + s)[1..] == s;
    } else {
      PqInsertStable(s[1..], x, rank, r);
      var t := PqInsert(s[1..], x, rank);
      assert ([s[0]] + t)[1..] == t;
    }
  }

  lemma {:induction false} NoneOfRank<T>(s: seq<T>, rank: T -> int, r: int)
    requires forall i :: 0 <= i < |s| ==> rank(s[i]) < r
    ensures OfRank(s, rank, r) == []
  {
    if s != [] {
      NoneOfRank(s[1..], rank, r);
    }
  }

  /** Whatever is added, in whatever order, the queue is a stable descending sort of the
      arrivals: descending, the same items, and equal items in arrival order. */
  lemma {:induction false} PqRunIsStableSort<T>(arrivals: seq<T>, rank: T -> int, r: int)
    ensures Descending(PqRun(arrivals, rank), rank)
    ensures multiset(PqRun(arrivals, rank)) == multiset(arrivals)
    ensures OfRank(PqRun(arrivals, rank), rank, r) == OfRank(arrivals, rank, r)
  {
    if arrivals != [] {
      var init, x := arrivals[..|arrivals| - 1], arrivals[|arrivals| - 1];
      assert arrivals == init + [x];
      PqRunIsStableSort(init, rank, r);
      PqInsertAdds(PqRun(init, rank), x, rank);
      PqInsertDescends(PqRun(init, rank), x, rank);
      PqInsertStable(PqRun(init, rank), x, rank, r);
      OfRankAppend(init, [x], rank, r);
    }
  }
}
