/** AVL insertion on trees as values: the textbook recursive insertion, what it promises, and the
    facts that let a two-pass iteration without recursion (path/local/sys_btr.c) compute it.
    Trees carry the cell each node is stored in, so a rotation is seen to keep every cell. */
module AvlSpec {
  import opened Wrappers

  /** A data item; the comparison function looks at the key only. */
  datatype Item = Item(key: int, payload: int)

  const LEFT := -1
  const RIGHT := 1
  const BALANCED := 0

  datatype Tree<C> = Leaf | Node(left: Tree<C>, cell: C, item: Item, bal: int, right: Tree<C>)

  function Height<C>(t: Tree<C>): nat {
    if t.Leaf? then 0
    else 1 + if Height(t.left) > Height(t.right) then Height(t.left) else Height(t.right)
  }

  /** Every stored balance is the height difference of the two sides and at most one. */
  ghost predicate Avl<C>(t: Tree<C>) {
    t.Node? ==>
      && Avl(t.left) && Avl(t.right)
      && t.bal == Height(t.right) - Height(t.left)
      && -1 <= t.bal <= 1
  }

  function Inorder<C>(t: Tree<C>): seq<Item> {
    if t.Leaf? then [] else Inorder(t.left) + [t.item] + Inorder(t.right)
  }

  ghost predicate Sorted(s: seq<Item>) {
    forall i, j :: 0 <= i < j < |s| ==> s[i].key < s[j].key
  }

  /** Binary search order. */
  ghost predicate Ordered<C>(t: Tree<C>) {
    Sorted(Inorder(t))
  }

  ghost predicate Good<C>(t: Tree<C>) {
    Avl(t) && Ordered(t)
  }

  /** btr_find */
  function Find<C>(t: Tree<C>, x: Item): Option<Item> {
    if t.Leaf? then None
    else if x.key == t.item.key then Some(t.item)
    else if x.key < t.item.key then Find(t.left, x)
    else Find(t.right, x)
  }

  // ------------------------------------------------------------------ textbook insertion

  /** The left side has grown by one level: adjust the balance or rotate.  The flag says whether
      the whole tree is now higher. */
  function LeftGrew<C>(t: Tree<C>): (Tree<C>, bool)
    requires t.Node?
  {
    if t.bal > 0 then (t.(bal := BALANCED), false)
    else if t.bal == 0 then (t.(bal := LEFT), true)
    else if t.left.Node? && t.left.bal == LEFT then (RotateRight(t), false)
    else if t.left.Node? && t.left.right.Node? then (DoubleRight(t), false)
    else (t, false)
  }

  function RightGrew<C>(t: Tree<C>): (Tree<C>, bool)
    requires t.Node?
  {
    if t.bal < 0 then (t.(bal := BALANCED), false)
    else if t.bal == 0 then (t.(bal := RIGHT), true)
    else if t.right.Node? && t.right.bal == RIGHT then (RotateLeft(t), false)
    else if t.right.Node? && t.right.left.Node? then (DoubleLeft(t), false)
    else (t, false)
  }

  function RotateRight<C>(t: Tree<C>): Tree<C>
    requires t.Node? && t.left.Node?
  {
    var r := t.left;
    r.(right := t.(left := r.right, bal := BALANCED), bal := BALANCED)
  }

  function RotateLeft<C>(t: Tree<C>): Tree<C>
    requires t.Node? && t.right.Node?
  {
    var r := t.right;
    r.(left := t.(right := r.left, bal := BALANCED), bal := BALANCED)
  }

  function DoubleRight<C>(t: Tree<C>): Tree<C>
    requires t.Node? && t.left.Node? && t.left.right.Node?
  {
    var r, p := t.left, t.left.right;
    p.(left := r.(right := p.left, bal := if p.bal == RIGHT then LEFT else BALANCED),
       right := t.(left := p.right, bal := if p.bal == LEFT then RIGHT else BALANCED),
       bal := BALANCED)
  }

  function DoubleLeft<C>(t: Tree<C>): Tree<C>
    requires t.Node? && t.right.Node? && t.right.left.Node?
  {
    var r, p := t.right, t.right.left;
    p.(left := t.(right := p.left, bal := if p.bal == RIGHT then LEFT else BALANCED),
       right := r.(left := p.right, bal := if p.bal == LEFT then RIGHT else BALANCED),
       bal := BALANCED)
  }

  function Single<C>(c: C, x: Item): Tree<C> {
    Node(Leaf, c, x, BALANCED, Leaf)
  }

  /** Insertion of x, stored in the cell c; the flag says whether the tree became higher. */
  function Insert<C>(t: Tree<C>, x: Item, c: C): (Tree<C>, bool) {
    if t.Leaf? then (Single(c, x), true)
    else if x.key < t.item.key then
      var (l, grew) := Insert(t.left, x, c);
      if grew then LeftGrew(t.(left := l)) else (t.(left := l), false)
    else if x.key > t.item.key then
      var (r, grew) := Insert(t.right, x, c);
      if grew then RightGrew(t.(right := r)) else (t.(right := r), false)
    else (t, false)
  }

  // ------------------------------------------------------------------ insertion keeps AVL

  /** Growth makes the tree exactly one level higher, and leaves a tree that leans unless it is a
      single node. */
  lemma {:induction false} InsertAvl<C>(t: Tree<C>, x: Item, c: C)
    requires Avl(t)
    ensures var (t', grew) := Insert(t, x, c);
      && Avl(t')
      && Height(t') == Height(t) + (if grew then 1 else 0)
      && (grew && t.Node? ==> t'.Node? && t'.bal != BALANCED)
  {
    if t.Node? && x.key < t.item.key {
      InsertAvl(t.left, x, c);
      var (l, grew) := Insert(t.left, x, c);
      if grew {
        LeftGrewAvl(t.(left := l), Height(t.left));
      }
    } else if t.Node? && x.key > t.item.key {
      InsertAvl(t.right, x, c);
      var (r, grew) := Insert(t.right, x, c);
      if grew {
        RightGrewAvl(t.(right := r), Height(t.right));
      }
    }
  }

  /** The tree was valid with a left side of height h, and the left side has grown to h + 1. */
  lemma LeftGrewAvl<C>(t: Tree<C>, h: nat)
    requires t.Node? && Avl(t.left) && Avl(t.right) && Height(t.left) == h + 1
    requires t.bal == Height(t.right) - h && -1 <= t.bal <= 1
    requires t.left.Node? && (h > 0 ==> t.left.bal != BALANCED)
    ensures var (t', grew) := LeftGrew(t);
      && Avl(t') && (grew ==> t'.Node? && t'.bal != BALANCED)
      && Height(t') == (if h > Height(t.right) then h else Height(t.right)) + 1 + (if grew then 1 else 0)
  {
    var n := t.left;
    if n.bal == RIGHT {
      var p := n.right;
      assert p.Node? && Avl(p) && Height(p) == Height(n) - 1;
      assert -1 <= p.bal <= 1 && p.bal == Height(p.right) - Height(p.left);
    }
  }

  lemma RightGrewAvl<C>(t: Tree<C>, h: nat)
    requires t.Node? && Avl(t.left) && Avl(t.right) && Height(t.right) == h + 1
    requires t.bal == h - Height(t.left) && -1 <= t.bal <= 1
    requires t.right.Node? && (h > 0 ==> t.right.bal != BALANCED)
    ensures var (t', grew) := RightGrew(t);
      && Avl(t') && (grew ==> t'.Node? && t'.bal != BALANCED)
      && Height(t') == (if h > Height(t.left) then h else Height(t.left)) + 1 + (if grew then 1 else 0)
  {
    var n := t.right;
    if n.bal == LEFT {
      var p := n.left;
      assert p.Node? && Avl(p) && Height(p) == Height(n) - 1;
      assert -1 <= p.bal <= 1 && p.bal == Height(p.right) - Height(p.left);
    }
  }

  // ------------------------------------------------------------------ insertion and the items

  /** Insertion into a sorted sequence; an item whose key is present is not added. */
  function InsertSorted(s: seq<Item>, x: Item): seq<Item> {
    if s == [] || x.key < s[0].key then [x] + s
    else if x.key == s[0].key then s
    else [s[0]] + InsertSorted(s[1..], x)
  }

  lemma {:induction false} InsertSortedLeft(a: seq<Item>, r: Item, b: seq<Item>, x: Item)
    requires x.key < r.key
    ensures InsertSorted(a + [r] + b, x) == InsertSorted(a, x) + [r] + b
  {
    if a == [] {
      assert a + [r] + b == [r] + b;
    } else {
      assert (a + [r] + b)[1..] == a[1..] + [r] + b;
      InsertSortedLeft(a[1..], r, b, x);
    }
  }

  lemma {:induction false} InsertSortedRight(a: seq<Item>, r: Item, b: seq<Item>, x: Item)
    requires x.key > r.key && forall i :: 0 <= i < |a| ==> a[i].key < x.key
    ensures InsertSorted(a + [r] + b, x) == a + [r] + InsertSorted(b, x)
  {
    if a == [] {
      assert a + [r] + b == [r] + b;
    } else {
      assert (a + [r] + b)[1..] == a[1..] + [r] + b;
      InsertSortedRight(a[1..], r, b, x);
    }
  }

  lemma {:induction false} InsertSortedMembers(s: seq<Item>, x: Item)
    ensures forall y :: y in InsertSorted(s, x) ==> y == x || y in s
  {
    if s != [] && x.key > s[0].key {
      InsertSortedMembers(s[1..], x);
    }
  }

  lemma {:induction false} InsertSortedSorted(s: seq<Item>, x: Item)
    requires Sorted(s)
    ensures Sorted(InsertSorted(s, x))
  {
    if s != [] && x.key > s[0].key {
      InsertSortedSorted(s[1..], x);
      InsertSortedMembers(s[1..], x);
      var t := InsertSorted(s[1..], x);
      forall i | 0 <= i < |t| ensures s[0].key < t[i].key {
        assert t[i] in t;
      }
    }
  }

  lemma {:induction false} InsertSortedAdds(s: seq<Item>, x: Item)
    requires forall y :: y in s ==> y.key != x.key
    ensures multiset(InsertSorted(s, x)) == multiset(s) + multiset{x}
  {
    if s != [] && x.key > s[0].key {
      assert s == [s[0]] + s[1..];
      InsertSortedAdds(s[1..], x);
    }
  }

  lemma SortedParts(l: seq<Item>, m: Item, r: seq<Item>)
    requires Sorted(l + [m] + r)
    ensures Sorted(l) && Sorted(r)
    ensures forall i :: 0 <= i < |l| ==> l[i].key < m.key
    ensures forall i :: 0 <= i < |r| ==> m.key < r[i].key
  {
    var s, n := l + [m] + r, |l|;
    assert s[n] == m;
    forall i | 0 <= i < n ensures l[i] == s[i] {}
    forall i | 0 <= i < |r| ensures r[i] == s[n + 1 + i] {}
  }

  lemma OrderedParts<C>(t: Tree<C>)
    requires t.Node? && Ordered(t)
    ensures Ordered(t.left) && Ordered(t.right)
    ensures forall i :: 0 <= i < |Inorder(t.left)| ==> Inorder(t.left)[i].key < t.item.key
    ensures forall i :: 0 <= i < |Inorder(t.right)| ==> t.item.key < Inorder(t.right)[i].key
  {
    SortedParts(Inorder(t.left), t.item, Inorder(t.right));
  }

  /** Rebalancing moves no item. */
  lemma GrewInorder<C>(t: Tree<C>)
    requires t.Node?
    ensures Inorder(LeftGrew(t).0) == Inorder(t) && Inorder(RightGrew(t).0) == Inorder(t)
  {
    if t.left.Node? {
      RotateRightInorder(t);
    }
    if t.right.Node? {
      RotateLeftInorder(t);
    }
  }

  lemma RegroupInorder(a: seq<Item>, x: Item, b: seq<Item>, y: Item, d: seq<Item>)
    ensures (a + [x] + b) + [y] + d == a + [x] + (b + [y] + d)
  {
  }

  lemma RotateRightInorder<C>(t: Tree<C>)
    requires t.Node? && t.left.Node?
    ensures Inorder(RotateRight(t)) == Inorder(t)
    ensures t.left.right.Node? ==> Inorder(DoubleRight(t)) == Inorder(t)
  {
    var r := t.left;
    RegroupInorder(Inorder(r.left), r.item, Inorder(r.right), t.item, Inorder(t.right));
    if r.right.Node? {
      var p := r.right;
      var a, e, f, d := Inorder(r.left), Inorder(p.left), Inorder(p.right), Inorder(t.right);
      RegroupInorder(a, r.item, e, p.item, f);
      RegroupInorder(a + [r.item] + e, p.item, f, t.item, d);
    }
  }

  lemma RotateLeftInorder<C>(t: Tree<C>)
    requires t.Node? && t.right.Node?
    ensures Inorder(RotateLeft(t)) == Inorder(t)
    ensures t.right.left.Node? ==> Inorder(DoubleLeft(t)) == Inorder(t)
  {
    var r := t.right;
    RegroupInorder(Inorder(t.left), t.item, Inorder(r.left), r.item, Inorder(r.right));
    if r.left.Node? {
      var p := r.left;
      var a, e, f, d := Inorder(t.left), Inorder(p.left), Inorder(p.right), Inorder(r.right);
      RegroupInorder(e, p.item, f, r.item, d);
      RegroupInorder(a, t.item, e, p.item, f + [r.item] + d);
    }
  }

  /** Insertion into the tree is insertion into its sorted sequence of items. */
  lemma {:induction false} InsertInorder<C>(t: Tree<C>, x: Item, c: C)
    requires Ordered(t)
    ensures Inorder(Insert(t, x, c).0) == InsertSorted(Inorder(t), x)
  {
    if t.Node? {
      OrderedParts(t);
      var a, b := Inorder(t.left), Inorder(t.right);
      if x.key < t.item.key {
        InsertInorder(t.left, x, c);
        InsertSortedLeft(a, t.item, b, x);
        GrewInorder(t.(left := Insert(t.left, x, c).0));
      } else if x.key > t.item.key {
        InsertInorder(t.right, x, c);
        InsertSortedRight(a, t.item, b, x);
        GrewInorder(t.(right := Insert(t.right, x, c).0));
      } else {
        PresentInorder(a, t.item, b, x);
      }
    }
  }

  lemma {:induction false} PresentInorder(a: seq<Item>, r: Item, b: seq<Item>, x: Item)
    requires x.key == r.key && forall i :: 0 <= i < |a| ==> a[i].key < r.key
    ensures InsertSorted(a + [r] + b, x) == a + [r] + b
  {
    if a == [] {
      assert a + [r] + b == [r] + b;
    } else {
      assert (a + [r] + b)[1..] == a[1..] + [r] + b;
      PresentInorder(a[1..], r, b, x);
    }
  }

  /** Inserting into a valid tree yields a valid tree holding the old items and, unless its key
      was there already, the new one. */
  lemma InsertGood<C>(t: Tree<C>, x: Item, c: C)
    requires Good(t)
    ensures var t' := Insert(t, x, c).0;
      && Good(t')
      && (Find(t, x) == None ==> multiset(Inorder(t')) == multiset(Inorder(t)) + multiset{x})
      && (Find(t, x).Some? ==> t' == t)
  {
    InsertAvl(t, x, c);
    InsertInorder(t, x, c);
    InsertSortedSorted(Inorder(t), x);
    FindIff(t, x);
    if Find(t, x).Some? {
      InsertPresent(t, x, c);
    } else {
      InsertSortedAdds(Inorder(t), x);
    }
  }

  lemma {:induction false} InsertPresent<C>(t: Tree<C>, x: Item, c: C)
    requires Find(t, x).Some?
    ensures Insert(t, x, c) == (t, false)
  {
    if x.key < t.item.key {
      InsertPresent(t.left, x, c);
    } else if x.key > t.item.key {
      InsertPresent(t.right, x, c);
    }
  }

  /** The search finds an item exactly when its key is in the tree, and finds that very item. */
  lemma {:induction false} FindIff<C>(t: Tree<C>, x: Item)
    requires Ordered(t)
    ensures Find(t, x).Some? <==> exists y :: y in Inorder(t) && y.key == x.key
    ensures forall y :: y in Inorder(t) && y.key == x.key ==> Find(t, x) == Some(y)
  {
    if t.Node? {
      OrderedParts(t);
      FindIff(t.left, x);
      FindIff(t.right, x);
      var l, r, s := Inorder(t.left), Inorder(t.right), Inorder(t);
      assert forall y :: y in s <==> y in l || y == t.item || y in r;
      if x.key == t.item.key {
        assert t.item in s;
      }
    }
  }

  // ------------------------------------------------------------------ whole runs

  /** The tree after inserting these items one after the other, each with a cell of its own. */
  function Build<C>(arrivals: seq<(Item, C)>): Tree<C> {
    if arrivals == [] then Leaf
    else
      var n := |arrivals| - 1;
      Insert(Build(arrivals[..n]), arrivals[n].0, arrivals[n].1).0
  }

  /** The first item that arrived with this key. */
  function FirstArrival<C>(arrivals: seq<(Item, C)>, key: int): Option<Item> {
    if arrivals == [] then None
    else
      var n := |arrivals| - 1;
      var earlier := FirstArrival(arrivals[..n], key);
      if earlier == None && arrivals[n].0.key == key then Some(arrivals[n].0) else earlier
  }

  lemma InsertMembers<C>(t: Tree<C>, y: Item, c: C)
    requires Good(t) && Find(t, y) == None
    ensures forall z :: z in Inorder(Insert(t, y, c).0) <==> z in Inorder(t) || z == y
  {
    InsertGood(t, y, c);
    var a, b := Inorder(Insert(t, y, c).0), Inorder(t);
    forall z ensures z in a <==> z in b || z == y {
      assert z in a <==> z in multiset(a);
      assert z in b <==> z in multiset(b);
    }
  }

  lemma FoundIsThere<C>(t: Tree<C>, x: Item, y: Item)
    requires Ordered(t) && Find(t, x) == Some(y)
    ensures y in Inorder(t) && y.key == x.key
  {
    FindIff(t, x);
  }

  lemma InsertFind<C>(t: Tree<C>, y: Item, c: C, x: Item)
    requires Good(t)
    ensures Find(Insert(t, y, c).0, x) ==
            if Find(t, x) == None && x.key == y.key then Some(y) else Find(t, x)
  {
    var t' := Insert(t, y, c).0;
    InsertGood(t, y, c);
    if Find(t, y) == None {
      InsertMembers(t, y, c);
      FindIff(t', x);
      if Find(t, x).Some? {
        FoundIsThere(t, x, Find(t, x).value);
      } else if x.key != y.key && Find(t', x).Some? {
        FoundIsThere(t', x, Find(t', x).value);
        FindIff(t, x);
      }
    } else if x.key == y.key {
      SameKeySameFind(t, x, y);
    }
  }

  lemma {:induction false} SameKeySameFind<C>(t: Tree<C>, x: Item, y: Item)
    requires x.key == y.key
    ensures Find(t, x) == Find(t, y)
  {
    if t.Node? {
      SameKeySameFind(t.left, x, y);
      SameKeySameFind(t.right, x, y);
    }
  }

  /** Whatever arrives in whatever order, the tree is valid, a search finds exactly the keys that
      arrived, with the item that came first, and n items make a tree whose height h satisfies
      Fib(h + 2) <= n + 1. */
  lemma {:induction false} BuildFinds<C>(arrivals: seq<(Item, C)>, x: Item)
    ensures Good(Build(arrivals))
    ensures Find(Build(arrivals), x) == FirstArrival(arrivals, x.key)
    ensures |Inorder(Build(arrivals))| <= |arrivals|
    ensures Fib(Height(Build(arrivals)) + 2) <= |arrivals| + 1
  {
    if arrivals != [] {
      var n := |arrivals| - 1;
      var t, y, c := Build(arrivals[..n]), arrivals[n].0, arrivals[n].1;
      BuildFinds(arrivals[..n], x);
      InsertGood(t, y, c);
      InsertFind(t, y, c, x);
      if Find(t, y) == None {
        assert |multiset(Inorder(Insert(t, y, c).0))| == |multiset(Inorder(t))| + 1;
      }
    }
    AvlHoldsMany(Build(arrivals));
  }

  // ------------------------------------------------------------------ how high it can get

  function Fib(n: nat): nat {
    if n < 2 then n else Fib(n - 1) + Fib(n - 2)
  }

  /** A valid tree of height h holds at least Fib(h + 2) - 1 items. */
  lemma {:induction false} AvlHoldsMany<C>(t: Tree<C>)
    requires Avl(t)
    ensures |Inorder(t)| + 1 >= Fib(Height(t) + 2)
  {
    if t.Node? {
      AvlHoldsMany(t.left);
      AvlHoldsMany(t.right);
      var h, l, r := Height(t), Height(t.left), Height(t.right);
      FibGrows(h);
      FibStep(h, l, r);
    }
  }

  /** Two sides whose heights differ by at most one supply the next Fibonacci number. */
  lemma FibStep(h: nat, l: nat, r: nat)
    requires h == 1 + (if l > r then l else r) && -1 <= r - l <= 1
    requires Fib(h) <= Fib(h + 1)
    ensures Fib(l + 2) + Fib(r + 2) >= Fib(h + 2)
  {
    assert l + 2 == h + 1 || r + 2 == h + 1;
    assert l + 2 == h || l + 2 == h + 1;
    assert r + 2 == h || r + 2 == h + 1;
  }

  lemma {:induction false} FibGrows(n: nat)
    ensures Fib(n) <= Fib(n + 1)
  {
    if n >= 2 {
      FibGrows(n - 1);
      FibGrows(n - 2);
    }
  }
}
