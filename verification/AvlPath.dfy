/** Why the two-pass insertion of path/local/sys_btr.c computes the recursive one.  A position in
    a tree is a context, read from the position up to the root; the balancing node is the lowest
    unbalanced node above the position, or the root. */
module AvlPath {
  import opened AvlSpec

  /** What surrounds a subtree: its parent with the other side, and so on up to the root. */
  datatype Ctx<C> =
    | Top
    | InLeft(up: Ctx<C>, cell: C, item: Item, bal: int, right: Tree<C>)
    | InRight(up: Ctx<C>, left: Tree<C>, cell: C, item: Item, bal: int)

  function PlugOne<C>(ctx: Ctx<C>, t: Tree<C>): Tree<C>
    requires !ctx.Top?
  {
    match ctx
    case InLeft(_, cell, item, bal, right) => Node(t, cell, item, bal, right)
    case InRight(_, left, cell, item, bal) => Node(left, cell, item, bal, t)
  }

  function Plug<C>(ctx: Ctx<C>, t: Tree<C>): Tree<C> {
    if ctx.Top? then t else Plug(ctx.up, PlugOne(ctx, t))
  }

  /** The search for x from the root comes to this position. */
  ghost predicate Reaches<C>(ctx: Ctx<C>, x: Item) {
    match ctx
    case Top => true
    case InLeft(up, _, item, _, _) => x.key < item.key && Reaches(up, x)
    case InRight(up, _, _, item, _) => x.key > item.key && Reaches(up, x)
  }

  function Child<C>(t: Tree<C>, x: Item): Tree<C>
    requires t.Node?
  {
    if x.key < t.item.key then t.left else t.right
  }

  /** x is absent, and every node that the search for x visits is balanced. */
  ghost predicate Quiet<C>(t: Tree<C>, x: Item) {
    t.Node? ==> t.bal == BALANCED && x.key != t.item.key && Quiet(Child(t, x), x)
  }

  /** A new leaf where the search for x ends, with no balance touched (btr_add). */
  function AddLeaf<C>(t: Tree<C>, x: Item, c: C): Tree<C> {
    if t.Leaf? then Single(c, x)
    else if x.key < t.item.key then t.(left := AddLeaf(t.left, x, c))
    else if x.key > t.item.key then t.(right := AddLeaf(t.right, x, c))
    else t
  }

  /** Unbalanced insertion adds the same item to the same sequence as balanced insertion. */
  lemma {:induction false} AddLeafInorder<C>(t: Tree<C>, x: Item, c: C)
    requires Ordered(t)
    ensures Inorder(AddLeaf(t, x, c)) == InsertSorted(Inorder(t), x)
    ensures Inorder(AddLeaf(t, x, c)) == Inorder(Insert(t, x, c).0)
  {
    InsertInorder(t, x, c);
    if t.Node? {
      OrderedParts(t);
      if x.key < t.item.key {
        AddLeafInorder(t.left, x, c);
        InsertSortedLeft(Inorder(t.left), t.item, Inorder(t.right), x);
      } else if x.key > t.item.key {
        AddLeafInorder(t.right, x, c);
        InsertSortedRight(Inorder(t.left), t.item, Inorder(t.right), x);
      }
    }
  }

  /** The same with every node above the new leaf marked as leaning towards it. */
  function AddMarked<C>(t: Tree<C>, x: Item, c: C): Tree<C> {
    if t.Leaf? then Single(c, x)
    else if x.key < t.item.key then t.(left := AddMarked(t.left, x, c), bal := LEFT)
    else if x.key > t.item.key then t.(right := AddMarked(t.right, x, c), bal := RIGHT)
    else t
  }

  /** Below the balancing node there is nothing to rebalance, only marks to set. */
  lemma {:induction false} QuietInsert<C>(t: Tree<C>, x: Item, c: C)
    requires Quiet(t, x)
    ensures Insert(t, x, c) == (AddMarked(t, x, c), true)
  {
    if t.Node? {
      QuietInsert(Child(t, x), x, c);
    }
  }

  /** Above the balancing node nothing changes, once the subtree there has not grown. */
  lemma {:induction false} PlugInsert<C>(ctx: Ctx<C>, s: Tree<C>, x: Item, c: C)
    requires Reaches(ctx, x) && !Insert(s, x, c).1
    ensures Insert(Plug(ctx, s), x, c) == (Plug(ctx, Insert(s, x, c).0), false)
  {
    if !ctx.Top? {
      PlugInsert(ctx.up, PlugOne(ctx, s), x, c);
    }
  }

  /** The balancing node and what surrounds it, from a position (ctx, t) below or at it. */
  function Balancing<C>(ctx: Ctx<C>, t: Tree<C>): (Ctx<C>, Tree<C>)
    requires t.Node?
  {
    if ctx.Top? || t.bal != BALANCED then (ctx, t) else Balancing(ctx.up, PlugOne(ctx, t))
  }

  ghost predicate IsBalancing<C>(ctx: Ctx<C>, s: Tree<C>, x: Item) {
    && s.Node? && Reaches(ctx, x)
    && x.key != s.item.key && Quiet(Child(s, x), x)
    && (ctx.Top? || s.bal != BALANCED)
  }

  /** The key fact: the last unbalanced node on the path, or else the root, has only balanced
      nodes below it on the path. */
  lemma {:induction false} BalancingIs<C>(ctx: Ctx<C>, t: Tree<C>, x: Item)
    requires t.Node? && Reaches(ctx, x) && x.key != t.item.key && Quiet(Child(t, x), x)
    ensures var (up, s) := Balancing(ctx, t); IsBalancing(up, s, x) && Plug(up, s) == Plug(ctx, t)
  {
    if !ctx.Top? && t.bal == BALANCED {
      BalancingIs(ctx.up, PlugOne(ctx, t), x);
    }
  }

  /** A leaf added below a position is a leaf added below its balancing node. */
  lemma {:induction false} BalancingAdd<C>(ctx: Ctx<C>, t: Tree<C>, x: Item, c: C)
    requires t.Node? && Reaches(ctx, x)
    ensures var (up, s) := Balancing(ctx, t);
      s.Node? && Balancing(ctx, AddLeaf(t, x, c)) == (up, AddLeaf(s, x, c))
  {
    if !ctx.Top? && t.bal == BALANCED {
      BalancingAdd(ctx.up, PlugOne(ctx, t), x, c);
    }
  }

  /** The balancing node with its side towards x replaced. */
  function WithChild<C>(s: Tree<C>, x: Item, child: Tree<C>): Tree<C>
    requires s.Node?
  {
    if x.key < s.item.key then s.(left := child) else s.(right := child)
  }

  function Towards(s: int, x: int): int {
    if x < s then LEFT else RIGHT
  }

  /** The balancing node once its side towards x has been marked. */
  function Marked<C>(s: Tree<C>, x: Item, c: C): (m: Tree<C>)
    requires s.Node?
    ensures m.Node?
  {
    WithChild(s, x, AddMarked(Child(s, x), x, c))
  }

  /** What has to be done at the balancing node, read off its stored balance and the marks. */
  function Rebalanced<C>(s: Tree<C>, x: Item, c: C): Tree<C>
    requires s.Node?
  {
    var m := Marked(s, x, c);
    if x.key < s.item.key then LeftGrew(m).0 else RightGrew(m).0
  }

  /** Inserting into the whole tree is rebalancing at the balancing node, and nothing else. */
  lemma IterativeInsert<C>(ctx: Ctx<C>, s: Tree<C>, x: Item, c: C)
    requires IsBalancing(ctx, s, x) && Avl(Plug(ctx, s))
    ensures Insert(Plug(ctx, s), x, c).0 == Plug(ctx, Rebalanced(s, x, c))
  {
    QuietInsert(Child(s, x), x, c);
    PlugAvl(ctx, s);
    var m := Marked(s, x, c);
    assert Insert(s, x, c) == if x.key < s.item.key then LeftGrew(m) else RightGrew(m);
    if s.bal != BALANCED {
      PlugInsert(ctx, s, x, c);
    }
  }

  lemma {:induction false} PlugAvl<C>(ctx: Ctx<C>, s: Tree<C>)
    requires Avl(Plug(ctx, s))
    ensures Avl(s)
  {
    if !ctx.Top? {
      PlugAvl(ctx.up, PlugOne(ctx, s));
    }
  }
}
