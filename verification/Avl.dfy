/** The AVL tree of path/local/sys_btr.c on linked cells.  btr_avl descends once to hang a leaf,
    remembering the balancing node, descends again from there to set the balances, and rotates at
    most once; it is proved to leave the tree that the recursive insertion of AvlSpec yields. */
module Avl {
  import opened Wrappers
  import opened AvlSpec
  import opened AvlPath

  class Cell {
    var item: Option<Item>
    var left: Cell?
    var right: Cell?
    var balance: int

    /** btr_inst_node */
    constructor (item: Option<Item>)
      ensures this.item == item && left == null && right == null && balance == BALANCED
    {
      this.item, left, right, balance := item, null, null, BALANCED;
    }
  }

  // ------------------------------------------------------------------ cells that form a tree

  ghost function Cells(t: Tree<Cell>): set<Cell> {
    if t.Leaf? then {} else Cells(t.left) + {t.cell} + Cells(t.right)
  }

  /** No cell is used twice. */
  ghost predicate Separate(t: Tree<Cell>) {
    t.Node? ==>
      && Separate(t.left) && Separate(t.right)
      && t.cell !in Cells(t.left) && t.cell !in Cells(t.right)
      && Cells(t.left) !! Cells(t.right)
  }

  /** The cells linked from p form the tree t. */
  ghost predicate Rep(p: Cell?, t: Tree<Cell>)
    reads Cells(t)
  {
    match t
    case Leaf => p == null
    case Node(l, c, item, bal, r) =>
      p == c && c.item == Some(item) && c.balance == bal && Rep(c.left, l) && Rep(c.right, r)
  }

  ghost function CtxCells(ctx: Ctx<Cell>): set<Cell> {
    match ctx
    case Top => {}
    case InLeft(up, c, _, _, r) => CtxCells(up) + {c} + Cells(r)
    case InRight(up, l, c, _, _) => CtxCells(up) + {c} + Cells(l)
  }

  ghost predicate SeparateCtx(ctx: Ctx<Cell>) {
    match ctx
    case Top => true
    case InLeft(up, c, _, _, r) =>
      SeparateCtx(up) && Separate(r) && c !in Cells(r) && c !in CtxCells(up) && Cells(r) !! CtxCells(up)
    case InRight(up, l, c, _, _) =>
      SeparateCtx(up) && Separate(l) && c !in Cells(l) && c !in CtxCells(up) && Cells(l) !! CtxCells(up)
  }

  /** The cells linked from root form the context, with p linked in at the position. */
  ghost predicate RepCtx(p: Cell?, ctx: Ctx<Cell>, root: Cell?)
    reads CtxCells(ctx)
    decreases ctx
  {
    match ctx
    case Top => p == root
    case InLeft(up, c, item, bal, r) =>
      && c.left == p && c.item == Some(item) && c.balance == bal
      && Rep(c.right, r) && RepCtx(c, up, root)
    case InRight(up, l, c, item, bal) =>
      && c.right == p && c.item == Some(item) && c.balance == bal
      && Rep(c.left, l) && RepCtx(c, up, root)
  }

  /** A position in linked cells: the subtree from p, and what surrounds it from the root. */
  ghost predicate Placed(p: Cell?, t: Tree<Cell>, ctx: Ctx<Cell>, root: Cell?)
    reads Cells(t), CtxCells(ctx)
  {
    && Rep(p, t) && RepCtx(p, ctx, root)
    && Separate(t) && SeparateCtx(ctx) && Cells(t) !! CtxCells(ctx)
  }

  lemma {:induction false} PlugRep(p: Cell?, t: Tree<Cell>, ctx: Ctx<Cell>, root: Cell?)
    requires Placed(p, t, ctx, root)
    ensures Rep(root, Plug(ctx, t)) && Separate(Plug(ctx, t))
    ensures Cells(Plug(ctx, t)) == Cells(t) + CtxCells(ctx)
    decreases ctx
  {
    if !ctx.Top? {
      PlugRep(ctx.cell, PlugOne(ctx, t), ctx.up, root);
    }
  }

  /** The balancing node of a position is itself a position. */
  lemma {:induction false} BalancingPlaced(p: Cell?, t: Tree<Cell>, ctx: Ctx<Cell>, root: Cell?)
    requires Placed(p, t, ctx, root) && t.Node?
    ensures var (up, s) := Balancing(ctx, t);
      && s.Node? && Placed(s.cell, s, up, root)
      && Cells(s) + CtxCells(up) == Cells(t) + CtxCells(ctx)
    decreases ctx
  {
    if !ctx.Top? && t.bal == BALANCED {
      BalancingPlaced(ctx.cell, PlugOne(ctx, t), ctx.up, root);
    }
  }

  lemma {:induction false} TopIsRoot(p: Cell?, ctx: Ctx<Cell>, root: Cell?)
    requires RepCtx(p, ctx, root)
    ensures if ctx.Top? then p == root else root in CtxCells(ctx)
    decreases ctx
  {
    if !ctx.Top? {
      TopIsRoot(ctx.cell, ctx.up, root);
    }
  }

  // ------------------------------------------------------------------ first descent: avl_insert

  datatype Status = Found | Inserted

  /** One step down the tree, on the side that x belongs to. */
  ghost function Down(ctx: Ctx<Cell>, t: Tree<Cell>, x: Item): Ctx<Cell>
    requires t.Node?
  {
    if x.key < t.item.key then InLeft(ctx, t.cell, t.item, t.bal, t.right)
    else InRight(ctx, t.left, t.cell, t.item, t.bal)
  }

  lemma StepDown(p: Cell, t: Tree<Cell>, ctx: Ctx<Cell>, root: Cell?, x: Item)
    requires Placed(p, t, ctx, root) && t.Node?
    ensures Placed(if x.key < t.item.key then p.left else p.right, Child(t, x), Down(ctx, t, x), root)
  {
  }

  /** Links a new leaf below p where the search for x ended. */
  method Hang(p: Cell, q: Cell, x: Item, ghost t: Tree<Cell>)
    requires t.Node? && Rep(p, t) && Separate(t) && q !in Cells(t) && Rep(q, Single(q, x))
    requires x.key != t.item.key && Child(t, x).Leaf?
    modifies p
    ensures Rep(p, AddLeaf(t, x, q)) && Separate(AddLeaf(t, x, q))
    ensures Cells(AddLeaf(t, x, q)) == Cells(t) + {q}
  {
    ghost var leaf := Single(q, x);
    assert AddLeaf(Leaf, x, q) == leaf && Cells(leaf) == {q};
    if x.key < p.item.value.key {
      p.left := q;
      assert Rep(p.left, leaf) && Rep(p.right, t.right);
    } else {
      p.right := q;
      assert Rep(p.right, leaf) && Rep(p.left, t.left);
    }
  }

  lemma StartHere(p: Cell, t: Tree<Cell>)
    requires t.Node? && Rep(p, t) && Separate(t)
    ensures Placed(p, t, Top, p) && Plug(Top, t) == t && CtxCells(Top) == {} && Balancing(Top, t) == (Top, t)
  {
  }

  /** One step down is still the same position in the same tree, as values. */
  lemma DownKeeps(ctx: Ctx<Cell>, t: Tree<Cell>, x: Item)
    requires t.Node?
    ensures Plug(Down(ctx, t, x), Child(t, x)) == Plug(ctx, t)
    ensures Cells(Child(t, x)) + CtxCells(Down(ctx, t, x)) == Cells(t) + CtxCells(ctx)
    ensures AvlSpec.Find(t, x) == if x.key == t.item.key then Some(t.item) else AvlSpec.Find(Child(t, x), x)
    ensures Child(t, x).Leaf? ==> AvlSpec.Find(Child(t, x), x) == None
    ensures Child(t, x).Node? ==>
              Balancing(Down(ctx, t, x), Child(t, x)) ==
              if Child(t, x).bal == BALANCED then Balancing(ctx, t) else (Down(ctx, t, x), Child(t, x))
  {
  }

  /** The descent of avl_insert.  `s` is the node where balancing begins and `above` its parent;
      the search ends at p, which holds a matching item or lacks the child that x belongs to. */
  method Descend(x: Item, start: Cell, ghost t: Tree<Cell>)
      returns (found: bool, p: Cell, s: Cell, above: Cell, ghost ctx: Ctx<Cell>, ghost sub: Tree<Cell>)
    requires Rep(start, t) && Separate(t) && t.Node?
    ensures sub.Node? && Placed(p, sub, ctx, start) && Plug(ctx, sub) == t && Reaches(ctx, x)
    ensures Cells(sub) + CtxCells(ctx) == Cells(t)
    ensures AvlSpec.Find(t, x) == if found then p.item else None
    ensures found ==> p.item.Some?
    ensures !found ==> x.key != sub.item.key && Child(sub, x).Leaf?
    ensures var (up, b) := Balancing(ctx, sub);
      b.Node? && s == b.cell && (!up.Top? ==> above == up.cell)
  {
    above, s := start, start;
    p := start;
    ctx, sub := Top, t;
    hide Plug, Cells, CtxCells, Separate, SeparateCtx, RepCtx, Balancing, AvlSpec.Find;
    StartHere(start, t);
    while true
      invariant sub.Node? && Placed(p, sub, ctx, start)
      invariant Plug(ctx, sub) == t && Reaches(ctx, x)
      invariant AvlSpec.Find(t, x) == AvlSpec.Find(sub, x)
      invariant Cells(sub) + CtxCells(ctx) == Cells(t)
      invariant var (up, b) := Balancing(ctx, sub);
        b.Node? && s == b.cell && (!up.Top? ==> above == up.cell)
      decreases sub
    {
      StepDown(p, sub, ctx, start, x);
      DownKeeps(ctx, sub, x);
      if x.key == p.item.value.key {
        found := true;
        return;
      }
      var next := if x.key < p.item.value.key then p.left else p.right;
      if next == null {
        found := false;
        return;
      }
      if next.balance != BALANCED {
        above, s := p, next;
      }
      ctx, sub := Down(ctx, sub, x), Child(sub, x);
      p := next;
    }
  }

  /** avl_insert: on a match `q` is the matching cell, otherwise it is the new leaf. */
  method AvlInsert(x: Item, start: Cell, ghost t: Tree<Cell>)
      returns (status: Status, q: Cell, s: Cell, above: Cell, ghost ctx: Ctx<Cell>, ghost sub: Tree<Cell>)
    requires Rep(start, t) && Separate(t) && t.Node?
    modifies Cells(t)
    ensures status == Found ==> Rep(start, t) && q.item == AvlSpec.Find(t, x) != None
    ensures status == Inserted ==>
              && AvlSpec.Find(t, x) == None
              && fresh(q) && q !in Cells(t) && IsBalancing(ctx, sub, x) && Plug(ctx, sub) == t
              && q !in Cells(sub) && s == sub.cell && (!ctx.Top? ==> above == ctx.cell)
              && Placed(s, AddLeaf(sub, x, q), ctx, start)
              && Cells(AddLeaf(sub, x, q)) + CtxCells(ctx) == Cells(t) + {q}
  {
    var found, p;
    found, p, s, above, ctx, sub := Descend(x, start, t);
    if found {
      PlugRep(p, sub, ctx, start);
      return Found, p, s, above, ctx, sub;
    }
    assert allocated(Cells(t));
    q := new Cell(Some(x));
    assert q !in Cells(t);
    assert Placed(p, sub, ctx, start);
    ctx, sub := HangBelow(p, q, x, start, ctx, sub);
    status := Inserted;
  }

  /** Hangs the new leaf at the position found, and moves the view up to the balancing node. */
  method HangBelow(p: Cell, q: Cell, x: Item, ghost start: Cell, ghost ctx: Ctx<Cell>, ghost sub: Tree<Cell>)
      returns (ghost up: Ctx<Cell>, ghost b: Tree<Cell>)
    requires sub.Node? && Placed(p, sub, ctx, start) && Reaches(ctx, x)
    requires x.key != sub.item.key && Child(sub, x).Leaf?
    requires q !in Cells(sub) + CtxCells(ctx) && Rep(q, Single(q, x))
    modifies p
    ensures (up, b) == Balancing(ctx, sub)
    ensures IsBalancing(up, b, x) && Plug(up, b) == Plug(ctx, sub)
    ensures Placed(b.cell, AddLeaf(b, x, q), up, start) && q !in Cells(b)
    ensures Cells(AddLeaf(b, x, q)) + CtxCells(up) == Cells(sub) + CtxCells(ctx) + {q}
  {
    BalancingPlaced(p, sub, ctx, start);
    assert allocated(CtxCells(ctx)) && p !in CtxCells(ctx);
    Hang(p, q, x, sub);
    assert RepCtx(p, ctx, start);
    BalancingIs(ctx, sub, x);
    BalancingAdd(ctx, sub, x, q);
    BalancingPlaced(p, AddLeaf(sub, x, q), ctx, start);
    up, b := Balancing(ctx, sub).0, Balancing(ctx, sub).1;
  }

  // ------------------------------------------------------------------ second descent: avl_balance

  datatype Rotation = Done | SingleRotation | DoubleRotation

  lemma {:induction false} MarkedCells(t: Tree<Cell>, x: Item, q: Cell)
    requires Separate(AddLeaf(t, x, q))
    ensures Cells(AddMarked(t, x, q)) == Cells(AddLeaf(t, x, q)) && Separate(AddMarked(t, x, q))
  {
    if t.Node? && x.key != t.item.key {
      MarkedCells(Child(t, x), x, q);
    }
  }

  /** The loop of avl_balance: every node from r down to the new leaf q leans towards q. */
  method MarkPath(x: Item, r: Cell, q: Cell, ghost t: Tree<Cell>)
    requires Rep(r, AddLeaf(t, x, q)) && Separate(AddLeaf(t, x, q))
    requires Quiet(t, x) && q !in Cells(t)
    modifies Cells(AddLeaf(t, x, q))
    ensures Rep(r, AddMarked(t, x, q))
  {
    var p := r;
    ghost var mid: Ctx<Cell>, u := Top, t;
    while p != q
      invariant Placed(p, AddLeaf(u, x, q), mid, r)
      invariant Plug(mid, AddMarked(u, x, q)) == AddMarked(t, x, q)
      invariant Quiet(u, x) && q !in Cells(u)
      invariant Cells(AddLeaf(u, x, q)) + CtxCells(mid) == Cells(AddLeaf(t, x, q))
      decreases u
    {
      p, mid, u := MarkOne(x, p, q, u, mid, r);
    }
    assert u.Leaf?;
    PlugRep(p, AddLeaf(u, x, q), mid, r);
  }

  /** The body of that loop. */
  method MarkOne(x: Item, p: Cell, q: Cell, ghost u: Tree<Cell>, ghost mid: Ctx<Cell>, ghost r: Cell)
      returns (next: Cell, ghost mid': Ctx<Cell>, ghost u': Tree<Cell>)
    requires p != q && Placed(p, AddLeaf(u, x, q), mid, r) && Quiet(u, x) && q !in Cells(u)
    modifies p
    ensures Placed(next, AddLeaf(u', x, q), mid', r) && Quiet(u', x) && q !in Cells(u')
    ensures Plug(mid', AddMarked(u', x, q)) == Plug(mid, AddMarked(u, x, q))
    ensures Cells(AddLeaf(u', x, q)) + CtxCells(mid') == Cells(AddLeaf(u, x, q)) + CtxCells(mid)
    ensures u.Node? && u' == Child(u, x)
  {
    hide AddLeaf, AddMarked, Quiet, Plug, Cells, CtxCells, Separate, SeparateCtx, RepCtx;
    ghost var t := AddLeaf(u, x, q);
    MarkedDown(u, x, q, mid, p);
    assert allocated(CtxCells(mid)) && p !in CtxCells(mid);
    var factor := if x.key < p.item.value.key then LEFT else RIGHT;
    SetBalance(p, factor, t);
    ghost var t' := t.(bal := factor);
    assert Placed(p, t', mid, r);
    StepDown(p, t', mid, r, x);
    next := if x.key < p.item.value.key then p.left else p.right;
    mid', u' := Down(mid, t', x), Child(u, x);
  }

  method SetBalance(p: Cell, factor: int, ghost t: Tree<Cell>)
    requires t.Node? && Rep(p, t) && Separate(t)
    modifies p
    ensures Rep(p, t.(bal := factor)) && Separate(t.(bal := factor)) && Cells(t.(bal := factor)) == Cells(t)
  {
    assert Rep(p.left, t.left) && Rep(p.right, t.right);
    p.balance := factor;
    assert Rep(p.left, t.left) && Rep(p.right, t.right);
  }

  /** Marking a node and going down one step keeps the whole, as values. */
  lemma MarkedDown(u: Tree<Cell>, x: Item, q: Cell, mid: Ctx<Cell>, p: Cell)
    requires Quiet(u, x) && q !in Cells(u) && Separate(AddLeaf(u, x, q)) && AddLeaf(u, x, q).cell == p != q
    requires Cells(AddLeaf(u, x, q)) !! CtxCells(mid)
    ensures u.Node? && x.key != u.item.key && p !in CtxCells(mid)
    ensures var t, u' := AddLeaf(u, x, q), Child(u, x);
      var t' := t.(bal := if x.key < t.item.key then LEFT else RIGHT);
      && t.item == u.item && Child(t', x) == AddLeaf(u', x, q) && Child(t', x).Node?
      && Quiet(u', x) && q !in Cells(u')
      && Plug(Down(mid, t', x), AddMarked(u', x, q)) == Plug(mid, AddMarked(u, x, q))
      && Cells(AddLeaf(u', x, q)) + CtxCells(Down(mid, t', x)) == Cells(t) + CtxCells(mid)
  {
  }

  /** The first half of avl_balance: everything below the balancing node s on the path to the new
      leaf q is marked; r is the child of s on that path. */
  method MarkBelow(x: Item, q: Cell, s: Cell, ghost b: Tree<Cell>) returns (r: Cell)
    requires b.Node? && x.key != b.item.key && Quiet(Child(b, x), x)
    requires Rep(s, AddLeaf(b, x, q)) && Separate(AddLeaf(b, x, q)) && q !in Cells(b)
    modifies Cells(AddLeaf(b, x, q))
    ensures Rep(s, Marked(b, x, q)) && Separate(Marked(b, x, q))
    ensures Cells(Marked(b, x, q)) == Cells(AddLeaf(b, x, q))
    ensures Child(Marked(b, x, q), x).Node? && r == Child(Marked(b, x, q), x).cell
  {
    ghost var child := Child(b, x);
    ghost var other := if x.key < b.item.key then b.right else b.left;
    assert AddLeaf(child, x, q).Node? && q !in Cells(child);
    MarkedCells(child, x, q);
    assert allocated(Cells(other)) && s !in Cells(other) && Cells(other) !! Cells(AddLeaf(child, x, q));
    r := if x.key < s.item.value.key then s.left else s.right;
    MarkPath(x, r, q, child);
    assert Rep(if x.key < b.item.key then s.right else s.left, other);
  }

  /** avl_balance: marks the path from the balancing node s down to the new leaf q, then either
      settles the balance at s or says which rotation is due there, about the child r. */
  method AvlBalance(x: Item, q: Cell, s: Cell, ghost b: Tree<Cell>)
      returns (rotation: Rotation, r: Cell, factor: int)
    requires b.Node? && x.key != b.item.key && Quiet(Child(b, x), x) && -1 <= b.bal <= 1
    requires Rep(s, AddLeaf(b, x, q)) && Separate(AddLeaf(b, x, q)) && q !in Cells(b)
    modifies Cells(AddLeaf(b, x, q))
    ensures factor == Towards(b.item.key, x.key)
    ensures Separate(Marked(b, x, q)) && Cells(Marked(b, x, q)) == Cells(AddLeaf(b, x, q))
    ensures rotation == Done ==>
              Rep(s, Rebalanced(b, x, q)) && Rebalanced(b, x, q) == Marked(b, x, q).(bal := s.balance)
    ensures rotation != Done ==>
              && Rep(s, Marked(b, x, q)) && b.bal == factor
              && Child(Marked(b, x, q), x).Node? && r == Child(Marked(b, x, q), x).cell
              && (rotation == SingleRotation <==> Child(Marked(b, x, q), x).bal == factor)
  {
    r := MarkBelow(x, q, s, b);
    ghost var m := Marked(b, x, q);
    factor := if x.key < s.item.value.key then LEFT else RIGHT;
    if s.balance == BALANCED {
      s.balance := factor;
      rotation := Done;
      assert Rep(s, m.(bal := factor));
    } else if s.balance == factor {
      rotation := if r.balance == factor then SingleRotation else DoubleRotation;
    } else {
      s.balance := BALANCED;
      rotation := Done;
      assert Rep(s, m.(bal := BALANCED));
    }
  }

  // ------------------------------------------------------------------ rotations

  /** The side of the tree that a factor names. */
  ghost function Side(m: Tree<Cell>, factor: int): Tree<Cell>
    requires m.Node?
  {
    if factor == RIGHT then m.right else m.left
  }

  lemma RotationCells(m: Tree<Cell>)
    requires m.Node? && Separate(m)
    ensures m.left.Node? ==> Cells(RotateRight(m)) == Cells(m) && Separate(RotateRight(m))
    ensures m.right.Node? ==> Cells(RotateLeft(m)) == Cells(m) && Separate(RotateLeft(m))
  {
  }

  /** A double rotation is two single ones, as far as cells and their places go. */
  lemma DoubleCells(m: Tree<Cell>)
    requires m.Node? && Separate(m)
    ensures m.left.Node? && m.left.right.Node? ==>
              Cells(DoubleRight(m)) == Cells(m) && Separate(DoubleRight(m))
    ensures m.right.Node? && m.right.left.Node? ==>
              Cells(DoubleLeft(m)) == Cells(m) && Separate(DoubleLeft(m))
  {
    if m.left.Node? && m.left.right.Node? {
      RotationCells(m.left);
      RotationCells(m.(left := RotateLeft(m.left)));
      SameButBalances(DoubleRight(m), RotateRight(m.(left := RotateLeft(m.left))));
    }
    if m.right.Node? && m.right.left.Node? {
      RotationCells(m.right);
      RotationCells(m.(right := RotateRight(m.right)));
      SameButBalances(DoubleLeft(m), RotateLeft(m.(right := RotateRight(m.right))));
    }
  }

  /** Two trees that differ in the balances of the top three nodes only. */
  lemma SameButBalances(t: Tree<Cell>, u: Tree<Cell>)
    requires t.Node? && u.Node? && t.left.Node? && u.left.Node? && t.right.Node? && u.right.Node?
    requires t == u.(bal := t.bal, left := u.left.(bal := t.left.bal), right := u.right.(bal := t.right.bal))
    ensures Cells(t) == Cells(u) && (Separate(t) <==> Separate(u))
  {
  }

  /** avl_single: a single rotation that lifts the child r over s. */
  method AvlSingle(factor: int, s: Cell, r: Cell, ghost m: Tree<Cell>) returns (p: Cell)
    requires factor == LEFT || factor == RIGHT
    requires m.Node? && Rep(s, m) && Separate(m) && Side(m, factor).Node? && r == Side(m, factor).cell
    modifies s, r
    ensures Rep(p, if factor == RIGHT then RotateLeft(m) else RotateRight(m))
  {
    p := r;
    assert Rep(r, Side(m, factor));
    if factor == RIGHT {
      s.right := r.left;
      r.left := s;
    } else {
      s.left := r.right;
      r.right := s;
    }
    s.balance := BALANCED;
    r.balance := BALANCED;
  }

  ghost predicate Clear(s: Cell, r: Cell, p: Cell, t: Tree<Cell>) {
    s !in Cells(t) && r !in Cells(t) && p !in Cells(t)
  }

  /** The links of a double rotation, with the balances as they were. */
  ghost function Lifted(m: Tree<Cell>, factor: int): Tree<Cell>
    requires m.Node? && Side(m, factor).Node? && Side(Side(m, factor), -factor).Node?
  {
    var r, p := Side(m, factor), Side(Side(m, factor), -factor);
    if factor == RIGHT then p.(left := m.(right := p.left), right := r.(left := p.right))
    else p.(left := r.(right := p.left), right := m.(left := p.right))
  }

  /** avl_double: a double rotation that lifts the inner grandchild over s. */
  method AvlDouble(factor: int, s: Cell, r: Cell, ghost m: Tree<Cell>) returns (p: Cell)
    requires factor == LEFT || factor == RIGHT
    requires m.Node? && Rep(s, m) && Separate(m) && Side(m, factor).Node? && r == Side(m, factor).cell
    requires Side(Side(m, factor), -factor).Node? && -1 <= Side(Side(m, factor), -factor).bal <= 1
    modifies s, r, Side(Side(m, factor), -factor).cell
    ensures Rep(p, if factor == RIGHT then DoubleLeft(m) else DoubleRight(m))
  {
    ghost var near, inner := Side(m, factor), Side(Side(m, factor), -factor);
    assert Rep(r, near);
    assert Rep(if factor == RIGHT then r.left else r.right, inner);
    p := if factor == RIGHT then r.left else r.right;
    assert Rep(p.left, inner.left) && Rep(p.right, inner.right);
    assert Separate(near) && Separate(inner) && Cells(inner) <= Cells(near);
    assert Clear(s, r, p, Side(m, -factor)) && Clear(s, r, p, Side(near, factor));
    assert Clear(s, r, p, inner.left) && Clear(s, r, p, inner.right);
    if factor == RIGHT {
      r.left := p.right;
      p.right := r;
      s.right := p.left;
      p.left := s;
    } else {
      r.right := p.left;
      p.left := r;
      s.left := p.right;
      p.right := s;
    }
    DoubleBalances(factor, s, r, p, m);
  }

  /** The balances that avl_double sets, from the balance of the lifted node. */
  method DoubleBalances(factor: int, s: Cell, r: Cell, p: Cell, ghost m: Tree<Cell>)
    requires factor == LEFT || factor == RIGHT
    requires m.Node? && Side(m, factor).Node? && Side(Side(m, factor), -factor).Node?
    requires s == m.cell && r == Side(m, factor).cell && p == Side(Side(m, factor), -factor).cell
    requires -1 <= Side(Side(m, factor), -factor).bal <= 1
    requires s != r && s != p && r != p
    requires Clear(s, r, p, Side(m, -factor)) && Clear(s, r, p, Side(Side(m, factor), factor))
    requires var inner := Side(Side(m, factor), -factor);
      Clear(s, r, p, inner.left) && Clear(s, r, p, inner.right)
    requires Rep(p, Lifted(m, factor))
    modifies s`balance, r`balance, p`balance
    ensures Rep(p, if factor == RIGHT then DoubleLeft(m) else DoubleRight(m))
  {
    ghost var was := Lifted(m, factor);
    assert Rep(p.left, was.left) && Rep(p.right, was.right);
    if p.balance == factor {
      s.balance := -factor;
      r.balance := BALANCED;
    } else if p.balance == BALANCED {
      s.balance := BALANCED;
      r.balance := BALANCED;
    } else {
      s.balance := BALANCED;
      r.balance := factor;
    }
    p.balance := BALANCED;
    ghost var t := if factor == RIGHT then DoubleLeft(m) else DoubleRight(m);
    assert Rep(p.left, t.left) && Rep(p.right, t.right);
  }

  // ------------------------------------------------------------------ btr_avl

  /** A rotation is only asked for where the tree leans and has the nodes to rotate. */
  lemma MarkedLeans(b: Tree<Cell>, x: Item, q: Cell)
    requires b.Node? && Avl(b) && x.key != b.item.key && Quiet(Child(b, x), x)
    requires b.bal == Towards(b.item.key, x.key)
    ensures var c := Child(Marked(b, x, q), x);
      && Avl(c) && c.Node? && (c.bal == LEFT || c.bal == RIGHT)
      && (c.bal == LEFT ==> c.left.Node? && -1 <= c.left.bal <= 1)
      && (c.bal == RIGHT ==> c.right.Node? && -1 <= c.right.bal <= 1)
  {
    QuietInsert(Child(b, x), x, q);
    InsertAvl(Child(b, x), x, q);
  }

  lemma RebalancedCells(b: Tree<Cell>, x: Item, q: Cell)
    requires b.Node? && Separate(Marked(b, x, q))
    ensures Separate(Rebalanced(b, x, q)) && Cells(Rebalanced(b, x, q)) == Cells(Marked(b, x, q))
  {
    RotationCells(Marked(b, x, q));
    DoubleCells(Marked(b, x, q));
  }

  /** The part of btr_avl from avl_balance to the rotation: rebalances the subtree at s. */
  method RebalanceAt(x: Item, q: Cell, s: Cell, ghost b: Tree<Cell>) returns (top: Cell)
    requires b.Node? && Avl(b) && x.key != b.item.key && Quiet(Child(b, x), x)
    requires Rep(s, AddLeaf(b, x, q)) && Separate(AddLeaf(b, x, q)) && q !in Cells(b)
    modifies Cells(AddLeaf(b, x, q))
    ensures Rep(top, Rebalanced(b, x, q)) && Separate(Rebalanced(b, x, q))
    ensures Cells(Rebalanced(b, x, q)) == Cells(AddLeaf(b, x, q))
  {
    var rotation, r, factor := AvlBalance(x, q, s, b);
    RebalancedCells(b, x, q);
    top := s;
    if rotation != Done {
      MarkedLeans(b, x, q);
    }
    if rotation == SingleRotation {
      top := AvlSingle(factor, s, r, Marked(b, x, q));
    } else if rotation == DoubleRotation {
      top := AvlDouble(factor, s, r, Marked(b, x, q));
    }
  }

  /** The caller's handle on a tree: the root pointer, which for an empty tree points to a cell
      without an item. */
  class BinaryTree {
    var root: Cell?
    ghost var shape: Tree<Cell>

    /** The cells of the tree, or the empty one. */
    ghost function Repr(): set<Cell>
      reads this
    {
      Cells(shape) + if root == null then {} else {root}
    }

    ghost predicate Valid()
      reads this, Repr()
    {
      if shape.Leaf? then root != null ==> root.item == None && Bare(root)
      else Rep(root, shape) && Separate(shape)
    }

    static ghost predicate Bare(c: Cell)
      reads c
    {
      c.left == null && c.right == null && c.balance == BALANCED
    }

    /** An empty tree, as its users set one up. */
    constructor ()
      ensures Valid() && fresh(Repr()) && shape == Leaf && root != null
    {
      var cell := new Cell(None);
      root, shape := cell, Leaf;
    }

    /** btr_avl: None for an argument or a result stands for NULL.  `c` is the cell that the new
        item ends up in. */
    method BtrAvl(item: Option<Item>) returns (r: Option<Item>, ghost c: Cell?)
      requires Valid() && Good(shape)
      modifies this, Repr()
      ensures Valid() && Good(shape)
      ensures fresh(Repr() - old(Repr())) && (root == null <==> old(root) == null)
      ensures item.Some? && old(root) != null ==>
                Inorder(shape) == InsertSorted(Inorder(old(shape)), item.value)
      ensures item == None || old(root) == null ==> r == None && shape == old(shape)
      ensures item.Some? && old(root) != null ==>
                var x, y := item.value, AvlSpec.Find(old(shape), item.value);
                && r == (if y == None then item else y)
                && (y.Some? ==> shape == old(shape))
                && (y == None ==> c != null && c !in old(Cells(shape)) && shape == Insert(old(shape), x, c).0)
                && (y == None ==> if old(shape).Node? then fresh(c) else c == old(root))
    {
      c := null;
      if item == None || root == null {
        return None, null;
      }
      if root.item == None {
        root.item := item;
        shape := Single(root, item.value);
        return item, root;
      }
      r, c := InsertInto(item.value);
    }

    /** The rest of btr_avl for a tree that holds something. */
    method InsertInto(x: Item) returns (r: Option<Item>, ghost c: Cell?)
      requires Rep(root, shape) && Separate(shape) && Good(shape) && shape.Node?
      modifies this, Cells(shape)
      ensures Rep(root, shape) && Separate(shape) && Good(shape) && shape.Node?
      ensures Inorder(shape) == InsertSorted(Inorder(old(shape)), x)
      ensures var y := AvlSpec.Find(old(shape), x);
        && r == (if y == None then Some(x) else y)
        && (y.Some? ==> shape == old(shape))
        && (y == None ==> c != null && fresh(c) && c !in Cells(old(shape)) &&
                          shape == Insert(old(shape), x, c).0 && Cells(shape) == Cells(old(shape)) + {c})
    {
      hide Good, InsertSorted, Insert, Avl, Separate, IsBalancing;
      var status, q, s, above;
      ghost var ctx, b;
      ghost var before := shape;
      GoodIsAvl(before);
      status, q, s, above, ctx, b := AvlInsert(x, root, shape);
      InsertGood(before, x, q);
      InsertInorder(before, x, q);
      InsertedNode(before, x, q);
      if status == Found {
        return q.item, null;
      }
      Settle(x, q, s, above, ctx, b);
      return Some(x), q;
    }

    /** The rest of btr_avl once the leaf is in: rebalance, and link the new subtree root. */
    method Settle(x: Item, q: Cell, s: Cell, above: Cell, ghost ctx: Ctx<Cell>, ghost b: Tree<Cell>)
      requires IsBalancing(ctx, b, x) && Avl(Plug(ctx, b)) && q !in Cells(b)
      requires s == b.cell && (!ctx.Top? ==> above == ctx.cell)
      requires Placed(s, AddLeaf(b, x, q), ctx, root)
      modifies this, Cells(AddLeaf(b, x, q)), CtxCells(ctx)
      ensures shape == Insert(Plug(ctx, b), x, q).0
      ensures Rep(root, shape) && Separate(shape)
      ensures Cells(shape) == Cells(AddLeaf(b, x, q)) + CtxCells(ctx)
    {
      PlugAvl(ctx, b);
      IterativeInsert(ctx, b, x, q);
      assert allocated(CtxCells(ctx));
      var top := RebalanceAt(x, q, s, b);
      assert RepCtx(s, ctx, root);
      TopIsRoot(s, ctx, root);
      ghost var t := Rebalanced(b, x, q);
      if top != s {
        Relink(top, s, above, ctx, t);
      }
      PlugRep(top, t, ctx, root);
      shape := Plug(ctx, t);
    }

    method Relink(top: Cell, s: Cell, above: Cell, ghost ctx: Ctx<Cell>, ghost t: Tree<Cell>)
      requires RepCtx(s, ctx, root) && SeparateCtx(ctx) && s !in CtxCells(ctx)
      requires !ctx.Top? ==> above == ctx.cell
      requires Rep(top, t) && Cells(t) !! CtxCells(ctx)
      modifies this`root, CtxCells(ctx)
      ensures RepCtx(top, ctx, root) && Rep(top, t)
    {
      TopIsRoot(s, ctx, root);
      assert allocated(Cells(t)) && allocated(CtxCells(ctx));
      if s == root {
        root := top;
      } else if s == above.right {
        above.right := top;
      } else {
        above.left := top;
      }
    }

    /** btr_find */
    method BtrFind(item: Option<Item>) returns (r: Option<Item>)
      requires Valid()
      ensures r == if item == None then None else AvlSpec.Find(shape, item.value)
    {
      if item == None || root == null || root.item == None {
        return None;
      }
      r := FindFrom(root, item.value, shape);
    }

    /** btr_add, which adds a leaf and does not rebalance. */
    method BtrAdd(item: Option<Item>) returns (r: Option<Item>, ghost c: Cell?)
      requires Valid()
      modifies this, Repr()
      ensures Valid() && fresh(Repr() - old(Repr()))
      ensures item == None ==> r == None && shape == old(shape)
      ensures item.Some? ==>
                && c != null && root != null && shape == AddLeaf(old(shape), item.value, c)
                && r == AvlSpec.Find(shape, item.value)
    {
      c := null;
      if item == None {
        return None, null;
      }
      if root != null && root.item == None {
        root.item := item;
        shape := Single(root, item.value);
        return item, root;
      }
      root, r, c := AddFrom(root, item.value, shape);
      shape := AddLeaf(shape, item.value, c);
    }

    /** btr_walk: the visits of a depth-first walk from the root. */
    method BtrWalk() returns (visits: seq<Visit>)
      requires Valid()
      ensures visits == Visits(shape, 0)
    {
      if root == null || root.item == None {
        return [];
      }
      visits := DepthLeft(root, 0, shape);
    }
  }

  lemma GoodIsAvl(t: Tree<Cell>)
    requires Good(t)
    ensures Avl(t) && Ordered(t)
  {
  }

  lemma InsertedNode(t: Tree<Cell>, x: Item, c: Cell)
    requires t.Node?
    ensures Insert(t, x, c).0.Node?
  {
  }

  /** Any arrivals, one btr_avl after the other: the tree is the one built by textbook insertion, and
      each call returns the first arrival with its key. */
  method AddAll(tree: BinaryTree, items: seq<Item>)
      returns (results: seq<Option<Item>>, ghost arrivals: seq<(Item, Cell)>)
    requires tree.Valid() && tree.shape == Leaf && tree.root != null
    modifies tree, tree.Repr()
    ensures tree.Valid() && fresh(tree.Repr() - old(tree.Repr()))
    ensures |arrivals| == |items| && forall i :: 0 <= i < |items| ==> arrivals[i].0 == items[i]
    ensures tree.shape == Build(arrivals) && Good(tree.shape)
    ensures results == Replies(arrivals)
  {
    results, arrivals := [], [];
    var i := 0;
    while i < |items|
      invariant 0 <= i == |arrivals| <= |items|
      invariant tree.Valid() && tree.root != null && fresh(tree.Repr() - old(tree.Repr()))
      invariant tree.shape == Build(arrivals) && Good(tree.shape)
      invariant forall j :: 0 <= j < i ==> arrivals[j].0 == items[j]
      invariant results == Replies(arrivals)
    {
      var r;
      ghost var cell;
      ghost var first, mid := old(tree.Repr()), tree.Repr();
      assert fresh(mid - first);
      label Before:
      r, cell := AddOne(tree, items[i], arrivals);
      assert forall o :: o in tree.Repr() - mid ==> !old@Before(allocated(o));
      assert forall o :: o in tree.Repr() && old(allocated(o)) ==> old@Before(allocated(o));
      assert forall o :: o in tree.Repr() - mid ==> !old(allocated(o));
      results := results + [r];
      arrivals := arrivals + [(items[i], cell)];
      i := i + 1;
    }
  }

  /** What btr_avl returns for each arrival: the first one with its key. */
  function Replies<C>(arrivals: seq<(Item, C)>): seq<Option<Item>> {
    if arrivals == [] then []
    else
      var n := |arrivals| - 1;
      Replies(arrivals[..n]) + [FirstArrival(arrivals, arrivals[n].0.key)]
  }

  method AddOne(tree: BinaryTree, x: Item, ghost arrivals: seq<(Item, Cell)>)
      returns (r: Option<Item>, ghost cell: Cell)
    requires tree.Valid() && tree.root != null && tree.shape == Build(arrivals) && Good(tree.shape)
    modifies tree, tree.Repr()
    ensures tree.Valid() && tree.root != null && fresh(tree.Repr() - old(tree.Repr())) && Good(tree.shape)
    ensures tree.shape == Build(arrivals + [(x, cell)])
    ensures Replies(arrivals + [(x, cell)]) == Replies(arrivals) + [r]
  {
    BuildFinds(arrivals, x);
    ghost var c;
    r, c := tree.BtrAvl(Some(x));
    cell := if c == null then tree.root else c;
    ArrivalAdded(arrivals, x, cell);
  }

  lemma ArrivalAdded(arrivals: seq<(Item, Cell)>, x: Item, c: Cell)
    ensures var more := arrivals + [(x, c)];
      && Build(more) == Insert(Build(arrivals), x, c).0
      && (AvlSpec.Find(Build(arrivals), x).Some? ==> Build(more) == Build(arrivals))
      && Replies(more) == Replies(arrivals) +
           [var y := FirstArrival(arrivals, x.key); if y == None then Some(x) else y]
  {
    var more := arrivals + [(x, c)];
    assert more[..|arrivals|] == arrivals;
    if AvlSpec.Find(Build(arrivals), x).Some? {
      InsertPresent(Build(arrivals), x, c);
    }
  }

  /** The recursion of btr_find. */
  method FindFrom(p: Cell?, x: Item, ghost t: Tree<Cell>) returns (r: Option<Item>)
    requires Rep(p, t)
    ensures r == AvlSpec.Find(t, x)
    decreases t
  {
    if p == null {
      return None;
    }
    if x.key == p.item.value.key {
      r := p.item;
    } else if x.key < p.item.value.key {
      r := FindFrom(p.left, x, t.left);
    } else {
      r := FindFrom(p.right, x, t.right);
    }
  }

  /** The recursion of btr_add; the link that pparent points to is passed in and handed back. */
  method AddFrom(p: Cell?, x: Item, ghost t: Tree<Cell>) returns (link: Cell, r: Option<Item>, ghost c: Cell)
    requires Rep(p, t) && Separate(t)
    modifies Cells(t)
    ensures Rep(link, AddLeaf(t, x, c)) && Separate(AddLeaf(t, x, c))
    ensures c in Cells(t) || fresh(c)
    ensures Cells(AddLeaf(t, x, c)) <= Cells(t) + {c}
    ensures r == AvlSpec.Find(AddLeaf(t, x, c), x)
    decreases t
  {
    if p == null {
      link := new Cell(Some(x));
      return link, Some(x), link;
    }
    link := p;
    assert allocated(Cells(t));
    if x.key < p.item.value.key {
      var l;
      l, r, c := AddFrom(p.left, x, t.left);
      p.left := l;
      assert Rep(p.left, AddLeaf(t.left, x, c)) && Rep(p.right, t.right);
    } else if x.key == p.item.value.key {
      r, c := p.item, p;
    } else {
      var l;
      l, r, c := AddFrom(p.right, x, t.right);
      p.right := l;
      assert Rep(p.right, AddLeaf(t.right, x, c)) && Rep(p.left, t.left);
    }
  }

  // ------------------------------------------------------------------ walking

  datatype Order = Preorder | Middle | AtLeaf | Postorder
  datatype Visit = Visit(item: Item, order: Order, level: nat)

  /** The visits that btr_depth_left makes. */
  function Visits(t: Tree<Cell>, level: nat): seq<Visit> {
    if t.Leaf? then []
    else
      [Visit(t.item, Preorder, level)] + Visits(t.left, level + 1)
      + [Visit(t.item, if t.left.Leaf? && t.right.Leaf? then AtLeaf else Middle, level)]
      + Visits(t.right, level + 1) + [Visit(t.item, Postorder, level)]
  }

  /** btr_depth_left */
  method DepthLeft(p: Cell?, level: nat, ghost t: Tree<Cell>) returns (visits: seq<Visit>)
    requires Rep(p, t)
    ensures visits == Visits(t, level)
    decreases t
  {
    if p == null {
      return [];
    }
    assert allocated(Cells(t));
    visits := [Visit(p.item.value, Preorder, level)];
    if p.left != null {
      var v := DepthLeft(p.left, level + 1, t.left);
      visits := visits + v;
    }
    if p.left == null && p.right == null {
      visits := visits + [Visit(p.item.value, AtLeaf, level)];
    } else {
      visits := visits + [Visit(p.item.value, Middle, level)];
    }
    if p.right != null {
      var v := DepthLeft(p.right, level + 1, t.right);
      visits := visits + v;
    }
    visits := visits + [Visit(p.item.value, Postorder, level)];
  }

  /** The items of the middle and leaf visits. */
  function InOrderVisits(visits: seq<Visit>): seq<Item> {
    if visits == [] then []
    else
      (if visits[0].order.Middle? || visits[0].order.AtLeaf? then [visits[0].item] else [])
      + InOrderVisits(visits[1..])
  }

  lemma {:induction false} InOrderVisitsAppend(a: seq<Visit>, b: seq<Visit>)
    ensures InOrderVisits(a + b) == InOrderVisits(a) + InOrderVisits(b)
  {
    if a == [] {
      assert a + b == b;
    } else {
      assert (a + b)[0] == a[0] && (a + b)[1..] == a[1..] + b;
      InOrderVisitsAppend(a[1..], b);
    }
  }

  /** The middle and leaf visits of a walk list every item once, in order; on an ordered tree
      that is by increasing key. */
  lemma {:induction false} WalkListsItems(t: Tree<Cell>, level: nat)
    ensures InOrderVisits(Visits(t, level)) == Inorder(t)
    ensures Ordered(t) ==> Sorted(InOrderVisits(Visits(t, level)))
  {
    if t.Node? {
      WalkListsItems(t.left, level + 1);
      WalkListsItems(t.right, level + 1);
      var pre, l := [Visit(t.item, Preorder, level)], Visits(t.left, level + 1);
      var mid := [Visit(t.item, if t.left.Leaf? && t.right.Leaf? then AtLeaf else Middle, level)];
      var r, post := Visits(t.right, level + 1), [Visit(t.item, Postorder, level)];
      assert Visits(t, level) == pre + l + mid + r + post;
      OneVisit(pre[0]);
      OneVisit(mid[0]);
      OneVisit(post[0]);
      hide Visits, InOrderVisits;
      InOrderVisitsAppend(pre, l);
      InOrderVisitsAppend(pre + l, mid);
      InOrderVisitsAppend(pre + l + mid, r);
      InOrderVisitsAppend(pre + l + mid + r, post);
    }
  }

  lemma OneVisit(v: Visit)
    ensures InOrderVisits([v]) == if v.order.Middle? || v.order.AtLeaf? then [v.item] else []
  {
    assert [v][1..] == [];
  }

  /** How many links a search follows before it meets the key, and the subtree it then stands on. */
  function Depth(t: Tree<Cell>, key: int): nat {
    if t.Leaf? || key == t.item.key then 0
    else 1 + Depth(if key < t.item.key then t.left else t.right, key)
  }

  function Below(t: Tree<Cell>, key: int): Tree<Cell> {
    if t.Leaf? || key == t.item.key then t else Below(if key < t.item.key then t.left else t.right, key)
  }

  /** Where the visits of the two sides stand among those of the tree. */
  lemma VisitsAt(t: Tree<Cell>, level: nat, i: nat)
    requires i < |Visits(t, level)|
    ensures t.Node?
    ensures var l, r := Visits(t.left, level + 1), Visits(t.right, level + 1);
      var n := |l|;
      && |Visits(t, level)| == n + |r| + 3
      && Visits(t, level)[i] ==
           if i == 0 then Visit(t.item, Preorder, level)
           else if i <= n then l[i - 1]
           else if i == n + 1 then Visit(t.item, if t.left.Leaf? && t.right.Leaf? then AtLeaf else Middle, level)
           else if i < n + 2 + |r| then r[i - n - 2]
           else Visit(t.item, Postorder, level)
  {
  }

  lemma {:induction false} VisitsInTree(t: Tree<Cell>, level: nat, i: nat)
    requires i < |Visits(t, level)|
    ensures Visits(t, level)[i].item in Inorder(t)
  {
    VisitsAt(t, level, i);
    var n := |Visits(t.left, level + 1)|;
    hide Visits;
    if 0 < i <= n {
      VisitsInTree(t.left, level + 1, i - 1);
    } else if n + 1 < i < n + 2 + |Visits(t.right, level + 1)| {
      VisitsInTree(t.right, level + 1, i - n - 2);
    }
  }

  /** The visit is told the level of its item: the level of the root and the links a search follows; and
      the items without anything below them get a leaf visit for a middle one. */
  ghost predicate VisitFits(t: Tree<Cell>, level: nat, v: Visit) {
    var s := Below(t, v.item.key);
    && v.level == level + Depth(t, v.item.key)
    && s.Node? && s.item == v.item
    && (v.order.AtLeaf? ==> s.left.Leaf? && s.right.Leaf?)
    && (v.order.Middle? ==> s.left.Node? || s.right.Node?)
  }

  lemma VisitFitsAbove(t: Tree<Cell>, level: nat, v: Visit)
    requires t.Node? && Ordered(t)
    ensures v.item in Inorder(t.left) && VisitFits(t.left, level + 1, v) ==> VisitFits(t, level, v)
    ensures v.item in Inorder(t.right) && VisitFits(t.right, level + 1, v) ==> VisitFits(t, level, v)
  {
    OrderedParts(t);
    hide Ordered, Inorder;
  }

  lemma {:induction false} VisitsFit(t: Tree<Cell>, level: nat, i: nat)
    requires Ordered(t) && i < |Visits(t, level)|
    ensures VisitFits(t, level, Visits(t, level)[i])
  {
    hide Visits, Ordered, Inorder;
    VisitsAt(t, level, i);
    OrderedParts(t);
    VisitFitsAbove(t, level, Visits(t, level)[i]);
    var n := |Visits(t.left, level + 1)|;
    if 0 < i <= n {
      hide VisitFits;
      VisitsFit(t.left, level + 1, i - 1);
      VisitsInTree(t.left, level + 1, i - 1);
    } else if n + 1 < i < n + 2 + |Visits(t.right, level + 1)| {
      hide VisitFits;
      VisitsFit(t.right, level + 1, i - n - 2);
      VisitsInTree(t.right, level + 1, i - n - 2);
    }
  }

  /** The walk is depth first: the preorder visit of an item comes before all other visits to it and to
      the items below it, the postorder visit after them. */
  lemma {:induction false} VisitsNest(t: Tree<Cell>, level: nat, i: nat, j: nat)
    requires Ordered(t) && i < |Visits(t, level)| && j < |Visits(t, level)|
    requires Visits(t, level)[j].item in Inorder(Below(t, Visits(t, level)[i].item.key))
    ensures Visits(t, level)[i].order.Preorder? ==> i <= j
    ensures Visits(t, level)[i].order.Postorder? ==> j <= i
  {
    hide Visits, Ordered, Inorder;
    VisitsAt(t, level, i);
    OrderedParts(t);
    var l, r := Visits(t.left, level + 1), Visits(t.right, level + 1);
    var n := |l|;
    if 0 < i <= n {
      VisitsInTree(t.left, level + 1, i - 1);
      BelowIsPart(t.left, l[i - 1].item.key, Visits(t, level)[j].item);
      JIsLeft(t, level, j);
      VisitsAt(t, level, j);
      VisitsNest(t.left, level + 1, i - 1, j - 1);
    } else if n + 1 < i < n + 2 + |r| {
      VisitsInTree(t.right, level + 1, i - n - 2);
      BelowIsPart(t.right, r[i - n - 2].item.key, Visits(t, level)[j].item);
      JIsRight(t, level, j);
      VisitsAt(t, level, j);
      VisitsNest(t.right, level + 1, i - n - 2, j - n - 2);
    }
  }

  /** The items of the visits of one kind. */
  function ItemsOn(visits: seq<Visit>, o: Order): seq<Item> {
    if visits == [] then []
    else ItemsOn(visits[..|visits| - 1], o)
         + if visits[|visits| - 1].order == o then [visits[|visits| - 1].item] else []
  }

  lemma {:induction false} ItemsOnAppend(a: seq<Visit>, b: seq<Visit>, o: Order)
    ensures ItemsOn(a + b, o) == ItemsOn(a, o) + ItemsOn(b, o)
  {
    if b == [] {
      assert a + b == a;
    } else {
      var n := |b| - 1;
      assert (a + b)[..|a| + n] == a + b[..n];
      ItemsOnAppend(a, b[..n], o);
      assert ItemsOn(a + b, o) == ItemsOn(a, o) + ItemsOn(b[..n], o) + if b[n].order == o then [b[n].item] else [];
    }
  }

  lemma ItemsOnFive(a: seq<Visit>, b: seq<Visit>, c: seq<Visit>, d: seq<Visit>, e: seq<Visit>, o: Order)
    ensures ItemsOn(a + b + c + d + e, o) ==
            ItemsOn(a, o) + ItemsOn(b, o) + ItemsOn(c, o) + ItemsOn(d, o) + ItemsOn(e, o)
  {
    hide ItemsOn;
    ItemsOnAppend(a, b, o);
    ItemsOnAppend(a + b, c, o);
    ItemsOnAppend(a + b + c, d, o);
    ItemsOnAppend(a + b + c + d, e, o);
  }

  /** The textbook orders. */
  function PreorderOf(t: Tree<Cell>): seq<Item> {
    if t.Leaf? then [] else [t.item] + PreorderOf(t.left) + PreorderOf(t.right)
  }

  function PostorderOf(t: Tree<Cell>): seq<Item> {
    if t.Leaf? then [] else PostorderOf(t.left) + PostorderOf(t.right) + [t.item]
  }

  /** The preorder visits list the items in preorder, the postorder visits in postorder. */
  lemma {:induction false} VisitsInOrders(t: Tree<Cell>, level: nat)
    ensures ItemsOn(Visits(t, level), Preorder) == PreorderOf(t)
    ensures ItemsOn(Visits(t, level), Postorder) == PostorderOf(t)
  {
    if t.Node? {
      VisitsInOrders(t.left, level + 1);
      VisitsInOrders(t.right, level + 1);
      NodeVisits(t, level, Preorder);
      NodeVisits(t, level, Postorder);
      hide Visits, ItemsOn;
    }
  }

  lemma NodeVisits(t: Tree<Cell>, level: nat, o: Order)
    requires t.Node? && (o.Preorder? || o.Postorder?)
    ensures ItemsOn(Visits(t, level), o) ==
            (if o.Preorder? then [t.item] else []) + ItemsOn(Visits(t.left, level + 1), o)
            + ItemsOn(Visits(t.right, level + 1), o) + if o.Postorder? then [t.item] else []
  {
    var pre, l := Visit(t.item, Preorder, level), Visits(t.left, level + 1);
    var mid := Visit(t.item, if t.left.Leaf? && t.right.Leaf? then AtLeaf else Middle, level);
    var r, post := Visits(t.right, level + 1), Visit(t.item, Postorder, level);
    assert Visits(t, level) == [pre] + l + [mid] + r + [post];
    ItemsOnParts(pre, l, mid, r, post, o);
    hide *;
  }

  lemma ItemsOnParts(pre: Visit, l: seq<Visit>, mid: Visit, r: seq<Visit>, post: Visit, o: Order)
    requires pre.order != o || post.order != o
    requires mid.order != o
    ensures ItemsOn([pre] + l + [mid] + r + [post], o) ==
            (if pre.order == o then [pre.item] else []) + ItemsOn(l, o)
            + ItemsOn(r, o) + if post.order == o then [post.item] else []
  {
    hide ItemsOn;
    OneItemOn(pre, o);
    OneItemOn(mid, o);
    OneItemOn(post, o);
    ItemsOnFive([pre], l, [mid], r, [post], o);
    assert ItemsOn(l, o) + [] == ItemsOn(l, o);
  }

  lemma OneItemOn(v: Visit, o: Order)
    ensures ItemsOn([v], o) == if v.order == o then [v.item] else []
  {
    assert [v][..0] == [];
  }

  lemma {:induction false} BelowIsPart(t: Tree<Cell>, key: int, x: Item)
    requires x in Inorder(Below(t, key))
    ensures x in Inorder(t)
  {
    if t.Node? && key != t.item.key {
      BelowIsPart(if key < t.item.key then t.left else t.right, key, x);
    }
  }

  lemma JIsLeft(t: Tree<Cell>, level: nat, j: nat)
    requires t.Node? && Ordered(t) && j < |Visits(t, level)| && Visits(t, level)[j].item in Inorder(t.left)
    ensures 0 < j <= |Visits(t.left, level + 1)|
  {
    VisitsAt(t, level, j);
    OrderedParts(t);
    var n := |Visits(t.left, level + 1)|;
    hide Visits, Ordered;
    if n + 1 < j < n + 2 + |Visits(t.right, level + 1)| {
      VisitsInTree(t.right, level + 1, j - n - 2);
    }
  }

  lemma JIsRight(t: Tree<Cell>, level: nat, j: nat)
    requires t.Node? && Ordered(t) && j < |Visits(t, level)| && Visits(t, level)[j].item in Inorder(t.right)
    ensures |Visits(t.left, level + 1)| + 1 < j < |Visits(t.left, level + 1)| + 2 + |Visits(t.right, level + 1)|
  {
    VisitsAt(t, level, j);
    OrderedParts(t);
    hide Visits, Ordered;
    if 0 < j <= |Visits(t.left, level + 1)| {
      VisitsInTree(t.left, level + 1, j - 1);
    }
  }

  /** Adding a leaf without rebalancing moves nothing: every search that went down some way still does. */
  lemma {:induction false} AddLeafKeepsDepth(t: Tree<Cell>, x: Item, c: Cell, key: int)
    ensures AvlSpec.Find(t, Item(key, 0)).Some? ==> Depth(AddLeaf(t, x, c), key) == Depth(t, key)
    ensures AvlSpec.Find(t, x).None? ==> Depth(AddLeaf(t, x, c), x.key) == Depth(t, x.key)
  {
    if t.Node? {
      AddLeafKeepsDepth(t.left, x, c, key);
      AddLeafKeepsDepth(t.right, x, c, key);
    }
  }
}
