/** Why insertion and its fix-up loop are right, step by step. */
module RbInsert {
  import opened RbShape
  import opened RbStore
  import opened RbKeys

  /** The loop invariant of the insertion fix-up: the focus is red and everything else
      follows the rules. */
  predicate Rising(c: Ctx, t: Shape) {
    IsRed(t) && Balanced(t) && RedOk(t) && Fits(c, BlackHeight(t)) && ColorFits(c, false)
  }

  /** Below a red parent there is a black grandparent. */
  lemma RisingParent(c: Ctx, t: Shape)
    requires Rising(c, t) && c.In? && c.red
    ensures c.up.In? && !c.up.red && !IsRed(c.sib)
  {
    assert ColorFits(c.up, true);
  }

  /** What the pointers around a focus with a grandparent hold. */
  lemma Family(m: Mem, root: Node, c: Ctx, t: Shape)
    requires At(m, root, c, t) && t.Fork? && c.In? && c.up.In?
    ensures t.node in m && m[t.node].parent == c.node
    ensures c.node in m && m[c.node].parent == c.up.node
    ensures c.side == L <==> m[c.node].left == t.node
    ensures c.side == R <==> m[c.node].right == t.node
    ensures c.up.node in m && c.node != c.up.node && c.node != t.node && c.up.node != t.node
    ensures c.up.side == L <==> m[c.up.node].left == c.node
    ensures var y := RootOf(c.up.sib); Get(m[c.up.node], Opp(c.up.side)) == y && y in m && m[y].red == IsRed(c.up.sib)
  {
    LinkSide(m, root, c, t, L);
    LinkSide(m, root, c, t, R);
    Up(m, root, c, t);
    LinkSide(m, root, c.up, Join(c.side, t, c.node, c.red, c.sib), L);
    assert t.node in Nodes(t) && c.up.node in CNodes(c.up) && CRep(m, root, c.up, c.node);
  }

  /** The focus's grandparent with the focus below it. */
  function Grand(c: Ctx, t: Shape): Shape
    requires c.In? && c.up.In?
  {
    Join(c.up.side, Join(c.side, t, c.node, c.red, c.sib), c.up.node, c.up.red, c.up.sib)
  }

  /** A red uncle: parent and uncle turn black, the grandparent red. */
  function PushedUp(c: Ctx, t: Shape): Shape
    requires c.In? && c.up.In?
  {
    Join(c.up.side, Join(c.side, t, c.node, false, c.sib), c.up.node, true, Blacken(c.up.sib))
  }

  lemma PushUpRising(c: Ctx, t: Shape)
    requires Rising(c, t) && c.In? && c.red && c.up.In? && IsRed(c.up.sib)
    ensures Rising(c.up.up, PushedUp(c, t))
    ensures InOrder(Plug(c.up.up, PushedUp(c, t))) == InOrder(Plug(c, t))
  {
    RisingParent(c, t);
    assert ColorFits(c.up, c.red) && Fits(c.up, BlackHeight(t));
    var p, y := Join(c.side, t, c.node, false, c.sib), Blacken(c.up.sib);
    assert RedOk(p) && Balanced(p) && BlackHeight(p) == BlackHeight(t) + 1;
    assert RedOk(y) && Balanced(y) && BlackHeight(y) == BlackHeight(t) + 1;
    assert InOrder(p) == InOrder(p.(red := c.red)) && InOrder(y) == InOrder(c.up.sib);
    PlugSame(c.up.up, Grand(c, t), PushedUp(c, t));
  }

  lemma PushUp(m: Mem, root: Node, c: Ctx, t: Shape)
    requires At(m, root, c, t) && c.In? && c.up.In? && c.up.sib.Fork?
    ensures c.node in m && c.up.node in m && c.up.sib.node in m
    ensures At(Painted(Painted(Painted(m, c.node, false), c.up.sib.node, false), c.up.node, true), root, c.up.up,
               PushedUp(c, t))
  {
    hide At;
    hide Nodes;
    var d := c.up.side;
    var g := Grand(c, t);
    Up(m, root, c, t);
    Up(m, root, c.up, Kid(g, d));
    PaintKid(m, root, c.up.up, g, d, false);
    var m1, g1 := Painted(m, c.node, false), Join(d, Kid(g, d).(red := false), g.node, g.red, Kid(g, Opp(d)));
    PaintKid(m1, root, c.up.up, g1, Opp(d), false);
    var m2, g2 := Painted(m1, c.up.sib.node, false),
      Join(Opp(d), Kid(g1, Opp(d)).(red := false), g.node, g.red, Kid(g1, d));
    Paint(m2, root, c.up.up, g2, true);
    assert g2.(red := true) == PushedUp(c, t);
  }

  /** An inner focus: the parent rotates away from the focus's side and becomes the focus. */
  function InnerCtx(c: Ctx, t: Shape): Ctx
    requires c.In? && c.up.In? && t.Fork?
  {
    In(c.up, c.up.side, t.node, t.red, Kid(t, Opp(c.up.side)))
  }

  function InnerFocus(c: Ctx, t: Shape): Shape
    requires c.In? && c.up.In? && t.Fork?
  {
    Join(c.up.side, c.sib, c.node, c.red, Kid(t, c.up.side))
  }

  lemma InnerRising(c: Ctx, t: Shape)
    requires Rising(c, t) && c.In? && c.red && c.up.In? && c.side == Opp(c.up.side)
    ensures Rising(InnerCtx(c, t), InnerFocus(c, t))
    ensures InOrder(Plug(InnerCtx(c, t), InnerFocus(c, t))) == InOrder(Plug(c, t))
  {
    RisingParent(c, t);
    assert ColorFits(c.up, c.red);
    var p := Join(c.side, t, c.node, c.red, c.sib);
    assert Join(c.up.side, InnerFocus(c, t), t.node, t.red, Kid(t, Opp(c.up.side))) == Rot(p, c.up.side);
    RotInOrder(p, c.up.side);
    PlugSame(c.up, p, Rot(p, c.up.side));
  }

  lemma InnerAt(m: Mem, root: Node, c: Ctx, t: Shape)
    requires At(m, root, c, t) && c.In? && c.up.In? && c.side == Opp(c.up.side) && t.Fork?
    ensures CanRotate(m, c.node, c.up.side) && Get(m[c.node], Opp(c.up.side)) == t.node
    ensures At(Rotated(m, c.node, c.up.side), RootAfter(m, root, c.node, t.node), InnerCtx(c, t), InnerFocus(c, t))
  {
    var d := c.up.side;
    var p := Join(c.side, t, c.node, c.red, c.sib);
    Up(m, root, c, t);
    RotatedAt(m, root, c.up, p, d);
    var m' := Rotated(m, c.node, d);
    Down(m', RootAfter(m, root, c.node, t.node), c.up, Rot(p, d), d);
  }

  /** An outer focus: the parent turns black and rises above the grandparent, which turns red. */
  function OuterCtx(c: Ctx): Ctx
    requires c.In? && c.up.In?
  {
    In(c.up.up, c.side, c.node, false, Join(c.side, c.sib, c.up.node, true, c.up.sib))
  }

  lemma OuterRising(c: Ctx, t: Shape)
    requires Rising(c, t) && c.In? && c.red && c.up.In? && c.side == c.up.side && !IsRed(c.up.sib)
    ensures Rising(OuterCtx(c), t)
    ensures InOrder(Plug(OuterCtx(c), t)) == InOrder(Plug(c, t))
  {
    RisingParent(c, t);
    assert ColorFits(c.up, c.red) && Fits(c.up, BlackHeight(t));
    var d := c.side;
    var g := Join(d, c.sib, c.up.node, true, c.up.sib);
    assert Balanced(g) && RedOk(g) && BlackHeight(g) == BlackHeight(t);
    var q := Join(d, t, c.node, false, g);
    var p := Join(d, t, c.node, c.red, c.sib);
    var gg := Grand(c, t);
    assert InOrder(gg) == InOrder(q) by {
      assert InOrder(p) == InOrder(p.left) + [p.node] + InOrder(p.right);
      assert InOrder(g) == InOrder(g.left) + [g.node] + InOrder(g.right);
    }
    PlugSame(c.up.up, gg, q);
  }

  lemma OuterAt(m: Mem, root: Node, c: Ctx, t: Shape)
    requires At(m, root, c, t) && c.In? && c.up.In? && c.side == c.up.side
    ensures c.node in m && c.up.node in m
    ensures var m' := Painted(Painted(m, c.node, false), c.up.node, true);
            CanRotate(m', c.up.node, Opp(c.side)) && Get(m'[c.up.node], c.side) == c.node &&
            At(Rotated(m', c.up.node, Opp(c.side)), RootAfter(m', root, c.up.node, c.node), OuterCtx(c), t)
  {
    hide Nodes;
    hide Rep;
    hide CRep;
    var d := c.side;
    var g := Grand(c, t);
    Up(m, root, c, t);
    Up(m, root, c.up, Kid(g, d));
    PaintKid(m, root, c.up.up, g, d, false);
    var g1 := Join(d, Kid(g, d).(red := false), g.node, g.red, Kid(g, Opp(d)));
    Paint(Painted(m, c.node, false), root, c.up.up, g1, true);
    var m', g2 := Painted(Painted(m, c.node, false), c.up.node, true), g1.(red := true);
    RotatedAt(m', root, c.up.up, g2, Opp(d));
    Down(Rotated(m', c.up.node, Opp(d)), RootAfter(m', root, c.up.node, c.node), c.up.up, Rot(g2, Opp(d)), d);
  }

  /** Painting the root black ends the insertion. */
  lemma RisenRoot(m: Mem, root: Node, c: Ctx, t: Shape) returns (t': Shape)
    requires At(m, root, c, t) && Rising(c, t) && (c.In? ==> !c.red)
    ensures root in m && At(Painted(m, root, false), root, Top, t') && RedBlack(t') &&
            InOrder(t') == InOrder(Plug(c, t))
  {
    Whole(m, root, c, t);
    t' := Plug(c, t);
    if c.Top? {
      t' := t.(red := false);
    } else {
      PlugRedBlack(c, t);
    }
    assert t'.Fork? by {
      PlugInOrder(c, t);
    }
    Paint(m, root, Top, Plug(c, t), false);
  }

  /** What the guard of the fix-up loop reads. */
  lemma ParentColor(m: Mem, root: Node, c: Ctx, t: Shape)
    requires At(m, root, c, t) && t.Fork?
    ensures t.node in m && m[t.node].parent == ParentOf(c) && ParentOf(c) in m
    ensures m[ParentOf(c)].red <==> c.In? && c.red
  {
  }

  /** Hanging a fresh red node in an empty place. */
  lemma Attach(m: Mem, root: Node, m': Mem, root': Node, c: Ctx, z: Node)
    requires At(m, root, c, Leaf) && z != NIL && z !in CNodes(c)
    requires Agree(m, m', CNodes(c) - {ParentOf(c)}) && z in m' && m'[z] == Links(ParentOf(c), NIL, NIL, true)
    requires NIL in m' && !m'[NIL].red
    requires if c.Top? then root' == z else root' == root && c.node in m' && m'[c.node] == Set(m[c.node], c.side, z)
    ensures At(m', root', c, Fork(Leaf, z, true, Leaf))
  {
    Relink(m, m', root, root', c, NIL, z);
  }

  /** All the insertion needs to know of the empty place its descent ends at. */
  lemma InsertionPoint(m: Mem, root: Node, c: Ctx, z: Node, key: Keys)
    requires At(m, root, c, Leaf) && RedBlack(Plug(c, Leaf))
    requires z in key && z !in InOrder(Plug(c, Leaf)) && AllLe(key, Before(c), key[z]) && AllGt(key, After(c), key[z])
    ensures z !in CNodes(c) && NIL !in CNodes(c) && CNodes(c) <= m.Keys
    ensures c.In? ==> c.node in key && (c.side == L <==> key[z] < key[c.node])
    ensures Rising(c, Fork(Leaf, z, true, Leaf))
  {
    PlugNodes(c, Leaf);
    InOrderMembers(Plug(c, Leaf));
    CRepHas(m, root, c, NIL);
    PlugRedBlack(c, Leaf);
    if c.In? {
      if c.side == L { assert After(c)[0] == c.node; } else { assert Before(c)[|Before(c)| - 1] == c.node; }
    }
  }

  lemma InsertionOrder(c: Ctx, z: Node, key: Keys)
    requires Sorted(key, InOrder(Plug(c, Leaf)))
    requires z in key && AllLe(key, Before(c), key[z]) && AllGt(key, After(c), key[z])
    ensures InOrder(Plug(c, Leaf)) == Before(c) + After(c)
    ensures InOrder(Plug(c, Fork(Leaf, z, true, Leaf))) == Before(c) + [z] + After(c)
    ensures Sorted(key, Before(c) + [z] + After(c))
  {
    PlugInOrder(c, Leaf);
    PlugInOrder(c, Fork(Leaf, z, true, Leaf));
    assert Before(c) + InOrder(Leaf) + After(c) == Before(c) + After(c);
    SortedInsert(key, Before(c), z, After(c));
  }
}
