/** The kernel's red-black tree, updated in place by rotations and the two fix-up loops. */
module RbTree {
  import opened RbShape
  import opened RbStore
  import opened RbKeys
  import opened RbInsert
  import opened RbDelete

  class Tree {
    var mem: Mem
    var root: Node
    ghost var shape: Shape

    ghost predicate Valid()
      reads this
    {
      At(mem, root, Top, shape) && RedBlack(shape)
    }

    /** The nodes of the tree in order. */
    ghost function Contents(): seq<Node>
      reads this
    {
      InOrder(shape)
    }

    constructor ()
      ensures Valid() && Contents() == []
    {
      mem := map[NIL := Links(NIL, NIL, NIL, false)];
      root := NIL;
      shape := Leaf;
    }

    lemma NoNil()
      requires Valid()
      ensures NIL !in Contents()
    {
      RepHas(mem, shape, NIL);
      InOrderMembers(shape);
    }

    lemma NoRepeats()
      requires Valid()
      ensures forall i, j :: 0 <= i < j < |Contents()| ==> Contents()[i] != Contents()[j]
    {
      InOrderDistinct(shape);
    }

    method LeftRotate(x: Node)
      requires CanRotate(mem, x, L)
      modifies this
      ensures mem == Rotated(old(mem), x, L)
      ensures root == RootAfter(old(mem), old(root), x, old(mem)[x].right)
    {
      var y := mem[x].right;
      mem := mem[x := mem[x].(right := mem[y].left)];
      if mem[y].left != NIL {
        mem := mem[mem[y].left := mem[mem[y].left].(parent := x)];
      }
      mem := mem[y := mem[y].(parent := mem[x].parent)];
      if mem[x].parent == NIL {
        root := y;
      } else if x == mem[mem[x].parent].left {
        mem := mem[mem[x].parent := mem[mem[x].parent].(left := y)];
      } else {
        mem := mem[mem[x].parent := mem[mem[x].parent].(right := y)];
      }
      mem := mem[y := mem[y].(left := x)];
      mem := mem[x := mem[x].(parent := y)];
    }

    method RightRotate(x: Node)
      requires CanRotate(mem, x, R)
      modifies this
      ensures mem == Rotated(old(mem), x, R)
      ensures root == RootAfter(old(mem), old(root), x, old(mem)[x].left)
    {
      var y := mem[x].left;
      mem := mem[x := mem[x].(left := mem[y].right)];
      if mem[y].right != NIL {
        mem := mem[mem[y].right := mem[mem[y].right].(parent := x)];
      }
      mem := mem[y := mem[y].(parent := mem[x].parent)];
      if mem[x].parent == NIL {
        root := y;
      } else if x == mem[mem[x].parent].right {
        mem := mem[mem[x].parent := mem[mem[x].parent].(right := y)];
      } else {
        mem := mem[mem[x].parent := mem[mem[x].parent].(left := y)];
      }
      mem := mem[y := mem[y].(right := x)];
      mem := mem[x := mem[x].(parent := y)];
    }

    /** One round of the insertion fix-up when the parent is a left child. */
    method InsertFixupLeft(z: Node, ghost c: Ctx, ghost t: Shape) returns (z': Node, ghost c': Ctx, ghost t': Shape)
      requires At(mem, root, c, t) && Rising(c, t) && z == t.node && c.In? && c.red && c.up.In? && c.up.side == L
      modifies this
      ensures At(mem, root, c', t') && Rising(c', t') && z' == t'.node && Depth(c') < Depth(c)
      ensures InOrder(Plug(c', t')) == InOrder(Plug(c, t))
    {
      hide At;
      hide Balanced;
      hide RedOk;
      hide Fits;
      hide ColorFits;
      hide Plug;
      hide InOrder;
      z', c', t' := z, c, t;
      Family(mem, root, c, t);
      var y := mem[mem[mem[z'].parent].parent].right;
      if mem[y].red {
        PushUp(mem, root, c, t);
        PushUpRising(c, t);
        mem := Painted(mem, mem[z'].parent, false);
        mem := Painted(mem, y, false);
        mem := Painted(mem, mem[mem[z'].parent].parent, true);
        z' := mem[mem[z'].parent].parent;
        c', t' := c.up.up, PushedUp(c, t);
      } else {
        if z' == mem[mem[z'].parent].right {
          InnerAt(mem, root, c, t);
          InnerRising(c, t);
          c', t' := InnerCtx(c, t), InnerFocus(c, t);
          z' := mem[z'].parent;
          LeftRotate(z');
          Family(mem, root, c', t');
        }
        OuterAt(mem, root, c', t');
        OuterRising(c', t');
        mem := Painted(mem, mem[z'].parent, false);
        mem := Painted(mem, mem[mem[z'].parent].parent, true);
        RightRotate(mem[mem[z'].parent].parent);
        c' := OuterCtx(c');
      }
    }

    /** One round of the insertion fix-up when the parent is a right child. */
    method InsertFixupRight(z: Node, ghost c: Ctx, ghost t: Shape) returns (z': Node, ghost c': Ctx, ghost t': Shape)
      requires At(mem, root, c, t) && Rising(c, t) && z == t.node && c.In? && c.red && c.up.In? && c.up.side == R
      modifies this
      ensures At(mem, root, c', t') && Rising(c', t') && z' == t'.node && Depth(c') < Depth(c)
      ensures InOrder(Plug(c', t')) == InOrder(Plug(c, t))
    {
      hide At;
      hide Balanced;
      hide RedOk;
      hide Fits;
      hide ColorFits;
      hide Plug;
      hide InOrder;
      z', c', t' := z, c, t;
      Family(mem, root, c, t);
      var y := mem[mem[mem[z'].parent].parent].left;
      if mem[y].red {
        PushUp(mem, root, c, t);
        PushUpRising(c, t);
        mem := Painted(mem, mem[z'].parent, false);
        mem := Painted(mem, y, false);
        mem := Painted(mem, mem[mem[z'].parent].parent, true);
        z' := mem[mem[z'].parent].parent;
        c', t' := c.up.up, PushedUp(c, t);
      } else {
        if z' == mem[mem[z'].parent].left {
          InnerAt(mem, root, c, t);
          InnerRising(c, t);
          c', t' := InnerCtx(c, t), InnerFocus(c, t);
          z' := mem[z'].parent;
          RightRotate(z');
          Family(mem, root, c', t');
        }
        OuterAt(mem, root, c', t');
        OuterRising(c', t');
        mem := Painted(mem, mem[z'].parent, false);
        mem := Painted(mem, mem[mem[z'].parent].parent, true);
        LeftRotate(mem[mem[z'].parent].parent);
        c' := OuterCtx(c');
      }
    }

    method InsertFixup(z: Node, ghost c: Ctx, ghost t: Shape) returns (ghost t': Shape)
      requires At(mem, root, c, t) && Rising(c, t) && z == t.node
      modifies this
      ensures At(mem, root, Top, t') && RedBlack(t') && InOrder(t') == InOrder(Plug(c, t))
    {
      hide At;
      hide Balanced;
      hide RedOk;
      hide Fits;
      hide ColorFits;
      hide Plug;
      hide InOrder;
      var x := z;
      ghost var c' := c;
      t' := t;
      ParentColor(mem, root, c', t');
      while mem[mem[x].parent].red
        invariant At(mem, root, c', t') && Rising(c', t') && x == t'.node
        invariant InOrder(Plug(c', t')) == InOrder(Plug(c, t))
        invariant x in mem && mem[x].parent in mem && (mem[mem[x].parent].red <==> c'.In? && c'.red)
        decreases Depth(c')
      {
        RisingParent(c', t');
        Family(mem, root, c', t');
        if mem[x].parent == mem[mem[mem[x].parent].parent].left {
          x, c', t' := InsertFixupLeft(x, c', t');
        } else {
          x, c', t' := InsertFixupRight(x, c', t');
        }
        ParentColor(mem, root, c', t');
      }
      t' := RisenRoot(mem, root, c', t');
      mem := Painted(mem, root, false);
    }

    /** The part of insertion after the descent to the empty place `c`. */
    method InsertAt(z: Node, y: Node, key: Keys, ghost c: Ctx) returns (ghost k: nat)
      requires Valid() && z != NIL && z !in Contents() && z in key && Sorted(key, Contents())
      requires At(mem, root, c, Leaf) && Plug(c, Leaf) == shape && y == ParentOf(c)
      requires AllLe(key, Before(c), key[z]) && AllGt(key, After(c), key[z])
      modifies this
      ensures Valid() && k <= |old(Contents())|
      ensures Contents() == old(Contents())[..k] + [z] + old(Contents())[k..]
      ensures AllLe(key, old(Contents())[..k], key[z]) && AllGt(key, old(Contents())[k..], key[z])
      ensures Sorted(key, Contents())
    {
      hide Rep;
      hide CRep;
      hide Distinct;
      hide CDistinct;
      hide Balanced;
      hide RedOk;
      ghost var m0, root0 := mem, root;
      InsertionPoint(mem, root, c, z, key);
      InsertionOrder(c, z, key);
      Pointers(mem, root, c, Leaf);
      mem := mem[z := Links(y, NIL, NIL, true)];
      if y == NIL {
        root := z;
      } else if key[z] < key[y] {
        mem := mem[y := mem[y].(left := z)];
      } else {
        mem := mem[y := mem[y].(right := z)];
      }
      ghost var t := Fork(Leaf, z, true, Leaf);
      Attach(m0, root0, mem, root, c, z);
      k := |Before(c)|;
      assert old(Contents())[..k] == Before(c) && old(Contents())[k..] == After(c);
      shape := InsertFixup(z, c, t);
    }

    method Insert(z: Node, key: Keys) returns (ghost k: nat)
      requires Valid() && z != NIL && z !in Contents() && z in key && Sorted(key, Contents())
      modifies this
      ensures Valid() && k <= |old(Contents())|
      ensures Contents() == old(Contents())[..k] + [z] + old(Contents())[k..]
      ensures AllLe(key, old(Contents())[..k], key[z]) && AllGt(key, old(Contents())[k..], key[z])
      ensures Sorted(key, Contents())
    {
      hide Rep;
      hide CRep;
      hide Distinct;
      hide CDistinct;
      hide Balanced;
      hide RedOk;
      var y := NIL;
      var x := root;
      ghost var c, t := Top, shape;
      Pointers(mem, root, c, t);
      while x != NIL
        invariant At(mem, root, c, t) && x == RootOf(t) && y == ParentOf(c) && Plug(c, t) == shape
        invariant x != NIL <==> t.Fork?
        invariant mem == old(mem) && root == old(root) && shape == old(shape)
        invariant AllLe(key, Before(c), key[z]) && AllGt(key, After(c), key[z])
        decreases t
      {
        Descend(key, c, t, key[z]);
        Pointers(mem, root, c, t);
        y := x;
        if key[z] < key[x] {
          Down(mem, root, c, t, L);
          x := mem[x].left;
          c, t := In(c, L, t.node, t.red, t.right), t.left;
        } else {
          Down(mem, root, c, t, R);
          x := mem[x].right;
          c, t := In(c, R, t.node, t.red, t.left), t.right;
        }
        Pointers(mem, root, c, t);
      }
      k := InsertAt(z, y, key, c);
    }

    method Transplant(u: Node, v: Node)
      requires u in mem && mem[u].parent in mem && v in mem
      modifies this
      ensures mem == Transplanted(old(mem), u, v)
      ensures root == RootAfter(old(mem), old(root), u, v)
    {
      if mem[u].parent == NIL {
        root := v;
      } else if u == mem[mem[u].parent].left {
        mem := mem[mem[u].parent := mem[mem[u].parent].(left := v)];
      } else {
        mem := mem[mem[u].parent := mem[mem[u].parent].(right := v)];
      }
      mem := mem[v := mem[v].(parent := mem[u].parent)];
    }

    /** Third case of the removal fix-up, focus on the left: only the sibling's near child is red. */
    method NearRedLeft(x: Node, w: Node, ghost c: Ctx, ghost t: Shape)
      requires At(mem, root, c, t) && x == RootOf(t) && x in mem && mem[x].parent == ParentOf(c)
      requires c.In? && c.side == L && c.sib.Fork? && Near(c).Fork? && w == c.sib.node
      modifies this
      ensures At(mem, root, NearRedCtx(c), t) && x in mem && mem[x].parent == c.node
    {
      hide At;
      hide Sinking;
      hide InOrder;
      hide Plug;
      hide Rotated;
      hide CanRotate;
      SibPointers(mem, root, c, t);
      NearRedAt(mem, root, c, t);
      mem := Painted(mem, mem[w].left, false);
      mem := Painted(mem, w, true);
      RightRotate(w);
      Pointers(mem, root, NearRedCtx(c), t);
      NilIn(mem, root, NearRedCtx(c), t);
    }

    /** Fourth case of the removal fix-up, focus on the left: the sibling's far child is red. */
    method FarRedLeft(x: Node, w: Node, ghost c: Ctx, ghost t: Shape)
      requires At(mem, root, c, t) && x == RootOf(t) && x in mem && mem[x].parent == ParentOf(c)
      requires c.In? && c.side == L && c.sib.Fork? && Far(c).Fork? && w == c.sib.node
      modifies this
      ensures At(mem, root, Top, Plug(c.up, FarRedTree(c, t)))
    {
      hide At;
      hide Sinking;
      hide InOrder;
      hide Plug;
      hide Rotated;
      hide CanRotate;
      SibPointers(mem, root, c, t);
      FarRedAt(mem, root, c, t);
      mem := Painted(mem, w, mem[mem[x].parent].red);
      mem := Painted(mem, mem[x].parent, false);
      mem := Painted(mem, mem[w].right, false);
      LeftRotate(mem[x].parent);
    }

    /** First case of the removal fix-up, focus on the left: the sibling is red. */
    method RedSibLeft(x: Node, w: Node, ghost c: Ctx, ghost t: Shape)
      requires At(mem, root, c, t) && x == RootOf(t) && x in mem && mem[x].parent == ParentOf(c)
      requires c.In? && c.side == L && c.sib.Fork? && w == c.sib.node
      modifies this
      ensures At(mem, root, RedSibCtx(c), t) && x in mem && mem[x].parent == c.node
    {
      hide At;
      hide Sinking;
      hide InOrder;
      hide Plug;
      hide Rotated;
      hide CanRotate;
      SibPointers(mem, root, c, t);
      RedSibAt(mem, root, c, t);
      mem := Painted(mem, w, false);
      mem := Painted(mem, mem[x].parent, true);
      LeftRotate(mem[x].parent);
      Pointers(mem, root, RedSibCtx(c), t);
      NilIn(mem, root, RedSibCtx(c), t);
    }

    /** The rest of one round of the removal fix-up, once the sibling is black. */
    method BlackSibLeft(x: Node, ghost c: Ctx, ghost t: Shape) returns (x': Node, ghost c': Ctx, ghost t': Shape)
      requires At(mem, root, c, t) && Sinking(c, t) && x == RootOf(t) && !IsRed(t) && x in mem &&
               mem[x].parent == ParentOf(c)
      requires c.In? && c.side == L && c.sib.Fork? && !IsRed(c.sib)
      modifies this
      ensures At(mem, root, c', t') && Sinking(c', t') && x' == RootOf(t') &&
              InOrder(Plug(c', t')) == InOrder(Plug(c, t))
      ensures c'.Top? || (c' == c.up && IsRed(t') == c.red)
      ensures x' in mem && (c'.In? ==> mem[x'].parent == c'.node)
    {
      hide At;
      hide Sinking;
      hide InOrder;
      hide Plug;
      hide Rotated;
      hide CanRotate;
      SibPointers(mem, root, c, t);
      x' := x;
      var w := mem[mem[x].parent].right;
      if !mem[mem[w].left].red && !mem[mem[w].right].red {
        BlackSibShape(c, t);
        BlackSibAt(mem, root, c, t);
        mem := Painted(mem, w, true);
        x' := mem[x].parent;
        c', t' := c.up, Join(L, t, c.node, c.red, c.sib.(red := true));
      } else {
        c' := c;
        if !mem[mem[w].right].red {
          NearRedShape(c, t);
          NearRedOrder(c, t);
          NearRedLeft(x, w, c, t);
          c' := NearRedCtx(c);
          SibPointers(mem, root, c', t);
          w := mem[mem[x].parent].right;
        }
        FarRedShape(c', t);
        FarRedOrder(c', t);
        FarRedLeft(x, w, c', t);
        x' := root;
        c', t' := Top, Plug(c'.up, FarRedTree(c', t));
      }
      Pointers(mem, root, c', t');
      NilIn(mem, root, c', t');
    }

    /** One round of the removal fix-up for a focus on the left of its parent. */
    method DeleteFixupLeft(x: Node, ghost c: Ctx, ghost t: Shape) returns (x': Node, ghost c': Ctx, ghost t': Shape)
      requires At(mem, root, c, t) && Sinking(c, t) && x == RootOf(t) && !IsRed(t) && x in mem &&
               mem[x].parent == ParentOf(c)
      requires c.In? && c.side == L && c.sib.Fork?
      modifies this
      ensures At(mem, root, c', t') && Sinking(c', t') && x' == RootOf(t') &&
              InOrder(Plug(c', t')) == InOrder(Plug(c, t))
      ensures c'.Top? || Depth(c') < Depth(c) || (Depth(c') == Depth(c) && IsRed(t'))
      ensures x' in mem && (c'.In? ==> mem[x'].parent == c'.node)
    {
      hide At;
      hide Sinking;
      hide InOrder;
      hide Plug;
      hide Rotated;
      hide CanRotate;
      SibPointers(mem, root, c, t);
      c' := c;
      var w := mem[mem[x].parent].right;
      if mem[w].red {
        RedSibShape(c, t);
        RedSibOrder(c, t);
        RedSibLeft(x, w, c, t);
        c' := RedSibCtx(c);
      }
      x', c', t' := BlackSibLeft(x, c', t);
    }

    /** Third case of the removal fix-up, focus on the right: only the sibling's near child is red. */
    method NearRedRight(x: Node, w: Node, ghost c: Ctx, ghost t: Shape)
      requires At(mem, root, c, t) && x == RootOf(t) && x in mem && mem[x].parent == ParentOf(c)
      requires c.In? && c.side == R && c.sib.Fork? && Near(c).Fork? && w == c.sib.node
      modifies this
      ensures At(mem, root, NearRedCtx(c), t) && x in mem && mem[x].parent == c.node
    {
      hide At;
      hide Sinking;
      hide InOrder;
      hide Plug;
      hide Rotated;
      hide CanRotate;
      SibPointers(mem, root, c, t);
      NearRedAt(mem, root, c, t);
      mem := Painted(mem, mem[w].right, false);
      mem := Painted(mem, w, true);
      LeftRotate(w);
      Pointers(mem, root, NearRedCtx(c), t);
      NilIn(mem, root, NearRedCtx(c), t);
    }

    /** Fourth case of the removal fix-up, focus on the right: the sibling's far child is red. */
    method FarRedRight(x: Node, w: Node, ghost c: Ctx, ghost t: Shape)
      requires At(mem, root, c, t) && x == RootOf(t) && x in mem && mem[x].parent == ParentOf(c)
      requires c.In? && c.side == R && c.sib.Fork? && Far(c).Fork? && w == c.sib.node
      modifies this
      ensures At(mem, root, Top, Plug(c.up, FarRedTree(c, t)))
    {
      hide At;
      hide Sinking;
      hide InOrder;
      hide Plug;
      hide Rotated;
      hide CanRotate;
      SibPointers(mem, root, c, t);
      FarRedAt(mem, root, c, t);
      mem := Painted(mem, w, mem[mem[x].parent].red);
      mem := Painted(mem, mem[x].parent, false);
      mem := Painted(mem, mem[w].left, false);
      RightRotate(mem[x].parent);
    }

    /** First case of the removal fix-up, focus on the right: the sibling is red. */
    method RedSibRight(x: Node, w: Node, ghost c: Ctx, ghost t: Shape)
      requires At(mem, root, c, t) && x == RootOf(t) && x in mem && mem[x].parent == ParentOf(c)
      requires c.In? && c.side == R && c.sib.Fork? && w == c.sib.node
      modifies this
      ensures At(mem, root, RedSibCtx(c), t) && x in mem && mem[x].parent == c.node
    {
      hide At;
      hide Sinking;
      hide InOrder;
      hide Plug;
      hide Rotated;
      hide CanRotate;
      SibPointers(mem, root, c, t);
      RedSibAt(mem, root, c, t);
      mem := Painted(mem, w, false);
      mem := Painted(mem, mem[x].parent, true);
      RightRotate(mem[x].parent);
      Pointers(mem, root, RedSibCtx(c), t);
      NilIn(mem, root, RedSibCtx(c), t);
    }

    /** The rest of one round of the removal fix-up, once the sibling is black. */
    method BlackSibRight(x: Node, ghost c: Ctx, ghost t: Shape) returns (x': Node, ghost c': Ctx, ghost t': Shape)
      requires At(mem, root, c, t) && Sinking(c, t) && x == RootOf(t) && !IsRed(t) && x in mem &&
               mem[x].parent == ParentOf(c)
      requires c.In? && c.side == R && c.sib.Fork? && !IsRed(c.sib)
      modifies this
      ensures At(mem, root, c', t') && Sinking(c', t') && x' == RootOf(t') &&
              InOrder(Plug(c', t')) == InOrder(Plug(c, t))
      ensures c'.Top? || (c' == c.up && IsRed(t') == c.red)
      ensures x' in mem && (c'.In? ==> mem[x'].parent == c'.node)
    {
      hide At;
      hide Sinking;
      hide InOrder;
      hide Plug;
      hide Rotated;
      hide CanRotate;
      SibPointers(mem, root, c, t);
      x' := x;
      var w := mem[mem[x].parent].left;
      if !mem[mem[w].right].red && !mem[mem[w].left].red {
        BlackSibShape(c, t);
        BlackSibAt(mem, root, c, t);
        mem := Painted(mem, w, true);
        x' := mem[x].parent;
        c', t' := c.up, Join(R, t, c.node, c.red, c.sib.(red := true));
      } else {
        c' := c;
        if !mem[mem[w].left].red {
          NearRedShape(c, t);
          NearRedOrder(c, t);
          NearRedRight(x, w, c, t);
          c' := NearRedCtx(c);
          SibPointers(mem, root, c', t);
          w := mem[mem[x].parent].left;
        }
        FarRedShape(c', t);
        FarRedOrder(c', t);
        FarRedRight(x, w, c', t);
        x' := root;
        c', t' := Top, Plug(c'.up, FarRedTree(c', t));
      }
      Pointers(mem, root, c', t');
      NilIn(mem, root, c', t');
    }

    /** One round of the removal fix-up for a focus on the right of its parent. */
    method DeleteFixupRight(x: Node, ghost c: Ctx, ghost t: Shape) returns (x': Node, ghost c': Ctx, ghost t': Shape)
      requires At(mem, root, c, t) && Sinking(c, t) && x == RootOf(t) && !IsRed(t) && x in mem &&
               mem[x].parent == ParentOf(c)
      requires c.In? && c.side == R && c.sib.Fork?
      modifies this
      ensures At(mem, root, c', t') && Sinking(c', t') && x' == RootOf(t') &&
              InOrder(Plug(c', t')) == InOrder(Plug(c, t))
      ensures c'.Top? || Depth(c') < Depth(c) || (Depth(c') == Depth(c) && IsRed(t'))
      ensures x' in mem && (c'.In? ==> mem[x'].parent == c'.node)
    {
      hide At;
      hide Sinking;
      hide InOrder;
      hide Plug;
      hide Rotated;
      hide CanRotate;
      SibPointers(mem, root, c, t);
      c' := c;
      var w := mem[mem[x].parent].left;
      if mem[w].red {
        RedSibShape(c, t);
        RedSibOrder(c, t);
        RedSibRight(x, w, c, t);
        c' := RedSibCtx(c);
      }
      x', c', t' := BlackSibRight(x, c', t);
    }

    method DeleteFixup(x: Node, ghost c: Ctx, ghost t: Shape) returns (ghost t': Shape)
      requires At(mem, root, c, t) && Sinking(c, t) && x == RootOf(t) && x in mem && mem[x].parent == ParentOf(c)
      modifies this
      ensures At(mem, root, Top, t') && RedBlack(t') && InOrder(t') == InOrder(Plug(c, t))
    {
      hide At;
      hide Sinking;
      hide InOrder;
      hide Plug;
      var y := x;
      ghost var c' := c;
      t' := t;
      SinkGuard(mem, root, c', t');
      while y != root && !mem[y].red
        invariant At(mem, root, c', t') && Sinking(c', t') && y == RootOf(t')
        invariant InOrder(Plug(c', t')) == InOrder(Plug(c, t))
        invariant y in mem && mem[y].red == IsRed(t') && (y == root <==> c'.Top?) && (c'.In? ==> c'.sib.Fork?)
        invariant c'.In? ==> mem[y].parent == c'.node
        decreases Depth(c') + if IsRed(t') then 0 else 1
      {
        SibPointers(mem, root, c', t');
        if y == mem[mem[y].parent].left {
          y, c', t' := DeleteFixupLeft(y, c', t');
        } else {
          y, c', t' := DeleteFixupRight(y, c', t');
        }
        SinkGuard(mem, root, c', t');
      }
      ghost var u := SunkRoot(mem, root, c', t');
      mem := Painted(mem, y, false);
      t' := u;
    }

    /** The leftmost node below `x`. */
    method Minimum(x: Node, ghost c: Ctx, ghost t: Shape) returns (y: Node, ghost cr: Ctx, ghost s: Shape)
      requires At(mem, root, c, t) && t.Fork? && x == t.node
      ensures Plug(cr, s) == t && LeftPath(cr) && s.Fork? && s.left.Leaf? && y == s.node
      ensures At(mem, root, Append(cr, c), s)
    {
      hide At;
      y, cr, s := x, Top, t;
      Pointers(mem, root, c, t);
      while mem[y].left != NIL
        invariant At(mem, root, Append(cr, c), s) && s.Fork? && y == s.node && Plug(cr, s) == t && LeftPath(cr)
        invariant y in mem && (mem[y].left != NIL <==> s.left.Fork?) && mem[y].left == RootOf(s.left)
        decreases s
      {
        Down(mem, root, Append(cr, c), s, L);
        cr, s := In(cr, L, s.node, s.red, s.right), s.left;
        y := mem[y].left;
        Pointers(mem, root, Append(cr, c), s);
      }
    }

    /** `y` takes over the place, the left subtree and the colour of `z`. */
    method TakeOver(z: Node, y: Node)
      requires z in mem && y in mem && mem[z].parent in mem && mem[z].left in mem && z != y && mem[z].parent != z
      modifies this
      ensures mem == Spliced(old(mem), z, y) && root == RootAfter(old(mem), old(root), z, y)
    {
      Transplant(z, y);
      mem := mem[y := mem[y].(left := mem[z].left)];
      mem := mem[mem[y].left := mem[mem[y].left].(parent := y)];
      mem := mem[y := mem[y].(red := mem[z].red)];
    }

    /** The successor is the right child. */
    method UnlinkChild(z: Node, y: Node, x: Node, ghost c: Ctx, ghost t: Shape)
      requires At(mem, root, c, t) && t.Fork? && z == t.node && t.left.Fork? && t.right.Fork? && t.right.left.Leaf?
      requires y == t.right.node && x == RootOf(t.right.right)
      modifies this
      ensures At(mem, root, In(c, R, y, t.red, t.left), t.right.right) && x in mem && mem[x].parent == y
    {
      hide At;
      hide SpliceReady;
      hide Spliced;
      ReadyChild(mem, root, c, t);
      mem := mem[x := mem[x].(parent := y)];
      SpliceAt(mem, root, c, t.left, z, t.red, t.right.right, y);
      TakeOver(z, y);
      ghost var t' := Fork(t.left, y, t.red, t.right.right);
      Down(mem, root, c, t', R);
      Pointers(mem, root, In(c, R, y, t.red, t.left), t.right.right);
      NilIn(mem, root, c, t');
    }

    /** The successor is further down: its right subtree takes its place first. */
    method UnlinkDeep(z: Node, y: Node, x: Node, ghost c: Ctx, ghost t: Shape, ghost cr: Ctx, ghost s: Shape)
      requires t.Fork? && z == t.node && t.left.Fork? && At(mem, root, Append(cr, In(c, R, z, t.red, t.left)), s)
      requires cr.In? && Plug(cr, s) == t.right && s.Fork? && y == s.node && x == RootOf(s.right)
      requires y in mem && mem[y].right == x
      modifies this
      ensures At(mem, root, Append(cr, In(c, R, y, t.red, t.left)), s.right) && x in mem && mem[x].parent == cr.node
    {
      hide At;
      hide SpliceReady;
      hide Spliced;
      hide Transplanted;
      ghost var o := In(c, R, z, t.red, t.left);
      ghost var m := Plug(cr, s.right);
      UnlinkedSuccessor(mem, root, c, t, cr, s);
      Transplant(y, mem[y].right);
      ReadyDeep(mem, root, c, t.(right := m), y);
      mem := mem[y := mem[y].(right := mem[z].right)];
      mem := mem[mem[y].right := mem[mem[y].right].(parent := y)];
      SpliceAt(mem, root, c, t.left, z, t.red, m, y);
      TakeOver(z, y);
      ghost var t' := Fork(t.left, y, t.red, m);
      Down(mem, root, c, t', R);
      ZipDown(mem, root, cr, o.(node := y), s.right);
      Pointers(mem, root, Append(cr, o.(node := y)), s.right);
      NilIn(mem, root, c, t');
    }

    /** Unlinks a node with both children: its successor takes its place. */
    method Unlink(z: Node, ghost c: Ctx, ghost t: Shape) returns (x: Node, yRed: bool, ghost c': Ctx, ghost t': Shape)
      requires At(mem, root, c, t) && RedBlack(Plug(c, t)) && t.Fork? && z == t.node && t.left.Fork? && t.right.Fork?
      modifies this
      ensures At(mem, root, c', t') && x == RootOf(t') && x in mem && mem[x].parent == ParentOf(c')
      ensures if yRed then RedBlack(Plug(c', t')) else Sinking(c', t')
      ensures InOrder(Plug(c, t)) == (Before(c) + InOrder(t.left)) + [z] + (InOrder(t.right) + After(c))
      ensures InOrder(Plug(c', t')) == (Before(c) + InOrder(t.left)) + (InOrder(t.right) + After(c))
    {
      hide At;
      hide Sinking;
      hide RedBlack;
      hide InOrder;
      hide Before;
      hide After;
      Pointers(mem, root, c, t);
      ghost var o := In(c, R, z, t.red, t.left);
      Down(mem, root, c, t, R);
      var y;
      ghost var cr, s;
      y, cr, s := Minimum(mem[z].right, o, t.right);
      RemoveTwoShape(c, t, cr, s);
      RemoveTwoOrder(c, t, cr, s);
      Pointers(mem, root, Append(cr, o), s);
      yRed := mem[y].red;
      x := mem[y].right;
      c', t' := Append(cr, o.(node := y)), s.right;
      SuccessorParent(mem, root, c, t, cr, s);
      if mem[y].parent == z {
        UnlinkChild(z, y, x, c, t);
      } else {
        UnlinkDeep(z, y, x, c, t, cr, s);
      }
    }

    method Remove(z: Node) returns (ghost a: seq<Node>, ghost b: seq<Node>)
      requires Valid() && z in Contents()
      modifies this
      ensures Valid()
      ensures old(Contents()) == a + [z] + b && Contents() == a + b
    {
      hide At;
      hide RedBlack;
      hide Sinking;
      hide InOrder;
      hide Plug;
      hide Before;
      hide After;
      ghost var c, t := LocateAt(mem, root, shape, z);
      a, b := Before(c) + InOrder(t.left), InOrder(t.right) + After(c);
      Pointers(mem, root, c, t);
      var x: Node;
      var yRed := mem[z].red;
      ghost var c', t';
      if mem[z].left == NIL {
        x := mem[z].right;
        c', t' := c, t.right;
        RemoveOne(mem, root, c, t, t');
        Transplant(z, mem[z].right);
      } else if mem[z].right == NIL {
        x := mem[z].left;
        c', t' := c, t.left;
        RemoveOne(mem, root, c, t, t');
        Transplant(z, mem[z].left);
      } else {
        x, yRed, c', t' := Unlink(z, c, t);
      }
      if !yRed {
        shape := DeleteFixup(x, c', t');
      } else {
        Whole(mem, root, c', t');
        shape := Plug(c', t');
      }
    }

    method First() returns (r: Node)
      requires Valid()
      ensures r == if Contents() == [] then NIL else Contents()[0]
    {
      hide At;
      hide RedBlack;
      Pointers(mem, root, Top, shape);
      if root == NIL {
        return NIL;
      }
      ghost var cr, s;
      r, cr, s := Minimum(root, Top, shape);
      MinimumFirst(cr, s);
    }

    /** Climbs from `x` until it is on the left of its parent. */
    method Climb(x: Node, ghost c: Ctx, ghost t: Shape) returns (r: Node)
      requires At(mem, root, c, t) && t.Fork? && x == t.node
      ensures var q, k := InOrder(Plug(c, t)), |Before(c)| + |InOrder(t)|;
              k <= |q| && r == if k < |q| then q[k] else NIL
    {
      hide At;
      hide Plug;
      LinkSide(mem, root, c, t, R);
      var x', y := x, mem[x].parent;
      ghost var c', t' := c, t;
      while y != NIL && x' == mem[y].right
        invariant At(mem, root, c', t') && Plug(c', t') == Plug(c, t) && t'.Fork? && x' == t'.node && y == ParentOf(c')
        invariant y in mem && (y == NIL <==> c'.Top?) && (c'.In? ==> (c'.side == R <==> mem[y].right == x'))
        invariant |Before(c')| + |InOrder(t')| == |Before(c)| + |InOrder(t)|
        decreases c'
      {
        Up(mem, root, c', t');
        x' := y;
        c', t' := c'.up, Join(c'.side, t', c'.node, c'.red, c'.sib);
        Pointers(mem, root, c', t');
        y := mem[y].parent;
        LinkSide(mem, root, c', t', R);
      }
      NextAbove(c', t');
      r := y;
    }

    /** The node after `x` in order, or `NIL` for no node; `k` is the position of `x`. */
    method Next(x: Node) returns (r: Node, ghost k: nat)
      requires Valid() && x in Contents()
      ensures k < |Contents()| && Contents()[k] == x
      ensures r == if k + 1 < |Contents()| then Contents()[k + 1] else NIL
    {
      hide At;
      hide RedBlack;
      hide Plug;
      ghost var c, t := LocateAt(mem, root, shape, x);
      Pointers(mem, root, c, t);
      k := |Before(c)| + |InOrder(t.left)|;
      FocusPosition(c, t);
      if mem[x].right != NIL {
        Down(mem, root, c, t, R);
        ghost var cr, s;
        r, cr, s := Minimum(mem[x].right, In(c, R, t.node, t.red, t.left), t.right);
        MinimumHead(cr, s);
        NextBelow(c, t, s.node, InOrder(Plug(cr, s.right)));
      } else {
        r := Climb(x, c, t);
      }
    }

    /** The last node whose key is at most `v`, or `NIL`; `k` nodes have such keys. */
    method FindKeyLe(v: int, key: Keys) returns (best: Node, ghost k: nat)
      requires Valid() && Sorted(key, Contents())
      ensures k <= |Contents()| && AllLe(key, Contents()[..k], v) && AllGt(key, Contents()[k..], v)
      ensures best == if k == 0 then NIL else Contents()[k - 1]
    {
      hide At;
      hide RedBlack;
      hide InOrder;
      best := NIL;
      var x := root;
      ghost var c, t := Top, shape;
      Pointers(mem, root, c, t);
      while x != NIL
        invariant At(mem, root, c, t) && Plug(c, t) == shape && x == RootOf(t) && (x != NIL <==> t.Fork?)
        invariant AllLe(key, Before(c), v) && AllGt(key, After(c), v)
        invariant best == if Before(c) == [] then NIL else Before(c)[|Before(c)| - 1]
        decreases t
      {
        Descend(key, c, t, v);
        Pointers(mem, root, c, t);
        if key[x] <= v {
          best := x;
          Down(mem, root, c, t, R);
          x := mem[x].right;
          c, t := In(c, R, t.node, t.red, t.left), t.right;
        } else {
          Down(mem, root, c, t, L);
          x := mem[x].left;
          c, t := In(c, L, t.node, t.red, t.right), t.left;
        }
        Pointers(mem, root, c, t);
      }
      k := |Before(c)|;
      LeafSplit(c);
    }

    /** Some node whose key is `v`, or `NIL` when there is none. */
    method FindKey(v: int, key: Keys) returns (r: Node)
      requires Valid() && Sorted(key, Contents())
      ensures r == NIL ==> forall n <- Contents() :: key[n] != v
      ensures r != NIL ==> r in Contents() && key[r] == v
    {
      hide At;
      hide RedBlack;
      hide InOrder;
      var x := root;
      ghost var c, t := Top, shape;
      Pointers(mem, root, c, t);
      while x != NIL
        invariant At(mem, root, c, t) && Plug(c, t) == shape && x == RootOf(t) && (x != NIL <==> t.Fork?)
        invariant AllLe(key, Before(c), v - 1) && AllGt(key, After(c), v)
        decreases t
      {
        DescendExact(key, c, t, v);
        Pointers(mem, root, c, t);
        if key[x] < v {
          Down(mem, root, c, t, R);
          x := mem[x].right;
          c, t := In(c, R, t.node, t.red, t.left), t.right;
        } else if key[x] > v {
          Down(mem, root, c, t, L);
          x := mem[x].left;
          c, t := In(c, L, t.node, t.red, t.right), t.left;
        } else {
          return x;
        }
        Pointers(mem, root, c, t);
      }
      LeafSplit(c);
      return NIL;
    }
  }
}
