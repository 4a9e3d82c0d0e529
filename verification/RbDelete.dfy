/** Why removal and its fix-up loop are right, step by step. */
module RbDelete {
  import opened RbShape
  import opened RbStore

  /** The loop invariant of the removal fix-up: the focus is one black node short and may be
      a red child of a red node; everything else follows the rules. */
  predicate Sinking(c: Ctx, t: Shape) {
    Balanced(t) && KidsRedOk(t) && Fits(c, BlackHeight(t) + 1) && ColorFits(c, false)
  }

  lemma ColorWeaken(c: Ctx, red: bool)
    requires ColorFits(c, red)
    ensures ColorFits(c, false)
  {
  }

  /** The focus below its parent. */
  function Family2(c: Ctx, t: Shape): Shape
    requires c.In?
  {
    Join(c.side, t, c.node, c.red, c.sib)
  }

  function Near(c: Ctx): Shape
    requires c.In? && c.sib.Fork?
  {
    Kid(c.sib, c.side)
  }

  function Far(c: Ctx): Shape
    requires c.In? && c.sib.Fork?
  {
    Kid(c.sib, Opp(c.side))
  }

  /** What the pointers around a focus with a sibling hold. */
  lemma SibPointers(m: Mem, root: Node, c: Ctx, t: Shape)
    requires At(m, root, c, t) && c.In? && c.sib.Fork?
    ensures c.node in m && c.node != NIL && c.sib.node in m && c.sib.node != NIL && c.node != c.sib.node
    ensures m[c.node] == Set(Links(ParentOf(c.up), c.sib.node, c.sib.node, c.red), c.side, RootOf(t))
    ensures m[c.sib.node] == Links(c.node, RootOf(c.sib.left), RootOf(c.sib.right), c.sib.red)
    ensures RootOf(t) != c.sib.node && RootOf(t) != c.node
    ensures c.sib.left.Fork? ==> c.sib.left.node in m && c.sib.left.node != NIL
    ensures c.sib.right.Fork? ==> c.sib.right.node in m && c.sib.right.node != NIL
    ensures RootOf(c.sib.left) in m && m[RootOf(c.sib.left)].red == IsRed(c.sib.left)
    ensures RootOf(c.sib.right) in m && m[RootOf(c.sib.right)].red == IsRed(c.sib.right)
  {
    assert c.sib.node in Nodes(c.sib) && c.node in CNodes(c);
    assert Rep(m, c.sib, c.node);
    assert Rep(m, c.sib.left, c.sib.node) && Rep(m, c.sib.right, c.sib.node);
    if t.Fork? { assert t.node in Nodes(t); }
  }

  // ---- A red sibling: it turns black, the parent red, and the parent rotates down

  function RedSibCtx(c: Ctx): Ctx
    requires c.In? && c.sib.Fork?
  {
    In(In(c.up, c.side, c.sib.node, false, Far(c)), c.side, c.node, true, Near(c))
  }

  lemma RedSibShape(c: Ctx, t: Shape)
    requires Sinking(c, t) && c.In? && IsRed(c.sib) && !IsRed(t)
    ensures Sinking(RedSibCtx(c), t) && RedSibCtx(c).sib.Fork? && !IsRed(RedSibCtx(c).sib)
  {
  }

  lemma RedSibOrder(c: Ctx, t: Shape)
    requires c.In? && c.sib.Fork?
    ensures InOrder(Plug(RedSibCtx(c), t)) == InOrder(Plug(c, t))
  {
    var f := Family2(c, t);
    RotInOrder(f, c.side);
    var g := Rot(f, c.side);
    var p := Join(c.side, t, c.node, true, Near(c));
    var g' := Join(c.side, p, c.sib.node, false, Far(c));
    assert InOrder(p) == InOrder(Kid(g, c.side));
    PlugSame(c.up, g', f);
  }

  /** The parent's subtree after the rotation. */
  function RedSibTree(c: Ctx, t: Shape): Shape
    requires c.In? && c.sib.Fork?
  {
    Join(c.side, Join(c.side, t, c.node, true, Near(c)), c.sib.node, false, Far(c))
  }

  /** Painting the sibling and then the parent. */
  function FamilyPainted(m: Mem, c: Ctx, sibRed: bool, red: bool): Mem
    requires c.In? && c.sib.Fork? && c.node in m && c.sib.node in m
  {
    Painted(Painted(m, c.sib.node, sibRed), c.node, red)
  }

  lemma PaintFamily(m: Mem, root: Node, c: Ctx, t: Shape, sibRed: bool, red: bool)
    requires At(m, root, c, t) && c.In? && c.sib.Fork?
    ensures c.node in m && c.sib.node in m
    ensures At(FamilyPainted(m, c, sibRed, red), root, c.up, Join(c.side, t, c.node, red, c.sib.(red := sibRed)))
  {
    hide Rep;
    hide CRep;
    hide Nodes;
    hide Distinct;
    hide CDistinct;
    Up(m, root, c, t);
    PaintKid(m, root, c.up, Family2(c, t), Opp(c.side), sibRed);
    var f := Join(c.side, t, c.node, c.red, c.sib.(red := sibRed));
    assert f == Join(Opp(c.side), c.sib.(red := sibRed), c.node, c.red, t);
    Paint(Painted(m, c.sib.node, sibRed), root, c.up, f, red);
  }

  lemma RedSibAt(m: Mem, root: Node, c: Ctx, t: Shape)
    requires At(m, root, c, t) && c.In? && c.sib.Fork?
    ensures c.node in m && c.sib.node in m
    ensures CanRotate(FamilyPainted(m, c, false, true), c.node, c.side) &&
            Get(FamilyPainted(m, c, false, true)[c.node], Opp(c.side)) == c.sib.node
    ensures At(Rotated(FamilyPainted(m, c, false, true), c.node, c.side),
               RootAfter(FamilyPainted(m, c, false, true), root, c.node, c.sib.node), RedSibCtx(c), t)
    ensures NIL in m && Rotated(FamilyPainted(m, c, false, true), c.node, c.side)[NIL] == m[NIL]
  {
    hide Rep;
    hide CRep;
    hide Nodes;
    hide Distinct;
    hide CDistinct;
    hide Rotated;
    SibPointers(m, root, c, t);
    PaintFamily(m, root, c, t, false, true);
    var f := Join(c.side, t, c.node, true, c.sib.(red := false));
    assert Rot(f, c.side) == RedSibTree(c, t);
    RotatedAt(FamilyPainted(m, c, false, true), root, c.up, f, c.side);
    RotatedNil(FamilyPainted(m, c, false, true), c.node, c.side);
    var m', root' := Rotated(FamilyPainted(m, c, false, true), c.node, c.side),
      RootAfter(FamilyPainted(m, c, false, true), root, c.node, c.sib.node);
    Down(m', root', c.up, RedSibTree(c, t), c.side);
    Down(m', root', RedSibCtx(c).up, Join(c.side, t, c.node, true, Near(c)), c.side);
  }

  // ---- A black sibling with black children: it turns red and the shortage moves up

  lemma BlackSibShape(c: Ctx, t: Shape)
    requires Sinking(c, t) && c.In? && !IsRed(t) && c.sib.Fork? && !IsRed(c.sib) && !IsRed(c.sib.left) &&
             !IsRed(c.sib.right)
    ensures Sinking(c.up, Join(c.side, t, c.node, c.red, c.sib.(red := true)))
    ensures InOrder(Plug(c.up, Join(c.side, t, c.node, c.red, c.sib.(red := true)))) == InOrder(Plug(c, t))
  {
    ColorWeaken(c.up, c.red);
    var w := c.sib.(red := true);
    assert Balanced(w) && RedOk(w) && BlackHeight(w) == BlackHeight(t) && InOrder(w) == InOrder(c.sib);
    PlugSame(c.up, Join(c.side, t, c.node, c.red, w), Family2(c, t));
  }

  lemma BlackSibAt(m: Mem, root: Node, c: Ctx, t: Shape)
    requires At(m, root, c, t) && c.In? && c.sib.Fork?
    ensures c.sib.node in m
    ensures At(Painted(m, c.sib.node, true), root, c.up, Join(c.side, t, c.node, c.red, c.sib.(red := true)))
  {
    hide Rep;
    hide CRep;
    hide Nodes;
    hide Distinct;
    hide CDistinct;
    Up(m, root, c, t);
    PaintKid(m, root, c.up, Family2(c, t), Opp(c.side), true);
  }

  // ---- Only the near child is red: it turns black, the sibling red, and rotates above it

  /** The sibling with its near child black and itself red, before it rotates. */
  function NearPaintedSib(c: Ctx): Shape
    requires c.In? && c.sib.Fork? && Near(c).Fork?
  {
    Join(c.side, Near(c).(red := false), c.sib.node, true, Far(c))
  }

  function NearRedCtx(c: Ctx): Ctx
    requires c.In? && c.sib.Fork? && Near(c).Fork?
  {
    c.(sib := Rot(NearPaintedSib(c), Opp(c.side)))
  }

  lemma NearRedShape(c: Ctx, t: Shape)
    requires Sinking(c, t) && c.In? && c.sib.Fork? && !IsRed(c.sib) && IsRed(Near(c)) && !IsRed(Far(c))
    ensures Sinking(NearRedCtx(c), t)
    ensures var c' := NearRedCtx(c); c'.sib.Fork? && !IsRed(c'.sib) && IsRed(Far(c'))
  {
    var n, w, d := Near(c), c.sib, c.side;
    assert Balanced(n) && RedOk(n) && Balanced(Far(c)) && RedOk(Far(c)) && BlackHeight(n) == BlackHeight(Far(c));
    var w' := Join(Opp(d), Far(c), w.node, true, Kid(n, Opp(d)));
    assert Balanced(w') && RedOk(w') && BlackHeight(w') == BlackHeight(Far(c));
    assert NearRedCtx(c).sib == Join(d, Kid(n, d), n.node, false, w');
  }

  lemma NearRedOrder(c: Ctx, t: Shape)
    requires c.In? && c.sib.Fork? && Near(c).Fork?
    ensures InOrder(Plug(NearRedCtx(c), t)) == InOrder(Plug(c, t))
  {
    var w := NearPaintedSib(c);
    RotInOrder(w, Opp(c.side));
    assert InOrder(Near(c)) == InOrder(Near(c).(red := false));
    assert InOrder(w) == InOrder(c.sib);
    PlugSame(c.up, Join(c.side, t, c.node, c.red, Rot(w, Opp(c.side))), Family2(c, t));
  }

  function NearPainted(m: Mem, c: Ctx): Mem
    requires c.In? && c.sib.Fork? && Near(c).Fork? && c.sib.node in m && Near(c).node in m
  {
    Painted(Painted(m, Near(c).node, false), c.sib.node, true)
  }

  lemma NearRedAt(m: Mem, root: Node, c: Ctx, t: Shape)
    requires At(m, root, c, t) && c.In? && c.sib.Fork? && Near(c).Fork?
    ensures c.sib.node in m && Near(c).node in m && NIL in m
    ensures CanRotate(NearPainted(m, c), c.sib.node, Opp(c.side))
    ensures Get(NearPainted(m, c)[c.sib.node], c.side) == Near(c).node
    ensures At(Rotated(NearPainted(m, c), c.sib.node, Opp(c.side)),
               RootAfter(NearPainted(m, c), root, c.sib.node, Near(c).node), NearRedCtx(c), t)
    ensures Rotated(NearPainted(m, c), c.sib.node, Opp(c.side))[NIL] == m[NIL]
  {
    hide Rep;
    hide CRep;
    hide Nodes;
    hide Distinct;
    hide CDistinct;
    hide Rotated;
    hide CNodes;
    var d := c.side;
    var k := In(c.up, Opp(d), c.node, c.red, t);
    Up(m, root, c, t);
    Down(m, root, c.up, Family2(c, t), Opp(d));
    PaintKid(m, root, k, c.sib, d, false);
    var w := Join(d, Near(c).(red := false), c.sib.node, c.sib.red, Far(c));
    Paint(Painted(m, Near(c).node, false), root, k, w, true);
    assert w.(red := true) == NearPaintedSib(c);
    SibPointers(m, root, c, t);
    RotatedAt(NearPainted(m, c), root, k, NearPaintedSib(c), Opp(d));
    RotatedNil(NearPainted(m, c), c.sib.node, Opp(d));
    var m', root' := Rotated(NearPainted(m, c), c.sib.node, Opp(d)),
      RootAfter(NearPainted(m, c), root, c.sib.node, Near(c).node);
    var w' := Rot(NearPaintedSib(c), Opp(d));
    Up(m', root', k, w');
    Down(m', root', c.up, Join(d, t, c.node, c.red, w'), d);
  }

  // ---- The far child is red: the sibling takes the parent's place and colour, and all is well

  function FarRedTree(c: Ctx, t: Shape): Shape
    requires c.In? && c.sib.Fork?
  {
    Join(c.side, Join(c.side, t, c.node, false, Near(c)), c.sib.node, c.red, Blacken(Far(c)))
  }

  lemma FarRedShape(c: Ctx, t: Shape)
    requires Sinking(c, t) && c.In? && !IsRed(t) && c.sib.Fork? && !IsRed(c.sib) && IsRed(Far(c))
    ensures RedBlack(Plug(c.up, FarRedTree(c, t)))
    ensures Sinking(Top, Plug(c.up, FarRedTree(c, t)))
  {
    SibParts(c, t);
    var p := Join(c.side, t, c.node, false, Near(c));
    var f := Blacken(Far(c));
    JoinBlack(c.side, t, c.node, Near(c));
    assert Balanced(f) && RedOk(f) && BlackHeight(f) == BlackHeight(t) + 1;
    JoinBlacks(c.side, p, c.sib.node, c.red, f);
    PlugRedBlack(c.up, FarRedTree(c, t));
  }

  /** Both children of a black sibling are as high as the sunken focus. */
  lemma SibParts(c: Ctx, t: Shape)
    requires Sinking(c, t) && c.In? && c.sib.Fork? && !IsRed(c.sib)
    ensures Balanced(Far(c)) && RedOk(Far(c)) && BlackHeight(Far(c)) == BlackHeight(t)
    ensures Balanced(Near(c)) && RedOk(Near(c)) && BlackHeight(Near(c)) == BlackHeight(t)
  {
  }

  /** Two valid trees of one height under a black node. */
  lemma JoinBlack(d: Side, a: Shape, x: Node, b: Shape)
    requires Balanced(a) && RedOk(a) && Balanced(b) && RedOk(b) && BlackHeight(a) == BlackHeight(b)
    ensures var p := Join(d, a, x, false, b);
            Balanced(p) && RedOk(p) && !IsRed(p) && BlackHeight(p) == BlackHeight(a) + 1
  {
  }

  /** Two valid trees of one height, both with black roots, under a node of either colour. */
  lemma JoinBlacks(d: Side, a: Shape, x: Node, red: bool, b: Shape)
    requires Balanced(a) && RedOk(a) && !IsRed(a) && Balanced(b) && RedOk(b) && !IsRed(b) &&
             BlackHeight(a) == BlackHeight(b)
    ensures var p := Join(d, a, x, red, b);
            Balanced(p) && RedOk(p) && IsRed(p) == red && BlackHeight(p) == BlackHeight(a) + if red then 0 else 1
  {
  }

  lemma FarRedOrder(c: Ctx, t: Shape)
    requires c.In? && c.sib.Fork?
    ensures InOrder(Plug(Top, Plug(c.up, FarRedTree(c, t)))) == InOrder(Plug(c, t))
  {
    var f := Family2(c, t);
    RotInOrder(f, c.side);
    var p := Join(c.side, t, c.node, false, Near(c));
    assert InOrder(p) == InOrder(Kid(Rot(f, c.side), c.side)) && InOrder(Blacken(Far(c))) == InOrder(Far(c));
    PlugSame(c.up, FarRedTree(c, t), f);
  }

  function FarPainted(m: Mem, c: Ctx): Mem
    requires c.In? && c.sib.Fork? && Far(c).Fork? && c.node in m && c.sib.node in m && Far(c).node in m
  {
    Painted(FamilyPainted(m, c, c.red, false), Far(c).node, false)
  }

  lemma FarPaintedAt(m: Mem, root: Node, c: Ctx, t: Shape)
    requires At(m, root, c, t) && c.In? && c.sib.Fork? && Far(c).Fork?
    ensures c.node in m && c.sib.node in m && Far(c).node in m
    ensures At(FarPainted(m, c), root, c.up,
               Join(c.side, t, c.node, false, Join(c.side, Near(c), c.sib.node, c.red, Blacken(Far(c)))))
  {
    hide Rep;
    hide CRep;
    hide Nodes;
    hide Distinct;
    hide CDistinct;
    hide CNodes;
    SibPointers(m, root, c, t);
    var d := c.side;
    PaintFamily(m, root, c, t, c.red, false);
    var w := c.sib.(red := c.red);
    var f := Join(d, t, c.node, false, w);
    var m1 := FamilyPainted(m, c, c.red, false);
    var k := In(c.up, Opp(d), c.node, false, t);
    Down(m1, root, c.up, f, Opp(d));
    PaintKid(m1, root, k, w, Opp(d), false);
    var w' := Join(d, Near(c), c.sib.node, c.red, Blacken(Far(c)));
    assert w' == Join(Opp(d), Far(c).(red := false), c.sib.node, c.red, Near(c));
    Up(FarPainted(m, c), root, k, w');
  }

  lemma FarNil(m: Mem, root: Node, c: Ctx, t: Shape)
    requires At(m, root, c, t) && c.In? && c.sib.Fork? && Far(c).Fork?
    ensures c.node in m && c.sib.node in m && Far(c).node in m && NIL in m && NIL in FarPainted(m, c) &&
            FarPainted(m, c)[NIL] == m[NIL]
  {
    SibPointers(m, root, c, t);
  }

  lemma FarRedAt(m: Mem, root: Node, c: Ctx, t: Shape)
    requires At(m, root, c, t) && c.In? && c.sib.Fork? && Far(c).Fork?
    ensures c.node in m && c.sib.node in m && Far(c).node in m && NIL in m
    ensures CanRotate(FarPainted(m, c), c.node, c.side) && Get(FarPainted(m, c)[c.node], Opp(c.side)) == c.sib.node
    ensures At(Rotated(FarPainted(m, c), c.node, c.side), RootAfter(FarPainted(m, c), root, c.node, c.sib.node), Top,
               Plug(c.up, FarRedTree(c, t)))
    ensures Rotated(FarPainted(m, c), c.node, c.side)[NIL] == m[NIL]
  {
    FarNil(m, root, c, t);
    hide Rep;
    hide CRep;
    hide Nodes;
    hide Distinct;
    hide CDistinct;
    hide Rotated;
    hide FarPainted;
    FarPaintedAt(m, root, c, t);
    var f := Join(c.side, t, c.node, false, Join(c.side, Near(c), c.sib.node, c.red, Blacken(Far(c))));
    assert Rot(f, c.side) == FarRedTree(c, t);
    RotatedAt(FarPainted(m, c), root, c.up, f, c.side);
    RotatedNil(FarPainted(m, c), c.node, c.side);
    Whole(Rotated(FarPainted(m, c), c.node, c.side), RootAfter(FarPainted(m, c), root, c.node, c.sib.node), c.up,
          FarRedTree(c, t));
  }

  // ---- The loop's ends

  lemma NilIn(m: Mem, root: Node, c: Ctx, t: Shape)
    requires At(m, root, c, t)
    ensures NIL in m && RootOf(t) in m
  {
  }

  lemma {:induction false} RootAbove(m: Mem, root: Node, c: Ctx, x: Node)
    requires CRep(m, root, c, x) && c.In?
    ensures root in CNodes(c)
  {
    if c.up.In? { RootAbove(m, root, c.up, c.node); }
  }

  /** What the guard of the removal fix-up reads. */
  lemma SinkGuard(m: Mem, root: Node, c: Ctx, t: Shape)
    requires At(m, root, c, t) && Sinking(c, t)
    ensures RootOf(t) in m && m[RootOf(t)].red == IsRed(t)
    ensures RootOf(t) == root <==> c.Top?
    ensures c.In? ==> c.sib.Fork?
  {
    if c.In? {
      RootAbove(m, root, c, RootOf(t));
      CRepHas(m, root, c, RootOf(t));
      if t.Fork? { assert t.node in Nodes(t); }
    }
  }

  /** Painting the focus black ends the removal. */
  lemma SunkRoot(m: Mem, root: Node, c: Ctx, t: Shape) returns (t': Shape)
    requires At(m, root, c, t) && Sinking(c, t) && (c.In? ==> IsRed(t))
    ensures RootOf(t) in m && At(Painted(m, RootOf(t), false), root, Top, t') && RedBlack(t')
    ensures InOrder(t') == InOrder(Plug(c, t))
  {
    t' := Plug(c, Blacken(t));
    PlugRedBlack(c, Blacken(t));
    PlugSame(c, t, Blacken(t));
    if t.Fork? {
      Paint(m, root, c, t, false);
    } else {
      assert Painted(m, NIL, false) == m;
    }
    Whole(Painted(m, RootOf(t), false), root, c, Blacken(t));
  }

  // ---- Taking the node out

  /** The records once the subtree at `v` takes the place of `u`. */
  function Transplanted(m: Mem, u: Node, v: Node): Mem
    requires u in m && m[u].parent in m && v in m
  {
    var m' := LinkedAbove(m, u, v, L);
    m'[v := m'[v].(parent := m'[u].parent)]
  }

  lemma TransplantCtx(m: Mem, root: Node, c: Ctx, t: Shape, v: Node)
    requires At(m, root, c, t) && t.Fork? && v in m && v !in CNodes(c) && v != t.node
    ensures t.node in m && m[t.node].parent in m && CNodes(c) <= m.Keys && NIL !in CNodes(c)
    ensures var m' := Transplanted(m, t.node, v);
            CRep(m', RootAfter(m, root, t.node, v), c, v) && m'.Keys == m.Keys &&
            m'[v] == m[v].(parent := ParentOf(c)) &&
            Agree(m, m', m.Keys - CNodes(c) - {v})
  {
    LinkSide(m, root, c, t, L);
    CRepHas(m, root, c, t.node);
    assert c.In? ==> c.node in CNodes(c);
    Relink(m, Transplanted(m, t.node, v), root, RootAfter(m, root, t.node, v), c, t.node, v);
  }

  lemma TransplantAt(m: Mem, root: Node, c: Ctx, t: Shape, t': Shape, q: Node)
    requires At(m, root, c, t) && t.Fork? && Rep(m, t', q) && Distinct(t') && Nodes(t') <= Nodes(t) - {t.node}
    ensures t.node in m && m[t.node].parent in m && RootOf(t') in m
    ensures var m' := Transplanted(m, t.node, RootOf(t'));
            At(m', RootAfter(m, root, t.node, RootOf(t')), c, t') && m'[RootOf(t')].parent == ParentOf(c) &&
            m'.Keys == m.Keys && m'[t.node] == m[t.node]
  {
    RepHas(m, t', q);
    RepHas(m, t, ParentOf(c));
    var v := RootOf(t');
    assert t'.Fork? ==> v in Nodes(t');
    CRepHas(m, root, c, t.node);
    TransplantCtx(m, root, c, t, v);
    hide Transplanted;
    Rehang(m, Transplanted(m, t.node, v), t', q, ParentOf(c));
  }

  /** `y`, already carrying the subtree `r` on its right, stands ready to replace `z`. */
  predicate SpliceReady(m: Mem, root: Node, c: Ctx, l: Shape, z: Node, red: bool, r: Shape, y: Node) {
    CRep(m, root, c, z) && CDistinct(c) && NIL in m && !m[NIL].red &&
    z != NIL && z in m && m[z].parent == ParentOf(c) && m[z].left == RootOf(l) && m[z].red == red &&
    y != NIL && y in m && m[y].right == RootOf(r) && y != z &&
    l.Fork? && Rep(m, l, z) && Distinct(l) && Rep(m, r, y) && Distinct(r) &&
    z !in Nodes(l) && z !in Nodes(r) && y !in Nodes(l) && y !in Nodes(r) && Nodes(l) !! Nodes(r) &&
    z !in CNodes(c) && y !in CNodes(c) && CNodes(c) !! Nodes(l) && CNodes(c) !! Nodes(r)
  }

  /** The records after `y` has taken over the place, the left subtree and the colour of `z`. */
  function Spliced(m: Mem, z: Node, y: Node): Mem
    requires z in m && y in m && m[z].parent in m && m[z].left in m && z != y && m[z].parent != z
  {
    var m1 := Transplanted(m, z, y);
    var m2 := m1[y := m1[y].(left := m1[z].left)];
    var m3 := m2[m2[y].left := m2[m2[y].left].(parent := y)];
    m3[y := m3[y].(red := m3[z].red)]
  }

  lemma SplicedRecords(m: Mem, z: Node, y: Node)
    requires z in m && y in m && m[z].parent in m && m[z].left in m
    requires var p, b := m[z].parent, m[z].left;
             z != y && p != z && p != y && b != z && b != y && b != p && b != NIL && y != NIL
    ensures var m', p, b := Spliced(m, z, y), m[z].parent, m[z].left;
            m'.Keys == m.Keys && m'[y] == Links(p, b, m[y].right, m[z].red) && m'[b] == m[b].(parent := y) &&
            m'[p] == (if p == NIL then m[p] else if m[p].left == z then m[p].(left := y) else m[p].(right := y)) &&
            Agree(m, m', m.Keys - {y, b, p})
  {
  }

  lemma SpliceCtx(m: Mem, root: Node, c: Ctx, l: Shape, z: Node, red: bool, r: Shape, y: Node)
    requires SpliceReady(m, root, c, l, z, red, r, y)
    ensures m[z].parent in m && m[z].left in m && m[z].parent != z
    ensures CRep(Spliced(m, z, y), RootAfter(m, root, z, y), c, y)
    ensures var m', b := Spliced(m, z, y), l.node;
            m'.Keys == m.Keys && m'[y] == Links(ParentOf(c), b, m[y].right, red) && m'[b] == m[b].(parent := y) &&
            Agree(m, m', m.Keys - CNodes(c) - {y, b}) && m'[NIL] == m[NIL]
  {
    CRepHas(m, root, c, z);
    RepHas(m, l, z);
    assert l.node in Nodes(l);
    assert c.In? ==> c.node in CNodes(c) && (c.sib.Fork? ==> c.sib.node in CNodes(c));
    SplicedRecords(m, z, y);
    hide Spliced;
    Relink(m, Spliced(m, z, y), root, RootAfter(m, root, z, y), c, z, y);
  }

  lemma SpliceAt(m: Mem, root: Node, c: Ctx, l: Shape, z: Node, red: bool, r: Shape, y: Node)
    requires SpliceReady(m, root, c, l, z, red, r, y)
    ensures m[z].parent in m && m[z].left in m && m[z].parent != z
    ensures At(Spliced(m, z, y), RootAfter(m, root, z, y), c, Fork(l, y, red, r))
    ensures NIL in Spliced(m, z, y) && Spliced(m, z, y)[NIL] == m[NIL]
  {
    RepHas(m, l, z);
    RepHas(m, r, y);
    assert l.node in Nodes(l);
    SpliceCtx(m, root, c, l, z, red, r, y);
    hide Spliced;
    var m' := Spliced(m, z, y);
    RepFrame(m, m', r, y);
    Rehang(m, m', l, z, y);
  }

  /** The successor is the right child itself. */
  lemma ReadyChild(m: Mem, root: Node, c: Ctx, t: Shape)
    requires At(m, root, c, t) && t.Fork? && t.left.Fork? && t.right.Fork? && t.right.left.Leaf?
    ensures var x := RootOf(t.right.right);
            x in m &&
            SpliceReady(m[x := m[x].(parent := t.right.node)], root, c, t.left, t.node, t.red, t.right.right,
                        t.right.node)
  {
    var y, r := t.right.node, t.right.right;
    assert Rep(m, t.right, t.node) && Rep(m, r, y) && Distinct(t.right);
    assert y in Nodes(t.right) && Nodes(r) <= Nodes(t.right);
    if r.Fork? {
      assert r.node in Nodes(r);
      assert m[r.node := m[r.node].(parent := y)] == m;
    } else {
      var m' := m[NIL := m[NIL].(parent := y)];
      RepHas(m, t, ParentOf(c));
      CRepHas(m, root, c, t.node);
      RepFrame(m, m', t.left, t.node);
      CRepFrame(m, m', root, c, t.node);
    }
  }

  /** The successor was deeper and has been unlinked, leaving `t` as it now is. */
  lemma ReadyDeep(m: Mem, root: Node, c: Ctx, t: Shape, y: Node)
    requires At(m, root, c, t) && t.Fork? && t.left.Fork? && t.right.Fork?
    requires y in m && y != NIL && y !in Nodes(t) && y !in CNodes(c)
    ensures t.node in m && t.right.node in m && t.right.node != y && m[t.node].right == t.right.node
    ensures var m1 := m[y := m[y].(right := t.right.node)];
            var m2 := m1[t.right.node := m1[t.right.node].(parent := y)];
            SpliceReady(m2, root, c, t.left, t.node, t.red, t.right, y) && m2[NIL] == m[NIL]
  {
    var q := t.right.node;
    assert q in Nodes(t.right);
    RepHas(m, t, ParentOf(c));
    CRepHas(m, root, c, t.node);
    var m1 := m[y := m[y].(right := q)];
    var m2 := m1[q := m1[q].(parent := y)];
    RepFrame(m, m2, t.left, t.node);
    Rehang(m, m2, t.right, t.node, y);
    CRepFrame(m, m2, root, c, t.node);
  }

  /** Unlinking the successor deeper down leaves the rest of the tree around `z`. */
  lemma UnlinkedSuccessor(m: Mem, root: Node, c: Ctx, t: Shape, cr: Ctx, s: Shape)
    requires t.Fork? && cr.In? && s.Fork? && At(m, root, Append(cr, In(c, R, t.node, t.red, t.left)), s)
    ensures s.node in m && m[s.node].parent in m && RootOf(s.right) in m && s.node != NIL && Plug(cr, s.right).Fork?
    ensures var m', root', t' := Transplanted(m, s.node, RootOf(s.right)), RootAfter(m, root, s.node, RootOf(s.right)),
            t.(right := Plug(cr, s.right));
            At(m', root', c, t') && s.node in m' && s.node !in Nodes(t') && s.node !in CNodes(c) &&
            RootOf(s.right) in m' && m'[RootOf(s.right)].parent == cr.node
  {
    var o := In(c, R, t.node, t.red, t.left);
    var r := s.right;
    TransplantAt(m, root, Append(cr, o), s, r, s.node);
    var m', root' := Transplanted(m, s.node, RootOf(r)), RootAfter(m, root, s.node, RootOf(r));
    ZipUp(m', root', cr, o, r);
    Up(m', root', o, Plug(cr, r));
    Pointers(m, root, Append(cr, o), s);
    PlugNonempty(cr, r);
    AppendNodes(cr, o, r);
  }

  lemma {:induction false} PlugNonempty(c: Ctx, t: Shape)
    requires c.In?
    ensures Plug(c, t).Fork?
  {
    if c.up.In? { PlugNonempty(c.up, Join(c.side, t, c.node, c.red, c.sib)); }
  }

  lemma {:induction false} AppendNodes(inner: Ctx, outer: Ctx, t: Shape)
    ensures CNodes(Append(inner, outer)) + Nodes(t) == CNodes(outer) + Nodes(Plug(inner, t))
  {
    if inner.In? {
      AppendNodes(inner.up, outer, Join(inner.side, t, inner.node, inner.red, inner.sib));
    }
  }

  /** The successor's parent is the removed node exactly when it is its right child. */
  lemma SuccessorParent(m: Mem, root: Node, c: Ctx, t: Shape, cr: Ctx, s: Shape)
    requires At(m, root, c, t) && t.Fork? && t.right == Plug(cr, s) && s.Fork?
    requires At(m, root, Append(cr, In(c, R, t.node, t.red, t.left)), s)
    ensures s.node in m && (m[s.node].parent == t.node <==> cr.Top?)
  {
    PlugNodes(cr, s);
    if cr.In? { assert cr.node in CNodes(cr); }
  }

  // ---- What taking the node out leaves

  predicate LeftPath(c: Ctx) {
    c.In? ==> c.side == L && LeftPath(c.up)
  }

  /** The context rules do not depend on which node stands in a place. */
  lemma {:induction false} Relabel(inner: Ctx, c: Ctx, y: Node, h: nat, red: bool)
    requires c.In?
    ensures Fits(Append(inner, c), h) <==> Fits(Append(inner, c.(node := y)), h)
    ensures ColorFits(Append(inner, c), red) <==> ColorFits(Append(inner, c.(node := y)), red)
    decreases inner
  {
    if inner.In? {
      Relabel(inner.up, c, y, if inner.red then h else h + 1, inner.red);
    }
  }

  lemma RemoveOneShape(c: Ctx, t: Shape, k: Shape)
    requires RedBlack(Plug(c, t)) && t.Fork? && ((t.left.Leaf? && k == t.right) || (t.right.Leaf? && k == t.left))
    ensures if t.red then RedBlack(Plug(c, k)) else Sinking(c, k)
  {
    PlugRedBlack(c, t);
    PlugRedBlack(c, k);
    ColorWeaken(c, t.red);
  }

  lemma RemoveTwoShape(c: Ctx, t: Shape, cr: Ctx, s: Shape)
    requires RedBlack(Plug(c, t)) && t.Fork? && t.right == Plug(cr, s) && s.Fork? && s.left.Leaf?
    ensures var c' := Append(cr, In(c, R, s.node, t.red, t.left));
            if s.red then RedBlack(Plug(c', s.right)) else Sinking(c', s.right)
  {
    var o := In(c, R, t.node, t.red, t.left);
    var c' := Append(cr, o.(node := s.node));
    PlugAppend(cr, o, s);
    PlugRedBlack(Append(cr, o), s);
    PlugRedBlack(c', s.right);
    ColorWeaken(Append(cr, o), s.red);
    Relabel(cr, o, s.node, BlackHeight(s), false);
    Relabel(cr, o, s.node, BlackHeight(s), s.red);
  }

  lemma TakeOut(a: seq<Node>, l: seq<Node>, z: Node, r: seq<Node>, b: seq<Node>)
    ensures a + (l + [z] + r) + b == (a + l) + [z] + (r + b)
    ensures a + (l + r) + b == (a + l) + (r + b)
  {
  }

  /** Replacing a subtree by one that lists its two sides takes out its root. */
  lemma RemoveOrder(c: Ctx, t: Shape, t': Shape)
    requires t.Fork? && InOrder(t') == InOrder(t.left) + InOrder(t.right)
    ensures InOrder(Plug(c, t)) == (Before(c) + InOrder(t.left)) + [t.node] + (InOrder(t.right) + After(c))
    ensures InOrder(Plug(c, t')) == (Before(c) + InOrder(t.left)) + (InOrder(t.right) + After(c))
  {
    PlugInOrder(c, t);
    PlugInOrder(c, t');
    TakeOut(Before(c), InOrder(t.left), t.node, InOrder(t.right), After(c));
  }

  /** What comes first in the focus of a left path comes first in the whole. */
  lemma {:induction false} LeftPathFirst(c: Ctx, t: Shape, y: Node, t': Shape)
    requires LeftPath(c) && InOrder(t) == [y] + InOrder(t')
    ensures InOrder(Plug(c, t)) == [y] + InOrder(Plug(c, t'))
  {
    if c.In? {
      var j, j' := Join(L, t, c.node, c.red, c.sib), Join(L, t', c.node, c.red, c.sib);
      assert InOrder(j) == [y] + InOrder(j');
      LeftPathFirst(c.up, j, y, j');
    }
  }

  lemma MinimumFirst(cr: Ctx, s: Shape)
    requires s.Fork? && s.left.Leaf? && LeftPath(cr)
    ensures InOrder(Plug(cr, s)) == [s.node] + InOrder(Plug(cr, s.right))
  {
    assert InOrder(s) == [s.node] + InOrder(s.right);
    hide InOrder;
    LeftPathFirst(cr, s, s.node, s.right);
  }

  lemma SuccessorOrder(l: Shape, red: bool, cr: Ctx, s: Shape)
    requires s.Fork? && s.left.Leaf? && LeftPath(cr)
    ensures InOrder(Fork(l, s.node, red, Plug(cr, s.right))) == InOrder(l) + InOrder(Plug(cr, s))
  {
    hide InOrder;
    hide Plug;
    MinimumFirst(cr, s);
    ForkOrder(l, s.node, red, Plug(cr, s.right), InOrder(Plug(cr, s)));
  }

  lemma ForkOrder(l: Shape, y: Node, red: bool, r: Shape, q: seq<Node>)
    requires q == [y] + InOrder(r)
    ensures InOrder(Fork(l, y, red, r)) == InOrder(l) + q
  {
  }

  lemma PlugSuccessor(c: Ctx, l: Shape, y: Node, red: bool, cr: Ctx, r: Shape)
    ensures Plug(Append(cr, In(c, R, y, red, l)), r) == Plug(c, Fork(l, y, red, Plug(cr, r)))
  {
    PlugAppend(cr, In(c, R, y, red, l), r);
  }

  lemma RemoveTwoOrder(c: Ctx, t: Shape, cr: Ctx, s: Shape)
    requires t.Fork? && t.right == Plug(cr, s) && s.Fork? && s.left.Leaf? && LeftPath(cr)
    ensures InOrder(Plug(c, t)) == (Before(c) + InOrder(t.left)) + [t.node] + (InOrder(t.right) + After(c))
    ensures InOrder(Plug(Append(cr, In(c, R, s.node, t.red, t.left)), s.right))
         == (Before(c) + InOrder(t.left)) + (InOrder(t.right) + After(c))
  {
    PlugSuccessor(c, t.left, s.node, t.red, cr, s.right);
    SuccessorOrder(t.left, t.red, cr, s);
    hide InOrder;
    hide Plug;
    hide Append;
    RemoveOrder(c, t, Fork(t.left, s.node, t.red, Plug(cr, s.right)));
  }

  /** Splitting a tree at one of its nodes. */
  lemma LocateAt(m: Mem, root: Node, shape: Shape, z: Node) returns (c: Ctx, t: Shape)
    requires At(m, root, Top, shape) && z in InOrder(shape)
    ensures Plug(c, t) == shape && t.Fork? && t.node == z && At(m, root, c, t)
  {
    InOrderMembers(shape);
    c, t := Locate(Top, shape, z);
    Whole(m, root, c, t);
  }

  /** A node with at most one child gives its place to it. */
  lemma RemoveOne(m: Mem, root: Node, c: Ctx, t: Shape, k: Shape)
    requires At(m, root, c, t) && RedBlack(Plug(c, t)) && t.Fork?
    requires (t.left.Leaf? && k == t.right) || (t.right.Leaf? && k == t.left)
    ensures t.node in m && m[t.node].parent in m && RootOf(k) in m
    ensures var m' := Transplanted(m, t.node, RootOf(k));
            At(m', RootAfter(m, root, t.node, RootOf(k)), c, k) && RootOf(k) in m' &&
            m'[RootOf(k)].parent == ParentOf(c)
    ensures if t.red then RedBlack(Plug(c, k)) else Sinking(c, k)
    ensures InOrder(Plug(c, t)) == (Before(c) + InOrder(t.left)) + [t.node] + (InOrder(t.right) + After(c))
    ensures InOrder(Plug(c, k)) == (Before(c) + InOrder(t.left)) + (InOrder(t.right) + After(c))
  {
    RemoveOneShape(c, t, k);
    RemoveOrder(c, t, k);
    hide RedBlack;
    hide Sinking;
    hide InOrder;
    hide Plug;
    assert Nodes(k) <= Nodes(t) - {t.node};
    TransplantAt(m, root, c, t, k, t.node);
  }

  lemma MidIndex(a: seq<Node>, z: Node, b: seq<Node>)
    ensures (a + [z] + b)[|a|] == z && (a + [z] + b)[|a| + 1..] == b
  {
  }

  /** Where the focus stands in the whole, and what comes after it. */
  lemma FocusPosition(c: Ctx, t: Shape)
    requires t.Fork?
    ensures var s, k := InOrder(Plug(c, t)), |Before(c)| + |InOrder(t.left)|;
            k < |s| && s[k] == t.node && s[k + 1..] == InOrder(t.right) + After(c)
  {
    PlugInOrder(c, t);
    TakeOut(Before(c), InOrder(t.left), t.node, InOrder(t.right), After(c));
    MidIndex(Before(c) + InOrder(t.left), t.node, InOrder(t.right) + After(c));
  }

  predicate TailIs(q: seq<Node>, k: nat, s: seq<Node>, b: seq<Node>) { k < |q| && q[k + 1..] == s + b }

  predicate HeadIs(s: seq<Node>, y: Node, r: seq<Node>) { s == [y] + r }

  predicate NextIs(q: seq<Node>, k: nat, y: Node) { k + 1 < |q| && q[k + 1] == y }

  lemma FocusTail(c: Ctx, t: Shape)
    requires t.Fork?
    ensures TailIs(InOrder(Plug(c, t)), |Before(c)| + |InOrder(t.left)|, InOrder(t.right), After(c))
  {
    FocusPosition(c, t);
  }

  lemma MinimumHead(cr: Ctx, s: Shape)
    requires s.Fork? && s.left.Leaf? && LeftPath(cr)
    ensures HeadIs(InOrder(Plug(cr, s)), s.node, InOrder(Plug(cr, s.right)))
  {
    hide InOrder;
    MinimumFirst(cr, s);
  }

  lemma HeadAfter(q: seq<Node>, k: nat, y: Node, r: seq<Node>, s: seq<Node>, b: seq<Node>)
    requires TailIs(q, k, s, b) && HeadIs(s, y, r)
    ensures NextIs(q, k, y)
  {
    assert q[k + 1..][0] == y;
  }

  /** The successor when there is a right subtree, which begins with `y`. */
  lemma NextBelow(c: Ctx, t: Shape, y: Node, rest: seq<Node>)
    requires t.Fork? && HeadIs(InOrder(t.right), y, rest)
    ensures NextIs(InOrder(Plug(c, t)), |Before(c)| + |InOrder(t.left)|, y)
  {
    hide NextIs;
    hide TailIs;
    hide HeadIs;
    hide InOrder;
    hide Plug;
    hide Before;
    hide After;
    FocusTail(c, t);
    HeadAfter(InOrder(Plug(c, t)), |Before(c)| + |InOrder(t.left)|, y, rest, InOrder(t.right), After(c));
  }

  /** The successor above, when the focus ends the subtree on the left of its parent. */
  lemma NextAbove(c: Ctx, t: Shape)
    requires c.In? ==> c.side == L
    ensures var q, k := InOrder(Plug(c, t)), |Before(c)| + |InOrder(t)|;
            if c.Top? then k == |q| else k < |q| && q[k] == c.node
  {
    PlugInOrder(c, t);
    var q, k := InOrder(Plug(c, t)), |Before(c)| + |InOrder(t)|;
    if c.In? { assert After(c)[0] == c.node && q[k..] == After(c); }
  }
}
