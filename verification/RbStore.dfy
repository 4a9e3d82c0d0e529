/** A red-black tree in memory: linked nodes with parent pointers and one embedded
    sentinel. The nodes' pointer and colour fields are held as a map from node identity
    to record, so that aliasing is equality of identities. The predicates below relate
    such records to shapes, and the lemmas say what the basic pointer manipulations do
    to the shape they represent. */
module RbStore {
  import opened RbShape

  /** The fields of one tree node. */
  datatype Links = Links(parent: Node, left: Node, right: Node, red: bool)

  function Get(k: Links, d: Side): Node {
    if d == L then k.left else k.right
  }

  function Set(k: Links, d: Side, v: Node): Links {
    if d == L then k.(left := v) else k.(right := v)
  }

  type Mem = map<Node, Links>

  function ParentOf(c: Ctx): Node {
    if c.Top? then NIL else c.node
  }

  function RootOf(t: Shape): Node {
    if t.Leaf? then NIL else t.node
  }

  /** The nodes below the root of `t` are exactly the shape `t`, hung below `p`. */
  predicate Rep(m: Mem, t: Shape, p: Node) {
    match t
    case Leaf => true
    case Fork(l, n, red, r) =>
      n != NIL && n in m && m[n] == Links(p, RootOf(l), RootOf(r), red) && Rep(m, l, n) && Rep(m, r, n)
  }

  /** The nodes above `x` are exactly the context `c`. */
  predicate CRep(m: Mem, root: Node, c: Ctx, x: Node) {
    match c
    case Top => root == x
    case In(up, side, n, red, sib) =>
      n != NIL && n in m &&
      m[n] == Set(Links(ParentOf(up), RootOf(sib), RootOf(sib), red), side, x) &&
      Rep(m, sib, n) && CRep(m, root, up, n)
  }

  /** `m'` holds the same records as `m` at the nodes `ns`. */
  predicate Agree(m: Mem, m': Mem, ns: set<Node>) {
    forall n <- ns :: n in m && n in m' && m'[n] == m[n]
  }

  lemma {:induction false} RepFrame(m: Mem, m': Mem, t: Shape, p: Node)
    requires Rep(m, t, p) && Agree(m, m', Nodes(t))
    ensures Rep(m', t, p)
  {
    match t
    case Leaf =>
    case Fork(l, n, red, r) =>
      RepFrame(m, m', l, n);
      RepFrame(m, m', r, n);
  }

  lemma {:induction false} CRepFrame(m: Mem, m': Mem, root: Node, c: Ctx, x: Node)
    requires CRep(m, root, c, x) && Agree(m, m', CNodes(c))
    ensures CRep(m', root, c, x)
  {
    match c
    case Top =>
    case In(up, side, n, red, sib) =>
      RepFrame(m, m', sib, n);
      CRepFrame(m, m', root, up, n);
  }

  /** The nodes represent `t` inside the context `c`. */
  predicate At(m: Mem, root: Node, c: Ctx, t: Shape) {
    Rep(m, t, ParentOf(c)) && CRep(m, root, c, RootOf(t)) && NIL in m && !m[NIL].red &&
    Distinct(t) && CDistinct(c) && CNodes(c) !! Nodes(t)
  }

  lemma {:induction false} RepHas(m: Mem, t: Shape, p: Node)
    requires Rep(m, t, p)
    ensures NIL !in Nodes(t) && Nodes(t) <= m.Keys
  {
    match t
    case Leaf =>
    case Fork(l, n, red, r) => RepHas(m, l, n); RepHas(m, r, n);
  }

  lemma {:induction false} CRepHas(m: Mem, root: Node, c: Ctx, x: Node)
    requires CRep(m, root, c, x)
    ensures NIL !in CNodes(c) && CNodes(c) <= m.Keys
  {
    match c
    case Top =>
    case In(up, side, n, red, sib) => CRepHas(m, root, up, n); RepHas(m, sib, n);
  }

  /** A subtree survives being hung below another parent. */
  lemma Rehang(m: Mem, m': Mem, t: Shape, p: Node, p': Node)
    requires Rep(m, t, p) && Distinct(t)
    requires Agree(m, m', Nodes(t) - {RootOf(t)})
    requires t.Fork? ==> t.node in m' && m'[t.node] == m[t.node].(parent := p')
    ensures Rep(m', t, p')
  {
    if t.Fork? {
      RepFrame(m, m', t.left, t.node);
      RepFrame(m, m', t.right, t.node);
    }
  }

  lemma Relink(m: Mem, m': Mem, root: Node, root': Node, c: Ctx, x: Node, x': Node)
    requires CRep(m, root, c, x) && CDistinct(c)
    requires Agree(m, m', CNodes(c) - {ParentOf(c)})
    requires if c.Top? then root' == x' else root' == root && c.node in m' && m'[c.node] == Set(m[c.node], c.side, x')
    ensures CRep(m', root', c, x')
  {
    if c.In? {
      RepFrame(m, m', c.sib, c.node);
      CRepFrame(m, m', root, c.up, c.node);
    }
  }

  /** Which pointer links down to the focus, as the code decides it. */
  lemma LinkSide(m: Mem, root: Node, c: Ctx, t: Shape, d: Side)
    requires At(m, root, c, t) && t.Fork?
    ensures t.node in m && m[t.node].parent == ParentOf(c) && (c.Top? <==> ParentOf(c) == NIL) && ParentOf(c) in m
    ensures c.In? ==> (c.side == d <==> Get(m[c.node], d) == t.node)
  {
    if c.In? && c.sib.Fork? {
      assert c.sib.node in Nodes(c.sib);
    }
  }

  lemma RotRep(m: Mem, m': Mem, t: Shape, p: Node, d: Side)
    requires t.Fork? && Kid(t, Opp(d)).Fork? && Distinct(t) && Rep(m, t, p) && Rep(m, Kid(t, Opp(d)), t.node)
    requires var x, y, b := t.node, Kid(t, Opp(d)).node, RootOf(Kid(Kid(t, Opp(d)), d));
             x in m' && y in m' && m'[x] == Set(m[x], Opp(d), b).(parent := y) &&
             m'[y] == Set(m[y], d, x).(parent := p) &&
             (b != NIL ==> b in m && b in m' && m'[b] == m[b].(parent := x)) &&
             Agree(m, m', Nodes(t) - {x, y, b})
    ensures Rep(m', Rot(t, d), p)
  {
    var x, y := t.node, Kid(t, Opp(d)).node;
    var a, b, g := Kid(t, d), Kid(Kid(t, Opp(d)), d), Kid(Kid(t, Opp(d)), Opp(d));
    RotNodes(t, d);
    RepHas(m, t, p);
    RepFrame(m, m', a, x);
    RepFrame(m, m', g, y);
    Rehang(m, m', b, y, x);
    assert Rep(m', Join(d, a, x, t.red, b), y);
  }

  /** The records once `v` takes the place of `u` below the parent of `u`, where the code
      tests the parent's `d` pointer first. */
  function LinkedAbove(m: Mem, u: Node, v: Node, d: Side): Mem
    requires u in m && m[u].parent in m
  {
    var p := m[u].parent;
    if p == NIL then m
    else if u == Get(m[p], d) then m[p := Set(m[p], d, v)] else m[p := Set(m[p], Opp(d), v)]
  }

  function RootAfter(m: Mem, root: Node, u: Node, v: Node): Node
    requires u in m
  {
    if m[u].parent == NIL then v else root
  }

  predicate CanRotate(m: Mem, x: Node, d: Side) {
    NIL in m && x in m && Get(m[x], Opp(d)) in m && m[x].parent in m && Get(m[Get(m[x], Opp(d))], d) in m &&
    var y, p, b := Get(m[x], Opp(d)), m[x].parent, Get(m[Get(m[x], Opp(d))], d);
    x != NIL && y != NIL && x != y && b != x && b != y && p != x && p != y && (b == p ==> b == NIL)
  }

  /** The records after rotating at `x` towards `d`. */
  function Rotated(m: Mem, x: Node, d: Side): Mem
    requires CanRotate(m, x, d)
  {
    var y := Get(m[x], Opp(d));
    var m1 := m[x := Set(m[x], Opp(d), Get(m[y], d))];
    var m2 := if Get(m1[y], d) != NIL then m1[Get(m1[y], d) := m1[Get(m1[y], d)].(parent := x)] else m1;
    var m3 := m2[y := m2[y].(parent := m2[x].parent)];
    var m4 := LinkedAbove(m3, x, y, d);
    var m5 := m4[y := Set(m4[y], d, x)];
    m5[x := m5[x].(parent := y)]
  }

  lemma AtCanRotate(m: Mem, root: Node, c: Ctx, t: Shape, d: Side)
    requires At(m, root, c, t) && t.Fork? && Kid(t, Opp(d)).Fork?
    ensures CanRotate(m, t.node, d)
    ensures var y := Kid(t, Opp(d));
            Get(m[t.node], Opp(d)) == y.node && Get(m[y.node], d) == RootOf(Kid(y, d)) &&
            m[t.node].parent == ParentOf(c) &&
            RootOf(Kid(y, d)) !in CNodes(c)
    ensures c.In? ==> (c.side == d <==> Get(m[c.node], d) == t.node)
    ensures ParentOf(c) !in Nodes(t)
  {
    var y := Kid(t, Opp(d));
    RotNodes(t, d);
    LinkSide(m, root, c, t, d);
    RepHas(m, t, ParentOf(c));
    CRepHas(m, root, c, t.node);
    assert Rep(m, y, t.node);
    if c.In? { assert c.node in CNodes(c); }
  }

  lemma RotatedCtx(m: Mem, root: Node, c: Ctx, t: Shape, d: Side)
    requires At(m, root, c, t) && t.Fork? && Kid(t, Opp(d)).Fork? && CanRotate(m, t.node, d)
    ensures var y := Kid(t, Opp(d)).node;
            CRep(Rotated(m, t.node, d), RootAfter(m, root, t.node, y), c, y)
  {
    var y := Kid(t, Opp(d)).node;
    AtCanRotate(m, root, c, t, d);
    LinkSide(m, root, c, t, d);
    RotNodes(t, d);
    CRepHas(m, root, c, t.node);
    Relink(m, Rotated(m, t.node, d), root, RootAfter(m, root, t.node, y), c, t.node, y);
  }

  lemma RotatedNil(m: Mem, x: Node, d: Side)
    requires CanRotate(m, x, d)
    ensures NIL in Rotated(m, x, d) && Rotated(m, x, d)[NIL] == m[NIL]
  {
  }

  /** Rotating at a node of a tree rotates the shape there and nothing else. */
  lemma RotatedAt(m: Mem, root: Node, c: Ctx, t: Shape, d: Side)
    requires At(m, root, c, t) && t.Fork? && Kid(t, Opp(d)).Fork?
    ensures CanRotate(m, t.node, d) && Get(m[t.node], Opp(d)) == Kid(t, Opp(d)).node
    ensures At(Rotated(m, t.node, d), RootAfter(m, root, t.node, Kid(t, Opp(d)).node), c, Rot(t, d))
  {
    AtCanRotate(m, root, c, t, d);
    RotNodes(t, d);
    RotatedCtx(m, root, c, t, d);
    RotatedRep(m, root, c, t, d);
    hide Rotated;
    hide Rep;
    hide CRep;
    hide CanRotate;
    hide Rot;
  }

  lemma RotatedRep(m: Mem, root: Node, c: Ctx, t: Shape, d: Side)
    requires At(m, root, c, t) && t.Fork? && Kid(t, Opp(d)).Fork? && CanRotate(m, t.node, d)
    ensures Rep(Rotated(m, t.node, d), Rot(t, d), ParentOf(c))
  {
    hide CRep;
    LinkSide(m, root, c, t, d);
    AtCanRotate(m, root, c, t, d);
    RepHas(m, t, ParentOf(c));
    assert Rep(m, Kid(t, Opp(d)), t.node);
    RotRep(m, Rotated(m, t.node, d), t, ParentOf(c), d);
  }

  // ---- Moving the focus and painting nodes

  lemma Up(m: Mem, root: Node, c: Ctx, t: Shape)
    requires At(m, root, c, t) && c.In?
    ensures At(m, root, c.up, Join(c.side, t, c.node, c.red, c.sib))
    ensures Plug(c.up, Join(c.side, t, c.node, c.red, c.sib)) == Plug(c, t)
  {
  }

  lemma Down(m: Mem, root: Node, c: Ctx, t: Shape, d: Side)
    requires At(m, root, c, t) && t.Fork?
    ensures At(m, root, In(c, d, t.node, t.red, Kid(t, Opp(d))), Kid(t, d))
    ensures Plug(In(c, d, t.node, t.red, Kid(t, Opp(d))), Kid(t, d)) == Plug(c, t)
  {
  }

  function Painted(m: Mem, n: Node, red: bool): Mem
    requires n in m
  {
    m[n := m[n].(red := red)]
  }

  lemma Paint(m: Mem, root: Node, c: Ctx, t: Shape, red: bool)
    requires At(m, root, c, t) && t.Fork?
    ensures t.node in m && At(Painted(m, t.node, red), root, c, t.(red := red))
  {
    var m' := Painted(m, t.node, red);
    RepHas(m, t, ParentOf(c));
    RepFrame(m, m', t.left, t.node);
    RepFrame(m, m', t.right, t.node);
    CRepHas(m, root, c, t.node);
    CRepFrame(m, m', root, c, t.node);
  }

  lemma PaintKid(m: Mem, root: Node, c: Ctx, t: Shape, d: Side, red: bool)
    requires At(m, root, c, t) && t.Fork? && Kid(t, d).Fork?
    ensures Kid(t, d).node in m
    ensures At(Painted(m, Kid(t, d).node, red), root, c, Join(d, Kid(t, d).(red := red), t.node, t.red, Kid(t, Opp(d))))
  {
    var k := In(c, d, t.node, t.red, Kid(t, Opp(d)));
    Down(m, root, c, t, d);
    Paint(m, root, k, Kid(t, d), red);
    Up(Painted(m, Kid(t, d).node, red), root, k, Kid(t, d).(red := red));
  }

  // ---- Closing the zipper

  lemma {:induction false} ZipUp(m: Mem, root: Node, inner: Ctx, outer: Ctx, t: Shape)
    requires At(m, root, Append(inner, outer), t)
    ensures At(m, root, outer, Plug(inner, t))
  {
    hide At;
    match inner
    case Top =>
    case In(up, side, n, red, sib) =>
      Up(m, root, Append(inner, outer), t);
      ZipUp(m, root, up, outer, Join(side, t, n, red, sib));
  }

  lemma {:induction false} ZipDown(m: Mem, root: Node, inner: Ctx, outer: Ctx, t: Shape)
    requires At(m, root, outer, Plug(inner, t))
    ensures At(m, root, Append(inner, outer), t)
  {
    hide At;
    match inner
    case Top =>
    case In(up, side, n, red, sib) =>
      var j := Join(side, t, n, red, sib);
      ZipDown(m, root, up, outer, j);
      Down(m, root, Append(up, outer), j, side);
  }

  lemma {:induction false} AppendTop(c: Ctx)
    ensures Append(c, Top) == c
  {
    if c.In? { AppendTop(c.up); }
  }

  /** The whole tree, seen from its root and from any of its nodes. */
  lemma Whole(m: Mem, root: Node, c: Ctx, t: Shape)
    ensures At(m, root, c, t) <==> At(m, root, Top, Plug(c, t))
  {
    hide At;
    AppendTop(c);
    if At(m, root, c, t) { ZipUp(m, root, c, Top, t); }
    if At(m, root, Top, Plug(c, t)) { ZipDown(m, root, c, Top, t); }
  }

  /** What the record of the focus holds. */
  lemma Pointers(m: Mem, root: Node, c: Ctx, t: Shape)
    requires At(m, root, c, t)
    ensures t.Fork? <==> RootOf(t) != NIL
    ensures t.Fork? ==> t.node in m && m[t.node] == Links(ParentOf(c), RootOf(t.left), RootOf(t.right), t.red)
    ensures c.In? ==> c.node in m && c.node != NIL && m[c.node].parent == ParentOf(c.up)
    ensures c.Top? ==> root == RootOf(t)
    ensures t.Fork? ==> (t.left.Fork? <==> RootOf(t.left) != NIL) && (t.right.Fork? <==> RootOf(t.right) != NIL)
  {
    if t.Fork? { assert t.node in Nodes(t) && Rep(m, t.left, t.node) && Rep(m, t.right, t.node); }
  }
}
