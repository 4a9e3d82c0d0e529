/** Red-black trees as values: the shape a heap of linked nodes represents, the
    context (zipper) around one of its nodes, and what the colour rules say of both. */
module RbShape {
  import opened Arithmetic

  /** A node is known by its identity (its address); `NIL` is the sentinel embedded in the tree. */
  type Node = nat

  const NIL: Node := 0

  datatype Shape = Leaf | Fork(left: Shape, node: Node, red: bool, right: Shape)

  datatype Side = L | R

  /** A tree with a hole: `Top` is the empty context, and `In` hangs the hole on `side`
      of `node`, whose other subtree is `sib`. */
  datatype Ctx = Top | In(up: Ctx, side: Side, node: Node, red: bool, sib: Shape)

  function InOrder(t: Shape): seq<Node> {
    match t
    case Leaf => []
    case Fork(l, n, _, r) => InOrder(l) + [n] + InOrder(r)
  }

  function Nodes(t: Shape): set<Node> {
    match t
    case Leaf => {}
    case Fork(l, n, _, r) => Nodes(l) + {n} + Nodes(r)
  }

  /** No node occurs twice. */
  predicate Distinct(t: Shape) {
    match t
    case Leaf => true
    case Fork(l, n, _, r) =>
      n !in Nodes(l) && n !in Nodes(r) && Nodes(l) !! Nodes(r) && Distinct(l) && Distinct(r)
  }

  function BlackHeight(t: Shape): nat {
    match t
    case Leaf => 0
    case Fork(l, _, red, _) => BlackHeight(l) + if red then 0 else 1
  }

  predicate Balanced(t: Shape) {
    match t
    case Leaf => true
    case Fork(l, _, _, r) => BlackHeight(l) == BlackHeight(r) && Balanced(l) && Balanced(r)
  }

  predicate IsRed(t: Shape) {
    t.Fork? && t.red
  }

  predicate KidsRedOk(t: Shape) {
    t.Fork? ==> RedOk(t.left) && RedOk(t.right)
  }

  predicate RedOk(t: Shape) {
    match t
    case Leaf => true
    case Fork(l, _, red, r) => RedOk(l) && RedOk(r) && (red ==> !IsRed(l) && !IsRed(r))
  }

  predicate RedBlack(t: Shape) {
    Balanced(t) && RedOk(t) && !IsRed(t)
  }

  function Blacken(t: Shape): Shape {
    if t.Fork? then t.(red := false) else t
  }

  function Opp(d: Side): Side {
    if d == L then R else L
  }

  function Kid(t: Shape, d: Side): Shape
    requires t.Fork?
  {
    if d == L then t.left else t.right
  }

  /** The tree with `t` on `side` of `n` and `sib` on the other. */
  function Join(side: Side, t: Shape, n: Node, red: bool, sib: Shape): Shape {
    if side == L then Fork(t, n, red, sib) else Fork(sib, n, red, t)
  }

  function Plug(c: Ctx, t: Shape): Shape {
    match c
    case Top => t
    case In(up, side, n, red, sib) => Plug(up, Join(side, t, n, red, sib))
  }

  function CNodes(c: Ctx): set<Node> {
    match c
    case Top => {}
    case In(up, _, n, _, sib) => CNodes(up) + {n} + Nodes(sib)
  }

  predicate CDistinct(c: Ctx) {
    match c
    case Top => true
    case In(up, _, n, _, sib) =>
      n !in CNodes(up) && n !in Nodes(sib) && CNodes(up) !! Nodes(sib) && CDistinct(up) && Distinct(sib)
  }

  function Before(c: Ctx): seq<Node> {
    match c
    case Top => []
    case In(up, side, n, _, sib) => if side == L then Before(up) else Before(up) + InOrder(sib) + [n]
  }

  function After(c: Ctx): seq<Node> {
    match c
    case Top => []
    case In(up, side, n, _, sib) => if side == L then [n] + InOrder(sib) + After(up) else After(up)
  }

  function Depth(c: Ctx): nat {
    match c
    case Top => 0
    case In(up, _, _, _, _) => Depth(up) + 1
  }

  /** Filling the hole with a balanced tree of black height `h` gives a balanced tree. */
  predicate Fits(c: Ctx, h: nat) {
    match c
    case Top => true
    case In(up, _, _, red, sib) =>
      Balanced(sib) && BlackHeight(sib) == h && Fits(up, if red then h else h + 1)
  }

  /** Filling the hole with a tree whose root is red or not makes no red node have a red
      child, and leaves the root of the whole tree black. */
  predicate ColorFits(c: Ctx, holeRed: bool) {
    match c
    case Top => !holeRed
    case In(up, _, _, red, sib) =>
      RedOk(sib) && (red ==> !holeRed && !IsRed(sib)) && ColorFits(up, red)
  }

  /** `inner` hung below `outer`. */
  function Append(inner: Ctx, outer: Ctx): Ctx {
    match inner
    case Top => outer
    case In(up, side, n, red, sib) => In(Append(up, outer), side, n, red, sib)
  }

  lemma Reassociate(a: seq<Node>, l: seq<Node>, n: Node, r: seq<Node>, b: seq<Node>)
    ensures a + (l + [n] + r) + b == a + l + ([n] + r + b)
    ensures a + (l + [n] + r) + b == a + l + [n] + r + b
  {
  }

  lemma {:induction false} PlugInOrder(c: Ctx, t: Shape)
    ensures InOrder(Plug(c, t)) == Before(c) + InOrder(t) + After(c)
  {
    match c
    case Top =>
    case In(up, side, n, red, sib) =>
      var j := Join(side, t, n, red, sib);
      PlugInOrder(up, j);
      if side == L {
        Reassociate(Before(up), InOrder(t), n, InOrder(sib), After(up));
      } else {
        Reassociate(Before(up), InOrder(sib), n, InOrder(t), After(up));
      }
  }

  lemma PlugSame(c: Ctx, t: Shape, t': Shape)
    requires InOrder(t) == InOrder(t')
    ensures InOrder(Plug(c, t)) == InOrder(Plug(c, t'))
  {
    PlugInOrder(c, t);
    PlugInOrder(c, t');
  }

  lemma {:induction false} PlugNodes(c: Ctx, t: Shape)
    ensures Nodes(Plug(c, t)) == CNodes(c) + Nodes(t)
    ensures Distinct(Plug(c, t)) <==> Distinct(t) && CDistinct(c) && CNodes(c) !! Nodes(t)
  {
    match c
    case Top =>
    case In(up, side, n, red, sib) => PlugNodes(up, Join(side, t, n, red, sib));
  }

  /** The colour and balance rules of a whole tree, split at any of its nodes. */
  lemma {:induction false} PlugRedBlack(c: Ctx, t: Shape)
    ensures RedBlack(Plug(c, t)) <==>
            Balanced(t) && RedOk(t) && Fits(c, BlackHeight(t)) && ColorFits(c, IsRed(t))
  {
    match c
    case Top =>
    case In(up, side, n, red, sib) => PlugRedBlack(up, Join(side, t, n, red, sib));
  }

  lemma {:induction false} PlugAppend(inner: Ctx, outer: Ctx, t: Shape)
    ensures Plug(Append(inner, outer), t) == Plug(outer, Plug(inner, t))
  {
    match inner
    case Top =>
    case In(up, side, n, red, sib) => PlugAppend(up, outer, Join(side, t, n, red, sib));
  }

  /** Every node of a tree is the focus of some split of it. */
  lemma {:induction false} Locate(c: Ctx, t: Shape, z: Node) returns (c': Ctx, t': Shape)
    requires z in Nodes(t)
    ensures t'.Fork? && t'.node == z && Plug(c', t') == Plug(c, t)
    decreases t
  {
    if t.node == z {
      c', t' := c, t;
    } else if z in Nodes(t.left) {
      c', t' := Locate(In(c, L, t.node, t.red, t.right), t.left, z);
    } else {
      c', t' := Locate(In(c, R, t.node, t.red, t.left), t.right, z);
    }
  }

  lemma {:induction false} InOrderMembers(t: Shape)
    ensures forall n :: n in InOrder(t) <==> n in Nodes(t)
  {
    match t
    case Leaf =>
    case Fork(l, n, _, r) => InOrderMembers(l); InOrderMembers(r);
  }

  lemma {:induction false} InOrderDistinct(t: Shape)
    requires Distinct(t)
    ensures forall i, j :: 0 <= i < j < |InOrder(t)| ==> InOrder(t)[i] != InOrder(t)[j]
  {
    match t
    case Leaf =>
    case Fork(l, n, _, r) =>
      InOrderDistinct(l);
      InOrderDistinct(r);
      InOrderMembers(l);
      InOrderMembers(r);
      JoinDistinct(InOrder(l), n, InOrder(r));
  }

  lemma JoinDistinct(a: seq<Node>, n: Node, b: seq<Node>)
    requires forall i, j :: 0 <= i < j < |a| ==> a[i] != a[j]
    requires forall i, j :: 0 <= i < j < |b| ==> b[i] != b[j]
    requires n !in a && n !in b && forall x <- a :: x !in b
    ensures forall i, j :: 0 <= i < j < |a + [n] + b| ==> (a + [n] + b)[i] != (a + [n] + b)[j]
  {
    var s := a + [n] + b;
    forall i, j | 0 <= i < j < |s| ensures s[i] != s[j] {
      assert i < |a| ==> s[i] == a[i] && s[i] in a;
      assert j > |a| ==> s[j] == b[j - |a| - 1] && s[j] in b;
      assert i > |a| ==> s[i] == b[i - |a| - 1];
    }
  }

  // ---- Rotation towards a side

  /** `Rot(t, L)` is the left rotation, `Rot(t, R)` the right one. */
  function Rot(t: Shape, d: Side): Shape
    requires t.Fork? && Kid(t, Opp(d)).Fork?
  {
    var y := Kid(t, Opp(d));
    Join(d, Join(d, Kid(t, d), t.node, t.red, Kid(y, d)), y.node, y.red, Kid(y, Opp(d)))
  }

  lemma RotNodes(t: Shape, d: Side)
    requires t.Fork? && Kid(t, Opp(d)).Fork? && Distinct(t)
    ensures Distinct(Rot(t, d)) && Nodes(Rot(t, d)) == Nodes(t)
    ensures var x, y, a, b, g := t.node, Kid(t, Opp(d)).node, Kid(t, d), Kid(Kid(t, Opp(d)), d),
            Kid(Kid(t, Opp(d)), Opp(d));
            x != y && x !in Nodes(a) && y !in Nodes(a) && x !in Nodes(b) && y !in Nodes(b) && x !in Nodes(g) &&
            y !in Nodes(g) &&
            x in Nodes(t) && y in Nodes(t) && (b.Fork? ==> b.node in Nodes(b)) &&
            Nodes(b) !! Nodes(a) && Nodes(b) !! Nodes(g) && Nodes(a) + Nodes(b) + Nodes(g) <= Nodes(t)
  {
    var y := Kid(t, Opp(d));
    assert Nodes(y) == Nodes(Kid(y, d)) + {y.node} + Nodes(Kid(y, Opp(d)));
    assert Distinct(y);
  }

  lemma RotInOrder(t: Shape, d: Side)
    requires t.Fork? && Kid(t, Opp(d)).Fork?
    ensures InOrder(Rot(t, d)) == InOrder(t)
  {
    var y := Kid(t, Opp(d));
    assert InOrder(y) == InOrder(y.left) + [y.node] + InOrder(y.right);
  }

  // ---- Height

  function Height(t: Shape): nat {
    match t
    case Leaf => 0
    case Fork(l, _, _, r) => 1 + if Height(l) >= Height(r) then Height(l) else Height(r)
  }

  lemma {:induction false} Pow2Add(a: nat, b: nat)
    ensures Pow2(a + b) == Pow2(a) * Pow2(b)
    decreases a
  {
    if a > 0 {
      Pow2Add(a - 1, b);
      assert a + b - 1 == (a - 1) + b;
    }
  }

  lemma SquareMonotone(a: nat, b: nat)
    requires a <= b
    ensures a * a <= b * b
  {
    assert a * a <= a * b;
    assert a * b <= b * b;
  }

  lemma {:induction false} SizeAndHeight(t: Shape)
    requires Balanced(t) && RedOk(t)
    ensures Pow2(BlackHeight(t)) <= |InOrder(t)| + 1
    ensures Height(t) <= 2 * BlackHeight(t) + if IsRed(t) then 1 else 0
  {
    match t
    case Leaf =>
    case Fork(l, n, red, r) =>
      SizeAndHeight(l);
      SizeAndHeight(r);
  }

  /** A red-black tree of n nodes has height at most 2 * log2(n + 1), stated without
      logarithms. */
  lemma HeightBound(t: Shape)
    requires RedBlack(t)
    ensures Pow2(Height(t)) <= (|InOrder(t)| + 1) * (|InOrder(t)| + 1)
  {
    SizeAndHeight(t);
    var b := BlackHeight(t);
    Pow2Monotone(Height(t), b + b);
    Pow2Add(b, b);
    SquareMonotone(Pow2(b), |InOrder(t)| + 1);
  }
}
