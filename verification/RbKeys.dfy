/** Ordering the nodes of a tree. `Keys` gives each node the field of its enclosing record
    that the comparison function reads; every comparator in the kernel compares one
    unsigned integer field, so comparing two nodes is comparing their keys. */
module RbKeys {
  import opened RbShape

  type Keys = map<Node, int>

  predicate AllLe(key: Keys, s: seq<Node>, v: int) {
    forall n <- s :: n in key && key[n] <= v
  }

  predicate AllGt(key: Keys, s: seq<Node>, v: int) {
    forall n <- s :: n in key && key[n] > v
  }

  predicate Sorted(key: Keys, s: seq<Node>) {
    (forall n <- s :: n in key) &&
    forall i, j :: 0 <= i < j < |s| ==> key[s[i]] <= key[s[j]]
  }

  lemma SortedAround(key: Keys, a: seq<Node>, l: seq<Node>, x: Node, r: seq<Node>, b: seq<Node>)
    requires Sorted(key, a + (l + [x] + r) + b)
    ensures x in key
    ensures forall n <- l :: n in key && key[n] <= key[x]
    ensures forall n <- r :: n in key && key[n] >= key[x]
  {
    var s := a + (l + [x] + r) + b;
    var k := |a| + |l|;
    assert s[k] == x;
    forall i | 0 <= i < |l| ensures key[l[i]] <= key[x] {
      assert s[|a| + i] == l[i];
    }
    forall i | 0 <= i < |r| ensures key[r[i]] >= key[x] {
      assert s[k + 1 + i] == r[i];
    }
  }

  /** Going left or right at a node keeps what is known of the search path. */
  lemma Descend(key: Keys, c: Ctx, t: Shape, v: int)
    requires Sorted(key, InOrder(Plug(c, t))) && t.Fork? && AllLe(key, Before(c), v) && AllGt(key, After(c), v)
    ensures t.node in key
    ensures key[t.node] > v ==> AllGt(key, After(In(c, L, t.node, t.red, t.right)), v)
    ensures key[t.node] <= v ==> AllLe(key, Before(In(c, R, t.node, t.red, t.left)), v)
  {
    PlugInOrder(c, t);
    SortedAround(key, Before(c), InOrder(t.left), t.node, InOrder(t.right), After(c));
  }

  lemma SortedInsert(key: Keys, a: seq<Node>, z: Node, b: seq<Node>)
    requires Sorted(key, a + b) && z in key && AllLe(key, a, key[z]) && AllGt(key, b, key[z])
    ensures Sorted(key, a + [z] + b)
  {
    var s, s' := a + b, a + [z] + b;
    forall i, j | 0 <= i < j < |s'| ensures key[s'[i]] <= key[s'[j]] {
      var i', j' := if i < |a| then i else i - 1, if j < |a| then j else j - 1;
      if i == |a| {
        assert s'[j] == b[j - 1 - |a|];
      } else if j == |a| {
        assert s'[i] == a[i];
      } else {
        assert s'[i] == s[i'] && s'[j] == s[j'];
      }
    }
  }

  /** Where a descent ends, the whole is what came before it and what comes after. */
  lemma LeafSplit(c: Ctx)
    ensures var s, k := InOrder(Plug(c, Leaf)), |Before(c)|;
            k <= |s| && s[..k] == Before(c) && s[k..] == After(c)
  {
    PlugInOrder(c, Leaf);
    assert InOrder(Plug(c, Leaf)) == Before(c) + After(c);
  }

  /** Searching for an exact key: what is known of the nodes left aside. */
  lemma DescendExact(key: Keys, c: Ctx, t: Shape, v: int)
    requires Sorted(key, InOrder(Plug(c, t))) && t.Fork? && AllLe(key, Before(c), v - 1) && AllGt(key, After(c), v)
    ensures t.node in key && t.node in InOrder(Plug(c, t))
    ensures key[t.node] > v ==> AllGt(key, After(In(c, L, t.node, t.red, t.right)), v)
    ensures key[t.node] < v ==> AllLe(key, Before(In(c, R, t.node, t.red, t.left)), v - 1)
  {
    PlugInOrder(c, t);
    SortedAround(key, Before(c), InOrder(t.left), t.node, InOrder(t.right), After(c));
  }
}
