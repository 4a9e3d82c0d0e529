/** Heap sort in place, for any comparison that is a total preorder. */
module HeapSort {
  /** `cmp` compares as a total preorder does. */
  ghost predicate Preorder<T(!new)>(cmp: (T, T) -> int) {
    (forall x, y :: cmp(x, y) < 0 <==> cmp(y, x) > 0) &&
    forall x, y, z :: cmp(x, y) <= 0 && cmp(y, z) <= 0 ==> cmp(x, z) <= 0
  }

  function Par(c: nat): nat
    requires c > 0
  {
    (c - 1) / 2
  }

  /** From node `lo` on, no child among the first `count` exceeds its parent. */
  predicate Heap<T>(s: seq<T>, cmp: (T, T) -> int, lo: nat, count: nat) {
    count <= |s| && forall c: nat | 1 <= c < count && Par(c) >= lo :: cmp(s[c], s[Par(c)]) <= 0
  }

  /** A heap except possibly below `r`, whose children do not exceed its own parent. */
  predicate Sifting<T>(s: seq<T>, cmp: (T, T) -> int, lo: nat, count: nat, r: nat) {
    count <= |s| && lo <= r < count &&
    (forall c: nat | 1 <= c < count && Par(c) >= lo && Par(c) != r :: cmp(s[c], s[Par(c)]) <= 0) &&
    (r > lo && r > 0 && Par(r) >= lo ==> forall c: nat | 1 <= c < count && Par(c) == r :: cmp(s[c], s[Par(r)]) <= 0)
  }

  function Swapped<T>(s: seq<T>, i: nat, j: nat): (r: seq<T>)
    requires i < |s| && j < |s|
    ensures |r| == |s|
  {
    s[i := s[j]][j := s[i]]
  }

  lemma Children(c: nat, r: nat)
    requires c > 0
    ensures Par(c) == r <==> c == 2 * r + 1 || c == 2 * r + 2
    ensures Par(c) < c
  {
  }

  lemma SiftSwap<T(!new)>(s: seq<T>, cmp: (T, T) -> int, lo: nat, count: nat, r: nat, child: nat)
    requires Preorder(cmp) && Sifting(s, cmp, lo, count, r) && 1 <= child < count && Par(child) == r
    requires cmp(s[r], s[child]) < 0 && forall c: nat | 1 <= c < count && Par(c) == r :: cmp(s[c], s[child]) <= 0
    ensures Sifting(Swapped(s, r, child), cmp, lo, count, child)
  {
    var s' := Swapped(s, r, child);
    Children(child, r);
    forall c: nat | 1 <= c < count && Par(c) >= lo && Par(c) != child ensures cmp(s'[c], s'[Par(c)]) <= 0 {
      SiftOther(s, cmp, lo, count, r, child, c);
    }
    forall c: nat | 1 <= c < count && Par(c) == child ensures cmp(s'[c], s'[Par(child)]) <= 0 {
      SiftBelow(s, cmp, lo, count, r, child, c);
    }
    hide Par;
  }

  lemma SiftOther<T(!new)>(s: seq<T>, cmp: (T, T) -> int, lo: nat, count: nat, r: nat, child: nat, c: nat)
    requires Preorder(cmp) && Sifting(s, cmp, lo, count, r) && 1 <= child < count && Par(child) == r
    requires cmp(s[r], s[child]) < 0 && forall c: nat | 1 <= c < count && Par(c) == r :: cmp(s[c], s[child]) <= 0
    requires 1 <= c < count && Par(c) >= lo && Par(c) != child
    ensures cmp(Swapped(s, r, child)[c], Swapped(s, r, child)[Par(c)]) <= 0
  {
    hide Par;
    hide Preorder;
    Children(child, r);
    Children(c, Par(c));
    if Par(c) == r {
      assert cmp(s[c], s[child]) <= 0;
    } else if c == r {
      assert cmp(s[child], s[Par(r)]) <= 0;
    } else {
      assert c != child && cmp(s[c], s[Par(c)]) <= 0;
    }
  }

  lemma SiftBelow<T(!new)>(s: seq<T>, cmp: (T, T) -> int, lo: nat, count: nat, r: nat, child: nat, c: nat)
    requires Sifting(s, cmp, lo, count, r) && 1 <= child < count && Par(child) == r && 1 <= c < count && Par(c) == child
    ensures cmp(Swapped(s, r, child)[c], Swapped(s, r, child)[Par(child)]) <= 0
  {
    hide Par;
    Children(child, r);
    Children(c, child);
  }

  lemma SiftDone<T(!new)>(s: seq<T>, cmp: (T, T) -> int, lo: nat, count: nat, r: nat)
    requires Sifting(s, cmp, lo, count, r) && forall c: nat | 1 <= c < count && Par(c) == r :: cmp(s[c], s[r]) <= 0
    ensures Heap(s, cmp, lo, count)
  {
    hide Par;
  }

  lemma SwapMultiset<T>(s: seq<T>, i: nat, j: nat, count: nat)
    requires i < count && j < count && count <= |s|
    ensures multiset(Swapped(s, i, j)[..count]) == multiset(s[..count]) && Swapped(s, i, j)[count..] == s[count..]
  {
    var p := s[..count];
    assert Swapped(s, i, j)[..count] == Swapped(p, i, j);
    assert multiset(Swapped(p, i, j)) == multiset(p);
  }

  method Swap<T>(a: array<T>, i: nat, j: nat)
    requires i < a.Length && j < a.Length
    modifies a
    ensures a[..] == Swapped(old(a[..]), i, j)
  {
    a[i], a[j] := a[j], a[i];
  }

  /** Lets the element at `root` sink until the heap from `root` on is in order. */
  method SiftDown<T(!new)>(a: array<T>, root: nat, count: nat, cmp: (T, T) -> int)
    requires Preorder(cmp) && root < count <= a.Length && Heap(a[..], cmp, root + 1, count)
    modifies a
    ensures Heap(a[..], cmp, root, count)
    ensures multiset(a[..count]) == multiset(old(a[..count])) && a[count..] == old(a[count..])
  {
    hide Par;
    hide Preorder;
    hide Swapped;
    var r := root;
    SiftStart(a[..], cmp, root, count);
    hide Sifting;
    hide Heap;
    while r * 2 + 1 < count
      invariant root <= r < count && Sifting(a[..], cmp, root, count, r)
      invariant multiset(a[..count]) == multiset(old(a[..count])) && a[count..] == old(a[count..])
      decreases count - r
    {
      var child := r * 2 + 1;
      if child + 1 < count && cmp(a[child], a[child + 1]) < 0 {
        child := child + 1;
      }
      Larger(a[..], cmp, count, r, child);
      if cmp(a[r], a[child]) < 0 {
        SiftSwap(a[..], cmp, root, count, r, child);
        SwapMultiset(a[..], r, child, count);
        ghost var s := a[..];
        assert s[..count] == a[..count] && s[count..] == a[count..];
        Swap(a, r, child);
        assert a[..][..count] == a[..count] && a[..][count..] == a[count..];
        r := child;
      } else {
        SiftStop(a[..], cmp, root, count, r, child);
        return;
      }
    }
    NoChildren(a[..], cmp, root, count, r);
  }

  lemma SiftStart<T(!new)>(s: seq<T>, cmp: (T, T) -> int, root: nat, count: nat)
    requires root < count && Heap(s, cmp, root + 1, count)
    ensures Sifting(s, cmp, root, count, root)
  {
    hide Par;
  }

  lemma Larger<T(!new)>(s: seq<T>, cmp: (T, T) -> int, count: nat, r: nat, child: nat)
    requires Preorder(cmp) && count <= |s| && 2 * r + 1 < count
    requires child == if 2 * r + 2 < count && cmp(s[2 * r + 1], s[2 * r + 2]) < 0 then 2 * r + 2 else 2 * r + 1
    ensures child < count && Par(child) == r &&
            forall c: nat | 1 <= c < count && Par(c) == r :: cmp(s[c], s[child]) <= 0
  {
    Children(child, r);
    hide Par;
    forall c: nat | 1 <= c < count && Par(c) == r ensures cmp(s[c], s[child]) <= 0 {
      Children(c, r);
      Reflexive(cmp, s[c]);
    }
  }

  lemma Reflexive<T(!new)>(cmp: (T, T) -> int, x: T)
    requires Preorder(cmp)
    ensures cmp(x, x) == 0
  {
    assert cmp(x, x) < 0 <==> cmp(x, x) > 0;
  }

  lemma SiftStop<T(!new)>(s: seq<T>, cmp: (T, T) -> int, lo: nat, count: nat, r: nat, child: nat)
    requires Preorder(cmp) && Sifting(s, cmp, lo, count, r) && child < count && cmp(s[r], s[child]) >= 0
    requires forall c: nat | 1 <= c < count && Par(c) == r :: cmp(s[c], s[child]) <= 0
    ensures Heap(s, cmp, lo, count)
  {
    hide Par;
    assert cmp(s[child], s[r]) <= 0;
    SiftDone(s, cmp, lo, count, r);
  }

  lemma NoChildren<T(!new)>(s: seq<T>, cmp: (T, T) -> int, lo: nat, count: nat, r: nat)
    requires Sifting(s, cmp, lo, count, r) && r * 2 + 1 >= count
    ensures Heap(s, cmp, lo, count)
  {
    forall c: nat | 1 <= c < count ensures Par(c) != r {
      Children(c, r);
    }
    hide Par;
  }

  /** The root of a heap is its greatest element. */
  lemma {:induction false} HeapMax<T(!new)>(s: seq<T>, cmp: (T, T) -> int, count: nat, i: nat)
    requires Preorder(cmp) && Heap(s, cmp, 0, count) && i < count
    ensures cmp(s[i], s[0]) <= 0
  {
    if i == 0 {
      Reflexive(cmp, s[0]);
    } else {
      Children(i, Par(i));
      HeapMax(s, cmp, count, Par(i));
    }
  }

  predicate Sorted<T>(s: seq<T>, cmp: (T, T) -> int) {
    forall i: nat, j: nat | i < j < |s| :: cmp(s[i], s[j]) <= 0
  }

  /** The tail from `end` on is in order and no smaller than anything before it. */
  predicate Settled<T>(s: seq<T>, cmp: (T, T) -> int, end: nat) {
    forall i: nat, j: nat | i < j < |s| && end <= j :: cmp(s[i], s[j]) <= 0
  }

  /** Moving the root behind the heap settles one more place. */
  lemma SettleOne<T(!new)>(s: seq<T>, cmp: (T, T) -> int, end: nat)
    requires Preorder(cmp) && end < |s| && Heap(s, cmp, 0, end + 1) && Settled(s, cmp, end + 1)
    ensures var s' := Swapped(s, 0, end); Settled(s', cmp, end) && Heap(s', cmp, 1, end)
  {
    var s' := Swapped(s, 0, end);
    forall i: nat, j: nat | i < j < |s'| && end <= j ensures cmp(s'[i], s'[j]) <= 0 {
      if j == end {
        HeapMax(s, cmp, end + 1, if i == 0 then end else i);
      }
    }
    forall c: nat | 1 <= c < end && Par(c) >= 1 ensures cmp(s'[c], s'[Par(c)]) <= 0 {
      Children(c, Par(c));
    }
    hide Par;
  }

  /** Rearranging what is before `end` keeps the tail settled. */
  lemma SettledKept<T(!new)>(s: seq<T>, s': seq<T>, cmp: (T, T) -> int, end: nat)
    requires |s'| == |s| && end <= |s| && Settled(s, cmp, end) && multiset(s'[..end]) == multiset(s[..end]) &&
             s'[end..] == s[end..]
    ensures Settled(s', cmp, end)
  {
    forall i: nat, j: nat | i < j < |s'| && end <= j ensures cmp(s'[i], s'[j]) <= 0 {
      assert s'[j] == s'[end..][j - end] && s[j] == s[end..][j - end];
      if i < end {
        assert s'[i] in multiset(s'[..end]);
        var k :| 0 <= k < end && s[..end][k] == s'[i];
        assert s[k] == s'[i];
      } else {
        assert s'[i] == s'[end..][i - end] && s[i] == s[end..][i - end];
      }
    }
  }

  /** Sorts in place: the result is in order and has the elements it was given. */
  method Sort<T(!new)>(a: array<T>, cmp: (T, T) -> int)
    requires Preorder(cmp)
    modifies a
    ensures Sorted(a[..], cmp) && multiset(a[..]) == multiset(old(a[..]))
  {
    hide Par;
    hide Preorder;
    hide Heap;
    hide Settled;
    var count := a.Length;
    if count < 2 {
      return;
    }
    var start: nat := count / 2;
    LeavesHeap(a[..], cmp, start);
    while start > 0
      invariant start <= count / 2 && Heap(a[..], cmp, start, count) && multiset(a[..]) == multiset(old(a[..]))
    {
      ghost var s := a[..];
      assert s == a[..count];
      SiftDown(a, start - 1, count, cmp);
      assert a[..] == a[..count];
      start := start - 1;
    }
    var end := count - 1;
    AllUnsettled(a[..], cmp);
    while end > 0
      invariant end < count && Heap(a[..], cmp, 0, end + 1) && Settled(a[..], cmp, end + 1)
      invariant multiset(a[..]) == multiset(old(a[..]))
    {
      SettleOne(a[..], cmp, end);
      SwapAll(a[..], 0, end);
      Swap(a, 0, end);
      ghost var s := a[..];
      assert s[..end] == a[..end] && s[end..] == a[end..];
      SiftDown(a, 0, end, cmp);
      assert a[..][..end] == a[..end] && a[..][end..] == a[end..];
      SettledKept(s, a[..], cmp, end);
      Joined(s, a[..], end);
      end := end - 1;
    }
    SettledSorted(a[..], cmp);
  }

  lemma LeavesHeap<T(!new)>(s: seq<T>, cmp: (T, T) -> int, start: nat)
    requires start == |s| / 2
    ensures Heap(s, cmp, start, |s|)
  {
  }

  lemma AllUnsettled<T(!new)>(s: seq<T>, cmp: (T, T) -> int)
    ensures Settled(s, cmp, |s|)
  {
  }

  lemma SwapAll<T>(s: seq<T>, i: nat, j: nat)
    requires i < |s| && j < |s|
    ensures multiset(Swapped(s, i, j)) == multiset(s)
  {
    SwapMultiset(s, i, j, |s|);
    assert s[..|s|] == s && Swapped(s, i, j)[..|s|] == Swapped(s, i, j);
  }

  lemma Joined<T>(s: seq<T>, s': seq<T>, end: nat)
    requires |s'| == |s| && end <= |s| && multiset(s'[..end]) == multiset(s[..end]) && s'[end..] == s[end..]
    ensures multiset(s') == multiset(s)
  {
    assert s == s[..end] + s[end..] && s' == s'[..end] + s'[end..];
  }

  lemma SettledSorted<T(!new)>(s: seq<T>, cmp: (T, T) -> int)
    requires Settled(s, cmp, 1)
    ensures Sorted(s, cmp)
  {
  }
}
