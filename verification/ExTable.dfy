/** Binary search, and the exception table that is heap-sorted once and searched on every fault. */
module ExTable {
  import HeapSort

  /** Elements the key is above come first, elements it is below come last. */
  predicate Partitioned<K, T>(s: seq<T>, key: K, cmp: (K, T) -> int) {
    forall i: nat, j: nat | i < j < |s| ::
      (cmp(key, s[j]) > 0 ==> cmp(key, s[i]) > 0) && (cmp(key, s[i]) < 0 ==> cmp(key, s[j]) < 0)
  }

  /** The first position whose element the key is not above. */
  method LowerBound<K, T>(key: K, a: array<T>, cmp: (K, T) -> int) returns (r: nat)
    requires Partitioned(a[..], key, cmp)
    ensures r <= a.Length
    ensures forall i: nat | i < r :: cmp(key, a[i]) > 0
    ensures forall i: nat | r <= i < a.Length :: cmp(key, a[i]) <= 0
  {
    r := 0;
    var n: nat := a.Length;
    while n > 0
      invariant r + n <= a.Length
      invariant forall i: nat | i < r :: cmp(key, a[i]) > 0
      invariant forall i: nat | r + n <= i < a.Length :: cmp(key, a[i]) <= 0
    {
      var half := n / 2;
      var mid := r + half;
      assert a[..][mid] == a[mid];
      if cmp(key, a[mid]) > 0 {
        forall i: nat | i < mid ensures cmp(key, a[i]) > 0 {
          assert a[..][i] == a[i];
        }
        r := mid + 1;
        n := n - (half + 1);
      } else {
        forall i: nat | mid < i < a.Length ensures cmp(key, a[i]) <= 0 {
          assert a[..][i] == a[i];
        }
        n := half;
      }
    }
  }

  /** A position with an equal element, or `a.Length` when there is none. */
  method BSearch<K, T>(key: K, a: array<T>, cmp: (K, T) -> int) returns (r: nat)
    requires Partitioned(a[..], key, cmp)
    ensures r < a.Length ==> cmp(key, a[r]) == 0 && forall i: nat | i < r :: cmp(key, a[i]) > 0
    ensures r >= a.Length ==> forall i: nat | i < a.Length :: cmp(key, a[i]) != 0
    ensures r <= a.Length
  {
    r := LowerBound(key, a, cmp);
    if r < a.Length && cmp(key, a[r]) == 0 {
      return;
    }
    forall i: nat | r < i < a.Length ensures cmp(key, a[i]) < 0 {
      assert a[..][r] == a[r] && a[..][i] == a[i];
    }
    r := a.Length;
  }

  datatype Entry = Entry(insn: nat, fixup: nat)

  function Compare(x: nat, y: nat): int { if x < y then -1 else if x > y then 1 else 0 }

  function OrderCmp(a: Entry, b: Entry): int { Compare(a.insn, b.insn) }

  function KeyCmp(k: nat, e: Entry): int { Compare(k, e.insn) }

  lemma OrderIsPreorder()
    ensures HeapSort.Preorder(OrderCmp)
  {
  }

  lemma SortedPartitioned(s: seq<Entry>, k: nat)
    requires HeapSort.Sorted(s, OrderCmp)
    ensures Partitioned(s, k, KeyCmp)
  {
    forall i: nat, j: nat | i < j < |s|
      ensures (KeyCmp(k, s[j]) > 0 ==> KeyCmp(k, s[i]) > 0) && (KeyCmp(k, s[i]) < 0 ==> KeyCmp(k, s[j]) < 0)
    {
      assert OrderCmp(s[i], s[j]) <= 0;
    }
  }

  /** No two entries are for the same instruction. */
  predicate Distinct(s: seq<Entry>) {
    forall i: nat, j: nat | i < j < |s| :: s[i].insn != s[j].insn
  }

  /** Looking an instruction up entry by entry: its fixup, or 0. */
  function Linear(s: seq<Entry>, insn: nat): nat {
    if s == [] then 0 else if s[0].insn == insn then s[0].fixup else Linear(s[1..], insn)
  }

  lemma {:induction false} LinearFinds(s: seq<Entry>, i: nat)
    requires Distinct(s) && i < |s|
    ensures Linear(s, s[i].insn) == s[i].fixup
  {
    if i > 0 {
      assert s[1..][i - 1] == s[i];
      LinearFinds(s[1..], i - 1);
    }
  }

  lemma {:induction false} LinearMisses(s: seq<Entry>, insn: nat)
    requires forall i: nat | i < |s| :: s[i].insn != insn
    ensures Linear(s, insn) == 0
  {
    if s != [] {
      assert forall i: nat | i < |s[1..]| :: s[1..][i] == s[i + 1];
      LinearMisses(s[1..], insn);
    }
  }

  lemma SameElements(s: seq<Entry>, t: seq<Entry>, e: Entry)
    requires multiset(s) == multiset(t) && e in s
    ensures e in t
  {
    assert e in multiset(s);
  }

  /** Sorts the table once, at start-up. */
  method SortTable(a: array<Entry>)
    modifies a
    ensures HeapSort.Sorted(a[..], OrderCmp) && multiset(a[..]) == multiset(old(a[..]))
  {
    OrderIsPreorder();
    HeapSort.Sort(a, OrderCmp);
  }

  /** The fixup for a faulting instruction: what a linear search of the table as first given would find. */
  method Lookup(a: array<Entry>, insn: nat, ghost table: seq<Entry>) returns (fixup: nat)
    requires HeapSort.Sorted(a[..], OrderCmp) && multiset(a[..]) == multiset(table)
    ensures Distinct(table) ==> fixup == Linear(table, insn)
    ensures fixup == 0 || Entry(insn, fixup) in table
    ensures (forall e <- table :: e.insn != insn) ==> fixup == 0
  {
    SortedPartitioned(a[..], insn);
    var r := BSearch(insn, a, KeyCmp);
    hide Partitioned;
    hide HeapSort.Sorted;
    if r < a.Length {
      fixup := a[r].fixup;
      assert a[r] == a[..][r] && a[r] == Entry(insn, fixup);
      Hit(a[..], table, r, insn);
    } else {
      fixup := 0;
      Miss(a[..], table, insn);
    }
  }

  lemma Hit(s: seq<Entry>, table: seq<Entry>, r: nat, insn: nat)
    requires multiset(s) == multiset(table) && r < |s| && s[r].insn == insn
    ensures s[r] in table && (Distinct(table) ==> Linear(table, insn) == s[r].fixup)
  {
    SameElements(s, table, s[r]);
    var i: nat :| i < |table| && table[i] == s[r];
    if Distinct(table) {
      LinearFinds(table, i);
    }
  }

  lemma Miss(s: seq<Entry>, table: seq<Entry>, insn: nat)
    requires multiset(s) == multiset(table) && forall i: nat | i < |s| :: s[i].insn != insn
    ensures Linear(table, insn) == 0
  {
    forall i: nat | i < |table| ensures table[i].insn != insn {
      SameElements(table, s, table[i]);
    }
    LinearMisses(table, insn);
  }
}
