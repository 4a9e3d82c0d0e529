/**
  * What unmapping does to the set of mapped pages, leaf table by leaf table.  A leaf table serves 512
  * consecutive pages and goes when the one-byte count of its live entries reads zero.
  */
module LeafTable {
  import opened Collections

  const ENTRIES := 512

  predicate Same(a: nat, b: nat) { a / ENTRIES == b / ENTRIES }

  /** The mapped pages that share the leaf table of `v`. */
  function Served(m: set<nat>, v: nat): set<nat> { set p | p in m && Same(p, v) }

  /** The sizes at which the count wraps to zero, or is one above. */
  predicate Crowded(live: nat) { live == 256 || live == 257 || live == 512 }

  /** The mapped pages after unmapping one. */
  function Removed(m: set<nat>, v: nat): set<nat> {
    if v !in m then m else if |Served(m, v)| % 256 <= 1 then m - Served(m, v) else m - {v}
  }

  function Slots(table: nat, n: nat): (s: set<nat>)
    ensures |s| == n && forall p: nat :: p in s <==> table * ENTRIES <= p < table * ENTRIES + n
  {
    if n == 0 then {} else Slots(table, n - 1) + {table * ENTRIES + n - 1}
  }

  lemma ServedBound(m: set<nat>, v: nat)
    ensures |Served(m, v)| <= ENTRIES
    ensures v in m ==> |Served(m, v)| >= 1
  {
    SubsetSize(Served(m, v), Slots(v / ENTRIES, ENTRIES));
    if v in m {
      assert v in Served(m, v);
    }
  }

  /** Only the page itself goes, exactly when its leaf table is not crowded. */
  lemma RemovedOne(m: set<nat>, v: nat)
    requires v in m
    ensures Removed(m, v) == m - {v} <==> !Crowded(|Served(m, v)|)
    ensures Crowded(|Served(m, v)|) ==> Removed(m, v) == m - Served(m, v)
  {
    ServedBound(m, v);
    var g := Served(m, v);
    assert v in g;
    if |g| == 1 {
      assert |g - {v}| == 0;
      assert m - g == m - {v};
    } else {
      assert g != {v};
      var w :| w in g && w != v;
      assert w in m - {v} && w !in m - g;
    }
  }

  /** A full table loses all its pages when any one of them is unmapped. */
  lemma FullTable(v: nat)
    ensures var m := Slots(v / ENTRIES, ENTRIES); v in m && |m| == ENTRIES && Removed(m, v) == {}
  {
    hide Slots;
    var m := Slots(v / ENTRIES, ENTRIES);
    assert Served(m, v) == m;
  }

  lemma RemovedWithin(m: set<nat>, v: nat)
    ensures Removed(m, v) <= m && v !in Removed(m, v) && forall p <- m :: !Same(p, v) ==> p in Removed(m, v)
  {
  }

  // ----- Unmapping a range, page by page -----

  function Swept(m: set<nat>, lo: nat, hi: nat): set<nat>
    decreases hi - lo
  {
    if lo >= hi then m else Swept(Removed(m, lo), lo + 1, hi)
  }

  /** The mapped pages outside a range. */
  function Kept(m: set<nat>, lo: nat, hi: nat): set<nat> { set p | p in m && !(lo <= p < hi) }

  lemma {:induction false} SweptJoin(m: set<nat>, a: nat, b: nat, c: nat)
    requires a <= b <= c
    ensures Swept(Swept(m, a, b), b, c) == Swept(m, a, c)
    decreases b - a
  {
    if a < b {
      SweptJoin(Removed(m, a), a + 1, b, c);
    }
  }

  lemma {:induction false} SweptGap(m: set<nat>, a: nat, b: nat)
    requires forall p <- m :: !(a <= p < b)
    ensures Swept(m, a, b) == m
    decreases b - a
  {
    if a < b {
      SweptGap(m, a + 1, b);
    }
  }

  /** No page of the range stays, and none appears. */
  lemma {:induction false} SweptWithin(m: set<nat>, lo: nat, hi: nat)
    ensures Swept(m, lo, hi) <= Kept(m, lo, hi)
    decreases hi - lo
  {
    if lo < hi {
      RemovedWithin(m, lo);
      SweptWithin(Removed(m, lo), lo + 1, hi);
    }
  }

  /** A table of `live` entries from which `hit` are unmapped one by one passes a crowded size. */
  predicate Overrun(live: nat, hit: nat) {
    hit >= 1 && (live == 512 || (live >= 256 && live < hit + 257))
  }

  function InRange(m: set<nat>, lo: nat, hi: nat): set<nat> { set p | p in m && lo <= p < hi }

  /** A page outside the range is lost exactly when its leaf table passes a crowded size on the way. */
  lemma {:induction false} SweptAt(m: set<nat>, lo: nat, hi: nat, q: nat)
    requires q in m && !(lo <= q < hi)
    ensures q in Swept(m, lo, hi) <==> !Overrun(|Served(m, q)|, |InRange(Served(m, q), lo, hi)|)
    decreases hi - lo
  {
    hide Overrun;
    hide Same;
    hide Served;
    hide InRange;
    hide Removed;
    if lo >= hi {
      NothingHit(m, lo, hi, q);
      NoOverrun(|Served(m, q)|);
    } else if lo !in m || !Same(lo, q) {
      OtherTable(m, lo, hi, q);
      SweptAt(Removed(m, lo), lo + 1, hi, q);
    } else {
      SameTable(m, lo, hi, q);
      OverrunStep(|Served(m, q)|, |InRange(Served(m, q), lo, hi)|);
      if |Served(m, q)| % 256 <= 1 {
        SweptWithin(Removed(m, lo), lo + 1, hi);
      } else {
        SweptAt(Removed(m, lo), lo + 1, hi, q);
      }
    }
  }

  lemma NothingHit(m: set<nat>, lo: nat, hi: nat, q: nat)
    requires lo >= hi
    ensures |InRange(Served(m, q), lo, hi)| == 0
  {
    assert InRange(Served(m, q), lo, hi) == {};
  }

  /** Unmapping a page of another table. */
  lemma OtherTable(m: set<nat>, lo: nat, hi: nat, q: nat)
    requires q in m && q != lo && lo < hi && (lo !in m || !Same(lo, q))
    ensures q in Removed(m, lo) && Served(Removed(m, lo), q) == Served(m, q)
    ensures InRange(Served(m, q), lo + 1, hi) == InRange(Served(m, q), lo, hi)
  {
    RemovedWithin(m, lo);
  }

  /** Unmapping a page of the same table. */
  lemma SameTable(m: set<nat>, lo: nat, hi: nat, q: nat)
    requires q in m && !(lo <= q < hi) && lo < hi && lo in m && Same(lo, q)
    ensures 1 <= |InRange(Served(m, q), lo, hi)| < |Served(m, q)| <= ENTRIES
    ensures if |Served(m, q)| % 256 <= 1 then q !in Removed(m, lo)
            else q in Removed(m, lo) && |Served(Removed(m, lo), q)| == |Served(m, q)| - 1 &&
                 |InRange(Served(Removed(m, lo), q), lo + 1, hi)| == |InRange(Served(m, q), lo, hi)| - 1
  {
    var g := Served(m, q);
    var h := InRange(g, lo, hi);
    ServedBound(m, q);
    assert Served(m, lo) == g && lo in h && q in g && q !in h;
    Outside(g, h, q);
    if |g| % 256 > 1 {
      var g' := Served(Removed(m, lo), q);
      assert g' == g - {lo};
      assert InRange(g', lo + 1, hi) == h - {lo};
    }
  }

  lemma NoOverrun(live: nat)
    ensures !Overrun(live, 0)
  {
  }

  lemma OverrunStep(live: nat, hit: nat)
    requires 1 <= hit < live <= ENTRIES
    ensures if live % 256 <= 1 then Overrun(live, hit) else Overrun(live, hit) == Overrun(live - 1, hit - 1)
  {
  }

  lemma Outside(g: set<nat>, h: set<nat>, q: nat)
    requires h <= g && q in g && q !in h
    ensures |h| < |g|
  {
    SubsetSize(h + {q}, g);
  }

  /** No table with pages both in the range and outside it passes a crowded size. */
  ghost predicate Safe(m: set<nat>, lo: nat, hi: nat) {
    forall q <- m :: !(lo <= q < hi) ==> !Overrun(|Served(m, q)|, |InRange(Served(m, q), lo, hi)|)
  }

  /** Unmapping a range removes exactly its pages if and only if it is safe, which can be told beforehand. */
  lemma SweptExact(m: set<nat>, lo: nat, hi: nat)
    ensures Swept(m, lo, hi) == Kept(m, lo, hi) <==> Safe(m, lo, hi)
  {
    SweptWithin(m, lo, hi);
    forall q <- m | !(lo <= q < hi)
      ensures q in Swept(m, lo, hi) <==> !Overrun(|Served(m, q)|, |InRange(Served(m, q), lo, hi)|)
    {
      SweptAt(m, lo, hi, q);
    }
    hide Swept;
    hide Overrun;
    if Safe(m, lo, hi) {
      assert Swept(m, lo, hi) == Kept(m, lo, hi);
    } else {
      var q :| q in m && !(lo <= q < hi) && Overrun(|Served(m, q)|, |InRange(Served(m, q), lo, hi)|);
      assert q in Kept(m, lo, hi) && q !in Swept(m, lo, hi);
    }
  }

  predicate Sparse(m: set<nat>) { forall q <- m :: |Served(m, q)| < 256 }

  /** Fewer than 256 live entries in every table are always safe. */
  lemma SparseSafe(m: set<nat>, lo: nat, hi: nat)
    requires Sparse(m)
    ensures Safe(m, lo, hi)
  {
  }
}
