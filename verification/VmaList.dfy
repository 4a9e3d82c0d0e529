/** An address space as an ordered list of disjoint page-aligned areas, and cutting a range out of it. */
module VmaList {
  const PAGE := 4096
  const U64 := 0x1_0000_0000_0000_0000

  function Down(x: nat): nat { x / PAGE * PAGE }

  /** Rounding up to a page, in 64-bit arithmetic. */
  function Up(x: nat): nat { Down((x + PAGE - 1) % U64) }

  lemma DownIs(x: nat)
    ensures Aligned(Down(x)) && Down(x) <= x < Down(x) + PAGE
  {
  }

  /** Rounding up wraps to 0 exactly in the last page. */
  lemma UpIs(x: nat)
    requires x < U64
    ensures Aligned(Up(x)) && if x <= U64 - PAGE then x <= Up(x) < x + PAGE else Up(x) == 0
  {
    DownIs((x + PAGE - 1) % U64);
  }

  predicate InPage(y: nat, p: nat) { y / PAGE == p }

  /** Some address of a range lies in page `p`. */
  ghost predicate Touched(start: nat, end: nat, p: nat) {
    exists y: nat :: start <= y < end && InPage(y, p)
  }

  /** The pages of a range are those between its rounded ends. */
  lemma TouchedIs(start: nat, end: nat, p: nat)
    requires start < end <= U64 - PAGE
    ensures Touched(start, end, p) <==> Down(start) / PAGE <= p < Up(end) / PAGE
  {
    DownIs(start);
    UpIs(end);
    PageEnds(Down(start), p);
    PageEnds(Up(end), p);
    hide Down;
    hide Up;
    if y: nat :| start <= y < end && InPage(y, p) {
      assert p * PAGE <= y < p * PAGE + PAGE;
    }
    if Down(start) / PAGE <= p < Up(end) / PAGE {
      var y := if start > p * PAGE then start else p * PAGE;
      assert InPage(y, p);
    }
  }

  lemma PageEnds(a: nat, p: nat)
    requires Aligned(a)
    ensures (a / PAGE <= p <==> a <= p * PAGE) && (p < a / PAGE <==> p * PAGE < a)
  {
  }

  datatype Area = Area(start: nat, end: nat, flags: nat, kind: nat, offset: nat)

  predicate Aligned(x: nat) { x % PAGE == 0 }

  predicate AreaOk(a: Area) { a.start < a.end <= U64 - PAGE && Aligned(a.start) && Aligned(a.end) }

  predicate Holds(a: Area, x: nat) { a.start <= x < a.end }

  predicate Ordered(s: seq<Area>) {
    (forall i: nat | i < |s| :: AreaOk(s[i])) && forall i: nat, j: nat | i < j < |s| :: s[i].end <= s[j].start
  }

  /** Address `x` belongs to an area with these attributes. */
  predicate Covers(s: seq<Area>, x: nat, flags: nat, kind: nat) {
    exists a <- s :: Holds(a, x) && a.flags == flags && a.kind == kind
  }

  predicate Covered(s: seq<Area>, x: nat) {
    exists a <- s :: Holds(a, x)
  }

  predicate Splits(a: Area, s: nat, e: nat) { a.start < s && e < a.end && s < e }

  /** What is left of an area. */
  function Cut(a: Area, s: nat, e: nat): seq<Area> {
    if a.end <= s || e <= a.start || e <= s then [a]
    else (if a.start < s then [a.(end := s)] else []) + (if e < a.end then [a.(start := e)] else [])
  }

  function CutAll(list: seq<Area>, s: nat, e: nat): seq<Area> {
    if list == [] then [] else CutAll(list[..|list| - 1], s, e) + Cut(list[|list| - 1], s, e)
  }

  lemma CutOne(a: Area, s: nat, e: nat)
    requires AreaOk(a) && Aligned(s) && Aligned(e)
    ensures Ordered(Cut(a, s, e))
    ensures forall b <- Cut(a, s, e) :: a.start <= b.start && b.end <= a.end && b.offset == a.offset
    ensures forall x: nat, f: nat, k: nat :: Covers(Cut(a, s, e), x, f, k) <==>
            Holds(a, x) && a.flags == f && a.kind == k && !(s <= x < e)
  {
    forall x: nat, f: nat, k: nat | Holds(a, x) && a.flags == f && a.kind == k && !(s <= x < e)
      ensures Covers(Cut(a, s, e), x, f, k)
    {
      var c := Cut(a, s, e);
      assert c[0] in c && c[|c| - 1] in c;
      assert Holds(c[0], x) || Holds(c[|c| - 1], x);
    }
  }

  lemma CoversJoin(a: seq<Area>, b: seq<Area>, x: nat, f: nat, k: nat)
    ensures Covers(a + b, x, f, k) <==> Covers(a, x, f, k) || Covers(b, x, f, k)
  {
    hide Holds;
    if Covers(a, x, f, k) {
      var c :| c in a && Holds(c, x) && c.flags == f && c.kind == k;
      assert c in a + b;
    }
    if Covers(b, x, f, k) {
      var c :| c in b && Holds(c, x) && c.flags == f && c.kind == k;
      assert c in a + b;
    }
  }

  /** Cutting removes exactly the range; what remains keeps its attributes. */
  lemma {:induction false} CutExact(list: seq<Area>, s: nat, e: nat, x: nat, f: nat, k: nat)
    requires Ordered(list) && Aligned(s) && Aligned(e)
    ensures Covers(CutAll(list, s, e), x, f, k) <==> Covers(list, x, f, k) && !(s <= x < e)
  {
    hide Cut;
    hide Covers;
    hide Aligned;
    if list == [] {
      NoneCovered(x, f, k);
    } else {
      var n := |list| - 1;
      CutExact(list[..n], s, e, x, f, k);
      CutOne(list[n], s, e);
      CoversJoin(CutAll(list[..n], s, e), Cut(list[n], s, e), x, f, k);
      assert list == list[..n] + [list[n]];
      CoversJoin(list[..n], [list[n]], x, f, k);
      OneCovered(list[n], x, f, k);
    }
  }

  /** A range that wraps to nothing cuts nothing. */
  lemma {:induction false} CutNothing(list: seq<Area>, s: nat)
    ensures CutAll(list, s, 0) == list
  {
    if list != [] {
      CutNothing(list[..|list| - 1], s);
    }
  }

  /**
    * Cutting the rounded range out: an address keeps its attributes exactly when no address of the range
    * lies in its page.
    */
  lemma CutPages(list: seq<Area>, start: nat, end: nat, x: nat, f: nat, k: nat)
    requires Ordered(list) && start < end <= U64 - PAGE
    ensures Covers(CutAll(list, Down(start), Up(end)), x, f, k) <==>
            Covers(list, x, f, k) && !Touched(start, end, x / PAGE)
  {
    DownIs(start);
    UpIs(end);
    hide Ordered;
    hide Up;
    hide Down;
    hide Covers;
    CutExact(list, Down(start), Up(end), x, f, k);
    TouchedIs(start, end, x / PAGE);
    PageOf(Down(start), x);
    PageOf(Up(end), x);
  }

  lemma PageOf(a: nat, x: nat)
    requires Aligned(a)
    ensures a <= x <==> a / PAGE <= x / PAGE
  {
  }

  lemma NoneCovered(x: nat, f: nat, k: nat)
    ensures !Covers([], x, f, k)
  {
  }

  lemma OneCovered(a: Area, x: nat, f: nat, k: nat)
    ensures Covers([a], x, f, k) <==> Holds(a, x) && a.flags == f && a.kind == k
  {
    assert a in [a];
  }

  lemma {:induction false} CutOrdered(list: seq<Area>, s: nat, e: nat)
    requires Ordered(list) && Aligned(s) && Aligned(e)
    ensures Ordered(CutAll(list, s, e))
    ensures forall b <- CutAll(list, s, e) :: list != [] && b.end <= list[|list| - 1].end
  {
    hide Cut;
    if list != [] {
      var n := |list| - 1;
      CutOrdered(list[..n], s, e);
      CutOne(list[n], s, e);
      var a, b := CutAll(list[..n], s, e), Cut(list[n], s, e);
      forall i: nat, j: nat | i < |a| && j < |b| ensures a[i].end <= b[j].start {
        assert a[i] in a && b[j] in b;
      }
      OrderedJoin(a, b);
    }
  }

  lemma OrderedJoin(a: seq<Area>, b: seq<Area>)
    requires Ordered(a) && Ordered(b) && forall i: nat, j: nat | i < |a| && j < |b| :: a[i].end <= b[j].start
    ensures Ordered(a + b)
  {
  }

  /** Areas past the range are kept as they are. */
  lemma {:induction false} CutRest(list: seq<Area>, s: nat, e: nat, i: nat)
    requires Ordered(list) && i <= |list| && (i < |list| ==> list[i].start >= e)
    ensures CutAll(list, s, e) == CutAll(list[..i], s, e) + list[i..]
    decreases |list| - i
  {
    hide Cut;
    hide CutAll;
    hide Ordered;
    if i == |list| {
      assert list[..i] == list;
      assert list[i..] == [];
    } else {
      var n := |list| - 1;
      PastRange(list, s, e, i);
      ShortPrefix(list, i);
      CutRest(list[..n], s, e, i);
      CutNext(list, s, e, n);
      assert list[..n + 1] == list;
      Assoc(CutAll(list[..i], s, e), list[..n][i..], [list[n]]);
    }
  }

  lemma Assoc(a: seq<Area>, b: seq<Area>, c: seq<Area>)
    ensures (a + b) + c == a + (b + c)
  {
  }

  lemma PastRange(list: seq<Area>, s: nat, e: nat, i: nat)
    requires Ordered(list) && i < |list| && list[i].start >= e
    ensures Cut(list[|list| - 1], s, e) == [list[|list| - 1]] && Ordered(list[..|list| - 1])
  {
    var n := |list| - 1;
    assert AreaOk(list[i]);
    assert i == n || list[i].end <= list[n].start;
  }

  lemma ShortPrefix(list: seq<Area>, i: nat)
    requires i < |list|
    ensures list[..|list| - 1][..i] == list[..i] && list[i..] == list[..|list| - 1][i..] + [list[|list| - 1]]
  {
  }

  /** When the range lies inside one area no other is touched. */
  lemma {:induction false} CutBefore(list: seq<Area>, s: nat, e: nat)
    requires Ordered(list) && (list != [] ==> list[|list| - 1].end <= s)
    ensures CutAll(list, s, e) == list
  {
    hide Aligned;
    if list != [] {
      var n := |list| - 1;
      EndsRise(list);
      OrderedInit(list);
      assert list == list[..n] + [list[n]] && Cut(list[n], s, e) == [list[n]];
      hide Ordered;
      hide Cut;
      CutBefore(list[..n], s, e);
    }
  }

  lemma EndsRise(list: seq<Area>)
    requires Ordered(list) && list != []
    ensures |list| > 1 ==> list[|list| - 2].end <= list[|list| - 1].end
  {
    hide Aligned;
    assert |list| > 1 ==> list[|list| - 2].end <= list[|list| - 1].start;
  }

  lemma OrderedInit(list: seq<Area>)
    requires Ordered(list) && list != []
    ensures Ordered(list[..|list| - 1])
  {
    hide AreaOk;
  }

  lemma CutNext(list: seq<Area>, s: nat, e: nat, i: nat)
    requires i < |list|
    ensures CutAll(list[..i + 1], s, e) == CutAll(list[..i], s, e) + Cut(list[i], s, e)
  {
    assert list[..i + 1][..i] == list[..i];
  }
}
