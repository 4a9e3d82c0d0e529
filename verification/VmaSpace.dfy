/** The areas of an address space in a red-black tree keyed by their start, edited in place. */
module VmaSpace {
  import opened RbShape
  import opened RbKeys
  import opened RbTree
  import opened VmaList
  import LeafTable

  type Areas = map<Node, Area>

  predicate Known(vma: Areas, c: seq<Node>) {
    forall n <- c :: n in vma
  }

  /** The areas in tree order. */
  function ListOf(vma: Areas, c: seq<Node>): (r: seq<Area>)
    requires Known(vma, c)
    ensures |r| == |c| && forall i: nat | i < |c| :: r[i] == vma[c[i]]
  {
    seq(|c|, i requires 0 <= i < |c| => vma[c[i]])
  }

  function Starts(vma: Areas): Keys { map n | n in vma :: vma[n].start }

  ghost predicate Good(vma: Areas, c: seq<Node>) {
    Known(vma, c) && Ordered(ListOf(vma, c))
  }

  lemma GoodSorted(vma: Areas, c: seq<Node>)
    requires Good(vma, c)
    ensures Sorted(Starts(vma), c)
  {
    hide Aligned;
    var list := ListOf(vma, c);
    forall i: nat, j: nat | i < j < |c| ensures vma[c[i]].start <= vma[c[j]].start {
      assert list[i].end <= list[j].start && AreaOk(list[i]);
    }
  }

  /** An area is in the tree once. */
  lemma Unique(vma: Areas, c: seq<Node>, i: nat, j: nat)
    requires Good(vma, c) && i < |c| && j < |c| && c[i] == c[j]
    ensures i == j
  {
    hide Ordered;
    StartsRise(ListOf(vma, c));
  }

  lemma StartsRise(list: seq<Area>)
    requires Ordered(list)
    ensures forall i: nat, j: nat | i < j < |list| :: list[i].start < list[j].start
  {
    hide Aligned;
  }

  lemma RemovedAt(vma: Areas, c: seq<Node>, k: nat, a: seq<Node>, b: seq<Node>)
    requires Good(vma, c) && k < |c| && c == a + [c[k]] + b
    ensures |a| == k && a + b == c[..k] + c[k + 1..] && Known(vma, a + b)
    ensures ListOf(vma, a + b) == ListOf(vma, c)[..k] + ListOf(vma, c)[k + 1..]
  {
    hide Ordered;
    MiddleIs(a, c[k], b, c);
    Unique(vma, c, k, |a|);
    KnownPart(vma, c, k);
  }

  lemma MiddleIs(a: seq<Node>, x: Node, b: seq<Node>, c: seq<Node>)
    requires c == a + [x] + b
    ensures |a| < |c| && c[|a|] == x && a == c[..|a|] && b == c[|a| + 1..]
  {
  }

  lemma KnownPart(vma: Areas, c: seq<Node>, k: nat)
    requires Known(vma, c) && k < |c|
    ensures Known(vma, c[..k] + c[k + 1..])
    ensures ListOf(vma, c[..k] + c[k + 1..]) == ListOf(vma, c)[..k] + ListOf(vma, c)[k + 1..]
  {
  }

  lemma EditedAt(vma: Areas, c: seq<Node>, k: nat, a: Area)
    requires Good(vma, c) && k < |c|
    ensures Known(vma[c[k] := a], c) && ListOf(vma[c[k] := a], c) == ListOf(vma, c)[k := a]
  {
    forall i: nat | i < |c| && c[i] == c[k] ensures i == k {
      Unique(vma, c, i, k);
    }
    hide Ordered;
  }

  lemma AddedAside(vma: Areas, c: seq<Node>, z: Node, a: Area)
    requires Known(vma, c) && z !in c
    ensures Known(vma[z := a], c) && ListOf(vma[z := a], c) == ListOf(vma, c)
  {
  }

  lemma InsertedAt(vma: Areas, c: seq<Node>, k: nat, z: Node)
    requires Known(vma, c) && k <= |c| && z in vma
    ensures Known(vma, c[..k] + [z] + c[k..])
    ensures ListOf(vma, c[..k] + [z] + c[k..]) == ListOf(vma, c)[..k] + [vma[z]] + ListOf(vma, c)[k..]
  {
  }

  /** Where a new start falls among the old ones. */
  lemma Position(vma: Areas, c: seq<Node>, z: Node, k: nat, j: nat)
    requires Good(vma, c) && z in vma && k <= |c| && j <= |c|
    requires AllLe(Starts(vma), c[..k], vma[z].start) && AllGt(Starts(vma), c[k..], vma[z].start)
    requires j > 0 ==> vma[c[j - 1]].start <= vma[z].start
    requires j < |c| ==> vma[c[j]].start > vma[z].start
    ensures k == j
  {
    hide Ordered;
    hide ListOf;
    LeAt(Starts(vma), c, k, vma[z].start);
    GtAt(Starts(vma), c, k, vma[z].start);
  }

  lemma LeAt(key: Keys, c: seq<Node>, k: nat, v: int)
    requires k <= |c| && AllLe(key, c[..k], v)
    ensures forall j: nat | j < k :: c[j] in key && key[c[j]] <= v
  {
    forall j: nat | j < k ensures c[j] in key && key[c[j]] <= v {
      assert c[..k][j] in c[..k];
    }
  }

  lemma GtAt(key: Keys, c: seq<Node>, k: nat, v: int)
    requires k <= |c| && AllGt(key, c[k..], v)
    ensures forall j: nat | k <= j < |c| :: c[j] in key && key[c[j]] > v
  {
    forall j: nat | k <= j < |c| ensures c[j] in key && key[c[j]] > v {
      assert c[k..][j - k] in c[k..];
    }
  }

  /** The pages of a range lie strictly inside one area. */
  ghost predicate Inner(list: seq<Area>, start: nat, end: nat) {
    exists i: nat ::
      i < |list| && list[i].start / PAGE < start / PAGE && end > 0 && (end - 1) / PAGE + 1 < list[i].end / PAGE
  }

  lemma InnerIs(list: seq<Area>, start: nat, end: nat)
    requires Ordered(list) && start < end <= U64 - PAGE
    ensures SplitNeeded(list, Down(start), Up(end)) <==> Inner(list, start, end)
    ensures Down(start) / PAGE == start / PAGE && Up(end) / PAGE == (end - 1) / PAGE + 1
  {
    DownIs(start);
    UpIs(end);
    hide Down;
    hide Up;
    FirstPage(start, Down(start));
    LastPage(end, Up(end));
    forall i: nat | i < |list|
      ensures Splits(list[i], Down(start), Up(end)) <==>
              list[i].start / PAGE < start / PAGE && (end - 1) / PAGE + 1 < list[i].end / PAGE
    {
      assert AreaOk(list[i]);
      PageOf(Down(start), list[i].start);
      PageOf(list[i].end, Up(end));
    }
  }

  lemma FirstPage(start: nat, down: nat)
    requires Aligned(down) && down <= start < down + PAGE
    ensures down / PAGE == start / PAGE
  {
  }

  lemma LastPage(end: nat, up: nat)
    requires Aligned(up) && 0 < end <= up < end + PAGE
    ensures up / PAGE == (end - 1) / PAGE + 1
  {
  }

  /** What unmapping pages `lo` to `hi` leaves. */
  lemma SweptPages(m: set<nat>, lo: nat, hi: nat)
    ensures var r := LeafTable.Swept(m, lo, hi);
            (hi == 0 ==> r == m) && (forall p <- r :: p in m && !(lo <= p < hi)) &&
            ((forall p <- m :: p in r || lo <= p < hi) <==> LeafTable.Safe(m, lo, hi)) &&
            (LeafTable.Sparse(m) ==> LeafTable.Safe(m, lo, hi))
  {
    LeafTable.SweptWithin(m, lo, hi);
    LeafTable.SweptExact(m, lo, hi);
    if LeafTable.Sparse(m) {
      LeafTable.SparseSafe(m, lo, hi);
    }
    hide LeafTable.Safe;
    hide LeafTable.Sparse;
    var r := LeafTable.Swept(m, lo, hi);
    assert (forall p <- m :: p in r || lo <= p < hi) <==> r == LeafTable.Kept(m, lo, hi);
  }

  /** What unmapping the rounded range leaves, page by page. */
  lemma RangePages(m: set<nat>, start: nat, end: nat)
    requires start < end < U64
    ensures var r := LeafTable.Swept(m, Down(start) / PAGE, Up(end) / PAGE);
            if end > U64 - PAGE then r == m
            else (forall p <- r :: p in m && !Touched(start, end, p)) &&
                 ((forall p <- m :: p in r || Touched(start, end, p)) <==>
                  LeafTable.Safe(m, start / PAGE, (end - 1) / PAGE + 1)) &&
                 (LeafTable.Sparse(m) ==> forall p :: p in r <==> p in m && !Touched(start, end, p))
  {
    hide Up;
    hide Down;
    hide Touched;
    hide LeafTable.Swept;
    hide LeafTable.Sparse;
    hide LeafTable.Safe;
    UpIs(end);
    SweptPages(m, Down(start) / PAGE, Up(end) / PAGE);
    if end <= U64 - PAGE {
      InnerIs([], start, end);
      TouchedPages(start, end);
    }
  }

  lemma TouchedPages(start: nat, end: nat)
    requires start < end <= U64 - PAGE
    ensures forall p: nat :: Touched(start, end, p) <==> Down(start) / PAGE <= p < Up(end) / PAGE
  {
    forall p: nat ensures Touched(start, end, p) <==> Down(start) / PAGE <= p < Up(end) / PAGE {
      TouchedIs(start, end, p);
    }
  }

  /** What cutting the rounded range leaves, address by address. */
  lemma RangeAreas(list: seq<Area>, start: nat, end: nat)
    requires Ordered(list) && start < end < U64
    ensures var r := CutAll(list, Down(start), Up(end));
            if end > U64 - PAGE then r == list
            else (SplitNeeded(list, Down(start), Up(end)) <==> Inner(list, start, end)) &&
                 forall x: nat, f: nat, k: nat ::
                   Covers(r, x, f, k) <==> Covers(list, x, f, k) && !Touched(start, end, x / PAGE)
  {
    UpIs(end);
    hide Up;
    hide Down;
    hide Touched;
    hide Covers;
    hide Ordered;
    hide CutAll;
    hide SplitNeeded;
    hide Inner;
    if end > U64 - PAGE {
      CutNothing(list, Down(start));
    } else {
      InnerIs(list, start, end);
      forall x: nat, f: nat, k: nat
        ensures Covers(CutAll(list, Down(start), Up(end)), x, f, k) <==>
                Covers(list, x, f, k) && !Touched(start, end, x / PAGE)
      {
        CutPages(list, start, end, x, f, k);
      }
    }
  }

  lemma UpAligned(x: nat)
    ensures Aligned(Up(x)) && Aligned(0)
  {
  }

  lemma Rounded(start: nat, end: nat)
    requires start < end < U64
    ensures Aligned(Down(start)) && Aligned(Up(end)) && (Up(end) == 0 || Down(start) < Up(end))
  {
  }

  // ----- One step of the traversal, on lists -----

  /** The list half-way: the first `i` areas cut, the rest untouched; or nothing cut because a split found no memory. */
  ghost predicate Half(list: seq<Area>, cur: seq<Area>, s: nat, e: nat, i: nat, k: nat, stuck: bool) {
    i <= |list| &&
    if stuck then cur == list && k == i && (i < |list| ==> list[i].start >= e)
    else cur == CutAll(list[..i], s, e) + list[i..] && k == |CutAll(list[..i], s, e)|
  }

  lemma HalfAt(list: seq<Area>, cur: seq<Area>, s: nat, e: nat, i: nat, k: nat, stuck: bool)
    requires Half(list, cur, s, e, i, k, stuck)
    ensures |cur| - k == |list| - i && (i < |list| ==> k < |cur| && cur[k] == list[i])
    ensures forall j: nat | i <= j < |list| :: k + (j - i) < |cur| && cur[k + (j - i)] == list[j]
  {
    hide CutAll;
  }

  lemma HalfNext(list: seq<Area>, cur: seq<Area>, s: nat, e: nat, i: nat, k: nat, pieces: seq<Area>)
    requires Half(list, cur, s, e, i, k, false) && i < |list| && pieces == Cut(list[i], s, e)
    ensures k < |cur| && Half(list, cur[..k] + pieces + cur[k + 1..], s, e, i + 1, k + |pieces|, false)
  {
    hide CutAll;
    hide Cut;
    CutNext(list, s, e, i);
    var p := CutAll(list[..i], s, e);
    assert cur[..k] == p && cur[k + 1..] == list[i + 1..];
  }

  /** Replacing an area by ordered pieces of it keeps the list ordered. */
  lemma ReplaceOrdered(list: seq<Area>, k: nat, pieces: seq<Area>)
    requires Ordered(list) && k < |list| && Ordered(pieces)
    requires forall b <- pieces :: list[k].start <= b.start && b.end <= list[k].end
    ensures Ordered(list[..k] + pieces + list[k + 1..])
  {
    hide Aligned;
    hide AreaOk;
    var pre, post := list[..k], list[k + 1..];
    forall i: nat, j: nat | i < |pre| && j < |pieces| ensures pre[i].end <= pieces[j].start {
      assert pieces[j] in pieces && list[i].end <= list[k].start;
    }
    OrderedJoin(pre, pieces);
    var front := pre + pieces;
    forall i: nat, j: nat | i < |front| && j < |post| ensures front[i].end <= post[j].start {
      assert post[j] == list[k + 1 + j];
      if i < |pre| {
        assert list[i].end <= list[k + 1 + j].start;
      } else {
        assert pieces[i - |pre|] in pieces && list[k].end <= list[k + 1 + j].start;
      }
    }
    OrderedJoin(front, post);
  }

  /** The mapped pages, by number, all lie in areas. */
  ghost predicate PagesOk(mapped: set<nat>, list: seq<Area>) {
    forall p <- mapped :: VmaList.Covered(list, p * PAGE)
  }

  ghost predicate SplitNeeded(list: seq<Area>, s: nat, e: nat) {
    exists i: nat :: i < |list| && Splits(list[i], s, e)
  }

  ghost predicate SplitSeen(list: seq<Area>, s: nat, e: nat, i: nat) {
    exists j: nat :: j < i && j < |list| && Splits(list[j], s, e)
  }

  /** Where unmapping stands once the first `i` areas are done. */
  function Mark(list: seq<Area>, s: nat, e: nat, i: nat): nat
    requires i <= |list|
  {
    if i == 0 || list[i - 1].end <= s then s else if list[i - 1].end < e then list[i - 1].end else e
  }

  ghost function Left(mapped: set<nat>, list: seq<Area>, s: nat, e: nat, i: nat): set<nat>
    requires i <= |list|
  {
    LeafTable.Swept(mapped, s / PAGE, Mark(list, s, e, i) / PAGE)
  }

  lemma RemoveStart(vma: Areas, c: seq<Node>, mapped: set<nat>, s: nat, e: nat)
    requires Good(vma, c)
    ensures Known(vma, c) && Half(ListOf(vma, c), ListOf(vma, c), s, e, 0, 0, false) &&
            mapped == Left(mapped, ListOf(vma, c), s, e, 0)
    ensures !SplitSeen(ListOf(vma, c), s, e, 0) && |ListOf(vma, c)| == |c| && Ordered(ListOf(vma, c))
  {
    hide Ordered;
    var list := ListOf(vma, c);
    assert list[..0] == [] && list[0..] == list && CutAll(list[..0], s, e) == [];
  }

  /** What the loop knows of the area it looks at. */
  lemma StepFacts(vma: Areas, c: seq<Node>, list: seq<Area>, s: nat, e: nat, i: nat, k: nat, stuck: bool)
    requires Good(vma, c) && Half(list, ListOf(vma, c), s, e, i, k, stuck) && i < |list| && k < |c|
    ensures c[k] in vma && vma[c[k]] == list[i] && AreaOk(list[i]) && (stuck ==> list[i].start >= e)
  {
    hide CutAll;
    hide Aligned;
    HalfAt(list, ListOf(vma, c), s, e, i, k, stuck);
    assert ListOf(vma, c)[k] == vma[c[k]];
  }

  /** No page is mapped between areas. */
  lemma NoneBetween(mapped: set<nat>, list: seq<Area>, i: nat, a: nat, b: nat)
    requires PagesOk(mapped, list) && Ordered(list) && i <= |list| && Aligned(a) && Aligned(b)
    requires (i > 0 ==> list[i - 1].end <= a) && (i < |list| ==> b <= list[i].start)
    ensures forall p <- mapped :: !(a / PAGE <= p < b / PAGE)
  {
    forall p <- mapped ensures !(a / PAGE <= p < b / PAGE) {
      var x :| x in list && Holds(x, p * PAGE);
      var j: nat :| j < |list| && list[j] == x;
      hide Aligned;
      if j < i {
        assert j < i - 1 ==> list[j].end <= list[i - 1].start;
        assert x.end <= a;
        PageBelow(p, a);
      } else {
        assert i < j ==> list[i].end <= list[j].start;
        assert b <= x.start;
        PageBelow(p, b);
      }
    }
  }

  lemma PageBelow(p: nat, a: nat)
    requires Aligned(a)
    ensures p * PAGE < a <==> p < a / PAGE
  {
  }

  lemma MarkFacts(list: seq<Area>, s: nat, e: nat, i: nat)
    requires Ordered(list) && i <= |list| && Aligned(s) && Aligned(e)
    ensures Aligned(Mark(list, s, e, i)) && (Mark(list, s, e, i) >= s || Mark(list, s, e, i) == e)
    ensures i > 0 && Mark(list, s, e, i) < e ==> list[i - 1].end <= Mark(list, s, e, i)
  {
  }

  /** Unmapping goes on past a gap between areas. */
  lemma LeftGap(mapped: set<nat>, list: seq<Area>, s: nat, e: nat, i: nat, to: nat)
    requires PagesOk(mapped, list) && Ordered(list) && i <= |list| && Aligned(s) && Aligned(e) && Aligned(to)
    requires s <= to <= e && Mark(list, s, e, i) <= to &&
             (i < |list| && Mark(list, s, e, i) < to ==> to <= list[i].start)
    ensures Left(mapped, list, s, e, i) == LeafTable.Swept(mapped, s / PAGE, to / PAGE)
  {
    hide Ordered;
    hide Aligned;
    hide PagesOk;
    hide Mark;
    hide LeafTable.Swept;
    var m := Mark(list, s, e, i);
    MarkFacts(list, s, e, i);
    if m < to {
      Divides(s, m);
      Divides(m, to);
      LeafTable.SweptJoin(mapped, s / PAGE, m / PAGE, to / PAGE);
      LeafTable.SweptWithin(mapped, s / PAGE, m / PAGE);
      NoneBetween(mapped, list, i, m, to);
      LeafTable.SweptGap(Left(mapped, list, s, e, i), m / PAGE, to / PAGE);
    }
  }

  lemma MarkNext(list: seq<Area>, s: nat, e: nat, i: nat)
    requires Ordered(list) && i < |list| && s < e && list[i].start < e && list[i].end > s
    ensures var from := if list[i].start > s then list[i].start else s;
            s <= Mark(list, s, e, i) <= from <= e && (Mark(list, s, e, i) < from ==> from <= list[i].start)
    ensures Mark(list, s, e, i + 1) == (if list[i].end < e then list[i].end else e)
    ensures AreaOk(list[i])
  {
    hide Aligned;
    assert i > 0 ==> list[i - 1].end <= list[i].start;
  }

  lemma LeftNext(mapped: set<nat>, list: seq<Area>, s: nat, e: nat, i: nat, from: nat, to: nat)
    requires PagesOk(mapped, list) && Ordered(list) && i < |list| && Aligned(s) && Aligned(e)
    requires s < e && list[i].start < e && list[i].end > s
    requires from == (if list[i].start > s then list[i].start else s) &&
             to == (if list[i].end < e then list[i].end else e)
    ensures LeafTable.Swept(Left(mapped, list, s, e, i), from / PAGE, to / PAGE) == Left(mapped, list, s, e, i + 1)
  {
    hide Ordered;
    hide Aligned;
    hide PagesOk;
    hide Mark;
    hide LeafTable.Swept;
    MarkNext(list, s, e, i);
    AreaEnds(list[i]);
    LeftGap(mapped, list, s, e, i, from);
    Divides(s, from);
    Divides(from, to);
    LeafTable.SweptJoin(mapped, s / PAGE, from / PAGE, to / PAGE);
  }

  lemma LeftSame(mapped: set<nat>, list: seq<Area>, s: nat, e: nat, i: nat)
    requires Ordered(list) && i < |list| && list[i].end <= s
    ensures Left(mapped, list, s, e, i + 1) == Left(mapped, list, s, e, i)
  {
    hide Aligned;
    hide LeafTable.Swept;
    assert i > 0 ==> list[i - 1].end <= list[i].start;
  }

  lemma LeftDone(mapped: set<nat>, list: seq<Area>, s: nat, e: nat, i: nat)
    requires PagesOk(mapped, list) && Ordered(list) && i <= |list| && Aligned(s) && Aligned(e)
    requires (i < |list| ==> list[i].start >= e) && (s < e || i == 0)
    ensures Left(mapped, list, s, e, i) == LeafTable.Swept(mapped, s / PAGE, e / PAGE)
  {
    if s < e {
      LeftGap(mapped, list, s, e, i, e);
    } else {
      Divides(e, s);
    }
  }

  lemma SweptOne(mapped: set<nat>, lo: nat, i: nat)
    requires lo <= i
    ensures LeafTable.Swept(mapped, lo, i + 1) == LeafTable.Removed(LeafTable.Swept(mapped, lo, i), i)
  {
    LeafTable.SweptJoin(mapped, lo, i, i + 1);
    assert LeafTable.Swept(LeafTable.Removed(LeafTable.Swept(mapped, lo, i), i), i + 1, i + 1) ==
           LeafTable.Removed(LeafTable.Swept(mapped, lo, i), i);
  }

  lemma Divides(a: nat, b: nat)
    requires a <= b
    ensures a / PAGE <= b / PAGE
  {
  }

  /** An area that is split is the only one the range meets. */
  lemma SplitOnce(list: seq<Area>, s: nat, e: nat, i: nat)
    requires i < |list|
    ensures SplitSeen(list, s, e, i + 1) <==> SplitSeen(list, s, e, i) || Splits(list[i], s, e)
    ensures Ordered(list) && Splits(list[i], s, e) && i + 1 < |list| ==> list[i + 1].start >= e
  {
    if SplitSeen(list, s, e, i) {
      var j: nat :| j < i && j < |list| && Splits(list[j], s, e);
      assert j < i + 1;
    }
  }

  lemma HalfKeep(list: seq<Area>, cur: seq<Area>, s: nat, e: nat, i: nat, k: nat)
    requires Half(list, cur, s, e, i, k, false) && i < |list| && list[i].end <= s
    ensures Half(list, cur, s, e, i + 1, k + 1, false) && !Splits(list[i], s, e)
  {
    hide CutAll;
    HalfAt(list, cur, s, e, i, k, false);
    assert Cut(list[i], s, e) == [list[i]];
    HalfNext(list, cur, s, e, i, k, [list[i]]);
    assert cur[..k] + [list[i]] + cur[k + 1..] == cur;
  }

  lemma CurSize(vma: Areas, c: seq<Node>)
    requires Known(vma, c)
    ensures |ListOf(vma, c)| == |c|
  {
  }

  lemma AreaEnds(a: Area)
    requires AreaOk(a)
    ensures Aligned(a.start) && Aligned(a.end)
  {
  }

  lemma GoodKnown(vma: Areas, c: seq<Node>)
    requires Good(vma, c)
    ensures Known(vma, c) && Ordered(ListOf(vma, c))
  {
  }

  class Space {
    const tree: Tree
    var vma: Areas
    var mapped: set<nat>

    ghost predicate Valid()
      reads this, tree
    {
      tree.Valid() && Good(vma, tree.Contents()) && PagesOk(mapped, List())
    }

    /** The areas in order. */
    ghost function List(): seq<Area>
      reads this, tree
      requires Known(vma, tree.Contents())
    {
      ListOf(vma, tree.Contents())
    }

    constructor ()
      ensures Valid() && fresh(tree) && List() == [] && mapped == {}
    {
      tree := new Tree();
      vma, mapped := map[], {};
    }

    method UnmapPages(lo: nat, hi: nat)
      requires Aligned(lo) && Aligned(hi) && lo <= hi
      modifies this`mapped
      ensures mapped == LeafTable.Swept(old(mapped), lo / PAGE, hi / PAGE)
    {
      var i := lo;
      while i < hi
        invariant Aligned(i) && lo <= i <= hi && mapped == LeafTable.Swept(old(mapped), lo / PAGE, i / PAGE)
      {
        Divides(lo, i);
        SweptOne(old(mapped), lo / PAGE, i / PAGE);
        mapped := LeafTable.Removed(mapped, i / PAGE);
        i := i + PAGE;
      }
    }

    /** Cuts the range out of the area at a node: the node goes, is edited in place, or gets a sibling. */
    method CutNode(node: Node, s: nat, e: nat, spare: Node, ghost k: nat) returns (used: bool)
      requires tree.Valid() && Good(vma, tree.Contents()) && k < |tree.Contents()| && tree.Contents()[k] == node
      requires spare != NIL ==> spare !in tree.Contents()
      requires Aligned(s) && Aligned(e) && s < e && node in vma && vma[node].start < e && vma[node].end > s
      modifies this`vma, tree
      ensures tree.Valid() && Good(vma, tree.Contents())
      ensures var a := old(vma)[node]; var c := old(tree.Contents()); var list := ListOf(old(vma), c);
              used == (Splits(a, s, e) && spare != NIL) &&
              if Splits(a, s, e) && spare == NIL then vma == old(vma) && tree.Contents() == c
              else List() == list[..k] + Cut(a, s, e) + list[k + 1..] &&
                   k + |Cut(a, s, e)| <= |tree.Contents()| && tree.Contents()[k + |Cut(a, s, e)|..] == c[k + 1..] &&
                   (spare !in c && !used ==> spare !in tree.Contents())
    {
      hide Good;
      hide Ordered;
      hide Aligned;
      hide AreaOk;
      hide Cut;
      hide ListOf;
      ghost var c := tree.Contents();
      GoodFacts(vma, c, k, s, e);
      ghost var list, pieces := ListOf(vma, c), Cut(vma[node], s, e);
      var a := vma[node];
      CutIs(a, s, e);
      var from := if a.start > s then a.start else s;
      var to := if a.end < e then a.end else e;
      used := false;
      if from <= a.start && to >= a.end {
        DropNode(node, k);
        Nothing(list, k);
        GoodAgain(vma, tree.Contents(), list, k, pieces);
      } else if from <= a.start {
        EditedAt(vma, c, k, a.(start := to));
        vma := vma[node := a.(start := to)];
        GoodAgain(vma, c, list, k, pieces);
      } else if to >= a.end {
        EditedAt(vma, c, k, a.(end := from));
        vma := vma[node := a.(end := from)];
        GoodAgain(vma, c, list, k, pieces);
      } else {
        if spare == NIL {
          return;
        }
        SplitNode(node, from, to, spare, k);
        used := true;
      }
    }

    method DropNode(node: Node, ghost k: nat)
      requires tree.Valid() && Good(vma, tree.Contents()) && k < |tree.Contents()| && tree.Contents()[k] == node
      modifies tree
      ensures tree.Valid() && Known(vma, tree.Contents()) && k <= |tree.Contents()|
      ensures List() == old(List())[..k] + old(List())[k + 1..] && tree.Contents()[k..] == old(tree.Contents())[k + 1..]
      ensures forall n :: n in tree.Contents() ==> n in old(tree.Contents())
    {
      hide Ordered;
      ghost var c := tree.Contents();
      ghost var l, r := tree.Remove(node);
      RemovedAt(vma, c, k, l, r);
      RestAfterRemove(c, k);
    }

    method SplitNode(node: Node, s: nat, e: nat, spare: Node, ghost k: nat)
      requires tree.Valid() && Good(vma, tree.Contents()) && k < |tree.Contents()| && tree.Contents()[k] == node
      requires spare != NIL && spare !in tree.Contents()
      requires Aligned(s) && Aligned(e) && node in vma && Splits(vma[node], s, e)
      modifies this`vma, tree
      ensures tree.Valid() && Good(vma, tree.Contents())
      ensures var a := old(vma)[node]; var c := old(tree.Contents()); var list := ListOf(old(vma), c);
              List() == list[..k] + Cut(a, s, e) + list[k + 1..] &&
              k + 2 <= |tree.Contents()| && tree.Contents()[k + 2..] == c[k + 1..]
    {
      hide Good;
      hide Ordered;
      hide Aligned;
      hide AreaOk;
      hide Cut;
      hide Starts;
      hide AllLe;
      hide AllGt;
      hide Sorted;
      ghost var c := tree.Contents();
      GoodFacts(vma, c, k, s, e);
      ghost var list, pieces := ListOf(vma, c), Cut(vma[node], s, e);
      CutIs(vma[node], s, e);
      NextStart(vma, c, k);
      SplitList(vma, c, k, spare, s, e);
      var tail := vma[node].(start := e);
      SpliceTwo(list, k, vma[node].(end := s), tail);
      vma := vma[spare := tail];
      vma := vma[node := vma[node].(end := s)];
      GoodSorted(vma, c);
      StartsHas(vma, spare);
      ghost var j := tree.Insert(spare, Starts(vma));
      SplitPlace(vma, c, spare, j, k);
      InsertedAt(vma, c, k + 1, spare);
      GoodAgain(vma, tree.Contents(), list, k, pieces);
      RestAfterInsert(c, k, spare);
    }

    /** One area of the traversal: its pages in the range are unmapped and the range is cut out of it. */
    method RemoveFrom(node: Node, s: nat, e: nat, spare: Node, ghost list: seq<Area>, ghost mapped0: set<nat>,
                      ghost i: nat, ghost k: nat)
      returns (ghost k': nat, ghost used: bool)
      requires tree.Valid() && Good(vma, tree.Contents()) && Known(vma, tree.Contents()) && Ordered(list)
      requires Half(list, List(), s, e, i, k, false) && mapped == Left(mapped0, list, s, e, i) && PagesOk(mapped0, list)
      requires i < |list| && k < |tree.Contents()| && tree.Contents()[k] == node && node in vma &&
               vma[node] == list[i] && AreaOk(list[i])
      requires Aligned(s) && Aligned(e) && s < e && list[i].start < e && (spare != NIL ==> spare !in tree.Contents())
      modifies this`vma, this`mapped, tree
      ensures tree.Valid() && Good(vma, tree.Contents()) && Known(vma, tree.Contents()) && NIL !in tree.Contents()
      ensures mapped == Left(mapped0, list, s, e, i + 1) && used == (Splits(list[i], s, e) && spare != NIL)
      ensures Half(list, List(), s, e, i + 1, k', spare == NIL && Splits(list[i], s, e))
      ensures k' <= |tree.Contents()| && tree.Contents()[k'..] == old(tree.Contents())[k + 1..]
      ensures !used && spare != NIL ==> spare !in tree.Contents()
    {
      hide Good;
      hide Ordered;
      hide Aligned;
      hide Half;
      hide Cut;
      hide CutAll;
      hide LeafTable.Swept;
      hide Left;
      hide PagesOk;
      hide Splits;
      hide ListOf;
      ghost var cur := List();
      var a := vma[node];
      CurSize(vma, tree.Contents());
      if a.end > s {
        var from := if a.start > s then a.start else s;
        var to := if a.end < e then a.end else e;
        AreaEnds(a);
        LeftNext(mapped0, list, s, e, i, from, to);
        UnmapPages(from, to);
        used := CutNode(node, s, e, spare, k);
        GoodKnown(vma, tree.Contents());
        HalfStep(list, cur, List(), s, e, i, k, spare == NIL);
        k' := if spare == NIL && Splits(a, s, e) then k + 1 else k + |Cut(a, s, e)|;
      } else {
        LeftSame(mapped0, list, s, e, i);
        HalfKeep(list, cur, s, e, i, k);
        k', used := k + 1, false;
      }
      tree.NoNil();
    }

    /** Traverses the areas and takes the page-aligned range from `s` to `e` out of each. */
    method RemovePages(s: nat, e: nat, spare: Node)
      requires Valid() && Aligned(s) && Aligned(e) && (e == 0 || s < e) && (spare != NIL ==> spare !in tree.Contents())
      modifies this, tree
      ensures Valid() && mapped == LeafTable.Swept(old(mapped), s / PAGE, e / PAGE)
      ensures List() ==
              if spare == NIL && SplitNeeded(old(List()), s, e) then old(List()) else CutAll(old(List()), s, e)
    {
      hide Good;
      hide Ordered;
      hide Aligned;
      hide Half;
      hide Cut;
      hide CutAll;
      hide LeafTable.Swept;
      hide Left;
      hide PagesOk;
      hide Splits;
      hide SplitNeeded;
      hide SplitSeen;
      hide AreaOk;
      hide Known;
      hide ListOf;
      RemoveStart(vma, tree.Contents(), mapped, s, e);
      ghost var list := List();
      ghost var i: nat, k: nat := 0, 0;
      ghost var stuck, used := false, false;
      tree.NoNil();
      var node := tree.First();
      while node != NIL
        invariant tree.Valid() && Good(vma, tree.Contents()) && Known(vma, tree.Contents())
        invariant i <= |list| && Half(list, List(), s, e, i, k, stuck) && mapped == Left(old(mapped), list, s, e, i)
        invariant k <= |tree.Contents()| && |tree.Contents()| - k == |list| - i && NIL !in tree.Contents()
        invariant node == if i < |list| then tree.Contents()[k] else NIL
        invariant (used || stuck) && i < |list| ==> list[i].start >= e
        invariant !used && spare != NIL ==> spare !in tree.Contents()
        invariant stuck == (spare == NIL && SplitSeen(list, s, e, i)) && (s < e || i == 0)
        decreases |list| - i
      {
        var next;
        ghost var at;
        assert tree.Contents()[k] in tree.Contents();
        next, at := tree.Next(node);
        Unique(vma, tree.Contents(), at, k);
        StepFacts(vma, tree.Contents(), list, s, e, i, k, stuck);
        if vma[node].start >= e {
          break;
        }
        SplitOnce(list, s, e, i);
        k, used := RemoveFrom(node, s, e, spare, list, old(mapped), i, k);
        stuck := spare == NIL && Splits(list[i], s, e);
        i := i + 1;
        node := next;
      }
      RemoveDone(old(mapped), vma, tree.Contents(), mapped, list, s, e, i, k, stuck, spare == NIL);
    }

    /**
      * Removes a range: exactly the pages it touches leave the areas, with attributes kept elsewhere, and none
      * of them stays mapped; no other page is lost exactly when no leaf table passes a crowded size.  Only when
      * the range lies strictly inside one area and no memory is left for the second half do the areas stay as
      * they were.  A range that ends in the last page of the address space rounds up to 0 and removes nothing.
      */
    method RemoveRange(start: nat, end: nat, spare: Node) returns (ok: bool)
      requires Valid() && start < U64 && end < U64 && (spare != NIL ==> spare !in tree.Contents())
      modifies this, tree
      ensures Valid() && ok == (start < end)
      ensures ok ==> mapped == LeafTable.Swept(old(mapped), Down(start) / PAGE, Up(end) / PAGE)
      ensures ok ==> var s, e := Down(start), Up(end);
                     if spare == NIL && SplitNeeded(old(List()), s, e) then List() == old(List())
                     else List() == CutAll(old(List()), s, e)
      ensures !ok || end > U64 - PAGE ==> List() == old(List()) && mapped == old(mapped)
      ensures ok && end <= U64 - PAGE ==> forall p <- mapped :: p in old(mapped) && !Touched(start, end, p)
      ensures ok && end <= U64 - PAGE ==>
              ((forall p <- old(mapped) :: p in mapped || Touched(start, end, p)) <==>
               LeafTable.Safe(old(mapped), start / PAGE, (end - 1) / PAGE + 1))
      ensures ok && end <= U64 - PAGE && LeafTable.Sparse(old(mapped)) ==>
              forall p :: p in mapped <==> p in old(mapped) && !Touched(start, end, p)
      ensures ok && end <= U64 - PAGE && spare == NIL && Inner(old(List()), start, end) ==> List() == old(List())
      ensures ok && end <= U64 - PAGE && (spare != NIL || !Inner(old(List()), start, end)) ==>
              forall x: nat, f: nat, k: nat ::
                Covers(List(), x, f, k) <==> Covers(old(List()), x, f, k) && !Touched(start, end, x / PAGE)
    {
      hide Good;
      hide Ordered;
      hide Aligned;
      hide CutAll;
      hide LeafTable.Swept;
      hide PagesOk;
      hide SplitNeeded;
      hide ListOf;
      hide Up;
      hide Down;
      hide LeafTable.Safe;
      hide LeafTable.Sparse;
      hide Covers;
      hide Touched;
      hide Inner;
      GoodKnown(vma, tree.Contents());
      if end <= start {
        return false;
      }
      ok := true;
      Rounded(start, end);
      RangePages(mapped, start, end);
      RangeAreas(List(), start, end);
      RemovePages(Down(start), Up(end), spare);
    }

    /** The area holding an address, if any. */
    method Find(x: nat) returns (r: Node)
      requires Valid()
      ensures r != NIL ==> r in tree.Contents() && r in vma && Holds(vma[r], x)
      ensures r == NIL ==> !VmaList.Covered(List(), x)
    {
      hide Good;
      hide PagesOk;
      hide ListOf;
      hide VmaList.Covered;
      GoodSorted(vma, tree.Contents());
      GoodKnown(vma, tree.Contents());
      tree.NoNil();
      ghost var k;
      r, k := tree.FindKeyLe(x, Starts(vma));
      FindAt(vma, tree.Contents(), k, x);
      if r == NIL {
        return;
      }
      if x < vma[r].end {
        return;
      }
      r := NIL;
    }

    /** Backs a touched page of an area; `memory` says whether a frame and the tables for it can be had. */
    method MapPage(x: nat, memory: bool) returns (ok: bool)
      requires Valid()
      modifies this`mapped
      ensures Valid() && ok == (VmaList.Covered(List(), x) && memory && x / PAGE !in old(mapped))
      ensures mapped == old(mapped) + if ok then {x / PAGE} else {}
    {
      hide Good;
      hide ListOf;
      hide Ordered;
      GoodKnown(vma, tree.Contents());
      var node := Find(x);
      if node == NIL {
        return false;
      }
      PageCovered(vma, tree.Contents(), node, x);
      if !memory || x / PAGE in mapped {
        return false;
      }
      mapped := mapped + {x / PAGE};
      ok := true;
    }

    /** Adds an area that overlaps none. */
    method Add(start: nat, end: nat, flags: nat, kind: nat, z: Node) returns (ok: bool)
      requires Valid() && end <= U64 - PAGE && (z != NIL ==> z !in tree.Contents())
      requires start < end ==>
               forall i: nat | i < |List()| :: List()[i].end <= Down(start) || Up(end) <= List()[i].start
      modifies this`vma, tree
      ensures Valid() && ok == (start < end && z != NIL)
      ensures !ok ==> List() == old(List())
      ensures ok ==> exists k: nat :: k <= |old(List())| &&
                       List() == old(List())[..k] + [Area(Down(start), Up(end), flags, kind, 0)] + old(List())[k..]
      ensures ok ==> forall x: nat, f: nat, k: nat ::
                Covers(List(), x, f, k) <==>
                Covers(old(List()), x, f, k) || (Touched(start, end, x / PAGE) && f == flags && k == kind)
    {
      hide Good;
      hide PagesOk;
      hide ListOf;
      hide Ordered;
      hide Sorted;
      hide AllLe;
      hide AllGt;
      hide Covers;
      hide Touched;
      hide Down;
      hide Up;
      GoodKnown(vma, tree.Contents());
      if end <= start || z == NIL {
        return false;
      }
      var a := Area(Down(start), Up(end), flags, kind, 0);
      ghost var c, list := tree.Contents(), List();
      RoundedArea(start, end, flags, kind);
      AddedAside(vma, c, z, a);
      AsideGood(vma, c, z, a);
      vma := vma[z := a];
      GoodSorted(vma, c);
      StartsHas(vma, z);
      ghost var k := tree.Insert(z, Starts(vma));
      InsertedAt(vma, c, k, z);
      AddGood(vma, c, k, z, list);
      AddPages(mapped, list, k, a);
      AddCovers(list, k, start, end, flags, kind);
      ok := true;
    }

    /** Whether the hinted address starts a gap of the given length. */
    method TryHint(h: nat, len: nat) returns (free: bool)
      requires Valid() && len > 0
      ensures free == Free(List(), h, len)
    {
      hide Good;
      hide PagesOk;
      hide ListOf;
      hide Free;
      hide AllLe;
      hide AllGt;
      hide Sorted;
      hide Ordered;
      GoodSorted(vma, tree.Contents());
      GoodKnown(vma, tree.Contents());
      tree.NoNil();
      var node;
      ghost var k: nat, j: nat;
      node, k := tree.FindKeyLe(h, Starts(vma));
      HintAt(vma, tree.Contents(), k, h, len);
      if node == NIL {
        node := tree.First();
      } else {
        assert tree.Contents()[k - 1] in tree.Contents();
        if vma[node].end <= h {
          ghost var at;
          node, at := tree.Next(node);
          Unique(vma, tree.Contents(), at, k - 1);
        }
      }
      free := node == NIL || vma[node].start >= h + len;
    }

    /**
      * A gap for `len` bytes between `base` and `limit`: the hinted one if it is free, else the lowest, else 0.
      * With `base` 0 a result of 0 may also be a gap at address 0.
      */
    method FindFreeArea(base: nat, limit: nat, hint: nat, len: nat) returns (r: nat)
      requires Valid() && limit <= U64 - PAGE
      ensures len == 0 ==> r == 0
      ensures len > 0 ==>
              if HintOk(List(), base, limit, hint, len) then r == Up(hint) else Lowest(List(), base, limit, len, r)
      ensures len > 0 && HintOk(List(), base, limit, hint, len) ==> hint <= r < hint + PAGE && Aligned(r)
      ensures Aligned(base) ==> Aligned(r)
    {
      hide Aligned;
      hide Good;
      hide PagesOk;
      hide ListOf;
      hide Free;
      hide AllLe;
      hide AllGt;
      hide Sorted;
      hide Lowest;
      hide Up;
      GoodKnown(vma, tree.Contents());
      if hint < limit {
        UpIs(hint);
      }
      UpAligned(hint);
      if len == 0 {
        return 0;
      }
      if hint >= base && hint < limit {
        var h := Up(hint);
        if h < limit && len <= limit - h {
          var free := TryHint(h, len);
          if free {
            return h;
          }
        }
      }
      r := FirstGap(base, limit, len);
    }

    /** The node and the address from which the search goes on upwards. */
    method ScanFrom(base: nat, len: nat) returns (node: Node, candidate: nat, ghost k: nat)
      requires Valid() && len > 0
      ensures k <= |tree.Contents()| && node == (if k < |tree.Contents()| then tree.Contents()[k] else NIL)
      ensures Scanned(List(), base, candidate, len, k) && (Aligned(base) ==> Aligned(candidate))
    {
      hide Good;
      hide PagesOk;
      hide ListOf;
      hide Free;
      hide AllLe;
      hide AllGt;
      hide Sorted;
      hide Lowest;
      hide Up;
      hide Scanned;
      hide Ordered;
      hide Aligned;
      hide Starts;
      GoodSorted(vma, tree.Contents());
      GoodKnown(vma, tree.Contents());
      tree.NoNil();
      candidate := base;
      node, k := tree.FindKeyLe(base, Starts(vma));
      ScanStart(vma, tree.Contents(), k, base, len);
      if node == NIL {
        node := tree.First();
      } else {
        assert tree.Contents()[k - 1] in tree.Contents();
        if vma[node].end > candidate {
          UpAligned(vma[node].end);
          candidate := Up(vma[node].end);
        }
        ghost var at;
        node, at := tree.Next(node);
        Unique(vma, tree.Contents(), at, k - 1);
      }
    }

    method FirstGap(base: nat, limit: nat, len: nat) returns (r: nat)
      requires Valid() && len > 0 && limit <= U64 - PAGE
      ensures Lowest(List(), base, limit, len, r)
      ensures Aligned(base) ==> Aligned(r)
    {
      hide Good;
      hide PagesOk;
      hide ListOf;
      hide Free;
      hide AllLe;
      hide AllGt;
      hide Sorted;
      hide Lowest;
      hide Up;
      hide Scanned;
      hide Ordered;
      hide Aligned;
      hide Starts;
      GoodKnown(vma, tree.Contents());
      tree.NoNil();
      UpAligned(base);
      var candidate: nat;
      var node: Node;
      ghost var k: nat;
      node, candidate, k := ScanFrom(base, len);
      while node != NIL
        invariant k <= |tree.Contents()| && node == (if k < |tree.Contents()| then tree.Contents()[k] else NIL)
        invariant Scanned(List(), base, candidate, len, k) && (Aligned(base) ==> Aligned(candidate))
        decreases |tree.Contents()| - k
      {
        ScanStep(vma, tree.Contents(), base, candidate, len, k);
        if vma[node].start >= candidate && vma[node].start - candidate >= len {
          break;
        }
        UpAligned(vma[node].end);
        candidate := Up(vma[node].end);
        assert tree.Contents()[k] in tree.Contents();
        ghost var at;
        node, at := tree.Next(node);
        Unique(vma, tree.Contents(), at, k);
        k := k + 1;
      }
      CurSize(vma, tree.Contents());
      ScanEnd(List(), base, limit, candidate, len, k);
      if candidate < base || candidate >= limit || len > limit - candidate {
        return 0;
      }
      r := candidate;
    }
  }

  /** An area that holds an address holds the start of its page. */
  lemma PageCovered(vma: Areas, c: seq<Node>, n: Node, x: nat)
    requires Good(vma, c) && n in c && n in vma && Holds(vma[n], x)
    ensures Known(vma, c) && VmaList.Covered(ListOf(vma, c), x) && VmaList.Covered(ListOf(vma, c), x / PAGE * PAGE)
  {
    var list := ListOf(vma, c);
    var i: nat :| i < |c| && c[i] == n;
    assert list[i] == vma[n] && AreaOk(list[i]) && list[i] in list;
    PageStart(list[i].start, x);
  }

  lemma PageStart(a: nat, x: nat)
    requires Aligned(a) && a <= x
    ensures a <= x / PAGE * PAGE <= x
  {
  }

  /** The `len` bytes from `x` meet no area. */
  predicate Free(list: seq<Area>, x: nat, len: nat) {
    forall i: nat | i < |list| :: list[i].end <= x || x + len <= list[i].start
  }

  predicate Gap(list: seq<Area>, base: nat, limit: nat, len: nat, x: nat) {
    base <= x < limit && x + len <= limit && Free(list, x, len)
  }

  /** The lowest gap, or 0 when there is none. */
  ghost predicate Lowest(list: seq<Area>, base: nat, limit: nat, len: nat, r: nat) {
    if exists x: nat :: Gap(list, base, limit, len, x)
    then Gap(list, base, limit, len, r) && forall x: nat :: Gap(list, base, limit, len, x) ==> r <= x
    else r == 0
  }

  predicate HintOk(list: seq<Area>, base: nat, limit: nat, hint: nat, len: nat) {
    base <= hint < limit && Up(hint) < limit && Up(hint) + len <= limit && Free(list, Up(hint), len)
  }

  /** A nonzero answer is always a gap, and 0 means none exists exactly when `base` is not itself a free 0. */
  lemma ZeroMeansNone(list: seq<Area>, base: nat, limit: nat, len: nat, r: nat)
    requires Lowest(list, base, limit, len, r)
    ensures r != 0 ==> Gap(list, base, limit, len, r)
    ensures (r == 0 <==> forall x: nat :: !Gap(list, base, limit, len, x)) <==> !Gap(list, base, limit, len, 0)
  {
  }

  /** The first `k` areas end by `c`, the next begins there or later, and no address from `base` below `c` will do. */
  ghost predicate Scanned(list: seq<Area>, base: nat, c: nat, len: nat, k: nat) {
    k <= |list| && base <= c && (forall i: nat | i < k :: list[i].end <= c) && (k < |list| ==> c <= list[k].start) &&
    forall x: nat | base <= x < c :: !Free(list, x, len)
  }

  lemma HintAt(vma: Areas, c: seq<Node>, k: nat, h: nat, len: nat)
    requires Good(vma, c) && k <= |c| && AllLe(Starts(vma), c[..k], h) && AllGt(Starts(vma), c[k..], h) && len > 0
    ensures Known(vma, c) && |ListOf(vma, c)| == |c|
    ensures k > 0 && vma[c[k - 1]].end > h ==> vma[c[k - 1]].start < h + len && !Free(ListOf(vma, c), h, len)
    ensures k == 0 || vma[c[k - 1]].end <= h ==>
            (Free(ListOf(vma, c), h, len) <==> k == |c| || vma[c[k]].start >= h + len)
  {
    hide Aligned;
    hide AllLe;
    hide AllGt;
    LeAt(Starts(vma), c, k, h);
    GtAt(Starts(vma), c, k, h);
    var list := ListOf(vma, c);
    if k > 0 && vma[c[k - 1]].end > h {
      assert list[k - 1] == vma[c[k - 1]];
    } else {
      forall i: nat | i < k ensures list[i].end <= h {
        if i < k - 1 {
          assert list[i].end <= list[k - 1].start && list[k - 1] == vma[c[k - 1]];
        }
      }
      if k < |c| {
        assert list[k] == vma[c[k]];
        forall i: nat | k < i < |c| ensures list[i].start > list[k].start {
          assert list[k].end <= list[i].start && AreaOk(list[k]);
        }
        assert Free(list, h, len) ==> list[k].end <= h || h + len <= list[k].start;
        assert AreaOk(list[k]);
      }
    }
  }

  lemma ScanStart(vma: Areas, c: seq<Node>, k: nat, base: nat, len: nat)
    requires Good(vma, c) && k <= |c| && AllLe(Starts(vma), c[..k], base) && AllGt(Starts(vma), c[k..], base) && len > 0
    ensures Known(vma, c) && |ListOf(vma, c)| == |c|
    ensures var list := ListOf(vma, c);
            var start := if k > 0 && vma[c[k - 1]].end > base then Up(vma[c[k - 1]].end) else base;
            Scanned(list, base, start, len, k)
  {
    hide AllLe;
    hide AllGt;
    LeAt(Starts(vma), c, k, base);
    GtAt(Starts(vma), c, k, base);
    var list := ListOf(vma, c);
    hide Aligned;
    if k > 0 {
      assert list[k - 1] == vma[c[k - 1]] && AreaOk(list[k - 1]);
      UpSame(list[k - 1]);
      assert k < |c| ==> list[k - 1].end <= list[k].start;
    }
    forall i: nat | i + 1 < k ensures list[i].end <= base {
      assert list[i].end <= list[k - 1].start;
    }
  }

  lemma UpSame(a: Area)
    requires AreaOk(a)
    ensures Up(a.end) == a.end
  {
  }

  lemma ScanStep(vma: Areas, c: seq<Node>, base: nat, x: nat, len: nat, k: nat)
    requires Good(vma, c) && k < |c| && Scanned(ListOf(vma, c), base, x, len, k) && len > 0
    ensures Known(vma, c) && ListOf(vma, c)[k] == vma[c[k]] && x <= vma[c[k]].start
    ensures vma[c[k]].start - x < len ==> Scanned(ListOf(vma, c), base, Up(vma[c[k]].end), len, k + 1)
  {
    hide Aligned;
    var list := ListOf(vma, c);
    var a := vma[c[k]];
    assert list[k] == a && AreaOk(a);
    UpSame(a);
    hide Up;
    assert k + 1 < |c| ==> list[k].end <= list[k + 1].start;
    if a.start - x < len {
      forall y: nat | x <= y < a.end ensures !Free(list, y, len) {
        assert !(list[k].end <= y) && !(y + len <= list[k].start);
      }
    }
  }

  lemma ScanEnd(list: seq<Area>, base: nat, limit: nat, x: nat, len: nat, k: nat)
    requires Ordered(list) && Scanned(list, base, x, len, k) && (k < |list| ==> list[k].start - x >= len) && len > 0
    ensures base <= x && Lowest(list, base, limit, len, if x >= limit || x + len > limit then 0 else x)
  {
    hide Aligned;
    assert Free(list, x, len) by {
      forall i: nat | k < i < |list| ensures list[i].start >= list[k].start {
        assert list[k].end <= list[i].start && AreaOk(list[k]);
      }
    }
    hide Free;
    if x < limit && x + len <= limit {
      assert Gap(list, base, limit, len, x);
    }
  }

  lemma CutIs(a: Area, s: nat, e: nat)
    requires a.start < e && a.end > s && s < e && a.start < a.end
    ensures s <= a.start && e >= a.end ==> Cut(a, s, e) == []
    ensures s <= a.start && e < a.end ==> Cut(a, s, e) == [a.(start := e)]
    ensures s > a.start && e >= a.end ==> Cut(a, s, e) == [a.(end := s)]
    ensures Splits(a, s, e) ==> Cut(a, s, e) == [a.(end := s), a.(start := e)]
  {
  }

  lemma SpliceTwo(list: seq<Area>, k: nat, x: Area, y: Area)
    requires k < |list|
    ensures list[k := x][..k + 1] + [y] + list[k := x][k + 1..] == list[..k] + [x, y] + list[k + 1..]
  {
  }

  lemma Nothing(list: seq<Area>, k: nat)
    requires k < |list|
    ensures list[..k] + list[k + 1..] == list[..k] + [] + list[k + 1..]
  {
  }

  lemma RestAfterRemove(c: seq<Node>, k: nat)
    requires k < |c|
    ensures (c[..k] + c[k + 1..])[k..] == c[k + 1..] && forall n :: n in c[..k] + c[k + 1..] ==> n in c
  {
  }

  lemma RestAfterInsert(c: seq<Node>, k: nat, z: Node)
    requires k < |c|
    ensures (c[..k + 1] + [z] + c[k + 1..])[k + 2..] == c[k + 1..]
  {
  }

  lemma StartsHas(vma: Areas, z: Node)
    requires z in vma
    ensures z in Starts(vma) && Starts(vma)[z] == vma[z].start
  {
  }

  lemma NextStart(vma: Areas, c: seq<Node>, k: nat)
    requires Good(vma, c) && k < |c|
    ensures k + 1 < |c| ==> vma[c[k]].end <= vma[c[k + 1]].start
  {
    assert k + 1 < |c| ==> ListOf(vma, c)[k].end <= ListOf(vma, c)[k + 1].start;
  }

  lemma GoodFacts(vma: Areas, c: seq<Node>, k: nat, s: nat, e: nat)
    requires Good(vma, c) && k < |c| && Aligned(s) && Aligned(e)
    ensures Known(vma, c) && ListOf(vma, c)[k] == vma[c[k]] && Ordered(ListOf(vma, c)) && AreaOk(vma[c[k]])
    ensures vma[c[k]].start < vma[c[k]].end && Ordered(Cut(vma[c[k]], s, e))
    ensures forall b <- Cut(vma[c[k]], s, e) :: vma[c[k]].start <= b.start && b.end <= vma[c[k]].end
  {
    assert ListOf(vma, c)[k] == vma[c[k]];
    CutOne(vma[c[k]], s, e);
  }

  lemma GoodAgain(vma: Areas, c: seq<Node>, list: seq<Area>, k: nat, pieces: seq<Area>)
    requires Ordered(list) && k < |list| && Ordered(pieces)
    requires forall b <- pieces :: list[k].start <= b.start && b.end <= list[k].end
    requires Known(vma, c) &&
             (ListOf(vma, c) == list[..k] + pieces + list[k + 1..] ||
              (|pieces| == 1 && ListOf(vma, c) == list[k := pieces[0]]))
    ensures Good(vma, c) && ListOf(vma, c) == list[..k] + pieces + list[k + 1..]
  {
    hide Ordered;
    ReplaceOrdered(list, k, pieces);
    if |pieces| == 1 {
      assert list[..k] + pieces + list[k + 1..] == list[k := pieces[0]];
    }
  }

  /** After the edit of the node and before the insertion of its sibling the list is still in order. */
  lemma SplitList(vma: Areas, c: seq<Node>, k: nat, z: Node, s: nat, e: nat)
    requires Good(vma, c) && k < |c| && z !in c && Splits(vma[c[k]], s, e) && Aligned(s) && Aligned(e)
    ensures var a := vma[c[k]]; var vma' := vma[z := a.(start := e)][c[k] := a.(end := s)];
            Good(vma', c) && ListOf(vma', c) == ListOf(vma, c)[k := a.(end := s)]
  {
    hide Ordered;
    hide Aligned;
    GoodFacts(vma, c, k, s, e);
    var a := vma[c[k]];
    var vma1 := vma[z := a.(start := e)];
    AddedAside(vma, c, z, a.(start := e));
    assert Good(vma1, c);
    EditedAt(vma1, c, k, a.(end := s));
    LeftPiece(a, s);
    GoodAgain(vma1[c[k] := a.(end := s)], c, ListOf(vma, c), k, [a.(end := s)]);
  }

  lemma LeftPiece(a: Area, s: nat)
    requires AreaOk(a) && a.start < s < a.end && Aligned(s)
    ensures Ordered([a.(end := s)])
  {
  }

  lemma SplitPlace(vma: Areas, c: seq<Node>, z: Node, j: nat, k: nat)
    requires Good(vma, c) && z in vma && j <= |c| && k < |c|
    requires AllLe(Starts(vma), c[..j], vma[z].start) && AllGt(Starts(vma), c[j..], vma[z].start)
    requires vma[c[k]].end < vma[z].start && (k + 1 < |c| ==> vma[z].start < vma[c[k + 1]].start)
    ensures j == k + 1
  {
    hide Aligned;
    assert AreaOk(ListOf(vma, c)[k]);
    Position(vma, c, z, j, k + 1);
  }

  lemma HalfStep(list: seq<Area>, cur: seq<Area>, cur': seq<Area>, s: nat, e: nat, i: nat, k: nat, poor: bool)
    requires Half(list, cur, s, e, i, k, false) && Ordered(list) && i < |list| && k < |cur|
    requires if Splits(list[i], s, e) && poor then cur' == cur else cur' == cur[..k] + Cut(list[i], s, e) + cur[k + 1..]
    ensures if Splits(list[i], s, e) && poor then Half(list, cur', s, e, i + 1, k + 1, true)
            else Half(list, cur', s, e, i + 1, k + |Cut(list[i], s, e)|, false)
  {
    hide Cut;
    hide CutAll;
    if Splits(list[i], s, e) && poor {
      SplitOnce(list, s, e, i);
      HalfAt(list, cur, s, e, i, k, false);
      BeforeSplit(list, s, e, i);
      assert list[..i] + list[i..] == list;
    } else {
      HalfNext(list, cur, s, e, i, k, Cut(list[i], s, e));
    }
  }

  lemma BeforeSplit(list: seq<Area>, s: nat, e: nat, i: nat)
    requires Ordered(list) && i < |list| && Splits(list[i], s, e)
    ensures CutAll(list[..i], s, e) == list[..i]
  {
    hide CutAll;
    assert i > 0 ==> list[i - 1].end <= list[i].start;
    CutBefore(list[..i], s, e);
  }

  lemma RemoveDone(mapped0: set<nat>, vma: Areas, c: seq<Node>, mapped: set<nat>, list: seq<Area>, s: nat, e: nat,
                   i: nat, k: nat, stuck: bool, poor: bool)
    requires Good(vma, c) && Ordered(list) && Half(list, ListOf(vma, c), s, e, i, k, stuck) && PagesOk(mapped0, list)
    requires mapped == Left(mapped0, list, s, e, i) && i <= |list| && (i < |list| ==> list[i].start >= e)
    requires stuck == (poor && SplitSeen(list, s, e, i)) && Aligned(s) && Aligned(e) && (s < e || i == 0)
    ensures mapped == LeafTable.Swept(mapped0, s / PAGE, e / PAGE) && PagesOk(mapped, ListOf(vma, c))
    ensures ListOf(vma, c) == if poor && SplitNeeded(list, s, e) then list else CutAll(list, s, e)
  {
    hide Aligned;
    hide CutAll;
    hide LeafTable.Swept;
    hide VmaList.Covered;
    var cur := ListOf(vma, c);
    SeenAll(list, s, e, i);
    if !stuck {
      CutRest(list, s, e, i);
    }
    LeftDone(mapped0, list, s, e, i);
    LeafTable.SweptWithin(mapped0, s / PAGE, e / PAGE);
    forall p <- mapped ensures VmaList.Covered(cur, p * PAGE) {
      PageBelow(p, s);
      PageBelow(p, e);
      StillCovered(list, cur, s, e, p * PAGE);
    }
  }

  lemma SeenAll(list: seq<Area>, s: nat, e: nat, i: nat)
    requires Ordered(list) && i <= |list| && (i < |list| ==> list[i].start >= e)
    ensures SplitSeen(list, s, e, i) <==> SplitNeeded(list, s, e)
  {
    hide Aligned;
    if SplitNeeded(list, s, e) {
      var j: nat :| j < |list| && Splits(list[j], s, e);
      if i < |list| {
        StartsRise(list);
      }
      assert j < i;
    }
  }

  lemma StillCovered(list: seq<Area>, cur: seq<Area>, s: nat, e: nat, p: nat)
    requires Ordered(list) && Aligned(s) && Aligned(e) && (cur == list || cur == CutAll(list, s, e))
    requires VmaList.Covered(list, p) && !(s <= p < e)
    ensures VmaList.Covered(cur, p)
  {
    hide CutAll;
    var a :| a in list && Holds(a, p);
    if cur != list {
      assert Covers(list, p, a.flags, a.kind);
      CutExact(list, s, e, p, a.flags, a.kind);
      var b :| b in cur && Holds(b, p) && b.flags == a.flags && b.kind == a.kind;
    }
  }

  lemma FindAt(vma: Areas, c: seq<Node>, k: nat, x: nat)
    requires Good(vma, c) && k <= |c| && AllLe(Starts(vma), c[..k], x) && AllGt(Starts(vma), c[k..], x)
    ensures k > 0 ==>
            c[k - 1] in vma && vma[c[k - 1]].start <= x &&
            (x >= vma[c[k - 1]].end ==> !VmaList.Covered(ListOf(vma, c), x))
    ensures k == 0 ==> !VmaList.Covered(ListOf(vma, c), x)
  {
    hide Aligned;
    hide AllLe;
    hide AllGt;
    LeAt(Starts(vma), c, k, x);
    GtAt(Starts(vma), c, k, x);
    var list := ListOf(vma, c);
    forall j: nat | j < |c| && (k == 0 || x >= vma[c[k - 1]].end) ensures !Holds(list[j], x) {
      if j < k - 1 {
        assert list[j].end <= list[k - 1].start && AreaOk(list[k - 1]);
      }
    }
  }

  lemma RoundedArea(start: nat, end: nat, flags: nat, kind: nat)
    requires start < end <= U64 - PAGE
    ensures AreaOk(Area(Down(start), Up(end), flags, kind, 0))
  {
  }

  lemma AsideGood(vma: Areas, c: seq<Node>, z: Node, a: Area)
    requires Good(vma, c) && z !in c
    ensures Good(vma[z := a], c)
  {
    hide Ordered;
    AddedAside(vma, c, z, a);
  }

  lemma AddGood(vma: Areas, c: seq<Node>, k: nat, z: Node, list: seq<Area>)
    requires Good(vma, c) && k <= |c| && z in vma && AreaOk(vma[z]) && list == ListOf(vma, c)
    requires AllLe(Starts(vma), c[..k], vma[z].start) && AllGt(Starts(vma), c[k..], vma[z].start)
    requires forall i: nat | i < |list| :: list[i].end <= vma[z].start || vma[z].end <= list[i].start
    ensures Good(vma, c[..k] + [z] + c[k..])
  {
    hide Aligned;
    hide AllLe;
    hide AllGt;
    LeAt(Starts(vma), c, k, vma[z].start);
    GtAt(Starts(vma), c, k, vma[z].start);
    InsertedAt(vma, c, k, z);
    var pre, mid, post := list[..k], [vma[z]], list[k..];
    forall i: nat, j: nat | i < |pre| && j < |mid| ensures pre[i].end <= mid[j].start {
      assert pre[i] == vma[c[i]] && AreaOk(list[i]);
    }
    OrderedJoin(pre, mid);
    forall i: nat, j: nat | i < |pre + mid| && j < |post| ensures (pre + mid)[i].end <= post[j].start {
      assert post[j] == list[k + j] == vma[c[k + j]] && AreaOk(list[k + j]);
      assert i < k ==> list[i].end <= list[k + j].start;
    }
    OrderedJoin(pre + mid, post);
  }

  /** The new area covers the pages its range touches. */
  lemma AddCovers(list: seq<Area>, k: nat, start: nat, end: nat, flags: nat, kind: nat)
    requires k <= |list| && start < end <= U64 - PAGE
    ensures var r := list[..k] + [Area(Down(start), Up(end), flags, kind, 0)] + list[k..];
            forall x: nat, f: nat, d: nat ::
              Covers(r, x, f, d) <==>
              Covers(list, x, f, d) || (Touched(start, end, x / PAGE) && f == flags && d == kind)
  {
    DownIs(start);
    UpIs(end);
    var a := Area(Down(start), Up(end), flags, kind, 0);
    hide Down;
    hide Up;
    hide Touched;
    hide Covers;
    forall x: nat, f: nat, d: nat
      ensures Covers(list[..k] + [a] + list[k..], x, f, d) <==>
              Covers(list, x, f, d) || (Touched(start, end, x / PAGE) && f == flags && d == kind)
    {
      CoversJoin(list[..k] + [a], list[k..], x, f, d);
      CoversJoin(list[..k], [a], x, f, d);
      CoversJoin(list[..k], list[k..], x, f, d);
      assert list[..k] + list[k..] == list;
      OneCovered(a, x, f, d);
      TouchedIs(start, end, x / PAGE);
      PageOf(Down(start), x);
      PageOf(Up(end), x);
    }
  }

  lemma AddPages(mapped: set<nat>, list: seq<Area>, k: nat, a: Area)
    requires PagesOk(mapped, list) && k <= |list|
    ensures PagesOk(mapped, list[..k] + [a] + list[k..])
  {
    forall p <- mapped ensures VmaList.Covered(list[..k] + [a] + list[k..], p * PAGE) {
      var b :| b in list && Holds(b, p * PAGE);
      assert list == list[..k] + list[k..];
    }
  }
}
