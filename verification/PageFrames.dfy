/** The page frame allocator: buddy free lists under per-CPU caches, with reference counts.
    Each method is one public call or one locked helper of it. */
module PageFrames {
  import opened Arithmetic
  import opened Buddy
  import opened Collections

  const BATCH := 8
  const HIGH := 16
  const FREE_N_MAX := 1024
  const REFCOUNT_MAX := 255

  /** How far a block being freed has grown: `f'..f'+n'` holds the freed frames `f..f+n` and
      free frames merged with them, and no other frame has changed kind. */
  predicate Gathered(was: seq<Owner>, own: seq<Owner>, f: nat, n: nat, f': nat, n': nat) {
    |own| == |was| && f' <= f && f + n <= f' + n' && InFlight(own, f', n') &&
    (forall g | f' <= g < f' + n' :: f <= g < f + n || was[g].Block?) &&
    forall g | 0 <= g < |own| && !(f' <= g < f' + n') :: KindOf(own[g]) == KindOf(was[g])
  }

  predicate Mergeable(p: Pool, f: nat, o: nat)
    requires |p.order| == |p.occ|
  {
    var b, total := BuddyOf(f, o), |p.order|;
    0 <= b < total && Merged(f, o) + 2 * Pow2(o) <= total && p.order[b] == o && !p.occ[b]
  }

  /** The test on the page array finds exactly the free buddies. */
  lemma MergeableIff(p: Pool, own: seq<Owner>, f: nat, o: nat)
    requires Inv(p, own) && o < MAX_ORDER && Aligned(f, o) && InFlight(own, f, Pow2(o))
    ensures var b := BuddyOf(f, o); Mergeable(p, f, o) <==> 0 <= b < |own| && own[b] == Block(b, o)
  {
    BuddyFacts(f, o);
    var b := BuddyOf(f, o);
    hide BuddyOf;
    hide Pow2;
    hide Aligned;
    if 0 <= b < |own| {
      assert p.occ[b] <==> own[b].Used?;
      if own[b] == Block(b, o) { assert BlockOk(own, b, o); }
    }
  }

  lemma GatherMore(was: seq<Owner>, own: seq<Owner>, f: nat, n: nat, f': nat, o: nat)
    requires Gathered(was, own, f, n, f', Pow2(o)) && Aligned(f', o) && o < MAX_ORDER
    requires var b := BuddyOf(f', o); 0 <= b && BlockOk(own, b, o)
    ensures BuddyOf(f', o) >= 0 && Merged(f', o) >= 0 && Aligned(Merged(f', o), o + 1)
    ensures Gathered(was, Fill(own, BuddyOf(f', o), Pow2(o), Flight), f, n, Merged(f', o), Pow2(o + 1))
  {
    BuddyFacts(f', o);
    assert Pow2(o + 1) == 2 * Pow2(o);
    hide BuddyOf;
    hide Merged;
    hide Pow2;
    hide Aligned;
    var b := BuddyOf(f', o);
    var own' := Fill(own, b, Pow2(o), Flight);
    forall g | b <= g < b + Pow2(o) ensures was[g].Block? {
      assert own[g] == Block(b, o);
      assert KindOf(own[g]) == KindOf(was[g]);
    }
  }

  lemma GatherDone(was: seq<Owner>, own: seq<Owner>, f: nat, n: nat, f': nat, o: nat)
    requires Gathered(was, own, f, n, f', Pow2(o))
    ensures Becomes(was, Fill(own, f', Pow2(o), Block(f', o)), f, n, Free)
  {
    hide Pow2;
  }

  datatype Option<T> = None | Some(value: T)

  /** The lowest set bit at or above `from`, or the number of bits when there is none. */
  function Lowest(bits: seq<bool>, from: nat): (o: nat)
    requires from <= |bits|
    ensures from <= o <= |bits| && (o < |bits| ==> bits[o]) && forall i | from <= i < o :: !bits[i]
    decreases |bits| - from
  {
    if from == |bits| || bits[from] then from else Lowest(bits, from + 1)
  }

  /** The frames an allocation can be served from. */
  function Available(own: seq<Owner>): set<nat> {
    set g: nat | g < |own| && (own[g].Block? || own[g].Cached?)
  }

  /** The head of a non-empty free list heads a free block. */
  lemma ListHead(p: Pool, own: seq<Owner>, o: nat)
    requires Inv(p, own) && o <= MAX_ORDER && |p.area| == MAX_ORDER + 1 == |p.bits| && p.bits[o]
    ensures p.area[o] != [] && p.area[o][0] < |own| && own[p.area[o][0]] == Block(p.area[o][0], o)
  {
    assert ListOk(p.area[o], own, o);
    assert p.area[o][0] in p.area[o];
  }

  lemma UsedIffOcc(p: Pool, own: seq<Owner>)
    requires Inv(p, own)
    ensures |p.occ| == |own| && forall f | 0 <= f < |own| :: p.occ[f] <==> own[f].Used?
  {
  }

  /** With no bit set there is no free frame. */
  lemma NoBitsNoFree(p: Pool, own: seq<Owner>, from: nat)
    requires Inv(p, own) && |p.bits| == MAX_ORDER + 1 && forall o | from <= o <= MAX_ORDER :: !p.bits[o]
    ensures forall f | 0 <= f < |own| && own[f].Block? :: own[f].order < from
  {
    forall f | 0 <= f < |own| && own[f].Block? ensures own[f].order < from {
      var h, o := own[f].head, own[f].order;
      assert BlockOk(own, h, o);
      assert own[h] == Block(h, o);
      assert ListOk(p.area[o], own, o);
      assert h in p.area[o];
    }
  }

  /** Taking a block, giving back all but its first frame, and caching that frame. */
  lemma RefillStep(own: seq<Owner>, own1: seq<Owner>, own2: seq<Owner>, f: nat, n: nat, c: nat)
    requires n > 0 && f + n <= |own| && (forall g | f <= g < f + n :: own[g].Block?)
    requires own1 == Fill(own, f, n, Flight) && Becomes(own1, own2, f + 1, n - 1, Free)
    ensures Becomes(own, own2[f := Cached(c)], f, 1, InCache(c)) && own2[f] == Flight
  {
    assert KindOf(own2[f]) == KindOf(own1[f]) == Moving;
  }

  lemma RefillSettled(own: seq<Owner>, own': seq<Owner>, f: nat, c: nat)
    requires f < |own| && own[f].Block? && Becomes(own, own', f, 1, InCache(c)) && own'[f] == Cached(c)
    requires forall g | 0 <= g < |own| :: !own[g].Flight?
    ensures Refilled(own, own', c) && forall g | 0 <= g < |own'| :: !own'[g].Flight?
  {
    forall g | 0 <= g < |own'| ensures !own'[g].Flight? {
      assert KindOf(own'[g]) == if g == f then InCache(c) else KindOf(own[g]);
    }
  }

  /** From `own` to `own'` free frames may have moved to the cache of CPU `c`. */
  predicate Refilled(own: seq<Owner>, own': seq<Owner>, c: nat) {
    |own'| == |own| &&
    forall g | 0 <= g < |own| :: KindOf(own'[g]) == KindOf(own[g]) || (KindOf(own[g]) == Free && own'[g] == Cached(c))
  }

  /** One frame, free or cached for CPU `c`, has become allocated; other free frames may have
      moved to that cache. */
  ghost predicate Served(own: seq<Owner>, own': seq<Owner>, f: nat, c: nat) {
    f < |own| == |own'| && (own[f].Block? || own[f] == Cached(c)) && own'[f] == Used &&
    (forall g | 0 <= g < |own| && g != f ::
      KindOf(own'[g]) == KindOf(own[g]) || (own[g].Block? && own'[g] == Cached(c))) &&
    Available(own') == Available(own) - {f}
  }

  lemma ServedBy(own: seq<Owner>, own1: seq<Owner>, f: nat, c: nat)
    requires Refilled(own, own1, c) && f < |own| && own1[f] == Cached(c)
    ensures Served(own, own1[f := Used], f, c)
  {
    var own' := own1[f := Used];
    forall g: nat | g < |own| ensures g in Available(own') <==> g in Available(own) && g != f {
      assert KindOf(own1[g]) == KindOf(own[g]) || (KindOf(own[g]) == Free && own1[g] == Cached(c));
    }
  }

  lemma CacheEmpty(p: Pool, own: seq<Owner>, c: nat)
    requires Inv(p, own) && c < |p.cache| && p.cache[c] == []
    ensures forall f | 0 <= f < |own| :: own[f] != Cached(c)
  {
    assert CacheOk(p.cache[c], own, c);
  }

  /** Frames of no free block changing hands leave the free frames as they are. */
  lemma SameFree(own: seq<Owner>, own': seq<Owner>, f: nat)
    requires f < |own| == |own'| && !own[f].Block? && !own'[f].Block? &&
             forall g | 0 <= g < |own| && g != f :: own'[g] == own[g]
    ensures OfKind(own', Free) == OfKind(own, Free)
  {
  }

  /** From `own` to `own'` frames cached for CPU `c` may have become free. */
  predicate Drained(own: seq<Owner>, own': seq<Owner>, c: nat) {
    |own'| == |own| &&
    forall g | 0 <= g < |own| :: KindOf(own'[g]) == KindOf(own[g]) || (own[g] == Cached(c) && KindOf(own'[g]) == Free)
  }

  /** A cached frame is freed. */
  lemma DrainStep(own: seq<Owner>, own': seq<Owner>, f: nat, c: nat)
    requires f < |own| && own[f] == Cached(c) && Becomes(own[f := Flight], own', f, 1, Free)
    requires forall g | 0 <= g < |own| :: !own[g].Flight?
    ensures Drained(own, own', c) && |OfKind(own', Free)| == |OfKind(own, Free)| + 1
    ensures forall g | 0 <= g < |own'| :: !own'[g].Flight?
  {
    SameFree(own, own[f := Flight], f);
    BecomesCount(own[f := Flight], own', f, 1, Moving, Free);
    forall g | 0 <= g < |own'| ensures !own'[g].Flight? {
      assert KindOf(own'[g]) == if g == f then Free else KindOf(own[f := Flight][g]);
    }
  }

  lemma DrainedTrans(a: seq<Owner>, b: seq<Owner>, d: seq<Owner>, c: nat)
    requires Drained(a, b, c) && Drained(b, d, c)
    ensures Drained(a, d, c)
  {
    forall g | 0 <= g < |a| ensures KindOf(d[g]) == KindOf(a[g]) || (a[g] == Cached(c) && KindOf(d[g]) == Free) {
      assert KindOf(b[g]) == KindOf(a[g]) || (a[g] == Cached(c) && KindOf(b[g]) == Free);
      assert KindOf(d[g]) == KindOf(b[g]) || (b[g] == Cached(c) && KindOf(d[g]) == Free);
    }
  }

  /** Frame `f` has left its allocation: it is now cached for CPU `c` or free, as may be other
      frames of that cache. */
  ghost predicate Returned(own: seq<Owner>, own': seq<Owner>, f: nat, c: nat) {
    f < |own| == |own'| && own[f] == Used && (own'[f] == Cached(c) || own'[f].Block?) &&
    (forall g | 0 <= g < |own| && g != f ::
      KindOf(own'[g]) == KindOf(own[g]) || (own[g] == Cached(c) && own'[g].Block?)) &&
    Available(own') == Available(own) + {f}
  }

  lemma ReturnedBy(own: seq<Owner>, own': seq<Owner>, f: nat, c: nat)
    requires f < |own| && own[f] == Used && Drained(own[f := Cached(c)], own', c)
    ensures Returned(own, own', f, c)
  {
    var own1 := own[f := Cached(c)];
    forall g: nat | g < |own| ensures g in Available(own') <==> g in Available(own) || g == f {
      assert KindOf(own'[g]) == KindOf(own1[g]) || (own1[g] == Cached(c) && KindOf(own'[g]) == Free);
    }
    assert KindOf(own'[f]) == KindOf(own1[f]) || (own1[f] == Cached(c) && KindOf(own'[f]) == Free);
  }

  lemma Pow2Bounds(o: nat)
    ensures o <= MAX_ORDER ==> Pow2(o) <= FREE_N_MAX
    ensures o > MAX_ORDER ==> Pow2(o) > FREE_N_MAX
    decreases if o <= MAX_ORDER then MAX_ORDER - o else o
  {
    if o > MAX_ORDER + 1 {
      Pow2Bounds(o - 1);
    } else if o == MAX_ORDER + 1 {
      assert Pow2(11) == 2 * Pow2(10) && Pow2(10) == 4 * Pow2(8) && Pow2(8) == 4 * Pow2(6) && Pow2(6) == 4 * Pow2(4) &&
             Pow2(4) == 16;
    } else if o < MAX_ORDER {
      Pow2Bounds(o + 1);
    } else {
      assert Pow2(10) == 4 * Pow2(8) && Pow2(8) == 4 * Pow2(6) && Pow2(6) == 4 * Pow2(4) && Pow2(4) == 16;
    }
  }

  /** The largest block that fits a range and is aligned at its start. */
  method LargestOrder(base: nat, len: nat) returns (o: nat)
    requires 0 < len <= FREE_N_MAX
    ensures o <= MAX_ORDER && Pow2(o) <= len && Aligned(base, o)
    ensures Pow2(o + 1) > len || !Aligned(base, o + 1)
  {
    o := 0;
    AlignedZero(base);
    while Pow2(o + 1) <= len && base % Pow2(o + 1) == 0
      invariant Pow2(o) <= len && Aligned(base, o)
      decreases len - Pow2(o)
    {
      Pow2Double(o);
      o := o + 1;
    }
    Pow2Bounds(o);
  }

  lemma HalveBound(v: nat, p: nat, m: nat)
    requires v * p <= m < (v + 1) * p
    ensures v / 2 * (2 * p) <= m < (v / 2 + 1) * (2 * p)
  {
    var h := v / 2;
    MulMonotone(2 * h, v, p);
    MulMonotone(v + 1, 2 * h + 2, p);
  }

  /** `v` is `m` without its lowest `o` bits. */
  predicate Shifted(v: nat, o: nat, m: nat) { v * Pow2(o) <= m < (v + 1) * Pow2(o) }

  lemma OrderEnds(o: nat, m: nat)
    ensures Shifted(m, 0, m) && (Shifted(0, o, m) ==> m < Pow2(o))
  {
    Pow2Zero();
  }

  lemma OrderStep(v: nat, o: nat, m: nat)
    requires Shifted(v, o, m) && v != 0
    ensures Shifted(v / 2, o + 1, m) && Pow2(o) <= m
  {
    Pow2Double(o);
    var p := Pow2(o);
    hide Pow2;
    HalveBound(v, p, m);
    MulMonotone(1, v, p);
  }

  /** The order of the smallest block of at least `n` frames. */
  method FramesToOrder(n: nat) returns (o: nat)
    requires n > 0
    ensures Pow2(o) >= n && (o > 0 ==> Pow2(o - 1) < n)
  {
    hide Pow2;
    hide Shifted;
    Pow2Zero();
    if n <= 1 {
      return 0;
    }
    o := 0;
    var v: nat := n - 1;
    OrderEnds(0, n - 1);
    while v != 0
      invariant Shifted(v, o, n - 1)
      invariant o > 0 ==> Pow2(o - 1) <= n - 1
      decreases v
    {
      OrderStep(v, o, n - 1);
      o := o + 1;
      v := v / 2;
    }
    OrderEnds(o, n - 1);
  }

  lemma StillTaken(was: seq<Owner>, own: seq<Owner>, base: nat, b: nat, len: nat)
    requires base <= b <= base + len <= |was| && Becomes(was, own, base, b - base, Free)
    requires forall g | base <= g < base + len :: was[g].Used? || was[g].Flight?
    ensures forall g | b <= g < base + len :: own[g].Used? || own[g].Flight?
  {
    forall g | b <= g < base + len ensures own[g].Used? || own[g].Flight? {
      assert KindOf(own[g]) == KindOf(was[g]);
    }
  }

  lemma FreedBlock(was: seq<Owner>, before: seq<Owner>, middle: seq<Owner>, own: seq<Owner>, base: nat, b: nat, n: nat)
    requires base <= b && b + n <= |was| && Becomes(was, before, base, b - base, Free)
    requires middle == Fill(before, b, n, Flight) && Becomes(middle, own, b, n, Free)
    ensures Becomes(was, own, base, b + n - base, Free)
  {
    forall g | 0 <= g < |was| ensures KindOf(own[g]) == if base <= g < b + n then Free else KindOf(was[g]) {
      assert KindOf(own[g]) == if b <= g < b + n then Free else KindOf(middle[g]);
      assert KindOf(before[g]) == if base <= g < b then Free else KindOf(was[g]);
    }
  }

  /** The frames of a run whose last reference a release drops, in order. */
  function Dying(refs: seq<nat>, head: nat, n: nat): seq<nat> {
    if n == 0 then []
    else
      var fs, g := Dying(refs, head, n - 1), head + n - 1;
      if g < |refs| && refs[g] == 1 then fs + [g] else fs
  }

  lemma {:induction false} DyingFacts(refs: seq<nat>, head: nat, n: nat)
    ensures forall g :: g in Dying(refs, head, n) <==> head <= g < head + n && g < |refs| && refs[g] == 1
    ensures forall i, j :: 0 <= i < j < |Dying(refs, head, n)| ==> Dying(refs, head, n)[i] < Dying(refs, head, n)[j]
  {
    if n > 0 {
      DyingFacts(refs, head, n - 1);
      var fs := Dying(refs, head, n - 1);
      assert forall i | 0 <= i < |fs| :: fs[i] in fs;
    }
  }

  /** The frames to free are taken, in ascending order. */
  lemma DyingUsed(refs: seq<nat>, own: seq<Owner>, head: nat, n: nat)
    requires |refs| == |own| && forall g | 0 <= g < |own| :: refs[g] > 0 <==> own[g].Used?
    ensures var fs := Dying(refs, head, n);
            (forall i, j :: 0 <= i < j < |fs| ==> fs[i] < fs[j]) &&
            forall i | 0 <= i < |fs| :: fs[i] < |own| && own[fs[i]].Used?
  {
    DyingFacts(refs, head, n);
    var fs := Dying(refs, head, n);
    forall i | 0 <= i < |fs| ensures fs[i] < |own| && own[fs[i]].Used? {
      assert fs[i] in fs;
    }
  }

  /** The counts after one reference on each frame of a run is dropped. */
  function Dropped(refs: seq<nat>, head: nat, n: nat): seq<nat> {
    seq(|refs|, g requires 0 <= g < |refs| => if head <= g < head + n && refs[g] > 0 then refs[g] - 1 else refs[g])
  }

  /** Releasing a run stops the kernel: a frame of it is free already, too many frames would
      be freed at once, or more is released than was allocated at its head. */
  ghost predicate Stops(refs: seq<nat>, order: seq<nat>, head: nat, n: nat)
    requires |order| == |refs|
  {
    (exists g :: head <= g < head + n && g < |refs| && refs[g] == 0) || |Dying(refs, head, n)| > FREE_N_MAX ||
    (Dying(refs, head, n) != [] && head < |refs| && order[head] != INVALID && Pow2(order[head]) < n)
  }

  /** The frames of `s` are now free, and every other frame is of the kind it was. */
  predicate Freed(own: seq<Owner>, own': seq<Owner>, s: seq<nat>) {
    |own'| == |own| && forall g | 0 <= g < |own| :: KindOf(own'[g]) == if g in s then Free else KindOf(own[g])
  }

  lemma {:induction false} DyingAll(refs: seq<nat>, head: nat, n: nat)
    requires head + n <= |refs| && forall g | head <= g < head + n :: refs[g] == 1
    ensures |Dying(refs, head, n)| == n
  {
    if n > 0 {
      DyingAll(refs, head, n - 1);
    }
  }

  /** When the release of `m` frames from the start of a fresh run of `n` stops. */
  lemma RunStops(refs: seq<nat>, order: seq<nat>, head: nat, n: nat, m: nat, k: nat)
    requires |order| == |refs| && 0 < n && head + n <= |refs| && forall g | head <= g < head + n :: refs[g] == 1
    requires order[head] == k <= MAX_ORDER && n <= Pow2(k) && (k > 0 ==> Pow2(k - 1) < n)
    ensures m == n ==> (Stops(refs, order, head, m) <==> n > FREE_N_MAX)
    ensures !Stops(refs, order, head, m) ==> forall o: nat :: Pow2(o) >= n ==> m <= Pow2(o)
  {
    DyingAll(refs, head, n);
    DyingFacts(refs, head, m);
    hide Pow2;
    if m > 0 {
      assert head in Dying(refs, head, m);
    }
    if !Stops(refs, order, head, m) {
      assert m <= Pow2(k);
      forall o: nat | Pow2(o) >= n ensures m <= Pow2(o) {
        if o < k {
          Pow2Monotone(o, k - 1);
        } else {
          Pow2Monotone(k, o);
        }
      }
    }
  }

  /** Taking a run and freeing it again. */
  lemma RunFreed(was: seq<Owner>, mid: seq<Owner>, own: seq<Owner>, counts: seq<nat>, refs: seq<nat>, head: nat, n: nat)
    requires |counts| == |refs| == |was| && head + n <= |was| && Becomes(was, mid, head, n, Taken)
    requires forall g | head <= g < head + n :: was[g].Block? && counts[g] == 0
    requires forall g | 0 <= g < |was| :: refs[g] == if head <= g < head + n then 1 else counts[g]
    requires Freed(mid, own, Dying(refs, head, n))
    ensures SameKinds(was, own) && Dropped(refs, head, n) == counts
  {
    DyingFacts(refs, head, n);
    forall g | 0 <= g < |was| ensures KindOf(own[g]) == KindOf(was[g]) {
      assert g in Dying(refs, head, n) <==> head <= g < head + n;
    }
  }

  /** A cached frame is free, unlabelled and in range. */
  lemma CachedOrder(p: Pool, own: seq<Owner>, c: nat)
    requires Inv(p, own) && c < |p.cache| && p.cache[c] != []
    ensures var f := p.cache[c][0]; f < |own| && f < |p.order| && f < |p.occ| && p.order[f] == INVALID && !p.occ[f]
  {
    assert CacheOk(p.cache[c], own, c);
    assert p.cache[c][0] in p.cache[c];
  }

  /** `len` entries from position `k` on are the consecutive frames from `start`. */
  predicate Run(s: seq<nat>, k: nat, len: nat, start: nat) {
    k + len <= |s| && forall i | k <= i < k + len :: s[i] == start + (i - k)
  }

  lemma RunStart(s: seq<nat>, k: nat)
    requires k < |s|
    ensures Run(s, k, 1, s[k])
  {
  }

  lemma RunNext(s: seq<nat>, k: nat, len: nat, start: nat)
    requires Run(s, k, len, start) && k + len < |s| && s[k + len] == start + len
    ensures Run(s, k, len + 1, start)
  {
  }

  lemma FreedNone(own: seq<Owner>, s: seq<nat>)
    requires |s| > 0
    ensures Freed(own, own, s[..0])
  {
  }

  lemma FreedRun(was: seq<Owner>, before: seq<Owner>, own: seq<Owner>, s: seq<nat>, k: nat, start: nat, len: nat)
    requires Run(s, k, len, start) && Freed(was, before, s[..k]) && start + len <= |was| &&
             Becomes(before, own, start, len, Free)
    ensures Freed(was, own, s[..k + len])
  {
    forall g | 0 <= g < |was| ensures KindOf(own[g]) == if g in s[..k + len] then Free else KindOf(was[g]) {
      assert s[..k + len] == s[..k] + s[k..k + len];
      if start <= g < start + len {
        assert s[k + (g - start)] == g;
        assert s[k..k + len][g - start] == g;
      } else {
        assert g !in s[k..k + len];
      }
    }
  }

  lemma DyingGrows(refs: seq<nat>, head: nat, m: nat, n: nat)
    requires m <= n
    ensures |Dying(refs, head, m)| <= |Dying(refs, head, n)|
  {
    if m < n { DyingGrows(refs, head, m, n - 1); }
  }

  lemma Pow2Grows(a: nat, b: nat)
    ensures a < b ==> 2 * Pow2(a) <= Pow2(b)
  {
    if a < b {
      Pow2Monotone(a + 1, b);
      Pow2Double(a);
    }
  }

  /** The trimmed surplus of an allocation is nothing exactly when a power of two is asked for. */
  lemma NoSurplus(n: nat, k: nat)
    requires Pow2(k) >= n && (k > 0 ==> Pow2(k - 1) < n) && n > 0
    ensures Pow2(k) - n == 0 <==> exists j: nat :: Pow2(j) == n
  {
    forall j: nat | Pow2(j) == n ensures j == k {
      if j < k { Pow2Monotone(j, k - 1); }
      Pow2Grows(k, j);
    }
  }

  /** Removing, splitting, trimming and reserving, taken together. */
  lemma AllocEffect(own: seq<Owner>, own2: seq<Owner>, own3: seq<Owner>, f: nat, big: nat, target: nat, n: nat)
    requires 0 < n <= target <= big && f + big <= |own| && forall g | f <= g < f + big :: own[g].Block?
    requires Becomes(Fill(own, f, big, Flight), own2, f + target, big - target, Free)
    requires Becomes(own2, own3, f + n, target - n, Free)
    ensures Becomes(own, Fill(own3, f, n, Used), f, n, Taken) && InFlight(own3, f, n)
  {
    var own1 := Fill(own, f, big, Flight);
    forall g | 0 <= g < |own|
      ensures KindOf(Fill(own3, f, n, Used)[g]) == (if f <= g < f + n then Taken else KindOf(own[g])) &&
              (f <= g < f + n ==> own3[g] == Flight)
    {
      assert KindOf(own2[g]) == if f + target <= g < f + big then Free else KindOf(own1[g]);
      assert KindOf(own3[g]) == if f + n <= g < f + target then Free else KindOf(own2[g]);
    }
  }

  lemma TooSmall(own: seq<Owner>, target: nat, n: nat)
    requires forall f | 0 <= f < |own| && own[f].Block? :: own[f].order < target
    requires target > 0 ==> Pow2(target - 1) < n
    ensures forall f | 0 <= f < |own| && own[f].Block? :: Pow2(own[f].order) < n
  {
    forall f | 0 <= f < |own| && own[f].Block? ensures Pow2(own[f].order) < n {
      Pow2Monotone(own[f].order, target - 1);
    }
  }

  lemma AllocSettled(own: seq<Owner>, own': seq<Owner>, f: nat, n: nat)
    requires Becomes(own, own', f, n, Taken) && forall g | 0 <= g < |own| :: !own[g].Flight?
    ensures forall g | 0 <= g < |own| :: !own'[g].Flight? && (own'[g].Used? <==> f <= g < f + n || own[g].Used?)
  {
    forall g | 0 <= g < |own| ensures !own'[g].Flight? && (own'[g].Used? <==> f <= g < f + n || own[g].Used?) {
      assert KindOf(own'[g]) == if f <= g < f + n then Taken else KindOf(own[g]);
    }
  }

  lemma FreedNothing(own: seq<Owner>)
    ensures Freed(own, own, [])
  {
  }

  lemma DroppedNothing(refs: seq<nat>, head: nat)
    ensures Dropped(refs, head, 0) == refs
  {
  }

  lemma DroppedOne(refs: seq<nat>, head: nat, i: nat)
    ensures var r, g := Dropped(refs, head, i), head + i;
            |r| == |refs| && (g < |refs| ==> r[g] == refs[g]) &&
            Dropped(refs, head, i + 1) == if g < |refs| && refs[g] > 0 then r[g := refs[g] - 1] else r
  {
  }

  lemma StillCounted(refs: seq<nat>, head: nat, n: nat)
    requires Dying(refs, head, n) == [] && forall g | head <= g < head + n && g < |refs| :: refs[g] > 0
    ensures forall g | 0 <= g < |refs| :: Dropped(refs, head, n)[g] > 0 <==> refs[g] > 0
  {
    forall g | 0 <= g < |refs| ensures Dropped(refs, head, n)[g] > 0 <==> refs[g] > 0 {
      DyingFacts(refs, head, n);
      assert g !in Dying(refs, head, n);
    }
  }

  lemma FreedSettled(own: seq<Owner>, own': seq<Owner>, refs: seq<nat>, head: nat, n: nat)
    requires |refs| == |own| && Freed(own, own', Dying(refs, head, n))
    requires forall g | 0 <= g < |own| :: !own[g].Flight? && (refs[g] > 0 <==> own[g].Used?)
    requires forall g | head <= g < head + n && g < |refs| :: refs[g] > 0
    ensures forall g | 0 <= g < |own| :: !own'[g].Flight? && (Dropped(refs, head, n)[g] > 0 <==> own'[g].Used?)
  {
    DyingFacts(refs, head, n);
    forall g | 0 <= g < |own| ensures !own'[g].Flight? && (Dropped(refs, head, n)[g] > 0 <==> own'[g].Used?) {
      assert KindOf(own'[g]) == if g in Dying(refs, head, n) then Free else KindOf(own[g]);
    }
  }

  // ---- Building the free lists

  /** No free block of order `o` whose pair starts below `limit` has a free buddy. */
  predicate Unpaired(own: seq<Owner>, o: nat, limit: int) {
    forall g: nat | g < |own| && own[g] == Block(g, o) && Merged(g, o) < limit ::
      0 <= BuddyOf(g, o) < |own| ==> own[BuddyOf(g, o)] != Block(BuddyOf(g, o), o)
  }

  lemma UnpairedAll(own: seq<Owner>)
    requires Blocks(own) && forall o | 0 <= o < MAX_ORDER :: Unpaired(own, o, |own|)
    ensures NoBuddies(own)
  {
    hide BuddyOf;
    forall f | 0 <= f < |own| && own[f].Block? && own[f].head == f && own[f].order < MAX_ORDER
      ensures 0 <= BuddyOf(f, own[f].order) < |own| ==>
              own[BuddyOf(f, own[f].order)] != Block(BuddyOf(f, own[f].order), own[f].order)
    {
      assert Unpaired(own, own[f].order, |own|) && Merged(f, own[f].order) < |own|;
    }
  }

  /** In an unmerged table the test still finds exactly the free buddies. */
  lemma PairTest(p: Pool, own: seq<Owner>, f: nat, o: nat)
    requires Sound(p, own) && o < MAX_ORDER && Aligned(f, o + 1) && f + 2 * Pow2(o) <= |own|
    ensures BuddyOf(f, o) == f + Pow2(o) && BuddyOf(f + Pow2(o), o) == f && Merged(f, o) == f &&
            Merged(f + Pow2(o), o) == f
    ensures p.order[f] == o && !p.occ[f] <==> own[f] == Block(f, o)
    ensures Mergeable(p, f, o) <==> own[f + Pow2(o)] == Block(f + Pow2(o), o)
  {
    hide Pow2;
    hide Aligned;
    HalfFacts(f, o);
    hide BuddyOf;
    assert p.occ[f] <==> own[f].Used?;
    assert p.occ[f + Pow2(o)] <==> own[f + Pow2(o)].Used?;
  }

  /** Frame `f` does not head a pair of free blocks of order `o` any more. */
  lemma PairDone(own: seq<Owner>, o: nat, f: nat)
    requires Blocks(own) && o < MAX_ORDER && Aligned(f, o + 1) && f + 2 * Pow2(o) <= |own| && Unpaired(own, o, f)
    requires own[f] != Block(f, o) || own[f + Pow2(o)] != Block(f + Pow2(o), o)
    ensures Unpaired(own, o, f + 2 * Pow2(o))
  {
    hide Pow2;
    hide Aligned;
    hide BuddyOf;
    hide Merged;
    HalfFacts(f, o);
    forall g: nat | g < |own| && own[g] == Block(g, o) && f <= Merged(g, o) < f + 2 * Pow2(o)
      ensures 0 <= BuddyOf(g, o) < |own| ==> own[BuddyOf(g, o)] != Block(BuddyOf(g, o), o)
    {
      assert BlockOk(own, g, o);
      BuddyFacts(g, o);
      Pow2Double(o);
      SameStart(f, Merged(g, o), o + 1);
    }
  }

  /** Two aligned starts less than a block apart are the same. */
  lemma SameStart(f: nat, g: nat, o: nat)
    requires Aligned(f, o) && Aligned(g, o) && f <= g < f + Pow2(o)
    ensures f == g
  {
    var p := Pow2(o);
    var a, b := f / p, g / p;
    hide Pow2;
    Division(f, p);
    Division(g, p);
    OneMore(a, p);
    OneMore(b, p);
    MulMonotone(a + 1, b, p);
    MulMonotone(b + 1, a, p);
  }

  /** Past the last whole pair no pair is left. */
  lemma PairsPast(own: seq<Owner>, o: nat, f: nat)
    requires Blocks(own) && o < MAX_ORDER && Aligned(f, o + 1) && Unpaired(own, o, f) && f + 2 * Pow2(o) > |own|
    ensures Unpaired(own, o, |own|)
  {
    forall g: nat | g < |own| && own[g] == Block(g, o) && f <= Merged(g, o) < |own|
      ensures 0 <= BuddyOf(g, o) < |own| ==> own[BuddyOf(g, o)] != Block(BuddyOf(g, o), o)
    {
      assert BlockOk(own, g, o);
      BuddyFacts(g, o);
      var b := BuddyOf(g, o);
      assert 0 <= b < |own| && own[b] == Block(b, o) ==> BlockOk(own, b, o);
    }
  }

  /** Merging a pair touches no block of another order below the merged one. */
  lemma MergeKeeps(own: seq<Owner>, f: nat, o: nat, o': nat, limit: int)
    requires BlockOk(own, f, o) && BlockOk(own, f + Pow2(o), o) && o' <= o && Unpaired(own, o', limit)
    ensures Unpaired(Fill(own, f, 2 * Pow2(o), Block(f, o + 1)), o', limit)
  {
    hide BuddyOf;
    hide Pow2;
    hide Merged;
    hide Aligned;
    var own' := Fill(own, f, 2 * Pow2(o), Block(f, o + 1));
    forall g: nat | g < |own'| && own'[g] == Block(g, o') && Merged(g, o') < limit
      ensures 0 <= BuddyOf(g, o') < |own'| ==> own'[BuddyOf(g, o')] != Block(BuddyOf(g, o'), o')
    {
      assert own[g] == own'[g];
    }
  }

  /** The free frames of order `o` whose block heads a list. */
  function Cover(own: seq<Owner>, l: seq<nat>, o: nat): set<nat> {
    set g: nat | g < |own| && own[g].Block? && own[g].order == o && own[g].head in l
  }

  lemma HeadTail(l: seq<nat>)
    requires NoDup(l) && l != []
    ensures l == [l[0]] + l[1..] && l[0] !in l[1..] && NoDup(l[1..]) && l[0] in l && forall h <- l[1..] :: h in l
  {
    forall h <- l[1..] ensures h in l {
      var i :| 0 <= i < |l[1..]| && l[1..][i] == h;
      assert l[i + 1] == h;
    }
  }

  lemma {:induction false} CoverSize(own: seq<Owner>, l: seq<nat>, o: nat)
    requires NoDup(l) && Blocks(own) && forall h <- l :: h < |own| && own[h] == Block(h, o)
    ensures |Cover(own, l, o)| == |l| * Pow2(o)
  {
    hide Pow2;
    hide Aligned;
    if l == [] {
      assert Cover(own, l, o) == {};
    } else {
      var h, r := l[0], l[1..];
      HeadTail(l);
      hide NoDup;
      assert BlockOk(own, h, o);
      CoverSize(own, r, o);
      RangeSize(h, Pow2(o));
      CoverCons(own, h, r, o);
      hide *;
      OneMore(|r|, Pow2(o));
    }
  }

  lemma CoverCons(own: seq<Owner>, h: nat, r: seq<nat>, o: nat)
    requires Blocks(own) && BlockOk(own, h, o) && h !in r
    ensures Cover(own, [h] + r, o) == Range(h, Pow2(o)) + Cover(own, r, o) && Range(h, Pow2(o)) !! Cover(own, r, o)
  {
    hide Pow2;
    hide Aligned;
  }

  /** The free frames in blocks of an order below `o`. */
  function FreeBelow(own: seq<Owner>, o: nat): set<nat> {
    set g: nat | g < |own| && own[g].Block? && own[g].order < o
  }

  /** Each list accounts for the frames of its order. */
  lemma ListCount(p: Pool, own: seq<Owner>, o: nat)
    requires Sound(p, own) && o <= MAX_ORDER && |p.area| == MAX_ORDER + 1
    ensures |FreeBelow(own, o + 1)| == |FreeBelow(own, o)| + |p.area[o]| * Pow2(o)
  {
    hide Pow2;
    hide Aligned;
    var l := p.area[o];
    assert ListOk(l, own, o);
    CoverSize(own, l, o);
    forall g: nat | g < |own| && own[g].Block? && own[g].order == o ensures own[g].head in l {
      assert BlockOk(own, own[g].head, o);
    }
    assert FreeBelow(own, o + 1) == FreeBelow(own, o) + Cover(own, l, o);
    assert FreeBelow(own, o) !! Cover(own, l, o);
  }

  predicate SameKinds(own: seq<Owner>, own': seq<Owner>) {
    |own'| == |own| && forall g | 0 <= g < |own| :: KindOf(own'[g]) == KindOf(own[g])
  }

  lemma SameKindsTrans(a: seq<Owner>, b: seq<Owner>, c: seq<Owner>)
    requires SameKinds(a, b) && SameKinds(b, c)
    ensures SameKinds(a, c)
  {
  }

  /** The order field of an allocated frame is not that of a free block. */
  predicate Unlabelled(order: seq<nat>, occ: seq<bool>) {
    |order| == |occ| && forall g | 0 <= g < |occ| && occ[g] :: order[g] == INVALID
  }

  lemma SinglesTest(p: Pool, own: seq<Owner>, f: nat)
    requires Sound(p, own) && f < |own| && (own[f].Used? || own[f].Flight?)
    ensures !p.occ[f] && p.order[f] == INVALID <==> own[f] == Flight
  {
  }

  lemma AlignedStart(own: seq<Owner>, o: nat)
    ensures Aligned(0, o + 1) && (Blocks(own) ==> Unpaired(own, o, 0))
  {
    if Blocks(own) {
      forall g: nat | g < |own| && own[g] == Block(g, o) ensures Merged(g, o) >= 0 {
        assert BlockOk(own, g, o);
        BuddyFacts(g, o);
      }
    }
  }

  lemma AlignedNext(f: nat, o: nat)
    requires Aligned(f, o + 1)
    ensures Aligned(f + Pow2(o) * 2, o + 1)
  {
    Pow2Double(o);
    var p := Pow2(o + 1);
    hide Pow2;
    Division(f, p);
    OneMore(f / p, p);
    QuotientIs(f + p, p, f / p + 1, 0);
  }

  lemma Finished(p: Pool, own: seq<Owner>, o: nat, f: nat)
    requires Sound(p, own) && o < MAX_ORDER && Aligned(f, o + 1) && Unpaired(own, o, f) && f + Pow2(o) * 2 > |own|
    ensures Unpaired(own, o, |own|)
  {
    PairsPast(own, o, f);
  }

  lemma AllMerged(p: Pool, own: seq<Owner>)
    requires Sound(p, own) && forall o | 0 <= o < MAX_ORDER :: Unpaired(own, o, |own|)
    ensures Inv(p, own)
  {
    UnpairedAll(own);
  }

  /** A pair that merges becomes one block of the next order and nothing else changes. */
  lemma MergedPair(own: seq<Owner>, f: nat, o: nat)
    requires BlockOk(own, f, o) && BlockOk(own, f + Pow2(o), o) && o < MAX_ORDER && Aligned(f, o + 1)
    ensures var own2 := Fill(Fill(own, f + Pow2(o), Pow2(o), Flight), f, Pow2(o), Flight);
            Region(own2, f, o + 1) &&
            Fill(own2, f, Pow2(o + 1), Block(f, o + 1)) == Fill(own, f, 2 * Pow2(o), Block(f, o + 1)) &&
            SameKinds(own, Fill(own, f, 2 * Pow2(o), Block(f, o + 1)))
  {
    Pow2Double(o);
    hide Pow2;
    hide Aligned;
  }

  lemma NoPair(p: Pool, own: seq<Owner>, f: nat, o: nat)
    requires Sound(p, own) && o < MAX_ORDER && Aligned(f, o + 1) && f + 2 * Pow2(o) <= |own| &&
             Unlabelled(p.order, p.occ)
    requires Unpaired(own, o, f) && !(p.order[f] == o && Mergeable(p, f, o))
    ensures Unpaired(own, o, f + 2 * Pow2(o))
  {
    PairTest(p, own, f, o);
    PairDone(own, o, f);
    hide Pow2;
    hide BuddyOf;
    hide Merged;
    hide Aligned;
    hide Unpaired;
    hide Blocks;
  }

  lemma PairFound(p: Pool, own: seq<Owner>, f: nat, o: nat)
    requires Sound(p, own) && o < MAX_ORDER && Aligned(f, o + 1) && f + 2 * Pow2(o) <= |own| &&
             Unlabelled(p.order, p.occ)
    requires p.order[f] == o && Mergeable(p, f, o)
    ensures BuddyOf(f, o) == f + Pow2(o) && own[f] == Block(f, o) && own[f + Pow2(o)] == Block(f + Pow2(o), o)
    ensures BlockOk(own, f, o) && BlockOk(own, f + Pow2(o), o)
  {
    PairTest(p, own, f, o);
  }

  lemma AfterMerge(p: Pool, own: seq<Owner>, own': seq<Owner>, f: nat, o: nat)
    requires BlockOk(own, f, o) && BlockOk(own, f + Pow2(o), o) && own' == Fill(own, f, 2 * Pow2(o), Block(f, o + 1))
    requires Sound(p, own') && o < MAX_ORDER && Aligned(f, o + 1)
    requires Unpaired(own, o, f) && forall o' | 0 <= o' < o :: Unpaired(own, o', |own|)
    ensures Unpaired(own', o, f + 2 * Pow2(o)) && forall o' | 0 <= o' < o :: Unpaired(own', o', |own'|)
  {
    hide Unpaired;
    MergeKeeps(own, f, o, o, f);
    forall o' | 0 <= o' < o ensures Unpaired(own', o', |own'|) {
      MergeKeeps(own, f, o, o', |own|);
    }
    PairDone(own', o, f);
  }

  lemma SoundBlocks(p: Pool, own: seq<Owner>)
    requires Sound(p, own)
    ensures Blocks(own)
  {
  }

  lemma SoundPages(p: Pool, own: seq<Owner>)
    requires Sound(p, own)
    ensures |p.occ| == |own| && forall f | 0 <= f < |own| :: p.occ[f] <==> own[f].Used?
  {
  }

  lemma AllBelow(p: Pool, own: seq<Owner>)
    requires Sound(p, own)
    ensures FreeBelow(own, MAX_ORDER + 1) == OfKind(own, Free)
  {
    forall g: nat | g < |own| && own[g].Block? ensures own[g].order <= MAX_ORDER {
      assert BlockOk(own, own[g].head, own[g].order);
    }
  }

  class Allocator {
    const total: nat
    var order: seq<nat>
    var occ: seq<bool>
    var refs: seq<nat>
    var area: seq<seq<nat>>
    var bits: seq<bool>
    var cache: seq<seq<nat>>
    var freeFrames: int
    ghost var own: seq<Owner>

    function Tables(): Pool
      reads this
    {
      Pool(order, occ, area, bits, cache)
    }

    ghost predicate InOrder()
      reads this
    {
      |own| == |order| == |occ| == |refs| == total && |area| == |bits| == MAX_ORDER + 1 && Sound(Tables(), own)
    }

    ghost predicate Consistent()
      reads this
    {
      |own| == |order| == |occ| == |refs| == total && |area| == |bits| == MAX_ORDER + 1 && Inv(Tables(), own)
    }

    method BuddyInsert(f: nat, o: nat)
      requires InOrder() && Region(own, f, o)
      modifies this`order, this`area, this`bits, this`own
      ensures InOrder() && own == Fill(old(own), f, Pow2(o), Block(f, o)) && order == old(order)[f := o]
      ensures old(Consistent() && Insertable(own, f, o)) ==> Consistent()
    {
      InsertSound(Tables(), own, f, o);
      if Consistent() && Insertable(own, f, o) { InsertNoBuddies(own, f, o); }
      // None of the sanity checks that would stop the kernel can fail.
      assert f < total && f + Pow2(o) <= total && Aligned(f, o) && own[f] == Flight;
      assert !occ[f] && order[f] == INVALID;
      hide Sound;
      hide NoBuddies;
      hide Insertable;
      if area[o] == [] {
        bits := bits[o := true];
      }
      area := area[o := [f] + area[o]];
      order := order[f := o];
      own := Fill(own, f, Pow2(o), Block(f, o));
    }

    method BuddyRemove(f: nat, o: nat)
      requires InOrder() && f < total && own[f] == Block(f, o)
      modifies this`order, this`area, this`bits, this`own
      ensures InOrder() && own == Fill(old(own), f, Pow2(o), Flight) && order == old(order)[f := INVALID] &&
              old(BlockOk(own, f, o))
      ensures old(Consistent()) ==> Consistent()
    {
      RemoveSound(Tables(), own, f, o);
      if Consistent() { RemoveNoBuddies(own, f, Pow2(o), Flight); }
      // None of the sanity checks that would stop the kernel can fail.
      assert f + Pow2(o) <= total && order[f] == o && f in area[o];
      hide Sound;
      hide NoBuddies;
      hide Without;
      area := area[o := Without(area[o], f)];
      if area[o] == [] {
        bits := bits[o := false];
      }
      order := order[f := INVALID];
      own := Fill(own, f, Pow2(o), Flight);
    }

    /** Frees a block, merging it with its buddy as long as that is free. */
    method FreeBlock(frame: nat, k: nat)
      requires Consistent() && k <= MAX_ORDER && Aligned(frame, k) && InFlight(own, frame, Pow2(k))
      modifies this`order, this`area, this`bits, this`own, this`freeFrames
      ensures Consistent() && Becomes(old(own), own, frame, Pow2(k), Free)
      ensures freeFrames == old(freeFrames) + Pow2(k)
    {
      hide Inv;
      hide Sound;
      hide Pow2;
      hide BuddyOf;
      hide Aligned;
      var f: nat, o: nat := frame, k;
      while o < MAX_ORDER && Mergeable(Tables(), f, o)
        invariant Consistent() && o <= MAX_ORDER && Aligned(f, o) && freeFrames == old(freeFrames)
        invariant Gathered(old(own), own, frame, Pow2(k), f, Pow2(o))
        decreases MAX_ORDER - o
      {
        MergeableIff(Tables(), own, f, o);
        var b := BuddyOf(f, o);
        ghost var before := own;
        InvSound(Tables(), own);
        BuddyRemove(b, o);
        GatherMore(old(own), before, frame, Pow2(k), f, o);
        if b < f {
          f := b;
        }
        o := o + 1;
      }
      if o < MAX_ORDER { MergeableIff(Tables(), own, f, o); }
      GatherDone(old(own), own, frame, Pow2(k), f, o);
      InvSound(Tables(), own);
      BuddyInsert(f, o);
      freeFrames := freeFrames + Pow2(k);
    }

    /** Splits a block taken off its list: the upper half goes back to the free lists until the
        lower part has the wanted order. */
    method OrderSplit(frame: nat, k: nat, target: nat)
      requires Consistent() && target <= k <= MAX_ORDER && Aligned(frame, k) && InFlight(own, frame, Pow2(k))
      modifies this`order, this`area, this`bits, this`own
      ensures Consistent() && Pow2(target) <= Pow2(k) && InFlight(own, frame, Pow2(target)) && Aligned(frame, target)
      ensures Becomes(old(own), own, frame + Pow2(target), Pow2(k) - Pow2(target), Free)
    {
      hide Inv;
      hide Sound;
      hide Pow2;
      hide BuddyOf;
      hide Aligned;
      var o := k;
      while o > target
        invariant Consistent() && target <= o <= k && Aligned(frame, o) && Pow2(o) <= Pow2(k)
        invariant InFlight(own, frame, Pow2(o)) && Becomes(old(own), own, frame + Pow2(o), Pow2(k) - Pow2(o), Free)
      {
        HalfFacts(frame, o - 1);
        Pow2Double(o - 1);
        o := o - 1;
        InvSound(Tables(), own);
        BuddyInsert(frame + Pow2(o), o);
      }
    }

    /** Between public calls: no frame is in passing, and exactly the allocated ones are counted. */
    ghost predicate Valid()
      reads this
    {
      Consistent() && forall f | 0 <= f < total :: !own[f].Flight? && (refs[f] > 0 <==> occ[f])
    }

    method Refill(c: nat)
      requires Valid() && c < |cache|
      modifies this`order, this`area, this`bits, this`own, this`cache, this`refs, this`freeFrames
      ensures Valid() && Refilled(old(own), own, c) && |cache| == |old(cache)|
      ensures |cache[c]| < BATCH ==> forall f | 0 <= f < total :: !own[f].Block?
      ensures freeFrames - |OfKind(own, Free)| == old(freeFrames - |OfKind(own, Free)|) && refs == old(refs)
    {
      hide Inv;
      hide Sound;
      hide Pow2;
      hide Aligned;
      while |cache[c]| < BATCH
        invariant Valid() && Refilled(old(own), own, c) && |cache| == |old(cache)| && refs == old(refs)
        invariant freeFrames - |OfKind(own, Free)| == old(freeFrames - |OfKind(own, Free)|)
      {
        var o := Lowest(bits, 0);
        if o == |bits| {
          NoBitsNoFree(Tables(), own, 0);
          break;
        }
        RefillOne(c, o);
      }
    }

    /** One round of the refill loop: the lowest free block gives its first frame. */
    method RefillOne(c: nat, o: nat)
      requires Valid() && c < |cache| && o <= MAX_ORDER && bits[o]
      modifies this`order, this`area, this`bits, this`own, this`cache, this`refs, this`freeFrames
      ensures Valid() && Refilled(old(own), own, c) && |cache| == |old(cache)| && |cache[c]| == |old(cache)[c]| + 1
      ensures refs == old(refs)
      ensures freeFrames - |OfKind(own, Free)| == old(freeFrames - |OfKind(own, Free)|)
    {
      hide Inv;
      hide Sound;
      hide Pow2;
      hide Aligned;
      ListHead(Tables(), own, o);
      var frame := area[o][0];
      InvSound(Tables(), own);
      BuddyRemove(frame, o);
      ghost var own1 := own;
      OrderSplit(frame, o, 0);
      ghost var own2 := own;
      Pow2Zero();
      RefillStep(old(own), own1, own2, frame, Pow2(o), c);
      RefillSettled(old(own), own2[frame := Cached(c)], frame, c);
      BecomesCount(old(own), own2[frame := Cached(c)], frame, 1, Free, InCache(c));
      CacheInv(Tables(), own, frame, c);
      assert !occ[frame] by { UsedIffOcc(old(Tables()), old(own)); }
      hide Becomes;
      hide BlockOk;
      hide OfKind;
      hide Refilled;
      refs := refs[frame := 0];
      cache := cache[c := [frame] + cache[c]];
      own := own[frame := Cached(c)];
      freeFrames := freeFrames - 1;
    }

    /** Allocates one frame on CPU `c`. */
    method Malloc(c: nat) returns (r: Option<nat>)
      requires Valid() && c < |cache|
      modifies this`order, this`occ, this`area, this`bits, this`own, this`cache, this`refs, this`freeFrames
      ensures Valid() && |cache| == |old(cache)|
      ensures freeFrames - |OfKind(own, Free)| == old(freeFrames - |OfKind(own, Free)|)
      ensures r.Some? ==> Served(old(own), own, r.value, c) && r.value < total && old(refs)[r.value] == 0
      ensures refs == if r.Some? then old(refs)[r.value := 1] else old(refs)
      ensures r.Some? ==> order[r.value] == INVALID
      ensures r.None? ==>
              forall f | 0 <= f < total ::
                !old(own)[f].Block? && old(own)[f] != Cached(c) && KindOf(own[f]) == KindOf(old(own)[f])
    {
      hide Inv;
      hide Sound;
      hide OfKind;
      hide Served;
      if cache[c] == [] {
        Refill(c);
      }
      if cache[c] == [] {
        CacheEmpty(Tables(), own, c);
        return None;
      }
      ghost var own1 := own;
      var f := cache[c][0];
      CachedOrder(Tables(), own, c);
      UncacheInv(Tables(), own, c);
      cache := cache[c := cache[c][1..]];
      own := own[f := Flight];
      TakeOne(f);
      assert own == own1[f := Used];
      ServedBy(old(own), own1, f, c);
      SameFree(own1, own, f);
      refs := refs[f := 1];
      r := Some(f);
    }

    /** Marks a frame in passing as allocated. */
    method TakeOne(f: nat)
      requires Consistent() && f < total && own[f] == Flight
      modifies this`occ, this`own
      ensures Consistent() && own == old(own)[f := Used] && occ == old(occ)[f := true]
    {
      MarkInv(Tables(), Tables().(occ := occ[f := true]), own, f, 1, true);
      assert Fill(own, f, 1, Used) == own[f := Used];
      hide Inv;
      hide Sound;
      occ := occ[f := true];
      own := own[f := Used];
    }

    /** A frame allocated and given back: nothing halts, and the same frames are taken as before. */
    method MallocThenFree(c: nat) returns (r: Option<nat>, halted: bool)
      requires Valid() && c < |cache|
      modifies this`order, this`occ, this`area, this`bits, this`own, this`cache, this`refs, this`freeFrames
      ensures Valid() && !halted && refs == old(refs)
      ensures forall g | 0 <= g < total :: own[g].Used? <==> old(own)[g].Used?
    {
      hide Inv;
      hide Sound;
      hide OfKind;
      hide Served;
      hide Returned;
      UsedIffOcc(Tables(), own);
      r := Malloc(c);
      halted := false;
      if r.Some? {
        halted := RefDec(r.value, c);
      }
      UsedIffOcc(Tables(), own);
    }

    /** Gives the first frame of a CPU's cache back to the free lists. */
    method DrainOne(c: nat)
      requires Valid() && c < |cache| && cache[c] != []
      modifies this`order, this`area, this`bits, this`own, this`cache, this`freeFrames
      ensures Valid() && |cache| == |old(cache)| && cache[c] == old(cache)[c][1..] && Drained(old(own), own, c)
      ensures freeFrames - |OfKind(own, Free)| == old(freeFrames - |OfKind(own, Free)|)
    {
      hide Inv;
      hide Sound;
      hide Drained;
      hide OfKind;
      UncacheInv(Tables(), own, c);
      var f := cache[c][0];
      cache := cache[c := cache[c][1..]];
      own := own[f := Flight];
      AlignedZero(f);
      FreeBlock(f, 0);
      DrainStep(old(own), own, f, c);
    }

    method Drain(c: nat)
      requires Valid() && c < |cache|
      modifies this`order, this`area, this`bits, this`own, this`cache, this`freeFrames
      ensures Valid() && |cache| == |old(cache)| && Drained(old(own), own, c)
      ensures |cache[c]| == if |old(cache)[c]| < BATCH then 0 else |old(cache)[c]| - BATCH
      ensures freeFrames - |OfKind(own, Free)| == old(freeFrames - |OfKind(own, Free)|)
    {
      hide Inv;
      hide Sound;
      hide OfKind;
      var count := if BATCH > |cache[c]| then |cache[c]| else BATCH;
      for i := 0 to count
        invariant Valid() && |cache| == |old(cache)| && Drained(old(own), own, c)
        invariant |cache[c]| == |old(cache)[c]| - i
        invariant freeFrames - |OfKind(own, Free)| == old(freeFrames - |OfKind(own, Free)|)
      {
        ghost var before := own;
        DrainOne(c);
        DrainedTrans(old(own), before, own, c);
      }
    }

    method RefInc(f: nat) returns (halted: bool)
      requires Valid()
      modifies this`refs
      ensures Valid() && (halted <==> f < total && !(0 < old(refs)[f] < REFCOUNT_MAX))
      ensures refs == if f < total && !halted then old(refs)[f := old(refs)[f] + 1] else old(refs)
    {
      hide Inv;
      hide Sound;
      if f >= total {
        return false;
      }
      if refs[f] == 0 || refs[f] >= REFCOUNT_MAX {
        return true;
      }
      refs := refs[f := refs[f] + 1];
      halted := false;
    }

    /** Drops one reference on CPU `c`; the last one returns the frame to that CPU's cache. */
    method RefDec(f: nat, c: nat) returns (halted: bool)
      requires Valid() && c < |cache|
      modifies this`order, this`occ, this`area, this`bits, this`own, this`cache, this`refs, this`freeFrames
      ensures Valid() && |cache| == |old(cache)| && (halted <==> f < total && old(refs)[f] == 0)
      ensures refs == if f < total && !halted then old(refs)[f := old(refs)[f] - 1] else old(refs)
      ensures if f < total && old(refs)[f] == 1 then Returned(old(own), own, f, c) else own == old(own)
      ensures |cache[c]| == if f >= total || old(refs)[f] != 1 then |old(cache)[c]|
                            else if |old(cache)[c]| < HIGH then |old(cache)[c]| + 1 else |old(cache)[c]| + 1 - BATCH
      ensures freeFrames - |OfKind(own, Free)| == old(freeFrames - |OfKind(own, Free)|)
    {
      hide Inv;
      hide Sound;
      hide OfKind;
      if f >= total {
        return false;
      }
      if refs[f] == 0 {
        return true;
      }
      refs := refs[f := refs[f] - 1];
      if refs[f] == 0 {
        UsedIffOcc(Tables(), own);
        ReleaseOne(f);
        CacheInv(Tables(), own, f, c);
        cache := cache[c := [f] + cache[c]];
        own := own[f := Cached(c)];
        assert own == old(own)[f := Cached(c)];
        SameFree(old(own), own, f);
        ghost var cached := own;
        if |cache[c]| > HIGH {
          Drain(c);
        }
        ReturnedBy(old(own), own, f, c);
      }
      halted := false;
    }

    /** Takes an allocated frame out of its allocation. */
    method ReleaseOne(f: nat)
      requires Consistent() && f < total && (own[f] == Used || own[f] == Flight)
      modifies this`occ, this`own, this`order
      ensures Consistent() && own == old(own)[f := Flight] && occ == old(occ)[f := false]
    {
      MarkInv(Tables(), Tables().(occ := occ[f := false], order := order[f := INVALID]), own, f, 1, false);
      assert Fill(own, f, 1, Flight) == own[f := Flight];
      hide Inv;
      hide Sound;
      occ := occ[f := false];
      order := order[f := INVALID];
      own := own[f := Flight];
    }

    /** Takes the frames of a range out of their allocation. */
    method ReleaseFrames(base: nat, n: nat)
      requires Consistent() && base + n <= total && forall g | base <= g < base + n :: own[g].Used? || own[g].Flight?
      modifies this`occ, this`own, this`order
      ensures Consistent() && own == Fill(old(own), base, n, Flight)
    {
      hide Inv;
      hide Sound;
      for i := 0 to n
        invariant Consistent() && own == Fill(old(own), base, i, Flight)
      {
        ReleaseOne(base + i);
        assert own == Fill(old(own), base, i + 1, Flight);
      }
    }

    /** Frees a run of frames as the largest aligned blocks it splits into. */
    method FreeRange(base: nat, len: nat)
      requires Consistent() && base + len <= total && len <= FREE_N_MAX
      requires forall g | base <= g < base + len :: own[g].Used? || own[g].Flight?
      modifies this`order, this`occ, this`area, this`bits, this`own, this`freeFrames
      ensures Consistent() && Becomes(old(own), own, base, len, Free) && freeFrames == old(freeFrames) + len
    {
      hide Inv;
      hide Sound;
      hide Pow2;
      hide Aligned;
      var b: nat, l: nat := base, len;
      while l > 0
        invariant Consistent() && base <= b && b + l == base + len
        invariant Becomes(old(own), own, base, b - base, Free) && freeFrames == old(freeFrames) + (b - base)
      {
        var o := LargestOrder(b, l);
        var block := Pow2(o);
        ghost var before := own;
        StillTaken(old(own), own, base, b, len);
        ReleaseFrames(b, block);
        ghost var middle := own;
        FreeBlock(b, o);
        FreedBlock(old(own), before, middle, own, base, b, block);
        b := b + block;
        l := l - block;
      }
    }

    /** Frees the collected frames, each maximal run of consecutive ones at a time. */
    method FreeRuns(frames: seq<nat>)
      requires Consistent() && 0 < |frames| <= FREE_N_MAX
      requires forall i, j :: 0 <= i < j < |frames| ==> frames[i] < frames[j]
      requires forall i | 0 <= i < |frames| :: frames[i] < total && own[frames[i]].Used?
      modifies this`order, this`occ, this`area, this`bits, this`own, this`freeFrames
      ensures Consistent() && Freed(old(own), own, frames)
      ensures freeFrames - |OfKind(own, Free)| == old(freeFrames - |OfKind(own, Free)|)
    {
      hide Inv;
      hide Sound;
      hide OfKind;
      hide Run;
      hide Freed;
      RunStart(frames, 0);
      FreedNone(own, frames);
      var start: nat, len: nat := frames[0], 1;
      for i := 1 to |frames|
        invariant Consistent() && 1 <= len <= i && start + len <= total
        invariant Run(frames, i - len, len, start)
        invariant Freed(old(own), own, frames[..i - len])
        invariant freeFrames - |OfKind(own, Free)| == old(freeFrames - |OfKind(own, Free)|)
      {
        if frames[i] == start + len {
          RunNext(frames, i - len, len, start);
          len := len + 1;
        } else {
          FreeRun(old(own), frames, i - len, start, len);
          RunStart(frames, i);
          start, len := frames[i], 1;
        }
      }
      FreeRun(old(own), frames, |frames| - len, start, len);
      assert frames[..|frames|] == frames;
    }

    method FreeRun(ghost was: seq<Owner>, ghost frames: seq<nat>, ghost k: nat, start: nat, len: nat)
      requires Consistent() && len <= FREE_N_MAX && Run(frames, k, len, start) && start + len <= total == |was|
      requires forall i, j :: 0 <= i < j < |frames| ==> frames[i] < frames[j]
      requires forall i | 0 <= i < |frames| :: frames[i] < total && was[frames[i]].Used?
      requires Freed(was, own, frames[..k])
      modifies this`order, this`occ, this`area, this`bits, this`own, this`freeFrames
      ensures Consistent() && Freed(was, own, frames[..k + len])
      ensures freeFrames - |OfKind(own, Free)| == old(freeFrames - |OfKind(own, Free)|)
    {
      hide Inv;
      hide Sound;
      hide OfKind;
      forall g | start <= g < start + len ensures own[g].Used? {
        assert frames[k + (g - start)] == g;
        assert g !in frames[..k];
        assert KindOf(own[g]) == KindOf(was[g]);
      }
      ghost var before := own;
      FreeRange(start, len);
      BecomesCount(before, own, start, len, Taken, Free);
      FreedRun(was, before, own, frames, k, start, len);
    }

    /** Marks the frames of a range allocated, with one reference each. */
    method ReserveFrames(f: nat, n: nat)
      requires Consistent() && InFlight(own, f, n)
      modifies this`occ, this`own, this`order, this`refs
      ensures Consistent() && own == Fill(old(own), f, n, Used)
      ensures forall g | 0 <= g < total :: refs[g] == if f <= g < f + n then 1 else old(refs)[g]
    {
      hide Inv;
      hide Sound;
      for i := 0 to n
        invariant Consistent() && own == Fill(old(own), f, i, Used)
        invariant forall g | 0 <= g < total :: refs[g] == if f <= g < f + i then 1 else old(refs)[g]
      {
        ReserveOne(f + i);
        refs := refs[f + i := 1];
        assert own == Fill(old(own), f, i + 1, Used);
      }
    }

    method ReserveOne(f: nat)
      requires Consistent() && f < total && own[f] == Flight
      modifies this`occ, this`own, this`order
      ensures Consistent() && own == old(own)[f := Used]
    {
      MarkInv(Tables(), Tables().(occ := occ[f := true], order := order[f := INVALID]), own, f, 1, true);
      assert Fill(own, f, 1, Used) == own[f := Used];
      hide Inv;
      hide Sound;
      occ := occ[f := true];
      order := order[f := INVALID];
      own := own[f := Used];
    }

    /** Records the order of an allocation at its first frame. */
    method SetTakenOrder(f: nat, o: nat)
      requires Consistent() && f < total && own[f] == Used
      modifies this`order
      ensures Consistent() && order == old(order)[f := o]
    {
      assert occ[f];
      MarkInv(Tables(), Tables().(order := order[f := o]), own, f, 1, true);
      assert Fill(own, f, 1, Used) == own;
      hide Inv;
      hide Sound;
      order := order[f := o];
    }

    /** Allocates `n` frames at the head `frame` of a free block of order `o`, giving the rest back. */
    method AllocFrom(frame: nat, o: nat, target: nat, n: nat)
      requires Valid() && 0 < n <= Pow2(target) && target <= o <= MAX_ORDER && frame < total &&
               own[frame] == Block(frame, o)
      modifies this`order, this`occ, this`area, this`bits, this`own, this`refs, this`freeFrames
      ensures Consistent() && frame + n <= total && Becomes(old(own), own, frame, n, Taken)
      ensures forall g | frame <= g < frame + n :: old(own)[g].Block?
      ensures forall g | 0 <= g < total :: refs[g] == if frame <= g < frame + n then 1 else old(refs)[g]
      ensures freeFrames == old(freeFrames) + (Pow2(target) - n) - n
      ensures order[frame] == target
    {
      hide Inv;
      hide Sound;
      hide Pow2;
      hide Aligned;
      InvSound(Tables(), own);
      BuddyRemove(frame, o);
      ghost var own1 := own;
      OrderSplit(frame, o, target);
      ghost var own2 := own;
      var extra := Pow2(target) - n;
      Pow2Bounds(target);
      if extra > 0 {
        FreeRange(frame + n, extra);
      }
      AllocEffect(old(own), own2, own, frame, Pow2(o), Pow2(target), n);
      ReserveFrames(frame, n);
      SetTakenOrder(frame, target);
      freeFrames := freeFrames - n;
    }

    /** Allocates `n` contiguous frames; `k` is the order of the block they are cut from. */
    method AllocN(n: nat) returns (r: Option<nat>, ghost k: nat)
      requires Valid()
      modifies this`order, this`occ, this`area, this`bits, this`own, this`refs, this`freeFrames
      ensures Valid()
      ensures r.None? <==>
              n == 0 || n > total || forall f | 0 <= f < total && old(own)[f].Block? :: Pow2(old(own)[f].order) < n
      ensures r.None? ==> own == old(own) && refs == old(refs) && freeFrames == old(freeFrames)
      ensures r.Some? ==> r.value + n <= total && Becomes(old(own), own, r.value, n, Taken)
      ensures r.Some? ==> forall g | r.value <= g < r.value + n :: old(own)[g].Block?
      ensures r.Some? ==> forall g | 0 <= g < total :: refs[g] == if r.value <= g < r.value + n then 1 else old(refs)[g]
      ensures r.Some? ==> |OfKind(own, Free)| == old(|OfKind(own, Free)|) - n
      ensures r.Some? ==> order[r.value] == k <= MAX_ORDER
      ensures r.Some? ==> Pow2(k) >= n && (k > 0 ==> Pow2(k - 1) < n) &&
                          freeFrames - |OfKind(own, Free)| == old(freeFrames - |OfKind(own, Free)|) + (Pow2(k) - n)
    {
      hide Inv;
      hide Sound;
      hide Pow2;
      hide Aligned;
      r, k := None, 0;
      if n == 0 || n > total {
        return;
      }
      var target := FramesToOrder(n);
      if target > MAX_ORDER {
        NoBitsNoFree(Tables(), own, target);
        TooSmall(own, target, n);
        return;
      }
      var o := Lowest(bits, target);
      if o == |bits| {
        NoBitsNoFree(Tables(), own, target);
        TooSmall(own, target, n);
        return;
      }
      ListHead(Tables(), own, o);
      Pow2Monotone(target, o);
      var frame := area[o][0];
      AllocFrom(frame, o, target, n);
      BecomesCount(old(own), own, frame, n, Free, Taken);
      AllocSettled(old(own), own, frame, n);
      UsedIffOcc(Tables(), own);
      UsedIffOcc(old(Tables()), old(own));
      r, k := Some(frame), target;
    }

    /** The first half of releasing a run: the counts drop and the frames to free are collected. */
    method DropRefs(head: nat, num: nat) returns (halted: bool, frames: seq<nat>)
      requires |refs| == total
      modifies this`refs
      ensures |refs| == total
      ensures halted <==>
              (exists g :: head <= g < head + num && g < total && old(refs)[g] == 0) ||
              |Dying(old(refs), head, num)| > FREE_N_MAX
      ensures !halted ==> refs == Dropped(old(refs), head, num) && frames == Dying(old(refs), head, num)
    {
      hide Dropped;
      frames := [];
      DroppedNothing(refs, head);
      for i := 0 to num
        invariant |refs| == total && refs == Dropped(old(refs), head, i) && frames == Dying(old(refs), head, i) &&
                  |frames| <= FREE_N_MAX
        invariant forall g | head <= g < head + i && g < total :: old(refs)[g] > 0
      {
        var frame := head + i;
        DyingGrows(old(refs), head, i + 1, num);
        DroppedOne(old(refs), head, i);
        if frame < total {
          if refs[frame] == 0 {
            return true, frames;
          }
          refs := refs[frame := refs[frame] - 1];
          if refs[frame] == 0 {
            if |frames| == FREE_N_MAX {
              return true, frames;
            }
            frames := frames + [frame];
          }
        }
      }
      halted := false;
    }

    /** Drops one reference on each of `num` frames from `head` and frees those it was the last of. */
    method FreeN(head: nat, num: nat) returns (halted: bool)
      requires Valid()
      modifies this`order, this`occ, this`area, this`bits, this`own, this`refs, this`freeFrames
      ensures halted <==> Stops(old(refs), old(order), head, num)
      ensures !halted ==>
              Valid() && Freed(old(own), own, Dying(old(refs), head, num)) && refs == Dropped(old(refs), head, num)
      ensures !halted ==> freeFrames - |OfKind(own, Free)| == old(freeFrames - |OfKind(own, Free)|)
    {
      hide Inv;
      hide Sound;
      hide OfKind;
      hide Pow2;
      hide Dropped;
      UsedIffOcc(Tables(), own);
      var frames: seq<nat>;
      halted, frames := DropRefs(head, num);
      if halted {
        return;
      }
      if frames == [] {
        FreedNothing(own);
        StillCounted(old(refs), head, num);
        return;
      }
      if head < total && order[head] != INVALID && Pow2(order[head]) < num {
        return true;
      }
      DyingUsed(old(refs), old(own), head, num);
      FreeRuns(frames);
      UsedIffOcc(Tables(), own);
      FreedSettled(old(own), own, old(refs), head, num);
    }

    /**
      * Allocating `n` frames and releasing `m` from their start.  Releasing the same run gives every frame its
      * old kind and count, and halts only on a run too long to be freed at once; releasing more than the
      * smallest power of two not below `n` halts.
      */
    method AllocThenFree(n: nat, m: nat) returns (r: Option<nat>, halted: bool)
      requires Valid()
      modifies this`order, this`occ, this`area, this`bits, this`own, this`refs, this`freeFrames
      ensures r.None? ==> !halted && own == old(own) && refs == old(refs)
      ensures r.Some? && m == n ==> (halted <==> n > FREE_N_MAX)
      ensures r.Some? && m == n && !halted ==> Valid() && SameKinds(old(own), own) && refs == old(refs)
      ensures r.Some? && !halted ==> forall o: nat :: Pow2(o) >= n ==> m <= Pow2(o)
    {
      hide Inv;
      hide Sound;
      hide OfKind;
      hide Pow2;
      hide Dropped;
      hide Becomes;
      hide Freed;
      hide SameKinds;
      hide Stops;
      halted := false;
      ghost var k;
      UsedIffOcc(Tables(), own);
      r, k := AllocN(n);
      if r.None? {
        return;
      }
      ghost var mid, counts := own, refs;
      RunStops(counts, order, r.value, n, m, k);
      halted := FreeN(r.value, m);
      if m == n && !halted {
        RunFreed(old(own), mid, own, old(refs), counts, r.value, n);
      }
    }

    /** Builds the free lists from the frames that are not reserved. */
    constructor (reserved: seq<bool>, cpus: nat)
      ensures Valid() && total == |reserved| && |cache| == cpus
      ensures forall g | 0 <= g < total :: KindOf(own[g]) == if reserved[g] then Taken else Free
      ensures freeFrames == |OfKind(own, Free)|
    {
      total := |reserved|;
      order := seq(|reserved|, _ => INVALID);
      occ := reserved;
      refs := seq(|reserved|, i requires 0 <= i < |reserved| => if reserved[i] then 1 else 0);
      area := seq(MAX_ORDER + 1, _ => []);
      bits := seq(MAX_ORDER + 1, _ => false);
      cache := seq(cpus, _ => []);
      freeFrames := 0;
      own := seq(|reserved|, i requires 0 <= i < |reserved| => if reserved[i] then Used else Flight);
      new;
      InsertSingles();
      MergeAll();
      CountFree();
    }

    /** Every frame that is not reserved becomes a free block of its own. */
    method InsertSingles()
      requires InOrder() && Unlabelled(order, occ) && forall g | 0 <= g < total :: own[g].Used? || own[g].Flight?
      modifies this`order, this`area, this`bits, this`own
      ensures InOrder() && forall g | 0 <= g < total :: KindOf(own[g]) == if old(own)[g].Used? then Taken else Free
      ensures Unlabelled(order, occ)
    {
      hide Sound;
      hide Inv;
      for frame := 0 to total
        invariant InOrder() && Unlabelled(order, occ)
        invariant forall g | 0 <= g < total ::
                  if g < frame then KindOf(own[g]) == (if old(own)[g].Used? then Taken else Free)
                    else own[g] == old(own)[g]
      {
        assert !occ[frame] && order[frame] == INVALID <==>
               own[frame] == Flight by { SinglesTest(Tables(), own, frame); }
        if !occ[frame] && order[frame] == INVALID {
          AlignedZero(frame);
          BuddyInsert(frame, 0);
        }
      }
    }

    /** Merges pairs of free buddies, order by order. */
    method MergeAll()
      requires InOrder() && Unlabelled(order, occ)
      modifies this`order, this`area, this`bits, this`own
      ensures Consistent() && SameKinds(old(own), own)
    {
      hide Sound;
      hide Inv;
      hide Unpaired;
      for o := 0 to MAX_ORDER
        invariant InOrder() && SameKinds(old(own), own) && Unlabelled(order, occ)
        invariant forall o' | 0 <= o' < o :: Unpaired(own, o', |own|)
      {
        ghost var before := own;
        MergeOrder(o);
        SameKindsTrans(old(own), before, own);
      }
      assert Consistent() by { AllMerged(Tables(), own); }
    }

    method MergeOrder(o: nat)
      requires InOrder() && o < MAX_ORDER && Unlabelled(order, occ) &&
               forall o' | 0 <= o' < o :: Unpaired(own, o', |own|)
      modifies this`order, this`area, this`bits, this`own
      ensures InOrder() && SameKinds(old(own), own) && Unlabelled(order, occ) &&
              forall o' | 0 <= o' <= o :: Unpaired(own, o', |own|)
    {
      hide Sound;
      hide Inv;
      hide Unpaired;
      hide Pow2;
      hide Mergeable;
      var frame: nat := 0;
      assert Unpaired(own, o, 0) by { SoundBlocks(Tables(), own); AlignedStart(own, o); }
      AlignedStart(own, o);
      while frame + Pow2(o) * 2 <= total
        invariant InOrder() && SameKinds(old(own), own) && Aligned(frame, o + 1) && Unlabelled(order, occ)
        invariant Unpaired(own, o, frame) && forall o' | 0 <= o' < o :: Unpaired(own, o', |own|)
        decreases total - frame
      {
        ghost var before := own;
        MergePair(frame, o);
        SameKindsTrans(old(own), before, own);
        AlignedNext(frame, o);
        frame := frame + Pow2(o) * 2;
      }
      Finished(Tables(), own, o, frame);
    }

    method MergePair(frame: nat, o: nat)
      requires InOrder() && o < MAX_ORDER && Aligned(frame, o + 1) && frame + Pow2(o) * 2 <= total &&
               Unlabelled(order, occ)
      requires Unpaired(own, o, frame) && forall o' | 0 <= o' < o :: Unpaired(own, o', |own|)
      modifies this`order, this`area, this`bits, this`own
      ensures InOrder() && SameKinds(old(own), own) && Unlabelled(order, occ)
      ensures Unpaired(own, o, frame + Pow2(o) * 2) && forall o' | 0 <= o' < o :: Unpaired(own, o', |own|)
    {
      hide Sound;
      hide Inv;
      hide Unpaired;
      hide Pow2;
      hide Aligned;
      hide Mergeable;
      hide BuddyOf;
      if order[frame] != o || !Mergeable(Tables(), frame, o) {
        NoPair(Tables(), own, frame, o);
        return;
      }
      PairFound(Tables(), own, frame, o);
      MergedPair(own, frame, o);
      SoundPages(Tables(), own);
      var buddy := BuddyOf(frame, o);
      BuddyRemove(buddy, o);
      BuddyRemove(frame, o);
      BuddyInsert(frame, o + 1);
      AfterMerge(Tables(), old(own), own, frame, o);
    }

    /** Counts the free frames, list by list. */
    method CountFree()
      requires Consistent()
      modifies this`freeFrames
      ensures freeFrames == |OfKind(own, Free)|
    {
      hide Inv;
      hide Sound;
      hide Pow2;
      freeFrames := 0;
      InvSound(Tables(), own);
      assert FreeBelow(own, 0) == {};
      for o := 0 to MAX_ORDER + 1
        invariant freeFrames == |FreeBelow(own, o)|
      {
        ListCount(Tables(), own, o);
        for i := 0 to |area[o]|
          invariant freeFrames == |FreeBelow(own, o)| + i * Pow2(o)
        {
          OneMore(i, Pow2(o));
          freeFrames := freeFrames + Pow2(o);
        }
      }
      AllBelow(Tables(), own);
    }
  }
}
