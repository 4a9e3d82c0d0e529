/** The buddy allocator's blocks as values: which frame belongs to which free block, and why
    splitting and merging keep the free blocks a partition. */
module Buddy {
  import opened Arithmetic
  import opened Collections

  const MAX_ORDER := 10
  const INVALID := 0xFF

  /** What a frame is part of: a free block, a CPU's cache, an allocation, or a block that an
      operation has taken off its list and not yet put anywhere. */
  datatype Owner = Block(head: nat, order: nat) | Cached(cpu: nat) | Used | Flight

  predicate Aligned(f: nat, o: nat) {
    f % Pow2(o) == 0
  }

  lemma AlignedZero(f: nat)
    ensures Pow2(0) == 1 && Aligned(f, 0)
  {
  }

  /** `f ^ (1 << o)`. */
  function BuddyOf(f: nat, o: nat): int {
    if f / Pow2(o) % 2 == 0 then f + Pow2(o) else f - Pow2(o)
  }

  function Merged(f: nat, o: nat): int {
    if BuddyOf(f, o) < f then BuddyOf(f, o) else f
  }

  lemma DoubleBlock(p: nat, r: nat)
    requires p > 0
    ensures (2 * r) * p / p == 2 * r && (2 * r) * p % p == 0 && (2 * r) * p % (2 * p) == 0
    ensures (2 * r + 1) * p / p == 2 * r + 1 && (2 * r + 1) * p % p == 0
    ensures (2 * r + 1) * p == (2 * r) * p + p && (2 * r) * p >= 0
  {
    QuotientIs((2 * r) * p, p, 2 * r, 0);
    QuotientIs((2 * r + 1) * p, p, 2 * r + 1, 0);
    assert (2 * r) * p == r * (2 * p);
    QuotientIs(r * (2 * p), 2 * p, r, 0);
  }

  /** Buddies are each other's buddy, and merging two gives a block of the next order. */
  lemma BuddyFacts(f: nat, o: nat)
    requires Aligned(f, o)
    ensures BuddyOf(f, o) >= 0 && Aligned(BuddyOf(f, o), o) && BuddyOf(BuddyOf(f, o), o) == f
    ensures Merged(f, o) >= 0 && Aligned(Merged(f, o), o + 1)
    ensures if BuddyOf(f, o) < f then Merged(f, o) == f - Pow2(o) && BuddyOf(f, o) == f - Pow2(o)
            else Merged(f, o) == f && BuddyOf(f, o) == f + Pow2(o)
  {
    var p := Pow2(o);
    var q := f / p;
    assert f == q * p;
    DoubleBlock(p, q / 2);
    if q % 2 == 0 {
      assert q == 2 * (q / 2);
    } else {
      assert q == 2 * (q / 2) + 1;
    }
  }

  /** The two halves of a block. */
  lemma HalfFacts(f: nat, o: nat)
    requires Aligned(f, o + 1)
    ensures Aligned(f, o) && Aligned(f + Pow2(o), o)
    ensures BuddyOf(f, o) == f + Pow2(o) && BuddyOf(f + Pow2(o), o) == f
  {
    Pow2Double(o);
    var p := Pow2(o);
    var q := f / (2 * p);
    hide Pow2;
    Division(f, 2 * p);
    Halves(q, p);
    QuotientIs(f, p, 2 * q, 0);
    QuotientIs(f + p, p, 2 * q + 1, 0);
  }

  lemma Halves(q: nat, p: nat)
    ensures q * (2 * p) == (2 * q) * p && (2 * q + 1) * p == (2 * q) * p + p
  {
  }

  // ---- The allocator's tables

  /** The page array's order and occupied fields, the free lists with their bitmap, and the
      per-CPU lists. */
  datatype Pool = Pool(order: seq<nat>, occ: seq<bool>, area: seq<seq<nat>>, bits: seq<bool>, cache: seq<seq<nat>>)

  predicate BlockOk(own: seq<Owner>, h: nat, o: nat) {
    o <= MAX_ORDER && Aligned(h, o) && h + Pow2(o) <= |own| &&
    forall g | h <= g < h + Pow2(o) :: own[g] == Block(h, o)
  }

  /** Every frame that says it is part of a free block is part of a whole, aligned one. */
  predicate Blocks(own: seq<Owner>) {
    forall f | 0 <= f < |own| && own[f].Block? ::
      own[f].head <= f < own[f].head + Pow2(own[f].order) && BlockOk(own, own[f].head, own[f].order)
  }

  /** No two buddies below the largest order are both free blocks. */
  predicate NoBuddies(own: seq<Owner>) {
    forall f | 0 <= f < |own| && own[f].Block? && own[f].head == f && own[f].order < MAX_ORDER ::
      0 <= BuddyOf(f, own[f].order) < |own| ==>
        own[BuddyOf(f, own[f].order)] != Block(BuddyOf(f, own[f].order), own[f].order)
  }

  function HeadOrder(own: seq<Owner>, f: nat): nat
    requires f < |own|
  {
    if own[f].Block? && own[f].head == f then own[f].order else INVALID
  }

  predicate Pages(p: Pool, own: seq<Owner>) {
    |p.order| == |p.occ| == |own| &&
    forall f | 0 <= f < |own| :: (p.occ[f] <==> own[f].Used?) && (!p.occ[f] ==> p.order[f] == HeadOrder(own, f))
  }

  ghost predicate ListOk(l: seq<nat>, own: seq<Owner>, o: nat) {
    NoDup(l) && forall f: nat :: f in l <==> f < |own| && own[f] == Block(f, o)
  }

  ghost predicate Lists(p: Pool, own: seq<Owner>) {
    |p.area| == |p.bits| == MAX_ORDER + 1 &&
    forall o: nat | o <= MAX_ORDER :: ListOk(p.area[o], own, o) && (p.bits[o] <==> p.area[o] != [])
  }

  ghost predicate CacheOk(l: seq<nat>, own: seq<Owner>, c: nat) {
    NoDup(l) && forall f: nat :: f in l <==> f < |own| && own[f] == Cached(c)
  }

  ghost predicate Caches(p: Pool, own: seq<Owner>) {
    (forall c: nat | c < |p.cache| :: CacheOk(p.cache[c], own, c)) &&
    forall f | 0 <= f < |own| && own[f].Cached? :: own[f].cpu < |p.cache|
  }

  /** The tables agree with what the frames are part of. */
  ghost predicate Sound(p: Pool, own: seq<Owner>) {
    Blocks(own) && Pages(p, own) && Lists(p, own) && Caches(p, own)
  }

  ghost predicate Inv(p: Pool, own: seq<Owner>) {
    Sound(p, own) && NoBuddies(own)
  }

  lemma InvSound(p: Pool, own: seq<Owner>)
    requires Inv(p, own)
    ensures Sound(p, own)
  {
  }

  function Fill(own: seq<Owner>, a: nat, n: nat, v: Owner): (r: seq<Owner>)
    ensures |r| == |own|
  {
    seq(|own|, i requires 0 <= i < |own| => if a <= i < a + n then v else own[i])
  }

  /** `buddy_insert` on the tables. */
  function Inserted(p: Pool, f: nat, o: nat): Pool
    requires o < |p.area| == |p.bits| && f < |p.order|
  {
    p.(bits := if p.area[o] == [] then p.bits[o := true] else p.bits,
       area := p.area[o := [f] + p.area[o]], order := p.order[f := o])
  }

  /** `buddy_remove` on the tables. */
  function Removed(p: Pool, f: nat, o: nat): Pool
    requires o < |p.area| == |p.bits| && f < |p.order|
  {
    var l := Without(p.area[o], f);
    p.(area := p.area[o := l], bits := if l == [] then p.bits[o := false] else p.bits, order := p.order[f := INVALID])
  }

  predicate InFlight(own: seq<Owner>, f: nat, n: nat) {
    f + n <= |own| && forall g | f <= g < f + n :: own[g] == Flight
  }

  /** The region could be a block, and is none yet. */
  predicate Region(own: seq<Owner>, f: nat, o: nat) {
    o <= MAX_ORDER && Aligned(f, o) && InFlight(own, f, Pow2(o))
  }

  /** The region may become a free block: its buddy is not one. */
  predicate Insertable(own: seq<Owner>, f: nat, o: nat) {
    Region(own, f, o) &&
    (o < MAX_ORDER && 0 <= BuddyOf(f, o) < |own| ==> own[BuddyOf(f, o)] != Block(BuddyOf(f, o), o))
  }

  lemma InsertBlocks(own: seq<Owner>, f: nat, o: nat)
    requires Blocks(own) && Region(own, f, o)
    ensures Blocks(Fill(own, f, Pow2(o), Block(f, o)))
  {
    hide Pow2;
    hide Aligned;
    hide BuddyOf;
    var own' := Fill(own, f, Pow2(o), Block(f, o));
    assert BlockOk(own', f, o);
    forall g | 0 <= g < |own'| && own'[g].Block?
      ensures own'[g].head <= g < own'[g].head + Pow2(own'[g].order) && BlockOk(own', own'[g].head, own'[g].order)
    {
      if !(f <= g < f + Pow2(o)) {
        var h, o' := own[g].head, own[g].order;
        assert BlockOk(own, h, o');
        forall m | h <= m < h + Pow2(o') ensures own'[m] == Block(h, o') {
          assert own[m] == Block(h, o');
        }
      }
    }
  }

  lemma InsertNoBuddies(own: seq<Owner>, f: nat, o: nat)
    requires Blocks(own) && NoBuddies(own) && Insertable(own, f, o)
    ensures NoBuddies(Fill(own, f, Pow2(o), Block(f, o)))
  {
    hide Pow2;
    var own' := Fill(own, f, Pow2(o), Block(f, o));
    BuddyFacts(f, o);
    hide BuddyOf;
    hide Aligned;
    forall g | 0 <= g < |own'| && own'[g].Block? && own'[g].head == g && own'[g].order < MAX_ORDER
      ensures var b := BuddyOf(g, own'[g].order); 0 <= b < |own'| ==> own'[b] != Block(b, own'[g].order)
    {
      if g != f {
        assert BlockOk(own, g, own[g].order);
        BuddyFacts(g, own[g].order);
      }
    }
  }

  lemma InsertLists(p: Pool, own: seq<Owner>, f: nat, o: nat)
    requires Lists(p, own) && o <= MAX_ORDER && InFlight(own, f, Pow2(o)) && f < |p.order|
    ensures Lists(Inserted(p, f, o), Fill(own, f, Pow2(o), Block(f, o)))
  {
    hide Pow2;
    hide NoDup;
    var own', p' := Fill(own, f, Pow2(o), Block(f, o)), Inserted(p, f, o);
    assert own[f] == Flight;
    forall o': nat | o' <= MAX_ORDER ensures ListOk(p'.area[o'], own', o') && (p'.bits[o'] <==> p'.area[o'] != []) {
      assert ListOk(p.area[o'], own, o') && (p.bits[o'] <==> p.area[o'] != []);
      if o' == o { NoDupCons(f, p.area[o]); }
    }
  }

  lemma NoDupCons(x: nat, l: seq<nat>)
    requires NoDup(l) && x !in l
    ensures NoDup([x] + l)
  {
  }

  lemma FillCaches(p: Pool, p': Pool, own: seq<Owner>, f: nat, n: nat, v: Owner)
    requires Caches(p, own) && p'.cache == p.cache && f + n <= |own| && !v.Cached?
    requires forall g | f <= g < f + n :: !own[g].Cached?
    ensures Caches(p', Fill(own, f, n, v))
  {
    hide NoDup;
    forall c: nat | c < |p.cache| ensures CacheOk(p'.cache[c], Fill(own, f, n, v), c) {
      assert CacheOk(p.cache[c], own, c);
    }
  }

  lemma InsertPages(p: Pool, own: seq<Owner>, f: nat, o: nat)
    requires Pages(p, own) && o < |p.area| == |p.bits| && InFlight(own, f, Pow2(o)) && f < |own|
    ensures Pages(Inserted(p, f, o), Fill(own, f, Pow2(o), Block(f, o)))
  {
    hide Pow2;
  }

  lemma InsertSound(p: Pool, own: seq<Owner>, f: nat, o: nat)
    requires Sound(p, own) && Region(own, f, o)
    ensures f < |p.order| && o < |p.area| == |p.bits|
    ensures Sound(Inserted(p, f, o), Fill(own, f, Pow2(o), Block(f, o)))
  {
    assert own[f] == Flight;
    InsertBlocks(own, f, o);
    InsertPages(p, own, f, o);
    InsertLists(p, own, f, o);
    FillCaches(p, Inserted(p, f, o), own, f, Pow2(o), Block(f, o));
  }

  lemma RemoveBlocks(own: seq<Owner>, f: nat, o: nat)
    requires Blocks(own) && f < |own| && own[f] == Block(f, o)
    ensures Blocks(Fill(own, f, Pow2(o), Flight)) && BlockOk(own, f, o)
  {
    hide Pow2;
    hide Aligned;
    assert BlockOk(own, f, o);
    var own' := Fill(own, f, Pow2(o), Flight);
    forall g | 0 <= g < |own'| && own'[g].Block?
      ensures own'[g].head <= g < own'[g].head + Pow2(own'[g].order) && BlockOk(own', own'[g].head, own'[g].order)
    {
      var h, o' := own[g].head, own[g].order;
      assert BlockOk(own, h, o');
      forall m | h <= m < h + Pow2(o') ensures own'[m] == Block(h, o') {
        assert own[m] == Block(h, o');
      }
    }
  }

  lemma RemoveNoBuddies(own: seq<Owner>, f: nat, n: nat, v: Owner)
    requires NoBuddies(own) && !v.Block?
    ensures NoBuddies(Fill(own, f, n, v))
  {
    hide BuddyOf;
    var own' := Fill(own, f, n, v);
    forall g | 0 <= g < |own'| && own'[g].Block? && own'[g].head == g && own'[g].order < MAX_ORDER
      ensures var b := BuddyOf(g, own'[g].order); 0 <= b < |own'| ==> own'[b] != Block(b, own'[g].order)
    {
      assert own[g] == own'[g];
    }
  }

  lemma RemoveLists(p: Pool, own: seq<Owner>, f: nat, o: nat)
    requires Lists(p, own) && BlockOk(own, f, o) && f < |p.order|
    ensures f in p.area[o] && Lists(Removed(p, f, o), Fill(own, f, Pow2(o), Flight))
  {
    hide Pow2;
    hide Aligned;
    hide NoDup;
    hide Without;
    var own', p' := Fill(own, f, Pow2(o), Flight), Removed(p, f, o);
    assert ListOk(p.area[o], own, o);
    WithoutMembers(p.area[o], f);
    forall o': nat | o' <= MAX_ORDER ensures ListOk(p'.area[o'], own', o') && (p'.bits[o'] <==> p'.area[o'] != []) {
      assert ListOk(p.area[o'], own, o') && (p.bits[o'] <==> p.area[o'] != []);
      forall g: nat ensures g in p'.area[o'] <==> g < |own'| && own'[g] == Block(g, o') {
        if f <= g < f + Pow2(o) { assert own[g] == Block(f, o); }
      }
    }
  }

  lemma RemovePages(p: Pool, own: seq<Owner>, f: nat, o: nat)
    requires Pages(p, own) && o < |p.area| == |p.bits| && BlockOk(own, f, o) && f < |own|
    ensures Pages(Removed(p, f, o), Fill(own, f, Pow2(o), Flight))
  {
    hide Pow2;
    hide Aligned;
    hide Without;
  }

  lemma RemoveSound(p: Pool, own: seq<Owner>, f: nat, o: nat)
    requires Sound(p, own) && f < |own| && own[f] == Block(f, o)
    ensures f < |p.order| && o < |p.area| == |p.bits| && f in p.area[o] && BlockOk(own, f, o)
    ensures Sound(Removed(p, f, o), Fill(own, f, Pow2(o), Flight))
  {
    RemoveBlocks(own, f, o);
    RemovePages(p, own, f, o);
    RemoveLists(p, own, f, o);
    FillCaches(p, Removed(p, f, o), own, f, Pow2(o), Flight);
  }

  // ---- Frames moving between allocations, caches and operations in progress

  lemma FillNoBlock(own: seq<Owner>, f: nat, n: nat, v: Owner)
    requires Blocks(own) && f + n <= |own| && !v.Block? && forall g | f <= g < f + n :: !own[g].Block?
    ensures Blocks(Fill(own, f, n, v))
  {
    hide Pow2;
    hide Aligned;
    var own' := Fill(own, f, n, v);
    forall g | 0 <= g < |own'| && own'[g].Block?
      ensures own'[g].head <= g < own'[g].head + Pow2(own'[g].order) && BlockOk(own', own'[g].head, own'[g].order)
    {
      var h, o' := own[g].head, own[g].order;
      assert BlockOk(own, h, o');
      forall m | h <= m < h + Pow2(o') ensures own'[m] == Block(h, o') {
        assert own[m] == Block(h, o');
      }
    }
  }

  lemma FillLists(p: Pool, p': Pool, own: seq<Owner>, f: nat, n: nat, v: Owner)
    requires Lists(p, own) && p'.area == p.area && p'.bits == p.bits && f + n <= |own| && !v.Block?
    requires forall g | f <= g < f + n :: !own[g].Block?
    ensures Lists(p', Fill(own, f, n, v))
  {
    hide NoDup;
    forall o: nat | o <= MAX_ORDER
      ensures ListOk(p'.area[o], Fill(own, f, n, v), o) && (p'.bits[o] <==> p'.area[o] != [])
    {
      assert ListOk(p.area[o], own, o) && (p.bits[o] <==> p.area[o] != []);
    }
  }

  /** The page array after the frames of a range are marked occupied or not. */
  predicate Marked(p: Pool, p': Pool, f: nat, n: nat, occ: bool) {
    p'.area == p.area && p'.bits == p.bits && |p'.order| == |p.order| && |p'.occ| == |p.occ| == |p.order| &&
    (forall g | 0 <= g < |p.order| ::
     if f <= g < f + n then p'.occ[g] == occ else p'.occ[g] == p.occ[g] && p'.order[g] == p.order[g]) &&
    (!occ ==> forall g | f <= g < f + n && g < |p.order| :: p'.order[g] == INVALID)
  }

  /** Frames in no block and no cache become allocated, or leave their allocation. */
  lemma MarkInv(p: Pool, p': Pool, own: seq<Owner>, f: nat, n: nat, occ: bool)
    requires Inv(p, own) && Marked(p, p', f, n, occ) && p'.cache == p.cache && f + n <= |own|
    requires forall g | f <= g < f + n :: own[g].Used? || own[g].Flight?
    ensures Inv(p', Fill(own, f, n, if occ then Used else Flight))
  {
    var v := if occ then Used else Flight;
    FillNoBlock(own, f, n, v);
    RemoveNoBuddies(own, f, n, v);
    FillLists(p, p', own, f, n, v);
    FillCaches(p, p', own, f, n, v);
  }

  /** A frame goes to the front of a CPU's list. */
  lemma CacheInv(p: Pool, own: seq<Owner>, f: nat, c: nat)
    requires Inv(p, own) && f < |own| && own[f] == Flight && c < |p.cache|
    ensures Inv(p.(cache := p.cache[c := [f] + p.cache[c]]), own[f := Cached(c)])
  {
    var p', own' := p.(cache := p.cache[c := [f] + p.cache[c]]), own[f := Cached(c)];
    assert own' == Fill(own, f, 1, Cached(c));
    FillNoBlock(own, f, 1, Cached(c));
    RemoveNoBuddies(own, f, 1, Cached(c));
    FillLists(p, p', own, f, 1, Cached(c));
    forall c': nat | c' < |p'.cache| ensures CacheOk(p'.cache[c'], own', c') {
      assert CacheOk(p.cache[c'], own, c');
      if c' == c { NoDupCons(f, p.cache[c]); }
    }
    hide Blocks;
    hide NoBuddies;
    hide Lists;
  }

  /** The front of a CPU's list is taken off it. */
  lemma UncacheInv(p: Pool, own: seq<Owner>, c: nat)
    requires Inv(p, own) && c < |p.cache| && p.cache[c] != []
    ensures var f := p.cache[c][0];
            f < |own| && own[f] == Cached(c) && Inv(p.(cache := p.cache[c := p.cache[c][1..]]), own[f := Flight])
  {
    var f := p.cache[c][0];
    assert CacheOk(p.cache[c], own, c) && f in p.cache[c];
    var p', own' := p.(cache := p.cache[c := p.cache[c][1..]]), own[f := Flight];
    assert own' == Fill(own, f, 1, Flight);
    FillNoBlock(own, f, 1, Flight);
    RemoveNoBuddies(own, f, 1, Flight);
    FillLists(p, p', own, f, 1, Flight);
    forall c': nat | c' < |p'.cache| ensures CacheOk(p'.cache[c'], own', c') {
      assert CacheOk(p.cache[c'], own, c');
      if c' == c { assert p.cache[c] == [f] + p.cache[c][1..]; }
    }
    hide Blocks;
    hide NoBuddies;
    hide Lists;
  }

  // ---- What an operation does to the frames, whatever blocks they end up in

  datatype Kind = Free | InCache(cpu: nat) | Taken | Moving

  function KindOf(w: Owner): Kind {
    match w
    case Block(_, _) => Free
    case Cached(c) => InCache(c)
    case Used => Taken
    case Flight => Moving
  }

  /** Frames `a..a+n` are now of kind `k`, and every other frame is of the kind it was. */
  predicate Becomes(own: seq<Owner>, own': seq<Owner>, a: nat, n: nat, k: Kind) {
    |own'| == |own| && forall g | 0 <= g < |own| :: KindOf(own'[g]) == if a <= g < a + n then k else KindOf(own[g])
  }

  function OfKind(own: seq<Owner>, k: Kind): set<nat> {
    set g: nat | g < |own| && KindOf(own[g]) == k
  }

  function Range(a: nat, n: nat): set<nat> {
    set g: nat | g < a + n && Within(g, a)
  }

  predicate Within(g: nat, a: nat) {
    a <= g
  }

  lemma {:induction false} RangeSize(a: nat, n: nat)
    ensures |Range(a, n)| == n
  {
    if n == 0 {
      assert Range(a, n) == {};
    } else {
      RangeSize(a, n - 1);
      assert Range(a, n) == Range(a, n - 1) + {a + n - 1};
    }
  }

  /** Counting frames of a kind before and after frames of a range all change kind. */
  lemma BecomesCount(own: seq<Owner>, own': seq<Owner>, a: nat, n: nat, k: Kind, k': Kind)
    requires Becomes(own, own', a, n, k') && k != k' && a + n <= |own| &&
             forall g | a <= g < a + n :: KindOf(own[g]) == k
    ensures |OfKind(own', k')| == |OfKind(own, k')| + n
    ensures |OfKind(own', k)| == |OfKind(own, k)| - n
    ensures forall j :: j != k && j != k' ==> OfKind(own', j) == OfKind(own, j)
  {
    hide Becomes;
    hide OfKind;
    hide Range;
    RangeSize(a, n);
    BecomesSets(own, own', a, n, k, k');
    SplitSize(OfKind(own', k'), OfKind(own, k'), Range(a, n));
    SplitSize(OfKind(own, k), OfKind(own', k), Range(a, n));
  }

  lemma BecomesSets(own: seq<Owner>, own': seq<Owner>, a: nat, n: nat, k: Kind, k': Kind)
    requires Becomes(own, own', a, n, k') && k != k' && a + n <= |own| &&
             forall g | a <= g < a + n :: KindOf(own[g]) == k
    ensures OfKind(own', k') == OfKind(own, k') + Range(a, n) && OfKind(own, k') !! Range(a, n)
    ensures OfKind(own, k) == OfKind(own', k) + Range(a, n) && OfKind(own', k) !! Range(a, n)
    ensures forall j :: j != k && j != k' ==> OfKind(own', j) == OfKind(own, j)
  {
    hide KindOf;
  }

  lemma SplitSize(whole: set<nat>, part: set<nat>, rest: set<nat>)
    requires whole == part + rest && part !! rest
    ensures |whole| == |part| + |rest|
  {
  }
}
