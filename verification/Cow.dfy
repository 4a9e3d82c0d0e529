/**
  * Copy-on-write address spaces: fork shares frames read-only, a write fault copies them, unmapping
  * releases them.  Leaf entries of all spaces form one map; a frame is shared by its mappers.  The
  * entries of one space whose pages share a leaf table go together when unmapping drops that table.
  */
module Cow {
  import LeafTable

  type Space = nat
  type Page = nat
  type Frame = nat
  type Bytes = s: seq<int> | |s| == PAGE_SIZE witness seq(PAGE_SIZE, _ => 0)

  const PAGE_SIZE := 4096
  const REFCOUNT_MAX := 255
  const USER_PAGES := 0x10_0000_0000

  datatype Prot = Prot(write: bool, user: bool, exec: bool)
  datatype Pte = Pte(frame: Frame, prot: Prot)
  datatype Key = Key(space: Space, page: Page)
  datatype Vma = Vma(start: Page, end: Page, write: bool, cow: bool)

  /** A page of an address space that shares nothing. */
  datatype Private = Private(bytes: Bytes, user: bool, exec: bool)

  type Table = map<Key, Pte>
  type Pages = imap<Key, Private>

  function Zeros(): Bytes { seq(PAGE_SIZE, _ => 0) }

  function Mappers(t: Table, f: Frame): set<Key> { set k | k in t && t[k].frame == f }

  /** The count of the frame behind `k` covers its mappers, and write permission means sole ownership. */
  ghost predicate Counted(t: Table, refs: seq<nat>, k: Key)
    requires k in t
  {
    t[k].frame < |refs| && refs[t[k].frame] >= |Mappers(t, t[k].frame)| &&
    forall j <- Mappers(t, t[k].frame) :: j.page == k.page && (t[k].prot.write ==> j == k)
  }

  ghost predicate Inv(t: Table, refs: seq<nat>) {
    forall k <- t :: Counted(t, refs, k)
  }

  /** References to a frame that no entry accounts for. */
  ghost function Excess(t: Table, refs: seq<nat>, f: Frame): int
    requires f < |refs|
  {
    refs[f] - |Mappers(t, f)|
  }

  ghost predicate Exact(t: Table, refs: seq<nat>) {
    forall f: Frame | f < |refs| :: Excess(t, refs, f) == 0
  }

  ghost predicate Steady(t: Table, refs: seq<nat>, t': Table, refs': seq<nat>) {
    |refs'| == |refs| && forall f: Frame | f < |refs| :: Excess(t', refs', f) == Excess(t, refs, f)
  }

  ghost predicate Leaking(t: Table, refs: seq<nat>, t': Table, refs': seq<nat>) {
    |refs'| == |refs| && forall f: Frame | f < |refs| :: Excess(t', refs', f) >= Excess(t, refs, f)
  }

  /** The entries in the leaf table that serves `at`. */
  function Leaf(t: Table, at: Key): set<Key> {
    set k | k in t && k.space == at.space && LeafTable.Same(k.page, at.page)
  }

  /** The mapped pages of a space. */
  function PagesOf(t: Table, s: Space): set<Page> { set k | k in t && k.space == s :: k.page }

  predicate InRange(t: Table, frames: nat) {
    forall k <- t :: t[k].frame < frames
  }

  /** What each address space sees. */
  ghost function Seen(t: Table, data: seq<Bytes>): Pages
    requires InRange(t, |data|)
  {
    imap k | k in t :: Private(data[t[k].frame], t[k].prot.user, t[k].prot.exec)
  }

  predicate Covered(vs: seq<Vma>, p: Page) {
    exists v <- vs :: v.start <= p < v.end
  }

  predicate Disjoint(vs: seq<Vma>) {
    (forall v <- vs :: v.start < v.end) &&
    forall i, j | 0 <= i < j < |vs| :: vs[i].end <= vs[j].start
  }

  function FindVma(vs: seq<Vma>, p: Page): (r: seq<Vma>)
    ensures |r| <= 1 && (r != [] <==> Covered(vs, p))
    ensures r != [] ==> r[0] in vs && r[0].start <= p < r[0].end
  {
    if vs == [] then []
    else if vs[0].start <= p < vs[0].end then [vs[0]]
    else assert vs == [vs[0]] + vs[1..]; FindVma(vs[1..], p)
  }

  // ----- The eager machine: every address space owns its pages -----

  datatype Eager = Eager(pages: Pages, vmas: map<Space, seq<Vma>>)

  datatype Step =
    | Fork(src: Space, dst: Space, slots: nat)
    | Fault(at: Key, write: bool, frame: Frame)
    | Store(at: Key, offset: nat, value: int)
    | Unmap(at: Key)
    | AddVma(space: Space, vma: Vma)

  /** Copying the pages of `src` that lie in `ps` into `dst`. */
  ghost function Copied(pages: Pages, src: Space, dst: Space, ps: iset<Page>): Pages {
    imap k: Key | k in pages || (k.space == dst && Key(src, k.page) in pages && k.page in ps)
      :: if k in pages then pages[k] else pages[Key(src, k.page)]
  }

  ghost function Area(vs: seq<Vma>): iset<Page> { iset p: Page | Covered(vs, p) }

  ghost function Span(lo: Page, hi: Page): iset<Page> { iset p: Page | Between(lo, p, hi) }

  predicate Between(lo: Page, p: Page, hi: Page) { lo <= p < hi }

  function Marked(vs: seq<Vma>): (r: seq<Vma>)
    ensures |r| == |vs| && forall i | 0 <= i < |vs| :: r[i] == vs[i].(cow := true)
  {
    seq(|vs|, i requires 0 <= i < |vs| => vs[i].(cow := true))
  }

  function Min(a: nat, b: nat): nat { if a < b then a else b }

  ghost function EagerFork(e: Eager, src: Space, dst: Space, slots: nat): Eager {
    if src !in e.vmas || dst in e.vmas then e
    else
      var vs := e.vmas[src][..Min(slots, |e.vmas[src]|)];
      Eager(Copied(e.pages, src, dst, Area(vs)), e.vmas[dst := Marked(vs)])
  }

  ghost function EagerFault(e: Eager, at: Key, resumed: bool): Eager {
    if resumed && at !in e.pages then e.(pages := e.pages[at := Private(Zeros(), true, false)]) else e
  }

  ghost function EagerStore(e: Eager, at: Key, offset: nat, value: int, done: bool): Eager {
    if done && at in e.pages && offset < PAGE_SIZE
    then e.(pages := e.pages[at := e.pages[at].(bytes := e.pages[at].bytes[offset := value])])
    else e
  }

  predicate Fits(vs: seq<Vma>, v: Vma) {
    v.start < v.end && forall w <- vs :: w.end <= v.start || v.end <= w.start
  }

  function AddSorted(vs: seq<Vma>, v: Vma): seq<Vma> {
    if vs == [] then [v]
    else if vs[0].start <= v.start then [vs[0]] + AddSorted(vs[1..], v)
    else [v] + vs
  }

  function WithVma(vmas: map<Space, seq<Vma>>, s: Space, v: Vma): map<Space, seq<Vma>> {
    if s !in vmas then (if v.start < v.end then vmas[s := [v]] else vmas)
    else if Fits(vmas[s], v) then vmas[s := AddSorted(vmas[s], v)] else vmas
  }

  ghost function EagerStep(e: Eager, step: Step, ok: bool): Eager {
    match step
    case Fork(src, dst, slots) => EagerFork(e, src, dst, slots)
    case Fault(at, _, _) => EagerFault(e, at, ok)
    case Store(at, offset, value) => EagerStore(e, at, offset, value, ok)
    case Unmap(at) => e.(pages := e.pages - {at})
    case AddVma(s, v) => e.(vmas := WithVma(e.vmas, s, v))
  }

  /** How a step ended: whether it succeeded, and whether an unmap took more than its page. */
  datatype Outcome = Outcome(ok: bool, lost: bool)

  ghost function EagerRun(e: Eager, steps: seq<Step>, log: seq<Outcome>): Eager
    requires |steps| == |log|
  {
    if steps == [] then e
    else EagerStep(EagerRun(e, steps[..|steps| - 1], log[..|log| - 1]), steps[|steps| - 1], log[|log| - 1].ok)
  }

  /** The pages outside the leaf table that serves `at`. */
  ghost function WithoutLeaf(pages: Pages, at: Key): Pages {
    imap k: Key | k in pages && !(k.space == at.space && LeafTable.Same(k.page, at.page)) :: pages[k]
  }

  ghost function LossyStep(e: Eager, step: Step, o: Outcome): Eager {
    if o.lost && step.Unmap? then e.(pages := WithoutLeaf(e.pages, step.at)) else EagerStep(e, step, o.ok)
  }

  /** A machine between two steps. */
  datatype Shot = Shot(table: Table, refs: seq<nat>, view: Eager)

  /** An unmap that meets a leaf table whose one-byte count reads zero although other pages live in it. */
  ghost predicate Meets(t: Table, step: Step) {
    step.Unmap? && step.at in t && LeafTable.Crowded(|LeafTable.Served(PagesOf(t, step.at.space), step.at.page)|)
  }

  /** A fork that would share a page whose count is at its maximum. */
  ghost predicate Saturated(sh: Shot, step: Step) {
    step.Fork? && InRange(sh.table, |sh.refs|) && step.src in sh.view.vmas && step.dst !in sh.view.vmas &&
    var vs := sh.view.vmas[step.src];
    Blocked(sh.table, sh.refs, step.src, Area(vs[..Min(step.slots, |vs|)]))
  }

  ghost predicate Linked(a: Shot, step: Step, o: Outcome, b: Shot) {
    (forall k :: k in a.view.pages <==> k in a.table) &&
    b.view == LossyStep(a.view, step, o) &&
    (o.lost <==> Meets(a.table, step)) &&
    if o.lost then Leaking(a.table, a.refs, b.table, b.refs) && !Steady(a.table, a.refs, b.table, b.refs)
    else Steady(a.table, a.refs, b.table, b.refs)
  }

  ghost predicate Trace(shots: seq<Shot>, steps: seq<Step>, log: seq<Outcome>) {
    |steps| == |log| && |shots| == |log| + 1 &&
    forall i | 0 <= i < |log| :: Linked(shots[i], steps[i], log[i], shots[i + 1])
  }

  ghost predicate NoneLost(log: seq<Outcome>) { forall o <- log :: !o.lost }

  /** Spaces that a step can change. */
  predicate Touches(step: Step, s: Space) {
    match step
    case Fork(src, dst, _) => dst == s
    case Fault(at, _, _) => at.space == s
    case Store(at, _, _) => at.space == s
    case Unmap(at) => at.space == s
    case AddVma(space, _) => space == s
  }

  predicate Untouched(steps: seq<Step>, s: Space) { forall step <- steps :: !Touches(step, s) }

  ghost predicate SameAt(a: Pages, b: Pages, k: Key) { (k in b <==> k in a) && (k in a ==> b[k] == a[k]) }

  // ----- Runs -----

  lemma TraceInit(shots: seq<Shot>, steps: seq<Step>, log: seq<Outcome>)
    requires Trace(shots, steps, log) && log != []
    ensures Trace(shots[..|log|], steps[..|log| - 1], log[..|log| - 1])
  {
    hide Linked;
  }

  lemma TraceNext(shots: seq<Shot>, steps: seq<Step>, log: seq<Outcome>, o: Outcome, b: Shot)
    requires |log| < |steps| && Trace(shots, steps[..|log|], log) && Linked(shots[|log|], steps[|log|], o, b)
    ensures Trace(shots + [b], steps[..|log| + 1], log + [o])
  {
    hide Linked;
  }

  /** An unmap of a crowded leaf table takes another page with it. */
  lemma LostMore(a: Shot, step: Step, o: Outcome, b: Shot)
    requires Linked(a, step, o, b) && o.lost
    ensures b.view != EagerStep(a.view, step, o.ok)
    ensures exists k ::
              k != step.at && k in a.view.pages && k !in b.view.pages && k in EagerStep(a.view, step, o.ok).pages
  {
    hide Steady;
    hide Leaking;
    var m := PagesOf(a.table, step.at.space);
    var g := LeafTable.Served(m, step.at.page);
    assert |g - {step.at.page}| >= |g| - 1;
    var p :| p in g - {step.at.page};
    var k := Key(step.at.space, p);
    assert k in a.table && k in a.view.pages;
    assert k in EagerStep(a.view, step, o.ok).pages && k !in b.view.pages;
  }

  lemma Prefixes(steps: seq<Step>, n: nat)
    requires n <= |steps|
    ensures forall i | 0 <= i <= n :: steps[..n][..i] == steps[..i]
  {
  }

  /** Each state is the copying machine's exactly when no unmap met a crowded leaf table. */
  lemma {:induction false} Simulates(shots: seq<Shot>, steps: seq<Step>, log: seq<Outcome>)
    requires Trace(shots, steps, log)
    ensures NoneLost(log) <==>
            forall i | 0 <= i <= |log| :: shots[i].view == EagerRun(shots[0].view, steps[..i], log[..i])
  {
    hide Linked;
    hide EagerStep;
    if NoneLost(log) {
      forall i | 0 <= i <= |log| ensures shots[i].view == EagerRun(shots[0].view, steps[..i], log[..i]) {
        Follows(shots, steps, log, i);
      }
    } else {
      var i :| 0 <= i < |log| && log[i].lost;
      LostMore(shots[i], steps[i], log[i], shots[i + 1]);
      RunNext(shots[0].view, steps, log, i);
      assert 0 <= i <= |log|;
      assert 0 <= i + 1 <= |log|;
    }
  }

  lemma RunNext(e: Eager, steps: seq<Step>, log: seq<Outcome>, i: nat)
    requires i < |log| == |steps|
    ensures EagerRun(e, steps[..i + 1], log[..i + 1]) ==
            EagerStep(EagerRun(e, steps[..i], log[..i]), steps[i], log[i].ok)
  {
    assert steps[..i + 1][..i] == steps[..i] && log[..i + 1][..i] == log[..i];
  }

  lemma {:induction false} Follows(shots: seq<Shot>, steps: seq<Step>, log: seq<Outcome>, i: nat)
    requires Trace(shots, steps, log) && i <= |log| && NoneLost(log)
    ensures shots[i].view == EagerRun(shots[0].view, steps[..i], log[..i])
  {
    hide EagerStep;
    hide Steady;
    hide Meets;
    if i > 0 {
      Follows(shots, steps, log, i - 1);
      assert log[i - 1] in log && Linked(shots[i - 1], steps[i - 1], log[i - 1], shots[i]);
      RunNext(shots[0].view, steps, log, i - 1);
    }
  }

  /** Counts account for every reference at the end exactly when no unmap met a crowded leaf table. */
  lemma {:induction false} Accounts(shots: seq<Shot>, steps: seq<Step>, log: seq<Outcome>)
    requires Trace(shots, steps, log)
    ensures Leaking(shots[0].table, shots[0].refs, shots[|log|].table, shots[|log|].refs)
    ensures NoneLost(log) <==> Steady(shots[0].table, shots[0].refs, shots[|log|].table, shots[|log|].refs)
  {
    hide Excess;
    if log != [] {
      var n := |log| - 1;
      var a, m, b := shots[0], shots[n], shots[n + 1];
      TraceInit(shots, steps, log);
      Accounts(shots[..|log|], steps[..n], log[..n]);
      assert Linked(m, steps[n], log[n], b);
      assert log == log[..n] + [log[n]];
      LeakTwice(a.table, a.refs, m.table, m.refs, b.table, b.refs);
    }
  }

  lemma StillExact(t: Table, refs: seq<nat>, t': Table, refs': seq<nat>)
    requires Leaking(t, refs, t', refs')
    ensures Exact(t, refs) ==> (Exact(t', refs') <==> Steady(t, refs, t', refs'))
  {
    hide Excess;
  }

  lemma LeakTwice(t: Table, refs: seq<nat>, t': Table, refs': seq<nat>, t'': Table, refs'': seq<nat>)
    requires Leaking(t, refs, t', refs') && Leaking(t', refs', t'', refs'')
    ensures Leaking(t, refs, t'', refs'')
    ensures Steady(t, refs, t'', refs'') <==> Steady(t, refs, t', refs') && Steady(t', refs', t'', refs'')
  {
    hide Excess;
  }

  /** No run changes what a space sees unless a step addresses that space. */
  lemma {:induction false} Isolated(shots: seq<Shot>, steps: seq<Step>, log: seq<Outcome>, k: Key)
    requires Trace(shots, steps, log) && Untouched(steps, k.space)
    ensures SameAt(shots[0].view.pages, shots[|log|].view.pages, k)
  {
    hide Steady;
    hide Leaking;
    hide Meets;
    if log != [] {
      var n := |log| - 1;
      TraceInit(shots, steps, log);
      assert steps[n] in steps;
      assert Linked(shots[n], steps[n], log[n], shots[n + 1]);
      Isolated(shots[..|log|], steps[..n], log[..n], k);
    }
  }

  // ----- How the mappers of a frame change -----

  lemma AddMapper(t: Table, k: Key, e: Pte, f: Frame)
    requires k !in t
    ensures Mappers(t[k := e], f) == Mappers(t, f) + (if f == e.frame then {k} else {})
    ensures k !in Mappers(t, f)
  {
  }

  lemma DropMapper(t: Table, k: Key, f: Frame)
    requires k in t
    ensures Mappers(t - {k}, f) == Mappers(t, f) - (if f == t[k].frame then {k} else {})
  {
  }

  lemma Reprotect(t: Table, k: Key, p: Prot, f: Frame)
    requires k in t
    ensures Mappers(t[k := Pte(t[k].frame, p)], f) == Mappers(t, f)
  {
  }

  /** A frame whose count is zero is mapped nowhere. */
  lemma Unmapped(t: Table, refs: seq<nat>, f: Frame)
    requires Inv(t, refs) && f < |refs| && refs[f] == 0
    ensures Mappers(t, f) == {}
  {
    forall k <- t ensures t[k].frame != f {
      assert Counted(t, refs, k);
      assert t[k].frame == f ==> k in Mappers(t, f);
    }
  }

  lemma MapFresh(t: Table, refs: seq<nat>, k: Key, e: Pte)
    requires Inv(t, refs) && k !in t && e.frame < |refs| && refs[e.frame] == 0
    ensures Inv(t[k := e], refs[e.frame := 1])
  {
    var t', refs' := t[k := e], refs[e.frame := 1];
    Unmapped(t, refs, e.frame);
    forall j <- t' ensures Counted(t', refs', j) {
      AddMapper(t, k, e, t'[j].frame);
      if j != k {
        assert Counted(t, refs, j);
      }
    }
  }

  lemma Release(t: Table, refs: seq<nat>, k: Key)
    requires Inv(t, refs) && k in t
    ensures t[k].frame < |refs| && refs[t[k].frame] > 0
    ensures Inv(t - {k}, refs[t[k].frame := refs[t[k].frame] - 1])
  {
    assert Counted(t, refs, k);
    assert k in Mappers(t, t[k].frame);
    var t', refs' := t - {k}, refs[t[k].frame := refs[t[k].frame] - 1];
    forall j <- t' ensures Counted(t', refs', j) {
      DropMapper(t, k, t'[j].frame);
      assert Counted(t, refs, j);
    }
  }

  /** A sole mapper may be made writable. */
  lemma Grant(t: Table, refs: seq<nat>, k: Key)
    requires Inv(t, refs) && k in t && t[k].frame < |refs| && refs[t[k].frame] <= 1
    ensures Inv(t[k := Pte(t[k].frame, t[k].prot.(write := true))], refs)
  {
    var t' := t[k := Pte(t[k].frame, t[k].prot.(write := true))];
    assert Counted(t, refs, k);
    Sole(Mappers(t, t[k].frame), k);
    forall j <- t' ensures Counted(t', refs, j) {
      Reprotect(t, k, t[k].prot.(write := true), t'[j].frame);
      assert Counted(t, refs, j);
      assert j in Mappers(t, t[j].frame);
    }
  }

  lemma Sole(s: set<Key>, k: Key)
    requires k in s && |s| <= 1
    ensures s == {k}
  {
    assert |s - {k}| == 0;
  }

  function Shared(t: Table, src: Key, dst: Key): Table
    requires src in t
  {
    t[dst := Pte(t[src].frame, t[src].prot.(write := false))][src := Pte(t[src].frame, t[src].prot.(write := false))]
  }

  lemma SharedMappers(t: Table, src: Key, dst: Key, f: Frame)
    requires src in t && dst !in t
    ensures Mappers(Shared(t, src, dst), f) == Mappers(t, f) + (if f == t[src].frame then {dst} else {})
    ensures dst !in Mappers(t, f)
  {
  }

  lemma Share(t: Table, refs: seq<nat>, src: Key, dst: Key)
    requires Inv(t, refs) && src in t && dst !in t && dst.page == src.page
    ensures t[src].frame < |refs| && refs[t[src].frame] > 0
    ensures Inv(Shared(t, src, dst), refs[t[src].frame := refs[t[src].frame] + 1])
  {
    assert Counted(t, refs, src);
    assert src in Mappers(t, t[src].frame);
    var t', refs' := Shared(t, src, dst), refs[t[src].frame := refs[t[src].frame] + 1];
    forall j <- t' ensures Counted(t', refs', j) {
      SharedMappers(t, src, dst, t'[j].frame);
      if j != dst {
        assert Counted(t, refs, j);
        assert j in Mappers(t, t[j].frame);
      }
    }
  }

  // ----- How the references that no entry accounts for change -----

  lemma SteadyMap(t: Table, refs: seq<nat>, k: Key, e: Pte)
    requires Inv(t, refs) && k !in t && e.frame < |refs| && refs[e.frame] == 0
    ensures Steady(t, refs, t[k := e], refs[e.frame := 1])
  {
    Unmapped(t, refs, e.frame);
    forall f: Frame | f < |refs| ensures Excess(t[k := e], refs[e.frame := 1], f) == Excess(t, refs, f) {
      AddMapper(t, k, e, f);
    }
  }

  lemma SteadyDrop(t: Table, refs: seq<nat>, k: Key)
    requires Inv(t, refs) && k in t && t[k].frame < |refs| && refs[t[k].frame] > 0
    ensures Steady(t, refs, t - {k}, refs[t[k].frame := refs[t[k].frame] - 1])
  {
    forall f: Frame | f < |refs|
      ensures Excess(t - {k}, refs[t[k].frame := refs[t[k].frame] - 1], f) == Excess(t, refs, f)
    {
      DropMapper(t, k, f);
      assert k in Mappers(t, t[k].frame);
    }
  }

  lemma SteadyGrant(t: Table, refs: seq<nat>, k: Key, p: Prot)
    requires k in t
    ensures Steady(t, refs, t[k := Pte(t[k].frame, p)], refs)
  {
    forall f: Frame | f < |refs| ensures Excess(t[k := Pte(t[k].frame, p)], refs, f) == Excess(t, refs, f) {
      Reprotect(t, k, p, f);
    }
  }

  lemma SteadyShare(t: Table, refs: seq<nat>, src: Key, dst: Key)
    requires src in t && dst !in t && t[src].frame < |refs|
    ensures Steady(t, refs, Shared(t, src, dst), refs[t[src].frame := refs[t[src].frame] + 1])
  {
    forall f: Frame | f < |refs|
      ensures Excess(Shared(t, src, dst), refs[t[src].frame := refs[t[src].frame] + 1], f) == Excess(t, refs, f)
    {
      SharedMappers(t, src, dst, f);
    }
  }

  lemma SteadySame(t: Table, refs: seq<nat>)
    ensures Steady(t, refs, t, refs)
  {
  }

  lemma SteadyTwice(t: Table, refs: seq<nat>, t': Table, refs': seq<nat>, t'': Table, refs'': seq<nat>)
    requires Steady(t, refs, t', refs') && Steady(t', refs', t'', refs'')
    ensures Steady(t, refs, t'', refs'')
  {
    hide Excess;
  }

  lemma DropMappers(t: Table, g: set<Key>, f: Frame)
    ensures Mappers(t - g, f) == Mappers(t, f) - g
  {
  }

  /** Dropping a leaf table while one of its frames is released: the invariant stays, the other references leak. */
  lemma ReleaseLeaf(t: Table, refs: seq<nat>, at: Key, g: set<Key>)
    requires Inv(t, refs) && at in g && g <= t.Keys && t[at].frame < |refs| && refs[t[at].frame] > 0
    ensures Inv(t - g, refs[t[at].frame := refs[t[at].frame] - 1])
  {
    var t', refs' := t - g, refs[t[at].frame := refs[t[at].frame] - 1];
    forall j <- t' ensures Counted(t', refs', j) {
      var f := t[j].frame;
      DropMappers(t, g, f);
      assert Counted(t, refs, j);
      FewerKeys(Mappers(t, f), g, at);
    }
  }

  lemma FewerKeys(s: set<Key>, g: set<Key>, k: Key)
    ensures |s - g| <= |s|
    ensures k in s && k in g ==> |s - g| <= |s| - 1
    ensures forall j <- s :: j in g && j != k && k in g ==> |s - g| <= |s - {k}| - 1
  {
    assert s == (s - g) + (s * g);
    if k in g {
      assert s - {k} == (s - g) + (s * g - {k});
      forall j <- s | j in g && j != k ensures |s - g| <= |s - {k}| - 1 {
        assert j in s * g - {k};
      }
      if k in s {
        assert k in s * g;
      }
    }
  }

  lemma LeafLeaks(t: Table, refs: seq<nat>, at: Key, g: set<Key>, other: Key)
    requires Inv(t, refs) && at in g && g <= t.Keys && t[at].frame < |refs| && refs[t[at].frame] > 0
    requires other in g && other != at
    ensures var refs' := refs[t[at].frame := refs[t[at].frame] - 1];
            Leaking(t, refs, t - g, refs') && !Steady(t, refs, t - g, refs') &&
            t[other].frame < |refs| && Excess(t - g, refs', t[other].frame) > Excess(t, refs, t[other].frame)
  {
    var t', refs' := t - g, refs[t[at].frame := refs[t[at].frame] - 1];
    forall f: Frame | f < |refs| ensures Excess(t', refs', f) >= Excess(t, refs, f) {
      DropMappers(t, g, f);
      FewerKeys(Mappers(t, f), g, at);
      assert at in Mappers(t, t[at].frame);
    }
    var f := t[other].frame;
    assert Counted(t, refs, other);
    DropMappers(t, g, f);
    FewerKeys(Mappers(t, f), g, at);
    assert other in Mappers(t, f) && at in Mappers(t, t[at].frame);
    assert Excess(t', refs', f) > Excess(t, refs, f);
  }

  // ----- The leaf table of a page -----

  function PagesIn(ks: set<Key>): set<Page> { set k | k in ks :: k.page }

  lemma {:induction false} ImageSize(ks: set<Key>, s: Space)
    requires forall k <- ks :: k.space == s
    ensures |PagesIn(ks)| == |ks|
  {
    if ks != {} {
      var x :| x in ks;
      ImageSize(ks - {x}, s);
      var ps := PagesIn(ks - {x});
      assert PagesIn(ks) == ps + {x.page};
      assert forall k <- ks - {x} :: k == Key(s, k.page);
      assert x == Key(s, x.page) && x.page !in ps;
    }
  }

  lemma LeafServed(t: Table, at: Key)
    ensures |Leaf(t, at)| == |LeafTable.Served(PagesOf(t, at.space), at.page)|
  {
    hide LeafTable.Same;
    ImageSize(Leaf(t, at), at.space);
    var img := PagesIn(Leaf(t, at));
    var served := LeafTable.Served(PagesOf(t, at.space), at.page);
    forall p | p in served ensures p in img {
      assert Key(at.space, p) in Leaf(t, at);
    }
    assert img == served;
  }

  lemma NoPage(t: Table, at: Key)
    requires at !in t
    ensures at.page !in PagesOf(t, at.space)
  {
    assert forall k <- t :: k == Key(k.space, k.page);
  }

  lemma PageMapped(t: Table, at: Key)
    requires at in t
    ensures at.page in PagesOf(t, at.space)
  {
  }

  lemma LeafPages(t: Table, at: Key)
    requires at in t
    ensures PagesOf(t - Leaf(t, at), at.space) ==
            PagesOf(t, at.space) - LeafTable.Served(PagesOf(t, at.space), at.page)
    ensures PagesOf(t - {at}, at.space) == PagesOf(t, at.space) - {at.page}
  {
    hide LeafTable.Same;
    var m, served := PagesOf(t, at.space), LeafTable.Served(PagesOf(t, at.space), at.page);
    forall p | p in m ensures Key(at.space, p) in t {
    }
    forall p | p in m - served ensures p in PagesOf(t - Leaf(t, at), at.space) {
      assert Key(at.space, p) in t - Leaf(t, at);
    }
    forall p | p in m - {at.page} ensures p in PagesOf(t - {at}, at.space) {
      assert Key(at.space, p) in t - {at};
    }
    forall p | p in PagesOf(t - {at}, at.space) ensures p in m && p != at.page {
      assert Key(at.space, p) in t - {at};
    }
  }

  lemma LeafOther(t: Table, at: Key)
    requires at in t
    ensures at in Leaf(t, at) && Leaf(t, at) <= t.Keys
    ensures |Leaf(t, at)| <= LeafTable.ENTRIES
    ensures |Leaf(t, at)| >= 2 ==> exists k :: k in Leaf(t, at) && k != at
    ensures |Leaf(t, at)| == 1 ==> Leaf(t, at) == {at}
  {
    LeafServed(t, at);
    LeafTable.ServedBound(PagesOf(t, at.space), at.page);
    var g := Leaf(t, at);
    assert at in g;
    if |g| >= 2 {
      assert |g - {at}| == |g| - 1;
      var k :| k in g - {at};
    } else {
      Sole(g, at);
    }
  }

  lemma SeenDropLeaf(t: Table, data: seq<Bytes>, at: Key)
    requires InRange(t, |data|)
    ensures InRange(t - Leaf(t, at), |data|) && Seen(t - Leaf(t, at), data) == WithoutLeaf(Seen(t, data), at)
  {
  }

  lemma CopiedTwice(pages: Pages, src: Space, dst: Space, a: iset<Page>, b: iset<Page>)
    requires src != dst
    ensures Copied(Copied(pages, src, dst, a), src, dst, b) == Copied(pages, src, dst, a + b)
  {
  }

  lemma CopiedNone(pages: Pages, src: Space, dst: Space, p: Page)
    ensures Copied(pages, src, dst, Span(p, p)) == pages
  {
  }

  lemma AreaNext(vs: seq<Vma>, i: nat)
    requires i < |vs|
    ensures Area(vs[..i + 1]) == Area(vs[..i]) + Span(vs[i].start, vs[i].end)
  {
    assert vs[..i + 1] == vs[..i] + [vs[i]];
  }

  // ----- How what is seen changes -----

  lemma SeenShare(t: Table, data: seq<Bytes>, src: Space, dst: Space, p: Page)
    requires InRange(t, |data|) && src != dst && Key(dst, p) !in t && Key(src, p) in t
    ensures InRange(Shared(t, Key(src, p), Key(dst, p)), |data|)
    ensures Seen(Shared(t, Key(src, p), Key(dst, p)), data) == Copied(Seen(t, data), src, dst, iset{p})
  {
  }

  lemma SeenAbsent(t: Table, data: seq<Bytes>, src: Space, dst: Space, p: Page)
    requires InRange(t, |data|) && Key(src, p) !in t
    ensures Seen(t, data) == Copied(Seen(t, data), src, dst, iset{p})
  {
  }

  /** Filling a frame that nobody maps and pointing `k` at it. */
  lemma SeenMap(t: Table, refs: seq<nat>, data: seq<Bytes>, k: Key, e: Pte, b: Bytes)
    requires Inv(t, refs) && |refs| == |data| && e.frame < |refs| && refs[e.frame] == 0
    ensures InRange(t[k := e], |data|)
    ensures Seen(t[k := e], data[e.frame := b]) == Seen(t, data)[k := Private(b, e.prot.user, e.prot.exec)]
  {
    Unmapped(t, refs, e.frame);
    forall j <- t ensures t[j].frame != e.frame && t[j].frame < |data| {
      assert Counted(t, refs, j);
      assert j !in Mappers(t, e.frame);
    }
  }

  lemma SeenStore(t: Table, refs: seq<nat>, data: seq<Bytes>, k: Key, b: Bytes)
    requires Inv(t, refs) && |refs| == |data| && k in t && t[k].prot.write
    ensures t[k].frame < |data|
    ensures Seen(t, data[t[k].frame := b]) == Seen(t, data)[k := Private(b, t[k].prot.user, t[k].prot.exec)]
  {
    assert Counted(t, refs, k);
    forall j <- t | j != k ensures t[j].frame != t[k].frame {
      assert j !in Mappers(t, t[k].frame);
    }
  }

  lemma InvInRange(t: Table, refs: seq<nat>)
    requires Inv(t, refs)
    ensures InRange(t, |refs|)
  {
    forall k <- t ensures t[k].frame < |refs| {
      assert Counted(t, refs, k);
    }
  }

  /** Replacing a shared frame by a private copy. */
  lemma Unshare(t: Table, refs: seq<nat>, k: Key, e: Pte)
    requires Inv(t, refs) && k in t && e.frame < |refs| && refs[e.frame] == 0
    ensures t[k].frame < |refs| && refs[t[k].frame] > 0
    ensures Inv(t[k := e], refs[e.frame := 1][t[k].frame := refs[t[k].frame] - 1])
    ensures Steady(t, refs, t[k := e], refs[e.frame := 1][t[k].frame := refs[t[k].frame] - 1])
  {
    hide Inv;
    hide Steady;
    Release(t, refs, k);
    var t', refs' := t - {k}, refs[t[k].frame := refs[t[k].frame] - 1];
    MapFresh(t', refs', k, e);
    SteadyDrop(t, refs, k);
    SteadyMap(t', refs', k, e);
    SteadyTwice(t, refs, t', refs', t'[k := e], refs'[e.frame := 1]);
    SwapUpdates(refs, t[k].frame, refs[t[k].frame] - 1, e.frame, 1);
    assert (t - {k})[k := e] == t[k := e];
  }

  lemma SwapUpdates(s: seq<nat>, i: nat, x: nat, j: nat, y: nat)
    requires i < |s| && j < |s| && i != j
    ensures s[i := x][j := y] == s[j := y][i := x]
  {
  }

  /** The frame behind a page cannot be shared once more. */
  predicate Full(t: Table, refs: seq<nat>, k: Key)
    requires InRange(t, |refs|)
  {
    k in t && refs[t[k].frame] >= REFCOUNT_MAX
  }

  /** Sharing one page leaves the counts behind the other pages alone. */
  lemma ShareCounts(t: Table, refs: seq<nat>, src: Key, dst: Key, k: Key)
    requires Inv(t, refs) && src in t && dst !in t && k.page != src.page && dst.page == src.page
    ensures InRange(t, |refs|) && InRange(Shared(t, src, dst), |refs|)
    ensures k in Shared(t, src, dst) <==> k in t
    ensures Full(Shared(t, src, dst), refs[t[src].frame := refs[t[src].frame] + 1], k) <==> Full(t, refs, k)
  {
    InvInRange(t, refs);
    assert Counted(t, refs, src);
    assert k !in Mappers(t, t[src].frame);
  }

  /** Only pages `lo` to `hi` of `dst` are new, and counts elsewhere allow as much sharing as before. */
  ghost predicate Grown(t: Table, refs: seq<nat>, t': Table, refs': seq<nat>, dst: Space, lo: Page, hi: Page) {
    InRange(t, |refs|) && InRange(t', |refs'|) && Steady(t, refs, t', refs') &&
    (forall k <- t' :: k in t || (k.space == dst && Between(lo, k.page, hi))) &&
    forall k: Key | !Between(lo, k.page, hi) :: Full(t', refs', k) == Full(t, refs, k)
  }

  lemma GrownMore(t: Table, refs: seq<nat>, t': Table, refs': seq<nat>, t'': Table, refs'': seq<nat>, dst: Space,
                  lo: Page, p: Page, hi: Page)
    requires lo <= p <= hi && Grown(t, refs, t', refs', dst, lo, p) && Grown(t', refs', t'', refs'', dst, p, hi)
    ensures Grown(t, refs, t'', refs'', dst, lo, hi)
  {
    hide Full;
    hide Steady;
    SteadyTwice(t, refs, t', refs', t'', refs'');
  }

  lemma GrownSame(t: Table, refs: seq<nat>, dst: Space, p: Page)
    requires InRange(t, |refs|)
    ensures Grown(t, refs, t, refs, dst, p, p + 1)
  {
    SteadySame(t, refs);
  }

  lemma ShareGrown(t: Table, refs: seq<nat>, src: Space, dst: Space, p: Page)
    requires Inv(t, refs) && Key(src, p) in t && Key(dst, p) !in t && InRange(t, |refs|)
    ensures Grown(t, refs, Shared(t, Key(src, p), Key(dst, p)),
                  refs[t[Key(src, p)].frame := refs[t[Key(src, p)].frame] + 1], dst, p, p + 1)
  {
    var t', refs' := Shared(t, Key(src, p), Key(dst, p)), refs[t[Key(src, p)].frame := refs[t[Key(src, p)].frame] + 1];
    hide Steady;
    ShareCounts(t, refs, Key(src, p), Key(dst, p), Key(src, p + 1));
    SteadyShare(t, refs, Key(src, p), Key(dst, p));
    forall k: Key | !Between(p, k.page, p + 1) ensures Full(t', refs', k) == Full(t, refs, k) {
      ShareCounts(t, refs, Key(src, p), Key(dst, p), k);
    }
  }

  lemma GrownNone(t: Table, refs: seq<nat>, dst: Space, p: Page)
    requires InRange(t, |refs|)
    ensures Grown(t, refs, t, refs, dst, p, p)
  {
    hide Full;
    hide Steady;
    SteadySame(t, refs);
  }

  lemma GrownAt(t: Table, refs: seq<nat>, t': Table, refs': seq<nat>, dst: Space, lo: Page, p: Page, src: Space)
    requires Grown(t, refs, t', refs', dst, lo, p) && InRange(t', |refs'|) && InRange(t, |refs|)
    ensures Full(t', refs', Key(src, p)) == Full(t, refs, Key(src, p))
    ensures Key(dst, p) in t' ==> Key(dst, p) in t
    ensures Clear(t, dst, p, p + 1) ==> Key(dst, p) !in t'
  {
    hide Steady;
  }

  lemma SpanNext(lo: Page, p: Page)
    requires lo <= p
    ensures Span(lo, p) + iset{p} == Span(lo, p + 1)
  {
  }

  /** Some page of the range cannot be shared once more. */
  ghost predicate Blocked(t: Table, refs: seq<nat>, src: Space, ps: iset<Page>)
    requires InRange(t, |refs|)
  {
    exists p: Page :: p in ps && Full(t, refs, Key(src, p))
  }

  lemma BlockedNext(t: Table, refs: seq<nat>, src: Space, lo: Page, p: Page)
    requires InRange(t, |refs|) && lo <= p
    ensures Blocked(t, refs, src, Span(lo, p + 1)) <==> Blocked(t, refs, src, Span(lo, p)) || Full(t, refs, Key(src, p))
    ensures !Blocked(t, refs, src, Span(p, p))
  {
    hide Full;
    if Full(t, refs, Key(src, p)) {
      assert p in Span(lo, p + 1);
    }
    if Blocked(t, refs, src, Span(lo, p)) {
      var q :| q in Span(lo, p) && Full(t, refs, Key(src, q));
      assert q in Span(lo, p + 1);
    }
  }

  lemma BlockedMore(t: Table, refs: seq<nat>, src: Space, a: iset<Page>, b: iset<Page>)
    requires InRange(t, |refs|)
    ensures Blocked(t, refs, src, a) ==> Blocked(t, refs, src, a + b)
  {
    hide Full;
    if Blocked(t, refs, src, a) {
      var q :| q in a && Full(t, refs, Key(src, q));
      assert q in a + b;
    }
  }

  lemma {:induction false} BlockedSpan(t: Table, refs: seq<nat>, src: Space, lo: Page, p: Page, hi: Page)
    requires InRange(t, |refs|) && lo <= p <= hi && Blocked(t, refs, src, Span(lo, p))
    ensures Blocked(t, refs, src, Span(lo, hi))
  {
    BlockedMore(t, refs, src, Span(lo, p), Span(p, hi));
    assert Span(lo, p) + Span(p, hi) == Span(lo, hi);
  }

  lemma AddSortedHas(vs: seq<Vma>, v: Vma)
    ensures forall w :: w in AddSorted(vs, v) <==> w == v || w in vs
  {
    if vs != [] && vs[0].start <= v.start {
      assert vs == [vs[0]] + vs[1..];
      AddSortedHas(vs[1..], v);
    }
  }

  lemma AddSortedDisjoint(vs: seq<Vma>, v: Vma)
    requires Disjoint(vs) && Fits(vs, v)
    ensures Disjoint(AddSorted(vs, v))
  {
    if vs != [] && vs[0].start <= v.start {
      var r := vs[1..];
      assert vs == [vs[0]] + r;
      assert forall w <- r :: vs[0].end <= w.start;
      AddSortedDisjoint(r, v);
      AddSortedHas(r, v);
      ConsDisjoint(vs[0], AddSorted(r, v));
    } else {
      assert forall w <- vs :: v.end <= w.start;
      ConsDisjoint(v, vs);
    }
  }

  lemma ConsDisjoint(v: Vma, r: seq<Vma>)
    requires v.start < v.end && Disjoint(r) && forall w <- r :: v.end <= w.start
    ensures Disjoint([v] + r)
  {
  }

  predicate Known(t: Table, vmas: map<Space, seq<Vma>>) {
    forall k <- t :: k.space in vmas
  }

  predicate AllDisjoint(vmas: map<Space, seq<Vma>>) {
    forall s <- vmas :: Disjoint(vmas[s])
  }

  predicate Clear(t: Table, dst: Space, lo: Page, hi: Page) {
    forall k <- t :: !(k.space == dst && Between(lo, k.page, hi))
  }

  lemma ClearAt(t: Table, dst: Space, lo: Page, p: Page, hi: Page)
    requires Clear(t, dst, lo, hi) && lo <= p < hi
    ensures Clear(t, dst, p, p + 1)
  {
  }

  predicate Free(refs: seq<nat>, f: Frame) { f < |refs| && refs[f] == 0 }

  /** A not-present page can be filled: an area covers it and a frame is free. */
  predicate CanFill(vmas: map<Space, seq<Vma>>, refs: seq<nat>, at: Key, f: Frame) {
    at.space in vmas && Covered(vmas[at.space], at.page) && Free(refs, f)
  }

  /** A present page can be made private: it already is, or a frame is free for the copy. */
  predicate CanOwn(t: Table, refs: seq<nat>, at: Key, f: Frame)
    requires at in t
  {
    (t[at].frame < |refs| && refs[t[at].frame] <= 1) || Free(refs, f)
  }

  predicate Empty(t: Table, s: Space) {
    forall k <- t :: k.space != s
  }

  /** A fork that has shared the first `i` areas: the rest of `src` is as it was, the rest of `dst` empty. */
  ghost predicate Shares(t: Table, refs: seq<nat>, t': Table, refs': seq<nat>, src: Space, dst: Space, vs: seq<Vma>,
                         i: nat)
  {
    i <= |vs| && InRange(t, |refs|) && InRange(t', |refs'|) && Steady(t, refs, t', refs') &&
    !Blocked(t, refs, src, Area(vs[..i])) &&
    (forall k <- t' :: k.space == dst ==> Covered(vs[..i], k.page)) &&
    forall p: Page | !Covered(vs[..i], p) :: Full(t', refs', Key(src, p)) == Full(t, refs, Key(src, p))
  }

  lemma CloneStart(t: Table, refs: seq<nat>, data: seq<Bytes>, vmas: map<Space, seq<Vma>>, src: Space, dst: Space)
    requires InRange(t, |refs|) && |refs| == |data| && Empty(t, dst) && src in vmas && dst in vmas && vmas[dst] == []
    ensures Shares(t, refs, t, refs, src, dst, vmas[src], 0)
    ensures Seen(t, data) == Copied(Seen(t, data), src, dst, Area(vmas[src][..0]))
    ensures vmas == vmas[dst := Marked(vmas[src][..0])]
  {
    hide Full;
    hide Steady;
    SteadySame(t, refs);
  }

  lemma CloneAt(t: Table, refs: seq<nat>, t': Table, refs': seq<nat>, vmas: map<Space, seq<Vma>>, src: Space,
                dst: Space, i: nat)
    requires src in vmas && AllDisjoint(vmas) && i < |vmas[src]|
    requires Shares(t, refs, t', refs', src, dst, vmas[src], i)
    ensures var v := vmas[src][i]; v.start < v.end && Clear(t', dst, v.start, v.end)
    ensures InRange(t, |refs|) && InRange(t', |refs'|)
    ensures var v := vmas[src][i]; Blocked(t', refs', src, Span(v.start, v.end)) <==>
            Blocked(t, refs, src, Span(v.start, v.end))
  {
    hide Full;
    hide Steady;
    var vs := vmas[src];
    assert Disjoint(vs);
    forall p: Page | p in Span(vs[i].start, vs[i].end) ensures !Covered(vs[..i], p) {
    }
  }

  lemma MarkedNext(vmas: map<Space, seq<Vma>>, dst: Space, vs: seq<Vma>, i: nat)
    requires i < |vs|
    ensures vmas[dst := Marked(vs[..i])][dst := Marked(vs[..i]) + [vs[i].(cow := true)]] ==
            vmas[dst := Marked(vs[..i + 1])]
  {
    assert Marked(vs[..i + 1]) == Marked(vs[..i]) + [vs[i].(cow := true)];
  }

  lemma CloneVma(t: Table, vmas: map<Space, seq<Vma>>, vmas': map<Space, seq<Vma>>, src: Space, dst: Space, i: nat)
    requires src in vmas && src != dst && i < |vmas[src]| && vmas' == vmas[dst := Marked(vmas[src][..i + 1])]
    requires AllDisjoint(vmas) && Known(t, vmas)
    ensures AllDisjoint(vmas') && Known(t, vmas')
  {
    var vs := vmas[src];
    assert Disjoint(vs);
    assert Disjoint(Marked(vs[..i + 1]));
  }

  lemma CloneNext(t: Table, refs: seq<nat>, t': Table, refs': seq<nat>, t'': Table, refs'': seq<nat>, src: Space,
                  dst: Space, vs: seq<Vma>, i: nat)
    requires i < |vs| && Shares(t, refs, t', refs', src, dst, vs, i)
    requires Grown(t', refs', t'', refs'', dst, vs[i].start, vs[i].end) &&
             !Blocked(t, refs, src, Span(vs[i].start, vs[i].end))
    ensures Shares(t, refs, t'', refs'', src, dst, vs, i + 1)
  {
    hide Full;
    hide Steady;
    SteadyTwice(t, refs, t', refs', t'', refs'');
    assert vs[..i + 1] == vs[..i] + [vs[i]];
    AreaNext(vs, i);
  }

  lemma CloneBlocked(t: Table, refs: seq<nat>, src: Space, vs: seq<Vma>, i: nat, n: nat)
    requires i < n <= |vs| && InRange(t, |refs|) && Blocked(t, refs, src, Span(vs[i].start, vs[i].end))
    ensures Blocked(t, refs, src, Area(vs[..n]))
  {
    hide Full;
    var p :| p in Span(vs[i].start, vs[i].end) && Full(t, refs, Key(src, p));
    assert vs[i] in vs[..n];
    assert p in Area(vs[..n]);
  }

  lemma CloneDone(t: Table, refs: seq<nat>, t': Table, refs': seq<nat>, src: Space, dst: Space, vs: seq<Vma>, i: nat)
    requires Shares(t, refs, t', refs', src, dst, vs, i)
    ensures InRange(t, |refs|) && !Blocked(t, refs, src, Area(vs[..i])) && Steady(t, refs, t', refs')
  {
  }

  lemma NewSpace(t: Table, vmas: map<Space, seq<Vma>>, s: Space)
    requires Known(t, vmas) && s !in vmas && AllDisjoint(vmas)
    ensures Empty(t, s) && Known(t, vmas[s := []]) && AllDisjoint(vmas[s := []])
  {
  }

  lemma KnownMore(t: Table, vmas: map<Space, seq<Vma>>, k: Key, e: Pte)
    requires Known(t, vmas) && k.space in vmas
    ensures Known(t[k := e], vmas)
  {
  }

  lemma KnownSame(t: Table, vmas: map<Space, seq<Vma>>, k: Key, e: Pte)
    requires Known(t, vmas) && k in t
    ensures Known(t[k := e], vmas)
  {
  }

  lemma KnownLess(t: Table, vmas: map<Space, seq<Vma>>, g: set<Key>)
    requires Known(t, vmas)
    ensures Known(t - g, vmas)
  {
  }

  lemma AddedDisjoint(t: Table, vmas: map<Space, seq<Vma>>, s: Space, v: Vma)
    requires Known(t, vmas) && AllDisjoint(vmas)
    ensures Known(t, WithVma(vmas, s, v)) && AllDisjoint(WithVma(vmas, s, v))
  {
    if s in vmas && Fits(vmas[s], v) {
      AddSortedDisjoint(vmas[s], v);
    }
  }

  ghost predicate Has(vmas: map<Space, seq<Vma>>, s: Space, w: Vma) { s in vmas && w in vmas[s] }

  /** An area joins its space exactly when it is not empty and overlaps none. */
  lemma AddedHas(vmas: map<Space, seq<Vma>>, s: Space, v: Vma)
    ensures forall w :: Has(WithVma(vmas, s, v), s, w) <==> (
              Has(vmas, s, w) ||
              (w == v && v.start < v.end && forall u | Has(vmas, s, u) :: u.end <= v.start || v.end <= u.start))
  {
    if s in vmas {
      AddSortedHas(vmas[s], v);
      assert Fits(vmas[s], v) <==>
             v.start < v.end && forall u | Has(vmas, s, u) :: u.end <= v.start || v.end <= u.start;
    }
  }

  /** The areas of a space are disjoint, so a page lies in one at most. */
  lemma OneArea(vmas: map<Space, seq<Vma>>, at: Key, v: Vma)
    requires AllDisjoint(vmas) && at.space in vmas && v in vmas[at.space] && v.start <= at.page < v.end
    ensures forall w <- vmas[at.space] :: w.start <= at.page < w.end ==> w == v
  {
    var vs := vmas[at.space];
    assert Disjoint(vs);
    var i :| 0 <= i < |vs| && vs[i] == v;
    forall w <- vs | w.start <= at.page < w.end ensures w == v {
      var j :| 0 <= j < |vs| && vs[j] == w;
    }
  }

  lemma BlankPage()
    ensures forall i | 0 <= i < PAGE_SIZE :: Zeros()[i] == 0
  {
  }

  /** A forked space sees the parent's pages in the areas copied, byte for byte, and nothing else. */
  lemma ForkSees(e: Eager, src: Space, dst: Space, slots: nat, p: Page)
    requires src in e.vmas && dst !in e.vmas && Key(dst, p) !in e.pages
    ensures var f, vs := EagerFork(e, src, dst, slots), e.vmas[src];
            Key(dst, p) in f.pages <==> (
              Key(src, p) in e.pages && exists i: nat :: i < slots && i < |vs| && vs[i].start <= p < vs[i].end)
    ensures var f := EagerFork(e, src, dst, slots);
            Key(dst, p) in f.pages ==> f.pages[Key(dst, p)] == e.pages[Key(src, p)]
    ensures forall k: Key | k.space != dst :: SameAt(e.pages, EagerFork(e, src, dst, slots).pages, k)
  {
    var vs := e.vmas[src];
    var n := Min(slots, |vs|);
    if i: nat :| i < slots && i < |vs| && vs[i].start <= p < vs[i].end {
      assert vs[i] in vs[..n];
    }
    if v :| v in vs[..n] && v.start <= p < v.end {
      var i: nat :| i < n && vs[..n][i] == v;
    }
  }

  lemma SeenKeys(t: Table, data: seq<Bytes>)
    requires InRange(t, |data|)
    ensures forall k :: k in Seen(t, data) <==> k in t
  {
  }

  lemma SeenAt(t: Table, data: seq<Bytes>, k: Key)
    requires InRange(t, |data|) && k in t
    ensures t[k].frame < |data|
    ensures k in Seen(t, data) && Seen(t, data)[k] == Private(data[t[k].frame], t[k].prot.user, t[k].prot.exec)
    ensures Seen(t, data)[k := Seen(t, data)[k]] == Seen(t, data)
  {
  }

  lemma SeenGrant(t: Table, data: seq<Bytes>, k: Key)
    requires InRange(t, |data|) && k in t
    ensures InRange(t[k := Pte(t[k].frame, t[k].prot.(write := true))], |data|)
    ensures Seen(t[k := Pte(t[k].frame, t[k].prot.(write := true))], data) == Seen(t, data)
  {
  }

  lemma SeenDrop(t: Table, data: seq<Bytes>, k: Key)
    requires InRange(t, |data|)
    ensures InRange(t - {k}, |data|) && Seen(t - {k}, data) == Seen(t, data) - {k}
    ensures k !in t ==> Seen(t, data) == Seen(t, data) - {k}
  {
  }

  class Memory {
    var table: Table
    var refs: seq<nat>
    var data: seq<Bytes>
    var vmas: map<Space, seq<Vma>>
    var halted: bool

    /** Counts cover the mappers and write permission is exclusive. */
    ghost predicate Valid()
      reads this
    {
      |data| == |refs| && Inv(table, refs) && InRange(table, |data|) && Known(table, vmas) && AllDisjoint(vmas)
    }

    ghost function View(): Eager
      reads this
      requires Valid()
    {
      Eager(Seen(table, data), vmas)
    }

    constructor (frames: nat)
      ensures Valid() && !halted && |refs| == frames && View() == Eager(imap[], map[]) && Exact(table, refs)
    {
      table, vmas, halted := map[], map[], false;
      refs := seq(frames, _ => 0);
      data := seq(frames, _ => Zeros());
    }

    /** One page of a fork: count the frame once more, map it read-only on both sides. */
    method ShareOne(src: Space, dst: Space, p: Page)
      requires Valid() && !halted && src != dst && dst in vmas && Key(dst, p) !in table
      modifies this`table, this`refs, this`halted
      ensures Valid()
      ensures halted == old(Full(table, refs, Key(src, p)))
      ensures !halted ==> Seen(table, data) == Copied(old(Seen(table, data)), src, dst, iset{p})
      ensures !halted ==> Grown(old(table), old(refs), table, refs, dst, p, p + 1)
    {
      hide Inv;
      hide Seen;
      hide Copied;
      hide AllDisjoint;
      hide Grown;
      if Key(src, p) !in table {
        SeenAbsent(table, data, src, dst, p);
        GrownSame(table, refs, dst, p);
        return;
      }
      var e := table[Key(src, p)];
      Share(table, refs, Key(src, p), Key(dst, p));
      if refs[e.frame] >= REFCOUNT_MAX {
        halted := true;
        return;
      }
      SeenShare(table, data, src, dst, p);
      ShareGrown(table, refs, src, dst, p);
      refs := refs[e.frame := refs[e.frame] + 1];
      table := table[Key(dst, p) := Pte(e.frame, e.prot.(write := false))];
      table := table[Key(src, p) := Pte(e.frame, e.prot.(write := false))];
    }

    /** Shares the pages of a range; the machine halts exactly when a count is already at its maximum. */
    method CowRange(src: Space, dst: Space, start: Page, end: Page) returns (ok: bool)
      requires Valid() && !halted && dst in vmas && (src != dst ==> Clear(table, dst, start, end))
      modifies this`table, this`refs, this`halted
      ensures Valid() && ok == (start < end && src != dst)
      ensures !ok ==> table == old(table) && refs == old(refs) && !halted
      ensures ok ==> halted == Blocked(old(table), old(refs), src, Span(start, end))
      ensures ok && !halted ==> Seen(table, data) == Copied(old(Seen(table, data)), src, dst, Span(start, end))
      ensures ok && !halted ==> Grown(old(table), old(refs), table, refs, dst, start, end)
    {
      hide Inv;
      hide Full;
      hide Copied;
      hide Seen;
      hide Blocked;
      hide Span;
      hide Grown;
      hide Known;
      hide AllDisjoint;
      hide InRange;
      hide Clear;
      if end <= start || src == dst {
        return false;
      }
      ok := true;
      CopiedNone(old(Seen(table, data)), src, dst, start);
      BlockedNext(table, refs, src, start, start);
      GrownNone(table, refs, dst, start);
      for p := start to end
        invariant Valid() && !halted
        invariant Seen(table, data) == Copied(old(Seen(table, data)), src, dst, Span(start, p))
        invariant Grown(old(table), old(refs), table, refs, dst, start, p)
        invariant !Blocked(old(table), old(refs), src, Span(start, p))
      {
        ghost var before, counts := table, refs;
        GrownAt(old(table), old(refs), table, refs, dst, start, p, src);
        ClearAt(old(table), dst, start, p, end);
        BlockedNext(old(table), old(refs), src, start, p);
        ShareOne(src, dst, p);
        if halted {
          BlockedSpan(old(table), old(refs), src, start, p + 1, end);
          return;
        }
        GrownMore(old(table), old(refs), before, counts, table, refs, dst, start, p, p + 1);
        CopiedTwice(old(Seen(table, data)), src, dst, Span(start, p), iset{p});
        SpanNext(start, p);
      }
    }

    /** Copies the areas of `src` into the fresh space `dst`, sharing their pages, while descriptors last. */
    method CloneUser(dst: Space, src: Space, slots: nat) returns (ok: bool)
      requires Valid() && !halted && src in vmas && dst in vmas && src != dst && vmas[dst] == [] && Empty(table, dst)
      modifies this`table, this`refs, this`halted, this`vmas
      ensures Valid() && ok == (!halted && slots >= |old(vmas)[src]|)
      ensures var vs := old(vmas)[src][..Min(slots, |old(vmas)[src]|)];
              (halted <==> Blocked(old(table), old(refs), src, Area(vs))) &&
              (!halted ==> Seen(table, data) == Copied(old(Seen(table, data)), src, dst, Area(vs)) &&
                           vmas == old(vmas)[dst := Marked(vs)] && Steady(old(table), old(refs), table, refs))
    {
      hide Steady;
      hide Inv;
      hide Full;
      hide Copied;
      hide Seen;
      hide Blocked;
      hide Area;
      hide Span;
      hide Shares;
      hide Known;
      hide AllDisjoint;
      hide InRange;
      hide Clear;
      hide Empty;
      hide Disjoint;
      hide Grown;
      ghost var seen := Seen(table, data);
      var vs := vmas[src];
      var i := 0;
      CloneStart(table, refs, data, vmas, src, dst);
      while i < |vs| && i < slots
        invariant 0 <= i <= |vs| && i <= slots && Valid() && !halted && src in vmas && vmas[src] == vs
        invariant vmas == old(vmas)[dst := Marked(vs[..i])]
        invariant Seen(table, data) == Copied(seen, src, dst, Area(vs[..i]))
        invariant Shares(old(table), old(refs), table, refs, src, dst, vs, i)
      {
        ghost var before, counts := table, refs;
        var v := vs[i];
        CloneAt(old(table), old(refs), table, refs, vmas, src, dst, i);
        vmas := vmas[dst := vmas[dst] + [v.(cow := true)]];
        MarkedNext(old(vmas), dst, vs, i);
        CloneVma(table, old(vmas)[dst := Marked(vs[..i])], vmas, src, dst, i);
        var _ := CowRange(src, dst, v.start, v.end);
        if halted {
          CloneBlocked(old(table), old(refs), src, vs, i, Min(slots, |vs|));
          return false;
        }
        CloneNext(old(table), old(refs), before, counts, table, refs, src, dst, vs, i);
        CopiedTwice(seen, src, dst, Area(vs[..i]), Span(v.start, v.end));
        AreaNext(vs, i);
        i := i + 1;
      }
      ok := i == |vs|;
      CloneDone(old(table), old(refs), table, refs, src, dst, vs, i);
    }

    /** A fork into a space that does not exist yet. */
    method ForkSpace(src: Space, dst: Space, slots: nat)
      requires Valid() && !halted
      modifies this
      ensures Valid() && (!halted ==> View() == EagerFork(old(View()), src, dst, slots))
      ensures !halted ==> Steady(old(table), old(refs), table, refs)
      ensures halted <==> src in old(vmas) && dst !in old(vmas) &&
                          Blocked(old(table), old(refs), src, Area(old(vmas)[src][..Min(slots, |old(vmas)[src]|)]))
    {
      hide Inv;
      hide Seen;
      hide Copied;
      hide InRange;
      hide Known;
      hide AllDisjoint;
      hide Area;
      hide Blocked;
      hide Empty;
      hide Steady;
      SteadySame(table, refs);
      if src !in vmas || dst in vmas {
        return;
      }
      NewSpace(table, vmas, dst);
      vmas := vmas[dst := []];
      var _ := CloneUser(dst, src, slots);
    }

    /** A not-present fault: a zeroed frame, writable if the area is. */
    method DemandMap(at: Key, frame: Frame) returns (ok: bool)
      requires Valid() && at !in table
      modifies this`table, this`refs, this`data
      ensures Valid() && ok == CanFill(vmas, old(refs), at, frame)
      ensures View() == EagerFault(old(View()), at, ok) && Steady(old(table), old(refs), table, refs)
      ensures ok ==> at in table && table[at].frame < |refs| && refs[table[at].frame] == 1
      ensures ok ==> at in View().pages && forall i | 0 <= i < PAGE_SIZE :: View().pages[at].bytes[i] == 0
      ensures ok ==> forall v <- vmas[at.space] :: v.start <= at.page < v.end ==> table[at].prot.write == v.write
    {
      hide Inv;
      hide Seen;
      hide InRange;
      hide Known;
      hide AllDisjoint;
      hide Covered;
      hide Zeros;
      hide Steady;
      SteadySame(table, refs);
      if at.space !in vmas {
        return false;
      }
      var v := FindVma(vmas[at.space], at.page);
      if v == [] {
        return false;
      }
      OneArea(vmas, at, v[0]);
      BlankPage();
      if frame >= |refs| || refs[frame] != 0 {
        return false;
      }
      var e := Pte(frame, Prot(v[0].write, true, false));
      SeenMap(table, refs, data, at, e, Zeros());
      MapFresh(table, refs, at, e);
      SteadyMap(table, refs, at, e);
      KnownMore(table, vmas, at, e);
      SeenKeys(table, data);
      refs := refs[frame := 1];
      data := data[frame := Zeros()];
      table := table[at := e];
      ok := true;
    }

    /** A write to a present page: a sole owner is granted the page, a sharer gets a copy. */
    method WriteFault(at: Key, frame: Frame) returns (ok: bool)
      requires Valid() && at in table
      modifies this`table, this`refs, this`data
      ensures Valid() && View() == old(View()) && Steady(old(table), old(refs), table, refs)
      ensures ok == CanOwn(old(table), old(refs), at, frame)
      ensures ok ==> at in table && table[at].prot.write
    {
      hide Inv;
      hide Seen;
      hide InRange;
      hide Known;
      hide AllDisjoint;
      hide Steady;
      SteadySame(table, refs);
      var e := table[at];
      Release(table, refs, at);
      var prot := e.prot.(write := true);
      SeenAt(table, data, at);
      KnownSame(table, vmas, at, Pte(e.frame, prot));
      if refs[e.frame] <= 1 {
        Grant(table, refs, at);
        SteadyGrant(table, refs, at, prot);
        SeenGrant(table, data, at);
        table := table[at := Pte(e.frame, prot)];
        return true;
      }
      if frame >= |refs| || refs[frame] != 0 {
        return false;
      }
      var e' := Pte(frame, prot);
      SeenMap(table, refs, data, at, e', data[e.frame]);
      Unshare(table, refs, at, e');
      KnownSame(table, vmas, at, e');
      refs := refs[frame := 1];
      data := data[frame := data[e.frame]];
      table := table[at := e'];
      refs := refs[e.frame := refs[e.frame] - 1];
      ok := true;
    }

    /** The page-fault handler. */
    method HandleFault(at: Key, write: bool, frame: Frame) returns (resumed: bool)
      requires Valid()
      modifies this`table, this`refs, this`data
      ensures Valid() && View() == EagerFault(old(View()), at, resumed) && Steady(old(table), old(refs), table, refs)
      ensures resumed && write && at in old(table) ==> at in table && table[at].prot.write
      ensures resumed ==> at in table
      ensures resumed && at !in old(table) ==>
              at in View().pages && forall i | 0 <= i < PAGE_SIZE :: View().pages[at].bytes[i] == 0
      ensures resumed == if at !in old(table) then CanFill(vmas, old(refs), at, frame)
                         else write && at.page < USER_PAGES && CanOwn(old(table), old(refs), at, frame)
    {
      hide Inv;
      hide Seen;
      hide InRange;
      hide Known;
      hide AllDisjoint;
      hide Covered;
      hide Steady;
      SteadySame(table, refs);
      SeenKeys(table, data);
      if at !in table {
        resumed := DemandMap(at, frame);
      } else if write && at.page < USER_PAGES {
        resumed := WriteFault(at, frame);
      } else {
        resumed := false;
      }
    }

    /** A store by the processor: it goes through only on a writable entry. */
    method StoreByte(at: Key, offset: nat, value: int) returns (done: bool)
      requires Valid()
      modifies this`data
      ensures Valid() && done == (at in table && table[at].prot.write && offset < PAGE_SIZE)
      ensures View() == EagerStore(old(View()), at, offset, value, done)
      ensures done ==> at in old(View()).pages && at in View().pages && View().pages[at].bytes[offset] == value &&
                       forall i | 0 <= i < PAGE_SIZE && i != offset ::
                         View().pages[at].bytes[i] == old(View()).pages[at].bytes[i]
      ensures forall k :: k != at ==> SameAt(old(View()).pages, View().pages, k)
    {
      hide Inv;
      hide Seen;
      hide Known;
      hide AllDisjoint;
      SeenKeys(table, data);
      if at !in table || !table[at].prot.write || offset >= PAGE_SIZE {
        return false;
      }
      var e := table[at];
      SeenStore(table, refs, data, at, data[e.frame][offset := value]);
      SeenAt(table, data, at);
      data := data[e.frame := data[e.frame][offset := value]];
      done := true;
    }

    /**
      * Clears one entry and releases its frame.  The leaf table goes, with whatever it still holds, when
      * its one-byte count of live entries reads zero.
      */
    method UnmapPage(at: Key) returns (o: Outcome)
      requires Valid()
      modifies this`table, this`refs
      ensures Valid() && o.ok == (at in old(table)) && at !in table
      ensures o.lost <==> Meets(old(table), Unmap(at))
      ensures View() == LossyStep(old(View()), Unmap(at), o)
      ensures PagesOf(table, at.space) == LeafTable.Removed(PagesOf(old(table), at.space), at.page)
      ensures if o.lost then Leaking(old(table), old(refs), table, refs) && !Steady(old(table), old(refs), table, refs)
              else Steady(old(table), old(refs), table, refs)
    {
      hide Inv;
      hide Seen;
      hide Known;
      hide AllDisjoint;
      hide Steady;
      hide Leaking;
      hide InRange;
      hide LeafTable.Same;
      hide WithoutLeaf;
      hide Leaf;
      SeenDrop(table, data, at);
      SteadySame(table, refs);
      LeafServed(table, at);
      if at !in table {
        NoPage(table, at);
        return Outcome(false, false);
      }
      Release(table, refs, at);
      LeafOther(table, at);
      LeafPages(table, at);
      PageMapped(table, at);
      var f := table[at].frame;
      var leaf := Leaf(table, at);
      var count := |leaf| % 256;
      SteadyDrop(table, refs, at);
      refs := refs[f := refs[f] - 1];
      if count <= 1 {
        ReleaseLeaf(old(table), old(refs), at, leaf);
        KnownLess(table, vmas, leaf);
        SeenDropLeaf(table, data, at);
        if |leaf| >= 2 {
          ghost var other :| other in leaf && other != at;
          LeafLeaks(old(table), old(refs), at, leaf, other);
        }
        table := table - leaf;
        o := Outcome(true, |leaf| >= 2);
      } else {
        KnownLess(table, vmas, {at});
        table := table - {at};
        o := Outcome(true, false);
      }
    }

    method AddArea(s: Space, v: Vma)
      requires Valid()
      modifies this`vmas
      ensures Valid() && View() == Eager(old(View()).pages, WithVma(old(vmas), s, v))
      ensures forall w :: Has(vmas, s, w) <==> (
                Has(old(vmas), s, w) ||
                (w == v && v.start < v.end && forall u | Has(old(vmas), s, u) :: u.end <= v.start || v.end <= u.start))
      ensures forall r | r != s :: (r in vmas <==> r in old(vmas)) && (r in vmas ==> vmas[r] == old(vmas)[r])
    {
      AddedHas(vmas, s, v);
      hide Inv;
      hide Seen;
      AddedDisjoint(table, vmas, s, v);
      hide Known;
      hide AllDisjoint;
      vmas := WithVma(vmas, s, v);
    }

    /** A store instruction with the faults it takes: not present, then not writable. */
    method UserWrite(at: Key, offset: nat, value: int, frame0: Frame, frame1: Frame) returns (done: bool)
      requires Valid() && offset < PAGE_SIZE && at.page < USER_PAGES
      modifies this`table, this`refs, this`data
      ensures Valid()
      ensures done ==> View() == EagerStore(EagerFault(old(View()), at, true), at, offset, value, true)
      ensures !done ==> View() == old(View())
      ensures done == if at !in old(table) then CanFill(vmas, old(refs), at, frame0)
                      else old(table)[at].prot.write || CanOwn(old(table), old(refs), at, frame1)
      ensures done ==> at in View().pages && View().pages[at].bytes[offset] == value &&
                       forall i | 0 <= i < PAGE_SIZE && i != offset ::
                         View().pages[at].bytes[i] ==
                         if at in old(View()).pages then old(View()).pages[at].bytes[i] else 0
    {
      hide Inv;
      hide Seen;
      hide InRange;
      hide Known;
      hide AllDisjoint;
      hide Covered;
      hide EagerStore;
      SeenKeys(table, data);
      if at !in table {
        done := DemandMap(at, frame0);
        if !done {
          return;
        }
      }
      SeenKeys(table, data);
      if !table[at].prot.write {
        done := WriteFault(at, frame1);
        if !done {
          return;
        }
      }
      done := StoreByte(at, offset, value);
    }

    ghost function Snapshot(): Shot
      reads this
      requires Valid()
    {
      Shot(table, refs, View())
    }

    method Execute(step: Step) returns (o: Outcome)
      requires Valid() && !halted
      modifies this
      ensures Valid() && (!halted ==> Linked(old(Snapshot()), step, o, Snapshot()))
      ensures halted <==> Saturated(old(Snapshot()), step)
    {
      hide Inv;
      hide Seen;
      hide InRange;
      hide Known;
      hide AllDisjoint;
      hide EagerFork;
      hide EagerFault;
      hide EagerStore;
      hide WithVma;
      hide Blocked;
      hide Steady;
      hide Leaking;
      hide WithoutLeaf;
      hide PagesOf;
      SeenKeys(table, data);
      SteadySame(table, refs);
      o := Outcome(true, false);
      var ok := true;
      match step
      case Fork(src, dst, slots) => ForkSpace(src, dst, slots);
      case Fault(at, write, frame) => ok := HandleFault(at, write, frame); o := Outcome(ok, false);
      case Store(at, offset, value) => ok := StoreByte(at, offset, value); o := Outcome(ok, false);
      case Unmap(at) => o := UnmapPage(at);
      case AddVma(space, v) => AddArea(space, v);
    }

    /**
      * Every run: it halts exactly at the first fork that would share a page whose count is at its maximum.
      * Up to there what the spaces see is what the copying machine shows, and the counts stay exact, exactly
      * when no unmap meets a crowded leaf table; a space that no step addresses sees no change in any case.
      */
    method Run(steps: seq<Step>) returns (log: seq<Outcome>, ghost shots: seq<Shot>)
      requires Valid() && !halted
      modifies this
      ensures Valid() && |log| <= |steps| && Trace(shots, steps[..|log|], log) && shots[0] == old(Snapshot())
      ensures forall i | 0 <= i < |log| :: !Saturated(shots[i], steps[i])
      ensures halted <==> |log| < |steps|
      ensures halted ==> Saturated(shots[|log|], steps[|log|])
      ensures NoneLost(log) <==> forall i | 0 <= i <= |log| ::
                shots[i].view == EagerRun(old(View()), steps[..i], log[..i])
      ensures !halted ==> shots[|log|] == Snapshot()
      ensures !halted && NoneLost(log) ==> View() == EagerRun(old(View()), steps, log)
      ensures !halted && old(Exact(table, refs)) ==> (NoneLost(log) <==> Exact(table, refs))
      ensures !halted ==> forall k: Key | Untouched(steps, k.space) :: SameAt(old(View()).pages, View().pages, k)
    {
      hide Inv;
      hide Seen;
      hide InRange;
      hide Known;
      hide AllDisjoint;
      hide Linked;
      hide EagerRun;
      hide Steady;
      hide Leaking;
      hide Exact;
      hide Saturated;
      log := [];
      shots := [Snapshot()];
      for i := 0 to |steps|
        invariant Valid() && !halted && |log| == i && |shots| == i + 1
        invariant shots[0] == old(Snapshot()) && shots[i] == Snapshot() && Trace(shots, steps[..i], log)
        invariant forall k | 0 <= k < i :: !Saturated(shots[k], steps[k])
      {
        var o := Execute(steps[i]);
        if halted {
          Simulates(shots, steps[..i], log);
          Prefixes(steps, i);
          return;
        }
        TraceNext(shots, steps, log, o, Snapshot());
        log := log + [o];
        shots := shots + [Snapshot()];
      }
      assert steps[..|steps|] == steps && log[..|log|] == log;
      Simulates(shots, steps, log);
      Accounts(shots, steps, log);
      StillExact(old(table), old(refs), table, refs);
      forall k: Key | Untouched(steps, k.space) ensures SameAt(old(View()).pages, View().pages, k) {
        Isolated(shots, steps, log, k);
      }
    }
  }
}
