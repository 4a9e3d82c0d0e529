/**
  * Work queues as an interleaving of queuing threads, one worker per processor, and flushers.  Each step is
  * one atomic access or one locked section.  `queued`, `started`, `added` and `finished` are history.
  */
module Workqueue {
  /** A client's work item, or the barrier of the `nth` queuing a flushing thread does. */
  datatype Work = Client(id: nat) | Barrier(thread: nat, nth: nat)

  datatype Job = Plain | Flush(base: seq<nat>)

  /** Where a thread is in queuing (before and after its item is listed) or in flushing. */
  datatype Stage =
    | Idle
    | Adding(work: Work, cpu: nat, job: Job)
    | Posting(work: Work, cpu: nat, job: Job, at: nat)
    | Flushing(cpu: nat, base: seq<nat>)
    | Awaiting(work: Work, cpu: nat, base: seq<nat>, at: nat)

  datatype Thread = Thread(stage: Stage, barriers: nat)

  /** Where a worker is. */
  datatype Phase = Waiting | Blocked | Draining | Popped(work: Work) | Cleared(work: Work) | Running(work: Work)

  datatype State = State(
    pending: set<Work>, threads: seq<Thread>, lists: seq<seq<Work>>, sem: seq<int>, worker: seq<Phase>, done: set<Work>,
    queued: multiset<Work>, started: multiset<Work>, added: seq<seq<Work>>, finished: seq<nat>)

  datatype Action =
    | Queue(thread: nat, work: Work, cpu: nat)
    | AddTail(thread: nat)
    | Post(thread: nat)
    | FlushStart(thread: nat)
    | FlushQueue(thread: nat)
    | FlushWake(thread: nat)
    | FlushEnd(thread: nat)
    | SemWait(cpu: nat)
    | Take(cpu: nat)
    | ClearPending(cpu: nat)
    | Start(cpu: nat)
    | Signal(cpu: nat)
    | Finish(cpu: nat)

  function Lengths(added: seq<seq<Work>>): (r: seq<nat>)
    ensures |r| == |added| && forall c | 0 <= c < |added| :: r[c] == |added[c]|
  {
    seq(|added|, c requires 0 <= c < |added| => |added[c]|)
  }

  function Init(threads: nat, cpus: nat): State {
    State({}, seq(threads, _ => Thread(Idle, 0)), seq(cpus, _ => []), seq(cpus, _ => 0), seq(cpus, _ => Waiting), {},
          multiset{}, multiset{}, seq(cpus, _ => []), seq(cpus, _ => 0))
  }

  predicate Sizes(s: State) {
    |s.lists| == |s.sem| == |s.worker| == |s.added| == |s.finished|
  }

  predicate Enabled(s: State, a: Action)
    requires Sizes(s)
  {
    var stage := t requires 0 <= t < |s.threads| => s.threads[t].stage;
    match a
    case Queue(t, w, _) => t < |s.threads| && stage(t) == Idle && w.Client?
    case AddTail(t) => t < |s.threads| && stage(t).Adding? && stage(t).cpu < |s.lists|
    case Post(t) => t < |s.threads| && stage(t).Posting? && stage(t).cpu < |s.lists|
    case FlushStart(t) => t < |s.threads| && stage(t) == Idle
    case FlushQueue(t) => t < |s.threads| && stage(t).Flushing? && stage(t).cpu < |s.lists|
    case FlushWake(t) => t < |s.threads| && stage(t).Awaiting? && stage(t).work in s.done
    case FlushEnd(t) => t < |s.threads| && stage(t).Flushing? && stage(t).cpu >= |s.lists|
    case SemWait(c) => c < |s.lists| && s.worker[c] == Waiting
    case Take(c) => c < |s.lists| && s.worker[c] == Draining
    case ClearPending(c) => c < |s.lists| && s.worker[c].Popped?
    case Start(c) => c < |s.lists| && s.worker[c].Cleared?
    case Signal(c) => c < |s.lists| && s.worker[c].Running? && s.worker[c].work.Barrier? && s.worker[c].work !in s.done
    case Finish(c) =>
      c < |s.lists| && s.worker[c].Running? && (s.worker[c].work.Barrier? ==> s.worker[c].work in s.done)
  }

  function SetStage(s: State, t: nat, stage: Stage): State
    requires t < |s.threads|
  {
    s.(threads := s.threads[t := s.threads[t].(stage := stage)])
  }

  function SetWorker(s: State, c: nat, p: Phase): State
    requires c < |s.worker|
  {
    s.(worker := s.worker[c := p])
  }

  /** A request is refused when the item is pending or the processor does not exist. */
  predicate Refused(s: State, w: Work, c: nat) { c >= |s.lists| || w in s.pending }

  function Claim(s: State, w: Work): State {
    s.(pending := s.pending + {w}, queued := s.queued + multiset{w})
  }

  function Apply(s: State, a: Action): State
    requires Sizes(s) && Enabled(s, a)
  {
    match a
    case Queue(t, w, c) => if Refused(s, w, c) then s else SetStage(Claim(s, w), t, Adding(w, c, Plain))
    case AddTail(t) =>
      var g := s.threads[t].stage;
      SetStage(s.(lists := s.lists[g.cpu := s.lists[g.cpu] + [g.work]],
                  added := s.added[g.cpu := s.added[g.cpu] + [g.work]]),
               t, Posting(g.work, g.cpu, g.job, |s.added[g.cpu]|))
    case Post(t) =>
      var g := s.threads[t].stage;
      var s1 := s.(sem := s.sem[g.cpu := s.sem[g.cpu] + 1],
                   worker := if s.sem[g.cpu] + 1 <= 0 && s.worker[g.cpu] == Blocked then s.worker[g.cpu := Draining]
                     else s.worker);
      SetStage(s1, t, if g.job.Plain? then Idle else Awaiting(g.work, g.cpu, g.job.base, g.at))
    case FlushStart(t) => SetStage(s, t, Flushing(0, Lengths(s.added)))
    case FlushQueue(t) =>
      var g := s.threads[t].stage;
      var b := Barrier(t, s.threads[t].barriers);
      Claim(s, b).(threads := s.threads[t := Thread(Adding(b, g.cpu, Flush(g.base)), s.threads[t].barriers + 1)])
    case FlushWake(t) => SetStage(s, t, Flushing(s.threads[t].stage.cpu + 1, s.threads[t].stage.base))
    case FlushEnd(t) => SetStage(s, t, Idle)
    case SemWait(c) => SetWorker(s.(sem := s.sem[c := s.sem[c] - 1]), c,
                                 if s.sem[c] - 1 >= 0 then Draining else Blocked)
    case Take(c) =>
      if s.lists[c] == [] then SetWorker(s, c, Waiting)
      else SetWorker(s.(lists := s.lists[c := s.lists[c][1..]]), c, Popped(s.lists[c][0]))
    case ClearPending(c) => SetWorker(s.(pending := s.pending - {s.worker[c].work}), c, Cleared(s.worker[c].work))
    case Start(c) => SetWorker(s.(started := s.started + multiset{s.worker[c].work}), c, Running(s.worker[c].work))
    case Signal(c) => s.(done := s.done + {s.worker[c].work})
    case Finish(c) => SetWorker(s.(finished := s.finished[c := s.finished[c] + 1]), c, Draining)
  }

  // ----- Counting the places an item can be in -----

  function Sum(ns: seq<nat>): nat {
    if ns == [] then 0 else Sum(ns[..|ns| - 1]) + ns[|ns| - 1]
  }

  lemma {:induction false} SumSet(ns: seq<nat>, i: nat, n: nat)
    requires i < |ns|
    ensures Sum(ns[i := n]) + ns[i] == Sum(ns) + n && ns[i] <= Sum(ns)
  {
    var k := |ns| - 1;
    if i == k {
      assert ns[i := n][..k] == ns[..k];
    } else {
      assert ns[i := n][..k] == ns[..k][i := n];
      SumSet(ns[..k], i, n);
    }
  }

  function One(b: bool): nat { if b then 1 else 0 }

  /** How many queuers hold `w`, claimed but not yet listed. */
  function HeldBy(x: Thread, w: Work): nat { One(x.stage.Adding? && x.stage.work == w) }

  function Holders(threads: seq<Thread>, w: Work): nat { Sum(HeldList(threads, w)) }

  function HeldList(threads: seq<Thread>, w: Work): (r: seq<nat>)
    ensures |r| == |threads| && forall i | 0 <= i < |r| :: r[i] == HeldBy(threads[i], w)
  {
    seq(|threads|, i requires 0 <= i < |threads| => HeldBy(threads[i], w))
  }

  /** How often `w` is on a list. */
  function Listed(lists: seq<seq<Work>>, w: Work): nat { Sum(ListList(lists, w)) }

  function ListList(lists: seq<seq<Work>>, w: Work): (r: seq<nat>)
    ensures |r| == |lists| && forall i | 0 <= i < |r| :: r[i] == multiset(lists[i])[w]
  {
    seq(|lists|, i requires 0 <= i < |lists| => multiset(lists[i])[w])
  }

  /** How many workers took `w` off a list and have not yet cleared its mark. */
  function PoppedBy(p: Phase, w: Work): nat { One(p.Popped? && p.work == w) }

  function Takers(worker: seq<Phase>, w: Work): nat { Sum(TakenList(worker, w)) }

  function TakenList(worker: seq<Phase>, w: Work): (r: seq<nat>)
    ensures |r| == |worker| && forall i | 0 <= i < |r| :: r[i] == PoppedBy(worker[i], w)
  {
    seq(|worker|, i requires 0 <= i < |worker| => PoppedBy(worker[i], w))
  }

  /** How many workers are about to start `w`. */
  function ClearedBy(p: Phase, w: Work): nat { One(p.Cleared? && p.work == w) }

  function Starters(worker: seq<Phase>, w: Work): nat { Sum(StartList(worker, w)) }

  function StartList(worker: seq<Phase>, w: Work): (r: seq<nat>)
    ensures |r| == |worker| && forall i | 0 <= i < |r| :: r[i] == ClearedBy(worker[i], w)
  {
    seq(|worker|, i requires 0 <= i < |worker| => ClearedBy(worker[i], w))
  }

  lemma HoldersSet(threads: seq<Thread>, t: nat, x: Thread, w: Work)
    requires t < |threads|
    ensures Holders(threads[t := x], w) + HeldBy(threads[t], w) == Holders(threads, w) + HeldBy(x, w)
    ensures HeldBy(threads[t], w) <= Holders(threads, w)
  {
    hide Sum;
    var ns := HeldList(threads, w);
    assert HeldList(threads[t := x], w) == ns[t := HeldBy(x, w)];
    SumSet(ns, t, HeldBy(x, w));
  }

  lemma ListedSet(lists: seq<seq<Work>>, c: nat, l: seq<Work>, w: Work)
    requires c < |lists|
    ensures Listed(lists[c := l], w) + multiset(lists[c])[w] == Listed(lists, w) + multiset(l)[w]
  {
    hide Sum;
    var ns := ListList(lists, w);
    assert ListList(lists[c := l], w) == ns[c := multiset(l)[w]];
    SumSet(ns, c, multiset(l)[w]);
  }

  lemma TakersSet(worker: seq<Phase>, c: nat, p: Phase, w: Work)
    requires c < |worker|
    ensures Takers(worker[c := p], w) + PoppedBy(worker[c], w) == Takers(worker, w) + PoppedBy(p, w)
    ensures PoppedBy(worker[c], w) <= Takers(worker, w)
  {
    hide Sum;
    var ns := TakenList(worker, w);
    assert TakenList(worker[c := p], w) == ns[c := PoppedBy(p, w)];
    SumSet(ns, c, PoppedBy(p, w));
  }

  lemma StartersSet(worker: seq<Phase>, c: nat, p: Phase, w: Work)
    requires c < |worker|
    ensures Starters(worker[c := p], w) + ClearedBy(worker[c], w) == Starters(worker, w) + ClearedBy(p, w)
  {
    hide Sum;
    var ns := StartList(worker, w);
    assert StartList(worker[c := p], w) == ns[c := ClearedBy(p, w)];
    SumSet(ns, c, ClearedBy(p, w));
  }

  // ----- The invariant -----

  /** A pending item is in exactly one place: with its queuer, on one list, or just taken off it. */
  ghost predicate PlaceOf(s: State, w: Work) {
    One(w in s.pending) == Holders(s.threads, w) + Listed(s.lists, w) + Takers(s.worker, w)
  }

  ghost predicate Place(s: State) {
    forall w: Work :: PlaceOf(s, w)
  }

  /** Every successful request is a start, a pending item, or an item about to start. */
  ghost predicate CountOf(s: State, w: Work) {
    s.queued[w] == s.started[w] + One(w in s.pending) + Starters(s.worker, w)
  }

  ghost predicate Count(s: State) {
    forall w: Work :: CountOf(s, w)
  }

  function Busy(p: Phase): nat { if p.Popped? || p.Cleared? || p.Running? then 1 else 0 }

  /** A worker has finished a prefix of what was listed, holds the next item if busy, and the list is the rest. */
  predicate FifoAt(list: seq<Work>, added: seq<Work>, finished: nat, p: Phase) {
    |added| == finished + Busy(p) + |list| && added[finished + Busy(p)..] == list &&
    (Busy(p) == 1 ==> p.work == added[finished])
  }

  predicate Fifo(s: State) {
    Sizes(s) && forall c: nat | c < |s.lists| :: FifoAt(s.lists[c], s.added[c], s.finished[c], s.worker[c])
  }

  ghost predicate Poster(threads: seq<Thread>, c: nat) {
    exists t: nat :: t < |threads| && threads[t].stage.Posting? && threads[t].stage.cpu == c
  }

  /** A sleeping worker with a non-empty list is about to be woken. */
  ghost predicate WakeAt(list: seq<Work>, sem: int, p: Phase, threads: seq<Thread>, c: nat) {
    sem >= -1 && (sem == -1 <==> p == Blocked) &&
    (list != [] && (p == Blocked || (p == Waiting && sem <= 0)) ==> Poster(threads, c))
  }

  ghost predicate Wake(s: State) {
    Sizes(s) && forall c: nat | c < |s.lists| :: WakeAt(s.lists[c], s.sem[c], s.worker[c], s.threads, c)
  }

  ghost predicate Inv(s: State) {
    Sizes(s) && Place(s) && Count(s) && Fifo(s) && Wake(s) && Known(s) && Threads(s)
  }

  /** Barriers are numbered by their flusher. */
  predicate Numbered(queued: multiset<Work>, threads: seq<Thread>) {
    forall w <- queued :: w.Barrier? ==> w.thread < |threads| && w.nth < threads[w.thread].barriers
  }

  ghost predicate Requested(added: seq<seq<Work>>, queued: multiset<Work>) {
    forall c: nat, i: nat | c < |added| && i < |added[c]| :: added[c][i] in queued
  }

  ghost predicate Known(s: State) {
    Numbered(s.queued, s.threads) && (forall w <- s.done :: w in s.queued) && Requested(s.added, s.queued)
  }

  ghost predicate Absent(added: seq<seq<Work>>, w: Work) {
    forall c: nat, i: nat | c < |added| && i < |added[c]| :: added[c][i] != w
  }

  ghost predicate OnlyAt(added: seq<seq<Work>>, w: Work, cpu: nat, at: nat) {
    cpu < |added| && at < |added[cpu]| && added[cpu][at] == w &&
    forall c: nat, i: nat | c < |added| && i < |added[c]| && added[c][i] == w :: c == cpu && i == at
  }

  /** Everything listed on the first `n` processors before the flush began is finished. */
  predicate Flushed(finished: seq<nat>, base: seq<nat>, n: nat) {
    |base| == |finished| && n <= |base| && forall c: nat | c < n :: finished[c] >= base[c]
  }

  predicate Based(base: seq<nat>, added: seq<seq<Work>>) {
    |base| == |added| && forall c: nat | c < |base| :: base[c] <= |added[c]|
  }

  ghost predicate ThreadOk(t: nat, x: Thread, added: seq<seq<Work>>, finished: seq<nat>, done: set<Work>) {
    match x.stage
    case Idle => true
    case Adding(w, c, job) =>
      c < |added| && if job.Plain? then w.Client?
      else x.barriers > 0 && w == Barrier(t, x.barriers - 1) && Absent(added, w) && w !in done &&
           Flushed(finished, job.base, c) && Based(job.base, added)
    case Posting(w, c, job, at) =>
      c < |added| && (job.Flush? ==>
        x.barriers > 0 && w == Barrier(t, x.barriers - 1) && OnlyAt(added, w, c, at) &&
        (w in done && c < |finished| ==> finished[c] >= at) &&
        Flushed(finished, job.base, c) && Based(job.base, added) && job.base[c] <= at)
    case Flushing(c, base) => Flushed(finished, base, c) && Based(base, added)
    case Awaiting(w, c, base, at) =>
      x.barriers > 0 && w == Barrier(t, x.barriers - 1) && OnlyAt(added, w, c, at) &&
      (w in done && c < |finished| ==> finished[c] >= at) &&
      Flushed(finished, base, c) && Based(base, added) && base[c] <= at
  }

  ghost predicate Threads(s: State) {
    forall t: nat | t < |s.threads| :: ThreadOk(t, s.threads[t], s.added, s.finished, s.done)
  }

  // ----- The invariant is kept -----

  lemma SizesKept(s: State, a: Action)
    requires Sizes(s) && Enabled(s, a)
    ensures Sizes(Apply(s, a)) && |Apply(s, a).lists| == |s.lists| && |Apply(s, a).threads| == |s.threads|
  {
  }

  predicate ByThread(a: Action) {
    a.Queue? || a.AddTail? || a.Post? || a.FlushStart? || a.FlushQueue? || a.FlushWake? || a.FlushEnd?
  }

  lemma PlaceByThread(s: State, a: Action, w: Work)
    requires Inv(s) && Enabled(s, a) && ByThread(a)
    ensures PlaceOf(Apply(s, a), w)
  {
    hide Fifo;
    hide Wake;
    hide Threads;
    hide Holders;
    hide Listed;
    hide Takers;
    hide Starters;
    hide Known;
    hide Count;
    var s' := Apply(s, a);
    assert PlaceOf(s, w);
    HoldersSet(s.threads, a.thread, s'.threads[a.thread], w);
    match a
    case Queue(t, v, c) => assert Refused(s, v, c) ==> s' == s;
    case AddTail(t) =>
      var g := s.threads[t].stage;
      ListedSet(s.lists, g.cpu, s.lists[g.cpu] + [g.work], w);
    case Post(t) => TakersSet(s.worker, s.threads[t].stage.cpu, Draining, w);
    case FlushQueue(t) => NewBarrier(s, t);
    case _ =>
  }

  /** Taking the first item off a list. */
  lemma HeadListed(lists: seq<seq<Work>>, c: nat, w: Work)
    requires c < |lists| && lists[c] != []
    ensures Listed(lists, w) == Listed(lists[c := lists[c][1..]], w) + One(lists[c][0] == w)
  {
    hide Listed;
    ListedSet(lists, c, lists[c][1..], w);
    assert lists[c] == [lists[c][0]] + lists[c][1..];
  }

  lemma PlaceByWorker(s: State, a: Action, w: Work)
    requires Inv(s) && Enabled(s, a) && !ByThread(a)
    ensures PlaceOf(Apply(s, a), w)
  {
    hide Fifo;
    hide Wake;
    hide Threads;
    hide Holders;
    hide Listed;
    hide Takers;
    hide Starters;
    hide Known;
    hide Count;
    var s' := Apply(s, a);
    assert PlaceOf(s, w);
    TakersSet(s.worker, a.cpu, s'.worker[a.cpu], w);
    match a
    case Take(c) =>
      if s.lists[c] != [] {
        HeadListed(s.lists, c, w);
      }
    case Signal(c) => assert s.worker[c := s.worker[c]] == s.worker;
    case _ =>
  }

  lemma NewBarrier(s: State, t: nat)
    requires Known(s) && Count(s) && t < |s.threads|
    ensures var b := Barrier(t, s.threads[t].barriers);
            b !in s.queued && b !in s.pending && b !in s.done && Absent(s.added, b)
  {
    var b := Barrier(t, s.threads[t].barriers);
    assert b !in s.queued;
    assert CountOf(s, b);
  }

  lemma PoppedPending(s: State, c: nat)
    requires Place(s) && c < |s.worker| && s.worker[c].Popped?
    ensures s.worker[c].work in s.pending
  {
    TakersSet(s.worker, c, Draining, s.worker[c].work);
    assert PlaceOf(s, s.worker[c].work);
  }

  lemma CountByThread(s: State, a: Action, w: Work)
    requires Inv(s) && Enabled(s, a) && ByThread(a)
    ensures CountOf(Apply(s, a), w)
  {
    hide Fifo;
    hide Wake;
    hide Threads;
    hide Starters;
    hide Known;
    hide Place;
    var s' := Apply(s, a);
    assert CountOf(s, w);
    match a
    case Queue(t, v, c) => assert Refused(s, v, c) ==> s' == s;
    case Post(t) => StartersSet(s.worker, s.threads[t].stage.cpu, Draining, w);
    case FlushQueue(t) => NewBarrier(s, t);
    case _ =>
  }

  lemma CountByWorker(s: State, a: Action, w: Work)
    requires Inv(s) && Enabled(s, a) && !ByThread(a)
    ensures CountOf(Apply(s, a), w)
  {
    hide Fifo;
    hide Wake;
    hide Threads;
    hide Starters;
    hide Known;
    hide Place;
    var s' := Apply(s, a);
    assert CountOf(s, w);
    StartersSet(s.worker, a.cpu, s'.worker[a.cpu], w);
    match a
    case ClearPending(c) => PoppedPending(s, c);
    case Signal(c) => assert s.worker[c := s.worker[c]] == s.worker;
    case _ =>
  }

  lemma FifoKept(s: State, a: Action)
    requires Inv(s) && Enabled(s, a)
    ensures Fifo(Apply(s, a))
  {
    hide Place;
    hide Count;
    hide Wake;
    hide Threads;
    hide Known;
    SizesKept(s, a);
    var s' := Apply(s, a);
    forall c: nat | c < |s'.lists| ensures FifoAt(s'.lists[c], s'.added[c], s'.finished[c], s'.worker[c]) {
      assert FifoAt(s.lists[c], s.added[c], s.finished[c], s.worker[c]);
    }
  }

  lemma WakeKept(s: State, a: Action)
    requires Inv(s) && Enabled(s, a)
    ensures Wake(Apply(s, a))
  {
    hide Place;
    hide Count;
    hide Fifo;
    hide Threads;
    hide Known;
    hide Poster;
    SizesKept(s, a);
    var s' := Apply(s, a);
    forall c: nat | c < |s'.lists| ensures WakeAt(s'.lists[c], s'.sem[c], s'.worker[c], s'.threads, c) {
      assert WakeAt(s.lists[c], s.sem[c], s.worker[c], s.threads, c);
      PosterKept(s, a, c);
    }
  }

  /** The promise of a wake-up is only given up by the wake-up itself. */
  lemma PosterKept(s: State, a: Action, c: nat)
    requires Sizes(s) && Enabled(s, a)
    ensures Poster(s.threads, c) && !(a.Post? && s.threads[a.thread].stage.cpu == c) ==> Poster(Apply(s, a).threads, c)
    ensures a.AddTail? && s.threads[a.thread].stage.cpu == c ==> Poster(Apply(s, a).threads, c)
  {
    var s' := Apply(s, a);
    if Poster(s.threads, c) && !(a.Post? && s.threads[a.thread].stage.cpu == c) {
      var t: nat :| t < |s.threads| && s.threads[t].stage.Posting? && s.threads[t].stage.cpu == c;
      assert s'.threads[t].stage.Posting? && s'.threads[t].stage.cpu == c;
    }
    if a.AddTail? && s.threads[a.thread].stage.cpu == c {
      assert s'.threads[a.thread].stage.Posting?;
    }
  }

  lemma NumberedKept(s: State, a: Action)
    requires Sizes(s) && Enabled(s, a) && Numbered(s.queued, s.threads)
    ensures Numbered(Apply(s, a).queued, Apply(s, a).threads)
  {
    var s' := Apply(s, a);
    forall w <- s'.queued | w.Barrier? ensures w.thread < |s'.threads| && w.nth < s'.threads[w.thread].barriers {
      assert w in s.queued || (a.FlushQueue? && w == Barrier(a.thread, s.threads[a.thread].barriers));
    }
  }

  lemma RequestedKept(s: State, a: Action)
    requires Inv(s) && Enabled(s, a)
    ensures Requested(Apply(s, a).added, Apply(s, a).queued)
  {
    hide Place;
    hide Count;
    hide Wake;
    hide Threads;
    hide Fifo;
    hide Numbered;
    if a.AddTail? {
      AddingQueued(s, a.thread);
    }
  }

  lemma KnownKept(s: State, a: Action)
    requires Inv(s) && Enabled(s, a)
    ensures Known(Apply(s, a))
  {
    hide Place;
    hide Count;
    hide Wake;
    hide Threads;
    hide Numbered;
    NumberedKept(s, a);
    RequestedKept(s, a);
    if a.Signal? {
      assert FifoAt(s.lists[a.cpu], s.added[a.cpu], s.finished[a.cpu], s.worker[a.cpu]);
      assert s.added[a.cpu][s.finished[a.cpu]] in s.queued;
    }
    hide Requested;
  }

  lemma AddingQueued(s: State, t: nat)
    requires Place(s) && Count(s) && t < |s.threads| && s.threads[t].stage.Adding?
    ensures s.threads[t].stage.work in s.queued
  {
    var w := s.threads[t].stage.work;
    HoldersSet(s.threads, t, s.threads[t], w);
    assert PlaceOf(s, w) && CountOf(s, w);
  }

  /** Listing another item disturbs no flusher. */
  lemma ThreadListed(t: nat, x: Thread, added: seq<seq<Work>>, finished: seq<nat>, done: set<Work>, c: nat, w: Work)
    requires ThreadOk(t, x, added, finished, done) && c < |added| && (w.Barrier? ==> w.thread != t)
    ensures ThreadOk(t, x, added[c := added[c] + [w]], finished, done)
  {
  }

  /** The signal of a barrier comes when everything listed before it is finished. */
  lemma ThreadSignalled(t: nat, x: Thread, added: seq<seq<Work>>, finished: seq<nat>, done: set<Work>, c: nat)
    requires ThreadOk(t, x, added, finished, done) && |finished| == |added| && c < |added| && finished[c] < |added[c]|
    ensures ThreadOk(t, x, added, finished, done + {added[c][finished[c]]})
  {
  }

  lemma ThreadFinished(t: nat, x: Thread, added: seq<seq<Work>>, finished: seq<nat>, done: set<Work>, c: nat)
    requires ThreadOk(t, x, added, finished, done) && c < |finished|
    ensures ThreadOk(t, x, added, finished[c := finished[c] + 1], done)
  {
  }

  lemma ThreadsByThread(s: State, a: Action, t: nat)
    requires Inv(s) && Enabled(s, a) && ByThread(a) && t < |s.threads|
    ensures ThreadOk(t, Apply(s, a).threads[t], Apply(s, a).added, Apply(s, a).finished, Apply(s, a).done)
  {
    hide Place;
    hide Count;
    hide Wake;
    hide Fifo;
    hide Known;
    assert ThreadOk(t, s.threads[t], s.added, s.finished, s.done);
    assert ThreadOk(a.thread, s.threads[a.thread], s.added, s.finished, s.done);
    if a.thread == t {
      OwnStep(s, a);
    } else if a.AddTail? {
      var g := s.threads[a.thread].stage;
      ThreadListed(t, s.threads[t], s.added, s.finished, s.done, g.cpu, g.work);
    }
  }

  lemma OwnStep(s: State, a: Action)
    requires Inv(s) && Enabled(s, a) && ByThread(a)
    requires ThreadOk(a.thread, s.threads[a.thread], s.added, s.finished, s.done)
    ensures ThreadOk(a.thread, Apply(s, a).threads[a.thread], Apply(s, a).added, Apply(s, a).finished, Apply(s, a).done)
  {
    hide Place;
    hide Wake;
    hide Fifo;
    match a
    case FlushQueue(t) =>
      NewBarrier(s, t);
    case _ =>
  }

  lemma ThreadsByWorker(s: State, a: Action, t: nat)
    requires Inv(s) && Enabled(s, a) && !ByThread(a) && t < |s.threads|
    ensures ThreadOk(t, Apply(s, a).threads[t], Apply(s, a).added, Apply(s, a).finished, Apply(s, a).done)
  {
    hide Place;
    hide Count;
    hide Wake;
    hide Known;
    hide ThreadOk;
    assert ThreadOk(t, s.threads[t], s.added, s.finished, s.done);
    if a.Signal? {
      assert FifoAt(s.lists[a.cpu], s.added[a.cpu], s.finished[a.cpu], s.worker[a.cpu]);
      ThreadSignalled(t, s.threads[t], s.added, s.finished, s.done, a.cpu);
    } else if a.Finish? {
      ThreadFinished(t, s.threads[t], s.added, s.finished, s.done, a.cpu);
    }
  }

  /** Every step keeps the invariant. */
  lemma InvKept(s: State, a: Action)
    requires Inv(s) && Enabled(s, a)
    ensures Inv(Apply(s, a))
  {
    hide PlaceOf;
    hide CountOf;
    hide Fifo;
    hide Wake;
    hide Known;
    hide ThreadOk;
    hide Apply;
    hide Enabled;
    SizesKept(s, a);
    FifoKept(s, a);
    WakeKept(s, a);
    KnownKept(s, a);
    forall w: Work ensures PlaceOf(Apply(s, a), w) && CountOf(Apply(s, a), w) {
      if ByThread(a) {
        PlaceByThread(s, a, w);
        CountByThread(s, a, w);
      } else {
        PlaceByWorker(s, a, w);
        CountByWorker(s, a, w);
      }
    }
    var s' := Apply(s, a);
    forall t: nat | t < |s'.threads| ensures ThreadOk(t, s'.threads[t], s'.added, s'.finished, s'.done) {
      if ByThread(a) {
        ThreadsByThread(s, a, t);
      } else {
        ThreadsByWorker(s, a, t);
      }
    }
  }

  lemma {:induction false} ZeroSum(ns: seq<nat>)
    requires forall i | 0 <= i < |ns| :: ns[i] == 0
    ensures Sum(ns) == 0
  {
    if ns != [] {
      ZeroSum(ns[..|ns| - 1]);
    }
  }

  /** Nobody holds anything. */
  predicate Still(s: State) {
    (forall i | 0 <= i < |s.threads| :: !s.threads[i].stage.Adding?) &&
    (forall i | 0 <= i < |s.lists| :: s.lists[i] == []) &&
    forall i | 0 <= i < |s.worker| :: Busy(s.worker[i]) == 0
  }

  lemma NoPlace(s: State, w: Work)
    requires Still(s)
    ensures Holders(s.threads, w) == Listed(s.lists, w) == Takers(s.worker, w) == Starters(s.worker, w) == 0
  {
    hide Sum;
    ZeroSum(HeldList(s.threads, w));
    ZeroSum(ListList(s.lists, w));
    ZeroSum(TakenList(s.worker, w));
    ZeroSum(StartList(s.worker, w));
  }

  lemma InvInit(threads: nat, cpus: nat)
    ensures Inv(Init(threads, cpus))
  {
    var s := Init(threads, cpus);
    hide Holders;
    hide Listed;
    hide Takers;
    hide Starters;
    assert Still(s);
    forall w: Work ensures PlaceOf(s, w) && CountOf(s, w) {
      NoPlace(s, w);
    }
  }

  /** `s'` is reached from `s` by the given steps. */
  ghost predicate Reaches(s: State, steps: seq<Action>, s': State)
    decreases |steps|
  {
    if steps == [] then s' == s
    else Sizes(s) && Enabled(s, steps[0]) && Reaches(Apply(s, steps[0]), steps[1..], s')
  }

  lemma {:induction false} RunInv(s: State, steps: seq<Action>, s': State)
    requires Inv(s) && Reaches(s, steps, s')
    ensures Inv(s')
    decreases |steps|
  {
    hide Inv;
    hide Apply;
    hide Enabled;
    if steps != [] {
      InvKept(s, steps[0]);
      RunInv(Apply(s, steps[0]), steps[1..], s');
    }
  }

  // ----- What it means -----

  /** No item is on two lists, on one twice, or both listed and held. */
  lemma OnePlace(s: State, w: Work)
    requires Inv(s)
    ensures Holders(s.threads, w) + Listed(s.lists, w) + Takers(s.worker, w) <= 1
  {
    assert PlaceOf(s, w);
  }

  /** A refused request for an existing processor finds a start of the item still to come. */
  lemma RefusedStarts(s: State, w: Work, c: nat)
    requires Inv(s) && Refused(s, w, c) && c < |s.lists|
    ensures s.started[w] < s.queued[w]
  {
    assert CountOf(s, w);
  }

  /** No start without a request of its own. */
  lemma StartsRequested(s: State, w: Work)
    requires Inv(s)
    ensures s.started[w] <= s.queued[w]
  {
    assert CountOf(s, w);
  }

  predicate Stuck(s: State)
    requires Sizes(s)
  {
    (forall t: nat | t < |s.threads| :: !s.threads[t].stage.Adding? && !s.threads[t].stage.Posting?) &&
    forall c: nat | c < |s.lists| :: s.worker[c] == Blocked
  }

  /** When no queuer is under way and every worker sleeps, every request has been started and nothing is pending. */
  lemma NothingLost(s: State)
    requires Inv(s) && Stuck(s)
    ensures s.pending == {} && s.queued == s.started &&
            forall c: nat | c < |s.lists| :: s.lists[c] == [] && s.finished[c] == |s.added[c]|
  {
    hide Holders;
    hide Listed;
    hide Takers;
    hide Starters;
    hide Known;
    hide Threads;
    forall c: nat | c < |s.lists| ensures s.lists[c] == [] && s.finished[c] == |s.added[c]| {
      assert WakeAt(s.lists[c], s.sem[c], s.worker[c], s.threads, c);
      assert FifoAt(s.lists[c], s.added[c], s.finished[c], s.worker[c]);
    }
    forall w: Work ensures w !in s.pending && s.queued[w] == s.started[w] {
      assert PlaceOf(s, w) && CountOf(s, w);
      NoPlace(s, w);
    }
  }

  /** A state that is not stuck can move by queuers and workers alone. */
  lemma Moves(s: State) returns (a: Action)
    requires Inv(s) && !Stuck(s)
    ensures Enabled(s, a) && !a.Queue? && !a.FlushStart? && !a.FlushQueue?
  {
    if t: nat :| t < |s.threads| && (s.threads[t].stage.Adding? || s.threads[t].stage.Posting?) {
      assert ThreadOk(t, s.threads[t], s.added, s.finished, s.done);
      a := if s.threads[t].stage.Adding? then AddTail(t) else Post(t);
    } else {
      var c: nat :| c < |s.lists| && s.worker[c] != Blocked;
      a := match s.worker[c]
        case Waiting => SemWait(c)
        case Blocked => Take(c)
        case Draining => Take(c)
        case Popped(_) => ClearPending(c)
        case Cleared(_) => Start(c)
        case Running(w) => if w.Barrier? && w !in s.done then Signal(c) else Finish(c);
    }
  }

  // ----- Every run comes to rest -----

  /** Steps that are no new request. */
  predicate Inner(a: Action) { !a.Queue? && !a.FlushStart? }

  /** Steps a thread still causes once its flush has come to processor `c`. */
  function Ahead(c: nat, cpus: nat): nat { if c < cpus then 1 + 11 * (cpus - c) else 1 }

  function Rank(g: Stage, cpus: nat): nat {
    match g
    case Idle => 0
    case Adding(_, c, job) => if job.Plain? then 9 else 10 + Ahead(c + 1, cpus)
    case Posting(_, c, job, _) => if job.Plain? then 3 else 4 + Ahead(c + 1, cpus)
    case Flushing(c, _) => Ahead(c, cpus)
    case Awaiting(_, c, _, _) => 1 + Ahead(c + 1, cpus)
  }

  function PhaseRank(p: Phase, done: set<Work>): nat {
    match p
    case Blocked => 0
    case Waiting => 1
    case Draining => 2
    case Running(w) => if w.Barrier? && w !in done then 4 else 3
    case Cleared(_) => 5
    case Popped(_) => 6
  }

  function Load(list: seq<Work>, sem: int, p: Phase, done: set<Work>): nat {
    5 * |list| + 2 * (if sem > 0 then sem else 0) + PhaseRank(p, done)
  }

  function Ranks(threads: seq<Thread>, cpus: nat): (r: seq<nat>)
    ensures |r| == |threads| && forall t | 0 <= t < |r| :: r[t] == Rank(threads[t].stage, cpus)
  {
    seq(|threads|, t requires 0 <= t < |threads| => Rank(threads[t].stage, cpus))
  }

  function Loads(s: State): (r: seq<nat>)
    requires Sizes(s)
    ensures |r| == |s.lists| && forall c | 0 <= c < |r| :: r[c] == Load(s.lists[c], s.sem[c], s.worker[c], s.done)
  {
    seq(|s.lists|, c requires 0 <= c < |s.lists| => Load(s.lists[c], s.sem[c], s.worker[c], s.done))
  }

  /** How many steps can follow without a new request. */
  function Measure(s: State): nat
    requires Sizes(s)
  {
    Sum(Ranks(s.threads, |s.lists|)) + Sum(Loads(s))
  }

  lemma {:induction false} SumLess(a: seq<nat>, b: seq<nat>, i: nat)
    requires |a| == |b| && i <= |a| && forall k | 0 <= k < |a| :: a[k] <= b[k]
    ensures Sum(a) <= Sum(b) && (i < |a| && a[i] < b[i] ==> Sum(a) < Sum(b))
  {
    if a != [] {
      var n := |a| - 1;
      SumLess(a[..n], b[..n], if i < n then i else n);
    }
  }

  /** A step that changes one thread. */
  lemma ThreadFalls(s: State, s': State, t: nat)
    requires Sizes(s) && Sizes(s') && t < |s.threads| == |s'.threads| && |s.lists| == |s'.lists| &&
             Loads(s') == Loads(s)
    requires s'.threads == s.threads[t := s'.threads[t]]
    ensures Measure(s') + Rank(s.threads[t].stage, |s.lists|) == Measure(s) + Rank(s'.threads[t].stage, |s.lists|)
  {
    hide Sum;
    hide Rank;
    hide Load;
    var n := |s.lists|;
    assert Ranks(s'.threads, n) == Ranks(s.threads, n)[t := Rank(s'.threads[t].stage, n)];
    SumSet(Ranks(s.threads, n), t, Rank(s'.threads[t].stage, n));
  }

  /** A step that changes one processor's list, semaphore or worker. */
  lemma WorkerFalls(s: State, s': State, c: nat)
    requires Sizes(s) && Sizes(s') && c < |s.lists| == |s'.lists| && s'.threads == s.threads
    requires forall k: nat | k < |s.lists| && k != c ::
               s'.lists[k] == s.lists[k] && s'.sem[k] == s.sem[k] && s'.worker[k] == s.worker[k]
    requires s'.done == s.done
    ensures Measure(s') + Load(s.lists[c], s.sem[c], s.worker[c], s.done) ==
            Measure(s) + Load(s'.lists[c], s'.sem[c], s'.worker[c], s.done)
  {
    hide Sum;
    hide Rank;
    hide Load;
    var y := Load(s'.lists[c], s'.sem[c], s'.worker[c], s.done);
    assert Loads(s') == Loads(s)[c := y];
    SumSet(Loads(s), c, y);
  }

  lemma SignalFalls(s: State, c: nat)
    requires Sizes(s) && Enabled(s, Signal(c))
    ensures Sizes(Apply(s, Signal(c))) && Measure(Apply(s, Signal(c))) < Measure(s)
  {
    hide Sum;
    hide Rank;
    SumLess(Loads(Apply(s, Signal(c))), Loads(s), c);
  }

  lemma AddFalls(s: State, t: nat)
    requires Sizes(s) && Enabled(s, AddTail(t))
    ensures Sizes(Apply(s, AddTail(t))) && Measure(Apply(s, AddTail(t))) < Measure(s)
  {
    hide Sum;
    var g := s.threads[t].stage;
    var s1 := s.(lists := s.lists[g.cpu := s.lists[g.cpu] + [g.work]],
                 added := s.added[g.cpu := s.added[g.cpu] + [g.work]]);
    WorkerFalls(s, s1, g.cpu);
    assert Loads(Apply(s, AddTail(t))) == Loads(s1);
    ThreadFalls(s1, Apply(s, AddTail(t)), t);
  }

  lemma PostFalls(s: State, t: nat)
    requires Inv(s) && Enabled(s, Post(t))
    ensures Sizes(Apply(s, Post(t))) && Measure(Apply(s, Post(t))) < Measure(s)
  {
    hide Sum;
    hide Place;
    hide Count;
    hide Fifo;
    hide Known;
    hide Threads;
    var g := s.threads[t].stage;
    assert WakeAt(s.lists[g.cpu], s.sem[g.cpu], s.worker[g.cpu], s.threads, g.cpu);
    var s1 := s.(sem := s.sem[g.cpu := s.sem[g.cpu] + 1],
                 worker := if s.sem[g.cpu] + 1 <= 0 && s.worker[g.cpu] == Blocked then s.worker[g.cpu := Draining]
                   else s.worker);
    WorkerFalls(s, s1, g.cpu);
    assert Loads(Apply(s, Post(t))) == Loads(s1);
    ThreadFalls(s1, Apply(s, Post(t)), t);
  }

  lemma FlushFalls(s: State, a: Action)
    requires Sizes(s) && Enabled(s, a) && (a.FlushQueue? || a.FlushWake? || a.FlushEnd?)
    ensures Sizes(Apply(s, a)) && Measure(Apply(s, a)) < Measure(s)
  {
    hide Sum;
    hide Load;
    assert Loads(Apply(s, a)) == Loads(s);
    ThreadFalls(s, Apply(s, a), a.thread);
  }

  lemma CpuFalls(s: State, a: Action)
    requires Sizes(s) && Enabled(s, a) && (a.SemWait? || a.Take? || a.ClearPending? || a.Start? || a.Finish?)
    ensures Sizes(Apply(s, a)) && Measure(Apply(s, a)) < Measure(s)
  {
    hide Sum;
    hide Rank;
    WorkerFalls(s, Apply(s, a), a.cpu);
  }

  /** Every step of a queuer, flusher or worker that is no new request uses up some of the measure. */
  lemma Falls(s: State, a: Action)
    requires Inv(s) && Enabled(s, a) && Inner(a)
    ensures Sizes(Apply(s, a)) && Measure(Apply(s, a)) < Measure(s)
  {
    hide Apply;
    hide Enabled;
    hide Measure;
    match a
    case AddTail(t) => AddFalls(s, t);
    case Post(t) => PostFalls(s, t);
    case Signal(c) => SignalFalls(s, c);
    case FlushQueue(_) => FlushFalls(s, a);
    case FlushWake(_) => FlushFalls(s, a);
    case FlushEnd(_) => FlushFalls(s, a);
    case SemWait(_) => CpuFalls(s, a);
    case Take(_) => CpuFalls(s, a);
    case ClearPending(_) => CpuFalls(s, a);
    case Start(_) => CpuFalls(s, a);
    case Finish(_) => CpuFalls(s, a);
  }

  ghost predicate AllInner(steps: seq<Action>) { forall a <- steps :: Inner(a) }

  /** Without new requests a run is no longer than the measure. */
  lemma {:induction false} RunBound(s: State, steps: seq<Action>, s': State)
    requires Inv(s) && Reaches(s, steps, s') && AllInner(steps)
    ensures Inv(s') && |steps| + Measure(s') <= Measure(s)
    decreases |steps|
  {
    hide Apply;
    hide Enabled;
    hide Place;
    hide Count;
    hide Fifo;
    hide Wake;
    hide Known;
    hide Threads;
    hide Measure;
    if steps != [] {
      assert steps[0] in steps;
      InvKept(s, steps[0]);
      Falls(s, steps[0]);
      RunBound(Apply(s, steps[0]), steps[1..], s');
    }
  }

  /** Finished barriers are signalled. */
  ghost predicate Signalled(s: State) {
    Sizes(s) && forall c: nat, i: nat | c < |s.added| && i < |s.added[c]| && i < s.finished[c] ::
      s.added[c][i].Barrier? ==> s.added[c][i] in s.done
  }

  lemma SignalledKept(s: State, a: Action)
    requires Inv(s) && Signalled(s) && Enabled(s, a)
    ensures Signalled(Apply(s, a))
  {
    hide Place;
    hide Count;
    hide Wake;
    hide Known;
    hide Threads;
    SizesKept(s, a);
    if a.Finish? {
      assert FifoAt(s.lists[a.cpu], s.added[a.cpu], s.finished[a.cpu], s.worker[a.cpu]);
    }
    if a.AddTail? {
      var c := s.threads[a.thread].stage.cpu;
      assert FifoAt(s.lists[c], s.added[c], s.finished[c], s.worker[c]);
    }
  }

  lemma {:induction false} RunSignalled(s: State, steps: seq<Action>, s': State)
    requires Inv(s) && Signalled(s) && Reaches(s, steps, s')
    ensures Inv(s') && Signalled(s')
    decreases |steps|
  {
    hide Inv;
    hide Signalled;
    hide Apply;
    hide Enabled;
    if steps != [] {
      InvKept(s, steps[0]);
      SignalledKept(s, steps[0]);
      RunSignalled(Apply(s, steps[0]), steps[1..], s');
    }
  }

  /** Only new requests are possible. */
  ghost predicate Quiet(s: State)
    requires Sizes(s)
  {
    forall a: Action :: Enabled(s, a) ==> !Inner(a)
  }

  /**
    * From the start, through any steps and then any run without new requests that cannot go on: every
    * successful request was started exactly once and finished, nothing is pending, and every flush has ended.
    */
  lemma Settles(threads: nat, cpus: nat, steps: seq<Action>, s: State, more: seq<Action>, s': State)
    requires Reaches(Init(threads, cpus), steps, s) && Sizes(s) && Reaches(s, more, s') && AllInner(more) && Sizes(s')
    ensures |more| <= Measure(s)
    ensures Quiet(s') ==> s'.pending == {} && s'.started == s'.queued && Stuck(s')
    ensures Quiet(s') ==> forall t: nat | t < |s'.threads| :: s'.threads[t].stage == Idle
    ensures Quiet(s') ==> forall c: nat | c < |s'.lists| :: s'.finished[c] == |s'.added[c]|
  {
    hide Place;
    hide Count;
    hide Fifo;
    hide Wake;
    hide Known;
    hide Threads;
    hide Measure;
    InvInit(threads, cpus);
    RunSignalled(Init(threads, cpus), steps, s);
    RunSignalled(s, more, s');
    RunBound(s, more, s');
    if Quiet(s') {
      QuietStuck(s');
      NothingLost(s');
      forall t: nat | t < |s'.threads| ensures s'.threads[t].stage == Idle {
        QuietIdle(s', t);
      }
    }
  }

  lemma QuietStuck(s: State)
    requires Inv(s) && Quiet(s)
    ensures Stuck(s)
  {
    hide Place;
    hide Count;
    hide Fifo;
    hide Wake;
    hide Known;
    hide Threads;
    hide Enabled;
    if !Stuck(s) {
      var a := Moves(s);
      assert false;
    }
  }

  lemma QuietIdle(s: State, t: nat)
    requires Inv(s) && Signalled(s) && Quiet(s) && Stuck(s) && t < |s.threads|
    requires forall c: nat | c < |s.lists| :: s.finished[c] == |s.added[c]|
    ensures s.threads[t].stage == Idle
  {
    hide Place;
    hide Count;
    hide Fifo;
    hide Wake;
    hide Known;
    assert ThreadOk(t, s.threads[t], s.added, s.finished, s.done);
    assert !Enabled(s, FlushQueue(t)) && !Enabled(s, FlushEnd(t)) && !Enabled(s, FlushWake(t));
  }

  /** There is such a run from every reachable state. */
  lemma Rests(s: State) returns (steps: seq<Action>, s': State)
    requires Inv(s)
    ensures Reaches(s, steps, s') && AllInner(steps) && Sizes(s') && Quiet(s')
    decreases Measure(s)
  {
    hide Apply;
    hide Enabled;
    hide Place;
    hide Count;
    hide Fifo;
    hide Wake;
    hide Known;
    hide Threads;
    hide Measure;
    steps, s' := [], s;
    if a :| Enabled(s, a) && Inner(a) {
      InvKept(s, a);
      Falls(s, a);
      var rest;
      rest, s' := Rests(Apply(s, a));
      steps := [a] + rest;
      assert steps[1..] == rest;
    }
  }

  /** A flush that ends has seen everything finished that was listed on any processor when it began. */
  lemma FlushComplete(s: State, t: nat)
    requires Inv(s) && Enabled(s, FlushEnd(t))
    ensures forall c: nat | c < |s.lists| ::
              c < |s.threads[t].stage.base| && s.finished[c] >= s.threads[t].stage.base[c]
  {
    assert ThreadOk(t, s.threads[t], s.added, s.finished, s.done);
  }

  /** The same for one processor: a barrier wakes its flusher only after everything listed before it finished. */
  lemma BarrierComplete(s: State, t: nat)
    requires Inv(s) && Enabled(s, FlushWake(t))
    ensures var g := s.threads[t].stage;
            g.cpu < |s.lists| && g.at < |s.added[g.cpu]| && s.added[g.cpu][g.at] == g.work && s.finished[g.cpu] >= g.at
  {
    assert ThreadOk(t, s.threads[t], s.added, s.finished, s.done);
  }

  /** What a flushing thread noted when it began. */
  function Noted(x: Stage): seq<seq<nat>> {
    match x
    case Idle => []
    case Adding(_, _, job) => if job.Flush? then [job.base] else []
    case Posting(_, _, job, _) => if job.Flush? then [job.base] else []
    case Flushing(_, base) => [base]
    case Awaiting(_, _, base, _) => [base]
  }

  lemma NoteKept(s: State, a: Action, t: nat)
    requires Sizes(s) && Enabled(s, a) && t < |s.threads| && Noted(s.threads[t].stage) != [] && a != FlushEnd(t)
    ensures t < |Apply(s, a).threads| && Noted(Apply(s, a).threads[t].stage) == Noted(s.threads[t].stage)
  {
  }

  lemma {:induction false} NoteKeptRun(s: State, steps: seq<Action>, s': State, t: nat)
    requires Inv(s) && Reaches(s, steps, s') && t < |s.threads| && Noted(s.threads[t].stage) != [] &&
             FlushEnd(t) !in steps
    ensures t < |s'.threads| && Noted(s'.threads[t].stage) == Noted(s.threads[t].stage) && Inv(s')
    ensures |s'.lists| == |s.lists|
    decreases |steps|
  {
    hide Apply;
    hide Enabled;
    hide Noted;
    hide Place;
    hide Count;
    hide Fifo;
    hide Wake;
    hide Known;
    hide Threads;
    if steps != [] {
      assert steps[0] in steps;
      InvKept(s, steps[0]);
      SizesKept(s, steps[0]);
      NoteKept(s, steps[0], t);
      NoteKeptRun(Apply(s, steps[0]), steps[1..], s', t);
    }
  }

  /** From the start of a flush to its end, through any steps: all that was listed at the start is finished. */
  lemma FlushSpan(s: State, t: nat, steps: seq<Action>, s': State)
    requires Inv(s) && Enabled(s, FlushStart(t)) && Reaches(Apply(s, FlushStart(t)), steps, s') && FlushEnd(t) !in steps
    requires Sizes(s') && Enabled(s', FlushEnd(t))
    ensures |s'.finished| == |s.added| && forall c: nat | c < |s.added| :: s'.finished[c] >= |s.added[c]|
  {
    hide Place;
    hide Count;
    hide Fifo;
    hide Wake;
    hide Known;
    hide Threads;
    var s1 := Apply(s, FlushStart(t));
    InvKept(s, FlushStart(t));
    NoteKeptRun(s1, steps, s', t);
    FlushComplete(s', t);
  }

  // ----- Where an item goes -----

  lemma {:induction false} StillAdding(s: State, steps: seq<Action>, s': State, t: nat, w: Work, c: nat)
    requires Sizes(s) && Reaches(s, steps, s') && AddTail(t) !in steps
    requires t < |s.threads| && s.threads[t].stage == Adding(w, c, Plain)
    ensures Sizes(s') && |s'.lists| == |s.lists| && t < |s'.threads| && s'.threads[t].stage == Adding(w, c, Plain)
    decreases |steps|
  {
    if steps != [] {
      assert steps[0] in steps;
      SizesKept(s, steps[0]);
      StillAdding(Apply(s, steps[0]), steps[1..], s', t, w, c);
    }
  }

  /** An item successfully queued for a processor comes last on that processor's list, whatever happens before. */
  lemma Lands(s: State, t: nat, w: Work, c: nat, steps: seq<Action>, s': State)
    requires Sizes(s) && Enabled(s, Queue(t, w, c)) && c < |s.lists| && w !in s.pending
    requires Reaches(Apply(s, Queue(t, w, c)), steps, s') && AddTail(t) !in steps
    ensures Sizes(s') && c < |s'.lists| && Enabled(s', AddTail(t))
    ensures Apply(s', AddTail(t)).lists == s'.lists[c := s'.lists[c] + [w]]
  {
    StillAdding(Apply(s, Queue(t, w, c)), steps, s', t, w, c);
  }

  // ----- A work function that flushes its own queue -----

  lemma {:induction false} FinishedSame(s: State, steps: seq<Action>, s': State, c: nat)
    requires Sizes(s) && Reaches(s, steps, s') && c < |s.finished| && Finish(c) !in steps
    ensures Sizes(s') && |s'.finished| == |s.finished| && s'.finished[c] == s.finished[c]
    decreases |steps|
  {
    if steps != [] {
      assert steps[0] in steps;
      SizesKept(s, steps[0]);
      FinishedSame(Apply(s, steps[0]), steps[1..], s', c);
    }
  }

  lemma {:induction false} Midway(s: State, steps: seq<Action>, s': State, n: nat) returns (mid: State)
    requires Inv(s) && Reaches(s, steps, s') && n < |steps|
    ensures Reaches(s, steps[..n], mid) && Sizes(mid) && Enabled(mid, steps[n])
    decreases n
  {
    hide Apply;
    hide Enabled;
    hide Inv;
    mid := s;
    if n > 0 {
      InvKept(s, steps[0]);
      mid := Midway(Apply(s, steps[0]), steps[1..], s', n - 1);
      assert steps[..n][1..] == steps[1..][..n - 1];
    } else {
      InvSizes(s);
    }
  }

  lemma InvSizes(s: State)
    requires Inv(s)
    ensures Sizes(s)
  {
  }

  /** A flush that begins while an item runs cannot end before that item finishes. */
  lemma FlushOutlasts(s: State, t: nat, c: nat, steps: seq<Action>, s': State)
    requires Inv(s) && Enabled(s, FlushStart(t)) && Reaches(Apply(s, FlushStart(t)), steps, s') && Sizes(s')
    requires c < |s.worker| && s.worker[c].Running? && FlushEnd(t) !in steps && Finish(c) !in steps
    ensures !Enabled(s', FlushEnd(t))
  {
    hide Place;
    hide Count;
    hide Wake;
    hide Known;
    hide Threads;
    assert FifoAt(s.lists[c], s.added[c], s.finished[c], s.worker[c]);
    FinishedSame(Apply(s, FlushStart(t)), steps, s', c);
    if Enabled(s', FlushEnd(t)) {
      FlushSpan(s, t, steps, s');
      assert false;
    }
  }

  /**
    * A work function that flushes the queue it runs on, and so does not return before its flush has ended,
    * never returns, whatever anyone else does.
    */
  lemma SelfFlush(s: State, t: nat, c: nat, steps: seq<Action>, s': State)
    requires Inv(s) && Enabled(s, FlushStart(t)) && Reaches(Apply(s, FlushStart(t)), steps, s')
    requires c < |s.worker| && s.worker[c].Running?
    requires forall i: nat | i < |steps| && steps[i] == Finish(c) :: FlushEnd(t) in steps[..i]
    ensures FlushEnd(t) !in steps && Finish(c) !in steps
  {
    hide Apply;
    hide Enabled;
    hide Inv;
    InvSizes(s);
    InvKept(s, FlushStart(t));
    for n := 0 to |steps|
      invariant FlushEnd(t) !in steps[..n]
    {
      NotBefore(steps, n, FlushEnd(t), Finish(c));
      var mid := Midway(Apply(s, FlushStart(t)), steps, s', n);
      FlushOutlasts(s, t, c, steps[..n], mid);
      assert steps[..n + 1] == steps[..n] + [steps[n]];
    }
    assert steps[..|steps|] == steps;
    NotBefore(steps, |steps|, FlushEnd(t), Finish(c));
  }

  lemma NotBefore(steps: seq<Action>, n: nat, a: Action, b: Action)
    requires n <= |steps| && a !in steps[..n]
    requires forall i: nat | i < |steps| && steps[i] == b :: a in steps[..i]
    ensures b !in steps[..n]
  {
    forall i: nat | i < n ensures steps[i] != b {
      assert forall x <- steps[..i] :: x in steps[..n];
    }
  }
}
