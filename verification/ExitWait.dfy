/**
  * Process exit, wait and program execution as interleaved steps: an unlocked zombie mark, sections under the
  * manager lock, and the two ends of an exec, between which a task is not in the pid table.
  */
module ExitWait {
  type Pid = nat

  datatype Status = Ready | Waiting(on: Pid) | Zombie

  /** How far a task is in exiting: marked, through its exit section, switched away for good. */
  datatype Exit = Not | Marked | Notified | Left

  /** `hashed` says whether the pid table leads to it. */
  datatype Task = Task(parent: Pid, status: Status, code: int, hashed: bool, exit: Exit)

  /** `next` is the pid to give out; `failed` records the tasks that exited from within an exec. */
  datatype State = State(tasks: map<Pid, Task>, next: Pid, failed: set<Pid>)

  datatype Step =
    | Spawn(parent: Pid)
    | BeginExec(task: Pid)
    | EndExec(task: Pid)
    | Mark(task: Pid, code: int)
    | Notify(task: Pid)
    | Leave(task: Pid)
    | Wait(parent: Pid, child: Pid)
    | Sweep(task: Pid)

  datatype Answer = NotFound | NoChild | Reaped(pid: Pid, code: int) | Asleep

  predicate Alive(s: State, p: Pid) { p in s.tasks && s.tasks[p].status == Ready && s.tasks[p].exit == Not }

  /** What a lookup by pid finds. */
  predicate Hashed(s: State, p: Pid) { p in s.tasks && s.tasks[p].hashed }

  predicate Enabled(s: State, step: Step) {
    match step
    case Spawn(p) => Alive(s, p) && Hashed(s, p)
    case BeginExec(t) => Alive(s, t) && Hashed(s, t)
    case EndExec(t) => Alive(s, t) && !Hashed(s, t)
    case Mark(t, _) => Alive(s, t)
    case Notify(t) => t in s.tasks && s.tasks[t].exit == Marked
    case Leave(t) => t in s.tasks && s.tasks[t].exit == Notified
    case Wait(p, c) => Alive(s, p) && Hashed(s, p)
    case Sweep(t) => t in s.tasks && s.tasks[t].exit == Left
  }

  /** What a wait answers: it reaps a zombie child, or puts the parent to sleep. */
  function Answered(s: State, p: Pid, c: Pid): Answer {
    if !Hashed(s, c) then NotFound
    else if s.tasks[c].parent != p then NoChild
    else if s.tasks[c].status == Zombie then Reaped(c, s.tasks[c].code)
    else Asleep
  }

  /** A reaped child goes at once, unless it is still on a processor. */
  function AfterWait(s: State, p: Pid, c: Pid): State
    requires p in s.tasks
  {
    match Answered(s, p, c)
    case Reaped(_, _) => if s.tasks[c].exit == Left then s.(tasks := s.tasks - {c}) else s
    case Asleep => s.(tasks := s.tasks[p := s.tasks[p].(status := Waiting(c))])
    case _ => s
  }

  /** The waiter of an exited task is made ready, if the pid table leads to both. */
  function Woken(s: State, c: Pid): map<Pid, Task> {
    if !Hashed(s, c) then s.tasks
    else
      var p := s.tasks[c].parent;
      if p != 0 && p != c && Hashed(s, p) && s.tasks[p].status == Waiting(c)
      then s.tasks[p := s.tasks[p].(status := Ready)] else s.tasks
  }

  /** The locked section of an exit. */
  function AfterNotify(s: State, c: Pid): State
    requires c in s.tasks
  {
    var p := s.tasks[c].parent;
    var tasks := if Hashed(s, p) && s.tasks[p].status != Zombie then Woken(s, c) else s.tasks;
    s.(tasks := tasks[c := s.tasks[c].(exit := Notified)])
  }

  function Apply(s: State, step: Step): State
    requires Enabled(s, step)
  {
    match step
    case Spawn(p) => s.(tasks := s.tasks[s.next := Task(p, Ready, 0, true, Not)], next := s.next + 1)
    case BeginExec(t) => s.(tasks := s.tasks[t := s.tasks[t].(hashed := false)])
    case EndExec(t) => s.(tasks := s.tasks[t := s.tasks[t].(hashed := true)])
    case Mark(t, code) =>
      s.(tasks := s.tasks[t := s.tasks[t].(status := Zombie, code := code, exit := Marked)],
         failed := if s.tasks[t].hashed then s.failed else s.failed + {t})
    case Notify(t) => AfterNotify(s, t)
    case Leave(t) => s.(tasks := s.tasks[t := s.tasks[t].(exit := Left)])
    case Wait(p, c) => AfterWait(s, p, c)
    case Sweep(t) => s.(tasks := s.tasks - {t})
  }

  /** A task has run through its exit section. */
  predicate Finished(s: State, c: Pid) {
    c < s.next && (c in s.tasks ==> s.tasks[c].exit == Notified || s.tasks[c].exit == Left)
  }

  /** A sleeping parent's child is its child, and has its exit section ahead unless it exited from within an exec. */
  predicate WaiterOk(s: State, p: Pid)
    requires p in s.tasks
  {
    s.tasks[p].status.Waiting? ==>
      var c := s.tasks[p].status.on;
      s.tasks[p].hashed && s.tasks[p].exit == Not && p != c && c < s.next &&
      (c in s.tasks ==> s.tasks[c].parent == p) && (Finished(s, c) ==> c in s.failed)
  }

  predicate TaskOk(s: State, t: Pid)
    requires t in s.tasks
  {
    t < s.next && (s.tasks[t].exit == Not <==> s.tasks[t].status != Zombie) && (t != 0 ==> s.tasks[t].parent != t) &&
    (t in s.failed <==> s.tasks[t].exit != Not && !s.tasks[t].hashed)
  }

  predicate Inv(s: State) {
    (forall t <- s.tasks :: TaskOk(s, t)) && (forall t <- s.failed :: t < s.next) &&
    forall p <- s.tasks :: p != 0 ==> WaiterOk(s, p)
  }

  predicate Init(s: State) {
    s.failed == {} && forall t <- s.tasks ::
      t < s.next && s.tasks[t].hashed && s.tasks[t].status == Ready && s.tasks[t].exit == Not &&
      (t != 0 ==> s.tasks[t].parent != t)
  }

  /** `s'` is reached from `s` by the given steps. */
  ghost predicate Reaches(s: State, steps: seq<Step>, s': State)
    decreases |steps|
  {
    if steps == [] then s' == s
    else Enabled(s, steps[0]) && Reaches(Apply(s, steps[0]), steps[1..], s')
  }

  lemma TasksKept(s: State, step: Step, t: Pid)
    requires Inv(s) && Enabled(s, step) && t in Apply(s, step).tasks
    ensures TaskOk(Apply(s, step), t)
  {
    assert t in s.tasks ==> TaskOk(s, t);
  }

  lemma WaitersKept(s: State, step: Step, p: Pid)
    requires Inv(s) && Enabled(s, step) && p in Apply(s, step).tasks && p != 0
    ensures WaiterOk(Apply(s, step), p)
  {
    var s' := Apply(s, step);
    assert p in s.tasks ==> WaiterOk(s, p);
    if s'.tasks[p].status.Waiting? {
      var c := s'.tasks[p].status.on;
      assert c in s.tasks ==> TaskOk(s, c);
    }
  }

  /** Every step, of anyone, keeps the invariant. */
  lemma InvKept(s: State, step: Step)
    requires Inv(s) && Enabled(s, step)
    ensures Inv(Apply(s, step))
  {
    var s' := Apply(s, step);
    forall t <- s'.tasks ensures TaskOk(s', t) {
      TasksKept(s, step, t);
    }
    forall p <- s'.tasks | p != 0 ensures WaiterOk(s', p) {
      WaitersKept(s, step, p);
    }
    hide WaiterOk;
  }

  lemma {:induction false} RunInv(s: State, steps: seq<Step>, s': State)
    requires Inv(s) && Reaches(s, steps, s')
    ensures Inv(s')
    decreases |steps|
  {
    hide Inv;
    hide Apply;
    hide Enabled;
    if steps != [] {
      InvKept(s, steps[0]);
      RunInv(Apply(s, steps[0]), steps[1..], s');
    }
  }

  lemma InitInv(s: State)
    requires Init(s)
    ensures Inv(s)
  {
  }

  /** No task exits from within an exec: every exec that is begun succeeds before its process exits. */
  ghost predicate ExecsSucceed(s: State, steps: seq<Step>)
    decreases |steps|
  {
    steps != [] && Enabled(s, steps[0]) ==>
      (steps[0].Mark? ==> Hashed(s, steps[0].task)) && ExecsSucceed(Apply(s, steps[0]), steps[1..])
  }

  lemma {:induction false} NoneFailed(s: State, steps: seq<Step>, s': State)
    requires Reaches(s, steps, s') && ExecsSucceed(s, steps)
    ensures s'.failed == s.failed
    decreases |steps|
  {
    if steps != [] {
      NoneFailed(Apply(s, steps[0]), steps[1..], s');
    }
  }

  /**
    * In every run of forks, waits, exits and successful execs, no parent with a nonzero pid sleeps on a child
    * that has finished its exit.
    */
  lemma NoLostWakeup(s: State, steps: seq<Step>, s': State, p: Pid)
    requires Init(s) && Reaches(s, steps, s') && ExecsSucceed(s, steps)
    requires p != 0 && p in s'.tasks && s'.tasks[p].status.Waiting?
    ensures !Finished(s', s'.tasks[p].status.on)
  {
    InitInv(s);
    RunInv(s, steps, s');
    NoneFailed(s, steps, s');
    assert WaiterOk(s', p);
  }

  /** In every run whatever, a parent sleeping on a finished child sleeps on one that exited from within an exec. */
  lemma OnlyFailedExecs(s: State, steps: seq<Step>, s': State, p: Pid)
    requires Init(s) && Reaches(s, steps, s') && p != 0 && p in s'.tasks && s'.tasks[p].status.Waiting?
    requires Finished(s', s'.tasks[p].status.on)
    ensures s'.tasks[p].status.on in s'.failed
  {
    InitInv(s);
    RunInv(s, steps, s');
    assert WaiterOk(s', p);
  }

  /** Over every run: the exit section wakes the sleeping parent exactly when the pid table leads to the child. */
  lemma NotifyWakes(s: State, steps: seq<Step>, s': State, p: Pid, c: Pid)
    requires Init(s) && Reaches(s, steps, s') && Enabled(s', Notify(c))
    requires p != 0 && p in s'.tasks && s'.tasks[p].status == Waiting(c)
    ensures Apply(s', Notify(c)).tasks[p].status == (if Hashed(s', c) then Ready else Waiting(c))
    ensures Hashed(s', c) <==> c !in s'.failed
  {
    InitInv(s);
    RunInv(s, steps, s');
    assert WaiterOk(s', p) && TaskOk(s', c);
  }

  /** A parent woken by its child's exit reaps it, with the code it exited with, at its next try. */
  lemma WokenReaps(s: State, p: Pid, c: Pid)
    requires Inv(s) && Enabled(s, Notify(c)) && Hashed(s, c)
    requires p != 0 && p in s.tasks && s.tasks[p].status == Waiting(c)
    ensures var s' := Apply(s, Notify(c)); Alive(s', p) && Answered(s', p, c) == Reaped(c, s.tasks[c].code)
  {
    assert WaiterOk(s, p) && TaskOk(s, c);
  }

  // ----- Who reaps, what, and how often -----

  /** A task keeps its parent for life, and its exit code from the moment it is marked. */
  lemma {:induction false} ParentKept(s: State, steps: seq<Step>, s': State, c: Pid)
    requires Reaches(s, steps, s') && c < s.next && c in s'.tasks
    requires forall t <- s.tasks :: t < s.next
    ensures c in s.tasks && s'.tasks[c].parent == s.tasks[c].parent && c < s'.next
    ensures s.tasks[c].exit != Not ==> s'.tasks[c].exit != Not && s'.tasks[c].code == s.tasks[c].code
    decreases |steps|
  {
    if steps != [] {
      var s1 := Apply(s, steps[0]);
      ParentKept(s1, steps[1..], s', c);
    }
  }

  /** Only the task that spawned a child ever reaps it. */
  lemma ReapedByParent(s: State, p: Pid, steps: seq<Step>, s': State, q: Pid)
    requires Inv(s) && Enabled(s, Spawn(p)) && Reaches(Apply(s, Spawn(p)), steps, s')
    ensures Answered(s', q, s.next).Reaped? ==> q == p
  {
    InvKept(s, Spawn(p));
    InvBelow(Apply(s, Spawn(p)));
    hide Inv;
    if s.next in s'.tasks {
      ParentKept(Apply(s, Spawn(p)), steps, s', s.next);
    }
  }

  /** A child is reaped with the code it exited with. */
  lemma ReapedWithCode(s: State, c: Pid, code: int, steps: seq<Step>, s': State, q: Pid)
    requires Inv(s) && Enabled(s, Mark(c, code)) && Reaches(Apply(s, Mark(c, code)), steps, s')
    ensures Answered(s', q, c).Reaped? ==> Answered(s', q, c) == Reaped(c, code)
  {
    InvKept(s, Mark(c, code));
    InvBelow(s);
    InvBelow(Apply(s, Mark(c, code)));
    hide Inv;
    if c in s'.tasks {
      ParentKept(Apply(s, Mark(c, code)), steps, s', c);
    }
  }

  lemma InvBelow(s: State)
    requires Inv(s)
    ensures forall t <- s.tasks :: t < s.next
  {
    forall t <- s.tasks ensures t < s.next {
      assert TaskOk(s, t);
    }
  }

  /**
    * Reaping a child ends it, and nobody finds it again, exactly when it has left its processor; otherwise the
    * same wait reaps it once more.
    */
  lemma ReapedOnce(s: State, p: Pid, c: Pid, steps: seq<Step>, s': State, q: Pid)
    requires Inv(s) && Enabled(s, Wait(p, c)) && Answered(s, p, c).Reaped?
    requires Reaches(Apply(s, Wait(p, c)), steps, s')
    ensures s.tasks[c].exit == Left ==> Answered(s', q, c) == NotFound
    ensures s.tasks[c].exit != Left ==> Answered(Apply(s, Wait(p, c)), p, c) == Answered(s, p, c)
  {
    InvKept(s, Wait(p, c));
    InvBelow(s);
    InvBelow(Apply(s, Wait(p, c)));
    hide Inv;
    if s.tasks[c].exit == Left && c in s'.tasks {
      ParentKept(Apply(s, Wait(p, c)), steps, s', c);
      assert false;
    }
  }

  /** A parent that waits twice before its child has left the processor reaps it twice. */
  lemma ReapedTwice() returns (s: State, steps: seq<Step>, s': State)
    ensures Init(s) && steps == [Spawn(1), Mark(2, 7), Wait(1, 2)] && Reaches(s, steps, s')
    ensures Answered(s', 1, 2) == Reaped(2, 7) && Enabled(s', Wait(1, 2))
  {
    s := State(map[1 := Task(0, Ready, 0, true, Not)], 2, {});
    var s1 := Apply(s, Spawn(1));
    var s2 := Apply(s1, Mark(2, 7));
    assert Answered(s2, 1, 2) == Reaped(2, 7);
    s' := Apply(s2, Wait(1, 2));
    var e: seq<Step> := [];
    assert Reaches(s', e, s');
    hide Apply;
    hide Enabled;
    hide Reaches;
    OneStep(s2, Wait(1, 2), e, s');
    OneStep(s1, Mark(2, 7), [Wait(1, 2)] + e, s');
    steps := [Mark(2, 7)] + ([Wait(1, 2)] + e);
    OneStep(s, Spawn(1), steps, s');
    steps := [Spawn(1)] + steps;
  }

  lemma StillAsleep(s: State, step: Step, p: Pid, c: Pid)
    requires Inv(s) && Enabled(s, step) && p != 0 && p in s.tasks && s.tasks[p].status == Waiting(c) && c in s.failed
    ensures p in Apply(s, step).tasks && Apply(s, step).tasks[p].status == Waiting(c) && c in Apply(s, step).failed
  {
    assert WaiterOk(s, p) && TaskOk(s, p) && (c in s.tasks ==> TaskOk(s, c));
  }

  /** A parent asleep on a child that exited from within an exec sleeps for ever. */
  lemma {:induction false} AsleepForEver(s: State, steps: seq<Step>, s': State, p: Pid, c: Pid)
    requires Inv(s) && Reaches(s, steps, s') && p != 0 && p in s.tasks && s.tasks[p].status == Waiting(c) &&
             c in s.failed
    ensures p in s'.tasks && s'.tasks[p].status == Waiting(c)
    decreases |steps|
  {
    hide Inv;
    hide Apply;
    hide Enabled;
    if steps != [] {
      StillAsleep(s, steps[0], p, c);
      InvKept(s, steps[0]);
      AsleepForEver(Apply(s, steps[0]), steps[1..], s', p, c);
    }
  }

  /** Fork, wait, and a child whose exec fails: the parent sleeps on although the child has finished. */
  lemma FailedExecSleeps() returns (s: State, steps: seq<Step>, s': State)
    ensures Init(s) && steps == [Spawn(1), Wait(1, 2), BeginExec(2), Mark(2, 1), Notify(2)] && Reaches(s, steps, s')
    ensures 1 in s'.tasks && s'.tasks[1].status == Waiting(2) && Finished(s', 2)
  {
    s := State(map[1 := Task(0, Ready, 0, true, Not)], 2, {});
    var s1 := Apply(s, Spawn(1));
    var s2 := Apply(s1, Wait(1, 2));
    var s3 := Apply(s2, BeginExec(2));
    var s4 := Apply(s3, Mark(2, 1));
    s' := Apply(s4, Notify(2));
    hide Apply;
    hide Enabled;
    hide Finished;
    var e: seq<Step> := [];
    assert Reaches(s', e, s');
    hide Reaches;
    OneStep(s4, Notify(2), e, s');
    OneStep(s3, Mark(2, 1), [Notify(2)] + e, s');
    OneStep(s2, BeginExec(2), [Mark(2, 1)] + ([Notify(2)] + e), s');
    OneStep(s1, Wait(1, 2), [BeginExec(2)] + ([Mark(2, 1)] + ([Notify(2)] + e)), s');
    steps := [Wait(1, 2)] + ([BeginExec(2)] + ([Mark(2, 1)] + ([Notify(2)] + e)));
    OneStep(s, Spawn(1), steps, s');
    steps := [Spawn(1)] + steps;
  }

  lemma OneStep(s: State, step: Step, rest: seq<Step>, s': State)
    requires Enabled(s, step) && Reaches(Apply(s, step), rest, s')
    ensures Reaches(s, [step] + rest, s')
  {
    assert ([step] + rest)[1..] == rest;
  }
}
