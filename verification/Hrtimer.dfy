/** High-resolution timers: one red-black tree of active timers per processor, ordered by expiry. */
module Hrtimer {
  import opened Collections
  import opened RbShape
  import opened RbKeys
  import opened RbTree

  datatype Timer = Timer(expires: nat, interval: nat, active: bool)

  type Timers = map<Node, Timer>

  function Expiries(t: Timers): Keys { map n | n in t :: t[n].expires }

  /** The tree holds exactly the active timers, earliest first. */
  ghost predicate Good(t: Timers, c: seq<Node>) {
    NIL !in c && NoDup(c) && (forall n :: n in c <==> n in t && t[n].active) && Sorted(Expiries(t), c)
  }

  /** A periodic timer past `now` on its own grid, one period at most ahead. */
  ghost predicate OnGrid(before: nat, interval: nat, now: nat, after: nat) {
    after > now && after - interval <= now &&
    exists k: nat {:trigger k * interval} :: k >= 1 && after == before + k * interval
  }

  /** What firing does to a timer. */
  ghost predicate Fired(a: Timer, b: Timer, now: nat) {
    a.active && a.expires <= now && b.interval == a.interval &&
    if a.interval == 0 then b == a.(active := false) else b.active && OnGrid(a.expires, a.interval, now, b.expires)
  }

  method Rearm(expires: nat, interval: nat, now: nat) returns (r: nat)
    requires interval > 0 && expires <= now
    ensures OnGrid(expires, interval, now, r)
  {
    r := expires + interval;
    ghost var k: nat := 1;
    Times(1, interval);
    while r <= now
      invariant k >= 1 && r == expires + k * interval && r - interval <= now
      decreases now - r
    {
      Times(k, interval);
      r := r + interval;
      k := k + 1;
    }
  }

  lemma Times(k: nat, n: nat)
    ensures (k + 1) * n == k * n + n && 1 * n == n
  {
  }

  lemma SortedLess(key: Keys, a: seq<Node>, z: Node, b: seq<Node>)
    requires Sorted(key, a + [z] + b)
    ensures Sorted(key, a + b)
  {
    var s, r := a + [z] + b, a + b;
    forall n <- r ensures n in key {
      assert n in s;
    }
    forall i, j | 0 <= i < j < |r| ensures key[r[i]] <= key[r[j]] {
      var i', j' := if i < |a| then i else i + 1, if j < |a| then j else j + 1;
      assert s[i'] == r[i] && s[j'] == r[j];
    }
  }

  lemma SortedElse(t: Timers, c: seq<Node>, z: Node, x: Timer)
    requires Sorted(Expiries(t), c) && z !in c
    ensures Sorted(Expiries(t[z := x]), c)
  {
  }

  lemma RepeatLess(a: seq<Node>, z: Node, b: seq<Node>)
    requires NoDup(a + [z] + b)
    ensures z !in a + b && NoDup(a + b)
  {
    var s, r := a + [z] + b, a + b;
    assert s[|a|] == z;
    forall i | 0 <= i < |a| ensures a[i] != z {
      assert s[i] == a[i];
    }
    forall i | 0 <= i < |b| ensures b[i] != z {
      assert s[|a| + 1 + i] == b[i];
    }
    forall i, j | 0 <= i < j < |r| ensures r[i] != r[j] {
      var i', j' := if i < |a| then i else i + 1, if j < |a| then j else j + 1;
      assert s[i'] == r[i] && s[j'] == r[j];
    }
  }

  /** Taking a timer out of the tree and marking it so. */
  lemma TakenOut(t: Timers, a: seq<Node>, z: Node, b: seq<Node>, x: Timer)
    requires Good(t, a + [z] + b) && !x.active
    ensures Good(t[z := x], a + b) && z !in a + b && z != NIL
  {
    hide Sorted;
    hide NoDup;
    SortedLess(Expiries(t), a, z, b);
    RepeatLess(a, z, b);
    SortedElse(t, a + b, z, x);
    var s := a + [z] + b;
    assert z in s;
    forall n ensures n in a + b <==> n in t[z := x] && t[z := x][n].active {
      assert n != z ==> (n in a + b <==> n in s);
    }
  }

  lemma PutIn(t: Timers, c: seq<Node>, k: nat, z: Node, x: Timer)
    requires Good(t, c) && z in t && !t[z].active && x.active && z != NIL && k <= |c|
    requires Sorted(Expiries(t[z := x]), c[..k] + [z] + c[k..])
    ensures Good(t[z := x], c[..k] + [z] + c[k..])
  {
    hide Sorted;
    var r := c[..k] + [z] + c[k..];
    assert c == c[..k] + c[k..];
    assert z !in c;
    forall i, j | 0 <= i < j < |r| ensures r[i] != r[j] {
      assert i < k ==> r[i] == c[i];
      assert j > k ==> r[j] == c[j - 1];
      assert i > k ==> r[i] == c[i - 1];
      assert j < k ==> r[j] == c[j];
    }
  }

  /** A run of the interrupt so far: who fired, in what order, and that everybody else is as before. */
  ghost predicate Progress(t0: Timers, t: Timers, fired: seq<Node>, now: nat) {
    t.Keys == t0.Keys && NoDup(fired) &&
    (forall n <- fired :: n in t0 && Fired(t0[n], t[n], now)) &&
    (forall n <- t0 :: n !in fired ==> t[n] == t0[n]) &&
    (forall i, j | 0 <= i < j < |fired| :: t0[fired[i]].expires <= t0[fired[j]].expires) &&
    forall n <- fired, m <- t :: m !in fired && t[m].active ==> t0[n].expires <= t0[m].expires
  }

  ghost predicate Earliest(t: Timers, z: Node) {
    z in t && t[z].active && forall n <- t :: t[n].active ==> t[z].expires <= t[n].expires
  }

  /** The delta leads to the earliest active timer, if there is one; 0 stands for an overdue one. */
  ghost predicate Next(t: Timers, now: nat, delta: seq<nat>) {
    if exists n :: n in t && t[n].active
    then exists z :: Earliest(t, z) && delta == [if t[z].expires > now then t[z].expires - now else 0]
    else delta == []
  }

  /** Nothing is due any more, and the delta is the time to the earliest active timer. */
  ghost predicate Programmed(t: Timers, now: nat, delta: seq<nat>) {
    (forall n <- t :: t[n].active ==> t[n].expires > now) &&
    if exists n :: n in t && t[n].active
      then exists z :: Earliest(t, z) && delta == [t[z].expires - now] else delta == []
  }

  lemma NextProgrammed(t: Timers, now: nat, delta: seq<nat>)
    requires Next(t, now, delta) && forall n <- t :: t[n].active ==> t[n].expires > now
    ensures Programmed(t, now, delta)
  {
  }

  function Due(t: Timers, now: nat): set<Node> { set n | n in t && t[n].active && t[n].expires <= now }

  lemma FirstIs(t: Timers, c: seq<Node>)
    requires Good(t, c)
    ensures c == [] ==> forall n <- t :: !t[n].active
    ensures c != [] ==> c[0] != NIL && c[0] in t && Earliest(t, c[0])
  {
    hide NoDup;
    if c != [] {
      assert c[0] in c;
      forall n <- t | t[n].active ensures t[c[0]].expires <= t[n].expires {
        assert n in c;
        var i :| 0 <= i < |c| && c[i] == n;
        assert Expiries(t)[c[0]] <= Expiries(t)[c[i]];
      }
    } else {
      forall n <- t ensures !t[n].active {
        assert n !in c;
      }
    }
  }

  lemma ProgressNone(t: Timers, now: nat)
    ensures Progress(t, t, [], now)
  {
  }

  /** A timer found due has not fired yet. */
  lemma ProgressFirst(t0: Timers, t: Timers, fired: seq<Node>, now: nat, z: Node)
    requires Progress(t0, t, fired, now) && Earliest(t, z) && t[z].expires <= now
    ensures z !in fired && z in t0 && t0[z] == t[z] && |fired| < |Due(t0, now)|
  {
    hide NoDup;
    var due := Due(t0, now);
    forall n <- fired ensures n in due && n != z {
      assert Fired(t0[n], t[n], now);
    }
    FewerFired(fired, due, z);
  }

  lemma FewerFired(fired: seq<Node>, due: set<Node>, z: Node)
    requires NoDup(fired) && (forall n <- fired :: n in due && n != z) && z in due
    ensures |fired| < |due|
  {
    var s := Elems(fired);
    ElemsSize(fired);
    assert s <= due - {z};
    SubsetSize(s, due - {z});
  }

  lemma ProgressNext(t0: Timers, t: Timers, t': Timers, fired: seq<Node>, now: nat, z: Node)
    requires Progress(t0, t, fired, now) && Earliest(t, z) && t[z].expires <= now && z !in fired && z in t0 &&
             t0[z] == t[z]
    requires z in t' && t' == t[z := t'[z]] && Fired(t[z], t'[z], now)
    ensures Progress(t0, t', fired + [z], now)
  {
    hide Fired;
    var fired' := fired + [z];
    forall n <- fired' ensures n in t0 && Fired(t0[n], t'[n], now) {
    }
    forall i, j | 0 <= i < j < |fired'| ensures t0[fired'[i]].expires <= t0[fired'[j]].expires {
      if j == |fired| {
        assert fired[i] in fired;
      }
    }
    forall n <- fired', m <- t' | m !in fired' && t'[m].active ensures t0[n].expires <= t0[m].expires {
      assert m != z && m !in fired && t[m] == t'[m];
    }
  }

  lemma ProgressDone(t0: Timers, t: Timers, fired: seq<Node>, now: nat)
    requires Progress(t0, t, fired, now) && forall n <- t :: t[n].active ==> t[n].expires > now
    ensures forall n :: n in fired <==> n in t0 && t0[n].active && t0[n].expires <= now
    ensures forall n <- t :: n in t0 && if n in fired then Fired(t0[n], t[n], now) else t[n] == t0[n]
    ensures NoDup(fired) && t.Keys == t0.Keys
    ensures forall i, j | 0 <= i < j < |fired| ::
              fired[i] in t0 && fired[j] in t0 && t0[fired[i]].expires <= t0[fired[j]].expires
  {
    forall n | n in t0 && t0[n].active && t0[n].expires <= now ensures n in fired {
    }
    forall i, j | 0 <= i < j < |fired| ensures fired[i] in t0 && fired[j] in t0 {
      assert fired[i] in fired && fired[j] in fired;
    }
  }

  class Base {
    const tree: Tree
    var timer: Timers

    ghost predicate Valid()
      reads this, tree
    {
      tree.Valid() && Good(timer, tree.Contents())
    }

    constructor ()
      ensures Valid() && fresh(tree) && timer == map[]
    {
      tree := new Tree();
      timer := map[];
    }

    method Init(z: Node)
      requires Valid() && z != NIL && z !in timer
      modifies this`timer
      ensures Valid() && timer == old(timer)[z := Timer(0, 0, false)]
    {
      SortedElse(timer, tree.Contents(), z, Timer(0, 0, false));
      hide Sorted;
      timer := timer[z := Timer(0, 0, false)];
    }

    method Detach(z: Node)
      requires Valid() && z in timer && timer[z].active
      modifies this`timer, tree
      ensures Valid() && timer == old(timer)[z := old(timer)[z].(active := false)]
    {
      hide Sorted;
      hide NoDup;
      ghost var a, b := tree.Remove(z);
      TakenOut(timer, a, z, b, timer[z].(active := false));
      timer := timer[z := timer[z].(active := false)];
    }

    method Attach(z: Node, x: Timer)
      requires Valid() && z in timer && !timer[z].active && x.active && z != NIL
      modifies this`timer, tree
      ensures Valid() && timer == old(timer)[z := x]
    {
      hide NoDup;
      hide Sorted;
      ghost var c := tree.Contents();
      SortedElse(timer, c, z, x);
      timer := timer[z := x];
      ghost var k := tree.Insert(z, Expiries(timer));
      PutIn(old(timer), c, k, z, x);
    }

    /** Arms a timer, whether or not it was armed. */
    method Start(z: Node, time: nat, interval: nat, absolute: bool, now: nat)
      requires Valid() && z in timer && z != NIL
      modifies this`timer, tree
      ensures Valid() && timer == old(timer)[z := Timer(if absolute then time else now + time, interval, true)]
    {
      hide Good;
      if timer[z].active {
        Detach(z);
      }
      Attach(z, Timer(if absolute then time else now + time, interval, true));
    }

    method Cancel(z: Node)
      requires Valid() && z in timer
      modifies this`timer, tree
      ensures Valid() && timer == old(timer)[z := old(timer)[z].(active := false)]
    {
      hide Good;
      if timer[z].active {
        Detach(z);
      } else {
        assert timer == timer[z := timer[z].(active := false)];
      }
    }

    /**
      * One timer interrupt: exactly the timers due by `now` fire, once each and earliest first; periodic ones
      * move on along their grid past `now`; the next event is programmed for the earliest timer left.
      */
    method Interrupt(now: nat) returns (fired: seq<Node>, delta: seq<nat>)
      requires Valid()
      modifies this`timer, tree
      ensures Valid() && timer.Keys == old(timer).Keys && NoDup(fired)
      ensures forall n :: n in fired <==> n in old(timer) && old(timer)[n].active && old(timer)[n].expires <= now
      ensures forall n <- timer :: if n in fired then Fired(old(timer)[n], timer[n], now) else timer[n] == old(timer)[n]
      ensures forall i, j | 0 <= i < j < |fired| :: fired[i] in old(timer) && fired[j] in old(timer) &&
                old(timer)[fired[i]].expires <= old(timer)[fired[j]].expires
      ensures Programmed(timer, now, delta)
    {
      hide Good;
      hide Progress;
      hide NoDup;
      hide Earliest;
      hide Fired;
      hide Due;
      fired := [];
      ProgressNone(timer, now);
      ghost var due := Due(timer, now);
      while true
        invariant Valid() && Progress(old(timer), timer, fired, now)
        decreases |due| - |fired|
      {
        var node := tree.First();
        FirstIs(timer, tree.Contents());
        if node == NIL {
          NoneDue(timer, node, now);
          break;
        }
        if timer[node].expires > now {
          NoneDue(timer, node, now);
          break;
        }
        ProgressFirst(old(timer), timer, fired, now, node);
        EarliestActive(timer, node);
        ghost var before := timer;
        FireOne(node, now);
        ProgressNext(old(timer), before, timer, fired, now, node);
        fired := fired + [node];
      }
      ProgressDone(old(timer), timer, fired, now);
      delta := Program(now);
      NextProgrammed(timer, now, delta);
    }

    /** Fires one due timer: it leaves the tree, and comes back later if it is periodic. */
    method FireOne(node: Node, now: nat)
      requires Valid() && node in timer && timer[node].active && timer[node].expires <= now && node != NIL
      modifies this`timer, tree
      ensures Valid() && node in timer && timer == old(timer)[node := timer[node]] &&
              Fired(old(timer)[node], timer[node], now)
    {
      hide Good;
      hide OnGrid;
      var x := timer[node];
      Detach(node);
      if x.interval > 0 {
        var e := Rearm(x.expires, x.interval, now);
        Attach(node, Timer(e, x.interval, true));
      }
    }

    method Program(now: nat) returns (delta: seq<nat>)
      requires Valid()
      ensures Next(timer, now, delta)
    {
      hide Good;
      var node := tree.First();
      FirstIs(timer, tree.Contents());
      if node == NIL {
        delta := [];
      } else if timer[node].expires > now {
        delta := [timer[node].expires - now];
      } else {
        delta := [0];
      }
    }
  }

  lemma EarliestActive(t: Timers, z: Node)
    requires Earliest(t, z)
    ensures t[z].active
  {
  }

  lemma NoneDue(t: Timers, z: Node, now: nat)
    requires (z != NIL && Earliest(t, z) && t[z].expires > now) || (z == NIL && forall n <- t :: !t[n].active)
    ensures forall n <- t :: t[n].active ==> t[n].expires > now
  {
  }
}
