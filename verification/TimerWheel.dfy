/** The hierarchical timer wheel: five levels of slots, cascades between them, and a
    32-bit clock that wraps. */
module TimerWheel {
  import opened Arithmetic
  import opened Collections

  const WRAP := 0x1_0000_0000
  const HALF := 0x8000_0000

  type U32 = x: int | 0 <= x < WRAP

  datatype Timer = Timer(id: nat, expires: U32)

  /** The 32-bit difference, read as a signed number. */
  function Delta(a: U32, b: U32): int {
    var d := (a - b) % WRAP;
    if d < HALF then d else d - WRAP
  }

  // The slots of the levels, one after the other: 256 for the first, 64 for each other.
  const L2 := 256
  const L3 := 320
  const L4 := 384
  const L5 := 448
  const SLOTS := 512

  // The ticks one slot of a level covers.
  const UNIT2 := 0x100
  const UNIT3 := 0x4000
  const UNIT4 := 0x10_0000
  const UNIT5 := 0x400_0000

  /** The slot a timer is put in. */
  function Slot(expires: U32, jiffies: U32): nat {
    var d := Delta(expires, jiffies);
    if d < 0 then jiffies % 0x100
    else if d < 0x100 then expires % 0x100
    else if d < UNIT3 then L2 + expires / UNIT2 % 64
    else if d < UNIT4 then L3 + expires / UNIT3 % 64
    else if d < UNIT5 then L4 + expires / UNIT4 % 64
    else L5 + expires / UNIT5 % 64
  }

  /** Unwrapped time: the tick at which a timer armed at tick `now` must fire. */
  function DueAt(now: nat, expires: U32): nat {
    var d := Delta(expires, now % WRAP);
    if d < 0 then now else now + d
  }

  /** Slot `i` of a level with `unit` ticks a slot holds timers of the block of ticks it
      will next be emptied for, which has not begun and is less than a revolution away. */
  predicate Upper(i: int, due: nat, now: nat, unit: nat)
    requires unit > 0
  {
    i == due / unit % 64 && now <= due / unit * unit < now + 64 * unit
  }

  /** A timer due at `due` may wait in slot `s` at tick `now`. */
  predicate Placed(s: nat, due: nat, now: nat, expires: U32) {
    if s < L2 then s == due % 0x100 && now <= due < now + 0x100
    else due % WRAP == expires &&
         if s < L3 then Upper(s - L2, due, now, UNIT2)
         else if s < L4 then Upper(s - L3, due, now, UNIT3)
         else if s < L5 then Upper(s - L4, due, now, UNIT4)
         else Upper(s - L5, due, now, UNIT5)
  }

  lemma UnwrapExpires(now: nat, expires: U32)
    requires Delta(expires, now % WRAP) >= 0
    ensures DueAt(now, expires) % WRAP == expires
  {
    var n := now / WRAP;
    var d := (expires - now % WRAP) % WRAP;
    if expires >= now % WRAP {
      assert d == expires - now % WRAP;
      assert now + d == n * WRAP + expires;
    } else {
      assert d == expires - now % WRAP + WRAP;
      assert now + d == (n + 1) * WRAP + expires;
    }
  }

  /** Dropping the high bits of a time does not change which slot of a level it falls in. */
  lemma SlotOfWrapped(due: nat, unit: nat, m: nat)
    requires unit > 0 && unit * (64 * m) == WRAP
    ensures due % WRAP / unit % 64 == due / unit % 64
  {
    var k, e := due / WRAP, due % WRAP;
    var q, r := e / unit, e % unit;
    var q' := q + 64 * (m * k);
    assert due == q' * unit + r by {
      assert due == k * WRAP + e;
      assert e == q * unit + r;
      assert 64 * (m * k) * unit == k * (unit * (64 * m));
      assert q' * unit == q * unit + 64 * (m * k) * unit;
    }
    QuotientIs(due, unit, q', r);
    ModShift(q, m * k);
  }

  lemma ModShift(q: int, a: int)
    ensures (q + 64 * a) % 64 == q % 64
  {
  }

  lemma Level1Placed(now: nat, due: nat)
    requires now <= due < now + 0x100
    ensures due % WRAP % 0x100 == due % 0x100
  {
  }

  /** The start of a block of `unit` ticks lies within the block before any later tick. */
  lemma BlockStart(due: nat, unit: nat)
    requires unit > 0
    ensures due - unit < due / unit * unit <= due
  {
  }

  lemma SlotPlaced(now: nat, expires: U32)
    ensures Slot(expires, now % WRAP) < SLOTS
    ensures Placed(Slot(expires, now % WRAP), DueAt(now, expires), now, expires)
  {
    var d, due := Delta(expires, now % WRAP), DueAt(now, expires);
    if d < 0 {
      Level1Placed(now, now);
    } else {
      UnwrapExpires(now, expires);
      if d < 0x100 {
        Level1Placed(now, due);
      } else if d < UNIT3 {
        SlotOfWrapped(due, UNIT2, 0x4_0000);
        BlockStart(due, UNIT2);
      } else if d < UNIT4 {
        SlotOfWrapped(due, UNIT3, 0x1000);
        BlockStart(due, UNIT3);
      } else if d < UNIT5 {
        SlotOfWrapped(due, UNIT4, 0x40);
        BlockStart(due, UNIT4);
      } else {
        SlotOfWrapped(due, UNIT5, 1);
        BlockStart(due, UNIT5);
      }
    }
  }

  /** A timer just placed does not wait for a block that begins now. */
  predicate Strict(s: nat, due: nat, now: nat) {
    if s < L2 then true
    else if s < L3 then now < due / UNIT2 * UNIT2
    else if s < L4 then now < due / UNIT3 * UNIT3
    else if s < L5 then now < due / UNIT4 * UNIT4
    else now < due / UNIT5 * UNIT5
  }

  lemma SlotStrict(now: nat, expires: U32)
    ensures Strict(Slot(expires, now % WRAP), DueAt(now, expires), now)
  {
    var due := DueAt(now, expires);
    BlockStart(due, UNIT2);
    BlockStart(due, UNIT3);
    BlockStart(due, UNIT4);
    BlockStart(due, UNIT5);
  }

  /** Arming again a timer that is not overdue leaves its due tick as it was. */
  lemma Rearm(now: nat, due: nat, expires: U32)
    requires due % WRAP == expires && now <= due < now + HALF
    ensures DueAt(now, expires) == due && Delta(expires, now % WRAP) == due - now
  {
    var d := due - now;
    assert (expires - now % WRAP) % WRAP == d by {
      var a, b := due / WRAP, now / WRAP;
      assert expires - now % WRAP == d + (b - a) * WRAP;
    }
  }

  /** What waits in the slot a level empties when a block begins is due in that block. */
  lemma CascadeBlock(due: nat, now: nat, unit: nat)
    requires unit > 0 && now % unit == 0 && Upper(now / unit % 64, due, now, unit)
    ensures now <= due < now + unit
  {
    var p, q := due / unit, now / unit;
    assert now == q * unit;
    MulMonotone(p + 1, q, unit);
    MulMonotone(q + 64, p, unit);
    SameResidue(p, q);
    BlockStart(due, unit);
  }

  lemma SameResidue(p: nat, q: nat)
    requires p % 64 == q % 64 && q <= p < q + 64
    ensures p == q
  {
  }

  // ---- The lists

  datatype Arm = Arm(slot: nat, due: nat)

  type Lists = seq<seq<Timer>>

  predicate Listed(l: seq<Timer>, s: nat, armed: map<Timer, Arm>) {
    NoDup(l) && forall t <- l :: t in armed && armed[t].slot == s
  }

  /** Every armed timer is in exactly one list, a place it may wait in at tick `now`. */
  predicate Inv(vec: Lists, now: nat, armed: map<Timer, Arm>) {
    |vec| == SLOTS &&
    (forall t <- armed ::
       armed[t].slot < SLOTS && t in vec[armed[t].slot] && Placed(armed[t].slot, armed[t].due, now, t.expires)) &&
    forall s: nat | s < SLOTS :: Listed(vec[s], s, armed)
  }

  lemma AddInv(vec: Lists, now: nat, armed: map<Timer, Arm>, t: Timer)
    requires Inv(vec, now, armed) && t !in armed
    ensures var s := Slot(t.expires, now % WRAP);
            s < SLOTS && Inv(vec[s := vec[s] + [t]], now, armed[t := Arm(s, DueAt(now, t.expires))])
  {
    hide Placed;
    hide Slot;
    hide DueAt;
    SlotPlaced(now, t.expires);
    var s := Slot(t.expires, now % WRAP);
    assert Listed(vec[s], s, armed);
    assert t !in vec[s];
  }

  lemma PopInv(vec: Lists, now: nat, armed: map<Timer, Arm>, s: nat)
    requires Inv(vec, now, armed) && s < SLOTS && vec[s] != []
    ensures var t := vec[s][0]; t in armed && armed[t].slot == s && Inv(vec[s := vec[s][1..]], now, armed - {t})
  {
    hide Placed;
    assert Listed(vec[s], s, armed);
  }

  function Base(s: nat): nat {
    if s < L3 then L2 else if s < L4 then L3 else if s < L5 then L4 else L5
  }

  function Unit(s: nat): nat {
    if s < L3 then UNIT2 else if s < L4 then UNIT3 else if s < L5 then UNIT4 else UNIT5
  }

  /** `s` is the slot its level empties at tick `now`. */
  predicate Emptied(s: nat, now: nat) {
    L2 <= s < SLOTS && now % Unit(s) == 0 && s == Base(s) + now / Unit(s) % 64
  }

  /** A cascaded timer goes to a lower level and keeps its due tick. */
  lemma CascadeSlot(s: nat, now: nat, due: nat, expires: U32)
    requires Emptied(s, now) && Placed(s, due, now, expires)
    ensures Slot(expires, now % WRAP) < Base(s) && DueAt(now, expires) == due
  {
    CascadeBlock(due, now, Unit(s));
    Rearm(now, due, expires);
  }

  lemma MoveInv(vec: Lists, now: nat, armed: map<Timer, Arm>, s: nat)
    requires Inv(vec, now, armed) && Emptied(s, now) && vec[s] != []
    ensures var t := vec[s][0];
            var s' := Slot(t.expires, now % WRAP);
            t in armed && armed[t].slot == s && s' != s && s' < SLOTS && Strict(s', armed[t].due, now) &&
            Inv(vec[s := vec[s][1..]][s' := vec[s'] + [t]], now, armed[t := Arm(s', armed[t].due)])
  {
    var t := vec[s][0];
    assert Listed(vec[s], s, armed);
    CascadeSlot(s, now, armed[t].due, t.expires);
    SlotStrict(now, t.expires);
    hide Placed;
    hide Strict;
    hide Slot;
    hide DueAt;
    hide Emptied;
    PopInv(vec, now, armed, s);
    AddInv(vec[s := vec[s][1..]], now, armed - {t}, t);
    var s' := Slot(t.expires, now % WRAP);
    assert (armed - {t})[t := Arm(s', armed[t].due)] == armed[t := Arm(s', armed[t].due)];
  }

  /** The armed timers in the slots below `hi` wait for no block that begins now. */
  predicate StrictBelow(armed: map<Timer, Arm>, now: nat, hi: nat) {
    forall t <- armed :: armed[t].slot < hi ==> Strict(armed[t].slot, armed[t].due, now)
  }

  /** From `a` to `b` timers only moved to places where they wait for no block beginning now. */
  predicate Settled(a: map<Timer, Arm>, b: map<Timer, Arm>, now: nat) {
    a.Keys == b.Keys && forall t <- b :: b[t] == a[t] || Strict(b[t].slot, b[t].due, now)
  }

  lemma AtStart(due: nat, now: nat, unit: nat)
    requires unit > 0
    ensures due / unit * unit == now ==> now % unit == 0 && due / unit == now / unit
  {
    if due / unit * unit == now {
      QuotientIs(now, unit, due / unit, 0);
    }
  }

  /** Away from the start of a block, or once the slot for it is empty, a level is strict. */
  lemma LevelStrict(vec: Lists, now: nat, armed: map<Timer, Arm>, base: nat)
    requires Inv(vec, now, armed) && base in {L2, L3, L4, L5} && StrictBelow(armed, now, base)
    requires now % Unit(base) != 0 || vec[base + now / Unit(base) % 64] == []
    ensures StrictBelow(armed, now, base + 64)
  {
    forall t <- armed | base <= armed[t].slot < base + 64
      ensures Strict(armed[t].slot, armed[t].due, now)
    {
      var a, unit := armed[t], Unit(base);
      assert Placed(a.slot, a.due, now, t.expires) && Upper(a.slot - base, a.due, now, unit);
      AtStart(a.due, now, unit);
    }
  }

  lemma BlockSum(unit: nat, p: nat, c: nat, r: nat)
    ensures unit * (64 * p + c) + r == p * (unit * 64) + (unit * c + r)
  {
  }

  /** A block of the next level begins when a block of this level does and its slot index is 0. */
  lemma Nested(now: nat, unit: nat)
    requires unit > 0
    ensures now % (unit * 64) == 0 <==> now % unit == 0 && now / unit % 64 == 0
  {
    var q, r := now / unit, now % unit;
    var p, c := q / 64, q % 64;
    BlockSum(unit, p, c, r);
    MulMonotone(c, 63, unit);
    MulMonotone(1, c, unit);
    QuotientIs(now, unit * 64, p, unit * c + r);
  }

  /** The slot indices the clock gives, in terms of unwrapped time. */
  lemma ClockIndices(now: nat)
    ensures now % WRAP % 0x100 == now % UNIT2
    ensures now % WRAP / UNIT2 % 64 == now / UNIT2 % 64 && now % WRAP / UNIT3 % 64 == now / UNIT3 % 64
    ensures now % WRAP / UNIT4 % 64 == now / UNIT4 % 64 && now % WRAP / UNIT5 % 64 == now / UNIT5 % 64
  {
    Level1Placed(now, now);
    SlotOfWrapped(now, UNIT2, 0x4_0000);
    SlotOfWrapped(now, UNIT3, 0x1000);
    SlotOfWrapped(now, UNIT4, 0x40);
    SlotOfWrapped(now, UNIT5, 1);
  }

  ghost function DueOf(armed: map<Timer, Arm>): map<Timer, nat> {
    map t | t in armed :: armed[t].due
  }

  /** The timers still to fire at or after tick `from`. */
  ghost function Later(due: map<Timer, nat>, from: nat): map<Timer, nat> {
    map t | t in due && due[t] >= from :: due[t]
  }

  lemma MoveStep(a: map<Timer, Arm>, vec: Lists, now: nat, armed: map<Timer, Arm>, s: nat)
    requires |vec| == SLOTS && Inv(vec, now, armed) && s < SLOTS && Emptied(s, now) && vec[s] != [] &&
             Settled(a, armed, now)
    ensures var t := vec[s][0];
            var s' := Slot(t.expires, now % WRAP);
            t in armed && s' != s && s' < SLOTS &&
            var armed' := armed[t := Arm(s', armed[t].due)];
            Inv(vec[s := vec[s][1..]][s' := vec[s'] + [t]], now, armed') &&
            DueOf(armed') == DueOf(armed) && Settled(a, armed', now)
  {
    hide Emptied;
    hide Inv;
    hide Strict;
    MoveInv(vec, now, armed, s);
  }

  lemma SettledStrict(a: map<Timer, Arm>, b: map<Timer, Arm>, now: nat, hi: nat)
    requires Settled(a, b, now) && StrictBelow(a, now, hi)
    ensures StrictBelow(b, now, hi)
  {
  }

  /** A placed timer is not overdue, and one that waits for no block beginning now is due now
      exactly when it is in the first-level slot of this tick. */
  lemma DueNow(s: nat, due: nat, now: nat, expires: U32)
    requires Placed(s, due, now, expires) && Strict(s, due, now)
    ensures now <= due && (due == now <==> s == now % 0x100)
    ensures due != now ==> Placed(s, due, now + 1, expires)
  {
    if s >= L2 { BlockStart(due, Unit(s)); } else { SameResidue256(due, now); }
  }

  lemma SameResidue256(due: nat, now: nat)
    ensures now <= due < now + 0x100 ==> (due == now <==> due % 0x100 == now % 0x100)
  {
  }

  /** With this tick's slot empty, time may move on. */
  lemma TickInv(vec: Lists, now: nat, armed: map<Timer, Arm>)
    requires Inv(vec, now, armed) && StrictBelow(armed, now, SLOTS) && vec[now % 0x100] == []
    ensures Inv(vec, now + 1, armed) && forall t <- armed :: armed[t].due > now
  {
    forall t <- armed ensures armed[t].due > now && Placed(armed[t].slot, armed[t].due, now + 1, t.expires) {
      DueNow(armed[t].slot, armed[t].due, now, t.expires);
    }
  }

  /** What the firing loop has done so far. */
  ghost predicate Fired(due: map<Timer, nat>, now: nat, armed: map<Timer, Arm>, fired: seq<Timer>) {
    NoDup(fired) && (forall t <- fired :: t in due && due[t] == now) &&
    DueOf(armed) == map t | t in due && t !in fired :: due[t]
  }

  lemma NothingFired(due: map<Timer, nat>, now: nat, armed: map<Timer, Arm>)
    requires due == DueOf(armed)
    ensures Fired(due, now, armed, [])
  {
  }

  lemma Level1Strict(armed: map<Timer, Arm>, now: nat)
    ensures StrictBelow(armed, now, L2)
  {
  }

  lemma FiredOne(due: map<Timer, nat>, now: nat, armed: map<Timer, Arm>, fired: seq<Timer>, t: Timer)
    requires Fired(due, now, armed, fired) && t in armed && armed[t].due == now
    ensures Fired(due, now, armed - {t}, fired + [t])
  {
    assert t in DueOf(armed) && t in due && t !in fired && due[t] == now;
    var a, b := DueOf(armed - {t}), map u | u in due && u !in fired + [t] :: due[u];
    forall u ensures u in a <==> u in b {
      assert u in a <==> u in DueOf(armed) && u != t;
    }
    forall u <- a ensures a[u] == b[u] {
      assert a[u] == DueOf(armed)[u];
    }
  }

  lemma FireStep(due: map<Timer, nat>, vec: Lists, now: nat, armed: map<Timer, Arm>, fired: seq<Timer>)
    requires Inv(vec, now, armed) && StrictBelow(armed, now, SLOTS) && Fired(due, now, armed, fired)
    requires |vec| == SLOTS && vec[now % 0x100] != []
    ensures var s := now % 0x100;
            var t := vec[s][0];
            Inv(vec[s := vec[s][1..]], now, armed - {t}) && StrictBelow(armed - {t}, now, SLOTS) &&
            Fired(due, now, armed - {t}, fired + [t])
  {
    var s := now % 0x100;
    var t := vec[s][0];
    PopInv(vec, now, armed, s);
    DueNow(s, armed[t].due, now, t.expires);
    hide Inv;
    hide Strict;
    hide Fired;
    FiredOne(due, now, armed, fired, t);
  }

  lemma FireDone(due: map<Timer, nat>, vec: Lists, now: nat, armed: map<Timer, Arm>, fired: seq<Timer>)
    requires Inv(vec, now, armed) && StrictBelow(armed, now, SLOTS) && Fired(due, now, armed, fired)
    requires |vec| == SLOTS && vec[now % 0x100] == []
    ensures Inv(vec, now + 1, armed) && DueOf(armed) == Later(due, now + 1)
    ensures NoDup(fired) && forall t :: t in fired <==> t in due && due[t] == now
    ensures forall t <- due :: due[t] >= now
  {
    TickInv(vec, now, armed);
    forall t <- due ensures t in fired || (t in armed && armed[t].due == due[t]) {
      if t !in fired { assert t in DueOf(armed); }
    }
    forall t <- DueOf(armed) ensures t in due && due[t] > now {}
  }

  // ---- Unlinking a timer

  function WithoutAll(vec: Lists, t: Timer): Lists {
    seq(|vec|, s requires 0 <= s < |vec| => Without(vec[s], t))
  }

  lemma DelInv(vec: Lists, now: nat, armed: map<Timer, Arm>, t: Timer)
    requires |vec| == SLOTS && Inv(vec, now, armed)
    ensures Inv(WithoutAll(vec, t), now, armed - {t})
  {
    hide Placed;
    forall s: nat | s < SLOTS ensures Listed(Without(vec[s], t), s, armed - {t}) &&
                                      forall u :: u in vec[s] && u != t ==> u in Without(vec[s], t)
    {
      assert Listed(vec[s], s, armed);
      WithoutMembers(vec[s], t);
    }
  }

  // ---- A run of ticks

  /** The callbacks made up to tick `now`: every timer due before it, once, at its tick. */
  ghost predicate Logged(due: map<Timer, nat>, now: nat, fired: seq<Timer>, ticks: seq<U32>) {
    |fired| == |ticks| && NoDup(fired) &&
    (forall t :: t in fired <==> t in due && due[t] < now) &&
    (forall i :: 0 <= i < |fired| ==> ticks[i] == due[fired[i]] % WRAP) &&
    forall i, j :: 0 <= i < j < |fired| ==> due[fired[i]] <= due[fired[j]]
  }

  lemma LogTick(due: map<Timer, nat>, now: nat, fired: seq<Timer>, ticks: seq<U32>, f: seq<Timer>)
    requires Logged(due, now, fired, ticks) && NoDup(f)
    requires forall t :: t in f <==> t in Later(due, now) && due[t] == now
    ensures Logged(due, now + 1, fired + f, ticks + seq(|f|, _ => now % WRAP))
    ensures Later(Later(due, now), now + 1) == Later(due, now + 1)
  {
    forall t ensures t in fired + f <==> t in due && due[t] < now + 1 {}
  }

  lemma NothingLogged(vec: Lists, now: nat, armed: map<Timer, Arm>)
    requires Inv(vec, now, armed)
    ensures Logged(DueOf(armed), now, [], []) && DueOf(armed) == Later(DueOf(armed), now)
  {
    forall t <- armed ensures armed[t].due >= now {
      var a := armed[t];
      if a.slot >= L2 { BlockStart(a.due, Unit(a.slot)); }
    }
  }

  /** Advancing the clock by one brings it one tick closer to a target not yet passed. */
  lemma DeltaStep(target: U32, now: nat)
    requires Delta(target, now % WRAP) >= 0
    ensures Delta(target, (now + 1) % WRAP) == Delta(target, now % WRAP) - 1
  {
    var j := now % WRAP;
    assert (now + 1) % WRAP == if j == WRAP - 1 then 0 else j + 1;
  }

  lemma NextTick(now: nat)
    ensures (now % WRAP + 1) % WRAP == (now + 1) % WRAP
  {
  }

  lemma SettledSame(armed: map<Timer, Arm>, now: nat)
    ensures Settled(armed, armed, now)
  {
  }

  /** How far a tick of the clock lies ahead, or that it lies behind. */
  lemma DeltaIs(target: U32, now: nat)
    ensures var a := (target - now % WRAP) % WRAP; var d := Delta(target, now % WRAP);
            if a < HALF then
              d == a && (now + a) % WRAP == target && (now + a + 1) % WRAP == (target + 1) % WRAP
            else
              d < 0
  {
    if Delta(target, now % WRAP) >= 0 {
      UnwrapExpires(now, target);
      NextTick(now + Delta(target, now % WRAP));
    }
  }

  /** The due tick: the expiry when it lies less than half a turn ahead, the present tick when it lies behind. */
  lemma DueIs(now: nat, expires: U32)
    ensures var a := (expires - now % WRAP) % WRAP;
            if a < HALF then
              DueAt(now, expires) == now + a && (now + a) % WRAP == expires
            else
              DueAt(now, expires) == now
  {
    DeltaIs(expires, now);
  }

  class Wheel {
    var vec: Lists
    var jiffies: U32
    // The clock without wrap-around, and for each armed timer its slot and due tick.
    ghost var now: nat
    ghost var armed: map<Timer, Arm>

    ghost predicate Valid()
      reads this
    {
      |vec| == SLOTS && Inv(vec, now, armed) && jiffies == now % WRAP
    }

    ghost function Due(): map<Timer, nat>
      reads this
    {
      DueOf(armed)
    }

    constructor (start: U32)
      ensures Valid() && jiffies == start && Due() == map[]
    {
      vec := seq(SLOTS, _ => []);
      jiffies := start;
      now := start;
      armed := map[];
    }

    method Add(t: Timer)
      requires Valid() && t !in Due()
      modifies this
      ensures Valid() && now == old(now) && jiffies == old(jiffies)
      ensures Due() == old(Due())[t := DueAt(now, t.expires)]
      ensures (t.expires - jiffies) % WRAP >= HALF ==> Due()[t] == now
      ensures (t.expires - jiffies) % WRAP < HALF ==>
              Due()[t] % WRAP == t.expires && now <= Due()[t] < now + 0x8000_0000
    {
      hide Inv;
      hide DueAt;
      DueIs(now, t.expires);
      AddInv(vec, now, armed, t);
      var s := Slot(t.expires, jiffies);
      vec := vec[s := vec[s] + [t]];
      armed := armed[t := Arm(s, DueAt(now, t.expires))];
    }

    /** A timer added and the clock moved: it fires exactly when it was behind the clock or is passed now. */
    method AddThenAdvance(t: Timer, target: U32) returns (fired: seq<Timer>, ticks: seq<U32>)
      requires Valid() && t !in Due()
      modifies this
      ensures Valid()
      ensures var ahead, way := (t.expires - old(jiffies)) % WRAP, (target - old(jiffies)) % WRAP;
              t in fired <==> way < HALF && (ahead >= HALF || ahead <= way)
    {
      hide Inv;
      hide DueOf;
      hide Delta;
      hide DueAt;
      hide Later;
      DueIs(now, t.expires);
      DeltaIs(target, now);
      Add(t);
      ghost var due := Due();
      fired, ticks := Advance(target);
      assert t in fired <==> t in due && due[t] < now;
    }

    /** Moves every timer of a slot to the slot it now belongs in. */
    method Cascade(s: nat)
      requires Valid() && s < SLOTS && Emptied(s, now)
      modifies this
      ensures Valid() && now == old(now) && jiffies == old(jiffies) && Due() == old(Due()) && vec[s] == []
      ensures Settled(old(armed), armed, now)
    {
      hide Inv;
      hide Emptied;
      hide Settled;
      hide Slot;
      hide DueOf;
      SettledSame(armed, now);
      while vec[s] != []
        invariant Valid() && now == old(now) && jiffies == old(jiffies) && Due() == old(Due())
        invariant Settled(old(armed), armed, now)
        decreases |vec[s]|
      {
        MoveStep(old(armed), vec, now, armed, s);
        var t := vec[s][0];
        ghost var due := armed[t].due;
        var s' := Slot(t.expires, jiffies);
        vec := vec[s := vec[s][1..]];
        vec := vec[s' := vec[s'] + [t]];
        armed := armed[t := Arm(s', due)];
      }
    }

    /** The cascades of one tick. */
    method CascadeAll()
      requires Valid()
      modifies this
      ensures Valid() && now == old(now) && jiffies == old(jiffies) && Due() == old(Due())
      ensures StrictBelow(armed, now, SLOTS)
    {
      hide Inv;
      hide Strict;
      hide Settled;
      hide DueOf;
      ghost var a := armed;
      assert StrictBelow(armed, now, L2) by { Level1Strict(armed, now); }
      ClockIndices(now);
      Nested(now, UNIT2);
      Nested(now, UNIT3);
      Nested(now, UNIT4);
      var i1, i2 := jiffies % 0x100, jiffies / UNIT2 % 64;
      var i3, i4, i5 := jiffies / UNIT3 % 64, jiffies / UNIT4 % 64, jiffies / UNIT5 % 64;
      if i1 == 0 {
        Cascade(L2 + i2);
        SettledStrict(a, armed, now, L2);
        a := armed;
      }
      LevelStrict(vec, now, armed, L2);
      if i1 == 0 && i2 == 0 {
        Cascade(L3 + i3);
        SettledStrict(a, armed, now, L3);
        a := armed;
      }
      LevelStrict(vec, now, armed, L3);
      if i1 == 0 && i2 == 0 && i3 == 0 {
        Cascade(L4 + i4);
        SettledStrict(a, armed, now, L4);
        a := armed;
      }
      LevelStrict(vec, now, armed, L4);
      if i1 == 0 && i2 == 0 && i3 == 0 && i4 == 0 {
        Cascade(L5 + i5);
        SettledStrict(a, armed, now, L5);
      }
      LevelStrict(vec, now, armed, L5);
    }

    /** One tick of the wheel: the callbacks made are `fired`, in order. */
    method Tick() returns (fired: seq<Timer>)
      requires Valid()
      modifies this
      ensures Valid() && now == old(now) + 1
      ensures Due() == Later(old(Due()), now)
      ensures NoDup(fired) && forall t :: t in fired <==> t in old(Due()) && old(Due())[t] == old(now)
      ensures forall t <- old(Due()) :: old(Due())[t] >= old(now)
    {
      hide Inv;
      hide StrictBelow;
      hide DueOf;
      hide Fired;
      hide Later;
      hide NoDup;
      CascadeAll();
      ghost var due := Due();
      var i1 := jiffies % 0x100;
      ClockIndices(now);
      NextTick(now);
      jiffies := (jiffies + 1) % WRAP;
      fired := FireSlot(i1);
      now := now + 1;
    }

    /** Runs the callbacks of the slot of the current tick. */
    method FireSlot(i1: nat) returns (fired: seq<Timer>)
      requires |vec| == SLOTS && Inv(vec, now, armed) && StrictBelow(armed, now, SLOTS) && i1 == now % 0x100
      modifies this`vec, this`armed
      ensures |vec| == SLOTS && Inv(vec, now + 1, armed) && Due() == Later(old(Due()), now + 1)
      ensures NoDup(fired) && forall t :: t in fired <==> t in old(Due()) && old(Due())[t] == now
      ensures forall t <- old(Due()) :: old(Due())[t] >= now
    {
      hide Inv;
      hide StrictBelow;
      hide DueOf;
      hide Fired;
      hide Later;
      hide NoDup;
      ghost var due := Due();
      fired := [];
      NothingFired(due, now, armed);
      while vec[i1] != []
        invariant |vec| == SLOTS && Inv(vec, now, armed)
        invariant StrictBelow(armed, now, SLOTS) && Fired(due, now, armed, fired)
        decreases |vec[i1]|
      {
        FireStep(due, vec, now, armed, fired);
        var t := vec[i1][0];
        vec := vec[i1 := vec[i1][1..]];
        fired := fired + [t];
        armed := armed - {t};
      }
      FireDone(due, vec, now, armed, fired);
    }

    /** Unlinks a timer from the list it is in, if any. */
    method Del(t: Timer)
      requires Valid()
      modifies this
      ensures Valid() && now == old(now) && jiffies == old(jiffies)
      ensures Due() == old(Due()) - {t}
    {
      hide Inv;
      DelInv(vec, now, armed, t);
      vec := WithoutAll(vec, t);
      armed := armed - {t};
    }

    /** Runs the wheel up to and including tick `target`: the callbacks made, in order, and the
        value of the clock at each. */
    method Advance(target: U32) returns (fired: seq<Timer>, ticks: seq<U32>)
      requires Valid()
      modifies this
      ensures Valid()
      ensures now == old(now) + if Delta(target, old(jiffies)) < 0 then 0 else Delta(target, old(jiffies)) + 1
      ensures Due() == Later(old(Due()), now)
      ensures Logged(old(Due()), now, fired, ticks)
      ensures if (target - old(jiffies)) % WRAP < HALF then
                now % WRAP == (target + 1) % WRAP && old(now) < now <= old(now) + 0x8000_0000
              else
                now == old(now)
    {
      DeltaIs(target, now);
      hide Inv;
      hide Delta;
      hide DueOf;
      hide Logged;
      fired, ticks := [], [];
      NothingLogged(vec, now, armed);
      while Delta(target, jiffies) >= 0
        invariant Valid() && old(now) <= now && Due() == Later(old(Due()), now) && Logged(old(Due()), now, fired, ticks)
        invariant now == old(now) || Delta(target, jiffies) >= -1
        invariant Delta(target, jiffies) == Delta(target, old(jiffies)) - (now - old(now))
        decreases Delta(target, jiffies)
      {
        DeltaStep(target, now);
        var j := jiffies;
        ghost var before := now;
        var f := Tick();
        LogTick(old(Due()), before, fired, ticks, f);
        fired := fired + f;
        ticks := ticks + seq(|f|, _ => j);
      }
    }
  }
}
