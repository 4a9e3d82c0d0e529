/** Long file names: how they are cut into directory entries and put together again by the scan. */
module LongNames {
  const PER_ENTRY := 13
  const NAME_MAX := 255
  const BUFFER := NAME_MAX + 1
  /** The buffer with the four bytes behind it, up to which a terminator may be stored. */
  const SPAN := BUFFER + 4
  const SEQ_LAST := 0x40
  const ATTR_LFN := 0x0F
  const END := 0x00
  const DELETED := 0xE5
  const DOT := 0x2E
  const TILDE := 0x7E
  const FILL := 0x20

  type Bytes = seq<nat>

  datatype Entry = Entry(order: nat, attr: nat, checksum: nat, name0: seq<nat>, name1: seq<nat>, name2: seq<nat>)

  /** A directory slot: a live long-name entry, or anything else with its first byte and short name. */
  datatype Slot = Long(entry: Entry) | Other(first: nat, shortName: Bytes)

  predicate Whole(e: Entry) { |e.name0| == 5 && |e.name1| == 6 && |e.name2| == 2 }

  predicate IsName(name: Bytes) { 1 <= |name| <= NAME_MAX && forall k | 0 <= k < |name| :: 1 <= name[k] <= 255 }

  function CharAt(e: Entry, i: nat): nat
    requires Whole(e) && i < PER_ENTRY
  {
    if i < 5 then e.name0[i] else if i < 11 then e.name1[i - 5] else e.name2[i - 11]
  }

  function WithChar(e: Entry, i: nat, ch: nat): (r: Entry)
    requires Whole(e) && i < PER_ENTRY
    ensures Whole(r) && r.order == e.order && r.attr == e.attr && r.checksum == e.checksum
    ensures forall j: nat | j < PER_ENTRY :: CharAt(r, j) == if j == i then ch else CharAt(e, j)
  {
    if i < 5 then e.(name0 := e.name0[i := ch])
    else if i < 11 then e.(name1 := e.name1[i - 5 := ch])
    else e.(name2 := e.name2[i - 11 := ch])
  }

  /** The 16-bit character at position `k` of the padded name. */
  function Padded(name: Bytes, k: nat): nat {
    if k < |name| then name[k] else if k == |name| then 0 else 0xFFFF
  }

  function Count(name: Bytes): nat {
    if name == [] then 1 else (|name| + PER_ENTRY - 1) / PER_ENTRY
  }

  /** Entry `n` of the long name. */
  predicate Holds(e: Entry, name: Bytes, checksum: nat, n: nat) {
    Whole(e) && e.attr == ATTR_LFN && e.checksum == checksum &&
    e.order == n + 1 + (if n + 1 == Count(name) then SEQ_LAST else 0) &&
    forall i: nat | i < PER_ENTRY :: CharAt(e, i) == Padded(name, n * PER_ENTRY + i)
  }

  predicate Built(es: seq<Entry>, name: Bytes, checksum: nat) {
    |es| == Count(name) && forall n: nat | n < |es| :: Holds(es[n], name, checksum, n)
  }

  /** Cuts a name into entries, first part first. */
  method Build(name: Bytes, checksum: nat) returns (es: seq<Entry>)
    requires |name| <= NAME_MAX
    ensures Built(es, name, checksum) && 1 <= |es| <= 20
  {
    var num := (|name| + PER_ENTRY - 1) / PER_ENTRY;
    if num == 0 {
      num := 1;
    }
    es := [];
    for n := 0 to num
      invariant |es| == n && forall k: nat | k < n :: Holds(es[k], name, checksum, k)
    {
      var order := n + 1;
      if n == num - 1 {
        order := order + SEQ_LAST;
      }
      var e := Entry(order, ATTR_LFN, checksum, [0, 0, 0, 0, 0], [0, 0, 0, 0, 0, 0], [0, 0]);
      var base := n * PER_ENTRY;
      for i := 0 to PER_ENTRY
        invariant Whole(e) && e.order == order && e.attr == ATTR_LFN && e.checksum == checksum
        invariant forall j: nat | j < i :: CharAt(e, j) == Padded(name, base + j)
      {
        var idx := base + i;
        if idx < |name| {
          e := WithChar(e, i, name[idx]);
        } else if idx == |name| {
          e := WithChar(e, i, 0);
        } else {
          e := WithChar(e, i, 0xFFFF);
        }
      }
      es := es + [e];
    }
  }

  predicate IsEnd(ch: nat) { ch == 0 || ch == 0xFFFF }

  function Order(e: Entry): nat { e.order % 32 }

  predicate IsLast(e: Entry) { e.order / SEQ_LAST % 2 == 1 }

  /** The buffer after the characters from `i` on are copied to their places. */
  function Copied(buf: Bytes, e: Entry, base: nat, i: nat): (r: Bytes)
    requires Whole(e) && i <= PER_ENTRY
    ensures |r| == |buf|
    decreases PER_ENTRY - i
  {
    if i == PER_ENTRY
      then (if IsLast(e) && base + PER_ENTRY < NAME_MAX && base + PER_ENTRY < |buf| then buf[base + PER_ENTRY := 0]
            else buf)
    else if IsEnd(CharAt(e, i)) then (if base + i < |buf| then buf[base + i := 0] else buf)
    else Copied(if base + i < NAME_MAX && base + i < |buf| then buf[base + i := CharAt(e, i) % 256]
                else buf, e, base, i + 1)
  }

  function Extracted(buf: Bytes, e: Entry): (r: Bytes)
    requires Whole(e)
    ensures |r| == |buf|
  {
    if Order(e) == 0 || Order(e) > 20 then buf else Copied(buf, e, (Order(e) - 1) * PER_ENTRY, 0)
  }

  predicate EndedBefore(e: Entry, i: nat)
    requires Whole(e) && i <= PER_ENTRY
  {
    exists j: nat | j < i :: IsEnd(CharAt(e, j))
  }

  /** No terminator is stored past the buffer: only entry 20 reaches so far, with its last four characters. */
  predicate EndsInside(e: Entry)
    requires Whole(e)
  {
    e.order % 32 == 20 ==> forall i: nat | 9 <= i < PER_ENTRY :: EndedBefore(e, i) || !IsEnd(CharAt(e, i))
  }

  /** Copies one entry's part of the name into the buffer. */
  method Extract(e: Entry, buf: array<nat>)
    requires Whole(e) && buf.Length == SPAN
    modifies buf
    ensures buf[..] == Extracted(old(buf[..]), e)
  {
    hide CharAt;
    hide IsEnd;
    hide Copied;
    hide IsLast;
    if Order(e) == 0 || Order(e) > 20 {
      return;
    }
    var base := (Order(e) - 1) * PER_ENTRY;
    for i := 0 to PER_ENTRY
      invariant Copied(buf[..], e, base, i) == Copied(old(buf[..]), e, base, 0)
      invariant forall j: nat | j < i :: !IsEnd(CharAt(e, j))
    {
      CopiedStep(buf[..], e, base, i);
      var ch := CharAt(e, i);
      if IsEnd(ch) {
        Put(buf, base + i, 0);
        return;
      }
      if base + i < NAME_MAX {
        Put(buf, base + i, ch % 256);
      }
    }
    CopiedEnd(buf[..], e, base);
    if IsLast(e) && base + PER_ENTRY < NAME_MAX {
      Put(buf, base + PER_ENTRY, 0);
    }
  }

  method Put(buf: array<nat>, i: nat, v: nat)
    requires i < buf.Length
    modifies buf
    ensures buf[..] == old(buf[..])[i := v]
  {
    buf[i] := v;
  }

  lemma CopiedStep(buf: Bytes, e: Entry, base: nat, i: nat)
    requires Whole(e) && i < PER_ENTRY && |buf| == SPAN
    ensures IsEnd(CharAt(e, i)) && base + i < SPAN ==> Copied(buf, e, base, i) == buf[base + i := 0]
    ensures !IsEnd(CharAt(e, i)) ==>
              Copied(buf, e, base, i) ==
              Copied(if base + i < NAME_MAX then buf[base + i := CharAt(e, i) % 256] else buf, e, base, i + 1)
  {
    hide CharAt;
    hide IsEnd;
  }

  lemma CopiedEnd(buf: Bytes, e: Entry, base: nat)
    requires Whole(e) && |buf| == SPAN
    ensures Copied(buf, e, base, PER_ENTRY) ==
            if IsLast(e) && base + PER_ENTRY < NAME_MAX then buf[base + PER_ENTRY := 0] else buf
  {
  }

  /** The first terminator, if there is one. */
  function EndAt(e: Entry, i: nat): (m: nat)
    requires Whole(e) && i <= PER_ENTRY
    ensures i <= m <= PER_ENTRY && (m < PER_ENTRY ==> IsEnd(CharAt(e, m))) &&
            forall j: nat | i <= j < m :: !IsEnd(CharAt(e, j))
    decreases PER_ENTRY - i
  {
    if i == PER_ENTRY || IsEnd(CharAt(e, i)) then i else EndAt(e, i + 1)
  }

  /** Past the buffer nothing but a terminator is stored. */
  lemma {:induction false} CopiedBehind(buf: Bytes, e: Entry, base: nat, i: nat, k: nat)
    requires Whole(e) && i <= PER_ENTRY && |buf| == SPAN && NAME_MAX <= k < SPAN
    ensures Copied(buf, e, base, i)[k] == if EndAt(e, i) < PER_ENTRY && k == base + EndAt(e, i) then 0 else buf[k]
    decreases PER_ENTRY - i
  {
    hide CharAt;
    hide IsEnd;
    hide IsLast;
    if i < PER_ENTRY && !IsEnd(CharAt(e, i)) {
      CopiedBehind(if base + i < NAME_MAX && base + i < |buf| then buf[base + i := CharAt(e, i) % 256]
                   else buf, e, base, i + 1, k);
    }
  }

  ghost predicate StaysInside(e: Entry)
    requires Whole(e)
  {
    forall buf: Bytes | |buf| == SPAN :: Extracted(buf, e)[BUFFER..] == buf[BUFFER..]
  }

  lemma EndsAt(e: Entry)
    requires Whole(e)
    ensures EndsInside(e) <==> !(Order(e) == 20 && 9 <= EndAt(e, 0) < PER_ENTRY)
  {
    hide CharAt;
    hide IsEnd;
    var m := EndAt(e, 0);
    if Order(e) == 20 && 9 <= m < PER_ENTRY {
      assert !EndedBefore(e, m) && IsEnd(CharAt(e, m));
    }
    forall i: nat | 9 <= i < PER_ENTRY && !(9 <= m < PER_ENTRY) ensures EndedBefore(e, i) || !IsEnd(CharAt(e, i)) {
      assert m < 9 ==> IsEnd(CharAt(e, m));
    }
  }

  lemma ExtractedBehind(buf: Bytes, e: Entry, k: nat)
    requires Whole(e) && |buf| == SPAN && BUFFER <= k < SPAN
    ensures Extracted(buf, e)[k] ==
            if Order(e) == 20 && EndAt(e, 0) < PER_ENTRY && k == 247 + EndAt(e, 0) then 0 else buf[k]
  {
    hide CharAt;
    hide IsEnd;
    hide Copied;
    if 1 <= Order(e) <= 20 {
      CopiedBehind(buf, e, (Order(e) - 1) * PER_ENTRY, 0, k);
    }
  }

  /** Whatever the bytes behind the buffer hold, they stay, exactly for these entries. */
  lemma InsideExact(e: Entry)
    requires Whole(e)
    ensures StaysInside(e) <==> EndsInside(e)
  {
    hide CharAt;
    hide IsEnd;
    hide Extracted;
    hide EndsInside;
    hide Order;
    EndsAt(e);
    var m := EndAt(e, 0);
    if EndsInside(e) {
      forall buf: Bytes | |buf| == SPAN ensures Extracted(buf, e)[BUFFER..] == buf[BUFFER..] {
        forall k: nat | BUFFER <= k < SPAN ensures Extracted(buf, e)[k] == buf[k] {
          ExtractedBehind(buf, e, k);
        }
      }
    } else {
      var ones: Bytes := seq(SPAN, _ => 1);
      ExtractedBehind(ones, e, 247 + m);
      assert Extracted(ones, e)[BUFFER..][247 + m - BUFFER] == 0;
    }
  }

  function Long20(): Entry {
    Entry(20, ATTR_LFN, 0, [97, 97, 97, 97, 97], [97, 97, 97, 97, 0, 0xFFFF], [0xFFFF, 0xFFFF])
  }

  /** The twentieth entry, ending the name after nine characters, stores its terminator behind the buffer. */
  lemma StoresBehind(buf: Bytes)
    requires |buf| == SPAN
    ensures Whole(Long20()) && Extracted(buf, Long20())[BUFFER] == 0 && !StaysInside(Long20())
  {
    var e := Long20();
    assert forall j: nat | j < 9 :: !IsEnd(CharAt(e, j));
    assert IsEnd(CharAt(e, 9));
    assert EndAt(e, 0) == 9;
    assert Order(e) == 20;
    CopiedBehind(buf, e, 247, 0, BUFFER);
    EndsAt(e);
    InsideExact(e);
  }

  // ----- Putting the name together -----

  /** The bytes before the first zero. */
  function Text(buf: Bytes): Bytes {
    if buf == [] || buf[0] == 0 then [] else [buf[0]] + Text(buf[1..])
  }

  lemma {:induction false} TextIs(buf: Bytes, name: Bytes)
    requires |name| < |buf| && buf[|name|] == 0 && forall k | 0 <= k < |name| :: name[k] != 0 && buf[k] == name[k]
    ensures Text(buf) == name
  {
    if name != [] {
      TextIs(buf[1..], name[1..]);
    }
  }

  /** The buffer holds the name from position `from` on, with its end. */
  predicate Tail(buf: Bytes, name: Bytes, from: nat) {
    |buf| == SPAN && |name| <= NAME_MAX && buf[|name|] == 0 && forall k | from <= k < |name| :: buf[k] == name[k]
  }

  /** The buffer with characters `i` to `m` of an entry put in their places. */
  function Overlaid(buf: Bytes, e: Entry, base: nat, i: nat, m: nat): (r: Bytes)
    requires Whole(e) && i <= m <= PER_ENTRY
    ensures |r| == |buf|
    ensures forall k: nat | k < |buf| :: r[k] == if base + i <= k < base + m then CharAt(e, k - base) % 256 else buf[k]
  {
    seq(|buf|, k requires 0 <= k < |buf| => if base + i <= k < base + m then CharAt(e, k - base) % 256 else buf[k])
  }

  lemma OverlaidNone(buf: Bytes, e: Entry, base: nat, m: nat)
    requires Whole(e) && m <= PER_ENTRY
    ensures Overlaid(buf, e, base, m, m) == buf
  {
    hide CharAt;
  }

  lemma OverlaidOne(buf: Bytes, e: Entry, base: nat, i: nat, m: nat)
    requires Whole(e) && i < m <= PER_ENTRY && base + i < |buf|
    ensures Overlaid(buf[base + i := CharAt(e, i) % 256], e, base, i + 1, m) == Overlaid(buf, e, base, i, m)
  {
    hide CharAt;
  }

  /** Characters that do not end the name go straight to the buffer. */
  lemma {:induction false} CopyThrough(buf: Bytes, e: Entry, base: nat, i: nat, m: nat)
    requires Whole(e) && i <= m <= PER_ENTRY && |buf| == SPAN && base + m <= NAME_MAX
    requires forall j: nat | i <= j < m :: !IsEnd(CharAt(e, j))
    ensures Copied(buf, e, base, i) == Copied(Overlaid(buf, e, base, i, m), e, base, m)
    decreases m - i
  {
    hide CharAt;
    hide IsEnd;
    hide Copied;
    hide Overlaid;
    if i == m {
      OverlaidNone(buf, e, base, m);
    } else {
      CopiedStep(buf, e, base, i);
      OverlaidOne(buf, e, base, i, m);
      CopyThrough(buf[base + i := CharAt(e, i) % 256], e, base, i + 1, m);
    }
  }

  /** A full entry puts its characters in place, and ends the name only if it carries the last mark. */
  lemma FullEntry(buf: Bytes, e: Entry, k: nat)
    requires Whole(e) && |buf| == SPAN && 1 <= e.order % 32 <= 19 && k < SPAN
    requires forall j: nat | j < PER_ENTRY :: !IsEnd(CharAt(e, j))
    ensures var base := (e.order % 32 - 1) * 13;
            Extracted(buf, e)[k] == if base <= k < base + 13 then CharAt(e, k - base) % 256
                                    else if k == base + 13 && e.order / 64 % 2 == 1 then 0 else buf[k]
  {
    hide CharAt;
    hide IsEnd;
    hide Copied;
    hide Overlaid;
    var base := (Order(e) - 1) * PER_ENTRY;
    CopyThrough(buf, e, base, 0, PER_ENTRY);
    CopiedEnd(Overlaid(buf, e, base, 0, PER_ENTRY), e, base);
  }

  lemma Places(name: Bytes, n: nat)
    requires IsName(name) && n < Count(name)
    ensures n * PER_ENTRY < |name| && n < 20
    ensures n + 1 == Count(name) <==> |name| <= (n + 1) * PER_ENTRY
    ensures |name| == (n + 1) * PER_ENTRY ==> |name| < NAME_MAX
  {
  }

  lemma Orders(e: Entry, name: Bytes, n: nat)
    requires n < 20 && e.order == n + 1 + (if n + 1 == Count(name) then SEQ_LAST else 0)
    ensures Order(e) == n + 1 && (IsLast(e) <==> n + 1 == Count(name))
  {
  }

  /** Extracting entry `n` puts its part in place, and the end of the name if it is the last. */
  lemma ExtractPart(buf: Bytes, e: Entry, name: Bytes, checksum: nat, n: nat)
    requires IsName(name) && n < Count(name) && Holds(e, name, checksum, n) && |buf| == SPAN
    requires n + 1 < Count(name) ==> Tail(buf, name, (n + 1) * PER_ENTRY)
    ensures Tail(Extracted(buf, e), name, n * PER_ENTRY)
  {
    hide IsLast;
    hide Order;
    hide Count;
    hide CharAt;
    hide Copied;
    hide Overlaid;
    hide IsEnd;
    Places(name, n);
    Orders(e, name, n);
    var base := n * PER_ENTRY;
    var m: nat := if |name| < base + PER_ENTRY then |name| - base else PER_ENTRY;
    PartChars(e, name, checksum, n, m);
    CopyThrough(buf, e, base, 0, m);
    var r := Overlaid(buf, e, base, 0, m);
    OverlaidPart(buf, e, name, base, m);
    if m < PER_ENTRY {
      CopiedStep(r, e, base, m);
    } else {
      CopiedEnd(r, e, base);
    }
  }

  lemma PartChars(e: Entry, name: Bytes, checksum: nat, n: nat, m: nat)
    requires IsName(name) && Holds(e, name, checksum, n) && n * PER_ENTRY + m <= |name| && m <= PER_ENTRY
    ensures forall j: nat | j < m :: !IsEnd(CharAt(e, j)) && CharAt(e, j) == name[n * PER_ENTRY + j]
    ensures m < PER_ENTRY && n * PER_ENTRY + m == |name| ==> IsEnd(CharAt(e, m))
  {
    hide CharAt;
  }

  lemma OverlaidPart(buf: Bytes, e: Entry, name: Bytes, base: nat, m: nat)
    requires Whole(e) && m <= PER_ENTRY && IsName(name) && |buf| == SPAN && base + m <= |name|
    requires forall j: nat | j < m :: CharAt(e, j) == name[base + j]
    ensures var r := Overlaid(buf, e, base, 0, m);
            (forall k | base <= k < base + m :: r[k] == name[k]) && forall k | base + m <= k < SPAN :: r[k] == buf[k]
  {
    hide CharAt;
    forall k: nat | base <= k < base + m ensures Overlaid(buf, e, base, 0, m)[k] == name[k] {
      assert CharAt(e, k - base) == name[base + (k - base)];
    }
  }

  // ----- Scanning a directory -----

  /** The buffer zeroed; what lies behind it stays. */
  function Zeroed(buf: Bytes): (r: Bytes)
    requires |buf| == SPAN
    ensures |r| == SPAN && forall k: nat | k < SPAN :: r[k] == if k < BUFFER then 0 else buf[k]
  {
    seq(SPAN, k requires 0 <= k < SPAN => if k < BUFFER then 0 else buf[k])
  }

  type Memory = s: Bytes | |s| == SPAN witness seq(SPAN, _ => 0)

  datatype Scan = Scan(buf: Memory, pending: bool)

  function Step(s: Scan, slot: Slot): Scan
    requires slot.Long? ==> Whole(slot.entry)
  {
    match slot
    case Long(e) => Scan(Extracted(if s.pending then s.buf else Zeroed(s.buf), e), true)
    case Other(_, _) => s.(pending := false)
  }

  predicate Clean(slots: seq<Slot>) {
    forall i | 0 <= i < |slots| && slots[i].Long? :: Whole(slots[i].entry)
  }

  /** The buffer and flag after a run of slots. */
  function After(s: Scan, slots: seq<Slot>): Scan
    requires Clean(slots)
    decreases |slots|
  {
    if slots == [] then s else Step(After(s, slots[..|slots| - 1]), slots[|slots| - 1])
  }

  /** The name under which a slot is compared. */
  function NameOf(s: Scan, slot: Slot): Bytes
    requires slot.Other?
  {
    if s.pending then Text(s.buf) else slot.shortName
  }

  datatype Verdict = Hit(at: nat) | Stopped(at: nat) | Miss

  predicate Ends(slot: Slot) { slot.Other? && slot.first == END }

  predicate Matches(slots: seq<Slot>, s: Scan, i: nat, name: Bytes)
    requires Clean(slots) && i < |slots|
  {
    slots[i].Other? && slots[i].first != END && slots[i].first != DELETED &&
    NameOf(After(s, Part(slots, i)), slots[i]) == name
  }

  function Part(slots: seq<Slot>, i: nat): (r: seq<Slot>)
    requires Clean(slots) && i <= |slots|
    ensures Clean(r) && r == slots[..i]
  {
    slots[..i]
  }

  /** Looks a name up: the first slot that matches it, unless the directory ends before. */
  method Lookup(slots: seq<Slot>, name: Bytes) returns (v: Verdict, ghost start: Bytes)
    requires Clean(slots)
    ensures |start| == SPAN
    ensures var s := Scan(start, false);
            match v
            case Hit(at) => at < |slots| && Matches(slots, s, at, name) &&
              forall i: nat | i < at :: !Matches(slots, s, i, name) && !Ends(slots[i])
            case Stopped(at) => at < |slots| && Ends(slots[at]) && forall i: nat | i < at :: !Matches(slots, s, i, name)
            case Miss => forall i: nat | i < |slots| :: !Matches(slots, s, i, name) && !Ends(slots[i])
  {
    hide Step;
    hide Text;
    var buf := new nat[SPAN];
    start := buf[..];
    var pending := false;
    ghost var s := Scan(start, false);
    for i := 0 to |slots|
      invariant Scan(buf[..], pending) == After(s, Part(slots, i))
      invariant forall k: nat | k < i :: !Matches(slots, s, k, name) && !Ends(slots[k])
    {
      AfterNext(s, slots, i);
      if slots[i].Long? {
        StepLong(Scan(buf[..], pending), slots[i]);
        if !pending {
          Clear(buf);
        }
        Extract(slots[i].entry, buf);
        pending := true;
      } else {
        StepOther(Scan(buf[..], pending), slots[i]);
        var longName := if pending then Text(buf[..]) else slots[i].shortName;
        pending := false;
        if slots[i].first == END {
          return Stopped(i), start;
        }
        if slots[i].first != DELETED && longName == name {
          return Hit(i), start;
        }
      }
    }
    v := Miss;
  }

  method Clear(buf: array<nat>)
    requires buf.Length == SPAN
    modifies buf
    ensures buf[..] == Zeroed(old(buf[..]))
  {
    for i := 0 to BUFFER
      invariant forall k: nat | k < SPAN :: buf[k] == if k < i then 0 else old(buf[k])
    {
      buf[i] := 0;
    }
  }

  lemma StepLong(s: Scan, slot: Slot)
    requires slot.Long? && Whole(slot.entry)
    ensures Step(s, slot) == Scan(Extracted(if s.pending then s.buf else Zeroed(s.buf), slot.entry), true)
  {
  }

  lemma StepOther(s: Scan, slot: Slot)
    requires slot.Other?
    ensures Step(s, slot) == Scan(s.buf, false)
  {
  }

  lemma AfterNext(s: Scan, slots: seq<Slot>, i: nat)
    requires Clean(slots) && i < |slots|
    ensures After(s, Part(slots, i + 1)) == Step(After(s, Part(slots, i)), slots[i])
  {
    assert slots[..i + 1][..i] == slots[..i];
  }

  // ----- The round trip -----

  /** The order on disk: last part first. */
  function OnDisk(es: seq<Entry>): (r: seq<Slot>)
    ensures |r| == |es| && forall k | 0 <= k < |es| :: r[k] == Long(es[|es| - 1 - k])
  {
    seq(|es|, k requires 0 <= k < |es| => Long(es[|es| - 1 - k]))
  }

  lemma BuiltClean(es: seq<Entry>, name: Bytes, checksum: nat)
    requires Built(es, name, checksum)
    ensures Clean(OnDisk(es))
  {
    hide Holds;
    hide Count;
    forall k | 0 <= k < |es| ensures Whole(OnDisk(es)[k].entry) {
      var n: nat := |es| - 1 - k;
      assert Holds(es[n], name, checksum, n);
      HoldsWhole(es[n], name, checksum, n);
    }
  }

  lemma HoldsWhole(e: Entry, name: Bytes, checksum: nat, n: nat)
    requires Holds(e, name, checksum, n)
    ensures Whole(e)
  {
  }

  lemma {:induction false} AfterJoin(s: Scan, a: seq<Slot>, b: seq<Slot>)
    requires Clean(a) && Clean(b)
    ensures Clean(a + b) && After(s, a + b) == After(After(s, a), b)
    decreases |b|
  {
    hide Step;
    if b == [] {
      assert a + b == a;
    } else {
      var n := |b| - 1;
      assert (a + b)[..|a + b| - 1] == a + b[..n];
      AfterJoin(s, a, b[..n]);
    }
  }

  /** After the first `j` entries on disk the buffer holds the corresponding tail of the name. */
  lemma {:induction false} Assembled(s: Scan, es: seq<Entry>, name: Bytes, checksum: nat, j: nat)
    requires IsName(name) && Built(es, name, checksum) && 1 <= j <= |es| && Clean(OnDisk(es)[..j])
    ensures var r := After(s, OnDisk(es)[..j]); r.pending && Tail(r.buf, name, (|es| - j) * PER_ENTRY)
  {
    hide Holds;
    hide Count;
    hide Extracted;
    hide IsName;
    var disk := OnDisk(es);
    var n: nat := |es| - j;
    assert disk[..j][..j - 1] == disk[..j - 1];
    assert disk[..j][j - 1] == Long(es[n]);
    var before := After(s, disk[..j - 1]);
    if j > 1 {
      Assembled(s, es, name, checksum, j - 1);
    }
    assert Holds(es[n], name, checksum, n);
    HoldsWhole(es[n], name, checksum, n);
    ExtractPart(if before.pending then before.buf else Zeroed(before.buf), es[n], name, checksum, n);
  }

  /**
    * A name of 1 to 255 bytes, cut into entries and written last part first, is read back exactly,
    * whatever precedes it in the directory and whatever the buffer held.
    */
  lemma RoundTrip(s: Scan, before: seq<Slot>, es: seq<Entry>, name: Bytes, checksum: nat, slot: Slot)
    requires IsName(name) && Built(es, name, checksum) && Clean(before) && slot.Other?
    ensures Clean(before + OnDisk(es)) && NameOf(After(s, before + OnDisk(es)), slot) == name
  {
    hide Holds;
    hide Text;
    hide Step;
    BuiltClean(es, name, checksum);
    AfterJoin(s, before, OnDisk(es));
    Filled(name);
    assert OnDisk(es)[..|es|] == OnDisk(es);
    Assembled(After(s, before), es, name, checksum, |es|);
    TextIs(After(s, before + OnDisk(es)).buf, name);
  }

  lemma Filled(name: Bytes)
    requires IsName(name)
    ensures Count(name) >= 1
  {
  }

  /** Writes a new file's entries into free slots of a directory. */
  method Create(dir: seq<Slot>, at: nat, name: Bytes, checksum: nat, slot: Slot)
    returns (r: seq<Slot>, ghost es: seq<Entry>)
    requires IsName(name) && at + Count(name) + 1 <= |dir|
    ensures Built(es, name, checksum) && r == dir[..at] + OnDisk(es) + [slot] + dir[at + Count(name) + 1..]
  {
    hide Holds;
    hide IsName;
    IsShort(name);
    var parts := Build(name, checksum);
    es := parts;
    var count := |parts|;
    r := dir;
    for n := 0 to count
      invariant |r| == |dir|
      invariant forall k | 0 <= k < |dir| :: r[k] == if at <= k < at + n then OnDisk(parts)[k - at] else dir[k]
    {
      r := r[at + n := Long(parts[count - 1 - n])];
    }
    r := r[at + count := slot];
  }

  lemma IsShort(name: Bytes)
    requires IsName(name)
    ensures |name| <= NAME_MAX
  {
  }

  // ----- The generated short name -----

  const SHORT_BASE := 8
  const SHORT_EXT := 3
  const ONE := 0x31

  function Upper(c: nat): nat { if 0x61 <= c <= 0x7A then c - 0x20 else c }

  /** The length of the part before the last dot. */
  function BaseLen(name: Bytes): (n: nat)
    ensures n <= |name| && (n < |name| <==> DOT in name)
    ensures n < |name| ==> name[n] == DOT && DOT !in name[n + 1..]
  {
    if name == [] then 0
    else if name[|name| - 1] == DOT then |name| - 1
    else
      var n := BaseLen(name[..|name| - 1]);
      assert name == name[..|name| - 1] + [name[|name| - 1]];
      if n < |name| - 1 then n else |name|
  }

  predicate IsBase(base: Bytes, name: Bytes) {
    var n := if BaseLen(name) < 6 then BaseLen(name) else 6;
    |base| == SHORT_BASE && forall i: nat | i < SHORT_BASE ::
      base[i] == if i < n then Upper(name[i]) else if i == n then TILDE else if i == n + 1 then ONE else FILL
  }

  predicate IsExt(ext: Bytes, name: Bytes) {
    |ext| == SHORT_EXT && forall i: nat | i < SHORT_EXT ::
      ext[i] == if BaseLen(name) + 1 + i < |name| then Upper(name[BaseLen(name) + 1 + i]) else FILL
  }

  /** The short name generated for a long one. */
  method ShortName(name: Bytes) returns (base: Bytes, ext: Bytes)
    ensures IsBase(base, name) && IsExt(ext, name)
  {
    hide IsBase;
    hide IsExt;
    var dot: nat := |name|;
    for p := 0 to |name|
      invariant dot == if BaseLen(name[..p]) < p then BaseLen(name[..p]) else |name|
    {
      assert name[..p + 1][..p] == name[..p];
      if name[p] == DOT {
        dot := p;
      }
    }
    assert name[..|name|] == name;
    base := ShortBase(name, dot);
    ext := ShortExt(name, dot);
  }

  method ShortBase(name: Bytes, baseLen: nat) returns (base: Bytes)
    requires baseLen == BaseLen(name)
    ensures IsBase(base, name)
  {
    hide BaseLen;
    var copy := if baseLen < 6 then baseLen else 6;
    base := [];
    for i := 0 to SHORT_BASE
      invariant |base| == i && forall j: nat | j < i ::
                  base[j] == if j < copy then Upper(name[j])
                    else if j == copy then TILDE else if j == copy + 1 then ONE else FILL
    {
      if i < copy {
        base := base + [Upper(name[i])];
      } else if i == copy {
        base := base + [TILDE];
      } else if i == copy + 1 {
        base := base + [ONE];
      } else {
        base := base + [FILL];
      }
    }
  }

  method ShortExt(name: Bytes, dot: nat) returns (ext: Bytes)
    requires dot == BaseLen(name)
    ensures IsExt(ext, name)
  {
    hide BaseLen;
    ext := [];
    for i := 0 to SHORT_EXT
      invariant |ext| == i &&
                forall j: nat | j < i :: ext[j] == if dot + 1 + j < |name| then Upper(name[dot + 1 + j]) else FILL
    {
      if dot < |name| && i < |name| - dot - 1 {
        ext := ext + [Upper(name[dot + 1 + i])];
      } else {
        ext := ext + [FILL];
      }
    }
  }

  /** The first byte is never the end mark, and the deletion mark exactly when the long name begins with it. */
  lemma ShortFirst(base: Bytes, name: Bytes)
    requires IsName(name) && IsBase(base, name)
    ensures |base| == SHORT_BASE && base[0] != END && (base[0] == DELETED <==> name[0] == DELETED)
  {
  }

  /** The generated name has no lower-case letter and copies the long one up to case. */
  lemma ShortUpper(base: Bytes, ext: Bytes, name: Bytes, i: nat)
    requires IsBase(base, name) && IsExt(ext, name)
    ensures i < 8 ==> !(0x61 <= base[i] <= 0x7A)
    ensures i < 3 ==> !(0x61 <= ext[i] <= 0x7A)
    ensures i < 6 && i < BaseLen(name) ==> base[i] == name[i] || (0x61 <= name[i] && base[i] + 0x20 == name[i])
    ensures i < 3 && BaseLen(name) + 1 + i < |name| ==>
            var c := name[BaseLen(name) + 1 + i]; ext[i] == c || (0x61 <= c && ext[i] + 0x20 == c)
  {
    hide BaseLen;
  }

  function Unfilled(s: Bytes): Bytes {
    if s == [] then [] else (if s[0] == FILL then [] else [s[0]]) + Unfilled(s[1..])
  }

  /** A short name as it is shown. */
  function Shown(base: Bytes, ext: Bytes): Bytes {
    Unfilled(base) + if Unfilled(ext) == [] then [] else [DOT] + Unfilled(ext)
  }

  function Checksum(s: Bytes): (r: nat)
    ensures r < 256
  {
    if s == [] then 0 else Roll(Checksum(s[..|s| - 1]), s[|s| - 1])
  }

  /** One bit to the right, the lowest to the top, and the next byte added. */
  function Roll(sum: nat, b: nat): nat { (sum % 2 * 128 + sum / 2 + b) % 256 }

  lemma RollTells(a: nat, b: nat, x: nat, y: nat)
    requires a < 256 && b < 256
    ensures a != b ==> Roll(a, x) != Roll(b, x)
    ensures x < 256 && y < 256 && x != y ==> Roll(a, x) != Roll(a, y)
  {
    var ra, rb := a % 2 * 128 + a / 2, b % 2 * 128 + b / 2;
    assert a != b ==> ra != rb;
    Shifts(ra, rb, x);
    Shifts(x, y, ra);
  }

  lemma Shifts(x: nat, y: nat, r: nat)
    ensures x < 256 && y < 256 && x != y ==> (x + r) % 256 != (y + r) % 256
  {
  }

  function Fills(n: nat): Bytes { if n == 0 then [] else Fills(n - 1) + [FILL] }

  lemma {:induction false} UnfilledIs(b: Bytes, n: nat)
    requires FILL !in b
    ensures Unfilled(b + Fills(n)) == b
  {
    if b != [] {
      assert (b + Fills(n))[1..] == b[1..] + Fills(n);
      UnfilledIs(b[1..], n);
    } else if n > 0 {
      FillsFirst(n);
      assert b + Fills(n) == Fills(n) && Fills(n)[1..] == [] + Fills(n - 1);
      UnfilledIs([], n - 1);
    }
  }

  lemma {:induction false} FillsFirst(n: nat)
    requires n > 0
    ensures Fills(n) == [FILL] + Fills(n - 1)
  {
    if n > 1 {
      FillsFirst(n - 1);
    }
  }

  /** A padded short name is shown without its padding, the dot only before an extension. */
  lemma ShownIs(b: Bytes, m: nat, e: Bytes, n: nat)
    requires FILL !in b && FILL !in e
    ensures Shown(b + Fills(m), e + Fills(n)) == if e == [] then b else b + [0x2E] + e
  {
    UnfilledIs(b, m);
    UnfilledIs(e, n);
  }

  /** The checksum tells apart names that differ in one byte, and it depends on the order of the bytes. */
  lemma {:induction false} ChecksumTells(s: Bytes, i: nat, v: nat)
    requires i < |s| && s[i] < 256 && v < 256 && v != s[i]
    ensures Checksum(s) != Checksum(s[i := v])
  {
    hide Roll;
    var n := |s| - 1;
    var t := s[i := v];
    RollTells(Checksum(s[..n]), Checksum(t[..n]), s[n], t[n]);
    if i == n {
      assert t[..n] == s[..n];
    } else {
      assert t[..n] == s[..n][i := v];
      ChecksumTells(s[..n], i, v);
    }
  }

  lemma ChecksumOrder()
    ensures Checksum([0x7E, 0x31]) == 0x70 && Checksum([0x31, 0x7E]) == 0x16
  {
    assert Checksum([0x7E]) == 0x7E && Checksum([0x31]) == 0x31 by {
      assert [0x7E][..0] == [] && [0x31][..0] == [];
    }
    assert [0x7E, 0x31][..1] == [0x7E] && [0x31, 0x7E][..1] == [0x31];
  }

  // ----- What a scan finds does not depend on what the buffer held before -----

  predicate Agree(a: Bytes, b: Bytes) {
    |a| == |b| == SPAN && a[NAME_MAX] == 0 && forall k: nat | k < BUFFER :: a[k] == b[k]
  }

  lemma AgreeSet(a: Bytes, b: Bytes, k: nat, v: nat)
    requires Agree(a, b) && k < NAME_MAX
    ensures |a| == |b| == SPAN && Agree(a[k := v], b[k := v])
  {
  }

  lemma AgreeZero(a: Bytes, b: Bytes, k: nat)
    requires Agree(a, b)
    ensures |a| == |b| == SPAN && (k < SPAN ==> Agree(a[k := 0], b[k := 0]))
  {
  }

  lemma {:induction false} CopiedAgree(a: Bytes, b: Bytes, e: Entry, base: nat, i: nat)
    requires Whole(e) && i <= PER_ENTRY && Agree(a, b)
    ensures Agree(Copied(a, e, base, i), Copied(b, e, base, i))
    decreases PER_ENTRY - i
  {
    hide CharAt;
    hide IsEnd;
    hide IsLast;
    hide Agree;
    AgreeZero(a, b, base + i);
    if i < PER_ENTRY && !IsEnd(CharAt(e, i)) {
      if base + i < NAME_MAX {
        AgreeSet(a, b, base + i, CharAt(e, i) % 256);
        CopiedAgree(a[base + i := CharAt(e, i) % 256], b[base + i := CharAt(e, i) % 256], e, base, i + 1);
      } else {
        CopiedAgree(a, b, e, base, i + 1);
      }
    }
  }

  lemma {:induction false} AfterAgree(s: Scan, t: Scan, slots: seq<Slot>)
    requires Clean(slots) && !s.pending && !t.pending
    ensures After(s, slots).pending == After(t, slots).pending
    ensures After(s, slots).pending ==> Agree(After(s, slots).buf, After(t, slots).buf)
  {
    hide Copied;
    hide Order;
    if slots != [] {
      var n := |slots| - 1;
      AfterAgree(s, t, slots[..n]);
      var a, b := After(s, slots[..n]), After(t, slots[..n]);
      if slots[n].Long? && 1 <= Order(slots[n].entry) <= 20 {
        CopiedAgree(if a.pending then a.buf else Zeroed(a.buf), if b.pending then b.buf else Zeroed(b.buf),
                    slots[n].entry, (Order(slots[n].entry) - 1) * PER_ENTRY, 0);
      }
    }
  }

  lemma {:induction false} TextAgree(a: Bytes, b: Bytes, k: nat)
    requires Agree(a, b) && k <= NAME_MAX
    ensures Text(a[k..]) == Text(b[k..])
    decreases NAME_MAX - k
  {
    if a[k] != 0 {
      TextAgree(a, b, k + 1);
      assert a[k..][1..] == a[k + 1..] && b[k..][1..] == b[k + 1..];
    }
  }

  lemma MatchesAgree(x: seq<Slot>, y: seq<Slot>, s: Scan, t: Scan, i: nat, name: Bytes)
    requires Clean(x) && Clean(y) && !s.pending && !t.pending && i < |x| && i < |y| && x[..i + 1] == y[..i + 1]
    ensures Matches(x, s, i, name) <==> Matches(y, t, i, name)
  {
    hide After;
    hide Text;
    assert x[..i] == x[..i + 1][..i] && y[..i] == y[..i + 1][..i];
    assert x[i] == x[..i + 1][i] && y[i] == y[..i + 1][i];
    AfterAgree(s, t, Part(x, i));
    var a, b := After(s, Part(x, i)), After(t, Part(y, i));
    if a.pending {
      TextAgree(a.buf, b.buf, 0);
      assert a.buf[0..] == a.buf && b.buf[0..] == b.buf;
    }
  }

  /**
    * Creating a file whose name is not in use and looking it up: the new slot is found exactly when the
    * name does not begin with the byte that marks deleted slots and the directory does not end before it.
    */
  method CreateAndLookup(dir: seq<Slot>, at: nat, name: Bytes) returns (made: bool, v: Verdict)
    requires IsName(name) && at + Count(name) + 1 <= |dir| && Clean(dir)
    ensures !made ==> v.Hit?
    ensures made ==> (v == Hit(at + Count(name)) <==> name[0] != DELETED && forall i | 0 <= i < at :: !Ends(dir[i]))
  {
    hide Holds;
    hide IsName;
    hide IsBase;
    hide IsExt;
    hide Count;
    hide Matches;
    hide Checksum;
    hide Shown;
    ghost var start0, start, es;
    v, start0 := Lookup(dir, name);
    if v.Hit? {
      return false, v;
    }
    made := true;
    var base, ext := ShortName(name);
    ShortFirst(base, name);
    var slot := Other(base[0], Shown(base, ext));
    var r;
    r, es := Create(dir, at, name, Checksum(base + ext), slot);
    BuiltClean(es, name, Checksum(base + ext));
    CleanParts(dir, at, OnDisk(es), slot, at + Count(name) + 1);
    v, start := Lookup(r, name);
    NewSlot(r, dir, at, es, name, Checksum(base + ext), slot, Scan(start, false));
    assert forall i: nat | i < at :: r[i] == dir[i];
    forall i: nat | i < at && (forall k | 0 <= k < at :: !Ends(dir[k]))
      ensures !Matches(r, Scan(start, false), i, name)
    {
      assert r[..i + 1] == dir[..i + 1];
      MatchesAgree(r, dir, Scan(start, false), Scan(start0, false), i, name);
    }
  }

  lemma NewSlot(r: seq<Slot>, dir: seq<Slot>, at: nat, es: seq<Entry>, name: Bytes, checksum: nat, slot: Slot, s: Scan)
    requires IsName(name) && at + Count(name) + 1 <= |dir| && Clean(dir) && Clean(r) && slot.Other? && slot.first != END
    requires Built(es, name, checksum) && r == dir[..at] + OnDisk(es) + [slot] + dir[at + Count(name) + 1..]
    ensures |r| == |dir| && forall i: nat | at <= i < at + Count(name) :: !Matches(r, s, i, name) && !Ends(r[i])
    ensures !Ends(r[at + Count(name)]) && (Matches(r, s, at + Count(name), name) <==> slot.first != DELETED)
  {
    hide Holds;
    hide IsName;
    hide Count;
    hide After;
    hide NameOf;
    var n := at + |es|;
    assert r[..n] == dir[..at] + OnDisk(es);
    BuiltClean(es, name, checksum);
    CleanParts(dir, at, OnDisk(es), slot, n + 1);
    RoundTrip(s, dir[..at], es, name, checksum, slot);
    assert r[n] == slot;
    forall i: nat | at <= i < n ensures r[i].Long? {
      assert r[i] == OnDisk(es)[i - at];
    }
  }

  /** A name in UTF-8 whose first byte is the deletion mark. */
  function MarkedName(): Bytes { [0xE5, 0xA5, 0xBD] }

  /** It is written to the directory and never found there: its slot reads as deleted. */
  lemma NeverFound(dir: seq<Slot>, at: nat, base: Bytes, ext: Bytes, es: seq<Entry>, r: seq<Slot>, s: Scan)
    requires at + 2 <= |dir| && Clean(dir) && Clean(r) && IsBase(base, MarkedName()) && IsExt(ext, MarkedName())
    requires Built(es, MarkedName(), Checksum(base + ext)) &&
             r == dir[..at] + OnDisk(es) + [Other(base[0], Shown(base, ext))] + dir[at + 2..]
    ensures r[at + 1].Other? && r[at + 1].first == DELETED && !Matches(r, s, at + 1, MarkedName())
  {
    hide Holds;
    hide Checksum;
    hide Shown;
    ShortFirst(base, MarkedName());
    assert Count(MarkedName()) == 1;
    NewSlot(r, dir, at, es, MarkedName(), Checksum(base + ext), Other(base[0], Shown(base, ext)), s);
    assert r[at + 1] == Other(base[0], Shown(base, ext));
  }

  lemma CleanParts(dir: seq<Slot>, a: nat, mid: seq<Slot>, slot: Slot, b: nat)
    requires Clean(dir) && Clean(mid) && slot.Other? && a <= b <= |dir|
    ensures Clean(dir[..a]) && Clean(dir[..a] + mid + [slot] + dir[b..])
  {
  }
}
