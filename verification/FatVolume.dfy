/** A mounted volume: the copies of the table, the first cluster of each file, and the FSInfo hint. */
module FatVolume {
  import opened Arithmetic
  import opened FatTable

  const U32 := 0x1_0000_0000
  const ENTRIES_PER_SECTOR := 128
  const SECTOR_SIZE := 512

  function Head(c: seq<Cluster>): Cluster { if c == [] then 0 else c[0] }

  function Heads(chains: Chains): map<File, Cluster> { map f | f in chains :: Head(chains[f]) }

  /** All copies hold the same cluster numbers. */
  predicate Agree(fats: seq<seq<nat>>, fat: seq<nat>) {
    forall k | 0 <= k < |fats| :: Lows(fats[k]) == fat
  }

  /** Only the low 28 bits of entries differ. */
  predicate SameUpper(a: seq<seq<nat>>, b: seq<seq<nat>>) {
    |a| == |b| && forall k | 0 <= k < |a| :: SameUpperBits(a[k], b[k])
  }

  predicate SameUpperBits(a: seq<nat>, b: seq<nat>) {
    |a| == |b| && forall i | 0 <= i < |a| :: a[i] / LOW == b[i] / LOW
  }

  lemma SameUpperTrans(a: seq<seq<nat>>, b: seq<seq<nat>>, c: seq<seq<nat>>)
    requires SameUpper(a, b) && SameUpper(b, c)
    ensures SameUpper(a, c)
  {
    forall k | 0 <= k < |a| ensures SameUpperBits(a[k], c[k]) {
      assert SameUpperBits(a[k], b[k]) && SameUpperBits(b[k], c[k]);
    }
  }

  predicate HasFree(fat: seq<nat>) {
    exists i :: 0 <= i < |fat| && fat[i] == FREE
  }

  /** The cluster an allocation takes: the hinted one if free, else the lowest free one. */
  predicate Chosen(fat: seq<nat>, hint: seq<nat>, x: Cluster) {
    x < |fat| && fat[x] == FREE &&
    if hint != [] && FIRST_DATA <= hint[0] < |fat| && fat[hint[0]] == FREE then x == hint[0]
    else forall i | 0 <= i < x :: fat[i] != FREE
  }

  /** Clusters a write up to byte `end` asks for, in 32-bit arithmetic. */
  function Needed(end: nat, clusterSize: nat): nat
    requires clusterSize > 0
  {
    (end + clusterSize - 1) % U32 / clusterSize
  }

  /** The clusters asked for hold `end` bytes exactly when the rounding does not wrap, and one fewer would not. */
  lemma NeededCovers(end: nat, size: nat)
    requires 0 < size <= U32 && end < U32
    ensures Needed(end, size) * size >= end <==> end + size - 1 < U32
    ensures end > 0 && end + size - 1 < U32 ==> Needed(end, size) > 0 && (Needed(end, size) - 1) * size < end
    ensures end == 0 ==> Needed(end, size) == 0
  {
    var x := (end + size - 1) % U32;
    assert x == if end + size - 1 < U32 then end + size - 1 else end + size - 1 - U32;
    Division(x, size);
  }

  function Max(a: nat, b: nat): nat { if a < b then b else a }

  /** A chain no shorter than the clusters asked for holds the bytes; if that is what made it longer, just so. */
  lemma Enough(had: nat, end: nat, size: nat)
    requires size > 0
    ensures var n := Max(had, Max(1, Needed(end, size)));
            end + size - 1 < U32 ==> n * size >= end && (n > 1 && n > had ==> (n - 1) * size < end)
  {
    if end + size - 1 < U32 {
      NeededCovers(end, size);
      MulMonotone(Needed(end, size), Max(had, Max(1, Needed(end, size))), size);
    }
  }

  lemma EntrySet(fat: seq<nat>, x: Cluster, next: nat)
    requires x < |fat|
    ensures Lows(fat[x := WithLow(fat[x], next)]) == Lows(fat)[x := next % LOW]
    ensures SameUpperBits(fat, fat[x := WithLow(fat[x], next)])
  {
  }

  class Volume {
    const perCluster: nat
    const dataStart: nat
    var fats: seq<seq<nat>>
    var hint: seq<nat>
    var first: map<File, Cluster>
    ghost var owner: seq<Owner>
    ghost var chains: Chains

    /** A mounted volume, with what its table already means: one chain per file, as ownership witnesses. */
    constructor (fats: seq<seq<nat>>, perCluster: nat, dataStart: nat, hint: seq<nat>, first: map<File, Cluster>,
                 ghost owner: seq<Owner>, ghost chains: Chains)
      requires perCluster > 0 && |fats| > 0 && Agree(fats, Lows(fats[0])) && Inv(Lows(fats[0]), owner, chains) &&
               first == Heads(chains)
      ensures Valid() && this.fats == fats && this.chains == chains && this.first == first
    {
      this.fats, this.perCluster, this.dataStart, this.hint, this.first := fats, perCluster, dataStart, hint, first;
      this.owner, this.chains := owner, chains;
    }

    ghost predicate Geometry()
      reads this
    {
      perCluster > 0 && |fats| > 0 && Agree(fats, Table())
    }

    ghost predicate Valid()
      reads this
    {
      Geometry() && Inv(Table(), owner, chains) && first == Heads(chains)
    }

    /** The cluster numbers of the first copy. */
    function Table(): seq<nat>
      reads this
    {
      if |fats| > 0 then Lows(fats[0]) else []
    }

    method GetNext(x: Cluster) returns (next: nat)
      requires Geometry() && x < |Table()|
      ensures next == Table()[x]
    {
      next := Low(fats[0][x]);
    }

    /** Writes one entry in every copy. */
    method SetNext(x: Cluster, next: nat)
      requires Geometry() && x < |Table()|
      modifies this`fats
      ensures Geometry() && Table() == old(Table())[x := next % LOW] && SameUpper(old(fats), fats)
    {
      hide Low;
      hide WithLow;
      hide Lows;
      var copy := 0;
      while copy < |fats|
        invariant 0 <= copy <= |fats| == |old(fats)|
        invariant forall k | 0 <= k < copy :: Lows(fats[k]) == old(Table())[x := next % LOW]
        invariant forall k | copy <= k < |fats| :: fats[k] == old(fats)[k]
        invariant SameUpper(old(fats), fats)
      {
        var fat: seq<nat> := fats[copy];
        EntrySet(fat, x, next);
        fat := fat[x := WithLow(fat[x], next)];
        fats := fats[copy := fat];
        copy := copy + 1;
      }
    }

    method Claim(x: Cluster)
      requires Geometry() && x < |Table()|
      modifies this`fats, this`hint
      ensures Geometry() && Table() == old(Table())[x := EOC] && SameUpper(old(fats), fats)
      ensures hint == if old(hint) == [] then [] else [x + 1]
    {
      SetNext(x, EOC);
      if hint != [] {
        hint := [x + 1];
      }
    }

    /** Takes a free cluster, the hinted one if possible, and marks it as the end of a chain. */
    method Alloc() returns (ok: bool, x: Cluster)
      requires Geometry()
      modifies this`fats, this`hint
      ensures Geometry() && SameUpper(old(fats), fats) && ok == HasFree(old(Table()))
      ensures !ok ==> fats == old(fats) && hint == old(hint)
      ensures ok ==> Chosen(old(Table()), old(hint), x) && Table() == old(Table())[x := EOC]
      ensures ok ==> hint == if old(hint) == [] then [] else [x + 1]
    {
      hide Low;
      hide Lows;
      var entries := |fats[0]|;
      if hint != [] && FIRST_DATA <= hint[0] < entries {
        var val := GetNext(hint[0]);
        if val == FREE {
          x := hint[0];
          Claim(x);
          return true, x;
        }
      }
      var sector := 0;
      while sector * ENTRIES_PER_SECTOR < entries
        invariant fats == old(fats) && hint == old(hint)
        invariant forall i | 0 <= i < sector * ENTRIES_PER_SECTOR && i < entries :: Table()[i] != FREE
        decreases entries - sector * ENTRIES_PER_SECTOR
      {
        var base := sector * ENTRIES_PER_SECTOR;
        var count := if base + ENTRIES_PER_SECTOR > entries then entries - base else ENTRIES_PER_SECTOR;
        for i := 0 to count
          invariant fats == old(fats) && hint == old(hint)
          invariant forall j | 0 <= j < base + i :: Table()[j] != FREE
        {
          var val := GetNext(base + i);
          if val == FREE {
            x := base + i;
            Claim(x);
            return true, x;
          }
        }
        sector := sector + 1;
      }
      return false, 0;
    }

    /** Allocates the first cluster of an empty file. */
    method AllocFirst(f: File) returns (ok: bool)
      requires Valid() && f in first && first[f] == 0
      modifies this`fats, this`hint, this`first, this`owner, this`chains
      ensures Valid() && SameUpper(old(fats), fats) && ok == HasFree(old(Table()))
      ensures f in first && chains == if ok then old(chains)[f := [first[f]]] else old(chains)
      ensures ok ==> Chosen(old(Table()), old(hint), first[f]) && Table() == old(Table())[first[f] := EOC]
      ensures !ok ==> fats == old(fats)
    {
      hide Lows;
      hide ChainOk;
      hide Agree;
      hide SameUpper;
      EmptyHead(Table(), owner, chains, f);
      var x;
      ok, x := Alloc();
      if ok {
        Claimed(old(Table()), owner, chains, x);
        Appended(Table(), owner, chains, f, x);
        HeadsSet(chains, f, [x]);
        owner := owner[x := Own(f, 0)];
        chains := chains[f := [x]];
        first := first[f := x];
      }
    }

    /** The next cluster of a file, growing its chain at the end if there is none. */
    method Advance(x: Cluster, ghost f: File, ghost i: nat) returns (ok: bool, next: Cluster)
      requires Valid() && f in chains && i < |chains[f]| && chains[f][i] == x
      modifies this`fats, this`hint, this`owner, this`chains
      ensures Valid() && SameUpper(old(fats), fats)
      ensures ok == (i + 1 < |old(chains)[f]| || HasFree(old(Table())))
      ensures !ok || i + 1 < |old(chains)[f]| ==> fats == old(fats) && chains == old(chains)
      ensures ok ==> f in chains && i + 1 < |chains[f]| && chains[f][i + 1] == next
      ensures ok && i + 1 == |old(chains)[f]| ==>
              chains == old(chains)[f := old(chains)[f] + [next]] && Chosen(old(Table()), old(hint), next)
    {
      hide Lows;
      hide ChainOk;
      hide Agree;
      UpperSame(fats);
      hide SameUpper;
      StepOk(Table(), owner, chains, f, i);
      next := GetNext(x);
      if next < EOC {
        return true, next;
      }
      ok, next := Alloc();
      if !ok {
        return;
      }
      Claimed(old(Table()), owner, chains, next);
      Appended(Table(), owner, chains, f, next);
      ghost var c := chains[f];
      HeadsGrow(chains, f, next);
      ghost var claimed := fats;
      SetNext(x, next);
      SameUpperTrans(old(fats), claimed, fats);
      Fits(Table(), next);
      owner := owner[next := Own(f, |c|)];
      chains := chains[f := c + [next]];
    }

    /** Walks `need` clusters of a chain, appending the missing ones. */
    method Extend(f: File, need: nat) returns (ok: bool)
      requires Valid() && f in first && f in chains && chains[f] != []
      modifies this`fats, this`hint, this`owner, this`chains
      ensures Valid() && SameUpper(old(fats), fats)
      ensures f in chains && old(chains)[f] <= chains[f] && chains == old(chains)[f := chains[f]]
      ensures ok ==> |chains[f]| == Max(|old(chains)[f]|, need)
      ensures !ok ==> !HasFree(Table())
    {
      hide Lows;
      hide ChainOk;
      hide Agree;
      hide Inv;
      UpperSame(fats);
      hide SameUpper;
      hide HasFree;
      hide Chosen;
      HeadsAt(chains, f);
      hide Heads;
      var x := first[f];
      var c := 1;
      assert chains == old(chains)[f := chains[f]];
      while c < need
        invariant Valid() && SameUpper(old(fats), fats) && 1 <= c && (c <= need || c == 1)
        invariant f in chains && c <= |chains[f]| && chains[f][c - 1] == x
        invariant old(chains)[f] <= chains[f] && chains == old(chains)[f := chains[f]]
        invariant |chains[f]| == Max(|old(chains)[f]|, c)
      {
        ghost var before := fats;
        ok, x := Advance(x, f, c - 1);
        SameUpperTrans(old(fats), before, fats);
        if !ok {
          return;
        }
        c := c + 1;
      }
      ok := true;
    }

    /** The clusters a write needs: the chain grows at its end and nothing else moves. */
    method Grow(f: File, pos: nat, count: nat) returns (ok: bool)
      requires Valid() && f in first && pos < U32 && count < U32
      modifies this`fats, this`hint, this`first, this`owner, this`chains
      ensures Valid() && SameUpper(old(fats), fats)
      ensures f in chains && old(chains)[f] <= chains[f] && chains == old(chains)[f := chains[f]]
      ensures ok ==> pos + count < U32 &&
                     |chains[f]| == Max(|old(chains)[f]|, Max(1, Needed(pos + count, perCluster * SECTOR_SIZE)))
      ensures var size := perCluster * SECTOR_SIZE;
              ok && pos + count + size - 1 < U32 ==>
                |chains[f]| * size >= pos + count &&
                (|chains[f]| > 1 && |chains[f]| > |old(chains)[f]| ==> (|chains[f]| - 1) * size < pos + count)
      ensures !ok && pos + count < U32 ==> !HasFree(Table())
      ensures pos + count >= U32 ==> !ok && fats == old(fats) && chains == old(chains)
    {
      hide Lows;
      hide ChainOk;
      hide Agree;
      hide Inv;
      hide SameUpper;
      hide Heads;
      hide Needed;
      hide HasFree;
      UpperSame(fats);
      HeadsAt(chains, f);
      assert chains == old(chains)[f := chains[f]];
      var end := (pos + count) % U32;
      if end < pos {
        return false;
      }
      if first[f] == 0 {
        EmptyHead(Table(), owner, chains, f);
        ok := AllocFirst(f);
        HeadsAt(chains, f);
        if !ok {
          return;
        }
      } else {
        NonEmpty(Table(), owner, chains, f);
      }
      ClusterSize(perCluster);
      var need := Needed(end, perCluster * SECTOR_SIZE);
      ghost var before := fats;
      ok := Extend(f, need);
      SameUpperTrans(old(fats), before, fats);
      Enough(|old(chains)[f]|, end, perCluster * SECTOR_SIZE);
    }

    /** Frees a file's chain; the bounded walk always reaches its end. */
    method FreeChain(head: Cluster, ghost f: File) returns (ok: bool)
      requires Valid() && f in chains && head == Head(chains[f])
      modifies this`fats, this`hint, this`chains
      ensures Geometry() && Inv(Table(), owner, chains) && SameUpper(old(fats), fats) && ok
      ensures chains == old(chains)[f := []] && Heads(chains) == first[f := 0]
      ensures hint == if old(hint) == [] then [] else [head]
      ensures |Table()| == |old(Table())| && forall x :: x in old(chains)[f] ==> x < |Table()| && Table()[x] == FREE
      ensures forall x: nat :: x < |Table()| && x !in old(chains)[f] ==> Table()[x] == old(Table())[x]
    {
      hide Lows;
      hide ChainOk;
      hide Agree;
      UpperSame(fats);
      hide SameUpper;
      hide Heads;
      var total := |fats[0]| - FIRST_DATA;
      LengthBound(Table(), owner, chains, f);
      FreeingStart(Table(), owner, chains, f);
      HeadsSet(chains, f, []);
      HeadLow(Table(), owner, chains, f);
      hide Inv;
      hide Freeing;
      ghost var c := chains[f];
      var x := head;
      var walked := 0;
      while FIRST_DATA <= x < EOC
        invariant Geometry() && SameUpper(old(fats), fats) && |Table()| == |old(Table())| && 0 <= walked <= |c|
        invariant chains == old(chains) && hint == old(hint) && Freeing(Table(), owner, chains, f, walked)
        invariant if walked < |c| then x == c[walked] && FIRST_DATA <= x < EOC else x < FIRST_DATA || x >= EOC
        invariant forall y: nat :: y < |Table()| && y !in c ==> Table()[y] == old(Table())[y]
        decreases |c| - walked
      {
        if walked >= total {
          return false;
        }
        FreeingNext(Table(), owner, chains, f, walked);
        ghost var before := fats;
        var next := GetNext(x);
        SetNext(x, FREE);
        SameUpperTrans(old(fats), before, fats);
        walked := walked + 1;
        x := next;
      }
      FreeingDone(Table(), owner, chains, f);
      FreeingAll(Table(), owner, chains, f);
      if hint != [] {
        hint := [head];
      }
      chains := chains[f := []];
      ok := true;
    }

    /** Opening for truncation: a file with bytes comes to own nothing, an empty one keeps its clusters. */
    method Truncate(f: File, size: nat) returns (ok: bool, left: nat)
      requires Valid() && f in first
      modifies this`fats, this`hint, this`first, this`chains
      ensures Valid() && ok && left == 0
      ensures size == 0 ==> fats == old(fats) && chains == old(chains)
      ensures size > 0 ==> chains == old(chains)[f := []]
    {
      hide Lows;
      hide Agree;
      hide Inv;
      hide SameUpper;
      hide Heads;
      ok, left := true, size;
      if size > 0 {
        ok := Disown(f);
        left := 0;
      }
    }

    /** Frees all of a file's clusters, as truncation and removal do; every other chain is as it was. */
    method Disown(f: File) returns (ok: bool)
      requires Valid() && f in first
      modifies this`fats, this`hint, this`first, this`chains
      ensures Valid() && SameUpper(old(fats), fats) && ok && chains == old(chains)[f := []]
      ensures |Table()| == |old(Table())| && forall x :: x in old(chains)[f] ==> x < |Table()| && Table()[x] == FREE
      ensures forall x: nat :: x < |Table()| && x !in old(chains)[f] ==> Table()[x] == old(Table())[x]
    {
      hide Lows;
      hide Agree;
      hide Inv;
      UpperSame(fats);
      hide SameUpper;
      HeadsAt(chains, f);
      hide Heads;
      if first[f] != 0 {
        ok := FreeChain(first[f], f);
        if !ok {
          return;
        }
        first := first[f := 0];
      } else {
        EmptyHead(Table(), owner, chains, f);
      }
      assert chains == old(chains)[f := []];
      ok := true;
    }

    /** The disk sector of a block of a file, or failure past its end. */
    method GetBlock(f: File, block: nat) returns (ok: bool, sector: nat)
      requires Valid() && f in first
      ensures f in chains && ok == (block % U32 / perCluster < |chains[f]|)
      ensures ok ==> chains[f][block % U32 / perCluster] >= FIRST_DATA &&
                     sector == BlockSector(dataStart, perCluster, chains[f], block % U32)
      ensures ok ==> |Table()| >= 2 && dataStart <= sector < dataStart + perCluster * (|Table()| - 2)
    {
      hide Lows;
      hide ChainOk;
      hide Agree;
      hide SectorOf;
      HeadsAt(chains, f);
      hide Heads;
      var x := first[f];
      if x < FIRST_DATA {
        EmptyHead(Table(), owner, chains, f);
        return false, 0;
      }
      var b := block % U32;
      var target := b / perCluster;
      NonEmpty(Table(), owner, chains, f);
      var i := 0;
      while i < target
        invariant 0 <= i <= target && i < |chains[f]| && x == chains[f][i]
      {
        StepOk(Table(), owner, chains, f, i);
        x := GetNext(x);
        if x >= EOC {
          return false, 0;
        }
        i := i + 1;
      }
      StepOk(Table(), owner, chains, f, i);
      SectorInside(dataStart, perCluster, x, b % perCluster, |Table()|);
      return true, SectorOf(dataStart, perCluster, x, b % perCluster);
    }
  }

  lemma UpperSame(a: seq<seq<nat>>)
    ensures SameUpper(a, a)
  {
  }

  lemma Fits(fat: seq<nat>, x: Cluster)
    requires x < |fat| <= BAD
    ensures x % LOW == x
  {
  }

  lemma HeadsAt(chains: Chains, f: File)
    ensures f in Heads(chains) <==> f in chains
    ensures f in chains ==> Heads(chains)[f] == Head(chains[f])
  {
  }

  lemma HeadsSet(chains: Chains, f: File, c: seq<Cluster>)
    ensures Heads(chains[f := c]) == Heads(chains)[f := Head(c)]
  {
  }

  lemma HeadsGrow(chains: Chains, f: File, x: Cluster)
    requires f in chains && chains[f] != []
    ensures Heads(chains[f := chains[f] + [x]]) == Heads(chains)
  {
  }

  lemma HeadLow(fat: seq<nat>, owner: seq<Owner>, chains: Chains, f: File)
    requires Inv(fat, owner, chains) && f in chains
    ensures if chains[f] == [] then Head(chains[f]) < FIRST_DATA else FIRST_DATA <= Head(chains[f]) < EOC
  {
    if chains[f] != [] {
      StepOk(fat, owner, chains, f, 0);
    }
  }

  lemma EmptyHead(fat: seq<nat>, owner: seq<Owner>, chains: Chains, f: File)
    requires Inv(fat, owner, chains) && f in chains && Head(chains[f]) < FIRST_DATA
    ensures chains[f] == []
  {
    HeadLow(fat, owner, chains, f);
  }

  lemma NonEmpty(fat: seq<nat>, owner: seq<Owner>, chains: Chains, f: File)
    requires Inv(fat, owner, chains) && f in chains && Head(chains[f]) != 0
    ensures chains[f] != [] && Head(chains[f]) == chains[f][0]
  {
  }

  lemma ClusterSize(perCluster: nat)
    requires perCluster > 0
    ensures perCluster * SECTOR_SIZE > 0
  {
  }

  lemma FreeingAll(fat: seq<nat>, owner: seq<Owner>, chains: Chains, f: File)
    requires f in chains && Freeing(fat, owner, chains, f, |chains[f]|)
    ensures forall x :: x in chains[f] ==> x < |fat| && fat[x] == FREE
  {
  }
}
