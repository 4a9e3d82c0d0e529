/** The file allocation table as linked chains of clusters, and what each kind of update does to them. */
module FatTable {
  import opened Arithmetic
  import opened Collections

  const FREE := 0
  const EOC := 0x0FFF_FFF8
  const BAD := 0x0FFF_FFF7
  const FIRST_DATA := 2
  const LOW := 0x1000_0000

  type File = nat
  type Cluster = nat

  /** Which file a cluster belongs to, and at what position. */
  datatype Owner = Own(file: File, at: nat) | Nobody

  type Chains = map<File, seq<Cluster>>

  /** The 28 bits of an entry that are the cluster number. */
  function Low(e: nat): nat { e % LOW }

  /** An entry with its cluster number replaced and its four upper bits kept. */
  function WithLow(e: nat, next: nat): (r: nat)
    ensures Low(r) == next % LOW && r / LOW == e / LOW
  {
    e / LOW * LOW + next % LOW
  }

  function Lows(fat: seq<nat>): (r: seq<nat>)
    ensures |r| == |fat| && forall i | 0 <= i < |fat| :: r[i] == Low(fat[i])
  {
    seq(|fat|, i requires 0 <= i < |fat| => Low(fat[i]))
  }

  /** Position `i` of a chain: a data cluster, owned by this file at this place, linked to the next or ending. */
  ghost predicate LinkOk(fat: seq<nat>, owner: seq<Owner>, f: File, c: seq<Cluster>, i: nat)
    requires i < |c| && |owner| == |fat|
  {
    FIRST_DATA <= c[i] < |fat| && owner[c[i]] == Own(f, i) &&
    if i + 1 < |c| then fat[c[i]] == c[i + 1] else fat[c[i]] >= EOC
  }

  ghost predicate ChainOk(fat: seq<nat>, owner: seq<Owner>, f: File, c: seq<Cluster>, from: nat) {
    |owner| == |fat| && forall i: nat | from <= i < |c| :: LinkOk(fat, owner, f, c, i)
  }

  predicate Sized(fat: seq<nat>) {
    FIRST_DATA <= |fat| <= BAD && fat[0] != FREE && fat[1] != FREE
  }

  /** Every file's chain is in the table; ownership keeps them acyclic and apart. */
  ghost predicate Inv(fat: seq<nat>, owner: seq<Owner>, chains: Chains) {
    Sized(fat) && |owner| == |fat| && forall f <- chains :: ChainOk(fat, owner, f, chains[f], 0)
  }

  /** No cluster appears twice, in one chain or in two. */
  lemma Apart(fat: seq<nat>, owner: seq<Owner>, chains: Chains, f: File, i: nat, g: File, j: nat)
    requires Inv(fat, owner, chains) && f in chains && g in chains && i < |chains[f]| && j < |chains[g]|
    requires chains[f][i] == chains[g][j]
    ensures f == g && i == j
  {
    assert ChainOk(fat, owner, f, chains[f], 0) && ChainOk(fat, owner, g, chains[g], 0);
    assert LinkOk(fat, owner, f, chains[f], i) && LinkOk(fat, owner, g, chains[g], j);
  }

  /** An entry outside the chain may be changed. */
  lemma ChainElse(fat: seq<nat>, owner: seq<Owner>, f: File, c: seq<Cluster>, from: nat, x: Cluster, e: nat, o: Owner)
    requires ChainOk(fat, owner, f, c, from) && x < |fat| && forall i: nat | from <= i < |c| :: c[i] != x
    ensures ChainOk(fat[x := e], owner[x := o], f, c, from) && ChainOk(fat[x := e], owner, f, c, from)
  {
    var fat', owner' := fat[x := e], owner[x := o];
    forall i: nat | from <= i < |c| ensures LinkOk(fat', owner', f, c, i) && LinkOk(fat', owner, f, c, i) {
      assert LinkOk(fat, owner, f, c, i);
    }
  }

  lemma FreeUnused(fat: seq<nat>, owner: seq<Owner>, f: File, c: seq<Cluster>, x: Cluster)
    requires ChainOk(fat, owner, f, c, 0) && x < |fat| && fat[x] == FREE
    ensures forall i: nat | i < |c| :: c[i] != x
  {
    forall i: nat | i < |c| ensures c[i] != x {
      assert LinkOk(fat, owner, f, c, i);
      if i + 1 < |c| {
        assert LinkOk(fat, owner, f, c, i + 1);
      }
    }
  }

  /** Marking a free cluster as a chain end touches no file. */
  lemma Claimed(fat: seq<nat>, owner: seq<Owner>, chains: Chains, x: Cluster)
    requires Inv(fat, owner, chains) && x < |fat| && fat[x] == FREE
    ensures x >= FIRST_DATA && Inv(fat[x := EOC], owner, chains)
    ensures forall f <- chains, i: nat | i < |chains[f]| :: chains[f][i] != x
  {
    hide ChainOk;
    forall f <- chains
      ensures ChainOk(fat[x := EOC], owner, f, chains[f], 0) && forall i: nat | i < |chains[f]| :: chains[f][i] != x
    {
      FreeUnused(fat, owner, f, chains[f], x);
      ChainElse(fat, owner, f, chains[f], 0, x, EOC, Nobody);
    }
  }

  /** Linking a claimed cluster behind the last one extends that file and no other. */
  lemma Appended(fat: seq<nat>, owner: seq<Owner>, chains: Chains, f: File, x: Cluster)
    requires Inv(fat, owner, chains) && f in chains && FIRST_DATA <= x < |fat| && fat[x] == EOC
    requires forall g <- chains, i: nat | i < |chains[g]| :: chains[g][i] != x
    ensures chains[f] == [] ==> Inv(fat, owner[x := Own(f, 0)], chains[f := [x]])
    ensures chains[f] != [] ==>
              var c := chains[f]; var last := c[|c| - 1];
              last < |fat| && Inv(fat[last := x], owner[x := Own(f, |c|)], chains[f := c + [x]])
  {
    hide ChainOk;
    var c := chains[f];
    var owner' := owner[x := Own(f, |c|)];
    if c == [] {
      forall g <- chains | g != f ensures ChainOk(fat, owner', g, chains[g], 0) {
        ChainElse(fat, owner, g, chains[g], 0, x, EOC, Own(f, 0));
        assert fat[x := EOC] == fat;
      }
      SingleOk(fat, owner', f, x);
    } else {
      var last := c[|c| - 1];
      LastOk(fat, owner, f, c);
      forall g <- chains | g != f ensures ChainOk(fat[last := x], owner', g, chains[g], 0) {
        forall i: nat | i < |chains[g]| ensures chains[g][i] != last {
          if chains[g][i] == last {
            Apart(fat, owner, chains, g, i, f, |c| - 1);
            assert false;
          }
        }
        ChainElse(fat, owner, g, chains[g], 0, last, x, Nobody);
        ChainElse(fat[last := x], owner, g, chains[g], 0, x, EOC, Own(f, |c|));
        assert fat[last := x][x := EOC] == fat[last := x];
      }
      ExtendOk(fat, owner, f, c, x);
    }
  }

  lemma SingleOk(fat: seq<nat>, owner: seq<Owner>, f: File, x: Cluster)
    requires |owner| == |fat| && FIRST_DATA <= x < |fat| && fat[x] >= EOC && owner[x] == Own(f, 0)
    ensures ChainOk(fat, owner, f, [x], 0)
  {
  }

  lemma LastOk(fat: seq<nat>, owner: seq<Owner>, f: File, c: seq<Cluster>)
    requires ChainOk(fat, owner, f, c, 0) && c != []
    ensures FIRST_DATA <= c[|c| - 1] < |fat| && owner[c[|c| - 1]] == Own(f, |c| - 1) && fat[c[|c| - 1]] >= EOC
  {
    assert LinkOk(fat, owner, f, c, |c| - 1);
  }

  lemma ExtendOk(fat: seq<nat>, owner: seq<Owner>, f: File, c: seq<Cluster>, x: Cluster)
    requires ChainOk(fat, owner, f, c, 0) && c != [] && FIRST_DATA <= x < |fat| && fat[x] >= EOC
    requires forall i: nat | i < |c| :: c[i] != x
    ensures c[|c| - 1] < |fat| && ChainOk(fat[c[|c| - 1] := x], owner[x := Own(f, |c|)], f, c + [x], 0)
  {
    LastOk(fat, owner, f, c);
    var last := c[|c| - 1];
    var fat', owner', c' := fat[last := x], owner[x := Own(f, |c|)], c + [x];
    forall i: nat | i < |c'| ensures LinkOk(fat', owner', f, c', i) {
      if i < |c| {
        assert LinkOk(fat, owner, f, c, i);
      }
    }
  }

  /** The state half-way through freeing the chain of `f`: its first `i` clusters are free, the rest still linked. */
  ghost predicate Freeing(fat: seq<nat>, owner: seq<Owner>, chains: Chains, f: File, i: nat) {
    f in chains && i <= |chains[f]| && Inv(fat, owner, chains - {f}) && ChainOk(fat, owner, f, chains[f], i) &&
    (forall j: nat | j < |chains[f]| :: chains[f][j] < |fat| && owner[chains[f][j]] == Own(f, j)) &&
    forall j: nat | j < i :: fat[chains[f][j]] == FREE
  }

  lemma FreeingStart(fat: seq<nat>, owner: seq<Owner>, chains: Chains, f: File)
    requires Inv(fat, owner, chains) && f in chains
    ensures Freeing(fat, owner, chains, f, 0)
  {
    forall g <- chains - {f} ensures ChainOk(fat, owner, g, chains[g], 0) {
    }
    forall j: nat | j < |chains[f]| ensures chains[f][j] < |fat| && owner[chains[f][j]] == Own(f, j) {
      assert ChainOk(fat, owner, f, chains[f], 0);
      assert LinkOk(fat, owner, f, chains[f], j);
    }
  }

  lemma FreeingNext(fat: seq<nat>, owner: seq<Owner>, chains: Chains, f: File, i: nat)
    requires Freeing(fat, owner, chains, f, i) && i < |chains[f]|
    ensures var x := chains[f][i];
            FIRST_DATA <= x < |fat| && x < EOC && Freeing(fat[x := FREE], owner, chains, f, i + 1) &&
            if i + 1 < |chains[f]| then fat[x] == chains[f][i + 1] && chains[f][i + 1] < EOC &&
              chains[f][i + 1] >= FIRST_DATA
            else fat[x] >= EOC
  {
    var c := chains[f];
    var x := c[i];
    assert LinkOk(fat, owner, f, c, i);
    if i + 1 < |c| {
      assert LinkOk(fat, owner, f, c, i + 1);
    }
    var fat' := fat[x := FREE];
    forall g <- chains - {f} ensures ChainOk(fat', owner, g, chains[g], 0) {
      NotIn(fat, owner, g, chains[g], x, f, i);
      ChainElse(fat, owner, g, chains[g], 0, x, FREE, Nobody);
    }
    forall j: nat | i + 1 <= j < |c| ensures LinkOk(fat', owner, f, c, j) {
      assert LinkOk(fat, owner, f, c, j);
    }
  }

  lemma NotIn(fat: seq<nat>, owner: seq<Owner>, g: File, c: seq<Cluster>, x: Cluster, f: File, i: nat)
    requires ChainOk(fat, owner, g, c, 0) && f != g && x < |fat| && owner[x] == Own(f, i)
    ensures forall j: nat | j < |c| :: c[j] != x
  {
    forall j: nat | j < |c| ensures c[j] != x {
      assert LinkOk(fat, owner, g, c, j);
    }
  }

  lemma FreeingDone(fat: seq<nat>, owner: seq<Owner>, chains: Chains, f: File)
    requires Freeing(fat, owner, chains, f, if f in chains then |chains[f]| else 0)
    ensures Inv(fat, owner, chains[f := []])
  {
    var chains' := chains[f := []];
    forall g <- chains' ensures ChainOk(fat, owner, g, chains'[g], 0) {
      assert g != f ==> g in chains - {f};
    }
  }

  /** A chain is no longer than there are data clusters, so bounded walks reach its end. */
  lemma LengthBound(fat: seq<nat>, owner: seq<Owner>, chains: Chains, f: File)
    requires Inv(fat, owner, chains) && f in chains
    ensures |chains[f]| <= |fat| - FIRST_DATA
  {
    var c := chains[f];
    assert ChainOk(fat, owner, f, c, 0);
    forall i: nat | i < |c| ensures FIRST_DATA <= c[i] < |fat| {
      assert LinkOk(fat, owner, f, c, i);
    }
    forall i, j | 0 <= i < j < |c| ensures c[i] != c[j] {
      assert LinkOk(fat, owner, f, c, i) && LinkOk(fat, owner, f, c, j);
    }
    hide Inv;
    hide ChainOk;
    var all := c + [0, 1];
    assert NoDup(all);
    ElemsSize(all);
    SubsetSize(Elems(all), Upto(|fat|));
  }

  /** Stepping along a chain. */
  lemma StepOk(fat: seq<nat>, owner: seq<Owner>, chains: Chains, f: File, i: nat)
    requires Inv(fat, owner, chains) && f in chains && i < |chains[f]|
    ensures var c := chains[f];
            FIRST_DATA <= c[i] < |fat| && c[i] < EOC &&
            if i + 1 < |c| then fat[c[i]] == c[i + 1] && c[i + 1] < EOC else fat[c[i]] >= EOC
  {
    var c := chains[f];
    assert ChainOk(fat, owner, f, c, 0);
    assert LinkOk(fat, owner, f, c, i);
    if i + 1 < |c| {
      assert LinkOk(fat, owner, f, c, i + 1);
    }
  }

  // ----- Blocks of files on the disk -----

  /** The sector of a position in a cluster. */
  function SectorOf(dataStart: nat, perCluster: nat, x: Cluster, r: nat): nat
    requires x >= FIRST_DATA
  {
    dataStart + perCluster * (x - FIRST_DATA) + r
  }

  /** Cluster 2 begins the data area, sectors of a cluster are consecutive, and clusters follow one another. */
  lemma ClustersAdjoin(dataStart: nat, n: nat, x: Cluster, r: nat)
    requires n > 0 && x >= 2
    ensures SectorOf(dataStart, n, 2, 0) == dataStart
    ensures SectorOf(dataStart, n, x, r + 1) == SectorOf(dataStart, n, x, r) + 1
    ensures SectorOf(dataStart, n, x + 1, 0) == SectorOf(dataStart, n, x, n - 1) + 1
  {
    var k: nat := x - 2;
    assert n * (k + 1) == n * k + n;
  }

  /** The data area holds the sectors of every cluster below `limit`. */
  lemma SectorInside(dataStart: nat, n: nat, x: Cluster, r: nat, limit: nat)
    requires 2 <= x < limit && r < n
    ensures dataStart <= SectorOf(dataStart, n, x, r) < dataStart + n * (limit - 2)
  {
    Spread(n, x - 2, limit - 2);
  }

  lemma SectorParts(dataStart: nat, n: nat, x: Cluster, r: nat, y: Cluster, s: nat)
    requires x >= FIRST_DATA && y >= FIRST_DATA && r < n && s < n &&
             SectorOf(dataStart, n, x, r) == SectorOf(dataStart, n, y, s)
    ensures x == y && r == s
  {
    if x < y {
      Spread(n, x - FIRST_DATA, y - FIRST_DATA);
      assert false;
    } else if y < x {
      Spread(n, y - FIRST_DATA, x - FIRST_DATA);
      assert false;
    }
  }

  lemma Spread(n: nat, a: nat, b: nat)
    requires a < b
    ensures n * a + n <= n * b
  {
    var k: nat := b - a - 1;
    assert n * b == n * a + n + n * k;
  }

  /** The sector of block `b` of a file. */
  function BlockSector(dataStart: nat, perCluster: nat, c: seq<Cluster>, b: nat): nat
    requires perCluster > 0 && b / perCluster < |c| && c[b / perCluster] >= FIRST_DATA
  {
    SectorOf(dataStart, perCluster, c[b / perCluster], b % perCluster)
  }

  /** Blocks come cluster by cluster: each cluster's first at its first sector, the rest one after the other. */
  lemma BlocksFollow(dataStart: nat, n: nat, c: seq<Cluster>, b: nat)
    requires n > 0 && b / n < |c| && c[b / n] >= 2
    ensures b % n == 0 ==> BlockSector(dataStart, n, c, b) == SectorOf(dataStart, n, c[b / n], 0)
    ensures b % n + 1 < n ==>
            (b + 1) / n == b / n && BlockSector(dataStart, n, c, b + 1) == BlockSector(dataStart, n, c, b) + 1
  {
    if b % n + 1 < n {
      Division(b, n);
      QuotientIs(b + 1, n, b / n, b % n + 1);
    }
  }

  /** No two blocks of any two files share a sector. */
  lemma BlocksApart(fat: seq<nat>, owner: seq<Owner>, chains: Chains, dataStart: nat, n: nat, f: File, a: nat, g: File,
                    b: nat)
    requires Inv(fat, owner, chains) && n > 0 && f in chains && g in chains && a / n < |chains[f]| &&
             b / n < |chains[g]|
    requires chains[f][a / n] >= FIRST_DATA && chains[g][b / n] >= FIRST_DATA
    requires BlockSector(dataStart, n, chains[f], a) == BlockSector(dataStart, n, chains[g], b)
    ensures f == g && a == b
  {
    hide Inv;
    hide SectorOf;
    SectorParts(dataStart, n, chains[f][a / n], a % n, chains[g][b / n], b % n);
    Apart(fat, owner, chains, f, a / n, g, b / n);
    Division(a, n);
    Division(b, n);
  }
}
