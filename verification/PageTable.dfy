/**
  * The four-level translation table of one user address space, as 512-word tables linked by table
  * descriptors.  `home` records, for each table, the indices that lead to it from the root.
  */
module PageTable {
  import opened Collections
  import LeafTable
  import opened PteBits

  /** The physical address of a table. */
  datatype Ref = Ref(addr: bv64)

  type Path = seq<nat>
  type Tables = map<Ref, seq<bv64>>
  type Homes = map<Ref, Path>

  const NULL := Ref(0)
  const LEVELS := 4
  const PAGES := 0x10_0000_0000

  datatype Leaf = Leaf(frame: bv64, prot: bv32)

  function Blank(): seq<bv64> { seq(512, _ => 0) }

  function Target(word: bv64): Ref { Ref(Address(word)) }

  function Word(ts: Tables, r: Ref, i: nat): bv64 {
    if r in ts && i < |ts[r]| then ts[r][i] else 0
  }

  predicate Sized(ts: Tables) {
    forall r <- ts :: |ts[r]| == 512
  }

  function Unit(level: nat): nat
    requires level < LEVELS
  {
    if level == 3 then 1 else if level == 2 then 512 else if level == 1 then 262144 else 134217728
  }

  /** The index of page `v` in its table of the given level. */
  function Index(v: nat, level: nat): (i: nat)
    requires level < LEVELS
    ensures i < 512
  {
    v / Unit(level) % 512
  }

  function Prefix(v: nat, level: nat): (p: Path)
    requires level <= LEVELS
    ensures |p| == level
  {
    if level == 0 then [] else Prefix(v, level - 1) + [Index(v, level - 1)]
  }

  /** Different pages have different paths. */
  lemma PathsDiffer(v: nat, w: nat)
    requires v < PAGES && w < PAGES && Prefix(v, 4) == Prefix(w, 4)
    ensures v == w
  {
    Last(v, 3); Last(w, 3);
    Last(v, 2); Last(w, 2);
    Last(v, 1); Last(w, 1);
    Last(v, 0); Last(w, 0);
    Digits(v);
    Digits(w);
  }

  lemma Last(v: nat, level: nat)
    requires level < LEVELS
    ensures Prefix(v, level + 1)[level] == Index(v, level) && Prefix(v, level + 1)[..level] == Prefix(v, level)
  {
  }

  lemma Digits(v: nat)
    requires v < PAGES
    ensures v == Index(v, 0) * 134217728 + Index(v, 1) * 262144 + Index(v, 2) * 512 + Index(v, 3)
  {
    var a, b, c := v / 512, v / 262144, v / 134217728;
    assert a / 512 == b && b / 512 == c && c < 512;
  }

  /** The table that a path leads to; NULL when the way is not there. */
  function Walk(ts: Tables, root: Ref, path: Path): Ref {
    if path == [] then root
    else
      var p := Walk(ts, root, path[..|path| - 1]);
      var word := Word(ts, p, path[|path| - 1]);
      if IsTable(word) then Target(word) else NULL
  }

  /** A table descriptor above the last level leads to the table at that index. */
  predicate LinkOk(ts: Tables, home: Homes, r: Ref, i: nat)
    requires r in home
  {
    var word := Word(ts, r, i);
    |home[r]| < 3 && IsTable(word) ==> Target(word) in ts && Target(word) in home && home[Target(word)] == home[r] + [i]
  }

  ghost predicate Linked(ts: Tables, home: Homes) {
    (forall r <- ts :: r in home) && forall r, i: nat | r in ts :: LinkOk(ts, home, r, i)
  }

  ghost predicate Rooted(ts: Tables, root: Ref, home: Homes) {
    forall r <- ts :: r in home && |home[r]| <= 3 && Walk(ts, root, home[r]) == r
  }

  /** The tables form a tree of depth four whose links are the table descriptors. */
  ghost predicate Tree(ts: Tables, root: Ref, home: Homes) {
    NULL !in ts && Sized(ts) &&
    (if root == NULL then ts == map[] else root in ts && root in home && home[root] == []) &&
    Linked(ts, home) && Rooted(ts, root, home)
  }

  function Lookup(ts: Tables, root: Ref, v: nat): (r: seq<Leaf>)
    ensures |r| <= 1
  {
    var t := Walk(ts, root, Prefix(v, 3));
    var word := Word(ts, t, Index(v, 3));
    if IsValid(word) then [Leaf(Address(word), Protection(word))] else []
  }

  /** What the tables mean: the map from virtual page to frame and protection. */
  ghost function Mapping(ts: Tables, root: Ref): imap<nat, Leaf> {
    imap v: nat | v < PAGES && Lookup(ts, root, v) != [] :: Lookup(ts, root, v)[0]
  }

  lemma NoDescriptor()
    ensures !IsTable(0) && !IsBlock(0) && !IsValid(0)
  {
  }

  lemma Shorter(a: Path, b: Path, j: nat)
    ensures a <= b ==> a <= b + [j]
  {
  }

  lemma {:induction false} WalkHome(ts: Tables, root: Ref, home: Homes, path: Path)
    requires Tree(ts, root, home) && |path| <= 3 && Walk(ts, root, path) != NULL
    ensures Walk(ts, root, path) in ts && Walk(ts, root, path) in home && home[Walk(ts, root, path)] == path
  {
    hide Target;
    hide IsTable;
    hide IsValid;
    hide Protection;
    hide Index;
    hide Rooted;
    if path != [] {
      var q := path[..|path| - 1];
      assert path == q + [path[|path| - 1]];
      NoDescriptor();
      WalkHome(ts, root, home, q);
      assert LinkOk(ts, home, Walk(ts, root, q), path[|path| - 1]);
    }
  }

  /** Only the entry `i` of table `r`, or tables below it, differ. */
  ghost predicate Changed(ts: Tables, home: Homes, ts': Tables, r: Ref, i: nat)
    requires r in home
  {
    forall x <- ts, j: nat :: x in home && (!(home[r] + [i] <= home[x]) ==>
      x in ts' && (x != r || j != i ==> Word(ts', x, j) == Word(ts, x, j)))
  }

  lemma {:induction false} WalkKeep(ts: Tables, root: Ref, home: Homes, ts': Tables, r: Ref, i: nat, path: Path)
    requires Tree(ts, root, home) && r in home && Changed(ts, home, ts', r, i) && NULL !in ts'
    requires |path| <= 3 && !(home[r] + [i] <= path)
    ensures Walk(ts', root, path) == Walk(ts, root, path)
  {
    hide Target;
    hide IsTable;
    hide IsValid;
    hide Protection;
    hide Index;
    hide Rooted;
    hide Linked;
    if path != [] {
      var q, j := path[..|path| - 1], path[|path| - 1];
      assert path == q + [j];
      Shorter(home[r] + [i], q, j);
      WalkKeep(ts, root, home, ts', r, i, q);
      var p := Walk(ts, root, q);
      if p != NULL {
        WalkHome(ts, root, home, q);
        assert Word(ts', p, j) == Word(ts, p, j) || (p == r && j == i);
      }
    }
  }

  /** Pages that do not go through the changed entry translate as before. */
  lemma LookupKeep(ts: Tables, root: Ref, home: Homes, ts': Tables, r: Ref, i: nat, v: nat)
    requires Tree(ts, root, home) && r in home && Changed(ts, home, ts', r, i) && NULL !in ts'
    requires !(home[r] + [i] <= Prefix(v, 4))
    ensures Lookup(ts', root, v) == Lookup(ts, root, v)
  {
    hide Target;
    hide IsTable;
    hide IsValid;
    hide Protection;
    hide Index;
    hide Rooted;
    hide Linked;
    var path, j := Prefix(v, 3), Index(v, 3);
    assert Prefix(v, 4) == path + [j];
    Shorter(home[r] + [i], path, j);
    WalkKeep(ts, root, home, ts', r, i, path);
    var p := Walk(ts, root, path);
    if p != NULL {
      WalkHome(ts, root, home, path);
      assert Word(ts', p, j) == Word(ts, p, j);
    }
  }

  // ----- Growing the tree -----

  lemma {:induction false} WalkPrefix(ts: Tables, root: Ref, path: Path, n: nat)
    requires n <= |path| && NULL !in ts && Walk(ts, root, path) != NULL
    ensures Walk(ts, root, path[..n]) != NULL
  {
    hide Target;
    hide IsTable;
    NoDescriptor();
    if n < |path| {
      var q := path[..|path| - 1];
      assert q[..n] == path[..n];
      WalkPrefix(ts, root, q, n);
    } else {
      assert path[..n] == path;
    }
  }

  lemma WalkStep(ts: Tables, root: Ref, path: Path, i: nat)
    ensures Walk(ts, root, path + [i]) ==
            var word := Word(ts, Walk(ts, root, path), i); if IsTable(word) then Target(word) else NULL
  {
    assert (path + [i])[..|path|] == path;
  }

  /** Below an entry that is no table descriptor there is nothing. */
  lemma NothingBelow(ts: Tables, root: Ref, home: Homes, p: Ref, i: nat, path: Path)
    requires Tree(ts, root, home) && p in ts && p in home && !IsTable(Word(ts, p, i)) && home[p] + [i] <= path
    ensures Walk(ts, root, path) == NULL
  {
    hide Target;
    hide IsTable;
    hide Linked;
    WalkStep(ts, root, home[p], i);
    var n := |home[p]| + 1;
    assert path[..n] == home[p] + [i];
    if Walk(ts, root, path) != NULL {
      WalkPrefix(ts, root, path, n);
      assert false;
    }
  }

  /** Table frames are page-aligned and within the physical address range. */
  predicate Aligned(n: Ref) { Address(n.addr) == n.addr }

  function WithTable(ts: Tables, p: Ref, i: nat, n: Ref): Tables
    requires p in ts && i < |ts[p]|
  {
    ts[p := ts[p][i := TableWord(n.addr)]][n := Blank()]
  }

  lemma AddedWords(ts: Tables, p: Ref, i: nat, n: Ref)
    requires p in ts && i < |ts[p]| && n !in ts && Aligned(n)
    ensures forall j: nat :: Word(WithTable(ts, p, i, n), n, j) == 0
    ensures forall x, j: nat | x in ts && (x != p || j != i) :: Word(WithTable(ts, p, i, n), x, j) == Word(ts, x, j)
    ensures IsTable(Word(WithTable(ts, p, i, n), p, i)) && Target(Word(WithTable(ts, p, i, n), p, i)) == n
  {
    hide Address;
    hide IsTable;
    hide TableWord;
    TableRoundTrip(n.addr);
    var ts' := WithTable(ts, p, i, n);
    assert n != p;
    assert ts'[p] == ts[p][i := TableWord(n.addr)];
    assert ts'[n] == Blank();
    forall x, j: nat | x in ts && (x != p || j != i) ensures Word(ts', x, j) == Word(ts, x, j) {
      assert x != n;
    }
  }

  /** What a new table needs: a free aligned frame, and a slot above the last level that is not in use. */
  predicate CanAdd(ts: Tables, root: Ref, home: Homes, p: Ref, i: nat, n: Ref) {
    p in ts && p in home && |home[p]| < 3 && i < 512 && Sized(ts) && !IsTable(Word(ts, p, i)) &&
    n != NULL && n !in ts && Aligned(n)
  }

  lemma AddedWalks(ts: Tables, root: Ref, home: Homes, p: Ref, i: nat, n: Ref, path: Path)
    requires Tree(ts, root, home) && CanAdd(ts, root, home, p, i, n) && |path| <= 3
    ensures Walk(WithTable(ts, p, i, n), root, path) ==
            if path == home[p] + [i] then n else Walk(ts, root, path)
  {
    hide Rooted;
    hide Linked;
    hide Target;
    hide IsTable;
    hide TableWord;
    var ts' := WithTable(ts, p, i, n);
    AddedWords(ts, p, i, n);
    hide WithTable;
    hide Word;
    if !(home[p] + [i] <= path) {
      AddedKeep(ts, root, home, p, i, n);
      WalkKeep(ts, root, home, ts', p, i, path);
    } else if path == home[p] + [i] {
      RootedAt(ts, root, home, p);
      AddedKeep(ts, root, home, p, i, n);
      WalkKeep(ts, root, home, ts', p, i, home[p]);
      WalkStep(ts', root, home[p], i);
    } else {
      NothingBelow(ts, root, home, p, i, path);
      AddedBelow(ts, root, home, p, i, n, path);
    }
  }

  lemma RootedAt(ts: Tables, root: Ref, home: Homes, r: Ref)
    requires Tree(ts, root, home) && r in ts
    ensures r in home && |home[r]| <= 3 && Walk(ts, root, home[r]) == r && r != NULL && |ts[r]| == 512
  {
  }

  lemma AddedKeep(ts: Tables, root: Ref, home: Homes, p: Ref, i: nat, n: Ref)
    requires Tree(ts, root, home) && CanAdd(ts, root, home, p, i, n)
    ensures Changed(ts, home, WithTable(ts, p, i, n), p, i) && NULL !in WithTable(ts, p, i, n)
  {
    hide Rooted;
    hide Target;
    hide IsTable;
    hide TableWord;
    AddedWords(ts, p, i, n);
  }

  lemma {:induction false} AddedBelow(ts: Tables, root: Ref, home: Homes, p: Ref, i: nat, n: Ref, path: Path)
    requires Tree(ts, root, home) && CanAdd(ts, root, home, p, i, n) && |path| <= 3
    requires home[p] + [i] <= path && path != home[p] + [i]
    ensures Walk(WithTable(ts, p, i, n), root, path) == NULL
  {
    hide Rooted;
    hide Linked;
    hide Target;
    hide IsTable;
    var ts' := WithTable(ts, p, i, n);
    var q, j := path[..|path| - 1], path[|path| - 1];
    assert path == q + [j];
    NoDescriptor();
    AddedKeep(ts, root, home, p, i, n);
    if q == home[p] + [i] {
      AddedWords(ts, p, i, n);
      RootedAt(ts, root, home, p);
      WalkKeep(ts, root, home, ts', p, i, home[p]);
      WalkStep(ts', root, home[p], i);
    } else {
      AddedBelow(ts, root, home, p, i, n, q);
    }
    WalkStep(ts', root, q, j);
  }

  /** A new table keeps the tree and every translation. */
  lemma AddTable(ts: Tables, root: Ref, home: Homes, p: Ref, i: nat, n: Ref)
    requires Tree(ts, root, home) && CanAdd(ts, root, home, p, i, n)
    ensures Tree(WithTable(ts, p, i, n), root, home[n := home[p] + [i]])
    ensures Mapping(WithTable(ts, p, i, n), root) == Mapping(ts, root)
    ensures Walk(WithTable(ts, p, i, n), root, home[p] + [i]) == n
  {
    hide Lookup;
    hide Walk;
    hide Tree;
    hide WithTable;
    AddTree(ts, root, home, p, i, n);
    RootedAt(ts, root, home, p);
    AddedWalks(ts, root, home, p, i, n, home[p] + [i]);
    forall v: nat ensures Lookup(WithTable(ts, p, i, n), root, v) == Lookup(ts, root, v) {
      AddedLookup(ts, root, home, p, i, n, v);
    }
  }

  lemma AddTree(ts: Tables, root: Ref, home: Homes, p: Ref, i: nat, n: Ref)
    requires Tree(ts, root, home) && CanAdd(ts, root, home, p, i, n)
    ensures Tree(WithTable(ts, p, i, n), root, home[n := home[p] + [i]])
  {
    hide Target;
    hide IsTable;
    hide TableWord;
    hide Walk;
    var ts', home' := WithTable(ts, p, i, n), home[n := home[p] + [i]];
    AddedWords(ts, p, i, n);
    RootedAt(ts, root, home, p);
    NoDescriptor();
    forall r <- ts' ensures r in home' && |home'[r]| <= 3 && Walk(ts', root, home'[r]) == r {
      if r == n {
        AddedWalks(ts, root, home, p, i, n, home[p] + [i]);
      } else {
        RootedAt(ts, root, home, r);
        AddedWalks(ts, root, home, p, i, n, home[r]);
        AddedUnused(ts, root, home, p, i, r);
      }
    }
    forall r, j: nat | r in ts' ensures LinkOk(ts', home', r, j) {
      if r != n {
        assert LinkOk(ts, home, r, j);
      }
    }
  }

  lemma AddedUnused(ts: Tables, root: Ref, home: Homes, p: Ref, i: nat, r: Ref)
    requires Tree(ts, root, home) && p in ts && p in home && r in ts && r in home && !IsTable(Word(ts, p, i))
    ensures home[r] != home[p] + [i]
  {
    RootedAt(ts, root, home, r);
    if home[r] == home[p] + [i] {
      NothingBelow(ts, root, home, p, i, home[r]);
      assert false;
    }
  }

  lemma AddedLookup(ts: Tables, root: Ref, home: Homes, p: Ref, i: nat, n: Ref, v: nat)
    requires Tree(ts, root, home) && CanAdd(ts, root, home, p, i, n)
    ensures Lookup(WithTable(ts, p, i, n), root, v) == Lookup(ts, root, v)
  {
    hide Rooted;
    hide Linked;
    hide IsTable;
    hide Target;
    hide Index;
    var path, j := Prefix(v, 3), Index(v, 3);
    hide Prefix;
    AddedWalks(ts, root, home, p, i, n, path);
    AddedWords(ts, p, i, n);
    hide WithTable;
    NoDescriptor();
    if path == home[p] + [i] {
      NothingBelow(ts, root, home, p, i, path);
    } else if Walk(ts, root, path) != NULL {
      WalkHome(ts, root, home, path);
    }
  }

  // ----- Changing a leaf -----

  function WithLeaf(ts: Tables, t: Ref, i: nat, word: bv64): Tables
    requires t in ts && i < |ts[t]|
  {
    ts[t := ts[t][i := word]]
  }

  lemma LeafChanged(ts: Tables, root: Ref, home: Homes, t: Ref, i: nat, word: bv64)
    requires Tree(ts, root, home) && t in ts && i < |ts[t]|
    ensures t in home && Changed(ts, home, WithLeaf(ts, t, i, word), t, i) && NULL !in WithLeaf(ts, t, i, word)
    ensures Word(WithLeaf(ts, t, i, word), t, i) == word
    ensures forall x, j: nat | x in ts && (x != t || j != i) :: Word(WithLeaf(ts, t, i, word), x, j) == Word(ts, x, j)
  {
    hide Rooted;
    hide LinkOk;
  }

  lemma LeafTree(ts: Tables, root: Ref, home: Homes, t: Ref, i: nat, word: bv64)
    requires Tree(ts, root, home) && t in ts && t in home && |home[t]| == 3 && i < |ts[t]|
    ensures Tree(WithLeaf(ts, t, i, word), root, home)
    ensures forall path: Path | |path| <= 3 :: Walk(WithLeaf(ts, t, i, word), root, path) == Walk(ts, root, path)
  {
    hide IsTable;
    hide Target;
    hide Walk;
    hide Changed;
    hide Word;
    var ts' := WithLeaf(ts, t, i, word);
    LeafChanged(ts, root, home, t, i, word);
    forall path: Path | |path| <= 3 ensures Walk(ts', root, path) == Walk(ts, root, path) {
      WalkKeep(ts, root, home, ts', t, i, path);
    }
    forall r, j: nat | r in ts' ensures LinkOk(ts', home, r, j) {
      assert LinkOk(ts, home, r, j);
    }
  }

  /** Writing a leaf word changes the translation of its own page and of no other. */
  lemma SetLeaf(ts: Tables, root: Ref, home: Homes, v: nat, word: bv64)
    requires Tree(ts, root, home) && v < PAGES && Walk(ts, root, Prefix(v, 3)) != NULL
    ensures var t := Walk(ts, root, Prefix(v, 3));
            t in ts && |ts[t]| == 512 && t in home && home[t] == Prefix(v, 3) &&
            Tree(WithLeaf(ts, t, Index(v, 3), word), root, home) &&
            Walk(WithLeaf(ts, t, Index(v, 3), word), root, Prefix(v, 3)) == t &&
            Mapping(WithLeaf(ts, t, Index(v, 3), word), root) ==
              if IsValid(word) then Mapping(ts, root)[v := Leaf(Address(word), Protection(word))]
              else Mapping(ts, root) - {v}
  {
    hide Tree;
    hide Walk;
    hide Index;
    hide Prefix;
    hide WithLeaf;
    hide Lookup;
    hide Word;
    hide Changed;
    hide Mapping;
    hide IsValid;
    hide Address;
    hide Protection;
    var t, i := Walk(ts, root, Prefix(v, 3)), Index(v, 3);
    WalkHome(ts, root, home, Prefix(v, 3));
    RootedAt(ts, root, home, t);
    var ts' := WithLeaf(ts, t, i, word);
    LeafTree(ts, root, home, t, i, word);
    LeafChanged(ts, root, home, t, i, word);
    Last(v, 3);
    LookupAt(ts', root, v, t, word);
    forall w: nat | w < PAGES && w != v ensures Lookup(ts', root, w) == Lookup(ts, root, w) {
      OtherPage(v, w);
      LookupKeep(ts, root, home, ts', t, i, w);
    }
    MappingSet(ts, ts', root, v);
  }

  lemma MappingSet(ts: Tables, ts': Tables, root: Ref, v: nat)
    requires v < PAGES && forall w: nat | w < PAGES && w != v :: Lookup(ts', root, w) == Lookup(ts, root, w)
    ensures Mapping(ts', root) ==
            if Lookup(ts', root, v) == [] then Mapping(ts, root) - {v}
              else Mapping(ts, root)[v := Lookup(ts', root, v)[0]]
  {
    hide Lookup;
  }

  lemma OtherPage(v: nat, w: nat)
    requires v < PAGES && w < PAGES && v != w
    ensures !(Prefix(v, 3) + [Index(v, 3)] <= Prefix(w, 4))
  {
    hide Index;
    Last(v, 3);
    if Prefix(v, 3) + [Index(v, 3)] <= Prefix(w, 4) {
      assert Prefix(v, 4) == Prefix(v, 3) + [Index(v, 3)];
      PathsDiffer(v, w);
      assert false;
    }
  }

  lemma LookupAt(ts: Tables, root: Ref, v: nat, t: Ref, word: bv64)
    requires Walk(ts, root, Prefix(v, 3)) == t && Word(ts, t, Index(v, 3)) == word
    ensures Lookup(ts, root, v) == if IsValid(word) then [Leaf(Address(word), Protection(word))] else []
  {
  }

  // ----- Dropping a leaf table -----

  /** The pages that one leaf table serves. */
  ghost function Served(home: Path): set<nat> { set v: nat | v < PAGES && home == Prefix(v, 3) }

  function Dropped(ts: Tables, p: Ref, i: nat, t: Ref): Tables
    requires p in ts && i < |ts[p]|
  {
    ts[p := ts[p][i := 0]] - {t}
  }

  predicate IsChild(ts: Tables, home: Homes, p: Ref, i: nat, t: Ref) {
    p in ts && p in home && |home[p]| == 2 && i < |ts[p]| && t in ts && t in home && home[t] == home[p] + [i]
  }

  lemma DroppedChanged(ts: Tables, root: Ref, home: Homes, p: Ref, i: nat, t: Ref)
    requires Tree(ts, root, home) && IsChild(ts, home, p, i, t)
    ensures Changed(ts, home, Dropped(ts, p, i, t), p, i) && NULL !in Dropped(ts, p, i, t)
    ensures Word(Dropped(ts, p, i, t), p, i) == 0 && p != t && p in Dropped(ts, p, i, t)
    ensures forall x, j: nat | x in ts && x != t && (x != p || j != i) ::
            Word(Dropped(ts, p, i, t), x, j) == Word(ts, x, j)
  {
    hide Rooted;
    hide LinkOk;
    assert p != t;
  }

  lemma DroppedTree(ts: Tables, root: Ref, home: Homes, p: Ref, i: nat, t: Ref)
    requires Tree(ts, root, home) && IsChild(ts, home, p, i, t)
    ensures Tree(Dropped(ts, p, i, t), root, home - {t})
  {
    hide IsTable;
    hide Target;
    hide Walk;
    hide Word;
    hide Changed;
    var ts', home' := Dropped(ts, p, i, t), home - {t};
    DroppedChanged(ts, root, home, p, i, t);
    NoDescriptor();
    forall r <- ts' ensures r in home' && |home'[r]| <= 3 && Walk(ts', root, home'[r]) == r {
      RootedAt(ts, root, home, r);
      RootedAt(ts, root, home, t);
      assert home[r] != home[t];
      WalkKeep(ts, root, home, ts', p, i, home[r]);
    }
    forall r, j: nat | r in ts' ensures LinkOk(ts', home', r, j) {
      assert LinkOk(ts, home, r, j);
      SameSlot(home[r], j, home[p], i);
      RootedAt(ts, root, home, r);
      RootedAt(ts, root, home, p);
    }
  }

  lemma SameSlot(a: Path, i: nat, b: Path, j: nat)
    ensures a + [i] == b + [j] ==> a == b && i == j
  {
    if a + [i] == b + [j] {
      assert (a + [i])[..|a|] == a && (b + [j])[..|b|] == b;
      assert (a + [i])[|a|] == i && (b + [j])[|b|] == j;
    }
  }

  /** Dropping a leaf table unmaps exactly the pages it serves. */
  lemma DropTable(ts: Tables, root: Ref, home: Homes, p: Ref, i: nat, t: Ref)
    requires Tree(ts, root, home) && IsChild(ts, home, p, i, t)
    ensures Tree(Dropped(ts, p, i, t), root, home - {t})
    ensures Mapping(Dropped(ts, p, i, t), root) == Mapping(ts, root) - Served(home[t])
  {
    hide Tree;
    hide Walk;
    hide Index;
    hide Prefix;
    hide Dropped;
    hide Lookup;
    hide Word;
    hide Changed;
    var ts' := Dropped(ts, p, i, t);
    DroppedTree(ts, root, home, p, i, t);
    DroppedChanged(ts, root, home, p, i, t);
    NoDescriptor();
    forall v: nat | v < PAGES
      ensures Lookup(ts', root, v) == if Prefix(v, 3) == home[t] then [] else Lookup(ts, root, v)
    {
      if Prefix(v, 3) == home[t] {
        NothingBelow(ts', root, home - {t}, p, i, Prefix(v, 3));
        LookupNone(ts', root, home - {t}, v);
      } else {
        Last(v, 3);
        LookupKeep(ts, root, home, ts', p, i, v);
      }
    }
  }

  lemma LookupNone(ts: Tables, root: Ref, home: Homes, v: nat)
    requires Tree(ts, root, home) && Walk(ts, root, Prefix(v, 3)) == NULL
    ensures Lookup(ts, root, v) == []
  {
    NoDescriptor();
  }

  // ----- Counting live entries -----

  function LiveSlots(words: seq<bv64>): set<nat> { set i: nat | i < |words| && IsValid(words[i]) }

  function Live(words: seq<bv64>): nat { |LiveSlots(words)| }

  lemma LiveSet(words: seq<bv64>, i: nat, word: bv64)
    requires i < |words| && IsValid(words[i]) != IsValid(word)
    ensures Live(words[i := word]) == if IsValid(word) then Live(words) + 1 else Live(words) - 1
  {
    hide IsValid;
    if IsValid(word) {
      assert LiveSlots(words[i := word]) == LiveSlots(words) + {i};
    } else {
      assert LiveSlots(words[i := word]) == LiveSlots(words) - {i};
    }
  }

  lemma LiveSame(words: seq<bv64>, i: nat, word: bv64)
    requires i < |words| && IsValid(words[i]) == IsValid(word)
    ensures Live(words[i := word]) == Live(words)
  {
    hide IsValid;
    assert LiveSlots(words[i := word]) == LiveSlots(words);
  }

  lemma LiveBlank()
    ensures Live(Blank()) == 0
  {
    NoDescriptor();
    assert LiveSlots(Blank()) == {};
  }

  lemma LiveBound(words: seq<bv64>, i: nat)
    requires i < |words| && IsValid(words[i])
    ensures 1 <= Live(words) <= |words|
  {
    hide IsValid;
    SubsetSize(LiveSlots(words), Upto(|words|));
    assert i in LiveSlots(words);
  }

  function CountOf(count: map<Ref, nat>, r: Ref): nat { if r in count then count[r] else 0 }

  /** The byte kept for a leaf table is its number of live entries modulo 256. */
  predicate Counted(ts: Tables, home: Homes, count: map<Ref, nat>) {
    forall r <- ts :: r in home && (|home[r]| == 3 ==> CountOf(count, r) == Live(ts[r]) % 256)
  }

  /** A served page is mapped exactly when its slot is live. */
  lemma ServedLive(ts: Tables, root: Ref, home: Homes, t: Ref, v: nat)
    requires Tree(ts, root, home) && t in ts && t in home && v in Served(home[t])
    ensures v in Mapping(ts, root) <==> Index(v, 3) in LiveSlots(ts[t])
  {
    RootedAt(ts, root, home, t);
    hide Tree;
    hide IsValid;
    hide Walk;
    hide Index;
    hide Prefix;
    hide Address;
    hide Protection;
  }

  /** The page that a given slot of a leaf table serves. */
  lemma SlotPage(v: nat, j: nat) returns (w: nat)
    requires v < PAGES && j < 512
    ensures w < PAGES && Prefix(w, 3) == Prefix(v, 3) && Index(w, 3) == j
  {
    w := v / 512 * 512 + j;
    assert w / 512 == v / 512 && w % 512 == j;
    HighIndices(v);
    HighIndices(w);
    hide Index;
    assert Prefix(w, 1) == Prefix(v, 1);
    assert Prefix(w, 2) == Prefix(v, 2);
  }

  /** The upper indices of a page depend only on the leaf table it is in. */
  lemma HighIndices(v: nat)
    ensures Index(v, 2) == v / 512 % 512 && Index(v, 1) == v / 512 / 512 % 512 && Index(v, 0) == v / 512 / 262144 % 512
    ensures Index(v, 3) == v % 512
  {
  }

  /** Dropping the table of `v` loses only `v` exactly when `v` was the one live entry. */
  lemma DropLoses(ts: Tables, root: Ref, home: Homes, t: Ref, v: nat)
    requires Tree(ts, root, home) && t in ts && t in home && v in Served(home[t]) && v in Mapping(ts, root)
    ensures Mapping(ts, root) - Served(home[t]) == Mapping(ts, root) - {v} <==> Live(ts[t]) == 1
  {
    hide Tree;
    hide Mapping;
    hide Index;
    hide Prefix;
    hide LiveSlots;
    ServedLive(ts, root, home, t, v);
    RootedAt(ts, root, home, t);
    var i, slots := Index(v, 3), LiveSlots(ts[t]);
    if Live(ts[t]) == 1 {
      forall w <- Served(home[t]) | w in Mapping(ts, root) ensures w == v {
        ServedLive(ts, root, home, t, w);
        OneSlot(slots, i, Index(w, 3));
        SameSlots(v, w);
      }
    } else {
      assert slots != {i};
      var j :| j in slots && j != i;
      SlotsBound(ts[t], j);
      var w := SlotPage(v, j);
      ServedLive(ts, root, home, t, w);
      assert w in Mapping(ts, root) - {v} && w !in Mapping(ts, root) - Served(home[t]);
    }
  }

  lemma SlotsBound(words: seq<bv64>, j: nat)
    ensures j in LiveSlots(words) ==> j < |words|
  {
  }

  lemma OneSlot(s: set<nat>, i: nat, j: nat)
    requires |s| == 1 && i in s && j in s
    ensures i == j
  {
    if i != j {
      assert {i, j} <= s;
      SubsetSize({i, j}, s);
      assert false;
    }
  }

  lemma SameSlots(v: nat, w: nat)
    requires v < PAGES && w < PAGES && Prefix(v, 3) == Prefix(w, 3) && Index(v, 3) == Index(w, 3)
    ensures v == w
  {
    hide Index;
    assert Prefix(v, 4) == Prefix(w, 4);
    PathsDiffer(v, w);
  }

  // ----- Which mappings can be made -----

  /** The tables missing on the way to page `v`, from the given level on. */
  function MissingFrom(ts: Tables, root: Ref, v: nat, level: nat): nat
    requires level <= LEVELS
    decreases LEVELS - level
  {
    if level == LEVELS then 0
    else (if Walk(ts, root, Prefix(v, level)) == NULL then 1 else 0) + MissingFrom(ts, root, v, level + 1)
  }

  /** A block descriptor stands on the way to page `v`, above the given level. */
  predicate BlockAbove(ts: Tables, root: Ref, v: nat, level: nat)
    requires level <= 3
  {
    exists l | 0 <= l < level :: IsBlock(Word(ts, Walk(ts, root, Prefix(v, l)), Index(v, l)))
  }

  /** One level down from a table that is there. */
  lemma OneDown(ts: Tables, root: Ref, v: nat, level: nat)
    requires level < 3 && NULL !in ts
    ensures var t, word := Walk(ts, root, Prefix(v, level)),
            Word(ts, Walk(ts, root, Prefix(v, level)), Index(v, level));
            Walk(ts, root, Prefix(v, level + 1)) == (if IsTable(word) then Target(word) else NULL) &&
            (t == NULL ==> Walk(ts, root, Prefix(v, level + 1)) == NULL) &&
            (BlockAbove(ts, root, v, level + 1) <==> BlockAbove(ts, root, v, level) || IsBlock(word)) &&
            (t == NULL ==> !IsBlock(word))
  {
    hide Index;
    hide Target;
    hide IsTable;
    hide IsBlock;
    NoDescriptor();
    WalkStep(ts, root, Prefix(v, level), Index(v, level));
    if BlockAbove(ts, root, v, level + 1) {
      var l :| 0 <= l < level + 1 && IsBlock(Word(ts, Walk(ts, root, Prefix(v, l)), Index(v, l)));
      assert l < level || l == level;
    }
  }

  lemma {:induction false} NoBlockMore(ts: Tables, root: Ref, v: nat, level: nat)
    requires level <= 3 && BlockAbove(ts, root, v, level)
    ensures BlockAbove(ts, root, v, 3)
  {
    var l :| 0 <= l < level && IsBlock(Word(ts, Walk(ts, root, Prefix(v, l)), Index(v, l)));
  }

  lemma EmptyRoot(n: Ref)
    requires n != NULL
    ensures Tree(map[n := Blank()], n, map[n := []]) && Mapping(map[n := Blank()], n) == Mapping(map[], NULL)
  {
    NoDescriptor();
    hide IsTable;
    hide Target;
    hide Index;
    hide Prefix;
    var ts: Tables, home: Homes := map[n := Blank()], map[n := []];
    forall v: nat ensures Lookup(ts, n, v) == [] && Lookup(map[], NULL, v) == [] {
      OnlyRoot(n, Prefix(v, 3));
    }
    forall i: nat ensures LinkOk(ts, home, n, i) {
    }
  }

  lemma OnlyRoot(n: Ref, path: Path)
    requires n != NULL && path != []
    ensures Walk(map[n := Blank()], n, path) == NULL && Walk(map[], NULL, path) == NULL
  {
    NoDescriptor();
  }

  /** What the allocator hands out: distinct aligned frames that are no tables yet. */
  predicate FreshFrames(ts: Tables, frames: seq<Ref>) {
    forall i | 0 <= i < |frames| ::
      frames[i] != NULL && frames[i] !in ts && Aligned(frames[i]) && frames[i] !in frames[..i]
  }

  lemma CountedTable(ts: Tables, home: Homes, count: map<Ref, nat>, p: Ref, i: nat, n: Ref)
    requires Counted(ts, home, count) && p in ts && p in home && |home[p]| < 3 && i < |ts[p]| && n !in ts
    ensures Counted(WithTable(ts, p, i, n), home[n := home[p] + [i]], count[n := 0])
  {
    LiveBlank();
    hide Live;
    hide Blank;
  }

  lemma CountedLeaf(ts: Tables, home: Homes, count: map<Ref, nat>, t: Ref, i: nat, word: bv64)
    requires Counted(ts, home, count) && t in ts && t in home && |home[t]| == 3 && i < |ts[t]|
    ensures !IsValid(ts[t][i]) && IsValid(word) ==>
            Counted(WithLeaf(ts, t, i, word), home, count[t := (CountOf(count, t) + 1) % 256])
    ensures IsValid(ts[t][i]) == IsValid(word) ==> Counted(WithLeaf(ts, t, i, word), home, count)
  {
    if IsValid(ts[t][i]) != IsValid(word) {
      LiveSet(ts[t], i, word);
    } else {
      LiveSame(ts[t], i, word);
    }
    hide Live;
    hide IsValid;
  }

  predicate OnlyNew(ts: Tables, ts': Tables, frames: seq<Ref>, k: nat) {
    k <= |frames| && forall r <- ts' :: r in ts || r in frames[..k]
  }

  lemma FreshNext(ts: Tables, frames: seq<Ref>, k: nat, ts': Tables)
    requires k < |frames| && FreshFrames(ts, frames) && OnlyNew(ts, ts', frames, k)
    ensures frames[k] != NULL && Aligned(frames[k]) && frames[k] !in ts'
    ensures forall ts'': Tables | ts''.Keys == ts'.Keys + {frames[k]} :: OnlyNew(ts, ts'', frames, k + 1)
  {
    hide Aligned;
    assert frames[..k + 1] == frames[..k] + [frames[k]];
  }

  /** Half-way down to page `v`: either nothing was missing so far, or the table reached is new and blank. */
  ghost predicate Progress(ts0: Tables, root0: Ref, ts: Tables, root: Ref, v: nat, level: nat, t: Ref, k: nat,
                           frames: seq<Ref>) {
    level <= 3 && NULL !in ts0 && NULL !in ts && OnlyNew(ts0, ts, frames, k) &&
    k + MissingFrom(ts0, root0, v, level + 1) == MissingFrom(ts0, root0, v, 0) && !BlockAbove(ts0, root0, v, level) &&
    t == Walk(ts, root, Prefix(v, level)) && t in ts &&
    if Walk(ts0, root0, Prefix(v, level)) != NULL then ts == ts0 && root == root0 && k == 0 else ts[t] == Blank()
  }

  lemma ProgressTable(ts0: Tables, root0: Ref, ts: Tables, root: Ref, home: Homes, v: nat, level: nat, t: Ref, k: nat,
                      frames: seq<Ref>)
    requires Progress(ts0, root0, ts, root, v, level, t, k, frames) && level < 3 && Tree(ts, root, home)
    requires IsTable(Word(ts, t, Index(v, level)))
    ensures Progress(ts0, root0, ts, root, v, level + 1, Target(Word(ts, t, Index(v, level))), k, frames)
  {
    hide IsTable;
    hide Target;
    hide Index;
    hide Linked;
    hide Rooted;
    hide BlockAbove;
    hide Prefix;
    hide Walk;
    hide IsBlock;
    NoDescriptor();
    OneDown(ts0, root0, v, level);
    OneDown(ts, root, v, level);
    var c := Walk(ts, root, Prefix(v, level + 1));
    assert Walk(ts0, root0, Prefix(v, level)) != NULL;
    TableLives(ts, root, home, v, level);
    NotBoth(Word(ts, t, Index(v, level)));
  }

  lemma NotBoth(word: bv64)
    ensures !(IsTable(word) && IsBlock(word))
  {
  }

  /** A table descriptor above the last level leads to a table. */
  lemma TableLives(ts: Tables, root: Ref, home: Homes, v: nat, level: nat)
    requires Tree(ts, root, home) && level < 3 && IsTable(Word(ts, Walk(ts, root, Prefix(v, level)), Index(v, level)))
    ensures Walk(ts, root, Prefix(v, level + 1)) in ts && Walk(ts, root, Prefix(v, level + 1)) != NULL
  {
    hide IsTable;
    hide Target;
    hide Index;
    hide Rooted;
    hide Prefix;
    NoDescriptor();
    OneDown(ts, root, v, level);
    var t := Walk(ts, root, Prefix(v, level));
    hide Walk;
    WalkHome(ts, root, home, Prefix(v, level));
    assert LinkOk(ts, home, t, Index(v, level));
  }

  lemma ProgressBlock(ts0: Tables, root0: Ref, ts: Tables, root: Ref, v: nat, level: nat, t: Ref, k: nat,
                      frames: seq<Ref>)
    requires Progress(ts0, root0, ts, root, v, level, t, k, frames) && level < 3
    requires IsBlock(Word(ts, t, Index(v, level)))
    ensures BlockAbove(ts0, root0, v, 3)
  {
    hide IsBlock;
    hide Index;
    hide BlockAbove;
    hide Prefix;
    hide Walk;
    NoDescriptor();
    OneDown(ts0, root0, v, level);
    NoBlockMore(ts0, root0, v, level + 1);
  }

  lemma ProgressNone(ts0: Tables, root0: Ref, ts: Tables, root: Ref, v: nat, level: nat, t: Ref, k: nat,
                     frames: seq<Ref>)
    requires Progress(ts0, root0, ts, root, v, level, t, k, frames) && level < 3
    requires !IsTable(Word(ts, t, Index(v, level)))
    ensures MissingFrom(ts0, root0, v, 0) > k && Walk(ts0, root0, Prefix(v, level + 1)) == NULL
  {
    hide IsTable;
    hide IsBlock;
    hide Target;
    hide Index;
    hide BlockAbove;
    hide Prefix;
    hide Walk;
    OneDown(ts0, root0, v, level);
  }

  lemma ProgressNew(ts0: Tables, root0: Ref, ts: Tables, root: Ref, home: Homes, v: nat, level: nat, t: Ref, k: nat,
                    frames: seq<Ref>)
    requires Progress(ts0, root0, ts, root, v, level, t, k, frames) && level < 3 && k < |frames|
    requires Tree(ts, root, home) && FreshFrames(ts0, frames)
    requires !IsTable(Word(ts, t, Index(v, level))) && !IsBlock(Word(ts, t, Index(v, level)))
    ensures t in home && home[t] == Prefix(v, level) && |ts[t]| == 512 &&
            CanAdd(ts, root, home, t, Index(v, level), frames[k])
    ensures Progress(ts0, root0, WithTable(ts, t, Index(v, level), frames[k]), root, v, level + 1, frames[k], k + 1,
                     frames)
  {
    hide IsTable;
    hide IsBlock;
    hide Target;
    hide Index;
    hide BlockAbove;
    hide Prefix;
    hide Walk;
    hide Linked;
    hide Rooted;
    hide Aligned;
    hide FreshFrames;
    hide OnlyNew;
    NoDescriptor();
    ProgressNone(ts0, root0, ts, root, v, level, t, k, frames);
    OneDown(ts0, root0, v, level);
    FreshNext(ts0, frames, k, ts);
    WalkHome(ts, root, home, Prefix(v, level));
    RootedAt(ts, root, home, t);
    var i, n := Index(v, level), frames[k];
    Last(v, level);
    AddedWalks(ts, root, home, t, i, n, Prefix(v, level + 1));
    assert Prefix(v, level + 1) == Prefix(v, level) + [i];
    var ts' := WithTable(ts, t, i, n);
    assert ts'.Keys == ts.Keys + {n};
  }

  lemma ProgressStart(ts: Tables, root: Ref, home: Homes, v: nat, frames: seq<Ref>)
    requires Tree(ts, root, home) && FreshFrames(ts, frames)
    ensures root != NULL ==> Progress(ts, root, ts, root, v, 0, root, 0, frames)
    ensures root == NULL ==> MissingFrom(ts, root, v, 0) > 0
    ensures root == NULL && frames != [] ==>
              frames[0] != NULL && Aligned(frames[0]) &&
              Progress(ts, root, map[frames[0] := Blank()], frames[0], v, 0, frames[0], 1, frames)
  {
    hide Aligned;
    hide Linked;
    hide Rooted;
    hide Blank;
    if frames != [] {
      assert frames[..1] == [frames[0]];
      assert frames[0] != NULL;
    }
    assert frames[..0] == [];
  }

  /** The pages that are mapped. */
  ghost function Pages(ts: Tables, root: Ref): set<nat> { set v: nat | v < PAGES && Lookup(ts, root, v) != [] }

  lemma PagesMapped(ts: Tables, root: Ref)
    ensures forall v :: v in Pages(ts, root) <==> v in Mapping(ts, root)
    ensures forall v <- Pages(ts, root) :: v < PAGES
  {
    hide Lookup;
  }

  lemma LeafPages(ts: Tables, root: Ref, v: nat)
    requires v < PAGES
    ensures LeafTable.Served(Pages(ts, root), v) == set w | w in Served(Prefix(v, 3)) && w in Pages(ts, root)
  {
    hide LeafTable.Same;
    hide Prefix;
    PagesMapped(ts, root);
    hide Pages;
    forall w <- Pages(ts, root) ensures w in Served(Prefix(v, 3)) <==> LeafTable.Same(w, v) {
      SameLeaf(w, v);
    }
  }

  /** Pages share a leaf table exactly when their numbers agree but for the last nine bits. */
  lemma SameLeaf(v: nat, w: nat)
    requires v < PAGES && w < PAGES
    ensures Prefix(v, 3) == Prefix(w, 3) <==> LeafTable.Same(v, w)
  {
    ThreeDigits(v);
    ThreeDigits(w);
    HighIndices(v);
    HighIndices(w);
    TopDigits(v);
    TopDigits(w);
    hide Prefix;
    hide Index;
  }

  lemma ThreeDigits(v: nat)
    ensures Prefix(v, 3) == [Index(v, 0), Index(v, 1), Index(v, 2)]
  {
    hide Index;
    assert Prefix(v, 1) == [Index(v, 0)];
    assert Prefix(v, 2) == [Index(v, 0), Index(v, 1)];
  }

  lemma TopDigits(v: nat)
    requires v < PAGES
    ensures v / 512 == Index(v, 0) * 262144 + Index(v, 1) * 512 + Index(v, 2)
  {
    Digits(v);
    HighIndices(v);
  }

  lemma SlotServed(ts: Tables, root: Ref, home: Homes, t: Ref, v: nat, i: nat)
    requires Tree(ts, root, home) && t in ts && t in home && v < PAGES && home[t] == Prefix(v, 3) &&
             i in LiveSlots(ts[t])
    ensures v / 512 * 512 + i in LeafTable.Served(Pages(ts, root), v)
  {
    hide Tree;
    hide Mapping;
    hide Index;
    hide Prefix;
    hide LiveSlots;
    hide LeafTable.Served;
    PagesMapped(ts, root);
    hide Pages;
    LeafPages(ts, root, v);
    RootedAt(ts, root, home, t);
    SlotsBound(ts[t], i);
    var w := SlotPage(v, i);
    PageOfSlot(v, w);
    ServedLive(ts, root, home, t, w);
  }

  lemma ServedSlot(ts: Tables, root: Ref, home: Homes, t: Ref, v: nat, w: nat)
    requires Tree(ts, root, home) && t in ts && t in home && v < PAGES && home[t] == Prefix(v, 3)
    requires w in LeafTable.Served(Pages(ts, root), v)
    ensures w >= v / 512 * 512 && w - v / 512 * 512 in LiveSlots(ts[t])
  {
    hide Tree;
    hide Mapping;
    hide Index;
    hide Prefix;
    hide LiveSlots;
    hide LeafTable.Served;
    PagesMapped(ts, root);
    hide Pages;
    LeafPages(ts, root, v);
    ServedLive(ts, root, home, t, w);
    PageOfSlot(v, w);
  }

  /** The live entries of a leaf table are as many as the mapped pages it serves. */
  lemma LiveServed(ts: Tables, root: Ref, home: Homes, t: Ref, v: nat)
    requires Tree(ts, root, home) && t in ts && t in home && v < PAGES && home[t] == Prefix(v, 3)
    ensures Live(ts[t]) == |LeafTable.Served(Pages(ts, root), v)|
  {
    hide Tree;
    hide Prefix;
    hide LiveSlots;
    hide Pages;
    hide LeafTable.Served;
    var slots, base, g := LiveSlots(ts[t]), v / 512 * 512, LeafTable.Served(Pages(ts, root), v);
    forall i <- slots ensures Plus(base, i) in g {
      SlotServed(ts, root, home, t, v, i);
    }
    forall w <- g ensures w in Shifted(slots, base) {
      ServedSlot(ts, root, home, t, v, w);
      assert w == Plus(base, w - base);
    }
    assert g == Shifted(slots, base);
    ShiftSize(slots, base);
  }

  /** Clearing an entry, or dropping its table, removes pages as the sets of mapped pages say. */
  lemma PagesRemoved(ts: Tables, root: Ref, home: Homes, t: Ref, v: nat, ts': Tables, root': Ref)
    requires Tree(ts, root, home) && t in ts && t in home && v < PAGES && home[t] == Prefix(v, 3) &&
             v in Mapping(ts, root)
    requires Mapping(ts', root') ==
             if Live(ts[t]) % 256 <= 1 then Mapping(ts, root) - Served(Prefix(v, 3)) else Mapping(ts, root) - {v}
    ensures Pages(ts', root') == LeafTable.Removed(Pages(ts, root), v)
  {
    hide Tree;
    hide Prefix;
    hide Live;
    hide LeafTable.Served;
    hide Mapping;
    LiveServed(ts, root, home, t, v);
    LeafPages(ts, root, v);
    PagesMapped(ts, root);
    PagesMapped(ts', root');
    hide Pages;
  }

  lemma NotMapped(ts: Tables, root: Ref, v: nat)
    ensures v !in Mapping(ts, root) ==> LeafTable.Removed(Pages(ts, root), v) == Pages(ts, root)
  {
    hide Mapping;
    PagesMapped(ts, root);
  }

  lemma PageOfSlot(v: nat, w: nat)
    requires v < PAGES && w < PAGES && Prefix(w, 3) == Prefix(v, 3)
    ensures w == v / 512 * 512 + Index(w, 3)
  {
    SameLeaf(v, w);
    hide Prefix;
    HighIndices(w);
    hide Index;
  }

  function Plus(d: nat, i: nat): nat { d + i }

  function Shifted(a: set<nat>, d: nat): set<nat> { set i | i in a :: Plus(d, i) }

  lemma {:induction false} ShiftSize(a: set<nat>, d: nat)
    ensures |Shifted(a, d)| == |a|
  {
    if a != {} {
      var i :| i in a;
      ShiftSize(a - {i}, d);
      assert Shifted(a, d) == Shifted(a - {i}, d) + {Plus(d, i)};
    }
  }

  class Context {
    var ts: Tables
    var root: Ref
    var numTables: nat
    var count: map<Ref, nat>
    ghost var home: Homes

    ghost predicate Valid()
      reads this
    {
      Tree(ts, root, home) && Counted(ts, home, count) && numTables == (if root == NULL then 0 else |ts| - 1)
    }

    ghost function Translation(): imap<nat, Leaf>
      reads this
    {
      Mapping(ts, root)
    }

    constructor ()
      ensures Valid() && ts == map[] && root == NULL && Translation() == imap[]
    {
      ts, root, numTables, count, home := map[], NULL, 0, map[], map[];
      new;
      NoDescriptor();
      forall v: nat ensures Lookup(ts, root, v) == [] {
        LookupNoRoot(v);
      }
    }

    /** The table of the given level on the way to page `v`, or NULL. */
    method LevelTable(v: nat, level: nat) returns (t: Ref)
      requires Valid() && level <= 3
      ensures t == Walk(ts, root, Prefix(v, level))
    {
      hide Linked;
      hide Rooted;
      hide Counted;
      hide IsTable;
      hide Target;
      hide Index;
      t := root;
      var i := 0;
      while i < level && t != NULL
        invariant 0 <= i <= level && t == Walk(ts, root, Prefix(v, i))
      {
        OneDown(ts, root, v, i);
        var word := Word(ts, t, Index(v, i));
        t := if IsTable(word) then Target(word) else NULL;
        i := i + 1;
      }
      NothingFurther(ts, root, v, i, level);
    }

    method Translate(v: nat) returns (r: seq<Leaf>)
      requires Valid() && v < PAGES
      ensures v in Translation() ==> r == [Translation()[v]]
      ensures v !in Translation() ==> r == []
    {
      var t := LevelTable(v, 3);
      hide Tree;
      hide Walk;
      hide Prefix;
      hide Index;
      hide Protection;
      var word := Word(ts, t, Index(v, 3));
      r := if IsValid(word) then [Leaf(Address(word), Protection(word))] else [];
    }

    /** The table below an entry, taking a frame for it if there is none; NULL if a block or no frame is there. */
    method LevelEnsure(parent: Ref, index: nat, frame: Ref) returns (t: Ref)
      requires Valid() && parent in ts && parent in home && |home[parent]| < 3 && index < 512
      requires frame != NULL ==> frame !in ts && Aligned(frame)
      modifies this`ts, this`numTables, this`count, this`home
      ensures Valid() && Translation() == old(Translation())
      ensures var word := old(Word(ts, parent, index));
              if IsTable(word) then t == Target(word) && ts == old(ts) && home == old(home)
              else if IsBlock(word) || frame == NULL then t == NULL && ts == old(ts) && home == old(home)
              else
                t == frame && ts == WithTable(old(ts), parent, index, frame) &&
                home == old(home)[frame := old(home)[parent] + [index]]
    {
      hide IsTable;
      hide IsBlock;
      hide Target;
      hide TableWord;
      hide Aligned;
      hide Mapping;
      hide Linked;
      hide Rooted;
      hide Counted;
      var word := Word(ts, parent, index);
      if IsTable(word) {
        return Target(word);
      }
      if IsBlock(word) {
        return NULL;
      }
      if frame == NULL {
        return NULL;
      }
      RootedAt(ts, root, home, parent);
      AddTable(ts, root, home, parent, index, frame);
      CountedTable(ts, home, count, parent, index, frame);
      AddedSize(ts, parent, index, frame);
      hide Tree;
      ts := WithTable(ts, parent, index, frame);
      home := home[frame := home[parent] + [index]];
      numTables := numTables + 1;
      count := count[frame := 0];
      t := frame;
    }

    method EnsureRoot(frame: Ref) returns (ok: bool)
      requires Valid()
      modifies this`ts, this`root, this`home
      ensures Valid() && Translation() == old(Translation()) && ok == (old(root) != NULL || frame != NULL)
      ensures if old(root) != NULL || frame == NULL then root == old(root) && ts == old(ts) && home == old(home)
              else root == frame && ts == map[frame := Blank()] && home == map[frame := []]
    {
      if root != NULL {
        return true;
      }
      if frame == NULL {
        return false;
      }
      EmptyRoot(frame);
      assert |map[frame := Blank()]| == 1;
      hide Mapping;
      hide Linked;
      hide Rooted;
      hide Blank;
      root := frame;
      ts := map[frame := Blank()];
      home := map[frame := []];
      ok := true;
    }

    /** Walks down to the leaf table of `v`, taking frames for the tables that are missing. */
    method EnsurePath(v: nat, frames: seq<Ref>) returns (t: Ref)
      requires Valid() && FreshFrames(ts, frames)
      modifies this
      ensures Valid() && Translation() == old(Translation())
      ensures t == NULL <==> BlockAbove(old(ts), old(root), v, 3) || MissingFrom(old(ts), old(root), v, 0) > |frames|
      ensures t != NULL ==> t == Walk(ts, root, Prefix(v, 3))
    {
      hide Tree;
      hide Counted;
      hide Mapping;
      hide FreshFrames;
      hide Progress;
      hide IsTable;
      hide IsBlock;
      hide Target;
      hide Aligned;
      hide Index;
      hide Prefix;
      hide Walk;
      hide MissingFrom;
      hide BlockAbove;
      hide WithTable;
      ProgressStart(ts, root, home, v, frames);
      var k := if root == NULL then 1 else 0;
      var ok := EnsureRoot(if frames == [] then NULL else frames[0]);
      if !ok {
        return NULL;
      }
      t := root;
      for level := 0 to 3
        invariant Valid() && Translation() == old(Translation())
        invariant Progress(old(ts), old(root), ts, root, v, level, t, k, frames)
      {
        ProgressAt(old(ts), old(root), ts, root, home, v, level, t, k, frames);
        ProgressStep(old(ts), old(root), ts, root, home, v, level, t, k, frames);
        var frame := if k < |frames| then frames[k] else NULL;
        var used := !IsTable(Word(ts, t, Index(v, level)));
        t := LevelEnsure(t, Index(v, level), frame);
        if t == NULL {
          return;
        }
        k := if used then k + 1 else k;
      }
      ProgressDone(old(ts), old(root), ts, root, v, t, k, frames);
    }

    /** Maps a page that is not mapped; anything else leaves every translation as it was. */
    method Map(v: nat, pa: bv64, prot: bv32, frames: seq<Ref>) returns (ok: bool)
      requires Valid() && v < PAGES && FreshFrames(ts, frames)
      modifies this
      ensures Valid()
      ensures ok <==> v !in old(Translation()) && !BlockAbove(old(ts), old(root), v, 3) &&
                      MissingFrom(old(ts), old(root), v, 0) <= |frames|
      ensures ok ==>
              Translation() == old(Translation())[v := Leaf(Address(pa),
                                                            PG_READ | (prot & (PG_WRITE | PG_USER | PG_EXEC)))]
      ensures !ok ==> Translation() == old(Translation())
    {
      hide Tree;
      hide Counted;
      hide Mapping;
      hide FreshFrames;
      hide IsValid;
      hide Address;
      hide Protection;
      hide Attributes;
      hide LeafWord;
      hide Index;
      hide Prefix;
      hide Walk;
      hide MissingFrom;
      hide BlockAbove;
      var t := EnsurePath(v, frames);
      if t == NULL {
        return false;
      }
      var word := LeafWord(pa, prot);
      LeafRoundTrip(pa, prot);
      SetLeaf(ts, root, home, v, word);
      MappedAt(ts, root, v);
      if IsValid(ts[t][Index(v, 3)]) {
        return false;
      }
      CountedLeaf(ts, home, count, t, Index(v, 3), word);
      ts := WithLeaf(ts, t, Index(v, 3), word);
      count := count[t := (CountOf(count, t) + 1) % 256];
      ok := true;
    }

    /** Rewrites the leaf of a mapped page. */
    method Replace(v: nat, pa: bv64, prot: bv32) returns (ok: bool)
      requires Valid() && v < PAGES
      modifies this`ts
      ensures Valid() && ok == (v in old(Translation()))
      ensures ok ==>
              Translation() == old(Translation())[v := Leaf(Address(pa),
                                                            PG_READ | (prot & (PG_WRITE | PG_USER | PG_EXEC)))]
      ensures !ok ==> Translation() == old(Translation())
    {
      hide Tree;
      hide Counted;
      hide Mapping;
      hide IsValid;
      hide Address;
      hide Protection;
      hide Attributes;
      hide LeafWord;
      hide Index;
      hide Prefix;
      hide Walk;
      var t := LevelTable(v, 3);
      MappedAt(ts, root, v);
      if t == NULL {
        UnmappedAt(ts, root, home, v);
        return false;
      }
      var word := LeafWord(pa, prot);
      LeafRoundTrip(pa, prot);
      SetLeaf(ts, root, home, v, word);
      if !IsValid(ts[t][Index(v, 3)]) {
        return false;
      }
      CountedLeaf(ts, home, count, t, Index(v, 3), word);
      ts := WithLeaf(ts, t, Index(v, 3), word);
      ok := true;
    }

    /**
      * Unmaps a page and drops its leaf table when the byte count reads zero.  That loses other pages exactly
      * when the table held 256, 257 or 512 live entries: the byte wraps, and its decrement stops at zero.
      */
    method Unmap(v: nat) returns (ok: bool, frame: bv64)
      requires Valid() && v < PAGES
      modifies this
      ensures Valid() && ok == (v in old(Translation()))
      ensures !ok ==> Translation() == old(Translation())
      ensures Pages(ts, root) == LeafTable.Removed(Pages(old(ts), old(root)), v)
      ensures ok ==> frame == old(Translation())[v].frame
      ensures ok ==> Walk(old(ts), old(root), Prefix(v, 3)) in old(ts)
      ensures ok ==> var t := Walk(old(ts), old(root), Prefix(v, 3)); var live := Live(old(ts)[t]);
                     1 <= live <= 512 && (t !in ts <==> live == 1 || LeafTable.Crowded(live)) &&
                     (Translation() == old(Translation()) - {v} <==> !LeafTable.Crowded(live)) &&
                     (LeafTable.Crowded(live) ==> Translation() == old(Translation()) - Served(Prefix(v, 3)))
    {
      hide Tree;
      hide Counted;
      hide Mapping;
      hide IsValid;
      hide Address;
      hide Protection;
      hide Index;
      hide Prefix;
      hide Walk;
      hide Live;
      hide Served;
      hide Pages;
      hide LeafTable.Removed;
      frame := 0;
      NotMapped(ts, root, v);
      var l2 := LevelTable(v, 2);
      MappedAt(ts, root, v);
      ParentAt(ts, root, home, v);
      if l2 == NULL {
        UnmappedAt(ts, root, home, v);
        return false, 0;
      }
      var link := Word(ts, l2, Index(v, 2));
      var l3 := if IsTable(link) then Target(link) else NULL;
      if l3 == NULL {
        UnmappedAt(ts, root, home, v);
        return false, 0;
      }
      SetLeaf(ts, root, home, v, 0);
      NoDescriptor();
      var pte := ts[l3][Index(v, 3)];
      if !IsValid(pte) {
        return false, 0;
      }
      FrameAt(ts, root, v);
      LiveBound(ts[l3], Index(v, 3));
      CountAt(ts, home, count, l3);
      ServedOwn(v);
      DropLoses(ts, root, home, l3, v);
      frame := Address(pte);
      ghost var before := home;
      Clear(v, l2, l3);
      PagesRemoved(old(ts), old(root), before, l3, v, ts, root);
      ok := true;
    }

    /** The writes of an unmap: count, entry, and the table itself if the count is zero. */
    method Clear(v: nat, l2: Ref, l3: Ref)
      requires Valid() && v < PAGES && v in Translation() && l3 == Walk(ts, root, Prefix(v, 3)) && l3 in ts &&
               l3 != NULL
      requires IsChild(ts, home, l2, Index(v, 2), l3) && l3 in home && home[l3] == Prefix(v, 3)
      requires |ts[l3]| == 512 && IsValid(ts[l3][Index(v, 3)])
      modifies this`ts, this`count, this`numTables, this`home
      ensures Valid()
      ensures var live := Live(old(ts)[l3]);
              if live % 256 <= 1 then l3 !in ts && Translation() == old(Translation()) - Served(Prefix(v, 3))
              else l3 in ts && Translation() == old(Translation()) - {v}
    {
      hide Tree;
      hide Counted;
      hide Mapping;
      hide IsValid;
      hide Index;
      hide Prefix;
      hide Walk;
      hide Live;
      hide Served;
      hide IsChild;
      hide Dropped;
      NoDescriptor();
      SetLeaf(ts, root, home, v, 0);
      CountAt(ts, home, count, l3);
      CountedClear(ts, home, count, l3, Index(v, 3));
      ServedOwn(v);
      ClearSize(ts, root, home, l2, Index(v, 2), l3, Index(v, 3));
      var c := CountOf(count, l3);
      count := count[l3 := if c > 0 then c - 1 else 0];
      ts := WithLeaf(ts, l3, Index(v, 3), 0);
      if count[l3] == 0 {
        ClearChild(old(ts), home, l2, Index(v, 2), l3, Index(v, 3));
        DropTable(ts, root, home, l2, Index(v, 2), l3);
        CountedDrop(old(ts), home, old(count), count, l2, Index(v, 2), l3, Index(v, 3));
        ts := Dropped(ts, l2, Index(v, 2), l3);
        home := home - {l3};
        numTables := numTables - 1;
      }
    }
  }

  lemma ParentAt(ts: Tables, root: Ref, home: Homes, v: nat)
    requires Tree(ts, root, home)
    ensures var p, t := Walk(ts, root, Prefix(v, 2)),
            Walk(ts, root, Prefix(v, 3)); var word := Word(ts, p, Index(v, 2));
            t == (if IsTable(word) then Target(word) else NULL) && (p == NULL ==> t == NULL) &&
            (t != NULL ==> IsChild(ts, home, p, Index(v, 2), t))
  {
    hide IsTable;
    hide Target;
    hide Index;
    hide Walk;
    hide Linked;
    hide Rooted;
    OneDown(ts, root, v, 2);
    var p, t := Walk(ts, root, Prefix(v, 2)), Walk(ts, root, Prefix(v, 3));
    if t != NULL {
      WalkHome(ts, root, home, Prefix(v, 2));
      WalkHome(ts, root, home, Prefix(v, 3));
      RootedAt(ts, root, home, p);
    }
  }

  lemma FrameAt(ts: Tables, root: Ref, v: nat)
    requires v < PAGES && v in Mapping(ts, root)
    ensures Mapping(ts, root)[v].frame == Address(Word(ts, Walk(ts, root, Prefix(v, 3)), Index(v, 3)))
  {
  }

  lemma CountAt(ts: Tables, home: Homes, count: map<Ref, nat>, t: Ref)
    requires Counted(ts, home, count) && t in ts && t in home && |home[t]| == 3
    ensures CountOf(count, t) == Live(ts[t]) % 256
  {
  }

  lemma CountedClear(ts: Tables, home: Homes, count: map<Ref, nat>, t: Ref, i: nat)
    requires Counted(ts, home, count) && t in ts && t in home && |home[t]| == 3 && i < |ts[t]| && IsValid(ts[t][i])
    ensures Live(ts[t]) % 256 > 1 ==> Counted(WithLeaf(ts, t, i, 0), home, count[t := CountOf(count, t) - 1])
  {
    NoDescriptor();
    LiveSet(ts[t], i, 0);
    hide Live;
    hide IsValid;
  }

  lemma ServedOwn(v: nat)
    requires v < PAGES
    ensures v in Served(Prefix(v, 3))
    ensures forall m: imap<nat, Leaf> :: (m - {v}) - Served(Prefix(v, 3)) == m - Served(Prefix(v, 3))
  {
    hide Prefix;
  }

  lemma ClearSize(ts: Tables, root: Ref, home: Homes, p: Ref, i: nat, t: Ref, j: nat)
    requires Tree(ts, root, home) && IsChild(ts, home, p, i, t) && j < |ts[t]|
    ensures root != NULL && |WithLeaf(ts, t, j, 0)| == |ts| && |ts| >= 2 && t in WithLeaf(ts, t, j, 0)
    ensures p in WithLeaf(ts, t, j, 0) && i < |WithLeaf(ts, t, j, 0)[p]| &&
            |Dropped(WithLeaf(ts, t, j, 0), p, i, t)| == |ts| - 1 && t !in Dropped(WithLeaf(ts, t, j, 0), p, i, t)
  {
    hide Linked;
    hide Rooted;
    assert p != t;
    var ts' := WithLeaf(ts, t, j, 0);
    assert ts'.Keys == ts.Keys;
    assert Dropped(ts', p, i, t).Keys == ts.Keys - {t};
    assert |ts.Keys - {t}| >= 1 by {
      assert p in ts.Keys - {t};
    }
  }

  lemma ClearChild(ts: Tables, home: Homes, p: Ref, i: nat, t: Ref, j: nat)
    requires IsChild(ts, home, p, i, t) && j < |ts[t]|
    ensures IsChild(WithLeaf(ts, t, j, 0), home, p, i, t)
  {
  }

  lemma CountedDrop(ts: Tables, home: Homes, count: map<Ref, nat>, count': map<Ref, nat>, p: Ref, i: nat, t: Ref,
                    j: nat)
    requires Counted(ts, home, count) && IsChild(ts, home, p, i, t) && j < |ts[t]| &&
             IsChild(WithLeaf(ts, t, j, 0), home, p, i, t)
    requires forall r :: r != t ==> CountOf(count', r) == CountOf(count, r)
    ensures Counted(Dropped(WithLeaf(ts, t, j, 0), p, i, t), home - {t}, count')
  {
    hide Live;
  }

  lemma ProgressAt(ts0: Tables, root0: Ref, ts: Tables, root: Ref, home: Homes, v: nat, level: nat, t: Ref, k: nat,
                   frames: seq<Ref>)
    requires Progress(ts0, root0, ts, root, v, level, t, k, frames) && Tree(ts, root, home) && level < 3
    ensures t in ts && t in home && home[t] == Prefix(v, level) && k <= |frames|
    ensures FreshFrames(ts0, frames) && k < |frames| ==> frames[k] != NULL && frames[k] !in ts && Aligned(frames[k])
    ensures IsTable(Word(ts, t, Index(v, level))) ==> Target(Word(ts, t, Index(v, level))) != NULL
  {
    hide IsTable;
    hide Target;
    hide Linked;
    hide Rooted;
    hide Walk;
    hide Prefix;
    hide Index;
    hide Aligned;
    WalkHome(ts, root, home, Prefix(v, level));
    OneDown(ts, root, v, level);
    if IsTable(Word(ts, t, Index(v, level))) {
      TableLives(ts, root, home, v, level);
    }
    if FreshFrames(ts0, frames) && k < |frames| {
      FreshNext(ts0, frames, k, ts);
    }
  }

  /** The three ways on from a table: down, stopped by a block or by lack of frames, or through a new table. */
  lemma ProgressStep(ts0: Tables, root0: Ref, ts: Tables, root: Ref, home: Homes, v: nat, level: nat, t: Ref, k: nat,
                     frames: seq<Ref>)
    requires Progress(ts0, root0, ts, root, v, level, t, k, frames) && Tree(ts, root, home) && level < 3 &&
             FreshFrames(ts0, frames)
    requires k <= |frames|
    ensures var i := Index(v, level); var word := Word(ts, t, i);
            if IsTable(word) then Progress(ts0, root0, ts, root, v, level + 1, Target(word), k, frames)
            else if IsBlock(word) then BlockAbove(ts0, root0, v, 3)
            else if k == |frames| then MissingFrom(ts0, root0, v, 0) > |frames|
            else
              t in ts && i < |ts[t]| &&
              Progress(ts0, root0, WithTable(ts, t, i, frames[k]), root, v, level + 1, frames[k], k + 1, frames)
  {
    hide Progress;
    hide Tree;
    hide FreshFrames;
    hide IsTable;
    hide IsBlock;
    hide Target;
    hide Index;
    hide BlockAbove;
    hide MissingFrom;
    hide WithTable;
    hide Walk;
    hide Prefix;
    hide Word;
    var word := Word(ts, t, Index(v, level));
    if IsTable(word) {
      ProgressTable(ts0, root0, ts, root, home, v, level, t, k, frames);
    } else if IsBlock(word) {
      ProgressBlock(ts0, root0, ts, root, v, level, t, k, frames);
    } else if k == |frames| {
      ProgressNone(ts0, root0, ts, root, v, level, t, k, frames);
    } else {
      ProgressAt(ts0, root0, ts, root, home, v, level, t, k, frames);
      ProgressNew(ts0, root0, ts, root, home, v, level, t, k, frames);
    }
  }

  lemma ProgressDone(ts0: Tables, root0: Ref, ts: Tables, root: Ref, v: nat, t: Ref, k: nat, frames: seq<Ref>)
    requires Progress(ts0, root0, ts, root, v, 3, t, k, frames)
    ensures t == Walk(ts, root, Prefix(v, 3)) && t != NULL
    ensures !BlockAbove(ts0, root0, v, 3) && MissingFrom(ts0, root0, v, 0) <= |frames|
  {
  }

  lemma MappedAt(ts: Tables, root: Ref, v: nat)
    requires v < PAGES
    ensures v in Mapping(ts, root) <==> IsValid(Word(ts, Walk(ts, root, Prefix(v, 3)), Index(v, 3)))
  {
  }

  lemma UnmappedAt(ts: Tables, root: Ref, home: Homes, v: nat)
    requires v < PAGES && Tree(ts, root, home) && Walk(ts, root, Prefix(v, 3)) == NULL
    ensures v !in Mapping(ts, root)
  {
    NoDescriptor();
  }

  lemma LookupNoRoot(v: nat)
    ensures Lookup(map[], NULL, v) == []
  {
    NoDescriptor();
  }

  lemma {:induction false} NothingFurther(ts: Tables, root: Ref, v: nat, i: nat, level: nat)
    requires i <= level <= 3 && NULL !in ts && (i < level ==> Walk(ts, root, Prefix(v, i)) == NULL)
    ensures i < level ==> Walk(ts, root, Prefix(v, level)) == NULL
    decreases level - i
  {
    if i < level {
      OneDown(ts, root, v, i);
      NothingFurther(ts, root, v, i + 1, level);
    }
  }

  lemma AddedSize(ts: Tables, p: Ref, i: nat, n: Ref)
    requires p in ts && i < |ts[p]| && n !in ts
    ensures |WithTable(ts, p, i, n)| == |ts| + 1
  {
    assert WithTable(ts, p, i, n).Keys == ts.Keys + {n};
  }

  // ----- A table that loses pages -----

  lemma LowPath(v: nat)
    requires v < 512
    ensures Prefix(v, 0) == [] && Prefix(v, 1) == [0] && Prefix(v, 2) == [0, 0] && Prefix(v, 3) == [0, 0, 0] &&
            Index(v, 3) == v
  {
    assert Index(v, 0) == 0 && Index(v, 1) == 0 && Index(v, 2) == 0;
  }

  /** A page next to a mapped one in the same leaf table finds all its tables in place. */
  lemma NothingMissing(ts: Tables, root: Ref, home: Homes, v: nat, w: nat)
    requires Tree(ts, root, home) && v < PAGES && v in Mapping(ts, root)
    requires Prefix(w, 0) == Prefix(v, 0) && Prefix(w, 1) == Prefix(v, 1) && Prefix(w, 2) == Prefix(v, 2) &&
             Prefix(w, 3) == Prefix(v, 3)
    ensures MissingFrom(ts, root, w, 0) == 0 && !BlockAbove(ts, root, w, 3)
  {
    hide Linked;
    hide Rooted;
    hide Index;
    hide IsTable;
    hide IsBlock;
    hide Target;
    hide Walk;
    hide Mapping;
    if Walk(ts, root, Prefix(w, 3)) == NULL {
      UnmappedAt(ts, root, home, v);
      assert false;
    }
    OneDown(ts, root, w, 0);
    OneDown(ts, root, w, 1);
    OneDown(ts, root, w, 2);
    NotBoth(Word(ts, Walk(ts, root, Prefix(w, 0)), Index(w, 0)));
    NotBoth(Word(ts, Walk(ts, root, Prefix(w, 1)), Index(w, 1)));
    NotBoth(Word(ts, Walk(ts, root, Prefix(w, 2)), Index(w, 2)));
    assert MissingFrom(ts, root, w, 3) == 0;
    assert MissingFrom(ts, root, w, 2) == 0;
  }

  lemma FewMissing(ts: Tables, root: Ref, v: nat)
    requires ts == map[] && root == NULL
    ensures MissingFrom(ts, root, v, 0) <= 4 && !BlockAbove(ts, root, v, 3)
  {
    NoDescriptor();
    assert MissingFrom(ts, root, v, 3) <= 1;
    assert MissingFrom(ts, root, v, 2) <= 2;
  }

  lemma LowLive(ts: Tables, root: Ref, home: Homes, n: nat)
    requires Tree(ts, root, home) && 0 < n <= 512 && forall v: nat :: v in Mapping(ts, root) <==> v < n
    ensures var t := Walk(ts, root, Prefix(0, 3)); t in ts && Live(ts[t]) == n
  {
    hide Linked;
    hide Rooted;
    hide Index;
    hide Walk;
    hide Mapping;
    hide LiveSlots;
    var t := Walk(ts, root, Prefix(0, 3));
    LowPath(0);
    if t == NULL {
      UnmappedAt(ts, root, home, 0);
      assert false;
    }
    WalkHome(ts, root, home, Prefix(0, 3));
    forall j: nat ensures j in LiveSlots(ts[t]) <==> j < n {
      SlotsBound(ts[t], j);
      if j < 512 {
        LowPath(j);
        ServedLive(ts, root, home, t, j);
      }
    }
    assert LiveSlots(ts[t]) == Upto(n);
  }

  /** Mapping pages 0 to 255 and unmapping page 0 loses the other 255 as well. */
  method LosePages() returns (c: Context, ghost before: imap<nat, Leaf>)
    ensures forall v: nat :: v in before <==> v < 256
    ensures c.Valid() && c.Translation() == imap[]
  {
    hide Index;
    hide Mapping;
    hide Tree;
    hide Counted;
    hide Walk;
    hide Prefix;
    hide FreshFrames;
    hide BlockAbove;
    hide MissingFrom;
    hide Live;
    hide Served;
    hide Address;
    hide LeafTable.Crowded;
    c := new Context();
    var frames := [Ref(0x1000), Ref(0x2000), Ref(0x3000), Ref(0x4000)];
    FirstFrames(c.ts);
    FewMissing(c.ts, c.root, 0);
    var ok := c.Map(0, 0, PG_USER, frames);
    LowPath(0);
    for i := 1 to 256
      invariant c.Valid() && forall v: nat :: v in c.Translation() <==> v < i
    {
      LowPath(i);
      assert 0 in c.Translation();
      NothingMissing(c.ts, c.root, c.home, 0, i);
      NoFrames(c.ts);
      ok := c.Map(i, 0, PG_USER, []);
    }
    before := c.Translation();
    LowLive(c.ts, c.root, c.home, 256);
    LowServed();
    Crowded();
    var f;
    ok, f := c.Unmap(0);
  }

  lemma Crowded()
    ensures LeafTable.Crowded(256)
  {
  }

  lemma LowServed()
    ensures forall v: nat :: v < 512 ==> v in Served(Prefix(0, 3))
  {
    LowPath(0);
    forall v: nat | v < 512 ensures v in Served(Prefix(0, 3)) {
      LowPath(v);
    }
  }

  lemma NoFrames(ts: Tables)
    ensures FreshFrames(ts, [])
  {
  }

  lemma FirstFrames(ts: Tables)
    requires ts == map[]
    ensures FreshFrames(ts, [Ref(0x1000), Ref(0x2000), Ref(0x3000), Ref(0x4000)])
  {
    var frames := [Ref(0x1000), Ref(0x2000), Ref(0x3000), Ref(0x4000)];
    assert frames[..0] == [] && frames[..1] == [Ref(0x1000)] && frames[..2] == [Ref(0x1000), Ref(0x2000)] &&
           frames[..3] == [Ref(0x1000), Ref(0x2000), Ref(0x3000)];
  }
}
