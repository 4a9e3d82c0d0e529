/**
  * The write-back page cache over a block device: eight sectors to a page, the least recently released page
  * evicted first.
  */
module PageCache {
  import opened Collections

  const SECTORS := 8
  const CACHE_MAX := 512

  type Sector = seq<nat>
  type Index = nat

  /** A cached page; `dirty` is the page flag, `marks` the flags of its sectors. */
  datatype Page = Page(data: seq<Sector>, marks: seq<bool>, dirty: bool, refs: nat)

  predicate Whole(p: Page) { |p.data| == SECTORS && |p.marks| == SECTORS && p.refs >= 1 }

  predicate InDevice(disk: seq<Sector>, i: Index) { i * SECTORS + SECTORS <= |disk| }

  /** A cached page lies wholly on the device. */
  lemma CachedInside(disk: seq<Sector>, pages: map<Index, Page>, i: Index)
    requires PagesOk(disk, pages)
    ensures i in pages ==> (i + 1) * SECTORS <= |disk|
    ensures InDevice(disk, i) <==> (i + 1) * SECTORS <= |disk|
  {
    assert i in pages ==> PageOk(disk, pages[i], i);
  }

  /** Sector `s` of page `i` is either marked or on the disk. */
  predicate Backed(disk: seq<Sector>, p: Page, i: Index)
    requires Whole(p) && InDevice(disk, i)
  {
    forall s: nat | s < SECTORS && !p.marks[s] :: p.data[s] == disk[i * SECTORS + s]
  }

  predicate Marked(p: Page)
    requires Whole(p)
  {
    !p.dirty ==> forall s: nat | s < SECTORS :: !p.marks[s]
  }

  predicate PageOk(disk: seq<Sector>, p: Page, i: Index) {
    Whole(p) && InDevice(disk, i) && Backed(disk, p, i) && Marked(p)
  }

  predicate PagesOk(disk: seq<Sector>, pages: map<Index, Page>) {
    forall i <- pages :: PageOk(disk, pages[i], i)
  }

  /** The idle list holds exactly the pages that nobody but the cache refers to. */
  ghost predicate LruOk(lru: seq<Index>, pages: map<Index, Page>) {
    NoDup(lru) && (forall i <- lru :: i in pages) && forall i <- pages :: i in lru <==> pages[i].refs == 1
  }

  /** What readers see: the cached sector if there is one, else the disk. */
  ghost function Seen(disk: seq<Sector>, pages: map<Index, Page>): (v: seq<Sector>)
    requires PagesOk(disk, pages)
    ensures |v| == |disk|
  {
    seq(|disk|, k requires 0 <= k < |disk| => SeenAt(disk, pages, k))
  }

  ghost function SeenAt(disk: seq<Sector>, pages: map<Index, Page>, k: nat): Sector
    requires PagesOk(disk, pages) && k < |disk|
  {
    if k / SECTORS in pages
      then assert PageOk(disk, pages[k / SECTORS], k / SECTORS); pages[k / SECTORS].data[k % SECTORS] else disk[k]
  }

  lemma Position(i: Index, s: nat)
    requires s < SECTORS
    ensures (i * SECTORS + s) / SECTORS == i && (i * SECTORS + s) % SECTORS == s
  {
  }

  lemma Parts(k: nat)
    ensures k == k / SECTORS * SECTORS + k % SECTORS && k % SECTORS < SECTORS
  {
  }

  /** The page as it is on the disk. */
  function Loaded(disk: seq<Sector>, i: Index): Page
    requires InDevice(disk, i)
  {
    Page(disk[i * SECTORS..i * SECTORS + SECTORS], seq(SECTORS, _ => false), false, 2)
  }

  /** Reading a page in shows nothing new. */
  lemma SeenLoad(disk: seq<Sector>, pages: map<Index, Page>, i: Index)
    requires PagesOk(disk, pages) && i !in pages && InDevice(disk, i)
    ensures PagesOk(disk, pages[i := Loaded(disk, i)]) && Seen(disk, pages[i := Loaded(disk, i)]) == Seen(disk, pages)
  {
    var pages' := pages[i := Loaded(disk, i)];
    forall k: nat | k < |disk| ensures PagesOk(disk, pages') && SeenAt(disk, pages', k) == SeenAt(disk, pages, k) {
      Parts(k);
    }
  }

  /** Changing only the count of a page shows nothing new. */
  lemma SeenCount(disk: seq<Sector>, pages: map<Index, Page>, i: Index, refs: nat)
    requires PagesOk(disk, pages) && i in pages && refs >= 1
    ensures PagesOk(disk, pages[i := pages[i].(refs := refs)])
    ensures Seen(disk, pages[i := pages[i].(refs := refs)]) == Seen(disk, pages)
  {
    var p := pages[i];
    assert PageOk(disk, p, i);
    var p' := p.(refs := refs);
    assert Backed(disk, p', i) && Marked(p');
    var pages' := pages[i := p'];
    forall k: nat | k < |disk| ensures SeenAt(disk, pages', k) == SeenAt(disk, pages, k) {
    }
  }

  /** Dropping a clean page shows nothing new. */
  lemma SeenDrop(disk: seq<Sector>, pages: map<Index, Page>, i: Index)
    requires PagesOk(disk, pages) && i in pages &&
             forall s: nat | s < SECTORS && s < |pages[i].marks| :: !pages[i].marks[s]
    ensures PagesOk(disk, pages - {i}) && Seen(disk, pages - {i}) == Seen(disk, pages)
  {
    assert PageOk(disk, pages[i], i);
    var pages' := pages - {i};
    forall k: nat | k < |disk| ensures SeenAt(disk, pages', k) == SeenAt(disk, pages, k) {
      Parts(k);
      assert k / SECTORS == i ==> pages[i].data[k % SECTORS] == disk[i * SECTORS + k % SECTORS];
    }
  }

  /** Writing a cached sector to the disk shows nothing new. */
  lemma SeenClean(disk: seq<Sector>, pages: map<Index, Page>, i: Index, s: nat)
    requires PagesOk(disk, pages) && i in pages && s < SECTORS && pages[i].dirty
    ensures PageOk(disk, pages[i], i)
    ensures var k := i * SECTORS + s;
            var disk', pages' := disk[k := pages[i].data[s]],
              pages[i := pages[i].(marks := pages[i].marks[s := false])];
            PagesOk(disk', pages') && Seen(disk', pages') == Seen(disk, pages)
  {
    var p := pages[i];
    assert PageOk(disk, p, i);
    var k := i * SECTORS + s;
    var disk' := disk[k := p.data[s]];
    var p' := p.(marks := p.marks[s := false]);
    var pages' := pages[i := p'];
    forall j <- pages' ensures PageOk(disk', pages'[j], j) {
      assert PageOk(disk, pages[j], j);
      forall t: nat | t < SECTORS && !pages'[j].marks[t] ensures pages'[j].data[t] == disk'[j * SECTORS + t] {
        Position(i, s);
        Position(j, t);
      }
    }
    forall m: nat | m < |disk| ensures SeenAt(disk', pages', m) == SeenAt(disk, pages, m) {
      Position(i, s);
    }
  }

  /** A marked write shows at its own sector and nowhere else. */
  lemma SeenWrite(disk: seq<Sector>, pages: map<Index, Page>, i: Index, s: nat, v: Sector)
    requires PagesOk(disk, pages) && i in pages && s < SECTORS
    ensures PageOk(disk, pages[i], i)
    ensures var p := pages[i]; var pages' := pages[i := p.(data := p.data[s := v], marks := p.marks[s := true],
                                                           dirty := true)];
            PagesOk(disk, pages') && Seen(disk, pages') == Seen(disk, pages)[i * SECTORS + s := v]
  {
    var p := pages[i];
    assert PageOk(disk, p, i);
    var p' := p.(data := p.data[s := v], marks := p.marks[s := true], dirty := true);
    var pages' := pages[i := p'];
    assert Backed(disk, p', i);
    forall k: nat | k < |disk|
      ensures SeenAt(disk, pages', k) == if k == i * SECTORS + s then v else SeenAt(disk, pages, k)
    {
      Position(i, s);
      Parts(k);
    }
  }

  function Cleaned(p: Page): Page { p.(marks := seq(SECTORS, _ => false), dirty := false) }

  /** The flag of a page may be dropped once no sector is marked. */
  lemma SeenFlag(disk: seq<Sector>, pages: map<Index, Page>, i: Index)
    requires PagesOk(disk, pages) && i in pages && |pages[i].marks| == SECTORS &&
             forall s: nat | s < SECTORS :: !pages[i].marks[s]
    ensures PagesOk(disk, pages[i := Cleaned(pages[i])]) &&
            Seen(disk, pages[i := Cleaned(pages[i])]) == Seen(disk, pages)
  {
    var p := pages[i];
    assert PageOk(disk, p, i);
    assert Backed(disk, Cleaned(p), i);
    var pages' := pages[i := Cleaned(p)];
    forall k: nat | k < |disk| ensures SeenAt(disk, pages', k) == SeenAt(disk, pages, k) {
    }
  }

  lemma Busy(lru: seq<Index>, pages: map<Index, Page>, i: Index, p: Page)
    requires LruOk(lru, pages) && p.refs >= 2
    ensures LruOk(Without(lru, i), pages[i := p])
  {
    WithoutMembers(lru, i);
  }

  lemma Still(lru: seq<Index>, pages: map<Index, Page>, i: Index, p: Page)
    requires LruOk(lru, pages) && i in pages && (p.refs == 1 <==> pages[i].refs == 1)
    ensures LruOk(lru, pages[i := p])
  {
  }

  lemma Idle(lru: seq<Index>, pages: map<Index, Page>, i: Index, p: Page)
    requires LruOk(lru, pages) && i in pages && pages[i].refs != 1 && p.refs == 1
    ensures LruOk(lru + [i], pages[i := p])
  {
  }

  lemma Evicted(lru: seq<Index>, pages: map<Index, Page>)
    requires LruOk(lru, pages) && lru != []
    ensures LruOk(lru[1..], pages - {lru[0]})
  {
    forall i <- pages - {lru[0]} ensures i in lru[1..] <==> pages[i].refs == 1 {
      assert lru == [lru[0]] + lru[1..];
    }
  }

  lemma PageAt(disk: seq<Sector>, pages: map<Index, Page>, i: Index)
    requires PagesOk(disk, pages) && i in pages
    ensures PageOk(disk, pages[i], i)
  {
  }

  lemma LruShorter(lru: seq<Index>, pages: map<Index, Page>, i: Index)
    requires LruOk(lru, pages)
    ensures |Without(lru, i)| <= |lru|
  {
    WithoutMembers(lru, i);
  }

  lemma NewPage(lru: seq<Index>, pages: map<Index, Page>, i: Index, p: Page)
    requires LruOk(lru, pages) && i !in pages && p.refs >= 2
    ensures LruOk(lru, pages[i := p])
  {
  }

  lemma LoadedTwice(disk: seq<Sector>, i: Index)
    requires InDevice(disk, i)
    ensures Loaded(disk, i).refs == 2
  {
  }

  /** The longest idle page is in the cache and not listed twice. */
  lemma LruFirst(lru: seq<Index>, pages: map<Index, Page>)
    requires LruOk(lru, pages) && lru != []
    ensures lru[0] in pages && lru[0] !in lru[1..] && pages[lru[0]].refs == 1
  {
  }

  /** Pages in use, other than `i`, are untouched, and none appears. */
  predicate Held(before: map<Index, Page>, after: map<Index, Page>, i: Index) {
    (forall j <- before :: j != i && before[j].refs >= 2 ==> j in after && after[j] == before[j]) &&
    forall j <- after :: j in before
  }

  lemma DropFirst(l: seq<Index>, i: Index)
    requires l != []
    ensures (l + [i])[1..] == l[1..] + [i]
  {
  }

  lemma IdleCounted(lru: seq<Index>, pages: map<Index, Page>)
    requires LruOk(lru, pages)
    ensures forall i :: i in lru ==> i in pages && pages[i].refs == 1
  {
  }

  class Cache {
    var disk: seq<Sector>
    var pages: map<Index, Page>
    var lru: seq<Index>

    ghost predicate Sound()
      reads this
    {
      PagesOk(disk, pages) && LruOk(lru, pages)
    }

    ghost predicate Valid()
      reads this
    {
      Sound() && |lru| <= CACHE_MAX
    }

    ghost function View(): seq<Sector>
      reads this
      requires PagesOk(disk, pages)
    {
      Seen(disk, pages)
    }

    constructor (device: seq<Sector>)
      ensures Valid() && disk == device && View() == device && pages == map[]
    {
      disk, pages, lru := device, map[], [];
      new;
      forall k: nat | k < |disk| ensures SeenAt(disk, pages, k) == disk[k] {
      }
    }

    /** Takes a reference to a page, reading it in if it is not there. */
    method Get(i: Index, memory: bool) returns (ok: bool)
      requires Valid()
      modifies this`pages, this`lru
      ensures Valid() && View() == old(View())
      ensures ok == (i in old(pages) || (memory && InDevice(disk, i)))
      ensures !ok ==> pages == old(pages)
      ensures lru == if i in old(pages) && old(pages)[i].refs == 1 then Without(old(lru), i) else old(lru)
      ensures ok ==>
              pages == old(pages)[i := if i in old(pages) then old(pages)[i].(refs := old(pages)[i].refs + 1)
                                  else Loaded(disk, i)]
    {
      hide PagesOk;
      hide LruOk;
      hide Seen;
      hide Loaded;
      if i in pages {
        var p := pages[i];
        PageAt(disk, pages, i);
        SeenCount(disk, pages, i, p.refs + 1);
        if p.refs == 1 {
          Busy(lru, pages, i, p.(refs := p.refs + 1));
          LruShorter(lru, pages, i);
          lru := Without(lru, i);
        } else {
          Still(lru, pages, i, p.(refs := p.refs + 1));
        }
        pages := pages[i := p.(refs := p.refs + 1)];
        return true;
      }
      if !memory || !InDevice(disk, i) {
        return false;
      }
      SeenLoad(disk, pages, i);
      LoadedTwice(disk, i);
      NewPage(lru, pages, i, Loaded(disk, i));
      pages := pages[i := Loaded(disk, i)];
      ok := true;
    }

    /** Gives a reference back; a page left idle joins the list, and the longest idle one may go. */
    method Put(i: Index)
      requires Valid() && i in pages && pages[i].refs >= 2
      modifies this
      ensures Valid() && View() == old(View())
      ensures Held(old(pages), pages, i)
      ensures lru == if old(pages)[i].refs > 2 then old(lru)
                     else if |old(lru)| < CACHE_MAX then old(lru) + [i] else old(lru)[1..] + [i]
      ensures i in pages && pages[i] == old(pages)[i].(refs := old(pages)[i].refs - 1)
    {
      hide PagesOk;
      hide LruOk;
      hide Seen;
      var p := pages[i];
      SeenCount(disk, pages, i, p.refs - 1);
      if p.refs == 2 {
        Idle(lru, pages, i, p.(refs := 1));
        pages := pages[i := p.(refs := 1)];
        lru := lru + [i];
        IdleCounted(old(lru), old(pages));
        if |lru| > CACHE_MAX {
          Shrink();
          DropFirst(old(lru), i);
        }
      } else {
        Still(lru, pages, i, p.(refs := p.refs - 1));
        pages := pages[i := p.(refs := p.refs - 1)];
      }
    }

    /** Writes the marked sectors of a page to the device. */
    method Writeback(i: Index)
      requires Sound() && i in pages
      modifies this`disk, this`pages
      ensures Sound() && View() == old(View()) && |disk| == |old(disk)|
      ensures pages == old(pages)[i := if old(pages)[i].dirty then Cleaned(old(pages)[i]) else old(pages)[i]]
      ensures i in pages && |pages[i].marks| == SECTORS && forall s: nat | s < SECTORS :: !pages[i].marks[s]
    {
      hide PagesOk;
      hide LruOk;
      hide Seen;
      PageAt(disk, pages, i);
      if !pages[i].dirty {
        assert pages == pages[i := pages[i]];
        return;
      }
      ghost var p := pages[i];
      for s := 0 to SECTORS
        invariant PagesOk(disk, pages) && View() == old(View()) && |disk| == |old(disk)|
        invariant i in pages && pages == old(pages)[i := p.(marks := pages[i].marks)]
        invariant |pages[i].marks| == SECTORS && forall t: nat | t < s :: !pages[i].marks[t]
      {
        PageAt(disk, pages, i);
        if pages[i].marks[s] {
          SeenClean(disk, pages, i, s);
          disk := disk[i * SECTORS + s := pages[i].data[s]];
          pages := pages[i := pages[i].(marks := pages[i].marks[s := false])];
        }
      }
      SeenFlag(disk, pages, i);
      Still(lru, old(pages), i, Cleaned(p));
      assert Cleaned(pages[i]) == Cleaned(p);
      pages := pages[i := Cleaned(pages[i])];
      assert pages == old(pages)[i := Cleaned(p)];
    }

    /** Evicts idle pages, longest idle first, until the list is short enough. */
    method Shrink()
      requires Sound()
      modifies this
      ensures Valid() && View() == old(View())
      ensures lru == if |old(lru)| > CACHE_MAX then old(lru)[|old(lru)| - CACHE_MAX..] else old(lru)
      ensures forall i :: i in old(pages) && (i in lru || i !in old(lru)) ==> i in pages && pages[i] == old(pages)[i]
      ensures forall i :: i in pages ==> i in old(pages)
    {
      hide PagesOk;
      hide LruOk;
      hide Seen;
      ghost var n := 0;
      while |lru| > CACHE_MAX
        invariant Sound() && View() == old(View())
        invariant 0 <= n <= |old(lru)| && lru == old(lru)[n..] && (n == 0 || n <= |old(lru)| - CACHE_MAX)
        invariant forall i :: i in old(pages) && (i in lru || i !in old(lru)) ==>
                  i in pages && pages[i] == old(pages)[i]
        invariant forall i :: i in pages ==> i in old(pages)
        decreases |lru|
      {
        var victim := lru[0];
        LruFirst(lru, pages);
        Evicted(lru, pages);
        Writeback(victim);
        Evicted(lru, pages);
        SeenDrop(disk, pages, victim);
        lru := lru[1..];
        pages := pages - {victim};
        n := n + 1;
      }
    }

    /** A client's write to a sector of a page it holds, with the mark that goes with it. */
    method WriteSector(i: Index, s: nat, v: Sector)
      requires Valid() && i in pages && pages[i].refs >= 2 && s < SECTORS
      modifies this`pages
      ensures Valid() && i * SECTORS + s < |disk| && View() == old(View())[i * SECTORS + s := v]
      ensures pages.Keys == old(pages).Keys &&
              forall j <- pages :: pages[j].refs == old(pages)[j].refs && (j != i ==> pages[j] == old(pages)[j])
    {
      hide PagesOk;
      hide LruOk;
      hide Seen;
      PageAt(disk, pages, i);
      SeenWrite(disk, pages, i, s, v);
      var p := pages[i];
      var p' := p.(data := p.data[s := v], marks := p.marks[s := true], dirty := true);
      Still(lru, pages, i, p');
      pages := pages[i := p'];
    }

    /** A client's write of a whole page, marking every sector. */
    method WritePage(i: Index, data: seq<Sector>)
      requires Valid() && i in pages && pages[i].refs >= 2 && |data| == SECTORS
      modifies this`pages
      ensures Valid() && InDevice(disk, i) && |View()| == |old(View())|
      ensures forall k: nat | k < |disk| :: View()[k] == if k / SECTORS == i then data[k % SECTORS] else old(View())[k]
      ensures pages.Keys == old(pages).Keys &&
              forall j <- pages :: pages[j].refs == old(pages)[j].refs && (j != i ==> pages[j] == old(pages)[j])
    {
      hide LruOk;
      PageAt(disk, pages, i);
      var p := pages[i];
      var p' := Page(data, seq(SECTORS, _ => true), true, p.refs);
      Still(lru, pages, i, p');
      assert PageOk(disk, p', i);
      pages := pages[i := p'];
      forall k: nat | k < |disk|
        ensures SeenAt(disk, pages, k) == if k / SECTORS == i then data[k % SECTORS] else SeenAt(disk, old(pages), k)
      {
      }
    }

    /** Reading a sector through the cache: take the page, look, give it back. */
    method ReadSector(k: nat, memory: bool) returns (ok: bool, v: Sector)
      requires Valid()
      modifies this
      ensures Valid() && View() == old(View())
      ensures ok ==> k < |View()| && v == View()[k]
      ensures ok == (k / SECTORS in old(pages) || (memory && (k / SECTORS + 1) * SECTORS <= |View()|))
      ensures ok ==> (k / SECTORS + 1) * SECTORS <= |View()|
    {
      CachedInside(disk, pages, k / SECTORS);
      hide PagesOk;
      hide LruOk;
      hide Seen;
      hide Loaded;
      var i := k / SECTORS;
      v := [];
      ok := Get(i, memory);
      if ok {
        LoadedTwiceIf(disk, i);
        SeenIs(disk, pages, k);
        GotRefs(disk, old(pages), i);
        v := pages[i].data[k % SECTORS];
        Put(i);
      }
    }

    /** Updating a sector through the cache: take the page, write and mark, give it back. */
    method UpdateSector(k: nat, v: Sector, memory: bool) returns (ok: bool)
      requires Valid()
      modifies this
      ensures Valid() && |View()| == |old(View())|
      ensures if ok then k < |View()| && View() == old(View())[k := v] else View() == old(View())
      ensures ok == (k / SECTORS in old(pages) || (memory && (k / SECTORS + 1) * SECTORS <= |View()|))
      ensures ok ==> (k / SECTORS + 1) * SECTORS <= |View()|
    {
      CachedInside(disk, pages, k / SECTORS);
      hide PagesOk;
      hide LruOk;
      hide Seen;
      hide Loaded;
      var i := k / SECTORS;
      ok := Get(i, memory);
      if ok {
        LoadedTwiceIf(disk, i);
        GotRefs(disk, old(pages), i);
        Parts(k);
        WriteSector(i, k % SECTORS, v);
        Put(i);
      }
    }

    /** Writes back every idle page; afterwards the disk alone shows what they held. */
    method SyncAll()
      requires Valid()
      modifies this`disk, this`pages
      ensures Valid() && View() == old(View()) && |disk| == |old(disk)|
      ensures pages.Keys == old(pages).Keys
      ensures forall i :: i in pages && i !in lru ==> pages[i] == old(pages)[i]
      ensures forall k: nat | k < |disk| && (k / SECTORS in pages ==> pages[k / SECTORS].refs == 1) ::
              disk[k] == old(View())[k]
    {
      hide PagesOk;
      hide LruOk;
      hide Seen;
      IdleCounted(lru, pages);
      for n := 0 to |lru|
        invariant Sound() && View() == old(View()) && |disk| == |old(disk)| && pages.Keys == old(pages).Keys
        invariant forall i :: i in pages && i !in lru ==> pages[i] == old(pages)[i]
        invariant forall m: nat | m < n :: Unmarked(pages, lru[m])
      {
        ghost var before := pages;
        Writeback(lru[n]);
        forall m: nat | m < n + 1 ensures Unmarked(pages, lru[m]) {
          assert m < n ==> Unmarked(before, lru[m]);
        }
      }
      Synced(disk, pages, lru);
    }
  }

  lemma LoadedTwiceIf(disk: seq<Sector>, i: Index)
    ensures InDevice(disk, i) ==> Loaded(disk, i).refs == 2
  {
  }

  lemma GotRefs(disk: seq<Sector>, pages: map<Index, Page>, i: Index)
    requires PagesOk(disk, pages)
    ensures i in pages ==> pages[i].refs >= 1
  {
    assert i in pages ==> PageOk(disk, pages[i], i);
  }

  lemma SeenIs(disk: seq<Sector>, pages: map<Index, Page>, k: nat)
    requires PagesOk(disk, pages) && k / SECTORS in pages
    ensures Whole(pages[k / SECTORS]) && k < |disk| && Seen(disk, pages)[k] == pages[k / SECTORS].data[k % SECTORS]
  {
    assert PageOk(disk, pages[k / SECTORS], k / SECTORS);
    Parts(k);
  }

  predicate Unmarked(pages: map<Index, Page>, i: Index) {
    i in pages && |pages[i].marks| == SECTORS && forall s: nat | s < SECTORS :: !pages[i].marks[s]
  }

  lemma Synced(disk: seq<Sector>, pages: map<Index, Page>, lru: seq<Index>)
    requires PagesOk(disk, pages) && LruOk(lru, pages) && forall m: nat | m < |lru| :: Unmarked(pages, lru[m])
    ensures forall k: nat | k < |disk| && (k / SECTORS in pages ==> pages[k / SECTORS].refs == 1) ::
            disk[k] == Seen(disk, pages)[k]
  {
    forall k: nat | k < |disk| && (k / SECTORS in pages ==> pages[k / SECTORS].refs == 1)
      ensures disk[k] == Seen(disk, pages)[k]
    {
      var i := k / SECTORS;
      Parts(k);
      if i in pages {
        assert i in lru;
        assert PageOk(disk, pages[i], i);
        assert Unmarked(pages, i);
        assert pages[i].data[k % SECTORS] == disk[i * SECTORS + k % SECTORS];
      }
    }
  }
}
