/** The 64-bit words of the translation tables: leaf and table descriptors. */
module PteBits {
  const PG_READ: bv32 := 0x1
  const PG_WRITE: bv32 := 0x2
  const PG_EXEC: bv32 := 0x4
  const PG_USER: bv32 := 0x8
  const PG_NOCACHE: bv32 := 0x20

  const DESC_VALID: bv64 := 0x1
  const DESC_TABLE: bv64 := 0x3
  const DESC_BLOCK: bv64 := 0x1
  const ATTR_MASK: bv64 := 0x1C
  const ATTR_WB: bv64 := 0x4
  const ATTR_NC: bv64 := 0x8
  const AP1_USER: bv64 := 0x40
  const AP2_RO: bv64 := 0x80
  const SH_IS: bv64 := 0x300
  const AF: bv64 := 0x400
  const NG: bv64 := 0x800
  const PXN: bv64 := 0x20_0000_0000_0000
  const UXN: bv64 := 0x40_0000_0000_0000
  const ADDR_MASK: bv64 := 0xFFFF_FFFF_F000

  /** The attribute bits of a leaf with the given protection. */
  function Attributes(prot: bv32): bv64 {
    var p := DESC_TABLE | AF | SH_IS | ATTR_WB;
    var p := if prot & PG_WRITE == 0 then p | AP2_RO else p;
    var p := if prot & PG_USER != 0 then p | AP1_USER | NG else p;
    var p := if prot & PG_EXEC == 0 then p | PXN | UXN else p;
    if prot & PG_NOCACHE != 0 then (p & !ATTR_MASK) | ATTR_NC else p
  }

  function LeafWord(pa: bv64, prot: bv32): bv64 { (pa & ADDR_MASK) | Attributes(prot) }

  function TableWord(pa: bv64): bv64 { pa | DESC_TABLE }

  predicate IsTable(word: bv64) { word & 0x3 == DESC_TABLE }

  predicate IsBlock(word: bv64) { word & 0x3 == DESC_BLOCK }

  predicate IsValid(word: bv64) { word & DESC_VALID != 0 }

  function Address(word: bv64): bv64 { word & ADDR_MASK }

  function Protection(word: bv64): bv32 {
    if !IsValid(word) then 0
    else
      PG_READ |
      (if word & AP2_RO == 0 then PG_WRITE else 0) |
      (if word & AP1_USER != 0 then PG_USER else 0) |
      (if word & PXN == 0 then PG_EXEC else 0)
  }

  function MadeReadOnly(word: bv64): bv64 { word | AP2_RO }

  /** Reading a leaf gives back its frame and every protection bit but the cache and global hints. */
  lemma LeafRoundTrip(pa: bv64, prot: bv32)
    ensures IsValid(LeafWord(pa, prot)) && !IsBlock(LeafWord(pa, prot))
    ensures Address(LeafWord(pa, prot)) == Address(pa)
    ensures Protection(LeafWord(pa, prot)) == PG_READ | (prot & (PG_WRITE | PG_USER | PG_EXEC))
  {
    AttributeBits(prot);
    assert Address(LeafWord(pa, prot)) == Address(pa);
  }

  lemma AttributeBits(prot: bv32)
    ensures Attributes(prot) & ADDR_MASK == 0 && Attributes(prot) & 0x3 == DESC_TABLE
    ensures Attributes(prot) & AP2_RO == 0 <==> prot & PG_WRITE != 0
    ensures Attributes(prot) & AP1_USER != 0 <==> prot & PG_USER != 0
    ensures Attributes(prot) & PXN == 0 <==> prot & PG_EXEC != 0
  {
  }

  /** The leaf bit by bit, as the processor reads it; no other bit is set. */
  lemma LeafBits(pa: bv64, prot: bv32)
    ensures var w := LeafWord(pa, prot);
            w & 0x3 == 0x3 && w & 0x300 == 0x300 && w & 0x400 == 0x400 &&
            w & 0xFFFF_FFFF_F000 == pa & 0xFFFF_FFFF_F000
    ensures var w := LeafWord(pa, prot);
            (w & 0x80 == 0 <==> prot & 0x2 != 0) && (w & 0x40 != 0 <==> prot & 0x8 != 0) &&
            (w & 0x800 != 0 <==> prot & 0x8 != 0)
    ensures var w := LeafWord(pa, prot);
            (w & 0x20_0000_0000_0000 == 0 <==> prot & 0x4 != 0) && (w & 0x40_0000_0000_0000 == 0 <==> prot & 0x4 != 0)
    ensures LeafWord(pa, prot) & 0x1C == (if prot & 0x20 != 0 then 0x8 else 0x4)
    ensures LeafWord(pa, prot) & 0xFF9F_0000_0000_0020 == 0
  {
    hide LeafWord;
    AttributeValues(prot);
    LeafParts(pa, prot);
  }

  lemma LeafParts(pa: bv64, prot: bv32)
    requires Attributes(prot) & 0xFFFF_FFFF_F000 == 0
    ensures LeafWord(pa, prot) & 0xFFFF_FFFF_F000 == pa & 0xFFFF_FFFF_F000
    ensures LeafWord(pa, prot) & 0xFFFF_0000_0000_0FFF == Attributes(prot) & 0xFFFF_0000_0000_0FFF
  {
    hide Attributes;
  }

  lemma AttributeValues(prot: bv32)
    ensures var w := Attributes(prot);
            w & 0x3 == 0x3 && w & 0x300 == 0x300 && w & 0x400 == 0x400 && w & 0xFFFF_FFFF_F000 == 0
  {
  }

  /** Withdrawing write permission keeps the frame and the other permissions. */
  lemma ReadOnlyKeeps(word: bv64)
    requires IsValid(word)
    ensures IsValid(MadeReadOnly(word)) && Address(MadeReadOnly(word)) == Address(word)
    ensures Protection(MadeReadOnly(word)) == Protection(word) & !PG_WRITE
    ensures MadeReadOnly(word) & 0xFFFF_FFFF_FFFF_FF7F == word & 0xFFFF_FFFF_FFFF_FF7F
  {
    ReadOnlyBits(word);
    ReadOnlyRest(word);
    hide MadeReadOnly;
    var u: bv32 := if word & AP1_USER != 0 then PG_USER else 0;
    var x: bv32 := if word & PXN == 0 then PG_EXEC else 0;
    assert (PG_READ | PG_WRITE | u | x) & !PG_WRITE == PG_READ | 0 | u | x;
    assert (PG_READ | 0 | u | x) & !PG_WRITE == PG_READ | 0 | u | x;
  }

  lemma ReadOnlyRest(word: bv64)
    ensures MadeReadOnly(word) & 0xFFFF_FFFF_FFFF_FF7F == word & 0xFFFF_FFFF_FFFF_FF7F
  {
  }

  lemma ReadOnlyBits(word: bv64)
    ensures var w := MadeReadOnly(word);
            w & DESC_VALID == word & DESC_VALID && w & ADDR_MASK == word & ADDR_MASK && w & AP2_RO != 0 &&
            w & AP1_USER == word & AP1_USER && w & PXN == word & PXN
  {
  }

  lemma TableRoundTrip(pa: bv64)
    requires Address(pa) == pa
    ensures IsTable(TableWord(pa)) && !IsBlock(TableWord(pa)) && Address(TableWord(pa)) == pa
    ensures !IsTable(0) && !IsBlock(0) && !IsValid(0)
  {
  }
}
