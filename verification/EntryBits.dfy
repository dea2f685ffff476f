// The 64-bit form of a page-table entry (arch/x86_64/include/asm/paging.h) and
// why reading back an entry gives what was packed into it.
module EntryBits {
  import opened PageTable

  const PRESENT: bv64 := 1
  const RW: bv64 := 2
  const USER: bv64 := 4
  const WRITE_THROUGH: bv64 := 8
  const CACHE_DISABLE: bv64 := 16
  const ACCESSED: bv64 := 32
  const PS: bv64 := 128
  const NO_EXECUTE: bv64 := 0x8000_0000_0000_0000
  const PADDR_MASK: bv64 := 0xF_FFFF_FFFF_F000

  function Flag(on: bool, f: bv64): bv64 { if on then f else 0 }

  // prot_flags as a caller builds it.
  function ProtBits(p: Prot): bv64 {
    Flag(p.rw, RW) | Flag(p.user, USER) | Flag(p.writeThrough, WRITE_THROUGH) | Flag(p.cacheDisable, CACHE_DISABLE)
    | Flag(p.accessed, ACCESSED) | Flag(p.noExecute, NO_EXECUTE)
  }

  // paddr | _PAGE_PRESENT | prot_flags | ps
  function Pack(paddr: bv64, p: Prot, huge: bool): bv64 { paddr | PRESENT | ProtBits(p) | Flag(huge, PS) }

  function Unpack(w: bv64): Prot {
    Prot(w & RW != 0, w & USER != 0, w & WRITE_THROUGH != 0, w & CACHE_DISABLE != 0, w & ACCESSED != 0,
         w & NO_EXECUTE != 0)
  }

  // The flag part of an entry.
  function FlagBits(p: Prot, huge: bool): bv64 { PRESENT | ProtBits(p) | Flag(huge, PS) }

  lemma FlagsReadBack(p: Prot, huge: bool)
    ensures var w := FlagBits(p, huge);
            && w & PRESENT != 0 && (w & PS != 0 <==> huge) && w & PADDR_MASK == 0 && Unpack(w) == p
  {
  }

  // An address and flags occupy different bits, so each reads back alone.
  lemma Separated(a: bv64, q: bv64)
    requires a & PADDR_MASK == a && q & PADDR_MASK == 0
    ensures (a | q) & PADDR_MASK == a
    ensures (a | q) & PRESENT == q & PRESENT && (a | q) & RW == q & RW && (a | q) & USER == q & USER
    ensures (a | q) & WRITE_THROUGH == q & WRITE_THROUGH && (a | q) & CACHE_DISABLE == q & CACHE_DISABLE
    ensures (a | q) & ACCESSED == q & ACCESSED && (a | q) & PS == q & PS && (a | q) & NO_EXECUTE == q & NO_EXECUTE
  {
  }

  lemma OrAssoc(a: bv64, b: bv64, c: bv64, d: bv64)
    ensures a | b | c | d == a | (b | c | d)
  {
  }

  // For a page-aligned physical address of at most 52 bits, reading an entry
  // gives back exactly what was packed into it.
  lemma PackUnpack(paddr: bv64, p: Prot, huge: bool)
    requires paddr & PADDR_MASK == paddr
    ensures var w := Pack(paddr, p, huge);
            && w & PRESENT != 0 && (w & PS != 0 <==> huge) && w & PADDR_MASK == paddr && Unpack(w) == p
  {
    var q := FlagBits(p, huge);
    OrAssoc(paddr, PRESENT, ProtBits(p), Flag(huge, PS));
    hide ProtBits, Flag;
    FlagsReadBack(p, huge);
    Separated(paddr, q);
  }

  // (x & (alignment - 1)) == 0 is divisibility by a power of two.
  lemma MaskIsRemainder(x: bv64)
    ensures x & (0x1000 - 1) == x % 0x1000
    ensures x & (0x80_0000 - 1) == x % 0x80_0000
    ensures x & (0x4000_0000 - 1) == x % 0x4000_0000
  {
  }

  // PGD_INDEX and its siblings: shifting and masking is quotient and remainder, as
  // in PageTable.Idx.
  lemma ShiftIsQuotient(va: bv64)
    ensures (va >> 39) & 0x1FF == (va / 0x80_0000_0000) % 512
    ensures (va >> 30) & 0x1FF == (va / 0x4000_0000) % 512
    ensures (va >> 21) & 0x1FF == (va / 0x20_0000) % 512
    ensures (va >> 12) & 0x1FF == (va / 0x1000) % 512
  {
  }

  // PAGE_ALIGN_DOWN and PAGE_ALIGN_UP are AlignDown and AlignUp of Base.
  lemma AlignIsRemainder(x: bv64)
    ensures x & !(0x1000 - 1) == x - x % 0x1000
    ensures (x + 0x1000 - 1) & !(0x1000 - 1) == (x + 0xFFF) - (x + 0xFFF) % 0x1000
  {
  }
}
