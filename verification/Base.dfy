// Shared vocabulary: optional values, page geometry and alignment.
module Base {

  datatype Option<+T> = None | Some(value: T)

  const PAGE_SIZE: nat := 0x1000
  // Where the kernel sees physical memory (ID_VIRT_REGION_START).
  const ID_BASE: nat := 0xFFFF_8880_0000_0000
  // The memory map reports physical addresses, which x86-64 limits to 52 bits.
  const MAX_PHYS: nat := 0x10_0000_0000_0000

  function Min(a: int, b: int): int { if a <= b then a else b }

  function Max(a: int, b: int): int { if a >= b then a else b }

  // PAGE_ALIGN_DOWN and PAGE_ALIGN_UP on addresses far enough from 2^64 not to wrap.
  function AlignDown(x: nat): nat { x - x % PAGE_SIZE }

  function AlignUp(x: nat): nat { AlignDown(x + (PAGE_SIZE - 1)) }

  // ----------------------------------------------------- division by a variable

  function Quot(a: nat, d: nat): nat
    requires d > 0
  {
    a / d
  }

  function Rem(a: nat, d: nat): (r: nat)
    requires d > 0
    ensures r < d
  {
    a % d
  }

  lemma MulOrder(d: nat, x: int, y: int)
    requires d > 0 && x < y
    ensures d * x + d <= d * y
  {
    MulPositive(d, y - x - 1);
    assert d * (y - x - 1) == d * y - d * x - d;
  }

  lemma MulPositive(d: nat, k: nat)
    ensures d * k >= 0
  {
  }

  // Quotient and remainder are unique.
  lemma DivModUnique(a: nat, d: nat, q: nat, r: nat)
    requires d > 0 && a == d * q + r && r < d
    ensures a / d == q && a % d == r && Quot(a, d) == q && Rem(a, d) == r
  {
    var q', r' := a / d, a % d;
    assert a == d * q' + r' && 0 <= r' < d;
    if q < q' { MulOrder(d, q, q'); }
    if q' < q { MulOrder(d, q', q); }
  }

  lemma QuotRem(a: nat, d: nat)
    requires d > 0
    ensures a == d * Quot(a, d) + Rem(a, d)
  {
  }
}
