// How mmu_map_range cuts a range into 1 GiB, middle-sized and 4 KiB chunks.
module PageSplit {
  import opened Base
  import opened PageTable

  const GIGA: nat := 0x4000_0000
  const PMD_SPAN: nat := 0x20_0000
  // The value of PAGE_SIZE_2M as written: 4096 * 1024 * 2.
  const MIDDLE_AS_WRITTEN: nat := 0x80_0000

  // The chunk size of the middle branch is a parameter; a leaf it writes spans PMD_SPAN.
  predicate MiddleOk(mid: nat) { mid == PMD_SPAN || mid == MIDDLE_AS_WRITTEN }

  predicate Aligned(v: nat, p: nat, len: nat) {
    v % PAGE_SIZE == 0 && p % PAGE_SIZE == 0 && len % PAGE_SIZE == 0
  }

  // The level of the entry written for the next chunk: 1, 2 or 3.
  function ChunkLevel(v: nat, p: nat, len: nat, has1g: bool, mid: nat): (l: nat)
    requires MiddleOk(mid)
    ensures 1 <= l <= 3
  {
    if has1g && v % GIGA == 0 && p % GIGA == 0 && len >= GIGA then 1
    else if v % mid == 0 && p % mid == 0 && len >= mid then 2
    else 3
  }

  function ChunkSize(l: nat, mid: nat): nat { if l == 1 then GIGA else if l == 2 then mid else PAGE_SIZE }

  lemma SmallChunk(v: nat, p: nat, len: nat, has1g: bool, mid: nat)
    requires MiddleOk(mid) && len < PMD_SPAN
    ensures ChunkLevel(v, p, len, has1g, mid) == 3
  {
  }

  lemma ChunkFits(v: nat, p: nat, len: nat, has1g: bool, mid: nat)
    requires MiddleOk(mid) && Aligned(v, p, len) && len > 0
    ensures var l := ChunkLevel(v, p, len, has1g, mid);
            var c := ChunkSize(l, mid);
            && Span(l) <= c <= len && Aligned(v + c, p + c, len - c)
            && v % Span(l) == 0 && p % Span(l) == 0
  {
    var l := ChunkLevel(v, p, len, has1g, mid);
    PageStep(v, p, len, ChunkSize(l, mid));
    if l == 2 {
      MiddleAligned(v, mid);
      MiddleAligned(p, mid);
    }
  }

  lemma PageStep(v: nat, p: nat, len: nat, c: nat)
    requires Aligned(v, p, len) && c % PAGE_SIZE == 0 && c <= len
    ensures Aligned(v + c, p + c, len - c)
  {
  }

  lemma MiddleAligned(v: nat, mid: nat)
    requires MiddleOk(mid) && v % mid == 0
    ensures v % PMD_SPAN == 0
  {
  }

  // The physical address that the chunks map vb to; None if they leave it alone.
  function Split(v: nat, p: nat, len: nat, has1g: bool, mid: nat, vb: nat): (r: Option<nat>)
    requires MiddleOk(mid) && Aligned(v, p, len)
    decreases len
  {
    if len == 0 then None
    else
      ChunkFits(v, p, len, has1g, mid);
      var l := ChunkLevel(v, p, len, has1g, mid);
      var c := ChunkSize(l, mid);
      if v <= vb < v + Span(l) then Some(p + (vb - v))
      else Split(v + c, p + c, len - c, has1g, mid, vb)
  }

  // The plain loop of 4 KiB mappings.
  function Pages(v: nat, p: nat, len: nat, vb: nat): (r: Option<nat>)
    requires Aligned(v, p, len)
    decreases len
  {
    if len == 0 then None
    else if v <= vb < v + PAGE_SIZE then Some(p + (vb - v))
    else Pages(v + PAGE_SIZE, p + PAGE_SIZE, len - PAGE_SIZE, vb)
  }

  lemma {:induction false} PagesCover(v: nat, p: nat, len: nat, vb: nat)
    requires Aligned(v, p, len)
    ensures Pages(v, p, len, vb) == if v <= vb < v + len then Some(p + (vb - v)) else None
    decreases len
  {
    if len > 0 && !(v <= vb < v + PAGE_SIZE) { PagesCover(v + PAGE_SIZE, p + PAGE_SIZE, len - PAGE_SIZE, vb); }
  }

  // Whatever the middle chunk, only addresses of the range are mapped, each to its counterpart.
  lemma {:induction false} SplitInside(v: nat, p: nat, len: nat, has1g: bool, mid: nat, vb: nat)
    requires MiddleOk(mid) && Aligned(v, p, len)
    ensures var r := Split(v, p, len, has1g, mid, vb); r.Some? ==> v <= vb < v + len && r.value == p + (vb - v)
    decreases len
  {
    hide Aligned, ChunkLevel;
    if len > 0 {
      ChunkFits(v, p, len, has1g, mid);
      var c := ChunkSize(ChunkLevel(v, p, len, has1g, mid), mid);
      SplitInside(v + c, p + c, len - c, has1g, mid, vb);
    }
  }

  // One chunk, and what it leaves to the others.
  lemma SplitStep(v: nat, p: nat, len: nat, has1g: bool, mid: nat, vb: nat)
    requires MiddleOk(mid) && Aligned(v, p, len) && len > 0
    ensures var l := ChunkLevel(v, p, len, has1g, mid);
            var c := ChunkSize(l, mid);
            && Span(l) <= c <= len && Aligned(v + c, p + c, len - c)
            && (v <= vb < v + c ==> Split(v + c, p + c, len - c, has1g, mid, vb) == None)
            && Split(v, p, len, has1g, mid, vb) ==
               if v <= vb < v + Span(l) then Some(p + (vb - v)) else Split(v + c, p + c, len - c, has1g, mid, vb)
  {
    ChunkFits(v, p, len, has1g, mid);
    hide Aligned, ChunkLevel;
    var c := ChunkSize(ChunkLevel(v, p, len, has1g, mid), mid);
    SplitInside(v + c, p + c, len - c, has1g, mid, vb);
  }

  // When every chunk equals the span of its entry, the split maps what the plain loop maps.
  lemma {:induction false} SplitIsPages(v: nat, p: nat, len: nat, has1g: bool, vb: nat)
    requires Aligned(v, p, len)
    ensures Split(v, p, len, has1g, PMD_SPAN, vb) == Pages(v, p, len, vb)
    decreases len
  {
    PagesCover(v, p, len, vb);
    if len > 0 {
      ChunkFits(v, p, len, has1g, PMD_SPAN);
      var l := ChunkLevel(v, p, len, has1g, PMD_SPAN);
      var c := ChunkSize(l, PMD_SPAN);
      assert c == Span(l);
      SplitIsPages(v + c, p + c, len - c, has1g, vb);
      PagesCover(v + c, p + c, len - c, vb);
    }
  }

  // ------------------------------------------------ the split as written

  function BlockStart(vb: nat, size: nat): (c: nat)
    requires size > 0
    ensures c <= vb < c + size
  {
    vb - vb % size
  }

  // A block at c fits the range and its physical counterpart is aligned.
  predicate Fits(v: nat, p: nat, len: nat, size: nat, c: nat)
    requires size > 0
  {
    v <= c && c + size <= v + len && (p + (c - v)) % size == 0
  }

  // vb lies in an aligned block of the given size that fits the range.
  predicate InBlock(v: nat, p: nat, len: nat, size: nat, vb: nat)
    requires size > 0
  {
    Fits(v, p, len, size, BlockStart(vb, size))
  }

  // Bytes of the range that no entry covers when the middle chunk is 8 MiB.
  predicate Missed(v: nat, p: nat, len: nat, has1g: bool, vb: nat) {
    && InBlock(v, p, len, MIDDLE_AS_WRITTEN, vb) && vb % MIDDLE_AS_WRITTEN >= PMD_SPAN
    && !(has1g && InBlock(v, p, len, GIGA, vb))
  }

  // Skipping s bytes keeps every block but those that start in the skipped part.
  lemma FitsStep(v: nat, p: nat, len: nat, size: nat, s: nat, c: nat)
    requires size > 0 && s <= len
    ensures Fits(v + s, p + s, len - s, size, c) <==> Fits(v, p, len, size, c) && c >= v + s
  {
    if c >= v + s {
      assert p + s + (c - (v + s)) == p + (c - v);
    }
  }

  // Multiples of the larger sizes are multiples of the smaller ones.
  lemma GigaMultiple(q: nat)
    ensures (GIGA * q) % MIDDLE_AS_WRITTEN == 0 && (GIGA * q) % PAGE_SIZE == 0
  {
    assert GIGA * q == MIDDLE_AS_WRITTEN * (128 * q);
    MiddleMultiple(128 * q);
  }

  lemma MiddleMultiple(q: nat)
    ensures (MIDDLE_AS_WRITTEN * q) % PAGE_SIZE == 0
  {
    assert MIDDLE_AS_WRITTEN * q == PAGE_SIZE * (0x800 * q);
  }

  lemma OnlyStart(v: nat, s: nat, vb: nat, size: nat)
    requires (size == GIGA && s == MIDDLE_AS_WRITTEN) || (s == PAGE_SIZE && (size == GIGA || size == MIDDLE_AS_WRITTEN))
    requires v % s == 0
    ensures var c := BlockStart(vb, size); v <= c < v + s ==> c == v && c % size == 0
  {
    if size == GIGA {
      assert BlockStart(vb, GIGA) == GIGA * (vb / GIGA);
      GigaMultiple(vb / GIGA);
      if s == PAGE_SIZE { NextMultiple(v, BlockStart(vb, GIGA)); } else { NextMiddle(v, BlockStart(vb, GIGA)); }
    } else {
      assert BlockStart(vb, MIDDLE_AS_WRITTEN) == MIDDLE_AS_WRITTEN * (vb / MIDDLE_AS_WRITTEN);
      MiddleMultiple(vb / MIDDLE_AS_WRITTEN);
      NextMultiple(v, BlockStart(vb, MIDDLE_AS_WRITTEN));
    }
  }

  lemma NextMultiple(v: nat, c: nat)
    requires v % PAGE_SIZE == 0 && c % PAGE_SIZE == 0
    ensures v <= c < v + PAGE_SIZE ==> c == v
  {
  }

  lemma NextMiddle(v: nat, c: nat)
    requires v % MIDDLE_AS_WRITTEN == 0 && c % MIDDLE_AS_WRITTEN == 0
    ensures v <= c < v + MIDDLE_AS_WRITTEN ==> c == v
  {
  }

  // A step of s bytes that did not start an aligned block of the larger size.
  lemma SmallStep(v: nat, p: nat, len: nat, size: nat, s: nat, vb: nat)
    requires (size == GIGA && s == MIDDLE_AS_WRITTEN) || (s == PAGE_SIZE && (size == GIGA || size == MIDDLE_AS_WRITTEN))
    requires v % s == 0 && s <= len && v <= vb
    requires !(v % size == 0 && p % size == 0 && len >= size)
    ensures InBlock(v, p, len, size, vb) <==> InBlock(v + s, p + s, len - s, size, vb)
    ensures vb < v + s ==> !InBlock(v, p, len, size, vb)
  {
    OnlyStart(v, s, vb, size);
    FitsStep(v, p, len, size, s, BlockStart(vb, size));
  }

  // How one chunk relates to the bytes missed.
  lemma MissedStep(v: nat, p: nat, len: nat, has1g: bool, vb: nat)
    requires Aligned(v, p, len) && len > 0 && v <= vb
    ensures var l := ChunkLevel(v, p, len, has1g, MIDDLE_AS_WRITTEN);
            var c := ChunkSize(l, MIDDLE_AS_WRITTEN);
            && (vb < v + c ==> (Missed(v, p, len, has1g, vb) <==> vb >= v + Span(l)))
            && (vb >= v + c && c <= len ==> (Missed(v, p, len, has1g, vb) <==>
                Missed(v + c, p + c, len - c, has1g, vb)))
  {
    hide Fits, BlockStart;
    var l := ChunkLevel(v, p, len, has1g, MIDDLE_AS_WRITTEN);
    if l == 1 {
      BlockStep(v, p, len, GIGA, GIGA, vb);
      BlockStep(v, p, len, GIGA, MIDDLE_AS_WRITTEN, vb);
    } else if l == 2 {
      if has1g { SmallStep(v, p, len, GIGA, MIDDLE_AS_WRITTEN, vb); }
      BlockStep(v, p, len, MIDDLE_AS_WRITTEN, MIDDLE_AS_WRITTEN, vb);
      OffsetInBlock(v, vb);
    } else {
      if has1g { SmallStep(v, p, len, GIGA, PAGE_SIZE, vb); }
      SmallStep(v, p, len, MIDDLE_AS_WRITTEN, PAGE_SIZE, vb);
    }
  }

  lemma OffsetInBlock(v: nat, vb: nat)
    requires v % MIDDLE_AS_WRITTEN == 0 && v <= vb
    ensures vb < v + MIDDLE_AS_WRITTEN ==> vb % MIDDLE_AS_WRITTEN == vb - v
  {
  }

  // The exact set of addresses mapped by the split as written.
  lemma {:induction false} SplitAsWritten(v: nat, p: nat, len: nat, has1g: bool, vb: nat)
    requires Aligned(v, p, len)
    ensures Split(v, p, len, has1g, MIDDLE_AS_WRITTEN, vb) ==
            if v <= vb < v + len && !Missed(v, p, len, has1g, vb) then Some(p + (vb - v)) else None
    decreases len
  {
    hide Missed, Aligned, ChunkLevel;
    SplitInside(v, p, len, has1g, MIDDLE_AS_WRITTEN, vb);
    if len > 0 && v <= vb {
      ChunkFits(v, p, len, has1g, MIDDLE_AS_WRITTEN);
      var l := ChunkLevel(v, p, len, has1g, MIDDLE_AS_WRITTEN);
      var c := ChunkSize(l, MIDDLE_AS_WRITTEN);
      MissedStep(v, p, len, has1g, vb);
      SplitAsWritten(v + c, p + c, len - c, has1g, vb);
    }
  }

  // A step of one aligned block of the given size.
  lemma BlockStep(v: nat, p: nat, len: nat, s: nat, size: nat, vb: nat)
    requires (s == GIGA || s == MIDDLE_AS_WRITTEN) && (size == s || (s == GIGA && size == MIDDLE_AS_WRITTEN))
    requires v % s == 0 && p % s == 0 && len >= s && v <= vb
    ensures vb < v + s && s == size ==> BlockStart(vb, size) == v && InBlock(v, p, len, size, vb)
    ensures vb >= v + s ==> (InBlock(v, p, len, size, vb) <==> InBlock(v + s, p + s, len - s, size, vb))
  {
    StepMultiples(v, s, size);
    FitsStep(v, p, len, size, s, BlockStart(vb, size));
    StartAtMultiple(v, size, vb);
    if vb >= v + s { StartAtMultiple(v + s, size, vb); }
    hide BlockStart;
  }

  lemma StepMultiples(v: nat, s: nat, size: nat)
    requires (s == GIGA || s == MIDDLE_AS_WRITTEN) && (size == s || (s == GIGA && size == MIDDLE_AS_WRITTEN))
    requires v % s == 0
    ensures v % size == 0 && (v + s) % size == 0
  {
    if s == GIGA {
      var q := v / GIGA;
      GigaMultiple(q);
      GigaMultiple(q + 1);
      assert v == GIGA * q && v + GIGA == GIGA * (q + 1);
      DivModUnique(v + GIGA, GIGA, q + 1, 0);
    } else {
      DivModUnique(v + MIDDLE_AS_WRITTEN, MIDDLE_AS_WRITTEN, v / MIDDLE_AS_WRITTEN + 1, 0);
    }
  }

  // The block of an address at or above a multiple does not start below it.
  lemma StartAtMultiple(v: nat, size: nat, vb: nat)
    requires (size == GIGA || size == MIDDLE_AS_WRITTEN) && v % size == 0 && v <= vb
    ensures v <= BlockStart(vb, size) && (vb < v + size ==> BlockStart(vb, size) == v)
  {
  }

  // An aligned 8 MiB block of the range that no 1 GiB entry takes.
  predicate LosesBlock(v: nat, p: nat, len: nat, has1g: bool, c: nat) {
    c % MIDDLE_AS_WRITTEN == 0 && InBlock(v, p, len, MIDDLE_AS_WRITTEN, c) && !(has1g && InBlock(v, p, len, GIGA, c))
  }

  // As written, a range is mapped completely exactly when it has no such block.
  lemma CompleteAsWritten(v: nat, p: nat, len: nat, has1g: bool)
    requires Aligned(v, p, len)
    ensures (forall vb :: v <= vb < v + len ==> Split(v, p, len, has1g, MIDDLE_AS_WRITTEN, vb).Some?) <==>
            (forall c :: v <= c < v + len ==> !LosesBlock(v, p, len, has1g, c))
  {
    if c :| v <= c < v + len && LosesBlock(v, p, len, has1g, c) {
      var vb := c + PMD_SPAN;
      SameBlocks(v, p, len, c, vb);
      SplitAsWritten(v, p, len, has1g, vb);
      assert v <= vb < v + len && Split(v, p, len, has1g, MIDDLE_AS_WRITTEN, vb).None?;
    } else {
      forall vb | v <= vb < v + len ensures Split(v, p, len, has1g, MIDDLE_AS_WRITTEN, vb).Some? {
        SplitAsWritten(v, p, len, has1g, vb);
        var c := BlockStart(vb, MIDDLE_AS_WRITTEN);
        StartIsMultiple(vb);
        SameBlocks(v, p, len, c, vb);
        assert Missed(v, p, len, has1g, vb) ==> v <= c < v + len && LosesBlock(v, p, len, has1g, c);
      }
    }
  }

  lemma StartIsMultiple(vb: nat)
    ensures BlockStart(vb, MIDDLE_AS_WRITTEN) % MIDDLE_AS_WRITTEN == 0
  {
  }

  lemma SameBlocks(v: nat, p: nat, len: nat, c: nat, vb: nat)
    requires c % MIDDLE_AS_WRITTEN == 0 && c <= vb < c + MIDDLE_AS_WRITTEN
    ensures vb % MIDDLE_AS_WRITTEN == vb - c
    ensures InBlock(v, p, len, MIDDLE_AS_WRITTEN, vb) <==> InBlock(v, p, len, MIDDLE_AS_WRITTEN, c)
    ensures InBlock(v, p, len, GIGA, vb) <==> InBlock(v, p, len, GIGA, c)
  {
    StartAtMultiple(c, MIDDLE_AS_WRITTEN, c);
    StartAtMultiple(c, MIDDLE_AS_WRITTEN, vb);
    MiddleRemainder(c, vb);
    SameGiga(c, vb);
    hide BlockStart, Fits;
  }

  lemma MiddleRemainder(c: nat, vb: nat)
    requires c % MIDDLE_AS_WRITTEN == 0 && c <= vb < c + MIDDLE_AS_WRITTEN
    ensures vb % MIDDLE_AS_WRITTEN == vb - c
  {
    DivModUnique(vb, MIDDLE_AS_WRITTEN, c / MIDDLE_AS_WRITTEN, vb - c);
  }

  // An aligned 8 MiB block lies in one block of 1 GiB.
  lemma SameGiga(c: nat, vb: nat)
    requires c % MIDDLE_AS_WRITTEN == 0 && c <= vb < c + MIDDLE_AS_WRITTEN
    ensures BlockStart(vb, GIGA) == BlockStart(c, GIGA)
  {
    var k, q, r := c / MIDDLE_AS_WRITTEN, c / GIGA, c % GIGA;
    MiddleInGiga(k, q, r);
    DivModUnique(vb, GIGA, q, r + (vb - c));
  }

  lemma MiddleInGiga(k: nat, q: nat, r: nat)
    requires MIDDLE_AS_WRITTEN * k == GIGA * q + r && r < GIGA
    ensures r + MIDDLE_AS_WRITTEN <= GIGA
  {
    assert r == MIDDLE_AS_WRITTEN * (k - 128 * q);
    assert k - 128 * q < 128;
  }

  // 16 MiB mapped at 0 without 1 GiB pages: the byte at 2 MiB is left out.
  lemma AsWrittenLeavesGaps()
    ensures Split(0, 0, 0x100_0000, false, MIDDLE_AS_WRITTEN, 0x20_0000) == None
  {
    SplitAsWritten(0, 0, 0x100_0000, false, 0x20_0000);
  }
}
