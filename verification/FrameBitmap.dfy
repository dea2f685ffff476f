// The frame bitmap of mm/pmm.c: one bit per physical frame, set when taken.
module FrameBitmap {
  import opened Base
  import opened Bits

  predicate FrameTaken(bits: seq<bv8>, f: nat)
    requires f < 8 * |bits|
  {
    Taken(bits[f / 8], f % 8)
  }

  predicate FrameFree(bits: seq<bv8>, f: nat) { f < 8 * |bits| && !FrameTaken(bits, f) }

  function FreeSet(bits: seq<bv8>): (s: set<nat>)
    ensures forall f :: f in s <==> FrameFree(bits, f)
  {
    set f: nat | f < 8 * |bits| && FrameFree(bits, f)
  }

  predicate InRun(f: nat, base: nat, count: nat) { base <= f < base + count }

  // The frames base, base + 1, ..., base + count - 1.
  function Run(base: nat, count: nat): (s: set<nat>)
    ensures forall f :: f in s <==> base <= f < base + count
  {
    set f: nat | base <= f < base + count && InRun(f, base, count)
  }

  // -------------------------------------------------------- single updates

  lemma AfterClear(bits: seq<bv8>, f: nat)
    requires f < 8 * |bits|
    ensures FreeSet(bits[f / 8 := ClearBit(bits[f / 8], f % 8)]) == FreeSet(bits) + {f}
  {
    var new_ := bits[f / 8 := ClearBit(bits[f / 8], f % 8)];
    forall g: nat ensures FrameFree(new_, g) <==> FrameFree(bits, g) || g == f {
      if g < 8 * |bits| { SameFrame(f, g); }
    }
  }

  lemma AfterSet(bits: seq<bv8>, f: nat)
    requires f < 8 * |bits|
    ensures FreeSet(bits[f / 8 := SetBit(bits[f / 8], f % 8)]) == FreeSet(bits) - {f}
  {
    var new_ := bits[f / 8 := SetBit(bits[f / 8], f % 8)];
    forall g: nat ensures FrameFree(new_, g) <==> FrameFree(bits, g) && g != f {
      if g < 8 * |bits| { SameFrame(f, g); }
    }
  }

  lemma SameFrame(f: nat, g: nat)
    ensures f == g <==> f / 8 == g / 8 && f % 8 == g % 8
  {
  }

  lemma AfterZeroByte(bits: seq<bv8>, i: nat)
    requires i < |bits|
    ensures FreeSet(bits[i := 0]) == FreeSet(bits) + Run(8 * i, 8)
  {
    EmptyByte();
    forall g: nat ensures FrameFree(bits[i := 0], g) <==> FrameFree(bits, g) || g in Run(8 * i, 8) {
    }
  }

  lemma AllTaken(bits: seq<bv8>)
    requires forall i :: 0 <= i < |bits| ==> bits[i] == 0xFF
    ensures FreeSet(bits) == {}
  {
    FullByte(0xFF);
  }

  // ------------------------------------------------------- clearing a range

  // The loops over the bits [from, to) of one byte.
  method ClearBits(bitmap: array<bv8>, byte: nat, from: nat, to: nat)
    requires from <= to <= 8 && (from < to ==> byte < bitmap.Length)
    modifies bitmap
    ensures FreeSet(bitmap[..]) == FreeSet(old(bitmap[..])) + Run(8 * byte + from, to - from)
  {
    for b := from to to
      invariant FreeSet(bitmap[..]) == FreeSet(old(bitmap[..])) + Run(8 * byte + from, b - from)
    {
      ghost var f := 8 * byte + b;
      assert f / 8 == byte && f % 8 == b;
      AfterClear(bitmap[..], f);
      ghost var was := bitmap[..];
      bitmap[byte] := ClearBit(bitmap[byte], b);
      assert bitmap[..] == was[byte := ClearBit(was[byte], b)];
      assert Run(8 * byte + from, b + 1 - from) == Run(8 * byte + from, b - from) + {f};
    }
  }

  method ClearBytes(bitmap: array<bv8>, from: nat, to: nat)
    requires from <= to <= bitmap.Length
    modifies bitmap
    ensures FreeSet(bitmap[..]) == FreeSet(old(bitmap[..])) + Run(8 * from, 8 * (to - from))
  {
    for i := from to to
      invariant FreeSet(bitmap[..]) == FreeSet(old(bitmap[..])) + Run(8 * from, 8 * (i - from))
    {
      AfterZeroByte(bitmap[..], i);
      ghost var was := bitmap[..];
      bitmap[i] := 0;
      assert bitmap[..] == was[i := 0];
      assert Run(8 * from, 8 * (i + 1 - from)) == Run(8 * from, 8 * (i - from)) + Run(8 * i, 8);
    }
  }

  // Frees the frames [sframe, eframe) byte by byte; eframe may be just past the bitmap.
  method ClearRange(bitmap: array<bv8>, sframe: nat, eframe: nat)
    requires sframe < eframe <= 8 * bitmap.Length
    modifies bitmap
    ensures FreeSet(bitmap[..]) == FreeSet(old(bitmap[..])) + Run(sframe, eframe - sframe)
  {
    var sbyte, ebyte := sframe / 8, eframe / 8;
    var sbit, ebit := sframe % 8, eframe % 8;
    if sbyte == ebyte {
      ClearBits(bitmap, sbyte, sbit, ebit);
    } else {
      ClearBits(bitmap, sbyte, sbit, 8);
      ClearBits(bitmap, ebyte, 0, ebit);
      ClearBytes(bitmap, sbyte + 1, ebyte);
      RunPieces(sframe, eframe);
    }
  }

  lemma RunPieces(s: nat, e: nat)
    requires s / 8 < e / 8
    ensures Run(s, e - s) ==
            Run(s, 8 - s % 8) + Run(8 * (e / 8), e % 8) + Run(8 * (s / 8 + 1), 8 * (e / 8 - (s / 8 + 1)))
  {
  }

  // ----------------------------------------------------------- allocation

  predicate FreeRun(bits: seq<bv8>, base: nat, count: nat) {
    forall f :: base <= f < base + count ==> FrameFree(bits, f)
  }

  // Searches byte by byte, then bit by bit, for the first free frame and takes it.
  // The physical address of the frame is returned, 0 if there is none.
  method AllocFrame(bitmap: array<bv8>) returns (paddr: nat)
    requires !FrameFree(bitmap[..], 0)
    modifies bitmap
    ensures paddr == 0 <==> FreeSet(old(bitmap[..])) == {}
    ensures paddr == 0 ==> bitmap[..] == old(bitmap[..])
    ensures paddr % PAGE_SIZE == 0
    ensures paddr != 0 ==>
              var f := paddr / PAGE_SIZE;
              && f in FreeSet(old(bitmap[..])) && (forall g :: g in FreeSet(old(bitmap[..])) ==> f <= g)
              && FreeSet(bitmap[..]) == FreeSet(old(bitmap[..])) - {f}
  {
    ghost var bits := bitmap[..];
    for i := 0 to bitmap.Length
      invariant bitmap[..] == bits
      invariant forall g: nat :: g < 8 * i ==> !FrameFree(bits, g)
    {
      if bitmap[i] == 0xFF {
        FullByte(0xFF);
        continue;
      }
      for b := 0 to 8
        invariant bitmap[..] == bits
        invariant forall g: nat :: g < 8 * i + b ==> !FrameFree(bits, g)
      {
        ghost var f := 8 * i + b;
        assert f / 8 == i && f % 8 == b;
        if Taken(bitmap[i], b) { continue; }
        AfterSet(bits, f);
        bitmap[i] := SetBit(bitmap[i], b);
        assert bitmap[..] == bits[i := SetBit(bits[i], b)];
        assert f in FreeSet(bits);
        return (i * 8 + b) * PAGE_SIZE;
      }
    }
    return 0;
  }

  method MarkTaken(bitmap: array<bv8>, start: nat, count: nat)
    requires start + count <= 8 * bitmap.Length
    modifies bitmap
    ensures FreeSet(bitmap[..]) == FreeSet(old(bitmap[..])) - Run(start, count)
  {
    for i := start to start + count
      invariant FreeSet(bitmap[..]) == FreeSet(old(bitmap[..])) - Run(start, i - start)
    {
      AfterSet(bitmap[..], i);
      ghost var was := bitmap[..];
      bitmap[i / 8] := SetBit(bitmap[i / 8], i % 8);
      assert bitmap[..] == was[i / 8 := SetBit(was[i / 8], i % 8)];
    }
  }

  // Probes for a run at frame 8 * idx + b; on failure the new position is
  // just behind the frame that stopped it.
  method CheckForContiguousFrames(bitmap: array<bv8>, count: nat, idx: nat, b: nat)
    returns (found: bool, idx': nat, b': nat)
    requires b < 8 && idx < bitmap.Length
    ensures found <==> FreeRun(bitmap[..], 8 * idx + b, count)
    ensures b' < 8
    ensures !found ==> 8 * idx + b < 8 * idx' + b'
    ensures !found ==> forall s :: 8 * idx + b <= s < 8 * idx' + b' ==> !FreeRun(bitmap[..], s, count)
  {
    var base := 8 * idx + b;
    var i := base;
    var left := count;
    while i / 8 < bitmap.Length && left > 0 && !Taken(bitmap[i / 8], i % 8)
      invariant base <= i && i + left == base + count
      invariant FreeRun(bitmap[..], base, i - base)
    {
      assert FrameFree(bitmap[..], i);
      i := i + 1;
      left := left - 1;
    }
    found := left == 0;
    if left != 0 {
      assert !FrameFree(bitmap[..], i);
      i := i + 1;
    }
    idx', b' := i / 8, i % 8;
  }

  // First fit for count frames, jumping past full bytes and past the frame
  // that stopped a probe; None is the panic on count 0, Some(0) is NULL.
  method AllocContiguousFrames(bitmap: array<bv8>, count: nat) returns (r: Option<nat>)
    requires !FrameFree(bitmap[..], 0)
    modifies bitmap
    ensures r.None? <==> count == 0
    ensures r.Some? ==> r.value % PAGE_SIZE == 0
    ensures r.Some? ==> (r.value == 0 <==> forall s :: !FreeRun(old(bitmap[..]), s, count))
    ensures r == Some(0) || r.None? ==> bitmap[..] == old(bitmap[..])
    ensures r.Some? && r.value != 0 ==>
              var s := r.value / PAGE_SIZE;
              && FreeRun(old(bitmap[..]), s, count)
              && (forall p :: 0 <= p < s ==> !FreeRun(old(bitmap[..]), p, count))
              && FreeSet(bitmap[..]) == FreeSet(old(bitmap[..])) - Run(s, count)
  {
    ghost var bits := bitmap[..];
    if count == 0 {
      return None;
    } else if count == 1 {
      var p := AllocFrame(bitmap);
      SingleRuns(bits);
      return Some(p);
    }
    var b: nat, idx: nat := 0, 0;
    while idx < bitmap.Length
      invariant b < 8 && bitmap[..] == bits
      invariant forall s: nat :: s < 8 * idx + b ==> !FreeRun(bits, s, count)
      decreases 8 * bitmap.Length - (8 * idx + b)
    {
      if bitmap[idx] == 0xFF {
        SkipFullByte(bits, idx, count);
        idx, b := idx + 1, 0;
        continue;
      }
      var baseIdx, baseB := idx, b;
      var found;
      found, idx, b := CheckForContiguousFrames(bitmap, count, idx, b);
      if found {
        ghost var s := 8 * baseIdx + baseB;
        assert FrameFree(bits, s) && FrameFree(bits, s + count - 1);
        MarkTaken(bitmap, baseIdx * 8 + baseB, count);
        return Some((baseIdx * 8 + baseB) * PAGE_SIZE);
      }
    }
    forall s: nat ensures !FreeRun(bits, s, count) {
      assert s >= 8 * |bits| ==> !FrameFree(bits, s);
    }
    return Some(0);
  }

  lemma SkipFullByte(bits: seq<bv8>, idx: nat, count: nat)
    requires idx < |bits| && bits[idx] == 0xFF && count > 0
    ensures forall s :: 8 * idx <= s < 8 * (idx + 1) ==> !FreeRun(bits, s, count)
  {
    FullByte(0xFF);
    forall s: nat | 8 * idx <= s < 8 * (idx + 1) ensures !FreeRun(bits, s, count) {
      assert !FrameFree(bits, s);
    }
  }

  lemma SingleRuns(bits: seq<bv8>)
    ensures forall s: nat :: FreeRun(bits, s, 1) <==> s in FreeSet(bits)
  {
    forall s: nat ensures FreeRun(bits, s, 1) <==> s in FreeSet(bits) {
      if FreeRun(bits, s, 1) { assert FrameFree(bits, s); }
    }
  }

  // -------------------------------------------------------------- freeing

  // false is the panic on a frame that is not taken.
  method FreeFrame(bitmap: array<bv8>, paddr: nat) returns (ok: bool)
    requires paddr / PAGE_SIZE < 8 * bitmap.Length
    modifies bitmap
    ensures ok <==> paddr / PAGE_SIZE !in FreeSet(old(bitmap[..]))
    ensures !ok ==> bitmap[..] == old(bitmap[..])
    ensures ok ==> FreeSet(bitmap[..]) == FreeSet(old(bitmap[..])) + {paddr / PAGE_SIZE}
  {
    var f := AlignDown(paddr) / PAGE_SIZE;
    assert f == paddr / PAGE_SIZE;
    if !Taken(bitmap[f / 8], f % 8) {
      return false;
    }
    AfterClear(bitmap[..], f);
    ghost var was := bitmap[..];
    bitmap[f / 8] := ClearBit(bitmap[f / 8], f % 8);
    assert bitmap[..] == was[f / 8 := ClearBit(was[f / 8], f % 8)];
    return true;
  }

  method FreeContiguousFrames(bitmap: array<bv8>, paddr: nat, count: nat)
    requires paddr / PAGE_SIZE + count <= 8 * bitmap.Length
    modifies bitmap
    ensures FreeSet(bitmap[..]) == FreeSet(old(bitmap[..])) + Run(paddr / PAGE_SIZE, count)
  {
    var pfn := paddr / PAGE_SIZE;
    for i := pfn to pfn + count
      invariant FreeSet(bitmap[..]) == FreeSet(old(bitmap[..])) + Run(pfn, i - pfn)
    {
      AfterClear(bitmap[..], i);
      ghost var was := bitmap[..];
      bitmap[i / 8] := ClearBit(bitmap[i / 8], i % 8);
      assert bitmap[..] == was[i / 8 := ClearBit(was[i / 8], i % 8)];
    }
  }
}
