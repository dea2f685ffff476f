// Physical frames: the early bump allocator of mm/early_pmm.c and its
// replacement, the bitmap allocator of mm/pmm.c.
module Frames {
  import opened Base
  import opened MemoryMap
  import opened FrameBitmap

  const MIN_USABLE: nat := 0x10_0000
  const FRAME_LIMIT: nat := MAX_PHYS / PAGE_SIZE
  const KERNEL_START_PHYS: nat := 0x100_0000
  const ENOMEM: int := 12
  const EINVAL: int := 22

  lemma AlignUpLeast(x: nat, f: nat)
    ensures f * PAGE_SIZE >= x <==> f * PAGE_SIZE >= AlignUp(x)
  {
  }

  lemma AlignUpMonotone(x: nat, y: nat)
    requires x <= y
    ensures x <= AlignUp(x) <= AlignUp(y) && AlignUp(x) % PAGE_SIZE == 0
  {
  }

  // --------------------------------------------------- the frames on offer

  // Frame f lies wholly inside usable region r.
  predicate Inside(r: Region, f: nat) {
    r.kind == Usable && r.start <= f * PAGE_SIZE && (f + 1) * PAGE_SIZE <= r.end
  }

  predicate InUsable(clean: seq<Region>, f: nat) {
    exists i :: 0 <= i < |clean| && Inside(clean[i], f)
  }

  // The first n frames include every usable one.
  ghost predicate Reaches(clean: seq<Region>, n: nat) { forall f: nat :: InUsable(clean, f) ==> f < n }

  predicate OnOffer(clean: seq<Region>, cursor: nat, f: nat) {
    f * PAGE_SIZE >= MIN_USABLE && f * PAGE_SIZE >= cursor && InUsable(clean, f)
  }

  // What is left for the bump allocator at or above the cursor.
  function Offer(clean: seq<Region>, cursor: nat): (s: set<nat>)
    ensures forall f :: f in s ==> OnOffer(clean, cursor, f)
  {
    set f: nat | f < FRAME_LIMIT && OnOffer(clean, cursor, f)
  }

  ghost predicate MapOk(clean: seq<Region>) {
    Clean(clean) && forall i :: 0 <= i < |clean| ==> clean[i].end <= MAX_PHYS
  }

  lemma OfferIs(clean: seq<Region>, cursor: nat, f: nat)
    requires MapOk(clean)
    ensures f in Offer(clean, cursor) <==> OnOffer(clean, cursor, f)
  {
    if OnOffer(clean, cursor, f) {
      var i :| 0 <= i < |clean| && Inside(clean[i], f);
      assert (f + 1) * PAGE_SIZE <= MAX_PHYS;
    }
  }

  predicate Skipped(r: Region) { r.kind != Usable || r.end <= MIN_USABLE }

  function FirstFrame(r: Region): nat { AlignUp(Max(MIN_USABLE, r.start)) }

  // The cursor stands in region idx.
  ghost predicate CursorIn(clean: seq<Region>, idx: int, cursor: nat) {
    && 0 <= idx < |clean| && !Skipped(clean[idx])
    && cursor % PAGE_SIZE == 0 && FirstFrame(clean[idx]) <= cursor
    && (cursor == FirstFrame(clean[idx]) || cursor <= clean[idx].end)
  }

  // Frames on offer lie in the cursor's region or a later one.
  lemma OfferRegion(clean: seq<Region>, idx: int, cursor: nat, f: nat, i: nat)
    requires MapOk(clean) && CursorIn(clean, idx, cursor)
    requires f * PAGE_SIZE >= MIN_USABLE && f * PAGE_SIZE >= cursor
    requires i < |clean| && Inside(clean[i], f)
    ensures i >= idx && !Skipped(clean[i])
    ensures i == idx ==> cursor + PAGE_SIZE <= clean[idx].end
  {
    AlignUpMonotone(Max(MIN_USABLE, clean[idx].start), Max(MIN_USABLE, clean[idx].start));
  }

  // A frame of region idx or a later one is not below the region's first frame.
  lemma AboveFirstFrame(clean: seq<Region>, idx: nat, f: nat, i: nat)
    requires MapOk(clean) && idx <= i < |clean| && Inside(clean[i], f) && f * PAGE_SIZE >= MIN_USABLE
    ensures f * PAGE_SIZE >= FirstFrame(clean[idx])
  {
    AlignUpLeast(Max(MIN_USABLE, clean[idx].start), f);
  }

  // Leaving an exhausted region for the next one loses no frame.
  lemma NextKeepsOffer(clean: seq<Region>, idx: int, cursor: nat, idx': int)
    requires MapOk(clean) && CursorIn(clean, idx, cursor) && cursor + PAGE_SIZE > clean[idx].end
    requires idx < idx' < |clean| && !Skipped(clean[idx']) && forall j :: idx < j < idx' ==> Skipped(clean[j])
    ensures Offer(clean, FirstFrame(clean[idx'])) == Offer(clean, cursor)
  {
    var cursor' := FirstFrame(clean[idx']);
    assert clean[idx].end <= clean[idx'].start;
    AlignUpMonotone(Max(MIN_USABLE, clean[idx].start), Max(MIN_USABLE, clean[idx'].start));
    assert cursor <= cursor';
    forall f: nat ensures f in Offer(clean, cursor) <==> f in Offer(clean, cursor') {
      OfferIs(clean, cursor, f);
      OfferIs(clean, cursor', f);
      if OnOffer(clean, cursor, f) {
        var i :| 0 <= i < |clean| && Inside(clean[i], f);
        OfferRegion(clean, idx, cursor, f, i);
        AboveFirstFrame(clean, idx', f, i);
      }
    }
  }

  lemma LastOfferEmpty(clean: seq<Region>, idx: int, cursor: nat)
    requires MapOk(clean) && CursorIn(clean, idx, cursor) && cursor + PAGE_SIZE > clean[idx].end
    requires forall j :: idx < j < |clean| ==> Skipped(clean[j])
    ensures Offer(clean, cursor) == {}
  {
    forall f: nat ensures f !in Offer(clean, cursor) {
      if OnOffer(clean, cursor, f) {
        var i :| 0 <= i < |clean| && Inside(clean[i], f);
        OfferRegion(clean, idx, cursor, f, i);
        assert false;
      }
    }
  }

  // Taking count frames at the cursor leaves exactly the frames behind them.
  lemma BumpOffer(clean: seq<Region>, idx: int, cursor: nat, count: nat)
    requires MapOk(clean) && CursorIn(clean, idx, cursor) && cursor + count * PAGE_SIZE <= clean[idx].end
    ensures CursorIn(clean, idx, cursor + count * PAGE_SIZE) && cursor > 0
    ensures Run(cursor / PAGE_SIZE, count) <= Offer(clean, cursor)
    ensures Offer(clean, cursor + count * PAGE_SIZE) == Offer(clean, cursor) - Run(cursor / PAGE_SIZE, count)
    ensures forall f :: f in Offer(clean, cursor) ==> f >= cursor / PAGE_SIZE
  {
    AlignUpMonotone(Max(MIN_USABLE, clean[idx].start), Max(MIN_USABLE, clean[idx].start));
    forall f | f in Run(cursor / PAGE_SIZE, count) ensures f in Offer(clean, cursor) {
      assert Inside(clean[idx], f);
      OfferIs(clean, cursor, f);
    }
    var cursor' := cursor + count * PAGE_SIZE;
    forall f: nat
      ensures f in Offer(clean, cursor') <==> f in Offer(clean, cursor) && f !in Run(cursor / PAGE_SIZE, count)
    {
      OfferIs(clean, cursor, f);
      OfferIs(clean, cursor', f);
    }
  }

  lemma BumpOne(clean: seq<Region>, idx: int, cursor: nat)
    requires MapOk(clean) && CursorIn(clean, idx, cursor) && cursor + PAGE_SIZE <= clean[idx].end
    ensures CursorIn(clean, idx, cursor + PAGE_SIZE) && cursor != 0
    ensures cursor / PAGE_SIZE in Offer(clean, cursor)
    ensures Offer(clean, cursor + PAGE_SIZE) == Offer(clean, cursor) - {cursor / PAGE_SIZE}
    ensures forall f :: f in Offer(clean, cursor) ==> f >= cursor / PAGE_SIZE
  {
    BumpOffer(clean, idx, cursor, 1);
    assert Run(cursor / PAGE_SIZE, 1) == {cursor / PAGE_SIZE};
  }

  // ------------------------------------------------------------ first fit

  predicate RunInside(r: Region, base: nat, count: nat) {
    forall f :: base <= f < base + count ==> Inside(r, f)
  }

  // Neighbouring whole frames of a clean map lie in one region.
  lemma {:induction false} RunInOneRegion(clean: seq<Region>, base: nat, count: nat)
    requires Clean(clean) && count > 0 && forall f :: base <= f < base + count ==> InUsable(clean, f)
    ensures exists i :: 0 <= i < |clean| && RunInside(clean[i], base, count)
    decreases count
  {
    assert InUsable(clean, base + count - 1);
    var j :| 0 <= j < |clean| && Inside(clean[j], base + count - 1);
    if count > 1 {
      RunInOneRegion(clean, base, count - 1);
      var i :| 0 <= i < |clean| && RunInside(clean[i], base, count - 1);
      assert Inside(clean[i], base + count - 2);
      TouchingIsSame(clean, i, j, base + count - 2);
    }
    assert RunInside(clean[j], base, count);
  }

  lemma TouchingIsSame(clean: seq<Region>, i: nat, j: nat, f: nat)
    requires Clean(clean) && i < |clean| && j < |clean| && Inside(clean[i], f) && Inside(clean[j], f + 1)
    ensures i == j
  {
    AtEnd(clean, i);
    var a := (f + 1) * PAGE_SIZE;
    CoverUnique(clean, a, j);
    if clean[i].end > a { CoverUnique(clean, a, i); }
  }

  // A region too short for the request holds no run of that length.
  lemma NoRunHere(clean: seq<Region>, idx: int, cursor: nat, count: nat, base: nat)
    requires MapOk(clean) && CursorIn(clean, idx, cursor) && cursor + count * PAGE_SIZE > clean[idx].end
    requires count > 0 && Run(base, count) <= Offer(clean, cursor)
    ensures exists i :: idx < i < |clean| && !Skipped(clean[i]) && RunInside(clean[i], base, count)
  {
    forall f | base <= f < base + count ensures InUsable(clean, f) {
      assert f in Run(base, count);
      assert f in Offer(clean, cursor);
    }
    RunInOneRegion(clean, base, count);
    var i :| 0 <= i < |clean| && RunInside(clean[i], base, count);
    assert Inside(clean[i], base) && Inside(clean[i], base + count - 1);
    assert base in Offer(clean, cursor);
    OfferRegion(clean, idx, cursor, base, i);
  }

  // Skipping a region that is too short loses no run of the requested length.
  lemma NextKeepsRuns(clean: seq<Region>, idx: int, cursor: nat, idx': int, count: nat, base: nat)
    requires MapOk(clean) && CursorIn(clean, idx, cursor) && cursor + count * PAGE_SIZE > clean[idx].end && count > 0
    requires idx < idx' < |clean| && forall j :: idx < j < idx' ==> Skipped(clean[j])
    requires Run(base, count) <= Offer(clean, cursor)
    ensures Run(base, count) <= Offer(clean, FirstFrame(clean[idx']))
  {
    NoRunHere(clean, idx, cursor, count, base);
    var i :| idx < i < |clean| && !Skipped(clean[i]) && RunInside(clean[i], base, count);
    forall f | f in Run(base, count) ensures f in Offer(clean, FirstFrame(clean[idx'])) {
      assert f in Offer(clean, cursor);
      AboveFirstFrame(clean, idx', f, i);
      OfferIs(clean, FirstFrame(clean[idx']), f);
    }
  }

  lemma NextShrinksOffer(clean: seq<Region>, idx: int, cursor: nat, idx': int)
    requires MapOk(clean) && CursorIn(clean, idx, cursor) && idx < idx' < |clean| && !Skipped(clean[idx'])
    ensures Offer(clean, FirstFrame(clean[idx'])) <= Offer(clean, cursor) && cursor <= FirstFrame(clean[idx'])
    ensures forall f :: f in Offer(clean, cursor) && f * PAGE_SIZE >= FirstFrame(clean[idx']) ==>
              f in Offer(clean, FirstFrame(clean[idx']))
    ensures CursorIn(clean, idx', FirstFrame(clean[idx']))
  {
    assert clean[idx].end <= clean[idx'].start;
    AlignUpMonotone(Max(MIN_USABLE, clean[idx].start), Max(MIN_USABLE, clean[idx'].start));
    AlignUpMonotone(Max(MIN_USABLE, clean[idx'].start), Max(MIN_USABLE, clean[idx'].start));
    forall f: nat ensures f in Offer(clean, FirstFrame(clean[idx'])) <==>
                          f in Offer(clean, cursor) && f * PAGE_SIZE >= FirstFrame(clean[idx']) {
      OfferIs(clean, cursor, f);
      OfferIs(clean, FirstFrame(clean[idx']), f);
    }
  }

  // ------------------------------------------- frames and the firmware map

  // Every byte of the frame is usable according to the (raw) region list.
  ghost predicate UsableFrame(raw: seq<Region>, f: nat) {
    forall a: nat :: f * PAGE_SIZE <= a < (f + 1) * PAGE_SIZE ==> KindOf(raw, a) == Some(Usable)
  }

  lemma UsableFrameIff(clean: seq<Region>, raw: seq<Region>, f: nat)
    requires CleanFormOf(clean, raw)
    ensures InUsable(clean, f) <==> UsableFrame(raw, f)
  {
    if InUsable(clean, f) {
      var i :| 0 <= i < |clean| && Inside(clean[i], f);
      forall a: nat | f * PAGE_SIZE <= a < (f + 1) * PAGE_SIZE ensures KindOf(raw, a) == Some(Usable) {
        CoverUnique(clean, a, i);
      }
    }
    if UsableFrame(raw, f) {
      UsableRunInOneRegion(clean, f * PAGE_SIZE, (f + 1) * PAGE_SIZE);
      var i :| 0 <= i < |clean| && clean[i].kind == Usable
               && clean[i].start <= f * PAGE_SIZE && (f + 1) * PAGE_SIZE <= clean[i].end;
      assert Inside(clean[i], f);
    }
  }

  lemma CleanBounded(clean: seq<Region>, raw: seq<Region>)
    requires CleanFormOf(clean, raw) && forall k :: 0 <= k < |raw| ==> raw[k].end <= MAX_PHYS
    ensures MapOk(clean)
  {
    forall i | 0 <= i < |clean| ensures clean[i].end <= MAX_PHYS {
      var a := clean[i].end - 1;
      CoverUnique(clean, a, i);
      assert KindOf(raw, a).Some?;
    }
  }

  // The firmware's regions plus the kernel image, which is reserved.
  function RawMap(firmware: seq<Region>, kernelEnd: nat): seq<Region> {
    firmware + [Region(AlignDown(KERNEL_START_PHYS), AlignUp(kernelEnd), Reserved)]
  }

  // No usable frame touches the kernel image or a region that is not usable.
  lemma UsableFrameAvoids(firmware: seq<Region>, kernelEnd: nat, f: nat, k: nat, a: nat)
    requires UsableFrame(RawMap(firmware, kernelEnd), f) && f * PAGE_SIZE <= a < (f + 1) * PAGE_SIZE
    requires k < |firmware|
    ensures Covers(firmware[k], a) ==> firmware[k].kind == Usable
    ensures !(KERNEL_START_PHYS <= a < kernelEnd)
  {
    var raw := RawMap(firmware, kernelEnd);
    assert raw[k] == firmware[k];
    assert KindOf(raw, a) == Some(Usable);
    if Covers(firmware[k], a) { UsableMeansAllUsable(raw, a, k); }
    AlignUpMonotone(kernelEnd, kernelEnd);
    if Covers(raw[|firmware|], a) { UsableMeansAllUsable(raw, a, |firmware|); }
  }

  // ------------------------------------------------- filling in the bitmap

  // The frames that region r contributes: [SFrame, EFrame).
  function SFrame(r: Region, cursor: nat): nat { AlignUp(Max(Max(r.start, MIN_USABLE), cursor)) / PAGE_SIZE }

  function EFrame(r: Region): nat { AlignDown(r.end) / PAGE_SIZE }

  lemma RegionFrames(r: Region, cursor: nat, f: nat)
    requires r.kind == Usable
    ensures SFrame(r, cursor) <= f < EFrame(r) <==>
            Inside(r, f) && f * PAGE_SIZE >= MIN_USABLE && f * PAGE_SIZE >= cursor
  {
    var m := Max(Max(r.start, MIN_USABLE), cursor);
    AlignUpLeast(m, f);
    AlignUpMonotone(m, m);
    DownFrames(r.end, f);
  }

  lemma DownFrames(x: nat, f: nat)
    ensures f < AlignDown(x) / PAGE_SIZE <==> (f + 1) * PAGE_SIZE <= x
  {
  }

  lemma OfferStep(clean: seq<Region>, i: nat, cursor: nat, f: nat)
    requires i < |clean|
    ensures OnOffer(clean[..i + 1], cursor, f) <==>
            || OnOffer(clean[..i], cursor, f)
            || (clean[i].kind == Usable && SFrame(clean[i], cursor) <= f < EFrame(clean[i]))
  {
    if clean[i].kind == Usable { RegionFrames(clean[i], cursor, f); }
    var a, b := clean[..i], clean[..i + 1];
    assert b == a + [clean[i]];
    if InUsable(a, f) {
      var k :| 0 <= k < |a| && Inside(a[k], f);
      assert Inside(b[k], f);
    }
    if Inside(clean[i], f) { assert Inside(b[i], f); }
    if InUsable(b, f) {
      var k :| 0 <= k < |b| && Inside(b[k], f);
      assert k < i ==> Inside(a[k], f);
    }
  }

  // ------------------------------------------------------------- the class

  // The globals of mm/early_pmm.c and mm/pmm.c.
  // How early_pmm_init ends: with a status, in a panic as the clean map is full, or
  // out of bounds.
  datatype Started = Status(code: int) | MapFull | Overran

  class PhysMem {
    var clean: seq<Region>
    var reg: bool           // pa.reg != NULL
    var idx: int            // pa.idx
    var cursor: nat         // pa.cursor
    var bitmap: array<bv8>
    var early: bool         // pmm_current_alloc_frame == early_pmm_alloc_frame

    ghost predicate Valid()
      reads this, bitmap
    {
      && MapOk(clean)
      && -1 <= idx <= |clean|
      && if early then reg ==> CursorIn(clean, idx, cursor)
         else 0 !in FreeSet(bitmap[..]) && Reaches(clean, 8 * bitmap.Length)
    }

    // The frames that can still be handed out.
    ghost function Free(): set<nat>
      reads this, bitmap
    {
      if !early then FreeSet(bitmap[..]) else if reg then Offer(clean, cursor) else {}
    }

    constructor ()
      ensures Valid() && early && Free() == {} && clean == [] && fresh(bitmap)
    {
      clean, reg, idx, cursor, early := [], false, 0, 0, true;
      bitmap := new bv8[0];
    }

    method PaNext()
      requires MapOk(clean) && -1 <= idx <= |clean|
      modifies this`reg, this`idx, this`cursor
      ensures reg ==> old(idx) < idx < |clean| && !Skipped(clean[idx]) && cursor == FirstFrame(clean[idx])
      ensures reg ==> forall j :: old(idx) < j < idx ==> Skipped(clean[j])
      ensures !reg ==>
                idx == |clean| && cursor == old(cursor) && forall j :: old(idx) < j < |clean| ==> Skipped(clean[j])
    {
      var i := idx + 1;
      while i < |clean|
        invariant old(idx) < i && (i <= |clean| || i == old(idx) + 1)
        invariant forall j :: old(idx) < j < i && j < |clean| ==> Skipped(clean[j])
      {
        if clean[i].kind == Usable && !(clean[i].end <= MIN_USABLE) {
          reg, idx, cursor := true, i, AlignUp(Max(MIN_USABLE, clean[i].start));
          return;
        }
        i := i + 1;
      }
      reg, idx := false, |clean|;
    }

    // Takes the lowest frame on offer; 0 is NULL.
    method EarlyAllocFrame() returns (paddr: nat)
      requires Valid() && early
      modifies this`reg, this`idx, this`cursor
      ensures Valid()
      ensures paddr == 0 <==> old(Free()) == {}
      ensures paddr % PAGE_SIZE == 0
      ensures paddr != 0 ==>
                var f := paddr / PAGE_SIZE;
                && f in old(Free()) && (forall g :: g in old(Free()) ==> f <= g)
                && Free() == old(Free()) - {f}
      ensures paddr == 0 ==> Free() == {}
    {
      hide Offer, MapOk, FirstFrame;
      while reg
        invariant Valid() && Free() == old(Free())
        decreases reg, |clean| - idx
      {
        if cursor + PAGE_SIZE <= clean[idx].end {
          BumpOne(clean, idx, cursor);
          paddr := cursor;
          cursor := cursor + PAGE_SIZE;
          return;
        }
        ghost var i, c := idx, cursor;
        PaNext();
        if reg {
          NextKeepsOffer(clean, i, c, idx);
          NextShrinksOffer(clean, i, c, idx);
        } else {
          LastOfferEmpty(clean, i, c);
        }
      }
      return 0;
    }

    // Takes the lowest run of count frames on offer, giving up everything below it; 0 is NULL.
    method EarlyAllocContinuousFrames(count: nat) returns (paddr: nat)
      requires Valid() && early && 0 < count <= FRAME_LIMIT
      modifies this`reg, this`idx, this`cursor
      ensures Valid()
      ensures paddr == 0 <==> forall s :: !(Run(s, count) <= old(Free()))
      ensures paddr == 0 ==> Free() == {}
      ensures paddr % PAGE_SIZE == 0
      ensures paddr != 0 ==>
                var b := paddr / PAGE_SIZE;
                && reg && Run(b, count) <= old(Free()) && (forall s :: 0 <= s < b ==> !(Run(s, count) <= old(Free())))
                && Free() == (set f | f in old(Free()) && f >= b + count)
    {
      hide Offer, MapOk, FirstFrame;
      var size := PAGE_SIZE * count;
      while reg
        invariant Valid() && Free() <= old(Free())
        invariant reg ==> forall f :: f in old(Free()) && f * PAGE_SIZE >= cursor ==> f in Free()
        invariant forall s :: Run(s, count) <= old(Free()) ==> Run(s, count) <= Free()
        decreases reg, |clean| - idx
      {
        if cursor + size <= clean[idx].end {
          BumpOffer(clean, idx, cursor, count);
          paddr := cursor;
          cursor := cursor + size;
          FirstRun(old(Free()), Offer(clean, paddr), paddr / PAGE_SIZE, count);
          return;
        }
        ghost var i, c := idx, cursor;
        PaNext();
        if reg {
          NextShrinksOffer(clean, i, c, idx);
          forall s | Run(s, count) <= Offer(clean, c) ensures Run(s, count) <= Free() {
            NextKeepsRuns(clean, i, c, idx, count, s);
          }
        } else {
          forall s ensures !(Run(s, count) <= Offer(clean, c)) {
            if Run(s, count) <= Offer(clean, c) {
              NoRunHere(clean, i, c, count, s);
              assert false;
            }
          }
        }
      }
      NoRunInEmpty(count);
      return 0;
    }

    // early_pmm_init. The kernel's own region comes on top of the firmware's, and
    // together they must not exceed what the sanitiser has room for.
    method EarlyInit(firmware: seq<Region>, kernelEnd: nat) returns (r: Started)
      requires kernelEnd <= MAX_PHYS - PAGE_SIZE
      requires forall k :: 0 <= k < |firmware| ==> firmware[k].end <= MAX_PHYS
      modifies this
      ensures bitmap == old(bitmap) && (r.Overran? <==> |firmware| >= MAX_REGIONS)
      ensures r.Status? ==> Valid() && early && CleanFormOf(clean, RawMap(firmware, kernelEnd))
      ensures r.Status? ==> forall f :: f in Free() <==>
                  f * PAGE_SIZE >= MIN_USABLE && UsableFrame(RawMap(firmware, kernelEnd), f)
      ensures r == Status(0) <==> r.Status? && reg
      ensures r.MapFull? ==> forall m :: CleanFormOf(m, RawMap(firmware, kernelEnd)) ==> |m| > MAX_REGIONS
    {
      var raw := RawMap(firmware, kernelEnd);
      var out := new Region[MAX_REGIONS + 1](_ => Region(0, 0, Usable));
      var n := Sanitize(raw, out, MAX_REGIONS);
      match n {
        case Overrun => return Overran;
        case OutFull => return MapFull;
        case Cleaned(_) =>
      }
      clean := out[..n.count];
      early, reg := true, false;
      CleanBounded(clean, raw);
      if |raw| == 0 || |clean| == 0 {
        idx := 0;
        InitialOffer(clean, raw, 0);
        return Status(-EINVAL);
      }
      idx := -1;
      PaNext();
      InitialOffer(clean, raw, idx);
      if !reg {
        return Status(-ENOMEM);
      }
      AlignUpMonotone(Max(MIN_USABLE, clean[idx].start), Max(MIN_USABLE, clean[idx].start));
      return Status(0);
    }

    method GetMaxUsable() returns (max: nat)
      requires MapOk(clean)
      ensures forall i :: 0 <= i < |clean| && clean[i].kind == Usable ==> clean[i].end <= max
      ensures max <= MAX_PHYS
      ensures max == 0 || exists i :: 0 <= i < |clean| && clean[i].kind == Usable && clean[i].end == max
    {
      max := 0;
      for i := 0 to |clean|
        invariant forall j :: 0 <= j < i && clean[j].kind == Usable ==> clean[j].end <= max
        invariant max <= MAX_PHYS
        invariant max == 0 || exists j :: 0 <= j < i && clean[j].kind == Usable && clean[j].end == max
      {
        if clean[i].kind != Usable { continue; }
        max := clean[i].end;
      }
    }

    // Clears the bits of all frames on offer, region by region.
    method FillBitmap(bits: array<bv8>)
      requires MapOk(clean) && FreeSet(bits[..]) == {}
      requires forall i :: 0 <= i < |clean| && clean[i].kind == Usable ==> EFrame(clean[i]) <= 8 * bits.Length
      modifies bits
      ensures FreeSet(bits[..]) == Offer(clean, cursor)
    {
      for i := 0 to |clean|
        invariant forall f :: f in FreeSet(bits[..]) <==> OnOffer(clean[..i], cursor, f)
      {
        forall f: nat
          ensures OnOffer(clean[..i + 1], cursor, f) <==>
                  || OnOffer(clean[..i], cursor, f)
                  || (clean[i].kind == Usable && SFrame(clean[i], cursor) <= f < EFrame(clean[i]))
        {
          OfferStep(clean, i, cursor, f);
        }
        if clean[i].kind != Usable || clean[i].end <= cursor {
          PassedRegion(clean[i], cursor);
          continue;
        }
        var start := clean[i].start;
        if start < MIN_USABLE { start := MIN_USABLE; }
        if start < cursor { start := cursor; }
        var sframe := AlignUp(start) / PAGE_SIZE;
        var eframe := AlignDown(clean[i].end) / PAGE_SIZE;
        if sframe >= eframe { continue; }
        ClearRange(bits, sframe, eframe);
      }
      assert clean[..|clean|] == clean;
      forall f: nat ensures f in Offer(clean, cursor) <==> OnOffer(clean, cursor, f) { OfferIs(clean, cursor, f); }
    }

    // Bytes of the bitmap, and frames to hold it.
    method BitmapSize() returns (size: nat, frames: nat)
      requires MapOk(clean)
      ensures size <= frames * PAGE_SIZE && frames <= FRAME_LIMIT
      ensures frames == 0 ==> forall i :: 0 <= i < |clean| ==> clean[i].kind != Usable
      ensures forall i :: 0 <= i < |clean| && clean[i].kind == Usable ==> EFrame(clean[i]) <= 8 * size
    {
      var max := GetMaxUsable();
      var frameCount := AlignUp(max) / PAGE_SIZE;
      size := (frameCount + 7) / 8;
      frames := AlignUp(size) / PAGE_SIZE;
      SizesFit(max);
      forall i | 0 <= i < |clean| && clean[i].kind == Usable ensures EFrame(clean[i]) <= 8 * size {
        EFrameFits(clean[i].end, max);
      }
    }

    // Takes over from the early allocator, keeping exactly its remaining
    // frames; the bitmap lies in the run [base, base + frames).
    method PmmInit() returns (status: int, base: nat, frames: nat)
      requires Valid() && early
      modifies this
      ensures Valid() && clean == old(clean)
      ensures status == 0 || status == -ENOMEM
      ensures status == -ENOMEM ==> early && Free() == {} && bitmap == old(bitmap)
      ensures status == -ENOMEM ==> old(Free()) == {} || forall s :: !(Run(s, frames) <= old(Free()))
      ensures status == 0 ==> !early && fresh(bitmap) && Free() == Offer(clean, cursor)
      ensures status == 0 ==> frames > 0 && Run(base, frames) <= old(Free()) && bitmap.Length <= frames * PAGE_SIZE
      ensures status == 0 ==> Free() == set f | f in old(Free()) && f >= base + frames
    {
      hide Offer, OnOffer, MapOk, Skipped, Reaches;
      base := 0;
      var size, sizeInFrames := BitmapSize();
      ReachesAll(clean, size);
      frames := sizeInFrames;
      if sizeInFrames == 0 {
        // no usable region: the early allocator has none to look at
        NoRegion(clean, idx, cursor);
        return -ENOMEM, base, frames;
      }
      var p := EarlyAllocContinuousFrames(sizeInFrames);
      base := p / PAGE_SIZE;
      if p == 0 {
        return -ENOMEM, base, frames;
      }
      var bits := new bv8[size](_ => 0xFF);
      AllTaken(bits[..]);
      FillBitmap(bits);
      bitmap := bits;
      early := false;
      NoFrameZero(clean, cursor);
      return 0, base, frames;
    }

    // pmm_alloc_frame, or early_pmm_alloc_frame before PmmInit: the lowest free frame.
    method CurrentAllocFrame() returns (paddr: nat)
      requires Valid()
      modifies this`reg, this`idx, this`cursor, bitmap
      ensures Valid()
      ensures paddr == 0 <==> old(Free()) == {}
      ensures paddr % PAGE_SIZE == 0
      ensures paddr != 0 ==>
                var f := paddr / PAGE_SIZE;
                && f in old(Free()) && (forall g :: g in old(Free()) ==> f <= g)
                && Free() == old(Free()) - {f}
      ensures paddr == 0 ==> Free() == {}
    {
      if early {
        paddr := EarlyAllocFrame();
      } else {
        paddr := AllocFrame(bitmap);
      }
    }

    // pmm_alloc_contiguous_frames: None is the panic on count 0, Some(0) is NULL.
    method PmmAllocContiguousFrames(count: nat) returns (r: Option<nat>)
      requires Valid() && !early
      modifies bitmap
      ensures Valid() && (r.None? <==> count == 0)
      ensures r.Some? ==> r.value % PAGE_SIZE == 0
      ensures r.Some? ==> (r.value == 0 <==> forall s :: !(Run(s, count) <= old(Free())))
      ensures r.Some? && r.value != 0 ==>
                && TakesRun(old(Free()), Free(), r.value / PAGE_SIZE, count)
                && 0 < r.value / PAGE_SIZE && r.value / PAGE_SIZE + count <= 8 * bitmap.Length
                && forall s :: 0 <= s < r.value / PAGE_SIZE ==> !(Run(s, count) <= old(Free()))
      ensures r.None? || r == Some(0) ==> Free() == old(Free())
    {
      r := AllocContiguousFrames(bitmap, count);
      if r.Some? && r.value != 0 {
        assert FrameFree(old(bitmap[..]), r.value / PAGE_SIZE) &&
            FrameFree(old(bitmap[..]), r.value / PAGE_SIZE + count - 1);
      }
      forall s: nat ensures FreeRun(old(bitmap[..]), s, count) <==> Run(s, count) <= old(Free()) {
        FreeRunIsSubset(old(bitmap[..]), s, count);
      }
    }

    // pmm_free_contiguous_frames, on frames of the bitmap.
    method PmmFreeContiguousFrames(paddr: nat, count: nat)
      requires Valid() && !early && paddr / PAGE_SIZE > 0
      requires paddr / PAGE_SIZE + count <= 8 * bitmap.Length
      modifies bitmap
      ensures Valid() && GivesRun(old(Free()), Free(), paddr / PAGE_SIZE, count)
    {
      FreeContiguousFrames(bitmap, paddr, count);
    }

    // pmm_free_frame: false is the panic on a frame that is not taken.
    method PmmFreeFrame(paddr: nat) returns (ok: bool)
      requires Valid() && !early && 0 < paddr / PAGE_SIZE < 8 * bitmap.Length
      modifies bitmap
      ensures Valid() && (ok <==> paddr / PAGE_SIZE !in old(Free()))
      ensures if ok then GivesRun(old(Free()), Free(), paddr / PAGE_SIZE, 1) else Free() == old(Free())
    {
      ok := FreeFrame(bitmap, paddr);
      assert Run(paddr / PAGE_SIZE, 1) == {paddr / PAGE_SIZE};
    }
  }

  // An allocation of count frames at base takes exactly those out of the free set.
  predicate TakesRun(before: set<nat>, after: set<nat>, base: nat, count: nat) {
    count > 0 && Run(base, count) <= before && after == before - Run(base, count)
  }

  predicate GivesRun(before: set<nat>, after: set<nat>, base: nat, count: nat) {
    after == before + Run(base, count)
  }

  lemma FreeRunIsSubset(bits: seq<bv8>, s: nat, count: nat)
    ensures FreeRun(bits, s, count) <==> Run(s, count) <= FreeSet(bits)
  {
    if FreeRun(bits, s, count) {
      forall f | f in Run(s, count) ensures f in FreeSet(bits) { assert FrameFree(bits, f); }
    }
    if Run(s, count) <= FreeSet(bits) {
      forall f | s <= f < s + count ensures FrameFree(bits, f) { assert f in Run(s, count); }
    }
  }

  lemma NoRegion(clean: seq<Region>, idx: int, cursor: nat)
    requires forall i :: 0 <= i < |clean| ==> clean[i].kind != Usable
    ensures !CursorIn(clean, idx, cursor)
  {
  }

  lemma NoFrameZero(clean: seq<Region>, cursor: nat)
    ensures 0 !in Offer(clean, cursor)
  {
  }

  lemma PassedRegion(r: Region, cursor: nat)
    ensures r.end <= cursor ==> EFrame(r) <= SFrame(r, cursor)
  {
    var m := Max(Max(r.start, MIN_USABLE), cursor);
    AlignUpMonotone(m, m);
  }

  lemma SizesFit(max: nat)
    requires max <= MAX_PHYS
    ensures var size := (AlignUp(max) / PAGE_SIZE + 7) / 8;
            var n := AlignUp(size) / PAGE_SIZE;
            n <= FRAME_LIMIT && size <= n * PAGE_SIZE && (n == 0 ==> max == 0)
  {
  }

  lemma EFrameFits(end: nat, max: nat)
    requires end <= max
    ensures AlignDown(end) / PAGE_SIZE <= 8 * ((AlignUp(max) / PAGE_SIZE + 7) / 8)
  {
  }

  lemma ReachesAll(clean: seq<Region>, size: nat)
    requires forall i :: 0 <= i < |clean| && clean[i].kind == Usable ==> EFrame(clean[i]) <= 8 * size
    ensures Reaches(clean, 8 * size)
  {
    forall f: nat | InUsable(clean, f) ensures f < 8 * size {
      var i :| 0 <= i < |clean| && Inside(clean[i], f);
      DownFrames(clean[i].end, f);
    }
  }

  // What is on offer right after the first region has been picked.
  lemma InitialOffer(clean: seq<Region>, raw: seq<Region>, idx: int)
    requires MapOk(clean) && CleanFormOf(clean, raw)
    requires 0 <= idx <= |clean| && forall j :: 0 <= j < idx ==> Skipped(clean[j])
    ensures var s := if idx < |clean| then Offer(clean, FirstFrame(clean[idx])) else {};
            forall f :: f in s <==> f * PAGE_SIZE >= MIN_USABLE && UsableFrame(raw, f)
  {
    forall f: nat
      ensures var s := if idx < |clean| then Offer(clean, FirstFrame(clean[idx])) else {};
              f in s <==> f * PAGE_SIZE >= MIN_USABLE && UsableFrame(raw, f)
    {
      UsableFrameIff(clean, raw, f);
      if f * PAGE_SIZE >= MIN_USABLE && InUsable(clean, f) {
        var i :| 0 <= i < |clean| && Inside(clean[i], f);
        assert !Skipped(clean[i]);
        AboveFirstFrame(clean, idx, f, i);
      }
      if idx < |clean| { OfferIs(clean, FirstFrame(clean[idx]), f); }
    }
  }

  lemma NoRunInEmpty(count: nat)
    requires count > 0
    ensures forall s :: !(Run(s, count) <= {})
  {
    forall s ensures !(Run(s, count) <= {}) {
      assert s in Run(s, count);
    }
  }

  // What is left of all after a run was taken from the part at or above base.
  lemma FirstRun(all: set<nat>, left: set<nat>, base: nat, count: nat)
    requires left <= all && count > 0 && forall s :: Run(s, count) <= all ==> Run(s, count) <= left
    requires forall f :: f in left ==> f >= base
    requires forall f :: f in all && f * PAGE_SIZE >= base * PAGE_SIZE ==> f in left
    ensures forall s :: 0 <= s < base ==> !(Run(s, count) <= all)
    ensures left - Run(base, count) == set f | f in all && f >= base + count
  {
    forall s | 0 <= s < base ensures !(Run(s, count) <= all) {
      assert s in Run(s, count);
    }
    forall f ensures f in left - Run(base, count) <==> f in all && f >= base + count {
      if f in all && f >= base + count { assert f * PAGE_SIZE >= base * PAGE_SIZE; }
    }
  }
}
