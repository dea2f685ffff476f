// Address spaces of tasks (mm/vmm.c): copies of the kernel's top-level table
// that share its lower tables, and pages allocated into them.
module Vmm {
  import opened Base
  import opened PageTable
  import opened PageSplit
  import opened Frames
  import opened Mmu

  datatype Status = Done | NoMemory | Panicked

  // Exactly the page of va is translated to frame f, everything else as before.
  ghost predicate PageMapped(t: Tables, u: Tables, root: nat, va: nat, f: nat, prot: Prot) {
    forall vb: nat :: vb < VA_LIMIT ==>
      Translate(u, root, vb) ==
      if va <= vb < va + PAGE_SIZE then Some(Mapping(f + (vb - va), prot)) else Translate(t, root, vb)
  }

  // Page k of the range is translated to frames[k], everything else as before.
  ghost predicate PagesMapped(t: Tables, u: Tables, root: nat, va: nat, frames: seq<nat>, prot: Prot) {
    forall vb: nat :: vb < VA_LIMIT ==>
      Translate(u, root, vb) ==
      if va <= vb < va + |frames| * PAGE_SIZE
      then Some(Mapping(frames[(vb - va) / PAGE_SIZE] + (vb - va) % PAGE_SIZE, prot))
      else Translate(t, root, vb)
  }

  // Different pages got different frames, all of them free before and none now.
  ghost predicate FreshFrames(frames: seq<nat>, before: set<nat>, after: set<nat>) {
    && (forall k :: 0 <= k < |frames| ==> frames[k] % PAGE_SIZE == 0 && frames[k] / PAGE_SIZE in before)
    && (forall k :: 0 <= k < |frames| ==> frames[k] / PAGE_SIZE !in after)
    && (forall j, k :: 0 <= j < k < |frames| ==> frames[j] != frames[k])
  }

  // A single page is one chunk, whatever the larger chunk sizes are.
  lemma OnePage(t: Tables, u: Tables, root: nat, va: nat, f: nat, prot: Prot, has1g: bool, mid: nat)
    requires MiddleOk(mid) && Aligned(va, f, PAGE_SIZE)
    requires RangeMapped(t, u, root, Request(va, f, PAGE_SIZE, prot, has1g, mid))
    ensures PageMapped(t, u, root, va, f, prot)
  {
    hide Translate;
    forall vb: nat | vb < VA_LIMIT
      ensures Translate(u, root, vb) ==
              if va <= vb < va + PAGE_SIZE then Some(Mapping(f + (vb - va), prot)) else Translate(t, root, vb)
    {
      SinglePageSplit(va, f, has1g, mid, vb);
    }
  }

  lemma SinglePageSplit(va: nat, f: nat, has1g: bool, mid: nat, vb: nat)
    requires MiddleOk(mid) && Aligned(va, f, PAGE_SIZE)
    ensures Split(va, f, PAGE_SIZE, has1g, mid, vb) == if va <= vb < va + PAGE_SIZE then Some(f + (vb - va)) else None
  {
    assert ChunkLevel(va, f, PAGE_SIZE, has1g, mid) == 3;
  }

  lemma AppendPage(t: Tables, u: Tables, w: Tables, root: nat, va: nat, frames: seq<nat>, f: nat, prot: Prot)
    requires PagesMapped(t, u, root, va, frames, prot)
    requires PageMapped(u, w, root, va + |frames| * PAGE_SIZE, f, prot)
    ensures PagesMapped(t, w, root, va, frames + [f], prot)
  {
    hide Translate;
    var more := frames + [f];
    forall vb: nat | vb < VA_LIMIT
      ensures Translate(w, root, vb) ==
              if va <= vb < va + |more| * PAGE_SIZE
              then Some(Mapping(more[(vb - va) / PAGE_SIZE] + (vb - va) % PAGE_SIZE, prot))
              else Translate(t, root, vb)
    {
      var end := va + |frames| * PAGE_SIZE;
      if end <= vb < end + PAGE_SIZE {
        DivModUnique(vb - va, PAGE_SIZE, |frames|, vb - end);
      }
    }
  }

  class Spaces {
    const mmu: AddressSpaces
    var kernelPgd: nat

    ghost predicate Valid()
      reads this, mmu, mmu.pm, mmu.pm.bitmap
    {
      mmu.Valid() && mmu.IsRoot(kernelPgd)
    }

    constructor (mmu: AddressSpaces, kernelPgd: nat)
      requires mmu.Valid() && mmu.IsRoot(kernelPgd)
      ensures Valid() && this.mmu == mmu && this.kernelPgd == kernelPgd
    {
      this.mmu, this.kernelPgd := mmu, kernelPgd;
    }

    // vmm_alloc_page: a fresh frame is mapped at va. Its own test of the alignment
    // never fails; mmu_map_range makes it again.
    method AllocPage(pgd: nat, vaddr: nat, ghost va: nat, prot: Prot, overwrite: bool)
      returns (s: Status, ghost f: nat)
      requires Valid() && mmu.IsRoot(pgd) && va == Low(vaddr) && va + PAGE_SIZE <= VA_LIMIT
      modifies mmu, mmu.pm`reg, mmu.pm`idx, mmu.pm`cursor, mmu.pm.bitmap
      ensures Valid() && SameRoots(old(mmu.tables), old(mmu.level), mmu.tables, mmu.level)
      ensures mmu.pm.Free() <= old(mmu.pm.Free())
      ensures s.Done? ==> PageMapped(old(mmu.tables), mmu.tables, pgd, va, f, prot)
      ensures s.Done? ==> FreshFrames([f], old(mmu.pm.Free()), mmu.pm.Free())
      ensures s.NoMemory? <==> old(mmu.pm.Free()) == {}
      ensures s.NoMemory? ==> mmu.tables == old(mmu.tables) && mmu.level == old(mmu.level)
      ensures s.Panicked? ==>
                va % PAGE_SIZE != 0 || mmu.pm.Free() == {} || Occupied(old(mmu.tables), pgd, va, PAGE_SIZE)
      ensures s.Panicked? && overwrite ==>
                || va % PAGE_SIZE != 0
                || (mmu.pm.Free() == {} && Reach(old(mmu.tables), pgd, 0, va, 3) == None)
                || HugeOnWay(old(mmu.tables), pgd, 0, va, 3)
      ensures s.Done? ==> WaysKeptFrom(old(mmu.tables), mmu.tables, pgd, va + PAGE_SIZE)
      ensures va % PAGE_SIZE != 0 ==> !s.Done?
      ensures AllPrivate(old(mmu.tables), old(mmu.level), pgd, va, PAGE_SIZE) ==>
                Isolated(old(mmu.tables), old(mmu.level), mmu.tables, mmu.level, pgd)
    {
      hide PhysMem.Valid, PhysMem.Free, Wf, Isolated, RangeMapped, WasFree, PageMapped, Occupied, WaysKeptFrom, Blocked;
      hide Reach, HugeOnWay, Lacking;
      IsolatedRefl(mmu.tables, mmu.level, pgd);
      var frame := mmu.pm.CurrentAllocFrame();
      f := frame;
      if frame == 0 {
        return NoMemory, f;
      }
      ghost var t := mmu.tables;
      var o := mmu.MapRange(pgd, vaddr, va, frame, PAGE_SIZE, prot, overwrite);
      if !o.Mapped? {
        OnePageStops(t, pgd, Request(va, frame, PAGE_SIZE, prot, mmu.has1g, mmu.mid));
        return Panicked, f;
      }
      OnePage(t, mmu.tables, pgd, va, f, prot, mmu.has1g, mmu.mid);
      return Done, f;
    }

    // vmm_alloc_range: the number of pages mapped, which is all of them unless
    // memory runs out (-ENOMEM, pages mapped so far stay).
    method AllocRange(pgd: nat, vaddr: nat, ghost v: nat, len: nat, prot: Prot, overwrite: bool)
      returns (s: Status, count: nat, ghost frames: seq<nat>)
      requires Valid() && mmu.IsRoot(pgd) && v == Low(vaddr) && v + AlignUp(len) <= VA_LIMIT
      modifies mmu, mmu.pm`reg, mmu.pm`idx, mmu.pm`cursor, mmu.pm.bitmap
      ensures Valid() && SameRoots(old(mmu.tables), old(mmu.level), mmu.tables, mmu.level)
      ensures !s.Panicked? ==> PagesMapped(old(mmu.tables), mmu.tables, pgd, v, frames, prot)
      ensures !s.Panicked? ==> FreshFrames(frames, old(mmu.pm.Free()), mmu.pm.Free())
      ensures s.Done? ==> |frames| == count == AlignUp(len) / PAGE_SIZE
      ensures s.NoMemory? ==> mmu.pm.Free() == {}
      ensures s.Panicked? ==>
                v % PAGE_SIZE != 0 || mmu.pm.Free() == {} || Occupied(old(mmu.tables), pgd, v, AlignUp(len))
      ensures s.Panicked? && overwrite ==>
                v % PAGE_SIZE != 0 || mmu.pm.Free() == {} || HugeIn(old(mmu.tables), pgd, v, AlignUp(len))
      ensures AllPrivate(old(mmu.tables), old(mmu.level), pgd, v, AlignUp(len)) ==>
                Isolated(old(mmu.tables), old(mmu.level), mmu.tables, mmu.level, pgd)
    {
      WholePages(len);
      hide PhysMem.Valid, PhysMem.Free, Wf, Filled, AlignUp, SameRoots, PagesMapped, FreshFrames, Isolated, AllPrivate;
      hide Occupied, Low, HugeIn;
      ghost var t, lev, free := mmu.tables, mmu.level, mmu.pm.Free();
      NothingFilled(pgd, v, prot, AlignUp(len));
      var size: nat, addr: nat := AlignUp(len), vaddr;
      ghost var va: nat, whole: nat := v, size;
      count, frames := 0, [];
      while size > 0
        invariant Valid() && mmu.IsRoot(pgd) && Filled(t, lev, free, pgd, v, frames, prot, whole)
        invariant size % PAGE_SIZE == 0 && |frames| == count && va == v + count * PAGE_SIZE
        invariant va + size == v + whole && (size > 0 ==> va == Low(addr))
      {
        PageLess(size);
        var st, f := NextPage(pgd, addr, va, prot, overwrite, t, lev, free, v, frames, whole);
        if !st.Done? {
          if st.NoMemory? { FilledIs(t, lev, free, pgd, v, frames, prot, whole); }
          return st, count, frames;
        }
        frames := frames + [f];
        LowStep(addr, PAGE_SIZE);
        size, va, addr, count := size - PAGE_SIZE, va + PAGE_SIZE, addr + PAGE_SIZE, count + 1;
      }
      FilledIs(t, lev, free, pgd, v, frames, prot, whole);
      return Done, count, frames;
    }

    // The pages so far have been mapped to fresh frames, and nothing else has happened.
    ghost predicate Filled(t: Tables, lev: map<nat, nat>, free: set<nat>, pgd: nat, v: nat, frames: seq<nat>,
                           prot: Prot, whole: nat)
      reads mmu, mmu.pm, mmu.pm.bitmap
    {
      && SameRoots(t, lev, mmu.tables, mmu.level) && pgd in t && lev[pgd] == 0
      && PagesMapped(t, mmu.tables, pgd, v, frames, prot)
      && FreshFrames(frames, free, mmu.pm.Free()) && mmu.pm.Free() <= free
      && (AllPrivate(t, lev, pgd, v, whole) ==> Isolated(t, lev, mmu.tables, mmu.level, pgd))
      && WaysKeptFrom(t, mmu.tables, pgd, v + |frames| * PAGE_SIZE)
    }

    lemma FilledIs(t: Tables, lev: map<nat, nat>, free: set<nat>, pgd: nat, v: nat, frames: seq<nat>, prot: Prot,
                   whole: nat)
      requires Filled(t, lev, free, pgd, v, frames, prot, whole)
      ensures SameRoots(t, lev, mmu.tables, mmu.level) && pgd in t && lev[pgd] == 0
      ensures PagesMapped(t, mmu.tables, pgd, v, frames, prot) && FreshFrames(frames, free, mmu.pm.Free())
      ensures AllPrivate(t, lev, pgd, v, whole) ==> Isolated(t, lev, mmu.tables, mmu.level, pgd)
    {
    }

    lemma NothingFilled(pgd: nat, v: nat, prot: Prot, whole: nat)
      requires Valid() && mmu.IsRoot(pgd)
      ensures Filled(mmu.tables, mmu.level, mmu.pm.Free(), pgd, v, [], prot, whole)
    {
      hide PhysMem.Valid, PhysMem.Free, Isolated, PagesMapped, AllPrivate;
      IsolatedRefl(mmu.tables, mmu.level, pgd);
      SameRootsRefl(mmu.tables, mmu.level);
      NothingMapped(mmu.tables, pgd, v, prot);
      WaysKeptRefl(mmu.tables, pgd, v);
    }

    // One round of vmm_alloc_range.
    method NextPage(pgd: nat, vaddr: nat, ghost va: nat, prot: Prot, overwrite: bool,
                    ghost t: Tables, ghost lev: map<nat, nat>, ghost free: set<nat>, ghost v: nat,
                    ghost frames: seq<nat>, ghost whole: nat)
      returns (s: Status, ghost f: nat)
      requires Valid() && mmu.IsRoot(pgd) && Filled(t, lev, free, pgd, v, frames, prot, whole)
      requires va == Low(vaddr) && va == v + |frames| * PAGE_SIZE && va + PAGE_SIZE <= v + whole <= VA_LIMIT
      modifies mmu, mmu.pm`reg, mmu.pm`idx, mmu.pm`cursor, mmu.pm.bitmap
      ensures Valid() && mmu.IsRoot(pgd)
      ensures s.Done? ==> Filled(t, lev, free, pgd, v, frames + [f], prot, whole)
      ensures s.NoMemory? ==> Filled(t, lev, free, pgd, v, frames, prot, whole) && mmu.pm.Free() == {}
      ensures s.Panicked? ==> va % PAGE_SIZE != 0 || mmu.pm.Free() == {} || Occupied(t, pgd, v, whole)
      ensures s.Panicked? && overwrite ==> va % PAGE_SIZE != 0 || mmu.pm.Free() == {} || HugeIn(t, pgd, v, whole)
      ensures s.Panicked? ==> SameRoots(t, lev, mmu.tables, mmu.level)
      ensures AllPrivate(t, lev, pgd, v, whole) ==> Isolated(t, lev, mmu.tables, mmu.level, pgd)
    {
      hide PhysMem.Valid, PhysMem.Free, Wf, Isolated, PagesMapped, PageMapped, AllPrivate, Occupied, SameRoots;
      hide WaysKeptFrom, HugeIn, HugeOnWay, Reach;
      ghost var u, levu, was := mmu.tables, mmu.level, mmu.pm.Free();
      SameRootsShaped(t, lev, u, levu);
      if AllPrivate(t, lev, pgd, v, whole) { PagePrivate(t, lev, u, levu, pgd, v, whole, va); }
      s, f := AllocPage(pgd, vaddr, va, prot, overwrite);
      SameRootsTrans(t, lev, u, levu, mmu.tables, mmu.level);
      SameRootsAt(t, lev, mmu.tables, mmu.level, pgd);
      if AllPrivate(t, lev, pgd, v, whole) { IsolatedTrans(t, lev, u, levu, mmu.tables, mmu.level, pgd); }
      FreshSubset(frames, free, was, mmu.pm.Free());
      if s.Done? {
        AppendPage(t, u, mmu.tables, pgd, v, frames, f, prot);
        AppendFresh(frames, f, free, was, mmu.pm.Free());
        WaysShrink(t, u, mmu.tables, pgd, va);
      } else if HugeOnWay(u, pgd, 0, va, 3) {
        HugeBefore(t, u, pgd, v, whole, va);
        if Occupied(u, pgd, va, PAGE_SIZE) { OccupiedBefore(t, u, pgd, v, frames, prot, va, whole); }
      } else if Occupied(u, pgd, va, PAGE_SIZE) {
        OccupiedBefore(t, u, pgd, v, frames, prot, va, whole);
      }
    }

    // ioremap: None is a panic. The device must lie where the kernel's window onto
    // physical memory ends within the upper half.
    method Ioremap(paddr: nat, size: nat, prot: Prot) returns (r: Option<nat>)
      requires Valid() && InWindow(paddr, size)
      modifies mmu, mmu.pm`reg, mmu.pm`idx, mmu.pm`cursor, mmu.pm.bitmap
      ensures Valid() && SameRoots(old(mmu.tables), old(mmu.level), mmu.tables, mmu.level)
      ensures r.Some? ==> r.value == ID_BASE + paddr
      ensures r.Some? ==> forall a: nat :: paddr <= a < paddr + size && !Skips(paddr, size, a) ==>
                Seen(mmu.tables, kernelPgd, a, prot)
      ensures r.None? ==>
                || mmu.pm.Free() == {}
                || Occupied(old(mmu.tables), kernelPgd, Low(ID_BASE) + AlignDown(paddr), Length(paddr, size))
      ensures r.None? ==>
                var req := Request(Low(ID_BASE) + AlignDown(paddr), AlignDown(paddr), Length(paddr, size), prot,
                                   mmu.has1g, mmu.mid);
                || (mmu.pm.Free() == {} && Lacking(old(mmu.tables), kernelPgd, req))
                || Blocked(old(mmu.tables), kernelPgd, req)
    {
      hide PhysMem.Valid, PhysMem.Free, Wf, Isolated, RangeMapped, WasFree, Occupied, Translate, Missed;
      hide Blocked, Lacking, WaysKeptFrom;
      var start := AlignDown(paddr);
      var len := AlignUp(size + (paddr - start));
      WindowFits(paddr, size);
      ghost var t, v := mmu.tables, Low(ID_BASE) + start;
      var o := mmu.MapRange(kernelPgd, ID_BASE + start, v, start, len, prot, true);
      if !o.Mapped? {
        return None;
      }
      ghost var req := Request(v, start, len, prot, mmu.has1g, mmu.mid);
      forall a: nat | paddr <= a < paddr + size && !Skips(paddr, size, a) ensures Seen(mmu.tables, kernelPgd, a, prot) {
        RangeEffectAt(t, mmu.tables, kernelPgd, req, ID_BASE + start, a - start);
      }
      return Some(ID_BASE + paddr);
    }

    // The address is one that chunks of 8 MiB miss.
    ghost predicate Skips(paddr: nat, size: nat, a: nat)
      reads mmu
    {
      var start := AlignDown(paddr);
      mmu.mid == MIDDLE_AS_WRITTEN && a >= start &&
      Missed(Low(ID_BASE) + start, start, Length(paddr, size), mmu.has1g, Low(ID_BASE) + a)
    }

    // vmm_copy_kpgtbl: 0 if there is no frame for the copy.
    method CopyKernelTable() returns (c: nat)
      requires Valid() && !mmu.pm.early
      modifies mmu, mmu.pm.bitmap, mmu.pm`reg, mmu.pm`idx, mmu.pm`cursor
      ensures Valid() && mmu.pm.Free() <= old(mmu.pm.Free())
      ensures c == 0 <==> old(mmu.pm.Free()) == {}
      ensures c == 0 ==> mmu.tables == old(mmu.tables) && mmu.level == old(mmu.level)
      ensures c != 0 ==> IsCopy(old(mmu.tables), old(mmu.level), mmu.tables, mmu.level, kernelPgd, c)
    {
      hide PhysMem.Valid, PhysMem.Free, Wf, IsCopy;
      c := mmu.pm.CurrentAllocFrame();
      if c != 0 {
        CopyIsCopy(mmu.tables, mmu.level, kernelPgd, c);
        mmu.tables := mmu.tables[c := mmu.tables[kernelPgd]];
        mmu.level := mmu.level[c := 0];
      }
    }
  }

  // The kernel's own table, at the beginning of vmm_init; None is -ENOMEM.
  method NewKernelTable(mmu: AddressSpaces) returns (s: Option<Spaces>)
    requires mmu.Valid()
    modifies mmu, mmu.pm`reg, mmu.pm`idx, mmu.pm`cursor, mmu.pm.bitmap
    ensures s.None? <==> old(mmu.pm.Free()) == {}
    ensures s.Some? ==> s.value.Valid() && s.value.mmu == mmu && fresh(s.value)
    ensures s.Some? ==> RootAdded(old(mmu.tables), old(mmu.level), mmu.tables, mmu.level, s.value.kernelPgd)
  {
    hide PhysMem.Valid, PhysMem.Free, Wf, RootAdded;
    var r := mmu.NewRoot();
    if r == 0 {
      return None;
    }
    var spaces := new Spaces(mmu, r);
    return Some(spaces);
  }

  // The bytes that ioremap maps: whole pages from that of paddr on.
  function Length(paddr: nat, size: nat): nat { AlignUp(size + (paddr - AlignDown(paddr))) }

  predicate InWindow(paddr: nat, size: nat) {
    Low(ID_BASE) + AlignDown(paddr) < VA_LIMIT && Low(ID_BASE) + AlignDown(paddr) + Length(paddr, size) <= VA_LIMIT
  }

  // The kernel sees physical address a in its window.
  ghost predicate Seen(t: Tables, root: nat, a: nat, prot: Prot) {
    Translate(t, root, ID_BASE + a) == Some(Mapping(a, prot))
  }

  lemma WholePages(len: nat)
    ensures AlignUp(len) % PAGE_SIZE == 0
  {
  }

  lemma PageLess(size: nat)
    requires size % PAGE_SIZE == 0 && size > 0
    ensures size >= PAGE_SIZE && (size - PAGE_SIZE) % PAGE_SIZE == 0
  {
  }

  lemma WindowFits(paddr: nat, size: nat)
    requires InWindow(paddr, size)
    ensures var start := AlignDown(paddr);
            && Aligned(ID_BASE + start, start, Length(paddr, size))
            && Low(ID_BASE + start) == Low(ID_BASE) + start && paddr - start + size <= Length(paddr, size)
  {
    LowStep(ID_BASE, AlignDown(paddr));
  }

  // Some address of the range lies in a huge page.
  ghost predicate HugeIn(t: Tables, root: nat, v: nat, len: nat) {
    exists vb: nat :: v <= vb < v + len && HugeOnWay(t, root, 0, vb, 3)
  }

  // A request of one page is stopped on the way to its entry of the last level.
  lemma OnePageStops(t: Tables, root: nat, r: Request)
    requires MiddleOk(r.mid) && r.len == PAGE_SIZE
    ensures Blocked(t, root, r) ==> HugeOnWay(t, root, 0, r.v, 3)
    ensures Lacking(t, root, r) ==> Reach(t, root, 0, r.v, 3) == None
  {
    hide HugeOnWay, Reach;
    SmallChunk(r.v, r.p, PAGE_SIZE, r.has1g, r.mid);
    assert forall k: nat :: k < PAGE_SIZE && k % PAGE_SIZE == 0 ==> k == 0;
    assert LevelAt(r, 0) == 3;
  }

  lemma HugeBefore(t: Tables, u: Tables, root: nat, v: nat, whole: nat, va: nat)
    requires WaysKeptFrom(t, u, root, va) && v <= va < v + whole <= VA_LIMIT && HugeOnWay(u, root, 0, va, 3)
    ensures HugeIn(t, root, v, whole)
  {
    hide HugeOnWay, Reach;
    assert WayKept(t, u, root, 0, va, 3);
  }

  lemma WaysShrink(t: Tables, u: Tables, w: Tables, root: nat, va: nat)
    requires WaysKeptFrom(t, u, root, va) && WaysKeptFrom(u, w, root, va + PAGE_SIZE)
    ensures WaysKeptFrom(t, w, root, va + PAGE_SIZE)
  {
    hide WayKept;
    WaysKeptTrans(t, u, w, root, va + PAGE_SIZE);
  }

  // What is occupied behind the pages mapped so far was so before.
  lemma OccupiedBefore(t: Tables, u: Tables, root: nat, v: nat, frames: seq<nat>, prot: Prot, va: nat, whole: nat)
    requires PagesMapped(t, u, root, v, frames, prot) && va == v + |frames| * PAGE_SIZE
    requires va + PAGE_SIZE <= v + whole <= VA_LIMIT && Occupied(u, root, va, PAGE_SIZE)
    ensures Occupied(t, root, v, whole)
  {
    hide Translate;
  }

  lemma NothingMapped(t: Tables, root: nat, va: nat, prot: Prot)
    ensures PagesMapped(t, t, root, va, [], prot)
  {
  }

  lemma PagePrivate(t: Tables, lt: map<nat, nat>, u: Tables, lu: map<nat, nat>, root: nat, v: nat, len: nat, va: nat)
    requires Shaped(t, lt) && root in t && lt[root] == 0 && AllPrivate(t, lt, root, v, len)
    requires v <= va && va + PAGE_SIZE <= v + len && Isolated(t, lt, u, lu, root)
    ensures root in u && AllPrivate(u, lu, root, va, PAGE_SIZE)
  {
    forall vb: nat | va <= vb < va + PAGE_SIZE ensures Private(u, lu, root, Idx(vb, 0)) {
      StillPrivate(t, lt, u, lu, root, v, len, vb);
    }
  }

  lemma FreshSubset(frames: seq<nat>, before: set<nat>, was: set<nat>, after: set<nat>)
    requires FreshFrames(frames, before, was) && after <= was
    ensures FreshFrames(frames, before, after)
  {
  }

  lemma AppendFresh(frames: seq<nat>, f: nat, before: set<nat>, was: set<nat>, after: set<nat>)
    requires FreshFrames(frames, before, was) && was <= before && after <= was && FreshFrames([f], was, after)
    ensures FreshFrames(frames + [f], before, after)
  {
    assert [f][0] == f;
  }

  // ---------------------------------------------------------------- copying

  // c is a new top-level table that translates as k does; nothing else changed,
  // and what k had not mapped at the top level is the copy's own.
  ghost predicate IsCopy(t: Tables, lev: map<nat, nat>, u: Tables, lev': map<nat, nat>, k: nat, c: nat) {
    && Shaped(t, lev) && Shaped(u, lev') && k in t && lev[k] == 0
    && c !in t && u.Keys == t.Keys + {c} && lev' == lev[c := 0]
    && (forall vb: nat :: vb < VA_LIMIT ==> Translate(u, c, vb) == Translate(t, k, vb))
    && (forall g :: g in t && lev[g] == 0 ==> SameFor(t, u, g))
    && (forall j :: 0 <= j < 512 && !t[k][j].present ==> Private(u, lev', c, j))
    && (forall g, j :: g in t && lev[g] == 0 && 0 <= j < 512 && g != k && Private(t, lev, g, j) ==>
          Private(u, lev', g, j))
  }

  lemma CopyWf(t: Tables, lev: map<nat, nat>, k: nat, c: nat)
    requires Wf(t, lev) && k in t && lev[k] == 0 && c !in t
    ensures Wf(t[c := t[k]], lev[c := 0])
  {
    var u, lu := t[c := t[k]], lev[c := 0];
    forall f, i | f in u && 0 <= i < 512 && Points(u, lu, f, i)
      ensures Points(t, lev, if f == c then k else f, i) && u[f][i] == t[if f == c then k else f][i]
    {
    }
  }

  lemma CopyTranslates(t: Tables, lev: map<nat, nat>, k: nat, c: nat, vb: nat)
    requires Wf(t, lev) && k in t && lev[k] == 0 && c !in t
    ensures Translate(t[c := t[k]], c, vb) == Translate(t, k, vb)
  {
    var e := t[k][Idx(vb, 0)];
    if e.present {
      assert Points(t, lev, k, Idx(vb, 0));
      LookupIgnores(t, lev, c, t[k], e.addr, 1, vb);
    }
  }

  lemma CopyIsCopy(t: Tables, lev: map<nat, nat>, k: nat, c: nat)
    requires Wf(t, lev) && k in t && lev[k] == 0 && c !in t
    ensures Wf(t[c := t[k]], lev[c := 0]) && IsCopy(t, lev, t[c := t[k]], lev[c := 0], k, c)
  {
    var u, lu := t[c := t[k]], lev[c := 0];
    CopyWf(t, lev, k, c);
    hide Typed, Unshared;
    forall vb: nat | vb < VA_LIMIT ensures Translate(u, c, vb) == Translate(t, k, vb) {
      CopyTranslates(t, lev, k, c, vb);
    }
    forall g | g in t && lev[g] == 0 ensures SameFor(t, u, g) {
      forall vb: nat | vb < VA_LIMIT ensures Translate(u, g, vb) == Translate(t, g, vb) {
        LookupIgnores(t, lev, c, t[k], g, 0, vb);
      }
    }
  }

  // ------------------------------------------------------------------ runs

  // The tables, and for each copy the top-level slots that the kernel had not
  // mapped when it was made.
  datatype Vm = Vm(t: Tables, lev: map<nat, nat>, own: map<nat, set<nat>>)

  ghost predicate VmOk(m: Vm, kernel: nat) {
    && Shaped(m.t, m.lev) && kernel in m.t && m.lev[kernel] == 0
    && (forall c :: c in m.own ==> c in m.t && m.lev[c] == 0 && c != kernel)
    && (forall c, j :: c in m.own && j in m.own[c] ==> j < 512 && Private(m.t, m.lev, c, j))
  }

  function AbsentSlots(t: Tables, k: nat): set<nat>
    requires k in t && |t[k]| == 512
  {
    set j: nat | j < 512 && !t[k][j].present
  }

  ghost predicate CopyStep(m: Vm, n: Vm, kernel: nat, c: nat) {
    && IsCopy(m.t, m.lev, n.t, n.lev, kernel, c) && n.own == m.own[c := AbsentSlots(m.t, kernel)]
  }

  // An allocation in copy c, of any outcome, within slots of its own.
  ghost predicate AllocStep(m: Vm, n: Vm, c: nat, v: nat, len: nat) {
    && c in m.own && n.own == m.own && Shaped(m.t, m.lev) && c in m.t
    && (forall vb: nat :: v <= vb < v + len ==> Idx(vb, 0) in m.own[c])
    && (AllPrivate(m.t, m.lev, c, v, len) ==> Isolated(m.t, m.lev, n.t, n.lev, c))
  }

  lemma CopyKeeps(m: Vm, n: Vm, kernel: nat, c: nat)
    requires VmOk(m, kernel) && CopyStep(m, n, kernel, c)
    ensures VmOk(n, kernel)
    ensures forall g :: g in m.t && m.lev[g] == 0 ==> SameFor(m.t, n.t, g)
  {
    hide SameFor;
  }

  lemma AllocKeeps(m: Vm, n: Vm, kernel: nat, c: nat, v: nat, len: nat)
    requires VmOk(m, kernel) && AllocStep(m, n, c, v, len)
    ensures VmOk(n, kernel)
    ensures forall g :: g in m.t && m.lev[g] == 0 && g != c ==> SameFor(m.t, n.t, g)
  {
    hide SameFor;
    assert AllPrivate(m.t, m.lev, c, v, len);
  }

  // A step, and the copy it allocates in (0 if it makes a copy).
  ghost predicate VmStep(m: Vm, n: Vm, kernel: nat, who: nat) {
    || (who == 0 && exists c :: CopyStep(m, n, kernel, c))
    || (who != 0 && exists v, len :: AllocStep(m, n, who, v, len))
  }

  lemma StepKeeps(m: Vm, n: Vm, kernel: nat, who: nat)
    requires VmOk(m, kernel) && VmStep(m, n, kernel, who)
    ensures VmOk(n, kernel)
    ensures forall g :: g in m.t && m.lev[g] == 0 && (g == kernel || g != who) ==>
              SameFor(m.t, n.t, g) && g in n.t && n.lev[g] == 0
  {
    hide SameFor;
    if who == 0 {
      var c :| CopyStep(m, n, kernel, c);
      CopyKeeps(m, n, kernel, c);
    } else {
      var v, len :| AllocStep(m, n, who, v, len);
      AllocKeeps(m, n, kernel, who, v, len);
      assert AllPrivate(m.t, m.lev, who, v, len);
    }
  }

  ghost predicate IsRun(tr: seq<Vm>, who: seq<nat>, kernel: nat) {
    && |tr| == |who| + 1 && VmOk(tr[0], kernel)
    && forall k :: 0 <= k < |who| ==> VmStep(tr[k], tr[k + 1], kernel, who[k])
  }

  // However copies are made and filled, a top-level table keeps every
  // translation as long as nothing is allocated in it; the kernel's keeps them always.
  lemma {:induction false} RunIsolates(tr: seq<Vm>, who: seq<nat>, kernel: nat, i: nat, j: nat, g: nat)
    requires IsRun(tr, who, kernel) && i <= j < |tr|
    requires VmOk(tr[i], kernel)
    requires g in tr[i].t && g in tr[i].lev && tr[i].lev[g] == 0
    requires g == kernel || forall k :: i <= k < j ==> who[k] != g
    ensures VmOk(tr[j], kernel) && SameFor(tr[i].t, tr[j].t, g) && g in tr[j].t && tr[j].lev[g] == 0
    decreases j - i
  {
    if i < j {
      RunIsolates(tr, who, kernel, i, j - 1, g);
      StepKeeps(tr[j - 1], tr[j], kernel, who[j - 1]);
      assert SameFor(tr[j - 1].t, tr[j].t, g);
    }
  }
}
