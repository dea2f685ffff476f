// kmalloc and kfree (mm/kmalloc.c): pools of equal slots for small sizes,
// whole pages for big ones.
module Heap {
  import opened Base
  import opened FrameBitmap
  import opened Frames
  import opened HeapLayout
  import opened HeapSteps

  const NODE_SIZE: nat := 24
  const WORD64: nat := 0x1_0000_0000_0000_0000

  // PAGE_ALIGN_UP on a 64-bit size, which wraps for sizes close to 2^64.
  function WrapAlignUp(size: nat): nat { AlignDown((size + (PAGE_SIZE - 1)) % WORD64) }

  // New pool pages come from frames that were free.
  ghost predicate PoolsFrom(old_: View, new_: View, frames: set<nat>) {
    && (forall p :: p in old_.pools ==> p in new_.pools)
    && (forall p :: p in new_.pools && p !in old_.pools ==> IsPage(p) && FrameOf(p) in frames)
  }

  // Slot a has been handed out; all other blocks stay as they were.
  ghost predicate SmallGiven(old_: View, new_: View, a: nat, t: nat) {
    && a !in old_.small && a !in old_.nodes && t < TIERS && IsSlot(new_.pools, a, t)
    && new_.small == old_.small[a := t] && new_.nodes == old_.nodes && new_.bigs == old_.bigs
  }

  // n whole pages at a have been handed out.
  ghost predicate BigGiven(old_: View, new_: View, a: nat, n: nat) {
    && new_.small == old_.small && new_.bigs == [Big(a, n)] + old_.bigs
    && |new_.nodes| == |old_.nodes| + 1 && new_.nodes[1..] == old_.nodes
  }

  // There is no run of n pages, or none of the rest is left for a list node.
  ghost predicate Starved(v: View, frames: set<nat>, n: nat) {
    || (forall s: nat :: !(Run(s, n) <= frames))
    || (|v.free| > 0 && v.free[0] == [] && exists s: nat :: frames == Run(s, n))
  }

  // t is the tier for requests of this size: its slots suffice, those of the tiers
  // below do not.
  predicate Serves(t: nat, size: nat) {
    t < TIERS && size <= SlotSize(t) && forall u :: 0 <= u < t ==> SlotSize(u) < size
  }

  // The block handed out for a request is large enough, and no larger than need be.
  ghost predicate Given(old_: View, new_: View, a: nat, size: nat) {
    || (exists t: nat :: Serves(t, size) && SmallGiven(old_, new_, a, t))
    || (exists n: nat :: BigGiven(old_, new_, a, n) && size <= n * PAGE_SIZE < size + PAGE_SIZE)
  }

  // A request for a slot of tier t: the first free one is taken. If there is none the
  // lowest free frame becomes a page of slots and gives the first of them. If there is
  // no frame either the answer is NULL.
  ghost predicate SmallStep(v: View, w: View, before: set<nat>, after: set<nat>, a: nat, t: nat)
    requires |v.free| == TIERS && t < TIERS
  {
    if v.free[t] != [] then a == v.free[t][0] && w == Popped(v, t) && after == before
    else if before == {} then a == 0 && w == v && after == before
    else exists f: nat :: f in before && (forall g :: g in before ==> f <= g) && PageStep(v, w, before, after, a, t, f)
  }

  ghost predicate PageStep(v: View, w: View, before: set<nat>, after: set<nat>, a: nat, t: nat, f: nat)
    requires |v.free| == TIERS && t < TIERS
  {
    var p := f * PAGE_SIZE + ID_BASE;
    && after == before - {f} && a == p + SlotSize(t)
    && SlotsOf(p, t) != [] && w == Popped(WithPool(v, p, t), t)
  }

  // A request for n whole pages: they are taken, and a slot of the smallest tier as the
  // node that records them.
  ghost predicate BigStep(v: View, w: View, before: set<nat>, after: set<nat>, a: nat, n: nat)
    requires |v.free| == TIERS
  {
    IsPage(a) && Run(FrameOf(a), n) <= before && (forall s: nat :: s < FrameOf(a) ==> !(Run(s, n) <= before)) &&
    exists u: View, node: nat ::
      SmallStep(v, u, before - Run(FrameOf(a), n), after, node, 0) && node != 0 && w == WithBig(u, node, Big(a, n))
  }

  // What becomes of kfree.
  datatype Outcome = Freed | Panicked | OutOfBounds

  method SizeToTier(size: nat) returns (t: int)
    ensures -1 <= t < TIERS
    ensures t == -1 <==> size > 1024
    ensures t >= 0 ==> Serves(t, size)
  {
    for i := 0 to TIERS
      invariant forall u :: 0 <= u < i ==> SlotSize(u) < size
    {
      if SlotSize(i) >= size {
        return i;
      }
    }
    assert SlotSize(5) < size;
    return -1;
  }

  const EMPTY := View(map[], [[], [], [], [], [], []], map[], [], [])

  lemma EmptyHeap(frames: set<nat>)
    ensures Layout(EMPTY, frames) && Linked(map[], [0, 0, 0, 0, 0, 0], 0, EMPTY)
  {
    var v := EMPTY;
    assert forall t :: 0 <= t < TIERS ==> v.free[t] == [];
  }

  class Kheap {
    const pm: PhysMem
    var mem: Memory
    var heads: seq<nat>     // tiers[].free_head
    var bigHead: nat        // big_alloc_head
    ghost var v: View

    // Frames of big blocks are frames of the bitmap.
    ghost predicate BigsInBitmap()
      reads this, pm
    {
      forall i :: 0 <= i < |v.bigs| ==>
        v.bigs[i].addr >= ID_BASE && 0 < FrameOf(v.bigs[i].addr) &&
            FrameOf(v.bigs[i].addr) + v.bigs[i].pages <= 8 * pm.bitmap.Length
    }

    ghost predicate Valid()
      reads this, pm, pm.bitmap
    {
      && pm.Valid() && !pm.early && BigsInBitmap()
      && |heads| == TIERS && |v.free| == TIERS && |v.nodes| == |v.bigs|
      && Layout(v, pm.Free()) && Linked(mem, heads, bigHead, v)
    }

    constructor (pm: PhysMem)
      requires pm.Valid() && !pm.early
      ensures Valid() && this.pm == pm && v == EMPTY
    {
      this.pm := pm;
      mem, heads, bigHead, v := map[], [0, 0, 0, 0, 0, 0], 0, EMPTY;
      EmptyHeap(pm.Free());
    }

    // Writes the next pointers of a new pool page, slot by slot.
    method ThreadSlots(page: nat, t: nat)
      requires t < TIERS && page % PAGE_SIZE == 0
      modifies this`mem
      ensures SameOutside(old(mem), mem, page) && Word(mem, page) == old(Word(mem, page))
      ensures Chain(mem, SlotsOf(page, t))
    {
      var size := SlotSize(t);
      var s, last := page + size, page + PAGE_SIZE - size;
      ghost var slots := SlotsOf(page, t);
      ghost var k := 0;
      LastSlot(page, t);
      while s < last
        invariant 0 <= k < |slots| && s == slots[k] && s <= last
        invariant SameOutside(old(mem), mem, page) && Word(mem, page) == old(Word(mem, page))
        invariant forall i :: 0 <= i < k ==> Word(mem, slots[i]) == slots[i + 1]
        decreases last - s
      {
        PoolSlot(page, t, k);
        ThreadStep(page, t, k);
        mem := mem[s := s + size];
        s := Word(mem, s);
        k := k + 1;
      }
      PoolSlot(page, t, k);
      ThreadStep(page, t, k);
      mem := mem[last := 0];
    }

    // init_tier: a new page of slots; false is -ENOMEM.
    method InitTier(t: nat) returns (ok: bool, ghost page: nat)
      requires Valid() && t < TIERS && v.free[t] == []
      modifies this, pm`reg, pm`idx, pm`cursor, pm.bitmap
      ensures Valid() && pm.bitmap == old(pm.bitmap) && pm.Free() <= old(pm.Free())
      ensures ok ==>
                && v == WithPool(old(v), page, t) && IsPage(page) && page !in old(v.pools)
                && FrameOf(page) in old(pm.Free()) && (forall g :: g in old(pm.Free()) ==> FrameOf(page) <= g)
                && page == FrameOf(page) * PAGE_SIZE + ID_BASE && pm.Free() == old(pm.Free()) - {FrameOf(page)}
      ensures !ok ==> v == old(v) && old(pm.Free()) == {} && pm.Free() == {}
    {
      hide PhysMem.Valid, PhysMem.Free, Linked, Layout;
      ghost var frames := pm.Free();
      var frame := pm.CurrentAllocFrame();
      if frame == 0 {
        assert pm.Free() == frames;
        return false, 0;
      }
      page := frame + ID_BASE;
      var p := frame + ID_BASE;
      PageOfFrame(frame);
      PoolLayout(v, frames, p, t);
      ghost var m := mem;
      mem := mem[p := Header(t)];
      ThreadSlots(p, t);
      NewPage(m, mem, p, t);
      PoolLinked(m, mem, heads, bigHead, v, frames, p, t);
      heads := heads[t := p + SlotSize(t)];
      v := WithPool(v, p, t);
      return true, page;
    }

    // kmalloc_small: takes the first free slot, making a new page if there is
    // none; 0 is NULL.
    method KmallocSmall(t: nat) returns (a: nat)
      requires Valid() && t < TIERS
      modifies this, pm`reg, pm`idx, pm`cursor, pm.bitmap
      ensures Valid() && pm.bitmap == old(pm.bitmap) && pm.Free() <= old(pm.Free())
      ensures PoolsFrom(old(v), v, old(pm.Free()))
      ensures a != 0 ==> SmallGiven(old(v), v, a, t)
      ensures a == 0 <==> old(pm.Free()) == {} && old(v.free[t]) == []
      ensures SmallStep(old(v), v, old(pm.Free()), pm.Free(), a, t)
      decreases v.free[t] == []
    {
      hide PhysMem.Valid, PhysMem.Free, Linked, Layout;
      FreeHead(mem, heads, bigHead, v, pm.Free(), t);
      if heads[t] != 0 {
        a := heads[t];
        PopLayout(v, pm.Free(), t);
        PopLinked(mem, heads, bigHead, v, t);
        PopGiven(v, pm.Free(), t);
        heads := heads[t := Word(mem, a)];
        v := Popped(v, t);
        return;
      }
      var ok, page := InitTier(t);
      if !ok {
        return 0;
      }
      LastSlot(page, t);
      ghost var u := v;
      a := KmallocSmall(t);
      assert PageStep(old(v), v, old(pm.Free()), pm.Free(), a, t, FrameOf(page)) by {
        assert u.free[t] == SlotsOf(page, t);
      }
    }

    // kmalloc: None is a panic, Some(0) is NULL.
    method Kmalloc(size: nat) returns (r: Option<nat>)
      requires Valid() && size < WORD64
      modifies this, pm`reg, pm`idx, pm`cursor, pm.bitmap
      ensures Valid() && pm.bitmap == old(pm.bitmap) && pm.Free() <= old(pm.Free())
      ensures r.None? <==> size > WORD64 - PAGE_SIZE
      ensures forall t: nat :: Serves(t, size) ==>
                && r.Some? && (r.value == 0 <==> old(pm.Free()) == {} && old(v.free[t]) == [])
                && SmallStep(old(v), v, old(pm.Free()), pm.Free(), r.value, t)
                && (r.value != 0 ==> SmallGiven(old(v), v, r.value, t))
      ensures size > 1024 && r.Some? ==>
                (r.value == 0 <==> Starved(old(v), old(pm.Free()), WrapAlignUp(size) / PAGE_SIZE))
      ensures size > 1024 && r.Some? && r.value != 0 ==>
                BigStep(old(v), v, old(pm.Free()), pm.Free(), r.value, WrapAlignUp(size) / PAGE_SIZE)
      ensures PoolsFrom(old(v), v, old(pm.Free()))
      ensures r.Some? && r.value != 0 ==> Given(old(v), v, r.value, size)
      ensures r.Some? && r.value == 0 ==> v == old(v) && pm.Free() == old(pm.Free())
      decreases size, 1, 0
    {
      hide PhysMem.Valid, PhysMem.Free, Linked, Layout, PoolsFrom, SmallGiven, BigGiven, Starved, SmallStep, BigStep;
      var tier := SizeToTier(size);
      if tier == -1 {
        NoTier(size);
        r := KmallocBig(size);
        return;
      }
      ghost var v0, frames := v, pm.Free();
      var a := KmallocSmall(tier);
      OneTier(tier, size);
      if a == 0 { NothingTaken(v0, v, frames, pm.Free(), tier); }
      return Some(a);
    }

    // kmalloc_big: whole pages, recorded in a list node that is itself a small block.
    method KmallocBig(size: nat) returns (r: Option<nat>)
      requires Valid() && 1024 < size < WORD64
      modifies this, pm`reg, pm`idx, pm`cursor, pm.bitmap
      ensures Valid() && pm.bitmap == old(pm.bitmap) && pm.Free() <= old(pm.Free())
      ensures r.None? <==> size > WORD64 - PAGE_SIZE
      ensures PoolsFrom(old(v), v, old(pm.Free()))
      ensures r.Some? && r.value != 0 ==> Given(old(v), v, r.value, size)
      ensures r == Some(0) ==> v == old(v) && pm.Free() == old(pm.Free())
      ensures r.Some? ==> (r.value == 0 <==> Starved(old(v), old(pm.Free()), WrapAlignUp(size) / PAGE_SIZE))
      ensures r.Some? && r.value != 0 ==>
                BigStep(old(v), v, old(pm.Free()), pm.Free(), r.value, WrapAlignUp(size) / PAGE_SIZE)
      decreases size, 0, 1
    {
      hide PhysMem.Valid, PhysMem.Free, Linked, Layout, SmallGiven, Given, PoolsFrom, BigStep, Starved;
      var npages := WrapAlignUp(size) / PAGE_SIZE;
      SizeRounds(size);
      ghost var frames, v0 := pm.Free(), v;
      PoolsGrow(v, v, v, frames, frames);
      var p := pm.PmmAllocContiguousFrames(npages);
      if p.None? {
        return None;
      }
      if p.value == 0 {
        RunsOut(v, frames, npages);
        return Some(0);
      }
      LessFrames(v, frames, pm.Free());
      StarvedIff(v, frames, pm.Free(), p.value / PAGE_SIZE, npages);
      var a := KeepBig(p.value, npages, size, frames);
      return Some(a);
    }

    // The rest of kmalloc_big, with the pages taken: records them, or gives them back
    // if there is no node.
    method KeepBig(p: nat, npages: nat, size: nat, ghost frames: set<nat>) returns (a: nat)
      requires Valid() && p % PAGE_SIZE == 0 && p > 0 && Layout(v, frames)
      requires 1024 < size <= npages * PAGE_SIZE < size + PAGE_SIZE
      requires forall s: nat :: s < p / PAGE_SIZE ==> !(Run(s, npages) <= frames)
      requires TakesRun(frames, pm.Free(), p / PAGE_SIZE, npages)
      requires 0 < p / PAGE_SIZE && p / PAGE_SIZE + npages <= 8 * pm.bitmap.Length
      modifies this, pm`reg, pm`idx, pm`cursor, pm.bitmap
      ensures Valid() && pm.bitmap == old(pm.bitmap) && pm.Free() <= frames
      ensures PoolsFrom(old(v), v, frames)
      ensures a != 0 ==> Given(old(v), v, a, size)
      ensures a == 0 ==> v == old(v) && pm.Free() == frames
      ensures a == 0 <==> old(pm.Free()) == {} && old(v.free[0]) == []
      ensures a != 0 ==> BigStep(old(v), v, frames, pm.Free(), a, npages)
      decreases size, 0, 0
    {
      hide PhysMem.Valid, PhysMem.Free, Linked, Layout, SmallGiven, Given, PoolsFrom, SmallStep, BigStep;
      ghost var b, v0, left := Big(p + ID_BASE, npages), v, pm.Free();
      PageOfFrame(p);
      NodeTier();
      var node := Kmalloc(NODE_SIZE);
      if node.value == 0 {
        pm.PmmFreeContiguousFrames(p, npages);
        assert pm.Free() == frames;
        PoolsGrow(v0, v, v, left, frames);
        return 0;
      }
      NodeSlot(v0, v, node.value);
      StillFits(v0, v, frames, pm.Free(), b);
      ghost var v1 := v;
      Record(node.value, p + ID_BASE, npages);
      BigIsGiven(v0, v1, v, node.value, b, size);
      BigIsStep(v0, v1, v, frames, left, pm.Free(), node.value, b);
      PoolsGrow(v0, v1, v, left, frames);
      return p + ID_BASE;
    }

    // A small or big block in use.
    ghost predicate Live(a: nat)
      reads this
    {
      a in v.small || exists i :: 0 <= i < |v.bigs| && v.bigs[i].addr == a
    }

    // A big block whose first word carries the magic: kfree takes it for a slot.
    ghost predicate Misleading(a: nat)
      reads this
    {
      a !in v.small && MagicOf(Word(mem, a)) == MAGIC
    }

    // Some division of the memory into pools and blocks fits the heap's lists.
    ghost predicate Sound()
      reads this, pm, pm.bitmap
    {
      exists w :: Layout(w, pm.Free()) && Linked(mem, heads, bigHead, w)
    }

    // kfree of a live block. It frees the block and leaves a sound heap exactly when
    // the block is not misleading. Otherwise the block lands on a free list where
    // nothing can be right any more, or the tier table is accessed out of bounds.
    method Kfree(a: nat) returns (r: Outcome)
      requires Valid() && Live(a)
      modifies this, pm.bitmap
      ensures pm.bitmap == old(pm.bitmap) && !r.Panicked?
      ensures r.Freed? && Sound() <==> !old(Misleading(a))
      ensures !old(Misleading(a)) ==>
                && Valid()
                && (a in old(v.small) ==> v == Pushed(old(v), a) && pm.Free() == old(pm.Free()))
                && (a !in old(v.small) ==> BigTaken(old(v), v, old(pm.Free()), pm.Free(), a))
      ensures old(Misleading(a)) ==>
                var t := TierOf(old(Word(mem, a)));
                && (r.Freed? <==> t < TIERS && TierOf(old(heads)[t]) < TIERS)
                && (r.Freed? ==> mem == old(mem)[a := old(heads)[t]] && heads == old(heads)[TierOf(old(heads)[t]) := a])
      decreases if a in v.small then 0 else 2
    {
      hide PhysMem.Valid, PhysMem.Free, Linked, Layout;
      KnownHeader(mem, heads, bigHead, v, pm.Free(), a);
      if a !in v.small { BigIsPage(v, pm.Free(), a); }
      if MagicOf(Word(mem, PageOf(a))) != MAGIC {
        r := KfreeBig(a);
        return;
      }
      r := PushSlot(a);
    }

    // The end of kfree: pushes the block on the list of the tier that the start of
    // its page names. The tier is read twice; if the block is the start of the page
    // the first write changes what the second read finds.
    method PushSlot(a: nat) returns (r: Outcome)
      requires Valid() && (a in v.small || (a % PAGE_SIZE == 0 && a > 0))
      modifies this`mem, this`heads, this`v
      ensures !r.Panicked?
      ensures a in old(v.small) ==> r.Freed? && Valid() && v == Pushed(old(v), a)
      ensures a !in old(v.small) ==>
                var t := TierOf(old(Word(mem, a)));
                && (r.Freed? <==> t < TIERS && TierOf(old(heads)[t]) < TIERS)
                && (r.Freed? ==> mem == old(mem)[a := old(heads)[t]] && heads == old(heads)[TierOf(old(heads)[t]) := a])
                && (r.Freed? ==> !Sound())
    {
      hide PhysMem.Valid, PhysMem.Free, Linked, Layout;
      KnownHeader(mem, heads, bigHead, v, pm.Free(), a);
      SlotBehindHeader(v, pm.Free(), a);
      var tier := TierOf(Word(mem, PageOf(a)));
      if tier >= TIERS {
        return OutOfBounds;
      }
      if a in v.small {
        PushLayout(v, pm.Free(), a);
        PushLinked(mem, heads, bigHead, v, pm.Free(), a);
      }
      mem := mem[a := heads[tier]];
      tier := TierOf(Word(mem, PageOf(a)));
      if tier >= TIERS {
        return OutOfBounds;
      }
      heads := heads[tier := a];
      if a in v.small {
        v := Pushed(v, a);
      } else {
        NoViewFits(mem, heads, bigHead, tier);
      }
      return Freed;
    }

    // kfree_big: finds the node by address, unlinks it, frees the pages and the node.
    method KfreeBig(a: nat) returns (r: Outcome)
      requires Valid() && exists i :: 0 <= i < |v.bigs| && v.bigs[i].addr == a
      modifies this, pm.bitmap
      ensures Valid() && r.Freed? && pm.bitmap == old(pm.bitmap)
      ensures BigTaken(old(v), v, old(pm.Free()), pm.Free(), a)
      decreases 1
    {
      hide PhysMem.Valid, PhysMem.Free, Linked, Layout, BigRun, BigTakenAt;
      var i, cur, count := TakeOff(a);
      ReleasePages(a, count);
      r := Kfree(cur);
      TakenInTwo(old(v), v, old(pm.Free()), pm.Free(), i);
    }

    // Finds the node of the block at a and takes it off the list.
    method TakeOff(a: nat) returns (ghost i: nat, cur: nat, count: nat)
      requires Valid() && exists j :: 0 <= j < |v.bigs| && v.bigs[j].addr == a
      modifies this
      ensures i < old(|v.bigs|) && old(v.bigs[i]) == Big(a, count) && IsPage(a) && cur == old(v.nodes[i])
      ensures Valid() && v == WithoutBig(old(v), i) && Layout(v, pm.Free() + BigRun(Big(a, count)))
      ensures 0 < FrameOf(a) && FrameOf(a) + count <= 8 * pm.bitmap.Length
    {
      hide PhysMem.Valid, PhysMem.Free, Linked, Layout, BigRun;
      var prev;
      i, prev, cur := FindNode(a);
      NodePages(mem, heads, bigHead, v, pm.Free(), i);
      count := Word(mem, cur + 8);
      Unlink(i, prev, cur);
    }

    // free_pages on pages that belong to no block any more.
    method ReleasePages(a: nat, count: nat)
      requires Valid() && IsPage(a) && 0 < FrameOf(a) && FrameOf(a) + count <= 8 * pm.bitmap.Length
      requires Layout(v, pm.Free() + BigRun(Big(a, count)))
      modifies pm.bitmap
      ensures Valid() && pm.Free() == old(pm.Free()) + BigRun(Big(a, count))
    {
      hide PhysMem.Valid, PhysMem.Free, Linked, Layout;
      pm.PmmFreeContiguousFrames(a - ID_BASE, count);
    }

    // Takes node i off the list; its pages belong to nobody until they are freed.
    method Unlink(ghost i: nat, prev: nat, cur: nat)
      requires Valid() && i < |v.nodes| && cur == v.nodes[i] && (cur == bigHead <==> i == 0)
      requires i > 0 ==> prev == v.nodes[i - 1]
      modifies this
      ensures Valid() && v == WithoutBig(old(v), i)
      ensures old(v.bigs[i].addr) >= ID_BASE && Layout(v, pm.Free() + BigRun(old(v.bigs[i])))
    {
      hide PhysMem.Valid, PhysMem.Free, Linked, Layout, BigRun;
      ghost var frames := pm.Free();
      UnbigLayout(v, frames, i);
      UnbigLinked(mem, heads, bigHead, v, frames, i);
      LessFrames(WithoutBig(v, i), frames + BigRun(v.bigs[i]), frames);
      if cur == bigHead {
        bigHead := Word(mem, bigHead + 16);
      } else {
        mem := mem[prev + 16 := Word(mem, cur + 16)];
      }
      v := WithoutBig(v, i);
    }

    // The search loop of kfree_big.
    method FindNode(a: nat) returns (ghost i: nat, prev: nat, cur: nat)
      requires Valid() && exists j :: 0 <= j < |v.bigs| && v.bigs[j].addr == a
      ensures i < |v.nodes| && v.bigs[i].addr == a && cur == v.nodes[i]
      ensures cur == bigHead <==> i == 0
      ensures i > 0 ==> prev == v.nodes[i - 1]
    {
      hide PhysMem.Valid, PhysMem.Free, Layout;
      prev, cur, i := 0, bigHead, 0;
      ghost var j :| 0 <= j < |v.bigs| && v.bigs[j].addr == a;
      while cur != 0 && Word(mem, cur) != a
        invariant i <= j && cur == v.nodes[i]
        invariant i > 0 ==> prev == v.nodes[i - 1]
        decreases |v.nodes| - i
      {
        assert NodeAt(mem, v.nodes[i], v.bigs[i], Next(v.nodes, i));
        prev := cur;
        cur := Word(mem, cur + 16);
        i := i + 1;
      }
      assert NodeAt(mem, v.nodes[i], v.bigs[i], Next(v.nodes, i));
      NodesDiffer(v, pm.Free(), i);
    }

    // A caller writes an aligned word into a block it holds.
    method ClientWrite(x: nat, w: nat)
      requires Valid() && x % 8 == 0
      requires || (exists a :: a in v.small && v.small[a] < TIERS && InSlot(x, a, v.small[a]))
               || (exists i :: 0 <= i < |v.bigs| && InBig(x, v.bigs[i]))
      modifies this`mem
      ensures Valid() && mem == old(mem)[x := w]
    {
      hide PhysMem.Valid, PhysMem.Free, Linked, Layout;
      ghost var frames := pm.Free();
      if a :| a in v.small && v.small[a] < TIERS && InSlot(x, a, v.small[a]) {
        SmallIsQuiet(v, frames, a, x);
      } else {
        ghost var i :| 0 <= i < |v.bigs| && InBig(x, v.bigs[i]);
        BigIsQuiet(v, frames, i, x);
      }
      WriteQuiet(mem, heads, bigHead, v, x, w);
      mem := mem[x := w];
    }

    // The end of kmalloc_big: fills in the node and puts it in front of the list.
    method Record(a: nat, vaddr: nat, npages: nat)
      requires Valid() && a in v.small && v.small[a] == 0 && vaddr >= ID_BASE
      requires PoolsOk(v.pools) && BigsOk(v) && BigFits(v, Big(vaddr, npages))
      requires BigRun(Big(vaddr, npages)) !! pm.Free()
      requires 0 < FrameOf(vaddr) && FrameOf(vaddr) + npages <= 8 * pm.bitmap.Length
      modifies this
      ensures Valid() && v == WithBig(old(v), a, Big(vaddr, npages))
    {
      hide PhysMem.Valid, PhysMem.Free, Linked, Layout, BigsOk, BigFits;
      ghost var b := Big(vaddr, npages);
      BigLayout(v, pm.Free(), a, b);
      BigLinked(mem, heads, bigHead, v, pm.Free(), a, b);
      mem := mem[a := vaddr];
      mem := mem[a + 8 := npages];
      mem := mem[a + 16 := bigHead];
      bigHead := a;
      v := WithBig(v, a, b);
    }
  }

  // Big block a is gone, its frames are free again and its node is a free slot.
  ghost predicate BigTaken(old_: View, new_: View, before: set<nat>, after: set<nat>, a: nat) {
    exists i: nat :: i < |old_.bigs| && old_.bigs[i].addr == a && BigTakenAt(old_, new_, before, after, i)
  }

  ghost predicate BigTakenAt(old_: View, new_: View, before: set<nat>, after: set<nat>, i: nat) {
    && i < |old_.bigs| && |old_.nodes| == |old_.bigs| && old_.bigs[i].addr >= ID_BASE
    && new_.bigs == old_.bigs[..i] + old_.bigs[i + 1..] && new_.nodes == old_.nodes[..i] + old_.nodes[i + 1..]
    && new_.small == old_.small && new_.pools == old_.pools
    && after == before + BigRun(old_.bigs[i])
  }

  // Unlinking node i and then freeing the node as a small block.
  lemma TakenInTwo(v: View, w: View, frames: set<nat>, after: set<nat>, i: nat)
    requires Layout(v, frames) && i < |v.nodes| && after == frames + BigRun(v.bigs[i])
    requires w == Pushed(WithoutBig(v, i), v.nodes[i])
    ensures BigTakenAt(v, w, frames, after, i)
  {
    NodeNotSmall(v, frames, i);
    assert w.small == v.small;
  }

  // What kfree reads at the start of the page decides correctly.
  lemma KnownHeader(mem: Memory, heads: seq<nat>, bigHead: nat, v: View, frames: set<nat>, a: nat)
    requires Layout(v, frames) && Linked(mem, heads, bigHead, v)
    ensures a in v.small ==>
              MagicOf(Word(mem, PageOf(a))) == MAGIC && TierOf(Word(mem, PageOf(a))) == v.small[a] < TIERS
    ensures (exists i :: 0 <= i < |v.bigs| && v.bigs[i].addr == a) ==> PageOf(a) == a && a !in v.small
  {
    if a in v.small { assert IsSlot(v.pools, a, v.small[a]); }
    if i :| 0 <= i < |v.bigs| && v.bigs[i].addr == a {
      assert PageOf(a) == a && FrameOf(a) in BigRun(v.bigs[i]) && a !in v.pools;
      assert forall b :: b in v.small ==> IsSlot(v.pools, b, v.small[b]);
    }
  }

  lemma BigIsPage(v: View, frames: set<nat>, a: nat)
    requires Layout(v, frames) && exists i :: 0 <= i < |v.bigs| && v.bigs[i].addr == a
    ensures a % PAGE_SIZE == 0 && a > 0
  {
  }

  lemma SlotBehindHeader(v: View, frames: set<nat>, a: nat)
    requires Layout(v, frames)
    ensures a in v.small ==> PageOf(a) != a
  {
  }

  // A run that ends in such a state, on any heap that can serve the request: a
  // caller writes the magic into the first word of its own big block and frees it.
  method WriteMagicAndFree(h: Kheap, size: nat, tier: nat) returns (r: Outcome)
    requires h.Valid() && 1024 < size <= WORD64 - PAGE_SIZE
    requires !Starved(h.v, h.pm.Free(), WrapAlignUp(size) / PAGE_SIZE)
    modifies h, h.pm`reg, h.pm`idx, h.pm`cursor, h.pm.bitmap
    ensures !(r.Freed? && h.Sound())
  {
    hide PhysMem.Valid, PhysMem.Free, Kheap.Valid, Given, Starved, PoolsFrom, Kheap.Sound;
    ghost var v := h.v;
    var a := h.Kmalloc(size);
    GivenBig(v, h.v, a.value, size);
    r := WriteAndFree(h, a.value, tier);
  }

  method WriteAndFree(h: Kheap, a: nat, tier: nat) returns (r: Outcome)
    requires h.Valid() && exists i :: 0 <= i < |h.v.bigs| && h.v.bigs[i].addr == a && InBig(a, h.v.bigs[i])
    modifies h, h.pm.bitmap
    ensures !(r.Freed? && h.Sound())
  {
    hide PhysMem.Valid, PhysMem.Free, Linked, Layout, Kheap.Sound, BigTaken, Pushed;
    BigIsPage(h.v, h.pm.Free(), a);
    BigIsNoSlot(h.v, h.pm.Free(), a);
    HeaderIs(tier);
    h.ClientWrite(a, Header(tier));
    r := h.Kfree(a);
  }

  // A heap with seven free frames.
  method SmallHeap() returns (h: Kheap)
    ensures fresh(h) && fresh(h.pm) && fresh(h.pm.bitmap) && h.Valid() && h.v == EMPTY && h.pm.Free() == Run(1, 7)
  {
    hide Linked, Layout;
    var pm := new PhysMem();
    var bitmap := new bv8[1](_ => 1);
    pm.bitmap, pm.early := bitmap, false;
    assert bitmap[..] == [1];
    SevenFrames(bitmap[..]);
    h := new Kheap(pm);
  }

  // For instance there, with a request of 5000 bytes.
  method MagicRun() returns (h: Kheap, r: Outcome)
    ensures !(r.Freed? && h.Sound())
  {
    hide PhysMem.Valid, PhysMem.Free, Kheap.Valid, Kheap.Sound, Starved;
    h := SmallHeap();
    NotStarved(h.v, h.pm.Free());
    assert WrapAlignUp(5000) == 8192;
    r := WriteMagicAndFree(h, 5000, 0);
  }

  lemma HeaderIs(tier: nat)
    ensures MagicOf(Header(tier)) == MAGIC
  {
  }

  lemma BigIsNoSlot(v: View, frames: set<nat>, a: nat)
    requires Layout(v, frames) && exists i :: 0 <= i < |v.bigs| && v.bigs[i].addr == a
    ensures a !in v.small
  {
    BigIsPage(v, frames, a);
    SlotBehindHeader(v, frames, a);
  }

  lemma SevenFrames(bits: seq<bv8>)
    requires bits == [1]
    ensures FreeSet(bits) == Run(1, 7)
  {
    forall f: nat ensures f in FreeSet(bits) <==> f in Run(1, 7) {
      if f < 8 { assert FrameFree(bits, f) <==> f > 0; }
    }
  }

  lemma NotStarved(v: View, frames: set<nat>)
    requires frames == Run(1, 7)
    ensures !Starved(v, frames, 2)
  {
    assert Run(1, 2) <= frames;
    forall s: nat ensures frames != Run(s, 2) {
      assert 1 in frames && 7 in frames;
      assert !(1 in Run(s, 2) && 7 in Run(s, 2));
    }
  }

  // A block of more than 1024 bytes is a big one.
  lemma GivenBig(v: View, w: View, a: nat, size: nat)
    requires Given(v, w, a, size) && size > 1024
    ensures exists i :: 0 <= i < |w.bigs| && w.bigs[i].addr == a && InBig(a, w.bigs[i])
  {
    NoTier(size);
    var n: nat :| BigGiven(v, w, a, n) && size <= n * PAGE_SIZE < size + PAGE_SIZE;
    assert w.bigs[0] == Big(a, n);
  }

  // A free list that begins with the start of a page fits no layout, since slots
  // lie behind the header of their page.
  lemma NoViewFits(mem: Memory, heads: seq<nat>, bigHead: nat, t: nat)
    requires |heads| == TIERS && t < TIERS && heads[t] % PAGE_SIZE == 0 && heads[t] > 0
    ensures forall w, frames {:trigger Layout(w, frames)} :: Layout(w, frames) ==> !Linked(mem, heads, bigHead, w)
  {
    forall w, frames | Layout(w, frames) ensures !Linked(mem, heads, bigHead, w) {
      hide Complete, Once, BigsOk, Owned, Chain, NodeChain, HeadersOk;
      assert w.free[t] != [] ==> IsSlot(w.pools, w.free[t][0], t);
      assert First(w.free[t]) != heads[t];
    }
  }

  lemma NodePages(mem: Memory, heads: seq<nat>, bigHead: nat, v: View, frames: set<nat>, i: nat)
    requires Layout(v, frames) && Linked(mem, heads, bigHead, v) && i < |v.bigs|
    ensures IsPage(v.bigs[i].addr) && Word(mem, v.nodes[i] + 8) == v.bigs[i].pages
  {
    assert NodeAt(mem, v.nodes[i], v.bigs[i], Next(v.nodes, i));
  }

  lemma NodeNotSmall(v: View, frames: set<nat>, i: nat)
    requires Layout(v, frames) && i < |v.nodes|
    ensures v.nodes[i] !in v.small
  {
  }

  lemma NodesDiffer(v: View, frames: set<nat>, i: nat)
    requires Layout(v, frames) && i < |v.nodes|
    ensures v.nodes[i] != 0 && (i > 0 ==> v.nodes[i] != v.nodes[0])
  {
    assert IsSlot(v.pools, v.nodes[i], 0);
    assert PageOf(v.nodes[i]) >= ID_BASE;
  }

  lemma SizeRounds(size: nat)
    requires 1024 < size < WORD64
    ensures var up := WrapAlignUp(size);
            up % PAGE_SIZE == 0 && (up == 0 || up == AlignUp(size)) && (up != 0 ==> size <= up < size + PAGE_SIZE)
    ensures WrapAlignUp(size) == 0 <==> size > WORD64 - PAGE_SIZE
  {
    var x := size + (PAGE_SIZE - 1);
    DownIs(x);
    if x < WORD64 {
      DivModUnique(x, WORD64, 0, x);
    } else {
      DivModUnique(x, WORD64, 1, x - WORD64);
      DivModUnique(x - WORD64, PAGE_SIZE, 0, x - WORD64);
    }
  }

  lemma DownIs(x: nat)
    ensures AlignDown(x) % PAGE_SIZE == 0 && AlignDown(x) <= x < AlignDown(x) + PAGE_SIZE
  {
  }

  // The pages of a new big block stay apart from what the node's allocation added.
  lemma StillFits(v: View, w: View, frames: set<nat>, left: set<nat>, b: Big)
    requires Layout(v, frames) && Layout(w, left) && w.bigs == v.bigs && IsPage(b.addr) && b.pages > 0
    requires BigRun(b) <= frames && PoolsFrom(v, w, frames - BigRun(b)) && left <= frames - BigRun(b)
    ensures PoolsOk(w.pools) && BigsOk(w) && BigFits(w, b) && BigRun(b) !! left
  {
    hide Complete, SlotsOk, Once;
    forall i | 0 <= i < |w.bigs| ensures BigRun(b) !! BigRun(w.bigs[i]) {
      assert BigRun(v.bigs[i]) !! frames;
    }
  }

  lemma PoolsGrow(u: View, v: View, w: View, few: set<nat>, frames: set<nat>)
    requires (u == v || PoolsFrom(u, v, few)) && few <= frames && w.pools == v.pools
    ensures PoolsFrom(u, w, frames)
  {
  }

  // With the first run of n pages taken, there is nothing left for a node exactly when
  // the request cannot be met.
  lemma StarvedIff(v: View, frames: set<nat>, left: set<nat>, base: nat, n: nat)
    requires |v.free| == TIERS && TakesRun(frames, left, base, n)
    ensures Starved(v, frames, n) <==> left == {} && v.free[0] == []
  {
    if left == {} {
      forall f | f in frames ensures f in Run(base, n) { assert f !in left; }
      assert frames == Run(base, n);
    }
    if Starved(v, frames, n) {
      var s: nat :| frames == Run(s, n);
      assert base in Run(base, n) && base + n - 1 in Run(base, n);
      assert left == {};
    }
  }

  lemma RunsOut(v: View, frames: set<nat>, n: nat)
    requires forall s: nat :: !(Run(s, n) <= frames)
    ensures Starved(v, frames, n)
  {
  }

  lemma BigIsStep(v: View, u: View, w: View, frames: set<nat>, left: set<nat>, after: set<nat>, node: nat, b: Big)
    requires |v.free| == TIERS && IsPage(b.addr) && TakesRun(frames, left, FrameOf(b.addr), b.pages)
    requires forall s: nat :: s < FrameOf(b.addr) ==> !(Run(s, b.pages) <= frames)
    requires SmallStep(v, u, left, after, node, 0) && node != 0 && w == WithBig(u, node, b)
    ensures BigStep(v, w, frames, after, b.addr, b.pages)
  {
    hide SmallStep;
  }

  // Sizes up to 1024 have exactly one tier, larger ones none.
  lemma OneTier(t: nat, size: nat)
    requires Serves(t, size)
    ensures size <= 1024 && forall u: nat :: Serves(u, size) ==> u == t
  {
  }

  lemma NoTier(size: nat)
    requires size > 1024
    ensures forall t: nat :: !Serves(t, size)
  {
  }

  lemma NodeTier()
    ensures Serves(0, NODE_SIZE)
  {
  }

  lemma NothingTaken(v: View, w: View, before: set<nat>, after: set<nat>, t: nat)
    requires |v.free| == TIERS && t < TIERS && v.free[t] == [] && before == {} && SmallStep(v, w, before, after, 0, t)
    ensures w == v && after == before
  {
  }

  // ------------------------------------------------------------ no frame is lost

  // The heap holds a frame: as a page of slots or as part of a big block.
  ghost predicate Holds(v: View, f: nat) {
    || f * PAGE_SIZE + ID_BASE in v.pools
    || exists i :: 0 <= i < |v.bigs| && v.bigs[i].addr >= ID_BASE && f in BigRun(v.bigs[i])
  }

  // What was free or held by the heap still is, and nothing else has come in.
  ghost predicate Conserved(v: View, before: set<nat>, w: View, after: set<nat>) {
    forall f: nat :: f in before || Holds(v, f) <==> f in after || Holds(w, f)
  }

  lemma SmallConserves(v: View, w: View, before: set<nat>, after: set<nat>, a: nat, t: nat)
    requires |v.free| == TIERS && t < TIERS && SmallStep(v, w, before, after, a, t)
    ensures Conserved(v, before, w, after)
  {
    if v.free[t] == [] && before != {} {
      var g: nat :| g in before && PageStep(v, w, before, after, a, t, g);
      PagePools(v, w, before, after, a, t, g);
      hide PageStep, Holds;
      forall f: nat ensures f in before || Holds(v, f) <==> f in after || Holds(w, f) { HoldsPage(v, w, g, t, f); }
    }
  }

  lemma PagePools(v: View, w: View, before: set<nat>, after: set<nat>, a: nat, t: nat, g: nat)
    requires |v.free| == TIERS && t < TIERS && PageStep(v, w, before, after, a, t, g)
    ensures w.bigs == v.bigs && w.pools == v.pools[g * PAGE_SIZE + ID_BASE := t] && after == before - {g}
  {
    hide SlotsOf;
    assert WithPool(v, g * PAGE_SIZE + ID_BASE, t).free[t] == SlotsOf(g * PAGE_SIZE + ID_BASE, t);
  }

  lemma HoldsPage(v: View, w: View, g: nat, t: nat, f: nat)
    requires w.bigs == v.bigs && w.pools == v.pools[g * PAGE_SIZE + ID_BASE := t]
    ensures Holds(w, f) <==> Holds(v, f) || f == g
  {
    hide BigRun;
  }

  // kmalloc of whole pages ...
  lemma BigConserves(v: View, w: View, before: set<nat>, after: set<nat>, a: nat, n: nat)
    requires |v.free| == TIERS && BigStep(v, w, before, after, a, n)
    ensures Conserved(v, before, w, after)
  {
    var run := Run(FrameOf(a), n);
    var u: View, node: nat :|
      SmallStep(v, u, before - run, after, node, 0) && node != 0 && w == WithBig(u, node, Big(a, n));
    SmallConserves(v, u, before - run, after, node, 0);
    forall f: nat ensures Holds(w, f) <==> Holds(u, f) || f in run { HoldsMore(u, w, Big(a, n), f); }
  }

  lemma HoldsMore(u: View, w: View, b: Big, f: nat)
    requires w.bigs == [b] + u.bigs && w.pools == u.pools && b.addr >= ID_BASE
    ensures Holds(w, f) <==> Holds(u, f) || f in BigRun(b)
  {
    hide BigRun;
    assert w.bigs[0] == b && forall i :: 0 <= i < |u.bigs| ==> w.bigs[i + 1] == u.bigs[i];
    if i :| 0 <= i < |w.bigs| && w.bigs[i].addr >= ID_BASE && f in BigRun(w.bigs[i]) {
      if i > 0 { assert w.bigs[i] == u.bigs[i - 1]; }
    }
  }

  // ... and kfree of them.
  lemma FreeConserves(v: View, w: View, before: set<nat>, after: set<nat>, a: nat)
    requires BigTaken(v, w, before, after, a)
    ensures Conserved(v, before, w, after)
  {
    var i: nat :| i < |v.bigs| && v.bigs[i].addr == a && BigTakenAt(v, w, before, after, i);
    forall f: nat ensures Holds(v, f) <==> Holds(w, f) || f in BigRun(v.bigs[i]) { HoldsLess(v, w, i, f); }
  }

  lemma HoldsLess(v: View, w: View, i: nat, f: nat)
    requires i < |v.bigs| && w.bigs == v.bigs[..i] + v.bigs[i + 1..] && w.pools == v.pools && v.bigs[i].addr >= ID_BASE
    ensures Holds(v, f) <==> Holds(w, f) || f in BigRun(v.bigs[i])
  {
    hide BigRun;
    if j :| 0 <= j < |v.bigs| && v.bigs[j].addr >= ID_BASE && f in BigRun(v.bigs[j]) {
      if j < i { assert w.bigs[j] == v.bigs[j]; }
      if j > i { assert w.bigs[j - 1] == v.bigs[j]; }
    }
    if j :| 0 <= j < |w.bigs| && w.bigs[j].addr >= ID_BASE && f in BigRun(w.bigs[j]) {
      assert w.bigs[j] == v.bigs[if j < i then j else j + 1];
    }
  }

  lemma NodeSlot(v: View, w: View, a: nat)
    requires SmallGiven(v, w, a, 0)
    ensures a in w.small && w.small[a] == 0 && a !in v.small && w.bigs == v.bigs
  {
  }

  lemma BigIsGiven(v: View, u: View, w: View, a: nat, b: Big, size: nat)
    requires SmallGiven(v, u, a, 0) && w == WithBig(u, a, b) && size <= b.pages * PAGE_SIZE < size + PAGE_SIZE
    ensures Given(v, w, b.addr, size)
  {
    assert BigGiven(v, w, b.addr, b.pages);
  }

  lemma LessFrames(v: View, frames: set<nat>, fewer: set<nat>)
    requires Layout(v, frames) && fewer <= frames
    ensures Layout(v, fewer)
  {
  }

  // The head pointer is NULL exactly when the list is empty.
  lemma FreeHead(mem: Memory, heads: seq<nat>, bigHead: nat, v: View, frames: set<nat>, t: nat)
    requires Layout(v, frames) && Linked(mem, heads, bigHead, v) && t < TIERS
    ensures heads[t] == 0 <==> v.free[t] == []
  {
    if v.free[t] != [] {
      assert IsSlot(v.pools, v.free[t][0], t);
      assert PageOf(v.free[t][0]) >= ID_BASE;
    }
  }

  lemma PopGiven(v: View, frames: set<nat>, t: nat)
    requires Layout(v, frames) && t < TIERS && v.free[t] != []
    ensures SmallGiven(v, Popped(v, t), v.free[t][0], t) && PoolsFrom(v, Popped(v, t), frames)
  {
    assert IsSlot(v.pools, v.free[t][0], t);
  }

  lemma PageOfFrame(frame: nat)
    requires frame % PAGE_SIZE == 0
    ensures IsPage(frame + ID_BASE) && FrameOf(frame + ID_BASE) == frame / PAGE_SIZE
  {
  }

  lemma NewPage(m: Memory, m': Memory, p: nat, t: nat)
    requires p % PAGE_SIZE == 0 && SameOutside(m[p := Header(t)], m', p)
    ensures SameOutside(m, m', p)
  {
    forall x | x in m.Keys + m'.Keys && PageOf(x) != p ensures Word(m', x) == Word(m, x) {
      assert x != p;
      SameWord(m[p := Header(t)], m', p, x);
    }
  }

  // The last slot ends the page.
  lemma LastSlot(page: nat, t: nat)
    requires t < TIERS
    ensures var s := SlotsOf(page, t); |s| > 0 && s[|s| - 1] == page + PAGE_SIZE - SlotSize(t)
  {
  }

  // Where slot k stands among the slots of its page.
  lemma ThreadStep(page: nat, t: nat, k: nat)
    requires t < TIERS && k < |SlotsOf(page, t)|
    ensures var s := SlotsOf(page, t);
            && (forall i :: 0 <= i < |s| && i != k ==> s[i] != s[k]) && s[k] > page
            && (s[k] < page + PAGE_SIZE - SlotSize(t) ==> k + 1 < |s| && s[k + 1] == s[k] + SlotSize(t))
            && (s[k] >= page + PAGE_SIZE - SlotSize(t) ==> k + 1 == |s| && s[k] == page + PAGE_SIZE - SlotSize(t))
  {
    PoolNoDup(page, t);
    LastSlot(page, t);
    var s := SlotsOf(page, t);
    if k + 1 < |s| { MulOrder(SlotSize(t), k + 1, |s|); }
    MulOrder(SlotSize(t), 0, k + 1);
  }
}
