// The two allocators in one machine, with who holds what: every call is a step
// of Ownership, so what is proved there holds of every run of the code.
module Allocators {
  import opened Base
  import opened FrameBitmap
  import opened Frames
  import opened Ownership
  import MemoryMap

  // What can be asked of the allocators.
  datatype Request = OneFrame | ManyFrames(count: nat) | Handover | GiveBack(base: nat)

  // Exactly the usable frames from 1 MiB on.
  ghost predicate Usable(free: set<nat>, firmware: seq<MemoryMap.Region>, kernelEnd: nat) {
    forall f: nat :: f in free <==> f * PAGE_SIZE >= MIN_USABLE && UsableFrame(RawMap(firmware, kernelEnd), f)
  }

  class Allocators {
    const pm: PhysMem
    ghost const firmware: seq<MemoryMap.Region>
    ghost const kernelEnd: nat
    // The allocations that have been handed out: first frame -> number of frames.
    var live: map<nat, nat>
    // The one that holds the bitmap, after the handover.
    var own: nat
    // All states so far.
    ghost var history: seq<Mem>

    ghost function Now(): Mem
      reads this, pm, pm.bitmap
    {
      Mem(pm.Free(), live)
    }

    ghost predicate Valid()
      reads this, pm, pm.bitmap
    {
      && pm.Valid() && MemoryMap.CleanFormOf(pm.clean, RawMap(firmware, kernelEnd))
      && |history| > 0 && IsRun(history) && history[|history| - 1] == Now()
      && Usable(history[0].free, firmware, kernelEnd)
      && (!pm.early ==> own in live && pm.bitmap.Length <= live[own] * PAGE_SIZE)
    }

    // After early_pmm_init.
    constructor (pm: PhysMem, ghost firmware: seq<MemoryMap.Region>, ghost kernelEnd: nat)
      requires pm.Valid() && pm.early && MemoryMap.CleanFormOf(pm.clean, RawMap(firmware, kernelEnd))
      requires Usable(pm.Free(), firmware, kernelEnd)
      ensures Valid() && this.pm == pm && this.firmware == firmware && this.kernelEnd == kernelEnd
      ensures live == map[] && |history| == 1
    {
      this.pm, this.firmware, this.kernelEnd := pm, firmware, kernelEnd;
      live, own := map[], 0;
      history := [Mem(pm.Free(), map[])];
    }

    // One frame, from whichever allocator is in charge; 0 is NULL.
    method TakeFrame() returns (paddr: nat)
      requires Valid()
      modifies this`live, this`history, pm`reg, pm`idx, pm`cursor, pm.bitmap
      ensures Valid() && old(history) <= history && pm.early == old(pm.early)
      ensures paddr == 0 <==> old(pm.Free()) == {}
      ensures paddr != 0 ==> TakeStep(old(Now()), Now(), paddr / PAGE_SIZE, 1)
      ensures paddr == 0 ==> Now() == old(Now())
    {
      hide PhysMem.Valid, PhysMem.Free, Usable, IsRun, TakeStep;
      ghost var m := Now();
      paddr := pm.CurrentAllocFrame();
      if paddr != 0 {
        live := live[paddr / PAGE_SIZE := 1];
        OneFrameIsTaken(m, Now(), paddr / PAGE_SIZE);
        Taken(history, Now(), paddr / PAGE_SIZE, 1, own);
        history := history + [Now()];
      }
    }

    // A run of frames from the early allocator; 0 is NULL.
    method TakeEarly(count: nat) returns (paddr: nat)
      requires Valid() && pm.early && 0 < count <= FRAME_LIMIT
      modifies this`live, this`history, pm`reg, pm`idx, pm`cursor
      ensures Valid() && old(history) <= history
      ensures paddr == 0 <==> forall s :: !(Run(s, count) <= old(pm.Free()))
      ensures paddr != 0 ==> live == old(live)[paddr / PAGE_SIZE := count]
      ensures paddr == 0 ==> live == old(live)
    {
      hide PhysMem.Valid, PhysMem.Free, Usable, IsRun;
      ghost var m := Now();
      paddr := pm.EarlyAllocContinuousFrames(count);
      if paddr != 0 {
        live := live[paddr / PAGE_SIZE := count];
        history := EarlyTaken(history, Now(), paddr / PAGE_SIZE, count);
      } else {
        Dropped(history, Now());
        history := history + [Now()];
      }
    }

    // pmm_init: the bitmap takes over, in a run that stays allocated.
    method HandOver() returns (status: int)
      requires Valid() && pm.early
      modifies this`live, this`own, this`history, pm
      ensures Valid() && old(history) <= history && (pm.early <==> status != 0)
      ensures pm.early ==> pm.bitmap == old(pm.bitmap)
      ensures !pm.early ==> fresh(pm.bitmap)
    {
      hide PhysMem.Valid, PhysMem.Free, Usable, IsRun;
      ghost var m := Now();
      var base, frames;
      status, base, frames := pm.PmmInit();
      if status == 0 {
        live, own := live[base := frames], base;
        history := EarlyTaken(history, Now(), base, frames);
      } else {
        Dropped(history, Now());
        history := history + [Now()];
      }
    }

    // A run of frames from the bitmap: None is the panic on count 0, Some(0) is NULL.
    method TakeRun(count: nat) returns (r: Option<nat>)
      requires Valid() && !pm.early
      modifies this`live, this`history, pm.bitmap
      ensures Valid() && old(history) <= history && (r.None? <==> count == 0)
      ensures r.Some? ==> (r.value == 0 <==> forall s :: !(Run(s, count) <= old(pm.Free())))
      ensures r.Some? && r.value != 0 ==> TakeStep(old(Now()), Now(), r.value / PAGE_SIZE, count)
      ensures r.None? || r == Some(0) ==> Now() == old(Now())
    {
      hide PhysMem.Valid, PhysMem.Free, Usable, IsRun;
      r := pm.PmmAllocContiguousFrames(count);
      if r.Some? && r.value != 0 {
        live := live[r.value / PAGE_SIZE := count];
        Taken(history, Now(), r.value / PAGE_SIZE, count, own);
        history := history + [Now()];
      }
    }

    // A holder gives back an allocation, early or not; single frames through
    // pmm_free_frame, which never panics here.
    method Give(base: nat)
      requires Valid() && !pm.early && base in live && base != own
      modifies this`live, this`history, pm.bitmap
      ensures Valid() && old(history) <= history && GiveStep(old(Now()), Now(), base)
    {
      hide PhysMem.Valid, PhysMem.Free, Usable, IsRun;
      ghost var m := Now();
      InBitmap(base);
      if live[base] == 1 {
        var ok := pm.PmmFreeFrame(base * PAGE_SIZE);
      } else {
        pm.PmmFreeContiguousFrames(base * PAGE_SIZE, live[base]);
      }
      live := live - {base};
      Given(history, Now(), base);
      history := history + [Now()];
    }

    // Serves a request, if it makes sense: nobody gives back what it does not hold.
    method Serve(r: Request)
      requires Valid()
      modifies this, pm, pm.bitmap
      ensures Valid() && old(history) <= history
      ensures pm.bitmap == old(pm.bitmap) || fresh(pm.bitmap)
      ensures r.OneFrame? && old(pm.Free()) != {} ==> exists f: nat :: TakeStep(old(Now()), Now(), f, 1)
      ensures r.ManyFrames? && r.count > 0 && !old(pm.early) && (exists s: nat :: Run(s, r.count) <= old(pm.Free())) ==>
                exists b: nat :: TakeStep(old(Now()), Now(), b, r.count)
      ensures r.GiveBack? && !old(pm.early) && r.base in old(live) && r.base != old(own) ==>
                GiveStep(old(Now()), Now(), r.base)
    {
      hide PhysMem.Valid, PhysMem.Free, Usable, IsRun, TakeStep, GiveStep, Run;
      match r
      case OneFrame =>
        var paddr := TakeFrame();
      case ManyFrames(count) =>
        if !pm.early {
          var p := TakeRun(count);
        } else if 0 < count <= FRAME_LIMIT {
          var p := TakeEarly(count);
        }
      case Handover =>
        if pm.early {
          var status := HandOver();
        }
      case GiveBack(base) =>
        if !pm.early && base in live && base != own {
          Give(base);
        }
    }

    // Any list of requests, from boot on, across the handover.
    method ServeAll(rs: seq<Request>)
      requires Valid()
      modifies this, pm, pm.bitmap
      ensures Valid() && old(history) <= history
    {
      hide Valid;
      for i := 0 to |rs|
        invariant Valid() && old(history) <= history
        invariant pm.bitmap == old(pm.bitmap) || fresh(pm.bitmap)
      {
        Serve(rs[i]);
      }
    }

    // At any time no frame has two holders or is both held and free, and neither the
    // kernel image nor a region that is not usable is touched.
    lemma HeldIsSafe(f: nat, k: nat, a: nat)
      requires Valid() && Held(Now(), f) && k < |firmware| && f * PAGE_SIZE <= a < (f + 1) * PAGE_SIZE
      ensures Separate(Now()) && f !in pm.Free()
      ensures MemoryMap.Covers(firmware[k], a) ==> firmware[k].kind == MemoryMap.Usable
      ensures !(KERNEL_START_PHYS <= a < kernelEnd)
    {
      hide IsRun, PhysMem.Valid, PhysMem.Free, UsableFrame, MemoryMap.CleanFormOf;
      RunSafe(history, |history| - 1);
      HeldIsUsable(history, |history| - 1, firmware, kernelEnd, f, k, a);
    }

    // After the handover nothing but the bitmap is ever in its frames.
    lemma BitmapAlone(f: nat, base: nat)
      requires Valid() && !pm.early && f in Run(own, live[own])
      ensures f !in pm.Free() && (base in live && base != own ==> f !in Run(base, live[base]))
      ensures pm.bitmap.Length <= live[own] * PAGE_SIZE
    {
      hide IsRun, PhysMem.Valid, PhysMem.Free, Usable;
      RunSafe(history, |history| - 1);
    }

    // Everything held lies within the bitmap, and is not free.
    lemma InBitmap(base: nat)
      requires Valid() && !pm.early && base in live
      ensures 0 < base && base + live[base] <= 8 * pm.bitmap.Length && live[base] > 0 && base !in pm.Free()
      ensures base * PAGE_SIZE / PAGE_SIZE == base
    {
      hide IsRun, PhysMem.Free;
      var n := live[base];
      RunSafe(history, |history| - 1);
      HeldStart(history[|history| - 1], base);
      HeldIn(base, base);
      HeldIn(base, base + n - 1);
    }

    lemma HeldIn(base: nat, f: nat)
      requires Valid() && !pm.early && base in live && base <= f < base + live[base]
      ensures 0 < f < 8 * pm.bitmap.Length
    {
      hide IsRun, PhysMem.Free, UsableFrame, Separate, MemoryMap.CleanFormOf;
      RunSafe(history, |history| - 1);
      assert f in Run(base, live[base]);
      assert Held(Now(), f) && Known(Now(), f);
      UsableFrameIff(pm.clean, RawMap(firmware, kernelEnd), f);
    }
  }

  // From the firmware's map to the first request.
  method Boot(firmware: seq<MemoryMap.Region>, kernelEnd: nat) returns (a: Option<Allocators>)
    requires kernelEnd <= MAX_PHYS - PAGE_SIZE
    requires forall k :: 0 <= k < |firmware| ==> firmware[k].end <= MAX_PHYS
    ensures a.Some? ==> fresh(a.value) && fresh(a.value.pm) && fresh(a.value.pm.bitmap)
    ensures a.Some? ==> a.value.Valid() && a.value.pm.early
    ensures a.Some? ==> a.value.firmware == firmware && a.value.kernelEnd == kernelEnd
    ensures a.None? ==>
              || |firmware| >= MemoryMap.MAX_REGIONS
              || forall m :: MemoryMap.CleanFormOf(m, RawMap(firmware, kernelEnd)) ==> |m| > MemoryMap.MAX_REGIONS
  {
    var pm := new PhysMem();
    var r := pm.EarlyInit(firmware, kernelEnd);
    if !r.Status? {
      return None;
    }
    var b := new Allocators(pm, firmware, kernelEnd);
    return Some(b);
  }

  // A step makes the run longer.
  lemma Longer(tr: seq<Mem>, n: Mem)
    requires IsRun(tr) && Step(tr[|tr| - 1], n)
    ensures IsRun(tr + [n])
  {
    hide Step;
    var u := tr + [n];
    forall k | 0 <= k < |u| - 1 ensures Step(u[k], u[k + 1]) {
      if k < |tr| - 1 { assert Step(tr[k], tr[k + 1]); }
    }
  }

  // Taking makes the run longer, and what is held is not handed out again.
  lemma Taken(tr: seq<Mem>, n: Mem, base: nat, count: nat, own: nat)
    requires IsRun(tr) && TakeStep(tr[|tr| - 1], n, base, count)
    ensures IsRun(tr + [n]) && base !in tr[|tr| - 1].live
    ensures own in tr[|tr| - 1].live ==> own in n.live && n.live[own] == tr[|tr| - 1].live[own]
  {
    RunSafe(tr, |tr| - 1);
    TakeKeeps(tr[|tr| - 1], n, base, count);
    assert Step(tr[|tr| - 1], n);
    Longer(tr, n);
  }

  lemma Dropped(tr: seq<Mem>, n: Mem)
    requires IsRun(tr) && DropStep(tr[|tr| - 1], n)
    ensures IsRun(tr + [n])
  {
    Longer(tr, n);
  }

  lemma HeldStart(m: Mem, base: nat)
    requires Separate(m) && base in m.live
    ensures m.live[base] > 0 && base !in m.free
  {
    assert base in Run(base, m.live[base]);
  }

  lemma Given(tr: seq<Mem>, n: Mem, base: nat)
    requires IsRun(tr) && GiveStep(tr[|tr| - 1], n, base)
    ensures IsRun(tr + [n])
  {
    assert Step(tr[|tr| - 1], n);
    Longer(tr, n);
  }

  // An early run is taken after what lies below has been given up.
  lemma EarlyTaken(tr: seq<Mem>, n: Mem, base: nat, count: nat) returns (u: seq<Mem>)
    requires IsRun(tr) && count > 0 && Run(base, count) <= tr[|tr| - 1].free
    requires n.live == tr[|tr| - 1].live[base := count]
    requires n.free == Above(tr[|tr| - 1].free, base + count)
    ensures IsRun(u) && tr <= u && u[|u| - 1] == n
  {
    hide TakeStep, DropStep;
    EarlyRunIsTaken(tr[|tr| - 1], n, base, count);
    var k :| DropStep(tr[|tr| - 1], k) && TakeStep(k, n, base, count);
    Dropped(tr, k);
    Taken(tr + [k], n, base, count, base);
    u := tr + [k] + [n];
  }
}
