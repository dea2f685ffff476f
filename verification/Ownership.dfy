// Who owns which frame, over whole runs of the allocators.
module Ownership {
  import opened Base
  import opened FrameBitmap
  import opened Frames
  import MemoryMap

  // The free frames, and the live allocations: first frame -> number of frames.
  datatype Mem = Mem(free: set<nat>, live: map<nat, nat>)

  // A successful allocation, early or not, of any number of frames.
  predicate TakeStep(m: Mem, n: Mem, base: nat, count: nat) {
    TakesRun(m.free, n.free, base, count) && n.live == m.live[base := count]
  }

  // A caller gives back an allocation it holds.
  predicate GiveStep(m: Mem, n: Mem, base: nat) {
    base in m.live && GivesRun(m.free, n.free, base, m.live[base]) && n.live == m.live - {base}
  }

  // The early allocator skips a region that is too short, or pmm_init gives up
  // what lies below the early cursor.
  predicate DropStep(m: Mem, n: Mem) { n.free <= m.free && n.live == m.live }

  ghost predicate BitmapStep(m: Mem, n: Mem) {
    || (exists base, count :: TakeStep(m, n, base, count))
    || (exists base :: GiveStep(m, n, base))
  }

  ghost predicate Step(m: Mem, n: Mem) { BitmapStep(m, n) || DropStep(m, n) }

  // Taking one frame, as both allocators do, is such a step.
  lemma OneFrameIsTaken(m: Mem, n: Mem, f: nat)
    requires f in m.free && n.free == m.free - {f} && n.live == m.live[f := 1]
    ensures TakeStep(m, n, f, 1)
  {
    assert Run(f, 1) == {f};
  }

  // The frames of a set from f on.
  function Above(s: set<nat>, f: nat): set<nat> { set x | x in s && x >= f }

  // So is what early_pmm_alloc_continuous_frames and pmm_init do, after giving
  // up the frames below the run.
  lemma EarlyRunIsTaken(m: Mem, n: Mem, base: nat, count: nat)
    requires count > 0 && Run(base, count) <= m.free && n.live == m.live[base := count]
    requires n.free == Above(m.free, base + count)
    ensures exists k :: DropStep(m, k) && TakeStep(k, n, base, count)
  {
    var k := Mem(n.free + Run(base, count), m.live);
    assert k.free - Run(base, count) == n.free;
    assert DropStep(m, k) && TakeStep(k, n, base, count);
  }

  // Live allocations overlap neither each other nor the free frames.
  predicate Separate(m: Mem) {
    && (forall a :: a in m.live ==> m.live[a] > 0)
    && (forall a, f :: a in m.live && f in Run(a, m.live[a]) ==> f !in m.free)
    && (forall a, b, f :: a in m.live && b in m.live && f in Run(a, m.live[a]) && f in Run(b, m.live[b]) ==> a == b)
  }

  predicate Held(m: Mem, f: nat) { exists a :: a in m.live && f in Run(a, m.live[a]) }

  predicate Known(m: Mem, f: nat) { f in m.free || Held(m, f) }

  lemma TakeKeeps(m: Mem, n: Mem, base: nat, count: nat)
    requires Separate(m) && TakeStep(m, n, base, count)
    ensures Separate(n) && base !in m.live
    ensures forall f :: Known(n, f) <==> Known(m, f)
  {
    assert base in Run(base, count);
    assert base in m.live ==> base in Run(base, m.live[base]);
    forall f ensures Known(n, f) <==> Known(m, f) {
      if Held(m, f) {
        var a :| a in m.live && f in Run(a, m.live[a]);
        assert a in n.live && f in Run(a, n.live[a]);
      }
      if f in Run(base, count) { assert base in n.live && f in Run(base, n.live[base]); }
      if Held(n, f) {
        var a :| a in n.live && f in Run(a, n.live[a]);
        assert a != base ==> a in m.live && f in Run(a, m.live[a]);
      }
    }
  }

  lemma GiveKeeps(m: Mem, n: Mem, base: nat)
    requires Separate(m) && GiveStep(m, n, base)
    ensures Separate(n)
    ensures forall f :: Known(n, f) <==> Known(m, f)
  {
    forall f ensures Known(n, f) <==> Known(m, f) {
      if Held(m, f) {
        var a :| a in m.live && f in Run(a, m.live[a]);
        assert a != base ==> a in n.live && f in Run(a, n.live[a]);
      }
      if Held(n, f) {
        var a :| a in n.live && f in Run(a, n.live[a]);
        assert a in m.live && f in Run(a, m.live[a]);
      }
      if f in Run(base, m.live[base]) { assert Held(m, f); }
    }
  }

  lemma DropKeeps(m: Mem, n: Mem)
    requires Separate(m) && DropStep(m, n)
    ensures Separate(n)
    ensures forall f :: Known(n, f) ==> Known(m, f)
  {
    forall f | Known(n, f) ensures Known(m, f) {
      if Held(n, f) {
        var a :| a in n.live && f in Run(a, n.live[a]);
        assert a in m.live && f in Run(a, m.live[a]);
      }
    }
  }

  lemma StepKeeps(m: Mem, n: Mem)
    requires Separate(m) && Step(m, n)
    ensures Separate(n)
    ensures forall f :: Known(n, f) ==> Known(m, f)
    ensures BitmapStep(m, n) ==> forall f :: Known(m, f) ==> Known(n, f)
  {
    if base, count :| TakeStep(m, n, base, count) {
      TakeKeeps(m, n, base, count);
    } else if base :| GiveStep(m, n, base) {
      GiveKeeps(m, n, base);
    } else {
      DropKeeps(m, n);
    }
  }

  ghost predicate IsRun(tr: seq<Mem>) {
    && |tr| > 0 && tr[0].live == map[]
    && forall k :: 0 <= k < |tr| - 1 ==> Step(tr[k], tr[k + 1])
  }

  // In every state of every run no frame has two owners or is both owned and
  // free, and every frame known at any time was on offer at the start.
  lemma {:induction false} RunSafe(tr: seq<Mem>, i: nat)
    requires IsRun(tr) && i < |tr|
    ensures Separate(tr[i])
    ensures forall f :: Known(tr[i], f) ==> f in tr[0].free
  {
    if i > 0 {
      RunSafe(tr, i - 1);
      StepKeeps(tr[i - 1], tr[i]);
    }
  }

  // Once the bitmap is in charge, free plus held frames stay one fixed set.
  lemma {:induction false} RunConserves(tr: seq<Mem>, i: nat, j: nat)
    requires IsRun(tr) && i <= j < |tr|
    requires forall k :: i <= k < j ==> BitmapStep(tr[k], tr[k + 1])
    ensures forall f :: Known(tr[i], f) <==> Known(tr[j], f)
    decreases j
  {
    if i < j {
      RunConserves(tr, i, j - 1);
      RunSafe(tr, j - 1);
      StepKeeps(tr[j - 1], tr[j]);
    }
  }

  // No frame held at any time of a run that starts from the firmware's map
  // touches a region that is not usable or the kernel image.
  lemma HeldIsUsable(tr: seq<Mem>, i: nat, firmware: seq<MemoryMap.Region>, kernelEnd: nat, f: nat, k: nat, a: nat)
    requires IsRun(tr) && i < |tr| && Held(tr[i], f)
    requires forall g :: g in tr[0].free ==> UsableFrame(RawMap(firmware, kernelEnd), g)
    requires f * PAGE_SIZE <= a < (f + 1) * PAGE_SIZE && k < |firmware|
    ensures MemoryMap.Covers(firmware[k], a) ==> firmware[k].kind == MemoryMap.Usable
    ensures !(KERNEL_START_PHYS <= a < kernelEnd)
  {
    RunSafe(tr, i);
    assert Known(tr[i], f);
    UsableFrameAvoids(firmware, kernelEnd, f, k, a);
  }

  // What is not given back stays held.
  lemma StaysHeld(m: Mem, n: Mem, base: nat)
    requires Separate(m) && Step(m, n) && base in m.live && !GiveStep(m, n, base)
    ensures base in n.live && n.live[base] == m.live[base]
  {
    if b, count :| TakeStep(m, n, b, count) {
      TakeKeeps(m, n, b, count);
    }
  }

  lemma {:induction false} RunStaysHeld(tr: seq<Mem>, i: nat, j: nat, base: nat)
    requires IsRun(tr) && i <= j < |tr| && base in tr[i].live
    requires forall k :: i <= k < j ==> !GiveStep(tr[k], tr[k + 1], base)
    ensures base in tr[j].live && tr[j].live[base] == tr[i].live[base]
    decreases j
  {
    if i < j {
      RunStaysHeld(tr, i, j - 1, base);
      RunSafe(tr, j - 1);
      StaysHeld(tr[j - 1], tr[j], base);
    }
  }

  // The bitmap lies in a run that pmm_init takes. As long as nobody gives it back,
  // no frame of it is ever free or part of another allocation.
  lemma BitmapIsSafe(tr: seq<Mem>, i: nat, j: nat, base: nat, other: nat, f: nat)
    requires IsRun(tr) && i <= j < |tr| && base in tr[i].live && f in Run(base, tr[i].live[base])
    requires forall k :: i <= k < j ==> !GiveStep(tr[k], tr[k + 1], base)
    ensures f !in tr[j].free
    ensures other in tr[j].live && other != base ==> f !in Run(other, tr[j].live[other])
  {
    RunStaysHeld(tr, i, j, base);
    RunSafe(tr, j);
  }
}
