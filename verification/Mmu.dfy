// Building page tables (arch/x86_64/kernel/paging.c) out of frames that the
// physical allocator hands out.
module Mmu {
  import opened Base
  import opened PageTable
  import opened PageSplit
  import opened Frames

  // A step from a table to the next level.
  datatype Next = Down(table: nat) | HugeLeaf | NoFrames

  datatype Walked = Slot(table: nat) | HitHuge | OutOfFrames

  // What ends a mapping request; everything but Mapped is a panic.
  datatype Outcome = Mapped | PanicHuge | PanicFrames | PanicPresent | PanicAlign

  // What a top-level table g had before is translated as before.
  ghost predicate SameFor(t: Tables, u: Tables, g: nat) {
    forall vb: nat :: vb < VA_LIMIT ==> Translate(u, g, vb) == Translate(t, g, vb)
  }

  // u extends t by tables that change no translation; tables keep their level and
  // only the slot of root that is walked can change.
  ghost predicate Grown(t: Tables, lev: map<nat, nat>, u: Tables, lev': map<nat, nat>, root: nat, slot: nat) {
    && Wf(t, lev) && Wf(u, lev') && slot < 512 && root in t && lev[root] == 0
    && (forall f :: f in t ==> f in u && lev'[f] == lev[f])
    && (forall f :: f in u && lev'[f] == 0 ==> f in t)
    && (forall g :: g in t && lev[g] == 0 ==> SameFor(t, u, g))
    && (forall g, j :: g in t && lev[g] == 0 && 0 <= j < 512 && (g != root || j != slot) ==> u[g][j] == t[g][j])
    && (t[root][slot].present ==> u[root][slot] == t[root][slot])
    && (!t[root][slot].present && u[root][slot].present ==> u[root][slot].addr !in t)
    && WaysKeptFrom(t, u, root, 0)
  }

  // The ways to addresses from `from` on have lost no table and got no huge entry.
  ghost predicate WaysKeptFrom(t: Tables, u: Tables, root: nat, from: nat) {
    forall vb: nat, l: nat {:trigger WayKept(t, u, root, 0, vb, l)} ::
      from <= vb < VA_LIMIT && l <= 3 ==> WayKept(t, u, root, 0, vb, l)
  }

  lemma WaysKeptRefl(t: Tables, root: nat, from: nat)
    ensures WaysKeptFrom(t, t, root, from)
  {
  }

  lemma WaysKeptTrans(t: Tables, u: Tables, w: Tables, root: nat, from: nat)
    requires WaysKeptFrom(t, u, root, from) && WaysKeptFrom(u, w, root, from)
    ensures WaysKeptFrom(t, w, root, from)
  {
    hide HugeOnWay, Reach;
    forall vb: nat, l: nat | from <= vb < VA_LIMIT && l <= 3 ensures WayKept(t, w, root, 0, vb, l) {
      assert WayKept(t, u, root, 0, vb, l) && WayKept(u, w, root, 0, vb, l);
    }
  }

  // The ways to addresses outside the block of va, likewise.
  ghost predicate WaysKeptBut(t: Tables, u: Tables, root: nat, va: nat, l: nat)
    requires l <= 3
  {
    forall vb: nat, goal: nat {:trigger WayKept(t, u, root, 0, vb, goal)} ::
      vb < VA_LIMIT && goal <= 3 && BlockOf(vb, l) != BlockOf(va, l) ==> WayKept(t, u, root, 0, vb, goal)
  }

  lemma WaysKeptButTrans(t: Tables, u: Tables, w: Tables, root: nat, va: nat, l: nat)
    requires l <= 3 && WaysKeptFrom(t, u, root, 0) && WaysKeptBut(u, w, root, va, l)
    ensures WaysKeptBut(t, w, root, va, l)
  {
    hide HugeOnWay, Reach, BlockOf;
    forall vb: nat, goal: nat | vb < VA_LIMIT && goal <= 3 && BlockOf(vb, l) != BlockOf(va, l)
      ensures WayKept(t, w, root, 0, vb, goal)
    {
      assert WayKept(t, u, root, 0, vb, goal) && WayKept(u, w, root, 0, vb, goal);
    }
  }

  // All ways kept are in particular those outside a block.
  lemma WaysKeptIsBut(t: Tables, u: Tables, root: nat, va: nat, l: nat)
    requires l <= 3 && WaysKeptFrom(t, u, root, 0)
    ensures WaysKeptBut(t, u, root, va, l)
  {
    hide WayKept, BlockOf;
  }

  lemma LeafKeepsWays(t: Tables, lev: map<nat, nat>, root: nat, va: nat, f: nat, e: Entry)
    requires Wf(t, lev) && root in t && lev[root] == 0 && f in t && va < VA_LIMIT && e.present && lev[f] <= 3
    requires IsLeaf(e, lev[f]) && Reach(t, root, 0, va, lev[f]) == Some(f)
    ensures WaysKeptBut(t, t[f := t[f][Idx(va, lev[f]) := e]], root, va, lev[f])
  {
    hide Typed, Unshared, Reach, WayKept, BlockOf, Idx, GoesThrough;
    var i := Idx(va, lev[f]);
    var u := t[f := t[f][i := e]];
    forall vb: nat, l: nat | vb < VA_LIMIT && l <= 3 && BlockOf(vb, lev[f]) != BlockOf(va, lev[f])
      ensures WayKept(t, u, root, 0, vb, l)
    {
      NotThrough(t, lev, root, va, f, vb, lev[f]);
      WayAfterWrite(t, lev, f, i, e, root, 0, vb, l);
    }
  }

  lemma GrownRefl(t: Tables, lev: map<nat, nat>, root: nat, slot: nat)
    requires Wf(t, lev) && root in t && lev[root] == 0 && slot < 512
    ensures Grown(t, lev, t, lev, root, slot)
  {
  }

  lemma GrownByTable(t: Tables, lev: map<nat, nat>, root: nat, va: nat, f: nat, n: nat)
    requires Wf(t, lev) && root in t && lev[root] == 0 && f in t && lev[f] < 3
    requires !t[f][Idx(va, lev[f])].present && n !in t && (lev[f] == 0 ==> f == root)
    ensures Grown(t, lev, WithTable(t, f, Idx(va, lev[f]), n), lev[n := lev[f] + 1], root, Idx(va, 0))
  {
    var i := Idx(va, lev[f]);
    var u := WithTable(t, f, i, n);
    WfAfterTable(t, lev, f, i, n);
    forall g | g in t && lev[g] == 0 ensures SameFor(t, u, g) {
      forall vb: nat | vb < VA_LIMIT ensures Translate(u, g, vb) == Translate(t, g, vb) {
        LookupAfterTable(t, lev, f, i, n, g, 0, vb);
      }
    }
    forall vb: nat, l: nat | vb < VA_LIMIT && l <= 3 ensures WayKept(t, u, root, 0, vb, l) {
      WayAfterTable(t, lev, f, i, n, root, 0, vb, l);
    }
  }

  lemma GrownTrans(t: Tables, lt: map<nat, nat>, u: Tables, lu: map<nat, nat>, w: Tables, lw: map<nat, nat>,
                   root: nat, slot: nat)
    requires Grown(t, lt, u, lu, root, slot) && Grown(u, lu, w, lw, root, slot)
    ensures Grown(t, lt, w, lw, root, slot)
  {
    forall g | g in t && lt[g] == 0 ensures SameFor(t, w, g) {
      assert SameFor(t, u, g) && SameFor(u, w, g);
    }
    assert !t[root][slot].present && w[root][slot].present ==> w[root][slot].addr !in t;
    WaysKeptTrans(t, u, w, root, 0);
  }

  // Slots stay private while other slots, or this one, grow.
  lemma GrownPrivate(t: Tables, lt: map<nat, nat>, u: Tables, lu: map<nat, nat>, root: nat, slot: nat, g: nat, j: nat)
    requires Grown(t, lt, u, lu, root, slot) && g in t && lt[g] == 0 && j < 512
    requires Private(t, lt, g, j) && (g != root && j == slot ==> Private(t, lt, root, slot))
    ensures Private(u, lu, g, j)
  {
    forall h | h in u && lu[h] == 0 && h != g && u[h][j].present && u[g][j].present
      ensures u[h][j].addr != u[g][j].addr
    {
      TopTyped(t, lt, h, j);
      TopTyped(t, lt, g, j);
    }
  }

  // Outside the blocks of va no entry has become present.
  ghost predicate NoNewEntries(t: Tables, u: Tables, root: nat, va: nat) {
    forall vb: nat, l: nat {:trigger Entered(u, root, 0, vb, l)} ::
      vb < VA_LIMIT && l <= 3 && BlockOf(vb, l) != BlockOf(va, l) && Entered(u, root, 0, vb, l) ==>
        Entered(t, root, 0, vb, l)
  }

  lemma NoNewEntriesRefl(t: Tables, root: nat, va: nat)
    ensures NoNewEntries(t, t, root, va)
  {
  }

  lemma NoNewEntriesTrans(t: Tables, u: Tables, w: Tables, root: nat, va: nat)
    requires NoNewEntries(t, u, root, va) && NoNewEntries(u, w, root, va)
    ensures NoNewEntries(t, w, root, va)
  {
  }

  lemma TableAddsNone(t: Tables, lev: map<nat, nat>, root: nat, va: nat, f: nat, n: nat)
    requires Wf(t, lev) && root in t && lev[root] == 0 && f in t && lev[f] < 3 && va < VA_LIMIT && n !in t
    requires Reach(t, root, 0, va, lev[f]) == Some(f) && !t[f][Idx(va, lev[f])].present
    ensures NoNewEntries(t, WithTable(t, f, Idx(va, lev[f]), n), root, va)
  {
    hide Typed, Unshared, Reach, Entered, BlockOf, Idx, GoesThrough;
    var i := Idx(va, lev[f]);
    forall vb: nat, l: nat | vb < VA_LIMIT && l <= 3 && BlockOf(vb, l) != BlockOf(va, l)
      ensures Entered(WithTable(t, f, i, n), root, 0, vb, l) ==> Entered(t, root, 0, vb, l)
    {
      NotThrough(t, lev, root, va, f, vb, l);
      EnteredAfterTable(t, lev, f, i, n, root, 0, vb, l);
    }
  }

  lemma LeafAddsNone(t: Tables, lev: map<nat, nat>, root: nat, va: nat, f: nat, e: Entry)
    requires Wf(t, lev) && root in t && lev[root] == 0 && f in t && va < VA_LIMIT && e.present && lev[f] <= 3
    requires IsLeaf(e, lev[f])
    requires Reach(t, root, 0, va, lev[f]) == Some(f)
    ensures NoNewEntries(t, t[f := t[f][Idx(va, lev[f]) := e]], root, va)
  {
    hide Typed, Unshared, Reach, Entered, BlockOf, Idx, GoesThrough;
    var i := Idx(va, lev[f]);
    forall vb: nat, l: nat | vb < VA_LIMIT && l <= 3 && BlockOf(vb, l) != BlockOf(va, l)
      ensures Entered(t[f := t[f][i := e]], root, 0, vb, l) ==> Entered(t, root, 0, vb, l)
    {
      NotThrough(t, lev, root, va, f, vb, l);
      EnteredAfterWrite(t, lev, f, i, e, root, 0, vb, l);
    }
  }

  // The walk of another block does not go through the entry of va.
  lemma NotThrough(t: Tables, lev: map<nat, nat>, root: nat, va: nat, f: nat, vb: nat, l: nat)
    requires Wf(t, lev) && root in t && lev[root] == 0 && f in t && lev[f] <= 3 && va < VA_LIMIT && vb < VA_LIMIT
    requires l <= 3
    requires Reach(t, root, 0, va, lev[f]) == Some(f) && BlockOf(vb, l) != BlockOf(va, l)
    ensures !GoesThrough(t, root, 0, vb, l, f, Idx(va, lev[f]))
  {
    hide Idx, BlockOf;
    if GoesThrough(t, root, 0, vb, l, f, Idx(va, lev[f])) {
      ReachTyped(t, lev, root, 0, vb, l);
      SameEntrySameBlock(t, lev, root, va, vb, l, f);
    }
  }

  // Zeroing a frame and then linking it adds a table.
  lemma TwoWrites(t: Tables, lev: map<nat, nat>, f: nat, i: nat, n: nat)
    requires Shaped(t, lev) && f in t && i < 512 && n !in t
    ensures var z := t[n := ZeroTable()];
            f in z && i < |z[f]| && z[f := z[f][i := TableEntry(n)]] == WithTable(t, f, i, n)
    ensures f in lev
  {
  }

  lemma PointsDown(t: Tables, lev: map<nat, nat>, f: nat, i: nat)
    requires Wf(t, lev) && f in t && i < 512 && Points(t, lev, f, i)
    ensures t[f][i].addr in t && lev[t[f][i].addr] == lev[f] + 1
  {
  }

  // A present top-level entry points to a table.
  lemma TopTyped(t: Tables, lev: map<nat, nat>, g: nat, j: nat)
    requires Wf(t, lev) && g in t && lev[g] == 0 && j < 512
    ensures t[g][j].present ==> t[g][j].addr in t
  {
    if t[g][j].present { assert Points(t, lev, g, j); }
  }

  // r is a new top-level table that translates nothing and shares nothing; every
  // other one is as before.
  ghost predicate RootAdded(t: Tables, lt: map<nat, nat>, u: Tables, lu: map<nat, nat>, r: nat) {
    && Shaped(t, lt) && Shaped(u, lu) && r !in t && r in u && lu[r] == 0
    && (forall vb: nat :: Translate(u, r, vb) == None)
    && (forall g :: g in t && lt[g] == 0 ==> g in u && lu[g] == 0 && SameFor(t, u, g))
    && (forall j :: 0 <= j < 512 ==> Private(u, lu, r, j))
  }

  lemma RootIsAdded(t: Tables, lt: map<nat, nat>, r: nat)
    requires Wf(t, lt) && r !in t
    ensures RootAdded(t, lt, t[r := ZeroTable()], lt[r := 0], r)
  {
    var u, lu := t[r := ZeroTable()], lt[r := 0];
    forall vb: nat ensures Translate(u, r, vb) == None { EmptyTranslatesNothing(u, r, vb); }
    forall g | g in t && lt[g] == 0 ensures SameFor(t, u, g) {
      forall vb: nat | vb < VA_LIMIT ensures Translate(u, g, vb) == Translate(t, g, vb) {
        LookupIgnores(t, lt, r, ZeroTable(), g, 0, vb);
      }
    }
  }

  class AddressSpaces {
    var tables: Tables
    ghost var level: map<nat, nat>
    const pm: PhysMem
    const has1g: bool
    const mid: nat

    // The tables are well formed and none of them lies in a free frame.
    ghost predicate Valid()
      reads this, pm, pm.bitmap
    {
      && Wf(tables, level) && pm.Valid() && MiddleOk(mid)
      && forall f :: f in tables ==> f % PAGE_SIZE == 0 && f / PAGE_SIZE !in pm.Free()
    }

    ghost predicate IsRoot(r: nat)
      reads this
    {
      r in tables && r in level && level[r] == 0
    }

    constructor (pm: PhysMem, has1g: bool, mid: nat)
      requires pm.Valid() && MiddleOk(mid)
      ensures Valid() && tables == map[] && this.pm == pm && this.has1g == has1g && this.mid == mid
    {
      this.pm, this.has1g, this.mid := pm, has1g, mid;
      tables, level := map[], map[];
    }

    // The beginning of vmm_init: a zeroed frame becomes a top-level table; 0 if there is none.
    method NewRoot() returns (r: nat)
      requires Valid()
      modifies this, pm`reg, pm`idx, pm`cursor, pm.bitmap
      ensures Valid() && (r == 0 <==> old(pm.Free()) == {}) && pm.Free() <= old(pm.Free())
      ensures r == 0 ==> tables == old(tables) && level == old(level)
      ensures r != 0 ==> r !in old(tables) && tables == old(tables)[r := ZeroTable()] && level == old(level)[r := 0]
      ensures r != 0 ==> RootAdded(old(tables), old(level), tables, level, r)
    {
      hide PhysMem.Valid, PhysMem.Free, Typed, Unshared, SameFor, RootAdded;
      ghost var t, lev := tables, level;
      r := pm.CurrentAllocFrame();
      if r != 0 {
        assert r / PAGE_SIZE in old(pm.Free());
        WfAfterRoot(t, lev, r);
        RootIsAdded(t, lev, r);
        tables := tables[r := ZeroTable()];
        level := level[r := 0];
      }
    }

    // mmu_alloc_table: a zeroed frame is hung under entry i of table f; false is the panic.
    method AllocTable(f: nat, i: nat) returns (ok: bool, ghost n: nat)
      requires Valid() && f in tables && i < 512 && level[f] < 3 && !tables[f][i].present
      modifies this, pm`reg, pm`idx, pm`cursor, pm.bitmap
      ensures Valid() && (ok <==> old(pm.Free()) != {})
      ensures ok ==>
                && n !in old(tables) && tables == WithTable(old(tables), f, i, n)
                && level == old(level)[n := old(level)[f] + 1]
      ensures !ok ==> tables == old(tables) && level == old(level)
      ensures pm.Free() <= old(pm.Free())
    {
      hide PhysMem.Valid, PhysMem.Free, Typed, Unshared, SameFor, Isolated, BlockMapped;
      var frame := pm.CurrentAllocFrame();
      n := frame;
      ok := frame != 0;
      if ok {
        assert frame / PAGE_SIZE in old(pm.Free());
        ZeroAndLink(f, i, frame);
      }
    }

    // Zeroes the frame, then writes the entry that points to it.
    method ZeroAndLink(f: nat, i: nat, frame: nat)
      requires Wf(tables, level) && f in tables && i < 512 && level[f] < 3 && !tables[f][i].present && frame !in tables
      modifies this
      ensures Wf(tables, level)
      ensures tables == WithTable(old(tables), f, i, frame) && level == old(level)[frame := old(level)[f] + 1]
    {
      WfAfterTable(tables, level, f, i, frame);
      TwoWrites(tables, level, f, i, frame);
      hide Wf, WithTable;
      var zeroed := tables[frame := ZeroTable()];
      tables := zeroed[f := zeroed[f][i := TableEntry(frame)]];
      level := level[frame := level[f] + 1];
    }

    // One level of mmu_walk: the table below entry i of table f, allocated if
    // absent; the top level is not checked for a huge leaf.
    method Descend(ghost root: nat, f: nat, ghost va: nat, i: nat, top: bool) returns (r: Next)
      requires Valid() && IsRoot(root) && f in tables && level[f] < 3 && i == Idx(va, level[f])
      requires (top <==> level[f] == 0) && va < VA_LIMIT
      requires Reach(tables, root, 0, va, level[f]) == Some(f)
      modifies this, pm`reg, pm`idx, pm`cursor, pm.bitmap
      ensures Valid() && Grown(old(tables), old(level), tables, level, root, Idx(va, 0))
      ensures pm.Free() <= old(pm.Free())
      ensures f in tables && level[f] == old(level[f])
      ensures r.Down? ==> r.table in tables && Reach(tables, root, 0, va, level[f] + 1) == Some(r.table)
      ensures r.Down? ==> level[r.table] == level[f] + 1
      ensures r.Down? ==> if old(tables[f][i].present) then tables == old(tables) else tables[r.table] == ZeroTable()
      ensures NoNewEntries(old(tables), tables, root, va)
      ensures r.HugeLeaf? ==> tables == old(tables)
      ensures r.HugeLeaf? <==> 1 <= level[f] && old(tables[f][i].present && tables[f][i].huge)
      ensures r.NoFrames? ==> old(pm.Free()) == {} && tables == old(tables) && !tables[f][i].present
    {
      hide PhysMem.Valid, PhysMem.Free, Typed, Unshared, SameFor, Isolated, BlockMapped;
      if tables[f][i].present && tables[f][i].huge && !top {
        GrownRefl(tables, level, root, Idx(va, 0));
        NoNewEntriesRefl(tables, root, va);
        return HugeLeaf;
      }
      var ok := EnsureTable(root, f, va, i);
      if !ok {
        return NoFrames;
      }
      PointsDown(tables, level, f, i);
      ReachNext(tables, root, 0, va, level[f]);
      return Down(tables[f][i].addr);
    }

    // The "not present" branch of a level.
    method EnsureTable(ghost root: nat, f: nat, ghost va: nat, i: nat) returns (ok: bool)
      requires Valid() && IsRoot(root) && f in tables && level[f] < 3 && i == Idx(va, level[f]) && va < VA_LIMIT
      requires Reach(tables, root, 0, va, level[f]) == Some(f)
      modifies this, pm`reg, pm`idx, pm`cursor, pm.bitmap
      ensures Valid() && Grown(old(tables), old(level), tables, level, root, Idx(va, 0))
      ensures pm.Free() <= old(pm.Free()) && NoNewEntries(old(tables), tables, root, va)
      ensures f in tables && level[f] == old(level[f])
      ensures Reach(tables, root, 0, va, level[f]) == Some(f)
      ensures ok && old(!tables[f][i].present) ==>
                tables[f][i].addr in tables && tables[tables[f][i].addr] == ZeroTable()
      ensures if ok then tables[f][i].present && (old(tables[f][i].present) ==> tables == old(tables))
              else old(pm.Free()) == {} && tables == old(tables) && !tables[f][i].present
      ensures old(!tables[f][i].present) && ok ==> !tables[f][i].huge
    {
      hide PhysMem.Valid, PhysMem.Free, Typed, Unshared, SameFor, Isolated, BlockMapped;
      ok := true;
      ghost var t, lev := tables, level;
      GrownRefl(t, lev, root, Idx(va, 0));
      NoNewEntriesRefl(t, root, va);
      if !tables[f][i].present {
        ReachRoot(t, lev, root, va, f);
        ghost var n;
        ok, n := AllocTable(f, i);
        if ok {
          GrownByTable(t, lev, root, va, f, n);
          TableAddsNone(t, lev, root, va, f, n);
          ReachAfterTable(t, lev, f, i, n, root, 0, va, lev[f]);
        }
      }
    }

    // mmu_walk: the table whose entry Idx(va, goal) is the one to write. The
    // levels above are walked first, each in the same way. The tables see the low
    // 48 bits va of the address vaddr.
    method Walk(root: nat, vaddr: nat, ghost va: nat, goal: nat) returns (r: Walked)
      requires Valid() && IsRoot(root) && va == Low(vaddr) && goal <= 3
      modifies this, pm`reg, pm`idx, pm`cursor, pm.bitmap
      ensures Valid() && Grown(old(tables), old(level), tables, level, root, Idx(va, 0))
      ensures pm.Free() <= old(pm.Free())
      ensures r.Slot? ==>
                r.table in tables && level[r.table] == goal && Reach(tables, root, 0, va, goal) == Some(r.table)
      ensures r.HitHuge? <==> HugeOnWay(old(tables), root, 0, va, goal)
      ensures r.OutOfFrames? ==> pm.Free() == {} && Reach(old(tables), root, 0, va, goal) == None
      ensures r.Slot? ==> tables == old(tables) || tables[r.table] == ZeroTable()
      ensures r.Slot? && Reach(old(tables), root, 0, va, goal).Some? ==> tables == old(tables)
      ensures NoNewEntries(old(tables), tables, root, va)
    {
      hide PhysMem.Valid, PhysMem.Free, Typed, Unshared, SameFor, Isolated, BlockMapped, NoNewEntries, ZeroTable;
      hide WaysKeptFrom;
      if goal > 0 { NotFurther(tables, root, va, goal); }
      GrownRefl(tables, level, root, Idx(va, 0));
      NoNewEntriesRefl(tables, root, va);
      ZeroIsAbsent();
      if goal == 0 {
        return Slot(root);
      }
      r := Walk(root, vaddr, va, goal - 1);
      if r.Slot? {
        ghost var t, lev := tables, level;
        IdxLow(vaddr, goal - 1);
        WalkOn(old(tables), tables, root, va, goal, r.table);
        var next := Descend(root, r.table, va, Idx(vaddr, goal - 1), goal == 1);
        GrownTrans(old(tables), old(level), t, lev, tables, level, root, Idx(va, 0));
        NoNewEntriesTrans(old(tables), t, tables, root, va);
        match next {
          case Down(table) => r := Slot(table);
          case HugeLeaf => r := HitHuge;
          case NoFrames => r := OutOfFrames;
        }
      }
    }

    // The last lines of mmu_map_one.
    method WriteLeaf(ghost root: nat, ghost va: nat, l: nat, f: nat, i: nat, e: Entry,
                     ghost t: Tables, ghost lev: map<nat, nat>)
      requires Valid() && Grown(t, lev, tables, level, root, Idx(va, 0)) && va < VA_LIMIT
      requires 1 <= l <= 3 && e.present && IsLeaf(e, l) && i == Idx(va, l)
      requires Reach(tables, root, 0, va, l) == Some(f) && f in tables && level[f] == l
      modifies this
      ensures Valid() && SameRoots(t, lev, tables, level)
      ensures BlockMapped(t, tables, root, va, l, e.addr, e.prot) && NoNewEntries(old(tables), tables, root, va)
      ensures WaysKeptBut(t, tables, root, va, l)
      ensures Private(t, lev, root, Idx(va, 0)) ==> Isolated(t, lev, tables, level, root)
    {
      hide PhysMem.Valid, PhysMem.Free, Typed, Unshared, SameFor, Isolated, BlockMapped, WaysKeptFrom, WaysKeptBut;
      WriteMapsBlock(t, lev, tables, level, root, va, l, f, e);
      WfAfterWrite(tables, level, f, Idx(va, l), e);
      LeafAddsNone(tables, level, root, va, f, e);
      LeafKeepsWays(tables, level, root, va, f, e);
      WaysKeptButTrans(t, tables, tables[f := tables[f][Idx(va, l) := e]], root, va, l);
      if Private(t, lev, root, Idx(va, 0)) {
        GrownIsolated(t, lev, tables, level, root, Idx(va, 0));
        WriteIsolated(tables, level, root, va, l, f, e);
        IsolatedTrans(t, lev, tables, level, tables[f := tables[f][Idx(va, l) := e]], level, root);
      }
      tables := tables[f := tables[f][i := e]];
    }

    // mmu_map_one: a leaf of level l for the block of va.
    method MapOne(root: nat, vaddr: nat, ghost va: nat, pa: nat, l: nat, prot: Prot, overwrite: bool)
      returns (r: Outcome)
      requires Valid() && IsRoot(root) && va == Low(vaddr) && 1 <= l <= 3
      modifies this, pm`reg, pm`idx, pm`cursor, pm.bitmap
      ensures Valid() && pm.Free() <= old(pm.Free()) && SameRoots(old(tables), old(level), tables, level)
      ensures r.Mapped? ==> BlockMapped(old(tables), tables, root, va, l, pa, prot)
      ensures r.Mapped? && !overwrite ==> BlockAbsent(old(tables), root, va, l)
      ensures Private(old(tables), old(level), root, Idx(va, 0)) ==>
                Isolated(old(tables), old(level), tables, level, root)
      ensures !r.PanicAlign? && (r.PanicHuge? ==> Translate(old(tables), root, va).Some?)
      ensures r.PanicHuge? <==> HugeOnWay(old(tables), root, 0, va, l)
      ensures r.PanicFrames? ==> pm.Free() == {} && Reach(old(tables), root, 0, va, l) == None
      ensures r.PanicPresent? ==> l == 3 ==> Translate(old(tables), root, va).Some?
      ensures r.PanicPresent? <==> !overwrite && Entered(old(tables), root, 0, va, l)
      ensures !r.Mapped? ==> SameFor(old(tables), tables, root)
      ensures NoNewEntries(old(tables), tables, root, va) && WaysKeptBut(old(tables), tables, root, va, l)
    {
      hide PhysMem.Valid, PhysMem.Free, Typed, Unshared, SameFor, Isolated, BlockMapped, NoNewEntries, Entered;
      hide WaysKeptFrom, WaysKeptBut, HugeOnWay, ZeroTable;
      ghost var t, lev := tables, level;
      EnteredMeans(t, root, va, l);
      var w := Walk(root, vaddr, va, l);
      WaysKeptIsBut(t, tables, root, va, l);
      if Private(t, lev, root, Idx(va, 0)) { GrownIsolated(t, lev, tables, level, root, Idx(va, 0)); }
      if w.HitHuge? {
        HugeTranslates(t, root, 0, va, l);
        return PanicHuge;
      }
      if w.OutOfFrames? {
        return PanicFrames;
      }
      var f, i := w.table, Idx(vaddr, l);
      IdxLow(vaddr, l);
      ghost var u := tables;
      SlotEntry(t, u, root, va, l, f);
      if tables[f][i].present {
        if !overwrite {
          PresentPage(t, lev, tables, level, root, va, l, f);
          return PanicPresent;
        }
      } else {
        forall vb: nat | vb < VA_LIMIT && vb / Span(l) == va / Span(l) ensures Translate(t, root, vb) == None {
          AbsentBlock(t, lev, tables, level, root, va, l, f, vb);
        }
      }
      WriteLeaf(root, va, l, f, i, Entry(true, l != 3, pa, prot), t, lev);
      NoNewEntriesTrans(t, u, tables, root, va);
      return Mapped;
    }

    // mmu_map_range, for a range in either half of the address space; v is what the
    // tables see of its start.
    method MapRange(root: nat, vaddr: nat, ghost v: nat, p: nat, len: nat, prot: Prot, overwrite: bool)
      returns (r: Outcome)
      requires Valid() && IsRoot(root) && v == Low(vaddr) && v + len <= VA_LIMIT
      modifies this, pm`reg, pm`idx, pm`cursor, pm.bitmap
      ensures Valid() && pm.Free() <= old(pm.Free()) && SameRoots(old(tables), old(level), tables, level)
      ensures r.PanicAlign? <==> !Aligned(vaddr, p, len)
      ensures Aligned(vaddr, p, len) <==> Aligned(v, p, len)
      ensures r.Mapped? ==> RangeMapped(old(tables), tables, root, Request(v, p, len, prot, has1g, mid))
      ensures r.Mapped? && !overwrite ==> WasFree(old(tables), root, Request(v, p, len, prot, has1g, mid), VA_LIMIT)
      ensures AllPrivate(old(tables), old(level), root, v, len) ==>
                Isolated(old(tables), old(level), tables, level, root)
      ensures r.PanicFrames? ==> pm.Free() == {} && Lacking(old(tables), root, Request(v, p, len, prot, has1g, mid))
      ensures r.PanicPresent? ==> !overwrite && (len < PMD_SPAN ==> Occupied(old(tables), root, v, len))
      ensures r.PanicPresent? ==> EnteredIn(old(tables), root, v, len)
      ensures r.PanicFrames? || r.PanicPresent? || r.PanicHuge? ==>
                Halfway(old(tables), tables, root, Request(v, p, len, prot, has1g, mid))
      ensures r.PanicHuge? ==> Occupied(old(tables), root, v, len)
      ensures r.PanicHuge? ==> Blocked(old(tables), root, Request(v, p, len, prot, has1g, mid))
      ensures r.Mapped? ==> WaysKeptFrom(old(tables), tables, root, v + len)
    {
      hide Occupied, PhysMem.Valid, PhysMem.Free, Wf, Isolated, AllPrivate, RangeMapped, WasFree, EnteredIn, Halfway;
      hide Aligned, ChunkSize, SameRoots, Underway, WaysKeptFrom, Blocked, Lacking;
      ghost var t, lev := tables, level;
      LowAligned(vaddr, p, len);
      ghost var req := Request(v, p, len, prot, has1g, mid);
      Unchanged(root);
      if !Aligned(vaddr, p, len) {
        return PanicAlign;
      }
      Begins(t, lev, root, req, overwrite);
      var addr, pa, left := vaddr, p, len;
      ghost var va := v;
      while left > 0
        invariant Valid() && pm.Free() <= old(pm.Free()) && IsRoot(root)
        invariant Underway(t, lev, root, req, va, pa, left, overwrite)
        invariant va + left == v + len && v <= va && (left > 0 ==> va == Low(addr)) && v + pa == p + va
      {
        var chunk;
        r, chunk := MapChunk(root, addr, va, pa, left, prot, overwrite, t, lev, req);
        if !r.Mapped? {
          return;
        }
        LowStep(addr, chunk);
        va, addr, pa, left := va + chunk, addr + chunk, pa + chunk, left - chunk;
      }
      Completed(t, lev, root, req, va, pa, overwrite);
      return Mapped;
    }

    // The loop of mmu_map_range has carried out the request below va, and only that.
    ghost predicate Underway(t: Tables, lev: map<nat, nat>, root: nat, req: Request, va: nat, pa: nat, left: nat,
                             overwrite: bool)
      reads this
    {
      && MiddleOk(req.mid) && Aligned(req.v, req.p, req.len) && Aligned(va, pa, left)
      && SameRoots(t, lev, tables, level) && root in t && lev[root] == 0
      && Progress(t, tables, root, req, va) && Suffix(req, va, pa, left) && Untouched(t, tables, root, va)
      && (!overwrite ==> WasFree(t, root, req, va))
      && (AllPrivate(t, lev, root, req.v, req.len) ==> Isolated(t, lev, tables, level, root))
      && WaysKeptFrom(t, tables, root, va)
    }

    lemma Unchanged(root: nat)
      requires Valid() && IsRoot(root)
      ensures SameRoots(tables, level, tables, level) && Isolated(tables, level, tables, level, root)
    {
      hide PhysMem.Valid, PhysMem.Free;
      SameRootsRefl(tables, level);
      IsolatedRefl(tables, level, root);
    }

    lemma Begins(t: Tables, lev: map<nat, nat>, root: nat, req: Request, overwrite: bool)
      requires Valid() && IsRoot(root) && t == tables && lev == level
      requires MiddleOk(req.mid) && Aligned(req.v, req.p, req.len)
      ensures Underway(t, lev, root, req, req.v, req.p, req.len, overwrite)
    {
      hide PhysMem.Valid, PhysMem.Free, Wf, Isolated, AllPrivate, Progress, Suffix, WasFree, Untouched;
      hide SameRoots, Aligned, WaysKeptFrom;
      WaysKeptRefl(t, root, req.v);
      UntouchedRefl(t, root, req.v);
      SameRootsRefl(t, lev);
      IsolatedRefl(t, lev, root);
      StartOfRange(t, root, req);
    }

    lemma Completed(t: Tables, lev: map<nat, nat>, root: nat, req: Request, va: nat, pa: nat, overwrite: bool)
      requires Underway(t, lev, root, req, va, pa, 0, overwrite) && va == req.v + req.len <= VA_LIMIT
      ensures RangeMapped(t, tables, root, req) && (!overwrite ==> WasFree(t, root, req, VA_LIMIT))
      ensures SameRoots(t, lev, tables, level) && WaysKeptFrom(t, tables, root, va)
      ensures AllPrivate(t, lev, root, req.v, req.len) ==> Isolated(t, lev, tables, level, root)
    {
      hide WaysKeptFrom, Isolated, AllPrivate, Progress, Suffix, WasFree, Untouched, SameRoots, Aligned, RangeMapped;
      EndOfRange(t, tables, root, req, va, pa, overwrite);
    }

    // One round of the loop.
    method MapChunk(root: nat, addr: nat, ghost va: nat, pa: nat, left: nat, prot: Prot, overwrite: bool,
                    ghost t: Tables, ghost lev: map<nat, nat>, ghost req: Request) returns (r: Outcome, chunk: nat)
      requires Valid() && IsRoot(root) && va == Low(addr) && left > 0
      requires req.v <= va && va + left == req.v + req.len <= VA_LIMIT
      requires Underway(t, lev, root, req, va, pa, left, overwrite)
      requires req.prot == prot && req.has1g == has1g && req.mid == mid && req.v + pa == req.p + va
      modifies this, pm`reg, pm`idx, pm`cursor, pm.bitmap
      ensures Valid() && IsRoot(root) && pm.Free() <= old(pm.Free()) && 0 < chunk <= left && !r.PanicAlign?
      ensures r.Mapped? ==> Underway(t, lev, root, req, va + chunk, pa + chunk, left - chunk, overwrite)
      ensures SameRoots(t, lev, tables, level)
      ensures Shaped(t, lev) && root in t
      ensures AllPrivate(t, lev, root, req.v, req.len) ==> Isolated(t, lev, tables, level, root)
      ensures r.PanicFrames? ==> pm.Free() == {} && Lacking(t, root, req)
      ensures r.PanicPresent? ==> !overwrite && (req.len < PMD_SPAN ==> Occupied(t, root, req.v, req.len))
      ensures r.PanicPresent? ==> EnteredIn(t, root, req.v, req.len)
      ensures r.PanicHuge? ==> Occupied(t, root, req.v, req.len) && Blocked(t, root, req)
      ensures !r.Mapped? ==> MiddleOk(req.mid) && Aligned(req.v, req.p, req.len) && Halfway(t, tables, root, req)
    {
      hide Occupied, PhysMem.Valid, PhysMem.Free, Wf, Isolated, AllPrivate, BlockMapped, Progress, Suffix, WasFree;
      hide BlockAbsent, Aligned, ChunkLevel, ChunkSize, SameRoots, EnteredIn, Halfway, Untouched, NoNewEntries, Entered;
      hide SameFor, WaysKeptFrom, WaysKeptBut, HugeOnWay, Reach, Blocked, Lacking;
      ghost var v, len, u, levu := req.v, req.len, tables, level;
      SameRootsShaped(t, lev, u, levu);
      var l := ChunkLevel(addr, pa, left, has1g, mid);
      LowChunk(addr, pa, left, has1g, mid);
      chunk := ChunkSize(l, mid);
      ChunkFits(va, pa, left, has1g, mid);
      if len < PMD_SPAN { SmallChunk(va, pa, left, has1g, mid); }
      if AllPrivate(t, lev, root, v, len) { StillPrivate(t, lev, u, levu, root, v, len, va); }
      r := MapOne(root, addr, va, pa, l, prot, overwrite);
      SameRootsTrans(t, lev, u, levu, tables, level);
      SameRootsAt(t, lev, tables, level, root);
      if AllPrivate(t, lev, root, v, len) { IsolatedTrans(t, lev, u, levu, tables, level, root); }
      if !r.Mapped? {
        ChunkFails(t, u, tables, root, req, va, pa, left, l);
        return;
      }
      ChunkDone(t, u, tables, root, req, va, pa, left, l, overwrite);
    }
  }

  // ------------------------------------------------ the two halves of addresses

  // The bits of an address that the tables are indexed with.
  function Low(vaddr: nat): (va: nat)
    ensures va < VA_LIMIT
  {
    vaddr % VA_LIMIT
  }

  lemma LowStep(vaddr: nat, n: nat)
    ensures Low(vaddr) + n < VA_LIMIT ==> Low(vaddr + n) == Low(vaddr) + n
  {
    if Low(vaddr) + n < VA_LIMIT { DivModUnique(vaddr + n, VA_LIMIT, vaddr / VA_LIMIT, Low(vaddr) + n); }
  }

  // The upper bits take no part in the tests of alignment ...
  lemma LowAligned(vaddr: nat, p: nat, len: nat)
    ensures Aligned(vaddr, p, len) <==> Aligned(Low(vaddr), p, len)
  {
    RemainderLow(vaddr, vaddr / VA_LIMIT, Low(vaddr), PAGE_SIZE, 0x10_0000_0000);
  }

  // ... and so not in the choice of the chunk.
  lemma LowChunk(vaddr: nat, p: nat, len: nat, has1g: bool, mid: nat)
    requires MiddleOk(mid)
    ensures ChunkLevel(vaddr, p, len, has1g, mid) == ChunkLevel(Low(vaddr), p, len, has1g, mid)
  {
    var q, w := vaddr / VA_LIMIT, Low(vaddr);
    RemainderLow(vaddr, q, w, GIGA, 0x4_0000);
    RemainderLow(vaddr, q, w, PMD_SPAN, 0x800_0000);
    RemainderLow(vaddr, q, w, MIDDLE_AS_WRITTEN, 0x200_0000);
  }

  // ------------------------------------------------ what a mapped range does

  // No slot that the range touches is shared.
  ghost predicate AllPrivate(t: Tables, lev: map<nat, nat>, root: nat, v: nat, len: nat)
    requires Shaped(t, lev) && root in t
  {
    forall vb: nat :: v <= vb < v + len ==> Private(t, lev, root, Idx(vb, 0))
  }

  // The new translation where the chunks provide one, the old one elsewhere.
  function Overlay(s: Option<nat>, prot: Prot, m: Option<Mapping>): Option<Mapping> {
    if s.Some? then Some(Mapping(s.value, prot)) else m
  }

  datatype Request = Request(v: nat, p: nat, len: nat, prot: Prot, has1g: bool, mid: nat)

  // From va on, the chunks that are left are those of the whole request.
  ghost predicate Suffix(r: Request, va: nat, pa: nat, left: nat)
    requires MiddleOk(r.mid) && Aligned(r.v, r.p, r.len) && Aligned(va, pa, left)
  {
    forall vb: nat :: vb >= va ==>
      Split(r.v, r.p, r.len, r.has1g, r.mid, vb) == Split(va, pa, left, r.has1g, r.mid, vb)
  }

  // Below va the request has been carried out; from va on nothing has been touched.
  ghost predicate Progress(t: Tables, u: Tables, root: nat, r: Request, va: nat)
    requires MiddleOk(r.mid) && Aligned(r.v, r.p, r.len)
  {
    forall vb: nat :: vb < VA_LIMIT ==>
      Translate(u, root, vb) ==
      if vb < va then Overlay(Split(r.v, r.p, r.len, r.has1g, r.mid, vb), r.prot, Translate(t, root, vb))
      else Translate(t, root, vb)
  }

  // Some address of the range is translated.
  ghost predicate Occupied(t: Tables, root: nat, v: nat, len: nat) {
    exists vb: nat :: v <= vb < v + len && Translate(t, root, vb).Some?
  }

  // Some entry on the way to an address of the range, at the level of a leaf, is present.
  ghost predicate EnteredIn(t: Tables, root: nat, v: nat, len: nat) {
    exists vb: nat, l: nat :: v <= vb < v + len && 1 <= l <= 3 && Entered(t, root, 0, vb, l)
  }

  // At byte k of the request, an address that is a multiple of a page, the way to the
  // entry that a chunk starting there is written to is barred by a huge leaf ...
  ghost predicate BlockedAt(t: Tables, root: nat, r: Request, k: nat)
    requires MiddleOk(r.mid) && k <= r.len
  {
    k % PAGE_SIZE == 0 && HugeOnWay(t, root, 0, r.v + k, LevelAt(r, k))
  }

  // ... or ends where a table is missing.
  ghost predicate LackingAt(t: Tables, root: nat, r: Request, k: nat)
    requires MiddleOk(r.mid) && k <= r.len
  {
    k % PAGE_SIZE == 0 && Reach(t, root, 0, r.v + k, LevelAt(r, k)) == None
  }

  function LevelAt(r: Request, k: nat): (l: nat)
    requires MiddleOk(r.mid) && k <= r.len
    ensures 1 <= l <= 3
  {
    ChunkLevel(r.v + k, r.p + k, r.len - k, r.has1g, r.mid)
  }

  ghost predicate Blocked(t: Tables, root: nat, r: Request)
    requires MiddleOk(r.mid)
  {
    exists k: nat :: k < r.len && BlockedAt(t, root, r, k)
  }

  ghost predicate Lacking(t: Tables, root: nat, r: Request)
    requires MiddleOk(r.mid)
  {
    exists k: nat :: k < r.len && LackingAt(t, root, r, k)
  }

  // A round of the loop that ends in a panic: u was there before it, w is after it.
  lemma ChunkFails(t: Tables, u: Tables, w: Tables, root: nat, r: Request, va: nat, pa: nat, left: nat, l: nat)
    requires MiddleOk(r.mid) && Aligned(r.v, r.p, r.len) && Aligned(va, pa, left) && left > 0
    requires r.v <= va && va + left == r.v + r.len <= VA_LIMIT && r.v + pa == r.p + va
    requires l == ChunkLevel(va, pa, left, r.has1g, r.mid)
    requires Progress(t, u, root, r, va) && Untouched(t, u, root, va) && WaysKeptFrom(t, u, root, va)
    requires SameFor(u, w, root)
    ensures Halfway(t, w, root, r)
    ensures Translate(u, root, va).Some? ==> Occupied(t, root, r.v, r.len)
    ensures Entered(u, root, 0, va, l) ==> EnteredIn(t, root, r.v, r.len)
    ensures HugeOnWay(u, root, 0, va, l) ==> Blocked(t, root, r)
    ensures Reach(u, root, 0, va, l) == None ==> Lacking(t, root, r)
  {
    ChunkFits(va, pa, left, r.has1g, r.mid);
    hide Halfway, Occupied, EnteredIn, Blocked, Lacking, Progress, Untouched, WaysKeptFrom, SameFor, Aligned;
    hide Translate, Entered, HugeOnWay, Reach, ChunkLevel;
    StopsHalfway(t, u, w, root, r, va);
    if Translate(u, root, va).Some? { WasOccupied(t, u, root, r, va); }
    if Entered(u, root, 0, va, l) { WasEntered(t, u, root, r.v, r.len, va, l); }
    StoppedAt(t, u, root, r, va, pa, left, l);
  }

  // A round that maps its chunk.
  lemma ChunkDone(t: Tables, u: Tables, w: Tables, root: nat, r: Request, va: nat, pa: nat, left: nat, l: nat,
                  overwrite: bool)
    requires MiddleOk(r.mid) && Aligned(r.v, r.p, r.len) && Aligned(va, pa, left) && left > 0
    requires l == ChunkLevel(va, pa, left, r.has1g, r.mid)
    requires Progress(t, u, root, r, va) && Suffix(r, va, pa, left) && (!overwrite ==> WasFree(t, root, r, va))
    requires Untouched(t, u, root, va) && WaysKeptFrom(t, u, root, va)
    requires BlockMapped(u, w, root, va, l, pa, r.prot) && (!overwrite ==> BlockAbsent(u, root, va, l))
    requires NoNewEntries(u, w, root, va) && WaysKeptBut(u, w, root, va, l)
    ensures var c := ChunkSize(l, r.mid);
            && c <= left && Aligned(va + c, pa + c, left - c)
            && Progress(t, w, root, r, va + c) && Suffix(r, va + c, pa + c, left - c)
            && (!overwrite ==> WasFree(t, root, r, va + c))
            && Untouched(t, w, root, va + c) && WaysKeptFrom(t, w, root, va + c)
  {
    ChunkFits(va, pa, left, r.has1g, r.mid);
    hide Progress, Suffix, WasFree, Untouched, WaysKeptFrom, WaysKeptBut, BlockMapped, BlockAbsent, NoNewEntries;
    hide Aligned, ChunkLevel;
    var c := ChunkSize(l, r.mid);
    ChunkProgress(t, u, w, root, r, va, pa, left);
    UntouchedStep(t, u, w, root, va, c);
    WaysStep(t, u, w, root, va, l, c);
    if !overwrite { ChunkWasFree(t, u, root, r, va, pa, left); }
  }

  // What stops a chunk was there before the request.
  lemma StoppedAt(t: Tables, u: Tables, root: nat, r: Request, va: nat, pa: nat, left: nat, l: nat)
    requires MiddleOk(r.mid) && Aligned(r.v, r.p, r.len) && Aligned(va, pa, left) && WaysKeptFrom(t, u, root, va)
    requires r.v <= va < VA_LIMIT && va + left == r.v + r.len && left > 0 && r.v + pa == r.p + va
    requires l == ChunkLevel(va, pa, left, r.has1g, r.mid)
    ensures HugeOnWay(u, root, 0, va, l) ==> Blocked(t, root, r)
    ensures Reach(u, root, 0, va, l) == None ==> Lacking(t, root, r)
  {
    WholePagesApart(r.v, va, r.p, r.len, pa, left);
    hide ChunkLevel, HugeOnWay, Reach, Aligned;
    var k := va - r.v;
    assert LevelAt(r, k) == l;
    assert WayKept(t, u, root, 0, va, l);
    assert HugeOnWay(u, root, 0, va, l) ==> BlockedAt(t, root, r, k);
    assert Reach(u, root, 0, va, l) == None ==> LackingAt(t, root, r, k);
  }

  lemma WholePagesApart(v: nat, va: nat, p: nat, len: nat, pa: nat, left: nat)
    requires Aligned(v, p, len) && Aligned(va, pa, left) && v <= va
    ensures (va - v) % PAGE_SIZE == 0
  {
    DivModUnique(va - v, PAGE_SIZE, va / PAGE_SIZE - v / PAGE_SIZE, 0);
  }

  lemma WaysStep(t: Tables, u: Tables, w: Tables, root: nat, va: nat, l: nat, chunk: nat)
    requires 1 <= l <= 3 && va % Span(l) == 0 && chunk >= Span(l)
    requires WaysKeptFrom(t, u, root, va) && WaysKeptBut(u, w, root, va, l)
    ensures WaysKeptFrom(t, w, root, va + chunk)
  {
    hide HugeOnWay, Reach;
    forall vb: nat, goal: nat | va + chunk <= vb < VA_LIMIT && goal <= 3 ensures WayKept(t, w, root, 0, vb, goal) {
      BlockRange(va, l, vb);
      assert WayKept(t, u, root, 0, vb, goal) && WayKept(u, w, root, 0, vb, goal);
    }
  }

  // The request has been carried out up to some address of the range.
  ghost predicate Halfway(t: Tables, u: Tables, root: nat, r: Request)
    requires MiddleOk(r.mid) && Aligned(r.v, r.p, r.len)
  {
    exists va: nat :: r.v <= va < r.v + r.len && Progress(t, u, root, r, va)
  }

  lemma StopsHalfway(t: Tables, u: Tables, w: Tables, root: nat, r: Request, va: nat)
    requires MiddleOk(r.mid) && Aligned(r.v, r.p, r.len) && Progress(t, u, root, r, va)
    requires r.v <= va < r.v + r.len && SameFor(u, w, root)
    ensures Halfway(t, w, root, r)
  {
    hide Aligned, Split, Translate, Overlay;
    assert Progress(t, w, root, r, va);
  }

  // The entries for blocks from va on are present only if they were before.
  ghost predicate Untouched(t: Tables, u: Tables, root: nat, va: nat) {
    forall vb: nat, l: nat {:trigger Entered(u, root, 0, vb, l)} ::
      va <= vb < VA_LIMIT && 1 <= l <= 3 && vb % Span(l) == 0 && Entered(u, root, 0, vb, l) ==>
        Entered(t, root, 0, vb, l)
  }

  lemma UntouchedRefl(t: Tables, root: nat, va: nat)
    ensures Untouched(t, t, root, va)
  {
  }

  lemma UntouchedStep(t: Tables, u: Tables, w: Tables, root: nat, va: nat, chunk: nat)
    requires Untouched(t, u, root, va) && NoNewEntries(u, w, root, va) && chunk > 0
    ensures Untouched(t, w, root, va + chunk)
  {
    hide Entered;
    forall vb: nat, l: nat | va + chunk <= vb < VA_LIMIT && 1 <= l <= 3 && vb % Span(l) == 0 &&
        Entered(w, root, 0, vb, l)
      ensures Entered(t, root, 0, vb, l)
    {
      LaterBlock(va, vb, l);
    }
  }

  lemma LaterBlock(va: nat, vb: nat, l: nat)
    requires va < vb && 1 <= l <= 3 && vb % Span(l) == 0
    ensures BlockOf(vb, l) != BlockOf(va, l)
  {
  }

  lemma WasEntered(t: Tables, u: Tables, root: nat, v: nat, len: nat, va: nat, l: nat)
    requires 1 <= l <= 3 && va % Span(l) == 0 && v <= va < v + len && va < VA_LIMIT
    requires Untouched(t, u, root, va) && Entered(u, root, 0, va, l)
    ensures EnteredIn(t, root, v, len)
  {
    hide Entered;
  }

  lemma WasOccupied(t: Tables, u: Tables, root: nat, r: Request, va: nat)
    requires MiddleOk(r.mid) && Aligned(r.v, r.p, r.len) && Progress(t, u, root, r, va)
    requires r.v <= va < r.v + r.len && va < VA_LIMIT && Translate(u, root, va).Some?
    ensures Occupied(t, root, r.v, r.len)
  {
  }

  // The range is translated chunk by chunk as requested, everything else as before.
  ghost predicate RangeMapped(t: Tables, u: Tables, root: nat, r: Request)
    requires MiddleOk(r.mid) && Aligned(r.v, r.p, r.len)
  {
    forall vb: nat :: vb < VA_LIMIT ==>
      Translate(u, root, vb) == Overlay(Split(r.v, r.p, r.len, r.has1g, r.mid, vb), r.prot, Translate(t, root, vb))
  }

  // Nothing that the chunks below va map was translated before.
  ghost predicate WasFree(t: Tables, root: nat, r: Request, va: nat)
    requires MiddleOk(r.mid) && Aligned(r.v, r.p, r.len)
  {
    forall vb: nat :: vb < VA_LIMIT && vb < va && Split(r.v, r.p, r.len, r.has1g, r.mid, vb).Some? ==>
      Translate(t, root, vb) == None
  }

  lemma BlockRange(va: nat, l: nat, vb: nat)
    requires 1 <= l <= 3 && va % Span(l) == 0
    ensures vb / Span(l) == va / Span(l) <==> va <= vb < va + Span(l)
    ensures va <= vb < va + Span(l) ==> vb % Span(l) == vb - va
  {
  }

  // One address, before (m) and after (m') a chunk is mapped at va.
  lemma ChunkPoint(va: nat, pa: nat, left: nat, has1g: bool, mid: nat, prot: Prot, vb: nat,
                   m: Option<Mapping>, m': Option<Mapping>)
    requires MiddleOk(mid) && Aligned(va, pa, left) && left > 0
    requires var l := ChunkLevel(va, pa, left, has1g, mid);
             m' == if vb / Span(l) == va / Span(l) then Some(Mapping(pa + vb % Span(l), prot)) else m
    ensures var c := ChunkSize(ChunkLevel(va, pa, left, has1g, mid), mid);
            && c <= left && Aligned(va + c, pa + c, left - c)
            && (vb < va ==> m' == m)
            && (va <= vb < va + c ==> m' == Overlay(Split(va, pa, left, has1g, mid, vb), prot, m))
            && (vb >= va + c ==>
                  m' == m && Split(va, pa, left, has1g, mid, vb) == Split(va + c, pa + c, left - c, has1g, mid, vb))
  {
    ChunkFits(va, pa, left, has1g, mid);
    hide Aligned, ChunkLevel, Split;
    BlockRange(va, ChunkLevel(va, pa, left, has1g, mid), vb);
    SplitStep(va, pa, left, has1g, mid, vb);
  }

  lemma ChunkProgress(t: Tables, u: Tables, w: Tables, root: nat, r: Request, va: nat, pa: nat, left: nat)
    requires MiddleOk(r.mid) && Aligned(r.v, r.p, r.len) && Aligned(va, pa, left) && left > 0
    requires Progress(t, u, root, r, va) && Suffix(r, va, pa, left)
    requires BlockMapped(u, w, root, va, ChunkLevel(va, pa, left, r.has1g, r.mid), pa, r.prot)
    ensures var c := ChunkSize(ChunkLevel(va, pa, left, r.has1g, r.mid), r.mid);
            && c <= left && Aligned(va + c, pa + c, left - c)
            && Progress(t, w, root, r, va + c) && Suffix(r, va + c, pa + c, left - c)
  {
    hide Aligned, ChunkLevel, Split, Translate, Overlay, Span, ChunkSize;
    var c := ChunkSize(ChunkLevel(va, pa, left, r.has1g, r.mid), r.mid);
    forall vb: nat | vb < VA_LIMIT
      ensures c <= left && Aligned(va + c, pa + c, left - c)
      ensures Translate(w, root, vb) ==
              if vb < va + c then Overlay(Split(r.v, r.p, r.len, r.has1g, r.mid, vb), r.prot, Translate(t, root, vb))
              else Translate(t, root, vb)
    {
      ChunkPoint(va, pa, left, r.has1g, r.mid, r.prot, vb, Translate(u, root, vb), Translate(w, root, vb));
    }
    assert VA_LIMIT > 0;
    ChunkSuffix(r, va, pa, left);
  }

  lemma ChunkSuffix(r: Request, va: nat, pa: nat, left: nat)
    requires MiddleOk(r.mid) && Aligned(r.v, r.p, r.len) && Aligned(va, pa, left) && left > 0 && Suffix(r, va, pa, left)
    ensures var c := ChunkSize(ChunkLevel(va, pa, left, r.has1g, r.mid), r.mid);
            c <= left && Aligned(va + c, pa + c, left - c) && Suffix(r, va + c, pa + c, left - c)
  {
    hide Aligned, ChunkLevel, Split, Span, ChunkSize;
    SplitStep(va, pa, left, r.has1g, r.mid, va);
    var c := ChunkSize(ChunkLevel(va, pa, left, r.has1g, r.mid), r.mid);
    forall vb: nat | vb >= va + c
      ensures Split(r.v, r.p, r.len, r.has1g, r.mid, vb) == Split(va + c, pa + c, left - c, r.has1g, r.mid, vb)
    {
      SplitStep(va, pa, left, r.has1g, r.mid, vb);
    }
  }

  lemma ChunkWasFree(t: Tables, u: Tables, root: nat, r: Request, va: nat, pa: nat, left: nat)
    requires MiddleOk(r.mid) && Aligned(r.v, r.p, r.len) && Aligned(va, pa, left) && left > 0
    requires Progress(t, u, root, r, va) && Suffix(r, va, pa, left) && WasFree(t, root, r, va)
    requires BlockAbsent(u, root, va, ChunkLevel(va, pa, left, r.has1g, r.mid))
    ensures WasFree(t, root, r, va + ChunkSize(ChunkLevel(va, pa, left, r.has1g, r.mid), r.mid))
  {
    ChunkFits(va, pa, left, r.has1g, r.mid);
    hide Aligned, ChunkLevel, Split, Translate, ChunkSize;
    var l := ChunkLevel(va, pa, left, r.has1g, r.mid);
    var c := ChunkSize(l, r.mid);
    forall vb: nat | vb < VA_LIMIT && va <= vb < va + c && Split(r.v, r.p, r.len, r.has1g, r.mid, vb).Some?
      ensures Translate(t, root, vb) == None
    {
      BlockRange(va, l, vb);
      SplitStep(va, pa, left, r.has1g, r.mid, vb);
    }
  }

  lemma IsolatedRefl(t: Tables, lev: map<nat, nat>, root: nat)
    requires Wf(t, lev)
    ensures Isolated(t, lev, t, lev, root)
  {
  }

  lemma StillPrivate(t: Tables, lt: map<nat, nat>, u: Tables, lu: map<nat, nat>, root: nat, v: nat, len: nat, va: nat)
    requires Shaped(t, lt) && root in t && lt[root] == 0 && AllPrivate(t, lt, root, v, len) && v <= va < v + len
    requires Isolated(t, lt, u, lu, root)
    ensures root in u && Private(u, lu, root, Idx(va, 0))
  {
    assert Private(t, lt, root, Idx(va, 0));
  }

  lemma StartOfRange(t: Tables, root: nat, r: Request)
    requires MiddleOk(r.mid) && Aligned(r.v, r.p, r.len)
    ensures Progress(t, t, root, r, r.v) && Suffix(r, r.v, r.p, r.len) && WasFree(t, root, r, r.v)
  {
    hide Split, Translate;
    forall vb: nat | vb < r.v ensures Split(r.v, r.p, r.len, r.has1g, r.mid, vb) == None {
      SplitInside(r.v, r.p, r.len, r.has1g, r.mid, vb);
    }
  }

  lemma EndOfRange(t: Tables, u: Tables, root: nat, r: Request, va: nat, pa: nat, overwrite: bool)
    requires MiddleOk(r.mid) && Aligned(r.v, r.p, r.len) && Aligned(va, pa, 0)
    requires Progress(t, u, root, r, va) && Suffix(r, va, pa, 0) && (!overwrite ==> WasFree(t, root, r, va))
    ensures RangeMapped(t, u, root, r) && (!overwrite ==> WasFree(t, root, r, VA_LIMIT))
  {
    hide Translate;
  }

  // What a mapped range means for one address: outside the range nothing
  // changes, inside it the address is translated as requested or, if the chunks
  // as written miss it, as before.
  lemma RangeEffect(t: Tables, u: Tables, root: nat, r: Request, vb: nat)
    requires MiddleOk(r.mid) && Aligned(r.v, r.p, r.len) && RangeMapped(t, u, root, r) && vb < VA_LIMIT
    ensures !(r.v <= vb < r.v + r.len) ==> Translate(u, root, vb) == Translate(t, root, vb)
    ensures r.v <= vb < r.v + r.len && r.mid == PMD_SPAN ==>
              Translate(u, root, vb) == Some(Mapping(r.p + (vb - r.v), r.prot))
    ensures r.v <= vb < r.v + r.len && r.mid == MIDDLE_AS_WRITTEN ==>
              Translate(u, root, vb) ==
              if Missed(r.v, r.p, r.len, r.has1g, vb) then Translate(t, root, vb)
              else Some(Mapping(r.p + (vb - r.v), r.prot))
  {
    hide Translate, Missed, Aligned;
    if r.mid == PMD_SPAN {
      SplitIsPages(r.v, r.p, r.len, r.has1g, vb);
      PagesCover(r.v, r.p, r.len, vb);
    } else {
      SplitAsWritten(r.v, r.p, r.len, r.has1g, vb);
    }
  }

  // The same for 64-bit addresses: byte k of the range, wherever it lies.
  lemma RangeEffectAt(t: Tables, u: Tables, root: nat, r: Request, vaddr: nat, k: nat)
    requires MiddleOk(r.mid) && Aligned(r.v, r.p, r.len) && RangeMapped(t, u, root, r)
    requires r.v == Low(vaddr) && r.v + r.len <= VA_LIMIT && k < r.len
    requires r.mid == MIDDLE_AS_WRITTEN ==> !Missed(r.v, r.p, r.len, r.has1g, r.v + k)
    ensures Translate(u, root, vaddr + k) == Some(Mapping(r.p + k, r.prot))
  {
    hide Translate, RangeMapped, Missed;
    LowStep(vaddr, k);
    TranslateLow(u, root, vaddr + k);
    RangeEffect(t, u, root, r, r.v + k);
  }

  // With chunks that equal their entries' spans, mapping a range gives the
  // translation of a plain loop of 4 KiB mappings.
  lemma RangeIsPages(t: Tables, u: Tables, root: nat, r: Request, vb: nat)
    requires r.mid == PMD_SPAN && Aligned(r.v, r.p, r.len) && RangeMapped(t, u, root, r) && vb < VA_LIMIT
    ensures Translate(u, root, vb) == Overlay(Pages(r.v, r.p, r.len, vb), r.prot, Translate(t, root, vb))
  {
    hide Translate, Aligned;
    SplitIsPages(r.v, r.p, r.len, r.has1g, vb);
  }

  // Nothing of the block of va is translated.
  ghost predicate BlockAbsent(t: Tables, root: nat, va: nat, l: nat)
    requires l <= 3
  {
    forall vb: nat :: vb < VA_LIMIT && vb / Span(l) == va / Span(l) ==> Translate(t, root, vb) == None
  }

  // A present entry of the last level translates its page.
  lemma PresentPage(t: Tables, lt: map<nat, nat>, u: Tables, lu: map<nat, nat>, root: nat, va: nat, l: nat, f: nat)
    requires Grown(t, lt, u, lu, root, Idx(va, 0)) && 1 <= l <= 3 && va < VA_LIMIT
    requires Reach(u, root, 0, va, l) == Some(f) && f in u && lu[f] == l && u[f][Idx(va, l)].present
    ensures l == 3 ==> Translate(t, root, va).Some?
  {
    LookupFromReach(u, root, 0, va, l);
    assert SameFor(t, u, root);
  }

  // -------------------------------------------------- what one mapping does

  predicate SameRoots(t: Tables, lev: map<nat, nat>, u: Tables, lev': map<nat, nat>) {
    && Shaped(t, lev) && Shaped(u, lev')
    && (forall f :: f in t && lev[f] == 0 ==> f in u && lev'[f] == 0)
    && (forall f :: f in u && lev'[f] == 0 ==> f in t && lev[f] == 0)
  }

  lemma SameRootsRefl(t: Tables, lev: map<nat, nat>)
    requires Wf(t, lev)
    ensures SameRoots(t, lev, t, lev)
  {
  }

  lemma SameRootsAt(t: Tables, lt: map<nat, nat>, u: Tables, lu: map<nat, nat>, root: nat)
    requires SameRoots(t, lt, u, lu) && root in t && lt[root] == 0
    ensures root in u && root in lu && lu[root] == 0
  {
  }

  lemma SameRootsShaped(t: Tables, lt: map<nat, nat>, u: Tables, lu: map<nat, nat>)
    requires SameRoots(t, lt, u, lu)
    ensures Shaped(t, lt) && Shaped(u, lu)
  {
  }

  lemma SameRootsTrans(t: Tables, lt: map<nat, nat>, u: Tables, lu: map<nat, nat>, w: Tables, lw: map<nat, nat>)
    requires SameRoots(t, lt, u, lu) && SameRoots(u, lu, w, lw)
    ensures SameRoots(t, lt, w, lw)
  {
  }

  // Writing through a private slot of root keeps every private slot private and
  // leaves the translations of all other top-level tables alone.
  ghost predicate Isolated(t: Tables, lev: map<nat, nat>, u: Tables, lev': map<nat, nat>, root: nat) {
    && SameRoots(t, lev, u, lev')
    && (forall g :: g in t && lev[g] == 0 && g != root ==> SameFor(t, u, g))
    && (forall g, j :: g in t && lev[g] == 0 && 0 <= j < 512 && Private(t, lev, g, j) ==> Private(u, lev', g, j))
  }

  lemma GrownIsolated(t: Tables, lt: map<nat, nat>, u: Tables, lu: map<nat, nat>, root: nat, slot: nat)
    requires Grown(t, lt, u, lu, root, slot) && Private(t, lt, root, slot)
    ensures Isolated(t, lt, u, lu, root)
  {
    forall g, j | g in t && lt[g] == 0 && 0 <= j < 512 && Private(t, lt, g, j) ensures Private(u, lu, g, j) {
      GrownPrivate(t, lt, u, lu, root, slot, g, j);
    }
  }

  lemma WriteIsolated(t: Tables, lev: map<nat, nat>, root: nat, va: nat, l: nat, f: nat, e: Entry)
    requires Wf(t, lev) && root in t && lev[root] == 0 && 1 <= l <= 3 && e.present && IsLeaf(e, l)
    requires Reach(t, root, 0, va, l) == Some(f) && f in t && lev[f] == l && Private(t, lev, root, Idx(va, 0))
    ensures Isolated(t, lev, t[f := t[f][Idx(va, l) := e]], lev, root)
  {
    var u := t[f := t[f][Idx(va, l) := e]];
    WfAfterWrite(t, lev, f, Idx(va, l), e);
    hide Typed, Unshared;
    forall g | g in t && lev[g] == 0 && g != root ensures SameFor(t, u, g) {
      forall vb: nat | vb < VA_LIMIT ensures Translate(u, g, vb) == Translate(t, g, vb) {
        OthersAfterWrite(t, lev, root, va, l, e, g, vb);
      }
    }
  }

  lemma IsolatedTrans(t: Tables, lt: map<nat, nat>, u: Tables, lu: map<nat, nat>, w: Tables, lw: map<nat, nat>,
                      root: nat)
    requires Isolated(t, lt, u, lu, root) && Isolated(u, lu, w, lw, root)
    ensures Isolated(t, lt, w, lw, root)
  {
    forall g | g in t && lt[g] == 0 && g != root ensures SameFor(t, w, g) {
      assert SameFor(t, u, g) && SameFor(u, w, g);
    }
  }

  // The block of va is translated by the new leaf, everything else as before.
  ghost predicate BlockMapped(t: Tables, u: Tables, root: nat, va: nat, l: nat, pa: nat, prot: Prot)
    requires l <= 3
  {
    forall vb: nat :: vb < VA_LIMIT ==>
      (Translate(u, root, vb) ==
       if vb / Span(l) == va / Span(l) then Some(Mapping(pa + vb % Span(l), prot)) else Translate(t, root, vb))
  }

  lemma WriteMapsBlock(
      t: Tables, lt: map<nat, nat>, u: Tables, lu: map<nat, nat>, root: nat, va: nat, l: nat, f: nat, e: Entry)
    requires Grown(t, lt, u, lu, root, Idx(va, 0)) && 1 <= l <= 3 && va < VA_LIMIT && e.present && IsLeaf(e, l)
    requires Reach(u, root, 0, va, l) == Some(f) && f in u && lu[f] == l
    ensures BlockMapped(t, u[f := u[f][Idx(va, l) := e]], root, va, l, e.addr, e.prot)
  {
    hide Grown, Typed, Unshared, Translate, Reach;
    SameTranslation(t, lt, u, lu, root, Idx(va, 0), 0);
    var w := u[f := u[f][Idx(va, l) := e]];
    forall vb: nat | vb < VA_LIMIT
      ensures Translate(w, root, vb) ==
              if vb / Span(l) == va / Span(l) then Some(Mapping(e.addr + vb % Span(l), e.prot))
              else Translate(t, root, vb)
    {
      SameTranslation(t, lt, u, lu, root, Idx(va, 0), vb);
      TranslateAfterWrite(u, lu, root, va, l, e, vb);
    }
  }

  lemma SameTranslation(t: Tables, lt: map<nat, nat>, u: Tables, lu: map<nat, nat>, root: nat, slot: nat, vb: nat)
    requires Grown(t, lt, u, lu, root, slot) && vb < VA_LIMIT
    ensures Translate(u, root, vb) == Translate(t, root, vb) && Wf(u, lu) && root in u && lu[root] == 0
  {
    assert SameFor(t, u, root);
  }

  // If the entry to write is absent, nothing of its block was translated.
  lemma AbsentBlock(t: Tables, lt: map<nat, nat>, u: Tables, lu: map<nat, nat>, root: nat, va: nat, l: nat, f: nat,
                    vb: nat)
    requires Grown(t, lt, u, lu, root, Idx(va, 0)) && 1 <= l <= 3 && va < VA_LIMIT && vb < VA_LIMIT
    requires Reach(u, root, 0, va, l) == Some(f) && f in u && lu[f] == l && !u[f][Idx(va, l)].present
    requires vb / Span(l) == va / Span(l)
    ensures Translate(t, root, vb) == None
  {
    PrefixIsBlock(va, vb, l);
    assert Idx(va, l) == Idx(vb, l);
    ReachSamePrefix(u, root, 0, va, vb, l);
    LookupFromReach(u, root, 0, vb, l);
    assert SameFor(t, u, root);
  }

  // A huge leaf on the way translates the address.
  lemma {:induction false} HugeTranslates(t: Tables, f: nat, level: nat, va: nat, goal: nat)
    requires level <= goal <= 3 && HugeOnWay(t, f, level, va, goal)
    ensures Lookup(t, f, level, va).Some?
    decreases goal - level
  {
    hide Idx;
    var e := t[f][Idx(va, level)];
    if !IsLeaf(e, level) { HugeTranslates(t, e.addr, level + 1, va, goal); }
  }

  // A walk that does not get to one level does not get to the next.
  lemma NotFurther(t: Tables, root: nat, va: nat, goal: nat)
    requires 1 <= goal <= 3
    ensures Reach(t, root, 0, va, goal).Some? ==> Reach(t, root, 0, va, goal - 1).Some?
    ensures HugeOnWay(t, root, 0, va, goal - 1) ==> HugeOnWay(t, root, 0, va, goal)
    ensures Reach(t, root, 0, va, goal - 1).None? && HugeOnWay(t, root, 0, va, goal) ==>
              HugeOnWay(t, root, 0, va, goal - 1)
  {
    hide Reach, HugeOnWay;
    ReachLast(t, root, 0, va, goal);
    HugeNext(t, root, 0, va, goal - 1);
  }

  // What the next step of a walk finds in table f, in terms of the tables t before
  // the walk; u has been grown to get there.
  lemma WalkOn(t: Tables, u: Tables, root: nat, va: nat, goal: nat, f: nat)
    requires 1 <= goal <= 3 && Reach(u, root, 0, va, goal - 1) == Some(f) && f in u && |u[f]| == 512
    requires (u == t || u[f] == ZeroTable()) && !HugeOnWay(t, root, 0, va, goal - 1)
    requires Reach(t, root, 0, va, goal - 1).Some? ==> u == t
    ensures var e := u[f][Idx(va, goal - 1)];
            && (HugeOnWay(t, root, 0, va, goal) <==> 1 <= goal - 1 && e.present && e.huge)
            && (Reach(t, root, 0, va, goal).Some? ==> u == t && e.present && !IsLeaf(e, goal - 1))
  {
    hide Reach, HugeOnWay, Idx;
    ZeroIsAbsent();
    HugeNext(t, root, 0, va, goal - 1);
    ReachLast(t, root, 0, va, goal);
  }

  // The entry that a walk ends at is present exactly if it was before.
  lemma SlotEntry(t: Tables, u: Tables, root: nat, va: nat, l: nat, f: nat)
    requires l <= 3 && Reach(u, root, 0, va, l) == Some(f) && f in u && |u[f]| == 512
    requires u == t || u[f] == ZeroTable()
    requires Reach(t, root, 0, va, l).Some? ==> u == t
    ensures u[f][Idx(va, l)].present <==> Entered(t, root, 0, va, l)
  {
    hide Reach, Entered, Idx;
    ZeroIsAbsent();
    EnteredFromReach(u, root, 0, va, l);
    if Entered(t, root, 0, va, l) { EnteredReaches(t, root, 0, va, l); }
  }

  // A present entry is met on a way without huge leaves.
  lemma EnteredMeans(t: Tables, root: nat, va: nat, l: nat)
    requires l <= 3
    ensures Entered(t, root, 0, va, l) ==> Reach(t, root, 0, va, l).Some? && !HugeOnWay(t, root, 0, va, l)
  {
    hide Reach, Entered, Idx;
    if Entered(t, root, 0, va, l) {
      EnteredReaches(t, root, 0, va, l);
      NoHugeAbove(t, root, 0, va, l);
    }
  }

  // Only the root itself is reached at the top level.
  lemma ReachRoot(t: Tables, lev: map<nat, nat>, root: nat, va: nat, f: nat)
    requires Wf(t, lev) && root in t && lev[root] == 0 && f in t && Reach(t, root, 0, va, lev[f]) == Some(f)
    ensures lev[f] == 0 <==> f == root
  {
  }
}
