// Four-level page tables in physical memory, and what the hardware makes of
// them: section 4.5 of the Intel SDM volume 3A (4-level paging).
module PageTable {
  import opened Base

  // ---------------------------------------------------------------- entries

  // The attribute bits a caller may ask for (include/paging.h).
  datatype Prot = Prot(rw: bool, user: bool, writeThrough: bool, cacheDisable: bool,
                       accessed: bool, noExecute: bool)

  datatype Entry = Entry(present: bool, huge: bool, addr: nat, prot: Prot)

  const NO_PROT := Prot(false, false, false, false, false, false)
  const TABLE_PROT := Prot(true, true, false, false, false, false)
  const ABSENT := Entry(false, false, 0, NO_PROT)

  // Physical address of a table -> its 512 entries.
  type Tables = map<nat, seq<Entry>>

  // What the hardware finds for an address: a physical address and the leaf's attributes.
  datatype Mapping = Mapping(pa: nat, prot: Prot)

  function ZeroTable(): (z: seq<Entry>)
    ensures |z| == 512 && forall i :: 0 <= i < 512 ==> z[i] == ABSENT
  {
    seq(512, _ => ABSENT)
  }

  function TableEntry(frame: nat): Entry { Entry(true, false, frame, TABLE_PROT) }

  // --------------------------------------------------------------- geometry

  // Bytes covered by one entry of a level: 0 = PGD, 1 = PUD, 2 = PMD, 3 = PTE.
  function Span(level: nat): nat
    requires level <= 3
  {
    if level == 0 then 0x80_0000_0000
    else if level == 1 then 0x4000_0000
    else if level == 2 then 0x20_0000
    else 0x1000
  }

  const VA_LIMIT: nat := 0x1_0000_0000_0000

  // PGD_INDEX, PUD_INDEX, PMD_INDEX and PTE_INDEX.
  function Idx(va: nat, level: nat): (i: nat)
    requires level <= 3
    ensures i < 512
  {
    (va / Span(level)) % 512
  }

  ghost predicate SamePrefix(va: nat, vb: nat, level: nat)
    requires level <= 3
  {
    forall l :: 0 <= l <= level ==> Idx(va, l) == Idx(vb, l)
  }

  // The block of a level's span that an address lies in.
  function BlockOf(va: nat, level: nat): nat
    requires level <= 3
  {
    va / Span(level)
  }

  // Sharing the indices down to a level is lying in the same block of that level's span.
  lemma PrefixIsBlock(va: nat, vb: nat, level: nat)
    requires level <= 3 && va < VA_LIMIT && vb < VA_LIMIT
    ensures SamePrefix(va, vb, level) <==> va / Span(level) == vb / Span(level)
  {
    hide SamePrefix, Span;
    SamePrefixIs(va, vb, level);
  }

  lemma {:induction false} SamePrefixIs(va: nat, vb: nat, level: nat)
    requires level <= 3 && va < VA_LIMIT && vb < VA_LIMIT
    ensures SamePrefix(va, vb, level) <==> BlockOf(va, level) == BlockOf(vb, level)
  {
    hide BlockOf, Idx, Span;
    PrefixStep(va, vb, level);
    if level == 0 {
      TopIndex(va);
      TopIndex(vb);
    } else {
      SamePrefixIs(va, vb, level - 1);
      SplitIndex(va, level);
      SplitIndex(vb, level);
    }
  }

  lemma PrefixStep(va: nat, vb: nat, level: nat)
    requires level <= 3
    ensures SamePrefix(va, vb, level) <==>
              (level == 0 || SamePrefix(va, vb, level - 1)) && Idx(va, level) == Idx(vb, level)
  {
    hide Idx;
  }

  lemma TopIndex(va: nat)
    requires va < VA_LIMIT
    ensures BlockOf(va, 0) == Idx(va, 0)
  {
  }

  lemma SplitIndex(va: nat, level: nat)
    requires 1 <= level <= 3
    ensures BlockOf(va, level) == 512 * BlockOf(va, level - 1) + Idx(va, level)
  {
  }

  // ------------------------------------------------------------ translation

  predicate IsLeaf(e: Entry, level: nat) { level == 3 || (1 <= level && e.huge) }

  // The hardware walk from table f of the given level.
  function Lookup(t: Tables, f: nat, level: nat, va: nat): (m: Option<Mapping>)
    requires level <= 3
    decreases 3 - level
  {
    if f !in t || |t[f]| != 512 then None
    else
      var e := t[f][Idx(va, level)];
      if !e.present then None
      else if IsLeaf(e, level) then Some(Mapping(e.addr + va % Span(level), e.prot))
      else Lookup(t, e.addr, level + 1, va)
  }

  function Translate(t: Tables, root: nat, va: nat): Option<Mapping> { Lookup(t, root, 0, va) }

  // The table of level `goal` that the walk of va from f goes through, if it gets there.
  function Reach(t: Tables, f: nat, level: nat, va: nat, goal: nat): (r: Option<nat>)
    requires level <= goal <= 3
    decreases goal - level
  {
    if f !in t || |t[f]| != 512 then None
    else if level == goal then Some(f)
    else
      var e := t[f][Idx(va, level)];
      if !e.present || IsLeaf(e, level) then None
      else Reach(t, e.addr, level + 1, va, goal)
  }

  // ----------------------------------------------------------- well-formedness

  // Entry i of table f points to another table.
  predicate Points(t: Tables, lev: map<nat, nat>, f: nat, i: nat)
    requires f in t && f in lev && i < |t[f]|
  {
    t[f][i].present && !IsLeaf(t[f][i], lev[f])
  }

  predicate Shaped(t: Tables, lev: map<nat, nat>) {
    && lev.Keys == t.Keys
    && forall f :: f in t ==> |t[f]| == 512 && lev[f] <= 3
  }

  // Every table pointer leads to a table of the next level, and is permissive.
  predicate Typed(t: Tables, lev: map<nat, nat>)
    requires Shaped(t, lev)
  {
    forall f, i :: f in t && 0 <= i < 512 && Points(t, lev, f, i) ==>
      && t[f][i].addr in t
      && lev[t[f][i].addr] == lev[f] + 1
      && t[f][i].prot == TABLE_PROT
  }

  // A table has one parent entry, except that top-level tables may share a
  // child in the same slot.
  predicate Unshared(t: Tables, lev: map<nat, nat>)
    requires Shaped(t, lev)
  {
    forall f, i, g, j ::
      (&& f in t && 0 <= i < 512 && Points(t, lev, f, i)
       && g in t && 0 <= j < 512 && Points(t, lev, g, j)
       && t[f][i].addr == t[g][j].addr)
      ==> i == j && (f == g || lev[f] == 0)
  }

  predicate Wf(t: Tables, lev: map<nat, nat>) {
    Shaped(t, lev) && Typed(t, lev) && Unshared(t, lev)
  }

  // Tables reached have the level they are reached at.
  lemma {:induction false} ReachTyped(t: Tables, lev: map<nat, nat>, f: nat, level: nat, va: nat, goal: nat)
    requires Wf(t, lev) && f in t && lev[f] == level <= goal <= 3
    ensures Reach(t, f, level, va, goal).Some? ==>
              Reach(t, f, level, va, goal).value in t && lev[Reach(t, f, level, va, goal).value] == goal
    decreases goal - level
  {
    if level < goal {
      var e := t[f][Idx(va, level)];
      if e.present && !IsLeaf(e, level) {
        assert Points(t, lev, f, Idx(va, level));
        ReachTyped(t, lev, e.addr, level + 1, va, goal);
      }
    }
  }

  // The last step of a walk, taken apart.
  lemma {:induction false} ReachLast(t: Tables, f: nat, level: nat, va: nat, goal: nat)
    requires level < goal <= 3
    ensures Reach(t, f, level, va, goal).Some? ==>
              var p := Reach(t, f, level, va, goal - 1);
              && p.Some? && p.value in t && |t[p.value]| == 512
              && var e := t[p.value][Idx(va, goal - 1)];
                 e.present && !IsLeaf(e, goal - 1) && Reach(t, f, level, va, goal) == Some(e.addr)
    decreases goal - level
  {
    if f in t && |t[f]| == 512 {
      var e := t[f][Idx(va, level)];
      if e.present && !IsLeaf(e, level) && level + 1 < goal {
        ReachLast(t, e.addr, level + 1, va, goal);
      }
    }
  }

  // Two walks that meet in one table below the top took the same indices.
  lemma {:induction false} PathUnique(t: Tables, lev: map<nat, nat>, r: nat, s: nat, va: nat, vb: nat, goal: nat)
    requires Wf(t, lev) && r in t && s in t && lev[r] == 0 && lev[s] == 0
    requires 1 <= goal <= 3
    requires Reach(t, r, 0, va, goal).Some? && Reach(t, r, 0, va, goal) == Reach(t, s, 0, vb, goal)
    ensures SamePrefix(va, vb, goal - 1)
    ensures t[r][Idx(va, 0)].present && t[r][Idx(va, 0)].addr == t[s][Idx(va, 0)].addr && t[s][Idx(va, 0)].present
    decreases goal
  {
    ReachLast(t, r, 0, va, goal);
    ReachLast(t, s, 0, vb, goal);
    ReachTyped(t, lev, r, 0, va, goal - 1);
    ReachTyped(t, lev, s, 0, vb, goal - 1);
    var p := Reach(t, r, 0, va, goal - 1).value;
    var q := Reach(t, s, 0, vb, goal - 1).value;
    assert Points(t, lev, p, Idx(va, goal - 1));
    assert Points(t, lev, q, Idx(vb, goal - 1));
    if goal > 1 {
      PathUnique(t, lev, r, s, va, vb, goal - 1);
    }
  }

  // ----------------------------------------------------------- writing a leaf

  // A walk sees an update of entry i of table f exactly when it goes through it.
  lemma {:induction false} LookupAfterWrite(
      t: Tables, lev: map<nat, nat>, f: nat, i: nat, e: Entry, g: nat, level: nat, va: nat)
    requires Wf(t, lev) && f in t && i < 512
    requires e.present && IsLeaf(e, lev[f])
    requires g in t && lev[g] == level
    ensures Lookup(t[f := t[f][i := e]], g, level, va) ==
            if level <= lev[f] && Reach(t, g, level, va, lev[f]) == Some(f) && Idx(va, lev[f]) == i
            then Some(Mapping(e.addr + va % Span(lev[f]), e.prot))
            else Lookup(t, g, level, va)
    decreases 3 - level
  {
    var u := t[f := t[f][i := e]];
    var d := t[g][Idx(va, level)];
    if g == f {
      if Idx(va, level) != i && d.present && !IsLeaf(d, level) {
        assert Points(t, lev, g, Idx(va, level));
        LookupAfterWrite(t, lev, f, i, e, d.addr, level + 1, va);
      }
    } else {
      if d.present && !IsLeaf(d, level) {
        assert Points(t, lev, g, Idx(va, level));
        LookupAfterWrite(t, lev, f, i, e, d.addr, level + 1, va);
      }
    }
  }

  // Overwriting any entry with a leaf keeps the tables well formed.
  lemma WfAfterWrite(t: Tables, lev: map<nat, nat>, f: nat, i: nat, e: Entry)
    requires Wf(t, lev) && f in t && i < 512
    requires e.present && IsLeaf(e, lev[f])
    ensures Wf(t[f := t[f][i := e]], lev)
  {
    var u := t[f := t[f][i := e]];
    assert u.Keys == t.Keys;
    forall g, j | g in u && 0 <= j < 512 && Points(u, lev, g, j)
      ensures Points(t, lev, g, j) && u[g][j] == t[g][j]
    {
    }
  }

  // -------------------------------------------------------- adding a table

  function WithTable(t: Tables, f: nat, i: nat, n: nat): Tables
    requires f in t && i < |t[f]|
  {
    t[n := ZeroTable()][f := t[f][i := TableEntry(n)]]
  }

  // Hanging a fresh, zeroed table under an absent entry keeps the tables well formed ...
  lemma WfAfterTable(t: Tables, lev: map<nat, nat>, f: nat, i: nat, n: nat)
    requires Wf(t, lev) && f in t && i < 512 && lev[f] < 3
    requires !t[f][i].present && n !in t
    ensures Wf(WithTable(t, f, i, n), lev[n := lev[f] + 1])
  {
    var u := WithTable(t, f, i, n);
    var lu := lev[n := lev[f] + 1];
    forall g, j | g in u && 0 <= j < 512 && Points(u, lu, g, j)
      ensures g in t && ((g == f && j == i) || (Points(t, lev, g, j) && u[g][j] == t[g][j]))
    {
    }
  }

  // ... and changes no translation at all.
  lemma {:induction false} LookupAfterTable(
      t: Tables, lev: map<nat, nat>, f: nat, i: nat, n: nat, g: nat, level: nat, va: nat)
    requires Wf(t, lev) && f in t && i < 512 && lev[f] < 3
    requires !t[f][i].present && n !in t
    requires g in t && lev[g] == level
    ensures Lookup(WithTable(t, f, i, n), g, level, va) == Lookup(t, g, level, va)
    decreases 3 - level
  {
    var u := WithTable(t, f, i, n);
    var d := t[g][Idx(va, level)];
    if d.present && !IsLeaf(d, level) {
      assert Points(t, lev, g, Idx(va, level));
      LookupAfterTable(t, lev, f, i, n, d.addr, level + 1, va);
    }
    if g == f && Idx(va, level) == i {
      assert u[n][Idx(va, level + 1)] == ABSENT;
    }
  }

  // ... and disturbs no walk down to the level of the table it was added to.
  lemma {:induction false} ReachAfterTable(
      t: Tables, lev: map<nat, nat>, f: nat, i: nat, n: nat, g: nat, level: nat, va: nat, goal: nat)
    requires Wf(t, lev) && f in t && i < 512 && lev[f] < 3 && !t[f][i].present && n !in t
    requires g in t && lev[g] == level <= goal <= lev[f]
    ensures Reach(WithTable(t, f, i, n), g, level, va, goal) == Reach(t, g, level, va, goal)
    decreases goal - level
  {
    var d := t[g][Idx(va, level)];
    if level < goal && d.present && !IsLeaf(d, level) {
      assert Points(t, lev, g, Idx(va, level));
      ReachAfterTable(t, lev, f, i, n, d.addr, level + 1, va, goal);
    }
  }

  // One more step of a walk.
  lemma {:induction false} ReachNext(t: Tables, f: nat, level: nat, va: nat, goal: nat)
    requires level <= goal < 3 && Reach(t, f, level, va, goal).Some?
    ensures var p := Reach(t, f, level, va, goal).value;
            p in t && |t[p]| == 512 &&
            var e := t[p][Idx(va, goal)];
            e.present && !IsLeaf(e, goal) && e.addr in t && |t[e.addr]| == 512 ==>
              Reach(t, f, level, va, goal + 1) == Some(e.addr)
    decreases goal - level
  {
    if level < goal { ReachNext(t, t[f][Idx(va, level)].addr, level + 1, va, goal); }
  }

  // A translation continues from any table its walk goes through.
  lemma {:induction false} LookupFromReach(t: Tables, f: nat, level: nat, va: nat, goal: nat)
    requires level <= goal <= 3 && Reach(t, f, level, va, goal).Some?
    ensures Lookup(t, f, level, va) == Lookup(t, Reach(t, f, level, va, goal).value, goal, va)
    decreases goal - level
  {
    if level < goal { LookupFromReach(t, t[f][Idx(va, level)].addr, level + 1, va, goal); }
  }

  // A walk depends on the indices above its goal only.
  lemma {:induction false} ReachSamePrefix(t: Tables, f: nat, level: nat, va: nat, vb: nat, goal: nat)
    requires level <= goal <= 3 && (goal > 0 ==> SamePrefix(va, vb, goal - 1))
    ensures Reach(t, f, level, va, goal) == Reach(t, f, level, vb, goal)
    decreases goal - level
  {
    if level < goal && f in t && |t[f]| == 512 {
      assert Idx(va, level) == Idx(vb, level);
      ReachSamePrefix(t, t[f][Idx(va, level)].addr, level + 1, va, vb, goal);
    }
  }

  // ------------------------------------------------- translation as a flat map

  // No other top-level table shares what root has in this slot.
  predicate Private(t: Tables, lev: map<nat, nat>, root: nat, slot: nat)
    requires Shaped(t, lev) && root in t && slot < 512
  {
    forall g :: g in t && lev[g] == 0 && g != root && t[g][slot].present && t[root][slot].present ==>
      t[g][slot].addr != t[root][slot].addr
  }

  // Writing a leaf of level l on the path of va changes the translation of the
  // block of va, and of nothing else.
  lemma TranslateAfterWrite(t: Tables, lev: map<nat, nat>, root: nat, va: nat, l: nat, e: Entry, vb: nat)
    requires Wf(t, lev) && root in t && lev[root] == 0
    requires 1 <= l <= 3 && va < VA_LIMIT && vb < VA_LIMIT && e.present && IsLeaf(e, l)
    requires Reach(t, root, 0, va, l).Some?
    ensures var f := Reach(t, root, 0, va, l).value;
            f in t && lev[f] == l &&
            Translate(t[f := t[f][Idx(va, l) := e]], root, vb) ==
            if vb / Span(l) == va / Span(l) then Some(Mapping(e.addr + vb % Span(l), e.prot))
            else Translate(t, root, vb)
  {
    ReachTyped(t, lev, root, 0, va, l);
    var f := Reach(t, root, 0, va, l).value;
    LookupAfterWrite(t, lev, f, Idx(va, l), e, root, 0, vb);
    PrefixIsBlock(vb, va, l);
    if vb / Span(l) == va / Span(l) {
      ReachSamePrefix(t, root, 0, va, vb, l);
      assert Idx(vb, l) == Idx(va, l);
    } else if Reach(t, root, 0, vb, l) == Some(f) && Idx(vb, l) == Idx(va, l) {
      PathUnique(t, lev, root, root, vb, va, l);
      assert SamePrefix(vb, va, l);
      assert false;
    }
  }

  // Other top-level tables that do not share the slot see no change.
  lemma OthersAfterWrite(t: Tables, lev: map<nat, nat>, root: nat, va: nat, l: nat, e: Entry, g: nat, vb: nat)
    requires Wf(t, lev) && root in t && lev[root] == 0 && g in t && lev[g] == 0 && g != root
    requires 1 <= l <= 3 && e.present && IsLeaf(e, l)
    requires Reach(t, root, 0, va, l).Some? && Private(t, lev, root, Idx(va, 0))
    ensures var f := Reach(t, root, 0, va, l).value;
            f in t && Translate(t[f := t[f][Idx(va, l) := e]], g, vb) == Translate(t, g, vb)
  {
    ReachTyped(t, lev, root, 0, va, l);
    var f := Reach(t, root, 0, va, l).value;
    LookupAfterWrite(t, lev, f, Idx(va, l), e, g, 0, vb);
    if Reach(t, g, 0, vb, l) == Some(f) {
      PathUnique(t, lev, root, g, va, vb, l);
      assert false;
    }
  }

  // ------------------------------------------------------- access rights

  // Section 4.6 of the Intel SDM volume 3A: writing and user access need the bit
  // at every level, NX at any level forbids execution.
  datatype Access = Access(write: bool, user: bool, execute: bool)

  function Restrict(a: Access, p: Prot): Access { Access(a.write && p.rw, a.user && p.user, a.execute && !p.noExecute) }

  function Rights(t: Tables, f: nat, level: nat, va: nat, above: Access): (a: Option<Access>)
    requires level <= 3
    decreases 3 - level
  {
    if f !in t || |t[f]| != 512 then None
    else
      var e := t[f][Idx(va, level)];
      if !e.present then None
      else if IsLeaf(e, level) then Some(Restrict(above, e.prot))
      else Rights(t, e.addr, level + 1, va, Restrict(above, e.prot))
  }

  // In well-formed tables the leaf alone decides.
  lemma {:induction false} RightsOfLeaf(t: Tables, lev: map<nat, nat>, f: nat, level: nat, va: nat, above: Access)
    requires Wf(t, lev) && f in t && lev[f] == level
    ensures var m := Lookup(t, f, level, va);
            Rights(t, f, level, va, above) == if m.Some? then Some(Restrict(above, m.value.prot)) else None
    decreases 3 - level
  {
    var e := t[f][Idx(va, level)];
    if e.present && !IsLeaf(e, level) {
      assert Points(t, lev, f, Idx(va, level));
      assert Restrict(above, e.prot) == above;
      RightsOfLeaf(t, lev, e.addr, level + 1, va, above);
    }
  }

  // The upper 16 bits of an address take no part.
  lemma IdxLow(va: nat, level: nat)
    requires level <= 3
    ensures Idx(va, level) == Idx(va % VA_LIMIT, level)
  {
    var q, w := va / VA_LIMIT, va % VA_LIMIT;
    if level == 0 {
      LowAt(va, q, w, Span(0), 1);
    } else if level == 1 {
      LowAt(va, q, w, Span(1), 0x200);
    } else if level == 2 {
      LowAt(va, q, w, Span(2), 0x4_0000);
    } else {
      LowAt(va, q, w, Span(3), 0x800_0000);
    }
  }

  lemma LowAt(va: nat, q: nat, w: nat, s: nat, k: nat)
    requires s > 0 && s * (512 * k) == VA_LIMIT && va == VA_LIMIT * q + w
    ensures (va / s) % 512 == (w / s) % 512
  {
    var x, r, y := w / s, w % s, k * q;
    Regroup(s, k, q, x);
    DivModUnique(va, s, 512 * y + x, r);
    LowIndex(y, x);
  }

  lemma Regroup(s: nat, k: nat, q: nat, x: nat)
    ensures s * (512 * (k * q) + x) == s * (512 * k) * q + s * x && 0 <= k * q
  {
    MulPositive(k, q);
  }

  lemma LowIndex(y: nat, x: nat)
    ensures (512 * y + x) % 512 == x % 512
  {
  }

  lemma OffsetLow(va: nat, level: nat)
    requires level <= 3
    ensures va % Span(level) == (va % VA_LIMIT) % Span(level)
  {
    var q, w := va / VA_LIMIT, va % VA_LIMIT;
    if level == 0 {
      RemainderLow(va, q, w, 0x80_0000_0000, 512);
    } else if level == 1 {
      RemainderLow(va, q, w, 0x4000_0000, 0x4_0000);
    } else if level == 2 {
      RemainderLow(va, q, w, 0x20_0000, 0x800_0000);
    } else {
      RemainderLow(va, q, w, 0x1000, 0x10_0000_0000);
    }
  }

  lemma RemainderLow(va: nat, q: nat, w: nat, s: nat, k: nat)
    requires s > 0 && s * k == VA_LIMIT && va == VA_LIMIT * q + w
    ensures va % s == w % s
  {
    var x, r := w / s, w % s;
    assert s * (k * q + x) == s * k * q + s * x;
    MulPositive(k, q);
    DivModUnique(va, s, k * q + x, r);
  }

  // So the upper 16 bits take no part in a walk: an address of the kernel's half is
  // translated like the one below 2^48.
  lemma {:induction false} LookupLow(t: Tables, f: nat, level: nat, va: nat)
    requires level <= 3
    ensures Lookup(t, f, level, va) == Lookup(t, f, level, va % VA_LIMIT)
    decreases 3 - level
  {
    hide Idx, Span;
    IdxLow(va, level);
    OffsetLow(va, level);
    if f in t && |t[f]| == 512 {
      var e := t[f][Idx(va, level)];
      if e.present && !IsLeaf(e, level) { LookupLow(t, e.addr, level + 1, va); }
    }
  }

  lemma TranslateLow(t: Tables, root: nat, va: nat)
    ensures Translate(t, root, va) == Translate(t, root, va % VA_LIMIT)
  {
    LookupLow(t, root, 0, va);
  }

  // ------------------------------------------------------ top-level tables

  // A table that is not linked does not matter to the others.
  lemma {:induction false} LookupIgnores(t: Tables, lev: map<nat, nat>, c: nat, s: seq<Entry>, g: nat, level: nat,
                                         va: nat)
    requires Wf(t, lev) && c !in t && g in t && lev[g] == level
    ensures Lookup(t[c := s], g, level, va) == Lookup(t, g, level, va)
    decreases 3 - level
  {
    var e := t[g][Idx(va, level)];
    if e.present && !IsLeaf(e, level) {
      assert Points(t, lev, g, Idx(va, level));
      LookupIgnores(t, lev, c, s, e.addr, level + 1, va);
    }
  }

  // A new top-level table without entries.
  lemma WfAfterRoot(t: Tables, lev: map<nat, nat>, r: nat)
    requires Wf(t, lev) && r !in t
    ensures Wf(t[r := ZeroTable()], lev[r := 0])
  {
    var u, lu := t[r := ZeroTable()], lev[r := 0];
    forall f, i | f in u && 0 <= i < 512 && Points(u, lu, f, i) ensures f in t && Points(t, lev, f, i) && u[f] == t[f] {
    }
  }

  // It translates nothing.
  lemma EmptyTranslatesNothing(t: Tables, r: nat, va: nat)
    requires r in t && t[r] == ZeroTable()
    ensures Translate(t, r, va) == None
  {
    assert t[r][Idx(va, 0)] == ABSENT;
  }

  // ----------------------------------------------------------- present entries

  // The walk of va from f finds a present entry at level goal.
  predicate Entered(t: Tables, f: nat, level: nat, va: nat, goal: nat)
    requires level <= goal <= 3
    decreases goal - level
  {
    f in t && |t[f]| == 512 &&
    var e := t[f][Idx(va, level)];
    e.present && (level < goal ==> !IsLeaf(e, level) && Entered(t, e.addr, level + 1, va, goal))
  }

  lemma {:induction false} EnteredFromReach(t: Tables, f: nat, level: nat, va: nat, goal: nat)
    requires level <= goal <= 3 && Reach(t, f, level, va, goal).Some?
    ensures var g := Reach(t, f, level, va, goal).value;
            g in t && |t[g]| == 512 && (t[g][Idx(va, goal)].present ==> Entered(t, f, level, va, goal))
    decreases goal - level
  {
    hide Idx;
    if level < goal { EnteredFromReach(t, t[f][Idx(va, level)].addr, level + 1, va, goal); }
  }

  lemma ZeroIsAbsent()
    ensures |ZeroTable()| == 512 && forall i :: 0 <= i < 512 ==> !ZeroTable()[i].present
  {
  }

  // The entry Idx(va, goal) of table f itself.
  predicate GoesThrough(t: Tables, g: nat, level: nat, va: nat, goal: nat, f: nat, i: nat)
    requires level <= goal <= 3
  {
    Reach(t, g, level, va, goal) == Some(f) && Idx(va, goal) == i
  }

  lemma {:induction false} EnteredAfterWrite(
      t: Tables, lev: map<nat, nat>, f: nat, i: nat, e: Entry, g: nat, level: nat, va: nat, goal: nat)
    requires Wf(t, lev) && f in t && i < 512 && e.present && IsLeaf(e, lev[f])
    requires g in t && lev[g] == level <= goal <= 3 && !GoesThrough(t, g, level, va, goal, f, i)
    ensures Entered(t[f := t[f][i := e]], g, level, va, goal) ==> Entered(t, g, level, va, goal)
    decreases goal - level
  {
    hide Idx;
    var d := t[g][Idx(va, level)];
    if level < goal && d.present && !IsLeaf(d, level) {
      assert Points(t, lev, g, Idx(va, level));
      EnteredAfterWrite(t, lev, f, i, e, d.addr, level + 1, va, goal);
    }
  }

  lemma {:induction false} EnteredAfterTable(
      t: Tables, lev: map<nat, nat>, f: nat, i: nat, n: nat, g: nat, level: nat, va: nat, goal: nat)
    requires Wf(t, lev) && f in t && i < 512 && lev[f] < 3 && !t[f][i].present && n !in t
    requires g in t && lev[g] == level <= goal <= 3 && !GoesThrough(t, g, level, va, goal, f, i)
    ensures Entered(WithTable(t, f, i, n), g, level, va, goal) ==> Entered(t, g, level, va, goal)
    decreases goal - level
  {
    hide Idx;
    var u := WithTable(t, f, i, n);
    var d := t[g][Idx(va, level)];
    if level < goal && d.present && !IsLeaf(d, level) {
      assert Points(t, lev, g, Idx(va, level));
      EnteredAfterTable(t, lev, f, i, n, d.addr, level + 1, va, goal);
    }
    if g == f && Idx(va, level) == i && level < goal {
      assert u[n][Idx(va, level + 1)] == ABSENT && u[g][Idx(va, level)] == TableEntry(n);
      assert !Entered(u, n, level + 1, va, goal);
    }
  }

  // Two addresses whose walks go through the same entry lie in one block.
  lemma SameEntrySameBlock(t: Tables, lev: map<nat, nat>, r: nat, va: nat, vb: nat, goal: nat, f: nat)
    requires Wf(t, lev) && r in t && lev[r] == 0 && goal <= 3 && va < VA_LIMIT && vb < VA_LIMIT
    requires Reach(t, r, 0, va, goal) == Some(f) && GoesThrough(t, r, 0, vb, goal, f, Idx(va, goal))
    ensures BlockOf(va, goal) == BlockOf(vb, goal)
  {
    hide Idx, BlockOf, Reach;
    if goal > 0 { PathUnique(t, lev, r, r, va, vb, goal); }
    PrefixStep(va, vb, goal);
    SamePrefixIs(va, vb, goal);
  }

  // ------------------------------------------------------- huge leaves on the way

  // The walk of va from f meets a present huge entry above level goal.
  predicate HugeOnWay(t: Tables, f: nat, level: nat, va: nat, goal: nat)
    requires level <= goal <= 3
    decreases goal - level
  {
    level < goal && f in t && |t[f]| == 512 &&
    var e := t[f][Idx(va, level)];
    e.present && ((1 <= level && e.huge) || HugeOnWay(t, e.addr, level + 1, va, goal))
  }

  // One more level: it is met before, or in the table reached there.
  lemma {:induction false} HugeNext(t: Tables, f: nat, level: nat, va: nat, goal: nat)
    requires level <= goal < 3
    ensures var p := Reach(t, f, level, va, goal);
            && (p.Some? ==> p.value in t && |t[p.value]| == 512 && !HugeOnWay(t, f, level, va, goal))
            && (HugeOnWay(t, f, level, va, goal + 1) <==>
                HugeOnWay(t, f, level, va, goal)
                || (p.Some? && 1 <= goal && t[p.value][Idx(va, goal)].present && t[p.value][Idx(va, goal)].huge))
    decreases goal - level
  {
    hide Idx;
    if level < goal && f in t && |t[f]| == 512 {
      HugeNext(t, t[f][Idx(va, level)].addr, level + 1, va, goal);
    }
  }

  // Where the walk gets down to level goal there is none above.
  lemma {:induction false} NoHugeAbove(t: Tables, f: nat, level: nat, va: nat, goal: nat)
    requires level <= goal <= 3
    ensures Reach(t, f, level, va, goal).Some? ==> !HugeOnWay(t, f, level, va, goal)
    decreases goal - level
  {
    hide Idx;
    if level < goal && f in t && |t[f]| == 512 { NoHugeAbove(t, t[f][Idx(va, level)].addr, level + 1, va, goal); }
  }

  // A present entry is one of the table reached at its level.
  lemma {:induction false} EnteredReaches(t: Tables, f: nat, level: nat, va: nat, goal: nat)
    requires level <= goal <= 3 && Entered(t, f, level, va, goal)
    ensures var p := Reach(t, f, level, va, goal);
            p.Some? && p.value in t && |t[p.value]| == 512 && t[p.value][Idx(va, goal)].present
    decreases goal - level
  {
    hide Idx;
    if level < goal { EnteredReaches(t, t[f][Idx(va, level)].addr, level + 1, va, goal); }
  }

  // The way of va has lost no table and got no huge entry.
  ghost predicate WayKept(t: Tables, u: Tables, f: nat, level: nat, va: nat, goal: nat)
    requires level <= goal <= 3
  {
    && (HugeOnWay(u, f, level, va, goal) ==> HugeOnWay(t, f, level, va, goal))
    && (Reach(t, f, level, va, goal).Some? ==> Reach(u, f, level, va, goal).Some?)
  }

  // Writing a leaf elsewhere keeps it ...
  lemma {:induction false} WayAfterWrite(
      t: Tables, lev: map<nat, nat>, f: nat, i: nat, e: Entry, g: nat, level: nat, va: nat, goal: nat)
    requires Wf(t, lev) && f in t && i < 512 && e.present && IsLeaf(e, lev[f])
    requires g in t && lev[g] == level <= goal <= 3
    requires level <= lev[f] ==> !GoesThrough(t, g, level, va, lev[f], f, i)
    ensures WayKept(t, t[f := t[f][i := e]], g, level, va, goal)
    decreases goal - level
  {
    hide Idx;
    var d := t[g][Idx(va, level)];
    if level < goal && d.present && !IsLeaf(d, level) {
      assert Points(t, lev, g, Idx(va, level));
      WayAfterWrite(t, lev, f, i, e, d.addr, level + 1, va, goal);
    }
  }

  // ... and so does adding a table.
  lemma {:induction false} WayAfterTable(
      t: Tables, lev: map<nat, nat>, f: nat, i: nat, n: nat, g: nat, level: nat, va: nat, goal: nat)
    requires Wf(t, lev) && f in t && i < 512 && lev[f] < 3 && !t[f][i].present && n !in t
    requires g in t && lev[g] == level <= goal <= 3
    ensures WayKept(t, WithTable(t, f, i, n), g, level, va, goal)
    decreases goal - level
  {
    hide Idx;
    var u := WithTable(t, f, i, n);
    var d := t[g][Idx(va, level)];
    if level < goal && d.present && !IsLeaf(d, level) {
      assert Points(t, lev, g, Idx(va, level));
      WayAfterTable(t, lev, f, i, n, d.addr, level + 1, va, goal);
    }
    if g == f && Idx(va, level) == i && level < goal {
      assert u[n][Idx(va, level + 1)] == ABSENT && u[g][Idx(va, level)] == TableEntry(n);
      assert !HugeOnWay(u, n, level + 1, va, goal);
    }
  }
}
