// Turning the firmware's list of memory regions, which may overlap, touch and
// come in any order, into a clean map (mm/early_pmm.c).
module MemoryMap {
  import opened Base

  datatype Kind = Usable | Reserved | AcpiReclaimable | AcpiNvs | Bad

  datatype Region = Region(start: nat, end: nat, kind: Kind)

  const MAX_REGIONS: nat := 128

  function Priority(k: Kind): nat {
    match k
    case Usable => 0
    case Reserved => 1
    case AcpiReclaimable => 1
    case AcpiNvs => 2
    case Bad => 3
  }

  predicate Covers(r: Region, a: nat) { r.start <= a < r.end }

  // -------------------------------------------------------- what a map means

  // The first region of highest priority that covers an address; -1 if none does.
  function Winner(rs: seq<Region>, a: nat): (w: int)
    ensures -1 <= w < |rs|
    ensures w < 0 ==> forall k :: 0 <= k < |rs| ==> !Covers(rs[k], a)
    ensures w >= 0 ==> Covers(rs[w], a)
    ensures w >= 0 ==> forall k :: 0 <= k < |rs| && Covers(rs[k], a) ==>
              Priority(rs[k].kind) <= Priority(rs[w].kind) && (k < w ==> Priority(rs[k].kind) < Priority(rs[w].kind))
  {
    if rs == [] then -1
    else
      var n := |rs| - 1;
      var w := Winner(rs[..n], a);
      assert forall k :: 0 <= k < n ==> rs[..n][k] == rs[k];
      if Covers(rs[n], a) && (w < 0 || Priority(rs[w].kind) < Priority(rs[n].kind)) then n else w
  }

  function KindOf(rs: seq<Region>, a: nat): Option<Kind> {
    var w := Winner(rs, a);
    if w < 0 then None else Some(rs[w].kind)
  }

  lemma WinnerIs(rs: seq<Region>, a: nat, w: nat)
    requires w < |rs| && Covers(rs[w], a)
    requires forall k :: 0 <= k < |rs| && Covers(rs[k], a) ==>
              Priority(rs[k].kind) <= Priority(rs[w].kind) && (k < w ==> Priority(rs[k].kind) < Priority(rs[w].kind))
    ensures Winner(rs, a) == w
  {
  }

  // An address is usable only if every region covering it is usable.
  lemma UsableMeansAllUsable(rs: seq<Region>, a: nat, k: nat)
    requires KindOf(rs, a) == Some(Usable)
    requires k < |rs| && Covers(rs[k], a)
    ensures rs[k].kind == Usable
  {
    var w := Winner(rs, a);
    assert Priority(rs[k].kind) <= Priority(rs[w].kind);
  }

  // Some region of the kind covers the address.
  ghost predicate CoveredBy(rs: seq<Region>, a: nat, kind: Kind) {
    exists k :: 0 <= k < |rs| && Covers(rs[k], a) && rs[k].kind == kind
  }

  // Region k is the first one covering the address that is reserved or reclaimable.
  predicate FirstWithheld(rs: seq<Region>, a: nat, k: int) {
    && 0 <= k < |rs| && Covers(rs[k], a) && (rs[k].kind == Reserved || rs[k].kind == AcpiReclaimable)
    && forall j :: 0 <= j < k && Covers(rs[j], a) ==> rs[j].kind == Usable
  }

  // Which kind an address has where regions overlap: bad memory before non-volatile
  // ACPI memory before the first region that is reserved or reclaimable before usable.
  lemma KindIs(rs: seq<Region>, a: nat)
    ensures CoveredBy(rs, a, Bad) ==> KindOf(rs, a) == Some(Bad)
    ensures !CoveredBy(rs, a, Bad) && CoveredBy(rs, a, AcpiNvs) ==> KindOf(rs, a) == Some(AcpiNvs)
    ensures !CoveredBy(rs, a, Bad) && !CoveredBy(rs, a, AcpiNvs) ==>
              forall k :: FirstWithheld(rs, a, k) ==> KindOf(rs, a) == Some(rs[k].kind)
    ensures KindOf(rs, a) == Some(Usable) <==>
              CoveredBy(rs, a, Usable) && forall kind :: kind != Usable ==> !CoveredBy(rs, a, kind)
    ensures KindOf(rs, a) == None <==> forall kind :: !CoveredBy(rs, a, kind)
  {
    var w := Winner(rs, a);
    if w >= 0 {
      assert CoveredBy(rs, a, rs[w].kind);
    }
  }

  // ------------------------------------------------------------ clean maps

  predicate Sorted(m: seq<Region>) {
    && (forall i :: 0 <= i < |m| ==> m[i].start < m[i].end)
    && forall i, j :: 0 <= i < j < |m| ==> m[i].end <= m[j].start
  }

  predicate Merged(m: seq<Region>) {
    forall i :: 0 < i < |m| ==> !(m[i - 1].end == m[i].start && m[i - 1].kind == m[i].kind)
  }

  predicate Clean(m: seq<Region>) { Sorted(m) && Merged(m) }

  lemma CoverUnique(m: seq<Region>, a: nat, i: nat)
    requires Sorted(m) && i < |m| && Covers(m[i], a)
    ensures Winner(m, a) == i && KindOf(m, a) == Some(m[i].kind)
  {
  }

  // Only the next region can cover the address where one ends.
  lemma AtEnd(m: seq<Region>, i: nat)
    requires Sorted(m) && i < |m|
    ensures var w := Winner(m, m[i].end); w < 0 || (w == i + 1 && m[w].start == m[i].end)
  {
    var w := Winner(m, m[i].end);
    if i + 1 < |m| {
      assert m[i].end <= m[i + 1].start;
    }
  }

  // Two clean maps that agree below e, the first of which stops by e, share
  // their entries up to the last one of the first map.
  lemma {:induction false} SharedPrefix(p: seq<Region>, m: seq<Region>, e: nat, n: nat)
    requires Clean(p) && Clean(m)
    requires forall i :: 0 <= i < |p| ==> p[i].end <= e
    requires forall a: nat :: a < e ==> KindOf(p, a) == KindOf(m, a)
    requires n <= |p|
    ensures n <= |m|
    ensures forall i :: 0 <= i < n ==> m[i].start == p[i].start && m[i].kind == p[i].kind
    ensures forall i :: 0 <= i < n - 1 ==> m[i] == p[i]
    decreases n
  {
    if n > 0 {
      SharedPrefix(p, m, e, n - 1);
      if n > 1 { SameEnd(p, m, e, n - 2); }
      SameStart(p, m, e, n - 1);
    }
  }

  lemma SameStart(p: seq<Region>, m: seq<Region>, e: nat, n: nat)
    requires Clean(p) && Clean(m)
    requires forall i :: 0 <= i < |p| ==> p[i].end <= e
    requires forall a: nat :: a < e ==> KindOf(p, a) == KindOf(m, a)
    requires n < |p| && n <= |m| && forall i :: 0 <= i < n ==> m[i] == p[i]
    ensures n < |m| && m[n].start == p[n].start && m[n].kind == p[n].kind
  {
    var a := p[n].start;
    CoverUnique(p, a, n);
    assert KindOf(m, a) == Some(p[n].kind);
    // nothing of m lies between the shared entries and a
    if n < |m| && m[n].start < a {
      CoverUnique(m, m[n].start, n);
      assert false;
    }
  }

  lemma SameEnd(p: seq<Region>, m: seq<Region>, e: nat, n: nat)
    requires Clean(p) && Clean(m)
    requires forall i :: 0 <= i < |p| ==> p[i].end <= e
    requires forall a: nat :: a < e ==> KindOf(p, a) == KindOf(m, a)
    requires n + 1 < |p| && n < |m| && m[n].start == p[n].start && m[n].kind == p[n].kind
    ensures m[n].end == p[n].end
  {
    assert p[n + 1].end <= e;
    if p[n].end < m[n].end {
      CoverUnique(m, p[n].end, n);
      AtEnd(p, n);
      assert false;
    }
    if m[n].end < p[n].end {
      CoverUnique(p, m[n].end, n);
      AtEnd(m, n);
      assert false;
    }
  }

  // A clean map is determined by the kind it gives each address.
  lemma CleanUnique(p: seq<Region>, m: seq<Region>)
    requires Clean(p) && Clean(m)
    requires forall a: nat :: KindOf(p, a) == KindOf(m, a)
    ensures p == m
  {
    hide KindOf;
    var e := Max(if p == [] then 0 else p[|p| - 1].end, if m == [] then 0 else m[|m| - 1].end);
    EndsWithin(p, e);
    EndsWithin(m, e);
    SharedPrefix(p, m, e, |p|);
    SharedPrefix(m, p, e, |m|);
    if |p| > 0 {
      NotLonger(p, m);
      NotLonger(m, p);
    }
  }

  lemma EndsWithin(p: seq<Region>, e: nat)
    requires Clean(p) && (p != [] ==> p[|p| - 1].end <= e)
    ensures forall i :: 0 <= i < |p| ==> p[i].end <= e
  {
    forall i | 0 <= i < |p| ensures p[i].end <= e { if i < |p| - 1 { assert p[i].end <= p[|p| - 1].start; } }
  }

  // The last region of a map does not reach beyond that of a map of the same kinds.
  lemma NotLonger(p: seq<Region>, m: seq<Region>)
    requires Clean(p) && Clean(m) && |p| == |m| > 0 && m[|m| - 1].start == p[|p| - 1].start
    requires forall a: nat :: KindOf(p, a) == KindOf(m, a)
    ensures m[|m| - 1].end <= p[|p| - 1].end
  {
    var l := |p| - 1;
    if p[l].end < m[l].end {
      CoverUnique(m, p[l].end, l);
      Behind(p, p[l].end);
      assert false;
    }
  }

  lemma Behind(p: seq<Region>, a: nat)
    requires Clean(p) && |p| > 0 && a >= p[|p| - 1].end
    ensures KindOf(p, a) == None
  {
    EndsWithin(p, p[|p| - 1].end);
  }

  // A run of usable addresses lies inside one usable region of a clean map.
  lemma {:induction false} UsableRunInOneRegion(m: seq<Region>, lo: nat, hi: nat)
    requires Clean(m) && lo < hi
    requires forall a: nat :: lo <= a < hi ==> KindOf(m, a) == Some(Usable)
    ensures exists i :: 0 <= i < |m| && m[i].kind == Usable && m[i].start <= lo && hi <= m[i].end
    decreases hi - lo
  {
    var i := Winner(m, lo);
    assert KindOf(m, lo) == Some(Usable);
    assert m[i].end < hi ==> KindOf(m, m[i].end) == Some(Usable);
    if m[i].end < hi {
      AtEnd(m, i);
      assert false;
    }
  }

  // ----------------------------------------------------- sorting the boundaries

  predicate Ascending(s: seq<nat>) { forall i, j :: 0 <= i <= j < |s| ==> s[i] <= s[j] }

  predicate StrictlyAscending(s: seq<nat>) { forall i, j :: 0 <= i < j < |s| ==> s[i] < s[j] }

  lemma SwapKeepsContents(s: seq<nat>, i: nat, j: nat)
    requires i < |s| && j < |s|
    ensures multiset(s[i := s[j]][j := s[i]]) == multiset(s)
  {
  }

  // The i smallest values stand in front, in order.
  predicate Selected(s: seq<nat>, i: nat)
    requires i <= |s|
  {
    && (forall j, k :: 0 <= j <= k < i ==> s[j] <= s[k])
    && forall j, k :: 0 <= j < i <= k < |s| ==> s[j] <= s[k]
  }

  lemma SelectStep(s: seq<nat>, t: seq<nat>, i: nat, m: nat)
    requires i <= m < |s| && t == s[i := s[m]][m := s[i]] && Selected(s, i)
    requires forall l :: i <= l < |s| ==> s[m] <= s[l]
    ensures Selected(t, i + 1) && multiset(t) == multiset(s)
  {
    SwapKeepsContents(s, i, m);
  }

  method MinIndex(arr: array<nat>, i: nat, n: nat) returns (minIdx: nat)
    requires i < n <= arr.Length
    ensures i <= minIdx < n && forall l :: i <= l < n ==> arr[..n][minIdx] <= arr[..n][l]
  {
    minIdx := i;
    for j := i + 1 to n
      invariant i <= minIdx < n
      invariant forall l :: i <= l < j ==> arr[minIdx] <= arr[l]
    {
      minIdx := if arr[minIdx] <= arr[j] then minIdx else j;
    }
  }

  method Swap(arr: array<nat>, i: nat, j: nat, n: nat)
    requires i < n && j < n <= arr.Length
    modifies arr
    ensures arr[..n] == old(arr[..n])[i := old(arr[j])][j := old(arr[i])]
    ensures arr[n..] == old(arr[n..])
  {
    var tmp := arr[i];
    arr[i] := arr[j];
    arr[j] := tmp;
  }

  // Selection sort of the first n values, in place.
  method SortU64(arr: array<nat>, n: nat)
    requires n <= arr.Length
    modifies arr
    ensures Ascending(arr[..n])
    ensures multiset(arr[..n]) == multiset(old(arr[..n]))
    ensures arr[n..] == old(arr[n..])
  {
    for i := 0 to n
      invariant Selected(arr[..n], i)
      invariant multiset(arr[..n]) == multiset(old(arr[..n]))
      invariant arr[n..] == old(arr[n..])
    {
      hide Selected;
      var minIdx := MinIndex(arr, i, n);
      ghost var s := arr[..n];
      if minIdx != i {
        Swap(arr, i, minIdx, n);
      }
      SelectStep(s, arr[..n], i, minIdx);
    }
  }

  // ------------------------------------------------------------- the sweep

  // Distinct start and end addresses, in ascending order.
  predicate BoundariesOf(b: seq<nat>, raw: seq<Region>) {
    && StrictlyAscending(b)
    && forall k :: 0 <= k < |raw| ==> raw[k].start in b && raw[k].end in b
  }

  method FillBoundaries(raw: seq<Region>, b: array<nat>) returns (nb: nat)
    requires 2 * |raw| <= b.Length
    modifies b
    ensures nb == 2 * |raw|
    ensures forall k :: 0 <= k < |raw| ==> raw[k].start in b[..nb] && raw[k].end in b[..nb]
  {
    nb := 0;
    for i := 0 to |raw|
      invariant nb == 2 * i
      invariant forall k :: 0 <= k < i ==> raw[k].start in b[..nb] && raw[k].end in b[..nb]
    {
      ghost var before := b[..nb];
      b[nb] := raw[i].start;
      b[nb + 1] := raw[i].end;
      nb := nb + 2;
      assert b[..nb] == before + [raw[i].start, raw[i].end];
    }
  }

  // Removes repeated values from the first nb values, which are sorted, in place.
  method Dedup(b: array<nat>, nb: nat) returns (nu: nat)
    requires nb <= b.Length && Ascending(b[..nb])
    modifies b
    ensures nu <= nb && StrictlyAscending(b[..nu])
    ensures forall x :: x in b[..nu] <==> x in old(b[..nb])
  {
    ghost var s := b[..nb];
    nu := 0;
    for i := 0 to nb
      invariant nu <= i && (i > 0 ==> nu > 0 && b[nu - 1] == s[i - 1])
      invariant forall k :: i <= k < nb ==> b[k] == s[k]
      invariant StrictlyAscending(b[..nu])
      invariant forall x :: x in b[..nu] <==> x in s[..i]
    {
      assert s[..i + 1] == s[..i] + [s[i]];
      if i == 0 || b[i] != b[nu - 1] {
        ghost var before := b[..nu];
        b[nu] := b[i];
        nu := nu + 1;
        assert b[..nu] == before + [s[i]];
        AppendAscending(before, s[i]);
      }
    }
    assert s[..nb] == s;
  }

  lemma AppendAscending(s: seq<nat>, x: nat)
    requires StrictlyAscending(s) && (s == [] || s[|s| - 1] < x)
    ensures StrictlyAscending(s + [x])
  {
    forall i | 0 <= i < |s| ensures s[i] < x { if i < |s| - 1 { assert s[i] < s[|s| - 1]; } }
  }

  method CollectBoundaries(raw: seq<Region>, b: array<nat>) returns (nu: nat)
    requires 2 * |raw| <= b.Length
    modifies b
    ensures nu <= b.Length && BoundariesOf(b[..nu], raw)
  {
    var nb := FillBoundaries(raw, b);
    ghost var unsorted := b[..nb];
    SortU64(b, nb);
    SameMembers(unsorted, b[..nb]);
    nu := Dedup(b, nb);
  }

  lemma SameMembers(a: seq<nat>, b: seq<nat>)
    requires multiset(a) == multiset(b)
    ensures forall x :: x in a <==> x in b
  {
    forall x ensures x in a <==> x in b {
      assert x in a <==> x in multiset(a);
      assert x in b <==> x in multiset(b);
    }
  }

  // Between two neighbouring boundaries a region covers all addresses or none.
  lemma CoversWhole(raw: seq<Region>, b: seq<nat>, i: nat, k: nat, a: nat)
    requires BoundariesOf(b, raw) && i + 1 < |b| && k < |raw| && b[i] <= a < b[i + 1]
    ensures Covers(raw[k], a) <==> raw[k].start <= b[i] && raw[k].end >= b[i + 1]
  {
    var u :| 0 <= u < |b| && b[u] == raw[k].start;
    var v :| 0 <= v < |b| && b[v] == raw[k].end;
    assert u <= i || u >= i + 1;
    assert v <= i || v >= i + 1;
  }

  // The clean map m, reaching up to s, extended by [s, e) of kind k.
  function Push(m: seq<Region>, s: nat, e: nat, k: Kind): seq<Region> {
    var n := |m|;
    if n > 0 && m[n - 1].kind == k && m[n - 1].end == s
    then m[n - 1 := m[n - 1].(end := e)]
    else m + [Region(s, e, k)]
  }

  ghost predicate UpTo(m: seq<Region>, s: nat) { forall i :: 0 <= i < |m| ==> m[i].end <= s }

  lemma PushClean(m: seq<Region>, s: nat, e: nat, k: Kind)
    requires Clean(m) && UpTo(m, s) && s < e
    ensures Clean(Push(m, s, e, k)) && UpTo(Push(m, s, e, k), e)
  {
    PushSorted(m, s, e, k);
    var n := |m|;
    var p := Push(m, s, e, k);
    assert forall i :: 0 <= i < n - 1 ==> p[i] == m[i];
    assert n > 0 ==> p[n - 1].start == m[n - 1].start && p[n - 1].kind == m[n - 1].kind;
    assert |p| > n && n > 0 ==> p[n - 1] == m[n - 1];
  }

  lemma PushSorted(m: seq<Region>, s: nat, e: nat, k: Kind)
    requires Sorted(m) && UpTo(m, s) && s < e
    ensures Sorted(Push(m, s, e, k)) && UpTo(Push(m, s, e, k), e)
  {
    var p := Push(m, s, e, k);
    var l := |p| - 1;
    assert forall i :: 0 <= i < l ==> p[i] == m[i];
    assert p[l].end == e && (l < |m| ==> p[l].start == m[l].start) && (l == |m| ==> p[l].start == s);
    forall i | 0 <= i < l ensures p[i].end <= p[l].start { assert l < |m| ==> m[i].end <= m[l].start; }
  }

  lemma PushKind(m: seq<Region>, s: nat, e: nat, k: Kind, a: nat)
    requires Clean(m) && UpTo(m, s) && s < e
    ensures KindOf(Push(m, s, e, k), a) == if s <= a < e then Some(k) else KindOf(m, a)
  {
    PushClean(m, s, e, k);
    PushCovers(m, s, e, k, a);
    hide KindOf, Winner, Push, Clean, UpTo, Covers;
    var p := Push(m, s, e, k);
    if s <= a < e {
      CoverUnique(p, a, |p| - 1);
    } else {
      var w := Cover(m, a);
      if w >= 0 { CoverUnique(p, a, w); } else { NoCover(p, a); }
    }
  }

  // The region that decides the kind of an address.
  lemma Cover(m: seq<Region>, a: nat) returns (w: int)
    ensures -1 <= w < |m|
    ensures w >= 0 ==> Covers(m[w], a) && KindOf(m, a) == Some(m[w].kind)
    ensures w < 0 ==> KindOf(m, a) == None && forall j :: 0 <= j < |m| ==> !Covers(m[j], a)
  {
    w := Winner(m, a);
  }

  lemma NoCover(p: seq<Region>, a: nat)
    requires forall j :: 0 <= j < |p| ==> !Covers(p[j], a)
    ensures KindOf(p, a) == None
  {
  }

  // Pushing covers the new addresses with the last region, and no others anew.
  lemma PushCovers(m: seq<Region>, s: nat, e: nat, k: Kind, a: nat)
    requires Clean(m) && UpTo(m, s) && s < e
    ensures var p := Push(m, s, e, k);
            && |p| > 0 && |m| <= |p| <= |m| + 1 && p[|p| - 1].kind == k
            && (s <= a < e ==> Covers(p[|p| - 1], a))
            && (!(s <= a < e) ==>
                  && (forall j {:trigger p[j]} :: 0 <= j < |m| ==>
                        (Covers(p[j], a) <==> Covers(m[j], a)) && p[j].kind == m[j].kind)
                  && (|p| > |m| ==> !Covers(p[|m|], a)))
  {
    var p := Push(m, s, e, k);
    assert forall j :: 0 <= j < |m| - 1 ==> p[j] == m[j];
  }

  // The kind of the addresses between two neighbouring boundaries.
  method BestKind(raw: seq<Region>, ghost b: seq<nat>, ghost i: nat, subStart: nat, subEnd: nat)
    returns (best: Option<Kind>)
    requires BoundariesOf(b, raw) && i + 1 < |b| && subStart == b[i] && subEnd == b[i + 1]
    ensures forall a: nat :: subStart <= a < subEnd ==> KindOf(raw, a) == best
  {
    var covered := false;
    var bestPriority: int := -1;
    var bestKind := Usable;
    ghost var w: int := -1;
    for j := 0 to |raw|
      invariant covered <==> w >= 0
      invariant -1 <= w < j
      invariant w < 0 ==> bestPriority == -1
      invariant w >= 0 ==> bestKind == raw[w].kind && bestPriority == Priority(bestKind)
      invariant w >= 0 ==> raw[w].start <= subStart && raw[w].end >= subEnd
      invariant forall k :: 0 <= k < j && raw[k].start <= subStart && raw[k].end >= subEnd ==>
                  w >= 0 && Priority(raw[k].kind) <= bestPriority && (k < w ==> Priority(raw[k].kind) < bestPriority)
    {
      if raw[j].start <= subStart && raw[j].end >= subEnd {
        covered := true;
        var p := Priority(raw[j].kind);
        if p > bestPriority {
          bestPriority := p;
          bestKind := raw[j].kind;
          w := j;
        }
      }
    }
    best := if covered then Some(bestKind) else None;
    forall a: nat | subStart <= a < subEnd ensures KindOf(raw, a) == best {
      forall k | 0 <= k < |raw|
        ensures Covers(raw[k], a) <==> raw[k].start <= subStart && raw[k].end >= subEnd
      {
        CoversWhole(raw, b, i, k, a);
      }
      if w >= 0 { WinnerIs(raw, a, w); }
    }
  }

  ghost predicate AgreesBelow(m: seq<Region>, raw: seq<Region>, e: nat) {
    forall a: nat :: a < e ==> KindOf(m, a) == KindOf(raw, a)
  }

  // m is the clean form of the region list.
  ghost predicate CleanFormOf(m: seq<Region>, raw: seq<Region>) {
    Clean(m) && forall a: nat :: KindOf(m, a) == KindOf(raw, a)
  }

  lemma BelowFirst(raw: seq<Region>, b: seq<nat>)
    requires BoundariesOf(b, raw)
    ensures b == [] || AgreesBelow([], raw, b[0])
    ensures b == [] ==> raw == []
  {
    if raw != [] { assert raw[0].start in b; }
  }

  // A sweep over all boundaries has seen every covered address.
  lemma SweepDone(m: seq<Region>, raw: seq<Region>, b: seq<nat>, i: nat)
    requires BoundariesOf(b, raw) && i + 1 >= |b| && (i < |b| || b == []) && Swept(m, raw, b, i)
    ensures CleanFormOf(m, raw)
  {
    forall a: nat ensures KindOf(m, a) == KindOf(raw, a) {
      if b == [] {
        BelowFirst(raw, b);
      } else if a >= b[i] {
        forall k | 0 <= k < |raw| ensures !Covers(raw[k], a) {
          assert raw[k].end in b;
        }
      }
    }
  }

  // A clean form is at least as long as any clean map agreeing with it so far.
  lemma PrefixNoLonger(p: seq<Region>, raw: seq<Region>, e: nat, m: seq<Region>)
    requires Clean(p) && UpTo(p, e) && AgreesBelow(p, raw, e) && CleanFormOf(m, raw)
    ensures |p| <= |m|
  {
    SharedPrefix(p, m, e, |p|);
  }

  // Extends the last output region or starts a new one; None is the "out full" panic.
  method Emit(out: array<Region>, n: nat, outMax: nat, s: nat, e: nat, k: Kind) returns (r: Option<nat>)
    requires n <= outMax <= out.Length
    modifies out
    ensures r.Some? <==> |Push(old(out[..n]), s, e, k)| <= outMax
    ensures r.Some? ==> r.value <= outMax && out[..r.value] == Push(old(out[..n]), s, e, k)
    ensures out[outMax..] == old(out[outMax..])
  {
    if n > 0 && out[n - 1].kind == k && out[n - 1].end == s {
      out[n - 1] := out[n - 1].(end := e);
      return Some(n);
    }
    if n >= outMax {
      return None;
    }
    out[n] := Region(s, e, k);
    assert out[..n + 1] == old(out[..n]) + [out[n]];
    return Some(n + 1);
  }

  // One stretch between neighbouring boundaries.
  method SweepOne(raw: seq<Region>, b: seq<nat>, i: nat, out: array<Region>, n: nat, outMax: nat)
    returns (r: Option<nat>)
    requires n <= outMax <= out.Length && i + 1 < |b| && BoundariesOf(b, raw) && Swept(out[..n], raw, b, i)
    modifies out
    ensures r.Some? ==> r.value <= outMax && Swept(out[..r.value], raw, b, i + 1)
    ensures r.None? ==> forall m :: CleanFormOf(m, raw) ==> |m| > outMax
    ensures out[outMax..] == old(out[outMax..])
  {
    var subStart, subEnd := b[i], b[i + 1];
    var best := BestKind(raw, b, i, subStart, subEnd);
    SweepStep(out[..n], raw, b, i, best);
    if best.None? {
      return Some(n);
    }
    ghost var m := Push(out[..n], subStart, subEnd, best.value);
    r := Emit(out, n, outMax, subStart, subEnd, best.value);
    if r.None? {
      forall f | CleanFormOf(f, raw) ensures |f| > outMax { PrefixNoLonger(m, raw, subEnd, f); }
    }
  }

  // The number of regions, the "out full" panic, or boundaries written behind
  // their buffer.
  datatype Sanitized = Cleaned(count: nat) | OutFull | Overrun

  method Sanitize(raw: seq<Region>, out: array<Region>, outMax: nat) returns (r: Sanitized)
    requires outMax <= out.Length
    modifies out
    ensures r.Overrun? <==> |raw| > MAX_REGIONS
    ensures r.Cleaned? ==> r.count <= outMax && CleanFormOf(out[..r.count], raw)
    ensures r.OutFull? ==> forall m :: CleanFormOf(m, raw) ==> |m| > outMax
    ensures out[outMax..] == old(out[outMax..])
  {
    if 2 * |raw| > 2 * MAX_REGIONS {
      return Overrun;
    }
    var boundaries := new nat[2 * MAX_REGIONS];
    var nu := CollectBoundaries(raw, boundaries);
    var b := boundaries[..nu];
    BelowFirst(raw, b);
    var n: nat := 0;
    var i: nat := 0;
    while i + 1 < nu
      invariant n <= outMax
      invariant i < nu || i == nu == n == 0
      invariant Swept(out[..n], raw, b, i)
      invariant out[outMax..] == old(out[outMax..])
    {
      var e := SweepOne(raw, b, i, out, n, outMax);
      if e.None? {
        return OutFull;
      }
      n := e.value;
      i := i + 1;
    }
    SweepDone(out[..n], raw, b, i);
    return Cleaned(n);
  }

  // m is the clean form of everything below boundary i.
  ghost predicate Swept(m: seq<Region>, raw: seq<Region>, b: seq<nat>, i: nat) {
    Clean(m) && if i < |b| then UpTo(m, b[i]) && AgreesBelow(m, raw, b[i]) else m == []
  }

  lemma SweepStep(m: seq<Region>, raw: seq<Region>, b: seq<nat>, i: nat, best: Option<Kind>)
    requires BoundariesOf(b, raw) && i + 1 < |b| && Swept(m, raw, b, i)
    requires forall a: nat :: b[i] <= a < b[i + 1] ==> KindOf(raw, a) == best
    ensures Swept(if best.Some? then Push(m, b[i], b[i + 1], best.value) else m, raw, b, i + 1)
  {
    assert b[i] < b[i + 1];
    if best.Some? {
      PushClean(m, b[i], b[i + 1], best.value);
      PushAgrees(m, raw, b[i], b[i + 1], best.value);
    } else {
      SkipAgrees(m, raw, b[i], b[i + 1]);
    }
  }

  lemma PushAgrees(m: seq<Region>, raw: seq<Region>, s: nat, e: nat, k: Kind)
    requires Clean(m) && UpTo(m, s) && AgreesBelow(m, raw, s) && s < e
    requires forall a: nat :: s <= a < e ==> KindOf(raw, a) == Some(k)
    ensures AgreesBelow(Push(m, s, e, k), raw, e)
  {
    forall a: nat | a < e ensures KindOf(Push(m, s, e, k), a) == KindOf(raw, a) {
      PushKind(m, s, e, k, a);
    }
  }

  lemma SkipAgrees(m: seq<Region>, raw: seq<Region>, s: nat, e: nat)
    requires UpTo(m, s) && AgreesBelow(m, raw, s)
    requires forall a: nat :: s <= a < e ==> KindOf(raw, a) == None
    ensures AgreesBelow(m, raw, e)
  {
  }
}
