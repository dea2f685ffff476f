// The layout that the kernel heap (mm/kmalloc.c) keeps in memory.
module HeapLayout {
  import opened Base
  import opened FrameBitmap

  const MAGIC: nat := 0xFC67_92DA
  const TIERS: nat := 6

  // Memory as 8-byte words; a word never written reads as 0.
  type Memory = map<nat, nat>

  function Word(mem: Memory, a: nat): nat { if a in mem then mem[a] else 0 }

  // struct pool_page_header: magic, then the tier.
  function Header(tier: nat): nat { MAGIC + 0x1_0000_0000 * tier }

  function MagicOf(w: nat): nat { w % 0x1_0000_0000 }

  function TierOf(w: nat): nat { (w / 0x1_0000_0000) % 256 }

  function SlotSize(t: nat): (s: nat)
    requires t < TIERS
    ensures 32 <= s <= 1024
  {
    if t == 0 then 32 else if t == 1 then 64 else if t == 2 then 128
    else if t == 3 then 256 else if t == 4 then 512 else 1024
  }

  function PageOf(a: nat): nat { a - a % PAGE_SIZE }

  predicate IsPage(p: nat) { p % PAGE_SIZE == 0 && p >= ID_BASE }

  function FrameOf(p: nat): nat
    requires p >= ID_BASE
  {
    (p - ID_BASE) / PAGE_SIZE
  }

  datatype Big = Big(addr: nat, pages: nat)

  // What the heap consists of: pool pages with their tier, free slots per tier,
  // small blocks in use, and big blocks in use with their list nodes.
  datatype View = View(pools: map<nat, nat>, free: seq<seq<nat>>, small: map<nat, nat>, nodes: seq<nat>, bigs: seq<Big>)

  predicate PoolsOk(pools: map<nat, nat>) { forall p :: p in pools ==> IsPage(p) && pools[p] < TIERS }

  // a is a slot of tier t: not the first one of its page, which holds the header.
  predicate IsSlot(pools: map<nat, nat>, a: nat, t: nat) {
    && PageOf(a) in pools && pools[PageOf(a)] == t && t < TIERS
    && SlotSize(t) <= a % PAGE_SIZE && (a % PAGE_SIZE) % SlotSize(t) == 0
  }

  predicate NoDup(s: seq<nat>) { forall i, j :: 0 <= i < j < |s| ==> s[i] != s[j] }

  predicate SlotsOk(v: View) {
    && |v.free| == TIERS
    && (forall t, i :: 0 <= t < TIERS && 0 <= i < |v.free[t]| ==> IsSlot(v.pools, v.free[t][i], t))
    && (forall a :: a in v.small ==> IsSlot(v.pools, a, v.small[a]))
    && (forall i :: 0 <= i < |v.nodes| ==> IsSlot(v.pools, v.nodes[i], 0))
  }

  // No slot is in two places.
  predicate Once(v: View)
    requires |v.free| == TIERS
  {
    && (forall t :: 0 <= t < TIERS ==> NoDup(v.free[t])) && NoDup(v.nodes)
    && (forall t, i :: 0 <= t < TIERS && 0 <= i < |v.free[t]| ==> v.free[t][i] !in v.small)
    && (forall i :: 0 <= i < |v.nodes| ==> v.nodes[i] !in v.small)
    && (forall i, j :: 0 <= i < |v.nodes| && 0 <= j < |v.free[0]| ==> v.nodes[i] != v.free[0][j])
  }

  // Every slot of every pool page is somewhere.
  predicate Accounted(v: View, a: nat, t: nat)
    requires |v.free| == TIERS && t < TIERS
  {
    a in v.free[t] || a in v.small || (t == 0 && a in v.nodes)
  }

  ghost predicate Complete(v: View)
    requires |v.free| == TIERS
  {
    forall a: nat, t: nat :: IsSlot(v.pools, a, t) ==> Accounted(v, a, t)
  }

  function BigRun(b: Big): set<nat>
    requires b.addr >= ID_BASE
  {
    Run(FrameOf(b.addr), b.pages)
  }

  // Big blocks are whole pages, apart from each other and from the pool pages.
  predicate BigsOk(v: View) {
    && |v.bigs| == |v.nodes|
    && (forall i :: 0 <= i < |v.bigs| ==> IsPage(v.bigs[i].addr) && v.bigs[i].pages > 0)
    && (forall i, j :: 0 <= i < j < |v.bigs| ==> BigRun(v.bigs[i]) !! BigRun(v.bigs[j]))
    && (forall i, p :: 0 <= i < |v.bigs| && p in v.pools && p >= ID_BASE ==> FrameOf(p) !in BigRun(v.bigs[i]))
  }

  // None of the heap's pages is free for the frame allocator.
  predicate Owned(v: View, frames: set<nat>)
    requires PoolsOk(v.pools) && BigsOk(v)
  {
    && (forall p :: p in v.pools ==> FrameOf(p) !in frames)
    && (forall i :: 0 <= i < |v.bigs| ==> BigRun(v.bigs[i]) !! frames)
  }

  ghost predicate Layout(v: View, frames: set<nat>) {
    PoolsOk(v.pools) && SlotsOk(v) && Once(v) && Complete(v) && BigsOk(v) && Owned(v, frames)
  }

  // -------------------------------------------------- pointers in memory

  function First(s: seq<nat>): nat { if s == [] then 0 else s[0] }

  function Next(s: seq<nat>, i: nat): nat { if i + 1 < |s| then s[i + 1] else 0 }

  predicate Chain(mem: Memory, s: seq<nat>) {
    forall i {:trigger Next(s, i)} :: 0 <= i < |s| ==> Word(mem, s[i]) == Next(s, i)
  }

  // struct big_alloc_node at n.
  predicate NodeAt(mem: Memory, n: nat, b: Big, next: nat) {
    Word(mem, n) == b.addr && Word(mem, n + 8) == b.pages && Word(mem, n + 16) == next
  }

  predicate NodeChain(mem: Memory, nodes: seq<nat>, bigs: seq<Big>)
    requires |nodes| == |bigs|
  {
    forall i {:trigger Next(nodes, i)} :: 0 <= i < |nodes| ==> NodeAt(mem, nodes[i], bigs[i], Next(nodes, i))
  }

  predicate HeadersOk(mem: Memory, pools: map<nat, nat>) {
    forall p :: p in pools ==> MagicOf(Word(mem, p)) == MAGIC && TierOf(Word(mem, p)) == pools[p]
  }

  ghost predicate Linked(mem: Memory, heads: seq<nat>, bigHead: nat, v: View)
    requires |v.free| == TIERS && |v.nodes| == |v.bigs|
  {
    && HeadersOk(mem, v.pools)
    && |heads| == TIERS && (forall t :: 0 <= t < TIERS ==> heads[t] == First(v.free[t]) && Chain(mem, v.free[t]))
    && bigHead == First(v.nodes) && NodeChain(mem, v.nodes, v.bigs)
  }

  // ------------------------------------------------------ geometry of slots

  // Slots of a page start apart by multiples of the slot size.
  lemma SlotsApart(x: nat, y: nat, t: nat)
    requires t < TIERS && x % SlotSize(t) == 0 && y % SlotSize(t) == 0 && x < y
    ensures x + SlotSize(t) <= y
  {
    var s := SlotSize(t);
    var i, j := x / s, y / s;
    assert x == s * i && y == s * j;
    if j < i {
      MulOrder(s, j, i);
      assert false;
    }
    MulOrder(s, i, j);
  }

  // A slot ends within its page.
  lemma SlotInPage(x: nat, t: nat)
    requires t < TIERS && x < PAGE_SIZE && x % SlotSize(t) == 0
    ensures x + SlotSize(t) <= PAGE_SIZE
  {
    assert PAGE_SIZE % SlotSize(t) == 0;
    SlotsApart(x, PAGE_SIZE, t);
  }

  predicate InSlot(x: nat, a: nat, t: nat)
    requires t < TIERS
  {
    a <= x < a + SlotSize(t)
  }

  // An address inside a slot belongs to the slot's page, is not its header, and
  // lies in no other slot.
  lemma InsideSlot(pools: map<nat, nat>, a: nat, t: nat, x: nat)
    requires IsSlot(pools, a, t) && InSlot(x, a, t)
    ensures PageOf(x) == PageOf(a) && x >= PageOf(x) + SlotSize(t)
  {
    SlotInPage(a % PAGE_SIZE, t);
    DivModUnique(x, PAGE_SIZE, a / PAGE_SIZE, a % PAGE_SIZE + (x - a));
  }

  lemma SlotsDisjoint(pools: map<nat, nat>, a: nat, t: nat, b: nat, u: nat, x: nat)
    requires IsSlot(pools, a, t) && IsSlot(pools, b, u) && a != b && InSlot(x, a, t)
    ensures !InSlot(x, b, u)
  {
    InsideSlot(pools, a, t, x);
    if InSlot(x, b, u) {
      InsideSlot(pools, b, u, x);
      var o, q := a % PAGE_SIZE, b % PAGE_SIZE;
      if o < q { SlotsApart(o, q, t); } else { SlotsApart(q, o, t); }
      assert false;
    }
  }

  // ------------------------------------------------ words that callers own

  // No pointer or header of the heap is stored at x.
  predicate Quiet(v: View, x: nat)
    requires |v.free| == TIERS
  {
    && x !in v.pools
    && (forall t, i :: 0 <= t < TIERS && 0 <= i < |v.free[t]| ==> v.free[t][i] != x)
    && (forall i :: 0 <= i < |v.nodes| ==> x != v.nodes[i] && x != v.nodes[i] + 8 && x != v.nodes[i] + 16)
  }

  lemma WriteQuiet(mem: Memory, heads: seq<nat>, bigHead: nat, v: View, x: nat, w: nat)
    requires |v.free| == TIERS && |v.nodes| == |v.bigs| && Linked(mem, heads, bigHead, v) && Quiet(v, x)
    ensures Linked(mem[x := w], heads, bigHead, v)
  {
  }

  // Every address of a small block in use is its owner's.
  lemma SmallIsQuiet(v: View, frames: set<nat>, a: nat, x: nat)
    requires Layout(v, frames) && a in v.small && InSlot(x, a, v.small[a])
    ensures Quiet(v, x)
  {
    var t := v.small[a];
    InsideSlot(v.pools, a, t, x);
    forall u, i | 0 <= u < TIERS && 0 <= i < |v.free[u]| ensures v.free[u][i] != x {
      SlotsDisjoint(v.pools, a, t, v.free[u][i], u, x);
    }
    forall i | 0 <= i < |v.nodes| ensures x != v.nodes[i] && x != v.nodes[i] + 8 && x != v.nodes[i] + 16 {
      SlotsDisjoint(v.pools, a, t, v.nodes[i], 0, x);
    }
    assert x in v.pools ==> PageOf(x) == x;
  }

  predicate InBig(x: nat, b: Big) { b.addr <= x < b.addr + b.pages * PAGE_SIZE }

  lemma BigPage(x: nat, b: Big)
    requires IsPage(b.addr) && InBig(x, b)
    ensures IsPage(PageOf(x)) && FrameOf(PageOf(x)) in BigRun(b)
  {
    var k := (x - b.addr) / PAGE_SIZE;
    var r := (x - b.addr) % PAGE_SIZE;
    DivModUnique(x, PAGE_SIZE, b.addr / PAGE_SIZE + k, r);
  }

  // So is every address of a big block.
  lemma BigIsQuiet(v: View, frames: set<nat>, i: nat, x: nat)
    requires Layout(v, frames) && i < |v.bigs| && InBig(x, v.bigs[i])
    ensures Quiet(v, x)
  {
    BigPage(x, v.bigs[i]);
    assert PageOf(x) !in v.pools;
    forall j | 0 <= j < |v.nodes| ensures x != v.nodes[j] && x != v.nodes[j] + 8 && x != v.nodes[j] + 16 {
      InsideSlot(v.pools, v.nodes[j], 0, v.nodes[j]);
      InsideSlot(v.pools, v.nodes[j], 0, v.nodes[j] + 8);
      InsideSlot(v.pools, v.nodes[j], 0, v.nodes[j] + 16);
    }
    assert x in v.pools ==> PageOf(x) == x;
  }

  // ----------------------------------------------------- blocks never overlap

  // A small block in use keeps clear of every other slot in use and of page headers.
  lemma SmallApart(v: View, frames: set<nat>, a: nat, b: nat, x: nat)
    requires Layout(v, frames) && a in v.small && InSlot(x, a, v.small[a])
    ensures b in v.small && b != a ==> !InSlot(x, b, v.small[b])
    ensures b in v.nodes ==> !InSlot(x, b, 0)
    ensures PageOf(x) in v.pools && x >= PageOf(x) + 8
  {
    InsideSlot(v.pools, a, v.small[a], x);
    if b in v.small && b != a { SlotsDisjoint(v.pools, a, v.small[a], b, v.small[b], x); }
    if b in v.nodes { SlotsDisjoint(v.pools, a, v.small[a], b, 0, x); }
  }

  // A big block keeps clear of every other big block and of all pool pages.
  lemma BigApart(v: View, frames: set<nat>, i: nat, j: nat, x: nat)
    requires Layout(v, frames) && i < |v.bigs| && InBig(x, v.bigs[i])
    ensures j < |v.bigs| && j != i ==> !InBig(x, v.bigs[j])
    ensures PageOf(x) !in v.pools
  {
    BigPage(x, v.bigs[i]);
    if j < |v.bigs| && j != i && InBig(x, v.bigs[j]) {
      BigPage(x, v.bigs[j]);
      assert false;
    }
  }
}
