// The elementary changes of the kernel heap, and why each keeps its layout.
module HeapSteps {
  import opened Base
  import opened FrameBitmap
  import opened HeapLayout

  // ------------------------------------------------------ taking a slot

  function Popped(v: View, t: nat): View
    requires |v.free| == TIERS && t < TIERS && v.free[t] != []
  {
    v.(free := v.free[t := v.free[t][1..]], small := v.small[v.free[t][0] := t])
  }

  lemma PopSlots(v: View, t: nat)
    requires PoolsOk(v.pools) && SlotsOk(v) && Once(v) && t < TIERS && v.free[t] != []
    ensures SlotsOk(Popped(v, t)) && Once(Popped(v, t))
  {
    var w := Popped(v, t);
    assert forall u, i :: 0 <= u < TIERS && 0 <= i < |w.free[u]| ==>
        w.free[u][i] == v.free[u][if u == t then i + 1 else i];
    forall u, i | 0 <= u < TIERS && 0 <= i < |w.free[u]| ensures w.free[u][i] != v.free[t][0] {
      assert IsSlot(v.pools, v.free[t][0], t);
      assert IsSlot(v.pools, w.free[u][i], u);
    }
    forall u | 0 <= u < TIERS ensures NoDup(w.free[u]) {
      assert NoDup(v.free[u]);
    }
  }

  lemma PopComplete(v: View, t: nat)
    requires |v.free| == TIERS && t < TIERS && v.free[t] != [] && Complete(v)
    ensures Complete(Popped(v, t))
  {
    var w := Popped(v, t);
    forall a: nat, u: nat | IsSlot(w.pools, a, u) ensures Accounted(w, a, u) {
      assert Accounted(v, a, u);
      assert v.free[t] == [v.free[t][0]] + v.free[t][1..];
    }
  }

  lemma PopLayout(v: View, frames: set<nat>, t: nat)
    requires Layout(v, frames) && t < TIERS && v.free[t] != []
    ensures Layout(Popped(v, t), frames)
  {
    PopSlots(v, t);
    PopComplete(v, t);
  }

  lemma PopLinked(mem: Memory, heads: seq<nat>, bigHead: nat, v: View, t: nat)
    requires |v.free| == TIERS && |v.nodes| == |v.bigs| && Linked(mem, heads, bigHead, v)
    requires t < TIERS && v.free[t] != []
    ensures heads[t] == v.free[t][0]
    ensures Linked(mem, heads[t := Word(mem, heads[t])], bigHead, Popped(v, t))
  {
    var s := v.free[t];
    assert Word(mem, s[0]) == Next(s, 0);
    assert forall i :: 0 <= i < |s| - 1 ==> s[1..][i] == s[i + 1] && Next(s[1..], i) == Next(s, i + 1);
    assert Chain(mem, s[1..]);
  }

  // ---------------------------------------------------- giving back a slot

  function Pushed(v: View, a: nat): View
    requires |v.free| == TIERS && a in v.small && v.small[a] < TIERS
  {
    v.(free := v.free[v.small[a] := [a] + v.free[v.small[a]]], small := v.small - {a})
  }

  lemma PushSlots(v: View, a: nat)
    requires PoolsOk(v.pools) && SlotsOk(v) && Once(v) && a in v.small
    ensures SlotsOk(Pushed(v, a)) && Once(Pushed(v, a))
  {
    var t := v.small[a];
    var w := Pushed(v, a);
    assert IsSlot(v.pools, a, t);
    assert forall u, i :: 0 <= u < TIERS && 0 <= i < |w.free[u]| ==>
             w.free[u][i] == if u != t then v.free[u][i] else if i == 0 then a else v.free[t][i - 1];
    forall u | 0 <= u < TIERS ensures NoDup(w.free[u]) {
      assert NoDup(v.free[u]);
    }
  }

  lemma PushComplete(v: View, a: nat)
    requires |v.free| == TIERS && a in v.small && v.small[a] < TIERS && Complete(v)
    requires IsSlot(v.pools, a, v.small[a])
    ensures Complete(Pushed(v, a))
  {
    var w := Pushed(v, a);
    forall b: nat, u: nat | IsSlot(w.pools, b, u) ensures Accounted(w, b, u) {
      assert Accounted(v, b, u);
      assert w.free[v.small[a]][0] == a;
    }
  }

  lemma PushLayout(v: View, frames: set<nat>, a: nat)
    requires Layout(v, frames) && a in v.small
    ensures v.small[a] < TIERS && Layout(Pushed(v, a), frames)
  {
    assert IsSlot(v.pools, a, v.small[a]);
    PushSlots(v, a);
    PushComplete(v, a);
  }

  lemma PushLinked(mem: Memory, heads: seq<nat>, bigHead: nat, v: View, frames: set<nat>, a: nat)
    requires Layout(v, frames) && Linked(mem, heads, bigHead, v) && a in v.small
    ensures v.small[a] < TIERS
    ensures Linked(mem[a := heads[v.small[a]]], heads[v.small[a] := a], bigHead, Pushed(v, a))
  {
    var t := v.small[a];
    assert IsSlot(v.pools, a, t);
    SmallIsQuiet(v, frames, a, a);
    var m := mem[a := heads[t]];
    WriteQuiet(mem, heads, bigHead, v, a, heads[t]);
    ChainCons(m, a, v.free[t]);
  }

  lemma ChainCons(mem: Memory, a: nat, s: seq<nat>)
    requires Chain(mem, s) && Word(mem, a) == First(s)
    ensures Chain(mem, [a] + s)
  {
    var c := [a] + s;
    forall i | 0 <= i < |c| ensures Word(mem, c[i]) == Next(c, i) {
      if i > 0 { assert c[i] == s[i - 1] && Next(c, i) == Next(s, i - 1); }
    }
  }

  // --------------------------------------------------------- a new pool page

  // The slots of a pool page, from the second one on.
  function SlotsOf(p: nat, t: nat): (s: seq<nat>)
    requires t < TIERS
    ensures |s| == PAGE_SIZE / SlotSize(t) - 1
    ensures forall i :: 0 <= i < |s| ==> s[i] == p + (i + 1) * SlotSize(t)
  {
    seq(PAGE_SIZE / SlotSize(t) - 1, i => p + (i + 1) * SlotSize(t))
  }

  function WithPool(v: View, p: nat, t: nat): View
    requires |v.free| == TIERS && t < TIERS
  {
    v.(pools := v.pools[p := t], free := v.free[t := SlotsOf(p, t)])
  }

  // The i-th of them lies at offset (i + 1) * size of the page ...
  lemma PoolSlot(p: nat, t: nat, i: nat)
    requires t < TIERS && p % PAGE_SIZE == 0 && i < |SlotsOf(p, t)|
    ensures var a := SlotsOf(p, t)[i]; PageOf(a) == p && a % PAGE_SIZE == (i + 1) * SlotSize(t)
    ensures SlotSize(t) <= (i + 1) * SlotSize(t) && ((i + 1) * SlotSize(t)) % SlotSize(t) == 0
  {
    var s := SlotSize(t);
    var k := i + 1;
    assert s * (PAGE_SIZE / s) == PAGE_SIZE;
    MulOrder(s, k, PAGE_SIZE / s);
    MulOrder(s, 0, k);
    assert s * k == k * s;
    DivModUnique(p + k * s, PAGE_SIZE, p / PAGE_SIZE, k * s);
    DivModUnique(k * s, s, k, 0);
  }

  // ... and every slot of the page is one of them.
  lemma SlotOfPool(pools: map<nat, nat>, p: nat, t: nat, a: nat) returns (i: nat)
    requires t < TIERS && IsSlot(pools, a, t) && PageOf(a) == p
    ensures i < |SlotsOf(p, t)| && SlotsOf(p, t)[i] == a
  {
    var s := SlotSize(t);
    var o := a % PAGE_SIZE;
    var k := o / s;
    assert o == s * k;
    assert s * (PAGE_SIZE / s) == PAGE_SIZE;
    if k >= PAGE_SIZE / s {
      if k > PAGE_SIZE / s { MulOrder(s, PAGE_SIZE / s, k); }
      assert false;
    }
    i := k - 1;
  }

  lemma PoolSlotsOk(v: View, p: nat, t: nat)
    requires PoolsOk(v.pools) && SlotsOk(v) && Once(v) && t < TIERS && v.free[t] == [] && IsPage(p) && p !in v.pools
    ensures SlotsOk(WithPool(v, p, t)) && Once(WithPool(v, p, t))
  {
    var w := WithPool(v, p, t);
    forall i | 0 <= i < |SlotsOf(p, t)| ensures IsSlot(w.pools, SlotsOf(p, t)[i], t) && PageOf(SlotsOf(p, t)[i]) == p {
      PoolSlot(p, t, i);
    }
    forall a, u | IsSlot(v.pools, a, u) ensures IsSlot(w.pools, a, u) && PageOf(a) != p {
    }
    PoolNoDup(p, t);
    forall u | 0 <= u < TIERS ensures NoDup(w.free[u]) {
      assert u != t ==> w.free[u] == v.free[u] && NoDup(v.free[u]);
    }
  }

  lemma PoolNoDup(p: nat, t: nat)
    requires t < TIERS
    ensures NoDup(SlotsOf(p, t))
  {
    var s := SlotsOf(p, t);
    forall i, j | 0 <= i < j < |s| ensures s[i] != s[j] {
      MulOrder(SlotSize(t), i + 1, j + 1);
    }
  }

  lemma PoolComplete(v: View, p: nat, t: nat)
    requires |v.free| == TIERS && t < TIERS && v.free[t] == [] && Complete(v)
    ensures Complete(WithPool(v, p, t))
  {
    var w := WithPool(v, p, t);
    forall a: nat, u: nat | IsSlot(w.pools, a, u) ensures Accounted(w, a, u) {
      if PageOf(a) == p {
        var i := SlotOfPool(w.pools, p, t, a);
      } else {
        assert IsSlot(v.pools, a, u) && Accounted(v, a, u);
      }
    }
  }

  lemma PoolLayout(v: View, frames: set<nat>, p: nat, t: nat)
    requires Layout(v, frames) && t < TIERS && v.free[t] == [] && IsPage(p) && FrameOf(p) in frames
    ensures p !in v.pools && Layout(WithPool(v, p, t), frames - {FrameOf(p)})
  {
    PoolSlotsOk(v, p, t);
    PoolComplete(v, p, t);
    PoolBigs(v, frames, p, t);
  }

  lemma PoolBigs(v: View, frames: set<nat>, p: nat, t: nat)
    requires PoolsOk(v.pools) && BigsOk(v) && Owned(v, frames) && |v.free| == TIERS
    requires t < TIERS && IsPage(p) && FrameOf(p) in frames
    ensures var w := WithPool(v, p, t);
            PoolsOk(w.pools) && BigsOk(w) && Owned(w, frames - {FrameOf(p)})
  {
    var w := WithPool(v, p, t);
    assert forall q :: q in w.pools ==> q == p || q in v.pools;
    forall i | 0 <= i < |w.bigs| ensures FrameOf(p) !in BigRun(w.bigs[i]) {
      assert BigRun(v.bigs[i]) !! frames;
    }
    forall q | q in w.pools ensures FrameOf(q) !in frames - {FrameOf(p)} {
    }
  }

  predicate SameOutside(mem: Memory, m: Memory, p: nat) {
    forall x :: x in mem.Keys + m.Keys && PageOf(x) != p ==> Word(m, x) == Word(mem, x)
  }

  lemma SameWord(mem: Memory, m: Memory, p: nat, x: nat)
    requires SameOutside(mem, m, p) && PageOf(x) != p
    ensures Word(m, x) == Word(mem, x)
  {
    assert x !in mem.Keys + m.Keys ==> Word(m, x) == 0 && Word(mem, x) == 0;
  }

  lemma PoolLinked(mem: Memory, m: Memory, heads: seq<nat>, bigHead: nat, v: View, frames: set<nat>, p: nat, t: nat)
    requires Layout(v, frames) && Linked(mem, heads, bigHead, v)
    requires t < TIERS && v.free[t] == [] && IsPage(p) && p !in v.pools && SameOutside(mem, m, p)
    requires Word(m, p) == Header(t) && Chain(m, SlotsOf(p, t))
    ensures Linked(m, heads[t := p + SlotSize(t)], bigHead, WithPool(v, p, t))
  {
    var w := WithPool(v, p, t);
    forall q | q in w.pools ensures MagicOf(Word(m, q)) == MAGIC && TierOf(Word(m, q)) == w.pools[q] {
      if q == p {
        HeaderReadsBack(t);
      } else {
        assert PageOf(q) == q;
        SameWord(mem, m, p, q);
      }
    }
    PoolChains(mem, m, heads, v, p, t);
    PoolNodes(mem, m, v, p);
  }

  lemma HeaderReadsBack(t: nat)
    requires t < TIERS
    ensures MagicOf(Header(t)) == MAGIC && TierOf(Header(t)) == t
  {
  }

  lemma PoolChains(mem: Memory, m: Memory, heads: seq<nat>, v: View, p: nat, t: nat)
    requires SlotsOk(v) && |heads| == TIERS && t < TIERS && p !in v.pools && SameOutside(mem, m, p)
    requires forall u :: 0 <= u < TIERS ==> heads[u] == First(v.free[u]) && Chain(mem, v.free[u])
    requires Chain(m, SlotsOf(p, t))
    ensures var w := WithPool(v, p, t);
            var h := heads[t := p + SlotSize(t)];
            forall u :: 0 <= u < TIERS ==> h[u] == First(w.free[u]) && Chain(m, w.free[u])
  {
    var w := WithPool(v, p, t);
    assert |SlotsOf(p, t)| > 0;
    forall u | 0 <= u < TIERS && u != t ensures Chain(m, v.free[u]) {
      var s := v.free[u];
      forall i | 0 <= i < |s| ensures Word(m, s[i]) == Next(s, i) {
        assert IsSlot(v.pools, s[i], u);
        SameWord(mem, m, p, s[i]);
      }
    }
  }

  lemma PoolNodes(mem: Memory, m: Memory, v: View, p: nat)
    requires SlotsOk(v) && |v.nodes| == |v.bigs| && p !in v.pools && SameOutside(mem, m, p)
    requires NodeChain(mem, v.nodes, v.bigs)
    ensures NodeChain(m, v.nodes, v.bigs)
  {
    forall i | 0 <= i < |v.nodes| ensures NodeAt(m, v.nodes[i], v.bigs[i], Next(v.nodes, i)) {
      var n := v.nodes[i];
      assert NodeAt(mem, n, v.bigs[i], Next(v.nodes, i));
      InsideSlot(v.pools, n, 0, n);
      InsideSlot(v.pools, n, 0, n + 8);
      InsideSlot(v.pools, n, 0, n + 16);
      SameWord(mem, m, p, n);
      SameWord(mem, m, p, n + 8);
      SameWord(mem, m, p, n + 16);
    }
  }

  // ------------------------------------------------------------- big blocks

  // A small block becomes the list node of big block b.
  function WithBig(v: View, a: nat, b: Big): View {
    v.(small := v.small - {a}, nodes := [a] + v.nodes, bigs := [b] + v.bigs)
  }

  predicate BigFits(v: View, b: Big)
    requires PoolsOk(v.pools) && BigsOk(v)
  {
    && IsPage(b.addr) && b.pages > 0
    && (forall i :: 0 <= i < |v.bigs| ==> BigRun(b) !! BigRun(v.bigs[i]))
    && (forall p :: p in v.pools ==> FrameOf(p) !in BigRun(b))
  }

  lemma BigSlots(v: View, a: nat, b: Big)
    requires PoolsOk(v.pools) && SlotsOk(v) && Once(v) && a in v.small && v.small[a] == 0
    ensures SlotsOk(WithBig(v, a, b)) && Once(WithBig(v, a, b))
  {
    var w := WithBig(v, a, b);
    assert forall i :: 0 <= i < |w.nodes| ==> w.nodes[i] == if i == 0 then a else v.nodes[i - 1];
    assert IsSlot(v.pools, a, 0);
  }

  lemma BigComplete(v: View, a: nat, b: Big)
    requires |v.free| == TIERS && a in v.small && v.small[a] == 0 && Complete(v) && IsSlot(v.pools, a, 0)
    ensures Complete(WithBig(v, a, b))
  {
    var w := WithBig(v, a, b);
    forall x: nat, u: nat | IsSlot(w.pools, x, u) ensures Accounted(w, x, u) {
      assert Accounted(v, x, u);
      assert w.nodes[0] == a;
    }
  }

  lemma BigBigs(v: View, frames: set<nat>, a: nat, b: Big)
    requires PoolsOk(v.pools) && BigsOk(v) && Owned(v, frames) && BigFits(v, b) && BigRun(b) !! frames
    ensures BigsOk(WithBig(v, a, b)) && Owned(WithBig(v, a, b), frames)
  {
    var w := WithBig(v, a, b);
    assert forall i :: 0 <= i < |w.bigs| ==> w.bigs[i] == if i == 0 then b else v.bigs[i - 1];
  }

  lemma BigLayout(v: View, frames: set<nat>, a: nat, b: Big)
    requires Layout(v, frames) && a in v.small && v.small[a] == 0 && BigFits(v, b) && BigRun(b) !! frames
    ensures Layout(WithBig(v, a, b), frames)
  {
    assert IsSlot(v.pools, a, 0);
    BigSlots(v, a, b);
    BigComplete(v, a, b);
    BigBigs(v, frames, a, b);
  }

  function NodeWritten(mem: Memory, a: nat, b: Big, next: nat): Memory {
    mem[a := b.addr][a + 8 := b.pages][a + 16 := next]
  }

  lemma WriteNode(mem: Memory, heads: seq<nat>, bigHead: nat, v: View, a: nat, b: Big, next: nat)
    requires |v.free| == TIERS && |v.nodes| == |v.bigs| && Linked(mem, heads, bigHead, v)
    requires Quiet(v, a) && Quiet(v, a + 8) && Quiet(v, a + 16)
    ensures Linked(NodeWritten(mem, a, b, next), heads, bigHead, v)
  {
    hide Linked, Quiet;
    WriteQuiet(mem, heads, bigHead, v, a, b.addr);
    WriteQuiet(mem[a := b.addr], heads, bigHead, v, a + 8, b.pages);
    WriteQuiet(mem[a := b.addr][a + 8 := b.pages], heads, bigHead, v, a + 16, next);
  }

  lemma LayoutShape(v: View, frames: set<nat>)
    requires Layout(v, frames)
    ensures |v.free| == TIERS && |v.nodes| == |v.bigs|
  {
  }

  lemma BigLinked(mem: Memory, heads: seq<nat>, bigHead: nat, v: View, frames: set<nat>, a: nat, b: Big)
    requires Layout(v, frames) && Linked(mem, heads, bigHead, v) && a in v.small && v.small[a] == 0
    ensures Linked(NodeWritten(mem, a, b, bigHead), heads, a, WithBig(v, a, b))
  {
    LayoutShape(v, frames);
    NodeIsWritten(mem, a, b, bigHead);
    SmallIsQuiet(v, frames, a, a);
    SmallIsQuiet(v, frames, a, a + 8);
    SmallIsQuiet(v, frames, a, a + 16);
    WriteNode(mem, heads, bigHead, v, a, b, bigHead);
    hide Layout, Quiet, Chain, HeadersOk, NodeAt, NodeWritten, NodeChain;
    NodeCons(NodeWritten(mem, a, b, bigHead), a, b, v.nodes, v.bigs);
  }

  lemma NodeIsWritten(mem: Memory, a: nat, b: Big, next: nat)
    ensures NodeAt(NodeWritten(mem, a, b, next), a, b, next)
  {
  }

  lemma NodeCons(mem: Memory, a: nat, b: Big, nodes: seq<nat>, bigs: seq<Big>)
    requires |nodes| == |bigs| && NodeChain(mem, nodes, bigs) && NodeAt(mem, a, b, First(nodes))
    ensures NodeChain(mem, [a] + nodes, [b] + bigs)
  {
    hide NodeAt;
    var c := [a] + nodes;
    forall i | 0 <= i < |c| ensures NodeAt(mem, c[i], ([b] + bigs)[i], Next(c, i)) {
      if i > 0 { assert c[i] == nodes[i - 1] && ([b] + bigs)[i] == bigs[i - 1] && Next(c, i) == Next(nodes, i - 1); }
    }
  }

  // Big block i is taken off the list; its node is a small block again.
  function WithoutBig(v: View, i: nat): View
    requires i < |v.nodes| && |v.bigs| == |v.nodes|
  {
    v.(small := v.small[v.nodes[i] := 0], nodes := v.nodes[..i] + v.nodes[i + 1..],
       bigs := v.bigs[..i] + v.bigs[i + 1..])
  }

  lemma UnbigSlots(v: View, i: nat)
    requires PoolsOk(v.pools) && SlotsOk(v) && Once(v) && |v.bigs| == |v.nodes| && i < |v.nodes|
    ensures SlotsOk(WithoutBig(v, i)) && Once(WithoutBig(v, i))
  {
    var w := WithoutBig(v, i);
    assert IsSlot(v.pools, v.nodes[i], 0);
    assert forall j :: 0 <= j < |w.nodes| ==> w.nodes[j] == v.nodes[if j < i then j else j + 1];
    forall u, j | 0 <= u < TIERS && 0 <= j < |w.free[u]| ensures w.free[u][j] != v.nodes[i] {
      assert IsSlot(v.pools, v.free[u][j], u);
    }
  }

  lemma UnbigComplete(v: View, i: nat)
    requires |v.free| == TIERS && |v.bigs| == |v.nodes| && i < |v.nodes| && Complete(v)
    ensures Complete(WithoutBig(v, i))
  {
    var w := WithoutBig(v, i);
    forall x: nat, u: nat | IsSlot(w.pools, x, u) ensures Accounted(w, x, u) {
      assert Accounted(v, x, u);
      if u == 0 && x in v.nodes && x != v.nodes[i] {
        var j :| 0 <= j < |v.nodes| && v.nodes[j] == x;
        assert w.nodes[if j < i then j else j - 1] == x;
      }
    }
  }

  lemma UnbigBigs(v: View, frames: set<nat>, i: nat)
    requires PoolsOk(v.pools) && BigsOk(v) && Owned(v, frames) && i < |v.nodes|
    ensures BigsOk(WithoutBig(v, i)) && Owned(WithoutBig(v, i), frames + BigRun(v.bigs[i]))
  {
    var w := WithoutBig(v, i);
    assert forall j :: 0 <= j < |w.bigs| ==> w.bigs[j] == v.bigs[if j < i then j else j + 1];
    forall j | 0 <= j < |w.bigs| ensures BigRun(w.bigs[j]) !! frames + BigRun(v.bigs[i]) {
      var k := if j < i then j else j + 1;
      assert BigRun(v.bigs[k]) !! frames;
      assert BigRun(v.bigs[k]) !! BigRun(v.bigs[i]) by { if k < i { } else { } }
    }
  }

  lemma UnbigLayout(v: View, frames: set<nat>, i: nat)
    requires Layout(v, frames) && i < |v.nodes|
    ensures Layout(WithoutBig(v, i), frames + BigRun(v.bigs[i]))
  {
    UnbigSlots(v, i);
    UnbigComplete(v, i);
    UnbigBigs(v, frames, i);
  }

  // The head, or the next field of the node before, skips node i.
  function Unlinked(mem: Memory, nodes: seq<nat>, i: nat): Memory
    requires i < |nodes|
  {
    if i == 0 then mem else mem[nodes[i - 1] + 16 := Word(mem, nodes[i] + 16)]
  }

  function UnlinkedHead(mem: Memory, nodes: seq<nat>, bigHead: nat, i: nat): nat
    requires i < |nodes|
  {
    if i == 0 then Word(mem, nodes[0] + 16) else bigHead
  }

  lemma UnbigLinked(mem: Memory, heads: seq<nat>, bigHead: nat, v: View, frames: set<nat>, i: nat)
    requires Layout(v, frames) && Linked(mem, heads, bigHead, v) && i < |v.nodes|
    ensures Linked(Unlinked(mem, v.nodes, i), heads, UnlinkedHead(mem, v.nodes, bigHead, i), WithoutBig(v, i))
  {
    UnlinkQuiet(mem, heads, bigHead, v, frames, i);
    UnlinkNodes(mem, v, i);
    assert NodeAt(mem, v.nodes[0], v.bigs[0], Next(v.nodes, 0));
    hide Layout, Chain, HeadersOk, NodeChain, Unlinked;
    assert First(WithoutBig(v, i).nodes) == UnlinkedHead(mem, v.nodes, bigHead, i);
  }

  // Unlinking writes into a node, so headers and free lists stay.
  lemma UnlinkQuiet(mem: Memory, heads: seq<nat>, bigHead: nat, v: View, frames: set<nat>, i: nat)
    requires Layout(v, frames) && Linked(mem, heads, bigHead, v) && i < |v.nodes|
    ensures var m := Unlinked(mem, v.nodes, i);
            HeadersOk(m, v.pools) && forall t :: 0 <= t < TIERS ==> Chain(m, v.free[t])
  {
    hide Complete, Once, BigsOk, Owned, NodeChain, Chain;
    if i > 0 {
      var x := v.nodes[i - 1] + 16;
      InsideSlot(v.pools, v.nodes[i - 1], 0, x);
      forall t, j | 0 <= t < TIERS && 0 <= j < |v.free[t]| ensures v.free[t][j] != x {
        NodeNotFree(v, frames, i - 1, t, j);
        SlotsDisjoint(v.pools, v.nodes[i - 1], 0, v.free[t][j], t, x);
      }
      assert x in v.pools ==> PageOf(x) == x;
      UnlinkChains(mem, Unlinked(mem, v.nodes, i), v, x);
    }
  }

  lemma NodeNotFree(v: View, frames: set<nat>, i: nat, t: nat, j: nat)
    requires Layout(v, frames) && i < |v.nodes| && t < TIERS && j < |v.free[t]|
    ensures v.nodes[i] != v.free[t][j]
  {
    assert IsSlot(v.pools, v.nodes[i], 0) && IsSlot(v.pools, v.free[t][j], t);
  }

  lemma UnlinkChains(mem: Memory, m: Memory, v: View, x: nat)
    requires |v.free| == TIERS && x !in v.pools && (forall a :: a != x ==> Word(m, a) == Word(mem, a))
    requires forall t, j :: 0 <= t < TIERS && 0 <= j < |v.free[t]| ==> v.free[t][j] != x
    requires HeadersOk(mem, v.pools) && forall t :: 0 <= t < TIERS ==> Chain(mem, v.free[t])
    ensures HeadersOk(m, v.pools) && forall t :: 0 <= t < TIERS ==> Chain(m, v.free[t])
  {
  }

  lemma UnlinkNodes(mem: Memory, v: View, i: nat)
    requires SlotsOk(v) && Once(v) && |v.nodes| == |v.bigs| && i < |v.nodes| && NodeChain(mem, v.nodes, v.bigs)
    ensures var w := WithoutBig(v, i); NodeChain(Unlinked(mem, v.nodes, i), w.nodes, w.bigs)
  {
    var m := Unlinked(mem, v.nodes, i);
    var w := WithoutBig(v, i);
    forall j | 0 <= j < |w.nodes| ensures NodeAt(m, w.nodes[j], w.bigs[j], Next(w.nodes, j)) {
      var k := if j < i then j else j + 1;
      assert w.nodes[j] == v.nodes[k] && w.bigs[j] == v.bigs[k];
      UnlinkNext(v, i, j);
      UnlinkNode(mem, v, i, k);
    }
  }

  // Skipping node i changes the next field of node i - 1 only.
  lemma UnlinkNode(mem: Memory, v: View, i: nat, k: nat)
    requires SlotsOk(v) && NoDup(v.nodes) && |v.nodes| == |v.bigs| && i < |v.nodes| && NodeChain(mem, v.nodes, v.bigs)
    requires k < |v.nodes| && k != i
    ensures NodeAt(Unlinked(mem, v.nodes, i), v.nodes[k], v.bigs[k],
                   if k + 1 == i then Next(v.nodes, i) else Next(v.nodes, k))
  {
    assert NodeAt(mem, v.nodes[k], v.bigs[k], Next(v.nodes, k));
    assert NodeAt(mem, v.nodes[i], v.bigs[i], Next(v.nodes, i));
    if i > 0 {
      NodeWordsApart(v, k, i - 1);
      WriteOne(mem, v.nodes[i - 1] + 16, Word(mem, v.nodes[i] + 16), v.nodes[k], v.bigs[k], Next(v.nodes, k));
    }
  }

  // Writing one word of memory, as one node sees it.
  lemma WriteOne(mem: Memory, x: nat, w: nat, n: nat, b: Big, next: nat)
    requires NodeAt(mem, n, b, next) && x != n && x != n + 8
    ensures NodeAt(mem[x := w], n, b, if x == n + 16 then w else next)
  {
  }

  // Words of different nodes are different words.
  lemma NodeWordsApart(v: View, k: nat, l: nat)
    requires SlotsOk(v) && NoDup(v.nodes) && k < |v.nodes| && l < |v.nodes|
    ensures v.nodes[k] != v.nodes[l] + 16 && v.nodes[k] + 8 != v.nodes[l] + 16
    ensures k != l ==> v.nodes[k] + 16 != v.nodes[l] + 16
  {
    if k != l {
      assert v.nodes[k] != v.nodes[l];
      SlotsDisjoint(v.pools, v.nodes[l], 0, v.nodes[k], 0, v.nodes[l] + 16);
    }
  }

  lemma UnlinkNext(v: View, i: nat, j: nat)
    requires |v.nodes| == |v.bigs| && i < |v.nodes| && j < |v.nodes| - 1
    ensures var w := WithoutBig(v, i);
            Next(w.nodes, j) ==
            if j + 1 == i then Next(v.nodes, i) else if j < i then Next(v.nodes, j) else Next(v.nodes, j + 1)
  {
  }
}
