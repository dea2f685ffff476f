// Paths and the dentry cache (fs/vfs.c).
module Vfs {
  import opened Base
  import opened Ext2
  import opened Ext2File
  import opened Ext2Inode
  import opened Ext2Dir

  const SLASH: Byte := 47

  // ------------------------------------------------------------------- paths

  predicate IsName(s: seq<Byte>) { s != [] && SLASH !in s }

  predicate Names(cs: seq<seq<Byte>>) { forall i :: 0 <= i < |cs| ==> IsName(cs[i]) }

  // The length of what precedes the first slash.
  function TokenLen(p: seq<Byte>): (n: nat)
    ensures n <= |p| && SLASH !in p[..n] && (n < |p| ==> p[n] == SLASH)
    decreases |p|
  {
    if p == [] || p[0] == SLASH then 0
    else
      var n := TokenLen(p[1..]);
      assert p[..n + 1] == [p[0]] + p[1..][..n];
      n + 1
  }

  // The names between the slashes.
  function Components(p: seq<Byte>): (cs: seq<seq<Byte>>)
    ensures Names(cs)
    decreases |p|
  {
    if p == [] then []
    else if p[0] == SLASH then Components(p[1..])
    else [p[..TokenLen(p)]] + Components(p[TokenLen(p)..])
  }

  lemma {:induction false} TokenJoin(a: seq<Byte>, b: seq<Byte>)
    requires SLASH !in a && (b == [] || b[0] == SLASH)
    ensures TokenLen(a + b) == |a|
    decreases |a|
  {
    if a == [] {
      assert a + b == b;
    } else {
      TokenJoin(a[1..], b);
      assert (a + b)[1..] == a[1..] + b;
    }
  }

  lemma FirstName(t: seq<Byte>, rest: seq<Byte>)
    requires IsName(t) && (rest == [] || rest[0] == SLASH)
    ensures Components(t + rest) == [t] + Components(rest)
  {
    TokenJoin(t, rest);
    var p := t + rest;
    assert p[0] == t[0] && p[..|t|] == t && p[|t|..] == rest;
  }

  // A path is cut at any slash.
  lemma {:induction false} ComponentsJoin(a: seq<Byte>, b: seq<Byte>)
    requires b == [] || b[0] == SLASH
    ensures Components(a + b) == Components(a) + Components(b)
    decreases |a|
  {
    hide Components, TokenLen;
    LeadingSlash(a);
    if a == [] {
      assert a + b == b;
    } else if a[0] == SLASH {
      assert (a + b)[1..] == a[1..] + b;
      LeadingSlash(a + b);
      ComponentsJoin(a[1..], b);
    } else {
      ComponentsName(a);
      var n := TokenLen(a);
      var t, rest := a[..n], a[n..];
      FirstName(t, rest);
      ComponentsJoin(rest, b);
      FirstName(t, rest + b);
      assert a == t + rest && a + b == t + (rest + b);
    }
  }

  lemma LeadingSlash(p: seq<Byte>)
    ensures p == [] ==> Components(p) == []
    ensures p != [] && p[0] == SLASH ==> Components(p) == Components(p[1..])
  {
  }

  lemma ComponentsName(a: seq<Byte>)
    requires a != [] && a[0] != SLASH
    ensures IsName(a[..TokenLen(a)])
  {
  }

  // How many slashes there are at a place does not matter.
  lemma SlashesDoNotMatter(a: seq<Byte>, b: seq<Byte>)
    ensures Components(a + [SLASH, SLASH] + b) == Components(a + [SLASH] + b)
    ensures Components([SLASH] + a) == Components(a) == Components(a + [SLASH])
  {
    var one, two := [SLASH] + b, [SLASH, SLASH] + b;
    assert a + [SLASH] + b == a + one && a + [SLASH, SLASH] + b == a + two;
    ComponentsJoin(a, one);
    ComponentsJoin(a, two);
    assert two[1..] == one;
    ComponentsJoin(a, [SLASH]);
    assert ([SLASH] + a)[1..] == a;
    assert Components([SLASH]) == [] by { assert [SLASH][1..] == []; }
  }

  function Path(cs: seq<seq<Byte>>): seq<Byte>
    decreases |cs|
  {
    if cs == [] then [] else [SLASH] + cs[0] + Path(cs[1..])
  }

  lemma PathBegins(cs: seq<seq<Byte>>)
    requires cs != []
    ensures Path(cs) == [SLASH] + (cs[0] + Path(cs[1..]))
    ensures Path(cs[1..]) == [] || Path(cs[1..])[0] == SLASH
  {
  }

  // Every list of names is what some path means.
  lemma {:induction false} PathRoundTrip(cs: seq<seq<Byte>>)
    requires Names(cs)
    ensures Components(Path(cs)) == cs
    decreases |cs|
  {
    if cs != [] {
      PathRoundTrip(cs[1..]);
      var rest := Path(cs[1..]);
      hide Components, Path;
      PathBegins(cs);
      FirstName(cs[0], rest);
      LeadingSlash([SLASH] + (cs[0] + rest));
      assert ([SLASH] + (cs[0] + rest))[1..] == cs[0] + rest && [cs[0]] + cs[1..] == cs;
    } else {
      LeadingSlash(Path(cs));
    }
  }

  // ------------------------------------------------------------- resolution

  // Every directory that following the names leads through can be scanned.
  ghost predicate Passable(v: Volume, g: Geometry, n: Node, cs: seq<seq<Byte>>)
    requires Mounted(v, g)
    decreases |cs|
  {
    cs != [] && n.dir ==>
      && Scannable(v, n)
      && var r := Lookup(v, g, n, cs[0]);
         r.Ok? ==> Passable(v, g, r.value, cs[1..])
  }

  // What a list of names means from a node, read from the disk alone.
  function Resolve(v: Volume, g: Geometry, n: Node, cs: seq<seq<Byte>>): Result<Node>
    requires Mounted(v, g) && Passable(v, g, n, cs)
    decreases |cs|
  {
    if cs == [] then Ok(n)
    else if !n.dir then Err(ENOTDIR)
    else
      match Lookup(v, g, n, cs[0])
      case Err(e) => Err(e)
      case Ok(m) => Resolve(v, g, m, cs[1..])
  }

  // Names are followed one after the other: where the first ones lead, the others go on
  // from, and a name behind what is not a directory is -ENOTDIR.
  lemma {:induction false} ResolveJoin(v: Volume, g: Geometry, n: Node, a: seq<seq<Byte>>, b: seq<seq<Byte>>)
    requires Mounted(v, g) && Passable(v, g, n, a + b)
    ensures Passable(v, g, n, a)
    ensures var r := Resolve(v, g, n, a);
            && (r.Err? ==> Resolve(v, g, n, a + b) == r)
            && (r.Ok? ==> Passable(v, g, r.value, b) && Resolve(v, g, n, a + b) == Resolve(v, g, r.value, b))
            && (r.Ok? && !r.value.dir && b != [] ==> Resolve(v, g, n, a + b) == Err(ENOTDIR))
    decreases |a|
  {
    hide Lookup, Scannable, Mounted;
    if a == [] {
      assert a + b == b;
    } else {
      assert (a + b)[0] == a[0] && (a + b)[1..] == a[1..] + b;
      if n.dir {
        var r := Lookup(v, g, n, a[0]);
        if r.Ok? { ResolveJoin(v, g, r.value, a[1..], b); }
      }
    }
  }

  // Every directory that they are meant to lead through can be listed.
  ghost predicate Legible(v: Volume, g: Geometry, n: Node, cs: seq<seq<Byte>>)
    requires Mounted(v, g)
    decreases |cs|
  {
    cs != [] && n.dir ==>
      && Listable(v, n)
      && var r := Meant(v, g, n, cs[0]);
         r.Ok? ==> Legible(v, g, r.value, cs[1..])
  }

  // What a list of names is meant to be: every name looked up in full.
  function Intended(v: Volume, g: Geometry, n: Node, cs: seq<seq<Byte>>): Result<Node>
    requires Mounted(v, g) && Legible(v, g, n, cs)
    decreases |cs|
  {
    if cs == [] then Ok(n)
    else if !n.dir then Err(ENOTDIR)
    else
      match Meant(v, g, n, cs[0])
      case Err(e) => Err(e)
      case Ok(m) => Intended(v, g, m, cs[1..])
  }

  // The names have at most 255 bytes and lead through regular directories.
  ghost predicate RegularPath(v: Volume, g: Geometry, n: Node, cs: seq<seq<Byte>>)
    requires Mounted(v, g)
    decreases |cs|
  {
    cs != [] && n.dir ==>
      && Scannable(v, n) && Listable(v, n) && Regular(v, n.inode) && |cs[0]| < 256
      && var r := Meant(v, g, n, cs[0]);
         r.Ok? ==> RegularPath(v, g, r.value, cs[1..])
  }

  lemma LookupAsMeant(v: Volume, g: Geometry, n: Node, name: seq<Byte>)
    requires Mounted(v, g) && Scannable(v, n) && Listable(v, n) && Regular(v, n.inode) && |name| < 256
    ensures Lookup(v, g, n, name) == Meant(v, g, n, name)
  {
    hide Search, Listed, Scanned, ScanOk, ListOk, NodeAt, Regular, Opened;
    RegularAgrees(v, n.inode);
    assert Short(name) == name;
  }

  // Such names are resolved as intended.
  lemma {:induction false} ResolvesAsIntended(v: Volume, g: Geometry, n: Node, cs: seq<seq<Byte>>)
    requires Mounted(v, g) && RegularPath(v, g, n, cs)
    ensures Passable(v, g, n, cs) && Legible(v, g, n, cs) && Resolve(v, g, n, cs) == Intended(v, g, n, cs)
    decreases |cs|
  {
    hide Scannable, Listable, Meant, Lookup, Regular, Mounted;
    if cs != [] && n.dir {
      LookupAsMeant(v, g, n, cs[0]);
      var r := Meant(v, g, n, cs[0]);
      if r.Ok? { ResolvesAsIntended(v, g, r.value, cs[1..]); }
    }
  }

  // vfs_hash_name: 32-bit arithmetic on signed characters.
  function HashName(s: seq<Byte>): (h: nat)
    ensures h < U32
    decreases |s|
  {
    if s == [] then 5381
    else
      var c := s[|s| - 1] as int;
      (33 * HashName(s[..|s| - 1]) + if c < 128 then c else c + U32 - 256) % U32
  }

  // The value at 33 of the polynomial whose coefficients are the characters of a name.
  function Signed(b: Byte): int { if b < 128 then b as int else b as int - 256 }

  function Pow33(n: nat): nat { if n == 0 then 1 else 33 * Pow33(n - 1) }

  function Weighted(s: seq<Byte>): int
    decreases |s|
  {
    if s == [] then 0 else Signed(s[0]) * Pow33(|s| - 1) + Weighted(s[1..])
  }

  // The hash is that value, with 5381 as the leading coefficient, cut to 32 bits.
  lemma {:induction false} HashIs(s: seq<Byte>)
    ensures HashName(s) == (5381 * Pow33(|s|) + Weighted(s)) % U32
    decreases |s|
  {
    if s != [] {
      var n := |s| - 1;
      HashIs(s[..n]);
      WeightedLast(s);
      var x, c := 5381 * Pow33(n) + Weighted(s[..n]), s[n] as int;
      CutStep(x, Signed(s[n]), if c < 128 then c else c + U32 - 256);
      assert 33 * x + Signed(s[n]) == 5381 * Pow33(n + 1) + Weighted(s);
    }
  }

  lemma {:induction false} WeightedLast(s: seq<Byte>)
    requires s != []
    ensures Weighted(s) == 33 * Weighted(s[..|s| - 1]) + Signed(s[|s| - 1])
    decreases |s|
  {
    hide Signed;
    var n := |s| - 1;
    if n == 0 {
      assert s[..0] == [] && s[1..] == [] && Pow33(0) == 1;
    } else {
      WeightedLast(s[1..]);
      assert s[1..][..n - 1] == s[..n][1..];
      assert Signed(s[0]) * Pow33(n) == 33 * (Signed(s[0]) * Pow33(n - 1));
    }
  }

  lemma CutStep(x: int, c: int, wide: int)
    requires wide == c || wide == c + U32
    ensures (33 * (x % U32) + wide) % U32 == (33 * x + c) % U32
  {
    var q, r := x / U32, x % U32;
    CutMultiple(33 * r + c, 33 * q);
    CutMultiple(33 * r + c, 1);
  }

  lemma CutMultiple(y: int, k: int)
    ensures (y + U32 * k) % U32 == y % U32
  {
  }

  // ---------------------------------------------------------------- the cache

  class Dentry {
    const name: seq<Byte>
    const hash: nat
    const parent: Dentry?
    var inode: Option<Vnode>
    var firstChild: Dentry?
    var nextSibling: Dentry?

    // d_alloc
    constructor (parent: Dentry?, name: seq<Byte>, hash: nat)
      ensures this.parent == parent && this.name == name && this.hash == hash
      ensures inode == None && firstChild == null && nextSibling == null
    {
      this.parent, this.name, this.hash := parent, name, hash;
      inode, firstChild, nextSibling := None, null, null;
    }
  }

  // Element i of a chain that ends in null.
  function At(s: seq<Dentry>, i: nat): Dentry? { if i < |s| then s[i] else null }

  function Behind(s: seq<Dentry>, i: nat): Dentry? { At(s, i + 1) }

  // The child list of d is s.
  ghost predicate Chain(d: Dentry, s: seq<Dentry>)
    reads d`firstChild, s`nextSibling
  {
    d.firstChild == At(s, 0) && forall i {:trigger Behind(s, i)} :: 0 <= i < |s| ==> s[i].nextSibling == Behind(s, i)
  }

  predicate DistinctNames(s: seq<Dentry>) { forall i, j :: 0 <= i < j < |s| ==> s[i].name != s[j].name }

  // An inode of the volume.
  ghost predicate Good(v: Volume, n: Vnode)
    reads n.info
  {
    v.Valid() && n.info.v == v && n.info.Valid()
  }

  // n is what a name means in the directory d.
  ghost predicate Means(v: Volume, g: Geometry, d: Vnode, name: seq<Byte>, n: Vnode) {
    Mounted(v, g) && Scannable(v, d.Value()) && d.dir && Lookup(v, g, d.Value(), name) == Ok(n.Value())
  }

  // c is a cached child of d.
  ghost predicate Child(v: Volume, g: Geometry, d: Dentry, c: Dentry)
    reads d`inode, c`inode
  {
    && c.parent == d && c.hash == HashName(c.name)
    && d.inode.Some? && c.inode.Some? && Means(v, g, d.inode.value, c.name, c.inode.value)
  }

  // The cached children of d: a duplicate-free list of what their names mean.
  ghost predicate Family(v: Volume, g: Geometry, d: Dentry, s: seq<Dentry>)
    reads d`firstChild, s`nextSibling, d`inode, s`inode
  {
    (forall c <- s :: Child(v, g, d, c)) && Chain(d, s) && DistinctNames(s)
  }

  // Children stay where they are.
  ghost predicate Kept(k: map<Dentry, seq<Dentry>>, m: map<Dentry, seq<Dentry>>) {
    k.Keys <= m.Keys && forall d <- k, c <- k[d] :: c in m[d]
  }

  lemma KeptSelf(k: map<Dentry, seq<Dentry>>)
    ensures Kept(k, k)
  {
  }

  lemma KeptTrans(k: map<Dentry, seq<Dentry>>, m: map<Dentry, seq<Dentry>>, n: map<Dentry, seq<Dentry>>)
    requires Kept(k, m) && Kept(m, n)
    ensures Kept(k, n)
  {
  }

  lemma KeptEnter(k: map<Dentry, seq<Dentry>>, p: Dentry, c: Dentry)
    requires p in k && c !in k
    ensures Kept(k, k[p := [c] + k[p]][c := []])
  {
  }

  // Following the names cs through the children leads from d to r.
  ghost predicate Reached(k: map<Dentry, seq<Dentry>>, d: Dentry, cs: seq<seq<Byte>>, r: Dentry)
    decreases |cs|
  {
    if cs == [] then r == d
    else exists p: Dentry :: p in k && r in k[p] && r.name == cs[|cs| - 1] && Reached(k, d, cs[..|cs| - 1], p)
  }

  lemma {:induction false} ReachedKept(k: map<Dentry, seq<Dentry>>, m: map<Dentry, seq<Dentry>>, d: Dentry,
                                       cs: seq<seq<Byte>>, r: Dentry)
    requires Kept(k, m) && Reached(k, d, cs, r)
    ensures Reached(m, d, cs, r)
    decreases |cs|
  {
    if cs != [] {
      var p :| p in k && r in k[p] && r.name == cs[|cs| - 1] && Reached(k, d, cs[..|cs| - 1], p);
      ReachedKept(k, m, d, cs[..|cs| - 1], p);
    }
  }

  lemma ReachedStep(k: map<Dentry, seq<Dentry>>, d: Dentry, cs: seq<seq<Byte>>, p: Dentry, r: Dentry)
    requires Reached(k, d, cs, p) && p in k && r in k[p]
    ensures Reached(k, d, cs + [r.name], r)
  {
    var t := cs + [r.name];
    assert t[..|t| - 1] == cs;
  }

  // A cache holds at most one dentry for a list of names.
  lemma {:induction false} ReachedUnique(c: Cache, d: Dentry, cs: seq<seq<Byte>>, q: Dentry, r: Dentry)
    requires c.Inv() && Reached(c.kids, d, cs, q) && Reached(c.kids, d, cs, r)
    ensures q == r
    decreases |cs|
  {
    hide Good, Chain, Child;
    if cs != [] {
      var x :| x in c.kids && q in c.kids[x] && q.name == cs[|cs| - 1] && Reached(c.kids, d, cs[..|cs| - 1], x);
      var y :| y in c.kids && r in c.kids[y] && r.name == cs[|cs| - 1] && Reached(c.kids, d, cs[..|cs| - 1], y);
      ReachedUnique(c, d, cs[..|cs| - 1], x, y);
      assert Family(c.v, c.g, x, c.kids[x]);
      SameName(c.kids[x], q, r);
    }
  }

  lemma SameName(s: seq<Dentry>, q: Dentry, r: Dentry)
    requires DistinctNames(s) && q in s && r in s && q.name == r.name
    ensures q == r
  {
    var i :| 0 <= i < |s| && s[i] == q;
    var j :| 0 <= j < |s| && s[j] == r;
  }

  // The walk along the child list.
  method FindChild(parent: Dentry, name: seq<Byte>, hash: nat, ghost s: seq<Dentry>) returns (r: Dentry?)
    requires Chain(parent, s) && hash == HashName(name)
    requires forall c <- s :: c.hash == HashName(c.name)
    ensures r != null ==> r in s && r.name == name
    ensures r == null ==> forall c <- s :: c.name != name
  {
    hide HashName;
    var cur := parent.firstChild;
    ghost var i := 0;
    while cur != null
      invariant i <= |s| && cur == At(s, i)
      invariant forall j :: 0 <= j < i ==> s[j].name != name
      decreases |s| - i
    {
      assert s[i] in s && cur.nextSibling == Behind(s, i);
      if cur.hash == hash && |cur.name| == |name| && cur.name == name {
        return cur;
      }
      i := i + 1;
      cur := cur.nextSibling;
    }
    return null;
  }

  // d_add: the child becomes the first of its parent.
  method DAdd(child: Dentry, inode: Vnode, ghost s: seq<Dentry>)
    requires child.parent != null && child != child.parent && child !in s && Chain(child.parent, s)
    modifies child`inode, child`nextSibling, child.parent`firstChild
    ensures child.inode == Some(inode) && Chain(child.parent, [child] + s)
  {
    child.inode := Some(inode);
    if child.parent != null {
      child.nextSibling := child.parent.firstChild;
      child.parent.firstChild := child;
    }
    ghost var t := [child] + s;
    forall i | 0 <= i < |t| ensures t[i].nextSibling == Behind(t, i) {
      if i > 0 { assert t[i] == s[i - 1] && Behind(t, i) == Behind(s, i - 1); }
    }
  }

  lemma AddName(c: Dentry, s: seq<Dentry>)
    requires DistinctNames(s) && forall d <- s :: d.name != c.name
    ensures DistinctNames([c] + s)
  {
    var t := [c] + s;
    assert forall i :: 0 < i < |t| ==> t[i] == s[i - 1] && s[i - 1] in s;
  }

  // A child that is new to its parent joins the family.
  method Attach(v: Volume, g: Geometry, child: Dentry, inode: Vnode, ghost s: seq<Dentry>)
    requires child.parent != null && child != child.parent && child !in s && Family(v, g, child.parent, s)
    requires child.firstChild == null && child.hash == HashName(child.name) && forall c <- s :: c.name != child.name
    requires child.parent.inode.Some? && Means(v, g, child.parent.inode.value, child.name, inode)
    modifies child`inode, child`nextSibling, child.parent`firstChild
    ensures child.inode == Some(inode) && Family(v, g, child.parent, [child] + s) && Family(v, g, child, [])
  {
    hide Chain, Means, HashName, DistinctNames;
    DAdd(child, inode, s);
    AddName(child, s);
    NoChildren(child);
  }

  class Cache {
    const v: Volume
    const g: Geometry
    const root: Dentry
    ghost var all: set<Dentry>
    ghost var infos: set<InodeInfo>
    ghost var kids: map<Dentry, seq<Dentry>>

    ghost predicate Inv()
      reads this, all, infos
    {
      && Mounted(v, g) && root in all && kids.Keys == all
      && (forall d <- all :: d.inode.Some? && d.inode.value.info in infos && Good(v, d.inode.value))
      && (forall d <- all, c <- kids[d] :: c in all)
      && (forall d <- all :: Family(v, g, d, kids[d]))
    }

    // ext2_get_root: the root of a freshly mounted volume.
    constructor (v: Volume, g: Geometry, inode: Vnode)
      requires Mounted(v, g) && Good(v, inode)
      ensures Inv() && this.v == v && this.g == g && root.inode == Some(inode) && all == {root} && fresh(root)
      ensures infos == {inode.info}
    {
      var d := new Dentry(null, [SLASH], HashName([SLASH]));
      d.inode := Some(inode);
      this.v, this.g, root := v, g, d;
      all, infos, kids := {d}, {inode.info}, map[d := []];
    }

    // Entering a child that is new to the cache.
    method Enter(child: Dentry, inode: Vnode)
      requires Inv() && child !in all && child.parent != null && child.parent in all
      requires child.firstChild == null && child.hash == HashName(child.name)
      requires Good(v, inode) && Means(v, g, child.parent.inode.value, child.name, inode)
      requires forall c <- kids[child.parent] :: c.name != child.name
      modifies this, child, child.parent`firstChild
      ensures Inv() && all == old(all) + {child} && infos == old(infos) + {inode.info}
      ensures kids == old(kids)[child.parent := [child] + old(kids[child.parent])][child := []]
      ensures child.inode == Some(inode)
    {
      hide Mounted, Good, Means, HashName, Family;
      ghost var p := child.parent;
      ghost var s := kids[p];
      Attach(v, g, child, inode, s);
      all, infos, kids := all + {child}, infos + {inode.info}, kids[p := [child] + s][child := []];
    }

    // Searching a cached directory on the disk may fill in its indirect block.
    method Scan(dir: Vnode, name: seq<Byte>, memory: bool) returns (r: Result<Option<nat>>)
      requires Inv() && dir.info in infos && Good(v, dir) && dir.dir && Scannable(v, dir.Value())
      modifies dir.info
      ensures Inv() && Good(v, dir)
      ensures r == Search(Scanned(v, dir.info.inode, 0), Short(name)) || (!memory && r == Err(OutOfMemory))
      ensures r.Ok? && r.value.Some? ==> r.value.value != 0
    {
      hide Family, Scanned, Search, ScanOk;
      r := FindEntry(dir.info, name, memory);
    }

    // The disk side of ext2_lookup: search, then read the inode.
    method DiskLookup(dir: Vnode, name: seq<Byte>, memory: bool) returns (r: Result<Vnode>)
      requires Inv() && dir.info in infos && Good(v, dir) && dir.dir && Scannable(v, dir.Value())
      modifies dir.info
      ensures Inv()
      ensures r.Ok? ==> Means(v, g, dir, name, r.value) && Good(v, r.value) && fresh(r.value.info)
      ensures r.Err? && r.error != OutOfMemory ==> Fails(v, g, dir, name, r.error)
      ensures memory ==> r != Err(OutOfMemory)
    {
      hide Inv, NodeAt, Search, Scanned, ScanOk;
      InvRoot(this);
      var f := Scan(dir, name, memory);
      if f.Err? {
        return Err(f.error);
      }
      if f.value == None {
        return Err(ENOENT);
      }
      r := ReadInode(v, g, f.value.value, memory);
    }

    // ext2_lookup
    method LookupOnDisk(child: Dentry, memory: bool) returns (e: Option<Error>)
      requires Inv() && child !in all && child.parent != null && child.parent in all
      requires child.firstChild == null && child.hash == HashName(child.name)
      requires child.parent.inode.value.dir && Scannable(v, child.parent.inode.value.Value())
      requires forall c <- kids[child.parent] :: c.name != child.name
      modifies this, child, child.parent`firstChild, infos
      ensures Inv() && infos >= old(infos) && fresh(infos - old(infos))
      ensures e == None ==>
                && all == old(all) + {child}
                && kids == old(kids)[child.parent := [child] + old(kids[child.parent])][child := []]
                && child in kids[child.parent]
      ensures e.Some? ==> all == old(all) && kids == old(kids)
      ensures memory ==> e != Some(OutOfMemory)
      ensures e.Some? && e.value != OutOfMemory ==> Fails(v, g, child.parent.inode.value, child.name, e.value)
    {
      hide Good, Means, Fails, HashName, Family, Scannable;
      var n := DiskLookup(child.parent.inode.value, child.name, memory);
      if n.Err? {
        return Some(n.error);
      }
      Enter(child, n.value);
      return None;
    }

    // vfs_lookup_direct
    method LookupDirect(parent: Dentry, name: seq<Byte>, hash: nat, memory: bool) returns (r: Result<Dentry>)
      requires Inv() && parent in all && parent.inode.value.dir && hash == HashName(name)
      requires Scannable(v, parent.inode.value.Value())
      modifies this, parent`firstChild, infos
      ensures Inv() && infos >= old(infos) && fresh(infos - old(infos))
      ensures all >= old(all) && fresh(all - old(all)) && Kept(old(kids), kids)
      ensures r.Ok? ==> r.value in all && r.value in kids[parent] && r.value.name == name
      ensures r.Err? ==> all == old(all) && kids == old(kids)
      ensures memory ==> r != Err(OutOfMemory)
      ensures r.Err? && r.error != OutOfMemory ==> Fails(v, g, parent.inode.value, name, r.error)
    {
      hide Inv, Good, Fails, HashName, Means, Chain, DistinctNames, Kept, Scannable;
      InvAt(this, parent);
      KeptSelf(kids);
      var cur := FindChild(parent, name, hash, kids[parent]);
      if cur != null {
        return Ok(cur);
      }
      if !memory {
        if * {
          return Err(OutOfMemory);    // d_alloc
        }
      }
      var child := new Dentry(parent, name, hash);
      var e := LookupOnDisk(child, memory);
      if e.Some? {
        return Err(e.value);
      }
      InvAt(this, parent);
      KeptEnter(old(kids), parent, child);
      return Ok(child);
    }

    // What the path means, by the disk alone.
    ghost function Meaning(path: seq<Byte>): Result<Node>
      requires Inv() && Passable(v, g, root.inode.value.Value(), Components(path))
      reads this, all, infos
    {
      Resolve(v, g, root.inode.value.Value(), Components(path))
    }

    // One name further.
    lemma Step(cur: Dentry, child: Dentry, token: seq<Byte>, rest: seq<seq<Byte>>, before: map<Dentry, seq<Dentry>>,
               done: seq<seq<Byte>>)
      requires Inv() && cur in all && child in kids[cur] && child.name == token
      requires Kept(before, kids) && Reached(before, root, done, cur)
      requires cur.inode.Some? && Passable(v, g, cur.inode.value.Value(), [token] + rest)
      ensures child in all && child.inode.Some? && Passable(v, g, child.inode.value.Value(), rest)
      ensures Resolve(v, g, cur.inode.value.Value(), [token] + rest) == Resolve(v, g, child.inode.value.Value(), rest)
      ensures Reached(kids, root, done + [token], child)
    {
      hide Inv, Mounted, Means, Chain, DistinctNames, Resolve, Passable, Reached, Kept;
      InvRoot(this);
      InvAt(this, cur);
      InvAt(this, child);
      ResolveStep(v, g, cur.inode.value, child.inode.value, [token] + rest);
      assert ([token] + rest)[1..] == rest;
      ReachedKept(before, kids, root, done, cur);
      ReachedStep(kids, root, done, cur, child);
    }

    // The lookup stands at cur, with the names done behind it and the path from pos ahead.
    ghost predicate On(path: seq<Byte>, pos: nat, cur: Dentry, done: seq<seq<Byte>>, meaning: Result<Node>)
      reads this, all, infos
    {
      && Inv() && cur in all && pos <= |path| && cur.inode.Some?
      && Passable(v, g, cur.inode.value.Value(), Components(path[pos..]))
      && meaning == Resolve(v, g, cur.inode.value.Value(), Components(path[pos..]))
      && Components(path) == done + Components(path[pos..]) && Reached(kids, root, done, cur)
    }

    // One round of vfs_lookup, for the name [pos, delim).
    method NextName(path: seq<Byte>, pos: nat, delim: nat, cur: Dentry, memory: bool,
                    ghost done: seq<seq<Byte>>, ghost meaning: Result<Node>) returns (r: Result<Dentry>)
      requires On(path, pos, cur, done, meaning) && pos <= delim <= |path|
      requires Components(path[pos..]) == [path[pos..delim]] + Components(path[delim..])
      modifies this, cur`firstChild, infos
      ensures Inv() && infos >= old(infos) && fresh(infos - old(infos))
      ensures all >= old(all) && fresh(all - old(all)) && Kept(old(kids), kids)
      ensures r.Ok? ==> On(path, delim, r.value, done + [path[pos..delim]], meaning)
      ensures r.Err? ==> meaning == Err(r.error) || (!memory && r.error == OutOfMemory)
    {
      hide Inv, Mounted, Good, Means, Fails, HashName, Resolve, Components, Reached, Kept, Lookup, Scannable;
      InvRoot(this);
      if !cur.inode.value.dir {
        ResolveNotDir(v, g, cur.inode.value, Components(path[pos..]));
        KeptSelf(kids);
        return Err(ENOTDIR);
      }
      var token := path[pos..delim];
      var hash := Hash(token);
      ghost var before := kids;
      r := LookupDirect(cur, token, hash, memory);
      if r.Ok? {
        Step(cur, r.value, token, Components(path[delim..]), before, done);
      } else if r.error != OutOfMemory {
        ResolveFails(v, g, cur.inode.value, Components(path[pos..]), r.error);
      }
    }

    // vfs_lookup; with memory every allocation succeeds.
    method VfsLookup(path: seq<Byte>, memory: bool) returns (r: Result<Dentry>)
      requires Inv() && 0 !in path && Passable(v, g, root.inode.value.Value(), Components(path))
      modifies this, all, infos
      ensures Inv() && root.inode == old(root.inode)
      ensures all >= old(all) && fresh(all - old(all)) && Kept(old(kids), kids)
      ensures infos >= old(infos) && fresh(infos - old(infos))
      ensures r.Ok? ==> r.value in all && Meaning(path) == Ok(r.value.inode.value.Value())
      ensures r.Ok? ==> Reached(kids, root, Components(path), r.value)
      ensures r.Err? ==> Meaning(path) == Err(r.error) || (!memory && r.error == OutOfMemory)
    {
      hide On, Inv, Mounted, Passable, Resolve, Components, Reached, Kept;
      InvRoot(this);
      ghost var done: seq<seq<Byte>>, meaning := [], Meaning(path);
      var cur := root;
      var pos := SkipSlashes(path, 0);
      AtStart(path, pos);
      KeptSelf(kids);
      while pos < |path|
        invariant pos <= |path| && (pos < |path| ==> path[pos] != SLASH)
        invariant Inv() && cur in all && On(path, pos, cur, done, meaning) && root.inode == old(root.inode)
        invariant all >= old(all) && fresh(all - old(all)) && Kept(old(kids), kids)
        invariant infos >= old(infos) && fresh(infos - old(infos))
        decreases |path| - pos
      {
        var delim := Delimiter(path, pos);
        ghost var before := kids;
        var child := NextName(path, pos, delim, cur, memory, done, meaning);
        KeptTrans(old(kids), before, kids);
        if child.Err? {
          return Err(child.error);
        }
        done := done + [path[pos..delim]];
        cur := child.value;
        pos := SkipSlashes(path, delim);
        Skipped(path, delim, pos, cur, done, meaning);
      }
      AtEnd(path, cur, done, meaning);
      return Ok(cur);
    }

    lemma AtStart(path: seq<Byte>, pos: nat)
      requires Inv() && pos <= |path| && Components(path[pos..]) == Components(path[0..])
      requires Passable(v, g, root.inode.value.Value(), Components(path))
      ensures On(path, pos, root, [], Meaning(path))
    {
      hide Inv, Passable, Resolve, Components;
      InvRoot(this);
      InvAt(this, root);
      assert path[0..] == path;
    }

    lemma Skipped(path: seq<Byte>, at: nat, pos: nat, cur: Dentry, done: seq<seq<Byte>>, meaning: Result<Node>)
      requires On(path, at, cur, done, meaning) && pos <= |path| && Components(path[pos..]) == Components(path[at..])
      ensures Inv() && cur in all && On(path, pos, cur, done, meaning)
    {
      hide Inv, Passable, Resolve, Components, Reached;
    }

    lemma AtEnd(path: seq<Byte>, cur: Dentry, done: seq<seq<Byte>>, meaning: Result<Node>)
      requires On(path, |path|, cur, done, meaning)
      ensures cur.inode.Some? && meaning == Ok(cur.inode.value.Value()) && Reached(kids, root, Components(path), cur)
    {
      hide Inv;
      InvRoot(this);
      assert Components(path) == done;
    }
  }

  lemma InvAt(c: Cache, d: Dentry)
    requires c.Inv() && d in c.all
    ensures c.kids.Keys == c.all && (forall k <- c.kids[d] :: k in c.all && Child(c.v, c.g, d, k))
    ensures Chain(d, c.kids[d]) && DistinctNames(c.kids[d])
    ensures d.inode.Some? && d.inode.value.info in c.infos && Good(c.v, d.inode.value)
  {
    hide Good, Child, Chain, DistinctNames;
    assert Family(c.v, c.g, d, c.kids[d]);
  }

  lemma InvRoot(c: Cache)
    requires c.Inv()
    ensures Mounted(c.v, c.g) && c.root in c.all && c.root.inode.Some?
  {
  }

  // The name has no meaning in the directory d, for this reason.
  ghost predicate Fails(v: Volume, g: Geometry, d: Vnode, name: seq<Byte>, e: Error) {
    Mounted(v, g) && Scannable(v, d.Value()) && d.dir && Lookup(v, g, d.Value(), name) == Err(e)
  }

  // Resolving one more name.
  lemma ResolveStep(v: Volume, g: Geometry, d: Vnode, n: Vnode, cs: seq<seq<Byte>>)
    requires cs != [] && Means(v, g, d, cs[0], n) && Passable(v, g, d.Value(), cs)
    ensures Passable(v, g, n.Value(), cs[1..]) && Resolve(v, g, d.Value(), cs) == Resolve(v, g, n.Value(), cs[1..])
  {
    hide Scannable, Mounted, Lookup;
  }

  lemma ResolveNotDir(v: Volume, g: Geometry, d: Vnode, cs: seq<seq<Byte>>)
    requires cs != [] && Mounted(v, g) && !d.dir
    ensures Passable(v, g, d.Value(), cs) && Resolve(v, g, d.Value(), cs) == Err(ENOTDIR)
  {
    hide Scannable, Mounted;
  }

  lemma ResolveFails(v: Volume, g: Geometry, d: Vnode, cs: seq<seq<Byte>>, e: Error)
    requires cs != [] && Fails(v, g, d, cs[0], e) && Passable(v, g, d.Value(), cs)
    ensures Resolve(v, g, d.Value(), cs) == Err(e)
  {
    hide Scannable, Mounted, Lookup;
  }

  // ------------------------------------------------------------ parsing a path

  // vfs_hash_name
  method Hash(s: seq<Byte>) returns (hash: nat)
    ensures hash == HashName(s)
  {
    hash := 5381;
    for i := 0 to |s|
      invariant hash == HashName(s[..i]) < U32
    {
      var c := s[i] as int;
      var wide := if c < 128 then c else c + U32 - 256;
      assert s[..i + 1][..i] == s[..i] && s[..i + 1][i] == s[i];
      Wraps(hash, wide);
      hash := ((hash * 32) % U32 + hash + wide) % U32;
    }
    assert s[..|s|] == s;
  }

  lemma Wraps(hash: nat, c: nat)
    ensures ((hash * 32) % 0x1_0000_0000 + hash + c) % 0x1_0000_0000 == (33 * hash + c) % 0x1_0000_0000
  {
  }

  method SkipSlashes(path: seq<Byte>, at: nat) returns (pos: nat)
    requires at <= |path|
    ensures at <= pos <= |path| && (pos < |path| ==> path[pos] != SLASH)
    ensures Components(path[pos..]) == Components(path[at..])
  {
    pos := at;
    while pos < |path| && path[pos] == SLASH
      invariant at <= pos <= |path| && Components(path[pos..]) == Components(path[at..])
    {
      assert path[pos..][1..] == path[pos + 1..];
      pos := pos + 1;
    }
  }

  method Delimiter(path: seq<Byte>, at: nat) returns (delim: nat)
    requires at < |path| && path[at] != SLASH
    ensures at < delim <= |path|
    ensures Components(path[at..]) == [path[at..delim]] + Components(path[delim..])
  {
    delim := at;
    while delim < |path| && path[delim] != SLASH
      invariant at <= delim <= |path| && SLASH !in path[at..delim] && (delim == at ==> path[at] != SLASH)
    {
      delim := delim + 1;
    }
    var t, rest := path[at..delim], path[delim..];
    assert path[at..] == t + rest;
    FirstName(t, rest);
  }

  lemma NoChildren(d: Dentry)
    requires d.firstChild == null
    ensures Chain(d, []) && DistinctNames([])
  {
  }
}
