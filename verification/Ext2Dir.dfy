// Directories: their records, and finding a name in them (fs/ext2/dir.c).
module Ext2Dir {
  import opened Base
  import opened Ext2
  import opened Ext2File
  import opened Ext2Inode

  datatype Error = ENOENT | EUCLEAN | EINVAL | ENOTDIR | OutOfMemory | UnsupportedType

  datatype Result<+T> = Ok(value: T) | Err(error: Error)

  datatype Record = Record(ino: nat, name: seq<Byte>)

  // The live records of a directory; clean unless a record of size 0 stops the walk.
  datatype Listing = Listing(entries: seq<Record>, clean: bool)

  function Le16(b: seq<Byte>, o: nat): nat
    requires o + 2 <= |b|
  {
    b[o] as nat + 0x100 * b[o + 1] as nat
  }

  // ------------------------------------------------------- records of a block

  function EntryIno(b: seq<Byte>, at: nat): nat
    requires at + 8 <= |b|
  {
    Le32(b, at)
  }

  function EntrySize(b: seq<Byte>, at: nat): nat
    requires at + 8 <= |b|
  {
    Le16(b, at + 4)
  }

  function EntryLen(b: seq<Byte>, at: nat): nat
    requires at + 8 <= |b|
  {
    b[at + 6] as nat
  }

  // The records reached from a position lie in the block.
  predicate Contained(b: seq<Byte>, at: nat)
    decreases |b| - at
  {
    at < |b| ==>
      && at + 8 <= |b|
      && (EntrySize(b, at) != 0 ==>
            && (EntryIno(b, at) != 0 ==> at + 8 + EntryLen(b, at) <= |b|)
            && Contained(b, at + EntrySize(b, at)))
  }

  function Records(b: seq<Byte>, at: nat): (l: Listing)
    requires Contained(b, at)
    ensures forall e <- l.entries :: e.ino != 0 && |e.name| < 256
    decreases |b| - at
  {
    if at >= |b| then Listing([], true)
    else if EntrySize(b, at) == 0 then Listing([], false)
    else
      var rest := Records(b, at + EntrySize(b, at));
      if EntryIno(b, at) == 0 then rest
      else
        var name := b[at + 8..at + 8 + EntryLen(b, at)];
        Listing([Record(EntryIno(b, at), name)] + rest.entries, rest.clean)
  }

  // The inode number of the first record of that name.
  function Find(es: seq<Record>, name: seq<Byte>): (r: Option<nat>)
    ensures r.Some? <==> exists k :: 0 <= k < |es| && es[k].name == name
    ensures r.Some? ==> exists k ::
              0 <= k < |es| && es[k] == Record(r.value, name) && forall j :: 0 <= j < k ==> es[j].name != name
    decreases |es|
  {
    if es == [] then None
    else if es[0].name == name then
      assert es[0] == Record(es[0].ino, name);
      Some(es[0].ino)
    else
      var t := es[1..];
      var r := Find(t, name);
      assert forall k :: 0 < k < |es| ==> es[k] == t[k - 1];
      assert r.Some? ==> exists k ::
          0 <= k < |es| && es[k] == Record(r.value, name) && forall j :: 0 <= j < k ==> es[j].name != name by {
        if r.Some? {
          var k :| 0 <= k < |t| && t[k] == Record(r.value, name) && forall j :: 0 <= j < k ==> t[j].name != name;
          assert es[k + 1] == Record(r.value, name);
        }
      }
      r
  }

  // What a search of a listing delivers.
  function Search(l: Listing, name: seq<Byte>): (r: Result<Option<nat>>)
    ensures r.Err? ==> r.error == EUCLEAN
  {
    var f := Find(l.entries, name);
    if f == None && !l.clean then Err(EUCLEAN) else Ok(f)
  }

  // A block and then the rest of the directory.
  function Join(l: Listing, m: Listing): Listing {
    if l.clean then Listing(l.entries + m.entries, m.clean) else l
  }

  lemma {:induction false} FindJoin(s: seq<Record>, t: seq<Record>, name: seq<Byte>)
    ensures Find(s + t, name) == if Find(s, name).Some? then Find(s, name) else Find(t, name)
    decreases |s|
  {
    if s == [] {
      assert s + t == t;
    } else {
      FindJoin(s[1..], t, name);
      assert (s + t)[1..] == s[1..] + t;
    }
  }

  lemma SearchJoin(l: Listing, m: Listing, name: seq<Byte>)
    ensures Search(Join(l, m), name) == if Search(l, name) == Ok(None) then Search(m, name) else Search(l, name)
  {
    FindJoin(l.entries, m.entries, name);
  }

  // search_dir_block
  method SearchDirBlock(buf: seq<Byte>, name: seq<Byte>, nameLen: nat) returns (r: Result<Option<nat>>)
    requires Contained(buf, 0) && nameLen <= |name|
    ensures r == Search(Records(buf, 0), name[..nameLen])
    ensures r.Ok? && r.value.Some? ==> r.value.value != 0
  {
    hide Find, Records, EntryIno, EntrySize, EntryLen;
    var at := 0;
    ghost var nm := name[..nameLen];
    while at < |buf|
      invariant Contained(buf, at) && Search(Records(buf, 0), nm) == Search(Records(buf, at), nm)
      decreases |buf| - at
    {
      var size := EntrySize(buf, at);
      if size == 0 {
        Stopped(buf, at, nm);
        return Err(EUCLEAN);
      }
      var ino := EntryIno(buf, at);
      if ino != 0 && EntryLen(buf, at) == nameLen && buf[at + 8..at + 8 + nameLen] == name[..nameLen] {
        Hit(buf, at, nm);
        return Ok(Some(ino));
      }
      Passed(buf, at, nm);
      at := at + size;
    }
    Stopped(buf, at, nm);
    return Ok(None);
  }

  // The walk ends behind the block or at a record of size 0.
  lemma Stopped(b: seq<Byte>, at: nat, name: seq<Byte>)
    requires Contained(b, at) && (at < |b| ==> EntrySize(b, at) == 0)
    ensures Search(Records(b, at), name) == if at < |b| then Err(EUCLEAN) else Ok(None)
  {
  }

  // A live record of the name is found.
  lemma Hit(b: seq<Byte>, at: nat, name: seq<Byte>)
    requires Contained(b, at) && at < |b| && EntrySize(b, at) != 0 && EntryIno(b, at) != 0
    requires b[at + 8..at + 8 + EntryLen(b, at)] == name
    ensures Search(Records(b, at), name) == Ok(Some(EntryIno(b, at)))
  {
    hide EntryIno, EntrySize, EntryLen;
  }

  // A dead record, or one of another name, does not affect the search.
  lemma Passed(b: seq<Byte>, at: nat, name: seq<Byte>)
    requires Contained(b, at) && at < |b| && EntrySize(b, at) != 0
    requires EntryIno(b, at) == 0 || b[at + 8..at + 8 + EntryLen(b, at)] != name
    ensures Search(Records(b, at), name) == Search(Records(b, at + EntrySize(b, at)), name)
  {
    hide EntryIno, EntrySize, EntryLen;
    var rest := Records(b, at + EntrySize(b, at));
    if EntryIno(b, at) != 0 {
      assert Records(b, at).entries[1..] == rest.entries;
    }
  }

  // ---------------------------------------------- a directory as it is scanned

  // The lookup gets to block k: no pointer before it is zero.
  ghost predicate Walked(v: Volume, i: Inode, k: nat)
    requires v.Valid() && WfInode(i)
  {
    forall j :: 0 <= j < k ==> KernelPtr(v, i, j) != 0
  }

  // Every block the lookup gets to lies on the volume and holds contained records.
  ghost predicate ScanOk(v: Volume, i: Inode)
    requires v.Valid() && WfInode(i)
  {
    forall k {:trigger Followed(v, i, k)} :: 0 <= k < SinglyEnd(v) && Walked(v, i, k) ==>
      Followed(v, i, k) && (KernelPtr(v, i, k) != 0 ==> Contained(Block(v, KernelPtr(v, i, k)), 0))
  }

  // For a directory with a zero direct pointer only the blocks before it matter.
  lemma SmallScanOk(v: Volume, i: Inode, z: nat)
    requires v.Valid() && WfInode(i) && z < DIRECT && i.direct[z] == 0 && 0 < v.blocks
    requires forall k :: 0 <= k < z ==> i.direct[k] < v.blocks && Contained(Block(v, i.direct[k]), 0)
    ensures ScanOk(v, i)
  {
    hide Contained, Block, PtrAt;
    forall k | 0 <= k < SinglyEnd(v) && Walked(v, i, k)
      ensures Followed(v, i, k) && (KernelPtr(v, i, k) != 0 ==> Contained(Block(v, KernelPtr(v, i, k)), 0))
    {
      assert KernelPtr(v, i, z) == 0;
      assert k <= z;
    }
  }

  // What the lookup finds from block k on: records up to the first zero pointer.
  function Scanned(v: Volume, i: Inode, k: nat): Listing
    requires v.Valid() && WfInode(i) && ScanOk(v, i) && Walked(v, i, k)
    decreases SinglyEnd(v) - k
  {
    if k >= SinglyEnd(v) || KernelPtr(v, i, k) == 0 then Listing([], true)
    else
      assert Followed(v, i, k);
      Join(Records(Block(v, KernelPtr(v, i, k)), 0), Scanned(v, i, k + 1))
  }

  // -------------------------------------------------- what a directory contains

  // The blocks that make up its size.
  function BlockCount(v: Volume, i: Inode): nat
    requires v.Valid()
  {
    EndBlock(v.BlockSize(), i.size)
  }

  ghost predicate ListOk(v: Volume, i: Inode)
    requires v.Valid() && WfInode(i)
  {
    forall k :: 0 <= k < BlockCount(v, i) && FilePtr(v, i, k) != 0 ==> Contained(Block(v, FilePtr(v, i, k)), 0)
  }

  // The records of all its blocks from block k on; a hole has none.
  function Listed(v: Volume, i: Inode, k: nat): Listing
    requires v.Valid() && WfInode(i) && ListOk(v, i)
    decreases BlockCount(v, i) - k
  {
    if k >= BlockCount(v, i) then Listing([], true)
    else if FilePtr(v, i, k) == 0 then Listed(v, i, k + 1)
    else Join(Records(Block(v, FilePtr(v, i, k)), 0), Listed(v, i, k + 1))
  }

  // ------------------------------------------------- where the two part company

  predicate SameBlock(v: Volume, i: Inode, k: nat)
    requires v.Valid() && WfInode(i)
  {
    k < BlockCount(v, i) && FilePtr(v, i, k) != 0 && KernelPtr(v, i, k) == FilePtr(v, i, k)
  }

  // The first block from k on that the lookup does not read as a block of the directory.
  function Parting(v: Volume, i: Inode, k: nat): nat
    requires v.Valid() && WfInode(i)
    decreases BlockCount(v, i) - k
  {
    if SameBlock(v, i, k) then Parting(v, i, k + 1) else k
  }

  // The records before it.
  function Common(v: Volume, i: Inode, k: nat): Listing
    requires v.Valid() && WfInode(i) && ListOk(v, i)
    decreases BlockCount(v, i) - k
  {
    if SameBlock(v, i, k) then Join(Records(Block(v, FilePtr(v, i, k)), 0), Common(v, i, k + 1))
    else Listing([], true)
  }

  lemma JoinAssoc(l: Listing, m: Listing, n: Listing)
    ensures Join(Join(l, m), n) == Join(l, Join(m, n))
  {
  }

  lemma JoinEmpty(l: Listing)
    ensures Join(l, Listing([], true)) == l == Join(Listing([], true), l)
  {
  }

  lemma {:induction false} ScannedParts(v: Volume, i: Inode, k: nat)
    requires v.Valid() && WfInode(i) && ScanOk(v, i) && ListOk(v, i) && Walked(v, i, k)
    ensures Walked(v, i, Parting(v, i, k)) && Parting(v, i, k) >= k
    ensures Scanned(v, i, k) == Join(Common(v, i, k), Scanned(v, i, Parting(v, i, k)))
    decreases BlockCount(v, i) - k
  {
    hide Records, Contained, Block, FilePtr, Join, Followed;
    if SameBlock(v, i, k) {
      ScannedParts(v, i, k + 1);
      assert k < SinglyEnd(v);
      JoinAssoc(Records(Block(v, FilePtr(v, i, k)), 0), Common(v, i, k + 1), Scanned(v, i, Parting(v, i, k)));
    } else {
      JoinEmpty(Scanned(v, i, k));
    }
  }

  lemma {:induction false} ListedParts(v: Volume, i: Inode, k: nat)
    requires v.Valid() && WfInode(i) && ListOk(v, i)
    ensures Listed(v, i, k) == Join(Common(v, i, k), Listed(v, i, Parting(v, i, k)))
    decreases BlockCount(v, i) - k
  {
    hide Records, Contained, Block, FilePtr, KernelPtr, Join;
    if SameBlock(v, i, k) {
      ListedParts(v, i, k + 1);
      JoinAssoc(Records(Block(v, FilePtr(v, i, k)), 0), Common(v, i, k + 1), Listed(v, i, Parting(v, i, k)));
    } else {
      JoinEmpty(Listed(v, i, k));
    }
  }

  // They part at the end of the directory, at a hole, or at the end of the
  // lookup's reach; the lookup goes on from there only past the end, or into
  // what block 0 holds in place of a missing indirect block.
  lemma {:induction false} PartingIs(v: Volume, i: Inode, k: nat)
    requires v.Valid() && WfInode(i) && k <= BlockCount(v, i)
    ensures var p := Parting(v, i, k);
            && k <= p <= BlockCount(v, i)
            && (p == BlockCount(v, i) || FilePtr(v, i, p) == 0 || p >= SinglyEnd(v))
            && (p < BlockCount(v, i) && KernelPtr(v, i, p) != 0 ==> DIRECT <= p < SinglyEnd(v) && i.singly == 0)
    decreases BlockCount(v, i) - k
  {
    hide PtrAt, DoublyPtr;
    if SameBlock(v, i, k) {
      PartingIs(v, i, k + 1);
    } else {
      KernelPtrIff(v, i, k);
    }
  }

  // ---------------------------------------------------------------- inodes

  // An inode in memory: number, type and what is on the disk.
  datatype Node = Node(ino: nat, dir: bool, inode: Inode)

  function Mode(raw: seq<Byte>): nat
    requires |raw| >= RAW
  {
    Le16(raw, 0) / 0x1000
  }

  function RawInode(v: Volume, g: Geometry, ino: nat): (raw: seq<Byte>)
    requires v.Valid() && WfGeometry(v, g) && ino >= 1
    ensures |raw| == RAW
  {
    KernelRaw(v, g, KernelTable(v, g, Group(g, ino)), Index(g, ino))
  }

  // What inode number ino means.
  function NodeAt(v: Volume, g: Geometry, ino: nat): (r: Result<Node>)
    requires v.Valid() && WfGeometry(v, g) && ino >= 1
    ensures r.Ok? ==> WfInode(r.value.inode) && r.value.ino == ino
  {
    if !ValidIno(g, ino) then Err(EINVAL)
    else
      var raw := RawInode(v, g, ino);
      if Mode(raw) == 4 then Ok(Node(ino, true, ParseInode(raw)))
      else if Mode(raw) == 8 then Ok(Node(ino, false, ParseInode(raw)))
      else Err(UnsupportedType)
  }

  ghost predicate Mounted(v: Volume, g: Geometry) { v.Valid() && WfGeometry(v, g) }

  // Directories that can be scanned and listed.
  ghost predicate Scannable(v: Volume, n: Node)
    requires v.Valid()
  {
    WfInode(n.inode) && ScanOk(v, n.inode)
  }

  ghost predicate Listable(v: Volume, n: Node)
    requires v.Valid()
  {
    WfInode(n.inode) && ListOk(v, n.inode)
  }

  // The length of a name is passed on in 8 bits.
  function Short(name: seq<Byte>): seq<Byte> { name[..|name| % 256] }

  // A found inode number is read from its table.
  function Opened(v: Volume, g: Geometry, r: Result<Option<nat>>): Result<Node>
    requires v.Valid() && WfGeometry(v, g) && (r.Ok? && r.value.Some? ==> r.value.value >= 1)
  {
    match r
    case Err(e) => Err(e)
    case Ok(None) => Err(ENOENT)
    case Ok(Some(ino)) => NodeAt(v, g, ino)
  }

  // What a name means in a directory ...
  function Meant(v: Volume, g: Geometry, d: Node, name: seq<Byte>): Result<Node>
    requires Mounted(v, g) && Listable(v, d)
  {
    LiveListed(v, d.inode, 0);
    LiveSearch(Listed(v, d.inode, 0), name);
    Opened(v, g, Search(Listed(v, d.inode, 0), name))
  }

  // ... and what the driver makes of it.
  function Lookup(v: Volume, g: Geometry, d: Node, name: seq<Byte>): Result<Node>
    requires Mounted(v, g) && Scannable(v, d)
  {
    LiveScanned(v, d.inode, 0);
    LiveSearch(Scanned(v, d.inode, 0), Short(name));
    Opened(v, g, Search(Scanned(v, d.inode, 0), Short(name)))
  }

  // What a lookup delivers, record by record: the inode of the first record of that name.
  // Without one it is -ENOENT, or -EUCLEAN if the walk was cut short; a record whose
  // number is beyond the last group gives -EINVAL.
  lemma LookupCases(v: Volume, g: Geometry, d: Node, name: seq<Byte>)
    requires Mounted(v, g) && Scannable(v, d)
    ensures var l, r := Scanned(v, d.inode, 0), Lookup(v, g, d, name);
            && ((forall e <- l.entries :: e.name != Short(name)) ==> r == Err(if l.clean then ENOENT else EUCLEAN))
            && (forall k :: FirstOf(l.entries, Short(name), k) ==>
                  l.entries[k].ino >= 1
                  && (if ValidIno(g, l.entries[k].ino) then r == NodeAt(v, g, l.entries[k].ino) else r == Err(EINVAL)))
  {
    hide Scanned, ScanOk, KernelRaw, KernelTable;
    LiveScanned(v, d.inode, 0);
    var l := Scanned(v, d.inode, 0);
    forall k | FirstOf(l.entries, Short(name), k) ensures Find(l.entries, Short(name)) == Some(l.entries[k].ino) {
      FindFirst(l.entries, Short(name), k);
    }
  }

  predicate FirstOf(es: seq<Record>, name: seq<Byte>, k: int) {
    0 <= k < |es| && es[k].name == name && forall j :: 0 <= j < k ==> es[j].name != name
  }

  lemma FindFirst(es: seq<Record>, name: seq<Byte>, k: nat)
    requires FirstOf(es, name, k)
    ensures Find(es, name) == Some(es[k].ino)
  {
    var r := Find(es, name);
    var j :| 0 <= j < |es| && es[j] == Record(r.value, name) && forall i :: 0 <= i < j ==> es[i].name != name;
    assert j == k;
  }

  // Only live records, of names of at most 255 bytes.
  predicate Live(l: Listing) { forall e <- l.entries :: e.ino != 0 && |e.name| < 256 }

  lemma {:induction false} LiveScanned(v: Volume, i: Inode, k: nat)
    requires v.Valid() && WfInode(i) && ScanOk(v, i) && Walked(v, i, k)
    ensures Live(Scanned(v, i, k))
    decreases SinglyEnd(v) - k
  {
    hide Contained, Records, Block;
    if !(k >= SinglyEnd(v) || KernelPtr(v, i, k) == 0) {
      assert Followed(v, i, k);
      hide ScanOk, KernelPtr, SinglyEnd, Followed;
      LiveScanned(v, i, k + 1);
    }
  }

  lemma {:induction false} LiveListed(v: Volume, i: Inode, k: nat)
    requires v.Valid() && WfInode(i) && ListOk(v, i)
    ensures Live(Listed(v, i, k))
    decreases BlockCount(v, i) - k
  {
    hide Contained, Records, Block, FilePtr;
    if k < BlockCount(v, i) { LiveListed(v, i, k + 1); }
  }

  lemma LiveSearch(l: Listing, name: seq<Byte>)
    requires Live(l)
    ensures var r := Search(l, name); r.Ok? && r.value.Some? ==> r.value.value >= 1 && |name| < 256
  {
  }

  // Where scanning and listing part makes no difference to the name: it is decided
  // before, or what only one of the two gets to does not concern it.
  ghost predicate Undisturbed(v: Volume, i: Inode, name: seq<Byte>)
    requires v.Valid() && WfInode(i) && ScanOk(v, i) && ListOk(v, i)
  {
    ScannedParts(v, i, 0);
    var p := Parting(v, i, 0);
    || Search(Common(v, i, 0), name) != Ok(None)
    || (if KernelPtr(v, i, p) == 0 then Search(Listed(v, i, p), name) == Ok(None)
        else if BlockCount(v, i) <= SinglyEnd(v) then Search(Scanned(v, i, p), name) == Ok(None)
        else Search(Scanned(v, i, p), name) == Search(Listed(v, i, SinglyEnd(v)), name))
  }

  // The driver finds what a name means exactly when the name has at most 255
  // bytes and the parting makes no difference to it; a longer name has no
  // meaning, and its truncation must have none either.
  lemma LookupIff(v: Volume, i: Inode, name: seq<Byte>)
    requires v.Valid() && WfInode(i) && ScanOk(v, i) && ListOk(v, i)
    ensures Search(Scanned(v, i, 0), Short(name)) == Search(Listed(v, i, 0), name) <==>
            if |name| < 256 then Undisturbed(v, i, name)
            else
              && Find(Scanned(v, i, 0).entries, Short(name)) == None
              && Scanned(v, i, 0).clean == Listed(v, i, 0).clean
  {
    LiveListed(v, i, 0);
    if |name| < 256 {
      assert Short(name) == name;
      ScannedParts(v, i, 0);
      ListedParts(v, i, 0);
      AtParting(v, i, name);
    } else {
      LiveSearch(Listed(v, i, 0), name);
    }
  }

  lemma AtParting(v: Volume, i: Inode, name: seq<Byte>)
    requires v.Valid() && WfInode(i) && ScanOk(v, i) && ListOk(v, i) && Walked(v, i, Parting(v, i, 0))
    ensures var c, p := Common(v, i, 0), Parting(v, i, 0);
            var s, l := Scanned(v, i, p), Listed(v, i, p);
            Search(Join(c, s), name) == Search(Join(c, l), name) <==> Undisturbed(v, i, name)
  {
    hide Search, Find, Records, Contained, Block, FilePtr, ScanOk, ListOk, Common, Parting;
    var c, p := Common(v, i, 0), Parting(v, i, 0);
    PartingIs(v, i, 0);
    SearchJoin(c, Scanned(v, i, p), name);
    SearchJoin(c, Listed(v, i, p), name);
    NothingLeft(name);
    if KernelPtr(v, i, p) != 0 { ListedPast(v, i, p); }
  }

  // Where the lookup goes on past the parting, the directory has nothing more behind
  // its direct blocks, or only what a doubly indirect block leads to.
  lemma ListedPast(v: Volume, i: Inode, p: nat)
    requires v.Valid() && WfInode(i) && ListOk(v, i) && p <= BlockCount(v, i) && KernelPtr(v, i, p) != 0
    requires p < BlockCount(v, i) ==> DIRECT <= p < SinglyEnd(v) && i.singly == 0
    ensures BlockCount(v, i) <= SinglyEnd(v) ==> Listed(v, i, p) == Listing([], true)
    ensures BlockCount(v, i) > SinglyEnd(v) ==> Listed(v, i, p) == Listed(v, i, SinglyEnd(v))
  {
    hide Records, Contained, Block, PtrAt, DoublyPtr, ListOk;
    if p < BlockCount(v, i) { HolesListed(v, i, p); }
  }

  lemma {:induction false} HolesListed(v: Volume, i: Inode, k: nat)
    requires v.Valid() && WfInode(i) && ListOk(v, i) && DIRECT <= k <= SinglyEnd(v) && i.singly == 0
    ensures Listed(v, i, k) ==
            if BlockCount(v, i) <= SinglyEnd(v) then Listing([], true) else Listed(v, i, SinglyEnd(v))
    decreases SinglyEnd(v) - k
  {
    hide Records, Contained, Block, PtrAt, DoublyPtr, ListOk;
    if k < SinglyEnd(v) && k < BlockCount(v, i) { HolesListed(v, i, k + 1); }
  }

  // A directory without holes, within reach, and with a zero pointer behind it.
  ghost predicate Regular(v: Volume, i: Inode)
    requires v.Valid() && WfInode(i)
  {
    && BlockCount(v, i) <= SinglyEnd(v) && KernelPtr(v, i, BlockCount(v, i)) == 0
    && forall k :: 0 <= k < BlockCount(v, i) ==> FilePtr(v, i, k) != 0
  }

  // It is found as it is.
  lemma RegularAgrees(v: Volume, i: Inode)
    requires v.Valid() && WfInode(i) && ScanOk(v, i) && ListOk(v, i) && Regular(v, i)
    ensures Scanned(v, i, 0) == Listed(v, i, 0)
  {
    hide Records, Contained, Block, FilePtr, KernelPtr, ScanOk, ListOk, Join, Common, Parting;
    ScannedParts(v, i, 0);
    ListedParts(v, i, 0);
    RegularParting(v, i);
  }

  lemma RegularParting(v: Volume, i: Inode)
    requires v.Valid() && WfInode(i) && Regular(v, i)
    ensures Parting(v, i, 0) == BlockCount(v, i)
  {
    hide FilePtr, KernelPtr, Parting;
    PartingIs(v, i, 0);
  }

  // A name of 257 bytes finds the entry named by its first byte.
  lemma LongNameIsCut(c: Byte, ino: nat)
    requires ino != 0
    ensures var l, name := Listing([Record(ino, [c])], true), seq(257, _ => c);
            Search(l, name) == Ok(None) && Search(l, Short(name)) == Ok(Some(ino))
  {
    var name: seq<Byte> := seq(257, _ => c);
    assert Short(name) == [c];
  }

  // ------------------------------------------------ two directories misread

  // 1 KiB blocks: block 0 begins with the number 20, blocks 1 to 12 hold one dead
  // record each, block 20 a record of inode 11, named "a".
  function MazeSector(l: nat): (s: seq<Byte>)
    ensures |s| == SECTOR
  {
    if l == 0 then Filled(0)[0 := 20]
    else if l == 40 then Filled(0)[0 := 11][5 := 4][6 := 1][8 := 97]
    else if 2 <= l <= 24 && l % 2 == 0 then Filled(0)[5 := 4]
    else Filled(0)
  }

  function MazeVolume(): Volume { Volume(0, 2, 100, MazeSector) }

  // A directory of 12 blocks without an indirect block, and one of 3 with a hole.
  function FullDir(): (i: Inode)
    ensures WfInode(i)
  {
    Inode([1, 2, 3, 4, 5, 6, 7, 8, 9, 10, 11, 12], 0, 0, 12 * 1024)
  }

  function HoleDir(): (i: Inode)
    ensures WfInode(i)
  {
    Inode([1, 0, 20, 0, 0, 0, 0, 0, 0, 0, 0, 0], 0, 0, 3 * 1024)
  }

  lemma MazeValid()
    ensures MazeVolume().Valid()
  {
  }

  // A block with one dead record over its whole length.
  lemma DeadBlock(b: nat)
    requires 1 <= b <= 12
    ensures MazeVolume().Valid() && Contained(Block(MazeVolume(), b), 0)
    ensures Records(Block(MazeVolume(), b), 0) == Listing([], true)
  {
    MazeValid();
    var s := Block(MazeVolume(), b);
    TwoSectors(MazeVolume(), b);
    assert MazeSector(2 * b) == Filled(0)[5 := 4];
    hide MazeSector, Block;
    assert s[0] == s[1] == s[2] == s[3] == s[4] == 0 && s[5] == 4;
    assert EntrySize(s, 0) == 1024 && EntryIno(s, 0) == 0 && Contained(s, 1024);
  }

  lemma NamedBlock()
    ensures MazeVolume().Valid() && Contained(Block(MazeVolume(), 20), 0)
    ensures Records(Block(MazeVolume(), 20), 0) == Listing([Record(11, [97])], true)
  {
    MazeValid();
    var s := Block(MazeVolume(), 20);
    TwoSectors(MazeVolume(), 20);
    assert EntrySize(s, 0) == 1024 && EntryIno(s, 0) == 11 && EntryLen(s, 0) == 1 && Contained(s, 1024);
    assert s[8..9] == [97];
  }

  // Block 0 read as an indirect block leads to block 20 and no further.
  lemma MazeRoot(n: nat)
    requires n < 256
    ensures MazeVolume().Valid() && PtrAt(MazeVolume(), 0, n) == if n == 0 then 20 else 0
  {
    MazeValid();
    var s := Block(MazeVolume(), 0);
    TwoSectors(MazeVolume(), 0);
    assert n > 0 ==> s[4 * n] == 0 && s[4 * n + 1] == 0 && s[4 * n + 2] == 0 && s[4 * n + 3] == 0;
  }

  lemma MazeCount(i: Inode, n: nat)
    requires MazeVolume().Valid() && i.size == n * 1024
    ensures BlockCount(MazeVolume(), i) == n
  {
    DivModUnique(i.size + 1023, 1024, n, 1023);
  }

  lemma FullPtrs(k: nat)
    requires MazeVolume().Valid()
    ensures KernelPtr(MazeVolume(), FullDir(), k) == if k < 12 then k + 1 else if k == 12 then 20 else 0
    ensures FilePtr(MazeVolume(), FullDir(), k) == if k < 12 then k + 1 else 0
  {
    hide PtrAt;
    if 12 <= k < 268 { MazeRoot(k - 12); }
  }

  lemma FullOk()
    ensures MazeVolume().Valid() && ScanOk(MazeVolume(), FullDir()) && ListOk(MazeVolume(), FullDir())
    ensures forall k {:trigger Walked(MazeVolume(), FullDir(), k)} ::
              0 <= k <= 13 ==> Walked(MazeVolume(), FullDir(), k)
  {
    hide KernelPtr, FilePtr, Block, Contained, BlockCount;
    MazeValid();
    var v, i := MazeVolume(), FullDir();
    MazeCount(i, 12);
    forall k | 0 <= k < 268 && Walked(v, i, k)
      ensures Followed(v, i, k) && (KernelPtr(v, i, k) != 0 ==> Contained(Block(v, KernelPtr(v, i, k)), 0))
    {
      FullBlock(k);
    }
    forall k | 0 <= k < 12 && FilePtr(v, i, k) != 0 ensures Contained(Block(v, FilePtr(v, i, k)), 0) { FullBlock(k); }
    forall k | 0 <= k < 13 ensures KernelPtr(v, i, k) != 0 { FullPtrs(k); }
  }

  lemma FullBlock(k: nat)
    ensures var v, i := MazeVolume(), FullDir();
            && v.Valid() && Followed(v, i, k)
            && (KernelPtr(v, i, k) != 0 ==> Contained(Block(v, KernelPtr(v, i, k)), 0))
            && (FilePtr(v, i, k) != 0 ==> Contained(Block(v, FilePtr(v, i, k)), 0))
  {
    hide KernelPtr, FilePtr, Block, Contained;
    MazeValid();
    FullPtrs(k);
    NamedBlock();
    if k < 12 { DeadBlock(k + 1); }
  }

  lemma {:induction false} FullRest(k: nat)
    requires k <= 12
    ensures var v, i := MazeVolume(), FullDir();
            && v.Valid() && ScanOk(v, i) && ListOk(v, i) && Walked(v, i, k)
            && Listed(v, i, k) == Listing([], true) && Scanned(v, i, k) == Listing([Record(11, [97])], true)
    decreases 12 - k
  {
    FullOk();
    hide KernelPtr, FilePtr, Block, Contained, Records, BlockCount, ScanOk, ListOk, Walked;
    var v, i := MazeVolume(), FullDir();
    MazeCount(i, 12);
    FullPtrs(k);
    assert Walked(v, i, k) && Walked(v, i, k + 1);
    if k < 12 {
      FullRest(k + 1);
      DeadBlock(k + 1);
      JoinEmpty(Listing([], true));
      JoinEmpty(Scanned(v, i, k + 1));
    } else {
      FullPtrs(13);
      NamedBlock();
      assert Scanned(v, i, 13) == Listing([], true);
      JoinEmpty(Records(Block(v, 20), 0));
    }
  }

  // A full directory without an indirect block: the name is not in it, yet found
  // in a block that block 0 happens to name.
  lemma ZeroRootIsSearched()
    ensures var v, i := MazeVolume(), FullDir();
            && v.Valid() && ScanOk(v, i) && ListOk(v, i) && Walked(v, i, 0)
            && Search(Listed(v, i, 0), [97]) == Ok(None) && Search(Scanned(v, i, 0), [97]) == Ok(Some(11))
  {
    hide Listed, Scanned, ScanOk, ListOk;
    FullRest(0);
  }

  lemma HolePtrs(k: nat)
    requires MazeVolume().Valid() && k < 12
    ensures KernelPtr(MazeVolume(), HoleDir(), k) == FilePtr(MazeVolume(), HoleDir(), k)
    ensures FilePtr(MazeVolume(), HoleDir(), k) == if k == 0 then 1 else if k == 2 then 20 else 0
  {
  }

  lemma HoleOk()
    ensures MazeVolume().Valid() && ScanOk(MazeVolume(), HoleDir()) && ListOk(MazeVolume(), HoleDir())
    ensures Walked(MazeVolume(), HoleDir(), 0) && Walked(MazeVolume(), HoleDir(), 1)
  {
    hide KernelPtr, FilePtr, Block, Contained, BlockCount;
    MazeValid();
    var v, i := MazeVolume(), HoleDir();
    MazeCount(i, 3);
    DeadBlock(1);
    NamedBlock();
    HolePtrs(0);
    HolePtrs(1);
    forall k | 0 <= k < 268 && Walked(v, i, k)
      ensures Followed(v, i, k) && (KernelPtr(v, i, k) != 0 ==> Contained(Block(v, KernelPtr(v, i, k)), 0))
    {
      if k < 2 { HolePtrs(k); }
    }
    forall k | 0 <= k < 3 && FilePtr(v, i, k) != 0 ensures Contained(Block(v, FilePtr(v, i, k)), 0) { HolePtrs(k); }
  }

  // A name behind a hole is in the directory, yet not found.
  lemma HoleEndsSearch()
    ensures var v, i := MazeVolume(), HoleDir();
            && v.Valid() && ScanOk(v, i) && ListOk(v, i) && Walked(v, i, 0)
            && Search(Listed(v, i, 0), [97]) == Ok(Some(11)) && Search(Scanned(v, i, 0), [97]) == Ok(None)
  {
    HoleOk();
    hide KernelPtr, FilePtr, Block, Contained, Records, BlockCount, ScanOk, ListOk, Walked;
    var v, i := MazeVolume(), HoleDir();
    MazeCount(i, 3);
    DeadBlock(1);
    NamedBlock();
    HolePtrs(0);
    HolePtrs(1);
    HolePtrs(2);
    assert Scanned(v, i, 0) == Join(Records(Block(v, 1), 0), Scanned(v, i, 1)) && Scanned(v, i, 1) == Listing([], true);
    assert Listed(v, i, 2) == Join(Records(Block(v, 20), 0), Listed(v, i, 3)) && Listed(v, i, 3) == Listing([], true);
    assert Listed(v, i, 0) == Join(Records(Block(v, 1), 0), Listed(v, i, 1)) && Listed(v, i, 1) == Listed(v, i, 2);
  }

  // ----------------------------------------------------------- the operations

  // The loop of ext2_lookup: block after block through one buffer. With memory
  // every allocation succeeds, without it any may fail.
  method FindEntry(info: InodeInfo, name: seq<Byte>, memory: bool) returns (r: Result<Option<nat>>)
    requires info.Valid() && ScanOk(info.v, info.inode)
    modifies info
    ensures info.Valid()
    ensures r == Search(Scanned(info.v, info.inode, 0), Short(name)) || (!memory && r == Err(OutOfMemory))
    ensures r.Ok? && r.value.Some? ==> r.value.value != 0
  {
    hide Contained, Records, Find, Search, KernelPtr, Block;
    if !memory {
      if * {
        return Err(OutOfMemory);    // no buffer
      }
    }
    ghost var v, i, whole := info.v, info.inode, Search(Scanned(info.v, info.inode, 0), Short(name));
    var k := 0;
    while k < DIRECT + info.v.BlockSize() / 4
      invariant k <= SinglyEnd(v) && info.Valid() && Walked(v, i, k)
      invariant whole == Search(Scanned(v, i, k), Short(name))
    {
      assert Followed(v, i, k);
      if k >= DIRECT {
        var available := memory;
        if * {
          available := true;
        }
        var ok := info.InitSingly(available);
        if !ok {
          return Err(OutOfMemory);
        }
      }
      var lba := info.Locate(k, memory);
      if lba.value == 0 {
        break;
      }
      var buf := info.ReadBlock(lba.value);
      assert buf == Block(v, KernelPtr(v, i, k)) by { hide *; ReadIsBlock(v, lba.value, KernelPtr(v, i, k)); }
      r := SearchDirBlock(buf, name, |name| % 256);
      SearchJoin(Records(buf, 0), Scanned(v, i, k + 1), Short(name));
      if r != Ok(None) {
        return;
      }
      k := k + 1;
    }
    NothingLeft(Short(name));
    return Ok(None);
  }

  lemma ReadIsBlock(v: Volume, lba: nat, b: nat)
    requires v.Valid() && lba == b * v.spb
    ensures Sectors(v, v.start + lba, v.spb) == Block(v, b)
  {
  }

  lemma NothingLeft(name: seq<Byte>)
    ensures Search(Listing([], true), name) == Ok(None)
  {
  }

  // struct inode.
  datatype Vnode = Vnode(ino: nat, dir: bool, info: InodeInfo) {
    function Value(): Node { Node(ino, dir, info.inode) }
  }

  // ext2_read_inode
  method ReadInode(v: Volume, g: Geometry, ino: nat, memory: bool) returns (r: Result<Vnode>)
    requires Mounted(v, g) && ino >= 1
    ensures r != Err(OutOfMemory) ==>
              var n := NodeAt(v, g, ino);
              && r.Ok? == n.Ok?
              && (n.Err? ==> r == Err(n.error))
              && (n.Ok? ==>
                  r.value.Value() == n.value && r.value.info.v == v && r.value.info.Valid() && fresh(r.value.info))
    ensures r.Ok? ==> fresh(r.value.info)
    ensures memory ==> r != Err(OutOfMemory)
  {
    hide ParseInode, ScanOk, ListOk;
    if Group(g, ino) >= g.groups {
      return Err(EINVAL);
    }
    if !memory {
      if * {
        return Err(OutOfMemory);
      }
    }
    var raw := RawInode(v, g, ino);
    var mode := Mode(raw);
    if mode != 4 && mode != 8 {
      return Err(UnsupportedType);
    }
    ghost var n := NodeAt(v, g, ino);
    assert n == Ok(Node(ino, mode == 4, ParseInode(raw)));
    var info := new InodeInfo(v, ParseInode(raw));
    return Ok(Vnode(ino, mode == 4, info));
  }
}
