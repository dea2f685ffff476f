// The structures on an ext2 volume as they lie on the disk (include/fs/ext2.h),
// field after field, and what the readers get back out of them.
module Ext2Layout {
  import opened Base
  import opened Ext2
  import opened Ext2Inode
  import opened Ext2Dir

  // ------------------------------------------------------------- parts of parts

  lemma SubSlice(s: seq<Byte>, o: nat, n: nat, a: nat, b: nat)
    requires a <= b <= n && o + n <= |s|
    ensures s[o..o + n][a..b] == s[o + a..o + b]
  {
    var w := s[o..o + n];
    var x, y := w[a..b], s[o + a..o + b];
    assert |x| == |y| == b - a;
    forall i | 0 <= i < b - a ensures x[i] == y[i] {
      assert x[i] == w[a + i] == s[o + a + i];
    }
  }

  lemma Behind(x: seq<Byte>, y: seq<Byte>, a: nat, b: nat)
    requires a <= b <= |y|
    ensures (x + y)[|x| + a..|x| + b] == y[a..b]
  {
    var u, w := (x + y)[|x| + a..|x| + b], y[a..b];
    assert |u| == |w| == b - a;
    forall i | 0 <= i < b - a ensures u[i] == w[i] {
      assert u[i] == (x + y)[|x| + a + i] == y[a + i];
    }
  }

  lemma InFront(x: seq<Byte>, y: seq<Byte>, a: nat, b: nat)
    requires a <= b <= |x|
    ensures (x + y)[a..b] == x[a..b]
  {
    var u, w := (x + y)[a..b], x[a..b];
    assert |u| == |w| == b - a;
    forall i | 0 <= i < b - a ensures u[i] == w[i] {
      assert u[i] == (x + y)[a + i] == x[a + i];
    }
  }

  // --------------------------------------------------------- little-endian numbers

  function Bytes16(n: nat): (b: seq<Byte>)
    requires n < 0x1_0000
    ensures |b| == 2
  {
    [(n % 0x100) as Byte, (n / 0x100) as Byte]
  }

  function Bytes32(n: nat): (b: seq<Byte>)
    requires n < U32
    ensures |b| == 4
  {
    Bytes16(n % 0x1_0000) + Bytes16(n / 0x1_0000)
  }

  lemma Reads16(b: seq<Byte>, o: nat, n: nat)
    requires o + 2 <= |b| && n < 0x1_0000 && b[o..o + 2] == Bytes16(n)
    ensures Le16(b, o) == n
  {
    var f := b[o..o + 2];
    assert f[0] == b[o] && f[1] == b[o + 1];
  }

  lemma Reads32(b: seq<Byte>, o: nat, n: nat)
    requires o + 4 <= |b| && n < U32 && b[o..o + 4] == Bytes32(n)
    ensures Le32(b, o) == n
  {
    var f := b[o..o + 4];
    assert f[0] == b[o] && f[1] == b[o + 1] && f[2] == b[o + 2] && f[3] == b[o + 3];
  }

  // Reading and laying out again gives the same bytes.
  lemma Rewrites16(b: seq<Byte>, o: nat)
    requires o + 2 <= |b|
    ensures Le16(b, o) < 0x1_0000 && Bytes16(Le16(b, o)) == b[o..o + 2]
  {
    var f := b[o..o + 2];
    assert f == [b[o], b[o + 1]];
  }

  lemma Rewrites32(b: seq<Byte>, o: nat)
    requires o + 4 <= |b|
    ensures Bytes32(Le32(b, o)) == b[o..o + 4]
  {
    var lo, hi := Le16(b, o), Le16(b, o + 2);
    Rewrites16(b, o);
    Rewrites16(b, o + 2);
    assert Le32(b, o) == lo + 0x1_0000 * hi;
    DivModUnique(Le32(b, o), 0x1_0000, hi, lo);
    assert b[o..o + 4] == b[o..o + 2] + b[o + 2..o + 4];
  }

  predicate Fit(ns: seq<nat>) { forall k :: 0 <= k < |ns| ==> ns[k] < U32 }

  // Words one after the other.
  function Pointers(ns: seq<nat>): (b: seq<Byte>)
    requires Fit(ns)
    ensures |b| == 4 * |ns|
    decreases |ns|
  {
    if ns == [] then [] else Bytes32(ns[0]) + Pointers(ns[1..])
  }

  lemma {:induction false} PointerAt(ns: seq<nat>, k: nat)
    requires Fit(ns) && k < |ns|
    ensures Pointers(ns)[4 * k..4 * k + 4] == Bytes32(ns[k])
    decreases |ns|
  {
    hide Bytes32;
    if k > 0 {
      PointerAt(ns[1..], k - 1);
      Behind(Bytes32(ns[0]), Pointers(ns[1..]), 4 * (k - 1), 4 * (k - 1) + 4);
    }
  }

  // A block of pointers is read pointer by pointer.
  lemma PointerBlock(v: Volume, block: nat, ns: seq<nat>, i: nat)
    requires v.Valid() && Words(ns, v.PerBlock()) && Block(v, block) == Pointers(ns) && i < v.PerBlock()
    ensures PtrAt(v, block, i) == ns[i]
  {
    hide Block, Pointers, Bytes32, Le32;
    PointerAt(ns, i);
    Reads32(Block(v, block), 4 * i, ns[i]);
  }

  // ------------------------------------------------------------------- inodes

  // struct ext2_inode. `times` are the four times, `other` the words sector_count,
  // flags and os_specific_val0, `rest` the words triply, generation_num and
  // extended_attr_block.
  datatype DiskInode = DiskInode(
    mode: bv16, user: nat, sizeLow: nat, times: seq<nat>, group: nat, links: nat, other: seq<nat>,
    direct: seq<nat>, singly: nat, doubly: nat, rest: seq<nat>, sizeHigh: nat, fragment: nat, os: seq<Byte>)

  predicate Words(ns: seq<nat>, n: nat) { |ns| == n && Fit(ns) }

  predicate WfDisk(d: DiskInode) {
    && d.user < 0x1_0000 && d.group < 0x1_0000 && d.links < 0x1_0000
    && d.sizeLow < U32 && d.singly < U32 && d.doubly < U32 && d.sizeHigh < U32 && d.fragment < U32
    && Words(d.times, 4) && Words(d.other, 3) && Words(d.direct, DIRECT) && Words(d.rest, 3) && |d.os| == 12
  }

  // The fields before, and behind, the direct pointers.
  function Front(d: DiskInode): (b: seq<Byte>)
    requires WfDisk(d)
    ensures |b| == 40
  {
    Bytes16(d.mode as nat) + Bytes16(d.user) + Bytes32(d.sizeLow) + Pointers(d.times)
    + Bytes16(d.group) + Bytes16(d.links) + Pointers(d.other)
  }

  function Back(d: DiskInode): (b: seq<Byte>)
    requires WfDisk(d)
    ensures |b| == 40
  {
    Bytes32(d.singly) + Bytes32(d.doubly) + Pointers(d.rest) + Bytes32(d.sizeHigh) + Bytes32(d.fragment) + d.os
  }

  function LaidInode(d: DiskInode): (b: seq<Byte>)
    requires WfDisk(d)
    ensures |b| == RAW
  {
    Front(d) + Pointers(d.direct) + Back(d)
  }

  // The inode that those fields describe.
  function Described(d: DiskInode): Inode
    requires WfDisk(d)
  {
    Inode(d.direct, d.singly, d.doubly, d.sizeLow + U32 * d.sizeHigh)
  }

  // Reading an inode that was laid out gives back its pointers, its size and its mode.
  lemma InodeRoundTrip(d: DiskInode)
    requires WfDisk(d)
    ensures var raw := LaidInode(d);
            ParseInode(raw) == Described(d) && Le16(raw, 0) == d.mode as nat && Le32(raw, 4) == d.sizeLow
  {
    var raw := LaidInode(d);
    FrontFields(d);
    BackFields(d);
    hide Front, Back, Bytes16, Bytes32, Pointers, Le16, Le32;
    var f, p, b := Front(d), Pointers(d.direct), Back(d);
    assert raw == f + p + b;
    InFront(f, p, 0, 2);
    InFront(f, p, 4, 8);
    InFront(f + p, b, 0, 2);
    InFront(f + p, b, 4, 8);
    Reads16(raw, 0, d.mode as nat);
    Reads32(raw, 4, d.sizeLow);
    Behind(f + p, b, 0, 4);
    Behind(f + p, b, 4, 8);
    Behind(f + p, b, 20, 24);
    Reads32(raw, 88, d.singly);
    Reads32(raw, 92, d.doubly);
    Reads32(raw, 108, d.sizeHigh);
    forall k | 0 <= k < DIRECT ensures Le32(raw, 40 + 4 * k) == d.direct[k] {
      DirectAt(f, d.direct, b, k);
    }
  }

  lemma DirectAt(f: seq<Byte>, direct: seq<nat>, b: seq<Byte>, k: nat)
    requires |f| == 40 && Words(direct, DIRECT) && k < DIRECT
    ensures Le32(f + Pointers(direct) + b, 40 + 4 * k) == direct[k]
  {
    hide Bytes32, Pointers, Le32;
    var p := Pointers(direct);
    PointerAt(direct, k);
    Behind(f, p, 4 * k, 4 * k + 4);
    InFront(f + p, b, 40 + 4 * k, 40 + 4 * k + 4);
    Reads32(f + p + b, 40 + 4 * k, direct[k]);
  }

  lemma FrontFields(d: DiskInode)
    requires WfDisk(d)
    ensures Front(d)[0..2] == Bytes16(d.mode as nat) && Front(d)[4..8] == Bytes32(d.sizeLow)
  {
    hide Bytes16, Bytes32, Pointers;
  }

  lemma BackFields(d: DiskInode)
    requires WfDisk(d)
    ensures Back(d)[0..4] == Bytes32(d.singly) && Back(d)[4..8] == Bytes32(d.doubly)
    ensures Back(d)[20..24] == Bytes32(d.sizeHigh)
  {
    hide Bytes32, Pointers;
  }

  // What the driver takes an inode for: the test of the mode's upper bits, and the
  // fields at their places.
  lemma NodeIs(v: Volume, g: Geometry, ino: nat, d: DiskInode)
    requires Mounted(v, g) && ino >= 1 && ValidIno(g, ino) && WfDisk(d) && RawInode(v, g, ino) == LaidInode(d)
    ensures NodeAt(v, g, ino) ==
            if d.mode & 0xF000 == 0x4000 then Ok(Node(ino, true, Described(d)))
            else if d.mode & 0xF000 == 0x8000 then Ok(Node(ino, false, Described(d)))
            else Err(UnsupportedType)
  {
    InodeRoundTrip(d);
    UpperBits(d.mode);
    hide LaidInode, ParseInode, RawInode;
  }

  lemma UpperBits(m: bv16)
    ensures m & 0xF000 == 0x4000 <==> m as nat / 0x1000 == 4
    ensures m & 0xF000 == 0x8000 <==> m as nat / 0x1000 == 8
  {
  }

  // Every 128 bytes are the layout of some inode, so all of this is about all of them.
  lemma InodeLaidOut(raw: seq<Byte>) returns (d: DiskInode)
    requires |raw| == RAW
    ensures WfDisk(d) && LaidInode(d) == raw
  {
    Rewrites16(raw, 0);
    Rewrites16(raw, 2);
    Rewrites16(raw, 24);
    Rewrites16(raw, 26);
    var mode := BitsOf(Le16(raw, 0));
    hide Bytes16, Le16, Le32;
    d := DiskInode(
      mode, Le16(raw, 2), Le32(raw, 4), Read(raw, 8, 4), Le16(raw, 24), Le16(raw, 26), Read(raw, 28, 3),
      Read(raw, 40, DIRECT), Le32(raw, 88), Le32(raw, 92), Read(raw, 96, 3), Le32(raw, 108), Le32(raw, 112),
      raw[116..]);
    FrontLaid(raw, d);
    BackLaid(raw, d);
    hide Front, Back, Pointers;
    Reread(raw, 40, DIRECT);
    assert raw == raw[..40] + raw[40..88] + raw[88..];
  }

  lemma FrontLaid(raw: seq<Byte>, d: DiskInode)
    requires |raw| == RAW && WfDisk(d) && d.mode as nat == Le16(raw, 0) && d.user == Le16(raw, 2)
    requires d.sizeLow == Le32(raw, 4) && d.times == Read(raw, 8, 4) && d.group == Le16(raw, 24)
    requires d.links == Le16(raw, 26) && d.other == Read(raw, 28, 3)
    ensures Front(d) == raw[..40]
  {
    hide Bytes16, Bytes32, Pointers, Le16, Le32, Read;
    Rewrites16(raw, 0);
    Rewrites16(raw, 2);
    Rewrites32(raw, 4);
    Reread(raw, 8, 4);
    Rewrites16(raw, 24);
    Rewrites16(raw, 26);
    Reread(raw, 28, 3);
  }

  lemma BackLaid(raw: seq<Byte>, d: DiskInode)
    requires |raw| == RAW && WfDisk(d) && d.singly == Le32(raw, 88) && d.doubly == Le32(raw, 92)
    requires d.rest == Read(raw, 96, 3) && d.sizeHigh == Le32(raw, 108) && d.fragment == Le32(raw, 112)
    requires d.os == raw[116..]
    ensures Back(d) == raw[88..]
  {
    hide Bytes32, Pointers, Le32, Read;
    Rewrites32(raw, 88);
    Rewrites32(raw, 92);
    Reread(raw, 96, 3);
    Rewrites32(raw, 108);
    Rewrites32(raw, 112);
  }

  // Every number of 16 bits is that of some bit pattern.
  lemma BitsOf(n: nat) returns (m: bv16)
    requires n < 0x1_0000
    ensures m as nat == n
  {
    var high := Bits8(n / 0x100);
    var low := Bits8(n % 0x100);
    Together(high, low);
    m := (high as bv16 << 8) | (low as bv16);
  }

  lemma {:induction false} Bits8(n: nat) returns (m: bv8)
    requires n < 0x100
    ensures m as nat == n
  {
    if n == 0 {
      m := 0;
    } else {
      m := Bits8(n - 1);
      CountUp(m);
      m := m + 1;
    }
  }

  lemma CountUp(m: bv8)
    ensures m as nat < 0xFF ==> (m + 1) as nat == m as nat + 1
  {
  }

  lemma Together(high: bv8, low: bv8)
    ensures ((high as bv16 << 8) | (low as bv16)) as nat == 0x100 * (high as nat) + low as nat
  {
  }

  // n words from position o on.
  function Read(b: seq<Byte>, o: nat, n: nat): (ns: seq<nat>)
    requires o + 4 * n <= |b|
    ensures |ns| == n && Fit(ns)
  {
    seq(n, k requires 0 <= k < n => Le32(b, o + 4 * k))
  }

  lemma {:induction false} Reread(b: seq<Byte>, o: nat, n: nat)
    requires o + 4 * n <= |b|
    ensures Pointers(Read(b, o, n)) == b[o..o + 4 * n]
    decreases n
  {
    hide Bytes32;
    if n > 0 {
      Rewrites32(b, o);
      Reread(b, o + 4, n - 1);
      assert Read(b, o, n)[1..] == Read(b, o + 4, n - 1);
    }
  }

  // -------------------------------------------------------- group descriptors

  // struct ext2_blockgroup_desc.
  datatype DiskGroup = DiskGroup(
    blockBitmap: nat, inodeBitmap: nat, inodeTable: nat, freeBlocks: nat, freeInodes: nat, dirs: nat,
    reserved: seq<Byte>)

  predicate WfGroup(d: DiskGroup) {
    && d.blockBitmap < U32 && d.inodeBitmap < U32 && d.inodeTable < U32
    && d.freeBlocks < 0x1_0000 && d.freeInodes < 0x1_0000 && d.dirs < 0x1_0000 && |d.reserved| == 14
  }

  function LaidGroup(d: DiskGroup): (b: seq<Byte>)
    requires WfGroup(d)
    ensures |b| == DESCRIPTOR
  {
    Bytes32(d.blockBitmap) + Bytes32(d.inodeBitmap) + Bytes32(d.inodeTable)
    + Bytes16(d.freeBlocks) + Bytes16(d.freeInodes) + Bytes16(d.dirs) + d.reserved
  }

  // Both readers find the inode table of a group in its descriptor, which lies in the
  // table that begins with the block behind the superblock's.
  lemma TableIs(v: Volume, g: Geometry, group: nat, d: DiskGroup)
    requires v.Valid() && WfGeometry(v, g) && WfGroup(d)
    requires var lba := v.start + (g.firstData + 1) * v.spb + DESCRIPTOR * group / SECTOR;
             var o := DESCRIPTOR * group % SECTOR;
             o + DESCRIPTOR <= SECTOR && Sectors(v, lba, 1)[o..o + DESCRIPTOR] == LaidGroup(d)
    ensures KernelTable(v, g, group) == LoaderTable(v, group) == d.inodeTable
  {
    SameTable(v, g, group);
    var lba := v.start + (g.firstData + 1) * v.spb + DESCRIPTOR * group / SECTOR;
    var o := DESCRIPTOR * group % SECTOR;
    var s := Sectors(v, lba, 1);
    GroupField(d);
    hide LaidGroup, KernelTable, Sectors, Bytes32;
    var w := s[o..o + DESCRIPTOR];
    SubSlice(s, o, DESCRIPTOR, 8, 12);
    Reads32(s, o + 8, d.inodeTable);
  }

  lemma GroupField(d: DiskGroup)
    requires WfGroup(d)
    ensures LaidGroup(d)[8..12] == Bytes32(d.inodeTable)
  {
    hide Bytes16, Bytes32;
  }

  // ---------------------------------------------------------------- directories

  // struct ext2_dir_entry, with what follows the name up to the next record.
  datatype DiskEntry = DiskEntry(ino: nat, kind: Byte, name: seq<Byte>, padding: seq<Byte>)

  function EntryBytes(e: DiskEntry): nat { 8 + |e.name| + |e.padding| }

  predicate WfEntry(e: DiskEntry) { e.ino < U32 && |e.name| < 256 && EntryBytes(e) < 0x1_0000 }

  function LaidEntry(e: DiskEntry): (b: seq<Byte>)
    requires WfEntry(e)
    ensures |b| == EntryBytes(e)
  {
    Bytes32(e.ino) + Bytes16(EntryBytes(e)) + [|e.name| as Byte, e.kind] + e.name + e.padding
  }

  predicate WfEntries(es: seq<DiskEntry>) { forall k :: 0 <= k < |es| ==> WfEntry(es[k]) }

  function LaidEntries(es: seq<DiskEntry>): seq<Byte>
    requires WfEntries(es)
    decreases |es|
  {
    if es == [] then [] else LaidEntry(es[0]) + LaidEntries(es[1..])
  }

  // The records in use.
  function InUse(es: seq<DiskEntry>): seq<Record>
    decreases |es|
  {
    if es == [] then []
    else if es[0].ino == 0 then InUse(es[1..])
    else [Record(es[0].ino, es[0].name)] + InUse(es[1..])
  }

  // The end of a block, or the beginning of a record of size 0.
  predicate Stops(rest: seq<Byte>) { rest == [] || (|rest| >= 8 && rest[4] == 0 && rest[5] == 0) }

  // Walking over records that were laid out one after the other finds exactly those in
  // use, in order, with their numbers and names.
  lemma {:induction false} DirRoundTrip(before: seq<Byte>, es: seq<DiskEntry>, rest: seq<Byte>)
    requires WfEntries(es) && Stops(rest)
    ensures var b := before + LaidEntries(es) + rest;
            Contained(b, |before|) && Records(b, |before|) == Listing(InUse(es), rest == [])
    decreases |es|
  {
    hide LaidEntry, Records, Contained;
    var b := before + LaidEntries(es) + rest;
    if es == [] {
      assert b == before + rest;
      WalkStops(before, rest);
    } else {
      var e, more := LaidEntry(es[0]), LaidEntries(es[1..]);
      DirRoundTrip(before + e, es[1..], rest);
      Regroup(before, e, more, rest);
      assert LaidEntries(es) == e + more;
      FirstEntry(before, es[0], more + rest);
      WalkGoesOn(b, |before|, es[0], Listing(InUse(es[1..]), rest == []));
      assert InUse(es) == if es[0].ino == 0 then InUse(es[1..]) else [Record(es[0].ino, es[0].name)] + InUse(es[1..]);
    }
  }

  lemma Regroup(x: seq<Byte>, y: seq<Byte>, z: seq<Byte>, w: seq<Byte>)
    ensures x + (y + z) + w == x + y + z + w == x + y + (z + w)
  {
  }

  lemma WalkStops(before: seq<Byte>, rest: seq<Byte>)
    requires Stops(rest)
    ensures var b := before + rest;
            Contained(b, |before|) && Records(b, |before|) == Listing([], rest == [])
  {
    var b := before + rest;
    if rest != [] { assert b[|before| + 4] == 0 && b[|before| + 5] == 0; }
  }

  // One record of the walk.
  lemma WalkGoesOn(b: seq<Byte>, at: nat, e: DiskEntry, l: Listing)
    requires WfEntry(e) && at + EntryBytes(e) <= |b|
    requires EntryIno(b, at) == e.ino && EntrySize(b, at) == EntryBytes(e) && EntryLen(b, at) == |e.name|
    requires b[at + 8..at + 8 + |e.name|] == e.name
    requires Contained(b, at + EntryBytes(e)) && Records(b, at + EntryBytes(e)) == l
    ensures Contained(b, at)
    ensures Records(b, at) ==
            if e.ino == 0 then l else Listing([Record(e.ino, e.name)] + l.entries, l.clean)
  {
    hide EntryIno, EntrySize, EntryLen;
  }

  lemma FirstEntry(before: seq<Byte>, e: DiskEntry, rest: seq<Byte>)
    requires WfEntry(e)
    ensures var b, at := before + LaidEntry(e) + rest, |before|;
            && at + EntryBytes(e) <= |b| && EntryIno(b, at) == e.ino && EntrySize(b, at) == EntryBytes(e)
            && EntryLen(b, at) == |e.name| && b[at + 8..at + 8 + |e.name|] == e.name
  {
    var b, at, l := before + LaidEntry(e) + rest, |before|, LaidEntry(e);
    EntryFields(e);
    hide LaidEntry, Bytes16, Bytes32;
    assert b[at..at + 4] == l[0..4] && b[at + 4..at + 6] == l[4..6] && b[at + 6] == l[6];
    assert b[at + 8..at + 8 + |e.name|] == l[8..8 + |e.name|];
    Reads32(b, at, e.ino);
    Reads16(b, at + 4, EntryBytes(e));
  }

  lemma EntryFields(e: DiskEntry)
    requires WfEntry(e)
    ensures var l := LaidEntry(e);
            && l[0..4] == Bytes32(e.ino) && l[4..6] == Bytes16(EntryBytes(e))
            && l[6] as nat == |e.name| && l[8..8 + |e.name|] == e.name
  {
    hide Bytes16, Bytes32;
  }
}
