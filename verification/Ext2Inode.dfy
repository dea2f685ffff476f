// Where inodes are: the arithmetic of fs/ext2/inode.c and of the boot loader.
module Ext2Inode {
  import opened Base
  import opened Ext2

  const RAW: nat := 128           // sizeof(struct ext2_inode)
  const DESCRIPTOR: nat := 32     // sizeof(struct ext2_blockgroup_desc)

  // Inode size, inodes per group, number of groups, and first data block.
  datatype Geometry = Geometry(inodeSize: nat, perGroup: nat, groups: nat, firstData: nat)

  predicate WfGeometry(v: Volume, g: Geometry)
    requires v.spb > 0
  {
    && RAW <= g.inodeSize <= SECTOR && SECTOR % g.inodeSize == 0 && g.perGroup > 0
    && g.firstData == 3 / v.spb
  }

  // A valid inode number, by the test of ext2_read_inode.
  predicate ValidIno(g: Geometry, ino: nat)
    requires g.perGroup > 0
  {
    ino >= 1 && Quot(ino - 1, g.perGroup) < g.groups
  }

  function Group(g: Geometry, ino: nat): nat
    requires g.perGroup > 0 && ino >= 1
  {
    Quot(ino - 1, g.perGroup)
  }

  function Index(g: Geometry, ino: nat): nat
    requires g.perGroup > 0 && ino >= 1
  {
    Rem(ino - 1, g.perGroup)
  }

  // Inodes are numbered from 1 on, group by group; the valid numbers are those of the
  // groups there are.
  lemma NumberSplits(g: Geometry, ino: nat)
    requires g.perGroup > 0 && ino >= 1
    ensures ino == 1 + Group(g, ino) * g.perGroup + Index(g, ino) && Index(g, ino) < g.perGroup
    ensures ValidIno(g, ino) <==> ino <= g.groups * g.perGroup
  {
    QuotRem(ino - 1, g.perGroup);
    var q := Group(g, ino);
    assert g.perGroup * q == q * g.perGroup && g.perGroup * g.groups == g.groups * g.perGroup;
    if q < g.groups { MulOrder(g.perGroup, q, g.groups); }
    if q > g.groups { MulOrder(g.perGroup, g.groups, q); }
  }

  // --------------------------------------------------------- byte addresses

  // ext2_read_inode: block of the inode table, then position in the block.
  function KernelBlock(v: Volume, g: Geometry, table: nat, index: nat): nat
    requires v.spb > 0 && WfGeometry(v, g)
  {
    InodesPerBlock(v, g);
    table + Quot(index, Quot(v.BlockSize(), g.inodeSize))
  }

  function KernelOffset(v: Volume, g: Geometry, index: nat): nat
    requires v.spb > 0 && WfGeometry(v, g)
  {
    InodesPerBlock(v, g);
    g.inodeSize * Rem(index, Quot(v.BlockSize(), g.inodeSize))
  }

  function Wrap32(x: nat): nat { x % U32 }

  lemma NoWrap(x: nat)
    requires x < U32
    ensures Wrap32(x) == x
  {
  }

  // Its sector on the partition, in 32-bit arithmetic.
  function KernelSector(v: Volume, g: Geometry, table: nat, index: nat): nat
    requires v.spb > 0 && WfGeometry(v, g)
  {
    Wrap32(Wrap32(KernelBlock(v, g, table, index)) * v.spb)
  }

  // get_inode: sector of the inode table on the disk, then position in the
  // sector, in 32-bit arithmetic.
  function LoaderSector(v: Volume, g: Geometry, table: nat, index: nat): nat {
    Wrap32(v.start + Wrap32(table * v.spb) + Quot(Wrap32(index * g.inodeSize), SECTOR))
  }

  function LoaderOffset(g: Geometry, index: nat): nat { Rem(Wrap32(index * g.inodeSize), SECTOR) }

  // The inode lies on the volume, in a table of less than 4 GiB.
  predicate Placed(v: Volume, g: Geometry, table: nat, index: nat)
    requires v.spb > 0 && WfGeometry(v, g)
  {
    KernelBlock(v, g, table, index) < v.blocks && index * g.inodeSize < U32
  }

  // Inodes fill sectors and blocks without remainder.
  lemma InodesPerBlock(v: Volume, g: Geometry)
    requires v.spb > 0 && WfGeometry(v, g)
    ensures var n := Quot(SECTOR, g.inodeSize);
            && n > 0 && SECTOR == g.inodeSize * n
            && Quot(v.BlockSize(), g.inodeSize) == n * v.spb > 0 && v.BlockSize() == g.inodeSize * (n * v.spb)
  {
    var n := Quot(SECTOR, g.inodeSize);
    QuotRem(SECTOR, g.inodeSize);
    assert n > 0;
    assert g.inodeSize * (n * v.spb) == (g.inodeSize * n) * v.spb;
    DivModUnique(v.BlockSize(), g.inodeSize, n * v.spb, 0);
    MulOrder(n, 0, v.spb);
  }

  // The index splits into block and position.
  lemma IndexSplit(v: Volume, g: Geometry, table: nat, index: nat)
    requires v.spb > 0 && WfGeometry(v, g)
    ensures SECTOR * (KernelBlock(v, g, table, index) * v.spb) + KernelOffset(v, g, index)
            == SECTOR * (table * v.spb) + index * g.inodeSize
    ensures KernelOffset(v, g, index) + g.inodeSize <= v.BlockSize()
  {
    InodesPerBlock(v, g);
    var m := Quot(v.BlockSize(), g.inodeSize);
    var q, r := Quot(index, m), Rem(index, m);
    QuotRem(index, m);
    assert index * g.inodeSize == (m * q + r) * g.inodeSize == g.inodeSize * m * q + g.inodeSize * r;
    assert SECTOR * ((table + q) * v.spb) == SECTOR * (table * v.spb) + v.BlockSize() * q;
    MulOrder(g.inodeSize, r, m);
  }

  // On the volume nothing overflows.
  lemma NoOverflow(v: Volume, g: Geometry, table: nat, index: nat)
    requires v.Valid() && WfGeometry(v, g) && Placed(v, g, table, index)
    ensures KernelSector(v, g, table, index) == KernelBlock(v, g, table, index) * v.spb
    ensures LoaderSector(v, g, table, index) == v.start + table * v.spb + Quot(index * g.inodeSize, SECTOR)
    ensures v.start + KernelBlock(v, g, table, index) * v.spb + v.spb < U32
  {
    IndexSplit(v, g, table, index);
    hide KernelBlock, KernelOffset, Wrap32;
    var b := KernelBlock(v, g, table, index);
    MulOrder(v.spb, b, v.blocks);
    assert v.spb * b == b * v.spb && v.spb * v.blocks == v.blocks * v.spb;
    BlockBound(v, b);
    NoWrap(b);
    NoWrap(b * v.spb);
    SectorSum(v.start, b * v.spb, KernelOffset(v, g, index), v.spb, table * v.spb, index * g.inodeSize);
  }

  lemma SectorSum(start: nat, z: nat, o: nat, spb: nat, x: nat, y: nat)
    requires start + z + spb < U32 && o <= SECTOR * spb && SECTOR * z + o == SECTOR * x + y && y < U32
    ensures Wrap32(start + Wrap32(x) + Quot(Wrap32(y), SECTOR)) == start + x + Quot(y, SECTOR)
  {
    hide Wrap32;
    QuotRem(y, SECTOR);
    NoWrap(y);
    NoWrap(x);
    NoWrap(start + x + Quot(y, SECTOR));
  }

  lemma BlockBound(v: Volume, b: nat)
    requires v.spb > 0
    ensures b <= b * v.spb
  {
    if v.spb > 1 { MulPositive(b, v.spb - 1); }
    assert b * (v.spb - 1) == b * v.spb - b;
  }

  // Both compute the same absolute byte address, the index times the inode size
  // behind the start of the table.
  lemma SameAddress(v: Volume, g: Geometry, table: nat, index: nat)
    requires v.Valid() && WfGeometry(v, g) && Placed(v, g, table, index)
    ensures SECTOR * (v.start + KernelSector(v, g, table, index)) + KernelOffset(v, g, index)
            == SECTOR * (v.start + table * v.spb) + index * g.inodeSize
    ensures SECTOR * LoaderSector(v, g, table, index) + LoaderOffset(g, index)
            == SECTOR * (v.start + table * v.spb) + index * g.inodeSize
  {
    NoOverflow(v, g, table, index);
    IndexSplit(v, g, table, index);
    hide KernelBlock, KernelOffset, KernelSector, LoaderSector, Wrap32;
    NoWrap(index * g.inodeSize);
    QuotRem(index * g.inodeSize, SECTOR);
  }

  // No inode straddles the block or the sector that is read for it.
  lemma NoStraddle(v: Volume, g: Geometry, index: nat)
    requires v.spb > 0 && WfGeometry(v, g)
    ensures KernelOffset(v, g, index) + g.inodeSize <= v.BlockSize()
    ensures LoaderOffset(g, index) + g.inodeSize <= SECTOR
  {
    IndexSplit(v, g, 0, index);
    InodesPerBlock(v, g);
    hide KernelBlock, KernelOffset, Wrap32;
    WholeInodes(Quot(SECTOR, g.inodeSize), g.inodeSize, index);
  }

  // Wrapping at 2^32 keeps multiples of a divisor of the sector size, and these
  // fill sectors.
  lemma WholeInodes(n: nat, size: nat, index: nat)
    requires size > 0 && SECTOR == size * n
    ensures Rem(Wrap32(index * size), SECTOR) + size <= SECTOR
  {
    var x := index * size;
    var q, r := x / U32, x % U32;
    var k := index - n * 0x80_0000 * q;
    Multiple(size, n, index, q);
    assert r == size * k;
    if k < 0 { MulOrder(size, k, 0); }
    MultipleInSector(n, size, k);
  }

  lemma Multiple(size: nat, n: nat, index: nat, q: nat)
    requires SECTOR == size * n
    ensures index * size - U32 * q == size * (index - n * 0x80_0000 * q)
  {
    assert U32 == SECTOR * 0x80_0000;
    assert size * n * (0x80_0000 * q) == size * (n * 0x80_0000 * q);
  }

  lemma MultipleInSector(n: nat, size: nat, k: nat)
    requires size > 0 && SECTOR == size * n
    ensures Rem(size * k, SECTOR) + size <= SECTOR
  {
    var q, r := Quot(k, n), Rem(k, n);
    QuotRem(k, n);
    MulOrder(size, r, n);
    assert size * k == size * (n * q + r) == (size * n) * q + size * r;
    DivModUnique(size * k, SECTOR, q, size * r);
  }

  // Different inodes of a group occupy different bytes.
  lemma InodesApart(g: Geometry, a: nat, b: nat)
    requires g.perGroup > 0 && a >= 1 && b >= 1 && a != b && Group(g, a) == Group(g, b)
    ensures var x, y := Index(g, a) * g.inodeSize, Index(g, b) * g.inodeSize;
            x + g.inodeSize <= y || y + g.inodeSize <= x
  {
    QuotRem(a - 1, g.perGroup);
    QuotRem(b - 1, g.perGroup);
    var x, y := Index(g, a), Index(g, b);
    if g.inodeSize > 0 {
      if x < y { MulOrder(g.inodeSize, x, y); } else { MulOrder(g.inodeSize, y, x); }
    }
  }

  // --------------------------------------------------------- bytes of an inode

  // A stretch of a block that stays within one sector is read from that sector.
  lemma ThroughSector(v: Volume, lba: nat, n: nat, j: nat, o: nat, len: nat)
    requires v.Valid() && j < n && o + len <= SECTOR
    ensures Sectors(v, lba, n)[SECTOR * j + o..SECTOR * j + o + len] == Sectors(v, lba + j, 1)[o..o + len]
  {
    hide Sectors;
    SectorsSplit(v, lba, j, n - j);
    SectorsSplit(v, lba + j, 1, n - j - 1);
    var x, y, z := Sectors(v, lba, j), Sectors(v, lba + j, 1), Sectors(v, lba + j + 1, n - j - 1);
    assert (x + (y + z))[|x| + o..|x| + o + len] == y[o..o + len];
  }

  // What the kernel and the boot loader read for the inode at an index of a table.
  function KernelRaw(v: Volume, g: Geometry, table: nat, index: nat): (raw: seq<Byte>)
    requires v.Valid() && WfGeometry(v, g)
    ensures |raw| == RAW
  {
    NoStraddle(v, g, index);
    var o := KernelOffset(v, g, index);
    Sectors(v, v.start + KernelSector(v, g, table, index), v.spb)[o..o + RAW]
  }

  function LoaderRaw(v: Volume, g: Geometry, table: nat, index: nat): (raw: seq<Byte>)
    requires v.Valid() && WfGeometry(v, g)
    ensures |raw| == RAW
  {
    NoStraddle(v, g, index);
    var o := LoaderOffset(g, index);
    Sectors(v, LoaderSector(v, g, table, index), 1)[o..o + RAW]
  }

  lemma SectorWithin(lba: nat, spb: nat, o: nat, s: nat, p: nat, size: nat)
    requires SECTOR * lba + o == SECTOR * s + p && o + size <= SECTOR * spb && p + size <= SECTOR && size > 0
    ensures lba <= s < lba + spb && o == SECTOR * (s - lba) + p
  {
  }

  // They read the same inode.
  lemma SameInode(v: Volume, g: Geometry, table: nat, index: nat)
    requires v.Valid() && WfGeometry(v, g) && Placed(v, g, table, index)
    ensures KernelRaw(v, g, table, index) == LoaderRaw(v, g, table, index)
  {
    SameAddress(v, g, table, index);
    NoStraddle(v, g, index);
    hide Sectors, KernelSector, LoaderSector, KernelOffset, LoaderOffset, KernelBlock, Placed;
    var lba := v.start + KernelSector(v, g, table, index);
    var o := KernelOffset(v, g, index);
    var p := LoaderOffset(g, index);
    var j := LoaderSector(v, g, table, index) - lba;
    SectorWithin(lba, v.spb, o, LoaderSector(v, g, table, index), p, g.inodeSize);
    ThroughSector(v, lba, v.spb, j, p, RAW);
  }

  // ---------------------------------------------------------- group descriptors

  // The inode table of a group, as the kernel finds it in the descriptor table ...
  function KernelTable(v: Volume, g: Geometry, group: nat): nat
    requires v.Valid() && WfGeometry(v, g)
  {
    var n := DESCRIPTOR * (group + 1) / SECTOR + 1;
    Le32(Sectors(v, v.start + (g.firstData + 1) * v.spb, n), DESCRIPTOR * group + 8)
  }

  // ... and as the boot loader finds it in the sector of the descriptor.
  function LoaderTable(v: Volume, group: nat): nat
    requires v.Valid()
  {
    var lba := v.start + (3 / v.spb + 1) * v.spb;
    Le32(Sectors(v, lba + DESCRIPTOR * group / SECTOR, 1), DESCRIPTOR * group % SECTOR + 8)
  }

  lemma SameTable(v: Volume, g: Geometry, group: nat)
    requires v.Valid() && WfGeometry(v, g)
    ensures KernelTable(v, g, group) == LoaderTable(v, group)
  {
    hide Sectors, Le32;
    var n := DESCRIPTOR * (group + 1) / SECTOR + 1;
    var j, o := DESCRIPTOR * group / SECTOR, DESCRIPTOR * group % SECTOR;
    var lba := v.start + (g.firstData + 1) * v.spb;
    DescriptorFits(group);
    ThroughSector(v, lba, n, j, o + 8, 4);
    SameLe32(Sectors(v, lba, n), DESCRIPTOR * group + 8, Sectors(v, lba + j, 1), o + 8);
  }

  // A descriptor does not straddle a sector.
  lemma DescriptorFits(group: nat)
    ensures DESCRIPTOR * group % SECTOR + DESCRIPTOR <= SECTOR
    ensures DESCRIPTOR * group == SECTOR * (DESCRIPTOR * group / SECTOR) + DESCRIPTOR * group % SECTOR
    ensures DESCRIPTOR * group / SECTOR < DESCRIPTOR * (group + 1) / SECTOR + 1
  {
  }

  lemma SameLe32(a: seq<Byte>, x: nat, b: seq<Byte>, y: nat)
    requires x + 4 <= |a| && y + 4 <= |b| && a[x..x + 4] == b[y..y + 4]
    ensures Le32(a, x) == Le32(b, y)
  {
    var p, q := a[x..x + 4], b[y..y + 4];
    assert p[0] == a[x] && p[1] == a[x + 1] && p[2] == a[x + 2] && p[3] == a[x + 3];
    assert q[0] == b[y] && q[1] == b[y + 1] && q[2] == b[y + 2] && q[3] == b[y + 3];
  }

  // So for every valid inode number both read the same bytes.
  lemma SameInodeBytes(v: Volume, g: Geometry, ino: nat)
    requires v.Valid() && WfGeometry(v, g) && ValidIno(g, ino)
    requires Placed(v, g, KernelTable(v, g, Group(g, ino)), Index(g, ino))
    ensures KernelRaw(v, g, KernelTable(v, g, Group(g, ino)), Index(g, ino))
            == LoaderRaw(v, g, LoaderTable(v, Group(g, ino)), Index(g, ino))
  {
    hide KernelRaw, LoaderRaw, KernelTable, LoaderTable, Placed;
    SameTable(v, g, Group(g, ino));
    SameInode(v, g, LoaderTable(v, Group(g, ino)), Index(g, ino));
  }
}
