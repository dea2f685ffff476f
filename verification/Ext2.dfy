// Files of an ext2 volume: which byte of which block a file offset means.
module Ext2 {
  import opened Base

  newtype Byte = x: int | 0 <= x < 256

  const SECTOR: nat := 512
  const DIRECT: nat := 12
  const U32: nat := 0x1_0000_0000

  // A partition: its first sector, sectors per block, number of blocks, and the
  // contents of every sector of the disk.
  datatype Volume = Volume(start: nat, spb: nat, blocks: nat, sector: nat -> seq<Byte>) {
    function BlockSize(): nat { SECTOR * spb }

    // Block pointers in one block.
    function PerBlock(): nat { 128 * spb }

    // All sectors are whole, and no sector number of the volume overflows 32 bits.
    ghost predicate Valid() {
      && spb > 0 && start + blocks * spb < U32
      && forall l :: |sector(l)| == SECTOR
    }
  }

  function Sectors(v: Volume, lba: nat, n: nat): (s: seq<Byte>)
    requires v.Valid()
    ensures |s| == SECTOR * n
  {
    if n == 0 then [] else Sectors(v, lba, n - 1) + v.sector(lba + n - 1)
  }

  lemma {:induction false} SectorsSplit(v: Volume, lba: nat, m: nat, n: nat)
    requires v.Valid()
    ensures Sectors(v, lba, m + n) == Sectors(v, lba, m) + Sectors(v, lba + m, n)
  {
    if n > 0 { SectorsSplit(v, lba, m, n - 1); }
  }

  function Block(v: Volume, b: nat): (s: seq<Byte>)
    requires v.Valid()
    ensures |s| == v.BlockSize()
  {
    Sectors(v, v.start + b * v.spb, v.spb)
  }

  // A 32-bit little-endian number.
  function Le32(b: seq<Byte>, o: nat): (n: nat)
    requires o + 4 <= |b|
    ensures n < U32
  {
    b[o] as nat + 0x100 * b[o + 1] as nat + 0x1_0000 * b[o + 2] as nat + 0x100_0000 * b[o + 3] as nat
  }

  // Pointer i of a block of pointers.
  function PtrAt(v: Volume, block: nat, i: nat): nat
    requires v.Valid() && i < v.PerBlock()
  {
    Le32(Block(v, block), 4 * i)
  }

  // ------------------------------------------------------------------ inodes

  datatype Inode = Inode(direct: seq<nat>, singly: nat, doubly: nat, size: nat)

  predicate WfInode(i: Inode) { |i.direct| == DIRECT }

  // The fields at their offsets in the on-disk structure.
  function ParseInode(raw: seq<Byte>): (i: Inode)
    requires |raw| >= 128
    ensures WfInode(i)
  {
    Inode(seq(DIRECT, k requires 0 <= k < DIRECT => Le32(raw, 40 + 4 * k)), Le32(raw, 88), Le32(raw, 92),
          Le32(raw, 4) + U32 * Le32(raw, 108))
  }

  // ------------------------------------------------- from file block to block

  // First and second index of a doubly indirect block.
  function Outer(v: Volume, x: nat): (q: nat)
    requires v.Valid() && x < v.PerBlock() * v.PerBlock()
    ensures q < v.PerBlock()
  {
    OuterSmall(x, v.PerBlock());
    Quot(x, v.PerBlock())
  }

  lemma OuterSmall(x: nat, p: nat)
    requires p > 0 && x < p * p
    ensures Quot(x, p) < p
  {
    var q := Quot(x, p);
    QuotRem(x, p);
    if q > p { MulOrder(p, p, q); }
  }

  function Inner(v: Volume, x: nat): (r: nat)
    requires v.Valid()
    ensures r < v.PerBlock()
  {
    Rem(x, v.PerBlock())
  }

  // The pointer behind doubly indirect block d; a zero pointer in it is a hole.
  function DoublyPtr(v: Volume, d: nat, x: nat): nat
    requires v.Valid() && x < v.PerBlock() * v.PerBlock()
  {
    var s := PtrAt(v, d, Outer(v, x));
    if s == 0 then 0 else PtrAt(v, s, Inner(v, x))
  }

  // File blocks reached without a doubly indirect block, and with one.
  function SinglyEnd(v: Volume): nat { DIRECT + v.PerBlock() }

  function DoublyEnd(v: Volume): nat { SinglyEnd(v) + v.PerBlock() * v.PerBlock() }

  // The meaning of an inode: a zero pointer at any level is a hole.
  function FilePtr(v: Volume, i: Inode, n: nat): nat
    requires v.Valid() && WfInode(i)
  {
    if n < DIRECT then i.direct[n]
    else if n < SinglyEnd(v) then if i.singly == 0 then 0 else PtrAt(v, i.singly, n - DIRECT)
    else if n < DoublyEnd(v) then if i.doubly == 0 then 0 else DoublyPtr(v, i.doubly, n - SinglyEnd(v))
    else 0
  }

  // The pointer that the kernel's reader follows: the indirect block is not
  // checked for zero, and there is nothing beyond it.
  function KernelPtr(v: Volume, i: Inode, n: nat): nat
    requires v.Valid() && WfInode(i)
  {
    if n < DIRECT then i.direct[n]
    else if n < SinglyEnd(v) then PtrAt(v, i.singly, n - DIRECT)
    else 0
  }

  // The pointer that the boot loader follows: indirect roots are not checked for zero.
  function LoaderPtr(v: Volume, i: Inode, n: nat): nat
    requires v.Valid() && WfInode(i)
  {
    if n < DIRECT then i.direct[n]
    else if n < SinglyEnd(v) then PtrAt(v, i.singly, n - DIRECT)
    else if n < DoublyEnd(v) then DoublyPtr(v, i.doubly, n - SinglyEnd(v))
    else 0
  }

  // The kernel follows the right pointer exactly where no indirect block is
  // needed, where the indirect block exists or block 0 happens to hold a zero in
  // its place, and beyond its reach where the file has a hole.
  lemma KernelPtrIff(v: Volume, i: Inode, n: nat)
    requires v.Valid() && WfInode(i)
    ensures KernelPtr(v, i, n) == FilePtr(v, i, n) <==>
            if n < DIRECT then true
            else if n < SinglyEnd(v) then i.singly != 0 || PtrAt(v, 0, n - DIRECT) == 0
            else n >= DoublyEnd(v) || i.doubly == 0 || DoublyPtr(v, i.doubly, n - SinglyEnd(v)) == 0
  {
    hide PtrAt, DoublyPtr;
  }

  // The boot loader does exactly where the roots it needs exist or block 0
  // happens to lead to a zero in their place.
  lemma LoaderPtrIff(v: Volume, i: Inode, n: nat)
    requires v.Valid() && WfInode(i)
    ensures LoaderPtr(v, i, n) == FilePtr(v, i, n) <==>
            if n < DIRECT then true
            else if n < SinglyEnd(v) then i.singly != 0 || PtrAt(v, 0, n - DIRECT) == 0
            else n >= DoublyEnd(v) || i.doubly != 0 || DoublyPtr(v, 0, n - SinglyEnd(v)) == 0
  {
    hide PtrAt, DoublyPtr;
  }

  // ------------------------------------------------------------ file contents

  // One byte of a block reached through pointer b.
  function ByteOf(v: Volume, b: nat, o: nat): Byte
    requires v.Valid() && o < v.BlockSize()
  {
    if b == 0 then 0 else Block(v, b)[o]
  }

  function Ptr(v: Volume, i: Inode, n: nat, who: Reader): nat
    requires v.Valid() && WfInode(i)
  {
    match who
    case Meaning => FilePtr(v, i, n)
    case KernelReader => KernelPtr(v, i, n)
    case BootLoader => LoaderPtr(v, i, n)
  }

  datatype Reader = Meaning | KernelReader | BootLoader

  // Block and offset of a byte of a file.
  function BlockNo(v: Volume, k: nat): nat
    requires v.Valid()
  {
    Quot(k, v.BlockSize())
  }

  function Offset(v: Volume, k: nat): (o: nat)
    requires v.Valid()
    ensures o < v.BlockSize()
  {
    Rem(k, v.BlockSize())
  }

  function ByteAt(v: Volume, i: Inode, k: nat, who: Reader): Byte
    requires v.Valid() && WfInode(i)
  {
    ByteOf(v, Ptr(v, i, BlockNo(v, k), who), Offset(v, k))
  }

  // The bytes [from, to) of a file.
  function Slice(v: Volume, i: Inode, from: nat, to: nat, who: Reader): (s: seq<Byte>)
    requires v.Valid() && WfInode(i) && from <= to
    ensures |s| == to - from
    ensures forall k :: 0 <= k < |s| ==> s[k] == ByteAt(v, i, from + k, who)
  {
    seq(to - from, k requires 0 <= k < to - from => ByteAt(v, i, from + k, who))
  }

  lemma SliceJoin(v: Volume, i: Inode, a: nat, b: nat, c: nat, who: Reader)
    requires v.Valid() && WfInode(i) && a <= b <= c
    ensures Slice(v, i, a, b, who) + Slice(v, i, b, c, who) == Slice(v, i, a, c, who)
  {
    hide ByteAt;
    var s, t, u := Slice(v, i, a, b, who), Slice(v, i, b, c, who), Slice(v, i, a, c, who);
    forall k | 0 <= k < c - a ensures (s + t)[k] == u[k] {
      if k >= b - a { assert t[k - (b - a)] == ByteAt(v, i, b + (k - (b - a)), who); }
    }
  }

  // Part of one block.
  function Piece(v: Volume, b: nat, o: nat, n: nat): (s: seq<Byte>)
    requires v.Valid() && o + n <= v.BlockSize()
    ensures |s| == n && forall k :: 0 <= k < n ==> s[k] == ByteOf(v, b, o + k)
  {
    if b == 0 then seq(n, _ => 0) else Block(v, b)[o..o + n]
  }

  // A stretch inside file block n is that part of the block it points to.
  lemma SliceIsPiece(v: Volume, i: Inode, n: nat, o: nat, len: nat, who: Reader)
    requires v.Valid() && WfInode(i) && o + len <= v.BlockSize()
    ensures Slice(v, i, n * v.BlockSize() + o, n * v.BlockSize() + o + len, who) == Piece(v, Ptr(v, i, n, who), o, len)
  {
    hide Ptr, ByteOf;
    var bs := v.BlockSize();
    var s := Slice(v, i, n * bs + o, n * bs + o + len, who);
    forall k | 0 <= k < len ensures s[k] == ByteOf(v, Ptr(v, i, n, who), o + k) {
      DivModUnique(n * bs + o + k, bs, n, o + k);
    }
  }

  // Readers that follow the same pointers deliver the same bytes.
  lemma SameSlices(v: Volume, i: Inode, from: nat, to: nat, a: Reader, b: Reader)
    requires v.Valid() && WfInode(i) && from <= to
    requires forall k :: from <= k < to ==> Ptr(v, i, BlockNo(v, k), a) == Ptr(v, i, BlockNo(v, k), b)
    ensures Slice(v, i, from, to, a) == Slice(v, i, from, to, b)
  {
    hide Ptr, ByteOf;
    forall k | 0 <= k < to - from ensures Slice(v, i, from, to, a)[k] == Slice(v, i, from, to, b)[k] {
      assert from <= from + k < to;
    }
  }

  // ------------------------------------------------------------- zero roots

  // A sector of one number, repeated.
  function Filled(x: Byte): (s: seq<Byte>)
    ensures |s| == SECTOR && forall k :: 0 <= k < SECTOR ==> s[k] == x
  {
    seq(SECTOR, _ => x)
  }

  // A volume of 1 KiB blocks: block 0 begins with the number 20, block 20 holds
  // ones, everything else is zero.
  function TrapSector(l: nat): (s: seq<Byte>)
    ensures |s| == SECTOR
  {
    if l == 0 then Filled(0)[0 := 20] else if l == 40 || l == 41 then Filled(1) else Filled(0)
  }

  function TrapVolume(): Volume { Volume(0, 2, 100, TrapSector) }

  // A file of 13 blocks that are all holes.
  function HollowFile(): (i: Inode)
    ensures WfInode(i)
  {
    Inode(seq(DIRECT, _ => 0), 0, 0, 13 * 1024)
  }

  lemma TwoSectors(v: Volume, b: nat)
    requires v.Valid() && v.spb == 2
    ensures Block(v, b) == v.sector(v.start + 2 * b) + v.sector(v.start + 2 * b + 1)
  {
    var l := v.start + 2 * b;
    assert Sectors(v, l, 1) == v.sector(l) by { assert Sectors(v, l, 0) == []; }
    assert Sectors(v, l, 2) == Sectors(v, l, 1) + v.sector(l + 1);
  }

  lemma TrapBlocks()
    ensures TrapVolume().Valid() && PtrAt(TrapVolume(), 0, 0) == 20 && Block(TrapVolume(), 20)[0] == 1
    ensures forall k :: 0 < k < 256 ==> PtrAt(TrapVolume(), 0, k) == 0
  {
    var v := TrapVolume();
    assert v.Valid();
    TwoSectors(v, 0);
    TwoSectors(v, 20);
    assert forall k :: 4 <= k < 1024 ==> Block(v, 0)[k] == 0;
  }

  // Both readers take the last block of that file from block 20, which is not its own.
  lemma ZeroRootIsFollowed()
    ensures var v, i := TrapVolume(), HollowFile();
            && v.Valid() && 12 * 1024 < i.size
            && Slice(v, i, 12 * 1024, 12 * 1024 + 1, Meaning) == [0]
            && Slice(v, i, 12 * 1024, 12 * 1024 + 1, KernelReader) == [1]
            && Slice(v, i, 12 * 1024, 12 * 1024 + 1, BootLoader) == [1]
            && forall n :: 0 <= n < 13 ==> KernelPtr(v, i, n) < v.blocks && LoaderPtr(v, i, n) < v.blocks
  {
    var v, i := TrapVolume(), HollowFile();
    TrapBlocks();
    hide Block, PtrAt;
    DivModUnique(12 * 1024, 1024, 12, 0);
    assert BlockNo(v, 12 * 1024) == 12 && Offset(v, 12 * 1024) == 0;
  }

  // Beyond the singly indirect blocks the kernel reads zeros.
  lemma BeyondIsZero(v: Volume, i: Inode, from: nat, to: nat)
    requires v.Valid() && WfInode(i) && SinglyEnd(v) * v.BlockSize() <= from <= to
    ensures Slice(v, i, from, to, KernelReader) == seq(to - from, _ => 0)
  {
    hide PtrAt, Block;
    assert v.BlockSize() * SinglyEnd(v) == SinglyEnd(v) * v.BlockSize();
    forall k | from <= k < to ensures ByteAt(v, i, k, KernelReader) == 0 {
      QuotRem(k, v.BlockSize());
      if BlockNo(v, k) < SinglyEnd(v) { MulOrder(v.BlockSize(), BlockNo(v, k), SinglyEnd(v)); }
    }
  }
}
