// The boot loader's own ext2 reader (arch/x86_64/boot/loadkernel.c).
module Loader {
  import opened Base
  import opened Ext2
  import opened Ext2File

  const TEMP_SECTORS: nat := 8          // TEMP_BUF_SIZE / SECTOR_SIZE
  const LOAD_DEST: nat := 0x100_0000

  // The pointers that loading size bytes follows lie on the volume.
  ghost predicate Loadable(v: Volume, i: Inode, size: nat)
    requires v.Valid() && WfInode(i)
  {
    && (size > DIRECT * v.BlockSize() ==> i.singly < v.blocks)
    && (size > SinglyEnd(v) * v.BlockSize() ==> i.doubly < v.blocks)
    && (forall j ::
          0 <= j < v.PerBlock() && DoublyBlock(v, j) * v.BlockSize() < size ==> PtrAt(v, i.doubly, j) < v.blocks)
    && (forall n {:trigger LoaderPtr(v, i, n)} ::
          0 <= n < DoublyEnd(v) && n * v.BlockSize() < size ==> LoaderPtr(v, i, n) < v.blocks)
  }

  // An image of direct blocks needs no more, whatever block 0 holds.
  lemma SmallLoadable(v: Volume, i: Inode, size: nat)
    requires v.Valid() && WfInode(i) && size <= DIRECT * v.BlockSize()
    requires forall k :: 0 <= k < DIRECT ==> i.direct[k] < v.blocks
    ensures Loadable(v, i, size)
  {
    hide LoaderPtr, PtrAt, DoublyEnd;
    RegionsInOrder(v);
    forall n | 0 <= n < DoublyEnd(v) && n * v.BlockSize() < size ensures LoaderPtr(v, i, n) < v.blocks {
      NotBeyond(v, size, n);
      DirectPtrs(v, i);
      assert i.direct[n] == LoaderPtr(v, i, 0 + n);
    }
    forall j | 0 <= j < v.PerBlock() ensures DoublyBlock(v, j) * v.BlockSize() >= size {
      FarBlock(v, j);
      BlocksInOrder(v.BlockSize(), DIRECT, DoublyBlock(v, j));
    }
  }

  lemma FarBlock(v: Volume, j: nat)
    ensures DoublyBlock(v, j) >= DIRECT
  {
    MulPositive(j, v.PerBlock());
  }

  lemma NotBeyond(v: Volume, size: nat, n: nat)
    requires size <= DIRECT * v.BlockSize() && n * v.BlockSize() < size
    ensures n < DIRECT
  {
    if n >= DIRECT { BlocksInOrder(v.BlockSize(), DIRECT, n); }
  }

  // So do those behind the first left bytes of a list of blocks.
  predicate OnVolume(v: Volume, ptrs: seq<nat>, left: nat) {
    forall j :: 0 <= j < |ptrs| && j * v.BlockSize() < left ==> ptrs[j] < v.blocks
  }

  lemma LbaFits(v: Volume, b: nat)
    requires v.Valid() && b < v.blocks
    ensures var lba := (v.start + (b * v.spb) % U32) % U32; lba == v.start + b * v.spb && lba + v.spb < U32
  {
    SectorFits(v, b);
    MulOrder(v.spb, b, v.blocks);
    assert v.spb * b == b * v.spb && v.spb * v.blocks == v.blocks * v.spb;
  }

  // Byte k of the data behind a list of block pointers.
  function DataByte(v: Volume, ptrs: seq<nat>, k: nat): Byte
    requires v.Valid() && BlockNo(v, k) < |ptrs|
  {
    ByteOf(v, ptrs[BlockNo(v, k)], Offset(v, k))
  }

  lemma BlockOf(v: Volume, i: nat, o: nat)
    requires v.Valid() && o < v.BlockSize()
    ensures BlockNo(v, i * v.BlockSize() + o) == i && Offset(v, i * v.BlockSize() + o) == o
  {
    assert v.BlockSize() * i == i * v.BlockSize();
    DivModUnique(i * v.BlockSize() + o, v.BlockSize(), i, o);
  }

  // The first n bytes behind the pointers have been written at `at`.
  ghost predicate Written(v: Volume, ptrs: seq<nat>, mem: seq<Byte>, at: nat, n: nat)
    requires v.Valid() && at + n <= |mem| && n <= |ptrs| * v.BlockSize()
  {
    forall k :: 0 <= k < n ==> BlockNo(v, k) < |ptrs| && mem[at + k] == DataByte(v, ptrs, k)
  }

  // One more block, or its beginning.
  lemma WrittenStep(v: Volume, ptrs: seq<nat>, mem: seq<Byte>, m: seq<Byte>, at: nat, i: nat, n: nat)
    requires v.Valid() && i < |ptrs| && n <= v.BlockSize() && at + i * v.BlockSize() + n <= |mem| == |m|
    requires i * v.BlockSize() <= |ptrs| * v.BlockSize() && i * v.BlockSize() + n <= |ptrs| * v.BlockSize()
    requires Written(v, ptrs, mem, at, i * v.BlockSize())
    requires forall k :: 0 <= k < at + i * v.BlockSize() ==> m[k] == mem[k]
    requires forall k :: 0 <= k < n ==> m[at + i * v.BlockSize() + k] == ByteOf(v, ptrs[i], k)
    ensures Written(v, ptrs, m, at, i * v.BlockSize() + n)
  {
    var b := i * v.BlockSize();
    forall k | 0 <= k < b + n ensures BlockNo(v, k) < |ptrs| && m[at + k] == DataByte(v, ptrs, k) {
      hide ByteOf, BlockNo, Offset;
      if k >= b {
        BlockOf(v, i, k - b);
        assert m[at + b + (k - b)] == ByteOf(v, ptrs[i], k - b);
      } else {
        assert m[at + k] == mem[at + k];
      }
    }
  }

  lemma AddBlocks(m: nat, n: nat, bs: nat)
    ensures (m + n) * bs == m * bs + n * bs
  {
  }

  lemma BlocksFit(bs: nat, i: nat, n: nat)
    requires i < n
    ensures i * bs + bs <= n * bs && (i + 1) * bs == i * bs + bs
  {
    if bs > 0 { MulOrder(bs, i, n); }
    assert bs * i == i * bs && bs * n == n * bs && bs * (i + 1) == (i + 1) * bs;
  }

  // ------------------------------------------------------ the file in memory

  // The part of a file of this size that three levels of pointers reach.
  function Reachable(v: Volume, size: nat): (n: nat)
    ensures n <= size
  {
    MulPositive(DoublyEnd(v), v.BlockSize());
    Min(size, DoublyEnd(v) * v.BlockSize())
  }

  // The first n bytes of the file are in memory.
  ghost predicate Loaded(v: Volume, i: Inode, mem: seq<Byte>, n: nat)
    requires v.Valid() && WfInode(i)
  {
    n <= |mem| && forall k :: 0 <= k < n ==> mem[k] == ByteAt(v, i, k, Ext2.BootLoader)
  }

  // ptrs are the pointers of the file blocks from m on.
  ghost predicate PtrsFrom(v: Volume, i: Inode, m: nat, ptrs: seq<nat>)
    requires v.Valid() && WfInode(i)
  {
    forall t :: 0 <= t < |ptrs| ==> ptrs[t] == LoaderPtr(v, i, m + t)
  }

  lemma LoadedRun(v: Volume, i: Inode, mem: seq<Byte>, new_: seq<Byte>, m: nat, ptrs: seq<nat>, n: nat)
    requires v.Valid() && WfInode(i) && PtrsFrom(v, i, m, ptrs) && |mem| == |new_|
    requires n <= |ptrs| * v.BlockSize() && m * v.BlockSize() + n <= |new_|
    requires Loaded(v, i, mem, m * v.BlockSize()) && Written(v, ptrs, new_, m * v.BlockSize(), n)
    requires forall k :: 0 <= k < m * v.BlockSize() ==> new_[k] == mem[k]
    ensures Loaded(v, i, new_, m * v.BlockSize() + n)
  {
    var b := m * v.BlockSize();
    forall k | 0 <= k < b + n ensures new_[k] == ByteAt(v, i, k, Ext2.BootLoader) {
      hide ByteOf, BlockNo, Offset, LoaderPtr;
      if k >= b {
        ShiftBlock(v, m, k - b);
        assert new_[b + (k - b)] == DataByte(v, ptrs, k - b);
      }
    }
  }

  lemma ShiftBlock(v: Volume, m: nat, k: nat)
    requires v.Valid()
    ensures BlockNo(v, m * v.BlockSize() + k) == m + BlockNo(v, k) && Offset(v, m * v.BlockSize() + k) == Offset(v, k)
  {
    var bs := v.BlockSize();
    QuotRem(k, bs);
    assert m * bs + k == bs * (m + Quot(k, bs)) + Rem(k, bs);
    DivModUnique(m * bs + k, bs, m + Quot(k, bs), Rem(k, bs));
  }

  // Pointers of the three regions of a file.
  lemma DirectPtrs(v: Volume, i: Inode)
    requires v.Valid() && WfInode(i)
    ensures PtrsFrom(v, i, 0, i.direct)
  {
  }

  lemma SinglyPtrs(v: Volume, i: Inode)
    requires v.Valid() && WfInode(i)
    ensures PtrsFrom(v, i, DIRECT, Table(v, i.singly))
  {
    hide PtrAt;
  }

  // First file block behind pointer j of the doubly indirect block.
  function DoublyBlock(v: Volume, j: nat): nat { SinglyEnd(v) + j * v.PerBlock() }

  lemma DoublyIndices(v: Volume, j: nat, t: nat)
    requires v.Valid() && j < v.PerBlock() && t < v.PerBlock()
    ensures j * v.PerBlock() + t < v.PerBlock() * v.PerBlock()
    ensures Outer(v, j * v.PerBlock() + t) == j && Inner(v, j * v.PerBlock() + t) == t
    ensures DoublyBlock(v, j) + t < DoublyEnd(v)
  {
    var p := v.PerBlock();
    MulOrder(p, j, p);
    assert p * j == j * p;
    DivModUnique(j * p + t, p, j, t);
  }

  lemma DoublyPtrs(v: Volume, i: Inode, j: nat)
    requires v.Valid() && WfInode(i) && j < v.PerBlock() && PtrAt(v, i.doubly, j) != 0
    ensures PtrsFrom(v, i, DoublyBlock(v, j), Table(v, PtrAt(v, i.doubly, j)))
  {
    hide PtrAt, Outer, Inner, DoublyBlock, LoaderPtr;
    var ptrs := Table(v, PtrAt(v, i.doubly, j));
    forall t | 0 <= t < |ptrs| ensures ptrs[t] == LoaderPtr(v, i, DoublyBlock(v, j) + t) { PtrBehind(v, i, j, t); }
  }

  lemma PtrBehind(v: Volume, i: Inode, j: nat, t: nat)
    requires v.Valid() && WfInode(i) && j < v.PerBlock() && t < v.PerBlock()
    ensures var s := PtrAt(v, i.doubly, j);
            LoaderPtr(v, i, DoublyBlock(v, j) + t) == if s == 0 then 0 else PtrAt(v, s, t)
  {
    hide PtrAt, Outer, Inner, DoublyEnd;
    DoublyIndices(v, j, t);
    assert DoublyBlock(v, j) + t - SinglyEnd(v) == j * v.PerBlock() + t;
    MulPositive(j, v.PerBlock());
  }

  // A hole at the first level of the doubly indirect block.
  lemma HoleLoaded(v: Volume, i: Inode, mem: seq<Byte>, new_: seq<Byte>, j: nat, n: nat)
    requires v.Valid() && WfInode(i) && j < v.PerBlock() && PtrAt(v, i.doubly, j) == 0 && |mem| == |new_|
    requires n <= v.PerBlock() * v.BlockSize() && DoublyBlock(v, j) * v.BlockSize() + n <= |new_|
    requires Loaded(v, i, mem, DoublyBlock(v, j) * v.BlockSize())
    requires forall k :: 0 <= k < DoublyBlock(v, j) * v.BlockSize() ==> new_[k] == mem[k]
    requires forall k :: DoublyBlock(v, j) * v.BlockSize() <= k < DoublyBlock(v, j) * v.BlockSize() + n ==> new_[k] == 0
    ensures Loaded(v, i, new_, DoublyBlock(v, j) * v.BlockSize() + n)
  {
    hide DoublyBlock, ByteAt;
    var b := DoublyBlock(v, j) * v.BlockSize();
    forall k | 0 <= k < b + n ensures new_[k] == ByteAt(v, i, k, Ext2.BootLoader) {
      if k >= b { HoleByte(v, i, j, k - b); }
    }
  }

  lemma HoleByte(v: Volume, i: Inode, j: nat, o: nat)
    requires v.Valid() && WfInode(i) && j < v.PerBlock() && PtrAt(v, i.doubly, j) == 0
    requires o < v.PerBlock() * v.BlockSize()
    ensures ByteAt(v, i, DoublyBlock(v, j) * v.BlockSize() + o, Ext2.BootLoader) == 0
  {
    hide PtrAt, Outer, Inner, BlockNo, Offset;
    ShiftBlock(v, DoublyBlock(v, j), o);
    BlockBelow(v, o, v.PerBlock());
    HolePtr(v, i, j, BlockNo(v, o));
  }

  lemma HolePtr(v: Volume, i: Inode, j: nat, t: nat)
    requires v.Valid() && WfInode(i) && j < v.PerBlock() && PtrAt(v, i.doubly, j) == 0 && t < v.PerBlock()
    ensures LoaderPtr(v, i, DoublyBlock(v, j) + t) == 0
  {
    hide PtrAt, LoaderPtr, DoublyBlock;
    PtrBehind(v, i, j, t);
  }

  // Bytes past the file are left alone, unless its last block is a hole: then the
  // rest of that block is zeroed.
  ghost predicate TailOk(v: Volume, i: Inode, old_: seq<Byte>, mem: seq<Byte>, size: nat)
    requires v.Valid() && WfInode(i)
  {
    && |mem| == |old_|
    && forall k :: size <= k < |mem| ==>
         mem[k] == old_[k] || (mem[k] == 0 && k < size + v.BlockSize() && LoaderPtr(v, i, BlockNo(v, size)) == 0)
  }

  class BootLoader {
    const v: Volume               // v.start is pstart
    const dest: array<Byte>       // memory from the load address on
    var brk: nat
    var remaining: nat

    ghost predicate Valid()
      reads this
    {
      v.Valid() && dest.Length + LOAD_DEST <= U32
    }

    constructor (v: Volume, dest: array<Byte>, brk: nat, remaining: nat)
      requires v.Valid() && dest.Length + LOAD_DEST <= U32
      ensures Valid() && this.v == v && this.dest == dest && this.brk == brk && this.remaining == remaining
    {
      this.v, this.dest, this.brk, this.remaining := v, dest, brk, remaining;
    }

    // The bump allocator; None is NULL.
    method Malloc(size: nat) returns (p: Option<nat>)
      modifies this`brk, this`remaining
      ensures p.Some? <==> size <= old(remaining)
      ensures p.Some? ==> p.value == old(brk) && brk == old(brk) + size && remaining == old(remaining) - size
      ensures p.None? ==> brk == old(brk) && remaining == old(remaining)
    {
      if size <= remaining {
        brk := brk + size;
        remaining := remaining - size;
        return Some(brk - size);
      }
      return None;
    }

    method Free(size: nat)
      requires size <= brk
      modifies this`brk, this`remaining
      ensures brk == old(brk) - size && remaining == old(remaining) + size
    {
      remaining := remaining + size;
      brk := brk - size;
    }

    // Reads sectors through the 4 KiB bounce buffer.
    method Read(lba: nat, sectors: nat) returns (buf: seq<Byte>)
      requires v.Valid() && lba + sectors < U32
      ensures buf == Sectors(v, lba, sectors)
    {
      buf := [];
      var at, left := lba, sectors;
      while left > 0
        invariant at + left == lba + sectors && 0 <= left <= sectors
        invariant buf == Sectors(v, lba, sectors - left)
        decreases left
      {
        var n := Min(TEMP_SECTORS, left);
        var temp := Sectors(v, at, n);
        SectorsSplit(v, lba, sectors - left, n);
        buf := buf + temp;
        at := at + n;
        left := left - n;
      }
    }

    // Block b, whose sector number is computed in 32 bits.
    method ReadBlock(b: nat) returns (buf: seq<Byte>)
      requires v.Valid() && b < v.blocks
      ensures buf == Block(v, b)
    {
      LbaFits(v, b);
      buf := Read((v.start + (b * v.spb) % U32) % U32, v.spb);
    }

    // memset and memcpy into the destination.
    method Store(at: nat, s: seq<Byte>)
      requires at + |s| <= dest.Length
      modifies dest
      ensures forall k :: 0 <= k < dest.Length ==> dest[k] == if at <= k < at + |s| then s[k - at] else old(dest[k])
    {
      for j := 0 to |s|
        invariant forall k :: 0 <= k < dest.Length ==> dest[k] == if at <= k < at + j then s[k - at] else old(dest[k])
      {
        dest[at + j] := s[j];
      }
    }

    // One block of load_data: a hole is zeroed as a whole, data is cut at max.
    method LoadBlock(at: nat, ptr: nat, left: nat) returns (n: nat)
      requires Valid() && ptr < v.blocks && left > 0 && at + left + v.BlockSize() <= dest.Length
      modifies dest
      ensures n == if ptr == 0 then v.BlockSize() else Min(v.BlockSize(), left)
      ensures forall k :: 0 <= k < n ==> dest[at + k] == ByteOf(v, ptr, k)
      ensures forall k :: at + left <= k < at + n ==> dest[k] == 0
      ensures forall k :: 0 <= k < dest.Length && !(at <= k < at + n) ==> dest[k] == old(dest[k])
    {
      hide Sectors;
      if ptr == 0 {
        n := v.BlockSize();
        Store(at, seq(n, _ => 0));
      } else {
        var buf := ReadBlock(ptr);
        n := Min(v.BlockSize(), left);
        Store(at, buf[..n]);
      }
    }

    // load_data: the blocks behind the pointers, up to max bytes; the result is
    // how far it got, which exceeds max if the last block is a hole.
    method LoadData(at: nat, ptrs: seq<nat>, max: nat) returns (offset: nat)
      requires Valid() && at + max + v.BlockSize() <= dest.Length && OnVolume(v, ptrs, max)
      modifies dest
      ensures offset <= |ptrs| * v.BlockSize() && offset < max + v.BlockSize()
      ensures offset < max ==> offset == |ptrs| * v.BlockSize()
      ensures offset > max ==> 0 <= BlockNo(v, max) < |ptrs| && ptrs[BlockNo(v, max)] == 0
      ensures Written(v, ptrs, dest[..], at, offset)
      ensures forall k :: at + max <= k < at + offset ==> dest[k] == 0
      ensures forall k :: 0 <= k < dest.Length && !(at <= k < at + offset) ==> dest[k] == old(dest[k])
    {
      hide Written, ByteOf;
      var bs := v.BlockSize();
      offset := 0;
      NothingWritten(v, ptrs, dest[..], at);
      for i := 0 to |ptrs|
        invariant offset <= i * bs <= |ptrs| * bs && offset < max + bs
        invariant offset < max ==> offset == i * bs
        invariant offset > max ==> BlockNo(v, max) < |ptrs| && ptrs[BlockNo(v, max)] == 0
        invariant Written(v, ptrs, dest[..], at, offset)
        invariant forall k :: at + max <= k < at + offset ==> dest[k] == 0
        invariant forall k :: 0 <= k < dest.Length && !(at <= k < at + offset) ==> dest[k] == old(dest[k])
      {
        if offset >= max {
          return;
        }
        BlocksFit(bs, i, |ptrs|);
        ghost var mem := dest[..];
        var n := LoadBlock(at + offset, ptrs[i], max - offset);
        WrittenStep(v, ptrs, mem, dest[..], at, i, n);
        if offset + n > max { BlockOf(v, i, max - offset); }
        offset := offset + n;
      }
    }

    // Progress of loading a file: everything below offset is in memory.
    ghost predicate Stage(i: Inode, old_: seq<Byte>, size: nat, offset: nat)
      reads this, dest
      requires Valid() && WfInode(i)
    {
      && size + v.BlockSize() <= dest.Length && offset < size + v.BlockSize()
      && Loaded(v, i, dest[..], offset) && TailOk(v, i, old_, dest[..], size)
    }

    // load_data for the file blocks from m on.
    method LoadRun(ghost i: Inode, ghost old_: seq<Byte>, size: nat, ghost m: nat, offset: nat, ptrs: seq<nat>)
      returns (next: nat)
      requires Valid() && WfInode(i) && PtrsFrom(v, i, m, ptrs) && offset == m * v.BlockSize() <= size
      requires OnVolume(v, ptrs, size - offset) && Stage(i, old_, size, offset)
      modifies dest
      ensures Stage(i, old_, size, next) && (next < size ==> next == (m + |ptrs|) * v.BlockSize())
      ensures next <= (m + |ptrs|) * v.BlockSize()
    {
      hide Written, PtrsFrom, Loaded, TailOk, BlockNo, ByteOf, OnVolume;
      ghost var mem := dest[..];
      AddBlocks(m, |ptrs|, v.BlockSize());
      var n := LoadData(offset, ptrs, size - offset);
      LoadedRun(v, i, mem, dest[..], m, ptrs, n);
      TailAfterRun(v, i, old_, mem, dest[..], size, m, ptrs, n);
      next := offset + n;
    }

    // A block of pointers, read into a buffer.
    method ReadTable(b: nat) returns (t: seq<nat>)
      requires v.Valid() && b < v.blocks
      ensures t == Table(v, b)
    {
      hide Sectors;
      var buf := ReadBlock(b);
      t := seq(v.PerBlock(), k requires 0 <= k < v.PerBlock() => Le32(buf, 4 * k));
      assert t == Table(v, b);
    }

    // One pointer of the doubly indirect block.
    method LoadDoublyEntry(i: Inode, ghost old_: seq<Byte>, size: nat, offset: nat, d: nat, ghost j: nat)
      returns (next: nat)
      requires Valid() && WfInode(i) && Loadable(v, i, size) && j < v.PerBlock() && d == PtrAt(v, i.doubly, j)
      requires offset == DoublyBlock(v, j) * v.BlockSize() < size && Stage(i, old_, size, offset)
      modifies dest
      ensures Stage(i, old_, size, next) && (next < size ==> next == DoublyBlock(v, j + 1) * v.BlockSize())
    {
      hide PtrsFrom, Stage, PtrAt, LoaderPtr, Table, DoublyBlock;
      NextDoubly(v, j);
      if d == 0 {
        next := LoadHole(i, old_, size, offset, j);
        return;
      }
      DoublyPtrs(v, i, j);
      var ptrs := ReadTable(d);
      DoublyFits(v, j);
      TableOnVolume(v, i, size, DoublyBlock(v, j), ptrs);
      next := LoadRun(i, old_, size, DoublyBlock(v, j), offset, ptrs);
    }

    // A zero pointer there stands for a whole indirect block of holes.
    method LoadHole(ghost i: Inode, ghost old_: seq<Byte>, size: nat, offset: nat, ghost j: nat) returns (next: nat)
      requires Valid() && WfInode(i) && j < v.PerBlock() && PtrAt(v, i.doubly, j) == 0
      requires offset == DoublyBlock(v, j) * v.BlockSize() < size && Stage(i, old_, size, offset)
      modifies dest
      ensures Stage(i, old_, size, next) && (next < size ==> next == DoublyBlock(v, j + 1) * v.BlockSize())
    {
      hide Loaded, TailOk, PtrAt, DoublyBlock;
      NextDoubly(v, j);
      var n := Min(v.PerBlock() * v.BlockSize(), size - offset);
      ghost var mem := dest[..];
      Store(offset, seq(n, _ => 0));
      HoleLoaded(v, i, mem, dest[..], j, n);
      TailKept(v, i, old_, mem, dest[..], size);
      return offset + n;
    }

    // The loop over the doubly indirect block.
    method LoadDoubly(i: Inode, ghost old_: seq<Byte>, size: nat, offset: nat) returns (next: nat)
      requires Valid() && WfInode(i) && Loadable(v, i, size)
      requires offset == SinglyEnd(v) * v.BlockSize() < size && Stage(i, old_, size, offset)
      modifies dest
      ensures Stage(i, old_, size, next) && (next < size ==> next == DoublyEnd(v) * v.BlockSize())
    {
      hide Written, Loaded, TailOk, PtrAt, LoaderPtr;
      var table := ReadTable(i.doubly);
      next := offset;
      for j := 0 to v.PerBlock()
        invariant Stage(i, old_, size, next)
        invariant next < size ==> next == DoublyBlock(v, j) * v.BlockSize()
      {
        if next >= size {
          return;
        }
        next := LoadDoublyEntry(i, old_, size, next, table[j], j);
      }
    }

    // load_kernel_binary: 0, or -1 if the heap cannot hold the buffers it needs.
    method LoadKernelBinary(raw: seq<Byte>) returns (status: int)
      requires Valid() && |raw| >= 128 && Loadable(v, ParseInode(raw), Le32(raw, 4))
      requires Le32(raw, 4) + v.BlockSize() <= dest.Length
      modifies this`brk, this`remaining, dest
      ensures brk == old(brk) && remaining == old(remaining)
      ensures status == if HeapSuffices(v, Le32(raw, 4), remaining) then 0 else -1
      ensures status == 0 ==> Loaded(v, ParseInode(raw), dest[..], Reachable(v, Le32(raw, 4)))
      ensures status == 0 ==> forall k :: 0 <= k < Le32(raw, 4) && BlockNo(v, k) < DoublyEnd(v) ==>
                dest[k] == ByteAt(v, ParseInode(raw), k, Ext2.BootLoader)
      ensures status == 0 && AllPointed(v, ParseInode(raw), Le32(raw, 4)) ==>
                dest[..Le32(raw, 4)] == Slice(v, ParseInode(raw), 0, Le32(raw, 4), Meaning)
      ensures TailOk(v, ParseInode(raw), old(dest[..]), dest[..], Le32(raw, 4))
    {
      hide Loaded, TailOk, Loadable, ParseInode, Le32, DoublyEnd, HeapSuffices, AllPointed, Slice, Reachable;
      hide ByteAt, BlockNo;
      status := LoadInode(ParseInode(raw), Le32(raw, 4));
      if status == 0 { LoadedFile(v, ParseInode(raw), dest[..], Le32(raw, 4)); }
    }

    method LoadInode(i: Inode, size: nat) returns (status: int)
      requires Valid() && WfInode(i) && Loadable(v, i, size) && size + v.BlockSize() <= dest.Length
      modifies this`brk, this`remaining, dest
      ensures brk == old(brk) && remaining == old(remaining)
      ensures status == if HeapSuffices(v, size, remaining) then 0 else -1
      ensures status == 0 ==> Loaded(v, i, dest[..], Reachable(v, size))
      ensures TailOk(v, i, old(dest[..]), dest[..], size)
    {
      hide Loaded, TailOk, Loadable, PtrAt, LoaderPtr, Written, PtrsFrom, DoublyEnd;
      var bs := v.BlockSize();
      ghost var old_ := dest[..];
      NothingLoaded(v, i, old_, size);
      var buf := Malloc(bs);
      if buf.None? {
        return -1;
      }
      DirectPtrs(v, i);
      RegionsInOrder(v);
      TableOnVolume(v, i, size, 0, i.direct);
      var offset := LoadRun(i, old_, size, 0, 0, i.direct);
      if offset >= size {
        LoadedLess(v, i, dest[..], offset, Reachable(v, size));
        Free(bs);
        return 0;
      }
      status := LoadIndirect(i, old_, size, offset);
      Free(bs);
    }

    // The part of load_kernel_binary that needs indirect blocks.
    method LoadIndirect(i: Inode, ghost old_: seq<Byte>, size: nat, start: nat) returns (status: int)
      requires Valid() && WfInode(i) && Loadable(v, i, size) && start == DIRECT * v.BlockSize() < size
      requires Stage(i, old_, size, start)
      modifies this`brk, this`remaining, dest
      ensures brk == old(brk) && remaining == old(remaining)
      ensures status == if HeapSuffices(v, size, remaining + v.BlockSize()) then 0 else -1
      ensures status == 0 ==> Loaded(v, i, dest[..], Reachable(v, size))
      ensures TailOk(v, i, old_, dest[..], size)
    {
      hide Loaded, TailOk, PtrAt, LoaderPtr, Written, PtrsFrom, DoublyEnd;
      RegionsInOrder(v);
      var bs := v.BlockSize();
      var singly := Malloc(bs);
      if singly.None? {
        return -1;
      }
      SinglyPtrs(v, i);
      var ptrs := ReadTable(i.singly);
      TableOnVolume(v, i, size, DIRECT, ptrs);
      var offset := LoadRun(i, old_, size, DIRECT, start, ptrs);
      if offset >= size {
        LoadedLess(v, i, dest[..], offset, Reachable(v, size));
        Free(bs);
        return 0;
      }
      var doubly := Malloc(bs);
      if doubly.None? {
        Free(bs);
        return -1;
      }
      offset := LoadDoubly(i, old_, size, offset);
      LoadedLess(v, i, dest[..], offset, Reachable(v, size));
      Free(2 * bs);
      return 0;
    }
  }

  lemma TailAfterRun(v: Volume, i: Inode, old_: seq<Byte>, mem: seq<Byte>, new_: seq<Byte>, size: nat, m: nat,
                     ptrs: seq<nat>, n: nat)
    requires v.Valid() && WfInode(i) && PtrsFrom(v, i, m, ptrs) && |mem| == |new_| && TailOk(v, i, old_, mem, size)
    requires var b := m * v.BlockSize();
             && b <= size && b + n < size + v.BlockSize()
             && (b + n > size ==> BlockNo(v, size - b) < |ptrs| && ptrs[BlockNo(v, size - b)] == 0)
             && (forall k :: size <= k < b + n && k < |new_| ==> new_[k] == 0)
             && (forall k :: 0 <= k < |new_| && !(b <= k < b + n) ==> new_[k] == mem[k])
    ensures TailOk(v, i, old_, new_, size)
  {
    hide LoaderPtr;
    ShiftBlock(v, m, size - m * v.BlockSize());
  }

  // Loading takes a one-block buffer, and one more for each level of indirection.
  predicate HeapSuffices(v: Volume, size: nat, heap: nat) {
    && v.BlockSize() <= heap
    && (size > DIRECT * v.BlockSize() ==> 2 * v.BlockSize() <= heap)
    && (size > SinglyEnd(v) * v.BlockSize() ==> 3 * v.BlockSize() <= heap)
  }

  lemma RegionsInOrder(v: Volume)
    ensures DIRECT <= SinglyEnd(v) <= DoublyEnd(v)
    ensures DIRECT * v.BlockSize() <= SinglyEnd(v) * v.BlockSize() <= DoublyEnd(v) * v.BlockSize()
  {
    MulPositive(v.PerBlock(), v.PerBlock());
    MulPositive(v.PerBlock() * v.PerBlock(), v.BlockSize());
    MulPositive(v.PerBlock(), v.BlockSize());
    assert DoublyEnd(v) * v.BlockSize() == SinglyEnd(v) * v.BlockSize() + v.PerBlock() * v.PerBlock() * v.BlockSize();
  }

  lemma NextDoubly(v: Volume, j: nat)
    ensures DoublyBlock(v, j + 1) == DoublyBlock(v, j) + v.PerBlock()
    ensures DoublyBlock(v, j + 1) * v.BlockSize() == DoublyBlock(v, j) * v.BlockSize() + v.PerBlock() * v.BlockSize()
  {
  }

  lemma DoublyFits(v: Volume, j: nat)
    requires v.Valid() && j < v.PerBlock()
    ensures DoublyBlock(v, j) + v.PerBlock() <= DoublyEnd(v)
  {
    DoublyIndices(v, j, v.PerBlock() - 1);
  }

  lemma TailKept(v: Volume, i: Inode, old_: seq<Byte>, mem: seq<Byte>, new_: seq<Byte>, size: nat)
    requires v.Valid() && WfInode(i) && TailOk(v, i, old_, mem, size) && |mem| == |new_|
    requires forall k :: size <= k < |mem| ==> new_[k] == mem[k]
    ensures TailOk(v, i, old_, new_, size)
  {
    hide LoaderPtr;
  }

  lemma TableOnVolume(v: Volume, i: Inode, size: nat, m: nat, ptrs: seq<nat>)
    requires v.Valid() && WfInode(i) && Loadable(v, i, size) && PtrsFrom(v, i, m, ptrs)
    requires m + |ptrs| <= DoublyEnd(v) && m * v.BlockSize() <= size
    ensures OnVolume(v, ptrs, size - m * v.BlockSize())
  {
    hide LoaderPtr, DoublyEnd;
    forall j | 0 <= j < |ptrs| && j * v.BlockSize() < size - m * v.BlockSize() ensures ptrs[j] < v.blocks {
      assert (m + j) * v.BlockSize() == m * v.BlockSize() + j * v.BlockSize();
      assert ptrs[j] == LoaderPtr(v, i, m + j);
    }
  }

  lemma NothingLoaded(v: Volume, i: Inode, mem: seq<Byte>, size: nat)
    requires v.Valid() && WfInode(i)
    ensures Loaded(v, i, mem, 0) && TailOk(v, i, mem, mem, size)
  {
  }

  lemma LoadedLess(v: Volume, i: Inode, mem: seq<Byte>, n: nat, m: nat)
    requires v.Valid() && WfInode(i) && Loaded(v, i, mem, n) && m <= n
    ensures Loaded(v, i, mem, m)
  {
  }

  lemma NothingWritten(v: Volume, ptrs: seq<nat>, mem: seq<Byte>, at: nat)
    requires v.Valid() && at <= |mem|
    ensures 0 <= |ptrs| * v.BlockSize() && Written(v, ptrs, mem, at, 0)
  {
    MulPositive(v.BlockSize(), |ptrs|);
  }

  // ------------------------------------------------------------- consequences

  // The file has no more blocks than three levels of pointers name, and the indirect
  // blocks that its size asks for.
  predicate AllPointed(v: Volume, i: Inode, size: nat) {
    var p := v.PerBlock();
    && size <= (12 + p + p * p) * v.BlockSize()
    && (size > 12 * v.BlockSize() ==> i.singly != 0)
    && (size > (12 + p) * v.BlockSize() ==> i.doubly != 0)
  }

  // What has been loaded is every byte that those pointers lead to, and so the file
  // itself where they are all there.
  lemma LoadedFile(v: Volume, i: Inode, mem: seq<Byte>, size: nat)
    requires v.Valid() && WfInode(i) && Loaded(v, i, mem, Reachable(v, size)) && size <= |mem|
    ensures forall k :: 0 <= k < size && BlockNo(v, k) < DoublyEnd(v) ==> mem[k] == ByteAt(v, i, k, Ext2.BootLoader)
    ensures AllPointed(v, i, size) ==> mem[..size] == Slice(v, i, 0, size, Meaning)
  {
    forall k | 0 <= k < size && BlockNo(v, k) < DoublyEnd(v) ensures mem[k] == ByteAt(v, i, k, Ext2.BootLoader) {
      hide BlockNo, ByteAt, DoublyEnd;
      BlockAbove(v, k, DoublyEnd(v));
    }
    if AllPointed(v, i, size) {
      hide Loaded, Slice, ByteAt, BlockNo;
      LoadedIsFile(v, i, mem, size);
    }
  }

  lemma BlockAbove(v: Volume, k: nat, n: nat)
    requires v.Valid() && BlockNo(v, k) < n
    ensures k < n * v.BlockSize()
  {
    QuotRem(k, v.BlockSize());
    MulOrder(v.BlockSize(), BlockNo(v, k), n);
    assert v.BlockSize() * n == n * v.BlockSize();
  }

  // Where the indirect roots it needs are there, the file is loaded as it is.
  lemma LoadedIsFile(v: Volume, i: Inode, mem: seq<Byte>, n: nat)
    requires v.Valid() && WfInode(i) && Loaded(v, i, mem, n) && n <= DoublyEnd(v) * v.BlockSize()
    requires n > DIRECT * v.BlockSize() ==> i.singly != 0
    requires n > SinglyEnd(v) * v.BlockSize() ==> i.doubly != 0
    ensures mem[..n] == Slice(v, i, 0, n, Meaning)
  {
    hide LoaderPtr, FilePtr, Slice, ByteOf;
    forall k | 0 <= k < n ensures Ptr(v, i, BlockNo(v, k), Ext2.BootLoader) == Ptr(v, i, BlockNo(v, k), Meaning) {
      hide BlockNo, DoublyEnd, SinglyEnd;
      BlockBelow(v, k, DoublyEnd(v));
      if n <= SinglyEnd(v) * v.BlockSize() { BlockBelow(v, k, SinglyEnd(v)); }
      if n <= DIRECT * v.BlockSize() { BlockBelow(v, k, DIRECT); }
      LoaderPtrIff(v, i, BlockNo(v, k));
    }
    SameSlices(v, i, 0, n, Ext2.BootLoader, Meaning);
    LoadedIsSlice(v, i, mem, n);
  }

  lemma LoadedIsSlice(v: Volume, i: Inode, mem: seq<Byte>, n: nat)
    requires v.Valid() && WfInode(i) && Loaded(v, i, mem, n)
    ensures mem[..n] == Slice(v, i, 0, n, Ext2.BootLoader)
  {
    hide ByteAt;
    assert forall k :: 0 <= k < n ==> mem[..n][k] == Slice(v, i, 0, n, Ext2.BootLoader)[k];
  }

  // On files without doubly indirect blocks the boot loader and the kernel agree
  // byte for byte, whatever the pointers are.
  lemma LoaderAgreesWithKernel(v: Volume, i: Inode, mem: seq<Byte>, n: nat)
    requires v.Valid() && WfInode(i) && Loaded(v, i, mem, n) && n <= SinglyEnd(v) * v.BlockSize()
    ensures mem[..n] == Slice(v, i, 0, n, KernelReader)
  {
    hide PtrAt, Slice, ByteOf;
    forall k | 0 <= k < n ensures Ptr(v, i, BlockNo(v, k), Ext2.BootLoader) == Ptr(v, i, BlockNo(v, k), KernelReader) {
      BlockBelow(v, k, SinglyEnd(v));
    }
    SameSlices(v, i, 0, n, Ext2.BootLoader, KernelReader);
    LoadedIsSlice(v, i, mem, n);
  }
}
