// Reading files in the kernel (fs/ext2/file.c, fs/ext2/ext2.c).
module Ext2File {
  import opened Base
  import opened Ext2

  const ENOMEM: int := 12
  const U64: nat := 0x1_0000_0000_0000_0000

  // How many bytes a read may deliver.
  function Clamp(size: nat, offset: nat, count: nat): nat { if offset >= size then 0 else Min(count, size - offset) }

  // Reading file block n follows only pointers that lie on the volume.
  predicate Followed(v: Volume, i: Inode, n: nat)
    requires v.Valid() && WfInode(i)
  {
    (DIRECT <= n < SinglyEnd(v) ==> i.singly < v.blocks) && KernelPtr(v, i, n) < v.blocks
  }

  // That holds for all blocks of the file.
  ghost predicate FileOk(v: Volume, i: Inode)
    requires v.Valid() && WfInode(i)
  {
    forall n {:trigger Followed(v, i, n)} :: 0 <= n && n * v.BlockSize() < i.size ==> Followed(v, i, n)
  }

  // A file of direct blocks needs no more, whatever block 0 holds.
  lemma SmallFileOk(v: Volume, i: Inode)
    requires v.Valid() && WfInode(i) && i.size <= DIRECT * v.BlockSize()
    requires forall k :: 0 <= k < DIRECT ==> i.direct[k] < v.blocks
    ensures FileOk(v, i)
  {
    hide PtrAt;
    forall n | 0 <= n && n * v.BlockSize() < i.size ensures Followed(v, i, n) {
      if n >= DIRECT {
        BlocksInOrder(v.BlockSize(), DIRECT, n);
        assert false;
      }
    }
  }

  lemma BlocksInOrder(bs: nat, m: nat, n: nat)
    requires m <= n
    ensures m * bs <= n * bs
  {
    MulPositive(bs, n - m);
    assert bs * (n - m) == n * bs - m * bs;
  }

  // The sector number of a block on the volume does not overflow, and is 0 for block 0 only.
  lemma SectorFits(v: Volume, b: nat)
    requires v.Valid() && b < v.blocks
    ensures (b * v.spb) % U32 == b * v.spb && (b * v.spb == 0 <==> b == 0)
  {
    MulOrder(v.spb, b, v.blocks);
    assert v.spb * b == b * v.spb && v.spb * v.blocks == v.blocks * v.spb;
    if b > 0 { MulOrder(v.spb, 0, b); }
  }

  function Table(v: Volume, block: nat): (t: seq<nat>)
    requires v.Valid()
    ensures |t| == v.PerBlock() && forall k :: 0 <= k < |t| ==> t[k] == PtrAt(v, block, k)
  {
    seq(v.PerBlock(), k requires 0 <= k < v.PerBlock() => PtrAt(v, block, k))
  }

  // ------------------------------------------------------- block arithmetic

  function FirstBlock(bs: nat, offset: nat): nat
    requires bs > 0
  {
    Quot(offset, bs)
  }

  function EndBlock(bs: nat, end: nat): nat
    requires bs > 0
  {
    Quot(end + bs - 1, bs)
  }

  // The blocks [FirstBlock, EndBlock) are those that a stretch touches.
  lemma BlockRange(bs: nat, offset: nat, end: nat)
    requires bs > 0 && offset < end
    ensures var s, e := FirstBlock(bs, offset), EndBlock(bs, end);
            && s < e && s * bs <= offset < s * bs + bs && (e - 1) * bs < end <= e * bs &&
                offset == s * bs + Rem(offset, bs)
  {
    var s, e := FirstBlock(bs, offset), EndBlock(bs, end);
    QuotRem(offset, bs);
    QuotRem(end + bs - 1, bs);
    assert bs * s == s * bs && bs * e == e * bs && (e - 1) * bs == e * bs - bs;
    if e <= s {
      if e < s { MulOrder(bs, e, s); }
      assert false;
    }
  }

  // 32-bit block numbers suffice for a file of at most 2^32 blocks.
  lemma BlocksInRange(bs: nat, offset: nat, end: nat)
    requires bs > 0 && offset < end <= U32 * bs
    ensures FirstBlock(bs, offset) < EndBlock(bs, end) <= U32
  {
    hide FirstBlock, EndBlock;
    BlockRange(bs, offset, end);
    AtMost(bs, EndBlock(bs, end));
  }

  lemma AtMost(bs: nat, e: nat)
    requires bs > 0 && (e - 1) * bs < U32 * bs
    ensures e <= U32
  {
    if e > U32 {
      assert (e - 1 - U32) * bs == (e - 1) * bs - U32 * bs;
      MulPositive(e - 1 - U32, bs);
    }
  }

  lemma WrapDiff(s: nat, e: nat)
    requires s < e <= U32
    ensures s % U32 == s && (e % U32 - s % U32) % U32 == if s == 0 && e == U32 then 0 else e - s
  {
  }

  // A stretch of fewer than 2^32 bytes does not span all 2^32 blocks.
  lemma NotAllBlocks(bs: nat, offset: nat, end: nat)
    requires bs >= 2 && offset < end <= U32 * bs && end - offset < U32
    ensures !(FirstBlock(bs, offset) == 0 && EndBlock(bs, end) == U32)
  {
    BlockRange(bs, offset, end);
    TwiceLarge(bs);
  }

  lemma TwiceLarge(bs: nat)
    requires bs >= 2
    ensures (U32 - 1) * bs - bs >= U32
  {
  }

  lemma SpanFits(bs: nat, offset: nat, n: nat)
    requires bs >= 2 && 0 < n && offset + n <= U32 * bs
    ensures var s, e := FirstBlock(bs, offset), EndBlock(bs, offset + n);
            && s < e <= U32 && s % U32 == s && (n < U32 ==> !(s == 0 && e == U32))
            && (e % U32 - s % U32) % U32 == if s == 0 && e == U32 then 0 else e - s
  {
    hide FirstBlock, EndBlock;
    BlocksInRange(bs, offset, offset + n);
    if n < U32 { NotAllBlocks(bs, offset, offset + n); }
    WrapDiff(FirstBlock(bs, offset), EndBlock(bs, offset + n));
  }

  // Where the copying stands before block b of the stretch [offset, end).
  function Position(bs: nat, offset: nat, end: nat, b: nat): (p: nat)
    ensures p <= end
  {
    Min(Max(offset, b * bs), end)
  }

  // Copying from block b takes it to the position before block b + 1.
  lemma NextPosition(bs: nat, offset: nat, end: nat, b: nat)
    requires bs > 0 && offset < end && FirstBlock(bs, offset) <= b < EndBlock(bs, end)
    ensures var p := Position(bs, offset, end, b);
            var o := if b == FirstBlock(bs, offset) then Rem(offset, bs) else 0;
            var n := Min(end - p, bs - o);
            && p == b * bs + o && o < bs && offset <= p < end && Position(bs, offset, end, b + 1) == p + n
  {
    BlockRange(bs, offset, end);
    var s, e := FirstBlock(bs, offset), EndBlock(bs, end);
    assert (b + 1) * bs == b * bs + bs;
    if b > s {
      MulOrder(bs, s, b);
      assert bs * s == s * bs && bs * b == b * bs;
    }
    if b < e - 1 {
      MulOrder(bs, b, e - 1);
      assert bs * (e - 1) == (e - 1) * bs && bs * b == b * bs;
    }
  }

  lemma EndPositions(bs: nat, offset: nat, end: nat)
    requires bs > 0 && offset < end
    ensures Position(bs, offset, end, FirstBlock(bs, offset)) == offset
    ensures Position(bs, offset, end, EndBlock(bs, end)) == end
  {
    BlockRange(bs, offset, end);
  }

  // A round of the copying loop that starts where it should, with less than 2^32 to go.
  ghost predicate OnCourse(bs: nat, offset: nat, end: nat, block: nat, startBlock: nat, remaining: nat)
    requires bs > 0
  {
    && offset < end && startBlock == FirstBlock(bs, offset) <= block < EndBlock(bs, end)
    && remaining == end - Position(bs, offset, end, block) < U32
  }

  lemma StaysOnCourse(bs: nat, offset: nat, end: nat, block: nat, startBlock: nat, remaining: nat)
    requires bs > 0 && offset < end && startBlock == FirstBlock(bs, offset) <= block < EndBlock(bs, end)
    requires remaining == end - Position(bs, offset, end, block) && end - offset < U32
    ensures OnCourse(bs, offset, end, block, startBlock, remaining)
  {
    hide FirstBlock, EndBlock;
    NextPosition(bs, offset, end, block);
  }

  // --------------------------------------------------------------- the reader

  // struct ext2_inode_info
  class InodeInfo {
    const v: Volume
    const inode: Inode
    var singly: Option<seq<nat>>    // the indirect block, once it has been read

    ghost predicate Valid()
      reads this
    {
      v.Valid() && WfInode(inode) && (singly.Some? ==> singly.value == Table(v, inode.singly))
    }

    constructor (v: Volume, inode: Inode)
      requires v.Valid() && WfInode(inode)
      ensures Valid() && singly == None && this.v == v && this.inode == inode
    {
      this.v, this.inode, singly := v, inode, None;
    }

    // The partition's read function, for one block at a sector of the partition.
    method ReadBlock(lba: nat) returns (buf: seq<Byte>)
      requires v.Valid()
      ensures buf == Sectors(v, v.start + lba, v.spb)
    {
      buf := Sectors(v, v.start + lba, v.spb);
    }

    // ext2_init_singly: false is -ENOMEM; the flag says whether there is memory
    // for the indirect block.
    method InitSingly(memory: bool) returns (ok: bool)
      requires Valid() && inode.singly < v.blocks
      modifies this
      ensures Valid() && ok == singly.Some? == (memory || old(singly).Some?)
    {
      if singly.Some? {
        return true;
      }
      if !memory {
        return false;
      }
      var lba := (inode.singly * v.spb) % U32;
      SectorFits(v, inode.singly);
      var buf := ReadBlock(lba);
      singly := Some(seq(v.PerBlock(), k requires 0 <= k < v.PerBlock() => Le32(buf, 4 * k)));
      assert singly.value == Table(v, inode.singly);
      return true;
    }

    // The sector of a file block, 0 for a hole or a block out of reach. The status
    // of ext2_init_singly is ignored: None is the access through a null pointer.
    method Locate(block: nat, memory: bool) returns (lba: Option<nat>)
      requires Valid() && Followed(v, inode, block)
      modifies this
      ensures Valid() && (lba.None? <==> DIRECT <= block < SinglyEnd(v) && !memory && old(singly) == None)
      ensures lba.Some? ==>
                && lba.value == KernelPtr(v, inode, block) * v.spb
                && (lba.value == 0 <==> KernelPtr(v, inode, block) == 0)
      ensures singly != old(singly) ==> DIRECT <= block < SinglyEnd(v) && memory
    {
      hide PtrAt;
      var sector := 0;
      if block < DIRECT {
        SectorFits(v, KernelPtr(v, inode, block));
        sector := (inode.direct[block] * v.spb) % U32;
      } else if block < DIRECT + v.BlockSize() / 4 {
        var ok := InitSingly(memory);
        if singly == None {
          return None;
        }
        SectorFits(v, KernelPtr(v, inode, block));
        sector := (singly.value[block - DIRECT] * v.spb) % U32;
      }
      return Some(sector);
    }

    // The part [src, src + n) of a file block.
    method CopyPart(block: nat, src: nat, n: nat, memory: bool) returns (piece: Option<seq<Byte>>)
      requires Valid() && src + n <= v.BlockSize() && Followed(v, inode, block)
      modifies this
      ensures Valid() && (piece.None? <==> DIRECT <= block < SinglyEnd(v) && !memory && old(singly) == None)
      ensures piece.Some? ==> piece.value == Piece(v, KernelPtr(v, inode, block), src, n)
      ensures singly != old(singly) ==> memory
    {
      hide KernelPtr, Sectors, Followed;
      var lba := Locate(block, memory);
      if lba.None? {
        return None;
      }
      if lba.value != 0 {
        var buf := ReadBlock(lba.value);
        return Some(buf[src..src + n]);
      }
      return Some(seq(n, _ => 0));
    }

    // The read passes through the indirect block: the blocks of [offset, end) that
    // the loop visits are not all direct. It visits none if their number is 2^32.
    predicate ThroughSingly(offset: nat, end: nat)
      requires v.Valid()
    {
      var s, e := FirstBlock(v.BlockSize(), offset), EndBlock(v.BlockSize(), end);
      s < SinglyEnd(v) && DIRECT < e && !(s == 0 && e == U32)
    }

    // ext2_read_file: status (None is the access through a null pointer), the
    // bytes put in the caller's buffer, and the new offset. The flags say whether
    // there is memory for the block buffer and for the indirect block. The copy
    // size is cut to 32 bits, so the buffer is filled exactly when fewer than
    // 2^32 bytes are due.
    method ReadFile(offset: nat, count: nat, buffer: bool, memory: bool)
      returns (status: Option<int>, bytes: seq<Byte>, newOffset: nat)
      requires Valid() && FileOk(v, inode) && inode.size <= U32 * v.BlockSize() && offset + count < U64
      modifies this
      ensures Valid()
      ensures var n := Clamp(inode.size, offset, count);
              if n == 0 then status == Some(0) && bytes == [] && newOffset == offset
              else if !buffer then status == Some(-ENOMEM) && bytes == [] && newOffset == offset
              else if !memory && old(singly) == None && ThroughSingly(offset, offset + n) then status == None
              else
                && status == Some(n) && newOffset == offset + n
                && (n < U32 ==> bytes == Slice(v, inode, offset, offset + n, KernelReader))
                && (n >= U32 ==> |bytes| <= n - U32)
      ensures offset < inode.size && count > 0 && buffer && (memory || old(singly).Some?) ==>
                newOffset == Min(offset + count, inode.size) && status == Some(newOffset - offset)
      ensures offset >= inode.size || count == 0 ==> status == Some(0) && bytes == [] && newOffset == offset
    {
      hide Slice, FileOk, ThroughSingly;
      bytes, newOffset := [], offset;
      if count == 0 {
        return Some(0), bytes, newOffset;
      } else if offset >= inode.size {
        return Some(0), bytes, newOffset;
      }
      var n := if offset + count > inode.size then inode.size - offset else count;
      if !buffer {
        return Some(-ENOMEM), bytes, newOffset;
      }
      var read := ReadStretch(offset, n, memory);
      if read.None? {
        return None, bytes, newOffset;
      }
      return Some(n), read.value, offset + n;
    }

    // First block and number of blocks, in 32-bit arithmetic.
    method BlockSpan(offset: nat, n: nat) returns (startBlock: nat, blockCount: nat)
      requires v.Valid() && 0 < n && offset + n <= U32 * v.BlockSize()
      ensures var s, e := FirstBlock(v.BlockSize(), offset), EndBlock(v.BlockSize(), offset + n);
              && startBlock == s < e <= U32 && blockCount == (if s == 0 && e == U32 then 0 else e - s)
              && (n < U32 ==> !(s == 0 && e == U32))
    {
      hide FirstBlock, EndBlock;
      var bs := v.BlockSize();
      startBlock := FirstBlock(bs, offset) % U32;
      var endBlock := EndBlock(bs, offset + n) % U32;
      blockCount := (endBlock - startBlock) % U32;
      SpanFits(bs, offset, n);
    }

    // The loop over the blocks.
    method ReadStretch(offset: nat, n: nat, memory: bool) returns (r: Option<seq<Byte>>)
      requires Valid() && FileOk(v, inode) && 0 < n && offset + n <= inode.size <= U32 * v.BlockSize()
      modifies this
      ensures Valid()
      ensures r.None? <==> !memory && old(singly) == None && ThroughSingly(offset, offset + n)
      ensures r.Some? && n < U32 ==> r.value == Slice(v, inode, offset, offset + n, KernelReader)
      ensures r.Some? && n >= U32 ==> |r.value| <= n - U32
    {
      hide Slice, Piece, Followed, FileOk, KernelPtr, Position, FirstBlock, EndBlock, Rem;
      hide SinglyEnd, ThroughSingly, Elsewhere, OnCourse, Table;
      var bs := v.BlockSize();
      ghost var end := offset + n;
      var startBlock, blockCount := BlockSpan(offset, n);
      EndPositions(bs, offset, end);
      var bytes: seq<Byte> := [];
      EmptySlice(v, inode, offset);
      NoneVisited(v, startBlock);
      var remaining: nat := n;
      for i := 0 to blockCount
        invariant Valid() && remaining == n - |bytes| && (n >= U32 ==> remaining >= U32)
        invariant n < U32 ==> offset + |bytes| == Position(bs, offset, end, startBlock + i)
        invariant n < U32 ==> bytes == Slice(v, inode, offset, offset + |bytes|, KernelReader)
        invariant !memory ==> singly == old(singly)
        invariant !memory && singly == None ==> Elsewhere(v, startBlock, i)
      {
        var block := (startBlock + i) % U32;
        assert block == startBlock + i;
        BlockInFile(v, inode, offset, end, block);
        if n < U32 { StaysOnCourse(bs, offset, end, block, startBlock, remaining); }
        var piece := ReadPart(offset, end, block, startBlock, remaining, memory);
        Visiting(offset, end, i);
        if piece.None? {
          return None;
        }
        SliceJoin(v, inode, offset, offset + |bytes|, offset + |bytes| + |piece.value|, KernelReader);
        bytes := bytes + piece.value;
        remaining := remaining - |piece.value|;
      }
      Visited(offset, end);
      return Some(bytes);
    }

    lemma Visiting(offset: nat, end: nat, i: nat)
      requires v.Valid() && offset < end <= U32 * v.BlockSize()
      ensures var s, e := FirstBlock(v.BlockSize(), offset), EndBlock(v.BlockSize(), end);
              s + i < e && !(s == 0 && e == U32) ==>
                if DIRECT <= s + i < SinglyEnd(v) then ThroughSingly(offset, end)
                else Elsewhere(v, s, i) ==> Elsewhere(v, s, i + 1)
    {
      hide Quot;
    }

    lemma Visited(offset: nat, end: nat)
      requires v.Valid() && offset < end
      ensures var s, e := FirstBlock(v.BlockSize(), offset), EndBlock(v.BlockSize(), end);
              s <= e && !(s == 0 && e == U32) ==> (ThroughSingly(offset, end) <==> !Elsewhere(v, s, e - s))
      ensures var s, e := FirstBlock(v.BlockSize(), offset), EndBlock(v.BlockSize(), end);
              s == 0 && e == U32 ==> !ThroughSingly(offset, end)
    {
      BlockRange(v.BlockSize(), offset, end);
      hide Quot;
    }

    // One round of the loop: what block contributes to the stretch [offset, end).
    method ReadPart(offset: nat, ghost end: nat, block: nat, startBlock: nat, remaining: nat, memory: bool)
      returns (r: Option<seq<Byte>>)
      requires Valid() && Followed(v, inode, block)
      modifies this
      ensures Valid() && (r.None? <==> DIRECT <= block < SinglyEnd(v) && !memory && old(singly) == None)
      ensures singly != old(singly) ==> memory
      ensures r.Some? ==> |r.value| <= remaining % U32
      ensures r.Some? && OnCourse(v.BlockSize(), offset, end, block, startBlock, remaining) ==>
                var p := Position(v.BlockSize(), offset, end, block);
                && p + |r.value| == Position(v.BlockSize(), offset, end, block + 1)
                && r.value == Slice(v, inode, p, p + |r.value|, KernelReader)
    {
      hide Slice, Piece, Followed, KernelPtr, Position, Quot, Rem;
      var bs := v.BlockSize();
      if OnCourse(bs, offset, end, block, startBlock, remaining) { NextPosition(bs, offset, end, block); }
      var toCopy, src := Min(remaining % U32, bs), 0;
      if block == startBlock {
        src := Rem(offset, bs);
        toCopy := Min(remaining % U32, bs - src);
      }
      r := CopyPart(block, src, toCopy, memory);
      SliceIsPiece(v, inode, block, src, toCopy, KernelReader);
    }
  }

  // None of the n blocks from s on is behind the indirect block.
  predicate Elsewhere(v: Volume, s: nat, n: nat) { n == 0 || s + n <= DIRECT || s >= SinglyEnd(v) }

  lemma NoneVisited(v: Volume, s: nat)
    ensures Elsewhere(v, s, 0)
  {
  }

  // The blocks of a stretch of the file are blocks of the file.
  lemma BlockInFile(v: Volume, i: Inode, offset: nat, end: nat, block: nat)
    requires v.Valid() && WfInode(i) && FileOk(v, i) && offset < end <= i.size
    requires FirstBlock(v.BlockSize(), offset) <= block < EndBlock(v.BlockSize(), end)
    ensures Followed(v, i, block)
  {
    hide Followed;
    var bs, e := v.BlockSize(), EndBlock(v.BlockSize(), end);
    BlockRange(bs, offset, end);
    if block < e - 1 { MulOrder(bs, block, e - 1); }
    assert bs * block == block * bs && bs * (e - 1) == (e - 1) * bs;
    assert block * bs < i.size;
  }

  lemma EmptySlice(v: Volume, i: Inode, offset: nat)
    requires v.Valid() && WfInode(i)
    ensures Slice(v, i, offset, offset, KernelReader) == []
  {
  }

  // ------------------------------------------------------------- consequences

  // Within the direct and singly indirect blocks the reader delivers the file's
  // own bytes, if the indirect block it needs is there.
  lemma KernelReadsFile(v: Volume, i: Inode, from: nat, to: nat)
    requires v.Valid() && WfInode(i) && from <= to <= SinglyEnd(v) * v.BlockSize()
    requires to > DIRECT * v.BlockSize() ==> i.singly != 0
    ensures Slice(v, i, from, to, KernelReader) == Slice(v, i, from, to, Meaning)
  {
    hide KernelPtr, FilePtr, Slice;
    forall k | from <= k < to ensures Ptr(v, i, BlockNo(v, k), KernelReader) == Ptr(v, i, BlockNo(v, k), Meaning) {
      BlockBelow(v, k, SinglyEnd(v));
      if to <= DIRECT * v.BlockSize() { BlockBelow(v, k, DIRECT); }
      KernelPtrIff(v, i, BlockNo(v, k));
    }
    SameSlices(v, i, from, to, KernelReader, Meaning);
  }

  lemma BlockBelow(v: Volume, k: nat, n: nat)
    requires v.Valid() && k < n * v.BlockSize()
    ensures BlockNo(v, k) < n
  {
    var bs := v.BlockSize();
    QuotRem(k, bs);
    if BlockNo(v, k) > n { MulOrder(bs, n, BlockNo(v, k)); }
    assert bs * n == n * bs;
  }

  // Two reads in a row deliver what one read of the combined length delivers.
  lemma ReadsCompose(v: Volume, i: Inode, offset: nat, a: nat, b: nat)
    requires v.Valid() && WfInode(i)
    ensures var n := Clamp(i.size, offset, a);
            var m := Clamp(i.size, offset + n, b);
            && Clamp(i.size, offset, a + b) == n + m
            && Slice(v, i, offset, offset + n, KernelReader) + Slice(v, i, offset + n, offset + n + m, KernelReader)
               == Slice(v, i, offset, offset + Clamp(i.size, offset, a + b), KernelReader)
  {
    var n := Clamp(i.size, offset, a);
    var m := Clamp(i.size, offset + n, b);
    SliceJoin(v, i, offset, offset + n, offset + n + m, KernelReader);
  }
}
