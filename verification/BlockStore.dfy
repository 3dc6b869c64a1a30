/**
 The `data` table (src/db.rs) and the helpers of src/fs.rs that touch it: file
 content in blocks of 128 KiB, where a block may be short or missing. The
 lemmas show that it stores one flat byte sequence per inode.
 */
module BlockStore {
  import opened Common
  import opened FlatFile

  const BLOCK_SIZE: int := 131072

  /** The number of the block that holds byte `i`, and the place of `i` within it. */
  function BlockNo(i: nat): (no: nat)
    ensures no * 131072 <= i < (no + 1) * 131072
  {
    i / 131072
  }

  function BlockOff(i: nat): (off: nat)
    ensures off < BLOCK_SIZE && BlockNo(i) * 131072 + off == i
  {
    i % 131072
  }

  datatype BlockKey = BlockKey(ino: nat, no: nat)

  type Blocks = map<BlockKey, Bytes>

  // --- what the statements on the table compute -----------------------------

  function GetBlock(data: Blocks, ino: nat, no: nat): Bytes {
    if BlockKey(ino, no) in data then data[BlockKey(ino, no)] else []
  }

  function PutBlock(data: Blocks, ino: nat, no: nat, content: Bytes): Blocks {
    if content == [] then data - {BlockKey(ino, no)} else data[BlockKey(ino, no) := content]
  }

  function WithoutBlocksAfter(data: Blocks, ino: nat, last: nat): Blocks {
    map k | k in data && !(k.ino == ino && k.no > last) :: data[k]
  }

  function WithoutInode(data: Blocks, ino: nat): Blocks {
    map k | k in data && k.ino != ino :: data[k]
  }

  function Truncated(data: Blocks, ino: nat, length: nat): Blocks {
    var last := BlockNo(length);
    var kept := WithoutBlocksAfter(data, ino, last);
    if BlockOff(length) > 0 then
      var block := GetBlock(kept, ino, last);
      PutBlock(kept, ino, last, block[..Min(BlockOff(length), |block|)])
    else
      kept - {BlockKey(ino, last)}
  }

  /** How much of a write of `len` bytes at `pos` goes into the block `pos` is in. */
  function Take(pos: nat, len: nat): (n: nat)
    ensures n <= len && BlockOff(pos) + n <= BLOCK_SIZE
    ensures len > 0 ==> n > 0
  {
    Min(BLOCK_SIZE - BlockOff(pos), len)
  }

  /** One round of the write loop: `chunk` lies within the block `pos` is in. */
  function WriteChunk(data: Blocks, ino: nat, pos: nat, chunk: Bytes): Blocks {
    var no := BlockNo(pos);
    PutBlock(data, ino, no, Overwrite(GetBlock(data, ino, no), BlockOff(pos), chunk))
  }

  /** The rounds still to go when the first `done` of `bytes` are written. */
  function WriteBlocks(data: Blocks, ino: nat, offset: nat, bytes: Bytes, done: nat := 0): Blocks
    requires done <= |bytes|
    decreases |bytes| - done
  {
    if done == |bytes| then data
    else
      var next := done + Take(offset + done, |bytes| - done);
      WriteBlocks(WriteChunk(data, ino, offset + done, bytes[done..next]), ino, offset, bytes, next)
  }

  lemma {:induction false} WriteBlocksStep(data: Blocks, ino: nat, offset: nat, bytes: Bytes, done: nat)
    requires done <= |bytes|
    ensures WriteBlocks(data, ino, offset, bytes, done) ==
            if done == |bytes| then data
            else
              var next := done + Take(offset + done, |bytes| - done);
              WriteBlocks(WriteChunk(data, ino, offset + done, bytes[done..next]), ino, offset, bytes, next)
  {
    hide WriteChunk, Take;
  }

  // --- the flat view ---------------------------------------------------------

  function ByteAt(data: Blocks, ino: nat, i: nat): Byte {
    var block := GetBlock(data, ino, BlockNo(i));
    if BlockOff(i) < |block| then block[BlockOff(i)] else 0
  }

  /** The content of a file of `size` bytes. */
  function Flat(data: Blocks, ino: nat, size: nat): (f: Bytes)
    ensures |f| == size
    ensures forall i :: 0 <= i < size ==> f[i] == ByteAt(data, ino, i)
  {
    seq(size, i requires 0 <= i => ByteAt(data, ino, i))
  }

  /** Every block of `ino` is non-empty, no longer than a block, and ends within `size` bytes. */
  ghost predicate BlocksFit(data: Blocks, ino: nat, size: nat) {
    forall k <- data :: k.ino == ino ==>
      0 < |data[k]| <= BLOCK_SIZE && k.no * BLOCK_SIZE + |data[k]| <= size
  }

  // --- reading back what was written -----------------------------------------

  lemma {:induction false} PastTheEndIsZero(data: Blocks, ino: nat, size: nat, i: nat)
    requires BlocksFit(data, ino, size) && i >= size
    ensures ByteAt(data, ino, i) == 0
  {
    var k := BlockKey(ino, BlockNo(i));
    if k in data {
      assert k.no * BLOCK_SIZE + BlockOff(i) == i;
    }
  }

  lemma {:induction false} SameBlock(pos: nat, i: nat)
    ensures BlockNo(i) == BlockNo(pos) ==> i - pos == BlockOff(i) - BlockOff(pos)
    ensures pos <= i < pos + (BLOCK_SIZE - BlockOff(pos)) ==> BlockNo(i) == BlockNo(pos)
  {
  }

  lemma {:induction false} WriteChunkAt(data: Blocks, ino: nat, pos: nat, chunk: Bytes, other: nat, i: nat)
    requires chunk != [] && BlockOff(pos) + |chunk| <= BLOCK_SIZE
    ensures ByteAt(WriteChunk(data, ino, pos, chunk), other, i) ==
            if other == ino && pos <= i < pos + |chunk| then chunk[i - pos]
            else ByteAt(data, other, i)
  {
    hide Overwrite;
    SameBlock(pos, i);
    var no := BlockNo(pos);
    var after := WriteChunk(data, ino, pos, chunk);
    assert GetBlock(after, ino, no) == Overwrite(GetBlock(data, ino, no), BlockOff(pos), chunk);
    if other != ino || BlockNo(i) != no {
      assert GetBlock(after, other, BlockNo(i)) == GetBlock(data, other, BlockNo(i));
    }
  }

  lemma {:induction false} WriteBlocksAt(data: Blocks, ino: nat, offset: nat, bytes: Bytes, done: nat, other: nat, i: nat)
    requires done <= |bytes|
    ensures ByteAt(WriteBlocks(data, ino, offset, bytes, done), other, i) ==
            if other == ino && offset + done <= i < offset + |bytes| then bytes[i - offset]
            else ByteAt(data, other, i)
    decreases |bytes| - done
  {
    hide Overwrite, ByteAt, WriteChunk, BlockNo, BlockOff;
    if done == |bytes| {
    } else {
      var next := done + Take(offset + done, |bytes| - done);
      var chunk := bytes[done..next];
      var after := WriteChunk(data, ino, offset + done, chunk);
      assert WriteBlocks(data, ino, offset, bytes, done) == WriteBlocks(after, ino, offset, bytes, next);
      WriteChunkAt(data, ino, offset + done, chunk, other, i);
      WriteBlocksAt(after, ino, offset, bytes, next, other, i);
    }
  }

  lemma {:induction false} WriteChunkFit(data: Blocks, ino: nat, pos: nat, chunk: Bytes, size: nat)
    requires chunk != [] && BlockOff(pos) + |chunk| <= BLOCK_SIZE && BlocksFit(data, ino, size)
    ensures BlocksFit(WriteChunk(data, ino, pos, chunk), ino, Max(size, pos + |chunk|))
  {
    hide Overwrite, BlockNo, BlockOff;
  }

  lemma {:induction false} WriteBlocksFit(data: Blocks, ino: nat, offset: nat, bytes: Bytes, done: nat, size: nat)
    requires done <= |bytes| && BlocksFit(data, ino, size)
    ensures BlocksFit(WriteBlocks(data, ino, offset, bytes, done), ino, Max(size, offset + |bytes|))
    decreases |bytes| - done
  {
    hide WriteChunk;
    if done == |bytes| {
    } else {
      var next := done + Take(offset + done, |bytes| - done);
      var chunk := bytes[done..next];
      WriteChunkFit(data, ino, offset + done, chunk, size);
      WriteBlocksFit(WriteChunk(data, ino, offset + done, chunk), ino, offset, bytes, next, Max(size, offset + next));
    }
  }

  /** A write reaches no other inode's blocks. */
  lemma {:induction false} WriteBlocksElsewhere(data: Blocks, ino: nat, offset: nat, bytes: Bytes, done: nat, k: BlockKey)
    requires done <= |bytes| && k.ino != ino
    ensures k in WriteBlocks(data, ino, offset, bytes, done) <==> k in data
    ensures k in data ==> WriteBlocks(data, ino, offset, bytes, done)[k] == data[k]
    decreases |bytes| - done
  {
    hide Overwrite;
    if done == |bytes| {
    } else {
      var next := done + Take(offset + done, |bytes| - done);
      WriteBlocksElsewhere(WriteChunk(data, ino, offset + done, bytes[done..next]), ino, offset, bytes, next, k);
    }
  }

  lemma {:induction false} TruncatedAt(data: Blocks, ino: nat, length: nat, other: nat, i: nat)
    ensures ByteAt(Truncated(data, ino, length), other, i) ==
            if other == ino && i >= length then 0 else ByteAt(data, other, i)
  {
    var last := BlockNo(length);
    assert last * BLOCK_SIZE + BlockOff(length) == length;
    assert BlockNo(i) * BLOCK_SIZE + BlockOff(i) == i;
    if other == ino && BlockNo(i) == last {
      assert i >= length <==> BlockOff(i) >= BlockOff(length);
    }
  }

  lemma {:induction false} TruncatedFit(data: Blocks, ino: nat, size: nat, length: nat)
    requires BlocksFit(data, ino, size)
    ensures BlocksFit(Truncated(data, ino, length), ino, length)
  {
    var last := BlockNo(length);
    assert last * BLOCK_SIZE + BlockOff(length) == length;
    forall k <- Truncated(data, ino, length) | k.ino == ino
      ensures 0 < |Truncated(data, ino, length)[k]| <= BLOCK_SIZE
      ensures k.no * BLOCK_SIZE + |Truncated(data, ino, length)[k]| <= length
    {
      assert k == BlockKey(ino, k.no) && k.no <= last;
      if k.no < last {
        assert (k.no + 1) * BLOCK_SIZE <= last * BLOCK_SIZE;
      }
    }
  }

  // --- the store refines a flat file -----------------------------------------

  /** A write on blocks is a write on the flat file, and on no other. */
  lemma {:induction false} WriteRefines(data: Blocks, ino: nat, size: nat, offset: nat, bytes: Bytes)
    requires BlocksFit(data, ino, size)
    ensures Flat(WriteBlocks(data, ino, offset, bytes), ino, Max(size, offset + |bytes|))
            == Overwrite(Flat(data, ino, size), offset, bytes)
    ensures forall other: nat, n: nat :: other != ino ==>
              Flat(WriteBlocks(data, ino, offset, bytes), other, n) == Flat(data, other, n)
  {
    var after := WriteBlocks(data, ino, offset, bytes);
    forall i: nat
      ensures ByteAt(after, ino, i) == if offset <= i < offset + |bytes| then bytes[i - offset]
                                       else if i < size then ByteAt(data, ino, i) else 0
    {
      WriteBlocksAt(data, ino, offset, bytes, 0, ino, i);
      if i >= size { PastTheEndIsZero(data, ino, size, i); }
    }
    forall other: nat, i: nat | other != ino ensures ByteAt(after, other, i) == ByteAt(data, other, i) {
      WriteBlocksAt(data, ino, offset, bytes, 0, other, i);
    }
  }

  /** A truncate on blocks is a truncate on the flat file: what was cut off never comes back. */
  lemma {:induction false} TruncateRefines(data: Blocks, ino: nat, size: nat, length: nat)
    requires BlocksFit(data, ino, size)
    ensures Flat(Truncated(data, ino, length), ino, length) == Resize(Flat(data, ino, size), length)
    ensures forall other: nat, n: nat :: other != ino ==>
              Flat(Truncated(data, ino, length), other, n) == Flat(data, other, n)
  {
    var after := Truncated(data, ino, length);
    forall i: nat | i < length
      ensures ByteAt(after, ino, i) == if i < size then ByteAt(data, ino, i) else 0
    {
      TruncatedAt(data, ino, length, ino, i);
      if i >= size { PastTheEndIsZero(data, ino, size, i); }
    }
    forall other: nat, i: nat | other != ino ensures ByteAt(after, other, i) == ByteAt(data, other, i) {
      TruncatedAt(data, ino, length, other, i);
    }
  }
}
