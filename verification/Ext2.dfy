/** Reading files of an ext2 image block by block. */
module Ext2 {
  import opened Arithmetic
  import opened Bytes
  import opened Ext2Spec

  /** One `memset` or `memcpy`: `chunk` bytes of block `index` from `off` on. */
  method CopyChunk(fs: Fs, ino: Inode, index: nat, off: nat, chunk: nat, buffer: array<byte>, at: nat) returns (ok: bool)
    requires FileOk(fs, ino) && off + chunk <= fs.blockSize && at + chunk <= buffer.Length
    modifies buffer
    ensures ok == !Bad(fs, ino, index)
    ensures buffer[..at] == old(buffer[..at]) && buffer[at + chunk..] == old(buffer[at + chunk..])
    ensures ok ==> buffer[at..at + chunk] == FileBlock(fs, ino, index)[off..off + chunk]
    ensures ok ==> StoredPart(fs, ino, index, off, buffer[at..at + chunk])
    ensures !ok ==> buffer[..] == old(buffer[..])
  {
    ok := CopyPart(fs, ino, index, off, chunk, buffer, at);
    if ok {
      BlockPartStored(fs, ino, index, off, chunk);
    }
  }

  method CopyPart(fs: Fs, ino: Inode, index: nat, off: nat, chunk: nat, buffer: array<byte>, at: nat) returns (ok: bool)
    requires FileOk(fs, ino) && off + chunk <= fs.blockSize && at + chunk <= buffer.Length
    modifies buffer
    ensures ok == !Bad(fs, ino, index)
    ensures buffer[..at] == old(buffer[..at]) && buffer[at + chunk..] == old(buffer[at + chunk..])
    ensures ok ==> buffer[at..at + chunk] == FileBlock(fs, ino, index)[off..off + chunk]
    ensures !ok ==> buffer[..] == old(buffer[..])
  {
    var blk := DataBlock(fs, ino, index);
    assert SafeBlock(fs, ino, index);
    if blk == 0 {
      CopyBytes(seq<byte>(fs.blockSize, _ => 0), off, chunk, buffer, at);
    } else {
      var ptr := BlockPtr(fs, blk);
      if ptr.None? {
        return false;
      }
      CopyBytes(fs.image[ptr.value..ptr.value + fs.blockSize], off, chunk, buffer, at);
    }
    ok := true;
  }

  method CopyBytes(bytes: seq<byte>, off: nat, chunk: nat, buffer: array<byte>, at: nat)
    requires off + chunk <= |bytes| && at + chunk <= buffer.Length
    modifies buffer
    ensures buffer[..at] == old(buffer[..at]) && buffer[at + chunk..] == old(buffer[at + chunk..])
    ensures buffer[at..at + chunk] == bytes[off..off + chunk]
  {
    forall i | 0 <= i < chunk {
      buffer[at + i] := bytes[off + i];
    }
    ghost var a, b := buffer[at..at + chunk], bytes[off..off + chunk];
    forall i | 0 <= i < chunk ensures a[i] == b[i] {
      assert buffer[at + i] == bytes[off + i];
    }
  }

  /** `ext2_read_file`: the caller's buffer gets exactly the bytes stored in the blocks of the file, up to
      the first block whose pointer is refused. */
  method ReadFile(fs: Fs, ino: Inode, offset: nat, size: nat, buffer: array<byte>) returns (copied: nat)
    requires FileOk(fs, ino) && offset < TWO32 && size < TWO32 && size <= buffer.Length
    modifies buffer
    ensures copied == Readable(fs, ino, offset, ReadLength(ino.size, offset, size)) <= buffer.Length
    ensures buffer[..copied] == ReadResult(fs, ino, offset, size)
    ensures buffer[copied..] == old(buffer[copied..])
    ensures forall i :: 0 <= i < copied ==> StoredAt(fs, ino, offset + i, buffer[i])
  {
    copied := ReadRange(fs, ino, offset, size, buffer);
    forall i | 0 <= i < copied ensures StoredAt(fs, ino, offset + i, buffer[i]) {
      ReadReturnsStored(fs, ino, offset, size, i);
      assert buffer[i] == buffer[..copied][i];
    }
  }

  /** The tests in front of the loop. */
  method ReadRange(fs: Fs, ino: Inode, offset: nat, size: nat, buffer: array<byte>) returns (copied: nat)
    requires FileOk(fs, ino) && offset < TWO32 && size < TWO32 && size <= buffer.Length
    modifies buffer
    ensures copied == Readable(fs, ino, offset, ReadLength(ino.size, offset, size)) <= buffer.Length
    ensures buffer[..copied] == ReadResult(fs, ino, offset, size)
    ensures buffer[copied..] == old(buffer[copied..])
  {
    if offset >= ino.size {
      return 0;
    }
    Add32Is(offset, size);
    var total := size;
    if (offset + size) % TWO32 > ino.size {
      total := ino.size - offset;
    }
    copied := ReadBlocks(fs, ino, offset, total, buffer);
  }

  /** A copied chunk is the next piece of the file. */
  lemma {:induction false} ChunkIsFile(fs: Fs, ino: Inode, index: nat, off: nat, chunk: nat, pos: nat)
    requires FileOk(fs, ino) && off + chunk <= fs.blockSize && Place(pos, fs.blockSize) == (index, off)
    ensures FileBlock(fs, ino, index)[off..off + chunk] == Slice(fs, ino, pos, pos + chunk)
  {
    var blk, s := FileBlock(fs, ino, index), Slice(fs, ino, pos, pos + chunk);
    forall i | 0 <= i < chunk ensures blk[off..off + chunk][i] == s[i] {
      ChunkByte(fs, ino, index, off, pos, chunk, i, blk, s);
    }
  }

  lemma {:induction false} ChunkByte(fs: Fs, ino: Inode, index: nat, off: nat, pos: nat, chunk: nat, i: nat, blk: seq<byte>, s: seq<byte>)
    requires FileOk(fs, ino) && i < chunk && off + chunk <= fs.blockSize && Place(pos, fs.blockSize) == (index, off)
    requires blk == FileBlock(fs, ino, index) && s == Slice(fs, ino, pos, pos + chunk)
    ensures blk[off + i] == s[i]
  {
    PlaceFurther(pos, fs.blockSize, index, off, i);
    SliceByte(fs, ino, pos, pos + chunk, i, index, off + i);
  }

  lemma {:induction false} PlaceFurther(pos: nat, bs: nat, index: nat, off: nat, i: nat)
    requires bs > 0 && Place(pos, bs) == (index, off) && off + i < bs
    ensures Place(pos + i, bs) == (index, off + i)
  {
    PlaceOn(pos, bs, i);
  }

  lemma {:induction false} SliceByte(fs: Fs, ino: Inode, a: nat, b: nat, i: nat, index: nat, off: nat)
    requires FileOk(fs, ino) && i < b - a && Place(a + i, fs.blockSize) == (index, off)
    ensures Slice(fs, ino, a, b)[i] == FileBlock(fs, ino, index)[off]
  {
    SliceAt(fs, ino, a, b, i);
    FileByteAt(fs, ino, index, off, a + i);
  }

  /** The loop of `ext2_read_file`. */
  method ReadBlocks(fs: Fs, ino: Inode, offset: nat, total: nat, buffer: array<byte>) returns (copied: nat)
    requires FileOk(fs, ino) && total <= buffer.Length
    modifies buffer
    ensures copied == Readable(fs, ino, offset, total)
    ensures buffer[..copied] == Slice(fs, ino, offset, offset + copied)
    ensures buffer[copied..] == old(buffer[copied..])
  {
    var index: nat, off: nat := Locate(offset, fs.blockSize);
    copied := 0;
    while copied < total
      invariant copied <= total && off < fs.blockSize
      invariant copied < total ==> Place(offset + copied, fs.blockSize) == (index, off)
      invariant Readable(fs, ino, offset, total) == copied + Readable(fs, ino, offset + copied, total - copied)
      invariant buffer[..copied] == Slice(fs, ino, offset, offset + copied)
      invariant buffer[copied..] == old(buffer[copied..])
      decreases total - copied
    {
      var ok;
      ok, index, off, copied := CopyStep(fs, ino, offset, total, copied, index, off, buffer);
      if !ok {
        return;
      }
    }
  }

  /** One turn of the loop: the rest of the block, or as much of it as is wanted; it stops at a block
      whose pointer is refused. */
  method CopyStep(fs: Fs, ino: Inode, offset: nat, total: nat, copied: nat, index: nat, off: nat, buffer: array<byte>)
    returns (ok: bool, index': nat, off': nat, copied': nat)
    requires FileOk(fs, ino) && copied < total <= buffer.Length && off < fs.blockSize
    requires Place(offset + copied, fs.blockSize) == (index, off)
    requires buffer[..copied] == Slice(fs, ino, offset, offset + copied)
    modifies buffer
    ensures copied' <= total && off' < fs.blockSize && (if ok then copied < copied' else copied' == copied)
    ensures ok && copied' < total ==> Place(offset + copied', fs.blockSize) == (index', off')
    ensures if ok then Readable(fs, ino, offset + copied, total - copied) ==
                       copied' - copied + Readable(fs, ino, offset + copied', total - copied')
            else Readable(fs, ino, offset + copied, total - copied) == 0
    ensures buffer[..copied'] == Slice(fs, ino, offset, offset + copied')
    ensures buffer[copied'..] == old(buffer[copied'..])
  {
    var chunk := if fs.blockSize - off > total - copied then total - copied else fs.blockSize - off;
    StepFacts(fs, ino, offset + copied, index, off, chunk, total - copied);
    ok := CopyNext(fs, ino, offset, copied, index, off, chunk, buffer);
    if !ok {
      return false, index, off, copied;
    }
    copied', index', off' := copied + chunk, index + 1, 0;
  }

  /** What a chunk that ends its block or the read does to the position and to what is readable. */
  lemma {:induction false} StepFacts(fs: Fs, ino: Inode, pos: nat, index: nat, off: nat, chunk: nat, left: nat)
    requires FileOk(fs, ino) && Place(pos, fs.blockSize) == (index, off)
    requires chunk <= left && off + chunk <= fs.blockSize && (chunk == left || off + chunk == fs.blockSize)
    ensures chunk < left ==> Place(pos + chunk, fs.blockSize) == (index + 1, 0)
    ensures if Bad(fs, ino, index) then Readable(fs, ino, pos, left) == 0
            else Readable(fs, ino, pos, left) == chunk + Readable(fs, ino, pos + chunk, left - chunk)
  {
    ReadableStep(fs, ino, pos, chunk, left);
    PlaceOn(pos, fs.blockSize, chunk);
  }

  /** The chunk extends the part of the file already copied. */
  method CopyNext(fs: Fs, ino: Inode, offset: nat, copied: nat, index: nat, off: nat, chunk: nat, buffer: array<byte>)
    returns (ok: bool)
    requires FileOk(fs, ino) && off + chunk <= fs.blockSize && copied + chunk <= buffer.Length
    requires Place(offset + copied, fs.blockSize) == (index, off)
    requires buffer[..copied] == Slice(fs, ino, offset, offset + copied)
    modifies buffer
    ensures ok == !Bad(fs, ino, index)
    ensures var n := if ok then copied + chunk else copied;
            buffer[..n] == Slice(fs, ino, offset, offset + n) && buffer[n..] == old(buffer[n..])
  {
    ChunkIsFile(fs, ino, index, off, chunk, offset + copied);
    SliceConcat(fs, ino, offset, offset + copied, offset + (copied + chunk));
    ok := CopyChunk(fs, ino, index, off, chunk, buffer, copied);
    if ok {
      assert buffer[..copied + chunk] == buffer[..copied] + buffer[copied..copied + chunk];
    } else {
      assert buffer[copied..] == buffer[..][copied..];
    }
  }

  /** The block of the first byte and its place there. */
  method Locate(offset: nat, bs: nat) returns (index: nat, off: nat)
    requires bs > 0
    ensures (index, off) == Place(offset, bs)
  {
    PlaceIs(offset, bs);
    index, off := offset / bs, offset % bs;
  }
}
