/** The contents of files and directories in an ext2 image. */
module Ext2Spec {
  import opened Arithmetic
  import opened Wrappers
  import opened Bytes

  const DIRECT := 12

  /** A mounted image in memory. */
  datatype Fs = Fs(image: seq<byte>, blockSize: nat)

  /** The fields of an inode used for reading: size in bytes and block pointers. */
  datatype Inode = Inode(size: nat, block: seq<nat>)

  predicate FsOk(fs: Fs) {
    fs.blockSize >= 8 && fs.blockSize % 4 == 0 && |fs.image| < TWO32
  }

  predicate InodeShape(ino: Inode) {
    ino.size < TWO32 && |ino.block| == 15
  }

  /** `ext2_block_ptr`: the offset of a block in the image, computed in 32 bits. */
  function BlockPtr(fs: Fs, b: nat): Option<nat> {
    var off := b * fs.blockSize % TWO32;
    if off >= |fs.image| then None else Some(off)
  }

  /** A block that lies in the image. */
  predicate InImage(fs: Fs, b: nat) {
    b * fs.blockSize + fs.blockSize <= |fs.image|
  }

  lemma BlockPtrIs(fs: Fs, b: nat)
    requires FsOk(fs) && InImage(fs, b)
    ensures BlockPtr(fs, b) == Some(b * fs.blockSize)
  {
    SmallMod(b * fs.blockSize);
  }

  /** A pointer is 0 for a hole, or refused, or leads to a whole block of the image. */
  predicate Safe(fs: Fs, b: nat) {
    b == 0 || match BlockPtr(fs, b) case None => true case Some(off) => off + fs.blockSize <= |fs.image|
  }

  /** `ext2_get_data_block`: direct pointers, then one indirect block, then nothing. */
  function DataBlock(fs: Fs, ino: Inode, index: nat): nat
    requires FsOk(fs) && InodeShape(ino) && Safe(fs, ino.block[DIRECT])
  {
    if index < DIRECT then ino.block[index]
    else if index - DIRECT < fs.blockSize / 4 && ino.block[DIRECT] != 0 then
      match BlockPtr(fs, ino.block[DIRECT])
      case None => 0
      case Some(off) => U32At(fs.image, off + 4 * (index - DIRECT))
    else 0
  }

  /** No pointer of the file leads to a block that is only partly in the image. */
  ghost predicate FileOk(fs: Fs, ino: Inode) {
    && FsOk(fs) && InodeShape(ino) && Safe(fs, ino.block[DIRECT])
    && forall index: nat :: SafeBlock(fs, ino, index)
  }

  predicate SafeBlock(fs: Fs, ino: Inode, index: nat)
    requires FsOk(fs) && InodeShape(ino) && Safe(fs, ino.block[DIRECT])
  {
    Safe(fs, DataBlock(fs, ino, index))
  }

  /** The pointer to this block of the file is refused. */
  predicate Bad(fs: Fs, ino: Inode, index: nat)
    requires FsOk(fs) && InodeShape(ino) && Safe(fs, ino.block[DIRECT])
  {
    DataBlock(fs, ino, index) != 0 && BlockPtr(fs, DataBlock(fs, ino, index)).None?
  }

  /** Block `index` of a file; holes read as zeros. */
  ghost function FileBlock(fs: Fs, ino: Inode, index: nat): (s: seq<byte>)
    requires FileOk(fs, ino)
    ensures |s| == fs.blockSize
  {
    var b := DataBlock(fs, ino, index);
    assert SafeBlock(fs, ino, index);
    if b == 0 || Bad(fs, ino, index) then seq<byte>(fs.blockSize, _ => 0)
    else
      var off := BlockPtr(fs, b).value;
      fs.image[off..off + fs.blockSize]
  }

  /** The block that holds byte `i` of a file, and the place of the byte in it. */
  function Place(i: nat, bs: nat): (at: (nat, nat))
    requires bs > 0
    ensures at.1 < bs
  {
    if i < bs then (0, i)
    else
      var p := Place(i - bs, bs);
      (p.0 + 1, p.1)
  }

  /** It is the quotient and the remainder. */
  lemma {:induction false} PlaceIs(i: nat, bs: nat)
    requires bs > 0
    ensures i == Place(i, bs).0 * bs + Place(i, bs).1
    ensures Place(i, bs) == (i / bs, i % bs)
    decreases i
  {
    var at := Place(i, bs);
    if i >= bs {
      PlaceIs(i - bs, bs);
      NextBlock(bs, at.0 - 1);
    }
    QuotientIs(i, bs, at.0, at.1);
  }

  lemma QuotientIs(n: nat, bs: nat, index: nat, off: nat)
    requires off < bs && n == index * bs + off
    ensures (n / bs, n % bs) == (index, off)
  {
    var d := n / bs - index;
    assert d * bs == off - n % bs;
    MulBounds(d, bs);
  }

  lemma NextBlock(bs: nat, index: nat)
    ensures (index + 1) * bs == index * bs + bs
  {
  }

  /** Bytes further on in the same block, and the first byte of the next one. */
  lemma {:induction false} PlaceOn(pos: nat, bs: nat, n: nat)
    requires bs > 0 && Place(pos, bs).1 + n <= bs
    ensures var at := Place(pos, bs);
            Place(pos + n, bs) == if at.1 + n < bs then (at.0, at.1 + n) else (at.0 + 1, 0)
    decreases pos
  {
    if pos >= bs {
      PlaceOn(pos - bs, bs, n);
    }
  }

  /** Byte `i` of a file. */
  ghost function FileByte(fs: Fs, ino: Inode, i: nat): byte
    requires FileOk(fs, ino)
  {
    var at := Place(i, fs.blockSize);
    FileBlock(fs, ino, at.0)[at.1]
  }

  lemma {:induction false} FileByteAt(fs: Fs, ino: Inode, index: nat, off: nat, n: nat)
    requires FileOk(fs, ino) && Place(n, fs.blockSize) == (index, off)
    ensures FileByte(fs, ino, n) == FileBlock(fs, ino, index)[off]
  {
  }

  /** Byte `off` of block `b` of the image. */
  function ByteAt(fs: Fs, b: nat, off: nat): byte
    requires InImage(fs, b) && off < fs.blockSize
  {
    fs.image[b * fs.blockSize + off]
  }

  /** `v` is the byte at place `off` of the block a pointer leads to; 0 stands for a hole.  For pointers out
      of the image this says nothing. */
  predicate PointedByte(fs: Fs, p: nat, off: nat, v: byte) {
    && (p == 0 ==> v == 0)
    && (p != 0 && p * fs.blockSize + fs.blockSize <= |fs.image| && off < fs.blockSize ==>
          v == fs.image[p * fs.blockSize + off])
  }

  /** The pointer number `i` in the indirect block `q`. */
  function Indirect(fs: Fs, q: nat, i: nat): nat
    requires q * fs.blockSize + fs.blockSize <= |fs.image| && 4 * i + 4 <= fs.blockSize
  {
    var at := q * fs.blockSize + 4 * i;
    Number(fs.image[at..at + 4])
  }

  /** `v` is the byte at place `off` of block `index` of the file: the first twelve blocks have their
      pointer in the inode, the next ones in the block the thirteenth pointer leads to, and all others
      are holes. */
  predicate StoredByte(fs: Fs, ino: Inode, index: nat, off: nat, v: byte)
    requires |ino.block| == 15
  {
    if index < 12 then PointedByte(fs, ino.block[index], off, v)
    else if 4 * (index - 12) + 4 <= fs.blockSize && ino.block[12] != 0 then
      ino.block[12] * fs.blockSize + fs.blockSize <= |fs.image| ==>
        PointedByte(fs, Indirect(fs, ino.block[12], index - 12), off, v)
    else v == 0
  }

  /** `v` is byte `n` of the file. */
  predicate StoredAt(fs: Fs, ino: Inode, n: nat, v: byte)
    requires |ino.block| == 15 && fs.blockSize > 0
  {
    StoredByte(fs, ino, n / fs.blockSize, n % fs.blockSize, v)
  }

  /** Byte `n` of a file is the one stored at its place in its block. */
  lemma {:induction false} FileByteIs(fs: Fs, ino: Inode, index: nat, off: nat, n: nat)
    requires FileOk(fs, ino) && off < fs.blockSize && n == index * fs.blockSize + off
    ensures StoredByte(fs, ino, index, off, FileByte(fs, ino, n))
  {
    PlaceOf(n, fs.blockSize, index, off);
    FileByteAt(fs, ino, index, off, n);
    BlockByteStored(fs, ino, index, off);
  }

  /** So is every byte of a block. */
  lemma {:induction false} BlockByteStored(fs: Fs, ino: Inode, index: nat, off: nat)
    requires FileOk(fs, ino) && off < fs.blockSize
    ensures StoredByte(fs, ino, index, off, FileBlock(fs, ino, index)[off])
  {
    BlockByteIs(fs, ino, index, off);
    if index >= 12 && 4 * (index - 12) + 4 <= fs.blockSize && ino.block[12] != 0 && InImage(fs, ino.block[12]) {
      IndirectIs(fs, ino, index);
    }
  }

  /** The bytes `s` are those of block `index` of the file from place `off` on. */
  ghost predicate StoredPart(fs: Fs, ino: Inode, index: nat, off: nat, s: seq<byte>)
    requires |ino.block| == 15
  {
    forall i :: 0 <= i < |s| ==> StoredByte(fs, ino, index, off + i, s[i])
  }

  lemma {:induction false} BlockPartStored(fs: Fs, ino: Inode, index: nat, off: nat, n: nat)
    requires FileOk(fs, ino) && off + n <= fs.blockSize
    ensures StoredPart(fs, ino, index, off, FileBlock(fs, ino, index)[off..off + n])
  {
    var s := FileBlock(fs, ino, index)[off..off + n];
    forall i | 0 <= i < n ensures StoredByte(fs, ino, index, off + i, s[i]) {
      BlockByteStored(fs, ino, index, off + i);
    }
  }

  lemma {:induction false} IndirectIs(fs: Fs, ino: Inode, index: nat)
    requires FileOk(fs, ino) && index >= 12 && 4 * (index - 12) + 4 <= fs.blockSize
    requires ino.block[12] != 0 && InImage(fs, ino.block[12])
    ensures DataBlock(fs, ino, index) == Indirect(fs, ino.block[12], index - 12)
  {
    BlockPtrIs(fs, ino.block[12]);
    U32AtIs(fs.image, ino.block[12] * fs.blockSize + 4 * (index - 12));
  }

  lemma {:induction false} PlaceOf(n: nat, bs: nat, index: nat, off: nat)
    requires off < bs && n == index * bs + off
    ensures Place(n, bs) == (index, off)
  {
    PlaceIs(n, bs);
    QuotientIs(n, bs, index, off);
  }

  lemma {:induction false} BlockByteIs(fs: Fs, ino: Inode, index: nat, off: nat)
    requires FileOk(fs, ino) && off < fs.blockSize
    ensures var b := DataBlock(fs, ino, index);
            && (b == 0 ==> FileBlock(fs, ino, index)[off] == 0)
            && (b != 0 && InImage(fs, b) ==> FileBlock(fs, ino, index)[off] == ByteAt(fs, b, off))
  {
    var b := DataBlock(fs, ino, index);
    if b != 0 && InImage(fs, b) {
      BlockPtrIs(fs, b);
      ByteOfBlock(fs.image, b * fs.blockSize, fs.blockSize, off);
    }
  }

  lemma ByteOfBlock(image: seq<byte>, start: nat, size: nat, off: nat)
    requires start + size <= |image| && off < size
    ensures image[start..start + size][off] == image[start + off]
  {
  }

  /** Bytes `a` to `b - 1` of a file. */
  ghost function Slice(fs: Fs, ino: Inode, a: nat, b: nat): (s: seq<byte>)
    requires FileOk(fs, ino) && a <= b
    ensures |s| == b - a
  {
    seq<byte>(b - a, i requires 0 <= i < b - a => FileByte(fs, ino, a + i))
  }

  lemma SliceAt(fs: Fs, ino: Inode, a: nat, b: nat, i: nat)
    requires FileOk(fs, ino) && i < b - a
    ensures Slice(fs, ino, a, b)[i] == FileByte(fs, ino, a + i)
  {
  }

  /** How much a read returns: the request cut at the end of the file, with the sum computed in
      32 bits. */
  function ReadLength(fileSize: nat, offset: nat, size: nat): (n: nat)
    ensures n <= size
  {
    if offset >= fileSize then 0
    else if Add32(offset, size) > fileSize then Min(fileSize - offset, size) else size
  }

  /** The sum of two words in 32 bits. */
  function Add32(a: nat, b: nat): nat { if a + b < TWO32 then a + b else a + b - TWO32 }

  lemma Add32Is(a: nat, b: nat)
    requires a < TWO32 && b < TWO32
    ensures Add32(a, b) == (a + b) % TWO32
  {
    ShiftMod(a + b, -1);
    if a + b < TWO32 {
      SmallMod(a + b);
    } else {
      SmallMod(a + b - TWO32);
    }
  }

  /** A read stops at the end of the file exactly when the sum of offset and size does not wrap
      around, or there is nothing to read anyway. */
  lemma ReadStopsAtEndIff(fileSize: nat, offset: nat, size: nat)
    requires fileSize < TWO32 && offset < TWO32 && size < TWO32
    ensures ReadLength(fileSize, offset, size) == (if offset >= fileSize then 0 else Min(size, fileSize - offset))
            <==> offset >= fileSize || offset + size < TWO32
  {
  }

  /** The wrapped sum in numbers: a ten-byte file yields 4294967291 bytes from offset 5. */
  lemma ReadPastTheEnd()
    ensures ReadLength(10, 5, TWO32 - 5) == TWO32 - 5
  {
  }

  /** Byte `i` is in a block whose pointer is refused. */
  predicate BadByte(fs: Fs, ino: Inode, i: nat)
    requires FsOk(fs) && InodeShape(ino) && Safe(fs, ino.block[DIRECT])
  {
    Bad(fs, ino, Place(i, fs.blockSize).0)
  }

  /** How many of `n` bytes from `pos` on come before the first block whose pointer is refused. */
  ghost function Readable(fs: Fs, ino: Inode, pos: nat, n: nat): (k: nat)
    requires FileOk(fs, ino)
    ensures k <= n
    decreases n
  {
    if n == 0 || BadByte(fs, ino, pos) then 0 else 1 + Readable(fs, ino, pos + 1, n - 1)
  }

  /** Reading stops at a bad block and nowhere else. */
  lemma {:induction false} ReadableIs(fs: Fs, ino: Inode, pos: nat, n: nat, i: nat)
    requires FileOk(fs, ino) && i < n
    ensures var k := Readable(fs, ino, pos, n);
            (i < k ==> !BadByte(fs, ino, pos + i)) && (i == k ==> BadByte(fs, ino, pos + i))
    decreases n
  {
    if !BadByte(fs, ino, pos) && i > 0 {
      ReadableIs(fs, ino, pos + 1, n - 1, i - 1);
    }
  }

  lemma {:induction false} ReadableInPieces(fs: Fs, ino: Inode, pos: nat, n: nat, m: nat)
    requires FileOk(fs, ino)
    ensures Readable(fs, ino, pos, n + m) == Readable(fs, ino, pos, n) + Readable(fs, ino, pos + Readable(fs, ino, pos, n), m)
    decreases n
  {
    if n > 0 && !BadByte(fs, ino, pos) {
      ReadableInPieces(fs, ino, pos + 1, n - 1, m);
    } else if n > 0 {
      assert Readable(fs, ino, pos, m) == 0;
    }
  }

  /** The bytes of one block are readable all together or not at all. */
  lemma {:induction false} ReadableInBlock(fs: Fs, ino: Inode, pos: nat, n: nat)
    requires FileOk(fs, ino) && Place(pos, fs.blockSize).1 + n <= fs.blockSize && !BadByte(fs, ino, pos)
    ensures Readable(fs, ino, pos, n) == n
    decreases n
  {
    if n > 1 {
      PlaceOn(pos, fs.blockSize, 1);
      ReadableInBlock(fs, ino, pos + 1, n - 1);
    }
  }

  /** What a read returns. */
  ghost function ReadResult(fs: Fs, ino: Inode, offset: nat, size: nat): seq<byte>
    requires FileOk(fs, ino)
  {
    Slice(fs, ino, offset, offset + Readable(fs, ino, offset, ReadLength(ino.size, offset, size)))
  }

  /** Every byte a read returns is the one stored at its place of the file. */
  lemma {:induction false} ReadReturnsStored(fs: Fs, ino: Inode, offset: nat, size: nat, i: nat)
    requires FileOk(fs, ino) && i < |ReadResult(fs, ino, offset, size)|
    ensures StoredAt(fs, ino, offset + i, ReadResult(fs, ino, offset, size)[i])
  {
    var n := offset + i;
    SliceAt(fs, ino, offset, offset + |ReadResult(fs, ino, offset, size)|, i);
    FileByteStored(fs, ino, n);
  }

  lemma {:induction false} FileByteStored(fs: Fs, ino: Inode, n: nat)
    requires FileOk(fs, ino)
    ensures StoredAt(fs, ino, n, FileByte(fs, ino, n))
  {
    PlaceIs(n, fs.blockSize);
    var at := Place(n, fs.blockSize);
    FileByteIs(fs, ino, at.0, at.1, n);
  }

  /** A direct pointer is refused exactly when its offset, computed in 32 bits, is not in the image. */
  lemma RefusedIff(fs: Fs, ino: Inode, index: nat)
    requires FsOk(fs) && InodeShape(ino) && Safe(fs, ino.block[12]) && index < 12
    ensures var p := ino.block[index];
            Bad(fs, ino, index) <==> p != 0 && (p * fs.blockSize) % 0x1_0000_0000 >= |fs.image|
  {
  }

  /** Cutting a read in two returns the same bytes, also across a block that cannot be read. */
  lemma ReadInPieces(fs: Fs, ino: Inode, offset: nat, n: nat, m: nat)
    requires FileOk(fs, ino) && offset + n + m < TWO32
    ensures ReadResult(fs, ino, offset, n + m) ==
            ReadResult(fs, ino, offset, n) + ReadResult(fs, ino, offset + |ReadResult(fs, ino, offset, n)|, m)
  {
    var k := Readable(fs, ino, offset, ReadLength(ino.size, offset, n));
    LengthInPieces(fs, ino, offset, n, m);
    SliceConcat(fs, ino, offset, offset + k, offset + Readable(fs, ino, offset, ReadLength(ino.size, offset, n + m)));
  }

  lemma SliceConcat(fs: Fs, ino: Inode, a: nat, b: nat, c: nat)
    requires FileOk(fs, ino) && a <= b <= c
    ensures Slice(fs, ino, a, c) == Slice(fs, ino, a, b) + Slice(fs, ino, b, c)
  {
    var x, y := Slice(fs, ino, a, c), Slice(fs, ino, a, b) + Slice(fs, ino, b, c);
    forall i | 0 <= i < c - a ensures x[i] == y[i] {
      SliceAt(fs, ino, a, c, i);
      if i < b - a {
        SliceAt(fs, ino, a, b, i);
      } else {
        SliceAt(fs, ino, b, c, i - (b - a));
        assert a + i == b + (i - (b - a));
      }
    }
  }

  lemma {:induction false} LengthInPieces(fs: Fs, ino: Inode, offset: nat, n: nat, m: nat)
    requires FileOk(fs, ino) && offset + n + m < TWO32
    ensures var k := Readable(fs, ino, offset, ReadLength(ino.size, offset, n));
            Readable(fs, ino, offset, ReadLength(ino.size, offset, n + m)) ==
            k + Readable(fs, ino, offset + k, ReadLength(ino.size, offset + k, m))
  {
    var a := ReadLength(ino.size, offset, n);
    var k := Readable(fs, ino, offset, a);
    CutInPieces(ino.size, offset, n, m, k);
    PiecesAdd(fs, ino, offset, a, ReadLength(ino.size, offset, n + m) - a, ReadLength(ino.size, offset + k, m));
  }

  lemma {:induction false} PiecesAdd(fs: Fs, ino: Inode, pos: nat, a: nat, b: nat, c: nat)
    requires FileOk(fs, ino) && (Readable(fs, ino, pos, a) == a ==> b == c)
    ensures var k := Readable(fs, ino, pos, a); Readable(fs, ino, pos, a + b) == k + Readable(fs, ino, pos + k, c)
  {
    var k := Readable(fs, ino, pos, a);
    ReadableInPieces(fs, ino, pos, a, b);
    if k < a {
      ReadableIs(fs, ino, pos, a, k);
      NothingBehindBad(fs, ino, pos + k, b);
      NothingBehindBad(fs, ino, pos + k, c);
    }
  }

  /** One chunk of a block, followed by the rest of the read. */
  lemma {:induction false} ReadableStep(fs: Fs, ino: Inode, pos: nat, chunk: nat, left: nat)
    requires FileOk(fs, ino) && chunk <= left && Place(pos, fs.blockSize).1 + chunk <= fs.blockSize
    ensures if BadByte(fs, ino, pos) then Readable(fs, ino, pos, left) == 0
            else Readable(fs, ino, pos, left) == chunk + Readable(fs, ino, pos + chunk, left - chunk)
  {
    if !BadByte(fs, ino, pos) {
      ReadableInBlock(fs, ino, pos, chunk);
      ReadableInPieces(fs, ino, pos, chunk, left - chunk);
    }
  }

  lemma {:induction false} NothingBehindBad(fs: Fs, ino: Inode, pos: nat, n: nat)
    requires FileOk(fs, ino) && BadByte(fs, ino, pos)
    ensures Readable(fs, ino, pos, n) == 0
  {
  }

  /** The lengths of the pieces add up. */
  lemma CutInPieces(fileSize: nat, offset: nat, n: nat, m: nat, k: nat)
    requires fileSize < TWO32 && offset + n + m < TWO32 && k <= ReadLength(fileSize, offset, n)
    ensures ReadLength(fileSize, offset, n) <= ReadLength(fileSize, offset, n + m)
    ensures k == ReadLength(fileSize, offset, n) ==>
              ReadLength(fileSize, offset, n + m) == k + ReadLength(fileSize, offset + k, m)
  {
    ReadStopsAtEndIff(fileSize, offset, n + m);
    ReadStopsAtEndIff(fileSize, offset, n);
    ReadStopsAtEndIff(fileSize, offset + k, m);
  }

  /** A file without refused pointers is read to the end of the request. */
  lemma {:induction false} ReadableAll(fs: Fs, ino: Inode, pos: nat, n: nat)
    requires FileOk(fs, ino) && forall index: nat :: !Bad(fs, ino, index)
    ensures Readable(fs, ino, pos, n) == n
    decreases n
  {
    if n > 0 {
      ReadableAll(fs, ino, pos + 1, n - 1);
    }
  }
}
