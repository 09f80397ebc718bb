/** Directories of an ext2 image: enumeration by index and lookup by name. */
module Ext2Dir {
  import opened Wrappers
  import opened Bytes
  import opened Sequences
  import opened Ext2Spec

  datatype Entry = Entry(inode: nat, name: seq<byte>)

  /** What a lookup selects: the root of the device file system, or an inode. */
  datatype Found = Nothing | DevRoot | Selected(inode: nat)

  const DEV: seq<byte> := [100, 101, 118]

  // ---- One block of records

  /** The chain of records from offset `o` on stays inside the block, with room for the names. */
  predicate ChainOk(blk: seq<byte>, o: nat)
    decreases |blk| - o
  {
    || o == |blk|
    || (o + 8 <= |blk| &&
        var len := U16At(blk, o + 4);
        len == 0 || (o + len <= |blk| && (blk[o + 6] != 0 ==> 8 + blk[o + 6] <= len) && ChainOk(blk, o + len)))
  }

  /** A record in use. */
  predicate LiveAt(blk: seq<byte>, o: nat)
    requires o + 8 <= |blk|
  {
    U32At(blk, o) != 0 && blk[o + 6] != 0 && U16At(blk, o + 4) != 0
  }

  function EntryAt(blk: seq<byte>, o: nat): Entry
    requires o < |blk| && ChainOk(blk, o) && LiveAt(blk, o)
  {
    Entry(U32At(blk, o), blk[o + 8..o + 8 + blk[o + 6]])
  }

  /** The entries of the block from offset `o` on. */
  function Records(blk: seq<byte>, o: nat): seq<Entry>
    requires ChainOk(blk, o)
    decreases |blk| - o
  {
    if o >= |blk| || U16At(blk, o + 4) == 0 then []
    else
      var rest := Records(blk, o + U16At(blk, o + 4));
      if LiveAt(blk, o) then [EntryAt(blk, o)] + rest else rest
  }

  /** Following record lengths from `o` leads to `x`. */
  predicate Leads(blk: seq<byte>, o: nat, x: nat)
    requires ChainOk(blk, o)
    decreases |blk| - o
  {
    && o < |blk|
    && (U16AtIs(blk, o + 4);
        var len := Number(blk[o + 4..o + 6]);
        o == x || (len != 0 && Leads(blk, o + len, x)))
  }

  lemma {:induction false} LeadsOk(blk: seq<byte>, o: nat, x: nat)
    requires ChainOk(blk, o) && Leads(blk, o, x)
    ensures o <= x && x + 8 <= |blk| && ChainOk(blk, x)
    decreases |blk| - o
  {
    if o != x {
      U16AtIs(blk, o + 4);
      LeadsOk(blk, o + U16At(blk, o + 4), x);
    }
  }

  /** The live offsets behind the entries: strictly increasing, and exactly the live records that
      the chain leads to. */
  function Offsets(blk: seq<byte>, o: nat): seq<nat>
    requires ChainOk(blk, o)
    decreases |blk| - o
  {
    if o >= |blk| || U16At(blk, o + 4) == 0 then []
    else
      var rest := Offsets(blk, o + U16At(blk, o + 4));
      if LiveAt(blk, o) then [o] + rest else rest
  }

  /** The record at `x` is in use: it has an inode, a name and a length. */
  predicate InUse(blk: seq<byte>, x: nat)
    requires x + 8 <= |blk|
  {
    Number(blk[x..x + 4]) != 0 && Number(blk[x + 4..x + 6]) != 0 && blk[x + 6] != 0
  }

  /** The record at `x` holds the inode and the name of `e`. */
  predicate RecordIs(blk: seq<byte>, x: nat, e: Entry) {
    && x + 8 + |e.name| <= |blk| && InUse(blk, x)
    && e.inode == Number(blk[x..x + 4]) && |e.name| == blk[x + 6] && e.name == blk[x + 8..x + 8 + |e.name|]
  }

  lemma {:induction false} LiveIsInUse(blk: seq<byte>, x: nat)
    requires x + 8 <= |blk|
    ensures LiveAt(blk, x) <==> InUse(blk, x)
    ensures LiveAt(blk, x) && ChainOk(blk, x) ==> RecordIs(blk, x, EntryAt(blk, x))
  {
    U32AtIs(blk, x);
    U16AtIs(blk, x + 4);
  }

  /** Entry `i` of a block is what the record at its `i`-th offset holds. */
  lemma {:induction false} RecordsAreLive(blk: seq<byte>, o: nat, i: nat)
    requires ChainOk(blk, o)
    ensures |Offsets(blk, o)| == |Records(blk, o)|
    ensures i < |Offsets(blk, o)| ==> o <= Offsets(blk, o)[i] && RecordIs(blk, Offsets(blk, o)[i], Records(blk, o)[i])
    decreases |blk| - o
  {
    if o < |blk| && U16At(blk, o + 4) != 0 {
      var o' := o + U16At(blk, o + 4);
      LiveIsInUse(blk, o);
      if !LiveAt(blk, o) {
        RecordsAreLive(blk, o', i);
      } else if i > 0 {
        RecordsAreLive(blk, o', i - 1);
      } else {
        RecordsAreLive(blk, o', 0);
      }
    }
  }

  /** Offsets increase along the listing: no record is listed twice. */
  lemma {:induction false} OffsetsIncrease(blk: seq<byte>, o: nat, i: nat, j: nat)
    requires ChainOk(blk, o) && i < j < |Offsets(blk, o)|
    ensures o <= Offsets(blk, o)[i] < Offsets(blk, o)[j]
    decreases |blk| - o
  {
    var o' := o + U16At(blk, o + 4);
    if !LiveAt(blk, o) {
      OffsetsIncrease(blk, o', i, j);
    } else if i > 0 {
      OffsetsIncrease(blk, o', i - 1, j - 1);
    } else {
      RecordsAreLive(blk, o', j - 1);
    }
  }

  /** Nothing the chain leads to is missed, and nothing else is listed. */
  lemma {:induction false} RecordsComplete(blk: seq<byte>, o: nat, x: nat)
    requires ChainOk(blk, o)
    ensures x in Offsets(blk, o) <==> Leads(blk, o, x) && x + 8 <= |blk| && InUse(blk, x)
    decreases |blk| - o
  {
    if o < |blk| {
      LiveIsInUse(blk, o);
      U16AtIs(blk, o + 4);
      if U16At(blk, o + 4) != 0 {
        RecordsComplete(blk, o + U16At(blk, o + 4), x);
        LeadsBehind(blk, o, x);
      }
    }
  }

  lemma {:induction false} LeadsBehind(blk: seq<byte>, o: nat, x: nat)
    requires ChainOk(blk, o) && o < |blk| && U16At(blk, o + 4) != 0
    ensures Leads(blk, o, x) <==> x == o || Leads(blk, o + U16At(blk, o + 4), x)
  {
    U16AtIs(blk, o + 4);
  }

  // ---- The twelve direct blocks

  /** The bytes of a directory block; none for a hole or a pointer outside the image. */
  function DirBlock(fs: Fs, p: nat): Option<seq<byte>> {
    if p == 0 then None
    else match BlockPtr(fs, p)
      case None => None
      case Some(off) => if off + fs.blockSize <= |fs.image| then Some(fs.image[off..off + fs.blockSize]) else None
  }

  /** A block of the image is read where it lies. */
  lemma DirBlockIs(fs: Fs, p: nat)
    requires FsOk(fs) && p != 0 && p * fs.blockSize + fs.blockSize <= |fs.image|
    ensures DirBlock(fs, p) == Some(fs.image[p * fs.blockSize..p * fs.blockSize + fs.blockSize])
  {
    BlockPtrIs(fs, p);
  }

  predicate DirBlockOk(fs: Fs, p: nat) {
    p == 0 ||
    match BlockPtr(fs, p)
    case None => true
    case Some(off) => off + fs.blockSize <= |fs.image| && ChainOk(fs.image[off..off + fs.blockSize], 0)
  }

  predicate DirOk(fs: Fs, ino: Inode) {
    FsOk(fs) && InodeShape(ino) && BlocksOk(fs, ino.block[..DIRECT])
  }

  predicate BlocksOk(fs: Fs, ps: seq<nat>) {
    forall b :: 0 <= b < |ps| ==> DirBlockOk(fs, ps[b])
  }

  function BlockEntries(fs: Fs, p: nat): seq<Entry>
    requires DirBlockOk(fs, p)
  {
    match DirBlock(fs, p)
    case None => []
    case Some(blk) => Records(blk, 0)
  }

  /** The entries of a list of blocks. */
  function EntriesOf(fs: Fs, ps: seq<nat>): seq<Entry>
    requires BlocksOk(fs, ps)
  {
    if ps == [] then [] else BlockEntries(fs, ps[0]) + EntriesOf(fs, ps[1..])
  }

  /** The entries of a block come after those of the blocks in front of it and before those behind it,
      in their own order. */
  lemma {:induction false} BlocksInOrder(fs: Fs, ps: seq<nat>, b: nat)
    requires BlocksOk(fs, ps) && b < |ps|
    ensures EntriesOf(fs, ps) == EntriesOf(fs, ps[..b]) + BlockEntries(fs, ps[b]) + EntriesOf(fs, ps[b + 1..])
  {
    assert ps[..b] + ps[b..] == ps;
    EntriesConcat(fs, ps[..b], ps[b..]);
    StepAlong(ps, b);
  }

  lemma {:induction false} EntriesConcat(fs: Fs, a: seq<nat>, b: seq<nat>)
    requires BlocksOk(fs, a) && BlocksOk(fs, b) && BlocksOk(fs, a + b)
    ensures EntriesOf(fs, a + b) == EntriesOf(fs, a) + EntriesOf(fs, b)
  {
    if a == [] {
      assert a + b == b;
    } else {
      assert (a + b)[0] == a[0] && (a + b)[1..] == a[1..] + b;
      EntriesConcat(fs, a[1..], b);
      EntriesOn(BlockEntries(fs, a[0]), EntriesOf(fs, a[1..]), EntriesOf(fs, b));
    }
  }

  lemma EntriesOn(x: seq<Entry>, y: seq<Entry>, z: seq<Entry>)
    ensures x + (y + z) == (x + y) + z
  {
  }

  /** The entries of the direct blocks. */
  function Entries(fs: Fs, ino: Inode): seq<Entry>
    requires DirOk(fs, ino)
  {
    EntriesOf(fs, ino.block[..DIRECT])
  }

  /** What a directory shows: its entries, and "dev" after them at the root. */
  function Listing(fs: Fs, ino: Inode, root: bool): seq<Entry>
    requires DirOk(fs, ino)
  {
    Entries(fs, ino) + if root then [Entry(0, DEV)] else []
  }

  /** The entries come first; at the root, and only there, "dev" follows them. */
  lemma ListingIs(fs: Fs, ino: Inode, root: bool, i: nat)
    requires DirOk(fs, ino) && i < |Listing(fs, ino, root)|
    ensures |Listing(fs, ino, root)| == |Entries(fs, ino)| + if root then 1 else 0
    ensures Listing(fs, ino, root)[i] ==
            if i < |Entries(fs, ino)| then Entries(fs, ino)[i] else Entry(0, [100, 101, 118])
  {
  }

  /** The inode of the first entry with a name. */
  function First(es: seq<Entry>, name: seq<byte>): Option<nat> {
    if es == [] then None
    else if es[0].name == name then Some(es[0].inode)
    else First(es[1..], name)
  }

  lemma {:induction false} FirstConcat(a: seq<Entry>, b: seq<Entry>, name: seq<byte>)
    ensures First(a + b, name) == if First(a, name).Some? then First(a, name) else First(b, name)
  {
    if a == [] {
      assert a + b == b;
    } else if a[0].name != name {
      FirstConcat(a[1..], b, name);
      assert (a + b)[1..] == a[1..] + b;
    }
  }

  /** No entry has the name. */
  ghost predicate Unnamed(es: seq<Entry>, name: seq<byte>) {
    forall i :: 0 <= i < |es| ==> es[i].name != name
  }

  /** Index `k` of a listing shows the name first. */
  ghost predicate ShowsFirst(es: seq<Entry>, k: nat, n: nat, name: seq<byte>) {
    k < |es| && es[k] == Entry(n, name) && Unnamed(es[..k], name)
  }

  /** `First` finds the entry that shows the name first, and nothing exactly when none does. */
  lemma {:induction false} FirstIs(es: seq<Entry>, name: seq<byte>, n: nat)
    ensures First(es, name) == None <==> Unnamed(es, name)
    ensures First(es, name) == Some(n) <==> exists k :: ShowsFirst(es, k, n, name)
  {
    if es == [] {
    } else if es[0].name == name {
      ShowsAtHead(es, name, n);
    } else {
      FirstIs(es[1..], name, n);
      assert forall i :: 1 <= i < |es| ==> es[i] == es[1..][i - 1];
      ShowsInTail(es, name, n);
    }
  }

  lemma ShowsAtHead(es: seq<Entry>, name: seq<byte>, n: nat)
    requires es != [] && es[0].name == name
    ensures n == es[0].inode <==> exists k :: ShowsFirst(es, k, n, name)
  {
    if n == es[0].inode {
      assert ShowsFirst(es, 0, n, name);
    }
    forall k: nat | 0 < k <= |es| ensures !Unnamed(es[..k], name) {
      assert es[..k][0] == es[0];
    }
  }

  lemma ShowsInTail(es: seq<Entry>, name: seq<byte>, n: nat)
    requires es != [] && es[0].name != name
    ensures (exists k :: ShowsFirst(es, k, n, name)) <==> exists k :: ShowsFirst(es[1..], k, n, name)
  {
    if k: nat :| ShowsFirst(es, k, n, name) {
      ShowsShift(es, k - 1, n, name);
    }
    if k: nat :| ShowsFirst(es[1..], k, n, name) {
      ShowsShift(es, k, n, name);
    }
  }

  lemma ShowsShift(es: seq<Entry>, k: nat, n: nat, name: seq<byte>)
    requires es != [] && es[0].name != name
    ensures ShowsFirst(es, k + 1, n, name) <==> ShowsFirst(es[1..], k, n, name)
  {
    if k + 1 < |es| {
      UnnamedCons(es[0], es[1..][..k], name);
      assert es[..k + 1] == [es[0]] + es[1..][..k];
    }
  }

  lemma UnnamedCons(e: Entry, es: seq<Entry>, name: seq<byte>)
    ensures Unnamed([e] + es, name) <==> e.name != name && Unnamed(es, name)
  {
    var all := [e] + es;
    assert forall i :: 0 <= i < |es| ==> all[i + 1] == es[i];
    if Unnamed(all, name) {
      assert all[0].name != name;
      forall i | 0 <= i < |es| ensures es[i].name != name {
        assert all[i + 1].name != name;
      }
    }
  }

  /** The lookup as a choice among the entries. */
  function Lookup(fs: Fs, ino: Inode, root: bool, name: seq<byte>): Found
    requires DirOk(fs, ino)
  {
    if root && name == DEV then DevRoot
    else
      match First(Entries(fs, ino), name)
      case Some(inode) => Selected(inode)
      case None => Nothing
  }

  /** Lookup and enumeration agree: a name selects the inode of the first index that shows it, and
      finds nothing exactly when no index shows it; at the root "dev" leads to the device file
      system, and the last index shows it. */
  lemma LookupAgrees(fs: Fs, ino: Inode, root: bool, name: seq<byte>, n: nat)
    requires DirOk(fs, ino)
    ensures var es := Listing(fs, ino, root); var r := Lookup(fs, ino, root, name);
            && (r == Selected(n) <==> !(root && name == DEV) && exists k :: ShowsFirst(es, k, n, name))
            && (r == Nothing <==> Unnamed(es, name))
            && (r == DevRoot <==> root && name == DEV)
            && (r == DevRoot ==> es[|es| - 1] == Entry(0, name))
  {
    var es := Listing(fs, ino, root);
    FirstConcat(Entries(fs, ino), if root then [Entry(0, DEV)] else [], name);
    FirstIs(es, name, n);
  }

  // ---- The loops

  /** Counting from `seen`: the entry numbered `index`, or the count after the entries. */
  function Pick(es: seq<Entry>, seen: nat, index: nat): (Option<Entry>, nat)
    requires seen <= index
  {
    if index - seen < |es| then (Some(es[index - seen]), index) else (None, seen + |es|)
  }

  lemma PickConcat(a: seq<Entry>, b: seq<Entry>, seen: nat, index: nat)
    requires seen <= index
    ensures var r := Pick(a, seen, index);
            Pick(a + b, seen, index) == if r.0.Some? then r else Pick(b, r.1, index)
  {
  }

  /** The inner loop of `ext2_readdir`: look for entry number `index`, the first of the block being
      number `start`. */
  method ScanIndex(blk: seq<byte>, start: nat, index: nat) returns (hit: Option<Entry>, seen: nat)
    requires ChainOk(blk, 0) && start <= index
    ensures (hit, seen) == Pick(Records(blk, 0), start, index)
  {
    var offset: nat := 0;
    seen := start;
    while offset < |blk|
      invariant offset <= |blk| && ChainOk(blk, offset) && seen <= index
      invariant Pick(Records(blk, offset), seen, index) == Pick(Records(blk, 0), start, index)
    {
      var len := U16At(blk, offset + 4);
      if LiveAt(blk, offset) {
        var e := EntryAt(blk, offset);
        PickConcat([e], Records(blk, offset + len), seen, index);
        if seen == index {
          return Some(e), seen;
        }
        seen := seen + 1;
      }
      if len == 0 {
        break;
      }
      offset := offset + len;
    }
    hit := None;
  }

  /** `ext2_readdir`: the entry at a position of the listing. */
  method Readdir(fs: Fs, ino: Inode, isDir: bool, root: bool, index: nat) returns (r: Option<Entry>)
    requires DirOk(fs, ino)
    ensures r == if isDir && index < |Listing(fs, ino, root)| then Some(Listing(fs, ino, root)[index]) else None
  {
    if !isDir {
      return None;
    }
    var hit, seen := FindEntry(fs, ino.block[..DIRECT], index);
    if hit.Some? {
      return hit;
    }
    if root && index == seen {
      return Some(Entry(0, DEV));
    }
    return None;
  }

  /** The loop over the direct blocks. */
  method FindEntry(fs: Fs, ps: seq<nat>, index: nat) returns (hit: Option<Entry>, seen: nat)
    requires BlocksOk(fs, ps)
    ensures (hit, seen) == Pick(EntriesOf(fs, ps), 0, index)
  {
    seen := 0;
    WholeSequence(ps);
    for b := 0 to |ps|
      invariant seen <= index
      invariant Pick(EntriesOf(fs, ps[b..]), seen, index) == Pick(EntriesOf(fs, ps), 0, index)
    {
      StepAlong(ps, b);
      PickConcat(BlockEntries(fs, ps[b]), EntriesOf(fs, ps[b + 1..]), seen, index);
      hit, seen := ReaddirBlock(fs, ps[b], seen, index);
      if hit.Some? {
        return;
      }
    }
    hit := None;
  }

  /** One direct block: holes and bad pointers are skipped. */
  method ReaddirBlock(fs: Fs, p: nat, start: nat, index: nat) returns (hit: Option<Entry>, seen: nat)
    requires DirBlockOk(fs, p) && start <= index
    ensures (hit, seen) == Pick(BlockEntries(fs, p), start, index)
  {
    var blk := DirBlock(fs, p);
    if blk.None? {
      return None, start;
    }
    hit, seen := ScanIndex(blk.value, start, index);
  }

  /** The inner loop of `ext2_finddir`: the first record with the name. */
  method ScanName(blk: seq<byte>, name: seq<byte>) returns (hit: Option<nat>)
    requires ChainOk(blk, 0)
    ensures hit == First(Records(blk, 0), name)
  {
    var offset: nat := 0;
    while offset < |blk|
      invariant offset <= |blk| && ChainOk(blk, offset)
      invariant First(Records(blk, offset), name) == First(Records(blk, 0), name)
    {
      var len := U16At(blk, offset + 4);
      if LiveAt(blk, offset) {
        var e := EntryAt(blk, offset);
        FirstConcat([e], Records(blk, offset + len), name);
        if blk[offset + 6] == |name| && e.name == name {
          return Some(e.inode);
        }
      }
      if len == 0 {
        break;
      }
      offset := offset + len;
    }
    return None;
  }

  /** One direct block of a lookup. */
  method FinddirBlock(fs: Fs, p: nat, name: seq<byte>) returns (hit: Option<nat>)
    requires DirBlockOk(fs, p)
    ensures hit == First(BlockEntries(fs, p), name)
  {
    var blk := DirBlock(fs, p);
    if blk.None? {
      return None;
    }
    hit := ScanName(blk.value, name);
  }

  /** `ext2_finddir`: the node a name leads to. */
  method Finddir(fs: Fs, ino: Inode, isDir: bool, root: bool, name: seq<byte>) returns (r: Found)
    requires DirOk(fs, ino)
    ensures r == if isDir then Lookup(fs, ino, root, name) else Nothing
  {
    if !isDir {
      return Nothing;
    }
    if root && name == DEV {
      return DevRoot;
    }
    var hit := FindName(fs, ino.block[..DIRECT], name);
    return if hit.Some? then Selected(hit.value) else Nothing;
  }

  /** The loop over the direct blocks. */
  method FindName(fs: Fs, ps: seq<nat>, name: seq<byte>) returns (hit: Option<nat>)
    requires BlocksOk(fs, ps)
    ensures hit == First(EntriesOf(fs, ps), name)
  {
    WholeSequence(ps);
    for b := 0 to |ps|
      invariant First(EntriesOf(fs, ps[b..]), name) == First(EntriesOf(fs, ps), name)
    {
      StepAlong(ps, b);
      FirstConcat(BlockEntries(fs, ps[b]), EntriesOf(fs, ps[b + 1..]), name);
      hit := FinddirBlock(fs, ps[b], name);
      if hit.Some? {
        return;
      }
    }
    hit := None;
  }
}
