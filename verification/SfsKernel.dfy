/**
 How the kernel reads an image (lab8/kern/fs/sfs): the block map without its double-indirect level, the
 free-map test, and the read path of sfs_io_nolock. Disk transfers do not fail here.
 */
module SfsKernel {
  import opened ByteSeq
  import opened SfsModel
  import opened SfsFreeMap
  import opened Sfs
  import opened SfsEntry
  import opened Sequences
  import opened Powers

  const MAX_FILE_SIZE := 134217728

  datatype Answer = Block(ino: int) | Panic

  /** sfs_block_inuse says yes; for 0 and for numbers past the end it panics. */
  predicate InUse(image: Image, blocks: int, ino: int) {
    0 < ino < blocks && !TestBit(image, ino)
  }

  /** sfs_bmap_get_nolock without creation. */
  function BmapGet(image: Image, blocks: int, node: Inode, index: nat): Answer {
    if index < NDIRECT then
      Checked(image, blocks, Nth(node.direct, index))
    else if index - NDIRECT < NENTRY then
      Checked(image, blocks, if node.indirect != 0 then Lookup(image, node.indirect, index - NDIRECT) else 0)
    else
      Panic
  }

  /** The assertion at its end: 0, or a block in use. */
  function Checked(image: Image, blocks: int, ino: int): Answer {
    if ino == 0 || InUse(image, blocks, ino) then Block(ino) else Panic
  }

  /** sfs_bmap_load_nolock for an index below the number of blocks, where nothing is created. */
  function BmapLoad(image: Image, blocks: int, node: Inode, index: nat): Answer
    requires index < node.blocks
  {
    match BmapGet(image, blocks, node, index)
    case Panic => Panic
    case Block(ino) => if InUse(image, blocks, ino) then Block(ino) else Panic
  }

  /** Numbers given out by the builder pass the kernel's test. */
  lemma GivenOutInUse(b: Builder, n: int)
    requires b.Valid() && b.Written() && n in b.uses
    ensures InUse(b.image, b.ninos, n)
  {
    TestBitWritten(b.image, b.nextIno, b.ninos, n);
  }

  lemma FileFacts(b: Builder, f: int, i: int)
    requires b.Valid() && 0 <= f < |b.inodes| && 0 <= i < |b.files[f].nums|
    ensures FileOk(b.inodes[f], f, b.files[f], b.cache, b.roles)
    ensures |b.files[f].chunks| == |b.files[f].nums| && ChunkOk(f, i, b.files[f], b.uses, b.image)
    ensures b.inodes[f].inode.size == |Flatten(b.files[f].chunks)|
  {
    assert ContentOk(f, b.files[f], b.inodes[f].inode.size, b.uses, b.image);
  }

  /** End to end: in a finished image the inode block of every file resolves index i to the block the
      builder appended as its i-th, and that block holds what was written to it. */
  lemma ImageResolves(b: Builder, f: int, i: nat)
    requires b.Valid() && b.Written() && 0 <= f < |b.inodes| && i < b.inodes[f].nblks
    ensures b.inodes[f].ino in b.image && b.image[b.inodes[f].ino] == Node(b.inodes[f].inode)
    ensures i < |b.files[f].nums| && Resolve(b.inodes[f].inode, b.image, i) == b.files[f].nums[i]
    ensures |b.files[f].chunks| == |b.files[f].nums| && ChunkOk(f, i, b.files[f], b.uses, b.image)
  {
    hide Resolve, Mapped, IndexWritten, MapWritten;
    assert FileOk(b.inodes[f], f, b.files[f], b.cache, b.roles);
    assert NodeAt(b.inodes[f], b.image);
    FileFacts(b, f, i);
    ResolveMapped(b.inodes[f], f, b.files[f].nums, b.files[f].leaves, b.cache, b.roles, b.image, i);
  }

  /** The kernel finds the same block exactly for indices below 1036, and panics from there on: the
      builder's double-indirect blocks are never read. */
  lemma KernelResolves(b: Builder, f: int, i: nat)
    requires b.Valid() && b.Written() && 0 <= f < |b.inodes| && i < b.inodes[f].nblks
    ensures i < |b.files[f].nums| && i < b.inodes[f].inode.blocks
    ensures BmapLoad(b.image, b.ninos, b.inodes[f].inode, i) ==
            if i < L1_NBLKS then Block(b.files[f].nums[i]) else Panic
  {
    hide Builder.Valid, Builder.Written, InUse;
    FileSize(b, f);
    ImageResolves(b, f, i);
    GivenOutInUse(b, b.files[f].nums[i]);
    Positions(b, b.files[f].nums[i]);
  }

  lemma Positions(b: Builder, n: int)
    requires b.Valid() && b.Written() && n in b.uses
    ensures n > 0 && BLKN_SUPER in b.image && b.image[BLKN_SUPER].Super?
  {
  }

  /** The check of sfs_do_mount: the set bits of the free map are as many as the superblock says. */
  method MountCheck(b: Builder) returns (ok: bool)
    requires b.Valid() && b.Written()
    ensures ok
  {
    var super := b.image[BLKN_SUPER];
    var unused := CountFree(b.image, b.nextIno, super.blocks);
    ok := unused == super.unused;
  }

  // ---------- directories ----------

  ghost predicate SlotHolds(image: Image, blocks: int, node: Inode, entry: Bytes, i: nat)
    requires i < node.blocks
  {
    var a := BmapLoad(image, blocks, node, i);
    a.Block? && a.ino in image && |entry| == BLKSIZE && image[a.ino] == Data(entry)
  }

  /** The kernel can find every block of the directory, and the i-th is `entries[i]`. */
  ghost predicate DirLayout(image: Image, blocks: int, node: Inode, entries: seq<Bytes>) {
    |entries| == node.blocks && forall i: nat :: i < node.blocks ==> SlotHolds(image, blocks, node, entries[i], i)
  }

  predicate Matches(entry: Bytes, name: Bytes)
    requires |entry| == BLKSIZE
  {
    ReadIno(entry) != 0 && ReadName(entry) == name
  }

  /** sfs_dirent_search_nolock: the first used slot with the name, and the last unused one before it. */
  method DirentSearch(image: Image, blocks: int, node: Inode, name: Bytes, ghost entries: seq<Bytes>)
    returns (r: Option<int>, slot: nat, empty: nat)
    requires DirLayout(image, blocks, node, entries)
    ensures forall i :: 0 <= i < |entries| ==> |entries[i]| == BLKSIZE
    ensures slot <= |entries| && (r.Some? <==> slot < |entries|)
    ensures r.Some? ==> Matches(entries[slot], name) && r.value == ReadIno(entries[slot])
    ensures forall i :: 0 <= i < slot ==> !Matches(entries[i], name)
    ensures empty < slot ==> ReadIno(entries[empty]) == 0
    ensures empty >= slot ==> empty == |entries|
    ensures forall i :: 0 <= i < slot && (i > empty || empty == |entries|) ==> ReadIno(entries[i]) != 0
  {
    hide BmapLoad, ReadIno, ReadName;
    forall i | 0 <= i < |entries| ensures |entries[i]| == BLKSIZE {
      assert SlotHolds(image, blocks, node, entries[i], i);
    }
    slot, empty := 0, node.blocks;
    while slot < node.blocks
      invariant slot <= |entries| && forall i :: 0 <= i < slot ==> !Matches(entries[i], name)
      invariant empty < slot ==> ReadIno(entries[empty]) == 0
      invariant empty >= slot ==> empty == |entries|
      invariant forall i :: 0 <= i < slot && (i > empty || empty == |entries|) ==> ReadIno(entries[i]) != 0
    {
      assert SlotHolds(image, blocks, node, entries[slot], slot);
      var entry := image[BmapLoad(image, blocks, node, slot).ino].bytes;
      if ReadIno(entry) == 0 {
        empty := slot;
      } else if name == ReadName(entry) {
        return Some(ReadIno(entry)), slot, empty;
      }
      slot := slot + 1;
    }
    r := None;
  }

  ghost function Blocks(chunks: seq<Bytes>): (r: seq<Bytes>)
    requires forall i :: 0 <= i < |chunks| ==> |chunks[i]| <= BLKSIZE
    ensures |r| == |chunks| && forall i :: 0 <= i < |r| ==> r[i] == Padded(chunks[i]) && |r[i]| == BLKSIZE
  {
    seq(|chunks|, i requires 0 <= i < |chunks| => Padded(chunks[i]))
  }

  lemma DirLaidOut(b: Builder, f: int)
    requires b.Valid() && b.Written() && 0 <= f < |b.inodes| && b.inodes[f].nblks <= L1_NBLKS
    ensures |b.files| == |b.inodes| && forall i :: 0 <= i < |b.files[f].chunks| ==> |b.files[f].chunks[i]| <= BLKSIZE
    ensures DirLayout(b.image, b.ninos, b.inodes[f].inode, Blocks(b.files[f].chunks))
  {
    hide Builder.Valid, Builder.Written, BmapLoad, Padded;
    FileSize(b, f);
    var node, entries := b.inodes[f].inode, Blocks(b.files[f].chunks);
    forall i: nat | i < node.blocks ensures SlotHolds(b.image, b.ninos, node, entries[i], i) {
      KernelResolves(b, f, i);
      ImageResolves(b, f, i);
    }
  }

  // ---------- reading bytes ----------

  ghost predicate BlockHolds(image: Image, blocks: int, node: Inode, content: Bytes, i: nat)
    requires i < node.blocks
  {
    var a := BmapLoad(image, blocks, node, i);
    && (i >= L1_NBLKS ==> a == Panic)
    && (i < L1_NBLKS ==> a.Block? && a.ino in image && image[a.ino].Data? && |image[a.ino].bytes| == BLKSIZE)
    && forall k :: i < L1_NBLKS && 0 <= k < BLKSIZE && BLKSIZE * i + k < |content| ==>
      image[a.ino].bytes[k] == content[BLKSIZE * i + k]
  }

  /** The kernel finds the first 1036 blocks of the file and panics for the others; together they hold `content`. */
  ghost predicate Layout(image: Image, blocks: int, node: Inode, content: Bytes) {
    && node.size == |content| <= BLKSIZE * node.blocks
    && forall i: nat :: i < node.blocks ==> BlockHolds(image, blocks, node, content, i)
  }

  /** Where the byte of a file lies, when only the last block may be short. */
  lemma {:induction false} FlattenAt(chunks: seq<Bytes>, i: nat)
    requires FullButLast(chunks) && i < |chunks| && forall j :: 0 <= j < |chunks| ==> |chunks[j]| <= BLKSIZE
    ensures var c := Flatten(chunks);
            && |c| == BLKSIZE * (|chunks| - 1) + |chunks[|chunks| - 1]|
            && (forall k :: 0 <= k < |chunks[i]| ==> c[BLKSIZE * i + k] == chunks[i][k])
  {
    var m := |chunks| - 1;
    var front := chunks[..m];
    if m > 0 {
      FlattenAt(front, if i < m then i else 0);
    }
  }

  /** Every file whose blocks are all full but the last is laid out so. */
  lemma FileLaidOut(b: Builder, f: int)
    requires b.Valid() && b.Written() && 0 <= f < |b.inodes|
    requires FullButLast(b.files[f].chunks)
    ensures Layout(b.image, b.ninos, b.inodes[f].inode, Flatten(b.files[f].chunks))
  {
    hide Builder.Valid, Builder.Written, BlockHolds, Flatten, FullButLast;
    FileSize(b, f);
    var chunks, node := b.files[f].chunks, b.inodes[f].inode;
    forall i: nat | i < node.blocks ensures BlockHolds(b.image, b.ninos, node, Flatten(chunks), i) {
      BlockLaidOut(b, f, i);
    }
    if chunks != [] {
      FlattenAt(chunks, 0);
    }
  }

  lemma BlockLaidOut(b: Builder, f: int, i: nat)
    requires b.Valid() && b.Written() && 0 <= f < |b.inodes| && i < b.inodes[f].nblks
    requires FullButLast(b.files[f].chunks)
    ensures i < b.inodes[f].inode.blocks
            && BlockHolds(b.image, b.ninos, b.inodes[f].inode, Flatten(b.files[f].chunks), i)
  {
    hide Builder.Valid, Builder.Written, BmapLoad, Flatten, FullButLast, Padded;
    FileSize(b, f);
    var chunks := b.files[f].chunks;
    KernelResolves(b, f, i);
    ImageResolves(b, f, i);
    FlattenAt(chunks, i);
    PaddedKeeps(chunks[i]);
    LastChunk(chunks, i);
  }

  lemma LastChunk(chunks: seq<Bytes>, i: nat)
    requires FullButLast(chunks) && i < |chunks|
    ensures i < |chunks| - 1 ==> |chunks[i]| == BLKSIZE
  {
  }

  lemma PaddedKeeps(b: Bytes)
    requires |b| <= BLKSIZE
    ensures |Padded(b)| == BLKSIZE && forall k :: 0 <= k < |b| ==> Padded(b)[k] == b[k]
  {
  }

  lemma FileSize(b: Builder, f: int)
    requires b.Valid() && 0 <= f < |b.inodes|
    ensures |b.files| == |b.inodes|
    ensures var file, node := b.files[f], b.inodes[f].inode;
            && node.size == |Flatten(file.chunks)| && node.blocks == |file.chunks| == |file.nums| == b.inodes[f].nblks
            && (forall i :: 0 <= i < |file.chunks| ==> |file.chunks[i]| <= BLKSIZE)
            && (file.chunks == [] ==> Flatten(file.chunks) == [])
  {
    assert FileOk(b.inodes[f], f, b.files[f], b.cache, b.roles);
    assert ContentOk(f, b.files[f], b.inodes[f].inode.size, b.uses, b.image);
    forall i | 0 <= i < |b.files[f].chunks| ensures |b.files[f].chunks[i]| <= BLKSIZE {
      assert ChunkOk(f, i, b.files[f], b.uses, b.image);
    }
  }

  /** The end of what the kernel can reach of a file. */
  const REACH := BLKSIZE * L1_NBLKS

  datatype Outcome = Invalid | Panicked | Done(data: Bytes, size: int)

  const TWO63 := 0x8000_0000_0000_0000

  /** Where the read leaves its `offset` variable: past the head and the whole blocks, not the tail. */
  function Reached(offset: int, end: int): int {
    if offset % BLKSIZE != 0 && offset / BLKSIZE == end / BLKSIZE then end else BLKSIZE * (end / BLKSIZE)
  }

  /** One block of a read, from position `from` on. */
  method ReadPart(image: Image, blocks: int, node: Inode, index: int, from: int, len: nat, ghost content: Bytes)
    returns (ok: bool, part: Bytes)
    requires Layout(image, blocks, node, content) && 0 <= index < node.blocks
    requires 0 <= from && 0 < len && from + len <= BLKSIZE && BLKSIZE * index + from + len <= |content|
    ensures ok <==> BLKSIZE * index + from + len <= REACH
    ensures ok ==> part == content[BLKSIZE * index + from..BLKSIZE * index + from + len]
  {
    hide BmapLoad;
    assert BlockHolds(image, blocks, node, content, index);
    var a := BmapLoad(image, blocks, node, index);
    if a == Panic {
      return false, [];
    }
    part := image[a.ino].bytes[from..from + len];
    ok := true;
  }

  /** The read path of sfs_io_nolock, for an inode that is not a directory. All bytes asked for are returned, up to
      the end of the file and of the largest file, and they are the file's; a read past what the kernel can reach
      panics. But the size the in-memory inode is left with counts the part already passed twice. */
  method IoRead(image: Image, blocks: int, node: Inode, offset0: int, len: nat,
                ghost content: Bytes) returns (r: Outcome)
    requires Layout(image, blocks, node, content) && -TWO63 <= offset0 < TWO63 && len < 2 * TWO63
    ensures node.kind == 2 ==> r == Panicked
    ensures r == Invalid <==>
            node.kind != 2 && (offset0 < 0 || offset0 >= 134217728 || offset0 + len >= 0x8000_0000_0000_0000)
    ensures r == Panicked <==>
            node.kind == 2 || (r != Invalid && 0 <= offset0 < |content| && len > 0 && |content| > 4243456
                               && offset0 + len > 4243456)
    ensures r.Done? && (len == 0 || offset0 >= |content|) ==> r == Done([], node.size)
    ensures r.Done? && len > 0 && offset0 < |content| ==>
              var end := offset0 + |r.data|;
              && |r.data| <= len && end <= |content| && r.data == content[offset0..end]
              && (|r.data| < len ==> end == |content| || end == 134217728)
              && r.size == Max(node.size, Reached(offset0, end) + |r.data|)
  {
    hide Layout;
    SizeIs(image, blocks, node, content);
    if node.kind == TYPE_DIR {
      return Panicked;
    }
    var offset, endpos := offset0, Signed64(offset0 + len);
    EndWraps(offset0, len);
    if offset < 0 || offset >= MAX_FILE_SIZE || offset > endpos {
      return Invalid;
    }
    if offset == endpos {
      return Done([], node.size);
    }
    if endpos > MAX_FILE_SIZE {
      endpos := MAX_FILE_SIZE;
    }
    if offset >= node.size {
      return Done([], node.size);
    }
    if endpos > node.size {
      endpos := node.size;
    }
    var ok, data, reached := ReadRange(image, blocks, node, offset, endpos, content);
    if !ok {
      return Panicked;
    }
    r := Done(data, if reached + |data| > node.size then reached + |data| else node.size);
  }

  /** The first step of a read, up to a block boundary or the end. */
  method ReadHead(image: Image, blocks: int, node: Inode, offset0: int, endpos: int, ghost content: Bytes)
    returns (ok: bool, data: Bytes, offset: int, blkno: int)
    requires Layout(image, blocks, node, content) && 0 <= offset0 < endpos <= |content|
    ensures if ok then offset == offset0 || offset <= REACH else endpos > REACH
    ensures ok ==> offset0 <= offset <= Reached(offset0, endpos) <= endpos && 0 <= blkno
                   && data == content[offset0..offset]
    ensures ok ==>
            var goal := Reached(offset0, endpos);
            offset == endpos || (offset == BLKSIZE * blkno && goal == BLKSIZE * (endpos / BLKSIZE)
                                 && endpos < goal + BLKSIZE)
  {
    hide Layout, Reached;
    SizeIs(image, blocks, node, content);
    ReachedCases(offset0, endpos);
    ok, data, offset := true, [], offset0;
    blkno := offset / BLKSIZE;
    var nblks := endpos / BLKSIZE - blkno;
    var blkoff := offset % BLKSIZE;
    if blkoff != 0 {
      var size := if nblks != 0 then BLKSIZE - blkoff else endpos - offset;
      ok, data := ReadPart(image, blocks, node, blkno, blkoff, size, content);
      if !ok {
        return;
      }
      offset := offset + size;
      blkno := blkno + 1;
    }
  }

  /** Adding a size_t to an off_t: an end past the range of off_t comes out below the offset. */
  lemma EndWraps(offset: int, len: nat)
    requires -TWO63 <= offset < TWO63 && len < 2 * TWO63
    ensures offset + len < TWO63 ==> Signed64(offset + len) == offset + len
    ensures offset >= 0 && offset + len >= TWO63 ==> Signed64(offset + len) < offset
  {
  }

  /** The three steps of a read: up to the first block boundary, whole blocks, and the rest. */
  method ReadRange(image: Image, blocks: int, node: Inode, offset0: int, endpos: int, ghost content: Bytes)
    returns (ok: bool, data: Bytes, offset: int)
    requires Layout(image, blocks, node, content) && 0 <= offset0 < endpos <= |content|
    ensures ok <==> endpos <= REACH
    ensures ok ==> data == content[offset0..endpos] && offset == Reached(offset0, endpos)
  {
    hide Layout, Reached;
    SizeIs(image, blocks, node, content);
    var blkno;
    ok, data, offset, blkno := ReadHead(image, blocks, node, offset0, endpos, content);
    if !ok {
      return;
    }
    ghost var last := endpos / BLKSIZE;
    ghost var goal := Reached(offset0, endpos);
    while offset + BLKSIZE <= endpos
      invariant offset0 <= offset <= goal <= endpos && data == content[offset0..offset]
      invariant offset == endpos || (offset == BLKSIZE * blkno && goal == BLKSIZE * last && endpos < goal + BLKSIZE)
      invariant offset == offset0 || offset <= REACH
      decreases endpos - offset
    {
      var part;
      ok, part := ReadPart(image, blocks, node, blkno, 0, BLKSIZE, content);
      if !ok {
        return;
      }
      Slices(content, offset0, offset, offset + BLKSIZE);
      data := data + part;
      offset := offset + BLKSIZE;
      blkno := blkno + 1;
    }
    if offset < endpos {
      var part;
      ok, part := ReadPart(image, blocks, node, blkno, 0, endpos - offset, content);
      if !ok {
        return;
      }
      Slices(content, offset0, offset, endpos);
      data := data + part;
    }
    ok := true;
  }

  lemma ReachedCases(offset: int, end: int)
    requires 0 <= offset < end
    ensures var r, b, o := Reached(offset, end), offset / BLKSIZE, offset % BLKSIZE;
            && offset <= r <= end && 0 <= b && offset == BLKSIZE * b + o
            && (o != 0 && end / BLKSIZE == b ==> r == end && o + (end - offset) <= BLKSIZE)
            && (o != 0 && end / BLKSIZE != b ==> BLKSIZE * (b + 1) <= r)
            && (o == 0 || end / BLKSIZE != b ==> end < r + BLKSIZE && r == BLKSIZE * (end / BLKSIZE))
  {
  }

  lemma Slices(c: Bytes, i: int, j: int, k: int)
    requires 0 <= i <= j <= k <= |c|
    ensures c[i..j] + c[j..k] == c[i..k]
  {
  }

  function Max(a: int, b: int): int {
    if a < b then b else a
  }

  lemma SizeIs(image: Image, blocks: int, node: Inode, content: Bytes)
    requires Layout(image, blocks, node, content)
    ensures node.size == |content| <= BLKSIZE * node.blocks
  {
  }

  /** When a read leaves the size of the file alone: always within one block read from its start; for m whole
      blocks from a block boundary, exactly if as many bytes follow; and for the whole file exactly if
      it is shorter than one block. */
  lemma ReadKeepsSize(size: nat, offset: nat, end: nat)
    requires offset < end <= size
    ensures offset % BLKSIZE == 0 && end - offset < BLKSIZE ==> Reached(offset, end) + (end - offset) <= size
    ensures offset % BLKSIZE == 0 && end % BLKSIZE == 0 ==>
              (Reached(offset, end) + (end - offset) <= size <==> end + (end - offset) <= size)
    ensures offset == 0 && end == size ==> (Reached(offset, end) + (end - offset) <= size <==> size < BLKSIZE)
  {
  }
}
