/**
 The block map of a file in an SFS image (lab8/tools/mksfs.c): twelve direct numbers, one indirect
 block and a double-indirect block, built by appending. Pointers are positions in the sequence of
 allocated cache blocks, in the order of allocation.
 */
module SfsModel {
  import opened ByteSeq

  const NULL := -1
  const NDIRECT := 12
  const NENTRY := 1024
  const L1_NBLKS := NENTRY + NDIRECT
  const LN_NBLKS := 32768
  const BLKSIZE := 4096

  datatype CacheBlock = CacheBlock(ino: int, next: int, data: seq<int>)

  datatype Inode = Inode(size: int, kind: int, nlinks: int, blocks: int,
                         direct: seq<int>, indirect: int, dbIndirect: int)

  datatype CacheInode = CacheInode(inode: Inode, host: int, ino: int, nblks: int,
                                   l1: int, l2: int, next: int)

  /** What an index block is for: the k-th block of entries of a file (the 0-th is its indirect block,
      the others hang below its double-indirect block), or the double-indirect block itself. */
  datatype Role = Leaf(file: int, k: int) | Root(file: int)

  function Nth(nums: seq<int>, i: int): int {
    if 0 <= i < |nums| then nums[i] else 0
  }

  ghost predicate Holds(data: seq<int>, nums: seq<int>, base: int) {
    |data| == NENTRY && forall j :: 0 <= j < NENTRY ==> data[j] == Nth(nums, base + j)
  }

  function LeafBase(k: int): int {
    NDIRECT + NENTRY * k
  }

  ghost predicate LeafOk(f: int, nums: seq<int>, leaves: seq<int>, cache: seq<CacheBlock>, roles: seq<Role>, k: int)
    requires 0 <= k < |leaves| && |roles| == |cache|
  {
    var p := leaves[k];
    0 <= p < |cache| && roles[p] == Leaf(f, k) && Holds(cache[p].data, nums, LeafBase(k))
  }

  ghost predicate DirectOk(direct: seq<int>, nums: seq<int>) {
    |direct| == NDIRECT && forall i :: 0 <= i < NDIRECT ==> direct[i] == Nth(nums, i)
  }

  function NumberAt(cache: seq<CacheBlock>, leaves: seq<int>, k: int): int {
    if 0 <= k < |leaves| && 0 <= leaves[k] < |cache| then cache[leaves[k]].ino else 0
  }

  /** The double-indirect block `p` lists the entry blocks after the first. */
  ghost predicate RootOk(p: int, ino: int, f: int, leaves: seq<int>, cache: seq<CacheBlock>, roles: seq<Role>)
    requires |roles| == |cache|
  {
    && 0 <= p < |cache| && roles[p] == Root(f) && cache[p].ino == ino
    && |leaves| <= NENTRY + 1 && |cache[p].data| == NENTRY
    && forall k :: 0 <= k < NENTRY ==> cache[p].data[k] == NumberAt(cache, leaves, k + 1)
  }

  /** Inode `ci` maps exactly the numbers `nums`, zero elsewhere, through the entry blocks `leaves`;
      its cached pointers are the last entry block and the double-indirect block. */
  ghost predicate Mapped(ci: CacheInode, f: int, nums: seq<int>, leaves: seq<int>, cache: seq<CacheBlock>,
                         roles: seq<Role>) {
    && |roles| == |cache|
    && |nums| <= LeafBase(|leaves|)
    && DirectOk(ci.inode.direct, nums)
    && (forall k :: 0 <= k < |leaves| ==> LeafOk(f, nums, leaves, cache, roles, k))
    && ci.l1 == (if leaves == [] then NULL else leaves[|leaves| - 1])
    && ci.inode.indirect == NumberAt(cache, leaves, 0)
    && (if ci.l2 == NULL then ci.inode.dbIndirect == 0 && |leaves| <= 1
        else RootOk(ci.l2, ci.inode.dbIndirect, f, leaves, cache, roles))
  }

  /** Number of entry blocks and of all index blocks that a file of `n` blocks has. */
  function LeafCount(n: int): int {
    if n <= NDIRECT then 0 else (n - NDIRECT + NENTRY - 1) / NENTRY
  }

  function IndexBlocks(n: int): int {
    LeafCount(n) + if LeafCount(n) <= 1 then 0 else 1
  }

  /** The closed form: none up to 12 blocks, one up to 1036, and beyond that the double-indirect
      block, the indirect block and one for each further 1024 blocks begun. */
  lemma IndexBlocksClosed(n: nat)
    ensures IndexBlocks(n) ==
            if n <= NDIRECT then 0 else if n <= L1_NBLKS then 1 else 2 + (n - L1_NBLKS + NENTRY - 1) / NENTRY
  {
  }

  /** The history of a file: the numbers appended, its entry blocks, and what was written to each block. */
  datatype File = File(nums: seq<int>, leaves: seq<int>, chunks: seq<Bytes>)

  ghost predicate FileOk(ci: CacheInode, f: int, file: File, cache: seq<CacheBlock>, roles: seq<Role>) {
    && Mapped(ci, f, file.nums, file.leaves, cache, roles)
    && |file.nums| <= LN_NBLKS && ci.nblks == |file.nums| && ci.inode.blocks == |file.nums|
    && |file.leaves| == LeafCount(|file.nums|)
    && (ci.l2 == NULL <==> |file.leaves| <= 1)
  }

  /** The index blocks of file `f` are untouched; others may change and new ones may appear. */
  ghost predicate Keeps(f: int, cache: seq<CacheBlock>, roles: seq<Role>, cache': seq<CacheBlock>, roles': seq<Role>) {
    && |roles| == |cache| <= |cache'| == |roles'|
    && forall p :: 0 <= p < |cache| ==> roles'[p] == roles[p] && (roles[p].file == f ==> cache'[p] == cache[p])
  }

  lemma MappedFrame(ci: CacheInode, f: int, nums: seq<int>, leaves: seq<int>,
                    cache: seq<CacheBlock>, roles: seq<Role>, cache': seq<CacheBlock>, roles': seq<Role>)
    requires Mapped(ci, f, nums, leaves, cache, roles) && Keeps(f, cache, roles, cache', roles')
    ensures Mapped(ci, f, nums, leaves, cache', roles')
  {
    forall k | 0 <= k < |leaves|
      ensures LeafOk(f, nums, leaves, cache', roles', k)
      ensures NumberAt(cache', leaves, k) == NumberAt(cache, leaves, k)
    {
      assert LeafOk(f, nums, leaves, cache, roles, k);
    }
  }

  // ---------- the steps of append_block ----------

  function Zeros(): seq<int> {
    seq(NENTRY, _ => 0)
  }

  lemma ZeroHolds(nums: seq<int>, base: int)
    requires |nums| <= base
    ensures Holds(Zeros(), nums, base)
  {
  }

  lemma DirectStep(ci: CacheInode, f: int, nums: seq<int>, cache: seq<CacheBlock>, roles: seq<Role>, x: int)
    requires Mapped(ci, f, nums, [], cache, roles) && |nums| < NDIRECT
    ensures Mapped(ci.(inode := ci.inode.(direct := ci.inode.direct[|nums| := x])), f, nums + [x], [], cache, roles)
  {
  }

  lemma HoldsOther(data: seq<int>, nums: seq<int>, base: int, x: int)
    requires Holds(data, nums, base) && (|nums| < base || |nums| >= base + NENTRY)
    ensures Holds(data, nums + [x], base)
  {
  }

  lemma HoldsStep(data: seq<int>, nums: seq<int>, base: int, x: int)
    requires Holds(data, nums, base) && base <= |nums| < base + NENTRY
    ensures Holds(data[|nums| - base := x], nums + [x], base)
  {
  }

  /** Storing into the last entry block. */
  lemma EntryStep(ci: CacheInode, f: int, nums: seq<int>, leaves: seq<int>, cache: seq<CacheBlock>, roles: seq<Role>,
                  x: int)
    requires Mapped(ci, f, nums, leaves, cache, roles) && leaves != []
    requires LeafBase(|leaves| - 1) <= |nums| < LeafBase(|leaves|)
    ensures 0 <= ci.l1 < |cache| && |cache[ci.l1].data| == NENTRY
    ensures var j := |nums| - LeafBase(|leaves| - 1);
            Mapped(ci, f, nums + [x], leaves, cache[ci.l1 := cache[ci.l1].(data := cache[ci.l1].data[j := x])], roles)
  {
    var m := |leaves| - 1;
    assert LeafOk(f, nums, leaves, cache, roles, m);
    var j := |nums| - LeafBase(m);
    var cache' := cache[ci.l1 := cache[ci.l1].(data := cache[ci.l1].data[j := x])];
    HoldsStep(cache[ci.l1].data, nums, LeafBase(m), x);
    forall k | 0 <= k < |leaves|
      ensures LeafOk(f, nums + [x], leaves, cache', roles, k)
      ensures NumberAt(cache', leaves, k) == NumberAt(cache, leaves, k)
    {
      assert LeafOk(f, nums, leaves, cache, roles, k);
      if k != m {
        HoldsOther(cache[leaves[k]].data, nums, LeafBase(k), x);
      }
    }
    assert DirectOk(ci.inode.direct, nums + [x]);
  }

  ghost predicate NewBlock(cache: seq<CacheBlock>, roles: seq<Role>, cache': seq<CacheBlock>, roles': seq<Role>,
                           ino: int, role: Role) {
    && |roles| == |cache| && |cache'| == |cache| + 1 && roles' == roles + [role]
    && cache' == cache + [CacheBlock(ino, |cache| - 1, Zeros())]
  }

  /** A new double-indirect block. */
  lemma RootStep(ci: CacheInode, f: int, nums: seq<int>, leaves: seq<int>, cache: seq<CacheBlock>, roles: seq<Role>,
                 cache': seq<CacheBlock>, roles': seq<Role>, ino: int)
    requires Mapped(ci, f, nums, leaves, cache, roles) && |leaves| == 1 && ci.l2 == NULL
    requires NewBlock(cache, roles, cache', roles', ino, Root(f))
    ensures Mapped(ci.(l2 := |cache|, inode := ci.inode.(dbIndirect := ino)), f, nums, leaves, cache', roles')
  {
    MappedFrame(ci, f, nums, leaves, cache, roles, cache', roles');
  }

  /** The first entry block becomes the indirect block. */
  lemma FirstLeafStep(ci: CacheInode, f: int, nums: seq<int>, cache: seq<CacheBlock>, roles: seq<Role>,
                      cache': seq<CacheBlock>, roles': seq<Role>, ino: int)
    requires Mapped(ci, f, nums, [], cache, roles) && ci.l2 == NULL
    requires NewBlock(cache, roles, cache', roles', ino, Leaf(f, 0))
    ensures Mapped(ci.(l1 := |cache|, inode := ci.inode.(indirect := ino)), f, nums, [|cache|], cache', roles')
  {
    ZeroHolds(nums, LeafBase(0));
    assert LeafOk(f, nums, [|cache|], cache', roles', 0);
  }

  /** A further entry block is listed in the double-indirect block. */
  lemma NextLeafStep(ci: CacheInode, f: int, nums: seq<int>, leaves: seq<int>, cache: seq<CacheBlock>, roles: seq<Role>,
                     cache1: seq<CacheBlock>, roles': seq<Role>, ino: int)
    requires Mapped(ci, f, nums, leaves, cache, roles) && 1 <= |leaves| <= NENTRY && ci.l2 != NULL
    requires NewBlock(cache, roles, cache1, roles', ino, Leaf(f, |leaves|))
    ensures 0 <= ci.l2 < |cache| && |cache[ci.l2].data| == NENTRY
    ensures Mapped(ci.(l1 := |cache|), f, nums, leaves + [|cache|],
                   cache1[ci.l2 := cache1[ci.l2].(data := cache1[ci.l2].data[|leaves| - 1 := ino])], roles')
  {
    var cache' := cache1[ci.l2 := cache1[ci.l2].(data := cache1[ci.l2].data[|leaves| - 1 := ino])];
    var leaves' := leaves + [|cache|];
    ZeroHolds(nums, LeafBase(|leaves|));
    forall k | 0 <= k < |leaves'|
      ensures LeafOk(f, nums, leaves', cache', roles', k)
      ensures NumberAt(cache', leaves', k) == if k < |leaves| then NumberAt(cache, leaves, k) else ino
    {
      if k < |leaves| {
        assert LeafOk(f, nums, leaves, cache, roles, k);
      }
    }
    assert RootOk(ci.l2, ci.inode.dbIndirect, f, leaves', cache', roles');
  }

  // ---------- reading the map back ----------

  /** What a block of the image holds, by who wrote it. The words of the free map are given bit by bit. */
  datatype Sector =
    | Super(blocks: int, unused: int)
    | FreeMap(words: seq<seq<bool>>)
    | Index(entries: seq<int>)
    | Node(inode: Inode)
    | Data(bytes: Bytes)

  type Image = map<int, Sector>

  function Lookup(image: Image, ino: int, j: nat): int {
    if ino in image && image[ino].Index? then Nth(image[ino].entries, j) else 0
  }

  /** The meaning of an inode: the number of its i-th block, through the index blocks of the image. */
  function Resolve(node: Inode, image: Image, i: nat): int {
    if i < NDIRECT then
      Nth(node.direct, i)
    else if i < L1_NBLKS then
      Lookup(image, node.indirect, i - NDIRECT)
    else
      Lookup(image, Lookup(image, node.dbIndirect, (i - L1_NBLKS) / NENTRY), (i - L1_NBLKS) % NENTRY)
  }

  ghost predicate IndexWritten(cache: seq<CacheBlock>, image: Image) {
    forall p :: 0 <= p < |cache| ==> cache[p].ino in image && image[cache[p].ino] == Index(cache[p].data)
  }

  /** Resolving index i gives the i-th appended number, for every i up to the file's length. */
  lemma ResolveMapped(ci: CacheInode, f: int, nums: seq<int>, leaves: seq<int>, cache: seq<CacheBlock>,
                      roles: seq<Role>,
                      image: Image, i: nat)
    requires Mapped(ci, f, nums, leaves, cache, roles) && IndexWritten(cache, image) && i < |nums| <= LN_NBLKS
    ensures Resolve(ci.inode, image, i) == nums[i]
  {
    if NDIRECT <= i {
      var k, j := (i - NDIRECT) / NENTRY, (i - NDIRECT) % NENTRY;
      assert i == LeafBase(k) + j;
      assert LeafOk(f, nums, leaves, cache, roles, k);
      if i < L1_NBLKS {
        assert k == 0;
      } else {
        assert k - 1 == (i - L1_NBLKS) / NENTRY && j == (i - L1_NBLKS) % NENTRY;
        assert cache[ci.l2].data[k - 1] == NumberAt(cache, leaves, k);
      }
    }
  }

  // ---------- block numbers and hash chains ----------

  const HASH_LIST_SIZE := 1024

  /** The highest ten bits of the lowest 32 of the product with the golden ratio prime. */
  function Hash32(val: int): (h: int)
    ensures 0 <= h < HASH_LIST_SIZE
  {
    val * 0x9e370001 % 0x1_0000_0000 / 0x40_0000
  }

  lemma HashBits(val: int)
    ensures var h, p := Hash32(val), val * 0x9e370001 % 0x1_0000_0000;
            0 <= h < 1024 && 0x40_0000 * h <= p < 0x40_0000 * h + 0x40_0000
  {
  }

  function Hash64(val: int): (h: int)
    ensures 0 <= h < HASH_LIST_SIZE
  {
    Hash32(val % 0x1_0000_0000)
  }

  /** What a block number was given out for. */
  datatype Use = IndexBlock(p: int) | InodeBlock(f: int) | DataBlock(f: int, i: int)

  const BLKN_SUPER := 0
  const BLKN_ROOT := 1
  const BLKN_FREEMAP := 2

  /** Exactly the root's number and those from `first` to `next` are in use, each for one purpose. The
      superblock and the free map, below `first`, are none of them. */
  ghost predicate Numbered(inodes: seq<CacheInode>, cache: seq<CacheBlock>, uses: map<int, Use>, first: int,
                           next: int) {
    && (forall n :: n in uses <==> n == BLKN_ROOT || first <= n < next)
    && (forall p :: 0 <= p < |cache| ==> cache[p].ino in uses && uses[cache[p].ino] == IndexBlock(p))
    && (forall f :: 0 <= f < |inodes| ==> inodes[f].ino in uses && uses[inodes[f].ino] == InodeBlock(f))
  }

  /** Every cache block hangs on chain 0, newest first, because the hash is taken of the argument 0. */
  ghost predicate BlockChains(cache: seq<CacheBlock>, heads: seq<int>) {
    && |heads| == HASH_LIST_SIZE && heads[0] == |cache| - 1
    && (forall h :: 0 < h < HASH_LIST_SIZE ==> heads[h] == NULL)
    && (forall p :: 0 <= p < |cache| ==> cache[p].next == p - 1)
  }

  /** The last of the first `n` inodes whose host number hashes to `h`. */
  function LastWith(inodes: seq<CacheInode>, h: int, n: nat): (p: int)
    requires n <= |inodes|
    ensures NULL <= p < n
    ensures p != NULL ==> Hash64(inodes[p].host) == h
    ensures forall q :: p < q < n ==> Hash64(inodes[q].host) != h
  {
    if n == 0 then NULL else if Hash64(inodes[n - 1].host) == h then n - 1 else LastWith(inodes, h, n - 1)
  }

  ghost predicate InodeChains(inodes: seq<CacheInode>, heads: seq<int>) {
    && |heads| == HASH_LIST_SIZE
    && (forall h :: 0 <= h < HASH_LIST_SIZE ==> heads[h] == LastWith(inodes, h, |inodes|))
    && (forall p :: 0 <= p < |inodes| ==> inodes[p].next == LastWith(inodes, Hash64(inodes[p].host), p))
  }

  /** LastWith depends on the host numbers alone. */
  lemma {:induction false} LastWithSame(a: seq<CacheInode>, b: seq<CacheInode>, h: int, n: nat)
    requires n <= |a| && n <= |b| && forall q :: 0 <= q < n ==> a[q].host == b[q].host
    ensures LastWith(a, h, n) == LastWith(b, h, n)
  {
    if n > 0 {
      LastWithSame(a, b, h, n - 1);
    }
  }

  ghost predicate SameIdentity(a: seq<CacheInode>, b: seq<CacheInode>) {
    |a| == |b| && forall q :: 0 <= q < |a| ==> a[q].host == b[q].host && a[q].ino == b[q].ino && a[q].next == b[q].next
                                                 && a[q].inode.kind == b[q].inode.kind
  }

  lemma ChainsKept(a: seq<CacheInode>, b: seq<CacheInode>, heads: seq<int>)
    requires InodeChains(a, heads) && SameIdentity(a, b)
    ensures InodeChains(b, heads)
  {
    forall h, n: nat | n <= |a| ensures LastWith(a, h, n) == LastWith(b, h, n) {
      LastWithSame(a, b, h, n);
    }
  }

  lemma ChainsAdd(a: seq<CacheInode>, heads: seq<int>, ci: CacheInode)
    requires InodeChains(a, heads) && ci.next == heads[Hash64(ci.host)]
    ensures InodeChains(a + [ci], heads[Hash64(ci.host) := |a|])
  {
    hide LastWith, Hash64, Hash32;
    var b, heads' := a + [ci], heads[Hash64(ci.host) := |a|];
    forall h | 0 <= h < HASH_LIST_SIZE ensures heads'[h] == LastWith(b, h, |b|) {
      LastWithStep(b, h);
      LastWithSame(a, b, h, |a|);
    }
    forall p | 0 <= p < |b| ensures b[p].next == LastWith(b, Hash64(b[p].host), p) {
      LastWithSame(a, b, Hash64(b[p].host), p);
    }
  }

  lemma LastWithStep(b: seq<CacheInode>, h: int)
    requires b != []
    ensures LastWith(b, h, |b|) == if Hash64(b[|b| - 1].host) == h then |b| - 1 else LastWith(b, h, |b| - 1)
  {
  }

  // ---------- the whole cache ----------

  ghost predicate FilesOk(inodes: seq<CacheInode>, files: seq<File>, cache: seq<CacheBlock>, roles: seq<Role>) {
    |files| == |inodes| && |roles| == |cache|
    && forall f :: 0 <= f < |inodes| ==> FileOk(inodes[f], f, files[f], cache, roles)
  }

  /** Only index blocks of file `f` changed, or are new. */
  ghost predicate OnlyOf(f: int, cache: seq<CacheBlock>, roles: seq<Role>, cache': seq<CacheBlock>, roles': seq<Role>) {
    && |roles| == |cache| <= |cache'| == |roles'|
    && forall p :: 0 <= p < |cache| ==> roles'[p] == roles[p] && (roles[p].file != f ==> cache'[p] == cache[p])
  }

  lemma FilesStep(inodes: seq<CacheInode>, files: seq<File>, cache: seq<CacheBlock>, roles: seq<Role>,
                  f: int, ci: CacheInode, file: File, cache': seq<CacheBlock>, roles': seq<Role>)
    requires FilesOk(inodes, files, cache, roles) && 0 <= f < |inodes|
    requires OnlyOf(f, cache, roles, cache', roles') && FileOk(ci, f, file, cache', roles')
    ensures FilesOk(inodes[f := ci], files[f := file], cache', roles')
  {
    hide Mapped;
    forall g | 0 <= g < |inodes| && g != f ensures FileOk(inodes[g], g, files[g], cache', roles') {
      MappedFrame(inodes[g], g, files[g].nums, files[g].leaves, cache, roles, cache', roles');
    }
  }

  // ---------- what is written to the blocks of a file ----------

  /** write_block pads short data with zeros. */
  function Padded(b: Bytes): (r: Bytes)
    requires |b| <= BLKSIZE
    ensures |r| == BLKSIZE && r[..|b|] == b && forall i :: |b| <= i < |r| ==> r[i] == 0
  {
    b + seq(BLKSIZE - |b|, _ => 0)
  }

  function Flatten(chunks: seq<Bytes>): Bytes {
    if chunks == [] then [] else Flatten(chunks[..|chunks| - 1]) + chunks[|chunks| - 1]
  }

  lemma FlattenAdd(chunks: seq<Bytes>, b: Bytes)
    ensures Flatten(chunks + [b]) == Flatten(chunks) + b
  {
    assert (chunks + [b])[..|chunks|] == chunks;
  }

  ghost predicate ChunkOk(f: int, i: int, file: File, uses: map<int, Use>, image: Image)
    requires 0 <= i < |file.nums| == |file.chunks|
  {
    var n := file.nums[i];
    && n in uses && uses[n] == DataBlock(f, i)
    && |file.chunks[i]| <= BLKSIZE && n in image && image[n] == Data(Padded(file.chunks[i]))
  }

  /** The blocks of the file hold its chunks, and its size is their total. */
  ghost predicate ContentOk(f: int, file: File, size: int, uses: map<int, Use>, image: Image) {
    && |file.nums| == |file.chunks| && size == |Flatten(file.chunks)|
    && forall i :: 0 <= i < |file.nums| ==> ChunkOk(f, i, file, uses, image)
  }

  ghost predicate ContentsOk(inodes: seq<CacheInode>, files: seq<File>, uses: map<int, Use>, image: Image) {
    |files| == |inodes| && forall f :: 0 <= f < |files| ==> ContentOk(f, files[f], inodes[f].inode.size, uses, image)
  }

  /** The numbers given out so far keep their uses. */
  ghost predicate Extends(uses: map<int, Use>, uses': map<int, Use>) {
    forall n :: n in uses ==> n in uses' && uses'[n] == uses[n]
  }

  ghost predicate SameAt(a: Image, b: Image, n: int) {
    (n in a <==> n in b) && (n in a ==> a[n] == b[n])
  }

  /** Writing blocks that hold no file data leaves all contents readable. */
  lemma ContentsFrame(inodes: seq<CacheInode>, files: seq<File>, uses: map<int, Use>, image: Image, uses': map<int,
                      Use>, image': Image)
    requires ContentsOk(inodes, files, uses, image) && Extends(uses, uses')
    requires forall n :: n in uses && uses[n].DataBlock? ==> SameAt(image, image', n)
    ensures ContentsOk(inodes, files, uses', image')
  {
    forall f | 0 <= f < |files| ensures ContentOk(f, files[f], inodes[f].inode.size, uses', image') {
      forall i | 0 <= i < |files[f].nums| ensures ChunkOk(f, i, files[f], uses', image') {
        assert ChunkOk(f, i, files[f], uses, image);
      }
    }
  }

  lemma ContentsStep(inodes: seq<CacheInode>, files: seq<File>, uses: map<int, Use>, image: Image,
                     f: int, node: CacheInode, file: File, b: Bytes, n: int)
    requires ContentsOk(inodes, files, uses, image) && 0 <= f < |files| && |b| <= BLKSIZE
    requires file.nums == files[f].nums + [n] && file.chunks == files[f].chunks + [b]
    requires n in uses && uses[n] == DataBlock(f, |files[f].nums|) && n in image && image[n] == Data(Padded(b))
    requires node.inode.size == inodes[f].inode.size + |b|
    ensures ContentsOk(inodes[f := node], files[f := file], uses, image)
  {
    FlattenAdd(files[f].chunks, b);
    assert ContentOk(f, files[f], inodes[f].inode.size, uses, image);
    forall i | 0 <= i < |file.nums| ensures ChunkOk(f, i, file, uses, image) {
      if i < |files[f].nums| {
        assert ChunkOk(f, i, files[f], uses, image);
      }
    }
    hide ChunkOk, Flatten;
  }
}
