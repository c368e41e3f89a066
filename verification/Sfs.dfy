/**
 The SFS image builder of lab8/tools/mksfs.c. A call to the tool's `bug` ends the program: the methods
 report it by returning false and promise nothing about the state then.
 */
module Sfs {
  import opened ByteSeq
  import opened SfsModel
  import opened SfsEntry
  import opened SfsFreeMap

  const MAX_NBLKS := 524288

  function Store(cache: seq<CacheBlock>, p: int, j: int, x: int): (r: seq<CacheBlock>)
    requires 0 <= p < |cache| && 0 <= j < |cache[p].data|
  {
    cache[p := cache[p].(data := cache[p].data[j := x])]
  }

  /** Only the map of the inode differs. */
  ghost predicate SameButMap(a: CacheInode, b: CacheInode) {
    b == a.(l1 := b.l1, l2 := b.l2,
            inode := a.inode.(direct := b.inode.direct, indirect := b.inode.indirect, dbIndirect := b.inode.dbIndirect))
  }

  /** What append_block does to an inode besides its map. */
  ghost predicate Longer(a: CacheInode, b: CacheInode, size: int) {
    SameButMap(a.(nblks := a.nblks + 1, inode := a.inode.(size := a.inode.size + size, blocks := a.inode.blocks + 1)),
               b)
  }

  lemma LeafCountStep(n: nat)
    ensures LeafCount(n + 1) == LeafCount(n) + if n >= NDIRECT && (n - NDIRECT) % NENTRY == 0 then 1 else 0
    ensures n >= NDIRECT ==> LeafBase(LeafCount(n + 1) - 1) <= n < LeafBase(LeafCount(n + 1))
                             && LeafCount(n + 1) - 1 == (n - NDIRECT) / NENTRY
    ensures n < NDIRECT ==> LeafCount(n + 1) == 0
  {
  }

  /** The three cases of append_block. */
  lemma MapCases(n: nat)
    ensures n < NDIRECT ==> LeafCount(n) == LeafCount(n + 1) == IndexBlocks(n) == IndexBlocks(n + 1) == 0
    ensures NDIRECT <= n ==> LeafCount(n + 1) >= 1 && n < LeafBase(LeafCount(n + 1))
    ensures NDIRECT <= n < L1_NBLKS ==> LeafCount(n) <= 1 && n - NDIRECT == n - LeafBase(LeafCount(n + 1) - 1)
    ensures L1_NBLKS <= n ==> (n - L1_NBLKS) % NENTRY == n - LeafBase(LeafCount(n + 1) - 1)
  {
    LeafCountStep(n);
  }

  lemma LeafOfDouble(n: nat)
    requires L1_NBLKS + n < LN_NBLKS
    ensures LeafCount(L1_NBLKS + n) == n / NENTRY + 1 + if n % NENTRY == 0 then 0 else 1
    ensures LeafCount(L1_NBLKS + n + 1) == n / NENTRY + 2 <= NENTRY
  {
  }

  lemma IndexGrows(n: nat)
    ensures IndexBlocks(0) == 0
    ensures IndexBlocks(n) <= IndexBlocks(n + 1)
  {
  }

  lemma FreshNumber(inodes: seq<CacheInode>, cache: seq<CacheBlock>, uses: map<int, Use>, first: int, next: int,
                    use: Use)
    requires Numbered(inodes, cache, uses, first, next) && BLKN_FREEMAP <= first <= next
    ensures next !in uses && Numbered(inodes, cache, uses[next := use], first, next + 1)
            && Extends(uses, uses[next := use])
  {
  }

  /** The number of an index block is not 0. */
  lemma NumberPositive(inodes: seq<CacheInode>, cache: seq<CacheBlock>, uses: map<int, Use>, first: int, next: int,
                       p: int)
    requires Numbered(inodes, cache, uses, first, next) && first >= BLKN_FREEMAP && 0 <= p < |cache|
    ensures cache[p].ino > 0
  {
  }

  lemma LeafNumber(node: CacheInode, f: int, nums: seq<int>, leaves: seq<int>, cache: seq<CacheBlock>,
                   roles: seq<Role>, k: int)
    requires Mapped(node, f, nums, leaves, cache, roles) && 0 <= k < |leaves|
    ensures 0 <= leaves[k] < |cache| && NumberAt(cache, leaves, k) == cache[leaves[k]].ino
  {
    assert LeafOk(f, nums, leaves, cache, roles, k);
  }

  lemma LastLeaf(node: CacheInode, f: int, nums: seq<int>, leaves: seq<int>, cache: seq<CacheBlock>, roles: seq<Role>,
                 k: int)
    requires Mapped(node, f, nums, leaves, cache, roles) && leaves != []
    ensures 0 <= node.l1 < |cache| && node.l1 == leaves[|leaves| - 1] && |cache[node.l1].data| == NENTRY
            && roles[node.l1].file == f
    ensures k >= |leaves| ==> NumberAt(cache, leaves, k) == 0
  {
    assert LeafOk(f, nums, leaves, cache, roles, |leaves| - 1);
  }

  lemma MappedFields(a: CacheInode, b: CacheInode, f: int, nums: seq<int>, leaves: seq<int>, cache: seq<CacheBlock>,
                     roles: seq<Role>)
    requires Mapped(a, f, nums, leaves, cache, roles) && a.l1 == b.l1 && a.l2 == b.l2
    requires b.inode.direct == a.inode.direct && b.inode.indirect == a.inode.indirect
             && b.inode.dbIndirect == a.inode.dbIndirect
    ensures Mapped(b, f, nums, leaves, cache, roles)
  {
    hide LeafOk, RootOk, DirectOk;
  }

  lemma IdentityKept(inodes: seq<CacheInode>, f: int, node: CacheInode, heads: seq<int>,
                     cache: seq<CacheBlock>, uses: map<int, Use>, first: int, next: int)
    requires InodeChains(inodes, heads) && Numbered(inodes, cache, uses, first, next) && 0 <= f < |inodes|
    requires node.host == inodes[f].host && node.ino == inodes[f].ino && node.next == inodes[f].next
             && node.inode.kind == inodes[f].inode.kind
    ensures InodeChains(inodes[f := node], heads) && Numbered(inodes[f := node], cache, uses, first, next)
  {
    hide InodeChains;
    ChainsKept(inodes, inodes[f := node], heads);
  }

  lemma FileAt(inodes: seq<CacheInode>, files: seq<File>, cache: seq<CacheBlock>, roles: seq<Role>, f: int)
    requires FilesOk(inodes, files, cache, roles) && 0 <= f < |inodes|
    ensures |files| == |inodes| && FileOk(inodes[f], f, files[f], cache, roles)
  {
  }

  lemma ChunksFree(inodes: seq<CacheInode>, files: seq<File>, cache: seq<CacheBlock>, roles: seq<Role>, f: int,
                   chunks: seq<Bytes>)
    requires FilesOk(inodes, files, cache, roles) && 0 <= f < |inodes|
    ensures FilesOk(inodes, files[f := files[f].(chunks := chunks)], cache, roles)
  {
    hide Mapped;
  }

  lemma HeadOfChain(inodes: seq<CacheInode>, heads: seq<int>, h: int)
    requires InodeChains(inodes, heads) && 0 <= h < HASH_LIST_SIZE
    ensures |heads| == HASH_LIST_SIZE && NULL <= heads[h] < |inodes|
    ensures heads[h] != NULL ==> Hash64(inodes[heads[h]].host) == h
    ensures forall g :: heads[h] < g < |inodes| ==> Hash64(inodes[g].host) != h
  {
    hide Hash64;
    var p := LastWith(inodes, h, |inodes|);
  }

  lemma NextInChain(inodes: seq<CacheInode>, heads: seq<int>, p: int)
    requires InodeChains(inodes, heads) && 0 <= p < |inodes|
    ensures var q := inodes[p].next;
            && NULL <= q < p && (q != NULL ==> Hash64(inodes[q].host) == Hash64(inodes[p].host))
            && forall g :: q < g < p ==> Hash64(inodes[g].host) != Hash64(inodes[p].host)
  {
    hide Hash64;
    var q := LastWith(inodes, Hash64(inodes[p].host), p);
  }

  lemma NumberInRange(inodes: seq<CacheInode>, cache: seq<CacheBlock>, uses: map<int, Use>, first: int, next: int,
                      f: int)
    requires Numbered(inodes, cache, uses, first, next) && BLKN_FREEMAP <= first <= next && 0 <= f < |inodes|
    ensures BLKN_ROOT <= inodes[f].ino < next
  {
  }

  lemma LinksFree(inodes: seq<CacheInode>, files: seq<File>, cache: seq<CacheBlock>, roles: seq<Role>,
                  uses: map<int, Use>, image: Image, f: int, node: CacheInode)
    requires FilesOk(inodes, files, cache, roles) && ContentsOk(inodes, files, uses, image) && 0 <= f < |inodes|
    requires node == inodes[f].(inode := inodes[f].inode.(nlinks := node.inode.nlinks))
    ensures FilesOk(inodes[f := node], files, cache, roles) && ContentsOk(inodes[f := node], files, uses, image)
  {
    hide Mapped, ContentOk;
    FileAt(inodes, files, cache, roles, f);
    MappedFields(inodes[f], node, f, files[f].nums, files[f].leaves, cache, roles);
  }

  /** A host inode number met before. */
  ghost predicate Known(inodes: seq<CacheInode>, host: int) {
    exists g :: 0 <= g < |inodes| && inodes[g].host == host
  }

  /** The blocks a new file takes: its inode, its data and its index blocks. */
  function FileCost(isNew: bool, blocks: nat): int {
    if isNew then 1 + blocks + IndexBlocks(blocks) else 0
  }

  ghost predicate NodeAt(ci: CacheInode, image: Image) {
    ci.ino in image && image[ci.ino] == Node(ci.inode)
  }

  lemma KeptByBlocks(inodes: seq<CacheInode>, cache: seq<CacheBlock>, uses: map<int, Use>, first: int, next: int,
                     a: Image, b: Image)
    requires Numbered(inodes, cache, uses, first, next)
    requires forall n :: !(n in uses && uses[n].IndexBlock?) ==> SameAt(a, b, n)
    ensures forall f :: 0 <= f < |inodes| && NodeAt(inodes[f], a) ==> NodeAt(inodes[f], b)
  {
  }

  lemma KeptByInodes(inodes: seq<CacheInode>, cache: seq<CacheBlock>, uses: map<int, Use>, first: int, next: int,
                     a: Image, b: Image)
    requires Numbered(inodes, cache, uses, first, next)
    requires forall n :: !(n in uses && uses[n].InodeBlock?) ==> SameAt(a, b, n)
    ensures IndexWritten(cache, a) ==> IndexWritten(cache, b)
  {
  }

  /** The superblock and the free map have numbers of their own. */
  lemma LowNumbers(inodes: seq<CacheInode>, cache: seq<CacheBlock>, uses: map<int, Use>, first: int, next: int)
    requires Numbered(inodes, cache, uses, first, next) && first >= BLKN_FREEMAP
    ensures BLKN_SUPER !in uses && forall n :: BLKN_FREEMAP <= n < first ==> n !in uses
  {
  }

  lemma MapKept(a: Image, b: Image, first: int, next: int, ninos: int)
    requires MapWritten(a, next, ninos) && first == BLKN_FREEMAP + MapBlocks(ninos)
    requires forall n :: BLKN_FREEMAP <= n < first ==> SameAt(a, b, n)
    ensures MapWritten(b, next, ninos)
  {
    hide Marks;
    forall k | 0 <= k < MapBlocks(ninos) ensures MapAt(b, k, next, ninos) {
      assert MapAt(a, k, next, ninos);
      assert SameAt(a, b, BLKN_FREEMAP + k);
    }
  }

  lemma ChainLength(inodes: seq<CacheInode>, heads: seq<int>)
    requires InodeChains(inodes, heads)
    ensures |heads| == HASH_LIST_SIZE
  {
  }

  lemma NewFile(inodes: seq<CacheInode>, files: seq<File>, cache: seq<CacheBlock>, roles: seq<Role>,
                uses: map<int, Use>, image: Image, ci: CacheInode)
    requires FilesOk(inodes, files, cache, roles) && ContentsOk(inodes, files, uses, image)
    requires ci.inode == Inode(0, ci.inode.kind, 0, 0, seq(NDIRECT, _ => 0), 0, 0) && ci.nblks == 0 && ci.l1 == NULL
             && ci.l2 == NULL
    ensures FilesOk(inodes + [ci], files + [File([], [], [])], cache, roles)
    ensures ContentsOk(inodes + [ci], files + [File([], [], [])], uses, image)
  {
    assert FileOk(ci, |inodes|, File([], [], []), cache, roles);
    assert ContentOk(|inodes|, File([], [], []), 0, uses, image);
  }

  lemma Sizes(inodes: seq<CacheInode>, files: seq<File>, cache: seq<CacheBlock>, roles: seq<Role>,
              uses: map<int, Use>, image: Image, f: int)
    requires FilesOk(inodes, files, cache, roles) && ContentsOk(inodes, files, uses, image) && 0 <= f < |inodes|
    ensures |files| == |inodes| && |files[f].chunks| == |files[f].nums| <= LN_NBLKS
  {
    assert ContentOk(f, files[f], inodes[f].inode.size, uses, image);
    FileAt(inodes, files, cache, roles, f);
  }

  lemma {:induction false} IndexMonotone(a: nat, b: nat)
    requires a <= b
    ensures a + IndexBlocks(a) <= b + IndexBlocks(b)
    decreases b
  {
    if a < b {
      IndexMonotone(a, b - 1);
      IndexGrows(b - 1);
    }
  }

  lemma OnlySelf(f: int, cache: seq<CacheBlock>, roles: seq<Role>)
    requires |roles| == |cache|
    ensures OnlyOf(f, cache, roles, cache, roles)
  {
  }

  lemma DirectSize(node: CacheInode, f: int, nums: seq<int>, leaves: seq<int>, cache: seq<CacheBlock>, roles: seq<Role>)
    requires Mapped(node, f, nums, leaves, cache, roles)
    ensures |node.inode.direct| == NDIRECT
  {
  }

  lemma OnlyNew(f: int, c: seq<CacheBlock>, r: seq<Role>, cache: seq<CacheBlock>, roles: seq<Role>,
                cache': seq<CacheBlock>, roles': seq<Role>, ino: int, role: Role)
    requires OnlyOf(f, c, r, cache, roles) && NewBlock(cache, roles, cache', roles', ino, role)
    ensures OnlyOf(f, c, r, cache', roles')
  {
  }

  lemma RootEntry(node: CacheInode, f: int, nums: seq<int>, leaves: seq<int>, cache: seq<CacheBlock>, roles: seq<Role>,
                  k: int)
    requires Mapped(node, f, nums, leaves, cache, roles) && node.l2 != NULL && 0 <= k < NENTRY
    ensures 0 <= node.l2 < |cache| && |cache[node.l2].data| == NENTRY && roles[node.l2] == Root(f)
    ensures cache[node.l2].ino == node.inode.dbIndirect && cache[node.l2].data[k] == NumberAt(cache, leaves, k + 1)
  {
  }

  lemma StoreKeeps(inodes: seq<CacheInode>, cache: seq<CacheBlock>, uses: map<int, Use>, first: int, next: int,
                   heads: seq<int>, p: int, j: int, x: int)
    requires Numbered(inodes, cache, uses, first, next) && BlockChains(cache, heads)
    requires 0 <= p < |cache| && 0 <= j < |cache[p].data|
    ensures Numbered(inodes, Store(cache, p, j, x), uses, first, next) && BlockChains(Store(cache, p, j, x), heads)
  {
  }

  lemma StoreSame(cache: seq<CacheBlock>, p: int, j: int, x: int)
    requires 0 <= p < |cache| && 0 <= j < |cache[p].data| && cache[p].data[j] == x
    ensures Store(cache, p, j, x) == cache
  {
    assert cache[p].data[j := x] == cache[p].data;
  }

  lemma StoreOnly(f: int, c: seq<CacheBlock>, r: seq<Role>, cache: seq<CacheBlock>, roles: seq<Role>, p: int, j: int,
                  x: int)
    requires OnlyOf(f, c, r, cache, roles) && 0 <= p < |cache| && 0 <= j < |cache[p].data| && roles[p].file == f
    ensures OnlyOf(f, c, r, Store(cache, p, j, x), roles)
  {
  }

  class Builder {
    const ninos: int
    var nextIno: int
    var unused: int
    var inodes: seq<CacheInode>
    var inodeHeads: seq<int>
    var cache: seq<CacheBlock>
    var blockHeads: seq<int>
    var image: Image
    var entryName: Bytes

    ghost const first: int
    ghost var uses: map<int, Use>
    ghost var roles: seq<Role>
    ghost var files: seq<File>
    ghost var searches: nat

    constructor (ninos: int, nextIno: int)
      requires BLKN_FREEMAP + MapBlocks(ninos) == nextIno <= ninos <= MAX_NBLKS
      ensures Valid()
      ensures this.ninos == ninos && this.nextIno == nextIno && inodes == [] && cache == [] && searches == 0
      ensures files == []
      ensures BLKN_ROOT in uses && uses[BLKN_ROOT] == InodeBlock(0) && image == map[]
    {
      this.ninos, this.nextIno, unused, first := ninos, nextIno, ninos - nextIno, nextIno;
      inodes, inodeHeads, cache, blockHeads := [], seq(HASH_LIST_SIZE, _ => NULL), [], seq(HASH_LIST_SIZE, _ => NULL);
      image, entryName := map[], seq(NAME_SIZE, _ => 0);
      uses, roles, files, searches := map[BLKN_ROOT := InodeBlock(0)], [], [], 0;
    }

    /** Every block is either below next_ino or counted as unused. */
    ghost predicate Counted()
      reads this
    {
      && first == BLKN_FREEMAP + MapBlocks(ninos) && first <= nextIno <= ninos <= MAX_NBLKS
      && nextIno + unused == ninos
    }

    ghost predicate Base()
      reads this
    {
      && Counted() && |roles| == |cache|
      && Numbered(inodes, cache, uses, first, nextIno)
      && BlockChains(cache, blockHeads)
    }

    ghost predicate Sound()
      reads this
    {
      Base() && InodeChains(inodes, inodeHeads) && FilesOk(inodes, files, cache, roles)
    }

    /** sfs_alloc_ino */
    method SfsAllocIno(ghost use: Use) returns (ok: bool, ino: int)
      requires Counted()
      modifies this`nextIno, this`unused, this`uses
      ensures ok <==> old(nextIno) < ninos
      ensures ok ==> Counted() && ino == old(nextIno) && nextIno == ino + 1 && uses == old(uses)[ino := use]
    {
      if nextIno < ninos {
        unused := unused - 1;
        ino := nextIno;
        nextIno := nextIno + 1;
        uses := uses[ino := use];
        return true, ino;
      }
      return false, 0;
    }

    /** alloc_cache_block with the argument 0, which every caller passes: the block gets a new number,
        but the hash chain is that of the argument. */
    method AllocCacheBlock(ghost role: Role) returns (ok: bool, cb: int)
      requires Base()
      modifies this`nextIno, this`unused, this`uses, this`cache, this`blockHeads, this`roles
      ensures ok <==> old(nextIno) < ninos
      ensures ok ==>
                && Base() && cb == |old(cache)| && nextIno == old(nextIno) + 1
                && NewBlock(old(cache), old(roles), cache, roles, old(nextIno), role)
                && uses == old(uses)[old(nextIno) := IndexBlock(cb)] && Extends(old(uses), uses)
    {
      hide Zeros;
      var ino;
      ok, ino := SfsAllocIno(IndexBlock(|cache|));
      if !ok {
        return false, NULL;
      }
      var h := Hash32(0);
      cb := |cache|;
      cache := cache + [CacheBlock(ino, blockHeads[h], Zeros())];
      blockHeads := blockHeads[h := cb];
      roles := roles + [role];
    }

    /** search_cache_block: it looks on the chain of the number's own hash, and so finds a block only if
        that happens to be chain 0. */
    method SearchCacheBlock(ino: int) returns (cb: int)
      requires Base()
      modifies this`searches
      ensures searches == old(searches) + 1
      ensures NULL <= cb < |cache| && (cb != NULL ==> cache[cb].ino == ino)
      ensures cb != NULL <==> Hash32(ino) == 0 && exists p :: 0 <= p < |cache| && cache[p].ino == ino
    {
      hide Hash32, Numbered;
      searches := searches + 1;
      cb := blockHeads[Hash32(ino)];
      while cb != NULL && cache[cb].ino != ino
        invariant NULL <= cb < |cache| && (Hash32(ino) != 0 ==> cb == NULL)
        invariant Hash32(ino) == 0 ==> forall p :: cb < p < |cache| ==> cache[p].ino != ino
        decreases cb
      {
        cb := cache[cb].next;
      }
    }

    /** update_cache: a new index block where there was none, the cached one if it is the right one, and
        a search otherwise, whose failure is an assertion failure. */
    method UpdateCache(cb: int, ino: int, ghost role: Role) returns (ok: bool, cb': int, ino': int)
      requires Base() && NULL <= cb < |cache|
      modifies this`nextIno, this`unused, this`uses, this`cache, this`blockHeads, this`roles, this`searches
      ensures ino == 0 ==> (ok <==> old(nextIno) < ninos) && searches == old(searches)
      ensures ino == 0 && ok ==>
                && Base() && cb' == |old(cache)| && ino' == old(nextIno) && nextIno == old(nextIno) + 1
                && NewBlock(old(cache), old(roles), cache, roles, ino', role)
                && uses == old(uses)[ino' := IndexBlock(cb')] && Extends(old(uses), uses)
      ensures ino != 0 ==> Base() && cache == old(cache) && roles == old(roles) && uses == old(uses)
                           && nextIno == old(nextIno)
      ensures ino != 0 && ok ==> ino' == ino && 0 <= cb' < |cache| && cache[cb'].ino == ino
      ensures ino != 0 && cb != NULL && old(cache)[cb].ino == ino ==> ok && cb' == cb && searches == old(searches)
      ensures ino != 0 && (cb == NULL || old(cache)[cb].ino != ino) ==>
                (ok <==> Hash32(ino) == 0 && exists p :: 0 <= p < |cache| && cache[p].ino == ino)
    {
      hide Numbered, BlockChains, Hash32;
      cb', ino', ok := cb, ino, true;
      if ino == 0 {
        ok, cb' := AllocCacheBlock(role);
        if !ok {
          return;
        }
        ino' := cache[cb'].ino;
      } else if cb == NULL || cache[cb].ino != ino {
        cb' := SearchCacheBlock(ino);
        ok := cb' != NULL && cache[cb'].ino == ino;
      }
    }

    /** The state of a file's map while a block is being appended. */
    ghost predicate Ready(node: CacheInode, f: int, nums: seq<int>, leaves: seq<int>, c: seq<CacheBlock>, r: seq<Role>)
      reads this
    {
      && Base() && Mapped(node, f, nums, leaves, cache, roles) && OnlyOf(f, c, r, cache, roles)
      && (node.l2 == NULL <==> |leaves| <= 1) && |leaves| == LeafCount(|nums| + 1)
      && |cache| == |c| + IndexBlocks(|nums| + 1) - IndexBlocks(|nums|)
    }

    /** The indirect branch of append_block up to the store: the cached pointer is the indirect block. */
    method LoadIndirect(node: CacheInode, ghost f: int, ghost nums: seq<int>, ghost leaves: seq<int>)
      returns (ok: bool, node': CacheInode, ghost leaves': seq<int>)
      requires Base() && Mapped(node, f, nums, leaves, cache, roles) && node.l2 == NULL
      requires NDIRECT <= |nums| < L1_NBLKS && |leaves| == LeafCount(|nums|)
      modifies this`nextIno, this`unused, this`uses, this`cache, this`blockHeads, this`roles, this`searches
      ensures ok <==> old(nextIno) + IndexBlocks(|nums| + 1) - IndexBlocks(|nums|) <= ninos
      ensures searches == old(searches)
      ensures ok ==> Ready(node', f, nums, leaves', old(cache), old(roles)) && Extends(old(uses), uses)
                     && SameButMap(node, node')
      ensures ok ==> nextIno - old(nextIno) == |cache| - |old(cache)|
    {
      hide Numbered, BlockChains, Zeros, LeafOk, RootOk;
      LeafCountStep(|nums|);
      ghost var role := Leaf(f, 0);
      if leaves != [] {
        LeafNumber(node, f, nums, leaves, cache, roles, 0);
        NumberPositive(inodes, cache, uses, first, nextIno, leaves[0]);
      } else if nextIno < ninos {
        assert node.inode.indirect == 0;
      }
      var cb, ent;
      ok, cb, ent := UpdateCache(node.l1, node.inode.indirect, role);
      node' := node.(l1 := cb, inode := node.inode.(indirect := ent));
      leaves' := leaves;
      if ok && leaves == [] {
        FirstLeafStep(node, f, nums, old(cache), old(roles), cache, roles, ent);
        leaves' := [cb];
      }
    }

    /** The double-indirect branch of append_block up to the store. */
    method LoadDouble(node: CacheInode, n: int, ghost f: int, ghost nums: seq<int>, ghost leaves: seq<int>)
      returns (ok: bool, node': CacheInode, ghost leaves': seq<int>)
      requires Base() && Mapped(node, f, nums, leaves, cache, roles) && (node.l2 == NULL <==> |leaves| <= 1)
      requires L1_NBLKS <= |nums| < LN_NBLKS && |leaves| == LeafCount(|nums|) && n == |nums| - L1_NBLKS
      modifies this`nextIno, this`unused, this`uses, this`cache, this`blockHeads, this`roles, this`searches
      ensures ok <==> old(nextIno) + IndexBlocks(|nums| + 1) - IndexBlocks(|nums|) <= ninos
      ensures searches == old(searches)
      ensures ok ==> Ready(node', f, nums, leaves', old(cache), old(roles)) && Extends(old(uses), uses)
                     && SameButMap(node, node')
      ensures ok ==> nextIno - old(nextIno) == |cache| - |old(cache)|
    {
      hide Numbered, BlockChains, Zeros, LeafOk, RootOk, Mapped, OnlyOf;
      LeafCountStep(|nums|);
      ok, node' := LoadRoot(node, f, nums, leaves);
      leaves' := leaves;
      if !ok {
        return;
      }
      ok, node', leaves' := LoadLeaf(node', n, f, nums, leaves, old(cache), old(roles));
    }

    /** update_cache of the double-indirect block. */
    method LoadRoot(node: CacheInode, ghost f: int, ghost nums: seq<int>, ghost leaves: seq<int>)
      returns (ok: bool, node': CacheInode)
      requires Base() && Mapped(node, f, nums, leaves, cache, roles) && |leaves| >= 1
               && (node.l2 == NULL <==> |leaves| <= 1)
      modifies this`nextIno, this`unused, this`uses, this`cache, this`blockHeads, this`roles, this`searches
      ensures ok <==> |leaves| > 1 || old(nextIno) < ninos
      ensures searches == old(searches) && (ok ==> nextIno == old(nextIno) + if |leaves| == 1 then 1 else 0)
      ensures ok ==>
                && Base() && Mapped(node', f, nums, leaves, cache, roles) && node'.l2 != NULL
                && OnlyOf(f, old(cache), old(roles), cache, roles)
                && |cache| == |old(cache)| + (if |leaves| == 1 then 1 else 0)
                && Extends(old(uses), uses) && SameButMap(node, node')
    {
      hide Numbered, BlockChains, Zeros, LeafOk;
      if |leaves| > 1 {
        RootEntry(node, f, nums, leaves, cache, roles, 0);
        NumberPositive(inodes, cache, uses, first, nextIno, node.l2);
      }
      var cb, ent;
      ok, cb, ent := UpdateCache(node.l2, node.inode.dbIndirect, Root(f));
      node' := node.(l2 := cb, inode := node.inode.(dbIndirect := ent));
      if ok && |leaves| == 1 {
        RootStep(node, f, nums, leaves, old(cache), old(roles), cache, roles, ent);
      }
    }

    /** update_cache of the entry block, through its entry in the double-indirect block. */
    method LoadLeaf(node: CacheInode, n: int, ghost f: int, ghost nums: seq<int>, ghost leaves: seq<int>,
                    ghost c: seq<CacheBlock>, ghost r: seq<Role>)
      returns (ok: bool, node': CacheInode, ghost leaves': seq<int>)
      requires Base() && Mapped(node, f, nums, leaves, cache, roles) && node.l2 != NULL && OnlyOf(f, c, r, cache, roles)
      requires L1_NBLKS <= |nums| < LN_NBLKS && |leaves| == LeafCount(|nums|) && n == |nums| - L1_NBLKS
      modifies this`nextIno, this`unused, this`uses, this`cache, this`blockHeads, this`roles, this`searches
      ensures ok <==> n % NENTRY != 0 || old(nextIno) < ninos
      ensures searches == old(searches)
      ensures ok ==>
                && Base() && Mapped(node', f, nums, leaves', cache, roles) && node'.l2 == node.l2
                && OnlyOf(f, c, r, cache, roles)
                && |leaves'| == LeafCount(|nums| + 1) && |leaves'| == n / NENTRY + 2
                && nextIno - old(nextIno) == |cache| - |old(cache)|
                && |cache| == |old(cache)| + (if n % NENTRY == 0 then 1 else 0)
                && Extends(old(uses), uses) && SameButMap(node, node')
    {
      hide Numbered, BlockChains, Zeros, LeafOk, Mapped, OnlyOf, NumberAt, LeafCount;
      var k := n / NENTRY;
      LeafOfDouble(n);
      RootEntry(node, f, nums, leaves, cache, roles, k);
      if n % NENTRY != 0 {
        LeafNumber(node, f, nums, leaves, cache, roles, k + 1);
        NumberPositive(inodes, cache, uses, first, nextIno, leaves[k + 1]);
      }
      LastLeaf(node, f, nums, leaves, cache, roles, k + 1);
      var cb, ent;
      ok, cb, ent := UpdateCache(node.l1, cache[node.l2].data[k], Leaf(f, k + 1));
      node' := node.(l1 := cb);
      leaves' := leaves;
      if !ok {
        return;
      }
      if n % NENTRY == 0 {
        leaves' := leaves + [cb];
        OnlyNew(f, c, r, old(cache), old(roles), cache, roles, ent, Leaf(f, k + 1));
        NextLeafStep(node, f, nums, leaves, old(cache), old(roles), cache, roles, ent);
      }
      StoreKeeps(inodes, cache, uses, first, nextIno, blockHeads, node.l2, k, ent);
      StoreOnly(f, c, r, cache, roles, node.l2, k, ent);
      if n % NENTRY != 0 {
        StoreSame(cache, node.l2, k, ent);
      }
      cache := Store(cache, node.l2, k, ent);
    }

    /** The store of the new number at the end of the last entry block. */
    method StoreEntry(node: CacheInode, j: int, ino: int, ghost f: int, ghost nums: seq<int>, ghost leaves: seq<int>,
                      ghost c: seq<CacheBlock>, ghost r: seq<Role>)
      requires Ready(node, f, nums, leaves, c, r) && leaves != [] && j == |nums| - LeafBase(|leaves| - 1)
      requires |nums| < LeafBase(|leaves|) && j >= 0
      modifies this`cache
      ensures Base() && Mapped(node, f, nums + [ino], leaves, cache, roles) && OnlyOf(f, c, r, cache, roles)
      ensures |cache| == |old(cache)|
    {
      hide Numbered, BlockChains, OnlyOf, Mapped;
      LastLeaf(node, f, nums, leaves, cache, roles, 0);
      EntryStep(node, f, nums, leaves, cache, roles, ino);
      StoreKeeps(inodes, cache, uses, first, nextIno, blockHeads, node.l1, j, ino);
      StoreOnly(f, c, r, cache, roles, node.l1, j, ino);
      cache := Store(cache, node.l1, j, ino);
    }

    /** The three branches of append_block, on a file that may still grow. */
    method MapBlock(node: CacheInode, ino: int, ghost f: int, ghost file: File)
      returns (ok: bool, node': CacheInode, ghost leaves: seq<int>)
      requires Base() && FileOk(node, f, file, cache, roles) && node.nblks < LN_NBLKS
      modifies this`nextIno, this`unused, this`uses, this`cache, this`blockHeads, this`roles, this`searches
      ensures ok <==> old(nextIno) + IndexBlocks(node.nblks + 1) - IndexBlocks(node.nblks) <= ninos
      ensures searches == old(searches)
      ensures ok ==>
                && Base() && Mapped(node', f, file.nums + [ino], leaves, cache, roles)
                && OnlyOf(f, old(cache), old(roles), cache, roles)
                && (node'.l2 == NULL <==> |leaves| <= 1) && |leaves| == LeafCount(node.nblks + 1)
                && |cache| - |old(cache)| == nextIno - old(nextIno)
                && nextIno - old(nextIno) == IndexBlocks(node.nblks + 1) - IndexBlocks(node.nblks)
                && Extends(old(uses), uses) && SameButMap(node, node')
    {
      hide Numbered, BlockChains, Mapped, OnlyOf, LeafCount, IndexBlocks, LeafBase;
      var n := node.nblks;
      leaves := file.leaves;
      MapCases(n);
      if n < NDIRECT {
        OnlySelf(f, cache, roles);
        DirectSize(node, f, file.nums, leaves, cache, roles);
        DirectStep(node, f, file.nums, cache, roles, ino);
        node' := node.(inode := node.inode.(direct := node.inode.direct[n := ino]));
      } else if n < L1_NBLKS {
        n := n - NDIRECT;
        ok, node', leaves := LoadIndirect(node, f, file.nums, leaves);
        if !ok {
          return;
        }
        StoreEntry(node', n, ino, f, file.nums, leaves, old(cache), old(roles));
      } else {
        n := n - L1_NBLKS;
        ok, node', leaves := LoadDouble(node, n, f, file.nums, leaves);
        if !ok {
          return;
        }
        StoreEntry(node', n % NENTRY, ino, f, file.nums, leaves, old(cache), old(roles));
      }
      ok := true;
    }

    /** append_block: it fails exactly for a file of 32768 blocks or when the index blocks it needs do not
        fit; otherwise the number joins the end of this file's map, no other file's map changes, and
        the cached pointers were right, so that nothing was searched for. */
    method AppendBlock(f: int, size: int, ino: int) returns (ok: bool)
      requires Sound() && 0 <= f < |inodes|
      modifies this`nextIno, this`unused, this`uses, this`cache, this`blockHeads, this`roles, this`searches,
               this`inodes, this`files
      ensures var n := |old(files)[f].nums|;
              ok <==> n < LN_NBLKS && old(nextIno) + IndexBlocks(n + 1) - IndexBlocks(n) <= ninos
      ensures searches == old(searches)
      ensures ok ==>
                && Sound() && Extends(old(uses), uses)
                && |files| == |old(files)|
                && files == old(files)[f := old(files)[f].(nums := old(files)[f].nums + [ino],
                                                           leaves := files[f].leaves)]
                && |cache| - |old(cache)| == nextIno - old(nextIno)
                && nextIno - old(nextIno)
                   == IndexBlocks(|old(files)[f].nums| + 1) - IndexBlocks(|old(files)[f].nums|)
                && |inodes| == |old(inodes)| && inodes == old(inodes)[f := inodes[f]]
                && Longer(old(inodes)[f], inodes[f], size)
    {
      hide Numbered, BlockChains, Mapped, OnlyOf, InodeChains, FilesOk, LeafCount, IndexBlocks;
      FileAt(inodes, files, cache, roles, f);
      var node := inodes[f];
      ghost var file := files[f];
      ghost var linked, leaves;
      if node.nblks >= LN_NBLKS {
        return false;
      }
      ok, node, leaves := MapBlock(node, ino, f, file);
      if !ok {
        return false;
      }
      linked := node;
      node := node.(nblks := node.nblks + 1,
                    inode := node.inode.(size := node.inode.size + size, blocks := node.inode.blocks + 1));
      ghost var longer := file.(nums := file.nums + [ino], leaves := leaves);
      MappedFields(linked, node, f, longer.nums, leaves, cache, roles);
      FilesStep(inodes, files, old(cache), old(roles), f, node, longer, cache, roles);
      IdentityKept(inodes, f, node, inodeHeads, cache, uses, first, nextIno);
      files := files[f := longer];
      inodes := inodes[f := node];
    }

    ghost predicate Valid()
      reads this
    {
      Sound() && ContentsOk(inodes, files, uses, image) && |entryName| == NAME_SIZE
    }

    /** write_block of a number in range. */
    method WriteBlock(ino: int, sector: Sector)
      requires 0 <= ino < ninos
      modifies this`image
      ensures image == old(image)[ino := sector]
    {
      image := image[ino := sector];
    }

    /** Number a new block and write it. */
    method WriteNew(data: Bytes, ghost use: Use) returns (ok: bool, ino: int)
      requires Valid() && |data| <= BLKSIZE
      modifies this`nextIno, this`unused, this`uses, this`image
      ensures ok <==> old(nextIno) < ninos
      ensures ok ==>
                && Valid() && Extends(old(uses), uses) && nextIno == old(nextIno) + 1
                && ino in uses && uses[ino] == use && ino in image && image[ino] == Data(Padded(data))
    {
      hide Numbered, BlockChains, FilesOk, InodeChains, ContentsOk, Padded;
      ok, ino := SfsAllocIno(use);
      if !ok {
        return;
      }
      WriteBlock(ino, Data(Padded(data)));
      FreshNumber(inodes, cache, old(uses), first, ino, use);
      ContentsFrame(inodes, files, old(uses), old(image), uses, image);
    }

    /** What callers do with each block of data: number it, write it and append it. */
    method AddBlock(f: int, data: Bytes) returns (ok: bool)
      requires Valid() && 0 <= f < |inodes| && |data| <= BLKSIZE
      modifies this`nextIno, this`unused, this`uses, this`cache, this`blockHeads, this`roles, this`searches,
               this`inodes, this`files, this`image
      ensures var n := |old(files)[f].nums|;
              ok <==> n < LN_NBLKS && old(nextIno) + 1 + IndexBlocks(n + 1) - IndexBlocks(n) <= ninos
      ensures searches == old(searches)
      ensures ok ==>
                && Valid() && |files| == |old(files)| && Extends(old(uses), uses)
                && files == old(files)[f := files[f]] && files[f].chunks == old(files)[f].chunks + [data]
                && |inodes| == |old(inodes)| && inodes == old(inodes)[f := inodes[f]]
                && Longer(old(inodes)[f], inodes[f], |data|)
                && nextIno == old(nextIno) + 1
                              + IndexBlocks(|old(files)[f].nums| + 1) - IndexBlocks(|old(files)[f].nums|)
    {
      hide Numbered, BlockChains, FilesOk, InodeChains, ContentsOk, Padded, LeafCount, IndexBlocks;
      FileAt(inodes, files, cache, roles, f);
      ghost var n := |files[f].nums|;
      var ino;
      ok, ino := WriteNew(data, DataBlock(f, n));
      if !ok {
        IndexGrows(n);
        return;
      }
      ghost var numbered := uses;
      ok := AppendBlock(f, |data|, ino);
      if !ok {
        return;
      }
      ContentsFrame(old(inodes), old(files), numbered, image, uses, image);
      ChunksFree(inodes, files, cache, roles, f, files[f].chunks + [data]);
      files := files[f := files[f].(chunks := files[f].chunks + [data])];
      assert files == old(files)[f := files[f]];
      ContentsStep(old(inodes), old(files), uses, image, f, inodes[f], files[f], data, ino);
    }

    /** alloc_cache_inode: an empty file, with a new number unless one is given. */
    method AllocCacheInode(host: int, given: int, kind: int) returns (ok: bool, f: int)
      requires Valid() && (given != 0 ==> given in uses && uses[given] == InodeBlock(|inodes|))
      modifies this`nextIno, this`unused, this`uses, this`inodes, this`inodeHeads, this`files
      ensures ok <==> given != 0 || old(nextIno) < ninos
      ensures ok ==>
                && Valid() && f == |old(inodes)| && |inodes| == f + 1 && inodes[..f] == old(inodes)
                && nextIno == old(nextIno) + (if given == 0 then 1 else 0)
                && inodes[f].ino == (if given == 0 then old(nextIno) else given) && inodes[f].host == host
                && inodes[f].inode.kind == kind
                && inodes[f].inode.nlinks == 0 && files == old(files) + [File([], [], [])] && Extends(old(uses), uses)
    {
      hide InodeChains, FilesOk, ContentsOk, Hash64, BlockChains;
      var ino := given;
      f := |inodes|;
      ok := true;
      if given == 0 {
        FreshNumber(inodes, cache, uses, first, nextIno, InodeBlock(f));
        ok, ino := SfsAllocIno(InodeBlock(f));
        if !ok {
          return;
        }
        ContentsFrame(inodes, files, old(uses), image, uses, image);
      }
      var h := Hash64(host);
      ChainLength(inodes, inodeHeads);
      var node := Inode(0, kind, 0, 0, seq(NDIRECT, _ => 0), 0, 0);
      var ci := CacheInode(node, host, ino, 0, NULL, NULL, inodeHeads[h]);
      ChainsAdd(inodes, inodeHeads, ci);
      NewFile(inodes, files, cache, roles, uses, image, ci);
      files := files + [File([], [], [])];
      inodes := inodes + [ci];
      inodeHeads := inodeHeads[h := f];
    }

    /** search_cache_inode: the latest inode made for a host inode number, or NULL if there is none. */
    method SearchCacheInode(host: int) returns (f: int)
      requires InodeChains(inodes, inodeHeads)
      ensures NULL <= f < |inodes| && (f != NULL ==> inodes[f].host == host)
      ensures forall g :: f < g < |inodes| ==> inodes[g].host != host
    {
      hide Hash64, InodeChains;
      var h := Hash64(host);
      HeadOfChain(inodes, inodeHeads, h);
      f := inodeHeads[h];
      while f != NULL && inodes[f].host != host
        invariant NULL <= f < |inodes| && (f != NULL ==> Hash64(inodes[f].host) == h)
        invariant forall g :: f < g < |inodes| ==> inodes[g].host != host
        decreases f
      {
        NextInChain(inodes, inodeHeads, f);
        f := inodes[f].next;
      }
    }

    /** open_file: each read of up to 4096 bytes becomes a block; an assertion fails if a short read is
        not the last. */
    method OpenFile(f: int, input: seq<Bytes>) returns (ok: bool)
      requires Valid() && 0 <= f < |inodes| && files[f].nums == [] && Readable(input)
      modifies this`nextIno, this`unused, this`uses, this`cache, this`blockHeads, this`roles, this`searches,
               this`inodes, this`files, this`image
      ensures ok <==> FullButLast(input) && |input| <= LN_NBLKS
                      && old(nextIno) + |input| + IndexBlocks(|input|) <= ninos
      ensures searches == old(searches)
      ensures ok ==>
                && Valid() && |files| == |old(files)| && files == old(files)[f := files[f]] && files[f].chunks == input
                && |inodes| == |old(inodes)| && inodes == old(inodes)[f := inodes[f]]
                && inodes[f].ino == old(inodes)[f].ino && inodes[f].host == old(inodes)[f].host
                && inodes[f].inode.kind == old(inodes)[f].inode.kind
                && inodes[f].inode.nlinks == old(inodes)[f].inode.nlinks
                && Extends(old(uses), uses) && nextIno == old(nextIno) + |input| + IndexBlocks(|input|)
    {
      hide Numbered, BlockChains, FilesOk, InodeChains, ContentsOk, LeafCount, IndexBlocks, FullButLast;
      Sizes(inodes, files, cache, roles, uses, image, f);
      IndexGrows(0);
      var last := BLKSIZE;
      for i := 0 to |input|
        invariant Valid() && |files| == |old(files)| && files == old(files)[f := files[f]]
                  && files[f].chunks == input[..i]
        invariant |inodes| == |old(inodes)| && inodes == old(inodes)[f := inodes[f]]
        invariant inodes[f].ino == old(inodes)[f].ino && inodes[f].host == old(inodes)[f].host
        invariant inodes[f].inode.kind == old(inodes)[f].inode.kind
        invariant inodes[f].inode.nlinks == old(inodes)[f].inode.nlinks
        invariant Extends(old(uses), uses) && i <= LN_NBLKS && |files[f].nums| == i
        invariant nextIno == old(nextIno) + i + IndexBlocks(i) && searches == old(searches)
        invariant last == if i == 0 then BLKSIZE else |input[i - 1]|
        invariant forall j :: 0 <= j < i - 1 ==> |input[j]| == BLKSIZE
      {
        if last != BLKSIZE {
          ShortIsLast(input, i);
          return false;
        }
        ghost var before := files[f];
        ok := AddBlock(f, input[i]);
        if !ok {
          IndexMonotone(i + 1, |input|);
          return;
        }
        Sizes(inodes, files, cache, roles, uses, image, f);
        last := |input[i]|;
      }
      AllFull(input);
      assert input[..|input|] == input;
      ok := true;
    }

    /** add_entry: a block of the directory names the file, which gains a link. It asserts that the directory is one
        and the name fits its field. */
    method AddEntry(dir: int, f: int, name: Bytes) returns (ok: bool)
      requires Valid() && 0 <= dir < |inodes| && 0 <= f < |inodes|
      modifies this`nextIno, this`unused, this`uses, this`cache, this`blockHeads, this`roles, this`searches,
               this`inodes, this`files, this`image, this`entryName
      ensures var n := |old(files)[dir].nums|;
              ok <==>
                && old(inodes)[dir].inode.kind == TYPE_DIR && |name| < NAME_SIZE
                && n < LN_NBLKS && old(nextIno) + 1 + IndexBlocks(n + 1) - IndexBlocks(n) <= ninos
      ensures searches == old(searches) && |old(entryName)| == NAME_SIZE
      ensures 0 < old(inodes)[f].ino < ninos < 0x1_0000_0000
      ensures ok ==>
                && Valid() && Extends(old(uses), uses) && SameIdentity(old(inodes), inodes)
                && |files| == |old(files)| && files == old(files)[dir := files[dir]]
                && nextIno == old(nextIno) + 1
                              + IndexBlocks(|old(files)[dir].nums| + 1) - IndexBlocks(|old(files)[dir].nums|)
                && entryName == Strcpy(old(entryName), name)
                && files[dir].chunks == old(files)[dir].chunks + [EntryBytes(old(inodes)[f].ino, entryName)]
                && inodes[f].inode.nlinks == (old(inodes)[f].inode.nlinks + 1) % 0x1_0000
                && (forall g :: 0 <= g < |inodes| && g != f ==> inodes[g].inode.nlinks == old(inodes)[g].inode.nlinks)
    {
      hide Numbered, BlockChains, FilesOk, InodeChains, ContentsOk, LeafCount, IndexBlocks, Le32;
      NumberInRange(inodes, cache, uses, first, nextIno, f);
      if !(inodes[dir].inode.kind == TYPE_DIR && |name| < NAME_SIZE) {
        return false;
      }
      entryName := Strcpy(entryName, name);
      ok := AddBlock(dir, EntryBytes(inodes[f].ino, entryName));
      if !ok {
        return;
      }
      var node := inodes[f].(inode := inodes[f].inode.(nlinks := (inodes[f].inode.nlinks + 1) % 0x1_0000));
      LinksFree(inodes, files, cache, roles, uses, image, f, node);
      IdentityKept(inodes, f, node, inodeHeads, cache, uses, first, nextIno);
      inodes := inodes[f := node];
    }

    /** add_file: a host inode met before is linked again and not copied. */
    method AddFile(dir: int, host: int, input: seq<Bytes>, name: Bytes) returns (ok: bool, f: int)
      requires Valid() && 0 <= dir < |inodes| && Readable(input)
      modifies this`nextIno, this`unused, this`uses, this`cache, this`blockHeads, this`roles, this`searches,
               this`inodes, this`inodeHeads, this`files, this`image, this`entryName
      ensures var n, isNew := |old(files)[dir].nums|, !Known(old(inodes), host);
              ok <==>
                && old(inodes)[dir].inode.kind == TYPE_DIR && |name| < NAME_SIZE
                && (isNew ==> FullButLast(input) && |input| <= LN_NBLKS) && n < LN_NBLKS
                && old(nextIno) + FileCost(isNew, |input|) + 1 + IndexBlocks(n + 1) - IndexBlocks(n) <= ninos
      ensures ok ==>
                && nextIno == old(nextIno) + FileCost(!Known(old(inodes), host), |input|)
                              + 1 + IndexBlocks(|old(files)[dir].nums| + 1) - IndexBlocks(|old(files)[dir].nums|)
                && Valid() && searches == old(searches) && |inodes| >= |old(inodes)|
                && 0 <= f < |inodes| == |files| && inodes[f].host == host
                && |inodes| == (if f < |old(inodes)| then |old(inodes)| else f + 1) && f <= |old(inodes)|
                && SameIdentity(old(inodes), inodes[..|old(inodes)|])
                && (f < |old(inodes)| <==> Known(old(inodes), host))
                && (f >= |old(inodes)| ==> files[f].chunks == input && FullButLast(input))
                && (f >= |old(inodes)| ==> inodes[f].inode.kind == 1 && inodes[f].inode.nlinks == 1)
                && (f < |old(inodes)| ==> inodes[f].inode.nlinks == (old(inodes)[f].inode.nlinks + 1) % 0x1_0000)
                && (forall g :: 0 <= g < |old(inodes)| && g != f ==>
                      inodes[g].inode.nlinks == old(inodes)[g].inode.nlinks)
                && |files| >= |old(files)|
                && (forall g :: 0 <= g < |old(files)| && g != dir ==> files[g] == old(files)[g])
                && 0 < inodes[f].ino < 0x1_0000_0000 && |old(entryName)| == |entryName| == NAME_SIZE
                && entryName == Strcpy(old(entryName), name)
                && files[dir].chunks == old(files)[dir].chunks + [EntryBytes(inodes[f].ino, entryName)]
    {
      hide Numbered, BlockChains, FilesOk, InodeChains, ContentsOk, LeafCount, IndexBlocks, Le32;
      Sizes(inodes, files, cache, roles, uses, image, dir);
      IndexGrows(|files[dir].nums|);
      IndexMonotone(0, |input|);
      f := SearchCacheInode(host);
      if f == NULL {
        ok, f := AllocCacheInode(host, 0, TYPE_FILE);
        if !ok {
          return;
        }
        ok := OpenFile(f, input);
        if !ok {
          return;
        }
      }
      ok := AddEntry(dir, f, name);
    }

    /** Everything the tool knows is in the image. */
    ghost predicate Written()
      reads this
    {
      && BLKN_SUPER in image && image[BLKN_SUPER] == Super(ninos, unused)
      && MapWritten(image, nextIno, ninos)
      && IndexWritten(cache, image)
      && (forall f :: 0 <= f < |inodes| ==> NodeAt(inodes[f], image))
    }

    /** The free-map loop of close_sfs. */
    method WriteMap()
      requires Counted()
      modifies this`image
      ensures MapWritten(image, nextIno, ninos)
      ensures forall n :: !(BLKN_FREEMAP <= n < first) ==> SameAt(old(image), image, n)
    {
      var i, ino := 0, BLKN_FREEMAP;
      while i < ninos
        invariant BLKN_FREEMAP <= ino && i == BLKBITS * (ino - BLKN_FREEMAP) && ino <= first
        invariant forall b :: 0 <= b < ino - BLKN_FREEMAP ==> MapAt(image, b, nextIno, ninos)
        invariant forall n :: !(BLKN_FREEMAP <= n < ino) ==> SameAt(old(image), image, n)
        decreases ninos - i
      {
        ghost var before := image;
        var words := FillMap(i, nextIno, ninos);
        WriteBlock(ino, FreeMap(words));
        assert MapAt(image, ino - BLKN_FREEMAP, nextIno, ninos);
        assert forall b :: 0 <= b < ino - BLKN_FREEMAP && MapAt(before, b, nextIno, ninos) ==>
                 MapAt(image, b, nextIno, ninos);
        assert forall n :: n != ino && SameAt(old(image), before, n) ==> SameAt(old(image), image, n);
        ino := ino + 1;
        i := i + BLKBITS;
      }
    }

    /** The flush of one chain of cache blocks. */
    method FlushBlocks(h: int)
      requires Base() && 0 <= h < HASH_LIST_SIZE
      modifies this`image
      ensures h == 0 ==> IndexWritten(cache, image)
      ensures h != 0 ==> image == old(image)
      ensures forall n :: !(n in uses && uses[n].IndexBlock?) ==> SameAt(old(image), image, n)
    {
      var cb := blockHeads[h];
      while cb != NULL
        invariant NULL <= cb < |cache| && (h != 0 ==> cb == NULL && image == old(image))
        invariant h == 0 ==> forall p :: cb < p < |cache| ==> cache[p].ino in image
                                                              && image[cache[p].ino] == Index(cache[p].data)
        invariant forall n :: !(n in uses && uses[n].IndexBlock?) ==> SameAt(old(image), image, n)
        decreases cb
      {
        WriteBlock(cache[cb].ino, Index(cache[cb].data));
        cb := cache[cb].next;
      }
    }

    /** The flush of one chain of inodes. */
    method FlushInodes(h: int)
      requires Base() && InodeChains(inodes, inodeHeads) && 0 <= h < HASH_LIST_SIZE
      modifies this`image
      ensures forall f :: 0 <= f < |inodes| && (Hash64(inodes[f].host) == h || NodeAt(inodes[f], old(image))) ==>
                NodeAt(inodes[f], image)
      ensures forall n :: !(n in uses && uses[n].InodeBlock?) ==> SameAt(old(image), image, n)
    {
      hide InodeChains, Hash64, BlockChains;
      HeadOfChain(inodes, inodeHeads, h);
      var ci := inodeHeads[h];
      while ci != NULL
        invariant NULL <= ci < |inodes| && (ci != NULL ==> Hash64(inodes[ci].host) == h)
        invariant forall f :: ci < f < |inodes| && Hash64(inodes[f].host) == h ==> NodeAt(inodes[f], image)
        invariant forall f :: 0 <= f < |inodes| && NodeAt(inodes[f], old(image)) ==> NodeAt(inodes[f], image)
        invariant forall n :: !(n in uses && uses[n].InodeBlock?) ==> SameAt(old(image), image, n)
        decreases ci
      {
        NextInChain(inodes, inodeHeads, ci);
        WriteBlock(inodes[ci].ino, Node(inodes[ci].inode));
        ci := inodes[ci].next;
      }
    }

    /** close_sfs: the free map, the superblock, and every cached index block and inode. */
    method CloseSfs()
      requires Valid()
      modifies this`image
      ensures Valid() && Written()
    {
      hide InodeChains, Hash64, BlockChains, FilesOk, ContentsOk, MapWritten, IndexWritten, Numbered, NodeAt;
      WriteMap();
      ghost var mapped := image;
      WriteBlock(BLKN_SUPER, Super(ninos, unused));
      ghost var start := image;
      for h := 0 to HASH_LIST_SIZE
        invariant h > 0 ==> IndexWritten(cache, image)
        invariant forall f :: 0 <= f < |inodes| && Hash64(inodes[f].host) < h ==> NodeAt(inodes[f], image)
        invariant forall n :: !(n in uses && (uses[n].IndexBlock? || uses[n].InodeBlock?)) ==> SameAt(start, image, n)
      {
        ghost var before := image;
        FlushBlocks(h);
        KeptByBlocks(inodes, cache, uses, first, nextIno, before, image);
        before := image;
        FlushInodes(h);
        KeptByInodes(inodes, cache, uses, first, nextIno, before, image);
      }
      LowNumbers(inodes, cache, uses, first, nextIno);
      forall n | BLKN_FREEMAP <= n < first ensures SameAt(mapped, image, n) {
        assert SameAt(start, image, n);
      }
      forall n | n in uses && uses[n].DataBlock? ensures SameAt(old(image), image, n) {
        assert SameAt(old(image), mapped, n) && SameAt(start, image, n);
      }
      assert SameAt(start, image, BLKN_SUPER);
      MapKept(mapped, image, first, nextIno, ninos);
      ContentsFrame(inodes, files, uses, old(image), uses, image);
    }
  }

  /** create_sfs: the number of blocks is cut to 32 bits and then to 524288; an image too small for the
      superblock, the root, the free map and one more block is refused. */
  method CreateSfs(bytes: nat) returns (sfs: Builder?)
    ensures sfs == null <==> bytes % 0x1000_0000_0000 < 4 * 4096
    ensures sfs == null <==> ImageBlocks(bytes) < 4
    ensures sfs != null ==>
              && fresh(sfs) && sfs.Valid() && sfs.ninos == ImageBlocks(bytes)
              && sfs.nextIno == BLKN_FREEMAP + MapBlocks(sfs.ninos)
              && (var m := bytes % 0x1000_0000_0000;
                  if m < 0x8000_0000 then 4096 * sfs.ninos <= m < 4096 * (sfs.ninos + 1)
                  else sfs.ninos == 524288)
              && 0x8000 * (sfs.nextIno - 3) < sfs.ninos <= 0x8000 * (sfs.nextIno - 2)
              && |sfs.inodes| == 1 && sfs.inodes[0].ino == 1 && sfs.inodes[0].inode.kind == 2
              && sfs.inodes[0].host == 0 && sfs.inodes[0].inode.nlinks == 0
              && sfs.files == [File([], [], [])] && sfs.searches == 0
  {
    hide Builder.Valid, ImageBlocks, MapBlocks;
    BlockCount(bytes);
    var ninos := ImageBlocks(bytes);
    MapCount(ninos);
    var nextIno := BLKN_FREEMAP + MapBlocks(ninos);
    if nextIno >= ninos {
      return null;
    }
    sfs := new Builder(ninos, nextIno);
    var ok, root := sfs.AllocCacheInode(0, BLKN_ROOT, TYPE_DIR);
  }

  const TYPE_FILE := 1
  const TYPE_DIR := 2

  function ImageBlocks(bytes: nat): int {
    var n := bytes / BLKSIZE % 0x1_0000_0000;
    if n > MAX_NBLKS then MAX_NBLKS else n
  }

  /** The bytes a block count leaves over are fewer than a block. */
  lemma BlockCount(bytes: nat)
    ensures var n, m := ImageBlocks(bytes), bytes % 0x1000_0000_0000;
            && 0 <= n <= 524288 && (n < 4 <==> m < 4 * 4096)
            && if m < 0x8000_0000 then 4096 * n <= m < 4096 * (n + 1) else n == 524288
  {
  }

  lemma MapCount(ninos: int)
    requires 0 <= ninos <= 524288
    ensures var n := MapBlocks(ninos);
            0x8000 * (n - 1) < ninos <= 0x8000 * n && (2 + n >= ninos <==> ninos < 4) && 0 <= n
  {
  }

  /** What read() may return before the end of a file. */
  ghost predicate Readable(input: seq<Bytes>) {
    forall i :: 0 <= i < |input| ==> 0 < |input[i]| <= BLKSIZE
  }

  ghost predicate FullButLast(chunks: seq<Bytes>) {
    forall i :: 0 <= i < |chunks| - 1 ==> |chunks[i]| == BLKSIZE
  }

  lemma AllFull(input: seq<Bytes>)
    requires forall j :: 0 <= j < |input| - 1 ==> |input[j]| == BLKSIZE
    ensures FullButLast(input)
  {
  }

  lemma ShortIsLast(input: seq<Bytes>, i: int)
    requires 0 < i < |input| && |input[i - 1]| != BLKSIZE
    ensures !FullButLast(input)
  {
  }
}
