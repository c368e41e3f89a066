/** The image builder and the kernel together: building an image from a directory of files and reading them. */
module SfsTool {
  import opened ByteSeq
  import opened Sequences
  import opened SfsModel
  import opened SfsEntry
  import opened SfsFreeMap
  import opened Sfs
  import opened SfsKernel

  /** A regular file of the directory: its host inode number, what successive reads return, its name. */
  datatype Source = Source(host: int, input: seq<Bytes>, name: Bytes)

  ghost predicate Seen(sources: seq<Source>, k: int)
    requires 0 <= k < |sources|
  {
    exists j :: 0 <= j < k && sources[j].host == sources[k].host
  }

  /** The blocks taken once the dots and `k` sources are in. */
  ghost function Used(sources: seq<Source>, k: nat): int
    requires k <= |sources|
  {
    if k == 0 then 2
    else Used(sources, k - 1) + FileCost(!Seen(sources, k - 1), |sources[k - 1].input|)
         + 1 + IndexBlocks(k + 2) - IndexBlocks(k + 1)
  }

  /** The first `k` sources can be added, starting from block `first` of `ninos`. */
  ghost predicate Room(sources: seq<Source>, k: nat, first: int, ninos: int)
    requires k <= |sources|
  {
    && first + Used(sources, k) <= ninos
    && (k > 0 ==>
          && Room(sources, k - 1, first, ninos) && k + 1 < LN_NBLKS
          && |sources[k - 1].name| < NAME_SIZE
          && (!Seen(sources, k - 1) ==> FullButLast(sources[k - 1].input) && |sources[k - 1].input| <= LN_NBLKS))
  }

  lemma {:induction false} RoomBefore(sources: seq<Source>, j: nat, k: nat, first: int, ninos: int)
    requires j <= k <= |sources| && Room(sources, k, first, ninos)
    ensures Room(sources, j, first, ninos)
    decreases k
  {
    if j < k {
      RoomBefore(sources, j, k - 1, first, ninos);
    }
  }

  ghost predicate SourceOk(s: Source) {
    s.host != 0 && Readable(s.input) && 0 !in s.name
  }

  const DOT: byte := 46

  /** open_dir skips names that begin with a dot. */
  predicate Hidden(s: Source) {
    |s.name| > 0 && s.name[0] == DOT
  }

  function Shown(listing: seq<Source>): seq<Source> {
    if listing == [] then []
    else
      var front, last := Shown(listing[..|listing| - 1]), listing[|listing| - 1];
      if Hidden(last) then front else front + [last]
  }

  /** What is shown of a listing is what does not begin with a dot. */
  lemma {:induction false} ShownVisible(listing: seq<Source>)
    ensures forall s :: s in Shown(listing) <==> s in listing && !Hidden(s)
    ensures forall s :: s in Shown(listing) <==> s in listing && !(|s.name| > 0 && s.name[0] == 46)
  {
    if listing != [] {
      ShownVisible(listing[..|listing| - 1]);
      assert listing == listing[..|listing| - 1] + [listing[|listing| - 1]];
    }
  }

  /** It keeps the order of the listing. */
  lemma {:induction false} ShownConcat(a: seq<Source>, b: seq<Source>)
    ensures Shown(a + b) == Shown(a) + Shown(b)
    decreases |b|
  {
    if b == [] {
      assert a + b == a;
    } else {
      var front := b[..|b| - 1];
      assert (a + b)[..|a + b| - 1] == a + front;
      ShownConcat(a, front);
    }
  }

  lemma {:induction false} ShownPrefix(listing: seq<Source>, i: nat)
    requires i <= |listing|
    ensures |Shown(listing[..i])| <= |Shown(listing)| && Shown(listing)[..|Shown(listing[..i])|] == Shown(listing[..i])
    decreases |listing|
  {
    if i < |listing| {
      var front := listing[..|listing| - 1];
      assert front[..i] == listing[..i];
      ShownPrefix(front, i);
    } else {
      assert listing[..i] == listing;
    }
  }

  lemma ShownStep(listing: seq<Source>, i: nat)
    requires i < |listing|
    ensures Shown(listing[..i + 1]) ==
            if Hidden(listing[i]) then Shown(listing[..i]) else Shown(listing[..i]) + [listing[i]]
    ensures !Hidden(listing[i]) ==> |Shown(listing[..i])| < |Shown(listing)|
                                    && Shown(listing)[|Shown(listing[..i])|] == listing[i]
  {
    assert listing[..i + 1][..i] == listing[..i];
    ShownPrefix(listing, i + 1);
    var k := |Shown(listing[..i])|;
    if !Hidden(listing[i]) {
      assert Shown(listing)[..k + 1][k] == listing[i];
    }
  }

  /** Inode `f` stands for source `k`: it was filled from the first source with that host inode, and other
      names of the same host inode share it. */
  ghost predicate StandsFor(inodes: seq<CacheInode>, files: seq<File>, sources: seq<Source>, k: int, f: int)
    requires 0 <= k < |sources|
  {
    && 0 < f < |inodes| == |files| && inodes[f].host == sources[k].host
    && FullButLast(files[f].chunks)
    && exists j :: 0 <= j <= k && sources[j].host == sources[k].host && files[f].chunks == sources[j].input
                   && !Seen(sources, j)
  }

  /** How many of the first `k` sources have a host inode. */
  ghost function Links(sources: seq<Source>, k: nat, host: int): nat
    requires k <= |sources|
  {
    |set j | 0 <= j < k && sources[j].host == host|
  }

  lemma LinksStep(sources: seq<Source>, k: nat, host: int)
    requires k < |sources|
    ensures Links(sources, k + 1, host) == Links(sources, k, host) + if sources[k].host == host then 1 else 0
    ensures !Seen(sources, k) ==> Links(sources, k, sources[k].host) == 0
  {
    var less := set j | 0 <= j < k && sources[j].host == host;
    assert (set j | 0 <= j < k + 1 && sources[j].host == host)
        == if sources[k].host == host then less + {k} else less;
    if !Seen(sources, k) {
      assert (set j | 0 <= j < k && sources[j].host == sources[k].host) == {};
    }
  }

  /** A regular file with as many links as names, counted in 16 bits. */
  ghost predicate Counted(ci: CacheInode, sources: seq<Source>, k: nat)
    requires k <= |sources|
  {
    ci.inode.kind == 1 && ci.inode.nlinks == Links(sources, k, ci.host) % 0x1_0000
  }

  ghost predicate CameFrom(inodes: seq<CacheInode>, files: seq<File>, sources: seq<Source>, k: int, f: int)
    requires 0 <= k <= |sources| && 0 <= f < |inodes| == |files|
  {
    && FullButLast(files[f].chunks)
    && Counted(inodes[f], sources, k)
    && exists j :: 0 <= j < k && sources[j].host == inodes[f].host && files[f].chunks == sources[j].input
                   && !Seen(sources, j)
  }

  /** The first inode is the root; every other one came from a source before `k`, each from another host inode. */
  ghost predicate Filled(inodes: seq<CacheInode>, files: seq<File>, sources: seq<Source>, k: int)
    requires 0 <= k <= |sources|
  {
    && 0 < |inodes| == |files| && inodes[0].host == 0 && inodes[0].inode.nlinks == 2
    && (forall f :: 0 < f < |inodes| ==> CameFrom(inodes, files, sources, k, f))
    && forall f, g :: 0 < f < g < |inodes| ==> inodes[f].host != inodes[g].host
  }

  /** Block `i` of the root directory, as the kernel reads it, names inode block `ino` by what is left of `name`. */
  ghost predicate Listed(chunks: seq<Bytes>, i: int, ino: int, name: Bytes) {
    && 0 <= i < |chunks| && |chunks[i]| <= BLKSIZE
    && ReadIno(Padded(chunks[i])) == ino && ReadName(Padded(chunks[i])) == Cut(name)
  }

  /** The root directory after `k` sources: the two dots, then one block for each source, in order. */
  ghost predicate Directory(inodes: seq<CacheInode>, files: seq<File>, sources: seq<Source>, k: int, at: seq<int>)
    requires 0 <= k <= |sources| && k == |at|
  {
    && 0 < |inodes| == |files| && inodes[0].ino == 1 && inodes[0].inode.kind == 2
    && |files[0].chunks| == k + 2
    && Listed(files[0].chunks, 0, 1, [46]) && Listed(files[0].chunks, 1, 1, [46, 46])
    && (forall i :: 0 <= i < k ==> 0 <= at[i] < |inodes| && 0 < inodes[at[i]].ino)
    && (forall i :: 0 <= i < k ==> Listed(files[0].chunks, 2 + i, inodes[at[i]].ino, sources[i].name))
  }

  /** Every source has its inode and its entry. */
  ghost predicate Complete(inodes: seq<CacheInode>, files: seq<File>, sources: seq<Source>, k: int, at: seq<int>) {
    && 0 <= k <= |sources| && k == |at|
    && Filled(inodes, files, sources, k) && Directory(inodes, files, sources, k, at)
    && (forall i :: 0 <= i < k ==> StandsFor(inodes, files, sources, i, at[i]))
  }

  /** What adding a file to the root does: an inode for its host number, new or not, and one more entry. */
  ghost predicate Grown(inodes: seq<CacheInode>, files: seq<File>, inodes': seq<CacheInode>, files': seq<File>,
                        s: Source, f: int) {
    && 0 < |inodes| == |files| && |inodes'| == |files'| && 0 <= f <= |inodes|
    && |inodes'| == (if f < |inodes| then |inodes| else f + 1)
    && inodes'[f].host == s.host && 0 < inodes'[f].ino && (f < |inodes| <==> Known(inodes, s.host))
    && (f < |inodes| ==> inodes'[f].inode.nlinks == (inodes[f].inode.nlinks + 1) % 0x1_0000)
    && (f >= |inodes| ==> inodes'[f].inode.kind == 1 && inodes'[f].inode.nlinks == 1)
    && (forall g :: 0 <= g < |inodes| && g != f ==> inodes'[g].inode.nlinks == inodes[g].inode.nlinks)
    && SameIdentity(inodes, inodes'[..|inodes|])
    && (f >= |inodes| ==> files'[f].chunks == s.input && FullButLast(s.input))
    && (forall g :: 0 < g < |files| ==> files'[g] == files[g])
    && |files'[0].chunks| == |files[0].chunks| + 1 && files'[0].chunks[..|files[0].chunks|] == files[0].chunks
    && Listed(files'[0].chunks, |files[0].chunks|, inodes'[f].ino, s.name)
  }

  lemma CompleteStep(inodes: seq<CacheInode>, files: seq<File>, inodes': seq<CacheInode>, files': seq<File>,
                     sources: seq<Source>, k: int, at: seq<int>, f: int)
    requires Complete(inodes, files, sources, k, at) && k < |sources| && sources[k].host != 0
    requires Grown(inodes, files, inodes', files', sources[k], f)
    ensures Complete(inodes', files', sources, k + 1, at + [f])
  {
    hide Listed, FullButLast, StandsFor, Filled, Directory, Grown;
    KnownIsSeen(inodes, files, sources, k, at);
    FilledStep(inodes, files, inodes', files', sources, k, f);
    DirectoryStep(inodes, files, inodes', files', sources, k, at, f);
    forall i | 0 <= i < k ensures StandsFor(inodes', files', sources, i, at[i]) {
      StandsKept(inodes, files, inodes', files', sources, k, f, i, at[i]);
    }
  }

  lemma FilledStep(inodes: seq<CacheInode>, files: seq<File>, inodes': seq<CacheInode>, files': seq<File>,
                   sources: seq<Source>, k: int, f: int)
    requires 0 <= k < |sources| && sources[k].host != 0
    requires Filled(inodes, files, sources, k) && Grown(inodes, files, inodes', files', sources[k], f)
    requires Known(inodes, sources[k].host) <==> Seen(sources, k)
    ensures Filled(inodes', files', sources, k + 1) && StandsFor(inodes', files', sources, k, f)
  {
    hide Listed, FullButLast, Links, Seen;
    var k' := k + 1;
    forall g | 0 < g < |inodes'| ensures CameFrom(inodes', files', sources, k', g) {
      LinksStep(sources, k, inodes'[g].host);
      if g < |inodes| {
        assert CameFrom(inodes, files, sources, k, g);
        assert g == f || inodes[g].host != inodes'[f].host;
      } else {
        assert sources[k].host == inodes'[g].host;
      }
    }
    assert CameFrom(inodes', files', sources, k', f);
  }

  lemma StandsKept(inodes: seq<CacheInode>, files: seq<File>, inodes': seq<CacheInode>, files': seq<File>,
                   sources: seq<Source>, k: int, f: int, i: int, g: int)
    requires 0 <= i < k < |sources| && StandsFor(inodes, files, sources, i, g)
    requires Grown(inodes, files, inodes', files', sources[k], f)
    ensures StandsFor(inodes', files', sources, i, g)
  {
    hide Listed, FullButLast;
  }

  lemma DirectoryStep(inodes: seq<CacheInode>, files: seq<File>, inodes': seq<CacheInode>, files': seq<File>,
                      sources: seq<Source>, k: int, at: seq<int>, f: int)
    requires 0 <= k < |sources| && |at| == k
    requires Directory(inodes, files, sources, k, at) && Grown(inodes, files, inodes', files', sources[k], f)
    ensures Directory(inodes', files', sources, k + 1, at + [f])
  {
    hide Listed, FullButLast;
    ListedMore(files[0].chunks, files'[0].chunks);
  }

  lemma ListedMore(a: seq<Bytes>, b: seq<Bytes>)
    requires |a| <= |b| && b[..|a|] == a
    ensures forall i, ino, name :: Listed(a, i, ino, name) ==> Listed(b, i, ino, name)
  {
    assert forall i :: 0 <= i < |a| ==> a[i] == b[i];
  }

  /** create_img for a directory of regular files: create, add ".", ".." and the files that are not hidden, close. */
  method CreateImg(bytes: nat, listing: seq<Source>) returns (sfs: Builder?, at: seq<int>)
    requires forall k :: 0 <= k < |listing| ==> SourceOk(listing[k])
    ensures sfs != null <==>
              var n, sources := ImageBlocks(bytes), Shown(listing);
              n >= 4 && Room(sources, |sources|, BLKN_FREEMAP + MapBlocks(n), n)
    ensures sfs != null ==>
              && sfs.Valid() && sfs.Written() && sfs.searches == 0
              && Complete(sfs.inodes, sfs.files, Shown(listing), |Shown(listing)|, at)
  {
    hide Builder.Valid, Builder.Written, Complete, SourceOk, Shown, Room, ImageBlocks, MapBlocks;
    at := [];
    sfs := CreateSfs(bytes);
    if sfs == null {
      return;
    }
    var ok;
    ok, at := OpenDir(sfs, listing);
    if !ok {
      return null, [];
    }
    sfs.CloseSfs();
  }

  /** open_dir on the root. */
  method OpenDir(b: Builder, listing: seq<Source>) returns (ok: bool, at: seq<int>)
    requires forall k :: 0 <= k < |listing| ==> SourceOk(listing[k])
    requires b.Valid() && |b.inodes| == 1 && b.inodes[0].host == 0 && b.inodes[0].ino == BLKN_ROOT && b.searches == 0
    requires |b.files| == 1 && b.files[0].chunks == [] && b.inodes[0].inode.kind == TYPE_DIR
    requires b.inodes[0].inode.nlinks == 0
    modifies b
    ensures ok <==> Room(Shown(listing), |Shown(listing)|, old(b.nextIno), b.ninos)
    ensures ok ==> b.Valid() && b.searches == 0 && Complete(b.inodes, b.files, Shown(listing), |Shown(listing)|, at)
  {
    hide Builder.Valid, Complete, SourceOk, Room, Used, Shown, Hidden;
    at := [];
    ghost var first, sources := b.nextIno, Shown(listing);
    RoomAtStart(sources, first, b.ninos);
    ok := AddDots(b, sources);
    if !ok {
      if Room(sources, |sources|, first, b.ninos) {
        RoomBefore(sources, 0, |sources|, first, b.ninos);
      }
      return;
    }
    ShownNothing(listing);
    ghost var k := 0;
    for i := 0 to |listing|
      invariant k == |Shown(listing[..i])| <= |sources|
      invariant b.Valid() && b.searches == 0 && Complete(b.inodes, b.files, sources, k, at)
      invariant Room(sources, k, first, b.ninos) && b.nextIno == first + Used(sources, k)
    {
      ShownStep(listing, i);
      if !Hidden(listing[i]) {
        var f;
        ok, f := AddSource(b, listing[i], sources, k, at, first);
        if !ok {
          if Room(sources, |sources|, first, b.ninos) {
            RoomBefore(sources, k + 1, |sources|, first, b.ninos);
          }
          return;
        }
        at := at + [f];
        k := k + 1;
      }
    }
    assert listing[..|listing|] == listing;
    ok := true;
  }

  lemma ShownNothing(listing: seq<Source>)
    ensures Shown(listing[..0]) == []
  {
  }

  lemma RoomAtStart(sources: seq<Source>, first: int, ninos: int)
    ensures Used(sources, 0) == 2 && (Room(sources, 0, first, ninos) <==> first + 2 <= ninos)
  {
  }

  method AddDots(b: Builder, ghost sources: seq<Source>) returns (ok: bool)
    requires b.Valid() && |b.inodes| == 1 && b.inodes[0].host == 0 && b.inodes[0].ino == BLKN_ROOT && b.searches == 0
    requires |b.files| == 1 && b.files[0].chunks == [] && b.inodes[0].inode.kind == TYPE_DIR
    requires b.inodes[0].inode.nlinks == 0
    modifies b
    ensures ok <==> old(b.nextIno) + 2 <= b.ninos
    ensures ok ==> b.Valid() && b.searches == 0 && Complete(b.inodes, b.files, sources, 0, [])
                   && b.nextIno == old(b.nextIno) + 2
  {
    hide Builder.Valid, ReadIno, ReadName, Padded, EntryBytes, Strcpy;
    var one, two: Bytes := [DOT], [DOT, DOT];
    FileSize(b, 0);
    ghost var buffer := b.entryName;
    ok := b.AddEntry(0, 0, one);
    if !ok {
      return;
    }
    FileSize(b, 0);
    EntryRoundTrip(BLKN_ROOT, one, buffer);
    buffer := b.entryName;
    ok := b.AddEntry(0, 0, two);
    if !ok {
      return;
    }
    EntryRoundTrip(BLKN_ROOT, two, buffer);
  }

  /** One regular file of the directory; a name that is too long ends the program. */
  method AddSource(b: Builder, s: Source, ghost sources: seq<Source>, ghost k: int, ghost at: seq<int>,
                   ghost first: int)
    returns (ok: bool, f: int)
    requires b.Valid() && b.searches == 0 && 0 <= k < |sources| && sources[k] == s && SourceOk(s)
    requires Complete(b.inodes, b.files, sources, k, at)
    requires Room(sources, k, first, b.ninos) && b.nextIno == first + Used(sources, k)
    modifies b
    ensures ok <==> Room(sources, k + 1, first, b.ninos)
    ensures ok ==> b.Valid() && b.searches == 0 && Complete(b.inodes, b.files, sources, k + 1, at + [f])
    ensures ok ==> b.nextIno == first + Used(sources, k + 1)
  {
    hide Builder.Valid, FullButLast, ReadIno, ReadName, Padded, EntryBytes, Strcpy, Cut, Complete, Readable;
    ghost var inodes, files, buffer := b.inodes, b.files, b.entryName;
    HasRoot(inodes, files, sources, k, at);
    FileSize(b, 0);
    KnownIsSeen(inodes, files, sources, k, at);
    if |s.name| >= NAME_SIZE {
      return false, 0;
    }
    ok, f := b.AddFile(0, s.host, s.input, s.name);
    if !ok {
      return;
    }
    EntryRoundTrip(b.inodes[f].ino, s.name, buffer);
    CompleteStep(inodes, files, b.inodes, b.files, sources, k, at, f);
  }

  lemma HasRoot(inodes: seq<CacheInode>, files: seq<File>, sources: seq<Source>, k: int, at: seq<int>)
    requires Complete(inodes, files, sources, k, at)
    ensures 0 < |inodes| == |files| && |files[0].chunks| == k + 2 && inodes[0].inode.kind == TYPE_DIR
  {
  }

  lemma KnownIsSeen(inodes: seq<CacheInode>, files: seq<File>, sources: seq<Source>, k: int, at: seq<int>)
    requires Complete(inodes, files, sources, k, at) && k < |sources| && sources[k].host != 0
    ensures Known(inodes, sources[k].host) <==> Seen(sources, k)
  {
    hide Directory;
    if Known(inodes, sources[k].host) {
      var g :| 0 <= g < |inodes| && inodes[g].host == sources[k].host;
      assert CameFrom(inodes, files, sources, k, g);
    }
    if Seen(sources, k) {
      var j :| 0 <= j < k && sources[j].host == sources[k].host;
      assert StandsFor(inodes, files, sources, j, at[j]);
    }
  }

  ghost predicate Reaches(b: Builder, f: int, i: nat)
    requires 0 <= f < |b.inodes|
    reads b
  {
    i < b.inodes[f].inode.blocks ==> BmapLoad(b.image, b.ninos, b.inodes[f].inode, i).Block?
  }

  /** The kernel can reach every block of a source's file exactly if there are at most 1036 of them; what it can reach
      are the bytes that went in. */
  lemma SourceReadBack(b: Builder, sources: seq<Source>, k: int, f: int)
    requires b.Valid() && b.Written() && 0 <= k < |sources| && StandsFor(b.inodes, b.files, sources, k, f)
    ensures (forall i: nat :: Reaches(b, f, i)) <==> b.inodes[f].nblks <= L1_NBLKS
    ensures exists j :: 0 <= j <= k && sources[j].host == sources[k].host && !Seen(sources, j)
                        && Layout(b.image, b.ninos, b.inodes[f].inode, Flatten(sources[j].input))
  {
    hide Builder.Valid, Builder.Written, FullButLast, Flatten, BmapLoad;
    FileSize(b, f);
    forall i: nat | i < b.inodes[f].nblks
      ensures Reaches(b, f, i) <==> i < L1_NBLKS
    {
      KernelResolves(b, f, i);
    }
    FileLaidOut(b, f);
    if b.inodes[f].nblks > L1_NBLKS {
      assert !Reaches(b, f, L1_NBLKS);
    }
  }

  /** A read of a source's file from the image: it is no directory, and the bytes are those of the first source with the
      same host inode, as far as the kernel can reach. */
  method ReadSource(b: Builder, sources: seq<Source>, at: seq<int>, k: int, offset: int, len: nat)
    returns (r: Outcome, ghost j: int)
    requires b.Valid() && b.Written() && Complete(b.inodes, b.files, sources, |sources|, at) && 0 <= k < |sources|
    requires -TWO63 <= offset < TWO63 && len < 2 * TWO63
    ensures 0 <= j <= k && sources[j].host == sources[k].host && !Seen(sources, j)
    ensures r == Invalid <==> offset < 0 || offset >= 134217728 || offset + len >= 0x8000_0000_0000_0000
    ensures var content := Flatten(sources[j].input);
            r == Panicked <==> 0 <= offset < 134217728 && offset + len < 0x8000_0000_0000_0000
                               && offset < |content| && len > 0 && |content| > 4243456 && offset + len > 4243456
    ensures r.Done? ==>
              var content := Flatten(sources[j].input);
              var end := offset + |r.data|;
              && |r.data| <= len && (|r.data| > 0 ==> end <= |content| && r.data == content[offset..end])
              && (|r.data| < len ==> end >= |content| || end == 134217728)
  {
    hide Builder.Valid, Builder.Written, FullButLast, Flatten, Layout, Directory, Links;
    var f := at[k];
    assert StandsFor(b.inodes, b.files, sources, k, f);
    assert CameFrom(b.inodes, b.files, sources, |sources|, f);
    SourceReadBack(b, sources, k, f);
    j :| 0 <= j <= k && sources[j].host == sources[k].host && !Seen(sources, j)
         && Layout(b.image, b.ninos, b.inodes[f].inode, Flatten(sources[j].input));
    r := IoRead(b.image, b.ninos, b.inodes[f].inode, offset, len, Flatten(sources[j].input));
  }

  /** The first source from `i` on of whose name `name` is left, or their number. */
  ghost function FirstNamed(sources: seq<Source>, name: Bytes, i: nat): (j: nat)
    requires i <= |sources|
    ensures i <= j <= |sources| && (j < |sources| ==> Cut(sources[j].name) == name)
    ensures forall k :: i <= k < j ==> Cut(sources[k].name) != name
    decreases |sources| - i
  {
    if i == |sources| || Cut(sources[i].name) == name then i else FirstNamed(sources, name, i + 1)
  }

  /** What a lookup in the root directory should find. */
  ghost function Answer(inodes: seq<CacheInode>, sources: seq<Source>, at: seq<int>, name: Bytes): Option<int>
    requires |at| == |sources| && forall i :: 0 <= i < |at| ==> 0 <= at[i] < |inodes|
  {
    var j := FirstNamed(sources, name, 0);
    if name == [DOT] || name == [DOT, DOT] then Some(BLKN_ROOT)
    else if j < |sources| then Some(inodes[at[j]].ino)
    else None
  }

  /** The kernel's lookup of any name in a built root directory within its reach: the root for the two dots, otherwise
      the inode of the first source of whose name that is left. */
  method Find(b: Builder, listing: seq<Source>, at: seq<int>, name: Bytes) returns (r: Option<int>)
    requires b.Valid() && b.Written() && |at| == |Shown(listing)|
    requires Directory(b.inodes, b.files, Shown(listing), |Shown(listing)|, at) && b.inodes[0].nblks <= L1_NBLKS
    ensures r == Answer(b.inodes, Shown(listing), at, name)
  {
    hide Builder.Valid, Builder.Written, ReadIno, ReadName, Padded, Cut, BmapLoad, DirLayout, Shown, Hidden;
    DirLaidOut(b, 0);
    ghost var sources, chunks := Shown(listing), b.files[0].chunks;
    ghost var entries := Blocks(chunks);
    ShownVisible(listing);
    forall i | 0 <= i < |entries|
      ensures Matches(entries[i], name) <==>
              if i == 0 then name == [DOT] else if i == 1 then name == [DOT, DOT] else Cut(sources[i - 2].name) == name
      ensures ReadIno(entries[i]) == if i < 2 then BLKN_ROOT else b.inodes[at[i - 2]].ino
      ensures i >= 2 ==> Cut(sources[i - 2].name) != [DOT] && Cut(sources[i - 2].name) != [DOT, DOT]
    {
      if i >= 2 {
        assert Listed(chunks, 2 + (i - 2), b.inodes[at[i - 2]].ino, sources[i - 2].name);
        assert sources[i - 2] in sources;
        DotNames(sources[i - 2]);
      } else {
        DotNames(Source(0, [], []));
      }
    }
    var slot, empty;
    r, slot, empty := DirentSearch(b.image, b.ninos, b.inodes[0].inode, name, entries);
    ghost var j := FirstNamed(sources, name, 0);
    if j < |sources| {
      assert Matches(entries[2 + j], name);
    }
    if slot >= 2 {
      SlotIsFirst(sources, name, slot - 2);
    }
  }

  lemma SlotIsFirst(sources: seq<Source>, name: Bytes, j: nat)
    requires j <= |sources| && (j < |sources| ==> Cut(sources[j].name) == name)
    requires forall k :: 0 <= k < j ==> Cut(sources[k].name) != name
    ensures FirstNamed(sources, name, 0) == j
  {
    hide Cut;
    var f := FirstNamed(sources, name, 0);
  }

  /** A source is found by its full name exactly if that has at most 252 bytes and the first entry with it names the
      same inode. */
  method FindSource(b: Builder, listing: seq<Source>, at: seq<int>, k: int) returns (r: Option<int>)
    requires b.Valid() && b.Written() && |at| == |Shown(listing)|
    requires Directory(b.inodes, b.files, Shown(listing), |Shown(listing)|, at) && b.inodes[0].nblks <= L1_NBLKS
    requires 0 <= k < |Shown(listing)|
    ensures var sources := Shown(listing);
            var name, j := sources[k].name, FirstNamed(sources, sources[k].name, 0);
            r == Some(b.inodes[at[k]].ino) <==>
              |name| <= NAME_SIZE - INO_SIZE && j < |sources| && b.inodes[at[j]].ino == b.inodes[at[k]].ino
  {
    hide Builder.Valid, Builder.Written, Listed, Shown, Hidden, FirstNamed;
    var sources := Shown(listing);
    ShownVisible(listing);
    assert sources[k] in sources;
    DotNames(sources[k]);
    NotDots(sources[k]);
    r := Find(b, listing, at, sources[k].name);
    NameLeft(sources, sources[k].name);
  }

  lemma NotDots(s: Source)
    requires !Hidden(s)
    ensures s.name != [DOT] && s.name != [DOT, DOT]
  {
  }

  /** What is left of a name is never longer than 252 bytes. */
  lemma NameLeft(sources: seq<Source>, name: Bytes)
    ensures FirstNamed(sources, name, 0) < |sources| ==> |name| <= NAME_SIZE - INO_SIZE
  {
  }

  lemma DotNames(s: Source)
    ensures Cut([DOT]) == [DOT] && Cut([DOT, DOT]) == [DOT, DOT]
    ensures !Hidden(s) ==> Cut(s.name) != [DOT] && Cut(s.name) != [DOT, DOT]
  {
    assert |s.name| > 0 ==> |Cut(s.name)| > 0 && Cut(s.name)[0] == s.name[0];
  }
}
