/** The free map of an SFS image: written by close_sfs of lab8/tools/mksfs.c, counted when the kernel mounts
    it (lab8/kern/fs/sfs/sfs_fs.c). A set bit marks a free block. */
module SfsFreeMap {
  import opened SfsModel

  const BLKBITS := 32768
  const WORDS := 1024
  const BITS := 32

  /** Number of free-map blocks. */
  function MapBlocks(ninos: int): int {
    (ninos + BLKBITS - 1) / BLKBITS
  }

  ghost predicate Shaped(words: seq<seq<bool>>) {
    |words| == WORDS && forall w :: 0 <= w < WORDS ==> |words[w]| == BITS
  }

  predicate BitAt(words: seq<seq<bool>>, j: int) {
    0 <= j && j / BITS < |words| && j % BITS < |words[j / BITS]| && words[j / BITS][j % BITS]
  }

  function SetBit(words: seq<seq<bool>>, j: int): (r: seq<seq<bool>>)
    requires 0 <= j < BLKBITS && Shaped(words)
    ensures Shaped(r)
    ensures forall k :: BitAt(r, k) <==> BitAt(words, k) || k == j
  {
    var r := words[j / BITS := words[j / BITS][j % BITS := true]];
    assert forall k :: 0 <= k && k / BITS == j / BITS && k % BITS == j % BITS ==> k == j;
    r
  }

  /** The map block that starts at block number `base`: exactly the numbers from `next` up to `ninos` are
      marked free. */
  ghost predicate Marks(words: seq<seq<bool>>, base: int, next: int, ninos: int) {
    Shaped(words) && forall j :: 0 <= j < BLKBITS ==> (BitAt(words, j) <==> next <= base + j < ninos)
  }

  /** One turn of the free-map loop of close_sfs. */
  method FillMap(i: int, next: int, ninos: int) returns (words: seq<seq<bool>>)
    requires 0 <= i < ninos && 0 <= next <= ninos
    ensures Marks(words, i, next, ninos)
    ensures |words| == 1024 && forall w, b :: 0 <= w < 1024 && 0 <= b < 32 ==>
              |words[w]| == 32 && (words[w][b] <==> next <= i + 32 * w + b < ninos)
  {
    words := seq(WORDS, _ => seq(BITS, _ => false));
    assert forall k :: !BitAt(words, k);
    if i + BLKBITS > next {
      var start, end := 0, BLKBITS;
      if i < next {
        start := next - i;
      }
      if i + BLKBITS > ninos {
        end := ninos - i;
      }
      var j := start;
      while j < end
        invariant start <= j && (start <= end ==> j <= end) && Shaped(words)
        invariant forall k :: BitAt(words, k) <==> start <= k < j
      {
        words := SetBit(words, j);
        j := j + 1;
      }
    }
    forall w, b | 0 <= w < 1024 && 0 <= b < 32 ensures words[w][b] <==> next <= i + 32 * w + b < ninos {
      assert (32 * w + b) / BITS == w && (32 * w + b) % BITS == b;
      assert BitAt(words, 32 * w + b) <==> next <= i + (32 * w + b) < ninos;
    }
  }

  /** bitmap_test on the free map as loaded from the image. */
  predicate TestBit(image: Image, k: nat) {
    var ino := BLKN_FREEMAP + k / BLKBITS;
    ino in image && image[ino].FreeMap? && BitAt(image[ino].words, k % BLKBITS)
  }

  ghost predicate MapAt(image: Image, b: int, next: int, ninos: int) {
    && BLKN_FREEMAP + b in image && image[BLKN_FREEMAP + b].FreeMap?
    && Marks(image[BLKN_FREEMAP + b].words, BLKBITS * b, next, ninos)
  }

  ghost predicate MapWritten(image: Image, next: int, ninos: int) {
    forall b :: 0 <= b < MapBlocks(ninos) ==> MapAt(image, b, next, ninos)
  }

  lemma TestBitWritten(image: Image, next: int, ninos: int, k: nat)
    requires MapWritten(image, next, ninos) && k < BLKBITS * MapBlocks(ninos)
    ensures TestBit(image, k) <==> next <= k < ninos
  {
    var b, j := k / BLKBITS, k % BLKBITS;
    assert k == BLKBITS * b + j && 0 <= b < MapBlocks(ninos);
    assert MapAt(image, b, next, ninos);
  }

  /** The check at mount time: counting the set bits of the whole map. */
  method CountFree(image: Image, ghost next: int, ninos: int) returns (unused: int)
    requires MapWritten(image, next, ninos) && 0 <= next <= ninos
    ensures unused == ninos - next
  {
    unused := 0;
    var nbits := BLKBITS * MapBlocks(ninos);
    for i := 0 to nbits
      invariant unused == if i <= next then 0 else if i <= ninos then i - next else ninos - next
    {
      TestBitWritten(image, next, ninos, i);
      if TestBit(image, i) {
        unused := unused + 1;
      }
    }
  }
}
