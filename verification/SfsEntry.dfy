/**
 Directory entries: add_entry of lab8/tools/mksfs.c writes them, sfs_dirent_read_nolock of
 lab8/kern/fs/sfs/sfs_inode.c reads them. The writer passes the size of the name field, 256, as the
 length of the whole 260-byte record.
 */
module SfsEntry {
  import opened ByteSeq
  import opened SfsModel

  const NAME_SIZE := 256
  const INO_SIZE := 4

  function Le32(x: int): (b: Bytes)
    requires 0 <= x < 0x1_0000_0000
    ensures |b| == INO_SIZE
  {
    var x1 := x / 256;
    var x2 := x1 / 256;
    [(x % 256) as byte, (x1 % 256) as byte, (x2 % 256) as byte, (x2 / 256) as byte]
  }

  /** strcpy into the static name buffer: bytes after the terminator are left from earlier names. */
  function Strcpy(buffer: Bytes, name: Bytes): (r: Bytes)
    requires |buffer| == NAME_SIZE && |name| < NAME_SIZE
    ensures |r| == NAME_SIZE
  {
    name + [0] + buffer[|name| + 1..]
  }

  /** The bytes add_entry writes: the first 256 of the record. */
  function EntryBytes(ino: int, buffer: Bytes): (r: Bytes)
    requires 0 <= ino < 0x1_0000_0000 && |buffer| == NAME_SIZE
    ensures |r| == 256 && r[4..] == buffer[..252]
    ensures ino == r[0] as int + 0x100 * r[1] as int + 0x1_0000 * r[2] as int + 0x100_0000 * r[3] as int
  {
    (Le32(ino) + buffer)[..NAME_SIZE]
  }

  /** The kernel reads the whole record and ends the name at its last byte. */
  function ReadName(block: Bytes): Bytes
    requires |block| == BLKSIZE
  {
    CString(block[INO_SIZE..INO_SIZE + NAME_SIZE][NAME_SIZE - 1 := 0])
  }

  function ReadIno(block: Bytes): int
    requires |block| == BLKSIZE
  {
    LoadLe32(block, 0)
  }

  /** What is left of a name in the image. */
  function Cut(name: Bytes): Bytes {
    if |name| <= NAME_SIZE - INO_SIZE then name else name[..NAME_SIZE - INO_SIZE]
  }

  lemma Le32RoundTrip(x: int, b: Bytes)
    requires 0 <= x < 0x1_0000_0000 && |b| >= INO_SIZE && forall i :: 0 <= i < INO_SIZE ==> b[i] == Le32(x)[i]
    ensures LoadLe32(b, 0) == x
  {
  }

  lemma NameBytes(buffer: Bytes, name: Bytes)
    requires |buffer| == NAME_SIZE && |name| < NAME_SIZE
    ensures var r := Strcpy(buffer, name); r[|name|] == 0 && forall i :: 0 <= i < |name| ==> r[i] == name[i]
  {
  }

  lemma BlockBytes(ino: int, record: Bytes)
    requires 0 <= ino < 0x1_0000_0000 && |record| == NAME_SIZE
    ensures var block := Padded(EntryBytes(ino, record));
            && (forall i :: 0 <= i < INO_SIZE ==> block[i] == Le32(ino)[i])
            && (forall i :: INO_SIZE <= i < NAME_SIZE ==> block[i] == record[i - INO_SIZE])
            && (forall i :: NAME_SIZE <= i < BLKSIZE ==> block[i] == 0)
  {
    hide Le32;
  }

  /** The kernel always finds the inode number; it finds the name exactly if that has at most 252 bytes,
      and otherwise its first 252 bytes. */
  lemma EntryRoundTrip(ino: int, name: Bytes, buffer: Bytes)
    requires 0 <= ino < 0x1_0000_0000 && |buffer| == NAME_SIZE && |name| < NAME_SIZE && 0 !in name
    ensures var block := Padded(EntryBytes(ino, Strcpy(buffer, name)));
            && ReadIno(block) == ino
            && ReadName(block) == Cut(name)
            && (ReadName(block) == name <==> |name| <= NAME_SIZE - INO_SIZE)
  {
    hide Le32, LoadLe32, CString, Strcpy, EntryBytes, Padded;
    var record := Strcpy(buffer, name);
    var block := Padded(EntryBytes(ino, record));
    BlockBytes(ino, record);
    NameBytes(buffer, name);
    Le32RoundTrip(ino, block);
    NameField(block, record, name);
    var field := block[INO_SIZE..INO_SIZE + NAME_SIZE][NAME_SIZE - 1 := 0];
    CStringPrefix(field, |Cut(name)|);
  }

  /** The name field the kernel looks at begins with what is left of the name, and a NUL. */
  lemma NameField(block: Bytes, record: Bytes, name: Bytes)
    requires |block| == BLKSIZE && |record| == NAME_SIZE && |name| < NAME_SIZE && 0 !in name
    requires record[|name|] == 0 && forall i :: 0 <= i < |name| ==> record[i] == name[i]
    requires forall i :: INO_SIZE <= i < NAME_SIZE ==> block[i] == record[i - INO_SIZE]
    requires forall i :: NAME_SIZE <= i < BLKSIZE ==> block[i] == 0
    ensures var field, n := block[INO_SIZE..INO_SIZE + NAME_SIZE][NAME_SIZE - 1 := 0], |Cut(name)|;
            && n < |field| && field[n] == 0 && field[..n] == Cut(name) && forall i :: 0 <= i < n ==> field[i] != 0
  {
    var field, n := block[INO_SIZE..INO_SIZE + NAME_SIZE][NAME_SIZE - 1 := 0], |Cut(name)|;
    forall i | 0 <= i < n ensures field[i] == name[i] && field[i] != 0 {
      assert field[i] == block[INO_SIZE + i] == record[i];
      assert name[i] in name;
    }
    assert field[n] == block[INO_SIZE + n];
  }
}
