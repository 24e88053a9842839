/**
  The on-disk structures of PAFS (include/pafs.h): superblock, inode and
  directory entry, each with the bytes it occupies in a 512-byte sector.
 */
module PafsLayout {
  import opened Words

  const MAGIC: u32 := 0xAF5
  const MAX_INODES := 128
  const TOTAL_BLOCKS := 4096

  const LBA_SUPERBLOCK := 0
  const LBA_INODES_START := 1
  const LBA_BITMAP := 17
  const LBA_DATA_START := 18

  const TYPE_FREE: u32 := 0
  const TYPE_FILE: u32 := 1
  const TYPE_DIR: u32 := 2

  /** Directory entries in one block. */
  const PER_BLOCK := 16

  type Sector = s: seq<byte> | |s| == 512 witness ZeroBytes(512)
  type NameField = s: seq<byte> | |s| == 28 witness ZeroBytes(28)
  type BlockTable = b: seq<u32> | |b| == 14 witness NoBlocks()

  datatype Superblock = Superblock(
    magic: u32, totalBlocks: u32, totalInodes: u32,
    freeBlocks: u32, freeInodes: u32, rootInode: u32)

  datatype Inode = Inode(kind: u32, size: u32, blocks: BlockTable)

  datatype DirEntry = DirEntry(inode: u32, name: NameField)

  type InodeTable = t: seq<Inode> | |t| == 128 witness FreeInodes()
  type Disk = d: seq<Sector> | |d| == 4096 witness BlankDisk()

  /** `memset(p, 0, n)` */
  function ZeroBytes(n: nat): (r: seq<byte>)
    ensures |r| == n
  {
    seq(n, _ => 0)
  }

  function NoBlocks(): seq<u32> {
    seq(14, _ => 0)
  }

  const FreeInode: Inode := Inode(TYPE_FREE, 0, NoBlocks())

  function FreeInodes(): seq<Inode> {
    seq(128, _ => FreeInode)
  }

  const ZeroSector: Sector := ZeroBytes(512)

  function BlankDisk(): seq<Sector> {
    seq(4096, _ => ZeroSector)
  }

  // ----- superblock -----

  function SuperblockWords(sb: Superblock): seq<u32> {
    [sb.magic, sb.totalBlocks, sb.totalInodes, sb.freeBlocks, sb.freeInodes, sb.rootInode]
    + seq(122, _ => 0)
  }

  function EncodeSuperblock(sb: Superblock): Sector {
    WordBytes(SuperblockWords(sb))
  }

  function DecodeSuperblock(s: Sector): Superblock {
    Superblock(WordAt(s, 0), WordAt(s, 4), WordAt(s, 8), WordAt(s, 12), WordAt(s, 16), WordAt(s, 20))
  }

  lemma SuperblockRoundTrip(sb: Superblock)
    ensures DecodeSuperblock(EncodeSuperblock(sb)) == sb
  {
    var w := SuperblockWords(sb);
    WordBytesRoundTrip(w, 0);
    WordBytesRoundTrip(w, 1);
    WordBytesRoundTrip(w, 2);
    WordBytesRoundTrip(w, 3);
    WordBytesRoundTrip(w, 4);
    WordBytesRoundTrip(w, 5);
  }

  /** A word at offset `i`, least significant byte first. */
  predicate HasWord(b: seq<byte>, i: nat, w: u32) {
    && i + 4 <= |b| && b[i] == w % 256 && b[i + 1] == w / 256 % 256
    && b[i + 2] == w / 65536 % 256 && b[i + 3] == w / 16777216
  }

  /** Where the fields of the superblock lie on disk. */
  lemma SuperblockLayout(sb: Superblock)
    ensures var b := EncodeSuperblock(sb);
            && HasWord(b, 0, sb.magic) && HasWord(b, 4, sb.totalBlocks) && HasWord(b, 8, sb.totalInodes)
            && HasWord(b, 12, sb.freeBlocks) && HasWord(b, 16, sb.freeInodes) && HasWord(b, 20, sb.rootInode)
            && forall p :: 24 <= p < 512 ==> b[p] == 0
  {
    hide HasWord;
    var w := SuperblockWords(sb);
    StoredWord(w, 0);
    StoredWord(w, 1);
    StoredWord(w, 2);
    StoredWord(w, 3);
    StoredWord(w, 4);
    StoredWord(w, 5);
    forall p | 24 <= p < 512
      ensures EncodeSuperblock(sb)[p] == 0
    {
      assert w[p / 4] == 0;
    }
  }

  // ----- inodes: eight to a sector, sixteen words each -----

  function InodeWord(n: Inode, k: nat): u32
    requires k < 16
  {
    if k == 0 then n.kind else if k == 1 then n.size else n.blocks[k - 2]
  }

  function InodeSectorWords(t: InodeTable, s: nat): (w: seq<u32>)
    requires s < 16
    ensures |w| == 128
  {
    seq(128, i requires 0 <= i < 128 => InodeWord(t[8 * s + i / 16], i % 16))
  }

  /** The bytes of inodes `8 * s .. 8 * s + 8`. */
  function EncodeInodeSector(t: InodeTable, s: nat): Sector
    requires s < 16
  {
    WordBytes(InodeSectorWords(t, s))
  }

  /** Inode `j` of an inode sector. */
  function DecodeInode(b: Sector, j: nat): Inode
    requires j < 8
  {
    Inode(WordAt(b, 64 * j), WordAt(b, 64 * j + 4),
          seq(14, k requires 0 <= k < 14 => WordAt(b, 64 * j + 8 + 4 * k)))
  }

  lemma InodeWordStored(t: InodeTable, s: nat, j: nat, k: nat)
    requires s < 16 && j < 8 && k < 16
    ensures WordAt(EncodeInodeSector(t, s), 64 * j + 4 * k) == InodeWord(t[8 * s + j], k)
  {
    var w := InodeSectorWords(t, s);
    WordBytesRoundTrip(w, 16 * j + k);
    assert (16 * j + k) / 16 == j && (16 * j + k) % 16 == k;
    assert w[16 * j + k] == InodeWord(t[8 * s + j], k);
  }

  lemma StoredWord(words: seq<u32>, k: nat)
    requires k < |words|
    ensures HasWord(WordBytes(words), 4 * k, words[k])
  {
    var b := WordBytes(words);
    assert b[4 * k] == ByteOf(words[k], 0) && b[4 * k + 1] == ByteOf(words[k], 1);
    assert b[4 * k + 2] == ByteOf(words[k], 2) && b[4 * k + 3] == ByteOf(words[k], 3);
  }

  /** Where the fields of an inode lie on disk: type, size and fourteen block numbers, 64 bytes an inode. */
  lemma InodeLayout(t: InodeTable, s: nat, j: nat)
    requires s < 16 && j < 8
    ensures var b, n := EncodeInodeSector(t, s), t[8 * s + j];
            && HasWord(b, 64 * j, n.kind) && HasWord(b, 64 * j + 4, n.size)
            && forall k :: 0 <= k < 14 ==> HasWord(b, 64 * j + 8 + 4 * k, n.blocks[k])
  {
    hide HasWord, WordBytes;
    InodeWordAt(t, s, j, 0);
    InodeWordAt(t, s, j, 1);
    forall k | 0 <= k < 14
      ensures HasWord(EncodeInodeSector(t, s), 64 * j + 8 + 4 * k, t[8 * s + j].blocks[k])
    {
      InodeWordAt(t, s, j, k + 2);
      assert 64 * j + 4 * (k + 2) == 64 * j + 8 + 4 * k;
    }
  }

  lemma InodeWordAt(t: InodeTable, s: nat, j: nat, k: nat)
    requires s < 16 && j < 8 && k < 16
    ensures HasWord(EncodeInodeSector(t, s), 64 * j + 4 * k, InodeWord(t[8 * s + j], k))
  {
    hide HasWord, WordBytes;
    var w := InodeSectorWords(t, s);
    StoredWord(w, 16 * j + k);
    assert (16 * j + k) / 16 == j && (16 * j + k) % 16 == k;
    assert 4 * (16 * j + k) == 64 * j + 4 * k;
  }

  lemma DecodeFromWords(b: Sector, j: nat, n: Inode)
    requires j < 8
    requires forall k {:trigger InodeWord(n, k)} :: 0 <= k < 16 ==> WordAt(b, 64 * j + 4 * k) == InodeWord(n, k)
    ensures DecodeInode(b, j) == n
  {
    var d := DecodeInode(b, j);
    assert d.kind == InodeWord(n, 0);
    assert d.size == InodeWord(n, 1);
    forall k | 0 <= k < 14
      ensures d.blocks[k] == n.blocks[k]
    {
      assert WordAt(b, 64 * j + 4 * (k + 2)) == InodeWord(n, k + 2);
    }
    assert d.blocks == n.blocks;
  }

  lemma InodeSectorRoundTrip(t: InodeTable, s: nat, j: nat)
    requires s < 16 && j < 8
    ensures DecodeInode(EncodeInodeSector(t, s), j) == t[8 * s + j]
  {
    var n, b := t[8 * s + j], EncodeInodeSector(t, s);
    forall k | 0 <= k < 16
      ensures WordAt(b, 64 * j + 4 * k) == InodeWord(n, k)
    {
      InodeWordStored(t, s, j, k);
    }
    DecodeFromWords(b, j, n);
  }

  // ----- directory entries: sixteen to a sector -----

  function EntryAt(b: Sector, j: nat): DirEntry
    requires j < 16
  {
    DirEntry(WordAt(b, 32 * j), b[32 * j + 4 .. 32 * j + 32])
  }

  function EntryBytes(e: DirEntry): (r: seq<byte>)
    ensures |r| == 32
  {
    WordBytes([e.inode]) + e.name
  }

  /** The sector with entry `j` overwritten. */
  function SetEntry(b: Sector, j: nat, e: DirEntry): Sector
    requires j < 16
  {
    b[.. 32 * j] + EntryBytes(e) + b[32 * j + 32 ..]
  }

  const ZeroEntry: DirEntry := DirEntry(0, ZeroBytes(28))

  /** Where the fields of a directory entry lie on disk: the inode, then 28 bytes of name, 32 bytes an entry. */
  lemma EntryLayout(b: Sector, j: nat, e: DirEntry)
    requires j < 16
    ensures var r := SetEntry(b, j, e);
            && HasWord(r, 32 * j, e.inode) && r[32 * j + 4 .. 32 * j + 32] == e.name
            && r[.. 32 * j] == b[.. 32 * j] && r[32 * j + 32 ..] == b[32 * j + 32 ..]
  {
    var r := SetEntry(b, j, e);
    StoredWord([e.inode], 0);
    assert r[32 * j .. 32 * j + 32] == EntryBytes(e);
    assert forall i :: 0 <= i < 4 ==> r[32 * j + i] == EntryBytes(e)[i];
    assert r[32 * j + 4 .. 32 * j + 32] == EntryBytes(e)[4..];
  }

  lemma SetEntrySame(b: Sector, j: nat, e: DirEntry)
    requires j < 16
    ensures EntryAt(SetEntry(b, j, e), j) == e
  {
    var r := SetEntry(b, j, e);
    WordBytesRoundTrip([e.inode], 0);
    assert r[32 * j .. 32 * j + 32] == EntryBytes(e);
    assert forall i :: 0 <= i < 4 ==> r[32 * j + i] == EntryBytes(e)[i];
    assert r[32 * j + 4 .. 32 * j + 32] == EntryBytes(e)[4..];
  }

  lemma SetEntryOther(b: Sector, j: nat, e: DirEntry, i: nat)
    requires j < 16 && i < 16 && i != j
    ensures EntryAt(SetEntry(b, j, e), i) == EntryAt(b, i)
  {
    var r := SetEntry(b, j, e);
    assert forall p :: 32 * i <= p < 32 * i + 32 ==> r[p] == b[p];
    assert r[32 * i + 4 .. 32 * i + 32] == b[32 * i + 4 .. 32 * i + 32];
  }

  lemma SetEntryAll(b: Sector, j: nat, e: DirEntry)
    requires j < 16
    ensures forall i {:trigger EntryAt(SetEntry(b, j, e), i)} :: 0 <= i < 16 ==>
              EntryAt(SetEntry(b, j, e), i) == (if i == j then e else EntryAt(b, i))
  {
    forall i | 0 <= i < 16
      ensures EntryAt(SetEntry(b, j, e), i) == (if i == j then e else EntryAt(b, i))
    {
      if i == j {
        SetEntrySame(b, j, e);
      } else {
        SetEntryOther(b, j, e, i);
      }
    }
  }

  lemma ZeroSectorEntries()
    ensures forall j {:trigger EntryAt(ZeroSector, j)} :: 0 <= j < 16 ==> EntryAt(ZeroSector, j).inode == 0
  {
  }

  // ----- names -----

  /** The string stored in a name field: the bytes before the first NUL. */
  function NameOf(f: seq<byte>): CString {
    if |f| == 0 || f[0] == 0 then []
    else
      var rest := NameOf(f[1..]);
      [f[0]] + rest
  }

  predicate HasNul(f: seq<byte>) {
    exists i :: 0 <= i < |f| && f[i] == 0
  }

  /** The part of a name that an entry keeps: at most 27 bytes. */
  function Kept(name: CString): CString {
    if |name| <= 27 then name else name[..27]
  }

  /** Copying a name over a field: 27 bytes at most, then NUL; later bytes stay. */
  function StoreName(f: NameField, name: CString): NameField {
    Kept(name) + [0] + f[|Kept(name)| + 1 ..]
  }

  lemma {:induction false} NameOfPrefix(name: CString, rest: seq<byte>)
    ensures NameOf(name + [0] + rest) == name
  {
    var f := name + [0] + rest;
    if |name| > 0 {
      assert f[1..] == name[1..] + [0] + rest;
      NameOfPrefix(name[1..], rest);
    }
  }

  lemma StoredName(f: NameField, name: CString)
    ensures NameOf(StoreName(f, name)) == Kept(name)
    ensures HasNul(StoreName(f, name))
  {
    NameOfPrefix(Kept(name), f[|Kept(name)| + 1 ..]);
    assert StoreName(f, name)[|Kept(name)|] == 0;
  }
}
