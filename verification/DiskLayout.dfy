/**
 The bytes of a DiskFS disk (fs/diskfs.h, apps/install.py:23-68).

 Sector 0 holds the superblock, sectors 1 to 4 the table of 32 inodes of 64 bytes, and from
 sector 5 on every slot owns 8 sectors. Integers are little endian.
 */
module DiskLayout {
  import opened Word32

  const SECTOR: nat := 512
  const MAX_FILES: nat := 32
  const INODE_BYTES: nat := 64
  const TABLE_BYTES: nat := 2048
  const NAME_MAX: nat := 48
  const FILE_BYTES: nat := 4096
  const SLOT_SECTORS: nat := 8
  const INODE_SECTOR: nat := 1
  const DATA_SECTOR: nat := 5
  const DISK_SECTORS: nat := 261   // the last sector of slot 31 is 260
  const MAGIC: int := 0x5354454C

  type Byte = x: int | 0 <= x < 256
  type U32 = x: int | 0 <= x < WORD
  type Sector = s: seq<Byte> | |s| == 512 witness seq(512, _ => 0)
  type RawName = s: seq<Byte> | |s| == 48 witness seq(48, _ => 0)
  type Table = s: seq<Inode> | |s| == 32 witness seq(32, _ => Blank)

  datatype Inode = Inode(name: RawName, size: U32, slot: U32, used: Byte, isDir: Byte, pad: seq<Byte>)

  const Blank: Inode := Inode(Zeros(48), 0, 0, 0, 0, Zeros(6))

  function Zeros(n: nat): (z: seq<Byte>)
    ensures |z| == n && forall i :: 0 <= i < n ==> z[i] == 0
  {
    seq(n, _ => 0)
  }

  const ZeroSector: Sector := Zeros(512)

  // ----- Integers -----

  function Le32(v: U32): (b: seq<Byte>)
    ensures |b| == 4
  {
    [v % 256, v / 256 % 256, v / 65536 % 256, v / 16777216]
  }

  function FromLe32(b: seq<Byte>): U32
    requires |b| == 4
  {
    b[0] as int + 256 * (b[1] as int) + 65536 * (b[2] as int) + 16777216 * (b[3] as int)
  }

  lemma Le32Inverse(v: U32)
    ensures FromLe32(Le32(v)) == v
  {
    assert v / 65536 == v / 256 / 256;
    assert v / 16777216 == v / 65536 / 256;
  }

  lemma Divided(v: int, k: int, q: int, r: int)
    requires k in {256, 65536, 16777216} && v == k * q + r && 0 <= r < k
    ensures v / k == q && v % k == r
  {
  }

  lemma FromLe32Inverse(b: seq<Byte>)
    requires |b| == 4
    ensures Le32(FromLe32(b)) == b
  {
    var v: int := FromLe32(b);
    var b0: int, b1: int, b2: int, b3: int := b[0], b[1], b[2], b[3];
    Divided(v, 256, b1 + 256 * b2 + 65536 * b3, b0);
    Divided(v / 256, 256, b2 + 256 * b3, b1);
    Divided(v, 65536, b2 + 256 * b3, b0 + 256 * b1);
    Divided(v / 65536, 256, b3, b2);
    Divided(v, 16777216, b3, b0 + 256 * b1 + 65536 * b2);
  }

  // ----- Inodes -----

  function EncodeInode(n: Inode): (b: seq<Byte>)
    requires |n.pad| == 6
    ensures |b| == INODE_BYTES
  {
    n.name + Le32(n.size) + Le32(n.slot) + [n.used, n.isDir] + n.pad
  }

  function DecodeInode(b: seq<Byte>): (n: Inode)
    requires |b| == INODE_BYTES
    ensures |n.pad| == 6
  {
    Inode(b[..48], FromLe32(b[48..52]), FromLe32(b[52..56]), b[56], b[57], b[58..64])
  }

  /** The struct and its 64 bytes on disk determine each other. */
  lemma InodeCodec(n: Inode)
    requires |n.pad| == 6
    ensures DecodeInode(EncodeInode(n)) == n
  {
    var b := EncodeInode(n);
    Le32Inverse(n.size);
    Le32Inverse(n.slot);
    assert b[..48] == n.name;
    assert b[48..52] == Le32(n.size);
    assert b[52..56] == Le32(n.slot);
    assert b[58..64] == n.pad;
  }

  lemma InodeCodecBack(b: seq<Byte>)
    requires |b| == INODE_BYTES
    ensures EncodeInode(DecodeInode(b)) == b
  {
    FromLe32Inverse(b[48..52]);
    FromLe32Inverse(b[52..56]);
    assert b == b[..48] + b[48..52] + b[52..56] + [b[56], b[57]] + b[58..64];
  }

  ghost predicate Padded(t: Table) {
    forall i :: 0 <= i < MAX_FILES ==> |t[i].pad| == 6
  }

  // Sector s (0..3) of the table
  function TableSector(t: Table, s: nat): (r: Sector)
    requires Padded(t) && s < 4
  {
    seq(SECTOR, q requires 0 <= q < SECTOR => EncodeInode(t[8 * s + q / 64])[q % 64])
  }

  // The table read back from its four sectors
  function TableFrom(sectors: seq<Sector>): (t: Table)
    requires |sectors| == 4
    ensures Padded(t)
  {
    seq(MAX_FILES, i requires 0 <= i < MAX_FILES =>
      DecodeInode(sectors[i / 8][64 * (i % 8)..64 * (i % 8) + 64]))
  }

  function TableSectors(t: Table): (r: seq<Sector>)
    requires Padded(t)
    ensures |r| == 4 && forall s :: 0 <= s < 4 ==> r[s] == TableSector(t, s)
  {
    [TableSector(t, 0), TableSector(t, 1), TableSector(t, 2), TableSector(t, 3)]
  }

  lemma SectorHoldsInode(t: Table, i: nat)
    requires Padded(t) && i < MAX_FILES
    ensures TableSector(t, i / 8)[64 * (i % 8)..64 * (i % 8) + 64] == EncodeInode(t[i])
  {
    var s := TableSector(t, i / 8);
    forall k | 0 <= k < 64 ensures s[64 * (i % 8) + k] == EncodeInode(t[i])[k] {
      var q := 64 * (i % 8) + k;
      assert q / 64 == i % 8 && q % 64 == k;
      assert 8 * (i / 8) + q / 64 == i;
    }
  }

  /** The table survives being written to its sectors and read back. */
  lemma TableCodec(t: Table)
    requires Padded(t)
    ensures TableFrom(TableSectors(t)) == t
  {
    var r := TableFrom(TableSectors(t));
    forall i | 0 <= i < MAX_FILES ensures r[i] == t[i] {
      SectorHoldsInode(t, i);
      InodeCodec(t[i]);
    }
  }

  lemma SectorRebuilt(sectors: seq<Sector>, s: nat)
    requires |sectors| == 4 && s < 4
    ensures TableSector(TableFrom(sectors), s) == sectors[s]
  {
    var t := TableFrom(sectors);
    forall q | 0 <= q < SECTOR ensures TableSector(t, s)[q] == sectors[s][q] {
      RebuiltInode(sectors, s, q / 64);
      RebuiltByte(sectors[s], q);
    }
  }

  // One inode of a sector
  lemma RebuiltInode(sectors: seq<Sector>, s: nat, j: nat)
    requires |sectors| == 4 && s < 4 && j < 8
    ensures EncodeInode(TableFrom(sectors)[8 * s + j]) == sectors[s][64 * j..64 * j + 64]
  {
    var i := 8 * s + j;
    assert i / 8 == s && i % 8 == j;
    InodeCodecBack(sectors[s][64 * j..64 * j + 64]);
  }

  lemma RebuiltByte(b: Sector, q: nat)
    requires q < SECTOR
    ensures q / 64 < 8 && b[64 * (q / 64)..64 * (q / 64) + 64][q % 64] == b[q]
  {
  }

  lemma TableCodecBack(sectors: seq<Sector>)
    requires |sectors| == 4
    ensures TableSectors(TableFrom(sectors)) == sectors
  {
    SectorRebuilt(sectors, 0);
    SectorRebuilt(sectors, 1);
    SectorRebuilt(sectors, 2);
    SectorRebuilt(sectors, 3);
  }

  /** An inode change shows in one sector only. */
  lemma TableSectorLocal(t: Table, t': Table, s: nat)
    requires Padded(t) && Padded(t') && s < 4
    requires forall i :: 8 * s <= i < 8 * s + 8 ==> t[i] == t'[i]
    ensures TableSector(t, s) == TableSector(t', s)
  {
    forall q | 0 <= q < SECTOR ensures TableSector(t, s)[q] == TableSector(t', s)[q] {
      assert t[8 * s + q / 64] == t'[8 * s + q / 64];
    }
  }

  // ----- Superblock: magic, version, nfiles, and 500 bytes that never change -----

  datatype Super = Super(magic: U32, version: U32, nfiles: U32, rest: seq<Byte>)

  function EncodeSuper(s: Super): (b: Sector)
    requires |s.rest| == 500
  {
    Le32(s.magic) + Le32(s.version) + Le32(s.nfiles) + s.rest
  }

  function DecodeSuper(b: Sector): (s: Super)
    ensures |s.rest| == 500
  {
    Super(FromLe32(b[..4]), FromLe32(b[4..8]), FromLe32(b[8..12]), b[12..])
  }

  lemma SuperCodec(s: Super)
    requires |s.rest| == 500
    ensures DecodeSuper(EncodeSuper(s)) == s
  {
    var b := EncodeSuper(s);
    Le32Inverse(s.magic);
    Le32Inverse(s.version);
    Le32Inverse(s.nfiles);
    assert b[..4] == Le32(s.magic) && b[4..8] == Le32(s.version) && b[8..12] == Le32(s.nfiles);
    assert b[12..] == s.rest;
  }

  lemma SuperCodecBack(b: Sector)
    ensures EncodeSuper(DecodeSuper(b)) == b
  {
    FromLe32Inverse(b[..4]);
    FromLe32Inverse(b[4..8]);
    FromLe32Inverse(b[8..12]);
    assert b == b[..4] + b[4..8] + b[8..12] + b[12..];
  }

  // ----- C strings in a name field -----

  // The bytes before the first NUL
  function CStr(b: seq<Byte>): (s: seq<Byte>)
    ensures |s| <= |b| && s == b[..|s|] && 0 !in s
    ensures |s| < |b| ==> b[|s|] == 0
  {
    if |b| == 0 || b[0] == 0 then [] else [b[0]] + CStr(b[1..])
  }

  // strncpy(field, name, 47) into a zeroed field
  function NameField(name: seq<Byte>): RawName {
    if |name| < NAME_MAX then name + Zeros(NAME_MAX - |name|) else name[..NAME_MAX - 1] + [0]
  }

  lemma CStrIs(b: seq<Byte>, n: nat)
    requires n <= |b| && 0 !in b[..n] && (n < |b| ==> b[n] == 0)
    ensures CStr(b) == b[..n]
  {
    if n < |CStr(b)| {
      assert false;
    }
    assert |CStr(b)| == n;
  }

  /** A stored name reads back as itself exactly when it is shorter than the field. */
  lemma NameFieldCodec(name: seq<Byte>)
    requires 0 !in name
    ensures CStr(NameField(name)) == if |name| < NAME_MAX then name else name[..NAME_MAX - 1]
    ensures CStr(NameField(name)) == name <==> |name| < NAME_MAX
  {
    var f := NameField(name);
    var n := if |name| < NAME_MAX then |name| else NAME_MAX - 1;
    assert f[..n] == name[..n];
    CStrIs(f, n);
  }
}
