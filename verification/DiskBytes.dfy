/**
 The format of the disk in plain bytes (fs/diskfs.h:1-43): where the superblock, the inodes and the data
 of a file lie, as another program would read them.
 */
module DiskBytes {
  import opened DiskLayout
  import opened DiskModel
  import opened DiskOps
  import opened DiskCrash

  // A little-endian word in a sector
  function WordAt(b: seq<Byte>, at: nat): int
    requires at + 4 <= |b|
  {
    b[at] as int + 256 * (b[at + 1] as int) + 65536 * (b[at + 2] as int) + 16777216 * (b[at + 3] as int)
  }

  lemma WordIs(b: seq<Byte>, at: nat, v: U32)
    requires at + 4 <= |b| && b[at..at + 4] == Le32(v)
    ensures WordAt(b, at) == v
  {
    Le32Inverse(v);
    var w := b[at..at + 4];
    assert w[0] == b[at] && w[1] == b[at + 1] && w[2] == b[at + 2] && w[3] == b[at + 3];
  }

  // What the bytes from `at` on say about an inode
  ghost predicate InodeIs(b: seq<Byte>, at: nat, n: Inode)
    requires at + 64 <= |b|
  {
    && b[at..at + 48] == n.name
    && WordAt(b, at + 48) == n.size && WordAt(b, at + 52) == n.slot
    && b[at + 56] == n.used && b[at + 57] == n.isDir
  }

  lemma InodeBytes(n: Inode)
    requires |n.pad| == 6
    ensures InodeIs(EncodeInode(n), 0, n)
  {
    var b := EncodeInode(n);
    assert b[48..52] == Le32(n.size) && b[52..56] == Le32(n.slot);
    WordIs(b, 48, n.size);
    WordIs(b, 52, n.slot);
  }

  lemma InodeMoved(b: seq<Byte>, at: nat, c: seq<Byte>, n: Inode)
    requires at + 64 <= |b| && |c| == 64 && b[at..at + 64] == c && InodeIs(c, 0, n)
    ensures InodeIs(b, at, n)
  {
    forall k | 0 <= k < 64 ensures c[k] == b[at + k] {
    }
    assert b[at..at + 48] == c[0..48];
  }

  lemma TableHere(m: Mem, d: Disk, s: nat)
    requires |m.super.rest| == 500 && Padded(m.table) && Synced(m, d) && s < 4
    ensures d[1 + s] == TableSector(m.table, s)
  {
    assert s == 0 || s == 1 || s == 2 || s == 3;
  }

  /** Inode i is the 64 bytes at 64 * (i mod 8) of sector 1 + i / 8: the name, the size, the slot, the
      used byte and the directory byte. */
  lemma InodeOnDisk(m: Mem, d: Disk, i: nat)
    requires |m.super.rest| == 500 && Padded(m.table) && Synced(m, d) && i < 32
    ensures InodeIs(d[1 + i / 8], 64 * (i % 8), m.table[i])
  {
    SectorHoldsInode(m.table, i);
    InodeBytes(m.table[i]);
    TableHere(m, d, i / 8);
    InodeMoved(d[1 + i / 8], 64 * (i % 8), EncodeInode(m.table[i]), m.table[i]);
  }

  /** The superblock starts with the magic number, the version and the number of files. */
  lemma SuperOnDisk(m: Mem, d: Disk)
    requires |m.super.rest| == 500 && Padded(m.table) && Synced(m, d)
    ensures WordAt(d[0], 0) == m.super.magic && WordAt(d[0], 4) == m.super.version && WordAt(d[0], 8) == m.super.nfiles
  {
    var b := EncodeSuper(m.super);
    assert b[0..4] == Le32(m.super.magic) && b[4..8] == Le32(m.super.version) && b[8..12] == Le32(m.super.nfiles);
    WordIs(b, 0, m.super.magic);
    WordIs(b, 4, m.super.version);
    WordIs(b, 8, m.super.nfiles);
  }

  /** Byte p of a file in slot s is byte p mod 512 of sector 5 + 8 * s + p / 512. */
  lemma FileOnDisk(m: Mem, d: Disk, name: seq<Byte>, p: nat)
    requires Good(m) && Find(m.table, name) < 32
    ensures var n := m.table[Find(m.table, name)];
      && name in Files(m.table, d) && |Files(m.table, d)[name]| == n.size <= 4096 && n.slot < 32
      && (p < n.size ==> Files(m.table, d)[name][p] == d[5 + 8 * n.slot + p / 512][p % 512])
  {
    FilesAt(m.table, d, name);
  }

  // A name of less than 48 bytes in an inode: the bytes, then zeros
  lemma StoredName(name: seq<Byte>, size: U32, slot: U32)
    requires |name| < 48
    ensures var n := NewInode(name, size, slot);
      && n.name[..|name|] == name && (forall k :: |name| <= k < 48 ==> n.name[k] == 0)
      && n.used == 1 && n.isDir == 0 && n.size == size && n.slot == slot
  {
  }

  /** A formatted disk: "LETS" (the number 0x5354454C), version 1, no files, table at sector 1, data from
      sector 5, the label "StellaresOS", and 32 inodes of zeros. */
  lemma FormatOnDisk(d: Disk)
    ensures var ws := [SuperWrite(FreshSuper)] + TableWrites(FreshTable);
      && OnDisk(ws, d)
      && var r := Apply(d, ws);
      && r[0][0..4] == [0x4C, 0x45, 0x54, 0x53]
      && WordAt(r[0], 0) == 0x5354454C && WordAt(r[0], 4) == 1 && WordAt(r[0], 8) == 0
      && WordAt(r[0], 12) == 1 && WordAt(r[0], 16) == 5
      && r[0][20..32] == [83, 116, 101, 108, 108, 97, 114, 101, 115, 79, 83, 0]
      && forall i: nat :: i < 32 ==> InodeIs(r[1 + i / 8], 64 * (i % 8), Inode(Zeros(48), 0, 0, 0, 0, Zeros(6)))
  {
    var m := Mem(FreshSuper, FreshTable);
    FormatDone(d);
    var r := Apply(d, [SuperWrite(FreshSuper)] + TableWrites(FreshTable));
    SuperOnDisk(m, r);
    FreshBytes();
    forall i: nat | i < 32 ensures InodeIs(r[1 + i / 8], 64 * (i % 8), Blank) {
      InodeOnDisk(m, r, i);
    }
  }

  lemma FreshBytes()
    ensures var b := EncodeSuper(FreshSuper);
      && b[0..4] == [0x4C, 0x45, 0x54, 0x53] && WordAt(b, 12) == 1 && WordAt(b, 16) == 5
      && b[20..32] == [83, 116, 101, 108, 108, 97, 114, 101, 115, 79, 83, 0]
  {
    var b := EncodeSuper(FreshSuper);
    assert b[12..16] == Le32(1) && b[16..20] == Le32(5);
    WordIs(b, 12, 1);
    WordIs(b, 16, 5);
    assert b[0..4] == Le32(0x5354454C);
  }
}
