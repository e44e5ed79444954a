/**
 The host-side installer (apps/install.py), the second implementation of the DiskFS layout: it
 reads and rewrites the inode table of a disk image with Python dictionaries, `struct` and `bytes`.
 The theorems say that its image is, sector for sector, the one the kernel would have written.
 */
module InstallTool {
  import opened Word32
  import opened DiskLayout
  import opened DiskModel
  import opened DiskOps
  import opened DiskCrash
  import opened DiskRun

  // One dictionary of the `inodes` list
  datatype Entry = Entry(name: seq<Byte>, size: U32, slot: U32, used: Byte)

  // bytes.rstrip(b'\x00')
  function RStrip(b: seq<Byte>): (s: seq<Byte>)
    ensures |s| <= |b| && s == b[..|s|]
    ensures forall i :: |s| <= i < |b| ==> b[i] == 0
    ensures |s| > 0 ==> s[|s| - 1] != 0
  {
    if |b| > 0 && b[|b| - 1] == 0 then RStrip(b[..|b| - 1]) else b
  }

  function FromInode(n: Inode): Entry {
    Entry(RStrip(n.name), n.size, n.slot, n.used)
  }

  // The 64 bytes that write_inodes packs; name[:47].ljust(48) is the kernel's name field
  function ToInode(e: Entry): Inode {
    Inode(NameField(e.name), e.size, e.slot, if e.used != 0 then 1 else 0, 0, Zeros(6))
  }

  // decode('ascii') gives these bytes as they are, and encode('ascii') gives them back. Any other
  // name makes encode raise an error in the middle of an installation.
  predicate Ascii(s: seq<Byte>) { forall i :: 0 <= i < |s| ==> s[i] < 128 }

  // Inodes with ASCII names as the kernel and this tool write them
  ghost predicate Canonical(n: Inode) {
    n.name == NameField(CStr(n.name)) && Ascii(CStr(n.name)) && n.used <= 1 && n.isDir == 0 && n.pad == Zeros(6)
  }

  ghost predicate CanonicalTable(t: Table) {
    forall i :: 0 <= i < MAX_FILES ==> Canonical(t[i])
  }

  lemma RStripCanonical(n: Inode)
    requires Canonical(n)
    ensures RStrip(n.name) == CStr(n.name)
  {
    var s, r := CStr(n.name), RStrip(n.name);
    assert |s| < NAME_MAX ==> n.name[|s|..] == Zeros(NAME_MAX - |s|);
    assert |s| > 0 ==> s[|s| - 1] == n.name[|s| - 1];
    assert |r| == |s|;
  }

  ghost predicate AsciiTable(t: Table) {
    forall i :: 0 <= i < MAX_FILES ==> Ascii(RStrip(t[i].name))
  }

  predicate AsciiEntries(inodes: seq<Entry>) { forall i :: 0 <= i < |inodes| ==> Ascii(inodes[i].name) }

  lemma CanonicalAscii(t: Table)
    requires CanonicalTable(t)
    ensures AsciiTable(t)
  {
    forall i | 0 <= i < MAX_FILES ensures Ascii(RStrip(t[i].name)) {
      assert Canonical(t[i]);
      RStripCanonical(t[i]);
    }
  }

  /** Reading an entry and packing it again gives back the kernel's 64 bytes. */
  lemma EntryRoundTrip(n: Inode)
    requires Canonical(n)
    ensures ToInode(FromInode(n)) == n
  {
    RStripCanonical(n);
  }

  // ----- The image file -----

  class ImageFile {
    const sectors: array<Sector>
    ghost var log: seq<SectorWrite>

    ghost predicate Valid() { sectors.Length >= DISK_SECTORS }

    function Image(): Disk
      requires Valid()
      reads sectors
    {
      sectors[..]
    }

    constructor (image: Disk)
      ensures Valid() && Image() == image && log == [] && fresh(sectors)
    {
      sectors := new Sector[|image|](i requires 0 <= i < |image| => image[i]);
      log := [];
      new;
      assert sectors[..] == image;
    }

    // f.seek(n * SECTOR); f.read(SECTOR)
    method ReadSector(n: nat) returns (data: Sector)
      requires Valid() && n < sectors.Length
      ensures data == Image()[n]
    {
      data := sectors[n];
    }

    // Pads short data with zero bytes.
    method WriteSector(n: nat, data: seq<Byte>)
      requires Valid() && n < sectors.Length && |data| <= SECTOR
      modifies this, sectors
      ensures var w := SectorWrite(n, data + Zeros(SECTOR - |data|));
        Image() == old(Image())[n := w.data] && log == old(log) + [w]
      ensures |data| == SECTOR ==> Image() == old(Image())[n := data] && log == old(log) + [SectorWrite(n, data)]
    {
      if |data| == SECTOR { assert data + Zeros(SECTOR - |data|) == data; }
      var padded: Sector := data + Zeros(SECTOR - |data|);
      sectors[n] := padded;
      log := log + [SectorWrite(n, padded)];
    }

    // The image went from d to Apply(d, ws), with exactly these writes.
    ghost predicate Wrote(d: Disk, log0: seq<SectorWrite>, ws: seq<SectorWrite>)
      requires Valid()
      reads this, sectors
    {
      OnDisk(ws, d) && Image() == Apply(d, ws) && log == log0 + ws
    }

    lemma WroteNothing()
      requires Valid()
      ensures Wrote(Image(), log, [])
    {
      assert Apply(Image(), []) == Image();
    }
  }

  function Join(s: seq<seq<Byte>>): seq<Byte>
    requires |s| == 4
  {
    s[0] + s[1] + s[2] + s[3]
  }

  lemma RawChunk(s: seq<Sector>, raw: seq<Byte>, i: nat)
    requires |s| == 4 && raw == Join(s) && i < MAX_FILES
    ensures raw[64 * i..64 * i + 64] == s[i / 8][64 * (i % 8)..64 * (i % 8) + 64]
  {
    var j := 512 * (i / 8);
    assert 64 * i == j + 64 * (i % 8);
    assert raw[j..j + 512] == s[i / 8];
    assert raw[64 * i..64 * i + 64] == raw[j..j + 512][64 * (i % 8)..64 * (i % 8) + 64];
  }

  method ReadInodes(f: ImageFile) returns (inodes: seq<Entry>)
    requires f.Valid() && AsciiTable(Mount(f.Image()).table)
    ensures |inodes| == MAX_FILES && AsciiEntries(inodes)
    ensures forall i :: 0 <= i < MAX_FILES ==> inodes[i] == FromInode(Mount(f.Image()).table[i])
  {
    ghost var sectors := InodeSectors(f.Image());
    var b1 := f.ReadSector(1);
    var b2 := f.ReadSector(2);
    var b3 := f.ReadSector(3);
    var b4 := f.ReadSector(4);
    var raw := Join([b1, b2, b3, b4]);
    inodes := [];
    var i := 0;
    while i < MAX_FILES
      invariant 0 <= i <= MAX_FILES && |inodes| == i
      invariant forall k :: 0 <= k < i ==> inodes[k] == FromInode(TableFrom(sectors)[k])
    {
      var e := ParseChunk(raw, i, sectors);
      inodes := inodes + [e];
      i := i + 1;
    }
  }

  // One turn of the loop: 64 bytes of the table
  method ParseChunk(raw: seq<Byte>, i: nat, ghost sectors: seq<Sector>) returns (e: Entry)
    requires i < MAX_FILES && |sectors| == 4 && |raw| == TABLE_BYTES && raw == Join(sectors)
    ensures e == FromInode(TableFrom(sectors)[i])
  {
    RawChunk(sectors, raw, i);
    var chunk := raw[64 * i..64 * i + 64];
    e := Entry(RStrip(chunk[..48]), FromLe32(chunk[48..52]), FromLe32(chunk[52..56]), chunk[56]);
  }

  // The entries as a table of packed inodes
  ghost function Packed(inodes: seq<Entry>): Table
    requires |inodes| == MAX_FILES
  {
    seq(MAX_FILES, i requires 0 <= i < MAX_FILES => ToInode(inodes[i]))
  }

  // The bytes of n packed inodes, one after the other
  ghost predicate Concatenated(raw: seq<Byte>, t: Table, n: nat)
    requires Padded(t) && n <= MAX_FILES
  {
    |raw| == 64 * n && forall i :: 0 <= i < n ==> raw[64 * i..64 * i + 64] == EncodeInode(t[i])
  }

  lemma ConcatenatedSector(raw: seq<Byte>, t: Table, s: nat)
    requires Padded(t) && Concatenated(raw, t, MAX_FILES) && s < 4
    ensures raw[SECTOR * s..SECTOR * s + SECTOR] == TableSector(t, s)
  {
    forall q | 0 <= q < SECTOR
      ensures raw[SECTOR * s + q] == TableSector(t, s)[q]
    {
      var i := 8 * s + q / 64;
      assert 64 * i + q % 64 == SECTOR * s + q;
      assert raw[64 * i..64 * i + 64][q % 64] == EncodeInode(t[i])[q % 64];
    }
  }

  method Pack(inodes: seq<Entry>) returns (raw: seq<Byte>)
    requires |inodes| == MAX_FILES
    ensures Padded(Packed(inodes)) && Concatenated(raw, Packed(inodes), MAX_FILES)
  {
    raw := [];
    var i := 0;
    ghost var t := Packed(inodes);
    while i < MAX_FILES
      invariant 0 <= i <= MAX_FILES && Concatenated(raw, t, i)
    {
      var e := inodes[i];
      var chunk := NameField(e.name);
      var bytes := chunk + Le32(e.size) + Le32(e.slot) + [if e.used != 0 then 1 else 0] + [0] + Zeros(6);
      assert bytes == EncodeInode(t[i]);
      Appended(raw, t, i, bytes);
      raw := raw + bytes;
      i := i + 1;
    }
  }

  lemma Appended(raw: seq<Byte>, t: Table, n: nat, bytes: seq<Byte>)
    requires Padded(t) && n < MAX_FILES && Concatenated(raw, t, n) && bytes == EncodeInode(t[n])
    ensures Concatenated(raw + bytes, t, n + 1)
  {
    forall i | 0 <= i < n + 1
      ensures (raw + bytes)[64 * i..64 * i + 64] == EncodeInode(t[i])
    {
      if i < n {
        assert (raw + bytes)[64 * i..64 * i + 64] == raw[64 * i..64 * i + 64];
      }
    }
  }

  method WriteInodes(f: ImageFile, inodes: seq<Entry>)
    requires f.Valid() && |inodes| == MAX_FILES && AsciiEntries(inodes)
    modifies f, f.sectors
    ensures Padded(Packed(inodes)) && f.Wrote(old(f.Image()), old(f.log), TableWrites(Packed(inodes)))
  {
    var raw := Pack(inodes);
    ghost var t, d, log0 := Packed(inodes), f.Image(), f.log;
    ghost var ws := TableWrites(t);
    var s := 0;
    assert ws[..0] == [];
    assert OnDisk(ws, d);
    while s < 4
      invariant 0 <= s <= 4
      invariant f.Image() == Apply(d, ws[..s]) && f.log == log0 + ws[..s]
    {
      ConcatenatedSector(raw, t, s);
      ApplyStep(d, ws, s);
      TableWriteAt(t, s);
      f.WriteSector(1 + s, raw[s * SECTOR..(s + 1) * SECTOR]);
      s := s + 1;
    }
    assert ws[..4] == ws;
  }

  lemma TableWriteAt(t: Table, s: nat)
    requires Padded(t) && s < 4
    ensures TableWrites(t)[s] == SectorWrite(1 + s, TableSector(t, s))
  {
  }

  lemma DataWriteAt(slot: nat, buf: seq<Byte>, s: nat)
    requires |buf| == FILE_BYTES && s < SLOT_SECTORS
    ensures |buf[s * SECTOR..(s + 1) * SECTOR]| == SECTOR
    ensures DataWrites(slot, buf)[s] == SectorWrite(DATA_SECTOR + slot * SLOT_SECTORS + s,
        buf[s * SECTOR..(s + 1) * SECTOR])
  {
  }

  // Puts nfiles at offset 8 and leaves the rest of the superblock.
  method WriteSuper(f: ImageFile, nfiles: U32)
    requires f.Valid()
    modifies f, f.sectors
    ensures var d := old(f.Image());
      f.Wrote(d, old(f.log), [SuperWrite(DecodeSuper(d[0]).(nfiles := nfiles))])
  {
    ghost var d := f.Image();
    var data := f.ReadSector(0);
    var patched := data[..8] + Le32(nfiles) + data[12..];
    SuperPatched(data, nfiles);
    f.WriteSector(0, patched);
    ghost var w := SuperWrite(DecodeSuper(data).(nfiles := nfiles));
    assert [w][..0] == [];
    assert f.Image() == Apply(d, [w]);
  }

  lemma SuperPatched(b: Sector, nfiles: U32)
    ensures EncodeSuper(DecodeSuper(b).(nfiles := nfiles)) == b[..8] + Le32(nfiles) + b[12..]
  {
    FromLe32Inverse(b[..4]);
    FromLe32Inverse(b[4..8]);
    assert b[..8] == b[..4] + b[4..8];
  }

  lemma DataStep(d: Disk, slot: nat, buf: seq<Byte>, s: nat)
    requires slot < MAX_FILES && |buf| == FILE_BYTES && s < SLOT_SECTORS
    ensures var ws, lba, chunk := DataWrites(slot, buf), DATA_SECTOR + slot * SLOT_SECTORS + s,
        buf[s * SECTOR..(s + 1) * SECTOR];
      && OnDisk(ws, d) && lba < |d| && |chunk| == SECTOR
      && ws[..s + 1] == ws[..s] + [SectorWrite(lba, chunk)]
      && Apply(d, ws[..s + 1]) == Apply(d, ws[..s])[lba := chunk]
  {
    DataWriteAt(slot, buf, s);
    ApplyStep(d, DataWrites(slot, buf), s);
  }

  // One sector of the data
  method WriteChunk(f: ImageFile, slot: nat, padded: seq<Byte>, s: nat, ghost d: Disk, ghost log0: seq<SectorWrite>)
    requires f.Valid() && slot < MAX_FILES && |padded| == FILE_BYTES && s < SLOT_SECTORS
    requires OnDisk(DataWrites(slot, padded), d)
    requires f.Image() == Apply(d, DataWrites(slot, padded)[..s]) && f.log == log0 + DataWrites(slot, padded)[..s]
    modifies f, f.sectors
    ensures f.Image() == Apply(d, DataWrites(slot, padded)[..s + 1]) &&
        f.log == log0 + DataWrites(slot, padded)[..s + 1]
  {
    DataStep(d, slot, padded, s);
    f.WriteSector(DATA_SECTOR + slot * SLOT_SECTORS + s, padded[s * SECTOR..(s + 1) * SECTOR]);
  }

  method WriteData(f: ImageFile, slot: nat, padded: seq<Byte>)
    requires f.Valid() && slot < MAX_FILES && |padded| == FILE_BYTES
    modifies f, f.sectors
    ensures f.Wrote(old(f.Image()), old(f.log), DataWrites(slot, padded))
  {
    ghost var ws, d, log0 := DataWrites(slot, padded), f.Image(), f.log;
    var s := 0;
    assert ws[..0] == [];
    assert OnDisk(ws, d);
    while s < SLOT_SECTORS
      invariant 0 <= s <= SLOT_SECTORS
      invariant f.Image() == Apply(d, ws[..s]) && f.log == log0 + ws[..s]
    {
      WriteChunk(f, slot, padded, s, d, log0);
      s := s + 1;
    }
    assert ws[..SLOT_SECTORS] == ws;
  }

  // ----- Searching the list -----

  // The list as read from a canonical table
  ghost predicate Mirrors(inodes: seq<Entry>, t: Table) {
    && |inodes| == MAX_FILES
    && forall k :: 0 <= k < MAX_FILES ==> inodes[k] == Entry(CStr(t[k].name), t[k].size, t[k].slot, t[k].used)
  }

  lemma ReadMirrors(inodes: seq<Entry>, t: Table)
    requires |inodes| == MAX_FILES && CanonicalTable(t)
    requires forall k :: 0 <= k < MAX_FILES ==> inodes[k] == FromInode(t[k])
    ensures Mirrors(inodes, t)
    ensures Packed(inodes) == t
  {
    forall k | 0 <= k < MAX_FILES
      ensures inodes[k].name == CStr(t[k].name) && ToInode(inodes[k]) == t[k]
    {
      assert Canonical(t[k]);
      RStripCanonical(t[k]);
      EntryRoundTrip(t[k]);
    }
  }

  method FindExisting(inodes: seq<Entry>, name: seq<Byte>, ghost t: Table) returns (i: int)
    requires Mirrors(inodes, t)
    ensures i == if Find(t, name) < MAX_FILES then Find(t, name) else -1
  {
    i := 0;
    while i < MAX_FILES
      invariant 0 <= i <= MAX_FILES
      invariant forall k :: 0 <= k < i ==> !IsFile(t[k], name)
    {
      if inodes[i].used != 0 && inodes[i].name == name {
        assert IsFile(t[i], name);
        return;
      }
      i := i + 1;
    }
    return -1;
  }

  method FindFreeInode(inodes: seq<Entry>, ghost t: Table) returns (i: int)
    requires Mirrors(inodes, t)
    ensures i == if FreeInode(t) < MAX_FILES then FreeInode(t) else -1
  {
    i := 0;
    while i < MAX_FILES
      invariant 0 <= i <= MAX_FILES
      invariant forall k :: 0 <= k < i ==> t[k].used != 0
    {
      if inodes[i].used == 0 {
        assert t[i].used == 0;
        return;
      }
      i := i + 1;
    }
    return -1;
  }

  method FindFreeSlot(inodes: seq<Entry>, ghost t: Table) returns (s: int)
    requires Mirrors(inodes, t)
    ensures s == if FreeSlot(t) < MAX_FILES then FreeSlot(t) else -1
  {
    var usedSlots := set i | 0 <= i < MAX_FILES && inodes[i].used != 0 :: inodes[i].slot;
    assert forall k: U32 :: k in usedSlots <==> SlotTaken(t, k);
    s := 0;
    while s < MAX_FILES
      invariant 0 <= s <= MAX_FILES
      invariant forall k :: 0 <= k < s ==> SlotTaken(t, k)
    {
      if s !in usedSlots { return; }
      s := s + 1;
    }
    return -1;
  }

  // ----- install_app -----

  // What install_app decides: whether there is room, the slot for the data, and the state to write
  datatype Plan = Plan(ok: bool, slot: int, mem: Mem)

  ghost function PlanFor(m: Mem, name: seq<Byte>, size: U32): (p: Plan)
    requires Good(m) && size <= FILE_BYTES
    ensures |p.mem.super.rest| == 500 && Padded(p.mem.table) && 0 <= p.slot < MAX_FILES
  {
    var i := Find(m.table, name);
    if i < MAX_FILES then Plan(true, m.table[i].slot, m)
    else if FreeInode(m.table) == MAX_FILES then Plan(false, 0, m)
    else
      AddedState(m, name, size);
      Plan(true, FreeSlot(m.table), Added(m, FreeInode(m.table), name, size, FreeSlot(m.table)))
  }

  // The sector writes of install_app on an image whose table is m, [] when it refuses
  ghost function InstallWrites(m: Mem, name: seq<Byte>, data: seq<Byte>): seq<SectorWrite>
    requires Good(m)
  {
    if |data| > FILE_BYTES || !PlanFor(m, name, |data|).ok then []
    else
      var p := PlanFor(m, name, |data|);
      DataWrites(p.slot, Buffer(data)) + Flush(p.mem)
  }

  /** For a new name the writes are those of `diskfs_write`. */
  lemma InstallIsWrite(m: Mem, name: seq<Byte>, data: seq<Byte>)
    requires Good(m) && |data| <= FILE_BYTES && Find(m.table, name) == MAX_FILES
    ensures InstallWrites(m, name, data) == DoWrite(m, name, data).writes
  {
    assert Clip(data) == data;
    if FreeInode(m.table) < MAX_FILES {
      AddedState(m, name, |data|);
    }
  }

  lemma InstallIsUpdate(m: Mem, name: seq<Byte>, data: seq<Byte>)
    requires Good(m) && |data| <= FILE_BYTES && Find(m.table, name) < MAX_FILES
    ensures GoodInode(m.table[Find(m.table, name)])
    ensures InstallWrites(m, name, data) == DataWrites(m.table[Find(m.table, name)].slot, Buffer(data)) + Flush(m)
  {
  }

  lemma PackedUpdate(inodes: seq<Entry>, i: nat, e: Entry)
    requires |inodes| == MAX_FILES && i < MAX_FILES
    ensures Packed(inodes[i := e]) == Packed(inodes)[i := ToInode(e)]
  {
  }

  // Sector 0 is not among the data and table sectors.
  lemma SuperKept(d: Disk, slot: nat, buf: seq<Byte>, t: Table)
    requires slot < MAX_FILES && |buf| == FILE_BYTES && Padded(t)
    ensures OnDisk(DataWrites(slot, buf), d) && OnDisk(TableWrites(t), d)
    ensures Apply(Apply(d, DataWrites(slot, buf)), TableWrites(t))[0] == d[0]
  {
    ApplyConsecutive(d, DataWrites(slot, buf), DATA_SECTOR + slot * SLOT_SECTORS);
    ApplyConsecutive(Apply(d, DataWrites(slot, buf)), TableWrites(t), INODE_SECTOR);
  }

  // The three writing steps at the end of install_app
  method WriteImage(f: ImageFile, slot: nat, data: seq<Byte>, entries: seq<Entry>, count: U32, ghost p: Plan)
    requires f.Valid() && slot < MAX_FILES && |data| <= FILE_BYTES && |entries| == MAX_FILES && AsciiEntries(entries)
    requires |p.mem.super.rest| == 500 && Padded(p.mem.table)
    requires slot == p.slot && Packed(entries) == p.mem.table
    requires DecodeSuper(f.Image()[0]).(nfiles := count) == p.mem.super
    modifies f, f.sectors
    ensures f.Wrote(old(f.Image()), old(f.log), DataWrites(slot, Buffer(data)) + Flush(p.mem))
  {
    ghost var d, log0, m' := f.Image(), f.log, p.mem;
    ghost var dw, tw := DataWrites(slot, Buffer(data)), TableWrites(m'.table);
    SuperKept(d, slot, Buffer(data), m'.table);
    var padded := data + Zeros(FILE_BYTES - |data|);
    WriteData(f, slot, padded);
    WriteInodes(f, entries);
    WriteSuper(f, count);
    ApplyConcat(Apply(d, dw), tw, [SuperWrite(m'.super)]);
    ApplyConcat(d, dw, Flush(m'));
    assert f.log == log0 + (dw + Flush(m'));
  }

  // An image in the kernel's own format, with room in the 32 bits of the counter
  ghost predicate Installable(m: Mem) {
    Good(m) && CanonicalTable(m.table) && m.super.nfiles + 1 < WORD
  }

  /** On an image in the kernel's own format the installer issues exactly the sector writes that
      `diskfs_write` would, except that updating a name leaves its size field alone. */
  method InstallApp(f: ImageFile, name: seq<Byte>, data: seq<Byte>) returns (ok: bool)
    requires f.Valid() && Ascii(name)
    requires Mount(f.Image()).super.magic == MAGIC ==> Installable(Mount(f.Image()))
    modifies f, f.sectors
    ensures var m := Mount(old(f.Image()));
      && (m.super.magic != MAGIC ==> !ok && f.Wrote(old(f.Image()), old(f.log), []))
      && (m.super.magic == MAGIC ==> f.Wrote(old(f.Image()), old(f.log), InstallWrites(m, name, data)))
      && (m.super.magic == MAGIC ==>
          (ok <==> |data| <= FILE_BYTES && PlanFor(m, name, |data|).ok))
  {
    f.WroteNothing();
    if |data| > FILE_BYTES { return false; }
    var b := f.ReadSector(0);
    if FromLe32(b[..4]) != MAGIC { return false; }
    ghost var m := Mount(f.Image());
    CanonicalAscii(m.table);
    var inodes := ReadInodes(f);
    ReadMirrors(inodes, m.table);
    ok := InstallFormatted(f, name, data, inodes, FromLe32(b[8..12]), m);
  }

  method InstallFormatted(f: ImageFile, name: seq<Byte>, data: seq<Byte>, inodes: seq<Entry>, nfiles: U32, ghost m: Mem)
    returns (ok: bool)
    requires f.Valid() && |data| <= FILE_BYTES && Ascii(name) && AsciiEntries(inodes)
    requires Good(m) && Mirrors(inodes, m.table) && Packed(inodes) == m.table
    requires DecodeSuper(f.Image()[0]) == m.super && nfiles == m.super.nfiles < 0xFFFF_FFFF
    modifies f, f.sectors
    ensures f.Wrote(old(f.Image()), old(f.log), InstallWrites(m, name, data))
    ensures ok == PlanFor(m, name, |data|).ok
  {
    ghost var p := PlanFor(m, name, |data|);
    PlanWrites(m, name, data);
    var slot, entries, count;
    ok, slot, entries, count := Place(inodes, nfiles, name, |data|, m);
    if !ok {
      f.WroteNothing();
      return;
    }
    WriteImage(f, slot, data, entries, count, p);
  }

  lemma PlanWrites(m: Mem, name: seq<Byte>, data: seq<Byte>)
    requires Good(m) && |data| <= FILE_BYTES
    ensures var p := PlanFor(m, name, |data|);
      InstallWrites(m, name, data) == if p.ok then DataWrites(p.slot, Buffer(data)) + Flush(p.mem) else []
  {
  }

  // The slot to use, the new list and the new count
  method Place(inodes: seq<Entry>, nfiles: U32, name: seq<Byte>, size: U32, ghost m: Mem)
    returns (ok: bool, slot: nat, entries: seq<Entry>, count: U32)
    requires Good(m) && Mirrors(inodes, m.table) && Packed(inodes) == m.table
    requires nfiles == m.super.nfiles < 0xFFFF_FFFF && size <= FILE_BYTES && Ascii(name) && AsciiEntries(inodes)
    ensures |entries| == MAX_FILES && AsciiEntries(entries)
    ensures var p := PlanFor(m, name, size);
      ok == p.ok && slot == p.slot && m.super.(nfiles := count) == p.mem.super && Packed(entries) == p.mem.table
  {
    entries, count, slot := inodes, nfiles, 0;
    var existing := FindExisting(inodes, name, m.table);
    if existing >= 0 {
      assert GoodInode(m.table[existing]);
      return true, inodes[existing].slot, inodes, nfiles;
    }
    var idx := FindFreeInode(inodes, m.table);
    var s := FindFreeSlot(inodes, m.table);
    if idx >= 0 { AddedState(m, name, size); }
    if idx < 0 || s < 0 {
      return false, 0, inodes, nfiles;
    }
    ok, slot := true, s;
    entries := inodes[idx := Entry(name, size, s, 1)];
    PackedUpdate(inodes, idx, Entry(name, size, s, 1));
    count := nfiles + 1;
  }

  // ----- The two programs agree -----

  /** After installing a new app, the kernel mounts an image whose file map is the earlier one with
      the app added, byte for byte. */
  lemma InstalledIsMounted(d: Disk, name: seq<Byte>, data: seq<Byte>)
    requires Good(Mount(d)) && 0 !in name && |name| < NAME_MAX && |data| <= FILE_BYTES
    requires Find(Mount(d).table, name) == MAX_FILES && FreeInode(Mount(d).table) < MAX_FILES
    ensures var ws := InstallWrites(Mount(d), name, data);
      && OnDisk(ws, d)
      && Mounts(Apply(d, ws), Files(Mount(d).table, d)[name := data])
  {
    var m := Mount(d);
    MountSynced(d);
    WriteDone(m, d, name, data);
    FilesAt(m.table, d, name);
    InstallIsWrite(m, name, data);
    Remount(DoWrite(m, name, data).mem, Apply(d, DoWrite(m, name, data).writes));
  }

  /** Updating an installed app keeps the old size field: the kernel then reads the new bytes cut or
      padded with zeros to the old length, which is the new app exactly when the lengths agree. */
  lemma UpdatedIsMounted(d: Disk, name: seq<Byte>, data: seq<Byte>)
    requires Good(Mount(d)) && |data| <= FILE_BYTES && Find(Mount(d).table, name) < MAX_FILES
    ensures var m := Mount(d);
      var ws := InstallWrites(m, name, data);
      var size := m.table[Find(m.table, name)].size;
      && OnDisk(ws, d) && size <= FILE_BYTES
      && Mounts(Apply(d, ws), Files(m.table, d)[name := Buffer(data)[..size]])
      && (Buffer(data)[..size] == data <==> size == |data|)
  {
    var m := Mount(d);
    var i := Find(m.table, name);
    var dw := DataWrites(m.table[i].slot, Buffer(data));
    MountSynced(d);
    InstallIsUpdate(m, name, data);
    UpdatedData(m, d, i, data);
    UpdateKeeps(m, d, dw);
  }

  lemma UpdateKeeps(m: Mem, d: Disk, dw: seq<SectorWrite>)
    requires |m.super.rest| == 500 && Padded(m.table) && OnDisk(dw, d) && Synced(m, Apply(d, dw))
    ensures OnDisk(dw + Flush(m), d) && Apply(d, dw + Flush(m)) == Apply(d, dw)
  {
    FlushOnDisk(m, d);
    ApplyConcat(d, dw, Flush(m));
    SameFlush(m, Apply(d, dw));
  }

  lemma UpdatedData(m: Mem, d: Disk, i: nat, data: seq<Byte>)
    requires Good(m) && Synced(m, d) && |data| <= FILE_BYTES
    requires i < MAX_FILES && m.table[i].used != 0 && i == Find(m.table, CStr(m.table[i].name))
    ensures GoodInode(m.table[i])
    ensures var dw := DataWrites(m.table[i].slot, Buffer(data));
      && OnDisk(dw, d) && Synced(m, Apply(d, dw))
      && Mounts(Apply(d, dw), Files(m.table, d)[CStr(m.table[i].name) := Buffer(data)[..m.table[i].size]])
  {
    var dw := DataWrites(m.table[i].slot, Buffer(data));
    assert dw[..SLOT_SECTORS] == dw;
    DataWritten(d, m.table[i].slot, Buffer(data));
    OwnSlotCut(m, d, i, Buffer(data), SLOT_SECTORS);
  }

  // Flushing what the disk already holds changes nothing.
  lemma SameFlush(m: Mem, d: Disk)
    requires |m.super.rest| == 500 && Padded(m.table) && Synced(m, d)
    ensures OnDisk(Flush(m), d) && Apply(d, Flush(m)) == d
  {
    FlushWhole(m, d);
    FlushedSynced(m, d, Apply(d, Flush(m)));
    SyncedSame(m, d, Apply(d, Flush(m)));
  }

  lemma FlushWhole(m: Mem, d: Disk)
    requires |m.super.rest| == 500 && Padded(m.table)
    ensures OnDisk(Flush(m), d) && Flushed(m, d, Apply(d, Flush(m)), 5)
  {
    FlushOnDisk(m, d);
    var ws := Flush(m);
    assert ws[..5] == ws;
    FlushSectors(m, d, 5);
  }

  lemma FlushedSynced(m: Mem, d: Disk, d': Disk)
    requires |m.super.rest| == 500 && Padded(m.table) && Flushed(m, d, d', 5)
    ensures Synced(m, d') && |d'| == |d| && forall j :: DATA_SECTOR <= j < |d| ==> d'[j] == d[j]
  {
    assert d'[1] == TableSector(m.table, 0);
  }

  // Memory fixes the sectors before the data.
  lemma SyncedSame(m: Mem, d: Disk, d': Disk)
    requires |m.super.rest| == 500 && Padded(m.table) && Synced(m, d) && Synced(m, d')
    requires |d'| == |d| && forall j :: DATA_SECTOR <= j < |d| ==> d'[j] == d[j]
    ensures d' == d
  {
    assert d'[0] == d[0] && d'[1] == d[1] && d'[2] == d[2] && d'[3] == d[3] && d'[4] == d[4];
  }

  lemma CanonicalInodes(n: Inode, name: seq<Byte>, size: U32, slot: U32)
    requires Canonical(n) && 0 !in name && Ascii(name)
    ensures Canonical(NewInode(name, size, slot)) && Canonical(Blank) && Canonical(n.(size := size))
  {
    CanonicalNew(name, size, slot);
    CanonicalBlank();
  }

  lemma CanonicalNew(name: seq<Byte>, size: U32, slot: U32)
    requires 0 !in name && Ascii(name)
    ensures Canonical(NewInode(name, size, slot))
  {
    NameFieldCodec(name);
    if |name| >= NAME_MAX {
      assert NameField(name[..NAME_MAX - 1]) == NameField(name);
    }
  }

  lemma CanonicalBlank()
    ensures Canonical(Blank)
  {
    NameFieldCodec([]);
    assert NameField([]) == Zeros(48);
  }

  lemma CanonicalUpdate(t: Table, i: nat, n: Inode)
    requires CanonicalTable(t) && i < MAX_FILES && Canonical(n)
    ensures CanonicalTable(t[i := n])
  {
  }

  // What a write and a delete make of the table
  lemma TableAfter(m: Mem, name: seq<Byte>, data: seq<Byte>)
    requires Good(m)
    ensures var t, i, j, size := m.table, Find(m.table, name), FreeInode(m.table), |Clip(data)|;
      var t' := DoWrite(m, name, data).mem.table;
      && (i < MAX_FILES ==> t' == t[i := t[i].(size := size)] && DoDelete(m, name).mem.table == t[i := Blank])
      && (i == MAX_FILES ==> DoDelete(m, name).mem.table == t)
      && (i == MAX_FILES ==> t' == t || (j < MAX_FILES && t' == t[j := NewInode(name, size, FreeSlot(t))]))
  {
  }

  /** The kernel keeps its tables in the format this tool reads. */
  lemma CanonicalKept(m: Mem, name: seq<Byte>, data: seq<Byte>)
    requires Good(m) && CanonicalTable(m.table) && 0 !in name && Ascii(name)
    ensures CanonicalTable(DoWrite(m, name, data).mem.table)
    ensures CanonicalTable(DoDelete(m, name).mem.table)
  {
    var t, i, j, size := m.table, Find(m.table, name), FreeInode(m.table), |Clip(data)|;
    TableAfter(m, name, data);
    if i < MAX_FILES {
      CanonicalInodes(t[i], name, size, 0);
      CanonicalUpdate(t, i, t[i].(size := size));
      CanonicalUpdate(t, i, Blank);
    } else if j < MAX_FILES {
      CanonicalInodes(t[j], name, size, FreeSlot(t));
      CanonicalUpdate(t, j, NewInode(name, size, FreeSlot(t)));
    }
  }

  lemma FreshCanonical()
    ensures CanonicalTable(FreshTable)
  {
    NameFieldCodec([]);
    assert NameField([]) == Zeros(48);
  }

  predicate AsciiOps(ops: seq<Op>) { forall i :: 0 <= i < |ops| ==> 0 !in ops[i].name && Ascii(ops[i].name) }

  lemma CanonicalAfter(d: Disk, op: Op)
    requires Sound(d) && Usable(op) && CanonicalTable(Mount(d).table) && 0 !in op.name && Ascii(op.name)
    ensures CanonicalTable(Mount(After(d, op)).table)
  {
    IssuedMount(d, op);
    CanonicalKept(Mount(d), op.name, if op.Put? then op.data else []);
  }

  lemma {:induction false} CanonicalRun(d: Disk, ops: seq<Op>)
    requires Sound(d) && AllUsable(ops) && AsciiOps(ops) && CanonicalTable(Mount(d).table)
    ensures CanonicalTable(Mount(RunDisk(d, ops)).table)
    decreases |ops|
  {
    if |ops| > 0 {
      CanonicalAfter(d, ops[0]);
      CanonicalRun(After(d, ops[0]), ops[1..]);
      RunStep(d, ops);
    }
  }

  /** Every disk that the kernel formatted and used, with power cuts anywhere, is one that the
      installer can work on. */
  lemma KernelDiskInstallable(d: Disk, ops: seq<Op>)
    requires Formatted(d) && AllUsable(ops) && AsciiOps(ops) && |ops| < 0xFFFF_FFFF
    ensures Sound(d) && Installable(Mount(RunDisk(d, ops)))
  {
    FormattedSound(d);
    FreshCanonical();
    assert Mount(d).table == FreshTable;
    CanonicalRun(d, ops);
    RunCount(d, ops);
  }
}
