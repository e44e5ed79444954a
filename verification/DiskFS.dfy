/**
 DiskFS on an ATA disk (fs/diskfs.c), with `super` and `inodes` updated in place.

 The disk is an array of sectors (drivers/ata.c transfers whole sectors, in order); `log` records
 every sector write. Each method is one call of `DiskOps` and says what happens to the file map.
 */
module KernelDiskFS {
  import opened Word32
  import opened DiskLayout
  import opened DiskModel
  import opened DiskOps
  import opened DiskCrash
  import opened DiskRun

  class AtaDisk {
    const sectors: array<Sector>
    const present: bool
    ghost var log: seq<SectorWrite>

    ghost predicate Valid() { sectors.Length >= DISK_SECTORS }

    function Image(): Disk
      requires Valid()
      reads sectors
    {
      sectors[..]
    }

    constructor (image: Disk, present: bool)
      ensures Valid() && Image() == image && this.present == present && fresh(sectors) && log == []
    {
      sectors := new Sector[|image|](i requires 0 <= i < |image| => image[i]);
      this.present := present;
      log := [];
      new;
      assert sectors[..] == image;
    }

    // ata_read of one sector after the other
    method Read(lba: nat, count: nat) returns (data: seq<Sector>)
      requires Valid() && lba + count <= sectors.Length
      ensures data == Image()[lba..lba + count]
    {
      data := [];
      var s := 0;
      while s < count
        invariant 0 <= s <= count && data == sectors[lba..lba + s]
      {
        data := data + [sectors[lba + s]];
        s := s + 1;
      }
    }

    // ata_write of one sector after the other
    method Write(lba: nat, data: seq<Sector>, ghost ws: seq<SectorWrite>)
      requires Valid() && lba + |data| <= sectors.Length
      requires |ws| == |data| && forall k :: 0 <= k < |ws| ==> ws[k] == SectorWrite(lba + k, data[k])
      modifies this, sectors
      ensures OnDisk(ws, old(Image())) && Image() == Apply(old(Image()), ws) && log == old(log) + ws
    {
      var s := 0;
      ghost var image := Image();
      assert ws[..0] == [];
      while s < |data|
        invariant 0 <= s <= |data| && OnDisk(ws, image)
        invariant Image() == Apply(image, ws[..s]) && log == old(log) + ws[..s]
      {
        ApplyStep(image, ws, s);
        sectors[lba + s] := data[s];
        log := log + [ws[s]];
        s := s + 1;
      }
      assert ws[..s] == ws;
    }
  }

  // strcmp on NUL-terminated names
  predicate SameName(field: RawName, name: seq<Byte>) { CStr(field) == name }

  class DiskFS {
    const disk: AtaDisk
    const inodes: array<Inode>
    var super: Super
    var ready: bool

    ghost predicate Valid()
      reads this, inodes, disk.sectors
    {
      && disk.Valid() && inodes.Length == MAX_FILES
      && |super.rest| == 500 && Padded(inodes[..])
      && (ready ==> Good(State()) && Synced(State(), disk.Image()))
    }

    function State(): Mem
      requires inodes.Length == MAX_FILES
      reads this, inodes
    {
      Mem(super, inodes[..])
    }

    // The file map a client sees
    ghost function View(): map<seq<Byte>, seq<Byte>>
      requires Valid() && ready
      reads this, inodes, disk.sectors
    {
      Files(inodes[..], disk.Image())
    }

    constructor (disk: AtaDisk)
      requires disk.Valid()
      ensures Valid() && this.disk == disk && !ready && fresh(inodes)
    {
      this.disk := disk;
      super := Super(0, 0, 0, Zeros(500));
      inodes := new Inode[MAX_FILES](_ => Blank);
      ready := false;
    }

    method WriteInodes()
      requires disk.Valid() && inodes.Length == MAX_FILES && Padded(inodes[..])
      modifies disk, disk.sectors
      ensures OnDisk(TableWrites(inodes[..]), old(disk.Image()))
      ensures disk.Image() == Apply(old(disk.Image()), TableWrites(inodes[..]))
      ensures disk.log == old(disk.log) + TableWrites(inodes[..])
    {
      var t := inodes[..];
      disk.Write(INODE_SECTOR, TableSectors(t), TableWrites(t));
    }

    method WriteSuper()
      requires disk.Valid() && |super.rest| == 500
      modifies disk, disk.sectors
      ensures OnDisk([SuperWrite(super)], old(disk.Image()))
      ensures disk.Image() == Apply(old(disk.Image()), [SuperWrite(super)])
      ensures disk.log == old(disk.log) + [SuperWrite(super)]
    {
      disk.Write(0, [EncodeSuper(super)], [SuperWrite(super)]);
    }

    method FindInode(name: seq<Byte>) returns (idx: int)
      requires inodes.Length == MAX_FILES
      ensures idx == if Find(inodes[..], name) < MAX_FILES then Find(inodes[..], name) else -1
    {
      ghost var t := inodes[..];
      var i := 0;
      while i < MAX_FILES
        invariant 0 <= i <= MAX_FILES
        invariant forall k :: 0 <= k < i ==> !IsFile(t[k], name)
      {
        if inodes[i].used != 0 && SameName(inodes[i].name, name) {
          assert IsFile(t[i], name);
          return i;
        }
        assert t[i] == inodes[i];
        i := i + 1;
      }
      return -1;
    }

    method AllocInode() returns (idx: int)
      requires inodes.Length == MAX_FILES
      ensures idx == if FreeInode(inodes[..]) < MAX_FILES then FreeInode(inodes[..]) else -1
    {
      ghost var t := inodes[..];
      var i := 0;
      while i < MAX_FILES
        invariant 0 <= i <= MAX_FILES
        invariant forall k :: 0 <= k < i ==> t[k].used != 0
      {
        if inodes[i].used == 0 {
          assert t[i].used == 0;
          return i;
        }
        i := i + 1;
      }
      return -1;
    }

    method AllocSlot() returns (slot: int)
      requires inodes.Length == MAX_FILES && GoodTable(inodes[..])
      ensures slot == if FreeSlot(inodes[..]) < MAX_FILES then FreeSlot(inodes[..]) else -1
    {
      ghost var t: Table := inodes[..];
      var used := new bool[MAX_FILES](_ => false);
      var i := 0;
      while i < MAX_FILES
        invariant 0 <= i <= MAX_FILES && inodes[..] == t
        invariant forall s :: 0 <= s < MAX_FILES ==>
          (used[s] <==> exists k :: 0 <= k < i && t[k].used != 0 && t[k].slot == s)
      {
        assert GoodInode(t[i]);
        if inodes[i].used != 0 { used[inodes[i].slot] := true; }
        i := i + 1;
      }
      assert forall s :: 0 <= s < MAX_FILES ==> (used[s] <==> SlotTaken(t, s));
      i := 0;
      while i < MAX_FILES
        invariant 0 <= i <= MAX_FILES
        invariant forall s :: 0 <= s < i ==> SlotTaken(t, s)
      {
        if !used[i] {
          assert !SlotTaken(t, i);
          return i;
        }
        i := i + 1;
      }
      return -1;
    }

    method Format() returns (ret: int)
      requires disk.Valid() && inodes.Length == MAX_FILES && |super.rest| == 500 && Padded(inodes[..])
      modifies this, inodes, disk, disk.sectors
      ensures Valid() && ready && ret == 0 && View() == map[]
      ensures State() == Mem(FreshSuper, FreshTable)
    {
      ghost var d := disk.Image();
      super := FreshSuper;
      WriteSuper();
      forall i | 0 <= i < MAX_FILES { inodes[i] := Blank; }
      assert inodes[..] == FreshTable;
      WriteInodes();
      FormatDone(d);
      ApplyConcat(d, [SuperWrite(super)], TableWrites(FreshTable));
      ready := true;
      return 0;
    }

    // Mounts a disk that this file system wrote; formats any other.
    method Init() returns (ret: int)
      requires Valid()
      requires Mount(disk.Image()).super.magic == MAGIC ==> Good(Mount(disk.Image()))
      modifies this, inodes, disk, disk.sectors
      ensures Valid()
      ensures ret == if disk.present then 0 else -1
      ensures !disk.present ==> State() == old(State()) && disk.Image() == old(disk.Image())
      ensures var m := Mount(old(disk.Image()));
        disk.present ==>
          (ready &&
           if m.super.magic == MAGIC then
             State() == m && disk.Image() == old(disk.Image()) && View() == Files(m.table, disk.Image())
           else View() == map[])
    {
      if !disk.present { return -1; }
      var b := disk.Read(0, 1);
      super := DecodeSuper(b[0]);
      if super.magic != MAGIC {
        ret := Format();
        return;
      }
      b := disk.Read(INODE_SECTOR, 4);
      assert b == InodeSectors(disk.Image());
      var t := TableFrom(b);
      forall i | 0 <= i < MAX_FILES { inodes[i] := t[i]; }
      assert inodes[..] == t;
      MountSynced(disk.Image());
      ready := true;
      return 0;
    }

    // Data, then inodes, then the superblock: the order the crash theorems rest on
    method WriteOut(slot: nat, bytes: seq<Byte>)
      requires disk.Valid() && inodes.Length == MAX_FILES && Padded(inodes[..]) && |super.rest| == 500
      requires slot < MAX_FILES && |bytes| <= FILE_BYTES
      modifies disk, disk.sectors
      ensures var ws := DataWrites(slot, Buffer(bytes)) + Flush(State());
        && OnDisk(ws, old(disk.Image()))
        && disk.Image() == Apply(old(disk.Image()), ws)
        && disk.log == old(disk.log) + ws
    {
      ghost var d := disk.Image();
      var buf := Buffer(bytes);
      var data := seq<Sector>(SLOT_SECTORS, k requires 0 <= k < SLOT_SECTORS => BufSector(buf, k));
      ghost var dw := DataWrites(slot, buf);
      disk.Write(DATA_SECTOR + slot * SLOT_SECTORS, data, dw);
      ghost var d1 := disk.Image();
      WriteInodes();
      ghost var d2 := disk.Image();
      WriteSuper();
      ApplyConcat(d1, TableWrites(inodes[..]), [SuperWrite(super)]);
      ApplyConcat(d, dw, Flush(State()));
    }

    // A new file's inode: name, mark and slot, and one more file in the count
    method Enter(name: seq<Byte>) returns (idx: int)
      requires Valid() && ready && 0 !in name && Find(inodes[..], name) == MAX_FILES
      modifies `super, inodes
      ensures var m, i := old(State()), FreeInode(old(inodes[..]));
        && (i == MAX_FILES ==> idx == -1 && State() == m)
        && (i < MAX_FILES ==> idx == i && FreeSlot(m.table) < MAX_FILES &&
                              State() == Added(m, i, name, 0, FreeSlot(m.table)))
    {
      ghost var t := inodes[..];
      idx := AllocInode();
      if idx < 0 { return -1; }
      FreeSlotExists(t);
      var slot := AllocSlot();
      if slot < 0 { return -1; }
      inodes[idx] := Blank;
      inodes[idx] := inodes[idx].(name := NameField(name));
      inodes[idx] := inodes[idx].(used := 1);
      inodes[idx] := inodes[idx].(slot := slot);
      super := super.(nfiles := (super.nfiles + 1) % WORD);
      assert inodes[..] == t[idx := NewInode(name, 0, slot)];
    }

    // The inode that the data goes to, with its size set; -1 when there is no room
    method Prepare(name: seq<Byte>, size: U32) returns (idx: int)
      requires Valid() && ready && 0 !in name
      modifies `super, inodes
      ensures idx == Target(old(inodes[..]), name)
      ensures idx == -1 ==> State() == old(State())
      ensures idx != -1 ==> 0 <= idx < MAX_FILES && State() == Prepared(old(State()), idx, name, size)
    {
      ghost var m := State();
      idx := FindInode(name);
      if idx < 0 {
        idx := Enter(name);
        if idx < 0 { return -1; }
      }
      ghost var t := inodes[..];
      inodes[idx] := inodes[idx].(size := size);
      assert inodes[..] == t[idx := t[idx].(size := size)];
    }

    method Write(name: seq<Byte>, data: seq<Byte>) returns (ret: int)
      requires Valid() && 0 !in name
      modifies this, inodes, disk, disk.sectors
      ensures Valid() && ready == old(ready)
      ensures !ready ==> ret == -1 && State() == old(State()) && disk.Image() == old(disk.Image())
      ensures ready ==> Performed(old(State()), old(disk.Image()), old(disk.log), DoWrite(old(State()), name, data),
          ret)
      ensures ready && |name| < NAME_MAX ==> View() == if ret == -1 then old(View())
          else old(View())[name := Clip(data)]
      ensures ready && |name| < NAME_MAX ==>
          (ret == -1 <==> name !in old(View()) && FreeInode(old(inodes[..])) == MAX_FILES)
    {
      if !ready { return -1; }
      WriteGood(State(), disk.Image(), name, data);
      if |name| < NAME_MAX { WriteDone(State(), disk.Image(), name, data); }
      ret := WriteReady(name, data);
    }

    method WriteReady(name: seq<Byte>, data: seq<Byte>) returns (ret: int)
      requires Valid() && ready && 0 !in name
      modifies `super, inodes, disk, disk.sectors
      ensures Performed(old(State()), old(disk.Image()), old(disk.log), DoWrite(old(State()), name, data), ret)
    {
      ghost var m, d := State(), disk.Image();
      WritePrepared(m, name, data);
      var bytes := Clip(data);
      var idx := Prepare(name, |bytes|);
      if idx < 0 { assert Apply(d, []) == d; return -1; }
      WriteOut(inodes[idx].slot, bytes);
      return |bytes|;
    }

    // The call had exactly the effect of the outcome o on memory and on the disk.
    ghost predicate Performed(m: Mem, d: Disk, log: seq<SectorWrite>, o: Outcome, ret: int)
      requires disk.Valid() && inodes.Length == MAX_FILES
      reads this, inodes, disk, disk.sectors
    {
      && State() == o.mem && ret == o.ret
      && OnDisk(o.writes, d) && disk.Image() == Apply(d, o.writes) && disk.log == log + o.writes
    }

    method Delete(name: seq<Byte>) returns (ret: int)
      requires Valid()
      modifies this, inodes, disk, disk.sectors
      ensures Valid() && ready == old(ready)
      ensures !ready ==> ret == -1 && State() == old(State()) && disk.Image() == old(disk.Image())
      ensures ready ==> Performed(old(State()), old(disk.Image()), old(disk.log), DoDelete(old(State()), name), ret)
      ensures ready && old(DistinctNames(inodes[..])) ==>
        View() == old(View()) - {name} && (ret == 0 <==> name in old(View()))
    {
      if !ready { return -1; }
      DeleteGood(State(), disk.Image(), name);
      if DistinctNames(inodes[..]) { DeleteDone(State(), disk.Image(), name); }
      ret := DeleteReady(name);
    }

    method DeleteReady(name: seq<Byte>) returns (ret: int)
      requires Valid() && ready
      modifies `super, inodes, disk, disk.sectors
      ensures Performed(old(State()), old(disk.Image()), old(disk.log), DoDelete(old(State()), name), ret)
    {
      ghost var t, d := inodes[..], disk.Image();
      var idx := FindInode(name);
      if idx < 0 { assert Apply(d, []) == d; return -1; }
      inodes[idx] := Blank;
      if super.nfiles > 0 { super := super.(nfiles := super.nfiles - 1); }
      assert inodes[..] == t[idx := Blank];
      FlushAll();
      return 0;
    }

    method FlushAll()
      requires disk.Valid() && inodes.Length == MAX_FILES && Padded(inodes[..]) && |super.rest| == 500
      modifies disk, disk.sectors
      ensures OnDisk(Flush(State()), old(disk.Image()))
      ensures disk.Image() == Apply(old(disk.Image()), Flush(State()))
      ensures disk.log == old(disk.log) + Flush(State())
    {
      ghost var d := disk.Image();
      WriteInodes();
      WriteSuper();
      ApplyConcat(d, TableWrites(inodes[..]), [SuperWrite(super)]);
    }

    method Read(name: seq<Byte>, maxSize: nat) returns (ret: int, buf: seq<Byte>)
      requires Valid()
      ensures !ready || name !in View() ==> ret == -1 && buf == []
      ensures ready && name in View() ==> ret == |buf| && buf == Cut(View()[name], maxSize)
    {
      if !ready { return -1, []; }
      FilesAt(inodes[..], disk.Image(), name);
      var idx := FindInode(name);
      if idx < 0 { return -1, []; }
      assert GoodInode(inodes[..][idx]);
      buf := ReadInode(idx, maxSize);
      return |buf|, buf;
    }

    method ReadInode(idx: nat, maxSize: nat) returns (buf: seq<Byte>)
      requires disk.Valid() && inodes.Length == MAX_FILES && idx < MAX_FILES
      requires inodes[idx].slot < MAX_FILES && inodes[idx].size <= FILE_BYTES
      ensures buf == Cut(Contents(disk.Image(), inodes[idx]), maxSize)
    {
      ghost var bytes := SlotBytes(disk.Image(), inodes[idx].slot);
      var tmp := disk.Read(DATA_SECTOR + inodes[idx].slot * SLOT_SECTORS, SLOT_SECTORS);
      var n := if inodes[idx].size < maxSize then inodes[idx].size as int else maxSize;
      buf := CopyOut(tmp, n);
      assert buf == bytes[..n];
    }

    // memcpy out of the 8 sectors
    method CopyOut(tmp: seq<Sector>, n: nat) returns (buf: seq<Byte>)
      requires |tmp| == SLOT_SECTORS && n <= FILE_BYTES
      ensures |buf| == n && forall p :: 0 <= p < n ==> buf[p] == tmp[p / 512][p % 512]
    {
      buf := seq(n, p requires 0 <= p < n => tmp[p / 512][p % 512]);
    }
  }

  /** A reboot after one call, complete or cut anywhere: diskfs_init mounts the disk, and the files are
      exactly what the call left. */
  method Reboot(image: Disk, ghost d: Disk, ghost op: Op) returns (fs: DiskFS)
    requires Sound(d) && Usable(op) && image == After(d, op)
    ensures fresh(fs) && fs.Valid() && fs.ready && fs.View() == FilesOf(image)
    ensures fs.View() == Effect(FilesOf(d), Find(Mount(d).table, op.name), FreeInode(Mount(d).table), op)
  {
    var disk := new AtaDisk(image, true);
    fs := new DiskFS(disk);
    var r := fs.Init();
    OneEffect(d, op);
  }

  // The file map after a write: one key, unless the name is new and the table full
  ghost predicate PutOrFull(before: map<seq<Byte>, seq<Byte>>, t: Table, name: seq<Byte>, data: seq<Byte>,
                            after: map<seq<Byte>, seq<Byte>>)
  {
    after == if name !in before && FreeInode(t) == MAX_FILES then before else before[name := Clip(data)]
  }

  function Cut(b: seq<Byte>, n: nat): (r: seq<Byte>)
    ensures |b| <= n ==> r == b
    ensures |b| > n ==> r == b[..n]
  {
    if |b| < n then b else b[..n]
  }

  // Where a write of `name` goes: its inode, else the first unused one, else -1
  function Target(t: Table, name: seq<Byte>): int {
    if Find(t, name) < MAX_FILES then Find(t, name)
    else if FreeInode(t) < MAX_FILES then FreeInode(t)
    else -1
  }

  ghost function Prepared(m: Mem, i: nat, name: seq<Byte>, size: U32): Mem
    requires Good(m) && i < MAX_FILES && i == Target(m.table, name)
  {
    if Find(m.table, name) < MAX_FILES then m.(table := m.table[i := m.table[i].(size := size)])
    else
      FreeSlotExists(m.table);
      Added(m, i, name, size, FreeSlot(m.table))
  }

  lemma WritePrepared(m: Mem, name: seq<Byte>, data: seq<Byte>)
    requires Good(m)
    ensures var o, i, bytes := DoWrite(m, name, data), Target(m.table, name), Clip(data);
      if i == -1 then o == Outcome(m, [], -1)
      else
        var m' := Prepared(m, i, name, |bytes|);
        m'.table[i].slot < MAX_FILES && Padded(m'.table) && |m'.super.rest| == 500 &&
        o == Outcome(m', DataWrites(m'.table[i].slot, Buffer(bytes)) + Flush(m'), |bytes|)
  {
    if Find(m.table, name) == MAX_FILES && FreeInode(m.table) < MAX_FILES {
      FreeSlotExists(m.table);
    }
  }
}
