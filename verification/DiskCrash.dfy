/**
 DiskFS calls on the disk itself: complete, and cut short by a power failure between two sectors
 (fs/diskfs.c:49-60, 88-144).
 */
module DiskCrash {
  import opened DiskLayout
  import opened DiskModel
  import opened DiskOps

  // ----- Mounting -----

  // What diskfs_init loads from a formatted disk
  function Mount(d: Disk): (m: Mem)
    ensures |m.super.rest| == 500 && Padded(m.table)
  {
    Mem(DecodeSuper(d[0]), TableFrom(InodeSectors(d)))
  }

  // A later diskfs_init finds a formatted disk with exactly these files.
  ghost predicate Mounts(d: Disk, files: map<seq<Byte>, seq<Byte>>) {
    Good(Mount(d)) && Files(Mount(d).table, d) == files
  }

  /** A mount after a completed call finds the state the kernel had in memory. */
  lemma Remount(m: Mem, d: Disk)
    requires Good(m) && Synced(m, d)
    ensures Mount(d) == m && Mounts(d, Files(m.table, d))
  {
    SuperCodec(m.super);
    HeldTable(d, m.table);
  }

  /** A mounted table is in sync with its disk. */
  lemma MountSynced(d: Disk)
    ensures Synced(Mount(d), d)
  {
    SuperCodecBack(d[0]);
    TableHeld(d);
  }

  // ----- Part of a flush -----

  lemma FlushOnDisk(m: Mem, d: Disk)
    requires |m.super.rest| == 500 && Padded(m.table)
    ensures OnDisk(Flush(m), d) && |Flush(m)| == 5
  {
  }

  // What the first k writes of a flush leave on disk
  ghost predicate Flushed(m: Mem, d: Disk, d': Disk, k: nat)
    requires |m.super.rest| == 500 && Padded(m.table)
  {
    && |d'| == |d|
    && (forall j :: 1 <= j < 5 ==> d'[j] == if j - 1 < k then TableSector(m.table, j - 1) else d[j])
    && d'[0] == (if k == 5 then EncodeSuper(m.super) else d[0])
    && forall j :: DATA_SECTOR <= j < |d| ==> d'[j] == d[j]
  }

  lemma TableFlushed(m: Mem, d: Disk, k: nat)
    requires |m.super.rest| == 500 && Padded(m.table) && k <= 4
    ensures OnDisk(TableWrites(m.table)[..k], d)
    ensures Flushed(m, d, Apply(d, TableWrites(m.table)[..k]), k)
  {
    var tw := TableWrites(m.table);
    var d' := Apply(d, tw[..k]);
    forall j: nat | j < |d|
      ensures d'[j] == if 1 <= j < 1 + k then tw[j - 1].data else d[j]
    {
      ApplyPart(d, tw, INODE_SECTOR, k, j);
    }
  }

  lemma FlushSectors(m: Mem, d: Disk, k: nat)
    requires |m.super.rest| == 500 && Padded(m.table) && k <= 5
    ensures OnDisk(Flush(m)[..k], d)
    ensures Flushed(m, d, Apply(d, Flush(m)[..k]), k)
  {
    FlushOnDisk(m, d);
    var tw := TableWrites(m.table);
    if k <= 4 {
      assert Flush(m)[..k] == tw[..k];
      TableFlushed(m, d, k);
    } else {
      var ws := Flush(m)[..k];
      TableFlushed(m, d, 4);
      assert tw[..4] == tw && ws[..4] == tw && ws[4] == SuperWrite(m.super);
    }
  }

  // The two tables differ in one inode.
  ghost predicate OneInode(t: Table, t': Table, i: nat) {
    Padded(t) && Padded(t') && i < MAX_FILES && forall k :: 0 <= k < MAX_FILES && k != i ==> t'[k] == t[k]
  }

  // One sector of a flush: written or not, it is the same unless it holds the changed inode.
  lemma FlushSector(t: Table, t': Table, i: nat, s: nat, k: nat)
    requires OneInode(t, t', i) && s < 4
    ensures (if s < k then TableSector(t', s) else TableSector(t, s)) == TableSector(if i / 8 < k then t' else t, s)
  {
    if s != i / 8 {
      TableSectorLocal(t, t', s);
    }
  }

  /** The changed inode lies inside one sector, so the table on disk is always the old or the new
      one, never a mixture. */
  lemma FlushTable(m: Mem, m': Mem, d: Disk, d': Disk, i: nat, k: nat)
    requires |m'.super.rest| == 500 && OneInode(m.table, m'.table, i) && k <= 5
    requires Holds(d, m.table) && Flushed(m', d, d', k)
    ensures Holds(d', if i / 8 < k then m'.table else m.table)
  {
    FlushSector(m.table, m'.table, i, 0, k);
    FlushSector(m.table, m'.table, i, 1, k);
    FlushSector(m.table, m'.table, i, 2, k);
    FlushSector(m.table, m'.table, i, 3, k);
  }

  lemma SlotsKept(d: Disk, d': Disk)
    requires |d| == |d'| && forall j :: DATA_SECTOR <= j < |d| ==> d'[j] == d[j]
    ensures forall slot :: 0 <= slot < MAX_FILES ==> SlotBytes(d', slot) == SlotBytes(d, slot)
  {
    forall slot | 0 <= slot < MAX_FILES ensures SlotBytes(d', slot) == SlotBytes(d, slot) {
      SlotBytesFrame(d', d, slot);
    }
  }

  lemma MountsTable(m: Mem, d: Disk, d': Disk)
    requires GoodTable(m.table) && Holds(d', m.table)
    requires |d| == |d'| && forall j :: DATA_SECTOR <= j < |d| ==> d'[j] == d[j]
    requires DecodeSuper(d'[0]).magic == MAGIC
    ensures Mounts(d', Files(m.table, d))
  {
    HeldTable(d', m.table);
    SlotsKept(d, d');
    FilesFrame(m.table, d, d');
  }

  // A flush cut after k sectors mounts to the old or to the new table, with the data as it is.
  lemma FlushCut(m: Mem, m': Mem, d: Disk, i: nat, k: nat)
    requires Good(m) && Good(m') && OneInode(m.table, m'.table, i) && k <= 5
    requires Synced(m, d)
    ensures OnDisk(Flush(m')[..k], d)
    ensures var d' := Apply(d, Flush(m')[..k]);
      && (i / 8 >= k ==> Mounts(d', Files(m.table, d)))
      && (i / 8 < k ==> Mounts(d', Files(m'.table, d)))
      && (k == 5 ==> Synced(m', d'))
  {
    FlushSectors(m', d, k);
    var d' := Apply(d, Flush(m')[..k]);
    FlushTable(m, m', d, d', i, k);
    SuperCodec(m.super);
    SuperCodec(m'.super);
    MountsTable(if i / 8 < k then m' else m, d, d');
  }

  lemma SyncedFrame(m: Mem, d: Disk, d': Disk)
    requires |m.super.rest| == 500 && Padded(m.table) && Synced(m, d)
    requires forall j :: 0 <= j < DATA_SECTOR ==> d'[j] == d[j]
    ensures Synced(m, d')
  {
  }

  // ----- Delete -----

  /** diskfs_delete removes exactly the named file. A power cut at any sector boundary leaves the
      disk before or after the delete, depending on the one sector that holds the inode. */
  lemma DeleteCut(m: Mem, d: Disk, name: seq<Byte>, k: nat)
    requires Good(m) && DistinctNames(m.table) && Synced(m, d)
    requires k <= |DoDelete(m, name).writes|
    ensures var o := DoDelete(m, name);
      && OnDisk(o.writes, d) && OnDisk(o.writes[..k], d)
      && Good(o.mem) && DistinctNames(o.mem.table)
      && var d', files := Apply(d, o.writes[..k]), Files(m.table, d);
      && (o.ret == 0 <==> name in files) && (o.ret != 0 ==> o.ret == -1)
      && Mounts(d', if Find(m.table, name) / 8 < k then files - {name} else files)
      && (k == |o.writes| ==> Synced(o.mem, d') && Files(o.mem.table, d') == files - {name})
  {
    FilesAt(m.table, d, name);
    var i := Find(m.table, name);
    var o := DoDelete(m, name);
    if i == MAX_FILES {
      assert Apply(d, []) == d;
      Remount(m, d);
      assert Files(m.table, d) - {name} == Files(m.table, d);
    } else {
      DeletedGood(m, i, name);
      FlushOnDisk(o.mem, d);
      FilesRemoved(m.table, d, i);
      FlushCut(m, o.mem, d, i, k);
      if k == 5 {
        Remount(o.mem, Apply(d, o.writes[..k]));
      }
    }
  }

  lemma DeleteGood(m: Mem, d: Disk, name: seq<Byte>)
    requires Good(m) && Synced(m, d)
    ensures var o := DoDelete(m, name);
      OnDisk(o.writes, d) && Good(o.mem) && Synced(o.mem, Apply(d, o.writes))
  {
    var i := Find(m.table, name);
    var o := DoDelete(m, name);
    if i < MAX_FILES {
      DeletedGood(m, i, name);
      FlushOnDisk(o.mem, d);
      FlushCut(m, o.mem, d, i, 5);
      assert o.writes[..5] == o.writes;
    }
  }

  lemma DeletedGood(m: Mem, i: nat, name: seq<Byte>)
    requires Good(m) && i == Find(m.table, name) < MAX_FILES
    ensures Good(DoDelete(m, name).mem) && OneInode(m.table, DoDelete(m, name).mem.table, i)
  {
  }

  /** diskfs_delete as a whole. */
  lemma DeleteDone(m: Mem, d: Disk, name: seq<Byte>)
    requires Good(m) && DistinctNames(m.table) && Synced(m, d)
    ensures var o, files := DoDelete(m, name), Files(m.table, d);
      && OnDisk(o.writes, d) && (o.ret == 0 <==> name in files)
      && Left(o.mem, Apply(d, o.writes), files - {name}) && DistinctNames(o.mem.table)
  {
    var o := DoDelete(m, name);
    assert o.writes[..|o.writes|] == o.writes;
    DeleteCut(m, d, name, |o.writes|);
  }

  // ----- Write -----

  // Data for a slot that no file owns changes no file.
  lemma UnusedSlotCut(m: Mem, d: Disk, slot: nat, buf: seq<Byte>, k: nat)
    requires Good(m) && Synced(m, d) && |buf| == FILE_BYTES && k <= SLOT_SECTORS
    requires slot < MAX_FILES && !SlotTaken(m.table, slot)
    ensures OnDisk(DataWrites(slot, buf)[..k], d)
    ensures var d' := Apply(d, DataWrites(slot, buf)[..k]);
      Synced(m, d') && Files(m.table, d') == Files(m.table, d) && Mounts(d', Files(m.table, d))
  {
    DataElsewhere(d, slot, buf, k);
    var d' := Apply(d, DataWrites(slot, buf)[..k]);
    SyncedFrame(m, d, d');
    FilesFrame(m.table, d', d);
    Remount(m, d');
  }

  // The in-memory state after a new file, whatever the length of its name
  lemma AddedState(m: Mem, name: seq<Byte>, size: U32)
    requires Good(m) && FreeInode(m.table) < MAX_FILES && size <= FILE_BYTES
    ensures FreeSlot(m.table) < MAX_FILES
    ensures var m' := Added(m, FreeInode(m.table), name, size, FreeSlot(m.table));
      Good(m') && OneInode(m.table, m'.table, FreeInode(m.table))
  {
    var i := FreeInode(m.table);
    FreeSlotExists(m.table);
    AddedGood(m.table, i, name, size, FreeSlot(m.table));
  }

  /** Creating a file: cut at any sector boundary, the disk mounts to exactly the old files or to
      exactly the old files and the new one, the latter once the sector of the inode is written. */
  lemma CreateCut(m: Mem, d: Disk, name: seq<Byte>, data: seq<Byte>, k: nat)
    requires Good(m) && Synced(m, d)
    requires 0 !in name && |name| < NAME_MAX
    requires Find(m.table, name) == MAX_FILES && FreeInode(m.table) < MAX_FILES
    requires k <= |DoWrite(m, name, data).writes|
    ensures var o, files := DoWrite(m, name, data), Files(m.table, d);
      && OnDisk(o.writes[..k], d) && Good(o.mem) && o.ret == |Clip(data)|
      && var d' := Apply(d, o.writes[..k]);
      && Mounts(d', if SLOT_SECTORS + FreeInode(m.table) / 8 < k then files[name := Clip(data)] else files)
      && (k == |o.writes| ==> Synced(o.mem, d') && Files(o.mem.table, d') == files[name := Clip(data)])
  {
    var bytes, i, slot := Clip(data), FreeInode(m.table), FreeSlot(m.table);
    AddedState(m, name, |bytes|);
    var o := DoWrite(m, name, data);
    var dw := DataWrites(slot, Buffer(bytes));
    DataWritten(d, slot, Buffer(bytes));
    FlushOnDisk(o.mem, d);
    ApplyPrefix(d, dw, Flush(o.mem), k);
    if k <= SLOT_SECTORS {
      UnusedSlotCut(m, d, slot, Buffer(bytes), k);
    } else {
      CreateFlush(m, d, name, bytes, k - SLOT_SECTORS);
    }
  }

  // The flush that follows the data of a new file
  lemma CreateFlush(m: Mem, d: Disk, name: seq<Byte>, bytes: seq<Byte>, k: nat)
    requires Good(m) && Synced(m, d) && |bytes| <= FILE_BYTES && k <= 5
    requires 0 !in name && |name| < NAME_MAX
    requires Find(m.table, name) == MAX_FILES && FreeInode(m.table) < MAX_FILES && FreeSlot(m.table) < MAX_FILES
    ensures var i, slot := FreeInode(m.table), FreeSlot(m.table);
      var m', dw := Added(m, i, name, |bytes|, slot), DataWrites(slot, Buffer(bytes));
      && OnDisk(dw, d) && Good(m')
      && var d1 := Apply(d, dw);
      && OnDisk(Flush(m')[..k], d1)
      && var d' := Apply(d1, Flush(m')[..k]);
      && Mounts(d', if i / 8 < k then Files(m.table, d)[name := bytes] else Files(m.table, d))
      && (k == 5 ==> Synced(m', d') && Files(m'.table, d') == Files(m.table, d)[name := bytes])
  {
    var i, slot := FreeInode(m.table), FreeSlot(m.table);
    var dw := DataWrites(slot, Buffer(bytes));
    AddedState(m, name, |bytes|);
    var m' := Added(m, i, name, |bytes|, slot);
    assert dw[..SLOT_SECTORS] == dw;
    DataWritten(d, slot, Buffer(bytes));
    DataElsewhere(d, slot, Buffer(bytes), SLOT_SECTORS);
    UnusedSlotCut(m, d, slot, Buffer(bytes), SLOT_SECTORS);
    var d1 := Apply(d, dw);
    FilesAdded(m.table, d, d1, i, name, slot, bytes);
    FlushCut(m, m', d1, i, k);
    if k == 5 {
      Remount(m', Apply(d1, Flush(m')[..k]));
    }
  }

  // Data for the slot of file i changes that file only.
  lemma OwnSlotCut(m: Mem, d: Disk, i: nat, buf: seq<Byte>, k: nat)
    requires Good(m) && Synced(m, d) && |buf| == FILE_BYTES && k <= SLOT_SECTORS
    requires i < MAX_FILES && m.table[i].used != 0 && i == Find(m.table, CStr(m.table[i].name))
    ensures OnDisk(DataWrites(m.table[i].slot, buf)[..k], d)
    ensures var d' := Apply(d, DataWrites(m.table[i].slot, buf)[..k]);
      var files := Files(m.table, d)[CStr(m.table[i].name) := Contents(d', m.table[i])];
      Synced(m, d') && Files(m.table, d') == files && Mounts(d', files)
  {
    var t, slot := m.table, m.table[i].slot;
    DataElsewhere(d, slot, buf, k);
    var d' := Apply(d, DataWrites(slot, buf)[..k]);
    SyncedFrame(m, d, d');
    var key := CStr(t[i].name);
    forall name | name != key ensures SameFile(t, d, t, d', name) {
      var j := Find(t, name);
      if j < MAX_FILES {
        assert t[j].slot != slot;
      }
    }
    FilesChange(t, d, t, d', key, Contents(d', t[i]));
    Remount(m, d');
  }

  lemma ResizedGood(m: Mem, i: nat, size: U32)
    requires Good(m) && i < MAX_FILES && m.table[i].used != 0 && size <= FILE_BYTES
    ensures var m' := m.(table := m.table[i := m.table[i].(size := size)]);
      Good(m') && OneInode(m.table, m'.table, i)
  {
  }

  // The flush that follows the data of an existing file
  lemma OverwriteFlush(m: Mem, d: Disk, i: nat, bytes: seq<Byte>, k: nat)
    requires Good(m) && Synced(m, d) && |bytes| <= FILE_BYTES && k <= 5
    requires i < MAX_FILES && m.table[i].used != 0 && i == Find(m.table, CStr(m.table[i].name))
    ensures var m', dw := m.(table := m.table[i := m.table[i].(size := |bytes|)]),
        DataWrites(m.table[i].slot, Buffer(bytes));
      var key, files := CStr(m.table[i].name), Files(m.table, d);
      && OnDisk(dw, d) && Good(m')
      && var d1 := Apply(d, dw);
      && OnDisk(Flush(m')[..k], d1)
      && var d' := Apply(d1, Flush(m')[..k]);
      && Mounts(d', files[key := if i / 8 < k then bytes else Contents(d1, m.table[i])])
      && (k == 5 ==> Synced(m', d') && Files(m'.table, d') == files[key := bytes])
  {
    var m' := m.(table := m.table[i := m.table[i].(size := |bytes|)]);
    var slot := m.table[i].slot;
    var dw := DataWrites(slot, Buffer(bytes));
    ResizedGood(m, i, |bytes|);
    assert dw[..SLOT_SECTORS] == dw;
    DataWritten(d, slot, Buffer(bytes));
    DataElsewhere(d, slot, Buffer(bytes), SLOT_SECTORS);
    OwnSlotCut(m, d, i, Buffer(bytes), SLOT_SECTORS);
    var d1 := Apply(d, dw);
    FilesResized(m.table, d, d1, i, bytes);
    FlushCut(m, m', d1, i, k);
    if k == 5 {
      Remount(m', Apply(d1, Flush(m')[..k]));
    }
  }

  // Old bytes with the first k sectors of a buffer over them
  function Mixed(was: seq<Byte>, buf: seq<Byte>, k: nat): (r: seq<Byte>)
    requires |was| <= FILE_BYTES == |buf|
  {
    seq(|was|, p requires 0 <= p < |was| => if p < SECTOR * k then buf[p] else was[p])
  }

  // What k sector writes of an overwrite leave of a file whose inode is number i. Data comes first;
  // until the sector of the inode is written, the file keeps its old size.
  function Remains(was: seq<Byte>, bytes: seq<Byte>, i: nat, k: nat): seq<Byte>
    requires |was| <= FILE_BYTES && |bytes| <= FILE_BYTES
  {
    if SLOT_SECTORS + i / 8 < k then bytes else Mixed(was, Buffer(bytes), if k < SLOT_SECTORS then k else SLOT_SECTORS)
  }

  lemma ContentsPart(d: Disk, n: Inode, buf: seq<Byte>, k: nat)
    requires n.slot < MAX_FILES && n.size <= FILE_BYTES && |buf| == FILE_BYTES && k <= SLOT_SECTORS
    ensures OnDisk(DataWrites(n.slot, buf)[..k], d)
    ensures Contents(Apply(d, DataWrites(n.slot, buf)[..k]), n) == Mixed(Contents(d, n), buf, k)
  {
    DataPart(d, n.slot, buf, k);
  }

  // The sector writes of an overwrite, cut after k
  lemma OverwriteMounts(m: Mem, d: Disk, i: nat, bytes: seq<Byte>, k: nat)
    requires Good(m) && Synced(m, d) && |bytes| <= FILE_BYTES && k <= SLOT_SECTORS + 5
    requires i < MAX_FILES && m.table[i].used != 0 && i == Find(m.table, CStr(m.table[i].name))
    ensures var m' := m.(table := m.table[i := m.table[i].(size := |bytes|)]);
      var ws := DataWrites(m.table[i].slot, Buffer(bytes)) + Flush(m');
      var key, files := CStr(m.table[i].name), Files(m.table, d);
      && Good(m') && |ws| == SLOT_SECTORS + 5 && OnDisk(ws[..k], d)
      && var d' := Apply(d, ws[..k]);
      && Mounts(d', files[key := Remains(Contents(d, m.table[i]), bytes, i, k)])
      && (k == |ws| ==> Synced(m', d') && Files(m'.table, d') == files[key := bytes])
  {
    var m' := m.(table := m.table[i := m.table[i].(size := |bytes|)]);
    var dw := DataWrites(m.table[i].slot, Buffer(bytes));
    DataWritten(d, m.table[i].slot, Buffer(bytes));
    ResizedGood(m, i, |bytes|);
    FlushOnDisk(m', d);
    ApplyPrefix(d, dw, Flush(m'), k);
    if k <= SLOT_SECTORS {
      OwnSlotCut(m, d, i, Buffer(bytes), k);
      ContentsPart(d, m.table[i], Buffer(bytes), k);
    } else {
      OverwriteFlush(m, d, i, bytes, k - SLOT_SECTORS);
      assert dw[..SLOT_SECTORS] == dw;
      ContentsPart(d, m.table[i], Buffer(bytes), SLOT_SECTORS);
    }
  }

  /** Overwriting is in place: a power cut after k sector writes leaves exactly these bytes in the
      file, and every other file as it was. The complete call leaves the new contents. */
  lemma OverwriteCut(m: Mem, d: Disk, name: seq<Byte>, data: seq<Byte>, k: nat)
    requires Good(m) && Synced(m, d)
    requires Find(m.table, name) < MAX_FILES
    requires k <= |DoWrite(m, name, data).writes|
    ensures var o, files, i := DoWrite(m, name, data), Files(m.table, d), Find(m.table, name);
      && OnDisk(o.writes[..k], d) && Good(o.mem) && o.ret == |Clip(data)|
      && name in files && |files[name]| <= FILE_BYTES
      && var d' := Apply(d, o.writes[..k]);
      && Mounts(d', files[name := Remains(files[name], Clip(data), i, k)])
      && (k == |o.writes| ==> Synced(o.mem, d') && Files(o.mem.table, d') == files[name := Clip(data)])
  {
    FilesAt(m.table, d, name);
    ResizedGood(m, Find(m.table, name), |Clip(data)|);
    OverwriteMounts(m, d, Find(m.table, name), Clip(data), k);
  }

  // ----- When an overwrite is crash-atomic -----

  ghost predicate SameOutside(was: seq<Byte>, bytes: seq<Byte>, s: nat) {
    |was| == |bytes| && forall p :: 0 <= p < |was| && p / SECTOR != s ==> was[p] == bytes[p]
  }

  // The old bytes are a prefix of the new ones and the zeros behind them, as after appending, or the
  // size stays and only one sector changes.
  ghost predicate Atomic(was: seq<Byte>, bytes: seq<Byte>)
    requires |was| <= FILE_BYTES && |bytes| <= FILE_BYTES
  {
    Buffer(bytes)[..|was|] == was || exists s: nat :: SameOutside(was, bytes, s)
  }

  lemma AppendAtomic(was: seq<Byte>, more: seq<Byte>)
    requires |was + more| <= FILE_BYTES
    ensures Atomic(was, was + more)
  {
    assert Buffer(was + more)[..|was|] == was;
  }

  lemma AtomicRemains(was: seq<Byte>, bytes: seq<Byte>, i: nat, k: nat)
    requires |was| <= FILE_BYTES && |bytes| <= FILE_BYTES && Atomic(was, bytes)
    ensures Remains(was, bytes, i, k) == was || Remains(was, bytes, i, k) == bytes
  {
    var j := if k < SLOT_SECTORS then k else SLOT_SECTORS;
    if Buffer(bytes)[..|was|] == was {
      PrefixMixed(was, Buffer(bytes), j);
    } else {
      var s: nat :| SameOutside(was, bytes, s);
      SectorMixed(was, bytes, s, j);
    }
  }

  lemma PrefixMixed(was: seq<Byte>, buf: seq<Byte>, k: nat)
    requires |was| <= FILE_BYTES == |buf| && buf[..|was|] == was
    ensures Mixed(was, buf, k) == was
  {
    assert forall p :: 0 <= p < |was| ==> buf[..|was|][p] == buf[p];
  }

  lemma SectorMixed(was: seq<Byte>, bytes: seq<Byte>, s: nat, k: nat)
    requires |was| <= FILE_BYTES && SameOutside(was, bytes, s)
    ensures Mixed(was, Buffer(bytes), k) == if k <= s then was else bytes
  {
    var r := Mixed(was, Buffer(bytes), k);
    forall p | 0 <= p < |was| ensures r[p] == (if k <= s then was else bytes)[p] {
      assert Buffer(bytes)[..|bytes|][p] == bytes[p];
      assert p < SECTOR * k <==> p / SECTOR < k;
    }
  }

  // Otherwise some cut tears the file.
  lemma TornRemains(was: seq<Byte>, bytes: seq<Byte>, i: nat) returns (k: nat)
    requires |was| <= FILE_BYTES && |bytes| <= FILE_BYTES && !Atomic(was, bytes)
    ensures k <= SLOT_SECTORS && Remains(was, bytes, i, k) != was && Remains(was, bytes, i, k) != bytes
  {
    var buf := Buffer(bytes);
    if |was| != |bytes| {
      k := SLOT_SECTORS;
      assert Mixed(was, buf, k) == buf[..|was|];
    } else {
      assert buf[..|was|] == bytes;
      var p :| 0 <= p < |was| && was[p] != bytes[p];
      assert !SameOutside(was, bytes, p / SECTOR);
      var q :| 0 <= q < |was| && q / SECTOR != p / SECTOR && was[q] != bytes[q];
      k := TornBetween(was, bytes, if p < q then p else q, if p < q then q else p);
    }
  }

  lemma TornBetween(was: seq<Byte>, bytes: seq<Byte>, p: nat, q: nat) returns (k: nat)
    requires |was| == |bytes| <= FILE_BYTES && p < q < |was| && p / SECTOR != q / SECTOR
    requires was[p] != bytes[p] && was[q] != bytes[q]
    ensures k < SLOT_SECTORS && Mixed(was, Buffer(bytes), k) != was && Mixed(was, Buffer(bytes), k) != bytes
  {
    k := p / SECTOR + 1;
    var r := Mixed(was, Buffer(bytes), k);
    assert Buffer(bytes)[..|bytes|][p] == bytes[p];
    assert r[p] == bytes[p] && r[q] == was[q];
  }

  ghost predicate OldOrNew(d: Disk, files: map<seq<Byte>, seq<Byte>>, name: seq<Byte>, bytes: seq<Byte>) {
    Mounts(d, files) || Mounts(d, files[name := bytes])
  }

  lemma MountsOther(d: Disk, files: map<seq<Byte>, seq<Byte>>, name: seq<Byte>, bytes: seq<Byte>, left: seq<Byte>)
    requires name in files && Mounts(d, files[name := left])
    ensures OldOrNew(d, files, name, bytes) <==> left == files[name] || left == bytes
  {
    SamePut(files, name, left, files[name]);
    SamePut(files, name, left, bytes);
    assert files[name := files[name]] == files;
  }

  lemma SamePut<K, V>(m: map<K, V>, k: K, a: V, b: V)
    ensures m[k := a] == m[k := b] <==> a == b
  {
    assert m[k := a][k] == a && m[k := b][k] == b;
  }

  /** An overwrite is crash-atomic exactly when it appends (up to zeros) or changes one sector only:
      then every cut leaves the old or the new files, and otherwise some cut leaves neither. */
  lemma OverwriteAtomic(m: Mem, d: Disk, name: seq<Byte>, data: seq<Byte>)
    requires Good(m) && Synced(m, d) && Find(m.table, name) < MAX_FILES
    ensures var ws, files, bytes := DoWrite(m, name, data).writes, Files(m.table, d), Clip(data);
      && name in files && |files[name]| <= FILE_BYTES
      && ((forall k :: 0 <= k <= |ws| ==> OnDisk(ws[..k], d) && OldOrNew(Apply(d, ws[..k]), files, name, bytes))
          <==> Atomic(files[name], bytes))
  {
    var ws, files, bytes, i := DoWrite(m, name, data).writes, Files(m.table, d), Clip(data), Find(m.table, name);
    OverwriteCut(m, d, name, data, 0);
    var was := files[name];
    if Atomic(was, bytes) {
      forall k: nat | k <= |ws| ensures OnDisk(ws[..k], d) && OldOrNew(Apply(d, ws[..k]), files, name, bytes) {
        OverwriteCut(m, d, name, data, k);
        AtomicRemains(was, bytes, i, k);
        MountsOther(Apply(d, ws[..k]), files, name, bytes, Remains(was, bytes, i, k));
      }
    } else {
      var k := TornRemains(was, bytes, i);
      OverwriteCut(m, d, name, data, k);
      MountsOther(Apply(d, ws[..k]), files, name, bytes, Remains(was, bytes, i, k));
    }
  }

  // State, disk and files after a call
  ghost predicate Left(m: Mem, d: Disk, files: map<seq<Byte>, seq<Byte>>) {
    Good(m) && Synced(m, d) && Files(m.table, d) == files
  }

  /** diskfs_write as a whole: -1 exactly when the name is new and every inode is in use, and then
      nothing changes; otherwise the file map gets the data, cut at 4096 bytes, and nothing else. */
  lemma WriteDone(m: Mem, d: Disk, name: seq<Byte>, data: seq<Byte>)
    requires Good(m) && Synced(m, d)
    requires 0 !in name && |name| < NAME_MAX
    ensures var o, files := DoWrite(m, name, data), Files(m.table, d);
      && OnDisk(o.writes, d)
      && (o.ret == -1 <==> name !in files && FreeInode(m.table) == MAX_FILES)
      && (o.ret != -1 ==> o.ret == |Clip(data)|)
      && Left(o.mem, Apply(d, o.writes), if o.ret == -1 then files else files[name := Clip(data)])
  {
    var o := DoWrite(m, name, data);
    var n := |o.writes|;
    assert o.writes[..n] == o.writes;
    FilesAt(m.table, d, name);
    if Find(m.table, name) < MAX_FILES {
      OverwriteCut(m, d, name, data, n);
    } else if FreeInode(m.table) == MAX_FILES {
      assert o == Outcome(m, [], -1);
      assert Apply(d, o.writes) == d;
    } else {
      FreeSlotExists(m.table);
      CreateCut(m, d, name, data, n);
    }
  }

  /** Even for a name too long to be found again, the state stays well formed and in sync. */
  lemma WriteGood(m: Mem, d: Disk, name: seq<Byte>, data: seq<Byte>)
    requires Good(m) && Synced(m, d)
    ensures var o := DoWrite(m, name, data);
      OnDisk(o.writes, d) && Good(o.mem) && Synced(o.mem, Apply(d, o.writes))
  {
    var o, bytes := DoWrite(m, name, data), Clip(data);
    var i := Find(m.table, name);
    if i < MAX_FILES {
      ResizedGood(m, i, |bytes|);
      FlushedAfterData(m, o.mem, d, i, m.table[i].slot, Buffer(bytes));
    } else if FreeInode(m.table) < MAX_FILES {
      AddedState(m, name, |bytes|);
      FlushedAfterData(m, o.mem, d, FreeInode(m.table), FreeSlot(m.table), Buffer(bytes));
    }
  }

  lemma FlushedAfterData(m: Mem, m': Mem, d: Disk, i: nat, slot: nat, buf: seq<Byte>)
    requires Good(m) && Good(m') && Synced(m, d) && OneInode(m.table, m'.table, i)
    requires slot < MAX_FILES && |buf| == FILE_BYTES
    ensures var ws := DataWrites(slot, buf) + Flush(m');
      OnDisk(ws, d) && Synced(m', Apply(d, ws))
  {
    var dw := DataWrites(slot, buf);
    assert dw[..SLOT_SECTORS] == dw && Flush(m')[..5] == Flush(m');
    DataElsewhere(d, slot, buf, SLOT_SECTORS);
    FlushOnDisk(m', d);
    ApplyConcat(d, dw, Flush(m'));
    SyncedFrame(m, d, Apply(d, dw));
    FlushCut(m, m', Apply(d, dw), i, 5);
  }

  lemma WriteDistinct(m: Mem, name: seq<Byte>, data: seq<Byte>)
    requires Good(m) && DistinctNames(m.table)
    requires 0 !in name && |name| < NAME_MAX
    ensures DistinctNames(DoWrite(m, name, data).mem.table)
  {
    if Find(m.table, name) == MAX_FILES && FreeInode(m.table) < MAX_FILES {
      FreeSlotExists(m.table);
      AddedDistinct(m.table, FreeInode(m.table), name, |Clip(data)|, FreeSlot(m.table));
    }
  }

  // ----- Format -----

  const FreshSuper: Super :=
    Super(MAGIC, 1, 0, Le32(INODE_SECTOR) + Le32(DATA_SECTOR) +
      [83, 116, 101, 108, 108, 97, 114, 101, 115, 79, 83] + Zeros(481))

  const FreshTable: Table := seq<Inode>(MAX_FILES, _ => Blank)

  lemma FreshGood()
    ensures Good(Mem(FreshSuper, FreshTable))
    ensures forall name :: Find(FreshTable, name) == MAX_FILES
  {
    forall name ensures Find(FreshTable, name) == MAX_FILES {
    }
  }

  lemma FormatSectors(m: Mem, d: Disk)
    requires |m.super.rest| == 500 && Padded(m.table)
    ensures var ws := [SuperWrite(m.super)] + TableWrites(m.table);
      OnDisk(ws, d) && Synced(m, Apply(d, ws))
  {
    var sw := [SuperWrite(m.super)];
    ApplyConcat(d, sw, TableWrites(m.table));
    ApplyConsecutive(d, sw, 0);
    ApplyConsecutive(Apply(d, sw), TableWrites(m.table), INODE_SECTOR);
    FormatPlaced(m, Apply(Apply(d, sw), TableWrites(m.table)));
  }

  lemma FormatPlaced(m: Mem, d: Disk)
    requires |m.super.rest| == 500 && Padded(m.table)
    requires d[0] == EncodeSuper(m.super) && forall j :: 1 <= j < 5 ==> d[j] == TableWrites(m.table)[j - 1].data
    ensures Synced(m, d)
  {
  }

  /** A formatted disk is well formed and empty. */
  lemma FormatDone(d: Disk)
    ensures var m := Mem(FreshSuper, FreshTable);
      var ws := [SuperWrite(FreshSuper)] + TableWrites(FreshTable);
      Good(m) && OnDisk(ws, d) && Left(m, Apply(d, ws), map[])
  {
    FreshGood();
    FormatSectors(Mem(FreshSuper, FreshTable), d);
    NoFiles(FreshTable, Apply(d, [SuperWrite(FreshSuper)] + TableWrites(FreshTable)));
  }

  lemma NoFiles(t: Table, d: Disk)
    requires GoodTable(t) && forall name :: Find(t, name) == MAX_FILES
    ensures Files(t, d) == map[]
  {
    forall name ensures name !in Files(t, d) {
      FilesAt(t, d, name);
    }
  }
}
