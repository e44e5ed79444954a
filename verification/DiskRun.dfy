/**
 Runs of DiskFS over power failures (fs/diskfs.c:49-60, 88-144): any sequence of writes and deletes,
 each complete or cut after some number of sector writes and followed by a new mount.
 */
module DiskRun {
  import opened DiskLayout
  import opened DiskModel
  import opened DiskOps
  import opened DiskCrash

  // ----- What a cut leaves in the metadata -----

  lemma SyncedMount(m: Mem, d: Disk)
    requires |m.super.rest| == 500 && Padded(m.table) && Synced(m, d)
    ensures Mount(d) == m
  {
    SuperCodec(m.super);
    HeldTable(d, m.table);
  }

  // A flush cut after k sectors: the superblock goes last, the one changed inode with its sector.
  lemma FlushMount(m: Mem, m': Mem, d: Disk, i: nat, k: nat)
    requires |m.super.rest| == |m'.super.rest| == 500 && OneInode(m.table, m'.table, i) && k <= 5 && Synced(m, d)
    ensures OnDisk(Flush(m')[..k], d)
    ensures Mount(Apply(d, Flush(m')[..k])) ==
            Mem(if k == 5 then m'.super else m.super, if i / 8 < k then m'.table else m.table)
  {
    FlushSectors(m', d, k);
    var d' := Apply(d, Flush(m')[..k]);
    FlushTable(m, m', d, d', i, k);
    SyncedMount(Mem(if k == 5 then m'.super else m.super, if i / 8 < k then m'.table else m.table), d');
  }

  lemma CallMount(m: Mem, m': Mem, d: Disk, i: nat, slot: nat, buf: seq<Byte>, k: nat)
    requires |m.super.rest| == |m'.super.rest| == 500 && OneInode(m.table, m'.table, i) && Synced(m, d)
    requires slot < MAX_FILES && |buf| == FILE_BYTES && k <= SLOT_SECTORS + 5
    ensures var ws := (DataWrites(slot, buf) + Flush(m'))[..k];
      OnDisk(ws, d) &&
      Mount(Apply(d, ws)) == Mem(if k == SLOT_SECTORS + 5 then m'.super else m.super,
                                 if i / 8 + SLOT_SECTORS < k then m'.table else m.table)
  {
    var dw := DataWrites(slot, buf);
    FlushOnDisk(m', d);
    ApplyPrefix(d, dw, Flush(m'), k);
    DataElsewhere(d, slot, buf, if k <= SLOT_SECTORS then k else SLOT_SECTORS);
    assert dw[..SLOT_SECTORS] == dw;
    if k <= SLOT_SECTORS {
      SyncedFrame(m, d, Apply(d, dw[..k]));
      SyncedMount(m, Apply(d, dw[..k]));
    } else {
      SyncedFrame(m, d, Apply(d, dw));
      FlushMount(m, m', Apply(d, dw), i, k - SLOT_SECTORS);
    }
  }

  /** Any cut of a write leaves the old or the new table; the superblock is new only at the end. */
  lemma WriteCutMount(m: Mem, d: Disk, name: seq<Byte>, data: seq<Byte>, k: nat)
    requires Good(m) && Synced(m, d) && k <= |DoWrite(m, name, data).writes|
    ensures var o := DoWrite(m, name, data);
      && Good(o.mem) && OnDisk(o.writes[..k], d)
      && var r := Mount(Apply(d, o.writes[..k]));
      && (r.table == m.table || r.table == o.mem.table)
      && r.super == (if k == |o.writes| then o.mem.super else m.super)
      && (k == |o.writes| ==> r.table == o.mem.table)
  {
    var o, bytes := DoWrite(m, name, data), Clip(data);
    var i := Find(m.table, name);
    if i < MAX_FILES {
      ResizedGood(m, i, |bytes|);
      CallMount(m, o.mem, d, i, m.table[i].slot, Buffer(bytes), k);
    } else if FreeInode(m.table) < MAX_FILES {
      AddedState(m, name, |bytes|);
      CallMount(m, o.mem, d, FreeInode(m.table), FreeSlot(m.table), Buffer(bytes), k);
    } else {
      SyncedMount(m, d);
    }
  }

  lemma DeleteCutMount(m: Mem, d: Disk, name: seq<Byte>, k: nat)
    requires Good(m) && Synced(m, d) && k <= |DoDelete(m, name).writes|
    ensures var o := DoDelete(m, name);
      && Good(o.mem) && OnDisk(o.writes[..k], d)
      && var r := Mount(Apply(d, o.writes[..k]));
      && (r.table == m.table || r.table == o.mem.table)
      && r.super == (if k == |o.writes| then o.mem.super else m.super)
      && (k == |o.writes| ==> r.table == o.mem.table)
  {
    var o, i := DoDelete(m, name), Find(m.table, name);
    if i < MAX_FILES {
      DeletedGood(m, i, name);
      FlushMount(m, o.mem, d, i, k);
    } else {
      SyncedMount(m, d);
    }
  }

  // ----- nfiles -----

  lemma CountBound(t: Table)
    ensures CountUsed(t) <= MAX_FILES
  {
    UsedSlotsBound(t);
  }

  lemma CountWritten(m: Mem, name: seq<Byte>, data: seq<Byte>)
    requires Good(m) && Counted(m)
    ensures Counted(DoWrite(m, name, data).mem)
  {
    var t, i, size := m.table, Find(m.table, name), |Clip(data)|;
    if i < MAX_FILES {
      CountUpdate(t, i, t[i].(size := size));
    } else if FreeInode(t) < MAX_FILES && FreeSlot(t) < MAX_FILES {
      CountAdded(m, FreeInode(t), name, size, FreeSlot(t));
    }
  }

  lemma CountAdded(m: Mem, i: nat, name: seq<Byte>, size: U32, slot: U32)
    requires Counted(m) && i < MAX_FILES && m.table[i].used == 0
    ensures Counted(Added(m, i, name, size, slot))
  {
    CountUpdate(m.table, i, NewInode(name, size, slot));
    CountFull(m.table, i);
  }

  lemma CountDeleted(m: Mem, name: seq<Byte>)
    requires Good(m) && Counted(m)
    ensures Counted(DoDelete(m, name).mem)
  {
    var t, i := m.table, Find(m.table, name);
    if i < MAX_FILES {
      CountUpdate(t, i, Blank);
    }
  }

  /** A complete write or delete keeps `nfiles` equal to the number of used inodes. */
  lemma CountKept(m: Mem, name: seq<Byte>, data: seq<Byte>)
    requires Good(m) && Counted(m)
    ensures Counted(DoWrite(m, name, data).mem) && Counted(DoDelete(m, name).mem)
  {
    CountWritten(m, name, data);
    CountDeleted(m, name);
  }

  /** The creation of a file that is cut leaves `nfiles` right exactly when the cut is before the
      sector of the inode or after the superblock. */
  lemma CreateCount(m: Mem, d: Disk, name: seq<Byte>, data: seq<Byte>, k: nat)
    requires Good(m) && Counted(m) && Synced(m, d)
    requires Find(m.table, name) == MAX_FILES && FreeInode(m.table) < MAX_FILES
    requires k <= SLOT_SECTORS + 5
    ensures var ws := DoWrite(m, name, data).writes;
      && |ws| == SLOT_SECTORS + 5 && OnDisk(ws[..k], d)
      && (Counted(Mount(Apply(d, ws[..k]))) <==>
          k <= SLOT_SECTORS + FreeInode(m.table) / 8 || k == SLOT_SECTORS + 5)
  {
    var t, i, bytes := m.table, FreeInode(m.table), Clip(data);
    AddedState(m, name, |bytes|);
    var o := DoWrite(m, name, data);
    FlushOnDisk(o.mem, d);
    CallMount(m, o.mem, d, i, FreeSlot(t), Buffer(bytes), k);
    CountUpdate(t, i, NewInode(name, |bytes|, FreeSlot(t)));
    CountKept(m, name, data);
    CountBound(t);
  }

  /** The same for a delete, whose inode is blanked before the superblock is written. */
  lemma DeleteCount(m: Mem, d: Disk, name: seq<Byte>, k: nat)
    requires Good(m) && Counted(m) && Synced(m, d) && Find(m.table, name) < MAX_FILES && k <= 5
    ensures var ws := DoDelete(m, name).writes;
      && |ws| == 5 && OnDisk(ws[..k], d)
      && (Counted(Mount(Apply(d, ws[..k]))) <==> k <= Find(m.table, name) / 8 || k == 5)
  {
    var i, o := Find(m.table, name), DoDelete(m, name);
    DeletedGood(m, i, name);
    FlushMount(m, o.mem, d, i, k);
    CountUpdate(m.table, i, Blank);
    CountKept(m, name, []);
  }

  // ----- Runs -----

  // One call, cut after `cut` sector writes, or complete when it has no more than that. A complete
  // call leaves memory and disk in step, so that mounting or not makes no difference after it.
  datatype Op = Put(name: seq<Byte>, data: seq<Byte>, cut: nat) | Drop(name: seq<Byte>, cut: nat)

  predicate Usable(op: Op) { op.Put? ==> 0 !in op.name && |op.name| < NAME_MAX }

  predicate AllUsable(ops: seq<Op>) { forall i :: 0 <= i < |ops| ==> Usable(ops[i]) }

  // A disk that a later diskfs_init accepts and works on
  ghost predicate Sound(d: Disk) { Good(Mount(d)) && DistinctNames(Mount(d).table) }

  ghost function FilesOf(d: Disk): (files: map<seq<Byte>, seq<Byte>>)
    requires Sound(d)
    ensures forall name :: name in files ==> |files[name]| <= FILE_BYTES
  {
    FilesSmall(Mount(d).table, d);
    Files(Mount(d).table, d)
  }

  lemma FilesSmall(t: Table, d: Disk)
    requires GoodTable(t)
    ensures forall name :: name in Files(t, d) ==> |Files(t, d)[name]| <= FILE_BYTES
  {
    forall name | name in Files(t, d) ensures |Files(t, d)[name]| <= FILE_BYTES {
      FilesAt(t, d, name);
    }
  }

  ghost function Called(d: Disk, op: Op): Outcome
    requires Sound(d)
  {
    match op
    case Put(name, data, _) => DoWrite(Mount(d), name, data)
    case Drop(name, _) => DoDelete(Mount(d), name)
  }

  ghost predicate Complete(d: Disk, op: Op)
    requires Sound(d)
  {
    op.cut >= |Called(d, op).writes|
  }

  // The sector writes that reach the disk
  ghost function Issued(d: Disk, op: Op): seq<SectorWrite>
    requires Sound(d)
  {
    var ws := Called(d, op).writes;
    if op.cut < |ws| then ws[..op.cut] else ws
  }

  lemma IssuedMount(d: Disk, op: Op)
    requires Sound(d)
    ensures OnDisk(Issued(d, op), d)
    ensures var r, o := Mount(Apply(d, Issued(d, op))), Called(d, op);
      && Good(o.mem) && (r.table == Mount(d).table || r.table == o.mem.table)
      && r.super == (if Complete(d, op) then o.mem.super else Mount(d).super)
  {
    var m, ws := Mount(d), Called(d, op).writes;
    var k := if op.cut < |ws| then op.cut else |ws|;
    assert Issued(d, op) == ws[..k];
    MountSynced(d);
    if op.Put? {
      WriteCutMount(m, d, op.name, op.data, k);
    } else {
      DeleteCutMount(m, d, op.name, k);
    }
  }

  lemma CalledDistinct(d: Disk, op: Op)
    requires Sound(d) && Usable(op)
    ensures DistinctNames(Called(d, op).mem.table)
  {
    var m := Mount(d);
    if op.Put? {
      WriteDistinct(m, op.name, op.data);
    } else {
      MountSynced(d);
      DeleteDone(m, d, op.name);
    }
  }

  /** The disk after one call, complete or cut, is again one that the kernel mounts. */
  ghost function After(d: Disk, op: Op): (r: Disk)
    requires Sound(d) && Usable(op)
    ensures Sound(r)
  {
    IssuedMount(d, op);
    CalledDistinct(d, op);
    Apply(d, Issued(d, op))
  }

  ghost function RunDisk(d: Disk, ops: seq<Op>): (r: Disk)
    requires Sound(d) && AllUsable(ops)
    ensures Sound(r)
    decreases |ops|
  {
    if |ops| == 0 then d else RunDisk(After(d, ops[0]), ops[1..])
  }

  // The files after a call that is cut after op.cut sector writes, where i is the inode of the name and
  // j the first unused one. A delete or a new file is there once the sector of its inode is written;
  // an overwrite is in place.
  ghost function Effect(before: map<seq<Byte>, seq<Byte>>, i: nat, j: nat, op: Op): map<seq<Byte>, seq<Byte>>
    requires op.name in before ==> |before[op.name]| <= FILE_BYTES
  {
    match op
    case Put(name, data, cut) =>
      if name in before then before[name := Remains(before[name], Clip(data), i, cut)]
      else if j < MAX_FILES && SLOT_SECTORS + j / 8 < cut then before[name := Clip(data)]
      else before
    case Drop(name, cut) =>
      if name in before && i / 8 < cut then before - {name} else before
  }

  // The files after a complete call, where j is the first unused inode
  ghost function Whole(before: map<seq<Byte>, seq<Byte>>, j: nat, op: Op): map<seq<Byte>, seq<Byte>> {
    match op
    case Put(name, data, _) => if name in before || j < MAX_FILES then before[name := Clip(data)] else before
    case Drop(name, _) => before - {name}
  }

  ghost predicate HasEffect(d: Disk, op: Op)
    requires Sound(d) && Usable(op)
  {
    var t := Mount(d).table;
    FilesOf(After(d, op)) == Effect(FilesOf(d), Find(t, op.name), FreeInode(t), op)
  }

  lemma CallLength(m: Mem, name: seq<Byte>, data: seq<Byte>)
    requires Good(m) && (Find(m.table, name) < MAX_FILES || FreeInode(m.table) < MAX_FILES)
    ensures |DoWrite(m, name, data).writes| == SLOT_SECTORS + 5
  {
    if Find(m.table, name) == MAX_FILES { FreeSlotExists(m.table); }
  }

  function CutAt(n: nat, op: Op): nat { if op.cut < n then op.cut else n }

  lemma AfterMounts(d: Disk, op: Op, files: map<seq<Byte>, seq<Byte>>)
    requires Sound(d) && Usable(op)
    requires var ws := Called(d, op).writes;
      OnDisk(ws[..CutAt(|ws|, op)], d) && Mounts(Apply(d, ws[..CutAt(|ws|, op)]), files)
    ensures FilesOf(After(d, op)) == files
  {
    var ws := Called(d, op).writes;
    assert Issued(d, op) == ws[..CutAt(|ws|, op)];
  }

  lemma OverwriteEffect(d: Disk, op: Op)
    requires Sound(d) && Usable(op) && op.Put? && Find(Mount(d).table, op.name) < MAX_FILES
    ensures HasEffect(d, op)
  {
    var m, before, i := Mount(d), FilesOf(d), Find(Mount(d).table, op.name);
    var k := CutAt(SLOT_SECTORS + 5, op);
    MountSynced(d);
    CallLength(m, op.name, op.data);
    OverwriteCut(m, d, op.name, op.data, k);
    AfterMounts(d, op, before[op.name := Remains(before[op.name], Clip(op.data), i, k)]);
  }

  lemma CreateEffect(d: Disk, op: Op)
    requires Sound(d) && Usable(op) && op.Put? && Find(Mount(d).table, op.name) == MAX_FILES
    requires FreeInode(Mount(d).table) < MAX_FILES
    ensures HasEffect(d, op)
  {
    var m, before, j := Mount(d), FilesOf(d), FreeInode(Mount(d).table);
    var k := CutAt(SLOT_SECTORS + 5, op);
    MountSynced(d);
    FilesAt(m.table, d, op.name);
    CallLength(m, op.name, op.data);
    CreateCut(m, d, op.name, op.data, k);
    AfterMounts(d, op, if SLOT_SECTORS + j / 8 < k then before[op.name := Clip(op.data)] else before);
  }

  lemma FullEffect(d: Disk, op: Op)
    requires Sound(d) && Usable(op) && op.Put? && Find(Mount(d).table, op.name) == MAX_FILES
    requires FreeInode(Mount(d).table) == MAX_FILES
    ensures HasEffect(d, op)
  {
    FilesAt(Mount(d).table, d, op.name);
    assert Issued(d, op) == [];
  }

  lemma DropMounts(d: Disk, name: seq<Byte>, cut: nat)
    requires Sound(d) && Find(Mount(d).table, name) < MAX_FILES
    ensures var ws := DoDelete(Mount(d), name).writes;
      var k := if cut < |ws| then cut else |ws|;
      && OnDisk(ws[..k], d)
      && Mounts(Apply(d, ws[..k]), if Find(Mount(d).table, name) / 8 < cut then FilesOf(d) - {name} else FilesOf(d))
  {
    var m := Mount(d);
    var ws := DoDelete(m, name).writes;
    MountSynced(d);
    FlushOnDisk(DoDelete(m, name).mem, d);
    DeleteCut(m, d, name, if cut < |ws| then cut else |ws|);
  }

  lemma DropEffect(d: Disk, op: Op)
    requires Sound(d) && Usable(op) && op.Drop? && Find(Mount(d).table, op.name) < MAX_FILES
    ensures HasEffect(d, op)
  {
    var before, i := FilesOf(d), Find(Mount(d).table, op.name);
    NamedFile(d, op.name);
    DropMounts(d, op.name, op.cut);
    DropOf(before, i, FreeInode(Mount(d).table), op);
    AfterMounts(d, op, if i / 8 < op.cut then before - {op.name} else before);
  }

  lemma NamedFile(d: Disk, name: seq<Byte>)
    requires Sound(d)
    ensures name in FilesOf(d) <==> Find(Mount(d).table, name) < MAX_FILES
  {
    FilesAt(Mount(d).table, d, name);
  }

  lemma DropOf(before: map<seq<Byte>, seq<Byte>>, i: nat, j: nat, op: Op)
    requires op.Drop? && op.name in before && |before[op.name]| <= FILE_BYTES
    ensures Effect(before, i, j, op) == if i / 8 < op.cut then before - {op.name} else before
  {
  }

  lemma MissingEffect(d: Disk, op: Op)
    requires Sound(d) && Usable(op) && op.Drop? && Find(Mount(d).table, op.name) == MAX_FILES
    ensures HasEffect(d, op)
  {
    FilesAt(Mount(d).table, d, op.name);
    assert Issued(d, op) == [];
  }

  lemma OneEffect(d: Disk, op: Op)
    requires Sound(d) && Usable(op)
    ensures HasEffect(d, op)
  {
    if op.Drop? {
      if Find(Mount(d).table, op.name) < MAX_FILES { DropEffect(d, op); } else { MissingEffect(d, op); }
    } else if Find(Mount(d).table, op.name) < MAX_FILES {
      OverwriteEffect(d, op);
    } else if FreeInode(Mount(d).table) < MAX_FILES {
      CreateEffect(d, op);
    } else {
      FullEffect(d, op);
    }
  }

  ghost predicate Effects(d: Disk, ops: seq<Op>)
    requires Sound(d) && AllUsable(ops)
    decreases |ops|
  {
    |ops| == 0 || (HasEffect(d, ops[0]) && Effects(After(d, ops[0]), ops[1..]))
  }

  /** Any run of writes and deletes, with power cuts and mounts anywhere in it: every call, complete or
      cut, has exactly its effect on the files. */
  lemma {:induction false} CrashRun(d: Disk, ops: seq<Op>)
    requires Sound(d) && AllUsable(ops)
    ensures Effects(d, ops)
    decreases |ops|
  {
    if |ops| > 0 {
      OneEffect(d, ops[0]);
      CrashRun(After(d, ops[0]), ops[1..]);
    }
  }

  // ----- Which calls are crash-atomic -----

  ghost predicate OverwritesAtomically(before: map<seq<Byte>, seq<Byte>>, op: Op)
    requires op.name in before ==> |before[op.name]| <= FILE_BYTES
  {
    op.Put? && op.name in before ==> Atomic(before[op.name], Clip(op.data))
  }

  ghost predicate AllOrNothing(before: map<seq<Byte>, seq<Byte>>, i: nat, j: nat, op: Op, cut: nat)
    requires op.name in before ==> |before[op.name]| <= FILE_BYTES
  {
    var after := Effect(before, i, j, op.(cut := cut));
    after == before || after == Whole(before, j, op)
  }

  lemma EffectAtomic(before: map<seq<Byte>, seq<Byte>>, i: nat, j: nat, op: Op, cut: nat)
    requires op.name in before ==> |before[op.name]| <= FILE_BYTES
    requires OverwritesAtomically(before, op)
    ensures AllOrNothing(before, i, j, op, cut)
  {
    if op.Put? && op.name in before {
      AtomicRemains(before[op.name], Clip(op.data), i, cut);
      assert before[op.name := before[op.name]] == before;
    } else if op.Drop? && op.name !in before {
      assert before - {op.name} == before;
    }
  }

  lemma EffectTorn(before: map<seq<Byte>, seq<Byte>>, i: nat, j: nat, op: Op) returns (cut: nat)
    requires op.name in before ==> |before[op.name]| <= FILE_BYTES
    requires !OverwritesAtomically(before, op)
    ensures !AllOrNothing(before, i, j, op, cut)
  {
    cut := TornRemains(before[op.name], Clip(op.data), i);
    var torn := Remains(before[op.name], Clip(op.data), i, cut);
    assert before[op.name := torn][op.name] == torn && before[op.name := Clip(op.data)][op.name] == Clip(op.data);
  }

  /** A call leaves all of its effect or nothing, wherever it is cut, exactly unless it overwrites a
      file by more than appending or changing one sector. */
  lemma CallAtomic(d: Disk, op: Op)
    requires Sound(d) && Usable(op)
    ensures var before := FilesOf(d);
      (forall cut: nat ::
         FilesOf(After(d, op.(cut := cut))) == before ||
         FilesOf(After(d, op.(cut := cut))) == Whole(before, FreeInode(Mount(d).table), op))
      <==> OverwritesAtomically(before, op)
  {
    var t, before := Mount(d).table, FilesOf(d);
    if OverwritesAtomically(before, op) {
      forall cut: nat
        ensures FilesOf(After(d, op.(cut := cut))) == before ||
                FilesOf(After(d, op.(cut := cut))) == Whole(before, FreeInode(t), op)
      {
        OneEffect(d, op.(cut := cut));
        EffectAtomic(before, Find(t, op.name), FreeInode(t), op, cut);
      }
    } else {
      var cut := EffectTorn(before, Find(t, op.name), FreeInode(t), op);
      OneEffect(d, op.(cut := cut));
    }
  }

  ghost predicate SameEntry(a: map<seq<Byte>, seq<Byte>>, b: map<seq<Byte>, seq<Byte>>, name: seq<Byte>) {
    (name in a <==> name in b) && (name in a ==> a[name] == b[name])
  }

  /** A file that no call of the run names keeps its bytes, whatever is cut. */
  lemma {:induction false} UntouchedKept(d: Disk, ops: seq<Op>, name: seq<Byte>)
    requires Sound(d) && AllUsable(ops) && forall i :: 0 <= i < |ops| ==> ops[i].name != name
    ensures SameEntry(FilesOf(d), FilesOf(RunDisk(d, ops)), name)
    decreases |ops|
  {
    if |ops| > 0 {
      OneUntouched(d, ops[0], name);
      UntouchedKept(After(d, ops[0]), ops[1..], name);
      RunStep(d, ops);
    }
  }

  lemma RunStep(d: Disk, ops: seq<Op>)
    requires Sound(d) && AllUsable(ops) && |ops| > 0
    ensures RunDisk(d, ops) == RunDisk(After(d, ops[0]), ops[1..])
  {
  }

  lemma OneUntouched(d: Disk, op: Op, name: seq<Byte>)
    requires Sound(d) && Usable(op) && op.name != name
    ensures SameEntry(FilesOf(d), FilesOf(After(d, op)), name)
  {
    OneEffect(d, op);
    EffectElsewhere(FilesOf(d), Find(Mount(d).table, op.name), FreeInode(Mount(d).table), op, name);
  }

  lemma EffectElsewhere(before: map<seq<Byte>, seq<Byte>>, i: nat, j: nat, op: Op, name: seq<Byte>)
    requires (op.name in before ==> |before[op.name]| <= FILE_BYTES) && name != op.name
    ensures SameEntry(before, Effect(before, i, j, op), name)
  {
  }

  lemma CompleteRead(d: Disk, op: Op)
    requires Sound(d) && op.Put? && Usable(op) && Complete(d, op)
    requires op.name in FilesOf(d) || FreeInode(Mount(d).table) < MAX_FILES
    ensures FilesOf(After(d, op)) == FilesOf(d)[op.name := Clip(op.data)]
  {
    OneEffect(d, op);
    FilesAt(Mount(d).table, d, op.name);
    CallLength(Mount(d), op.name, op.data);
  }

  /** And the last complete write of a name is what a later mount reads. */
  lemma LastWriteRead(d: Disk, op: Op, ops: seq<Op>)
    requires Sound(d) && op.Put? && Usable(op) && AllUsable(ops) && Complete(d, op)
    requires op.name in FilesOf(d) || FreeInode(Mount(d).table) < MAX_FILES
    requires forall i :: 0 <= i < |ops| ==> ops[i].name != op.name
    ensures var files := FilesOf(RunDisk(After(d, op), ops));
      op.name in files && files[op.name] == Clip(op.data)
  {
    CompleteRead(d, op);
    UntouchedKept(After(d, op), ops, op.name);
  }

  // What diskfs_format leaves
  ghost predicate Formatted(d: Disk) {
    var m := Mount(d);
    m.super == FreshSuper && forall i :: 0 <= i < MAX_FILES ==> m.table[i] == Blank
  }

  lemma FormatMount(d: Disk)
    ensures var ws := [SuperWrite(FreshSuper)] + TableWrites(FreshTable); OnDisk(ws, d) && Formatted(Apply(d, ws))
  {
    FormatDone(d);
    SyncedMount(Mem(FreshSuper, FreshTable), Apply(d, [SuperWrite(FreshSuper)] + TableWrites(FreshTable)));
  }

  /** A run may start from any disk that was formatted. */
  lemma FormattedSound(d: Disk)
    requires Formatted(d)
    ensures Sound(d) && Counted(Mount(d)) && FilesOf(d) == map[]
  {
    assert Mount(d).table == FreshTable;
    FreshGood();
    NoneUsed(FreshTable);
    NoFiles(FreshTable, d);
  }

  lemma {:induction false} NoneUsed(t: seq<Inode>)
    requires forall i :: 0 <= i < |t| ==> t[i].used == 0
    ensures CountUsed(t) == 0
  {
    if |t| > 0 {
      NoneUsed(t[..|t| - 1]);
    }
  }

  // ----- An overwrite that tears -----

  /** On any formatted disk: a file of 1024 bytes is overwritten by 1024 bytes that differ in the first
      and in the last one, and the power fails after one sector. The file is then neither. */
  lemma TornRun(d: Disk, name: seq<Byte>, was: seq<Byte>, bytes: seq<Byte>)
    requires Formatted(d) && 0 !in name && |name| < NAME_MAX
    requires |was| == |bytes| == 1024 && was[0] != bytes[0] && was[1023] != bytes[1023]
    ensures var d1 := After(d, Put(name, was, SLOT_SECTORS + 5));
      var torn := bytes[..SECTOR] + was[SECTOR..];
      && Sound(d) && FilesOf(d1) == map[name := was]
      && FilesOf(After(d1, Put(name, bytes, 1))) == map[name := torn]
      && torn != was && torn != bytes
  {
    FirstWrite(d, name, was);
    SecondWrite(After(d, Put(name, was, SLOT_SECTORS + 5)), name, was, bytes);
    var torn := bytes[..SECTOR] + was[SECTOR..];
    assert torn[0] == bytes[0] && torn[1023] == was[1023];
  }

  lemma FirstWrite(d: Disk, name: seq<Byte>, data: seq<Byte>)
    requires Formatted(d) && 0 !in name && |name| < NAME_MAX && |data| <= FILE_BYTES
    ensures Sound(d) && FilesOf(After(d, Put(name, data, SLOT_SECTORS + 5))) == map[name := data]
  {
    FormattedSound(d);
    assert Mount(d).table[0] == Blank;
    CallLength(Mount(d), name, data);
    CompleteRead(d, Put(name, data, SLOT_SECTORS + 5));
  }

  lemma SecondWrite(d: Disk, name: seq<Byte>, was: seq<Byte>, bytes: seq<Byte>)
    requires Sound(d) && 0 !in name && |name| < NAME_MAX && FilesOf(d) == map[name := was]
    requires SECTOR <= |was| == |bytes| <= FILE_BYTES
    ensures FilesOf(After(d, Put(name, bytes, 1))) == map[name := bytes[..SECTOR] + was[SECTOR..]]
  {
    OneEffect(d, Put(name, bytes, 1));
    SecondOf(FilesOf(d), Find(Mount(d).table, name), FreeInode(Mount(d).table), name, was, bytes);
  }

  lemma SecondOf(before: map<seq<Byte>, seq<Byte>>, i: nat, j: nat, name: seq<Byte>, was: seq<Byte>, bytes: seq<Byte>)
    requires before == map[name := was] && SECTOR <= |was| == |bytes| <= FILE_BYTES
    ensures Effect(before, i, j, Put(name, bytes, 1)) == map[name := bytes[..SECTOR] + was[SECTOR..]]
  {
    OneSector(was, bytes, i);
    assert map[name := was][name] == was;
  }

  lemma OneSector(was: seq<Byte>, bytes: seq<Byte>, i: nat)
    requires SECTOR <= |was| == |bytes| <= FILE_BYTES
    ensures Remains(was, bytes, i, 1) == bytes[..SECTOR] + was[SECTOR..]
  {
    var buf := Buffer(bytes);
    assert forall p :: 0 <= p < |bytes| ==> buf[..|bytes|][p] == buf[p];
  }

  /** `nfiles` grows by at most one per call. */
  lemma {:induction false} RunCount(d: Disk, ops: seq<Op>)
    requires Sound(d) && AllUsable(ops)
    ensures Mount(RunDisk(d, ops)).super.nfiles <= Mount(d).super.nfiles + |ops|
    decreases |ops|
  {
    if |ops| > 0 {
      OneCount(d, ops[0]);
      RunCount(After(d, ops[0]), ops[1..]);
      RunStep(d, ops);
    }
  }

  lemma OneCount(d: Disk, op: Op)
    requires Sound(d) && Usable(op)
    ensures Mount(After(d, op)).super.nfiles <= Mount(d).super.nfiles + 1
  {
    IssuedMount(d, op);
    CalledCount(Mount(d), op);
  }

  lemma CalledCount(m: Mem, op: Op)
    requires Good(m)
    ensures op.Put? ==> DoWrite(m, op.name, op.data).mem.super.nfiles <= m.super.nfiles + 1
    ensures op.Drop? ==> DoDelete(m, op.name).mem.super.nfiles <= m.super.nfiles
  {
  }
}
