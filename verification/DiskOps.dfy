/**
 The DiskFS calls as functions: new in-memory state plus the sector writes they issue, in order
 (fs/diskfs.c:30-144). The theorems say what each call does to the map of files, on a disk that is
 mounted again later, and on a disk whose power was cut between two sector writes.
 */
module DiskOps {
  import opened Word32
  import opened DiskLayout
  import opened DiskModel

  // The static variables `super` and `inodes`
  datatype Mem = Mem(super: Super, table: Table)

  datatype Outcome = Outcome(mem: Mem, writes: seq<SectorWrite>, ret: int)

  // What every call needs and keeps, on any disk that this file system wrote, cut short or not
  ghost predicate Good(m: Mem) {
    |m.super.rest| == 500 && m.super.magic == MAGIC && GoodTable(m.table)
  }

  // `nfiles` counts the used inodes. A power cut can leave it one off.
  ghost predicate Counted(m: Mem) { m.super.nfiles == CountUsed(m.table) }

  // The disk holds what memory holds.
  ghost predicate Synced(m: Mem, d: Disk)
    requires |m.super.rest| == 500 && Padded(m.table)
  {
    d[0] == EncodeSuper(m.super) && Holds(d, m.table)
  }

  function Clip(data: seq<Byte>): (r: seq<Byte>)
    ensures |r| <= FILE_BYTES
    ensures |data| <= 4096 ==> r == data
    ensures |data| > 4096 ==> r == data[..4096]
  {
    if |data| > FILE_BYTES then data[..FILE_BYTES] else data
  }

  function NewInode(name: seq<Byte>, size: U32, slot: U32): Inode {
    Inode(NameField(name), size, slot, 1, 0, Zeros(6))
  }

  function Flush(m: Mem): seq<SectorWrite>
    requires |m.super.rest| == 500 && Padded(m.table)
  {
    TableWrites(m.table) + [SuperWrite(m.super)]
  }

  // Memory after a name that was not found got inode i and slot
  function Added(m: Mem, i: nat, name: seq<Byte>, size: U32, slot: U32): Mem
    requires i < MAX_FILES
  {
    Mem(m.super.(nfiles := (m.super.nfiles + 1) % WORD), m.table[i := NewInode(name, size, slot)])
  }

  function DoWrite(m: Mem, name: seq<Byte>, data: seq<Byte>): Outcome
    requires |m.super.rest| == 500 && Padded(m.table)
  {
    var bytes := Clip(data);
    var i := Find(m.table, name);
    if i < MAX_FILES then
      var m' := m.(table := m.table[i := m.table[i].(size := |bytes|)]);
      Outcome(m', DataWrites(m.table[i].slot, Buffer(bytes)) + Flush(m'), |bytes|)
    else
      var j, slot := FreeInode(m.table), FreeSlot(m.table);
      if j == MAX_FILES || slot == MAX_FILES then Outcome(m, [], -1)
      else
        var m' := Added(m, j, name, |bytes|, slot);
        Outcome(m', DataWrites(slot, Buffer(bytes)) + Flush(m'), |bytes|)
  }

  function DoDelete(m: Mem, name: seq<Byte>): Outcome
    requires |m.super.rest| == 500 && Padded(m.table)
  {
    var i := Find(m.table, name);
    if i == MAX_FILES then Outcome(m, [], -1)
    else
      var n := m.super.nfiles;
      var m' := Mem(m.super.(nfiles := if n > 0 then n - 1 else n), m.table[i := Blank]);
      Outcome(m', Flush(m'), 0)
  }

  // ----- A free inode implies a free slot -----

  function UsedSlots(t: seq<Inode>): set<int> {
    set i | 0 <= i < |t| && t[i].used != 0 :: t[i].slot
  }

  lemma {:induction false} UsedSlotsBound(t: seq<Inode>)
    ensures |UsedSlots(t)| <= CountUsed(t) <= |t|
  {
    if |t| > 0 {
      var init, last := t[..|t| - 1], t[|t| - 1];
      UsedSlotsBound(init);
      UsedSlotsLast(t);
    }
  }

  lemma UsedSlotsLast(t: seq<Inode>)
    requires |t| > 0
    ensures var init, last := t[..|t| - 1], t[|t| - 1];
      UsedSlots(t) == UsedSlots(init) + if last.used != 0 then {last.slot as int} else {}
  {
    var init := t[..|t| - 1];
    forall i | 0 <= i < |init| ensures init[i] == t[i] {
    }
  }

  function UpTo(n: nat): (s: set<int>)
    ensures |s| == n && forall k :: k in s <==> 0 <= k < n
  {
    if n == 0 then {} else UpTo(n - 1) + {n - 1}
  }

  lemma {:induction false} CountFull(t: seq<Inode>, i: nat)
    requires i < |t| && t[i].used == 0
    ensures CountUsed(t) < |t|
  {
    if i < |t| - 1 {
      CountFull(t[..|t| - 1], i);
    } else {
      UsedSlotsBound(t[..|t| - 1]);
    }
  }

  /** Pigeonhole: `alloc_slot` cannot fail after `alloc_inode` succeeded. */
  lemma FreeSlotExists(t: Table)
    requires FreeInode(t) < MAX_FILES
    ensures FreeSlot(t) < MAX_FILES
  {
    if FreeSlot(t) == MAX_FILES {
      var all := UpTo(MAX_FILES);
      forall k | k in all ensures k in UsedSlots(t) {
        assert SlotTaken(t, k);
      }
      Subset(all, UsedSlots(t));
      UsedSlotsBound(t);
      CountFull(t, FreeInode(t));
    }
  }

  lemma Subset(a: set<int>, b: set<int>)
    requires a <= b
    ensures |a| <= |b|
  {
    assert b == a + (b - a);
  }

  // ----- nfiles -----

  lemma {:induction false} CountUpdate(t: seq<Inode>, i: nat, n: Inode)
    requires i < |t|
    ensures CountUsed(t[i := n]) ==
            CountUsed(t) - (if t[i].used != 0 then 1 else 0) + (if n.used != 0 then 1 else 0)
  {
    var init := t[..|t| - 1];
    if i < |t| - 1 {
      assert t[i := n][..|t| - 1] == init[i := n];
      CountUpdate(init, i, n);
    } else {
      assert t[i := n][..|t| - 1] == init;
    }
  }

  // ----- The map of files after a call -----

  // find_inode depends only on names and use marks.
  lemma FindSame(t: Table, t': Table, name: seq<Byte>)
    requires forall k :: 0 <= k < MAX_FILES ==> (IsFile(t[k], name) <==> IsFile(t'[k], name))
    ensures Find(t', name) == Find(t, name)
  {
  }

  lemma FindIs(t: Table, name: seq<Byte>, i: nat)
    requires i < MAX_FILES && IsFile(t[i], name) && forall k :: 0 <= k < i ==> !IsFile(t[k], name)
    ensures Find(t, name) == i
  {
  }

  // The same lookup result and the same bytes
  ghost predicate SameFile(t: Table, d: Disk, t': Table, d': Disk, name: seq<Byte>)
    requires GoodTable(t) && GoodTable(t')
  {
    var i := Find(t, name);
    Find(t', name) == i && (i < MAX_FILES ==> Contents(d', t'[i]) == Contents(d, t[i]))
  }

  lemma SameMap<K, V>(a: map<K, V>, b: map<K, V>)
    requires forall k :: (k in a <==> k in b) && (k in a ==> a[k] == b[k])
    ensures a == b
  {
  }

  lemma FilesChange(t: Table, d: Disk, t': Table, d': Disk, key: seq<Byte>, data: seq<Byte>)
    requires GoodTable(t) && GoodTable(t')
    requires Find(t', key) < MAX_FILES && Contents(d', t'[Find(t', key)]) == data
    requires forall name :: name != key ==> SameFile(t, d, t', d', name)
    ensures Files(t', d') == Files(t, d)[key := data]
  {
    var a, b := Files(t', d'), Files(t, d)[key := data];
    forall name ensures (name in a <==> name in b) && (name in a ==> a[name] == b[name]) {
      if name != key { OneFile(t, d, t', d', name); } else { FilesAt(t', d', name); }
    }
    SameMap(a, b);
  }

  lemma OneFile(t: Table, d: Disk, t': Table, d': Disk, name: seq<Byte>)
    requires GoodTable(t) && GoodTable(t') && SameFile(t, d, t', d', name)
    ensures var a, b := Files(t', d'), Files(t, d);
      (name in a <==> name in b) && (name in a ==> a[name] == b[name])
  {
    FilesAt(t, d, name);
    FilesAt(t', d', name);
  }

  lemma FilesDrop(t: Table, d: Disk, t': Table, key: seq<Byte>)
    requires GoodTable(t) && GoodTable(t') && Find(t', key) == MAX_FILES
    requires forall name :: name != key ==> SameFile(t, d, t', d, name)
    ensures Files(t', d) == Files(t, d) - {key}
  {
    var a, b := Files(t', d), Files(t, d) - {key};
    forall name ensures (name in a <==> name in b) && (name in a ==> a[name] == b[name]) {
      FilesAt(t, d, name);
      FilesAt(t', d, name);
      assert name != key ==> SameFile(t, d, t', d, name);
    }
    SameMap(a, b);
  }

  // An entry that changes size, with new data in its slot
  lemma FilesResized(t: Table, d: Disk, d': Disk, i: nat, data: seq<Byte>)
    requires GoodTable(t) && i < MAX_FILES && t[i].used != 0 && i == Find(t, CStr(t[i].name))
    requires |data| <= FILE_BYTES && SlotBytes(d', t[i].slot) == Buffer(data)
    requires forall other :: 0 <= other < MAX_FILES && other != t[i].slot ==>
      SlotBytes(d', other) == SlotBytes(d, other)
    ensures var t' := t[i := t[i].(size := |data|)];
      GoodTable(t') && Files(t', d') == Files(t, d)[CStr(t[i].name) := data]
  {
    var t' := t[i := t[i].(size := |data|)];
    var key := CStr(t[i].name);
    assert GoodTable(t');
    FindSame(t, t', key);
    forall name | name != key ensures SameFile(t, d, t', d', name) {
      FindSame(t, t', name);
      var k := Find(t, name);
      if k < MAX_FILES {
        assert t'[k] == t[k] && t[k].slot != t[i].slot;
      }
    }
    FilesChange(t, d, t', d', key, data);
  }

  lemma FilesAdded(t: Table, d: Disk, d': Disk, i: nat, name: seq<Byte>, slot: nat, data: seq<Byte>)
    requires GoodTable(t) && i < MAX_FILES && t[i].used == 0 && Find(t, name) == MAX_FILES
    requires 0 !in name && |name| < NAME_MAX && slot < MAX_FILES && !SlotTaken(t, slot)
    requires |data| <= FILE_BYTES && SlotBytes(d', slot) == Buffer(data)
    requires forall other :: 0 <= other < MAX_FILES && other != slot ==> SlotBytes(d', other) == SlotBytes(d, other)
    ensures var t' := t[i := NewInode(name, |data|, slot)];
      GoodTable(t') && Files(t', d') == Files(t, d)[name := data]
  {
    var t' := t[i := NewInode(name, |data|, slot)];
    AddedGood(t, i, name, |data|, slot);
    NameFieldCodec(name);
    FindIs(t', name, i);
    assert Contents(d', t'[i]) == data;
    forall other | other != name ensures SameFile(t, d, t', d', other) {
      AddedOther(t, d, t', d', i, slot, other);
    }
    FilesChange(t, d, t', d', name, data);
  }

  // Another name after a file was added
  lemma AddedOther(t: Table, d: Disk, t': Table, d': Disk, i: nat, slot: nat, other: seq<Byte>)
    requires GoodTable(t) && GoodTable(t') && i < MAX_FILES && t[i].used == 0 && t' == t[i := t'[i]]
    requires CStr(t'[i].name) != other && slot < MAX_FILES && !SlotTaken(t, slot)
    requires forall s :: 0 <= s < MAX_FILES && s != slot ==> SlotBytes(d', s) == SlotBytes(d, s)
    ensures SameFile(t, d, t', d', other)
  {
    FindSame(t, t', other);
    var k := Find(t, other);
    if k < MAX_FILES {
      assert SlotTaken(t, t[k].slot);
      assert t'[k] == t[k];
    }
  }

  lemma AddedGood(t: Table, i: nat, name: seq<Byte>, size: U32, slot: nat)
    requires GoodTable(t) && i < MAX_FILES
    requires slot < MAX_FILES && !SlotTaken(t, slot) && size <= FILE_BYTES
    ensures GoodTable(t[i := NewInode(name, size, slot)])
  {
    var f := NameField(name);
    assert f[47] == 0;
  }

  /** The names stay distinct: they were, and the new one was not found. */
  lemma AddedDistinct(t: Table, i: nat, name: seq<Byte>, size: U32, slot: nat)
    requires DistinctNames(t) && i < MAX_FILES && Find(t, name) == MAX_FILES
    requires 0 !in name && |name| < NAME_MAX
    requires slot < MAX_FILES
    ensures DistinctNames(t[i := NewInode(name, size, slot)])
  {
    NameFieldCodec(name);
    var n := NewInode(name, size, slot);
    forall k | 0 <= k < MAX_FILES && t[k].used != 0 ensures CStr(t[k].name) != CStr(n.name) {
      assert !IsFile(t[k], name);
    }
    DistinctUpdate(t, i, n);
  }

  lemma DistinctUpdate(t: Table, i: nat, n: Inode)
    requires DistinctNames(t) && i < MAX_FILES
    requires forall k :: 0 <= k < MAX_FILES && t[k].used != 0 ==> CStr(t[k].name) != CStr(n.name)
    ensures DistinctNames(t[i := n])
  {
  }

  lemma FilesRemoved(t: Table, d: Disk, i: nat)
    requires GoodTable(t) && DistinctNames(t) && i < MAX_FILES && t[i].used != 0
    ensures var t' := t[i := Blank];
      GoodTable(t') && DistinctNames(t') && Files(t', d) == Files(t, d) - {CStr(t[i].name)}
  {
    var t' := t[i := Blank];
    var key := CStr(t[i].name);
    assert GoodTable(t') && DistinctNames(t');
    forall k | 0 <= k < MAX_FILES ensures !IsFile(t'[k], key) {
    }
    forall name | name != key ensures SameFile(t, d, t', d, name) {
      FindSame(t, t', name);
    }
    FilesDrop(t, d, t', key);
  }
}
