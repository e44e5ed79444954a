/**
 DiskFS as functions on an inode table and on disk sectors (fs/diskfs.c).

 `Files` is what a client can read: the map from names to bytes. The sector writes of one call are
 a list, so that a power cut can be placed between any two of them.
 */
module DiskModel {
  import opened DiskLayout

  type Disk = s: seq<Sector> | |s| >= 261 witness seq<Sector>(261, _ => ZeroSector)

  // Sectors 1 to 4
  function InodeSectors(d: Disk): (r: seq<Sector>)
    ensures |r| == 4
  {
    [d[1], d[2], d[3], d[4]]
  }

  // The table is on the disk.
  ghost predicate Holds(d: Disk, t: Table)
    requires Padded(t)
  {
    && d[1] == TableSector(t, 0) && d[2] == TableSector(t, 1)
    && d[3] == TableSector(t, 2) && d[4] == TableSector(t, 3)
  }

  lemma HeldTable(d: Disk, t: Table)
    requires Padded(t) && Holds(d, t)
    ensures TableFrom(InodeSectors(d)) == t
  {
    TableCodec(t);
    assert InodeSectors(d) == TableSectors(t);
  }

  lemma TableHeld(d: Disk)
    ensures Holds(d, TableFrom(InodeSectors(d)))
  {
    TableCodecBack(InodeSectors(d));
  }

  // ----- Searching the table -----

  predicate IsFile(n: Inode, name: seq<Byte>) { n.used != 0 && CStr(n.name) == name }

  // find_inode: first used inode with the name, the length if there is none
  function Find(t: seq<Inode>, name: seq<Byte>): (i: nat)
    ensures i <= |t| && (i < |t| ==> IsFile(t[i], name))
    ensures forall k :: 0 <= k < i ==> !IsFile(t[k], name)
  {
    if |t| == 0 || IsFile(t[0], name) then 0 else Find(t[1..], name) + 1
  }

  // alloc_inode: first unused inode
  function FreeInode(t: seq<Inode>): (i: nat)
    ensures i <= |t| && (i < |t| ==> t[i].used == 0)
    ensures forall k :: 0 <= k < i ==> t[k].used != 0
  {
    if |t| == 0 || t[0].used == 0 then 0 else FreeInode(t[1..]) + 1
  }

  predicate SlotTaken(t: Table, slot: int) {
    exists i :: 0 <= i < MAX_FILES && t[i].used != 0 && t[i].slot == slot
  }

  // alloc_slot: first of the slots below n that no used inode owns, n if there is none
  function FreeSlotBelow(t: Table, n: nat): (s: nat)
    ensures s <= n && (s < n ==> !SlotTaken(t, s))
    ensures forall k :: 0 <= k < s ==> SlotTaken(t, k)
  {
    if n == 0 then 0
    else
      var s := FreeSlotBelow(t, n - 1);
      if s < n - 1 || !SlotTaken(t, s) then s else n
  }

  function FreeSlot(t: Table): (s: nat)
    ensures s <= MAX_FILES
    ensures s < MAX_FILES ==> !SlotTaken(t, s)
    ensures forall k :: 0 <= k < s ==> SlotTaken(t, k)
  {
    FreeSlotBelow(t, |t|)
  }

  function CountUsed(t: seq<Inode>): nat {
    if |t| == 0 then 0 else CountUsed(t[..|t| - 1]) + if t[|t| - 1].used != 0 then 1 else 0
  }

  // ----- What a well-formed table looks like -----

  ghost predicate GoodInode(n: Inode) {
    |n.pad| == 6 && (n.used != 0 ==> 0 in n.name && n.size <= FILE_BYTES && n.slot < MAX_FILES)
  }

  ghost predicate DistinctSlots(t: Table) {
    forall i, j :: 0 <= i < j < MAX_FILES && t[i].used != 0 && t[j].used != 0 ==> t[i].slot != t[j].slot
  }

  ghost predicate DistinctNames(t: Table) {
    forall i, j :: 0 <= i < j < MAX_FILES && t[i].used != 0 && t[j].used != 0 ==> CStr(t[i].name) != CStr(t[j].name)
  }

  ghost predicate GoodTable(t: Table) {
    (forall i :: 0 <= i < MAX_FILES ==> GoodInode(t[i])) && DistinctSlots(t)
  }

  // ----- File contents -----

  // The 4096 bytes of a slot
  function SlotBytes(d: Disk, slot: nat): (b: seq<Byte>)
    requires slot < MAX_FILES
    ensures |b| == FILE_BYTES
  {
    seq(FILE_BYTES, p requires 0 <= p < FILE_BYTES => d[DATA_SECTOR + slot * SLOT_SECTORS + p / 512][p % 512])
  }

  function Contents(d: Disk, n: Inode): seq<Byte>
    requires n.slot < MAX_FILES && n.size <= FILE_BYTES
  {
    SlotBytes(d, n.slot)[..n.size]
  }

  function Names(t: Table): set<seq<Byte>> {
    set i | 0 <= i < MAX_FILES && t[i].used != 0 :: CStr(t[i].name)
  }

  lemma NamesFound(t: Table, name: seq<Byte>)
    ensures name in Names(t) <==> Find(t, name) < MAX_FILES
  {
    if Find(t, name) < MAX_FILES {
      assert t[Find(t, name)].used != 0;
    }
  }

  ghost function Files(t: Table, d: Disk): map<seq<Byte>, seq<Byte>>
    requires GoodTable(t)
  {
    map name | name in Names(t) ::
      NamesFound(t, name);
      Contents(d, t[Find(t, name)])
  }

  lemma FilesAt(t: Table, d: Disk, name: seq<Byte>)
    requires GoodTable(t)
    ensures name in Files(t, d) <==> Find(t, name) < MAX_FILES
    ensures Find(t, name) < MAX_FILES ==> Files(t, d)[name] == Contents(d, t[Find(t, name)])
  {
    NamesFound(t, name);
  }

  lemma SlotBytesFrame(d: Disk, d': Disk, slot: nat)
    requires slot < MAX_FILES
    requires var base := DATA_SECTOR + slot * SLOT_SECTORS;
      forall j :: base <= j < base + SLOT_SECTORS ==> d[j] == d'[j]
    ensures SlotBytes(d, slot) == SlotBytes(d', slot)
  {
    forall p | 0 <= p < FILE_BYTES ensures SlotBytes(d, slot)[p] == SlotBytes(d', slot)[p] {
      assert d[DATA_SECTOR + slot * SLOT_SECTORS + p / 512] == d'[DATA_SECTOR + slot * SLOT_SECTORS + p / 512];
    }
  }

  // Disks that agree on the sectors of every slot in use hold the same files.
  lemma FilesFrame(t: Table, d: Disk, d': Disk)
    requires GoodTable(t)
    requires forall slot :: 0 <= slot < MAX_FILES && SlotTaken(t, slot) ==> SlotBytes(d, slot) == SlotBytes(d', slot)
    ensures Files(t, d) == Files(t, d')
  {
    forall name | name in Names(t)
      ensures Find(t, name) < MAX_FILES && Contents(d, t[Find(t, name)]) == Contents(d', t[Find(t, name)])
    {
      NamesFound(t, name);
      assert SlotTaken(t, t[Find(t, name)].slot);
    }
  }

  // ----- Sector writes -----

  datatype SectorWrite = SectorWrite(lba: nat, data: Sector)

  ghost predicate OnDisk(ws: seq<SectorWrite>, d: Disk) {
    forall i :: 0 <= i < |ws| ==> ws[i].lba < |d|
  }

  function Apply(d: Disk, ws: seq<SectorWrite>): (r: Disk)
    requires OnDisk(ws, d)
    ensures |r| == |d|
  {
    if |ws| == 0 then d
    else
      var last := ws[|ws| - 1];
      Apply(d, ws[..|ws| - 1])[last.lba := last.data]
  }

  lemma {:induction false} ApplyConcat(d: Disk, a: seq<SectorWrite>, b: seq<SectorWrite>)
    requires OnDisk(a, d) && OnDisk(b, d)
    ensures Apply(d, a + b) == Apply(Apply(d, a), b)
    decreases |b|
  {
    if |b| == 0 {
      assert a + b == a;
    } else {
      var init := b[..|b| - 1];
      assert (a + b)[..|a + b| - 1] == a + init;
      ApplyConcat(d, a, init);
    }
  }

  // One more write of a list
  lemma ApplyStep(d: Disk, ws: seq<SectorWrite>, s: nat)
    requires OnDisk(ws, d) && s < |ws|
    ensures ws[..s + 1] == ws[..s] + [ws[s]]
    ensures Apply(d, ws[..s + 1]) == Apply(d, ws[..s])[ws[s].lba := ws[s].data]
  {
    assert ws[..s + 1][..s] == ws[..s];
  }

  lemma ApplyPrefix(d: Disk, a: seq<SectorWrite>, b: seq<SectorWrite>, k: nat)
    requires OnDisk(a, d) && OnDisk(b, d) && k <= |a| + |b|
    ensures OnDisk((a + b)[..k], d)
    ensures Apply(d, (a + b)[..k]) == if k <= |a| then Apply(d, a[..k]) else Apply(Apply(d, a), b[..k - |a|])
  {
    if k <= |a| {
      assert (a + b)[..k] == a[..k];
    } else {
      assert (a + b)[..k] == a + b[..k - |a|];
      ApplyConcat(d, a, b[..k - |a|]);
    }
  }

  // Writes to consecutive sectors
  ghost predicate Consecutive(ws: seq<SectorWrite>, base: nat) {
    forall i :: 0 <= i < |ws| ==> ws[i].lba == base + i
  }

  lemma {:induction false} ApplyConsecutive(d: Disk, ws: seq<SectorWrite>, base: nat)
    requires OnDisk(ws, d) && Consecutive(ws, base)
    ensures forall j :: 0 <= j < |d| ==>
      Apply(d, ws)[j] == if base <= j < base + |ws| then ws[j - base].data else d[j]
  {
    if |ws| > 0 {
      ApplyConsecutive(d, ws[..|ws| - 1], base);
    }
  }

  lemma ApplyPart(d: Disk, ws: seq<SectorWrite>, base: nat, k: nat, j: nat)
    requires OnDisk(ws, d) && Consecutive(ws, base) && k <= |ws| && j < |d|
    ensures OnDisk(ws[..k], d)
    ensures Apply(d, ws[..k])[j] == if base <= j < base + k then ws[j - base].data else d[j]
  {
    ApplyConsecutive(d, ws[..k], base);
  }

  function BufSector(buf: seq<Byte>, k: nat): Sector
    requires |buf| == FILE_BYTES && k < SLOT_SECTORS
  {
    buf[SECTOR * k..SECTOR * k + SECTOR]
  }

  function DataWrites(slot: nat, buf: seq<Byte>): (ws: seq<SectorWrite>)
    requires |buf| == FILE_BYTES
    ensures |ws| == SLOT_SECTORS && Consecutive(ws, DATA_SECTOR + slot * SLOT_SECTORS)
    ensures forall k :: 0 <= k < SLOT_SECTORS ==> ws[k].data == BufSector(buf, k)
  {
    seq(SLOT_SECTORS, k requires 0 <= k < SLOT_SECTORS =>
      SectorWrite(DATA_SECTOR + slot * SLOT_SECTORS + k, BufSector(buf, k)))
  }

  function TableWrites(t: Table): (ws: seq<SectorWrite>)
    requires Padded(t)
    ensures |ws| == 4 && Consecutive(ws, INODE_SECTOR)
    ensures forall k :: 0 <= k < 4 ==> ws[k].data == TableSector(t, k)
  {
    seq(4, k requires 0 <= k < 4 => SectorWrite(INODE_SECTOR + k, TableSector(t, k)))
  }

  function SuperWrite(s: Super): SectorWrite
    requires |s.rest| == 500
  {
    SectorWrite(0, EncodeSuper(s))
  }

  // memset and memcpy into the 4 KB buffer
  function Buffer(data: seq<Byte>): (b: seq<Byte>)
    requires |data| <= FILE_BYTES
    ensures |b| == FILE_BYTES && b[..|data|] == data
  {
    data + Zeros(FILE_BYTES - |data|)
  }

  // Writing a slot stores exactly the buffer there and disturbs no other slot and no metadata.
  lemma DataWritten(d: Disk, slot: nat, buf: seq<Byte>)
    requires slot < MAX_FILES && |buf| == FILE_BYTES
    ensures OnDisk(DataWrites(slot, buf), d)
    ensures var d' := Apply(d, DataWrites(slot, buf));
      SlotBytes(d', slot) == buf
  {
    var ws := DataWrites(slot, buf);
    var d' := Apply(d, ws);
    ApplyConsecutive(d, ws, DATA_SECTOR + slot * SLOT_SECTORS);
    forall p | 0 <= p < FILE_BYTES ensures SlotBytes(d', slot)[p] == buf[p] {
      assert d'[DATA_SECTOR + slot * SLOT_SECTORS + p / 512] == BufSector(buf, p / 512);
      assert SECTOR * (p / 512) + p % 512 == p;
    }
  }

  // Part of a slot write: the sectors written so far are new, the others old.
  lemma DataPart(d: Disk, slot: nat, buf: seq<Byte>, k: nat)
    requires slot < MAX_FILES && |buf| == FILE_BYTES && k <= SLOT_SECTORS
    ensures OnDisk(DataWrites(slot, buf)[..k], d)
    ensures var d' := Apply(d, DataWrites(slot, buf)[..k]);
      forall p :: 0 <= p < FILE_BYTES ==>
        SlotBytes(d', slot)[p] == if p < SECTOR * k then buf[p] else SlotBytes(d, slot)[p]
  {
    var ws, base := DataWrites(slot, buf), DATA_SECTOR + slot * SLOT_SECTORS;
    var d' := Apply(d, ws[..k]);
    forall p | 0 <= p < FILE_BYTES
      ensures SlotBytes(d', slot)[p] == if p < SECTOR * k then buf[p] else SlotBytes(d, slot)[p]
    {
      ApplyPart(d, ws, base, k, base + p / SECTOR);
      if p < SECTOR * k { assert BufSector(buf, p / SECTOR)[p % SECTOR] == buf[p]; }
    }
  }

  // Any part of a slot write leaves the other slots and the metadata alone.
  lemma DataElsewhere(d: Disk, slot: nat, buf: seq<Byte>, k: nat)
    requires slot < MAX_FILES && |buf| == FILE_BYTES && k <= SLOT_SECTORS
    ensures OnDisk(DataWrites(slot, buf)[..k], d)
    ensures var d' := Apply(d, DataWrites(slot, buf)[..k]);
      && (forall j :: 0 <= j < DATA_SECTOR ==> d'[j] == d[j])
      && forall other :: 0 <= other < MAX_FILES && other != slot ==> SlotBytes(d', other) == SlotBytes(d, other)
  {
    var ws := DataWrites(slot, buf)[..k];
    var d' := Apply(d, ws);
    ApplyConsecutive(d, ws, DATA_SECTOR + slot * SLOT_SECTORS);
    forall other | 0 <= other < MAX_FILES && other != slot
      ensures SlotBytes(d', other) == SlotBytes(d, other)
    {
      SlotBytesFrame(d, d', other);
    }
  }
}
