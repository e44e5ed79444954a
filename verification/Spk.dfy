/**
 The package installer over RamFS and DiskFS (pkg/spk.c:12-65, pkg/spk.h:5-34).
 */
module KernelSpk {
  import opened RamTree
  import opened RamPath
  import opened RamView
  import opened KernelRamFS
  import opened SpkModel
  import opened OpenModel
  import opened FileStream
  import opened ByteStrings
  import opened Tokens
  import DL = DiskLayout
  import DM = DiskModel
  import DO = DiskOps
  import SD = SpkDisk
  import KernelDiskFS

  const HEADER: nat := 316
  const ENTRY: nat := 152
  const PATH_MAX: nat := 128
  const BASE_MAX: nat := 48
  const SPK_MAGIC: int := 0x4B505453

  // ----- The file format -----

  function Word(b: seq<DL.Byte>, at: nat): DL.U32
    requires at + 4 <= |b|
  {
    DL.FromLe32(b[at..at + 4])
  }

  predicate HeaderOk(data: seq<DL.Byte>) {
    |data| >= HEADER && Word(data, 0) == SPK_MAGIC && Word(data, 4) == 1
  }

  function FileCount(data: seq<DL.Byte>): nat
    requires |data| >= HEADER
  {
    Word(data, 248)
  }

  predicate TableInside(data: seq<DL.Byte>) {
    |data| >= HEADER && HEADER + ENTRY * FileCount(data) <= |data|
  }

  function PathField(data: seq<DL.Byte>, i: nat): (f: seq<DL.Byte>)
    requires TableInside(data) && i < FileCount(data)
    ensures |f| == PATH_MAX
  {
    data[HEADER + ENTRY * i..HEADER + ENTRY * i + PATH_MAX]
  }

  function Offset(data: seq<DL.Byte>, i: nat): DL.U32
    requires TableInside(data) && i < FileCount(data)
  {
    Word(data, HEADER + ENTRY * i + 128)
  }

  function Size(data: seq<DL.Byte>, i: nat): DL.U32
    requires TableInside(data) && i < FileCount(data)
  {
    Word(data, HEADER + ENTRY * i + 132)
  }

  // The path of entry i is a string with a short base, and its bytes, or for size 0 its C string, lie
  // inside the package.
  predicate EntryInside(data: seq<DL.Byte>, i: nat)
    requires TableInside(data) && i < FileCount(data)
  {
    && 0 in PathField(data, i) && |BaseOf(ToChars(DL.CStr(PathField(data, i))))| < BASE_MAX
    && Offset(data, i) + Size(data, i) <= |data| && (Size(data, i) == 0 ==> 0 in data[Offset(data, i)..])
  }

  // What ramfs_write takes from a buffer: for length 0 the C string in it
  function Taken(buf: string, size: nat): string
    requires size <= |buf|
  {
    if size == 0 then CString(buf) else buf[..size]
  }

  predicate WellFormed(data: seq<DL.Byte>) {
    TableInside(data) && forall i: nat :: i < FileCount(data) ==> EntryInside(data, i)
  }

  function ItemOf(data: seq<DL.Byte>, i: nat): Item
    requires TableInside(data) && i < FileCount(data) && EntryInside(data, i)
  {
    Item(ToChars(DL.CStr(PathField(data, i))), Taken(ToChars(data[Offset(data, i)..]), Size(data, i)))
  }

  function ItemsTo(data: seq<DL.Byte>, n: nat): (s: seq<Item>)
    requires WellFormed(data) && n <= FileCount(data)
    ensures |s| == n && forall i :: 0 <= i < n ==> s[i] == ItemOf(data, i)
  {
    if n == 0 then []
    else
      assert EntryInside(data, n - 1);
      ItemsTo(data, n - 1) + [ItemOf(data, n - 1)]
  }

  function Items(data: seq<DL.Byte>): seq<Item>
    requires WellFormed(data)
  {
    ItemsTo(data, FileCount(data))
  }

  lemma Terminated(b: seq<DL.Byte>)
    requires 0 in b
    ensures |CString(ToChars(b))| < |b|
  {
    var i :| 0 <= i < |b| && b[i] == 0;
    assert ToChars(b)[i] == NUL;
  }

  // What entry i is on the disk: its bytes under the base of its path, none for size 0
  function EntryPut(data: seq<DL.Byte>, i: nat): SD.DiskPut
    requires TableInside(data) && i < FileCount(data) && EntryInside(data, i)
  {
    var at := Offset(data, i);
    SD.DiskPut(ToBytes(BaseOf(ItemOf(data, i).path)), DO.Clip(data[at..at + Size(data, i)]))
  }

  function EntryPuts(data: seq<DL.Byte>, n: nat): (ps: seq<SD.DiskPut>)
    requires WellFormed(data) && n <= FileCount(data)
    ensures |ps| == n && forall i :: 0 <= i < n ==> EntryInside(data, i) && ps[i] == EntryPut(data, i)
  {
    if n == 0 then []
    else
      assert EntryInside(data, n - 1);
      EntryPuts(data, n - 1) + [EntryPut(data, n - 1)]
  }

  lemma EntryPutsNext(data: seq<DL.Byte>, i: nat, s: SD.Store)
    requires WellFormed(data) && i < FileCount(data)
    ensures EntryInside(data, i)
    ensures SD.Puts(s, EntryPuts(data, i + 1)) == SD.PutOne(SD.Puts(s, EntryPuts(data, i)), EntryPut(data, i))
  {
    assert EntryInside(data, i);
    SD.PutsAppend(s, EntryPuts(data, i), EntryPut(data, i));
  }

  lemma ItemsNext(data: seq<DL.Byte>, i: nat, fs: seq<Node>)
    requires WellFormed(data) && i < FileCount(data) && Shape(fs)
    ensures EntryInside(data, i)
    ensures InstallAll(fs, ItemsTo(data, i + 1)) == Install(InstallAll(fs, ItemsTo(data, i)), ItemOf(data, i))
  {
    assert EntryInside(data, i);
    assert ItemsTo(data, i + 1)[..i] == ItemsTo(data, i);
  }

  // Every listed path resolves to a file with its bytes.
  ghost predicate AllResolve(fs: seq<Node>, items: seq<Item>)
    requires Shape(fs)
  {
    forall i :: 0 <= i < |items| ==>
      var n := Resolved(fs, items[i].path);
      n != -1 && fs[n].kind == File && Bytes(fs[n]) == Upto(items[i].bytes, DATA_MAX)
  }

  lemma InstalledResolve(fs: seq<Node>, fs': seq<Node>, items: seq<Item>)
    requires Shape(fs) && Shape(fs') && Installed(fs, fs', items)
    ensures AllResolve(fs', items)
  {
    forall i | 0 <= i < |items|
      ensures var n := Resolved(fs', items[i].path);
        n != -1 && fs'[n].kind == File && Bytes(fs'[n]) == Upto(items[i].bytes, DATA_MAX)
    {
      ResolvedWalk(fs', items[i].path);
      assert At(fs', Names(items[i].path)).Holding?;
    }
  }

  // A tree that the package can be installed into
  ghost predicate Suits(fs: seq<Node>, items: seq<Item>) {
    IsTree(fs) && Separate(items) && AllPlaced(fs, items) && RoomForAll(fs, items)
  }

  /** A package that suits the tree: every listed path resolves to a file with exactly its bytes, and
      the rest of the tree is as it was. */
  lemma PackageResolves(fs: seq<Node>, items: seq<Item>)
    requires Shape(fs)
    ensures Suits(fs, items) ==>
      Installed(fs, InstallAll(fs, items), items) && AllResolve(InstallAll(fs, items), items)
  {
    if Suits(fs, items) {
      PackageInstalled(fs, items);
      InstalledResolve(fs, InstallAll(fs, items), items);
    }
  }

  class Installer {
    const fs: RamFS
    const disk: KernelDiskFS.DiskFS

    ghost predicate Valid()
      reads this, fs, fs.nodes, disk, disk.inodes, disk.disk.sectors
    {
      fs.Valid() && disk.Valid()
    }

    constructor (fs: RamFS, disk: KernelDiskFS.DiskFS)
      requires fs.Valid() && disk.Valid()
      ensures Valid() && this.fs == fs && this.disk == disk
    {
      this.fs := fs;
      this.disk := disk;
    }

    // The strtok loop that makes the intermediate directories
    method MakeDirectories(dir: string) returns (parent: nat)
      requires fs.Valid() && NUL !in dir
      modifies fs, fs.nodes
      ensures fs.Valid() && Place(fs.nodes[..], parent) == MakeDirs(old(fs.nodes[..]), 0, Names(dir))
    {
      ghost var all := MakeDirs(fs.nodes[..], 0, Names(dir));
      var t := new Tokenizer(Body(dir));
      parent := 0;
      var ok, tok := t.Next('/');
      while ok
        invariant t.Valid() && fresh(t) && fresh(t.buf) && fs.Valid() && parent < NODES
        invariant all == MakeDirs(fs.nodes[..], parent, if ok then [tok] + t.Rest('/') else [])
        decreases ok, |t.Rest('/')|
      {
        parent := OneDirectory(parent, tok, t.Rest('/'));
        ok, tok := t.Next('/');
      }
    }

    method OneDirectory(parent: nat, tok: string, ghost rest: seq<string>) returns (next: nat)
      requires fs.Valid() && parent < NODES
      modifies fs, fs.nodes
      ensures fs.Valid() && next < NODES
      ensures MakeDirs(fs.nodes[..], next, rest) == MakeDirs(old(fs.nodes[..]), parent, [tok] + rest)
    {
      assert ([tok] + rest)[1..] == rest;
      var d := fs.FindNode(parent, tok);
      if d == -1 { d := fs.Mkdir(parent, tok); }
      next := if d != -1 then d else parent;
    }

    // ramfs_find, ramfs_create, ramfs_write
    method StoreFile(parent: nat, base: string, buf: string, size: nat)
      requires fs.Valid() && parent < NODES && size <= |buf| && (size == 0 ==> |CString(buf)| < |buf|)
      modifies fs, fs.nodes
      ensures fs.Valid() && fs.nodes[..] == PutFile(old(fs.nodes[..]), parent, base, Upto(Taken(buf, size), DATA_MAX))
    {
      var f := fs.FindNode(parent, base);
      if f == -1 { f := fs.Create(parent, base); }
      if f != -1 {
        ghost var fs1 := fs.nodes[..];
        var n := fs.Write(f, buf, size);
        ghost var bytes := Taken(buf, size);
        assert bytes[..|Upto(bytes, DATA_MAX)|] == Upto(bytes, DATA_MAX);
        assert fs1[f].kind == File ==> fs.nodes[f] == Filled(fs1, f, Upto(bytes, DATA_MAX))[f];
        assert fs1[f].kind == File ==> fs.nodes[..] == Filled(fs1, f, Upto(bytes, DATA_MAX));
      }
    }

    // One entry, in RamFS
    method InstallEntry(path: string, buf: string, size: nat)
      requires Valid() && CName(path) && |path| < PATH_MAX && size <= |buf| && (size == 0 ==> |CString(buf)| < |buf|)
      modifies fs, fs.nodes
      ensures Valid() && fs.nodes[..] == Install(old(fs.nodes[..]), Item(path, Taken(buf, size)))
    {
      var last := FindBase(path);
      var dir, base := path[..last], path[last..];
      assert dir == DirOf(path) && base == BaseOf(path);
      assert NUL !in dir;
      var parent := fs.Resolve(dir);
      ResolvedWalk(fs.nodes[..], path);
      if parent == -1 { parent := MakeDirectories(dir); }
      StoreFile(parent, base, buf, size);
    }

    // diskfs_write of the base, if the disk is ready
    method StoreOnDisk(name: string, bytes: seq<DL.Byte>)
      requires disk.Valid() && CName(name) && |name| < DL.NAME_MAX
      modifies disk, disk.inodes, disk.disk, disk.disk.sectors
      ensures disk.Valid() && disk.ready == old(disk.ready)
      ensures disk.ready ==> DiskStore() == SD.PutOne(old(DiskStore()), SD.DiskPut(ToBytes(name), DO.Clip(bytes)))
    {
      CharsOfBytes(name);
      if disk.ready { PutOnDisk(ToBytes(name), bytes); }
    }

    // The files of the disk and the number of its unused inodes
    ghost function DiskStore(): SD.Store
      requires disk.Valid() && disk.ready
      reads disk, disk.inodes, disk.disk.sectors
    {
      SD.Store(disk.View(), SD.Unused(disk.inodes[..]))
    }

    method PutOnDisk(name: seq<DL.Byte>, bytes: seq<DL.Byte>)
      requires disk.Valid() && disk.ready && 0 !in name && |name| < DL.NAME_MAX
      modifies disk, disk.inodes, disk.disk, disk.disk.sectors
      ensures disk.Valid() && disk.ready
      ensures DiskStore() == SD.PutOne(old(DiskStore()), SD.DiskPut(name, DO.Clip(bytes)))
    {
      ghost var m := disk.State();
      SD.NoneUnused(m.table);
      SD.UnusedAfter(m, name, bytes);
      DM.FilesAt(m.table, disk.disk.Image(), name);
      var r := disk.Write(name, bytes);
    }

    // The first n entries are installed, in the tree and on the disk.
    ghost predicate Extracted(data: seq<DL.Byte>, n: nat, fs0: seq<Node>, s0: SD.Store)
      requires Valid() && WellFormed(data) && n <= FileCount(data) && Shape(fs0)
      reads this, fs, fs.nodes, disk, disk.inodes, disk.disk.sectors
    {
      && fs.nodes[..] == InstallAll(fs0, ItemsTo(data, n))
      && (disk.ready ==> DiskStore() == SD.Puts(s0, EntryPuts(data, n)))
    }

    lemma ExtractedNone(data: seq<DL.Byte>, fs0: seq<Node>, s0: SD.Store)
      requires Valid() && WellFormed(data) && fs0 == fs.nodes[..] && (disk.ready ==> s0 == DiskStore())
      ensures Extracted(data, 0, fs0, s0)
    {
    }

    // The loop over the file table
    method ExtractFiles(data: seq<DL.Byte>, ghost fs0: seq<Node>, ghost s0: SD.Store)
      requires Valid() && WellFormed(data) && fs0 == fs.nodes[..] && (disk.ready ==> s0 == DiskStore())
      modifies fs, fs.nodes, disk, disk.inodes, disk.disk, disk.disk.sectors
      ensures Valid() && disk.ready == old(disk.ready) && Extracted(data, FileCount(data), fs0, s0)
    {
      var n := FileCount(data);
      var i := 0;
      ExtractedNone(data, fs0, s0);
      while i < n
        invariant 0 <= i <= n && Valid() && disk.ready == old(disk.ready)
        invariant Extracted(data, i, fs0, s0)
      {
        ExtractNext(data, i, fs0, s0);
        i := i + 1;
      }
    }

    method ExtractNext(data: seq<DL.Byte>, i: nat, ghost fs0: seq<Node>, ghost s0: SD.Store)
      requires Valid() && WellFormed(data) && i < FileCount(data) && Shape(fs0) && Extracted(data, i, fs0, s0)
      modifies fs, fs.nodes, disk, disk.inodes, disk.disk, disk.disk.sectors
      ensures Valid() && disk.ready == old(disk.ready) && Extracted(data, i + 1, fs0, s0)
    {
      ItemsNext(data, i, fs0);
      EntryPutsNext(data, i, s0);
      ExtractFile(data, i);
    }

    method ExtractFile(data: seq<DL.Byte>, i: nat)
      requires Valid() && WellFormed(data) && i < FileCount(data)
      modifies fs, fs.nodes, disk, disk.inodes, disk.disk, disk.disk.sectors
      ensures Valid() && disk.ready == old(disk.ready)
      ensures fs.nodes[..] == Install(old(fs.nodes[..]), ItemOf(data, i))
      ensures disk.ready ==> DiskStore() == SD.PutOne(old(DiskStore()), EntryPut(data, i))
    {
      var path, buf, size := ReadEntry(data, i);
      InstallEntry(path, ToChars(buf), size);
      StoreOnDisk(path[BaseStart(path)..], buf[..size]);
    }

    // const spk_file_entry_t *e = &entries[i]
    method ReadEntry(data: seq<DL.Byte>, i: nat) returns (path: string, buf: seq<DL.Byte>, size: nat)
      requires WellFormed(data) && i < FileCount(data)
      ensures EntryInside(data, i) && size <= |buf| && (size == 0 ==> |CString(ToChars(buf))| < |buf|)
      ensures ItemOf(data, i) == Item(path, Taken(ToChars(buf), size)) &&
          EntryPut(data, i).bytes == DO.Clip(buf[..size])
      ensures CName(path) && |path| < PATH_MAX && |BaseOf(path)| < BASE_MAX
    {
      assert EntryInside(data, i);
      var at := HEADER + ENTRY * i;
      path := ToChars(DL.CStr(data[at..at + PATH_MAX]));
      var offset: int := Word(data, at + 128);
      size := Word(data, at + 132);
      FieldName(PathField(data, i));
      buf := data[offset..];
      assert buf[..size] == data[offset..offset + size];
      if size == 0 { Terminated(buf); }
    }

    /** spk_install: refused unless the header is right; otherwise every entry is installed in order,
        and the package is recorded on the disk. */
    method SpkInstall(data: seq<DL.Byte>) returns (ok: bool)
      requires Valid() && (HeaderOk(data) ==> WellFormed(data) && RecordFits(data))
      modifies fs, fs.nodes, disk, disk.inodes, disk.disk, disk.disk.sectors
      ensures Valid() && ok == HeaderOk(data) && disk.ready == old(disk.ready)
      ensures !ok ==> fs.nodes[..] == old(fs.nodes[..])
      ensures !ok ==> disk.State() == old(disk.State()) && disk.disk.Image() == old(disk.disk.Image())
      ensures ok ==> fs.nodes[..] == InstallAll(old(fs.nodes[..]), Items(data))
      ensures ok && Suits(old(fs.nodes[..]), Items(data)) ==>
        Installed(old(fs.nodes[..]), fs.nodes[..], Items(data)) && AllResolve(fs.nodes[..], Items(data))
      ensures ok && old(disk.ready) ==> DiskStore() == SD.Puts(old(DiskStore()), PackagePuts(data))
      ensures ok && old(disk.ready) ==> var before, ps := old(DiskStore()), PackagePuts(data);
        SD.AllPut(before, ps, disk.View()) <==> |SD.NewNames(before.files, ps)| <= before.free
    {
      if |data| < HEADER { return false; }
      if Word(data, 0) != SPK_MAGIC { return false; }
      if Word(data, 4) != 1 { return false; }
      ghost var fs0 := fs.nodes[..];
      PackageResolves(fs0, Items(data));
      InstallFiles(data);
      if disk.ready { SD.PutsExactly(old(DiskStore()), PackagePuts(data)); }
      return true;
    }

    method InstallFiles(data: seq<DL.Byte>)
      requires Valid() && WellFormed(data) && RecordFits(data)
      modifies fs, fs.nodes, disk, disk.inodes, disk.disk, disk.disk.sectors
      ensures Valid() && disk.ready == old(disk.ready)
      ensures fs.nodes[..] == InstallAll(old(fs.nodes[..]), Items(data))
      ensures disk.ready ==> DiskStore() == SD.Puts(old(DiskStore()), PackagePuts(data))
    {
      ghost var s0 := if disk.ready then DiskStore() else SD.Store(map[], 0);
      ExtractFiles(data, fs.nodes[..], s0);
      WriteRecord(data);
      SD.PutsAppend(s0, EntryPuts(data, FileCount(data)), RecordPut(data));
    }

    method WriteRecord(data: seq<DL.Byte>)
      requires disk.Valid() && |data| >= HEADER && RecordFits(data)
      modifies disk, disk.inodes, disk.disk, disk.disk.sectors
      ensures disk.Valid() && disk.ready == old(disk.ready)
      ensures disk.ready ==> DiskStore() == SD.PutOne(old(DiskStore()), RecordPut(data))
    {
      if disk.ready { PutOnDisk(RecordName(data), Record(data)); }
    }
  }

  function PackageName(data: seq<DL.Byte>): seq<DL.Byte>
    requires |data| >= HEADER
  {
    DL.CStr(data[8..56])
  }

  function Version(data: seq<DL.Byte>): seq<DL.Byte>
    requires |data| >= HEADER
  {
    DL.CStr(data[56..72])
  }

  // "installed_" and the name of the package
  function RecordName(data: seq<DL.Byte>): seq<DL.Byte>
    requires |data| >= HEADER
  {
    ToBytes("installed_") + PackageName(data)
  }

  // Name, blank, version, line feed
  function Record(data: seq<DL.Byte>): seq<DL.Byte>
    requires |data| >= HEADER
  {
    PackageName(data) + [32] + Version(data) + [10]
  }

  // The name field and the record name fit their buffers of 48 bytes, the version its field of 16.
  predicate RecordFits(data: seq<DL.Byte>)
    requires |data| >= HEADER
  {
    |RecordName(data)| < DL.NAME_MAX && |Version(data)| < 16
  }

  function RecordPut(data: seq<DL.Byte>): SD.DiskPut
    requires |data| >= HEADER
  {
    SD.DiskPut(RecordName(data), DO.Clip(Record(data)))
  }

  // All writes of an installation: the entries in order, then the record
  function PackagePuts(data: seq<DL.Byte>): seq<SD.DiskPut>
    requires WellFormed(data)
  {
    EntryPuts(data, FileCount(data)) + [RecordPut(data)]
  }
}
