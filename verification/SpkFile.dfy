/**
 A package as the structs of pkg/spk.h:5-34 and the bytes they stand for: what the installer reads from
 those bytes is what the structs hold.
 */
module SpkFile {
  import opened ByteStrings
  import opened RamTree
  import opened RamPath
  import opened FileStream
  import opened SpkModel
  import opened KernelSpk
  import DL = DiskLayout
  import DO = DiskOps
  import SD = SpkDisk

  // spk_header_t; the strings stand in arrays of 48, 16, 128 and 48 characters
  datatype Header = Header(
    magic: DL.U32, version: DL.U32, name: string, pkgVer: string, description: string, author: string,
    nfiles: DL.U32, installSize: DL.U32)

  // spk_file_entry_t; the path stands in an array of 128 characters
  datatype Entry = Entry(path: string, offset: DL.U32, size: DL.U32, mode: DL.U32)

  // The header, the table, and the bytes of the files
  datatype Package = Package(header: Header, entries: seq<Entry>, rest: seq<DL.Byte>)

  // ----- The bytes -----

  // A character array that holds a string
  function Chars(s: string, n: nat): (b: seq<DL.Byte>)
    ensures |b| == n
  {
    if |s| < n then ToBytes(s) + DL.Zeros(n - |s|) else DL.Zeros(n)
  }

  function HeaderBytes(h: Header): (b: seq<DL.Byte>)
    ensures |b| == 316
  {
    DL.Le32(h.magic) + DL.Le32(h.version) + Chars(h.name, 48) + Chars(h.pkgVer, 16) + Chars(h.description, 128) +
    Chars(h.author, 48) + DL.Le32(h.nfiles) + DL.Le32(h.installSize) + DL.Zeros(60)
  }

  function EntryBytes(e: Entry): (b: seq<DL.Byte>)
    ensures |b| == 152
  {
    Chars(e.path, 128) + DL.Le32(e.offset) + DL.Le32(e.size) + DL.Le32(e.mode) + DL.Zeros(12)
  }

  function TableBytes(es: seq<Entry>): (b: seq<DL.Byte>)
    ensures |b| == 152 * |es|
  {
    if |es| == 0 then [] else TableBytes(es[..|es| - 1]) + EntryBytes(es[|es| - 1])
  }

  function PackageBytes(p: Package): seq<DL.Byte> {
    HeaderBytes(p.header) + TableBytes(p.entries) + p.rest
  }

  predicate Stored(s: string, n: nat) { CName(s) && |s| < n }

  predicate GoodEntry(e: Entry, size: nat) {
    Stored(e.path, 128) && |BaseOf(e.path)| < 48 && 0 < e.size && e.offset + e.size <= size
  }

  // A package whose files lie in it
  ghost predicate Good(p: Package) {
    && Stored(p.header.name, 38) && Stored(p.header.pkgVer, 16) && p.header.nfiles == |p.entries|
    && forall i :: 0 <= i < |p.entries| ==> GoodEntry(p.entries[i], |PackageBytes(p)|)
  }

  // ----- Reading them back -----

  lemma WordAt(b: seq<DL.Byte>, at: nat, v: DL.U32)
    requires at + 4 <= |b| && b[at..at + 4] == DL.Le32(v)
    ensures Word(b, at) == v
  {
    DL.Le32Inverse(v);
  }

  lemma CharsRead(s: string, n: nat)
    requires Stored(s, n)
    ensures DL.CStr(Chars(s, n)) == ToBytes(s) && 0 in Chars(s, n) && ToChars(ToBytes(s)) == s
  {
    CharsOfBytes(s);
    var b := Chars(s, n);
    assert b[..|s|] == ToBytes(s) && b[|s|] == 0;
    DL.CStrIs(b, |s|);
  }

  // Where the fields lie
  lemma HeaderFields(h: Header)
    ensures var b := HeaderBytes(h);
      && b[0..4] == DL.Le32(h.magic) && b[4..8] == DL.Le32(h.version) && b[8..56] == Chars(h.name, 48)
      && b[56..72] == Chars(h.pkgVer, 16) && b[248..252] == DL.Le32(h.nfiles)
  {
  }

  lemma EntryFields(e: Entry)
    ensures var b := EntryBytes(e);
      b[0..128] == Chars(e.path, 128) && b[128..132] == DL.Le32(e.offset) && b[132..136] == DL.Le32(e.size)
  {
  }

  // A part of a part
  lemma Inner(b: seq<DL.Byte>, part: seq<DL.Byte>, from: nat, at: nat, n: nat)
    requires from + |part| <= |b| && b[from..from + |part|] == part && at + n <= |part|
    ensures b[from + at..from + at + n] == part[at..at + n]
  {
    var x, y := b[from + at..from + at + n], part[at..at + n];
    forall j | 0 <= j < n ensures x[j] == y[j] {
      assert x[j] == b[from + (at + j)] && y[j] == part[at + j] == b[from..from + |part|][at + j];
    }
  }

  lemma HeaderWords(h: Header, data: seq<DL.Byte>)
    requires HeaderBytes(h) <= data
    ensures Word(data, 0) == h.magic && Word(data, 4) == h.version && Word(data, 248) == h.nfiles
    ensures data[8..56] == Chars(h.name, 48) && data[56..72] == Chars(h.pkgVer, 16)
  {
    var b := HeaderBytes(h);
    HeaderFields(h);
    assert data[0..316] == b;
    Inner(data, b, 0, 0, 4);
    Inner(data, b, 0, 4, 4);
    Inner(data, b, 0, 8, 48);
    Inner(data, b, 0, 56, 16);
    Inner(data, b, 0, 248, 4);
    WordAt(data, 0, h.magic);
    WordAt(data, 4, h.version);
    WordAt(data, 248, h.nfiles);
  }

  /** The header is accepted exactly for the right magic number and version, and gives the name, the
      version and the number of files of the struct. */
  lemma HeaderRead(h: Header, data: seq<DL.Byte>)
    requires HeaderBytes(h) <= data && Stored(h.name, 48) && Stored(h.pkgVer, 16)
    ensures HeaderOk(data) <==> h.magic == 0x4B505453 && h.version == 1
    ensures FileCount(data) == h.nfiles
    ensures PackageName(data) == ToBytes(h.name) && Version(data) == ToBytes(h.pkgVer)
  {
    HeaderWords(h, data);
    CharsRead(h.name, 48);
    CharsRead(h.pkgVer, 16);
  }

  /** And the record is "installed_" and the name, holding the name, a blank, the version and a line
      feed. */
  lemma RecordRead(h: Header, data: seq<DL.Byte>)
    requires HeaderBytes(h) <= data && Stored(h.name, 38) && Stored(h.pkgVer, 16)
    ensures RecordFits(data)
    ensures RecordPut(data) == SD.DiskPut(ToBytes("installed_" + h.name), ToBytes(h.name + " " + h.pkgVer + "\n"))
  {
    HeaderRead(h, data);
    RecordText(h.name, h.pkgVer);
  }

  lemma RecordText(name: string, version: string)
    ensures ToBytes("installed_" + name) == ToBytes("installed_") + ToBytes(name)
    ensures ToBytes(name + " " + version + "\n") == ToBytes(name) + [32] + ToBytes(version) + [10]
  {
  }

  lemma {:induction false} TableAt(es: seq<Entry>, i: nat)
    requires i < |es|
    ensures TableBytes(es)[152 * i..152 * i + 152] == EntryBytes(es[i])
  {
    if i < |es| - 1 {
      TableAt(es[..|es| - 1], i);
      assert TableBytes(es)[152 * i..152 * i + 152] == TableBytes(es[..|es| - 1])[152 * i..152 * i + 152];
    }
  }

  lemma Middle(a: seq<DL.Byte>, b: seq<DL.Byte>, c: seq<DL.Byte>, at: nat, n: nat)
    requires at + n <= |b|
    ensures (a + b + c)[|a| + at..|a| + at + n] == b[at..at + n]
  {
  }

  lemma EntryInside(p: Package, i: nat)
    requires i < |p.entries|
    ensures var data, at := PackageBytes(p), 316 + 152 * i;
      at + 152 <= |data| && data[at..at + 152] == EntryBytes(p.entries[i])
  {
    TableAt(p.entries, i);
    Middle(HeaderBytes(p.header), TableBytes(p.entries), p.rest, 152 * i, 152);
  }

  lemma EntryWords(data: seq<DL.Byte>, from: nat, e: Entry)
    requires from + 152 <= |data| && data[from..from + 152] == EntryBytes(e)
    ensures data[from..from + 128] == Chars(e.path, 128)
    ensures Word(data, from + 128) == e.offset && Word(data, from + 132) == e.size
  {
    var b := EntryBytes(e);
    EntryFields(e);
    Inner(data, b, from, 0, 128);
    Inner(data, b, from, 128, 4);
    Inner(data, b, from, 132, 4);
    WordAt(data, from + 128, e.offset);
    WordAt(data, from + 132, e.size);
  }

  // The file of an entry: its bytes in the package
  function FileOf(data: seq<DL.Byte>, e: Entry): seq<DL.Byte>
    requires e.offset + e.size <= |data|
  {
    data[e.offset..e.offset + e.size]
  }

  lemma EntryIs(data: seq<DL.Byte>, i: nat, e: Entry)
    requires TableInside(data) && i < FileCount(data) && GoodEntry(e, |data|)
    requires PathField(data, i) == Chars(e.path, 128) && Offset(data, i) == e.offset && Size(data, i) == e.size
    ensures KernelSpk.EntryInside(data, i) && ItemOf(data, i) == Item(e.path, ToChars(FileOf(data, e)))
    ensures EntryPut(data, i) == SD.DiskPut(ToBytes(BaseOf(e.path)), DO.Clip(FileOf(data, e)))
  {
    CharsRead(e.path, 128);
    assert ToChars(data[e.offset..])[..e.size] == ToChars(FileOf(data, e));
  }

  /** Entry i of the table: the path of the struct, and the bytes of the package that it points to. */
  lemma EntryRead(p: Package, i: nat)
    requires Good(p) && i < |p.entries|
    ensures var data, e := PackageBytes(p), p.entries[i];
      && TableInside(data) && i < FileCount(data) && GoodEntry(e, |data|) && KernelSpk.EntryInside(data, i)
      && ItemOf(data, i) == Item(e.path, ToChars(FileOf(data, e)))
      && EntryPut(data, i) == SD.DiskPut(ToBytes(BaseOf(e.path)), DO.Clip(FileOf(data, e)))
  {
    HeaderWords(p.header, PackageBytes(p));
    EntryInside(p, i);
    EntryWords(PackageBytes(p), 316 + 152 * i, p.entries[i]);
    EntryIs(PackageBytes(p), i, p.entries[i]);
  }

  // ----- The whole package -----

  // What the installer is to put into the tree
  ghost predicate Lists(p: Package, items: seq<Item>)
    requires Good(p)
  {
    && |items| == |p.entries|
    && forall i :: 0 <= i < |items| ==>
        items[i] == Item(p.entries[i].path, ToChars(FileOf(PackageBytes(p), p.entries[i])))
  }

  // And on the disk: each file under the base of its path, then the record
  ghost predicate Writes(p: Package, ps: seq<SD.DiskPut>)
    requires Good(p)
  {
    && |ps| == |p.entries| + 1
    && (forall i :: 0 <= i < |p.entries| ==>
         ps[i] == SD.DiskPut(ToBytes(BaseOf(p.entries[i].path)), DO.Clip(FileOf(PackageBytes(p), p.entries[i]))))
    && ps[|p.entries|] == SD.DiskPut(ToBytes("installed_" + p.header.name),
                                     ToBytes(p.header.name + " " + p.header.pkgVer + "\n"))
  }

  lemma AllInside(p: Package)
    requires Good(p)
    ensures WellFormed(PackageBytes(p)) && FileCount(PackageBytes(p)) == |p.entries|
  {
    HeaderWords(p.header, PackageBytes(p));
    forall i: nat | i < |p.entries| ensures KernelSpk.EntryInside(PackageBytes(p), i) {
      EntryRead(p, i);
    }
  }

  lemma ItemsRead(p: Package)
    requires Good(p) && WellFormed(PackageBytes(p)) && FileCount(PackageBytes(p)) == |p.entries|
    ensures Lists(p, Items(PackageBytes(p)))
  {
    forall i: nat | i < |p.entries|
      ensures Items(PackageBytes(p))[i] == Item(p.entries[i].path, ToChars(FileOf(PackageBytes(p), p.entries[i])))
    {
      EntryRead(p, i);
    }
  }

  lemma PutsRead(p: Package)
    requires Good(p) && WellFormed(PackageBytes(p)) && FileCount(PackageBytes(p)) == |p.entries|
    ensures Writes(p, PackagePuts(PackageBytes(p)))
  {
    RecordRead(p.header, PackageBytes(p));
    forall i: nat | i < |p.entries|
      ensures PackagePuts(PackageBytes(p))[i] ==
              SD.DiskPut(ToBytes(BaseOf(p.entries[i].path)), DO.Clip(FileOf(PackageBytes(p), p.entries[i])))
    {
      EntryRead(p, i);
    }
  }

  /** Reading the bytes of a package gives back its list of files and the writes to the disk. */
  lemma PackageRead(p: Package)
    requires Good(p)
    ensures var data := PackageBytes(p);
      && (HeaderOk(data) <==> p.header.magic == 0x4B505453 && p.header.version == 1)
      && WellFormed(data) && RecordFits(data) && Lists(p, Items(data)) && Writes(p, PackagePuts(data))
  {
    HeaderRead(p.header, PackageBytes(p));
    RecordRead(p.header, PackageBytes(p));
    AllInside(p);
    ItemsRead(p);
    PutsRead(p);
  }

  /** Installing the bytes of a package: accepted exactly with the right magic number and version; then, if
      it suits the tree, every path of the table resolves to a file with the bytes that the table points
      to, cut at 4096. */
  method InstallPackage(inst: Installer, ghost p: Package, data: seq<DL.Byte>) returns (ok: bool)
    requires inst.Valid() && Good(p) && data == PackageBytes(p)
    modifies inst.fs, inst.fs.nodes, inst.disk, inst.disk.inodes, inst.disk.disk, inst.disk.disk.sectors
    ensures inst.Valid() && (ok <==> p.header.magic == 0x4B505453 && p.header.version == 1)
    ensures ok && WellFormed(data) && Suits(old(inst.fs.nodes[..]), Items(data)) ==>
      forall i :: 0 <= i < |p.entries| ==> Arrived(inst.fs.nodes[..], p.entries[i].path, FileOf(data, p.entries[i]))
  {
    PackageRead(p);
    ghost var fs0 := inst.fs.nodes[..];
    ok := inst.SpkInstall(data);
    if ok && Suits(fs0, Items(data)) { AllArrived(p, Items(data), inst.fs.nodes[..]); }
  }

  lemma AllArrived(p: Package, items: seq<Item>, fs: seq<Node>)
    requires Good(p) && Lists(p, items) && Shape(fs) && AllResolve(fs, items)
    ensures forall i :: 0 <= i < |p.entries| ==>
      Arrived(fs, p.entries[i].path, FileOf(PackageBytes(p), p.entries[i]))
  {
    forall i | 0 <= i < |p.entries| ensures Arrived(fs, p.entries[i].path, FileOf(PackageBytes(p), p.entries[i])) {
      var bytes := FileOf(PackageBytes(p), p.entries[i]);
      assert items[i] == Item(p.entries[i].path, ToChars(bytes));
      assert |bytes| > 4096 ==> ToChars(bytes[..4096]) == ToChars(bytes)[..4096];
    }
  }

  // The path resolves to a file with these bytes, or their first 4096.
  ghost predicate Arrived(fs: seq<Node>, path: string, bytes: seq<DL.Byte>)
    requires Shape(fs)
  {
    var n := Resolved(fs, path);
    n != -1 && fs[n].kind == File &&
    Bytes(fs[n]) == if |bytes| > 4096 then ToChars(bytes[..4096]) else ToChars(bytes)
  }
}
