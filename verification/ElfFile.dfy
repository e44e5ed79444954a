/**
 An ELF32 file as its structs (kernel/elf_loader.c:25-58) and the bytes they stand for: what the loader
 reads from those bytes is what the structs hold.
 */
module ElfFile {
  import opened DiskLayout
  import opened ElfModel

  type U16 = x: int | 0 <= x < 65536

  // elf32_hdr_t
  datatype Ehdr = Ehdr(
    magic: U32, class_: Byte, data: Byte, version: Byte, osabi: Byte, pad: seq<Byte>,
    kind: U16, machine: U16, version2: U32, entry: U32, phoff: U32, shoff: U32, flags: U32,
    ehsize: U16, phentsize: U16, phnum: U16, shentsize: U16, shnum: U16, shstrndx: U16)

  // elf32_phdr_t
  datatype Phdr = Phdr(
    kind: U32, offset: U32, vaddr: U32, paddr: U32, filesz: U32, memsz: U32, flags: U32, align: U32)

  // The header, what stands before the program headers, these, and the rest
  datatype File = File(ehdr: Ehdr, gap: seq<Byte>, phdrs: seq<Phdr>, rest: seq<Byte>)

  predicate WellFormed(f: File) {
    |f.ehdr.pad| == 8 && f.ehdr.phoff == 52 + |f.gap| && f.ehdr.phnum == |f.phdrs|
  }

  // ----- The bytes -----

  function Le16(v: U16): (b: seq<Byte>)
    ensures |b| == 2
  {
    [v % 256, v / 256]
  }

  function EhdrBytes(h: Ehdr): (b: seq<Byte>)
    requires |h.pad| == 8
    ensures |b| == 52
  {
    Le32(h.magic) + [h.class_, h.data, h.version, h.osabi] + h.pad + Le16(h.kind) + Le16(h.machine) +
    Le32(h.version2) + Le32(h.entry) + Le32(h.phoff) + Le32(h.shoff) + Le32(h.flags) + Le16(h.ehsize) +
    Le16(h.phentsize) + Le16(h.phnum) + Le16(h.shentsize) + Le16(h.shnum) + Le16(h.shstrndx)
  }

  function PhdrBytes(p: Phdr): (b: seq<Byte>)
    ensures |b| == 32
  {
    Le32(p.kind) + Le32(p.offset) + Le32(p.vaddr) + Le32(p.paddr) + Le32(p.filesz) + Le32(p.memsz) +
    Le32(p.flags) + Le32(p.align)
  }

  function PhdrsBytes(ps: seq<Phdr>): (b: seq<Byte>)
    ensures |b| == 32 * |ps|
  {
    if |ps| == 0 then [] else PhdrsBytes(ps[..|ps| - 1]) + PhdrBytes(ps[|ps| - 1])
  }

  function FileBytes(f: File): seq<Byte>
    requires WellFormed(f)
  {
    EhdrBytes(f.ehdr) + f.gap + PhdrsBytes(f.phdrs) + f.rest
  }

  // ----- Reading them back -----

  lemma HalfOf(b: seq<Byte>, at: nat, v: U16)
    requires at + 2 <= |b| && b[at..at + 2] == Le16(v)
    ensures Half(b, at) == v
  {
    assert b[at] == b[at..at + 2][0] && b[at + 1] == b[at..at + 2][1];
  }

  lemma WordOf(b: seq<Byte>, at: nat, v: U32)
    requires at + 4 <= |b| && b[at..at + 4] == Le32(v)
    ensures Word(b, at) == v
  {
    Le32Inverse(v);
  }

  // Where the fields of the header lie
  lemma EhdrFields(h: Ehdr)
    requires |h.pad| == 8
    ensures var b := EhdrBytes(h);
      && b[0..4] == Le32(h.magic) && b[4] == h.class_ && b[16..18] == Le16(h.kind) && b[18..20] == Le16(h.machine)
      && b[24..28] == Le32(h.entry) && b[28..32] == Le32(h.phoff) && b[44..46] == Le16(h.phnum)
  {
  }

  lemma Inner(b: seq<Byte>, head: seq<Byte>, at: nat, n: nat)
    requires head <= b && at + n <= |head|
    ensures b[at..at + n] == head[at..at + n]
  {
  }

  /** The loader takes the fields of the header struct: it accepts exactly 32-bit i386 executables, and
      finds the entry point, the program headers and their number. */
  lemma EhdrRead(h: Ehdr, image: seq<Byte>)
    requires |h.pad| == 8 && EhdrBytes(h) <= image
    ensures Check(image) ==
            if h.magic != 0x464C457F then NotElf
            else if h.class_ != 1 then Not32
            else if h.kind != 2 then NotExec
            else if h.machine != 3 then Not32
            else Ok
    ensures Entry(image) == h.entry && PhOff(image) == h.phoff && PhNum(image) == h.phnum
  {
    var b := EhdrBytes(h);
    EhdrFields(h);
    Inner(image, b, 0, 4);
    Inner(image, b, 16, 2);
    Inner(image, b, 18, 2);
    Inner(image, b, 24, 4);
    Inner(image, b, 28, 4);
    Inner(image, b, 44, 2);
    assert image[4] == b[4];
    WordOf(image, 0, h.magic);
    HalfOf(image, 16, h.kind);
    HalfOf(image, 18, h.machine);
    WordOf(image, 24, h.entry);
    WordOf(image, 28, h.phoff);
    HalfOf(image, 44, h.phnum);
  }

  lemma {:induction false} PhdrAt(ps: seq<Phdr>, i: nat)
    requires i < |ps|
    ensures PhdrsBytes(ps)[32 * i..32 * i + 32] == PhdrBytes(ps[i])
  {
    if i < |ps| - 1 {
      PhdrAt(ps[..|ps| - 1], i);
      assert PhdrsBytes(ps)[32 * i..32 * i + 32] == PhdrsBytes(ps[..|ps| - 1])[32 * i..32 * i + 32];
    }
  }

  lemma PhdrFields(p: Phdr)
    ensures var b := PhdrBytes(p);
      && b[0..4] == Le32(p.kind) && b[4..8] == Le32(p.offset) && b[8..12] == Le32(p.vaddr)
      && b[16..20] == Le32(p.filesz) && b[20..24] == Le32(p.memsz)
  {
  }

  lemma PhdrInFile(f: File, i: nat)
    requires WellFormed(f) && i < |f.phdrs|
    ensures var at := f.ehdr.phoff + 32 * i;
      at + 32 <= |FileBytes(f)| && FileBytes(f)[at..at + 32] == PhdrBytes(f.phdrs[i])
  {
    var front, ps := EhdrBytes(f.ehdr) + f.gap, PhdrsBytes(f.phdrs);
    var at := |front| + 32 * i;
    PhdrAt(f.phdrs, i);
    assert FileBytes(f)[at..at + 32] == ps[32 * i..32 * i + 32];
  }

  /** And of each program header struct its type, offset, address and sizes. */
  lemma PhdrRead(f: File, i: nat)
    requires WellFormed(f) && i < |f.phdrs|
    ensures var image, p := FileBytes(f), f.phdrs[i];
      && HeadersInside(image) && i < PhNum(image)
      && Field(image, i, 0) == p.kind && Field(image, i, 4) == p.offset && Field(image, i, 8) == p.vaddr
      && Field(image, i, 16) == p.filesz && Field(image, i, 20) == p.memsz
  {
    EhdrRead(f.ehdr, FileBytes(f));
    PhdrInFile(f, i);
    PhdrWords(FileBytes(f), f.ehdr.phoff + 32 * i, f.phdrs[i]);
  }

  lemma PhdrWords(image: seq<Byte>, at: nat, p: Phdr)
    requires at + 32 <= |image| && image[at..at + 32] == PhdrBytes(p)
    ensures Word(image, at + 0) == p.kind && Word(image, at + 4) == p.offset && Word(image, at + 8) == p.vaddr
    ensures Word(image, at + 16) == p.filesz && Word(image, at + 20) == p.memsz
  {
    PhdrFields(p);
    var b := PhdrBytes(p);
    FieldOf(image, at, b, 0, p.kind);
    FieldOf(image, at, b, 4, p.offset);
    FieldOf(image, at, b, 8, p.vaddr);
    FieldOf(image, at, b, 16, p.filesz);
    FieldOf(image, at, b, 20, p.memsz);
  }

  lemma SubSlice(image: seq<Byte>, at: nat, k: nat)
    requires at + 32 <= |image| && k + 4 <= 32
    ensures image[at..at + 32][k..k + 4] == image[at + k..at + k + 4]
  {
    var b := image[at..at + 32];
    var x, y := b[k..k + 4], image[at + k..at + k + 4];
    forall j | 0 <= j < 4 ensures x[j] == y[j] {
      assert x[j] == b[k + j] == image[at + (k + j)];
    }
  }

  lemma FieldOf(image: seq<Byte>, at: nat, b: seq<Byte>, k: nat, v: U32)
    requires at + 32 <= |image| && |b| == 32 && image[at..at + 32] == b && k + 4 <= 32 && b[k..k + 4] == Le32(v)
    ensures Word(image, at + k) == v
  {
    SubSlice(image, at, k);
    WordOf(image, at + k, v);
  }

  // ----- Loading the file -----

  // The bytes of every PT_LOAD header lie in the file.
  predicate Complete(f: File)
    requires WellFormed(f)
  {
    forall i :: 0 <= i < |f.phdrs| && f.phdrs[i].kind == 1 ==>
      f.phdrs[i].offset + f.phdrs[i].filesz <= |FileBytes(f)|
  }

  function End(p: Phdr): int { p.vaddr + if p.memsz > p.filesz then p.memsz else p.filesz }

  // No two PT_LOAD headers share an address.
  predicate Separate(f: File) {
    forall i, j :: 0 <= i < j < |f.phdrs| && f.phdrs[i].kind == f.phdrs[j].kind == 1 ==>
      End(f.phdrs[i]) <= f.phdrs[j].vaddr || End(f.phdrs[j]) <= f.phdrs[i].vaddr
  }

  // The byte that header i asks for at an address
  ghost predicate PutAt(f: File, i: nat, a: nat, byte: Byte)
    requires WellFormed(f) && Complete(f) && i < |f.phdrs| && f.phdrs[i].kind == 1
  {
    var p := f.phdrs[i];
    && (p.vaddr <= a < p.vaddr + p.filesz ==> byte == FileBytes(f)[p.offset + (a - p.vaddr)])
    && (p.vaddr + p.filesz <= a < p.vaddr + p.memsz ==> byte == 0)
  }

  // Memory m0 with the file in place: for each PT_LOAD header its bytes, then zeros, the rest as before
  ghost predicate InPlace(f: File, m0: seq<Byte>, m1: seq<Byte>)
    requires WellFormed(f) && Complete(f)
  {
    && |m1| == |m0|
    && (forall i: nat, a: nat :: i < |f.phdrs| && f.phdrs[i].kind == 1 && a < |m1| ==> PutAt(f, i, a, m1[a]))
    && (forall a :: 0 <= a < |m1| && Outside(f, a) ==> m1[a] == m0[a])
  }

  predicate Outside(f: File, a: int) {
    forall i :: 0 <= i < |f.phdrs| && f.phdrs[i].kind == 1 ==> !(f.phdrs[i].vaddr <= a < End(f.phdrs[i]))
  }

  lemma FileInside(f: File)
    requires WellFormed(f) && Complete(f)
    ensures Inside(FileBytes(f)) && PhNum(FileBytes(f)) == |f.phdrs|
  {
    var image := FileBytes(f);
    EhdrRead(f.ehdr, image);
    forall i: nat | i < PhNum(image) && IsLoad(image, i) ensures RangeInside(image, i) {
      PhdrRead(f, i);
    }
  }

  lemma FileSegment(f: File, i: nat)
    requires WellFormed(f) && Complete(f) && i < |f.phdrs|
    ensures var image, p := FileBytes(f), f.phdrs[i];
      && Inside(image) && i < PhNum(image) && (IsLoad(image, i) <==> p.kind == 1)
      && (p.kind == 1 ==>
        SegmentOf(image, i) == Segment(p.vaddr, image[p.offset..p.offset + p.filesz], p.memsz))
  {
    FileInside(f);
    PhdrRead(f, i);
  }

  lemma FileDisjoint(f: File)
    requires WellFormed(f) && Complete(f) && Separate(f)
    ensures Inside(FileBytes(f)) && DisjointHeaders(FileBytes(f))
  {
    var image := FileBytes(f);
    FileInside(f);
    forall i: nat, j: nat | i < j < PhNum(image) && IsLoad(image, i) && IsLoad(image, j) ensures Apart(image, i, j) {
      FileSegment(f, i);
      FileSegment(f, j);
    }
  }

  /** Loading a file whose segments do not overlap puts exactly the bytes of the file in place. */
  lemma FileLoaded(f: File, m: seq<Byte>)
    requires WellFormed(f) && Complete(f) && Separate(f)
    ensures Inside(FileBytes(f)) && InPlace(f, m, Loaded(m, Segments(FileBytes(f))))
  {
    var image := FileBytes(f);
    FileDisjoint(f);
    FileInside(f);
    ImageLoaded(image, m);
    ExactInPlace(f, m, Loaded(m, Segments(image)));
  }

  lemma HoldsPut(f: File, i: nat, a: nat, byte: Byte)
    requires WellFormed(f) && Complete(f) && i < |f.phdrs| && f.phdrs[i].kind == 1
    requires var image := FileBytes(f);
      Inside(image) && i < PhNum(image) && IsLoad(image, i) && Holds(image, i, a, byte)
    ensures PutAt(f, i, a, byte)
  {
    PhdrRead(f, i);
  }

  lemma ExactInPlace(f: File, m0: seq<Byte>, m1: seq<Byte>)
    requires WellFormed(f) && Complete(f) && Inside(FileBytes(f)) && Exact(FileBytes(f), m0, m1)
    ensures InPlace(f, m0, m1)
  {
    var image := FileBytes(f);
    FileInside(f);
    forall i: nat, a: nat | i < |f.phdrs| && f.phdrs[i].kind == 1 && a < |m1| ensures PutAt(f, i, a, m1[a]) {
      FileSegment(f, i);
      HoldsPut(f, i, a, m1[a]);
    }
    forall a | 0 <= a < |m1| && Outside(f, a) ensures m1[a] == m0[a] {
      OutsideUncovered(f, a);
    }
  }

  lemma OutsideUncovered(f: File, a: nat)
    requires WellFormed(f) && Complete(f) && Outside(f, a)
    ensures Inside(FileBytes(f)) && Uncovered(FileBytes(f), a)
  {
    var image := FileBytes(f);
    FileInside(f);
    forall i: nat | i < PhNum(image) && IsLoad(image, i) ensures !Covers(SegmentOf(image, i), a) {
      FileSegment(f, i);
    }
  }
}
