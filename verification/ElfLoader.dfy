/**
 elf_load (kernel/elf_loader.c:92-129): the image and the destinations lie in the same memory, and
 the program headers are read again for every segment.
 */
module KernelElf {
  import opened DiskLayout
  import opened ElfModel
  import EF = ElfFile

  class Machine {
    const mem: array<Byte>

    constructor (image: seq<Byte>)
      ensures mem[..] == image && fresh(mem)
    {
      mem := new Byte[|image|](i requires 0 <= i < |image| => image[i]);
      new;
      assert mem[..] == image;
    }

    // memcpy (libc/string.c:8-13)
    method MemCpy(d: nat, s: nat, n: nat)
      requires d + n <= mem.Length && s + n <= mem.Length && (s + n <= d || d + n <= s || n == 0)
      modifies mem
      ensures forall a :: 0 <= a < mem.Length ==> mem[a] == if d <= a < d + n then old(mem[s + (a - d)])
          else old(mem[a])
    {
      var i := 0;
      while i < n
        invariant 0 <= i <= n
        invariant forall a :: 0 <= a < mem.Length ==> mem[a] == if d <= a < d + i then old(mem[s + (a - d)])
            else old(mem[a])
      {
        mem[d + i] := mem[s + i];
        i := i + 1;
      }
    }

    // memset with 0 (libc/string.c:3-7)
    method Clear(d: nat, n: nat)
      requires d + n <= mem.Length
      modifies mem
      ensures forall a :: 0 <= a < mem.Length ==> mem[a] == if d <= a < d + n then 0 else old(mem[a])
    {
      var i := 0;
      while i < n
        invariant 0 <= i <= n
        invariant forall a :: 0 <= a < mem.Length ==> mem[a] == if d <= a < d + i then 0 else old(mem[a])
      {
        mem[d + i] := 0;
        i := i + 1;
      }
    }

    // A 32-bit and a 16-bit field of the image, read through a pointer
    method Load32(data: nat, ghost image: seq<Byte>, at: nat) returns (v: U32)
      requires data + |image| <= mem.Length && mem[data..data + |image|] == image && at + 4 <= |image|
      ensures v == Word(image, at)
    {
      var p := data + at;
      assert mem[p] == image[at] && mem[p + 1] == image[at + 1] && mem[p + 2] == image[at + 2] &&
          mem[p + 3] == image[at + 3];
      v := FromLe32([mem[p], mem[p + 1], mem[p + 2], mem[p + 3]]);
    }

    method Load16(data: nat, ghost image: seq<Byte>, at: nat) returns (v: nat)
      requires data + |image| <= mem.Length && mem[data..data + |image|] == image && at + 2 <= |image|
      ensures v == Half(image, at)
    {
      assert mem[data + at] == image[at] && mem[data + at + 1] == image[at + 1];
      v := mem[data + at] as int + 256 * (mem[data + at + 1] as int);
    }

    // The segment lies in memory and away from the image.
    ghost predicate Away(s: Segment, data: nat, size: nat) {
      Fits(s, mem.Length) && (s.vaddr + Extent(s) <= data || data + size <= s.vaddr)
    }

    // One PT_LOAD header
    method LoadSegment(data: nat, ghost image: seq<Byte>, phoff: nat, i: nat)
      requires data + |image| <= mem.Length && mem[data..data + |image|] == image
      requires Inside(image) && phoff == PhOff(image) && i < PhNum(image) && IsLoad(image, i)
      requires Away(SegmentOf(image, i), data, |image|)
      modifies mem
      ensures mem[..] == Place(old(mem[..]), SegmentOf(image, i))
      ensures mem[data..data + |image|] == image
    {
      assert RangeInside(image, i);
      var ph := phoff + PHDR * i;
      var offset := Load32(data, image, ph + 4);
      var vaddr := Load32(data, image, ph + 8);
      var filesz := Load32(data, image, ph + 16);
      var memsz := Load32(data, image, ph + 20);
      Fill(data, image, SegmentOf(image, i), vaddr, offset, filesz, memsz);
    }

    // The copy of the file bytes and the zeroing of the rest
    method Fill(data: nat, ghost image: seq<Byte>, ghost s: Segment, vaddr: nat, offset: nat, filesz: nat, memsz: nat)
      requires data + |image| <= mem.Length && mem[data..data + |image|] == image
      requires offset + filesz <= |image| && s == Segment(vaddr, image[offset..offset + filesz], memsz)
      requires Away(s, data, |image|)
      modifies mem
      ensures mem[..] == Place(old(mem[..]), s)
      ensures mem[data..data + |image|] == image
    {
      ghost var m := mem[..];
      PlaceAway(m, s, data, |image|);
      if filesz > 0 { MemCpy(vaddr, data + offset, filesz); }
      if memsz > filesz { Clear(vaddr + filesz, memsz - filesz); }
      forall a | 0 <= a < mem.Length ensures mem[a] == Place(m, s)[a] {
        assert Covers(s, a) && a - s.vaddr < filesz ==> s.bytes[a - s.vaddr] == image[offset + (a - s.vaddr)];
      }
      assert mem[..] == Place(m, s);
    }

    method ElfLoad(data: nat, size: nat) returns (r: Result, entry: U32)
      requires data + size <= mem.Length
      requires var image := mem[data..data + size];
        Check(image) == Ok ==>
          Inside(image) && forall i: nat :: i < PhNum(image) && IsLoad(image, i) ==>
            Away(SegmentOf(image, i), data, size)
      modifies mem
      ensures var image := old(mem[data..data + size]);
        && r == (if data == 0 then NotElf else Check(image))
        && (r != Ok ==> mem[..] == old(mem[..]) && entry == 0)
        && (r == Ok ==> mem[..] == Loaded(old(mem[..]), Segments(image)) && entry == Entry(image))
        && (r == Ok && DisjointHeaders(image) ==> Exact(image, old(mem[..]), mem[..]))
    {
      ghost var before := mem[..];
      ghost var image := mem[data..data + size];
      r := CheckHeader(data, size, image);
      entry := 0;
      if r != Ok { return; }
      LoadSegments(data, image);
      entry := Load32(data, image, 24);
      if DisjointHeaders(image) { ImageLoaded(image, before); }
    }

    /** elf_load on the bytes of a file: the code its header asks for, its entry point, and its segments
        in place. */
    method LoadFile(data: nat, size: nat, ghost f: EF.File) returns (r: Result, entry: U32)
      requires 0 < data && data + size <= mem.Length && EF.WellFormed(f) && EF.Complete(f) && EF.Separate(f)
      requires mem[data..data + size] == EF.FileBytes(f)
      requires forall i :: 0 <= i < |f.phdrs| && f.phdrs[i].kind == 1 ==>
        var p := f.phdrs[i]; EF.End(p) <= mem.Length && (EF.End(p) <= data || data + size <= p.vaddr)
      modifies mem
      ensures var h := f.ehdr;
        r == if h.magic != 0x464C457F then NotElf
             else if h.class_ != 1 then Not32
             else if h.kind != 2 then NotExec
             else if h.machine != 3 then Not32
             else Ok
      ensures if r == Ok then entry == f.ehdr.entry && EF.InPlace(f, old(mem[..]), mem[..])
              else entry == 0 && mem[..] == old(mem[..])
    {
      ghost var m := mem[..];
      EF.EhdrRead(f.ehdr, EF.FileBytes(f));
      EF.FileInside(f);
      forall i: nat | i < |f.phdrs| && IsLoad(EF.FileBytes(f), i)
        ensures Away(SegmentOf(EF.FileBytes(f), i), data, size)
      {
        EF.FileSegment(f, i);
      }
      EF.FileLoaded(f, m);
      r, entry := ElfLoad(data, size);
    }

    method CheckHeader(data: nat, size: nat, ghost image: seq<Byte>) returns (r: Result)
      requires data + size <= mem.Length && image == mem[data..data + size]
      ensures r == if data == 0 then NotElf else Check(image)
    {
      if data == 0 || size < HEADER { return NotElf; }
      var magic := Load32(data, image, 0);
      if magic != ELF_MAGIC { return NotElf; }
      assert mem[data + 4] == image[4];
      if mem[data + 4] != 1 { return Not32; }
      var kind := Load16(data, image, 16);
      if kind != ET_EXEC { return NotExec; }
      var machine := Load16(data, image, 18);
      if machine != EM_386 { return Not32; }
      return Ok;
    }

    // One program header: skipped unless it is PT_LOAD
    method LoadHeader(data: nat, ghost image: seq<Byte>, phoff: nat, i: nat)
      requires data + |image| <= mem.Length && mem[data..data + |image|] == image
      requires Inside(image) && phoff == PhOff(image) && i < PhNum(image)
      requires IsLoad(image, i) ==> Away(SegmentOf(image, i), data, |image|)
      modifies mem
      ensures mem[..] == if IsLoad(image, i) then Place(old(mem[..]), SegmentOf(image, i)) else old(mem[..])
      ensures mem[data..data + |image|] == image
    {
      var kind := Load32(data, image, phoff + PHDR * i);
      if kind == PT_LOAD { LoadSegment(data, image, phoff, i); }
    }

    // Every segment lies in memory and away from the image.
    ghost predicate AllAway(data: nat, image: seq<Byte>)
      requires Inside(image)
    {
      forall i: nat :: i < PhNum(image) && IsLoad(image, i) ==> Away(SegmentOf(image, i), data, |image|)
    }

    method LoadSegments(data: nat, ghost image: seq<Byte>)
      requires data + |image| <= mem.Length && mem[data..data + |image|] == image && Inside(image)
      requires AllAway(data, image)
      modifies mem
      ensures mem[..] == Loaded(old(mem[..]), Segments(image)) && mem[data..data + |image|] == image
    {
      ghost var m0 := mem[..];
      var phnum := Load16(data, image, 44);
      var phoff := Load32(data, image, 28);
      var i := 0;
      assert SegmentsTo(image, 0) == [] && Loaded(m0, []) == m0;
      while i < phnum
        invariant 0 <= i <= phnum == PhNum(image) && mem[data..data + |image|] == image
        invariant mem[..] == Loaded(m0, SegmentsTo(image, i))
      {
        LoadNext(data, image, m0, phoff, i);
        i := i + 1;
      }
    }

    method LoadNext(data: nat, ghost image: seq<Byte>, ghost m0: seq<Byte>, phoff: nat, i: nat)
      requires data + |image| <= mem.Length && mem[data..data + |image|] == image
      requires Inside(image) && phoff == PhOff(image) && i < PhNum(image) && AllAway(data, image)
      requires mem[..] == Loaded(m0, SegmentsTo(image, i))
      modifies mem
      ensures mem[..] == Loaded(m0, SegmentsTo(image, i + 1)) && mem[data..data + |image|] == image
    {
      LoadedNext(m0, image, i);
      LoadHeader(data, image, phoff, i);
    }
  }
}
