/**
 ELF32 images and what loading one does to memory (kernel/elf_loader.c:25-58, 92-129).
 */
module ElfModel {
  import opened DiskLayout

  const HEADER: nat := 52
  const PHDR: nat := 32
  const ELF_MAGIC: int := 0x464C457F
  const ET_EXEC: int := 2
  const EM_386: int := 3
  const PT_LOAD: int := 1

  datatype Result = Ok | NotElf | Not32 | NotExec

  // Little-endian fields
  function Half(b: seq<Byte>, at: nat): (v: int)
    requires at + 2 <= |b|
    ensures 0 <= v < 0x10000
  {
    b[at] as int + 256 * (b[at + 1] as int)
  }

  function Word(b: seq<Byte>, at: nat): U32
    requires at + 4 <= |b|
  {
    FromLe32(b[at..at + 4])
  }

  // The header checks, in order
  function Check(image: seq<Byte>): (r: Result)
    ensures r == Ok ==> |image| >= HEADER
  {
    if |image| < HEADER || Word(image, 0) != ELF_MAGIC then NotElf
    else if image[4] != 1 then Not32
    else if Half(image, 16) != ET_EXEC then NotExec
    else if Half(image, 18) != EM_386 then Not32
    else Ok
  }

  function Entry(image: seq<Byte>): U32 requires |image| >= HEADER { Word(image, 24) }
  function PhOff(image: seq<Byte>): U32 requires |image| >= HEADER { Word(image, 28) }
  function PhNum(image: seq<Byte>): (n: nat) requires |image| >= HEADER { Half(image, 44) }

  // What one PT_LOAD header asks for: bytes at an address, then zeros up to memsz
  datatype Segment = Segment(vaddr: nat, bytes: seq<Byte>, memsz: nat)

  function Extent(s: Segment): nat { if s.memsz > |s.bytes| then s.memsz else |s.bytes| }

  predicate Covers(s: Segment, a: int) { s.vaddr <= a < s.vaddr + Extent(s) }

  function ByteAt(s: Segment, a: int): Byte
    requires Covers(s, a)
  {
    if a - s.vaddr < |s.bytes| then s.bytes[a - s.vaddr] else 0
  }

  predicate Fits(s: Segment, memory: nat) { s.vaddr + Extent(s) <= memory }

  // The program headers lie inside the buffer.
  predicate HeadersInside(image: seq<Byte>) {
    |image| >= HEADER && PhOff(image) + PHDR * PhNum(image) <= |image|
  }

  function Field(image: seq<Byte>, i: nat, at: nat): U32
    requires HeadersInside(image) && i < PhNum(image) && at + 4 <= PHDR
  {
    Word(image, PhOff(image) + PHDR * i + at)
  }

  predicate IsLoad(image: seq<Byte>, i: nat)
    requires HeadersInside(image) && i < PhNum(image)
  {
    Field(image, i, 0) == PT_LOAD
  }

  // The file range of a PT_LOAD header lies inside the buffer.
  predicate RangeInside(image: seq<Byte>, i: nat)
    requires HeadersInside(image) && i < PhNum(image)
  {
    Field(image, i, 4) + Field(image, i, 16) <= |image|
  }

  predicate Inside(image: seq<Byte>) {
    HeadersInside(image) && forall i: nat :: i < PhNum(image) && IsLoad(image, i) ==> RangeInside(image, i)
  }

  function SegmentOf(image: seq<Byte>, i: nat): Segment
    requires Inside(image) && i < PhNum(image) && IsLoad(image, i)
  {
    assert RangeInside(image, i);
    var offset, filesz := Field(image, i, 4), Field(image, i, 16);
    Segment(Field(image, i, 8), image[offset..offset + filesz], Field(image, i, 20))
  }

  // The segments of the first n headers
  function SegmentsTo(image: seq<Byte>, n: nat): seq<Segment>
    requires Inside(image) && n <= PhNum(image)
  {
    if n == 0 then []
    else if IsLoad(image, n - 1) then SegmentsTo(image, n - 1) + [SegmentOf(image, n - 1)]
    else SegmentsTo(image, n - 1)
  }

  function Segments(image: seq<Byte>): seq<Segment>
    requires Inside(image)
  {
    SegmentsTo(image, PhNum(image))
  }

  lemma SegmentsStep(image: seq<Byte>, n: nat)
    requires Inside(image) && n <= PhNum(image)
    ensures n == 0 ==> SegmentsTo(image, n) == []
    ensures n > 0 && IsLoad(image, n - 1) ==>
        SegmentsTo(image, n) == SegmentsTo(image, n - 1) + [SegmentOf(image, n - 1)]
    ensures n > 0 && !IsLoad(image, n - 1) ==> SegmentsTo(image, n) == SegmentsTo(image, n - 1)
  {
  }

  lemma {:induction false} SegmentListed(image: seq<Byte>, n: nat, i: nat)
    requires Inside(image) && i < n <= PhNum(image) && IsLoad(image, i)
    ensures SegmentOf(image, i) in SegmentsTo(image, n)
  {
    if i < n - 1 {
      SegmentListed(image, n - 1, i);
    }
  }

  // ----- Memory -----

  function Place(m: seq<Byte>, s: Segment): (r: seq<Byte>)
    ensures |r| == |m|
  {
    seq(|m|, a requires 0 <= a < |m| => if Covers(s, a) then ByteAt(s, a) else m[a])
  }

  function Loaded(m: seq<Byte>, segs: seq<Segment>): (r: seq<Byte>)
    ensures |r| == |m|
  {
    if |segs| == 0 then m else Place(Loaded(m, segs[..|segs| - 1]), segs[|segs| - 1])
  }

  // A segment away from a range leaves it alone.
  lemma PlaceAway(m: seq<Byte>, s: Segment, at: nat, n: nat)
    requires at + n <= |m| && (s.vaddr + Extent(s) <= at || at + n <= s.vaddr)
    ensures Place(m, s)[at..at + n] == m[at..at + n]
  {
  }

  lemma LoadedNext(m: seq<Byte>, image: seq<Byte>, i: nat)
    requires Inside(image) && i < PhNum(image)
    ensures var before := Loaded(m, SegmentsTo(image, i));
      Loaded(m, SegmentsTo(image, i + 1)) == if IsLoad(image, i) then Place(before, SegmentOf(image, i)) else before
  {
    SegmentsStep(image, i + 1);
    var segs := SegmentsTo(image, i + 1);
    if IsLoad(image, i) {
      assert segs[..|segs| - 1] == SegmentsTo(image, i);
    }
  }

  // Index of the last segment over an address, -1 if there is none
  function LastOver(segs: seq<Segment>, a: int): (j: int)
    ensures -1 <= j < |segs| && (j >= 0 ==> Covers(segs[j], a))
    ensures forall k :: j < k < |segs| ==> !Covers(segs[k], a)
  {
    if |segs| == 0 then -1
    else if Covers(segs[|segs| - 1], a) then |segs| - 1
    else LastOver(segs[..|segs| - 1], a)
  }

  /** Every address ends up with the byte of the last segment over it, or keeps its byte. */
  lemma {:induction false} LoadedAt(m: seq<Byte>, segs: seq<Segment>, a: nat)
    requires a < |m|
    ensures var j := LastOver(segs, a);
      Loaded(m, segs)[a] == if j == -1 then m[a] else ByteAt(segs[j], a)
  {
    if |segs| > 0 {
      LoadedAt(m, segs[..|segs| - 1], a);
    }
  }

  ghost predicate Disjoint(segs: seq<Segment>) {
    forall i, j, a :: 0 <= i < j < |segs| && Covers(segs[i], a) ==> !Covers(segs[j], a)
  }

  /** With disjoint destinations memory is exactly the file bytes of each segment, then zeros up to
      its memsz, and unchanged elsewhere. */
  lemma DisjointLoaded(m: seq<Byte>, segs: seq<Segment>, a: nat)
    requires a < |m| && Disjoint(segs)
    ensures forall j :: 0 <= j < |segs| && segs[j].vaddr <= a < segs[j].vaddr + |segs[j].bytes| ==>
      Loaded(m, segs)[a] == segs[j].bytes[a - segs[j].vaddr]
    ensures forall j :: 0 <= j < |segs| && segs[j].vaddr + |segs[j].bytes| <= a < segs[j].vaddr + segs[j].memsz ==>
      Loaded(m, segs)[a] == 0
    ensures (forall j :: 0 <= j < |segs| ==> !(segs[j].vaddr <= a < segs[j].vaddr + Extent(segs[j]))) ==>
      Loaded(m, segs)[a] == m[a]
  {
    LoadedAt(m, segs, a);
    var k := LastOver(segs, a);
    forall j | 0 <= j < |segs| && Covers(segs[j], a) ensures j == k {
    }
  }

  // ----- An image and the memory it leaves -----

  // PT_LOAD headers i and j share no address.
  ghost predicate Apart(image: seq<Byte>, i: nat, j: nat)
    requires Inside(image) && i < PhNum(image) && j < PhNum(image) && IsLoad(image, i) && IsLoad(image, j)
  {
    forall a :: Covers(SegmentOf(image, i), a) ==> !Covers(SegmentOf(image, j), a)
  }

  ghost predicate DisjointHeaders(image: seq<Byte>)
    requires Inside(image)
  {
    forall i: nat, j: nat :: i < j < PhNum(image) && IsLoad(image, i) && IsLoad(image, j) ==> Apart(image, i, j)
  }

  // Every segment of the list comes from a header.
  lemma {:induction false} SegmentFrom(image: seq<Byte>, n: nat, k: nat) returns (i: nat)
    requires Inside(image) && n <= PhNum(image) && k < |SegmentsTo(image, n)|
    ensures i < n && IsLoad(image, i) && SegmentsTo(image, n)[k] == SegmentOf(image, i)
  {
    SegmentsStep(image, n);
    if k < |SegmentsTo(image, n - 1)| {
      i := SegmentFrom(image, n - 1, k);
    } else {
      i := n - 1;
    }
  }

  lemma {:induction false} DisjointListed(image: seq<Byte>, n: nat)
    requires Inside(image) && n <= PhNum(image) && DisjointHeaders(image)
    ensures Disjoint(SegmentsTo(image, n))
  {
    if n > 0 {
      DisjointListed(image, n - 1);
      if IsLoad(image, n - 1) {
        var before := SegmentsTo(image, n - 1);
        forall k, a | 0 <= k < |before| && Covers(before[k], a) ensures !Covers(SegmentOf(image, n - 1), a) {
          LastApart(image, n, k, a);
        }
        DisjointAppend(before, SegmentOf(image, n - 1));
      }
    }
  }

  lemma LastApart(image: seq<Byte>, n: nat, k: nat, a: int)
    requires Inside(image) && 0 < n <= PhNum(image) && DisjointHeaders(image) && IsLoad(image, n - 1)
    requires k < |SegmentsTo(image, n - 1)| && Covers(SegmentsTo(image, n - 1)[k], a)
    ensures !Covers(SegmentOf(image, n - 1), a)
  {
    var i := SegmentFrom(image, n - 1, k);
    assert Apart(image, i, n - 1);
  }

  lemma DisjointAppend(segs: seq<Segment>, s: Segment)
    requires Disjoint(segs)
    requires forall k, a :: 0 <= k < |segs| && Covers(segs[k], a) ==> !Covers(s, a)
    ensures Disjoint(segs + [s])
  {
  }

  // The byte that the headers ask for at an address
  ghost predicate Holds(image: seq<Byte>, i: nat, a: nat, byte: Byte)
    requires Inside(image) && i < PhNum(image) && IsLoad(image, i)
  {
    var offset, vaddr, filesz, memsz := Field(image, i, 4), Field(image, i, 8), Field(image, i, 16),
        Field(image, i, 20);
    assert RangeInside(image, i);
    && (vaddr <= a < vaddr + filesz ==> byte == image[offset + (a - vaddr)])
    && (vaddr + filesz <= a < vaddr + memsz ==> byte == 0)
  }

  // m1 is m0 with the image in place.
  ghost predicate Exact(image: seq<Byte>, m0: seq<Byte>, m1: seq<Byte>)
    requires Inside(image)
  {
    && |m1| == |m0|
    && (forall i: nat, a: nat :: i < PhNum(image) && IsLoad(image, i) && a < |m1| ==> Holds(image, i, a, m1[a]))
    && (forall a: nat :: a < |m1| && Uncovered(image, a) ==> m1[a] == m0[a])
  }

  ghost predicate Uncovered(image: seq<Byte>, a: nat)
    requires Inside(image)
  {
    forall i: nat :: i < PhNum(image) && IsLoad(image, i) ==> !Covers(SegmentOf(image, i), a)
  }

  /** If no two PT_LOAD headers share an address, then loading leaves image[p_offset + k] at
      p_vaddr + k for k below p_filesz, zeros from there to p_memsz, and every other byte as it was. */
  lemma ImageLoaded(image: seq<Byte>, m: seq<Byte>)
    requires Inside(image) && DisjointHeaders(image)
    ensures Exact(image, m, Loaded(m, Segments(image)))
  {
    var segs := Segments(image);
    DisjointListed(image, PhNum(image));
    forall i: nat, a: nat | i < PhNum(image) && IsLoad(image, i) && a < |m|
      ensures Holds(image, i, a, Loaded(m, segs)[a])
    {
      ImageHolds(image, m, i, a);
    }
    forall a: nat | a < |m| && Uncovered(image, a) ensures Loaded(m, segs)[a] == m[a] {
      ImageKept(image, m, a);
    }
  }

  lemma ImageHolds(image: seq<Byte>, m: seq<Byte>, i: nat, a: nat)
    requires Inside(image) && Disjoint(Segments(image)) && i < PhNum(image) && IsLoad(image, i) && a < |m|
    ensures Holds(image, i, a, Loaded(m, Segments(image))[a])
  {
    SegmentListed(image, PhNum(image), i);
    ListedLoaded(m, Segments(image), SegmentOf(image, i), a);
    SegmentHolds(image, i, a, Loaded(m, Segments(image))[a]);
  }

  // The byte of a segment at an address, where it has one
  ghost predicate Gives(s: Segment, a: int, byte: Byte) { Covers(s, a) ==> byte == ByteAt(s, a) }

  lemma ListedLoaded(m: seq<Byte>, segs: seq<Segment>, s: Segment, a: nat)
    requires Disjoint(segs) && s in segs && a < |m|
    ensures Gives(s, a, Loaded(m, segs)[a])
  {
    DisjointLoaded(m, segs, a);
  }

  lemma SegmentHolds(image: seq<Byte>, i: nat, a: nat, byte: Byte)
    requires Inside(image) && i < PhNum(image) && IsLoad(image, i) && Gives(SegmentOf(image, i), a, byte)
    ensures Holds(image, i, a, byte)
  {
    assert RangeInside(image, i);
    SliceAt(image, Field(image, i, 4), Field(image, i, 16), a - Field(image, i, 8));
  }

  lemma SliceAt(b: seq<Byte>, at: nat, n: nat, k: int)
    requires at + n <= |b|
    ensures 0 <= k < n ==> b[at..at + n][k] == b[at + k]
  {
  }

  lemma ImageKept(image: seq<Byte>, m: seq<Byte>, a: nat)
    requires Inside(image) && Disjoint(Segments(image)) && a < |m| && Uncovered(image, a)
    ensures Loaded(m, Segments(image))[a] == m[a]
  {
    var segs := Segments(image);
    DisjointLoaded(m, segs, a);
    forall k | 0 <= k < |segs| ensures !Covers(segs[k], a) {
      var i := SegmentFrom(image, PhNum(image), k);
    }
  }

  /** The order of disjoint segments does not matter. */
  lemma OrderIrrelevant(m: seq<Byte>, segs: seq<Segment>, segs': seq<Segment>)
    requires Disjoint(segs) && Disjoint(segs')
    requires forall s :: s in segs <==> s in segs'
    ensures Loaded(m, segs) == Loaded(m, segs')
  {
    forall a: nat | a < |m| ensures Loaded(m, segs)[a] == Loaded(m, segs')[a] {
      LoadedAt(m, segs, a);
      LoadedAt(m, segs', a);
      var j, k := LastOver(segs, a), LastOver(segs', a);
      if j >= 0 {
        SameSegment(segs, segs', a, j);
      } else if k >= 0 {
        SameSegment(segs', segs, a, k);
      }
    }
  }

  // The segment over an address is the same in both orders.
  lemma SameSegment(segs: seq<Segment>, segs': seq<Segment>, a: int, j: nat)
    requires Disjoint(segs') && (forall s :: s in segs ==> s in segs')
    requires j < |segs| && Covers(segs[j], a)
    ensures LastOver(segs', a) != -1 && segs'[LastOver(segs', a)] == segs[j]
  {
    assert segs[j] in segs';
    var i :| 0 <= i < |segs'| && segs'[i] == segs[j];
    assert Covers(segs'[i], a);
    var k := LastOver(segs', a);
    assert i == k;
  }

  lemma LoadedTwo(m: seq<Byte>, s: Segment, t: Segment)
    ensures Loaded(m, [s, t]) == Place(Place(m, s), t)
  {
    assert [s][..0] == [];
    assert Loaded(m, [s]) == Place(Loaded(m, []), s);
    assert [s, t][..1] == [s];
  }

  /** Two segments may change places exactly when they agree wherever they overlap. */
  lemma SwapExact(m: seq<Byte>, s: Segment, t: Segment)
    requires Fits(s, |m|)
    ensures Loaded(m, [s, t]) == Loaded(m, [t, s]) <==>
            forall a :: Covers(s, a) && Covers(t, a) ==> ByteAt(s, a) == ByteAt(t, a)
  {
    LoadedTwo(m, s, t);
    LoadedTwo(m, t, s);
    if Loaded(m, [s, t]) == Loaded(m, [t, s]) {
      forall a | Covers(s, a) && Covers(t, a) ensures ByteAt(s, a) == ByteAt(t, a) {
        assert Loaded(m, [s, t])[a] == Loaded(m, [t, s])[a];
      }
    }
  }
}
