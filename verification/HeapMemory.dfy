/**
 The block list as words in memory (kernel/heap.c:6).

 Memory maps 4-aligned addresses to 32-bit words. A header is four words: magic, size, next and
 prev, with 0 for NULL. The lemmas say what the pointer writes of the allocator do to the list and
 that they touch nothing but headers.
 */
module HeapMemory {
  import opened Word32
  import opened HeapModel

  type Memory = map<int, int>

  function Magic(b: Block): int { if b.used then USED_MAGIC else FREE_MAGIC }

  function Next(bs: seq<Block>, i: nat): int
    requires i < |bs|
  {
    if i + 1 < |bs| then bs[i + 1].addr else 0
  }

  function Prev(bs: seq<Block>, i: nat): int
    requires i < |bs|
  {
    if i > 0 then bs[i - 1].addr else 0
  }

  predicate HeaderIs(mem: Memory, a: int, magic: int, size: int, next: int, prev: int) {
    && a in mem && mem[a] == magic
    && a + 4 in mem && mem[a + 4] == size
    && a + 8 in mem && mem[a + 8] == next
    && a + 12 in mem && mem[a + 12] == prev
  }

  predicate HeaderAt(mem: Memory, bs: seq<Block>, i: nat)
    requires i < |bs|
  {
    HeaderIs(mem, bs[i].addr, Magic(bs[i]), bs[i].size, Next(bs, i), Prev(bs, i))
  }

  // prev is the inverse of next, and both follow the address order
  ghost predicate Linked(mem: Memory, bs: seq<Block>) {
    forall i: nat :: i < |bs| ==> HeaderAt(mem, bs, i)
  }

  // ----- Pointer writes -----

  // b->next->prev = b, when there is a next block
  function RelinkPrev(mem: Memory, next: int, b: int): Memory {
    if next != 0 then mem[next + 12 := b] else mem
  }

  // The writes of a split: block c keeps `size` bytes, a new free block n takes the rest.
  function SplitWrites(mem: Memory, c: int, size: nat): Memory
    requires c + 4 in mem && c + 8 in mem
  {
    var n := c + HEADER + size;
    var m := mem[n := FREE_MAGIC][n + 4 := mem[c + 4] - size - HEADER][n + 8 := mem[c + 8]][n + 12 := c];
    RelinkPrev(m, mem[c + 8], n)[c + 8 := n][c + 4 := size]
  }

  // The writes of merge(b) when the next block is free
  function MergeWrites(mem: Memory, b: int): Memory
    requires b + 4 in mem && b + 8 in mem && mem[b + 8] + 4 in mem && mem[b + 8] + 8 in mem
  {
    var x := mem[b + 8];
    var m := mem[b + 4 := mem[b + 4] + HEADER + mem[x + 4]][b + 8 := mem[x + 8]];
    RelinkPrev(m, mem[x + 8], b)
  }

  // Memory after a split, one header at a time
  lemma SplitHeaders(mem: Memory, c: int, size: nat, total: int, next: int, prev: int)
    requires HeaderIs(mem, c, FREE_MAGIC, total, next, prev)
    requires total >= size + HEADER
    requires next == 0 || next >= c + HEADER + total
    ensures var n := c + HEADER + size;
      var m := SplitWrites(mem, c, size)[c := USED_MAGIC];
      && HeaderIs(m, c, USED_MAGIC, size, n, prev)
      && HeaderIs(m, n, FREE_MAGIC, total - size - HEADER, next, c)
      && (next != 0 ==> next + 12 in m && m[next + 12] == n)
  {
  }

  // All other words
  lemma SplitApart(mem: Memory, c: int, size: nat, total: int, next: int, prev: int, a: int)
    requires HeaderIs(mem, c, FREE_MAGIC, total, next, prev)
    requires total >= size + HEADER
    requires next == 0 || next >= c + HEADER + total
    requires !(c <= a < c + HEADER) && !(c + HEADER + size <= a < c + HEADER + size + HEADER)
    requires next == 0 || a != next + 12
    ensures var m := SplitWrites(mem, c, size)[c := USED_MAGIC];
      a in mem ==> a in m && m[a] == mem[a]
  {
  }

  lemma CarvedList(bs: seq<Block>, i: nat, size: nat, j: nat)
    requires i < |bs| && Splits(bs[i], size) && j <= |bs|
    ensures var r := bs[..i] + Carve(bs[i], size) + bs[i + 1..];
      && |r| == |bs| + 1
      && r[j] == if j < i then bs[j]
                 else if j == i then Block(bs[i].addr, size, true)
                 else if j == i + 1 then Block(bs[i].addr + HEADER + size, bs[i].size - size - HEADER, false)
                 else bs[j - 1]
  {
  }

  lemma SplitLinked(mem: Memory, bs: seq<Block>, lo: int, hi: int, i: nat, size: nat)
    requires 0 < lo && Tiles(bs, lo, hi) && Linked(mem, bs)
    requires i < |bs| && !bs[i].used && Splits(bs[i], size)
    ensures HeaderAt(mem, bs, i)
    ensures Linked(SplitWrites(mem, bs[i].addr, size)[bs[i].addr := USED_MAGIC],
                   bs[..i] + Carve(bs[i], size) + bs[i + 1..])
  {
    assert HeaderAt(mem, bs, i);
    var m := SplitWrites(mem, bs[i].addr, size)[bs[i].addr := USED_MAGIC];
    var r := bs[..i] + Carve(bs[i], size) + bs[i + 1..];
    CarvedList(bs, i, size, i);
    forall j: nat | j < |r| ensures HeaderAt(m, r, j) {
      SplitHeader(mem, bs, lo, hi, i, size, j);
    }
  }

  lemma SplitHeader(mem: Memory, bs: seq<Block>, lo: int, hi: int, i: nat, size: nat, j: nat)
    requires 0 < lo && Tiles(bs, lo, hi) && Linked(mem, bs)
    requires i < |bs| && !bs[i].used && Splits(bs[i], size) && j <= |bs| && HeaderAt(mem, bs, i)
    ensures var r := bs[..i] + Carve(bs[i], size) + bs[i + 1..];
      |r| == |bs| + 1 && HeaderAt(SplitWrites(mem, bs[i].addr, size)[bs[i].addr := USED_MAGIC], r, j)
  {
    CarvedList(bs, i, size, j);
    if j > 0 { CarvedList(bs, i, size, j - 1); }
    if j < |bs| { CarvedList(bs, i, size, j + 1); }
    if j != i && j != i + 1 {
      SplitOther(mem, bs, lo, hi, i, size, if j < i then j else j - 1);
    } else {
      SplitOwnHeader(mem, bs, lo, hi, i, size, j);
    }
  }

  // The two headers of the split block
  lemma SplitOwnHeader(mem: Memory, bs: seq<Block>, lo: int, hi: int, i: nat, size: nat, j: nat)
    requires 0 < lo && Tiles(bs, lo, hi) && i < |bs| && !bs[i].used && Splits(bs[i], size) && HeaderAt(mem, bs, i)
    requires i <= j <= i + 1
    ensures var r := bs[..i] + Carve(bs[i], size) + bs[i + 1..];
      |r| == |bs| + 1 && HeaderAt(SplitWrites(mem, bs[i].addr, size)[bs[i].addr := USED_MAGIC], r, j)
  {
    CarvedList(bs, i, size, j);
    if j > 0 { CarvedList(bs, i, size, j - 1); }
    if j < |bs| { CarvedList(bs, i, size, j + 1); }
    SplitOwn(mem, bs, lo, hi, i, size);
  }

  // The headers of the two parts
  lemma SplitOwn(mem: Memory, bs: seq<Block>, lo: int, hi: int, i: nat, size: nat)
    requires 0 < lo && Tiles(bs, lo, hi) && i < |bs| && !bs[i].used && Splits(bs[i], size) && HeaderAt(mem, bs, i)
    ensures var c, total, m := bs[i].addr, bs[i].size, SplitWrites(mem, bs[i].addr, size)[bs[i].addr := USED_MAGIC];
      && HeaderIs(m, c, USED_MAGIC, size, c + HEADER + size, Prev(bs, i))
      && HeaderIs(m, c + HEADER + size, FREE_MAGIC, total - size - HEADER, Next(bs, i), c)
  {
    OtherAfter(bs, lo, hi, i);
    SplitHeaders(mem, bs[i].addr, size, bs[i].size, Next(bs, i), Prev(bs, i));
  }

  lemma OtherAfter(bs: seq<Block>, lo: int, hi: int, i: nat)
    requires 0 < lo && Tiles(bs, lo, hi) && i < |bs|
    ensures Next(bs, i) == 0 || Next(bs, i) >= bs[i].addr + HEADER + bs[i].size
  {
    if i + 1 < |bs| { TilesOrdered(bs, lo, hi, i, i + 1); }
  }

  // Where another block lies when block i is split
  lemma OtherApart(bs: seq<Block>, lo: int, hi: int, i: nat, k: nat)
    requires 0 < lo && Tiles(bs, lo, hi) && i < |bs| && k < |bs| && k != i
    ensures bs[k].addr + HEADER <= bs[i].addr || bs[i].addr + HEADER + bs[i].size <= bs[k].addr
    ensures Next(bs, i) == 0 || Next(bs, i) >= bs[i].addr + HEADER + bs[i].size
    ensures i + 1 < |bs| ==> Next(bs, i) != 0
    ensures Next(bs, i) != 0 && k != i + 1 ==> bs[k].addr + HEADER <= Next(bs, i) || Next(bs, i) + HEADER <= bs[k].addr
  {
    if i + 1 < |bs| {
      TilesBounds(bs, lo, hi, i + 1);
      TilesOrdered(bs, lo, hi, i, i + 1);
    }
    if k < i { TilesOrdered(bs, lo, hi, k, i); } else { TilesOrdered(bs, lo, hi, i, k); }
    if k > i + 1 { TilesOrdered(bs, lo, hi, i + 1, k); }
  }

  // The header of a block other than i keeps everything but, right after i, its prev.
  lemma SplitOther(mem: Memory, bs: seq<Block>, lo: int, hi: int, i: nat, size: nat, k: nat)
    requires 0 < lo && Tiles(bs, lo, hi) && Linked(mem, bs)
    requires i < |bs| && !bs[i].used && Splits(bs[i], size)
    requires k < |bs| && k != i && HeaderAt(mem, bs, i)
    ensures var m := SplitWrites(mem, bs[i].addr, size)[bs[i].addr := USED_MAGIC];
      HeaderIs(m, bs[k].addr, Magic(bs[k]), bs[k].size, Next(bs, k),
               if k == i + 1 then bs[i].addr + HEADER + size else Prev(bs, k))
  {
    var c, total, next, prev, a := bs[i].addr, bs[i].size, Next(bs, i), Prev(bs, i), bs[k].addr;
    OtherApart(bs, lo, hi, i, k);
    assert HeaderAt(mem, bs, k);
    SplitApart(mem, c, size, total, next, prev, a);
    SplitApart(mem, c, size, total, next, prev, a + 4);
    SplitApart(mem, c, size, total, next, prev, a + 8);
    if k != i + 1 {
      SplitApart(mem, c, size, total, next, prev, a + 12);
    } else {
      SplitHeaders(mem, c, size, total, next, prev);
    }
  }

  lemma MarkLinked(mem: Memory, bs: seq<Block>, lo: int, hi: int, i: nat, used: bool)
    requires Tiles(bs, lo, hi) && Linked(mem, bs)
    requires i < |bs|
    ensures var r := bs[i := bs[i].(used := used)]; Linked(mem[bs[i].addr := Magic(r[i])], r)
  {
    var r := bs[i := bs[i].(used := used)];
    var m := mem[bs[i].addr := Magic(r[i])];
    forall j: nat | j < |r| ensures HeaderAt(m, r, j) {
      assert HeaderAt(mem, bs, j);
      if j < i {
        TilesOrdered(bs, lo, hi, j, i);
      } else if j > i {
        TilesOrdered(bs, lo, hi, i, j);
      }
    }
  }

  // Memory after a merge
  lemma MergeHeaders(mem: Memory, b: int, magic: int, size: int, x: int, prev: int, xmagic: int, xsize: int, next: int)
    requires HeaderIs(mem, b, magic, size, x, prev) && HeaderIs(mem, x, xmagic, xsize, next, b)
    requires x >= b + HEADER
    requires next == 0 || next >= x + HEADER
    ensures var m := MergeWrites(mem, b);
      && HeaderIs(m, b, magic, size + HEADER + xsize, next, prev)
      && (next != 0 ==> next + 12 in m && m[next + 12] == b)
  {
  }

  lemma MergeApart(mem: Memory, b: int, magic: int, size: int, x: int, prev: int, xmagic: int, xsize: int, next: int,
      a: int)
    requires HeaderIs(mem, b, magic, size, x, prev) && HeaderIs(mem, x, xmagic, xsize, next, b)
    requires x >= b + HEADER
    requires next == 0 || next >= x + HEADER
    requires !(b <= a < b + HEADER) && (next == 0 || a != next + 12)
    ensures var m := MergeWrites(mem, b);
      (a in mem ==> a in m && m[a] == mem[a])
  {
  }

  lemma AbsorbedList(bs: seq<Block>, i: nat, j: nat)
    requires i + 1 < |bs| && !bs[i + 1].used && j < |bs| - 1
    ensures var r := Absorb(bs, i);
      && |r| == |bs| - 1
      && r[j] == if j < i then bs[j]
                 else if j == i then bs[i].(size := bs[i].size + HEADER + bs[i + 1].size)
                 else bs[j + 1]
  {
  }

  lemma MergeLinked(mem: Memory, bs: seq<Block>, lo: int, hi: int, i: nat)
    requires 0 < lo && Tiles(bs, lo, hi) && Linked(mem, bs)
    requires i + 1 < |bs| && !bs[i + 1].used
    ensures HeaderAt(mem, bs, i) && HeaderAt(mem, bs, i + 1)
    ensures Linked(MergeWrites(mem, bs[i].addr), Absorb(bs, i))
  {
    assert HeaderAt(mem, bs, i) && HeaderAt(mem, bs, i + 1);
    var m := MergeWrites(mem, bs[i].addr);
    var r := Absorb(bs, i);
    forall j: nat | j < |r| ensures HeaderAt(m, r, j) {
      MergeHeader(mem, bs, lo, hi, i, j);
    }
  }

  lemma MergeHeader(mem: Memory, bs: seq<Block>, lo: int, hi: int, i: nat, j: nat)
    requires 0 < lo && Tiles(bs, lo, hi) && Linked(mem, bs)
    requires i + 1 < |bs| && !bs[i + 1].used && HeaderAt(mem, bs, i) && HeaderAt(mem, bs, i + 1)
    requires j < |Absorb(bs, i)|
    ensures HeaderAt(MergeWrites(mem, bs[i].addr), Absorb(bs, i), j)
  {
    var r := Absorb(bs, i);
    AbsorbedList(bs, i, j);
    if j > 0 { AbsorbedList(bs, i, j - 1); }
    if j + 1 < |r| { AbsorbedList(bs, i, j + 1); }
    if j == i {
      MergeOwn(mem, bs, lo, hi, i);
    } else {
      MergeOther(mem, bs, lo, hi, i, if j < i then j else j + 1);
    }
  }

  lemma MergeOwn(mem: Memory, bs: seq<Block>, lo: int, hi: int, i: nat)
    requires 0 < lo && Tiles(bs, lo, hi)
    requires i + 1 < |bs| && !bs[i + 1].used && HeaderAt(mem, bs, i) && HeaderAt(mem, bs, i + 1)
    ensures HeaderIs(MergeWrites(mem, bs[i].addr), bs[i].addr, Magic(bs[i]), bs[i].size + HEADER + bs[i + 1].size,
                     Next(bs, i + 1), Prev(bs, i))
  {
    TilesOrdered(bs, lo, hi, i, i + 1);
    if i + 2 < |bs| { TilesOrdered(bs, lo, hi, i + 1, i + 2); }
    MergeHeaders(mem, bs[i].addr, Magic(bs[i]), bs[i].size, bs[i + 1].addr, Prev(bs, i),
                 Magic(bs[i + 1]), bs[i + 1].size, Next(bs, i + 1));
  }

  // A header outside the merged pair keeps everything but, right after it, its prev.
  lemma MergeOther(mem: Memory, bs: seq<Block>, lo: int, hi: int, i: nat, k: nat)
    requires 0 < lo && Tiles(bs, lo, hi) && Linked(mem, bs)
    requires i + 1 < |bs| && !bs[i + 1].used && HeaderAt(mem, bs, i) && HeaderAt(mem, bs, i + 1)
    requires k < |bs| && k != i && k != i + 1
    ensures HeaderIs(MergeWrites(mem, bs[i].addr), bs[k].addr, Magic(bs[k]), bs[k].size, Next(bs, k),
                     if k == i + 2 then bs[i].addr else Prev(bs, k))
  {
    var b, magic, size, prev := bs[i].addr, Magic(bs[i]), bs[i].size, Prev(bs, i);
    var x, xmagic, xsize, next := bs[i + 1].addr, Magic(bs[i + 1]), bs[i + 1].size, Next(bs, i + 1);
    var a := bs[k].addr;
    TilesOrdered(bs, lo, hi, i, i + 1);
    if i + 2 < |bs| {
      TilesBounds(bs, lo, hi, i + 2);
      TilesOrdered(bs, lo, hi, i + 1, i + 2);
    }
    assert HeaderAt(mem, bs, k);
    if k < i { TilesOrdered(bs, lo, hi, k, i); } else { TilesOrdered(bs, lo, hi, i, k); }
    if k > i + 2 { TilesOrdered(bs, lo, hi, i + 2, k); }
    MergeApart(mem, b, magic, size, x, prev, xmagic, xsize, next, a);
    MergeApart(mem, b, magic, size, x, prev, xmagic, xsize, next, a + 4);
    MergeApart(mem, b, magic, size, x, prev, xmagic, xsize, next, a + 8);
    if k != i + 2 {
      MergeApart(mem, b, magic, size, x, prev, xmagic, xsize, next, a + 12);
    } else {
      MergeHeaders(mem, b, magic, size, x, prev, xmagic, xsize, next);
    }
  }

  // ----- What the writes leave alone -----

  ghost predicate Header(bs: seq<Block>, a: int) {
    exists i :: 0 <= i < |bs| && bs[i].addr <= a < bs[i].Payload()
  }

  // The two memories differ at most in words that belong to a header of bs.
  ghost predicate OnlyHeaders(mem: Memory, mem': Memory, bs: seq<Block>) {
    && mem.Keys <= mem'.Keys
    && forall a :: a in mem && !Header(bs, a) ==> mem'[a] == mem[a]
  }

  lemma SplitOnlyHeaders(mem: Memory, bs: seq<Block>, lo: int, hi: int, i: nat, size: nat)
    requires 0 < lo && Tiles(bs, lo, hi) && Linked(mem, bs)
    requires i < |bs| && !bs[i].used && Splits(bs[i], size) && HeaderAt(mem, bs, i)
    ensures OnlyHeaders(mem, SplitWrites(mem, bs[i].addr, size)[bs[i].addr := USED_MAGIC],
                        bs[..i] + Carve(bs[i], size) + bs[i + 1..])
  {
    var m := SplitWrites(mem, bs[i].addr, size)[bs[i].addr := USED_MAGIC];
    var r := bs[..i] + Carve(bs[i], size) + bs[i + 1..];
    CarvedList(bs, i, size, i);
    CarvedList(bs, i, size, i + 1);
    if i + 1 < |bs| {
      TilesOrdered(bs, lo, hi, i, i + 1);
      CarvedList(bs, i, size, i + 2);
      assert r[i + 2] == bs[i + 1];
    }
    forall a | a in mem && !Header(r, a) ensures m[a] == mem[a] {
      SplitApart(mem, bs[i].addr, size, bs[i].size, Next(bs, i), Prev(bs, i), a);
    }
  }

  lemma MergeOnlyHeaders(mem: Memory, bs: seq<Block>, lo: int, hi: int, i: nat)
    requires 0 < lo && Tiles(bs, lo, hi) && Linked(mem, bs)
    requires i + 1 < |bs| && !bs[i + 1].used && HeaderAt(mem, bs, i) && HeaderAt(mem, bs, i + 1)
    ensures OnlyHeaders(mem, MergeWrites(mem, bs[i].addr), bs)
  {
    var next := Next(bs, i + 1);
    TilesOrdered(bs, lo, hi, i, i + 1);
    if i + 2 < |bs| {
      TilesOrdered(bs, lo, hi, i + 1, i + 2);
      assert next == bs[i + 2].addr;
    }
    forall a | a in mem && !Header(bs, a)
      ensures MergeWrites(mem, bs[i].addr)[a] == mem[a]
    {
      MergeApart(mem, bs[i].addr, Magic(bs[i]), bs[i].size, bs[i + 1].addr, Prev(bs, i),
                 Magic(bs[i + 1]), bs[i + 1].size, next, a);
    }
  }

  // ----- Payloads -----

  // Every aligned word of the heap region is backed by memory.
  ghost predicate Mapped(mem: Memory, lo: int, hi: int) {
    forall a :: lo <= a < hi && a % 4 == 0 ==> a in mem
  }

  // The words of the payload at p
  function Words(mem: Memory, p: int, size: nat): seq<int> {
    seq(size / 4, k => var a := p + 4 * k; if a in mem then mem[a] else 0)
  }

  // What a client sees of the heap: the words behind every live pointer
  function Contents(mem: Memory, bs: seq<Block>): map<int, seq<int>> {
    var live := Live(bs);
    map p | p in live :: Words(mem, p, live[p])
  }

  /** No header lies inside a payload. */
  lemma PayloadHasNoHeader(bs: seq<Block>, lo: int, hi: int, p: int, a: int)
    requires Tiles(bs, lo, hi)
    requires p in Live(bs) && p <= a < p + Live(bs)[p]
    ensures !Header(bs, a)
  {
    LiveMember(bs, lo, hi, p);
    var k :| 0 <= k < |bs| && bs[k].used && bs[k].Payload() == p;
    forall i | 0 <= i < |bs| ensures !(bs[i].addr <= a < bs[i].Payload()) {
      if i < k {
        TilesOrdered(bs, lo, hi, i, k);
      } else if k < i {
        TilesOrdered(bs, lo, hi, k, i);
      }
    }
  }

  /** Two different live payloads do not overlap, and both lie inside the heap. */
  lemma LivePayloadsDisjoint(bs: seq<Block>, lo: int, hi: int, p: int, q: int)
    requires Tiles(bs, lo, hi)
    requires p in Live(bs) && q in Live(bs) && p < q
    ensures lo + HEADER <= p && p + Live(bs)[p] + HEADER <= q && q + Live(bs)[q] <= hi
  {
    LiveMember(bs, lo, hi, p);
    LiveMember(bs, lo, hi, q);
    var i :| 0 <= i < |bs| && bs[i].used && bs[i].Payload() == p;
    var j :| 0 <= j < |bs| && bs[j].used && bs[j].Payload() == q;
    TilesBounds(bs, lo, hi, i);
    TilesBounds(bs, lo, hi, j);
    if i < j {
      TilesOrdered(bs, lo, hi, i, j);
    } else if j < i {
      TilesOrdered(bs, lo, hi, j, i);
    }
  }

  // A live payload starts and ends on a word of the heap region.
  lemma LiveInside(bs: seq<Block>, lo: int, hi: int, p: int)
    requires Tiles(bs, lo, hi) && lo % 8 == 0
    requires p in Live(bs)
    ensures lo + HEADER <= p && p + Live(bs)[p] <= hi && p % 8 == 0 && Live(bs)[p] % 8 == 0
  {
    LiveLocated(bs, lo, hi, p);
    TilesBounds(bs, lo, hi, Locate(bs, p));
  }

  lemma WordsKept(mem: Memory, mem': Memory, bs: seq<Block>, lo: int, hi: int, p: int)
    requires Tiles(bs, lo, hi) && lo % 8 == 0 && Mapped(mem, lo, hi) && OnlyHeaders(mem, mem', bs)
    requires p in Live(bs)
    ensures Words(mem', p, Live(bs)[p]) == Words(mem, p, Live(bs)[p])
  {
    var size := Live(bs)[p];
    LiveInside(bs, lo, hi, p);
    forall k: nat | k < size / 4
      ensures Words(mem', p, size)[k] == Words(mem, p, size)[k]
    {
      WordInside(lo, hi, p, size, k);
      PayloadHasNoHeader(bs, lo, hi, p, p + 4 * k);
    }
  }

  // Word k of a payload lies in it and is aligned.
  lemma WordInside(lo: int, hi: int, p: int, size: nat, k: nat)
    requires lo <= p && p + size <= hi && p % 8 == 0 && k < size / 4
    ensures lo <= p + 4 * k < hi && p <= p + 4 * k < p + size && (p + 4 * k) % 4 == 0
  {
  }

  // A word of a live payload in memory
  lemma WordInMemory(mem: Memory, bs: seq<Block>, lo: int, hi: int, p: int, k: nat)
    requires Tiles(bs, lo, hi) && lo % 8 == 0 && Mapped(mem, lo, hi)
    requires p in Contents(mem, bs) && k < |Contents(mem, bs)[p]|
    ensures p + 4 * k in mem && Contents(mem, bs)[p][k] == mem[p + 4 * k]
  {
    LiveInside(bs, lo, hi, p);
    WordInside(lo, hi, p, Live(bs)[p], k);
  }

  lemma ContentsKept(mem: Memory, mem': Memory, bs: seq<Block>, lo: int, hi: int)
    requires Tiles(bs, lo, hi) && lo % 8 == 0 && Mapped(mem, lo, hi) && OnlyHeaders(mem, mem', bs)
    ensures Contents(mem', bs) == Contents(mem, bs)
  {
    forall p | p in Live(bs)
      ensures Words(mem', p, Live(bs)[p]) == Words(mem, p, Live(bs)[p])
    {
      WordsKept(mem, mem', bs, lo, hi, p);
    }
  }

  lemma MarkOnlyHeaders(mem: Memory, bs: seq<Block>, i: nat, magic: int)
    requires i < |bs|
    ensures OnlyHeaders(mem, mem[bs[i].addr := magic], bs)
  {
  }

  lemma ContentsGain(mem: Memory, bs: seq<Block>, bs': seq<Block>, p: int, size: nat)
    requires p !in Live(bs) && Live(bs') == Live(bs)[p := size]
    ensures Contents(mem, bs') - {p} == Contents(mem, bs)
  {
  }

  lemma ContentsLose(mem: Memory, bs: seq<Block>, bs': seq<Block>, p: int)
    requires Live(bs') == Live(bs) - {p}
    ensures Contents(mem, bs') == Contents(mem, bs) - {p}
  {
  }

  // All the writes of a kmalloc that takes block c
  function PlaceWrites(mem: Memory, c: int, size: nat): Memory
    requires c + 4 in mem && c + 8 in mem
  {
    (if mem[c + 4] >= size + HEADER + MIN_SPLIT then SplitWrites(mem, c, size) else mem)[c := USED_MAGIC]
  }

  lemma PlaceLinked(mem: Memory, bs: seq<Block>, lo: int, hi: int, size: nat)
    requires 0 < lo && Tiles(bs, lo, hi) && Linked(mem, bs)
    requires FirstFit(bs, size) < |bs|
    ensures var i := FirstFit(bs, size);
      && HeaderAt(mem, bs, i)
      && Linked(PlaceWrites(mem, bs[i].addr, size), Place(bs, size).blocks)
      && OnlyHeaders(mem, PlaceWrites(mem, bs[i].addr, size), Place(bs, size).blocks)
  {
    var i := FirstFit(bs, size);
    assert HeaderAt(mem, bs, i);
    if Splits(bs[i], size) {
      SplitLinked(mem, bs, lo, hi, i, size);
      SplitOnlyHeaders(mem, bs, lo, hi, i, size);
    } else {
      var r := bs[i := bs[i].(used := true)];
      assert bs[..i] + [r[i]] + bs[i + 1..] == r;
      MarkLinked(mem, bs, lo, hi, i, true);
      MarkOnlyHeaders(mem, r, i, USED_MAGIC);
    }
  }

  // The client's view after a kmalloc that finds a block
  lemma PlaceContents(mem: Memory, bs: seq<Block>, lo: int, hi: int, size: nat)
    requires 0 < lo && lo % 8 == 0 && Tiles(bs, lo, hi) && Linked(mem, bs) && Mapped(mem, lo, hi)
    requires FirstFit(bs, size) < |bs| && size % 8 == 0
    ensures var i := FirstFit(bs, size);
      var p, r := bs[i].Payload(), Place(bs, size).blocks;
      && HeaderAt(mem, bs, i) && p !in Contents(mem, bs)
      && Contents(PlaceWrites(mem, bs[i].addr, size), r) - {p} == Contents(mem, bs)
  {
    var i := FirstFit(bs, size);
    PlaceLinked(mem, bs, lo, hi, size);
    PlaceTiles(bs, lo, hi, size);
    PlaceLive(bs, lo, hi, size);
    ContentsKept(mem, PlaceWrites(mem, bs[i].addr, size), Place(bs, size).blocks, lo, hi);
    ContentsGain(mem, bs, Place(bs, size).blocks, bs[i].Payload(), Granted(bs[i], size));
  }

  // Everything a kmalloc that finds a block keeps and changes
  lemma PlaceTaken(mem: Memory, bs: seq<Block>, lo: int, hi: int, size: nat, i: nat, c: int)
    requires 64 <= lo && lo % 8 == 0 && hi <= WORD && size % 8 == 0
    requires Tiles(bs, lo, hi) && Linked(mem, bs) && Mapped(mem, lo, hi)
    requires i == FirstFit(bs, size) < |bs| && c == bs[i].addr
    ensures var p, r := c + HEADER, Place(bs, size).blocks;
      && Place(bs, size) == Allocation(r, p)
      && HeaderAt(mem, bs, i)
      && var mem' := PlaceWrites(mem, c, size);
      && Tiles(r, lo, hi) && Linked(mem', r) && Mapped(mem', lo, hi)
      && c + 4 in mem' && UsedBytes(r) == UsedBytes(bs) + mem'[c + 4] < WORD
      && p % 8 == 0 && p !in Contents(mem, bs) && p in Live(r) && Live(r)[p] >= size
      && Contents(mem', r) - {p} == Contents(mem, bs)
  {
    PlacedAt(bs, size, i);
    PlaceLinked(mem, bs, lo, hi, size);
    PlaceContents(mem, bs, lo, hi, size);
    PlaceBounds(bs, lo, hi, size);
    FitBounds(bs, lo, hi, i);
    GrantedStored(mem, bs, i, size);
  }

  lemma FitBounds(bs: seq<Block>, lo: int, hi: int, i: nat)
    requires lo % 8 == 0 && Tiles(bs, lo, hi) && i < |bs|
    ensures bs[i].Payload() % 8 == 0 && (Next(bs, i) == 0 || Next(bs, i) >= bs[i].End())
  {
    TilesBounds(bs, lo, hi, i);
    if i + 1 < |bs| { TilesOrdered(bs, lo, hi, i, i + 1); }
  }

  lemma PlaceBounds(bs: seq<Block>, lo: int, hi: int, size: nat)
    requires 64 <= lo && lo % 8 == 0 && hi <= WORD && size % 8 == 0 && Tiles(bs, lo, hi)
    requires FirstFit(bs, size) < |bs|
    ensures var i, r := FirstFit(bs, size), Place(bs, size).blocks;
      var p := bs[i].Payload();
      && Tiles(r, lo, hi) && UsedBytes(r) == UsedBytes(bs) + Granted(bs[i], size) < WORD
      && p in Live(r) && Live(r)[p] >= size
  {
    PlaceTiles(bs, lo, hi, size);
    PlaceLive(bs, lo, hi, size);
    UsedBounded(Place(bs, size).blocks, lo, hi);
  }

  lemma GrantedStored(mem: Memory, bs: seq<Block>, i: nat, size: nat)
    requires i < |bs| && Fits(bs[i], size) && HeaderAt(mem, bs, i)
    requires Next(bs, i) == 0 || Next(bs, i) >= bs[i].End()
    ensures var mem' := PlaceWrites(mem, bs[i].addr, size);
      bs[i].addr + 4 in mem' && mem'[bs[i].addr + 4] == Granted(bs[i], size)
  {
  }

  // ----- kfree -----

  predicate NextFree(mem: Memory, b: int) {
    b + 8 in mem && mem[b + 8] != 0 && mem[b + 8] in mem && mem[mem[b + 8]] == FREE_MAGIC
  }

  predicate PrevFree(mem: Memory, b: int) {
    b + 12 in mem && mem[b + 12] != 0 && mem[b + 12] in mem && mem[mem[b + 12]] == FREE_MAGIC
  }

  // The pointers that merge(b) follows
  lemma MergePointers(mem: Memory, bs: seq<Block>, lo: int, hi: int, i: nat)
    requires 0 < lo && Tiles(bs, lo, hi) && Linked(mem, bs)
    requires i + 1 < |bs|
    ensures var b, x, next := bs[i].addr, bs[i + 1].addr, Next(bs, i + 1);
      && b + 4 in mem && b + 8 in mem && mem[b + 8] == x && x >= b + HEADER
      && x + 4 in mem && x + 8 in mem && mem[x + 8] == next && (next == 0 || next >= x + HEADER)
  {
    assert HeaderAt(mem, bs, i) && HeaderAt(mem, bs, i + 1);
    TilesOrdered(bs, lo, hi, i, i + 1);
    if i + 2 < |bs| { TilesOrdered(bs, lo, hi, i + 1, i + 2); }
  }

  // merge(b) tests the next block first.
  lemma AbsorbLinked(mem: Memory, bs: seq<Block>, lo: int, hi: int, i: nat)
    requires 0 < lo && Tiles(bs, lo, hi) && Linked(mem, bs)
    requires i < |bs|
    ensures HeaderAt(mem, bs, i) && (i + 1 < |bs| ==> HeaderAt(mem, bs, i + 1))
    ensures NextFree(mem, bs[i].addr) <==> i + 1 < |bs| && !bs[i + 1].used
    ensures var mem' := if NextFree(mem, bs[i].addr) then MergeWrites(mem, bs[i].addr) else mem;
      Linked(mem', Absorb(bs, i)) && OnlyHeaders(mem, mem', bs)
  {
    assert HeaderAt(mem, bs, i);
    if i + 1 < |bs| {
      assert HeaderAt(mem, bs, i + 1);
      TilesBounds(bs, lo, hi, i + 1);
      if !bs[i + 1].used {
        MergeLinked(mem, bs, lo, hi, i);
        MergeOnlyHeaders(mem, bs, lo, hi, i);
      }
    }
  }

  lemma PrevFreeIff(mem: Memory, bs: seq<Block>, lo: int, hi: int, i: nat)
    requires 0 < lo && Tiles(bs, lo, hi) && Linked(mem, bs)
    requires i < |bs|
    ensures HeaderAt(mem, bs, i) && (Prev(bs, i) != 0 ==> Prev(bs, i) in mem)
    ensures PrevFree(mem, bs[i].addr) <==> i > 0 && !bs[i - 1].used
  {
    assert HeaderAt(mem, bs, i);
    if i > 0 {
      assert HeaderAt(mem, bs, i - 1);
      TilesBounds(bs, lo, hi, i - 1);
    }
  }

  lemma OnlyHeadersTrans(m0: Memory, m1: Memory, m2: Memory, bs: seq<Block>, bs': seq<Block>)
    requires OnlyHeaders(m0, m1, bs) && OnlyHeaders(m1, m2, bs')
    requires |bs| == |bs'| && forall i :: 0 <= i < |bs| ==> bs'[i].addr == bs[i].addr
    ensures OnlyHeaders(m0, m2, bs)
  {
    forall a | a in m0 && !Header(bs, a) ensures m2[a] == m0[a] {
      assert !Header(bs', a);
    }
  }

  lemma MappedKept(mem: Memory, mem': Memory, bs: seq<Block>, lo: int, hi: int)
    requires Mapped(mem, lo, hi) && OnlyHeaders(mem, mem', bs)
    ensures Mapped(mem', lo, hi)
  {
  }

  // The size word of a live payload
  lemma StoredSize(mem: Memory, bs: seq<Block>, lo: int, hi: int, p: int)
    requires lo % 8 == 0 && Tiles(bs, lo, hi) && Linked(mem, bs) && p in Live(bs)
    ensures var i := Locate(bs, p);
      && i < |bs| && HeaderAt(mem, bs, i) && bs[i].used && bs[i].addr == p - HEADER && lo + HEADER <= p
      && p - HEADER + 4 in mem && mem[p - HEADER + 4] == Live(bs)[p] == 4 * |Contents(mem, bs)[p]|
  {
    LiveInside(bs, lo, hi, p);
    LiveLocated(bs, lo, hi, p);
    WordsOf(mem, bs, p);
    assert HeaderAt(mem, bs, Locate(bs, p));
  }

  lemma WordsOf(mem: Memory, bs: seq<Block>, p: int)
    requires p in Live(bs) && Live(bs)[p] % 8 == 0
    ensures p in Contents(mem, bs) && 4 * |Contents(mem, bs)[p]| == Live(bs)[p]
  {
    Quarters(Live(bs)[p]);
  }

  lemma Quarters(size: nat)
    requires size % 8 == 0
    ensures 4 * (size / 4) == size
  {
  }

  // kfree of a used block, once its headers are written
  lemma ReleasedAll(mem: Memory, mem': Memory, bs: seq<Block>, lo: int, hi: int, i: nat)
    requires lo % 8 == 0 && Tiles(bs, lo, hi) && Mapped(mem, lo, hi) && OnlyHeaders(mem, mem', bs)
    requires i < |bs| && bs[i].used
    ensures var r := Release(bs, i);
      && Tiles(r, lo, hi) && Mapped(mem', lo, hi)
      && UsedBytes(r) == UsedBytes(bs) - bs[i].size
      && Contents(mem', r) == Contents(mem, bs) - {bs[i].Payload()}
  {
    ReleaseTiles(bs, lo, hi, i);
    ReleaseLive(bs, lo, hi, i);
    MappedKept(mem, mem', bs, lo, hi);
    ReleaseContents(mem, mem', bs, lo, hi, i);
  }

  lemma ReleaseContents(mem: Memory, mem': Memory, bs: seq<Block>, lo: int, hi: int, i: nat)
    requires lo % 8 == 0 && Tiles(bs, lo, hi) && Mapped(mem, lo, hi) && OnlyHeaders(mem, mem', bs)
    requires i < |bs| && bs[i].used
    ensures Contents(mem', Release(bs, i)) == Contents(mem, bs) - {bs[i].Payload()}
  {
    ContentsKept(mem, mem', bs, lo, hi);
    ReleaseLive(bs, lo, hi, i);
    ContentsLose(mem', bs, Release(bs, i), bs[i].Payload());
  }

  // ----- Stores by the owner of a payload -----

  lemma StoreLinked(mem: Memory, bs: seq<Block>, lo: int, hi: int, p: int, a: int, v: int)
    requires Tiles(bs, lo, hi) && Linked(mem, bs)
    requires p in Live(bs) && p <= a < p + Live(bs)[p]
    ensures Linked(mem[a := v], bs)
  {
    PayloadHasNoHeader(bs, lo, hi, p, a);
    var m := mem[a := v];
    forall i: nat | i < |bs| ensures HeaderAt(m, bs, i) {
      assert HeaderAt(mem, bs, i);
    }
  }

  lemma StoreOther(mem: Memory, bs: seq<Block>, lo: int, hi: int, p: int, k: nat, v: int, q: int)
    requires Tiles(bs, lo, hi) && lo % 8 == 0
    requires p in Live(bs) && k < Live(bs)[p] / 4 && q in Live(bs) && q != p
    ensures Words(mem[p + 4 * k := v], q, Live(bs)[q]) == Words(mem, q, Live(bs)[q])
  {
    if p < q {
      LivePayloadsDisjoint(bs, lo, hi, p, q);
    } else {
      LivePayloadsDisjoint(bs, lo, hi, q, p);
    }
  }

  /** A store into one payload changes exactly that word of the view. */
  lemma StoreContents(mem: Memory, bs: seq<Block>, lo: int, hi: int, p: int, k: nat, v: int)
    requires Tiles(bs, lo, hi) && lo % 8 == 0 && Mapped(mem, lo, hi)
    requires p in Live(bs) && k < Live(bs)[p] / 4
    ensures Contents(mem[p + 4 * k := v], bs) == Contents(mem, bs)[p := Contents(mem, bs)[p][k := v]]
  {
    forall q | q in Live(bs) && q != p
      ensures Words(mem[p + 4 * k := v], q, Live(bs)[q]) == Words(mem, q, Live(bs)[q])
    {
      StoreOther(mem, bs, lo, hi, p, k, v, q);
    }
    assert Words(mem[p + 4 * k := v], p, Live(bs)[p]) == Words(mem, p, Live(bs)[p])[k := v];
  }
}
