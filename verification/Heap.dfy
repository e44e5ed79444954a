/**
 The kernel heap allocator (kernel/heap.c): `heap_init`, `kmalloc`, `merge`, `kfree`, `krealloc`
 and `heap_used`, with the client's own loads and stores inside live payloads.

 `blocks` is the ghost block list that the header words in memory always represent. Every method is
 tied to the functions of `HeapModel`, and to `Contents`, the words behind each live pointer.
 */
module KernelHeap {
  import opened Word32
  import opened HeapModel
  import opened HeapMemory

  // The first k words of a over those of b
  ghost function Copied(a: seq<int>, b: seq<int>, k: nat): seq<int>
    requires k <= |a| && k <= |b|
  {
    a[..k] + b[k..]
  }

  lemma CopiedNone(a: seq<int>, b: seq<int>)
    ensures Copied(a, b, 0) == b
  {
  }

  lemma CopiedMore(a: seq<int>, b: seq<int>, k: nat)
    requires k < |a| && k < |b|
    ensures |Copied(a, b, k)| == |b| && Copied(a, b, k)[k := a[k]] == Copied(a, b, k + 1)
  {
  }

  class Heap {
    var mem: Memory
    var heap: int          // address of the first header, 0 before heap_init
    var heapUsed: int
    ghost var blocks: seq<Block>
    ghost var lo: int
    ghost var hi: int

    ghost predicate Valid()
      reads this
    {
      if heap == 0 then
        blocks == [] && heapUsed == 0
      else
        && heap == lo && 64 <= lo && lo % 8 == 0 && hi <= WORD
        && Tiles(blocks, lo, hi)
        && Linked(mem, blocks)
        && Mapped(mem, lo, hi)
        && heapUsed == UsedBytes(blocks)
    }

    // pointer -> words of every live payload
    ghost function View(): map<int, seq<int>>
      reads this
    {
      Contents(mem, blocks)
    }

    constructor (memory: Memory)
      ensures Valid() && heap == 0 && mem == memory && View() == map[]
    {
      mem, heap, heapUsed := memory, 0, 0;
      blocks, lo, hi := [], 0, 0;
    }

    method HeapInit(start: int, size: int)
      requires Valid() && heap == 0
      requires 64 <= start && start % 8 == 0 && HEADER <= size && size % 8 == 0 && start + size <= WORD
      requires Mapped(mem, start, start + size)
      modifies this
      ensures Valid() && heap == lo == start && hi == start + size
      ensures blocks == [Block(start, size - HEADER, false)] && View() == map[]
      ensures forall a :: a in old(mem) && !(start <= a < start + HEADER) ==> a in mem && mem[a] == old(mem)[a]
    {
      heap := start;
      mem := mem[start := FREE_MAGIC][start + 4 := size - HEADER][start + 8 := 0][start + 12 := 0];
      blocks, lo, hi := [Block(start, size - HEADER, false)], start, start + size;
      LiveOne(blocks[0]);
    }

    method Kmalloc(sz: int) returns (p: int)
      requires Valid() && 0 <= sz < WORD
      modifies this
      ensures Valid() && heap == old(heap) && lo == old(lo) && hi == old(hi)
      ensures Allocation(blocks, p) == Allocate(old(blocks), sz)
      ensures p == 0 <==> sz == 0 || forall b :: b in old(blocks) ==> !Fits(b, Round(sz))
      ensures p == 0 ==> View() == old(View())
      ensures p != 0 ==> p !in old(View()) && p % 8 == 0 && p in Live(blocks) && Live(blocks)[p] >= Round(sz)
      ensures p != 0 ==> View() - {p} == old(View())
    {
      if sz == 0 { return 0; }
      RoundFacts(sz);
      var size := (sz + 7) % WORD / 8 * 8;
      p := Walk(size);
      if p != 0 {
        ghost var i := FirstFit(blocks, size);
        TilesBounds(blocks, lo, hi, i);
        Take(p, size, i);
        p := p + HEADER;
      }
    }

    // The list walk of kmalloc: the first free block of at least `size` bytes, NULL if none
    method Walk(size: nat) returns (c: int)
      requires Valid()
      ensures var i := FirstFit(blocks, size); c == if i < |blocks| then blocks[i].addr else 0
      ensures c == 0 <==> FirstFit(blocks, size) == |blocks|
    {
      c := heap;
      ghost var i := 0;
      if heap != 0 { TilesBounds(blocks, lo, hi, 0); }
      while c != 0
        invariant 0 <= i <= |blocks|
        invariant c == if i < |blocks| then blocks[i].addr else 0
        invariant c == 0 <==> i == |blocks|
        invariant forall k :: 0 <= k < i ==> !Fits(blocks[k], size)
        decreases |blocks| - i
      {
        assert HeaderAt(mem, blocks, i);
        if mem[c] == FREE_MAGIC && mem[c + 4] >= size {
          return;
        }
        c := mem[c + 8];
        i := i + 1;
        if i < |blocks| { TilesBounds(blocks, lo, hi, i); }
      }
    }

    // The body of the fit: split when the rest is large enough, then mark the block USED.
    method Take(c: int, size: nat, ghost i: nat)
      requires Valid() && heap != 0
      requires i < |blocks| && blocks[i].addr == c && i == FirstFit(blocks, size) && size % 8 == 0
      modifies this
      ensures Valid() && heap == old(heap) && lo == old(lo) && hi == old(hi)
      ensures Allocation(blocks, c + HEADER) == Place(old(blocks), size)
      ensures c + HEADER !in old(View()) && (c + HEADER) % 8 == 0
      ensures c + HEADER in Live(blocks) && Live(blocks)[c + HEADER] >= size
      ensures View() - {c + HEADER} == old(View())
    {
      PlaceTaken(mem, blocks, lo, hi, size, i, c);
      Mark(c, size, i);
      heapUsed := (heapUsed + mem[c + 4]) % WORD;
      blocks := Place(blocks, size).blocks;
    }

    method Mark(c: int, size: nat, ghost i: nat)
      requires Valid() && heap != 0
      requires i < |blocks| && blocks[i].addr == c && Fits(blocks[i], size)
      requires HeaderAt(mem, blocks, i)
      modifies `mem
      ensures mem == PlaceWrites(old(mem), c, size)
    {
      TilesBounds(blocks, lo, hi, i);
      if mem[c + 4] >= (size + HEADER + MIN_SPLIT) % WORD {
        Split(c, size, i);
      }
      mem := mem[c := USED_MAGIC];
    }

    method Split(c: int, size: nat, ghost i: nat)
      requires Valid() && heap != 0
      requires i < |blocks| && blocks[i].addr == c && !blocks[i].used && Splits(blocks[i], size)
      requires HeaderAt(mem, blocks, i)
      modifies `mem
      ensures mem == SplitWrites(old(mem), c, size)
    {
      if i + 1 < |blocks| { TilesOrdered(blocks, lo, hi, i, i + 1); }
      var n := c + HEADER + size;
      mem := mem[n := FREE_MAGIC];
      mem := mem[n + 4 := mem[c + 4] - size - HEADER];
      mem := mem[n + 8 := mem[c + 8]];
      mem := mem[n + 12 := c];
      if mem[c + 8] != 0 {
        mem := mem[mem[c + 8] + 12 := n];
      }
      mem := mem[c + 8 := n];
      mem := mem[c + 4 := size];
    }

    // merge(b): absorb the next block when it is free
    method Merge(b: int, ghost bs: seq<Block>, ghost i: nat)
      requires 0 < lo && Tiles(bs, lo, hi) && Linked(mem, bs)
      requires i < |bs| && bs[i].addr == b
      modifies `mem
      ensures Linked(mem, Absorb(bs, i)) && OnlyHeaders(old(mem), mem, bs)
    {
      AbsorbLinked(mem, bs, lo, hi, i);
      if mem[b + 8] != 0 && mem[mem[b + 8]] == FREE_MAGIC {
        MergePointers(mem, bs, lo, hi, i);
        Join(b, mem[b + 8], Next(bs, i + 1));
      }
    }

    // The three pointer writes of merge: x is the block that disappears.
    method Join(b: int, x: int, ghost next: int)
      requires b + 4 in mem && b + 8 in mem && mem[b + 8] == x && x >= b + HEADER
      requires x + 4 in mem && x + 8 in mem && mem[x + 8] == next
      requires next == 0 || next >= x + HEADER
      modifies `mem
      ensures mem == MergeWrites(old(mem), b)
    {
      mem := mem[b + 4 := mem[b + 4] + HEADER + mem[mem[b + 8] + 4]];
      mem := mem[b + 8 := mem[mem[b + 8] + 8]];
      if mem[b + 8] != 0 {
        mem := mem[mem[b + 8] + 12 := b];
      }
    }

    // A pointer whose header does not carry the USED mark is ignored, as is NULL.
    method Kfree(p: int)
      requires Valid()
      requires p != 0 ==> p - HEADER in mem
      requires p != 0 && mem[p - HEADER] == USED_MAGIC ==> Locate(blocks, p) < |blocks|
      modifies this
      ensures Valid() && heap == old(heap) && lo == old(lo) && hi == old(hi)
      ensures blocks == Free(old(blocks), p)
      ensures View() == old(View()) - {p}
    {
      ghost var i := Locate(blocks, p);
      if i < |blocks| { assert HeaderAt(mem, blocks, i); }
      if p == 0 { NotLive(p); return; }
      var b := p - HEADER;
      if mem[b] != USED_MAGIC { NotLive(p); return; }
      Unlink(b, i);
    }

    // The rest of kfree: clear the mark, then merge into the previous block or with the next one.
    method Unlink(b: int, ghost i: nat)
      requires Valid() && heap != 0
      requires i < |blocks| && blocks[i].addr == b && blocks[i].used && HeaderAt(mem, blocks, i)
      modifies this
      ensures Valid() && heap == old(heap) && lo == old(lo) && hi == old(hi)
      ensures blocks == Release(old(blocks), i)
      ensures View() == old(View()) - {b + HEADER}
    {
      heapUsed := heapUsed - mem[b + 4];
      ghost var mem0 := mem;
      Clear(b, i);
      ReleasedAll(mem0, mem, blocks, lo, hi, i);
      blocks := Release(blocks, i);
    }

    method Clear(b: int, ghost i: nat)
      requires Tiles(blocks, lo, hi) && Linked(mem, blocks) && 0 < lo
      requires i < |blocks| && blocks[i].addr == b && blocks[i].used && HeaderAt(mem, blocks, i)
      modifies `mem
      ensures Linked(mem, Release(blocks, i)) && OnlyHeaders(old(mem), mem, blocks)
    {
      ghost var mem0, freed := mem, blocks[i := blocks[i].(used := false)];
      UnmarkLive(blocks, lo, hi, i);
      MarkLinked(mem, blocks, lo, hi, i, false);
      MarkOnlyHeaders(mem, blocks, i, FREE_MAGIC);
      mem := mem[b := FREE_MAGIC];
      ghost var mem1 := mem;
      PrevFreeIff(mem, freed, lo, hi, i);
      if mem[b + 12] != 0 && mem[mem[b + 12]] == FREE_MAGIC {
        Merge(mem[b + 12], freed, i - 1);
      } else {
        Merge(b, freed, i);
      }
      OnlyHeadersTrans(mem0, mem1, mem, blocks, freed);
    }

    lemma NotLive(p: int)
      requires Valid()
      requires p == 0 || Locate(blocks, p) == |blocks| || !blocks[Locate(blocks, p)].used
      ensures p !in View()
    {
      if heap != 0 && p in Live(blocks) {
        LiveMember(blocks, lo, hi, p);
        var k :| 0 <= k < |blocks| && blocks[k].used && blocks[k].Payload() == p;
        TilesBounds(blocks, lo, hi, k);
        PayloadUnique(blocks, lo, hi, k, Locate(blocks, p));
      }
    }

    // A client's load and store of one word of its payload
    method Load(p: int, k: nat) returns (v: int)
      requires Valid() && p in View() && k < |View()[p]|
      ensures v == View()[p][k]
    {
      WordInMemory(mem, blocks, lo, hi, p, k);
      v := mem[p + 4 * k];
    }

    method Store(p: int, k: nat, v: int)
      requires Valid() && p in View() && k < |View()[p]|
      modifies `mem
      ensures Valid()
      ensures View() == old(View())[p := old(View())[p][k := v]]
    {
      LiveInside(blocks, lo, hi, p);
      StoreLinked(mem, blocks, lo, hi, p, p + 4 * k, v);
      StoreContents(mem, blocks, lo, hi, p, k, v);
      mem := mem[p + 4 * k := v];
    }

    // memcpy between two payloads, word by word
    method Copy(d: int, s: int, n: nat)
      requires Valid() && d in View() && s in View() && d != s
      requires n <= |View()[s]| && n <= |View()[d]|
      modifies `mem
      ensures Valid()
      ensures View() == old(View())[d := old(View())[s][..n] + old(View())[d][n..]]
    {
      ghost var view := View();
      var k := 0;
      CopiedNone(view[s], view[d]);
      while k < n
        invariant 0 <= k <= n && Valid()
        invariant View() == view[d := Copied(view[s], view[d], k)]
      {
        var v := Load(s, k);
        Store(d, k, v);
        CopiedMore(view[s], view[d], k);
        k := k + 1;
      }
    }

    // krealloc keeps the contents, moving them only when the block is too small.
    method Krealloc(p: int, sz: int) returns (n: int)
      requires Valid() && 0 <= sz <= WORD - 8
      requires p == 0 || p in View()
      modifies this
      ensures Valid() && heap == old(heap) && lo == old(lo) && hi == old(hi)
      ensures p == 0 ==> Allocation(blocks, n) == Allocate(old(blocks), sz) && View() - {n} == old(View())
      ensures p != 0 && sz <= 4 * |old(View())[p]| ==> n == p && blocks == old(blocks) && View() == old(View())
      ensures p != 0 && sz > 4 * |old(View())[p]| ==> Moved(old(blocks), old(View()), p, sz, n)
    {
      if p == 0 {
        NotLive(0);
        n := Kmalloc(sz);
        return;
      }
      ghost var i := SizeStored(p);
      if sz <= mem[p - HEADER + 4] { return p; }
      n := Grow(p, sz);
    }

    // The state after p had to grow to sz bytes and n was returned
    ghost predicate Moved(bs: seq<Block>, view: map<int, seq<int>>, p: int, sz: int, n: int)
      requires 0 <= sz < WORD && p in view
      reads this
    {
      && n == Allocate(bs, sz).ptr
      && (n == 0 ==> blocks == bs && View() == view)
      && (n != 0 ==>
        && blocks == Free(Allocate(bs, sz).blocks, p)
        && n !in view && n in View() && sz <= 4 * |View()[n]|
        && view[p] <= View()[n]
        && View() - {n} == view - {p})
    }

    method Grow(p: int, sz: int) returns (n: int)
      requires Valid() && p in View() && 4 * |View()[p]| < sz <= WORD - 8
      modifies this
      ensures Valid() && heap == old(heap) && lo == old(lo) && hi == old(hi)
      ensures Moved(old(blocks), old(View()), p, sz, n)
    {
      ghost var view := View();
      ghost var i := SizeStored(p);
      RoundFacts(sz);
      n := Kmalloc(sz);
      if n == 0 { return; }
      assert p in View() - {n};
      assert View()[p] == view[p];
      i := SizeStored(n);
      Renew(p, n);
    }

    // The second half of krealloc: move the bytes, give the old block back.
    method Renew(p: int, n: int)
      requires Valid()
      requires p in View() && n in View() && p != n && |View()[p]| <= |View()[n]|
      modifies this
      ensures Valid() && heap == old(heap) && lo == old(lo) && hi == old(hi)
      ensures blocks == Free(old(blocks), p)
      ensures View() == old(View())[n := old(View())[p] + old(View())[n][|old(View())[p]|..]] - {p}
    {
      ghost var i := SizeStored(p);
      ghost var src := View()[p];
      assert src[..|src|] == src;
      Copy(n, p, mem[p - HEADER + 4] / 4);
      i := SizeStored(p);
      Kfree(p);
    }

    // The header in front of a live pointer
    lemma SizeStored(p: int) returns (i: nat)
      requires Valid() && p in View()
      ensures heap != 0 && p != 0 && i == Locate(blocks, p) < |blocks| && HeaderAt(mem, blocks, i)
      ensures p - HEADER == blocks[i].addr && blocks[i].used && p - HEADER + 4 in mem
      ensures mem[p - HEADER + 4] == Live(blocks)[p] == 4 * |View()[p]|
    {
      StoredSize(mem, blocks, lo, hi, p);
      i := Locate(blocks, p);
    }

    // A well-nested client, run against the real heap
    method RunNested(run: Run)
      requires Valid() && heap != 0 && Requests(run) && Coalesced(blocks)
      modifies this
      ensures Valid() && blocks == old(blocks) && View() == old(View())
      ensures heap == old(heap) && lo == old(lo) && hi == old(hi)
      decreases run
    {
      if run.Use? {
        ghost var bs := blocks;
        RoundFacts(run.sz);
        PlaceCoalesced(bs, Round(run.sz));
        var p := Kmalloc(run.sz);
        RunNested(run.inner);
        if p != 0 { GiveBack(p, run.sz, bs); }
        RunNested(run.rest);
      }
    }

    // kfree of the block that a kmalloc took from the list bs
    method GiveBack(p: int, ghost sz: int, ghost bs: seq<Block>)
      requires Valid() && p in View() && 0 <= sz < WORD && Tiles(bs, lo, hi) && Coalesced(bs)
      requires p != 0 && Allocation(blocks, p) == Allocate(bs, sz)
      modifies this
      ensures Valid() && heap == old(heap) && lo == old(lo) && hi == old(hi)
      ensures blocks == bs && View() == old(View()) - {p}
    {
      RoundFacts(sz);
      ReleaseUndoesPlace(bs, lo, hi, Round(sz));
      ghost var i := SizeStored(p);
      Kfree(p);
    }
  }
}
