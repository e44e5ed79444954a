/**
 The kernel heap seen as a sequence of blocks (kernel/heap.c).

 A block is a 16-byte header followed by its payload. The C code keeps the headers in memory,
 linked in address order; here the same list is a sequence, and first fit, splitting and the
 one-sided coalescing of `kfree` are functions on it. `Heap.dfy` ties the words in memory to
 these functions.
 */
module HeapModel {
  import opened Word32

  const HEADER: int := 16        // sizeof(blk_t) on i386: four words
  const MIN_SPLIT: int := 32
  const USED_MAGIC: int := 0xC0FFEE00
  const FREE_MAGIC: int := 0xDEADBEEF

  datatype Block = Block(addr: int, size: nat, used: bool)
  {
    function Payload(): int { addr + HEADER }
    function End(): int { addr + HEADER + size }
  }

  datatype Allocation = Allocation(blocks: seq<Block>, ptr: int)

  // ----- The operations -----

  // (sz + 7) & ~7 in 32-bit arithmetic
  function Round(sz: int): nat
    requires 0 <= sz < WORD
  {
    (sz + 7) % WORD / 8 * 8
  }

  predicate Fits(b: Block, size: nat) { !b.used && b.size >= size }

  // Index of the first block that fits, |bs| if there is none
  function FirstFit(bs: seq<Block>, size: nat): (i: nat)
    ensures i <= |bs|
    ensures i < |bs| ==> Fits(bs[i], size)
    ensures forall k :: 0 <= k < i ==> !Fits(bs[k], size)
  {
    if |bs| == 0 then 0
    else if Fits(bs[0], size) then 0
    else
      var i := FirstFit(bs[1..], size);
      assert forall k :: 1 <= k < i + 1 ==> bs[k] == bs[1..][k - 1];
      i + 1
  }

  predicate Splits(b: Block, size: nat) { b.size >= size + HEADER + MIN_SPLIT }

  // What the chosen block becomes
  function Carve(b: Block, size: nat): seq<Block> {
    if Splits(b, size) then
      [Block(b.addr, size, true), Block(b.addr + HEADER + size, b.size - size - HEADER, false)]
    else
      [b.(used := true)]
  }

  // First fit for an already rounded size
  function Place(bs: seq<Block>, size: nat): Allocation {
    var i := FirstFit(bs, size);
    if i == |bs| then Allocation(bs, 0)
    else Allocation(bs[..i] + Carve(bs[i], size) + bs[i + 1..], bs[i].Payload())
  }

  function Allocate(bs: seq<Block>, sz: int): Allocation
    requires 0 <= sz < WORD
  {
    if sz == 0 then Allocation(bs, 0) else Place(bs, Round(sz))
  }

  // merge(b): absorb the next block when it is free
  function Absorb(bs: seq<Block>, i: nat): seq<Block>
    requires i < |bs|
  {
    if i + 1 < |bs| && !bs[i + 1].used then
      bs[..i] + [bs[i].(size := bs[i].size + HEADER + bs[i + 1].size)] + bs[i + 2..]
    else bs
  }

  function Release(bs: seq<Block>, i: nat): seq<Block>
    requires i < |bs|
  {
    var freed := bs[i := bs[i].(used := false)];
    if i > 0 && !bs[i - 1].used then Absorb(freed, i - 1) else Absorb(freed, i)
  }

  // Position of the block with the given payload address, |bs| if there is none
  function Locate(bs: seq<Block>, p: int): (i: nat)
    ensures i <= |bs|
    ensures i < |bs| ==> bs[i].Payload() == p
    ensures i == |bs| ==> forall k :: 0 <= k < |bs| ==> bs[k].Payload() != p
  {
    if |bs| == 0 then 0
    else if bs[0].Payload() == p then 0
    else
      var i := Locate(bs[1..], p);
      assert forall k :: 1 <= k < |bs| ==> bs[k] == bs[1..][k - 1];
      i + 1
  }

  // kfree(p): nothing happens for NULL and for a block that is not USED
  function Free(bs: seq<Block>, p: int): seq<Block> {
    var i := Locate(bs, p);
    if p == 0 || i == |bs| || !bs[i].used then bs else Release(bs, i)
  }

  // ----- Tiling: the blocks cover [lo, hi) with no gap and no overlap -----

  ghost predicate Tiles(bs: seq<Block>, lo: int, hi: int) {
    && |bs| > 0
    && bs[0].addr == lo
    && bs[|bs| - 1].End() == hi
    && (forall i :: 0 <= i < |bs| ==> bs[i].size % 8 == 0)
    && (forall i, j :: 0 <= i < j < |bs| && j == i + 1 ==> bs[j].addr == bs[i].End())
  }

  lemma {:induction false} TilesOrdered(bs: seq<Block>, lo: int, hi: int, i: nat, j: nat)
    requires Tiles(bs, lo, hi)
    requires i < j < |bs|
    ensures bs[i].End() <= bs[j].addr
    decreases j
  {
    if i + 1 < j {
      TilesOrdered(bs, lo, hi, i, j - 1);
    }
    assert bs[j].addr == bs[j - 1].End();
  }

  lemma TilesBounds(bs: seq<Block>, lo: int, hi: int, i: nat)
    requires Tiles(bs, lo, hi)
    requires i < |bs|
    ensures lo <= bs[i].addr && bs[i].End() <= hi
    ensures lo % 8 == 0 ==> bs[i].addr % 8 == 0
    decreases i
  {
    if i > 0 {
      TilesBounds(bs, lo, hi, i - 1);
      assert bs[i].addr == bs[i - 1].End();
    }
    if i < |bs| - 1 {
      TilesOrdered(bs, lo, hi, i, |bs| - 1);
    }
  }

  // Replacing some blocks by others that cover the same stretch keeps the tiling.
  lemma TilesSplice(bs: seq<Block>, lo: int, hi: int, i: nat, j: nat, mid: seq<Block>)
    requires Tiles(bs, lo, hi)
    requires i < j <= |bs|
    requires Tiles(mid, bs[i].addr, bs[j - 1].End())
    ensures Tiles(bs[..i] + mid + bs[j..], lo, hi)
  {
    var r := bs[..i] + mid + bs[j..];
    var m := |mid|;
    assert forall k :: 0 <= k < i ==> r[k] == bs[k];
    assert forall k :: i <= k < i + m ==> r[k] == mid[k - i];
    assert forall k :: i + m <= k < |r| ==> r[k] == bs[k - i - m + j];
    forall k | 0 < k < |r|
      ensures r[k].addr == r[k - 1].End()
    {
      if k == i + m {
        assert r[k - 1] == mid[m - 1];
      } else if k > i + m {
        assert r[k - 1] == bs[k - 1 - i - m + j];
      } else if k > i {
        assert r[k - 1] == mid[k - 1 - i];
      }
    }
    if j == |bs| {
      assert r[|r| - 1] == mid[m - 1];
    }
  }

  lemma CarveTiles(b: Block, size: nat)
    requires b.size % 8 == 0 && size % 8 == 0 && size <= b.size
    ensures Tiles(Carve(b, size), b.addr, b.End())
  {
    assert b.size - size - HEADER == 8 * (b.size / 8 - size / 8 - 2);
  }

  lemma PlacedAt(bs: seq<Block>, size: nat, i: nat)
    requires i == FirstFit(bs, size) < |bs|
    ensures Place(bs, size) == Allocation(Place(bs, size).blocks, bs[i].addr + HEADER)
  {
  }

  /** What kmalloc takes: the first free block of at least the rounded size, and all of it unless 48
      bytes are left over; then a free block of its own remains behind the payload. */
  lemma AllocateExact(bs: seq<Block>, sz: int, i: nat)
    requires 0 < sz <= 0x1_0000_0000 - 8 && i < |bs|
    requires var need := (sz + 7) / 8 * 8;
      !bs[i].used && bs[i].size >= need && forall k :: 0 <= k < i ==> bs[k].used || bs[k].size < need
    ensures var need, b, r := (sz + 7) / 8 * 8, bs[i], Allocate(bs, sz);
      && r.ptr == b.addr + 16
      && r.blocks == bs[..i] +
        (if b.size >= need + 48 then [Block(b.addr, need, true), Block(b.addr + 16 + need, b.size - need - 16, false)]
         else [b.(used := true)]) + bs[i + 1..]
  {
    RoundFacts(sz);
    FirstIs(bs, Round(sz), i);
  }

  lemma FirstIs(bs: seq<Block>, size: nat, i: nat)
    requires i < |bs| && Fits(bs[i], size) && forall k :: 0 <= k < i ==> !Fits(bs[k], size)
    ensures FirstFit(bs, size) == i
  {
  }

  lemma PlaceTiles(bs: seq<Block>, lo: int, hi: int, size: nat)
    requires Tiles(bs, lo, hi)
    requires size % 8 == 0
    ensures Tiles(Place(bs, size).blocks, lo, hi)
  {
    var i := FirstFit(bs, size);
    if i < |bs| {
      CarveTiles(bs[i], size);
      TilesSplice(bs, lo, hi, i, i + 1, Carve(bs[i], size));
    }
  }

  lemma JoinedTiles(b: Block, next: Block)
    requires b.size % 8 == 0 && next.size % 8 == 0 && next.addr == b.End()
    ensures Tiles([b.(size := b.size + HEADER + next.size)], b.addr, next.End())
  {
    Multiples(b.size, next.size);
  }

  lemma Multiples(a: nat, b: nat)
    requires a % 8 == 0 && b % 8 == 0
    ensures (a + HEADER + b) % 8 == 0
  {
    assert a + HEADER + b == 8 * (a / 8 + 2 + b / 8);
  }

  lemma AbsorbTiles(bs: seq<Block>, lo: int, hi: int, i: nat)
    requires Tiles(bs, lo, hi)
    requires i < |bs|
    ensures Tiles(Absorb(bs, i), lo, hi)
  {
    if i + 1 < |bs| && !bs[i + 1].used {
      JoinedTiles(bs[i], bs[i + 1]);
      TilesSplice(bs, lo, hi, i, i + 2, [bs[i].(size := bs[i].size + HEADER + bs[i + 1].size)]);
    }
  }

  lemma ReleaseTiles(bs: seq<Block>, lo: int, hi: int, i: nat)
    requires Tiles(bs, lo, hi)
    requires i < |bs|
    ensures Tiles(Release(bs, i), lo, hi)
  {
    var freed := bs[i := bs[i].(used := false)];
    UnmarkTiles(bs, lo, hi, i);
    AbsorbTiles(freed, lo, hi, i);
    if i > 0 {
      AbsorbTiles(freed, lo, hi, i - 1);
    }
  }

  // ----- Live payloads: pointer -> size of every USED block, and their total -----

  function UsedBytes(bs: seq<Block>): nat {
    if |bs| == 0 then 0 else UsedBytes(bs[1..]) + if bs[0].used then bs[0].size else 0
  }

  function Live(bs: seq<Block>): map<int, nat> {
    if |bs| == 0 then map[]
    else if bs[0].used then Live(bs[1..])[bs[0].Payload() := bs[0].size]
    else Live(bs[1..])
  }

  // The block of a live pointer
  lemma LiveLocated(bs: seq<Block>, lo: int, hi: int, p: int)
    requires Tiles(bs, lo, hi) && p in Live(bs)
    ensures var i := Locate(bs, p);
      i < |bs| && bs[i].used && bs[i].addr == p - HEADER && Live(bs)[p] == bs[i].size
  {
    LiveMember(bs, lo, hi, p);
    var k :| 0 <= k < |bs| && bs[k].used && bs[k].Payload() == p;
    PayloadUnique(bs, lo, hi, k, Locate(bs, p));
  }

  lemma {:induction false} LiveMember(bs: seq<Block>, lo: int, hi: int, p: int)
    requires Tiles(bs, lo, hi)
    ensures p in Live(bs) <==> exists k :: 0 <= k < |bs| && bs[k].used && bs[k].Payload() == p
    ensures forall k :: 0 <= k < |bs| && bs[k].used && bs[k].Payload() == p ==>
                        p in Live(bs) && Live(bs)[p] == bs[k].size
  {
    var rest := bs[1..];
    assert forall k :: 0 <= k < |rest| ==> rest[k] == bs[k + 1];
    if |rest| > 0 {
      assert Tiles(rest, rest[0].addr, hi);
      LiveMember(rest, rest[0].addr, hi, p);
      if bs[0].Payload() == p {
        forall k | 0 < k < |bs| ensures bs[k].Payload() != p {
          TilesOrdered(bs, lo, hi, 0, k);
        }
      }
      if exists k :: 0 <= k < |bs| && bs[k].used && bs[k].Payload() == p {
        var k :| 0 <= k < |bs| && bs[k].used && bs[k].Payload() == p;
        if k > 0 { assert rest[k - 1].used && rest[k - 1].Payload() == p; }
      }
    } else {
      assert Live(rest) == map[];
    }
  }

  lemma {:induction false} LiveConcat(a: seq<Block>, b: seq<Block>)
    ensures Live(a + b) == Live(b) + Live(a)
    ensures UsedBytes(a + b) == UsedBytes(a) + UsedBytes(b)
  {
    if |a| == 0 {
      assert a + b == b;
    } else {
      assert (a + b)[1..] == a[1..] + b;
      LiveConcat(a[1..], b);
    }
  }

  // No two blocks share a payload address.
  lemma PayloadUnique(bs: seq<Block>, lo: int, hi: int, i: nat, j: nat)
    requires Tiles(bs, lo, hi)
    requires i < |bs| && j < |bs| && bs[i].Payload() == bs[j].Payload()
    ensures i == j
  {
    if i < j {
      TilesOrdered(bs, lo, hi, i, j);
    } else if j < i {
      TilesOrdered(bs, lo, hi, j, i);
    }
  }

  lemma LiveSplice(pre: seq<Block>, mid: seq<Block>, post: seq<Block>)
    ensures Live(pre + mid + post) == Live(post) + Live(mid) + Live(pre)
    ensures UsedBytes(pre + mid + post) == UsedBytes(pre) + UsedBytes(mid) + UsedBytes(post)
  {
    LiveConcat(pre + mid, post);
    LiveConcat(pre, mid);
  }

  lemma RoundFacts(sz: int)
    requires 0 <= sz < WORD
    ensures Round(sz) % 8 == 0 && 0 <= Round(sz) < WORD
    ensures sz <= Round(sz) <==> sz <= WORD - 8
    ensures sz > WORD - 8 ==> Round(sz) == 0
    ensures sz <= WORD - 8 ==> Round(sz) < sz + 8
  {
  }

  // The size a chosen block ends up with
  function Granted(b: Block, size: nat): nat {
    if Splits(b, size) then size else b.size
  }

  lemma LiveOne(b: Block)
    ensures Live([b]) == if b.used then map[b.Payload() := b.size] else map[]
    ensures UsedBytes([b]) == if b.used then b.size else 0
  {
    assert [b][1..] == [];
  }

  lemma LivePair(b: Block, c: Block)
    requires !c.used
    ensures Live([b, c]) == Live([b])
    ensures UsedBytes([b, c]) == UsedBytes([b])
  {
    LiveOne(b);
    LiveOne(c);
    assert [b, c][1..] == [c];
  }

  lemma LiveCarve(b: Block, size: nat)
    ensures Live(Carve(b, size)) == map[b.Payload() := Granted(b, size)]
    ensures UsedBytes(Carve(b, size)) == Granted(b, size)
  {
    if Splits(b, size) {
      LiveOne(Block(b.addr, size, true));
      LivePair(Block(b.addr, size, true), Block(b.addr + HEADER + size, b.size - size - HEADER, false));
    } else {
      LiveOne(b.(used := true));
    }
  }

  lemma FreeNotLive(bs: seq<Block>, lo: int, hi: int, i: nat)
    requires Tiles(bs, lo, hi)
    requires i < |bs| && !bs[i].used
    ensures bs[i].Payload() !in Live(bs)
  {
    LiveMember(bs, lo, hi, bs[i].Payload());
    forall k | 0 <= k < |bs| && bs[k].Payload() == bs[i].Payload() ensures k == i {
      PayloadUnique(bs, lo, hi, i, k);
    }
  }

  lemma SplitAt(bs: seq<Block>, i: nat)
    requires i < |bs|
    ensures bs == bs[..i] + [bs[i]] + bs[i + 1..]
  {
  }

  // Exchanging a stretch without live payloads for one with a single new payload
  lemma LiveGains(pre: seq<Block>, old_: seq<Block>, mid: seq<Block>, post: seq<Block>, p: int, size: nat)
    requires Live(old_) == map[] && UsedBytes(old_) == 0
    requires Live(mid) == map[p := size] && UsedBytes(mid) == size
    requires p !in Live(pre + old_ + post)
    ensures Live(pre + mid + post) == Live(pre + old_ + post)[p := size]
    ensures UsedBytes(pre + mid + post) == UsedBytes(pre + old_ + post) + size
  {
    LiveSplice(pre, old_, post);
    LiveSplice(pre, mid, post);
  }

  /** A kmalloc that finds a block adds exactly one live payload, which was not live before, and
      leaves every other live payload and its size alone. */
  lemma PlaceLive(bs: seq<Block>, lo: int, hi: int, size: nat)
    requires Tiles(bs, lo, hi)
    requires FirstFit(bs, size) < |bs|
    ensures var b := bs[FirstFit(bs, size)];
      && b.Payload() !in Live(bs)
      && Live(Place(bs, size).blocks) == Live(bs)[b.Payload() := Granted(b, size)]
      && UsedBytes(Place(bs, size).blocks) == UsedBytes(bs) + Granted(b, size)
  {
    var i := FirstFit(bs, size);
    FreeNotLive(bs, lo, hi, i);
    SplitAt(bs, i);
    LiveOne(bs[i]);
    LiveCarve(bs[i], size);
    LiveGains(bs[..i], [bs[i]], Carve(bs[i], size), bs[i + 1..], bs[i].Payload(), Granted(bs[i], size));
  }

  lemma LiveKeeps(pre: seq<Block>, old_: seq<Block>, mid: seq<Block>, post: seq<Block>)
    requires Live(mid) == Live(old_) && UsedBytes(mid) == UsedBytes(old_)
    ensures Live(pre + mid + post) == Live(pre + old_ + post)
    ensures UsedBytes(pre + mid + post) == UsedBytes(pre + old_ + post)
  {
    LiveSplice(pre, old_, post);
    LiveSplice(pre, mid, post);
  }

  lemma AbsorbLive(bs: seq<Block>, i: nat)
    requires i < |bs| && !bs[i].used
    ensures Live(Absorb(bs, i)) == Live(bs)
    ensures UsedBytes(Absorb(bs, i)) == UsedBytes(bs)
  {
    if i + 1 < |bs| && !bs[i + 1].used {
      var pair := [bs[i], bs[i + 1]];
      var merged := bs[i].(size := bs[i].size + HEADER + bs[i + 1].size);
      LivePair(bs[i], bs[i + 1]);
      LiveOne(bs[i]);
      LiveOne(merged);
      LiveKeeps(bs[..i], pair, [merged], bs[i + 2..]);
      assert bs == bs[..i] + pair + bs[i + 2..];
    }
  }

  // Clearing the USED mark of block i
  lemma UnmarkLive(bs: seq<Block>, lo: int, hi: int, i: nat)
    requires Tiles(bs, lo, hi)
    requires i < |bs| && bs[i].used
    ensures var freed := bs[i := bs[i].(used := false)];
      && Tiles(freed, lo, hi)
      && Live(freed) == Live(bs) - {bs[i].Payload()}
      && UsedBytes(freed) == UsedBytes(bs) - bs[i].size
  {
    var freed := bs[i := bs[i].(used := false)];
    assert freed == bs[..i] + [freed[i]] + bs[i + 1..];
    SplitAt(bs, i);
    LiveOne(freed[i]);
    LiveOne(bs[i]);
    LiveSplice(bs[..i], [freed[i]], bs[i + 1..]);
    LiveSplice(bs[..i], [bs[i]], bs[i + 1..]);
    UnmarkTiles(bs, lo, hi, i);
    FreeNotLive(freed, lo, hi, i);
    assert freed[i].Payload() == bs[i].Payload();
    DropKey(Live(bs[..i]), Live(bs[i + 1..]), bs[i].Payload(), bs[i].size);
  }

  lemma UnmarkTiles(bs: seq<Block>, lo: int, hi: int, i: nat)
    requires Tiles(bs, lo, hi) && i < |bs|
    ensures Tiles(bs[i := bs[i].(used := false)], lo, hi)
  {
  }

  lemma DropKey(a: map<int, nat>, b: map<int, nat>, p: int, size: nat)
    requires p !in b + map[] + a
    ensures b + map[] + a == (b + map[p := size] + a) - {p}
  {
  }

  /** kfree of a live block removes exactly that payload. */
  lemma ReleaseLive(bs: seq<Block>, lo: int, hi: int, i: nat)
    requires Tiles(bs, lo, hi)
    requires i < |bs| && bs[i].used
    ensures Live(Release(bs, i)) == Live(bs) - {bs[i].Payload()}
    ensures UsedBytes(Release(bs, i)) == UsedBytes(bs) - bs[i].size
  {
    var freed := bs[i := bs[i].(used := false)];
    UnmarkLive(bs, lo, hi, i);
    AbsorbLive(freed, i);
    if i > 0 && !bs[i - 1].used {
      AbsorbLive(freed, i - 1);
    }
  }

  lemma {:induction false} UsedBounded(bs: seq<Block>, lo: int, hi: int)
    requires Tiles(bs, lo, hi)
    ensures UsedBytes(bs) <= hi - lo
  {
    var rest := bs[1..];
    if |rest| > 0 {
      assert forall k :: 0 <= k < |rest| ==> rest[k] == bs[k + 1];
      assert Tiles(rest, rest[0].addr, hi);
      UsedBounded(rest, rest[0].addr, hi);
    }
  }

  // ----- Coalescing -----

  // No two neighbouring blocks are both free
  predicate Coalesced(bs: seq<Block>) {
    forall i :: 0 < i < |bs| ==> bs[i - 1].used || bs[i].used
  }

  /** kfree merges to one side only: from a coalesced list the result is coalesced exactly when
      the freed block did not have a free block on each side. */
  lemma ReleaseCoalesced(bs: seq<Block>, i: nat)
    requires i < |bs| && bs[i].used && Coalesced(bs)
    ensures Coalesced(Release(bs, i)) <==> !(0 < i < |bs| - 1 && !bs[i - 1].used && !bs[i + 1].used)
  {
    var r := Release(bs, i);
    if i > 0 && !bs[i - 1].used {
      assert r == bs[..i - 1] + [bs[i - 1].(size := bs[i - 1].size + HEADER + bs[i].size)] + bs[i + 1..];
      if i + 1 < |bs| {
        assert !r[i - 1].used && r[i] == bs[i + 1];
      }
    } else if i + 1 < |bs| && !bs[i + 1].used {
      assert r == bs[..i] + [Block(bs[i].addr, bs[i].size + HEADER + bs[i + 1].size, false)] + bs[i + 2..];
    }
  }

  lemma PlaceCoalesced(bs: seq<Block>, size: nat)
    requires Coalesced(bs)
    ensures Coalesced(Place(bs, size).blocks)
  {
    var i := FirstFit(bs, size);
    if i < |bs| {
      var mid := Carve(bs[i], size);
      var r := bs[..i] + mid + bs[i + 1..];
      assert forall k :: 0 <= k < i ==> r[k] == bs[k];
      assert forall k :: i <= k < i + |mid| ==> r[k] == mid[k - i];
      assert forall k :: i + |mid| <= k < |r| ==> r[k] == bs[k - |mid| + 1];
    }
  }

  lemma ReleaseUndoesCarve(bs: seq<Block>, i: nat, size: nat)
    requires i < |bs| && !bs[i].used && Coalesced(bs)
    ensures var r := bs[..i] + Carve(bs[i], size) + bs[i + 1..];
      r[i].addr == bs[i].addr && r[i].used && Release(r, i) == bs
  {
    var r := bs[..i] + Carve(bs[i], size) + bs[i + 1..];
    assert r[i] == Carve(bs[i], size)[0];
    assert i > 0 ==> r[i - 1] == bs[i - 1];
    assert r[..i] == bs[..i];
    SplitAt(bs, i);
    if Splits(bs[i], size) {
      assert r[i + 1] == Carve(bs[i], size)[1];
      assert r[i + 2..] == bs[i + 1..];
    } else {
      assert r == bs[i := bs[i].(used := true)];
    }
  }

  /** kfree undoes the kmalloc that produced the block, block for block. */
  lemma ReleaseUndoesPlace(bs: seq<Block>, lo: int, hi: int, size: nat)
    requires Tiles(bs, lo, hi) && Coalesced(bs)
    requires size % 8 == 0
    requires FirstFit(bs, size) < |bs|
    ensures var r := Place(bs, size);
      Locate(r.blocks, r.ptr) < |r.blocks| && Free(r.blocks, r.ptr) == if r.ptr == 0 then r.blocks else bs
  {
    var i := FirstFit(bs, size);
    var r := Place(bs, size);
    PlaceTiles(bs, lo, hi, size);
    ReleaseUndoesCarve(bs, i, size);
    PayloadUnique(r.blocks, lo, hi, i, Locate(r.blocks, r.ptr));
  }

  /** The block handed out is as large as the request exactly when the rounding does not wrap. */
  lemma GrantCoversRequest(bs: seq<Block>, lo: int, hi: int, sz: int)
    requires Tiles(bs, lo, hi) && 64 <= lo && hi <= WORD
    requires 0 < sz < WORD && FirstFit(bs, Round(sz)) < |bs|
    ensures var r := Allocate(bs, sz);
      r.ptr in Live(r.blocks) && (Live(r.blocks)[r.ptr] >= sz <==> sz <= WORD - 8)
  {
    var i := FirstFit(bs, Round(sz));
    RoundFacts(sz);
    PlaceLive(bs, lo, hi, Round(sz));
    TilesBounds(bs, lo, hi, i);
  }

  // Three 8-byte blocks at the start of a heap, and the free rest
  function ThreeBlocks(a: int, n: nat, first: bool, third: bool): seq<Block>
    requires n >= 256
  {
    [Block(a, 8, first), Block(a + 24, 8, true)] +
    if third then [Block(a + 48, 8, true), Block(a + 72, n - 72, false)] else [Block(a + 48, n - 48, false)]
  }

  lemma ThreeAllocations(a: int, n: nat)
    requires n >= 256
    ensures var b1 := Allocate([Block(a, n, false)], 8);
      var b2 := Allocate(b1.blocks, 8);
      && b1.ptr == a + 16 && b2.ptr == a + 40
      && Allocate(b2.blocks, 8) == Allocation(ThreeBlocks(a, n, true, true), a + 64)
  {
    var w0 := [Block(a, n, false)];
    var w1 := [Block(a, 8, true), Block(a + 24, n - 24, false)];
    var w2 := [Block(a, 8, true), Block(a + 24, 8, true), Block(a + 48, n - 48, false)];
    FirstFitIs(w0, 8, 0);
    assert Allocate(w0, 8) == Allocation(w1, a + 16);
    FirstFitIs(w1, 8, 1);
    assert Allocate(w1, 8) == Allocation(w2, a + 40);
    FirstFitIs(w2, 8, 2);
  }

  lemma ThreeFrees(a: int, n: nat)
    requires 0 < a && n >= 256
    ensures Free(ThreeBlocks(a, n, true, true), a + 16) == ThreeBlocks(a, n, false, true)
    ensures Free(ThreeBlocks(a, n, false, true), a + 64) == ThreeBlocks(a, n, false, false)
    ensures Free(ThreeBlocks(a, n, false, false), a + 40) == [Block(a, 32, false), Block(a + 48, n - 48, false)]
  {
    LocateIs(ThreeBlocks(a, n, true, true), a + 16, 0);
    LocateIs(ThreeBlocks(a, n, false, true), a + 64, 2);
    LocateIs(ThreeBlocks(a, n, false, false), a + 40, 1);
  }

  /** Out of order, kfree can leave two free neighbours: of three fresh blocks, the first, the
      third and then the second are given back. */
  lemma FragmentingRun(a: int, n: nat)
    requires 0 < a && n >= 256
    ensures var b1 := Allocate([Block(a, n, false)], 8);
      var b2 := Allocate(b1.blocks, 8);
      var b3 := Allocate(b2.blocks, 8);
      !Coalesced(Free(Free(Free(b3.blocks, b1.ptr), b3.ptr), b2.ptr))
  {
    ThreeAllocations(a, n);
    ThreeFrees(a, n);
    var end := [Block(a, 32, false), Block(a + 48, n - 48, false)];
    assert !end[0].used && !end[1].used;
  }

  lemma FirstFitIs(bs: seq<Block>, size: nat, i: nat)
    requires i < |bs| && Fits(bs[i], size) && forall k :: 0 <= k < i ==> !Fits(bs[k], size)
    ensures FirstFit(bs, size) == i
  {
  }

  lemma LocateIs(bs: seq<Block>, p: int, i: nat)
    requires i < |bs| && bs[i].Payload() == p
    requires forall k :: 0 <= k < |bs| && bs[k].Payload() == p ==> k == i
    ensures Locate(bs, p) == i
  {
  }

  // ----- Well-nested runs -----

  // A block-structured use of the heap: allocate, run `inner`, free, then go on with `rest`.
  // A kmalloc that returns NULL is followed by kfree(NULL).
  datatype Run = Done | Use(sz: int, inner: Run, rest: Run)

  predicate Requests(run: Run) {
    run.Use? ==> 0 <= run.sz < WORD && Requests(run.inner) && Requests(run.rest)
  }

  function Execute(run: Run, bs: seq<Block>): seq<Block>
    requires Requests(run)
  {
    match run
    case Done => bs
    case Use(sz, inner, rest) =>
      var a := Allocate(bs, sz);
      Execute(rest, Free(Execute(inner, a.blocks), a.ptr))
  }

  /** Every well-nested run, whatever its sizes and depth, gives back exactly the block list it
      started from. */
  lemma {:induction false} NestedRunRestores(run: Run, bs: seq<Block>, lo: int, hi: int)
    requires Requests(run) && 0 < lo && Tiles(bs, lo, hi) && Coalesced(bs)
    ensures Execute(run, bs) == bs
    decreases run
  {
    match run
    case Done =>
    case Use(sz, inner, rest) =>
      var a := Allocate(bs, sz);
      RoundFacts(sz);
      PlaceTiles(bs, lo, hi, Round(sz));
      PlaceCoalesced(bs, Round(sz));
      NestedRunRestores(inner, a.blocks, lo, hi);
      if a.ptr != 0 {
        ReleaseUndoesPlace(bs, lo, hi, Round(sz));
      } else if sz != 0 && FirstFit(bs, Round(sz)) < |bs| {
        TilesBounds(bs, lo, hi, FirstFit(bs, Round(sz)));
      }
      NestedRunRestores(rest, bs, lo, hi);
  }
}
