/**
 The physical frame allocator (kernel/pmm.c): a bit per 4 KB frame, set while the frame is in use,
 in 32-bit words that are changed in place. The bitmap stands for the set of free frames.
 */
module FrameAllocator {
  import opened Word32
  import opened FrameBits

  const MAX_FRAMES: int := 262144
  const WORDS: int := 8192
  const FRAME: int := 4096

  predicate Taken(words: seq<bv32>, f: int)
    requires |words| == WORDS && 0 <= f < MAX_FRAMES
  {
    Bit(words[f / 32], f % 32)
  }

  function FreeBelow(words: seq<bv32>, n: int): set<int>
    requires |words| == WORDS && 0 <= n <= MAX_FRAMES
  {
    set f | 0 <= f < n && !Taken(words, f)
  }

  function CountTaken(words: seq<bv32>, n: int): nat
    requires |words| == WORDS && 0 <= n <= MAX_FRAMES
    decreases n
  {
    if n == 0 then 0 else CountTaken(words, n - 1) + if Taken(words, n - 1) then 1 else 0
  }

  // First free frame below n, n if there is none
  function LowestFree(words: seq<bv32>, from: int, n: int): (f: int)
    requires |words| == WORDS && 0 <= from <= n <= MAX_FRAMES
    ensures from <= f <= n && (f < n ==> !Taken(words, f))
    ensures forall g :: from <= g < f ==> Taken(words, g)
    decreases n - from
  {
    if from == n || !Taken(words, from) then from else LowestFree(words, from + 1, n)
  }

  // The frames of the byte range [a, a + s), below total
  function Frames(a: int, s: int, total: int): set<int> {
    set f | a / FRAME <= f < total && Covers(a, s, f)
  }

  predicate Covers(a: int, s: int, f: int) { a / FRAME <= f < a / FRAME + Pages(s) }

  // (s + FRAME - 1) / FRAME in 32-bit arithmetic
  function Pages(s: int): int { (s + FRAME - 1) % WORD / FRAME }

  /** A range of s bytes at a takes the frames, below total, that hold a byte of it, counted from the
      start of its first frame; and none at all when s is so large that its rounding wraps. */
  lemma FramesAre(a: int, s: int, total: int, f: int)
    requires 0 <= a < WORD && 0 <= s < WORD
    ensures s <= 0x1_0000_0000 - 4096 ==>
      (f in Frames(a, s, total) <==>
        0 <= f < total && exists x :: a / 4096 * 4096 <= x < a / 4096 * 4096 + s && x / 4096 == f)
    ensures s > 0x1_0000_0000 - 4096 ==> Frames(a, s, total) == {}
  {
    var first := a / 4096;
    if s <= 0x1_0000_0000 - 4096 {
      PagesUp(s);
      if first <= f < first + Pages(s) {
        assert first * 4096 <= f * 4096 < first * 4096 + s && f * 4096 / 4096 == f;
      }
    } else {
      PagesWrap(s);
    }
  }

  lemma PagesUp(s: int)
    requires 0 <= s <= WORD - 4096
    ensures 4096 * (Pages(s) - 1) < s <= 4096 * Pages(s)
  {
    assert (s + 4095) % WORD == s + 4095;
  }

  lemma PagesWrap(s: int)
    requires WORD - 4096 < s < WORD
    ensures Pages(s) == 0
  {
    assert (s + 4095) % WORD == s + 4095 - WORD;
  }

  // Bitmaps that agree except that frame f is taken or not
  ghost predicate Changed(w: seq<bv32>, w': seq<bv32>, f: int, taken: bool) {
    && |w| == |w'| == WORDS
    && forall g :: 0 <= g < MAX_FRAMES ==> Taken(w', g) == if g == f then taken else Taken(w, g)
  }

  lemma {:induction false} CountChanged(w: seq<bv32>, w': seq<bv32>, f: int, taken: bool, n: int)
    requires Changed(w, w', f, taken) && 0 <= n <= MAX_FRAMES && 0 <= f < MAX_FRAMES
    ensures CountTaken(w', n) == CountTaken(w, n) +
            if f >= n then 0 else (if taken then 1 else 0) - (if Taken(w, f) then 1 else 0)
    decreases n
  {
    if n > 0 {
      CountChanged(w, w', f, taken, n - 1);
    }
  }

  lemma FreeChanged(w: seq<bv32>, w': seq<bv32>, f: int, taken: bool, n: int)
    requires Changed(w, w', f, taken) && 0 <= f < n <= MAX_FRAMES
    ensures FreeBelow(w', n) == if taken then FreeBelow(w, n) - {f} else FreeBelow(w, n) + {f}
  {
  }

  /** The counter and the free set together make up all frames. */
  lemma {:induction false} CountFree(w: seq<bv32>, n: int)
    requires |w| == WORDS && 0 <= n <= MAX_FRAMES
    ensures CountTaken(w, n) + |FreeBelow(w, n)| == n
    decreases n
  {
    if n > 0 {
      CountFree(w, n - 1);
      if Taken(w, n - 1) {
        assert FreeBelow(w, n) == FreeBelow(w, n - 1);
      } else {
        assert FreeBelow(w, n) == FreeBelow(w, n - 1) + {n - 1};
      }
    }
  }

  lemma SetChanged(w: seq<bv32>, f: int)
    requires |w| == WORDS && 0 <= f < MAX_FRAMES
    ensures Amount(f % 32) < 32
    ensures Changed(w, w[f / 32 := Set(w[f / 32], Amount(f % 32))], f, true)
  {
    AmountSmall(f % 32);
    var w' := w[f / 32 := Set(w[f / 32], Amount(f % 32))];
    forall g | 0 <= g < MAX_FRAMES ensures Taken(w', g) == (g == f || Taken(w, g)) {
      if g / 32 == f / 32 {
        SetBit(w[f / 32], f % 32, g % 32);
      }
    }
  }

  lemma ClrChanged(w: seq<bv32>, f: int)
    requires |w| == WORDS && 0 <= f < MAX_FRAMES
    ensures Amount(f % 32) < 32
    ensures Changed(w, w[f / 32 := Clr(w[f / 32], Amount(f % 32))], f, false)
  {
    AmountSmall(f % 32);
    var w' := w[f / 32 := Clr(w[f / 32], Amount(f % 32))];
    forall g | 0 <= g < MAX_FRAMES ensures Taken(w', g) == (g != f && Taken(w, g)) {
      if g / 32 == f / 32 {
        ClrBit(w[f / 32], f % 32, g % 32);
      }
    }
  }

  // ----- The journal of a run -----

  // What happens to one frame: pmm_alloc hands it out, pmm_free and pmm_mark_free give it back,
  // pmm_mark_used takes it.
  datatype Event = Granted(f: int) | Returned(f: int) | Reserved(f: int)

  // The free frames after these events, none being free at the start
  ghost function FreeAfter(es: seq<Event>): set<int> {
    if |es| == 0 then {}
    else
      var free := FreeAfter(es[..|es| - 1]);
      match es[|es| - 1]
      case Returned(f) => free + {f}
      case Granted(f) => free - {f}
      case Reserved(f) => free - {f}
  }

  lemma FreeAfterMore(es: seq<Event>, e: Event)
    ensures FreeAfter(es + [e]) == if e.Returned? then FreeAfter(es) + {e.f} else FreeAfter(es) - {e.f}
  {
    assert (es + [e])[..|es|] == es;
  }

  // A frame is handed out or reserved only while it is free.
  ghost predicate Regular(es: seq<Event>) {
    forall k :: 0 <= k < |es| && !es[k].Returned? ==> es[k].f in FreeAfter(es[..k])
  }

  lemma RegularMore(es: seq<Event>, e: Event)
    requires Regular(es) && (!e.Returned? ==> e.f in FreeAfter(es))
    ensures Regular(es + [e])
  {
    forall k | 0 <= k < |es + [e]| ensures (es + [e])[..k] == es[..k] {
    }
  }

  // A frame that was taken and is free again was given back.
  lemma {:induction false} GivenBack(es: seq<Event>, f: int, i: nat, j: nat)
    requires i <= j <= |es| && f !in FreeAfter(es[..i]) && f in FreeAfter(es[..j])
    ensures exists k :: i <= k < j && es[k] == Returned(f)
    decreases j
  {
    assert i < j;
    assert es[..j][..j - 1] == es[..j - 1];
    if f in FreeAfter(es[..j - 1]) {
      GivenBack(es, f, i, j - 1);
    } else {
      assert es[j - 1] == Returned(f);
    }
  }

  /** A frame is not handed out twice without being given back in between. */
  lemma GrantedOnce(es: seq<Event>, f: int, i: nat, j: nat)
    requires Regular(es) && i < j < |es| && es[i] == Granted(f) == es[j]
    ensures exists k :: i < k < j && es[k] == Returned(f)
  {
    assert es[..i + 1] == es[..i] + [es[i]];
    FreeAfterMore(es[..i], es[i]);
    GivenBack(es, f, i + 1, j);
  }

  class Pmm {
    const bmap: array<bv32>
    var total: int
    var used: int
    ghost var journal: seq<Event>

    ghost predicate Valid()
      reads this, bmap
    {
      && bmap.Length == WORDS && 0 <= total <= MAX_FRAMES
      && used == CountTaken(bmap[..], total)
      && Regular(journal) && FreeAfter(journal) == FreeBelow(bmap[..], total)
    }

    // The free frames, as the kernel counts them
    ghost function Free(): set<int>
      requires Valid()
      reads this, bmap
    {
      FreeBelow(bmap[..], total)
    }

    constructor ()
      ensures Valid() && total == 0 && fresh(bmap) && journal == []
    {
      bmap := new bv32[WORDS](_ => 0);
      total, used, journal := 0, 0, [];
    }

    method Init(kb: int)
      requires Valid() && 0 <= kb < WORD
      modifies this, bmap
      ensures Valid() && Free() == {} && used == total && journal == []
      ensures total == if (1024 + kb) % 0x1_0000_0000 / 4 > 262144 then 262144 else (1024 + kb) % 0x1_0000_0000 / 4
    {
      total := (1024 + kb) % WORD / 4;
      if total > MAX_FRAMES { total := MAX_FRAMES; }
      forall i | 0 <= i < WORDS { bmap[i] := FULL; }
      used := total;
      journal := [];
      AllTaken(bmap[..]);
      CountFree(bmap[..], total);
    }

    // The three macros
    method Test(f: int) returns (t: bool)
      requires bmap.Length == WORDS && 0 <= f < MAX_FRAMES
      ensures t == Taken(bmap[..], f)
    {
      AmountSmall(f % 32);
      t := Tst(bmap[f / 32], Amount(f % 32));
    }

    method SetFrame(f: int)
      requires bmap.Length == WORDS && 0 <= f < MAX_FRAMES
      modifies bmap
      ensures Changed(old(bmap[..]), bmap[..], f, true)
    {
      SetChanged(bmap[..], f);
      ghost var w := bmap[..];
      bmap[f / 32] := Set(bmap[f / 32], Amount(f % 32));
      assert bmap[..] == w[f / 32 := Set(w[f / 32], Amount(f % 32))];
    }

    method ClrFrame(f: int)
      requires bmap.Length == WORDS && 0 <= f < MAX_FRAMES
      modifies bmap
      ensures Changed(old(bmap[..]), bmap[..], f, false)
    {
      ClrChanged(bmap[..], f);
      ghost var w := bmap[..];
      bmap[f / 32] := Clr(bmap[f / 32], Amount(f % 32));
      assert bmap[..] == w[f / 32 := Clr(w[f / 32], Amount(f % 32))];
    }

    // used-- for a frame that is given back
    method Return(f: int)
      requires Valid() && 0 <= f < total && Taken(bmap[..], f)
      modifies `used, `journal, bmap
      ensures Valid() && Changed(old(bmap[..]), bmap[..], f, false) && Free() == old(Free()) + {f}
      ensures journal == old(journal) + [Returned(f)]
    {
      ghost var w := bmap[..];
      ClrFrame(f);
      CountChanged(w, bmap[..], f, false, total);
      FreeChanged(w, bmap[..], f, false, total);
      used := used - 1;
      RegularMore(journal, Returned(f));
      FreeAfterMore(journal, Returned(f));
      journal := journal + [Returned(f)];
    }

    // used++ for a frame that is handed out or reserved
    method Take(f: int, ghost e: Event)
      requires Valid() && 0 <= f < total && !Taken(bmap[..], f) && (e == Granted(f) || e == Reserved(f))
      modifies `used, `journal, bmap
      ensures Valid() && Changed(old(bmap[..]), bmap[..], f, true)
      ensures f in old(Free()) && Free() == old(Free()) - {f}
      ensures journal == old(journal) + [e]
    {
      ghost var w := bmap[..];
      SetFrame(f);
      CountChanged(w, bmap[..], f, true, total);
      FreeChanged(w, bmap[..], f, true, total);
      used := used + 1;
      RegularMore(journal, e);
      FreeAfterMore(journal, e);
      journal := journal + [e];
    }

    // if(TST(f)){CLR(f);used--;}
    method ReturnOne(f: int)
      requires Valid() && 0 <= f < total
      modifies `used, `journal, bmap
      ensures Valid() && Changed(old(bmap[..]), bmap[..], f, false) && Free() == old(Free()) + {f}
      ensures journal == old(journal) + if f in old(Free()) then [] else [Returned(f)]
    {
      var t := Test(f);
      if t { Return(f); }
    }

    // if(!TST(f)){SET(f);used++;}
    method ReserveOne(f: int)
      requires Valid() && 0 <= f < total
      modifies `used, `journal, bmap
      ensures Valid() && Changed(old(bmap[..]), bmap[..], f, true)
      ensures journal == old(journal) + if f in old(Free()) then [Reserved(f)] else []
    {
      var t := Test(f);
      if !t { Take(f, Reserved(f)); }
    }

    method MarkFree(a: int, s: int)
      requires Valid() && 0 <= a < WORD && 0 <= s < WORD
      modifies `used, `journal, bmap
      ensures Valid() && Free() == old(Free()) + Frames(a, s, total)
      ensures old(journal) <= journal && forall k :: |old(journal)| <= k < |journal| ==> journal[k].Returned?
    {
      var f, c := a / FRAME, (s + FRAME - 1) % WORD / FRAME;
      ghost var w0 := bmap[..];
      var i := 0;
      while i < c && f + i < total
        invariant 0 <= i && (i <= c || i == 0) && (f + i <= total || i == 0) && Valid()
        invariant forall g :: 0 <= g < MAX_FRAMES ==> Taken(bmap[..], g) == (Taken(w0, g) && !(f <= g < f + i))
        invariant old(journal) <= journal && forall k :: |old(journal)| <= k < |journal| ==> journal[k].Returned?
      {
        ReturnOne(f + i);
        i := i + 1;
      }
      RangeFreed(w0, bmap[..], a, s, total, i);
    }

    method MarkUsed(a: int, s: int)
      requires Valid() && 0 <= a < WORD && 0 <= s < WORD
      modifies `used, `journal, bmap
      ensures Valid() && Free() == old(Free()) - Frames(a, s, total)
      ensures old(journal) <= journal && forall k :: |old(journal)| <= k < |journal| ==> journal[k].Reserved?
    {
      var f, c := a / FRAME, (s + FRAME - 1) % WORD / FRAME;
      ghost var w0 := bmap[..];
      var i := 0;
      while i < c && f + i < total
        invariant 0 <= i && (i <= c || i == 0) && (f + i <= total || i == 0) && Valid()
        invariant forall g :: 0 <= g < MAX_FRAMES ==> Taken(bmap[..], g) == (Taken(w0, g) || f <= g < f + i)
        invariant old(journal) <= journal && forall k :: |old(journal)| <= k < |journal| ==> journal[k].Reserved?
      {
        ReserveOne(f + i);
        i := i + 1;
      }
      RangeTaken(w0, bmap[..], a, s, total, i);
    }

    // The lowest free frame below the last full word of the bitmap; 0 when there is none
    method Alloc() returns (addr: int)
      requires Valid()
      modifies `used, `journal, bmap
      ensures Valid()
      ensures var n := 32 * (total / 32);
        var f := LowestFree(old(bmap[..]), 0, n);
        if f < n then
          addr == f * FRAME && f in old(Free()) && Free() == old(Free()) - {f} && journal == old(journal) + [Granted(f)]
        else addr == 0 && Free() == old(Free()) && journal == old(journal)
    {
      ghost var w := bmap[..];
      var i := 0;
      while i < total / 32
        invariant 0 <= i <= total / 32 && bmap[..] == w && used == old(used) && journal == old(journal)
        invariant forall g :: 0 <= g < 32 * i ==> Taken(w, g)
      {
        if bmap[i] == FULL {
          FullTaken(w, i);
          i := i + 1;
          continue;
        }
        var b := 0;
        while b < 32
          invariant 0 <= b <= 32 && bmap[..] == w && used == old(used) && journal == old(journal)
          invariant forall g :: 0 <= g < 32 * i + b ==> Taken(w, g)
        {
          var f := i * 32 + b;
          var t := Test(f);
          if !t {
            assert LowestFree(w, 0, 32 * (total / 32)) == f;
            Take(f, Granted(f));
            return f * FRAME;
          }
          b := b + 1;
        }
        i := i + 1;
      }
      assert LowestFree(w, 0, 32 * (total / 32)) == 32 * (total / 32);
      return 0;
    }

    // pmm_free has no range check: the frame must be one the allocator manages.
    method FreeFrame(a: int)
      requires Valid() && 0 <= a && a / FRAME < total
      modifies `used, `journal, bmap
      ensures Valid() && Free() == old(Free()) + {a / FRAME}
      ensures journal == old(journal) + if a / FRAME in old(Free()) then [] else [Returned(a / FRAME)]
    {
      ReturnOne(a / FRAME);
    }

    /** In every run of the allocator since pmm_init, a frame is not handed out twice without being
        given back in between. */
    lemma NeverTwice(f: int, i: nat, j: nat)
      requires Valid() && i < j < |journal| && journal[i] == Granted(f) == journal[j]
      ensures exists k :: i < k < j && journal[k] == Returned(f)
    {
      GrantedOnce(journal, f, i, j);
    }

    method FreeKb() returns (kb: int)
      requires Valid()
      ensures kb == 4 * |Free()|
    {
      CountFree(bmap[..], total);
      kb := (total - used) * 4;
    }
  }

  lemma AllTaken(w: seq<bv32>)
    requires |w| == WORDS && forall i :: 0 <= i < WORDS ==> w[i] == FULL
    ensures forall f :: 0 <= f < MAX_FRAMES ==> Taken(w, f)
    ensures forall n :: 0 <= n <= MAX_FRAMES ==> FreeBelow(w, n) == {}
  {
    forall f | 0 <= f < MAX_FRAMES ensures Taken(w, f) {
      FullWord(w[f / 32]);
    }
  }

  lemma FullTaken(w: seq<bv32>, i: int)
    requires |w| == WORDS && 0 <= i < WORDS && w[i] == FULL
    ensures forall g :: 32 * i <= g < 32 * i + 32 ==> Taken(w, g)
  {
    FullWord(w[i]);
    forall g | 32 * i <= g < 32 * i + 32 ensures Taken(w, g) {
      assert g / 32 == i;
    }
  }

  lemma RangeFreed(w0: seq<bv32>, w: seq<bv32>, a: int, s: int, total: int, i: int)
    requires |w0| == |w| == WORDS && 0 <= total <= MAX_FRAMES && 0 <= a && 0 <= s < WORD
    requires 0 <= i && (i <= Pages(s) || i == 0) && (i >= Pages(s) || a / FRAME + i >= total)
    requires i == 0 || a / FRAME + i <= total
    requires forall g :: 0 <= g < MAX_FRAMES ==> Taken(w, g) == (Taken(w0, g) && !(a / FRAME <= g < a / FRAME + i))
    ensures FreeBelow(w, total) == FreeBelow(w0, total) + Frames(a, s, total)
  {
  }

  lemma RangeTaken(w0: seq<bv32>, w: seq<bv32>, a: int, s: int, total: int, i: int)
    requires |w0| == |w| == WORDS && 0 <= total <= MAX_FRAMES && 0 <= a && 0 <= s < WORD
    requires 0 <= i && (i <= Pages(s) || i == 0) && (i >= Pages(s) || a / FRAME + i >= total)
    requires i == 0 || a / FRAME + i <= total
    requires forall g :: 0 <= g < MAX_FRAMES ==> Taken(w, g) == (Taken(w0, g) || a / FRAME <= g < a / FRAME + i)
    ensures FreeBelow(w, total) == FreeBelow(w0, total) - Frames(a, s, total)
  {
  }

  /** With frame 0 in use, as `kernel.c` leaves it, a zero address means that no frame is free. */
  lemma ZeroMeansNone(w: seq<bv32>, total: int)
    requires |w| == WORDS && 0 <= total <= MAX_FRAMES && (total > 0 ==> Taken(w, 0))
    ensures var n := 32 * (total / 32);
      var f := LowestFree(w, 0, n);
      (if f < n then f * FRAME else 0) == 0 <==> FreeBelow(w, n) == {}
  {
    var n := 32 * (total / 32);
    var f := LowestFree(w, 0, n);
    if f < n {
      assert f in FreeBelow(w, n);
    }
  }
}
