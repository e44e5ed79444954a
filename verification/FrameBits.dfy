/**
 Single bits of a 32-bit word, as the macros SET, CLR and TST use them (kernel/pmm.c:6-8).
 */
module FrameBits {

  const FULL: bv32 := 0xFFFF_FFFF

  // A shift amount as a word
  function Amount(k: nat): bv32 {
    if k == 0 then 0 else Amount(k - 1) + 1
  }

  predicate Tst(w: bv32, s: bv32)
    requires s < 32
  {
    w & ((1 as bv32) << s) != 0
  }

  function Set(w: bv32, s: bv32): bv32
    requires s < 32
  {
    w | ((1 as bv32) << s)
  }

  function Clr(w: bv32, s: bv32): bv32
    requires s < 32
  {
    w & !((1 as bv32) << s)
  }

  lemma SetOther(w: bv32, s: bv32, t: bv32)
    requires s < 32 && t < 32 && s != t
    ensures Set(w, s) & ((1 as bv32) << t) == w & ((1 as bv32) << t)
  {
  }

  lemma ClrOther(w: bv32, s: bv32, t: bv32)
    requires s < 32 && t < 32 && s != t
    ensures Clr(w, s) & ((1 as bv32) << t) == w & ((1 as bv32) << t)
  {
  }

  lemma SetSame(w: bv32, s: bv32)
    requires s < 32
    ensures Tst(Set(w, s), s)
  {
  }

  lemma ClrSame(w: bv32, s: bv32)
    requires s < 32
    ensures !Tst(Clr(w, s), s)
  {
  }

  lemma SetTst(w: bv32, s: bv32, t: bv32)
    requires s < 32 && t < 32 && s != t
    ensures Tst(Set(w, s), t) == Tst(w, t)
  {
    SetOther(w, s, t);
  }

  lemma ClrTst(w: bv32, s: bv32, t: bv32)
    requires s < 32 && t < 32 && s != t
    ensures Tst(Clr(w, s), t) == Tst(w, t)
  {
    ClrOther(w, s, t);
  }

  lemma FullTst(s: bv32)
    requires s < 32
    ensures Tst(FULL, s)
  {
  }

  lemma AllTst(w: bv32)
    requires Tst(w, 0) && Tst(w, 1) && Tst(w, 2) && Tst(w, 3) && Tst(w, 4) && Tst(w, 5) && Tst(w, 6)
    requires Tst(w, 7) && Tst(w, 8) && Tst(w, 9) && Tst(w, 10) && Tst(w, 11) && Tst(w, 12) && Tst(w, 13)
    requires Tst(w, 14) && Tst(w, 15) && Tst(w, 16) && Tst(w, 17) && Tst(w, 18) && Tst(w, 19) && Tst(w, 20)
    requires Tst(w, 21) && Tst(w, 22) && Tst(w, 23) && Tst(w, 24) && Tst(w, 25) && Tst(w, 26) && Tst(w, 27)
    requires Tst(w, 28) && Tst(w, 29) && Tst(w, 30) && Tst(w, 31)
    ensures w == FULL
  {
  }

  lemma AmountTable()
    ensures Amount(0) == 0 && Amount(1) == 1 && Amount(2) == 2 && Amount(3) == 3 && Amount(4) == 4
    ensures Amount(5) == 5 && Amount(6) == 6 && Amount(7) == 7 && Amount(8) == 8 && Amount(9) == 9
    ensures Amount(10) == 10 && Amount(11) == 11 && Amount(12) == 12 && Amount(13) == 13 && Amount(14) == 14
    ensures Amount(15) == 15 && Amount(16) == 16 && Amount(17) == 17 && Amount(18) == 18 && Amount(19) == 19
    ensures Amount(20) == 20 && Amount(21) == 21 && Amount(22) == 22 && Amount(23) == 23 && Amount(24) == 24
    ensures Amount(25) == 25 && Amount(26) == 26 && Amount(27) == 27 && Amount(28) == 28 && Amount(29) == 29
    ensures Amount(30) == 30 && Amount(31) == 31
  {
    assert Amount(0) == 0;
    assert Amount(1) == 1;
    assert Amount(2) == 2;
    assert Amount(3) == 3;
    assert Amount(4) == 4;
    assert Amount(5) == 5;
    assert Amount(6) == 6;
    assert Amount(7) == 7;
    assert Amount(8) == 8;
    assert Amount(9) == 9;
    assert Amount(10) == 10;
    assert Amount(11) == 11;
    assert Amount(12) == 12;
    assert Amount(13) == 13;
    assert Amount(14) == 14;
    assert Amount(15) == 15;
    assert Amount(16) == 16;
    assert Amount(17) == 17;
    assert Amount(18) == 18;
    assert Amount(19) == 19;
    assert Amount(20) == 20;
    assert Amount(21) == 21;
    assert Amount(22) == 22;
    assert Amount(23) == 23;
    assert Amount(24) == 24;
    assert Amount(25) == 25;
    assert Amount(26) == 26;
    assert Amount(27) == 27;
    assert Amount(28) == 28;
    assert Amount(29) == 29;
    assert Amount(30) == 30;
    assert Amount(31) == 31;
  }

  lemma AmountSmall(k: nat)
    requires k < 32
    ensures Amount(k) < 32 && (k > 0 ==> Amount(k) != 0)
  {
    AmountTable();
    assert k == 0 || k == 1 || k == 2 || k == 3 || k == 4 || k == 5 || k == 6 || k == 7 ||
           k == 8 || k == 9 || k == 10 || k == 11 || k == 12 || k == 13 || k == 14 || k == 15 ||
           k == 16 || k == 17 || k == 18 || k == 19 || k == 20 || k == 21 || k == 22 || k == 23 ||
           k == 24 || k == 25 || k == 26 || k == 27 || k == 28 || k == 29 || k == 30 || k == 31;
  }

  lemma {:induction false} AmountDistinct(j: nat, k: nat)
    requires j < k < 32
    ensures Amount(j) != Amount(k)
  {
    if j > 0 {
      AmountDistinct(j - 1, k - 1);
    } else {
      AmountSmall(k);
    }
  }

  // Bit k of a word, for an int k
  predicate Bit(w: bv32, k: nat)
    requires k < 32
  {
    AmountSmall(k);
    Tst(w, Amount(k))
  }

  lemma OtherAmounts(k: nat, j: nat)
    requires k < 32 && j < 32 && j != k
    ensures Amount(k) < 32 && Amount(j) < 32 && Amount(k) != Amount(j)
  {
    AmountSmall(k);
    AmountSmall(j);
    if j < k { AmountDistinct(j, k); } else { AmountDistinct(k, j); }
  }

  /** Setting bit k changes bit k and no other; so does clearing it. */
  lemma SetBit(w: bv32, k: nat, j: nat)
    requires k < 32 && j < 32
    ensures Amount(k) < 32
    ensures Bit(Set(w, Amount(k)), j) == (j == k || Bit(w, j))
  {
    if j == k {
      AmountSmall(k);
      SetSame(w, Amount(k));
    } else {
      OtherAmounts(k, j);
      SetTst(w, Amount(k), Amount(j));
    }
  }

  lemma ClrBit(w: bv32, k: nat, j: nat)
    requires k < 32 && j < 32
    ensures Amount(k) < 32
    ensures Bit(Clr(w, Amount(k)), j) == (j != k && Bit(w, j))
  {
    if j == k {
      AmountSmall(k);
      ClrSame(w, Amount(k));
    } else {
      OtherAmounts(k, j);
      ClrTst(w, Amount(k), Amount(j));
    }
  }

  lemma AllBits(w: bv32)
    requires forall k :: 0 <= k < 32 ==> Bit(w, k)
    ensures w == FULL
  {
    AmountTable();
    assert Bit(w, 0) && Bit(w, 1) && Bit(w, 2) && Bit(w, 3) && Bit(w, 4) && Bit(w, 5) && Bit(w, 6) && Bit(w, 7);
    assert Bit(w, 8) && Bit(w, 9) && Bit(w, 10) && Bit(w, 11) && Bit(w, 12) && Bit(w, 13) && Bit(w, 14) && Bit(w, 15);
    assert Bit(w, 16) && Bit(w, 17) && Bit(w, 18) && Bit(w, 19) && Bit(w, 20) && Bit(w, 21) && Bit(w, 22) && Bit(w, 23);
    assert Bit(w, 24) && Bit(w, 25) && Bit(w, 26) && Bit(w, 27) && Bit(w, 28) && Bit(w, 29) && Bit(w, 30) && Bit(w, 31);
    AllTst(w);
  }

  /** The word test of pmm_alloc is exact: a word is skipped when, and only when, it has no free
      frame. */
  lemma FullWord(w: bv32)
    ensures w == FULL <==> forall k :: 0 <= k < 32 ==> Bit(w, k)
  {
    if forall k :: 0 <= k < 32 ==> Bit(w, k) {
      AllBits(w);
    }
    if w == FULL {
      forall k | 0 <= k < 32 ensures Bit(w, k) {
        AmountSmall(k);
        FullTst(Amount(k));
      }
    }
  }
}
