/** The unsigned long words of a bitmap, one bit at a time. */
module Words {

  const BITS_PER_LONG: nat := 64

  const ONES: bv64 := 0xffff_ffff_ffff_ffff

  type Map = seq<bv64>

  /** BIT_MASK of a bit number within its word: 1 shifted left k times. */
  function Mask(k: nat): bv64
    requires k < BITS_PER_LONG
  {
    if k == 0 then 1 else Mask(k - 1) << 1
  }

  /** Some bit of m is set in w. */
  predicate Test(w: bv64, m: bv64) {
    w & m != 0
  }

  predicate Bit(w: bv64, k: nat)
    requires k < BITS_PER_LONG
  {
    Test(w, Mask(k))
  }

  // ---------------------------------------------------------------------
  // One word.
  // ---------------------------------------------------------------------

  /** Exactly one bit. */
  predicate Single(m: bv64) {
    m != 0 && m & (m - 1) == 0
  }

  /** The k low bits. */
  function Low(k: nat): bv64
    requires k <= BITS_PER_LONG
  {
    if k == 0 then 0 else Low(k - 1) | Mask(k - 1)
  }

  lemma LadderStep(l: bv64, m: bv64)
    requires m == l + 1 && l & m == 0
    ensures (l | m) + 1 == m << 1 && (l | m) & (m << 1) == 0 && l | m == (l << 1) | 1
  {
  }

  /** A mask is one above the bits below it. */
  lemma {:induction false} Ladder(k: nat)
    requires k < BITS_PER_LONG
    ensures Mask(k) == Low(k) + 1 && Low(k) & Mask(k) == 0
    ensures Low(k + 1) == (Low(k) << 1) | 1
  {
    if k > 0 {
      Ladder(k - 1);
      LadderStep(Low(k - 1), Mask(k - 1));
    }
    LadderStep(Low(k), Mask(k));
  }

  lemma FourSteps(l: bv64)
    ensures (((((((l << 1) | 1) << 1) | 1) << 1) | 1) << 1) | 1 == (l << 4) | 0xf
  {
  }

  lemma LowFour(k: nat)
    requires k + 4 <= BITS_PER_LONG
    ensures Low(k + 4) == (Low(k) << 4) | 0xf
  {
    Ladder(k);
    Ladder(k + 1);
    Ladder(k + 2);
    Ladder(k + 3);
    FourSteps(Low(k));
  }

  lemma LowTops()
    ensures Low(63) == 0x7fff_ffff_ffff_ffff && Low(64) == ONES
  {
    LowFour(0);
    LowFour(4);
    LowFour(8);
    LowFour(12);
    LowFour(16);
    LowFour(20);
    LowFour(24);
    LowFour(28);
    LowFour(32);
    LowFour(36);
    LowFour(40);
    LowFour(44);
    LowFour(48);
    LowFour(52);
    LowFour(56);
    LowFour(60);
    Ladder(60);
    Ladder(61);
    Ladder(62);
  }

  /** Low never fills up before the last bit. */
  lemma {:induction false} LowHasRoom(k: nat)
    requires k < BITS_PER_LONG
    ensures Low(k) != ONES
    decreases BITS_PER_LONG - k
  {
    if k == 63 {
      LowTops();
    } else {
      LowHasRoom(k + 1);
      OrOnes(Low(k), Mask(k));
    }
  }

  lemma OrOnes(w: bv64, x: bv64)
    ensures w == ONES ==> w | x == ONES
  {
  }

  lemma PlusOne(l: bv64)
    requires l != ONES && l & (l + 1) == 0
    ensures Single(l + 1)
  {
  }

  lemma MaskIsSingle(k: nat)
    requires k < BITS_PER_LONG
    ensures Single(Mask(k))
  {
    Ladder(k);
    LowHasRoom(k);
    PlusOne(Low(k));
  }

  lemma {:induction false} LowerMaskInLow(i: nat, j: nat)
    requires i < j < BITS_PER_LONG
    ensures Mask(i) & !Low(j) == 0
  {
    if i < j - 1 {
      LowerMaskInLow(i, j - 1);
    }
    Outside(Mask(i), Low(j - 1), Mask(j - 1));
  }

  lemma Outside(w: bv64, x: bv64, y: bv64)
    ensures w & !x == 0 ==> w & !(x | y) == 0
    ensures w & !(x | w) == 0
  {
  }

  lemma Apart(w: bv64, l: bv64, m: bv64)
    requires w & !l == 0 && l & m == 0
    ensures !Test(w, m) && !Test(m, w)
  {
  }

  lemma MasksAreDisjoint(i: nat, j: nat)
    requires i < j < BITS_PER_LONG
    ensures !Test(Mask(i), Mask(j)) && !Test(Mask(j), Mask(i))
  {
    LowerMaskInLow(i, j);
    Ladder(j);
    Apart(Mask(i), Low(j), Mask(j));
  }

  lemma TestNot(w: bv64, m: bv64)
    requires Single(m)
    ensures Test(!w, m) <==> !Test(w, m)
  {
  }

  lemma TestAnd(w: bv64, x: bv64, m: bv64)
    requires Single(m)
    ensures Test(w & x, m) <==> Test(w, m) && Test(x, m)
  {
  }

  lemma TestXor(w: bv64, x: bv64, m: bv64)
    requires Single(m) && (Test(w, m) <==> Test(x, m))
    ensures !Test(w ^ x, m)
  {
  }

  lemma MaskElsewhere(i: nat, k: nat)
    requires i < BITS_PER_LONG && k < BITS_PER_LONG && i != k
    ensures !Bit(Mask(i), k)
  {
    if i < k {
      MasksAreDisjoint(i, k);
    } else {
      MasksAreDisjoint(k, i);
    }
  }

  lemma NotAt(w: bv64, k: nat)
    requires k < BITS_PER_LONG
    ensures Bit(!w, k) <==> !Bit(w, k)
  {
    MaskIsSingle(k);
    TestNot(w, Mask(k));
  }

  lemma AndAt(w: bv64, x: bv64, k: nat)
    requires k < BITS_PER_LONG
    ensures Bit(w & x, k) <==> Bit(w, k) && Bit(x, k)
  {
    MaskIsSingle(k);
    TestAnd(w, x, Mask(k));
  }

  lemma TestSetKeeps(w: bv64, m: bv64, n: bv64)
    requires Test(w, n)
    ensures Test(w | m, n)
  {
  }

  lemma TestSetOther(w: bv64, m: bv64, n: bv64)
    requires !Test(m, n) && !Test(w, n)
    ensures !Test(w | m, n)
  {
  }

  lemma TestSetSelf(w: bv64, m: bv64)
    requires Single(m)
    ensures Test(w | m, m)
  {
  }

  lemma SetSelf(w: bv64, k: nat)
    requires k < BITS_PER_LONG
    ensures Bit(w | Mask(k), k)
  {
    MaskIsSingle(k);
    TestSetSelf(w, Mask(k));
  }

  lemma SetKeeps(w: bv64, i: nat, k: nat)
    requires i < BITS_PER_LONG && k < BITS_PER_LONG && Bit(w, k)
    ensures Bit(w | Mask(i), k)
  {
    TestSetKeeps(w, Mask(i), Mask(k));
  }

  lemma OrNeither(w: bv64, x: bv64, k: nat)
    requires k < BITS_PER_LONG && !Bit(w, k) && !Bit(x, k)
    ensures !Bit(w | x, k)
  {
    TestSetOther(w, x, Mask(k));
  }

  lemma SetOther(w: bv64, i: nat, k: nat)
    requires i < BITS_PER_LONG && k < BITS_PER_LONG && i != k && !Bit(w, k)
    ensures !Bit(w | Mask(i), k)
  {
    MaskElsewhere(i, k);
    OrNeither(w, Mask(i), k);
  }

  /** Setting bit i changes bit i only. */
  lemma SetAt(w: bv64, i: nat, k: nat)
    requires i < BITS_PER_LONG && k < BITS_PER_LONG
    ensures Bit(w | Mask(i), k) <==> Bit(w, k) || i == k
  {
    if i == k {
      SetSelf(w, k);
    } else if Bit(w, k) {
      SetKeeps(w, i, k);
    } else {
      SetOther(w, i, k);
    }
  }

  /** Where two words agree their difference is clear. */
  lemma XorAt(w: bv64, x: bv64, k: nat)
    requires k < BITS_PER_LONG && (Bit(w, k) <==> Bit(x, k))
    ensures !Bit(w ^ x, k)
  {
    MaskIsSingle(k);
    TestXor(w, x, Mask(k));
  }

  lemma OrIsClear(w: bv64, x: bv64, y: bv64)
    requires w & x == 0 && w & y == 0
    ensures w & (x | y) == 0
  {
  }

  lemma {:induction false} LowIsClear(w: bv64, k: nat)
    requires k <= BITS_PER_LONG
    requires forall j :: 0 <= j < k ==> !Bit(w, j)
    ensures w & Low(k) == 0
  {
    if k > 0 {
      LowIsClear(w, k - 1);
      assert !Bit(w, k - 1);
      OrIsClear(w, Low(k - 1), Mask(k - 1));
    }
  }

  /** A word that is not zero has a bit. */
  lemma NonZeroHasBit(w: bv64)
    requires w != 0
    ensures exists k :: 0 <= k < BITS_PER_LONG && Bit(w, k)
  {
    if forall k :: 0 <= k < BITS_PER_LONG ==> !Bit(w, k) {
      LowIsClear(w, BITS_PER_LONG);
      LowTops();
    }
  }

  lemma ZeroHasNoBit(k: nat)
    requires k < BITS_PER_LONG
    ensures !Bit(0, k)
  {
  }

  /** A word whose complement is not zero misses a bit. */
  lemma NotOnesMissesBit(w: bv64)
    requires !w != 0
    ensures exists k :: 0 <= k < BITS_PER_LONG && !Bit(w, k)
  {
    NonZeroHasBit(!w);
    var k :| 0 <= k < BITS_PER_LONG && Bit(!w, k);
    NotAt(w, k);
  }

  lemma OnesHaveEveryBit(w: bv64, k: nat)
    requires !w == 0 && k < BITS_PER_LONG
    ensures Bit(w, k)
  {
    NotAt(w, k);
    ZeroHasNoBit(k);
  }

  /** Words with the same bits are the same word. */
  lemma SameBitsSameWord(w: bv64, x: bv64)
    requires forall k :: 0 <= k < BITS_PER_LONG ==> (Bit(w, k) <==> Bit(x, k))
    ensures w == x
  {
    if w ^ x != 0 {
      NonZeroHasBit(w ^ x);
      var k :| 0 <= k < BITS_PER_LONG && Bit(w ^ x, k);
      XorAt(w, x, k);
    }
    XorIsZero(w, x);
  }

  lemma XorIsZero(w: bv64, x: bv64)
    ensures w ^ x == 0 ==> w == x
  {
  }

  lemma TestSetBy(w: bv64, m: bv64, n: bv64)
    requires Test(m, n)
    ensures Test(w | m, n)
  {
  }

  lemma OrAt(w: bv64, x: bv64, k: nat)
    requires k < BITS_PER_LONG
    ensures Bit(w | x, k) <==> Bit(w, k) || Bit(x, k)
  {
    if Bit(w, k) {
      TestSetKeeps(w, x, Mask(k));
    } else if Bit(x, k) {
      TestSetBy(w, x, Mask(k));
    } else {
      TestSetOther(w, x, Mask(k));
    }
  }

  lemma TestCleared(w: bv64, m: bv64, n: bv64)
    requires Single(n) && Test(m, n)
    ensures !Test(w & !m, n)
  {
  }

  lemma TestNotThere(w: bv64, m: bv64, n: bv64)
    requires !Test(w, n)
    ensures !Test(w & !m, n)
  {
  }

  lemma TestNotCleared(w: bv64, m: bv64, n: bv64)
    requires Single(n) && Test(w, n) && !Test(m, n)
    ensures Test(w & !m, n)
  {
  }

  lemma AndNotAt(w: bv64, x: bv64, k: nat)
    requires k < BITS_PER_LONG
    ensures Bit(w & !x, k) <==> Bit(w, k) && !Bit(x, k)
  {
    MaskIsSingle(k);
    if !Bit(w, k) {
      TestNotThere(w, x, Mask(k));
    } else if Bit(x, k) {
      TestCleared(w, x, Mask(k));
    } else {
      TestNotCleared(w, x, Mask(k));
    }
  }
}
