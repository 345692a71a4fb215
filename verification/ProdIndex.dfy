/** Product indexes: 64-bit unsigned integers in circular order. */
module ProdIndexes {
  const MODULUS: nat := 0x1_0000_0000_0000_0000

  type ProdIndex = x: nat | x < 0x1_0000_0000_0000_0000

  /** `prodIndexMax/2` */
  const HALF: nat := 0x7FFF_FFFF_FFFF_FFFF

  /** Unsigned subtraction. */
  function Minus(a: ProdIndex, b: ProdIndex): ProdIndex {
    (a - b) % MODULUS
  }

  function Next(a: ProdIndex): ProdIndex {
    (a + 1) % MODULUS
  }

  predicate Less(a: ProdIndex, b: ProdIndex) {
    Minus(b, a) < HALF && b != a
  }

  predicate LessOrEqual(a: ProdIndex, b: ProdIndex) {
    Minus(b, a) < HALF
  }

  predicate Greater(a: ProdIndex, b: ProdIndex) {
    Minus(a, b) < HALF && b != a
  }

  predicate GreaterOrEqual(a: ProdIndex, b: ProdIndex) {
    Minus(a, b) < HALF
  }

  predicate IsEarlierThan(a: ProdIndex, b: ProdIndex) {
    Minus(b, a) <= HALF
  }

  /** The position of an index in a window that starts at `base`. */
  function Offset(base: ProdIndex, a: ProdIndex): ProdIndex {
    Minus(a, base)
  }

  lemma MinusCases(a: ProdIndex, b: ProdIndex)
    ensures Minus(a, b) == if b <= a then a - b else a - b + MODULUS
  {
  }

  lemma OffsetsDetermine(base: ProdIndex, a: ProdIndex, b: ProdIndex)
    ensures Offset(base, a) == Offset(base, b) <==> a == b
    ensures Minus(b, a) == if Offset(base, a) <= Offset(base, b) then Offset(base, b) - Offset(base, a)
                           else Offset(base, b) - Offset(base, a) + MODULUS
  {
    MinusCases(a, base);
    MinusCases(b, base);
    MinusCases(b, a);
  }

  /**
   * An index and the one that's `k` further on, around the circle. The earlier one is less exactly if
   * they differ by less than 2^63-1.
   */
  lemma FurtherOn(a: ProdIndex, k: nat)
    requires k < 0x1_0000_0000_0000_0000
    ensures var b := (a + k) % 0x1_0000_0000_0000_0000;
            && Minus(b, a) == k
            && (Less(a, b) <==> 0 < k < 0x7FFF_FFFF_FFFF_FFFF)
            && (Less(b, a) <==> k > 0x8000_0000_0000_0001)
            && (IsEarlierThan(a, b) <==> k <= 0x7FFF_FFFF_FFFF_FFFF)
            && (k == 1 ==> Next(a) == b)
  {
    MinusCases((a + k) % MODULUS, a);
    MinusCases(a, (a + k) % MODULUS);
  }

  /**
   * For arbitrary indexes, `<`, `==` and `>` exclude one another, and none of the three holds
   * exactly at the three modular distances around the middle of the circle.
   */
  lemma AtMostOneOrder(a: ProdIndex, b: ProdIndex)
    ensures !(Less(a, b) && Greater(a, b)) && !(Less(a, b) && a == b) && !(Greater(a, b) && a == b)
    ensures (!Less(a, b) && a != b && !Greater(a, b)) <==>
              Minus(b, a) in {HALF, HALF + 1, HALF + 2}
    ensures Less(a, b) <==> Greater(b, a)
    ensures LessOrEqual(a, b) <==> Less(a, b) || a == b
    ensures GreaterOrEqual(a, b) <==> Greater(a, b) || a == b
  {
    MinusCases(a, b);
    MinusCases(b, a);
  }

  /**
   * Seen from any base, an index that is further on is `Greater` exactly if the distance is less
   * than half the circle: that's the widest window in which `<` is the order of offsets.
   */
  lemma OrderIsOffsetOrder(base: ProdIndex, a: ProdIndex, b: ProdIndex)
    requires Offset(base, a) < Offset(base, b)
    ensures Less(a, b) <==> Offset(base, b) - Offset(base, a) < HALF
    ensures Less(b, a) <==> Offset(base, b) - Offset(base, a) > HALF + 2
    ensures IsEarlierThan(a, b) <==> Offset(base, b) - Offset(base, a) <= HALF
    ensures IsEarlierThan(b, a) <==> Offset(base, b) - Offset(base, a) > HALF + 1
  {
    OffsetsDetermine(base, a, b);
    OffsetsDetermine(base, b, a);
  }

  /** All indexes are in one window of fewer than 2^63 - 1 positions. */
  ghost predicate InWindow(base: ProdIndex, s: set<ProdIndex>) {
    forall a :: a in s ==> Offset(base, a) < HALF
  }

  /** Within a window, `<` is a strict total order and agrees with the order of offsets. */
  lemma StrictTotalOrderInWindow(base: ProdIndex, s: set<ProdIndex>)
    requires InWindow(base, s)
    ensures forall a, b :: a in s && b in s ==> (Less(a, b) <==> Offset(base, a) < Offset(base, b))
    ensures forall a :: a in s ==> !Less(a, a)
    ensures forall a, b :: a in s && b in s ==> Less(a, b) || a == b || Less(b, a)
    ensures forall a, b, c :: a in s && b in s && c in s && Less(a, b) && Less(b, c) ==> Less(a, c)
  {
    forall a, b | a in s && b in s
      ensures Less(a, b) <==> Offset(base, a) < Offset(base, b)
      ensures Offset(base, a) == Offset(base, b) <==> a == b
    {
      OffsetsDetermine(base, a, b);
      if Offset(base, a) < Offset(base, b) {
        OrderIsOffsetOrder(base, a, b);
      } else if Offset(base, b) < Offset(base, a) {
        OrderIsOffsetOrder(base, b, a);
      }
    }
  }

  /** The order doesn't notice the wrap-around: moving both indexes on changes nothing. */
  lemma OrderIsStableUnderShift(a: ProdIndex, b: ProdIndex, k: nat)
    ensures var a', b' := (a + k) % MODULUS, (b + k) % MODULUS;
            && Minus(b', a') == Minus(b, a)
            && (Less(a', b') <==> Less(a, b)) && (IsEarlierThan(a', b') <==> IsEarlierThan(a, b))
  {
    var a', b' := (a + k) % MODULUS, (b + k) % MODULUS;
    var i, j := (a + k) / MODULUS, (b + k) / MODULUS;
    assert b' - a' == b - a + (i - j) * MODULUS;
    MinusCases(b', a');
    MinusCases(b, a);
    assert a' == b' <==> a == b by {
      if a' == b' {
        assert b - a == (j - i) * MODULUS;
      }
    }
  }
}
