/** Rounding to the 53 significant bits of a double-precision number, for values
    with a power of two as denominator. The denominator only shifts the exponent,
    so the numerator alone is rounded; exponents are taken to stay in range. */
module Float64 {
  import opened Blocks

  const PRECISION := 53

  /** Cutting off k bits rounds up past the middle, and in the middle if the
      last bit kept is odd. */
  predicate RoundsUp(n: nat, k: nat)
    requires k > 0
  {
    n > Mask(n, k) + Pow2(k - 1) || (n == Mask(n, k) + Pow2(k - 1) && Bit(n, k))
  }

  function Cut(n: nat, k: nat): (r: nat) {
    if k > 0 && RoundsUp(n, k) then Mask(n, k) + Pow2(k) else Mask(n, k)
  }

  function Excess(n: nat): (k: nat) { if BitLen(n) > PRECISION then BitLen(n) - PRECISION else 0 }

  /** The nearest number with at most 53 significant bits; of two equally near
      ones the one whose last bit is even. */
  function Round(n: nat): (r: nat) { Cut(n, Excess(n)) }

  /** Rounding moves a number by at most half a unit in its last place. */
  lemma RoundNear(n: nat, b: nat)
    requires n < Pow2(b)
    ensures b <= PRECISION ==> Round(n) == n
    ensures b > PRECISION ==> n <= Round(n) + Pow2(b - PRECISION - 1) && Round(n) <= n + Pow2(b - PRECISION - 1)
  {
    BitLenAtMost(n, b);
    if BitLen(n) > PRECISION {
      MaskAligned(n, BitLen(n) - PRECISION);
      Pow2Monotone(BitLen(n) - PRECISION - 1, b - PRECISION - 1);
    }
  }

  lemma {:induction false} EvenBlock(n: nat, k: nat)
    ensures !Bit(n, k) ==> Aligned(Mask(n, k), k + 1)
    ensures Bit(n, k) ==> Aligned(Mask(n, k) + Pow2(k), k + 1)
  {
    if k > 0 {
      EvenBlock(n / 2, k - 1);
      assert Mask(n, k) == 2 * Mask(n / 2, k - 1) && Pow2(k) == 2 * Pow2(k - 1);
      if Bit(n, k) {
        AlignedTwice(Mask(n / 2, k - 1) + Pow2(k - 1), Mask(n, k) + Pow2(k), k + 1);
      } else {
        AlignedTwice(Mask(n / 2, k - 1), Mask(n, k), k + 1);
      }
    }
  }

  lemma CutAligned(n: nat, k: nat)
    requires k > 0
    ensures Aligned(Cut(n, k), k) && n <= Cut(n, k) + Pow2(k - 1) && Cut(n, k) <= n + Pow2(k - 1)
    ensures n == Cut(n, k) + Pow2(k - 1) || Cut(n, k) == n + Pow2(k - 1) ==> Aligned(Cut(n, k), k + 1)
  {
    MaskAligned(n, k);
    AlignedStep(Mask(n, k), k);
    EvenBlock(n, k);
    assert Pow2(k) == 2 * Pow2(k - 1);
  }

  /** Round to nearest, ties to even: of a number with more than 53 digits the last
      k are cut off so that the result is a multiple of 2^k at most half of that
      away, and in the middle between two multiples an even one. */
  lemma RoundNearest(n: nat, k: nat)
    requires k > 0 ==> Pow2(k + 52) <= n < Pow2(k + 53)
    requires k == 0 ==> n < Pow2(53)
    ensures k == 0 ==> Round(n) == n
    ensures k > 0 ==> Aligned(Round(n), k) && n <= Round(n) + Pow2(k - 1) && Round(n) <= n + Pow2(k - 1)
    ensures k > 0 && (n == Round(n) + Pow2(k - 1) || Round(n) == n + Pow2(k - 1)) ==> Aligned(Round(n), k + 1)
  {
    if k > 0 {
      BitLenIs(n, k + 53);
      CutAligned(n, k);
    } else {
      RoundNear(n, 53);
    }
  }

  lemma BitLenAtMost(n: nat, b: nat)
    requires n < Pow2(b)
    ensures BitLen(n) <= b
  {
    if n > 0 && b < BitLen(n) { Pow2Monotone(b, BitLen(n) - 1); }
  }

  lemma BitLenIs(n: nat, b: nat)
    requires b > 0 && Pow2(b - 1) <= n < Pow2(b)
    ensures BitLen(n) == b
  {
    BitLenAtMost(n, b);
    if BitLen(n) < b { Pow2Monotone(BitLen(n), b - 1); }
  }

  /** In the last block of size 2^k below 2^h, bit k is set. */
  lemma {:induction false} LastBlockOdd(v: nat, h: nat, k: nat)
    requires k < h && Pow2(h) - Pow2(k) <= v < Pow2(h)
    ensures Bit(v, k)
  {
    var whole, block := Pow2(h - 1), Pow2(k);
    assert Pow2(h) == 2 * whole;
    if k > 0 {
      assert block == 2 * Pow2(k - 1);
      LastBlockOdd(v / 2, h - 1, k - 1);
    }
  }

  /** How far below 2^h a number may be and still round up to it. */
  function Slack(h: nat): (s: nat) { if h > PRECISION then Pow2(h - PRECISION - 1) else 0 }

  /** The spacing of the numbers just below 2^h. */
  function Gap(h: nat): (g: nat)
    ensures 0 < g <= Pow2(h)
  {
    if h > PRECISION then
      Pow2Monotone(h - PRECISION, h);
      Pow2(h - PRECISION)
    else 1
  }

  /** Close enough below 2^h, rounding reaches it. */
  lemma RoundReaches(c: nat, h: nat)
    requires c <= Pow2(h) <= c + Slack(h)
    ensures Round(c) == Pow2(h)
  {
    if c == Pow2(h) {
      Pow2Aligned(h, h);
      SevenBits(h);
      RoundExact(c, h);
    } else {
      TopExcess(c, h);
      LastHalf(c, h, h - PRECISION);
    }
  }

  lemma TopExcess(c: nat, h: nat)
    requires h > PRECISION && Pow2(h) - Pow2(h - PRECISION - 1) <= c < Pow2(h)
    ensures Excess(c) == h - PRECISION
  {
    Pow2Monotone(h - PRECISION - 1, h - 1);
    BitLenIs(c, h);
  }

  /** The last half block is cut down to its start and rounds up from there. */
  lemma LastHalf(c: nat, h: nat, k: nat)
    requires 0 < k < h && Pow2(h) - Pow2(k - 1) <= c < Pow2(h)
    ensures Cut(c, k) == Pow2(h)
  {
    assert Pow2(k) == 2 * Pow2(k - 1);
    InLastBlock(c, h, k);
    LastBlockOdd(c, h, k);
  }

  lemma InLastBlock(c: nat, h: nat, k: nat)
    requires k <= h && Pow2(h) - Pow2(k) <= c < Pow2(h)
    ensures Mask(c, k) == Pow2(h) - Pow2(k)
  {
    LastBlock(h, k);
    MaskUnique(c, Pow2(h) - Pow2(k), k);
  }

  lemma {:induction false} LastBlock(h: nat, k: nat)
    requires k <= h
    ensures Pow2(k) <= Pow2(h) && Aligned(Pow2(h) - Pow2(k), k)
  {
    if k > 0 {
      LastBlock(h - 1, k - 1);
      var half := Pow2(h - 1) - Pow2(k - 1);
      assert Pow2(h) == 2 * Pow2(h - 1) && Pow2(k) == 2 * Pow2(k - 1);
      assert Pow2(h) - Pow2(k) == 2 * half && 2 * half / 2 == half;
    } else {
      Pow2Monotone(0, h);
    }
  }

  lemma {:induction false} Pow2Aligned(h: nat, k: nat)
    requires k <= h
    ensures Aligned(Pow2(h), k)
  {
    if k > 0 { Pow2Aligned(h - 1, k - 1); }
  }

  lemma {:induction false} HundredAligned(h: nat, k: nat)
    requires k <= h
    ensures Aligned(100 * Pow2(h), k)
  {
    if k > 0 {
      HundredAligned(h - 1, k - 1);
      AlignedTwice(100 * Pow2(h - 1), 100 * Pow2(h), k);
    }
  }

  lemma AlignedTwice(half: nat, v: nat, k: nat)
    requires k > 0 && Aligned(half, k - 1) && v == 2 * half
    ensures Aligned(v, k)
  {
    assert v / 2 == half && v % 2 == 0;
  }

  lemma SevenBits(h: nat)
    ensures Pow2(h + 7) == 128 * Pow2(h)
  {
    assert Pow2(h + 7) == 2 * Pow2(h + 6) && Pow2(h + 6) == 2 * Pow2(h + 5) && Pow2(h + 5) == 2 * Pow2(h + 4);
    assert Pow2(h + 4) == 2 * Pow2(h + 3) && Pow2(h + 3) == 2 * Pow2(h + 2) && Pow2(h + 2) == 2 * Pow2(h + 1);
  }

  lemma RoundExact(n: nat, h: nat)
    requires n < Pow2(h + 7) && Aligned(n, h)
    ensures Round(n) == n
  {
    BitLenAtMost(n, h + 7);
    if BitLen(n) > PRECISION {
      AlignedWeaken(n, h, BitLen(n) - PRECISION);
      MaskUnique(n, n, BitLen(n) - PRECISION);
    }
  }

  /** Further below 2^h, rounding stays a whole gap below it. */
  lemma RoundStaysBelow(c: nat, h: nat)
    requires c + Slack(h) < Pow2(h)
    ensures Round(c) + Gap(h) <= Pow2(h)
  {
    if h <= PRECISION {
      RoundNear(c, h);
    } else {
      BitLenAtMost(c, h);
      if BitLen(c) == h { TopBlock(c, h, h - PRECISION); } else { LowerBinade(c, h); }
    }
  }

  lemma TopBlock(c: nat, h: nat, k: nat)
    requires 0 < k <= h && c + Pow2(k - 1) < Pow2(h)
    ensures Cut(c, k) + Pow2(k) <= Pow2(h)
  {
    MaskAligned(c, k);
    NextAligned(Mask(c, k), h, k);
    assert Pow2(k) == 2 * Pow2(k - 1);
  }

  /** An aligned number below 2^h leaves room for its block, and for another one
      unless it starts the last block. */
  lemma NextAligned(v: nat, h: nat, k: nat)
    requires k <= h && Aligned(v, k) && v < Pow2(h)
    ensures v + Pow2(k) <= Pow2(h)
    ensures v + Pow2(k) != Pow2(h) ==> v + 2 * Pow2(k) <= Pow2(h)
  {
    AlignedFits(v, k, h);
    if v + Pow2(k) < Pow2(h) {
      AlignedStep(v, k);
      AlignedFits(v + Pow2(k), k, h);
    }
  }

  lemma BelowHalf(c: nat, h: nat)
    requires BitLen(c) < h
    ensures c < Pow2(h - 1)
  {
    if c > 0 { Pow2Monotone(BitLen(c), h - 1); }
  }

  lemma Room(r: nat, c: nat, h: nat)
    requires h > PRECISION && c < Pow2(h - 1)
    requires if h - 1 <= PRECISION then r == c else r <= c + Pow2(h - 1 - PRECISION - 1)
    ensures r + Gap(h) <= Pow2(h)
  {
    Pow2Monotone(h - PRECISION, h - 3);
    EighthOf(h);
    if h - 1 > PRECISION { Pow2Monotone(h - 1 - PRECISION - 1, h - 3); }
  }

  lemma EighthOf(h: nat)
    requires h >= 3
    ensures Pow2(h) == 8 * Pow2(h - 3) && Pow2(h - 1) == 4 * Pow2(h - 3)
  {
    assert Pow2(h) == 2 * Pow2(h - 1) && Pow2(h - 1) == 2 * Pow2(h - 2) && Pow2(h - 2) == 2 * Pow2(h - 3);
  }

  lemma LowerBinade(c: nat, h: nat)
    requires h > PRECISION && BitLen(c) < h
    ensures Round(c) + Gap(h) <= Pow2(h)
  {
    BelowHalf(c, h);
    RoundNear(c, h - 1);
    Room(Round(c), c, h);
  }

  // ----- percentages -----

  /** A count over 2^h times a hundred, each step rounded, and capped. */
  function Percentage(covered: nat, h: nat): (p: real) {
    var ratio := Round(covered);
    var percentage := Round(100 * ratio) as real / Pow2(h) as real;
    if percentage > 100.0 then 100.0 else percentage
  }

  /** Over at most 2^46 addresses, so for every IPv4 target, nothing is rounded. */
  lemma SmallIsExact(c: nat, h: nat)
    requires h <= 46 && c <= Pow2(h)
    ensures Percentage(c, h) == (100 * c) as real / Pow2(h) as real
  {
    NothingRounded(c, h);
    AtMostHundred(100 * c, Pow2(h));
  }

  lemma NothingRounded(c: nat, h: nat)
    requires h <= 46 && c <= Pow2(h)
    ensures Round(c) == c && Round(100 * c) == 100 * c
  {
    SevenBits(h);
    RoundNear(c, h + 7);
    RoundNear(100 * c, h + 7);
  }

  lemma AtMostHundred(x: nat, t: nat)
    requires t > 0 && x <= 100 * t
    ensures x as real / t as real <= 100.0
  {
    AtLeastHundred(x, t);
    if x == 100 * t { WholeHundred(t); }
  }

  lemma WholeHundred(t: nat)
    requires t > 0
    ensures (100 * t) as real / t as real == 100.0
  {}

  /** The percentage shows 100 exactly from a slack below the full count on. */
  lemma HundredIff(c: nat, h: nat)
    requires c <= Pow2(h)
    ensures Percentage(c, h) == 100.0 <==> Pow2(h) <= c + Slack(h)
  {
    var x := Round(100 * Round(c));
    AtLeastHundred(x, Pow2(h));
    if Pow2(h) <= c + Slack(h) {
      RoundReaches(c, h);
      HundredAligned(h, h);
      SevenBits(h);
      RoundExact(100 * Pow2(h), h);
    } else {
      RoundStaysBelow(c, h);
      BelowHundred(Round(c), h);
    }
  }

  lemma BelowHundred(r: nat, h: nat)
    requires r + Gap(h) <= Pow2(h)
    ensures Round(100 * r) < 100 * Pow2(h)
  {
    SevenBits(h);
    RoundNear(100 * r, h + 7);
    if h + 7 > PRECISION {
      HalfUlp(h);
      Short(Round(100 * r), r, Pow2(h + 7 - PRECISION - 1), Gap(h), Pow2(h));
    }
  }

  lemma Short(x: nat, r: nat, ulp: nat, gap: nat, full: nat)
    requires r + gap <= full && ulp <= 64 * gap && gap > 0 && x <= 100 * r + ulp
    ensures x < 100 * full
  {}

  /** Half a unit in the last place of a percentage is less than a hundred gaps. */
  lemma HalfUlp(h: nat)
    requires h + 7 > PRECISION
    ensures Pow2(h + 7 - PRECISION - 1) <= 64 * Gap(h)
  {
    if h > PRECISION {
      var k := h - PRECISION;
      assert Pow2(k + 6) == 2 * Pow2(k + 5) && Pow2(k + 5) == 2 * Pow2(k + 4) && Pow2(k + 4) == 2 * Pow2(k + 3);
      assert Pow2(k + 3) == 2 * Pow2(k + 2) && Pow2(k + 2) == 2 * Pow2(k + 1);
    } else {
      Pow2Monotone(h + 7 - PRECISION - 1, 6);
      assert Pow2(6) == 2 * Pow2(5) && Pow2(5) == 2 * Pow2(4) && Pow2(4) == 16;
    }
  }

  lemma AtLeastHundred(x: nat, t: nat)
    requires t > 0
    ensures x as real / t as real >= 100.0 <==> x >= 100 * t
  {
    var q := x as real / t as real;
    assert q * t as real == x as real;
    if q >= 100.0 { assert q * t as real >= 100.0 * t as real; }
    if q < 100.0 { assert q * t as real < 100.0 * t as real; }
  }

  /** Nothing shows as zero percent but nothing. */
  lemma ZeroIff(c: nat, h: nat)
    ensures Percentage(c, h) == 0.0 <==> c == 0
  {
    if c > 0 {
      RoundPositive(c);
      RoundPositive(100 * Round(c));
      QuotientPositive(Round(100 * Round(c)), Pow2(h));
    }
  }

  lemma RoundPositive(n: nat)
    requires n > 0
    ensures Round(n) > 0
  {
    RoundNear(n, BitLen(n));
    if BitLen(n) > PRECISION { Pow2Monotone(BitLen(n) - PRECISION - 1, BitLen(n) - 2); }
  }

  lemma QuotientPositive(x: nat, t: nat)
    requires x > 0 && t > 0
    ensures x as real / t as real > 0.0
  {}

  /** The percentage tells whether everything is covered, for every count, if and
      only if there are at most 2^53 addresses to cover. */
  lemma TellsIff(h: nat)
    ensures (forall c: nat :: c <= Pow2(h) ==> (Percentage(c, h) == 100.0 <==> c == Pow2(h))) <==> h <= PRECISION
  {
    forall c: nat | c <= Pow2(h) ensures Percentage(c, h) == 100.0 <==> Pow2(h) <= c + Slack(h) { HundredIff(c, h); }
    if h > PRECISION {
      Pow2Monotone(0, h);
      assert Percentage(Pow2(h) - 1, h) == 100.0;
    }
  }
}
