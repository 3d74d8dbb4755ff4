/**
 * Gray codes of pointers, and what a synchroniser can catch of one that is changing.
 */
module GrayCode {
  import opened Bits

  function Gray(b: nat): (g: nat) {
    Xor(b / 2, b)
  }

  lemma GrayStep(b: nat)
    ensures Gray(b) == (if (b / 2) % 2 == b % 2 then 0 else 1) + 2 * Gray(b / 2)
  {
    XorStep(b / 2, b);
  }

  lemma {:induction false} GrayInjective(a: nat, b: nat)
    requires Gray(a) == Gray(b)
    ensures a == b
    decreases a + b
  {
    hide Xor;
    if a + b > 0 {
      GrayStep(a);
      GrayStep(b);
      hide Gray;
      assert Gray(a) / 2 == Gray(a / 2) && Gray(b) / 2 == Gray(b / 2);
      GrayInjective(a / 2, b / 2);
    }
  }

  // ---------------------------------------------------------------- neighbours

  /** In how many bits two numbers differ. */
  function Distance(x: nat, y: nat): (d: nat)
    decreases x + y
  {
    if x == 0 && y == 0 then 0
    else (if x % 2 == y % 2 then 0 else 1) + Distance(x / 2, y / 2)
  }

  lemma {:induction false} DistanceZero(x: nat, y: nat)
    ensures Distance(x, y) == 0 <==> x == y
    decreases x + y
  {
    if x + y > 0 {
      DistanceZero(x / 2, y / 2);
    }
  }

  lemma DistanceStep(x: nat, y: nat)
    ensures Distance(x, y) == (if x % 2 == y % 2 then 0 else 1) + Distance(x / 2, y / 2)
  {
    DistanceZero(0, 0);
  }

  /** Codes of neighbours differ in one bit. */
  lemma {:induction false} GrayNeighbours(b: nat)
    ensures Distance(Gray(b), Gray(b + 1)) == 1
    decreases b
  {
    hide Xor, Distance;
    GrayStep(b);
    GrayStep(b + 1);
    DistanceStep(Gray(b), Gray(b + 1));
    hide Gray;
    assert Gray(b) / 2 == Gray(b / 2) && Gray(b + 1) / 2 == Gray((b + 1) / 2);
    if b % 2 == 0 {
      assert (b + 1) / 2 == b / 2;
      DistanceZero(Gray(b / 2), Gray(b / 2));
    } else {
      assert (b + 1) / 2 == b / 2 + 1;
      GrayNeighbours(b / 2);
    }
  }

  /** So do those of the last and the first value of an `n`-bit pointer. */
  lemma {:induction false} GrayWraps(n: nat)
    requires n > 0
    ensures Gray(Pow2(n) - 1) == Pow2(n - 1) && Gray(0) == 0
    ensures Distance(Gray(Pow2(n) - 1), Gray(0)) == 1
  {
    XorZero(0, 0);
    TopBit(n - 1);
    hide Xor, Distance;
    if n == 1 {
      GrayStep(1);
    } else {
      GrayWraps(n - 1);
      GrayStep(Pow2(n) - 1);
      hide Gray, Pow2;
      Pow2Step(n);
      Pow2Step(n - 1);
      OddHalf(Pow2(n - 1));
    }
  }

  lemma OddHalf(p: nat)
    requires p >= 2 && p % 2 == 0
    ensures (2 * p - 1) / 2 == p - 1 && (2 * p - 1) % 2 == 1 && (p - 1) % 2 == 1
  {
  }

  lemma {:induction false} TopBit(n: nat)
    ensures Distance(Pow2(n), 0) == 1
  {
    if n == 0 {
      assert Distance(0, 0) == 0;
    } else {
      TopBit(n - 1);
      DistanceStep(Pow2(n), 0);
    }
  }

  /** Each bit of `m` is that of `x` or that of `y`. */
  predicate Mix(m: nat, x: nat, y: nat)
    decreases m + x + y
  {
    m + x + y == 0 || ((m % 2 == x % 2 || m % 2 == y % 2) && Mix(m / 2, x / 2, y / 2))
  }

  lemma MixStep(m: nat, x: nat, y: nat)
    requires Mix(m, x, y)
    ensures (m % 2 == x % 2 || m % 2 == y % 2) && Mix(m / 2, x / 2, y / 2)
  {
  }

  lemma {:induction false} MixSame(m: nat, x: nat)
    ensures Mix(m, x, x) <==> m == x
    decreases m + x
  {
    if m + x > 0 {
      MixSame(m / 2, x / 2);
    }
  }

  lemma {:induction false} MixEnds(x: nat, y: nat)
    ensures Mix(x, x, y) && Mix(y, x, y)
    decreases x + y
  {
    if x + y > 0 {
      MixEnds(x / 2, y / 2);
    }
  }

  /** A mix of two numbers that differ in at most one bit is one of them. */
  lemma {:induction false} MixIsEither(m: nat, x: nat, y: nat)
    requires Distance(x, y) <= 1
    ensures Mix(m, x, y) <==> m == x || m == y
    decreases m + x + y
  {
    if m == x || m == y {
      MixEnds(x, y);
    } else if Mix(m, x, y) {
      MixStep(m, x, y);
      DistanceStep(x, y);
      if x % 2 == y % 2 {
        MixIsEither(m / 2, x / 2, y / 2);
      } else {
        DistanceZero(x / 2, y / 2);
        MixSame(m / 2, x / 2);
      }
    }
  }

  // ---------------------------------------------------------------- the full test

  /** The bits `n` and `n + 1` of a code inverted, and the lower ones kept. */
  function TopInverted(g: nat, n: nat): (v: int) {
    if n == 0 then 3 - g else g % 2 + 2 * TopInverted(g / 2, n - 1)
  }

  /** Half the range of an `n + 2`-bit pointer away. */
  function Opposite(r: nat, n: nat): (q: nat) {
    if r < Pow2(n + 1) then r + Pow2(n + 1) else r - Pow2(n + 1)
  }

  lemma OppositeHalf(r: nat, n: nat)
    requires n > 0 && r < Pow2(n + 2)
    ensures r / 2 < Pow2(n + 1)
    ensures Opposite(r, n) / 2 == Opposite(r / 2, n - 1) && Opposite(r, n) % 2 == r % 2
    ensures (Opposite(r, n) / 2) % 2 == (r / 2) % 2
  {
    hide Pow2;
    Pow2Step(n + 2);
    Pow2Step(n + 1);
    Pow2Step(n);
  }

  /**
   * Inverting the top two bits of the code of an `n + 2`-bit pointer moves the pointer by
   * half its range.
   */
  lemma {:induction false} HalfwayRound(r: nat, n: nat)
    requires r < Pow2(n + 2)
    ensures TopInverted(Gray(r), n) == Gray(Opposite(r, n))
    decreases n
  {
    hide Gray;
    if n == 0 {
      assert Pow2(1) == 2 && Pow2(2) == 4;
      FourCodes();
    } else {
      hide Pow2, Opposite;
      OppositeHalf(r, n);
      HalfwayRound(r / 2, n - 1);
      GrayStep(r);
      GrayStep(Opposite(r, n));
    }
  }

  lemma FourCodes()
    ensures Gray(0) == 0 && Gray(1) == 1 && Gray(2) == 3 && Gray(3) == 2
  {
    XorZero(0, 0);
    GrayStep(1);
    GrayStep(2);
    GrayStep(3);
  }
}
