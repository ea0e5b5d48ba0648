/**
 The alignment arithmetic of kernel/include/libs/math.hpp: what its masks compute, on numbers.
 */
module BitMath {
  const TWO64: int := 0x1_0000_0000_0000_0000

  // ---------- alignment by division ----------

  // the largest multiple of base that is at most n
  function AlignDown(n: int, base: int): (r: int)
    requires 0 <= n && 0 < base
    ensures r <= n < r + base && r % base == 0 && 0 <= r
  {
    MultipleOf(n / base, base);
    n / base * base
  }

  // the smallest multiple of base that is at least n
  function AlignUp(n: int, base: int): (r: int)
    requires 0 <= n && 0 < base
    ensures n <= r < n + base && r % base == 0
  {
    AlignDown(n + base - 1, base)
  }

  lemma MultipleOf(k: int, base: int)
    requires 0 < base
    ensures (k * base) % base == 0
  {
    var d, m := (k * base) / base, (k * base) % base;
    assert (k - d) * base == m;
    assert k - d >= 1 ==> (k - d) * base >= base;
    assert k - d <= -1 ==> (k - d) * base <= -base;
  }

  // distinct multiples of base lie at least base apart
  lemma AlignedApart(a: int, b: int, base: int)
    requires 0 < base && a % base == 0 && b % base == 0 && a < b
    ensures a + base <= b
  {
    var q := b / base - a / base;
    assert q * base == b - a;
    assert q <= 0 ==> q * base <= 0;
    assert q * base >= base;
  }

  // multiples stay as they are
  lemma AlignedFixed(n: int, base: int)
    requires 0 <= n && 0 < base && n % base == 0
    ensures AlignDown(n, base) == n && AlignUp(n, base) == n
  {
    var q := n / base;
    assert n == q * base;
    DivUnique(n + base - 1, base, q, base - 1);
  }

  // no multiple of base that is at least n lies below the rounded n
  lemma AlignUpLeast(n: int, base: int, a: int)
    requires 0 <= n <= a && 0 < base && a % base == 0
    ensures AlignUp(n, base) <= a
  {
    if a < AlignUp(n, base) {
      AlignedApart(a, AlignUp(n, base), base);
    }
  }

  // a step of at most base from one multiple of base leads to no multiple beyond the next
  lemma NextBlock(a: int, p: int, step: int, base: int)
    requires 0 <= a <= p && 0 < step <= base && a % base == 0 && p % base == 0 && p < AlignUp(a + step, base)
    ensures p == a
  {
    var next := AlignUp(a + step, base);
    if a < p {
      AlignedApart(a, p, base);
      AlignedApart(p, next, base);
    }
  }

  // ---------- alignment by masks ----------

  // bitwise and
  function And(a: nat, b: nat): nat
  {
    if a == 0 || b == 0 then 0 else (if a % 2 == 1 && b % 2 == 1 then 1 else 0) + 2 * And(a / 2, b / 2)
  }

  function Pow2(k: nat): (p: nat)
    ensures 0 < p
  {
    if k == 0 then 1 else 2 * Pow2(k - 1)
  }

  ghost predicate IsPow2(n: int)
  {
    exists k: nat :: n == Pow2(k)
  }

  lemma PageSizes()
    ensures IsPow2(0x1000) && IsPow2(0x20_0000) && IsPow2(0x4000_0000)
  {
    assert Pow2(9) == 512 && Pow2(12) == 8 * Pow2(9);
    assert Pow2(15) == 8 * Pow2(12) && Pow2(18) == 8 * Pow2(15) && Pow2(21) == 8 * Pow2(18);
    assert Pow2(24) == 8 * Pow2(21) && Pow2(27) == 8 * Pow2(24) && Pow2(30) == 8 * Pow2(27);
  }

  // bitwise complement in a word of w bits
  function Not(w: nat, x: nat): nat
    requires x < Pow2(w)
  {
    Pow2(w) - 1 - x
  }

  // n & ~(base - 1) in a word of w bits
  function MaskDown(w: nat, n: nat, base: nat): nat
    requires 0 < base <= Pow2(w)
  {
    And(n, Not(w, base - 1))
  }

  lemma {:induction false} AndOnes(w: nat, n: nat)
    requires n < Pow2(w)
    ensures And(n, Pow2(w) - 1) == n
  {
    if w > 0 && n > 0 {
      assert Pow2(w) - 1 == 2 * (Pow2(w - 1) - 1) + 1;
      if w > 1 {
        AndOnes(w - 1, n / 2);
      }
    }
  }

  // for a power of two the mask is division
  lemma {:induction false} MaskIsDivision(w: nat, n: nat, k: nat)
    requires n < Pow2(w) && k <= w
    ensures Pow2(k) <= Pow2(w) && MaskDown(w, n, Pow2(k)) == n - n % Pow2(k)
  {
    if k == 0 {
      AndOnes(w, n);
    } else {
      MaskIsDivision(w - 1, n / 2, k - 1);
      var p := Pow2(k - 1);
      var h := Not(w - 1, p - 1);
      assert Not(w, 2 * p - 1) == 2 * h;
      AndEven(n, h);
      HalfMod(n, p);
    }
  }

  lemma {:induction false} AndEven(n: nat, h: nat)
    ensures And(n, 2 * h) == 2 * And(n / 2, h)
  {
    assert (2 * h) / 2 == h;
  }

  lemma HalfMod(n: nat, p: nat)
    requires 0 < p
    ensures n % (2 * p) == n % 2 + 2 * ((n / 2) % p)
  {
    var h := n / 2;
    var q, r := h / p, h % p;
    assert h == q * p + r;
    assert n == q * (2 * p) + (2 * r + n % 2);
    DivUnique(n, 2 * p, q, 2 * r + n % 2);
  }

  lemma DivUnique(n: int, d: int, q: int, r: int)
    requires 0 < d && n == q * d + r && 0 <= r < d
    ensures n / d == q && n % d == r
  {
    var q', r' := n / d, n % d;
    assert (q - q') * d == r' - r;
    assert q - q' >= 1 ==> (q - q') * d >= d;
    assert q - q' <= -1 ==> (q - q') * d <= -d;
  }

  lemma {:induction false} AndComplement(w: nat, c: nat)
    requires c < Pow2(w)
    ensures And(c, Not(w, c)) == 0
  {
    if w > 0 && c > 0 {
      AndComplement(w - 1, c / 2);
      assert Not(w, c) / 2 == Not(w - 1, c / 2);
      assert Not(w, c) % 2 == 1 - c % 2;
    }
  }

  lemma MaskHalf(w: nat, c: nat)
    requires 0 < w && 0 < c < Pow2(w - 1)
    ensures MaskDown(w, 2 * c, 2 * c) == 2 * MaskDown(w - 1, c, c)
  {
    var m := Not(w - 1, c - 1);
    assert Not(w, 2 * c - 1) == 2 * m;
    assert And(2 * c, 2 * m) == 2 * And(c, m);
  }

  lemma MaskOdd(w: nat, c: nat)
    requires 0 < w && c < Pow2(w - 1)
    ensures MaskDown(w, 2 * c + 1, 2 * c + 1) == 1
  {
    AndComplement(w - 1, c);
    var m := Not(w - 1, c);
    assert Not(w, 2 * c) == 2 * m + 1;
    AndOdd(2 * c + 1, m);
  }

  // for any other base the mask already fails on the base itself
  lemma {:induction false} MaskNeedsPow2(w: nat, base: nat)
    requires 0 < base < Pow2(w) && MaskDown(w, base, base) == base
    ensures IsPow2(base)
  {
    if base == 1 {
      assert base == Pow2(0);
    } else {
      var c := base / 2;
      if base % 2 == 0 {
        MaskHalf(w, c);
        MaskNeedsPow2(w - 1, c);
        var k: nat :| c == Pow2(k);
        assert base == Pow2(k + 1);
      } else {
        MaskOdd(w, c);
        assert false;
      }
    }
  }

  // align_down rounds every w-bit number down to a multiple of base exactly when base is a power of two
  lemma AlignDownExact(w: nat, base: nat)
    requires 0 < base < Pow2(w)
    ensures IsPow2(base) <==> RoundsDown(w, base)
  {
    if IsPow2(base) {
      var k: nat :| base == Pow2(k);
      Pow2Rounds(w, k);
    }
    if RoundsDown(w, base) {
      RoundsPow2(w, base);
    }
  }

  lemma Pow2Rounds(w: nat, k: nat)
    requires Pow2(k) < Pow2(w)
    ensures RoundsDown(w, Pow2(k))
  {
    Pow2Small(k, w);
    forall n: nat | n < Pow2(w) ensures MaskDown(w, n, Pow2(k)) == AlignDown(n, Pow2(k)) {
      MaskIsDivision(w, n, k);
      DownIsRest(n, Pow2(k));
    }
  }

  lemma DownIsRest(n: nat, base: nat)
    requires 0 < base
    ensures AlignDown(n, base) == n - n % base
  {
  }

  lemma RoundsPow2(w: nat, base: nat)
    requires 0 < base < Pow2(w) && RoundsDown(w, base)
    ensures IsPow2(base)
  {
    assert MaskDown(w, base, base) == AlignDown(base, base) == base;
    MaskNeedsPow2(w, base);
  }

  ghost predicate RoundsDown(w: nat, base: nat)
    requires 0 < base < Pow2(w)
  {
    forall n: nat {:trigger MaskDown(w, n, base)} :: n < Pow2(w) ==> MaskDown(w, n, base) == AlignDown(n, base)
  }

  lemma {:induction false} Pow2Mono(j: nat, k: nat)
    requires j <= k
    ensures Pow2(j) <= Pow2(k)
    decreases k
  {
    if j < k {
      Pow2Mono(j, k - 1);
    }
  }

  lemma Pow2Small(k: nat, w: nat)
    requires Pow2(k) < Pow2(w)
    ensures k < w
  {
    if w <= k {
      Pow2Mono(w, k);
    }
  }

  // align_up as a w-bit machine computes it: the sum may wrap
  function MaskUp(w: nat, n: nat, base: nat): nat
    requires 0 < base < Pow2(w)
  {
    MaskDown(w, (n + base - 1) % Pow2(w), base)
  }

  lemma MaskUpIs(w: nat, n: nat, base: nat, s: nat)
    requires 0 < base < Pow2(w) && IsPow2(base) && s == (n + base - 1) % Pow2(w) < Pow2(w)
    ensures MaskUp(w, n, base) == AlignDown(s, base)
  {
    AlignDownExact(w, base);
    assert MaskDown(w, s, base) == AlignDown(s, base);
  }

  lemma WrappedSum(x: nat, p: nat)
    requires 0 < p && x < 2 * p
    ensures x % p == if x < p then x else x - p
  {
    if x < p {
      DivUnique(x, p, 0, x);
    } else {
      DivUnique(x, p, 1, x - p);
    }
  }

  // align_up rounds up exactly when the sum does not wrap
  lemma AlignUpExact(w: nat, n: nat, base: nat)
    requires 0 < base < Pow2(w) && n < Pow2(w) && IsPow2(base)
    ensures MaskUp(w, n, base) == AlignUp(n, base) <==> n + base - 1 < Pow2(w)
  {
    var p := Pow2(w);
    WrappedSum(n + base - 1, p);
    MaskUpIs(w, n, base, if n + base - 1 < p then n + base - 1 else n + base - 1 - p);
  }

  lemma {:induction false} AndSmall(a: nat, b: nat)
    ensures And(a, b) <= b
  {
    if a > 0 && b > 0 {
      AndSmall(a / 2, b / 2);
    }
  }

  // align_up for any base: add base - 1 and clear the bits of base - 1
  function RoundUp(n: nat, base: nat): (r: nat)
    requires 0 < base
    ensures n <= r
  {
    AndSmall(n + base - 1, base - 1);
    n + base - 1 - And(n + base - 1, base - 1)
  }

  lemma RoundUpPow2(n: nat, base: nat)
    requires IsPow2(base)
    ensures 0 < base && RoundUp(n, base) == AlignUp(n, base)
  {
    var k: nat :| base == Pow2(k);
    LowBits(n + base - 1, k);
    DownIsRest(n + base - 1, base);
  }

  // the bits that a mask clears
  lemma {:induction false} AndNot(w: nat, x: nat, c: nat)
    requires x < Pow2(w) && c < Pow2(w)
    ensures And(x, Not(w, c)) == x - And(x, c)
  {
    if w > 0 {
      AndNot(w - 1, x / 2, c / 2);
      var m := Not(w, c);
      assert m / 2 == Not(w - 1, c / 2);
      assert m % 2 == 1 - c % 2;
    }
  }

  // where the sum does not wrap, a w-bit machine computes the same
  lemma RoundUpIsMask(w: nat, n: nat, base: nat)
    requires 0 < base < Pow2(w) && n + base - 1 < Pow2(w)
    ensures MaskUp(w, n, base) == RoundUp(n, base)
  {
    AndNot(w, n + base - 1, base - 1);
    WrappedSum(n + base - 1, Pow2(w));
  }

  // is_aligned tests the low bits: it answers whether base divides n
  lemma {:induction false} LowBits(n: nat, k: nat)
    ensures And(n, Pow2(k) - 1) == n % Pow2(k)
  {
    QuotientRest(n, Pow2(k));
    LowBitsAre(n, k, n / Pow2(k), n % Pow2(k));
  }

  lemma QuotientRest(n: nat, p: nat)
    requires 0 < p
    ensures n == n / p * p + n % p && n % p < p && 0 <= n / p
  {
  }

  lemma {:induction false} LowBitsAre(n: nat, k: nat, q: nat, r: nat)
    requires n == q * Pow2(k) + r && r < Pow2(k)
    ensures And(n, Pow2(k) - 1) == r
  {
    if k > 0 {
      var p := Pow2(k - 1);
      DoubleProduct(q, p);
      Halves(n, q * p, r);
      LowBitsAre(n / 2, k - 1, q, r / 2);
      LowBitsStep(n, p - 1, 2 * p - 1, r / 2);
    }
  }

  lemma DoubleProduct(a: nat, b: nat)
    ensures a * (2 * b) == 2 * (a * b)
  {
  }

  lemma Halves(n: nat, t: nat, r: nat)
    requires n == 2 * t + r
    ensures n / 2 == t + r / 2 && n % 2 == r % 2
  {
  }

  lemma LowBitsStep(n: nat, h: nat, m: nat, r: nat)
    requires m == 2 * h + 1 && And(n / 2, h) == r
    ensures And(n, m) == n % 2 + 2 * r
  {
    AndOdd(n, h);
  }

  lemma {:induction false} AndOdd(n: nat, h: nat)
    ensures And(n, 2 * h + 1) == n % 2 + 2 * And(n / 2, h)
  {
    assert (2 * h + 1) / 2 == h;
  }
}
