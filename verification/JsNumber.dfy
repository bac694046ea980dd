/**
 * Numbers as JavaScript holds them: a 64-bit integer read into a `number` is rounded to the
 * nearest double (IEEE 754 binary64, 53 significant bits, ties to even).
 */
module JsNumber {
  const TWO_TO_THE_53: nat := 0x20_0000_0000_0000

  /** The distance between neighbouring doubles at `n`, for integers. */
  function Ulp(n: nat): (u: nat)
    ensures u >= 1
  {
    if n < TWO_TO_THE_53 then 1 else 2 * Ulp(n / 2)
  }

  function ToNumber(n: nat): nat {
    var u := Ulp(n);
    var q, r := n / u, n % u;
    if 2 * r < u || (2 * r == u && q % 2 == 0) then q * u else (q + 1) * u
  }

  /** `n` survives exactly when it is a multiple of the spacing at `n`; below 2^53 it always does. */
  lemma NumberExact(n: nat)
    ensures ToNumber(n) == n <==> n % Ulp(n) == 0
    ensures n < TWO_TO_THE_53 ==> ToNumber(n) == n
  {
    var u := Ulp(n);
    assert n == n / u * u + n % u;
    if n % u != 0 && ToNumber(n) != n / u * u {
      assert ToNumber(n) == n / u * u + u;
    }
  }

  /** The result is a multiple of the spacing, no further from `n` than half of it, and an even one on a tie. */
  lemma NumberNear(n: nat)
    ensures ToNumber(n) % Ulp(n) == 0
    ensures 2 * ToNumber(n) <= 2 * n + Ulp(n) && 2 * n <= 2 * ToNumber(n) + Ulp(n)
    ensures 2 * (n % Ulp(n)) == Ulp(n) ==> ToNumber(n) % (2 * Ulp(n)) == 0
  {
    hide Ulp;
    var u := Ulp(n);
    var q := n / u;
    assert n == q * u + n % u;
    assert (q + 1) * u == q * u + u;
    var k := if ToNumber(n) == q * u then q else q + 1;
    assert ToNumber(n) == k * u;
    MultipleMod(k, u);
    EvenMultiple(k, u);
    if 2 * (n % u) == u {
      assert k == if q % 2 == 0 then q else q + 1;
    }
  }

  lemma EvenMultiple(k: nat, u: nat)
    requires u > 0
    ensures k % 2 == 0 ==> k * u % (2 * u) == 0
  {
    var h := k / 2;
    assert k % 2 == 0 ==> k * u == h * (2 * u);
    MultipleMod(h, 2 * u);
  }

  lemma MultipleMod(q: nat, u: nat)
    requires u > 0
    ensures q * u % u == 0
  {
    var a := q * u;
    var d := a / u - q;
    assert a == a / u * u + a % u;
    assert d * u == -(a % u) by {
      assert d * u == a / u * u - q * u;
    }
    NegativeMultiple(d, u);
  }

  lemma NegativeMultiple(d: int, u: nat)
    ensures d <= -1 ==> d * u <= -1 * u
  {
  }

  // ----- Rounding once is enough -----

  lemma {:induction false} UlpBounds(n: nat)
    ensures n < TWO_TO_THE_53 * Ulp(n)
    ensures n >= TWO_TO_THE_53 ==> TWO_TO_THE_53 * Ulp(n) <= 2 * n
  {
    if n >= TWO_TO_THE_53 {
      UlpBounds(n / 2);
    }
  }

  lemma UlpOne(n: nat)
    ensures n < TWO_TO_THE_53 ==> Ulp(n) == 1
  {
  }

  lemma UlpTwice(n: nat)
    ensures n >= TWO_TO_THE_53 ==> Ulp(n) == 2 * Ulp(n / 2)
  {
  }

  lemma UlpSmall(n: nat)
    requires n > 0
    ensures Ulp(n) <= n
  {
    hide Ulp;
    UlpBounds(n);
    UlpOne(n);
  }

  /** At most 2^53 spacings: a double again, even where that crosses into the next binade. */
  lemma {:induction false} MultipleIsDouble(n: nat, k: nat)
    requires k <= TWO_TO_THE_53
    ensures k * Ulp(n) % Ulp(k * Ulp(n)) == 0
  {
    if n < TWO_TO_THE_53 {
      assert Ulp(TWO_TO_THE_53) == 2;
      assert k * 1 == k;
    } else {
      var u := Ulp(n / 2);
      MultipleIsDouble(n / 2, k);
      assert k * Ulp(n) == 2 * (k * u);
      TwiceIsDouble(k * u);
    }
  }

  lemma TwiceIsDouble(x: nat)
    requires x % Ulp(x) == 0
    ensures 2 * x % Ulp(2 * x) == 0
  {
    assert 2 * x / 2 == x;
    TwiceMultiple(x, Ulp(x));
  }

  lemma TwiceMultiple(x: nat, u: nat)
    requires u > 0 && x % u == 0
    ensures 2 * x % (2 * u) == 0
  {
    var q := x / u;
    assert x == q * u + x % u;
    assert 2 * x == q * (2 * u);
    MultipleMod(q, 2 * u);
  }

  lemma QuotientBound(n: nat, u: nat, b: nat)
    requires u > 0 && n < b * u
    ensures n / u < b
  {
    var q := n / u;
    assert n == q * u + n % u;
    LargerMultiple(b, q, u);
  }

  lemma LargerMultiple(b: nat, q: nat, u: nat)
    ensures b <= q ==> b * u <= q * u
  {
  }

  /** A number that has been rounded once does not change again. */
  lemma Idempotent(n: nat)
    ensures ToNumber(ToNumber(n)) == ToNumber(n)
  {
    hide Ulp;
    var u := Ulp(n);
    var q := n / u;
    UlpBounds(n);
    QuotientBound(n, u, TWO_TO_THE_53);
    MultipleIsDouble(n, q);
    MultipleIsDouble(n, q + 1);
    NumberExact(ToNumber(n));
  }

  ghost function Pow2(k: nat): (p: nat)
    ensures p >= 1
  {
    if k == 0 then 1 else 2 * Pow2(k - 1)
  }

  lemma Pow2Step(k: nat)
    ensures Pow2(k) == if k == 0 then 1 else 2 * Pow2(k - 1)
  {
  }

  lemma HalfInBinade(n: nat, p: nat)
    requires p >= 1 && TWO_TO_THE_53 * (2 * p) <= 2 * n < 2 * TWO_TO_THE_53 * (2 * p)
    ensures n >= TWO_TO_THE_53 && TWO_TO_THE_53 * p <= 2 * (n / 2) < 2 * TWO_TO_THE_53 * p
  {
  }

  /** In the binade of 2^(52 + k) doubles are 2^k apart. */
  lemma {:induction false} UlpInBinade(n: nat, k: nat)
    requires TWO_TO_THE_53 * Pow2(k) <= 2 * n < 2 * TWO_TO_THE_53 * Pow2(k)
    ensures Ulp(n) == Pow2(k)
    decreases k
  {
    hide Ulp, Pow2;
    Pow2Step(k);
    if k == 0 {
      UlpOne(n);
    } else {
      HalfInBinade(n, Pow2(k - 1));
      UlpInBinade(n / 2, k - 1);
      UlpTwice(n);
    }
  }

  /** Which 64-bit integers round up to 2^64. */
  lemma StaysBelow64(n: nat)
    requires n < 0x1_0000_0000_0000_0000
    ensures ToNumber(n) < 0x1_0000_0000_0000_0000 <==> n < 0x1_0000_0000_0000_0000 - 1024
  {
    if n >= 0x8000_0000_0000_0000 {
      assert Pow2(3) == 8 && Pow2(6) == 64 && Pow2(9) == 512 && Pow2(11) == 2048;
      UlpInBinade(n, 11);
      hide Ulp;
    } else {
      hide Ulp, ToNumber;
      NumberNear(n);
      UlpBounds(n);
    }
  }
}
