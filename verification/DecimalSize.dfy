/** How many decimal digits a number of so many bits can have. */
module DecimalSize {
  import opened Base
  import opened Bcd

  const ONE: nat := 1_000000000000_000000000000

  /** 10^p is at least 2^q times m / ONE. */
  ghost predicate Above(p: nat, q: nat, m: nat) {
    Pow10(p) * ONE >= Pow2(q) * m
  }

  /** The next binary digit of both exponents. */
  lemma Raise(p: nat, q: nat, m: nat, p': nat, q': nat, m': nat)
    requires Above(p, q, m) && 0 <= p' - 2 * p <= 1 && 0 <= q' - 2 * q <= 1
    requires m' * (1 + (q' - 2 * q)) * ONE <= m * m * (1 + 9 * (p' - 2 * p))
    ensures Above(p', q', m')
  {
    var c, w := 1 + 9 * (p' - 2 * p), 1 + (q' - 2 * q);
    var a, b := Pow10(p), Pow2(q);
    Pow10Add(p, p);
    Pow2Add(q, q);
    assert Pow10(p') == a * a * c;
    assert Pow2(q') == b * b * w;
    hide Pow10, Pow2;
    Squared(a, b, m, c, w, m', ONE);
  }

  lemma Squared(a: nat, b: nat, m: nat, c: nat, w: nat, m': nat, one: nat)
    requires a * one >= b * m && m' * w * one <= m * m * c && one > 0
    ensures (a * a * c) * one >= (b * b * w) * m'
  {
    var x, y := a * one, b * m;
    MulMono(x, y, x);
    MulMono(y, y, x);
    assert x * x >= y * y;
    MulMono(c, y * y, x * x);
    MulMono(b * b, m' * w * one, m * m * c);
    assert c * (x * x) == (a * a * c) * one * one;
    assert c * (y * y) == b * b * (m * m * c);
    assert b * b * (m' * w * one) == (b * b * w) * m' * one;
    Cancel(one, (a * a * c) * one, (b * b * w) * m');
  }

  lemma Cancel(d: nat, x: int, y: int)
    requires d > 0 && x * d >= y * d
    ensures x >= y
  {
    if x < y {
      MulMono(d, x + 1, y);
    }
  }

  /** The first nine binary digits. */
  lemma FirstDigits()
    ensures Above(792, 2632, 0_488710210131_713438781601)
  {
    assert Pow2(5) == 32;
    assert Pow10(1) == 10;
    hide Pow2, Pow10;
    assert Above(1, 5, 0_312500000000_000000000000);
    hide Above;
    Raise(1, 5, 0_312500000000_000000000000, 3, 10, 0_976562500000_000000000000);
    Raise(3, 10, 0_976562500000_000000000000, 6, 20, 0_953674316406_250000000000);
    Raise(6, 20, 0_953674316406_250000000000, 12, 41, 0_454747350886_464118957519);
    Raise(12, 41, 0_454747350886_464118957519, 24, 82, 0_206795153138_256918717851);
    Raise(24, 82, 0_206795153138_256918717851, 49, 164, 0_427642353614_751303382480);
    Raise(49, 164, 0_427642353614_751303382480, 99, 329, 0_914389913025_819985772601);
    Raise(99, 329, 0_914389913025_819985772601, 198, 658, 0_836108913043_366638089206);
    Raise(198, 658, 0_836108913043_366638089206, 396, 1316, 0_699078114470_560034268341);
    Raise(396, 1316, 0_699078114470_560034268341, 792, 2632, 0_488710210131_713438781601);
  }

  /** 345060773 bits need at most 103873643 digits: log10(2) is below 103873643 / 345060773. */
  lemma TenAboveTwo()
    ensures Pow10(103873643) >= Pow2(345060773)
  {
    hide Pow2, Pow10, Above;
    FirstDigits();
    Raise(792, 2632, 0_488710210131_713438781601, 1584, 5265, 0_119418834743_491752335452);
    Raise(1584, 5265, 0_119418834743_491752335452, 3169, 10530, 0_142608580914_933928578128);
    Raise(3169, 10530, 0_142608580914_933928578128, 6339, 21060, 0_203372073505_712575338005);
    Raise(6339, 21060, 0_203372073505_712575338005, 12679, 42121, 0_206801001410_064794165313);
    Raise(12679, 42121, 0_206801001410_064794165313, 25359, 84243, 0_213833270921_028104923222);
    Raise(25359, 84243, 0_213833270921_028104923222, 50719, 168486, 0_457246677527_858037235640);
    Raise(50719, 168486, 0_457246677527_858037235640, 101439, 336973, 1_045372620551_324980930557);
    Raise(101439, 336973, 1_045372620551_324980930557, 202878, 673946, 1_092803915798_344479877612);
    Raise(202878, 673946, 1_092803915798_344479877612, 405756, 1347893, 0_597110199192_097585947570);
    Raise(405756, 1347893, 0_597110199192_097585947570, 811512, 2695787, 0_178270294989_613228291023);
    Raise(811512, 2695787, 0_178270294989_613228291023, 1623025, 5391574, 0_317802980756_837192867939);
    Raise(1623025, 5391574, 0_317802980756_837192867939, 3246051, 10783149, 0_504993672889_653155546670);
    Raise(3246051, 10783149, 0_504993672889_653155546670, 6492102, 21566298, 0_255018609658_582012443282);
    Raise(6492102, 21566298, 0_255018609658_582012443282, 12984205, 43132596, 0_650344912721_962188851432);
    Raise(12984205, 43132596, 0_650344912721_962188851432, 25968410, 86265193, 0_211474252751_668308436526);
    Raise(25968410, 86265193, 0_211474252751_668308436526, 51936821, 172530386, 0_447213595768_764911224444);
    Raise(51936821, 172530386, 0_447213595768_764911224444, 103873643, 345060773, 1_000000001202_141324540391);
    Enough(103873643, 345060773, 1_000000001202_141324540391);
  }

  lemma Enough(p: nat, q: nat, m: nat)
    requires Above(p, q, m) && m >= ONE
    ensures Pow10(p) >= Pow2(q)
  {
    MulMono(Pow2(q), ONE, m);
    Cancel(ONE, Pow10(p), Pow2(q));
  }

  // ----- powers of powers

  function Power(b: nat, n: nat): nat {
    if n == 0 then 1 else b * Power(b, n - 1)
  }

  lemma {:induction false} Pow2Times(a: nat, n: nat)
    ensures Pow2(a * n) == Power(Pow2(a), n)
  {
    if n > 0 {
      Pow2Times(a, n - 1);
      Pow2Add(a, a * (n - 1));
      assert a * n == a + a * (n - 1);
    } else {
      assert a * n == 0;
    }
  }

  lemma {:induction false} Pow10Times(a: nat, n: nat)
    ensures Pow10(a * n) == Power(Pow10(a), n)
  {
    if n > 0 {
      Pow10Times(a, n - 1);
      Pow10Add(a, a * (n - 1));
      assert a * n == a + a * (n - 1);
    } else {
      assert a * n == 0;
    }
  }

  lemma {:induction false} PowerMono(a: nat, b: nat, n: nat)
    requires a <= b
    ensures Power(a, n) <= Power(b, n)
  {
    if n > 0 {
      PowerMono(a, b, n - 1);
      MulMono(a, Power(a, n - 1), Power(b, n - 1));
      MulMono(Power(b, n - 1), a, b);
    }
  }

  lemma Pow10Strict(a: nat, b: nat)
    requires a < b
    ensures Pow10(a) < Pow10(b)
  {
    Pow10Add(a, b - a);
    assert Pow10(b - a) == 10 * Pow10(b - a - 1);
    MulMono(Pow10(a), 2, Pow10(b - a));
  }

  // ----- the digit count, in doubles

  /** 0.3010299956639812 as a double is FACTOR / UNIT, and UNIT is 2^54. */
  const FACTOR: nat := 5422874305198591
  const UNIT: nat := 18014398509481984

  /** A double is a whole number up to this one, 2^53, times a power of two. */
  const MANTISSAS: nat := 9007199254740992

  const INT_LIMIT: nat := 0x8000_0000

  /** How many low bits of n a double cannot hold. */
  function Excess(n: nat): (e: nat)
    ensures n > 0 ==> Pow2(e) <= n
  {
    if n < MANTISSAS then 0 else 1 + Excess(n / 2)
  }

  /** The multiple of w nearest to n, an even one when n is halfway. */
  function Nearest(n: nat, w: nat): nat
    requires 0 < w
  {
    QuotientNat(n, w);
    var q, r := n / w, n % w;
    (if 2 * r > w || (2 * r == w && q % 2 == 1) then q + 1 else q) * w
  }

  lemma NearestIs(n: nat, w: nat)
    requires 0 < w
    ensures Nearest(n, w) == n / w * w || Nearest(n, w) == (n / w + 1) * w
    ensures n / w * w <= Nearest(n, w) && 2 * Nearest(n, w) <= 2 * n + w && 2 * n <= 2 * Nearest(n, w) + w
    ensures w <= n || n == 0 ==> Nearest(n, w) <= 2 * n
  {
    var q, r := n / w, n % w;
    assert n == w * q + r && (q + 1) * w == w * q + w && q * w == w * q;
    if n == 0 {
      DivUnique(0, w, 0, 0);
    }
  }

  /** n rounded to the nearest double, to an even mantissa when it is halfway. */
  function Rounded(n: nat): nat {
    Nearest(n, Pow2(Excess(n)))
  }

  /**
   * `nbig * NB * 0.3010299956639812 + 1` in doubles, cut to an integer;
   * for numbers of bits that no int can be, without rounding.
   */
  function DigitsFor(bits: nat): nat {
    var product := if bits < INT_LIMIT then Rounded(bits * FACTOR) else bits * FACTOR;
    var sum := if bits < INT_LIMIT then Rounded(product + UNIT) else product + UNIT;
    QuotientNat(sum, UNIT);
    sum / UNIT
  }

  lemma {:induction false} ExcessBelow(n: nat, k: nat)
    requires n < MANTISSAS * Pow2(k)
    ensures Excess(n) <= k
    decreases k
  {
    if k > 0 && n >= MANTISSAS {
      assert Pow2(k) == 2 * Pow2(k - 1);
      hide Pow2;
      ExcessBelow(n / 2, k - 1);
    } else if k == 0 {
      assert Pow2(0) == 1;
    }
  }

  lemma UnitIs()
    ensures Pow2(54) == UNIT
  {
    assert Pow2(9) == 512;
    Pow2Add(9, 9);
    Pow2Add(18, 9);
    Pow2Add(27, 27);
  }

  /** What rounding gives is a double, and no further from n than half the step between doubles there. */
  lemma RoundedNear(n: nat)
    ensures var w, x := Pow2(Excess(n)), Rounded(n);
            && n / w < MANTISSAS && (x == n / w * w || x == (n / w + 1) * w)
            && 2 * x <= 2 * n + w && 2 * n <= 2 * x + w
  {
    ExcessEnough(n);
    NearestIs(n, Pow2(Excess(n)));
    hide Nearest, Pow2, Excess;
  }

  lemma {:induction false} ExcessEnough(n: nat)
    ensures n / Pow2(Excess(n)) < MANTISSAS
  {
    if n >= MANTISSAS {
      ExcessEnough(n / 2);
      var w := Pow2(Excess(n / 2));
      assert Pow2(Excess(n)) == 2 * w;
      DivDiv(n, 2, w);
    } else {
      assert Pow2(0) == 1;
    }
  }

  /** A whole number of units is a double, so rounding does not go below it. */
  lemma RoundedAbove(n: nat, k: nat)
    requires k * UNIT <= n < MANTISSAS * UNIT
    ensures k * UNIT <= Rounded(n)
  {
    UnitIs();
    ExcessBelow(n, 54);
    var e := Excess(n);
    Pow2Add(e, 54 - e);
    hide Pow2;
    Multiple(n, Pow2(e), Pow2(54 - e), k);
    NearestIs(n, Pow2(e));
  }

  lemma RoundedAtMost(n: nat)
    ensures Rounded(n) <= 2 * n
  {
    assert Pow2(0) == 1;
    NearestIs(n, Pow2(Excess(n)));
  }

  lemma Multiple(n: nat, w: nat, v: nat, k: nat)
    requires w > 0 && k * (w * v) <= n
    ensures k * (w * v) <= n / w * w
  {
    assert k * (w * v) == w * (k * v);
    if n / w < k * v {
      DivBelow(n, w, k * v);
    }
    MulMono(w, k * v, n / w);
  }

  /** Rounding takes nothing off the number of digits. */
  lemma DigitsAtLeast(bits: nat)
    ensures bits * FACTOR / UNIT + 1 <= DigitsFor(bits)
  {
    var n := bits * FACTOR;
    var k := n / UNIT;
    QuotientNat(n, UNIT);
    if bits < INT_LIMIT {
      RoundedAtMost(n);
      hide Rounded;
      RoundedAbove(n, k);
      RoundedAbove(Rounded(n) + UNIT, k + 1);
    }
  }

  /** FACTOR / UNIT is the double nearest to the constant of the code. */
  lemma FactorIs()
    ensures MANTISSAS / 2 <= FACTOR < MANTISSAS
    ensures 2 * (FACTOR * 10000000000000000 - 3010299956639812 * UNIT) <= 10000000000000000
    ensures 2 * (3010299956639812 * UNIT - FACTOR * 10000000000000000) <= 10000000000000000
  {
  }

  lemma {:induction false} ExcessSmall(n: nat)
    requires n > 0
    ensures Pow2(Excess(n)) * (MANTISSAS / 2) <= n || Excess(n) == 0
  {
    if n >= MANTISSAS {
      var w := Pow2(Excess(n / 2));
      assert Pow2(Excess(n)) == 2 * w;
      if n / 2 >= MANTISSAS {
        ExcessSmall(n / 2);
      } else {
        assert Pow2(0) == 1;
      }
    }
  }

  /** Rounding adds one part in 2^52 at most. */
  lemma RoundedBelow(n: nat)
    ensures Rounded(n) * MANTISSAS <= n * MANTISSAS + 2 * n
  {
    if n > 0 {
      RoundedNear(n);
      ExcessSmall(n);
      if Excess(n) == 0 {
        assert Pow2(0) == 1;
      }
    }
  }

  /** The digits are no more than the product says, and at most one more by rounding. */
  lemma DigitsAtMost(bits: nat)
    requires bits < INT_LIMIT
    ensures DigitsFor(bits) <= bits * FACTOR / UNIT + 2
  {
    var n := bits * FACTOR;
    RoundedBelow(n);
    var x := Rounded(n) + UNIT;
    RoundedBelow(x);
    hide Rounded;
  }

  /** p / q is between log10(2) and the constant. */
  lemma Ratio(bits: nat)
    ensures bits * 103873643 < DigitsFor(bits) * 345060773
  {
    DigitsAtLeast(bits);
    hide DigitsFor;
  }

  /** So many decimal digits hold any number of so many bits. */
  lemma DigitsSuffice(bits: nat)
    ensures Pow2(bits) < Pow10(DigitsFor(bits))
  {
    hide Pow2, Pow10, Power, DigitsFor;
    ghost var p: nat, q: nat, d := 103873643, 345060773, DigitsFor(bits);
    TenAboveTwo();
    Ratio(bits);
    PowersCompare(bits, p, q, d);
  }

  lemma PowersCompare(bits: nat, p: nat, q: nat, d: nat)
    requires Pow10(p) >= Pow2(q) && bits * p < d * q
    ensures Pow2(bits) < Pow10(d)
  {
    hide Pow2, Pow10, Power;
    Pow10Strict(p * bits, d * q);
    Pow10Times(p, bits);
    Pow10Times(d, q);
    PowerMono(Pow2(q), Pow10(p), bits);
    Pow2Times(q, bits);
    Pow2Times(bits, q);
    assert q * bits == bits * q;
    if Pow10(d) <= Pow2(bits) {
      PowerMono(Pow10(d), Pow2(bits), q);
    }
  }
}
