/** Shared vocabulary: options, bytes and powers of two. */
module Base {
  datatype Option<+T> = None | Some(value: T)

  /** A plain C `char`, signed as on every platform the makefiles target. */
  type byte = x: int | -128 <= x < 128

  type Bytes = seq<byte>

  function Min(a: int, b: int): int {
    if a <= b then a else b
  }

  /** 2^k, the model of `1 << k`. */
  function Pow2(k: nat): (p: nat)
    ensures p > 0
  {
    if k == 0 then 1 else 2 * Pow2(k - 1)
  }

  /** x >> k. */
  function Shr(x: nat, k: nat): (r: nat) {
    QuotientNat(x, Pow2(k));
    x / Pow2(k)
  }

  lemma QuotientNat(x: nat, d: nat)
    requires d > 0
    ensures x / d >= 0
  {
    if x / d < 0 {
      MulMono(d, x / d, -1);
    }
  }

  lemma {:induction false} Pow2Add(a: nat, b: nat)
    ensures Pow2(a + b) == Pow2(a) * Pow2(b)
  {
    if a > 0 {
      Pow2Add(a - 1, b);
      assert Pow2(a + b) == 2 * Pow2((a - 1) + b);
    }
  }

  /** Shifting right twice is shifting right once by the sum. */
  lemma ShiftShift(x: nat, a: nat, b: nat)
    ensures x / Pow2(a) / Pow2(b) == x / Pow2(a + b)
  {
    Pow2Add(a, b);
    DivDiv(x, Pow2(a), Pow2(b));
  }

  lemma DivDiv(x: nat, a: nat, b: nat)
    requires a > 0 && b > 0
    ensures a * b > 0 && x / a / b == x / (a * b)
  {
    var q, r := x / a, x % a;
    var q2, r2 := q / b, q % b;
    assert x == a * q + r && q == b * q2 + r2;
    assert x == (a * b) * q2 + (a * r2 + r) by {
      assert a * (b * q2 + r2) == (a * b) * q2 + a * r2;
    }
    assert a * r2 + r < a * b by {
      assert r2 + 1 <= b;
      MulMono(a, r2 + 1, b);
    }
    DivUnique(x, a * b, q2, a * r2 + r);
  }

  lemma MulMono(a: nat, x: int, y: int)
    requires x <= y
    ensures a * x <= a * y
  {
  }

  /** Euclidean division is unique. */
  lemma DivUnique(x: int, d: int, q: int, r: int)
    requires d > 0 && x == d * q + r && 0 <= r < d
    ensures x / d == q && x % d == r
  {
    var q', r' := x / d, x % d;
    assert d * q' + r' == d * q + r;
    if q' < q {
      MulMono(d, q' + 1, q);
    } else if q < q' {
      MulMono(d, q + 1, q');
    }
  }

  /** A quotient is below a bound exactly when the dividend is below the scaled bound. */
  lemma DivBelow(x: nat, d: nat, b: nat)
    requires d > 0
    ensures x / d < b <==> x < d * b
  {
    if x / d < b {
      MulMono(d, x / d + 1, b);
    } else {
      MulMono(d, b, x / d);
    }
  }

  lemma Pow2Mono(a: nat, b: nat)
    requires a <= b
    ensures Pow2(a) <= Pow2(b)
  {
    Pow2Add(a, b - a);
    MulMono(Pow2(a), 1, Pow2(b - a));
  }

  /** Some element of a set of numbers. */
  ghost function PickKey(keys: set<nat>): (a: nat)
    requires keys != {}
    ensures a in keys
  {
    var a :| a in keys;
    a
  }

  /** `memmove` of n elements to a lower or equal place. */
  method MoveDown<T>(a: array<T>, from: nat, to: nat, n: nat)
    requires to <= from && from + n <= a.Length
    modifies a
    ensures forall k :: to <= k < to + n ==> a[k] == old(a[from + (k - to)])
    ensures forall k :: 0 <= k < a.Length && !(to <= k < to + n) ==> a[k] == old(a[k])
  {
    for i := 0 to n
      invariant forall k :: to <= k < to + i ==> a[k] == old(a[from + (k - to)])
      invariant forall k :: 0 <= k < a.Length && !(to <= k < to + i) ==> a[k] == old(a[k])
    {
      a[to + i] := a[from + i];
    }
  }
}
