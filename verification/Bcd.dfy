/** Machine words as sixteen 4-bit groups, and the addition of two BCD words without a decimal adder. */
module Bcd {

  const NIBBLES := 16

  /** A 64-bit word, least significant group first. */
  type Word = w: seq<nat> | |w| == NIBBLES && forall i :: 0 <= i < |w| ==> w[i] < 16 witness seq(NIBBLES, _ => 0)

  // ----- machine arithmetic, modulo 2^64

  function Carry(a: Word, b: Word, i: nat): (c: nat)
    requires i <= NIBBLES
    ensures c <= 1
  {
    if i == 0 then 0 else (a[i - 1] + b[i - 1] + Carry(a, b, i - 1)) / 16
  }

  function Plus(a: Word, b: Word): Word {
    seq(NIBBLES, i requires 0 <= i < NIBBLES => (a[i] + b[i] + Carry(a, b, i)) % 16)
  }

  function Borrow(a: Word, b: Word, i: nat): (c: nat)
    requires i <= NIBBLES
    ensures c <= 1
  {
    if i == 0 then 0 else if a[i - 1] < b[i - 1] + Borrow(a, b, i - 1) then 1 else 0
  }

  function Minus(a: Word, b: Word): Word {
    seq(NIBBLES, i requires 0 <= i < NIBBLES => (a[i] + 16 - b[i] - Borrow(a, b, i)) % 16)
  }

  /** w & MASK and w & ~MASK, for MASK == 0xF0F0F0F0F0F0F0F0. */
  function High(w: Word): Word {
    seq(NIBBLES, i requires 0 <= i < NIBBLES => if i % 2 == 1 then w[i] else 0)
  }

  function Low(w: Word): Word {
    seq(NIBBLES, i requires 0 <= i < NIBBLES => if i % 2 == 0 then w[i] else 0)
  }

  /** w >> 4. */
  function Shift4(w: Word): Word {
    seq(NIBBLES, i requires 0 <= i < NIBBLES => Above(w, i))
  }

  /** The group above group i, 0 above the top. */
  function Above(w: Word, i: nat): (c: nat)
    ensures c < 16
  {
    if i + 1 < NIBBLES then w[i + 1] else 0
  }

  predicate IsBits(w: Word) {
    forall i :: 0 <= i < NIBBLES ==> w[i] <= 1
  }

  /** a | b, for words whose groups are 0 or 1. */
  function Or(a: Word, b: Word): Word
    requires IsBits(a) && IsBits(b)
  {
    seq(NIBBLES, i requires 0 <= i < NIBBLES => if a[i] == 1 then 1 else b[i])
  }

  function Small(c: nat): Word
    requires c < 16
  {
    [c] + seq(NIBBLES - 1, _ => 0)
  }

  /** c << 60. */
  function Top(c: nat): Word
    requires c < 16
  {
    seq(NIBBLES - 1, _ => 0) + [c]
  }

  function Bias(): (w: Word)
    ensures forall i :: 0 <= i < NIBBLES ==> w[i] == 6
  {
    seq(NIBBLES, _ => 6)
  }

  function Value(w: seq<nat>): nat {
    if w == [] then 0 else w[0] + 16 * Value(w[1..])
  }

  function FromNat(x: nat, n: nat): (w: seq<nat>)
    ensures |w| == n && forall i :: 0 <= i < n ==> w[i] < 16
  {
    if n == 0 then [] else [x % 16] + FromNat(x / 16, n - 1)
  }

  /** 0x16 * w. */
  function Times22(w: Word): Word {
    FromNat(22 * Value(w), NIBBLES)
  }

  // ----- the group operations are the integer ones

  function Pow16(n: nat): nat {
    if n == 0 then 1 else 16 * Pow16(n - 1)
  }

  lemma PowStep(n: nat, c: nat)
    requires n > 0
    ensures Pow16(n) * c == 16 * (Pow16(n - 1) * c)
  {
  }

  lemma ValueStep(w: seq<nat>, i: nat)
    requires i < |w|
    ensures Value(w[i..]) == w[i] + 16 * Value(w[i + 1..])
  {
    assert w[i..][1..] == w[i + 1..];
  }

  lemma {:induction false} PlusFrom(a: Word, b: Word, i: nat)
    requires i <= NIBBLES
    ensures Value(Plus(a, b)[i..]) + Pow16(NIBBLES - i) * Carry(a, b, NIBBLES)
            == Value(a[i..]) + Value(b[i..]) + Carry(a, b, i)
    decreases NIBBLES - i
  {
    if i == NIBBLES {
      assert Pow16(0) == 1;
    } else {
      PlusFrom(a, b, i + 1);
      var top := Carry(a, b, NIBBLES);
      PowStep(NIBBLES - i, top);
      var x := a[i] + b[i] + Carry(a, b, i);
      assert Plus(a, b)[i] == x % 16 && Carry(a, b, i + 1) == x / 16;
      hide Pow16, Carry, Plus, Value;
      ValueStep(Plus(a, b), i);
      ValueStep(a, i);
      ValueStep(b, i);
      assert x == 16 * (x / 16) + x % 16;
    }
  }

  /** Plus is addition modulo 2^64. */
  lemma PlusIsAddition(a: Word, b: Word)
    ensures Value(Plus(a, b)) + Pow16(NIBBLES) * Carry(a, b, NIBBLES) == Value(a) + Value(b)
  {
    hide Pow16, Value, Plus;
    PlusFrom(a, b, 0);
    assert Plus(a, b)[0..] == Plus(a, b) && a[0..] == a && b[0..] == b;
  }

  lemma {:induction false} MinusFrom(a: Word, b: Word, i: nat)
    requires i <= NIBBLES
    ensures Value(Minus(a, b)[i..]) + Value(b[i..]) + Borrow(a, b, i)
            == Value(a[i..]) + Pow16(NIBBLES - i) * Borrow(a, b, NIBBLES)
    decreases NIBBLES - i
  {
    if i == NIBBLES {
      assert Pow16(0) == 1;
    } else {
      MinusFrom(a, b, i + 1);
      var top := Borrow(a, b, NIBBLES);
      PowStep(NIBBLES - i, top);
      assert Minus(a, b)[i] + b[i] + Borrow(a, b, i) == a[i] + 16 * Borrow(a, b, i + 1);
      hide Pow16, Borrow, Minus, Value;
      ValueStep(Minus(a, b), i);
      ValueStep(a, i);
      ValueStep(b, i);
    }
  }

  /** Minus is subtraction modulo 2^64. */
  lemma MinusIsSubtraction(a: Word, b: Word)
    ensures Value(Minus(a, b)) + Value(b) == Value(a) + Pow16(NIBBLES) * Borrow(a, b, NIBBLES)
  {
    hide Pow16, Value, Minus;
    MinusFrom(a, b, 0);
    assert Minus(a, b)[0..] == Minus(a, b) && a[0..] == a && b[0..] == b;
  }

  /** A number has one representation, whatever multiple of 16^n is added to it. */
  lemma {:induction false} FromValue(s: seq<nat>, c: nat)
    requires forall i :: 0 <= i < |s| ==> s[i] < 16
    ensures FromNat(Value(s) + Pow16(|s|) * c, |s|) == s
    decreases |s|
  {
    if s != [] {
      var x := Value(s[1..]) + Pow16(|s| - 1) * c;
      FromValue(s[1..], c);
      PowStep(|s|, c);
      LowDigit(s[0], x);
      hide Pow16;
      assert Value(s) + Pow16(|s|) * c == s[0] + 16 * x;
      assert s == [s[0]] + s[1..];
    }
  }

  lemma LowDigit(d: nat, x: nat)
    requires d < 16
    ensures (d + 16 * x) % 16 == d && (d + 16 * x) / 16 == x
  {
  }

  /** Multiplying a word of zeros and ones by 0x16 gives 6 in place and 1 in the group above. */
  function SixAndOne(w: seq<nat>, below: nat): seq<nat> {
    if w == [] then [] else [6 * w[0] + below] + SixAndOne(w[1..], w[0])
  }

  lemma {:induction false} SixAndOneValue(w: seq<nat>, below: nat)
    requires forall i :: 0 <= i < |w| ==> w[i] <= 1
    ensures |SixAndOne(w, below)| == |w|
    ensures w != [] ==> Value(SixAndOne(w, below)) + Pow16(|w|) * w[|w| - 1] == 22 * Value(w) + below
    ensures forall i :: 0 <= i < |w| ==> SixAndOne(w, below)[i] == 6 * w[i] + (if i == 0 then below else w[i - 1])
    decreases |w|
  {
    if w != [] {
      SixAndOneValue(w[1..], w[0]);
      var t := SixAndOne(w[1..], w[0]);
      assert SixAndOne(w, below)[1..] == t;
      if |w| > 1 {
        assert w[1..][|w| - 2] == w[|w| - 1];
        assert Pow16(|w|) * w[|w| - 1] == 16 * (Pow16(|w| - 1) * w[|w| - 1]);
      } else {
        assert Value(w[1..]) == 0 && Value(t) == 0;
      }
    }
  }

  lemma Times22Is(w: Word, i: nat)
    requires i < NIBBLES && IsBits(w)
    ensures Times22(w)[i] == 6 * w[i] + (if i == 0 then 0 else w[i - 1])
  {
    hide Pow16, Value, FromNat;
    SixAndOneValue(w, 0);
    var s := SixAndOne(w, 0);
    forall j | 0 <= j < |s|
      ensures s[j] < 16
    {
      assert w[j] <= 1 && (j > 0 ==> w[j - 1] <= 1);
    }
    hide IsBits, SixAndOne;
    FromValue(s, w[NIBBLES - 1]);
  }

  // ----- sums in separate lanes

  /** All groups of the given parity are zero. */
  predicate Clear(w: Word, parity: nat) {
    forall i :: 0 <= i < NIBBLES && i % 2 == parity ==> w[i] == 0
  }

  /** With every second group clear, carries stop in the clear groups. */
  lemma {:induction false} LaneCarry(a: Word, b: Word, parity: nat, i: nat)
    requires parity < 2 && Clear(a, parity) && Clear(b, parity) && i <= NIBBLES
    ensures Carry(a, b, i) == if i == 0 || i % 2 != parity then 0 else (a[i - 1] + b[i - 1]) / 16
    decreases i
  {
    if i > 0 {
      LaneCarry(a, b, parity, i - 1);
    }
  }

  lemma PlusLanes(a: Word, b: Word, parity: nat, i: nat)
    requires parity < 2 && Clear(a, parity) && Clear(b, parity) && i < NIBBLES
    ensures Plus(a, b)[i] == if i % 2 != parity then (a[i] + b[i]) % 16
                             else if i == 0 then 0 else (a[i - 1] + b[i - 1]) / 16
  {
    LaneCarry(a, b, parity, i);
    if i % 2 == parity {
      assert a[i] == 0 && b[i] == 0;
    }
  }

  /** Without a carry out of any group, groups add up separately. */
  lemma {:induction false} NoCarry(a: Word, b: Word, i: nat)
    requires i <= NIBBLES && forall j :: 0 <= j < i ==> a[j] + b[j] < 16
    ensures Carry(a, b, i) == 0
    decreases i
  {
    if i > 0 {
      NoCarry(a, b, i - 1);
      assert a[i - 1] + b[i - 1] < 16;
    }
  }

  lemma PlusApart(a: Word, b: Word)
    requires forall j :: 0 <= j < NIBBLES ==> a[j] + b[j] < 16
    ensures forall i :: 0 <= i < NIBBLES ==> Plus(a, b)[i] == a[i] + b[i]
  {
    forall i | 0 <= i < NIBBLES
      ensures Plus(a, b)[i] == a[i] + b[i]
    {
      NoCarry(a, b, i);
      assert a[i] + b[i] < 16;
    }
  }

  lemma {:induction false} NoBorrow(a: Word, b: Word, i: nat)
    requires i <= NIBBLES && forall j :: 0 <= j < i ==> b[j] <= a[j]
    ensures Borrow(a, b, i) == 0
    decreases i
  {
    if i > 0 {
      NoBorrow(a, b, i - 1);
      assert b[i - 1] <= a[i - 1];
    }
  }

  lemma MinusApart(a: Word, b: Word)
    requires forall j :: 0 <= j < NIBBLES ==> b[j] <= a[j]
    ensures forall i :: 0 <= i < NIBBLES ==> Minus(a, b)[i] == a[i] - b[i]
  {
    forall i | 0 <= i < NIBBLES
      ensures Minus(a, b)[i] == a[i] - b[i]
    {
      NoBorrow(a, b, i);
      assert b[i] <= a[i];
    }
  }

  // ----- the ripple loop

  /** x holds biased digits, y digits and a carry. */
  predicate Addends(x: Word, y: Word) {
    forall i :: 0 <= i < NIBBLES ==> 6 <= x[i] && y[i] <= if i == 0 then 10 else 9
  }

  /** Group i with the carries k: 16 is taken off, and the bias put back, where a carry has left. */
  function Lane(x: Word, y: Word, k: Word, i: nat): int
    requires i < NIBBLES
  {
    x[i] + y[i] + k[i] - 10 * Above(k, i)
  }

  /** The carries handled so far are real ones. */
  predicate Real(x: Word, y: Word, k: Word) {
    IsBits(k) && k[0] == 0 && forall i :: 0 <= i < NIBBLES && Above(k, i) == 1 ==> x[i] + y[i] + k[i] >= 16
  }

  lemma LaneBounds(x: Word, y: Word, k: Word, i: nat)
    requires i < NIBBLES && Addends(x, y) && Real(x, y, k)
    ensures 6 <= Lane(x, y, k, i) < 32 && (Above(k, i) == 1 ==> Lane(x, y, k, i) < 16)
  {
    assert x[i] < 16 && k[i] <= 1 && Above(k, i) <= 1;
  }

  /** What stays in a group that has received v < 32, and what overflows. */
  function Rem(v: int): int {
    if v < 16 then v else v - 16
  }

  function Quot(v: int): int {
    if v < 16 then 0 else 1
  }

  /** The overflow of the group below. */
  function Over(x: Word, y: Word, k: Word, i: nat): int
    requires i < NIBBLES
  {
    if i == 0 then 0 else Quot(Lane(x, y, k, i - 1))
  }

  /** hgh and low hold the lanes, overflows in the groups above them. */
  predicate Spread(hgh: Word, low: Word, x: Word, y: Word, k: Word) {
    forall i :: 0 <= i < NIBBLES ==>
      (if i % 2 == 1 then hgh else low)[i] == Rem(Lane(x, y, k, i))
      && (if i % 2 == 1 then low else hgh)[i] == Over(x, y, k, i)
  }

  function Zero(): (w: Word)
    ensures forall i :: 0 <= i < NIBBLES ==> w[i] == 0
  {
    seq(NIBBLES, _ => 0)
  }

  lemma SpreadStart(x: Word, y: Word)
    requires Addends(x, y)
    ensures Real(x, y, Zero()) && Spread(Plus(High(x), High(y)), Plus(Low(x), Low(y)), x, y, Zero())
  {
    forall i | 0 <= i < NIBBLES
      ensures (if i % 2 == 1 then Plus(High(x), High(y)) else Plus(Low(x), Low(y)))[i] == Rem(Lane(x, y, Zero(), i))
      ensures (if i % 2 == 1 then Plus(Low(x), Low(y)) else Plus(High(x), High(y)))[i] == Over(x, y, Zero(), i)
    {
      StartAt(x, y, i);
    }
  }

  lemma StartAt(x: Word, y: Word, i: nat)
    requires i < NIBBLES
    ensures (if i % 2 == 1 then Plus(High(x), High(y)) else Plus(Low(x), Low(y)))[i] == Rem(Lane(x, y, Zero(), i))
    ensures (if i % 2 == 1 then Plus(Low(x), Low(y)) else Plus(High(x), High(y)))[i] == Over(x, y, Zero(), i)
  {
    if i == 0 {
      OverNone(x, x, y);
    } else {
      HighPlus(x, y, i);
    }
    LowPlus(x, y, i);
    hide Plus, High, Low;
  }

  /** The new overflows, one bit for each group; none where a carry has been handled. */
  ghost predicate Fresh(x: Word, y: Word, k: Word, ic: Word) {
    IsBits(ic) && forall i :: 0 <= i < NIBBLES ==> ic[i] == Over(x, y, k, i) && (k[i] == 1 ==> ic[i] == 0)
  }

  lemma OverBounds(x: Word, y: Word, k: Word, i: nat)
    requires i < NIBBLES && Addends(x, y) && Real(x, y, k)
    ensures 0 <= Over(x, y, k, i) <= 1 && (k[i] == 1 ==> Over(x, y, k, i) == 0)
  {
    if i > 0 {
      LaneBounds(x, y, k, i - 1);
    }
  }

  /** The overflows in one word: (hgh & ~MASK) + (low & MASK). */
  lemma Overflows(hgh: Word, low: Word, x: Word, y: Word, k: Word)
    requires Addends(x, y) && Real(x, y, k) && Spread(hgh, low, x, y, k)
    ensures Fresh(x, y, k, Plus(Low(hgh), High(low)))
  {
    PlusApart(Low(hgh), High(low));
    forall i | 0 <= i < NIBBLES
      ensures Plus(Low(hgh), High(low))[i] == Over(x, y, k, i) <= 1 && (k[i] == 1 ==> Over(x, y, k, i) == 0)
    {
      hide Plus, Lane, Real, Addends;
      OverBounds(x, y, k, i);
      assert (if i % 2 == 1 then low else hgh)[i] == Over(x, y, k, i);
      hide Over;
    }
  }

  /** After a round, the new overflows have been handled too. */
  lemma SpreadStep(hgh: Word, low: Word, x: Word, y: Word, k: Word, ic: Word)
    requires Addends(x, y) && Real(x, y, k) && Spread(hgh, low, x, y, k)
    requires Fresh(x, y, k, ic)
    ensures var t := Times22(Shift4(ic));
            && Real(x, y, Or(k, ic))
            && Spread(Plus(High(hgh), High(t)), Plus(Low(low), Low(t)), x, y, Or(k, ic))
  {
    var t, k' := Times22(Shift4(ic)), Or(k, ic);
    forall i | 0 <= i < NIBBLES
      ensures t[i] == 6 * Above(ic, i) + ic[i]
    {
      SixAt(ic, i);
    }
    hide Times22, Shift4;
    RealStep(x, y, k, ic);
    forall i | 0 <= i < NIBBLES
      ensures (if i % 2 == 1 then Plus(High(hgh), High(t)) else Plus(Low(low), Low(t)))[i] == Rem(Lane(x, y, k', i))
      ensures (if i % 2 == 1 then Plus(Low(low), Low(t)) else Plus(High(hgh), High(t)))[i] == Over(x, y, k', i)
    {
      hide Plus, Fresh, Real, Addends, Or, Spread, Lane, Over, High, Low;
      LaneHalf(hgh, low, x, y, k, ic, t, i);
      if i > 0 {
        OverHalf(hgh, low, x, y, k, ic, t, i);
      } else {
        OverNone(hgh, low, t);
      }
    }
  }

  /** Odd groups add up, with their overflows in the even ones; and the other way round. */
  lemma HighPlus(a: Word, b: Word, i: nat)
    requires 0 < i < NIBBLES
    ensures Plus(High(a), High(b))[i] == if i % 2 == 1 then Rem(a[i] + b[i]) else Quot(a[i - 1] + b[i - 1])
  {
    PlusLanes(High(a), High(b), 0, i);
    hide Plus;
  }

  lemma LowPlus(a: Word, b: Word, i: nat)
    requires i < NIBBLES
    ensures Plus(Low(a), Low(b))[i] == if i % 2 == 0 then Rem(a[i] + b[i]) else Quot(a[i - 1] + b[i - 1])
  {
    PlusLanes(Low(a), Low(b), 1, i);
    hide Plus;
  }

  lemma LaneHalf(hgh: Word, low: Word, x: Word, y: Word, k: Word, ic: Word, t: Word, i: nat)
    requires i < NIBBLES && t[i] == 6 * Above(ic, i) + ic[i]
    requires Addends(x, y) && Real(x, y, k) && Spread(hgh, low, x, y, k) && Fresh(x, y, k, ic)
    ensures (if i % 2 == 1 then Plus(High(hgh), High(t)) else Plus(Low(low), Low(t)))[i]
            == Rem(Lane(x, y, Or(k, ic), i))
  {
    SpreadAt(hgh, low, x, y, k, i);
    LaneStep(x, y, k, ic, i);
    hide Lane, Real, Fresh, Addends, Spread, Or, Above, Plus, High, Low;
    if i % 2 == 1 {
      HighPlus(hgh, t, i);
    } else {
      LowPlus(low, t, i);
    }
  }

  lemma OverHalf(hgh: Word, low: Word, x: Word, y: Word, k: Word, ic: Word, t: Word, i: nat)
    requires 0 < i < NIBBLES && t[i - 1] == 6 * Above(ic, i - 1) + ic[i - 1]
    requires Addends(x, y) && Real(x, y, k) && Spread(hgh, low, x, y, k) && Fresh(x, y, k, ic)
    ensures (if i % 2 == 1 then Plus(Low(low), Low(t)) else Plus(High(hgh), High(t)))[i] == Over(x, y, Or(k, ic), i)
  {
    hide Lane, Real, Fresh, Addends, Spread, Or, Above, Plus, High, Low, Rem;
    SpreadAt(hgh, low, x, y, k, i - 1);
    LaneStep(x, y, k, ic, i - 1);
    if i % 2 == 1 {
      LowPlus(low, t, i);
    } else {
      HighPlus(hgh, t, i);
    }
  }

  lemma SpreadAt(hgh: Word, low: Word, x: Word, y: Word, k: Word, i: nat)
    requires i < NIBBLES && Spread(hgh, low, x, y, k)
    ensures i % 2 == 1 ==> hgh[i] == Rem(Lane(x, y, k, i)) && low[i] == Over(x, y, k, i)
    ensures i % 2 == 0 ==> low[i] == Rem(Lane(x, y, k, i)) && hgh[i] == Over(x, y, k, i)
  {
    hide Lane, Over;
    assert (if i % 2 == 1 then hgh else low)[i] == Rem(Lane(x, y, k, i));
  }

  lemma OverNone(hgh: Word, low: Word, t: Word)
    ensures Plus(High(hgh), High(t))[0] == 0
  {
  }

  lemma SixAt(ic: Word, i: nat)
    requires i < NIBBLES && IsBits(ic) && ic[0] == 0
    ensures Times22(Shift4(ic))[i] == 6 * Above(ic, i) + ic[i]
  {
    var v := Shift4(ic);
    assert v[i] == Above(ic, i) && (i > 0 ==> v[i - 1] == ic[i]);
    assert IsBits(v);
    hide Shift4, Above, IsBits;
    Times22Is(v, i);
  }

  lemma RealStep(x: Word, y: Word, k: Word, ic: Word)
    requires Addends(x, y) && Real(x, y, k)
    requires Fresh(x, y, k, ic)
    ensures Real(x, y, Or(k, ic))
  {
    forall i | 0 <= i < NIBBLES && Above(Or(k, ic), i) == 1
      ensures x[i] + y[i] + Or(k, ic)[i] >= 16
    {
      assert ic[i + 1] == Over(x, y, k, i + 1);
    }
  }

  lemma LaneStep(x: Word, y: Word, k: Word, ic: Word, i: nat)
    requires i < NIBBLES && Addends(x, y) && Real(x, y, k)
    requires Fresh(x, y, k, ic)
    ensures var r := Rem(Lane(x, y, k, i)) + 6 * Above(ic, i) + ic[i];
            && 0 <= r < 32
            && if i + 1 < NIBBLES then r == Lane(x, y, Or(k, ic), i) else Rem(r) == Rem(Lane(x, y, Or(k, ic), i))
  {
    LaneBounds(x, y, k, i);
  }

  // ----- one word of the sum

  predicate IsBcd(w: Word) {
    forall i :: 0 <= i < NIBBLES ==> w[i] <= 9
  }

  /** The decimal value of BCD digits, least significant first. */
  function Dec(w: seq<nat>): nat {
    if w == [] then 0 else w[0] + 10 * Dec(w[1..])
  }

  function Pow10(n: nat): (p: nat)
    ensures p > 0
  {
    if n == 0 then 1 else 10 * Pow10(n - 1)
  }

  lemma {:induction false} Pow10Add(a: nat, b: nat)
    ensures Pow10(a + b) == Pow10(a) * Pow10(b)
  {
    if a > 0 {
      Pow10Add(a - 1, b);
      assert Pow10(a + b) == 10 * Pow10((a - 1) + b) && Pow10(a) == 10 * Pow10(a - 1);
      hide Pow10;
      assert 10 * (Pow10(a - 1) * Pow10(b)) == (10 * Pow10(a - 1)) * Pow10(b);
    }
  }

  function Zeros(k: seq<nat>): nat {
    if k == [] then 0 else (if k[0] == 0 then 1 else 0) + Zeros(k[1..])
  }

  lemma {:induction false} FewerZeros(k: seq<nat>, m: seq<nat>)
    requires |k| == |m| && forall i :: 0 <= i < |k| ==> k[i] != 0 ==> m[i] != 0
    ensures Zeros(m) <= Zeros(k)
    ensures (exists i :: 0 <= i < |k| && k[i] == 0 && m[i] != 0) ==> Zeros(m) < Zeros(k)
    decreases |k|
  {
    if k != [] {
      FewerZeros(k[1..], m[1..]);
      if i :| 0 <= i < |k| && k[i] == 0 && m[i] != 0 {
        assert i > 0 ==> k[1..][i - 1] == k[i] && m[1..][i - 1] == m[i];
      }
    }
  }

  /** Every round of the loop handles a carry that was not handled before. */
  lemma RoundProgress(x: Word, y: Word, k: Word, ic: Word)
    requires IsBits(k) && Fresh(x, y, k, ic) && ic != Zero()
    ensures Zeros(Or(k, ic)) < Zeros(k)
  {
    var i :| 0 <= i < NIBBLES && ic[i] != 0;
    assert k[i] == 0 && Or(k, ic)[i] != 0;
    FewerZeros(k, Or(k, ic));
  }

  lemma AddendsOk(l: Word, r: Word, c: nat)
    requires IsBcd(l) && IsBcd(r) && c <= 1
    ensures var x, y := Plus(l, Bias()), Plus(r, Small(c));
            && Biased(l, x, y)
            && (forall i :: 0 <= i < NIBBLES ==> y[i] == r[i] + (if i == 0 then c else 0))
  {
    PlusApart(l, Bias());
    PlusApart(r, Small(c));
    hide Plus;
  }

  /** A digit of the sum: the digits and the carry in, less ten if a carry goes out. */
  predicate DigitOk(l: Word, y: Word, k: Word, out: nat, sum: Word, i: nat)
    requires i < NIBBLES
  {
    sum[i] <= 9 && sum[i] + 10 * (if i + 1 < NIBBLES then k[i + 1] else out) == l[i] + y[i] + k[i]
  }

  /** The carry out of the top group. */
  function CarryOut(x: Word, y: Word, k: Word): nat {
    (x[NIBBLES - 1] + y[NIBBLES - 1] + k[NIBBLES - 1]) / 16
  }

  /** x holds the digits l with the bias, y digits with a carry. */
  ghost predicate Biased(l: Word, x: Word, y: Word) {
    IsBcd(l) && Addends(x, y) && forall i :: 0 <= i < NIBBLES ==> x[i] == l[i] + 6
  }

  lemma DigitDone(l: Word, x: Word, y: Word, hgh: Word, low: Word, k: Word, i: nat)
    requires i < NIBBLES && Biased(l, x, y)
    requires Real(x, y, k) && Spread(hgh, low, x, y, k) && Fresh(x, y, k, Zero())
    ensures var out := CarryOut(x, y, k);
            var d := Plus(hgh, low)[i] + (if i == NIBBLES - 1 then 6 * out else 0);
            && out <= 1 && 6 <= d < 16 && d - 6 <= 9
            && d - 6 + 10 * (if i + 1 < NIBBLES then k[i + 1] else out) == l[i] + y[i] + k[i]
  {
    JoinLanes(hgh, low, x, y, k, i);
    LaneBounds(x, y, k, i);
    TopSum(x, y, k);
    if i + 1 < NIBBLES {
      assert Zero()[i + 1] == Over(x, y, k, i + 1);
    }
    hide Plus, Spread, Fresh;
    assert x[i] == l[i] + 6 && l[i] <= 9 && k[i] <= 1;
  }

  lemma TopSum(x: Word, y: Word, k: Word)
    requires Addends(x, y) && IsBits(k)
    ensures var t := x[NIBBLES - 1] + y[NIBBLES - 1] + k[NIBBLES - 1];
            t < 32 && CarryOut(x, y, k) == Quot(t)
  {
    assert x[NIBBLES - 1] < 16 && y[NIBBLES - 1] <= 9 && k[NIBBLES - 1] <= 1;
  }

  /** When nothing overflows any more, hgh + low puts the lanes side by side. */
  lemma JoinLanes(hgh: Word, low: Word, x: Word, y: Word, k: Word, i: nat)
    requires Spread(hgh, low, x, y, k) && Fresh(x, y, k, Zero()) && i < NIBBLES
    ensures Plus(hgh, low)[i] == Rem(Lane(x, y, k, i))
  {
    forall j | 0 <= j < NIBBLES
      ensures hgh[j] + low[j] == Rem(Lane(x, y, k, j)) < 16
    {
      SpreadAt(hgh, low, x, y, k, j);
      assert Zero()[j] == Over(x, y, k, j);
      hide Lane, Over;
    }
    hide Spread, Fresh, Lane;
    PlusApart(hgh, low);
  }

  /** The inner part of the loop of `bcdadd`: one word of each operand. */
  method AddWord(l: Word, r: Word, carryIn: nat) returns (sum: Word, carryOut: nat)
    requires IsBcd(l) && IsBcd(r) && carryIn <= 1
    ensures IsBcd(sum) && carryOut <= 1
    ensures Dec(sum) + Pow10(NIBBLES) * carryOut == Dec(l) + Dec(r) + carryIn
  {
    hide Plus, Minus, High, Low, Times22, Shift4, Real, Spread, Fresh, Addends, Dec, Pow10, Zeros, Or;
    var lword := Plus(l, Bias());
    var rword := Plus(r, Small(carryIn));
    var carry := Small(carryIn);
    AddendsOk(l, r, carryIn);
    ghost var k := Zero();
    var hgh := Plus(High(lword), High(rword));
    var low := Plus(Low(lword), Low(rword));
    SpreadStart(lword, rword);
    Overflows(hgh, low, lword, rword, k);
    var icarry := Plus(Low(hgh), High(low));
    while icarry != Zero()
      invariant Real(lword, rword, k) && Spread(hgh, low, lword, rword, k) && Fresh(lword, rword, k, icarry)
      invariant IsBits(carry) && carry[NIBBLES - 1] == k[NIBBLES - 1]
      decreases Zeros(k)
    {
      FreshBits(lword, rword, k, icarry);
      RoundProgress(lword, rword, k, icarry);
      SpreadStep(hgh, low, lword, rword, k, icarry);
      hgh := High(hgh);
      low := Low(low);
      OrTop(carry, k, icarry);
      carry := Or(carry, icarry);
      k := Or(k, icarry);
      var six := Times22(Shift4(icarry));
      hgh := Plus(hgh, High(six));
      low := Plus(low, Low(six));
      Overflows(hgh, low, lword, rword, k);
      icarry := Plus(Low(hgh), High(low));
    }
    carryOut := CarryOut(lword, rword, carry);
    SumDone(l, lword, rword, hgh, low, k);
    CarryInSum(r, rword, carryIn);
    sum := Minus(Plus(Plus(hgh, low), Top(6 * carryOut)), Bias());
  }

  lemma FreshBits(x: Word, y: Word, k: Word, ic: Word)
    requires Real(x, y, k) && Fresh(x, y, k, ic)
    ensures IsBits(k) && IsBits(ic)
  {
  }

  lemma OrTop(a: Word, k: Word, ic: Word)
    requires IsBits(a) && IsBits(k) && IsBits(ic) && a[NIBBLES - 1] == k[NIBBLES - 1]
    ensures IsBits(Or(a, ic)) && Or(a, ic)[NIBBLES - 1] == Or(k, ic)[NIBBLES - 1]
  {
  }

  lemma SumDone(l: Word, x: Word, y: Word, hgh: Word, low: Word, k: Word)
    requires Biased(l, x, y)
    requires Real(x, y, k) && Spread(hgh, low, x, y, k) && Fresh(x, y, k, Zero())
    ensures var out := CarryOut(x, y, k);
            out <= 1 &&
            var sum := Minus(Plus(Plus(hgh, low), Top(6 * out)), Bias());
            IsBcd(sum) && Dec(sum) + Pow10(NIBBLES) * out == Dec(l) + Dec(y)
  {
    hide Plus, Minus, Top, Spread, Fresh, Real, Dec, Pow10, Biased, CarryOut;
    DigitDone(l, x, y, hgh, low, k, 0);
    var out := CarryOut(x, y, k);
    var joined, top := Plus(hgh, low), Top(6 * out);
    forall i | 0 <= i < NIBBLES
      ensures 6 <= joined[i] + top[i] < 16 && joined[i] + top[i] - 6 <= 9
      ensures joined[i] + top[i] - 6 + 10 * (if i + 1 < NIBBLES then k[i + 1] else out) == l[i] + y[i] + k[i]
    {
      DigitDone(l, x, y, hgh, low, k, i);
      TopAt(6 * out, i);
    }
    Unbias(joined, top, l, y, k, out);
    var sum := Minus(Plus(joined, top), Bias());
    DigitsSum(l, y, k, out, sum, 0);
    assert l[0..] == l && y[0..] == y && sum[0..] == sum;
    RealStartsClear(x, y, k);
  }

  lemma RealStartsClear(x: Word, y: Word, k: Word)
    requires Real(x, y, k)
    ensures k[0] == 0
  {
  }

  lemma TopAt(c: nat, i: nat)
    requires c < 16 && i < NIBBLES
    ensures Top(c)[i] == if i == NIBBLES - 1 then c else 0
  {
  }

  /** Taking the bias off leaves the digits. */
  lemma Unbias(joined: Word, top: Word, l: Word, y: Word, k: Word, out: nat)
    requires forall i :: 0 <= i < NIBBLES ==> 6 <= joined[i] + top[i] < 16 && joined[i] + top[i] - 6 <= 9
    requires forall i :: 0 <= i < NIBBLES ==>
               joined[i] + top[i] - 6 + 10 * (if i + 1 < NIBBLES then k[i + 1] else out) == l[i] + y[i] + k[i]
    ensures var sum := Minus(Plus(joined, top), Bias());
            IsBcd(sum) && forall i :: 0 <= i < NIBBLES ==> DigitOk(l, y, k, out, sum, i)
  {
    PlusApart(joined, top);
    MinusApart(Plus(joined, top), Bias());
    hide Plus, Minus;
  }

  lemma DecStep(w: seq<nat>, i: nat)
    requires i < |w|
    ensures Dec(w[i..]) == w[i] + 10 * Dec(w[i + 1..])
  {
    assert w[i..][1..] == w[i + 1..];
  }

  lemma Pow10Step(n: nat, c: nat)
    requires n > 0
    ensures Pow10(n) * c == 10 * (Pow10(n - 1) * c)
  {
  }

  /** Digit-wise sums add up to the sum of the values. */
  lemma {:induction false} DigitsSum(l: Word, y: Word, k: Word, out: nat, sum: Word, i: nat)
    requires i <= NIBBLES && forall j :: 0 <= j < NIBBLES ==> DigitOk(l, y, k, out, sum, j)
    ensures Dec(sum[i..]) + Pow10(NIBBLES - i) * out == Dec(l[i..]) + Dec(y[i..]) + (if i < NIBBLES then k[i] else out)
    decreases NIBBLES - i
  {
    hide Pow10, Dec;
    if i == NIBBLES {
      NothingLeft(l[i..], y[i..], sum[i..]);
    } else {
      DigitsSum(l, y, k, out, sum, i + 1);
      Pow10Step(NIBBLES - i, out);
      assert DigitOk(l, y, k, out, sum, i);
      hide DigitOk;
      DecStep(l, i);
      DecStep(y, i);
      DecStep(sum, i);
      var above := if i + 1 < NIBBLES then k[i + 1] else out;
      Tens(Dec(sum[i + 1..]), Pow10(NIBBLES - (i + 1)) * out, Dec(l[i + 1..]), Dec(y[i + 1..]), above, sum[i], l[i],
           y[i], k[i]);
    }
  }

  /** One more digit in front of a sum. */
  lemma Tens(s: int, q: int, l: int, y: int, above: int, sd: int, ld: int, yd: int, k: int)
    requires s + q == l + y + above && sd + 10 * above == ld + yd + k
    ensures sd + 10 * s + 10 * q == ld + 10 * l + (yd + 10 * y) + k
  {
  }

  lemma NothingLeft(a: seq<nat>, b: seq<nat>, c: seq<nat>)
    requires a == b == c == []
    ensures Dec(a) == Dec(b) == Dec(c) == 0 && Pow10(0) == 1
  {
  }

  lemma CarryInSum(r: Word, y: Word, c: nat)
    requires forall i :: 0 <= i < NIBBLES ==> y[i] == r[i] + (if i == 0 then c else 0)
    ensures Dec(y) == Dec(r) + c
  {
    assert y[1..] == r[1..];
  }
}
