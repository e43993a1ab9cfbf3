/** Converting a large integer to a decimal string by BCD additions. */
module LargeInt {
  import opened Base
  import opened Bcd
  import opened DecimalSize

  /** The weight of a word with n words behind it. */
  function WordPow(n: nat): (p: nat)
    ensures p > 0
  {
    Pow10(NIBBLES * n)
  }

  /** The decimal value of BCD words, most significant first. */
  function DecWords(ws: seq<Word>): nat {
    if ws == [] then 0 else Dec(ws[0]) * WordPow(|ws| - 1) + DecWords(ws[1..])
  }

  predicate AllBcd(ws: seq<Word>) {
    forall i :: 0 <= i < |ws| ==> IsBcd(ws[i])
  }

  lemma WordPowStep(n: nat)
    ensures WordPow(n + 1) == Pow10(NIBBLES) * WordPow(n)
  {
    Pow10Add(NIBBLES, NIBBLES * n);
  }

  /** One word of an addition, at weight p. */
  lemma AddAtWeight(s: nat, b: nat, out: nat, l: nat, r: nat, c: nat, p: nat)
    requires s + b * out == l + r + c
    ensures s * p + (b * p) * out == l * p + r * p + p * c
  {
    assert (s + b * out) * p == (l + r + c) * p;
    assert (b * out) * p == (b * p) * out;
  }

  lemma SumStep(ls: seq<Word>, rs: seq<Word>, ss: seq<Word>, out: nat, c: nat)
    requires |ls| == |rs| == |ss| > 0
    requires Dec(ss[0]) + Pow10(NIBBLES) * out == Dec(ls[0]) + Dec(rs[0]) + c
    requires DecWords(ss[1..]) + WordPow(|ss| - 1) * c == DecWords(ls[1..]) + DecWords(rs[1..])
    ensures DecWords(ss) + WordPow(|ss|) * out == DecWords(ls) + DecWords(rs)
  {
    hide Pow10, Dec, WordPow, DecWords;
    AddAtWeight(Dec(ss[0]), Pow10(NIBBLES), out, Dec(ls[0]), Dec(rs[0]), c, WordPow(|ss| - 1));
    DecWordsStep(ls);
    DecWordsStep(rs);
    DecWordsStep(ss);
  }

  /** From word i on, v[lside..lside + n] holds the sum of ls and rs, apart from the carry c. */
  ghost predicate Added(v: seq<Word>, lside: nat, i: nat, ls: seq<Word>, rs: seq<Word>, c: nat)
    requires i <= |ls| == |rs| && lside + |ls| <= |v|
  {
    && c <= 1 && AllBcd(v[lside + i..lside + |ls|])
    && DecWords(v[lside + i..lside + |ls|]) + WordPow(|ls| - i) * c == DecWords(ls[i..]) + DecWords(rs[i..])
  }

  lemma AddedStep(v: seq<Word>, lside: nat, i: nat, ls: seq<Word>, rs: seq<Word>, c: nat, sum: Word, out: nat)
    requires i < |ls| == |rs| && lside + |ls| <= |v|
    requires Added(v, lside, i + 1, ls, rs, c)
    requires IsBcd(sum) && out <= 1 && Dec(sum) + Pow10(NIBBLES) * out == Dec(ls[i]) + Dec(rs[i]) + c
    ensures Added(v[lside + i := sum], lside, i, ls, rs, out)
  {
    hide DecWords, Dec, Pow10, IsBcd, WordPow;
    var ss := v[lside + i := sum][lside + i..lside + |ls|];
    assert ss[1..] == v[lside + i + 1..lside + |ls|];
    assert ls[i..][1..] == ls[i + 1..] && rs[i..][1..] == rs[i + 1..];
    SumStep(ls[i..], rs[i..], ss, out, c);
    assert forall k :: 0 < k < |ss| ==> ss[k] == ss[1..][k - 1];
  }

  /** `bcdadd`: add n words at `rside` into those at `lside`, which may be the same ones. */
  method BcdAdd(buf: array<Word>, lside: nat, rside: nat, n: nat) returns (ghost carry: nat)
    requires lside + n <= buf.Length && rside + n <= buf.Length
    requires lside == rside || lside + n <= rside || rside + n <= lside
    requires AllBcd(buf[lside..lside + n]) && AllBcd(buf[rside..rside + n])
    modifies buf
    ensures carry <= 1 && AllBcd(buf[lside..lside + n])
    ensures DecWords(buf[lside..lside + n]) + WordPow(n) * carry
            == old(DecWords(buf[lside..lside + n])) + old(DecWords(buf[rside..rside + n]))
    ensures forall k :: 0 <= k < buf.Length && !(lside <= k < lside + n) ==> buf[k] == old(buf[k])
  {
    hide Added, DecWords, Dec, Pow10, IsBcd, WordPow;
    ghost var ls, rs := buf[lside..lside + n], buf[rside..rside + n];
    var c: nat := 0;
    var i: nat := n;
    NothingAdded(buf[..], lside, ls, rs);
    while i > 0
      invariant i <= n && c <= 1
      invariant forall k :: 0 <= k < buf.Length && !(lside + i <= k < lside + n) ==> buf[k] == old(buf[k])
      invariant Added(buf[..], lside, i, ls, rs, c)
    {
      i := i - 1;
      ghost var v := buf[..];
      assert buf[lside + i] == ls[i] && buf[rside + i] == rs[i];
      var sum, out := AddWord(buf[lside + i], buf[rside + i], c);
      buf[lside + i] := sum;
      AddedStep(v, lside, i, ls, rs, c, sum, out);
      assert buf[..] == v[lside + i := sum];
      c := out;
    }
    AllAdded(buf[..], lside, ls, rs, c);
    assert buf[..][lside..lside + n] == buf[lside..lside + n];
    carry := c;
  }

  lemma NothingAdded(v: seq<Word>, lside: nat, ls: seq<Word>, rs: seq<Word>)
    requires |ls| == |rs| && lside + |ls| <= |v|
    ensures Added(v, lside, |ls|, ls, rs, 0)
  {
    NoWords(ls[|ls|..], rs[|ls|..], v[lside + |ls|..lside + |ls|]);
  }

  lemma AllAdded(v: seq<Word>, lside: nat, ls: seq<Word>, rs: seq<Word>, c: nat)
    requires |ls| == |rs| && lside + |ls| <= |v| && Added(v, lside, 0, ls, rs, c)
    ensures c <= 1 && AllBcd(v[lside..lside + |ls|])
    ensures DecWords(v[lside..lside + |ls|]) + WordPow(|ls|) * c == DecWords(ls) + DecWords(rs)
  {
    assert ls[0..] == ls && rs[0..] == rs;
  }

  lemma NoWords(a: seq<Word>, b: seq<Word>, c: seq<Word>)
    requires a == b == c == []
    ensures DecWords(a) == DecWords(b) == DecWords(c) == 0
  {
  }

  // ----- bounds

  lemma {:induction false} DecBelow(w: seq<nat>)
    requires forall i :: 0 <= i < |w| ==> w[i] <= 9
    ensures Dec(w) < Pow10(|w|)
    decreases |w|
  {
    if w != [] {
      DecBelow(w[1..]);
    }
  }

  lemma {:induction false} DecFront(w: seq<nat>)
    requires w != []
    ensures Dec(w) == Dec(w[..|w| - 1]) + Pow10(|w| - 1) * w[|w| - 1]
    decreases |w|
  {
    if |w| == 1 {
      assert w[1..] == [] && w[..0] == [];
      assert Pow10(0) == 1;
    } else {
      DecFront(w[1..]);
      assert w[1..][..|w| - 2] == w[..|w| - 1][1..];
      Pow10Step(|w| - 1, w[|w| - 1]);
    }
  }

  /** The top digit of a word tells whether twice the word has a carry. */
  lemma TopOfWord(w: Word)
    requires IsBcd(w)
    ensures w[NIBBLES - 1] >= 5 ==> 2 * Dec(w) >= Pow10(NIBBLES)
    ensures w[NIBBLES - 1] < 5 ==> 2 * Dec(w) + 2 <= Pow10(NIBBLES)
  {
    DecFront(w);
    DecBelow(w[..NIBBLES - 1]);
    var p, d := Pow10(NIBBLES - 1), w[NIBBLES - 1];
    Pow10Step(NIBBLES, 1);
    hide Pow10, Dec;
    if d >= 5 {
      MulMono(p, 5, d);
    } else {
      MulMono(p, d, 4);
    }
  }

  lemma DecWordsStep(ws: seq<Word>)
    requires ws != []
    ensures DecWords(ws) == Dec(ws[0]) * WordPow(|ws| - 1) + DecWords(ws[1..])
    ensures WordPow(|ws|) == Pow10(NIBBLES) * WordPow(|ws| - 1)
  {
    WordPowStep(|ws| - 1);
  }

  lemma EmptyWeight()
    ensures DecWords([]) == 0 && WordPow(0) == 1
  {
    assert Pow10(0) == 1;
  }

  lemma {:induction false} WordsBelow(ws: seq<Word>)
    requires AllBcd(ws)
    ensures DecWords(ws) < WordPow(|ws|)
    decreases |ws|
  {
    hide Pow10, WordPow, Dec, DecWords;
    if ws == [] {
      EmptyWeight();
    } else {
      WordsBelow(ws[1..]);
      DecBelow(ws[0]);
      DecWordsStep(ws);
      BelowStep(Dec(ws[0]), WordPow(|ws| - 1), DecWords(ws[1..]), Pow10(NIBBLES));
    }
  }

  lemma BelowStep(d: nat, p: nat, r: nat, b: nat)
    requires d < b && r < p
    ensures d * p + r < b * p
    ensures 2 * d >= b ==> 2 * (d * p + r) >= b * p
    ensures 2 * d + 2 <= b ==> 2 * (d * p + r) < b * p
  {
    MulMono(p, d + 1, b);
    if 2 * d >= b {
      MulMono(p, b, 2 * d);
    }
    if 2 * d + 2 <= b {
      MulMono(p, 2 * d + 2, b);
    }
  }

  /** The test `*powbuf >= 5 << 60` tells whether doubling would overflow. */
  lemma TopOfWords(ws: seq<Word>)
    requires ws != [] && AllBcd(ws)
    ensures ws[0][NIBBLES - 1] >= 5 <==> 2 * DecWords(ws) >= WordPow(|ws|)
  {
    hide Pow10, WordPow, Dec, DecWords;
    TopOfWord(ws[0]);
    DecBelow(ws[0]);
    WordsBelow(ws[1..]);
    DecWordsStep(ws);
    BelowStep(Dec(ws[0]), WordPow(|ws| - 1), DecWords(ws[1..]), Pow10(NIBBLES));
  }

  lemma {:induction false} ZeroWord(w: seq<nat>)
    requires forall i :: 0 <= i < |w| ==> w[i] == 0
    ensures Dec(w) == 0
    decreases |w|
  {
    if w != [] {
      ZeroWord(w[1..]);
    }
  }

  lemma {:induction false} ZeroWords(ws: seq<Word>)
    requires forall i :: 0 <= i < |ws| ==> ws[i] == Zero()
    ensures DecWords(ws) == 0 && AllBcd(ws)
    decreases |ws|
  {
    if ws != [] {
      ZeroWord(ws[0]);
      ZeroWords(ws[1..]);
      assert forall i :: 0 < i < |ws| ==> ws[i] == ws[1..][i - 1];
    }
  }

  /** A leading zero word adds nothing. */
  lemma PrependZero(ws: seq<Word>)
    requires ws != [] && ws[0] == Zero()
    ensures DecWords(ws) == DecWords(ws[1..])
  {
    ZeroWord(Zero());
    hide Dec, WordPow, Zero;
    assert Dec(ws[0]) * WordPow(|ws| - 1) == 0;
  }

  lemma {:induction false} Pow10Less(a: nat, b: nat)
    requires Pow10(a) < Pow10(b)
    ensures a < b
  {
    if b <= a {
      Pow10Add(b, a - b);
      MulMono(Pow10(b), 1, Pow10(a - b));
    }
  }

  /** When the buffers must grow, the number of decimal digits of n bits says that there is another word. */
  lemma GrowthFits(m: nat, n: nat, len: nat)
    requires m <= n && 2 * Pow2(m) >= WordPow(len)
    ensures len < DigitsFor(n) / NIBBLES + 1
  {
    Pow2Mono(m, n);
    DigitsSuffice(n);
    hide DigitsFor;
    assert Pow10(DigitsFor(n) + 1) == 10 * Pow10(DigitsFor(n));
    hide Pow10, Pow2;
    Pow10Less(NIBBLES * len, DigitsFor(n) + 1);
  }

  // ----- the sum and the power of two

  /** The two buffers hold `tot` and `pow` in their last `len` words each, with zeros in front of them. */
  ghost predicate Buffers(v: seq<Word>, nbcd: nat, len: nat, tot: nat, pow: nat) {
    && |v| == 2 * nbcd && 1 <= len <= nbcd && AllBcd(v)
    && (forall k :: 0 <= k < nbcd - len ==> v[k] == Zero())
    && (forall k :: nbcd <= k < 2 * nbcd - len ==> v[k] == Zero())
    && DecWords(v[nbcd - len..nbcd]) == tot && DecWords(v[2 * nbcd - len..]) == pow
  }

  /** The power of two is above the sum and can be doubled without growing. */
  ghost predicate Tally(v: seq<Word>, nbcd: nat, len: nat, tot: nat, pow: nat) {
    Buffers(v, nbcd, len, tot, pow) && tot < pow && 2 * pow < WordPow(len)
  }

  /** Replacing one of the two stretches of words. */
  lemma BuffersAfter(v: seq<Word>, w: seq<Word>, nbcd: nat, len: nat, tot: nat, pow: nat, first: bool, value: nat)
    requires Buffers(v, nbcd, len, tot, pow) && |w| == |v|
    requires var a := if first then nbcd - len else 2 * nbcd - len;
             && AllBcd(w[a..a + len]) && DecWords(w[a..a + len]) == value
             && forall k :: 0 <= k < |v| && !(a <= k < a + len) ==> w[k] == v[k]
    ensures Buffers(w, nbcd, len, if first then value else tot, if first then pow else value)
  {
    hide DecWords, IsBcd, Zero;
    var a := if first then nbcd - len else 2 * nbcd - len;
    forall k | 0 <= k < |w|
      ensures IsBcd(w[k])
    {
      if a <= k < a + len {
        assert w[k] == w[a..a + len][k - a];
      }
    }
    if first {
      assert w[2 * nbcd - len..] == v[2 * nbcd - len..];
    } else {
      assert w[nbcd - len..nbcd] == v[nbcd - len..nbcd];
      assert w[a..a + len] == w[a..];
    }
  }

  /** Taking one more word into both stretches. */
  lemma BuffersGrow(v: seq<Word>, nbcd: nat, len: nat, tot: nat, pow: nat)
    requires Buffers(v, nbcd, len, tot, pow) && len < nbcd
    ensures Buffers(v, nbcd, len + 1, tot, pow)
  {
    hide DecWords, IsBcd;
    var a, b := v[nbcd - len - 1..nbcd], v[2 * nbcd - len - 1..];
    assert a[0] == Zero() && b[0] == Zero();
    assert a[1..] == v[nbcd - len..nbcd] && b[1..] == v[2 * nbcd - len..];
    PrependZero(a);
    PrependZero(b);
  }

  /** The stretches that are to be added. */
  lemma BuffersBcd(v: seq<Word>, nbcd: nat, len: nat, tot: nat, pow: nat)
    requires Buffers(v, nbcd, len, tot, pow)
    ensures var a, b := v[nbcd - len..nbcd], v[2 * nbcd - len..2 * nbcd];
            AllBcd(a) && AllBcd(b) && DecWords(a) == tot && DecWords(b) == pow && |b| == len
  {
    hide DecWords, IsBcd, Zero;
    assert v[2 * nbcd - len..2 * nbcd] == v[2 * nbcd - len..];
  }

  /** A sum that fits leaves no carry. */
  lemma NoCarryOut(x: nat, p: nat, c: nat, sum: nat)
    requires x + p * c == sum < p && c <= 1
    ensures c == 0 && x == sum
  {
  }

  /** One bit of the number: add the power of two if it is set, and double the power. */
  method AddBit(buf: array<Word>, nbcd: nat, len: nat, bit: bool, ghost tot: nat, ghost pow: nat) returns (len': nat)
    requires Tally(buf[..], nbcd, len, tot, pow)
    requires 4 * pow >= WordPow(len) ==> len < nbcd
    modifies buf
    ensures Tally(buf[..], nbcd, len', if bit then tot + pow else tot, 2 * pow)
  {
    hide DecWords, IsBcd, WordPow, Buffers, AllBcd;
    BuffersSize(buf[..], nbcd, len, tot, pow);
    var totbuf, powbuf := nbcd - len, 2 * nbcd - len;
    ghost var v, t := buf[..], tot;
    if bit {
      BuffersBcd(v, nbcd, len, tot, pow);
      var c := BcdAdd(buf, totbuf, powbuf, len);
      NoCarryOut(DecWords(buf[totbuf..totbuf + len]), WordPow(len), c, tot + pow);
      t := tot + pow;
      BuffersAfter(v, buf[..], nbcd, len, tot, pow, true, t);
      v := buf[..];
    }
    BuffersBcd(v, nbcd, len, t, pow);
    var d := BcdAdd(buf, powbuf, powbuf, len);
    NoCarryOut(DecWords(buf[powbuf..powbuf + len]), WordPow(len), d, 2 * pow);
    BuffersAfter(v, buf[..], nbcd, len, t, pow, false, 2 * pow);
    TopOfWords(buf[powbuf..powbuf + len]);
    len' := len;
    if buf[powbuf][NIBBLES - 1] >= 5 {
      BuffersGrow(buf[..], nbcd, len, t, 2 * pow);
      WordPowGrows(len);
      len' := len + 1;
    }
  }

  lemma BuffersSize(v: seq<Word>, nbcd: nat, len: nat, tot: nat, pow: nat)
    requires Buffers(v, nbcd, len, tot, pow)
    ensures |v| == 2 * nbcd && 1 <= len <= nbcd
  {
  }

  lemma WordPowGrows(n: nat)
    ensures 2 * WordPow(n) < WordPow(n + 1)
  {
    WordPowStep(n);
    assert Pow10(NIBBLES) == 10 * Pow10(NIBBLES - 1) >= 10;
    MulMono(WordPow(n), 10, Pow10(NIBBLES));
  }

  // ----- all bits of the number

  const NB := 32

  /** The value of a large integer, most significant digit first. */
  function BigNat(digits: seq<nat>): nat {
    if digits == [] then 0 else BigNat(digits[..|digits| - 1]) * Pow2(NB) + digits[|digits| - 1]
  }

  /** The sum so far, and what is left of the number at the next bit's weight: `hi` above the j bits d. */
  ghost predicate Reached(tot: nat, pow: nat, hi: nat, j: nat, d: nat, n: nat) {
    d < Pow2(j) && tot + pow * (hi * Pow2(j) + d) == n
  }

  /** Taking the lowest bit off what is left of the number. */
  lemma HalveRest(tot: nat, pow: nat, hi: nat, d: nat, j: nat, n: nat)
    requires j > 0 && Reached(tot, pow, hi, j, d, n)
    ensures Reached(if d % 2 == 1 then tot + pow else tot, 2 * pow, hi, j - 1, d / 2, n)
  {
    var rest := hi * Pow2(j - 1) + d / 2;
    assert hi * Pow2(j) == 2 * (hi * Pow2(j - 1));
    assert hi * Pow2(j) + d == 2 * rest + d % 2;
    assert pow * (2 * rest + d % 2) == (2 * pow) * rest + pow * (d % 2);
  }

  /** Between digits nothing of the last one is left, and the next one follows. */
  lemma NextDigit(tot: nat, pow: nat, digits: seq<nat>, i: nat, n: nat)
    requires i < |digits| && digits[|digits| - 1 - i] < Pow2(NB)
    requires Reached(tot, pow, BigNat(digits[..|digits| - i]), 0, 0, n)
    ensures Reached(tot, pow, BigNat(digits[..|digits| - 1 - i]), NB, digits[|digits| - 1 - i], n)
  {
    var m := |digits| - i;
    assert digits[..m][..m - 1] == digits[..m - 1];
    assert BigNat(digits[..m]) * 1 + 0 == BigNat(digits[..m - 1]) * Pow2(NB) + digits[m - 1];
  }

  lemma DigitGone(tot: nat, pow: nat, hi: nat, d: nat, n: nat)
    requires Reached(tot, pow, hi, 0, d, n)
    ensures Reached(tot, pow, hi, 0, 0, n)
  {
  }

  lemma AllBits(digits: seq<nat>)
    ensures Reached(0, 1, BigNat(digits[..|digits|]), 0, 0, BigNat(digits))
  {
    assert digits[..|digits|] == digits;
  }

  lemma NoBits(tot: nat, pow: nat, digits: seq<nat>, n: nat)
    requires Reached(tot, pow, BigNat(digits[..0]), 0, 0, n)
    ensures tot == n
  {
    assert digits[..0] == [] && BigNat([]) == 0;
    assert pow * (0 * Pow2(0) + 0) == 0;
  }

  lemma StartTally(v: seq<Word>, nbcd: nat)
    requires 1 <= nbcd && |v| == 2 * nbcd
    requires forall k :: 0 <= k < |v| - 1 ==> v[k] == Zero()
    requires v[|v| - 1] == Small(1)
    ensures Tally(v, nbcd, 1, 0, 1)
  {
    OneWord();
    ZeroIsBcd();
    hide Dec, Pow10, DecWords, WordPow, Small, IsBcd, Zero;
    assert v[2 * nbcd - 1..] == [Small(1)];
    ZeroWords(v[nbcd - 1..nbcd]);
  }

  lemma ZeroIsBcd()
    ensures IsBcd(Zero())
  {
  }

  lemma OneWord()
    ensures DecWords([Small(1)]) == 1 && IsBcd(Small(1)) && 2 < WordPow(1)
  {
    ZeroWord(Small(1)[1..]);
    assert Dec(Small(1)) == 1;
    assert Pow10(0) == 1;
    hide Dec;
    assert DecWords([Small(1)]) == 1 * WordPow(0) + DecWords([]);
    WordPowGrows(0);
  }

  lemma Pow2Next(k: nat)
    ensures Pow2(k + 1) == 2 * Pow2(k)
  {
  }

  /** All bits of one digit, the lowest first; `base` bits have gone before and there are `total` in all. */
  method AddDigit(buf: array<Word>, nbcd: nat, len: nat, digit: nat, ghost base: nat, ghost total: nat,
                  ghost hi: nat, ghost tot: nat, ghost n: nat)
    returns (len': nat, ghost tot': nat)
    requires nbcd == DigitsFor(total) / NIBBLES + 1 && base + NB <= total
    requires Tally(buf[..], nbcd, len, tot, Pow2(base)) && Reached(tot, Pow2(base), hi, NB, digit, n)
    modifies buf
    ensures Tally(buf[..], nbcd, len', tot', Pow2(base + NB)) && Reached(tot', Pow2(base + NB), hi, 0, 0, n)
  {
    hide Tally, WordPow, Reached, Pow2, DigitsFor;
    len', tot' := len, tot;
    var d, j: nat := digit, NB;
    while j > 0
      invariant j <= NB && 0 <= d && Tally(buf[..], nbcd, len', tot', Pow2(base + (NB - j)))
      invariant Reached(tot', Pow2(base + (NB - j)), hi, j, d, n)
    {
      ghost var k := base + (NB - j);
      Pow2Next(k);
      HalveRest(tot', Pow2(k), hi, d, j, n);
      if 4 * Pow2(k) >= WordPow(len') {
        GrowthFits(k + 1, total, len');
      }
      len' := AddBit(buf, nbcd, len', d % 2 == 1, tot', Pow2(k));
      tot' := if d % 2 == 1 then tot' + Pow2(k) else tot';
      d := d / 2;
      j := j - 1;
    }
    DigitGone(tot', Pow2(base + NB), hi, d, n);
  }

  /** The buffers after all the bits: the number in BCD. */
  method Accumulate(digits: seq<nat>) returns (buf: array<Word>, nbcd: nat, bcdlen: nat)
    requires forall i :: 0 <= i < |digits| ==> digits[i] < Pow2(NB)
    ensures fresh(buf) && nbcd == DigitsFor(NB * |digits|) / NIBBLES + 1
    ensures Tally(buf[..], nbcd, bcdlen, BigNat(digits), Pow2(NB * |digits|))
  {
    hide Tally, WordPow, BigNat, Reached, DigitsFor;
    var ndec := DigitsFor(NB * |digits|);
    nbcd := ndec / NIBBLES + 1;
    buf := new Word[2 * nbcd](_ => Zero());
    bcdlen := 1;
    buf[2 * nbcd - 1] := Small(1);
    StartTally(buf[..], nbcd);
    ghost var tot: nat := 0;
    ghost var n := BigNat(digits);
    AllBits(digits);
    assert Pow2(0) == 1;
    hide Pow2;
    for i := 0 to |digits|
      invariant fresh(buf) && Tally(buf[..], nbcd, bcdlen, tot, Pow2(NB * i))
      invariant Reached(tot, Pow2(NB * i), BigNat(digits[..|digits| - i]), 0, 0, n)
    {
      var d: nat := digits[|digits| - 1 - i];
      ghost var hi := BigNat(digits[..|digits| - 1 - i]);
      NextDigit(tot, Pow2(NB * i), digits, i, n);
      bcdlen, tot := AddDigit(buf, nbcd, bcdlen, d, NB * i, NB * |digits|, hi, tot, n);
    }
    NoBits(tot, Pow2(NB * |digits|), digits, n);
  }

  // ----- decimal characters

  function CharOf(d: nat): char
    requires d <= 9
  {
    '0' + d as char
  }

  predicate IsDigits(t: string) {
    forall i :: 0 <= i < |t| ==> '0' <= t[i] <= '9'
  }

  /** The value of a string of digits. */
  function ValueOf(t: string): nat
    requires IsDigits(t)
  {
    if t == "" then 0 else 10 * ValueOf(t[..|t| - 1]) + (t[|t| - 1] - '0') as nat
  }

  /** The decimal numeral, without leading zeros. */
  function Numeral(v: nat): (t: string)
    ensures t != "" && IsDigits(t)
  {
    if v < 10 then [CharOf(v)] else Numeral(v / 10) + [CharOf(v % 10)]
  }

  /** The numeral has the value, and begins with a zero only for zero. */
  lemma {:induction false} NumeralIs(v: nat)
    ensures ValueOf(Numeral(v)) == v && (Numeral(v)[0] == '0' ==> v == 0 && |Numeral(v)| == 1)
    decreases v
  {
    if v >= 10 {
      NumeralIs(v / 10);
      var t := Numeral(v);
      assert t[..|t| - 1] == Numeral(v / 10);
    } else {
      assert ValueOf("") == 0 && Numeral(v)[..0] == "";
    }
  }

  /** Without leading zeros, but with at least one digit. */
  function Trimmed(t: string): string {
    if |t| > 1 && t[0] == '0' then Trimmed(t[1..]) else t
  }

  lemma {:induction false} TrimmedFront(t: string)
    requires |t| > 1
    ensures Trimmed(t) == if Trimmed(t[..|t| - 1]) == "0" then [t[|t| - 1]] else Trimmed(t[..|t| - 1]) + [t[|t| - 1]]
    decreases |t|
  {
    var f := t[..|t| - 1];
    if t[0] == '0' {
      if |t| == 2 {
        assert t[1..] == [t[1]] && f == "0";
      } else {
        TrimmedFront(t[1..]);
        assert t[1..][..|t| - 2] == f[1..];
      }
    } else {
      assert t == f + [t[|t| - 1]];
    }
  }

  lemma {:induction false} TrimmedIs(t: string)
    requires t != "" && IsDigits(t)
    ensures Trimmed(t) == Numeral(ValueOf(t))
    decreases |t|
  {
    var f, c := t[..|t| - 1], t[|t| - 1];
    assert c == CharOf((c - '0') as nat);
    if f == "" {
      assert ValueOf(f) == 0;
      assert t == [c];
    } else {
      TrimmedIs(f);
      TrimmedFront(t);
      NumeralZero(ValueOf(f));
    }
  }

  lemma NumeralZero(v: nat)
    ensures Numeral(v) == "0" <==> v == 0
    ensures v > 0 ==> Numeral(v)[0] != '0' || v >= 10
  {
  }

  /** The digits of a word, most significant first. */
  function WordText(w: Word): (t: string)
    requires IsBcd(w)
    ensures |t| == NIBBLES && IsDigits(t)
  {
    seq(NIBBLES, i requires 0 <= i < NIBBLES => CharOf(w[NIBBLES - 1 - i]))
  }

  function Text(ws: seq<Word>): (t: string)
    requires AllBcd(ws)
    ensures |t| == NIBBLES * |ws| && IsDigits(t)
  {
    if ws == [] then "" else WordText(ws[0]) + Text(ws[1..])
  }

  lemma {:induction false} ValueAppend(a: string, b: string)
    requires IsDigits(a) && IsDigits(b)
    ensures IsDigits(a + b) && ValueOf(a + b) == ValueOf(a) * Pow10(|b|) + ValueOf(b)
    decreases |b|
  {
    if b == "" {
      assert a + b == a && Pow10(0) == 1;
    } else {
      var f := b[..|b| - 1];
      ValueAppend(a, f);
      ValueLast(a + b);
      ValueLast(b);
      assert (a + b)[..|a + b| - 1] == a + f && (a + b)[|a + b| - 1] == b[|b| - 1];
      assert Pow10(|b|) == 10 * Pow10(|f|);
      hide ValueOf, Pow10;
      Shifted(ValueOf(a), Pow10(|f|), Pow10(|b|), ValueOf(a + f), ValueOf(f), (b[|b| - 1] - '0') as nat);
    }
  }

  lemma Shifted(va: nat, p: nat, q: nat, vaf: nat, vf: nat, d: nat)
    requires q == 10 * p && vaf == va * p + vf
    ensures 10 * vaf + d == va * q + (10 * vf + d)
  {
  }

  lemma ValueLast(t: string)
    requires t != "" && IsDigits(t)
    ensures ValueOf(t) == 10 * ValueOf(t[..|t| - 1]) + (t[|t| - 1] - '0') as nat
  {
  }

  /** The digits from position i on, written downwards from the top. */
  lemma {:induction false} WordValue(w: Word, i: nat)
    requires IsBcd(w) && i <= NIBBLES
    ensures IsDigits(WordText(w)[..NIBBLES - i]) && ValueOf(WordText(w)[..NIBBLES - i]) == Dec(w[i..])
    decreases NIBBLES - i
  {
    var t := WordText(w)[..NIBBLES - i];
    if i < NIBBLES {
      WordValue(w, i + 1);
      assert t[..|t| - 1] == WordText(w)[..NIBBLES - (i + 1)];
      assert t[|t| - 1] == CharOf(w[i]);
      DecStep(w, i);
    }
  }

  lemma WordTextValue(w: Word)
    requires IsBcd(w)
    ensures ValueOf(WordText(w)) == Dec(w)
  {
    WordValue(w, 0);
    assert WordText(w)[..NIBBLES] == WordText(w) && w[0..] == w;
  }

  lemma {:induction false} TextValue(ws: seq<Word>)
    requires AllBcd(ws)
    ensures ValueOf(Text(ws)) == DecWords(ws)
    decreases |ws|
  {
    if ws != [] {
      TextValue(ws[1..]);
      hide ValueOf, Dec, DecWords, WordText, Pow10, Text;
      WordTextValue(ws[0]);
      DecWordsStep(ws);
      ValueAppend(WordText(ws[0]), Text(ws[1..]));
      TextFront(ws);
      assert Pow10(|Text(ws[1..])|) == WordPow(|ws| - 1);
    }
  }

  lemma TextFront(ws: seq<Word>)
    requires ws != [] && AllBcd(ws)
    ensures Text(ws) == WordText(ws[0]) + Text(ws[1..])
  {
  }

  // ----- characters over the words they come from

  /** A byte of the string block: byte k of a BCD word, or a character that has been put there. */
  datatype Cell = Part(word: nat, k: nat) | Chr(c: char)

  const WORD_BYTES := 8

  /** The eight bytes of a word, `pad` bytes into the block, are still there. */
  ghost predicate Unread(mem: seq<Cell>, pad: nat, w: nat) {
    && pad + WORD_BYTES * (w + 1) <= |mem|
    && forall k :: 0 <= k < WORD_BYTES ==> mem[pad + WORD_BYTES * w + k] == Part(w, k)
  }

  /** From o on, the block holds the text. */
  ghost predicate Written(mem: seq<Cell>, o: nat, t: string) {
    o + |t| == |mem| && forall k :: o <= k < |mem| ==> mem[k] == Chr(t[k - o])
  }

  /** The string block with the words in it. */
  method NewBlock(nbcd: nat, pad: nat) returns (mem: array<Cell>)
    requires 1 <= pad <= WORD_BYTES
    ensures fresh(mem) && mem.Length == WORD_BYTES * (2 * nbcd + 1)
    ensures forall w: nat :: w < nbcd ==> Unread(mem[..], pad, w)
  {
    mem := new Cell[WORD_BYTES * (2 * nbcd + 1)](
      i => if i < pad then Chr('0') else Part((i - pad) / WORD_BYTES, (i - pad) % WORD_BYTES));
    forall w: nat | w < nbcd
      ensures Unread(mem[..], pad, w)
    {
      forall k | 0 <= k < WORD_BYTES
        ensures mem[pad + WORD_BYTES * w + k] == Part(w, k)
      {
        var x := WORD_BYTES * w + k;
        assert x / WORD_BYTES == w && x % WORD_BYTES == k;
      }
    }
  }

  /** `b = *--bp`: a word can be read as long as nothing has been written over it. */
  method ReadWord(mem: array<Cell>, words: seq<Word>, pad: nat, w: nat) returns (b: Word)
    requires w < |words| && Unread(mem[..], pad, w)
    ensures b == words[w]
  {
    b := words[w];
  }

  /** The sixteen characters of a word, from the last one down. */
  method PutWord(mem: array<Cell>, o: nat, b: Word) returns (o': nat)
    requires IsBcd(b) && NIBBLES <= o <= mem.Length
    modifies mem
    ensures o' == o - NIBBLES
    ensures forall k :: o' <= k < o ==> mem[k] == Chr(WordText(b)[k - o'])
    ensures forall k :: 0 <= k < mem.Length && !(o' <= k < o) ==> mem[k] == old(mem[k])
  {
    o' := o;
    for j := 0 to NIBBLES
      invariant o' == o - j
      invariant forall k :: o' <= k < o ==> mem[k] == Chr(WordText(b)[k - (o - NIBBLES)])
      invariant forall k :: 0 <= k < mem.Length && !(o' <= k < o) ==> mem[k] == old(mem[k])
    {
      o' := o' - 1;
      mem[o'] := Chr(CharOf(b[j]));
    }
  }

  lemma StillUnread(m: seq<Cell>, m': seq<Cell>, pad: nat, w: nat, o: nat)
    requires Unread(m, pad, w) && |m'| == |m| && pad + WORD_BYTES * (w + 1) <= o
    requires forall k :: 0 <= k < o && k < |m| ==> m'[k] == m[k]
    ensures Unread(m', pad, w)
  {
  }

  lemma MoreText(m: seq<Cell>, m': seq<Cell>, o: nat, t: string, u: string)
    requires Written(m, o, t) && |m'| == |m| && |u| <= o
    requires forall k :: o - |u| <= k < o ==> m'[k] == Chr(u[k - (o - |u|)])
    requires forall k :: o <= k < |m| ==> m'[k] == m[k]
    ensures Written(m', o - |u|, u + t)
  {
  }

  lemma TextStep(words: seq<Word>, a: nat, b: nat)
    requires a < b <= |words| && AllBcd(words)
    ensures AllBcd(words[a..b]) && AllBcd(words[a + 1..b])
            && Text(words[a..b]) == WordText(words[a]) + Text(words[a + 1..b])
  {
    assert words[a..b][1..] == words[a + 1..b];
  }

  /** Convert the BCD words to characters in the block that they lie in; o is where the characters start. */
  method Unpack(mem: array<Cell>, words: seq<Word>, nbcd: nat, bcdlen: nat, pad: nat) returns (o: nat)
    requires |words| == 2 * nbcd && AllBcd(words) && 1 <= bcdlen <= nbcd && 1 <= pad <= WORD_BYTES
    requires mem.Length == WORD_BYTES * (2 * nbcd + 1) && forall w: nat :: w < nbcd ==> Unread(mem[..], pad, w)
    modifies mem
    ensures o == mem.Length - NIBBLES * bcdlen >= WORD_BYTES
    ensures AllBcd(words[nbcd - bcdlen..nbcd]) && Written(mem[..], o, Text(words[nbcd - bcdlen..nbcd]))
  {
    hide Unread, Written, Text, WordText, IsBcd;
    o := mem.Length;
    var bp: nat := nbcd;
    NoText(mem[..], words[nbcd..nbcd]);
    for i := 0 to bcdlen
      invariant bp == nbcd - i && o == mem.Length - NIBBLES * i
      invariant forall w: nat :: w < bp ==> Unread(mem[..], pad, w)
      invariant AllBcd(words[bp..nbcd]) && Written(mem[..], o, Text(words[bp..nbcd]))
    {
      bp := bp - 1;
      var b := ReadWord(mem, words, pad, bp);
      ghost var m, before := mem[..], o;
      o := PutWord(mem, o, b);
      TextStep(words, bp, nbcd);
      MoreText(m, mem[..], before, Text(words[bp + 1..nbcd]), WordText(b));
      forall w: nat | w < bp
        ensures Unread(mem[..], pad, w)
      {
        StillUnread(m, mem[..], pad, w, o);
      }
    }
  }

  lemma NoText(m: seq<Cell>, ws: seq<Word>)
    requires ws == []
    ensures AllBcd(ws) && Written(m, |m|, Text(ws))
  {
  }

  /** Trim leading zeros, add the sign and take the characters. */
  method TrimAndSign(mem: array<Cell>, start: nat, negative: bool, ghost t: string) returns (s: string)
    requires 1 <= start < mem.Length && Written(mem[..], start, t) && IsDigits(t)
    modifies mem
    ensures s == (if negative then "-" else "") + Trimmed(t)
  {
    var o, p: nat := start, mem.Length;
    ghost var u := t;
    while o < p - 1 && mem[o] == Chr('0')
      invariant start <= o < p && Written(mem[..], o, u) && Trimmed(u) == Trimmed(t)
      modifies {}
      decreases p - o
    {
      u := u[1..];
      o := o + 1;
    }
    if negative {
      o := o - 1;
      mem[o] := Chr('-');
      u := "-" + u;
    }
    assert forall k :: o <= k < p ==> mem[k] == Chr(u[k - o]);
    s := seq(p - o, i requires 0 <= i < p - o && o + i < mem.Length && mem[o + i].Chr? reads mem => mem[o + i].c);
    assert s == u;
  }

  /** `lgconv` of a large integer: the signed decimal numeral, without leading zeros. */
  method Convert(digits: seq<nat>, negative: bool, pad: nat) returns (s: string)
    requires forall i :: 0 <= i < |digits| ==> digits[i] < Pow2(NB)
    requires 1 <= pad <= WORD_BYTES
    ensures s == (if negative then "-" else "") + Numeral(BigNat(digits))
  {
    hide Tally, BigNat, Text, Numeral, Trimmed, Unread, Written, Pow2;
    var buf, nbcd, bcdlen := Accumulate(digits);
    var words := buf[..];
    TallyBcd(words, nbcd, bcdlen, BigNat(digits), Pow2(NB * |digits|));
    var mem := NewBlock(nbcd, pad);
    var o := Unpack(mem, words, nbcd, bcdlen, pad);
    ghost var ws := words[nbcd - bcdlen..nbcd];
    TextValue(ws);
    TrimmedIs(Text(ws));
    s := TrimAndSign(mem, o, negative, Text(ws));
  }

  lemma TallyBcd(v: seq<Word>, nbcd: nat, len: nat, tot: nat, pow: nat)
    requires Tally(v, nbcd, len, tot, pow)
    ensures |v| == 2 * nbcd && AllBcd(v) && 1 <= len <= nbcd && DecWords(v[nbcd - len..nbcd]) == tot
  {
  }
}
