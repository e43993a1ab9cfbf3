/** What macro expansion does to a text, token by token, each kind of token given by its own grammar. */
module ExpansionLaws {
  import opened Base
  import opened Preprocessor

  // ----- the characters

  ghost predicate Digit(c: int) {
    '0' as int <= c <= '9' as int
  }

  ghost predicate Letter(c: int) {
    'a' as int <= c <= 'z' as int || 'A' as int <= c <= 'Z' as int
  }

  ghost predicate Blank(c: int) {
    c == ' ' as int || c == '\t' as int || c == '\n' as int || c == '\r' as int || c == 11 || c == 12
  }

  ghost predicate Punctuation(c: int) {
    || '!' as int <= c <= '/' as int
    || ':' as int <= c <= '@' as int
    || '[' as int <= c <= '`' as int
    || '{' as int <= c <= '~' as int
  }

  ghost predicate Quote(c: int) {
    c == '\'' as int || c == '"' as int
  }

  lemma Classes(c: int)
    ensures IsDigit(c) <==> Digit(c)
    ensures IsAlpha(c) <==> Letter(c)
    ensures StartsName(c) <==> Letter(c) || c == '_' as int
    ensures InName(c) <==> Letter(c) || Digit(c) || c == '_' as int
    ensures IsSpace(c) <==> Blank(c)
    ensures IsPunct(c) <==> Punctuation(c)
  {
  }

  // ----- lines that are directives

  /** The first character that is not blank is a `$` without punctuation behind it. */
  ghost predicate DollarLine(s: Bytes) {
    exists p: nat :: p < |s| && s[p] == '$' as int && (forall k :: 0 <= k < p ==> Blank(s[k]))
                     && (p + 1 < |s| ==> !Punctuation(s[p + 1]))
  }

  ghost predicate LineForm(s: Bytes) {
    var mark := "#line ";
    |s| >= |mark| && forall k :: 0 <= k < |mark| ==> s[k] == mark[k] as int
  }

  /** Which lines are directives. */
  lemma DirectiveIs(s: Bytes)
    ensures IsDirective(s) <==> DollarLine(s) || LineForm(s)
  {
    MarkIs(s);
    var p := SpaceEnd(s, 0);
    forall c {:trigger Blank(c)}
      ensures IsSpace(c) <==> Blank(c)
    {
      Classes(c);
    }
    if p + 1 < |s| {
      Classes(s[p + 1]);
    }
    if DollarLine(s) {
      var q: nat :| q < |s| && s[q] == '$' as int && (forall k :: 0 <= k < q ==> Blank(s[k]))
                    && (q + 1 < |s| ==> !Punctuation(s[q + 1]));
      assert !Blank(s[q]);
      assert q == p;
    }
    if p < |s| && s[p] == DOLLAR && !IsPunct(At(s, p + 1)) {
      assert forall k :: 0 <= k < p ==> IsSpace(s[k]) && Blank(s[k]);
      assert DollarLine(s);
    }
  }

  lemma MarkIs(s: Bytes)
    ensures LINE_MARK <= s <==> LineForm(s)
  {
    assert |LINE_MARK| == |"#line "| && forall k :: 0 <= k < |LINE_MARK| ==> LINE_MARK[k] == "#line "[k] as int;
  }

  // ----- quoted literals

  /** How many backslashes stand directly before k, counted back to i. */
  ghost function Run(s: Bytes, i: nat, k: nat): nat
    requires i <= k <= |s|
  {
    if k > i && s[k - 1] == '\\' as int then 1 + Run(s, i, k - 1) else 0
  }

  ghost predicate Escaped(s: Bytes, i: nat, k: nat)
    requires i <= k <= |s|
  {
    Run(s, i, k) % 2 == 1
  }

  /** No unescaped q from i up to e. */
  ghost predicate NoneBefore(s: Bytes, i: nat, q: int, e: nat)
    requires i <= e <= |s|
  {
    forall k :: i <= k < e && s[k] == q ==> Escaped(s, i, k)
  }

  lemma {:induction false} RunPast(s: Bytes, i: nat, k: nat)
    requires i < k <= |s| && s[i] != '\\' as int
    ensures Run(s, i, k) == Run(s, i + 1, k)
    decreases k
  {
    if k > i + 1 && s[k - 1] == '\\' as int {
      RunPast(s, i, k - 1);
    }
  }

  lemma {:induction false} RunPastTwo(s: Bytes, i: nat, k: nat)
    requires i + 2 <= k <= |s| && s[i] == '\\' as int
    ensures Run(s, i, k) % 2 == Run(s, i + 2, k) % 2
    decreases k
  {
    if k > i + 2 {
      if s[k - 1] == '\\' as int {
        RunPastTwo(s, i, k - 1);
      }
    } else if s[i + 1] == '\\' as int {
      assert Run(s, i, i) == 0 && Run(s, i, i + 1) == 1 && Run(s, i, i + 2) == 2;
    }
  }

  /** A literal ends at the first quote that is not escaped, or with the text. */
  lemma {:induction false} QuoteEndIs(s: Bytes, i: nat, q: int)
    requires i <= |s| && q != '\\' as int
    ensures var e := QuoteEnd(s, i, q);
            NoneBefore(s, i, q, e) && (e < |s| ==> s[e] == q && !Escaped(s, i, e))
    decreases |s| - i
  {
    var e := QuoteEnd(s, i, q);
    if i < |s| && s[i] != q {
      if s[i] != '\\' as int {
        QuoteEndIs(s, i + 1, q);
        hide Run, QuoteEnd;
        forall k | i < k <= e
          ensures Escaped(s, i, k) == Escaped(s, i + 1, k)
        {
          RunPast(s, i, k);
        }
      } else if i + 1 < |s| {
        QuoteEndIs(s, i + 2, q);
        assert Run(s, i, i) == 0 && Escaped(s, i, i + 1);
        hide Run, QuoteEnd;
        forall k | i + 2 <= k <= e
          ensures Escaped(s, i, k) == Escaped(s, i + 2, k)
        {
          RunPastTwo(s, i, k);
        }
      }
    }
  }

  /** s[i..j] is a complete literal: it ends with the first quote like its own that is not escaped. */
  ghost predicate IsLiteral(s: Bytes, i: nat, j: nat) {
    && i + 1 < j <= |s| && Quote(s[i]) && s[j - 1] == s[i]
    && !Escaped(s, i + 1, j - 1) && NoneBefore(s, i + 1, s[i], j - 1)
  }

  /** The literal that starts at i has no end. */
  ghost predicate IsOpen(s: Bytes, i: nat) {
    i < |s| && Quote(s[i]) && NoneBefore(s, i + 1, s[i], |s|)
  }

  lemma LiteralEnd(s: Bytes, i: nat, j: nat)
    requires IsLiteral(s, i, j)
    ensures QuoteEnd(s, i + 1, s[i]) == j - 1
  {
    hide QuoteEnd, Escaped;
    QuoteEndIs(s, i + 1, s[i]);
  }

  lemma OpenEnd(s: Bytes, i: nat)
    requires IsOpen(s, i)
    ensures QuoteEnd(s, i + 1, s[i]) == |s|
  {
    hide QuoteEnd, Escaped;
    QuoteEndIs(s, i + 1, s[i]);
  }

  // ----- numeric constants

  /** From i on there are digits up to j, and no further. */
  ghost predicate DigitsTo(s: Bytes, i: nat, j: nat) {
    && i <= j <= |s| && (forall k :: i <= k < j ==> Digit(s[k])) && (j < |s| ==> !Digit(s[j]))
  }

  ghost predicate AlnumsTo(s: Bytes, i: nat, j: nat) {
    && i <= j <= |s| && (forall k :: i <= k < j ==> Digit(s[k]) || Letter(s[k]))
    && (j < |s| ==> !Digit(s[j]) && !Letter(s[j]))
  }

  ghost predicate HasAt(s: Bytes, i: nat, a: char, b: char) {
    i < |s| && (s[i] == a as int || s[i] == b as int)
  }

  /** After the whole part, which ends at a: a point and more digits, up to b. */
  ghost predicate Fraction(s: Bytes, a: nat, b: nat) {
    if HasAt(s, a, '.', '.') then DigitsTo(s, a + 1, b) else b == a
  }

  /** After that: an exponent with or without a sign, up to j. */
  ghost predicate Exponent(s: Bytes, b: nat, j: nat) {
    if !HasAt(s, b, 'e', 'E') then j == b
    else if HasAt(s, b + 1, '+', '-') then DigitsTo(s, b + 2, j)
    else DigitsTo(s, b + 1, j)
  }

  /** What follows the whole part: a radix mark and its digits, or a fraction and an exponent. */
  ghost predicate Rest(s: Bytes, a: nat, j: nat) {
    if HasAt(s, a, 'r', 'R') then AlnumsTo(s, a + 1, j)
    else exists b: nat :: Fraction(s, a, b) && Exponent(s, b, j)
  }

  /** Digits, and what follows them. */
  ghost predicate IsNumber(s: Bytes, i: nat, j: nat) {
    i < |s| && Digit(s[i]) && exists a: nat :: DigitsTo(s, i, a) && Rest(s, a, j)
  }

  lemma DigitsEndIs(s: Bytes, i: nat, j: nat)
    requires i <= |s|
    ensures DigitsTo(s, i, j) <==> j == DigitsEnd(s, i)
  {
    var e := DigitsEnd(s, i);
    forall k | 0 <= k < |s|
      ensures IsDigit(s[k]) <==> Digit(s[k])
    {
      Classes(s[k]);
    }
    hide DigitsEnd, IsDigit, Digit;
  }

  lemma AlnumEndIs(s: Bytes, i: nat, j: nat)
    requires i <= |s|
    ensures AlnumsTo(s, i, j) <==> j == AlnumEnd(s, i)
  {
    var e := AlnumEnd(s, i);
    forall k | 0 <= k < |s|
      ensures IsAlnum(s[k]) <==> Digit(s[k]) || Letter(s[k])
    {
      Classes(s[k]);
    }
    hide AlnumEnd, IsAlnum, Digit, Letter;
  }

  lemma ExponentEndIs(s: Bytes, b: nat, j: nat)
    requires b <= |s|
    ensures Exponent(s, b, j) <==> j == ExponentEnd(s, b)
  {
    hide DigitsEnd, DigitsTo;
    if b < |s| {
      DigitsEndIs(s, b + 1, j);
      if b + 1 < |s| {
        DigitsEndIs(s, b + 2, j);
      }
    }
  }

  lemma RestIs(s: Bytes, a: nat, j: nat)
    requires a <= |s|
    ensures Rest(s, a, j) <==> j == NumberRest(s, a)
  {
    hide DigitsEnd, DigitsTo, AlnumEnd, AlnumsTo, ExponentEnd, Exponent;
    if HasAt(s, a, 'r', 'R') {
      AlnumEndIs(s, a + 1, j);
    } else {
      var b := if HasAt(s, a, '.', '.') then DigitsEnd(s, a + 1) else a;
      FractionIs(s, a, b);
      hide Fraction;
      ExponentEndIs(s, b, j);
    }
  }

  lemma FractionIs(s: Bytes, a: nat, b: nat)
    requires a <= |s| && b == if HasAt(s, a, '.', '.') then DigitsEnd(s, a + 1) else a
    ensures forall x: nat :: Fraction(s, a, x) <==> x == b
  {
    hide DigitsEnd, DigitsTo;
    forall x: nat
      ensures Fraction(s, a, x) <==> x == b
    {
      if HasAt(s, a, '.', '.') {
        DigitsEndIs(s, a + 1, x);
      }
    }
  }

  lemma NumberStep(s: Bytes, i: nat)
    requires i < |s|
    ensures NumberEnd(s, i) == NumberRest(s, DigitsEnd(s, i + 1))
  {
  }

  /** The end of a numeric constant whose whole part ends at j. */
  function NumberRest(s: Bytes, j: nat): nat
    requires j <= |s|
  {
    if IsRadixMark(At(s, j)) then AlnumEnd(s, j + 1)
    else ExponentEnd(s, if At(s, j) == 46 then DigitsEnd(s, j + 1) else j)
  }

  /** Where a numeric constant ends. */
  lemma NumberEndIs(s: Bytes, i: nat, j: nat)
    requires i < |s| && Digit(s[i])
    ensures IsNumber(s, i, j) <==> j == NumberEnd(s, i)
  {
    Classes(s[i]);
    assert DigitsEnd(s, i) == DigitsEnd(s, i + 1);
    hide NumberEnd, DigitsEnd, DigitsTo, Rest, NumberRest;
    NumberStep(s, i);
    var a := DigitsEnd(s, i);
    forall x: nat
      ensures DigitsTo(s, i, x) <==> x == a
    {
      DigitsEndIs(s, i, x);
    }
    assert DigitsTo(s, i, a);
    RestIs(s, a, j);
  }

  // ----- the laws

  lemma PlainFirst(defs: map<Bytes, Bytes>, active: set<Bytes>, s: Bytes, i: nat)
    requires i < |s| && !StartsName(s[i])
    ensures var e := PlainEnd(s, i); i < e && Expand(defs, active, s, i) == s[i..e] + Expand(defs, active, s, e)
  {
  }

  lemma PlainStop(s: Bytes, j: nat)
    requires j <= |s| && (j < |s| ==> StartsName(s[j]))
    ensures PlainEnd(s, j) == j
  {
  }

  /** What is skipped is kept, and does not change what the rest is. */
  lemma Skipped(defs: map<Bytes, Bytes>, active: set<Bytes>, s: Bytes, i: nat, j: nat)
    requires i < j <= |s| && !StartsName(s[i]) && PlainEnd(s, i) == PlainEnd(s, j)
    ensures Expand(defs, active, s, i) == s[i..j] + Expand(defs, active, s, j)
  {
    hide Expand, PlainEnd, StartsName;
    PlainFirst(defs, active, s, i);
    if j == |s| || StartsName(s[j]) {
      PlainStop(s, j);
    } else {
      PlainFirst(defs, active, s, j);
      var e := PlainEnd(s, i);
      assert s[i..e] == s[i..j] + s[j..e];
    }
  }

  /** A complete literal is kept as it is. */
  lemma LiteralLaw(defs: map<Bytes, Bytes>, active: set<Bytes>, s: Bytes, i: nat, j: nat)
    requires IsLiteral(s, i, j)
    ensures PlainEnd(s, i) == PlainEnd(s, j)
    ensures Expand(defs, active, s, i) == s[i..j] + Expand(defs, active, s, j)
  {
    LiteralEnd(s, i, j);
    Skipped(defs, active, s, i, j);
  }

  /** So is everything behind the start of a literal that has no end. */
  lemma OpenLaw(defs: map<Bytes, Bytes>, active: set<Bytes>, s: Bytes, i: nat)
    requires IsOpen(s, i)
    ensures PlainEnd(s, i) == |s| && Expand(defs, active, s, i) == s[i..]
  {
    OpenEnd(s, i);
    Skipped(defs, active, s, i, |s|);
    assert s[i..|s|] + [] == s[i..];
  }

  /** A numeric constant is kept as it is. */
  lemma NumberLaw(defs: map<Bytes, Bytes>, active: set<Bytes>, s: Bytes, i: nat, j: nat)
    requires IsNumber(s, i, j)
    ensures i < j <= |s| && PlainEnd(s, i) == PlainEnd(s, j)
    ensures Expand(defs, active, s, i) == s[i..j] + Expand(defs, active, s, j)
  {
    Classes(s[i]);
    NumberEndIs(s, i, j);
    hide IsNumber, NumberEnd, Expand;
    Skipped(defs, active, s, i, j);
  }

  /** A comment is kept as it is, and reaches to the end. */
  lemma CommentLaw(defs: map<Bytes, Bytes>, active: set<Bytes>, s: Bytes, i: nat)
    requires i < |s| && s[i] == '#' as int
    ensures PlainEnd(s, i) == |s| && Expand(defs, active, s, i) == s[i..]
  {
    Skipped(defs, active, s, i, |s|);
    assert s[i..|s|] + [] == s[i..];
  }

  /** Any other character that starts no name stands for itself. */
  lemma OtherLaw(defs: map<Bytes, Bytes>, active: set<Bytes>, s: Bytes, i: nat)
    requires i < |s| && s[i] != '#' as int && !Quote(s[i]) && !Digit(s[i]) && !Letter(s[i]) && s[i] != '_' as int
    ensures PlainEnd(s, i) == PlainEnd(s, i + 1)
    ensures Expand(defs, active, s, i) == [s[i]] + Expand(defs, active, s, i + 1)
  {
    Classes(s[i]);
    Skipped(defs, active, s, i, i + 1);
    assert s[i..i + 1] == [s[i]];
  }

  /** s[i..j] is a name: a letter or underscore and all the letters, digits and underscores after it. */
  ghost predicate IsName(s: Bytes, i: nat, j: nat) {
    && i < j <= |s| && (Letter(s[i]) || s[i] == '_' as int)
    && (forall k :: i < k < j ==> Letter(s[k]) || Digit(s[k]) || s[k] == '_' as int)
    && (j < |s| ==> !Letter(s[j]) && !Digit(s[j]) && s[j] != '_' as int)
  }

  lemma NameEndIs(s: Bytes, i: nat, j: nat)
    requires IsName(s, i, j)
    ensures StartsName(s[i]) && NameEnd(s, i + 1) == j
  {
    Classes(s[i]);
    var e := NameEnd(s, i + 1);
    forall k | i < k < |s|
      ensures InName(s[k]) <==> Letter(s[k]) || Digit(s[k]) || s[k] == '_' as int
    {
      Classes(s[k]);
    }
    hide NameEnd, InName, Letter, Digit;
  }

  /** A name stands for the expansion of its value, without that name, or for itself. */
  lemma NameLaw(defs: map<Bytes, Bytes>, active: set<Bytes>, s: Bytes, i: nat, j: nat)
    requires IsName(s, i, j)
    ensures PlainEnd(s, i) == i
    ensures var name := s[i..j];
            Expand(defs, active, s, i)
            == (if name in defs && name !in active then Expand(defs, active + {name}, defs[name], 0) else name)
               + Expand(defs, active, s, j)
  {
    NameEndIs(s, i, j);
  }

  // ----- only what follows matters

  lemma {:induction false} NameEndShift(a: Bytes, s: Bytes, i: nat)
    requires i <= |s|
    ensures NameEnd(a + s, |a| + i) == |a| + NameEnd(s, i)
    decreases |s| - i
  {
    if i < |s| {
      NameEndShift(a, s, i + 1);
    }
  }

  lemma {:induction false} DigitsEndShift(a: Bytes, s: Bytes, i: nat)
    requires i <= |s|
    ensures DigitsEnd(a + s, |a| + i) == |a| + DigitsEnd(s, i)
    decreases |s| - i
  {
    if i < |s| {
      DigitsEndShift(a, s, i + 1);
    }
  }

  lemma {:induction false} AlnumEndShift(a: Bytes, s: Bytes, i: nat)
    requires i <= |s|
    ensures AlnumEnd(a + s, |a| + i) == |a| + AlnumEnd(s, i)
    decreases |s| - i
  {
    if i < |s| {
      AlnumEndShift(a, s, i + 1);
    }
  }

  lemma {:induction false} QuoteEndShift(a: Bytes, s: Bytes, i: nat, q: int)
    requires i <= |s|
    ensures QuoteEnd(a + s, |a| + i, q) == |a| + QuoteEnd(s, i, q)
    decreases |s| - i
  {
    if i < |s| {
      QuoteEndShift(a, s, i + 1, q);
      if i + 1 < |s| {
        QuoteEndShift(a, s, i + 2, q);
      }
    }
  }

  lemma AtShift(a: Bytes, s: Bytes, i: nat)
    ensures At(a + s, |a| + i) == At(s, i)
  {
  }

  lemma ExponentEndShift(a: Bytes, s: Bytes, k: nat)
    requires k <= |s|
    ensures ExponentEnd(a + s, |a| + k) == |a| + ExponentEnd(s, k)
  {
    AtShift(a, s, k);
    AtShift(a, s, k + 1);
    MarkInside(s, k);
    MarkInside(s, k + 1);
    if k < |s| {
      DigitsEndShift(a, s, k + 1);
      if k + 1 < |s| {
        DigitsEndShift(a, s, k + 2);
      }
    }
    hide At, DigitsEnd;
  }

  lemma NumberRestShift(a: Bytes, s: Bytes, j: nat)
    requires j <= |s|
    ensures NumberRest(a + s, |a| + j) == |a| + NumberRest(s, j)
  {
    AtShift(a, s, j);
    MarkInside(s, j);
    hide At, DigitsEnd, AlnumEnd, ExponentEnd, IsRadixMark;
    if IsRadixMark(At(s, j)) {
      AlnumEndShift(a, s, j + 1);
    } else if At(s, j) == 46 {
      DigitsEndShift(a, s, j + 1);
      ExponentEndShift(a, s, DigitsEnd(s, j + 1));
    } else {
      ExponentEndShift(a, s, j);
    }
  }

  lemma NumberEndShift(a: Bytes, s: Bytes, i: nat)
    requires i < |s|
    ensures NumberEnd(a + s, |a| + i) == |a| + NumberEnd(s, i)
  {
    hide NumberEnd, NumberRest, DigitsEnd;
    NumberStep(s, i);
    NumberStep(a + s, |a| + i);
    DigitsEndShift(a, s, i + 1);
    NumberRestShift(a, s, DigitsEnd(s, i + 1));
  }

  /** The end of the token at p, which starts no name. */
  function TokenEnd(s: Bytes, p: nat): (e: nat)
    requires p < |s|
    ensures p < e <= |s|
  {
    if IsDigit(s[p]) then NumberEnd(s, p)
    else if s[p] == HASH then |s|
    else if s[p] == DOUBLE_QUOTE || s[p] == SINGLE_QUOTE then
      var q := QuoteEnd(s, p + 1, s[p]);
      if q < |s| then q + 1 else q
    else p + 1
  }

  lemma PlainStep(s: Bytes, p: nat)
    requires p < |s| && !StartsName(s[p])
    ensures PlainEnd(s, p) == PlainEnd(s, TokenEnd(s, p))
  {
  }

  lemma TokenEndShift(a: Bytes, s: Bytes, p: nat)
    requires p < |s|
    ensures TokenEnd(a + s, |a| + p) == |a| + TokenEnd(s, p)
  {
    assert (a + s)[|a| + p] == s[p];
    hide NumberEnd, QuoteEnd, IsDigit;
    if IsDigit(s[p]) {
      NumberEndShift(a, s, p);
    } else {
      QuoteEndShift(a, s, p + 1, s[p]);
    }
  }

  lemma {:induction false} PlainEndShift(a: Bytes, s: Bytes, p: nat)
    requires p <= |s|
    ensures PlainEnd(a + s, |a| + p) == |a| + PlainEnd(s, p)
    decreases |s| - p
  {
    hide PlainEnd, StartsName, TokenEnd;
    assert p < |s| ==> (a + s)[|a| + p] == s[p];
    if p < |s| && !StartsName(s[p]) {
      PlainStep(s, p);
      PlainStep(a + s, |a| + p);
      TokenEndShift(a, s, p);
      PlainEndShift(a, s, TokenEnd(s, p));
    } else {
      PlainStop(s, p);
      PlainStop(a + s, |a| + p);
    }
  }

  lemma NameFirst(defs: map<Bytes, Bytes>, active: set<Bytes>, s: Bytes, i: nat)
    requires i < |s| && StartsName(s[i])
    ensures var e := NameEnd(s, i + 1);
            var name := s[i..e];
            Expand(defs, active, s, i)
            == (if name in defs && name !in active then Expand(defs, active + {name}, defs[name], 0) else name)
               + Expand(defs, active, s, e)
  {
  }

  lemma ExpandEnd(defs: map<Bytes, Bytes>, active: set<Bytes>, s: Bytes)
    ensures Expand(defs, active, s, |s|) == []
  {
  }

  /** The expansion of a text from some place on is that of the text from there. */
  lemma {:induction false} ExpandShift(defs: map<Bytes, Bytes>, active: set<Bytes>, a: Bytes, s: Bytes, i: nat)
    requires i <= |s|
    ensures Expand(defs, active, a + s, |a| + i) == Expand(defs, active, s, i)
    decreases |s| - i
  {
    hide Expand, NameEnd, PlainEnd, StartsName;
    if i == |s| {
      ExpandEnd(defs, active, s);
      ExpandEnd(defs, active, a + s);
    } else {
      assert (a + s)[|a| + i] == s[i];
      var e := if StartsName(s[i]) then NameEnd(s, i + 1) else PlainEnd(s, i);
      if StartsName(s[i]) {
        NameEndShift(a, s, i + 1);
        NameFirst(defs, active, s, i);
        NameFirst(defs, active, a + s, |a| + i);
      } else {
        PlainEndShift(a, s, i);
        PlainFirst(defs, active, s, i);
        PlainFirst(defs, active, a + s, |a| + i);
      }
      SliceShift(a, s, i, e);
      ExpandShift(defs, active, a, s, e);
    }
  }

  lemma SliceShift(a: Bytes, s: Bytes, i: nat, e: nat)
    requires i <= e <= |s|
    ensures (a + s)[|a| + i..|a| + e] == s[i..e]
  {
  }

  /** A complete literal in front of a text. */
  lemma LiteralFirst(defs: map<Bytes, Bytes>, active: set<Bytes>, lit: Bytes, rest: Bytes)
    requires IsLiteral(lit, 0, |lit|)
    ensures Expand(defs, active, lit + rest, 0) == lit + Expand(defs, active, rest, 0)
  {
    LiteralWithRest(lit, rest);
    LiteralLaw(defs, active, lit + rest, 0, |lit|);
    ExpandShift(defs, active, lit, rest, 0);
    assert (lit + rest)[0..|lit|] == lit;
  }

  lemma LiteralWithRest(lit: Bytes, rest: Bytes)
    requires IsLiteral(lit, 0, |lit|)
    ensures IsLiteral(lit + rest, 0, |lit|)
  {
    var s := lit + rest;
    forall k | 1 <= k < |lit|
      ensures Escaped(s, 1, k) == Escaped(lit, 1, k)
    {
      RunSame(lit, rest, 1, k);
    }
    hide Escaped;
  }

  lemma {:induction false} RunSame(lit: Bytes, rest: Bytes, i: nat, k: nat)
    requires i <= k <= |lit|
    ensures Run(lit + rest, i, k) == Run(lit, i, k)
    decreases k
  {
    if k > i {
      RunSame(lit, rest, i, k - 1);
    }
  }

  /** A numeric constant in front of a text that does not go on with it. */
  lemma NumberFirst(defs: map<Bytes, Bytes>, active: set<Bytes>, num: Bytes, rest: Bytes)
    requires IsNumber(num + rest, 0, |num|)
    ensures Expand(defs, active, num + rest, 0) == num + Expand(defs, active, rest, 0)
  {
    hide IsNumber;
    NumberLaw(defs, active, num + rest, 0, |num|);
    ExpandShift(defs, active, num, rest, 0);
    assert (num + rest)[0..|num|] == num;
  }

  /** The name M stands for 10, but not after an escaped quote inside a literal. */
  lemma EscapedQuote()
    ensures var lit: Bytes := [34, 97, 92, 34, 77, 34];   // "a\"M"
            var defs: map<Bytes, Bytes> := map[[77] := [49, 48]];
            Expand(defs, {}, lit, 0) == lit && Expand(defs, {}, [77], 0) == [49, 48]
  {
    var lit: Bytes := [34, 97, 92, 34, 77, 34];
    var defs: map<Bytes, Bytes> := map[[77] := [49, 48]];
    assert Run(lit, 1, 1) == 0 && Run(lit, 1, 2) == 0 && Run(lit, 1, 3) == 1 && Run(lit, 1, 4) == 0
           && Run(lit, 1, 5) == 0;
    assert IsLiteral(lit, 0, 6);
    LiteralFirst(defs, {}, lit, []);
    assert lit + [] == lit;
    NameLaw(defs, {}, [77], 0, 1);
    assert [77][0..1] == [77];
    NothingLeft(defs, {} + {[77]}, [49, 48], 0);
    ExpandEnd(defs, {}, [77]);
  }
}
