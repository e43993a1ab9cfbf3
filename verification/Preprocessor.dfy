/** Macro expansion in the preprocessor: scanning, the definition table and the stack of buffers. */
module Preprocessor {
  import opened Base

  // ----- characters

  /** A text never contains the terminating NUL. */
  predicate IsText(s: Bytes) { 0 !in s }

  /** The text in a buffer, up to the first NUL. */
  function UpToNul(buf: Bytes): (s: Bytes)
    ensures IsText(s) && s <= buf && (|s| < |buf| ==> buf[|s|] == 0)
  {
    if buf == [] || buf[0] == 0 then [] else [buf[0]] + UpToNul(buf[1..])
  }

  const DOLLAR := 36
  const UNDERSCORE := 95
  const HASH := 35
  const DOUBLE_QUOTE := 34
  const SINGLE_QUOTE := 39
  const BACKSLASH := 92

  predicate IsDigit(c: int) { 48 <= c <= 57 }

  predicate IsAlpha(c: int) { 65 <= c <= 90 || 97 <= c <= 122 }

  predicate IsAlnum(c: int) { IsAlpha(c) || IsDigit(c) }

  predicate StartsName(c: int) { IsAlpha(c) || c == UNDERSCORE }

  predicate InName(c: int) { IsAlnum(c) || c == UNDERSCORE }

  /** `s[i]`, with the NUL behind the text. */
  function At(s: Bytes, i: nat): byte {
    if i < |s| then s[i] else 0
  }

  // ----- lines that are directives

  predicate IsSpace(c: int) { 9 <= c <= 13 || c == 32 }

  predicate IsPunct(c: int) { 33 <= c <= 126 && !IsAlnum(c) }

  function SpaceEnd(s: Bytes, i: nat): (e: nat)
    requires i <= |s|
    ensures i <= e <= |s| && (forall k :: i <= k < e ==> IsSpace(s[k])) && (e < |s| ==> !IsSpace(s[e]))
    decreases |s| - i
  {
    if i < |s| && IsSpace(s[i]) then SpaceEnd(s, i + 1) else i
  }

  /** "#line ". */
  const LINE_MARK: seq<int> := [35, 108, 105, 110, 101, 32]

  /** A `$` that is first on the line, blanks apart, and not followed by punctuation; or a #line form. */
  predicate IsDirective(s: Bytes) {
    var p := SpaceEnd(s, 0);
    (At(s, p) == DOLLAR && !IsPunct(At(s, p + 1))) || LINE_MARK <= s
  }

  // ----- the tokens that are skipped

  function NameEnd(s: Bytes, i: nat): (e: nat)
    requires i <= |s|
    ensures i <= e <= |s| && (forall k :: i <= k < e ==> InName(s[k])) && (e < |s| ==> !InName(s[e]))
    decreases |s| - i
  {
    if i < |s| && InName(s[i]) then NameEnd(s, i + 1) else i
  }

  function DigitsEnd(s: Bytes, i: nat): (e: nat)
    requires i <= |s|
    ensures i <= e <= |s| && (forall k :: i <= k < e ==> IsDigit(s[k])) && (e < |s| ==> !IsDigit(s[e]))
    decreases |s| - i
  {
    if i < |s| && IsDigit(s[i]) then DigitsEnd(s, i + 1) else i
  }

  function AlnumEnd(s: Bytes, i: nat): (e: nat)
    requires i <= |s|
    ensures i <= e <= |s| && (forall k :: i <= k < e ==> IsAlnum(s[k])) && (e < |s| ==> !IsAlnum(s[e]))
    decreases |s| - i
  {
    if i < |s| && IsAlnum(s[i]) then AlnumEnd(s, i + 1) else i
  }

  predicate IsRadixMark(c: int) { c == 114 || c == 82 }

  predicate IsExponentMark(c: int) { c == 101 || c == 69 }

  predicate IsSign(c: int) { c == 43 || c == 45 }

  function ExponentEnd(s: Bytes, k: nat): (e: nat)
    requires k <= |s|
    ensures k <= e <= |s|
  {
    if !IsExponentMark(At(s, k)) then k
    else if IsSign(At(s, k + 1)) then DigitsEnd(s, k + 2)
    else DigitsEnd(s, k + 1)
  }

  /** The end of a numeric constant: digits, then a radix part, or a fraction and an exponent. */
  function NumberEnd(s: Bytes, i: nat): (e: nat)
    requires i < |s|
    ensures i < e <= |s|
  {
    var j := DigitsEnd(s, i + 1);
    if IsRadixMark(At(s, j)) then AlnumEnd(s, j + 1)
    else
      ExponentEnd(s, if At(s, j) == 46 then DigitsEnd(s, j + 1) else j)
  }

  /** The place of the next unescaped q, or the end of the text. */
  function QuoteEnd(s: Bytes, i: nat, q: int): (e: nat)
    requires i <= |s|
    ensures i <= e <= |s|
    decreases |s| - i
  {
    if i == |s| || s[i] == q then i
    else if s[i] == BACKSLASH then (if i + 1 == |s| then i + 1 else QuoteEnd(s, i + 2, q))
    else QuoteEnd(s, i + 1, q)
  }

  /** The end of the stretch from p on in which no name can start: up to the next name, or through a comment. */
  function PlainEnd(s: Bytes, p: nat): (e: nat)
    requires p <= |s|
    ensures p <= e <= |s|
    ensures p < |s| && !StartsName(s[p]) ==> p < e
    ensures e < |s| ==> StartsName(s[e])
    decreases |s| - p
  {
    if p == |s| || StartsName(s[p]) then p
    else if IsDigit(s[p]) then PlainEnd(s, NumberEnd(s, p))
    else if s[p] == HASH then |s|
    else if s[p] == DOUBLE_QUOTE || s[p] == SINGLE_QUOTE then
      var q := QuoteEnd(s, p + 1, s[p]);
      PlainEnd(s, if q < |s| then q + 1 else q)
    else PlainEnd(s, p + 1)
  }

  // ----- what a text stands for

  /**
   * The text from i on with every defined name replaced by the expansion of its value;
   * a name that is being expanded stands for itself.
   */
  function Expand(defs: map<Bytes, Bytes>, active: set<Bytes>, s: Bytes, i: nat): Bytes
    requires i <= |s|
    decreases defs.Keys - active, |s| - i
  {
    if i == |s| then []
    else if StartsName(s[i]) then
      var e := NameEnd(s, i + 1);
      var name := s[i..e];
      var rest := Expand(defs, active, s, e);
      if name in defs && name !in active then Expand(defs, active + {name}, defs[name], 0) + rest
      else name + rest
    else
      var e := PlainEnd(s, i);
      s[i..e] + Expand(defs, active, s, e)
  }

  // ----- what is delivered for it

  /** `*p & 0xFF`. */
  function Code(c: byte): (k: nat)
    ensures k < 256 && (k - c) % 256 == 0
  {
    if c < 0 then c + 256 else c
  }

  function Codes(s: Bytes): (k: seq<int>)
    ensures |k| == |s| && forall i :: 0 <= i < |s| ==> k[i] == Code(s[i])
  {
    seq(|s|, i requires 0 <= i < |s| => Code(s[i]))
  }

  /** The first character as it is, the others as their codes. */
  function RawFirst(s: Bytes): seq<int>
    requires s != []
  {
    [s[0]] + Codes(s[1..])
  }

  /** The numbers delivered for the text from i on: a stretch without names starts with an unmasked char. */
  function Delivered(defs: map<Bytes, Bytes>, active: set<Bytes>, s: Bytes, i: nat): seq<int>
    requires i <= |s|
    decreases defs.Keys - active, |s| - i
  {
    if i == |s| then []
    else if StartsName(s[i]) then
      var e := NameEnd(s, i + 1);
      var name := s[i..e];
      var rest := Delivered(defs, active, s, e);
      if name in defs && name !in active then Delivered(defs, active + {name}, defs[name], 0) + rest
      else RawFirst(name) + rest
    else
      var e := PlainEnd(s, i);
      RawFirst(s[i..e]) + Delivered(defs, active, s, e)
  }

  /** No stretch without names that the expansion of the text reaches begins with a negative char. */
  predicate HeadsMasked(defs: map<Bytes, Bytes>, active: set<Bytes>, s: Bytes, i: nat)
    requires i <= |s|
    decreases defs.Keys - active, |s| - i
  {
    if i == |s| then true
    else if StartsName(s[i]) then
      var e := NameEnd(s, i + 1);
      var name := s[i..e];
      && (name in defs && name !in active ==> HeadsMasked(defs, active + {name}, defs[name], 0))
      && HeadsMasked(defs, active, s, e)
    else
      s[i] >= 0 && HeadsMasked(defs, active, s, PlainEnd(s, i))
  }

  /** The characters of e, each with or without the mask to 8 bits. */
  ghost predicate Delivers(out: seq<int>, e: Bytes) {
    |out| == |e| && forall k :: 0 <= k < |e| ==> out[k] == e[k] || out[k] == Code(e[k])
  }

  ghost predicate SevenBit(e: Bytes) {
    forall k :: 0 <= k < |e| ==> e[k] >= 0
  }

  lemma RawFirstIs(s: Bytes)
    requires s != []
    ensures Delivers(RawFirst(s), s)
    ensures RawFirst(s) == Codes(s) <==> s[0] >= 0
  {
    assert RawFirst(s)[0] == s[0] && Codes(s)[0] == Code(s[0]);
    assert s[0] >= 0 ==> RawFirst(s) == Codes(s);
  }

  lemma CodesAppend(a: Bytes, b: Bytes, x: seq<int>, y: seq<int>)
    requires |x| == |a| && |y| == |b|
    ensures x + y == Codes(a + b) <==> x == Codes(a) && y == Codes(b)
  {
    assert Codes(a + b) == Codes(a) + Codes(b);
    assert (x + y)[..|a|] == x && (x + y)[|a|..] == y;
    assert (Codes(a) + Codes(b))[..|a|] == Codes(a) && (Codes(a) + Codes(b))[|a|..] == Codes(b);
  }

  lemma DeliversAppend(a: Bytes, b: Bytes, x: seq<int>, y: seq<int>)
    requires Delivers(x, a) && Delivers(y, b)
    ensures Delivers(x + y, a + b)
  {
  }

  /**
   * What is delivered is the expansion, each character with or without the mask;
   * it is the codes of the expansion exactly if no stretch begins with a negative char.
   */
  lemma {:induction false} DeliveredCodes(defs: map<Bytes, Bytes>, active: set<Bytes>, s: Bytes, i: nat)
    requires i <= |s|
    ensures Delivers(Delivered(defs, active, s, i), Expand(defs, active, s, i))
    ensures Delivered(defs, active, s, i) == Codes(Expand(defs, active, s, i)) <==> HeadsMasked(defs, active, s, i)
    decreases defs.Keys - active, |s| - i
  {
    if i < |s| {
      var e := if StartsName(s[i]) then NameEnd(s, i + 1) else PlainEnd(s, i);
      var front := s[i..e];
      var a, x := front, RawFirst(front);
      RawFirstIs(front);
      if StartsName(s[i]) && front in defs && front !in active {
        DeliveredCodes(defs, active + {front}, defs[front], 0);
        a, x := Expand(defs, active + {front}, defs[front], 0), Delivered(defs, active + {front}, defs[front], 0);
      }
      DeliveredCodes(defs, active, s, e);
      CodesAppend(a, Expand(defs, active, s, e), x, Delivered(defs, active, s, e));
      DeliversAppend(a, Expand(defs, active, s, e), x, Delivered(defs, active, s, e));
    }
  }

  /** A text of codes below 128 is delivered as it is. */
  lemma SevenBitSame(out: seq<int>, e: Bytes)
    requires Delivers(out, e)
    ensures SevenBit(e) ==> out == e
  {
  }

  /** The number of replacements, and of returns from them, on the way through a text. */
  function Turns(defs: map<Bytes, Bytes>, active: set<Bytes>, s: Bytes, i: nat): nat
    requires i <= |s|
    decreases defs.Keys - active, |s| - i
  {
    if i == |s| then 0
    else if StartsName(s[i]) then
      var e := NameEnd(s, i + 1);
      var name := s[i..e];
      var rest := Turns(defs, active, s, e);
      if name in defs && name !in active then 2 + Turns(defs, active + {name}, defs[name], 0) + rest
      else rest
    else
      Turns(defs, active, s, PlainEnd(s, i))
  }

  /** When every defined name is being expanded, the text stands for itself. */
  lemma {:induction false} NothingLeft(defs: map<Bytes, Bytes>, active: set<Bytes>, s: Bytes, i: nat)
    requires i <= |s| && defs.Keys <= active
    ensures Expand(defs, active, s, i) == s[i..]
    decreases |s| - i
  {
    if i < |s| {
      var e := if StartsName(s[i]) then NameEnd(s, i + 1) else PlainEnd(s, i);
      NothingLeft(defs, active, s, e);
      assert s[i..] == s[i..e] + s[e..];
    }
  }

  // ----- the definition table

  const HTBINS := 256

  datatype Def = Def(name: Bytes, value: Bytes, inuse: bool)

  /** The hash of a name so far; unsigned arithmetic. */
  function HashOf(name: Bytes, n: nat): (h: nat)
    requires n <= |name|
    ensures h < 0x1_0000_0000
  {
    if n == 0 then 0 else (37 * HashOf(name, n - 1) + Code(name[n - 1])) % 0x1_0000_0000
  }

  function Bin(name: Bytes): (h: nat)
    ensures h < HTBINS
  {
    HashOf(name, |name|) % HTBINS
  }

  type Table = t: seq<seq<Def>> | |t| == HTBINS witness seq(HTBINS, _ => [])

  /** Every definition is in its bin, and no name is defined twice. */
  ghost predicate TableOk(t: Table) {
    && (forall h, k | 0 <= h < |t| && 0 <= k < |t[h]| :: Bin(t[h][k].name) == h && t[h][k].name != [])
    && (forall h, k | 0 <= h < |t| && 0 <= k < |t[h]| :: IsText(t[h][k].name) && IsText(t[h][k].value))
    && (forall h, k, l | 0 <= h < |t| && 0 <= k < l < |t[h]| :: t[h][k].name != t[h][l].name)
  }

  /** The first definition of the name in a chain. */
  function Find(chain: seq<Def>, name: Bytes): (k: nat)
    ensures k <= |chain| && (forall l :: 0 <= l < k ==> chain[l].name != name)
            && (k < |chain| ==> chain[k].name == name)
  {
    if chain == [] || chain[0].name == name then 0 else 1 + Find(chain[1..], name)
  }

  ghost function Names(t: Table): set<Bytes> {
    set h, k | 0 <= h < |t| && 0 <= k < |t[h]| :: t[h][k].name
  }

  /** What the table defines. */
  ghost function Meaning(t: Table): map<Bytes, Bytes> {
    map n | n in Names(t) && Find(t[Bin(n)], n) < |t[Bin(n)]| :: t[Bin(n)][Find(t[Bin(n)], n)].value
  }

  lemma MeaningIs(t: Table, name: Bytes)
    requires TableOk(t)
    ensures var c := t[Bin(name)]; var k := Find(c, name);
            && (name in Meaning(t) <==> k < |c|)
            && (k < |c| ==> Meaning(t)[name] == c[k].value && IsText(c[k].value))
    ensures name in Meaning(t) <==> name in Names(t)
  {
    var c := t[Bin(name)];
    if Find(c, name) < |c| {
      assert c[Find(c, name)].name in Names(t);
    }
  }

  /** The marks say exactly which names are being expanded. */
  ghost predicate Marked(t: Table, active: set<Bytes>) {
    && (forall h, k | 0 <= h < |t| && 0 <= k < |t[h]| :: t[h][k].inuse <==> t[h][k].name in active)
    && active <= Names(t)
  }

  /** The table with the mark of one definition set. */
  function Mark(t: Table, name: Bytes, inuse: bool): Table {
    var h := Bin(name);
    var k := Find(t[h], name);
    if k < |t[h]| then t[h := t[h][k := t[h][k].(inuse := inuse)]] else t
  }

  lemma MarkIs(t: Table, name: Bytes, inuse: bool)
    ensures var u, h := Mark(t, name, inuse), Bin(name);
            var i := Find(t[h], name);
            forall g | 0 <= g < |t| :: |u[g]| == |t[g]| &&
              forall k | 0 <= k < |t[g]| :: u[g][k] == if g == h && k == i then t[g][k].(inuse := inuse) else t[g][k]
  {
  }

  lemma OnlyPlace(t: Table, name: Bytes, g: nat, k: nat)
    requires TableOk(t) && g < |t| && k < |t[g]| && t[g][k].name == name
    ensures g == Bin(name) && k == Find(t[g], name)
  {
    var i := Find(t[g], name);
    assert i <= k && t[g][i].name == name;
  }

  lemma MarkKeeps(t: Table, name: Bytes, inuse: bool, active: set<Bytes>)
    requires TableOk(t) && name in Names(t) && Marked(t, active)
    ensures TableOk(Mark(t, name, inuse)) && Meaning(Mark(t, name, inuse)) == Meaning(t)
    ensures Marked(Mark(t, name, inuse), if inuse then active + {name} else active - {name})
  {
    var u := Mark(t, name, inuse);
    MarkIs(t, name, inuse);
    hide Mark, Find, Bin, Meaning, Names;
    SameNames(t, u);
    forall g, k | 0 <= g < |u| && 0 <= k < |u[g]|
      ensures u[g][k].inuse <==> u[g][k].name in (if inuse then active + {name} else active - {name})
    {
      if t[g][k].name == name {
        OnlyPlace(t, name, g, k);
      }
    }
  }

  /** The two tables differ in marks only. */
  ghost predicate Alike(t: Table, u: Table) {
    forall g | 0 <= g < |t| :: |u[g]| == |t[g]| &&
      forall k | 0 <= k < |t[g]| :: u[g][k].name == t[g][k].name && u[g][k].value == t[g][k].value
  }

  lemma AlikeNames(t: Table, u: Table, n: Bytes)
    requires Alike(t, u)
    ensures n in Names(t) <==> n in Names(u)
  {
    if n in Names(t) {
      var h, k :| 0 <= h < |t| && 0 <= k < |t[h]| && t[h][k].name == n;
      assert u[h][k].name == n;
    }
    if n in Names(u) {
      var h, k :| 0 <= h < |u| && 0 <= k < |u[h]| && u[h][k].name == n;
      assert t[h][k].name == n;
    }
  }

  lemma AlikeFind(t: Table, u: Table, n: Bytes)
    requires Alike(t, u)
    ensures Find(t[Bin(n)], n) == Find(u[Bin(n)], n)
  {
    var h := Bin(n);
    assert |u[h]| == |t[h]|;
  }

  /** Marks do not affect what a table defines. */
  lemma SameNames(t: Table, u: Table)
    requires TableOk(t) && Alike(t, u)
    ensures TableOk(u) && Names(u) == Names(t) && Meaning(u) == Meaning(t)
  {
    hide Find, Bin, Names;
    forall n
      ensures n in Names(t) <==> n in Names(u)
      ensures Find(t[Bin(n)], n) == Find(u[Bin(n)], n)
    {
      AlikeNames(t, u, n);
      AlikeFind(t, u, n);
    }
    assert Names(u) == Names(t);
    assert Meaning(u) == Meaning(t);
  }

  /** A definition anywhere in the table is the meaning of its name. */
  lemma DefMeans(t: Table, h: nat, k: nat)
    requires TableOk(t) && h < |t| && k < |t[h]|
    ensures t[h][k].name in Meaning(t) && Meaning(t)[t[h][k].name] == t[h][k].value
  {
    OnlyPlace(t, t[h][k].name, h, k);
    MeaningIs(t, t[h][k].name);
  }

  lemma MeaningFrom(t: Table, n: Bytes) returns (k: nat)
    requires TableOk(t) && n in Meaning(t)
    ensures k < |t[Bin(n)]| && t[Bin(n)][k].name == n
  {
    MeaningIs(t, n);
    k := Find(t[Bin(n)], n);
  }

  /** A new definition goes to the front of its chain. */
  function Installed(t: Table, d: Def): Table {
    t[Bin(d.name) := [d] + t[Bin(d.name)]]
  }

  lemma InstallMeans(t: Table, d: Def)
    requires TableOk(t) && d.name != [] && IsText(d.name) && IsText(d.value)
    requires d.name !in Meaning(t) && !d.inuse && Marked(t, {})
    ensures TableOk(Installed(t, d)) && Marked(Installed(t, d), {})
    ensures Meaning(Installed(t, d)) == Meaning(t)[d.name := d.value]
  {
    var u, h := Installed(t, d), Bin(d.name);
    hide Find, Bin, Meaning, Names;
    forall k | 0 <= k < |t[h]|
      ensures t[h][k].name != d.name
    {
      DefMeans(t, h, k);
    }
    assert TableOk(u);
    forall n | n in Meaning(u)
      ensures n in Meaning(t)[d.name := d.value]
    {
      var k := MeaningFrom(u, n);
      if n != d.name {
        DefMeans(t, Bin(n), if Bin(n) == h then k - 1 else k);
      }
    }
    forall n | n in Meaning(t)[d.name := d.value]
      ensures n in Meaning(u) && Meaning(u)[n] == Meaning(t)[d.name := d.value][n]
    {
      if n == d.name {
        DefMeans(u, h, 0);
      } else {
        var k := MeaningFrom(t, n);
        DefMeans(t, Bin(n), k);
        DefMeans(u, Bin(n), if Bin(n) == h then k + 1 else k);
      }
    }
  }

  /** A chain without its definition of a name. */
  function Removed(t: Table, name: Bytes): Table {
    var h := Bin(name);
    var k := Find(t[h], name);
    if k < |t[h]| then t[h := t[h][..k] + t[h][k + 1..]] else t
  }

  lemma RemovedAt(t: Table, name: Bytes)
    ensures var u, h := Removed(t, name), Bin(name);
            var i := Find(t[h], name);
            if i == |t[h]| then u == t
            else (forall g | 0 <= g < |t| :: |u[g]| == |t[g]| - (if g == h then 1 else 0) &&
                   forall k | 0 <= k < |u[g]| :: u[g][k] == t[g][if g == h && k >= i then k + 1 else k])
  {
  }

  lemma RemovedOk(t: Table, name: Bytes)
    requires TableOk(t) && Marked(t, {})
    ensures TableOk(Removed(t, name)) && Marked(Removed(t, name), {})
  {
    RemovedAt(t, name);
    hide Removed, Find, Bin, Names;
  }

  /** A definition of another name stays. */
  lemma RemovedKeeps(t: Table, name: Bytes, n: Bytes)
    requires TableOk(t) && TableOk(Removed(t, name)) && n in Meaning(t) && n != name
    ensures n in Meaning(Removed(t, name)) && Meaning(Removed(t, name))[n] == Meaning(t)[n]
  {
    var u, h := Removed(t, name), Bin(name);
    var i := Find(t[h], name);
    var k := MeaningFrom(t, n);
    DefMeans(t, Bin(n), k);
    var l := if Bin(n) == h && k > i then k - 1 else k;
    RemovedPlace(t, name, Bin(n), k);
    hide Removed, Find, Bin, Names, Meaning, TableOk;
    DefMeans(u, Bin(n), l);
  }

  /** Where a definition is after another one has been removed. */
  lemma RemovedPlace(t: Table, name: Bytes, g: nat, k: nat)
    requires g < |t| && k < |t[g]| && t[g][k].name != name
    ensures var u, h := Removed(t, name), Bin(name);
            var l := if g == h && k > Find(t[h], name) then k - 1 else k;
            l < |u[g]| && u[g][l] == t[g][k]
  {
  }

  lemma RemovedOnly(t: Table, name: Bytes, n: Bytes)
    requires TableOk(t) && TableOk(Removed(t, name)) && n in Meaning(Removed(t, name))
    ensures n in Meaning(t) && n != name
  {
    hide Removed, Find, Bin, Names, Meaning, TableOk;
    var k := MeaningFrom(Removed(t, name), n);
    var l := RemovedFrom(t, name, Bin(n), k);
    DefMeans(t, Bin(n), l);
    if n == name {
      OnlyPlace(t, name, Bin(n), l);
    }
  }

  /** Where a definition was before another one was removed; not where the one removed was. */
  lemma RemovedFrom(t: Table, name: Bytes, g: nat, k: nat) returns (l: nat)
    requires g < |t| && k < |Removed(t, name)[g]|
    ensures l < |t[g]| && t[g][l] == Removed(t, name)[g][k] && (g == Bin(name) ==> l != Find(t[g], name))
  {
    var i := Find(t[Bin(name)], name);
    RemovedAt(t, name);
    hide Removed, Find, Bin;
    l := if g == Bin(name) && k >= i && i < |t[g]| then k + 1 else k;
  }

  lemma RemoveMeans(t: Table, name: Bytes)
    requires TableOk(t) && Marked(t, {})
    ensures TableOk(Removed(t, name)) && Marked(Removed(t, name), {})
    ensures Meaning(Removed(t, name)) == Meaning(t) - {name}
  {
    RemovedOk(t, name);
    hide TableOk, Removed, Meaning, Names;
    forall n | n in Meaning(Removed(t, name))
      ensures n in Meaning(t) && n != name
    {
      RemovedOnly(t, name, n);
    }
    forall n | n in Meaning(t) && n != name
      ensures n in Meaning(Removed(t, name)) && Meaning(Removed(t, name))[n] == Meaning(t)[n]
    {
      RemovedKeeps(t, name, n);
    }
  }

  // ----- the buffers

  /** A buffer that waits while a definition is being expanded. */
  datatype Frame = Frame(defn: Bytes, text: Bytes, ptr: nat, stop: nat)

  ghost function Active(stack: seq<Frame>): set<Bytes> {
    set k | 0 <= k < |stack| :: stack[k].defn
  }

  /** Waiting buffers resume where nothing has been scanned; each definition is being expanded once. */
  ghost predicate StackOk(stack: seq<Frame>) {
    && (forall k | 0 <= k < |stack| :: stack[k].ptr == stack[k].stop <= |stack[k].text| && IsText(stack[k].text))
    && (forall k, l | 0 <= k < l < |stack| :: stack[k].defn != stack[l].defn)
  }

  /** What the waiting buffers will deliver, the top one (the last) first. */
  ghost function Waiting(defs: map<Bytes, Bytes>, stack: seq<Frame>): seq<int>
    requires StackOk(stack)
  {
    if stack == [] then []
    else
      var below, f := stack[..|stack| - 1], stack[|stack| - 1];
      Delivered(defs, Active(below), f.text, f.stop) + Waiting(defs, below)
  }

  ghost function WaitingTurns(defs: map<Bytes, Bytes>, stack: seq<Frame>): nat
    requires StackOk(stack)
  {
    if stack == [] then 0
    else
      var below, f := stack[..|stack| - 1], stack[|stack| - 1];
      1 + Turns(defs, Active(below), f.text, f.stop) + WaitingTurns(defs, below)
  }

  lemma PushFrame(defs: map<Bytes, Bytes>, stack: seq<Frame>, f: Frame)
    requires StackOk(stack) && f.ptr == f.stop <= |f.text| && IsText(f.text) && f.defn !in Active(stack)
    ensures var s := stack + [f];
            && StackOk(s) && Active(s) == Active(stack) + {f.defn}
            && Waiting(defs, s) == Delivered(defs, Active(stack), f.text, f.stop) + Waiting(defs, stack)
            && WaitingTurns(defs, s) == 1 + Turns(defs, Active(stack), f.text, f.stop) + WaitingTurns(defs, stack)
  {
    var s := stack + [f];
    assert s[..|s| - 1] == stack;
    forall n | n in Active(stack)
      ensures n in Active(s)
    {
      var k :| 0 <= k < |stack| && stack[k].defn == n;
      assert s[k].defn == n;
    }
    assert s[|stack|].defn == f.defn;
    forall k, l | 0 <= k < l < |s|
      ensures s[k].defn != s[l].defn
    {
      assert s[k].defn in Active(stack);
    }
  }

  lemma PopFrame(stack: seq<Frame>)
    requires StackOk(stack) && stack != []
    ensures var below, f := stack[..|stack| - 1], stack[|stack| - 1];
            StackOk(below) && f.defn !in Active(below) && Active(below) == Active(stack) - {f.defn}
              && f.defn in Active(stack)
  {
    var below, f := stack[..|stack| - 1], stack[|stack| - 1];
    forall n | n in Active(stack) && n != f.defn
      ensures n in Active(below)
    {
      var k :| 0 <= k < |stack| && stack[k].defn == n;
      assert below[k].defn == n;
    }
    forall n | n in Active(below)
      ensures n in Active(stack)
    {
      var k :| 0 <= k < |below| && below[k].defn == n;
      assert stack[k].defn == n;
    }
  }

  class Reader {
    var cbin: Table
    var text: Bytes      // the current buffer, up to its limit
    var bnxt: nat        // the next character
    var bstop: nat       // the end of what has been checked for names
    var bstack: seq<Frame>

    ghost predicate Valid()
      reads this
    {
      && bnxt <= bstop <= |text| && IsText(text)
      && TableOk(cbin) && StackOk(bstack) && Marked(cbin, Active(bstack))
    }

    /** What the current line is still going to deliver. */
    ghost function Pending(): seq<int>
      requires Valid()
      reads this
    {
      var defs := Meaning(cbin);
      Codes(text[bnxt..bstop]) + Delivered(defs, Active(bstack), text, bstop) + Waiting(defs, bstack)
    }

    ghost function TurnsLeft(): nat
      requires Valid()
      reads this
    {
      Turns(Meaning(cbin), Active(bstack), text, bstop) + WaitingTurns(Meaning(cbin), bstack)
    }

    constructor ()
      ensures Valid() && Pending() == [] && Meaning(cbin) == map[] && bstack == []
    {
      cbin := seq(HTBINS, _ => []);
      text, bnxt, bstop, bstack := [], 0, 0, [];
    }

    /** `dlookup` of a reference: the definition of a name, if there is one. */
    method Reference(name: Bytes) returns (d: Option<Def>)
      requires Valid()
      ensures d.Some? <==> name in Meaning(cbin)
      ensures d.Some? ==> d.value.name == name && d.value.value == Meaning(cbin)[name]
                          && (d.value.inuse <==> name in Active(bstack))
    {
      MeaningIs(cbin, name);
      var chain := cbin[Bin(name)];
      var k := 0;
      while k < |chain|
        invariant k <= |chain| && forall l :: 0 <= l < k ==> chain[l].name != name
      {
        if chain[k].name == name {
          return Some(chain[k]);
        }
        k := k + 1;
      }
      return None;
    }

    /** `pushdef`: the value of a definition becomes the current buffer. */
    method PushDef(d: Def)
      requires Valid() && bnxt == bstop
      requires d.name in Meaning(cbin) && d.value == Meaning(cbin)[d.name] && d.name !in Active(bstack)
      modifies this
      ensures Valid() && Meaning(cbin) == old(Meaning(cbin))
      ensures text == d.value && bnxt == bstop == 0
      ensures bstack == old(bstack) + [Frame(d.name, old(text), old(bnxt), old(bstop))]
    {
      hide Mark, Meaning, Names, Delivered, Turns, TableOk, StackOk, Marked, Active;
      MeaningIs(cbin, d.name);
      MarkKeeps(cbin, d.name, true, Active(bstack));
      PushFrame(Meaning(cbin), bstack, Frame(d.name, text, bnxt, bstop));
      cbin := Mark(cbin, d.name, true);
      bstack := bstack + [Frame(d.name, text, bnxt, bstop)];
      text, bnxt, bstop := d.value, 0, 0;
    }

    /** The current buffer is used up: go back to the one that waits. */
    method PopDef()
      requires Valid() && bnxt == bstop == |text| && bstack != []
      modifies this
      ensures Valid() && Meaning(cbin) == old(Meaning(cbin)) && bnxt == bstop
      ensures Pending() == old(Pending()) && TurnsLeft() < old(TurnsLeft())
    {
      hide Mark, Meaning, Names, Delivered, Turns, TableOk, StackOk, Marked, Active;
      var b := bstack[|bstack| - 1];
      PopFrame(bstack);
      ActiveDefined(cbin, bstack);
      MarkKeeps(cbin, b.defn, false, Active(bstack));
      UsedUp(Meaning(cbin), bstack, text);
      cbin := Mark(cbin, b.defn, false);
      text, bnxt, bstop := b.text, b.ptr, b.stop;
      bstack := bstack[..|bstack| - 1];
    }

    /** The end of the name whose first character is at i. */
    method ScanName(i: nat) returns (p: nat)
      requires i < |text|
      ensures p == NameEnd(text, i + 1)
    {
      p := i + 1;
      while p < |text| && InName(text[p])
        invariant i < p <= |text| && NameEnd(text, i + 1) == NameEnd(text, p)
      {
        p := p + 1;
      }
    }

    /** Remove the name that ends at p from the input and push the value of its definition. */
    method Replace(d: Def, p: nat)
      requires Valid() && bnxt == bstop < |text| && StartsName(text[bnxt]) && p == NameEnd(text, bnxt + 1)
      requires d.name == text[bnxt..p] && d.name in Meaning(cbin) && d.value == Meaning(cbin)[d.name]
               && d.name !in Active(bstack)
      modifies this
      ensures Valid() && Meaning(cbin) == old(Meaning(cbin)) && bnxt == bstop
      ensures Pending() == old(Pending()) && TurnsLeft() < old(TurnsLeft())
    {
      hide Delivered, Turns, TableOk, StackOk, Marked, Meaning, Waiting, WaitingTurns, Active, NameEnd;
      ghost var defs := Meaning(cbin);
      NameNext(defs, Active(bstack), text, bnxt, Waiting(defs, bstack));
      PushFrame(defs, bstack, Frame(d.name, text, p, p));
      bnxt, bstop := p, p;
      PushDef(d);
    }

    /** Process one name, if that is what is next, or as much else as possible; true if a first character is ready. */
    method Scan() returns (r: Option<byte>)
      requires Valid() && bnxt == bstop < |text|
      modifies this
      ensures Valid() && Meaning(cbin) == old(Meaning(cbin))
      ensures r.Some? ==> old(Pending()) == [r.value] + Pending()
      ensures r.None? ==> bnxt == bstop && Pending() == old(Pending()) && TurnsLeft() < old(TurnsLeft())
    {
      hide Delivered, Turns, TableOk, StackOk, Marked, Meaning, PlainEnd, Waiting, WaitingTurns, Active, NameEnd,
           Codes, StartsName;
      var f := text[bnxt];
      if StartsName(f) {
        var p := ScanName(bnxt);
        var d := Reference(text[bnxt..p]);
        if d.Some? && !d.value.inuse {
          Replace(d.value, p);
          return None;
        }
        NameNext(Meaning(cbin), Active(bstack), text, bnxt, Waiting(Meaning(cbin), bstack));
        bstop := p;
      } else {
        var e := ScanPlain(bnxt);
        PlainNext(Meaning(cbin), Active(bstack), text, bnxt, Waiting(Meaning(cbin), bstack));
        bstop := e;
      }
      bnxt := bnxt + 1;
      return Some(f);
    }

    /** The end of the non-name stuff that starts at i. */
    method ScanPlain(i: nat) returns (e: nat)
      requires i < |text| && !StartsName(text[i])
      ensures e == PlainEnd(text, i)
    {
      var p := i;
      while p < |text|
        invariant p <= |text| && PlainEnd(text, p) == PlainEnd(text, i)
      {
        var c := text[p];
        if StartsName(c) {
          return p;
        } else if IsDigit(c) {
          p := NSkip(p);
        } else if c == HASH {
          return |text|;
        } else if c == DOUBLE_QUOTE || c == SINGLE_QUOTE {
          p := MatchQ(p);
          if p < |text| {
            p := p + 1;
          }
        } else {
          p := p + 1;
        }
      }
      return |text|;
    }

    /** `nskip`: skip over a numeric constant. */
    method NSkip(i: nat) returns (e: nat)
      requires i < |text|
      ensures i < e == NumberEnd(text, i)
    {
      hide DigitsEnd, AlnumEnd, IsRadixMark, ExponentEnd, At;
      e := SkipDigits(i + 1);
      MarkInside(text, e);
      if IsRadixMark(At(text, e)) {
        e := SkipAlnum(e + 1);
        return;
      }
      if At(text, e) == 46 {
        e := SkipDigits(e + 1);
      }
      e := SkipExponent(e);
    }

    method SkipExponent(k: nat) returns (e: nat)
      requires k <= |text|
      ensures e == ExponentEnd(text, k)
    {
      hide DigitsEnd, IsExponentMark, IsSign, At;
      e := k;
      MarkInside(text, e);
      if IsExponentMark(At(text, e)) {
        MarkInside(text, e + 1);
        if IsSign(At(text, e + 1)) {
          e := e + 1;
        }
        e := SkipDigits(e + 1);
      }
    }

    method SkipAlnum(i: nat) returns (e: nat)
      requires i <= |text|
      ensures e == AlnumEnd(text, i)
    {
      e := i;
      while e < |text| && IsAlnum(text[e])
        invariant i <= e <= |text| && AlnumEnd(text, e) == AlnumEnd(text, i)
      {
        e := e + 1;
      }
    }

    method SkipDigits(i: nat) returns (e: nat)
      requires i <= |text|
      ensures e == DigitsEnd(text, i)
    {
      e := i;
      while e < |text| && IsDigit(text[e])
        invariant i <= e <= |text| && DigitsEnd(text, e) == DigitsEnd(text, i)
      {
        e := e + 1;
      }
    }

    /** `matchq`: the matching quote character, or the end of the text. */
    method MatchQ(i: nat) returns (e: nat)
      requires i < |text|
      ensures e == QuoteEnd(text, i + 1, text[i])
    {
      var q := text[i];
      e := i + 1;
      while e < |text| && text[e] != q
        invariant i < e <= |text| && QuoteEnd(text, e, q) == QuoteEnd(text, i + 1, q)
      {
        if text[e] == BACKSLASH {
          e := e + 1;
          if e == |text| {
            return;
          }
        }
        e := e + 1;
      }
    }

    /** `ppch` within a line: the next character, or None when a new line is needed. */
    method NextChar() returns (r: Option<int>)
      requires Valid()
      modifies this
      ensures Valid() && Meaning(cbin) == old(Meaning(cbin))
      ensures r.None? <==> old(Pending()) == []
      ensures r.None? ==> Pending() == [] && bstack == []
      ensures r.Some? ==> old(Pending()) == [r.value] + Pending()
    {
      hide Delivered, Turns, TableOk, StackOk, Marked, Meaning;
      ghost var pending := Pending();
      if bnxt < bstop {
        assert Codes(text[bnxt..bstop]) == [Code(text[bnxt])] + Codes(text[bnxt + 1..bstop]);
        bnxt := bnxt + 1;
        return Some(Code(text[bnxt - 1]));
      }
      while true
        invariant Valid() && Meaning(cbin) == old(Meaning(cbin)) && bnxt == bstop
        invariant Pending() == pending
        decreases TurnsLeft()
      {
        if bnxt < |text| {
          var c := Scan();
          if c.Some? {
            return Some(c.value);
          }
        } else if bstack != [] {
          PopDef();
        } else {
          NothingWaits(Meaning(cbin), text);
          return None;
        }
      }
    }

    /** A line that has been read becomes the current buffer, unless it is a directive. */
    method StartLine(line: Bytes) returns (directive: bool)
      requires Valid() && bstack == []
      modifies this`text, this`bnxt, this`bstop
      ensures directive <==> IsDirective(UpToNul(line))
      ensures Valid() && bnxt == bstop
      ensures Pending() == if directive then [] else Delivered(Meaning(cbin), {}, UpToNul(line), 0)
    {
      hide Delivered, Meaning, TableOk, Marked, IsDirective, UpToNul;
      var s := Contents(line);
      directive := Recognize(s);
      text, bnxt, bstop := if directive then [] else s, 0, 0;
      StartPending(Meaning(cbin), bstack, text);
    }

    /** Find the first character that is no white space, and look for the marks of a directive. */
    method Recognize(s: Bytes) returns (directive: bool)
      ensures directive <==> IsDirective(s)
    {
      hide SpaceEnd;
      var p := 0;
      while p < |s| && IsSpace(s[p])
        invariant p <= |s| && SpaceEnd(s, p) == SpaceEnd(s, 0)
      {
        SpaceStep(s, p);
        p := p + 1;
      }
      SpaceStep(s, p);
      directive := (At(s, p) == DOLLAR && !IsPunct(At(s, p + 1))) || LINE_MARK <= s;
    }

    /** `strlen`: the text in the line buffer. */
    method Contents(line: Bytes) returns (s: Bytes)
      ensures s == UpToNul(line)
    {
      var n := 0;
      while n < |line| && line[n] != 0
        invariant n <= |line| && forall k :: 0 <= k < n ==> line[k] != 0
      {
        n := n + 1;
      }
      TextIs(line, n);
      s := line[..n];
    }

    /** Everything that is pending. */
    method ReadOut() returns (out: seq<int>)
      requires Valid()
      modifies this
      ensures Valid() && bstack == [] && Meaning(cbin) == old(Meaning(cbin)) && out == old(Pending())
    {
      hide Valid, Pending, Meaning;
      ghost var pending := Pending();
      out := [];
      var r := NextChar();
      while r.Some?
        invariant Valid() && Meaning(cbin) == old(Meaning(cbin))
        invariant r.None? ==> bstack == [] && out == pending
        invariant r.Some? ==> pending == out + [r.value] + Pending()
        decreases |pending| - |out|, r.Some?
      {
        out := out + [r.value];
        r := NextChar();
      }
    }

    /**
     * All characters of a line that is no directive. They are the codes of its expansion
     * exactly if no stretch begins with a negative char.
     */
    method ExpandLine(line: Bytes) returns (directive: bool, out: seq<int>)
      requires Valid() && bstack == []
      modifies this
      ensures Valid() && bstack == [] && Meaning(cbin) == old(Meaning(cbin))
      ensures directive <==> IsDirective(UpToNul(line))
      ensures directive ==> out == []
      ensures !directive ==>
                var s := UpToNul(line);
                && out == Delivered(Meaning(cbin), {}, s, 0)
                && Delivers(out, Expand(Meaning(cbin), {}, s, 0))
                && (out == Codes(Expand(Meaning(cbin), {}, s, 0)) <==> HeadsMasked(Meaning(cbin), {}, s, 0))
                && (SevenBit(Expand(Meaning(cbin), {}, s, 0)) ==> out == Expand(Meaning(cbin), {}, s, 0))
    {
      hide Valid, Pending, Meaning, Delivered, Expand, Codes, HeadsMasked, Delivers, SevenBit, IsDirective, UpToNul;
      directive := StartLine(line);
      out := ReadOut();
      if !directive {
        DeliveredCodes(Meaning(cbin), {}, UpToNul(line), 0);
        SevenBitSame(out, Expand(Meaning(cbin), {}, UpToNul(line), 0));
      }
    }

    /** `dlookup` with a value: define a name, unless it is defined; `clash` if it then has another value. */
    method Define(name: Bytes, val: Bytes) returns (clash: bool)
      requires IsText(name) && IsText(val)
      requires Valid() && bstack == []
      modifies this`cbin
      ensures Valid()
      ensures clash <==> name in old(Meaning(cbin)) && old(Meaning(cbin))[name] != val
      ensures Meaning(cbin) == if name == [] || name in old(Meaning(cbin)) then old(Meaning(cbin))
                               else old(Meaning(cbin))[name := val]
    {
      hide Find, Names, Meaning;
      NobodyActive(bstack);
      if name == [] {
        NoEmptyName(cbin);
        return false;
      }
      var d := Reference(name);
      if d.Some? {
        return d.value.value != val;
      }
      InstallMeans(cbin, Def(name, val, false));
      cbin := Installed(cbin, Def(name, val, false));
      return false;
    }

    /** `dlookup` without a value: undefine a name. */
    method Undefine(name: Bytes)
      requires Valid() && bstack == []
      modifies this`cbin
      ensures Valid() && Meaning(cbin) == old(Meaning(cbin)) - {name}
    {
      hide Find, Names, Meaning;
      NobodyActive(bstack);
      RemoveMeans(cbin, name);
      cbin := Removed(cbin, name);
    }
  }

  lemma MarkInside(s: Bytes, i: nat)
    ensures IsRadixMark(At(s, i)) || At(s, i) == 46 || IsExponentMark(At(s, i)) || IsSign(At(s, i)) ==> i < |s|
  {
  }

  lemma NobodyActive(stack: seq<Frame>)
    requires stack == []
    ensures Active(stack) == {}
  {
  }

  lemma NoEmptyName(t: Table)
    requires TableOk(t)
    ensures [] !in Meaning(t)
  {
    if [] in Meaning(t) {
      var k := MeaningFrom(t, []);
      assert false;
    }
  }

  lemma NegativeHead(defs: map<Bytes, Bytes>, active: set<Bytes>, s: Bytes, i: nat)
    requires i < |s| && s[i] < 0
    ensures Delivered(defs, active, s, i) != [] && Delivered(defs, active, s, i)[0] == s[i] != Code(s[i])
    ensures !HeadsMasked(defs, active, s, i)
  {
    var e := PlainEnd(s, i);
    assert Delivered(defs, active, s, i) == RawFirst(s[i..e]) + Delivered(defs, active, s, e);
  }

  /** A line that begins with a negative char does not begin with its code: 0xFF comes out as -1, the mark of EOF. */
  method NegativeFirst(line: Bytes) returns (r: Option<int>)
    requires line != [] && line[0] < 0
    ensures r == Some(line[0]) && r != Some(Code(line[0]))
  {
    hide Delivered, Meaning, TableOk, StackOk, Marked, HeadsMasked, Waiting, Active, Reader.Pending;
    var reader := new Reader();
    NegativeText(line);
    var directive := reader.StartLine(line);
    NegativeHead(Meaning(reader.cbin), {}, UpToNul(line), 0);
    r := reader.NextChar();
  }

  lemma NegativeText(line: Bytes)
    requires line != [] && line[0] < 0
    ensures UpToNul(line) != [] && UpToNul(line)[0] == line[0] && !IsDirective(UpToNul(line))
  {
  }

  lemma {:induction false} TextIs(line: Bytes, n: nat)
    requires n <= |line| && (forall k :: 0 <= k < n ==> line[k] != 0) && (n < |line| ==> line[n] == 0)
    ensures UpToNul(line) == line[..n]
    decreases n
  {
    if n > 0 {
      TextIs(line[1..], n - 1);
      assert line[..n] == [line[0]] + line[1..][..n - 1];
    }
  }

  lemma SpaceStep(s: Bytes, p: nat)
    requires p <= |s|
    ensures SpaceEnd(s, p) == if p < |s| && IsSpace(s[p]) then SpaceEnd(s, p + 1) else p
  {
  }

  /** What is pending when a text is about to be scanned and nothing waits. */
  lemma StartPending(defs: map<Bytes, Bytes>, stack: seq<Frame>, s: Bytes)
    requires stack == []
    ensures StackOk(stack) && Active(stack) == {}
    ensures Codes(s[0..0]) + Delivered(defs, Active(stack), s, 0) + Waiting(defs, stack) == Delivered(defs, {}, s, 0)
    ensures s == [] ==> Delivered(defs, {}, s, 0) == []
  {
    AtEnd(defs, {}, s);
    NobodyActive(stack);
    assert Waiting(defs, stack) == [] && Codes(s[0..0]) == [];
    hide Delivered, Waiting, Codes, Active;
  }

  lemma ActiveDefined(t: Table, stack: seq<Frame>)
    requires stack != [] && Marked(t, Active(stack))
    ensures stack[|stack| - 1].defn in Names(t)
  {
    assert stack[|stack| - 1].defn in Active(stack);
  }

  lemma AtEnd(defs: map<Bytes, Bytes>, active: set<Bytes>, s: Bytes)
    ensures Codes(s[|s|..|s|]) == Delivered(defs, active, s, |s|) == [] && Turns(defs, active, s, |s|) == 0
  {
  }

  /** A buffer that is used up stands for nothing; the waiting one is next. */
  lemma UsedUp(defs: map<Bytes, Bytes>, stack: seq<Frame>, s: Bytes)
    requires stack != [] && StackOk(stack)
    ensures var below, f := stack[..|stack| - 1], stack[|stack| - 1];
            && StackOk(below) && f.ptr == f.stop <= |f.text| && IsText(f.text)
            && Codes(s[|s|..|s|]) + Delivered(defs, Active(stack), s, |s|) + Waiting(defs, stack)
               == Codes(f.text[f.ptr..f.stop]) + Delivered(defs, Active(below), f.text, f.stop) + Waiting(defs, below)
            && Turns(defs, Active(stack), s, |s|) + WaitingTurns(defs, stack)
               > Turns(defs, Active(below), f.text, f.stop) + WaitingTurns(defs, below)
  {
    var below, f := stack[..|stack| - 1], stack[|stack| - 1];
    AtEnd(defs, Active(stack), s);
    hide Active, Delivered, Turns, Waiting, WaitingTurns;
    assert Codes(f.text[f.ptr..f.stop]) == [];
    WaitingStep(defs, stack);
  }

  lemma WaitingStep(defs: map<Bytes, Bytes>, stack: seq<Frame>)
    requires stack != [] && StackOk(stack)
    ensures var below, f := stack[..|stack| - 1], stack[|stack| - 1];
            && Waiting(defs, stack) == Delivered(defs, Active(below), f.text, f.stop) + Waiting(defs, below)
            && WaitingTurns(defs, stack) == 1 + Turns(defs, Active(below), f.text, f.stop) + WaitingTurns(defs, below)
  {
  }

  lemma NothingWaits(defs: map<Bytes, Bytes>, s: Bytes)
    ensures Codes(s[|s|..|s|]) + Delivered(defs, Active([]), s, |s|) + Waiting(defs, []) == []
  {
  }

  /** A scanned stretch in front of the rest, with its first character taken off. */
  lemma FirstOut(s: Bytes, i: nat, e: nat, rest: seq<int>, waiting: seq<int>)
    requires i < e <= |s|
    ensures Codes(s[i..i]) + (RawFirst(s[i..e]) + rest) + waiting == [s[i]] + (Codes(s[i + 1..e]) + rest + waiting)
  {
    assert s[i..e][1..] == s[i + 1..e];
    assert Codes(s[i..i]) == [];
  }

  /** What a name at the start of the unscanned text stands for. */
  lemma NameNext(defs: map<Bytes, Bytes>, active: set<Bytes>, s: Bytes, i: nat, waiting: seq<int>)
    requires i < |s| && StartsName(s[i])
    ensures var e := NameEnd(s, i + 1);
            var name := s[i..e];
            if name in defs && name !in active
            then Delivered(defs, active, s, i)
                 == Delivered(defs, active + {name}, defs[name], 0) + Delivered(defs, active, s, e)
                 && Turns(defs, active, s, i)
                    == 2 + Turns(defs, active + {name}, defs[name], 0) + Turns(defs, active, s, e)
            else Codes(s[i..i]) + Delivered(defs, active, s, i) + waiting
                 == [s[i]] + (Codes(s[i + 1..e]) + Delivered(defs, active, s, e) + waiting)
  {
    var e := NameEnd(s, i + 1);
    FirstOut(s, i, e, Delivered(defs, active, s, e), waiting);
  }

  /** What anything else at the start of the unscanned text stands for. */
  lemma PlainNext(defs: map<Bytes, Bytes>, active: set<Bytes>, s: Bytes, i: nat, waiting: seq<int>)
    requires i < |s| && !StartsName(s[i])
    ensures var e := PlainEnd(s, i);
            i < e && Codes(s[i..i]) + Delivered(defs, active, s, i) + waiting
                     == [s[i]] + (Codes(s[i + 1..e]) + Delivered(defs, active, s, e) + waiting)
  {
    var e := PlainEnd(s, i);
    FirstOut(s, i, e, Delivered(defs, active, s, e), waiting);
  }
}
