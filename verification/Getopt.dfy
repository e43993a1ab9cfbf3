/** Option scanning that permutes its arguments: short options, in the default order or the POSIX one. */
module Getopt {
  import opened Base

  /** What one call reports: an option character, or '?' or ':' for an error, and the option's argument. */
  datatype Event = Event(code: char, arg: Option<string>)

  datatype ArgRule = Illegal | Plain | Optional | Required

  /** The first position of c, or |s|. */
  function Position(s: string, c: char): (p: nat)
    ensures p <= |s| && (forall i :: 0 <= i < p ==> s[i] != c) && (p < |s| ==> s[p] == c)
  {
    if s == "" || s[0] == c then 0 else 1 + Position(s[1..], c)
  }

  /** What the option string says about an option character. */
  function Rule(opts: string, c: char): ArgRule {
    var p := Position(opts, c);
    if p == |opts| || c == ':' then Illegal
    else if p + 1 < |opts| && opts[p + 1] == ':' then
      if p + 2 < |opts| && opts[p + 2] == ':' then Optional else Required
    else Plain
  }

  predicate IsOperand(s: string) {
    |s| < 2 || s[0] != '-'
  }

  /** Whether the remaining characters of an option element take the next element as an argument. */
  predicate Takes(opts: string, s: string, more: bool): (t: bool)
    ensures t ==> more
  {
    s != "" &&
    match Rule(opts, s[0])
    case Required => s[1..] == "" && more
    case Optional => false
    case _ => Takes(opts, s[1..], more)
  }

  function Missing(opts: string): char {
    if opts != "" && opts[0] == ':' then ':' else '?'
  }

  /** The event of the first of the remaining characters of an option element. */
  function FirstEvent(opts: string, s: string, next: Option<string>): Event
    requires s != ""
  {
    match Rule(opts, s[0])
    case Illegal => Event('?', None)
    case Plain => Event(s[0], None)
    case Optional => Event(s[0], if s[1..] == "" then None else Some(s[1..]))
    case Required =>
      if s[1..] != "" then Event(s[0], Some(s[1..]))
      else if next.Some? then Event(s[0], next)
      else Event(Missing(opts), None)
  }

  /** The events of the remaining characters of an option element; `next` is the element after it. */
  function Inside(opts: string, s: string, next: Option<string>): seq<Event> {
    if s == "" then []
    else
      var rest := if Rule(opts, s[0]).Illegal? || Rule(opts, s[0]).Plain? then Inside(opts, s[1..], next) else [];
      [FirstEvent(opts, s, next)] + rest
  }

  /** The result of a whole scan: the events, the option elements with their arguments, and the operands. */
  datatype Outcome = Outcome(events: seq<Event>, options: seq<string>, operands: seq<string>)

  /** Scan argument elements from an element boundary on. */
  function Scan(args: seq<string>, opts: string, posix: bool): Outcome
    decreases |args|, 1
  {
    if args == [] then Outcome([], [], [])
    else if args[0] == "--" then Outcome([], ["--"], args[1..])
    else if IsOperand(args[0]) then
      if posix then Outcome([], [], args)
      else
        var o := Scan(args[1..], opts, posix);
        o.(operands := [args[0]] + o.operands)
    else Element(args, args[0][1..], opts, posix)
  }

  /** Scan from inside the first element, of which the characters s are left. */
  function Element(args: seq<string>, s: string, opts: string, posix: bool): Outcome
    requires args != []
    decreases |args|, 0
  {
    var next := if |args| > 1 then Some(args[1]) else None;
    var k := if Takes(opts, s, |args| > 1) then 2 else 1;
    var o := Scan(args[k..], opts, posix);
    Outcome(Inside(opts, s, next) + o.events, args[..k] + o.options, o.operands)
  }

  lemma SplitBag(args: seq<string>, k: nat, a: seq<string>, b: seq<string>)
    requires k <= |args| && multiset(args[k..]) == multiset(a) + multiset(b)
    ensures multiset(args) == multiset(args[..k] + a) + multiset(b)
    ensures multiset(args) == multiset(a) + multiset(args[..k] + b)
  {
    assert args == args[..k] + args[k..];
  }

  /** A scan loses and invents nothing. */
  lemma {:induction false} ScanPermutes(args: seq<string>, opts: string, posix: bool)
    ensures var o := Scan(args, opts, posix); multiset(args) == multiset(o.options) + multiset(o.operands)
    decreases |args|, 1
  {
    if args == [] || (args[0] != "--" && IsOperand(args[0]) && posix) {
    } else if args[0] == "--" {
      assert args == ["--"] + args[1..];
    } else if IsOperand(args[0]) {
      hide Inside, Takes;
      ScanPermutes(args[1..], opts, posix);
      var o := Scan(args[1..], opts, posix);
      assert args[..1] == [args[0]];
      SplitBag(args, 1, o.options, o.operands);
    } else {
      ElementPermutes(args, args[0][1..], opts, posix);
    }
  }

  lemma {:induction false} ElementPermutes(args: seq<string>, s: string, opts: string, posix: bool)
    requires args != []
    ensures var o := Element(args, s, opts, posix); multiset(args) == multiset(o.options) + multiset(o.operands)
    decreases |args|, 0
  {
    hide Inside;
    var k := if Takes(opts, s, |args| > 1) then 2 else 1;
    ScanPermutes(args[k..], opts, posix);
    var o := Scan(args[k..], opts, posix);
    SplitBag(args, k, o.options, o.operands);
  }

  // ----- the order of options and operands

  /** `picked` are the elements of args at the increasing places p. */
  ghost predicate Picks(args: seq<string>, p: seq<nat>, picked: seq<string>) {
    && |p| == |picked|
    && (forall i :: 0 <= i < |p| ==> p[i] < |args| && picked[i] == args[p[i]])
    && (forall i, j :: 0 <= i < j < |p| ==> p[i] < p[j])
  }

  /** Every place below n is in exactly one of the two lists. */
  ghost predicate Shared(n: nat, p: seq<nat>, q: seq<nat>) {
    forall k: nat :: k < n ==> (k in p <==> k !in q)
  }

  /** The places of the first k elements, and the places p counted from k on. */
  function Behind(k: nat, p: seq<nat>): (r: seq<nat>)
    ensures |r| == |p| && forall i :: 0 <= i < |p| ==> r[i] == p[i] + k
  {
    seq(|p|, i requires 0 <= i < |p| => p[i] + k)
  }

  function UpTo(k: nat): (r: seq<nat>)
    ensures |r| == k && forall i :: 0 <= i < k ==> r[i] == i
  {
    seq(k, i => i)
  }

  lemma BehindHas(k: nat, p: seq<nat>, x: nat)
    ensures x in Behind(k, p) <==> x >= k && x - k in p
  {
    if x >= k && x - k in p {
      var i :| 0 <= i < |p| && p[i] == x - k;
      assert Behind(k, p)[i] == x;
    }
  }

  /** The first k elements in front of one list, the other one as it is. */
  lemma PicksAfter(args: seq<string>, k: nat, p: seq<nat>, a: seq<string>, q: seq<nat>, b: seq<string>)
    requires k <= |args| && Picks(args[k..], p, a) && Picks(args[k..], q, b) && Shared(|args| - k, p, q)
    ensures Picks(args, UpTo(k) + Behind(k, p), args[..k] + a) && Picks(args, Behind(k, q), b)
    ensures Shared(|args|, UpTo(k) + Behind(k, p), Behind(k, q)) && Shared(|args|, Behind(k, q), UpTo(k) + Behind(k, p))
  {
    var r := UpTo(k) + Behind(k, p);
    forall x: nat | x < |args|
      ensures x in r <==> x !in Behind(k, q)
    {
      BehindHas(k, p, x);
      BehindHas(k, q, x);
      if x < k {
        assert r[x] == x;
      } else {
        assert x in r <==> x in Behind(k, p);
      }
    }
  }

  /** Options and operands keep their order: they come from two complementary lists of increasing places. */
  lemma {:induction false} ScanOrder(args: seq<string>, opts: string, posix: bool) returns (p: seq<nat>, q: seq<nat>)
    ensures var o := Scan(args, opts, posix);
            Picks(args, p, o.options) && Picks(args, q, o.operands) && Shared(|args|, p, q)
    decreases |args|, 1
  {
    hide Inside, Picks, Shared, Behind, UpTo;
    var o := Scan(args, opts, posix);
    if args == [] {
      p, q := [], [];
      NothingPicked(args);
    } else if args[0] == "--" {
      NothingPicked(args[1..]);
      AllPicked(args[1..]);
      p, q := UpTo(1) + Behind(1, []), Behind(1, UpTo(|args| - 1));
      PicksAfter(args, 1, [], [], UpTo(|args| - 1), args[1..]);
      assert args[..1] + [] == ["--"];
    } else if IsOperand(args[0]) && posix {
      p, q := [], UpTo(|args|);
      NothingPicked(args);
      AllPicked(args);
    } else if IsOperand(args[0]) {
      var p1, q1 := ScanOrder(args[1..], opts, posix);
      var r := Scan(args[1..], opts, posix);
      SharedSwap(|args| - 1, p1, q1);
      PicksAfter(args, 1, q1, r.operands, p1, r.options);
      p, q := Behind(1, p1), UpTo(1) + Behind(1, q1);
      assert args[..1] == [args[0]];
    } else {
      p, q := ElementOrder(args, args[0][1..], opts, posix);
    }
  }

  lemma {:induction false} ElementOrder(args: seq<string>, s: string, opts: string, posix: bool)
    returns (p: seq<nat>, q: seq<nat>)
    requires args != []
    ensures var o := Element(args, s, opts, posix);
            Picks(args, p, o.options) && Picks(args, q, o.operands) && Shared(|args|, p, q)
    decreases |args|, 0
  {
    hide Inside, Picks, Shared, Behind, UpTo;
    var k := if Takes(opts, s, |args| > 1) then 2 else 1;
    var p1, q1 := ScanOrder(args[k..], opts, posix);
    var r := Scan(args[k..], opts, posix);
    PicksAfter(args, k, p1, r.options, q1, r.operands);
    p, q := UpTo(k) + Behind(k, p1), Behind(k, q1);
  }

  lemma NothingPicked(args: seq<string>)
    ensures Picks(args, [], []) && (args == [] ==> Shared(|args|, [], []))
  {
  }

  lemma AllPicked(args: seq<string>)
    ensures Picks(args, UpTo(|args|), args) && Shared(|args|, [], UpTo(|args|))
  {
    forall x: nat | x < |args|
      ensures x in UpTo(|args|)
    {
      assert UpTo(|args|)[x] == x;
    }
  }

  lemma SharedSwap(n: nat, p: seq<nat>, q: seq<nat>)
    requires Shared(n, p, q)
    ensures Shared(n, q, p)
  {
  }

  /** What is ahead of index i, where the characters `left` of an element may still be to come. */
  function Rest(v: seq<string>, left: string, i: nat, opts: string, posix: bool): Outcome
    requires i <= |v| && (left != "" ==> i < |v|)
  {
    if left != "" then Element(v[i..], left, opts, posix) else Scan(v[i..], opts, posix)
  }

  lemma RestPermutes(v: seq<string>, left: string, i: nat, opts: string, posix: bool)
    requires i <= |v| && (left != "" ==> i < |v|)
    ensures var o := Rest(v, left, i, opts, posix); multiset(v[i..]) == multiset(o.options) + multiset(o.operands)
  {
    if left != "" {
      ElementPermutes(v[i..], left, opts, posix);
    } else {
      ScanPermutes(v[i..], opts, posix);
    }
  }

  // ----- what a scan reports, said without it

  /** The first place of c in the option string. */
  ghost predicate FirstPlace(opts: string, c: char, p: nat) {
    p < |opts| && opts[p] == c && c !in opts[..p]
  }

  /** c is an option character with a ':' behind it. */
  ghost predicate TakesArg(opts: string, c: char) {
    c != ':' && exists p: nat :: FirstPlace(opts, c, p) && ":" <= opts[p + 1..]
  }

  /** c is an option character with a single ':' behind it. */
  ghost predicate NeedsArg(opts: string, c: char) {
    c != ':' && exists p: nat :: FirstPlace(opts, c, p) && ":" <= opts[p + 1..] && !("::" <= opts[p + 1..])
  }

  /** The report for the character c of an element that goes on with `rest` and is followed by `next`. */
  ghost predicate IsEvent(opts: string, c: char, rest: string, next: Option<string>, e: Event) {
    if c == ':' || c !in opts then e == Event('?', None)
    else if !TakesArg(opts, c) then e == Event(c, None)
    else if rest != "" then e == Event(c, Some(rest))
    else if !NeedsArg(opts, c) then e == Event(c, None)
    else if next.Some? then e == Event(c, next)
    else e == Event(if ":" <= opts then ':' else '?', None)
  }

  /** One report for each character of an element, up to the first that takes an argument. */
  ghost predicate EventsOf(opts: string, s: string, next: Option<string>, es: seq<Event>) {
    && |es| <= |s| && (s != "" ==> es != [])
    && (forall n :: 0 <= n < |es| ==> IsEvent(opts, s[n], s[n + 1..], next, es[n]))
    && (forall n :: 0 <= n < |es| - 1 ==> !TakesArg(opts, s[n]))
    && (|es| < |s| ==> TakesArg(opts, s[|es| - 1]))
  }

  /** The characters of an element end with one that needs the next element as its argument. */
  ghost predicate Wants(opts: string, s: string) {
    s != "" && NeedsArg(opts, s[|s| - 1]) && forall n :: 0 <= n < |s| - 1 ==> !TakesArg(opts, s[n])
  }

  lemma PositionFirst(opts: string, c: char)
    ensures Position(opts, c) < |opts| <==> c in opts
    ensures c in opts ==> FirstPlace(opts, c, Position(opts, c))
    ensures forall p: nat :: FirstPlace(opts, c, p) ==> p == Position(opts, c)
  {
    var q := Position(opts, c);
    assert forall i :: 0 <= i < q ==> opts[..q][i] == opts[i];
    forall p: nat
      ensures FirstPlace(opts, c, p) ==> p == q
    {
      if q < p < |opts| {
        assert opts[..p][q] == opts[q];
      }
    }
  }

  lemma RuleIs(opts: string, c: char)
    ensures Rule(opts, c).Illegal? <==> c == ':' || c !in opts
    ensures Rule(opts, c).Optional? || Rule(opts, c).Required? <==> TakesArg(opts, c)
    ensures Rule(opts, c).Required? <==> NeedsArg(opts, c)
  {
    PositionFirst(opts, c);
    var p := Position(opts, c);
    hide Position;
    if p < |opts| {
      ColonsIs(opts[p + 1..]);
    }
  }

  lemma ColonsIs(tail: string)
    ensures ":" <= tail <==> |tail| > 0 && tail[0] == ':'
    ensures "::" <= tail <==> |tail| > 1 && tail[0] == ':' && tail[1] == ':'
  {
  }

  lemma FirstEventIs(opts: string, s: string, next: Option<string>)
    requires s != ""
    ensures IsEvent(opts, s[0], s[1..], next, FirstEvent(opts, s, next))
  {
    RuleIs(opts, s[0]);
    ColonsIs(opts);
    hide Rule, TakesArg, NeedsArg;
  }

  lemma {:induction false} InsideIs(opts: string, s: string, next: Option<string>)
    ensures EventsOf(opts, s, next, Inside(opts, s, next))
    decreases |s|
  {
    if s != "" {
      FirstEventIs(opts, s, next);
      RuleIs(opts, s[0]);
      InsideIs(opts, s[1..], next);
      hide Rule, FirstEvent, TakesArg, NeedsArg, IsEvent, EventsOf;
      if TakesArg(opts, s[0]) {
        OneReport(opts, s, next, FirstEvent(opts, s, next));
      } else {
        MoreReports(opts, s, next, FirstEvent(opts, s, next), Inside(opts, s[1..], next));
      }
    }
  }

  lemma OneReport(opts: string, s: string, next: Option<string>, e: Event)
    requires s != "" && IsEvent(opts, s[0], s[1..], next, e) && TakesArg(opts, s[0])
    ensures EventsOf(opts, s, next, [e])
  {
    hide IsEvent, TakesArg;
  }

  lemma MoreReports(opts: string, s: string, next: Option<string>, e: Event, rest: seq<Event>)
    requires s != "" && IsEvent(opts, s[0], s[1..], next, e) && !TakesArg(opts, s[0])
    requires EventsOf(opts, s[1..], next, rest)
    ensures EventsOf(opts, s, next, [e] + rest)
  {
    hide IsEvent, TakesArg;
    var es := [e] + rest;
    forall n | 0 < n < |es|
      ensures s[1..][n - 1] == s[n] && s[1..][n..] == s[n + 1..] && rest[n - 1] == es[n]
    {
    }
  }

  lemma {:induction false} TakesIs(opts: string, s: string, more: bool)
    ensures Takes(opts, s, more) <==> more && Wants(opts, s)
    decreases |s|
  {
    if s != "" {
      RuleIs(opts, s[0]);
      TakesIs(opts, s[1..], more);
      hide Rule, TakesArg, NeedsArg;
      if s[1..] != "" {
        assert s[1..][|s| - 2] == s[|s| - 1];
        assert forall n :: 0 < n < |s| - 1 ==> s[1..][n - 1] == s[n];
      }
    }
  }

  datatype Kind = OptionElement | Argument | End | Operand

  /** Everything from place k on is an operand, whatever it looks like. */
  ghost predicate Stopped(kinds: seq<Kind>, posix: bool, k: nat) {
    exists j :: 0 <= j < k && j < |kinds| && (kinds[j].End? || (posix && kinds[j].Operand?))
  }

  /** What the element at place k is. */
  ghost predicate KindOk(args: seq<string>, opts: string, posix: bool, kinds: seq<Kind>, k: nat)
    requires k < |args| == |kinds|
  {
    kinds[k] ==
      if Stopped(kinds, posix, k) then Operand
      else if k > 0 && kinds[k - 1].OptionElement? && args[k - 1] != "" && Wants(opts, args[k - 1][1..]) then Argument
      else if args[k] == "--" then End
      else if |args[k]| < 2 || args[k][0] != '-' then Operand
      else OptionElement
  }

  ghost predicate KindsOk(args: seq<string>, opts: string, posix: bool, kinds: seq<Kind>) {
    |kinds| == |args| && forall k :: 0 <= k < |args| ==> KindOk(args, opts, posix, kinds, k)
  }

  function After(args: seq<string>, k: nat): Option<string> {
    if k + 1 < |args| then Some(args[k + 1]) else None
  }

  /** The reports of every element: an option element's own, and none for the others. */
  ghost predicate ReportsOk(args: seq<string>, opts: string, kinds: seq<Kind>, es: seq<seq<Event>>) {
    && |args| == |kinds| == |es|
    && forall k :: 0 <= k < |args| ==>
         if kinds[k].OptionElement? then args[k] != "" && EventsOf(opts, args[k][1..], After(args, k), es[k])
         else es[k] == []
  }

  function Joined(es: seq<seq<Event>>): seq<Event> {
    if es == [] then [] else es[0] + Joined(es[1..])
  }

  /** The elements that are operands, or those that are not, in order. */
  function Kept(args: seq<string>, kinds: seq<Kind>, operands: bool): seq<string>
    requires |args| == |kinds|
  {
    if args == [] then []
    else (if kinds[0].Operand? == operands then [args[0]] else []) + Kept(args[1..], kinds[1..], operands)
  }

  /** The kinds of the elements and their reports explain the outcome of a scan. */
  ghost predicate Explains(args: seq<string>, opts: string, posix: bool, kinds: seq<Kind>, es: seq<seq<Event>>,
                           o: Outcome) {
    && KindsOk(args, opts, posix, kinds) && ReportsOk(args, opts, kinds, es)
    && o.events == Joined(es) && o.options == Kept(args, kinds, false) && o.operands == Kept(args, kinds, true)
  }

  /** The first elements of a scan that goes on behind them. */
  ghost predicate FrontOk(args: seq<string>, opts: string, posix: bool, front: seq<Kind>, fes: seq<seq<Event>>) {
    && 0 < |front| == |fes| <= |args|
    && (forall j :: 0 <= j < |front| ==> !front[j].End? && !(posix && front[j].Operand?))
    && (forall k :: 0 <= k < |front| ==>
          if front[k].OptionElement? then args[k] != "" && EventsOf(opts, args[k][1..], After(args, k), fes[k])
          else fes[k] == [])
    && var n := |front| - 1;
       |front| < |args| ==> !(front[n].OptionElement? && args[n] != "" && Wants(opts, args[n][1..]))
  }

  /** Kinds of a rest of the arguments that is reached without a stop. */
  lemma KindAfter(args: seq<string>, opts: string, posix: bool, front: seq<Kind>, fes: seq<seq<Event>>,
                  kinds: seq<Kind>, k: nat)
    requires FrontOk(args, opts, posix, front, fes) && |front| <= k < |args| == |front| + |kinds|
    requires KindOk(args[|front|..], opts, posix, kinds, k - |front|)
    ensures KindOk(args, opts, posix, front + kinds, k)
  {
    var n, all := |front|, front + kinds;
    hide Wants, EventsOf;
    if Stopped(kinds, posix, k - n) {
      var j :| 0 <= j < k - n && j < |kinds| && (kinds[j].End? || (posix && kinds[j].Operand?));
      assert all[j + n] == kinds[j];
    }
    if Stopped(all, posix, k) {
      var j :| 0 <= j < k && j < |all| && (all[j].End? || (posix && all[j].Operand?));
      assert j >= n && kinds[j - n] == all[j];
    }
  }

  lemma KindsAfter(args: seq<string>, opts: string, posix: bool, front: seq<Kind>, fes: seq<seq<Event>>,
                   kinds: seq<Kind>)
    requires FrontOk(args, opts, posix, front, fes) && |args| == |front| + |kinds|
    requires forall k :: 0 <= k < |front| ==> KindOk(args, opts, posix, front + kinds, k)
    requires KindsOk(args[|front|..], opts, posix, kinds)
    ensures KindsOk(args, opts, posix, front + kinds)
  {
    hide KindOk, FrontOk;
    forall k | 0 <= k < |args|
      ensures KindOk(args, opts, posix, front + kinds, k)
    {
      if k >= |front| {
        assert KindOk(args[|front|..], opts, posix, kinds, k - |front|);
        KindAfter(args, opts, posix, front, fes, kinds, k);
      }
    }
  }

  lemma ReportsAfter(args: seq<string>, opts: string, posix: bool, front: seq<Kind>, fes: seq<seq<Event>>,
                     kinds: seq<Kind>, es: seq<seq<Event>>)
    requires FrontOk(args, opts, posix, front, fes) && |args| == |front| + |kinds|
    requires ReportsOk(args[|front|..], opts, kinds, es)
    ensures ReportsOk(args, opts, front + kinds, fes + es)
  {
    var n := |front|;
    hide EventsOf, Wants;
    forall k | n <= k < |args|
      ensures args[n..][k - n] == args[k] && After(args[n..], k - n) == After(args, k)
      ensures (front + kinds)[k] == kinds[k - n] && (fes + es)[k] == es[k - n]
    {
    }
    hide After;
  }

  /** Elements in front of the rest of a scan. */
  lemma ExplainsMore(args: seq<string>, opts: string, posix: bool, front: seq<Kind>, fes: seq<seq<Event>>,
                     kinds: seq<Kind>, es: seq<seq<Event>>, r: Outcome)
    requires FrontOk(args, opts, posix, front, fes) && |args| == |front| + |kinds|
    requires forall k :: 0 <= k < |front| ==> KindOk(args, opts, posix, front + kinds, k)
    requires Explains(args[|front|..], opts, posix, kinds, es, r)
    ensures Explains(args, opts, posix, front + kinds, fes + es,
                     Outcome(Joined(fes) + r.events, Kept(args[..|front|], front, false) + r.options,
                             Kept(args[..|front|], front, true) + r.operands))
  {
    KindsAfter(args, opts, posix, front, fes, kinds);
    ReportsAfter(args, opts, posix, front, fes, kinds, es);
    hide FrontOk, KindsOk, ReportsOk, KindOk, Joined, Kept;
    JoinedAppend(fes, es);
    KeptAppend(args, |front|, front, kinds, false);
    KeptAppend(args, |front|, front, kinds, true);
  }

  lemma {:induction false} JoinedAppend(a: seq<seq<Event>>, b: seq<seq<Event>>)
    ensures Joined(a + b) == Joined(a) + Joined(b)
    decreases |a|
  {
    if a == [] {
      assert a + b == b;
    } else {
      assert (a + b)[1..] == a[1..] + b;
      JoinedAppend(a[1..], b);
    }
  }

  lemma {:induction false} KeptAppend(args: seq<string>, n: nat, a: seq<Kind>, b: seq<Kind>, operands: bool)
    requires |a| == n <= |args| == n + |b|
    ensures Kept(args, a + b, operands) == Kept(args[..n], a, operands) + Kept(args[n..], b, operands)
    decreases n
  {
    if n == 0 {
      assert a + b == b && args[n..] == args && args[..n] == [];
    } else {
      assert (a + b)[1..] == a[1..] + b;
      KeptAppend(args[1..], n - 1, a[1..], b, operands);
      assert args[1..][..n - 1] == args[..n][1..] && args[1..][n - 1..] == args[n..];
    }
  }

  /** From a stop on, everything is an operand. */
  lemma ExplainsStop(args: seq<string>, opts: string, posix: bool, o: Outcome)
    requires args != []
    requires if args[0] == "--" then o == Outcome([], ["--"], args[1..])
             else IsOperand(args[0]) && posix && o == Outcome([], [], args)
    ensures var kinds := [if args[0] == "--" then End else Operand] + seq(|args| - 1, _ => Operand);
            Explains(args, opts, posix, kinds, seq(|args|, _ => []), o)
  {
    var kinds, es := [if args[0] == "--" then End else Operand] + seq(|args| - 1, _ => Operand), seq(|args|, _ => []);
    forall k | 0 <= k < |args|
      ensures KindOk(args, opts, posix, kinds, k)
    {
      assert k > 0 ==> kinds[0].End? || (posix && kinds[0].Operand?);
    }
    NoReports(es);
    AllOperands(args[1..], kinds[1..]);
    assert args == [args[0]] + args[1..];
  }

  lemma {:induction false} NoReports(es: seq<seq<Event>>)
    requires forall k :: 0 <= k < |es| ==> es[k] == []
    ensures Joined(es) == []
    decreases |es|
  {
    if es != [] {
      NoReports(es[1..]);
    }
  }

  lemma {:induction false} AllOperands(args: seq<string>, kinds: seq<Kind>)
    requires |kinds| == |args| && forall k :: 0 <= k < |kinds| ==> kinds[k].Operand?
    ensures Kept(args, kinds, true) == args && Kept(args, kinds, false) == []
    decreases |args|
  {
    if args != [] {
      AllOperands(args[1..], kinds[1..]);
      assert args == [args[0]] + args[1..];
    }
  }

  /** Every scan: what each element is, from the elements before it and the option string, and what it reports. */
  lemma {:induction false} ScanExplained(args: seq<string>, opts: string, posix: bool)
    returns (kinds: seq<Kind>, es: seq<seq<Event>>)
    ensures Explains(args, opts, posix, kinds, es, Scan(args, opts, posix))
    decreases |args|
  {
    if args == [] {
      kinds, es := [], [];
    } else if args[0] == "--" || (IsOperand(args[0]) && posix) {
      kinds := [if args[0] == "--" then End else Operand] + seq(|args| - 1, _ => Operand);
      es := seq(|args|, _ => []);
      ExplainsStop(args, opts, posix, Scan(args, opts, posix));
    } else if IsOperand(args[0]) {
      kinds, es := ScanExplained(args[1..], opts, posix);
      OneInFront(args, opts, posix, Operand, [], kinds, es, Scan(args[1..], opts, posix));
      kinds, es := [Operand] + kinds, [[]] + es;
    } else {
      var s := args[0][1..];
      var reports := Inside(opts, s, After(args, 0));
      InsideIs(opts, s, After(args, 0));
      TakesIs(opts, s, |args| > 1);
      if Takes(opts, s, |args| > 1) {
        kinds, es := ScanExplained(args[2..], opts, posix);
        TwoInFront(args, opts, posix, reports, kinds, es, Scan(args[2..], opts, posix));
        kinds, es := [OptionElement, Argument] + kinds, [reports, []] + es;
      } else {
        kinds, es := ScanExplained(args[1..], opts, posix);
        OneInFront(args, opts, posix, OptionElement, reports, kinds, es, Scan(args[1..], opts, posix));
        kinds, es := [OptionElement] + kinds, [reports] + es;
      }
    }
  }

  /** An operand, or an option element that does not take the next one, in front of the rest of a scan. */
  lemma OneInFront(args: seq<string>, opts: string, posix: bool, kind: Kind, reports: seq<Event>,
                   kinds: seq<Kind>, es: seq<seq<Event>>, r: Outcome)
    requires args != [] && args[0] != "--" && Explains(args[1..], opts, posix, kinds, es, r)
    requires if IsOperand(args[0]) then !posix && kind == Operand && reports == []
             else kind == OptionElement && EventsOf(opts, args[0][1..], After(args, 0), reports)
                  && (|args| > 1 ==> !Wants(opts, args[0][1..]))
    ensures Explains(args, opts, posix, [kind] + kinds, [reports] + es,
                     Outcome(reports + r.events, (if kind.Operand? then [] else [args[0]]) + r.options,
                             (if kind.Operand? then [args[0]] else []) + r.operands))
  {
    hide Wants, EventsOf;
    assert !Stopped([kind] + kinds, posix, 0);
    assert Joined([reports]) == reports + Joined([]) == reports;
    assert args[..1] == [args[0]];
    assert [args[0]][1..] == [] && [kind][1..] == [];
    ExplainsMore(args, opts, posix, [kind], [reports], kinds, es, r);
  }

  lemma KeptPair(x: string, y: string)
    ensures Kept([x, y], [OptionElement, Argument], false) == [x, y]
    ensures Kept([x, y], [OptionElement, Argument], true) == []
  {
    var args, kinds := [x, y], [OptionElement, Argument];
    assert args[1..] == [y] && kinds[1..] == [Argument] && [y][1..] == [] && [Argument][1..] == [];
    assert Kept([y], [Argument], false) == [y] && Kept([y], [Argument], true) == [];
  }

  /** An option element and its argument in front of the rest of a scan. */
  lemma TwoInFront(args: seq<string>, opts: string, posix: bool, reports: seq<Event>,
                   kinds: seq<Kind>, es: seq<seq<Event>>, r: Outcome)
    requires |args| > 1 && args[0] != "--" && !IsOperand(args[0]) && Wants(opts, args[0][1..])
    requires EventsOf(opts, args[0][1..], After(args, 0), reports)
    requires Explains(args[2..], opts, posix, kinds, es, r)
    ensures Explains(args, opts, posix, [OptionElement, Argument] + kinds, [reports, []] + es,
                     Outcome(reports + r.events, args[..2] + r.options, r.operands))
  {
    hide Wants, EventsOf;
    var front := [OptionElement, Argument];
    assert !Stopped(front + kinds, posix, 0) && !Stopped(front + kinds, posix, 1);
    assert Joined([reports, []]) == reports by {
      JoinedAppend([reports], [[]]);
      assert [reports] + [[]] == [reports, []];
    }
    KeptPair(args[0], args[1]);
    assert args[..2] == [args[0], args[1]];
    ExplainsMore(args, opts, posix, front, [reports, []], kinds, es, r);
  }

  // ----- the layout of the arguments during a scan

  /** v[first..last) are the operands skipped so far, v[1..first) and v[last..ind) the options so far. */
  ghost predicate Laid(v: seq<string>, first: nat, last: nat, ind: nat, ahead: Outcome, all: Outcome) {
    && 1 <= first <= last <= ind <= |v|
    && all.options == v[1..first] + v[last..ind] + ahead.options
    && all.operands == v[first..last] + ahead.operands
  }

  /** v with the skipped operands and the options processed since interchanged. */
  function Swapped(v: seq<string>, first: nat, last: nat, ind: nat): (w: seq<string>)
    requires first <= last <= ind <= |v|
    ensures |w| == |v| && w[ind..] == v[ind..]
  {
    v[..first] + v[last..ind] + v[first..last] + v[ind..]
  }

  /** v with src copied to position `to`. */
  function Overlaid(v: seq<string>, to: nat, src: seq<string>): (w: seq<string>)
    requires to + |src| <= |v|
    ensures |w| == |v|
  {
    v[..to] + src + v[to + |src|..]
  }

  lemma OverlaidIs(v: seq<string>, to: nat, src: seq<string>, w: seq<string>)
    requires to + |src| <= |v| == |w|
    requires forall k :: to <= k < to + |src| ==> w[k] == src[k - to]
    requires forall k :: 0 <= k < |v| && !(to <= k < to + |src|) ==> w[k] == v[k]
    ensures w == Overlaid(v, to, src)
  {
  }

  /** Saving one block, moving the other down and putting the saved one behind it interchanges them. */
  lemma SwappedIs(v: seq<string>, first: nat, last: nat, ind: nat)
    requires first <= last <= ind <= |v|
    ensures Overlaid(Overlaid(v, first, v[last..ind]), first + (ind - last), v[first..last])
            == Swapped(v, first, last, ind)
  {
    var m := first + (ind - last);
    var u := Overlaid(v, first, v[last..ind]);
    assert u[..m] == v[..first] + v[last..ind];
    assert u[ind..] == v[ind..];
  }

  lemma SwappedLaid(v: seq<string>, first: nat, last: nat, ind: nat, ahead: Outcome, all: Outcome)
    requires Laid(v, first, last, ind, ahead, all)
    ensures var w := Swapped(v, first, last, ind);
            w[0] == v[0] && Laid(w, first + (ind - last), ind, ind, ahead, all)
  {
    var w := Swapped(v, first, last, ind);
    var f := first + (ind - last);
    assert w[1..f] == v[1..first] + v[last..ind];
    assert w[f..ind] == v[first..last];
    assert w[ind..ind] == [];
  }

  lemma SwapStep(v: seq<string>, first: nat, last: nat, ind: nat, opts: string, posix: bool, all: Outcome)
    requires 1 <= first <= last <= ind <= |v| && Laid(v, first, last, ind, Rest(v, "", ind, opts, posix), all)
    ensures var w := Swapped(v, first, last, ind);
            && w[0] == v[0] && Rest(w, "", ind, opts, posix) == Rest(v, "", ind, opts, posix)
            && Laid(w, first + (ind - last), ind, ind, Rest(w, "", ind, opts, posix), all)
  {
    hide Scan, Element, Laid;
    SwappedLaid(v, first, last, ind, Rest(v, "", ind, opts, posix), all);
  }

  /** Nothing was skipped: the options so far are all in front. */
  lemma NoneSkipped(v: seq<string>, last: nat, ind: nat, ahead: Outcome, all: Outcome)
    requires Laid(v, last, last, ind, ahead, all)
    ensures Laid(v, ind, ind, ind, ahead, all)
  {
    assert v[1..ind] == v[1..last] + v[last..ind];
  }

  /** One more operand is skipped. */
  lemma SkipOne(v: seq<string>, first: nat, ind: nat, rest: Outcome, all: Outcome)
    requires ind < |v| && Laid(v, first, ind, ind, rest.(operands := [v[ind]] + rest.operands), all)
    ensures Laid(v, first, ind + 1, ind + 1, rest, all)
  {
    assert v[first..ind + 1] == v[first..ind] + [v[ind]];
    assert v[ind..ind] == [] == v[ind + 1..ind + 1];
  }

  /** Some more elements of an option are used up. */
  lemma UseSome(v: seq<string>, first: nat, last: nat, ind: nat, used: nat, rest: Outcome, ahead: Outcome, all: Outcome)
    requires Laid(v, first, last, ind, ahead, all) && ind + used <= |v|
    requires ahead.options == v[ind..][..used] + rest.options && ahead.operands == rest.operands
    ensures Laid(v, first, last, ind + used, rest, all)
  {
    assert v[last..ind + used] == v[last..ind] + v[ind..][..used];
  }

  /** Nothing is ahead but operands. */
  lemma AllLaid(v: seq<string>, first: nat, ind: nat, ahead: Outcome, all: Outcome)
    requires Laid(v, first, ind, ind, ahead, all) && ahead.options == [] && ahead.operands == v[ind..]
    ensures v == [v[0]] + all.options + all.operands && first == 1 + |all.options|
  {
    assert v == [v[0]] + v[1..first] + (v[first..ind] + v[ind..]);
  }

  lemma LaidPermutation(v: seq<string>, orig: seq<string>, first: nat, last: nat, ind: nat, ahead: Outcome,
                        all: Outcome)
    requires Laid(v, first, last, ind, ahead, all) && |orig| > 0 && v[0] == orig[0]
    requires multiset(v[ind..]) == multiset(ahead.options) + multiset(ahead.operands)
    requires multiset(orig[1..]) == multiset(all.options) + multiset(all.operands)
    ensures multiset(v) == multiset(orig)
  {
    assert v == [v[0]] + v[1..first] + v[first..last] + v[last..ind] + v[ind..];
    assert orig == [orig[0]] + orig[1..];
  }

  /** One step inside an option element: `used` elements are finished, the characters `left` are not. */
  lemma ElementStep(args: seq<string>, s: string, opts: string, posix: bool, left: string, used: nat)
    requires args != [] && s != ""
    requires match Rule(opts, s[0])
             case Required => left == "" && used == if s[1..] == "" && |args| > 1 then 2 else 1
             case Optional => left == "" && used == 1
             case _ => left == s[1..] && used == if left == "" then 1 else 0
    ensures var o, r := Element(args, s, opts, posix), Rest(args, left, used, opts, posix);
            && o.events == [FirstEvent(opts, s, if |args| > 1 then Some(args[1]) else None)] + r.events
            && o.options == args[..used] + r.options && o.operands == r.operands
  {
    hide Scan, Rule, FirstEvent;
    var next := if |args| > 1 then Some(args[1]) else None;
    CharStep(opts, s, next, left, |args| > 1);
    var k := if Takes(opts, s, |args| > 1) then 2 else 1;
    var rest := Scan(args[k..], opts, posix);
    hide Takes, Inside;
    if left != "" {
      assert args[0..] == args && args[..0] == [];
      EventsStep(FirstEvent(opts, s, next), Inside(opts, left, next), rest.events);
    } else {
      EventsStep(FirstEvent(opts, s, next), [], rest.events);
    }
  }

  lemma EventsStep(e: Event, more: seq<Event>, rest: seq<Event>)
    ensures ([e] + more) + rest == [e] + (more + rest) && [] + rest == rest
  {
  }

  /** One character of an element, and whether the element takes the next one. */
  lemma CharStep(opts: string, s: string, next: Option<string>, left: string, more: bool)
    requires s != ""
    requires match Rule(opts, s[0])
             case Required => left == ""
             case Optional => left == ""
             case _ => left == s[1..]
    ensures Inside(opts, "", next) == []
    ensures Inside(opts, s, next) == [FirstEvent(opts, s, next)] + Inside(opts, left, next)
    ensures Takes(opts, s, more)
            == if left != "" then Takes(opts, left, more) else Rule(opts, s[0]).Required? && s[1..] == "" && more
  {
    hide Rule, FirstEvent;
    assert !Takes(opts, "", more);
  }

  /** The layout after one step inside an option element at index i. */
  lemma DecodeStep(v: seq<string>, first: nat, last: nat, i: nat, s: string, opts: string, posix: bool,
                   left: string, used: nat, all: Outcome)
    requires i < |v| && s != "" && Laid(v, first, last, i, Rest(v, s, i, opts, posix), all)
    requires match Rule(opts, s[0])
             case Required => left == "" && used == if s[1..] == "" && i + 1 < |v| then 2 else 1
             case Optional => left == "" && used == 1
             case _ => left == s[1..] && used == if left == "" then 1 else 0
    ensures Laid(v, first, last, i + used, Rest(v, left, i + used, opts, posix), all)
    ensures Rest(v, s, i, opts, posix).events
            == [FirstEvent(opts, s, if i + 1 < |v| then Some(v[i + 1]) else None)]
              + Rest(v, left, i + used, opts, posix).events
  {
    hide Scan, Element, Rule, FirstEvent, Laid;
    ElementStep(v[i..], s, opts, posix, left, used);
    assert v[i..][used..] == v[i + used..];
    UseSome(v, first, last, i, used, Rest(v, left, i + used, opts, posix), Rest(v, s, i, opts, posix), all);
  }

  /** The events and the layout at an operand that is passed over. */
  lemma PassOne(v: seq<string>, first: nat, i: nat, opts: string, all: Outcome)
    requires i < |v| && IsOperand(v[i]) && Laid(v, first, i, i, Rest(v, "", i, opts, false), all)
    ensures Laid(v, first, i + 1, i + 1, Rest(v, "", i + 1, opts, false), all)
    ensures Rest(v, "", i + 1, opts, false).events == Rest(v, "", i, opts, false).events
  {
    hide Laid, Element;
    assert v[i..][1..] == v[i + 1..];
    SkipOne(v, first, i, Rest(v, "", i + 1, opts, false), all);
  }

  class Scanner {
    const argv: array<string>
    const opts: string
    const posix: bool
    ghost const orig: seq<string>

    var optind: nat
    var nextchar: string       // what is left of the current element; empty between elements
    var firstNonopt: nat
    var lastNonopt: nat
    var optarg: Option<string>
    ghost var finished: bool

    /** The first call's initialization; `posix` is set by POSIXLY_CORRECT. */
    constructor (argv: array<string>, opts: string, posix: bool)
      requires argv.Length > 0
      requires opts == "" || (opts[0] != '-' && opts[0] != '+')
      ensures this.argv == argv && this.opts == opts && this.posix == posix && orig == argv[..]
      ensures !finished && Valid() && Ahead() == Scan(orig[1..], opts, posix)
    {
      this.argv, this.opts, this.posix, orig := argv, opts, posix, argv[..];
      optind, nextchar, firstNonopt, lastNonopt, optarg, finished := 1, "", 1, 1, None, false;
    }

    /** What the rest of the scan will find. */
    ghost function Ahead(): Outcome
      requires optind <= argv.Length && (nextchar != "" ==> optind < argv.Length)
      reads this, argv
    {
      Rest(argv[..], nextchar, optind, opts, posix)
    }

    ghost predicate Bounds()
      reads this
    {
      && 1 <= firstNonopt <= lastNonopt <= optind <= argv.Length
      && (nextchar != "" ==> optind < argv.Length)
      && |orig| == argv.Length
    }

    /** What was found and what lies ahead make up the outcome for the original arguments. */
    ghost predicate Valid()
      reads this, argv
    {
      && Bounds() && argv[0] == orig[0] && (posix ==> firstNonopt == lastNonopt)
      && Laid(argv[..], firstNonopt, lastNonopt, optind, Ahead(), Scan(orig[1..], opts, posix))
    }

    /** Between calls the arguments are a permutation of the original ones. */
    lemma StillPermutation()
      requires Valid()
      ensures multiset(argv[..]) == multiset(orig)
    {
      hide Scan, Rest, Laid;
      ScanPermutes(orig[1..], opts, posix);
      RestPermutes(argv[..], nextchar, optind, opts, posix);
      LaidPermutation(argv[..], orig, firstNonopt, lastNonopt, optind, Ahead(), Scan(orig[1..], opts, posix));
    }

    /** Copy saved elements into argv. */
    method CopyIn(src: seq<string>, to: nat)
      requires to + |src| <= argv.Length
      modifies argv
      ensures argv[..] == Overlaid(old(argv[..]), to, src)
    {
      hide Overlaid;
      for i := 0 to |src|
        invariant forall k :: to <= k < to + i ==> argv[k] == src[k - to]
        invariant forall k :: 0 <= k < argv.Length && !(to <= k < to + i) ==> argv[k] == old(argv[k])
      {
        argv[to + i] := src[i];
      }
      OverlaidIs(old(argv[..]), to, src, argv[..]);
    }

    /** Interchange the skipped operands with the options processed since. */
    method Exchange()
      requires 1 <= firstNonopt <= lastNonopt <= optind <= argv.Length
      modifies argv, this`firstNonopt, this`lastNonopt
      ensures firstNonopt == old(firstNonopt) + (optind - old(lastNonopt)) && lastNonopt == optind
      ensures argv[..] == Swapped(old(argv[..]), old(firstNonopt), old(lastNonopt), optind)
    {
      hide Overlaid, Swapped;
      SwappedIs(argv[..], firstNonopt, lastNonopt, optind);
      var temp := argv[..][firstNonopt..lastNonopt];
      ghost var was := argv[..];
      MoveDown(argv, lastNonopt, firstNonopt, optind - lastNonopt);
      OverlaidIs(was, firstNonopt, was[lastNonopt..optind], argv[..]);
      CopyIn(temp, firstNonopt + (optind - lastNonopt));
      firstNonopt := firstNonopt + (optind - lastNonopt);
      lastNonopt := optind;
    }

    /** Bring the options to the front, then pass over operands. */
    method PassOperands()
      requires !posix && nextchar == "" && Valid()
      modifies argv, this`firstNonopt, this`lastNonopt, this`optind
      ensures Valid() && lastNonopt == optind
      ensures Ahead().events == old(Ahead().events)
      ensures optind < argv.Length ==> !IsOperand(argv[optind])
    {
      hide Laid, Scan, Swapped, Rest;
      ghost var all := Scan(orig[1..], opts, posix);
      SwapStep(argv[..], firstNonopt, lastNonopt, optind, opts, posix, all);
      if firstNonopt != lastNonopt && lastNonopt != optind {
        Exchange();
      } else if lastNonopt != optind {
        NoneSkipped(argv[..], lastNonopt, optind, Ahead(), all);
        firstNonopt := optind;
      }
      ghost var v, events := argv[..], Ahead().events;
      while optind < argv.Length && IsOperand(argv[optind])
        invariant 1 <= firstNonopt <= optind <= argv.Length && argv[..] == v
        invariant Laid(v, firstNonopt, optind, optind, Rest(v, "", optind, opts, false), all)
        invariant Rest(v, "", optind, opts, false).events == events
        modifies this`optind
      {
        PassOne(v, firstNonopt, optind, opts, all);
        optind := optind + 1;
      }
      lastNonopt := optind;
    }

    /**
     * The options come first, the operands after them, each in the original order, and optind is where
     * the operands start.
     */
    ghost predicate Arranged()
      reads this, argv
    {
      |orig| > 0 &&
      var o := Scan(orig[1..], opts, posix);
      argv[..] == [orig[0]] + o.options + o.operands && optind == 1 + |o.options|
    }

    /** At `--`: it counts as an option, and whatever follows as operands. */
    method EndOfOptions()
      requires nextchar == "" && Valid() && optind < argv.Length && argv[optind] == "--"
      requires !posix ==> lastNonopt == optind
      modifies argv, this`firstNonopt, this`lastNonopt, this`optind
      ensures 1 <= firstNonopt <= lastNonopt == optind == argv.Length == |orig| && argv[0] == orig[0]
      ensures old(Ahead().events) == []
      ensures Laid(argv[..], firstNonopt, lastNonopt, optind, Outcome([], [], []), Scan(orig[1..], opts, posix))
    {
      hide Laid, Element, Swapped, Takes, Inside, Scan, Rest;
      ghost var v, all, rest := argv[..], Scan(orig[1..], opts, posix), Outcome([], [], argv[..][optind + 1..]);
      DashesUsed(v, firstNonopt, lastNonopt, optind, opts, posix, all);
      optind := optind + 1;
      SwappedLaid(v, firstNonopt, lastNonopt, optind, rest, all);
      if firstNonopt != lastNonopt && lastNonopt != optind {
        Exchange();
      } else if firstNonopt == lastNonopt {
        NoneSkipped(v, lastNonopt, optind, rest, all);
        firstNonopt := optind;
      }
      TakeRest(argv[..], firstNonopt, optind, rest, all);
      lastNonopt := argv.Length;
      optind := argv.Length;
    }

    /** `my_index`: the first place of c in the option string. */
    method MyIndex(c: char) returns (p: nat)
      ensures p == Position(opts, c)
    {
      p := 0;
      while p < |opts|
        invariant p <= |opts| && forall i :: 0 <= i < p ==> opts[i] != c
      {
        if opts[p] == c {
          return;
        }
        p := p + 1;
      }
    }

    /** Find the argument of an option that has one: the rest of the element, or the next element if it is required. */
    method TakeArgument(c: char, temp: nat) returns (e: Event)
      requires temp + 1 < |opts| && opts[temp + 1] == ':' && optarg == None
      requires if nextchar == "" then optind <= argv.Length else optind < argv.Length
      modifies this`nextchar, this`optind, this`optarg
      ensures nextchar == "" && optarg == e.arg
      ensures var optional := temp + 2 < |opts| && opts[temp + 2] == ':';
              var next := !optional && old(nextchar) == "" && old(optind) < argv.Length;
              && optind == old(optind) + (if old(nextchar) != "" || next then 1 else 0)
              && e == if old(nextchar) != "" then Event(c, Some(old(nextchar)))
                      else if next then Event(c, Some(argv[old(optind)]))
                      else Event(if optional then c else Missing(opts), None)
    {
      e := Event(c, None);
      if temp + 2 < |opts| && opts[temp + 2] == ':' {
        if nextchar != "" {
          optarg := Some(nextchar);
          optind := optind + 1;
        }
      } else {
        if nextchar != "" {
          optarg := Some(nextchar);
          optind := optind + 1;
        } else if optind == argv.Length {
          e := Event(if opts != "" && opts[0] == ':' then ':' else '?', None);
        } else {
          optarg := Some(argv[optind]);
          optind := optind + 1;
        }
      }
      nextchar := "";
      e := e.(arg := optarg);
    }

    /** Handle the next option character. */
    method Decode() returns (e: Event)
      requires nextchar != "" && Valid()
      modifies this`nextchar, this`optind, this`optarg
      ensures optarg == e.arg
      ensures Valid() && old(Ahead().events) == [e] + Ahead().events
    {
      hide Laid, Rest, Position, Scan, Element, Inside, Takes;
      ghost var s, first := nextchar, optind;
      optarg := None;
      var c := nextchar[0];
      nextchar := nextchar[1..];
      var temp := MyIndex(c);
      if nextchar == "" {
        optind := optind + 1;
      }
      e := Event(c, None);
      if temp == |opts| || c == ':' {
        e := Event('?', None);
      } else if temp + 1 < |opts| && opts[temp + 1] == ':' {
        e := TakeArgument(c, temp);
      }
      DecodeStep(argv[..], firstNonopt, lastNonopt, first, s, opts, posix, nextchar, optind - first,
                 Scan(orig[1..], opts, posix));
    }

    /** Go to the next option element; false if there is none, and then the scan is over. */
    method NextElement() returns (more: bool)
      requires !finished && nextchar == "" && Valid()
      modifies argv, this`firstNonopt, this`lastNonopt, this`optind, this`nextchar, this`finished
      ensures more ==> !finished && nextchar != "" && Valid() && Ahead().events == old(Ahead().events)
      ensures !more ==> finished && old(Ahead().events) == [] && Arranged()
    {
      hide Laid, Inside, Takes, Element, Position, FirstEvent, Rule, Scan, Rest;
      if !posix {
        PassOperands();
      }
      ghost var all := Scan(orig[1..], opts, posix);
      AtEnd(argv[..], optind, opts, posix);
      if optind != argv.Length && argv[optind] == "--" {
        EndOfOptions();
        AllLaid(argv[..], firstNonopt, optind, Outcome([], [], []), all);
      } else if optind == argv.Length || IsOperand(argv[optind]) {
        StopLaid(argv[..], firstNonopt, lastNonopt, optind, opts, posix, all);
      }
      if optind == argv.Length {
        if firstNonopt != lastNonopt {
          optind := firstNonopt;
        }
        finished := true;
        return false;
      }
      if IsOperand(argv[optind]) {
        finished := true;
        return false;
      }
      nextchar := argv[optind][1..];
      more := true;
    }

    /** One call of `getopt`, up to and including the first that returns EOF (here None). */
    method Next() returns (r: Option<Event>)
      requires !finished && Valid()
      modifies this, argv
      ensures optarg == if r.Some? then r.value.arg else None
      ensures r.Some? ==> !finished && Valid() && old(Ahead().events) == [r.value] + Ahead().events
      ensures r.None? ==> finished && old(Ahead().events) == [] && Arranged()
    {
      hide Laid, Scan, Rest;
      optarg := None;
      if nextchar == "" {
        var more := NextElement();
        if !more {
          return None;
        }
      }
      var e := Decode();
      r := Some(e);
    }

    /** Call after call until EOF: the events of the original arguments, and the arguments arranged. */
    method ScanAll() returns (events: seq<Event>)
      requires !finished && Valid() && Ahead() == Scan(orig[1..], opts, posix)
      modifies this, argv
      ensures finished && events == Scan(orig[1..], opts, posix).events && Arranged()
      ensures exists kinds, es :: Explains(orig[1..], opts, posix, kinds, es, Scan(orig[1..], opts, posix))
    {
      hide Laid, Scan, Rest, Explains;
      ghost var kinds, es := ScanExplained(orig[1..], opts, posix);
      events := [];
      var r := Next();
      while r.Some?
        invariant r.Some? ==>
                    !finished && Valid()
                    && Scan(orig[1..], opts, posix).events == events + [r.value] + Ahead().events
        invariant r.None? ==> finished && Scan(orig[1..], opts, posix).events == events && Arranged()
        decreases if r.Some? then 1 + |Ahead().events| else 0
      {
        events := events + [r.value];
        r := Next();
      }
    }
  }

  /** A "--" counts as an option. */
  lemma DashesUsed(v: seq<string>, first: nat, last: nat, ind: nat, opts: string, posix: bool, all: Outcome)
    requires ind < |v| && v[ind] == "--" && Laid(v, first, last, ind, Rest(v, "", ind, opts, posix), all)
    ensures Rest(v, "", ind, opts, posix).events == []
    ensures Laid(v, first, last, ind + 1, Outcome([], [], v[ind + 1..]), all)
  {
    hide Laid, Rest;
    AtEnd(v, ind, opts, posix);
    UseSome(v, first, last, ind, 1, Outcome([], [], v[ind + 1..]), Rest(v, "", ind, opts, posix), all);
  }

  /** The operands that follow join those that were skipped. */
  lemma TakeRest(v: seq<string>, first: nat, ind: nat, ahead: Outcome, all: Outcome)
    requires Laid(v, first, ind, ind, ahead, all) && ahead.options == [] && ahead.operands == v[ind..]
    ensures Laid(v, first, |v|, |v|, Outcome([], [], []), all)
  {
    assert v[first..|v|] == v[first..ind] + v[ind..];
    assert v[ind..ind] == [] == v[|v|..|v|];
  }

  /** What is ahead at the end, at `--`, and at an operand in POSIX order. */
  lemma AtEnd(v: seq<string>, i: nat, opts: string, posix: bool)
    requires i <= |v|
    ensures var o := Rest(v, "", i, opts, posix);
            && (i == |v| ==> o == Outcome([], [], []) && v[i..] == [])
            && (i < |v| && v[i] == "--" ==> o == Outcome([], v[i..][..1], v[i + 1..]))
            && (i < |v| && v[i] != "--" && IsOperand(v[i]) && posix ==> o == Outcome([], [], v[i..]))
            && (i < |v| && v[i] != "--" && !IsOperand(v[i]) ==> o == Rest(v, v[i][1..], i, opts, posix))
  {
    if i < |v| {
      assert v[i..][1..] == v[i + 1..];
      assert v[i..][..1] == [v[i]];
    }
  }

  /** At the end, or at an operand in POSIX order, everything has its place. */
  lemma StopLaid(v: seq<string>, first: nat, last: nat, ind: nat, opts: string, posix: bool, all: Outcome)
    requires 1 <= first <= last <= ind <= |v| && Laid(v, first, last, ind, Rest(v, "", ind, opts, posix), all)
    requires if posix then first == last && (ind < |v| ==> v[ind] != "--" && IsOperand(v[ind])) else last == ind == |v|
    ensures var f := if posix then ind else first;
            v == [v[0]] + all.options + all.operands && f == 1 + |all.options|
  {
    hide Laid, Scan, Element;
    AtEnd(v, ind, opts, posix);
    var o := Rest(v, "", ind, opts, posix);
    if posix {
      NoneSkipped(v, last, ind, o, all);
      AllLaid(v, ind, ind, o, all);
    } else {
      AllLaid(v, first, ind, o, all);
    }
  }
}
