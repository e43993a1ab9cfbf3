/** Putting a path in canonical form, in place. */
module Paths {
  import opened Base

  /** The number of slashes in front. */
  function Leading(s: string): (r: nat)
    ensures r <= |s| && (forall i :: 0 <= i < r ==> s[i] == '/') && (r < |s| ==> s[r] != '/')
  {
    if s == "" || s[0] != '/' then 0 else 1 + Leading(s[1..])
  }

  /** The length of the first component. */
  function CompLen(s: string): (k: nat)
    ensures k <= |s| && (forall i :: 0 <= i < k ==> s[i] != '/') && (k < |s| ==> s[k] == '/')
  {
    if s == "" || s[0] == '/' then 0 else 1 + CompLen(s[1..])
  }

  /** The components of a path, without the separators. */
  function Split(s: string): seq<string>
    decreases |s|
  {
    if s == "" then []
    else if s[0] == '/' then Split(s[1..])
    else [s[..CompLen(s)]] + Split(s[CompLen(s)..])
  }

  predicate GoodComp(c: string) {
    c != "" && c != "." && forall i :: 0 <= i < |c| ==> c[i] != '/'
  }

  /** "." is dropped; ".." removes the component before it, unless there is none or it is ".." too. */
  function Push(stack: seq<string>, c: string): seq<string> {
    if c == "." then stack
    else if c == ".." && stack != [] && stack[|stack| - 1] != ".." then stack[..|stack| - 1]
    else stack + [c]
  }

  function Fold(stack: seq<string>, comps: seq<string>): seq<string>
    decreases |comps|
  {
    if comps == [] then stack else Fold(Push(stack, comps[0]), comps[1..])
  }

  /** Each component followed by a slash. */
  function Flat(stack: seq<string>): string {
    if stack == [] then "" else Flat(stack[..|stack| - 1]) + stack[|stack| - 1] + "/"
  }

  function Trim(s: string): string {
    if s == "" then "" else s[..|s| - 1]
  }

  /** The canonical form: the leading slashes, and what is left of the components. */
  function Canon(s: string): string {
    var r := Leading(s);
    var w := s[..r] + Trim(Flat(Fold([], Split(s[r..]))));
    if w == "" then "." else w
  }

  ghost predicate GoodStack(stack: seq<string>) {
    forall i :: 0 <= i < |stack| ==> GoodComp(stack[i])
  }

  lemma FlatPush(stack: seq<string>, c: string)
    ensures Flat(stack + [c]) == Flat(stack) + c + "/"
  {
    assert (stack + [c])[..|stack|] == stack;
  }

  /** Where the last component starts. */
  lemma FlatTop(stack: seq<string>)
    requires stack != [] && GoodStack(stack)
    ensures var c, below := stack[|stack| - 1], Flat(stack[..|stack| - 1]);
            && Flat(stack) == below + (c + "/")
            && (below != "" ==> below[|below| - 1] == '/')
  {
    var below := stack[..|stack| - 1];
    assert Flat(below) + stack[|stack| - 1] + "/" == Flat(below) + (stack[|stack| - 1] + "/");
  }

  /** One component of the scan: s starts with component c of length k. */
  lemma SplitStep(s: string, k: nat)
    requires s != "" && s[0] != '/' && k == CompLen(s)
    ensures 0 < k && Split(s) == [s[..k]] + Split(s[k..])
    ensures s[..k] == "." || GoodComp(s[..k])
  {
  }

  lemma FoldStep(stack: seq<string>, c: string, rest: seq<string>)
    ensures Fold(stack, [c] + rest) == Fold(Push(stack, c), rest)
  {
    assert ([c] + rest)[1..] == rest;
  }

  // ----- what the components are

  function Slashes(n: nat): string {
    if n == 0 then "" else "/" + Slashes(n - 1)
  }

  /** The components with the given numbers of slashes before, between and after them. */
  function Woven(comps: seq<string>, seps: seq<nat>): string
    requires |seps| == |comps| + 1
  {
    Slashes(seps[0]) + if comps == [] then "" else comps[0] + Woven(comps[1..], seps[1..])
  }

  /** The path s is its components, none of them empty or with a slash in it, with slashes between them. */
  ghost predicate Joins(s: string, comps: seq<string>, seps: seq<nat>) {
    && |seps| == |comps| + 1 && s == Woven(comps, seps)
    && (forall i :: 0 <= i < |comps| ==> comps[i] != "" && '/' !in comps[i])
    && (forall i :: 0 < i < |comps| ==> seps[i] > 0)
    && (s != "" && s[0] == '/' ==> seps[0] > 0)
  }

  /** What the components of a path are. */
  lemma {:induction false} SplitIs(s: string) returns (seps: seq<nat>)
    ensures Joins(s, Split(s), seps)
    decreases |s|
  {
    hide Joins;
    if s == "" {
      seps := [0];
      NothingJoins();
    } else if s[0] == '/' {
      seps := SplitIs(s[1..]);
      SlashJoins(s, Split(s[1..]), seps);
      seps := seps[0 := seps[0] + 1];
    } else {
      var k := CompLen(s);
      SplitStep(s, k);
      seps := SplitIs(s[k..]);
      assert Split("") == [];
      hide Split;
      ComponentFirst(s, k);
      ComponentJoins(s[..k], s[k..], Split(s[k..]), seps);
      seps := [0] + seps;
    }
  }

  lemma NothingJoins()
    ensures Joins("", Split(""), [0])
  {
  }

  lemma SlashJoins(s: string, comps: seq<string>, seps: seq<nat>)
    requires s != "" && s[0] == '/' && Joins(s[1..], comps, seps)
    ensures seps != [] && Joins(s, comps, seps[0 := seps[0] + 1])
  {
    SlashMore(comps, seps);
    hide Woven;
    assert s == "/" + s[1..];
  }

  lemma ComponentFirst(s: string, k: nat)
    requires 0 < k == CompLen(s)
    ensures s == s[..k] + s[k..] && s[..k] != "" && '/' !in s[..k] && (s[k..] != "" ==> s[k..][0] == '/')
  {
    var c := s[..k];
    assert forall i :: 0 <= i < |c| ==> c[i] == s[i] != '/';
  }

  lemma ComponentJoins(c: string, t: string, comps: seq<string>, seps: seq<nat>)
    requires c != "" && '/' !in c && (if t == "" then comps == [] else t[0] == '/') && Joins(t, comps, seps)
    ensures Joins(c + t, [c] + comps, [0] + seps)
  {
    ComponentWoven(c, comps, seps);
    hide Woven;
    var all, gaps := [c] + comps, [0] + seps;
    forall i | 0 < i < |all|
      ensures all[i] == comps[i - 1] && gaps[i] == seps[i - 1] > 0
    {
    }
  }

  lemma SlashMore(comps: seq<string>, seps: seq<nat>)
    requires |seps| == |comps| + 1
    ensures Woven(comps, seps[0 := seps[0] + 1]) == "/" + Woven(comps, seps)
  {
    var more := seps[0 := seps[0] + 1];
    assert more[1..] == seps[1..];
    assert Slashes(more[0]) == "/" + Slashes(seps[0]);
  }

  lemma ComponentWoven(c: string, comps: seq<string>, seps: seq<nat>)
    requires |seps| == |comps| + 1
    ensures Woven([c] + comps, [0] + seps) == c + Woven(comps, seps)
  {
    assert ([c] + comps)[1..] == comps && ([0] + seps)[1..] == seps;
    assert Slashes(0) == "";
  }

  // ----- the buffer

  /** The length of the component at `start`. */
  method Measure(a: array<char>, start: nat, end: nat) returns (len: nat)
    requires start <= end <= a.Length
    ensures start + len <= end && len == CompLen(a[..][start..end])
  {
    len := 0;
    while start + len < end && a[start + len] != '/'
      invariant start + len <= end && forall k :: start <= k < start + len ==> a[k] != '/'
    {
      len := len + 1;
    }
    CompLenIs(a[..][start..end], len);
  }

  lemma {:induction false} CompLenIs(s: string, k: nat)
    requires k <= |s| && (forall i :: 0 <= i < k ==> s[i] != '/') && (k < |s| ==> s[k] == '/')
    ensures CompLen(s) == k
  {
  }

  /** The start of the last component before `out`. */
  method Previous(a: array<char>, root: nat, out: nat, ghost stack: seq<string>) returns (prev: nat)
    requires root <= out <= a.Length && a[..][root..out] == Flat(stack) && GoodStack(stack)
    ensures stack == [] ==> prev == out == root
    ensures stack != [] ==>
              root <= prev && out - prev == |stack[|stack| - 1]| + 1
              && a[..][prev..out] == stack[|stack| - 1] + "/"
    ensures stack != [] ==> a[..][root..prev] == Flat(stack[..|stack| - 1])
  {
    ghost var p := TopStart(a[..], root, out, stack);
    prev := out;
    if prev > root {
      prev := prev - 1;
    }
    while prev > root && a[prev - 1] != '/'
      invariant p <= prev && (stack != [] ==> prev < out)
    {
      prev := prev - 1;
    }
  }

  lemma TopStart(v: string, root: nat, out: nat, stack: seq<string>) returns (p: nat)
    requires root <= out <= |v| && v[root..out] == Flat(stack) && GoodStack(stack)
    ensures stack == [] ==> p == out == root
    ensures stack != [] ==>
              root <= p < out && out - p == |stack[|stack| - 1]| + 1
              && v[p..out] == stack[|stack| - 1] + "/"
    ensures stack != [] ==> v[root..p] == Flat(stack[..|stack| - 1]) && (p > root ==> v[p - 1] == '/')
    ensures forall k :: p <= k < out - 1 ==> v[k] != '/'
  {
    p := root;
    if stack != [] {
      var c, below := stack[|stack| - 1], Flat(stack[..|stack| - 1]);
      FlatTop(stack);
      hide Flat;
      p := root + |below|;
      Halve(v, root, p, out, below, c + "/");
      if p > root {
        assert v[p - 1] == v[root..p][|below| - 1];
      }
      forall k | p <= k < out - 1
        ensures v[k] != '/'
      {
        assert v[k] == v[p..out][k - p] == c[k - p];
      }
    }
  }

  /** The two parts of a stretch of the buffer. */
  lemma Halve(v: string, i: nat, j: nat, k: nat, x: string, y: string)
    requires i <= j <= k <= |v| && v[i..k] == x + y && |x| == j - i
    ensures v[i..j] == x && v[j..k] == y
  {
    assert v[i..k][..j - i] == v[i..j];
    assert v[i..k][j - i..] == v[j..k];
  }

  /** The state of the scan: what has been written, and what is left of the input. */
  ghost predicate Scanning(v: string, s: string, root: nat, out: nat, pos: nat, stack: seq<string>) {
    && root == Leading(s) <= out <= pos + 1 && pos <= |s| < |v|
    && (out == pos + 1 && pos < |s| ==> v[pos] == '/')
    && v[..root] == s[..root] && v[root..out] == Flat(stack) && v[pos..|s|] == s[pos..]
    && GoodStack(stack) && Fold(stack, Split(s[pos..])) == Fold([], Split(s[root..]))
  }

  /** Rewrite the path of length n at the start of the buffer; returns its new length. */
  method Canonize(a: array<char>, n: nat) returns (len: nat)
    requires n < a.Length && 2 <= a.Length && a[n] == '\0' && '\0' !in a[..n]
    modifies a
    ensures len < a.Length && a[..len] == Canon(old(a[..n])) && a[len] == '\0'
    ensures n > 0 ==> len <= n
    ensures forall k :: n < k < a.Length && k > 1 ==> a[k] == old(a[k])
  {
    hide Scanning, Fold, Split, Flat, Leading, Canon;
    ghost var s := a[..n];
    var root := CountSlashes(a, n);
    var pos: nat, out: nat := root, root;
    ghost var stack: seq<string> := [];
    ScanStart(a[..], s, root);
    while pos < n
      invariant pos <= n && Scanning(a[..], s, root, out, pos, stack)
      invariant pos < n ==> a[pos] != '/'
      invariant forall k :: n < k < a.Length ==> a[k] == old(a[k])
      decreases n - pos
    {
      pos, out, stack := Component(a, n, root, pos, out, s, stack);
      while pos < n && a[pos] == '/'
        invariant pos <= n && Scanning(a[..], s, root, out, pos, stack)
        modifies {}
      {
        PassSlash(a[..], s, root, out, pos, stack);
        pos := pos + 1;
      }
    }
    len := Finish(a, n, root, out, s, stack);
  }

  /** Preserve all leading slashes. */
  method CountSlashes(a: array<char>, n: nat) returns (root: nat)
    requires n <= a.Length
    ensures root <= n && (forall i :: 0 <= i < root ==> a[i] == '/') && (root < n ==> a[root] != '/')
  {
    root := 0;
    while root < n && a[root] == '/'
      invariant root <= n && forall k :: 0 <= k < root ==> a[k] == '/'
    {
      root := root + 1;
    }
  }

  /** Drop the last separator, and change a null path to ".". */
  method Finish(a: array<char>, n: nat, root: nat, out: nat, ghost s: string, ghost stack: seq<string>)
    returns (len: nat)
    requires |s| == n < a.Length && 2 <= a.Length && Scanning(a[..], s, root, out, n, stack)
    modifies a
    ensures len < a.Length && a[..len] == Canon(s) && a[len] == '\0' && (n > 0 ==> len <= n)
    ensures forall k :: n < k < a.Length && k > 1 ==> a[k] == old(a[k])
  {
    hide Scanning, Canon;
    ScanDone(a[..], s, root, out, stack);
    len := out;
    if len > root {
      len := len - 1;
    }
    ghost var w := a[..len];
    if len == 0 {
      a[len] := '.';
      len := len + 1;
    }
    a[len] := '\0';
    assert a[..len] == if w == "" then "." else w;
  }

  lemma ScanStart(v: string, s: string, root: nat)
    requires |s| < |v| && v[..|s|] == s && root <= |s|
    requires (forall i :: 0 <= i < root ==> s[i] == '/') && (root < |s| ==> s[root] != '/')
    ensures Scanning(v, s, root, root, root, [])
  {
    LeadingIs(s, root);
  }

  /** At the start of a component the output has not passed it. */
  lemma ScanFacts(v: string, s: string, root: nat, out: nat, pos: nat, stack: seq<string>)
    requires pos < |s| <= |v| && v[pos] != '/' && Scanning(v, s, root, out, pos, stack)
    ensures root <= out <= pos && v[root..out] == Flat(stack) && GoodStack(stack)
  {
  }

  lemma {:induction false} LeadingIs(s: string, r: nat)
    requires r <= |s| && (forall i :: 0 <= i < r ==> s[i] == '/') && (r < |s| ==> s[r] != '/')
    ensures Leading(s) == r
  {
  }

  lemma PassSlash(v: string, s: string, root: nat, out: nat, pos: nat, stack: seq<string>)
    requires pos < |s| <= |v| && v[pos] == '/' && Scanning(v, s, root, out, pos, stack)
    ensures Scanning(v, s, root, out, pos + 1, stack)
  {
    hide Fold, Flat;
    assert s[pos..][0] == v[pos..|s|][0] == '/';
    assert s[pos..][1..] == s[pos + 1..];
    assert v[pos..|s|][1..] == v[pos + 1..|s|];
  }

  lemma ScanDone(v: string, s: string, root: nat, out: nat, stack: seq<string>)
    requires Scanning(v, s, root, out, |s|, stack)
    ensures root <= |s| && root <= out <= |s| + 1
    ensures var w := v[..if out > root then out - 1 else out]; Canon(s) == if w == "" then "." else w
  {
    assert s[|s|..] == "" && Split("") == [] && Fold(stack, []) == stack;
    hide Fold, Split, Leading;
    assert v[..out] == v[..root] + v[root..out];
    if out > root {
      assert v[..out - 1] == v[..root] + v[root..out][..out - root - 1];
    }
  }

  /** v with c and a slash written at `out`. */
  function Written(v: string, out: nat, c: string): (w: string)
    requires out + |c| < |v|
    ensures |w| == |v| && forall k :: out + |c| < k < |v| ==> w[k] == v[k]
  {
    v[..out] + c + "/" + v[out + |c| + 1..]
  }

  /** Move a component to the output and put a separator after it. */
  method CopyComponent(a: array<char>, pos: nat, out: nat, len: nat)
    requires out <= pos && pos + len < a.Length
    modifies a
    ensures a[..] == Written(old(a[..]), out, old(a[..])[pos..pos + len])
    ensures forall k :: pos + len < k < a.Length ==> a[k] == old(a[k])
  {
    ghost var v := a[..];
    ghost var c := v[pos..pos + len];
    MoveDown(a, pos, out, len);
    a[out + len] := '/';
    hide Written;
    WrittenIs(v, out, c, a[..]);
  }

  lemma WrittenIs(v: string, out: nat, c: string, w: string)
    requires out + |c| < |v| == |w| && w[out + |c|] == '/'
    requires forall k :: out <= k < out + |c| ==> w[k] == c[k - out]
    requires forall k :: 0 <= k < |v| && !(out <= k <= out + |c|) ==> w[k] == v[k]
    ensures w == Written(v, out, c)
  {
  }

  /** `memcpy(out, "../", 3)`. */
  method PutDots(a: array<char>, out: nat)
    requires out + 2 < a.Length
    modifies a
    ensures a[..] == Written(old(a[..]), out, "..")
    ensures forall k :: out + 2 < k < a.Length ==> a[k] == old(a[k])
  {
    a[out], a[out + 1], a[out + 2] := '.', '.', '/';
  }

  /** What the code looks at decides whether the last component is there and is not "..". */
  lemma ParentTest(v: string, prev: nat, out: nat, stack: seq<string>)
    requires prev <= out <= |v| && GoodStack(stack)
    requires if stack == [] then prev == out else v[prev..out] == stack[|stack| - 1] + "/"
    ensures prev < out - 1 && (out - prev != 3 || !(v[prev] == '.' && v[prev + 1] == '.' && v[prev + 2] == '/'))
            <==> stack != [] && stack[|stack| - 1] != ".."
  {
    if stack != [] {
      var top := stack[|stack| - 1];
      assert |v[prev..out]| == |top| + 1;
      assert forall k :: 0 <= k < |top| ==> v[prev + k] == v[prev..out][k] == top[k];
      assert v[out - 1] == v[prev..out][|top|] == '/';
      assert top == ".." <==> |top| == 2 && top[0] == '.' && top[1] == '.';
    }
  }

  lemma PushParent(stack: seq<string>)
    ensures Push(stack, "..")
            == if stack != [] && stack[|stack| - 1] != ".." then stack[..|stack| - 1] else stack + [".."]
  {
  }

  /** Handle a component "..": drop the component before it, or keep it. */
  method Parent(a: array<char>, n: nat, root: nat, pos: nat, out: nat, ghost s: string, ghost stack: seq<string>)
    returns (out': nat)
    requires n == |s| < a.Length && pos + 2 <= n && root <= out <= pos && Scanning(a[..], s, root, out, pos, stack)
    requires a[..][root..out] == Flat(stack) && GoodStack(stack) && GoodStack(Push(stack, ".."))
    requires a[..][pos + 2..n] == s[pos + 2..] && (pos + 2 < n ==> a[pos + 2] == '/')
    requires Fold(Push(stack, ".."), Split(s[pos + 2..])) == Fold([], Split(s[root..]))
    modifies a
    ensures Scanning(a[..], s, root, out', pos + 2, Push(stack, ".."))
    ensures forall k :: n < k < a.Length ==> a[k] == old(a[k])
  {
    hide Fold, Split, Flat, Leading, Scanning, Written, Push, GoodStack, GoodComp;
    ghost var v := a[..];
    var prev := Previous(a, root, out, stack);
    ParentTest(v, prev, out, stack);
    PushParent(stack);
    if prev < out - 1 && (out - prev != 3 || !(a[prev] == '.' && a[prev + 1] == '.' && a[prev + 2] == '/')) {
      out' := prev;
      NextComponent(v, s, root, out, pos, 2, stack, v, out', stack[..|stack| - 1]);
    } else {
      PutDots(a, out);
      out' := out + 3;
      Emitted(v, s, root, out, pos, 2, stack, "..");
    }
  }

  /** Handle one component of the input; separators may follow. */
  method Component(a: array<char>, n: nat, root: nat, pos: nat, out: nat, ghost s: string, ghost stack: seq<string>)
    returns (pos': nat, out': nat, ghost stack': seq<string>)
    requires pos < n == |s| < a.Length && a[pos] != '/'
    requires Scanning(a[..], s, root, out, pos, stack)
    modifies a
    ensures pos < pos' <= n && Scanning(a[..], s, root, out', pos', stack')
    ensures forall k :: n < k < a.Length ==> a[k] == old(a[k])
  {
    hide Fold, Split, Flat, Leading, Scanning, CompLen, Written, GoodStack, GoodComp, Push;
    var len := Measure(a, pos, n);
    ghost var v := a[..];
    ghost var c := v[pos..pos + len];
    ComponentIs(v, s, root, out, pos, len, stack);
    ScanFacts(v, s, root, out, pos, stack);
    OnlyDots(c);
    pos', stack' := pos + len, Push(stack, c);
    if len == 1 && a[pos] == '.' {
      out' := out;
      PushKept(stack, c);
      NextComponent(v, s, root, out, pos, len, stack, v, out', stack');
    } else if len == 2 && a[pos] == '.' && a[pos + 1] == '.' {
      out' := Parent(a, n, root, pos, out, s, stack);
    } else {
      CopyComponent(a, pos, out, len);
      out' := out + len + 1;
      PushKept(stack, c);
      Emitted(v, s, root, out, pos, len, stack, c);
    }
  }

  /** The tests of the code tell the special components. */
  lemma OnlyDots(c: string)
    ensures c == "." <==> |c| == 1 && c[0] == '.'
    ensures c == ".." <==> |c| == 2 && c[0] == '.' && c[1] == '.'
  {
  }

  lemma PushKept(stack: seq<string>, c: string)
    ensures c == "." ==> Push(stack, c) == stack
    ensures c != "." && c != ".." ==> Push(stack, c) == stack + [c]
  {
  }

  lemma ComponentIs(v: string, s: string, root: nat, out: nat, pos: nat, len: nat, stack: seq<string>)
    requires pos < |s| <= |v| && v[pos] != '/' && Scanning(v, s, root, out, pos, stack) && len == CompLen(v[pos..|s|])
    ensures 0 < len && pos + len <= |s|
    ensures var c := v[pos..pos + len];
            && (c == "." || GoodComp(c)) && GoodStack(Push(stack, c))
            && Fold(Push(stack, c), Split(s[pos + len..])) == Fold([], Split(s[root..]))
    ensures v[pos + len..|s|] == s[pos + len..] && (pos + len < |s| ==> v[pos + len] == '/')
  {
    hide Flat, Leading, Split, CompLen, Fold;
    SplitStep(v[pos..|s|], len);
    SliceAgain(v, s, pos, len);
    FoldStep(stack, v[pos..pos + len], Split(s[pos + len..]));
  }

  /** The component at `pos` and the rest of the input. */
  lemma SliceAgain(v: string, s: string, pos: nat, len: nat)
    requires pos + len <= |s| <= |v| && v[pos..|s|] == s[pos..]
    ensures v[pos..|s|][..len] == v[pos..pos + len] && s[pos..][..len] == v[pos..pos + len]
    ensures v[pos..|s|][len..] == v[pos + len..|s|] == s[pos..][len..] == s[pos + len..]
    ensures pos + len < |s| ==> v[pos..|s|][len] == v[pos + len]
  {
  }

  /** The scan goes on after a component. */
  lemma NextComponent(v: string, s: string, root: nat, out: nat, pos: nat, len: nat, stack: seq<string>,
                      v': string, out': nat, stack': seq<string>)
    requires Scanning(v, s, root, out, pos, stack) && pos + len <= |s| < |v| == |v'| && GoodStack(stack')
    requires v[pos + len..|s|] == s[pos + len..] && (pos + len < |s| ==> v[pos + len] == '/')
    requires Fold(stack', Split(s[pos + len..])) == Fold([], Split(s[root..]))
    requires root <= out' <= pos + len + 1 && v'[root..out'] == Flat(stack')
    requires out' == pos + len + 1 && pos + len < |s| ==> v'[pos + len] == '/'
    requires forall k :: 0 <= k < root || pos + len < k < |v| ==> v'[k] == v[k]
    requires v'[pos + len] == v[pos + len] || v'[pos + len] == '/'
    ensures Scanning(v', s, root, out', pos + len, stack')
  {
    hide Fold, Flat, Split, Leading;
    assert v'[..root] == v[..root];
    forall k | pos + len <= k < |s|
      ensures v'[k] == s[k]
    {
      assert v[k] == v[pos + len..|s|][k - (pos + len)] == s[pos + len..][k - (pos + len)];
    }
  }

  /** The scan goes on after a component that was kept. */
  lemma Emitted(v: string, s: string, root: nat, out: nat, pos: nat, len: nat, stack: seq<string>, c: string)
    requires Scanning(v, s, root, out, pos, stack) && 0 < len == |c| && pos + len <= |s| < |v| && out <= pos
    requires GoodStack(stack + [c])
    requires v[pos + len..|s|] == s[pos + len..] && (pos + len < |s| ==> v[pos + len] == '/')
    requires Fold(stack + [c], Split(s[pos + len..])) == Fold([], Split(s[root..]))
    ensures Scanning(Written(v, out, c), s, root, out + len + 1, pos + len, stack + [c])
  {
    hide Fold, Split;
    FlatPush(stack, c);
    var v' := Written(v, out, c);
    hide Flat, Leading;
    assert v'[root..out + len + 1] == v[root..out] + c + "/";
    NextComponent(v, s, root, out, pos, len, stack, v', out + len + 1, stack + [c]);
  }

  // ----- what the canonical form means

  /** A place in a directory tree without links: so many levels up from a starting point, then down along names. */
  datatype Dir = Dir(ups: nat, names: seq<string>)

  /** Follow one component; at the root, ".." leads nowhere. */
  function Walk(rooted: bool, d: Dir, c: string): Dir {
    if c == "." then d
    else if c != ".." then Dir(d.ups, d.names + [c])
    else if d.names != [] then Dir(d.ups, d.names[..|d.names| - 1])
    else if rooted then d
    else Dir(d.ups + 1, [])
  }

  function WalkAll(rooted: bool, d: Dir, comps: seq<string>): Dir
    decreases |comps|
  {
    if comps == [] then d else WalkAll(rooted, Walk(rooted, d, comps[0]), comps[1..])
  }

  lemma {:induction false} WalkAppend(rooted: bool, d: Dir, comps: seq<string>, c: string)
    ensures WalkAll(rooted, d, comps + [c]) == Walk(rooted, WalkAll(rooted, d, comps), c)
    decreases |comps|
  {
    if comps == [] {
      assert [c][1..] == [];
      assert WalkAll(rooted, Walk(rooted, d, c), []) == Walk(rooted, d, c);
    } else {
      assert (comps + [c])[1..] == comps[1..] + [c];
      WalkAppend(rooted, Walk(rooted, d, comps[0]), comps[1..], c);
    }
  }

  lemma PushWalk(rooted: bool, d: Dir, stack: seq<string>, c: string)
    requires forall i :: 0 <= i < |stack| ==> stack[i] != "."
    ensures WalkAll(rooted, d, Push(stack, c)) == Walk(rooted, WalkAll(rooted, d, stack), c)
  {
    if c == ".." && stack != [] && stack[|stack| - 1] != ".." {
      var below, top := stack[..|stack| - 1], stack[|stack| - 1];
      assert stack == below + [top];
      WalkAppend(rooted, d, below, top);
    } else if c != "." {
      WalkAppend(rooted, d, stack, c);
    }
  }

  lemma {:induction false} FoldWalk(rooted: bool, d: Dir, stack: seq<string>, comps: seq<string>)
    requires forall i :: 0 <= i < |stack| ==> stack[i] != "."
    ensures WalkAll(rooted, d, Fold(stack, comps)) == WalkAll(rooted, WalkAll(rooted, d, stack), comps)
    decreases |comps|
  {
    if comps != [] {
      PushWalk(rooted, d, stack, comps[0]);
      FoldWalk(rooted, d, Push(stack, comps[0]), comps[1..]);
    }
  }

  // ----- what the canonical form looks like

  /** Ordinary components, and ".." only in front of them. */
  ghost predicate Canonical(stack: seq<string>) {
    GoodStack(stack) && forall i :: 0 < i < |stack| && stack[i] == ".." ==> stack[i - 1] == ".."
  }

  lemma {:induction false} SplitGood(s: string)
    ensures forall c :: c in Split(s) ==> c == "." || GoodComp(c)
    decreases |s|
  {
    if s != "" {
      if s[0] == '/' {
        SplitGood(s[1..]);
      } else {
        SplitStep(s, CompLen(s));
        SplitGood(s[CompLen(s)..]);
      }
    }
  }

  lemma {:induction false} FoldCanonical(stack: seq<string>, comps: seq<string>)
    requires Canonical(stack) && forall c :: c in comps ==> c == "." || GoodComp(c)
    ensures Canonical(Fold(stack, comps))
    decreases |comps|
  {
    if comps != [] {
      FoldCanonical(Push(stack, comps[0]), comps[1..]);
    }
  }

  /** A canonical list of components is its own fold. */
  lemma {:induction false} FoldFixed(stack: seq<string>, k: nat)
    requires Canonical(stack) && k <= |stack|
    ensures Fold(stack[..k], stack[k..]) == stack
    decreases |stack| - k
  {
    if k < |stack| {
      assert stack[..k] + [stack[k]] == stack[..k + 1];
      assert stack[k..][1..] == stack[k + 1..];
      FoldFixed(stack, k + 1);
    } else {
      assert stack[..k] == stack;
    }
  }

  /** Taking k characters off a path of two parts. */
  lemma AroundAt(x: string, y: string, k: nat)
    requires k <= |x|
    ensures |x + "/" + y| == |x| + 1 + |y|
    ensures (x + "/" + y)[..k] == x[..k] && (x + "/" + y)[k..] == x[k..] + "/" + y
  {
  }

  lemma AroundComp(x: string, y: string)
    ensures CompLen(x + "/" + y) == CompLen(x)
  {
    var w, k := x + "/" + y, CompLen(x);
    assert forall i :: 0 <= i < |x| ==> w[i] == x[i];
    assert w[|x|] == '/';
    CompLenIs(w, k);
  }

  lemma SlashStep(s: string)
    requires s != "" && s[0] == '/'
    ensures Split(s) == Split(s[1..])
  {
  }

  lemma {:induction false} SplitAround(x: string, y: string)
    ensures Split(x + "/" + y) == Split(x) + Split(y)
    decreases |x|
  {
    var w := x + "/" + y;
    if x == "" {
      assert Split("") == [];
      assert w[0] == '/' && w[1..] == y;
      SlashStep(w);
    } else {
      hide Split, CompLen;
      var k := if x[0] == '/' then 1 else CompLen(x);
      assert w[0] == x[0];
      AroundAt(x, y, k);
      if x[0] == '/' {
        SlashStep(w);
        SlashStep(x);
      } else {
        AroundComp(x, y);
        SplitStep(w, k);
        SplitStep(x, k);
      }
      SplitAround(x[k..], y);
    }
  }

  /** Reading back what the scan writes. */
  lemma {:induction false} SplitFlat(stack: seq<string>)
    requires GoodStack(stack)
    ensures Split(Trim(Flat(stack))) == stack
    decreases |stack|
  {
    if stack != [] {
      var below, c := stack[..|stack| - 1], stack[|stack| - 1];
      SplitFlat(below);
      FlatTop(stack);
      CompLenIs(c, |c|);
      SplitStep(c, |c|);
      assert c[..|c|] == c && Split(c) == [c] + Split(c[|c|..]) == [c];
      assert Trim(Flat(stack)) == Flat(below) + c;
      if below != [] {
        assert Flat(below) == Trim(Flat(below)) + "/";
        SplitAround(Trim(Flat(below)), c);
      } else {
        assert "" + c == c;
      }
    }
  }

  /** The components of a path, and whether it starts at the root. */
  function Comps(s: string): seq<string> {
    Split(s[Leading(s)..])
  }

  lemma DotComps()
    ensures Leading(".") == 0 && Comps(".") == ["."]
  {
    LeadingIs(".", 0);
    CompLenIs(".", 1);
    SplitStep(".", 1);
    assert "."[..1] == "." && "."[1..] == "" && "."[0..] == ".";
  }

  /** Slashes in front of something that does not begin with one. */
  lemma PrefixComps(s: string, t: string)
    requires t == "" || t[0] != '/'
    ensures var r := Leading(s); Leading(s[..r] + t) == r && Comps(s[..r] + t) == Split(t)
  {
    var r := Leading(s);
    LeadingIs(s[..r] + t, r);
    assert (s[..r] + t)[r..] == t;
  }

  /** The components with one slash between any two, and none at the end. */
  function Chain(comps: seq<string>): string {
    if |comps| == 0 then "" else if |comps| == 1 then comps[0] else comps[0] + "/" + Chain(comps[1..])
  }

  lemma {:induction false} ChainLast(comps: seq<string>, c: string)
    ensures Chain(comps + [c]) == if comps == [] then c else Chain(comps) + "/" + c
    decreases |comps|
  {
    if comps != [] {
      assert (comps + [c])[1..] == comps[1..] + [c];
      ChainLast(comps[1..], c);
    }
  }

  lemma {:induction false} FlatIs(stack: seq<string>)
    ensures Trim(Flat(stack)) == Chain(stack)
    ensures stack != [] ==> Flat(stack) == Chain(stack) + "/"
    decreases |stack|
  {
    if stack != [] {
      var below, c := stack[..|stack| - 1], stack[|stack| - 1];
      FlatIs(below);
      ChainLast(below, c);
      assert stack == below + [c];
    }
  }

  /** The canonical text: the leading slashes, then the remaining components with single slashes between them. */
  lemma CanonText(s: string)
    ensures var r, stack := Leading(s), Fold([], Comps(s));
            Canon(s) == if r == 0 && Chain(stack) == "" then "." else s[..r] + Chain(stack)
  {
    FlatIs(Fold([], Comps(s)));
  }

  lemma CanonParts(s: string)
    ensures var stack := Fold([], Comps(s));
            && Canonical(stack)
            && (Leading(Canon(s)) == Leading(s))
            && Comps(Canon(s)) == if s[..Leading(s)] + Trim(Flat(stack)) == "" then ["."] else stack
  {
    var r, stack := Leading(s), Fold([], Comps(s));
    SplitGood(s[r..]);
    FoldCanonical([], Comps(s));
    hide Fold, Split, Leading, Flat, Trim;
    SplitFlat(stack);
    if Trim(Flat(stack)) != "" {
      FirstChar(stack);
    }
    PrefixComps(s, Trim(Flat(stack)));
    DotComps();
  }

  /** What the scan writes does not begin with a slash. */
  lemma {:induction false} FirstChar(stack: seq<string>)
    requires GoodStack(stack) && stack != []
    ensures Trim(Flat(stack)) != "" && Trim(Flat(stack))[0] != '/'
    decreases |stack|
  {
    var below, c := stack[..|stack| - 1], stack[|stack| - 1];
    FlatTop(stack);
    if below != [] {
      FirstChar(below);
    }
  }

  /** From every directory the canonical path leads to the same place as the original one. */
  lemma CanonMeans(s: string, rooted: bool, d: Dir)
    ensures WalkAll(rooted, d, Comps(Canon(s))) == WalkAll(rooted, d, Comps(s))
  {
    CanonParts(s);
    FoldWalk(rooted, d, [], Comps(s));
    var stack := Fold([], Comps(s));
    if s[..Leading(s)] + Trim(Flat(stack)) == "" {
      if stack != [] {
        FirstChar(stack);
      }
      assert ["."][1..] == [];
    }
  }

  /** A canonical path is left as it is. */
  lemma CanonIdempotent(s: string)
    ensures Canon(Canon(s)) == Canon(s)
  {
    CanonParts(s);
    var r, stack, u := Leading(s), Fold([], Comps(s)), Canon(s);
    var w := s[..r] + Trim(Flat(stack));
    if w == "" {
      assert Fold([], ["."]) == Fold([], ["."][1..]) == [];
      assert u[..0] == "";
    } else {
      FoldFixed(stack, 0);
      assert stack[..0] == [] && stack[0..] == stack;
      assert u[..r] == s[..r];
    }
  }
}
