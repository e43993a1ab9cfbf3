/** Free extents: sorted tables, first fit, and the halving of a full table. */
module FreeList {
  import opened Base
  import opened Layout

  /** How often the extent covers byte x of the file. */
  function In(e: AvailElem, x: nat): nat {
    if e.adr <= x < e.adr + e.size then 1 else 0
  }

  function Cover(s: seq<AvailElem>, x: nat): nat {
    if s == [] then 0 else In(s[0], x) + Cover(s[1..], x)
  }

  lemma {:induction false} CoverConcat(s: seq<AvailElem>, t: seq<AvailElem>, x: nat)
    ensures Cover(s + t, x) == Cover(s, x) + Cover(t, x)
  {
    if s == [] {
      assert s + t == t;
    } else {
      assert (s + t)[1..] == s[1..] + t;
      CoverConcat(s[1..], t, x);
    }
  }

  predicate Sorted(s: seq<AvailElem>) {
    forall i, j :: 0 <= i < j < |s| ==> s[i].size <= s[j].size
  }

  /** What every free table keeps: sorted by size, no fragment, nothing at the start of the file. */
  predicate GoodList(s: seq<AvailElem>) {
    Sorted(s) && forall i :: 0 <= i < |s| ==> s[i].size > IGNORE_SIZE && s[i].adr > 0
  }

  /** The first entry of at least `size` bytes, or |s| if there is none. */
  function FitIndex(size: nat, s: seq<AvailElem>): (i: nat)
    ensures i <= |s|
    ensures forall j :: 0 <= j < i ==> s[j].size < size
    ensures i < |s| ==> s[i].size >= size
  {
    if s == [] || s[0].size >= size then 0 else 1 + FitIndex(size, s[1..])
  }

  lemma FitIndexIs(size: nat, s: seq<AvailElem>, i: nat)
    requires i <= |s|
    requires forall j :: 0 <= j < i ==> s[j].size < size
    requires i < |s| ==> s[i].size >= size
    ensures FitIndex(size, s) == i
  {
  }

  function RemoveAt(s: seq<AvailElem>, i: nat): seq<AvailElem>
    requires i < |s|
  {
    s[..i] + s[i + 1..]
  }

  /** The table after the first entry of at least `size` bytes has been taken out, if there is one. */
  function AfterFit(size: nat, s: seq<AvailElem>): seq<AvailElem> {
    var i := FitIndex(size, s);
    if i < |s| then RemoveAt(s, i) else s
  }

  function InsertAt(s: seq<AvailElem>, i: nat, e: AvailElem): seq<AvailElem>
    requires i <= |s|
  {
    s[..i] + [e] + s[i..]
  }

  /** The table after `_gdbm_put_av_elem`: a fragment is not put back. */
  function Put(e: AvailElem, s: seq<AvailElem>): seq<AvailElem> {
    if e.size <= IGNORE_SIZE then s else InsertAt(s, FitIndex(e.size, s), e)
  }

  lemma RemoveIs(s: seq<AvailElem>, i: nat, r: seq<AvailElem>)
    requires i < |s| && |r| == |s| - 1
    requires forall j :: 0 <= j < i ==> r[j] == s[j]
    requires forall j :: i <= j < |r| ==> r[j] == s[j + 1]
    ensures r == RemoveAt(s, i)
  {
  }

  lemma InsertIs(s: seq<AvailElem>, i: nat, e: AvailElem, r: seq<AvailElem>)
    requires i <= |s| && |r| == |s| + 1 && r[i] == e
    requires forall j :: 0 <= j < i ==> r[j] == s[j]
    requires forall j :: i < j < |r| ==> r[j] == s[j - 1]
    ensures r == InsertAt(s, i, e)
  {
  }

  /** In a sorted table first fit is best fit. */
  lemma FirstFitIsBestFit(size: nat, s: seq<AvailElem>)
    requires Sorted(s)
    ensures var i := FitIndex(size, s);
            if i == |s| then forall e :: e in s ==> e.size < size
            else s[i].size >= size && forall e :: e in s && e.size >= size ==> s[i].size <= e.size
  {
    hide FitIndex;
    var i := FitIndex(size, s);
    forall e | e in s && e.size >= size
      ensures i < |s| && s[i].size <= e.size
    {
      var j :| 0 <= j < |s| && s[j] == e;
      assert i <= j;
    }
  }

  lemma RemoveGood(s: seq<AvailElem>, i: nat)
    requires GoodList(s) && i < |s|
    ensures GoodList(RemoveAt(s, i)) && |RemoveAt(s, i)| == |s| - 1
  {
  }

  lemma CoverRemove(s: seq<AvailElem>, i: nat, x: nat)
    requires i < |s|
    ensures Cover(s, x) == Cover(RemoveAt(s, i), x) + In(s[i], x)
  {
    assert s == s[..i] + ([s[i]] + s[i + 1..]);
    CoverConcat(s[..i], [s[i]] + s[i + 1..], x);
    CoverConcat([s[i]], s[i + 1..], x);
    CoverConcat(s[..i], s[i + 1..], x);
    assert Cover([s[i]], x) == In(s[i], x) + Cover([], x);
  }

  lemma InsertSorted(s: seq<AvailElem>, i: nat, e: AvailElem)
    requires Sorted(s) && i <= |s|
    requires i > 0 ==> s[i - 1].size <= e.size
    requires i < |s| ==> e.size <= s[i].size
    ensures Sorted(InsertAt(s, i, e))
  {
    var p := InsertAt(s, i, e);
    forall j, k | 0 <= j < k < |p|
      ensures p[j].size <= p[k].size
    {
      var j', k' := if j < i then j else j - 1, if k < i then k else k - 1;
      assert j != i ==> p[j] == s[j'];
      assert k != i ==> p[k] == s[k'];
    }
  }

  lemma PutGood(e: AvailElem, s: seq<AvailElem>)
    requires GoodList(s) && e.adr > 0
    ensures GoodList(Put(e, s))
    ensures |Put(e, s)| == if e.size <= IGNORE_SIZE then |s| else |s| + 1
  {
    if e.size > IGNORE_SIZE {
      var i := FitIndex(e.size, s);
      hide FitIndex, Sorted;
      InsertSorted(s, i, e);
    }
  }

  lemma PutKeepsAll(e: AvailElem, s: seq<AvailElem>)
    ensures multiset(Put(e, s)) == multiset(s) + (if e.size <= IGNORE_SIZE then multiset{} else multiset{e})
  {
    var i := FitIndex(e.size, s);
    assert s == s[..i] + s[i..];
  }

  lemma CoverPut(e: AvailElem, s: seq<AvailElem>, x: nat)
    ensures Cover(Put(e, s), x) == Cover(s, x) + (if e.size <= IGNORE_SIZE then 0 else In(e, x))
  {
    if e.size > IGNORE_SIZE {
      var i := FitIndex(e.size, s);
      assert RemoveAt(Put(e, s), i) == s;
      CoverRemove(Put(e, s), i, x);
    }
  }

  /** Take the first fitting element out of the table, closing the gap in place. */
  method GetElem(size: nat, tab: array<AvailElem>, count: nat) returns (val: AvailElem, left: nat)
    requires count <= tab.Length
    modifies tab
    ensures var s := old(tab[..count]);
            var i := FitIndex(size, s);
            if i < count then val == s[i] && left == count - 1 && tab[..left] == RemoveAt(s, i)
            else val == Avail(0, 0) && left == count && tab[..left] == s
  {
    hide FitIndex, RemoveAt;
    val, left := Avail(0, 0), count;
    ghost var s := tab[..count];
    var index := 0;
    while index < count && tab[index].size < size
      invariant 0 <= index <= count
      invariant forall j :: 0 <= j < index ==> s[j].size < size
    {
      index := index + 1;
    }
    FitIndexIs(size, s, index);
    if index >= count {
      return;
    }
    val := tab[index];
    left := count - 1;
    CloseGap(tab, index, left);
    RemoveIs(s, index, tab[..left]);
  }

  /** Move tab(index..left] down by one. */
  method CloseGap(tab: array<AvailElem>, index: nat, left: nat)
    requires index <= left < tab.Length
    modifies tab
    ensures forall j :: 0 <= j < index ==> tab[j] == old(tab[j])
    ensures forall j :: index <= j < left ==> tab[j] == old(tab[j + 1])
  {
    var i := index;
    while i < left
      invariant index <= i <= left
      invariant forall j :: 0 <= j < index ==> tab[j] == old(tab[j])
      invariant forall j :: index <= j < i ==> tab[j] == old(tab[j + 1])
      invariant forall j :: i < j <= left ==> tab[j] == old(tab[j])
    {
      tab[i] := tab[i + 1];
      i := i + 1;
    }
  }

  /** Insert in size order, shifting the larger elements up in place. */
  method PutElem(e: AvailElem, tab: array<AvailElem>, count: nat) returns (ok: bool, left: nat)
    requires count <= tab.Length
    requires e.size > IGNORE_SIZE ==> count < tab.Length
    modifies tab
    ensures ok <==> e.size > IGNORE_SIZE
    ensures left <= tab.Length
    ensures tab[..left] == Put(e, old(tab[..count]))
  {
    hide FitIndex, InsertAt;
    if e.size <= IGNORE_SIZE {
      return false, count;
    }
    ghost var s := tab[..count];
    var index := 0;
    while index < count && tab[index].size < e.size
      invariant 0 <= index <= count
      invariant forall j :: 0 <= j < index ==> s[j].size < e.size
    {
      index := index + 1;
    }
    FitIndexIs(e.size, s, index);
    ok, left := true, count + 1;
    ShiftUp(tab, index, count);
    tab[index] := e;
    InsertIs(s, index, e, tab[..left]);
  }

  /** Move tab[index..count) up by one, from the top down. */
  method ShiftUp(tab: array<AvailElem>, index: nat, count: nat)
    requires index <= count < tab.Length
    modifies tab
    ensures forall j :: 0 <= j < index ==> tab[j] == old(tab[j])
    ensures forall j :: index < j <= count ==> tab[j] == old(tab[j - 1])
  {
    var index1 := count - 1;
    while index1 >= index
      invariant index - 1 <= index1 < count
      invariant forall j :: 0 <= j <= index1 ==> tab[j] == old(tab[j])
      invariant forall j :: index1 + 1 < j <= count ==> tab[j] == old(tab[j - 1])
      decreases index1
    {
      tab[index1 + 1] := tab[index1];
      index1 := index1 - 1;
    }
  }

  /** Use the live part of a free table as the buffer of `get_elem`. */
  method TakeFit(size: nat, list: seq<AvailElem>) returns (val: AvailElem, rest: seq<AvailElem>)
    ensures var i := FitIndex(size, list);
            if i < |list| then val == list[i] && rest == RemoveAt(list, i)
            else val == Avail(0, 0) && rest == list
    ensures rest == AfterFit(size, list)
  {
    var tab := new AvailElem[|list|](i requires 0 <= i < |list| => list[i]);
    assert tab[..|list|] == list;
    var left;
    val, left := GetElem(size, tab, |list|);
    rest := tab[..left];
  }

  /** Use a free table of the given capacity as the buffer of `_gdbm_put_av_elem`. */
  method PutSorted(e: AvailElem, list: seq<AvailElem>, capacity: nat) returns (rest: seq<AvailElem>)
    requires |list| <= capacity && (e.size > IGNORE_SIZE ==> |list| < capacity)
    ensures rest == Put(e, list)
  {
    var tab := new AvailElem[capacity](i requires 0 <= i < capacity => if i < |list| then list[i] else Avail(0, 0));
    assert tab[..|list|] == list;
    var ok, left := PutElem(e, tab, |list|);
    rest := tab[..left];
  }

  /** The entries at even positions below 2 * (|s| / 2). */
  function Evens(s: seq<AvailElem>): seq<AvailElem> {
    seq(|s| / 2, k requires 0 <= k < |s| / 2 => s[2 * k])
  }

  function Odds(s: seq<AvailElem>): seq<AvailElem> {
    seq(|s| / 2, k requires 0 <= k < |s| / 2 => s[2 * k + 1])
  }

  /** The entry a halving loses: the last one, when their number is odd. */
  function LastIfOdd(s: seq<AvailElem>): (last: seq<AvailElem>)
    ensures |last| <= 1
  {
    if |s| % 2 == 1 then [s[|s| - 1]] else []
  }

  /** Every entry of a table is at half its place in one of the halves, but the last one of an odd number. */
  lemma HalvesAre(s: seq<AvailElem>, i: nat)
    requires i < |s|
    ensures |Evens(s)| == |Odds(s)| == |s| / 2
    ensures if i == |s| - 1 && i % 2 == 0 then LastIfOdd(s) == [s[i]]
            else (if i % 2 == 0 then Evens(s) else Odds(s))[i / 2] == s[i]
  {
    if i % 2 == 1 {
      OddAt(s, i);
    }
  }

  lemma OddAt(s: seq<AvailElem>, i: nat)
    requires i < |s| && i % 2 == 1
    ensures i / 2 < |Odds(s)| && Odds(s)[i / 2] == s[i]
  {
  }

  /** Position i / 2 of the kept half, also for the entry that an odd halving loses. */
  lemma EvenAt(s: seq<AvailElem>, i: nat)
    requires i < |s| && i % 2 == 0
    ensures (Evens(s) + LastIfOdd(s))[i / 2] == s[i]
  {
  }

  lemma HalvesGood(s: seq<AvailElem>)
    requires GoodList(s)
    ensures GoodList(Evens(s)) && GoodList(Odds(s))
  {
  }

  lemma {:induction false} CoverHalves(s: seq<AvailElem>, x: nat)
    ensures Cover(Evens(s), x) + Cover(Odds(s), x) + Cover(LastIfOdd(s), x) == Cover(s, x)
    decreases |s|
  {
    if |s| >= 2 {
      var t := s[2..];
      assert Evens(s) == [s[0]] + Evens(t);
      assert Odds(s) == [s[1]] + Odds(t);
      assert LastIfOdd(s) == LastIfOdd(t);
      assert Evens(s)[1..] == Evens(t) && Odds(s)[1..] == Odds(t);
      assert s[1..][1..] == t;
      CoverHalves(t, x);
    }
  }

  /** The halving loop: odd positions go to the new block, even ones close up in place. */
  method SplitTable(tab: array<AvailElem>, count: nat, temp: array<AvailElem>)
    returns (left: nat, moved: nat)
    requires count <= tab.Length && count / 2 <= temp.Length && tab != temp
    modifies tab, temp
    ensures left == moved == count / 2
    ensures tab[..left] == Evens(old(tab[..count]))
    ensures temp[..moved] == Odds(old(tab[..count]))
  {
    hide Evens, Odds, LastIfOdd;
    ghost var s := tab[..count];
    ghost var kept, gone := Evens(s) + LastIfOdd(s), Odds(s);
    HalfLengths(s);
    moved := 0;
    var index := 1;
    if count > 0 {
      EvenAt(s, 0);
    }
    while index < count
      invariant 1 <= index && (index <= count || (count == 0 && index == 1))
      invariant moved == index / 2
      invariant forall k :: 0 <= k < moved ==> temp[k] == gone[k]
      invariant forall k :: 0 <= k < (index + 1) / 2 && k < count ==> tab[k] == kept[k]
      invariant forall k :: index <= k < count ==> tab[k] == s[k]
    {
      if index % 2 == 1 {
        OddAt(s, index);
        temp[moved] := tab[index];
        moved := moved + 1;
      } else {
        EvenAt(s, index);
        tab[index / 2] := tab[index];
      }
      index := index + 1;
    }
    left := count / 2;
    assert tab[..left] == Evens(s);
    assert temp[..moved] == Odds(s);
  }

  lemma HalfLengths(s: seq<AvailElem>)
    ensures |Evens(s)| == |Odds(s)| == |s| / 2 && |LastIfOdd(s)| == |s| % 2
  {
  }
}
