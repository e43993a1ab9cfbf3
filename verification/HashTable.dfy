/** Open addressing inside one bucket: linear probing, deletion by back-shifting, redistribution. */
module HashTable {
  import opened Base
  import opened Layout

  predicate Occ(t: seq<Slot>, j: int)
    requires 0 <= j < |t|
  {
    t[j].hash != -1
  }

  /** The home position of a hash value; empty slots are sent to 0. */
  function Home(h: int, n: nat): (r: nat)
    requires n > 0
    ensures r < n
  {
    if h < 0 then 0 else h % n
  }

  function Next(j: nat, n: nat): (r: nat)
    requires j < n
    ensures r == if j + 1 == n then 0 else j + 1
  {
    (j + 1) % n
  }

  /** p lies on the cyclic walk from a to b, both included. */
  predicate Arc(a: int, p: int, b: int) {
    if a <= b then a <= p <= b else p >= a || p <= b
  }

  /** p lies on the cyclic walk from a to b, b excluded; empty when a == b. */
  predicate HalfArc(a: int, p: int, b: int) {
    if a <= b then a <= p < b else p >= a || p < b
  }

  /** The number of steps of the cyclic walk from a to b. */
  function Dist(n: nat, a: int, b: int): int {
    if a <= b then b - a else b - a + n
  }

  /** Every element can be reached: no empty slot on the walk from its home to it. */
  predicate ProbeOk(t: seq<Slot>) {
    forall j, p :: 0 <= j < |t| && 0 <= p < |t| && Occ(t, j) && Arc(Home(t[j].hash, |t|), p, j)
      ==> Occ(t, p)
  }

  function One(s: Slot): multiset<Slot> {
    if s.hash == -1 then multiset{} else multiset{s}
  }

  /** The elements of the table. */
  function OccBag(t: seq<Slot>): multiset<Slot> {
    if t == [] then multiset{} else OccBag(t[..|t| - 1]) + One(t[|t| - 1])
  }

  lemma {:induction false} BagUpdate(t: seq<Slot>, i: nat, s: Slot)
    requires i < |t|
    ensures One(t[i]) <= OccBag(t)
    ensures OccBag(t[i := s]) == OccBag(t) - One(t[i]) + One(s)
  {
    hide One;
    var m := |t| - 1;
    if i == m {
      assert t[i := s][..m] == t[..m];
      SwapOne(OccBag(t[..m]), One(t[m]), One(s));
    } else {
      assert t[i := s][..m] == t[..m][i := s];
      BagUpdate(t[..m], i, s);
      PassOne(OccBag(t[..m]), One(t[i]), One(s), One(t[m]));
    }
  }

  lemma SwapOne(a: multiset<Slot>, b: multiset<Slot>, c: multiset<Slot>)
    ensures b <= a + b && a + b - b + c == a + c
  {
  }

  lemma PassOne(a: multiset<Slot>, b: multiset<Slot>, c: multiset<Slot>, d: multiset<Slot>)
    requires b <= a
    ensures b <= a + d && a + d - b + c == a - b + c + d
  {
  }

  lemma {:induction false} BagMember(t: seq<Slot>, s: Slot)
    ensures s in OccBag(t) <==> exists j :: 0 <= j < |t| && Occ(t, j) && t[j] == s
  {
    if t != [] {
      var u := t[..|t| - 1];
      BagMember(u, s);
      forall j | 0 <= j < |u|
        ensures Occ(u, j) == Occ(t, j) && u[j] == t[j]
      {
      }
    }
  }

  lemma {:induction false} BagSize(t: seq<Slot>)
    ensures |OccBag(t)| <= |t|
    ensures |OccBag(t)| == |t| <==> forall j :: 0 <= j < |t| ==> Occ(t, j)
  {
    if t != [] {
      var u := t[..|t| - 1];
      BagSize(u);
      AllOccupied(t);
      assert |One(t[|u|])| == if t[|u|].hash == -1 then 0 else 1;
      assert |OccBag(t)| == |OccBag(u)| + |One(t[|u|])|;
      hide Occ, One, OccBag;
    }
  }

  lemma AllOccupied(t: seq<Slot>)
    requires t != []
    ensures var u := t[..|t| - 1];
            (forall j :: 0 <= j < |t| ==> Occ(t, j))
              <==> (forall j :: 0 <= j < |u| ==> Occ(u, j)) && t[|t| - 1].hash != -1
  {
    var u := t[..|t| - 1];
    assert forall j :: 0 <= j < |u| ==> Occ(u, j) == Occ(t, j);
    assert Occ(t, |u|) == (t[|u|].hash != -1);
  }

  lemma {:induction false} BagEmpty(t: seq<Slot>)
    requires forall j :: 0 <= j < |t| ==> !Occ(t, j)
    ensures OccBag(t) == multiset{} && ProbeOk(t)
  {
    if t != [] {
      var u := t[..|t| - 1];
      assert forall j :: 0 <= j < |u| ==> Occ(u, j) == Occ(t, j);
      assert !Occ(t, |u|);
      BagEmpty(u);
    }
  }

  /** Without repeated elements, an element has one position. */
  lemma BagPosition(t: seq<Slot>, i: nat, j: nat)
    requires i < |t| && j < |t| && Occ(t, i) && t[i] == t[j]
    requires OccBag(t)[t[i]] <= 1
    ensures i == j
  {
    if i != j {
      var e := t[i].(hash := -1);
      var u := t[i := e];
      assert Occ(u, j) && u[j] == t[j];
      BagMember(u, t[j]);
      BagUpdate(t, i, e);
    }
  }

  lemma PlaceKeepsProbe(t: seq<Slot>, e: nat, s: Slot)
    requires ProbeOk(t) && e < |t| && !Occ(t, e) && s.hash >= 0
    requires forall p :: 0 <= p < |t| && HalfArc(Home(s.hash, |t|), p, e) ==> Occ(t, p)
    ensures ProbeOk(t[e := s])
  {
    var u := t[e := s];
    assert forall p :: 0 <= p < |t| && Occ(t, p) ==> Occ(u, p);
  }

  /** Probe for the first empty slot at or after the home of `hash`. */
  method FirstEmpty(t: seq<Slot>, hash: nat) returns (loc: nat)
    requires |OccBag(t)| < |t|
    ensures loc < |t| && !Occ(t, loc)
    ensures forall p :: 0 <= p < |t| && HalfArc(Home(hash, |t|), p, loc) ==> Occ(t, p)
  {
    hide Home, Next;
    BagSize(t);
    ghost var hole :| 0 <= hole < |t| && !Occ(t, hole);
    var n := |t|;
    loc := Home(hash, n);
    while t[loc].hash != -1
      invariant loc < n
      invariant forall p :: 0 <= p < n && HalfArc(Home(hash, n), p, loc) ==> Occ(t, p)
      decreases Dist(n, loc, hole)
    {
      loc := Next(loc, n);
    }
  }

  /** Put an element where probing will find it. */
  method InsertSlot(tab: array<Slot>, s: Slot)
    requires ProbeOk(tab[..]) && |OccBag(tab[..])| < tab.Length && s.hash >= 0
    modifies tab
    ensures ProbeOk(tab[..]) && OccBag(tab[..]) == OccBag(old(tab[..])) + multiset{s}
  {
    ghost var t := tab[..];
    var loc := FirstEmpty(tab[..], s.hash);
    tab[loc] := s;
    assert tab[..] == t[loc := s];
    BagUpdate(t, loc, s);
    PlaceKeepsProbe(t, loc, s);
  }

  // ----- deletion

  /** Only the hole `last` may interrupt a walk, and no element already examined needs it filled. */
  predicate HoleOk(t: seq<Slot>, last: nat, e: nat) {
    && last < |t| && e < |t| && !Occ(t, last)
    && (forall j, p | 0 <= j < |t| && 0 <= p < |t| && Occ(t, j) && p != last
                      && Arc(Home(t[j].hash, |t|), p, j) :: Occ(t, p))
    && (forall j | 0 <= j < |t| && Occ(t, j) && Examined(last, j, e) ::
          !Arc(Home(t[j].hash, |t|), last, j))
  }

  /** j lies strictly between the hole and the cursor; when they meet, everything has been examined. */
  predicate Examined(last: int, j: int, e: int) {
    if last < e then last < j < e else j > last || j < e
  }

  lemma HoleStart(t: seq<Slot>, d: nat)
    requires ProbeOk(t) && d < |t| && Occ(t, d)
    ensures var u := t[d := t[d].(hash := -1)];
            HoleOk(u, d, Next(d, |t|)) && OccBag(u) + multiset{t[d]} == OccBag(t)
  {
    BagUpdate(t, d, t[d].(hash := -1));
    HoleClear(t, d);
    hide OccBag, HoleOk, ProbeOk;
  }

  lemma HoleClear(t: seq<Slot>, d: nat)
    requires ProbeOk(t) && d < |t| && Occ(t, d)
    ensures HoleOk(t[d := t[d].(hash := -1)], d, Next(d, |t|))
  {
    var u := t[d := t[d].(hash := -1)];
    hide Home;
    forall j, p | 0 <= j < |u| && 0 <= p < |u| && Occ(u, j) && p != d && Arc(Home(u[j].hash, |u|), p, j)
      ensures Occ(u, p)
    {
      assert Occ(t, j) && Occ(t, p);
    }
    assert !Occ(u, d);
  }

  lemma HoleStay(t: seq<Slot>, last: nat, e: nat)
    requires HoleOk(t, last, e) && e != last && Occ(t, e)
    requires !Arc(Home(t[e].hash, |t|), last, e)
    ensures HoleOk(t, last, Next(e, |t|))
  {
  }

  lemma HoleMove(t: seq<Slot>, last: nat, e: nat)
    requires HoleOk(t, last, e) && e != last && Occ(t, e)
    requires Arc(Home(t[e].hash, |t|), last, e)
    ensures HoleOk(t[last := t[e]][e := t[e].(hash := -1)], e, Next(e, |t|))
  {
    hide Home;
    var u := t[last := t[e]][e := t[e].(hash := -1)];
    assert forall p :: 0 <= p < |t| && p != last && p != e ==> u[p] == t[p] && Occ(u, p) == Occ(t, p);
    assert u[last] == t[e] && Occ(u, last) && !Occ(u, e);
  }

  lemma MoveKeepsBag(t: seq<Slot>, last: nat, e: nat)
    requires last < |t| && e < |t| && e != last && !Occ(t, last) && Occ(t, e)
    ensures OccBag(t[last := t[e]][e := t[e].(hash := -1)]) == OccBag(t)
  {
    BagUpdate(t, last, t[e]);
    BagUpdate(t[last := t[e]], e, t[e].(hash := -1));
  }

  lemma HoleDone(t: seq<Slot>, last: nat, e: nat)
    requires HoleOk(t, last, e) && (e == last || !Occ(t, e))
    ensures ProbeOk(t)
  {
  }

  /** The total displacement of the elements from their homes. */
  function Displacement(t: seq<Slot>, n: nat): nat
    requires n >= |t|
  {
    if t == [] then 0
    else
      var m := |t| - 1;
      Displacement(t[..m], n) + SlotDisp(t[m], m, n)
  }

  function SlotDisp(s: Slot, j: nat, n: nat): nat
    requires j < n
  {
    if s.hash == -1 then 0 else Dist(n, Home(s.hash, n), j)
  }

  lemma {:induction false} DisplacementUpdate(t: seq<Slot>, i: nat, s: Slot, n: nat)
    requires i < |t| <= n
    ensures Displacement(t[i := s], n) == Displacement(t, n) - SlotDisp(t[i], i, n) + SlotDisp(s, i, n)
  {
    var m := |t| - 1;
    if i == m {
      assert t[i := s][..m] == t[..m];
    } else {
      assert t[i := s][..m] == t[..m][i := s];
      DisplacementUpdate(t[..m], i, s, n);
    }
  }

  lemma MoveShrinks(t: seq<Slot>, last: nat, e: nat)
    requires HoleOk(t, last, e) && e != last && Occ(t, e)
    requires Arc(Home(t[e].hash, |t|), last, e)
    ensures Displacement(t[last := t[e]][e := t[e].(hash := -1)], |t|) < Displacement(t, |t|)
  {
    DisplacementUpdate(t, last, t[e], |t|);
    DisplacementUpdate(t[last := t[e]], e, t[e].(hash := -1), |t|);
  }

  /** Delete the element at `del` and move later ones back, in place, so that all stay reachable. */
  method DeleteAt(tab: array<Slot>, del: nat)
    requires del < tab.Length && ProbeOk(tab[..]) && tab[del].hash != -1
    modifies tab
    ensures ProbeOk(tab[..])
    ensures OccBag(tab[..]) + multiset{old(tab[del])} == OccBag(old(tab[..]))
  {
    hide Home, Next;
    var n := tab.Length;
    ghost var was := tab[..];
    HoleStart(was, del);
    tab[del] := tab[del].(hash := -1);
    assert tab[..] == was[del := was[del].(hash := -1)];
    var last := del;
    var e := Next(del, n);
    while e != last && tab[e].hash != -1
      invariant 0 <= last && 0 <= e && HoleOk(tab[..], last, e)
      invariant OccBag(tab[..]) + multiset{was[del]} == OccBag(was)
      decreases Displacement(tab[..], n), Dist(n, e, last)
    {
      ghost var t := tab[..];
      var home := Home(tab[e].hash, n);
      if (last < e && (home <= last || home > e)) || (last > e && home <= last && home > e) {
        HoleMove(t, last, e);
        MoveKeepsBag(t, last, e);
        MoveShrinks(t, last, e);
        tab[last] := tab[e];
        tab[e] := tab[e].(hash := -1);
        assert tab[..] == t[last := t[e]][e := t[e].(hash := -1)];
        last := e;
      } else {
        HoleStay(t, last, e);
      }
      e := Next(e, n);
    }
    HoleDone(tab[..], last, e);
  }

  // ----- splitting

  /** Bit number b, from the top, of a 31-bit hash: (h >> (31 - b)) & 1. */
  function HashBit(h: nat, b: nat): (bit: nat)
    requires 1 <= b <= 31
    ensures bit < 2
  {
    (h / Pow2(31 - b)) % 2
  }

  predicate InHalf(bag: multiset<Slot>, b: nat, which: nat)
    requires 1 <= b <= 31
  {
    forall s :: s in bag ==> s.hash >= 0 && HashBit(s.hash, b) == which
  }

  /** Mark every slot empty. */
  method ClearTable(tab: array<Slot>)
    modifies tab
    ensures OccBag(tab[..]) == multiset{} && ProbeOk(tab[..])
  {
    for index := 0 to tab.Length
      invariant forall j :: 0 <= j < index ==> tab[j].hash == -1
    {
      tab[index] := tab[index].(hash := -1);
    }
    BagEmpty(tab[..]);
  }

  lemma BagNone(t: seq<Slot>)
    ensures OccBag(t[..0]) == multiset{}
  {
  }

  lemma BagPrefix(t: seq<Slot>, i: nat)
    requires i < |t| && t[i].hash != -1
    ensures OccBag(t[..i + 1]) == OccBag(t[..i]) + multiset{t[i]}
  {
    assert t[..i + 1][..i] == t[..i];
  }

  /** Two tables that share out the elements `bag` by hash bit `bits`. */
  ghost predicate Dealt(t0: seq<Slot>, t1: seq<Slot>, bits: nat, bag: multiset<Slot>)
    requires 1 <= bits <= 31
  {
    && ProbeOk(t0) && ProbeOk(t1)
    && OccBag(t0) + OccBag(t1) == bag
    && InHalf(OccBag(t0), bits, 0) && InHalf(OccBag(t1), bits, 1)
  }

  method DealOne(s: Slot, bits: nat, tab0: array<Slot>, tab1: array<Slot>, ghost bag: multiset<Slot>)
    returns (select: nat)
    requires 1 <= bits <= 31 && tab0 != tab1 && tab0.Length == tab1.Length
    requires s.hash >= 0 && Dealt(tab0[..], tab1[..], bits, bag) && |bag| < tab0.Length
    modifies tab0, tab1
    ensures Dealt(tab0[..], tab1[..], bits, bag + multiset{s})
    ensures select == HashBit(s.hash, bits) && select < 2
    ensures |OccBag(tab0[..])| == |OccBag(old(tab0[..]))| + (if select == 0 then 1 else 0)
    ensures |OccBag(tab1[..])| == |OccBag(old(tab1[..]))| + (if select == 1 then 1 else 0)
  {
    hide ProbeOk, OccBag, HashBit, InHalf;
    select := HashBit(s.hash, bits);
    DealtBag(tab0[..], tab1[..], bits, bag, s, select);
    if select == 0 {
      InsertSlot(tab0, s);
    } else {
      InsertSlot(tab1, s);
    }
  }

  /** One more element in the table that its hash bit selects. */
  lemma DealtBag(t0: seq<Slot>, t1: seq<Slot>, bits: nat, bag: multiset<Slot>, s: Slot, which: nat)
    requires 1 <= bits <= 31 && Dealt(t0, t1, bits, bag) && s.hash >= 0 && which == HashBit(s.hash, bits)
    ensures which < 2
    ensures |OccBag(t0)| <= |bag| && |OccBag(t1)| <= |bag|
    ensures which == 0 ==>
              InHalf(OccBag(t0) + multiset{s}, bits, 0)
              && OccBag(t0) + multiset{s} + OccBag(t1) == bag + multiset{s}
    ensures which == 1 ==>
              InHalf(OccBag(t1) + multiset{s}, bits, 1)
              && OccBag(t0) + (OccBag(t1) + multiset{s}) == bag + multiset{s}
  {
    hide ProbeOk, OccBag, HashBit;
    assert |OccBag(t0) + OccBag(t1)| == |OccBag(t0)| + |OccBag(t1)|;
  }

  /** Deal the elements of a full table out to two empty ones by one hash bit. */
  method Redistribute(full: seq<Slot>, bits: nat, tab0: array<Slot>, tab1: array<Slot>)
    returns (count0: nat, count1: nat)
    requires 1 <= bits <= 31 && tab0 != tab1 && tab0.Length == tab1.Length == |full|
    requires forall j :: 0 <= j < |full| ==> full[j].hash >= 0
    requires Dealt(tab0[..], tab1[..], bits, multiset{})
    modifies tab0, tab1
    ensures Dealt(tab0[..], tab1[..], bits, OccBag(full))
    ensures count0 == |OccBag(tab0[..])| && count1 == |OccBag(tab1[..])|
  {
    hide Dealt, HashBit, OccBag, Occ;
    count0, count1 := 0, 0;
    BagNone(full);
    EmptyHalves(tab0[..], tab1[..], bits);
    for index := 0 to |full|
      invariant Dealt(tab0[..], tab1[..], bits, OccBag(full[..index])) && |OccBag(full[..index])| == index
      invariant count0 == |OccBag(tab0[..])| && count1 == |OccBag(tab1[..])|
    {
      BagPrefix(full, index);
      assert full[index].hash >= 0;
      var select := DealOne(full[index], bits, tab0, tab1, OccBag(full[..index]));
      if select == 0 {
        count0 := count0 + 1;
      } else {
        count1 := count1 + 1;
      }
    }
    assert full[..|full|] == full;
  }

  lemma EmptyHalves(t0: seq<Slot>, t1: seq<Slot>, bits: nat)
    requires 1 <= bits <= 31 && Dealt(t0, t1, bits, multiset{})
    ensures |OccBag(t0)| == 0 && |OccBag(t1)| == 0
  {
    assert |OccBag(t0) + OccBag(t1)| == 0;
  }
}
