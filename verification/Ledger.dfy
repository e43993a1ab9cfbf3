/** Who owns each byte of the file. */
module Ledger {
  import opened Base
  import opened Layout
  import opened FreeList
  import opened HashTable
  import opened Space

  /** The logical state of a database, which the program keeps only in encoded form. */
  datatype Books = Books(
    tabs: map<nat, Core>,              // the buckets that the directory points to, by file address
    pre: map<nat, nat>,                // their hash prefixes
    avs: map<nat, seq<AvailElem>>,     // their free extents
    slots: multiset<Slot>,             // the elements whose records are in the file
    stack: seq<StackEntry>,            // the avail stack
    held: seq<AvailElem>,              // extents in transit between owners
    scraps: seq<AvailElem>, dropped: seq<AvailElem>,  // extents given up
    dirty: set<nat>,                   // buckets whose image on disk may be stale
    dirStale: bool,                    // likewise for the directory
    contents: map<Bytes, Bytes>)       // what the database means

  function Extent(s: Slot): AvailElem {
    Avail(s.keySize + s.dataSize, s.ptr)
  }

  ghost function PickSlot(bag: multiset<Slot>): (s: Slot)
    requires bag != multiset{}
    ensures s in bag
  {
    var s :| s in bag;
    s
  }

  /** How many records cover byte x. */
  ghost function Records(bag: multiset<Slot>, x: nat): nat
    decreases |bag|
  {
    if bag == multiset{} then 0
    else
      var s := PickSlot(bag);
      In(Extent(s), x) + Records(bag - multiset{s}, x)
  }

  lemma {:induction false} RecordsTake(bag: multiset<Slot>, s: Slot, x: nat)
    requires s in bag
    ensures Records(bag, x) == In(Extent(s), x) + Records(bag - multiset{s}, x)
    decreases |bag|
  {
    var p := PickSlot(bag);
    if p != s {
      RecordsTake(bag - multiset{p}, s, x);
      RecordsTake(bag - multiset{s}, p, x);
      assert bag - multiset{p} - multiset{s} == bag - multiset{s} - multiset{p};
    }
  }

  lemma RecordsPut(bag: multiset<Slot>, s: Slot, x: nat)
    ensures Records(bag + multiset{s}, x) == Records(bag, x) + In(Extent(s), x)
  {
    RecordsTake(bag + multiset{s}, s, x);
    assert bag + multiset{s} - multiset{s} == bag;
  }

  /** How many buckets cover byte x. */
  ghost function Homes(keys: set<nat>, size: nat, x: nat): nat {
    if keys == {} then 0
    else
      var a := PickKey(keys);
      In(Avail(size, a), x) + Homes(keys - {a}, size, x)
  }

  lemma {:induction false} HomesTake(keys: set<nat>, size: nat, a: nat, x: nat)
    requires a in keys
    ensures Homes(keys, size, x) == In(Avail(size, a), x) + Homes(keys - {a}, size, x)
    decreases |keys|
  {
    var p := PickKey(keys);
    if p != a {
      HomesTake(keys - {p}, size, a, x);
      HomesTake(keys - {a}, size, p, x);
      assert keys - {p} - {a} == keys - {a} - {p};
    }
  }

  lemma HomesPut(keys: set<nat>, size: nat, a: nat, x: nat)
    requires a !in keys
    ensures Homes(keys + {a}, size, x) == Homes(keys, size, x) + In(Avail(size, a), x)
  {
    HomesTake(keys + {a}, size, a, x);
    assert keys + {a} - {a} == keys;
  }

  /** How many free extents of buckets cover byte x. */
  ghost function FreeIn(avs: map<nat, seq<AvailElem>>, x: nat): nat
    decreases |avs|
  {
    if avs == map[] then 0
    else
      var a := PickKey(avs.Keys);
      Cover(avs[a], x) + FreeIn(avs - {a}, x)
  }

  lemma {:induction false} FreeTake(avs: map<nat, seq<AvailElem>>, a: nat, x: nat)
    requires a in avs
    ensures FreeIn(avs, x) == Cover(avs[a], x) + FreeIn(avs - {a}, x)
    decreases |avs|
  {
    var p := PickKey(avs.Keys);
    if p != a {
      FreeTake(avs - {p}, a, x);
      FreeTake(avs - {a}, p, x);
      assert avs - {p} - {a} == avs - {a} - {p};
    }
  }

  lemma FreeUpdate(avs: map<nat, seq<AvailElem>>, a: nat, l: seq<AvailElem>, x: nat)
    ensures FreeIn(avs[a := l], x) == FreeIn(avs - {a}, x) + Cover(l, x)
  {
    FreeTake(avs[a := l], a, x);
    assert avs[a := l] - {a} == avs - {a};
  }

  /** All elements of all buckets. */
  ghost function AllSlots(tabs: map<nat, Core>): multiset<Slot>
    decreases |tabs|
  {
    if tabs == map[] then multiset{}
    else
      var a := PickKey(tabs.Keys);
      OccBag(tabs[a].table) + AllSlots(tabs - {a})
  }

  lemma {:induction false} AllTake(tabs: map<nat, Core>, a: nat)
    requires a in tabs
    ensures AllSlots(tabs) == OccBag(tabs[a].table) + AllSlots(tabs - {a})
    decreases |tabs|
  {
    hide OccBag;
    var p := PickKey(tabs.Keys);
    if p != a {
      AllTake(tabs - {p}, a);
      AllTake(tabs - {a}, p);
      assert tabs - {p} - {a} == tabs - {a} - {p};
      SwapBags(OccBag(tabs[p].table), OccBag(tabs[a].table), AllSlots(tabs - {p} - {a}));
    }
  }

  lemma SwapBags(a: multiset<Slot>, b: multiset<Slot>, c: multiset<Slot>)
    ensures a + (b + c) == b + (a + c)
  {
  }

  lemma AllUpdate(tabs: map<nat, Core>, a: nat, c: Core)
    ensures AllSlots(tabs[a := c]) == OccBag(c.table) + AllSlots(tabs - {a})
  {
    AllTake(tabs[a := c], a);
    assert tabs[a := c] - {a} == tabs - {a};
  }

  lemma {:induction false} AllMember(tabs: map<nat, Core>, s: Slot)
    ensures s in AllSlots(tabs) <==> exists a :: a in tabs && s in OccBag(tabs[a].table)
    decreases |tabs|
  {
    if tabs != map[] {
      var p := PickKey(tabs.Keys);
      AllMember(tabs - {p}, s);
      assert forall a :: a in tabs <==> a == p || a in tabs - {p};
    }
  }

  // ----- ownership of the whole file

  function Fixed(h: Header, x: nat): nat {
    In(Avail(h.blockSize, 0), x) + In(Avail(h.dirSize, h.dir), x)
  }

  /** The number of owners of byte x, over everything the file contains. */
  ghost function Owners(h: Header, b: Books, x: nat): nat {
    Fixed(h, x) + Homes(b.tabs.Keys, h.bucketSize, x) + Records(b.slots, x)
    + FreeIn(b.avs, x) + Cover(h.avail.table, x) + StackCover(b.stack, h.avail.size, x)
    + Cover(b.held, x) + Cover(b.scraps, x) + Cover(b.dropped, x)
  }

  /** Every byte below `next_block` has exactly one owner, and none beyond has any. */
  ghost predicate Tiled(h: Header, b: Books) {
    forall x: nat :: Owners(h, b, x) == if x < h.nextBlock then 1 else 0
  }

  lemma OneOwner(h: Header, b: Books, x: nat)
    requires Tiled(h, b)
    ensures Owners(h, b, x) <= 1
  {
  }

  lemma {:induction false} CoverMember(s: seq<AvailElem>, e: AvailElem, x: nat)
    requires e in s
    ensures Cover(s, x) >= In(e, x)
  {
    if s[0] != e {
      CoverMember(s[1..], e, x);
    }
  }
}
