/** What exact ownership means: extents are pairwise disjoint, inside the file, and their sizes add up to it. */
module Extents {
  import opened Base
  import opened Layout
  import opened FreeList
  import opened Space
  import opened Ledger
  import opened State
  import opened Steps

  /** Everything that occupies bytes of the file. */
  datatype Owner =
    | HeaderBlock
    | DirectoryBlock
    | BucketBlock(home: nat)
    | Record(slot: Slot)
    | BucketFree(bucket: nat, i: nat)
    | HeaderFree(i: nat)
    | StackBlock(level: nat)
    | StackFree(level: nat, i: nat)
    | Transit(i: nat)
    | Scrap(i: nat)
    | Dropped(i: nat)

  ghost predicate Live(h: Header, b: Books, o: Owner) {
    match o
    case HeaderBlock => true
    case DirectoryBlock => true
    case BucketBlock(a) => a in b.tabs
    case Record(s) => s in b.slots
    case BucketFree(a, i) => a in b.avs && i < |b.avs[a]|
    case HeaderFree(i) => i < |h.avail.table|
    case StackBlock(l) => l < |b.stack|
    case StackFree(l, i) => l < |b.stack| && i < |b.stack[l].block.table|
    case Transit(i) => i < |b.held|
    case Scrap(i) => i < |b.scraps|
    case Dropped(i) => i < |b.dropped|
  }

  ghost function Place(h: Header, b: Books, o: Owner): AvailElem
    requires Live(h, b, o)
  {
    match o
    case HeaderBlock => Avail(h.blockSize, 0)
    case DirectoryBlock => Avail(h.dirSize, h.dir)
    case BucketBlock(a) => Avail(h.bucketSize, a)
    case Record(s) => Extent(s)
    case BucketFree(a, i) => b.avs[a][i]
    case HeaderFree(i) => h.avail.table[i]
    case StackBlock(_) => StackPlace(b.stack, h.avail.size, o)
    case StackFree(_, _) => StackPlace(b.stack, h.avail.size, o)
    case Transit(i) => b.held[i]
    case Scrap(i) => b.scraps[i]
    case Dropped(i) => b.dropped[i]
  }

  predicate OnStack(stack: seq<StackEntry>, o: Owner) {
    match o
    case StackBlock(l) => l < |stack|
    case StackFree(l, i) => l < |stack| && i < |stack[l].block.table|
    case _ => false
  }

  function StackPlace(stack: seq<StackEntry>, size: nat, o: Owner): AvailElem
    requires OnStack(stack, o)
  {
    if o.StackBlock? then Avail(HalfSize(size), stack[o.level].adr) else stack[o.level].block.table[o.i]
  }

  /** The summand of `Owners` that counts an owner. */
  function Kind(o: Owner): nat {
    match o
    case HeaderBlock => 0
    case DirectoryBlock => 0
    case BucketBlock(_) => 1
    case Record(_) => 2
    case BucketFree(_, _) => 3
    case HeaderFree(_) => 4
    case StackBlock(_) => 5
    case StackFree(_, _) => 5
    case Transit(_) => 6
    case Scrap(_) => 7
    case Dropped(_) => 8
  }

  ghost function Share(h: Header, b: Books, kind: nat, x: nat): nat {
    match kind
    case 0 => Fixed(h, x)
    case 1 => Homes(b.tabs.Keys, h.bucketSize, x)
    case 2 => Records(b.slots, x)
    case 3 => FreeIn(b.avs, x)
    case 4 => Cover(h.avail.table, x)
    case 5 => StackCover(b.stack, h.avail.size, x)
    case 6 => Cover(b.held, x)
    case 7 => Cover(b.scraps, x)
    case 8 => Cover(b.dropped, x)
    case _ => 0
  }

  lemma SharesAdd(h: Header, b: Books, k: nat, l: nat, x: nat)
    ensures Share(h, b, k, x) <= Owners(h, b, x)
    ensures k != l ==> Share(h, b, k, x) + Share(h, b, l, x) <= Owners(h, b, x)
  {
    hide Fixed, Homes, Records, FreeIn, Cover, StackCover;
  }

  lemma CoverOne(s: seq<AvailElem>, i: nat, x: nat)
    requires i < |s|
    ensures Cover(s, x) >= In(s[i], x)
  {
    CoverRemove(s, i, x);
  }

  lemma CoverTwo(s: seq<AvailElem>, i: nat, j: nat, x: nat)
    requires i < j < |s|
    ensures Cover(s, x) >= In(s[i], x) + In(s[j], x)
  {
    CoverRemove(s, j, x);
    CoverOne(RemoveAt(s, j), i, x);
  }

  /** The same owner seen from below the top of the stack. */
  function Below(o: Owner): Owner
    requires (o.StackBlock? || o.StackFree?) && o.level > 0
  {
    if o.StackBlock? then StackBlock(o.level - 1) else StackFree(o.level - 1, o.i)
  }

  lemma {:induction false} StackOne(stack: seq<StackEntry>, size: nat, o: Owner, x: nat)
    requires OnStack(stack, o)
    ensures StackCover(stack, size, x) >= In(StackPlace(stack, size, o), x)
    decreases |stack|
  {
    if o.level > 0 {
      StackOne(stack[1..], size, Below(o), x);
    } else if o.StackFree? {
      CoverOne(stack[0].block.table, o.i, x);
    }
  }

  lemma {:induction false} StackTwo(stack: seq<StackEntry>, size: nat, o: Owner, p: Owner, x: nat)
    requires OnStack(stack, o) && OnStack(stack, p) && o != p && o.level <= p.level
    ensures StackCover(stack, size, x) >= In(StackPlace(stack, size, o), x) + In(StackPlace(stack, size, p), x)
    decreases |stack|
  {
    if o.level > 0 {
      StackTwo(stack[1..], size, Below(o), Below(p), x);
    } else {
      if o.StackFree? {
        CoverOne(stack[0].block.table, o.i, x);
      }
      if p.level > 0 {
        StackOne(stack[1..], size, Below(p), x);
      } else if o.StackFree? && p.StackFree? {
        CoverTwo(stack[0].block.table, Min(o.i, p.i), if o.i < p.i then p.i else o.i, x);
      } else if p.StackFree? {
        CoverOne(stack[0].block.table, p.i, x);
      }
    }
  }

  lemma Counted(h: Header, b: Books, o: Owner, x: nat)
    requires Live(h, b, o)
    ensures Share(h, b, Kind(o), x) >= In(Place(h, b, o), x)
  {
    match o
    case HeaderBlock =>
    case DirectoryBlock =>
    case BucketBlock(a) => HomesTake(b.tabs.Keys, h.bucketSize, a, x);
    case Record(s) => RecordsTake(b.slots, s, x);
    case BucketFree(a, i) => FreeTake(b.avs, a, x); CoverOne(b.avs[a], i, x);
    case HeaderFree(i) => CoverOne(h.avail.table, i, x);
    case StackBlock(_) => StackOne(b.stack, h.avail.size, o, x);
    case StackFree(_, _) => StackOne(b.stack, h.avail.size, o, x);
    case Transit(i) => CoverOne(b.held, i, x);
    case Scrap(i) => CoverOne(b.scraps, i, x);
    case Dropped(i) => CoverOne(b.dropped, i, x);
  }

  lemma CoverPair(s: seq<AvailElem>, i: nat, j: nat, x: nat)
    requires i < |s| && j < |s| && i != j
    ensures Cover(s, x) >= In(s[i], x) + In(s[j], x)
  {
    CoverTwo(s, Min(i, j), if i < j then j else i, x);
  }

  lemma CountedTwice(h: Header, b: Books, o: Owner, p: Owner, x: nat)
    requires Live(h, b, o) && Live(h, b, p) && o != p && Kind(o) == Kind(p)
    ensures Share(h, b, Kind(o), x) >= In(Place(h, b, o), x) + In(Place(h, b, p), x)
  {
    match o
    case HeaderBlock =>
    case DirectoryBlock =>
    case BucketBlock(a) =>
      HomesTake(b.tabs.Keys, h.bucketSize, a, x);
      HomesTake(b.tabs.Keys - {a}, h.bucketSize, p.home, x);
    case Record(s) =>
      RecordsTake(b.slots, s, x);
      RecordsTake(b.slots - multiset{s}, p.slot, x);
    case BucketFree(a, i) =>
      FreeTake(b.avs, a, x);
      if p.bucket == a {
        CoverPair(b.avs[a], i, p.i, x);
      } else {
        FreeTake(b.avs - {a}, p.bucket, x);
        CoverOne(b.avs[a], i, x);
        CoverOne(b.avs[p.bucket], p.i, x);
      }
    case HeaderFree(i) => CoverPair(h.avail.table, i, p.i, x);
    case StackBlock(_) => StackPair(b.stack, h.avail.size, o, p, x);
    case StackFree(_, _) => StackPair(b.stack, h.avail.size, o, p, x);
    case Transit(i) => CoverPair(b.held, i, p.i, x);
    case Scrap(i) => CoverPair(b.scraps, i, p.i, x);
    case Dropped(i) => CoverPair(b.dropped, i, p.i, x);
  }

  lemma StackPair(stack: seq<StackEntry>, size: nat, o: Owner, p: Owner, x: nat)
    requires OnStack(stack, o) && OnStack(stack, p) && o != p
    ensures StackCover(stack, size, x) >= In(StackPlace(stack, size, o), x) + In(StackPlace(stack, size, p), x)
  {
    if o.level <= p.level {
      StackTwo(stack, size, o, p, x);
    } else {
      StackTwo(stack, size, p, o, x);
    }
  }

  /** No byte belongs to two owners, and none at or beyond `next_block` to any. */
  lemma OwnersDisjoint(h: Header, b: Books, o: Owner, p: Owner, x: nat)
    requires Tiled(h, b) && Live(h, b, o) && Live(h, b, p) && o != p
    ensures In(Place(h, b, o), x) + In(Place(h, b, p), x) <= if x < h.nextBlock then 1 else 0
  {
    hide Share, Place, Live, Kind, Owners, In;
    assert Owners(h, b, x) == if x < h.nextBlock then 1 else 0;
    SharesAdd(h, b, Kind(o), Kind(p), x);
    Counted(h, b, o, x);
    Counted(h, b, p, x);
    if Kind(o) == Kind(p) {
      CountedTwice(h, b, o, p, x);
    }
  }

  /** Every byte of the file belongs to something: nothing is ever lost without being listed. */
  lemma EveryByteOwned(h: Header, b: Books, x: nat) returns (o: Owner)
    requires Tiled(h, b) && x < h.nextBlock
    ensures Live(h, b, o) && In(Place(h, b, o), x) == 1
  {
    assert Owners(h, b, x) == 1;
    var i, l;
    if Fixed(h, x) > 0 {
      o := if In(Avail(h.blockSize, 0), x) > 0 then HeaderBlock else DirectoryBlock;
    } else if Homes(b.tabs.Keys, h.bucketSize, x) > 0 {
      var a := HomesFind(b.tabs.Keys, h.bucketSize, x);
      o := BucketBlock(a);
    } else if Records(b.slots, x) > 0 {
      var s := RecordsFind(b.slots, x);
      o := Record(s);
    } else if FreeIn(b.avs, x) > 0 {
      l, i := FreeFind(b.avs, x);
      o := BucketFree(l, i);
    } else if StackCover(b.stack, h.avail.size, x) > 0 {
      o := StackFind(b.stack, h.avail.size, x);
    } else if Cover(h.avail.table, x) > 0 {
      i := CoverFind(h.avail.table, x);
      o := HeaderFree(i);
    } else if Cover(b.held, x) > 0 {
      i := CoverFind(b.held, x);
      o := Transit(i);
    } else if Cover(b.scraps, x) > 0 {
      i := CoverFind(b.scraps, x);
      o := Scrap(i);
    } else {
      i := CoverFind(b.dropped, x);
      o := Dropped(i);
    }
  }

  lemma {:induction false} CoverFind(s: seq<AvailElem>, x: nat) returns (i: nat)
    requires Cover(s, x) > 0
    ensures i < |s| && In(s[i], x) == 1
  {
    if In(s[0], x) > 0 {
      i := 0;
    } else {
      i := CoverFind(s[1..], x);
      i := i + 1;
    }
  }

  lemma {:induction false} HomesFind(keys: set<nat>, size: nat, x: nat) returns (a: nat)
    requires Homes(keys, size, x) > 0
    ensures a in keys && In(Avail(size, a), x) == 1
    decreases |keys|
  {
    a := PickKey(keys);
    if In(Avail(size, a), x) == 0 {
      a := HomesFind(keys - {a}, size, x);
    }
  }

  lemma {:induction false} RecordsFind(bag: multiset<Slot>, x: nat) returns (s: Slot)
    requires Records(bag, x) > 0
    ensures s in bag && In(Extent(s), x) == 1
    decreases |bag|
  {
    s := PickSlot(bag);
    if In(Extent(s), x) == 0 {
      s := RecordsFind(bag - multiset{s}, x);
    }
  }

  lemma {:induction false} FreeFind(avs: map<nat, seq<AvailElem>>, x: nat) returns (a: nat, i: nat)
    requires FreeIn(avs, x) > 0
    ensures a in avs && i < |avs[a]| && In(avs[a][i], x) == 1
    decreases |avs|
  {
    a := PickKey(avs.Keys);
    if Cover(avs[a], x) > 0 {
      i := CoverFind(avs[a], x);
    } else {
      a, i := FreeFind(avs - {a}, x);
    }
  }

  lemma {:induction false} StackFind(stack: seq<StackEntry>, size: nat, x: nat) returns (o: Owner)
    requires StackCover(stack, size, x) > 0
    ensures OnStack(stack, o) && In(StackPlace(stack, size, o), x) == 1
    decreases |stack|
  {
    if In(Avail(HalfSize(size), stack[0].adr), x) > 0 {
      o := StackBlock(0);
    } else if Cover(stack[0].block.table, x) > 0 {
      var i := CoverFind(stack[0].block.table, x);
      o := StackFree(0, i);
    } else {
      o := StackFind(stack[1..], size, x);
      o := if o.StackBlock? then StackBlock(o.level + 1) else StackFree(o.level + 1, o.i);
    }
  }

  // ----- counting bytes

  /** f(0) + ... + f(m - 1). */
  ghost function Span(f: nat -> int, m: nat): int {
    if m == 0 then 0 else Span(f, m - 1) + f(m - 1)
  }

  lemma {:induction false} SpanAdd(f: nat -> int, g: nat -> int, k: nat -> int, m: nat)
    requires forall x: nat :: k(x) == f(x) + g(x)
    ensures Span(k, m) == Span(f, m) + Span(g, m)
  {
    if m > 0 {
      SpanAdd(f, g, k, m - 1);
    }
  }

  lemma {:induction false} SpanZero(k: nat -> int, m: nat)
    requires forall x: nat :: k(x) == 0
    ensures Span(k, m) == 0
  {
    if m > 0 {
      SpanZero(k, m - 1);
    }
  }

  /** The extent ends at or before m. */
  predicate Within(e: AvailElem, m: nat) {
    e.size == 0 || e.adr + e.size <= m
  }

  ghost function Of(e: AvailElem): nat -> int { (x: nat) => In(e, x) }

  lemma {:induction false} SpanExtent(e: AvailElem, m: nat)
    ensures Span(Of(e), m) == if m <= e.adr then 0 else if m <= e.adr + e.size then m - e.adr else e.size
  {
    if m > 0 {
      SpanExtent(e, m - 1);
    }
  }

  lemma SpanSize(e: AvailElem, m: nat)
    requires Within(e, m)
    ensures Span(Of(e), m) == e.size
  {
    SpanExtent(e, m);
  }

  function ByteCount(s: seq<AvailElem>): nat {
    if s == [] then 0 else s[0].size + ByteCount(s[1..])
  }

  function StackBytes(stack: seq<StackEntry>, size: nat): nat {
    if stack == [] then 0 else HalfSize(size) + ByteCount(stack[0].block.table) + StackBytes(stack[1..], size)
  }

  ghost function RecordBytes(bag: multiset<Slot>): nat
    decreases |bag|
  {
    if bag == multiset{} then 0
    else
      var s := PickSlot(bag);
      s.keySize + s.dataSize + RecordBytes(bag - multiset{s})
  }

  ghost function FreeBytes(avs: map<nat, seq<AvailElem>>): nat
    decreases |avs|
  {
    if avs == map[] then 0
    else
      var a := PickKey(avs.Keys);
      ByteCount(avs[a]) + FreeBytes(avs - {a})
  }

  ghost function OfList(s: seq<AvailElem>): nat -> int { (x: nat) => Cover(s, x) }
  ghost function OfStack(s: seq<StackEntry>, size: nat): nat -> int { (x: nat) => StackCover(s, size, x) }
  ghost function OfRecords(bag: multiset<Slot>): nat -> int { (x: nat) => Records(bag, x) }
  ghost function OfHomes(keys: set<nat>, size: nat): nat -> int { (x: nat) => Homes(keys, size, x) }
  ghost function OfFree(avs: map<nat, seq<AvailElem>>): nat -> int { (x: nat) => FreeIn(avs, x) }

  lemma {:induction false} SpanList(s: seq<AvailElem>, m: nat)
    requires forall i :: 0 <= i < |s| ==> Within(s[i], m)
    ensures Span(OfList(s), m) == ByteCount(s)
  {
    if s == [] {
      SpanZero(OfList(s), m);
    } else {
      SpanSize(s[0], m);
      SpanList(s[1..], m);
      SpanAdd(Of(s[0]), OfList(s[1..]), OfList(s), m);
    }
  }

  lemma {:induction false} SpanStack(s: seq<StackEntry>, size: nat, m: nat)
    requires forall o :: OnStack(s, o) ==> Within(StackPlace(s, size, o), m)
    ensures Span(OfStack(s, size), m) == StackBytes(s, size)
    decreases |s|
  {
    if s == [] {
      SpanZero(OfStack(s, size), m);
    } else {
      var e := Avail(HalfSize(size), s[0].adr);
      var top: nat -> int := (x: nat) => In(e, x) + Cover(s[0].block.table, x);
      assert Within(StackPlace(s, size, StackBlock(0)), m);
      SpanSize(e, m);
      forall i | 0 <= i < |s[0].block.table|
        ensures Within(s[0].block.table[i], m)
      {
        assert Within(StackPlace(s, size, StackFree(0, i)), m);
      }
      SpanList(s[0].block.table, m);
      SpanAdd(Of(e), OfList(s[0].block.table), top, m);
      forall o | OnStack(s[1..], o)
        ensures Within(StackPlace(s[1..], size, o), m)
      {
        var up := if o.StackBlock? then StackBlock(o.level + 1) else StackFree(o.level + 1, o.i);
        assert Within(StackPlace(s, size, up), m);
      }
      SpanStack(s[1..], size, m);
      SpanAdd(top, OfStack(s[1..], size), OfStack(s, size), m);
    }
  }

  lemma {:induction false} SpanRecords(bag: multiset<Slot>, m: nat)
    requires forall s :: s in bag ==> Within(Extent(s), m)
    ensures Span(OfRecords(bag), m) == RecordBytes(bag)
    decreases |bag|
  {
    if bag == multiset{} {
      SpanZero(OfRecords(bag), m);
    } else {
      var s := PickSlot(bag);
      SpanSize(Extent(s), m);
      SpanRecords(bag - multiset{s}, m);
      SpanAdd(Of(Extent(s)), OfRecords(bag - multiset{s}), OfRecords(bag), m);
    }
  }

  lemma {:induction false} SpanHomes(keys: set<nat>, size: nat, m: nat)
    requires forall a :: a in keys ==> Within(Avail(size, a), m)
    ensures Span(OfHomes(keys, size), m) == |keys| * size
    decreases |keys|
  {
    if keys == {} {
      SpanZero(OfHomes(keys, size), m);
    } else {
      var a := PickKey(keys);
      SpanSize(Avail(size, a), m);
      SpanHomes(keys - {a}, size, m);
      SpanAdd(Of(Avail(size, a)), OfHomes(keys - {a}, size), OfHomes(keys, size), m);
      assert |keys| * size == size + (|keys| - 1) * size;
    }
  }

  lemma {:induction false} SpanFree(avs: map<nat, seq<AvailElem>>, m: nat)
    requires forall a, i :: a in avs && 0 <= i < |avs[a]| ==> Within(avs[a][i], m)
    ensures Span(OfFree(avs), m) == FreeBytes(avs)
    decreases |avs|
  {
    if avs == map[] {
      SpanZero(OfFree(avs), m);
    } else {
      var a := PickKey(avs.Keys);
      SpanList(avs[a], m);
      SpanFree(avs - {a}, m);
      SpanAdd(OfList(avs[a]), OfFree(avs - {a}), OfFree(avs), m);
    }
  }

  lemma OwnerWithin(h: Header, b: Books, o: Owner)
    requires Tiled(h, b) && Live(h, b, o)
    ensures Within(Place(h, b, o), h.nextBlock)
  {
    hide Share, Place, Live, Kind, Owners;
    var e := Place(h, b, o);
    if e.size > 0 {
      var last := e.adr + e.size - 1;
      Counted(h, b, o, last);
      SharesAdd(h, b, Kind(o), Kind(o), last);
      assert Owners(h, b, last) == if last < h.nextBlock then 1 else 0;
    }
  }

  /** The bytes in use, by header, directory, buckets and records. */
  ghost function UsedBytes(h: Header, b: Books): nat {
    h.blockSize + h.dirSize + |b.tabs| * h.bucketSize + RecordBytes(b.slots)
  }

  /** The bytes that can be allocated again, and the blocks of the avail stack that list some of them. */
  ghost function SpareBytes(h: Header, b: Books): nat {
    FreeBytes(b.avs) + ByteCount(h.avail.table) + StackBytes(b.stack, h.avail.size)
  }

  ghost function OfSpare(h: Header, b: Books): nat -> int {
    (x: nat) => FreeIn(b.avs, x) + Cover(h.avail.table, x) + StackCover(b.stack, h.avail.size, x)
  }

  ghost function OfUsed(h: Header, b: Books): nat -> int {
    (x: nat) => Fixed(h, x) + Homes(b.tabs.Keys, h.bucketSize, x) + Records(b.slots, x)
  }

  ghost function OfLost(b: Books): nat -> int {
    (x: nat) => Cover(b.held, x) + Cover(b.scraps, x) + Cover(b.dropped, x)
  }

  lemma CountSpare(h: Header, b: Books)
    requires Tiled(h, b)
    ensures Span(OfSpare(h, b), h.nextBlock) == SpareBytes(h, b)
  {
    hide Share, Owners, Tiled, Cover, StackCover, FreeIn;
    var m := h.nextBlock;
    forall o | Live(h, b, o)
      ensures Within(Place(h, b, o), m)
    {
      OwnerWithin(h, b, o);
    }
    forall a, i | a in b.avs && 0 <= i < |b.avs[a]|
      ensures Within(b.avs[a][i], m)
    {
      assert Live(h, b, BucketFree(a, i));
    }
    forall i | 0 <= i < |h.avail.table|
      ensures Within(h.avail.table[i], m)
    {
      assert Live(h, b, HeaderFree(i));
    }
    forall o | OnStack(b.stack, o)
      ensures Within(StackPlace(b.stack, h.avail.size, o), m)
    {
      assert Live(h, b, o);
    }
    SpanFree(b.avs, m);
    SpanList(h.avail.table, m);
    SpanStack(b.stack, h.avail.size, m);
    var two: nat -> int := (x: nat) => FreeIn(b.avs, x) + Cover(h.avail.table, x);
    SpanAdd(OfFree(b.avs), OfList(h.avail.table), two, m);
    SpanAdd(two, OfStack(b.stack, h.avail.size), OfSpare(h, b), m);
  }

  lemma CountUsed(h: Header, b: Books)
    requires Tiled(h, b)
    ensures Span(OfUsed(h, b), h.nextBlock) == UsedBytes(h, b)
  {
    hide Share, Owners, Tiled, Homes, Records;
    var m := h.nextBlock;
    forall o | Live(h, b, o)
      ensures Within(Place(h, b, o), m)
    {
      OwnerWithin(h, b, o);
    }
    forall a | a in b.tabs.Keys
      ensures Within(Avail(h.bucketSize, a), m)
    {
      assert Live(h, b, BucketBlock(a));
    }
    forall s | s in b.slots
      ensures Within(Extent(s), m)
    {
      assert Live(h, b, Record(s));
    }
    assert Live(h, b, HeaderBlock) && Live(h, b, DirectoryBlock);
    var e, f := Avail(h.blockSize, 0), Avail(h.dirSize, h.dir);
    SpanSize(e, m);
    SpanSize(f, m);
    SpanHomes(b.tabs.Keys, h.bucketSize, m);
    SpanRecords(b.slots, m);
    var two: nat -> int := (x: nat) => In(e, x) + In(f, x);
    var three: nat -> int := (x: nat) => two(x) + Homes(b.tabs.Keys, h.bucketSize, x);
    SpanAdd(Of(e), Of(f), two, m);
    SpanAdd(two, OfHomes(b.tabs.Keys, h.bucketSize), three, m);
    SpanAdd(three, OfRecords(b.slots), OfUsed(h, b), m);
    assert |b.tabs.Keys| == |b.tabs|;
  }

  lemma CountLost(h: Header, b: Books)
    requires Tiled(h, b)
    ensures Span(OfLost(b), h.nextBlock) == ByteCount(b.held) + ByteCount(b.scraps) + ByteCount(b.dropped)
  {
    hide Share, Owners, Tiled, Cover;
    var m := h.nextBlock;
    forall o | Live(h, b, o)
      ensures Within(Place(h, b, o), m)
    {
      OwnerWithin(h, b, o);
    }
    forall i | 0 <= i < |b.held|
      ensures Within(b.held[i], m)
    {
      assert Live(h, b, Transit(i));
    }
    forall i | 0 <= i < |b.scraps|
      ensures Within(b.scraps[i], m)
    {
      assert Live(h, b, Scrap(i));
    }
    forall i | 0 <= i < |b.dropped|
      ensures Within(b.dropped[i], m)
    {
      assert Live(h, b, Dropped(i));
    }
    SpanList(b.held, m);
    SpanList(b.scraps, m);
    SpanList(b.dropped, m);
    var two: nat -> int := (x: nat) => Cover(b.held, x) + Cover(b.scraps, x);
    SpanAdd(OfList(b.held), OfList(b.scraps), two, m);
    SpanAdd(two, OfList(b.dropped), OfLost(b), m);
  }

  lemma {:induction false} SpanOne(k: nat -> int, m: nat)
    requires forall x: nat :: x < m ==> k(x) == 1
    ensures Span(k, m) == m
  {
    if m > 0 {
      SpanOne(k, m - 1);
    }
  }

  /**
   * Bytes are conserved: what is used, spare, in transit, and given up as fragments or by halving makes
   * up the file.
   */
  lemma BytesAddUp(h: Header, b: Books)
    requires Tiled(h, b)
    ensures UsedBytes(h, b) + SpareBytes(h, b) + ByteCount(b.held) + ByteCount(b.scraps) + ByteCount(b.dropped)
            == h.nextBlock
  {
    CountUsed(h, b);
    CountSpare(h, b);
    CountLost(h, b);
    hide UsedBytes, SpareBytes, Fixed, Homes, Records, FreeIn, Cover, StackCover;
    var m := h.nextBlock;
    var two: nat -> int := (x: nat) => OfUsed(h, b)(x) + OfSpare(h, b)(x);
    var all: nat -> int := (x: nat) => two(x) + OfLost(b)(x);
    SpanAdd(OfUsed(h, b), OfSpare(h, b), two, m);
    SpanAdd(two, OfLost(b), all, m);
    forall x: nat | x < m
      ensures all(x) == 1
    {
      assert Owners(h, b, x) == 1;
    }
    SpanOne(all, m);
  }

  lemma {:induction false} CountConcat(s: seq<AvailElem>, t: seq<AvailElem>)
    ensures ByteCount(s + t) == ByteCount(s) + ByteCount(t)
  {
    if s == [] {
      assert s + t == t;
    } else {
      assert (s + t)[1..] == s[1..] + t;
      CountConcat(s[1..], t);
    }
  }

  lemma CountPrefix(s: seq<AvailElem>, t: seq<AvailElem>)
    requires s <= t
    ensures ByteCount(t) == ByteCount(s) + ByteCount(t[|s|..])
  {
    assert t == s + t[|s|..];
    CountConcat(s, t[|s|..]);
  }

  lemma CountFew(s: seq<AvailElem>)
    requires |s| <= 1
    ensures ByteCount(s) == if s == [] then 0 else s[0].size
  {
  }

  /** The bytes given up between two states: fragments, and entries that a halving dropped. */
  function GivenUp(b: Books, c: Books): nat
    requires b.scraps <= c.scraps && b.dropped <= c.dropped
  {
    ByteCount(c.scraps[|b.scraps|..]) + ByteCount(c.dropped[|b.dropped|..])
  }

  /** Free space before and after an allocation or a release: nothing else is gained or lost. */
  lemma SpaceAccount(h: Header, b: Books, g: Header, c: Books, a: nat, av: seq<AvailElem>, held: seq<AvailElem>)
    requires Tiled(h, b) && Tiled(g, c) && SameGeometry(h, g) && Allotted(b, c, a, av, held)
    ensures SpareBytes(g, c) + ByteCount(held) + GivenUp(b, c)
            == SpareBytes(h, b) + ByteCount(b.held) + (g.nextBlock - h.nextBlock)
    ensures |c.dropped| - |b.dropped| <= 1 && |c.scraps| - |b.scraps| <= 1
    ensures AvailsOk(c) ==>
              GivenUp(b, c) <= IGNORE_SIZE + (if |c.dropped| > |b.dropped| then c.dropped[|b.dropped|].size else 0)
  {
    hide Tiled, SpareBytes;
    CountFew(c.scraps[|b.scraps|..]);
    CountFew(c.dropped[|b.dropped|..]);
    BytesAddUp(h, b);
    BytesAddUp(g, c);
    CountPrefix(b.scraps, c.scraps);
    CountPrefix(b.dropped, c.dropped);
  }
}
