/** How removing and adding one record changes the logical database. */
module Updates {
  import opened Base
  import opened StringHash
  import opened Layout
  import opened FreeList
  import opened HashTable
  import opened Directory
  import opened Space
  import opened Ledger
  import opened State
  import opened Steps
  import opened Caching
  import opened Lookup

  /** One bucket's table changes, and the list of elements follows. */
  lemma MappedUpdate(dir: seq<nat>, h: Header, b: Books, c: Books, a: nat, core: Core)
    requires a in b.tabs && a in b.pre && c.pre == b.pre && c.tabs == b.tabs[a := core]
    requires core.bits == b.tabs[a].bits && CoreOk(core, b.pre[a], h.bucketElems)
    requires c.slots + OccBag(b.tabs[a].table) == b.slots + OccBag(core.table)
    requires Mapped(dir, h, b)
    ensures Mapped(dir, h, c)
  {
    hide CoreOk, OccBag, DirOk;
    DirUpdate(dir, h.dirBits, b.tabs, b.pre, a, core);
    AllTake(b.tabs, a);
    AllUpdate(b.tabs, a, core);
    BagCancel(c.slots, OccBag(b.tabs[a].table), OccBag(core.table), AllSlots(b.tabs - {a}));
  }

  lemma DirUpdate(dir: seq<nat>, d: nat, tabs: map<nat, Core>, pre: map<nat, nat>, a: nat, core: Core)
    requires a in tabs && core.bits == tabs[a].bits && DirOk(dir, d, tabs, pre)
    ensures DirOk(dir, d, tabs[a := core], pre)
  {
    hide Block;
  }

  lemma BagCancel(c: multiset<Slot>, prior: multiset<Slot>, after: multiset<Slot>, rest: multiset<Slot>)
    requires c + prior == prior + rest + after
    ensures c == after + rest
  {
    assert c == c + prior - prior;
    assert after + rest == prior + rest + after - prior;
  }

  /** The elements of all buckets but one are among `kept`. */
  ghost predicate OthersIn(b: Books, a: nat, kept: multiset<Slot>) {
    forall x, j | x in b.tabs && x != a && 0 <= j < |b.tabs[x].table| && Occ(b.tabs[x].table, j) ::
      b.tabs[x].table[j] in kept
  }

  /** The slot at i has new content, written nowhere yet; the others are untouched. */
  lemma CurUpdated(f: File, g: File, cache: seq<CacheElem>, b: Books, open: int, i: nat, e: CacheElem, c: Books,
                   kept: multiset<Slot>)
    requires i < |cache| && (open == -1 || open == i) && Coherent(f, cache, b, open) && cache[i].adr != 0
    requires e.adr == cache[i].adr && Matches(e, c) && (e.data.elemLoc == -1 || e.changed)
    requires c.tabs == b.tabs[e.adr := c.tabs[e.adr]] && c.avs == b.avs[e.adr := c.avs[e.adr]]
    requires c.dirty == b.dirty + {e.adr}
    requires OthersIn(b, e.adr, kept) && forall s :: s in kept ==> SameRecord(f, g, s)
    ensures Coherent(g, cache[i := e], c, i)
  {
    hide SameRecord, RecordOf;
    var c2 := cache[i := e];
    forall a | a in c.dirty
      ensures exists j :: 0 <= j < |c2| && c2[j].adr == a && (c2[j].changed || j == i)
    {
      if a == e.adr {
        assert c2[i].adr == a;
      } else {
        var j :| 0 <= j < |cache| && cache[j].adr == a && (cache[j].changed || j == open);
        assert c2[j] == cache[j];
      }
    }
    forall j | 0 <= j < |c2| && c2[j].adr != 0
      ensures Matches(c2[j], c)
    {
      if j != i {
        assert Matches(cache[j], b);
        assert cache[j].adr != cache[i].adr;
      }
    }
    forall j | 0 <= j < |c2| && c2[j].adr != 0 && !c2[j].changed && c2[j].data.elemLoc != -1
      ensures DataFits(g, c2[j])
    {
      assert j != i && DataFits(f, cache[j]) && Matches(cache[j], b);
      assert cache[j].adr != cache[i].adr;
      var l := c2[j].data.elemLoc;
      assert Occ(b.tabs[c2[j].adr].table, l);
      SameRecordIs(f, g, c2[j].bucket.core.table[l]);
    }
  }

  lemma SameRecordIs(f: File, g: File, s: Slot)
    requires SameRecord(f, g, s)
    ensures RecordOf(f, s) == RecordOf(g, s) && KeyOf(f, s) == KeyOf(g, s) && DataOf(f, s) == DataOf(g, s)
  {
  }

  // ----- taking a record out

  /** The books without element s, whose record's bytes are now in transit. */
  ghost function Without(b: Books, a: nat, core: Core, s: Slot, key: Bytes): Books {
    b.(tabs := b.tabs[a := core], slots := b.slots - multiset{s}, contents := b.contents - {key},
       held := b.held + [Extent(s)], dirty := b.dirty + {a})
  }

  lemma TakeContent(f: File, slots: multiset<Slot>, contents: map<Bytes, Bytes>, s: Slot)
    requires ContentOk(f, slots, contents) && s in slots
    ensures ContentOk(f, slots - multiset{s}, contents - {KeyOf(f, s)})
  {
    hide RecOk, KeyOf, DataOf;
    var slots', contents' := slots - multiset{s}, contents - {KeyOf(f, s)};
    forall t
      ensures t in slots' <==> t in slots && t != s
      ensures t in slots' ==> slots'[t] == 1
    {
      assert t in slots ==> slots[t] == 1;
    }
    forall t | t in slots'
      ensures RecOk(f, t) && KeyOf(f, t) in contents' && contents'[KeyOf(f, t)] == DataOf(f, t)
    {
      assert KeyOf(f, t) != KeyOf(f, s);
    }
    forall k | k in contents'
      ensures exists t :: t in slots' && KeyOf(f, t) == k
    {
      var t :| t in slots && KeyOf(f, t) == k;
      assert t in slots';
    }
  }

  lemma TakeTiled(h: Header, b: Books, a: nat, core: Core, s: Slot, key: Bytes)
    requires Tiled(h, b) && a in b.tabs && s in b.slots
    ensures Tiled(h, Without(b, a, core, s, key))
  {
    var c := Without(b, a, core, s, key);
    assert c.tabs.Keys == b.tabs.Keys;
    forall x: nat
      ensures Owners(h, c, x) == if x < h.nextBlock then 1 else 0
    {
      hide Homes, Records, FreeIn, StackCover;
      RecordsTake(b.slots, s, x);
      CoverConcat(b.held, [Extent(s)], x);
      assert Cover([Extent(s)], x) == In(Extent(s), x) + Cover([], x);
      assert Owners(h, b, x) == if x < h.nextBlock then 1 else 0;
    }
  }

  /** Detaching an element keeps the file well formed. */
  lemma TakeRecord(f: File, h: Header, dir: seq<nat>, b: Books, hc: bool, a: nat, core: Core, s: Slot, key: Bytes)
    requires a in b.tabs && s in b.slots && key == KeyOf(f, s) && Sound(f, h, dir, b, hc)
    ensures Sound(f, h, dir, Without(b, a, core, s, key), hc)
  {
    hide Tiled, ChainOk, ContentOk, GoodList, Holds, KeyOf;
    TakeTiled(h, b, a, core, s, key);
    TakeContent(f, b.slots, b.contents, s);
    assert Without(b, a, core, s, key).tabs.Keys == b.tabs.Keys;
  }

  /** A bucket that has lost one element. */
  lemma SmallerCore(c: Core, d: Core, s: Slot, p: nat, n: nat)
    requires CoreOk(c, p, n) && d.bits == c.bits && |d.table| == |c.table| && ProbeOk(d.table)
    requires OccBag(d.table) + multiset{s} == OccBag(c.table) && d.count == c.count - 1
    ensures CoreOk(d, p, n)
  {
    hide ProbeOk, OccBag, Index;
    assert |OccBag(d.table) + multiset{s}| == |OccBag(d.table)| + 1;
    forall t | t in OccBag(d.table)
      ensures t in OccBag(c.table)
    {
      assert t in OccBag(d.table) + multiset{s};
    }
  }

  lemma WithoutMapped(dir: seq<nat>, h: Header, b: Books, a: nat, core: Core, s: Slot, key: Bytes)
    requires a in b.tabs && a in b.pre && s in b.slots
    requires core.bits == b.tabs[a].bits && CoreOk(core, b.pre[a], h.bucketElems)
    requires OccBag(core.table) + multiset{s} == OccBag(b.tabs[a].table)
    requires Mapped(dir, h, b)
    ensures Mapped(dir, h, Without(b, a, core, s, key))
  {
    hide Mapped, CoreOk, OccBag;
    var c := Without(b, a, core, s, key);
    LessOne(b.slots, s, OccBag(core.table), OccBag(b.tabs[a].table));
    MappedUpdate(dir, h, b, c, a, core);
  }

  lemma LessOne(slots: multiset<Slot>, s: Slot, small: multiset<Slot>, large: multiset<Slot>)
    requires s in slots && small + multiset{s} == large
    ensures slots - multiset{s} + large == slots + small
  {
    assert slots == slots - multiset{s} + multiset{s};
  }

  /** The logical effect of taking an element out of a bucket. */
  lemma ElementTaken(f: File, h: Header, dir: seq<nat>, b: Books, hc: bool, e: CacheElem, hash: nat,
                     less: Core, loc: nat, key: Bytes)
    requires loc < |e.bucket.core.table| && HasKey(f, e.bucket.core.table, loc, key)
    requires less.bits == e.bucket.core.bits && less.count == e.bucket.core.count - 1
    requires |less.table| == |e.bucket.core.table| && ProbeOk(less.table)
    requires OccBag(less.table) + multiset{e.bucket.core.table[loc]} == OccBag(e.bucket.core.table)
    requires SelectedBy(dir, h, b, e, hash)
    requires Mapped(dir, h, b) && Sound(f, h, dir, b, hc)
    ensures var c := Without(b, e.adr, less, e.bucket.core.table[loc], key);
            Mapped(dir, h, c) && ReadyFor(f, h, dir, c, hc, e.(bucket := e.bucket.(core := less)))
  {
    hide Sound, Mapped, KeyOf, DataOf, ProbeOk, OccBag, Index, CoreOk;
    var s := e.bucket.core.table[loc];
    SelectedTable(dir, h, b, e, hash);
    SoundContent(f, h, dir, b, hc);
    SelectedSlot(f, dir, h, b, e, hash, loc);
    SmallerCore(e.bucket.core, less, s, b.pre[e.adr], h.bucketElems);
    TakeRecord(f, h, dir, b, hc, e.adr, less, s, key);
    WithoutMapped(dir, h, b, e.adr, less, s, key);
  }

  /** After a deletion and the release of its space, the cache is coherent again. */
  lemma DeleteSettled(f: File, g: File, cache: seq<CacheElem>, b: Books, i: nat, e: CacheElem, c: Books,
                      dir: seq<nat>, h: Header, h': Header, s: Slot, key: Bytes)
    requires i < |cache| && cache[i].adr != 0 && e.adr == cache[i].adr && e.data.elemLoc == -1
    requires b.dirty == {} && e.adr in b.avs
    requires Allotted(Without(b, e.adr, e.bucket.core, s, key), c, e.adr, e.bucket.avail, [])
    requires e.bucket == Bucket(e.bucket.avail, e.bucket.core)
    requires forall t :: t in c.slots ==> SameRecord(f, g, t)
    requires SameGeometry(h, h') && Mapped(dir, h, Without(b, e.adr, e.bucket.core, s, key))
    requires Coherent(f, cache, b, -1)
    ensures Mapped(dir, h', c) && Coherent(g, cache[i := e], c, i) && SlotsListed(c)
  {
    hide Coherent, SameRecord, Mapped;
    MappedGeometry(dir, h, Without(b, e.adr, e.bucket.core, s, key), h', c);
    MappedListed(dir, h', c);
    assert OthersIn(b, e.adr, c.slots) by {
      assert forall x | x in b.tabs && x != e.adr :: x in c.tabs && c.tabs[x] == b.tabs[x];
    }
    hide SlotsListed, OthersIn;
    CurUpdated(f, g, cache, b, -1, i, e, c, c.slots);
  }

  lemma MappedGeometry(dir: seq<nat>, h: Header, b: Books, h': Header, c: Books)
    requires c.tabs == b.tabs && c.pre == b.pre && c.slots == b.slots && SameGeometry(h, h')
    requires Mapped(dir, h, b)
    ensures Mapped(dir, h', c)
  {
  }

  /** An allocation or a release changes only the free extents of the open slot. */
  lemma AvailUpdated(f: File, g: File, cache: seq<CacheElem>, b: Books, i: nat, e: CacheElem, c: Books,
                     held: seq<AvailElem>)
    requires i < |cache| && Coherent(f, cache, b, i) && cache[i].adr != 0
    requires e == cache[i].(bucket := cache[i].bucket.(avail := e.bucket.avail))
    requires Allotted(b, c, e.adr, e.bucket.avail, held)
    requires SlotsListed(b) && forall s :: s in b.slots ==> SameRecord(f, g, s)
    ensures Coherent(g, cache[i := e], c, i)
  {
    hide SameRecord, RecordOf, DataFits;
    DataFrame(f, g, cache, b);
    hide SlotsListed;
    var c2 := cache[i := e];
    forall a | a in c.dirty
      ensures exists j :: 0 <= j < |c2| && c2[j].adr == a && (c2[j].changed || j == i)
    {
      var j :| 0 <= j < |cache| && cache[j].adr == a && (cache[j].changed || j == i);
      assert c2[j].adr == a && c2[j].changed == cache[j].changed;
    }
    forall j | 0 <= j < |c2| && c2[j].adr != 0
      ensures Matches(c2[j], c)
    {
      assert Matches(cache[j], b);
    }
    forall j | 0 <= j < |c2| && c2[j].adr != 0 && !c2[j].changed && c2[j].data.elemLoc != -1
      ensures DataFits(g, c2[j])
    {
      assert DataFits(g, cache[j]);
      SameCoreFits(g, cache[j], c2[j]);
    }
  }

  lemma SameCoreFits(g: File, d: CacheElem, e: CacheElem)
    requires DataFits(g, d) && e.bucket.core == d.bucket.core && e.data == d.data
    ensures DataFits(g, e)
  {
  }

  // ----- putting a record in

  /** The books with element s, whose record takes the bytes that were in transit. */
  ghost function With(b: Books, a: nat, core: Core, s: Slot, key: Bytes, data: Bytes): Books {
    b.(tabs := b.tabs[a := core], slots := b.slots + multiset{s}, contents := b.contents[key := data], held := [])
  }

  /** s is an element for the pair. */
  ghost predicate Describes(s: Slot, key: Bytes, data: Bytes) {
    s.hash == Hash(key) && StartOk(s.keyStart, key) && s.keySize == |key| && s.dataSize == |data|
  }

  lemma PutKeeps(f: File, h: Header, b: Books, hc: bool, s: Slot, bytes: Bytes)
    requires Tiled(h, b) && b.held == [Extent(s)] && |bytes| == s.keySize + s.dataSize
    ensures KeepsProtected(f, WriteAt(f, s.ptr, RawAtoms(bytes)), h, b, hc)
  {
    forall x | 0 <= x < |f| && Protected(h, b, hc, x)
      ensures WriteAt(f, s.ptr, RawAtoms(bytes))[x] == f[x]
    {
      CoverMember(b.held, Extent(s), x);
      hide Homes, Records, FreeIn, StackCover, Cover, Protected, Tiled;
      OneOwner(h, b, x);
      HomesMono(b.tabs.Keys - b.dirty, b.tabs.Keys, h.bucketSize, x);
      ProtectedOwned(h, b, hc, x);
    }
  }

  lemma PutChain(f: File, h: Header, b: Books, s: Slot, bytes: Bytes)
    requires Tiled(h, b) && b.held == [Extent(s)] && |bytes| == s.keySize + s.dataSize
    requires ChainOk(f, h.avail.nextBlock, b.stack, h.avail.size)
    ensures ChainOk(WriteAt(f, s.ptr, RawAtoms(bytes)), h.avail.nextBlock, b.stack, h.avail.size)
  {
    var g := WriteAt(f, s.ptr, RawAtoms(bytes));
    forall x | 0 <= x < |f| && StackCover(b.stack, h.avail.size, x) > 0
      ensures x < |g| && g[x] == f[x]
    {
      CoverMember(b.held, Extent(s), x);
      hide Homes, Records, FreeIn, StackCover, Cover, Tiled;
      OneOwner(h, b, x);
    }
    ChainFrame(f, g, h.avail.nextBlock, b.stack, h.avail.size);
  }

  lemma PutTiled(h: Header, b: Books, a: nat, core: Core, s: Slot, key: Bytes, data: Bytes)
    requires Tiled(h, b) && a in b.tabs && b.held == [Extent(s)]
    ensures Tiled(h, With(b, a, core, s, key, data))
  {
    var c := With(b, a, core, s, key, data);
    assert c.tabs.Keys == b.tabs.Keys;
    forall x: nat
      ensures Owners(h, c, x) == if x < h.nextBlock then 1 else 0
    {
      RecordsPut(b.slots, s, x);
      assert Cover(b.held, x) == In(Extent(s), x) + Cover([], x);
      hide Homes, Records, FreeIn, StackCover;
      assert Owners(h, b, x) == if x < h.nextBlock then 1 else 0;
    }
  }

  /** The new element is none of the old ones. */
  lemma PutFresh(f: File, h: Header, b: Books, s: Slot, key: Bytes, data: Bytes)
    requires Tiled(h, b) && b.held == [Extent(s)] && Describes(s, key, data)
    requires ContentOk(f, b.slots, b.contents) && key !in b.contents
    ensures s !in b.slots
  {
    assert s.keySize == 0 ==> KeyOf(f, s) == key;
    if s in b.slots {
      if s.keySize + s.dataSize != 0 {
        CoverMember(b.held, Extent(s), s.ptr);
        OneOwner(h, b, s.ptr);
        RecordsTake(b.slots, s, s.ptr);
      }
    }
  }

  lemma PutContent(g: File, slots: multiset<Slot>, contents: map<Bytes, Bytes>, s: Slot, key: Bytes, data: Bytes)
    requires ContentOk(g, slots, contents)
    requires s !in slots && key !in contents && RecOk(g, s) && KeyOf(g, s) == key && DataOf(g, s) == data
    ensures ContentOk(g, slots + multiset{s}, contents[key := data])
  {
    hide RecOk, KeyOf, DataOf;
    var slots', contents' := slots + multiset{s}, contents[key := data];
    assert forall t :: t in slots' <==> t in slots || t == s;
    forall k | k in contents'
      ensures exists t :: t in slots' && KeyOf(g, t) == k
    {
      if k == key {
        assert s in slots';
      } else {
        var t :| t in slots && KeyOf(g, t) == k;
        assert t in slots';
      }
    }
  }

  lemma RecordWritten(f: File, s: Slot, key: Bytes, data: Bytes)
    requires Describes(s, key, data)
    ensures var g := WriteAt(f, s.ptr, RawAtoms(key + data));
            RecOk(g, s) && KeyOf(g, s) == key && DataOf(g, s) == data
  {
    hide Hash;
    var g := WriteAt(f, s.ptr, RawAtoms(key + data));
    WriteReadsBack(f, s.ptr, key + data);
    RecordSplits(g, s);
    assert KeyOf(g, s) == RecordOf(g, s)[..|key|];
    assert DataOf(g, s) == RecordOf(g, s)[|key|..];
  }

  /** Attaching an element and writing its record keeps the file well formed and disturbs no other record. */
  lemma PutRecord(f: File, h: Header, dir: seq<nat>, b: Books, hc: bool, a: nat, core: Core, s: Slot, key: Bytes,
                  data: Bytes)
    requires a in b.tabs && a in b.dirty && b.held == [Extent(s)] && Describes(s, key, data) && key !in b.contents
    requires Sound(f, h, dir, b, hc)
    ensures var g := WriteAt(f, s.ptr, RawAtoms(key + data));
            && Sound(g, h, dir, With(b, a, core, s, key, data), hc)
            && forall t :: t in b.slots ==> SameRecord(f, g, t)
  {
    hide ChainOk, ContentOk, GoodList, Holds, Tiled, KeyOf, DataOf, RecOk, SameRecord, Describes, RawAtoms, Protected;
    var g, c := WriteAt(f, s.ptr, RawAtoms(key + data)), With(b, a, core, s, key, data);
    DescribesSize(s, key, data);
    PutKeeps(f, h, b, hc, s, key + data);
    PutChain(f, h, b, s, key + data);
    PutTiled(h, b, a, core, s, key, data);
    PutFresh(f, h, b, s, key, data);
    RecordWritten(f, s, key, data);
    FrameContent(f, g, h, b, hc);
    PutContent(g, b.slots, b.contents, s, key, data);
    FrameImages(f, g, h, dir, b, hc);
    assert c.tabs.Keys == b.tabs.Keys;
  }

  lemma DescribesSize(s: Slot, key: Bytes, data: Bytes)
    requires Describes(s, key, data)
    ensures |key + data| == s.keySize + s.dataSize
  {
  }

  /** Two adjoining writes are one write. */
  lemma WriteTwice(f: File, a: nat, key: Bytes, data: Bytes)
    ensures WriteAt(WriteAt(f, a, RawAtoms(key)), a + |key|, RawAtoms(data)) == WriteAt(f, a, RawAtoms(key + data))
  {
    hide WriteAt;
    RawJoin(key, data);
    WritesJoin(f, a, RawAtoms(key), RawAtoms(data));
  }

  lemma RawJoin(key: Bytes, data: Bytes)
    ensures RawAtoms(key + data) == RawAtoms(key) + RawAtoms(data)
  {
  }

  lemma WritesJoin(f: File, a: nat, s: seq<Atom>, t: seq<Atom>)
    ensures WriteAt(WriteAt(f, a, s), a + |s|, t) == WriteAt(f, a, s + t)
  {
    var g, k := WriteAt(WriteAt(f, a, s), a + |s|, t), WriteAt(f, a, s + t);
    if s == [] {
      assert s + t == t;
    } else {
      hide WriteAt;
      JoinSize(f, a, s, t);
      forall x | 0 <= x < |g|
        ensures g[x] == k[x]
      {
        JoinAt(f, a, s, t, x);
      }
    }
  }

  lemma JoinSize(f: File, a: nat, s: seq<Atom>, t: seq<Atom>)
    requires s != []
    ensures |WriteAt(WriteAt(f, a, s), a + |s|, t)| == |WriteAt(f, a, s + t)|
  {
  }

  lemma JoinAt(f: File, a: nat, s: seq<Atom>, t: seq<Atom>, x: nat)
    requires s != [] && x < |WriteAt(f, a, s + t)| == |WriteAt(WriteAt(f, a, s), a + |s|, t)|
    ensures WriteAt(WriteAt(f, a, s), a + |s|, t)[x] == WriteAt(f, a, s + t)[x]
  {
    WrittenAt(f, a, s, x);
    WrittenAt(WriteAt(f, a, s), a + |s|, t, x);
    WrittenAt(f, a, s + t, x);
    hide WriteAt;
    if a <= x < a + |s| {
      assert (s + t)[x - a] == s[x - a];
    } else if a + |s| <= x < a + |s| + |t| {
      assert (s + t)[x - a] == t[x - (a + |s|)];
    }
  }

  lemma WrittenAt(f: File, a: nat, s: seq<Atom>, x: nat)
    ensures x < |WriteAt(f, a, s)| ==>
              WriteAt(f, a, s)[x] == if a <= x < a + |s| then s[x - a] else if x < |f| then f[x] else Raw(0)
  {
  }

  // ----- insertion and replacement

  /** A bucket with one more element, where probing finds it. */
  lemma LargerCore(c: Core, loc: nat, s: Slot, p: nat, n: nat)
    requires CoreOk(c, p, n) && loc < |c.table| && !Occ(c.table, loc) && 0 <= s.hash < HASH_LIMIT
             && Index(s.hash, c.bits) == p
    requires forall q :: 0 <= q < |c.table| && HalfArc(Home(s.hash, |c.table|), q, loc) ==> Occ(c.table, q)
    ensures CoreOk(Core(c.bits, c.count + 1, c.table[loc := s]), p, n)
    ensures OccBag(c.table[loc := s]) == OccBag(c.table) + multiset{s}
  {
    hide ProbeOk, OccBag, PrefixOk, Index, Home;
    PlaceKeepsProbe(c.table, loc, s);
    BagUpdate(c.table, loc, s);
    assert OccBag(c.table[loc := s]) == OccBag(c.table) + multiset{s};
    PrefixMore(OccBag(c.table), c.bits, p, s);
  }

  lemma PrefixMore(bag: multiset<Slot>, bits: nat, p: nat, s: Slot)
    requires bits <= 31 && PrefixOk(bag, bits, p) && 0 <= s.hash < HASH_LIMIT && Index(s.hash, bits) == p
    ensures PrefixOk(bag + multiset{s}, bits, p)
  {
    hide Index;
  }

  lemma PrefixLess(bag: multiset<Slot>, bits: nat, p: nat, s: Slot)
    requires bits <= 31 && PrefixOk(bag, bits, p) && s in bag
    ensures PrefixOk(bag - multiset{s}, bits, p) && 0 <= s.hash < HASH_LIMIT && Index(s.hash, bits) == p
  {
    hide Index;
  }

  lemma SameHashProbe(t: seq<Slot>, loc: nat, s: Slot)
    requires ProbeOk(t) && loc < |t| && s.hash == t[loc].hash
    ensures ProbeOk(t[loc := s])
  {
    hide Home;
    var u := t[loc := s];
    assert forall q :: 0 <= q < |t| ==> Occ(u, q) == Occ(t, q) && u[q].hash == t[q].hash;
  }

  /** A bucket with one element replaced by another of the same hash. */
  lemma ChangedCore(c: Core, loc: nat, s: Slot, p: nat, n: nat)
    requires CoreOk(c, p, n) && loc < |c.table| && Occ(c.table, loc) && s.hash == c.table[loc].hash
    ensures CoreOk(c.(table := c.table[loc := s]), p, n)
    ensures c.table[loc] in OccBag(c.table)
    ensures OccBag(c.table[loc := s]) == OccBag(c.table) - multiset{c.table[loc]} + multiset{s}
  {
    hide ProbeOk, OccBag, PrefixOk, Index, Home;
    BagUpdate(c.table, loc, s);
    SameHashProbe(c.table, loc, s);
    PrefixLess(OccBag(c.table), c.bits, p, c.table[loc]);
    PrefixMore(OccBag(c.table) - multiset{c.table[loc]}, c.bits, p, s);
  }

  lemma SlotsOthers(dir: seq<nat>, h: Header, b: Books, a: nat)
    requires Mapped(dir, h, b)
    ensures OthersIn(b, a, b.slots)
  {
    hide Mapped;
    MappedListed(dir, h, b);
  }

  /** After an insertion. */
  lemma InsertDone(f: File, h: Header, dir: seq<nat>, b: Books, hc: bool, cache: seq<CacheElem>, i: nat,
                   loc: nat, s: Slot, key: Bytes, data: Bytes, e: CacheElem, g: File, c: Books)
    requires i < |cache| && loc < |cache[i].bucket.core.table| && !Occ(cache[i].bucket.core.table, loc)
    requires var t := cache[i].bucket.core.table;
             forall q :: 0 <= q < |t| && HalfArc(Home(s.hash, |t|), q, loc) ==> Occ(t, q)
    requires var o := cache[i].bucket.core;
             e == cache[i].(bucket := cache[i].bucket.(core := Core(o.bits, o.count + 1, o.table[loc := s])),
                            changed := true)
    requires b.held == [Extent(s)] && Describes(s, key, data) && key !in b.contents
    requires g == WriteAt(f, s.ptr, RawAtoms(key + data)) && c == With(b, e.adr, e.bucket.core, s, key, data)
    requires SelectedBy(dir, h, b, cache[i], Hash(key)) && ReadyFor(f, h, dir, b, hc, cache[i])
    requires Mapped(dir, h, b) && Coherent(f, cache, b, i) && cache[i].adr != 0
    ensures Sound(g, h, dir, c, hc) && Mapped(dir, h, c) && Coherent(g, cache[i := e], c, i) && SlotsListed(c)
  {
    hide Sound, Mapped, Coherent, Hash, KeyOf, DataOf, OccBag, ProbeOk, Index, SameRecord, Home, RawAtoms, CoreOk;
    var o := cache[i].bucket.core;
    SelectedTable(dir, h, b, cache[i], Hash(key));
    DescribesHash(s, key, data);
    SelectedPre(dir, h, b, cache[i], Hash(key));
    LargerCore(o, loc, s, b.pre[e.adr], h.bucketElems);
    PutRecord(f, h, dir, b, hc, e.adr, e.bucket.core, s, key, data);
    MoreSlots(b.slots, OccBag(o.table), s);
    MappedUpdate(dir, h, b, c, e.adr, e.bucket.core);
    MappedListed(dir, h, c);
    SlotsOthers(dir, h, b, e.adr);
    hide SlotsListed, OthersIn, Describes;
    CurUpdated(f, g, cache, b, i, i, e, c, b.slots);
  }

  lemma MoreSlots(slots: multiset<Slot>, bag: multiset<Slot>, s: Slot)
    ensures slots + multiset{s} + bag == slots + (bag + multiset{s})
  {
  }

  lemma DescribesHash(s: Slot, key: Bytes, data: Bytes)
    requires Describes(s, key, data)
    ensures s.hash == Hash(key)
  {
  }

  lemma SelectedPre(dir: seq<nat>, h: Header, b: Books, e: CacheElem, hash: nat)
    requires hash < HASH_LIMIT && SelectedBy(dir, h, b, e, hash)
    requires Mapped(dir, h, b)
    ensures e.adr in b.tabs && b.tabs[e.adr] == e.bucket.core && e.bucket.core.bits <= 31
    ensures e.adr in b.pre && Index(hash, e.bucket.core.bits) == b.pre[e.adr]
  {
    SelectedPrefix(dir, h.dirBits, b.tabs, b.pre, hash);
  }

  /** The books while an element is being replaced: the old one out, the new one's bytes allocated. */
  ghost predicate Replacing(b: Books, c: Books, a: nat, av: seq<AvailElem>, prior: Slot, key: Bytes,
                            extent: AvailElem) {
    c == b.(avs := b.avs[a := av], stack := c.stack, scraps := c.scraps, dropped := c.dropped,
            slots := b.slots - multiset{prior}, contents := b.contents - {key}, held := [extent])
  }

  lemma OthersWithout(f: File, dir: seq<nat>, h: Header, b: Books, a: nat, s: Slot)
    requires a in b.tabs && s in OccBag(b.tabs[a].table) && ContentOk(f, b.slots, b.contents)
    requires Mapped(dir, h, b)
    ensures OthersIn(b, a, b.slots - multiset{s})
  {
    hide ContentOk, TabsOk, DirOk;
    ContentOnce(f, b.slots, b.contents, s);
    AllTake(b.tabs, a);
    forall x, j | x in b.tabs && x != a && 0 <= j < |b.tabs[x].table| && Occ(b.tabs[x].table, j)
      ensures b.tabs[x].table[j] in b.slots - multiset{s}
    {
      var t := b.tabs[x].table[j];
      BagMember(b.tabs[x].table, t);
      AllMember(b.tabs - {a}, t);
      assert x in b.tabs - {a};
      InRest(b.slots, OccBag(b.tabs[a].table), AllSlots(b.tabs - {a}), s, t);
    }
  }

  lemma ContentOnce(f: File, slots: multiset<Slot>, contents: map<Bytes, Bytes>, s: Slot)
    requires ContentOk(f, slots, contents)
    ensures slots[s] <= 1
  {
  }

  lemma InRest(all: multiset<Slot>, bag: multiset<Slot>, rest: multiset<Slot>, s: Slot, t: Slot)
    requires all == bag + rest && all[s] <= 1 && s in bag && t in rest
    ensures t in all - multiset{s}
  {
  }

  lemma SwapSlots(slots: multiset<Slot>, bag: multiset<Slot>, prior: Slot, s: Slot)
    requires prior in slots && prior in bag
    ensures slots - multiset{prior} + multiset{s} + bag == slots + (bag - multiset{prior} + multiset{s})
  {
  }

  /** The directory and the buckets after a replacement. */
  lemma ReplaceMapped(dir: seq<nat>, h0: Header, h: Header, b0: Books, b: Books, e: CacheElem, av: seq<AvailElem>,
                      loc: nat, s: Slot, key: Bytes, data: Bytes)
    requires loc < |e.bucket.core.table| && Occ(e.bucket.core.table, loc) && e.bucket.core.table[loc] in b0.slots
    requires s.hash == e.bucket.core.table[loc].hash && SameGeometry(h0, h)
    requires Replacing(b0, b, e.adr, av, e.bucket.core.table[loc], key, Extent(s))
    requires SelectedBy(dir, h0, b0, e, Hash(key)) && Mapped(dir, h0, b0)
    ensures var o := e.bucket.core;
            var c := With(b, e.adr, o.(table := o.table[loc := s]), s, key, data);
            Mapped(dir, h, c) && SlotsListed(c) && o.table[loc] in OccBag(o.table)
  {
    hide Mapped, SlotsListed, Hash, OccBag, ProbeOk, Index, CoreOk;
    var o, prior := e.bucket.core, e.bucket.core.table[loc];
    var c := With(b, e.adr, o.(table := o.table[loc := s]), s, key, data);
    SelectedTable(dir, h0, b0, e, Hash(key));
    ChangedCore(o, loc, s, b0.pre[e.adr], h0.bucketElems);
    SwapSlots(b0.slots, OccBag(o.table), prior, s);
    MappedUpdate(dir, h0, b0, c, e.adr, o.(table := o.table[loc := s]));
    MappedGeometry(dir, h0, c, h, c);
    MappedListed(dir, h, c);
  }

  /** After a replacement; the element kept its position and its hash. */
  lemma ReplaceDone(f0: File, f: File, h0: Header, h: Header, dir: seq<nat>, b0: Books, b: Books, hc0: bool, hc: bool,
                    cache: seq<CacheElem>, i: nat, av: seq<AvailElem>, loc: nat, s: Slot, key: Bytes, data: Bytes,
                    e: CacheElem, g: File, c: Books)
    requires i < |cache| && loc < |cache[i].bucket.core.table| && HasKey(f0, cache[i].bucket.core.table, loc, key)
    requires s == cache[i].bucket.core.table[loc].(ptr := s.ptr, keySize := |key|, dataSize := |data|)
    requires var o := cache[i].bucket.core;
             e == cache[i].(bucket := Bucket(av, o.(table := o.table[loc := s])), changed := true)
    requires Replacing(b0, b, e.adr, av, cache[i].bucket.core.table[loc], key, Extent(s))
    requires g == WriteAt(f, s.ptr, RawAtoms(key + data)) && c == With(b, e.adr, e.bucket.core, s, key, data)
    requires SameGeometry(h0, h) && e.adr in b0.dirty && cache[i].adr != 0
    requires forall t :: t in b.slots ==> SameRecord(f0, f, t)
    requires SelectedBy(dir, h0, b0, cache[i], Hash(key)) && Sound(f0, h0, dir, b0, hc0) && Sound(f, h, dir, b, hc)
    requires Mapped(dir, h0, b0) && Coherent(f0, cache, b0, i)
    ensures Sound(g, h, dir, c, hc) && Mapped(dir, h, c) && Coherent(g, cache[i := e], c, i) && SlotsListed(c)
  {
    hide Sound, Mapped, Coherent, Hash, OccBag, ProbeOk, Index, SameRecord, Home, RawAtoms, CoreOk, KeyOf, DataOf,
         WriteAt, Describes, Extent, SlotsListed, RecOk, OthersIn;
    var o, prior := cache[i].bucket.core, cache[i].bucket.core.table[loc];
    SoundContent(f0, h0, dir, b0, hc0);
    SelectedSlot(f0, dir, h0, b0, cache[i], Hash(key), loc);
    ReplaceDescribes(f0, prior, s, key, data);
    PutRecord(f, h, dir, b, hc, e.adr, e.bucket.core, s, key, data);
    ReplaceMapped(dir, h0, h, b0, b, cache[i], av, loc, s, key, data);
    OthersWithout(f0, dir, h0, b0, e.adr, prior);
    hide ContentOk;
    SameRecords(f0, f, g, b.slots);
    CurUpdated(f0, g, cache, b0, i, i, e, c, b.slots);
  }

  lemma ReplaceDescribes(f: File, prior: Slot, s: Slot, key: Bytes, data: Bytes)
    requires RecOk(f, prior) && KeyOf(f, prior) == key
             && s == prior.(ptr := s.ptr, keySize := |key|, dataSize := |data|)
    ensures Describes(s, key, data)
  {
    hide Hash;
  }

  lemma SameRecords(f: File, g: File, k: File, slots: multiset<Slot>)
    requires forall s :: s in slots ==> SameRecord(f, g, s)
    requires forall s :: s in slots ==> SameRecord(g, k, s)
    ensures forall s :: s in slots ==> SameRecord(f, k, s)
  {
    hide KeyOf, DataOf, RecordOf, IsRaw;
  }
}
