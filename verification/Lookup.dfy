/** Where a key is: the directory selects its bucket and probing reaches its element. */
module Lookup {
  import opened Base
  import opened StringHash
  import opened Layout
  import opened HashTable
  import opened Directory
  import opened Ledger
  import opened State
  import opened Caching

  /** The directory, the buckets and the list of elements belong together. */
  ghost predicate Mapped(dir: seq<nat>, h: Header, b: Books) {
    && TabsOk(b.tabs, b.pre, h.bucketElems)
    && DirOk(dir, h.dirBits, b.tabs, b.pre)
    && b.slots == AllSlots(b.tabs)
  }

  lemma MappedSame(dir: seq<nat>, h: Header, b: Books, c: Books)
    requires Mapped(dir, h, b) && c.tabs == b.tabs && c.pre == b.pre && c.slots == b.slots
    ensures Mapped(dir, h, c)
  {
  }

  lemma MappedListed(dir: seq<nat>, h: Header, b: Books)
    requires Mapped(dir, h, b)
    ensures SlotsListed(b)
  {
    forall a, j | a in b.tabs && 0 <= j < |b.tabs[a].table| && Occ(b.tabs[a].table, j)
      ensures b.tabs[a].table[j] in b.slots
    {
      var s := b.tabs[a].table[j];
      BagMember(b.tabs[a].table, s);
      AllMember(b.tabs, s);
    }
  }

  /** Position j of the table holds the key. */
  ghost predicate HasKey(f: File, t: seq<Slot>, j: nat, key: Bytes)
    requires j < |t|
  {
    Occ(t, j) && KeyOf(f, t[j]) == key
  }

  /** Position j of the bucket that the key's hash selects holds the key. */
  ghost predicate KeyAt(f: File, dir: seq<nat>, h: Header, b: Books, key: Bytes, j: nat) {
    && h.dirBits <= 31 && Index(Hash(key), h.dirBits) < |dir|
    && var a := dir[Index(Hash(key), h.dirBits)];
       a in b.tabs && j < |b.tabs[a].table| && HasKey(f, b.tabs[a].table, j, key)
  }

  /** A stored key is in the bucket that its hash selects. */
  lemma KeyInBucket(f: File, dir: seq<nat>, h: Header, b: Books, key: Bytes) returns (j: nat)
    requires Mapped(dir, h, b) && ContentOk(f, b.slots, b.contents) && key in b.contents
    ensures KeyAt(f, dir, h, b, key, j)
  {
    hide StartOk, IsRaw, Hash, DirOk, TabsOk, KeyOf, DataOf, OccBag, Index;
    var s :| s in b.slots && KeyOf(f, s) == key;
    assert RecOk(f, s);
    AllMember(b.tabs, s);
    var a :| a in b.tabs && s in OccBag(b.tabs[a].table);
    DirectoryFinds(dir, h.dirBits, b.tabs, b.pre, h.bucketElems, a, s);
    BagMember(b.tabs[a].table, s);
    j :| 0 <= j < |b.tabs[a].table| && Occ(b.tabs[a].table, j) && b.tabs[a].table[j] == s;
  }

  /** What a bucket's element says about its record. */
  lemma SlotFacts(f: File, dir: seq<nat>, h: Header, b: Books, a: nat, j: nat)
    requires a in b.tabs && j < |b.tabs[a].table| && Occ(b.tabs[a].table, j)
    requires Mapped(dir, h, b) && ContentOk(f, b.slots, b.contents)
    ensures var s := b.tabs[a].table[j];
            && s in b.slots && RecOk(f, s)
            && KeyOf(f, s) in b.contents && b.contents[KeyOf(f, s)] == DataOf(f, s)
  {
    hide StartOk, IsRaw, Hash, KeyOf, DataOf;
    MappedListed(dir, h, b);
  }

  /** Probing may stop at an empty slot. */
  lemma ProbeStops(f: File, t: seq<Slot>, hash: nat, loc: nat, key: Bytes)
    requires ProbeOk(t) && loc < |t| && !Occ(t, loc)
    requires forall j :: 0 <= j < |t| && HasKey(f, t, j, key) ==> t[j].hash == hash
    requires forall p :: 0 <= p < |t| && HalfArc(Home(hash, |t|), p, loc) ==> !HasKey(f, t, p, key)
    ensures forall j :: 0 <= j < |t| ==> !HasKey(f, t, j, key)
  {
    hide KeyOf, Home;
    forall j | 0 <= j < |t|
      ensures !HasKey(f, t, j, key)
    {
      if !Arc(Home(hash, |t|), loc, j) {
        assert HalfArc(Home(hash, |t|), j, loc);
      }
    }
  }

  /** The quick tests of the probe loop never reject the element of the key. */
  lemma QuickTestSound(f: File, s: Slot, key: Bytes)
    requires RecOk(f, s) && KeyOf(f, s) == key
    ensures s.hash == Hash(key) && s.keySize == |key|
    ensures s.keyStart[..Min(SMALL, |key|)] == key[..Min(SMALL, |key|)]
  {
    hide Hash;
  }

  /** A record starts with its key, and the data follows. */
  lemma RecordKey(f: File, s: Slot, key: Bytes)
    requires s.keySize == |key|
    ensures |RecordOf(f, s)| == s.keySize + s.dataSize
    ensures RecordOf(f, s)[..|key|] == key <==> KeyOf(f, s) == key
    ensures RecordOf(f, s)[|key|..] == DataOf(f, s)
  {
    RecordSplits(f, s);
  }

  /** The remembered pair, when it matches, is the element that the search would find. */
  lemma ShortcutSound(f: File, e: CacheElem, key: Bytes)
    requires DataFits(f, e) && e.data.keySize == |key| && e.data.dptr.value[..|key|] == key
    ensures 0 <= e.data.elemLoc < |e.bucket.core.table| && Occ(e.bucket.core.table, e.data.elemLoc)
    ensures KeyOf(f, e.bucket.core.table[e.data.elemLoc]) == key
    ensures e.data.dptr.value[|key|..] == DataOf(f, e.bucket.core.table[e.data.elemLoc])
  {
    RecordKey(f, e.bucket.core.table[e.data.elemLoc], key);
  }

  /** The cached bucket is the one that the directory selects for the hash. */
  ghost predicate SelectedBy(dir: seq<nat>, h: Header, b: Books, e: CacheElem, hash: nat) {
    && h.dirBits <= 31 && Index(hash, h.dirBits) < |dir|
    && e.adr == dir[Index(hash, h.dirBits)] && Matches(e, b)
  }

  lemma SelectedTable(dir: seq<nat>, h: Header, b: Books, e: CacheElem, hash: nat)
    requires Mapped(dir, h, b) && SelectedBy(dir, h, b, e, hash)
    ensures |e.bucket.core.table| == h.bucketElems && ProbeOk(e.bucket.core.table)
    ensures e.adr in b.tabs && e.adr in b.pre && CoreOk(e.bucket.core, b.pre[e.adr], h.bucketElems)
  {
  }

  lemma SelectedSlot(f: File, dir: seq<nat>, h: Header, b: Books, e: CacheElem, hash: nat, j: nat)
    requires j < |e.bucket.core.table| && Occ(e.bucket.core.table, j)
    requires Mapped(dir, h, b) && SelectedBy(dir, h, b, e, hash) && ContentOk(f, b.slots, b.contents)
    ensures var s := e.bucket.core.table[j];
            && s in b.slots && RecOk(f, s)
            && KeyOf(f, s) in b.contents && b.contents[KeyOf(f, s)] == DataOf(f, s)
  {
    hide ContentOk, Mapped, RecOk, KeyOf, DataOf, Index;
    SlotFacts(f, dir, h, b, e.adr, j);
  }

  lemma SelectedHash(f: File, dir: seq<nat>, h: Header, b: Books, e: CacheElem, key: Bytes, j: nat)
    requires j < |e.bucket.core.table| && HasKey(f, e.bucket.core.table, j, key)
    requires Mapped(dir, h, b) && SelectedBy(dir, h, b, e, Hash(key)) && ContentOk(f, b.slots, b.contents)
    ensures e.bucket.core.table[j].hash == Hash(key)
  {
    hide ContentOk, Mapped, KeyOf, DataOf, Index, Hash;
    SelectedSlot(f, dir, h, b, e, Hash(key), j);
    QuickTestSound(f, e.bucket.core.table[j], key);
  }

  lemma SelectedAbsent(f: File, dir: seq<nat>, h: Header, b: Books, e: CacheElem, key: Bytes)
    requires forall j :: 0 <= j < |e.bucket.core.table| ==> !HasKey(f, e.bucket.core.table, j, key)
    requires Mapped(dir, h, b) && SelectedBy(dir, h, b, e, Hash(key)) && ContentOk(f, b.slots, b.contents)
    ensures key !in b.contents
  {
    hide ContentOk, Mapped, KeyOf, DataOf, Index, Hash;
    KeyAbsent(f, dir, h, b, key);
  }

  lemma SelectedStops(f: File, dir: seq<nat>, h: Header, b: Books, e: CacheElem, key: Bytes, loc: nat)
    requires loc < |e.bucket.core.table| && !Occ(e.bucket.core.table, loc)
    requires var t := e.bucket.core.table;
             forall p :: 0 <= p < |t| && HalfArc(Home(Hash(key), |t|), p, loc) ==> !HasKey(f, t, p, key)
    requires Mapped(dir, h, b) && SelectedBy(dir, h, b, e, Hash(key)) && ContentOk(f, b.slots, b.contents)
    ensures forall j :: 0 <= j < |e.bucket.core.table| ==> !HasKey(f, e.bucket.core.table, j, key)
  {
    hide ContentOk, Mapped, KeyOf, DataOf, Index, Hash, Matches;
    var t := e.bucket.core.table;
    SelectedTable(dir, h, b, e, Hash(key));
    forall j | 0 <= j < |t| && HasKey(f, t, j, key)
      ensures t[j].hash == Hash(key)
    {
      SelectedHash(f, dir, h, b, e, key, j);
    }
    ProbeStops(f, t, Hash(key), loc, key);
  }

  lemma SelectedNotThis(f: File, dir: seq<nat>, h: Header, b: Books, e: CacheElem, key: Bytes, j: nat)
    requires j < |e.bucket.core.table|
    requires var s := e.bucket.core.table[j];
             s.hash != Hash(key) || s.keySize != |key| || KeyOf(f, s) != key
             || s.keyStart[..Min(SMALL, |key|)] != key[..Min(SMALL, |key|)]
    requires Mapped(dir, h, b) && SelectedBy(dir, h, b, e, Hash(key)) && ContentOk(f, b.slots, b.contents)
    ensures !HasKey(f, e.bucket.core.table, j, key)
  {
    hide ContentOk, Mapped, Index, Hash, Matches;
    if HasKey(f, e.bucket.core.table, j, key) {
      SelectedSlot(f, dir, h, b, e, Hash(key), j);
      QuickTestSound(f, e.bucket.core.table[j], key);
    }
  }

  /** A key that no position holds is not stored. */
  lemma KeyAbsent(f: File, dir: seq<nat>, h: Header, b: Books, key: Bytes)
    requires forall j: nat :: !KeyAt(f, dir, h, b, key, j)
    requires Mapped(dir, h, b) && ContentOk(f, b.slots, b.contents)
    ensures key !in b.contents
  {
    if key in b.contents {
      var j := KeyInBucket(f, dir, h, b, key);
    }
  }
}
