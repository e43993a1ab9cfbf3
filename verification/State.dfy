/** What it means for the file, the header and the directory to encode a logical database. */
module State {
  import opened Base
  import opened StringHash
  import opened Layout
  import opened FreeList
  import opened Space
  import opened Ledger

  /** The one key/data pair remembered for a cached bucket. */
  datatype DataCache = DataCache(hash: int, keySize: nat, dataSize: nat, elemLoc: int, dptr: Option<Bytes>)

  datatype CacheElem = CacheElem(bucket: Bucket, adr: nat, changed: bool, data: DataCache)

  /** The record of an element is in the file, and the element describes it. */
  ghost predicate RecOk(f: File, s: Slot) {
    && IsRaw(f, s.ptr, s.keySize + s.dataSize)
    && s.hash == Hash(KeyOf(f, s))
    && StartOk(s.keyStart, KeyOf(f, s))
  }

  /** `key_start` repeats up to SMALL bytes of the key. */
  predicate StartOk(start: KeyStart, key: Bytes) {
    start[..Min(SMALL, |key|)] == key[..Min(SMALL, |key|)]
  }

  /** The elements and the map agree: one element for each key, and its record holds the data. */
  ghost predicate ContentOk(f: File, slots: multiset<Slot>, contents: map<Bytes, Bytes>) {
    && (forall s :: s in slots ==> RecOk(f, s) && slots[s] == 1)
    && (forall s :: s in slots ==> KeyOf(f, s) in contents && contents[KeyOf(f, s)] == DataOf(f, s))
    && (forall k :: k in contents ==> exists s :: s in slots && KeyOf(f, s) == k)
    && (forall s, t :: s in slots && t in slots && KeyOf(f, s) == KeyOf(f, t) ==> s == t)
  }

  /** What is on disk: every clean bucket, the directory and the header. */
  ghost predicate ImagesOk(f: File, h: Header, dir: seq<nat>, b: Books, headerChanged: bool) {
    && (forall a :: a in b.tabs && a !in b.dirty ==>
          a in b.avs && Holds(f, a, BucketImage(Bucket(b.avs[a], b.tabs[a])), h.bucketSize))
    && (!b.dirStale ==> Holds(f, h.dir, DirImage(dir), h.dirSize))
    && (!headerChanged ==> Holds(f, 0, HeaderImage(h), h.blockSize))
  }

  predicate Geometry(h: Header) {
    && h.magic == HEADER_MAGIC && 512 <= h.blockSize == h.bucketSize && 0 < h.bucketElems
    && h.dirBits <= 31 && h.dirSize == SIZEOF_OFF * Pow2(h.dirBits)
    && 7 <= h.avail.size && 0 < h.nextBlock && h.blockSize <= h.dirSize
    && SIZEOF_HEADER + (h.avail.size - 1) * SIZEOF_AVAIL_ELEM <= h.blockSize
    && SIZEOF_BUCKET + (h.bucketElems - 1) * SIZEOF_ELEMENT <= h.bucketSize
  }

  ghost predicate AvailsOk(b: Books) {
    && b.tabs.Keys == b.avs.Keys
    && (forall a :: a in b.avs ==> GoodList(b.avs[a]) && |b.avs[a]| <= BUCKET_AVAIL)
    && (forall e :: e in b.scraps ==> e.size <= IGNORE_SIZE)
  }

  /** The file is well formed: exact ownership of every byte, and everything clean readable. */
  ghost predicate Sound(f: File, h: Header, dir: seq<nat>, b: Books, headerChanged: bool) {
    && Geometry(h) && AvailsOk(b)
    && GoodList(h.avail.table) && |h.avail.table| <= h.avail.size
    && Tiled(h, b)
    && ChainOk(f, h.avail.nextBlock, b.stack, h.avail.size)
    && ImagesOk(f, h, dir, b, headerChanged)
    && ContentOk(f, b.slots, b.contents)
  }

  lemma SoundContent(f: File, h: Header, dir: seq<nat>, b: Books, hc: bool)
    requires Sound(f, h, dir, b, hc)
    ensures ContentOk(f, b.slots, b.contents)
  {
  }

  // ----- framing

  /** Byte x belongs to something that must stay readable. */
  ghost predicate Protected(h: Header, b: Books, hc: bool, x: nat) {
    || (exists a :: a in b.tabs && a !in b.dirty && a <= x < a + h.bucketSize)
    || (exists s :: s in b.slots && s.ptr <= x < s.ptr + (s.keySize + s.dataSize))
    || (!b.dirStale && h.dir <= x < h.dir + h.dirSize)
    || (!hc && x < h.blockSize)
  }

  lemma ProtectedOwned(h: Header, b: Books, hc: bool, x: nat)
    requires Protected(h, b, hc, x)
    ensures (if hc then 0 else In(Avail(h.blockSize, 0), x))
            + (if b.dirStale then 0 else In(Avail(h.dirSize, h.dir), x))
            + Homes(b.tabs.Keys - b.dirty, h.bucketSize, x) + Records(b.slots, x) > 0
  {
    if a :| a in b.tabs && a !in b.dirty && a <= x < a + h.bucketSize {
      HomesTake(b.tabs.Keys - b.dirty, h.bucketSize, a, x);
    } else if s :| s in b.slots && s.ptr <= x < s.ptr + (s.keySize + s.dataSize) {
      RecordsTake(b.slots, s, x);
    }
  }

  ghost predicate KeepsProtected(f: File, g: File, h: Header, b: Books, hc: bool) {
    |f| <= |g| && forall x | 0 <= x < |f| && Protected(h, b, hc, x) :: g[x] == f[x]
  }

  lemma FrameImages(f: File, g: File, h: Header, dir: seq<nat>, b: Books, hc: bool)
    requires ImagesOk(f, h, dir, b, hc) && KeepsProtected(f, g, h, b, hc)
    ensures ImagesOk(g, h, dir, b, hc)
  {
    forall a | a in b.tabs && a !in b.dirty
      ensures a in b.avs && Holds(g, a, BucketImage(Bucket(b.avs[a], b.tabs[a])), h.bucketSize)
    {
      forall x | a <= x < a + h.bucketSize
        ensures g[x] == Part(BucketImage(Bucket(b.avs[a], b.tabs[a])), x - a)
      {
        assert Protected(h, b, hc, x);
      }
    }
    if !b.dirStale {
      forall x | h.dir <= x < h.dir + h.dirSize
        ensures g[x] == Part(DirImage(dir), x - h.dir)
      {
        assert Protected(h, b, hc, x);
      }
    }
    if !hc {
      forall x | 0 <= x < h.blockSize
        ensures g[x] == Part(HeaderImage(h), x)
      {
        assert Protected(h, b, hc, x);
      }
    }
  }

  /** The record of an element reads the same in both files. */
  ghost predicate SameRecord(f: File, g: File, s: Slot) {
    KeyOf(f, s) == KeyOf(g, s) && DataOf(f, s) == DataOf(g, s) && RecordOf(f, s) == RecordOf(g, s)
    && (IsRaw(f, s.ptr, s.keySize + s.dataSize) ==> IsRaw(g, s.ptr, s.keySize + s.dataSize))
  }

  lemma FrameRecord(f: File, g: File, h: Header, b: Books, hc: bool, s: Slot)
    requires KeepsProtected(f, g, h, b, hc) && s in b.slots && IsRaw(f, s.ptr, s.keySize + s.dataSize)
    ensures SameRecord(f, g, s)
  {
    forall x: nat | s.ptr <= x < s.ptr + (s.keySize + s.dataSize)
      ensures g[x] == f[x]
    {
      assert Protected(h, b, hc, x);
    }
  }

  lemma FrameContent(f: File, g: File, h: Header, b: Books, hc: bool)
    requires ContentOk(f, b.slots, b.contents) && KeepsProtected(f, g, h, b, hc)
    ensures ContentOk(g, b.slots, b.contents)
    ensures forall s :: s in b.slots ==> SameRecord(f, g, s)
  {
    hide Hash, StartOk, Protected, RecordOf;
    forall s | s in b.slots
      ensures SameRecord(f, g, s)
    {
      assert RecOk(f, s);
      FrameRecord(f, g, h, b, hc, s);
    }
    SameContent(f, g, b.slots, b.contents);
  }

  lemma SameContent(f: File, g: File, slots: multiset<Slot>, contents: map<Bytes, Bytes>)
    requires ContentOk(f, slots, contents)
    requires forall s :: s in slots ==> SameRecord(f, g, s)
    ensures ContentOk(g, slots, contents)
  {
    hide Hash, StartOk, RecordOf, KeyOf, DataOf, IsRaw;
    forall k | k in contents
      ensures exists s :: s in slots && KeyOf(g, s) == k
    {
      var s :| s in slots && KeyOf(f, s) == k;
      assert SameRecord(f, g, s);
    }
  }
}
