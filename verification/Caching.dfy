/** The write-back bucket cache: coherence, write-back and replacement. */
module Caching {
  import opened Base
  import opened Layout
  import opened FreeList
  import opened HashTable
  import opened Space
  import opened Ledger
  import opened State
  import opened Steps

  /** The slot after j in turn: (j + 1) % n, where j is -1 before the first. */
  function Turn(j: int, n: nat): (r: nat)
    requires -1 <= j < n && 0 < n
    ensures r == if j + 1 == n then 0 else j + 1
  {
    (j + 1) % n
  }

  /** The slot holds the logical content of a live bucket. */
  ghost predicate Matches(e: CacheElem, b: Books) {
    e.adr in b.tabs && e.adr in b.avs && e.bucket == Bucket(b.avs[e.adr], b.tabs[e.adr])
  }

  /** Slots in use hold live buckets, each bucket at most once; free slots are clean. */
  ghost predicate CacheOk(cache: seq<CacheElem>, b: Books) {
    && (forall i | 0 <= i < |cache| && cache[i].adr != 0 :: Matches(cache[i], b))
    && (forall i | 0 <= i < |cache| && cache[i].adr == 0 :: !cache[i].changed)
    && (forall i, j | 0 <= i < j < |cache| && cache[i].adr == cache[j].adr :: cache[i].adr == 0)
  }

  /** Whatever is stale on disk is in the cache and marked for writing, slot `open` apart. */
  ghost predicate DirtyCached(cache: seq<CacheElem>, b: Books, open: int) {
    forall a | a in b.dirty :: exists i :: 0 <= i < |cache| && cache[i].adr == a && (cache[i].changed || i == open)
  }

  /** The remembered pair is the record of the element it names. */
  ghost predicate DataFits(f: File, e: CacheElem) {
    var t, d := e.bucket.core.table, e.data;
    && 0 <= d.elemLoc < |t| && Occ(t, d.elemLoc)
    && d.hash == t[d.elemLoc].hash && d.keySize == t[d.elemLoc].keySize && d.dataSize == t[d.elemLoc].dataSize
    && d.dptr == Some(RecordOf(f, t[d.elemLoc]))
  }

  ghost predicate DataOk(f: File, cache: seq<CacheElem>) {
    forall i | 0 <= i < |cache| && cache[i].adr != 0 && !cache[i].changed && cache[i].data.elemLoc != -1 ::
      DataFits(f, cache[i])
  }

  ghost predicate Coherent(f: File, cache: seq<CacheElem>, b: Books, open: int) {
    CacheOk(cache, b) && DirtyCached(cache, b, open) && DataOk(f, cache)
  }

  /** The file is well formed, and slot e holds a live bucket already marked stale on disk. */
  ghost predicate ReadyFor(f: File, h: Header, dir: seq<nat>, b: Books, hc: bool, e: CacheElem) {
    e.adr in b.dirty && Matches(e, b) && Sound(f, h, dir, b, hc)
  }

  /** No bucket lies at the start of the file. */
  lemma HomeNotZero(h: Header, b: Books)
    requires Tiled(h, b) && 512 <= h.blockSize && 512 <= h.bucketSize
    ensures 0 !in b.tabs
  {
    OneOwner(h, b, 0);
    if 0 in b.tabs {
      HomesTake(b.tabs.Keys, h.bucketSize, 0, 0);
    }
  }

  // ----- writing a bucket back

  lemma HomeWriteKeeps(f: File, h: Header, b: Books, hc: bool, a: nat, img: Image)
    requires Tiled(h, b) && a in b.tabs
    ensures KeepsProtected(f, WriteAt(f, a, Encode(img, h.bucketSize)), h, b.(dirty := b.dirty + {a}), hc)
  {
    var b1 := b.(dirty := b.dirty + {a});
    forall x | 0 <= x < |f| && Protected(h, b1, hc, x)
      ensures WriteAt(f, a, Encode(img, h.bucketSize))[x] == f[x]
    {
      if a <= x < a + h.bucketSize {
        hide Homes, Records, FreeIn, StackCover, Cover, Protected;
        OneOwner(h, b, x);
        ProtectedOwned(h, b1, hc, x);
        HomesMono(b.tabs.Keys - b1.dirty, b.tabs.Keys - {a}, h.bucketSize, x);
        HomesTake(b.tabs.Keys, h.bucketSize, a, x);
      }
    }
  }

  lemma HomeWriteChain(f: File, h: Header, b: Books, a: nat, img: Image)
    requires Tiled(h, b) && a in b.tabs
    requires ChainOk(f, h.avail.nextBlock, b.stack, h.avail.size)
    ensures ChainOk(WriteAt(f, a, Encode(img, h.bucketSize)), h.avail.nextBlock, b.stack, h.avail.size)
  {
    var g := WriteAt(f, a, Encode(img, h.bucketSize));
    forall x | 0 <= x < |f| && StackCover(b.stack, h.avail.size, x) > 0
      ensures x < |g| && g[x] == f[x]
    {
      hide Homes, Records, FreeIn, StackCover, Cover;
      OneOwner(h, b, x);
      HomesTake(b.tabs.Keys, h.bucketSize, a, x);
    }
    ChainFrame(f, g, h.avail.nextBlock, b.stack, h.avail.size);
  }

  /** Writing a bucket to its own place makes it clean and disturbs nothing. */
  lemma WriteBack(f: File, h: Header, dir: seq<nat>, b: Books, hc: bool, a: nat)
    requires Sound(f, h, dir, b, hc) && a in b.tabs && a in b.avs
    ensures var g := WriteAt(f, a, Encode(BucketImage(Bucket(b.avs[a], b.tabs[a])), h.bucketSize));
            && Sound(g, h, dir, b.(dirty := b.dirty - {a}), hc)
            && forall s :: s in b.slots ==> SameRecord(f, g, s)
  {
    var img := BucketImage(Bucket(b.avs[a], b.tabs[a]));
    var g := WriteAt(f, a, Encode(img, h.bucketSize));
    var b1, b2 := b.(dirty := b.dirty + {a}), b.(dirty := b.dirty - {a});
    HomeWriteKeeps(f, h, b, hc, a, img);
    HomeWriteChain(f, h, b, a, img);
    WriteHolds(f, a, img, h.bucketSize);
    assert Tiled(h, b2) by {
      hide Homes, Records, FreeIn, StackCover, Cover;
      forall x: nat ensures Owners(h, b2, x) == if x < h.nextBlock then 1 else 0 {
        assert Owners(h, b2, x) == Owners(h, b, x);
      }
    }
    hide Protected, Holds, GoodList, ChainOk, Tiled, ContentOk, SameRecord;
    FrameImages(f, g, h, dir, b1, hc);
    FrameContent(f, g, h, b1, hc);
  }

  // ----- writing the directory and the header

  lemma FixedWriteChain(f: File, h: Header, b: Books, a: nat, n: nat, img: Image)
    requires Tiled(h, b) && forall x: nat :: In(Avail(n, a), x) <= Fixed(h, x)
    requires ChainOk(f, h.avail.nextBlock, b.stack, h.avail.size)
    ensures ChainOk(WriteAt(f, a, Encode(img, n)), h.avail.nextBlock, b.stack, h.avail.size)
  {
    var g := WriteAt(f, a, Encode(img, n));
    forall x | 0 <= x < |f| && StackCover(b.stack, h.avail.size, x) > 0
      ensures x < |g| && g[x] == f[x]
    {
      hide Homes, Records, FreeIn, StackCover, Cover, Fixed;
      OneOwner(h, b, x);
      assert In(Avail(n, a), x) <= Fixed(h, x);
    }
    ChainFrame(f, g, h.avail.nextBlock, b.stack, h.avail.size);
  }

  lemma DirtyTiled(h: Header, b: Books, c: Books)
    requires Tiled(h, b) && c == b.(dirty := c.dirty, dirStale := c.dirStale)
    ensures Tiled(h, c)
  {
    hide Homes, Records, FreeIn, StackCover, Cover;
    forall x: nat ensures Owners(h, c, x) == if x < h.nextBlock then 1 else 0 {
      assert Owners(h, c, x) == Owners(h, b, x);
    }
  }

  lemma FixedWriteKeeps(f: File, h: Header, b: Books, hc: bool, a: nat, n: nat, img: Image)
    requires Tiled(h, b)
    requires (b.dirStale && a == h.dir && n == h.dirSize) || (hc && a == 0 && n == h.blockSize)
    ensures KeepsProtected(f, WriteAt(f, a, Encode(img, n)), h, b, hc)
  {
    forall x | 0 <= x < |f| && Protected(h, b, hc, x)
      ensures WriteAt(f, a, Encode(img, n))[x] == f[x]
    {
      hide Homes, Records, FreeIn, StackCover, Cover, Protected;
      OneOwner(h, b, x);
      HomesMono(b.tabs.Keys - b.dirty, b.tabs.Keys, h.bucketSize, x);
      ProtectedOwned(h, b, hc, x);
    }
  }

  /** Writing the directory to its place. */
  lemma WriteDirectory(f: File, h: Header, dir: seq<nat>, b: Books, hc: bool)
    requires Sound(f, h, dir, b, hc) && h.dirSize > 0
    ensures var g := WriteAt(f, h.dir, Encode(DirImage(dir), h.dirSize));
            && Sound(g, h, dir, b.(dirStale := false), hc)
            && forall s :: s in b.slots ==> SameRecord(f, g, s)
  {
    var img := DirImage(dir);
    var g := WriteAt(f, h.dir, Encode(img, h.dirSize));
    var b1, b2 := b.(dirStale := true), b.(dirStale := false);
    DirtyTiled(h, b, b1);
    DirtyTiled(h, b, b2);
    FixedWriteKeeps(f, h, b1, hc, h.dir, h.dirSize, img);
    FixedWriteChain(f, h, b, h.dir, h.dirSize, img);
    WriteHolds(f, h.dir, img, h.dirSize);
    hide Protected, Holds, GoodList, ChainOk, Tiled, ContentOk, SameRecord;
    FrameImages(f, g, h, dir, b1, hc);
    FrameContent(f, g, h, b1, hc);
  }

  /** Writing the header to the start of the file. */
  lemma WriteHeader(f: File, h: Header, dir: seq<nat>, b: Books, hc: bool)
    requires Sound(f, h, dir, b, hc)
    ensures var g := WriteAt(f, 0, Encode(HeaderImage(h), h.blockSize));
            && Sound(g, h, dir, b, false)
            && forall s :: s in b.slots ==> SameRecord(f, g, s)
  {
    var img := HeaderImage(h);
    var g := WriteAt(f, 0, Encode(img, h.blockSize));
    FixedWriteKeeps(f, h, b, true, 0, h.blockSize, img);
    FixedWriteChain(f, h, b, 0, h.blockSize, img);
    WriteHolds(f, 0, img, h.blockSize);
    hide Protected, Holds, GoodList, ChainOk, Tiled, ContentOk, SameRecord;
    FrameImages(f, g, h, dir, b, true);
    FrameContent(f, g, h, b, true);
  }

  lemma WrittenSlot(f: File, g: File, cache: seq<CacheElem>, b: Books, i: nat, open: int)
    requires Coherent(f, cache, b, open) && i < |cache| && cache[i].adr != 0
    requires SlotsListed(b) && forall s :: s in b.slots ==> SameRecord(f, g, s)
    ensures var e := cache[i].(changed := false, data := cache[i].data.(hash := -1, elemLoc := -1));
            Coherent(g, cache[i := e], b.(dirty := b.dirty - {cache[i].adr}), open)
  {
    hide SameRecord, RecordOf;
    var e := cache[i].(changed := false, data := cache[i].data.(hash := -1, elemLoc := -1));
    var c2, b2 := cache[i := e], b.(dirty := b.dirty - {cache[i].adr});
    DataFrame(f, g, cache, b);
    forall a | a in b2.dirty
      ensures exists j :: 0 <= j < |c2| && c2[j].adr == a && (c2[j].changed || j == open)
    {
      var j :| 0 <= j < |cache| && cache[j].adr == a && (cache[j].changed || j == open);
      assert c2[j] == cache[j];
    }
    forall j | 0 <= j < |c2| && c2[j].adr != 0
      ensures Matches(c2[j], b2)
    {
      assert Matches(cache[j], b);
    }
  }

  /** Every element of every bucket is among the known records. */
  ghost predicate SlotsListed(b: Books) {
    forall a, j | a in b.tabs && 0 <= j < |b.tabs[a].table| && Occ(b.tabs[a].table, j) :: b.tabs[a].table[j] in b.slots
  }

  lemma DataFrame(f: File, g: File, cache: seq<CacheElem>, b: Books)
    requires CacheOk(cache, b) && DataOk(f, cache) && SlotsListed(b)
    requires forall s :: s in b.slots ==> SameRecord(f, g, s)
    ensures DataOk(g, cache)
  {
    hide RecordOf, KeyOf, DataOf, IsRaw;
    forall i | 0 <= i < |cache| && cache[i].adr != 0 && !cache[i].changed && cache[i].data.elemLoc != -1
      ensures DataFits(g, cache[i])
    {
      assert DataFits(f, cache[i]) && Matches(cache[i], b);
      var j := cache[i].data.elemLoc;
      assert Occ(b.tabs[cache[i].adr].table, j);
      assert SameRecord(f, g, cache[i].bucket.core.table[j]);
    }
  }

  /** Replacing a clean slot by a bucket that is not cached. */
  lemma LoadedSlot(f: File, cache: seq<CacheElem>, b: Books, i: nat, e: CacheElem, open: int)
    requires Coherent(f, cache, b, open) && i != open && i < |cache| && !cache[i].changed
    requires e.adr != 0 && Matches(e, b) && !e.changed && e.data.elemLoc == -1
    requires forall j :: 0 <= j < |cache| ==> cache[j].adr != e.adr
    ensures Coherent(f, cache[i := e], b, open)
  {
    hide Matches, DataFits;
    var c2 := cache[i := e];
    forall a | a in b.dirty
      ensures exists j :: 0 <= j < |c2| && c2[j].adr == a && (c2[j].changed || j == open)
    {
      var j :| 0 <= j < |cache| && cache[j].adr == a && (cache[j].changed || j == open);
      assert c2[j] == cache[j];
    }
  }
}
