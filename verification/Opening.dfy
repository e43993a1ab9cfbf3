/** The empty database file, and what a file on disk determines. */
module Opening {
  import opened Base
  import opened StringHash
  import opened Layout
  import opened FreeList
  import opened HashTable
  import opened Directory
  import opened Space
  import opened Ledger
  import opened State
  import opened Lookup

  /** The file alone is a complete database. */
  ghost predicate OnDisk(f: File, h: Header, dir: seq<nat>, b: Books) {
    && b.held == [] && b.dirty == {} && !b.dirStale
    && Mapped(dir, h, b) && Sound(f, h, dir, b, false)
  }

  // ----- the initial layout

  /** The block size gives a directory of exactly one block: it is 8 * 2^k with k at least 3. */
  predicate GoodBlockSize(size: nat, bits: nat) {
    3 <= bits <= 31 && size == SIZEOF_OFF * Pow2(bits)
  }

  /** Double the directory until it fills a block; `ok` if it fills it exactly. */
  method DirectoryBits(size: nat) returns (bits: nat, ok: bool)
    requires 512 <= size < HASH_LIMIT
    ensures ok ==> GoodBlockSize(size, bits)
    ensures !ok ==> forall k :: !GoodBlockSize(size, k)
  {
    var dirSize := 8 * SIZEOF_OFF;
    bits := 3;
    Pow2At31();
    while dirSize < size
      invariant 3 <= bits <= 31 && dirSize == SIZEOF_OFF * Pow2(bits)
      invariant bits == 3 || SIZEOF_OFF * Pow2(bits - 1) < size
      decreases 31 - bits
    {
      if bits == 31 {
        assert false;
      }
      dirSize := dirSize * 2;
      bits := bits + 1;
    }
    ok := dirSize == size;
    if !ok {
      forall k | 3 <= k <= 31
        ensures !GoodBlockSize(size, k)
      {
        if k < bits {
          Pow2Mono(k, bits - 1);
        } else {
          Pow2Mono(bits, k);
        }
      }
    }
  }

  lemma SizeAccepted(size: nat)
    ensures (exists bits :: GoodBlockSize(size, bits)) <==> exists k :: 3 <= k <= 31 && size == 8 * Pow2(k)
  {
    if bits :| GoodBlockSize(size, bits) {
      assert 3 <= bits <= 31 && size == 8 * Pow2(bits);
    }
    if k :| 3 <= k <= 31 && size == 8 * Pow2(k) {
      assert GoodBlockSize(size, k);
    }
  }

  /** The block size of a new file: the caller's, unless it is too small. */
  function FileBlockSize(blockSize: nat, statBlockSize: nat): (size: nat)
    ensures statBlockSize >= 512 ==> size >= 512
  {
    if blockSize < 512 then statBlockSize else blockSize
  }

  /** The number of elements of a bucket that takes one block. */
  function BucketElems(size: nat): (n: nat)
    ensures size >= SIZEOF_BUCKET ==>
              n > 0 && SIZEOF_BUCKET + (n - 1) * SIZEOF_ELEMENT <= size < SIZEOF_BUCKET + n * SIZEOF_ELEMENT
  {
    if size < SIZEOF_BUCKET then 0 else (size - SIZEOF_BUCKET) / SIZEOF_ELEMENT + 1
  }

  /** The capacity of the free table in a header that takes one block. */
  function HeaderCapacity(size: nat): (n: nat)
    requires size >= SIZEOF_HEADER
    ensures n > 0 && SIZEOF_HEADER + (n - 1) * SIZEOF_AVAIL_ELEM <= size < SIZEOF_HEADER + n * SIZEOF_AVAIL_ELEM
  {
    (size - SIZEOF_HEADER) / SIZEOF_AVAIL_ELEM + 1
  }

  function InitialHeader(size: nat, bits: nat): Header
    requires 512 <= size
  {
    Header(HEADER_MAGIC, size, size, size, bits, size, BucketElems(size), 4 * size,
           AvailBlock(HeaderCapacity(size), 0, []))
  }

  lemma InitialElems(size: nat, bits: nat)
    requires 512 <= size
    ensures var h := InitialHeader(size, bits);
            && h.blockSize == size && h.bucketElems == BucketElems(size) && h.avail.size == HeaderCapacity(size)
  {
  }

  function InitialDir(size: nat, bits: nat): seq<nat> {
    seq(Pow2(bits), _ => 2 * size)
  }

  /** Header, directory, bucket, one after the other. */
  function InitialFile(size: nat, h: Header, dir: seq<nat>, bucket: Bucket): File {
    Encode(HeaderImage(h), size) + Encode(DirImage(dir), size) + Encode(BucketImage(bucket), size)
  }

  ghost function InitialBooks(size: nat, bucket: Bucket): Books {
    Books(map[2 * size := bucket.core], map[2 * size := 0], map[2 * size := bucket.avail],
          multiset{}, [], [], [], [], {}, false, map[])
  }

  ghost predicate InitialBucket(size: nat, n: nat, bucket: Bucket) {
    && bucket.avail == [Avail(size, 3 * size)]
    && bucket.core.bits == 0 && bucket.core.count == 0 && |bucket.core.table| == n
    && OccBag(bucket.core.table) == multiset{} && ProbeOk(bucket.core.table)
  }

  lemma InitialTiled(size: nat, bits: nat, bucket: Bucket)
    requires 512 <= size && bucket.avail == [Avail(size, 3 * size)]
    ensures Tiled(InitialHeader(size, bits), InitialBooks(size, bucket))
  {
    var h, b := InitialHeader(size, bits), InitialBooks(size, bucket);
    forall x: nat
      ensures Owners(h, b, x) == if x < h.nextBlock then 1 else 0
    {
      HomesTake(b.tabs.Keys, size, 2 * size, x);
      assert b.tabs.Keys - {2 * size} == {};
      FreeTake(b.avs, 2 * size, x);
      assert b.avs - {2 * size} == map[];
      assert Cover(bucket.avail, x) == In(Avail(size, 3 * size), x) + Cover([], x);
    }
  }

  lemma InitialMapped(size: nat, bits: nat, bucket: Bucket)
    requires 512 <= size && GoodBlockSize(size, bits)
    requires InitialBucket(size, InitialHeader(size, bits).bucketElems, bucket)
    ensures Mapped(InitialDir(size, bits), InitialHeader(size, bits), InitialBooks(size, bucket))
  {
    hide ProbeOk, OccBag;
    var h, b, dir := InitialHeader(size, bits), InitialBooks(size, bucket), InitialDir(size, bits);
    forall i, a | 0 <= i < |dir| && a in b.tabs
      ensures dir[i] == a <==> Block(i, bits, 0) == 0
    {
      DivBelow(i, Pow2(bits), 1);
      assert Block(i, bits, 0) == i / Pow2(bits);
    }
    AllTake(b.tabs, 2 * size);
    assert b.tabs - {2 * size} == map[];
    assert CoreOk(bucket.core, 0, h.bucketElems);
  }

  lemma InitialImages(size: nat, bits: nat, bucket: Bucket)
    requires 512 <= size
    ensures var h, dir := InitialHeader(size, bits), InitialDir(size, bits);
            ImagesOk(InitialFile(size, h, dir, bucket), h, dir, InitialBooks(size, bucket), false)
  {
    var h, dir := InitialHeader(size, bits), InitialDir(size, bits);
    var f := InitialFile(size, h, dir, bucket);
    assert Holds(f, 0, HeaderImage(h), size);
    assert Holds(f, size, DirImage(dir), size);
    assert Holds(f, 2 * size, BucketImage(bucket), size);
    assert bucket == Bucket(bucket.avail, bucket.core);
  }

  /** The file that is written for a new database is a complete, empty database. */
  lemma InitialOnDisk(size: nat, bits: nat, bucket: Bucket)
    requires 512 <= size && GoodBlockSize(size, bits)
    requires InitialBucket(size, InitialHeader(size, bits).bucketElems, bucket)
    ensures var h, dir := InitialHeader(size, bits), InitialDir(size, bits);
            OnDisk(InitialFile(size, h, dir, bucket), h, dir, InitialBooks(size, bucket))
  {
    hide InitialFile, Tiled, Mapped, ImagesOk, Geometry, ProbeOk, OccBag;
    var h, dir, b := InitialHeader(size, bits), InitialDir(size, bits), InitialBooks(size, bucket);
    InitialTiled(size, bits, bucket);
    InitialMapped(size, bits, bucket);
    InitialImages(size, bits, bucket);
    InitialGeometry(size, bits);
  }

  lemma InitialGeometry(size: nat, bits: nat)
    requires 512 <= size && GoodBlockSize(size, bits)
    ensures Geometry(InitialHeader(size, bits))
  {
  }

  // ----- a file determines its contents

  lemma OnDiskHeader(f: File, h: Header, dir: seq<nat>, b: Books)
    requires OnDisk(f, h, dir, b)
    ensures Holds(f, 0, HeaderImage(h), h.blockSize) && Holds(f, h.dir, DirImage(dir), h.dirSize)
    ensures 512 <= h.blockSize && 0 < h.dirSize && h.magic == HEADER_MAGIC && ContentOk(f, b.slots, b.contents)
  {
    hide Mapped, Tiled, ContentOk, ChainOk, GoodList, Holds;
  }

  lemma OnDiskBucket(f: File, h: Header, dir: seq<nat>, b: Books, a: nat)
    requires a in b.tabs && OnDisk(f, h, dir, b)
    ensures a in b.avs && Holds(f, a, BucketImage(Bucket(b.avs[a], b.tabs[a])), h.bucketSize) && 0 < h.bucketSize
  {
    hide Mapped, Tiled, ContentOk, ChainOk, GoodList, Holds;
  }

  lemma OnDiskKeys(f: File, h: Header, dir: seq<nat>, b: Books)
    requires OnDisk(f, h, dir, b)
    ensures b.tabs.Keys == set a | a in dir
  {
    hide Sound, TabsOk;
    forall a | a in b.tabs
      ensures a in dir
    {
      var i := EveryBucketListed(dir, h.dirBits, b.tabs, b.pre, a);
    }
  }

  /** The chain of blocks from an address is determined by the file. */
  lemma {:induction false} ChainUnique(f: File, next: nat, s: seq<StackEntry>, t: seq<StackEntry>, size: nat)
    requires ChainOk(f, next, s, size) && ChainOk(f, next, t, size)
    ensures s == t
    decreases |s|
  {
    if s != [] && t != [] {
      hide GoodList, HalfSize, Holds;
      HalfSizePositive(size);
      HoldsUnique(f, next, AvailImage(s[0].block), AvailImage(t[0].block), HalfSize(size));
      ChainUnique(f, s[0].block.nextBlock, s[1..], t[1..], size);
      assert s == [s[0]] + s[1..] && t == [t[0]] + t[1..];
    }
  }

  lemma OnDiskChain(f: File, h: Header, dir: seq<nat>, b: Books)
    requires OnDisk(f, h, dir, b)
    ensures ChainOk(f, h.avail.nextBlock, b.stack, h.avail.size)
  {
    hide Mapped, Tiled, ContentOk, ChainOk, ImagesOk;
  }

  /** Whatever logical database a file is read as, the buckets, the free space and the map are the same. */
  lemma FileDeterminesMap(f: File, h: Header, dir: seq<nat>, b: Books, h': Header, dir': seq<nat>, c: Books)
    requires OnDisk(f, h, dir, b) && OnDisk(f, h', dir', c)
    ensures h == h' && dir == dir' && b.tabs == c.tabs && b.slots == c.slots && b.contents == c.contents
    ensures b.avs == c.avs && b.stack == c.stack
  {
    hide OnDisk;
    OnDiskHeader(f, h, dir, b);
    OnDiskHeader(f, h', dir', c);
    assert f[0] == Part(HeaderImage(h), 0);
    assert f[h.dir] == Part(DirImage(dir), 0);
    OnDiskKeys(f, h, dir, b);
    OnDiskKeys(f, h, dir, c);
    SameBuckets(f, h, dir, b, c);
    OnDiskChain(f, h, dir, b);
    OnDiskChain(f, h, dir, c);
    ChainUnique(f, h.avail.nextBlock, b.stack, c.stack, h.avail.size);
    SameSlots(f, h, dir, b, c);
    SameMap(f, b.slots, b.contents, c.contents);
  }

  lemma SameBuckets(f: File, h: Header, dir: seq<nat>, b: Books, c: Books)
    requires b.tabs.Keys == c.tabs.Keys && OnDisk(f, h, dir, b) && OnDisk(f, h, dir, c)
    ensures b.tabs == c.tabs && b.avs == c.avs
  {
    hide OnDisk, Holds;
    OnDiskAvails(f, h, dir, b);
    OnDiskAvails(f, h, dir, c);
    forall a | a in b.tabs
      ensures a in b.avs && a in c.avs && b.tabs[a] == c.tabs[a] && b.avs[a] == c.avs[a]
    {
      OnDiskBucket(f, h, dir, b, a);
      OnDiskBucket(f, h, dir, c, a);
      HoldsUnique(f, a, BucketImage(Bucket(b.avs[a], b.tabs[a])), BucketImage(Bucket(c.avs[a], c.tabs[a])),
                  h.bucketSize);
    }
  }

  lemma OnDiskAvails(f: File, h: Header, dir: seq<nat>, b: Books)
    requires OnDisk(f, h, dir, b)
    ensures b.tabs.Keys == b.avs.Keys
  {
    hide Mapped, Tiled, ContentOk, ChainOk, ImagesOk;
  }

  lemma SameSlots(f: File, h: Header, dir: seq<nat>, b: Books, c: Books)
    requires b.tabs == c.tabs && OnDisk(f, h, dir, b) && OnDisk(f, h, dir, c)
    ensures b.slots == c.slots
  {
    hide Sound;
  }

  lemma SameMap(f: File, slots: multiset<Slot>, m: map<Bytes, Bytes>, m': map<Bytes, Bytes>)
    requires ContentOk(f, slots, m) && ContentOk(f, slots, m')
    ensures m == m'
  {
    hide RecOk, KeyOf, DataOf;
    forall k | k in m
      ensures k in m' && m'[k] == m[k]
    {
      var s :| s in slots && KeyOf(f, s) == k;
    }
    forall k | k in m'
      ensures k in m
    {
      var s :| s in slots && KeyOf(f, s) == k;
    }
  }

  // ----- what an image needs

  /** The bytes that a free table of n entries takes behind a record of `fixed` bytes that has room for one. */
  function TableBytes(fixed: nat, entry: nat, n: nat): int {
    fixed + (n - 1) * entry
  }

  lemma {:induction false} StackFits(f: File, next: nat, stack: seq<StackEntry>, size: nat)
    requires ChainOk(f, next, stack, size)
    ensures forall i :: 0 <= i < |stack| ==>
              TableBytes(SIZEOF_AVAIL_BLOCK, SIZEOF_AVAIL_ELEM, |stack[i].block.table|) <= HalfSize(size)
    decreases |stack|
  {
    hide Holds, GoodList;
    if stack != [] {
      StackFits(f, stack[0].block.nextBlock, stack[1..], size);
      assert forall i :: 0 < i < |stack| ==> stack[i] == stack[1..][i - 1];
    }
  }

  /** In any database, the entries of every record fit into the bytes that are written for it. */
  lemma RecordsFit(f: File, h: Header, dir: seq<nat>, b: Books, hc: bool)
    requires Mapped(dir, h, b) && Sound(f, h, dir, b, hc)
    ensures TableBytes(SIZEOF_HEADER, SIZEOF_AVAIL_ELEM, |h.avail.table|) <= h.blockSize
    ensures SIZEOF_OFF * |dir| <= h.dirSize
    ensures forall a :: a in b.tabs ==> TableBytes(SIZEOF_BUCKET, SIZEOF_ELEMENT, |b.tabs[a].table|) <= h.bucketSize
    ensures forall i :: 0 <= i < |b.stack| ==>
              TableBytes(SIZEOF_AVAIL_BLOCK, SIZEOF_AVAIL_ELEM, |b.stack[i].block.table|) <= HalfSize(h.avail.size)
  {
    hide Tiled, ContentOk, ImagesOk, ChainOk, GoodList, Pow2, ProbeOk, PrefixOk, OccBag;
    StackFits(f, h.avail.nextBlock, b.stack, h.avail.size);
    forall a | a in b.tabs
      ensures |b.tabs[a].table| == h.bucketElems
    {
      assert CoreOk(b.tabs[a], b.pre[a], h.bucketElems);
    }
  }
}
