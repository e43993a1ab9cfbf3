/** The database engine: one open file with its header, directory and bucket cache. */
module Engine {
  import opened Base
  import opened StringHash
  import opened Layout
  import opened FreeList
  import opened HashTable
  import opened Directory
  import opened Space
  import opened Ledger
  import opened State
  import opened Steps
  import opened Caching
  import opened Lookup
  import opened Updates
  import opened Splitting
  import opened Room
  import opened Iteration
  import opened Opening
  import opened EngineFacts

  class Gdbm {
    const writer: bool

    var file: File
    var hdr: Header
    var dir: seq<nat>
    var cache: seq<CacheElem>     // empty until the cache is initialized
    var lastRead: int
    var cur: nat                  // the slot of the current bucket
    var bucketDir: nat            // the directory entry it was reached by
    var headerChanged: bool
    var directoryChanged: bool
    var bucketChanged: bool
    var secondChanged: bool

    ghost var books: Books

    // ----- opening (gdbmopen.c)

    /** A handle on a file that is a complete database; the cache is not there yet. */
    constructor Attach(f: File, h: Header, d: seq<nat>, w: bool, ghost b: Books)
      requires OnDisk(f, h, d, b)
      ensures file == f && hdr == h && dir == d && writer == w && books == b && cache == []
      ensures Valid()
    {
      file, hdr, dir, writer, cache := f, h, d, w, [];
      lastRead, cur, bucketDir := -1, 0, 0;
      headerChanged, directoryChanged, bucketChanged, secondChanged := false, false, false, false;
      books := b;
      new;
      hide Sound, Mapped;
      MappedListed(dir, hdr, books);
    }

    /** Between operations the file is a complete database with the contents of the books. */
    lemma ValidOnDisk()
      requires Valid()
      ensures OnDisk(file, hdr, dir, books)
    {
      hide Sound, Mapped, Coherent, SlotsListed;
    }

    /** `gdbm_setopt` with GDBM_CACHESIZE: at least ten slots, and only before the first use. */
    method SetCacheSize(size: int) returns (rc: int)
      requires Valid()
      modifies this`cache, this`cur
      ensures rc == if old(cache) == [] then 0 else -1
      ensures rc == 0 ==> |cache| == if size > 9 then size else 10
      ensures Valid()
    {
      hide Sound, Mapped, SlotsListed;
      if cache != [] {
        return -1;
      }
      InitCache(if size > 9 then size else 10);
      return 0;
    }

    // ----- free space (falloc.c)

    ghost function Sp(): Space
      requires cur < |cache|
      reads this
    {
      Space(file, hdr, cache[cur].bucket.avail, books.stack, books.scraps, books.dropped)
    }

    method SetAvail(av: seq<AvailElem>)
      requires cur < |cache|
      modifies this`cache
      ensures cache == WithAvail(old(cache), cur, av)
    {
      cache := cache[cur := cache[cur].(bucket := cache[cur].bucket.(avail := av))];
    }

    /** Extend the file by whole blocks, enough for `size` bytes. */
    method GetBlock(size: nat) returns (val: AvailElem)
      requires 0 < hdr.blockSize
      modifies this`hdr, this`headerChanged
      ensures val.adr == old(hdr.nextBlock) && size <= val.size && 0 < val.size
      ensures val.size == WholeBlocks(hdr.blockSize, size, hdr.blockSize)
      ensures exists k: nat :: val.size == k * hdr.blockSize
      ensures val.size == hdr.blockSize || val.size - hdr.blockSize < size
      ensures hdr == old(hdr).(nextBlock := old(hdr.nextBlock) + val.size) && headerChanged
    {
      var total := hdr.blockSize;
      ghost var k := 1;
      while total < size
        invariant total == k * hdr.blockSize && 0 < total && (total == hdr.blockSize || total - hdr.blockSize < size)
        invariant WholeBlocks(total, size, hdr.blockSize) == WholeBlocks(hdr.blockSize, size, hdr.blockSize)
        decreases size - total
      {
        total := total + hdr.blockSize;
        k := k + 1;
      }
      val := Avail(total, hdr.nextBlock);
      hdr := hdr.(nextBlock := hdr.nextBlock + total);
      headerChanged := true;
    }

    /** Give the largest header entry to the current bucket. */
    method PullOne() returns (ghost moved: AvailElem)
      requires cur < |cache| && ListsOk(Sp())
      requires |hdr.avail.table| > 0 && |cache[cur].bucket.avail| < BUCKET_AVAIL
      modifies this`hdr, this`cache, this`bucketChanged
      ensures cur < |cache| && cache == WithAvail(old(cache), cur, cache[cur].bucket.avail)
      ensures |cache[cur].bucket.avail| == |old(cache[cur].bucket.avail)| + 1
      ensures ListsOk(Sp()) && Balanced(old(Sp()), Sp(), NOTHING, NOTHING)
      ensures Settled(old(Sp()), Sp(), 0) && bucketChanged
      ensures Moved(old(hdr.avail.table), old(cache[cur].bucket.avail), hdr.avail.table, cache[cur].bucket.avail, moved)
      ensures forall x :: x in old(hdr.avail.table) ==> x.size <= moved.size
    {
      LargestMoved(hdr.avail.table, cache[cur].bucket.avail);
      hide Balanced, ListsOk, Put, GoodList, Moved;
      ghost var s := Sp();
      var last := |hdr.avail.table| - 1;
      var e := hdr.avail.table[last];
      moved := e;
      EntryOk(s, last);
      TakeHeaderBalanced(s, last);
      hdr := hdr.(avail := hdr.avail.(table := hdr.avail.table[..last]));
      assert RemoveAt(s.hdr.avail.table, last) == hdr.avail.table;
      ghost var t := Sp();
      PutBucketBalanced(t, e);
      var av := PutSorted(e, cache[cur].bucket.avail, BUCKET_AVAIL);
      SetAvail(av);
      bucketChanged := true;
      BalancedTrans(s, t, Sp(), NOTHING, e, e, NOTHING, NOTHING, NOTHING);
    }

    /** Give the smallest entry of the current bucket to the header. */
    method PushOne() returns (ghost moved: AvailElem)
      requires cur < |cache| && ListsOk(Sp())
      requires |cache[cur].bucket.avail| > 0 && |hdr.avail.table| < hdr.avail.size
      modifies this`hdr, this`cache, this`bucketChanged
      ensures cur < |cache| && cache == WithAvail(old(cache), cur, cache[cur].bucket.avail)
      ensures |cache[cur].bucket.avail| == |old(cache[cur].bucket.avail)| - 1
      ensures ListsOk(Sp()) && Balanced(old(Sp()), Sp(), NOTHING, NOTHING)
      ensures Settled(old(Sp()), Sp(), 1) && bucketChanged
      ensures Moved(old(cache[cur].bucket.avail), old(hdr.avail.table), cache[cur].bucket.avail, hdr.avail.table, moved)
      ensures forall x :: x in old(cache[cur].bucket.avail) ==> moved.size <= x.size
    {
      SmallestMoved(cache[cur].bucket.avail, hdr.avail.table);
      hide Balanced, ListsOk, Put, GoodList, Moved;
      ghost var s := Sp();
      var e, av := TakeFit(0, cache[cur].bucket.avail);
      moved := e;
      BucketEntryOk(s, 0);
      TakeBucketBalanced(s, 0);
      SetAvail(av);
      ghost var t := Sp();
      PutHeaderBalanced(t, e);
      var table := PutSorted(e, hdr.avail.table, hdr.avail.size);
      hdr := hdr.(avail := hdr.avail.(table := table));
      bucketChanged := true;
      BalancedTrans(s, t, Sp(), NOTHING, e, e, NOTHING, NOTHING, NOTHING);
    }

    /** Move entries between the current bucket and the header so that the bucket is about half full. */
    method AdjustBucketAvail() returns (ghost pulled: multiset<AvailElem>, ghost pushed: multiset<AvailElem>)
      requires cur < |cache| && ListsOk(Sp())
      modifies this`hdr, this`cache, this`bucketChanged
      ensures cur < |cache| && cache == WithAvail(old(cache), cur, cache[cur].bucket.avail)
      ensures ListsOk(Sp()) && Balanced(old(Sp()), Sp(), NOTHING, NOTHING)
      ensures Settled(old(Sp()), Sp(), 2)
      ensures Leveled(|old(cache[cur].bucket.avail)|, |old(hdr.avail.table)|, |cache[cur].bucket.avail|,
                      |hdr.avail.table| == hdr.avail.size)
      ensures Evened(old(cache[cur].bucket.avail), old(hdr.avail.table), cache[cur].bucket.avail, hdr.avail.table,
                     pulled, pushed)
      ensures EvenedOut(Sp())
      ensures old(bucketChanged) ==> bucketChanged
    {
      hide Balanced, ListsOk, Put, RemoveAt, Evened, Moved;
      pulled, pushed := multiset{}, multiset{};
      NothingMoved(cache[cur].bucket.avail, hdr.avail.table);
      ghost var av, table := cache[cur].bucket.avail, hdr.avail.table;
      var third := BUCKET_AVAIL / 3;
      if |cache[cur].bucket.avail| < third {
        if |hdr.avail.table| > 0 {
          ghost var e := PullOne();
          PulledEvened(av, table, cache[cur].bucket.avail, hdr.avail.table, e);
          pulled := multiset{e};
        } else {
          BalancedSelf(Sp());
        }
        return;
      }
      BalancedSelf(Sp());
      ListsBounds(Sp());
      ghost var s := Sp();
      while |cache[cur].bucket.avail| > BUCKET_AVAIL - third && |hdr.avail.table| < hdr.avail.size
        invariant cur < |cache| && cache == WithAvail(old(cache), cur, cache[cur].bucket.avail)
        invariant ListsOk(Sp()) && Balanced(s, Sp(), NOTHING, NOTHING)
        invariant Settled(s, Sp(), |s.av| - |cache[cur].bucket.avail|) && |cache[cur].bucket.avail| <= |s.av|
        invariant |cache[cur].bucket.avail| == |s.av| || |cache[cur].bucket.avail| >= BUCKET_AVAIL - third
        invariant Evened(av, table, cache[cur].bucket.avail, hdr.avail.table, multiset{}, pushed)
        invariant old(bucketChanged) ==> bucketChanged
        decreases |cache[cur].bucket.avail|
      {
        ghost var t := Sp();
        ghost var e := PushOne();
        PushedEvened(av, table, t.av, t.hdr.avail.table, pushed, cache[cur].bucket.avail, hdr.avail.table, e);
        pushed := pushed + multiset{e};
        BalancedTrans(s, t, Sp(), NOTHING, NOTHING, NOTHING, NOTHING, NOTHING, NOTHING);
      }
      ListsBounds(Sp());
    }

    /** Put an extent in the current bucket. */
    method PutInBucket(e: AvailElem)
      requires cur < |cache| && ListsOk(Sp()) && e.size > IGNORE_SIZE && e.adr > 0
      requires |cache[cur].bucket.avail| < BUCKET_AVAIL
      modifies this`cache
      ensures cur < |cache| && cache == WithAvail(old(cache), cur, cache[cur].bucket.avail)
      ensures cache[cur].bucket.avail == Put(e, old(cache[cur].bucket.avail))
      ensures ListsOk(Sp()) && Balanced(old(Sp()), Sp(), e, NOTHING) && FileKept(old(Sp()), Sp(), e)
    {
      hide Balanced, ListsOk, Put, FileKept;
      ghost var s := Sp();
      PutBucketBalanced(s, e);
      var av := PutSorted(e, cache[cur].bucket.avail, BUCKET_AVAIL);
      SetAvail(av);
      FileKeptSelf(s, e);
      FileKeptSame(s, s, Sp(), e);
    }

    /** Take a large enough extent from the header table, or else from the end of the file. */
    method TakeFromHeader(n: nat) returns (e: AvailElem)
      requires cur < |cache| && ListsOk(Sp())
      modifies this`hdr, this`headerChanged
      ensures n <= e.size && 0 < e.size && 0 < e.adr
      ensures ListsOk(Sp()) && Balanced(old(Sp()), Sp(), NOTHING, e) && Unchained(old(Sp()), Sp())
      ensures old(headerChanged) ==> headerChanged
      ensures |hdr.avail.table| == old(|hdr.avail.table|) ==> headerChanged
      ensures hdr.avail.table == AfterFit(n, old(hdr.avail.table))
      ensures e == HeaderExtent(n, old(hdr)) && hdr == HeaderLess(n, old(hdr))
      ensures if Fits(n, old(hdr.avail.table))
              then BestFit(n, old(hdr.avail.table), e) && hdr.nextBlock == old(hdr.nextBlock)
              else e.adr == old(hdr.nextBlock) && (e.size == hdr.blockSize || e.size - hdr.blockSize < n)
    {
      hide Balanced, ListsOk;
      ghost var s := Sp();
      ListsBounds(s);
      ListsSorted(s);
      var table;
      BestFitIs(n, hdr.avail.table);
      e, table := TakeFit(n, hdr.avail.table);
      if e.size == 0 {
        NotFound(s, n, e);
        e := GetBlock(n);
        GrowBalanced(s, e.size);
      } else {
        EntryOk(s, FitIndex(n, hdr.avail.table));
        TakeHeaderBalanced(s, FitIndex(n, hdr.avail.table));
        hdr := hdr.(avail := hdr.avail.(table := table));
      }
    }

    /** Put an extent in the header table, pushing half the table first if it is full. */
    method PutInHeader(e: AvailElem)
      requires cur < |cache| && ListsOk(Sp()) && e.size > IGNORE_SIZE && e.adr > 0
      requires Apart(Sp(), e) && (|hdr.avail.table| == hdr.avail.size ==> Chained(Sp()))
      modifies this`file, this`hdr, this`cache, this`headerChanged, this`bucketChanged, this`books
      ensures cur < |cache| && cache == WithAvail(old(cache), cur, cache[cur].bucket.avail)
      ensures SpaceBooks(old(books), books) && headerChanged && (old(bucketChanged) ==> bucketChanged)
      ensures ListsOk(Sp()) && Balanced(old(Sp()), Sp(), e, NOTHING) && FileKept(old(Sp()), Sp(), e)
      ensures old(Chained(Sp())) ==> Chained(Sp())
      ensures |books.dropped| <= |old(books.dropped)| + 1 && |books.scraps| <= |old(books.scraps)| + 1
      ensures books.dropped == old(books.dropped) + PushDrops(old(hdr.avail))
      ensures books.scraps == old(books.scraps) + PushScraps(old(hdr))
      ensures old(|hdr.avail.table| < hdr.avail.size) ==>
                Settled(old(Sp()), Sp(), 1) && cache == old(cache) && hdr.avail.table == Put(e, old(hdr.avail.table))
      decreases |hdr.avail.table|, 1
    {
      hide Balanced, ListsOk, Put, Apart, FileKept, ChainOk;
      ghost var s := Sp();
      BalancedSelf(s);
      FileKeptSelf(s, e);
      ListsBounds(s);
      if |hdr.avail.table| == hdr.avail.size {
        ApartLess(s, e);
        PushAvailBlock();
        FileKeptMore(s, Sp(), e);
      }
      ghost var t := Sp();
      PutHeaderBalanced(t, e);
      var table := PutSorted(e, hdr.avail.table, hdr.avail.size);
      hdr := hdr.(avail := hdr.avail.(table := table));
      headerChanged := true;
      BalancedTrans(s, t, Sp(), NOTHING, e, NOTHING, NOTHING, e, NOTHING);
      FileKeptSame(s, t, Sp(), e);
    }

    /** Make an extent available for reuse. */
    method FreeSpace(adr: nat, n: nat)
      requires cur < |cache| && ListsOk(Sp()) && (n > IGNORE_SIZE ==> adr > 0)
      requires Apart(Sp(), Avail(n, adr)) && (|hdr.avail.table| == hdr.avail.size ==> Chained(Sp()))
      modifies this`file, this`hdr, this`cache, this`headerChanged, this`bucketChanged, this`books
      ensures cur < |cache| && cache == WithAvail(old(cache), cur, cache[cur].bucket.avail)
      ensures SpaceBooks(old(books), books)
      ensures old(headerChanged) ==> headerChanged
      ensures hdr != old(hdr) ==> headerChanged
      ensures old(bucketChanged) ==> bucketChanged
      ensures ListsOk(Sp()) && Balanced(old(Sp()), Sp(), Avail(n, adr), NOTHING)
      ensures FileKept(old(Sp()), Sp(), Avail(n, adr))
      ensures old(Chained(Sp())) ==> Chained(Sp())
      ensures |books.dropped| <= |old(books.dropped)| + 1 && |books.scraps| <= |old(books.scraps)| + 1
      ensures books.dropped == old(books.dropped)
              + ReleaseDrops(old(hdr), old(|cache[cur].bucket.avail|), Avail(n, adr))
      ensures books.scraps == old(books.scraps) + ReleaseScraps(old(hdr), old(|cache[cur].bucket.avail|), Avail(n, adr))
      ensures old(|hdr.avail.table| < hdr.avail.size) ==> Settled(old(Sp()), Sp(), 3)
      ensures IGNORE_SIZE < n < old(hdr.blockSize) && old(|cache[cur].bucket.avail|) < BUCKET_AVAIL
              && !old(headerChanged)
              ==> hdr == old(hdr) && !headerChanged
                  && cache[cur].bucket.avail == Put(Avail(n, adr), old(cache[cur].bucket.avail))
      ensures n > IGNORE_SIZE && (n >= old(hdr.blockSize) || old(|cache[cur].bucket.avail|) == BUCKET_AVAIL)
              ==> headerChanged
      ensures n > IGNORE_SIZE && headerChanged ==> EvenedOut(Sp())
      ensures ToHeader(old(hdr), old(|cache[cur].bucket.avail|), n) && old(|hdr.avail.table| < hdr.avail.size) ==>
                exists pulled, pushed ::
                  Evened(old(cache[cur].bucket.avail), Put(Avail(n, adr), old(hdr.avail.table)),
                         cache[cur].bucket.avail, hdr.avail.table, pulled, pushed)
      ensures n > IGNORE_SIZE && !ToHeader(old(hdr), old(|cache[cur].bucket.avail|), n) && old(headerChanged) ==>
                exists pulled, pushed ::
                  Evened(Put(Avail(n, adr), old(cache[cur].bucket.avail)), old(hdr.avail.table),
                         cache[cur].bucket.avail, hdr.avail.table, pulled, pushed)
      decreases |hdr.avail.table|, 2
    {
      hide Balanced, ListsOk, Put, Apart, FileKept, ChainOk, PushDrops, PushScraps, Evened;
      ghost var s := Sp();
      ghost var freed := Avail(n, adr);
      assert books.dropped + [] == books.dropped && books.scraps + [] == books.scraps;
      ListsBounds(s);
      if n <= IGNORE_SIZE {
        ScrapBalanced(s, freed);
        books := books.(scraps := books.scraps + [freed]);
        FileKeptSelf(s, freed);
        FileKeptSame(s, s, Sp(), freed);
        return;
      }
      var temp := Avail(n, adr);
      if n >= hdr.blockSize {
        PutInHeader(temp);
      } else if |cache[cur].bucket.avail| < BUCKET_AVAIL {
        PutInBucket(temp);
      } else {
        PutInHeader(temp);
      }
      ghost var t := Sp();
      if headerChanged {
        ghost var pulled, pushed := AdjustBucketAvail();
        BalancedTrans(s, t, Sp(), freed, NOTHING, NOTHING, NOTHING, freed, NOTHING);
        FileKeptSame(s, t, Sp(), freed);
      }
    }

    /** Move the odd entries of the header table to a new block, destined for `avAdr`. */
    method HalveHeader(avAdr: nat) returns (block: AvailBlock)
      requires cur < |cache| && ListsOk(Sp())
      modifies this`hdr, this`books
      ensures SpaceBooks(old(books), books) && books.scraps == old(books.scraps)
      ensures books.dropped == old(books.dropped) + LastIfOdd(old(hdr.avail.table))
      ensures Sp() == Halved(old(Sp()), avAdr) && books.stack == [StackEntry(avAdr, block)] + old(books.stack)
    {
      hide Evens, Odds, LastIfOdd;
      var table := hdr.avail.table;
      ListsBounds(Sp());
      var tab := new AvailElem[|table|](i requires 0 <= i < |table| => table[i]);
      assert tab[..|table|] == table;
      var temp := new AvailElem[hdr.avail.size / 2];
      var left, moved := SplitTable(tab, |table|, temp);
      block := AvailBlock(hdr.avail.size, hdr.avail.nextBlock, temp[..moved]);
      hdr := hdr.(avail := AvailBlock(hdr.avail.size, avAdr, tab[..left]));
      books := books.(stack := [StackEntry(avAdr, block)] + books.stack,
                      dropped := books.dropped + LastIfOdd(table));
    }

    /** Push every second entry of the full header table onto the avail stack. */
    method PushAvailBlock()
      requires cur < |cache| && ListsOk(Sp()) && |hdr.avail.table| == hdr.avail.size
      requires Chained(Sp()) && Apart(Sp(), NOTHING)
      modifies this`file, this`hdr, this`cache, this`headerChanged, this`bucketChanged, this`books
      ensures cur < |cache| && cache == WithAvail(old(cache), cur, cache[cur].bucket.avail)
      ensures SpaceBooks(old(books), books)
      ensures old(headerChanged) ==> headerChanged
      ensures old(bucketChanged) ==> bucketChanged
      ensures ListsOk(Sp()) && Chained(Sp()) && |hdr.avail.table| < hdr.avail.size
      ensures Balanced(old(Sp()), Sp(), NOTHING, NOTHING) && FileKept(old(Sp()), Sp(), NOTHING)
      ensures |books.dropped| <= |old(books.dropped)| + 1 && |books.scraps| <= |old(books.scraps)| + 1
      ensures |books.stack| == |old(books.stack)| + 1 && books.stack[1..] == old(books.stack)
      ensures books.stack[0].block.table == Odds(AfterFit(HalfSize(old(hdr.avail.size)), old(hdr.avail.table)))
      ensures books.dropped == old(books.dropped)
              + LastIfOdd(AfterFit(HalfSize(old(hdr.avail.size)), old(hdr.avail.table)))
      ensures books.scraps == old(books.scraps) + PushScraps(old(hdr))
      decreases |hdr.avail.table|, 0
    {
      hide Balanced, ListsOk, Put, Apart, FileKept, ChainOk, RemoveAt, Evens, Odds, LastIfOdd, HalfSize,
           Halved, Settled, Unchained, AfterFit, PushDrops, Fits, BestFit, EvenedOut,
           PushScraps, ReleaseDrops, ReleaseScraps, HeaderExtent, HeaderLess, Fragment, Evened, ToHeader;
      ghost var s0 := Sp();
      var avSize := HalfSize(hdr.avail.size);
      ListsBounds(s0);
      var newLoc := TakeFromHeader(avSize);
      ghost var s1 := Sp();
      var avAdr := newLoc.adr;

      var block := HalveHeader(avAdr);
      ghost var s2 := Sp();
      HalvedBalanced(s1, avAdr);
      HalvedSmaller(s0, s1, avAdr);

      PushApart(s0, s1, s2, newLoc, avSize);
      PushGivesUp(s0.hdr, newLoc, hdr, |cache[cur].bucket.avail|);
      FreeSpace(newLoc.adr + avSize, newLoc.size - avSize);
      ghost var s3 := Sp();
      file := WriteAt(file, avAdr, Encode(AvailImage(block), avSize));
      PushDone(s0, s1, s2, s3, Sp(), newLoc);
    }

    /** Load the half table on top of the avail stack into the empty header table. */
    method PopAvailBlock()
      requires cur < |cache| && ListsOk(Sp()) && Chained(Sp())
      requires hdr.avail.table == [] && hdr.avail.nextBlock != 0
      modifies this`file, this`hdr, this`headerChanged, this`books
      ensures SpaceBooks(old(books), books) && headerChanged && file == old(file)
      ensures books.dropped == old(books.dropped) && books.scraps == old(books.scraps) && hdr == Refilled(old(Sp()))
      ensures old(books.stack) != [] && books.stack == old(books.stack)[1..] && hdr.avail.table == Searched(old(Sp()))
      ensures ListsOk(Sp()) && Chained(Sp()) && Balanced(old(Sp()), Sp(), NOTHING, NOTHING)
    {
      hide Balanced, ListsOk, Put, HalfSize, GoodList;
      ghost var s := Sp();
      var temp := Avail(HalfSize(hdr.avail.size), hdr.avail.nextBlock);
      HalfSizePositive(hdr.avail.size);
      PoppedBalanced(s);
      hdr := hdr.(avail := file[temp.adr].img.block);
      headerChanged := true;
      books := books.(stack := books.stack[1..]);
      ghost var t := Sp();
      assert t == Popped(s);
      hide ChainOk;
      PutHeaderBalanced(t, temp);
      var table := PutSorted(temp, hdr.avail.table, hdr.avail.size);
      hdr := hdr.(avail := hdr.avail.(table := table));
      BalancedTrans(s, t, Sp(), NOTHING, temp, temp, NOTHING, NOTHING, NOTHING);
    }

    /** Take an extent from the current bucket, else from the header, else from the end of the file. */
    method TakeExtent(n: nat) returns (e: AvailElem)
      requires cur < |cache| && ListsOk(Sp()) && Chained(Sp())
      modifies this`file, this`hdr, this`cache, this`headerChanged, this`books
      ensures cur < |cache| && cache == WithAvail(old(cache), cur, cache[cur].bucket.avail)
      ensures SpaceBooks(old(books), books) && file == old(file)
      ensures books.dropped == old(books.dropped) && books.scraps == old(books.scraps)
      ensures old(headerChanged) ==> headerChanged
      ensures hdr != old(hdr) ==> headerChanged
      ensures n <= e.size && 0 < e.adr
      ensures e == Taken(old(Sp()), n) && hdr == TakenHeader(old(Sp()), n)
      ensures cache[cur].bucket.avail == AfterFit(n, old(cache[cur].bucket.avail))
      ensures Fits(n, old(cache[cur].bucket.avail)) ==>
                BestFit(n, old(cache[cur].bucket.avail), e) && hdr == old(hdr) && books.stack == old(books.stack)
      ensures !Fits(n, old(cache[cur].bucket.avail)) ==>
                && |books.stack|
                   == old(|books.stack|) - (if old(hdr.avail.table == [] && books.stack != []) then 1 else 0)
                && if Fits(n, Searched(old(Sp())))
                   then BestFit(n, Searched(old(Sp())), e) && hdr.nextBlock == old(hdr.nextBlock)
                   else e.adr == old(hdr.nextBlock) && (e.size == hdr.blockSize || e.size - hdr.blockSize < n)
      ensures ListsOk(Sp()) && Chained(Sp()) && Balanced(old(Sp()), Sp(), NOTHING, e)
    {
      hide Balanced, ListsOk, ChainOk, RemoveAt, Searched, BestFit, Fits, AfterFit;
      ghost var s := Sp();
      var rest;
      ListsSorted(s);
      StackLinked(s);
      BestFitIs(n, cache[cur].bucket.avail);
      e, rest := TakeFit(n, cache[cur].bucket.avail);
      if e.size == 0 {
        NotInBucket(s, n, e);
        if |hdr.avail.table| == 0 && hdr.avail.nextBlock != 0 {
          PopAvailBlock();
        } else {
          BalancedSelf(s);
        }
        ghost var t := Sp();
        e := TakeFromHeader(n);
        headerChanged := true;
        BalancedTrans(s, t, Sp(), NOTHING, NOTHING, NOTHING, e, NOTHING, e);
      } else {
        BucketEntryOk(s, FitIndex(n, cache[cur].bucket.avail));
        TakeBucketBalanced(s, FitIndex(n, cache[cur].bucket.avail));
        SetAvail(rest);
      }
    }

    /** Allocate n bytes of the file. */
    method AllocSpace(n: nat) returns (adr: nat)
      requires cur < |cache| && ListsOk(Sp()) && Chained(Sp()) && Apart(Sp(), NOTHING)
      modifies this`file, this`hdr, this`cache, this`headerChanged, this`bucketChanged, this`books
      ensures cur < |cache| && cache == WithAvail(old(cache), cur, cache[cur].bucket.avail)
      ensures SpaceBooks(old(books), books)
      ensures old(headerChanged) ==> headerChanged
      ensures hdr != old(hdr) ==> headerChanged
      ensures old(bucketChanged) ==> bucketChanged
      ensures adr > 0 && ListsOk(Sp()) && Chained(Sp())
      ensures Balanced(old(Sp()), Sp(), NOTHING, Avail(n, adr))
      ensures FileKept(old(Sp()), Sp(), NOTHING)
      ensures |books.dropped| <= |old(books.dropped)| + 1 && |books.scraps| <= |old(books.scraps)| + 1
      ensures var e, h := Taken(old(Sp()), n), TakenHeader(old(Sp()), n);
              var count := |AfterFit(n, old(cache[cur].bucket.avail))|;
              && adr == e.adr
              && books.dropped == old(books.dropped) + ReleaseDrops(h, count, Behind(e, n))
              && books.scraps == old(books.scraps) + ReleaseScraps(h, count, Behind(e, n))
    {
      hide Balanced, ListsOk, ChainOk, Apart, FileKept, Fits, BestFit, Searched, Settled, EvenedOut, Put;
      hide AfterFit, Taken, TakenHeader, ReleaseDrops, ReleaseScraps;
      ghost var s := Sp();
      var e := TakeExtent(n);
      ghost var t := Sp();
      adr := e.adr;
      ghost var rest := Avail(e.size - n, e.adr + n);
      AllocApart(s, t, e, n);
      FreeSpace(e.adr + n, e.size - n);
      AllocDone(s, t, Sp(), e, n);
    }

    /** The file is well formed, and the current bucket is a live one already marked stale on disk. */
    ghost predicate Ready()
      reads this
    {
      cur < |cache| && ReadyFor(file, hdr, dir, books, headerChanged, cache[cur])
    }

    /** `_gdbm_alloc`: n bytes that belong to nobody else. */
    method Alloc(n: nat) returns (adr: nat)
      requires Ready()
      modifies this`file, this`hdr, this`cache, this`headerChanged, this`bucketChanged, this`books
      ensures Ready() && adr > 0
      ensures cache == WithAvail(old(cache), cur, cache[cur].bucket.avail)
      ensures Allotted(old(books), books, cache[cur].adr, cache[cur].bucket.avail, old(books.held) + [Avail(n, adr)])
      ensures var e, h := Taken(old(Sp()), n), TakenHeader(old(Sp()), n);
              var count := |AfterFit(n, old(cache[cur].bucket.avail))|;
              && adr == e.adr
              && books.dropped == old(books.dropped) + ReleaseDrops(h, count, Behind(e, n))
              && books.scraps == old(books.scraps) + ReleaseScraps(h, count, Behind(e, n))
      ensures SameGeometry(old(hdr), hdr)
      ensures old(headerChanged) ==> headerChanged
      ensures old(bucketChanged) ==> bucketChanged
      ensures forall s :: s in books.slots ==> SameRecord(old(file), file, s)
    {
      hide Balanced, ListsOk, ChainOk, Apart, FileKept, Sound, HeldMoves, SameRecord;
      hide AfterFit, Taken, TakenHeader, ReleaseDrops, ReleaseScraps;
      ghost var a, b := cache[cur].adr, books;
      SpaceViewOk(file, hdr, dir, books, headerChanged, a);
      SoundTiled(file, hdr, dir, books, headerChanged);
      TiledApart(file, hdr, books, a, NOTHING);
      adr := AllocSpace(n);
      AddHeld(b, Avail(n, adr));
      SpaceStep(old(file), old(hdr), dir, b, old(headerChanged), a, Sp(), NOTHING, Avail(n, adr),
                b.held + [Avail(n, adr)], headerChanged);
      BalancedGeometry(old(Sp()), Sp(), NOTHING, Avail(n, adr));
      books := Rebooked(b, a, Sp(), b.held + [Avail(n, adr)]);
    }

    /** `_gdbm_free`: the extent at position i of those in transit becomes reusable. */
    method Free(adr: nat, n: nat, ghost i: nat)
      requires Ready() && i < |books.held| && books.held[i] == Avail(n, adr)
      modifies this`file, this`hdr, this`cache, this`headerChanged, this`bucketChanged, this`books
      ensures Ready()
      ensures cache == WithAvail(old(cache), cur, cache[cur].bucket.avail)
      ensures Allotted(old(books), books, cache[cur].adr, cache[cur].bucket.avail, RemoveAt(old(books.held), i))
      ensures books.dropped == old(books.dropped)
              + ReleaseDrops(old(hdr), old(|cache[cur].bucket.avail|), Avail(n, adr))
      ensures books.scraps == old(books.scraps) + ReleaseScraps(old(hdr), old(|cache[cur].bucket.avail|), Avail(n, adr))
      ensures SameGeometry(old(hdr), hdr)
      ensures old(headerChanged) ==> headerChanged
      ensures old(bucketChanged) ==> bucketChanged
      ensures forall s :: s in books.slots ==> SameRecord(old(file), file, s)
    {
      hide Balanced, ListsOk, ChainOk, Apart, FileKept, Sound, HeldMoves, SameRecord, RemoveAt, Settled, EvenedOut, Put;
      hide ReleaseDrops, ReleaseScraps;
      ghost var a, b := cache[cur].adr, books;
      SpaceViewOk(file, hdr, dir, books, headerChanged, a);
      SoundTiled(file, hdr, dir, books, headerChanged);
      TakeHeld(b, i);
      HeldApart(file, hdr, b, a, i);
      FreeSpace(adr, n);
      SpaceStep(old(file), old(hdr), dir, b, old(headerChanged), a, Sp(), Avail(n, adr), NOTHING,
                RemoveAt(b.held, i), headerChanged);
      BalancedGeometry(old(Sp()), Sp(), Avail(n, adr), NOTHING);
      books := Rebooked(b, a, Sp(), RemoveAt(b.held, i));
    }

    // ----- the bucket cache (bucket.c, gdbmopen.c)

    /** The file is well formed and the cache is transparent; slot `open` may have unwritten changes. */
    ghost predicate Stable(open: int)
      reads this
    {
      && Sound(file, hdr, dir, books, headerChanged)
      && Coherent(file, cache, books, open) && SlotsListed(books)
    }

    /** `_gdbm_init_cache`: slots that hold nothing. */
    method InitCache(size: nat)
      requires 10 <= size && Stable(-1) && cache == []
      modifies this`cache, this`cur
      ensures |cache| == size && cur == 0 && AllClean() && Stable(-1)
      ensures forall i :: 0 <= i < |cache| ==> cache[i].adr == 0
    {
      var empty := CacheElem(Bucket([], Core(0, 0, [])), 0, false, DataCache(-1, 0, 0, -1, None));
      cache := seq(size, _ => empty);
      cur := 0;
    }

    /** `_gdbm_write_bucket`: write a slot to its place in the file. */
    method WriteBucket(i: nat, ghost open: int)
      requires Stable(open) && i < |cache| && cache[i].adr != 0
      modifies this`file, this`cache, this`books
      ensures Stable(open)
      ensures books == old(books).(dirty := old(books.dirty) - {old(cache[i].adr)})
      ensures cache == old(cache)[i := old(cache)[i].(changed := false,
                                                      data := old(cache)[i].data.(hash := -1, elemLoc := -1))]
      ensures forall s :: s in books.slots ==> SameRecord(old(file), file, s)
    {
      hide Sound, SameRecord, SlotsListed, Encode;
      ghost var a := cache[i].adr;
      assert Matches(cache[i], books);
      WriteBack(file, hdr, dir, books, headerChanged, a);
      file := WriteAt(file, cache[i].adr, Encode(BucketImage(cache[i].bucket), hdr.bucketSize));
      WrittenSlot(old(file), file, cache, books, i, open);
      SlotsListedSame(books, books.(dirty := books.dirty - {a}));
      cache := cache[i := cache[i].(changed := false, data := cache[i].data.(hash := -1, elemLoc := -1))];
      books := books.(dirty := books.dirty - {a});
    }

    /** The slot of the bucket at address `adr`, or |cache|. */
    method FindCached(adr: nat) returns (index: nat)
      ensures index <= |cache|
      ensures index < |cache| ==> cache[index].adr == adr
      ensures index == |cache| ==> forall i :: 0 <= i < |cache| ==> cache[i].adr != adr
    {
      index := 0;
      while index < |cache|
        invariant index <= |cache|
        invariant forall i :: 0 <= i < index ==> cache[i].adr != adr
      {
        if cache[index].adr == adr {
          return;
        }
        index := index + 1;
      }
    }

    /** `_gdbm_get_bucket`: make the bucket of a directory entry current, reading it if necessary. */
    method GetBucket(dirIndex: nat)
      requires CacheSized() && AllClean() && dirIndex < |dir| && dir[dirIndex] in books.tabs && Stable(-1)
      modifies this`file, this`cache, this`cur, this`lastRead, this`bucketDir, this`books
      ensures cur < |cache| && cache[cur].adr == dir[dirIndex] && bucketDir == dirIndex && Matches(cache[cur], books)
      ensures file == old(file) && books == old(books)
      ensures CacheSized() && AllClean() && Stable(-1)
    {
      hide Sound, SameRecord, SlotsListed, DataOk, DirtyCached;
      bucketDir := dirIndex;
      var bucketAdr := dir[dirIndex];
      NotAtZero(file, hdr, dir, books, headerChanged, bucketAdr);
      if cache == [] {
        InitCache(100);
      }
      if cache[cur].adr != bucketAdr {
        var index := FindCached(bucketAdr);
        if index < |cache| {
          cur := index;
        } else {
          ReadIntoCache(bucketAdr);
        }
      }
    }

    // ----- lookup (findkey.c)

    /** No slot waits to be written: the state between operations. */
    ghost predicate AllClean()
      reads this
    {
      forall i :: 0 <= i < |cache| ==> !cache[i].changed
    }

    /** The hash table of the current bucket. */
    function Table(): seq<Slot>
      reads this
    {
      if cur < |cache| then cache[cur].bucket.core.table else []
    }

    /** Slot `cur` holds the bucket that the directory selects for `hash`. */
    ghost predicate Selected(hash: nat)
      reads this
    {
      && cur < |cache| && SelectedBy(dir, hdr, books, cache[cur], hash)
      && bucketDir < |dir| && dir[bucketDir] == cache[cur].adr
    }

    /** Position `loc` of the current bucket holds the key and `data` is its data; -1 if it is nowhere. */
    ghost predicate Found(key: Bytes, loc: int, data: Bytes)
      reads this
    {
      && -1 <= loc < |Table()|
      && (loc == -1 <==> key !in books.contents)
      && (loc >= 0 ==> HasKey(file, Table(), loc, key) && data == books.contents[key])
    }

    /** The cache is not there yet, or has its full size. */
    predicate CacheSized()
      reads this
    {
      -1 <= lastRead && (if cache == [] then lastRead == -1 else 10 <= |cache| && cur < |cache| && lastRead < |cache|)
    }

    /** `_gdbm_read_entry`: the record of an element of the current bucket, remembered for the next time. */
    method ReadEntry(loc: nat) returns (record: Bytes)
      requires cur < |cache| && cache[cur].adr != 0 && loc < |Table()| && Table()[loc].hash != -1
      requires AllClean() && Stable(-1)
      modifies this`cache
      ensures cur < |cache| && cache == old(cache)[cur := old(cache)[cur].(data := cache[cur].data)]
      ensures record == RecordOf(file, old(Table()[loc]))
      ensures cache[cur].data.elemLoc == loc && cache[cur].data.dptr == Some(record)
      ensures AllClean() && Stable(-1)
    {
      hide Sound, SlotsListed, RecordOf;
      if cache[cur].data.elemLoc == loc {
        assert DataFits(file, cache[cur]);
        return cache[cur].data.dptr.value;
      }
      var s := Table()[loc];
      record := RawAt(file, s.ptr, s.keySize + s.dataSize);
      RecordIs(file, s);
      RememberOk(file, cache, books, cur, DataCache(s.hash, s.keySize, s.dataSize, loc, Some(record)));
      cache := cache[cur := cache[cur].(data := DataCache(s.hash, s.keySize, s.dataSize, loc, Some(record)))];
    }

    /** `_gdbm_findkey`: select the bucket of a key and find its element. */
    method FindKey(key: Bytes) returns (loc: int, data: Bytes, hash: nat)
      requires CacheSized() && AllClean() && Mapped(dir, hdr, books) && Stable(-1)
      modifies this`file, this`cache, this`cur, this`lastRead, this`bucketDir, this`books
      ensures file == old(file) && books == old(books)
      ensures hash == Hash(key) && Selected(hash) && Found(key, loc, data)
      ensures CacheSized() && cache != [] && AllClean() && Mapped(dir, hdr, books) && Stable(-1)
    {
      hide Sound, SlotsListed, Hash, Index, SameRecord, CacheOk, DirtyCached, HasKey, DataFits;
      hide Mapped, ContentOk, RecordOf, KeyOf, DataOf, RecOk, Matches;
      hash := Hash(key);
      MappedSelects(dir, hdr, books, hash);
      GetBucket(Shr(hash, 31 - hdr.dirBits));
      SelectedNotZero(hash);
      MappedSame(dir, hdr, old(books), books);
      SoundContent(file, hdr, dir, books, headerChanged);
      var d := cache[cur].data;
      if d.elemLoc != -1 && hash == d.hash && d.keySize == |key| && d.dptr.Some?
         && d.dptr.value[..Min(|key|, |d.dptr.value|)] == key {
        assert DataFits(file, cache[cur]);
        ShortcutSound(file, cache[cur], key);
        SelectedSlot(file, dir, hdr, books, cache[cur], hash, d.elemLoc);
        FoundHere(file, Table(), books, d.elemLoc, key);
        return d.elemLoc, d.dptr.value[|key|..], hash;
      }
      loc, data := SearchBucket(key, hash);
    }

    lemma SelectedNotZero(hash: nat)
      requires Selected(hash) && Stable(-1)
      ensures cache[cur].adr != 0
    {
      NotAtZero(file, hdr, dir, books, headerChanged, cache[cur].adr);
    }

    /** Is the key at a taken slot? First by hash, size and the first characters, then by the record; its data if so. */
    method CompareEntry(here: nat, key: Bytes, hash: nat) returns (data: Option<Bytes>)
      requires hash == Hash(key) && Selected(hash) && AllClean() && Mapped(dir, hdr, books) && Stable(-1)
      requires here < |Table()| && Table()[here].hash != -1
      modifies this`cache
      ensures cur < |cache| && cache == old(cache)[cur := old(cache)[cur].(data := cache[cur].data)]
      ensures data.None? ==> !HasKey(file, Table(), here, key)
      ensures data.Some? ==> Found(key, here, data.value)
      ensures Selected(hash) && AllClean() && Stable(-1)
    {
      hide Sound, SlotsListed, Hash, Index, Coherent, HasKey, Mapped, RecordOf, KeyOf, DataOf, RecOk, ContentOk, CoreOk;
      ghost var t, e := Table(), cache[cur];
      SoundContent(file, hdr, dir, books, headerChanged);
      SelectedNotZero(hash);
      var s := Table()[here];
      SelectedSlot(file, dir, hdr, books, e, hash, here);
      if s.hash == hash && s.keySize == |key| && s.keyStart[..Min(SMALL, |key|)] == key[..Min(SMALL, |key|)] {
        var record := ReadEntry(here);
        RecordKey(file, s, key);
        if record[..|key|] == key {
          FoundHere(file, t, books, here, key);
          return Some(record[|key|..]);
        }
      }
      SelectedNotThis(file, dir, hdr, books, e, key, here);
      return None;
    }

    /** The probe loop: from the home position until the key, an empty slot, or home again. */
    method SearchBucket(key: Bytes, hash: nat) returns (loc: int, data: Bytes)
      requires hash == Hash(key) && Selected(hash) && AllClean() && Mapped(dir, hdr, books) && Stable(-1)
      modifies this`cache
      ensures cur < |cache| && cache == old(cache)[cur := old(cache)[cur].(data := cache[cur].data)]
      ensures Selected(hash) && Found(key, loc, data) && AllClean() && Stable(-1)
    {
      hide Sound, SlotsListed, Hash, Index, Coherent, HasKey, Mapped, RecordOf, Home, Next, KeyOf, DataOf, RecOk,
           ContentOk, CoreOk;
      ghost var t, e := Table(), cache[cur];
      SoundContent(file, hdr, dir, books, headerChanged);
      SelectedNotZero(hash);
      SelectedTable(dir, hdr, books, e, hash);
      SoundGeometry(file, hdr, dir, books, headerChanged);
      var n := |Table()|;
      var here := Home(hash, n);
      var home := here;
      ghost var steps := 0;
      while Table()[here].hash != -1
        invariant cur < |cache| && cache == old(cache)[cur := old(cache)[cur].(data := cache[cur].data)]
        invariant Table() == t && here < n && steps < n
        invariant here == if home + steps < n then home + steps else home + steps - n
        invariant forall p :: 0 <= p < n && HalfArc(home, p, here) ==> !HasKey(file, t, p, key)
        invariant AllClean() && Stable(-1)
        decreases n - steps
      {
        var found := CompareEntry(here, key, hash);
        if found.Some? {
          return here, found.value;
        }
        here := Next(here, n);
        steps := steps + 1;
        if here == home {
          assert forall p :: 0 <= p < n ==> !HasKey(file, t, p, key);
          SelectedAbsent(file, dir, hdr, books, e, key);
          return -1, [];
        }
      }
      SelectedStops(file, dir, hdr, books, e, key, here);
      SelectedAbsent(file, dir, hdr, books, e, key);
      return -1, [];
    }

    /** `gdbm_fetch`: the data of a key. */
    method Fetch(key: Bytes) returns (r: Option<Bytes>)
      requires Valid()
      modifies this`file, this`cache, this`cur, this`lastRead, this`bucketDir, this`books
      ensures file == old(file) && books == old(books)
      ensures r == if key in books.contents then Some(books.contents[key]) else None
      ensures Valid()
    {
      hide Sound, Coherent, Mapped, SlotsListed, HasKey, Hash, SelectedBy;
      var loc, data, hash := FindKey(key);
      r := if loc >= 0 then Some(data) else None;
    }

    /** `gdbm_exists`. */
    method Exists(key: Bytes) returns (r: bool)
      requires Valid()
      modifies this`file, this`cache, this`cur, this`lastRead, this`bucketDir, this`books
      ensures file == old(file) && books == old(books)
      ensures r <==> key in books.contents
      ensures Valid()
    {
      hide Sound, Coherent, Mapped, SlotsListed, HasKey, Hash, SelectedBy;
      var loc, data, hash := FindKey(key);
      r := loc >= 0;
    }

    // ----- visiting all keys (gdbmseq.c)

    /** The visit stands in the block of the current bucket. */
    ghost predicate AtBucket()
      reads this
    {
      cur < |cache| && bucketDir < |dir| && dir[bucketDir] == cache[cur].adr && Matches(cache[cur], books)
    }

    /** `r` is the next of the keys in `ahead`, and the rest of them remain after it. */
    ghost predicate NextOf(r: Option<Bytes>, ahead: set<Bytes>)
      reads this
    {
      match r
      case None => ahead == {}
      case Some(k) =>
        k in ahead && k in books.contents && RemainingAfter(file, dir, hdr, books, k) == ahead - {k}
    }

    /** What is ahead of position j of the current bucket, j included. */
    ghost function Ahead(j: int): set<Bytes>
      reads this
    {
      if bucketDir < |dir| && dir[bucketDir] in books.tabs then Remaining(file, dir, books.tabs, bucketDir, j - 1)
      else {}
    }

    /** Move to the next position, in the next bucket if this one is finished. */
    method Advance(elemLoc: int) returns (loc: nat, more: bool)
      requires AtBucket() && -1 <= elemLoc < |Table()|
      requires Valid()
      modifies this`file, this`cache, this`cur, this`lastRead, this`bucketDir, this`books
      ensures file == old(file) && books == old(books)
      ensures more ==> AtBucket() && loc < |Table()| && Ahead(loc) == old(Ahead(elemLoc + 1))
      ensures more ==>
                (bucketDir == old(bucketDir) && loc == elemLoc + 1 && Table() == old(Table()))
                || bucketDir > old(bucketDir)
      ensures !more ==> old(Ahead(elemLoc + 1)) == {}
      ensures Valid()
    {
      hide Sound, Coherent, Mapped, SlotsListed, KeysFrom, KeysAfter;
      AtTable(dir, hdr, books, cache[cur]);
      hide AtBucket, Valid;
      loc, more := elemLoc + 1, true;
      if loc == hdr.bucketElems {
        loc := 0;
        more := NextBucket();
      }
    }

    /** All positions of the current bucket are passed: go to the next one, if there is one. */
    method NextBucket() returns (more: bool)
      requires AtBucket()
      requires Valid()
      modifies this`file, this`cache, this`cur, this`lastRead, this`bucketDir, this`books
      ensures file == old(file) && books == old(books) && 0 < hdr.bucketElems
      ensures more ==> AtBucket() && 0 < |Table()| && Ahead(0) == old(Ahead(|Table()|)) && bucketDir > old(bucketDir)
      ensures !more ==> old(Ahead(|Table()|)) == {}
      ensures Valid()
    {
      hide Sound, Coherent, Mapped, SlotsListed, KeysFrom, KeysAfter;
      SoundGeometry(file, hdr, dir, books, headerChanged);
      StepEnd(file, Table(), |Table()|);
      ghost var start := bucketDir;
      while bucketDir < |dir| && cache[cur].adr == dir[bucketDir]
        invariant start <= bucketDir <= |dir|
                  && Skip(dir, bucketDir, cache[cur].adr) == Skip(dir, start, cache[cur].adr)
        modifies this`bucketDir
        decreases |dir| - bucketDir
      {
        bucketDir := bucketDir + 1;
      }
      if bucketDir < |dir| {
        ListedBucket(dir, hdr, books, bucketDir);
        StepBucket(file, dir, books.tabs, bucketDir);
        GetBucket(bucketDir);
        AtTable(dir, hdr, books, cache[cur]);
        more := true;
      } else {
        NothingAfter(file, dir, books.tabs);
        more := false;
      }
    }

    /** `get_next_key`: the first key after position elemLoc of the current bucket. */
    method GetNextKey(elemLoc: int) returns (r: Option<Bytes>)
      requires AtBucket() && -1 <= elemLoc < |Table()|
      requires Valid()
      modifies this`file, this`cache, this`cur, this`lastRead, this`bucketDir, this`books
      ensures file == old(file) && books == old(books)
      ensures NextOf(r, old(Ahead(elemLoc + 1)))
      ensures Valid()
    {
      hide Sound, Coherent, Mapped, SlotsListed, Remaining, RemainingAfter, KeyOf, RecordOf;
      ghost var ahead := Ahead(elemLoc + 1);
      var loc, more := Advance(elemLoc);
      while more && Table()[loc].hash == -1
        invariant file == old(file) && books == old(books)
        invariant more ==> AtBucket() && 0 <= loc < |Table()| && Ahead(loc) == ahead
        invariant !more ==> ahead == {}
        invariant Valid()
        decreases more, |dir| - bucketDir, |Table()| - loc
      {
        PassEmpty(file, dir, books, bucketDir, cache[cur], loc);
        loc, more := Advance(loc);
      }
      if !more {
        return None;
      }
      Arrived(file, dir, hdr, books, headerChanged, bucketDir, cache[cur], loc);
      var s := Table()[loc];
      var record := ReadEntry(loc);
      RecordPrefix(file, s);
      r := Some(record[..s.keySize]);
    }

    /** `gdbm_firstkey`. */
    method FirstKey() returns (r: Option<Bytes>)
      requires Valid()
      modifies this`file, this`cache, this`cur, this`lastRead, this`bucketDir, this`books
      ensures file == old(file) && books == old(books)
      ensures NextOf(r, books.contents.Keys)
      ensures Valid()
    {
      hide Sound, Coherent, Mapped, SlotsListed, Remaining, RemainingAfter, KeysAfter;
      ListedBucket(dir, hdr, books, 0);
      SoundContent(file, hdr, dir, books, headerChanged);
      AllKeysAhead(file, dir, hdr, books);
      StepBucket(file, dir, books.tabs, 0);
      GetBucket(0);
      AtTable(dir, hdr, books, cache[cur]);
      r := GetNextKey(-1);
    }

    /** `gdbm_nextkey`: nothing follows a missing key. */
    method NextKey(key: Option<Bytes>) returns (r: Option<Bytes>)
      requires Valid()
      modifies this`file, this`cache, this`cur, this`lastRead, this`bucketDir, this`books
      ensures file == old(file) && books == old(books)
      ensures if key.Some? && key.value in books.contents
              then NextOf(r, RemainingAfter(file, dir, hdr, books, key.value)) else r == None
      ensures Valid()
    {
      hide Sound, Coherent, Mapped, SlotsListed, Remaining, RemainingAfter, HasKey, Hash, KeysFrom, ContentOk;
      if key.None? {
        return None;
      }
      var loc, data, hash := FindKey(key.value);
      if loc == -1 {
        return None;
      }
      SoundContent(file, hdr, dir, books, headerChanged);
      RemainingIs(file, dir, hdr, books, bucketDir, loc, key.value);
      r := GetNextKey(loc);
    }

    // ----- splitting (bucket.c)

    /** The current bucket is the one for `next`, ready to be changed; only the flags may be missing. */
    ghost predicate Working(next: nat)
      reads this
    {
      && CacheSized() && cache != [] && Selected(next) && Ready()
      && Mapped(dir, hdr, books) && Coherent(file, cache, books, cur)
    }

    /** Allocation in the middle of an update. */
    method AllocIn(n: nat, ghost next: nat) returns (adr: nat)
      requires Working(next)
      modifies this`file, this`hdr, this`cache, this`headerChanged, this`bucketChanged, this`books
      ensures adr > 0 && cur < |cache| && cache == WithAvail(old(cache), cur, cache[cur].bucket.avail)
      ensures Allotted(old(books), books, cache[cur].adr, cache[cur].bucket.avail, old(books.held) + [Avail(n, adr)])
      ensures SameGeometry(old(hdr), hdr)
      ensures old(headerChanged) ==> headerChanged
      ensures old(bucketChanged) ==> bucketChanged
      ensures Working(next)
    {
      hide Coherent, Mapped, SameRecord, Sound, Index, AfterFit, Taken, TakenHeader, ReleaseDrops, ReleaseScraps;
      ghost var f, c, b, h := file, cache, books, hdr;
      MappedListed(dir, hdr, books);
      SelectedNonZero(file, hdr, dir, books, headerChanged, cache[cur]);
      adr := Alloc(n);
      assert cache == c[cur := cache[cur]];
      hide SlotsListed;
      AvailUpdated(f, file, c, b, cur, cache[cur], books, b.held + [Avail(n, adr)]);
      MappedGeometry(dir, h, b, hdr, books);
    }

    /** Release in the middle of an update. */
    method FreeIn(adr: nat, n: nat, ghost i: nat, ghost next: nat)
      requires Working(next) && i < |books.held| && books.held[i] == Avail(n, adr)
      modifies this`file, this`hdr, this`cache, this`headerChanged, this`bucketChanged, this`books
      ensures cur < |cache| && cache == WithAvail(old(cache), cur, cache[cur].bucket.avail)
      ensures Allotted(old(books), books, cache[cur].adr, cache[cur].bucket.avail, RemoveAt(old(books.held), i))
      ensures SameGeometry(old(hdr), hdr)
      ensures old(headerChanged) ==> headerChanged
      ensures old(bucketChanged) ==> bucketChanged
      ensures Working(next)
    {
      hide Coherent, Mapped, SameRecord, Sound, RemoveAt, Index, AfterFit, Taken, TakenHeader, ReleaseDrops,
           ReleaseScraps;
      ghost var f, c, b, h := file, cache, books, hdr;
      MappedListed(dir, hdr, books);
      SelectedNonZero(file, hdr, dir, books, headerChanged, cache[cur]);
      Free(adr, n, i);
      assert cache == c[cur := cache[cur]];
      hide SlotsListed;
      AvailUpdated(f, file, c, b, cur, cache[cur], books, RemoveAt(b.held, i));
      MappedGeometry(dir, h, b, hdr, books);
    }

    /** The next slot in turn that is not the current one, written back if it had changed. */
    method PickSlot(ghost next: nat) returns (i: nat)
      requires Working(next)
      modifies this`file, this`cache, this`lastRead, this`books
      ensures i < |cache| == old(|cache|) && i != cur && !cache[i].changed && lastRead == i
      ensures old(lastRead) >= 0 ==> i != old(lastRead)
      ensures var turn := if old(lastRead) + 1 == |cache| then 0 else old(lastRead) + 1;
              i == if turn != cur then turn else if turn + 1 == |cache| then 0 else turn + 1
      ensures forall j :: 0 <= j < |cache| && j != i ==> cache[j] == old(cache)[j]
      ensures books == old(books).(dirty := books.dirty)
      ensures Working(next)
    {
      hide Coherent, Mapped, Sound, SelectedBy, ReadyFor, Turn;
      lastRead := Turn(lastRead, |cache|);
      if lastRead == cur {
        lastRead := Turn(lastRead, |cache|);
      }
      i := lastRead;
      if cache[i].changed {
        CleanSlot(i, next);
      }
    }

    /** Write a changed slot back, in the middle of an update of another one. */
    method CleanSlot(i: nat, ghost next: nat)
      requires i < |cache| && i != cur && cache[i].changed && Working(next)
      modifies this`file, this`cache, this`books
      ensures |cache| == old(|cache|) && !cache[i].changed
      ensures forall j :: 0 <= j < |cache| && j != i ==> cache[j] == old(cache)[j]
      ensures books == old(books).(dirty := books.dirty)
      ensures Working(next)
    {
      hide Coherent, Mapped, SameRecord, Sound, SlotsListed, SelectedBy;
      MappedListed(dir, hdr, books);
      SelectedNonZero(file, hdr, dir, books, headerChanged, cache[cur]);
      ChangedInUse(file, cache, books, cur, i);
      ghost var b, e := books, cache[cur];
      WriteBucket(i, cur);
      MappedSame(dir, hdr, b, books);
      SelectedSame(dir, hdr, b, books, e, next);
    }

    /** Double the directory in a new place; the old place stays in transit. */
    method DoubleDir(ghost next: nat) returns (oldAdr: nat, oldSize: nat)
      requires hdr.dirBits < 31 && next < HASH_LIMIT && Working(next)
      modifies this`file, this`hdr, this`dir, this`cache, this`bucketDir, this`headerChanged, this`bucketChanged,
               this`books
      ensures cur < |cache| && cache == WithAvail(old(cache), cur, cache[cur].bucket.avail)
      ensures books == old(books).(avs := books.avs, stack := books.stack, scraps := books.scraps,
                                   dropped := books.dropped,
                                   held := old(books.held) + [Avail(oldSize, oldAdr)], dirStale := true)
      ensures hdr == old(hdr).(dir := hdr.dir, dirSize := hdr.dirSize, dirBits := old(hdr.dirBits) + 1,
                               avail := hdr.avail, nextBlock := hdr.nextBlock)
      ensures headerChanged && (old(bucketChanged) ==> bucketChanged)
      ensures Working(next)
    {
      hide Coherent, Mapped, Sound, Index;
      ghost var held := books.held;
      var dirSize := hdr.dirSize * 2;
      var dirAdr := AllocIn(dirSize, next);
      var newDir := DoubleDirectory(dir);
      ghost var b, h, d, hc := books, hdr, dir, headerChanged;
      oldAdr, oldSize := hdr.dir, hdr.dirSize;
      hdr := hdr.(dir := dirAdr, dirSize := dirSize, dirBits := hdr.dirBits + 1);
      headerChanged := true;
      bucketDir := bucketDir * 2;
      dir := newDir;
      books := MovedBooks(books, held + [Avail(oldSize, oldAdr)]);
      MoveDirectory(file, h, d, b, hc, held, hdr, dir);
      MovedMapped(d, h, b, books, dir, hdr, next, cache[cur]);
      MovedCoherent(file, cache, b, books, cur);
    }

    /** Put the halves of the current bucket in its place, in the directory, the cache and the books. */
    method InstallHalves(next: nat, i0: nat, i1: nat, core0: Core, core1: Core, adr0: nat, adr1: nat, adr2: nat,
                         ghost held: seq<AvailElem>)
      requires next < HASH_LIMIT && i0 < |cache| && i1 < |cache| && cur < |cache| && i0 != cur && i1 != cur && i0 != i1
      requires !cache[i0].changed && !cache[i1].changed && adr0 > 0 && adr1 > 0 && adr2 > 0
      requires cache[cur].bucket.core.bits < hdr.dirBits
      requires SplitCores(cache[cur].bucket.core, Halves(adr0, adr1, core0, core1, [], []), hdr.bucketElems)
      requires books.held == held + [Avail(hdr.bucketSize, adr0), Avail(hdr.bucketSize, adr1),
                                     Avail(hdr.blockSize, adr2)]
      requires Working(next)
      modifies this`dir, this`cache, this`cur, this`bucketDir, this`bucketChanged, this`directoryChanged,
               this`secondChanged, this`books
      ensures cur < |cache| == old(|cache|) && (cache[cur].bucket.core == core0 || cache[cur].bucket.core == core1)
      ensures books.held == held && books.slots == old(books.slots) && books.contents == old(books.contents)
      ensures bucketChanged && directoryChanged && secondChanged
      ensures Working(next)
    {
      hide Coherent, Mapped, Sound, Index, SelectedBy, ReadyFor, SplitCores, GoodList, Retargeted, Replaced, Shr;
      ghost var a, d, e := cache[cur].adr, dir, cache[cur];
      var newBits := cache[cur].bucket.core.bits + 1;
      SplitFacts(file, hdr, dir, books, headerChanged, e, next);
      AtBlock(dir, hdr, books, a, bucketDir);
      dir := Retarget(dir, hdr.dirBits, newBits, bucketDir, adr0, adr1, books.pre[a], a);
      bucketChanged, directoryChanged, secondChanged := true, true, true;
      bucketDir := Shr(next, 31 - hdr.dirBits);
      SplitTarget(d, dir, hdr, books, e, adr0, adr1, next);
      ReplaceBucket(next, i0, i1, Halves(adr0, adr1, core0, core1, [], []), adr2, d, held);
    }

    /** The two halves take their slots, and the slot of the bucket that they replace is free. */
    method FillSlots(i0: nat, i1: nat, t: Halves)
      requires i0 < |cache| && i1 < |cache| && cur < |cache| && i0 != cur && i1 != cur && i0 != i1
      modifies this`cache
      ensures cache == SplitCache(old(cache), cur, i0, i1, t) && |cache| == |old(cache)|
      ensures cache[i0].bucket.core == t.core0 && cache[i1].bucket.core == t.core1
    {
      cache := cache[i0 := cache[i0].(bucket := Bucket(t.av0, t.core0), adr := t.adr0, changed := true)]
                    [i1 := cache[i1].(bucket := Bucket(t.av1, t.core1), adr := t.adr1, changed := true)]
                    [cur := cache[cur].(adr := 0, changed := false)];
    }

    /** Give the two halves their free extents and cache slots, and free the slot and the place of the split bucket. */
    method ReplaceBucket(next: nat, i0: nat, i1: nat, u: Halves, adr2: nat, ghost d: seq<nat>,
                         ghost held: seq<AvailElem>)
      requires i0 < |cache| && i1 < |cache| && cur < |cache| && i0 != cur && i1 != cur && i0 != i1
      requires !cache[i0].changed && !cache[i1].changed && u.adr0 > 0 && u.adr1 > 0 && adr2 > 0
      requires cache[cur].bucket.core.bits < hdr.dirBits <= 31 && u == u.(av0 := [], av1 := [])
      requires SplitCores(cache[cur].bucket.core, u, hdr.bucketElems)
      requires books.held == held + [Avail(hdr.bucketSize, u.adr0), Avail(hdr.bucketSize, u.adr1),
                                     Avail(hdr.blockSize, adr2)]
      requires cache[cur].adr in books.tabs && cache[cur].adr in books.pre && cache[cur].adr in books.avs
      requires bucketDir == Index(next, hdr.dirBits) < |dir| && (dir[bucketDir] == u.adr0 || dir[bucketDir] == u.adr1)
      requires Retargeted(d, dir, hdr.dirBits, cache[cur].bucket.core.bits, books.pre[cache[cur].adr], cache[cur].adr,
                          u.adr0, u.adr1)
      requires CacheSized() && SelectedBy(d, hdr, books, cache[cur], next)
               && ReadyFor(file, hdr, d, books, headerChanged, cache[cur])
      requires Mapped(d, hdr, books) && Coherent(file, cache, books, cur)
      modifies this`cache, this`cur, this`books
      ensures cur < |cache| == old(|cache|) && (cache[cur].bucket.core == u.core0 || cache[cur].bucket.core == u.core1)
      ensures Replaced(old(cache), old(cur), cache, cur, i0, i1, u, Avail(hdr.blockSize, adr2), hdr.bucketSize,
                       Selects(dir, bucketDir, u.adr0))
      ensures books.held == held && books.slots == old(books.slots) && books.contents == old(books.contents)
      ensures Working(next)
    {
      hide Coherent, Mapped, Sound, Index, SelectedBy, HalvesCover, HalvesHeld, SplitCores, GoodList, Retargeted,
           SplitCache, Divided, AvailsOk;
      ghost var b, c, e := books, cache, cache[cur];
      var extra := Avail(hdr.blockSize, adr2);
      SplitFacts(file, hdr, d, books, headerChanged, e, next);
      hide ReadyFor, Matches;
      var first := dir[bucketDir] == u.adr0;
      var l0, l1 := DivideAvail(cache[cur].bucket.avail, extra, Avail(hdr.bucketSize, cache[cur].adr), first, u);
      var t := u.(av0 := l0, av1 := l1);
      HalvesShape(books, hdr, e.bucket.core, t, u, extra, held);
      FillSlots(i0, i1, t);
      books := SplitBooks(books, e.adr, t, held);
      SoundOf(file, hdr, d, b, headerChanged, e);
      HalvesInstalled(file, hdr, d, dir, b, headerChanged, c, cur, i0, i1, t, extra, held, next,
                      if first then i0 else i1, books, cache);
      cur := if first then i0 else i1;
      SelectedAt(dir, hdr, books, cache[cur], next, bucketDir);
    }

    /** Places for the two halves, and a larger directory if the bucket already uses all its bits. */
    method AllocHalves(ghost next: nat) returns (adr0: nat, adr1: nat, grown: bool, oldAdr: nat, oldSize: nat)
      requires next < HASH_LIMIT && cur < |cache| && cache[cur].bucket.core.bits < 31 && Working(next)
      modifies this`file, this`hdr, this`dir, this`cache, this`bucketDir, this`headerChanged, this`bucketChanged,
               this`books
      ensures adr0 > 0 && adr1 > 0 && cur < |cache| && cache == WithAvail(old(cache), cur, cache[cur].bucket.avail)
      ensures hdr.bucketSize == old(hdr.bucketSize) && hdr.bucketElems == old(hdr.bucketElems)
      ensures hdr.dirBits == old(hdr.dirBits) + (if grown then 1 else 0)
      ensures books.held == old(books.held) + [Avail(hdr.bucketSize, adr0)] + [Avail(hdr.bucketSize, adr1)]
                            + (if grown then [Avail(oldSize, oldAdr)] else [])
      ensures books.slots == old(books.slots) && books.contents == old(books.contents)
      ensures old(headerChanged) ==> headerChanged
      ensures cache[cur].bucket.core.bits < hdr.dirBits
      ensures Working(next)
    {
      hide Working, SameGeometry;
      WorkingBits(next);
      var bits := cache[cur].bucket.core.bits;
      adr0 := AllocIn(hdr.bucketSize, next);
      SameShape(old(hdr), hdr);
      ghost var h := hdr;
      adr1 := AllocIn(hdr.bucketSize, next);
      SameShape(h, hdr);
      grown, oldAdr, oldSize := false, 0, 0;
      if hdr.dirBits == bits {
        oldAdr, oldSize := DoubleDir(next);
        grown := true;
      }
    }

    lemma WorkingBits(next: nat)
      requires Working(next)
      ensures cur < |cache| && cache[cur].bucket.core.bits <= hdr.dirBits <= 31
      ensures |cache[cur].bucket.core.table| == hdr.bucketElems && CacheSized()
    {
      hide Sound, Coherent;
      SelectedBits(dir, hdr, books, cache[cur], next);
    }

    /** Allocate the second half's free block and install the halves. */
    method SplitInto(next: nat, i0: nat, i1: nat, core0: Core, core1: Core, adr0: nat, adr1: nat,
                     ghost held: seq<AvailElem>, ghost retired: seq<AvailElem>)
      requires next < HASH_LIMIT && i0 < |cache| && i1 < |cache| && cur < |cache| && i0 != cur && i1 != cur && i0 != i1
      requires !cache[i0].changed && !cache[i1].changed && adr0 > 0 && adr1 > 0
      requires cache[cur].bucket.core.bits < hdr.dirBits
      requires SplitCores(cache[cur].bucket.core, Halves(adr0, adr1, core0, core1, [], []), hdr.bucketElems)
      requires books.held == held + [Avail(hdr.bucketSize, adr0)] + [Avail(hdr.bucketSize, adr1)] + retired
      requires Working(next)
      modifies this
      ensures cur < |cache| && (cache[cur].bucket.core == core0 || cache[cur].bucket.core == core1)
      ensures hdr.bucketElems == old(hdr.bucketElems) && hdr.dirBits == old(hdr.dirBits)
      ensures books.held == held + retired && books.slots == old(books.slots) && books.contents == old(books.contents)
      ensures bucketChanged && directoryChanged && secondChanged && (old(headerChanged) ==> headerChanged)
      ensures Working(next)
    {
      hide SplitCores, SameGeometry, Coherent, Mapped, Sound, SelectedBy;
      var adr2 := AllocIn(hdr.blockSize, next);
      SameShape(old(hdr), hdr);
      ghost var p, q, r := Avail(hdr.bucketSize, adr0), Avail(hdr.bucketSize, adr1), Avail(hdr.blockSize, adr2);
      ghost var held2 := held + retired + [p, q, r];
      MoveBack(held, p, q, retired, r);
      ghost var b := books;
      Reheld(file, hdr, dir, books, headerChanged, held2);
      books := books.(held := held2);
      HeldOnly(file, cache, dir, hdr, b, books, cur, next);
      InstallHalves(next, i0, i1, core0, core1, adr0, adr1, adr2, held + retired);
    }

    /** One step of `_gdbm_split_bucket`: the current bucket is replaced by its two halves. */
    method SplitOnce(next: nat) returns (grown: bool, oldAdr: nat, oldSize: nat)
      requires next < HASH_LIMIT && cur < |cache| && cache[cur].bucket.core.bits < 31
      requires forall j :: 0 <= j < |Table()| ==> Table()[j].hash >= 0
      requires Working(next)
      modifies this
      ensures cur < |cache| && hdr.bucketElems == old(hdr.bucketElems)
      ensures hdr.dirBits == old(hdr.dirBits) + (if grown then 1 else 0)
      ensures books.held == old(books.held) + (if grown then [Avail(oldSize, oldAdr)] else [])
      ensures books.slots == old(books.slots) && books.contents == old(books.contents)
      ensures bucketChanged && directoryChanged && secondChanged && (old(headerChanged) ==> headerChanged)
      ensures cache[cur].bucket.core.bits == old(cache[cur].bucket.core.bits) + 1
      ensures |OccBag(Table())| == hdr.bucketElems == |OccBag(old(Table()))| ==> OccBag(Table()) == OccBag(old(Table()))
      ensures Working(next)
    {
      hide Working, Dealt, OccBag;
      WorkingBits(next);
      ghost var held, core := books.held, cache[cur].bucket.core;
      var i0 := PickSlot(next);
      WorkingBits(next);
      var i1 := PickSlot(next);
      assert cache[cur] == old(cache[cur]) && Table() == old(Table());
      var table, bits := Table(), cache[cur].bucket.core.bits + 1;
      var tab0, tab1 := new Slot[|table|], new Slot[|table|];
      ClearTable(tab0);
      ClearTable(tab1);
      StartDealing(tab0[..], tab1[..], bits);
      var adr0, adr1;
      adr0, adr1, grown, oldAdr, oldSize := AllocHalves(next);
      var count0, count1 := Redistribute(table, bits, tab0, tab1);
      var core0, core1 := Core(bits, count0, tab0[..]), Core(bits, count1, tab1[..]);
      SplitInto(next, i0, i1, core0, core1, adr0, adr1, held, if grown then [Avail(oldSize, oldAdr)] else []);
      DealtHalf(core, Halves(adr0, adr1, core0, core1, [], []), hdr.bucketElems, cache[cur].bucket.core);
    }

    /** The flags say which slots and whether the directory must be written. */
    ghost predicate Tracked()
      reads this
    {
      && (books.dirStale ==> directoryChanged)
      && (!secondChanged ==> forall i :: 0 <= i < |cache| && cache[i].changed ==> i == cur)
    }

    lemma WorkingCore(next: nat)
      requires next < HASH_LIMIT && Working(next)
      ensures cur < |cache| && cache[cur].adr in books.pre
      ensures CoreOk(cache[cur].bucket.core, books.pre[cache[cur].adr], hdr.bucketElems)
      ensures cache[cur].bucket.core.bits <= 31 && Index(next, cache[cur].bucket.core.bits) == books.pre[cache[cur].adr]
    {
      hide Sound, Coherent, CoreOk, Index;
      SelectedCore(dir, hdr, books, cache[cur], next);
    }

    /** Split until the bucket for `next` has room; the directories outgrown on the way are held. */
    method SplitRounds(next: nat)
      returns (oldAdr: array<nat>, oldSize: array<nat>, oldCount: nat, ghost retired: seq<AvailElem>)
      requires next < HASH_LIMIT && cur < |cache| && Tracked()
      requires cache[cur].bucket.core.count == hdr.bucketElems ==> Separable(OccBag(Table()), next)
      requires Working(next)
      modifies this
      ensures cur < |cache| && cache[cur].bucket.core.count < hdr.bucketElems
      ensures books.held == old(books.held) + retired && books.slots == old(books.slots)
              && books.contents == old(books.contents)
      ensures oldCount == |retired| == hdr.dirBits - old(hdr.dirBits) && oldCount <= oldAdr.Length == oldSize.Length
      ensures forall k :: 0 <= k < oldCount ==> retired[k] == Avail(oldSize[k], oldAdr[k])
      ensures hdr.bucketElems == old(hdr.bucketElems)
      ensures Tracked() && (old(headerChanged) ==> headerChanged)
      ensures Working(next)
    {
      hide Working, CoreOk, OccBag, Separable, Index;
      retired := [];
      oldAdr, oldSize, oldCount := new nat[31], new nat[31], 0;
      WorkingBits(next);
      while cache[cur].bucket.core.count == hdr.bucketElems
        invariant cur < |cache| && Tracked() && (old(headerChanged) ==> headerChanged)
        invariant hdr.bucketElems == old(hdr.bucketElems)
        invariant cache[cur].bucket.core.count == hdr.bucketElems ==> Separable(OccBag(Table()), next)
        invariant books.held == old(books.held) + retired
        invariant books.slots == old(books.slots) && books.contents == old(books.contents)
        invariant oldCount == |retired| == hdr.dirBits - old(hdr.dirBits) && hdr.dirBits <= 31
        invariant forall k :: 0 <= k < oldCount ==> retired[k] == Avail(oldSize[k], oldAdr[k])
        invariant cache[cur].bucket.core.bits <= 31
        invariant Working(next)
        decreases 31 - cache[cur].bucket.core.bits
      {
        WorkingCore(next);
        FullTable(cache[cur].bucket.core, books.pre[cache[cur].adr], hdr.bucketElems, next);
        ghost var bag := OccBag(Table());
        var grown, adr, size := SplitOnce(next);
        WorkingBits(next);
        WorkingCore(next);
        CountIs(cache[cur].bucket.core, books.pre[cache[cur].adr], hdr.bucketElems);
        if grown {
          oldAdr[oldCount], oldSize[oldCount] := adr, size;
          oldCount := oldCount + 1;
          retired := retired + [Avail(size, adr)];
        }
      }
      WorkingCore(next);
      CountIs(cache[cur].bucket.core, books.pre[cache[cur].adr], hdr.bucketElems);
    }

    lemma WorkingShape(next: nat)
      requires Working(next)
      ensures 6 <= hdr.dirBits <= 31
    {
      hide Mapped, Coherent;
      GeometryBits(hdr);
    }

    /** `_gdbm_split_bucket`: split until the bucket for `next` has room, then free the directories outgrown. */
    method Split(next: nat)
      requires next < HASH_LIMIT && cur < |cache| && Tracked()
      requires cache[cur].bucket.core.count == hdr.bucketElems ==> Separable(OccBag(Table()), next)
      requires Working(next)
      modifies this
      ensures cur < |cache| && cache[cur].bucket.core.count < hdr.bucketElems
      ensures books.held == old(books.held) && books.slots == old(books.slots) && books.contents == old(books.contents)
      ensures hdr.bucketElems == old(hdr.bucketElems) && 0 <= hdr.dirBits - old(hdr.dirBits) <= 25
      ensures Tracked() && (old(headerChanged) ==> headerChanged)
      ensures Working(next)
    {
      hide Working, OccBag, Separable;
      ghost var held := books.held;
      WorkingShape(next);
      var oldAdr, oldSize, oldCount, retired := SplitRounds(next);
      WorkingShape(next);
      for index := 0 to oldCount
        invariant cur < |cache| && cache[cur].bucket.core.count < hdr.bucketElems
        invariant books.held == held + retired[index..] && books.slots == old(books.slots)
                  && books.contents == old(books.contents)
        invariant forall k :: 0 <= k < oldCount ==> retired[k] == Avail(oldSize[k], oldAdr[k])
        invariant Tracked() && (old(headerChanged) ==> headerChanged)
        invariant hdr.bucketElems == old(hdr.bucketElems) && hdr.dirBits == oldCount + old(hdr.dirBits)
        invariant Working(next)
      {
        ghost var h := hdr;
        FreeIn(oldAdr[index], oldSize[index], |held|, next);
        SameShape(h, hdr);
        assert RemoveAt(held + retired[index..], |held|) == held + retired[index + 1..];
      }
    }

    // ----- storing (gdbmstore.c)

    /** `gdbm_store`: -1 for a reader or a null datum, 1 for a key that may not be replaced, else 0. */
    method Store(key: Option<Bytes>, content: Option<Bytes>, replace: bool) returns (rc: int)
      requires writer && key.Some? && content.Some? && key.value !in books.contents
               ==> HasRoom(books.contents, key.value, hdr.bucketElems)
      requires Valid()
      modifies this
      ensures rc == if !writer || key.None? || content.None? then -1
                    else if key.value in old(books.contents) && !replace then 1 else 0
      ensures books.contents == if rc == 0 then old(books.contents)[key.value := content.value] else old(books.contents)
      ensures rc != 0 ==> file == old(file) && books == old(books)
      ensures hdr.bucketElems == old(hdr.bucketElems)
      ensures Valid()
    {
      hide Sound, Coherent, Mapped, SlotsListed, HasKey, Hash, SelectedBy, HasRoom;
      if !writer {
        return -1;
      }
      if key.None? || content.None? {
        return -1;
      }
      var loc, data, hash := FindKey(key.value);
      if loc != -1 {
        if replace {
          Replace(loc, key.value, content.value, hash);
        } else {
          return 1;
        }
      } else {
        Insert(key.value, content.value, hash);
      }
      return 0;
    }

    /** Mark the current bucket as about to change. */
    ghost method Open(hash: nat)
      requires Selected(hash) && Valid()
      modifies this`books
      ensures books == old(books).(dirty := {cache[cur].adr})
      ensures Working(hash) && Tracked()
    {
      hide Sound, Mapped, Coherent;
      OpenBooks(file, hdr, dir, books, headerChanged, cache, cur, hash);
      books := books.(dirty := {cache[cur].adr});
    }

    /** The part of `gdbm_store` for a key that is there: the old record's space is freed first. */
    method Replace(loc: nat, key: Bytes, content: Bytes, hash: nat)
      requires hash == Hash(key) && Selected(hash) && loc < |Table()| && HasKey(file, Table(), loc, key)
      requires Valid()
      modifies this
      ensures books.contents == old(books.contents)[key := content] && hdr.bucketElems == old(hdr.bucketElems)
      ensures Valid()
    {
      hide Sound, Mapped, Coherent, Hash, SelectedBy, ReadyFor, SlotsListed, RawAtoms, SameRecord, HasKey, Extent,
           Matches;
      Open(hash);
      SoundOf(file, hdr, dir, books, headerChanged, cache[cur]);
      SelectedNonZero(file, hdr, dir, books, headerChanged, cache[cur]);
      ghost var f, c, b, h, hc := file, cache, books, hdr, headerChanged;
      var prior := Table()[loc];
      var fileAdr := SwapSpace(loc, key, hash, |key| + |content|);
      SoundOf(file, hdr, dir, books, headerChanged, cache[cur]);
      PutChanged(loc, key, content, hash, fileAdr, f, c, b, h, hc);
      EndUpdate();
    }

    /** Free the record of the element at `loc` and allocate room for its successor. */
    method SwapSpace(loc: nat, key: Bytes, ghost hash: nat, n: nat) returns (adr: nat)
      requires loc < |Table()| && HasKey(file, Table(), loc, key) && books.held == [] && Working(hash)
      modifies this`file, this`hdr, this`cache, this`headerChanged, this`bucketChanged, this`books
      ensures adr > 0 && cur < |cache| && cache == WithAvail(old(cache), cur, cache[cur].bucket.avail)
      ensures Replacing(old(books), books, cache[cur].adr, cache[cur].bucket.avail, old(Table()[loc]), key,
                        Avail(n, adr))
      ensures SameGeometry(old(hdr), hdr)
      ensures old(headerChanged) ==> headerChanged
      ensures forall s :: s in books.slots ==> SameRecord(old(file), file, s)
      ensures Ready()
    {
      hide Mapped, Coherent, SelectedBy, ReadyFor, SameRecord, HasKey, RemoveAt;
      ghost var f, b := file, books;
      var prior := Table()[loc];
      Detach(loc, key, hash);
      ghost var b1 := books;
      Free(prior.ptr, prior.keySize + prior.dataSize, 0);
      ghost var f2, b2, av2 := file, books, cache[cur].bucket.avail;
      adr := Alloc(n);
      SameRecords(f, f2, file, books.slots);
      ReplacingChain(b, b1, b2, books, cache[cur].adr, av2, cache[cur].bucket.avail, prior, key, Avail(n, adr));
    }

    /** Point the element at `loc` to the new record and write it. */
    method PutChanged(loc: nat, key: Bytes, content: Bytes, ghost hash: nat, fileAdr: nat,
                      ghost f: File, ghost c: seq<CacheElem>, ghost b: Books, ghost h: Header, ghost hc: bool)
      requires cur < |c| && loc < |c[cur].bucket.core.table| && HasKey(f, c[cur].bucket.core.table, loc, key)
               && hash == Hash(key)
      requires cur < |cache| && cache == WithAvail(c, cur, cache[cur].bucket.avail) && CacheSized() && Tracked()
      requires Replacing(b, books, c[cur].adr, cache[cur].bucket.avail, c[cur].bucket.core.table[loc], key,
                         Avail(|key| + |content|, fileAdr))
      requires SameGeometry(h, hdr) && c[cur].adr in b.dirty && c[cur].adr != 0
      requires forall s :: s in books.slots ==> SameRecord(f, file, s)
      requires SelectedBy(dir, h, b, c[cur], hash) && Sound(f, h, dir, b, hc)
               && Sound(file, hdr, dir, books, headerChanged)
      requires Mapped(dir, h, b) && Coherent(f, c, b, cur)
      modifies this`file, this`cache, this`books, this`bucketChanged
      ensures books.contents == b.contents[key := content] && books.held == []
      ensures Flagged() && Mapped(dir, hdr, books) && Stable(cur)
    {
      hide Sound, Mapped, Coherent, Hash, SelectedBy, SlotsListed, RawAtoms, SameRecord, HasKey, WriteAt, SameGeometry;
      ghost var f3, b3 := file, books;
      var s := Table()[loc].(ptr := fileAdr, keySize := |key|, dataSize := |content|);
      var core := cache[cur].bucket.core;
      core := core.(table := core.table[loc := s]);
      cache := cache[cur := cache[cur].(bucket := cache[cur].bucket.(core := core), changed := true)];
      WriteRecord(fileAdr, key, content);
      bucketChanged := true;
      books := With(books, cache[cur].adr, core, s, key, content);
      assert cache == c[cur := cache[cur]];
      ReplaceDone(f, f3, h, hdr, dir, b, b3, hc, headerChanged, c, cur, cache[cur].bucket.avail, loc, s, key, content,
                  cache[cur], file, books);
    }

    /** The record of a found element is about to be freed: it no longer counts. */
    ghost method Detach(loc: nat, key: Bytes, hash: nat)
      requires loc < |Table()| && HasKey(file, Table(), loc, key) && Working(hash)
      modifies this`books
      ensures cur < |cache|
      ensures books == old(books).(slots := old(books.slots) - multiset{Table()[loc]},
                                   contents := old(books.contents) - {key},
                                   held := old(books.held) + [Extent(Table()[loc])])
      ensures Ready()
    {
      hide Sound, Mapped, Coherent, ReadyFor, SelectedBy, HasKey;
      DetachBooks(file, hdr, dir, books, headerChanged, cache[cur], hash, loc, key);
      books := books.(slots := books.slots - multiset{Table()[loc]}, contents := books.contents - {key},
                      held := books.held + [Extent(Table()[loc])]);
    }

    /** The part of `gdbm_store` for a key that is not there. */
    method Insert(key: Bytes, content: Bytes, hash: nat)
      requires hash == Hash(key) && Selected(hash) && key !in books.contents
               && HasRoom(books.contents, key, hdr.bucketElems)
      requires Valid()
      modifies this
      ensures books.contents == old(books.contents)[key := content] && hdr.bucketElems == old(hdr.bucketElems)
      ensures Valid()
    {
      hide Sound, Mapped, Coherent, Hash, Working, Separable, HasRoom, OccBag, ProbeOk, Home;
      Open(hash);
      WorkingBits(hash);
      var fileAdr := AllocIn(|key| + |content|, hash);
      assert books.held == [Avail(|key| + |content|, fileAdr)];
      RoomSeparates(key);
      if cache[cur].bucket.core.count == hdr.bucketElems {
        Split(hash);
      }
      PutNew(key, content, hash, fileAdr);
      EndUpdate();
    }

    /** No bucket's worth of keys with one hash is ever exceeded. */
    lemma PeersFit(key: Bytes)
      requires Valid()
      ensures |Peers(books.contents, key)| <= hdr.bucketElems
    {
      hide Sound, Mapped, Coherent, SlotsListed, Peers;
      SoundContent(file, hdr, dir, books, headerChanged);
      PeersBounded(file, dir, hdr, books, key);
    }

    lemma RoomSeparates(key: Bytes)
      requires Working(Hash(key)) && HasRoom(books.contents, key, hdr.bucketElems)
      ensures cur < |cache| && cache[cur].bucket.core.count <= hdr.bucketElems
      ensures cache[cur].bucket.core.count == hdr.bucketElems ==> Separable(OccBag(Table()), Hash(key))
    {
      hide Sound, Coherent, OccBag, Hash, HasRoom, Separable, Index;
      SelectedRoom(file, hdr, dir, books, headerChanged, cache[cur], key);
    }

    /** Write a key and its data to their place in the file. */
    method WriteRecord(adr: nat, key: Bytes, content: Bytes)
      modifies this`file
      ensures file == WriteAt(old(file), adr, RawAtoms(key + content))
    {
      WriteTwice(file, adr, key, content);
      file := WriteAt(file, adr, RawAtoms(key));
      file := WriteAt(file, adr + |key|, RawAtoms(content));
    }

    /** Put the new element in the first empty slot of its probe sequence and write its record. */
    method PutNew(key: Bytes, content: Bytes, hash: nat, fileAdr: nat)
      requires hash == Hash(key) && cur < |cache| && cache[cur].bucket.core.count < hdr.bucketElems && Tracked()
      requires books.held == [Avail(|key| + |content|, fileAdr)] && key !in books.contents
      requires Working(hash)
      modifies this`file, this`cache, this`books, this`bucketChanged
      ensures books.contents == old(books.contents)[key := content] && books.held == []
      ensures Flagged() && Mapped(dir, hdr, books) && Stable(cur)
    {
      hide Sound, Mapped, Coherent, Hash, OccBag, ProbeOk, Home, CoreOk, SelectedBy, ReadyFor, SlotsListed, RawAtoms,
           Index, HalfArc;
      hide NewSlot, Describes, Extent, WriteAt, Matches;
      WorkingCore(hash);
      CountIs(cache[cur].bucket.core, books.pre[cache[cur].adr], hdr.bucketElems);
      SelectedNonZero(file, hdr, dir, books, headerChanged, cache[cur]);
      ghost var f, c, b, e := file, cache, books, cache[cur];
      var loc := FirstEmpty(Table(), hash);
      var s := NewSlot(Table()[loc], key, hash, fileAdr, |content|);
      NewDescribes(Table()[loc], key, fileAdr, content);
      var core := cache[cur].bucket.core;
      core := Core(core.bits, core.count + 1, core.table[loc := s]);
      cache := cache[cur := cache[cur].(bucket := cache[cur].bucket.(core := core), changed := true)];
      WriteRecord(fileAdr, key, content);
      bucketChanged := true;
      books := With(books, cache[cur].adr, core, s, key, content);
      InsertDone(f, hdr, dir, b, headerChanged, c, cur, loc, s, key, content, cache[cur], file, books);
    }

    // ----- deletion (gdbmdelete.c)

    /** `gdbm_delete`: -1 for a reader or a missing key, else 0. */
    method Delete(key: Bytes) returns (rc: int)
      requires Valid()
      modifies this
      ensures Valid()
      ensures rc == if writer && key in old(books.contents) then 0 else -1
      ensures books.contents == if writer then old(books.contents) - {key} else old(books.contents)
      ensures rc != 0 ==> file == old(file) && books == old(books)
      ensures hdr.bucketElems == old(hdr.bucketElems)
    {
      hide Sound, Coherent, Mapped, SlotsListed, HasKey, Hash, SelectedBy;
      if !writer {
        return -1;
      }
      var loc, data, hash := FindKey(key);
      if loc == -1 {
        assert old(books.contents) - {key} == old(books.contents);
        return -1;
      }
      Erase(loc, key, hash);
      return 0;
    }

    /** Take out a found element, free its record and write everything out. */
    method Erase(loc: nat, key: Bytes, ghost hash: nat)
      requires loc < |Table()| && HasKey(file, Table(), loc, key) && Selected(hash) && Valid()
      modifies this
      ensures books.contents == old(books.contents) - {key} && hdr.bucketElems == old(hdr.bucketElems)
      ensures Valid()
    {
      hide Sound, Coherent, Mapped, SlotsListed, HasKey, SameRecord, Matches, ReleaseDrops, ReleaseScraps;
      SelectedNotZero(hash);
      ghost var f, c, b, h := file, cache, books, hdr;
      SelectedListed(dir, hdr, books, cache[cur], hash);
      hide SelectedBy;
      var elem := Table()[loc];
      RemoveElement(loc, key, hash);
      Free(elem.ptr, elem.keySize + elem.dataSize, 0);
      bucketChanged := true;
      cache := cache[cur := cache[cur].(data := cache[cur].data.(hash := -1, keySize := 0, elemLoc := -1,
                                                                 dptr := None))];
      assert cache == c[cur := cache[cur]];
      DeleteSettled(f, file, c, b, cur, cache[cur], books, dir, h, hdr, elem, key);
      EndUpdate();
    }

    /** Take an element out of the current bucket's table; its record's bytes are in transit from then on. */
    method RemoveElement(loc: nat, key: Bytes, ghost hash: nat)
      requires loc < |Table()| && HasKey(file, Table(), loc, key)
      requires Selected(hash) && books.held == []
      requires Mapped(dir, hdr, books) && Stable(-1)
      modifies this`cache, this`books
      ensures cur < |cache| && old(cur < |cache|) && loc < |old(Table())|
      ensures cache == old(cache)[cur := old(cache)[cur].(
                                    bucket := old(cache)[cur].bucket.(core := cache[cur].bucket.core))]
      ensures books == Without(old(books), cache[cur].adr, cache[cur].bucket.core, old(Table()[loc]), key)
      ensures Mapped(dir, hdr, books) && Ready()
    {
      hide Sound, Coherent, Mapped, SlotsListed, OccBag, ProbeOk, HasKey, CoreOk, SelectedBy, ReadyFor;
      var table, core := Table(), cache[cur].bucket.core;
      HasKeyIs(file, table, loc, key);
      SelectedTable(dir, hdr, books, cache[cur], hash);
      CoreTable(core, books.pre[cache[cur].adr], hdr.bucketElems);
      var tab := new Slot[|table|](i requires 0 <= i < |table| => table[i]);
      assert tab[..] == table;
      DeleteAt(tab, loc);
      var less := Core(core.bits, core.count - 1, tab[..]);
      ElementTaken(file, hdr, dir, books, headerChanged, cache[cur], hash, less, loc, key);
      cache := cache[cur := cache[cur].(bucket := cache[cur].bucket.(core := less))];
      books := Without(books, cache[cur].adr, less, table[loc], key);
    }

    // ----- writing everything out (update.c)

    /** Between operations: nothing in transit, nothing stale on disk, no flag set. */
    ghost predicate Valid()
      reads this
    {
      && CacheSized() && AllClean()
      && !headerChanged && !directoryChanged && !bucketChanged && !secondChanged
      && books.held == [] && books.dirty == {} && !books.dirStale
      && Mapped(dir, hdr, books) && Stable(-1)
    }

    /** The flags cover everything that is stale on disk. */
    ghost predicate Flagged()
      reads this
    {
      && CacheSized() && cur < |cache| && cache[cur].adr != 0
      && (books.dirStale ==> directoryChanged)
      && (!bucketChanged ==> cache[cur].adr !in books.dirty)
      && (!secondChanged ==> forall i | 0 <= i < |cache| && cache[i].changed :: i == cur && bucketChanged)
    }

    /** `_gdbm_end_update`: write the changed buckets, the directory and the header. */
    method EndUpdate()
      requires Flagged() && books.held == [] && Mapped(dir, hdr, books) && Stable(cur)
      modifies this`file, this`cache, this`books, this`headerChanged, this`directoryChanged, this`bucketChanged,
               this`secondChanged
      ensures books == old(books).(dirty := {}, dirStale := false)
      ensures Valid()
    {
      hide Sound, SlotsListed, CacheOk, DataOk, SameRecord, Mapped, Encode;
      FlushBuckets();
      if directoryChanged {
        WriteDirectoryBlock();
        directoryChanged := false;
      }
      if headerChanged {
        WriteHeaderBlock();
        headerChanged := false;
      }
      MappedSame(dir, hdr, old(books), books);
    }

    method WriteDirectoryBlock()
      requires Stable(-1)
      modifies this`file, this`books
      ensures books == old(books).(dirStale := false)
      ensures Stable(-1)
    {
      hide Sound, Coherent, SameRecord, Encode, SlotsListed;
      SoundGeometry(file, hdr, dir, books, headerChanged);
      WriteDirectory(file, hdr, dir, books, headerChanged);
      ghost var f := file;
      file := WriteAt(file, hdr.dir, Encode(DirImage(dir), hdr.dirSize));
      CoherentFrame(f, file, cache, books, books.(dirStale := false));
      SlotsListedSame(books, books.(dirStale := false));
      books := books.(dirStale := false);
      assert Coherent(file, cache, books, -1);
    }

    /** `write_header`. */
    method WriteHeaderBlock()
      requires Stable(-1)
      modifies this`file
      ensures Sound(file, hdr, dir, books, false) && Coherent(file, cache, books, -1)
    {
      hide Sound, Coherent, SameRecord, Encode, SlotsListed;
      WriteHeader(file, hdr, dir, books, headerChanged);
      ghost var f := file;
      file := WriteAt(file, 0, Encode(HeaderImage(hdr), hdr.blockSize));
      CoherentFrame(f, file, cache, books, books);
      assert Coherent(file, cache, books, -1);
      assert Sound(file, hdr, dir, books, false);
    }

    /** Write the current bucket and the others that have changed. */
    method FlushBuckets()
      requires Flagged() && Stable(cur)
      modifies this`file, this`cache, this`books, this`bucketChanged, this`secondChanged
      ensures books == old(books).(dirty := {}) && |cache| == old(|cache|)
      ensures !bucketChanged && !secondChanged && AllClean() && Stable(-1)
    {
      hide Sound, SlotsListed, SameRecord, DataOk;
      if bucketChanged {
        WriteBucket(cur, cur);
        bucketChanged := false;
      }
      CloseSlot(file, cache, books, cur);
      if secondChanged {
        for index := 0 to |cache|
          invariant |cache| == old(|cache|) && !bucketChanged && Stable(-1)
          invariant books == old(books).(dirty := books.dirty)
          invariant forall j :: 0 <= j < index ==> !cache[j].changed
        {
          if cache[index].changed {
            WriteBucket(index, -1);
          }
        }
        secondChanged := false;
      }
      assert books.dirty == {};
    }

    /** Replace the next slot in turn by a bucket from the file. */
    method ReadIntoCache(bucketAdr: nat)
      requires Stable(-1) && 0 < |cache| && -1 <= lastRead < |cache| && bucketAdr in books.tabs && bucketAdr != 0
      requires forall i :: 0 <= i < |cache| ==> cache[i].adr != bucketAdr
      modifies this`file, this`cache, this`cur, this`lastRead, this`books
      ensures cur < |cache| == old(|cache|) && cache[cur].adr == bucketAdr && Matches(cache[cur], books)
      ensures lastRead == cur == Turn(old(lastRead), |cache|)
      ensures forall i :: 0 <= i < |cache| && i != cur ==> cache[i] == old(cache)[i]
      ensures Stable(-1)
      ensures old(AllClean()) ==> AllClean() && file == old(file) && books == old(books)
      ensures books == old(books).(dirty := books.dirty) && books.dirty <= old(books.dirty)
      ensures forall s :: s in books.slots ==> SameRecord(old(file), file, s)
    {
      hide Sound, SameRecord, SlotsListed, DataOk, Encode, Turn;
      SameFile(file, books);
      lastRead := Turn(lastRead, |cache|);
      if cache[lastRead].changed {
        WriteBucket(lastRead, -1);
      }
      assert bucketAdr !in books.dirty;
      BucketOnDisk(file, hdr, dir, books, headerChanged, bucketAdr);
      var e := CacheElem(file[bucketAdr].img.bucket, bucketAdr, false, cache[lastRead].data.(elemLoc := -1));
      LoadedSlot(file, cache, books, lastRead, e, -1);
      cache := cache[lastRead := e];
      cur := lastRead;
    }
  }

  /** `gdbm_open` on an empty file: null unless the block size fits the directory exactly. */
  method OpenNew(blockSize: nat, statBlockSize: nat) returns (db: Gdbm?)
    requires 512 <= statBlockSize < HASH_LIMIT && blockSize < HASH_LIMIT
    ensures var size := FileBlockSize(blockSize, statBlockSize);
            db != null <==> exists bits :: GoodBlockSize(size, bits)
    ensures var size := if blockSize >= 512 then blockSize else statBlockSize;
            db != null <==> exists k :: 3 <= k <= 31 && size == 8 * Pow2(k)
    ensures db != null ==> fresh(db) && db.writer && db.books.contents == map[]
    ensures db != null ==> db.hdr.bucketElems == BucketElems(FileBlockSize(blockSize, statBlockSize))
    ensures db != null ==> db.hdr.blockSize == if blockSize >= 512 then blockSize else statBlockSize
    ensures db != null ==>
              var size, n, m := db.hdr.blockSize, db.hdr.bucketElems, db.hdr.avail.size;
              && SIZEOF_BUCKET + (n - 1) * SIZEOF_ELEMENT <= size < SIZEOF_BUCKET + n * SIZEOF_ELEMENT
              && SIZEOF_HEADER + (m - 1) * SIZEOF_AVAIL_ELEM <= size < SIZEOF_HEADER + m * SIZEOF_AVAIL_ELEM
    ensures db != null ==> db.Valid()
  {
    hide OnDisk, InitialFile, InitialHeader, InitialDir, BucketElems, HeaderCapacity;
    var size := FileBlockSize(blockSize, statBlockSize);
    var bits, ok := DirectoryBits(size);
    SizeAccepted(size);
    if !ok {
      return null;
    }
    var h, dir := InitialHeader(size, bits), InitialDir(size, bits);
    var tab := new Slot[h.bucketElems];
    ClearTable(tab);
    var bucket := Bucket([Avail(size, 3 * size)], Core(0, 0, tab[..]));
    InitialOnDisk(size, bits, bucket);
    InitialElems(size, bits);
    db := new Gdbm.Attach(InitialFile(size, h, dir, bucket), h, dir, true, InitialBooks(size, bucket));
  }

  /** `gdbm_open` on an old file: header and directory are read back from it. */
  method OpenOld(f: File, w: bool, ghost h: Header, ghost d: seq<nat>, ghost b: Books) returns (db: Gdbm)
    requires OnDisk(f, h, d, b)
    ensures fresh(db) && db.writer == w && db.file == f && db.hdr == h && db.dir == d && db.books == b
    ensures db.Valid()
  {
    hide OnDisk;
    OnDiskHeader(f, h, d, b);
    var header := f[0].img.header;
    assert f[header.dir] == Part(DirImage(d), 0);
    var dir := f[header.dir].img.dir;
    db := new Gdbm.Attach(f, header, dir, w, b);
  }
}
