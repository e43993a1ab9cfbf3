/** Facts about files, headers, books and caches that the steps of the engine rest on. */
module EngineFacts {
  import opened Base
  import opened StringHash
  import opened Layout
  import opened FreeList
  import opened HashTable
  import opened Directory
  import opened Space
  import opened Ledger
  import opened State
  import opened Steps
  import opened Caching
  import opened Lookup
  import opened Updates
  import opened Splitting
  import opened Room
  import opened Iteration

  // ----- what the allocator's steps change

  /** The cache with another list of free extents in one bucket. */
  function WithAvail(c: seq<CacheElem>, i: nat, av: seq<AvailElem>): seq<CacheElem>
    requires i < |c|
  {
    c[i := c[i].(bucket := c[i].bucket.(avail := av))]
  }

  /** Nothing of the books has changed but the allocator's part. */
  ghost predicate SpaceBooks(b: Books, c: Books) {
    c == b.(stack := c.stack, scraps := c.scraps, dropped := c.dropped) && b.scraps <= c.scraps
      && b.dropped <= c.dropped
  }

  /** `total` bytes and as many blocks more as `size` takes. */
  function WholeBlocks(total: nat, size: nat, block: nat): (n: nat)
    ensures total <= n && (block > 0 ==> size <= n)
    decreases size - total
  {
    if block > 0 && total < size then WholeBlocks(total + block, size, block) else total
  }

  /** What a request takes from the header: the first fitting entry, or else whole blocks at the end of the file. */
  function HeaderExtent(n: nat, h: Header): (e: AvailElem)
    ensures h.blockSize > 0 ==> n <= e.size
  {
    var i := FitIndex(n, h.avail.table);
    if i < |h.avail.table| then h.avail.table[i] else Avail(WholeBlocks(h.blockSize, n, h.blockSize), h.nextBlock)
  }

  /** The header after that. */
  function HeaderLess(n: nat, h: Header): Header {
    if FitIndex(n, h.avail.table) < |h.avail.table| then h.(avail := h.avail.(table := AfterFit(n, h.avail.table)))
    else h.(nextBlock := h.nextBlock + HeaderExtent(n, h).size)
  }

  /** An extent behind the first n bytes of another one. */
  function Behind(e: AvailElem, n: nat): AvailElem {
    Avail(if n <= e.size then e.size - n else 0, e.adr + n)
  }

  /** An extent that is too small to be worth keeping is given up. */
  function Fragment(e: AvailElem): (r: seq<AvailElem>)
    ensures |r| <= 1
  {
    if e.size <= IGNORE_SIZE then [e] else []
  }

  /** What halving the header table drops: nothing unless the table is full, and then the last entry of an odd rest. */
  function PushDrops(av: AvailBlock): (r: seq<AvailElem>)
    ensures |r| <= 1
  {
    if |av.table| == av.size then LastIfOdd(AfterFit(HalfSize(av.size), av.table)) else []
  }

  /** And the fragment that it gives up: what is left of the extent for the stacked block, if that is too small. */
  function PushScraps(h: Header): (r: seq<AvailElem>)
    ensures |r| <= 1
  {
    var half := HalfSize(h.avail.size);
    if |h.avail.table| == h.avail.size then Fragment(Behind(HeaderExtent(half, h), half)) else []
  }

  /** A released extent of n bytes goes to the header; the bucket has `count` entries. */
  predicate ToHeader(h: Header, count: nat, n: nat) {
    n > IGNORE_SIZE && (n >= h.blockSize || count == BUCKET_AVAIL)
  }

  /** The entries dropped by the release of an extent. */
  function ReleaseDrops(h: Header, count: nat, e: AvailElem): (r: seq<AvailElem>)
    ensures |r| <= 1
  {
    if ToHeader(h, count, e.size) then PushDrops(h.avail) else []
  }

  /** The fragments given up by the release of an extent. */
  function ReleaseScraps(h: Header, count: nat, e: AvailElem): (r: seq<AvailElem>)
    ensures |r| <= 1
  {
    if ToHeader(h, count, e.size) then PushScraps(h) else Fragment(e)
  }

  /** The remainder of the extent for a stacked block is released when the table has room. */
  lemma PushGivesUp(h: Header, e: AvailElem, g: Header, count: nat)
    requires |h.avail.table| == h.avail.size && |g.avail.table| < g.avail.size
    requires var half := HalfSize(h.avail.size); half <= e.size && e == HeaderExtent(half, h)
    ensures var half := HalfSize(h.avail.size);
            var rest := Avail(e.size - half, e.adr + half);
            ReleaseDrops(g, count, rest) == [] && ReleaseScraps(g, count, rest) == PushScraps(h)
  {
    hide HalfSize, HeaderExtent;
  }

  /** No half table was pushed or popped, and the header table grew by at most `more`. */
  ghost predicate Settled(s: Space, t: Space, more: nat) {
    && t.file == s.file && t.stack == s.stack && t.dropped == s.dropped
    && t.hdr.nextBlock == s.hdr.nextBlock && t.hdr.avail.size == s.hdr.avail.size
    && t.hdr.avail.nextBlock == s.hdr.avail.nextBlock
    && |t.hdr.avail.table| <= |s.hdr.avail.table| + more
  }

  /** The chain of half tables is untouched. */
  ghost predicate Unchained(s: Space, t: Space) {
    && t.file == s.file && t.stack == s.stack && t.dropped == s.dropped
    && t.hdr.avail.size == s.hdr.avail.size && t.hdr.avail.nextBlock == s.hdr.avail.nextBlock
    && |t.hdr.avail.table| <= |s.hdr.avail.table|
  }

  // ----- which free extent is taken

  /** Some extent of the list has at least n bytes. */
  predicate Fits(n: nat, list: seq<AvailElem>) {
    exists e :: e in list && e.size >= n
  }

  /** e is a smallest extent of the list of at least n bytes. */
  predicate BestFit(n: nat, list: seq<AvailElem>, e: AvailElem) {
    e in list && e.size >= n && forall x :: x in list && x.size >= n ==> e.size <= x.size
  }

  /**
   * The bucket's and the header's list before and after an adjustment: what the bucket has got is at least as large
   * as all that stays in the header, and what it has given is at most as large as all that it keeps.
   */
  ghost predicate Evened(av: seq<AvailElem>, table: seq<AvailElem>, av': seq<AvailElem>, table': seq<AvailElem>,
                         pulled: multiset<AvailElem>, pushed: multiset<AvailElem>) {
    && multiset(av') + pushed == multiset(av) + pulled && multiset(table') + pulled == multiset(table) + pushed
    && |pulled| <= 1 && (pulled == multiset{} || pushed == multiset{})
    && (forall e, x :: e in pulled && x in table' ==> x.size <= e.size)
    && (forall e, x :: e in pushed && x in av' ==> e.size <= x.size)
  }

  /** One entry has gone from one list to the other. */
  ghost predicate Moved(from: seq<AvailElem>, to: seq<AvailElem>, from': seq<AvailElem>, to': seq<AvailElem>,
                        e: AvailElem) {
    multiset(from) == multiset(from') + multiset{e} && multiset(to') == multiset(to) + multiset{e}
  }

  lemma LargestMoved(table: seq<AvailElem>, av: seq<AvailElem>)
    requires GoodList(table) && table != []
    ensures var last := |table| - 1;
            && Moved(table, av, table[..last], Put(table[last], av), table[last])
            && forall x :: x in table ==> x.size <= table[last].size
  {
    var last := |table| - 1;
    PutKeepsAll(table[last], av);
    assert table == table[..last] + [table[last]];
    hide Put;
  }

  lemma SmallestMoved(av: seq<AvailElem>, table: seq<AvailElem>)
    requires GoodList(av) && av != []
    ensures Moved(av, table, RemoveAt(av, 0), Put(av[0], table), av[0])
    ensures forall x :: x in av ==> av[0].size <= x.size
  {
    PutKeepsAll(av[0], table);
    assert av == [av[0]] + av[1..];
    assert RemoveAt(av, 0) == av[1..];
    hide Put;
  }

  lemma NothingMoved(av: seq<AvailElem>, table: seq<AvailElem>)
    ensures Evened(av, table, av, table, multiset{}, multiset{})
  {
  }

  lemma PulledEvened(av: seq<AvailElem>, table: seq<AvailElem>, av': seq<AvailElem>, table': seq<AvailElem>,
                     e: AvailElem)
    requires Moved(table, av, table', av', e) && forall x :: x in table ==> x.size <= e.size
    ensures Evened(av, table, av', table', multiset{e}, multiset{})
  {
    forall x | x in table'
      ensures x.size <= e.size
    {
      assert x in multiset(table);
    }
  }

  lemma PushedEvened(av: seq<AvailElem>, table: seq<AvailElem>, av1: seq<AvailElem>, table1: seq<AvailElem>,
                     pushed: multiset<AvailElem>, av2: seq<AvailElem>, table2: seq<AvailElem>, e: AvailElem)
    requires Evened(av, table, av1, table1, multiset{}, pushed)
    requires Moved(av1, table1, av2, table2, e) && forall x :: x in av1 ==> e.size <= x.size
    ensures Evened(av, table, av2, table2, multiset{}, pushed + multiset{e})
  {
    forall d, x | d in pushed + multiset{e} && x in av2
      ensures d.size <= x.size
    {
      assert x in multiset(av2) && x in multiset(av1) && x in av1;
    }
    assert multiset(av2) + (pushed + multiset{e}) == multiset(av1) + pushed;
    assert multiset(table1) + multiset{} == multiset(table1);
    assert multiset(table2) + multiset{} == multiset(table) + (pushed + multiset{e});
  }

  /**
   * How full the bucket's list is after an adjustment: `before` entries, `spare` in the header, which
   * may now be `full`.
   */
  predicate Leveled(before: nat, spare: nat, after: nat, full: bool) {
    if before < BUCKET_AVAIL / 3 then after == before + Min(spare, 1)
    else after <= before && (after == before || after >= 4) && (after <= 4 || full)
  }

  /** The bucket is not empty while the header has entries, nor more than two thirds full while the header has room. */
  predicate EvenedOut(s: Space) {
    (s.av == [] ==> s.hdr.avail.table == []) && (|s.av| <= 4 || |s.hdr.avail.table| == s.hdr.avail.size)
  }

  /** The header table that is searched: a popped one, if the header's own is empty and there is one. */
  function Searched(s: Space): seq<AvailElem> {
    if s.hdr.avail.table == [] && s.stack != []
    then Put(Avail(HalfSize(s.hdr.avail.size), s.hdr.avail.nextBlock), s.stack[0].block.table)
    else s.hdr.avail.table
  }

  /** The header after popping, if there is need and something to pop. */
  function Refilled(s: Space): Header {
    if s.hdr.avail.table == [] && s.stack != [] then s.hdr.(avail := s.stack[0].block.(table := Searched(s))) else s.hdr
  }

  /** The extent that a request of n bytes takes: from the bucket, or else from the header. */
  function Taken(s: Space, n: nat): AvailElem {
    var i := FitIndex(n, s.av);
    if i < |s.av| then s.av[i] else HeaderExtent(n, Refilled(s))
  }

  /** The header after that. */
  function TakenHeader(s: Space, n: nat): Header {
    if FitIndex(n, s.av) < |s.av| then s.hdr else HeaderLess(n, Refilled(s))
  }

  /** There is a stacked block exactly if the header links to one. */
  lemma StackLinked(s: Space)
    requires Chained(s)
    ensures s.stack != [] <==> s.hdr.avail.nextBlock != 0
    ensures s.hdr.avail.table != [] || s.stack == [] ==> Searched(s) == s.hdr.avail.table
  {
  }

  lemma ListsSorted(s: Space)
    requires ListsOk(s)
    ensures Sorted(s.av) && Sorted(s.hdr.avail.table)
  {
  }

  /** What the first fitting entry of a sorted table is. */
  lemma BestFitIs(n: nat, list: seq<AvailElem>)
    requires Sorted(list)
    ensures FitIndex(n, list) < |list| <==> Fits(n, list)
    ensures FitIndex(n, list) < |list| ==> BestFit(n, list, list[FitIndex(n, list)])
  {
    FirstFitIsBestFit(n, list);
    hide FitIndex;
  }

  lemma NotInBucket(s: Space, size: nat, val: AvailElem)
    requires ListsOk(s) && val.size == 0
    requires var i := FitIndex(size, s.av); i < |s.av| ==> val == s.av[i]
    ensures FitIndex(size, s.av) == |s.av|
  {
  }

  lemma NotFound(s: Space, size: nat, val: AvailElem)
    requires ListsOk(s) && val.size == 0
    requires var i := FitIndex(size, s.hdr.avail.table);
             i < |s.hdr.avail.table| ==> val == s.hdr.avail.table[i]
    ensures FitIndex(size, s.hdr.avail.table) == |s.hdr.avail.table|
  {
  }

  lemma EntryOk(s: Space, i: nat)
    requires ListsOk(s) && i < |s.hdr.avail.table|
    ensures s.hdr.avail.table[i].size > IGNORE_SIZE && s.hdr.avail.table[i].adr > 0
  {
  }

  lemma BucketEntryOk(s: Space, i: nat)
    requires ListsOk(s) && i < |s.av|
    ensures s.av[i].size > IGNORE_SIZE && s.av[i].adr > 0
  {
  }

  lemma ListsBounds(s: Space)
    requires ListsOk(s)
    ensures |s.av| <= BUCKET_AVAIL && |s.hdr.avail.table| <= s.hdr.avail.size && 7 <= s.hdr.avail.size
    ensures IGNORE_SIZE < s.hdr.blockSize && 0 < s.hdr.nextBlock
  {
  }

  // ----- allocating and releasing

  lemma BalancedSelf(s: Space)
    ensures Balanced(s, s, NOTHING, NOTHING)
  {
  }

  lemma BalancedGeometry(s: Space, t: Space, freed: AvailElem, taken: AvailElem)
    requires Balanced(s, t, freed, taken)
    ensures SameGeometry(s.hdr, t.hdr)
  {
  }

  lemma NothingCovers(x: nat)
    ensures In(NOTHING, x) == 0
  {
  }

  lemma ApartLess(s: Space, e: AvailElem)
    requires Apart(s, e)
    ensures Apart(s, NOTHING)
  {
    hide Pool;
    forall x: nat ensures Pool(s, x) + In(NOTHING, x) <= if x < s.hdr.nextBlock then 1 else 0 {
      assert Pool(s, x) + In(e, x) <= if x < s.hdr.nextBlock then 1 else 0;
    }
  }

  lemma FileKeptSelf(s: Space, e: AvailElem)
    ensures FileKept(s, s, e)
  {
  }

  lemma FileKeptMore(s: Space, t: Space, e: AvailElem)
    requires FileKept(s, t, NOTHING)
    ensures FileKept(s, t, e)
  {
    hide Pool;
  }

  lemma FileKeptSame(s: Space, t: Space, u: Space, e: AvailElem)
    requires FileKept(s, t, e) && u.file == t.file
    ensures FileKept(s, u, e)
  {
    hide Pool;
  }

  lemma AllocApart(s: Space, t: Space, e: AvailElem, n: nat)
    requires Balanced(s, t, NOTHING, e) && n <= e.size && Apart(s, NOTHING)
    ensures Apart(t, Avail(e.size - n, e.adr + n))
  {
    var rest := Avail(e.size - n, e.adr + n);
    forall x: nat
      ensures Pool(t, x) + In(rest, x) <= if x < t.hdr.nextBlock then 1 else 0
    {
      hide Pool, In;
      Chop(e, n, x);
      NothingCovers(x);
      assert Delta(s, t, x) == In(NOTHING, x) - In(e, x);
      assert Pool(s, x) + In(NOTHING, x) <= if x < s.hdr.nextBlock then 1 else 0;
    }
  }

  lemma AllocDone(s: Space, t: Space, u: Space, e: AvailElem, n: nat)
    requires Balanced(s, t, NOTHING, e) && t.file == s.file && n <= e.size
    requires Balanced(t, u, Avail(e.size - n, e.adr + n), NOTHING)
    requires FileKept(t, u, Avail(e.size - n, e.adr + n))
    ensures Balanced(s, u, NOTHING, Avail(n, e.adr)) && FileKept(s, u, NOTHING)
  {
    var rest := Avail(e.size - n, e.adr + n);
    forall x: nat | In(rest, x) > 0
      ensures Pool(s, x) + In(NOTHING, x) > 0 || x >= s.hdr.nextBlock
    {
      hide Pool;
      assert Delta(s, t, x) == In(NOTHING, x) - In(e, x);
    }
    hide Balanced;
    FileKeptSelf(s, NOTHING);
    FileKeptSame(s, s, t, NOTHING);
    hide FileKept;
    FileKeptTrans(s, t, u, NOTHING, rest, e);
    BalancedTrans(s, t, u, NOTHING, rest, e, NOTHING, NOTHING, Avail(n, e.adr));
  }

  lemma HeldApart(f: File, h: Header, b: Books, a: nat, i: nat)
    requires Tiled(h, b) && 512 <= h.blockSize && a in b.avs && i < |b.held|
    ensures Apart(View(f, h, b, a), b.held[i])
    ensures b.held[i].size > IGNORE_SIZE ==> b.held[i].adr > 0
  {
    hide Apart, Tiled;
    TakeHeld(b, i);
    TiledApart(f, h, b, a, b.held[i]);
    if b.held[i].size > 0 {
      HeldNotAtZero(h, b, b.held[i]);
    }
  }

  // ----- pushing half a table

  lemma PushApart(s0: Space, s1: Space, s2: Space, newLoc: AvailElem, half: nat)
    requires Balanced(s0, s1, NOTHING, newLoc) && half <= newLoc.size
    requires Balanced(s1, s2, Avail(half, newLoc.adr), NOTHING)
    requires Apart(s0, NOTHING)
    ensures Apart(s2, Avail(newLoc.size - half, newLoc.adr + half))
  {
    var rest := Avail(newLoc.size - half, newLoc.adr + half);
    forall x: nat
      ensures Pool(s2, x) + In(rest, x) <= if x < s2.hdr.nextBlock then 1 else 0
    {
      hide Pool, In;
      Chop(newLoc, half, x);
      NothingCovers(x);
      assert Delta(s0, s1, x) == In(NOTHING, x) - In(newLoc, x);
      assert Delta(s1, s2, x) == In(Avail(half, newLoc.adr), x) - In(NOTHING, x);
      assert Pool(s0, x) + In(NOTHING, x) <= if x < s0.hdr.nextBlock then 1 else 0;
    }
  }

  lemma PushBalanced(s0: Space, s1: Space, s2: Space, s3: Space, newLoc: AvailElem, half: nat)
    requires Balanced(s0, s1, NOTHING, newLoc) && half <= newLoc.size
    requires Balanced(s1, s2, Avail(half, newLoc.adr), NOTHING)
    requires Balanced(s2, s3, Avail(newLoc.size - half, newLoc.adr + half), NOTHING)
    ensures Balanced(s0, s3, NOTHING, NOTHING)
  {
    var first, rest := Avail(half, newLoc.adr), Avail(newLoc.size - half, newLoc.adr + half);
    hide Balanced;
    BalancedTrans(s0, s1, s2, NOTHING, first, newLoc, NOTHING, NOTHING, rest);
    BalancedTrans(s0, s2, s3, NOTHING, rest, rest, NOTHING, NOTHING, NOTHING);
  }

  lemma FilePool(s: Space, t: Space, x: nat)
    requires t == s.(file := t.file)
    ensures Pool(s, x) == Pool(t, x)
  {
  }

  lemma PushFile(s0: Space, s1: Space, newLoc: AvailElem, half: nat, s4: Space)
    requires Balanced(s0, s1, NOTHING, newLoc) && half <= newLoc.size
    requires exists img :: s4.file == WriteAt(s0.file, newLoc.adr, Encode(img, half))
    ensures FileKept(s0, s4, NOTHING)
  {
    hide Pool;
    var img :| s4.file == WriteAt(s0.file, newLoc.adr, Encode(img, half));
    forall x | 0 <= x < |s0.file|
      ensures s4.file[x] == s0.file[x] || Pool(s0, x) + In(NOTHING, x) > 0 || x >= s0.hdr.nextBlock
    {
      assert Delta(s0, s1, x) == In(NOTHING, x) - In(newLoc, x);
    }
  }

  /** Writing the new block completes the chain without disturbing the rest of it. */
  lemma PushChain(s0: Space, s1: Space, newLoc: AvailElem, half: nat, block: AvailBlock, g: File)
    requires Balanced(s0, s1, NOTHING, newLoc) && Apart(s0, NOTHING) && Unchained(s0, s1) && Chained(s0)
    requires ListsOk(s1) && newLoc.adr > 0
    requires half == HalfSize(s0.hdr.avail.size) <= newLoc.size
    requires block == Halved(s1, newLoc.adr).stack[0].block
    requires g == WriteAt(s0.file, newLoc.adr, Encode(AvailImage(block), half))
    ensures ChainOk(g, newLoc.adr, [StackEntry(newLoc.adr, block)] + s0.stack, s0.hdr.avail.size)
  {
    hide HalfSize, Evens, Odds, GoodList, FileKept, LastIfOdd;
    var size, table := s0.hdr.avail.size, s1.hdr.avail.table;
    HalfSizePositive(size);
    HalvesGood(table);
    HalfLengths(table);
    WriteHolds(s0.file, newLoc.adr, AvailImage(block), half);
    forall x | 0 <= x < |s0.file| && StackCover(s0.stack, size, x) > 0
      ensures x < |g| && g[x] == s0.file[x]
    {
      assert Pool(s1, x) >= StackCover(s1.stack, size, x) > 0;
      hide Pool, StackCover;
      assert Delta(s0, s1, x) == In(NOTHING, x) - In(newLoc, x);
      assert Pool(s0, x) + In(NOTHING, x) <= if x < s0.hdr.nextBlock then 1 else 0;
    }
    hide Pool, Holds;
    ChainFrame(s0.file, g, s0.hdr.avail.nextBlock, s0.stack, size);
    assert ([StackEntry(newLoc.adr, block)] + s0.stack)[1..] == s0.stack;
  }

  lemma HalvedSmaller(s0: Space, s1: Space, adr: nat)
    requires ListsOk(s1) && 7 <= s0.hdr.avail.size == |s0.hdr.avail.table| && Unchained(s0, s1)
    ensures |Halved(s1, adr).hdr.avail.table| <= s0.hdr.avail.size / 2
    ensures Halved(s1, adr).hdr.avail.size == s1.hdr.avail.size == s0.hdr.avail.size
  {
    HalfLengths(s1.hdr.avail.table);
  }

  /** What pushing half a table achieves. */
  lemma PushDone(s0: Space, s1: Space, s2: Space, s3: Space, s4: Space, newLoc: AvailElem)
    requires var half := HalfSize(s0.hdr.avail.size);
             && Balanced(s0, s1, NOTHING, newLoc) && Apart(s0, NOTHING) && half <= newLoc.size && newLoc.adr > 0
             && s2 == Halved(s1, newLoc.adr) && Balanced(s1, s2, Avail(half, newLoc.adr), NOTHING)
             && Balanced(s2, s3, Avail(newLoc.size - half, newLoc.adr + half), NOTHING)
             && s4 == s3.(file := WriteAt(s3.file, newLoc.adr, Encode(AvailImage(s2.stack[0].block), half)))
    requires ListsOk(s1) && ListsOk(s3) && Chained(s0)
    requires Unchained(s0, s1)
    requires Settled(s2, s3, 3) && |s2.hdr.avail.table| <= s0.hdr.avail.size / 2
    ensures Balanced(s0, s4, NOTHING, NOTHING) && FileKept(s0, s4, NOTHING)
    ensures ListsOk(s4) && Chained(s4) && |s4.hdr.avail.table| < s4.hdr.avail.size
    ensures s4.dropped == s0.dropped + LastIfOdd(s1.hdr.avail.table)
    ensures |s4.stack| == |s0.stack| + 1 && s4.stack[1..] == s0.stack
            && s4.stack[0].block.table == Odds(s1.hdr.avail.table)
  {
    hide Evens, Odds, HalfSize, GoodList;
    var half := HalfSize(s0.hdr.avail.size);
    HalfSizePositive(s0.hdr.avail.size);
    PushBalanced(s0, s1, s2, s3, newLoc, half);
    PushFile(s0, s1, newLoc, half, s4);
    PushChain(s0, s1, newLoc, half, s2.stack[0].block, s4.file);
    assert Balanced(s0, s4, NOTHING, NOTHING) by {
      hide Pool;
      forall x: nat ensures Delta(s0, s4, x) == In(NOTHING, x) - In(NOTHING, x) {
        assert Delta(s0, s3, x) == In(NOTHING, x) - In(NOTHING, x);
        FilePool(s3, s4, x);
      }
    }
  }

  // ----- parts of a sound state

  lemma SoundTiled(f: File, h: Header, dir: seq<nat>, b: Books, hc: bool)
    requires Sound(f, h, dir, b, hc)
    ensures Tiled(h, b) && 512 <= h.blockSize
  {
  }

  lemma SoundGeometry(f: File, h: Header, dir: seq<nat>, b: Books, hc: bool)
    requires Sound(f, h, dir, b, hc)
    ensures Geometry(h)
  {
  }

  lemma SoundOf(f: File, h: Header, dir: seq<nat>, b: Books, hc: bool, e: CacheElem)
    requires ReadyFor(f, h, dir, b, hc, e)
    ensures Sound(f, h, dir, b, hc) && Matches(e, b)
  {
    hide Sound;
  }

  lemma SoundDirty(f: File, h: Header, dir: seq<nat>, b: Books, hc: bool, c: Books)
    requires b.dirty == {} && c == b.(dirty := c.dirty) && Sound(f, h, dir, b, hc)
    ensures Sound(f, h, dir, c, hc)
  {
    hide GoodList, ChainOk, ContentOk, Holds, Tiled;
    DirtyTiled(h, b, c);
  }

  lemma NotAtZero(f: File, h: Header, dir: seq<nat>, b: Books, hc: bool, a: nat)
    requires Sound(f, h, dir, b, hc) && a in b.tabs
    ensures a != 0
  {
    hide Homes, Records, FreeIn, StackCover, Cover, ChainOk, ImagesOk, ContentOk;
    HomeNotZero(h, b);
  }

  /** A bucket that is not stale can be read from the file. */
  lemma BucketOnDisk(f: File, h: Header, dir: seq<nat>, b: Books, hc: bool, a: nat)
    requires Sound(f, h, dir, b, hc) && a in b.tabs && a !in b.dirty
    ensures a in b.avs && a < |f| && f[a] == Part(BucketImage(Bucket(b.avs[a], b.tabs[a])), 0)
  {
    hide Tiled, ChainOk, ContentOk, GoodList;
    assert Holds(f, a, BucketImage(Bucket(b.avs[a], b.tabs[a])), h.bucketSize);
  }

  lemma SameFile(f: File, b: Books)
    ensures forall s :: s in b.slots ==> SameRecord(f, f, s)
  {
  }

  lemma SlotsListedSame(b: Books, c: Books)
    requires SlotsListed(b) && c.tabs == b.tabs && c.slots == b.slots
    ensures SlotsListed(c)
  {
  }

  // ----- the cache

  lemma RememberOk(f: File, cache: seq<CacheElem>, b: Books, i: nat, d: DataCache)
    requires Coherent(f, cache, b, -1) && i < |cache|
    requires DataFits(f, cache[i].(data := d))
    ensures Coherent(f, cache[i := cache[i].(data := d)], b, -1)
  {
    hide DataFits;
    var c2 := cache[i := cache[i].(data := d)];
    forall a | a in b.dirty
      ensures exists j :: 0 <= j < |c2| && c2[j].adr == a && (c2[j].changed || j == -1)
    {
      var j :| 0 <= j < |cache| && cache[j].adr == a && (cache[j].changed || j == -1);
      assert c2[j].adr == cache[j].adr && c2[j].changed == cache[j].changed;
    }
  }

  lemma CloseSlot(f: File, cache: seq<CacheElem>, b: Books, i: nat)
    requires i < |cache| && Coherent(f, cache, b, i) && cache[i].adr !in b.dirty
    ensures Coherent(f, cache, b, -1)
  {
    hide CacheOk, DataOk;
    forall a | a in b.dirty
      ensures exists j :: 0 <= j < |cache| && cache[j].adr == a && (cache[j].changed || j == -1)
    {
      var j :| 0 <= j < |cache| && cache[j].adr == a && (cache[j].changed || j == i);
      assert cache[j].adr == a && cache[j].changed;
    }
  }

  lemma CoherentFrame(f: File, g: File, cache: seq<CacheElem>, b: Books, c: Books)
    requires Coherent(f, cache, b, -1) && SlotsListed(b)
    requires forall s :: s in b.slots ==> SameRecord(f, g, s)
    requires c == b.(dirStale := c.dirStale)
    ensures Coherent(g, cache, c, -1)
  {
    hide SameRecord, SlotsListed;
    DataFrame(f, g, cache, b);
    hide DataFits;
  }

  lemma CoherentDirty(f: File, cache: seq<CacheElem>, b: Books, i: nat, c: Books)
    requires i < |cache| && Coherent(f, cache, b, -1) && c == b.(dirty := {cache[i].adr})
    ensures Coherent(f, cache, c, i)
  {
    hide DataOk;
    assert cache[i].adr == cache[i].adr;
  }

  lemma ChangedInUse(f: File, cache: seq<CacheElem>, b: Books, open: nat, i: nat)
    requires Coherent(f, cache, b, open) && i < |cache| && cache[i].changed && open < |cache| && i != open
    requires cache[open].adr in b.dirty && Matches(cache[open], b) && cache[open].adr != 0
    ensures cache[i].adr != 0 && cache[i].adr != cache[open].adr
  {
  }

  // ----- lookup

  lemma RecordIs(f: File, s: Slot)
    ensures RecordOf(f, s) == RawAt(f, s.ptr, s.keySize + s.dataSize)
  {
  }

  lemma RecordPrefix(f: File, s: Slot)
    ensures |RecordOf(f, s)| >= s.keySize && RecordOf(f, s)[..s.keySize] == KeyOf(f, s)
  {
    RecordSplits(f, s);
  }

  lemma HasKeyIs(f: File, t: seq<Slot>, loc: nat, key: Bytes)
    requires loc < |t| && HasKey(f, t, loc, key)
    ensures Occ(t, loc) && KeyOf(f, t[loc]) == key
  {
  }

  lemma FoundHere(f: File, t: seq<Slot>, b: Books, loc: nat, key: Bytes)
    requires loc < |t| && Occ(t, loc) && KeyOf(f, t[loc]) == key
    requires key in b.contents && b.contents[key] == DataOf(f, t[loc])
    ensures HasKey(f, t, loc, key)
  {
  }

  lemma MappedSelects(dir: seq<nat>, h: Header, b: Books, hash: nat)
    requires Mapped(dir, h, b) && hash < HASH_LIMIT
    ensures h.dirBits <= 31 && Index(hash, h.dirBits) == Shr(hash, 31 - h.dirBits) < |dir|
    ensures dir[Index(hash, h.dirBits)] in b.tabs
  {
    IndexInRange(hash, h.dirBits);
  }

  lemma CoreTable(c: Core, p: nat, n: nat)
    requires CoreOk(c, p, n)
    ensures |c.table| == n && ProbeOk(c.table) && c.count == |OccBag(c.table)|
  {
  }

  lemma CountIs(c: Core, p: nat, n: nat)
    requires CoreOk(c, p, n)
    ensures c.count == |OccBag(c.table)| <= n && |c.table| == n
  {
    BagSize(c.table);
  }

  // ----- the selected bucket

  lemma SelectedListed(dir: seq<nat>, h: Header, b: Books, e: CacheElem, hash: nat)
    requires SelectedBy(dir, h, b, e, hash)
    ensures e.adr in b.tabs && e.adr in b.avs
  {
  }

  lemma SelectedNonZero(f: File, h: Header, dir: seq<nat>, b: Books, hc: bool, e: CacheElem)
    requires ReadyFor(f, h, dir, b, hc, e)
    ensures e.adr != 0
  {
    NotAtZero(f, h, dir, b, hc, e.adr);
  }

  lemma SelectedSame(dir: seq<nat>, h: Header, b: Books, c: Books, e: CacheElem, hash: nat)
    requires SelectedBy(dir, h, b, e, hash) && c == b.(dirty := c.dirty)
    ensures SelectedBy(dir, h, c, e, hash) && Matches(e, c)
  {
  }

  lemma SelectedAt(dir: seq<nat>, h: Header, b: Books, e: CacheElem, next: nat, bucketDir: nat)
    requires SelectedBy(dir, h, b, e, next) && bucketDir == Index(next, h.dirBits)
    ensures bucketDir < |dir| && dir[bucketDir] == e.adr && Matches(e, b)
  {
  }

  lemma SelectedBits(dir: seq<nat>, h: Header, b: Books, e: CacheElem, next: nat)
    requires SelectedBy(dir, h, b, e, next) && Mapped(dir, h, b)
    ensures e.bucket.core.bits <= h.dirBits <= 31 && |e.bucket.core.table| == h.bucketElems
  {
    SelectedTable(dir, h, b, e, next);
  }

  lemma SelectedCore(dir: seq<nat>, h: Header, b: Books, e: CacheElem, next: nat)
    requires next < HASH_LIMIT && SelectedBy(dir, h, b, e, next)
    requires Mapped(dir, h, b)
    ensures e.adr in b.pre && CoreOk(e.bucket.core, b.pre[e.adr], h.bucketElems)
    ensures e.bucket.core.bits <= 31 && Index(next, e.bucket.core.bits) == b.pre[e.adr]
  {
    SelectedTable(dir, h, b, e, next);
    SelectedPrefix(dir, h.dirBits, b.tabs, b.pre, next);
  }

  lemma SelectedRoom(f: File, h: Header, dir: seq<nat>, b: Books, hc: bool, e: CacheElem, key: Bytes)
    requires SelectedBy(dir, h, b, e, Hash(key)) && HasRoom(b.contents, key, h.bucketElems)
    requires Mapped(dir, h, b) && Sound(f, h, dir, b, hc)
    ensures e.bucket.core.count <= h.bucketElems
    ensures e.bucket.core.count == h.bucketElems ==> Separable(OccBag(e.bucket.core.table), Hash(key))
  {
    hide Sound, OccBag, Hash, HasRoom, Separable, Index;
    SelectedTable(dir, h, b, e, Hash(key));
    CountIs(e.bucket.core, b.pre[e.adr], h.bucketElems);
    if e.bucket.core.count == h.bucketElems {
      SoundContent(f, h, dir, b, hc);
      BucketIncluded(b, e.adr);
      RoomSeparable(f, b.slots, b.contents, OccBag(e.bucket.core.table), key, h.bucketElems);
    }
  }

  /** A full bucket that can be told apart from the next hash can be split once more. */
  lemma FullTable(c: Core, p: nat, n: nat, next: nat)
    requires CoreOk(c, p, n) && c.count == n && c.bits <= 31
    requires Separable(OccBag(c.table), next) && p == Index(next, c.bits)
    ensures c.bits < 31 && |OccBag(c.table)| == n
    ensures forall j :: 0 <= j < |c.table| ==> c.table[j].hash >= 0
  {
    CanDeepen(c, p, n, next);
    hide ProbeOk, Separable, Index;
    BagSize(c.table);
    forall j | 0 <= j < |c.table|
      ensures c.table[j].hash >= 0
    {
      assert Occ(c.table, j);
      BagMember(c.table, c.table[j]);
    }
  }

  // ----- visiting

  lemma AtTable(dir: seq<nat>, h: Header, b: Books, e: CacheElem)
    requires Matches(e, b)
    requires Mapped(dir, h, b)
    ensures |e.bucket.core.table| == h.bucketElems && b.tabs[e.adr].table == e.bucket.core.table
  {
    assert CoreOk(b.tabs[e.adr], b.pre[e.adr], h.bucketElems);
  }

  lemma ListedBucket(dir: seq<nat>, h: Header, b: Books, i: nat)
    requires Mapped(dir, h, b)
    ensures |dir| > 0 && (i < |dir| ==> dir[i] in b.tabs)
  {
    hide TabsOk;
  }

  lemma NothingAfter(f: File, dir: seq<nat>, tabs: map<nat, Core>)
    ensures KeysAfter(f, dir, tabs, |dir|) == {}
  {
  }

  lemma PassEmpty(f: File, dir: seq<nat>, b: Books, i: nat, e: CacheElem, j: nat)
    requires i < |dir| && dir[i] == e.adr && Matches(e, b) && j < |e.bucket.core.table| && !Occ(e.bucket.core.table, j)
    ensures Remaining(f, dir, b.tabs, i, j - 1) == Remaining(f, dir, b.tabs, i, j)
  {
    StepEmpty(f, e.bucket.core.table, j);
    hide KeysFrom, KeysAfter;
  }

  /** At an element, its key is the next one. */
  lemma Arrived(f: File, dir: seq<nat>, h: Header, b: Books, hc: bool, i: nat, e: CacheElem, j: nat)
    requires i < |dir| && dir[i] == e.adr && Matches(e, b) && j < |e.bucket.core.table| && Occ(e.bucket.core.table, j)
    requires Mapped(dir, h, b) && Sound(f, h, dir, b, hc)
    ensures e.adr != 0
    ensures var k := KeyOf(f, e.bucket.core.table[j]);
            var ahead := Remaining(f, dir, b.tabs, i, j - 1);
            k in ahead && k in b.contents && RemainingAfter(f, dir, h, b, k) == ahead - {k}
  {
    hide Sound, Mapped, ContentOk, RemainingAfter, KeyOf;
    var k := KeyOf(f, e.bucket.core.table[j]);
    NotAtZero(f, h, dir, b, hc, e.adr);
    SoundContent(f, h, dir, b, hc);
    StepFound(f, e.bucket.core.table, j);
    FoundGone(f, dir, h, b, i, j);
    assert HasKey(f, e.bucket.core.table, j, k);
    RemainingIs(f, dir, h, b, i, j, k);
    KeyPosition(f, dir, h, b, i, j, k);
    hide KeysFrom, KeysAfter;
  }

  // ----- splitting

  /** Doubling the directory moves no bucket and no element. */
  lemma MovedMapped(dir: seq<nat>, h: Header, b: Books, c: Books, wide: seq<nat>, h': Header, next: nat, e: CacheElem)
    requires h'.dirBits == h.dirBits + 1 <= 31 && h'.bucketElems == h.bucketElems
    requires |wide| == 2 * |dir| && forall k :: 0 <= k < |wide| ==> wide[k] == dir[k / 2]
    requires c == b.(held := c.held, dirStale := c.dirStale)
    requires SelectedBy(dir, h, b, e, next) && Mapped(dir, h, b)
    ensures SelectedBy(wide, h', c, e, next) && Mapped(wide, h', c)
  {
    hide DirOk, TabsOk;
    DoublingKeeps(dir, wide, h.dirBits, b.tabs, b.pre);
    WideSelects(dir, wide, h.dirBits, next);
  }

  lemma MovedCoherent(f: File, cache: seq<CacheElem>, b: Books, c: Books, open: int)
    requires Coherent(f, cache, b, open) && c == b.(held := c.held, dirStale := c.dirStale)
    ensures Coherent(f, cache, c, open)
  {
    hide DataOk;
  }

  /** What the state says about the bucket that is to be split. */
  lemma SplitFacts(f: File, h: Header, dir: seq<nat>, b: Books, hc: bool, e: CacheElem, next: nat)
    requires ReadyFor(f, h, dir, b, hc, e) && SelectedBy(dir, h, b, e, next)
    requires Mapped(dir, h, b)
    ensures e.adr in b.pre && e.adr in b.tabs && e.adr in b.avs && e.adr != 0
    ensures b.avs[e.adr] == e.bucket.avail && b.tabs[e.adr] == e.bucket.core
    ensures GoodList(e.bucket.avail) && |e.bucket.avail| <= BUCKET_AVAIL && h.blockSize > IGNORE_SIZE
            && h.bucketSize > IGNORE_SIZE
    ensures h.dirBits <= 31
  {
    NotAtZero(f, h, dir, b, hc, e.adr);
    hide Tiled, ImagesOk, ContentOk, ChainOk;
  }

  lemma AtBlock(dir: seq<nat>, h: Header, b: Books, a: nat, bucketDir: nat)
    requires bucketDir < |dir| && dir[bucketDir] == a && a in b.tabs && a in b.pre && b.tabs[a].bits <= h.dirBits
    requires Mapped(dir, h, b)
    ensures Block(bucketDir, h.dirBits, b.tabs[a].bits) == b.pre[a] && b.pre[a] < Pow2(b.tabs[a].bits)
    ensures |dir| == Pow2(h.dirBits)
  {
    hide TabsOk;
  }

  /** The hash that is to be stored selects one of the halves. */
  lemma SplitTarget(dir: seq<nat>, dir': seq<nat>, h: Header, b: Books, e: CacheElem, adr0: nat, adr1: nat, next: nat)
    requires e.adr in b.tabs && e.adr in b.pre && b.tabs[e.adr].bits < h.dirBits <= 31
    requires Retargeted(dir, dir', h.dirBits, b.tabs[e.adr].bits, b.pre[e.adr], e.adr, adr0, adr1)
    requires SelectedBy(dir, h, b, e, next) && Mapped(dir, h, b)
    ensures Index(next, h.dirBits) == Shr(next, 31 - h.dirBits) < |dir'|
    ensures dir'[Index(next, h.dirBits)] == adr0 || dir'[Index(next, h.dirBits)] == adr1
  {
    hide TabsOk, DirOk, Retargeted;
    NextHalf(dir, dir', h.dirBits, b.tabs, b.pre, e.adr, Halves(adr0, adr1, e.bucket.core, e.bucket.core, [], []),
             next);
  }

  lemma HalvesShape(b: Books, h: Header, c: Core, t: Halves, u: Halves, extra: AvailElem, held: seq<AvailElem>)
    requires u == t.(av0 := [], av1 := []) && SplitCores(c, u, h.bucketElems)
    requires b.held == held + [Avail(h.bucketSize, t.adr0), Avail(h.bucketSize, t.adr1), extra]
    ensures SplitCores(c, t, h.bucketElems) && HalvesHeld(b, t, h.bucketSize, extra, held)
  {
  }

  /** A directory takes at least a block of 512 bytes. */
  lemma GeometryBits(h: Header)
    requires Geometry(h)
    ensures 6 <= h.dirBits <= 31
  {
    assert Pow2(5) == 32;
    if h.dirBits < 6 {
      Pow2Mono(h.dirBits, 5);
    }
  }

  lemma SameShape(h: Header, g: Header)
    requires SameGeometry(h, g)
    ensures g.bucketSize == h.bucketSize && g.bucketElems == h.bucketElems && g.dirBits == h.dirBits
            && g.blockSize == h.blockSize
    ensures g.dir == h.dir && g.dirSize == h.dirSize
  {
  }

  lemma HeldOnly(f: File, cache: seq<CacheElem>, dir: seq<nat>, h: Header, b: Books, c: Books, i: nat, next: nat)
    requires i < |cache| && c == b.(held := c.held) && SelectedBy(dir, h, b, cache[i], next)
    requires Mapped(dir, h, b) && Coherent(f, cache, b, i)
    ensures SelectedBy(dir, h, c, cache[i], next) && Mapped(dir, h, c) && Coherent(f, cache, c, i)
  {
    MappedSame(dir, h, b, c);
    CoherentSame(f, cache, b, c, i);
    hide Mapped, Coherent, Index;
  }

  lemma CoherentSame(f: File, cache: seq<CacheElem>, b: Books, c: Books, i: nat)
    requires c.tabs == b.tabs && c.avs == b.avs && c.dirty == b.dirty && Coherent(f, cache, b, i)
    ensures Coherent(f, cache, c, i)
  {
    hide DataOk;
    forall j | 0 <= j < |cache| && cache[j].adr != 0
      ensures Matches(cache[j], c)
    {
      assert Matches(cache[j], b);
    }
  }

  lemma StartDealing(t0: seq<Slot>, t1: seq<Slot>, bits: nat)
    requires 1 <= bits <= 31 && OccBag(t0) == OccBag(t1) == multiset{} && ProbeOk(t0) && ProbeOk(t1)
    ensures Dealt(t0, t1, bits, multiset{})
  {
  }

  lemma DealtHalf(c: Core, t: Halves, n: nat, which: Core)
    requires SplitCores(c, t, n) && (which == t.core0 || which == t.core1)
    ensures |OccBag(which.table)| == n == |OccBag(c.table)| ==> OccBag(which.table) == OccBag(c.table)
    ensures which.bits == c.bits + 1
  {
    if |OccBag(which.table)| == n == |OccBag(c.table)| {
      FullHalf(c, t, n, which);
    }
  }

  // ----- storing

  /** Opening a bucket for changes only makes its image on disk dispensable. */
  lemma OpenBooks(f: File, h: Header, dir: seq<nat>, b: Books, hc: bool, cache: seq<CacheElem>, i: nat, hash: nat)
    requires i < |cache| && SelectedBy(dir, h, b, cache[i], hash) && b.dirty == {}
    requires Mapped(dir, h, b) && Coherent(f, cache, b, -1) && Sound(f, h, dir, b, hc)
    ensures var c := b.(dirty := {cache[i].adr});
            && SelectedBy(dir, h, c, cache[i], hash) && ReadyFor(f, h, dir, c, hc, cache[i])
            && Mapped(dir, h, c) && Coherent(f, cache, c, i)
  {
    hide Sound, Mapped, Coherent, Index;
    var c := b.(dirty := {cache[i].adr});
    SoundDirty(f, h, dir, b, hc, c);
    MappedSame(dir, h, b, c);
    SelectedSame(dir, h, b, c, cache[i], hash);
    CoherentDirty(f, cache, b, i, c);
  }

  /** The element of a new record; of the key, only its first bytes are copied. */
  function NewSlot(s: Slot, key: Bytes, hash: nat, adr: nat, dataSize: nat): Slot {
    var m := Min(SMALL, |key|);
    Slot(hash, key[..m] + s.keyStart[m..], adr, |key|, dataSize)
  }

  lemma NewDescribes(o: Slot, key: Bytes, adr: nat, data: Bytes)
    ensures var s := NewSlot(o, key, Hash(key), adr, |data|);
            Describes(s, key, data) && s.hash == Hash(key) && s.ptr == adr && Extent(s) == Avail(|key| + |data|, adr)
  {
    hide Hash;
  }

  lemma DetachBooks(f: File, h: Header, dir: seq<nat>, b: Books, hc: bool, e: CacheElem, hash: nat, loc: nat,
                    key: Bytes)
    requires loc < |e.bucket.core.table| && HasKey(f, e.bucket.core.table, loc, key)
    requires SelectedBy(dir, h, b, e, hash) && ReadyFor(f, h, dir, b, hc, e)
    requires Mapped(dir, h, b)
    ensures var s := e.bucket.core.table[loc];
            ReadyFor(f, h, dir,
                     b.(slots := b.slots - multiset{s}, contents := b.contents - {key}, held := b.held + [Extent(s)]),
                     hc, e)
  {
    hide Sound, Mapped, KeyOf, DataOf, RecOk;
    var s := e.bucket.core.table[loc];
    SoundContent(f, h, dir, b, hc);
    SelectedSlot(f, dir, h, b, e, hash, loc);
    TakeRecord(f, h, dir, b, hc, e.adr, e.bucket.core, s, key);
    assert b.tabs[e.adr := e.bucket.core] == b.tabs;
    assert b.dirty + {e.adr} == b.dirty;
  }

  lemma ReplacingChain(b0: Books, b1: Books, b2: Books, b3: Books, a: nat, av2: seq<AvailElem>, av3: seq<AvailElem>,
                       s: Slot, key: Bytes, extent: AvailElem)
    requires b0.held == [] && b1 == b0.(slots := b0.slots - multiset{s}, contents := b0.contents - {key},
                                        held := b0.held + [Extent(s)])
    requires Allotted(b1, b2, a, av2, RemoveAt(b1.held, 0)) && Allotted(b2, b3, a, av3, b2.held + [extent])
    ensures Replacing(b0, b3, a, av3, s, key, extent)
  {
    assert b0.avs[a := av2][a := av3] == b0.avs[a := av3];
    assert RemoveAt([Extent(s)], 0) == [];
  }
}
