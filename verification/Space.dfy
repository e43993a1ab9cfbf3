/** The allocator's view of the database: its three pools of free space, and what moves between them. */
module Space {
  import opened Layout
  import opened FreeList

  /** A half table on the avail stack, and where in the file it lies. */
  datatype StackEntry = StackEntry(adr: nat, block: AvailBlock)

  /**
   * The file, the header, and the free extents: those of the current bucket (`av`), of the header,
   * and of the stacked blocks. `scraps` and `dropped` list the extents that were given up: fragments
   * too small to track, and entries lost by halving a table of odd length.
   */
  datatype Space = Space(
    file: File, hdr: Header, av: seq<AvailElem>, stack: seq<StackEntry>,
    scraps: seq<AvailElem>, dropped: seq<AvailElem>)

  const NOTHING := Avail(0, 0)

  /** The bytes of half an avail block, the unit of the avail stack. */
  function HalfSize(size: nat): nat {
    size * SIZEOF_AVAIL_ELEM / 2 + SIZEOF_AVAIL_BLOCK
  }

  function StackCover(stack: seq<StackEntry>, size: nat, x: nat): nat {
    if stack == [] then 0
    else In(Avail(HalfSize(size), stack[0].adr), x) + Cover(stack[0].block.table, x)
         + StackCover(stack[1..], size, x)
  }

  function Pool(s: Space, x: nat): nat {
    Cover(s.av, x) + Cover(s.hdr.avail.table, x) + StackCover(s.stack, s.hdr.avail.size, x)
    + Cover(s.scraps, x) + Cover(s.dropped, x)
  }

  predicate ListsOk(s: Space) {
    && GoodList(s.av) && |s.av| <= BUCKET_AVAIL
    && GoodList(s.hdr.avail.table) && |s.hdr.avail.table| <= s.hdr.avail.size
    && 7 <= s.hdr.avail.size && IGNORE_SIZE < s.hdr.blockSize && 0 < s.hdr.nextBlock
    && forall e :: e in s.scraps ==> e.size <= IGNORE_SIZE
  }

  /** The avail stack is on disk: a chain of half tables from `next`. */
  predicate ChainOk(f: File, next: nat, stack: seq<StackEntry>, size: nat)
    decreases |stack|
  {
    if stack == [] then next == 0
    else
      && next == stack[0].adr && next != 0
      && Holds(f, next, AvailImage(stack[0].block), HalfSize(size))
      && stack[0].block.size == size && |stack[0].block.table| <= size / 2
      && GoodList(stack[0].block.table)
      && ChainOk(f, stack[0].block.nextBlock, stack[1..], size)
  }

  predicate Chained(s: Space) {
    ChainOk(s.file, s.hdr.avail.nextBlock, s.stack, s.hdr.avail.size)
  }

  /** Only the free-space part of the header differs. */
  predicate SameGeometry(h: Header, g: Header) {
    g == h.(avail := g.avail, nextBlock := g.nextBlock) && g.avail.size == h.avail.size
    && h.nextBlock <= g.nextBlock
  }

  /** How much more free space covers x, not counting blocks added at the end of the file. */
  function Delta(s: Space, t: Space, x: nat): int {
    Pool(t, x) - Pool(s, x)
    - (if s.hdr.nextBlock <= x < t.hdr.nextBlock then 1 else 0)
  }

  lemma DeltaTrans(s: Space, t: Space, u: Space, x: nat)
    requires s.hdr.nextBlock <= t.hdr.nextBlock <= u.hdr.nextBlock
    ensures Delta(s, u, x) == Delta(s, t, x) + Delta(t, u, x)
  {
  }

  /** From s to t, exactly `freed` became free space and exactly `taken` ceased to be. */
  ghost predicate Balanced(s: Space, t: Space, freed: AvailElem, taken: AvailElem) {
    && SameGeometry(s.hdr, t.hdr)
    && forall x: nat :: Delta(s, t, x) == In(freed, x) - In(taken, x)
  }

  /** The file was written only where there was free space, or beyond the old end. */
  ghost predicate FileKept(s: Space, t: Space, freed: AvailElem) {
    && |s.file| <= |t.file|
    && forall x | 0 <= x < |s.file| ::
        t.file[x] == s.file[x] || Pool(s, x) + In(freed, x) > 0 || x >= s.hdr.nextBlock
  }

  /** Free space and the extent in transit do not overlap, and lie inside the file. */
  ghost predicate Apart(s: Space, freed: AvailElem) {
    forall x: nat :: Pool(s, x) + In(freed, x) <= if x < s.hdr.nextBlock then 1 else 0
  }

  // ----- single steps

  function PutHeader(s: Space, e: AvailElem): Space {
    s.(hdr := s.hdr.(avail := s.hdr.avail.(table := Put(e, s.hdr.avail.table))))
  }

  function TakeHeader(s: Space, i: nat): Space
    requires i < |s.hdr.avail.table|
  {
    s.(hdr := s.hdr.(avail := s.hdr.avail.(table := RemoveAt(s.hdr.avail.table, i))))
  }

  lemma PutHeaderBalanced(s: Space, e: AvailElem)
    requires e.size > IGNORE_SIZE && e.adr > 0
    requires ListsOk(s) && |s.hdr.avail.table| < s.hdr.avail.size
    ensures Balanced(s, PutHeader(s, e), e, NOTHING) && ListsOk(PutHeader(s, e))
    ensures |PutHeader(s, e).hdr.avail.table| == |s.hdr.avail.table| + 1
  {
    hide Put, GoodList, FitIndex, StackCover, Cover;
    PutGood(e, s.hdr.avail.table);
    forall x: nat ensures Delta(s, PutHeader(s, e), x) == In(e, x) - In(NOTHING, x) {
      CoverPut(e, s.hdr.avail.table, x);
    }
  }

  lemma TakeHeaderBalanced(s: Space, i: nat)
    requires ListsOk(s) && i < |s.hdr.avail.table|
    ensures Balanced(s, TakeHeader(s, i), NOTHING, s.hdr.avail.table[i]) && ListsOk(TakeHeader(s, i))
  {
    hide RemoveAt, GoodList, StackCover, Cover;
    RemoveGood(s.hdr.avail.table, i);
    forall x: nat ensures Delta(s, TakeHeader(s, i), x) == In(NOTHING, x) - In(s.hdr.avail.table[i], x) {
      CoverRemove(s.hdr.avail.table, i, x);
    }
  }

  lemma PutBucketBalanced(s: Space, e: AvailElem)
    requires e.size > IGNORE_SIZE && e.adr > 0 && ListsOk(s) && |s.av| < BUCKET_AVAIL
    ensures Balanced(s, s.(av := Put(e, s.av)), e, NOTHING) && ListsOk(s.(av := Put(e, s.av)))
    ensures |Put(e, s.av)| == |s.av| + 1
  {
    hide Put, GoodList, FitIndex, StackCover, Cover;
    PutGood(e, s.av);
    forall x: nat ensures Delta(s, s.(av := Put(e, s.av)), x) == In(e, x) - In(NOTHING, x) {
      CoverPut(e, s.av, x);
    }
  }

  lemma TakeBucketBalanced(s: Space, i: nat)
    requires ListsOk(s) && i < |s.av|
    ensures Balanced(s, s.(av := RemoveAt(s.av, i)), NOTHING, s.av[i]) && ListsOk(s.(av := RemoveAt(s.av, i)))
  {
    hide RemoveAt, GoodList, StackCover, Cover;
    RemoveGood(s.av, i);
    forall x: nat ensures Delta(s, s.(av := RemoveAt(s.av, i)), x) == In(NOTHING, x) - In(s.av[i], x) {
      CoverRemove(s.av, i, x);
    }
  }

  /** Blocks added at the end of the file are taken at once. */
  lemma GrowBalanced(s: Space, n: nat)
    requires ListsOk(s)
    ensures var t := s.(hdr := s.hdr.(nextBlock := s.hdr.nextBlock + n));
            Balanced(s, t, NOTHING, Avail(n, s.hdr.nextBlock)) && ListsOk(t)
  {
  }

  lemma ScrapBalanced(s: Space, e: AvailElem)
    requires ListsOk(s) && e.size <= IGNORE_SIZE
    ensures var t := s.(scraps := s.scraps + [e]); Balanced(s, t, e, NOTHING) && ListsOk(t)
  {
    var t := s.(scraps := s.scraps + [e]);
    forall x: nat ensures Delta(s, t, x) == In(e, x) - In(NOTHING, x) {
      CoverConcat(s.scraps, [e], x);
      assert Cover([e], x) == In(e, x) + Cover([], x);
    }
  }

  /** The two pieces of an extent cover what it covers. */
  lemma Chop(e: AvailElem, n: nat, x: nat)
    requires n <= e.size
    ensures In(e, x) == In(Avail(n, e.adr), x) + In(Avail(e.size - n, e.adr + n), x)
  {
  }

  lemma BalancedTrans(s: Space, t: Space, u: Space, f: AvailElem, g: AvailElem, taken1: AvailElem, taken2: AvailElem,
                      freed: AvailElem, taken: AvailElem)
    requires Balanced(s, t, f, taken1) && Balanced(t, u, g, taken2)
    requires forall x: nat :: In(f, x) + In(g, x) + In(taken, x) == In(taken1, x) + In(taken2, x) + In(freed, x)
    ensures Balanced(s, u, freed, taken)
  {
    forall x: nat ensures Delta(s, u, x) == In(freed, x) - In(taken, x) {
      hide Delta, In;
      DeltaTrans(s, t, u, x);
      assert Delta(s, t, x) == In(f, x) - In(taken1, x);
      assert Delta(t, u, x) == In(g, x) - In(taken2, x);
      assert In(f, x) + In(g, x) + In(taken, x) == In(taken1, x) + In(taken2, x) + In(freed, x);
    }
  }


  lemma FileKeptTrans(s: Space, t: Space, u: Space, f: AvailElem, g: AvailElem, taken: AvailElem)
    requires Balanced(s, t, f, taken) && FileKept(s, t, f) && FileKept(t, u, g)
    requires forall x: nat :: In(g, x) > 0 ==> Pool(s, x) + In(f, x) > 0 || x >= s.hdr.nextBlock
    ensures FileKept(s, u, f)
  {
    hide Pool, In;
    forall x | 0 <= x < |s.file|
      ensures u.file[x] == s.file[x] || Pool(s, x) + In(f, x) > 0 || x >= s.hdr.nextBlock
    {
      assert Delta(s, t, x) == In(f, x) - In(taken, x);
      assert u.file[x] == t.file[x] || Pool(t, x) + In(g, x) > 0 || x >= t.hdr.nextBlock;
    }
  }

  // ----- pushing and popping half tables

  /** The header table halved: odd entries go to a block at `adr`, on top of the stack. */
  function Halved(s: Space, adr: nat): Space {
    var prior := s.hdr.avail;
    s.(hdr := s.hdr.(avail := AvailBlock(prior.size, adr, Evens(prior.table))),
       stack := [StackEntry(adr, AvailBlock(prior.size, prior.nextBlock, Odds(prior.table)))] + s.stack,
       dropped := s.dropped + LastIfOdd(prior.table))
  }

  lemma HalvedBalanced(s: Space, adr: nat)
    requires ListsOk(s) && adr > 0
    ensures Balanced(s, Halved(s, adr), Avail(HalfSize(s.hdr.avail.size), adr), NOTHING)
    ensures ListsOk(Halved(s, adr))
    ensures |Halved(s, adr).hdr.avail.table| == |s.hdr.avail.table| / 2
  {
    hide Evens, Odds, LastIfOdd, GoodList, Cover, HalfSize;
    var table := s.hdr.avail.table;
    HalvesGood(table);
    HalfLengths(table);
    forall x: nat
      ensures Delta(s, Halved(s, adr), x) == In(Avail(HalfSize(s.hdr.avail.size), adr), x) - In(NOTHING, x)
    {
      CoverHalves(table, x);
      CoverConcat(s.dropped, LastIfOdd(table), x);
    }
  }

  /** The top of the stack becomes the header table. */
  function Popped(s: Space): Space
    requires s.stack != []
  {
    s.(hdr := s.hdr.(avail := s.stack[0].block), stack := s.stack[1..])
  }

  lemma PoppedBalanced(s: Space)
    requires ListsOk(s) && Chained(s) && s.stack != [] && s.hdr.avail.table == []
    ensures Balanced(s, Popped(s), NOTHING, Avail(HalfSize(s.hdr.avail.size), s.stack[0].adr))
    ensures ListsOk(Popped(s)) && Chained(Popped(s))
    ensures |Popped(s).hdr.avail.table| < s.hdr.avail.size
  {
    hide GoodList, HalfSize;
  }

  /** The chain depends only on the bytes of its blocks. */
  lemma {:induction false} ChainFrame(f: File, g: File, next: nat, stack: seq<StackEntry>, size: nat)
    requires ChainOk(f, next, stack, size)
    requires forall x | 0 <= x < |f| && StackCover(stack, size, x) > 0 :: x < |g| && g[x] == f[x]
    ensures ChainOk(g, next, stack, size)
    decreases |stack|
  {
    if stack != [] {
      hide HalfSize, GoodList;
      var n := HalfSize(size);
      HalfSizePositive(size);
      forall x | next <= x < next + n
        ensures x < |g| && g[x] == f[x]
      {
        assert StackCover(stack, size, x) > 0;
      }
      var last := next + n - 1;
      assert StackCover(stack, size, last) > 0;
      forall x | 0 <= x < |f| && StackCover(stack[1..], size, x) > 0
        ensures x < |g| && g[x] == f[x]
      {
        assert StackCover(stack, size, x) > 0;
      }
      ChainFrame(f, g, stack[0].block.nextBlock, stack[1..], size);
    }
  }

  lemma HalfSizePositive(size: nat)
    ensures HalfSize(size) > IGNORE_SIZE
  {
  }
}
