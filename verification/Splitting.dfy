/** Splitting a full bucket: what replaces it in the directory, the file and the cache. */
module Splitting {
  import opened Base
  import opened Layout
  import opened FreeList
  import opened HashTable
  import opened Directory
  import opened Space
  import opened Ledger
  import opened State
  import opened Caching
  import opened Lookup

  /** The two halves of a split bucket, and where they go. */
  datatype Halves = Halves(adr0: nat, adr1: nat, core0: Core, core1: Core, av0: seq<AvailElem>, av1: seq<AvailElem>)

  /** The books after the bucket at `a` has been replaced by its halves. */
  ghost function SplitBooks(b: Books, a: nat, t: Halves, held: seq<AvailElem>): Books
    requires a in b.pre
  {
    b.(tabs := (b.tabs - {a})[t.adr0 := t.core0][t.adr1 := t.core1],
       pre := (b.pre - {a})[t.adr0 := 2 * b.pre[a]][t.adr1 := 2 * b.pre[a] + 1],
       avs := (b.avs - {a})[t.adr0 := t.av0][t.adr1 := t.av1],
       dirty := b.dirty - {a} + {t.adr0, t.adr1}, dirStale := true, held := held)
  }

  /** The three extents of the halves, in transit behind those of `held`. */
  ghost predicate HalvesHeld(b: Books, t: Halves, size: nat, extra: AvailElem, held: seq<AvailElem>) {
    b.held == held + [Avail(size, t.adr0), Avail(size, t.adr1), extra]
  }

  lemma CoverThree(held: seq<AvailElem>, p: AvailElem, q: AvailElem, r: AvailElem, x: nat)
    ensures Cover(held + [p, q, r], x) == Cover(held, x) + In(p, x) + In(q, x) + In(r, x)
  {
    assert held + [p, q, r] == held + [p] + [q] + [r];
    CoverConcat(held, [p], x);
    CoverConcat(held + [p], [q], x);
    CoverConcat(held + [p] + [q], [r], x);
    CoverSingle(p, x);
    CoverSingle(q, x);
    CoverSingle(r, x);
  }

  /** A new bucket's place is not the place of a live one. */
  lemma HalvesNew(h: Header, b: Books, t: Halves, extra: AvailElem, held: seq<AvailElem>)
    requires Tiled(h, b) && 0 < h.bucketSize && HalvesHeld(b, t, h.bucketSize, extra, held)
    ensures t.adr0 !in b.tabs && t.adr1 !in b.tabs && t.adr0 != t.adr1
  {
    var n := h.bucketSize;
    CoverThree(held, Avail(n, t.adr0), Avail(n, t.adr1), extra, t.adr0);
    CoverThree(held, Avail(n, t.adr0), Avail(n, t.adr1), extra, t.adr1);
    OneOwner(h, b, t.adr0);
    OneOwner(h, b, t.adr1);
    hide Records, FreeIn, StackCover, Cover, Fixed, Tiled;
    if t.adr0 in b.tabs {
      HomesTake(b.tabs.Keys, n, t.adr0, t.adr0);
    }
    if t.adr1 in b.tabs {
      HomesTake(b.tabs.Keys, n, t.adr1, t.adr1);
    }
  }

  /** The free extents of the halves: the old bucket's, the fresh block and the old bucket itself. */
  ghost predicate HalvesCover(l: seq<AvailElem>, extra: AvailElem, prior: AvailElem, t: Halves) {
    forall x: nat :: Cover(t.av0, x) + Cover(t.av1, x) == Cover(l, x) + In(extra, x) + In(prior, x)
  }

  lemma SplitTiled(h: Header, b: Books, a: nat, t: Halves, extra: AvailElem, held: seq<AvailElem>)
    requires Tiled(h, b) && a in b.tabs && a in b.pre && a in b.avs && b.tabs.Keys == b.avs.Keys
    requires HalvesHeld(b, t, h.bucketSize, extra, held)
    requires t.adr0 !in b.tabs && t.adr1 !in b.tabs && t.adr0 != t.adr1
    requires HalvesCover(b.avs[a], extra, Avail(h.bucketSize, a), t)
    ensures Tiled(h, SplitBooks(b, a, t, held))
  {
    var c := SplitBooks(b, a, t, held);
    forall x: nat
      ensures Owners(h, c, x) == if x < h.nextBlock then 1 else 0
    {
      hide Homes, Records, FreeIn, StackCover, Cover, Fixed;
      SplitHomes(b.tabs.Keys, c.tabs.Keys, h.bucketSize, a, t, x);
      SplitFree(b.avs, a, t, x);
      CoverThree(held, Avail(h.bucketSize, t.adr0), Avail(h.bucketSize, t.adr1), extra, x);
      assert Owners(h, b, x) == if x < h.nextBlock then 1 else 0;
      assert Cover(t.av0, x) + Cover(t.av1, x) == Cover(b.avs[a], x) + In(extra, x) + In(Avail(h.bucketSize, a), x);
    }
  }

  lemma SplitHomes(keys: set<nat>, keys': set<nat>, n: nat, a: nat, t: Halves, x: nat)
    requires a in keys && t.adr0 !in keys && t.adr1 !in keys && t.adr0 != t.adr1
    requires keys' == keys - {a} + {t.adr0} + {t.adr1}
    ensures Homes(keys', n, x) + In(Avail(n, a), x)
            == Homes(keys, n, x) + In(Avail(n, t.adr0), x) + In(Avail(n, t.adr1), x)
  {
    HomesTake(keys, n, a, x);
    HomesPut(keys - {a}, n, t.adr0, x);
    HomesPut(keys - {a} + {t.adr0}, n, t.adr1, x);
  }

  lemma SplitFree(avs: map<nat, seq<AvailElem>>, a: nat, t: Halves, x: nat)
    requires a in avs && t.adr0 !in avs && t.adr1 !in avs && t.adr0 != t.adr1
    ensures FreeIn((avs - {a})[t.adr0 := t.av0][t.adr1 := t.av1], x) + Cover(avs[a], x)
            == FreeIn(avs, x) + Cover(t.av0, x) + Cover(t.av1, x)
  {
    var r := avs - {a};
    FreeTake(avs, a, x);
    FreeUpdate(r, t.adr0, t.av0, x);
    assert r - {t.adr0} == r;
    FreeUpdate(r[t.adr0 := t.av0], t.adr1, t.av1, x);
    assert r[t.adr0 := t.av0] - {t.adr1} == r[t.adr0 := t.av0];
  }

  /** Splitting keeps the file well formed. */
  lemma SplitSound(f: File, h: Header, dir: seq<nat>, b: Books, hc: bool, a: nat, t: Halves,
                   extra: AvailElem, held: seq<AvailElem>, dir': seq<nat>)
    requires a in b.tabs && a in b.pre && a in b.avs
    requires HalvesHeld(b, t, h.bucketSize, extra, held)
    requires HalvesCover(b.avs[a], extra, Avail(h.bucketSize, a), t)
    requires GoodList(t.av0) && |t.av0| <= BUCKET_AVAIL && GoodList(t.av1) && |t.av1| <= BUCKET_AVAIL
    requires Sound(f, h, dir, b, hc)
    ensures Sound(f, h, dir', SplitBooks(b, a, t, held), hc)
    ensures t.adr0 !in b.tabs && t.adr1 !in b.tabs && t.adr0 != t.adr1
  {
    hide ChainOk, ContentOk, GoodList, Holds, HalvesCover;
    HalvesNew(h, b, t, extra, held);
    SplitTiled(h, b, a, t, extra, held);
    hide Tiled, HalvesHeld;
    SplitAvails(b, a, t, held);
    SplitImages(f, h, dir, b, hc, a, t, held, dir');
  }

  lemma SplitAvails(b: Books, a: nat, t: Halves, held: seq<AvailElem>)
    requires a in b.tabs && a in b.pre && a in b.avs && AvailsOk(b)
    requires GoodList(t.av0) && |t.av0| <= BUCKET_AVAIL && GoodList(t.av1) && |t.av1| <= BUCKET_AVAIL
    ensures AvailsOk(SplitBooks(b, a, t, held))
  {
    hide GoodList;
  }

  lemma SplitImages(f: File, h: Header, dir: seq<nat>, b: Books, hc: bool, a: nat, t: Halves, held: seq<AvailElem>,
                    dir': seq<nat>)
    requires a in b.tabs && a in b.pre && a in b.avs && ImagesOk(f, h, dir, b, hc)
    ensures ImagesOk(f, h, dir', SplitBooks(b, a, t, held), hc)
  {
    hide Holds;
  }

  // ----- the elements

  /** The halves of bucket c, of depth b: the elements dealt out by the next hash bit. */
  ghost predicate SplitCores(c: Core, t: Halves, n: nat) {
    && c.bits < 31 && t.core0.bits == t.core1.bits == c.bits + 1
    && |t.core0.table| == |t.core1.table| == n
    && Dealt(t.core0.table, t.core1.table, c.bits + 1, OccBag(c.table))
    && t.core0.count == |OccBag(t.core0.table)| && t.core1.count == |OccBag(t.core1.table)|
  }

  lemma SplitCoresOk(c: Core, t: Halves, p: nat, n: nat)
    requires CoreOk(c, p, n) && SplitCores(c, t, n)
    ensures CoreOk(t.core0, 2 * p, n) && CoreOk(t.core1, 2 * p + 1, n)
  {
    hide ProbeOk, OccBag, InHalf, PrefixOk;
    HalfPrefix(OccBag(c.table), OccBag(t.core0.table), c.bits, p, 0);
    HalfPrefix(OccBag(c.table), OccBag(t.core1.table), c.bits, p, 1);
    assert Pow2(c.bits + 1) == 2 * Pow2(c.bits);
  }

  lemma SplitSlots(b: Books, a: nat, t: Halves, held: seq<AvailElem>)
    requires a in b.tabs && a in b.pre && t.adr0 !in b.tabs && t.adr1 !in b.tabs && t.adr0 != t.adr1
    requires OccBag(t.core0.table) + OccBag(t.core1.table) == OccBag(b.tabs[a].table)
    ensures AllSlots(SplitBooks(b, a, t, held).tabs) == AllSlots(b.tabs)
  {
    hide OccBag;
    var r := b.tabs - {a};
    AllTake(b.tabs, a);
    AllUpdate(r, t.adr0, t.core0);
    assert r - {t.adr0} == r;
    AllUpdate(r[t.adr0 := t.core0], t.adr1, t.core1);
    assert r[t.adr0 := t.core0] - {t.adr1} == r[t.adr0 := t.core0];
    SwapBags(OccBag(t.core1.table), OccBag(t.core0.table), AllSlots(r));
    AssocBags(OccBag(t.core0.table), OccBag(t.core1.table), AllSlots(r));
  }

  lemma AssocBags(a: multiset<Slot>, b: multiset<Slot>, c: multiset<Slot>)
    ensures a + (b + c) == (a + b) + c
  {
  }

  /** Splitting keeps the map from hashes to elements. */
  lemma SplitMapped(dir: seq<nat>, h: Header, b: Books, a: nat, t: Halves, held: seq<AvailElem>, dir': seq<nat>)
    requires a in b.tabs && a in b.pre && t.adr0 !in b.tabs && t.adr1 !in b.tabs && t.adr0 != t.adr1
    requires b.tabs[a].bits < h.dirBits && SplitCores(b.tabs[a], t, h.bucketElems)
    requires Retargeted(dir, dir', h.dirBits, b.tabs[a].bits, b.pre[a], a, t.adr0, t.adr1)
    requires Mapped(dir, h, b)
    ensures Mapped(dir', h, SplitBooks(b, a, t, held))
  {
    hide OccBag, Retargeted, DirOk, ProbeOk, InHalf, TabsOk;
    SplitKeepsDirectory(dir, dir', h.dirBits, b.tabs, b.pre, a, t.adr0, t.adr1, t.core0, t.core1);
    SplitSlots(b, a, t, held);
    var c := SplitBooks(b, a, t, held);
    SplitTabs(b.tabs, b.pre, a, t, h.bucketElems, c.tabs, c.pre);
  }

  lemma SplitTabs(tabs: map<nat, Core>, pre: map<nat, nat>, a: nat, t: Halves, n: nat, tabs': map<nat, Core>,
                  pre': map<nat, nat>)
    requires a in tabs && a in pre && SplitCores(tabs[a], t, n)
    requires tabs' == (tabs - {a})[t.adr0 := t.core0][t.adr1 := t.core1]
    requires pre' == (pre - {a})[t.adr0 := 2 * pre[a]][t.adr1 := 2 * pre[a] + 1]
    requires TabsOk(tabs, pre, n)
    ensures TabsOk(tabs', pre', n)
  {
    hide SplitCores;
    assert CoreOk(tabs[a], pre[a], n);
    hide CoreOk;
    SplitCoresOk(tabs[a], t, pre[a], n);
    assert tabs'.Keys == pre'.Keys;
    forall x | x in tabs'
      ensures CoreOk(tabs'[x], pre'[x], n)
    {
      if x != t.adr0 && x != t.adr1 {
        assert tabs'[x] == tabs[x] && pre'[x] == pre[x];
      }
    }
  }

  // ----- the cache

  /** The halves go to two clean slots, and the slot of the split bucket is freed. */
  function SplitCache(cache: seq<CacheElem>, i: nat, i0: nat, i1: nat, t: Halves): seq<CacheElem>
    requires i < |cache| && i0 < |cache| && i1 < |cache|
  {
    cache[i0 := cache[i0].(bucket := Bucket(t.av0, t.core0), adr := t.adr0, changed := true)]
         [i1 := cache[i1].(bucket := Bucket(t.av1, t.core1), adr := t.adr1, changed := true)]
         [i := cache[i].(adr := 0, changed := false)]
  }

  predicate Selects(dir: seq<nat>, i: nat, a: nat) {
    i < |dir| && dir[i] == a
  }

  /** The cache before and after, and the slots that are current: slot i has been replaced by the halves u. */
  ghost predicate Replaced(c: seq<CacheElem>, i: nat, c2: seq<CacheElem>, j: nat, i0: nat, i1: nat, u: Halves,
                           extra: AvailElem, size: nat, first: bool) {
    && i < |c| && i0 < |c| && i1 < |c| && j == (if first then i0 else i1)
    && var av := Divided(c[i].bucket.avail, extra, Avail(size, c[i].adr), first);
       c2 == SplitCache(c, i, i0, i1, u.(av0 := av.0, av1 := av.1))
  }

  lemma SplitCacheOk(cache: seq<CacheElem>, b: Books, i: nat, i0: nat, i1: nat, t: Halves, held: seq<AvailElem>)
    requires i < |cache| && i0 < |cache| && i1 < |cache| && i != i0 && i != i1 && i0 != i1
    requires cache[i].adr in b.pre && cache[i].adr != 0 && CacheOk(cache, b)
    requires t.adr0 !in b.tabs && t.adr1 !in b.tabs && t.adr0 != t.adr1 && t.adr0 != 0 && t.adr1 != 0
    ensures CacheOk(SplitCache(cache, i, i0, i1, t), SplitBooks(b, cache[i].adr, t, held))
  {
    var c2, b2 := SplitCache(cache, i, i0, i1, t), SplitBooks(b, cache[i].adr, t, held);
    forall j | 0 <= j < |c2| && c2[j].adr != 0
      ensures Matches(c2[j], b2)
    {
      if j != i0 && j != i1 {
        assert c2[j] == cache[j] && Matches(cache[j], b) && cache[j].adr != cache[i].adr;
      }
    }
    assert forall j | 0 <= j < |c2| && c2[j].adr != 0 && j != i0 && j != i1 :: c2[j] == cache[j] && c2[j].adr in b.tabs;
  }

  lemma SplitDirty(cache: seq<CacheElem>, b: Books, i: nat, i0: nat, i1: nat, t: Halves, held: seq<AvailElem>)
    requires i < |cache| && i0 < |cache| && i1 < |cache| && i != i0 && i != i1 && i0 != i1
    requires cache[i].adr in b.pre && !cache[i0].changed && !cache[i1].changed && DirtyCached(cache, b, i)
    ensures DirtyCached(SplitCache(cache, i, i0, i1, t), SplitBooks(b, cache[i].adr, t, held), -1)
  {
    var c2, b2 := SplitCache(cache, i, i0, i1, t), SplitBooks(b, cache[i].adr, t, held);
    forall a | a in b2.dirty
      ensures exists j :: 0 <= j < |c2| && c2[j].adr == a && (c2[j].changed || j == -1)
    {
      if a == t.adr0 {
        assert c2[i0].adr == a && c2[i0].changed;
      } else if a == t.adr1 {
        assert c2[i1].adr == a && c2[i1].changed;
      } else {
        var j :| 0 <= j < |cache| && cache[j].adr == a && (cache[j].changed || j == i);
        assert c2[j] == cache[j];
      }
    }
  }

  /** Splitting keeps the cache coherent. */
  lemma SplitCoherent(f: File, cache: seq<CacheElem>, b: Books, i: nat, i0: nat, i1: nat, t: Halves,
                      held: seq<AvailElem>)
    requires i < |cache| && i0 < |cache| && i1 < |cache| && i != i0 && i != i1 && i0 != i1
    requires cache[i].adr in b.pre && cache[i].adr != 0 && !cache[i0].changed && !cache[i1].changed
    requires t.adr0 !in b.tabs && t.adr1 !in b.tabs && t.adr0 != t.adr1 && t.adr0 != 0 && t.adr1 != 0
    requires Coherent(f, cache, b, i)
    ensures Coherent(f, SplitCache(cache, i, i0, i1, t), SplitBooks(b, cache[i].adr, t, held), -1)
  {
    SplitCacheOk(cache, b, i, i0, i1, t, held);
    SplitDirty(cache, b, i, i0, i1, t, held);
    hide CacheOk, DirtyCached, DataFits, SplitBooks;
  }

  // ----- moving the directory

  /** The books while the directory has a new place and the old one is in transit. */
  ghost function MovedBooks(b: Books, held: seq<AvailElem>): Books {
    b.(held := held, dirStale := true)
  }

  /** A larger directory takes the last extent in transit; the old one's goes there. */
  lemma MoveDirectory(f: File, h: Header, dir: seq<nat>, b: Books, hc: bool, held: seq<AvailElem>, h': Header,
                      dir': seq<nat>)
    requires b.held == held + [Avail(h'.dirSize, h'.dir)]
    requires h' == h.(dir := h'.dir, dirSize := h'.dirSize, dirBits := h'.dirBits)
    requires h'.dirBits == h.dirBits + 1 <= 31 && h'.dirSize == 2 * h.dirSize
    requires Sound(f, h, dir, b, hc)
    ensures Sound(f, h', dir', MovedBooks(b, held + [Avail(h.dirSize, h.dir)]), true)
  {
    hide ChainOk, ContentOk, GoodList, Holds;
    var c := MovedBooks(b, held + [Avail(h.dirSize, h.dir)]);
    forall x: nat
      ensures Owners(h', c, x) == if x < h'.nextBlock then 1 else 0
    {
      hide Homes, Records, FreeIn, StackCover;
      CoverConcat(held, [Avail(h.dirSize, h.dir)], x);
      CoverConcat(held, [Avail(h'.dirSize, h'.dir)], x);
      CoverSingle(Avail(h.dirSize, h.dir), x);
      CoverSingle(Avail(h'.dirSize, h'.dir), x);
      hide Cover;
      assert Owners(h, b, x) == if x < h.nextBlock then 1 else 0;
    }
  }

  lemma CoverSingle(e: AvailElem, x: nat)
    ensures Cover([e], x) == In(e, x)
  {
  }

  // ----- the free extents

  /**
   * How the free extents and a fresh block are shared out: all to the first half, but the first of six
   * to the second.
   */
  function Shared(l: seq<AvailElem>, extra: AvailElem): (seq<AvailElem>, seq<AvailElem>) {
    if |l| == BUCKET_AVAIL then (l[1..], Put(l[0], [extra])) else (l, [extra])
  }

  /** The same with the old bucket's own extent, which goes to the half that is not needed next. */
  function Divided(l: seq<AvailElem>, extra: AvailElem, prior: AvailElem, first: bool)
    : (seq<AvailElem>, seq<AvailElem>)
  {
    var (av0, av1) := Shared(l, extra);
    if first then (av0, Put(prior, av1)) else (Put(prior, av0), av1)
  }

  lemma SharedIs(l: seq<AvailElem>, extra: AvailElem)
    requires GoodList(l) && |l| <= BUCKET_AVAIL
    ensures var (l0, l1) := Shared(l, extra);
            if |l| == BUCKET_AVAIL
            then multiset(l0) + multiset{l[0]} == multiset(l) && multiset(l1) == multiset{l[0], extra}
                 && forall x :: x in l ==> l[0].size <= x.size
            else multiset(l0) == multiset(l) && multiset(l1) == multiset{extra}
  {
    if |l| == BUCKET_AVAIL {
      PutKeepsAll(l[0], [extra]);
      assert l == [l[0]] + l[1..];
      hide Put;
    }
  }

  /**
   * Nothing is lost; the fresh block goes to the second half and the old bucket's own extent to the half that is not
   * needed next; the first half gets all other extents, but of six only the larger five.
   */
  lemma DividedIs(l: seq<AvailElem>, extra: AvailElem, prior: AvailElem, first: bool)
    requires GoodList(l) && |l| <= BUCKET_AVAIL && prior.size > IGNORE_SIZE
    ensures var (l0, l1) := Divided(l, extra, prior, first);
            var own0 := if first then multiset{} else multiset{prior};
            var own1 := if first then multiset{prior} else multiset{};
            if |l| == BUCKET_AVAIL
            then multiset(l0) + multiset{l[0]} == multiset(l) + own0 && multiset(l1) == multiset{l[0], extra} + own1
                 && forall x :: x in l ==> l[0].size <= x.size
            else multiset(l0) == multiset(l) + own0 && multiset(l1) == multiset{extra} + own1
  {
    SharedIs(l, extra);
    var (av0, av1) := Shared(l, extra);
    hide Put, Shared, GoodList;
    PutKeepsAll(prior, av0);
    PutKeepsAll(prior, av1);
    NoneMore(multiset(av0));
    NoneMore(multiset(av1));
    NoneMore(multiset(l));
  }

  lemma NoneMore(m: multiset<AvailElem>)
    ensures m + multiset{} == m
  {
  }

  /** Copy the free extents to the first half, the first of six to the second, which also gets a fresh block. */
  method ShareAvail(l: seq<AvailElem>, extra: AvailElem) returns (av0: seq<AvailElem>, av1: seq<AvailElem>)
    requires GoodList(l) && |l| <= BUCKET_AVAIL && extra.size > IGNORE_SIZE && extra.adr > 0
    ensures (av0, av1) == Shared(l, extra)
    ensures GoodList(av0) && |av0| < BUCKET_AVAIL && GoodList(av1) && |av1| <= 2
    ensures forall x: nat :: Cover(av0, x) + Cover(av1, x) == Cover(l, x) + In(extra, x)
  {
    av0, av1 := l, [extra];
    forall x: nat
      ensures Cover([extra], x) == In(extra, x)
    {
      CoverSingle(extra, x);
    }
    if |l| == BUCKET_AVAIL {
      av1 := PutSorted(l[0], av1, BUCKET_AVAIL);
      PutGood(l[0], [extra]);
      av0 := l[1..];
      RemoveGood(l, 0);
      assert RemoveAt(l, 0) == l[1..];
      forall x: nat
        ensures Cover(av0, x) + Cover(av1, x) == Cover(l, x) + In(extra, x)
      {
        CoverPut(l[0], [extra], x);
        CoverSingle(extra, x);
      }
    }
  }

  /** Divide the old bucket's free extents; its own extent goes to the half that is not needed next. */
  method DivideAvail(l: seq<AvailElem>, extra: AvailElem, prior: AvailElem, first: bool, ghost t: Halves)
    returns (l0: seq<AvailElem>, l1: seq<AvailElem>)
    requires GoodList(l) && |l| <= BUCKET_AVAIL && extra.size > IGNORE_SIZE && extra.adr > 0
    requires prior.size > IGNORE_SIZE && prior.adr > 0
    ensures GoodList(l0) && |l0| <= BUCKET_AVAIL && GoodList(l1) && |l1| <= BUCKET_AVAIL
    ensures (l0, l1) == Divided(l, extra, prior, first)
    ensures HalvesCover(l, extra, prior, t.(av0 := l0, av1 := l1))
  {
    hide GoodList;
    var av0, av1 := ShareAvail(l, extra);
    l0, l1 := av0, av1;
    PutGood(prior, av1);
    PutGood(prior, av0);
    if first {
      l1 := PutSorted(prior, av1, BUCKET_AVAIL);
    } else {
      l0 := PutSorted(prior, av0, BUCKET_AVAIL);
    }
    OldExtentPlaced(l, extra, prior, av0, av1, t.(av0 := l0, av1 := l1));
  }

  /** The old bucket's own extent goes to the half that is not needed next. */
  lemma OldExtentPlaced(l: seq<AvailElem>, extra: AvailElem, prior: AvailElem, av0: seq<AvailElem>,
                        av1: seq<AvailElem>, t: Halves)
    requires forall x: nat :: Cover(av0, x) + Cover(av1, x) == Cover(l, x) + In(extra, x)
    requires prior.size > IGNORE_SIZE
    requires (t.av0 == av0 && t.av1 == Put(prior, av1)) || (t.av0 == Put(prior, av0) && t.av1 == av1)
    ensures HalvesCover(l, extra, prior, t)
  {
    forall x: nat
      ensures Cover(t.av0, x) + Cover(t.av1, x) == Cover(l, x) + In(extra, x) + In(prior, x)
    {
      hide Cover, In, Put;
      CoverPut(prior, av0, x);
      CoverPut(prior, av1, x);
      assert Cover(av0, x) + Cover(av1, x) == Cover(l, x) + In(extra, x);
    }
  }

  // ----- the loop

  /** If one half is full again, it holds all the elements. */
  lemma FullHalf(c: Core, t: Halves, n: nat, which: Core)
    requires SplitCores(c, t, n) && (which == t.core0 || which == t.core1)
    requires |OccBag(c.table)| == n && |OccBag(which.table)| == n
    ensures OccBag(which.table) == OccBag(c.table)
  {
    hide OccBag, ProbeOk, InHalf;
    assert |OccBag(t.core0.table) + OccBag(t.core1.table)| == |OccBag(t.core0.table)| + |OccBag(t.core1.table)|;
  }

  /** A full bucket that can be told apart from the next hash is not at the deepest level. */
  lemma CanDeepen(c: Core, p: nat, n: nat, next: nat)
    requires CoreOk(c, p, n) && Separable(OccBag(c.table), next) && p == Index(next, c.bits)
    ensures c.bits < 31
  {
    hide ProbeOk, OccBag;
    if c.bits == 31 {
      var s :| s in OccBag(c.table) && s.hash != next;
      DeepestBucket(OccBag(c.table), p, s);
    }
  }

  /** What is in transit may be listed in any order. */
  lemma Reheld(f: File, h: Header, dir: seq<nat>, b: Books, hc: bool, held: seq<AvailElem>)
    requires (forall x: nat :: Cover(held, x) == Cover(b.held, x)) && Sound(f, h, dir, b, hc)
    ensures Sound(f, h, dir, b.(held := held), hc)
  {
    hide ChainOk, ContentOk, GoodList, Holds;
    forall x: nat
      ensures Owners(h, b.(held := held), x) == if x < h.nextBlock then 1 else 0
    {
      hide Homes, Records, FreeIn, StackCover, Cover;
      assert Cover(held, x) == Cover(b.held, x);
      assert Owners(h, b, x) == if x < h.nextBlock then 1 else 0;
    }
  }

  lemma MoveBack(held: seq<AvailElem>, p: AvailElem, q: AvailElem, prior: seq<AvailElem>, r: AvailElem)
    ensures forall x: nat :: Cover(held + prior + [p, q, r], x) == Cover(held + [p] + [q] + prior + [r], x)
  {
    forall x: nat
      ensures Cover(held + prior + [p, q, r], x) == Cover(held + [p] + [q] + prior + [r], x)
    {
      CoverThree(held + prior, p, q, r, x);
      CoverConcat(held, prior, x);
      CoverConcat(held + [p] + [q] + prior, [r], x);
      CoverConcat(held + [p] + [q], prior, x);
      CoverConcat(held + [p], [q], x);
      CoverConcat(held, [p], x);
      CoverSingle(p, x);
      CoverSingle(q, x);
      CoverSingle(r, x);
    }
  }

  // ----- which half is next

  /** After the split, the hash selects one of the halves. */
  lemma NextHalf(dir: seq<nat>, dir': seq<nat>, d: nat, tabs: map<nat, Core>, pre: map<nat, nat>, a: nat, t: Halves,
                 next: nat)
    requires a in tabs && a in pre && tabs[a].bits < d <= 31 && Index(next, d) < |dir| && dir[Index(next, d)] == a
    requires Retargeted(dir, dir', d, tabs[a].bits, pre[a], a, t.adr0, t.adr1)
    requires DirOk(dir, d, tabs, pre)
    ensures |dir'| == |dir|
    ensures dir'[Index(next, d)] == t.adr0 || dir'[Index(next, d)] == t.adr1
  {
    BlockHalves(Index(next, d), d, tabs[a].bits);
  }

  lemma WideSelects(dir: seq<nat>, wide: seq<nat>, d: nat, next: nat)
    requires d < 31 && Index(next, d) < |dir|
    requires |wide| == 2 * |dir| && forall k :: 0 <= k < |wide| ==> wide[k] == dir[k / 2]
    ensures Index(next, d + 1) < |wide| && wide[Index(next, d + 1)] == dir[Index(next, d)]
  {
    IndexBlock(next, d + 1, d);
    assert Pow2(1) == 2;
    assert Index(next, d + 1) / 2 == Index(next, d);
  }

  /** Everything that holds after the halves are installed; slot j has the half that `next` selects. */
  lemma HalvesInstalled(f: File, h: Header, dir: seq<nat>, dir': seq<nat>, b: Books, hc: bool, cache: seq<CacheElem>,
                        i: nat, i0: nat, i1: nat, t: Halves, extra: AvailElem, held: seq<AvailElem>, next: nat, j: nat,
                        b2: Books, c2: seq<CacheElem>)
    requires i < |cache| && i0 < |cache| && i1 < |cache| && i != i0 && i != i1 && i0 != i1
    requires !cache[i0].changed && !cache[i1].changed && t.adr0 != 0 && t.adr1 != 0
    requires cache[i].adr in b.pre && cache[i].adr in b.tabs && cache[i].adr in b.avs && cache[i].adr != 0
    requires b2 == SplitBooks(b, cache[i].adr, t, held) && c2 == SplitCache(cache, i, i0, i1, t) && j < |c2|
    requires b.tabs[cache[i].adr].bits < h.dirBits <= 31
    requires HalvesHeld(b, t, h.bucketSize, extra, held)
    requires HalvesCover(b.avs[cache[i].adr], extra, Avail(h.bucketSize, cache[i].adr), t)
    requires GoodList(t.av0) && |t.av0| <= BUCKET_AVAIL && GoodList(t.av1) && |t.av1| <= BUCKET_AVAIL
    requires SplitCores(b.tabs[cache[i].adr], t, h.bucketElems)
    requires Retargeted(dir, dir', h.dirBits, b.tabs[cache[i].adr].bits, b.pre[cache[i].adr], cache[i].adr, t.adr0,
                        t.adr1)
    requires Index(next, h.dirBits) < |dir'|
    requires j == if dir'[Index(next, h.dirBits)] == t.adr0 then i0 else i1
    requires dir'[Index(next, h.dirBits)] == t.adr0 || dir'[Index(next, h.dirBits)] == t.adr1
    requires Mapped(dir, h, b) && Coherent(f, cache, b, i) && Sound(f, h, dir, b, hc)
    ensures SelectedBy(dir', h, b2, c2[j], next) && ReadyFor(f, h, dir', b2, hc, c2[j])
    ensures Mapped(dir', h, b2) && Coherent(f, c2, b2, j)
  {
    hide Mapped, Coherent, Sound, HalvesCover, HalvesHeld, SplitCores, GoodList, Retargeted, Index;
    var a := cache[i].adr;
    SplitSound(f, h, dir, b, hc, a, t, extra, held, dir');
    SplitMapped(dir, h, b, a, t, held, dir');
    SplitCoherent(f, cache, b, i, i0, i1, t, held);
    OpenAny(f, c2, b2, j);
  }

  lemma OpenAny(f: File, cache: seq<CacheElem>, b: Books, open: nat)
    requires Coherent(f, cache, b, -1)
    ensures Coherent(f, cache, b, open)
  {
    hide CacheOk, DataOk;
  }
}
