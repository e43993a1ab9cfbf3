/** The extendible-hashing directory: which bucket a hash value selects, doubling and splitting. */
module Directory {
  import opened Base
  import opened StringHash
  import opened Layout
  import opened HashTable

  /** The directory entry for a 31-bit hash: h >> (31 - d). */
  function Index(h: nat, d: nat): nat
    requires d <= 31
  {
    Shr(h, 31 - d)
  }

  /** The top b of the d bits of directory entry i: i >> (d - b). */
  function Block(i: nat, d: nat, b: nat): nat
    requires b <= d
  {
    Shr(i, d - b)
  }

  /** A bucket of n slots whose elements all have the hash prefix p. */
  ghost predicate CoreOk(c: Core, p: nat, n: nat) {
    && |c.table| == n && c.count == |OccBag(c.table)| && ProbeOk(c.table)
    && c.bits <= 31 && p < Pow2(c.bits)
    && PrefixOk(OccBag(c.table), c.bits, p)
  }

  ghost predicate PrefixOk(bag: multiset<Slot>, bits: nat, p: nat)
    requires bits <= 31
  {
    forall s :: s in bag ==> 0 <= s.hash < HASH_LIMIT && Index(s.hash, bits) == p
  }

  /** All buckets, by file address; `pre` gives each one's hash prefix. */
  ghost predicate TabsOk(tabs: map<nat, Core>, pre: map<nat, nat>, n: nat) {
    tabs.Keys == pre.Keys && forall a :: a in tabs ==> CoreOk(tabs[a], pre[a], n)
  }

  /** The entries for a bucket are exactly the aligned block that its prefix selects. */
  ghost predicate DirOk(dir: seq<nat>, d: nat, tabs: map<nat, Core>, pre: map<nat, nat>) {
    && d <= 31 && |dir| == Pow2(d) && tabs.Keys == pre.Keys
    && (forall i :: 0 <= i < |dir| ==> dir[i] in tabs)
    && (forall a :: a in tabs ==> tabs[a].bits <= d && pre[a] < Pow2(tabs[a].bits))
    && (forall i, a :: 0 <= i < |dir| && a in tabs ==> (dir[i] == a <==> Block(i, d, tabs[a].bits) == pre[a]))
  }

  lemma Pow2At31()
    ensures Pow2(31) == HASH_LIMIT
  {
    assert Pow2(8) == 256;
    Pow2Add(8, 8);
    Pow2Add(16, 8);
    assert Pow2(7) == 128;
    Pow2Add(24, 7);
  }

  /** An entry computed from a hash is inside the directory. */
  lemma IndexInRange(h: nat, d: nat)
    requires d <= 31 && h < HASH_LIMIT
    ensures Index(h, d) < Pow2(d)
  {
    Pow2At31();
    Pow2Add(31 - d, d);
    DivBelow(h, Pow2(31 - d), Pow2(d));
  }

  lemma IndexBlock(h: nat, d: nat, b: nat)
    requires b <= d <= 31
    ensures Block(Index(h, d), d, b) == Index(h, b)
  {
    ShiftShift(h, 31 - d, d - b);
  }

  /** A stored element is in the bucket that the directory selects for its hash. */
  lemma DirectoryFinds(dir: seq<nat>, d: nat, tabs: map<nat, Core>, pre: map<nat, nat>, n: nat, a: nat, s: Slot)
    requires DirOk(dir, d, tabs, pre) && TabsOk(tabs, pre, n)
    requires a in tabs && s in OccBag(tabs[a].table)
    ensures d <= 31 && 0 <= s.hash < HASH_LIMIT && Index(s.hash, d) < |dir| && dir[Index(s.hash, d)] == a
  {
    assert CoreOk(tabs[a], pre[a], n);
    IndexInRange(s.hash, d);
    IndexBlock(s.hash, d, tabs[a].bits);
  }

  /** The bucket that a hash selects has that hash's prefix. */
  lemma SelectedPrefix(dir: seq<nat>, d: nat, tabs: map<nat, Core>, pre: map<nat, nat>, h: nat)
    requires DirOk(dir, d, tabs, pre) && h < HASH_LIMIT
    ensures Index(h, d) < |dir|
    ensures var a := dir[Index(h, d)]; tabs[a].bits <= 31 && Index(h, tabs[a].bits) == pre[a]
  {
    IndexInRange(h, d);
    var a := dir[Index(h, d)];
    IndexBlock(h, d, tabs[a].bits);
  }

  lemma BlockStart(p: nat, d: nat, b: nat) returns (i: nat)
    requires b <= d && p < Pow2(b)
    ensures i < Pow2(d) && Block(i, d, b) == p
  {
    Pow2Add(b, d - b);
    i := Pow2(d - b) * p;
    AlignedStart(Pow2(d - b), Pow2(b), p);
  }

  lemma AlignedStart(w: nat, n: nat, p: nat)
    requires w > 0 && p < n
    ensures w * p < n * w && (w * p) / w == p
  {
    MulMono(w, p + 1, n);
    DivUnique(w * p, w, p, 0);
  }

  /** Every bucket has a directory entry. */
  lemma EveryBucketListed(dir: seq<nat>, d: nat, tabs: map<nat, Core>, pre: map<nat, nat>, a: nat) returns (i: nat)
    requires DirOk(dir, d, tabs, pre) && a in tabs
    ensures i < |dir| && dir[i] == a
  {
    i := BlockStart(pre[a], d, tabs[a].bits);
  }

  // ----- doubling

  /** `new_dir[2*i] = new_dir[2*i+1] = dir[i]` for every entry. */
  method DoubleDirectory(dir: seq<nat>) returns (wide: seq<nat>)
    ensures |wide| == 2 * |dir| && forall k :: 0 <= k < |wide| ==> wide[k] == dir[k / 2]
  {
    var newDir := new nat[2 * |dir|];
    for index := 0 to |dir|
      invariant forall k :: 0 <= k < 2 * index ==> newDir[k] == dir[k / 2]
    {
      newDir[2 * index] := dir[index];
      newDir[2 * index + 1] := dir[index];
    }
    wide := newDir[..];
  }

  lemma DoublingKeeps(dir: seq<nat>, wide: seq<nat>, d: nat, tabs: map<nat, Core>, pre: map<nat, nat>)
    requires DirOk(dir, d, tabs, pre) && d < 31
    requires |wide| == 2 * |dir| && forall k :: 0 <= k < |wide| ==> wide[k] == dir[k / 2]
    ensures DirOk(wide, d + 1, tabs, pre)
  {
    forall k, a | 0 <= k < |wide| && a in tabs
      ensures wide[k] == a <==> Block(k, d + 1, tabs[a].bits) == pre[a]
    {
      DivDiv(k, 2, Pow2(d - tabs[a].bits));
      assert Block(k, d + 1, tabs[a].bits) == Block(k / 2, d, tabs[a].bits);
    }
  }

  // ----- retargeting

  /** The directory after the bucket at `a`, of depth b, is replaced by two of depth b + 1. */
  ghost predicate Retargeted(dir: seq<nat>, r: seq<nat>, d: nat, b: nat, p: nat, a: nat, adr0: nat, adr1: nat)
    requires b < d
  {
    && |r| == |dir|
    && forall k | 0 <= k < |dir| ::
        r[k] == if Block(k, d, b + 1) == 2 * p then adr0
                else if Block(k, d, b + 1) == 2 * p + 1 then adr1
                else dir[k]
  }

  lemma BlockHalves(k: nat, d: nat, b: nat)
    requires b < d
    ensures Block(k, d, b) == Block(k, d, b + 1) / 2
  {
    Pow2Add(d - b - 1, 1);
    DivDiv(k, Pow2(d - b - 1), 2);
  }

  /** Point the two halves of a bucket's block at the two new buckets. */
  method Retarget(dir: seq<nat>, d: nat, bits: nat, bucketDir: nat, adr0: nat, adr1: nat,
                  ghost p: nat, ghost a: nat)
    returns (r: seq<nat>)
    requires 1 <= bits <= d && |dir| == Pow2(d) && p < Pow2(bits - 1)
    requires bucketDir < |dir| && Block(bucketDir, d, bits - 1) == p
    ensures Retargeted(dir, r, d, bits - 1, p, a, adr0, adr1)
  {
    var w := Pow2(d - bits);
    var top := bucketDir / w;
    var dirStart1 := top + 1 - top % 2;
    BlockHalves(bucketDir, d, bits - 1);
    assert dirStart1 == 2 * p + 1;
    var dirEnd := (dirStart1 + 1) * w;
    dirStart1 := dirStart1 * w;
    var dirStart0 := dirStart1 - (dirEnd - dirStart1);
    RetargetBounds(d, bits, p);
    r := dir;
    for index := dirStart0 to dirStart1
      invariant |r| == |dir|
      invariant forall k :: 0 <= k < |dir| ==> r[k] == if dirStart0 <= k < index then adr0 else dir[k]
    {
      r := r[index := adr0];
    }
    for index := dirStart1 to dirEnd
      invariant |r| == |dir|
      invariant forall k | 0 <= k < |dir| ::
                  r[k] == if dirStart0 <= k < dirStart1 then adr0 else if dirStart1 <= k < index then adr1 else dir[k]
    {
      r := r[index := adr1];
    }
    forall k | 0 <= k < |dir|
      ensures r[k] == if Block(k, d, bits) == 2 * p then adr0
                      else if Block(k, d, bits) == 2 * p + 1 then adr1 else dir[k]
    {
      InRun(k, w, 2 * p);
      InRun(k, w, 2 * p + 1);
    }
  }

  lemma InRun(k: nat, w: nat, q: nat)
    requires w > 0
    ensures k / w == q <==> q * w <= k < (q + 1) * w
  {
    DivBelow(k, w, q);
    DivBelow(k, w, q + 1);
  }

  lemma RetargetBounds(d: nat, bits: nat, p: nat)
    requires 1 <= bits <= d && p < Pow2(bits - 1)
    ensures var w := Pow2(d - bits);
            (2 * p + 1) * w - ((2 * p + 2) * w - (2 * p + 1) * w) == 2 * p * w
            && 0 <= 2 * p * w <= (2 * p + 1) * w <= (2 * p + 2) * w <= Pow2(d)
  {
    var w := Pow2(d - bits);
    Pow2Add(bits, d - bits);
    MulMono(w, 2 * p + 2, Pow2(bits));
    assert (2 * p + 2) * w == (2 * p + 1) * w + w && (2 * p + 1) * w == 2 * p * w + w;
  }

  /** Who owns an entry after the split; `half` is its place among the halves of all blocks. */
  lemma SplitOwner(was: nat, now: nat, a: nat, adr0: nat, adr1: nat, half: nat, p: nat)
    requires adr0 != adr1 && was != adr0 && was != adr1
    requires was == a <==> half / 2 == p
    requires now == if half == 2 * p then adr0 else if half == 2 * p + 1 then adr1 else was
    ensures now == adr0 <==> half == 2 * p
    ensures now == adr1 <==> half == 2 * p + 1
    ensures if was == a then now == adr0 || now == adr1 else now == was
  {
  }

  /** Splitting a bucket keeps the directory sound. */
  lemma SplitKeepsDirectory(dir: seq<nat>, r: seq<nat>, d: nat, tabs: map<nat, Core>, pre: map<nat, nat>,
                            a: nat, adr0: nat, adr1: nat, c0: Core, c1: Core)
    requires DirOk(dir, d, tabs, pre) && a in tabs && tabs[a].bits < d
    requires adr0 !in tabs && adr1 !in tabs && adr0 != adr1
    requires c0.bits == c1.bits == tabs[a].bits + 1
    requires Retargeted(dir, r, d, tabs[a].bits, pre[a], a, adr0, adr1)
    ensures DirOk(r, d, (tabs - {a})[adr0 := c0][adr1 := c1], (pre - {a})[adr0 := 2 * pre[a]][adr1 := 2 * pre[a] + 1])
  {
    var b, p := tabs[a].bits, pre[a];
    var tabs', pre' := (tabs - {a})[adr0 := c0][adr1 := c1], (pre - {a})[adr0 := 2 * p][adr1 := 2 * p + 1];
    forall k | 0 <= k < |r|
      ensures r[k] in tabs'
      ensures forall x :: x in tabs' ==> (r[k] == x <==> Block(k, d, tabs'[x].bits) == pre'[x])
    {
      BlockHalves(k, d, b);
      hide Block;
      SplitOwner(dir[k], r[k], a, adr0, adr1, Block(k, d, b + 1), p);
      forall x | x in tabs'
        ensures r[k] == x <==> Block(k, d, tabs'[x].bits) == pre'[x]
      {
        if x != adr0 && x != adr1 {
          assert tabs'[x] == tabs[x] && pre'[x] == pre[x];
        }
      }
    }
    hide Block;
  }

  // ----- what splitting does to the elements

  lemma ChildPrefix(h: nat, b: nat)
    requires b < 31
    ensures Index(h, b + 1) == 2 * Index(h, b) + HashBit(h, b + 1)
  {
    Pow2Add(31 - (b + 1), 1);
    DivDiv(h, Pow2(31 - (b + 1)), 2);
  }

  /** Each half of the elements has the longer prefix of its new bucket. */
  lemma HalfPrefix(bag: multiset<Slot>, half: multiset<Slot>, b: nat, p: nat, which: nat)
    requires b < 31 && half <= bag && PrefixOk(bag, b, p) && InHalf(half, b + 1, which)
    ensures PrefixOk(half, b + 1, 2 * p + which)
  {
    forall s | s in half
      ensures 0 <= s.hash < HASH_LIMIT && Index(s.hash, b + 1) == 2 * p + which
    {
      assert s in bag;
      ChildPrefix(s.hash, b);
    }
  }

  /** At depth 31 all elements of a bucket have one hash value. */
  lemma DeepestBucket(bag: multiset<Slot>, p: nat, s: Slot)
    requires PrefixOk(bag, 31, p) && s in bag
    ensures s.hash == p
  {
  }

  /** Some element can be told apart from the hash `next`. */
  ghost predicate Separable(bag: multiset<Slot>, next: nat) {
    exists s :: s in bag && s.hash != next
  }

  /**
   * Splitting towards `next` ever makes room exactly when some element has another hash:
   * then some depth separates one, and otherwise no depth does.
   */
  lemma SplittingHelpsIff(bag: multiset<Slot>, next: nat, b: nat)
    requires b <= 31 && next < HASH_LIMIT && PrefixOk(bag, b, Index(next, b))
    ensures Separable(bag, next) <==>
            exists d, s :: b < d <= 31 && s in bag && Index(s.hash, d) != Index(next, d)
  {
    if Separable(bag, next) {
      var s :| s in bag && s.hash != next;
      assert Index(s.hash, 31) != Index(next, 31);
    }
  }
}
