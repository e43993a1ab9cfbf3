/** Keys that share a hash value, and what a bucket full of them means for an insertion. */
module Collisions {
  import opened Base
  import opened StringHash
  import opened State
  import opened Room
  import opened Opening
  import opened Sessions

  // ----- when two keys have the same hash

  const LENGTH_FACTOR := 0x238F13AF
  const SCRAMBLE := 1103515243
  const UNSCRAMBLE := 1293348419

  /** The shifted characters from `index` on. */
  function ShiftedSum(key: Bytes, index: nat): int
    requires index <= |key|
    decreases |key| - index
  {
    if index == |key| then 0 else key[index] * Pow2(index * 5 % 24) + ShiftedSum(key, index + 1)
  }

  /** The hash before the last scrambling and the reductions. */
  function Weight(key: Bytes): int {
    LENGTH_FACTOR * |key| + ShiftedSum(key, 0)
  }

  /** Adding a multiple of the limit makes no difference modulo the limit. */
  lemma ModShift(x: int, y: int, k: int)
    requires x == y + HASH_LIMIT * k
    ensures x % HASH_LIMIT == y % HASH_LIMIT
  {
  }

  lemma ModAdd(x: int, y: int)
    ensures (x % HASH_LIMIT + y) % HASH_LIMIT == (x + y) % HASH_LIMIT
  {
    ModShift(x + y, x % HASH_LIMIT + y, x / HASH_LIMIT);
  }

  lemma Scaled(a: int, x: int, q: int, r: int)
    requires x == HASH_LIMIT * q + r
    ensures a * x == a * r + HASH_LIMIT * (a * q)
  {
    assert a * (HASH_LIMIT * q) == HASH_LIMIT * (a * q);
  }

  lemma ModTimes(a: int, x: int)
    ensures (a * (x % HASH_LIMIT)) % HASH_LIMIT == (a * x) % HASH_LIMIT
  {
    var q, r := x / HASH_LIMIT, x % HASH_LIMIT;
    Scaled(a, x, q, r);
    ModShift(a * x, a * r, a * q);
  }

  lemma {:induction false} HashFromIs(key: Bytes, index: nat, value: nat)
    requires index <= |key|
    ensures HashFrom(key, index, value) % HASH_LIMIT == (value + ShiftedSum(key, index)) % HASH_LIMIT
    decreases |key| - index
  {
    if index < |key| {
      hide Pow2;
      var c := key[index] * Pow2(index * 5 % 24);
      HashFromIs(key, index + 1, (value + c) % HASH_LIMIT);
      ModAdd(value + c, ShiftedSum(key, index + 1));
    }
  }

  lemma HashIs(key: Bytes)
    ensures Hash(key) == (SCRAMBLE * (Weight(key) % HASH_LIMIT) + 12345) % HASH_LIMIT
  {
    HashFromIs(key, 0, LENGTH_FACTOR * |key|);
    var v: int := HashFrom(key, 0, LENGTH_FACTOR * |key|);
    hide HashFrom, ShiftedSum;
    ModTimes(SCRAMBLE, v);
    ModAdd(SCRAMBLE * v, 12345);
    ModAdd(SCRAMBLE * (v % HASH_LIMIT), 12345);
  }

  lemma Inverse(w: int)
    ensures UNSCRAMBLE * (SCRAMBLE * w) == w + HASH_LIMIT * (664605617 * w)
  {
  }

  /** The last scrambling can be undone. */
  lemma Unscrambled(w: nat)
    requires w < HASH_LIMIT
    ensures (UNSCRAMBLE * ((SCRAMBLE * w + 12345) % HASH_LIMIT - 12345)) % HASH_LIMIT == w
  {
    var x := SCRAMBLE * w + 12345;
    ModAdd(x, -12345);
    ModTimes(UNSCRAMBLE, x % HASH_LIMIT - 12345);
    ModTimes(UNSCRAMBLE, x - 12345);
    Inverse(w);
    ModShift(UNSCRAMBLE * (x - 12345), w, 664605617 * w);
  }

  /** Two keys have the same hash exactly if their weights agree modulo 2^31. */
  lemma SameHashIff(x: Bytes, y: Bytes)
    ensures Hash(x) == Hash(y) <==> Weight(x) % HASH_LIMIT == Weight(y) % HASH_LIMIT
  {
    HashIs(x);
    HashIs(y);
    Unscrambled(Weight(x) % HASH_LIMIT);
    Unscrambled(Weight(y) % HASH_LIMIT);
  }

  // ----- keys that do

  /** 2 at one end and -1 at the other cancel out: the characters 0 and 5 are shifted by 0 and 1. */
  function Twin(t: int): Bytes
    requires -64 <= t < 64
  {
    [2 * t, 0, 0, 0, 0, -t]
  }

  /** 128 short keys with one hash. */
  lemma TwinsCollide(t: int, u: int)
    requires -64 <= t < 64 && -64 <= u < 64
    ensures Hash(Twin(t)) == Hash(Twin(u)) && (Twin(t) == Twin(u) <==> t == u)
  {
    TwinWeight(t);
    TwinWeight(u);
    SameHashIff(Twin(t), Twin(u));
    assert Twin(t)[5] == -t && Twin(u)[5] == -u;
  }

  lemma TwinWeight(t: int)
    requires -64 <= t < 64
    ensures Weight(Twin(t)) == LENGTH_FACTOR * 6
  {
    var k := Twin(t);
    assert ShiftedSum(k, 6) == 0;
    assert Pow2(1) == 2 && ShiftedSum(k, 5) == -t * Pow2(1);
    assert ShiftedSum(k, 4) == ShiftedSum(k, 5);
    assert ShiftedSum(k, 3) == ShiftedSum(k, 4);
    assert ShiftedSum(k, 2) == ShiftedSum(k, 3);
    assert ShiftedSum(k, 1) == ShiftedSum(k, 2);
  }

  /** The t-th of n keys that have a single 1 at a place without a shift. */
  function Single(n: nat, t: nat): (k: Bytes)
    requires t < n
  {
    seq(24 * n, i requires 0 <= i < 24 * n => if i == 24 * t then 1 else 0)
  }

  lemma {:induction false} SingleSum(n: nat, t: nat, i: nat)
    requires t < n && i <= 24 * n
    ensures ShiftedSum(Single(n, t), i) == if i <= 24 * t then 1 else 0
    decreases 24 * n - i
  {
    if i < 24 * n {
      SingleSum(n, t, i + 1);
      SingleAt(n, t, i);
      hide Single;
    }
  }

  lemma SingleAt(n: nat, t: nat, i: nat)
    requires t < n && i < 24 * n
    ensures Single(n, t)[i] * Pow2(i * 5 % 24) == if i == 24 * t then 1 else 0
  {
    if i == 24 * t {
      DivUnique(i * 5, 24, 5 * t, 0);
      assert Pow2(0) == 1;
    } else {
      hide Pow2;
      assert 0 * Pow2(i * 5 % 24) == 0;
    }
  }

  /** As many keys with one hash as are wanted. */
  lemma SinglesCollide(n: nat, t: nat, u: nat)
    requires t < n && u < n
    ensures Hash(Single(n, t)) == Hash(Single(n, u)) && (Single(n, t) == Single(n, u) <==> t == u)
  {
    SingleSum(n, t, 0);
    SingleSum(n, u, 0);
    SameHashIff(Single(n, t), Single(n, u));
    assert Single(n, t)[24 * t] == 1 && (t != u ==> Single(n, u)[24 * t] == 0);
  }

  // ----- a run that does not fit

  /** Different keys with one hash. */
  ghost predicate Crowd(keys: seq<Bytes>) {
    forall i, j :: 0 <= i < j < |keys| ==> keys[i] != keys[j] && Hash(keys[i]) == Hash(keys[j])
  }

  function Stores(keys: seq<Bytes>): seq<Op> {
    seq(|keys|, i requires 0 <= i < |keys| => StoreOp(Some(keys[i]), Some([]), false))
  }

  ghost function Elements(keys: seq<Bytes>): set<Bytes> {
    set i | 0 <= i < |keys| :: keys[i]
  }

  /** A crowd and its last key. */
  lemma CrowdFront(keys: seq<Bytes>)
    requires Crowd(keys) && keys != []
    ensures var front, last := keys[..|keys| - 1], keys[|keys| - 1];
            && Crowd(front) && last !in Elements(front) && Elements(keys) == Elements(front) + {last}
            && (forall k :: k in Elements(front) ==> Hash(k) == Hash(last))
            && Stores(keys) == Stores(front) + [StoreOp(Some(last), Some([]), false)]
  {
    hide Hash;
    var front, last := keys[..|keys| - 1], keys[|keys| - 1];
    forall x | x in Elements(front)
      ensures x in Elements(keys)
    {
      var i :| 0 <= i < |front| && front[i] == x;
      assert keys[i] == x;
    }
    assert keys[|keys| - 1] in Elements(keys);
    assert Elements(keys) == Elements(front) + {last};
  }

  lemma {:induction false} CrowdSize(keys: seq<Bytes>)
    requires Crowd(keys)
    ensures |Elements(keys)| == |keys|
  {
    if keys == [] {
      assert Elements(keys) == {};
    } else {
      CrowdFront(keys);
      hide Crowd, Elements;
      CrowdSize(keys[..|keys| - 1]);
    }
  }

  /** The first n keys of a crowd can be stored in a new database whose buckets hold n, and no other one after them. */
  lemma {:induction false} CrowdFits(keys: seq<Bytes>, n: nat)
    requires Crowd(keys)
    ensures PlainRun(map[], true, Stores(keys)).0.Keys == Elements(keys)
    ensures Roomy(map[], true, Stores(keys), n) <==> |keys| <= n
  {
    if keys == [] {
      assert Stores(keys) == [] && Elements(keys) == {};
    } else {
      var front, last := keys[..|keys| - 1], keys[|keys| - 1];
      CrowdFront(keys);
      CrowdFits(front, n);
      CrowdSize(front);
      hide Stores, PlainRun, Roomy, Crowd, Elements;
      PlainRunSplit(map[], true, Stores(front), [StoreOp(Some(last), Some([]), false)], n);
      LastFits(PlainRun(map[], true, Stores(front)).0, last, n);
    }
  }

  lemma LastFits(m: map<Bytes, Bytes>, last: Bytes, n: nat)
    requires last !in m && forall k :: k in m ==> Hash(k) == Hash(last)
    ensures PlainRun(m, true, [StoreOp(Some(last), Some([]), false)]).0.Keys == m.Keys + {last}
    ensures Roomy(m, true, [StoreOp(Some(last), Some([]), false)], n) <==> |m.Keys| < n
  {
    hide Hash;
    var op := StoreOp(Some(last), Some([]), false);
    assert [op][1..] == [];
    assert Peers(m, last) == m.Keys;
  }

  /** The keys of any size of crowd. */
  function Singles(n: nat): (keys: seq<Bytes>)
    ensures |keys| == n
  {
    seq(n, t requires 0 <= t < n => Single(n, t))
  }

  /** Whatever a bucket can hold, some run of insertions into a new database goes one key too far. */
  lemma SomeRunTooLong(n: nat)
    ensures Crowd(Singles(n + 1))
    ensures Roomy(map[], true, Stores(Singles(n + 1)[..n]), n) && !Roomy(map[], true, Stores(Singles(n + 1)), n)
  {
    var keys := Singles(n + 1);
    forall i, j | 0 <= i < j < |keys|
      ensures keys[i] != keys[j] && Hash(keys[i]) == Hash(keys[j])
    {
      SinglesCollide(n + 1, i, j);
    }
    hide Hash, Stores, Roomy, Single;
    CrowdFits(keys, n);
    CrowdFits(keys[..n], n);
  }

  function Twins(n: nat): (keys: seq<Bytes>)
    requires n <= 128
    ensures |keys| == n
  {
    seq(n, t requires 0 <= t < n => Twin(t - 64))
  }

  /** With blocks of 512 bytes a bucket holds twelve elements, and a thirteenth short key is too many. */
  lemma ThirteenTwins()
    ensures BucketElems(512) == 12 && Crowd(Twins(13))
    ensures Roomy(map[], true, Stores(Twins(12)), 12) && !Roomy(map[], true, Stores(Twins(13)), 12)
  {
    var keys := Twins(13);
    forall i, j | 0 <= i < j < |keys|
      ensures keys[i] != keys[j] && Hash(keys[i]) == Hash(keys[j])
    {
      TwinsCollide(i - 64, j - 64);
    }
    hide Hash, Stores, Roomy, Twin;
    assert Twins(12) == keys[..12];
    CrowdFits(Twins(12), 12);
    CrowdFits(keys, 12);
  }
}
