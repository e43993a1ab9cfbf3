/** How many keys may share a hash value. */
module Room {
  import opened Base
  import opened StringHash
  import opened Layout
  import opened HashTable
  import opened Directory
  import opened Ledger
  import opened State
  import opened Lookup

  /** The stored keys whose 31-bit hash is that of k. */
  ghost function Peers(m: map<Bytes, Bytes>, k: Bytes): set<Bytes> {
    set x | x in m && Hash(x) == Hash(k)
  }

  /** Fewer than n stored keys share the hash of k: the condition under which k can be inserted. */
  ghost predicate HasRoom(m: map<Bytes, Bytes>, k: Bytes, n: nat) {
    |Peers(m, k)| < n
  }

  ghost function KeySet(f: File, bag: multiset<Slot>): set<Bytes> {
    set s | s in bag :: KeyOf(f, s)
  }

  /** Elements with distinct keys are as many as their keys. */
  lemma {:induction false} KeySetSize(f: File, bag: multiset<Slot>)
    requires forall s :: s in bag ==> bag[s] == 1
    requires forall s, t :: s in bag && t in bag && KeyOf(f, s) == KeyOf(f, t) ==> s == t
    ensures |KeySet(f, bag)| == |bag|
    decreases |bag|
  {
    if bag == multiset{} {
      assert KeySet(f, bag) == {};
    } else {
      var s := PickSlot(bag);
      var rest := bag - multiset{s};
      assert forall t :: t in rest <==> t in bag && t != s;
      KeySetSize(f, rest);
      hide KeyOf;
      assert KeySet(f, bag) == KeySet(f, rest) + {KeyOf(f, s)};
      assert KeyOf(f, s) !in KeySet(f, rest);
    }
  }

  lemma SubsetSize<T>(a: set<T>, b: set<T>)
    requires a <= b
    ensures |a| <= |b|
  {
    assert b == a + (b - a);
  }

  /** A full bucket for a key with room holds an element with another hash. */
  lemma RoomSeparable(f: File, slots: multiset<Slot>, contents: map<Bytes, Bytes>, bag: multiset<Slot>, key: Bytes,
                      n: nat)
    requires ContentOk(f, slots, contents) && bag <= slots && |bag| == n && HasRoom(contents, key, n)
    ensures Separable(bag, Hash(key))
  {
    hide Hash, KeyOf, StartOk, IsRaw;
    if forall s :: s in bag ==> s.hash == Hash(key) {
      forall s | s in bag
        ensures s in slots && bag[s] == 1
      {
        assert slots[s] == 1;
      }
      KeySetSize(f, bag);
      forall k | k in KeySet(f, bag)
        ensures k in Peers(contents, key)
      {
        var s :| s in bag && KeyOf(f, s) == k;
        assert RecOk(f, s);
      }
      SubsetSize(KeySet(f, bag), Peers(contents, key));
    }
  }

  lemma BucketIncluded(b: Books, a: nat)
    requires a in b.tabs && b.slots == AllSlots(b.tabs)
    ensures OccBag(b.tabs[a].table) <= b.slots
  {
    AllTake(b.tabs, a);
  }

  lemma {:induction false} KeySetBound(f: File, bag: multiset<Slot>)
    ensures |KeySet(f, bag)| <= |bag|
    decreases |bag|
  {
    if bag == multiset{} {
      assert KeySet(f, bag) == {};
    } else {
      hide KeyOf;
      var s := PickSlot(bag);
      KeySetBound(f, bag - multiset{s});
      forall k | k in KeySet(f, bag)
        ensures k in KeySet(f, bag - multiset{s}) + {KeyOf(f, s)}
      {
        var t :| t in bag && KeyOf(f, t) == k;
        assert t == s || t in bag - multiset{s};
      }
      SubsetSize(KeySet(f, bag), KeySet(f, bag - multiset{s}) + {KeyOf(f, s)});
    }
  }

  /** All keys with one hash are in the bucket that the hash selects. */
  lemma PeersTogether(f: File, dir: seq<nat>, h: Header, b: Books, key: Bytes)
    requires Mapped(dir, h, b) && ContentOk(f, b.slots, b.contents)
    ensures Index(Hash(key), h.dirBits) < |dir|
    ensures Peers(b.contents, key) <= KeySet(f, OccBag(b.tabs[dir[Index(Hash(key), h.dirBits)]].table))
  {
    hide ContentOk, Hash, KeyOf, Index, OccBag, ProbeOk;
    IndexInRange(Hash(key), h.dirBits);
    hide DirOk;
    var t := b.tabs[dir[Index(Hash(key), h.dirBits)]].table;
    forall k | k in Peers(b.contents, key)
      ensures k in KeySet(f, OccBag(t))
    {
      var j := KeyInBucket(f, dir, h, b, k);
      BagMember(t, t[j]);
    }
  }

  /** So no database holds more keys with one hash than a bucket has slots. */
  lemma PeersBounded(f: File, dir: seq<nat>, h: Header, b: Books, key: Bytes)
    requires Mapped(dir, h, b) && ContentOk(f, b.slots, b.contents)
    ensures |Peers(b.contents, key)| <= h.bucketElems
  {
    PeersTogether(f, dir, h, b, key);
    var a := dir[Index(Hash(key), h.dirBits)];
    assert CoreOk(b.tabs[a], b.pre[a], h.bucketElems);
    hide ContentOk, DirOk, Hash, KeyOf, Index, OccBag, ProbeOk, CoreOk;
    var t := b.tabs[a].table;
    BagSize(t);
    KeySetBound(f, OccBag(t));
    SubsetSize(Peers(b.contents, key), KeySet(f, OccBag(t)));
  }

  /** When the peers of a key are as many as a bucket's elements, which hold them all, every element has their hash. */
  lemma OnlyPeers(f: File, slots: multiset<Slot>, contents: map<Bytes, Bytes>, bag: multiset<Slot>, key: Bytes)
    requires ContentOk(f, slots, contents) && bag <= slots
    requires Peers(contents, key) <= KeySet(f, bag) && |Peers(contents, key)| >= |bag|
    ensures !Separable(bag, Hash(key))
  {
    hide Hash, KeyOf, StartOk, IsRaw;
    var peers, keys := Peers(contents, key), KeySet(f, bag);
    KeySetBound(f, bag);
    forall k | k in keys
      ensures k in peers
    {
      if k !in peers {
        SubsetSize(peers + {k}, keys);
      }
    }
    forall s | s in bag
      ensures s.hash == Hash(key)
    {
      assert s in slots && RecOk(f, s);
      assert KeyOf(f, s) in keys;
    }
  }

  /**
   * A full bucket can be split so that the key gets room if and only if the database has room for the key:
   * otherwise no depth up to 31 tells any element of the bucket from the key.
   */
  lemma SplittingHelpsIffRoom(f: File, dir: seq<nat>, h: Header, b: Books, key: Bytes)
    requires Mapped(dir, h, b) && ContentOk(f, b.slots, b.contents)
    ensures Index(Hash(key), h.dirBits) < |dir|
    ensures var c := b.tabs[dir[Index(Hash(key), h.dirBits)]];
            c.bits <= 31 &&
            (c.count == h.bucketElems ==>
              (HasRoom(b.contents, key, h.bucketElems) <==>
                exists d, s :: c.bits < d <= 31 && s in OccBag(c.table) && Index(s.hash, d) != Index(Hash(key), d)))
  {
    SelectedPrefix(dir, h.dirBits, b.tabs, b.pre, Hash(key));
    PeersTogether(f, dir, h, b, key);
    var a := dir[Index(Hash(key), h.dirBits)];
    BucketIncluded(b, a);
    assert CoreOk(b.tabs[a], b.pre[a], h.bucketElems);
    hide ContentOk, DirOk, Hash, KeyOf, Index, OccBag, ProbeOk, Peers, KeySet, PrefixOk;
    var c := b.tabs[a];
    if c.count == h.bucketElems {
      if HasRoom(b.contents, key, h.bucketElems) {
        RoomSeparable(f, b.slots, b.contents, OccBag(c.table), key, h.bucketElems);
      } else {
        OnlyPeers(f, b.slots, b.contents, OccBag(c.table), key);
      }
      SplittingHelpsIff(OccBag(c.table), Hash(key), c.bits);
    }
  }

  /** The condition for an insertion is necessary: with the new key stored, one bucket must hold all its peers. */
  lemma RoomNeeded(f: File, dir: seq<nat>, h: Header, b: Books, m: map<Bytes, Bytes>, key: Bytes, data: Bytes)
    requires key !in m && b.contents == m[key := data]
    requires Mapped(dir, h, b) && ContentOk(f, b.slots, b.contents)
    ensures HasRoom(m, key, h.bucketElems)
  {
    hide Mapped, ContentOk, Hash;
    PeersBounded(f, dir, h, b, key);
    assert Peers(b.contents, key) == Peers(m, key) + {key};
  }
}
