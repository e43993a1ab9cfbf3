/** The order in which keys are visited, and what remains to be visited. */
module Iteration {
  import opened Base
  import opened StringHash
  import opened Layout
  import opened HashTable
  import opened Directory
  import opened Ledger
  import opened State
  import opened Lookup

  /** The directory entry that follows those of bucket a, starting at i. */
  function Skip(dir: seq<nat>, i: nat, a: nat): (r: nat)
    requires i <= |dir|
    ensures i <= r <= |dir| && (forall m :: i <= m < r ==> dir[m] == a) && (r < |dir| ==> dir[r] != a)
    decreases |dir| - i
  {
    if i < |dir| && dir[i] == a then Skip(dir, i + 1, a) else i
  }

  /** The keys at positions from j on of one table. */
  ghost function KeysFrom(f: File, t: seq<Slot>, j: int): set<Bytes> {
    set l | 0 <= l < |t| && j <= l && Occ(t, l) :: KeyOf(f, t[l])
  }

  /** The keys of the buckets at directory entries from i on. */
  ghost function KeysAfter(f: File, dir: seq<nat>, tabs: map<nat, Core>, i: int): set<Bytes> {
    set m, l | 0 <= m < |dir| && i <= m && dir[m] in tabs
               && 0 <= l < |tabs[dir[m]].table| && Occ(tabs[dir[m]].table, l) ::
      KeyOf(f, tabs[dir[m]].table[l])
  }

  /** The keys that are visited after position j of the bucket at directory entry i. */
  ghost function Remaining(f: File, dir: seq<nat>, tabs: map<nat, Core>, i: nat, j: int): set<Bytes>
    requires i < |dir| && dir[i] in tabs
  {
    KeysFrom(f, tabs[dir[i]].table, j + 1) + KeysAfter(f, dir, tabs, Skip(dir, i, dir[i]))
  }

  /** The keys that are visited after a stored key; it does not matter which of its bucket's entries is meant. */
  ghost function RemainingAfter(f: File, dir: seq<nat>, h: Header, b: Books, key: Bytes): set<Bytes> {
    if exists j: nat :: KeyAt(f, dir, h, b, key, j) then
      var j: nat :| KeyAt(f, dir, h, b, key, j);
      Remaining(f, dir, b.tabs, Index(Hash(key), h.dirBits), j)
    else {}
  }

  /** The entries of one bucket are adjacent. */
  lemma Contiguous(dir: seq<nat>, d: nat, tabs: map<nat, Core>, pre: map<nat, nat>, i: nat, m: nat, k: nat)
    requires DirOk(dir, d, tabs, pre) && i <= m <= k < |dir| && dir[i] == dir[k]
    ensures dir[m] == dir[i]
  {
    var a := dir[i];
    var w, p := Pow2(d - tabs[a].bits), pre[a];
    assert Block(i, d, tabs[a].bits) == p && Block(k, d, tabs[a].bits) == p;
    InRun(i, w, p);
    InRun(k, w, p);
    InRun(m, w, p);
    assert Block(m, d, tabs[a].bits) == p;
  }

  lemma SkipSame(dir: seq<nat>, d: nat, tabs: map<nat, Core>, pre: map<nat, nat>, i: nat, k: nat)
    requires DirOk(dir, d, tabs, pre) && i < |dir| && k < |dir| && dir[i] == dir[k]
    ensures Skip(dir, i, dir[i]) == Skip(dir, k, dir[k])
  {
    hide DirOk;
    var r, s := Skip(dir, i, dir[i]), Skip(dir, k, dir[k]);
    if r < s {
      if r < k {
        Contiguous(dir, d, tabs, pre, i, r, k);
      }
    } else if s < r {
      if s < i {
        Contiguous(dir, d, tabs, pre, k, s, i);
      }
    }
  }

  /** No entry after those of a bucket is one of its own. */
  lemma SkipPast(dir: seq<nat>, d: nat, tabs: map<nat, Core>, pre: map<nat, nat>, i: nat, m: nat)
    requires DirOk(dir, d, tabs, pre) && i < |dir| && Skip(dir, i, dir[i]) <= m < |dir|
    ensures dir[m] != dir[i]
  {
    hide DirOk;
    var r := Skip(dir, i, dir[i]);
    if dir[m] == dir[i] {
      Contiguous(dir, d, tabs, pre, i, r, m);
    }
  }

  // ----- what the positions hold

  lemma KeyPosition(f: File, dir: seq<nat>, h: Header, b: Books, m: nat, l: nat, key: Bytes)
    requires m < |dir| && dir[m] in b.tabs && l < |b.tabs[dir[m]].table| && HasKey(f, b.tabs[dir[m]].table, l, key)
    requires Mapped(dir, h, b) && ContentOk(f, b.slots, b.contents)
    ensures h.dirBits <= 31 && Index(Hash(key), h.dirBits) < |dir| && dir[Index(Hash(key), h.dirBits)] == dir[m]
    ensures KeyAt(f, dir, h, b, key, l) && key in b.contents
  {
    hide StartOk, IsRaw, Hash, Index, TabsOk, DirOk, KeyOf, DataOf, OccBag;
    var s := b.tabs[dir[m]].table[l];
    SlotFacts(f, dir, h, b, dir[m], l);
    BagMember(b.tabs[dir[m]].table, s);
    DirectoryFinds(dir, h.dirBits, b.tabs, b.pre, h.bucketElems, dir[m], s);
  }

  /** A key is at one position only. */
  lemma PositionUnique(f: File, dir: seq<nat>, h: Header, b: Books, a: nat, l: nat, l': nat, key: Bytes)
    requires a in b.tabs && l < |b.tabs[a].table| && l' < |b.tabs[a].table|
    requires HasKey(f, b.tabs[a].table, l, key) && HasKey(f, b.tabs[a].table, l', key)
    requires Mapped(dir, h, b) && ContentOk(f, b.slots, b.contents)
    ensures l == l'
  {
    hide RecOk, DirOk, TabsOk, KeyOf, DataOf, OccBag;
    var t := b.tabs[a].table;
    SlotFacts(f, dir, h, b, a, l);
    SlotFacts(f, dir, h, b, a, l');
    AllTake(b.tabs, a);
    assert OccBag(t)[t[l]] <= b.slots[t[l]];
    BagPosition(t, l, l');
  }

  /** What is left after a key, wherever in its bucket's block the visit stands. */
  lemma RemainingIs(f: File, dir: seq<nat>, h: Header, b: Books, i: nat, l: nat, key: Bytes)
    requires i < |dir| && dir[i] in b.tabs && l < |b.tabs[dir[i]].table| && HasKey(f, b.tabs[dir[i]].table, l, key)
    requires Mapped(dir, h, b) && ContentOk(f, b.slots, b.contents)
    ensures RemainingAfter(f, dir, h, b, key) == Remaining(f, dir, b.tabs, i, l)
  {
    hide Hash, Index, HasKey, ContentOk, Mapped, KeysFrom, KeysAfter, Skip, RemainingAfter;
    KeyPosition(f, dir, h, b, i, l, key);
    forall j: nat | KeyAt(f, dir, h, b, key, j)
      ensures j == l
    {
      PositionUnique(f, dir, h, b, dir[i], l, j, key);
    }
    RemainingChosen(f, dir, h, b, l, key);
    MappedDir(dir, h, b);
    SkipSame(dir, h.dirBits, b.tabs, b.pre, i, Index(Hash(key), h.dirBits));
  }

  lemma RemainingChosen(f: File, dir: seq<nat>, h: Header, b: Books, l: nat, key: Bytes)
    requires KeyAt(f, dir, h, b, key, l) && forall j: nat :: KeyAt(f, dir, h, b, key, j) ==> j == l
    ensures RemainingAfter(f, dir, h, b, key) == Remaining(f, dir, b.tabs, Index(Hash(key), h.dirBits), l)
  {
    hide Remaining;
  }

  lemma MappedDir(dir: seq<nat>, h: Header, b: Books)
    requires Mapped(dir, h, b)
    ensures DirOk(dir, h.dirBits, b.tabs, b.pre)
  {
  }

  /** All keys are ahead of the start. */
  lemma AllKeysAhead(f: File, dir: seq<nat>, h: Header, b: Books)
    requires Mapped(dir, h, b) && ContentOk(f, b.slots, b.contents)
    ensures KeysAfter(f, dir, b.tabs, 0) == b.contents.Keys
  {
    hide Hash, Index, Mapped, ContentOk, KeyOf;
    forall key | key in b.contents
      ensures key in KeysAfter(f, dir, b.tabs, 0)
    {
      var j := KeyInBucket(f, dir, h, b, key);
      var m := Index(Hash(key), h.dirBits);
      assert Occ(b.tabs[dir[m]].table, j);
    }
    forall key | key in KeysAfter(f, dir, b.tabs, 0)
      ensures key in b.contents
    {
      var m, l :| 0 <= m < |dir| && 0 <= m && dir[m] in b.tabs && 0 <= l < |b.tabs[dir[m]].table|
                  && Occ(b.tabs[dir[m]].table, l) && KeyOf(f, b.tabs[dir[m]].table[l]) == key;
      KeyPosition(f, dir, h, b, m, l, key);
    }
  }

  // ----- steps of the visit

  /** An empty slot holds no key. */
  lemma StepEmpty(f: File, t: seq<Slot>, j: nat)
    requires j < |t| && !Occ(t, j)
    ensures KeysFrom(f, t, j) == KeysFrom(f, t, j + 1)
  {
    hide KeyOf;
  }

  lemma StepFound(f: File, t: seq<Slot>, j: nat)
    requires j < |t| && Occ(t, j)
    ensures KeysFrom(f, t, j) == KeysFrom(f, t, j + 1) + {KeyOf(f, t[j])}
  {
    hide KeyOf;
  }

  lemma StepEnd(f: File, t: seq<Slot>, j: int)
    requires j >= |t|
    ensures KeysFrom(f, t, j) == {}
  {
  }

  /** From the first entry of a bucket, its own keys come first. */
  lemma StepBucket(f: File, dir: seq<nat>, tabs: map<nat, Core>, i: nat)
    requires i < |dir| && dir[i] in tabs
    ensures KeysAfter(f, dir, tabs, i) == Remaining(f, dir, tabs, i, -1)
  {
    hide KeyOf;
    var r := Skip(dir, i, dir[i]);
    forall key | key in KeysAfter(f, dir, tabs, i)
      ensures key in Remaining(f, dir, tabs, i, -1)
    {
      var m, l :| 0 <= m < |dir| && i <= m && dir[m] in tabs && 0 <= l < |tabs[dir[m]].table|
                  && Occ(tabs[dir[m]].table, l) && KeyOf(f, tabs[dir[m]].table[l]) == key;
      if m < r {
        assert dir[m] == dir[i];
      }
    }
  }

  /** The key just found is not ahead any more. */
  lemma FoundGone(f: File, dir: seq<nat>, h: Header, b: Books, i: nat, l: nat)
    requires i < |dir| && dir[i] in b.tabs && l < |b.tabs[dir[i]].table| && Occ(b.tabs[dir[i]].table, l)
    requires Mapped(dir, h, b) && ContentOk(f, b.slots, b.contents)
    ensures KeyOf(f, b.tabs[dir[i]].table[l]) !in Remaining(f, dir, b.tabs, i, l)
  {
    hide Hash, Index, Mapped, ContentOk, KeyOf, Skip;
    var a, t := dir[i], b.tabs[dir[i]].table;
    var key := KeyOf(f, t[l]);
    assert HasKey(f, t, l, key);
    if key in KeysFrom(f, t, l + 1) {
      var l' :| 0 <= l' < |t| && l + 1 <= l' && Occ(t, l') && KeyOf(f, t[l']) == key;
      PositionUnique(f, dir, h, b, a, l, l', key);
    } else if key in KeysAfter(f, dir, b.tabs, Skip(dir, i, a)) {
      var m, l' :| 0 <= m < |dir| && Skip(dir, i, a) <= m && dir[m] in b.tabs && 0 <= l' < |b.tabs[dir[m]].table|
                   && Occ(b.tabs[dir[m]].table, l') && KeyOf(f, b.tabs[dir[m]].table[l']) == key;
      MappedDir(dir, h, b);
      SkipPast(dir, h.dirBits, b.tabs, b.pre, i, m);
      KeyPosition(f, dir, h, b, i, l, key);
      KeyPosition(f, dir, h, b, m, l', key);
    }
  }
}
