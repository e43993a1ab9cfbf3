/** The records of the database file and the file itself, one atom per byte. */
module Layout {
  import opened Base

  const IGNORE_SIZE := 4
  const SMALL := 4
  const BUCKET_AVAIL := 6
  const HEADER_MAGIC := 0x13579ace

  // Record sizes on an LP64 machine.
  const SIZEOF_OFF := 8
  const SIZEOF_AVAIL_ELEM := 16
  const SIZEOF_AVAIL_BLOCK := 32
  const SIZEOF_HEADER := 80
  const SIZEOF_BUCKET := 144
  const SIZEOF_ELEMENT := 32

  datatype AvailElem = Avail(size: nat, adr: nat)

  /** `table` holds the live entries; `size` is the capacity. */
  datatype AvailBlock = AvailBlock(size: nat, nextBlock: nat, table: seq<AvailElem>)

  datatype Header = Header(
    magic: int, blockSize: nat, dir: nat, dirSize: nat, dirBits: nat,
    bucketSize: nat, bucketElems: nat, nextBlock: nat, avail: AvailBlock)

  /** The first bytes of a key, in a field of fixed width. */
  type KeyStart = s: seq<byte> | |s| == SMALL witness [0, 0, 0, 0]

  /** One element of a bucket's hash table; `hash == -1` marks it empty. */
  datatype Slot = Slot(hash: int, keyStart: KeyStart, ptr: nat, keySize: nat, dataSize: nat)

  /** A bucket: its own free extents, and the hash table with its bookkeeping. */
  datatype Core = Core(bits: nat, count: nat, table: seq<Slot>)
  datatype Bucket = Bucket(avail: seq<AvailElem>, core: Core)

  /** A record that the program writes to the file in one piece. */
  datatype Image =
    | HeaderImage(header: Header)
    | DirImage(dir: seq<nat>)
    | BucketImage(bucket: Bucket)
    | AvailImage(block: AvailBlock)

  /** One byte of the file: a byte of user data, or byte `off` of a written record. */
  datatype Atom = Raw(b: byte) | Part(img: Image, off: nat)

  type File = seq<Atom>

  /** `write` at offset `a`; a gap before `a` reads as zero bytes. */
  function WriteAt(f: File, a: nat, s: seq<Atom>): (g: File)
    ensures |g| == if s == [] then |f| else if |f| < a + |s| then a + |s| else |f|
    ensures forall x :: a <= x < a + |s| ==> g[x] == s[x - a]
    ensures forall x :: 0 <= x < |f| && !(a <= x < a + |s|) ==> g[x] == f[x]
  {
    if s == [] then f
    else
      var n := if |f| < a + |s| then a + |s| else |f|;
      seq(n, x requires 0 <= x < n =>
        if a <= x < a + |s| then s[x - a] else if x < |f| then f[x] else Raw(0))
  }

  function Encode(img: Image, n: nat): seq<Atom> {
    seq(n, i requires 0 <= i < n => Part(img, i))
  }

  function RawAtoms(s: Bytes): seq<Atom> {
    seq(|s|, i requires 0 <= i < |s| => Raw(s[i]))
  }

  /** The n bytes at offset a are exactly the record `img`. */
  predicate Holds(f: File, a: nat, img: Image, n: nat) {
    a + n <= |f| && forall x :: a <= x < a + n ==> f[x] == Part(img, x - a)
  }

  /** `read` of n bytes of user data. */
  function RawAt(f: File, a: nat, n: nat): (s: Bytes)
    ensures |s| == n
  {
    seq(n, i requires 0 <= i < n => if a + i < |f| && f[a + i].Raw? then f[a + i].b else 0)
  }

  /** The n bytes at offset a exist and are user data. */
  predicate IsRaw(f: File, a: nat, n: nat) {
    n > 0 ==> a + n <= |f| && forall x :: a <= x < a + n ==> f[x].Raw?
  }

  function KeyOf(f: File, s: Slot): (k: Bytes)
    ensures |k| == s.keySize
  {
    RawAt(f, s.ptr, s.keySize)
  }

  function DataOf(f: File, s: Slot): (d: Bytes)
    ensures |d| == s.dataSize
  {
    RawAt(f, s.ptr + s.keySize, s.dataSize)
  }

  function RecordOf(f: File, s: Slot): Bytes {
    RawAt(f, s.ptr, s.keySize + s.dataSize)
  }

  lemma RecordSplits(f: File, s: Slot)
    ensures RecordOf(f, s) == KeyOf(f, s) + DataOf(f, s)
  {
  }

  /** Reading back what was just written. */
  lemma WriteReadsBack(f: File, a: nat, s: Bytes)
    ensures RawAt(WriteAt(f, a, RawAtoms(s)), a, |s|) == s
    ensures IsRaw(WriteAt(f, a, RawAtoms(s)), a, |s|)
  {
  }

  lemma WriteHolds(f: File, a: nat, img: Image, n: nat)
    requires n > 0
    ensures Holds(WriteAt(f, a, Encode(img, n)), a, img, n)
  {
  }

  /** Two images at the same place are the same image. */
  lemma HoldsUnique(f: File, a: nat, i: Image, j: Image, n: nat)
    requires n > 0 && Holds(f, a, i, n) && Holds(f, a, j, n)
    ensures i == j
  {
    assert f[a] == Part(i, 0);
  }
}
