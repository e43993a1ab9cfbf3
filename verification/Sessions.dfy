/** Whole runs of a database, compared with a plain map. */
module Sessions {
  import opened Base
  import opened StringHash
  import opened Layout
  import opened Ledger
  import opened State
  import opened Room
  import opened Iteration
  import opened Opening
  import opened Engine

  datatype Op =
    | StoreOp(key: Option<Bytes>, content: Option<Bytes>, replace: bool)
    | DeleteOp(dead: Bytes)
    | FetchOp(wanted: Bytes)
    | ExistsOp(asked: Bytes)

  datatype Reply = Code(rc: int) | Data(data: Option<Bytes>) | Truth(yes: bool)

  /** The plain map: what an operation does to it and answers. */
  function Step(m: map<Bytes, Bytes>, writer: bool, op: Op): (map<Bytes, Bytes>, Reply) {
    match op
    case StoreOp(key, content, replace) =>
      if !writer || key.None? || content.None? then (m, Code(-1))
      else if key.value in m && !replace then (m, Code(1))
      else (m[key.value := content.value], Code(0))
    case DeleteOp(key) =>
      if writer && key in m then (m - {key}, Code(0)) else (m, Code(-1))
    case FetchOp(key) =>
      (m, Data(if key in m then Some(m[key]) else None))
    case ExistsOp(key) =>
      (m, Truth(key in m))
  }

  function PlainRun(m: map<Bytes, Bytes>, writer: bool, ops: seq<Op>): (map<Bytes, Bytes>, seq<Reply>)
    decreases |ops|
  {
    if ops == [] then (m, [])
    else
      var (m1, r) := Step(m, writer, ops[0]);
      var (m2, rs) := PlainRun(m1, writer, ops[1..]);
      (m2, [r] + rs)
  }

  /** If the operation stores a new key, fewer than n stored keys share its hash. */
  ghost predicate Fits(m: map<Bytes, Bytes>, writer: bool, op: Op, n: nat) {
    writer && op.StoreOp? && op.key.Some? && op.content.Some? && op.key.value !in m ==> HasRoom(m, op.key.value, n)
  }

  /** Every operation of the run fits when its turn comes. */
  ghost predicate Roomy(m: map<Bytes, Bytes>, writer: bool, ops: seq<Op>, n: nat)
    decreases |ops|
  {
    ops == [] || (Fits(m, writer, ops[0], n) && Roomy(Step(m, writer, ops[0]).0, writer, ops[1..], n))
  }

  method Perform(db: Gdbm, op: Op) returns (reply: Reply)
    requires Fits(db.books.contents, db.writer, op, db.hdr.bucketElems)
    requires db.Valid()
    modifies db
    ensures (db.books.contents, reply) == Step(old(db.books.contents), db.writer, op)
    ensures db.hdr.bucketElems == old(db.hdr.bucketElems)
    ensures db.Valid()
  {
    hide HasRoom, Gdbm.Valid;
    match op
    case StoreOp(key, content, replace) =>
      var rc := db.Store(key, content, replace);
      reply := Code(rc);
    case DeleteOp(key) =>
      var rc := db.Delete(key);
      assert key !in old(db.books.contents) ==> old(db.books.contents) - {key} == old(db.books.contents);
      reply := Code(rc);
    case FetchOp(key) =>
      var data := db.Fetch(key);
      reply := Data(data);
    case ExistsOp(key) =>
      var yes := db.Exists(key);
      reply := Truth(yes);
  }

  /** Any run of operations behaves as on a plain map: every answer and the final contents. */
  method Run(db: Gdbm, ops: seq<Op>) returns (replies: seq<Reply>)
    requires Roomy(db.books.contents, db.writer, ops, db.hdr.bucketElems)
    requires db.Valid()
    modifies db
    ensures (db.books.contents, replies) == PlainRun(old(db.books.contents), db.writer, ops)
    ensures db.hdr.bucketElems == old(db.hdr.bucketElems)
    ensures db.Valid()
  {
    hide Step, Fits, Gdbm.Valid;
    replies := [];
    for i := 0 to |ops|
      invariant Roomy(db.books.contents, db.writer, ops[i..], db.hdr.bucketElems)
      invariant Continues(old(db.books.contents), db.writer, ops, db.books.contents, replies, ops[i..])
      invariant db.hdr.bucketElems == old(db.hdr.bucketElems)
      invariant db.Valid()
    {
      assert ops[i..][1..] == ops[i + 1..];
      ghost var m := db.books.contents;
      var reply := Perform(db, ops[i]);
      OneMore(old(db.books.contents), db.writer, ops, m, replies, ops[i..]);
      replies := replies + [reply];
    }
    assert ops[|ops|..] == [] && replies + [] == replies;
  }

  /** From m, with the replies so far, the remaining operations complete the run of `ops` from m0. */
  ghost predicate Continues(m0: map<Bytes, Bytes>, writer: bool, ops: seq<Op>,
                            m: map<Bytes, Bytes>, replies: seq<Reply>, rest: seq<Op>) {
    PlainRun(m0, writer, ops).0 == PlainRun(m, writer, rest).0
    && PlainRun(m0, writer, ops).1 == replies + PlainRun(m, writer, rest).1
  }

  lemma OneMore(m0: map<Bytes, Bytes>, writer: bool, ops: seq<Op>, m: map<Bytes, Bytes>, replies: seq<Reply>,
                rest: seq<Op>)
    requires rest != [] && Continues(m0, writer, ops, m, replies, rest)
    ensures var (m1, r) := Step(m, writer, rest[0]); Continues(m0, writer, ops, m1, replies + [r], rest[1..])
  {
    hide Step;
  }

  /** What happens between opening the database, as a writer or as a reader, and closing it. */
  datatype Session = Session(writer: bool, ops: seq<Op>)

  /** The sessions on the plain map: only a writer's stores and deletions have an effect. */
  function PlainSessions(m: map<Bytes, Bytes>, sessions: seq<Session>): (map<Bytes, Bytes>, seq<Reply>)
    decreases |sessions|
  {
    if sessions == [] then (m, [])
    else
      var (m1, rs1) := PlainRun(m, sessions[0].writer, sessions[0].ops);
      var (m2, rs2) := PlainSessions(m1, sessions[1..]);
      (m2, rs1 + rs2)
  }

  /** Every operation of every session fits when its turn comes. */
  ghost predicate AllRoomy(m: map<Bytes, Bytes>, sessions: seq<Session>, n: nat)
    decreases |sessions|
  {
    sessions == [] ||
    var (w, ops) := (sessions[0].writer, sessions[0].ops);
    Roomy(m, w, ops, n) && AllRoomy(PlainRun(m, w, ops).0, sessions[1..], n)
  }

  /** A database that is used, closed and opened again any number of times keeps its contents. */
  method RunSessions(f: File, sessions: seq<Session>, ghost h: Header, ghost d: seq<nat>, ghost b: Books)
    returns (g: File, replies: seq<Reply>, ghost h': Header, ghost d': seq<nat>, ghost b': Books)
    requires AllRoomy(b.contents, sessions, h.bucketElems)
    requires OnDisk(f, h, d, b)
    ensures replies == PlainSessions(b.contents, sessions).1
    ensures b'.contents == PlainSessions(b.contents, sessions).0
    ensures OnDisk(g, h', d', b')
  {
    hide AllRoomy, Roomy, PlainRun, Resumes, Gdbm.Valid, OnDisk;
    NothingDone(b.contents, sessions);
    g, replies := f, [];
    h', d', b' := h, d, b;
    for i := 0 to |sessions|
      invariant AllRoomy(b'.contents, sessions[i..], h'.bucketElems)
      invariant Resumes(b.contents, sessions, b'.contents, replies, sessions[i..])
      invariant OnDisk(g, h', d', b')
    {
      assert sessions[i..][1..] == sessions[i + 1..] && sessions[i..][0] == sessions[i];
      SessionDone(b.contents, sessions, b'.contents, replies, sessions[i..], h'.bucketElems);
      var db := OpenOld(g, sessions[i].writer, h', d', b');
      var rs := Run(db, sessions[i].ops);
      replies := replies + rs;
      db.ValidOnDisk();
      g := db.file;
      h', d', b' := db.hdr, db.dir, db.books;
    }
    AllDone(b.contents, sessions, b'.contents, replies);
  }

  /** From m, with the replies so far, the remaining sessions complete those from m0. */
  ghost predicate Resumes(m0: map<Bytes, Bytes>, sessions: seq<Session>,
                          m: map<Bytes, Bytes>, replies: seq<Reply>, rest: seq<Session>) {
    PlainSessions(m0, sessions).0 == PlainSessions(m, rest).0
    && PlainSessions(m0, sessions).1 == replies + PlainSessions(m, rest).1
  }

  lemma NothingDone(m0: map<Bytes, Bytes>, sessions: seq<Session>)
    ensures Resumes(m0, sessions, m0, [], sessions[0..])
  {
    assert sessions[0..] == sessions;
  }

  lemma SessionDone(m0: map<Bytes, Bytes>, sessions: seq<Session>, m: map<Bytes, Bytes>, replies: seq<Reply>,
                    rest: seq<Session>, n: nat)
    requires rest != [] && Resumes(m0, sessions, m, replies, rest) && AllRoomy(m, rest, n)
    ensures var (m1, rs) := PlainRun(m, rest[0].writer, rest[0].ops);
            Resumes(m0, sessions, m1, replies + rs, rest[1..]) && AllRoomy(m1, rest[1..], n)
    ensures Roomy(m, rest[0].writer, rest[0].ops, n)
  {
    hide PlainRun, Roomy;
    var (m1, rs) := PlainRun(m, rest[0].writer, rest[0].ops);
    var more := PlainSessions(m1, rest[1..]).1;
    assert replies + (rs + more) == (replies + rs) + more;
  }

  lemma AllDone(m0: map<Bytes, Bytes>, sessions: seq<Session>, m: map<Bytes, Bytes>, replies: seq<Reply>)
    requires Resumes(m0, sessions, m, replies, sessions[|sessions|..])
    ensures PlainSessions(m0, sessions) == (m, replies)
  {
    assert sessions[|sessions|..] == [] && replies + [] == replies;
  }

  /** From an empty file: a database of its own, and then any sessions as on the empty map. */
  method FromScratch(blockSize: nat, statBlockSize: nat, sessions: seq<Session>)
    returns (ok: bool, f: File, replies: seq<Reply>, ghost h: Header, ghost d: seq<nat>, ghost b: Books)
    requires 512 <= statBlockSize < HASH_LIMIT && blockSize < HASH_LIMIT
    requires AllRoomy(map[], sessions, BucketElems(FileBlockSize(blockSize, statBlockSize)))
    ensures var size := FileBlockSize(blockSize, statBlockSize); ok <==> exists bits :: GoodBlockSize(size, bits)
    ensures var size := if blockSize >= 512 then blockSize else statBlockSize;
            ok <==> exists k :: 3 <= k <= 31 && size == 8 * Pow2(k)
    ensures ok ==> replies == PlainSessions(map[], sessions).1
    ensures ok ==> OnDisk(f, h, d, b) && b.contents == PlainSessions(map[], sessions).0
  {
    hide AllRoomy, PlainSessions, Gdbm.Valid, OnDisk, BucketElems, GoodBlockSize;
    var db := OpenNew(blockSize, statBlockSize);
    ok, f, replies := db != null, [], [];
    h, d, b := *, *, *;
    if db != null {
      db.ValidOnDisk();
      f, replies, h, d, b := RunSessions(db.file, sessions, db.hdr, db.dir, db.books);
    }
  }

  /** The operations of all sessions in order. */
  function Flat(sessions: seq<Session>): seq<Op> {
    if sessions == [] then [] else sessions[0].ops + Flat(sessions[1..])
  }

  /** Where a writer closes and opens the database again makes no difference. */
  lemma {:induction false} WritersFlat(m: map<Bytes, Bytes>, sessions: seq<Session>, n: nat)
    requires forall i :: 0 <= i < |sessions| ==> sessions[i].writer
    ensures PlainSessions(m, sessions) == PlainRun(m, true, Flat(sessions))
    ensures AllRoomy(m, sessions, n) <==> Roomy(m, true, Flat(sessions), n)
    decreases |sessions|
  {
    if sessions != [] {
      hide PlainRun, Roomy;
      var ops := sessions[0].ops;
      PlainRunSplit(m, true, ops, Flat(sessions[1..]), n);
      WritersFlat(PlainRun(m, true, ops).0, sessions[1..], n);
    }
  }

  /** A reader's session changes nothing. */
  lemma {:induction false} ReaderKeeps(m: map<Bytes, Bytes>, ops: seq<Op>)
    ensures PlainRun(m, false, ops).0 == m
    decreases |ops|
  {
    if ops != [] {
      ReaderKeeps(m, ops[1..]);
    }
  }

  /** A run can be cut anywhere. */
  lemma {:induction false} PlainRunSplit(m: map<Bytes, Bytes>, writer: bool, ops: seq<Op>, more: seq<Op>, n: nat)
    ensures var (m1, rs1) := PlainRun(m, writer, ops);
            var (m2, rs2) := PlainRun(m1, writer, more);
            PlainRun(m, writer, ops + more) == (m2, rs1 + rs2)
    ensures Roomy(m, writer, ops + more, n)
            <==> Roomy(m, writer, ops, n) && Roomy(PlainRun(m, writer, ops).0, writer, more, n)
    decreases |ops|
  {
    hide Fits;
    if ops == [] {
      assert ops + more == more;
      assert [] + PlainRun(m, writer, more).1 == PlainRun(m, writer, more).1;
    } else {
      assert (ops + more)[1..] == ops[1..] + more;
      hide Step;
      var (m1, r) := Step(m, writer, ops[0]);
      PlainRunSplit(m1, writer, ops[1..], more, n);
      var rs1 := PlainRun(m1, writer, ops[1..]).1;
      var rs2 := PlainRun(PlainRun(m1, writer, ops[1..]).0, writer, more).1;
      assert [r] + (rs1 + rs2) == ([r] + rs1) + rs2;
    }
  }

  /** The keys listed are exactly those of `all` that are not ahead, each once. */
  ghost predicate Visited(keys: seq<Bytes>, all: set<Bytes>, ahead: set<Bytes>) {
    && ahead <= all && (set k | k in keys) == all - ahead
    && forall i, j :: 0 <= i < j < |keys| ==> keys[i] != keys[j]
  }

  lemma VisitOne(keys: seq<Bytes>, all: set<Bytes>, ahead: set<Bytes>, key: Bytes)
    requires Visited(keys, all, ahead) && key in ahead
    ensures Visited(keys + [key], all, ahead - {key})
  {
    assert key !in (set k | k in keys);
    assert (set k | k in keys + [key]) == (set k | k in keys) + {key};
  }

  /** All keys, each once, by `gdbm_firstkey` and `gdbm_nextkey`. */
  method AllKeys(db: Gdbm) returns (keys: seq<Bytes>)
    requires db.Valid()
    modifies db
    ensures db.file == old(db.file) && db.books == old(db.books)
    ensures Visited(keys, db.books.contents.Keys, {})
    ensures db.Valid()
  {
    hide Gdbm.Valid, RemainingAfter, Visited;
    keys := [];
    ghost var all := db.books.contents.Keys;
    ghost var ahead := all;
    NoneVisited(all);
    var key := db.FirstKey();
    while key.Some?
      invariant db.file == old(db.file) && db.books == old(db.books) && db.dir == old(db.dir) && db.hdr == old(db.hdr)
      invariant db.NextOf(key, ahead) && Visited(keys, all, ahead)
      invariant db.Valid()
      decreases |ahead|
    {
      VisitOne(keys, all, ahead, key.value);
      keys := keys + [key.value];
      ahead := ahead - {key.value};
      key := db.NextKey(key);
    }
  }

  lemma NoneVisited(all: set<Bytes>)
    ensures Visited([], all, all)
  {
  }

  /** The copy loop of `gdbm_reorganize`: every pair of `db` is inserted into a fresh database. */
  method CopyInto(db: Gdbm, other: Gdbm) returns (rc: int)
    requires db != other && other.writer && other.books.contents == map[] && db.hdr.bucketElems <= other.hdr.bucketElems
    requires db.Valid() && other.Valid()
    modifies db, other
    ensures rc == 0 && other.books.contents == db.books.contents == old(db.books.contents)
    ensures db.Valid() && other.Valid()
  {
    hide Gdbm.Valid, Peers, HasRoom, RemainingAfter;
    ghost var all := db.books.contents;
    ghost var ahead := all.Keys;
    var key := db.FirstKey();
    while key.Some?
      invariant db.books == old(db.books) && db.hdr == old(db.hdr) && db.NextOf(key, ahead) && ahead <= all.Keys
      invariant other.books.contents == all - ahead && other.hdr.bucketElems == old(other.hdr.bucketElems)
      invariant db.Valid() && other.Valid()
      decreases |ahead|
    {
      var data := db.Fetch(key.value);
      if data.None? {
        return -1;
      }
      db.PeersFit(key.value);
      FewerPeers(all, ahead, key.value, other.hdr.bucketElems);
      var r := other.Store(key, data, false);
      if r != 0 {
        return -1;
      }
      assert all[key.value] == data.value && (all - ahead)[key.value := data.value] == all - (ahead - {key.value});
      ahead := ahead - {key.value};
      key := db.NextKey(key);
    }
    assert all - {} == all;
    return 0;
  }

  lemma FewerPeers(all: map<Bytes, Bytes>, ahead: set<Bytes>, k: Bytes, n: nat)
    requires k in all && k in ahead && |Peers(all, k)| <= n
    ensures HasRoom(all - ahead, k, n)
  {
    hide Hash;
    var few := Peers(all - ahead, k);
    assert k in Peers(all, k) && k !in few;
    SubsetSize(few + {k}, Peers(all, k));
  }
}
