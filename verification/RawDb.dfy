/**
 The key-value database as the chain code sees it: one map for each kind of key, and
 batches that only take effect when written.  Reads always go to the database, never
 to a batch that is still pending.
 */
module RawDb {
  import opened BlockTree
  import opened Wrappers

  datatype Db = Db(
    headers: Store,              // hash -> header (with hash -> number)
    tds: map<Hash, nat>,         // hash -> total difficulty
    canon: Canon,                // number -> canonical hash
    headHeader: Hash,            // head header marker
    bodies: map<Hash, seq<Hash>>, // hash -> transaction hashes of the block body
    lookup: map<Hash, nat>,      // transaction hash -> number of the block holding it
    headFast: Hash,              // head fast block marker
    headBlock: Hash              // head block marker
  )

  datatype Op =
    | PutHeader(header: Header)
    | DelHeader(hash: Hash)
    | PutTd(hash: Hash, td: nat)
    | DelTd(hash: Hash)
    | PutCanon(number: nat, hash: Hash)
    | DelCanon(number: nat)
    | PutHeadHeader(hash: Hash)
    | PutBody(hash: Hash, txs: seq<Hash>)
    | PutLookup(tx: Hash, number: nat)
    | DelLookup(tx: Hash)
    | PutHeadFast(hash: Hash)
    | PutHeadBlock(hash: Hash)

  type Batch = seq<Op>

  function Apply(db: Db, op: Op): Db {
    match op
    case PutHeader(hdr) => db.(headers := db.headers[hdr.hash := hdr])
    case DelHeader(h) => db.(headers := db.headers - {h})
    case PutTd(h, td) => db.(tds := db.tds[h := td])
    case DelTd(h) => db.(tds := db.tds - {h})
    case PutCanon(n, h) => db.(canon := db.canon[n := h])
    case DelCanon(n) => db.(canon := db.canon - {n})
    case PutHeadHeader(h) => db.(headHeader := h)
    case PutBody(h, txs) => db.(bodies := db.bodies[h := txs])
    case PutLookup(t, n) => db.(lookup := db.lookup[t := n])
    case DelLookup(t) => db.(lookup := db.lookup - {t})
    case PutHeadFast(h) => db.(headFast := h)
    case PutHeadBlock(h) => db.(headBlock := h)
  }

  /** The database after every operation of the batch, first to last. */
  function Write(db: Db, batch: Batch): Db {
    if batch == [] then db else Apply(Write(db, batch[..|batch| - 1]), batch[|batch| - 1])
  }

  /** Queueing one more operation. */
  lemma WriteAppend(db: Db, batch: Batch, op: Op)
    ensures Write(db, batch + [op]) == Apply(Write(db, batch), op)
  {
    assert (batch + [op])[..|batch + [op]| - 1] == batch;
  }

  lemma WritePutCanon(db: Db, batch: Batch, number: nat, hash: Hash)
    ensures Write(db, batch + [PutCanon(number, hash)]) ==
            Write(db, batch).(canon := Write(db, batch).canon[number := hash])
  {
    WriteAppend(db, batch, PutCanon(number, hash));
  }

  lemma WritePutHeadHeader(db: Db, batch: Batch, hash: Hash)
    ensures Write(db, batch + [PutHeadHeader(hash)]) == Write(db, batch).(headHeader := hash)
  {
    WriteAppend(db, batch, PutHeadHeader(hash));
  }

  ghost function WithStore(db: Db, s: Store, tds: map<Hash, nat>): Db {
    db.(headers := s, tds := tds)
  }

  ghost function WithHead(db: Db, head: Hash): Db {
    db.(headHeader := head)
  }

  ghost function WithCanon(db: Db, c: Canon): Db {
    db.(canon := c)
  }

  ghost function WithChain(db: Db, c: Canon, head: Hash): Db {
    db.(canon := c, headHeader := head)
  }

  /** Making a header canonical and moving the head marker to it. */
  lemma QueueCanonical(db: Db, batch: Batch, c: Canon, marker: Hash, number: nat, hash: Hash)
    requires Write(db, batch) == WithChain(db, c, marker)
    ensures Write(db, batch + [PutCanon(number, hash)] + [PutHeadHeader(hash)]) ==
            WithChain(db, c[number := hash], hash)
  {
    WritePutCanon(db, batch, number, hash);
    WritePutHeadHeader(db, batch + [PutCanon(number, hash)], hash);
  }

  lemma {:induction false} WriteConcat(db: Db, first: Batch, second: Batch)
    ensures Write(db, first + second) == Write(Write(db, first), second)
    decreases |second|
  {
    if second == [] {
      assert first + second == first;
    } else {
      var init, op := second[..|second| - 1], second[|second| - 1];
      assert second == init + [op];
      assert first + second == (first + init) + [op];
      WriteAppend(db, first + init, op);
      WriteConcat(db, first, init);
    }
  }

  function ReadTd(db: Db, hash: Hash, number: int): (td: Option<nat>)
    ensures td.Some? ==> hash in db.headers && db.headers[hash].number == number
  {
    if hash in db.tds && hash in db.headers && db.headers[hash].number == number then Some(db.tds[hash]) else None
  }

  /** The canonical entries below `from`. */
  ghost function CanonBelow(c: Canon, from: nat): Canon {
    c - (set n | n in c && n >= from)
  }

  /** Entries run from 0 to `top` without a gap. */
  ghost predicate CanonUpTo(c: Canon, top: nat) {
    forall n :: (n in c <==> 0 <= n <= top) && (n in c ==> c[n] != ZERO_HASH)
  }

  lemma StaleDeleted(c: Canon, number: nat, top: nat)
    requires CanonUpTo(c, top) && number <= top
    ensures CanonUpTo(CanonBelow(c, number + 1), number)
  {
  }

  /** The deletion of all canonical entries from a number upwards, stopping at the first gap. */
  method QueueDeleteCanonFrom(db: Db, from: nat, prefix: Batch, ghost top: nat) returns (batch: Batch)
    requires CanonUpTo(db.canon, top) && Write(db, prefix).canon == db.canon
    ensures Write(db, batch) == WithCanon(Write(db, prefix), CanonBelow(db.canon, from))
  {
    batch := prefix;
    var i := from;
    ghost var c := db.canon;
    while CanonicalHash(db.canon, i) != ZERO_HASH
      invariant from <= i
      invariant Write(db, batch) == WithCanon(Write(db, prefix), c)
      invariant forall n :: n in c <==> n in db.canon && (n < from || n >= i)
      invariant forall n :: n in c ==> c[n] == db.canon[n]
      decreases top + 1 - i
    {
      WriteAppend(db, batch, DelCanon(i));
      batch := batch + [DelCanon(i)];
      c := c - {i};
      i := i + 1;
    }
    assert c == CanonBelow(db.canon, from);
  }

  /** A batch of the deletions a rewind makes. */
  ghost predicate OnlyDeletes(batch: Batch) {
    forall op :: op in batch ==> op.DelHeader? || op.DelTd? || op.DelCanon?
  }

  ghost function DeletedHeaders(batch: Batch): set<Hash> {
    set op | op in batch && op.DelHeader? :: op.hash
  }

  ghost function DeletedTds(batch: Batch): set<Hash> {
    set op | op in batch && op.DelTd? :: op.hash
  }

  ghost function DeletedCanon(batch: Batch): set<nat> {
    set op | op in batch && op.DelCanon? :: op.number
  }

  ghost function WithDeleted(db: Db, hs: set<Hash>, ts: set<Hash>, ns: set<nat>): Db {
    db.(headers := db.headers - hs, tds := db.tds - ts, canon := db.canon - ns)
  }

  /** For a batch of deletions the order does not matter. */
  lemma {:induction false} WriteDeletes(db: Db, batch: Batch)
    requires OnlyDeletes(batch)
    ensures Write(db, batch) == WithDeleted(db, DeletedHeaders(batch), DeletedTds(batch), DeletedCanon(batch))
    decreases |batch|
  {
    if batch == [] {
      assert db.headers - {} == db.headers && db.tds - {} == db.tds && db.canon - {} == db.canon;
    } else {
      var init, op := batch[..|batch| - 1], batch[|batch| - 1];
      assert batch == init + [op];
      WriteDeletes(db, init);
      assert op in batch;
      if op.DelHeader? {
        assert DeletedHeaders(batch) == DeletedHeaders(init) + {op.hash};
        assert DeletedTds(batch) == DeletedTds(init) && DeletedCanon(batch) == DeletedCanon(init);
        assert db.headers - DeletedHeaders(init) - {op.hash} == db.headers - DeletedHeaders(batch);
      } else if op.DelTd? {
        assert DeletedTds(batch) == DeletedTds(init) + {op.hash};
        assert DeletedHeaders(batch) == DeletedHeaders(init) && DeletedCanon(batch) == DeletedCanon(init);
        assert db.tds - DeletedTds(init) - {op.hash} == db.tds - DeletedTds(batch);
      } else {
        assert DeletedCanon(batch) == DeletedCanon(init) + {op.number};
        assert DeletedTds(batch) == DeletedTds(init) && DeletedHeaders(batch) == DeletedHeaders(init);
        assert db.canon - DeletedCanon(init) - {op.number} == db.canon - DeletedCanon(batch);
      }
    }
  }

  /** The hashes of all stored headers of one height, canonical or not. */
  function ReadAllHashes(db: Db, number: nat): set<Hash> {
    set h | h in db.headers && db.headers[h].number == number
  }
}
