/**
 What the header chain's batches and walks amount to: attaching a validated run of headers,
 leaving one path for another, cutting everything at a height, and what a whole run of
 imports keeps.
 */
module HeaderProofs {
  import opened BlockTree
  import opened RawDb
  import opened Wrappers
  import opened ForkChoice

  /** The total difficulties a complete store of headers determines. */
  ghost function TdMap(s: Store, g: Hash): map<Hash, nat>
    requires Tree(s, g)
  {
    map h | h in s :: PathDifficulty(s, g, h)
  }

  /** Item `i` is the child of the item before it. */
  ghost predicate Follows(hs: seq<Header>, i: nat)
    requires 0 < i < |hs|
  {
    hs[i].parentHash == hs[i - 1].hash && hs[i].number == hs[i - 1].number + 1
  }

  /** Consecutive headers are parent and child (checked before any import), and no hash occurs twice. */
  ghost predicate Contiguous(hs: seq<Header>) {
    && (forall i, j :: 0 <= i < j < |hs| ==> hs[i].hash != hs[j].hash)
    && (forall i {:trigger Follows(hs, i)} :: 0 < i < |hs| ==> Follows(hs, i))
  }

  /** The headers of an import, keyed by hash. */
  ghost function HeaderMap(hs: seq<Header>): Store
    requires Contiguous(hs)
  {
    map i | 0 <= i < |hs| :: hs[i].hash := hs[i]
  }

  /** A validated import: contiguous, free of hash collisions, one above its parent if that is stored. */
  ghost predicate ValidImport(s: Store, hs: seq<Header>) {
    && Contiguous(hs)
    && (forall i :: 0 <= i < |hs| ==> hs[i].hash != ZERO_HASH && (hs[i].hash in s ==> s[hs[i].hash] == hs[i]))
    && (hs != [] && hs[0].parentHash in s ==> hs[0].number == s[hs[0].parentHash].number + 1)
  }

  ghost predicate Stored(s: Store, hs: seq<Header>) {
    forall i :: 0 <= i < |hs| ==> hs[i].hash in s && s[hs[i].hash] == hs[i]
  }

  /** What attaching one header does to tree and difficulties. */
  lemma AttachDifficulty(s: Store, g: Hash, hdr: Header)
    requires Tree(s, g) && Attachable(s, hdr)
    ensures var t := s[hdr.hash := hdr];
      && Tree(t, g)
      && TdMap(t, g) == TdMap(s, g)[hdr.hash := PathDifficulty(s, g, hdr.parentHash) + hdr.difficulty]
  {
    var t := s[hdr.hash := hdr];
    AttachKeepsTree(s, g, hdr, 0);
    forall h | h in s
      ensures PathDifficulty(t, g, h) == PathDifficulty(s, g, h)
    {
      AttachKeepsTree(s, g, hdr, s[h].number);
      DifficultyKept(s, t, g, h, s[h].number);
    }
  }

  /** `s` is `s0` with the first `i` headers of an import attached. */
  ghost predicate ImportedUpTo(s0: Store, s: Store, hs: seq<Header>, i: nat)
    requires i <= |hs|
  {
    && (forall h :: h in s0 ==> h in s && s[h] == s0[h])
    && (forall j :: 0 <= j < i ==> hs[j].hash in s && s[hs[j].hash] == hs[j])
    && (forall h :: h in s && h !in s0 ==> exists j :: 0 <= j < i && hs[j].hash == h)
  }

  /** The next header can be attached, and if its predecessor was new then so is it. */
  lemma NextAttachable(s0: Store, s: Store, g: Hash, hs: seq<Header>, i: nat)
    requires Tree(s0, g) && ValidImport(s0, hs) && i < |hs|
    requires hs[0].parentHash in s0 && ImportedUpTo(s0, s, hs, i)
    ensures Attachable(s, hs[i])
    ensures hs[i].hash in s0 && i > 0 ==> hs[i - 1].hash in s0
  {
    var hdr := hs[i];
    if i > 0 {
      assert Follows(hs, i);
      if hdr.hash in s0 {
        assert Linked(s0, g, hdr.hash);
      }
    }
  }

  lemma NextImported(s0: Store, s: Store, hs: seq<Header>, i: nat)
    requires ValidImport(s0, hs) && i < |hs| && ImportedUpTo(s0, s, hs, i)
    ensures ImportedUpTo(s0, s[hs[i].hash := hs[i]], hs, i + 1)
  {
    var t := s[hs[i].hash := hs[i]];
    forall h | h in t && h !in s0
      ensures exists j :: 0 <= j < i + 1 && hs[j].hash == h
    {
      if h == hs[i].hash {
      } else {
        var j :| 0 <= j < i && hs[j].hash == h;
        assert hs[j].hash == h;
      }
    }
  }

  /** The batch queued so far turns the headers into `s` and the difficulties into its path sums. */
  ghost predicate QueuedStore(db: Db, batch: Batch, s: Store, g: Hash) {
    Tree(s, g) && Write(db, batch) == WithStore(db, s, TdMap(s, g))
  }

  lemma QueueHeader(db: Db, batch: Batch, s: Store, g: Hash, hdr: Header, td: nat)
    requires QueuedStore(db, batch, s, g) && Attachable(s, hdr)
    requires td == PathDifficulty(s, g, hdr.parentHash) + hdr.difficulty
    ensures QueuedStore(db, batch + [PutTd(hdr.hash, td)] + [PutHeader(hdr)], s[hdr.hash := hdr], g)
  {
    hide Write;
    AttachDifficulty(s, g, hdr);
    WriteAppend(db, batch, PutTd(hdr.hash, td));
    WriteAppend(db, batch + [PutTd(hdr.hash, td)], PutHeader(hdr));
  }

  /** What `WriteHeaders` knows after `i` headers, `count` of which it has queued. */
  ghost predicate ImportLoop(db: Db, hs: seq<Header>, i: nat, s: Store, g: Hash, batch: Batch,
                             newTD: nat, parentKnown: bool, count: nat)
    requires 0 < |hs| && i <= |hs|
  {
    && ImportedUpTo(db.headers, s, hs, i)
    && QueuedStore(db, batch, s, g)
    && (var parent := if i == 0 then hs[0].parentHash else hs[i - 1].hash;
        parent in s && newTD == PathDifficulty(s, g, parent))
    && (parentKnown <==> i == 0 || hs[i - 1].hash in db.headers)
    && count <= i
    && (parentKnown ==> count == 0)
    && forall j :: 0 <= j < i ==> (hs[j].hash in db.headers <==> j < i - count)
  }

  lemma ImportLoopStart(db: Db, hs: seq<Header>, g: Hash, ptd: nat)
    requires Tree(db.headers, g) && db.tds == TdMap(db.headers, g)
    requires 0 < |hs| && hs[0].parentHash in db.headers
    requires ptd == PathDifficulty(db.headers, g, hs[0].parentHash)
    ensures ImportLoop(db, hs, 0, db.headers, g, [], ptd, true, 0)
  {
    assert WithStore(db, db.headers, db.tds) == db;
  }

  lemma KnownStays(s0: Store, s: Store, hs: seq<Header>, i: nat)
    requires ValidImport(s0, hs) && i < |hs| && ImportedUpTo(s0, s, hs, i)
    ensures hs[i].hash in s0 ==> s[hs[i].hash := hs[i]] == s
  {
  }

  /** What attaching the next header gives, whether it was known or not. */
  lemma NextHeader(db: Db, hs: seq<Header>, i: nat, s: Store, g: Hash, batch: Batch,
                   newTD: nat, parentKnown: bool, count: nat)
    requires Tree(db.headers, g) && ValidImport(db.headers, hs) && i < |hs|
    requires hs[0].parentHash in db.headers
    requires ImportLoop(db, hs, i, s, g, batch, newTD, parentKnown, count)
    ensures var t := s[hs[i].hash := hs[i]];
      && Attachable(s, hs[i]) && ImportedUpTo(db.headers, t, hs, i + 1)
      && Tree(t, g) && PathDifficulty(t, g, hs[i].hash) == newTD + hs[i].difficulty
      && newTD == PathDifficulty(s, g, hs[i].parentHash)
    ensures hs[i].hash in db.headers ==> parentKnown && s[hs[i].hash := hs[i]] == s
  {
    var t := s[hs[i].hash := hs[i]];
    hide Tree, ValidImport, ImportedUpTo, PathDifficulty, Write, Attachable, Contiguous;
    ImportIsContiguous(db.headers, hs);
    KnownStays(db.headers, s, hs, i);
    NextAttachable(db.headers, s, g, hs, i);
    NextImported(db.headers, s, hs, i);
    AttachDifficulty(s, g, hs[i]);
    assert TdMap(t, g)[hs[i].hash] == PathDifficulty(t, g, hs[i].hash);
    if i > 0 {
      FollowsPrevious(hs, i);
    }
  }

  lemma FollowsPrevious(hs: seq<Header>, i: nat)
    requires Contiguous(hs) && 0 < i < |hs|
    ensures hs[i].parentHash == hs[i - 1].hash
  {
    assert Follows(hs, i);
  }

  lemma ImportLoopStep(db: Db, hs: seq<Header>, i: nat, s: Store, g: Hash, batch: Batch,
                       newTD: nat, parentKnown: bool, count: nat)
    requires Tree(db.headers, g) && ValidImport(db.headers, hs) && i < |hs|
    requires hs[0].parentHash in db.headers
    requires ImportLoop(db, hs, i, s, g, batch, newTD, parentKnown, count)
    ensures var t, td := s[hs[i].hash := hs[i]], newTD + hs[i].difficulty;
      if parentKnown && hs[i].hash in db.headers
      then ImportLoop(db, hs, i + 1, t, g, batch, td, true, count)
      else ImportLoop(db, hs, i + 1, t, g, batch + [PutTd(hs[i].hash, td)] + [PutHeader(hs[i])], td, false, count + 1)
  {
    hide Tree, ValidImport, ImportedUpTo, PathDifficulty, Write, QueuedStore, Attachable;
    NextHeader(db, hs, i, s, g, batch, newTD, parentKnown, count);
    if hs[i].hash !in db.headers {
      QueueHeader(db, batch, s, g, hs[i], newTD + hs[i].difficulty);
    }
  }

  lemma ImportLoopDone(db: Db, hs: seq<Header>, s: Store, g: Hash, batch: Batch,
                       newTD: nat, parentKnown: bool, count: nat, head: Hash)
    requires Tree(db.headers, g) && 0 < |hs| && ValidImport(db.headers, hs)
    requires ImportLoop(db, hs, |hs|, s, g, batch, newTD, parentKnown, count)
    requires head in db.headers
    ensures s == db.headers + HeaderMap(hs) && Stored(s, hs) && Tree(s, g)
    ensures Write(db, batch) == WithStore(db, s, TdMap(s, g))
    ensures count <= |hs|
    ensures forall i :: 0 <= i < |hs| ==> (hs[i].hash in db.headers <==> i < |hs| - count)
    ensures forall h :: h in db.headers ==> h in s && s[h] == db.headers[h]
    ensures PathTo(s, g, head) == PathTo(db.headers, g, head)
  {
    PathKept(db.headers, s, g, head, db.headers[head].number);
  }

  /** The source spares hashing: the hash of an item is the parent hash of the next. */
  lemma HashFromNext(s: Store, hs: seq<Header>, i: nat)
    requires ValidImport(s, hs) && i < |hs|
    ensures i < |hs| - 1 ==> hs[i + 1].parentHash == hs[i].hash
    ensures hs[i].hash in s ==> s[hs[i].hash] == hs[i]
  {
    assert i < |hs| - 1 ==> Follows(hs, i + 1);
  }

  /** A stored contiguous run of headers is the top of the path to its last header. */
  lemma {:induction false} RunIsPath(s: Store, g: Hash, hs: seq<Header>, k: nat)
    requires Tree(s, g) && Contiguous(hs) && Stored(s, hs) && k < |hs|
    ensures s[hs[|hs| - 1].hash].number == hs[k].number + |hs| - 1 - k
    ensures AncestorAt(s, g, hs[|hs| - 1].hash, hs[k].number) == hs[k].hash
    decreases |hs| - k
  {
    if k < |hs| - 1 {
      RunIsPath(s, g, hs, k + 1);
      assert Follows(hs, k + 1);
      AncestorParent(s, g, hs[|hs| - 1].hash, hs[k + 1].number);
    }
  }

  /** `c` agrees with the path to `first` below it and reaches no higher than `limit`. */
  ghost predicate OnPathBelow(s: Store, g: Hash, c: Canon, first: Header, limit: nat)
    requires Tree(s, g) && first.hash in s && s[first.hash] == first
  {
    && (forall n :: 0 <= n < first.number ==> n in c && c[n] == AncestorAt(s, g, first.hash, n))
    && (forall n :: n in c ==> n <= limit)
  }

  /** `c` after the walk from `first` has been overwritten above height `n` and is still the old map up to it. */
  ghost predicate WalkedDown(s: Store, g: Hash, was: Canon, c: Canon, first: Header, limit: nat, n: nat)
    requires Tree(s, g) && first.hash in s && s[first.hash] == first
  {
    && n <= first.number <= limit
    && (forall k :: k in c ==> k <= limit)
    && (forall k :: n < k <= first.number ==> k in c && c[k] == AncestorAt(s, g, first.hash, k))
    && (forall k :: k in was && k <= n ==> k in c && c[k] == was[k])
  }

  lemma WalkStart(s: Store, g: Hash, was: Canon, first: Header, limit: nat)
    requires Tree(s, g) && first.hash in s && s[first.hash] == first && first.number <= limit
    ensures WalkedDown(s, g, was, CanonBelow(was, limit + 1), first, limit, first.number)
    ensures AncestorAt(s, g, first.hash, first.number) == first.hash
  {
  }

  lemma WalkStep(s: Store, g: Hash, was: Canon, c: Canon, first: Header, limit: nat, n: nat, hash: Hash)
    requires Tree(s, g) && first.hash in s && s[first.hash] == first && n > 0
    requires WalkedDown(s, g, was, c, first, limit, n) && hash == AncestorAt(s, g, first.hash, n)
    ensures WalkedDown(s, g, was, c[n := hash], first, limit, n - 1)
  {
  }

  /** Off the old path the walk can go on: there is a parent, it is stored, and it is next. */
  lemma WalkBack(db: Db, g: Hash, head: Hash, c: Canon, first: Header, limit: nat, n: nat, hash: Hash)
    requires Tree(db.headers, g) && first.hash in db.headers && db.headers[first.hash] == first
    requires head in db.headers && db.canon == PathTo(db.headers, g, head)
    requires WalkedDown(db.headers, g, db.canon, c, first, limit, n)
    requires hash == AncestorAt(db.headers, g, first.hash, n) && CanonicalHash(db.canon, n) != hash
    ensures n > 0 && db.headers[hash].number == n
    ensures db.headers[hash].parentHash == AncestorAt(db.headers, g, first.hash, n - 1)
    ensures WalkedDown(db.headers, g, db.canon, c[n := hash], first, limit, n - 1)
  {
    if n == 0 {
      RootIsCanonical(db.headers, g, head, first.hash);
    } else {
      AncestorParent(db.headers, g, first.hash, n);
      WalkStep(db.headers, g, db.canon, c, first, limit, n, hash);
    }
  }

  lemma OneMoreEntry(db: Db, batch: Batch, c: Canon, n: nat, hash: Hash)
    requires Write(db, batch) == WithCanon(db, c)
    ensures Write(db, batch + [PutCanon(n, hash)]) == WithCanon(db, c[n := hash])
  {
    WritePutCanon(db, batch, n, hash);
  }

  /** The loop of the walk: at `header`, which lies at height `n` of the path to `first`, with `c` queued. */
  ghost predicate Unwinding(db: Db, g: Hash, head: Hash, c: Canon, first: Header, limit: nat, n: nat, header: Header,
                            batch: Batch)
  {
    && Tree(db.headers, g) && head in db.headers && db.canon == PathTo(db.headers, g, head)
    && first.hash in db.headers && db.headers[first.hash] == first && n <= first.number
    && WalkedDown(db.headers, g, db.canon, c, first, limit, n)
    && header.hash in db.headers && header == db.headers[header.hash]
    && header.hash == AncestorAt(db.headers, g, first.hash, n)
    && Write(db, batch) == WithCanon(db, c)
  }

  /** One turn of it, off the old path. */
  lemma UnwindOne(db: Db, g: Hash, head: Hash, c: Canon, first: Header, limit: nat, n: nat, header: Header, batch: Batch)
    requires Unwinding(db, g, head, c, first, limit, n, header, batch)
    requires CanonicalHash(db.canon, n) != header.hash
    ensures n > 0 && header.number == n
    ensures var parent := GetHeader(db.headers, header.parentHash, header.number - 1);
      && parent.Some? && parent.value.hash == header.parentHash
      && Unwinding(db, g, head, c[n := header.hash], first, limit, n - 1, parent.value,
                   batch + [PutCanon(n, header.hash)])
  {
    WalkBack(db, g, head, c, first, limit, n, header.hash);
    OneMoreEntry(db, batch, c, n, header.hash);
    hide PathTo, Write, WithCanon, WalkedDown;
  }

  lemma UnwindEnds(db: Db, g: Hash, head: Hash, c: Canon, first: Header, limit: nat, n: nat, header: Header,
                   batch: Batch)
    requires Unwinding(db, g, head, c, first, limit, n, header, batch)
    requires CanonicalHash(db.canon, n) == header.hash
    ensures OnPathBelow(db.headers, g, c, first, limit) && Write(db, batch) == WithCanon(db, c)
  {
    CrossLink(db.headers, g, db.canon, head, c, first, limit, n);
  }

  /** Where the walk back from `first` meets the old path, everything below already agrees. */
  lemma CrossLink(s: Store, g: Hash, was: Canon, head: Hash, c: Canon, first: Header, limit: nat, cross: nat)
    requires Tree(s, g) && first.hash in s && s[first.hash] == first && head in s && was == PathTo(s, g, head)
    requires WalkedDown(s, g, was, c, first, limit, cross)
    requires cross in was && was[cross] == AncestorAt(s, g, first.hash, cross)
    ensures OnPathBelow(s, g, c, first, limit)
  {
    forall n | 0 <= n <= cross
      ensures n in c && c[n] == AncestorAt(s, g, first.hash, n)
    {
      AgreeBelow(s, g, head, first.hash, cross, n);
    }
  }

  lemma RootIsCanonical(s: Store, g: Hash, head: Hash, h: Hash)
    requires Tree(s, g) && head in s && h in s
    ensures 0 in PathTo(s, g, head) && PathTo(s, g, head)[0] == AncestorAt(s, g, h, 0)
  {
    AncestorRoot(s, g, head);
    AncestorRoot(s, g, h);
  }

  lemma CanonIsPath(s: Store, g: Hash, head: Hash)
    requires Tree(s, g) && head in s
    ensures CanonUpTo(PathTo(s, g, head), s[head].number)
  {
  }

  /** Extending the head needs no walk: the path to the head is the path below its child. */
  lemma ChildOfHead(s: Store, g: Hash, first: Header, limit: nat)
    requires Tree(s, g) && first.hash in s && s[first.hash] == first && first.number <= limit
    requires first.parentHash in s && first.hash != g
    ensures OnPathBelow(s, g, PathTo(s, g, first.parentHash), first, limit)
  {
    assert Linked(s, g, first.hash);
    forall n | 0 <= n < first.number
      ensures AncestorAt(s, g, first.parentHash, n) == AncestorAt(s, g, first.hash, n)
    {
      AncestorCompose(s, g, first.hash, first.number - 1, n);
    }
  }

  /** `d` is `c` with the first `k` headers of a run made canonical. */
  ghost predicate CanonExtended(c: Canon, hs: seq<Header>, k: nat, d: Canon)
    requires hs != [] && k <= |hs|
  {
    && (forall n :: n in d <==> n in c || hs[0].number <= n < hs[0].number + k)
    && (forall n :: n in d ==>
      d[n] == if hs[0].number <= n < hs[0].number + k then hs[n - hs[0].number].hash else c[n])
  }

  lemma CanonExtendedStep(c: Canon, hs: seq<Header>, k: nat, d: Canon)
    requires k < |hs| && CanonExtended(c, hs, k, d) && hs[k].number == hs[0].number + k
    ensures CanonExtended(c, hs, k + 1, d[hs[k].number := hs[k].hash])
  {
    var e, first := d[hs[k].number := hs[k].hash], hs[0].number;
    forall n | n in e
      ensures e[n] == if first <= n < first + k + 1 then hs[n - first].hash else c[n]
    {
      if n != hs[k].number {
        assert n in d;
      }
    }
  }

  /** Entries of the import written over a map that already agrees below it give the whole path. */
  lemma ExtendedIsPath(s: Store, g: Hash, hs: seq<Header>, c: Canon, d: Canon)
    requires Tree(s, g) && hs != [] && Contiguous(hs) && Stored(s, hs)
    requires OnPathBelow(s, g, c, hs[0], hs[|hs| - 1].number)
    requires CanonExtended(c, hs, |hs|, d)
    ensures d == PathTo(s, g, hs[|hs| - 1].hash)
  {
    var first, last := hs[0], hs[|hs| - 1];
    RunIsPath(s, g, hs, 0);
    forall n | 0 <= n <= last.number
      ensures n in d && d[n] == AncestorAt(s, g, last.hash, n)
    {
      if n < first.number {
        AgreeBelow(s, g, first.hash, last.hash, first.number, n);
      } else {
        RunIsPath(s, g, hs, n - first.number);
        RunNumbers(s, g, hs, n - first.number);
      }
    }
  }

  lemma RunNumbers(s: Store, g: Hash, hs: seq<Header>, k: nat)
    requires Tree(s, g) && Contiguous(hs) && Stored(s, hs) && k < |hs|
    ensures hs[k].number == hs[0].number + k
    ensures k < |hs| - 1 ==> hs[k + 1].parentHash == hs[k].hash
  {
    assert k < |hs| - 1 ==> Follows(hs, k + 1);
    RunIsPath(s, g, hs, 0);
    RunIsPath(s, g, hs, k);
  }

  ghost function HeadersFrom(s: Store, n: nat): set<Hash> {
    set h | h in s && s[h].number >= n
  }

  lemma OccupiedBelow(db: Db, g: Hash, k: nat, n: nat)
    requires Tree(db.headers, g) && n <= k
    ensures ReadAllHashes(db, k) != {} ==> ReadAllHashes(db, n) != {}
  {
    if ReadAllHashes(db, k) != {} {
      var h :| h in ReadAllHashes(db, k);
      assert AncestorAt(db.headers, g, h, n) in ReadAllHashes(db, n);
    }
  }

  /** `op` deletes something stored at height `n`. */
  ghost predicate DeletesAt(db: Db, op: Op, n: nat) {
    || ((op.DelHeader? || op.DelTd?) && op.hash in ReadAllHashes(db, n))
    || op == DelCanon(n)
  }

  /** The batch deletes exactly the headers above `n`, and the canonical entries from there to `top`. */
  ghost predicate Rewound(batch: Batch, s: Store, n: nat, top: nat) {
    && OnlyDeletes(batch)
    && (forall h :: DelHeader(h) in batch <==> h in s && s[h].number > n)
    && (forall h :: DelTd(h) in batch <==> h in s && s[h].number > n)
    && (forall k: nat :: DelCanon(k) in batch ==> k > n)
    && (forall k: nat :: n < k <= top ==> DelCanon(k) in batch)
  }

  /** One round of the rewind: the first takes every height from `num` up, the later ones just `num`. */
  lemma RewoundStep(db: Db, before: Batch, batch: Batch, nums: seq<nat>, num: nat, top: nat)
    requires num > 0 && num <= top && OnlyDeletes(batch)
    requires num in nums && forall n :: n in nums ==> n >= num
    requires if num == top
      then before == [] && forall n :: n > num ==> (n in nums <==> ReadAllHashes(db, n) != {})
      else nums == [num] && Rewound(before, db.headers, num, top)
    requires forall op :: op in batch <==> op in before || exists i :: 0 <= i < |nums| && DeletesAt(db, op, nums[i])
    ensures Rewound(batch, db.headers, num - 1, top)
  {
    var s := db.headers;
    forall op: Op | (op.DelHeader? || op.DelTd?) && op.hash in s && s[op.hash].number > num - 1
      ensures op in batch
    {
      var n := s[op.hash].number;
      assert op.hash in ReadAllHashes(db, n);
      if n in nums {
        var i :| 0 <= i < |nums| && nums[i] == n;
        assert DeletesAt(db, op, nums[i]);
      }
    }
    forall op: Op | (op.DelHeader? || op.DelTd?) && op in batch
      ensures op.hash in s && s[op.hash].number > num - 1
    {
      if op !in before {
        var i :| 0 <= i < |nums| && DeletesAt(db, op, nums[i]);
        assert nums[i] in nums;
      }
    }
    forall k: nat | DelCanon(k) in batch
      ensures k > num - 1
    {
      if DelCanon(k) !in before {
        var i :| 0 <= i < |nums| && DeletesAt(db, DelCanon(k), nums[i]);
        assert nums[i] in nums;
      }
    }
    var i :| 0 <= i < |nums| && nums[i] == num;
    assert DeletesAt(db, DelCanon(num), nums[i]);
  }

  /** The total difficulties of the headers that are left. */
  ghost function CutTds(tds: map<Hash, nat>, s: Store): map<Hash, nat> {
    tds - (tds.Keys - s.Keys)
  }

  /** The database with every map cut at height `n`. */
  ghost function CutDb(db: Db, n: nat): Db
    requires db.tds.Keys == db.headers.Keys
  {
    var t := CutAbove(db.headers, n);
    db.(headers := t, tds := CutTds(db.tds, t), canon := CanonBelow(db.canon, n + 1))
  }

  /** The queued deletions cut every map at the height of the new head. */
  lemma RewoundIsCut(db: Db, batch: Batch, n: nat, top: nat)
    requires Rewound(batch, db.headers, n, top)
    requires db.tds.Keys == db.headers.Keys && forall k :: k in db.canon <==> 0 <= k <= top
    ensures Write(db, batch) == CutDb(db, n)
  {
    DeletedSets(batch, db.headers, n, top);
    WriteDeletes(db, batch);
    CutMaps(db, DeletedHeaders(batch), DeletedTds(batch), DeletedCanon(batch), n, top);
  }

  /** A cut database is again one that its tree and its head determine. */
  lemma CutDbValid(db: Db, g: Hash, h0: Hash, head: Hash)
    requires Tree(db.headers, g) && h0 in db.headers && head in db.headers
    requires db.tds == TdMap(db.headers, g) && db.canon == PathTo(db.headers, g, h0)
    requires db.headers[head].number <= db.headers[h0].number
    requires head == AncestorAt(db.headers, g, h0, db.headers[head].number)
    ensures db.tds.Keys == db.headers.Keys
    ensures Tree(CutDb(db, db.headers[head].number).headers, g)
    ensures head in CutDb(db, db.headers[head].number).headers
    ensures CutDb(db, db.headers[head].number).headers[head] == db.headers[head]
    ensures CutDb(db, db.headers[head].number).headers[g] == db.headers[g]
    ensures CutDb(db, db.headers[head].number).tds == TdMap(CutDb(db, db.headers[head].number).headers, g)
    ensures CutDb(db, db.headers[head].number).canon == PathTo(CutDb(db, db.headers[head].number).headers, g, head)
  {
    CutDifficulty(db.headers, g, db.headers[head].number);
    CutPath(db.headers, g, h0, head);
  }

  /** Removing what lies above a height from each map is cutting the map there. */
  lemma CutMaps(db: Db, hs: set<Hash>, ts: set<Hash>, ns: set<nat>, n: nat, top: nat)
    requires forall h :: h in hs <==> h in db.headers && db.headers[h].number > n
    requires forall h :: h in ts <==> h in db.headers && db.headers[h].number > n
    requires forall k: nat :: k in ns ==> k > n
    requires forall k: nat :: n < k <= top ==> k in ns
    requires db.tds.Keys == db.headers.Keys && forall k :: k in db.canon <==> 0 <= k <= top
    ensures db.headers - hs == CutAbove(db.headers, n)
    ensures db.tds - ts == CutTds(db.tds, CutAbove(db.headers, n))
    ensures db.canon - ns == CanonBelow(db.canon, n + 1)
  {
  }

  lemma CutDifficulty(s: Store, g: Hash, n: nat)
    requires Tree(s, g)
    ensures Tree(CutAbove(s, n), g)
    ensures TdMap(CutAbove(s, n), g) == CutTds(TdMap(s, g), CutAbove(s, n))
    ensures TdMap(s, g).Keys == s.Keys
  {
    var t := CutAbove(s, n);
    CutKeepsTree(s, g, n);
    forall h | h in t
      ensures PathDifficulty(t, g, h) == PathDifficulty(s, g, h)
    {
      DifficultyKept(s, t, g, h, n);
    }
  }

  /** The path to an ancestor is the lower part of the path. */
  lemma CutPath(s: Store, g: Hash, h0: Hash, head: Hash)
    requires Tree(s, g) && h0 in s && head in s && s[head].number <= s[h0].number
    requires head == AncestorAt(s, g, h0, s[head].number)
    ensures var t := CutAbove(s, s[head].number);
      Tree(t, g) && head in t && t[head] == s[head] && PathTo(t, g, head) == CanonBelow(PathTo(s, g, h0), s[head].number + 1)
    ensures forall k :: k in PathTo(s, g, h0) <==> 0 <= k <= s[h0].number
  {
    var n := s[head].number;
    var t := CutAbove(s, n);
    CutKeepsTree(s, g, n);
    PathKept(s, t, g, head, n);
    forall k | 0 <= k <= n
      ensures AncestorAt(s, g, head, k) == AncestorAt(s, g, h0, k)
    {
      AncestorCompose(s, g, h0, n, k);
    }
  }

  lemma EarlierOnlyDeletes(batch: Batch, s: Store, n: nat, top: nat, first: bool)
    requires if first then batch == [] else Rewound(batch, s, n, top)
    ensures OnlyDeletes(batch)
  {
  }

  lemma DeletedSets(batch: Batch, s: Store, n: nat, top: nat)
    requires Rewound(batch, s, n, top)
    ensures forall h :: h in DeletedHeaders(batch) <==> h in s && s[h].number > n
    ensures forall h :: h in DeletedTds(batch) <==> h in s && s[h].number > n
    ensures forall k: nat :: k in DeletedCanon(batch) ==> k > n
    ensures forall k: nat :: n < k <= top ==> k in DeletedCanon(batch)
  {
    forall h | h in s && s[h].number > n
      ensures h in DeletedHeaders(batch) && h in DeletedTds(batch)
    {
      assert DelHeader(h) in batch && DelTd(h) in batch;
    }
    forall k: nat | n < k <= top
      ensures k in DeletedCanon(batch)
    {
      assert DelCanon(k) in batch;
    }
  }

  ghost predicate OnPath(s: Store, g: Hash, head: Hash, h: Hash)
    requires Tree(s, g) && head in s && h in s
  {
    s[h].number <= s[head].number && AncestorAt(s, g, head, s[h].number) == h
  }

  /** The number of parent steps from `h` to the path of `head`. */
  ghost function CanonDistance(s: Store, g: Hash, head: Hash, h: Hash): nat
    requires Tree(s, g) && head in s && h in s
    decreases s[h].number
  {
    assert Linked(s, g, h);
    if OnPath(s, g, head, h) then 0
    else if s[h].number == 0 then 0
    else 1 + CanonDistance(s, g, head, s[h].parentHash)
  }

  /** After as many parent steps, and not before, the walk from `h` is on the path of `head`. */
  lemma {:induction false} FirstOnPath(s: Store, g: Hash, head: Hash, h: Hash, k: nat)
    requires Tree(s, g) && head in s && h in s
    ensures CanonDistance(s, g, head, h) <= s[h].number
    ensures OnPath(s, g, head, AncestorAt(s, g, h, s[h].number - CanonDistance(s, g, head, h)))
    ensures k < CanonDistance(s, g, head, h) ==> !OnPath(s, g, head, AncestorAt(s, g, h, s[h].number - k))
    decreases s[h].number
  {
    hide OnPath;
    if !OnPath(s, g, head, h) {
      OffPath(s, g, head, h);
      assert Linked(s, g, h);
      FirstOnPath(s, g, head, s[h].parentHash, if k > 0 then k - 1 else 0);
    }
  }

  /** Off the path, a block has a parent, which is one step closer. */
  lemma OffPath(s: Store, g: Hash, head: Hash, h: Hash)
    requires Tree(s, g) && head in s && h in s && !OnPath(s, g, head, h)
    ensures s[h].number > 0 && s[h].parentHash in s
    ensures CanonDistance(s, g, head, h) == 1 + CanonDistance(s, g, head, s[h].parentHash)
  {
    assert Linked(s, g, h);
    AncestorRoot(s, g, head);
  }

  lemma AncestorUnfold(s: Store, g: Hash, h: Hash)
    requires Tree(s, g) && h in s && s[h].number > 0
    ensures AncestorAt(s, g, h, s[h].number - 1) == s[h].parentHash
  {
    AncestorParent(s, g, h, s[h].number);
  }

  /** The fork choice between two stored headers, by the difficulties of their paths. */
  ghost function Wanted(s: Store, g: Hash, current: Header, last: Header,
                        ttd: Option<nat>, preserve: Header -> bool, coin: bool): bool
    requires Tree(s, g) && current.hash in s && last.hash in s
  {
    ReorgNeeded(Candidate(Some(PathDifficulty(s, g, current.hash)), current.number, preserve(current)),
                Candidate(Some(PathDifficulty(s, g, last.hash)), last.number, preserve(last)), ttd, coin).value
  }

  /** The chain without its redundant parts. */
  datatype ChainState = ChainState(headers: Store, head: Hash)

  datatype Import = Import(headers: seq<Header>, coin: bool)

  ghost predicate StateValid(g: Hash, st: ChainState) {
    Tree(st.headers, g) && st.head in st.headers
  }

  ghost predicate Admissible(st: ChainState, imp: Import) {
    imp.headers != [] && ValidImport(st.headers, imp.headers)
  }

  lemma {:induction false} ImportKeepsTree(s: Store, g: Hash, hs: seq<Header>, i: nat)
    requires Tree(s, g) && hs != [] && ValidImport(s, hs) && hs[0].parentHash in s && i <= |hs|
    ensures exists t :: ImportedUpTo(s, t, hs, i) && Tree(t, g)
  {
    if i == 0 {
      assert ImportedUpTo(s, s, hs, 0);
    } else {
      ImportKeepsTree(s, g, hs, i - 1);
      var t :| ImportedUpTo(s, t, hs, i - 1) && Tree(t, g);
      hide Tree, ValidImport, ImportedUpTo;
      NextAttachable(s, t, g, hs, i - 1);
      NextImported(s, t, hs, i - 1);
      AttachKeepsTree(t, g, hs[i - 1], 0);
    }
  }

  lemma ImportedIsUnion(s: Store, g: Hash, hs: seq<Header>)
    requires Tree(s, g) && hs != [] && ValidImport(s, hs) && hs[0].parentHash in s
    ensures Tree(s + HeaderMap(hs), g) && Stored(s + HeaderMap(hs), hs)
    ensures forall h :: h in s ==> (s + HeaderMap(hs))[h] == s[h]
  {
    ImportKeepsTree(s, g, hs, |hs|);
    var t :| ImportedUpTo(s, t, hs, |hs|) && Tree(t, g);
    assert t == s + HeaderMap(hs);
  }

  /** One import: a run whose parent is unknown changes nothing. */
  ghost function ImportStep(g: Hash, st: ChainState, imp: Import, ttd: Option<nat>, preserve: Header -> bool)
    : (after: ChainState)
    requires StateValid(g, st) && Admissible(st, imp)
    ensures StateValid(g, after)
  {
    if imp.headers[0].parentHash !in st.headers then st
    else
      ImportedIsUnion(st.headers, g, imp.headers);
      var t, last := st.headers + HeaderMap(imp.headers), imp.headers[|imp.headers| - 1];
      if Wanted(t, g, t[st.head], last, ttd, preserve, imp.coin) && !OnPath(t, g, st.head, last.hash)
      then ChainState(t, last.hash)
      else ChainState(t, st.head)
  }

  /** No stored header lies on a heavier path than the head. */
  ghost predicate HeadIsHeaviest(g: Hash, st: ChainState) {
    && StateValid(g, st)
    && forall h :: h in st.headers ==> PathDifficulty(st.headers, g, h) <= PathDifficulty(st.headers, g, st.head)
  }

  lemma {:induction false} AncestorIsLighter(s: Store, g: Hash, h: Hash, n: nat)
    requires Tree(s, g) && h in s && n <= s[h].number
    ensures PathDifficulty(s, g, AncestorAt(s, g, h, n)) <= PathDifficulty(s, g, h)
    decreases s[h].number
  {
    if s[h].number != n {
      assert Linked(s, g, h);
      AncestorIsLighter(s, g, s[h].parentHash, n);
    }
  }

  /** The fork choice keeps the heaviest head the heaviest, whatever the draw says. */
  lemma ImportKeepsHeaviest(g: Hash, st: ChainState, imp: Import, preserve: Header -> bool)
    requires HeadIsHeaviest(g, st) && Admissible(st, imp)
    ensures HeadIsHeaviest(g, ImportStep(g, st, imp, None, preserve))
    ensures var after := ImportStep(g, st, imp, None, preserve);
      && st.head in after.headers
      && PathDifficulty(st.headers, g, st.head) == PathDifficulty(after.headers, g, st.head)
      && PathDifficulty(st.headers, g, st.head) <= PathDifficulty(after.headers, g, after.head)
  {
    if imp.headers[0].parentHash in st.headers {
      UnionDifficulties(st.headers, g, imp.headers, st.head);
      var t, last := st.headers + HeaderMap(imp.headers), imp.headers[|imp.headers| - 1].hash;
      if OnPath(t, g, st.head, last) {
        AncestorIsLighter(t, g, st.head, t[last].number);
      }
      hide Tree, ValidImport, HeaderMap, PathDifficulty, OnPath, Wanted, Stored;
      WantedByWeight(t, g, t[st.head], t[last], preserve, imp.coin);
    }
  }

  lemma WantedByWeight(s: Store, g: Hash, current: Header, last: Header, preserve: Header -> bool, coin: bool)
    requires Tree(s, g) && current.hash in s && last.hash in s
    ensures if Wanted(s, g, current, last, None, preserve, coin)
      then PathDifficulty(s, g, last.hash) >= PathDifficulty(s, g, current.hash)
      else PathDifficulty(s, g, last.hash) <= PathDifficulty(s, g, current.hash)
  {
  }

  /** How the choice between stored headers settles ties, and what a terminal difficulty does to it. */
  lemma WantedInTies(s: Store, g: Hash, current: Header, last: Header, ttd: Option<nat>, preserve: Header -> bool,
                     coin: bool)
    requires Tree(s, g) && current.hash in s && last.hash in s
    ensures var a, b := PathDifficulty(s, g, current.hash), PathDifficulty(s, g, last.hash);
      var wanted := Wanted(s, g, current, last, ttd, preserve, coin);
      if ttd.Some? && b >= ttd.value then wanted
      else if a != b then wanted <==> b > a
      else if current.number != last.number then wanted <==> last.number < current.number
      else wanted <==> !preserve(current) && (preserve(last) || coin)
  {
    hide Tree, PathDifficulty;
  }

  /** The choice between the head and one header that has just been attached leaves the heaviest of all. */
  lemma ChoiceKeepsHeaviest(g: Hash, s: Store, head: Hash, hdr: Header, preserve: Header -> bool, coin: bool)
    requires HeadIsHeaviest(g, ChainState(s, head)) && Attachable(s, hdr)
    ensures var t := s[hdr.hash := hdr];
      && Tree(t, g) && head in t
      && HeadIsHeaviest(g,
           ChainState(t, if Wanted(t, g, t[head], hdr, None, preserve, coin) then hdr.hash else head))
  {
    var t := s[hdr.hash := hdr];
    AttachDifficulty(s, g, hdr);
    TdEntries(s, g);
    TdEntries(t, g);
    hide Tree, PathDifficulty, TdMap, Wanted, Attachable;
    WantedByWeight(t, g, t[head], hdr, preserve, coin);
  }

  lemma TdEntries(s: Store, g: Hash)
    requires Tree(s, g)
    ensures forall h :: h in s ==> h in TdMap(s, g) && TdMap(s, g)[h] == PathDifficulty(s, g, h)
  {
  }

  /** After an import every header is at most as heavy as the old head or the last header imported. */
  lemma UnionDifficulties(s: Store, g: Hash, hs: seq<Header>, head: Hash)
    requires Tree(s, g) && hs != [] && ValidImport(s, hs) && hs[0].parentHash in s && head in s
    requires forall h :: h in s ==> PathDifficulty(s, g, h) <= PathDifficulty(s, g, head)
    ensures Tree(s + HeaderMap(hs), g) && Stored(s + HeaderMap(hs), hs) && head in s + HeaderMap(hs)
    ensures (s + HeaderMap(hs))[head] == s[head]
    ensures PathDifficulty(s + HeaderMap(hs), g, head) == PathDifficulty(s, g, head)
    ensures forall h :: h in s + HeaderMap(hs) ==>
      || PathDifficulty(s + HeaderMap(hs), g, h) <= PathDifficulty(s + HeaderMap(hs), g, head)
      || PathDifficulty(s + HeaderMap(hs), g, h) <= PathDifficulty(s + HeaderMap(hs), g, hs[|hs| - 1].hash)
  {
    ImportedIsUnion(s, g, hs);
    var t, last := s + HeaderMap(hs), hs[|hs| - 1].hash;
    hide ValidImport;
    DifficultyKept(s, t, g, head, s[head].number);
    forall h | h in t
      ensures PathDifficulty(t, g, h) <= PathDifficulty(t, g, head)
        || PathDifficulty(t, g, h) <= PathDifficulty(t, g, last)
    {
      if h in s {
        DifficultyKept(s, t, g, h, s[h].number);
      } else {
        var i :| 0 <= i < |hs| && hs[i].hash == h;
        ImportIsContiguous(s, hs);
        RunIsPath(t, g, hs, i);
        AncestorIsLighter(t, g, last, hs[i].number);
      }
    }
  }

  lemma ImportIsContiguous(s: Store, hs: seq<Header>)
    requires ValidImport(s, hs)
    ensures Contiguous(hs)
  {
  }

  ghost predicate AdmissibleRun(g: Hash, st: ChainState, run: seq<Import>, ttd: Option<nat>, preserve: Header -> bool)
    requires StateValid(g, st)
    decreases |run|
  {
    run == [] ||
    (Admissible(st, run[0]) && AdmissibleRun(g, ImportStep(g, st, run[0], ttd, preserve), run[1..], ttd, preserve))
  }

  ghost function AfterRun(g: Hash, st: ChainState, run: seq<Import>, ttd: Option<nat>, preserve: Header -> bool)
    : (after: ChainState)
    requires StateValid(g, st) && AdmissibleRun(g, st, run, ttd, preserve)
    ensures StateValid(g, after)
    decreases |run|
  {
    if run == [] then st else AfterRun(g, ImportStep(g, st, run[0], ttd, preserve), run[1..], ttd, preserve)
  }

  /** Over any run of imports the head stays a heaviest header and its difficulty never drops. */
  lemma {:induction false} RunKeepsHeaviest(g: Hash, st: ChainState, run: seq<Import>, preserve: Header -> bool)
    requires HeadIsHeaviest(g, st) && AdmissibleRun(g, st, run, None, preserve)
    ensures var after := AfterRun(g, st, run, None, preserve);
      && HeadIsHeaviest(g, after)
      && PathDifficulty(st.headers, g, st.head) <= PathDifficulty(after.headers, g, after.head)
    decreases |run|
  {
    if run != [] {
      ImportKeepsHeaviest(g, st, run[0], preserve);
      RunKeepsHeaviest(g, ImportStep(g, st, run[0], None, preserve), run[1..], preserve);
    }
  }

  lemma AdoptedIsNew(s: Store, g: Hash, head: Hash, last: Hash)
    requires Tree(s, g) && head in s && last in s
    ensures !OnPath(s, g, head, last) ==> last != head
  {
  }
}
