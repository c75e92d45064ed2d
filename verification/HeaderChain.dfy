/**
 The header chain.  Everything the database holds besides the tree of headers and the
 head is redundant: `Valid` says that the canonical map is the path to the head and that
 the difficulties are the path sums.  The methods are the source's walks and batches; the
 contracts say that the redundant parts always come out right.
 */
module HeaderChain {
  import opened BlockTree
  import opened RawDb
  import opened Wrappers
  import opened Numbers
  import opened ForkChoice
  import opened HeaderProofs

  datatype WriteStatus = NonStat | CanonStat | SideStat
  datatype ImportResult = ImportResult(status: WriteStatus, ignored: nat, imported: nat)

  class HeaderChain {
    const genesis: Header
    var db: Db
    var currentHeader: Header
    var currentHeaderHash: Hash

    ghost predicate TreeValid()
      reads this
    {
      && Tree(db.headers, genesis.hash)
      && db.headers[genesis.hash] == genesis
      && genesis.parentHash == ZERO_HASH
      && currentHeader.hash in db.headers
      && db.headers[currentHeader.hash] == currentHeader
      && currentHeaderHash == currentHeader.hash
      && db.headHeader == currentHeaderHash
    }

    /** The class invariant. */
    ghost predicate Valid()
      reads this
    {
      && TreeValid()
      && db.tds == TdMap(db.headers, genesis.hash)
      && db.canon == PathTo(db.headers, genesis.hash, currentHeaderHash)
    }

    constructor (genesis: Header)
      requires genesis.hash != ZERO_HASH && genesis.number == 0 && genesis.parentHash == ZERO_HASH
      ensures Valid() && this.genesis == genesis
      ensures db.headers == map[genesis.hash := genesis] && currentHeader == genesis
      ensures db.tds == map[genesis.hash := genesis.difficulty]
    {
      this.genesis := genesis;
      db := Db(map[genesis.hash := genesis], map[genesis.hash := genesis.difficulty],
               map[0 := genesis.hash], genesis.hash, map[], map[], genesis.hash, genesis.hash);
      currentHeader := genesis;
      currentHeaderHash := genesis.hash;
    }

    /** The loop of `WriteHeaders`: queues every header that is not stored yet, with its difficulty. */
    method QueueImport(headers: seq<Header>, ptd: nat)
      returns (batch: Batch, inserted: seq<(nat, Hash)>, ghost s: Store)
      requires Tree(db.headers, genesis.hash) && currentHeaderHash in db.headers
      requires db.tds == TdMap(db.headers, genesis.hash)
      requires headers != [] && ValidImport(db.headers, headers) && headers[0].parentHash in db.headers
      requires ptd == PathDifficulty(db.headers, genesis.hash, headers[0].parentHash)
      ensures Tree(s, genesis.hash) && s == db.headers + HeaderMap(headers) && Stored(s, headers)
      ensures Write(db, batch) == WithStore(db, s, TdMap(s, genesis.hash))
      ensures forall h :: h in db.headers ==> h in s && s[h] == db.headers[h]
      ensures PathTo(s, genesis.hash, currentHeaderHash) == PathTo(db.headers, genesis.hash, currentHeaderHash)
      ensures |inserted| <= |headers|
      ensures forall i :: 0 <= i < |headers| ==> (headers[i].hash in db.headers <==> i < |headers| - |inserted|)
    {
      var newTD: nat := ptd;
      var parentKnown := true;
      ghost var g := genesis.hash;
      inserted, batch, s := [], [], db.headers;
      ImportLoopStart(db, headers, g, ptd);
      hide Tree, PathTo, TdMap, Write, ImportLoop, ValidImport, Contiguous, Stored, HeaderMap, PathDifficulty;
      for i := 0 to |headers|
        invariant ImportLoop(db, headers, i, s, g, batch, newTD, parentKnown, |inserted|)
      {
        var header := headers[i];
        var hash := if i < |headers| - 1 then headers[i + 1].parentHash else header.hash;
        HashFromNext(db.headers, headers, i);
        var number := header.number;
        ImportLoopStep(db, headers, i, s, g, batch, newTD, parentKnown, |inserted|);
        newTD := newTD + header.difficulty;
        var alreadyKnown := parentKnown && GetHeader(db.headers, hash, number).Some?;
        if !alreadyKnown {
          batch := batch + [PutTd(hash, newTD)];
          batch := batch + [PutHeader(header)];
          inserted := inserted + [(number, hash)];
        }
        parentKnown := alreadyKnown;
        s := s[header.hash := header];
      }
      ImportLoopDone(db, headers, s, g, batch, newTD, parentKnown, |inserted|, currentHeaderHash);
    }

    /** Stores headers and difficulties, whether or not they end up canonical. */
    method WriteHeaders(headers: seq<Header>) returns (r: Result<nat>)
      requires Valid() && ValidImport(db.headers, headers)
      modifies this`db
      ensures Valid()
      ensures r.Err? <==> headers != [] && headers[0].parentHash !in old(db.headers)
      ensures r.Err? ==> db == old(db)
      ensures r.Ok? ==> db.headers == old(db.headers) + HeaderMap(headers)
      ensures r.Ok? ==> Stored(db.headers, headers)
      ensures r.Ok? ==> r.value <= |headers|
      ensures r.Ok? ==> forall i :: 0 <= i < |headers| ==>
        (headers[i].hash in old(db.headers) <==> i < |headers| - r.value)
    {
      if |headers| == 0 {
        assert db.headers + HeaderMap([]) == db.headers;
        return Ok(0);
      }
      var ptd := ReadTd(db, headers[0].parentHash, headers[0].number - 1);
      if ptd == None {
        return Err("unknown ancestor");
      }
      assert genesis.hash in db.headers && currentHeaderHash in db.headers;
      var batch, inserted, s := QueueImport(headers, ptd.value);
      hide Tree, PathTo, TdMap, Write, ValidImport, Contiguous, Stored;
      db := Write(db, batch);
      return Ok(|inserted|);
    }

    /** The walk of `Reorg` from the first header of the import down to the cross link of the two chains. */
    method QueueWalkBack(first: Header, limit: nat, prefix: Batch) returns (r: Result<Batch>, ghost c: Canon)
      requires Tree(db.headers, genesis.hash) && currentHeaderHash in db.headers
      requires db.canon == PathTo(db.headers, genesis.hash, currentHeaderHash)
      requires first.hash in db.headers && db.headers[first.hash] == first && first.number <= limit
      requires Write(db, prefix) == WithCanon(db, CanonBelow(db.canon, limit + 1))
      ensures r.Ok? && Write(db, r.value) == WithCanon(db, c)
      ensures OnPathBelow(db.headers, genesis.hash, c, first, limit)
    {
      ghost var g := genesis.hash;
      var batch := prefix;
      var header, headNumber: nat, headHash := first, first.number, first.hash;
      c := CanonBelow(db.canon, limit + 1);
      WalkStart(db.headers, g, db.canon, first, limit);
      assert Unwinding(db, g, currentHeaderHash, c, first, limit, headNumber, header, batch);
      hide Tree, PathTo, Write, WalkedDown, CanonBelow, AncestorAt, WithCanon, OnPathBelow, Unwinding;
      while CanonicalHash(db.canon, headNumber) != headHash
        invariant Unwinding(db, g, currentHeaderHash, c, first, limit, headNumber, header, batch)
        invariant headHash == header.hash
        decreases headNumber
      {
        UnwindOne(db, g, currentHeaderHash, c, first, limit, headNumber, header, batch);
        batch := batch + [PutCanon(headNumber, headHash)];
        c := c[headNumber := headHash];
        if headNumber == 0 {
          break;
        }
        headHash, headNumber := header.parentHash, header.number - 1;
        var parent := GetHeader(db.headers, headHash, headNumber);
        if parent == None {
          return Err("missing parent"), c;
        }
        header := parent.value;
      }
      UnwindEnds(db, g, currentHeaderHash, c, first, limit, headNumber, header, batch);
      r := Ok(batch);
    }

    /** The last loop of `Reorg`: the headers of the import become canonical one by one. */
    method QueueExtend(headers: seq<Header>, prefix: Batch, ghost c: Canon) returns (batch: Batch)
      requires Tree(db.headers, genesis.hash)
      requires headers != [] && Contiguous(headers) && Stored(db.headers, headers)
      requires OnPathBelow(db.headers, genesis.hash, c, headers[0], headers[|headers| - 1].number)
      requires Write(db, prefix) == WithCanon(db, c)
      ensures Write(db, batch) == WithChain(db, PathTo(db.headers, genesis.hash, headers[|headers| - 1].hash),
                                              headers[|headers| - 1].hash)
    {
      batch := prefix;
      ghost var d: Canon := c;
      ghost var marker := db.headHeader;
      assert CanonExtended(c, headers, 0, d);
      hide Tree, OnPathBelow, PathTo, CanonExtended, Contiguous, Stored, Write;
      for i := 0 to |headers| - 1
        invariant Write(db, batch) == WithChain(db, d, marker)
        invariant CanonExtended(c, headers, i, d)
      {
        RunNumbers(db.headers, genesis.hash, headers, i);
        var hash := headers[i + 1].parentHash;
        var num := headers[i].number;
        CanonExtendedStep(c, headers, i, d);
        QueueCanonical(db, batch, d, marker, num, hash);
        batch := batch + [PutCanon(num, hash)];
        batch := batch + [PutHeadHeader(hash)];
        d, marker := d[num := hash], hash;
      }
      var hash := headers[|headers| - 1].hash;
      var num := headers[|headers| - 1].number;
      RunNumbers(db.headers, genesis.hash, headers, |headers| - 1);
      CanonExtendedStep(c, headers, |headers| - 1, d);
      QueueCanonical(db, batch, d, marker, num, hash);
      batch := batch + [PutCanon(num, hash)];
      batch := batch + [PutHeadHeader(hash)];
      ExtendedIsPath(db.headers, genesis.hash, headers, c, d[num := hash]);
    }

    /**
     Makes the last header of an already stored run the head, wherever the run branches off.
     Whatever the walks and batches did, the canonical map is afterwards the path to it.
     */
    method Reorg(headers: seq<Header>) returns (r: Result<()>)
      requires Valid() && Contiguous(headers) && Stored(db.headers, headers)
      modifies this
      ensures Valid() && r.Ok?
      ensures db.headers == old(db.headers)
      ensures currentHeader == if headers == [] then old(currentHeader) else headers[|headers| - 1]
    {
      if |headers| == 0 {
        return Ok(());
      }
      var first, last := headers[0], headers[|headers| - 1];
      RunIsPath(db.headers, genesis.hash, headers, 0);
      var batch: Batch := [];
      ghost var c: Canon := db.canon;
      if first.parentHash != currentHeaderHash {
        CanonIsPath(db.headers, genesis.hash, currentHeaderHash);
        batch := QueueDeleteCanonFrom(db, last.number + 1, batch, currentHeader.number);
        var unwound;
        unwound, c := QueueWalkBack(first, last.number, batch);
        if unwound.Err? {
          return Err("missing parent");
        }
        batch := unwound.value;
      } else {
        ChildOfHead(db.headers, genesis.hash, first, last.number);
      }
      batch := QueueExtend(headers, batch, c);
      db := Write(db, batch);
      currentHeaderHash := last.hash;
      currentHeader := last;
      return Ok(());
    }

    /** The decision of `writeHeadersAndSetHead`, on a header that has just been stored. */
    method ChooseHead(last: Header, ttd: Option<nat>, preserve: Header -> bool, coin: bool) returns (r: Result<bool>)
      requires Valid() && last.hash in db.headers && db.headers[last.hash] == last
      ensures r == Ok(Wanted(db.headers, genesis.hash, currentHeader, last, ttd, preserve, coin))
    {
      r := ReorgNeeded(
        Candidate(ReadTd(db, currentHeader.hash, currentHeader.number), currentHeader.number, preserve(currentHeader)),
        Candidate(ReadTd(db, last.hash, last.number), last.number, preserve(last)), ttd, coin);
    }

    /**
     Stores a validated run of headers and lets the fork choice decide whether its last one
     becomes the head.  Afterwards the whole database is again determined by tree and head.
     An empty run is the caller's error: the source indexes its last header.
     */
    method WriteHeadersAndSetHead(headers: seq<Header>, ttd: Option<nat>, preserve: Header -> bool, coin: bool)
      returns (r: Result<ImportResult>)
      requires Valid() && headers != [] && ValidImport(db.headers, headers)
      modifies this
      ensures Valid()
      ensures r.Err? <==> headers[0].parentHash !in old(db.headers)
      ensures r.Err? ==> db == old(db) && currentHeader == old(currentHeader)
      ensures r.Ok? ==>
        && db.headers == old(db.headers) + HeaderMap(headers)
        && Stored(db.headers, headers)
        && old(currentHeader.hash) in db.headers
        && var last := headers[|headers| - 1];
           var wanted := Wanted(db.headers, genesis.hash, old(currentHeader), last, ttd, preserve, coin);
           var adopted := wanted && !OnPath(db.headers, genesis.hash, old(currentHeader.hash), last.hash);
           && currentHeader == (if adopted then last else old(currentHeader))
           && r.value.imported + r.value.ignored == |headers|
           && r.value.status == (if adopted then CanonStat
                                 else if !wanted && r.value.imported != 0 then SideStat else NonStat)
           && forall i :: 0 <= i < |headers| ==> (headers[i].hash in old(db.headers) <==> i < r.value.ignored)
    {
      var inserted := WriteHeaders(headers);
      if inserted.Err? {
        return Err(inserted.message);
      }
      var lastHeader := headers[|headers| - 1];
      var status := NonStat;
      var result := ImportResult(NonStat, |headers| - inserted.value, inserted.value);
      assert currentHeader.hash in db.headers;
      hide Tree, PathTo, TdMap, ValidImport, Contiguous, Wanted, HeaderMap;
      var reorg := ChooseHead(lastHeader, ttd, preserve, coin);
      if reorg.Err? {
        return Err("missing td");
      }
      if !reorg.value {
        return Ok(result.(status := if inserted.value != 0 then SideStat else NonStat));
      }
      if CanonicalHash(db.canon, lastHeader.number) == lastHeader.hash && lastHeader.number <= currentHeader.number {
        return Ok(result);
      }
      var done := Reorg(headers);
      return Ok(result.(status := CanonStat));
    }

    /** What the rest of the database is determined by. */
    ghost function State(): ChainState
      reads this
    {
      ChainState(db.headers, currentHeaderHash)
    }

    /**
     One header import.  It is exactly a step of the abstract chain, and as long as no
     terminal difficulty is configured the head stays a heaviest stored header.
     */
    method InsertHeaderChain(headers: seq<Header>, ttd: Option<nat>, preserve: Header -> bool, coin: bool)
      returns (r: Result<WriteStatus>)
      requires Valid() && headers != [] && ValidImport(db.headers, headers)
      modifies this
      ensures Valid()
      ensures old(StateValid(genesis.hash, State()))
      ensures State() == ImportStep(genesis.hash, old(State()), Import(headers, coin), ttd, preserve)
      ensures r.Err? <==> headers[0].parentHash !in old(db.headers)
      ensures r == Ok(CanonStat) <==> currentHeaderHash != old(currentHeaderHash)
      ensures ttd == None && HeadIsHeaviest(genesis.hash, old(State())) ==> HeadIsHeaviest(genesis.hash, State())
    {
      ghost var before, imp := State(), Import(headers, coin);
      if ttd == None && HeadIsHeaviest(genesis.hash, before) {
        ImportKeepsHeaviest(genesis.hash, before, imp, preserve);
      }
      hide ValidImport, PathTo, TdMap, HeadIsHeaviest, Tree, HeaderMap, Stored, Wanted, OnPath;
      var res := WriteHeadersAndSetHead(headers, ttd, preserve, coin);
      if res.Err? {
        return Err(res.message);
      }
      AdoptedIsNew(db.headers, genesis.hash, before.head, headers[|headers| - 1].hash);
      return Ok(res.value.status);
    }

    /** The occupied heights above `num`, highest first. */
    method HeightsAbove(num: nat) returns (nums: seq<nat>)
      requires Tree(db.headers, genesis.hash)
      ensures forall n :: n in nums <==> n > num && ReadAllHashes(db, n) != {}
    {
      nums := [];
      var n := num + 1;
      while ReadAllHashes(db, n) != {}
        invariant num < n
        invariant forall k :: k in nums <==> num < k < n
        invariant forall k :: num < k < n ==> ReadAllHashes(db, k) != {}
        decreases HeadersFrom(db.headers, n)
      {
        ghost var h :| h in ReadAllHashes(db, n);
        assert h in HeadersFrom(db.headers, n) && h !in HeadersFrom(db.headers, n + 1);
        nums := [n] + nums;
        n := n + 1;
      }
      forall k | k >= n
        ensures ReadAllHashes(db, k) == {}
      {
        OccupiedBelow(db, genesis.hash, k, n);
      }
    }

    /** Queues the deletion of everything stored at the given heights, on all forks. */
    method QueueDeleteHeights(nums: seq<nat>, prefix: Batch, hdr: Header) returns (batch: Batch)
      requires OnlyDeletes(prefix)
      requires forall n :: n in nums ==> ReadAllHashes(db, n) != {}
      ensures OnlyDeletes(batch)
      ensures forall op :: op in batch <==> op in prefix || exists i :: 0 <= i < |nums| && DeletesAt(db, op, nums[i])
    {
      batch := prefix;
      for k := 0 to |nums|
        invariant OnlyDeletes(batch)
        invariant forall op :: op in batch <==> op in prefix || exists i :: 0 <= i < k && DeletesAt(db, op, nums[i])
      {
        var num := nums[k];
        var hashes := ReadAllHashes(db, num);
        assert num in nums;
        if |hashes| == 0 {
          hashes := {hdr.hash};
        }
        ghost var before, all := batch, hashes;
        while hashes != {}
          invariant OnlyDeletes(batch)
          invariant hashes <= all
          invariant forall op :: op in batch <==>
            op in before || ((op.DelHeader? || op.DelTd?) && op.hash in all - hashes)
        {
          var hash :| hash in hashes;
          batch := batch + [DelHeader(hash)];
          batch := batch + [DelTd(hash)];
          hashes := hashes - {hash};
        }
        batch := batch + [DelCanon(num)];
      }
    }

    /**
     Rewinds to a height.  When the head is above it, nothing above it survives on any
     fork, and the canonical chain is cut to it.
     */
    method SetHead(target: nat)
      requires Valid()
      modifies this
      ensures Valid()
      ensures old(currentHeader.number) <= target ==> db == old(db) && currentHeader == old(currentHeader)
      ensures old(currentHeader.number) > target ==>
        && db.headers == CutAbove(old(db.headers), target)
        && currentHeader == old(db.headers[db.canon[target]])
        && db.canon == CanonBelow(old(db.canon), target + 1)
        && db.tds == CutTds(old(db.tds), db.headers)
    {
      ghost var before, g, h0 := db, genesis.hash, currentHeaderHash;
      var batch: Batch := [];
      var origin := true;
      assert WithHead(db, currentHeaderHash) == db;
      while currentHeader.number > target
        invariant target <= currentHeader.number || origin
        invariant Rewinding(before, h0, origin, batch)
        decreases currentHeader.number
      {
        batch := RewindOne(before, h0, origin, batch);
        origin := false;
      }
      if !origin {
        RewoundIsCut(db, batch, currentHeader.number, before.headers[h0].number);
        CutDbValid(db, g, h0, currentHeaderHash);
      }
      db := Write(db, batch);
    }

    /** The head is an ancestor of `h0`; apart from the head marker the database is `before`. */
    ghost predicate OnTheWay(before: Db, h0: Hash)
      requires TreeValid()
      reads this
    {
      && h0 in before.headers
      && db == WithHead(before, currentHeaderHash)
      && currentHeader.number <= before.headers[h0].number
      && currentHeaderHash == AncestorAt(before.headers, genesis.hash, h0, currentHeader.number)
    }

    /** Where a rewind of `before`, whose head was `h0`, stands. */
    ghost predicate Rewinding(before: Db, h0: Hash, origin: bool, batch: Batch)
      reads this
    {
      && TreeValid()
      && OnTheWay(before, h0)
      && (origin <==> currentHeader.number == before.headers[h0].number)
      && if origin then batch == [] else Rewound(batch, before.headers, currentHeader.number, before.headers[h0].number)
    }

    /** The head marker moves to the parent before any data is deleted. */
    method StepToParent(ghost before: Db, ghost h0: Hash)
      requires TreeValid() && OnTheWay(before, h0) && currentHeader.number > 0
      modifies this
      ensures TreeValid() && OnTheWay(before, h0)
      ensures currentHeader.number == old(currentHeader.number) - 1
    {
      var hdr := currentHeader;
      AncestorParent(before.headers, genesis.hash, h0, hdr.number);
      assert Linked(before.headers, genesis.hash, hdr.hash);
      var stored := GetHeader(db.headers, hdr.parentHash, hdr.number - 1);
      var parent := if stored == None then genesis else stored.value;
      var parentHash := parent.hash;
      WritePutHeadHeader(db, [], parentHash);
      assert [] + [PutHeadHeader(parentHash)] == [PutHeadHeader(parentHash)];
      db := Write(db, [PutHeadHeader(parentHash)]);
      currentHeader := parent;
      currentHeaderHash := parentHash;
    }

    /** The deletions of one round: the first takes every height from the old head's up. */
    method QueueRound(hdr: Header, first: bool, prefix: Batch, ghost top: nat) returns (batch: Batch)
      requires Tree(db.headers, genesis.hash) && hdr.hash in db.headers && db.headers[hdr.hash] == hdr
      requires 0 < hdr.number <= top && (first <==> hdr.number == top)
      requires if first then prefix == [] else Rewound(prefix, db.headers, hdr.number, top)
      ensures Rewound(batch, db.headers, hdr.number - 1, top)
    {
      var num := hdr.number;
      hide Tree, Rewound, OnlyDeletes, DeletesAt;
      var nums: seq<nat> := [];
      if first {
        nums := HeightsAbove(num);
      }
      nums := nums + [num];
      assert hdr.hash in ReadAllHashes(db, num);
      EarlierOnlyDeletes(prefix, db.headers, num, top, first);
      batch := QueueDeleteHeights(nums, prefix, hdr);
      RewoundStep(db, prefix, batch, nums, num, top);
    }

    /** One round of the loop of `SetHead`: the head steps to its parent, then deletions are queued. */
    method RewindOne(ghost before: Db, ghost h0: Hash, first: bool, prefix: Batch) returns (batch: Batch)
      requires Rewinding(before, h0, first, prefix) && currentHeader.number > 0
      modifies this
      ensures Rewinding(before, h0, false, batch)
      ensures currentHeader.number == old(currentHeader.number) - 1
    {
      var hdr := currentHeader;
      hide Tree, AncestorAt, Rewound;
      StepToParent(before, h0);
      batch := QueueRound(hdr, first, prefix, before.headers[h0].number);
    }

    /** Is the header stored under this number? */
    ghost predicate StoredAt(hash: Hash, number: nat)
      reads this
    {
      hash in db.headers && db.headers[hash].number == number
    }

    /** The loop of `GetAncestor` after some steps down from a stored header. */
    ghost predicate SteppedTo(hash: Hash, number: nat, budget: nat, h: Hash, n: nat, b: nat)
      requires Valid() && StoredAt(hash, number)
      reads this
    {
      && n <= number && h == AncestorAt(db.headers, genesis.hash, hash, n)
      && b + (number - n) == budget
      && CanonDistance(db.headers, genesis.hash, currentHeaderHash, hash)
         == number - n + CanonDistance(db.headers, genesis.hash, currentHeaderHash, h)
    }

    lemma StepDown(hash: Hash, number: nat, budget: nat, h: Hash, n: nat, b: nat)
      requires Valid() && StoredAt(hash, number) && SteppedTo(hash, number, budget, h, n, b)
      requires CanonicalHash(db.canon, n) != h && b > 0
      ensures n > 0 && StoredAt(h, n)
      ensures SteppedTo(hash, number, budget, db.headers[h].parentHash, n - 1, b - 1)
    {
      CanonIsPath(db.headers, genesis.hash, currentHeaderHash);
      OffPath(db.headers, genesis.hash, currentHeaderHash, h);
      AncestorParent(db.headers, genesis.hash, hash, n);
    }

    lemma Shortcut(hash: Hash, number: nat, budget: nat, h: Hash, n: nat, b: nat, low: nat)
      requires Valid() && StoredAt(hash, number) && SteppedTo(hash, number, budget, h, n, b)
      requires CanonicalHash(db.canon, n) == h && low <= n
      ensures CanonicalHash(db.canon, low) == AncestorAt(db.headers, genesis.hash, hash, low)
      ensures CanonDistance(db.headers, genesis.hash, currentHeaderHash, hash) == number - n
    {
      CanonIsPath(db.headers, genesis.hash, currentHeaderHash);
      AncestorCompose(db.headers, genesis.hash, hash, n, low);
      AncestorCompose(db.headers, genesis.hash, currentHeaderHash, n, low);
    }

    /** As long as the loop steps, the canonical chain has not been reached. */
    lemma NotYet(hash: Hash, number: nat, budget: nat, h: Hash, n: nat, b: nat)
      requires Valid() && StoredAt(hash, number) && SteppedTo(hash, number, budget, h, n, b)
      requires CanonicalHash(db.canon, n) != h
      ensures CanonDistance(db.headers, genesis.hash, currentHeaderHash, hash) > number - n
    {
      CanonIsPath(db.headers, genesis.hash, currentHeaderHash);
      OffPath(db.headers, genesis.hash, currentHeaderHash, h);
    }

    lemma NothingIsStored(number: nat)
      requires Valid()
      ensures !StoredAt(ZERO_HASH, number)
    {
    }

    /** Nothing stored under this hash and number: then only the zero hash can look canonical. */
    lemma UnknownIsNotCanonical(hash: Hash, number: nat)
      requires Valid() && !StoredAt(hash, number)
      ensures CanonicalHash(db.canon, number) == hash <==> hash == ZERO_HASH && number > currentHeader.number
      ensures number > currentHeader.number <==> CanonicalHash(db.canon, number) == ZERO_HASH
    {
      CanonIsPath(db.headers, genesis.hash, currentHeaderHash);
    }

    /** How far `h` is from the canonical chain, but no further than asked for. */
    ghost function StepsNeeded(hash: Hash, number: nat, ancestor: nat): nat
      requires Valid() && StoredAt(hash, number)
      reads this
    {
      if ancestor == 1 then 0 else Min(ancestor, CanonDistance(db.headers, genesis.hash, currentHeaderHash, hash))
    }

    /** The budget pays for the single steps to the canonical chain, or to the ancestor if that comes first. */
    lemma StepsToCanonical(hash: Hash, number: nat, ancestor: nat, k: nat)
      requires Valid() && StoredAt(hash, number) && ancestor <= number
      ensures var s, g, steps := db.headers, genesis.hash, StepsNeeded(hash, number, ancestor);
        && (ancestor == 1 ==> steps == 0) && steps <= ancestor
        && (ancestor != 1 ==>
              && (steps < ancestor ==> OnPath(s, g, currentHeaderHash, AncestorAt(s, g, hash, number - steps)))
              && (k < steps ==> !OnPath(s, g, currentHeaderHash, AncestorAt(s, g, hash, number - k))))
    {
      FirstOnPath(db.headers, genesis.hash, currentHeaderHash, hash, k);
      hide OnPath, CanonDistance;
    }

    /**
     The answer to a lookup.  For a stored header it is the ancestor the plain walk finds, and
     it fails only when the budget is too small.  For any other hash the budget pays for at
     most one step; a zero hash above the head passes for canonical and is answered from the
     map.
     */
    ghost predicate Answered(hash: Hash, number: nat, ancestor: nat, budget: nat, h: Hash, n: nat, left: nat)
      requires Valid()
      reads this
    {
      if ancestor > number then h == ZERO_HASH && n == 0 && left == budget
      else if StoredAt(hash, number) then
        var steps := StepsNeeded(hash, number, ancestor);
        if steps <= budget
        then h == AncestorAt(db.headers, genesis.hash, hash, number - ancestor) && n == number - ancestor
             && left == budget - steps
        else h == ZERO_HASH && n == 0 && left == 0
      else if ancestor == 0 then h == hash && n == number && left == budget
      else if hash == ZERO_HASH && number > currentHeader.number && ancestor > 1
      then h == CanonicalHash(db.canon, number - ancestor) && n == number - ancestor && left == budget
      else h == ZERO_HASH && n == 0 && left == if ancestor == 1 || budget == 0 then budget else budget - 1
    }

    /** What the loop knows with `a` generations to go. */
    ghost predicate Looking(hash: Hash, number: nat, ancestor: nat, budget: nat, h: Hash, n: nat, a: nat, left: nat)
      requires Valid()
      reads this
    {
      && a <= n && n - a == number - ancestor && a <= ancestor != 1
      && (StoredAt(hash, number) ==>
            && SteppedTo(hash, number, budget, h, n, left)
            && CanonDistance(db.headers, genesis.hash, currentHeaderHash, hash) >= number - n)
      && (!StoredAt(hash, number) ==> h == hash && n == number && left == budget && a == ancestor)
    }

    lemma LookStart(hash: Hash, number: nat, ancestor: nat, budget: nat)
      requires Valid() && ancestor <= number && ancestor != 1
      ensures Looking(hash, number, ancestor, budget, hash, number, ancestor, budget)
    {
      if StoredAt(hash, number) {
        AncestorOfItself(db.headers, genesis.hash, hash);
      }
    }

    lemma LookDone(hash: Hash, number: nat, ancestor: nat, budget: nat, h: Hash, n: nat, left: nat)
      requires Valid() && Looking(hash, number, ancestor, budget, h, n, 0, left)
      ensures Answered(hash, number, ancestor, budget, h, n, left)
    {
    }

    /** The canonical chain is reached: the map has the rest. */
    lemma LookShortcut(hash: Hash, number: nat, ancestor: nat, budget: nat, h: Hash, n: nat, a: nat, left: nat)
      requires Valid() && Looking(hash, number, ancestor, budget, h, n, a, left) && a > 0
      requires CanonicalHash(db.canon, n) == h
      ensures Answered(hash, number, ancestor, budget, CanonicalHash(db.canon, n - a), n - a, left)
    {
      if StoredAt(hash, number) {
        hide Tree, TdMap, PathTo, AncestorAt, CanonDistance;
        Shortcut(hash, number, budget, h, n, left, n - a);
      } else {
        UnknownIsNotCanonical(hash, number);
      }
    }

    /** The budget is used up before it is. */
    lemma LookFails(hash: Hash, number: nat, ancestor: nat, budget: nat, h: Hash, n: nat, a: nat)
      requires Valid() && Looking(hash, number, ancestor, budget, h, n, a, 0) && a > 0
      requires CanonicalHash(db.canon, n) != h
      ensures Answered(hash, number, ancestor, budget, ZERO_HASH, 0, 0)
    {
      if StoredAt(hash, number) {
        hide Tree, TdMap, PathTo, AncestorAt, CanonDistance;
        NotYet(hash, number, budget, h, n, 0);
      } else {
        UnknownIsNotCanonical(hash, number);
      }
    }

    /** One step down: to the stored parent, or to an answer for an unknown hash. */
    lemma LookStep(hash: Hash, number: nat, ancestor: nat, budget: nat, h: Hash, n: nat, a: nat, left: nat)
      requires Valid() && Looking(hash, number, ancestor, budget, h, n, a, left) && a > 0 && left > 0
      requires CanonicalHash(db.canon, n) != h
      ensures var header := GetHeader(db.headers, h, n);
        if header.None? then Answered(hash, number, ancestor, budget, ZERO_HASH, 0, left - 1)
        else Looking(hash, number, ancestor, budget, header.value.parentHash, n - 1, a - 1, left - 1)
    {
      if StoredAt(hash, number) {
        hide Tree, TdMap, PathTo, AncestorAt, CanonDistance;
        NotYet(hash, number, budget, h, n, left);
        StepDown(hash, number, budget, h, n, left);
      } else {
        UnknownIsNotCanonical(hash, number);
      }
    }

    /**
     The ancestor a number of generations up, stepping at most `maxNonCanonical` times before
     the canonical map is reached, which gives the rest at once.
     */
    method GetAncestor(hash: Hash, number: nat, ancestor: nat, maxNonCanonical: nat)
      returns (h: Hash, n: nat, left: nat)
      requires Valid()
      ensures Answered(hash, number, ancestor, maxNonCanonical, h, n, left)
    {
      if ancestor > number {
        return ZERO_HASH, 0, maxNonCanonical;
      }
      if ancestor == 1 {
        var header := GetHeader(db.headers, hash, number);
        if header != None {
          AncestorUnfold(db.headers, genesis.hash, hash);
          return header.value.parentHash, number - 1, maxNonCanonical;
        }
        return ZERO_HASH, 0, maxNonCanonical;
      }
      h, n, left := hash, number, maxNonCanonical;
      var a: nat := ancestor;
      LookStart(hash, number, ancestor, maxNonCanonical);
      hide Valid, Answered, Looking;
      while a != 0
        invariant Valid() && Looking(hash, number, ancestor, maxNonCanonical, h, n, a, left) && a <= n
        decreases a
      {
        if CanonicalHash(db.canon, n) == h {
          LookShortcut(hash, number, ancestor, maxNonCanonical, h, n, a, left);
          return CanonicalHash(db.canon, n - a), n - a, left;
        }
        if left == 0 {
          LookFails(hash, number, ancestor, maxNonCanonical, h, n, a);
          return ZERO_HASH, 0, left;
        }
        LookStep(hash, number, ancestor, maxNonCanonical, h, n, a, left);
        left := left - 1;
        a := a - 1;
        var header := GetHeader(db.headers, h, n);
        if header == None {
          return ZERO_HASH, 0, left;
        }
        h := header.value.parentHash;
        n := n - 1;
      }
      LookDone(hash, number, ancestor, maxNonCanonical, h, n, left);
    }
  }

  /** On a chain of one header, asking for the grandparent of nothing at height 2 names the genesis header. */
  method AncestorOfNothing(genesis: Header) returns (h: Hash, n: nat)
    requires genesis.hash != ZERO_HASH && genesis.number == 0 && genesis.parentHash == ZERO_HASH
    ensures h == genesis.hash && n == 0
  {
    var hc := new HeaderChain(genesis);
    var left;
    h, n, left := hc.GetAncestor(ZERO_HASH, 2, 2, 0);
    hc.NothingIsStored(2);
    AncestorRoot(hc.db.headers, genesis.hash, genesis.hash);
  }
}
