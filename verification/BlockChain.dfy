/**
 The block chain: the head moves along the tree of blocks, and the number -> hash map and
 the transaction index have to follow.  `Valid` is what every sequence of operations keeps;
 `Exact` is the stronger property that nothing is left above the head.
 */
module BlockChain {
  import opened BlockTree
  import opened RawDb
  import opened Wrappers
  import opened Numbers
  import opened ForkChoice
  import opened HeaderProofs
  import opened BlockProofs

  class BlockChain {
    const genesis: Header
    var db: Db
    var currentBlock: Block
    var currentFastBlock: Block
    ghost var top: nat            // the highest number with a canonical entry

    /** The stored tree of blocks, of which all other data is a view. */
    ghost predicate StoreValid()
      reads this
    {
      && Tree(db.headers, genesis.hash)
      && db.headers[genesis.hash] == genesis
      && genesis.parentHash == ZERO_HASH
      && db.bodies.Keys == db.headers.Keys
      && db.tds == TdMap(db.headers, genesis.hash)
      && NoReplay(db.headers, db.bodies, genesis.hash)
    }

    ghost predicate IsStored(b: Block)
      reads this
    {
      && b.header.hash in db.headers && db.headers[b.header.hash] == b.header
      && b.header.hash in db.bodies && db.bodies[b.header.hash] == b.txs
    }

    /** All head markers name the current block. */
    ghost predicate MarkersValid()
      reads this
    {
      && IsStored(currentBlock) && currentFastBlock == currentBlock
      && db.headBlock == currentBlock.header.hash
      && db.headHeader == currentBlock.header.hash
      && db.headFast == currentBlock.header.hash
    }

    /** The canonical map has no gaps and agrees with the path of the current block as far as that goes. */
    ghost predicate CanonValid()
      requires Tree(db.headers, genesis.hash) && IsStored(currentBlock)
      reads this
    {
      && CanonUpTo(db.canon, top) && currentBlock.header.number <= top
      && forall n :: 0 <= n <= currentBlock.header.number ==>
        db.canon[n] == AncestorAt(db.headers, genesis.hash, currentBlock.header.hash, n)
    }

    /** The class invariant. */
    ghost predicate Valid()
      reads this
    {
      && StoreValid() && MarkersValid() && CanonValid()
      && db.lookup == TxIndex(db.headers, db.bodies, genesis.hash, currentBlock.header.hash)
    }

    /** The canonical map is exactly the path of the head. */
    ghost predicate Exact()
      requires Tree(db.headers, genesis.hash) && currentBlock.header.hash in db.headers
      reads this
    {
      db.canon == PathTo(db.headers, genesis.hash, currentBlock.header.hash)
    }

    /** The stored headers and the head. */
    ghost function Tip(): ChainState
      reads this
    {
      ChainState(db.headers, currentBlock.header.hash)
    }

    constructor (genesis: Block)
      requires genesis.header.hash != ZERO_HASH && genesis.header.number == 0
      requires genesis.header.parentHash == ZERO_HASH
      ensures Valid() && Exact() && currentBlock == genesis && this.genesis == genesis.header
      ensures db.headers == map[genesis.header.hash := genesis.header]
      ensures db.bodies == map[genesis.header.hash := genesis.txs]
      ensures db.tds == map[genesis.header.hash := genesis.header.difficulty]
      ensures HeadIsHeaviest(genesis.header.hash, Tip())
    {
      var h := genesis.header;
      this.genesis := h;
      db := Db(map[h.hash := h], map[h.hash := h.difficulty], map[0 := h.hash], h.hash,
               map[h.hash := genesis.txs], AddTxs(map[], genesis.txs, 0), h.hash, h.hash);
      currentBlock := genesis;
      currentFastBlock := genesis;
      top := 0;
    }

    /** Makes a block canonical and the head, indexing its transactions, in one batch. */
    method WriteHeadBlock(block: Block)
      requires CanonUpTo(db.canon, top) && block.header.number <= top + 1 && block.header.hash != ZERO_HASH
      modifies this
      ensures db == HeadWritten(old(db), block)
      ensures currentBlock == block && currentFastBlock == block
      ensures CanonUpTo(db.canon, top) && top == Max(old(top), block.header.number)
    {
      var batch: Batch := [PutHeadHeader(block.header.hash)];
      batch := batch + [PutHeadFast(block.header.hash)];
      batch := batch + [PutCanon(block.header.number, block.header.hash)];
      HeadQueuedStart(db, block);
      for k := 0 to |block.txs|
        invariant db == old(db) && top == old(top)
        invariant HeadQueued(db, batch, block, k)
      {
        HeadQueuedStep(db, batch, block, k);
        batch := batch + [PutLookup(block.txs[k], block.header.number)];
      }
      HeadQueuedEnd(db, batch, block);
      batch := batch + [PutHeadBlock(block.header.hash)];
      db := Write(db, batch);
      top := Max(top, block.header.number);
      currentFastBlock := block;
      currentBlock := block;
    }

    /**
     The walks of `reorg`: both chains are reduced to the same number and then together
     until they meet.  They always meet, and where they do is the lowest common ancestor.
     */
    method FindCommon(oldBlock: Block, newBlock: Block)
      returns (r: Result<Block>, oldChain: seq<Block>, newChain: seq<Block>, deletedTxs: seq<Hash>)
      requires StoreValid() && IsStored(oldBlock) && IsStored(newBlock)
      ensures r.Ok?
      ensures WalkedTo(db, genesis.hash, oldBlock.header.hash, r.value, oldChain)
      ensures WalkedTo(db, genesis.hash, newBlock.header.hash, r.value, newChain)
      ensures MeetAt(db.headers, genesis.hash, oldBlock.header.hash, newBlock.header.hash, r.value.header.number)
      ensures Elems(deletedTxs)
           == BranchTxs(db.headers, db.bodies, genesis.hash, oldBlock.header.hash, r.value.header.number)
    {
      ghost var s, g, o, n := db.headers, genesis.hash, oldBlock.header.hash, newBlock.header.hash;
      var a, b := oldBlock, newBlock;
      oldChain, newChain, deletedTxs := [], [], [];
      r := Err("invalid chain");
      BranchStart(s, db.bodies, g, o);
      hide Tree, BranchTxs, NoReplay, TdMap, AncestorAt, IsBranch, Elems, PartAbove;
      if a.header.number > b.header.number {
        while a.header.number != b.header.number
          invariant b.header.number <= a.header.number && Dropping(db, g, o, a, oldChain, deletedTxs)
          decreases a.header.number
        {
          DropDown(db, g, o, a, oldChain, deletedTxs);
          oldChain := oldChain + [a];
          deletedTxs := deletedTxs + a.txs;
          var parent := GetBlock(db, a.header.parentHash, a.header.number - 1);
          if parent == None {
            return;
          }
          a := parent.value;
        }
      } else {
        while b.header.number != a.header.number
          invariant a.header.number <= b.header.number && WalkedTo(db, g, n, b, newChain)
          decreases b.header.number
        {
          WalkDown(db, g, n, b, newChain);
          newChain := newChain + [b];
          var parent := GetBlock(db, b.header.parentHash, b.header.number - 1);
          if parent == None {
            return;
          }
          b := parent.value;
        }
      }
      TopsPart(s, g, o, n, a.header.number);
      while a.header.hash != b.header.hash
        invariant a.header.number == b.header.number
        invariant Dropping(db, g, o, a, oldChain, deletedTxs) && WalkedTo(db, g, n, b, newChain)
        invariant PartAbove(s, g, o, n, a.header.number)
        decreases a.header.number
      {
        NotMetYet(s, g, o, n, a.header.hash, b.header.hash, a.header.number);
        DropDown(db, g, o, a, oldChain, deletedTxs);
        WalkDown(db, g, n, b, newChain);
        oldChain := oldChain + [a];
        deletedTxs := deletedTxs + a.txs;
        newChain := newChain + [b];
        var parentA := GetBlock(db, a.header.parentHash, a.header.number - 1);
        if parentA == None {
          return;
        }
        a := parentA.value;
        var parentB := GetBlock(db, b.header.parentHash, b.header.number - 1);
        if parentB == None {
          return;
        }
        b := parentB.value;
      }
      return Ok(a), oldChain, newChain, deletedTxs;
    }

    /** The new branch is canonical up to `height`, and the index is right but for dropped transactions. */
    ghost predicate Adopting(before: Db, b0: Hash, height: nat, dropped: set<Hash>, added: set<Hash>)
      requires Tree(before.headers, genesis.hash) && b0 in before.headers && before.bodies.Keys == before.headers.Keys
      reads this
    {
      && db.headers == before.headers && db.bodies == before.bodies && db.tds == before.tds
      && CanonUpTo(db.canon, top) && height <= top && height <= db.headers[b0].number
      && (forall n :: 0 <= n <= height ==> db.canon[n] == AncestorAt(db.headers, genesis.hash, b0, n))
      && IndexUpTo(db.lookup,
                   TxIndex(db.headers, db.bodies, genesis.hash, AncestorAt(db.headers, genesis.hash, b0, height)),
                   dropped, added)
    }

    /** One more block of the new branch. */
    method AdoptBlock(block: Block, ghost before: Db, ghost b0: Hash, ghost height: nat,
                      ghost dropped: set<Hash>, ghost added: set<Hash>)
      requires Tree(before.headers, genesis.hash) && b0 in before.headers && before.bodies.Keys == before.headers.Keys
      requires Adopting(before, b0, height, dropped, added)
      requires height < before.headers[b0].number
      requires IsStored(block) && block.header.hash == AncestorAt(before.headers, genesis.hash, b0, height + 1)
      modifies this
      ensures Adopting(before, b0, height + 1, dropped, added + Elems(block.txs))
      ensures db.headers == before.headers && db.bodies == before.bodies
      ensures currentBlock == block && MarkersValid()
      ensures top == Max(old(top), height + 1)
    {
      ghost var g, low := genesis.hash, AncestorAt(before.headers, genesis.hash, b0, height);
      IndexUpToStep(db.lookup, TxIndex(db.headers, db.bodies, g, low), dropped, added, block.txs, height + 1);
      AncestorParent(before.headers, g, b0, height + 1);
      assert TxIndex(db.headers, db.bodies, g, block.header.hash)
          == AddTxs(TxIndex(db.headers, db.bodies, g, low), block.txs, height + 1);
      hide Tree, TxIndex, AddTxs, IndexUpTo, AncestorAt;
      WriteHeadBlock(block);
    }

    /** Before anything is written the map and the index are right up to the common ancestor. */
    lemma AdoptingStart(b0: Hash, c: nat)
      requires Valid() && b0 in db.headers && MeetAt(db.headers, genesis.hash, currentBlock.header.hash, b0, c)
      ensures Adopting(db, b0, c, BranchTxs(db.headers, db.bodies, genesis.hash, currentBlock.header.hash, c), {})
    {
      var s, g, head := db.headers, genesis.hash, currentBlock.header.hash;
      IndexUpToStart(s, db.bodies, g, head, c);
      forall n | 0 <= n <= c
        ensures AncestorAt(s, g, head, n) == AncestorAt(s, g, b0, n)
      {
        AgreeBelow(s, g, head, b0, c, n);
      }
    }

    /** Writes the new branch from the bottom up, all but its last block, which is left to the caller. */
    method AdoptBranch(newChain: seq<Block>, ghost b0: Hash, ghost c: nat, ghost dropped: set<Hash>)
      returns (addedTxs: seq<Hash>)
      requires Tree(db.headers, genesis.hash) && b0 in db.headers && db.bodies.Keys == db.headers.Keys
      requires IsBranch(db, genesis.hash, b0, newChain) && |newChain| == db.headers[b0].number - c
      requires Adopting(db, b0, c, dropped, {}) && MarkersValid()
      modifies this
      ensures Tree(old(db.headers), genesis.hash) && b0 in old(db.headers) && old(db.bodies.Keys == db.headers.Keys)
      ensures Adopting(old(db), b0, if |newChain| <= 1 then c else c + |newChain| - 1, dropped, Elems(addedTxs))
      ensures MarkersValid()
      ensures |newChain| <= 1 ==> db == old(db) && currentBlock == old(currentBlock) && top == old(top)
      ensures |newChain| > 1 ==> currentBlock == newChain[1]
    {
      ghost var before, g, height := db, genesis.hash, c;
      addedTxs := [];
      assert Elems(addedTxs) == {};
      hide Tree, IsBranch, AncestorAt, Adopting, Elems;
      var i := |newChain| - 1;
      while i >= 1
        invariant i < |newChain| && (i == -1 ==> newChain == [])
        invariant height == if newChain == [] then c else c + |newChain| - 1 - i
        invariant Adopting(before, b0, height, dropped, Elems(addedTxs))
        invariant db.headers == before.headers && db.bodies == before.bodies && MarkersValid()
        invariant height == c ==> db == before && currentBlock == old(currentBlock) && top == old(top) && addedTxs == []
        invariant height > c ==> 0 <= i && i + 1 < |newChain| && currentBlock == newChain[i + 1]
      {
        BranchBlock(before, g, b0, newChain, i);
        AdoptBlock(newChain[i], before, b0, height, dropped, Elems(addedTxs));
        ElemsConcat(addedTxs, newChain[i].txs);
        addedTxs := addedTxs + newChain[i].txs;
        height := height + 1;
        i := i - 1;
      }
    }

    /** The deletions at the end of `reorg`: dropped transactions, and entries above the current block. */
    method DeleteStale(deletedTxs: seq<Hash>, addedTxs: seq<Hash>)
      requires CanonUpTo(db.canon, top) && currentBlock.header.number <= top
      modifies this`db, this`top
      ensures db == WithCanon(
          WithLookup(old(db), old(db).lookup - (Elems(deletedTxs) - Elems(addedTxs))),
          CanonBelow(old(db).canon, currentBlock.header.number + 1))
      ensures CanonUpTo(db.canon, top) && top == currentBlock.header.number
    {
      var txs := TxDifference(deletedTxs, addedTxs);
      assert Elems(txs) == Elems(deletedTxs) - Elems(addedTxs);
      hide WithCanon, CanonBelow;
      var indexesBatch := QueueDeleteLookups(txs);
      var number := currentBlock.header.number;
      indexesBatch := QueueDeleteCanonFrom(db, number + 1, indexesBatch, top);
      StaleDeleted(db.canon, number, top);
      db := Write(db, indexesBatch);
      top := number;
    }

    method QueueDeleteLookups(txs: seq<Hash>) returns (batch: Batch)
      ensures Write(db, batch) == WithLookup(db, db.lookup - Elems(txs))
    {
      batch := [];
      assert Elems(txs[..0]) == {} && WithLookup(db, db.lookup - {}) == db;
      for k := 0 to |txs|
        invariant Write(db, batch) == WithLookup(db, db.lookup - Elems(txs[..k]))
      {
        LookupDeleted(db, batch, txs, k);
        batch := batch + [DelLookup(txs[k])];
      }
      assert txs[..|txs|] == txs;
    }

    /** With the new branch written up to the current block, the map is right for that block. */
    lemma AdoptedCanon(before: Db, b0: Hash, height: nat, dropped: set<Hash>, added: set<Hash>)
      requires Tree(before.headers, genesis.hash) && b0 in before.headers && before.bodies.Keys == before.headers.Keys
      requires Adopting(before, b0, height, dropped, added) && IsStored(currentBlock)
      requires currentBlock.header.hash == AncestorAt(before.headers, genesis.hash, b0, height)
      ensures CanonValid()
    {
      forall n | 0 <= n <= height
        ensures AncestorAt(db.headers, genesis.hash, currentBlock.header.hash, n)
             == AncestorAt(db.headers, genesis.hash, b0, n)
      {
        AncestorCompose(db.headers, genesis.hash, b0, height, n);
      }
    }

    lemma CanonBelowIsPath()
      requires Tree(db.headers, genesis.hash) && IsStored(currentBlock) && CanonValid()
      ensures CanonBelow(db.canon, currentBlock.header.number + 1)
           == PathTo(db.headers, genesis.hash, currentBlock.header.hash)
    {
    }

    lemma AdoptedIndex(before: Db, b0: Hash, height: nat, dropped: set<Hash>, added: set<Hash>)
      requires Tree(before.headers, genesis.hash) && b0 in before.headers && before.bodies.Keys == before.headers.Keys
      requires Adopting(before, b0, height, dropped, added)
      ensures db.headers == before.headers && db.bodies == before.bodies && db.tds == before.tds
      ensures CanonUpTo(db.canon, top)
      ensures db.lookup - (dropped - added) ==
        TxIndex(db.headers, db.bodies, genesis.hash, AncestorAt(db.headers, genesis.hash, b0, height))
    {
      IndexUpToEnd(db.lookup,
        TxIndex(db.headers, db.bodies, genesis.hash, AncestorAt(db.headers, genesis.hash, b0, height)), dropped, added);
    }

    /** What `SwitchTo` has established before it deletes anything. */
    ghost predicate Switched(before: Db, b0: Hash, c: nat, dropped: set<Hash>, added: set<Hash>)
      requires Tree(before.headers, genesis.hash) && b0 in before.headers && before.bodies.Keys == before.headers.Keys
      requires c <= before.headers[b0].number
      reads this
    {
      && db.headers == before.headers && db.bodies == before.bodies && db.tds == before.tds
      && MarkersValid() && CanonValid()
      && db.lookup - (dropped - added) == TxIndex(db.headers, db.bodies, genesis.hash,
           AncestorAt(db.headers, genesis.hash, b0, IndexedHeight(db.headers[b0].number, c)))
    }

    lemma BranchIsWritten(before: Db, b0: Hash, c: nat, dropped: set<Hash>, added: set<Hash>)
      requires Tree(before.headers, genesis.hash) && b0 in before.headers && before.bodies.Keys == before.headers.Keys
      requires c <= before.headers[b0].number && MarkersValid()
      requires Adopting(before, b0, IndexedHeight(before.headers[b0].number, c), dropped, added)
      requires before.headers[b0].number >= c + 2 ==>
        currentBlock.header.hash == AncestorAt(before.headers, genesis.hash, b0, before.headers[b0].number - 1)
      requires before.headers[b0].number < c + 2 ==> CanonValid()
      ensures Switched(before, b0, c, dropped, added)
    {
      var height := IndexedHeight(before.headers[b0].number, c);
      assert IsStored(currentBlock) && db.headers == before.headers;
      hide Tree, BranchTxs, TxIndex, Elems, AncestorAt, Adopting, CanonValid, MarkersValid, IsStored;
      AdoptedIndex(before, b0, height, dropped, added);
      if before.headers[b0].number >= c + 2 {
        AdoptedCanon(before, b0, height, dropped, added);
      }
    }

    /** The writes of the second half of `reorg`. */
    method WriteBranch(newBlock: Block, newChain: seq<Block>, ghost c: nat) returns (addedTxs: seq<Hash>)
      requires Valid() && IsStored(newBlock)
      requires MeetAt(db.headers, genesis.hash, currentBlock.header.hash, newBlock.header.hash, c)
      requires IsBranch(db, genesis.hash, newBlock.header.hash, newChain) && |newChain| == newBlock.header.number - c
      modifies this
      ensures old(StoreValid() && IsStored(newBlock) && IsStored(currentBlock) && c <= currentBlock.header.number)
      ensures Switched(old(db), newBlock.header.hash, c,
        BranchTxs(old(db.headers), old(db.bodies), genesis.hash, old(currentBlock.header.hash), c), Elems(addedTxs))
      ensures currentBlock.header.hash ==
        (if newBlock.header.number >= c + 2
         then AncestorAt(db.headers, genesis.hash, newBlock.header.hash, newBlock.header.number - 1)
         else old(currentBlock.header.hash))
    {
      ghost var before, b0, height := db, newBlock.header.hash, IndexedHeight(newBlock.header.number, c);
      ghost var dropped := BranchTxs(db.headers, db.bodies, genesis.hash, currentBlock.header.hash, c);
      if |newChain| > 1 {
        BranchBlock(db, genesis.hash, b0, newChain, 1);
      }
      AdoptingStart(b0, c);
      hide StoreValid, Tree, BranchTxs, MeetAt, CanonUpTo, IsBranch, AncestorAt, Adopting, TxIndex, Elems, Switched;
      addedTxs := AdoptBranch(newChain, b0, c, dropped);
      BranchIsWritten(before, b0, c, dropped, Elems(addedTxs));
    }

    /** The second half of `reorg`: the new branch is written, then what is stale is deleted. */
    method SwitchTo(newBlock: Block, newChain: seq<Block>, deletedTxs: seq<Hash>, ghost c: nat)
      requires Valid() && IsStored(newBlock)
      requires MeetAt(db.headers, genesis.hash, currentBlock.header.hash, newBlock.header.hash, c)
      requires IsBranch(db, genesis.hash, newBlock.header.hash, newChain) && |newChain| == newBlock.header.number - c
      requires Elems(deletedTxs) == BranchTxs(db.headers, db.bodies, genesis.hash, currentBlock.header.hash, c)
      modifies this
      ensures Tree(db.headers, genesis.hash) && MarkersValid() && CanonUpTo(db.canon, top)
      ensures db.headers == old(db.headers) && db.bodies == old(db.bodies) && db.tds == old(db.tds)
      ensures currentBlock.header.hash ==
        (if newBlock.header.number >= c + 2
         then AncestorAt(db.headers, genesis.hash, newBlock.header.hash, newBlock.header.number - 1)
         else old(currentBlock.header.hash))
      ensures Exact() && top == currentBlock.header.number
      ensures db.lookup == TxIndex(db.headers, db.bodies, genesis.hash,
        AncestorAt(db.headers, genesis.hash, newBlock.header.hash, IndexedHeight(newBlock.header.number, c)))
    {
      var addedTxs := WriteBranch(newBlock, newChain, c);
      hide Tree, BranchTxs, MeetAt, IsBranch, AncestorAt, TxIndex, PathTo, CanonBelow, Elems;
      CanonBelowIsPath();
      DeleteStale(deletedTxs, addedTxs);
    }

    /**
     Moves from the current chain to the one of `newBlock`, leaving `newBlock` itself to the
     caller.  The map is then exact for the current block, which is the parent of `newBlock`
     only if the new branch has two blocks or more; the index is right for the parent in any
     case.  `sideBlocks` are the dropped blocks in the order they are announced.
     */
    method Reorg(newBlock: Block) returns (r: Result<()>, sideBlocks: seq<Block>, ghost c: nat)
      requires Valid() && IsStored(newBlock)
      modifies this
      ensures old(StoreValid()) && newBlock.header.hash in old(db.headers)
      ensures r.Ok? && StoreValid() && MarkersValid() && CanonUpTo(db.canon, top) && IsStored(newBlock)
      ensures db.headers == old(db.headers) && db.bodies == old(db.bodies)
      ensures MeetAt(db.headers, genesis.hash, old(currentBlock.header.hash), newBlock.header.hash, c)
      ensures currentBlock.header.hash ==
        (if newBlock.header.number >= c + 2
         then AncestorAt(db.headers, genesis.hash, newBlock.header.hash, newBlock.header.number - 1)
         else old(currentBlock.header.hash))
      ensures Exact() && top == currentBlock.header.number
      ensures db.lookup == TxIndex(db.headers, db.bodies, genesis.hash,
        AncestorAt(db.headers, genesis.hash, newBlock.header.hash, IndexedHeight(newBlock.header.number, c)))
      ensures |sideBlocks| == old(currentBlock.header.number) - c
      ensures forall i :: 0 <= i < |sideBlocks| ==>
        sideBlocks[i].header.hash == AncestorAt(db.headers, genesis.hash, old(currentBlock.header.hash), c + 1 + i)
    {
      var oldBlock := currentBlock;
      r, sideBlocks, c := Err("invalid chain"), [], 0;
      var common, oldChain, newChain, deletedTxs := FindCommon(oldBlock, newBlock);
      if common.Err? {
        return;
      }
      c := common.value.header.number;
      sideBlocks := Reverse(oldChain);
      ReversedBranch(db, genesis.hash, oldBlock.header.hash, oldChain, sideBlocks, c);
      hide Tree, BranchTxs, MeetAt, CanonUpTo, AncestorAt, TxIndex, PathTo, NoReplay, IsBranch, TdMap;
      SwitchTo(newBlock, newChain, deletedTxs, c);
      r := Ok(());
    }

    lemma ExactIsTop()
      requires Tree(db.headers, genesis.hash) && IsStored(currentBlock) && CanonValid()
      ensures Exact() <==> top == currentBlock.header.number
    {
      assert top in db.canon;
    }

    /** `reorg` and `writeHeadBlock` as one step. */
    method ReorgTo(block: Block) returns (r: Result<()>, sideBlocks: seq<Block>)
      requires Valid() && IsStored(block)
      modifies this
      ensures r.Ok? && Valid() && currentBlock == block
      ensures db.headers == old(db.headers) && db.bodies == old(db.bodies)
      ensures old(StoreValid() && IsStored(currentBlock) && IsStored(block))
      ensures Exact() <==> !ShortReorg(old(db.headers), genesis.hash, old(currentBlock.header.hash), block.header.hash)
      ensures ShortReorg(old(db.headers), genesis.hash, old(currentBlock.header.hash), block.header.hash) ==>
        db.canon == Overwritten(old(db.headers), genesis.hash, old(currentBlock.header.hash), block.header.hash)
    {
      ghost var s, g, head := db.headers, genesis.hash, currentBlock.header.hash;
      ghost var c;
      r, sideBlocks, c := Reorg(block);
      FinishReorg(s, db.bodies, g, head, currentBlock.header.hash, block.header.hash, c);
      hide Tree, MeetAt, AncestorAt, TxIndex, PathTo, NoReplay, TdMap, ShortReorg;
      WriteHeadBlock(block);
      ExactIsTop();
    }

    /** The head moves to a child of itself: no `reorg`, just `writeHeadBlock`. */
    method ExtendTo(block: Block)
      requires Valid() && IsStored(block) && block.header.parentHash == currentBlock.header.hash
      modifies this
      ensures Valid() && currentBlock == block
      ensures db.headers == old(db.headers) && db.bodies == old(db.bodies)
      ensures top == Max(old(top), block.header.number)
      ensures Exact() <==> old(top) <= block.header.number
    {
      ghost var s, g, head := db.headers, genesis.hash, currentBlock.header.hash;
      ChildIsNext(s, db.bodies, g, head, block.header.hash);
      hide Tree, AncestorAt, TxIndex, NoReplay, TdMap;
      WriteHeadBlock(block);
      ExactIsTop();
    }

    /** Makes a block that is already stored the head, reorganising if its parent is not. */
    method WriteKnownBlock(block: Block) returns (r: Result<()>)
      requires Valid() && IsStored(block)
      modifies this
      ensures r.Ok? && Valid() && currentBlock == block
      ensures db.headers == old(db.headers) && db.bodies == old(db.bodies)
      ensures old(StoreValid() && IsStored(currentBlock) && IsStored(block))
      ensures Exact() <==>
        ExactAfter(old(db.headers), genesis.hash, old(currentBlock.header.hash), block.header.hash, old(top))
      ensures ShortReorg(old(db.headers), genesis.hash, old(currentBlock.header.hash), block.header.hash) ==>
        db.canon == Overwritten(old(db.headers), genesis.hash, old(currentBlock.header.hash), block.header.hash)
    {
      ghost var s, g, head := db.headers, genesis.hash, currentBlock.header.hash;
      hide AncestorAt, PathTo, TxIndex, NoReplay, TdMap, ShortReorg, Overwritten;
      if block.header.parentHash != currentBlock.header.hash {
        var _, _ := ReorgTo(block);
      } else {
        ChildIsNoShortReorg(s, g, head, block.header.hash);
        ExtendTo(block);
      }
      r := Ok(());
    }

    /** The batch of `writeBlockWithState`: total difficulty, body and header. */
    method StoreBlock(block: Block, externTd: nat)
      requires Valid() && AttachableBlock(db.headers, db.bodies, genesis.hash, block)
      requires externTd == block.header.difficulty
        + PathDifficulty(db.headers, genesis.hash, block.header.parentHash)
      modifies this`db
      ensures Valid() && IsStored(block)
      ensures db.headers == old(db.headers)[block.header.hash := block.header]
      ensures db.canon == old(db.canon) && db.lookup == old(db.lookup)
      ensures old(StoreValid() && IsStored(currentBlock))
      ensures PathTo(db.headers, genesis.hash, currentBlock.header.hash)
           == old(PathTo(db.headers, genesis.hash, currentBlock.header.hash))
    {
      var hash := block.header.hash;
      AttachBlock(db.headers, db.bodies, genesis.hash, block, currentBlock.header.hash);
      PathEntries(db.headers, genesis.hash, currentBlock.header.hash);
      PathEntries(db.headers[hash := block.header], genesis.hash, currentBlock.header.hash);
      hide Tree, NoReplay, TdMap, TxIndex, AncestorAt, PathTo, CanonUpTo, AttachableBlock, Write;
      BlockStored(db, block, externTd);
      var batch: Batch := [PutTd(hash, externTd)];
      batch := batch + [PutBody(hash, block.txs)];
      batch := batch + [PutHeader(block.header)];
      db := Write(db, batch);
    }

    /** Stores a block with its total difficulty; no other data changes. */
    method WriteBlock(block: Block) returns (r: Result<()>)
      requires Valid()
      requires block.header.parentHash in db.headers ==> AttachableBlock(db.headers, db.bodies, genesis.hash, block)
      modifies this`db
      ensures Valid()
      ensures r.Err? <==> block.header.parentHash !in old(db.headers)
      ensures r.Err? ==> db == old(db)
      ensures r.Ok? ==> IsStored(block) && db.headers == old(db.headers)[block.header.hash := block.header]
      ensures r.Ok? ==> db.canon == old(db.canon) && db.lookup == old(db.lookup)
      ensures old(StoreValid() && IsStored(currentBlock)) && (Exact() <==> old(Exact()))
    {
      var ptd := ReadTd(db, block.header.parentHash, block.header.number - 1);
      if ptd == None {
        return Err("unknown ancestor");
      }
      StoreBlock(block, block.header.difficulty + ptd.value);
      return Ok(());
    }

    /** Would the fork choice take `block`, once it is stored, over the current block? */
    ghost predicate Chosen(block: Block, ttd: Option<nat>, preserve: Header -> bool, coin: bool)
      requires StoreValid() && IsStored(currentBlock) && IsStored(block)
      reads this
    {
      Wanted(db.headers, genesis.hash, currentBlock.header, block.header, ttd, preserve, coin)
    }

    /** The new head is a heavier or equally heavy block when no terminal difficulty is configured. */
    lemma ChosenIsHeavier(block: Block, preserve: Header -> bool, coin: bool)
      requires StoreValid() && IsStored(currentBlock) && IsStored(block)
      ensures Chosen(block, None, preserve, coin) ==>
        PathDifficulty(db.headers, genesis.hash, block.header.hash)
        >= PathDifficulty(db.headers, genesis.hash, currentBlock.header.hash)
    {
      WantedByWeight(db.headers, genesis.hash, currentBlock.header, block.header, preserve, coin);
    }

    /** The decision of `writeBlockAndSetHead`, on a block that has just been stored. */
    method ChooseHead(block: Block, ttd: Option<nat>, preserve: Header -> bool, coin: bool) returns (r: Result<bool>)
      requires Valid() && IsStored(block)
      ensures r == Ok(Chosen(block, ttd, preserve, coin))
    {
      var current := currentBlock.header;
      r := ReorgNeeded(
        Candidate(ReadTd(db, current.hash, current.number), current.number, preserve(current)),
        Candidate(ReadTd(db, block.header.hash, block.header.number), block.header.number, preserve(block.header)),
        ttd, coin);
    }

    /** What an insertion can rely on: when the map is exact, and what the fork choice will leave. */
    lemma BeforeInsertion(block: Block, preserve: Header -> bool, coin: bool)
      requires Valid()
      requires block.header.parentHash in db.headers ==> AttachableBlock(db.headers, db.bodies, genesis.hash, block)
      ensures Exact() <==> top == currentBlock.header.number
      ensures block.header.parentHash in db.headers && HeadIsHeaviest(genesis.hash, Tip()) ==>
        var t := db.headers[block.header.hash := block.header];
        && Tree(t, genesis.hash) && currentBlock.header.hash in t
        && HeadIsHeaviest(genesis.hash, ChainState(t,
             if Wanted(t, genesis.hash, t[currentBlock.header.hash], block.header, None, preserve, coin)
             then block.header.hash else currentBlock.header.hash))
    {
      ExactIsTop();
      hide Tree, HeadIsHeaviest, Wanted, TdMap, TxIndex, NoReplay;
      if block.header.parentHash in db.headers && HeadIsHeaviest(genesis.hash, Tip()) {
        ChoiceKeepsHeaviest(genesis.hash, db.headers, currentBlock.header.hash, block.header, preserve, coin);
      }
    }

    /**
     Stores a block and, if the fork choice says so, makes it the head.  The index always
     matches the head, and the head stays a heaviest block.  A map that was exact stays so
     unless the adopted block is lower than the old head and a child of the old chain, and
     then one entry of the old chain is overwritten; a map that was not becomes exact by
     any other reorganisation, or when the head has caught up with what was left.
     */
    method WriteBlockAndSetHead(block: Block, ttd: Option<nat>, preserve: Header -> bool, coin: bool)
      returns (r: Result<bool>)
      requires Valid()
      requires block.header.parentHash in db.headers ==> AttachableBlock(db.headers, db.bodies, genesis.hash, block)
      modifies this
      ensures Valid()
      ensures r.Err? <==> block.header.parentHash !in old(db.headers)
      ensures r.Err? ==> db == old(db) && currentBlock == old(currentBlock)
      ensures r.Ok? ==> IsStored(block) && db.headers == old(db.headers)[block.header.hash := block.header]
      ensures r.Ok? ==> currentBlock == if r.value then block else old(currentBlock)
      ensures r.Ok? ==> old(currentBlock.header.hash) in db.headers
      ensures r.Ok? ==>
        (r.value <==> Wanted(db.headers, genesis.hash, old(currentBlock.header), block.header, ttd, preserve, coin))
      ensures r.Ok? && !r.value ==> db.canon == old(db.canon) && (Exact() <==> old(Valid() && Exact()))
      ensures r.Ok? && r.value ==>
        (Exact() <==> ExactAfter(db.headers, genesis.hash, old(currentBlock.header.hash), block.header.hash, old(top)))
      ensures r.Ok? && r.value ==>
        ShortReorg(db.headers, genesis.hash, old(currentBlock.header.hash), block.header.hash) ==>
        db.canon == Overwritten(db.headers, genesis.hash, old(currentBlock.header.hash), block.header.hash)
      ensures r.Ok? && old(Valid() && Exact()) ==>
        (Exact() <==>
          !(r.value && ShortReorg(db.headers, genesis.hash, old(currentBlock.header.hash), block.header.hash)))
      ensures r.Ok? && ttd == None && HeadIsHeaviest(genesis.hash, old(Tip())) ==> HeadIsHeaviest(genesis.hash, Tip())
      ensures r.Ok? && ttd == None ==>
        PathDifficulty(db.headers, genesis.hash, currentBlock.header.hash)
        >= PathDifficulty(db.headers, genesis.hash, old(currentBlock.header.hash))
    {
      ghost var head := currentBlock.header.hash;
      BeforeInsertion(block, preserve, coin);
      hide Tree, NoReplay, TdMap, TxIndex, AncestorAt, PathTo, CanonUpTo, AttachableBlock, ShortReorg, PathDifficulty;
      hide Wanted, Overwritten, HeadIsHeaviest, ExactAfter;
      var stored := WriteBlock(block);
      if stored.Err? {
        return Err(stored.message);
      }
      var reorg := ChooseHead(block, ttd, preserve, coin);
      if ttd == None {
        ChosenIsHeavier(block, preserve, coin);
      }
      if reorg.Ok? && reorg.value {
        ExactAfterExact(db.headers, genesis.hash, head, block.header.hash);
        var _ := WriteKnownBlock(block);
      }
      return reorg;
    }

    static function Reverse(s: seq<Block>): (r: seq<Block>)
      ensures |r| == |s| && forall i :: 0 <= i < |s| ==> r[i] == s[|s| - 1 - i]
    {
      if s == [] then [] else [s[|s| - 1]] + Reverse(s[..|s| - 1])
    }
  }

  const ROOT := Header(1, ZERO_HASH, 0, 1)
  const LIGHT1 := Header(2, 1, 1, 1)
  const LIGHT2 := Header(3, 2, 2, 1)
  const HEAVY := Header(4, 1, 1, 9)
  const STALE_MAP: Canon := map[0 := 1, 1 := 4, 2 := 3]

  /** A heavy block beside the first of two light ones wins, and is lower than the head. */
  lemma HeavySibling(s: Store, coin: bool)
    requires s == map[1 := ROOT, 2 := LIGHT1, 3 := LIGHT2, 4 := HEAVY]
    ensures Tree(s, 1) && ShortReorg(s, 1, 3, 4) && Wanted(s, 1, LIGHT2, HEAVY, None, (h: Header) => false, coin)
  {
    assert AncestorAt(s, 1, 3, 1) == 2 && AncestorAt(s, 1, 3, 0) == 1;
    assert PathDifficulty(s, 1, 1) == 1 && PathDifficulty(s, 1, 2) == 2;
    assert PathDifficulty(s, 1, 3) == 3 && PathDifficulty(s, 1, 4) == 10;
  }

  /** What is left of the map of the light chain. */
  lemma OverwrittenSibling(s: Store)
    requires s == map[1 := ROOT, 2 := LIGHT1, 3 := LIGHT2, 4 := HEAVY]
    ensures Tree(s, 1) && Overwritten(s, 1, 3, 4) == STALE_MAP
  {
    assert AncestorAt(s, 1, 3, 2) == 3 && AncestorAt(s, 1, 3, 1) == 2 && AncestorAt(s, 1, 3, 0) == 1;
  }

  lemma LightChild(s: Store, a: Header, b: Header, coin: bool)
    requires Tree(s, 1) && a.hash in s && s[a.hash] == a && b.hash in s && s[b.hash] == b
    requires b.parentHash == a.hash && b.number == a.number + 1 && b.difficulty > 0 && s[1] == ROOT
    ensures Wanted(s, 1, a, b, None, (h: Header) => false, coin)
    ensures !ShortReorg(s, 1, a.hash, b.hash)
  {
    assert Linked(s, 1, b.hash);
  }

  /** Two light blocks on the root, one after the other. */
  method LightChain(coin: bool) returns (bc: BlockChain)
    ensures fresh(bc) && bc.Valid() && bc.Exact() && bc.genesis == ROOT && bc.currentBlock == Block(LIGHT2, [])
    ensures bc.db.headers == map[1 := ROOT, 2 := LIGHT1, 3 := LIGHT2]
  {
    hide AncestorAt, PathDifficulty, PathTo, TxIndex, NoReplay, TdMap, ShortReorg, Wanted, BlockChain.CanonValid;
    bc := new BlockChain(Block(ROOT, []));
    var first := bc.WriteBlockAndSetHead(Block(LIGHT1, []), None, (h: Header) => false, coin);
    LightChild(bc.db.headers, ROOT, LIGHT1, coin);
    var second := bc.WriteBlockAndSetHead(Block(LIGHT2, []), None, (h: Header) => false, coin);
    LightChild(bc.db.headers, LIGHT1, LIGHT2, coin);
  }

  /**
   The chain of two light blocks gives way to the heavy one: the head is then at height 1,
   and there is still the entry of the second light one for height 2.
   */
  method StaleEntry(coin: bool) returns (headNumber: nat, stale: Hash, canon: Canon)
    ensures headNumber == 1 && stale == LIGHT2.hash && canon == STALE_MAP
  {
    var bc := LightChain(coin);
    hide AncestorAt, PathDifficulty, PathTo, TxIndex, NoReplay, TdMap, ShortReorg, Wanted;
    var third := bc.WriteBlockAndSetHead(Block(HEAVY, []), None, (h: Header) => false, coin);
    assert bc.db.headers == map[1 := ROOT, 2 := LIGHT1, 3 := LIGHT2, 4 := HEAVY];
    HeavySibling(bc.db.headers, coin);
    headNumber := bc.currentBlock.header.number;
    canon := bc.db.canon;
    OverwrittenSibling(bc.db.headers);
    stale := CanonicalHash(canon, 2);
  }
}
