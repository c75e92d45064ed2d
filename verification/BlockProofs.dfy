/**
 What full blocks add to the tree of headers: transactions, the index that finds the block
 of a transaction, and the branches a reorganisation drops and adopts.
 */
module BlockProofs {
  import opened BlockTree
  import opened RawDb
  import opened Wrappers
  import opened Numbers
  import opened HeaderProofs

  datatype Block = Block(header: Header, txs: seq<Hash>)

  type Bodies = map<Hash, seq<Hash>>
  type Lookup = map<Hash, nat>

  /** A block is only found if both its header and its body are stored. */
  function GetBlock(db: Db, hash: Hash, number: int): (b: Option<Block>)
    ensures b.Some? ==> b.value.header.number == number
  {
    if hash in db.headers && db.headers[hash].number == number && hash in db.bodies
    then Some(Block(db.headers[hash], db.bodies[hash])) else None
  }

  ghost function Elems(txs: seq<Hash>): set<Hash> {
    set t | t in txs
  }

  lemma ElemsConcat(a: seq<Hash>, b: seq<Hash>)
    ensures Elems(a + b) == Elems(a) + Elems(b)
  {
  }

  /** Entries for all transactions of one block written over a lookup table. */
  function AddTxs(l: Lookup, txs: seq<Hash>, number: nat): (m: Lookup)
    ensures forall t :: t in m <==> t in l || t in txs
    ensures forall t :: t in m ==> m[t] == if t in txs then number else l[t]
  {
    if txs == [] then l else AddTxs(l, txs[..|txs| - 1], number)[txs[|txs| - 1] := number]
  }

  /** Where each transaction of the chain ending in `h` is found: the last block on the path that holds it. */
  ghost function TxIndex(s: Store, bodies: Bodies, g: Hash, h: Hash): Lookup
    requires Tree(s, g) && h in s && bodies.Keys == s.Keys
    decreases s[h].number
  {
    assert Linked(s, g, h);
    AddTxs(if s[h].number == 0 then map[] else TxIndex(s, bodies, g, s[h].parentHash), bodies[h], s[h].number)
  }

  /** No transaction of `h` occurs in the chain below it. */
  ghost predicate FreshTxs(s: Store, bodies: Bodies, g: Hash, h: Hash)
    requires Tree(s, g) && h in s && bodies.Keys == s.Keys
  {
    assert Linked(s, g, h);
    s[h].number > 0 ==> forall t :: t in bodies[h] ==> t !in TxIndex(s, bodies, g, s[h].parentHash)
  }

  /** Transaction hashes are unique along every one chain. */
  ghost predicate NoReplay(s: Store, bodies: Bodies, g: Hash)
    requires Tree(s, g) && bodies.Keys == s.Keys
  {
    forall h :: h in s ==> FreshTxs(s, bodies, g, h)
  }

  /** The index finds a transaction under the number of the block that holds it, and only what the chain holds. */
  lemma {:induction false} IndexFinds(s: Store, bodies: Bodies, g: Hash, h: Hash, t: Hash, n: nat)
    requires Tree(s, g) && h in s && bodies.Keys == s.Keys && NoReplay(s, bodies, g)
    ensures var index := TxIndex(s, bodies, g, h);
      t in index && index[t] == n <==> n <= s[h].number && t in bodies[AncestorAt(s, g, h, n)]
    decreases s[h].number
  {
    assert Linked(s, g, h) && FreshTxs(s, bodies, g, h);
    if s[h].number > 0 {
      var parent := s[h].parentHash;
      IndexFinds(s, bodies, g, parent, t, n);
      if t in bodies[h] && n < s[h].number {
        assert t !in TxIndex(s, bodies, g, parent);
      }
    }
  }

  /** The transactions of the blocks from `h` down to, but not including, height `c`. */
  ghost function BranchTxs(s: Store, bodies: Bodies, g: Hash, h: Hash, c: nat): set<Hash>
    requires Tree(s, g) && h in s && bodies.Keys == s.Keys && c <= s[h].number
    decreases s[h].number
  {
    assert Linked(s, g, h);
    if s[h].number == c then {} else BranchTxs(s, bodies, g, s[h].parentHash, c) + Elems(bodies[h])
  }

  /** `chain` lists the blocks of the path to `h` from the top down. */
  ghost predicate IsBranch(db: Db, g: Hash, h: Hash, chain: seq<Block>)
    requires Tree(db.headers, g) && h in db.headers && db.bodies.Keys == db.headers.Keys
  {
    && |chain| <= db.headers[h].number
    && forall i :: 0 <= i < |chain| ==>
      var a := AncestorAt(db.headers, g, h, db.headers[h].number - i);
      chain[i] == Block(db.headers[a], db.bodies[a])
  }

  lemma BranchBlock(db: Db, g: Hash, h: Hash, chain: seq<Block>, i: nat)
    requires Tree(db.headers, g) && h in db.headers && db.bodies.Keys == db.headers.Keys
    requires IsBranch(db, g, h, chain) && i < |chain|
    ensures i < db.headers[h].number
    ensures chain[i].header.hash == AncestorAt(db.headers, g, h, db.headers[h].number - i)
    ensures chain[i].header.hash in db.headers && db.headers[chain[i].header.hash] == chain[i].header
    ensures db.bodies[chain[i].header.hash] == chain[i].txs
    ensures chain[i].header.number == db.headers[h].number - i
  {
  }

  /** A branch turned round lists the blocks upwards. */
  lemma ReversedBranch(db: Db, g: Hash, h: Hash, chain: seq<Block>, up: seq<Block>, c: nat)
    requires Tree(db.headers, g) && h in db.headers && db.bodies.Keys == db.headers.Keys
    requires IsBranch(db, g, h, chain) && |chain| == db.headers[h].number - c
    requires |up| == |chain| && forall i :: 0 <= i < |chain| ==> up[i] == chain[|chain| - 1 - i]
    ensures forall i :: 0 <= i < |up| ==>
      c + 1 + i <= db.headers[h].number && up[i].header.hash == AncestorAt(db.headers, g, h, c + 1 + i)
  {
    forall i | 0 <= i < |up|
      ensures up[i].header.hash == AncestorAt(db.headers, g, h, c + 1 + i)
    {
      BranchBlock(db, g, h, chain, |chain| - 1 - i);
    }
  }

  /** Heights above `c` at which two paths part. */
  ghost predicate PartAbove(s: Store, g: Hash, a: Hash, b: Hash, c: nat)
    requires Tree(s, g) && a in s && b in s
  {
    forall n :: c < n <= s[a].number && n <= s[b].number ==> AncestorAt(s, g, a, n) != AncestorAt(s, g, b, n)
  }

  /** `c` is the height of the lowest common ancestor. */
  ghost predicate MeetAt(s: Store, g: Hash, a: Hash, b: Hash, c: nat)
    requires Tree(s, g) && a in s && b in s
  {
    && c <= s[a].number && c <= s[b].number
    && AncestorAt(s, g, a, c) == AncestorAt(s, g, b, c)
    && PartAbove(s, g, a, b, c)
  }

  /** Two paths that differ at one height differ at all heights above. */
  lemma DifferAbove(s: Store, g: Hash, a: Hash, b: Hash, c: nat)
    requires Tree(s, g) && a in s && b in s && c < s[a].number && c < s[b].number
    requires AncestorAt(s, g, a, c + 1) != AncestorAt(s, g, b, c + 1)
    ensures PartAbove(s, g, a, b, c)
  {
    forall n | c < n <= s[a].number && n <= s[b].number
      ensures AncestorAt(s, g, a, n) != AncestorAt(s, g, b, n)
    {
      if AncestorAt(s, g, a, n) == AncestorAt(s, g, b, n) {
        AgreeBelow(s, g, a, b, n, c + 1);
      }
    }
  }

  /** Two different blocks of one height have parents. */
  lemma SameRoot(s: Store, g: Hash, a: Hash, b: Hash)
    requires Tree(s, g) && a in s && b in s && s[a].number == s[b].number && a != b
    ensures s[a].number > 0
  {
    assert Linked(s, g, a) && Linked(s, g, b);
  }

  /** A lower height is on the path, so the branch above it only adds transactions. */
  lemma {:induction false} IndexAboveBranch(s: Store, bodies: Bodies, g: Hash, h: Hash, c: nat)
    requires Tree(s, g) && h in s && bodies.Keys == s.Keys && c <= s[h].number
    ensures var low := AncestorAt(s, g, h, c);
      && TxIndex(s, bodies, g, low).Keys <= TxIndex(s, bodies, g, h).Keys
      && forall t :: t !in BranchTxs(s, bodies, g, h, c) ==>
           && (t in TxIndex(s, bodies, g, h) <==> t in TxIndex(s, bodies, g, low))
           && (t in TxIndex(s, bodies, g, h) ==> TxIndex(s, bodies, g, h)[t] == TxIndex(s, bodies, g, low)[t])
    decreases s[h].number
  {
    if s[h].number != c {
      assert Linked(s, g, h);
      IndexAboveBranch(s, bodies, g, s[h].parentHash, c);
    }
  }

  /** Without replays, dropping a branch drops none of the transactions below it. */
  lemma {:induction false} BranchIsFresh(s: Store, bodies: Bodies, g: Hash, h: Hash, c: nat)
    requires Tree(s, g) && h in s && bodies.Keys == s.Keys && c <= s[h].number && NoReplay(s, bodies, g)
    ensures forall t :: t in BranchTxs(s, bodies, g, h, c) ==> t !in TxIndex(s, bodies, g, AncestorAt(s, g, h, c))
    decreases s[h].number
  {
    if s[h].number != c {
      assert Linked(s, g, h) && FreshTxs(s, bodies, g, h);
      BranchIsFresh(s, bodies, g, s[h].parentHash, c);
      IndexAboveBranch(s, bodies, g, s[h].parentHash, c);
    }
  }

  /** `l` is the index `i` except for dropped transactions not yet added again. */
  ghost predicate IndexUpTo(l: Lookup, i: Lookup, dropped: set<Hash>, added: set<Hash>) {
    && (forall t :: t !in dropped || t in added ==> (t in l <==> t in i) && (t in l ==> l[t] == i[t]))
    && (forall t :: t in dropped && t !in added ==> t !in i)
  }

  lemma IndexUpToStart(s: Store, bodies: Bodies, g: Hash, h: Hash, c: nat)
    requires Tree(s, g) && h in s && bodies.Keys == s.Keys && c <= s[h].number && NoReplay(s, bodies, g)
    ensures IndexUpTo(TxIndex(s, bodies, g, h), TxIndex(s, bodies, g, AncestorAt(s, g, h, c)),
                      BranchTxs(s, bodies, g, h, c), {})
  {
    IndexAboveBranch(s, bodies, g, h, c);
    BranchIsFresh(s, bodies, g, h, c);
  }

  lemma IndexUpToStep(l: Lookup, i: Lookup, dropped: set<Hash>, added: set<Hash>, txs: seq<Hash>, n: nat)
    requires IndexUpTo(l, i, dropped, added)
    ensures IndexUpTo(AddTxs(l, txs, n), AddTxs(i, txs, n), dropped, added + Elems(txs))
  {
  }

  lemma IndexUpToEnd(l: Lookup, i: Lookup, dropped: set<Hash>, added: set<Hash>)
    requires IndexUpTo(l, i, dropped, added)
    ensures l - (dropped - added) == i
  {
  }

  /** Writing the entries of a block that is already indexed changes nothing. */
  lemma ReAddTxs(s: Store, bodies: Bodies, g: Hash, h: Hash)
    requires Tree(s, g) && h in s && bodies.Keys == s.Keys
    ensures AddTxs(TxIndex(s, bodies, g, h), bodies[h], s[h].number) == TxIndex(s, bodies, g, h)
  {
  }

  /** The database after a block has been written as the new head. */
  ghost function HeadWritten(db: Db, b: Block): Db {
    db.(canon := db.canon[b.header.number := b.header.hash],
        lookup := AddTxs(db.lookup, b.txs, b.header.number),
        headHeader := b.header.hash, headFast := b.header.hash, headBlock := b.header.hash)
  }

  ghost function WithLookup(db: Db, l: Lookup): Db {
    db.(lookup := l)
  }

  /** The batch of `writeHeadBlock` up to the first `k` transactions. */
  ghost predicate HeadQueued(db: Db, batch: Batch, b: Block, k: nat)
    requires k <= |b.txs|
  {
    var after := Write(db, batch);
    && after.headers == db.headers && after.tds == db.tds && after.bodies == db.bodies
    && after.canon == db.canon[b.header.number := b.header.hash]
    && after.lookup == AddTxs(db.lookup, b.txs[..k], b.header.number)
    && after.headHeader == b.header.hash && after.headFast == b.header.hash && after.headBlock == db.headBlock
  }

  lemma HeadQueuedStart(db: Db, b: Block)
    ensures HeadQueued(db, [PutHeadHeader(b.header.hash)] + [PutHeadFast(b.header.hash)]
                           + [PutCanon(b.header.number, b.header.hash)], b, 0)
  {
    var h := b.header.hash;
    assert [] + [PutHeadHeader(h)] == [PutHeadHeader(h)];
    WriteAppend(db, [], PutHeadHeader(h));
    WriteAppend(db, [PutHeadHeader(h)], PutHeadFast(h));
    WriteAppend(db, [PutHeadHeader(h)] + [PutHeadFast(h)], PutCanon(b.header.number, h));
    assert AddTxs(db.lookup, b.txs[..0], b.header.number) == db.lookup;
  }

  lemma HeadQueuedStep(db: Db, batch: Batch, b: Block, k: nat)
    requires k < |b.txs| && HeadQueued(db, batch, b, k)
    ensures HeadQueued(db, batch + [PutLookup(b.txs[k], b.header.number)], b, k + 1)
  {
    var n := b.header.number;
    AddOneTx(db.lookup, b.txs, k, n);
    hide Write, AddTxs;
    WriteAppend(db, batch, PutLookup(b.txs[k], n));
  }

  lemma AddOneTx(l: Lookup, txs: seq<Hash>, k: nat, n: nat)
    requires k < |txs|
    ensures AddTxs(l, txs[..k + 1], n) == AddTxs(l, txs[..k], n)[txs[k] := n]
  {
    assert txs[..k + 1][..k] == txs[..k];
  }

  lemma HeadQueuedEnd(db: Db, batch: Batch, b: Block)
    requires HeadQueued(db, batch, b, |b.txs|)
    ensures Write(db, batch + [PutHeadBlock(b.header.hash)]) == HeadWritten(db, b)
  {
    WriteAppend(db, batch, PutHeadBlock(b.header.hash));
    assert b.txs[..|b.txs|] == b.txs;
  }

  /** The transactions of `a` that do not occur in `b`, in order. */
  function TxDifference(a: seq<Hash>, b: seq<Hash>): (keep: seq<Hash>)
    ensures forall t :: t in keep <==> t in a && t !in b
  {
    if a == [] then []
    else TxDifference(a[..|a| - 1], b) + if a[|a| - 1] in b then [] else [a[|a| - 1]]
  }

  lemma LookupDeleted(db: Db, batch: Batch, txs: seq<Hash>, k: nat)
    requires k < |txs| && Write(db, batch) == WithLookup(db, db.lookup - Elems(txs[..k]))
    ensures Write(db, batch + [DelLookup(txs[k])]) == WithLookup(db, db.lookup - Elems(txs[..k + 1]))
  {
    hide Write, Elems;
    ElemsTake(txs, k);
    LessTwice(db.lookup, Elems(txs[..k]), {txs[k]});
    WriteAppend(db, batch, DelLookup(txs[k]));
  }

  lemma ElemsTake(txs: seq<Hash>, k: nat)
    requires k < |txs|
    ensures Elems(txs[..k + 1]) == Elems(txs[..k]) + {txs[k]}
  {
    assert txs[..k + 1] == txs[..k] + [txs[k]];
  }

  lemma LessTwice(m: map<Hash, nat>, a: set<Hash>, b: set<Hash>)
    ensures m - a - b == m - (a + b)
  {
  }

  lemma BranchStart(s: Store, bodies: Bodies, g: Hash, h: Hash)
    requires Tree(s, g) && h in s && bodies.Keys == s.Keys
    ensures BranchTxs(s, bodies, g, h, s[h].number) == {}
  {
  }

  /** One step further down a branch. */
  lemma BranchTxsDown(s: Store, bodies: Bodies, g: Hash, h: Hash, c: nat)
    requires Tree(s, g) && h in s && bodies.Keys == s.Keys && 0 < c <= s[h].number
    ensures BranchTxs(s, bodies, g, h, c - 1)
         == BranchTxs(s, bodies, g, h, c) + Elems(bodies[AncestorAt(s, g, h, c)])
    decreases s[h].number
  {
    assert Linked(s, g, h);
    if s[h].number != c {
      BranchTxsDown(s, bodies, g, s[h].parentHash, c);
    } else {
      assert BranchTxs(s, bodies, g, s[h].parentHash, c - 1) == {};
    }
  }

  /** How far a walk down from `h0` has come: at `cur`, with the blocks above it in `chain`. */
  ghost predicate WalkedTo(db: Db, g: Hash, h0: Hash, cur: Block, chain: seq<Block>)
    requires Tree(db.headers, g) && h0 in db.headers && db.bodies.Keys == db.headers.Keys
  {
    && IsBranch(db, g, h0, chain)
    && cur.header.number == db.headers[h0].number - |chain|
    && cur.header.hash == AncestorAt(db.headers, g, h0, cur.header.number)
    && db.headers[cur.header.hash] == cur.header && db.bodies[cur.header.hash] == cur.txs
  }

  /** Stepping to the parent: it is stored, and the walk goes on from there. */
  lemma WalkDown(db: Db, g: Hash, h0: Hash, cur: Block, chain: seq<Block>)
    requires Tree(db.headers, g) && h0 in db.headers && db.bodies.Keys == db.headers.Keys
    requires WalkedTo(db, g, h0, cur, chain) && cur.header.number > 0
    ensures GetBlock(db, cur.header.parentHash, cur.header.number - 1).Some?
    ensures WalkedTo(db, g, h0, GetBlock(db, cur.header.parentHash, cur.header.number - 1).value, chain + [cur])
    ensures BranchTxs(db.headers, db.bodies, g, h0, cur.header.number - 1)
         == BranchTxs(db.headers, db.bodies, g, h0, cur.header.number) + Elems(cur.txs)
  {
    AncestorParent(db.headers, g, h0, cur.header.number);
    BranchTxsDown(db.headers, db.bodies, g, h0, cur.header.number);
  }

  /** The walk down the old chain, which also gathers the dropped transactions. */
  ghost predicate Dropping(db: Db, g: Hash, h0: Hash, cur: Block, chain: seq<Block>, dropped: seq<Hash>)
    requires Tree(db.headers, g) && h0 in db.headers && db.bodies.Keys == db.headers.Keys
  {
    && WalkedTo(db, g, h0, cur, chain)
    && Elems(dropped) == BranchTxs(db.headers, db.bodies, g, h0, cur.header.number)
  }

  lemma DropDown(db: Db, g: Hash, h0: Hash, cur: Block, chain: seq<Block>, dropped: seq<Hash>)
    requires Tree(db.headers, g) && h0 in db.headers && db.bodies.Keys == db.headers.Keys
    requires Dropping(db, g, h0, cur, chain, dropped) && cur.header.number > 0
    ensures var parent := GetBlock(db, cur.header.parentHash, cur.header.number - 1);
      parent.Some? && Dropping(db, g, h0, parent.value, chain + [cur], dropped + cur.txs)
  {
    hide Tree, BranchTxs, IsBranch, AncestorAt, Elems;
    WalkDown(db, g, h0, cur, chain);
    ElemsConcat(dropped, cur.txs);
  }

  /** Nothing of two paths lies above the lower one of their ends. */
  lemma TopsPart(s: Store, g: Hash, a: Hash, b: Hash, c: nat)
    requires Tree(s, g) && a in s && b in s && c == Min(s[a].number, s[b].number)
    ensures PartAbove(s, g, a, b, c)
  {
  }

  /** Two walks at different blocks of one height have parents, below which they have not met either. */
  lemma NotMetYet(s: Store, g: Hash, o: Hash, n: Hash, a: Hash, b: Hash, c: nat)
    requires Tree(s, g) && o in s && n in s && c <= s[o].number && c <= s[n].number
    requires a == AncestorAt(s, g, o, c) && b == AncestorAt(s, g, n, c) && a != b
    ensures c > 0 && PartAbove(s, g, o, n, c - 1)
  {
    SameRoot(s, g, a, b);
    DifferAbove(s, g, o, n, c - 1);
  }

  function IndexedHeight(n: nat, c: nat): nat {
    if n > c then n - 1 else n
  }

  /** Writing a block over the exact map of a chain that shares its path up to the parent. */
  lemma FinishCanon(s: Store, g: Hash, cur: Hash, b: Hash, c: nat)
    requires Tree(s, g) && cur in s && b in s && c <= s[b].number <= c + 1 && c <= s[cur].number
    requires AncestorAt(s, g, cur, c) == AncestorAt(s, g, b, c)
    ensures forall n :: 0 <= n <= s[b].number ==>
      n in PathTo(s, g, cur)[s[b].number := b] && PathTo(s, g, cur)[s[b].number := b][n] == AncestorAt(s, g, b, n)
  {
    forall n | 0 <= n < s[b].number
      ensures AncestorAt(s, g, cur, n) == AncestorAt(s, g, b, n)
    {
      AgreeBelow(s, g, cur, b, c, n);
    }
  }

  lemma FinishLookup(s: Store, bodies: Bodies, g: Hash, b: Hash, c: nat)
    requires Tree(s, g) && b in s && bodies.Keys == s.Keys && c <= s[b].number
    ensures AddTxs(TxIndex(s, bodies, g, AncestorAt(s, g, b, IndexedHeight(s[b].number, c))), bodies[b], s[b].number)
         == TxIndex(s, bodies, g, b)
  {
    if s[b].number > c {
      AncestorParent(s, g, b, s[b].number);
    } else {
      ReAddTxs(s, bodies, g, b);
    }
  }

  /** The new branch has two blocks or more just when the parent of its head is off the old path. */
  lemma LongBranch(s: Store, g: Hash, head: Hash, b: Hash, c: nat)
    requires Tree(s, g) && head in s && b in s && MeetAt(s, g, head, b, c)
    ensures s[b].number > 0 ==> s[b].parentHash in s
    ensures s[b].number >= c + 2 <==> s[b].number > 0 && !OnPath(s, g, head, s[b].parentHash)
  {
    assert Linked(s, g, b);
    if s[b].number > 0 {
      AncestorParent(s, g, b, s[b].number);
      if s[b].number <= c + 1 {
        AgreeBelow(s, g, head, b, c, s[b].number - 1);
      }
    }
  }

  /** `b` is lower than the head and its parent is canonical: the reorganisation that leaves stale entries. */
  ghost predicate ShortReorg(s: Store, g: Hash, head: Hash, b: Hash)
    requires Tree(s, g) && head in s && b in s
  {
    assert Linked(s, g, b);
    s[b].number < s[head].number && (s[b].number == 0 || OnPath(s, g, head, s[b].parentHash))
  }

  /** What `writeHeadBlock` completes after `reorg`, whose current block is `cur`. */
  lemma FinishReorg(s: Store, bodies: Bodies, g: Hash, head: Hash, cur: Hash, b: Hash, c: nat)
    requires Tree(s, g) && head in s && cur in s && b in s && bodies.Keys == s.Keys && MeetAt(s, g, head, b, c)
    requires cur == if s[b].number >= c + 2 then AncestorAt(s, g, b, s[b].number - 1) else head
    ensures b != ZERO_HASH && s[b].number <= s[cur].number + 1
    ensures forall n :: 0 <= n <= s[b].number ==>
      n in PathTo(s, g, cur)[s[b].number := b] && PathTo(s, g, cur)[s[b].number := b][n] == AncestorAt(s, g, b, n)
    ensures AddTxs(TxIndex(s, bodies, g, AncestorAt(s, g, b, IndexedHeight(s[b].number, c))), bodies[b], s[b].number)
         == TxIndex(s, bodies, g, b)
    ensures s[cur].number <= s[b].number <==> !ShortReorg(s, g, head, b)
    ensures ShortReorg(s, g, head, b) ==> cur == head
  {
    LongBranch(s, g, head, b, c);
    if s[b].number >= c + 2 {
      AncestorOfItself(s, g, cur);
      FinishCanon(s, g, cur, b, s[b].number - 1);
    } else {
      FinishCanon(s, g, head, b, c);
    }
    FinishLookup(s, bodies, g, b, c);
  }

  /** Is the map exact once `b` is the head, if its highest entry was at `top` before? */
  ghost predicate ExactAfter(s: Store, g: Hash, head: Hash, b: Hash, top: nat)
    requires Tree(s, g) && head in s && b in s
  {
    if s[b].parentHash == head then top <= s[b].number else !ShortReorg(s, g, head, b)
  }

  /** From an exact map the only loss is by a short reorganisation. */
  lemma ExactAfterExact(s: Store, g: Hash, head: Hash, b: Hash)
    requires Tree(s, g) && head in s && b in s && s[g].parentHash == ZERO_HASH
    ensures ExactAfter(s, g, head, b, s[head].number) <==> !ShortReorg(s, g, head, b)
  {
    if s[b].parentHash == head {
      ChildIsNoShortReorg(s, g, head, b);
    }
  }

  /** The map after a short reorganisation: the old chain with one entry overwritten. */
  ghost function Overwritten(s: Store, g: Hash, head: Hash, b: Hash): Canon
    requires Tree(s, g) && head in s && b in s
  {
    PathTo(s, g, head)[s[b].number := b]
  }

  lemma ChildIsNoShortReorg(s: Store, g: Hash, head: Hash, b: Hash)
    requires Tree(s, g) && head in s && b in s && s[b].parentHash == head && s[g].parentHash == ZERO_HASH
    ensures !ShortReorg(s, g, head, b) && s[b].number == s[head].number + 1
  {
    assert Linked(s, g, b);
  }

  /** What `writeHeadBlock` adds when the head moves to a child of itself. */
  lemma ChildIsNext(s: Store, bodies: Bodies, g: Hash, head: Hash, b: Hash)
    requires Tree(s, g) && head in s && b in s && bodies.Keys == s.Keys
    requires s[b].parentHash == head && s[g].parentHash == ZERO_HASH
    ensures b != ZERO_HASH && s[b].number == s[head].number + 1
    ensures forall n :: 0 <= n <= s[head].number ==> AncestorAt(s, g, head, n) == AncestorAt(s, g, b, n)
    ensures AncestorAt(s, g, b, s[b].number) == b
    ensures AddTxs(TxIndex(s, bodies, g, head), bodies[b], s[b].number) == TxIndex(s, bodies, g, b)
  {
    assert Linked(s, g, b);
    forall n | 0 <= n <= s[head].number
      ensures AncestorAt(s, g, head, n) == AncestorAt(s, g, b, n)
    {
      AncestorCompose(s, g, b, s[head].number, n);
    }
  }

  /** A block whose parent is stored can be added: no collision, and no transaction of its chain again. */
  ghost predicate AttachableBlock(s: Store, bodies: Bodies, g: Hash, b: Block)
    requires Tree(s, g) && bodies.Keys == s.Keys
  {
    && Attachable(s, b.header)
    && (b.header.hash in s ==> bodies[b.header.hash] == b.txs)
    && forall t :: t in b.txs ==> t !in TxIndex(s, bodies, g, b.header.parentHash)
  }

  lemma {:induction false} IndexKept(s: Store, bodies: Bodies, g: Hash, b: Block, h: Hash)
    requires Tree(s, g) && bodies.Keys == s.Keys && AttachableBlock(s, bodies, g, b) && h in s
    requires Tree(s[b.header.hash := b.header], g)
    ensures TxIndex(s[b.header.hash := b.header], bodies[b.header.hash := b.txs], g, h) == TxIndex(s, bodies, g, h)
    decreases s[h].number
  {
    assert Linked(s, g, h) && Linked(s[b.header.hash := b.header], g, h);
    if s[h].number > 0 {
      IndexKept(s, bodies, g, b, s[h].parentHash);
    }
  }

  /** Adding a block keeps the store a tree of blocks, and the path and the index of every stored block. */
  lemma AttachBlock(s: Store, bodies: Bodies, g: Hash, b: Block, head: Hash)
    requires Tree(s, g) && bodies.Keys == s.Keys && NoReplay(s, bodies, g) && AttachableBlock(s, bodies, g, b)
    requires head in s
    ensures var t, tb := s[b.header.hash := b.header], bodies[b.header.hash := b.txs];
      && Tree(t, g) && tb.Keys == t.Keys && NoReplay(t, tb, g)
      && TdMap(t, g) == TdMap(s, g)[b.header.hash := PathDifficulty(s, g, b.header.parentHash) + b.header.difficulty]
      && TxIndex(t, tb, g, head) == TxIndex(s, bodies, g, head)
      && PathTo(t, g, head) == PathTo(s, g, head)
  {
    var t, tb := s[b.header.hash := b.header], bodies[b.header.hash := b.txs];
    AttachDifficulty(s, g, b.header);
    forall h | h in t
      ensures FreshTxs(t, tb, g, h)
    {
      assert Linked(t, g, h);
      if h in s {
        assert Linked(s, g, h) && FreshTxs(s, bodies, g, h);
      }
      if t[h].number > 0 {
        IndexKept(s, bodies, g, b, t[h].parentHash);
      }
    }
    IndexKept(s, bodies, g, b, head);
    AttachKeepsTree(s, g, b.header, s[head].number);
    PathKept(s, t, g, head, s[head].number);
  }

  lemma PathEntries(s: Store, g: Hash, head: Hash)
    requires Tree(s, g) && head in s
    ensures forall n :: 0 <= n <= s[head].number ==>
      n in PathTo(s, g, head) && PathTo(s, g, head)[n] == AncestorAt(s, g, head, n)
  {
  }

  lemma BlockStored(db: Db, b: Block, td: nat)
    ensures var after := Write(db, [PutTd(b.header.hash, td)] + [PutBody(b.header.hash, b.txs)] + [PutHeader(b.header)]);
      after == db.(headers := db.headers[b.header.hash := b.header], tds := db.tds[b.header.hash := td],
                   bodies := db.bodies[b.header.hash := b.txs])
  {
    assert [] + [PutTd(b.header.hash, td)] == [PutTd(b.header.hash, td)];
    WriteAppend(db, [], PutTd(b.header.hash, td));
    WriteAppend(db, [PutTd(b.header.hash, td)], PutBody(b.header.hash, b.txs));
    WriteAppend(db, [PutTd(b.header.hash, td)] + [PutBody(b.header.hash, b.txs)], PutHeader(b.header));
  }
}
