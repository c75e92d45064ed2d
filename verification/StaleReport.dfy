/**
 What the canonical entry that a short reorganisation leaves does to the section indexer:
 a run of the indexer with sections of one block on the chain of `BlockChain.StaleEntry`.
 */
module StaleReport {
  import opened BlockTree
  import opened Wrappers
  import opened IndexerProofs
  import BlockChain

  const LIGHT_MAP: Canon := map[0 := 1, 1 := 2, 2 := 3]
  const START := System(EMPTY_INDEX, Idle, LIGHT_MAP)

  /** The four headers of the example. */
  function Headers(h: Hash): Header {
    if h == 2 then BlockChain.LIGHT1 else if h == 3 then BlockChain.LIGHT2
    else if h == 4 then BlockChain.HEAVY else BlockChain.ROOT
  }

  function LightHeads(k: nat): map<nat, Hash> {
    if k == 0 then map[] else LightHeads(k - 1)[k - 1 := k]
  }

  /** The first `k` of the three sections of the light chain are stored. */
  function Indexed(k: nat): System {
    System(Index(k, 3, if k == 0 then 0 else k - 1, LightHeads(k), k), Idle, LIGHT_MAP)
  }

  function OneSection(): seq<Action> {
    [Begin(Still(LIGHT_MAP)), Read(true, true), Commit(true), Finish(Still(LIGHT_MAP))]
  }

  lemma {:induction false} LightHead(k: nat, i: nat)
    requires i < k
    ensures i in LightHeads(k) && LightHeads(k)[i] == i + 1
    decreases k
  {
    if i < k - 1 {
      LightHead(k - 1, i);
    }
  }

  lemma NothingBelow(ix: Index, sections: nat)
    requires ix.stored <= sections
    ensures HeadsBelow(ix.heads, sections, ix.stored) == ix.heads
  {
  }

  function Begun(k: nat): System {
    Indexed(k).(phase := Reading(k, k, k, k))
  }

  function ReadOne(k: nat): System {
    Indexed(k).(phase := Reading(k, k, k + 1, k + 1))
  }

  function Committed(k: nat): System {
    Indexed(k).(phase := Done(k, k, Some(k + 1)))
  }

  lemma TopHead(k: nat)
    ensures k > 0 ==> SectionHead(Indexed(k).ix, k - 1) == k
  {
    if k > 0 {
      LightHead(k, k - 1);
    }
  }

  lemma TopIsCanonical(k: nat)
    requires k <= 3
    ensures k > 0 ==> HeadCanonical(Indexed(k).ix, LIGHT_MAP, 1, k - 1)
  {
    TopHead(k);
    hide LightHeads, Indexed, SectionHead;
    assert k == 0 || k == 1 || k == 2 || k == 3;
  }

  lemma BeginsAt(k: nat)
    requires k < 3
    ensures Enabled(Indexed(k), Begin(Still(LIGHT_MAP)), 1)
    ensures Step(Headers, Indexed(k), Begin(Still(LIGHT_MAP)), 1, 0) == Begun(k)
  {
    TopIsCanonical(k);
    TopHead(k);
    hide LightHeads, VerifyLast, HeadCanonical, SectionHead;
    VerifiedAtOnce(Indexed(k).ix, Still(LIGHT_MAP), 1);
    BeginStep(Indexed(k), Still(LIGHT_MAP));
  }

  lemma BeginStep(sys: System, view: View)
    requires Enabled(sys, Begin(view), 1) && VerifyLast(sys.ix, view, 1) == sys.ix
    ensures var h := if sys.ix.stored > 0 then SectionHead(sys.ix, sys.ix.stored - 1) else ZERO_HASH;
      Step(Headers, sys, Begin(view), 1, 0) == sys.(phase := Reading(sys.ix.stored, h, h, sys.ix.stored))
  {
    hide VerifyLast, SectionHead;
  }

  lemma ReadsAt(k: nat)
    requires k < 3
    ensures Enabled(Begun(k), Read(true, true), 1)
    ensures Step(Headers, Begun(k), Read(true, true), 1, 0) == ReadOne(k)
  {
    hide LightHeads;
  }

  lemma FinishesAt(k: nat)
    requires k < 3
    ensures Enabled(ReadOne(k), Commit(true), 1) && Enabled(Committed(k), Finish(Still(LIGHT_MAP)), 1)
    ensures Step(Headers, ReadOne(k), Commit(true), 1, 0) == Committed(k)
    ensures Step(Headers, Committed(k), Finish(Still(LIGHT_MAP)), 1, 0) == Indexed(k + 1)
  {
    TopHead(k);
    assert LightHeads(k + 1) == LightHeads(k)[k := k + 1];
    hide LightHeads, VerifyLast, HeadsBelow, SectionHead;
    FinishStep(Committed(k), Still(LIGHT_MAP));
  }

  lemma FinishStep(sys: System, view: View)
    requires sys.phase.Done? && sys.phase.result.Some? && sys.phase.section == sys.ix.stored
    requires sys.ix.stored > 0 ==> sys.phase.oldHead == SectionHead(sys.ix, sys.ix.stored - 1)
    ensures var k := sys.ix.stored;
      Step(Headers, sys, Finish(view), 1, 0) ==
      sys.(ix := Index(k + 1, sys.ix.known, k, sys.ix.heads[k := sys.phase.result.value], k + 1), phase := Idle)
  {
    var heads := sys.ix.heads[sys.ix.stored := sys.phase.result.value];
    NothingBelow(sys.ix.(heads := heads), sys.ix.stored + 1);
    hide VerifyLast, HeadsBelow;
  }

  lemma OneStep(sys: System, a: Action)
    requires Enabled(sys, a, 1)
    ensures Runs(Headers, sys, [a], 1, 0) && After(Headers, sys, [a], 1, 0) == Step(Headers, sys, a, 1, 0)
  {
    hide Step, Enabled;
    assert [a][1..] == [];
  }

  lemma Extend(start: System, a: seq<Action>, mid: System, b: seq<Action>, end: System)
    requires Runs(Headers, start, a, 1, 0) && After(Headers, start, a, 1, 0) == mid
    requires Runs(Headers, mid, b, 1, 0) && After(Headers, mid, b, 1, 0) == end
    ensures Runs(Headers, start, a + b, 1, 0) && After(Headers, start, a + b, 1, 0) == end
  {
    hide Runs, After;
    RunConcat(Headers, start, a, b, 1, 0);
  }

  lemma SectionIsAdded(k: nat)
    requires k < 3
    ensures Runs(Headers, Indexed(k), OneSection(), 1, 0)
    ensures After(Headers, Indexed(k), OneSection(), 1, 0) == Indexed(k + 1)
  {
    hide Runs, After, Step, Enabled, Indexed, Begun, ReadOne, Committed;
    BeginsAt(k);
    ReadsAt(k);
    FinishesAt(k);
    var a, b, c, d := Begin(Still(LIGHT_MAP)), Read(true, true), Commit(true), Finish(Still(LIGHT_MAP));
    OneStep(Indexed(k), a);
    OneStep(Begun(k), b);
    OneStep(ReadOne(k), c);
    OneStep(Committed(k), d);
    Extend(Indexed(k), [a], Begun(k), [b], ReadOne(k));
    Extend(Indexed(k), [a] + [b], ReadOne(k), [c], Committed(k));
    Extend(Indexed(k), [a] + [b] + [c], Committed(k), [d], Indexed(k + 1));
    assert OneSection() == [a] + [b] + [c] + [d];
  }

  /** The light chain is indexed, then the heavy block takes over, which is announced as a new head. */
  function StaleRun(): seq<Action> {
    [Announce(2, false)] + OneSection() + OneSection() + OneSection()
    + [ChainMoves(BlockChain.STALE_MAP)] + [Announce(1, false)]
  }

  /** The chain has moved on and the index has not. */
  function Outdated(): System {
    Indexed(3).(canon := BlockChain.STALE_MAP)
  }

  lemma OuterSteps()
    ensures Enabled(START, Announce(2, false), 1) && Enabled(Outdated(), Announce(1, false), 1)
    ensures Enabled(Indexed(3), ChainMoves(BlockChain.STALE_MAP), 1)
    ensures Step(Headers, START, Announce(2, false), 1, 0) == Indexed(0)
    ensures Step(Headers, Indexed(3), ChainMoves(BlockChain.STALE_MAP), 1, 0) == Outdated()
    ensures Step(Headers, Outdated(), Announce(1, false), 1, 0) == Outdated()
  {
    assert LightHeads(0) == map[];
    hide LightHeads;
  }

  lemma StaleRunEnds()
    ensures Runs(Headers, START, StaleRun(), 1, 0) && After(Headers, START, StaleRun(), 1, 0) == Outdated()
  {
    hide Runs, After, Step, Enabled, Indexed, OneSection, Outdated;
    OuterSteps();
    SectionIsAdded(0);
    SectionIsAdded(1);
    SectionIsAdded(2);
    var s := OneSection();
    var first, moves, last := Announce(2, false), ChainMoves(BlockChain.STALE_MAP), Announce(1, false);
    OneStep(START, first);
    OneStep(Indexed(3), moves);
    OneStep(Outdated(), last);
    Extend(START, [first], Indexed(0), s, Indexed(1));
    Extend(START, [first] + s, Indexed(1), s, Indexed(2));
    Extend(START, [first] + s + s, Indexed(2), s, Indexed(3));
    Extend(START, [first] + s + s + s, Indexed(3), [moves], Outdated());
    Extend(START, [first] + s + s + s + [moves], Outdated(), [last], Outdated());
  }

  /**
   The report after that run is stopped by the stale entry: it still names all three
   sections of the light chain, of which the second one is not canonical any more.  No
   reorganisation was announced, because the old head is still the canonical hash of its
   number.
   */
  lemma StaleSectionIsReported()
    ensures Runs(Headers, START, StaleRun(), 1, 0)
    ensures var sys := After(Headers, START, StaleRun(), 1, 0);
      && sys.canon == BlockChain.STALE_MAP
      && CanonicalHash(sys.canon, BlockChain.LIGHT2.number) == BlockChain.LIGHT2.hash
      && var reported := Step(Headers, sys, Report(Still(sys.canon)), 1, 0).ix;
      && reported.stored == 3 && HeadCanonical(reported, sys.canon, 1, 2)
      && SectionHead(reported, 1) == BlockChain.LIGHT1.hash && CanonicalHash(sys.canon, 1) == BlockChain.HEAVY.hash
      && !SectionsLinked(Headers, sys.canon, 1, reported.stored)
  {
    StaleRunEnds();
    LightHead(3, 1);
    LightHead(3, 2);
    var ix := Indexed(3).ix;
    hide Runs, After, LightHeads, StaleRun;
    assert VerifyLast(ix, Still(BlockChain.STALE_MAP), 1) == ix;
    assert !SectionLinked(Headers, BlockChain.STALE_MAP, 1, 2) by {
      assert Back(Headers, 3, 1) == Back(Headers, 2, 0) == 2;
    }
  }

  /** The map of that run is the one the block chain leaves. */
  method ChainLeavesStaleMap(coin: bool) returns (canon: Canon)
    ensures canon == BlockChain.STALE_MAP
  {
    var _, _, c := BlockChain.StaleEntry(coin);
    canon := c;
  }

  /** The map of a block chain is linked up to its head, whatever is left above. */
  lemma ChainIsLinked(bc: BlockChain.BlockChain, u: Universe)
    requires bc.Valid() && forall h :: h in bc.db.headers ==> u(h) == bc.db.headers[h]
    ensures LinkedBelow(u, bc.db.canon, bc.currentBlock.header.number + 1)
  {
    var s, g, head := bc.db.headers, bc.genesis.hash, bc.currentBlock.header.hash;
    forall n | n in bc.db.canon && 0 < n < bc.currentBlock.header.number + 1
      ensures n - 1 in bc.db.canon && u(bc.db.canon[n]).parentHash == bc.db.canon[n - 1]
    {
      AncestorParent(s, g, head, n);
    }
  }

  /** So a report on a block chain that does not reach above its head names only canonical sections. */
  lemma ReportBelowHead(bc: BlockChain.BlockChain, u: Universe, size: nat, ix: Index)
    requires bc.Valid() && forall h :: h in bc.db.headers ==> u(h) == bc.db.headers[h]
    requires size > 0 && IndexValid(u, size, ix)
    requires var v := VerifyLast(ix, Still(bc.db.canon), size); v.stored * size <= bc.currentBlock.header.number + 1
    ensures AllCanonical(VerifyLast(ix, Still(bc.db.canon), size), bc.db.canon, size)
  {
    ChainIsLinked(bc, u);
    VerifiedIsCanonical(u, size, ix, Still(bc.db.canon));
  }
}
