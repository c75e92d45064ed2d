/**
 The section indexer as a system of atomic steps.  The lock is dropped while a section is
 read, so between any two reads the canonical map may change in any way, reorganisations
 may be announced or go unannounced, callers may ask for the finished sections, and the
 process may die between any two writes.  The invariant says what nevertheless always
 holds of the stored section heads.
 */
module IndexerProofs {
  import opened BlockTree
  import opened Wrappers

  /** The index: how many sections are stored and known, and the database behind the count. */
  datatype Index = Index(stored: nat, known: nat, cascaded: nat, heads: map<nat, Hash>, count: nat)

  const EMPTY_INDEX := Index(0, 0, 0, map[], 0)

  /** Every header there can be, found by its hash: hashes are injective. */
  type Universe = Hash -> Header

  /** The canonical map as it is at each comparison of a rollback, by the number of sections then stored. */
  type View = nat -> Canon

  /** A map that stays the same all the while. */
  function Still(canon: Canon): View {
    (_: nat) => canon
  }

  function SectionHead(ix: Index, section: nat): Hash {
    if section in ix.heads then ix.heads[section] else ZERO_HASH
  }

  /** The section heads from `from` up to the stored ones removed. */
  function HeadsBelow(heads: map<nat, Hash>, from: nat, stored: nat): map<nat, Hash> {
    heads - set k | k in heads && from <= k < stored
  }

  function SetValid(ix: Index, sections: nat): Index {
    ix.(stored := sections, heads := HeadsBelow(ix.heads, sections, ix.stored), count := sections)
  }

  /** The number of the last block of a section. */
  function LastBlock(section: nat, size: nat): nat
    requires size > 0
  {
    assert (section + 1) * size >= size;
    (section + 1) * size - 1
  }

  /** Rolls back from the top until the last stored head is canonical when it is looked at. */
  function VerifyLast(ix: Index, view: View, size: nat): Index
    requires size > 0
    decreases ix.stored
  {
    if ix.stored == 0
       || SectionHead(ix, ix.stored - 1) == CanonicalHash(view(ix.stored), LastBlock(ix.stored - 1, size))
    then ix
    else VerifyLast(SetValid(ix, ix.stored - 1), view, size)
  }

  /** What `newHead` makes of an announcement, with no checkpoint and no children. */
  function Notified(ix: Index, head: nat, reorg: bool, size: nat, confirms: nat): Index
    requires size > 0
  {
    if reorg then
      var known := (head + 1) / size;
      var rolled := if known < ix.stored then SetValid(ix, known) else ix;
      rolled.(known := if known < ix.known then known else ix.known,
              cascaded := if known * size < ix.cascaded then known * size else ix.cascaded)
    else if head >= confirms && (head + 1 - confirms) / size > ix.known then
      ix.(known := (head + 1 - confirms) / size)
    else ix
  }

  /** The last step of an update: commit if nothing was rolled back meanwhile, else start over. */
  function Finished(ix: Index, section: nat, oldHead: Hash, result: Option<Hash>, view: View, size: nat): Index
    requires size > 0
  {
    if result.Some? && (section == 0 || oldHead == SectionHead(ix, section - 1)) then
      var added := SetValid(ix.(heads := ix.heads[section := result.value]), section + 1);
      added.(cascaded := LastBlock(section, size))
    else
      var verified := VerifyLast(ix, view, size);
      verified.(known := verified.stored)
  }

  /** `n` steps along the parent links. */
  ghost function Back(u: Universe, h: Hash, n: nat): Hash
    decreases n
  {
    if n == 0 then h else Back(u, u(h).parentHash, n - 1)
  }

  /** `head` ends a whole section that starts right above `below`. */
  ghost predicate SectionOver(u: Universe, size: nat, section: nat, head: Hash, below: Hash) {
    size > 0 && head != ZERO_HASH && u(head).number == LastBlock(section, size) && Back(u, head, size) == below
  }

  ghost function HeadBelow(ix: Index, section: nat): Hash {
    if section == 0 then ZERO_HASH else SectionHead(ix, section - 1)
  }

  ghost predicate HeadValid(u: Universe, size: nat, ix: Index, k: nat) {
    SectionOver(u, size, k, SectionHead(ix, k), HeadBelow(ix, k))
  }

  /** Every stored section has a head, which builds on the one below. */
  ghost predicate IndexValid(u: Universe, size: nat, ix: Index) {
    && ix.count == ix.stored
    && (forall k: nat :: k < ix.stored ==> HeadValid(u, size, ix, k))
  }

  /** No heads are left over above the stored sections. */
  ghost predicate Tight(ix: Index) {
    forall k: nat :: k in ix.heads ==> k < ix.stored
  }

  /** The first `n` heads are the same. */
  ghost predicate SameHeads(a: Index, b: Index, n: nat) {
    forall k: nat :: k < n ==> SectionHead(a, k) == SectionHead(b, k)
  }

  /** An index with fewer of the same heads is as good. */
  lemma ShorterIsValid(u: Universe, size: nat, ix: Index, shorter: Index)
    requires IndexValid(u, size, ix) && shorter.stored <= ix.stored && shorter.count == shorter.stored
    requires SameHeads(shorter, ix, shorter.stored)
    ensures IndexValid(u, size, shorter)
  {
    forall k: nat | k < shorter.stored
      ensures HeadValid(u, size, shorter, k)
    {
      assert HeadValid(u, size, ix, k);
      assert HeadBelow(shorter, k) == HeadBelow(ix, k);
    }
  }

  lemma SetValidKeeps(u: Universe, size: nat, ix: Index, sections: nat)
    requires IndexValid(u, size, ix) && sections <= ix.stored
    ensures IndexValid(u, size, SetValid(ix, sections))
    ensures SameHeads(SetValid(ix, sections), ix, sections)
  {
    ShorterIsValid(u, size, ix, SetValid(ix, sections));
  }

  /** Parent links connect the neighbouring entries of the canonical map below `limit`; above it anything may be left. */
  ghost predicate LinkedBelow(u: Universe, canon: Canon, limit: nat) {
    forall n :: n in canon && 0 < n < limit ==> n - 1 in canon && u(canon[n]).parentHash == canon[n - 1]
  }

  ghost predicate HeadCanonical(ix: Index, canon: Canon, size: nat, k: nat)
    requires size > 0
  {
    LastBlock(k, size) in canon && SectionHead(ix, k) == canon[LastBlock(k, size)]
  }

  ghost predicate AllCanonical(ix: Index, canon: Canon, size: nat)
    requires size > 0
  {
    forall k: nat :: k < ix.stored ==> HeadCanonical(ix, canon, size, k)
  }

  /** `size` parent steps lead from the end of section `k` on the map to the end of the one below. */
  ghost predicate SectionLinked(u: Universe, canon: Canon, size: nat, k: nat)
    requires size > 0 && k > 0
  {
    && LastBlock(k, size) in canon && LastBlock(k - 1, size) in canon
    && Back(u, canon[LastBlock(k, size)], size) == canon[LastBlock(k - 1, size)]
  }

  /** The same for the first `sections` sections. */
  ghost predicate SectionsLinked(u: Universe, canon: Canon, size: nat, sections: nat)
    requires size > 0
  {
    forall k: nat :: 0 < k < sections ==> SectionLinked(u, canon, size, k)
  }

  lemma {:induction false} CanonBack(u: Universe, canon: Canon, n: nat, m: nat)
    requires LinkedBelow(u, canon, n + 1) && n in canon && m <= n
    ensures n - m in canon && Back(u, canon[n], m) == canon[n - m]
    decreases m
  {
    if m > 0 {
      CanonBack(u, canon, n - 1, m - 1);
    }
  }

  lemma SectionBelow(k: nat, size: nat)
    requires size > 0 && k > 0
    ensures LastBlock(k, size) - size == LastBlock(k - 1, size)
    ensures LastBlock(k, size) + 1 == (k + 1) * size
  {
  }

  /** One canonical head on a map that is linked below it makes all heads below canonical. */
  lemma {:induction false} HeadsBelowCanonical(u: Universe, size: nat, ix: Index, canon: Canon, top: nat, k: nat)
    requires size > 0 && IndexValid(u, size, ix) && LinkedBelow(u, canon, LastBlock(top, size) + 1)
    requires k <= top < ix.stored && HeadCanonical(ix, canon, size, top)
    ensures HeadCanonical(ix, canon, size, k)
    decreases top
  {
    if k < top {
      assert HeadValid(u, size, ix, top);
      SectionBelow(top, size);
      CanonBack(u, canon, LastBlock(top, size), size);
      HeadsBelowCanonical(u, size, ix, canon, top - 1, k);
    }
  }

  /** One canonical head makes all heads below it canonical, if the sections are linked on the map. */
  lemma {:induction false} LinkedSectionsAreCanonical(u: Universe, size: nat, ix: Index, canon: Canon, top: nat, k: nat)
    requires size > 0 && IndexValid(u, size, ix) && SectionsLinked(u, canon, size, top + 1)
    requires k <= top < ix.stored && HeadCanonical(ix, canon, size, top)
    ensures HeadCanonical(ix, canon, size, k)
    decreases top
  {
    if k < top {
      assert HeadValid(u, size, ix, top) && SectionLinked(u, canon, size, top);
      LinkedSectionsAreCanonical(u, size, ix, canon, top - 1, k);
    }
  }

  /**
   The single comparison with the top head is enough exactly if the stored sections are
   linked on the map.
   */
  lemma CanonicalExactly(u: Universe, size: nat, ix: Index, canon: Canon)
    requires size > 0 && IndexValid(u, size, ix)
    requires ix.stored > 0 ==> HeadCanonical(ix, canon, size, ix.stored - 1)
    ensures AllCanonical(ix, canon, size) <==> SectionsLinked(u, canon, size, ix.stored)
    ensures LinkedBelow(u, canon, ix.stored * size) ==> AllCanonical(ix, canon, size)
  {
    hide LastBlock, Back;
    if SectionsLinked(u, canon, size, ix.stored) {
      forall k: nat | k < ix.stored
        ensures HeadCanonical(ix, canon, size, k)
      {
        LinkedSectionsAreCanonical(u, size, ix, canon, ix.stored - 1, k);
      }
    }
    if AllCanonical(ix, canon, size) {
      forall k: nat | 0 < k < ix.stored
        ensures SectionLinked(u, canon, size, k)
      {
        assert HeadValid(u, size, ix, k) && HeadCanonical(ix, canon, size, k) && HeadCanonical(ix, canon, size, k - 1);
      }
    }
    if LinkedBelow(u, canon, ix.stored * size) {
      forall k: nat | k < ix.stored
        ensures HeadCanonical(ix, canon, size, k)
      {
        LimitOfSections(ix.stored, size);
        HeadsBelowCanonical(u, size, ix, canon, ix.stored - 1, k);
      }
    }
  }

  lemma LimitOfSections(sections: nat, size: nat)
    requires size > 0 && sections > 0
    ensures LastBlock(sections - 1, size) + 1 == sections * size
  {
  }

  lemma VerifiedAtOnce(ix: Index, view: View, size: nat)
    requires size > 0 && (ix.stored > 0 ==> HeadCanonical(ix, view(ix.stored), size, ix.stored - 1))
    ensures VerifyLast(ix, view, size) == ix
  {
  }

  /** Rolling back in two steps is rolling back in one. */
  lemma SetValidTwice(ix: Index, between: nat, sections: nat)
    requires sections <= between <= ix.stored
    ensures SetValid(SetValid(ix, between), sections) == SetValid(ix, sections)
  {
    assert HeadsBelow(HeadsBelow(ix.heads, between, ix.stored), sections, between)
        == HeadsBelow(ix.heads, sections, ix.stored);
  }

  lemma SetValidAll(ix: Index)
    requires ix.count == ix.stored
    ensures SetValid(ix, ix.stored) == ix
  {
  }

  /** The comparison with `k + 1` sections stored: is the head of the last of them canonical then? */
  ghost predicate FoundCanonical(ix: Index, view: View, size: nat, k: nat)
    requires size > 0
  {
    HeadCanonical(ix, view(k + 1), size, k)
  }

  /**
   `v` has lost exactly the sections of `ix` from `v.stored` up: each of them when its head
   was not canonical, and the last one left is canonical, each on the map at that moment.
   */
  ghost predicate RolledBack(ix: Index, v: Index, view: View, size: nat)
    requires size > 0
  {
    && v.stored <= ix.stored && v == SetValid(ix, v.stored)
    && (v.stored > 0 ==> FoundCanonical(v, view, size, v.stored - 1))
    && (forall k: nat :: v.stored <= k < ix.stored ==> !FoundCanonical(ix, view, size, k))
  }

  lemma RollFurther(ix: Index, mid: Index, v: Index, view: View, size: nat)
    requires size > 0 && ix.stored > 0 && mid == SetValid(ix, ix.stored - 1)
    requires !FoundCanonical(ix, view, size, ix.stored - 1)
    requires RolledBack(mid, v, view, size)
    ensures RolledBack(ix, v, view, size)
  {
    hide LastBlock;
    SetValidTwice(ix, ix.stored - 1, v.stored);
    forall k: nat | v.stored <= k < ix.stored
      ensures !FoundCanonical(ix, view, size, k)
    {
      if k < mid.stored {
        assert !FoundCanonical(mid, view, size, k);
        assert SectionHead(mid, k) == SectionHead(ix, k);
      }
    }
  }

  /** `verifyLastHead`, whatever happens to the canonical map meanwhile: a rollback to a head found canonical. */
  lemma {:induction false} VerifyRollsBack(u: Universe, size: nat, ix: Index, view: View)
    requires size > 0 && IndexValid(u, size, ix)
    ensures IndexValid(u, size, VerifyLast(ix, view, size))
    ensures RolledBack(ix, VerifyLast(ix, view, size), view, size)
    decreases ix.stored
  {
    SetValidAll(ix);
    if ix.stored > 0 {
      assert HeadValid(u, size, ix, ix.stored - 1);
      hide SetValid, HeadValid, HeadsBelow;
      if SectionHead(ix, ix.stored - 1) != CanonicalHash(view(ix.stored), LastBlock(ix.stored - 1, size)) {
        SetValidKeeps(u, size, ix, ix.stored - 1);
        VerifyRollsBack(u, size, SetValid(ix, ix.stored - 1), view);
        RollFurther(ix, SetValid(ix, ix.stored - 1), VerifyLast(ix, view, size), view, size);
      }
    }
  }

  /**
   The whole index is canonical on the map of the last comparison exactly if the sections
   left are linked on it; parent links up to the last block of them are enough.
   */
  lemma VerifiedIsCanonical(u: Universe, size: nat, ix: Index, view: View)
    requires size > 0 && IndexValid(u, size, ix)
    ensures var v := VerifyLast(ix, view, size);
      var canon := view(v.stored);
      && (AllCanonical(v, canon, size) <==> SectionsLinked(u, canon, size, v.stored))
      && (LinkedBelow(u, canon, v.stored * size) ==> AllCanonical(v, canon, size))
  {
    VerifyRollsBack(u, size, ix, view);
    var v := VerifyLast(ix, view, size);
    hide VerifyLast, IndexValid, AllCanonical, SectionsLinked, LinkedBelow, LastBlock;
    CanonicalExactly(u, size, v, view(v.stored));
  }

  /** Every canonical section of `ix` is among the first `left`. */
  ghost predicate NoneMissing(ix: Index, left: nat, canon: Canon, size: nat)
    requires size > 0
  {
    forall k: nat :: k < ix.stored && HeadCanonical(ix, canon, size, k) ==> k < left
  }

  /** Those are canonical without exception. */
  ghost predicate OnlyCanonical(ix: Index, left: nat, canon: Canon, size: nat)
    requires size > 0
  {
    forall k: nat :: k < left ==> k < ix.stored && HeadCanonical(ix, canon, size, k)
  }

  /**
   On a map that stays the same, the comparison that stops the rollback is enough exactly
   if the sections left are linked on it: then just those whose heads are canonical
   survive.  Canonical ones are not lost in any case.
   */
  lemma VerifyKeepsCanonical(u: Universe, size: nat, ix: Index, canon: Canon)
    requires size > 0 && IndexValid(u, size, ix)
    ensures var left := VerifyLast(ix, Still(canon), size).stored;
      && NoneMissing(ix, left, canon, size)
      && (OnlyCanonical(ix, left, canon, size) <==> SectionsLinked(u, canon, size, left))
      && (LinkedBelow(u, canon, left * size) ==> OnlyCanonical(ix, left, canon, size))
  {
    VerifyRollsBack(u, size, ix, Still(canon));
    VerifiedIsCanonical(u, size, ix, Still(canon));
    var v := VerifyLast(ix, Still(canon), size);
    hide VerifyLast, IndexValid, LastBlock, LinkedBelow, SectionsLinked;
    forall k: nat | k < ix.stored && HeadCanonical(ix, canon, size, k)
      ensures k < v.stored
    {
      assert k < v.stored || !FoundCanonical(ix, Still(canon), size, k);
    }
    forall k: nat | k < v.stored
      ensures HeadCanonical(v, canon, size, k) <==> HeadCanonical(ix, canon, size, k)
    {
      assert SectionHead(v, k) == SectionHead(ix, k);
    }
  }

  /** What the update loop is doing while others hold the lock. */
  datatype Phase =
    | Idle
    | Reading(section: nat, oldHead: Hash, last: Hash, number: nat)
    | Done(section: nat, oldHead: Hash, result: Option<Hash>)

  datatype System = System(ix: Index, phase: Phase, canon: Canon)

  datatype Action =
    | ChainMoves(canon: Canon)              // the chain database changes, in any way
    | Announce(head: nat, reorg: bool)      // `newHead`
    | Report(view: View)                    // `Sections`
    | Begin(view: View)                     // the update loop takes up a section
    | ResetFails                            // the backend refuses the section
    | Read(available: bool, accepted: bool) // the next header: is it found, does the backend take it?
    | Commit(accepted: bool)                // the backend commits the section, or fails
    | Finish(view: View)                    // the update loop takes the lock again
    | Restart                               // the process is started again on the same database
    | Crash(count: nat, heads: map<nat, Hash>) // the same after it died between two writes of a step

  predicate Enabled(sys: System, a: Action, size: nat) {
    match a
    case Begin(_) => sys.phase.Idle? && sys.ix.known > sys.ix.stored
    case ResetFails => sys.phase.Reading? && sys.phase.number == sys.phase.section * size
    case Read(_, _) => sys.phase.Reading? && sys.phase.number < (sys.phase.section + 1) * size
    case Commit(_) => sys.phase.Reading? && sys.phase.number == (sys.phase.section + 1) * size
    case Finish(_) => sys.phase.Done?
    case Crash(count, heads) => Survives(sys.ix, count, heads)
    case _ => true
  }

  /** What a crash leaves: a count that is not higher, the heads below it, and anything above. */
  predicate Survives(ix: Index, count: nat, heads: map<nat, Hash>) {
    count <= ix.stored && forall k: nat | k < count :: k in heads && k in ix.heads && heads[k] == ix.heads[k]
  }

  /** The index of a new process on a database. */
  function Loaded(count: nat, heads: map<nat, Hash>): Index {
    Index(count, 0, 0, heads, count)
  }

  /** One turn of the loop in `processSection`. */
  ghost function ReadStep(u: Universe, sys: System, available: bool, accepted: bool): Phase
    requires sys.phase.Reading?
  {
    var Reading(section, oldHead, last, number) := sys.phase;
    var hash := CanonicalHash(sys.canon, number);
    if hash == ZERO_HASH || !available || u(hash).number != number || u(hash).parentHash != last || !accepted
    then Done(section, oldHead, None)
    else Reading(section, oldHead, hash, number + 1)
  }

  ghost function Step(u: Universe, sys: System, a: Action, size: nat, confirms: nat): System
    requires size > 0 && Enabled(sys, a, size)
  {
    match a
    case ChainMoves(canon) => sys.(canon := canon)
    case Announce(head, reorg) => sys.(ix := Notified(sys.ix, head, reorg, size, confirms))
    case Report(view) => sys.(ix := VerifyLast(sys.ix, view, size))
    case Begin(view) =>
      var v := VerifyLast(sys.ix, view, size);
      var oldHead := if v.stored > 0 then SectionHead(v, v.stored - 1) else ZERO_HASH;
      System(v, Reading(v.stored, oldHead, oldHead, v.stored * size), sys.canon)
    case ResetFails => sys.(ix := SetValid(sys.ix, 0), phase := Done(sys.phase.section, sys.phase.oldHead, None))
    case Read(available, accepted) => sys.(phase := ReadStep(u, sys, available, accepted))
    case Commit(accepted) =>
      sys.(phase := Done(sys.phase.section, sys.phase.oldHead, if accepted then Some(sys.phase.last) else None))
    case Finish(view) =>
      System(Finished(sys.ix, sys.phase.section, sys.phase.oldHead, sys.phase.result, view, size), Idle, sys.canon)
    case Restart => System(Loaded(sys.ix.count, sys.ix.heads), Idle, sys.canon)
    case Crash(count, heads) => System(Loaded(count, heads), Idle, sys.canon)
  }

  /** The section in flight goes on from `oldHead`, which is still the top head unless something was rolled back. */
  ghost predicate BuiltOn(ix: Index, section: nat, oldHead: Hash) {
    && ix.stored <= section
    && (section > 0 ==> oldHead != ZERO_HASH)
    && (ix.stored == section ==> oldHead == HeadBelow(ix, section))
    && (ix.stored < section ==> SectionHead(ix, section - 1) == ZERO_HASH)
  }

  ghost predicate PhaseValid(u: Universe, size: nat, ix: Index, phase: Phase) {
    match phase
    case Idle => true
    case Reading(section, oldHead, last, number) =>
      && BuiltOn(ix, section, oldHead)
      && section * size <= number <= (section + 1) * size
      && Back(u, last, number - section * size) == oldHead
      && (number > section * size ==> last != ZERO_HASH && u(last).number == number - 1)
    case Done(section, oldHead, result) =>
      && BuiltOn(ix, section, oldHead)
      && (result.Some? ==> SectionOver(u, size, section, result.value, oldHead))
  }

  /** The invariant of the indexer. */
  ghost predicate SystemValid(u: Universe, size: nat, sys: System) {
    IndexValid(u, size, sys.ix) && PhaseValid(u, size, sys.ix, sys.phase)
  }

  /** Rolling back keeps whatever section is in flight. */
  lemma RollbackKeeps(u: Universe, size: nat, ix: Index, shorter: Index, phase: Phase)
    requires PhaseValid(u, size, ix, phase) && shorter.stored <= ix.stored
    requires shorter.heads == HeadsBelow(ix.heads, shorter.stored, ix.stored)
    ensures PhaseValid(u, size, shorter, phase)
  {
  }

  /** A missing canonical hash, a missing header, a wrong parent or a refusal ends the section without a result. */
  lemma ReadStops(u: Universe, sys: System, available: bool, accepted: bool)
    requires sys.phase.Reading?
    requires var hash := CanonicalHash(sys.canon, sys.phase.number);
      hash == ZERO_HASH || !available || !accepted || u(hash).parentHash != sys.phase.last
    ensures ReadStep(u, sys, available, accepted) == Done(sys.phase.section, sys.phase.oldHead, None)
  {
  }

  /**
   The chain may move, be announced and be reported on, and the process may be restarted, at
   any time; a section is taken up when nothing is in flight and more is known than stored.
   */
  lemma AnyTime(sys: System, canon: Canon, head: nat, reorg: bool, view: View, size: nat)
    ensures Enabled(sys, ChainMoves(canon), size) && Enabled(sys, Announce(head, reorg), size)
    ensures Enabled(sys, Report(view), size) && Enabled(sys, Restart, size)
    ensures Enabled(sys, Begin(view), size) <==> sys.phase.Idle? && sys.ix.known > sys.ix.stored
  {
  }

  lemma ReadKeeps(u: Universe, size: nat, sys: System, available: bool, accepted: bool)
    requires size > 0 && SystemValid(u, size, sys) && Enabled(sys, Read(available, accepted), size)
    ensures PhaseValid(u, size, sys.ix, ReadStep(u, sys, available, accepted))
  {
  }

  /** The section in flight is still the next one just when the head it was built on is still there. */
  lemma StillNext(u: Universe, size: nat, ix: Index, section: nat, oldHead: Hash)
    requires IndexValid(u, size, ix) && BuiltOn(ix, section, oldHead)
    ensures section == 0 || oldHead == SectionHead(ix, section - 1) <==> ix.stored == section
  {
  }

  /** A section is committed just when it succeeded and nothing below it was rolled back meanwhile. */
  lemma FinishCommits(u: Universe, size: nat, sys: System, view: View)
    requires size > 0 && SystemValid(u, size, sys) && sys.phase.Done?
    ensures var after := Finished(sys.ix, sys.phase.section, sys.phase.oldHead, sys.phase.result, view, size);
      && IndexValid(u, size, after)
      && (if sys.phase.result.Some? && sys.ix.stored == sys.phase.section
          then after.stored == sys.ix.stored + 1 && SectionHead(after, sys.ix.stored) == sys.phase.result.value
               && after.heads == sys.ix.heads[sys.ix.stored := sys.phase.result.value]
               && after.known == sys.ix.known && after.cascaded == (sys.ix.stored + 1) * size - 1
          else after == VerifyLast(sys.ix, view, size).(known := after.stored))
  {
    var Done(section, oldHead, result) := sys.phase;
    StillNext(u, size, sys.ix, section, oldHead);
    var after := Finished(sys.ix, section, oldHead, result, view, size);
    if result.Some? && sys.ix.stored == section {
      CommitIsValid(u, size, sys.ix, result.value);
      ShorterIsValid(u, size, after.(cascaded := sys.ix.cascaded), after);
    } else {
      VerifyRollsBack(u, size, sys.ix, view);
      ShorterIsValid(u, size, VerifyLast(sys.ix, view, size), after);
    }
  }

  lemma CommitIsValid(u: Universe, size: nat, ix: Index, head: Hash)
    requires IndexValid(u, size, ix) && SectionOver(u, size, ix.stored, head, HeadBelow(ix, ix.stored))
    ensures var after := SetValid(ix.(heads := ix.heads[ix.stored := head]), ix.stored + 1);
      && IndexValid(u, size, after) && after.heads == ix.heads[ix.stored := head]
      && after.stored == ix.stored + 1
  {
    var after := SetValid(ix.(heads := ix.heads[ix.stored := head]), ix.stored + 1);
    forall k: nat | k < after.stored
      ensures HeadValid(u, size, after, k)
    {
      assert HeadBelow(after, k) == HeadBelow(ix, k);
      assert k < ix.stored ==> HeadValid(u, size, ix, k);
    }
  }

  lemma NotifyKeeps(u: Universe, size: nat, ix: Index, head: nat, reorg: bool, confirms: nat)
    requires size > 0 && IndexValid(u, size, ix)
    ensures var n := Notified(ix, head, reorg, size, confirms);
      && IndexValid(u, size, n) && n.stored <= ix.stored
      && n.heads == HeadsBelow(ix.heads, n.stored, ix.stored)
  {
    SetValidAll(ix);
    ShorterIsValid(u, size, ix, Notified(ix, head, reorg, size, confirms));
  }

  /** Every step keeps the invariant, a crash between two writes too. */
  lemma StepKeeps(u: Universe, size: nat, confirms: nat, sys: System, a: Action)
    requires size > 0 && SystemValid(u, size, sys) && Enabled(sys, a, size)
    ensures SystemValid(u, size, Step(u, sys, a, size, confirms))
  {
    hide IndexValid, PhaseValid, Finished, Notified, VerifyLast, ReadStep, HeadsBelow, HeadCanonical;
    match a
    case ChainMoves(_) =>
    case Announce(head, reorg) =>
      NotifyKeeps(u, size, sys.ix, head, reorg, confirms);
      RollbackKeeps(u, size, sys.ix, Notified(sys.ix, head, reorg, size, confirms), sys.phase);
    case Report(view) =>
      VerifyRollsBack(u, size, sys.ix, view);
      RollbackKeeps(u, size, sys.ix, VerifyLast(sys.ix, view, size), sys.phase);
    case Begin(view) =>
      VerifyRollsBack(u, size, sys.ix, view);
      BeginKeeps(u, size, VerifyLast(sys.ix, view, size));
    case ResetFails =>
      SetValidKeeps(u, size, sys.ix, 0);
      ResetKeeps(u, size, sys.ix, sys.phase);
    case Read(available, accepted) =>
      ReadKeeps(u, size, sys, available, accepted);
    case Commit(accepted) =>
      CommitKeeps(u, size, sys.ix, sys.phase, accepted);
    case Finish(view) =>
      FinishCommits(u, size, sys, view);
      IdleIsValid(u, size, Step(u, sys, a, size, confirms).ix);
    case Restart =>
      LoadedIsValid(u, size, sys.ix, sys.ix.count, sys.ix.heads);
    case Crash(count, heads) =>
      LoadedIsValid(u, size, sys.ix, count, heads);
  }

  lemma BeginKeeps(u: Universe, size: nat, ix: Index)
    requires size > 0 && IndexValid(u, size, ix)
    ensures var oldHead := HeadBelow(ix, ix.stored);
      PhaseValid(u, size, ix, Reading(ix.stored, oldHead, oldHead, ix.stored * size))
  {
    if ix.stored > 0 {
      assert HeadValid(u, size, ix, ix.stored - 1);
    }
    assert Back(u, HeadBelow(ix, ix.stored), 0) == HeadBelow(ix, ix.stored);
  }

  lemma ResetKeeps(u: Universe, size: nat, ix: Index, phase: Phase)
    requires PhaseValid(u, size, ix, phase) && phase.Reading?
    ensures PhaseValid(u, size, SetValid(ix, 0), Done(phase.section, phase.oldHead, None))
  {
  }

  lemma CommitKeeps(u: Universe, size: nat, ix: Index, phase: Phase, accepted: bool)
    requires size > 0 && PhaseValid(u, size, ix, phase) && phase.Reading?
    requires phase.number == (phase.section + 1) * size
    ensures PhaseValid(u, size, ix, Done(phase.section, phase.oldHead, if accepted then Some(phase.last) else None))
  {
    assert (phase.section + 1) * size - phase.section * size == size;
  }

  lemma IdleIsValid(u: Universe, size: nat, ix: Index)
    ensures PhaseValid(u, size, ix, Idle)
  {
  }

  lemma LoadedIsValid(u: Universe, size: nat, ix: Index, count: nat, heads: map<nat, Hash>)
    requires IndexValid(u, size, ix) && (Survives(ix, count, heads) || (count == ix.count && heads == ix.heads))
    ensures IndexValid(u, size, Loaded(count, heads)) && PhaseValid(u, size, Loaded(count, heads), Idle)
  {
    ShorterIsValid(u, size, ix, Loaded(count, heads));
  }

  /**
   Every point of a rollback is one where a crash is allowed for: the count is written
   first, then the heads go from the top, and a rollback may follow another (`mid`).
   */
  lemma PartialRollback(u: Universe, size: nat, ix: Index, mid: nat, sections: nat, top: nat)
    requires IndexValid(u, size, ix) && sections <= top <= mid <= ix.stored
    ensures Survives(ix, sections, HeadsBelow(SetValid(ix, mid).heads, top, mid))
  {
    forall k: nat | k < sections
      ensures k in ix.heads
    {
      assert HeadValid(u, size, ix, k);
    }
  }

  /** So is the point of a commit at which the head is written and the count is not. */
  lemma PartialCommit(u: Universe, size: nat, ix: Index, head: Hash)
    requires IndexValid(u, size, ix)
    ensures Survives(ix, ix.count, ix.heads[ix.stored := head])
  {
    PartialRollback(u, size, ix, ix.stored, ix.stored, ix.stored);
  }

  /** Without crashes no head is ever left over. */
  lemma StepKeepsTight(u: Universe, size: nat, confirms: nat, sys: System, a: Action)
    requires size > 0 && SystemValid(u, size, sys) && Enabled(sys, a, size)
    requires Tight(sys.ix) && !a.Crash?
    ensures Tight(Step(u, sys, a, size, confirms).ix)
  {
    hide IndexValid, PhaseValid, Finished, Notified, VerifyLast, ReadStep, HeadCanonical;
    match a
    case Announce(head, reorg) => NotifyKeeps(u, size, sys.ix, head, reorg, confirms);
    case Report(view) => VerifyRollsBack(u, size, sys.ix, view);
    case Begin(view) => VerifyRollsBack(u, size, sys.ix, view);
    case Finish(view) =>
      FinishCommits(u, size, sys, view);
      VerifyRollsBack(u, size, sys.ix, view);
    case Restart => assert sys.ix.count == sys.ix.stored by { CountIsStored(u, size, sys.ix); }
    case _ =>
  }

  /** Heads exist exactly for the stored sections. */
  ghost predicate HeadsExact(ix: Index) {
    forall k: nat :: k in ix.heads <==> k < ix.stored
  }

  predicate NoCrash(run: seq<Action>) {
    forall i :: 0 <= i < |run| ==> !run[i].Crash?
  }

  /** So in every state of a run without crashes the heads are exactly those of the stored sections. */
  lemma {:induction false} RunKeepsTight(u: Universe, size: nat, confirms: nat, sys: System, run: seq<Action>)
    requires size > 0 && SystemValid(u, size, sys) && Runs(u, sys, run, size, confirms)
    requires Tight(sys.ix) && NoCrash(run)
    ensures HeadsExact(After(u, sys, run, size, confirms).ix)
    decreases |run|
  {
    if run != [] {
      StepKeeps(u, size, confirms, sys, run[0]);
      StepKeepsTight(u, size, confirms, sys, run[0]);
      hide Step, Enabled, SystemValid, Tight, HeadsExact;
      RunKeepsTight(u, size, confirms, Step(u, sys, run[0], size, confirms), run[1..]);
    } else {
      forall k: nat | k < sys.ix.stored
        ensures k in sys.ix.heads
      {
        assert HeadValid(u, size, sys.ix, k);
      }
    }
  }

  lemma CountIsStored(u: Universe, size: nat, ix: Index)
    requires IndexValid(u, size, ix)
    ensures ix.count == ix.stored
  {
  }

  ghost predicate Runs(u: Universe, sys: System, run: seq<Action>, size: nat, confirms: nat)
    requires size > 0
    decreases |run|
  {
    run == [] || (Enabled(sys, run[0], size) && Runs(u, Step(u, sys, run[0], size, confirms), run[1..], size, confirms))
  }

  ghost function After(u: Universe, sys: System, run: seq<Action>, size: nat, confirms: nat): System
    requires size > 0 && Runs(u, sys, run, size, confirms)
    decreases |run|
  {
    if run == [] then sys else After(u, Step(u, sys, run[0], size, confirms), run[1..], size, confirms)
  }

  /** One run after another is a run. */
  lemma {:induction false} RunConcat(u: Universe, sys: System, a: seq<Action>, b: seq<Action>, size: nat, confirms: nat)
    requires size > 0 && Runs(u, sys, a, size, confirms)
    requires Runs(u, After(u, sys, a, size, confirms), b, size, confirms)
    ensures Runs(u, sys, a + b, size, confirms)
    ensures After(u, sys, a + b, size, confirms) == After(u, After(u, sys, a, size, confirms), b, size, confirms)
    decreases |a|
  {
    if a == [] {
      assert a + b == b;
    } else {
      assert (a + b)[1..] == a[1..] + b && (a + b)[0] == a[0];
      hide Step, Enabled;
      RunConcat(u, Step(u, sys, a[0], size, confirms), a[1..], b, size, confirms);
    }
  }

  lemma {:induction false} RunKeeps(u: Universe, size: nat, confirms: nat, sys: System, run: seq<Action>)
    requires size > 0 && SystemValid(u, size, sys) && Runs(u, sys, run, size, confirms)
    ensures SystemValid(u, size, After(u, sys, run, size, confirms))
    decreases |run|
  {
    if run != [] {
      StepKeeps(u, size, confirms, sys, run[0]);
      RunKeeps(u, size, confirms, Step(u, sys, run[0], size, confirms), run[1..]);
    }
  }

  /**
   After any run from an empty index: a report names a hash that is canonical when it is
   looked at, and only heads that were not are lost.  Everything reported is canonical on
   the map of the last look exactly if its sections are linked on it, for which parent
   links up to the last reported block are enough.  Neither a stale commit nor a head left
   over by a crash ever gets into a report.
   */
  lemma ReportIsCanonical(u: Universe, size: nat, confirms: nat, canon: Canon, run: seq<Action>, view: View)
    requires size > 0 && Runs(u, System(EMPTY_INDEX, Idle, canon), run, size, confirms)
    ensures var sys := After(u, System(EMPTY_INDEX, Idle, canon), run, size, confirms);
      var reported := Step(u, sys, Report(view), size, confirms).ix;
      var last := view(reported.stored);
      && RolledBack(sys.ix, reported, view, size)
      && (AllCanonical(reported, last, size) <==> SectionsLinked(u, last, size, reported.stored))
      && (LinkedBelow(u, last, reported.stored * size) ==> AllCanonical(reported, last, size))
  {
    RunKeeps(u, size, confirms, System(EMPTY_INDEX, Idle, canon), run);
    var sys := After(u, System(EMPTY_INDEX, Idle, canon), run, size, confirms);
    hide Runs, After, VerifyLast, RolledBack, AllCanonical, SectionsLinked, LinkedBelow;
    VerifyRollsBack(u, size, sys.ix, view);
    VerifiedIsCanonical(u, size, sys.ix, view);
  }

  lemma ReportStep(u: Universe, size: nat, confirms: nat, sys: System, view: View)
    requires size > 0
    ensures Step(u, sys, Report(view), size, confirms) == sys.(ix := VerifyLast(sys.ix, view, size))
  {
  }

  /**
   If nothing disturbs the report, it misses no canonical section, and it reports only
   canonical ones exactly if what it reports is linked on the map.
   */
  lemma QuietReport(u: Universe, size: nat, confirms: nat, canon: Canon, run: seq<Action>)
    requires size > 0 && Runs(u, System(EMPTY_INDEX, Idle, canon), run, size, confirms)
    ensures var sys := After(u, System(EMPTY_INDEX, Idle, canon), run, size, confirms);
      var reported := Step(u, sys, Report(Still(sys.canon)), size, confirms).ix.stored;
      && NoneMissing(sys.ix, reported, sys.canon, size)
      && (OnlyCanonical(sys.ix, reported, sys.canon, size) <==> SectionsLinked(u, sys.canon, size, reported))
      && (LinkedBelow(u, sys.canon, reported * size) ==> OnlyCanonical(sys.ix, reported, sys.canon, size))
  {
    RunKeeps(u, size, confirms, System(EMPTY_INDEX, Idle, canon), run);
    var sys := After(u, System(EMPTY_INDEX, Idle, canon), run, size, confirms);
    hide Runs, After, VerifyLast, HeadCanonical, AllCanonical, IndexValid, PhaseValid, Still, Step;
    hide SectionsLinked, LinkedBelow, NoneMissing, OnlyCanonical;
    ReportStep(u, size, confirms, sys, Still(sys.canon));
    VerifyKeepsCanonical(u, size, sys.ix, sys.canon);
  }

  /** Nor is a new section ever begun on a stale head, or on a stale one below it if the sections are linked. */
  lemma BeginIsCanonical(u: Universe, size: nat, confirms: nat, canon: Canon, run: seq<Action>, view: View)
    requires size > 0 && Runs(u, System(EMPTY_INDEX, Idle, canon), run, size, confirms)
    requires Enabled(After(u, System(EMPTY_INDEX, Idle, canon), run, size, confirms), Begin(view), size)
    ensures var sys := After(u, System(EMPTY_INDEX, Idle, canon), run, size, confirms);
      var begun := Step(u, sys, Begin(view), size, confirms);
      var last := view(begun.ix.stored);
      && begun.phase.section == begun.ix.stored
      && (begun.ix.stored > 0 ==>
            HeadCanonical(begun.ix, last, size, begun.ix.stored - 1)
            && begun.phase.oldHead == SectionHead(begun.ix, begun.ix.stored - 1))
      && (AllCanonical(begun.ix, last, size) <==> SectionsLinked(u, last, size, begun.ix.stored))
      && (LinkedBelow(u, last, begun.ix.stored * size) ==> AllCanonical(begun.ix, last, size))
  {
    hide Runs, After, VerifyLast, AllCanonical, SetValid, SectionsLinked, LinkedBelow;
    ReportIsCanonical(u, size, confirms, canon, run, view);
  }

  lemma SectionsUpTo(k: nat, last: nat, size: nat)
    requires size > 0
    ensures k < (last + 1) / size <==> LastBlock(k, size) <= last
  {
    var q, r := (last + 1) / size, (last + 1) % size;
    assert last + 1 == q * size + r;
    if k < q {
      assert (k + 1) * size <= q * size;
    } else {
      assert (k + 1) * size >= (q + 1) * size == q * size + size;
    }
  }

  /** An announced reorganisation keeps exactly the sections that end at or below the common ancestor. */
  lemma AnnouncedKeeps(u: Universe, ix: Index, ancestor: nat, size: nat, confirms: nat)
    requires size > 0 && IndexValid(u, size, ix)
    ensures var n := Notified(ix, ancestor, true, size, confirms);
      && n.heads == HeadsBelow(ix.heads, n.stored, ix.stored)
      && (forall k: nat {:trigger LastBlock(k, size)} ::
            k < n.stored <==> k < ix.stored && LastBlock(k, size) <= ancestor)
      && (forall k: nat {:trigger LastBlock(k, size)} ::
            k < n.known <==> k < ix.known && LastBlock(k, size) <= ancestor)
  {
    NotifyKeeps(u, size, ix, ancestor, true, confirms);
    var n := Notified(ix, ancestor, true, size, confirms);
    forall k: nat
      ensures k < n.stored <==> k < ix.stored && LastBlock(k, size) <= ancestor
      ensures k < n.known <==> k < ix.known && LastBlock(k, size) <= ancestor
    {
      SectionsUpTo(k, ancestor, size);
    }
  }

  /** A section that ends at the ancestor itself is kept: two sections of four blocks end with block 7. */
  lemma EndIsKept(ix: Index, confirms: nat)
    requires ix.stored >= 2 && ix.known >= 2 && ix.cascaded >= 8
    ensures var n := Notified(ix, 7, true, 4, confirms);
      n.stored == 2 && n.known == 2 && n.cascaded == 8
  {
  }

  /** The head that children were told of is lowered to the end of the last whole section below the ancestor. */
  lemma AnnouncedCascade(ix: Index, ancestor: nat, size: nat, confirms: nat)
    requires size > 0
    ensures var now := Notified(ix, ancestor, true, size, confirms).cascaded;
      && now <= ix.cascaded && now <= ancestor + 1
      && (now != ix.cascaded ==> now == (ancestor + 1) / size * size && ancestor + 1 < now + size)
  {
    assert ancestor + 1 == (ancestor + 1) / size * size + (ancestor + 1) % size;
  }

  /** An announced head makes known exactly the sections that end deep enough below it. */
  lemma AnnouncedHead(ix: Index, head: nat, size: nat, confirms: nat)
    requires size > 0
    ensures var n := Notified(ix, head, false, size, confirms);
      && n == ix.(known := n.known)
      && (forall k: nat {:trigger LastBlock(k, size)} ::
            k < n.known <==> k < ix.known || LastBlock(k, size) + confirms <= head)
  {
    forall k: nat
      ensures head >= confirms ==> (k < (head + 1 - confirms) / size <==> LastBlock(k, size) + confirms <= head)
    {
      if head >= confirms {
        SectionsUpTo(k, head - confirms, size);
      }
    }
  }

  /** If all heads were canonical before the announced reorganisation, all that are left are canonical after it. */
  lemma AnnouncedReorg(u: Universe, ix: Index, was: Canon, now: Canon, ancestor: nat, size: nat, confirms: nat)
    requires size > 0 && IndexValid(u, size, ix)
    requires AllCanonical(ix, was, size)
    requires forall n :: 0 <= n <= ancestor && n in was ==> n in now && now[n] == was[n]
    ensures AllCanonical(Notified(ix, ancestor, true, size, confirms), now, size)
  {
    AnnouncedKeeps(u, ix, ancestor, size, confirms);
    var n := Notified(ix, ancestor, true, size, confirms);
    hide LastBlock, Notified;
    forall k: nat | k < n.stored
      ensures HeadCanonical(n, now, size, k)
    {
      assert LastBlock(k, size) <= ancestor;
      assert HeadCanonical(ix, was, size, k);
    }
  }

  function Reads(n: nat): seq<Action> {
    if n == 0 then [] else [Read(true, true)] + Reads(n - 1)
  }

  /** Undisturbed reads on a linked map get to the end of the section. */
  lemma {:induction false} ReadsSucceed(u: Universe, size: nat, confirms: nat, sys: System, n: nat)
    requires size > 0 && sys.phase.Reading?
    requires n == (sys.phase.section + 1) * size - sys.phase.number
    requires LinkedBelow(u, sys.canon, sys.phase.number + n)
    requires forall m :: sys.phase.number <= m < sys.phase.number + n ==>
      m in sys.canon && sys.canon[m] != ZERO_HASH && u(sys.canon[m]).number == m
    requires n > 0 ==> u(sys.canon[sys.phase.number]).parentHash == sys.phase.last
    ensures Runs(u, sys, Reads(n), size, confirms)
    ensures After(u, sys, Reads(n), size, confirms) ==
      if n == 0 then sys
      else sys.(phase := Reading(sys.phase.section, sys.phase.oldHead,
                                 sys.canon[sys.phase.number + n - 1], sys.phase.number + n))
    decreases n
  {
    if n > 0 {
      var next := Step(u, sys, Read(true, true), size, confirms);
      assert Reads(n)[0] == Read(true, true) && Reads(n)[1..] == Reads(n - 1);
      ReadsSucceed(u, size, confirms, next, n - 1);
    }
  }

  /** The chain has all blocks of the first `sections` sections, linked and numbered. */
  ghost predicate HasSections(u: Universe, canon: Canon, sections: nat, size: nat) {
    && LinkedBelow(u, canon, sections * size)
    && (forall m :: 0 <= m < sections * size ==> m in canon && canon[m] != ZERO_HASH && u(canon[m]).number == m)
    && (0 in canon ==> u(canon[0]).parentHash == ZERO_HASH)
  }

  /** A section taken up on a canonical head is read to its end. */
  lemma SectionIsRead(u: Universe, size: nat, confirms: nat, sys: System)
    requires size > 0 && sys.phase.Reading? && HasSections(u, sys.canon, sys.phase.section + 1, size)
    requires var Reading(section, oldHead, last, number) := sys.phase;
      last == oldHead && number == section * size
      && oldHead == if section == 0 then ZERO_HASH else CanonicalHash(sys.canon, LastBlock(section - 1, size))
    ensures Runs(u, sys, Reads(size), size, confirms)
    ensures After(u, sys, Reads(size), size, confirms) == sys.(phase := sys.phase.(
      last := CanonicalHash(sys.canon, LastBlock(sys.phase.section, size)), number := (sys.phase.section + 1) * size))
  {
    var section := sys.phase.section;
    assert (section + 1) * size == section * size + size;
    FirstOfSection(u, sys.canon, section, size);
    hide Runs, After, Reads, LinkedBelow, Step;
    ReadsSucceed(u, size, confirms, sys, size);
  }

  /** The first block of a section builds on the last one of the section below. */
  lemma FirstOfSection(u: Universe, canon: Canon, section: nat, size: nat)
    requires size > 0 && HasSections(u, canon, section + 1, size)
    ensures section * size in canon
    ensures u(canon[section * size]).parentHash
         == if section == 0 then ZERO_HASH else CanonicalHash(canon, LastBlock(section - 1, size))
  {
    assert (section + 1) * size == section * size + size;
    assert section > 0 ==> LastBlock(section - 1, size) == section * size - 1;
  }

  lemma BeginSection(u: Universe, size: nat, confirms: nat, sys: System, view: View)
    requires size > 0 && SystemValid(u, size, sys) && Enabled(sys, Begin(view), size)
    ensures var begun := Step(u, sys, Begin(view), size, confirms);
      && SystemValid(u, size, begun) && begun.canon == sys.canon && begun.ix == VerifyLast(sys.ix, view, size)
      && var oldHead := if begun.ix.stored == 0 then ZERO_HASH
           else CanonicalHash(view(begun.ix.stored), LastBlock(begun.ix.stored - 1, size));
         begun.phase == Reading(begun.ix.stored, oldHead, oldHead, begun.ix.stored * size)
  {
    StepKeeps(u, size, confirms, sys, Begin(view));
    VerifyRollsBack(u, size, sys.ix, view);
    hide SystemValid, VerifyLast, SetValid;
  }

  /** A section read to its end and accepted is stored, if nothing was rolled back meanwhile. */
  lemma SectionIsStored(u: Universe, size: nat, confirms: nat, sys: System, view: View)
    requires size > 0 && SystemValid(u, size, sys) && Enabled(sys, Commit(true), size)
    requires sys.ix.stored == sys.phase.section
    ensures var committed := Step(u, sys, Commit(true), size, confirms);
      && Enabled(committed, Finish(view), size)
      && var done := Step(u, committed, Finish(view), size, confirms);
      && done.ix.stored == sys.ix.stored + 1 && SectionHead(done.ix, sys.ix.stored) == sys.phase.last
  {
    StepKeeps(u, size, confirms, sys, Commit(true));
    FinishCommits(u, size, Step(u, sys, Commit(true), size, confirms), view);
  }

  /**
   Left alone on a linked map that has all blocks of the next section, the indexer takes up
   the section above its canonical ones and commits its canonical head.
   */
  lemma SectionIsIndexed(u: Universe, size: nat, confirms: nat, sys: System)
    requires size > 0 && SystemValid(u, size, sys) && Enabled(sys, Begin(Still(sys.canon)), size)
    requires HasSections(u, sys.canon, VerifyLast(sys.ix, Still(sys.canon), size).stored + 1, size)
    ensures var view := Still(sys.canon);
      var begun := Step(u, sys, Begin(view), size, confirms);
      var section := begun.ix.stored;
      && Runs(u, begun, Reads(size), size, confirms)
      && var read := After(u, begun, Reads(size), size, confirms);
      && Enabled(read, Commit(true), size)
      && var committed := Step(u, read, Commit(true), size, confirms);
      && Enabled(committed, Finish(view), size)
      && var done := Step(u, committed, Finish(view), size, confirms);
      && done.ix.stored == section + 1
      && HeadCanonical(done.ix, sys.canon, size, section)
  {
    hide Step, Runs, After, VerifyLast, SystemValid, Reads;
    var view := Still(sys.canon);
    var begun := Step(u, sys, Begin(view), size, confirms);
    BeginSection(u, size, confirms, sys, view);
    SectionIsRead(u, size, confirms, begun);
    RunKeeps(u, size, confirms, begun, Reads(size));
    SectionIsStored(u, size, confirms, After(u, begun, Reads(size), size, confirms), view);
    LastBlockIsThere(u, sys.canon, begun.ix.stored, size);
  }

  lemma LastBlockIsThere(u: Universe, canon: Canon, section: nat, size: nat)
    requires size > 0 && HasSections(u, canon, section + 1, size)
    ensures LastBlock(section, size) in canon
  {
  }
}
