/**
 The section indexer's methods.  Each one is proved to be the step of the same name that
 `IndexerProofs` reasons about; the methods that compare heads with the chain take as a
 parameter what its canonical map is at each comparison.
 */
module ChainIndexer {
  import opened BlockTree
  import opened Wrappers
  import opened Numbers
  import opened IndexerProofs

  /** What one turn of the processing loop finds: canonical hash, header, and whether the backend takes it. */
  datatype Glimpse = Glimpse(hash: Hash, header: Option<Header>, accepted: bool)

  class ChainIndexer {
    const sectionSize: nat
    const confirmsReq: nat
    var storedSections: nat
    var knownSections: nat
    var cascadedHead: nat
    var sectionHeads: map<nat, Hash>  // the index database
    var count: nat                    // the count in the index database

    ghost function State(): Index
      reads this
    {
      Index(storedSections, knownSections, cascadedHead, sectionHeads, count)
    }

    /** A new process on an index database: what was known is learnt again. */
    constructor (size: nat, confirms: nat, heads: map<nat, Hash>, count: nat)
      requires size > 0
      ensures sectionSize == size && confirmsReq == confirms
      ensures State() == Loaded(count, heads)
      ensures storedSections == count && knownSections == 0 && cascadedHead == 0
    {
      sectionSize, confirmsReq := size, confirms;
      sectionHeads, this.count := heads, count;
      storedSections, knownSections, cascadedHead := count, 0, 0;
    }

    function Head(section: nat): (h: Hash)
      reads this
      ensures h == SectionHead(State(), section)
    {
      if section in sectionHeads then sectionHeads[section] else ZERO_HASH
    }

    method SetValidSections(sections: nat)
      modifies this
      ensures State() == SetValid(old(State()), sections)
    {
      count := sections;
      while storedSections > sections
        invariant storedSections <= old(storedSections)
        invariant sections <= storedSections || storedSections == old(storedSections)
        invariant sectionHeads == HeadsBelow(old(sectionHeads), storedSections, old(storedSections))
        invariant knownSections == old(knownSections) && cascadedHead == old(cascadedHead) && count == sections
      {
        storedSections := storedSections - 1;
        sectionHeads := sectionHeads - {storedSections};
      }
      storedSections := sections;
    }

    method VerifyLastHead(view: View)
      requires sectionSize > 0
      modifies this
      ensures State() == VerifyLast(old(State()), view, sectionSize)
    {
      while storedSections > 0
        invariant VerifyLast(State(), view, sectionSize) == VerifyLast(old(State()), view, sectionSize)
        decreases storedSections
      {
        if Head(storedSections - 1) == CanonicalHash(view(storedSections), storedSections * sectionSize - 1) {
          return;
        }
        SetValidSections(storedSections - 1);
      }
    }

    /** A new head of the chain, or the common ancestor of a reorganisation. */
    method NewHead(head: nat, reorg: bool)
      requires sectionSize > 0
      modifies this
      ensures State() == Notified(old(State()), head, reorg, sectionSize, confirmsReq)
    {
      if reorg {
        var known := (head + 1) / sectionSize;
        var stored := known;
        if known < knownSections {
          knownSections := known;
        }
        if stored < storedSections {
          SetValidSections(stored);
        }
        var cascade := known * sectionSize;
        if cascade < cascadedHead {
          cascadedHead := cascade;
        }
        return;
      }
      if head >= confirmsReq {
        var sections := (head + 1 - confirmsReq) / sectionSize;
        if sections > knownSections {
          knownSections := sections;
        }
      }
    }

    /** What callers are told: with nothing stored the block number wraps round, and there is no hash. */
    method Sections(view: View) returns (stored: nat, lastBlock: nat, head: Hash)
      requires sectionSize > 0 && storedSections * sectionSize <= MAX_UINT64
      modifies this
      ensures State() == VerifyLast(old(State()), view, sectionSize)
      ensures stored == storedSections
      ensures stored > 0 ==> lastBlock == LastBlock(stored - 1, sectionSize) && head == SectionHead(State(), stored - 1)
      ensures stored == 0 ==> lastBlock == MAX_UINT64 && (MAX_UINT64 !in old(sectionHeads) ==> head == ZERO_HASH)
    {
      VerifyLastHead(view);
      VerifyShrinks(old(State()), view, sectionSize);
      stored := storedSections;
      lastBlock := (storedSections * sectionSize + MAX_UINT64) % (MAX_UINT64 + 1);
      head := Head((storedSections + MAX_UINT64) % (MAX_UINT64 + 1));
      SectionsFit(stored, old(storedSections), sectionSize);
    }

    /** The first half of an update, up to where the lock is dropped. */
    method BeginUpdate(view: View) returns (work: Option<(nat, Hash)>)
      requires sectionSize > 0
      modifies this
      ensures work.None? <==> old(knownSections <= storedSections)
      ensures work.None? ==> State() == old(State())
      ensures work.Some? ==> State() == VerifyLast(old(State()), view, sectionSize)
      ensures work.Some? ==> work.value == (storedSections, HeadBelow(State(), storedSections))
    {
      if knownSections > storedSections {
        VerifyLastHead(view);
        var section := storedSections;
        var oldHead := ZERO_HASH;
        if section > 0 {
          oldHead := Head(section - 1);
        }
        return Some((section, oldHead));
      }
      return None;
    }

    /** Was the `i`th header of the section found, linked to the one before, and accepted? */
    static predicate Took(seen: seq<Glimpse>, lastHead: Hash, i: nat)
      requires i < |seen|
    {
      && seen[i].hash != ZERO_HASH && seen[i].header.Some? && seen[i].accepted
      && seen[i].header.value.parentHash == (if i == 0 then lastHead else seen[i - 1].hash)
    }

    /** Header reads are honest: what is found is the header with that hash and number. */
    static ghost predicate Honest(u: Universe, seen: seq<Glimpse>, first: nat) {
      forall i :: 0 <= i < |seen| && seen[i].header.Some? ==>
        seen[i].header.value == u(seen[i].hash) && u(seen[i].hash).number == first + i
        && u(seen[i].hash).hash == seen[i].hash
    }

    /**
     Reads a section without the lock; `seen` is what the chain shows it from one header to
     the next.  It succeeds only on an unbroken chain of headers from `lastHead`.
     */
    method ProcessSection(section: nat, lastHead: Hash, resetOk: bool, seen: seq<Glimpse>, commitOk: bool,
                          ghost u: Universe)
      returns (r: Result<Hash>)
      requires |seen| == sectionSize > 0 && Honest(u, seen, section * sectionSize)
      modifies this
      ensures State() == if resetOk then old(State()) else SetValid(old(State()), 0)
      ensures r.Ok? <==> resetOk && commitOk && forall i :: 0 <= i < |seen| ==> Took(seen, lastHead, i)
      ensures r.Ok? ==> SectionOver(u, sectionSize, section, r.value, lastHead)
    {
      if !resetOk {
        SetValidSections(0);
        return Err("reset failed");
      }
      var last := lastHead;
      assert Back(u, last, 0) == lastHead;
      for i := 0 to sectionSize
        invariant State() == old(State())
        invariant forall j :: 0 <= j < i ==> Took(seen, lastHead, j)
        invariant last == if i == 0 then lastHead else seen[i - 1].hash
        invariant Back(u, last, i) == lastHead
      {
        ghost var took := Took(seen, lastHead, i);
        var hash := seen[i].hash;
        if hash == ZERO_HASH {
          return Err("canonical block unknown");
        }
        if seen[i].header == None {
          return Err("block not found");
        }
        var header := seen[i].header.value;
        if header.parentHash != last {
          return Err("chain reorged during section processing");
        }
        if !seen[i].accepted {
          return Err("processing failed");
        }
        last := header.hash;
      }
      if !commitOk {
        return Err("commit failed");
      }
      assert Took(seen, lastHead, sectionSize - 1);
      assert LastBlock(section, sectionSize) == section * sectionSize + (sectionSize - 1);
      return Ok(last);
    }

    /** The second half of an update, with the lock taken again. */
    method EndUpdate(section: nat, oldHead: Hash, result: Result<Hash>, view: View)
      requires sectionSize > 0
      modifies this
      ensures State() == Finished(old(State()), section, oldHead,
        if result.Ok? then Some(result.value) else None, view, sectionSize)
    {
      if result.Ok? && (section == 0 || oldHead == Head(section - 1)) {
        sectionHeads := sectionHeads[section := result.value];
        SetValidSections(section + 1);
        cascadedHead := storedSections * sectionSize - 1;
      } else {
        VerifyLastHead(view);
        knownSections := storedSections;
      }
    }
  }

  /** One turn of the loop in `ProcessSection` is the step of the system that reads a header. */
  lemma TurnIsRead(u: Universe, sys: System, seen: seq<Glimpse>, section: nat, size: nat, lastHead: Hash, i: nat)
    requires i < |seen| == size && ChainIndexer.Honest(u, seen, section * size)
    requires sys.phase == Reading(section, lastHead, if i == 0 then lastHead else seen[i - 1].hash, section * size + i)
    requires seen[i].hash == CanonicalHash(sys.canon, section * size + i)
    ensures ReadStep(u, sys, seen[i].header.Some?, seen[i].accepted) ==
      if ChainIndexer.Took(seen, lastHead, i) then Reading(section, lastHead, seen[i].hash, section * size + i + 1)
      else Done(section, lastHead, None)
  {
  }

  lemma {:induction false} VerifyShrinks(ix: Index, view: View, size: nat)
    requires size > 0
    ensures VerifyLast(ix, view, size).stored <= ix.stored
    ensures VerifyLast(ix, view, size).heads.Keys <= ix.heads.Keys
    decreases ix.stored
  {
    if ix.stored > 0 {
      VerifyShrinks(SetValid(ix, ix.stored - 1), view, size);
    }
  }

  lemma SectionsFit(stored: nat, was: nat, size: nat)
    requires size > 0 && stored <= was && was * size <= MAX_UINT64
    ensures stored * size <= MAX_UINT64 && stored <= MAX_UINT64
    ensures stored > 0 ==> stored * size >= 1
  {
    assert stored * size <= was * size;
    assert stored <= stored * size;
  }
}
