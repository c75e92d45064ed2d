/**
 Events are ordered by block and log index through one number, made by pasting decimal
 strings together.  The number is an order key just as long as the index has at most six
 digits; then the join that finds the last reserve state before each interaction agrees
 with the lookup that sorts and takes the last row.
 */
module AsOfJoin {
  import opened Wrappers
  import opened Decimal

  const WIDTH: nat := 6
  const MILLION: nat := 1000000

  /** Pads with zeros on the left. */
  function ZFill(s: string, width: nat): string
    decreases width - |s|
  {
    if |s| >= width then s else ZFill("0" + s, width)
  }

  function CombineBlockNIndex(block: nat, index: nat): nat {
    Int(Str(block) + ZFill(Str(index), WIDTH))
  }

  function Pow10(n: nat): (p: nat)
    ensures p > 0
  {
    if n == 0 then 1 else 10 * Pow10(n - 1)
  }

  /** Pasting shifts the first number by the length of the second. */
  lemma {:induction false} IntOfPasted(a: string, b: string)
    ensures Int(a + b) == Int(a) * Pow10(|b|) + Int(b)
    decreases |b|
  {
    if b == "" {
      assert a + b == a;
    } else {
      IntOfPasted(a, b[..|b| - 1]);
      assert (a + b)[..|a + b| - 1] == a + b[..|b| - 1];
      Distribute(Int(a), Pow10(|b| - 1), Int(b[..|b| - 1]));
    }
  }

  lemma Distribute(a: nat, p: nat, c: nat)
    ensures (a * p + c) * 10 == a * (10 * p) + c * 10
  {
  }

  lemma {:induction false} ZFillIsPadding(s: string, width: nat)
    ensures |ZFill(s, width)| == if |s| >= width then |s| else width
    ensures Int(ZFill(s, width)) == Int(s)
    decreases width - |s|
  {
    if |s| < width {
      ZFillIsPadding("0" + s, width);
      IntOfPasted("0", s);
      assert "0"[..0] == "";
      assert Int("0") == 0;
    }
  }

  /** A number has at most `width` digits just when it is below that power of ten. */
  lemma {:induction false} DigitsOfStr(n: nat, width: nat)
    requires width > 0
    ensures |Str(n)| <= width <==> n < Pow10(width)
    decreases n
  {
    if n >= 10 {
      if width == 1 {
        assert Pow10(1) == 10 * Pow10(0);
        assert |Str(n / 10)| >= 1;
      } else {
        DigitsOfStr(n / 10, width - 1);
        assert n / 10 < Pow10(width - 1) <==> n < 10 * Pow10(width - 1);
      }
    } else {
      PowerIsAtLeastTen(width);
    }
  }

  lemma {:induction false} PowerIsAtLeastTen(width: nat)
    requires width > 0
    ensures Pow10(width) >= 10
  {
    if width > 1 {
      PowerIsAtLeastTen(width - 1);
    }
  }

  /** The key in arithmetic terms: the block is shifted by six digits, or by more if the index has more. */
  lemma KeyValue(block: nat, index: nat)
    ensures CombineBlockNIndex(block, index)
         == block * Pow10(if |Str(index)| <= WIDTH then WIDTH else |Str(index)|) + index
  {
    ZFillIsPadding(Str(index), WIDTH);
    IntOfPasted(Str(block), ZFill(Str(index), WIDTH));
    IntOfStr(block);
    IntOfStr(index);
  }

  lemma Million()
    ensures Pow10(WIDTH) == MILLION
  {
    assert Pow10(3) == 1000;
    assert Pow10(4) == 10000 && Pow10(5) == 100000;
  }

  /** The key is block * 10^6 + index exactly for indices of at most six digits (or block zero). */
  lemma KeyIsPositional(block: nat, index: nat)
    ensures CombineBlockNIndex(block, index) == block * MILLION + index <==> index < MILLION || block == 0
  {
    KeyValue(block, index);
    DigitsOfStr(index, WIDTH);
    Million();
    if index >= MILLION {
      TenTimesLonger(|Str(index)|);
      MoreShift(block, Pow10(|Str(index)|));
    }
  }

  lemma {:induction false} TenTimesLonger(n: nat)
    requires n > WIDTH
    ensures Pow10(n) >= 10 * MILLION
    decreases n
  {
    if n == WIDTH + 1 {
      Million();
    } else {
      TenTimesLonger(n - 1);
    }
  }

  lemma MoreShift(block: nat, p: nat)
    requires p > MILLION
    ensures block * p == block * MILLION <==> block == 0
  {
    assert block * p == block * MILLION + block * (p - MILLION);
    if block > 0 {
      assert block * (p - MILLION) >= 1;
    }
  }

  predicate Earlier(blockA: nat, indexA: nat, blockB: nat, indexB: nat) {
    blockA < blockB || (blockA == blockB && indexA <= indexB)
  }

  /** For such indices the key orders events by block, then index, and tells them apart. */
  lemma KeyOrders(blockA: nat, indexA: nat, blockB: nat, indexB: nat)
    requires indexA < MILLION && indexB < MILLION
    ensures CombineBlockNIndex(blockA, indexA) <= CombineBlockNIndex(blockB, indexB)
       <==> Earlier(blockA, indexA, blockB, indexB)
    ensures CombineBlockNIndex(blockA, indexA) == CombineBlockNIndex(blockB, indexB)
       <==> blockA == blockB && indexA == indexB
  {
    KeyIsPositional(blockA, indexA);
    KeyIsPositional(blockB, indexB);
  }

  /** The key of an event whose index has more than six digits. */
  lemma LongIndexKey(block: nat, index: nat)
    requires index >= MILLION
    ensures CombineBlockNIndex(block, index) >= block * (10 * MILLION) + index
    ensures block == 0 ==> CombineBlockNIndex(block, index) == index
  {
    KeyValue(block, index);
    DigitsOfStr(index, WIDTH);
    Million();
    TenTimesLonger(|Str(index)|);
    Shifted(block, 10 * MILLION, Pow10(|Str(index)|));
  }

  lemma Shifted(block: nat, p: nat, q: nat)
    requires p <= q
    ensures block * p <= block * q && (block == 0 ==> block * q == 0)
  {
  }

  /** Does the key of an event sort right before every later event that has a short index? */
  ghost predicate SortsRight(block: nat, index: nat) {
    forall b: nat, i: nat :: i < MILLION && Earlier(block, index, b, i) ==>
      CombineBlockNIndex(block, index) <= CombineBlockNIndex(b, i)
  }

  /** A longer index sorts after the start of the next block; only block zero gets away with 10^6. */
  lemma LongIndexOvertakes(block: nat, index: nat)
    requires index >= MILLION && !(block == 0 && index == MILLION)
    ensures Earlier(block, index, block + 1, 0)
    ensures CombineBlockNIndex(block, index) > CombineBlockNIndex(block + 1, 0)
  {
    hide CombineBlockNIndex;
    LongIndexKey(block, index);
    KeyIsPositional(block + 1, 0);
  }

  /** So six digits are exactly what the order needs. */
  lemma SortsRightExactly(block: nat, index: nat)
    ensures SortsRight(block, index) <==> index < MILLION || (block == 0 && index == MILLION)
  {
    if index < MILLION {
      forall b: nat, i: nat | i < MILLION && Earlier(block, index, b, i)
        ensures CombineBlockNIndex(block, index) <= CombineBlockNIndex(b, i)
      {
        KeyOrders(block, index, b, i);
      }
    } else if block == 0 && index == MILLION {
      LongIndexKey(block, index);
      forall b: nat, i: nat | i < MILLION && Earlier(block, index, b, i)
        ensures CombineBlockNIndex(block, index) <= CombineBlockNIndex(b, i)
      {
        KeyIsPositional(b, i);
      }
    } else {
      LongIndexOvertakes(block, index);
    }
  }

  /** The first case in a block after the first. */
  lemma SevenDigitsBreakTheOrder()
    ensures Earlier(1, MILLION, 2, 0) && CombineBlockNIndex(1, MILLION) > CombineBlockNIndex(2, 0)
  {
    LongIndexOvertakes(1, MILLION);
  }

  /** In numbers: up to index 999999 the key is a million blocks and the index. */
  lemma KeyInNumbers(block: nat, index: nat)
    requires index < 1000000
    ensures CombineBlockNIndex(block, index) == block * 1000000 + index
  {
    KeyIsPositional(block, index);
  }

  /** A state of a reserve, valid from its event on, and an interaction with a reserve. */
  datatype Status = Status(reserve: nat, block: nat, index: nat, liquidityIndex: nat, variableBorrowIndex: nat)
  datatype Interaction = Interaction(reserve: nat, block: nat, index: nat)

  function StatusKey(y: Status): nat {
    CombineBlockNIndex(y.block, y.index)
  }

  function InteractionKey(x: Interaction): nat {
    CombineBlockNIndex(x.block, x.index)
  }

  /** The rows of the merge with `x`: every state of its reserve. */
  function MergeOne(x: Interaction, ys: seq<Status>): seq<(Interaction, Status)> {
    if ys == [] then []
    else MergeOne(x, ys[..|ys| - 1]) + if ys[|ys| - 1].reserve == x.reserve then [(x, ys[|ys| - 1])] else []
  }

  /** The merge on the reserve. */
  function Merge(xs: seq<Interaction>, ys: seq<Status>): seq<(Interaction, Status)> {
    if xs == [] then [] else Merge(xs[..|xs| - 1], ys) + MergeOne(xs[|xs| - 1], ys)
  }

  /** The merged rows whose state is not younger than the interaction. */
  function UpTo(rows: seq<(Interaction, Status)>): seq<(Interaction, Status)> {
    if rows == [] then []
    else
      var last := rows[|rows| - 1];
      UpTo(rows[..|rows| - 1]) + if StatusKey(last.1) <= InteractionKey(last.0) then [last] else []
  }

  /** The first row with the largest state key in the group of one interaction key. */
  function IdxMax(rows: seq<(Interaction, Status)>, key: nat): Option<(Interaction, Status)> {
    if rows == [] then None
    else
      var best, last := IdxMax(rows[..|rows| - 1], key), rows[|rows| - 1];
      if InteractionKey(last.0) == key && (best.None? || StatusKey(last.1) > StatusKey(best.value.1)) then Some(last)
      else best
  }

  /** The row the join keeps for an interaction key; without one the interaction drops out. */
  function AsOf(xs: seq<Interaction>, ys: seq<Status>, key: nat): Option<(Interaction, Status)> {
    IdxMax(UpTo(Merge(xs, ys)), key)
  }

  /** The filter of the lookup: states of the reserve up to a key. */
  function Candidates(ys: seq<Status>, reserve: nat, key: nat): seq<Status> {
    if ys == [] then []
    else
      var last := ys[|ys| - 1];
      Candidates(ys[..|ys| - 1], reserve, key)
      + if last.reserve == reserve && StatusKey(last) <= key then [last] else []
  }

  ghost predicate SortedByKey(ys: seq<Status>) {
    forall i, j :: 0 <= i < j < |ys| ==> StatusKey(ys[i]) <= StatusKey(ys[j])
  }

  lemma {:induction false} InCandidates(ys: seq<Status>, reserve: nat, key: nat, y: Status)
    ensures y in Candidates(ys, reserve, key) <==> y in ys && y.reserve == reserve && StatusKey(y) <= key
  {
    if ys != [] {
      InCandidates(ys[..|ys| - 1], reserve, key, y);
      assert ys == ys[..|ys| - 1] + [ys[|ys| - 1]];
    }
  }

  lemma {:induction false} InMergeOne(x: Interaction, ys: seq<Status>, row: (Interaction, Status))
    ensures row in MergeOne(x, ys) <==> row.0 == x && row.1 in ys && row.1.reserve == x.reserve
  {
    if ys != [] {
      InMergeOne(x, ys[..|ys| - 1], row);
      assert ys == ys[..|ys| - 1] + [ys[|ys| - 1]];
    }
  }

  lemma {:induction false} InMerge(xs: seq<Interaction>, ys: seq<Status>, row: (Interaction, Status))
    ensures row in Merge(xs, ys) <==> row.0 in xs && row.1 in ys && row.1.reserve == row.0.reserve
  {
    if xs != [] {
      InMerge(xs[..|xs| - 1], ys, row);
      InMergeOne(xs[|xs| - 1], ys, row);
      assert xs == xs[..|xs| - 1] + [xs[|xs| - 1]];
    }
  }

  lemma {:induction false} InUpTo(rows: seq<(Interaction, Status)>, row: (Interaction, Status))
    ensures row in UpTo(rows) <==> row in rows && StatusKey(row.1) <= InteractionKey(row.0)
  {
    if rows != [] {
      InUpTo(rows[..|rows| - 1], row);
      assert rows == rows[..|rows| - 1] + [rows[|rows| - 1]];
    }
  }

  /** What `idxmax` picks is in the group and no row of the group beats it. */
  lemma {:induction false} IdxMaxIsMax(rows: seq<(Interaction, Status)>, key: nat)
    ensures var best := IdxMax(rows, key);
      && (best.Some? ==> best.value in rows && InteractionKey(best.value.0) == key)
      && (forall row :: row in rows && InteractionKey(row.0) == key ==>
            best.Some? && StatusKey(row.1) <= StatusKey(best.value.1))
  {
    if rows != [] {
      IdxMaxIsMax(rows[..|rows| - 1], key);
      assert rows == rows[..|rows| - 1] + [rows[|rows| - 1]];
    }
  }

  /** No earlier row of the group has as large a key. */
  ghost predicate FirstLargest(rows: seq<(Interaction, Status)>, key: nat, i: nat) {
    && i < |rows|
    && forall j :: 0 <= j < i && InteractionKey(rows[j].0) == key ==> StatusKey(rows[j].1) < StatusKey(rows[i].1)
  }

  lemma FirstExtends(init: seq<(Interaction, Status)>, last: (Interaction, Status), key: nat, i: nat)
    requires FirstLargest(init, key, i)
    ensures FirstLargest(init + [last], key, i) && (init + [last])[i] == init[i]
  {
    hide InteractionKey, StatusKey;
  }

  /** Of several rows with the largest key it is the first. */
  lemma {:induction false} IdxMaxIsFirst(rows: seq<(Interaction, Status)>, key: nat) returns (i: nat)
    ensures IdxMax(rows, key).Some? ==> FirstLargest(rows, key, i) && rows[i] == IdxMax(rows, key).value
  {
    hide InteractionKey, StatusKey;
    i := 0;
    if rows != [] {
      var init, last := rows[..|rows| - 1], rows[|rows| - 1];
      assert rows == init + [last];
      var before := IdxMax(init, key);
      i := IdxMaxIsFirst(init, key);
      if InteractionKey(last.0) == key && (before.None? || StatusKey(last.1) > StatusKey(before.value.1)) {
        IdxMaxIsMax(init, key);
        i := |init|;
        forall j | 0 <= j < i && InteractionKey(rows[j].0) == key
          ensures StatusKey(rows[j].1) < StatusKey(last.1)
        {
          assert rows[j] == init[j] && init[j] in init;
        }
      } else if before.Some? {
        FirstExtends(init, last, key, i);
      }
    }
  }

  /** As logs, no two events share block and index, and indices stay within six digits. */
  ghost predicate DistinctInteractions(xs: seq<Interaction>) {
    && (forall x :: x in xs ==> x.index < MILLION)
    && (forall x, z :: x in xs && z in xs && x.block == z.block && x.index == z.index ==> x == z)
  }

  ghost predicate DistinctStatuses(ys: seq<Status>) {
    && (forall y :: y in ys ==> y.index < MILLION)
    && (forall y, z :: y in ys && z in ys && y.reserve == z.reserve && y.block == z.block && y.index == z.index ==>
          y == z)
  }

  /**
   The join and the lookup agree: for an interaction with an earlier state of its reserve
   the join keeps exactly the row that filtering, sorting (in any way) and taking the last
   row finds; for one without, the join drops it and the lookup has nothing to take.
   */
  lemma JoinIsLookup(xs: seq<Interaction>, ys: seq<Status>, x: Interaction, sorted: seq<Status>)
    requires DistinctInteractions(xs) && DistinctStatuses(ys) && x in xs
    requires SortedByKey(sorted) && multiset(sorted) == multiset(Candidates(ys, x.reserve, InteractionKey(x)))
    ensures AsOf(xs, ys, InteractionKey(x)) == if sorted == [] then None else Some((x, sorted[|sorted| - 1]))
  {
    var key := InteractionKey(x);
    var rows := UpTo(Merge(xs, ys));
    var best := IdxMax(rows, key);
    IdxMaxIsMax(rows, key);
    hide StatusKey, InteractionKey, Candidates, Merge, UpTo, IdxMax;
    if best.Some? {
      InUpTo(Merge(xs, ys), best.value);
      InMerge(xs, ys, best.value);
      SameInteraction(best.value.0, x);
      InCandidates(ys, x.reserve, key, best.value.1);
      InSorted(sorted, Candidates(ys, x.reserve, key), best.value.1);
    }
    if sorted != [] {
      var top := sorted[|sorted| - 1];
      InSorted(sorted, Candidates(ys, x.reserve, key), top);
      InCandidates(ys, x.reserve, key, top);
      InMerge(xs, ys, (x, top));
      InUpTo(Merge(xs, ys), (x, top));
      assert (x, top) in rows;
      TopIsLargest(sorted, best.value.1);
      SameStatus(best.value.1, top);
    }
  }

  /**
   What the join means for events: the row it keeps has the state of the reserve that was in
   force at the interaction, that is the latest one at or before it, and without such a
   state there is no row.
   */
  lemma JoinIsLatest(xs: seq<Interaction>, ys: seq<Status>, x: Interaction, y: Status)
    requires DistinctInteractions(xs) && DistinctStatuses(ys) && x in xs
    requires y in ys && y.reserve == x.reserve && Earlier(y.block, y.index, x.block, x.index)
    ensures var row := AsOf(xs, ys, InteractionKey(x));
      && row.Some? && row.value.0 == x && row.value.1 in ys && row.value.1.reserve == x.reserve
      && Earlier(row.value.1.block, row.value.1.index, x.block, x.index)
      && Earlier(y.block, y.index, row.value.1.block, row.value.1.index)
  {
    var key, rows := InteractionKey(x), UpTo(Merge(xs, ys));
    var best := IdxMax(rows, key);
    IdxMaxIsMax(rows, key);
    KeyOrders(y.block, y.index, x.block, x.index);
    InMerge(xs, ys, (x, y));
    InUpTo(Merge(xs, ys), (x, y));
    assert (x, y) in rows && InteractionKey((x, y).0) == key;
    InUpTo(Merge(xs, ys), best.value);
    InMerge(xs, ys, best.value);
    SameInteraction(best.value.0, x);
    var z := best.value.1;
    KeyOrders(z.block, z.index, x.block, x.index);
    KeyOrders(y.block, y.index, z.block, z.index);
  }

  lemma NothingToJoin(xs: seq<Interaction>, ys: seq<Status>, x: Interaction)
    requires DistinctInteractions(xs) && DistinctStatuses(ys) && x in xs
    requires forall y :: y in ys && y.reserve == x.reserve ==> !Earlier(y.block, y.index, x.block, x.index)
    ensures AsOf(xs, ys, InteractionKey(x)).None?
  {
    var rows := UpTo(Merge(xs, ys));
    var best := IdxMax(rows, InteractionKey(x));
    IdxMaxIsMax(rows, InteractionKey(x));
    if best.Some? {
      InUpTo(Merge(xs, ys), best.value);
      InMerge(xs, ys, best.value);
      SameInteraction(best.value.0, x);
      KeyOrders(best.value.1.block, best.value.1.index, x.block, x.index);
      assert false;
    }
  }

  lemma InSorted(sorted: seq<Status>, candidates: seq<Status>, y: Status)
    requires multiset(sorted) == multiset(candidates)
    ensures y in sorted <==> y in candidates
  {
    assert y in multiset(sorted) <==> y in sorted;
    assert y in multiset(candidates) <==> y in candidates;
  }

  lemma TopIsLargest(sorted: seq<Status>, y: Status)
    requires SortedByKey(sorted) && y in sorted
    ensures StatusKey(y) <= StatusKey(sorted[|sorted| - 1])
  {
    var i :| 0 <= i < |sorted| && sorted[i] == y;
    if i < |sorted| - 1 {
      assert StatusKey(sorted[i]) <= StatusKey(sorted[|sorted| - 1]);
    }
  }

  lemma SameInteraction(x: Interaction, z: Interaction)
    requires x.index < MILLION && z.index < MILLION && InteractionKey(x) == InteractionKey(z)
    ensures x.block == z.block && x.index == z.index
  {
    KeyOrders(x.block, x.index, z.block, z.index);
  }

  lemma SameStatus(y: Status, z: Status)
    requires y.index < MILLION && z.index < MILLION && StatusKey(y) == StatusKey(z)
    ensures y.block == z.block && y.index == z.index
  {
    KeyOrders(y.block, y.index, z.block, z.index);
  }
}
