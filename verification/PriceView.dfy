/**
 Two loops share one set of tables: a crawler inserts price rows window by window, and an
 aggregator keeps one mean price for each block.  Their steps interleave freely; the
 invariant says what the per-block table and the recorded interval then still mean.
 */
module PriceView {
  import opened Wrappers
  import opened Numbers

  const UPDATE_AMOUNT: nat := 20000
  const MAX_INT: int := 2147483647

  datatype Row = Row(block: nat, index: nat, current: real)

  /** What the chain has logged, once and for all. */
  type Logs = Row -> bool

  /** One value for each block and index. */
  ghost predicate Unique(logs: Logs) {
    forall r, q :: logs(r) && logs(q) && r.block == q.block && r.index == q.index ==> r == q
  }

  predicate HasRow(rows: seq<Row>, block: nat) {
    exists r :: r in rows && r.block == block
  }

  function CountOf(rows: seq<Row>, block: nat): nat {
    if rows == [] then 0
    else CountOf(rows[..|rows| - 1], block) + if rows[|rows| - 1].block == block then 1 else 0
  }

  function SumOf(rows: seq<Row>, block: nat): real {
    if rows == [] then 0.0
    else SumOf(rows[..|rows| - 1], block) + if rows[|rows| - 1].block == block then rows[|rows| - 1].current else 0.0
  }

  /** The mean price of a block. */
  function Mean(rows: seq<Row>, block: nat): real
    requires CountOf(rows, block) > 0
  {
    SumOf(rows, block) / CountOf(rows, block) as real
  }

  /** Rows are counted and summed one by one. */
  lemma {:induction false} TotalsAdd(a: seq<Row>, b: seq<Row>, block: nat)
    ensures CountOf(a + b, block) == CountOf(a, block) + CountOf(b, block)
    ensures SumOf(a + b, block) == SumOf(a, block) + SumOf(b, block)
    decreases |b|
  {
    if b == [] {
      assert a + b == a;
    } else {
      TotalsAdd(a, b[..|b| - 1], block);
      assert (a + b)[..|a + b| - 1] == a + b[..|b| - 1];
    }
  }

  lemma OneRow(r: Row, block: nat)
    ensures CountOf([r], block) == if r.block == block then 1 else 0
    ensures SumOf([r], block) == if r.block == block then r.current else 0.0
  {
    assert [r][..0] == [];
  }

  /** The mean of two rows of a block lies halfway between them. */
  lemma MeanOfTwo(r: Row, q: Row)
    requires r.block == q.block
    ensures CountOf([r, q], r.block) == 2 && 2.0 * Mean([r, q], r.block) == r.current + q.current
  {
    assert [r, q] == [r] + [q];
    TotalsAdd([r], [q], r.block);
    OneRow(r, r.block);
    OneRow(q, r.block);
  }

  lemma {:induction false} SumBetween(rows: seq<Row>, block: nat, low: real, high: real)
    requires forall r :: r in rows && r.block == block ==> low <= r.current <= high
    ensures low * CountOf(rows, block) as real <= SumOf(rows, block) <= high * CountOf(rows, block) as real
  {
    if rows != [] {
      assert rows[|rows| - 1] in rows;
      SumBetween(rows[..|rows| - 1], block, low, high);
    }
  }

  /** The mean is the sum shared out among the rows, and lies between the smallest and the largest of them. */
  lemma MeanIsBetween(rows: seq<Row>, block: nat, low: real, high: real)
    requires CountOf(rows, block) > 0
    requires forall r :: r in rows && r.block == block ==> low <= r.current <= high
    ensures Mean(rows, block) * CountOf(rows, block) as real == SumOf(rows, block)
    ensures low <= Mean(rows, block) <= high
  {
    SumBetween(rows, block, low, high);
    SharedOut(SumOf(rows, block), CountOf(rows, block), low, high);
  }

  lemma SharedOut(sum: real, count: nat, low: real, high: real)
    requires count > 0 && low * count as real <= sum <= high * count as real
    ensures sum / count as real * count as real == sum
    ensures low <= sum / count as real <= high
  {
    var n, m := count as real, sum / count as real;
    assert m * n == sum;
    assert (m - low) * n >= 0.0;
    assert (high - m) * n >= 0.0;
  }

  /** The block has the same number of rows, with the same sum, in both. */
  ghost predicate SameTotals(a: seq<Row>, b: seq<Row>, block: nat) {
    CountOf(a, block) == CountOf(b, block) && SumOf(a, block) == SumOf(b, block)
  }

  lemma {:induction false} CountIsRows(rows: seq<Row>, block: nat)
    ensures CountOf(rows, block) > 0 <==> HasRow(rows, block)
  {
    if rows != [] {
      var init, last := rows[..|rows| - 1], rows[|rows| - 1];
      CountIsRows(init, block);
      assert rows == init + [last];
      assert last in rows;
    }
  }

  /** `get_or_create`: a row is only added if it is not there. */
  function Inserted(rows: seq<Row>, r: Row): seq<Row> {
    if r in rows then rows else rows + [r]
  }

  /** The unique key of the price table. */
  predicate UniqueKeys(rows: seq<Row>) {
    forall i, j :: 0 <= i < j < |rows| ==> rows[i].block != rows[j].block || rows[i].index != rows[j].index
  }

  ghost predicate NoDuplicates(rows: seq<Row>) {
    forall i, j :: 0 <= i < j < |rows| ==> rows[i] != rows[j]
  }

  lemma {:induction false} WithoutRow(rows: seq<Row>, i: nat, block: nat)
    requires i < |rows|
    ensures CountOf(rows, block) == CountOf(rows[..i] + rows[i + 1..], block) + if rows[i].block == block then 1 else 0
    ensures SumOf(rows, block)
         == SumOf(rows[..i] + rows[i + 1..], block) + if rows[i].block == block then rows[i].current else 0.0
    decreases |rows|
  {
    var rest, n := rows[..i] + rows[i + 1..], |rows| - 1;
    if i == n {
      assert rest == rows[..n];
    } else {
      WithoutRow(rows[..n], i, block);
      assert rest[..n - 1] == rows[..n][..i] + rows[..n][i + 1..];
    }
  }

  /** The totals of a block depend only on its rows, not on their order or on other blocks. */
  lemma {:induction false} TotalsOfSameRows(a: seq<Row>, b: seq<Row>, block: nat)
    requires NoDuplicates(a) && NoDuplicates(b)
    requires forall r: Row :: r.block == block ==> (r in a <==> r in b)
    ensures SameTotals(a, b, block)
    decreases |a| + |b|
  {
    if a == [] {
      NoRows(b, block);
    } else {
      var init, last := a[..|a| - 1], a[|a| - 1];
      assert a == init + [last] && last !in init;
      assert forall r :: r in a <==> r in init || r == last;
      if last.block != block {
        TotalsOfSameRows(init, b, block);
      } else {
        assert last in a;
        var i :| 0 <= i < |b| && b[i] == last;
        WithoutRow(b, i, block);
        RestIsSame(init, last, b, i, block);
        TotalsOfSameRows(init, b[..i] + b[i + 1..], block);
      }
    }
  }

  lemma RestIsSame(init: seq<Row>, last: Row, b: seq<Row>, i: nat, block: nat)
    requires last !in init && NoDuplicates(b) && i < |b| && b[i] == last && last.block == block
    requires forall r: Row :: r.block == block ==> (r in init || r == last <==> r in b)
    ensures var rest := b[..i] + b[i + 1..];
      NoDuplicates(rest) && forall r: Row :: r.block == block ==> (r in init <==> r in rest)
  {
    var rest := b[..i] + b[i + 1..];
    forall r: Row | r.block == block
      ensures r in init <==> r in rest
    {
      assert r in b <==> r == last || r in rest;
    }
  }

  lemma {:induction false} NoRows(rows: seq<Row>, block: nat)
    requires forall r: Row :: r.block == block ==> r !in rows
    ensures CountOf(rows, block) == 0 && SumOf(rows, block) == 0.0
  {
    if rows != [] {
      assert rows[|rows| - 1] in rows;
      NoRows(rows[..|rows| - 1], block);
    }
  }

  /** A row of another block changes nothing for a block. */
  lemma OtherBlock(rows: seq<Row>, r: Row, block: nat)
    requires r in rows || r.block != block
    ensures HasRow(Inserted(rows, r), block) == HasRow(rows, block)
    ensures CountOf(Inserted(rows, r), block) == CountOf(rows, block)
    ensures SumOf(Inserted(rows, r), block) == SumOf(rows, block)
  {
    if r !in rows {
      assert (rows + [r])[..|rows|] == rows;
    }
  }

  /** Everything both loops see: the rows, the summary of a pair, the per-block prices and their record. */
  datatype Tables = Tables(rows: seq<Row>, sumMin: nat, sumMax: nat,
                           blockPrices: map<nat, real>, recMin: int, recMax: int)

  datatype Crawl = Resting | Crawling(to: nat, batch: seq<Row>, next: nat)

  datatype Pass =
    | NoPass
    | Started(from: int, to: int)
    | Computed(from: int, to: int, means: map<nat, real>)
    | Written(from: int, to: int)

  datatype System = System(t: Tables, crawl: Crawl, pass: Pass)

  datatype Action =
    | WindowStart(latest: nat, batch: seq<Row>) // the crawler asks the node for the logs of a window
    | InsertRow                                 // one row of the window
    | WindowSave                                // the summary moves to the end of the window
    | WindowFails                               // the crawler dies and is started again
    | PassStart                                 // the aggregator reads summary and record
    | PassQuery                                 // it selects the rows that are new and averages them
    | PassWriteSome(some: set<nat>)             // some of the block prices are in, the rest still to come
    | PassWrite                                 // all block prices are in, if there are any
    | PassSave                                  // it widens the record
    | PassDies                                  // the aggregator dies, at any point of a pass

  /** The window after `max`: it starts with the last block of the one before. */
  function WindowEnd(max: nat, latest: nat): nat {
    if latest > max + UPDATE_AMOUNT then max + UPDATE_AMOUNT else latest
  }

  /** The rows a pass looks at. */
  predicate Selected(block: nat, from: int, to: int, recMin: int, recMax: int) {
    from <= block <= to && (block > recMax || block < recMin)
  }

  /** What the node answers: the logs of the window, nothing else. */
  ghost predicate WindowOf(logs: Logs, from: nat, to: nat, batch: seq<Row>) {
    forall r :: r in batch <==> logs(r) && from <= r.block <= to
  }

  /** The means of the selected blocks. */
  ghost predicate MeansOf(rows: seq<Row>, from: int, to: int, recMin: int, recMax: int, means: map<nat, real>) {
    && (forall b: nat :: b in means <==> HasRow(rows, b) && Selected(b, from, to, recMin, recMax))
    && (forall b: nat :: b in means ==> CountOf(rows, b) > 0 && means[b] == Mean(rows, b))
  }

  /** The prices after a write: what was there stays. */
  function Filled(prices: map<nat, real>, means: map<nat, real>): map<nat, real> {
    means + prices
  }

  /** The means of some blocks only. */
  function Only(means: map<nat, real>, some: set<nat>): map<nat, real> {
    means - (means.Keys - some)
  }

  ghost predicate Enabled(logs: Logs, sys: System, a: Action) {
    match a
    case WindowStart(latest, batch) =>
      sys.crawl.Resting? && latest > sys.t.sumMax
      && WindowOf(logs, sys.t.sumMax, WindowEnd(sys.t.sumMax, latest), batch)
    case InsertRow => sys.crawl.Crawling? && sys.crawl.next < |sys.crawl.batch|
    case WindowSave => sys.crawl.Crawling? && sys.crawl.next == |sys.crawl.batch|
    case WindowFails => true
    case PassStart => sys.pass.NoPass?
    case PassQuery => sys.pass.Started?
    case PassWriteSome(_) => sys.pass.Computed?
    case PassWrite => sys.pass.Computed?
    case PassSave => sys.pass.Written?
    case PassDies => !sys.pass.NoPass?
  }

  /** The system after a step; the means a query computes are determined by the rows. */
  ghost predicate Next(logs: Logs, sys: System, a: Action, after: System)
    requires Enabled(logs, sys, a)
  {
    match a
    case WindowStart(latest, batch) => after == sys.(crawl := Crawling(WindowEnd(sys.t.sumMax, latest), batch, 0))
    case InsertRow =>
      after == sys.(t := sys.t.(rows := Inserted(sys.t.rows, sys.crawl.batch[sys.crawl.next])),
                    crawl := sys.crawl.(next := sys.crawl.next + 1))
    case WindowSave => after == sys.(t := sys.t.(sumMax := sys.crawl.to), crawl := Resting)
    case WindowFails => after == sys.(crawl := Resting)
    case PassStart => after == sys.(pass := Started(sys.t.sumMin, sys.t.sumMax))
    case PassQuery =>
      && after.pass.Computed? && after == sys.(pass := Computed(sys.pass.from, sys.pass.to, after.pass.means))
      && MeansOf(sys.t.rows, sys.pass.from, sys.pass.to, sys.t.recMin, sys.t.recMax, after.pass.means)
    case PassWriteSome(some) =>
      after == sys.(t := sys.t.(blockPrices := Filled(sys.t.blockPrices, Only(sys.pass.means, some))))
    case PassWrite =>
      after == if sys.pass.means == map[] then sys.(pass := NoPass)
               else sys.(t := sys.t.(blockPrices := Filled(sys.t.blockPrices, sys.pass.means)),
                         pass := Written(sys.pass.from, sys.pass.to))
    case PassSave =>
      after == sys.(t := sys.t.(recMin := Min(sys.pass.from, sys.t.recMin),
                                recMax := Max(sys.pass.to, sys.t.recMax)),
                    pass := NoPass)
    case PassDies => after == sys.(pass := NoPass)
  }

  /** Every row is a log, and up to the end of the summary every log is there. */
  ghost predicate RowsValid(logs: Logs, t: Tables) {
    && (forall r :: r in t.rows ==> logs(r) && r.block >= t.sumMin)
    && (forall r :: logs(r) && t.sumMin <= r.block <= t.sumMax ==> r in t.rows)
    && NoDuplicates(t.rows)
    && t.sumMin <= t.sumMax && t.sumMin <= MAX_INT
  }

  ghost predicate CrawlValid(logs: Logs, t: Tables, crawl: Crawl) {
    crawl.Crawling? ==>
      && t.sumMax < crawl.to <= t.sumMax + UPDATE_AMOUNT
      && WindowOf(logs, t.sumMax, crawl.to, crawl.batch)
      && crawl.next <= |crawl.batch|
      && forall i :: 0 <= i < crawl.next ==> crawl.batch[i] in t.rows
  }

  /** Every stored price is the mean of a block from `low` to `high`. */
  ghost predicate Right(rows: seq<Row>, prices: map<nat, real>, low: int, high: int) {
    forall b: nat :: b in prices ==> low <= b <= high && CountOf(rows, b) > 0 && prices[b] == Mean(rows, b)
  }

  /** Every block from `low` to `high` that has rows has a price. */
  ghost predicate Covers(rows: seq<Row>, prices: map<nat, real>, low: int, high: int) {
    forall b: nat :: low <= b <= high && HasRow(rows, b) ==> b in prices
  }

  /** The per-block table holds exactly the means of the blocks from `low` to `high`. */
  ghost predicate Exact(rows: seq<Row>, prices: map<nat, real>, low: int, high: int) {
    Right(rows, prices, low, high) && Covers(rows, prices, low, high)
  }

  ghost predicate RecordValid(t: Tables) {
    (t.recMin == MAX_INT && t.recMax == -1) || (t.recMin == t.sumMin && t.recMin <= t.recMax <= t.sumMax)
  }

  /** Dead passes may have left prices outside the record, but never a wrong one. */
  ghost predicate Usable(t: Tables, low: int, high: int) {
    Right(t.rows, t.blockPrices, low, high) && Covers(t.rows, t.blockPrices, t.recMin, t.recMax)
  }

  /** A pass works on the summary as it was when it started. */
  predicate PassBounds(t: Tables, from: int, to: int) {
    from == t.sumMin && from <= to <= t.sumMax && t.recMax <= to
  }

  ghost predicate PassValid(t: Tables, pass: Pass) {
    match pass
    case NoPass => Usable(t, t.sumMin, t.sumMax)
    case Started(from, to) => PassBounds(t, from, to) && Usable(t, from, to)
    case Computed(from, to, means) =>
      PassBounds(t, from, to) && Usable(t, from, to) && MeansOf(t.rows, from, to, t.recMin, t.recMax, means)
    case Written(from, to) => PassBounds(t, from, to) && Exact(t.rows, t.blockPrices, from, to)
  }

  ghost predicate SystemValid(logs: Logs, sys: System) {
    RowsValid(logs, sys.t) && CrawlValid(logs, sys.t, sys.crawl) && RecordValid(sys.t) && PassValid(sys.t, sys.pass)
  }

  /** With one value for each log, inserting the next row never meets a different one under its key. */
  lemma InsertNeverFails(logs: Logs, sys: System)
    requires SystemValid(logs, sys) && Unique(logs) && Enabled(logs, sys, InsertRow)
    ensures var r := sys.crawl.batch[sys.crawl.next];
      forall q :: q in sys.t.rows && q.block == r.block && q.index == r.index ==> q == r
  {
    var r := sys.crawl.batch[sys.crawl.next];
    assert r in sys.crawl.batch;
    assert logs(r);
  }

  /** Either loop may die, and the crawler may go on, whatever the other is doing. */
  lemma AnyTime(logs: Logs, sys: System)
    ensures Enabled(logs, sys, WindowFails) && Enabled(logs, sys, PassStart) == sys.pass.NoPass?
    ensures !sys.pass.NoPass? ==> Enabled(logs, sys, PassDies)
  {
  }

  /** A row that is really new lies above all blocks that count as complete. */
  lemma NewRowsAreAbove(logs: Logs, t: Tables, crawl: Crawl, r: Row)
    requires RowsValid(logs, t) && CrawlValid(logs, t, crawl) && crawl.Crawling? && r in crawl.batch
    ensures logs(r) && t.sumMin <= r.block
    ensures r !in t.rows ==> r.block > t.sumMax
  {
  }

  /** A row above `high` changes nothing for the blocks up to there. */
  lemma SameBelow(rows: seq<Row>, r: Row, high: int)
    requires r in rows || r.block > high
    ensures forall b: nat :: b <= high ==>
      HasRow(Inserted(rows, r), b) == HasRow(rows, b) && SameTotals(Inserted(rows, r), rows, b)
  {
    forall b: nat | b <= high
      ensures HasRow(Inserted(rows, r), b) == HasRow(rows, b) && SameTotals(Inserted(rows, r), rows, b)
    {
      OtherBlock(rows, r, b);
    }
  }

  lemma RightKept(rows: seq<Row>, r: Row, prices: map<nat, real>, low: int, high: int)
    requires Right(rows, prices, low, high) && (r in rows || r.block > high)
    ensures Right(Inserted(rows, r), prices, low, high)
  {
    SameBelow(rows, r, high);
    forall b: nat | b in prices
      ensures CountOf(Inserted(rows, r), b) > 0 && prices[b] == Mean(Inserted(rows, r), b)
    {
      assert SameTotals(Inserted(rows, r), rows, b);
    }
  }

  lemma CoversKept(rows: seq<Row>, r: Row, prices: map<nat, real>, low: int, high: int)
    requires Covers(rows, prices, low, high) && (r in rows || r.block > high)
    ensures Covers(Inserted(rows, r), prices, low, high)
  {
    SameBelow(rows, r, high);
  }

  lemma MeansKept(rows: seq<Row>, r: Row, from: int, to: int, recMin: int, recMax: int, means: map<nat, real>)
    requires MeansOf(rows, from, to, recMin, recMax, means) && (r in rows || r.block > to)
    ensures MeansOf(Inserted(rows, r), from, to, recMin, recMax, means)
  {
    SameBelow(rows, r, to);
    forall b: nat | b in means
      ensures CountOf(Inserted(rows, r), b) > 0 && means[b] == Mean(Inserted(rows, r), b)
    {
      assert SameTotals(Inserted(rows, r), rows, b);
    }
  }

  lemma InsertKeeps(logs: Logs, sys: System)
    requires SystemValid(logs, sys) && Enabled(logs, sys, InsertRow)
    ensures var r := sys.crawl.batch[sys.crawl.next];
      SystemValid(logs, sys.(t := sys.t.(rows := Inserted(sys.t.rows, r)),
                             crawl := sys.crawl.(next := sys.crawl.next + 1)))
  {
    var r, t := sys.crawl.batch[sys.crawl.next], sys.t;
    NewRowsAreAbove(logs, t, sys.crawl, r);
    hide Right, Covers, MeansOf;
    var (low, high) := if sys.pass.NoPass? then (t.sumMin, t.sumMax) else (sys.pass.from, sys.pass.to);
    RightKept(t.rows, r, t.blockPrices, low, high);
    if sys.pass.Written? {
      CoversKept(t.rows, r, t.blockPrices, low, high);
    } else {
      CoversKept(t.rows, r, t.blockPrices, t.recMin, t.recMax);
    }
    if sys.pass.Computed? {
      MeansKept(t.rows, r, sys.pass.from, sys.pass.to, t.recMin, t.recMax, sys.pass.means);
    }
  }

  /** What is stored and the new means together cover the whole summary, whatever dead passes have left. */
  lemma WriteIsExact(t: Tables, from: int, to: int, means: map<nat, real>)
    requires PassBounds(t, from, to) && Usable(t, from, to) && RecordValid(t)
    requires MeansOf(t.rows, from, to, t.recMin, t.recMax, means)
    ensures Exact(t.rows, Filled(t.blockPrices, means), from, to)
  {
  }

  /** Part of the new means does no harm. */
  lemma WriteSomeIsUsable(t: Tables, from: int, to: int, means: map<nat, real>, some: set<nat>)
    requires Usable(t, from, to) && MeansOf(t.rows, from, to, t.recMin, t.recMax, means)
    ensures Usable(t.(blockPrices := Filled(t.blockPrices, Only(means, some))), from, to)
  {
  }

  /** A pass that finds nothing new leaves nothing outside the record. */
  lemma NothingNew(t: Tables, from: int, to: int, means: map<nat, real>)
    requires Usable(t, from, to) && MeansOf(t.rows, from, to, t.recMin, t.recMax, means) && means == map[]
    ensures Exact(t.rows, t.blockPrices, t.recMin, t.recMax)
  {
    forall b: nat | b in t.blockPrices
      ensures t.recMin <= b <= t.recMax
    {
      CountIsRows(t.rows, b);
    }
  }

  lemma Widened(rows: seq<Row>, prices: map<nat, real>, low: int, high: int, lower: int, higher: int)
    requires Right(rows, prices, low, high) && lower <= low && high <= higher
    ensures Right(rows, prices, lower, higher)
  {
  }

  lemma Narrowed(rows: seq<Row>, prices: map<nat, real>, low: int, high: int, lower: int, higher: int)
    requires Covers(rows, prices, lower, higher) && lower <= low && high <= higher
    ensures Covers(rows, prices, low, high)
  {
  }

  /** Every step of either loop keeps the invariant. */
  lemma StepKeeps(logs: Logs, sys: System, a: Action, after: System)
    requires SystemValid(logs, sys) && Enabled(logs, sys, a) && Next(logs, sys, a, after)
    ensures SystemValid(logs, after)
  {
    hide Right, Covers, MeansOf, HasRow, Filled, Only;
    var t := sys.t;
    match a
    case InsertRow => InsertKeeps(logs, sys);
    case WindowSave =>
      WindowIsComplete(logs, t, sys.crawl);
      if sys.pass.NoPass? {
        Widened(t.rows, t.blockPrices, t.sumMin, t.sumMax, t.sumMin, sys.crawl.to);
      }
    case PassWriteSome(some) => WriteSomeIsUsable(t, sys.pass.from, sys.pass.to, sys.pass.means, some);
    case PassWrite =>
      WriteIsExact(t, sys.pass.from, sys.pass.to, sys.pass.means);
      Widened(t.rows, t.blockPrices, sys.pass.from, sys.pass.to, t.sumMin, t.sumMax);
    case PassSave => Widened(t.rows, t.blockPrices, sys.pass.from, sys.pass.to, t.sumMin, t.sumMax);
    case PassDies =>
      Widened(t.rows, t.blockPrices, sys.pass.from, sys.pass.to, t.sumMin, t.sumMax);
      if sys.pass.Written? {
        Narrowed(t.rows, t.blockPrices, t.recMin, t.recMax, sys.pass.from, sys.pass.to);
      }
    case _ =>
  }

  /** A window whose rows are all in leaves no gap behind it. */
  lemma WindowIsComplete(logs: Logs, t: Tables, crawl: Crawl)
    requires RowsValid(logs, t) && CrawlValid(logs, t, crawl) && crawl.Crawling? && crawl.next == |crawl.batch|
    ensures RowsValid(logs, t.(sumMax := crawl.to))
  {
    forall r | logs(r) && t.sumMin <= r.block <= crawl.to
      ensures r in t.rows
    {
      if r.block >= t.sumMax {
        assert r in crawl.batch;
        var i :| 0 <= i < |crawl.batch| && crawl.batch[i] == r;
        assert crawl.batch[i] in t.rows;
      }
    }
  }

  /** A run: the states it goes through, and the step that leads from each to the next. */
  ghost predicate IsRun(logs: Logs, states: seq<System>, steps: seq<Action>) {
    && |states| == |steps| + 1
    && forall i :: 0 <= i < |steps| ==>
      Enabled(logs, states[i], steps[i]) && Next(logs, states[i], steps[i], states[i + 1])
  }

  /** A complete table of rows that nobody has aggregated yet. */
  ghost predicate Fresh(logs: Logs, sys: System) {
    && RowsValid(logs, sys.t) && sys.t.blockPrices == map[] && sys.t.recMin == MAX_INT && sys.t.recMax == -1
    && sys.crawl == Resting && sys.pass == NoPass
  }

  /** Rows are inserted one after the other, while the summary stays. */
  lemma {:induction false} InsertsGoOn(logs: Logs, states: seq<System>, steps: seq<Action>, k: nat)
    requires IsRun(logs, states, steps) && k < |states| && states[0].crawl.Crawling?
    requires forall i :: 0 <= i < k ==> steps[i] == InsertRow
    ensures states[k].crawl == states[0].crawl.(next := states[0].crawl.next + k)
    ensures states[k].t.sumMin == states[0].t.sumMin && states[k].t.sumMax == states[0].t.sumMax
    decreases k
  {
    if k > 0 {
      InsertsGoOn(logs, states, steps, k - 1);
      assert Next(logs, states[k - 1], steps[k - 1], states[k]);
    }
  }

  lemma {:induction false} ValidRun(logs: Logs, states: seq<System>, steps: seq<Action>, i: nat)
    requires IsRun(logs, states, steps) && SystemValid(logs, states[0]) && i < |states|
    ensures SystemValid(logs, states[i])
    decreases i
  {
    hide Enabled, Next, SystemValid;
    if i > 0 {
      ValidRun(logs, states, steps, i - 1);
      StepKeeps(logs, states[i - 1], steps[i - 1], states[i]);
    }
  }

  /** A window that nothing disturbs moves the summary on, to the head or by 20000 blocks, with all logs up to there. */
  lemma WindowCatchesUp(logs: Logs, states: seq<System>, steps: seq<Action>, latest: nat, batch: seq<Row>)
    requires IsRun(logs, states, steps) && SystemValid(logs, states[0]) && |steps| == |batch| + 2
    requires steps[0] == WindowStart(latest, batch) && steps[|batch| + 1] == WindowSave
    requires forall i :: 0 < i <= |batch| ==> steps[i] == InsertRow
    ensures var was, now := states[0].t, states[|batch| + 2].t;
      && now.sumMin == was.sumMin && now.sumMax == Min(latest, was.sumMax + 20000)
      && forall r :: logs(r) && now.sumMin <= r.block <= now.sumMax ==> r in now.rows
  {
    var n := |batch|;
    ValidRun(logs, states, steps, n + 2);
    assert Enabled(logs, states[0], steps[0]) && Next(logs, states[0], steps[0], states[1]);
    assert Next(logs, states[n + 1], steps[n + 1], states[n + 2]);
    TailIsRun(logs, states, steps);
    hide Enabled, CrawlValid, PassValid, RecordValid, IsRun;
    InsertsGoOn(logs, states[1..], steps[1..], n);
  }

  lemma TailIsRun(logs: Logs, states: seq<System>, steps: seq<Action>)
    requires IsRun(logs, states, steps) && steps != []
    ensures IsRun(logs, states[1..], steps[1..])
  {
    hide Enabled, Next;
  }

  lemma RunKeeps(logs: Logs, states: seq<System>, steps: seq<Action>, i: nat)
    requires IsRun(logs, states, steps) && Fresh(logs, states[0]) && i < |states|
    ensures SystemValid(logs, states[i])
  {
    ValidRun(logs, states, steps, i);
  }

  /**
   The aggregated view in any state of any interleaving, whichever loop dies and wherever:
   every price is the mean of a block whose logs are all in, every recorded block with
   logs has one, and whatever is recorded is complete.
   */
  lemma ViewIsRight(logs: Logs, states: seq<System>, steps: seq<Action>, i: nat)
    requires IsRun(logs, states, steps) && Fresh(logs, states[0]) && i < |states|
    ensures var t := states[i].t;
      && Right(t.rows, t.blockPrices, t.sumMin, t.sumMax)
      && Covers(t.rows, t.blockPrices, t.recMin, t.recMax)
      && t.recMax <= t.sumMax
      && (forall r :: logs(r) && t.sumMin <= r.block <= t.sumMax ==> r in t.rows)
      && (forall r :: r in t.rows ==> logs(r))
  {
    RunKeeps(logs, states, steps, i);
  }

  /** The price of a block is the mean of all its logs, in whatever order they are listed. */
  lemma PriceIsMeanOfLogs(logs: Logs, states: seq<System>, steps: seq<Action>, i: nat, all: seq<Row>, block: nat)
    requires IsRun(logs, states, steps) && Fresh(logs, states[0]) && i < |states|
    requires NoDuplicates(all) && forall r: Row :: r.block == block ==> (r in all <==> logs(r))
    ensures var t := states[i].t;
      && (block in t.blockPrices ==> CountOf(all, block) > 0 && t.blockPrices[block] == Mean(all, block))
      && (t.recMin <= block <= t.recMax && CountOf(all, block) > 0 ==> block in t.blockPrices)
  {
    var t := states[i].t;
    ViewIsRight(logs, states, steps, i);
    RunKeeps(logs, states, steps, i);
    if t.sumMin <= block <= t.sumMax {
      hide Right, Covers;
      TotalsOfSameRows(t.rows, all, block);
      CountIsRows(t.rows, block);
    }
  }

  /** No price lies outside the range of the logs of its block, all of which enter with equal weight. */
  lemma PriceIsBetweenLogs(logs: Logs, states: seq<System>, steps: seq<Action>, i: nat, all: seq<Row>, block: nat,
                           low: real, high: real)
    requires IsRun(logs, states, steps) && Fresh(logs, states[0]) && i < |states|
    requires NoDuplicates(all) && forall r: Row :: r.block == block ==> (r in all <==> logs(r))
    requires forall r :: logs(r) && r.block == block ==> low <= r.current <= high
    requires block in states[i].t.blockPrices
    ensures states[i].t.blockPrices[block] * CountOf(all, block) as real == SumOf(all, block)
    ensures low <= states[i].t.blockPrices[block] <= high
  {
    hide IsRun, Fresh, Mean, CountOf, SumOf, NoDuplicates;
    assert forall r :: r in all && r.block == block ==> low <= r.current <= high;
    PriceIsMeanOfLogs(logs, states, steps, i, all, block);
    MeanIsBetween(all, block, low, high);
  }

  /** Nothing lies outside the record, except what a pass is about to record. */
  ghost predicate Tidy(sys: System) {
    sys.pass.NoPass? || sys.pass.Started? ==> Exact(sys.t.rows, sys.t.blockPrices, sys.t.recMin, sys.t.recMax)
  }

  /** The pass ends without having died. */
  predicate Completes(a: Action, after: System) {
    a.PassSave? || (a.PassWrite? && after.pass.NoPass?)
  }

  /** Only a pass that dies with prices to write can make the table untidy. */
  predicate Breaks(sys: System, a: Action) {
    a.PassDies? && (sys.pass.Computed? || sys.pass.Written?)
  }

  /** A completed pass makes the table tidy, and the other steps keep it so. */
  lemma StepKeepsTidy(logs: Logs, sys: System, a: Action, after: System)
    requires SystemValid(logs, sys) && Enabled(logs, sys, a) && Next(logs, sys, a, after)
    requires Completes(a, after) || (Tidy(sys) && !Breaks(sys, a))
    ensures Tidy(after)
  {
    hide Right, Covers, MeansOf, HasRow, Filled, Only;
    var t := sys.t;
    match a
    case InsertRow =>
      var r := sys.crawl.batch[sys.crawl.next];
      NewRowsAreAbove(logs, t, sys.crawl, r);
      if Exact(t.rows, t.blockPrices, t.recMin, t.recMax) {
        RightKept(t.rows, r, t.blockPrices, t.recMin, t.recMax);
        CoversKept(t.rows, r, t.blockPrices, t.recMin, t.recMax);
      }
    case PassWrite =>
      if sys.pass.means == map[] {
        NothingNew(t, sys.pass.from, sys.pass.to, sys.pass.means);
      }
    case _ =>
  }

  lemma FreshIsTidy(logs: Logs, sys: System)
    requires Fresh(logs, sys)
    ensures Tidy(sys)
  {
  }

  /** Prices are only added, and only outside the record. */
  ghost predicate GrewOutside(was: map<nat, real>, now: map<nat, real>, recMin: int, recMax: int) {
    && (forall b :: b in was ==> b in now && now[b] == was[b])
    && (forall b :: b in now && b !in was ==> b < recMin || b > recMax)
  }

  /** Until a pass is completed the record stays, what is written lies outside it, and what was exact stays so. */
  lemma StepGrows(logs: Logs, sys: System, a: Action, after: System, was: map<nat, real>)
    requires SystemValid(logs, sys) && Enabled(logs, sys, a) && Next(logs, sys, a, after) && !Completes(a, after)
    requires Exact(sys.t.rows, was, sys.t.recMin, sys.t.recMax)
    ensures after.t.recMin == sys.t.recMin && after.t.recMax == sys.t.recMax
    ensures GrewOutside(sys.t.blockPrices, after.t.blockPrices, sys.t.recMin, sys.t.recMax)
    ensures Exact(after.t.rows, was, sys.t.recMin, sys.t.recMax)
  {
    hide Right, Covers, HasRow;
    var t := sys.t;
    if a.InsertRow? {
      var r := sys.crawl.batch[sys.crawl.next];
      NewRowsAreAbove(logs, t, sys.crawl, r);
      RightKept(t.rows, r, was, t.recMin, t.recMax);
      CoversKept(t.rows, r, was, t.recMin, t.recMax);
    }
  }

  lemma GrewTwice(a: map<nat, real>, b: map<nat, real>, c: map<nat, real>, recMin: int, recMax: int)
    requires GrewOutside(a, b, recMin, recMax) && GrewOutside(b, c, recMin, recMax)
    ensures GrewOutside(a, c, recMin, recMax)
  {
  }

  /** No pass has been completed since `from`. */
  ghost predicate NoneCompleted(states: seq<System>, steps: seq<Action>, from: nat, i: nat)
    requires |states| == |steps| + 1 && i < |states|
  {
    forall k :: from <= k < i ==> !Completes(steps[k], states[k + 1])
  }

  /** At the start, or right after a completed pass, the table is exact. */
  lemma StartsExact(logs: Logs, states: seq<System>, steps: seq<Action>, from: nat)
    requires IsRun(logs, states, steps) && Fresh(logs, states[0]) && from < |states|
    requires from == 0 || Completes(steps[from - 1], states[from])
    ensures var t := states[from].t; Exact(t.rows, t.blockPrices, t.recMin, t.recMax)
  {
    if from > 0 {
      RunKeeps(logs, states, steps, from - 1);
      CompletedIsIdle(logs, states[from - 1], steps[from - 1], states[from]);
      hide Exact, Enabled, Next, Fresh, SystemValid, Completes;
      StepKeepsTidy(logs, states[from - 1], steps[from - 1], states[from]);
    }
  }

  lemma CompletedIsIdle(logs: Logs, sys: System, a: Action, after: System)
    requires Enabled(logs, sys, a) && Next(logs, sys, a, after) && Completes(a, after)
    ensures after.pass.NoPass?
  {
  }

  lemma LastStep(logs: Logs, states: seq<System>, steps: seq<Action>, from: nat, i: nat)
    requires IsRun(logs, states, steps) && from < i < |states| && NoneCompleted(states, steps, from, i)
    ensures |states| == |steps| + 1 && NoneCompleted(states, steps, from, i - 1)
    ensures Enabled(logs, states[i - 1], steps[i - 1]) && Next(logs, states[i - 1], steps[i - 1], states[i])
    ensures !Completes(steps[i - 1], states[i])
  {
    hide Enabled, Next, Completes;
  }

  /** `now` has the record and all prices of `was`, which are still exact, and perhaps others outside the record. */
  ghost predicate GrownFrom(was: Tables, now: Tables) {
    && now.recMin == was.recMin && now.recMax == was.recMax
    && GrewOutside(was.blockPrices, now.blockPrices, was.recMin, was.recMax)
    && Exact(now.rows, was.blockPrices, was.recMin, was.recMax)
  }

  lemma GrownFromItself(t: Tables)
    requires Exact(t.rows, t.blockPrices, t.recMin, t.recMax)
    ensures GrownFrom(t, t)
  {
  }

  lemma RunLength(logs: Logs, states: seq<System>, steps: seq<Action>)
    requires IsRun(logs, states, steps)
    ensures |states| == |steps| + 1
  {
  }

  lemma GrowsFurther(logs: Logs, was: Tables, sys: System, a: Action, after: System)
    requires GrownFrom(was, sys.t) && SystemValid(logs, sys)
    requires Enabled(logs, sys, a) && Next(logs, sys, a, after) && !Completes(a, after)
    ensures GrownFrom(was, after.t)
  {
    hide Enabled, Next, SystemValid, Exact, GrewOutside, Completes;
    StepGrows(logs, sys, a, after, was.blockPrices);
    GrewTwice(was.blockPrices, sys.t.blockPrices, after.t.blockPrices, was.recMin, was.recMax);
  }

  lemma {:induction false} GrowsOutside(logs: Logs, states: seq<System>, steps: seq<Action>, from: nat, i: nat)
    requires IsRun(logs, states, steps) && Fresh(logs, states[0]) && from <= i < |states|
    requires from == 0 || Completes(steps[from - 1], states[from])
    requires NoneCompleted(states, steps, from, i)
    ensures GrownFrom(states[from].t, states[i].t)
    decreases i
  {
    hide Exact, Enabled, Next, Fresh, SystemValid, Completes, GrownFrom, IsRun, NoneCompleted;
    RunLength(logs, states, steps);
    if i == from {
      StartsExact(logs, states, steps, from);
      GrownFromItself(states[i].t);
    } else {
      LastStep(logs, states, steps, from, i);
      RunKeeps(logs, states, steps, i - 1);
      GrowsOutside(logs, states, steps, from, i - 1);
      GrowsFurther(logs, states[from].t, states[i - 1], steps[i - 1], states[i]);
    }
  }

  /**
   When the table is exactly the means of the recorded interval: in any state, whichever
   loop died since and wherever, exactly if no price has been written since the last
   completed pass.
   */
  lemma ExactUntilWritten(logs: Logs, states: seq<System>, steps: seq<Action>, from: nat, i: nat)
    requires IsRun(logs, states, steps) && Fresh(logs, states[0]) && from <= i < |states|
    requires from == 0 || Completes(steps[from - 1], states[from])
    requires NoneCompleted(states, steps, from, i)
    ensures Exact(states[i].t.rows, states[i].t.blockPrices, states[i].t.recMin, states[i].t.recMax)
       <==> states[i].t.blockPrices == states[from].t.blockPrices
  {
    GrowsOutside(logs, states, steps, from, i);
    hide Covers, Fresh, IsRun, NoneCompleted;
  }

  /** A step that ends with no pass at work writes nothing, unless the pass is completed or dies with prices. */
  lemma IdleWritesNothing(logs: Logs, sys: System, a: Action, after: System)
    requires Enabled(logs, sys, a) && Next(logs, sys, a, after) && !Completes(a, after) && !Breaks(sys, a)
    requires after.pass.NoPass? || after.pass.Started?
    ensures sys.pass.NoPass? || sys.pass.Started?
    ensures after.t.blockPrices == sys.t.blockPrices
  {
  }

  /** No pass has died with prices to write since `from`. */
  ghost predicate NoneBroken(states: seq<System>, steps: seq<Action>, from: nat, i: nat)
    requires |states| == |steps| + 1 && i < |states|
  {
    forall k :: from <= k < i ==> !Breaks(states[k], steps[k])
  }

  lemma LastUnbroken(states: seq<System>, steps: seq<Action>, from: nat, i: nat)
    requires |states| == |steps| + 1 && from < i < |states| && NoneBroken(states, steps, from, i)
    ensures NoneBroken(states, steps, from, i - 1) && !Breaks(states[i - 1], steps[i - 1])
  {
    hide Breaks;
  }

  lemma {:induction false} NothingWritten(logs: Logs, states: seq<System>, steps: seq<Action>, from: nat, i: nat)
    requires IsRun(logs, states, steps) && from <= i < |states| && NoneCompleted(states, steps, from, i)
    requires NoneBroken(states, steps, from, i)
    requires states[i].pass.NoPass? || states[i].pass.Started?
    ensures states[i].t.blockPrices == states[from].t.blockPrices
    decreases i
  {
    hide Enabled, Next, Completes, Breaks, IsRun, NoneCompleted, NoneBroken;
    if i > from {
      RunLength(logs, states, steps);
      LastStep(logs, states, steps, from, i);
      LastUnbroken(states, steps, from, i);
      IdleWritesNothing(logs, states[i - 1], steps[i - 1], states[i]);
      NothingWritten(logs, states, steps, from, i - 1);
    }
  }

  /**
   From a completed pass, or from the start, the table is exactly the means of the
   recorded interval whenever no pass is at work, until a pass dies with prices to write.
   */
  lemma {:induction false} ViewIsExact(logs: Logs, states: seq<System>, steps: seq<Action>, from: nat, i: nat)
    requires IsRun(logs, states, steps) && Fresh(logs, states[0]) && from <= i < |states|
    requires from == 0 || Completes(steps[from - 1], states[from])
    requires NoneBroken(states, steps, from, i)
    ensures Tidy(states[i])
    decreases i - from
  {
    hide Enabled, Next, Fresh, SystemValid, Completes, Breaks, Exact;
    if k :| from <= k < i && Completes(steps[k], states[k + 1]) {
      ViewIsExact(logs, states, steps, k + 1, i);
    } else if states[i].pass.NoPass? || states[i].pass.Started? {
      NothingWritten(logs, states, steps, from, i);
      ExactUntilWritten(logs, states, steps, from, i);
    }
  }

  /** A pass that has written its prices has written some outside the record. */
  ghost predicate WroteOutside(sys: System) {
    sys.pass.Written? ==>
      exists b :: b in sys.t.blockPrices && (b < sys.t.recMin || b > sys.t.recMax)
  }

  lemma StepWritesOutside(logs: Logs, sys: System, a: Action, after: System)
    requires SystemValid(logs, sys) && WroteOutside(sys) && Enabled(logs, sys, a) && Next(logs, sys, a, after)
    ensures WroteOutside(after)
  {
    hide Right, Covers, HasRow;
    if a.PassWrite? && sys.pass.means != map[] {
      var b :| b in sys.pass.means;
      assert b in after.t.blockPrices && (b < after.t.recMin || b > after.t.recMax);
    }
  }

  /** So dying between the prices and the record always leaves prices outside it. */
  lemma {:induction false} DeadPassLeavesPrices(logs: Logs, states: seq<System>, steps: seq<Action>, i: nat)
    requires IsRun(logs, states, steps) && Fresh(logs, states[0]) && i < |states|
    ensures WroteOutside(states[i])
    ensures states[i].pass.Written? ==>
      !Exact(states[i].t.rows, states[i].t.blockPrices, states[i].t.recMin, states[i].t.recMax)
    decreases i
  {
    if i > 0 {
      RunKeeps(logs, states, steps, i - 1);
      DeadPassLeavesPrices(logs, states, steps, i - 1);
      hide Enabled, Next, Fresh, SystemValid, WroteOutside;
      StepWritesOutside(logs, states[i - 1], steps[i - 1], states[i]);
    }
  }

  const FIRST := Row(1, 0, 2.0)
  const SECOND := Row(2, 0, 4.0)
  const TWO_ROWS := System(Tables([FIRST, SECOND], 1, 2, map[], MAX_INT, -1), Resting, NoPass)

  /** Two blocks with one row each: the pass dies when it has written the price of the first. */
  function DeadRun(): (seq<System>, seq<Action>) {
    var means := map[1 := 2.0, 2 := 4.0];
    var computed := TWO_ROWS.(pass := Computed(1, 2, means));
    var written := computed.(t := computed.t.(blockPrices := map[1 := 2.0]));
    ([TWO_ROWS, TWO_ROWS.(pass := Started(1, 2)), computed, written, written.(pass := NoPass)],
     [PassStart, PassQuery, PassWriteSome({1}), PassDies])
  }

  lemma TwoRowTotals(block: nat)
    ensures HasRow([FIRST, SECOND], block) <==> block == 1 || block == 2
    ensures block == 1 || block == 2 ==>
      CountOf([FIRST, SECOND], block) > 0 && Mean([FIRST, SECOND], block) == 2.0 * block as real
  {
    var rows := [FIRST, SECOND];
    assert rows[..1] == [FIRST] && [FIRST][..0] == [];
    assert CountOf([FIRST], block) == (if block == 1 then 1 else 0);
    assert SumOf([FIRST], block) == (if block == 1 then 2.0 else 0.0);
    assert CountOf(rows, block) == CountOf([FIRST], block) + if block == 2 then 1 else 0;
    assert SumOf(rows, block) == SumOf([FIRST], block) + if block == 2 then 4.0 else 0.0;
    assert HasRow(rows, 1) by { assert FIRST in rows; }
    assert HasRow(rows, 2) by { assert SECOND in rows; }
  }

  lemma TwoMeans()
    ensures MeansOf([FIRST, SECOND], 1, 2, MAX_INT, -1, map[1 := 2.0, 2 := 4.0])
    ensures Filled(map[], Only(map[1 := 2.0, 2 := 4.0], {1})) == map[1 := 2.0]
  {
    forall block: nat
      ensures HasRow([FIRST, SECOND], block) <==> block == 1 || block == 2
      ensures block == 1 || block == 2 ==>
        CountOf([FIRST, SECOND], block) > 0 && Mean([FIRST, SECOND], block) == 2.0 * block as real
    {
      TwoRowTotals(block);
    }
    hide CountOf, SumOf, Mean, HasRow;
  }

  lemma DeadRunIsRun(logs: Logs)
    requires forall r :: logs(r) <==> r == FIRST || r == SECOND
    ensures IsRun(logs, DeadRun().0, DeadRun().1) && Fresh(logs, TWO_ROWS)
  {
    hide MeansOf, Filled, Only;
    TwoMeans();
    assert forall r :: r in TWO_ROWS.t.rows <==> r == FIRST || r == SECOND;
  }

  /** After that run no pass is at work, and the table is not exact on the record. */
  lemma DeadRunLeavesPrice(logs: Logs)
    requires forall r :: logs(r) <==> r == FIRST || r == SECOND
    ensures IsRun(logs, DeadRun().0, DeadRun().1) && Fresh(logs, DeadRun().0[0])
    ensures var last := DeadRun().0[4];
      && last.pass.NoPass? && last.t.recMax == -1 && last.t.blockPrices == map[1 := 2.0]
      && !Exact(last.t.rows, last.t.blockPrices, last.t.recMin, last.t.recMax)
  {
    DeadRunIsRun(logs);
    OutsideIsNotExact([FIRST, SECOND], map[1 := 2.0], 1, MAX_INT, -1);
  }

  lemma OutsideIsNotExact(rows: seq<Row>, prices: map<nat, real>, block: nat, low: int, high: int)
    requires block in prices && (block < low || block > high)
    ensures !Exact(rows, prices, low, high)
  {
  }

  /** An undisturbed pass that finds anything new catches up with the summary, whatever dead passes have left. */
  lemma PassCatchesUp(logs: Logs, states: seq<System>, r: Row)
    requires IsRun(logs, states, [PassStart, PassQuery, PassWrite, PassSave]) && SystemValid(logs, states[0])
    requires var t := states[0].t; r in t.rows && Selected(r.block, t.sumMin, t.sumMax, t.recMin, t.recMax)
    ensures states[4].t.recMin == states[0].t.sumMin && states[4].t.recMax == states[0].t.sumMax
    ensures Exact(states[4].t.rows, states[4].t.blockPrices, states[0].t.sumMin, states[0].t.sumMax)
  {
    hide Right, Covers, Filled, SystemValid, RowsValid;
    var steps := [PassStart, PassQuery, PassWrite, PassSave];
    assert Enabled(logs, states[0], steps[0]) && Next(logs, states[0], steps[0], states[1]);
    assert Enabled(logs, states[1], steps[1]) && Next(logs, states[1], steps[1], states[2]);
    assert Enabled(logs, states[2], steps[2]) && Next(logs, states[2], steps[2], states[3]);
    assert Enabled(logs, states[3], steps[3]) && Next(logs, states[3], steps[3], states[4]);
    StepKeeps(logs, states[0], PassStart, states[1]);
    StepKeeps(logs, states[1], PassQuery, states[2]);
    StepKeeps(logs, states[2], PassWrite, states[3]);
    assert HasRow(states[0].t.rows, r.block);
    PassIsWritten(logs, states[3]);
  }

  lemma PassIsWritten(logs: Logs, sys: System)
    requires SystemValid(logs, sys)
    ensures sys.pass.Written? ==> Exact(sys.t.rows, sys.t.blockPrices, sys.pass.from, sys.pass.to)
    ensures RecordValid(sys.t) && (sys.pass.Written? ==> PassBounds(sys.t, sys.pass.from, sys.pass.to))
    ensures sys.t.sumMin <= MAX_INT
  {
  }

  class PriceTables {
    var rows: seq<Row>
    var sumMin: nat
    var sumMax: nat
    var blockPrices: map<nat, real>
    var recMin: int
    var recMax: int

    ghost function State(): Tables
      reads this
    {
      Tables(rows, sumMin, sumMax, blockPrices, recMin, recMax)
    }

    /** The tables of a pair whose rows have been summarised, with a fresh record. */
    constructor (rows: seq<Row>, sumMin: nat, sumMax: nat)
      ensures State() == Tables(rows, sumMin, sumMax, map[], MAX_INT, -1) && recMin == 2147483647
    {
      this.rows, this.sumMin, this.sumMax := rows, sumMin, sumMax;
      blockPrices, recMin, recMax := map[], MAX_INT, -1;
    }

    /**
     Adds a row unless it is there; a different value for the same log breaks the unique
     key, even when the caller asks for values to be replaced: the lookup that was meant
     to find the old value includes the new one, and fails first.
     */
    method InsertPrice(r: Row, replace: bool) returns (res: Result<()>)
      requires UniqueKeys(rows)
      modifies this`rows
      ensures res.Err? <==> r !in old(rows) && exists q :: q in old(rows) && q.block == r.block && q.index == r.index
      ensures rows == if res.Ok? then Inserted(old(rows), r) else old(rows)
      ensures UniqueKeys(rows)
    {
      res := GetOrCreate(r);
      if res.Ok? && replace {
        for i := 0 to |rows|
          invariant rows == Inserted(old(rows), r) && UniqueKeys(rows) && r in rows
        {
          if rows[i].block == r.block && rows[i].index == r.index {
            assert rows[i] == r;
            rows := rows[i := rows[i].(current := r.current)];
            break;
          }
        }
      }
    }

    /** Looks a row up by all its fields and creates it if it is not there. */
    method GetOrCreate(r: Row) returns (res: Result<()>)
      requires UniqueKeys(rows)
      modifies this`rows
      ensures res.Err? <==> r !in old(rows) && exists q :: q in old(rows) && q.block == r.block && q.index == r.index
      ensures rows == if res.Ok? then Inserted(old(rows), r) else old(rows)
      ensures UniqueKeys(rows) && (res.Ok? ==> r in rows)
    {
      for i := 0 to |rows|
        invariant rows == old(rows)
        invariant forall j :: 0 <= j < i ==> rows[j] != r
      {
        if rows[i] == r {
          return Ok(());
        }
      }
      for i := 0 to |rows|
        invariant rows == old(rows)
        invariant forall j :: 0 <= j < i ==> !(rows[j].block == r.block && rows[j].index == r.index)
      {
        if rows[i].block == r.block && rows[i].index == r.index {
          return Err("IntegrityError");
        }
      }
      rows := rows + [r];
      return Ok(());
    }

    /** The window the crawler takes next, if the chain has moved on. */
    method NextWindow(latest: nat) returns (window: Option<(nat, nat)>)
      ensures window.Some? <==> latest > sumMax
      ensures window.Some? ==> window.value.0 == sumMax && window.value.1 == Min(latest, sumMax + 20000)
      ensures window == if latest > sumMax then Some((sumMax, WindowEnd(sumMax, latest))) else None
    {
      var blockFrom, blockTo := sumMax, latest;
      if blockTo > blockFrom {
        if blockTo > blockFrom + UPDATE_AMOUNT {
          blockTo := blockFrom + UPDATE_AMOUNT;
        }
        if blockTo > sumMax {
          return Some((blockFrom, blockTo));
        }
      }
      return None;
    }

    /** The query of a pass: the selected rows grouped by block and averaged. */
    method BlockMeans(from: int, to: int) returns (means: map<nat, real>)
      ensures MeansOf(rows, from, to, recMin, recMax, means)
    {
      var price: seq<Row> := [];
      for i := 0 to |rows|
        invariant forall r :: r in price <==> r in rows[..i] && Selected(r.block, from, to, recMin, recMax)
        invariant forall b: nat :: Selected(b, from, to, recMin, recMax) ==> SameTotals(price, rows[..i], b)
      {
        assert rows[..i + 1][..i] == rows[..i] && rows[..i + 1] == rows[..i] + [rows[i]];
        ghost var was := price;
        if from <= rows[i].block <= to && (rows[i].block > recMax || rows[i].block < recMin) {
          assert (price + [rows[i]])[..|price|] == price;
          price := price + [rows[i]];
        }
        forall b: nat | Selected(b, from, to, recMin, recMax)
          ensures SameTotals(price, rows[..i + 1], b)
        {
          assert SameTotals(was, rows[..i], b);
        }
      }
      assert rows[..|rows|] == rows;
      means := map[];
      for i := 0 to |price|
        invariant forall b :: b in means <==> exists r :: r in price[..i] && r.block == b
        invariant forall b :: b in means ==> CountOf(price, b) > 0 && means[b] == Mean(price, b)
      {
        assert price[..i + 1] == price[..i] + [price[i]];
        assert price[i] in price;
        CountIsRows(price, price[i].block);
        means := means[price[i].block := Mean(price, price[i].block)];
      }
      assert price[..|price|] == price;
      MeansOfSelection(rows, price, from, to, recMin, recMax, means);
    }

    /** A whole pass of the aggregator over the default range, nobody interfering. */
    method BlockGranularityUpdate()
      requires RecordValid(State()) && sumMin <= sumMax && sumMin <= MAX_INT
      requires Usable(State(), sumMin, sumMax)
      modifies this`blockPrices, this`recMin, this`recMax
      ensures RecordValid(State()) && Exact(rows, blockPrices, recMin, recMax)
      ensures (exists r :: r in rows && Selected(r.block, sumMin, sumMax, old(recMin), old(recMax))) ==>
        recMin == sumMin && recMax == sumMax
    {
      var blockFrom: int, blockTo: int := sumMin, sumMax;
      var means := BlockMeans(blockFrom, blockTo);
      if means != map[] {
        WriteIsExact(State(), blockFrom, blockTo, means);
        blockPrices := Filled(blockPrices, means);
        recMax := Max(blockTo, recMax);
        recMin := Min(blockFrom, recMin);
      } else {
        NothingNew(State(), blockFrom, blockTo, means);
        NothingSelected(rows, blockFrom, blockTo, recMin, recMax, means);
      }
    }
  }

  lemma NothingSelected(rows: seq<Row>, from: int, to: int, recMin: int, recMax: int, means: map<nat, real>)
    requires MeansOf(rows, from, to, recMin, recMax, means) && means == map[]
    ensures forall r :: r in rows ==> !Selected(r.block, from, to, recMin, recMax)
  {
    forall r | r in rows
      ensures !Selected(r.block, from, to, recMin, recMax)
    {
      assert HasRow(rows, r.block);
    }
  }

  /** The means over a selection of rows are the means over all of them. */
  lemma MeansOfSelection(rows: seq<Row>, price: seq<Row>, from: int, to: int, recMin: int, recMax: int,
                         means: map<nat, real>)
    requires forall r :: r in price <==> r in rows && Selected(r.block, from, to, recMin, recMax)
    requires forall b: nat :: Selected(b, from, to, recMin, recMax) ==> SameTotals(price, rows, b)
    requires forall b: nat :: b in means <==> HasRow(price, b)
    requires forall b: nat :: b in means ==> CountOf(price, b) > 0 && means[b] == Mean(price, b)
    ensures MeansOf(rows, from, to, recMin, recMax, means)
  {
    forall b: nat | b in means
      ensures CountOf(rows, b) > 0 && means[b] == Mean(rows, b)
    {
      assert HasRow(price, b);
      assert SameTotals(price, rows, b);
    }
  }
}
