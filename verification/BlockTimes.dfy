/**
 Fetching block times in parallel: main starts one worker for each stretch of blocks, waits
 until all of them have returned, and only then empties the channel into which they have
 put their results.  That this cannot deadlock rests on the channel being larger than the
 number of workers.
 */
module BlockTimes {
  const WORKERS: nat := 10
  const CAPACITY: nat := 20

  /** The stretch of one worker: a tenth of the range, rounded up. */
  function Gap(from: nat, to: nat): int {
    if to >= from then (to - from + WORKERS - 1) / WORKERS else -((from - to) / WORKERS)
  }

  /** Consecutive blocks. */
  function Range(first: nat, n: nat): (s: seq<nat>)
    ensures |s| == n && forall i :: 0 <= i < n ==> s[i] == first + i
  {
    if n == 0 then [] else Range(first, n - 1) + [first + n - 1]
  }

  /** Where worker `i` starts. */
  function Start(from: nat, gap: nat, i: nat): nat {
    from + i * gap
  }

  datatype Worker = Worker(first: nat, last: nat, fetched: seq<nat>, sent: bool, exited: bool)

  datatype Main = Spawning(next: nat) | Draining(received: nat) | Finished

  datatype System = System(main: Main, workers: seq<Worker>, channel: seq<seq<nat>>, collected: seq<nat>)

  datatype Action =
    | Spawn          // main starts the next worker
    | Wait           // main finds that all workers have returned
    | Receive        // main takes one result from the channel
    | Return         // main has taken as many results as there were workers
    | Fetch(i: nat)  // worker `i` reads one block
    | Send(i: nat)   // worker `i` puts its result into the channel
    | Exit(i: nat)   // worker `i` returns

  function Initial(from: nat): System {
    System(Spawning(from), [], [], [])
  }

  predicate Enabled(sys: System, a: Action, to: nat) {
    match a
    case Spawn => sys.main.Spawning? && sys.main.next <= to
    case Wait => sys.main.Spawning? && sys.main.next > to && forall w :: w in sys.workers ==> w.exited
    case Receive => sys.main.Draining? && sys.main.received < |sys.workers| && sys.channel != []
    case Return => sys.main.Draining? && sys.main.received == |sys.workers|
    case Fetch(i) => i < |sys.workers| && sys.workers[i].first + |sys.workers[i].fetched| <= sys.workers[i].last
    case Send(i) => Ready(sys, i) && |sys.channel| < CAPACITY
    case Exit(i) => i < |sys.workers| && sys.workers[i].sent && !sys.workers[i].exited
  }

  /** Worker `i` has all its blocks and wants to send. */
  predicate Ready(sys: System, i: nat) {
    && i < |sys.workers| && !sys.workers[i].sent
    && sys.workers[i].first + |sys.workers[i].fetched| > sys.workers[i].last
  }

  function Step(sys: System, a: Action, gap: nat, to: nat): System
    requires Enabled(sys, a, to)
  {
    match a
    case Spawn =>
      sys.(main := Spawning(sys.main.next + gap),
           workers := sys.workers + [Worker(sys.main.next, sys.main.next + gap, [], false, false)])
    case Wait => sys.(main := Draining(0))
    case Receive =>
      sys.(main := Draining(sys.main.received + 1), channel := sys.channel[1..],
           collected := sys.collected + sys.channel[0])
    case Return => sys.(main := Finished)
    case Fetch(i) =>
      var w := sys.workers[i];
      sys.(workers := sys.workers[i := w.(fetched := w.fetched + [w.first + |w.fetched|])])
    case Send(i) =>
      sys.(workers := sys.workers[i := sys.workers[i].(sent := true)],
           channel := sys.channel + [sys.workers[i].fetched])
    case Exit(i) => sys.(workers := sys.workers[i := sys.workers[i].(exited := true)])
  }

  ghost predicate Runs(sys: System, run: seq<Action>, gap: nat, to: nat)
    decreases |run|
  {
    run == [] || (Enabled(sys, run[0], to) && Runs(Step(sys, run[0], gap, to), run[1..], gap, to))
  }

  ghost function After(sys: System, run: seq<Action>, gap: nat, to: nat): System
    requires Runs(sys, run, gap, to)
    decreases |run|
  {
    if run == [] then sys else After(Step(sys, run[0], gap, to), run[1..], gap, to)
  }

  ghost predicate WorkerValid(w: Worker, first: nat, gap: nat) {
    && w.first == first && w.last == first + gap
    && |w.fetched| <= gap + 1 && w.fetched == Range(first, |w.fetched|)
    && (w.sent ==> |w.fetched| == gap + 1) && (w.exited ==> w.sent)
  }

  /** The blocks that have been sent. */
  ghost function SentBlocks(workers: seq<Worker>): multiset<nat> {
    if workers == [] then multiset{}
    else
      var last := workers[|workers| - 1];
      SentBlocks(workers[..|workers| - 1]) + if last.sent then multiset(last.fetched) else multiset{}
  }

  ghost function CountSent(workers: seq<Worker>): (n: nat)
    ensures n <= |workers|
  {
    if workers == [] then 0 else CountSent(workers[..|workers| - 1]) + if workers[|workers| - 1].sent then 1 else 0
  }

  ghost function Flatten(channel: seq<seq<nat>>): multiset<nat> {
    if channel == [] then multiset{} else Flatten(channel[..|channel| - 1]) + multiset(channel[|channel| - 1])
  }

  ghost function Received(sys: System): nat {
    match sys.main
    case Spawning(_) => 0
    case Draining(n) => n
    case Finished => |sys.workers|
  }

  /** How many workers have been started by the time main waits. */
  ghost predicate AllStarted(from: nat, to: nat, gap: nat, n: nat) {
    Start(from, gap, n) > to && Start(from, gap, n) <= to + gap
  }

  ghost predicate MainValid(sys: System, from: nat, to: nat, gap: nat) {
    match sys.main
    case Spawning(next) => next == Start(from, gap, |sys.workers|) && next <= to + gap
    case Draining(n) =>
      n <= |sys.workers| && AllStarted(from, to, gap, |sys.workers|) && forall w :: w in sys.workers ==> w.exited
    case Finished => AllStarted(from, to, gap, |sys.workers|) && forall w :: w in sys.workers ==> w.exited
  }

  /** The invariant for a range of at least two blocks. */
  ghost predicate Valid(sys: System, from: nat, to: nat) {
    && from < to
    && (forall i :: 0 <= i < |sys.workers| ==>
          WorkerValid(sys.workers[i], Start(from, Gap(from, to), i), Gap(from, to)))
    && MainValid(sys, from, to, Gap(from, to))
    && |sys.channel| + Received(sys) == CountSent(sys.workers)
    && multiset(sys.collected) + Flatten(sys.channel) == SentBlocks(sys.workers)
  }

  lemma GapIsPositive(from: nat, to: nat)
    requires from < to
    ensures 1 <= Gap(from, to) && to - from <= WORKERS * Gap(from, to)
  {
  }

  /** Never more than eleven workers. */
  lemma FewWorkers(from: nat, to: nat, n: nat)
    requires from < to && Start(from, Gap(from, to), n) <= to + Gap(from, to)
    ensures n <= WORKERS + 1
  {
    GapIsPositive(from, to);
    CancelFactor(n, WORKERS + 1, Gap(from, to));
  }

  /** Ten stretches cover the range, and shorter ones would not; a send waits for room among twenty results. */
  lemma StretchIsTenth(sys: System, from: nat, to: nat, i: nat)
    ensures from < to ==> 10 * (Gap(from, to) - 1) < to - from <= 10 * Gap(from, to)
    ensures from > to ==> 10 * Gap(from, to) <= 0 && 10 * (Gap(from, to) - 1) < to - from
    ensures Enabled(sys, Send(i), to) <==> Ready(sys, i) && |sys.channel| < 20
  {
  }

  lemma CancelFactor(n: nat, m: nat, g: nat)
    requires g > 0
    ensures n * g <= m * g ==> n <= m
  {
    if n > m {
      assert (n - m) * g >= 1;
      assert n * g == m * g + (n - m) * g;
    }
  }

  lemma MoreTimes(n: nat, m: nat, g: nat)
    requires n <= m
    ensures n * g <= m * g
  {
  }

  lemma NextStart(from: nat, gap: nat, i: nat)
    ensures Start(from, gap, i + 1) == Start(from, gap, i) + gap
  {
  }

  /** Changing one worker without its sending changes nothing that has been sent. */
  lemma {:induction false} SentKept(workers: seq<Worker>, i: nat, w: Worker)
    requires i < |workers| && w.sent == workers[i].sent && (w.sent ==> w.fetched == workers[i].fetched)
    ensures SentBlocks(workers[i := w]) == SentBlocks(workers) && CountSent(workers[i := w]) == CountSent(workers)
    decreases |workers|
  {
    var n := |workers| - 1;
    if i < n {
      SentKept(workers[..n], i, w);
      assert workers[i := w][..n] == workers[..n][i := w];
    } else {
      assert workers[i := w][..n] == workers[..n];
    }
  }

  lemma {:induction false} SentOnce(workers: seq<Worker>, i: nat)
    requires i < |workers| && !workers[i].sent
    ensures var after := workers[i := workers[i].(sent := true)];
      && SentBlocks(after) == SentBlocks(workers) + multiset(workers[i].fetched)
      && CountSent(after) == CountSent(workers) + 1
    decreases |workers|
  {
    var n := |workers| - 1;
    var after := workers[i := workers[i].(sent := true)];
    if i < n {
      SentOnce(workers[..n], i);
      assert after[..n] == workers[..n][i := workers[i].(sent := true)];
    } else {
      assert after[..n] == workers[..n];
    }
  }

  /** As long as one worker has not sent there are fewer results than workers. */
  lemma {:induction false} SomeoneMissing(workers: seq<Worker>, i: nat)
    requires i < |workers| && !workers[i].sent
    ensures CountSent(workers) < |workers|
    decreases |workers|
  {
    if i < |workers| - 1 {
      SomeoneMissing(workers[..|workers| - 1], i);
    }
  }

  lemma {:induction false} EveryoneSent(workers: seq<Worker>)
    requires forall i :: 0 <= i < |workers| ==> workers[i].sent
    ensures CountSent(workers) == |workers|
    decreases |workers|
  {
    if workers != [] {
      EveryoneSent(workers[..|workers| - 1]);
    }
  }

  lemma {:induction false} FlattenHead(channel: seq<seq<nat>>)
    requires channel != []
    ensures Flatten(channel) == multiset(channel[0]) + Flatten(channel[1..])
    decreases |channel|
  {
    var n := |channel| - 1;
    if n > 0 {
      FlattenHead(channel[..n]);
      assert channel[..n][1..] == channel[1..][..n - 1];
    }
  }

  lemma FlattenAppend(channel: seq<seq<nat>>, blocks: seq<nat>)
    ensures Flatten(channel + [blocks]) == Flatten(channel) + multiset(blocks)
  {
    assert (channel + [blocks])[..|channel|] == channel;
  }

  lemma SpawnKeeps(sys: System, from: nat, to: nat)
    requires Valid(sys, from, to) && Enabled(sys, Spawn, to)
    ensures Valid(Step(sys, Spawn, Gap(from, to), to), from, to)
  {
    var after := Step(sys, Spawn, Gap(from, to), to);
    NextStart(from, Gap(from, to), |sys.workers|);
    assert after.workers[..|sys.workers|] == sys.workers;
  }

  lemma ReceiveKeeps(sys: System, from: nat, to: nat)
    requires Valid(sys, from, to) && Enabled(sys, Receive, to)
    ensures Valid(Step(sys, Receive, Gap(from, to), to), from, to)
  {
    FlattenHead(sys.channel);
    assert multiset(sys.collected + sys.channel[0]) == multiset(sys.collected) + multiset(sys.channel[0]);
  }

  /** A step of a worker that sends nothing. */
  lemma WorkerKeeps(sys: System, from: nat, to: nat, i: nat, w: Worker)
    requires Valid(sys, from, to) && i < |sys.workers|
    requires WorkerValid(w, Start(from, Gap(from, to), i), Gap(from, to))
    requires w.sent == sys.workers[i].sent && (w.sent ==> w.fetched == sys.workers[i].fetched)
    requires sys.workers[i].exited ==> w.exited
    ensures Valid(sys.(workers := sys.workers[i := w]), from, to)
  {
    hide SentBlocks, CountSent, Flatten, Range, WorkerValid, Start, Gap;
    SentKept(sys.workers, i, w);
    ExitedStays(sys.workers, i, w);
  }

  lemma ExitedStays(workers: seq<Worker>, i: nat, w: Worker)
    requires i < |workers| && (workers[i].exited ==> w.exited)
    ensures (forall v :: v in workers ==> v.exited) ==> forall v :: v in workers[i := w] ==> v.exited
  {
    if forall v :: v in workers ==> v.exited {
      assert workers[i] in workers;
      forall v | v in workers[i := w]
        ensures v.exited
      {
        assert v == w || v in workers;
      }
    }
  }

  lemma SendKeeps(sys: System, from: nat, to: nat, i: nat)
    requires Valid(sys, from, to) && Enabled(sys, Send(i), to)
    ensures Valid(Step(sys, Send(i), Gap(from, to), to), from, to)
  {
    SentOnce(sys.workers, i);
    FlattenAppend(sys.channel, sys.workers[i].fetched);
    var after := Step(sys, Send(i), Gap(from, to), to);
    assert sys.workers[i] in sys.workers && !sys.workers[i].exited;
    assert |sys.workers[i].fetched| == Gap(from, to) + 1;
  }

  /** Every step keeps the invariant. */
  lemma StepKeeps(sys: System, from: nat, to: nat, a: Action)
    requires Valid(sys, from, to) && Enabled(sys, a, to)
    ensures Valid(Step(sys, a, Gap(from, to), to), from, to)
  {
    hide SentBlocks, CountSent, Flatten, Range, Start, Gap;
    match a
    case Spawn => SpawnKeeps(sys, from, to);
    case Wait =>
    case Receive => ReceiveKeeps(sys, from, to);
    case Return =>
    case Fetch(i) =>
      var w := sys.workers[i];
      RangeGrows(w.first, |w.fetched| + 1);
      WorkerKeeps(sys, from, to, i, w.(fetched := w.fetched + [w.first + |w.fetched|]));
    case Send(i) => SendKeeps(sys, from, to, i);
    case Exit(i) => WorkerKeeps(sys, from, to, i, sys.workers[i].(exited := true));
  }

  /** A worker that wants to send always can. */
  lemma SendNeverBlocks(sys: System, from: nat, to: nat, i: nat)
    requires Valid(sys, from, to) && Ready(sys, i)
    ensures Enabled(sys, Send(i), to)
  {
    FewWorkers(from, to, |sys.workers|);
  }

  /** No schedule gets stuck: until main has returned, something can happen. */
  lemma NoDeadlock(sys: System, from: nat, to: nat)
    requires Valid(sys, from, to) && sys.main != Finished
    ensures exists a :: Enabled(sys, a, to)
  {
    if sys.main.Draining? {
      forall i | 0 <= i < |sys.workers|
        ensures sys.workers[i].sent
      {
        assert sys.workers[i] in sys.workers;
      }
      EveryoneSent(sys.workers);
      assert Enabled(sys, Receive, to) || Enabled(sys, Return, to);
    } else if sys.main.next <= to {
      assert Enabled(sys, Spawn, to);
    } else if w :| w in sys.workers && !w.exited {
      var i :| 0 <= i < |sys.workers| && sys.workers[i] == w;
      if w.sent {
        assert Enabled(sys, Exit(i), to);
      } else if Ready(sys, i) {
        SendNeverBlocks(sys, from, to, i);
      } else {
        assert Enabled(sys, Fetch(i), to);
      }
    } else {
      assert Enabled(sys, Wait, to);
    }
  }

  /** The steps a system has made, counted by what they left behind. */
  ghost function WorkerSteps(workers: seq<Worker>): nat {
    if workers == [] then 0
    else
      var w := workers[|workers| - 1];
      WorkerSteps(workers[..|workers| - 1]) + |w.fetched| + (if w.sent then 1 else 0) + (if w.exited then 1 else 0)
  }

  ghost function StepsMade(sys: System): nat {
    WorkerSteps(sys.workers) + |sys.workers| + Received(sys)
    + match sys.main case Spawning(_) => 0 case Draining(_) => 1 case Finished => 2
  }

  lemma {:induction false} OneWorkerStep(workers: seq<Worker>, i: nat, w: Worker)
    requires i < |workers|
    requires w == workers[i].(fetched := w.fetched, sent := w.sent, exited := w.exited)
    requires |w.fetched| + (if w.sent then 1 else 0) + (if w.exited then 1 else 0)
          == |workers[i].fetched| + (if workers[i].sent then 1 else 0) + (if workers[i].exited then 1 else 0) + 1
    ensures WorkerSteps(workers[i := w]) == WorkerSteps(workers) + 1
    decreases |workers|
  {
    var n := |workers| - 1;
    if i < n {
      OneWorkerStep(workers[..n], i, w);
      assert workers[i := w][..n] == workers[..n][i := w];
    } else {
      assert workers[i := w][..n] == workers[..n];
    }
  }

  lemma StepCounts(sys: System, from: nat, to: nat, a: Action)
    requires Valid(sys, from, to) && Enabled(sys, a, to)
    ensures StepsMade(Step(sys, a, Gap(from, to), to)) == StepsMade(sys) + 1
  {
    var after := Step(sys, a, Gap(from, to), to);
    match a
    case Spawn => assert after.workers[..|sys.workers|] == sys.workers;
    case Fetch(i) => OneWorkerStep(sys.workers, i, after.workers[i]);
    case Send(i) =>
      OneWorkerStep(sys.workers, i, after.workers[i]);
    case Exit(i) =>
      OneWorkerStep(sys.workers, i, after.workers[i]);
    case _ =>
  }

  lemma {:induction false} WorkerStepsBounded(workers: seq<Worker>, gap: nat)
    requires forall i :: 0 <= i < |workers| ==> |workers[i].fetched| <= gap + 1
    ensures WorkerSteps(workers) <= |workers| * (gap + 3)
    decreases |workers|
  {
    if workers != [] {
      WorkerStepsBounded(workers[..|workers| - 1], gap);
      assert |workers| * (gap + 3) == (|workers| - 1) * (gap + 3) + (gap + 3);
    }
  }

  /** No run is longer than this, so that every run that is not cut short ends with main returning. */
  function MaxSteps(gap: nat): nat {
    (WORKERS + 1) * (gap + 5) + 2
  }

  lemma StepsBounded(sys: System, from: nat, to: nat)
    requires Valid(sys, from, to)
    ensures StepsMade(sys) <= MaxSteps(Gap(from, to))
  {
    var gap, n := Gap(from, to), |sys.workers|;
    FewWorkers(from, to, n);
    WorkerStepsBounded(sys.workers, gap);
    MoreTimes(n, WORKERS + 1, gap + 3);
    hide WorkerSteps, Gap, Valid, Start;
    assert StepsMade(sys) <= n * (gap + 3) + 2 * n + 2;
  }

  lemma {:induction false} RunKeeps(sys: System, from: nat, to: nat, run: seq<Action>)
    requires Valid(sys, from, to) && Runs(sys, run, Gap(from, to), to)
    ensures Valid(After(sys, run, Gap(from, to), to), from, to)
    ensures StepsMade(After(sys, run, Gap(from, to), to)) == StepsMade(sys) + |run|
    decreases |run|
  {
    if run != [] {
      StepKeeps(sys, from, to, run[0]);
      StepCounts(sys, from, to, run[0]);
      RunKeeps(Step(sys, run[0], Gap(from, to), to), from, to, run[1..]);
    }
  }

  lemma InitialIsValid(from: nat, to: nat)
    requires from < to
    ensures Valid(Initial(from), from, to) && StepsMade(Initial(from)) == 0
  {
    assert Start(from, Gap(from, to), 0) == from;
  }

  /** In every schedule: runs are bounded, sends do not block, and only a finished run can stop. */
  lemma EverySchedule(from: nat, to: nat, run: seq<Action>)
    requires from < to && Runs(Initial(from), run, Gap(from, to), to)
    ensures |run| <= MaxSteps(Gap(from, to))
    ensures var sys := After(Initial(from), run, Gap(from, to), to);
      && |sys.workers| <= WORKERS + 1
      && (forall i :: Ready(sys, i) ==> Enabled(sys, Send(i), to))
      && (sys.main == Finished || exists a :: Enabled(sys, a, to))
  {
    InitialIsValid(from, to);
    RunKeeps(Initial(from), from, to, run);
    var sys := After(Initial(from), run, Gap(from, to), to);
    StepsBounded(sys, from, to);
    FewWorkers(from, to, |sys.workers|);
    forall i | Ready(sys, i)
      ensures Enabled(sys, Send(i), to)
    {
      SendNeverBlocks(sys, from, to, i);
    }
    if sys.main != Finished {
      NoDeadlock(sys, from, to);
    }
  }

  /** What `n` workers fetch together. */
  ghost function Expected(from: nat, gap: nat, n: nat): multiset<nat> {
    if n == 0 then multiset{} else Expected(from, gap, n - 1) + multiset(Range(Start(from, gap, n - 1), gap + 1))
  }

  lemma {:induction false} AllSentIsExpected(workers: seq<Worker>, from: nat, gap: nat)
    requires forall i :: 0 <= i < |workers| ==> WorkerValid(workers[i], Start(from, gap, i), gap) && workers[i].sent
    ensures SentBlocks(workers) == Expected(from, gap, |workers|)
    decreases |workers|
  {
    if workers != [] {
      AllSentIsExpected(workers[..|workers| - 1], from, gap);
      assert WorkerValid(workers[|workers| - 1], Start(from, gap, |workers| - 1), gap);
    }
  }

  lemma {:induction false} RangeCount(first: nat, n: nat, b: nat)
    ensures multiset(Range(first, n))[b] == if first <= b < first + n then 1 else 0
  {
    hide Range;
    if n == 0 {
      NoRange(first);
    } else {
      RangeCount(first, n - 1, b);
      RangeGrows(first, n);
      AppendCount(Range(first, n - 1), first + n - 1, b);
    }
  }

  lemma NoRange(first: nat)
    ensures Range(first, 0) == []
  {
  }

  lemma RangeGrows(first: nat, n: nat)
    requires n > 0
    ensures Range(first, n) == Range(first, n - 1) + [first + n - 1]
  {
  }

  lemma AppendCount(s: seq<nat>, last: nat, b: nat)
    ensures multiset(s + [last])[b] == multiset(s)[b] + if b == last then 1 else 0
  {
    assert multiset(s + [last]) == multiset(s) + multiset([last]);
  }

  /** Blocks where one stretch ends and the next begins. */
  ghost predicate Boundary(from: nat, gap: nat, n: nat, b: nat) {
    exists i :: 0 < i < n && Start(from, gap, i) == b
  }

  /** One more stretch adds the boundary at its start; the others lie below it. */
  lemma BoundaryStep(from: nat, gap: nat, n: nat, b: nat)
    requires gap > 0 && n > 0
    ensures Boundary(from, gap, n, b) <==> Boundary(from, gap, n - 1, b) || (n > 1 && b == Start(from, gap, n - 1))
    ensures Boundary(from, gap, n - 1, b) ==> from < b < Start(from, gap, n - 1)
  {
    if Boundary(from, gap, n - 1, b) {
      var i :| 0 < i < n - 1 && Start(from, gap, i) == b;
      StartsGrow(from, gap, i, n - 1);
      StartsGrow(from, gap, 0, i);
      assert 0 < i < n && Start(from, gap, i) == b;
    }
    if n > 1 && b == Start(from, gap, n - 1) {
      assert 0 < n - 1 < n && Start(from, gap, n - 1) == b;
    }
  }

  lemma StartsGrow(from: nat, gap: nat, i: nat, n: nat)
    requires gap > 0 && i < n
    ensures Start(from, gap, i) < Start(from, gap, n) && from <= Start(from, gap, i)
  {
    assert n * gap == i * gap + (n - i) * gap;
    assert (n - i) * gap >= 1;
  }

  /** Every block up to the end of the last stretch is fetched, boundaries twice. */
  lemma {:induction false} ExpectedCount(from: nat, gap: nat, n: nat, b: nat)
    requires gap > 0
    ensures Expected(from, gap, n)[b] ==
      if n == 0 || b < from || b > Start(from, gap, n) then 0 else if Boundary(from, gap, n, b) then 2 else 1
    decreases n
  {
    hide Boundary, Range;
    if n > 0 {
      ExpectedCount(from, gap, n - 1, b);
      RangeCount(Start(from, gap, n - 1), gap + 1, b);
      NextStart(from, gap, n - 1);
      BoundaryStep(from, gap, n, b);
      if n > 1 {
        StartsGrow(from, gap, 0, n - 1);
      }
      assert Start(from, gap, 0) == from;
    }
  }

  /**
   When main returns, in whatever order the workers ran, it has collected every block of
   the range, nothing before it, at most one stretch beyond it, and each boundary twice.
   */
  lemma CollectedBlocks(from: nat, to: nat, run: seq<Action>, b: nat)
    requires from < to && Runs(Initial(from), run, Gap(from, to), to)
    requires After(Initial(from), run, Gap(from, to), to).main == Finished
    ensures var sys, gap := After(Initial(from), run, Gap(from, to), to), Gap(from, to);
      var end := Start(from, gap, |sys.workers|);
      && to < end <= to + gap
      && multiset(sys.collected)[b] ==
        (if b < from || b > end then 0 else if Boundary(from, gap, |sys.workers|, b) then 2 else 1)
  {
    InitialIsValid(from, to);
    RunKeeps(Initial(from), from, to, run);
    var sys := After(Initial(from), run, Gap(from, to), to);
    GapIsPositive(from, to);
    forall i | 0 <= i < |sys.workers|
      ensures sys.workers[i].sent
    {
      assert sys.workers[i] in sys.workers;
    }
    EveryoneSent(sys.workers);
    AllSentIsExpected(sys.workers, from, Gap(from, to));
    assert sys.channel == [];
    ExpectedCount(from, Gap(from, to), |sys.workers|, b);
  }

  /** On a single block the stretch is empty and main starts workers for ever. */
  lemma {:induction false} SingleBlockNeverEnds(from: nat, sys: System, run: seq<Action>)
    requires sys.main == Spawning(from) && Runs(sys, run, Gap(from, from), from)
    ensures After(sys, run, Gap(from, from), from).main == Spawning(from)
    ensures Enabled(After(sys, run, Gap(from, from), from), Spawn, from)
    decreases |run|
  {
    if run != [] {
      SingleBlockNeverEnds(from, Step(sys, run[0], Gap(from, from), from), run[1..]);
    }
  }

  /** On a reversed range main starts nobody, waits, returns, and has collected nothing. */
  lemma {:induction false} ReversedRangeIsEmpty(from: nat, to: nat, gap: nat, sys: System, run: seq<Action>)
    requires from > to && sys.workers == [] && sys.channel == [] && sys.collected == [] && Runs(sys, run, gap, to)
    requires sys.main == Spawning(from) || sys.main == Draining(0) || sys.main == Finished
    ensures |run| <= (match sys.main case Spawning(_) => 2 case Draining(_) => 1 case Finished => 0)
    ensures After(sys, run, gap, to).collected == []
    ensures After(sys, run, gap, to).main == Finished || exists a :: Enabled(After(sys, run, gap, to), a, to)
    decreases |run|
  {
    if run != [] {
      ReversedRangeIsEmpty(from, to, gap, Step(sys, run[0], gap, to), run[1..]);
    } else if sys.main.Spawning? {
      assert Enabled(sys, Wait, to);
    } else if sys.main.Draining? {
      assert Enabled(sys, Return, to);
    }
  }

  /** The loop of one worker. */
  method GetMultipleBlockInfo(blockFrom: nat, blockTo: nat) returns (blocks: seq<nat>)
    ensures blocks == if blockFrom <= blockTo then Range(blockFrom, blockTo - blockFrom + 1) else []
  {
    blocks := [];
    var blockNumber := blockFrom;
    while blockNumber <= blockTo
      invariant blockFrom <= blockNumber <= blockTo + 1 || blockNumber == blockFrom
      invariant blocks == Range(blockFrom, blockNumber - blockFrom)
    {
      blocks := blocks + [blockNumber];
      blockNumber := blockNumber + 1;
    }
  }

  /** The loop that starts the workers; it ends on every range but a single block. */
  method StartWorkers(blockFrom: nat, blockTo: nat) returns (started: seq<(nat, nat)>)
    requires blockFrom != blockTo
    ensures blockFrom > blockTo ==> started == []
    ensures blockFrom < blockTo ==> AllStarted(blockFrom, blockTo, Gap(blockFrom, blockTo), |started|)
    ensures blockFrom < blockTo ==> 0 < |started| <= WORKERS + 1
    ensures forall i :: 0 <= i < |started| ==>
      started[i] == (Start(blockFrom, Gap(blockFrom, blockTo), i), Start(blockFrom, Gap(blockFrom, blockTo), i + 1))
  {
    started := [];
    var eachGap := Gap(blockFrom, blockTo);
    var blockNumber := blockFrom;
    if blockFrom < blockTo {
      GapIsPositive(blockFrom, blockTo);
    }
    while blockNumber <= blockTo
      invariant blockFrom < blockTo ==> blockNumber == Start(blockFrom, eachGap, |started|) <= blockTo + eachGap
      invariant blockFrom > blockTo ==> started == [] && blockNumber == blockFrom
      invariant forall i :: 0 <= i < |started| ==>
        started[i] == (Start(blockFrom, Gap(blockFrom, blockTo), i), Start(blockFrom, Gap(blockFrom, blockTo), i + 1))
      decreases blockTo + 1 - blockNumber
    {
      NextStart(blockFrom, eachGap, |started|);
      started := started + [(blockNumber, blockNumber + eachGap)];
      blockNumber := blockNumber + eachGap;
    }
    if blockFrom < blockTo {
      FewWorkers(blockFrom, blockTo, |started|);
      assert Start(blockFrom, eachGap, 0) == blockFrom;
    }
  }
}
