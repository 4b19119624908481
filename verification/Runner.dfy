// The concurrent run of crates/conformance/src/runner.rs: one future per selected
// test, limited by a semaphore, each updating shared counters and lists in several
// atomic steps. The counters are those of crates/conformance/src/tsc_results.rs.

module Runner {
  import opened Wrappers
  import opened Results

  /** Counters of the statistics. */
  datatype Counter =
    | Total | Passed | Failed | SkippedTests | UnsupportedTests | CrashedTests | TimedOutTests
    | KnownFailures | FingerprintOnly

  /** Shared lists. */
  datatype Log = Timings | FatalErrors | CrashLog | TimeoutLog | FingerprintLog

  /** What one test came to: a result, or an error of the harness itself. */
  type Verdict = Option<TestResult>

  /** One atomic update of the shared state. */
  datatype Effect = Count(counter: Counter) | Append(log: Log)

  predicate OnlyFingerprints(v: Verdict) {
    v.Some? && v.value.Fail? && !v.value.known && v.value.codesMatch && v.value.fingerprintsDiffer
  }

  /** The updates a verdict leads to, in program order. */
  function Effects(v: Verdict): seq<Effect> {
    match v
    case Some(Pass) => [Append(Timings), Count(Total), Count(Passed)]
    case Some(Fail(known, _, _)) =>
      [Append(Timings), Count(Total), Count(Failed)]
      + (if known then [Count(KnownFailures)] else [])
      + (if OnlyFingerprints(v) then [Count(FingerprintOnly), Append(FingerprintLog)] else [])
    case Some(Skipped) => [Append(Timings), Count(Total), Count(SkippedTests)]
    case Some(Unsupported(_)) => [Append(Timings), Count(Total), Count(UnsupportedTests)]
    case Some(Crashed) => [Append(Timings), Count(Total), Count(CrashedTests), Append(CrashLog)]
    case Some(Timeout) => [Append(Timings), Count(Total), Count(TimedOutTests), Append(TimeoutLog)]
    case None => [Append(FatalErrors)]
  }

  /** Where the future of one test stands; `done` counts its updates so far. */
  datatype Pc =
    | Pending
    | Started
    | Running
    | Reporting(verdict: Verdict, done: nat)
    | Finished(verdict: Verdict)

  datatype State = State(
    permits: nat, counters: map<Counter, nat>, logs: map<Log, seq<nat>>, tests: seq<Pc>)

  datatype Action = Start | Acquire | Conclude(verdict: Verdict) | Report | Release

  // ------------------------------------------------------------------ tallies

  function BucketOf(v: Verdict): Counter {
    match v
    case Some(Pass) => Passed
    case Some(Fail(_, _, _)) => Failed
    case Some(Skipped) => SkippedTests
    case Some(Unsupported(_)) => UnsupportedTests
    case Some(Crashed) => CrashedTests
    case Some(Timeout) => TimedOutTests
    case None => Total
  }

  /** How many updates precede `e` in a verdict's report; more than any report has
      when it is not there. */
  function Rank(v: Verdict, e: Effect): nat {
    match e
    case Append(Timings) => if v.None? then 9 else 0
    case Append(FatalErrors) => if v.None? then 0 else 9
    case Append(CrashLog) => if v == Some(Crashed) then 3 else 9
    case Append(TimeoutLog) => if v == Some(Timeout) then 3 else 9
    case Append(FingerprintLog) => if OnlyFingerprints(v) then 4 else 9
    case Count(Total) => if v.None? then 9 else 1
    case Count(KnownFailures) => if v.Some? && v.value.Fail? && v.value.known then 3 else 9
    case Count(FingerprintOnly) => if OnlyFingerprints(v) then 3 else 9
    case Count(c) => if c == BucketOf(v) then 2 else 9
  }

  /** Whether a test has made an update. */
  predicate Made(pc: Pc, e: Effect) {
    match pc
    case Reporting(v, done) => Rank(v, e) < done
    case Finished(v) => Rank(v, e) < 9
    case _ => false
  }

  predicate InFlight(pc: Pc) {
    pc.Started? || pc.Running? || pc.Reporting?
  }

  predicate Holds(pc: Pc) {
    pc.Running? || pc.Reporting?
  }

  function Tally(tests: seq<Pc>, p: Pc -> bool): nat {
    if tests == [] then 0
    else Tally(tests[..|tests| - 1], p) + (if p(tests[|tests| - 1]) then 1 else 0)
  }

  function MadeBy(tests: seq<Pc>, e: Effect): nat {
    Tally(tests, pc => Made(pc, e))
  }

  lemma {:induction false} TallyUpdate(tests: seq<Pc>, p: Pc -> bool, i: nat, pc: Pc)
    requires i < |tests|
    ensures Tally(tests[i := pc], p) + (if p(tests[i]) then 1 else 0) == Tally(tests, p) + (if p(pc) then 1 else 0)
  {
    var n := |tests| - 1;
    if i < n {
      TallyUpdate(tests[..n], p, i, pc);
      assert tests[i := pc][..n] == tests[..n][i := pc];
    } else {
      assert tests[i := pc][..n] == tests[..n];
    }
  }

  // -------------------------------------------------------------- the machine

  /** Both limits of the run: futures in progress (none when `workers` is zero) and
      semaphore permits. */
  predicate Enabled(workers: nat, s: State, i: nat, a: Action) {
    && i < |s.tests|
    && match a
       case Start => s.tests[i].Pending? && (workers == 0 || Tally(s.tests, pc => InFlight(pc)) < workers)
       case Acquire => s.tests[i].Started? && s.permits > 0
       case Conclude(_) => s.tests[i].Running?
       case Report => s.tests[i].Reporting? && s.tests[i].done < |Effects(s.tests[i].verdict)|
       case Release => s.tests[i].Reporting? && s.tests[i].done == |Effects(s.tests[i].verdict)|
  }

  function Perform(s: State, i: nat, e: Effect): State
    requires e.Count? ==> e.counter in s.counters
    requires e.Append? ==> e.log in s.logs
  {
    match e
    case Count(c) => s.(counters := s.counters[c := s.counters[c] + 1])
    case Append(l) => s.(logs := s.logs[l := s.logs[l] + [i]])
  }

  ghost predicate Complete(s: State) {
    && (forall c: Counter :: c in s.counters)
    && (forall l: Log :: l in s.logs)
  }

  ghost function Apply(workers: nat, s: State, i: nat, a: Action): State
    requires Complete(s)
    requires Enabled(workers, s, i, a)
  {
    var pc := s.tests[i];
    match a
    case Start => s.(tests := s.tests[i := Started])
    case Acquire => s.(permits := s.permits - 1, tests := s.tests[i := Running])
    case Conclude(v) => s.(tests := s.tests[i := Reporting(v, 0)])
    case Report =>
      Perform(s, i, Effects(pc.verdict)[pc.done]).(tests := s.tests[i := pc.(done := pc.done + 1)])
    case Release => s.(permits := s.permits + 1, tests := s.tests[i := Finished(pc.verdict)])
  }

  ghost predicate Init(workers: nat, selected: nat, s: State) {
    && Complete(s)
    && s.permits == workers
    && (forall c :: c in s.counters ==> s.counters[c] == 0)
    && (forall l :: l in s.logs ==> s.logs[l] == [])
    && s.tests == seq(selected, _ => Pending)
  }

  // ---------------------------------------------------------------- invariant

  predicate PcOk(pc: Pc) {
    pc.Reporting? ==> pc.done <= |Effects(pc.verdict)|
  }

  /** A list names each test that has made the update `e`, once. */
  ghost predicate Logged(tests: seq<Pc>, log: seq<nat>, e: Effect) {
    forall i: nat :: multiset(log)[i] == if i < |tests| && Made(tests[i], e) then 1 else 0
  }

  ghost predicate Inv(workers: nat, selected: nat, s: State) {
    && Complete(s)
    && |s.tests| == selected
    && (forall i :: 0 <= i < selected ==> PcOk(s.tests[i]))
    && s.permits + Tally(s.tests, pc => Holds(pc)) == workers
    && (workers > 0 ==> Tally(s.tests, pc => InFlight(pc)) <= workers)
    && (forall c :: c in s.counters ==> s.counters[c] == MadeBy(s.tests, Count(c)))
    && (forall l :: l in s.logs ==> Logged(s.tests, s.logs[l], Append(l)) && |s.logs[l]| == MadeBy(s.tests, Append(l)))
  }

  lemma {:induction false} TallyNone(tests: seq<Pc>, p: Pc -> bool)
    requires forall i :: 0 <= i < |tests| ==> !p(tests[i])
    ensures Tally(tests, p) == 0
  {
    if tests != [] {
      TallyNone(tests[..|tests| - 1], p);
    }
  }

  lemma InitInv(workers: nat, selected: nat, s: State)
    requires Init(workers, selected, s)
    ensures Inv(workers, selected, s)
  {
    TallyNone(s.tests, pc => Holds(pc));
    TallyNone(s.tests, pc => InFlight(pc));
    forall c | c in s.counters
      ensures s.counters[c] == MadeBy(s.tests, Count(c))
    {
      TallyNone(s.tests, pc => Made(pc, Count(c)));
    }
    forall l | l in s.logs
      ensures |s.logs[l]| == MadeBy(s.tests, Append(l))
    {
      TallyNone(s.tests, pc => Made(pc, Append(l)));
    }
  }

  /** A report makes the update of each rank at its turn and no update twice. */
  lemma RankCorrect(v: Verdict, e: Effect, k: nat)
    ensures |Effects(v)| <= 5
    ensures Rank(v, e) < |Effects(v)| || Rank(v, e) == 9
    ensures k < |Effects(v)| ==> (Effects(v)[k] == e <==> Rank(v, e) == k)
  {
  }

  /** The step makes this update. */
  predicate Makes(pc: Pc, a: Action, e: Effect) {
    a.Report? && pc.Reporting? && pc.done < |Effects(pc.verdict)| && e == Effects(pc.verdict)[pc.done]
  }

  /** A step makes the update it performs, and no other, newly made. */
  lemma StepMade(workers: nat, s: State, i: nat, a: Action, e: Effect)
    requires Complete(s) && Enabled(workers, s, i, a) && PcOk(s.tests[i])
    ensures var before, after := s.tests[i], Apply(workers, s, i, a).tests[i];
            if Makes(before, a, e)
            then !Made(before, e) && Made(after, e)
            else Made(before, e) == Made(after, e)
  {
    if s.tests[i].Reporting? {
      RankCorrect(s.tests[i].verdict, e, s.tests[i].done);
    }
  }

  lemma StepCounter(workers: nat, selected: nat, s: State, i: nat, a: Action, c: Counter)
    requires Inv(workers, selected, s) && Enabled(workers, s, i, a)
    ensures Apply(workers, s, i, a).counters[c] == MadeBy(Apply(workers, s, i, a).tests, Count(c))
  {
    var s' := Apply(workers, s, i, a);
    assert PcOk(s.tests[i]);
    StepMade(workers, s, i, a, Count(c));
    TallyUpdate(s.tests, pc => Made(pc, Count(c)), i, s'.tests[i]);
    assert s'.tests == s.tests[i := s'.tests[i]];
  }

  lemma LogUpdate(tests: seq<Pc>, log: seq<nat>, e: Effect, i: nat, pc: Pc, made: bool)
    requires i < |tests|
    requires Logged(tests, log, e) && |log| == MadeBy(tests, e)
    requires if made then !Made(tests[i], e) && Made(pc, e) else Made(tests[i], e) == Made(pc, e)
    ensures var log' := if made then log + [i] else log;
            Logged(tests[i := pc], log', e) && |log'| == MadeBy(tests[i := pc], e)
  {
    TallyUpdate(tests, pc => Made(pc, e), i, pc);
  }

  lemma LogAfter(workers: nat, s: State, i: nat, a: Action, l: Log)
    requires Complete(s) && Enabled(workers, s, i, a)
    ensures var s' := Apply(workers, s, i, a);
            && |s'.tests| == |s.tests| && s'.tests == s.tests[i := s'.tests[i]]
            && l in s'.logs && s'.logs[l] == if Makes(s.tests[i], a, Append(l)) then s.logs[l] + [i] else s.logs[l]
  {
  }

  lemma StepLog(workers: nat, selected: nat, s: State, i: nat, a: Action, l: Log)
    requires Inv(workers, selected, s) && Enabled(workers, s, i, a)
    ensures var s' := Apply(workers, s, i, a);
            Logged(s'.tests, s'.logs[l], Append(l)) && |s'.logs[l]| == MadeBy(s'.tests, Append(l))
  {
    var s', e := Apply(workers, s, i, a), Append(l);
    assert PcOk(s.tests[i]);
    StepMade(workers, s, i, a, e);
    LogAfter(workers, s, i, a, l);
    LogUpdate(s.tests, s.logs[l], e, i, s'.tests[i], Makes(s.tests[i], a, e));
  }

  lemma StepLimits(workers: nat, selected: nat, s: State, i: nat, a: Action)
    requires Inv(workers, selected, s) && Enabled(workers, s, i, a)
    ensures var s' := Apply(workers, s, i, a);
            && s'.permits + Tally(s'.tests, pc => Holds(pc)) == workers
            && (workers > 0 ==> Tally(s'.tests, pc => InFlight(pc)) <= workers)
            && PcOk(s'.tests[i])
  {
    var s' := Apply(workers, s, i, a);
    assert PcOk(s.tests[i]);
    TallyUpdate(s.tests, pc => Holds(pc), i, s'.tests[i]);
    TallyUpdate(s.tests, pc => InFlight(pc), i, s'.tests[i]);
  }

  lemma StepInv(workers: nat, selected: nat, s: State, i: nat, a: Action)
    requires Inv(workers, selected, s) && Enabled(workers, s, i, a)
    ensures Inv(workers, selected, Apply(workers, s, i, a))
  {
    var s' := Apply(workers, s, i, a);
    StepLimits(workers, selected, s, i, a);
    forall c | c in s'.counters
      ensures s'.counters[c] == MadeBy(s'.tests, Count(c))
    {
      StepCounter(workers, selected, s, i, a, c);
    }
    forall l | l in s'.logs
      ensures Logged(s'.tests, s'.logs[l], Append(l)) && |s'.logs[l]| == MadeBy(s'.tests, Append(l))
    {
      StepLog(workers, selected, s, i, a, l);
    }
  }

  // --------------------------------------------------------------------- runs

  datatype Event = Event(test: nat, action: Action)

  ghost predicate StepAt(workers: nat, run: seq<State>, events: seq<Event>, k: nat)
    requires k < |events| && |run| == |events| + 1
  {
    && Complete(run[k])
    && Enabled(workers, run[k], events[k].test, events[k].action)
    && run[k + 1] == Apply(workers, run[k], events[k].test, events[k].action)
  }

  ghost predicate IsRun(workers: nat, selected: nat, run: seq<State>, events: seq<Event>) {
    && |run| == |events| + 1
    && Init(workers, selected, run[0])
    && forall k :: 0 <= k < |events| ==> StepAt(workers, run, events, k)
  }

  lemma {:induction false} RunInv(workers: nat, selected: nat, run: seq<State>, events: seq<Event>, k: nat)
    requires IsRun(workers, selected, run, events)
    requires k < |run|
    ensures Inv(workers, selected, run[k])
  {
    if k == 0 {
      InitInv(workers, selected, run[0]);
    } else {
      RunInv(workers, selected, run, events, k - 1);
      assert StepAt(workers, run, events, k - 1);
      StepInv(workers, selected, run[k - 1], events[k - 1].test, events[k - 1].action);
    }
  }

  // ------------------------------------------------------ sums of several tallies

  function One(pc: Pc, e: Effect): nat {
    if Made(pc, e) then 1 else 0
  }

  /** How many of the six buckets a test has been counted in. */
  function BucketsOf(pc: Pc): nat {
    One(pc, Count(Passed)) + One(pc, Count(Failed)) + One(pc, Count(SkippedTests))
    + One(pc, Count(UnsupportedTests)) + One(pc, Count(CrashedTests)) + One(pc, Count(TimedOutTests))
  }

  function Buckets(tests: seq<Pc>): nat {
    MadeBy(tests, Count(Passed)) + MadeBy(tests, Count(Failed)) + MadeBy(tests, Count(SkippedTests))
    + MadeBy(tests, Count(UnsupportedTests)) + MadeBy(tests, Count(CrashedTests))
    + MadeBy(tests, Count(TimedOutTests))
  }

  /** The buckets are disjoint and come after the total; the two kinds of failure are
      disjoint and come after the failure itself. */
  lemma PointOrder(pc: Pc)
    requires PcOk(pc)
    ensures BucketsOf(pc) <= One(pc, Count(Total))
    ensures One(pc, Count(KnownFailures)) + One(pc, Count(FingerprintOnly)) <= One(pc, Count(Failed))
    ensures One(pc, Count(Total)) + One(pc, Append(FatalErrors)) <= 1
  {
  }

  lemma {:induction false} TallyOrder(tests: seq<Pc>)
    requires forall i :: 0 <= i < |tests| ==> PcOk(tests[i])
    ensures Buckets(tests) <= MadeBy(tests, Count(Total))
    ensures MadeBy(tests, Count(KnownFailures)) + MadeBy(tests, Count(FingerprintOnly)) <= MadeBy(tests, Count(Failed))
    ensures MadeBy(tests, Count(Total)) + MadeBy(tests, Append(FatalErrors)) <= |tests|
  {
    if tests != [] {
      TallyOrder(tests[..|tests| - 1]);
      PointOrder(tests[|tests| - 1]);
    }
  }

  /** What holds at every moment of every interleaving. */
  lemma EveryMoment(workers: nat, selected: nat, run: seq<State>, events: seq<Event>, k: nat)
    requires IsRun(workers, selected, run, events)
    requires k < |run|
    ensures var s := run[k];
            && Complete(s)
            && Tally(s.tests, pc => Holds(pc)) <= workers
            && s.counters[Total] + |s.logs[FatalErrors]| <= selected
            && s.counters[Passed] + s.counters[Failed] + s.counters[SkippedTests]
               + s.counters[UnsupportedTests] + s.counters[CrashedTests] + s.counters[TimedOutTests]
               <= s.counters[Total]
            && s.counters[KnownFailures] + s.counters[FingerprintOnly] <= s.counters[Failed]
  {
    RunInv(workers, selected, run, events, k);
    TallyOrder(run[k].tests);
  }

  // ------------------------------------------------------------------ quiescence

  predicate Quiescent(s: State) {
    forall i :: 0 <= i < |s.tests| ==> s.tests[i].Finished?
  }

  ghost function Partition(s: State): nat
    requires Complete(s)
  {
    s.counters[Passed] + s.counters[Failed] + s.counters[SkippedTests]
    + s.counters[UnsupportedTests] + s.counters[CrashedTests] + s.counters[TimedOutTests]
  }

  ghost predicate HasResultBijection(selected: nat, s: State)
    requires Complete(s)
  {
    selected > 0 && s.counters[Total] == selected && Partition(s) == s.counters[Total]
  }

  function SaturatingSub(a: nat, b: nat): nat {
    if a < b then 0 else a - b
  }

  ghost function Runnable(s: State): nat
    requires Complete(s)
  {
    SaturatingSub(s.counters[Total], s.counters[SkippedTests] + s.counters[UnsupportedTests])
  }

  ghost predicate HasTerminalFailure(s: State)
    requires Complete(s)
  {
    s.counters[Failed] > 0 || s.counters[CrashedTests] > 0 || s.counters[TimedOutTests] > 0
  }

  lemma {:induction false} TallySettled(tests: seq<Pc>)
    requires forall i :: 0 <= i < |tests| ==> tests[i].Finished? && !tests[i].verdict.None?
    ensures MadeBy(tests, Count(Total)) == |tests|
    ensures Buckets(tests) == |tests|
  {
    if tests != [] {
      TallySettled(tests[..|tests| - 1]);
      var last := tests[|tests| - 1];
      assert One(last, Count(Total)) == 1 && BucketsOf(last) == 1;
    }
  }

  lemma {:induction false} TallyPositive(tests: seq<Pc>, p: Pc -> bool) returns (i: nat)
    requires Tally(tests, p) > 0
    ensures i < |tests| && p(tests[i])
  {
    if p(tests[|tests| - 1]) {
      i := |tests| - 1;
    } else {
      i := TallyPositive(tests[..|tests| - 1], p);
    }
  }

  lemma {:induction false} TallyWitness(tests: seq<Pc>, p: Pc -> bool, i: nat)
    requires i < |tests| && p(tests[i])
    ensures Tally(tests, p) > 0
  {
    if i < |tests| - 1 {
      TallyWitness(tests[..|tests| - 1], p, i);
    }
  }

  /** Once every test has finished, a fatal error was listed or the accounting is a
      bijection: the error the run reserves for broken accounting cannot occur. */
  lemma QuiescentBijection(workers: nat, selected: nat, run: seq<State>, events: seq<Event>, k: nat)
    requires IsRun(workers, selected, run, events)
    requires k < |run| && Quiescent(run[k]) && selected > 0
    ensures Complete(run[k])
    ensures run[k].logs[FatalErrors] == [] <==> HasResultBijection(selected, run[k])
    ensures run[k].logs[FatalErrors] == [] ==>
              Runnable(run[k]) == run[k].counters[Passed] + run[k].counters[Failed]
                                  + run[k].counters[CrashedTests] + run[k].counters[TimedOutTests]
  {
    var s := run[k];
    RunInv(workers, selected, run, events, k);
    TallyOrder(s.tests);
    if s.logs[FatalErrors] == [] {
      forall i | 0 <= i < |s.tests|
        ensures !s.tests[i].verdict.None?
      {
        assert Logged(s.tests, s.logs[FatalErrors], Append(FatalErrors));
        assert multiset(s.logs[FatalErrors])[i] == 0;
        assert !Made(s.tests[i], Append(FatalErrors));
      }
      TallySettled(s.tests);
    }
  }

  predicate Terminal(v: Verdict) {
    v.Some? && (v.value.Fail? || v.value.Crashed? || v.value.Timeout?)
  }

  lemma TerminalCounted(tests: seq<Pc>)
    requires forall i :: 0 <= i < |tests| ==> tests[i].Finished?
    ensures MadeBy(tests, Count(Failed)) > 0 || MadeBy(tests, Count(CrashedTests)) > 0
              || MadeBy(tests, Count(TimedOutTests)) > 0
            <==> exists i :: 0 <= i < |tests| && Terminal(tests[i].verdict)
  {
    if i :| 0 <= i < |tests| && Terminal(tests[i].verdict) {
      TallyWitness(tests, pc => Made(pc, Count(BucketOf(tests[i].verdict))), i);
    } else {
      TallyNone(tests, pc => Made(pc, Count(Failed)));
      TallyNone(tests, pc => Made(pc, Count(CrashedTests)));
      TallyNone(tests, pc => Made(pc, Count(TimedOutTests)));
    }
  }

  /** A finished run has a terminal failure exactly when some test failed, crashed or
      timed out. */
  lemma TerminalFailureExact(workers: nat, selected: nat, run: seq<State>, events: seq<Event>, k: nat)
    requires IsRun(workers, selected, run, events)
    requires k < |run| && Quiescent(run[k])
    ensures Complete(run[k])
    ensures HasTerminalFailure(run[k]) <==>
              exists i :: 0 <= i < |run[k].tests| && Terminal(run[k].tests[i].verdict)
  {
    RunInv(workers, selected, run, events, k);
    TerminalCounted(run[k].tests);
  }

  // ------------------------------------------------------------------- progress

  /** With at least one worker a run that has not finished can always go on. */
  lemma NeverStuck(workers: nat, selected: nat, s: State) returns (i: nat, a: Action)
    requires Inv(workers, selected, s) && workers > 0 && !Quiescent(s)
    ensures Enabled(workers, s, i, a)
  {
    var p := (pc: Pc) => Holds(pc);
    var q := (pc: Pc) => InFlight(pc);
    if Tally(s.tests, p) > 0 {
      i := TallyPositive(s.tests, p);
      assert PcOk(s.tests[i]);
      a := if s.tests[i].Running? then Conclude(Some(Pass))
           else if s.tests[i].done < |Effects(s.tests[i].verdict)| then Report else Release;
    } else if Tally(s.tests, q) > 0 {
      i := TallyPositive(s.tests, q);
      if Holds(s.tests[i]) {
        TallyWitness(s.tests, p, i);
      }
      a := Acquire;
    } else {
      i :| 0 <= i < |s.tests| && !s.tests[i].Finished?;
      if q(s.tests[i]) {
        TallyWitness(s.tests, q, i);
      }
      a := Start;
    }
  }

  /** Steps a test can still take. */
  function Work(pc: Pc): int {
    match pc
    case Pending => 9
    case Started => 8
    case Running => 7
    case Reporting(v, done) => |Effects(v)| - done + 1
    case Finished(_) => 0
  }

  function TotalWork(tests: seq<Pc>): int {
    if tests == [] then 0 else TotalWork(tests[..|tests| - 1]) + Work(tests[|tests| - 1])
  }

  lemma {:induction false} WorkUpdate(tests: seq<Pc>, i: nat, pc: Pc)
    requires i < |tests|
    ensures TotalWork(tests[i := pc]) == TotalWork(tests) - Work(tests[i]) + Work(pc)
  {
    var n := |tests| - 1;
    if i < n {
      WorkUpdate(tests[..n], i, pc);
      assert tests[i := pc][..n] == tests[..n][i := pc];
    } else {
      assert tests[i := pc][..n] == tests[..n];
    }
  }

  lemma {:induction false} WorkOfPending(selected: nat)
    ensures TotalWork(seq(selected, _ => Pending)) == 9 * selected
  {
    if selected > 0 {
      WorkOfPending(selected - 1);
      assert seq(selected, _ => Pending)[..selected - 1] == seq(selected - 1, _ => Pending);
    }
  }

  lemma {:induction false} WorkNonNegative(tests: seq<Pc>)
    requires forall i :: 0 <= i < |tests| ==> PcOk(tests[i])
    ensures TotalWork(tests) >= 0
  {
    if tests != [] {
      WorkNonNegative(tests[..|tests| - 1]);
    }
  }

  /** A test that makes a step has less work left. */
  lemma StepOwnWork(workers: nat, s: State, i: nat, a: Action)
    requires Complete(s) && Enabled(workers, s, i, a) && PcOk(s.tests[i])
    ensures Work(Apply(workers, s, i, a).tests[i]) < Work(s.tests[i])
  {
    if a.Conclude? {
      RankCorrect(a.verdict, Count(Total), 0);
    }
  }

  lemma StepOnlyOne(workers: nat, s: State, i: nat, a: Action)
    requires Complete(s) && Enabled(workers, s, i, a)
    ensures var after := Apply(workers, s, i, a).tests; |after| == |s.tests| && after == s.tests[i := after[i]]
  {
  }

  /** Every step is one of the nine. */
  lemma StepWork(workers: nat, selected: nat, s: State, i: nat, a: Action)
    requires Inv(workers, selected, s) && Enabled(workers, s, i, a)
    ensures var s' := Apply(workers, s, i, a);
            |s'.tests| == |s.tests| && TotalWork(s'.tests) < TotalWork(s.tests)
  {
    var after := Apply(workers, s, i, a).tests;
    assert PcOk(s.tests[i]);
    StepOwnWork(workers, s, i, a);
    StepOnlyOne(workers, s, i, a);
    WorkUpdate(s.tests, i, after[i]);
  }

  lemma RunWork(workers: nat, selected: nat, run: seq<State>, events: seq<Event>, k: nat)
    requires IsRun(workers, selected, run, events) && k < |events|
    ensures TotalWork(run[k + 1].tests) < TotalWork(run[k].tests)
  {
    RunInv(workers, selected, run, events, k);
    assert StepAt(workers, run, events, k);
    StepWork(workers, selected, run[k], events[k].test, events[k].action);
  }

  /** No interleaving takes more than nine steps a test. */
  lemma {:induction false} RunsAreBounded(workers: nat, selected: nat, run: seq<State>, events: seq<Event>, k: nat)
    requires IsRun(workers, selected, run, events)
    requires k < |run|
    ensures TotalWork(run[k].tests) <= 9 * selected - k
  {
    if k == 0 {
      WorkOfPending(selected);
    } else {
      RunsAreBounded(workers, selected, run, events, k - 1);
      RunWork(workers, selected, run, events, k - 1);
    }
  }

  /** So every run ends. */
  lemma RunsEnd(workers: nat, selected: nat, run: seq<State>, events: seq<Event>)
    requires IsRun(workers, selected, run, events)
    ensures |events| <= 9 * selected
  {
    var k := |events|;
    RunsAreBounded(workers, selected, run, events, k);
    RunInv(workers, selected, run, events, k);
    WorkNonNegative(run[k].tests);
  }

  predicate Idle(s: State) {
    s.permits == 0 && forall i :: 0 <= i < |s.tests| ==> s.tests[i].Pending? || s.tests[i].Started?
  }

  lemma StepIdle(workers: nat, s: State, i: nat, a: Action)
    requires Complete(s) && Enabled(workers, s, i, a) && Idle(s)
    ensures Idle(Apply(workers, s, i, a))
  {
  }

  /** With no workers nothing is ever run, so a selection never finishes. */
  lemma {:induction false} NoWorkersNoResults(selected: nat, run: seq<State>, events: seq<Event>, k: nat)
    requires IsRun(0, selected, run, events)
    requires k < |run|
    ensures Idle(run[k])
  {
    if k > 0 {
      NoWorkersNoResults(selected, run, events, k - 1);
      assert StepAt(0, run, events, k - 1);
      StepIdle(0, run[k - 1], events[k - 1].test, events[k - 1].action);
    }
  }
}
