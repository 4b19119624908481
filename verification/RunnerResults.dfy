// What the counters and lists of a finished run say of its tests, verdict by verdict.

module RunnerResults {
  import opened Wrappers
  import opened Results
  import opened Runner

  /** How many finished tests have a verdict of a kind. */
  function Number(tests: seq<Pc>, kind: Verdict -> bool): nat {
    Tally(tests, (pc: Pc) => pc.Finished? && kind(pc.verdict))
  }

  predicate IsPass(v: Verdict) {
    v.Some? && v.value.Pass?
  }

  predicate IsFail(v: Verdict) {
    v.Some? && v.value.Fail?
  }

  predicate IsKnownFail(v: Verdict) {
    v.Some? && v.value.Fail? && v.value.known
  }

  /** A failure that is no known debt and differs in fingerprints only. */
  predicate IsFingerprintFail(v: Verdict) {
    v.Some? && v.value.Fail? && !v.value.known && v.value.codesMatch && v.value.fingerprintsDiffer
  }

  predicate IsSkip(v: Verdict) {
    v.Some? && v.value.Skipped?
  }

  predicate IsUnsupported(v: Verdict) {
    v.Some? && v.value.Unsupported?
  }

  predicate IsCrash(v: Verdict) {
    v.Some? && v.value.Crashed?
  }

  predicate IsTimeout(v: Verdict) {
    v.Some? && v.value.Timeout?
  }

  predicate IsResult(v: Verdict) {
    v.Some?
  }

  predicate IsError(v: Verdict) {
    v.None?
  }

  lemma {:induction false} TallySame(tests: seq<Pc>, p: Pc -> bool, q: Pc -> bool)
    requires forall i :: 0 <= i < |tests| ==> p(tests[i]) == q(tests[i])
    ensures Tally(tests, p) == Tally(tests, q)
  {
    if tests != [] {
      TallySame(tests[..|tests| - 1], p, q);
    }
  }

  /** The update `e` is made by the tests whose verdict is of the kind, and by no other. */
  lemma CountsKind(tests: seq<Pc>, e: Effect, kind: Verdict -> bool)
    requires forall i :: 0 <= i < |tests| ==> tests[i].Finished?
    requires forall v :: Rank(v, e) < 9 <==> kind(v)
    ensures MadeBy(tests, e) == Number(tests, kind)
  {
    TallySame(tests, pc => Made(pc, e), (pc: Pc) => pc.Finished? && kind(pc.verdict));
  }

  /** A list names exactly the tests whose verdict is of a kind, each once. */
  ghost predicate NamesExactly(tests: seq<Pc>, log: seq<nat>, kind: Verdict -> bool) {
    forall i: nat :: multiset(log)[i] == if i < |tests| && tests[i].Finished? && kind(tests[i].verdict) then 1 else 0
  }

  lemma LogsKind(tests: seq<Pc>, log: seq<nat>, e: Effect, kind: Verdict -> bool)
    requires forall i :: 0 <= i < |tests| ==> tests[i].Finished?
    requires Logged(tests, log, e) && forall v :: Rank(v, e) < 9 <==> kind(v)
    ensures NamesExactly(tests, log, kind)
  {
  }

  lemma CounterSays(workers: nat, selected: nat, s: State, c: Counter, kind: Verdict -> bool)
    requires Inv(workers, selected, s) && Quiescent(s)
    requires forall v :: Rank(v, Count(c)) < 9 <==> kind(v)
    ensures c in s.counters && s.counters[c] == Number(s.tests, kind)
  {
    CountsKind(s.tests, Count(c), kind);
  }

  lemma LogSays(workers: nat, selected: nat, s: State, l: Log, kind: Verdict -> bool)
    requires Inv(workers, selected, s) && Quiescent(s)
    requires forall v :: Rank(v, Append(l)) < 9 <==> kind(v)
    ensures l in s.logs && NamesExactly(s.tests, s.logs[l], kind)
  {
    LogsKind(s.tests, s.logs[l], Append(l), kind);
  }

  ghost predicate Bucketed(s: State) {
    && Complete(s)
    && s.counters[Total] == Number(s.tests, IsResult)
    && s.counters[Passed] == Number(s.tests, IsPass)
    && s.counters[Failed] == Number(s.tests, IsFail)
    && s.counters[SkippedTests] == Number(s.tests, IsSkip)
    && s.counters[UnsupportedTests] == Number(s.tests, IsUnsupported)
    && s.counters[CrashedTests] == Number(s.tests, IsCrash)
    && s.counters[TimedOutTests] == Number(s.tests, IsTimeout)
  }

  lemma FailureBuckets(workers: nat, selected: nat, s: State)
    requires Inv(workers, selected, s) && Quiescent(s)
    ensures s.counters[Failed] == Number(s.tests, IsFail)
    ensures s.counters[KnownFailures] == Number(s.tests, IsKnownFail)
    ensures s.counters[FingerprintOnly] == Number(s.tests, IsFingerprintFail)
  {
    CounterSays(workers, selected, s, Failed, IsFail);
    CounterSays(workers, selected, s, KnownFailures, IsKnownFail);
    CounterSays(workers, selected, s, FingerprintOnly, IsFingerprintFail);
  }

  lemma OtherBuckets(workers: nat, selected: nat, s: State)
    requires Inv(workers, selected, s) && Quiescent(s)
    ensures s.counters[Passed] == Number(s.tests, IsPass)
    ensures s.counters[SkippedTests] == Number(s.tests, IsSkip)
    ensures s.counters[UnsupportedTests] == Number(s.tests, IsUnsupported)
    ensures s.counters[CrashedTests] == Number(s.tests, IsCrash)
    ensures s.counters[TimedOutTests] == Number(s.tests, IsTimeout)
  {
    CounterSays(workers, selected, s, Passed, IsPass);
    CounterSays(workers, selected, s, SkippedTests, IsSkip);
    CounterSays(workers, selected, s, UnsupportedTests, IsUnsupported);
    CounterSays(workers, selected, s, CrashedTests, IsCrash);
    CounterSays(workers, selected, s, TimedOutTests, IsTimeout);
  }

  /** Each bucket of a finished run holds the number of tests with that verdict; known and
      fingerprint-only failures are counted as such. */
  lemma FinalCounts(workers: nat, selected: nat, run: seq<State>, events: seq<Event>, k: nat)
    requires IsRun(workers, selected, run, events) && k < |run| && Quiescent(run[k])
    ensures Bucketed(run[k]) && |run[k].tests| == selected
    ensures run[k].counters[KnownFailures] == Number(run[k].tests, IsKnownFail)
    ensures run[k].counters[FingerprintOnly] == Number(run[k].tests, IsFingerprintFail)
  {
    RunInv(workers, selected, run, events, k);
    CounterSays(workers, selected, run[k], Total, IsResult);
    FailureBuckets(workers, selected, run[k]);
    OtherBuckets(workers, selected, run[k]);
  }

  lemma AllLists(workers: nat, selected: nat, s: State)
    requires Inv(workers, selected, s) && Quiescent(s)
    ensures Timings in s.logs && NamesExactly(s.tests, s.logs[Timings], IsResult)
    ensures FatalErrors in s.logs && NamesExactly(s.tests, s.logs[FatalErrors], IsError)
  {
    LogSays(workers, selected, s, Timings, IsResult);
    LogSays(workers, selected, s, FatalErrors, IsError);
  }

  lemma FailureLists(workers: nat, selected: nat, s: State)
    requires Inv(workers, selected, s) && Quiescent(s)
    ensures CrashLog in s.logs && NamesExactly(s.tests, s.logs[CrashLog], IsCrash)
    ensures TimeoutLog in s.logs && NamesExactly(s.tests, s.logs[TimeoutLog], IsTimeout)
  {
    LogSays(workers, selected, s, CrashLog, IsCrash);
    LogSays(workers, selected, s, TimeoutLog, IsTimeout);
  }

  lemma FingerprintLists(workers: nat, selected: nat, s: State)
    requires Inv(workers, selected, s) && Quiescent(s)
    ensures FingerprintLog in s.logs && NamesExactly(s.tests, s.logs[FingerprintLog], IsFingerprintFail)
  {
    LogSays(workers, selected, s, FingerprintLog, IsFingerprintFail);
  }

  /** The lists of a finished run name exactly the tests they are about, each once. */
  lemma FinalLists(workers: nat, selected: nat, run: seq<State>, events: seq<Event>, k: nat)
    requires IsRun(workers, selected, run, events) && k < |run| && Quiescent(run[k])
    ensures Complete(run[k])
    ensures var logs, tests := run[k].logs, run[k].tests;
            && NamesExactly(tests, logs[Timings], IsResult)
            && NamesExactly(tests, logs[FatalErrors], IsError)
            && NamesExactly(tests, logs[CrashLog], IsCrash)
            && NamesExactly(tests, logs[TimeoutLog], IsTimeout)
            && NamesExactly(tests, logs[FingerprintLog], IsFingerprintFail)
  {
    RunInv(workers, selected, run, events, k);
    AllLists(workers, selected, run[k]);
    FailureLists(workers, selected, run[k]);
    FingerprintLists(workers, selected, run[k]);
  }

  lemma NumberLast(tests: seq<Pc>, kind: Verdict -> bool)
    requires tests != []
    ensures var last := tests[|tests| - 1];
            Number(tests, kind) ==
            Number(tests[..|tests| - 1], kind) + (if last.Finished? && kind(last.verdict) then 1 else 0)
  {
  }

  lemma {:induction false} NumbersSplit(tests: seq<Pc>)
    ensures Number(tests, IsSkip) + Number(tests, IsUnsupported) <= Number(tests, IsResult)
    ensures (forall i :: 0 <= i < |tests| ==> tests[i].Finished? && tests[i].verdict.Some?) ==>
              Number(tests, IsResult) == |tests|
  {
    if tests != [] {
      NumbersSplit(tests[..|tests| - 1]);
      NumberLast(tests, IsSkip);
      NumberLast(tests, IsUnsupported);
      NumberLast(tests, IsResult);
    }
  }

  /** The runnable count of a finished run is that of its results less the skipped and the
      unsupported tests; without fatal errors every selected test has a result. */
  lemma RunnableExact(workers: nat, selected: nat, run: seq<State>, events: seq<Event>, k: nat)
    requires IsRun(workers, selected, run, events) && k < |run| && Quiescent(run[k])
    ensures Complete(run[k])
    ensures Runnable(run[k]) ==
            Number(run[k].tests, IsResult) - Number(run[k].tests, IsSkip) - Number(run[k].tests, IsUnsupported)
    ensures (forall i :: 0 <= i < |run[k].tests| ==> run[k].tests[i].verdict.Some?) ==>
              Runnable(run[k]) == selected - Number(run[k].tests, IsSkip) - Number(run[k].tests, IsUnsupported)
  {
    FinalCounts(workers, selected, run, events, k);
    NumbersSplit(run[k].tests);
  }
}
