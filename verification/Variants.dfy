// The configurations of one conformance case (crates/conformance/src/runner.rs) and
// the gate on cached oracle evidence (crates/conformance/src/cache.rs).

module Variants {
  import opened Wrappers
  import opened Text
  import opened Diagnostics
  import opened DiagnosticLaws
  import opened Evidence
  import opened Results

  /** What running one selected configuration came to. */
  datatype Execution = Finished(output: Output) | TimedOut | Broken(error: string)

  /** A selected configuration: its options, the reader for its temporary root, and
      the outcome of its process. */
  datatype Variant = Variant(options: Options, reader: Reader, execution: Execution)

  datatype Outcome = Completed(result: CompilationResult) | Terminal(verdict: TestResult)

  predicate VariantOk(v: Variant) {
    v.execution.Finished? ==> StreamOk(v.execution.output.stdout) && StreamOk(v.execution.output.stderr)
  }

  predicate Sound(v: Variant) {
    v.execution.Finished? && Definitive(v.reader, v.execution.output)
  }

  /** What a configuration that is not sound makes of the whole case. */
  function Stopped(v: Variant): Result<Outcome, string>
    requires !Sound(v)
  {
    match v.execution
    case Broken(error) => Err(error)
    case TimedOut => Ok(Terminal(Timeout))
    case Finished(output) =>
      if !Trusted(v.reader, output) then Ok(Terminal(Crashed))
      else Ok(Terminal(Unsupported(SemanticIncomplete)))
  }

  predicate AllSound(variants: seq<Variant>) {
    forall i :: 0 <= i < |variants| ==> Sound(variants[i])
  }

  function Fingerprints(variants: seq<Variant>): seq<Fingerprint>
    requires AllSound(variants)
  {
    if variants == [] then []
    else
      var last := variants[|variants| - 1];
      assert Sound(last);
      Fingerprints(variants[..|variants| - 1]) + AllFingerprints(last.reader, last.execution.output)
  }

  function ExitOf(v: Variant): nat
    requires Sound(v)
  {
    v.execution.output.exit.status
  }

  function Exits(variants: seq<Variant>): seq<nat>
    requires AllSound(variants)
  {
    seq(|variants|, i requires 0 <= i < |variants| => assert Sound(variants[i]); ExitOf(variants[i]))
  }

  /** The evidence of a case all of whose configurations are sound. */
  function Aggregate(variants: seq<Variant>): CompilationResult
    requires variants != [] && AllSound(variants)
  {
    CompilationResult(CodesOf(Fingerprints(variants)), Fingerprints(variants), false, Complete,
                      Exits(variants), variants[0].options)
  }

  function SemanticNonRunnable(result: CompilationResult): Option<TestResult> {
    if result.completion.Complete? then None else Some(Unsupported(SemanticIncomplete))
  }

  lemma SoundAppend(front: seq<Variant>, v: Variant)
    requires AllSound(front) && Sound(v)
    ensures AllSound(front + [v])
  {
    var all := front + [v];
    forall k | 0 <= k < |all|
      ensures Sound(all[k])
    {
      assert all[k] == if k < |front| then front[k] else v;
    }
  }

  /** One more sound configuration. */
  lemma AggregateAppend(front: seq<Variant>, v: Variant)
    requires AllSound(front) && Sound(v) && AllSound(front + [v])
    ensures Fingerprints(front + [v]) == Fingerprints(front) + AllFingerprints(v.reader, v.execution.output)
    ensures Exits(front + [v]) == Exits(front) + [ExitOf(v)]
  {
    assert (front + [v])[..|front|] == front;
  }

  /** Runs one configuration: its evidence, or what it makes of the case. */
  method CompileVariant(v: Variant) returns (r: Result<Outcome, string>)
    requires VariantOk(v)
    ensures Sound(v) ==>
      (&& r.Ok? && r.value.Completed?
       && r.value.result.fingerprints == AllFingerprints(v.reader, v.execution.output)
       && r.value.result.codes == CodesOf(r.value.result.fingerprints)
       && r.value.result.exits == [ExitOf(v)])
    ensures !Sound(v) ==> r == Stopped(v)
  {
    if v.execution.Broken? {
      return Err(v.execution.error);
    }
    if v.execution.TimedOut? {
      return Ok(Terminal(Timeout));
    }
    var compiled := ParseTszOutput(v.reader, v.execution.output, v.options);
    if compiled.crashed {
      return Ok(Terminal(Crashed));
    }
    var refused := SemanticNonRunnable(compiled);
    if refused.Some? {
      return Ok(Terminal(refused.value));
    }
    return Ok(Completed(compiled));
  }

  /** The evidence of the first `i` configurations. */
  ghost predicate Collected(variants: seq<Variant>, i: nat, result: CompilationResult) {
    && i <= |variants| && AllSound(variants[..i])
    && result.fingerprints == Fingerprints(variants[..i])
    && result.codes == CodesOf(result.fingerprints)
    && result.exits == Exits(variants[..i])
    && !result.crashed && result.completion.Complete?
  }

  function Extend(total: CompilationResult, next: CompilationResult): CompilationResult {
    total.(codes := total.codes + next.codes, fingerprints := total.fingerprints + next.fingerprints,
           exits := total.exits + next.exits)
  }

  lemma CollectOne(variants: seq<Variant>, i: nat, total: CompilationResult, next: CompilationResult)
    requires i < |variants| && Sound(variants[i]) && Collected(variants, i, total)
    requires next.fingerprints == AllFingerprints(variants[i].reader, variants[i].execution.output)
    requires next.codes == CodesOf(next.fingerprints) && next.exits == [ExitOf(variants[i])]
    ensures Collected(variants, i + 1, Extend(total, next))
  {
    SoundAppend(variants[..i], variants[i]);
    AggregateAppend(variants[..i], variants[i]);
    assert variants[..i + 1] == variants[..i] + [variants[i]];
    CodesOfConcat(total.fingerprints, next.fingerprints);
  }

  /** Runs every selected configuration, in order, up to the first that is not sound,
      which decides the case; `stop` is its index. */
  method CompileTextVariants(variants: seq<Variant>) returns (r: Result<Outcome, string>, ghost stop: nat)
    requires variants != []
    requires forall i :: 0 <= i < |variants| ==> VariantOk(variants[i])
    ensures if AllSound(variants) then r == Ok(Completed(Aggregate(variants))) else r.Err? || r.value.Terminal?
    ensures stop <= |variants| && AllSound(variants[..stop])
    ensures if stop == |variants| then AllSound(variants) && r == Ok(Completed(Aggregate(variants)))
            else !Sound(variants[stop]) && r == Stopped(variants[stop])
  {
    var total := CompilationResult([], [], false, Complete, [], variants[0].options);
    for i := 0 to |variants|
      invariant Collected(variants, i, total) && total.options == variants[0].options
    {
      var compiled := CompileVariant(variants[i]);
      if compiled.Err? || compiled.value.Terminal? {
        return compiled, i;
      }
      CollectOne(variants, i, total, compiled.value.result);
      total := Extend(total, compiled.value.result);
    }
    assert variants[..|variants|] == variants;
    return Ok(Completed(total)), |variants|;
  }

  lemma {:induction false} SomeFingerprints(variants: seq<Variant>, i: nat)
    requires AllSound(variants)
    requires i < |variants| && Sound(variants[i]) && ExitOf(variants[i]) != 0
    ensures Fingerprints(variants) != []
  {
    if i < |variants| - 1 {
      SomeFingerprints(variants[..|variants| - 1], i);
    }
  }

  /** The evidence of a completed case is aligned, has one compiler exit for each
      configuration, and explains every failing exit. */
  lemma CompletedEvidence(variants: seq<Variant>)
    requires variants != [] && AllSound(variants)
    ensures var result := Aggregate(variants);
            && |result.exits| == |variants|
            && (forall i :: 0 <= i < |variants| ==> result.exits[i] <= 2)
            && result.codes == CodesOf(result.fingerprints)
            && ((exists i :: 0 <= i < |variants| && result.exits[i] != 0) ==> result.fingerprints != [])
  {
    var result := Aggregate(variants);
    forall i | 0 <= i < |variants|
      ensures result.exits[i] <= 2
      ensures result.exits[i] != 0 ==> result.fingerprints != []
    {
      assert Sound(variants[i]);
      if result.exits[i] != 0 {
        SomeFingerprints(variants, i);
      }
    }
  }

  // ------------------------------------------------------------------ the cache

  datatype TscResult = TscResult(
    sourceSha256: string, codes: seq<nat>, fingerprints: seq<Fingerprint>, blocksComplete: bool, exits: seq<nat>)

  predicate ExitsOk(exits: seq<nat>) {
    exits != [] && forall i :: 0 <= i < |exits| ==> exits[i] <= 2
  }

  predicate RowOk(row: TscResult) {
    && row.blocksComplete
    && IsLowerHex(row.sourceSha256, 64)
    && ExitsOk(row.exits)
    && row.codes == CodesOf(row.fingerprints)
  }

  function OracleEvidenceNonRunnable(row: TscResult): Option<TestResult> {
    if !row.blocksComplete || row.exits == [] || exists i :: 0 <= i < |row.exits| && row.exits[i] > 2
    then Some(Unsupported(OracleDiagnosticEvidenceIncomplete))
    else None
  }

  /** No row of an accepted cache is refused when its case comes to run. */
  method ValidateRunnableEvidence(cache: map<string, TscResult>) returns (r: Result<(), string>)
    ensures r.Ok? <==> cache != map[] && forall path :: path in cache ==> RowOk(cache[path])
    ensures r.Ok? ==> forall path :: path in cache ==> OracleEvidenceNonRunnable(cache[path]) == None
    ensures r.Err? && cache != map[] ==> r.error in cache && !RowOk(cache[r.error])
  {
    if cache == map[] {
      return Err("TSC cache has no runnable entries");
    }
    var pending := cache.Keys;
    while pending != {}
      invariant pending <= cache.Keys
      invariant forall path :: path in cache && path !in pending ==> RowOk(cache[path])
    {
      var path :| path in pending;
      if !RowOk(cache[path]) {
        return Err(path);
      }
      pending := pending - {path};
    }
    return Ok(());
  }

  /** Evidence of a completed case meets the standard demanded of cached evidence. */
  lemma CompletedMeetsCacheGate(variants: seq<Variant>, sourceSha256: string)
    requires variants != [] && AllSound(variants)
    requires IsLowerHex(sourceSha256, 64)
    ensures var result := Aggregate(variants);
            RowOk(TscResult(sourceSha256, result.codes, result.fingerprints, true, result.exits))
  {
    CompletedEvidence(variants);
  }
}
