// From process output to comparable evidence: the verdicts of
// crates/conformance/src/tsz_wrapper.rs, the aggregation over configurations of
// crates/conformance/src/runner.rs and the cache gate of crates/conformance/src/cache.rs.

module Evidence {
  import opened Wrappers
  import opened Diagnostics
  import opened DiagnosticLaws

  datatype Completion = Complete | Deferred | Cycle | Limit | Incomplete

  type Options = map<string, string>

  datatype CompilationResult = CompilationResult(
    codes: seq<nat>, fingerprints: seq<Fingerprint>, crashed: bool, completion: Completion,
    exits: seq<nat>, options: Options)

  // ------------------------------------------------------------ fresh process

  /** A captured stream: its text with invalid bytes replaced, and whether there were none. */
  datatype Stream = Stream(text: string, utf8: bool)

  datatype Exit = Code(status: int) | Signal

  datatype Output = Output(exit: Exit, stdout: Stream, stderr: Stream)

  /** Bytes that decode to nothing were no bytes, and no bytes are valid. */
  predicate StreamOk(stream: Stream) {
    stream.text == "" ==> stream.utf8
  }

  /** Every byte of both streams is understood. */
  predicate Understood(r: Reader, output: Output) {
    && output.stdout.utf8 && output.stderr.utf8
    && Parse(r, output.stdout.text).covered && Parse(r, output.stderr.text).covered
  }

  function AllFingerprints(r: Reader, output: Output): seq<Fingerprint> {
    Parse(r, output.stdout.text).fingerprints + Parse(r, output.stderr.text).fingerprints
  }

  /** When the output of an exit can be trusted: it is understood, diagnostics come
      from one stream only, and a failing exit explains itself. */
  predicate Trusted(r: Reader, output: Output) {
    && output.exit.Code? && 0 <= output.exit.status <= 3
    && Understood(r, output)
    && (Parse(r, output.stdout.text).fingerprints == [] || Parse(r, output.stderr.text).fingerprints == [])
    && (1 <= output.exit.status <= 2 ==> AllFingerprints(r, output) != [])
  }

  predicate Definitive(r: Reader, output: Output) {
    Trusted(r, output) && output.exit.status <= 2
  }

  lemma EmptyText(r: Reader)
    ensures Parse(r, "") == Parsed([], [], true)
  {
    assert Lines("") == [];
  }

  lemma CodesOfConcat(a: seq<Fingerprint>, b: seq<Fingerprint>)
    ensures CodesOf(a + b) == CodesOf(a) + CodesOf(b)
  {
  }

  method ParseTszOutput(r: Reader, output: Output, options: Options) returns (result: CompilationResult)
    requires StreamOk(output.stdout) && StreamOk(output.stderr)
    ensures result.crashed <==> !Trusted(r, output)
    ensures result.completion == if Definitive(r, output) then Complete else Incomplete
    ensures result.exits == if Definitive(r, output) then [output.exit.status] else []
    ensures result.fingerprints == if output.exit.Signal? then [] else AllFingerprints(r, output)
    ensures result.codes == CodesOf(result.fingerprints)
    ensures result.options == options
  {
    EmptyText(r);
    if output.exit == Code(0) && output.stdout.text == "" && output.stderr.text == "" {
      return CompilationResult([], [], false, Complete, [0], options);
    }
    if output.exit.Signal? {
      return CompilationResult([], [], true, Incomplete, [], options);
    }
    var parsedOut := ParseDiagnosticOutput(r, output.stdout.text);
    var parsedErr := ParseDiagnosticOutput(r, output.stderr.text);
    ParseAligned(r, output.stdout.text);
    ParseAligned(r, output.stderr.text);
    CodesOfConcat(parsedOut.fingerprints, parsedErr.fingerprints);
    var covered := output.stdout.utf8 && output.stderr.utf8 && parsedOut.covered && parsedErr.covered;
    var crossed := parsedOut.fingerprints != [] && parsedErr.fingerprints != [];
    var codes := parsedOut.codes + parsedErr.codes;
    var fingerprints := parsedOut.fingerprints + parsedErr.fingerprints;
    var status := output.exit.status;
    var crashed :=
      if status == 1 || status == 2 then !covered || fingerprints == [] || crossed
      else if status == 0 || status == 3 then !covered || crossed
      else true;
    var complete := !crashed && 0 <= status <= 2;
    return CompilationResult(codes, fingerprints, crashed, if complete then Complete else Incomplete,
                             if complete then [status] else [], options);
  }

  // ----------------------------------------------------- batch transport marker

  const MARKER_PREFIX := "---TSZ-SEMANTIC-COMPLETION:"

  function TrimEnd(line: string): string {
    if line != "" && (line[|line| - 1] == '\r' || line[|line| - 1] == '\n') then TrimEnd(line[..|line| - 1])
    else line
  }

  function MarkerOf(line: string): Option<Completion> {
    var trimmed := TrimEnd(line);
    if trimmed == MARKER_PREFIX + "complete---" then Some(Complete)
    else if trimmed == MARKER_PREFIX + "deferred---" then Some(Deferred)
    else if trimmed == MARKER_PREFIX + "cycle---" then Some(Cycle)
    else if trimmed == MARKER_PREFIX + "limit---" then Some(Limit)
    else None
  }

  predicate IsMarker(line: string) {
    MARKER_PREFIX <= TrimEnd(line)
  }

  function Markers(pieces: seq<string>): seq<string> {
    if pieces == [] then []
    else Markers(pieces[..|pieces| - 1]) + (if IsMarker(pieces[|pieces| - 1]) then [pieces[|pieces| - 1]] else [])
  }

  function Unmarked(pieces: seq<string>): string {
    if pieces == [] then ""
    else Unmarked(pieces[..|pieces| - 1]) + (if IsMarker(pieces[|pieces| - 1]) then "" else pieces[|pieces| - 1])
  }

  /** The verdict of the marker lines: there is exactly one, and it is a known one. */
  function Verdict(markers: seq<string>): Completion {
    if |markers| == 1 && MarkerOf(markers[0]).Some? then MarkerOf(markers[0]).value else Incomplete
  }

  lemma MarkersAreMarked(line: string)
    ensures MarkerOf(line).Some? ==> IsMarker(line)
    ensures MarkerOf(line) != Some(Incomplete)
  {
  }

  /** What the scan knows of the marker lines so far. */
  ghost predicate Tracks(mark: string -> Option<Completion>, markers: seq<string>, valid: bool, last: Option<Completion>) {
    && (valid <==> |markers| <= 1 && forall m :: m in markers ==> mark(m).Some?)
    && (valid ==> last == if |markers| == 1 then mark(markers[0]) else None)
    && (last.None? <==> forall m :: m in markers ==> mark(m).None?)
  }

  lemma TrackStep(mark: string -> Option<Completion>, markers: seq<string>, line: string, valid: bool, last: Option<Completion>)
    requires Tracks(mark, markers, valid, last)
    ensures var observed := mark(line);
            Tracks(mark, markers + [line], valid && observed.Some? && last.None?, if observed.Some? then observed else last)
  {
    var more := markers + [line];
    assert line in more && forall m :: m in more <==> m in markers || m == line;
    assert |markers| == 0 ==> more == [line];
    assert |markers| == 1 ==> markers[0] in markers;
  }

  lemma TrackVerdict(markers: seq<string>, valid: bool, last: Option<Completion>)
    requires Tracks(MarkerOf, markers, valid, last)
    ensures Verdict(markers) == if valid && last.Some? then last.value else Incomplete
  {
    assert |markers| == 1 ==> markers[0] in markers;
  }

  method StripSemanticCompletionMarker(text: string) returns (completion: Completion, rest: string)
    ensures completion == Verdict(Markers(SplitInclusive(text)))
    ensures rest == Unmarked(SplitInclusive(text))
  {
    var pieces := SplitInclusive(text);
    var last: Option<Completion> := None;
    var valid := true;
    rest := "";
    for i := 0 to |pieces|
      invariant rest == Unmarked(pieces[..i])
      invariant Tracks(MarkerOf, Markers(pieces[..i]), valid, last)
    {
      assert pieces[..i + 1][..i] == pieces[..i];
      MarkersAreMarked(pieces[i]);
      TrackStep(MarkerOf, Markers(pieces[..i]), pieces[i], valid, last);
      var observed := MarkerOf(pieces[i]);
      if observed.Some? {
        if last.Some? {
          valid := false;
        }
        last := observed;
      } else if IsMarker(pieces[i]) {
        valid := false;
      } else {
        rest := rest + pieces[i];
      }
    }
    assert pieces[..|pieces|] == pieces;
    TrackVerdict(Markers(pieces), valid, last);
    completion := if valid && last.Some? then last.value else Incomplete;
  }

  method ParseBatchOutput(r: Reader, text: string, options: Options) returns (result: CompilationResult)
    ensures var pieces := SplitInclusive(text);
            var parsed := Parse(r, Unmarked(pieces));
            && (result.crashed <==> !parsed.covered)
            && result.completion == (if parsed.covered then Verdict(Markers(pieces)) else Incomplete)
            && result.fingerprints == parsed.fingerprints
            && result.codes == CodesOf(result.fingerprints)
            && result.exits == [] && result.options == options
  {
    var completion, rest := StripSemanticCompletionMarker(text);
    if rest == "" {
      EmptyText(r);
      return CompilationResult([], [], false, completion, [], options);
    }
    var parsed := ParseDiagnosticOutput(r, rest);
    ParseAligned(r, rest);
    return CompilationResult(parsed.codes, parsed.fingerprints, !parsed.covered,
                             if parsed.covered then completion else Incomplete, [], options);
  }
}
