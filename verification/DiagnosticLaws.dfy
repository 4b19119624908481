// Laws of the diagnostic parser: codes and fingerprints stay aligned, coverage means
// that every line is accounted for, and parsing undoes printing.

module DiagnosticLaws {
  import opened Wrappers
  import opened Diagnostics

  // --------------------------------------------------------------- alignment

  function CodesOf(fingerprints: seq<Fingerprint>): seq<nat> {
    seq(|fingerprints|, i requires 0 <= i < |fingerprints| => fingerprints[i].code)
  }

  lemma AlignedStep(r: Reader, scan: Scan, line: string)
    requires scan.codes == CodesOf(Flush(scan))
    ensures ScanLine(r, scan, line).codes == CodesOf(Flush(ScanLine(r, scan, line)))
  {
  }

  lemma {:induction false} ScanAligned(r: Reader, lines: seq<string>)
    ensures var scan := ScanLines(r, EMPTY_SCAN, lines); scan.codes == CodesOf(Flush(scan))
  {
    if lines != [] {
      ScanAligned(r, lines[..|lines| - 1]);
      AlignedStep(r, ScanLines(r, EMPTY_SCAN, lines[..|lines| - 1]), lines[|lines| - 1]);
    }
  }

  /** For every text the codes are those of the fingerprints, in order. */
  lemma ParseAligned(r: Reader, text: string)
    ensures Parse(r, text).codes == CodesOf(Parse(r, text).fingerprints)
  {
    ScanAligned(r, Lines(text));
  }

  // ---------------------------------------------------------------- coverage

  datatype LineKind = Continuation | Primary | Summary(count: Option<nat>) | Other

  function KindOf(r: Reader, line: string): LineKind {
    if IsContinuation(line) then Continuation
    else if r.primary(line).Some? then Primary
    else if r.summary(line).Some? then Summary(Number(r.summary(line).value, USIZE_LIMIT))
    else Other
  }

  function Kinds(r: Reader, lines: seq<string>): seq<LineKind> {
    seq(|lines|, i requires 0 <= i < |lines| => KindOf(r, lines[i]))
  }

  function Primaries(kinds: seq<LineKind>): nat {
    if kinds == [] then 0
    else Primaries(kinds[..|kinds| - 1]) + (if kinds[|kinds| - 1].Primary? then 1 else 0)
  }

  predicate Owns(kind: LineKind) {
    kind.Primary? || kind.Continuation?
  }

  /** No stray line, no continuation without an owner, at most one summary, and its
      count fits the machine word. */
  ghost predicate Accounted(kinds: seq<LineKind>) {
    && (forall k :: 0 <= k < |kinds| ==> !kinds[k].Other?)
    && (forall k :: 0 <= k < |kinds| && kinds[k].Continuation? ==> k > 0 && Owns(kinds[k - 1]))
    && (forall k :: 0 <= k < |kinds| && kinds[k].Summary? ==> kinds[k].count.Some?)
    && (forall j, k :: 0 <= j < k < |kinds| ==> !(kinds[j].Summary? && kinds[k].Summary?))
  }

  /** Every summary announces the number of diagnostics. */
  ghost predicate Counted(kinds: seq<LineKind>) {
    forall k :: 0 <= k < |kinds| && kinds[k].Summary? ==> kinds[k].count == Some(Primaries(kinds))
  }

  /** The part of the scan that decides coverage. */
  datatype Brief = Brief(total: nat, live: bool, covered: bool, summary: Option<Option<nat>>)

  function BriefOf(scan: Scan): Brief {
    Brief(|Flush(scan)|, scan.current.Some?, scan.covered, scan.summary)
  }

  function BriefStep(b: Brief, kind: LineKind): Brief {
    match kind
    case Continuation => b.(covered := b.covered && b.live)
    case Primary => b.(total := b.total + 1, live := true)
    case Summary(count) =>
      Brief(b.total, false, b.covered && b.summary.None? && count.Some?, Some(count))
    case Other => b.(live := false, covered := false)
  }

  lemma BriefOfStep(r: Reader, scan: Scan, line: string)
    ensures BriefOf(ScanLine(r, scan, line)) == BriefStep(BriefOf(scan), KindOf(r, line))
  {
  }

  /** How the scan stands for the lines read so far. */
  ghost predicate Represents(kinds: seq<LineKind>, b: Brief) {
    && b.total == Primaries(kinds)
    && (b.covered <==> Accounted(kinds))
    && (b.covered ==> (b.live <==> kinds != [] && Owns(kinds[|kinds| - 1])))
    && (b.summary.None? <==> forall k :: 0 <= k < |kinds| ==> !kinds[k].Summary?)
    && (b.covered ==> forall k :: 0 <= k < |kinds| && kinds[k].Summary? ==> b.summary == Some(kinds[k].count))
  }

  /** What the last line adds to the accounting. */
  lemma AccountedStep(front: seq<LineKind>, kind: LineKind)
    ensures Accounted(front + [kind]) <==>
            && Accounted(front) && !kind.Other?
            && (kind.Continuation? ==> front != [] && Owns(front[|front| - 1]))
            && (kind.Summary? ==> kind.count.Some? && forall k :: 0 <= k < |front| ==> !front[k].Summary?)
  {
    var kinds := front + [kind];
    assert forall k :: 0 <= k < |front| ==> kinds[k] == front[k];
    assert kinds[|front|] == kind;
  }

  lemma RepresentsStep(front: seq<LineKind>, b: Brief, kind: LineKind)
    requires Represents(front, b)
    ensures Represents(front + [kind], BriefStep(b, kind))
  {
    var kinds := front + [kind];
    assert kinds[..|kinds| - 1] == front;
    AccountedStep(front, kind);
    assert forall k :: 0 <= k < |front| ==> kinds[k] == front[k];
    assert kinds[|front|] == kind;
  }

  lemma {:induction false} ScanRepresents(r: Reader, lines: seq<string>)
    ensures Represents(Kinds(r, lines), BriefOf(ScanLines(r, EMPTY_SCAN, lines)))
  {
    if lines != [] {
      var front, last := lines[..|lines| - 1], lines[|lines| - 1];
      var scan := ScanLines(r, EMPTY_SCAN, front);
      ScanRepresents(r, front);
      RepresentsStep(Kinds(r, front), BriefOf(scan), KindOf(r, last));
      BriefOfStep(r, scan, last);
      assert Kinds(r, lines) == Kinds(r, front) + [KindOf(r, last)];
    }
  }

  /** A text is fully covered exactly when each line is a diagnostic, a continuation
      of the diagnostic above it, or the one summary, and the summary counts right. */
  lemma CoveredExactly(r: Reader, text: string)
    ensures Parse(r, text).covered <==> Accounted(Kinds(r, Lines(text))) && Counted(Kinds(r, Lines(text)))
    ensures |Parse(r, text).fingerprints| == Primaries(Kinds(r, Lines(text)))
  {
    ScanRepresents(r, Lines(text));
  }
}
