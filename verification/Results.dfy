// Outcomes of one conformance case (crates/conformance/src/tsc_results.rs).

module Results {

  datatype UnsupportedReason = SemanticIncomplete | OracleDiagnosticEvidenceIncomplete | OtherReason

  /** A failure says whether it is known debt, and which parts of the comparison differ. */
  datatype TestResult =
    | Pass
    | Fail(known: bool, codesMatch: bool, fingerprintsDiffer: bool)
    | Skipped
    | Unsupported(reason: UnsupportedReason)
    | Crashed
    | Timeout
}
