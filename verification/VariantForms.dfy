// The gate on cached evidence by the fields of its rows, and what each way of stopping
// makes of a case.

module VariantForms {
  import opened Wrappers
  import opened Text
  import opened Diagnostics
  import opened Evidence
  import opened EvidenceForms
  import opened Results
  import opened Variants

  // ------------------------------------------------------------------- the cache

  /** A row as the gate wants it, field by field. */
  ghost predicate GoodRow(row: TscResult) {
    && row.blocksComplete
    && |row.sourceSha256| == 64 && (forall i :: 0 <= i < 64 ==> row.sourceSha256[i] in "0123456789abcdef")
    && row.exits != [] && (forall i :: 0 <= i < |row.exits| ==> row.exits[i] == 0 || row.exits[i] == 1 || row.exits[i] == 2)
    && |row.codes| == |row.fingerprints| && (forall i :: 0 <= i < |row.codes| ==> row.codes[i] == row.fingerprints[i].code)
  }

  lemma HexDigitsOf(s: string)
    ensures IsLowerHex(s, 64) <==> |s| == 64 && forall i :: 0 <= i < 64 ==> s[i] in "0123456789abcdef"
  {
    forall i | 0 <= i < |s|
      ensures IsLowerHexDigit(s[i]) <==> s[i] in "0123456789abcdef"
    {
      LowerHexDigits(s[i]);
    }
  }

  /** The gate accepts exactly such rows: a row whose codes are not those of its
      fingerprints, one by one and in order, is refused, and no other defect passes. */
  lemma RowsAccepted(row: TscResult)
    ensures RowOk(row) <==> GoodRow(row)
  {
    HexDigitsOf(row.sourceSha256);
  }

  /** One differing code in one row refuses the whole cache. */
  lemma DifferingCodeRefused(cache: map<string, TscResult>, path: string, i: nat)
    requires path in cache && i < |cache[path].codes|
    requires i < |cache[path].fingerprints| ==> cache[path].codes[i] != cache[path].fingerprints[i].code
    ensures !(forall p :: p in cache ==> RowOk(cache[p]))
  {
    RowsAccepted(cache[path]);
  }

  /** A case with cached evidence runs exactly when its blocks are complete and all its
      recorded exits, at least one, are 0, 1 or 2. */
  lemma EvidenceRuns(row: TscResult)
    ensures OracleEvidenceNonRunnable(row) == None <==>
            && row.blocksComplete && row.exits != []
            && forall i :: 0 <= i < |row.exits| ==> row.exits[i] == 0 || row.exits[i] == 1 || row.exits[i] == 2
    ensures OracleEvidenceNonRunnable(row).Some? ==>
              OracleEvidenceNonRunnable(row).value == Unsupported(OracleDiagnosticEvidenceIncomplete)
  {
  }

  // ------------------------------------------------------------------- stopping

  /** How a configuration that does not finish stops its case. */
  lemma UnfinishedStops(v: Variant, error: string)
    ensures v.execution == TimedOut ==> !Sound(v) && Stopped(v) == Ok(Terminal(Timeout))
    ensures v.execution == Broken(error) ==> !Sound(v) && Stopped(v) == Err(error)
  {
  }

  /** How a finished one does, by its exit, when all output is understood and comes from
      one stream. */
  lemma FinishedStops(v: Variant, output: Output)
    requires v.execution == Finished(output) && output.stdout.utf8 && output.stderr.utf8
    requires Parse(v.reader, output.stdout.text).covered && Parse(v.reader, output.stderr.text).covered
    requires Parse(v.reader, output.stdout.text).fingerprints == [] || Parse(v.reader, output.stderr.text).fingerprints == []
    ensures var silent := AllFingerprints(v.reader, output) == [];
            match output.exit
            case Signal => !Sound(v) && Stopped(v) == Ok(Terminal(Crashed))
            case Code(status) =>
              && (status == 0 ==> Sound(v))
              && (status == 1 || status == 2 ==> if silent then !Sound(v) && Stopped(v) == Ok(Terminal(Crashed)) else Sound(v))
              && (status == 3 ==> !Sound(v) && Stopped(v) == Ok(Terminal(Unsupported(SemanticIncomplete))))
              && (status < 0 || status > 3 ==> !Sound(v) && Stopped(v) == Ok(Terminal(Crashed)))
  {
    StatusTable(v.reader, output);
  }

  /** Any other finished configuration is a crash. */
  lemma UnreadableStops(v: Variant, output: Output)
    requires v.execution == Finished(output)
    requires || !output.stdout.utf8 || !output.stderr.utf8
             || !Parse(v.reader, output.stdout.text).covered || !Parse(v.reader, output.stderr.text).covered
             || (Parse(v.reader, output.stdout.text).fingerprints != [] && Parse(v.reader, output.stderr.text).fingerprints != [])
    ensures !Sound(v) && Stopped(v) == Ok(Terminal(Crashed))
  {
    NeverTrusted(v.reader, output);
  }

  // ------------------------------------------------------------------- aggregation

  lemma NothingFirst()
    ensures AllSound([]) && Fingerprints([]) == [] && Exits([]) == []
  {
  }

  lemma OneFirst(v: Variant)
    requires Sound(v)
    ensures AllSound([v]) && Fingerprints([v]) == AllFingerprints(v.reader, v.execution.output) && Exits([v]) == [ExitOf(v)]
  {
    NothingFirst();
    SoundAppend([], v);
    assert [] + [v] == [v];
    AggregateAppend([], v);
  }

  /** The evidence of all is that of the first and of the others. */
  ghost predicate Leads(first: Variant, rest: seq<Variant>, all: seq<Variant>)
    requires Sound(first) && AllSound(rest) && AllSound(all)
  {
    && Fingerprints(all) == AllFingerprints(first.reader, first.execution.output) + Fingerprints(rest)
    && Exits(all) == [ExitOf(first)] + Exits(rest)
  }

  lemma Behind<T>(a: seq<T>, b: seq<T>, c: seq<T>)
    ensures (a + b) + c == a + (b + c)
  {
  }

  lemma LeadsMore(first: Variant, front: seq<Variant>, last: Variant, all: seq<Variant>)
    requires Sound(first) && Sound(last) && AllSound(front) && AllSound(all) && Leads(first, front, all)
    ensures AllSound(front + [last]) && AllSound(all + [last]) && Leads(first, front + [last], all + [last])
  {
    SoundAppend(front, last);
    SoundAppend(all, last);
    AggregateAppend(front, last);
    AggregateAppend(all, last);
    Behind(AllFingerprints(first.reader, first.execution.output), Fingerprints(front), AllFingerprints(last.reader, last.execution.output));
    Behind([ExitOf(first)], Exits(front), [ExitOf(last)]);
  }

  lemma Regroup(first: Variant, front: seq<Variant>, last: Variant)
    ensures [first] + (front + [last]) == ([first] + front) + [last]
  {
  }

  /** Evidence is aggregated in the order of the configurations. */
  lemma {:induction false} FirstComesFirst(first: Variant, rest: seq<Variant>)
    requires Sound(first) && AllSound(rest)
    ensures AllSound([first] + rest) && Leads(first, rest, [first] + rest)
  {
    if rest == [] {
      NothingFirst();
      OneFirst(first);
      assert [first] + rest == [first];
    } else {
      var front, last := rest[..|rest| - 1], rest[|rest| - 1];
      assert Sound(last);
      assert AllSound(front);
      FirstComesFirst(first, front);
      LeadsMore(first, front, last, [first] + front);
      Regroup(first, front, last);
      assert rest == front + [last];
    }
  }

  /** The evidence of a completed case is complete, and its options are those of the first
      configuration. */
  lemma AggregateSays(variants: seq<Variant>)
    requires variants != [] && AllSound(variants)
    ensures var result := Aggregate(variants);
            !result.crashed && result.completion == Complete && result.options == variants[0].options
  {
  }
}
