// The gate over whole documents: `load_detail`, `validate_rewrite_baseline_metadata` and
// `main` of scripts/ci/check-emit-regression-set.py.

module EmitDocuments {
  import opened Wrappers
  import opened Text
  import opened RowTables
  import opened EmitRows
  import opened EmitGate

  /** A readable detail document; `provenance` tells whether it carries the envelope
      of a committed baseline. */
  datatype Document = Document(rows: seq<Json>, oracle: Option<string>, provenance: bool)

  /** A detail document declares its own row count and may name its oracle. */
  function Load(data: Json): Option<Document> {
    if !data.JObj? then None else
    var results, declared := Get(data.fields, "results"), Get(data.fields, "detailResultCount");
    var oracle := Get(data.fields, "oracle");
    var fingerprint := if oracle.JObj? then Get(oracle.fields, "fingerprint") else JNull;
    if !results.JArr? || declared != JInt(|results.items|) then None
    else if fingerprint.JStr? then Some(Document(results.items, Some(fingerprint.text), MetadataOk(data.fields)))
    else if fingerprint.JNull? then Some(Document(results.items, None, MetadataOk(data.fields)))
    else None
  }

  predicate MetadataOk(data: map<string, Json>) {
    && Get(data, "schemaVersion") in {JInt(1), JReal(1.0), JBool(true)}
    && var source, git := Get(data, "sourceArtifactSha256"), Get(data, "git_sha");
       && source.JStr? && "sha256:" <= source.text && IsLowerHex(source.text[7..], 64)
       && git.JStr? && IsLowerHex(git.text, 40)
  }

  type Loaded = Option<Document>

  /** What decoding makes of the bytes of a file, if they are JSON at all. */
  type Decoder = Bytes -> Option<Json>

  function LoadFile(decode: Decoder, file: Bytes): Loaded {
    if decode(file).Some? then Load(decode(file).value) else None
  }

  function LoadFiles(decode: Decoder, files: seq<Bytes>): seq<Loaded> {
    seq(|files|, i requires 0 <= i < |files| => LoadFile(decode, files[i]))
  }

  ghost predicate AllLoaded(details: seq<Loaded>) {
    forall i :: 0 <= i < |details| ==> details[i].Some?
  }

  function RowsOf(details: seq<Loaded>): seq<seq<Json>>
    requires forall i :: 0 <= i < |details| ==> details[i].Some?
  {
    seq(|details|, i requires 0 <= i < |details| => details[i].value.rows)
  }

  /** The table of valid rows with distinct identities. */
  ghost function TableIn(read: RowReader, rows: seq<Json>): (table: Option<Table>)
    ensures Sound(read) && table.Some? ==> TableOk(table.value)
  {
    if Indexable(read, rows) then
      assert Sound(read) ==> TableOk(TableOf(ReadRows(read, rows).value)) by {
        if Sound(read) {
          IndexedTableOk(read, rows);
        }
      }
      Some(TableOf(ReadRows(read, rows).value))
    else None
  }

  /** The oracle every shard names, or that no shard names one. */
  ghost predicate SameOracle(details: seq<Loaded>, oracle: Option<string>)
    requires AllLoaded(details)
  {
    forall i :: 0 <= i < |details| ==> details[i].value.oracle == oracle
  }

  predicate Trusts(trusted: Option<set<string>>, oracle: Option<string>) {
    trusted.Some? ==> oracle.Some? && oracle.value in trusted.value
  }

  /** A document the gate can compare others with. */
  ghost predicate Comparable(read: RowReader, baseline: Loaded, trusted: Option<set<string>>) {
    && baseline.Some? && TableIn(read, baseline.value.rows).Some?
    && Trusts(trusted, baseline.value.oracle) && (trusted.Some? ==> baseline.value.provenance)
  }

  /** Shards the gate can compare with a baseline: their rows together make one table. */
  ghost predicate Reportable(read: RowReader, details: seq<Loaded>, trusted: Option<set<string>>) {
    && details != [] && AllLoaded(details)
    && var rows := Concat(RowsOf(details));
       && rows != [] && TableIn(read, rows).Some?
       && SameOracle(details, details[0].value.oracle) && Trusts(trusted, details[0].value.oracle)
  }

  /** What the gate decides about one baseline and the shards of one run. */
  ghost predicate Passes(
    read: RowReader, baseline: Loaded, details: seq<Loaded>, trusted: Option<set<string>>, strict: bool)
  {
    && Comparable(read, baseline, trusted) && Reportable(read, details, trusted)
    && Accepts(TableIn(read, baseline.value.rows).value, TableIn(read, Concat(RowsOf(details))).value, strict)
  }

  lemma NoRowsNoTable(read: RowReader, rows: seq<Json>)
    requires TableIn(read, rows).Some?
    ensures TableIn(read, rows).value == map[] <==> rows == []
  {
    var entries := ReadRows(read, rows).value;
    if rows != [] {
      TableKeys(entries, entries[0].key);
    }
  }

  ghost predicate Names(details: seq<Loaded>, oracle: Option<string>)
    requires AllLoaded(details)
  {
    exists i :: 0 <= i < |details| && details[i].value.oracle == oracle
  }

  /** The oracles named by the shards, and whether some shard names none. */
  method CollectOracles(details: seq<Loaded>) returns (oracles: set<string>, missing: bool, loaded: bool)
    ensures loaded <==> AllLoaded(details)
    ensures loaded ==> forall o :: o in oracles <==> Names(details, Some(o))
    ensures loaded ==> (missing <==> Names(details, None))
  {
    oracles, missing, loaded := {}, false, true;
    for k := 0 to |details|
      invariant AllLoaded(details[..k])
      invariant forall o :: o in oracles <==> Names(details[..k], Some(o))
      invariant missing <==> Names(details[..k], None)
    {
      if details[k].None? {
        return {}, false, false;
      }
      forall o
        ensures Names(details[..k + 1], o) <==> Names(details[..k], o) || details[k].value.oracle == o
      {
        assert details[..k + 1][k] == details[k];
        assert forall i :: 0 <= i < k ==> details[..k + 1][i] == details[..k][i];
      }
      match details[k].value.oracle {
        case None => missing := true;
        case Some(fingerprint) => oracles := oracles + {fingerprint};
      }
    }
    assert details[..|details|] == details;
  }

  /** The counting tests find out whether all shards name the same oracle. */
  lemma OneOracle(details: seq<Loaded>, oracles: set<string>, missing: bool)
    requires AllLoaded(details) && details != []
    requires forall o :: o in oracles <==> Names(details, Some(o))
    requires missing <==> Names(details, None)
    ensures SameOracle(details, details[0].value.oracle) <==> |oracles| <= 1 && (oracles == {} || !missing)
    ensures SameOracle(details, details[0].value.oracle) ==>
              oracles == match details[0].value.oracle { case None => {} case Some(o) => {o} }
  {
    var oracle := details[0].value.oracle;
    assert Names(details, oracle);
    if SameOracle(details, oracle) {
      assert oracles == match oracle { case None => {} case Some(o) => {o} };
    } else {
      var i :| 0 <= i < |details| && details[i].value.oracle != oracle;
      var other := details[i].value.oracle;
      assert Names(details, other);
      if oracle.Some? && other.Some? {
        SubsetCount({oracle.value, other.value}, oracles);
      }
    }
  }

  /** The oracle rules for the shards of one run. */
  method OraclesTrusted(details: seq<Loaded>, trusted: Option<set<string>>) returns (ok: bool)
    requires details != []
    ensures ok <==> AllLoaded(details) && SameOracle(details, details[0].value.oracle) && Trusts(trusted, details[0].value.oracle)
  {
    var oracles, missing, loaded := CollectOracles(details);
    if !loaded {
      return false;
    }
    OneOracle(details, oracles, missing);
    if |oracles| > 1 || (oracles != {} && missing) {
      return false;
    }
    return trusted.None? || (oracles != {} && oracles <= trusted.value);
  }

  /** The table of the shards, or none when they make no table or an empty one. */
  method CurrentRows(read: RowReader, details: seq<Loaded>) returns (current: Option<Table>)
    requires AllLoaded(details)
    ensures var rows := Concat(RowsOf(details)); current == if rows == [] then None else TableIn(read, rows)
  {
    var merged := MergeShards(read, RowsOf(details));
    if merged.Err? {
      return None;
    }
    NoRowsNoTable(read, Concat(RowsOf(details)));
    return if merged.value == map[] then None else Some(merged.value);
  }

  /** The decision on documents that were read. */
  method Compare(read: RowReader, baseline: Loaded, details: seq<Loaded>, trusted: Option<set<string>>, strict: bool)
    returns (passed: bool)
    requires details != []
    ensures passed <==> Passes(read, baseline, details, trusted, strict)
  {
    if baseline.None? {
      return false;
    }
    var before := IndexRows(read, baseline.value.rows);
    var agreed := OraclesTrusted(details, trusted);
    if before.Err? || !agreed {
      return false;
    }
    var current := CurrentRows(read, details);
    if current.None? {
      return false;
    }
    if trusted.Some? {
      if !baseline.value.provenance || baseline.value.oracle.None? || baseline.value.oracle.value !in trusted.value {
        return false;
      }
    }
    var failed := CompareRows(before.value, current.value, strict);
    return !failed;
  }

  /** The gate on files: a baseline and the shards of one run. */
  method Gate(decode: Decoder, read: RowReader, baseline: Bytes, details: seq<Bytes>, trusted: Option<set<string>>, strict: bool)
    returns (passed: bool)
    ensures passed <==> Passes(read, LoadFile(decode, baseline), LoadFiles(decode, details), trusted, strict)
  {
    if details == [] {
      return false;
    }
    passed := Compare(read, LoadFile(decode, baseline), LoadFiles(decode, details), trusted, strict);
  }

  lemma SingleShard(d: Document)
    ensures Concat(RowsOf([Some(d)])) == d.rows
  {
    var shards := RowsOf([Some(d)]);
    assert shards[..0] == [] && Concat(shards) == Concat(shards[..0]) + shards[0];
  }

  /** Sharding a run changes nothing: the gate says of the shards what it says of one
      document with all their rows. */
  lemma ShardsAsOne(
    read: RowReader, baseline: Loaded, details: seq<Loaded>, whole: Document, trusted: Option<set<string>>, strict: bool)
    requires details != [] && AllLoaded(details) && SameOracle(details, whole.oracle)
    requires whole.rows == Concat(RowsOf(details))
    ensures Passes(read, baseline, details, trusted, strict) <==> Passes(read, baseline, [Some(whole)], trusted, strict)
  {
    SingleShard(whole);
  }
}
