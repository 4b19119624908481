// Which documents the gate of scripts/ci/check-emit-regression-set.py can read, by the
// texts in them, and what has to be true of all documents that pass.

module EmitDocumentForms {
  import opened Wrappers
  import opened EmitRows
  import opened EmitGate
  import opened EmitDocuments
  import opened EmitHistory
  import opened RowTables

  /** The oracle a document names, perhaps none. */
  predicate NamesOracle(data: map<string, Json>, oracle: Option<string>) {
    var value := Get(data, "oracle");
    (if value.JObj? then Get(value.fields, "fingerprint") else JNull) == (if oracle.Some? then JStr(oracle.value) else JNull)
  }

  predicate HexText(s: string, length: nat) {
    |s| == length && forall i :: 0 <= i < |s| ==> '0' <= s[i] <= '9' || 'a' <= s[i] <= 'f'
  }

  /** The envelope of a committed baseline. */
  ghost predicate Enveloped(data: map<string, Json>) {
    && Get(data, "schemaVersion") in {JInt(1), JReal(1.0), JBool(true)}
    && (exists hash: string :: Get(data, "sourceArtifactSha256") == JStr("sha256:" + hash) && HexText(hash, 64))
    && (exists sha: string :: Get(data, "git_sha") == JStr(sha) && HexText(sha, 40))
  }

  lemma EnvelopeExactly(data: map<string, Json>)
    ensures MetadataOk(data) <==> Enveloped(data)
  {
    var source, git := Get(data, "sourceArtifactSha256"), Get(data, "git_sha");
    if source.JStr? && "sha256:" <= source.text {
      var hash := source.text[7..];
      assert source == JStr("sha256:" + hash);
      if HexText(hash, 64) && git.JStr? && HexText(git.text, 40) {
        assert MetadataOk(data) <==> Enveloped(data);
      }
    }
    forall hash: string | source == JStr("sha256:" + hash)
      ensures source.text[7..] == hash
    {
    }
  }

  /** A document with the number of rows it declares, its oracle, and whether it has the
      envelope. */
  ghost predicate DocumentIs(data: Json, d: Document) {
    && data.JObj?
    && Get(data.fields, "results") == JArr(d.rows)
    && Get(data.fields, "detailResultCount") == JInt(|d.rows|)
    && NamesOracle(data.fields, d.oracle)
    && (d.provenance <==> Enveloped(data.fields))
  }

  /** A document loads only if it holds the number of rows it declares, and then with
      those rows, its oracle and whether it has the envelope. */
  lemma LoadExactly(data: Json, d: Document)
    ensures Load(data) == Some(d) <==> DocumentIs(data, d)
  {
    if data.JObj? {
      EnvelopeExactly(data.fields);
    }
  }

  /** A file loads exactly when it decodes to such a document. */
  lemma FileLoads(decode: Decoder, file: Bytes, d: Document)
    ensures LoadFile(decode, file) == Some(d) <==> decode(file).Some? && DocumentIs(decode(file).value, d)
  {
    if decode(file).Some? {
      LoadExactly(decode(file).value, d);
    }
  }

  /** Whatever passes was read and has rows, names one oracle throughout, and, where
      provenance is asked for, a trusted one, over a baseline with its envelope. */
  lemma PassingIsTrusted(
      read: RowReader, baseline: Loaded, details: seq<Loaded>, trusted: Option<set<string>>, strict: bool, i: nat)
    requires Passes(read, baseline, details, trusted, strict) && i < |details|
    ensures baseline.Some? && details[i].Some? && Concat(RowsOf(details)) != []
    ensures details[i].value.oracle == details[0].value.oracle
    ensures trusted.Some? ==>
              && baseline.value.provenance && baseline.value.oracle.Some? && baseline.value.oracle.value in trusted.value
              && details[i].value.oracle.Some? && details[i].value.oracle.value in trusted.value
  {
  }

  lemma {:induction false} EntryAt(read: RowReader, rows: seq<Json>, i: nat)
    requires ReadRows(read, rows).Some? && i < |rows|
    ensures read(rows[i]) == Some(ReadRows(read, rows).value[i])
  {
    if i < |rows| - 1 {
      EntryAt(read, rows[..|rows| - 1], i);
    }
  }

  lemma {:induction false} AllRead(read: RowReader, rows: seq<Json>)
    requires forall i :: 0 <= i < |rows| ==> read(rows[i]).Some?
    ensures ReadRows(read, rows).Some?
  {
    if rows != [] {
      AllRead(read, rows[..|rows| - 1]);
    }
  }

  /** Rows make a table exactly when each is valid and no two have one identity. */
  lemma TablesExactly(read: RowReader, rows: seq<Json>)
    ensures TableIn(read, rows).Some? <==>
            && (forall i :: 0 <= i < |rows| ==> read(rows[i]).Some?)
            && forall i, j :: 0 <= i < j < |rows| ==> read(rows[i]).value.key != read(rows[j]).value.key
  {
    if forall i :: 0 <= i < |rows| ==> read(rows[i]).Some? {
      AllRead(read, rows);
    }
    if ReadRows(read, rows).Some? {
      var entries := ReadRows(read, rows).value;
      forall i | 0 <= i < |rows|
        ensures read(rows[i]) == Some(entries[i])
      {
        EntryAt(read, rows, i);
      }
    }
  }

  /** And the table holds each row under its identity, and nothing else. */
  lemma TableOfRows(read: RowReader, rows: seq<Json>, key: Key, view: View)
    requires TableIn(read, rows).Some?
    ensures Find(TableIn(read, rows).value, key) == Some(view) <==>
            exists i :: 0 <= i < |rows| && read(rows[i]) == Some(Entry(key, view))
  {
    var entries := ReadRows(read, rows).value;
    forall i | 0 <= i < |rows|
      ensures read(rows[i]) == Some(entries[i])
      ensures Find(TableIn(read, rows).value, entries[i].key) == Some(entries[i].view)
    {
      EntryAt(read, rows, i);
      TableLookup(entries, i);
    }
    TableKeys(entries, key);
  }

  /** The whole decision, given tables: one oracle, trusted where that is asked for, and
      no row lost or regressed. */
  lemma PassesExactly(
      read: RowReader, baseline: Document, first: Document, others: seq<Loaded>, trusted: Option<set<string>>, strict: bool,
      before: Table, after: Table)
    requires (forall i :: 0 <= i < |others| ==> others[i].Some?) && Concat(RowsOf([Some(first)] + others)) != []
    requires TableIn(read, baseline.rows) == Some(before)
    requires TableIn(read, Concat(RowsOf([Some(first)] + others))) == Some(after)
    ensures Passes(read, Some(baseline), [Some(first)] + others, trusted, strict) <==>
            && (forall i :: 0 <= i < |others| ==> others[i].value.oracle == first.oracle)
            && (trusted.Some? ==>
                  && baseline.provenance && baseline.oracle.Some? && baseline.oracle.value in trusted.value
                  && first.oracle.Some? && first.oracle.value in trusted.value)
            && (strict ==> before.Keys <= after.Keys)
            && forall key :: key in after ==> RowHeld(Find(before, key), after[key])
  {
    var details := [Some(first)] + others;
    assert details[0] == Some(first) && forall i :: 0 <= i < |others| ==> details[i + 1] == others[i];
  }

  /** A file that follows a version of the history comes with a trusted oracle, as does
      the version, and misses none of its rows. */
  lemma FollowingIsStrict(g: Setting, version: Bytes, current: Bytes)
    requires Follows(g)(version, current)
    ensures var before, after := LoadFile(g.decode, version), LoadFile(g.decode, current);
            && before.Some? && before.value.provenance && before.value.oracle.Some? && before.value.oracle.value in g.trusted
            && after.Some? && after.value.oracle.Some? && after.value.oracle.value in g.trusted
            && TableIn(g.read, before.value.rows).Some? && TableIn(g.read, after.value.rows).Some?
            && TableIn(g.read, before.value.rows).value.Keys <= TableIn(g.read, after.value.rows).value.Keys
  {
    var before, after := LoadFile(g.decode, version), LoadFile(g.decode, current);
    PassingIsTrusted(g.read, before, [after], Some(g.trusted), true, 0);
    assert RowsOf([after]) == [after.value.rows] && [after.value.rows][1..] == [];
    assert Concat([after.value.rows]) == after.value.rows;
  }
}
