// What the validator of scripts/typescript7/input_manifest.py accepts, written out as
// documents, and what the writers of scripts/typescript7/capture_inputs.go record.

module CaptureForms {
  import opened Wrappers
  import opened Text
  import opened CaptureProtocol
  import opened CaptureStore

  // ------------------------------------------------------------------- file names

  lemma DigestName(name: string)
    ensures IsLowerHex(name, 64) <==> |name| == 64 && forall i :: 0 <= i < 64 ==> name[i] in "0123456789abcdef"
  {
    forall i | 0 <= i < |name|
      ensures IsLowerHexDigit(name[i]) <==> name[i] in "0123456789abcdef"
    {
      LowerHexDigits(name[i]);
    }
  }

  /** A blob is named by the 64 digits of its digest. */
  lemma BlobExactly(env: Env, name: string, content: Bytes)
    ensures BlobOk(env, name, content) <==>
            && name == env.hash(content) && |name| == 64
            && forall i :: 0 <= i < 64 ==> name[i] in "0123456789abcdef"
  {
    DigestName(name);
  }

  /** Records are the files whose names end in ".json", and nothing else is. */
  lemma RecordNames(name: string, stem: string)
    ensures IsRecord(stem + ".json")
    ensures IsRecord(name) ==> |name| >= 5 && name == name[..|name| - 5] + ".json"
  {
    assert (stem + ".json")[|stem|..] == ".json";
  }

  /** The text that is hashed into the name of a record. */
  function KeyText(id: Identity): string {
    id.package + "\0" + id.test + "\0" + Decimal(id.sequence)
  }

  lemma NulAt(a: string, x: string, i: nat)
    requires '\0' !in a && i <= |a|
    ensures (a + "\0" + x)[i] == '\0' <==> i == |a|
  {
  }

  lemma FirstNul(a: string, x: string, b: string, y: string)
    requires '\0' !in a && '\0' !in b && a + "\0" + x == b + "\0" + y
    ensures a == b && x == y
  {
    var s, t := a + "\0" + x, b + "\0" + y;
    var least := Min(|a|, |b|);
    NulAt(a, x, least);
    NulAt(b, y, least);
    assert a == s[..|a|] && b == t[..|b|];
    assert x == s[|a| + 1..] && y == t[|b| + 1..];
  }

  /** Identities without NUL bytes in their names are told apart by that text. */
  lemma KeysIdentify(env: Env, a: Identity, b: Identity)
    requires '\0' !in a.package && '\0' !in a.test && '\0' !in b.package && '\0' !in b.test
    ensures KeyName(env, a) == env.hash(env.utf8(KeyText(a))) + ".json"
    ensures KeyText(a) == KeyText(b) <==> a == b
  {
    if KeyText(a) == KeyText(b) {
      Regrouped(a);
      Regrouped(b);
      FirstNul(a.package, a.test + "\0" + Decimal(a.sequence), b.package, b.test + "\0" + Decimal(b.sequence));
      FirstNul(a.test, Decimal(a.sequence), b.test, Decimal(b.sequence));
      DecimalRoundTrip(a.sequence);
      DecimalRoundTrip(b.sequence);
    }
  }

  lemma Regrouped(id: Identity)
    ensures KeyText(id) == id.package + "\0" + (id.test + "\0" + Decimal(id.sequence))
  {
  }

  // ------------------------------------------------------------- accepted documents

  /** A file reference with these four members. */
  function FileJson(path: string, mode: int, size: int, digest: string): Json {
    JObj(map["path" := JStr(path), "mode" := JInt(mode), "byte_length" := JInt(size), "sha256" := JStr(digest)])
  }

  ghost predicate FileWanted(blobs: map<string, Bytes>, value: Json, path: string, mode: int, digest: string) {
    && path != "" && 0 <= mode <= 0xFFFF_FFFF && digest in blobs
    && value == FileJson(path, mode, |blobs[digest]|, digest)
  }

  /** A file reference is accepted exactly when it names a file, its mode of 32 bits, and
      the digest and length of a blob of the store, and has no other member. */
  lemma FileExactly(blobs: map<string, Bytes>, value: Json)
    ensures FileOk(blobs, value) <==> exists path, mode, digest :: FileWanted(blobs, value, path, mode, digest)
  {
    if FileOk(blobs, value) {
      var path, mode, digest := value.fields["path"].text, value.fields["mode"].number, value.fields["sha256"].text;
      assert value.fields == FileJson(path, mode, |blobs[digest]|, digest).fields;
      assert FileWanted(blobs, value, path, mode, digest);
    }
    if path, mode, digest :| FileWanted(blobs, value, path, mode, digest) {
      assert value.fields.Keys == {"path", "mode", "byte_length", "sha256"};
    }
  }

  function Texts(items: seq<string>): seq<Json> {
    seq(|items|, i requires 0 <= i < |items| => JStr(items[i]))
  }

  ghost predicate RootsWanted(roots: Json) {
    roots == JNull || exists items :: roots == JArr(Texts(items))
  }

  lemma RootsExactly(roots: Json)
    ensures RootsOk(roots) <==> RootsWanted(roots)
  {
    if RootsOk(roots) && roots.JArr? {
      var items := seq(|roots.items|, i requires 0 <= i < |roots.items| => roots.items[i].text);
      assert Texts(items) == roots.items;
    }
  }

  /** The parts of a record. */
  datatype Parts = Parts(
    id: Identity, directory: string, library: string, roots: Json, files: seq<Json>,
    options: map<string, Json>, harness: map<string, Json>, config: Json)

  function Record(p: Parts): Doc {
    Doc(JInt(1), JStr(p.id.package), JStr(p.id.test), JInt(p.id.sequence), JStr(p.directory), JStr(p.library),
        p.roots, JArr(p.files), JObj(p.options), JObj(p.harness), p.config)
  }

  ghost predicate IsFile(blobs: map<string, Bytes>, value: Json) {
    exists path, mode, digest :: FileWanted(blobs, value, path, mode, digest)
  }

  ghost predicate PartsWanted(blobs: map<string, Bytes>, p: Parts) {
    && p.id.package != "" && p.id.test != "" && RootsWanted(p.roots)
    && (forall i :: 0 <= i < |p.files| ==> IsFile(blobs, p.files[i]))
    && (forall i, j :: 0 <= i < j < |p.files| ==>
          p.files[i].JObj? && p.files[j].JObj? && Get(p.files[i].fields, "path") != Get(p.files[j].fields, "path"))
    && (p.config == JNull || IsFile(blobs, p.config))
  }

  ghost predicate RecordWanted(env: Env, blobs: map<string, Bytes>, name: string, content: Bytes, p: Parts) {
    && env.decode(content) == Some(Record(p)) && PartsWanted(blobs, p)
    && name == env.hash(env.utf8(KeyText(p.id))) + ".json"
  }

  function PartsOf(doc: Doc): Parts
    requires IdentityOk(doc) && doc.directory.JStr? && doc.library.JStr? && doc.files.JArr?
    requires doc.options.JObj? && doc.harness.JObj?
  {
    Parts(IdentityOf(doc), doc.directory.text, doc.library.text, doc.roots, doc.files.items,
          doc.options.fields, doc.harness.fields, doc.config)
  }

  lemma FilesExactly(blobs: map<string, Bytes>, files: seq<Json>)
    ensures FilesOk(blobs, files) <==>
            && (forall i :: 0 <= i < |files| ==> IsFile(blobs, files[i]))
            && (forall i, j :: 0 <= i < j < |files| ==>
                  files[i].JObj? && files[j].JObj? && Get(files[i].fields, "path") != Get(files[j].fields, "path"))
  {
    forall i | 0 <= i < |files|
      ensures FileOk(blobs, files[i]) <==> IsFile(blobs, files[i])
    {
      FileExactly(blobs, files[i]);
    }
  }

  lemma PartsExactly(blobs: map<string, Bytes>, p: Parts)
    ensures PartsWanted(blobs, p) <==>
            && p.id.package != "" && p.id.test != "" && RootsOk(p.roots) && FilesOk(blobs, p.files)
            && (p.config.JNull? || FileOk(blobs, p.config))
  {
    RootsExactly(p.roots);
    FilesExactly(blobs, p.files);
    FileExactly(blobs, p.config);
  }

  /** A record is accepted exactly when it decodes to a document of schema 1 with these
      members of these types, under the name that its own identity prescribes. */
  lemma RecordExactly(env: Env, blobs: map<string, Bytes>, name: string, content: Bytes)
    ensures RecordOk(env, blobs, name, content) <==> exists p :: RecordWanted(env, blobs, name, content, p)
  {
    if RecordOk(env, blobs, name, content) {
      var p := PartsOf(env.decode(content).value);
      PartsExactly(blobs, p);
      assert Record(p) == env.decode(content).value;
      assert RecordWanted(env, blobs, name, content, p);
    }
    if p :| RecordWanted(env, blobs, name, content, p) {
      PartsExactly(blobs, p);
      assert IdentityOf(Record(p)) == p.id;
    }
  }

  // ------------------------------------------------------------- what is recorded

  /** The record of a capture holds all of it, each part in its place. */
  lemma CaptureRecorded(env: Env, c: Capture, options: map<string, Json>, harness: map<string, Json>, roots: seq<string>)
    requires c.options == Some(options) && c.harness == Some(harness) && c.roots == Some(roots)
    ensures DocOf(env, c) ==
            Record(Parts(c.id, c.directory, c.library, JArr(Texts(roots)), Entries(c.entries), options, harness, ConfigJson(env, c.config)))
  {
    var doc := DocOf(env, c);
    assert doc.roots.items == Texts(roots);
    forall i | 0 <= i < |c.entries|
      ensures EntryJson(c.entries[i]) == Entries(c.entries)[i]
    {
      assert EntryJson(c.entries[i]).fields == Entries(c.entries)[i].fields;
    }
    assert doc.files.items == Entries(c.entries);
    if c.config.Some? {
      assert doc.config.fields == ConfigJson(env, c.config).fields;
    }
  }

  /** A file is listed under its path with its mode, length and digest. */
  lemma EntryListed(env: Env, path: string, file: MapFile)
    ensures EntryJson(EntryOf(env, path, file)) == FileJson(path, file.mode, |file.data|, env.hash(file.data))
  {
  }

  function Entries(entries: seq<Entry>): seq<Json> {
    seq(|entries|, i requires 0 <= i < |entries| => FileJson(entries[i].path, entries[i].mode, entries[i].byteLength, entries[i].sha256))
  }

  function ConfigJson(env: Env, config: Option<(string, Bytes)>): Json {
    if config.None? then JNull else FileJson(config.value.0, 0, |config.value.1|, env.hash(config.value.1))
  }
}
