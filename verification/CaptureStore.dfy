// What the writers of scripts/typescript7/capture_inputs.go put into the store and
// what scripts/typescript7/input_manifest.py, which shares no code with them,
// demands of a store.

module CaptureStore {
  import opened Wrappers
  import opened Text
  import opened Sorting
  import opened CaptureProtocol

  datatype MapFile = MapFile(mode: nat, data: Bytes)

  datatype Entry = Entry(path: string, mode: nat, byteLength: nat, sha256: string)

  datatype Identity = Identity(package: string, test: string, sequence: nat)

  /** One recorded compilation: `files` is the virtual file system, `entries` its
      inventory as recorded. */
  datatype Capture = Capture(
    id: Identity,
    directory: string,
    library: string,
    roots: Option<seq<string>>,
    files: map<string, MapFile>,
    entries: seq<Entry>,
    options: Option<map<string, Json>>,
    harness: Option<map<string, Json>>,
    config: Option<(string, Bytes)>,
    extended: seq<string>,
    callers: seq<string>)

  /** The members of a decoded record that the validator looks at; an absent one
      is null. */
  datatype Doc =
    | NotObject
    | Doc(schema: Json, package: Json, test: Json, sequence: Json, directory: Json,
          library: Json, roots: Json, files: Json, options: Json, harness: Json, config: Json)

  /** A line of the validator's manifest: a file of the store, its digest and length. */
  datatype Line = Line(path: Path, sha256: string, size: nat)

  /** Library functions of the two programs: the digest, text encoding and JSON. */
  datatype Env = Env(
    hash: Bytes -> string,
    utf8: string -> Bytes,
    encode: Capture -> Bytes,
    decode: Bytes -> Option<Doc>,
    isObject: Bytes -> bool,
    render: seq<Line> -> Bytes)

  /** Nothing is asked of the digest but its shape: it may collide. */
  ghost predicate EnvOk(env: Env) {
    forall bytes :: IsLowerHex(env.hash(bytes), 64)
  }

  /** The records that were written read back as what the validator looks at. */
  ghost predicate Decodes(env: Env, captures: seq<Capture>) {
    forall c :: c in captures ==> env.decode(env.encode(c)) == Some(DocOf(env, c))
  }

  function DocAt(env: Env, captures: seq<Capture>, bytes: Bytes): Option<Doc> {
    if |bytes| < |captures| then Some(DocOf(env, captures[|bytes|])) else None
  }

  function PlaceOf(captures: seq<Capture>, c: Capture): (place: Bytes)
    ensures c in captures ==> |place| < |captures| && captures[|place|] == c
  {
    if captures == [] then [] else if captures[0] == c then [] else [0] + PlaceOf(captures[1..], c)
  }

  /** Any captures are decodable under any digest, so the theorems below speak of
      every list of captures. */
  lemma SomeEnvironment(hash: Bytes -> string, utf8: string -> Bytes, captures: seq<Capture>) returns (env: Env)
    ensures env.hash == hash && env.utf8 == utf8 && Decodes(env, captures)
    ensures forall schema :: env.isObject(schema)
  {
    var isObject, render := (_: Bytes) => true, (_: seq<Line>) => [];
    var encode := (c: Capture) => PlaceOf(captures, c);
    var digests := Env(hash, utf8, encode, (_: Bytes) => None, isObject, render);
    env := digests.(decode := (bytes: Bytes) => DocAt(digests, captures, bytes));
    forall c | c in captures
      ensures env.decode(env.encode(c)) == Some(DocOf(env, c))
    {
      assert DocOf(env, c) == DocOf(digests, c);
    }
  }

  // ------------------------------------------------------------------ writing

  function EntryOf(env: Env, path: string, file: MapFile): Entry {
    Entry(path, file.mode, |file.data|, env.hash(file.data))
  }

  function ConfigEntry(env: Env, config: (string, Bytes)): Entry {
    EntryOf(env, config.0, MapFile(0, config.1))
  }

  function EntryJson(e: Entry): Json {
    JObj(map["path" := JStr(e.path), "mode" := JInt(e.mode),
             "byte_length" := JInt(e.byteLength), "sha256" := JStr(e.sha256)])
  }

  function OptionsJson(options: Option<map<string, Json>>): Json {
    if options.Some? then JObj(options.value) else JNull
  }

  function DocOf(env: Env, c: Capture): Doc {
    Doc(JInt(1), JStr(c.id.package), JStr(c.id.test), JInt(c.id.sequence), JStr(c.directory),
        JStr(c.library),
        if c.roots.Some? then JArr(seq(|c.roots.value|, i requires 0 <= i < |c.roots.value| => JStr(c.roots.value[i])))
        else JNull,
        JArr(seq(|c.entries|, i requires 0 <= i < |c.entries| => EntryJson(c.entries[i]))),
        OptionsJson(c.options), OptionsJson(c.harness),
        if c.config.Some? then EntryJson(ConfigEntry(env, c.config.value)) else JNull)
  }

  function KeyName(env: Env, id: Identity): string {
    env.hash(env.utf8(id.package + "\0" + id.test + "\0" + Decimal(id.sequence))) + ".json"
  }

  function BlobJob(env: Env, data: Bytes): Job {
    Job(Path(Blobs, env.hash(data)), data)
  }

  function RecordJob(env: Env, c: Capture): Job {
    Job(Path(Invocations, KeyName(env, c.id)), env.encode(c))
  }

  function SchemaJob(schema: Bytes): Job {
    Job(Path(Root, "options.json"), schema)
  }

  /** The inventory lists every file once, in increasing path order. */
  ghost predicate InventoryOf(env: Env, files: map<string, MapFile>, entries: seq<Entry>) {
    && (forall i, j :: 0 <= i < j < |entries| ==> Less(entries[i].path, entries[j].path))
    && (forall e :: e in entries <==> exists name :: name in files && e == EntryOf(env, name, files[name]))
  }

  ghost predicate Inventory(env: Env, c: Capture) {
    && InventoryOf(env, c.files, c.entries)
    && forall name :: name in c.files ==> c.files[name].mode <= 0xFFFFFFFF
  }

  /** The writes one compilation performs. */
  ghost predicate Writes(env: Env, c: Capture, job: Job) {
    || (exists name :: name in c.files && job == BlobJob(env, c.files[name].data))
    || (c.config.Some? && job == BlobJob(env, c.config.value.1))
    || job == RecordJob(env, c)
  }

  /** `jobs` are the writes of all the captures, in any order and any number of times. */
  ghost predicate JobsOf(env: Env, schema: Bytes, captures: seq<Capture>, jobs: seq<Job>) {
    && (forall job :: job in jobs ==>
          job == SchemaJob(schema) || exists c :: c in captures && Writes(env, c, job))
    && (forall c, job :: c in captures && Writes(env, c, job) ==> job in jobs)
  }

  // --------------------------------------------------------------- validating

  datatype Store = Store(schema: Option<Bytes>, blobs: map<string, Bytes>, invocations: map<string, Bytes>)

  datatype Summary = Summary(invocations: nat, blobs: nat, sha256: string)

  predicate IsRecord(name: string) {
    EndsWith(name, ".json")
  }

  predicate FileOk(blobs: map<string, Bytes>, record: Json) {
    && record.JObj?
    && record.fields.Keys == {"path", "mode", "byte_length", "sha256"}
    && var path, mode := record.fields["path"], record.fields["mode"];
       var size, digest := record.fields["byte_length"], record.fields["sha256"];
       && path.JStr? && path.text != ""
       && mode.JInt? && 0 <= mode.number <= 0xFFFFFFFF
       && size.JInt? && digest.JStr?
       && digest.text in blobs && |blobs[digest.text]| == size.number
  }

  predicate FilesOk(blobs: map<string, Bytes>, files: seq<Json>) {
    && (forall i :: 0 <= i < |files| ==> FileOk(blobs, files[i]))
    && (forall i, j :: 0 <= i < j < |files| ==> files[i].fields["path"] != files[j].fields["path"])
  }

  predicate RootsOk(roots: Json) {
    roots.JNull? || (roots.JArr? && forall i :: 0 <= i < |roots.items| ==> roots.items[i].JStr?)
  }

  predicate IdentityOk(doc: Doc) {
    && doc.Doc?
    && doc.schema == JInt(1)
    && doc.package.JStr? && doc.package.text != ""
    && doc.test.JStr? && doc.test.text != ""
    && doc.sequence.JInt? && doc.sequence.number >= 0
  }

  function IdentityOf(doc: Doc): Identity
    requires IdentityOk(doc)
  {
    Identity(doc.package.text, doc.test.text, doc.sequence.number)
  }

  predicate RecordOk(env: Env, blobs: map<string, Bytes>, name: string, content: Bytes) {
    && env.decode(content).Some?
    && var doc := env.decode(content).value;
       && IdentityOk(doc)
       && name == KeyName(env, IdentityOf(doc))
       && RootsOk(doc.roots)
       && doc.directory.JStr? && doc.library.JStr?
       && doc.options.JObj? && doc.harness.JObj?
       && doc.files.JArr? && FilesOk(blobs, doc.files.items)
       && (doc.config.JNull? || FileOk(blobs, doc.config))
  }

  predicate BlobOk(env: Env, name: string, content: Bytes) {
    IsLowerHex(name, 64) && env.hash(content) == name
  }

  /** What an accepted store looks like. */
  ghost predicate Accepted(env: Env, store: Store) {
    && (store.schema.Some? ==> env.isObject(store.schema.value))
    && (forall name :: name in store.blobs ==> BlobOk(env, name, store.blobs[name]))
    && RecordsOk(env, store, Records(store))
  }

  ghost function Records(store: Store): set<string> {
    set name | name in store.invocations && IsRecord(name)
  }

  /** The inventory loop of one record. */
  method CheckFiles(blobs: map<string, Bytes>, files: seq<Json>) returns (ok: bool)
    ensures ok <==> FilesOk(blobs, files)
  {
    var paths: set<string> := {};
    for i := 0 to |files|
      invariant FilesOk(blobs, files[..i])
      invariant forall path :: path in paths <==> exists k :: 0 <= k < i && files[k].fields["path"].text == path
    {
      if !FileOk(blobs, files[i]) {
        return false;
      }
      var path := files[i].fields["path"].text;
      if path in paths {
        return false;
      }
      paths := paths + {path};
    }
    assert files[..|files|] == files;
    return true;
  }

  type LineOf = string -> Line

  function BlobLine(blobs: map<string, Bytes>): LineOf {
    name => Line(Path(Blobs, name), name, if name in blobs then |blobs[name]| else 0)
  }

  function RecordLine(env: Env, records: map<string, Bytes>): LineOf {
    name => Line(Path(Invocations, name), env.hash(At(records, name)), |At(records, name)|)
  }

  function At(files: map<string, Bytes>, name: string): Bytes {
    if name in files then files[name] else []
  }

  ghost function InNameOrder(names: set<string>): seq<string> {
    Listed(Less, multiset(names))
  }

  function Lines(line: LineOf, names: seq<string>): seq<Line> {
    if names == [] then [] else Lines(line, names[..|names| - 1]) + [line(names[|names| - 1])]
  }

  function SchemaLines(env: Env, schema: Option<Bytes>): seq<Line> {
    if schema.Some? then [Line(Path(Root, "options.json"), env.hash(schema.value), |schema.value|)] else []
  }

  ghost function BlobPart(store: Store): seq<Line> {
    Lines(BlobLine(store.blobs), InNameOrder(store.blobs.Keys))
  }

  ghost function RecordPart(env: Env, store: Store): seq<Line> {
    Lines(RecordLine(env, store.invocations), InNameOrder(Records(store)))
  }

  /** The files of a store: the schema, then the blobs and the records by name. */
  ghost function Manifest(env: Env, store: Store): seq<Line> {
    SchemaLines(env, store.schema) + BlobPart(store) + RecordPart(env, store)
  }

  lemma NameOrder(names: set<string>)
    ensures var order := InNameOrder(names);
            && |order| == |names|
            && (forall name :: name in order <==> name in names)
            && (forall i, j :: 0 <= i < j < |order| ==> order[i] != order[j])
  {
    LessOrder();
    ListedSet(Less, names);
    ListedCorrect(Less, multiset(names));
    assert |multiset(InNameOrder(names))| == |InNameOrder(names)|;
  }

  method SortNames(names: set<string>) returns (order: seq<string>)
    ensures order == InNameOrder(names) && |order| == |names|
  {
    LessOrder();
    NameOrder(names);
    order := InOrder(Less, multiset(names));
  }

  ghost function Rest(order: seq<string>, i: nat): set<string> {
    set k | i <= k < |order| :: order[k]
  }

  lemma RestStep(names: set<string>, i: nat)
    requires i < |InNameOrder(names)|
    ensures var order := InNameOrder(names);
            order[i] in Rest(order, i) && Rest(order, i + 1) == Rest(order, i) - {order[i]}
  {
    NameOrder(names);
  }

  /** All the names pass. */
  predicate Each(good: string -> bool, names: seq<string>) {
    names == [] || (good(names[|names| - 1]) && Each(good, names[..|names| - 1]))
  }

  lemma {:induction false} EachName(good: string -> bool, names: seq<string>)
    ensures Each(good, names) <==> forall name :: name in names ==> good(name)
  {
    if names != [] {
      EachName(good, names[..|names| - 1]);
      assert names == names[..|names| - 1] + [names[|names| - 1]];
    }
  }

  lemma {:induction false} EachPrefix(good: string -> bool, names: seq<string>, i: nat)
    requires i <= |names| && Each(good, names)
    ensures Each(good, names[..i])
    decreases |names| - i
  {
    if i == |names| {
      assert names[..i] == names;
    } else {
      EachPrefix(good, names, i + 1);
      assert names[..i + 1][..i] == names[..i];
    }
  }

  /** One turn of a loop over the names. */
  lemma NameStep(good: string -> bool, line: LineOf, names: seq<string>, i: nat)
    requires i < |names|
    ensures Lines(line, names[..i + 1]) == Lines(line, names[..i]) + [line(names[i])]
    ensures Each(good, names[..i + 1]) <==> Each(good, names[..i]) && good(names[i])
    ensures Each(good, names) ==> Each(good, names[..i + 1])
  {
    assert names[..i + 1][..i] == names[..i];
    if Each(good, names) {
      EachPrefix(good, names, i + 1);
    }
  }

  function GoodBlob(env: Env, blobs: map<string, Bytes>): string -> bool {
    name => BlobOk(env, name, At(blobs, name))
  }

  /** The blob loop: each file is checked and noted. */
  method CheckEach(good: string -> bool, line: LineOf, names: seq<string>) returns (ok: bool, lines: seq<Line>)
    ensures ok <==> Each(good, names)
    ensures ok ==> lines == Lines(line, names)
  {
    lines := [];
    for i := 0 to |names|
      invariant Each(good, names[..i])
      invariant lines == Lines(line, names[..i])
    {
      NameStep(good, line, names, i);
      if !good(names[i]) {
        return false, [];
      }
      lines := lines + [line(names[i])];
    }
    assert names[..|names|] == names;
    return true, lines;
  }

  /** Every blob name must be the digest of its content. */
  method CheckBlobs(env: Env, blobs: map<string, Bytes>) returns (ok: bool, lines: seq<Line>)
    ensures ok <==> forall name :: name in blobs ==> BlobOk(env, name, blobs[name])
    ensures ok ==> lines == Lines(BlobLine(blobs), InNameOrder(blobs.Keys))
  {
    var good := GoodBlob(env, blobs);
    var names := SortNames(blobs.Keys);
    ok, lines := CheckEach(good, BlobLine(blobs), names);
    NameOrder(blobs.Keys);
    EachName(good, names);
    assert forall name :: name in blobs ==> (good(name) <==> BlobOk(env, name, blobs[name]));
  }

  /** One turn of the invocation loop: the error, if any, in the order of the checks. */
  method CheckRecord(env: Env, blobs: map<string, Bytes>, identities: set<Identity>, name: string, content: Bytes)
    returns (r: Result<Identity, string>)
    requires forall id :: id in identities ==> KeyName(env, id) != name
    ensures r.Ok? <==> RecordOk(env, blobs, name, content)
    ensures r.Ok? ==> KeyName(env, r.value) == name
  {
    var decoded := env.decode(content);
    if decoded.None? || decoded.value.NotObject? || decoded.value.schema != JInt(1) {
      return Err("unsupported compiler input schema");
    }
    var doc := decoded.value;
    if !IdentityOk(doc) {
      return Err("invalid compiler invocation identity");
    }
    var id := IdentityOf(doc);
    if id in identities {
      return Err("duplicate compiler invocation");
    }
    if name != KeyName(env, id) {
      return Err("compiler invocation filename/identity mismatch");
    }
    if !RootsOk(doc.roots) || !doc.directory.JStr? || !doc.library.JStr?
       || !doc.options.JObj? || !doc.harness.JObj? || !doc.files.JArr? {
      return Err("missing compiler input field");
    }
    var inventoried := CheckFiles(blobs, doc.files.items);
    if !inventoried || !(doc.config.JNull? || FileOk(blobs, doc.config)) {
      return Err("missing or invalid compiler input blob reference");
    }
    return Ok(id);
  }

  ghost predicate RecordsOk(env: Env, store: Store, names: set<string>)
    requires names <= store.invocations.Keys
  {
    forall name :: name in names ==> RecordOk(env, store.blobs, name, store.invocations[name])
  }

  function GoodRecord(env: Env, store: Store): string -> bool {
    name => RecordOk(env, store.blobs, name, At(store.invocations, name))
  }

  method CheckInvocation(env: Env, store: Store, identities: set<Identity>, name: string)
    returns (r: Result<Identity, string>)
    requires forall id :: id in identities ==> KeyName(env, id) != name
    ensures r.Ok? <==> GoodRecord(env, store)(name)
    ensures r.Ok? ==> KeyName(env, r.value) == name
  {
    r := CheckRecord(env, store.blobs, identities, name, At(store.invocations, name));
  }

  /** The invocation loop. */
  method CheckInvocations(env: Env, store: Store, records: set<string>, names: seq<string>, line: LineOf)
    returns (r: Result<nat, string>, lines: seq<Line>)
    requires names == InNameOrder(records)
    ensures r.Ok? <==> Each(GoodRecord(env, store), names)
    ensures r.Ok? ==> r.value == |names| && lines == Lines(line, names)
  {
    ghost var good := GoodRecord(env, store);
    var invocations := 0;
    var identities: set<Identity> := {};
    lines := [];
    for i := 0 to |names|
      invariant invocations == i
      invariant Each(good, names[..i]) && lines == Lines(line, names[..i])
      invariant forall id :: id in identities ==> KeyName(env, id) !in Rest(names, i)
    {
      NameStep(good, line, names, i);
      RestStep(records, i);
      var checked := CheckInvocation(env, store, identities, names[i]);
      if checked.Err? {
        return Err(checked.error), [];
      }
      identities := identities + {checked.value};
      invocations := invocations + 1;
      lines := lines + [line(names[i])];
    }
    assert names[..|names|] == names;
    return Ok(invocations), lines;
  }

  method CheckRecords(env: Env, store: Store) returns (r: Result<nat, string>, lines: seq<Line>)
    ensures r.Ok? <==> RecordsOk(env, store, Records(store))
    ensures r.Ok? ==> r.value == |Records(store)| && lines == RecordPart(env, store)
  {
    var records := set name | name in store.invocations && IsRecord(name);
    var names := SortNames(records);
    r, lines := CheckInvocations(env, store, records, names, RecordLine(env, store.invocations));
    RecordsByName(env, store);
  }

  lemma RecordsByName(env: Env, store: Store)
    ensures Each(GoodRecord(env, store), InNameOrder(Records(store))) <==> RecordsOk(env, store, Records(store))
  {
    NameOrder(Records(store));
    EachName(GoodRecord(env, store), InNameOrder(Records(store)));
    assert forall name :: name in Records(store) ==>
        (GoodRecord(env, store)(name) <==> RecordOk(env, store.blobs, name, store.invocations[name]));
  }

  /** Acceptance of a store. The duplicate check adds nothing: two records with one
      identity cannot both bear the file name that identity prescribes. */
  method SummarizeInputs(env: Env, store: Store) returns (r: Result<Summary, string>)
    ensures r.Ok? <==> Accepted(env, store)
    ensures r.Ok? ==> r.value == Summary(|Records(store)|, |store.blobs|, env.hash(env.render(Manifest(env, store))))
  {
    if store.schema.Some? && !env.isObject(store.schema.value) {
      return Err("invalid native option schema");
    }
    var manifest := SchemaLines(env, store.schema);
    var addressed, blobLines := CheckBlobs(env, store.blobs);
    if !addressed {
      return Err("invalid compiler input blob");
    }
    var invocations, recordLines := CheckRecords(env, store);
    if invocations.Err? {
      return Err(invocations.error);
    }
    manifest := manifest + blobLines + recordLines;
    return Ok(Summary(invocations.value, |store.blobs|, env.hash(env.render(manifest))));
  }

  // ------------------------------------------------- the store writers leave

  function Lookup(s: State, path: Path): Bytes {
    if path in s.fs.names && s.fs.names[path] in s.fs.inodes then s.fs.inodes[s.fs.names[path]].bytes else []
  }

  function Listing(s: State, directory: Directory): map<string, Bytes> {
    var names := set path | path in s.fs.names && path.directory == directory :: path.name;
    map name | name in names :: Lookup(s, Path(directory, name))
  }

  function StoreOf(s: State): Store {
    var schema := Path(Root, "options.json");
    Store(if schema in s.fs.names then Some(Lookup(s, schema)) else None,
          Listing(s, Blobs), Listing(s, Invocations))
  }

  /** What a capture needs beyond returning normally for its record to be accepted. */
  ghost predicate WellNamed(c: Capture) {
    && c.id.package != "" && c.id.test != ""
    && c.options.Some? && c.harness.Some?
    && "" !in c.files
    && (c.config.Some? ==> c.config.value.0 != "")
  }

  /** Every write of every capture has returned normally. */
  ghost predicate Settled(env: Env, schema: Bytes, captures: seq<Capture>, jobs: seq<Job>, s: State) {
    && EnvOk(env) && Decodes(env, captures)
    && JobsOf(env, schema, captures, jobs)
    && (forall c :: c in captures ==> Inventory(env, c))
    && Inv(jobs, s)
    && forall i :: 0 <= i < |jobs| ==> s.pcs[i].Returned?
  }

  lemma JobStored(env: Env, schema: Bytes, captures: seq<Capture>, jobs: seq<Job>, s: State, job: Job)
    requires Settled(env, schema, captures, jobs, s)
    requires job in jobs
    ensures job.path in s.fs.names && Lookup(s, job.path) == job.data
  {
    var i :| 0 <= i < |jobs| && jobs[i] == job;
    assert WriterInv(jobs, s, i);
  }

  lemma NameFromJob(jobs: seq<Job>, s: State, path: Path) returns (job: Job)
    requires Inv(jobs, s)
    requires path in s.fs.names && !IsTemp(path)
    ensures job in jobs && job.path == path && Lookup(s, path) == job.data
  {
    assert TargetInv(jobs, s, path);
    job := jobs[s.fs.inodes[s.fs.names[path]].writer];
  }

  lemma BlobStored(
      env: Env, schema: Bytes, captures: seq<Capture>, jobs: seq<Job>, s: State, c: Capture, data: Bytes)
    requires Settled(env, schema, captures, jobs, s)
    requires c in captures && Writes(env, c, BlobJob(env, data))
    ensures env.hash(data) in Listing(s, Blobs) && Listing(s, Blobs)[env.hash(data)] == data
  {
    JobStored(env, schema, captures, jobs, s, BlobJob(env, data));
  }

  lemma EntryAccepted(env: Env, blobs: map<string, Bytes>, path: string, file: MapFile)
    requires env.hash(file.data) in blobs && blobs[env.hash(file.data)] == file.data
    requires file.mode <= 0xFFFFFFFF
    ensures FileOk(blobs, EntryJson(EntryOf(env, path, file))) <==> path != ""
    ensures EntryJson(EntryOf(env, path, file)).fields["path"] == JStr(path)
  {
  }

  lemma LessIrreflexive(a: string)
    ensures !Less(a, a)
  {
    LessTotal(a, a);
  }

  /** The recorded inventory passes the file checks unless some file has no name. */
  lemma InventoryAccepted(
      env: Env, schema: Bytes, captures: seq<Capture>, jobs: seq<Job>, s: State, c: Capture)
    requires Settled(env, schema, captures, jobs, s)
    requires c in captures
    ensures FilesOk(Listing(s, Blobs), DocOf(env, c).files.items) <==> "" !in c.files
  {
    var blobs, items := Listing(s, Blobs), DocOf(env, c).files.items;
    forall i | 0 <= i < |items|
      ensures c.entries[i].path in c.files
      ensures FileOk(blobs, items[i]) <==> c.entries[i].path != ""
      ensures items[i].fields["path"] == JStr(c.entries[i].path)
    {
      var path := c.entries[i].path;
      assert c.entries[i] in c.entries;
      assert Writes(env, c, BlobJob(env, c.files[path].data));
      BlobStored(env, schema, captures, jobs, s, c, c.files[path].data);
      EntryAccepted(env, blobs, path, c.files[path]);
    }
    forall i, j | 0 <= i < j < |items|
      ensures items[i].fields["path"] != items[j].fields["path"]
    {
      LessIrreflexive(c.entries[i].path);
    }
    if "" in c.files {
      assert EntryOf(env, "", c.files[""]) in c.entries;
      var k :| 0 <= k < |c.entries| && c.entries[k] == EntryOf(env, "", c.files[""]);
      assert !FileOk(blobs, items[k]);
    }
  }

  lemma RecordAccepted(
      env: Env, schema: Bytes, captures: seq<Capture>, jobs: seq<Job>, s: State, c: Capture)
    requires Settled(env, schema, captures, jobs, s)
    requires c in captures
    ensures RecordOk(env, Listing(s, Blobs), KeyName(env, c.id), env.encode(c)) <==> WellNamed(c)
  {
    var doc := DocOf(env, c);
    assert env.decode(env.encode(c)) == Some(doc);
    InventoryAccepted(env, schema, captures, jobs, s, c);
    if c.config.Some? {
      BlobStored(env, schema, captures, jobs, s, c, c.config.value.1);
      EntryAccepted(env, Listing(s, Blobs), c.config.value.0, MapFile(0, c.config.value.1));
    }
    if IdentityOk(doc) {
      assert IdentityOf(doc) == c.id;
    }
  }

  lemma KeyNameIsRecord(env: Env, id: Identity)
    requires EnvOk(env)
    ensures IsRecord(KeyName(env, id))
    ensures !IsTemp(Path(Invocations, KeyName(env, id)))
  {
    var digest := env.hash(env.utf8(id.package + "\0" + id.test + "\0" + Decimal(id.sequence)));
    assert IsLowerHex(digest, 64);
    assert KeyName(env, id)[0] == digest[0];
    assert KeyName(env, id)[64..] == ".json";
  }

  lemma TempIsNotRecord(path: Path)
    ensures !(IsTemp(path) && IsRecord(path.name))
  {
    var name := path.name;
    if IsRecord(name) && TEMP_PREFIX <= name {
      var last := |name| - 1;
      assert name[last] == name[|name| - 5..][4];
      if last >= |TEMP_PREFIX| {
        assert name[|TEMP_PREFIX|..][last - |TEMP_PREFIX|] == name[last];
      }
    }
  }

  /** A file of the invocation directory that the validator reads is some capture's
      record; a leftover temporary file is not, whatever its numeral. */
  lemma RecordFromCapture(
      env: Env, schema: Bytes, captures: seq<Capture>, jobs: seq<Job>, s: State, name: string)
    returns (c: Capture)
    requires Settled(env, schema, captures, jobs, s)
    requires name in Records(StoreOf(s))
    ensures c in captures && name == KeyName(env, c.id) && Listing(s, Invocations)[name] == env.encode(c)
  {
    var path := Path(Invocations, name);
    TempIsNotRecord(path);
    var job := NameFromJob(jobs, s, path);
    c :| c in captures && Writes(env, c, job);
  }

  /** A capture that settled left its record under the name of its identity. */
  lemma CaptureStored(
      env: Env, schema: Bytes, captures: seq<Capture>, jobs: seq<Job>, s: State, c: Capture)
    requires Settled(env, schema, captures, jobs, s)
    requires c in captures
    ensures KeyName(env, c.id) in Records(StoreOf(s))
    ensures Listing(s, Invocations)[KeyName(env, c.id)] == env.encode(c)
  {
    KeyNameIsRecord(env, c.id);
    JobStored(env, schema, captures, jobs, s, RecordJob(env, c));
  }

  lemma SchemaAccepted(env: Env, schema: Bytes, captures: seq<Capture>, jobs: seq<Job>, s: State)
    requires Settled(env, schema, captures, jobs, s)
    ensures StoreOf(s).schema.Some? ==> StoreOf(s).schema.value == schema
  {
    var path := Path(Root, "options.json");
    if path in s.fs.names {
      assert path.name[0] != TEMP_PREFIX[0];
      var job := NameFromJob(jobs, s, path);
    }
  }

  lemma BlobsAccepted(env: Env, schema: Bytes, captures: seq<Capture>, jobs: seq<Job>, s: State, name: string)
    requires Settled(env, schema, captures, jobs, s)
    requires name in Listing(s, Blobs)
    ensures BlobOk(env, name, Listing(s, Blobs)[name]) <==> !IsTemp(Path(Blobs, name))
  {
    var path := Path(Blobs, name);
    if IsTemp(path) {
      assert name[0] == TEMP_PREFIX[0];
    } else {
      var job := NameFromJob(jobs, s, path);
    }
  }

  /** The store left when every writer has returned is accepted exactly when no
      temporary file is left among the blobs and every capture is well named. The
      digest may collide and names may contain NUL: a collision that mattered would
      have stopped a writer. */
  lemma SettledStoreAccepted(env: Env, schema: Bytes, captures: seq<Capture>, jobs: seq<Job>, s: State)
    requires Settled(env, schema, captures, jobs, s)
    requires env.isObject(schema)
    ensures Accepted(env, StoreOf(s)) <==>
            && (forall path :: path in s.fs.names && path.directory == Blobs ==> !IsTemp(path))
            && (forall c :: c in captures ==> WellNamed(c))
  {
    var store := StoreOf(s);
    SchemaAccepted(env, schema, captures, jobs, s);
    forall path | path in s.fs.names && path.directory == Blobs
      ensures path.name in store.blobs
      ensures BlobOk(env, path.name, store.blobs[path.name]) <==> !IsTemp(path)
    {
      BlobsAccepted(env, schema, captures, jobs, s, path.name);
    }
    forall name | name in store.blobs
      ensures Path(Blobs, name) in s.fs.names
    {
    }
    forall c | c in captures
      ensures KeyName(env, c.id) in Records(store)
      ensures RecordOk(env, store.blobs, KeyName(env, c.id), store.invocations[KeyName(env, c.id)]) <==> WellNamed(c)
    {
      CaptureStored(env, schema, captures, jobs, s, c);
      RecordAccepted(env, schema, captures, jobs, s, c);
    }
    if forall c :: c in captures ==> WellNamed(c) {
      forall name | name in Records(store)
        ensures RecordOk(env, store.blobs, name, store.invocations[name])
      {
        var c := RecordFromCapture(env, schema, captures, jobs, s, name);
      }
    }
  }

  // ------------------------------------------------------------ how many records

  ghost function Identities(captures: seq<Capture>): set<Identity> {
    set c | c in captures :: c.id
  }

  lemma {:induction false} ImageSize(ids: set<Identity>, names: set<string>, f: Identity -> string)
    requires forall id :: id in ids ==> f(id) in names
    requires forall name :: name in names ==> exists id :: id in ids && f(id) == name
    requires forall a, b :: a in ids && b in ids && f(a) == f(b) ==> a == b
    ensures |ids| == |names|
  {
    if ids == {} {
      assert names == {};
    } else {
      var id :| id in ids;
      ImageSize(ids - {id}, names - {f(id)}, f);
    }
  }

  /** Two settled captures share a record name only if they share their identity. */
  lemma RecordNamesDistinct(
      env: Env, schema: Bytes, captures: seq<Capture>, jobs: seq<Job>, s: State, c: Capture, d: Capture)
    requires Settled(env, schema, captures, jobs, s)
    requires c in captures && d in captures && KeyName(env, c.id) == KeyName(env, d.id)
    ensures c.id == d.id
  {
    CaptureStored(env, schema, captures, jobs, s, c);
    CaptureStored(env, schema, captures, jobs, s, d);
    assert env.decode(env.encode(c)) == Some(DocOf(env, c));
    assert env.decode(env.encode(d)) == Some(DocOf(env, d));
  }

  /** The validator counts one invocation for every identity, none lost or merged. */
  lemma RecordsCountIdentities(env: Env, schema: Bytes, captures: seq<Capture>, jobs: seq<Job>, s: State)
    requires Settled(env, schema, captures, jobs, s)
    ensures |Records(StoreOf(s))| == |Identities(captures)|
  {
    var ids, names := Identities(captures), Records(StoreOf(s));
    var f := (id: Identity) => KeyName(env, id);
    forall id | id in ids
      ensures f(id) in names
    {
      var c :| c in captures && c.id == id;
      CaptureStored(env, schema, captures, jobs, s, c);
    }
    forall name | name in names
      ensures exists id :: id in ids && f(id) == name
    {
      var c := RecordFromCapture(env, schema, captures, jobs, s, name);
      assert f(c.id) == name;
    }
    forall a, b | a in ids && b in ids && f(a) == f(b)
      ensures a == b
    {
      var c :| c in captures && c.id == a;
      var d :| d in captures && d.id == b;
      RecordNamesDistinct(env, schema, captures, jobs, s, c, d);
    }
    ImageSize(ids, names, f);
  }

  ghost predicate DistinctIds(captures: seq<Capture>) {
    forall i, j :: 0 <= i < j < |captures| ==> captures[i].id != captures[j].id
  }

  lemma DistinctAppend(front: seq<Capture>, c: Capture)
    ensures DistinctIds(front + [c]) <==> DistinctIds(front) && c.id !in Identities(front)
  {
    var more := front + [c];
    forall i | 0 <= i < |front|
      ensures more[i] == front[i] && front[i].id in Identities(front)
    {
      assert front[i] in front;
    }
    if c.id in Identities(front) {
      var d :| d in front && d.id == c.id;
      var i :| 0 <= i < |front| && front[i] == d;
      assert more[i].id == more[|front|].id;
    }
    if !DistinctIds(front) {
      var i, j :| 0 <= i < j < |front| && front[i].id == front[j].id;
      assert more[i].id == more[j].id;
    }
  }

  /** The count equals the number of captures exactly when no identity repeats. */
  lemma {:induction false} IdentitiesCount(captures: seq<Capture>)
    ensures |Identities(captures)| <= |captures|
    ensures |Identities(captures)| == |captures| <==> DistinctIds(captures)
  {
    if captures != [] {
      var n := |captures| - 1;
      var front, c := captures[..n], captures[n];
      IdentitiesCount(front);
      assert captures == front + [c];
      assert Identities(captures) == Identities(front) + {c.id};
      DistinctAppend(front, c);
    }
  }
}
