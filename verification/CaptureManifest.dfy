// What the manifest digest of scripts/typescript7/input_manifest.py stands for: the
// manifest identifies the store it was taken of.

module CaptureManifest {
  import opened Wrappers
  import opened CaptureProtocol
  import opened CaptureStore

  /** The validator looks at equal things in the two stores. */
  ghost predicate SameStore(a: Store, b: Store) {
    && a.schema == b.schema && a.blobs == b.blobs && Records(a) == Records(b)
    && forall name :: name in Records(a) ==> a.invocations[name] == b.invocations[name]
  }

  ghost predicate Holds(store: Store, content: Bytes) {
    || store.schema == Some(content)
    || (exists name :: name in store.blobs && store.blobs[name] == content)
    || exists name :: name in Records(store) && store.invocations[name] == content
  }

  /** The digest tells the files of the two stores apart. */
  ghost predicate Separates(env: Env, a: Store, b: Store) {
    forall x, y :: Holds(a, x) && Holds(b, y) && env.hash(x) == env.hash(y) ==> x == y
  }

  // ------------------------------------------------- the parts of a manifest

  /** The lines of one directory. */
  function In(lines: seq<Line>, directory: Directory): seq<Line> {
    if lines == [] then []
    else
      var front, last := In(lines[..|lines| - 1], directory), lines[|lines| - 1];
      if last.path.directory == directory then front + [last] else front
  }

  lemma {:induction false} InConcat(a: seq<Line>, b: seq<Line>, directory: Directory)
    ensures In(a + b, directory) == In(a, directory) + In(b, directory)
  {
    if b == [] {
      assert a + b == a;
    } else {
      var front, last := b[..|b| - 1], b[|b| - 1];
      assert (a + b)[..|a + b| - 1] == a + front && (a + b)[|a + b| - 1] == last;
      InConcat(a, front, directory);
      assert In(a, directory) + (In(front, directory) + [last]) == (In(a, directory) + In(front, directory)) + [last];
    }
  }

  /** Lines of files in one directory. */
  lemma {:induction false} InLines(line: LineOf, names: seq<string>, own: Directory, directory: Directory)
    requires forall name :: line(name).path == Path(own, name)
    ensures In(Lines(line, names), directory) == if own == directory then Lines(line, names) else []
  {
    if names != [] {
      var front, last := names[..|names| - 1], names[|names| - 1];
      InLines(line, front, own, directory);
      assert (Lines(line, front) + [line(last)])[..|Lines(line, front)|] == Lines(line, front);
    }
  }

  ghost predicate OnlyIn(lines: seq<Line>, own: Directory) {
    forall directory :: In(lines, directory) == if own == directory then lines else []
  }

  lemma OnlyLines(line: LineOf, names: seq<string>, own: Directory)
    requires forall name :: line(name).path == Path(own, name)
    ensures OnlyIn(Lines(line, names), own)
  {
    forall directory
      ensures In(Lines(line, names), directory) == if own == directory then Lines(line, names) else []
    {
      InLines(line, names, own, directory);
    }
  }

  lemma InThree(x: seq<Line>, y: seq<Line>, z: seq<Line>, directory: Directory)
    ensures In(x + y + z, directory) == In(x, directory) + In(y, directory) + In(z, directory)
  {
    InConcat(x + y, z, directory);
    InConcat(x, y, directory);
  }

  lemma InOne(x: seq<Line>, y: seq<Line>, z: seq<Line>, directory: Directory, a: seq<Line>, b: seq<Line>, c: seq<Line>)
    requires In(x, directory) == a && In(y, directory) == b && In(z, directory) == c
    ensures b == c == [] ==> In(x + y + z, directory) == a
    ensures a == c == [] ==> In(x + y + z, directory) == b
    ensures a == b == [] ==> In(x + y + z, directory) == c
  {
    InThree(x, y, z, directory);
    assert a + [] + [] == a && [] + b + [] == b && [] + [] + c == c;
  }

  /** A manifest falls apart by directory. */
  lemma PartsShow(schema: seq<Line>, blobs: seq<Line>, records: seq<Line>)
    requires OnlyIn(schema, Root) && OnlyIn(blobs, Blobs) && OnlyIn(records, Invocations)
    ensures var all := schema + blobs + records;
            In(all, Root) == schema && In(all, Blobs) == blobs && In(all, Invocations) == records
  {
    InOne(schema, blobs, records, Root, schema, [], []);
    InOne(schema, blobs, records, Blobs, [], blobs, []);
    InOne(schema, blobs, records, Invocations, [], [], records);
  }

  lemma SplitThree(x: seq<Line>, y: seq<Line>, z: seq<Line>, u: seq<Line>, v: seq<Line>, w: seq<Line>)
    requires OnlyIn(x, Root) && OnlyIn(y, Blobs) && OnlyIn(z, Invocations)
    requires OnlyIn(u, Root) && OnlyIn(v, Blobs) && OnlyIn(w, Invocations)
    requires x + y + z == u + v + w
    ensures x == u && y == v && z == w
  {
    PartsShow(x, y, z);
    PartsShow(u, v, w);
  }

  lemma SchemaIn(env: Env, schema: Option<Bytes>)
    ensures OnlyIn(SchemaLines(env, schema), Root)
  {
  }

  lemma BlobsIn(store: Store)
    ensures OnlyIn(BlobPart(store), Blobs)
  {
    OnlyLines(BlobLine(store.blobs), InNameOrder(store.blobs.Keys), Blobs);
  }

  lemma RecordsIn(env: Env, store: Store)
    ensures OnlyIn(RecordPart(env, store), Invocations)
  {
    OnlyLines(RecordLine(env, store.invocations), InNameOrder(Records(store)), Invocations);
  }

  lemma SameParts(env: Env, a: Store, b: Store)
    requires Manifest(env, a) == Manifest(env, b)
    ensures SchemaLines(env, a.schema) == SchemaLines(env, b.schema)
    ensures BlobPart(a) == BlobPart(b) && RecordPart(env, a) == RecordPart(env, b)
  {
    SchemaIn(env, a.schema);
    SchemaIn(env, b.schema);
    BlobsIn(a);
    BlobsIn(b);
    RecordsIn(env, a);
    RecordsIn(env, b);
    SplitThree(SchemaLines(env, a.schema), BlobPart(a), RecordPart(env, a),
               SchemaLines(env, b.schema), BlobPart(b), RecordPart(env, b));
  }

  lemma {:induction false} LinesAre(line: LineOf, names: seq<string>)
    ensures |Lines(line, names)| == |names|
    ensures forall k :: 0 <= k < |names| ==> Lines(line, names)[k] == line(names[k])
  {
    if names != [] {
      LinesAre(line, names[..|names| - 1]);
    }
  }

  lemma SameNames(f: LineOf, g: LineOf, a: seq<string>, b: seq<string>, directory: Directory)
    requires Lines(f, a) == Lines(g, b)
    requires forall name :: f(name).path == Path(directory, name) && g(name).path == Path(directory, name)
    ensures a == b && forall name :: name in a ==> f(name) == g(name)
  {
    LinesAre(f, a);
    LinesAre(g, b);
    forall k | 0 <= k < |a|
      ensures a[k] == b[k] && f(a[k]) == g(a[k])
    {
      assert Lines(f, a)[k] == f(a[k]) && Lines(g, b)[k] == g(b[k]);
    }
  }

  // --------------------------------------------------------- what they identify

  lemma SameListing(f: LineOf, g: LineOf, a: set<string>, b: set<string>, directory: Directory)
    requires Lines(f, InNameOrder(a)) == Lines(g, InNameOrder(b))
    requires forall name :: f(name).path == Path(directory, name) && g(name).path == Path(directory, name)
    ensures a == b && forall name :: name in a ==> f(name) == g(name)
  {
    NameOrder(a);
    NameOrder(b);
    SameNames(f, g, InNameOrder(a), InNameOrder(b), directory);
    assert forall name :: name in a <==> name in InNameOrder(a);
    assert forall name :: name in b <==> name in InNameOrder(b);
  }

  lemma SameBlobNames(a: Store, b: Store)
    requires BlobPart(a) == BlobPart(b)
    ensures a.blobs.Keys == b.blobs.Keys
  {
    SameListing(BlobLine(a.blobs), BlobLine(b.blobs), a.blobs.Keys, b.blobs.Keys, Blobs);
  }

  lemma SameBlob(env: Env, a: Store, b: Store, name: string)
    requires Separates(env, a, b) && name in a.blobs && name in b.blobs
    requires env.hash(a.blobs[name]) == name && env.hash(b.blobs[name]) == name
    ensures a.blobs[name] == b.blobs[name]
  {
    assert Holds(a, a.blobs[name]) && Holds(b, b.blobs[name]);
  }

  lemma SameBlobs(env: Env, a: Store, b: Store)
    requires forall name :: name in a.blobs ==> env.hash(a.blobs[name]) == name
    requires forall name :: name in b.blobs ==> env.hash(b.blobs[name]) == name
    requires Separates(env, a, b) && a.blobs.Keys == b.blobs.Keys
    ensures a.blobs == b.blobs
  {
    forall name | name in a.blobs
      ensures a.blobs[name] == b.blobs[name]
    {
      SameBlob(env, a, b, name);
    }
  }

  lemma RecordLineAt(env: Env, records: map<string, Bytes>, name: string)
    requires name in records
    ensures RecordLine(env, records)(name) == Line(Path(Invocations, name), env.hash(records[name]), |records[name]|)
  {
    assert At(records, name) == records[name];
  }

  lemma SameRecords(env: Env, a: Store, b: Store)
    requires Separates(env, a, b) && RecordPart(env, a) == RecordPart(env, b)
    ensures Records(a) == Records(b)
    ensures forall name :: name in Records(a) ==> a.invocations[name] == b.invocations[name]
  {
    var f, g := RecordLine(env, a.invocations), RecordLine(env, b.invocations);
    SameListing(f, g, Records(a), Records(b), Invocations);
    forall name | name in Records(a)
      ensures a.invocations[name] == b.invocations[name]
    {
      RecordLineAt(env, a.invocations, name);
      RecordLineAt(env, b.invocations, name);
      assert Holds(a, a.invocations[name]) && Holds(b, b.invocations[name]);
    }
  }

  lemma SameSchema(env: Env, a: Store, b: Store)
    requires Separates(env, a, b) && SchemaLines(env, a.schema) == SchemaLines(env, b.schema)
    ensures a.schema == b.schema
  {
    if a.schema.Some? && b.schema.Some? {
      assert Holds(a, a.schema.value) && Holds(b, b.schema.value);
      assert SchemaLines(env, a.schema)[0].sha256 == SchemaLines(env, b.schema)[0].sha256;
    }
  }

  lemma SameLines(f: LineOf, g: LineOf, names: seq<string>)
    requires forall k :: 0 <= k < |names| ==> f(names[k]) == g(names[k])
    ensures Lines(f, names) == Lines(g, names)
  {
    LinesAre(f, names);
    LinesAre(g, names);
  }

  lemma RecordsListAlike(env: Env, a: Store, b: Store)
    requires SameStore(a, b)
    ensures RecordPart(env, a) == RecordPart(env, b)
  {
    var f, g, names := RecordLine(env, a.invocations), RecordLine(env, b.invocations), InNameOrder(Records(a));
    NameOrder(Records(a));
    forall k | 0 <= k < |names|
      ensures f(names[k]) == g(names[k])
    {
      assert names[k] in names;
      RecordLineAt(env, a.invocations, names[k]);
      RecordLineAt(env, b.invocations, names[k]);
    }
    SameLines(f, g, names);
  }

  /** The manifest identifies an accepted store: none of its files can be changed,
      renamed, added or dropped without changing the manifest. */
  lemma ManifestIdentifies(env: Env, a: Store, b: Store)
    requires Accepted(env, a) && Accepted(env, b) && Separates(env, a, b)
    ensures Manifest(env, a) == Manifest(env, b) <==> SameStore(a, b)
  {
    if Manifest(env, a) == Manifest(env, b) {
      SameParts(env, a, b);
      SameSchema(env, a, b);
      SameBlobNames(a, b);
      assert forall name :: name in a.blobs ==> BlobOk(env, name, a.blobs[name]);
      assert forall name :: name in b.blobs ==> BlobOk(env, name, b.blobs[name]);
      SameBlobs(env, a, b);
      SameRecords(env, a, b);
    } else if SameStore(a, b) {
      RecordsListAlike(env, a, b);
    }
  }
}
