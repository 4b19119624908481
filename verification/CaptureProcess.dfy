// One test process of scripts/typescript7/capture_inputs.go: captures run one at a
// time under the process mutex, and each takes the next sequence number of its test.

module CaptureProcess {
  import opened Wrappers
  import opened Text
  import opened CaptureProtocol
  import opened CaptureStore
  import opened Sorting

  // ------------------------------------------------------- sorting an inventory

  function PathOf(e: Entry): string {
    e.path
  }

  function SortByPath(entries: seq<Entry>): seq<Entry> {
    Sort(ByKey(Less, PathOf), entries)
  }

  ghost predicate Increasing(entries: seq<Entry>) {
    forall i, j :: 0 <= i < j < |entries| ==> Less(entries[i].path, entries[j].path)
  }

  ghost predicate DistinctPaths(entries: seq<Entry>) {
    forall i, j :: 0 <= i < j < |entries| ==> entries[i].path != entries[j].path
  }

  /** Distinct paths come out in strictly increasing order. */
  lemma SortByPathCorrect(entries: seq<Entry>)
    requires DistinctPaths(entries)
    ensures Increasing(SortByPath(entries))
    ensures multiset(SortByPath(entries)) == multiset(entries)
  {
    LessOrder();
    SortByKey(Less, PathOf, entries);
    var sorted := SortByPath(entries);
    assert forall i, j :: 0 <= i < j < |sorted| ==> Less(PathOf(sorted[i]), PathOf(sorted[j]));
  }

  /** A listing in iteration order, once sorted, is the inventory. */
  lemma SortedInventory(env: Env, files: map<string, MapFile>, entries: seq<Entry>)
    requires DistinctPaths(entries)
    requires forall e :: e in entries <==> exists name :: name in files && e == EntryOf(env, name, files[name])
    ensures InventoryOf(env, files, SortByPath(entries))
  {
    SortByPathCorrect(entries);
    assert forall e :: e in SortByPath(entries) <==> e in multiset(SortByPath(entries));
    assert forall e :: e in entries <==> e in multiset(entries);
  }

  // ------------------------------------------------------------ sequence numbers

  /** How many captures of `test` there are. */
  ghost function Count(captures: seq<Capture>, test: string): nat {
    if captures == [] then 0
    else Count(captures[..|captures| - 1], test) + (if captures[|captures| - 1].id.test == test then 1 else 0)
  }

  lemma {:induction false} CountMonotone(captures: seq<Capture>, n: nat, test: string)
    requires n <= |captures|
    ensures Count(captures[..n], test) <= Count(captures, test)
    decreases |captures| - n
  {
    if n == |captures| {
      assert captures[..n] == captures;
    } else {
      CountMonotone(captures, n + 1, test);
      assert captures[..n + 1][..n] == captures[..n];
    }
  }

  /** The captures of one process: each is numbered by the earlier ones of its test. */
  ghost predicate Sequenced(package: string, captures: seq<Capture>) {
    forall i :: 0 <= i < |captures| ==>
      captures[i].id == Identity(package, captures[i].id.test, Count(captures[..i], captures[i].id.test))
  }

  lemma SequencedAppend(package: string, captures: seq<Capture>, c: Capture)
    requires Sequenced(package, captures)
    requires c.id == Identity(package, c.id.test, Count(captures, c.id.test))
    ensures Sequenced(package, captures + [c])
    ensures forall test :: Count(captures + [c], test) == Count(captures, test) + (if c.id.test == test then 1 else 0)
  {
    var more := captures + [c];
    assert more[..|captures|] == captures;
    forall i | 0 <= i < |captures|
      ensures more[..i] == captures[..i]
    {
    }
  }

  lemma SequencedDistinct(package: string, captures: seq<Capture>)
    requires Sequenced(package, captures)
    ensures DistinctIds(captures)
  {
    forall i, j | 0 <= i < j < |captures|
      ensures captures[i].id != captures[j].id
    {
      var test := captures[i].id.test;
      CountMonotone(captures[..j], i + 1, test);
      assert captures[..j][..i + 1] == captures[..i + 1];
      assert captures[..i + 1][..i] == captures[..i];
    }
  }

  ghost function All(packages: seq<string>, processes: seq<seq<Capture>>): seq<Capture>
    requires |packages| == |processes|
  {
    if packages == [] then [] else processes[0] + All(packages[1..], processes[1..])
  }

  lemma {:induction false} AllPackages(packages: seq<string>, processes: seq<seq<Capture>>, k: nat)
    requires |packages| == |processes|
    requires forall p :: 0 <= p < |packages| ==> Sequenced(packages[p], processes[p])
    requires k < |All(packages, processes)|
    ensures All(packages, processes)[k].id.package in packages
  {
    if k >= |processes[0]| {
      AllPackages(packages[1..], processes[1..], k - |processes[0]|);
    }
  }

  /** With one process per package no identity repeats, so the validator's count is
      the number of captures. */
  lemma {:induction false} OneProcessPerPackage(packages: seq<string>, processes: seq<seq<Capture>>)
    requires |packages| == |processes|
    requires forall p, q :: 0 <= p < q < |packages| ==> packages[p] != packages[q]
    requires forall p :: 0 <= p < |packages| ==> Sequenced(packages[p], processes[p])
    ensures DistinctIds(All(packages, processes))
  {
    if packages != [] {
      var rest := All(packages[1..], processes[1..]);
      OneProcessPerPackage(packages[1..], processes[1..]);
      SequencedDistinct(packages[0], processes[0]);
      forall i, j | 0 <= i < j < |All(packages, processes)|
        ensures All(packages, processes)[i].id != All(packages, processes)[j].id
      {
        if i < |processes[0]| <= j {
          AllPackages(packages[1..], processes[1..], j - |processes[0]|);
        }
      }
    }
  }

  function ConfigJobs(env: Env, config: Option<(string, Bytes)>): seq<Job> {
    if config.Some? then [BlobJob(env, config.value.1)] else []
  }

  lemma WritesListed(env: Env, c: Capture, blobs: seq<Job>)
    requires forall job :: job in blobs <==> exists name :: name in c.files && job == BlobJob(env, c.files[name].data)
    ensures forall job :: job in blobs + ConfigJobs(env, c.config) + [RecordJob(env, c)] <==> Writes(env, c, job)
  {
  }

  class Process {
    const env: Env
    const package: string
    var sequence: map<string, nat>
    ghost var issued: seq<Capture>

    function Next(test: string): nat
      reads this
    {
      if test in sequence then sequence[test] else 0
    }

    ghost predicate Valid()
      reads this
    {
      && Sequenced(package, issued)
      && forall test :: Next(test) == Count(issued, test)
    }

    constructor (env: Env, package: string)
      ensures Valid() && issued == [] && this.package == package && this.env == env
    {
      this.env, this.package := env, package;
      sequence, issued := map[], [];
    }

    /** The inventory and the blob writes of a virtual file system, in whatever order
        the map is iterated. */
    method Store(files: map<string, MapFile>) returns (entries: seq<Entry>, writes: seq<Job>)
      ensures DistinctPaths(entries)
      ensures forall e :: e in entries <==> exists name :: name in files && e == EntryOf(env, name, files[name])
      ensures forall job :: job in writes <==> exists name :: name in files && job == BlobJob(env, files[name].data)
    {
      entries, writes := [], [];
      var pending := files.Keys;
      while pending != {}
        invariant pending <= files.Keys
        invariant DistinctPaths(entries)
        invariant forall e :: e in entries <==>
          exists name :: name in files && name !in pending && e == EntryOf(env, name, files[name])
        invariant forall job :: job in writes <==>
          exists name :: name in files && name !in pending && job == BlobJob(env, files[name].data)
      {
        var name :| name in pending;
        var e := EntryOf(env, name, files[name]);
        assert forall i :: 0 <= i < |entries| ==> entries[i] in entries && entries[i].path != name;
        entries := entries + [e];
        writes := writes + [BlobJob(env, files[name].data)];
        pending := pending - {name};
      }
    }

    /** Hands out the sequence number of the next capture of `test`. */
    method TakeNumber(test: string) returns (number: nat)
      requires forall other :: Next(other) == Count(issued, other)
      modifies this`sequence
      ensures number == Count(issued, test)
      ensures forall other :: Next(other) == Count(issued, other) + (if other == test then 1 else 0)
    {
      number := Next(test);
      sequence := sequence[test := number + 1];
    }

    /** One recorded compilation: the capture, and the writes it asks for. */
    method Record(test: string, directory: string, library: string, roots: Option<seq<string>>,
                  files: map<string, MapFile>, options: Option<map<string, Json>>,
                  harness: Option<map<string, Json>>, config: Option<(string, Bytes)>,
                  extended: seq<string>, callers: seq<string>)
      returns (c: Capture, writes: seq<Job>)
      requires Valid()
      requires forall name :: name in files ==> files[name].mode <= 0xFFFFFFFF
      modifies this
      ensures Valid() && issued == old(issued) + [c]
      ensures c == Capture(Identity(package, test, old(Next(test))), directory, library, roots, files,
                           c.entries, options, harness, config, extended, callers)
      ensures Inventory(env, c)
      ensures forall job :: job in writes <==> Writes(env, c, job)
    {
      var entries, blobs := Store(files);
      SortedInventory(env, files, entries);
      var number := TakeNumber(test);
      c := Capture(Identity(package, test, number), directory, library, roots, files,
                   SortByPath(entries), options, harness, config, extended, callers);
      SequencedAppend(package, issued, c);
      issued := issued + [c];
      writes := blobs + ConfigJobs(env, config) + [RecordJob(env, c)];
      WritesListed(env, c, blobs);
    }
  }
}
