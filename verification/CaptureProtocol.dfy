// The publish-once write of scripts/typescript7/capture_inputs.go: any number of
// writers, in any number of processes, each try to make one path hold its bytes.
// A step is one file-system operation of one writer; runs interleave them freely.

module CaptureProtocol {
  import opened Wrappers
  import opened Text

  datatype Directory = Root | Blobs | Invocations

  datatype Path = Path(directory: Directory, name: string)

  const TEMP_PREFIX := ".capture-"

  /** The names os.CreateTemp makes of the pattern: the prefix and a random numeral. */
  predicate IsTemp(path: Path) {
    TEMP_PREFIX <= path.name && AllDigits(path.name[|TEMP_PREFIX|..])
  }

  /** One call of the writer: publish `data` at `path`. */
  datatype Job = Job(path: Path, data: Bytes)

  /** A file body. `writer` is the writer that created it. */
  datatype Inode = Inode(writer: nat, bytes: Bytes)

  datatype FileSystem = FileSystem(names: map<Path, nat>, inodes: map<nat, Inode>)

  /** Where a writer stands. A reader keeps the open body and the bytes read so far. */
  datatype Pc =
    | Start
    | FirstRead(inode: nat, got: Bytes)
    | Missing
    | Writing(temp: Path, inode: nat)
    | Written(temp: Path, inode: nat)
    | Busy(temp: Path)
    | SecondRead(temp: Path, inode: nat, got: Bytes)
    | Cleanup(temp: Path, ok: bool)
    | Returned
    | Fatal
    | Killed

  datatype State = State(fs: FileSystem, pcs: seq<Pc>)

  /** Operations. `Fail` is any I/O error, `Kill` the death of the process, and
      `Remove(false)` a deferred removal whose error is dropped. */
  datatype Action =
    | Open
    | Read(count: nat)
    | EndOfFile
    | CreateTemp(temp: Path, inode: nat)
    | Write(count: nat)
    | Close
    | Link
    | Remove(removed: bool)
    | Fail
    | Kill

  predicate Enabled(jobs: seq<Job>, s: State, i: nat, a: Action) {
    && i < |jobs| == |s.pcs|
    && var pc := s.pcs[i];
       match a
       case Open => pc.Start? || (pc.Busy? && jobs[i].path in s.fs.names)
       case Read(n) =>
         && (pc.FirstRead? || pc.SecondRead?)
         && pc.inode in s.fs.inodes
         && 0 < n <= |s.fs.inodes[pc.inode].bytes| - |pc.got|
       case EndOfFile =>
         && (pc.FirstRead? || pc.SecondRead?)
         && pc.inode in s.fs.inodes
         && |pc.got| == |s.fs.inodes[pc.inode].bytes|
       case CreateTemp(temp, inode) =>
         && pc.Missing?
         && IsTemp(temp)
         && temp.directory == jobs[i].path.directory
         && temp !in s.fs.names
         && inode !in s.fs.inodes
       case Write(n) =>
         && pc.Writing?
         && pc.inode in s.fs.inodes
         && 0 < n <= |jobs[i].data| - |s.fs.inodes[pc.inode].bytes|
       case Close =>
         && pc.Writing?
         && pc.inode in s.fs.inodes
         && |s.fs.inodes[pc.inode].bytes| == |jobs[i].data|
       case Link => pc.Written?
       case Remove(_) => pc.Cleanup?
       case Fail =>
         pc.Start? || pc.FirstRead? || pc.Missing? || pc.Writing? || pc.Written? || pc.Busy? || pc.SecondRead?
       case Kill => !pc.Returned? && !pc.Fatal? && !pc.Killed?
  }

  function OpenAt(s: State, path: Path, pc: Pc): Pc {
    if pc.Busy? && path in s.fs.names then SecondRead(pc.temp, s.fs.names[path], [])
    else if path in s.fs.names then FirstRead(s.fs.names[path], [])
    else Missing
  }

  function Apply(jobs: seq<Job>, s: State, i: nat, a: Action): State
    requires Enabled(jobs, s, i, a)
  {
    var job, pc := jobs[i], s.pcs[i];
    match a
    case Open => s.(pcs := s.pcs[i := OpenAt(s, job.path, pc)])
    case Read(n) =>
      var next := s.fs.inodes[pc.inode].bytes[|pc.got|..|pc.got| + n];
      s.(pcs := s.pcs[i := pc.(got := pc.got + next)])
    case EndOfFile =>
      var same := pc.got == job.data;
      s.(pcs := s.pcs[i := if pc.SecondRead? then Cleanup(pc.temp, same)
                           else if same then Returned else Fatal])
    case CreateTemp(temp, inode) =>
      State(FileSystem(s.fs.names[temp := inode], s.fs.inodes[inode := Inode(i, [])]),
            s.pcs[i := Writing(temp, inode)])
    case Write(n) =>
      var done := s.fs.inodes[pc.inode].bytes;
      var more := job.data[|done|..|done| + n];
      s.(fs := s.fs.(inodes := s.fs.inodes[pc.inode := s.fs.inodes[pc.inode].(bytes := done + more)]))
    case Close => s.(pcs := s.pcs[i := Written(pc.temp, pc.inode)])
    case Link =>
      if job.path in s.fs.names then s.(pcs := s.pcs[i := Busy(pc.temp)])
      else State(s.fs.(names := s.fs.names[job.path := pc.inode]),
                 s.pcs[i := Cleanup(pc.temp, true)])
    case Remove(removed) =>
      State(if removed then s.fs.(names := s.fs.names - {pc.temp}) else s.fs,
            s.pcs[i := if pc.ok then Returned else Fatal])
    case Fail => s.(pcs := s.pcs[i := if HoldsTemp(pc) then Cleanup(pc.temp, false) else Fatal])
    case Kill => s.(pcs := s.pcs[i := Killed])
  }

  predicate HoldsTemp(pc: Pc) {
    pc.Writing? || pc.Written? || pc.Busy? || pc.SecondRead? || pc.Cleanup?
  }

  // -------------------------------------------------------------------- runs

  /** Targets are never temporary names, and the run starts on an empty store. */
  predicate Init(jobs: seq<Job>, s: State) {
    && s.fs == FileSystem(map[], map[])
    && s.pcs == seq(|jobs|, _ => Start)
    && forall i :: 0 <= i < |jobs| ==> !IsTemp(jobs[i].path)
  }

  datatype Event = Event(writer: nat, action: Action)

  /** The states of a run, one longer than its events. */
  ghost predicate IsRun(jobs: seq<Job>, run: seq<State>, events: seq<Event>) {
    && |run| == |events| + 1
    && Init(jobs, run[0])
    && forall k :: 0 <= k < |events| ==> StepAt(jobs, run, events, k)
  }

  ghost predicate StepAt(jobs: seq<Job>, run: seq<State>, events: seq<Event>, k: nat)
    requires k < |events| && |run| == |events| + 1
  {
    && Enabled(jobs, run[k], events[k].writer, events[k].action)
    && run[k + 1] == Apply(jobs, run[k], events[k].writer, events[k].action)
  }

  // --------------------------------------------------------------- invariant

  predicate Published(s: State, path: Path) {
    !IsTemp(path) && path in s.fs.names && s.fs.names[path] in s.fs.inodes
  }

  function Content(s: State, path: Path): Bytes
    requires Published(s, path)
  {
    s.fs.inodes[s.fs.names[path]].bytes
  }

  /** A target name leads to a complete body whose writer no longer writes to it. */
  predicate TargetInv(jobs: seq<Job>, s: State, path: Path)
    requires path in s.fs.names
  {
    var inode := s.fs.names[path];
    && inode in s.fs.inodes
    && var w := s.fs.inodes[inode].writer;
       && w < |jobs| == |s.pcs|
       && jobs[w].path == path
       && s.fs.inodes[inode].bytes == jobs[w].data
       && (s.pcs[w].Cleanup? || s.pcs[w].Returned? || s.pcs[w].Fatal? || s.pcs[w].Killed?)
  }

  /** Writer `i` still owns its temporary name, which leads to a body it created. */
  predicate OwnsTemp(s: State, i: nat, temp: Path) {
    && IsTemp(temp)
    && temp in s.fs.names
    && s.fs.names[temp] in s.fs.inodes
    && s.fs.inodes[s.fs.names[temp]].writer == i
  }

  predicate Reads(jobs: seq<Job>, s: State, i: nat, inode: nat, got: Bytes)
    requires i < |jobs|
  {
    && jobs[i].path in s.fs.names
    && s.fs.names[jobs[i].path] == inode
    && inode in s.fs.inodes
    && got <= s.fs.inodes[inode].bytes
  }

  predicate Agrees(jobs: seq<Job>, s: State, i: nat)
    requires i < |jobs|
  {
    && jobs[i].path in s.fs.names
    && s.fs.names[jobs[i].path] in s.fs.inodes
    && s.fs.inodes[s.fs.names[jobs[i].path]].bytes == jobs[i].data
  }

  predicate WriterInv(jobs: seq<Job>, s: State, i: nat)
    requires i < |jobs| == |s.pcs|
  {
    match s.pcs[i]
    case Start => true
    case FirstRead(inode, got) => Reads(jobs, s, i, inode, got)
    case Missing => true
    case Writing(temp, inode) =>
      OwnsTemp(s, i, temp) && s.fs.names[temp] == inode && s.fs.inodes[inode].bytes <= jobs[i].data
    case Written(temp, inode) =>
      OwnsTemp(s, i, temp) && s.fs.names[temp] == inode && s.fs.inodes[inode].bytes == jobs[i].data
    case Busy(temp) => OwnsTemp(s, i, temp) && jobs[i].path in s.fs.names
    case SecondRead(temp, inode, got) => OwnsTemp(s, i, temp) && Reads(jobs, s, i, inode, got)
    case Cleanup(temp, ok) => OwnsTemp(s, i, temp) && (ok ==> Agrees(jobs, s, i))
    case Returned => Agrees(jobs, s, i)
    case Fatal => true
    case Killed => true
  }

  ghost predicate Inv(jobs: seq<Job>, s: State) {
    && |s.pcs| == |jobs|
    && (forall i :: 0 <= i < |jobs| ==> !IsTemp(jobs[i].path))
    && (forall path :: path in s.fs.names && !IsTemp(path) ==> TargetInv(jobs, s, path))
    && (forall i :: 0 <= i < |jobs| ==> WriterInv(jobs, s, i))
  }

  lemma InitInv(jobs: seq<Job>, s: State)
    requires Init(jobs, s)
    ensures Inv(jobs, s)
  {
  }

  /** What one step does to a published target: nothing at all. */
  lemma StepKeepsTargets(jobs: seq<Job>, s: State, i: nat, a: Action, path: Path)
    requires Inv(jobs, s)
    requires Enabled(jobs, s, i, a)
    requires Published(s, path)
    ensures Published(Apply(jobs, s, i, a), path)
    ensures Apply(jobs, s, i, a).fs.names[path] == s.fs.names[path]
    ensures Content(Apply(jobs, s, i, a), path) == Content(s, path)
  {
    assert TargetInv(jobs, s, path);
    assert WriterInv(jobs, s, i);
  }

  lemma StepTargets(jobs: seq<Job>, s: State, i: nat, a: Action, path: Path)
    requires Inv(jobs, s)
    requires Enabled(jobs, s, i, a)
    requires !IsTemp(path) && path in Apply(jobs, s, i, a).fs.names
    ensures TargetInv(jobs, Apply(jobs, s, i, a), path)
  {
    assert WriterInv(jobs, s, i);
    if path in s.fs.names {
      assert TargetInv(jobs, s, path);
    }
  }

  /** A step of writer `i` leaves the temporary name of writer `j` as it was. */
  lemma StepKeepsTemp(jobs: seq<Job>, s: State, i: nat, a: Action, j: nat, temp: Path)
    requires Inv(jobs, s)
    requires Enabled(jobs, s, i, a)
    requires j < |jobs| && j != i
    requires OwnsTemp(s, j, temp)
    ensures OwnsTemp(Apply(jobs, s, i, a), j, temp)
    ensures Apply(jobs, s, i, a).fs.names[temp] == s.fs.names[temp]
    ensures Apply(jobs, s, i, a).fs.inodes[s.fs.names[temp]] == s.fs.inodes[s.fs.names[temp]]
  {
    assert WriterInv(jobs, s, i);
  }

  /** A step of writer `i` disturbs neither the temporary name of another writer
      nor what another writer has read or agreed to. */
  lemma StepOthers(jobs: seq<Job>, s: State, i: nat, a: Action, j: nat)
    requires Inv(jobs, s)
    requires Enabled(jobs, s, i, a)
    requires j < |jobs| && j != i
    ensures WriterInv(jobs, Apply(jobs, s, i, a), j)
  {
    var s' := Apply(jobs, s, i, a);
    assert WriterInv(jobs, s, j);
    assert s'.pcs[j] == s.pcs[j];
    if HoldsTemp(s.pcs[j]) {
      StepKeepsTemp(jobs, s, i, a, j, s.pcs[j].temp);
    }
    if jobs[j].path in s.fs.names {
      assert TargetInv(jobs, s, jobs[j].path);
      StepKeepsTargets(jobs, s, i, a, jobs[j].path);
    }
    OthersFrame(jobs, s, s', j);
  }

  /** The invariant of a writer depends only on its own temporary name and on
      what its target holds. */
  lemma OthersFrame(jobs: seq<Job>, s: State, s': State, j: nat)
    requires j < |jobs| == |s.pcs| == |s'.pcs|
    requires WriterInv(jobs, s, j)
    requires s'.pcs[j] == s.pcs[j]
    requires HoldsTemp(s.pcs[j]) ==>
      && OwnsTemp(s, j, s.pcs[j].temp) && OwnsTemp(s', j, s.pcs[j].temp)
      && s'.fs.names[s.pcs[j].temp] == s.fs.names[s.pcs[j].temp]
      && s'.fs.inodes[s.fs.names[s.pcs[j].temp]] == s.fs.inodes[s.fs.names[s.pcs[j].temp]]
    requires jobs[j].path in s.fs.names ==>
      && Published(s, jobs[j].path) && Published(s', jobs[j].path)
      && s'.fs.names[jobs[j].path] == s.fs.names[jobs[j].path]
      && Content(s', jobs[j].path) == Content(s, jobs[j].path)
    ensures WriterInv(jobs, s', j)
  {
  }

  /** The steps that change the file system. */
  predicate Mutates(a: Action) {
    a.CreateTemp? || a.Write? || a.Link? || a.Remove?
  }

  lemma StepOwnChanges(jobs: seq<Job>, s: State, i: nat, a: Action)
    requires Inv(jobs, s) && Enabled(jobs, s, i, a) && Mutates(a)
    ensures WriterInv(jobs, Apply(jobs, s, i, a), i)
  {
    assert WriterInv(jobs, s, i);
    if jobs[i].path in s.fs.names {
      assert TargetInv(jobs, s, jobs[i].path);
    }
  }

  lemma StepOwnReads(jobs: seq<Job>, s: State, i: nat, a: Action)
    requires Inv(jobs, s) && Enabled(jobs, s, i, a) && !Mutates(a)
    ensures WriterInv(jobs, Apply(jobs, s, i, a), i)
  {
    assert WriterInv(jobs, s, i);
    if jobs[i].path in s.fs.names {
      assert TargetInv(jobs, s, jobs[i].path);
    }
  }

  lemma StepOwn(jobs: seq<Job>, s: State, i: nat, a: Action)
    requires Inv(jobs, s)
    requires Enabled(jobs, s, i, a)
    ensures WriterInv(jobs, Apply(jobs, s, i, a), i)
  {
    if Mutates(a) {
      StepOwnChanges(jobs, s, i, a);
    } else {
      StepOwnReads(jobs, s, i, a);
    }
  }

  lemma StepInv(jobs: seq<Job>, s: State, i: nat, a: Action)
    requires Inv(jobs, s)
    requires Enabled(jobs, s, i, a)
    ensures Inv(jobs, Apply(jobs, s, i, a))
  {
    var s' := Apply(jobs, s, i, a);
    forall path | path in s'.fs.names && !IsTemp(path)
      ensures TargetInv(jobs, s', path)
    {
      StepTargets(jobs, s, i, a, path);
    }
    forall j | 0 <= j < |jobs|
      ensures WriterInv(jobs, s', j)
    {
      if j == i {
        StepOwn(jobs, s, i, a);
      } else {
        StepOthers(jobs, s, i, a, j);
      }
    }
  }

  // --------------------------------------------------------- safety over runs

  lemma {:induction false} RunInv(jobs: seq<Job>, run: seq<State>, events: seq<Event>, k: nat)
    requires IsRun(jobs, run, events)
    requires k < |run|
    ensures Inv(jobs, run[k])
  {
    if k == 0 {
      InitInv(jobs, run[0]);
    } else {
      RunInv(jobs, run, events, k - 1);
      assert StepAt(jobs, run, events, k - 1);
      StepInv(jobs, run[k - 1], events[k - 1].writer, events[k - 1].action);
    }
  }

  /** Once a target exists it leads to the same body with the same bytes for ever. */
  lemma {:induction false} PublishedOnce(
      jobs: seq<Job>, run: seq<State>, events: seq<Event>, path: Path, a: nat, b: nat)
    requires IsRun(jobs, run, events)
    requires a <= b < |run|
    requires Published(run[a], path)
    ensures Published(run[b], path)
    ensures run[b].fs.names[path] == run[a].fs.names[path]
    ensures Content(run[b], path) == Content(run[a], path)
    decreases b
  {
    if a < b {
      PublishedOnce(jobs, run, events, path, a, b - 1);
      RunInv(jobs, run, events, b - 1);
      assert StepAt(jobs, run, events, b - 1);
      StepKeepsTargets(jobs, run[b - 1], events[b - 1].writer, events[b - 1].action, path);
    }
  }

  /** Whenever a target exists it holds all the bytes some writer was given for it. */
  lemma NeverPartial(jobs: seq<Job>, run: seq<State>, events: seq<Event>, path: Path, k: nat)
    returns (w: nat)
    requires IsRun(jobs, run, events)
    requires k < |run|
    requires Published(run[k], path)
    ensures w < |jobs| && jobs[w].path == path && Content(run[k], path) == jobs[w].data
  {
    RunInv(jobs, run, events, k);
    assert TargetInv(jobs, run[k], path);
    w := run[k].fs.inodes[run[k].fs.names[path]].writer;
  }

  /** A writer that has returned agrees byte for byte with what its target holds,
      then and at every later moment; so two that returned agree with each other. */
  lemma ReturnedAgrees(
      jobs: seq<Job>, run: seq<State>, events: seq<Event>, i: nat, k: nat, later: nat)
    requires IsRun(jobs, run, events)
    requires i < |jobs| && k <= later < |run|
    requires |run[k].pcs| == |jobs| && run[k].pcs[i].Returned?
    ensures Published(run[later], jobs[i].path)
    ensures Content(run[later], jobs[i].path) == jobs[i].data
  {
    RunInv(jobs, run, events, k);
    assert WriterInv(jobs, run[k], i);
    PublishedOnce(jobs, run, events, jobs[i].path, k, later);
  }

  // ------------------------------------------------------- progress and faults

  predicate Finished(pc: Pc) {
    pc.Returned? || pc.Fatal? || pc.Killed?
  }

  predicate Fault(a: Action) {
    a.Fail? || a.Kill?
  }

  /** What leaves a temporary file behind. */
  predicate Leaks(a: Action) {
    a.Kill? || a == Remove(false)
  }

  ghost predicate Bounded(jobs: seq<Job>, limit: nat) {
    forall i :: 0 <= i < |jobs| ==> |jobs[i].data| <= limit
  }

  /** Operations writer `i` can still perform, when no job is longer than `limit`. */
  function Rank(s: State, i: nat, limit: nat): int
    requires i < |s.pcs|
  {
    match s.pcs[i]
    case Start => 3 * limit + 12
    case FirstRead(_, got) => limit - |got| + 1
    case Missing => 2 * limit + 11
    case Writing(_, inode) =>
      (if inode in s.fs.inodes then limit - |s.fs.inodes[inode].bytes| else 0) + limit + 10
    case Written(_, _) => limit + 6
    case Busy(_) => limit + 5
    case SecondRead(_, _, got) => limit - |got| + 3
    case Cleanup(_, _) => 2
    case Returned => 0
    case Fatal => 0
    case Killed => 0
  }

  function TotalRank(s: State, limit: nat, n: nat): int
    requires n <= |s.pcs|
  {
    if n == 0 then 0 else TotalRank(s, limit, n - 1) + Rank(s, n - 1, limit)
  }

  lemma RankNonNegative(jobs: seq<Job>, s: State, limit: nat, j: nat)
    requires Inv(jobs, s)
    requires Bounded(jobs, limit)
    requires j < |jobs|
    ensures 0 <= Rank(s, j, limit)
  {
    assert WriterInv(jobs, s, j);
    if jobs[j].path in s.fs.names {
      assert TargetInv(jobs, s, jobs[j].path);
    }
  }

  lemma TransferRank(jobs: seq<Job>, s: State, i: nat, a: Action, limit: nat)
    requires Inv(jobs, s) && Enabled(jobs, s, i, a) && Bounded(jobs, limit)
    requires a.Open? || a.Read? || a.Write?
    ensures Rank(Apply(jobs, s, i, a), i, limit) < Rank(s, i, limit)
  {
    assert WriterInv(jobs, s, i);
    if jobs[i].path in s.fs.names {
      assert TargetInv(jobs, s, jobs[i].path);
    }
  }

  lemma OtherRank(jobs: seq<Job>, s: State, i: nat, a: Action, limit: nat)
    requires Inv(jobs, s) && Enabled(jobs, s, i, a) && Bounded(jobs, limit)
    requires !a.Open? && !a.Read? && !a.Write?
    ensures Rank(Apply(jobs, s, i, a), i, limit) < Rank(s, i, limit)
  {
    assert WriterInv(jobs, s, i);
    if jobs[i].path in s.fs.names {
      assert TargetInv(jobs, s, jobs[i].path);
    }
  }

  lemma StepOwnRank(jobs: seq<Job>, s: State, i: nat, a: Action, limit: nat)
    requires Inv(jobs, s)
    requires Enabled(jobs, s, i, a)
    requires Bounded(jobs, limit)
    ensures Rank(Apply(jobs, s, i, a), i, limit) < Rank(s, i, limit)
  {
    if a.Open? || a.Read? || a.Write? {
      TransferRank(jobs, s, i, a, limit);
    } else {
      OtherRank(jobs, s, i, a, limit);
    }
  }

  lemma StepOtherRank(jobs: seq<Job>, s: State, i: nat, a: Action, limit: nat, j: nat)
    requires Inv(jobs, s)
    requires Enabled(jobs, s, i, a)
    requires j < |jobs| && j != i
    ensures Rank(Apply(jobs, s, i, a), j, limit) == Rank(s, j, limit)
  {
    assert WriterInv(jobs, s, j);
    if HoldsTemp(s.pcs[j]) {
      StepKeepsTemp(jobs, s, i, a, j, s.pcs[j].temp);
    }
  }

  lemma {:induction false} StepTotalRank(jobs: seq<Job>, s: State, i: nat, a: Action, limit: nat, n: nat)
    requires Inv(jobs, s)
    requires Enabled(jobs, s, i, a)
    requires Bounded(jobs, limit)
    requires n <= |jobs|
    ensures var s' := Apply(jobs, s, i, a);
            && |s'.pcs| == |jobs|
            && TotalRank(s', limit, n) <= TotalRank(s, limit, n) - (if i < n then 1 else 0)
            && 0 <= TotalRank(s', limit, n)
  {
    if n > 0 {
      StepTotalRank(jobs, s, i, a, limit, n - 1);
      StepInv(jobs, s, i, a);
      RankNonNegative(jobs, Apply(jobs, s, i, a), limit, n - 1);
      if n - 1 == i {
        StepOwnRank(jobs, s, i, a, limit);
      } else {
        StepOtherRank(jobs, s, i, a, limit, n - 1);
      }
    }
  }

  lemma {:induction false} InitTotalRank(jobs: seq<Job>, s: State, limit: nat, n: nat)
    requires Init(jobs, s)
    requires n <= |jobs|
    ensures TotalRank(s, limit, n) == n * (3 * limit + 12)
  {
    if n > 0 {
      InitTotalRank(jobs, s, limit, n - 1);
      assert Rank(s, n - 1, limit) == 3 * limit + 12;
      assert n * (3 * limit + 12) == (n - 1) * (3 * limit + 12) + (3 * limit + 12);
    }
  }

  /** Every run stops: faults included, no interleaving takes more steps than this. */
  lemma {:induction false} RunsAreBounded(
      jobs: seq<Job>, run: seq<State>, events: seq<Event>, limit: nat, k: nat)
    requires IsRun(jobs, run, events)
    requires Bounded(jobs, limit)
    requires k < |run|
    ensures |run[k].pcs| == |jobs|
    ensures 0 <= TotalRank(run[k], limit, |jobs|) <= |jobs| * (3 * limit + 12) - k
  {
    if k == 0 {
      InitTotalRank(jobs, run[0], limit, |jobs|);
    } else {
      RunsAreBounded(jobs, run, events, limit, k - 1);
      RunInv(jobs, run, events, k - 1);
      assert StepAt(jobs, run, events, k - 1);
      StepTotalRank(jobs, run[k - 1], events[k - 1].writer, events[k - 1].action, limit, |jobs|);
    }
  }

  ghost function NameBound(names: set<Path>): (bound: nat)
    ensures forall path :: path in names ==> |path.name| < bound
  {
    if names == {} then 0
    else
      var path :| path in names;
      var rest := NameBound(names - {path});
      if rest <= |path.name| then |path.name| + 1 else rest
  }

  ghost function InodeBound(inodes: set<nat>): (bound: nat)
    ensures forall inode :: inode in inodes ==> inode < bound
  {
    if inodes == {} then 0
    else
      var inode :| inode in inodes;
      assert forall other :: other in inodes ==> other == inode || other in inodes - {inode};
      var rest := InodeBound(inodes - {inode});
      if rest <= inode then inode + 1 else rest
  }

  /** No writer ever waits for another: one that has not finished has a faultless step. */
  lemma NeverStuck(jobs: seq<Job>, s: State, i: nat) returns (a: Action)
    requires Inv(jobs, s)
    requires i < |jobs| && !Finished(s.pcs[i])
    ensures Enabled(jobs, s, i, a) && !Fault(a) && !Leaks(a)
  {
    assert WriterInv(jobs, s, i);
    match s.pcs[i]
    case Start => a := Open;
    case FirstRead(inode, got) =>
      a := if |got| == |s.fs.inodes[inode].bytes| then EndOfFile else Read(1);
    case Missing =>
      var name := TEMP_PREFIX + seq(NameBound(s.fs.names.Keys), _ => '0');
      a := CreateTemp(Path(jobs[i].path.directory, name), InodeBound(s.fs.inodes.Keys));
    case Writing(temp, inode) =>
      a := if |s.fs.inodes[inode].bytes| == |jobs[i].data| then Close else Write(1);
    case Written(_, _) => a := Link;
    case Busy(_) => a := Open;
    case SecondRead(_, inode, got) =>
      a := if |got| == |s.fs.inodes[inode].bytes| then EndOfFile else Read(1);
    case Cleanup(_, _) => a := Remove(true);
  }

  /** Jobs for one path carry the same bytes. */
  ghost predicate Consistent(jobs: seq<Job>) {
    forall i, j :: 0 <= i < |jobs| && 0 <= j < |jobs| && jobs[i].path == jobs[j].path ==>
      jobs[i].data == jobs[j].data
  }

  predicate Healthy(pc: Pc) {
    !pc.Fatal? && !pc.Killed? && (pc.Cleanup? ==> pc.ok)
  }

  lemma StepHealthy(jobs: seq<Job>, s: State, i: nat, a: Action)
    requires Inv(jobs, s) && Consistent(jobs)
    requires Enabled(jobs, s, i, a) && !Fault(a)
    requires Healthy(s.pcs[i])
    ensures Healthy(Apply(jobs, s, i, a).pcs[i])
  {
    assert WriterInv(jobs, s, i);
    if jobs[i].path in s.fs.names {
      assert TargetInv(jobs, s, jobs[i].path);
    }
  }

  /** Without faults, and unless two jobs disagree about a path, no writer is refused. */
  lemma {:induction false} ConsistentJobsReturn(
      jobs: seq<Job>, run: seq<State>, events: seq<Event>, k: nat, i: nat)
    requires IsRun(jobs, run, events) && Consistent(jobs)
    requires forall e :: 0 <= e < |events| ==> !Fault(events[e].action)
    requires k < |run| && i < |jobs|
    ensures |run[k].pcs| == |jobs| && Healthy(run[k].pcs[i])
    ensures Finished(run[k].pcs[i]) ==> run[k].pcs[i].Returned?
  {
    RunInv(jobs, run, events, k);
    if k > 0 {
      ConsistentJobsReturn(jobs, run, events, k - 1, i);
      RunInv(jobs, run, events, k - 1);
      assert StepAt(jobs, run, events, k - 1);
      if events[k - 1].writer == i {
        StepHealthy(jobs, run[k - 1], i, events[k - 1].action);
      }
    }
  }

  // ------------------------------------------------------------- no leftovers

  /** A temporary name is held by the unfinished writer that created it. */
  predicate TempInv(s: State, temp: Path)
    requires temp in s.fs.names
  {
    && s.fs.names[temp] in s.fs.inodes
    && var w := s.fs.inodes[s.fs.names[temp]].writer;
       w < |s.pcs| && HoldsTemp(s.pcs[w]) && s.pcs[w].temp == temp
  }

  lemma StepTempInv(jobs: seq<Job>, s: State, i: nat, a: Action, temp: Path)
    requires Inv(jobs, s)
    requires Enabled(jobs, s, i, a) && !Leaks(a)
    requires temp in s.fs.names ==> TempInv(s, temp)
    requires IsTemp(temp) && temp in Apply(jobs, s, i, a).fs.names
    ensures TempInv(Apply(jobs, s, i, a), temp)
  {
    assert WriterInv(jobs, s, i);
  }

  /** Unless a process dies or a removal fails, finished writers leave only targets. */
  lemma {:induction false} NothingLeftBehind(
      jobs: seq<Job>, run: seq<State>, events: seq<Event>, k: nat, temp: Path)
    requires IsRun(jobs, run, events)
    requires forall e :: 0 <= e < |events| ==> !Leaks(events[e].action)
    requires k < |run|
    requires IsTemp(temp) && temp in run[k].fs.names
    ensures TempInv(run[k], temp)
    ensures exists w :: 0 <= w < |run[k].pcs| && !Finished(run[k].pcs[w])
  {
    if k > 0 {
      if temp in run[k - 1].fs.names {
        NothingLeftBehind(jobs, run, events, k - 1, temp);
      }
      RunInv(jobs, run, events, k - 1);
      assert StepAt(jobs, run, events, k - 1);
      StepTempInv(jobs, run[k - 1], events[k - 1].writer, events[k - 1].action, temp);
    }
    var w := run[k].fs.inodes[run[k].fs.names[temp]].writer;
    assert !Finished(run[k].pcs[w]);
  }

  // ---------------------------------------------------------- complete runs

  ghost predicate Smooth(events: seq<Event>) {
    forall e :: 0 <= e < |events| ==> !Fault(events[e].action) && !Leaks(events[e].action)
  }

  ghost predicate AllReturned(jobs: seq<Job>, s: State) {
    |s.pcs| == |jobs| && forall i :: 0 <= i < |jobs| ==> s.pcs[i].Returned?
  }

  ghost function LongestJob(jobs: seq<Job>): (limit: nat)
    ensures Bounded(jobs, limit)
  {
    if jobs == [] then 0
    else
      var rest := LongestJob(jobs[..|jobs| - 1]);
      if rest < |jobs[|jobs| - 1].data| then |jobs[|jobs| - 1].data| else rest
  }

  lemma RunStep(jobs: seq<Job>, run: seq<State>, events: seq<Event>, e: Event)
    requires IsRun(jobs, run, events) && Enabled(jobs, run[|events|], e.writer, e.action)
    ensures IsRun(jobs, run + [Apply(jobs, run[|events|], e.writer, e.action)], events + [e])
  {
    var longer, more := run + [Apply(jobs, run[|events|], e.writer, e.action)], events + [e];
    forall k | 0 <= k < |more|
      ensures StepAt(jobs, longer, more, k)
    {
      assert k < |events| ==> StepAt(jobs, run, events, k);
    }
  }

  /** Whatever has happened so far without a fault, all writers can still return. */
  lemma {:induction false} Completes(jobs: seq<Job>, run: seq<State>, events: seq<Event>)
    returns (whole: seq<State>, all: seq<Event>)
    requires IsRun(jobs, run, events) && Consistent(jobs) && Smooth(events)
    ensures IsRun(jobs, whole, all) && Smooth(all) && events <= all
    ensures AllReturned(jobs, whole[|all|])
    decreases |jobs| * (3 * LongestJob(jobs) + 12) - |events|
  {
    RunsAreBounded(jobs, run, events, LongestJob(jobs), |events|);
    if i :| 0 <= i < |jobs| && !Finished(run[|events|].pcs[i]) {
      RunInv(jobs, run, events, |events|);
      var a := NeverStuck(jobs, run[|events|], i);
      RunStep(jobs, run, events, Event(i, a));
      var next := run + [Apply(jobs, run[|events|], i, a)];
      RunsAreBounded(jobs, next, events + [Event(i, a)], LongestJob(jobs), |events| + 1);
      whole, all := Completes(jobs, next, events + [Event(i, a)]);
    } else {
      whole, all := run, events;
      forall i | 0 <= i < |jobs|
        ensures run[|events|].pcs[i].Returned?
      {
        ConsistentJobsReturn(jobs, run, events, |events|, i);
      }
    }
  }
}
