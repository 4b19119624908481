// Whole captures: test processes of different packages write one store, and the
// validator reads it once every write has returned.

module CaptureRuns {
  import opened Wrappers
  import opened CaptureProtocol
  import opened CaptureStore
  import opened CaptureProcess

  /** One process for each package, each with its captures in order. */
  ghost predicate Processes(packages: seq<string>, processes: seq<seq<Capture>>) {
    && |packages| == |processes|
    && (forall p, q :: 0 <= p < q < |packages| ==> packages[p] != packages[q])
    && (forall p :: 0 <= p < |packages| ==> Sequenced(packages[p], processes[p]))
  }

  /** What the processes and the digest bring to a run. */
  ghost predicate Captured(env: Env, schema: Bytes, captures: seq<Capture>, jobs: seq<Job>) {
    && EnvOk(env) && Decodes(env, captures) && env.isObject(schema)
    && JobsOf(env, schema, captures, jobs)
    && forall c :: c in captures ==> Inventory(env, c) && WellNamed(c)
  }

  lemma NoTempLeft(jobs: seq<Job>, run: seq<State>, events: seq<Event>, path: Path)
    requires IsRun(jobs, run, events) && AllReturned(jobs, run[|events|])
    requires forall e :: 0 <= e < |events| ==> !Leaks(events[e].action)
    requires path in run[|events|].fs.names
    ensures !IsTemp(path)
  {
    if IsTemp(path) {
      NothingLeftBehind(jobs, run, events, |events|, path);
    }
  }

  /** When every writer of every process has returned, and none was killed or failed to
      remove its temporary file, the store is accepted and counts every capture. */
  lemma CompletedRunAccepted(
      env: Env, schema: Bytes, packages: seq<string>, processes: seq<seq<Capture>>,
      jobs: seq<Job>, run: seq<State>, events: seq<Event>)
    requires Processes(packages, processes) && Captured(env, schema, All(packages, processes), jobs)
    requires IsRun(jobs, run, events) && AllReturned(jobs, run[|events|])
    requires forall e :: 0 <= e < |events| ==> !Leaks(events[e].action)
    ensures Accepted(env, StoreOf(run[|events|]))
    ensures |Records(StoreOf(run[|events|]))| == |All(packages, processes)|
  {
    var captures, last := All(packages, processes), run[|events|];
    RunInv(jobs, run, events, |events|);
    forall path | path in last.fs.names && path.directory == Blobs
      ensures !IsTemp(path)
    {
      NoTempLeft(jobs, run, events, path);
    }
    SettledStoreAccepted(env, schema, captures, jobs, last);
    RecordsCountIdentities(env, schema, captures, jobs, last);
    OneProcessPerPackage(packages, processes);
    IdentitiesCount(captures);
  }

  /** Unless two files share a digest, every run without faults so far can be completed,
      and then its store is accepted. */
  lemma CaptureCompletes(
      env: Env, schema: Bytes, packages: seq<string>, processes: seq<seq<Capture>>,
      jobs: seq<Job>, run: seq<State>, events: seq<Event>)
    returns (whole: seq<State>, all: seq<Event>)
    requires Processes(packages, processes) && Captured(env, schema, All(packages, processes), jobs)
    requires Consistent(jobs) && IsRun(jobs, run, events) && Smooth(events)
    ensures IsRun(jobs, whole, all) && events <= all && AllReturned(jobs, whole[|all|])
    ensures Accepted(env, StoreOf(whole[|all|]))
    ensures |Records(StoreOf(whole[|all|]))| == |All(packages, processes)|
  {
    whole, all := Completes(jobs, run, events);
    CompletedRunAccepted(env, schema, packages, processes, jobs, whole, all);
  }
}
