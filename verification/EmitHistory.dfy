// The committed history of the baseline: `check_baseline_history` of
// scripts/ci/check-emit-regression-set.py over a graph of commits, in which the file may be
// deleted and recreated and branches may run in parallel.

module EmitHistory {
  import opened Wrappers
  import opened EmitRows
  import opened EmitDocuments
  import EmitOrder

  /** A commit: its parents, and the file if the commit has it. */
  datatype Commit = Commit(parents: seq<nat>, file: Option<Bytes>)

  type History = seq<Commit>

  /** Commits are numbered so that parents come first. */
  predicate IsHistory(h: History) {
    forall k, i :: 0 <= k < |h| && 0 <= i < |h[k].parents| ==> h[k].parents[i] < k
  }

  predicate IsParent(h: History, p: nat, k: nat) {
    k < |h| && p in h[k].parents && p < k
  }

  /** `a` is `k` or an ancestor of it. */
  predicate Reaches(h: History, a: nat, k: nat)
    decreases k
  {
    k < |h| && (a == k || exists p :: p in h[k].parents && p < k && Reaches(h, a, p))
  }

  predicate HasFile(h: History, k: nat) {
    k < |h| && h[k].file.Some?
  }

  function FileAt(h: History, k: nat): Bytes {
    if HasFile(h, k) then h[k].file.value else []
  }

  /** A version of the file that `k` has or descends from. */
  predicate Version(h: History, a: nat, k: nat) {
    Reaches(h, a, k) && HasFile(h, a)
  }

  /** A commit is listed unless it has the file as all its parents have it. */
  predicate Changes(h: History, k: nat) {
    && k < |h|
    && if h[k].parents == [] then h[k].file.Some?
       else exists p :: p in h[k].parents && p < |h| && h[p].file != h[k].file
  }

  predicate Listed(h: History, a: nat, k: nat) {
    Version(h, a, k) && Changes(h, a)
  }

  /** Whether the second file may follow the first. */
  type Relation = (Bytes, Bytes) -> bool

  ghost predicate Transitive(follows: Relation) {
    forall a, b, c :: follows(a, b) && follows(b, c) ==> follows(a, c)
  }

  // --------------------------------------------------------------- the check

  lemma ParentReaches(h: History, p: nat, a: nat, k: nat)
    requires IsParent(h, p, a) && Reaches(h, a, k)
    ensures Reaches(h, p, k)
    decreases k
  {
    if a == k {
      assert Reaches(h, p, p);
    } else {
      var q :| q in h[k].parents && q < k && Reaches(h, a, q);
      ParentReaches(h, p, a, q);
    }
  }

  /** Leaving out commits that do not change the file leaves out no version of it. */
  lemma {:induction false} VersionListed(h: History, a: nat, k: nat) returns (c: nat)
    requires IsHistory(h) && Version(h, a, k)
    ensures Listed(h, c, k) && FileAt(h, c) == FileAt(h, a)
    decreases a
  {
    if Changes(h, a) {
      c := a;
    } else {
      var p := h[a].parents[0];
      assert IsParent(h, p, a);
      ParentReaches(h, p, a, k);
      c := VersionListed(h, p, k);
    }
  }

  /** Some version of the file is committed, and `current` may follow every one. */
  ghost predicate HistoryHolds(follows: Relation, h: History, head: nat, current: Bytes) {
    && (exists a: nat :: Version(h, a, head))
    && forall a: nat :: Version(h, a, head) ==> follows(FileAt(h, a), current)
  }

  lemma ListedDecides(follows: Relation, h: History, head: nat, current: Bytes)
    requires IsHistory(h)
    ensures HistoryHolds(follows, h, head, current) <==>
            && (exists c: nat :: Listed(h, c, head))
            && forall c: nat :: Listed(h, c, head) ==> follows(FileAt(h, c), current)
  {
    forall a: nat | Version(h, a, head)
      ensures exists c: nat :: Listed(h, c, head) && FileAt(h, c) == FileAt(h, a)
    {
      var c := VersionListed(h, a, head);
    }
  }

  lemma {:induction false} ReachesDown(h: History, a: nat, k: nat)
    requires Reaches(h, a, k)
    ensures a <= k < |h|
    decreases k
  {
    if a != k {
      var p :| p in h[k].parents && p < k && Reaches(h, a, p);
      ReachesDown(h, a, p);
    }
  }

  /** How the gate is set up when it checks a history. */
  datatype Setting = Setting(decode: Decoder, read: RowReader, trusted: set<string>)

  ghost function Follows(g: Setting): Relation {
    (a, b) => Passes(g.read, LoadFile(g.decode, a), [LoadFile(g.decode, b)], Some(g.trusted), true)
  }

  method GateFollows(g: Setting, version: Bytes, current: Bytes) returns (passed: bool)
    ensures passed <==> Follows(g)(version, current)
  {
    assert LoadFiles(g.decode, [current]) == [LoadFile(g.decode, current)];
    passed := Gate(g.decode, g.read, version, [current], Some(g.trusted), true);
  }

  /** The current file against every listed version, which is as good as every version:
      deletions, recreations and parallel branches included. */
  method CheckBaselineHistory(g: Setting, h: History, head: nat, current: Bytes) returns (ok: bool)
    requires IsHistory(h) && head < |h|
    ensures ok <==> HistoryHolds(Follows(g), h, head, current)
  {
    ghost var follows := Follows(g);
    ListedDecides(follows, h, head, current);
    var checked := 0;
    for c := 0 to head + 1
      invariant checked > 0 <==> exists b: nat :: b < c && Listed(h, b, head)
      invariant forall b: nat :: b < c && Listed(h, b, head) ==> follows(FileAt(h, b), current)
    {
      if Listed(h, c, head) {
        var passed := GateFollows(g, FileAt(h, c), current);
        if !passed {
          return false;
        }
        checked := checked + 1;
      }
    }
    forall b: nat | Listed(h, b, head)
      ensures b < head + 1
    {
      ReachesDown(h, b, head);
    }
    return checked > 0;
  }

  // --------------------------------------------------- what a step has to check

  lemma FollowsTransitive(g: Setting)
    requires Sound(g.read)
    ensures Transitive(Follows(g))
  {
    forall a, b, c | Follows(g)(a, b) && Follows(g)(b, c)
      ensures Follows(g)(a, c)
    {
      PassesTransitive(g.read, LoadFile(g.decode, a), LoadFile(g.decode, b), LoadFile(g.decode, c), g.trusted);
    }
  }

  lemma PassesTransitive(read: RowReader, a: Loaded, b: Loaded, c: Loaded, trusted: set<string>)
    requires Sound(read)
    requires Passes(read, a, [b], Some(trusted), true) && Passes(read, b, [c], Some(trusted), true)
    ensures Passes(read, a, [c], Some(trusted), true)
  {
    SingleShard(b.value);
    SingleShard(c.value);
    EmitOrder.Transitive(TableIn(read, a.value.rows).value, TableIn(read, b.value.rows).value,
                         TableIn(read, c.value.rows).value);
  }

  /** A nearest commit with the file, looking back from `k` along some line of parents. */
  predicate Nearest(h: History, a: nat, k: nat)
    decreases k
  {
    k < |h| && if h[k].file.Some? then a == k else exists p :: p in h[k].parents && p < k && Nearest(h, a, p)
  }

  lemma {:induction false} NearestReaches(h: History, a: nat, k: nat)
    requires Nearest(h, a, k)
    ensures Version(h, a, k)
    decreases k
  {
    if h[k].file.None? {
      var p :| p in h[k].parents && p < k && Nearest(h, a, p);
      NearestReaches(h, a, p);
    }
  }

  /** The file of commit `k` may follow itself and the nearest versions behind each of
      its parents. */
  ghost predicate StepHolds(follows: Relation, h: History, k: nat) {
    && follows(FileAt(h, k), FileAt(h, k))
    && forall p: nat, a: nat :: IsParent(h, p, k) && Nearest(h, a, p) ==> follows(FileAt(h, a), FileAt(h, k))
  }

  ghost predicate EveryStepHolds(follows: Relation, h: History) {
    forall k: nat :: HasFile(h, k) ==> StepHolds(follows, h, k)
  }

  ghost predicate EveryHistoryHolds(follows: Relation, h: History) {
    forall k: nat :: HasFile(h, k) ==> HistoryHolds(follows, h, k, FileAt(h, k))
  }

  /** Along steps, some nearest version behind `p` may follow any version before it. */
  lemma {:induction false} NearestFollows(follows: Relation, h: History, a: nat, p: nat) returns (f: nat)
    requires Transitive(follows) && EveryStepHolds(follows, h) && Version(h, a, p)
    ensures Nearest(h, f, p) && follows(FileAt(h, a), FileAt(h, f))
    decreases p
  {
    if a == p {
      f := p;
      assert StepHolds(follows, h, p);
    } else {
      var q :| q in h[p].parents && q < p && Reaches(h, a, q);
      f := NearestFollows(follows, h, a, q);
      if HasFile(h, p) {
        assert StepHolds(follows, h, p) && IsParent(h, q, p);
        f := p;
      }
    }
  }

  lemma StepsReach(follows: Relation, h: History, k: nat)
    requires Transitive(follows) && EveryStepHolds(follows, h) && HasFile(h, k)
    ensures HistoryHolds(follows, h, k, FileAt(h, k))
  {
    assert Version(h, k, k);
    forall a: nat | Version(h, a, k)
      ensures follows(FileAt(h, a), FileAt(h, k))
    {
      var f := NearestFollows(follows, h, a, k);
    }
  }

  lemma HistoryCoversStep(follows: Relation, h: History, k: nat)
    requires HasFile(h, k) && HistoryHolds(follows, h, k, FileAt(h, k))
    ensures StepHolds(follows, h, k)
  {
    assert Version(h, k, k);
    forall p: nat, a: nat | IsParent(h, p, k) && Nearest(h, a, p)
      ensures follows(FileAt(h, a), FileAt(h, k))
    {
      NearestReaches(h, a, p);
      assert Version(h, a, k);
    }
  }

  /** Comparing every committed baseline with itself and with the nearest versions behind
      its parents is as strong as comparing it with its whole history, whatever was
      deleted, recreated or merged in between. */
  lemma StepsDecideHistory(g: Setting, h: History)
    requires Sound(g.read)
    ensures EveryHistoryHolds(Follows(g), h) <==> EveryStepHolds(Follows(g), h)
  {
    FollowsTransitive(g);
    forall k: nat | HasFile(h, k)
      ensures EveryStepHolds(Follows(g), h) ==> HistoryHolds(Follows(g), h, k, FileAt(h, k))
      ensures HistoryHolds(Follows(g), h, k, FileAt(h, k)) ==> StepHolds(Follows(g), h, k)
    {
      if EveryStepHolds(Follows(g), h) {
        StepsReach(Follows(g), h, k);
      }
      if HistoryHolds(Follows(g), h, k, FileAt(h, k)) {
        HistoryCoversStep(Follows(g), h, k);
      }
    }
  }
}
