// The module graph walk of scripts/ci/check-test-file-reachability.py: `_module_children`,
// `reachable_files` and the offenders of one test root.

module Reachability {
  import opened Wrappers
  import opened Sorting

  type Path = string

  /** A module file and the directory its own `mod` items resolve against. */
  datatype ModuleRoot = ModuleRoot(path: Path, dir: Path)

  datatype Declaration = Declaration(name: string, explicit: Option<string>)

  /** The file system as the walk sees it: which paths are files, path arithmetic, and
      the module items of a file. */
  datatype World = World(
    files: set<Path>, declarations: Path -> seq<Declaration>,
    join: (Path, string) -> Path, parent: Path -> Path, resolve: Path -> Path, moduleDir: Path -> Path)

  /** Resolving a path that is a file gives a path that is a file. */
  ghost predicate WorldOk(w: World) {
    forall path :: path in w.files ==> w.resolve(path) in w.files
  }

  function External(w: World, path: Path): ModuleRoot {
    ModuleRoot(path, w.moduleDir(path))
  }

  function Flat(w: World, root: ModuleRoot, d: Declaration): Path {
    w.join(root.dir, d.name + ".rs")
  }

  function Nested(w: World, root: ModuleRoot, d: Declaration): Path {
    w.join(w.join(root.dir, d.name), "mod.rs")
  }

  /** An item that two files could be. */
  predicate AmbiguousItem(w: World, root: ModuleRoot, d: Declaration) {
    d.explicit.None? && Flat(w, root, d) in w.files && Nested(w, root, d) in w.files
  }

  /** The file an item names, if there is one. */
  function Target(w: World, root: ModuleRoot, d: Declaration): Option<Path> {
    match d.explicit
    case Some(text) =>
      var path := w.resolve(w.join(w.parent(root.path), text));
      if path in w.files then Some(path) else None
    case None =>
      if Flat(w, root, d) in w.files then Some(w.resolve(Flat(w, root, d)))
      else if Nested(w, root, d) in w.files then Some(w.resolve(Nested(w, root, d)))
      else None
  }

  predicate Ambiguous(w: World, root: ModuleRoot) {
    exists d :: d in w.declarations(root.path) && AmbiguousItem(w, root, d)
  }

  predicate Names(w: World, root: ModuleRoot, d: Declaration, child: ModuleRoot) {
    Target(w, root, d) == Some(child.path) && child == External(w, child.path)
  }

  predicate ChildOf(w: World, root: ModuleRoot, child: ModuleRoot) {
    exists d :: d in w.declarations(root.path) && Names(w, root, d, child)
  }

  /** One item: the file it names, or a report that two files could be meant. */
  method ItemTarget(w: World, root: ModuleRoot, d: Declaration) returns (target: Option<Path>, ambiguous: bool)
    ensures ambiguous <==> AmbiguousItem(w, root, d)
    ensures !ambiguous ==> target == Target(w, root, d)
  {
    if d.explicit.Some? {
      var path := w.resolve(w.join(w.parent(root.path), d.explicit.value));
      return if path in w.files then Some(path) else None, false;
    }
    var existing: seq<Path> := [];
    if Flat(w, root, d) in w.files {
      existing := existing + [w.resolve(Flat(w, root, d))];
    }
    if Nested(w, root, d) in w.files {
      existing := existing + [w.resolve(Nested(w, root, d))];
    }
    if |existing| > 1 {
      return None, true;
    }
    return if existing != [] then Some(existing[0]) else None, false;
  }

  /** The modules one file declares, or a report of an ambiguous one. */
  method ModuleChildren(w: World, root: ModuleRoot) returns (children: Option<seq<ModuleRoot>>)
    ensures children.None? <==> Ambiguous(w, root)
    ensures children.Some? ==> forall child :: child in children.value <==> ChildOf(w, root, child)
  {
    var declarations := w.declarations(root.path);
    var found: seq<ModuleRoot> := [];
    for i := 0 to |declarations|
      invariant forall d :: d in declarations[..i] ==> !AmbiguousItem(w, root, d)
      invariant forall child :: child in found <==> exists d :: d in declarations[..i] && Names(w, root, d, child)
    {
      ghost var before := found;
      assert declarations[..i + 1] == declarations[..i] + [declarations[i]];
      var target, ambiguous := ItemTarget(w, root, declarations[i]);
      if ambiguous {
        return None;
      }
      if target.Some? {
        found := found + [External(w, target.value)];
      }
      forall child
        ensures child in found <==> child in before || Names(w, root, declarations[i], child)
      {
      }
    }
    assert declarations[..|declarations|] == declarations;
    return Some(found);
  }

  // --------------------------------------------------------------- reachability

  ghost predicate StepAt(w: World, states: seq<ModuleRoot>, i: nat) {
    i + 1 < |states| && states[i].path in w.files && ChildOf(w, states[i], states[i + 1])
  }

  /** Zero or more steps from a root, each from an existing file. */
  ghost predicate Walk(w: World, roots: set<ModuleRoot>, states: seq<ModuleRoot>) {
    && states != [] && states[0] in roots
    && forall i :: 0 <= i < |states| - 1 ==> StepAt(w, states, i)
  }

  ghost predicate Reachable(w: World, roots: set<ModuleRoot>, s: ModuleRoot) {
    exists states :: Walk(w, roots, states) && states[|states| - 1] == s
  }

  lemma ReachRoot(w: World, roots: set<ModuleRoot>, s: ModuleRoot)
    requires s in roots
    ensures Reachable(w, roots, s)
  {
    assert Walk(w, roots, [s]);
  }

  lemma ReachStep(w: World, roots: set<ModuleRoot>, s: ModuleRoot, child: ModuleRoot)
    requires Reachable(w, roots, s) && s.path in w.files && ChildOf(w, s, child)
    ensures Reachable(w, roots, child)
  {
    var states :| Walk(w, roots, states) && states[|states| - 1] == s;
    var longer := states + [child];
    forall i | 0 <= i < |longer| - 1
      ensures StepAt(w, longer, i)
    {
      assert i < |states| - 1 ==> StepAt(w, states, i);
    }
    assert Walk(w, roots, longer) && longer[|longer| - 1] == child;
  }

  /** Contains the roots and the children of its files. */
  ghost predicate Closed(w: World, roots: set<ModuleRoot>, states: set<ModuleRoot>) {
    && roots <= states
    && forall s, child :: s in states && s.path in w.files && ChildOf(w, s, child) ==> child in states
  }

  lemma {:induction false} WalkInside(w: World, roots: set<ModuleRoot>, closed: set<ModuleRoot>, states: seq<ModuleRoot>)
    requires Closed(w, roots, closed) && Walk(w, roots, states)
    ensures states[|states| - 1] in closed
  {
    if |states| > 1 {
      var front := states[..|states| - 1];
      forall i | 0 <= i < |front| - 1
        ensures StepAt(w, front, i)
      {
        assert StepAt(w, states, i);
      }
      WalkInside(w, roots, closed, front);
      assert StepAt(w, states, |states| - 2);
    }
  }

  lemma ReachableInside(w: World, roots: set<ModuleRoot>, closed: set<ModuleRoot>, s: ModuleRoot)
    requires Closed(w, roots, closed) && Reachable(w, roots, s)
    ensures s in closed
  {
    var states :| Walk(w, roots, states) && states[|states| - 1] == s;
    WalkInside(w, roots, closed, states);
  }

  /** The states the walk can ever visit. */
  ghost function Universe(w: World, roots: set<ModuleRoot>): set<ModuleRoot> {
    roots + set path | path in w.files :: External(w, path)
  }

  lemma ChildrenInUniverse(w: World, roots: set<ModuleRoot>, s: ModuleRoot, child: ModuleRoot)
    requires WorldOk(w) && ChildOf(w, s, child)
    ensures child in Universe(w, roots)
  {
  }

  ghost predicate Reached(w: World, visited: set<ModuleRoot>, file: Path) {
    exists s :: s in visited && s.path in w.files && w.resolve(s.path) == file
  }

  /** Some file that the walk reaches declares an ambiguous module. */
  ghost predicate AmbiguityReached(w: World, roots: set<ModuleRoot>) {
    exists s :: Reachable(w, roots, s) && s.path in w.files && Ambiguous(w, s)
  }

  ghost predicate ReachedFrom(w: World, roots: set<ModuleRoot>, file: Path) {
    exists s :: Reachable(w, roots, s) && s.path in w.files && w.resolve(s.path) == file
  }

  function Elements(states: seq<ModuleRoot>): set<ModuleRoot> {
    set s | s in states
  }

  /** What the loop keeps: everything met is reachable, and what was visited leads only
      to what was visited or waits. */
  ghost predicate LoopInv(w: World, roots: set<ModuleRoot>, visited: set<ModuleRoot>, queue: seq<ModuleRoot>) {
    && roots <= visited + Elements(queue)
    && visited <= Universe(w, roots)
    && (forall s :: s in visited || s in queue ==> Reachable(w, roots, s) && s in Universe(w, roots))
    && (forall s, child :: s in visited && s.path in w.files && ChildOf(w, s, child) ==> child in visited || child in queue)
    && (forall s :: s in visited && s.path in w.files ==> !Ambiguous(w, s))
  }

  lemma VisitedExactly(w: World, roots: set<ModuleRoot>, visited: set<ModuleRoot>)
    requires LoopInv(w, roots, visited, [])
    ensures forall s :: s in visited <==> Reachable(w, roots, s)
  {
    forall s | Reachable(w, roots, s)
      ensures s in visited
    {
      assert Closed(w, roots, visited);
      ReachableInside(w, roots, visited, s);
    }
  }

  lemma SkipStep(w: World, roots: set<ModuleRoot>, visited: set<ModuleRoot>, queue: seq<ModuleRoot>)
    requires queue != [] && LoopInv(w, roots, visited, queue)
    requires queue[0] in visited || queue[0].path !in w.files
    ensures LoopInv(w, roots, visited + {queue[0]}, queue[1..])
  {
    assert forall s :: s in queue <==> s == queue[0] || s in queue[1..];
  }

  lemma VisitStep(
    w: World, roots: set<ModuleRoot>, visited: set<ModuleRoot>, queue: seq<ModuleRoot>, children: seq<ModuleRoot>)
    requires WorldOk(w) && queue != [] && LoopInv(w, roots, visited, queue) && queue[0].path in w.files
    requires !Ambiguous(w, queue[0]) && forall child :: child in children <==> ChildOf(w, queue[0], child)
    ensures LoopInv(w, roots, visited + {queue[0]}, queue[1..] + children)
  {
    assert forall s :: s in queue <==> s == queue[0] || s in queue[1..];
    forall child | child in children
      ensures Reachable(w, roots, child) && child in Universe(w, roots)
    {
      ReachStep(w, roots, queue[0], child);
      ChildrenInUniverse(w, roots, queue[0], child);
    }
  }

  lemma FoundStep(w: World, visited: set<ModuleRoot>, root: ModuleRoot, file: Path)
    ensures Reached(w, visited + {root}, file) <==>
            Reached(w, visited, file) || (root.path in w.files && w.resolve(root.path) == file)
  {
    if s :| s in visited && s.path in w.files && w.resolve(s.path) == file {
      assert s in visited + {root};
    }
    assert root in visited + {root};
  }

  ghost predicate FoundExactly(w: World, visited: set<ModuleRoot>, found: set<Path>) {
    forall file :: file in found <==> Reached(w, visited, file)
  }

  /** Takes the first state off the queue. */
  method VisitFirst(w: World, ghost start: set<ModuleRoot>, visited: set<ModuleRoot>, queue: seq<ModuleRoot>, found: set<Path>)
    returns (next: Option<(set<ModuleRoot>, seq<ModuleRoot>, set<Path>)>)
    requires WorldOk(w) && queue != [] && LoopInv(w, start, visited, queue) && FoundExactly(w, visited, found)
    ensures next.None? ==> AmbiguityReached(w, start)
    ensures next.Some? ==>
              && LoopInv(w, start, next.value.0, next.value.1) && FoundExactly(w, next.value.0, next.value.2)
              && next.value.0 == visited + {queue[0]} && (queue[0] in visited ==> next.value.1 == queue[1..])
  {
    var root := queue[0];
    forall file
      ensures Reached(w, visited + {root}, file) <==>
              Reached(w, visited, file) || (root.path in w.files && w.resolve(root.path) == file)
    {
      FoundStep(w, visited, root, file);
    }
    if root in visited || root.path !in w.files {
      SkipStep(w, start, visited, queue);
      return Some((visited + {root}, queue[1..], found));
    }
    var children := ModuleChildren(w, root);
    if children.None? {
      return None;
    }
    VisitStep(w, start, visited, queue, children.value);
    return Some((visited + {root}, queue[1..] + children.value, found + {w.resolve(root.path)}));
  }

  lemma StartInv(w: World, roots: seq<ModuleRoot>)
    ensures LoopInv(w, Elements(roots), {}, roots)
  {
    forall s | s in roots
      ensures Reachable(w, Elements(roots), s)
    {
      ReachRoot(w, Elements(roots), s);
    }
  }

  /** Exactly the existing files reachable from the roots, in whatever order the roots
      are queued and on any cyclic graph; a report exactly when an ambiguous module is
      reached. */
  method ReachableFiles(w: World, roots: seq<ModuleRoot>) returns (reachable: Option<set<Path>>)
    requires WorldOk(w)
    ensures reachable.None? <==> AmbiguityReached(w, Elements(roots))
    ensures reachable.Some? ==> forall file :: file in reachable.value <==> ReachedFrom(w, Elements(roots), file)
  {
    var found: set<Path>, visited: set<ModuleRoot>, queue := {}, {}, roots;
    StartInv(w, roots);
    while queue != []
      invariant LoopInv(w, Elements(roots), visited, queue) && FoundExactly(w, visited, found)
      decreases Universe(w, Elements(roots)) - visited, |queue|
    {
      var next := VisitFirst(w, Elements(roots), visited, queue, found);
      if next.None? {
        return None;
      }
      assert queue[0] in queue;
      visited, queue, found := next.value.0, next.value.1, next.value.2;
    }
    VisitedExactly(w, Elements(roots), visited);
    return Some(found);
  }

  ghost predicate InOrderBy(before: (Path, Path) -> bool, paths: seq<Path>) {
    forall j, k :: 0 <= j < k < |paths| ==> before(paths[j], paths[k])
  }

  lemma AppendInOrder(before: (Path, Path) -> bool, paths: seq<Path>, i: nat, found: seq<Path>)
    requires i < |paths| && InOrderBy(before, paths) && InOrderBy(before, found)
    requires forall path :: path in found ==> path in paths[..i]
    ensures InOrderBy(before, found + [paths[i]])
  {
    forall j | 0 <= j < |found|
      ensures before(found[j], paths[i])
    {
      assert found[j] in found;
    }
  }

  method SortPaths(before: (Path, Path) -> bool, candidates: set<Path>) returns (paths: seq<Path>)
    requires TotalOrder(before)
    ensures InOrderBy(before, paths) && forall path :: path in paths <==> path in candidates
  {
    ListedSet(before, candidates);
    paths := InOrder(before, multiset(candidates));
  }

  /** The paths with tests outside a set of files. */
  method KeepUnreached(
    w: World, ghost before: (Path, Path) -> bool, paths: seq<Path>, reachable: set<Path>, hasTest: Path -> bool)
    returns (found: seq<Path>)
    requires InOrderBy(before, paths)
    ensures forall path :: path in found <==> path in paths && hasTest(w.resolve(path)) && w.resolve(path) !in reachable
    ensures InOrderBy(before, found)
  {
    found := [];
    for i := 0 to |paths|
      invariant forall path :: path in found <==>
        path in paths[..i] && hasTest(w.resolve(path)) && w.resolve(path) !in reachable
      invariant InOrderBy(before, found)
    {
      assert paths[..i + 1] == paths[..i] + [paths[i]];
      var resolved := w.resolve(paths[i]);
      if hasTest(resolved) && resolved !in reachable {
        AppendInOrder(before, paths, i, found);
        found := found + [paths[i]];
      }
    }
    assert paths[..|paths|] == paths;
  }

  /** A file with tests that no walk reaches. */
  ghost predicate Unreached(w: World, roots: set<ModuleRoot>, hasTest: Path -> bool, path: Path) {
    hasTest(w.resolve(path)) && !ReachedFrom(w, roots, w.resolve(path))
  }

  /** The test files of one root that no module graph reaches, each once and in order. */
  method FindUnreachable(
    w: World, roots: seq<ModuleRoot>, candidates: set<Path>, before: (Path, Path) -> bool, hasTest: Path -> bool)
    returns (offenders: Option<seq<Path>>)
    requires WorldOk(w) && TotalOrder(before)
    ensures offenders.None? <==> AmbiguityReached(w, Elements(roots))
    ensures offenders.Some? ==> InOrderBy(before, offenders.value) && forall path :: path in offenders.value <==>
              path in candidates && Unreached(w, Elements(roots), hasTest, path)
  {
    var reachable := ReachableFiles(w, roots);
    if reachable.None? {
      return None;
    }
    var paths := SortPaths(before, candidates);
    var found := KeepUnreached(w, before, paths, reachable.value, hasTest);
    return Some(found);
  }
}
