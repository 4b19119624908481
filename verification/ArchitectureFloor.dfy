// The historical floor of scripts/arch/rewrite_architecture_metrics.py: metrics may only
// go down, against the strictest value ever committed.

module ArchitectureFloor {
  import opened Wrappers
  import opened Text
  import opened Sorting

  type Metrics = map<string, int>

  ghost predicate Commits(snapshots: seq<Metrics>, name: string, value: int) {
    exists i :: 0 <= i < |snapshots| && name in snapshots[i] && snapshots[i][name] == value
  }

  /** Every metric ever committed, at the least value it was committed with. */
  ghost predicate IsFloor(snapshots: seq<Metrics>, floor: Metrics) {
    && (forall name :: name in floor ==> Commits(snapshots, name, floor[name]))
    && (forall i, name :: 0 <= i < |snapshots| && name in snapshots[i] ==>
          name in floor && floor[name] <= snapshots[i][name])
  }

  lemma FloorUnique(snapshots: seq<Metrics>, a: Metrics, b: Metrics)
    requires IsFloor(snapshots, a) && IsFloor(snapshots, b)
    ensures a == b
  {
    forall name | name in a
      ensures name in b && b[name] <= a[name]
    {
      assert Commits(snapshots, name, a[name]);
    }
    forall name | name in b
      ensures name in a && a[name] <= b[name]
    {
      assert Commits(snapshots, name, b[name]);
    }
  }

  /** The least of both values where both have one. */
  ghost predicate IsLowered(floor: Metrics, snapshot: Metrics, lowered: Metrics) {
    && lowered.Keys == floor.Keys + snapshot.Keys
    && forall name :: name in lowered ==>
         lowered[name] == (if name !in snapshot then floor[name]
                           else if name in floor && floor[name] <= snapshot[name] then floor[name]
                           else snapshot[name])
  }

  /** Lowers the floor by one snapshot, entry by entry. */
  method Lower(floor: Metrics, snapshot: Metrics) returns (lowered: Metrics)
    ensures IsLowered(floor, snapshot, lowered)
  {
    lowered := floor;
    var todo := snapshot.Keys;
    while todo != {}
      invariant todo <= snapshot.Keys && lowered.Keys == floor.Keys + (snapshot.Keys - todo)
      invariant forall name :: name in lowered ==>
        lowered[name] == (if name !in snapshot || name in todo then floor[name]
                          else if name in floor && floor[name] <= snapshot[name] then floor[name]
                          else snapshot[name])
    {
      var name :| name in todo;
      var known := if name in lowered then lowered[name] else snapshot[name];
      lowered := lowered[name := if known <= snapshot[name] then known else snapshot[name]];
      todo := todo - {name};
    }
  }

  lemma CommitsStep(snapshots: seq<Metrics>, next: Metrics, name: string, value: int)
    ensures Commits(snapshots + [next], name, value) <==>
            Commits(snapshots, name, value) || (name in next && next[name] == value)
  {
    var more := snapshots + [next];
    assert more[|snapshots|] == next;
    if i :| 0 <= i < |snapshots| && name in snapshots[i] && snapshots[i][name] == value {
      assert more[i] == snapshots[i];
    }
  }

  lemma LowerStep(snapshots: seq<Metrics>, next: Metrics, floor: Metrics, lowered: Metrics)
    requires IsFloor(snapshots, floor) && IsLowered(floor, next, lowered)
    ensures IsFloor(snapshots + [next], lowered)
  {
    forall name | name in lowered
      ensures Commits(snapshots + [next], name, lowered[name])
    {
      CommitsStep(snapshots, next, name, lowered[name]);
    }
    LoweredBounds(snapshots, next, floor, lowered);
  }

  lemma LoweredBounds(snapshots: seq<Metrics>, next: Metrics, floor: Metrics, lowered: Metrics)
    requires IsFloor(snapshots, floor) && IsLowered(floor, next, lowered)
    ensures var more := snapshots + [next];
            forall i, name :: 0 <= i < |more| && name in more[i] ==> name in lowered && lowered[name] <= more[i][name]
  {
    var more := snapshots + [next];
    forall i, name | 0 <= i < |more| && name in more[i]
      ensures name in lowered && lowered[name] <= more[i][name]
    {
      assert more[i] == if i < |snapshots| then snapshots[i] else next;
    }
  }

  /** The floor of all committed snapshots; none only before the first commit. */
  method LoadFloor(snapshots: seq<Metrics>, present: bool) returns (r: Result<Option<Metrics>, string>)
    ensures r.Err? <==> snapshots == [] && !present
    ensures r.Ok? ==> (r.value.None? <==> snapshots == [])
    ensures r.Ok? && r.value.Some? ==> IsFloor(snapshots, r.value.value)
  {
    if snapshots == [] {
      return if present then Ok(None) else Err("established architecture ratchet is missing from HEAD history");
    }
    var floor: Metrics := map[];
    for i := 0 to |snapshots|
      invariant IsFloor(snapshots[..i], floor)
    {
      var lowered := Lower(floor, snapshots[i]);
      LowerStep(snapshots[..i], snapshots[i], floor, lowered);
      assert snapshots[..i + 1] == snapshots[..i] + [snapshots[i]];
      floor := lowered;
    }
    assert snapshots[..|snapshots|] == snapshots;
    return Ok(Some(floor));
  }

  datatype Breach = Removed(name: string) | Grew(name: string, base: int, current: int)

  predicate IsBreach(base: Metrics, current: Metrics, b: Breach) {
    match b
    case Removed(name) => name in base && name !in current
    case Grew(name, before, after) =>
      name in base && name in current && base[name] == before && current[name] == after && after > before
  }

  /** The metrics of a baseline in order. */
  method SortMetrics(base: Metrics) returns (names: seq<string>)
    ensures forall name :: name in names <==> name in base
    ensures forall i, j :: 0 <= i < j < |names| ==> Less(names[i], names[j])
  {
    LessOrder();
    ListedSet(Less, base.Keys);
    names := InOrder(Less, multiset(base.Keys));
  }

  function BreachAt(base: Metrics, current: Metrics, name: string): (breaches: seq<Breach>)
    ensures forall b :: b in breaches <==> IsBreach(base, current, b) && b.name == name
    ensures |breaches| <= 1
  {
    if name !in base then []
    else if name !in current then [Removed(name)]
    else if current[name] > base[name] then [Grew(name, base[name], current[name])]
    else []
  }

  ghost predicate ByName(breaches: seq<Breach>) {
    forall i, j :: 0 <= i < j < |breaches| ==> Less(breaches[i].name, breaches[j].name)
  }

  lemma AppendBreach(breaches: seq<Breach>, more: seq<Breach>, names: seq<string>, i: nat)
    requires ByName(breaches) && |more| <= 1 && i < |names|
    requires forall j, k :: 0 <= j < k < |names| ==> Less(names[j], names[k])
    requires forall b :: b in breaches ==> b.name in names[..i]
    requires forall b :: b in more ==> b.name == names[i]
    ensures ByName(breaches + more) && forall b :: b in breaches + more ==> b.name in names[..i + 1]
  {
    assert names[..i + 1] == names[..i] + [names[i]];
    if more != [] {
      assert more == [more[0]] && more[0] in more;
      forall j | 0 <= j < |breaches|
        ensures Less(breaches[j].name, names[i])
      {
        assert breaches[j] in breaches;
        var k :| 0 <= k < i && names[..i][k] == breaches[j].name;
      }
    }
  }

  /** Exactly the metrics that were removed or grew, by name. */
  method DirectionViolations(base: Metrics, current: Metrics) returns (breaches: seq<Breach>)
    ensures forall b :: b in breaches <==> IsBreach(base, current, b)
    ensures ByName(breaches)
  {
    breaches := [];
    var names := SortMetrics(base);
    for i := 0 to |names|
      invariant forall b :: b in breaches <==> IsBreach(base, current, b) && b.name in names[..i]
      invariant ByName(breaches)
    {
      var name := names[i];
      assert name in names;
      var more: seq<Breach> := [];
      if name !in current {
        more := [Removed(name)];
      } else if current[name] > base[name] {
        more := [Grew(name, base[name], current[name])];
      }
      assert more == BreachAt(base, current, name);
      AppendBreach(breaches, more, names, i);
      breaches := breaches + more;
    }
    assert names[..|names|] == names;
  }

  ghost predicate Passes(base: Metrics, current: Metrics) {
    forall b :: !IsBreach(base, current, b)
  }

  lemma PassesExactly(base: Metrics, current: Metrics)
    ensures Passes(base, current) <==> forall name :: name in base ==> name in current && current[name] <= base[name]
  {
    forall name | name in base && Passes(base, current)
      ensures name in current && current[name] <= base[name]
    {
      assert !IsBreach(base, current, Removed(name));
      if name in current {
        assert !IsBreach(base, current, Grew(name, base[name], current[name]));
      }
    }
  }

  /** One comparison with the floor decides what comparisons with all snapshots would. */
  lemma FloorDecidesHistory(snapshots: seq<Metrics>, floor: Metrics, current: Metrics)
    requires IsFloor(snapshots, floor)
    ensures Passes(floor, current) <==> forall i :: 0 <= i < |snapshots| ==> Passes(snapshots[i], current)
  {
    PassesExactly(floor, current);
    forall i | 0 <= i < |snapshots|
      ensures Passes(snapshots[i], current) <==>
              forall name :: name in snapshots[i] ==> name in current && current[name] <= snapshots[i][name]
    {
      PassesExactly(snapshots[i], current);
    }
    if forall i :: 0 <= i < |snapshots| ==> Passes(snapshots[i], current) {
      forall name | name in floor
        ensures name in current && current[name] <= floor[name]
      {
        assert Commits(snapshots, name, floor[name]);
      }
    }
  }

  /** The order of the snapshots, and repeats among them, do not matter. */
  lemma FloorIgnoresOrder(a: seq<Metrics>, b: seq<Metrics>, x: Metrics, y: Metrics)
    requires IsFloor(a, x) && IsFloor(b, y) && forall s :: s in a <==> s in b
    ensures x == y
  {
    forall name | name in x
      ensures Commits(b, name, x[name])
    {
      var i :| 0 <= i < |a| && name in a[i] && a[i][name] == x[name];
      assert a[i] in b;
      var j :| 0 <= j < |b| && b[j] == a[i];
    }
    forall j, name | 0 <= j < |b| && name in b[j]
      ensures name in x && x[name] <= b[j][name]
    {
      assert b[j] in a;
      var i :| 0 <= i < |a| && a[i] == b[j];
    }
    FloorUnique(b, x, y);
  }

  /** Another snapshot removes no metric from the floor and raises none. */
  lemma FloorNeverRises(snapshots: seq<Metrics>, next: Metrics, floor: Metrics, later: Metrics)
    requires IsFloor(snapshots, floor) && IsFloor(snapshots + [next], later)
    ensures floor.Keys <= later.Keys && forall name :: name in floor ==> later[name] <= floor[name]
  {
    forall name | name in floor
      ensures name in later && later[name] <= floor[name]
    {
      var i :| 0 <= i < |snapshots| && name in snapshots[i] && snapshots[i][name] == floor[name];
      assert (snapshots + [next])[i] == snapshots[i];
    }
  }

  /** Once a baseline that passes is committed, it is the floor. */
  lemma PassingBaselineIsNextFloor(snapshots: seq<Metrics>, floor: Metrics, current: Metrics)
    requires IsFloor(snapshots, floor)
    ensures Passes(floor, current) <==> IsFloor(snapshots + [current], current)
  {
    PassesExactly(floor, current);
    var more := snapshots + [current];
    assert more[|snapshots|] == current && forall i :: 0 <= i < |snapshots| ==> more[i] == snapshots[i];
    assert forall name :: name in current ==> Commits(more, name, current[name]);
    if IsFloor(more, current) {
      forall name | name in floor
        ensures name in current && current[name] <= floor[name]
      {
        var i :| 0 <= i < |snapshots| && name in snapshots[i] && snapshots[i][name] == floor[name];
        assert more[i] == snapshots[i];
      }
    }
  }
}
