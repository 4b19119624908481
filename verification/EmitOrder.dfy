// The ratchet orders artifacts: acceptance along a chain of artifacts.

module EmitOrder {
  import opened Wrappers
  import opened EmitRows
  import opened Subsequence
  import opened EmitGate

  /** Whether the payload rule composes: it fails exactly when an outcome vanishes in the
      middle and the last surface, which has none either, does not pass. */
  lemma PayloadComposes(a: Option<Surface>, b: Surface, c: Surface)
    requires PayloadHeld(a, b) && PayloadHeld(Some(b), c)
    ensures PayloadHeld(a, c) <==>
            !(a.Some? && a.value.codes.Some? && b.codes.None? && c.codes.None? && c.status != Pass)
  {
    if c.codes.Some? && c.codes.value != [] {
      SubTransitive(c.codes.value, b.codes.value, CodesOf(if a.Some? then a.value.codes else None));
    }
  }

  lemma PayloadTransitive(side: Side, a: Option<Surface>, b: Surface, c: Surface)
    requires PayloadHeld(a, b) && PayloadHeld(Some(b), c)
    requires !IsStatusRegression(Product(side), b.status, c.status)
    ensures PayloadHeld(a, c)
  {
    PayloadComposes(a, b, c);
  }

  lemma SurfaceTransitive(side: Side, a: Surface, b: Surface, c: Surface)
    requires a.status in PRODUCT_STATUSES && b.status in PRODUCT_STATUSES && c.status in PRODUCT_STATUSES
    requires SurfaceHeld(side, a, b) && SurfaceHeld(side, b, c)
    ensures SurfaceHeld(side, a, c)
  {
    StatusOrder(Product(side), a.status, b.status, c.status);
  }

  lemma RowTransitive(a: Option<View>, b: View, c: View)
    requires (a.Some? ==> ViewOk(a.value)) && ViewOk(b) && ViewOk(c)
    requires RowHeld(a, b) && RowHeld(Some(b), c)
    ensures RowHeld(a, c)
  {
    PayloadTransitive(JS, Before(a, JS), b.js, c.js);
    PayloadTransitive(DTS, Before(a, DTS), b.dts, c.dts);
    if a.Some? {
      StatusOrder(Artifact, a.value.artifact, b.artifact, c.artifact);
      SurfaceTransitive(JS, a.value.js, b.js, c.js);
      SurfaceTransitive(DTS, a.value.dts, b.dts, c.dts);
    }
  }

  lemma SurfaceReflexive(side: Side, s: Surface)
    ensures SurfaceHeld(side, s, s) && PayloadHeld(Some(s), s)
  {
    SubReflexive(CodesOf(s.codes));
  }

  lemma Reflexive(table: Table, strict: bool)
    ensures Accepts(table, table, strict)
  {
    forall key | key in table
      ensures RowHeld(Some(table[key]), table[key])
    {
      SurfaceReflexive(JS, table[key].js);
      SurfaceReflexive(DTS, table[key].dts);
    }
  }

  /** Two accepted steps compose exactly when the rows that skipped the artifact in
      the middle compare directly. */
  lemma StepsCompose(a: Table, b: Table, c: Table, strict: bool)
    requires TableOk(a) && TableOk(b) && TableOk(c)
    requires Accepts(a, b, strict) && Accepts(b, c, strict)
    ensures Accepts(a, c, strict) <==> forall key :: key in a && key in c && key !in b ==> RowHeld(Some(a[key]), c[key])
  {
    forall key | key in c && (key in b || key !in a)
      ensures RowHeld(Find(a, key), c[key])
    {
      assert RowHeld(Find(b, key), c[key]);
      if key in b {
        assert RowHeld(Find(a, key), b[key]);
        RowTransitive(Find(a, key), b[key], c[key]);
      }
    }
  }

  /** With absent rows rejected the gate is transitive. */
  lemma Transitive(a: Table, b: Table, c: Table)
    requires TableOk(a) && TableOk(b) && TableOk(c)
    requires Accepts(a, b, true) && Accepts(b, c, true)
    ensures Accepts(a, c, true)
  {
    StepsCompose(a, b, c, true);
  }

  ghost predicate SurfacesAgree(side: Side, a: Surface, b: Surface) {
    SurfaceHeld(side, a, b) && SurfaceHeld(side, b, a) && PayloadHeld(Some(a), b) && PayloadHeld(Some(b), a)
  }

  /** Surfaces that accept each other differ exactly when both pass and only one of them
      carries an outcome, an empty one. */
  lemma SurfacesDiffer(side: Side, a: Surface, b: Surface)
    requires a.status in PRODUCT_STATUSES && b.status in PRODUCT_STATUSES && SurfacesAgree(side, a, b)
    ensures a == b <==> (a.codes.None? <==> b.codes.None?)
    ensures a != b ==> a.status == b.status == Pass && {a.codes, b.codes} == {None, Some([])}
  {
    StatusOrder(Product(side), a.status, b.status, a.status);
    if a.codes.Some? && b.codes.Some? && a.codes.value != [] && b.codes.value != [] {
      SubAntisymmetric(a.codes.value, b.codes.value);
    }
  }

  predicate InDomains(v: View) {
    v.artifact in ARTIFACT_STATUSES && v.js.status in PRODUCT_STATUSES && v.dts.status in PRODUCT_STATUSES
  }

  predicate SameOutcomes(a: View, b: View) {
    (a.js.codes.None? <==> b.js.codes.None?) && (a.dts.codes.None? <==> b.dts.codes.None?)
  }

  /** Two tables that accept each other, whatever the payloads of passed surfaces, are the
      same table exactly when the same surfaces carry outcomes. */
  lemma MutualTables(a: Table, b: Table)
    requires forall key :: key in a ==> InDomains(a[key])
    requires forall key :: key in b ==> InDomains(b[key])
    requires Accepts(a, b, true) && Accepts(b, a, true)
    ensures a == b <==> forall key :: key in a && key in b ==> SameOutcomes(a[key], b[key])
  {
    assert a.Keys == b.Keys;
    forall key | key in a
      ensures a[key] == b[key] <==> SameOutcomes(a[key], b[key])
    {
      assert RowHeld(Find(a, key), b[key]) && RowHeld(Find(b, key), a[key]);
      StatusOrder(Artifact, a[key].artifact, b[key].artifact, a[key].artifact);
      SurfacesDiffer(JS, a[key].js, b[key].js);
      SurfacesDiffer(DTS, a[key].dts, b[key].dts);
    }
  }

  /** On validated tables, where passed and skipped surfaces carry no payload, that is
      always so: two tables that accept each other are the same table. */
  lemma Antisymmetric(a: Table, b: Table)
    requires TableOk(a) && TableOk(b)
    requires Accepts(a, b, true) && Accepts(b, a, true)
    ensures a == b
  {
    assert a.Keys == b.Keys;
    MutualTables(a, b);
    forall key | key in a
      ensures SameOutcomes(a[key], b[key])
    {
      assert RowHeld(Find(a, key), b[key]) && RowHeld(Find(b, key), a[key]);
      SurfacesDiffer(JS, a[key].js, b[key].js);
      SurfacesDiffer(DTS, a[key].dts, b[key].dts);
    }
  }

  /** Accepted steps accept every ancestor. */
  lemma {:induction false} ChainAccepted(chain: seq<Table>, i: nat, j: nat)
    requires forall k :: 0 <= k < |chain| ==> TableOk(chain[k])
    requires forall k, n :: 0 <= k < n < |chain| && n == k + 1 ==> Accepts(chain[k], chain[n], true)
    requires i <= j < |chain|
    ensures Accepts(chain[i], chain[j], true)
    decreases j - i
  {
    if i == j {
      Reflexive(chain[i], true);
    } else {
      ChainAccepted(chain, i, j - 1);
      Transitive(chain[i], chain[j - 1], chain[j]);
    }
  }

  // ------------------------------------------------------- where the rules bite

  const SAMPLE_KEY := Key("t.ts", "t.js", "t")

  function Sample(artifact: Status, status: Status, codes: Option<seq<string>>): View {
    View(artifact, Surface(status, false, codes), Surface(Skip, false, None))
  }

  /** Without the rule on absent rows a row may leave and come back worse. */
  lemma AbsentRowsBreakTransitivity()
    ensures var a := map[SAMPLE_KEY := Sample(Complete, Pass, None)];
            var b: Table := map[];
            var c := map[SAMPLE_KEY := Sample(Complete, Failing, None)];
            && TableOk(a) && TableOk(b) && TableOk(c)
            && Accepts(a, b, false) && Accepts(b, c, false) && !Accepts(a, c, false)
  {
    var a, c := map[SAMPLE_KEY := Sample(Complete, Pass, None)], map[SAMPLE_KEY := Sample(Complete, Failing, None)];
    assert SAMPLE_KEY in c && !RowHeld(Find(a, SAMPLE_KEY), c[SAMPLE_KEY]);
  }

  /** The payload rule by itself lets an outcome vanish through a pass. */
  lemma PayloadAloneIsNotTransitive()
    ensures var a, b, c := Surface(Failing, false, Some(["TS1"])), Surface(Pass, false, None), Surface(Failing, false, None);
            && SurfaceOk(Complete, a) && SurfaceOk(Complete, b) && SurfaceOk(Complete, c)
            && PayloadHeld(Some(a), b) && PayloadHeld(Some(b), c) && !PayloadHeld(Some(a), c)
  {
    assert IsCode("TS1");
  }

  /** A passed surface with an empty outcome would accept, and be accepted by, one
      without. */
  lemma PassPayloadBreaksAntisymmetry()
    ensures var a, b := map[SAMPLE_KEY := Sample(Complete, Pass, Some([]))], map[SAMPLE_KEY := Sample(Complete, Pass, None)];
            TableOk(b) && !TableOk(a) && a != b && Accepts(a, b, true) && Accepts(b, a, true)
  {
    var a, b := map[SAMPLE_KEY := Sample(Complete, Pass, Some([]))], map[SAMPLE_KEY := Sample(Complete, Pass, None)];
    assert !ViewOk(a[SAMPLE_KEY]);
    assert a[SAMPLE_KEY] != b[SAMPLE_KEY];
  }

  // -------------------------------------------------------------------- no swap

  ghost function WithStatus(table: Table, keys: set<Key>, side: Side, statuses: set<Status>): set<Key> {
    set key | key in keys && key in table && SurfaceAt(table[key], side).status in statuses
  }

  const FAILING: set<Status> := {Failing, Timeout, Crash}

  lemma RowKeepsItsClass(baseline: Table, current: Table, key: Key, side: Side)
    requires Accepts(baseline, current, true) && key in baseline
    ensures key in current
    ensures SurfaceAt(current[key], side).status in FAILING ==> SurfaceAt(baseline[key], side).status in FAILING
    ensures SurfaceAt(baseline[key], side).status == Pass ==> SurfaceAt(current[key], side).status == Pass
  {
    assert key in current.Keys;
    assert RowHeld(Find(baseline, key), current[key]);
    assert side == JS || side == DTS;
  }

  /** An accepted run hides no swap: rows failing now failed before, and the rows that
      passed still pass. */
  lemma NoSwap(baseline: Table, current: Table, side: Side)
    requires Accepts(baseline, current, true)
    ensures WithStatus(current, baseline.Keys, side, FAILING) <= WithStatus(baseline, baseline.Keys, side, FAILING)
    ensures WithStatus(baseline, baseline.Keys, side, {Pass}) <= WithStatus(current, baseline.Keys, side, {Pass})
    ensures |WithStatus(baseline, baseline.Keys, side, {Pass})| <= |WithStatus(current, current.Keys, side, {Pass})|
  {
    forall key | key in baseline
      ensures key in WithStatus(current, baseline.Keys, side, FAILING) ==> key in WithStatus(baseline, baseline.Keys, side, FAILING)
      ensures key in WithStatus(baseline, baseline.Keys, side, {Pass}) ==> key in WithStatus(current, baseline.Keys, side, {Pass})
    {
      RowKeepsItsClass(baseline, current, key, side);
    }
    assert baseline.Keys <= current.Keys;
    assert WithStatus(current, baseline.Keys, side, {Pass}) <= WithStatus(current, current.Keys, side, {Pass});
    SubsetCount(WithStatus(baseline, baseline.Keys, side, {Pass}), WithStatus(current, current.Keys, side, {Pass}));
  }

  /** A code may not become more frequent, in any row of any accepted run, whether or not
      baseline rows are missing. */
  lemma NoCodeGained(baseline: Table, current: Table, strict: bool, key: Key, side: Side)
    requires Accepts(baseline, current, strict) && key in current
    ensures var before, after := Before(Find(baseline, key), side), SurfaceAt(current[key], side);
            multiset(CodesOf(after.codes)) <= multiset(CodesOf(if before.Some? then before.value.codes else None))
  {
    assert RowHeld(Find(baseline, key), current[key]);
    var before, after := Before(Find(baseline, key), side), SurfaceAt(current[key], side);
    assert side == JS || side == DTS;
    if after.codes.Some? && after.codes.value != [] {
      SubShrinks(after.codes.value, before.value.codes.value);
    }
  }
}
