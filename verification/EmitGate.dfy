// The emit ratchet: which artifact may follow which. `is_status_regression` and the
// `find_*` passes of scripts/ci/check-emit-regression-set.py.

module EmitGate {
  import opened Wrappers
  import opened Text
  import opened Sorting
  import opened EmitRows
  import opened Subsequence

  // ------------------------------------------------------------- the statuses

  datatype Kind = Artifact | Product(side: Side)

  predicate IsStatusRegression(kind: Kind, baseline: Status, current: Status) {
    if baseline == current then false
    else if kind == Artifact then
      if current == Complete then false
      else if baseline == Complete then true
      else if baseline == Incomplete && current == Unsupported then true
      else current in {Timeout, Crash}
    else if current == Pass then false
    else if baseline == Pass then true
    else if current == Skip then baseline != Skip
    else if current == Unsupported && baseline in {Failing, Incomplete} then true
    else if current == Failing then baseline !in {Failing, Crash, Timeout}
    else if current in {Timeout, Crash} then true
    else if baseline == Failing && current == Incomplete then true
    else baseline == Incomplete
  }

  /** The permitted moves, as a table. */
  predicate MayBecome(kind: Kind, from: Status, to: Status) {
    || from == to
    || (kind == Artifact &&
        (|| to == Complete
         || (from in {Crash, Timeout} && to in {Incomplete, Unsupported})
         || (from == Unsupported && to == Incomplete)))
    || (kind != Artifact &&
        (|| to == Pass
         || (from in {Crash, Timeout} && to in {Failing, Unsupported, Incomplete})
         || (from == Skip && to in {Unsupported, Incomplete})
         || (from == Unsupported && to == Incomplete)))
  }

  predicate InDomain(kind: Kind, s: Status) {
    if kind == Artifact then s in ARTIFACT_STATUSES else s in PRODUCT_STATUSES
  }

  /** The tests in order decide exactly the table, which is a partial order. */
  lemma StatusOrder(kind: Kind, a: Status, b: Status, c: Status)
    requires InDomain(kind, a) && InDomain(kind, b) && InDomain(kind, c)
    ensures !IsStatusRegression(kind, a, b) <==> MayBecome(kind, a, b)
    ensures !IsStatusRegression(kind, a, b) && !IsStatusRegression(kind, b, c) ==> !IsStatusRegression(kind, a, c)
    ensures !IsStatusRegression(kind, a, b) && !IsStatusRegression(kind, b, a) ==> a == b
  {
    match a
    case Complete => case Crash => case Failing => case Incomplete =>
    case Pass => case Skip => case Timeout => case Unsupported =>
  }

  // ---------------------------------------------------- what a row pair breaks

  function SurfaceAt(v: View, side: Side): Surface {
    if side.JS? then v.js else v.dts
  }

  function StatusAt(v: View, kind: Kind): Status {
    if kind == Artifact then v.artifact else SurfaceAt(v, kind.side).status
  }

  /** A typed outcome is kept: codes may only be deleted, and the outcome itself
      may vanish only by passing. */
  predicate PayloadHeld(baseline: Option<Surface>, current: Surface) {
    var prior := if baseline.Some? then baseline.value.codes else None;
    if current.codes.None? then prior.None? || current.status == Pass
    else current.codes.value == [] || (prior.Some? && Sub(current.codes.value, prior.value))
  }

  datatype StatusLoss = StatusLoss(key: Key, kind: Kind, before: Status, after: Status)

  datatype ParityLoss = ParityLoss(key: Key, side: Side)

  datatype PayloadLoss = PayloadLoss(
    key: Key, side: Side, before: Option<seq<string>>, after: Option<seq<string>>, added: seq<string>)

  predicate IsStatusLoss(baseline: Table, current: Table, loss: StatusLoss) {
    && loss.key in baseline && loss.key in current
    && loss.before == StatusAt(baseline[loss.key], loss.kind)
    && loss.after == StatusAt(current[loss.key], loss.kind)
    && IsStatusRegression(loss.kind, loss.before, loss.after)
  }

  predicate IsParityLoss(baseline: Table, current: Table, loss: ParityLoss) {
    && loss.key in baseline && loss.key in current
    && SurfaceAt(baseline[loss.key], loss.side).parity && !SurfaceAt(current[loss.key], loss.side).parity
  }

  function Find(table: Table, key: Key): Option<View> {
    if key in table then Some(table[key]) else None
  }

  function Before(baseline: Option<View>, side: Side): Option<Surface> {
    if baseline.Some? then Some(SurfaceAt(baseline.value, side)) else None
  }

  function CodesOf(codes: Option<seq<string>>): seq<string> {
    if codes.Some? then codes.value else []
  }

  /** The codes gained, repeated ones included, in ascending order. */
  ghost function Gained(after: Option<seq<string>>, before: Option<seq<string>>): seq<string> {
    Listed(Less, multiset(CodesOf(after)) - multiset(CodesOf(before)))
  }

  /** The report on one surface, with the codes it gained. */
  ghost function PayloadLossAt(key: Key, side: Side, baseline: Option<Surface>, current: Surface): Option<PayloadLoss> {
    var prior := if baseline.Some? then baseline.value.codes else None;
    if PayloadHeld(baseline, current) then None
    else Some(PayloadLoss(key, side, prior, current.codes, Gained(current.codes, prior)))
  }

  ghost predicate IsPayloadLossOf(key: Key, baseline: Option<View>, current: View, loss: PayloadLoss) {
    && loss.key == key
    && PayloadLossAt(key, loss.side, Before(baseline, loss.side), SurfaceAt(current, loss.side)) == Some(loss)
  }

  ghost predicate IsPayloadLoss(baseline: Table, current: Table, loss: PayloadLoss) {
    loss.key in current && IsPayloadLossOf(loss.key, Find(baseline, loss.key), current[loss.key], loss)
  }

  // ---------------------------------------------------------- the order of reports

  function Components(key: Key): seq<string> {
    [key.testPath, key.baselineFile, key.name]
  }

  predicate KeyLess(a: Key, b: Key) {
    LexLess(Less, Components(a), Components(b))
  }

  lemma KeyOrder()
    ensures TotalOrder(KeyLess)
  {
    LessOrder();
    LexOrder(Less);
    var less := Lex(Less);
    assert forall a, b :: KeyLess(a, b) <==> less(Components(a), Components(b));
    forall a, b
      ensures KeyLess(a, b) || a == b || KeyLess(b, a)
    {
      if Components(a) == Components(b) {
        assert a == Key(Components(a)[0], Components(a)[1], Components(a)[2]);
        assert b == Key(Components(b)[0], Components(b)[1], Components(b)[2]);
      }
    }
  }

  /** The rows of a table in the order they are compared. */
  method SortKeys(table: Table) returns (keys: seq<Key>)
    ensures forall key :: key in keys <==> key in table
    ensures forall i, j :: 0 <= i < j < |keys| ==> KeyLess(keys[i], keys[j])
  {
    KeyOrder();
    ListedSet(KeyLess, table.Keys);
    keys := InOrder(KeyLess, multiset(table.Keys));
  }

  /** Where a report stands: by row, and within a row by surface. */
  datatype Place = Place(key: Key, rank: nat)

  predicate Earlier(a: Place, b: Place) {
    KeyLess(a.key, b.key) || (a.key == b.key && a.rank < b.rank)
  }

  ghost predicate InReportOrder<T>(at: T -> Place, reports: seq<T>) {
    forall i, j :: 0 <= i < j < |reports| ==> Earlier(at(reports[i]), at(reports[j]))
  }

  ghost predicate AllBefore<T>(at: T -> Place, reports: seq<T>, keys: seq<Key>, n: nat) {
    forall r, m :: r in reports && n <= m < |keys| ==> KeyLess(at(r).key, keys[m])
  }

  lemma AppendRow<T>(at: T -> Place, reports: seq<T>, found: seq<T>, keys: seq<Key>, n: nat)
    requires InReportOrder(at, reports) && InReportOrder(at, found) && n < |keys| && AllBefore(at, reports, keys, n)
    requires forall r :: r in found ==> at(r).key == keys[n]
    requires forall i, j :: 0 <= i < j < |keys| ==> KeyLess(keys[i], keys[j])
    ensures InReportOrder(at, reports + found) && AllBefore(at, reports + found, keys, n + 1)
  {
    var all := reports + found;
    forall i, j | 0 <= i < j < |all|
      ensures Earlier(at(all[i]), at(all[j]))
    {
      if i < |reports| <= j {
        assert all[i] in reports && all[j] in found;
      } else if j < |reports| {
        assert all[i] == reports[i] && all[j] == reports[j];
      } else {
        assert all[i] == found[i - |reports|] && all[j] == found[j - |reports|];
      }
    }
  }

  lemma AppendLater<T>(at: T -> Place, reports: seq<T>, r: T)
    requires InReportOrder(at, reports) && forall other :: other in reports ==> Earlier(at(other), at(r))
    ensures InReportOrder(at, reports + [r])
  {
    forall i | 0 <= i < |reports|
      ensures Earlier(at(reports[i]), at(r))
    {
      assert reports[i] in reports;
    }
  }

  function RankOf(kind: Kind): nat {
    if kind == Artifact then 0 else if kind.side == JS then 1 else 2
  }

  function PlaceOfStatus(l: StatusLoss): Place {
    Place(l.key, RankOf(l.kind))
  }

  function PlaceOfParity(l: ParityLoss): Place {
    Place(l.key, RankOf(Product(l.side)))
  }

  function PlaceOfPayload(l: PayloadLoss): Place {
    Place(l.key, RankOf(Product(l.side)))
  }

  /** The regressed statuses of one row. */
  method CheckStatuses(baseline: Table, current: Table, key: Key) returns (losses: seq<StatusLoss>)
    requires key in baseline && key in current
    ensures forall loss :: loss in losses <==> IsStatusLoss(baseline, current, loss) && loss.key == key
    ensures InReportOrder(PlaceOfStatus, losses)
  {
    losses := [];
    var kinds := [Artifact, Product(JS), Product(DTS)];
    for k := 0 to 3
      invariant forall loss :: loss in losses <==>
          IsStatusLoss(baseline, current, loss) && loss.key == key && RankOf(loss.kind) < k
      invariant InReportOrder(PlaceOfStatus, losses)
    {
      var before, after := StatusAt(baseline[key], kinds[k]), StatusAt(current[key], kinds[k]);
      assert forall kind: Kind :: RankOf(kind) == k <==> kind == kinds[k];
      if IsStatusRegression(kinds[k], before, after) {
        var loss := StatusLoss(key, kinds[k], before, after);
        AppendLater(PlaceOfStatus, losses, loss);
        losses := losses + [loss];
      }
    }
  }

  /** Exactly the regressed statuses of rows both tables have, by row and kind. */
  method FindRegressions(baseline: Table, current: Table) returns (losses: seq<StatusLoss>)
    ensures forall loss :: loss in losses <==> IsStatusLoss(baseline, current, loss)
    ensures InReportOrder(PlaceOfStatus, losses)
  {
    losses := [];
    var keys := SortKeys(current);
    for n := 0 to |keys|
      invariant forall loss :: loss in losses <==> IsStatusLoss(baseline, current, loss) && loss.key in keys[..n]
      invariant InReportOrder(PlaceOfStatus, losses) && AllBefore(PlaceOfStatus, losses, keys, n)
    {
      var key := keys[n];
      assert key in keys;
      var found: seq<StatusLoss> := [];
      if key in baseline {
        found := CheckStatuses(baseline, current, key);
      }
      AppendRow(PlaceOfStatus, losses, found, keys, n);
      losses := losses + found;
    }
  }

  /** The surfaces of one row that lost proven parity. */
  method CheckParities(baseline: Table, current: Table, key: Key) returns (losses: seq<ParityLoss>)
    requires key in baseline && key in current
    ensures forall loss :: loss in losses <==> IsParityLoss(baseline, current, loss) && loss.key == key
    ensures InReportOrder(PlaceOfParity, losses)
  {
    losses := [];
    if baseline[key].js.parity && !current[key].js.parity {
      losses := [ParityLoss(key, JS)];
    }
    if baseline[key].dts.parity && !current[key].dts.parity {
      losses := losses + [ParityLoss(key, DTS)];
    }
  }

  /** Exactly the surfaces that lost proven parity, by row and surface. */
  method FindProductParityRegressions(baseline: Table, current: Table) returns (losses: seq<ParityLoss>)
    ensures forall loss :: loss in losses <==> IsParityLoss(baseline, current, loss)
    ensures InReportOrder(PlaceOfParity, losses)
  {
    losses := [];
    var keys := SortKeys(current);
    for n := 0 to |keys|
      invariant forall loss :: loss in losses <==> IsParityLoss(baseline, current, loss) && loss.key in keys[..n]
      invariant InReportOrder(PlaceOfParity, losses) && AllBefore(PlaceOfParity, losses, keys, n)
    {
      var key := keys[n];
      assert key in keys;
      var found: seq<ParityLoss> := [];
      if key in baseline {
        found := CheckParities(baseline, current, key);
      }
      AppendRow(PlaceOfParity, losses, found, keys, n);
      losses := losses + found;
    }
  }

  /** One surface of one row, with the order of the tests in the source. */
  method CheckPayload(key: Key, side: Side, baseline: Option<Surface>, current: Surface) returns (loss: Option<PayloadLoss>)
    ensures loss == PayloadLossAt(key, side, baseline, current)
  {
    var prior := if baseline.Some? then baseline.value.codes else None;
    LessOrder();
    if current.codes.None? {
      if prior.Some? && current.status != Pass {
        NothingGained(prior);
        return Some(PayloadLoss(key, side, prior, None, []));
      }
      return None;
    }
    if current.codes.value == [] {
      return None;
    }
    if prior.Some? {
      var kept := IsOrderedSubsequence(current.codes.value, prior.value);
      if kept {
        return None;
      }
    }
    var added := InOrder(Less, multiset(current.codes.value) - multiset(CodesOf(prior)));
    return Some(PayloadLoss(key, side, prior, current.codes, added));
  }

  lemma NothingGained(before: Option<seq<string>>)
    ensures Gained(None, before) == []
  {
    assert multiset(CodesOf(None)) - multiset(CodesOf(before)) == multiset{};
  }

  lemma LossOfOneSurface(key: Key, baseline: Option<View>, current: View, loss: PayloadLoss, side: Side)
    requires PayloadLossAt(key, side, Before(baseline, side), SurfaceAt(current, side)) == Some(loss)
    ensures loss.key == key && loss.side == side
  {
  }

  /** Both surfaces of one row. */
  method CheckPayloads(key: Key, baseline: Option<View>, current: View) returns (losses: seq<PayloadLoss>)
    ensures forall loss :: loss in losses <==> IsPayloadLossOf(key, baseline, current, loss)
    ensures InReportOrder(PlaceOfPayload, losses)
  {
    losses := [];
    var sides := [JS, DTS];
    for k := 0 to 2
      invariant forall loss :: loss in losses <==>
          IsPayloadLossOf(key, baseline, current, loss) && RankOf(Product(loss.side)) <= k
      invariant InReportOrder(PlaceOfPayload, losses)
    {
      var side := sides[k];
      assert forall other: Side :: RankOf(Product(other)) == k + 1 <==> other == side;
      var loss := CheckPayload(key, side, Before(baseline, side), SurfaceAt(current, side));
      if loss.Some? {
        LossOfOneSurface(key, baseline, current, loss.value, side);
        AppendLater(PlaceOfPayload, losses, loss.value);
        losses := losses + [loss.value];
      }
    }
  }

  /** Exactly the outcomes that grew, were reordered or were dropped, by row and surface. */
  method FindPayloadRegressions(baseline: Table, current: Table) returns (losses: seq<PayloadLoss>)
    ensures forall loss :: loss in losses <==> IsPayloadLoss(baseline, current, loss)
    ensures InReportOrder(PlaceOfPayload, losses)
  {
    losses := [];
    var keys := SortKeys(current);
    for n := 0 to |keys|
      invariant forall loss :: loss in losses <==> IsPayloadLoss(baseline, current, loss) && loss.key in keys[..n]
      invariant InReportOrder(PlaceOfPayload, losses) && AllBefore(PlaceOfPayload, losses, keys, n)
    {
      var key := keys[n];
      assert key in keys;
      var found := CheckPayloads(key, Find(baseline, key), current[key]);
      AppendRow(PlaceOfPayload, losses, found, keys, n);
      losses := losses + found;
    }
  }

  /** Baseline rows that were not reported, in order. */
  method FindAbsent(baseline: Table, current: Table) returns (absent: seq<Key>)
    ensures forall key :: key in absent <==> key in baseline && key !in current
    ensures forall i, j :: 0 <= i < j < |absent| ==> KeyLess(absent[i], absent[j])
  {
    var missing := set key | key in baseline && key !in current;
    KeyOrder();
    ListedSet(KeyLess, missing);
    absent := InOrder(KeyLess, multiset(missing));
  }

  lemma NotBothEarlier(a: Place, b: Place)
    ensures !(Earlier(a, b) && Earlier(b, a))
  {
    KeyOrder();
  }

  lemma FirstAgrees<T>(at: T -> Place, a: seq<T>, b: seq<T>)
    requires InReportOrder(at, a) && InReportOrder(at, b) && a != [] && b != [] && forall r :: r in a <==> r in b
    ensures a[0] == b[0]
  {
    assert a[0] in b && b[0] in a;
    var i :| 0 <= i < |b| && b[i] == a[0];
    var j :| 0 <= j < |a| && a[j] == b[0];
    NotBothEarlier(at(a[0]), at(b[0]));
  }

  lemma RestAgrees<T>(at: T -> Place, a: seq<T>, b: seq<T>)
    requires InReportOrder(at, a) && InReportOrder(at, b) && a != [] && b != [] && forall r :: r in a <==> r in b
    requires a[0] == b[0]
    ensures forall r :: r in a[1..] <==> r in b[1..]
  {
    NotBothEarlier(at(a[0]), at(a[0]));
    assert a == [a[0]] + a[1..] && b == [b[0]] + b[1..];
    assert forall r :: r in a <==> r == a[0] || r in a[1..];
    assert forall r :: r in b <==> r == b[0] || r in b[1..];
  }

  /** A listing in this order is determined by what it lists. */
  lemma {:induction false} ReportOrderUnique<T>(at: T -> Place, a: seq<T>, b: seq<T>)
    requires InReportOrder(at, a) && InReportOrder(at, b) && forall r :: r in a <==> r in b
    ensures a == b
  {
    assert a != [] ==> a[0] in b;
    assert b != [] ==> b[0] in a;
    if a != [] && b != [] {
      FirstAgrees(at, a, b);
      RestAgrees(at, a, b);
      ReportOrderUnique(at, a[1..], b[1..]);
      assert a == [a[0]] + a[1..] && b == [b[0]] + b[1..];
    }
  }

  // -------------------------------------------------------- the row comparison

  predicate RowHeld(baseline: Option<View>, current: View) {
    && (baseline.Some? ==>
          && !IsStatusRegression(Artifact, baseline.value.artifact, current.artifact)
          && SurfaceHeld(JS, baseline.value.js, current.js) && SurfaceHeld(DTS, baseline.value.dts, current.dts))
    && PayloadHeld(Before(baseline, JS), current.js) && PayloadHeld(Before(baseline, DTS), current.dts)
  }

  predicate SurfaceHeld(side: Side, baseline: Surface, current: Surface) {
    && !IsStatusRegression(Product(side), baseline.status, current.status)
    && (baseline.parity ==> current.parity)
  }

  /** No row regresses, and a strict comparison misses no baseline row. */
  ghost predicate Accepts(baseline: Table, current: Table, strict: bool) {
    && (strict ==> baseline.Keys <= current.Keys)
    && forall key :: key in current ==> RowHeld(Find(baseline, key), current[key])
  }

  lemma LossesBreak(baseline: Table, current: Table, key: Key)
    requires key in current && !RowHeld(Find(baseline, key), current[key])
    ensures (exists l :: IsStatusLoss(baseline, current, l)) || (exists l :: IsParityLoss(baseline, current, l))
            || (exists l :: IsPayloadLoss(baseline, current, l))
  {
    var after := current[key];
    if key in baseline {
      var before := baseline[key];
      assert IsStatusRegression(Artifact, before.artifact, after.artifact) ==>
          IsStatusLoss(baseline, current, StatusLoss(key, Artifact, before.artifact, after.artifact));
      forall side: Side
        ensures IsStatusRegression(Product(side), SurfaceAt(before, side).status, SurfaceAt(after, side).status) ==>
                  IsStatusLoss(baseline, current, StatusLoss(key, Product(side), SurfaceAt(before, side).status, SurfaceAt(after, side).status))
        ensures SurfaceAt(before, side).parity && !SurfaceAt(after, side).parity ==> IsParityLoss(baseline, current, ParityLoss(key, side))
      {
      }
      assert SurfaceAt(before, JS) == before.js && SurfaceAt(before, DTS) == before.dts;
    }
    assert SurfaceAt(after, JS) == after.js && SurfaceAt(after, DTS) == after.dts;
    forall side: Side
      ensures !PayloadHeld(Before(Find(baseline, key), side), SurfaceAt(after, side)) ==> exists l :: IsPayloadLoss(baseline, current, l)
    {
      var loss := PayloadLossAt(key, side, Before(Find(baseline, key), side), SurfaceAt(after, side));
      if loss.Some? {
        assert IsPayloadLoss(baseline, current, loss.value);
      }
    }
  }

  lemma BreaksLose(baseline: Table, current: Table)
    requires forall key :: key in current ==> RowHeld(Find(baseline, key), current[key])
    ensures forall l :: !IsStatusLoss(baseline, current, l)
    ensures forall l :: !IsParityLoss(baseline, current, l)
    ensures forall l :: !IsPayloadLoss(baseline, current, l)
  {
    forall l: StatusLoss
      ensures !IsStatusLoss(baseline, current, l)
    {
      assert l.key in current ==> RowHeld(Find(baseline, l.key), current[l.key]);
      assert l.kind == Artifact || l.kind.side == JS || l.kind.side == DTS;
    }
    forall l: ParityLoss
      ensures !IsParityLoss(baseline, current, l)
    {
      assert l.key in current ==> RowHeld(Find(baseline, l.key), current[l.key]);
    }
    forall l: PayloadLoss
      ensures !IsPayloadLoss(baseline, current, l)
    {
      assert l.key in current ==> RowHeld(Find(baseline, l.key), current[l.key]);
      assert l.side == JS || l.side == DTS;
    }
  }

  /** The three reports and the absent rows together decide acceptance. */
  method CompareRows(baseline: Table, current: Table, strict: bool) returns (failed: bool)
    ensures failed <==> !Accepts(baseline, current, strict)
  {
    var absent := FindAbsent(baseline, current);
    failed := absent != [] && strict;
    assert absent == [] <==> baseline.Keys <= current.Keys by {
      assert absent != [] ==> absent[0] in absent;
    }
    var statuses := FindRegressions(baseline, current);
    var parities := FindProductParityRegressions(baseline, current);
    var payloads := FindPayloadRegressions(baseline, current);
    if statuses != [] || parities != [] || payloads != [] {
      assert statuses != [] ==> statuses[0] in statuses;
      assert parities != [] ==> parities[0] in parities;
      assert payloads != [] ==> payloads[0] in payloads;
      failed := true;
    }
    if key :| key in current && !RowHeld(Find(baseline, key), current[key]) {
      LossesBreak(baseline, current, key);
    } else {
      BreaksLose(baseline, current);
    }
  }

  lemma {:induction false} SubsetCount<T>(a: set<T>, b: set<T>)
    requires a <= b
    ensures |a| <= |b|
  {
    if a != {} {
      var x :| x in a;
      SubsetCount(a - {x}, b - {x});
    }
  }
}
