// Sequences obtained by deleting items: `is_ordered_subsequence` of
// scripts/ci/check-emit-regression-set.py.

module Subsequence {

  /** Deleting items of `baseline` can leave `candidate`. */
  predicate Sub<T(==)>(candidate: seq<T>, baseline: seq<T>) {
    if candidate == [] then true
    else if baseline == [] then false
    else if candidate[0] == baseline[0] then Sub(candidate[1..], baseline[1..])
    else Sub(candidate, baseline[1..])
  }

  /** The positions at which the candidate's items stand in the baseline. */
  predicate Embedding<T(==)>(candidate: seq<T>, baseline: seq<T>, at: seq<nat>) {
    && |at| == |candidate|
    && (forall i :: 0 <= i < |at| ==> at[i] < |baseline| && baseline[at[i]] == candidate[i])
    && (forall i, j :: 0 <= i < j < |at| ==> at[i] < at[j])
  }

  function Shift(at: seq<nat>): seq<nat> {
    seq(|at|, i requires 0 <= i < |at| => at[i] + 1)
  }

  function Unshift(at: seq<nat>): seq<nat> {
    seq(|at|, i requires 0 <= i < |at| => if at[i] == 0 then 0 else at[i] - 1)
  }

  lemma {:induction false} SubEmbeds<T>(candidate: seq<T>, baseline: seq<T>) returns (at: seq<nat>)
    requires Sub(candidate, baseline)
    ensures Embedding(candidate, baseline, at)
  {
    if candidate == [] {
      at := [];
    } else if candidate[0] == baseline[0] {
      var rest := SubEmbeds(candidate[1..], baseline[1..]);
      at := [0] + Shift(rest);
    } else {
      var rest := SubEmbeds(candidate, baseline[1..]);
      at := Shift(rest);
    }
  }

  lemma {:induction false} EmbeddingSub<T>(candidate: seq<T>, baseline: seq<T>, at: seq<nat>)
    requires Embedding(candidate, baseline, at)
    ensures Sub(candidate, baseline)
    decreases |baseline|
  {
    if candidate != [] {
      assert at[0] < |baseline|;
      if candidate[0] == baseline[0] {
        EmbeddingSub(candidate[1..], baseline[1..], Unshift(at[1..]));
      } else {
        EmbeddingSub(candidate, baseline[1..], Unshift(at));
      }
    }
  }

  /** One pass over the baseline, shared by all items, decides whether a strictly
      increasing embedding exists. */
  method IsOrderedSubsequence<T(==)>(candidate: seq<T>, baseline: seq<T>) returns (ok: bool)
    ensures ok <==> exists at :: Embedding(candidate, baseline, at)
    ensures ok <==> Sub(candidate, baseline)
  {
    ok := true;
    var i, next := 0, 0;
    while i < |candidate| && ok
      invariant i <= |candidate| && next <= |baseline|
      invariant Sub(candidate, baseline) <==> ok && Sub(candidate[i..], baseline[next..])
      decreases |candidate| - i, ok
    {
      while next < |baseline| && baseline[next] != candidate[i]
        invariant next <= |baseline|
        invariant Sub(candidate, baseline) <==> Sub(candidate[i..], baseline[next..])
      {
        next := next + 1;
      }
      if next == |baseline| {
        ok := false;
      } else {
        next := next + 1;
        i := i + 1;
      }
    }
    if ok {
      ghost var at := SubEmbeds(candidate, baseline);
    } else if at :| Embedding(candidate, baseline, at) {
      EmbeddingSub(candidate, baseline, at);
    }
  }

  lemma {:induction false} SubReflexive<T>(s: seq<T>)
    ensures Sub(s, s)
  {
    if s != [] {
      SubReflexive(s[1..]);
    }
  }

  lemma {:induction false} SubTail<T>(a: seq<T>, b: seq<T>)
    requires a != [] && Sub(a, b)
    ensures Sub(a[1..], b)
    decreases |b|
  {
    if a[0] != b[0] {
      SubTail(a, b[1..]);
    }
    if |a| > 1 && a[1] == b[0] {
      SubTail(a[1..], b[1..]);
    }
  }

  lemma {:induction false} SubTransitive<T>(a: seq<T>, b: seq<T>, c: seq<T>)
    requires Sub(a, b) && Sub(b, c)
    ensures Sub(a, c)
    decreases |c|
  {
    if a != [] {
      if b[0] != c[0] {
        SubTransitive(a, b, c[1..]);
        if a[0] == c[0] {
          SubTail(a, c[1..]);
        }
      } else if a[0] == b[0] {
        SubTransitive(a[1..], b[1..], c[1..]);
      } else {
        SubTransitive(a, b[1..], c[1..]);
      }
    }
  }

  /** Nothing is gained: no code occurs more often, and equal length means equal. */
  lemma {:induction false} SubShrinks<T>(a: seq<T>, b: seq<T>)
    requires Sub(a, b)
    ensures multiset(a) <= multiset(b) && |a| <= |b|
    ensures |a| == |b| ==> a == b
  {
    if a != [] {
      assert b == [b[0]] + b[1..] && a == [a[0]] + a[1..];
      if a[0] == b[0] {
        SubShrinks(a[1..], b[1..]);
      } else {
        SubShrinks(a, b[1..]);
      }
    }
  }

  lemma SubAntisymmetric<T>(a: seq<T>, b: seq<T>)
    requires Sub(a, b) && Sub(b, a)
    ensures a == b
  {
    SubShrinks(a, b);
    SubShrinks(b, a);
  }
}
