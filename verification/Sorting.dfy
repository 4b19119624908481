// Sorting by a total order, and the lexicographic order of sequences.

module Sorting {

  /** All that sorting itself needs of the order. */
  ghost predicate StrictOrder<T(!new)>(less: (T, T) -> bool) {
    && (forall a :: !less(a, a))
    && (forall a, b, c :: less(a, b) && less(b, c) ==> less(a, c))
  }

  ghost predicate TotalOrder<T(!new)>(less: (T, T) -> bool) {
    StrictOrder(less) && forall a, b :: less(a, b) || a == b || less(b, a)
  }

  function Insert<T>(less: (T, T) -> bool, x: T, sorted: seq<T>): seq<T> {
    if sorted == [] || less(x, sorted[0]) then [x] + sorted else [sorted[0]] + Insert(less, x, sorted[1..])
  }

  function Sort<T>(less: (T, T) -> bool, s: seq<T>): seq<T> {
    if s == [] then [] else Insert(less, s[|s| - 1], Sort(less, s[..|s| - 1]))
  }

  ghost predicate Least<T>(less: (T, T) -> bool, x: T, s: seq<T>) {
    forall y :: y in multiset(s) ==> !less(y, x)
  }

  ghost predicate Ascending<T>(less: (T, T) -> bool, s: seq<T>) {
    s != [] ==> Least(less, s[0], s[1..]) && Ascending(less, s[1..])
  }

  lemma HeadAndTail<T>(s: seq<T>)
    requires s != []
    ensures multiset(s) == multiset{s[0]} + multiset(s[1..])
  {
    assert s == [s[0]] + s[1..];
  }

  lemma LeastOfMore<T(!new)>(less: (T, T) -> bool, x: T, s: seq<T>)
    requires StrictOrder(less) && s != [] && less(x, s[0]) && Least(less, s[0], s[1..])
    ensures Least(less, x, s)
  {
    HeadAndTail(s);
  }

  lemma InsertBehind<T>(less: (T, T) -> bool, x: T, sorted: seq<T>, rest: seq<T>)
    requires sorted != [] && !less(x, sorted[0]) && Least(less, sorted[0], sorted[1..])
    requires Ascending(less, rest) && multiset(rest) == multiset(sorted[1..]) + multiset{x}
    ensures Ascending(less, [sorted[0]] + rest)
    ensures multiset([sorted[0]] + rest) == multiset(sorted) + multiset{x}
  {
    HeadAndTail(sorted);
    assert ([sorted[0]] + rest)[1..] == rest;
  }

  lemma {:induction false} InsertCorrect<T(!new)>(less: (T, T) -> bool, x: T, sorted: seq<T>)
    requires StrictOrder(less) && Ascending(less, sorted)
    ensures Ascending(less, Insert(less, x, sorted))
    ensures multiset(Insert(less, x, sorted)) == multiset(sorted) + multiset{x}
  {
    if sorted == [] {
    } else if less(x, sorted[0]) {
      LeastOfMore(less, x, sorted);
      assert ([x] + sorted)[1..] == sorted;
    } else {
      InsertCorrect(less, x, sorted[1..]);
      InsertBehind(less, x, sorted, Insert(less, x, sorted[1..]));
    }
  }

  lemma {:induction false} SortCorrect<T(!new)>(less: (T, T) -> bool, s: seq<T>)
    requires StrictOrder(less)
    ensures Ascending(less, Sort(less, s))
    ensures multiset(Sort(less, s)) == multiset(s)
  {
    if s != [] {
      assert s == s[..|s| - 1] + [s[|s| - 1]];
      SortCorrect(less, s[..|s| - 1]);
      InsertCorrect(less, s[|s| - 1], Sort(less, s[..|s| - 1]));
    }
  }

  lemma {:induction false} AscendingAt<T>(less: (T, T) -> bool, s: seq<T>, i: nat, j: nat)
    requires Ascending(less, s) && i < j < |s|
    ensures !less(s[j], s[i])
  {
    if i == 0 {
      assert s[j] == s[1..][j - 1] && s[j] in multiset(s[1..]);
    } else {
      AscendingAt(less, s[1..], i - 1, j - 1);
    }
  }

  lemma SameHead<T(!new)>(less: (T, T) -> bool, a: seq<T>, b: seq<T>)
    requires TotalOrder(less) && a != [] && b != [] && multiset(a) == multiset(b)
    requires Least(less, a[0], a[1..]) && Least(less, b[0], b[1..])
    ensures a[0] == b[0]
  {
    HeadAndTail(a);
    HeadAndTail(b);
    assert a[0] in multiset(b) && b[0] in multiset(a);
  }

  lemma SameTail<T>(a: seq<T>, b: seq<T>)
    requires a != [] && b != [] && a[0] == b[0] && multiset(a) == multiset(b)
    ensures multiset(a[1..]) == multiset(b[1..])
  {
    HeadAndTail(a);
    HeadAndTail(b);
    assert multiset(a[1..]) == multiset(a) - multiset{a[0]} == multiset(b[1..]);
  }

  lemma {:induction false} AscendingUnique<T(!new)>(less: (T, T) -> bool, a: seq<T>, b: seq<T>)
    requires TotalOrder(less) && Ascending(less, a) && Ascending(less, b) && multiset(a) == multiset(b)
    ensures a == b
  {
    assert |a| == |multiset(a)| && |b| == |multiset(b)|;
    if a != [] {
      SameHead(less, a, b);
      SameTail(a, b);
      AscendingUnique(less, a[1..], b[1..]);
      assert a == [a[0]] + a[1..] && b == [b[0]] + b[1..];
    }
  }

  /** Sorting forgets the order and nothing else. */
  lemma SortForgetsOrder<T(!new)>(less: (T, T) -> bool, a: seq<T>, b: seq<T>)
    requires TotalOrder(less)
    ensures Sort(less, a) == Sort(less, b) <==> multiset(a) == multiset(b)
  {
    SortCorrect(less, a);
    SortCorrect(less, b);
    if multiset(a) == multiset(b) {
      AscendingUnique(less, Sort(less, a), Sort(less, b));
    }
  }

  // ------------------------------------------------------------- sorting by a key

  ghost predicate DistinctBy<T, K>(key: T -> K, s: seq<T>) {
    forall i, j :: 0 <= i < j < |s| ==> key(s[i]) != key(s[j])
  }

  ghost predicate IncreasingBy<T, K>(before: (K, K) -> bool, key: T -> K, s: seq<T>) {
    forall i, j :: 0 <= i < j < |s| ==> before(key(s[i]), key(s[j]))
  }

  function ByKey<T, K>(before: (K, K) -> bool, key: T -> K): (T, T) -> bool {
    (a, b) => before(key(a), key(b))
  }

  lemma ByKeyStrict<T(!new), K(!new)>(before: (K, K) -> bool, key: T -> K)
    requires TotalOrder(before)
    ensures StrictOrder(ByKey(before, key))
  {
  }

  lemma FrontIncreasing<T, K(!new)>(before: (K, K) -> bool, key: T -> K, x: T, sorted: seq<T>)
    requires TotalOrder(before) && IncreasingBy(before, key, sorted)
    requires sorted != [] && before(key(x), key(sorted[0]))
    ensures IncreasingBy(before, key, [x] + sorted)
  {
    forall j | 0 <= j < |sorted|
      ensures before(key(x), key(sorted[j]))
    {
      assert j > 0 ==> before(key(sorted[0]), key(sorted[j]));
    }
  }

  lemma BehindFirst<T, K(!new)>(before: (K, K) -> bool, key: T -> K, x: T, sorted: seq<T>, rest: seq<T>)
    requires IncreasingBy(before, key, sorted) && IncreasingBy(before, key, rest)
    requires sorted != [] && before(key(sorted[0]), key(x)) && multiset(rest) == multiset(sorted[1..]) + multiset{x}
    ensures IncreasingBy(before, key, [sorted[0]] + rest)
    ensures multiset([sorted[0]] + rest) == multiset(sorted) + multiset{x}
  {
    HeadAndTail(sorted);
    forall j | 0 <= j < |rest|
      ensures before(key(sorted[0]), key(rest[j]))
    {
      assert rest[j] in multiset(rest);
      assert rest[j] == x || rest[j] in sorted[1..];
    }
  }

  lemma {:induction false} InsertIncreasing<T, K(!new)>(before: (K, K) -> bool, key: T -> K, x: T, sorted: seq<T>)
    requires TotalOrder(before) && IncreasingBy(before, key, sorted)
    requires forall i :: 0 <= i < |sorted| ==> key(sorted[i]) != key(x)
    ensures var more := Insert(ByKey(before, key), x, sorted);
            IncreasingBy(before, key, more) && multiset(more) == multiset(sorted) + multiset{x}
  {
    if sorted != [] {
      if before(key(x), key(sorted[0])) {
        FrontIncreasing(before, key, x, sorted);
      } else {
        var rest := Insert(ByKey(before, key), x, sorted[1..]);
        InsertIncreasing(before, key, x, sorted[1..]);
        BehindFirst(before, key, x, sorted, rest);
      }
    }
  }

  /** Items with distinct keys come out in strictly increasing order of their keys. */
  lemma {:induction false} SortByKey<T, K(!new)>(before: (K, K) -> bool, key: T -> K, s: seq<T>)
    requires TotalOrder(before) && DistinctBy(key, s)
    ensures var sorted := Sort(ByKey(before, key), s);
            IncreasingBy(before, key, sorted) && multiset(sorted) == multiset(s)
  {
    if s != [] {
      var front, last := s[..|s| - 1], s[|s| - 1];
      var sorted := Sort(ByKey(before, key), front);
      assert s == front + [last];
      SortByKey(before, key, front);
      forall i | 0 <= i < |sorted|
        ensures key(sorted[i]) != key(last)
      {
        assert sorted[i] in multiset(front);
      }
      InsertIncreasing(before, key, last, sorted);
    }
  }

  lemma {:induction false} InsertLast<T>(less: (T, T) -> bool, x: T, sorted: seq<T>)
    requires forall i :: 0 <= i < |sorted| ==> !less(x, sorted[i])
    ensures Insert(less, x, sorted) == sorted + [x]
  {
    if sorted != [] {
      InsertLast(less, x, sorted[1..]);
    }
  }

  /** What is in order stays as it is. */
  lemma {:induction false} SortSorted<T, K(!new)>(before: (K, K) -> bool, key: T -> K, s: seq<T>)
    requires TotalOrder(before) && IncreasingBy(before, key, s)
    ensures Sort(ByKey(before, key), s) == s
  {
    if s != [] {
      var front, last := s[..|s| - 1], s[|s| - 1];
      SortSorted(before, key, front);
      InsertLast(ByKey(before, key), last, front);
    }
  }

  // -------------------------------------------------- listing a collection in order

  ghost function Enumerate<T>(bag: multiset<T>): (s: seq<T>)
    ensures multiset(s) == bag
  {
    if bag == multiset{} then []
    else
      var x :| x in bag;
      [x] + Enumerate(bag - multiset{x})
  }

  /** The items of a collection in ascending order. */
  ghost function Listed<T>(less: (T, T) -> bool, bag: multiset<T>): seq<T> {
    Sort(less, Enumerate(bag))
  }

  lemma ListedCorrect<T(!new)>(less: (T, T) -> bool, bag: multiset<T>)
    requires StrictOrder(less)
    ensures Ascending(less, Listed(less, bag)) && multiset(Listed(less, bag)) == bag
  {
    SortCorrect(less, Enumerate(bag));
  }

  /** Members of a set come out once each, in strictly ascending order. */
  lemma ListedSet<T(!new)>(less: (T, T) -> bool, items: set<T>)
    requires TotalOrder(less)
    ensures var s := Listed(less, multiset(items));
            && (forall x :: x in s <==> x in items)
            && (forall i, j :: 0 <= i < j < |s| ==> less(s[i], s[j]))
  {
    var s := Listed(less, multiset(items));
    ListedCorrect(less, multiset(items));
    assert forall x :: x in s <==> x in multiset(s);
    forall i, j | 0 <= i < j < |s|
      ensures less(s[i], s[j])
    {
      AscendingAt(less, s, i, j);
      if s[i] == s[j] {
        TwicePresent(s, i, j);
      }
    }
  }

  lemma TwicePresent<T>(s: seq<T>, i: nat, j: nat)
    requires i < j < |s| && s[i] == s[j]
    ensures multiset(s)[s[i]] >= 2
  {
    assert s == s[..j] + s[j..] && s[..j][i] == s[i] && s[j..][0] == s[i];
    assert s[i] in multiset(s[..j]) && s[i] in multiset(s[j..]);
  }

  /** Sorting the items in whatever order they come. */
  method InOrder<T(!new, ==)>(less: (T, T) -> bool, bag: multiset<T>) returns (s: seq<T>)
    requires TotalOrder(less)
    ensures s == Listed(less, bag)
  {
    var items: seq<T> := [];
    var pending := bag;
    while pending != multiset{}
      invariant multiset(items) + pending == bag
      decreases |pending|
    {
      var x :| x in pending;
      items := items + [x];
      pending := pending - multiset{x};
    }
    s := Sort(less, items);
    SortForgetsOrder(less, items, Enumerate(bag));
  }

  // ------------------------------------------------------------ lexicographic order

  predicate LexLess<T(==)>(less: (T, T) -> bool, a: seq<T>, b: seq<T>) {
    b != [] && (a == [] || less(a[0], b[0]) || (a[0] == b[0] && LexLess(less, a[1..], b[1..])))
  }

  /** `a` and `b` agree before `i`, where `a` is over or has the lesser item. */
  predicate LexAt<T(==)>(less: (T, T) -> bool, a: seq<T>, b: seq<T>, i: nat) {
    i <= |a| && i < |b| && a[..i] == b[..i] && (i < |a| ==> less(a[i], b[i]))
  }

  lemma LexAtNext<T>(less: (T, T) -> bool, a: seq<T>, b: seq<T>, i: nat)
    requires a != [] && b != [] && a[0] == b[0]
    ensures LexAt(less, a, b, i + 1) <==> LexAt(less, a[1..], b[1..], i)
  {
    if i < |a| && i < |b| {
      assert a[..i + 1] == [a[0]] + a[1..][..i] && b[..i + 1] == [b[0]] + b[1..][..i];
      assert a[1..][..i] == a[..i + 1][1..] && b[1..][..i] == b[..i + 1][1..];
    }
  }

  lemma LexAtFirst<T>(less: (T, T) -> bool, a: seq<T>, b: seq<T>)
    ensures LexAt(less, a, b, 0) <==> b != [] && (a == [] || less(a[0], b[0]))
  {
  }

  lemma LexAtLater<T>(less: (T, T) -> bool, a: seq<T>, b: seq<T>, i: nat)
    requires LexAt(less, a, b, i) && i > 0
    ensures a != [] && b != [] && a[0] == b[0]
  {
    assert a[..i][0] == a[0] && b[..i][0] == b[0];
  }

  /** The first difference decides. */
  lemma {:induction false} LexExactly<T>(less: (T, T) -> bool, a: seq<T>, b: seq<T>)
    ensures LexLess(less, a, b) <==> exists i :: LexAt(less, a, b, i)
  {
    LexAtFirst(less, a, b);
    if a != [] && b != [] && a[0] == b[0] {
      LexExactly(less, a[1..], b[1..]);
      if i: nat :| LexAt(less, a[1..], b[1..], i) {
        LexAtNext(less, a, b, i);
      }
      if i: nat :| LexAt(less, a, b, i) && i > 0 {
        LexAtNext(less, a, b, i - 1);
      }
    } else if i: nat :| LexAt(less, a, b, i) && i > 0 {
      LexAtLater(less, a, b, i);
    }
  }

  lemma {:induction false} LexTransitive<T(!new)>(less: (T, T) -> bool, a: seq<T>, b: seq<T>, c: seq<T>)
    requires TotalOrder(less) && LexLess(less, a, b) && LexLess(less, b, c)
    ensures LexLess(less, a, c)
  {
    if a != [] && a[0] == b[0] && b[0] == c[0] {
      LexTransitive(less, a[1..], b[1..], c[1..]);
    }
  }

  lemma {:induction false} LexTotal<T(!new)>(less: (T, T) -> bool, a: seq<T>, b: seq<T>)
    requires TotalOrder(less)
    ensures !LexLess(less, a, a)
    ensures LexLess(less, a, b) || a == b || LexLess(less, b, a)
  {
    if a != [] {
      LexTotal(less, a[1..], if b == [] then [] else b[1..]);
      if b != [] && a[0] == b[0] {
        assert a == [a[0]] + a[1..] && b == [b[0]] + b[1..];
      }
    }
  }

  function Lex<T(==)>(less: (T, T) -> bool): (seq<T>, seq<T>) -> bool {
    (a, b) => LexLess(less, a, b)
  }

  /** The lexicographic order of a total order is total. */
  lemma LexOrder<T(!new)>(less: (T, T) -> bool)
    requires TotalOrder(less)
    ensures TotalOrder(Lex(less))
  {
    forall a, b
      ensures !LexLess(less, a, a)
      ensures LexLess(less, a, b) || a == b || LexLess(less, b, a)
    {
      LexTotal(less, a, b);
    }
    forall a, b, c | LexLess(less, a, b) && LexLess(less, b, c)
      ensures LexLess(less, a, c)
    {
      LexTransitive(less, a, b, c);
    }
  }
}
