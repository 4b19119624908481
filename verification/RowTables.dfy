// Tables of identified rows, built from one list or merged from several.

module RowTables {
  import opened Wrappers

  datatype Entry<K, V> = Entry(key: K, view: V)

  /** The entries of the rows, unless some row is invalid. */
  function ReadRows<R, K, V>(read: R -> Option<Entry<K, V>>, rows: seq<R>): (entries: Option<seq<Entry<K, V>>>)
    ensures entries.Some? ==> |entries.value| == |rows|
  {
    if rows == [] then Some([])
    else
      var front, last := ReadRows(read, rows[..|rows| - 1]), read(rows[|rows| - 1]);
      if front.None? || last.None? then None else Some(front.value + [last.value])
  }

  ghost predicate DistinctKeys<K, V>(entries: seq<Entry<K, V>>) {
    forall i, j :: 0 <= i < j < |entries| ==> entries[i].key != entries[j].key
  }

  function TableOf<K, V>(entries: seq<Entry<K, V>>): map<K, V> {
    if entries == [] then map[]
    else TableOf(entries[..|entries| - 1])[entries[|entries| - 1].key := entries[|entries| - 1].view]
  }

  /** Every row is valid and no identity repeats. */
  ghost predicate Indexable<R, K, V>(read: R -> Option<Entry<K, V>>, rows: seq<R>) {
    ReadRows(read, rows).Some? && DistinctKeys(ReadRows(read, rows).value)
  }

  lemma {:induction false} TableKeys<K, V>(entries: seq<Entry<K, V>>, key: K)
    ensures key in TableOf(entries) <==> exists i :: 0 <= i < |entries| && entries[i].key == key
  {
    if entries != [] {
      var n := |entries| - 1;
      TableKeys(entries[..n], key);
      if i :| 0 <= i < |entries| && entries[i].key == key && i < n {
        assert entries[..n][i].key == key;
      }
    }
  }

  /** With distinct keys every entry is found under its key. */
  lemma {:induction false} TableLookup<K, V>(entries: seq<Entry<K, V>>, i: nat)
    requires DistinctKeys(entries) && i < |entries|
    ensures entries[i].key in TableOf(entries) && TableOf(entries)[entries[i].key] == entries[i].view
  {
    if i < |entries| - 1 {
      TableLookup(entries[..|entries| - 1], i);
    }
  }

  lemma {:induction false} TableConcat<K, V>(a: seq<Entry<K, V>>, b: seq<Entry<K, V>>)
    ensures TableOf(a + b) == TableOf(a) + TableOf(b)
  {
    if b == [] {
      assert a + b == a;
    } else {
      assert (a + b)[..|a + b| - 1] == a + b[..|b| - 1];
      TableConcat(a, b[..|b| - 1]);
    }
  }

  /** Tables overlap exactly when some identity repeats across the two lists. */
  lemma DisjointTables<K, V>(a: seq<Entry<K, V>>, b: seq<Entry<K, V>>)
    requires DistinctKeys(a) && DistinctKeys(b)
    ensures DistinctKeys(a + b) <==> TableOf(a).Keys !! TableOf(b).Keys
  {
    if key :| key in TableOf(a).Keys && key in TableOf(b).Keys {
      TableKeys(a, key);
      TableKeys(b, key);
      var i :| 0 <= i < |a| && a[i].key == key;
      var j :| 0 <= j < |b| && b[j].key == key;
      assert (a + b)[i].key == (a + b)[|a| + j].key;
    } else {
      forall i, j | 0 <= i < |a| && 0 <= j < |b|
        ensures a[i].key != b[j].key
      {
        TableKeys(a, a[i].key);
        TableKeys(b, b[j].key);
      }
    }
  }

  lemma {:induction false} ReadRowsConcat<R, K, V>(read: R -> Option<Entry<K, V>>, a: seq<R>, b: seq<R>)
    ensures ReadRows(read, a + b) ==
            if ReadRows(read, a).Some? && ReadRows(read, b).Some? then Some(ReadRows(read, a).value + ReadRows(read, b).value) else None
  {
    if b == [] {
      assert a + b == a;
      assert ReadRows(read, a).Some? ==> ReadRows(read, a).value + [] == ReadRows(read, a).value;
    } else {
      assert (a + b)[..|a + b| - 1] == a + b[..|b| - 1];
      ReadRowsConcat(read, a, b[..|b| - 1]);
      if ReadRows(read, a).Some? && ReadRows(read, b).Some? {
        var x, y := ReadRows(read, a).value, ReadRows(read, b[..|b| - 1]).value;
        assert (x + y) + [read(b[|b| - 1]).value] == x + (y + [read(b[|b| - 1]).value]);
      }
    }
  }

  lemma IndexablePrefix<R, K, V>(read: R -> Option<Entry<K, V>>, a: seq<R>, b: seq<R>)
    requires Indexable(read, a + b)
    ensures Indexable(read, a)
  {
    ReadRowsConcat(read, a, b);
    var all := ReadRows(read, a + b).value;
    assert forall i :: 0 <= i < |a| ==> ReadRows(read, a).value[i] == all[i];
  }

  lemma DistinctSnoc<K, V>(seen: seq<Entry<K, V>>, entry: Entry<K, V>)
    requires DistinctKeys(seen)
    ensures DistinctKeys(seen + [entry]) <==> entry.key !in TableOf(seen)
  {
    TableKeys(seen, entry.key);
    var more := seen + [entry];
    assert more[|seen|] == entry && forall i :: 0 <= i < |seen| ==> more[i] == seen[i];
    if entry.key in TableOf(seen) {
      var j :| 0 <= j < |seen| && seen[j].key == entry.key;
      assert more[j].key == more[|seen|].key;
    }
  }

  lemma IndexableSnoc<R, K, V>(read: R -> Option<Entry<K, V>>, front: seq<R>, row: R)
    requires Indexable(read, front)
    ensures Indexable(read, front + [row]) <==>
            read(row).Some? && read(row).value.key !in TableOf(ReadRows(read, front).value)
  {
    assert (front + [row])[..|front|] == front;
    if read(row).Some? {
      DistinctSnoc(ReadRows(read, front).value, read(row).value);
    }
  }

  /** One artifact: an invalid row or a repeated identity rejects it. */
  method IndexRows<R, K, V>(read: R -> Option<Entry<K, V>>, rows: seq<R>) returns (r: Result<map<K, V>, string>)
    ensures r.Ok? <==> Indexable(read, rows)
    ensures r.Ok? ==> r.value == TableOf(ReadRows(read, rows).value)
  {
    var indexed: map<K, V> := map[];
    for i := 0 to |rows|
      invariant Indexable(read, rows[..i]) && indexed == TableOf(ReadRows(read, rows[..i]).value)
    {
      assert rows[..i + 1] == rows[..i] + [rows[i]] && rows[..i + 1][..i] == rows[..i];
      assert rows == rows[..i + 1] + rows[i + 1..];
      IndexableSnoc(read, rows[..i], rows[i]);
      if Indexable(read, rows) {
        IndexablePrefix(read, rows[..i + 1], rows[i + 1..]);
      }
      var entry := read(rows[i]);
      if entry.None? {
        return Err("invalid row");
      }
      if entry.value.key in indexed {
        return Err("duplicate emit row");
      }
      indexed := indexed[entry.value.key := entry.value.view];
    }
    assert rows[..|rows|] == rows;
    return Ok(indexed);
  }

  function Concat<R>(shards: seq<seq<R>>): seq<R> {
    if shards == [] then [] else Concat(shards[..|shards| - 1]) + shards[|shards| - 1]
  }

  lemma {:induction false} ConcatPrefix<R, K, V>(read: R -> Option<Entry<K, V>>, shards: seq<seq<R>>, n: nat)
    requires n <= |shards| && Indexable(read, Concat(shards))
    ensures Indexable(read, Concat(shards[..n]))
    decreases |shards| - n
  {
    if n == |shards| {
      assert shards[..n] == shards;
    } else {
      ConcatPrefix(read, shards, n + 1);
      assert shards[..n + 1][..n] == shards[..n];
      IndexablePrefix(read, Concat(shards[..n]), shards[n]);
    }
  }

  lemma DistinctSuffix<K, V>(x: seq<Entry<K, V>>, y: seq<Entry<K, V>>)
    requires DistinctKeys(x + y)
    ensures DistinctKeys(x) && DistinctKeys(y)
  {
    assert forall i :: 0 <= i < |x| ==> (x + y)[i] == x[i];
    forall i, j | 0 <= i < j < |y|
      ensures y[i].key != y[j].key
    {
      assert (x + y)[|x| + i].key != (x + y)[|x| + j].key;
    }
  }

  lemma IndexableConcat<R, K, V>(read: R -> Option<Entry<K, V>>, a: seq<R>, b: seq<R>)
    requires Indexable(read, a)
    ensures Indexable(read, a + b) <==>
            Indexable(read, b) && TableOf(ReadRows(read, a).value).Keys !! TableOf(ReadRows(read, b).value).Keys
    ensures Indexable(read, a + b) ==>
            TableOf(ReadRows(read, a + b).value) == TableOf(ReadRows(read, a).value) + TableOf(ReadRows(read, b).value)
  {
    ReadRowsConcat(read, a, b);
    if ReadRows(read, b).Some? {
      var x, y := ReadRows(read, a).value, ReadRows(read, b).value;
      TableConcat(x, y);
      if DistinctKeys(x + y) {
        DistinctSuffix(x, y);
      }
      if DistinctKeys(y) {
        DisjointTables(x, y);
      }
    }
  }

  /** Merging shards accepts, and yields, exactly what one artifact with all their
      rows would. */
  method MergeShards<R, K, V>(read: R -> Option<Entry<K, V>>, shards: seq<seq<R>>) returns (r: Result<map<K, V>, string>)
    ensures r.Ok? <==> Indexable(read, Concat(shards))
    ensures r.Ok? ==> r.value == TableOf(ReadRows(read, Concat(shards)).value)
  {
    var merged: map<K, V> := map[];
    for i := 0 to |shards|
      invariant Indexable(read, Concat(shards[..i])) && merged == TableOf(ReadRows(read, Concat(shards[..i])).value)
    {
      assert shards[..i + 1][..i] == shards[..i];
      if Indexable(read, Concat(shards)) {
        ConcatPrefix(read, shards, i + 1);
      }
      IndexableConcat(read, Concat(shards[..i]), shards[i]);
      var indexed := IndexRows(read, shards[i]);
      if indexed.Err? {
        return indexed;
      }
      if !(merged.Keys !! indexed.value.Keys) {
        return Err("row already reported by another detail");
      }
      merged := merged + indexed.value;
    }
    assert shards[..|shards|] == shards;
    return Ok(merged);
  }
}
