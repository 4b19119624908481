// Byte framings that are hashed into identities: `candidate_content_sha256` and
// `sha256_directory` of crates/conformance/src/integrity.rs, and `input_manifest` of
// scripts/conformance/build-manifest.py.

module Framing {
  import opened Wrappers
  import opened Fips180
  import opened Sha256
  import opened Sorting

  // ------------------------------------------------------ length-framed fields

  predicate Short(value: Bytes) {
    |value| < TWO_64
  }

  /** The length in eight bytes, then the bytes. */
  function Field(value: Bytes): Bytes {
    Length64(|value|) + value
  }

  lemma Length64Injective(m: nat, n: nat)
    requires m < TWO_64 && n < TWO_64 && Length64(m) == Length64(n)
    ensures m == n
  {
    Length64RoundTrip(m);
    Length64RoundTrip(n);
  }

  /** The first field and what follows it can be told apart. */
  lemma FieldSplits(a: Bytes, x: Bytes, b: Bytes, y: Bytes)
    requires Short(a) && Short(b) && Field(a) + x == Field(b) + y
    ensures a == b && x == y
  {
    var s, t := Field(a) + x, Field(b) + y;
    assert s[..8] == Length64(|a|) && t[..8] == Length64(|b|);
    Length64Injective(|a|, |b|);
    assert s[8..][..|a|] == a && t[8..][..|b|] == b;
    assert s[8..][|a|..] == x && t[8..][|b|..] == y;
  }

  function Fields(values: seq<Bytes>): Bytes {
    if values == [] then [] else Field(values[0]) + Fields(values[1..])
  }

  ghost predicate AllShort(values: seq<Bytes>) {
    forall i :: 0 <= i < |values| ==> Short(values[i])
  }

  lemma {:induction false} FieldsInjective(a: seq<Bytes>, b: seq<Bytes>)
    requires AllShort(a) && AllShort(b) && Fields(a) == Fields(b)
    ensures a == b
  {
    if a != [] && b != [] {
      FieldSplits(a[0], Fields(a[1..]), b[0], Fields(b[1..]));
      FieldsInjective(a[1..], b[1..]);
      assert a == [a[0]] + a[1..] && b == [b[0]] + b[1..];
    }
  }

  lemma {:induction false} FieldsConcat(a: seq<Bytes>, b: seq<Bytes>)
    ensures Fields(a + b) == Fields(a) + Fields(b)
  {
    if a == [] {
      assert a + b == b;
    } else {
      assert (a + b)[1..] == a[1..] + b;
      FieldsConcat(a[1..], b);
    }
  }

  lemma OneField(value: Bytes)
    ensures Fields([value]) == Field(value)
  {
    assert [value][1..] == [];
  }

  lemma Append(a: Bytes, b: Bytes, c: Bytes)
    ensures (a + b) + c == a + (b + c)
  {
  }

  /** Appends the fields of one record. */
  method AppendFields(before: Bytes, values: seq<Bytes>) returns (framed: Bytes)
    ensures framed == before + Fields(values)
  {
    framed := before;
    for k := 0 to |values|
      invariant framed == before + Fields(values[..k])
    {
      assert values[..k + 1] == values[..k] + [values[k]];
      FieldsConcat(values[..k], [values[k]]);
      Append(framed, Length64(|values[k]|), values[k]);
      Append(before, Fields(values[..k]), Field(values[k]));
      framed := framed + Length64(|values[k]|);
      framed := framed + values[k];
    }
    assert values[..|values|] == values;
  }

  function Ascii(s: string): Bytes
    requires forall i :: 0 <= i < |s| ==> s[i] < 128 as char
  {
    seq(|s|, i requires 0 <= i < |s| => s[i] as byte)
  }

  // -------------------------------------------------------- candidate contents

  datatype Candidate = Candidate(path: Bytes, disposition: Bytes, source: Bytes)

  function Values(c: Candidate): seq<Bytes> {
    [c.path, c.disposition, c.source]
  }

  predicate ByteLess(a: byte, b: byte) {
    a < b
  }

  predicate CandidateLess(a: Candidate, b: Candidate) {
    LexLess(Lex(ByteLess), Values(a), Values(b))
  }

  lemma CandidateOrder()
    ensures TotalOrder(CandidateLess)
  {
    LexOrder(ByteLess);
    LexOrder(Lex(ByteLess));
    var less := Lex(Lex(ByteLess));
    assert forall a, b :: CandidateLess(a, b) <==> less(Values(a), Values(b));
    forall a, b
      ensures CandidateLess(a, b) || a == b || CandidateLess(b, a)
    {
      if Values(a) == Values(b) {
        assert a == Candidate(Values(a)[0], Values(a)[1], Values(a)[2]);
        assert b == Candidate(Values(b)[0], Values(b)[1], Values(b)[2]);
      }
    }
  }

  ghost predicate ShortRecords(records: seq<Candidate>) {
    forall c :: c in records ==> AllShort(Values(c))
  }

  function Flatten(records: seq<Candidate>): seq<Bytes> {
    if records == [] then [] else Flatten(records[..|records| - 1]) + Values(records[|records| - 1])
  }

  lemma {:induction false} FlattenShort(records: seq<Candidate>)
    requires ShortRecords(records)
    ensures AllShort(Flatten(records)) && |Flatten(records)| == 3 * |records|
  {
    if records != [] {
      FlattenShort(records[..|records| - 1]);
    }
  }

  lemma {:induction false} FlattenInjective(a: seq<Candidate>, b: seq<Candidate>)
    requires |a| == |b| && |Flatten(a)| == 3 * |a| && Flatten(a) == Flatten(b)
    ensures a == b
  {
    if a != [] {
      var n := |a| - 1;
      assert |Flatten(a[..n])| == 3 * n && |Flatten(b[..n])| == 3 * n;
      assert Flatten(a)[..3 * n] == Flatten(a[..n]) && Flatten(b)[..3 * n] == Flatten(b[..n]);
      FlattenInjective(a[..n], b[..n]);
      assert Flatten(a)[3 * n..] == Values(a[n]) && Flatten(b)[3 * n..] == Values(b[n]);
      assert a[n] == Candidate(Values(a[n])[0], Values(a[n])[1], Values(a[n])[2]);
      assert b[n] == Candidate(Values(b[n])[0], Values(b[n])[1], Values(b[n])[2]);
      assert a == a[..n] + [a[n]] && b == b[..n] + [b[n]];
    }
  }

  function CandidateHeader(): Bytes {
    Ascii("tsz-conformance-candidate-content-v1") + [0]
  }

  /** The bytes that are hashed. */
  function CandidateFrame(records: seq<Candidate>): Bytes {
    CandidateHeader() + Fields(Flatten(Sort(CandidateLess, records)))
  }

  method FrameCandidates(records: seq<Candidate>) returns (framed: Bytes)
    ensures framed == CandidateFrame(records)
  {
    var sorted := Sort(CandidateLess, records);
    framed := CandidateHeader();
    for i := 0 to |sorted|
      invariant framed == CandidateHeader() + Fields(Flatten(sorted[..i]))
    {
      assert sorted[..i + 1][..i] == sorted[..i];
      FieldsConcat(Flatten(sorted[..i]), Values(sorted[i]));
      Append(CandidateHeader(), Fields(Flatten(sorted[..i])), Fields(Values(sorted[i])));
      framed := AppendFields(framed, Values(sorted[i]));
    }
    assert sorted[..|sorted|] == sorted;
  }

  /** The identity of a list of candidates. */
  method CandidateContentSha256(records: seq<Candidate>) returns (identity: string)
    ensures identity == Hex(Digest(CandidateFrame(records)))
  {
    var framed := FrameCandidates(records);
    identity := Sha256Bytes(framed);
  }

  /** Nothing can be re-partitioned: two lists of candidates give the same bytes exactly
      when one is a permutation of the other. */
  lemma CandidateFramingExact(a: seq<Candidate>, b: seq<Candidate>)
    requires ShortRecords(a) && ShortRecords(b)
    ensures CandidateFrame(a) == CandidateFrame(b) <==> multiset(a) == multiset(b)
  {
    CandidateOrder();
    SortForgetsOrder(CandidateLess, a, b);
    if CandidateFrame(a) == CandidateFrame(b) {
      var x, y := Sort(CandidateLess, a), Sort(CandidateLess, b);
      SortedShort(a);
      SortedShort(b);
      var n := |CandidateHeader()|;
      assert CandidateFrame(a)[n..] == Fields(Flatten(x)) && CandidateFrame(b)[n..] == Fields(Flatten(y));
      FieldsInjective(Flatten(x), Flatten(y));
      FlattenInjective(x, y);
    }
  }

  lemma SortedShort(records: seq<Candidate>)
    requires ShortRecords(records)
    ensures var sorted := Sort(CandidateLess, records);
            ShortRecords(sorted) && AllShort(Flatten(sorted)) && |Flatten(sorted)| == 3 * |sorted|
  {
    CandidateOrder();
    SortCorrect(CandidateLess, records);
    var sorted := Sort(CandidateLess, records);
    forall c | c in sorted
      ensures AllShort(Values(c))
    {
      assert c in multiset(sorted);
    }
    FlattenShort(sorted);
  }

  // -------------------------------------------------------------- build inputs

  /** One build input: its path, the 32 bytes of its hash and its size. */
  datatype Input = Input(path: Bytes, hash: Bytes, size: nat)

  predicate InputOk(x: Input) {
    Short(x.path) && |x.hash| == 32 && x.size < TWO_64
  }

  predicate InputsOk(inputs: seq<Input>) {
    forall i :: 0 <= i < |inputs| ==> InputOk(inputs[i])
  }

  function InputFrame(x: Input): Bytes {
    Field(x.path) + Field(x.hash) + Length64(x.size)
  }

  function InputFrames(inputs: seq<Input>): Bytes {
    if inputs == [] then [] else InputFrame(inputs[0]) + InputFrames(inputs[1..])
  }

  lemma SizeSplits(m: nat, x: Bytes, n: nat, y: Bytes)
    requires m < TWO_64 && n < TWO_64 && Length64(m) + x == Length64(n) + y
    ensures m == n && x == y
  {
    var s, t := Length64(m) + x, Length64(n) + y;
    assert s[..8] == Length64(m) && t[..8] == Length64(n);
    Length64Injective(m, n);
    assert s[8..] == x && t[8..] == y;
  }

  lemma InputSplits(a: Input, x: Bytes, b: Input, y: Bytes)
    requires InputOk(a) && InputOk(b) && InputFrame(a) + x == InputFrame(b) + y
    ensures a == b && x == y
  {
    var u, v := Length64(a.size) + x, Length64(b.size) + y;
    InputTail(a, x);
    InputTail(b, y);
    FieldSplits(a.path, Field(a.hash) + u, b.path, Field(b.hash) + v);
    FieldSplits(a.hash, u, b.hash, v);
    SizeSplits(a.size, x, b.size, y);
  }

  lemma InputTail(a: Input, x: Bytes)
    ensures InputFrame(a) + x == Field(a.path) + (Field(a.hash) + (Length64(a.size) + x))
  {
    Append(Field(a.path) + Field(a.hash), Length64(a.size), x);
    Append(Field(a.path), Field(a.hash), Length64(a.size) + x);
  }

  /** The bytes that are hashed determine the records, in order. */
  lemma {:induction false} InputFramingInjective(a: seq<Input>, b: seq<Input>)
    requires InputsOk(a) && InputsOk(b) && InputFrames(a) == InputFrames(b)
    ensures a == b
  {
    if a != [] && b != [] {
      InputSplits(a[0], InputFrames(a[1..]), b[0], InputFrames(b[1..]));
      InputFramingInjective(a[1..], b[1..]);
      assert a == [a[0]] + a[1..] && b == [b[0]] + b[1..];
    }
  }

  lemma {:induction false} InputFramesSnoc(inputs: seq<Input>, x: Input)
    ensures InputFrames(inputs + [x]) == InputFrames(inputs) + InputFrame(x)
  {
    if inputs == [] {
      assert [] + [x] == [x];
    } else {
      assert (inputs + [x])[1..] == inputs[1..] + [x];
      InputFramesSnoc(inputs[1..], x);
    }
  }

  /** Appends one input; a size that does not fit eight bytes is an error. */
  method AppendInput(before: Bytes, x: Input) returns (framed: Option<Bytes>)
    ensures framed == if x.size < TWO_64 then Some(before + InputFrame(x)) else None
  {
    var bytes := AppendFields(before, [x.path, x.hash]);
    FieldsConcat([x.path], [x.hash]);
    assert [x.path] + [x.hash] == [x.path, x.hash];
    OneField(x.path);
    OneField(x.hash);
    if x.size >= TWO_64 {
      return None;
    }
    Append(before, Field(x.path) + Field(x.hash), Length64(x.size));
    return Some(bytes + Length64(x.size));
  }

  lemma FramesStep(inputs: seq<Input>, i: nat)
    requires i < |inputs|
    ensures InputHeader() + InputFrames(inputs[..i + 1]) ==
            InputHeader() + InputFrames(inputs[..i]) + InputFrame(inputs[i])
    ensures InputsOk(inputs[..i + 1]) <==> InputsOk(inputs[..i]) && InputOk(inputs[i])
  {
    assert inputs[..i + 1] == inputs[..i] + [inputs[i]];
    InputFramesSnoc(inputs[..i], inputs[i]);
    Append(InputHeader(), InputFrames(inputs[..i]), InputFrame(inputs[i]));
  }

  /** The digest input grows record by record. */
  method FrameInputs(inputs: seq<Input>) returns (framed: Option<Bytes>)
    requires forall i :: 0 <= i < |inputs| ==> Short(inputs[i].path) && |inputs[i].hash| == 32
    ensures framed == if InputsOk(inputs) then Some(InputHeader() + InputFrames(inputs)) else None
  {
    var bytes := InputHeader();
    for i := 0 to |inputs|
      invariant InputsOk(inputs[..i]) && bytes == InputHeader() + InputFrames(inputs[..i])
    {
      FramesStep(inputs, i);
      var next := AppendInput(bytes, inputs[i]);
      if next.None? {
        return None;
      }
      bytes := next.value;
    }
    assert inputs[..|inputs|] == inputs;
    return Some(bytes);
  }

  function InputHeader(): Bytes {
    Ascii("tsz-conformance-build-inputs-v1") + [0]
  }

  // ------------------------------------------------------------ package listing

  /** One regular file of a package, with its slash-separated path. */
  datatype File = File(path: Bytes, content: Bytes)

  predicate NulFree(s: Bytes) {
    0 !in s
  }

  function ListingFrame(files: seq<File>): Bytes {
    if files == [] then []
    else files[0].path + [0] + files[0].content + [0] + ListingFrame(files[1..])
  }

  lemma FirstNul(a: Bytes, x: Bytes, i: nat)
    requires NulFree(a) && i <= |a|
    ensures (a + [0] + x)[i] == 0 <==> i == |a|
  {
  }

  lemma NulSplits(a: Bytes, x: Bytes, b: Bytes, y: Bytes)
    requires NulFree(a) && NulFree(b) && a + [0] + x == b + [0] + y
    ensures a == b && x == y
  {
    var s, t := a + [0] + x, b + [0] + y;
    var least := if |a| < |b| then |a| else |b|;
    FirstNul(a, x, least);
    FirstNul(b, y, least);
    assert a == s[..|a|] && b == t[..|b|];
    assert x == s[|a| + 1..] && y == t[|b| + 1..];
  }

  /** Which paths a package can have, and which path the walk can visit after which. */
  datatype Walk = Walk(path: Bytes -> bool, before: (Bytes, Bytes) -> bool)

  ghost predicate NulFreePaths(walk: Walk) {
    forall path :: walk.path(path) ==> NulFree(path)
  }

  /** The files of a package in the order of the walk. */
  ghost predicate Listing(walk: Walk, files: seq<File>) {
    && (forall i :: 0 <= i < |files| ==> walk.path(files[i].path))
    && (forall i, j :: 0 <= i < j < |files| ==> walk.before(files[i].path, files[j].path))
  }

  lemma {:induction false} ListingEndsInNul(files: seq<File>)
    requires files != []
    ensures ListingFrame(files) != [] && ListingFrame(files)[|ListingFrame(files)| - 1] == 0
  {
    if |files| > 1 {
      ListingEndsInNul(files[1..]);
    }
  }

  /** Everything after the first path, as the content of one file. */
  function Swallow(files: seq<File>): File
    requires |files| >= 2
  {
    ListingEndsInNul(files[1..]);
    var tail := ListingFrame(files[1..]);
    File(files[0].path, files[0].content + [0] + tail[..|tail| - 1])
  }

  lemma HeadOfListing(files: seq<File>)
    requires files != []
    ensures ListingFrame(files) == files[0].path + [0] + (files[0].content + [0] + ListingFrame(files[1..]))
  {
    var path, content, rest := files[0].path + [0], files[0].content, ListingFrame(files[1..]);
    Append(path, content, [0]);
    Append(path, content + [0], rest);
  }

  /** Any listing of two or more files has the bytes of a listing with the first file only. */
  lemma SwallowCollides(files: seq<File>)
    requires |files| >= 2
    ensures ListingFrame([Swallow(files)]) == ListingFrame(files)
  {
    var one, tail := [Swallow(files)], ListingFrame(files[1..]);
    HeadOfListing(files);
    HeadOfListing(one);
    ListingEndsInNul(files[1..]);
    var content, front := files[0].content + [0], tail[..|tail| - 1];
    assert one[1..] == [] && tail == front + [0] && (content + front + [0]) + [] == content + front + [0];
    Append(content, front, [0]);
  }

  /** A NUL byte, a path the walk could visit next, and a NUL byte. */
  ghost predicate HidesAt(walk: Walk, file: File, i: nat, j: nat) {
    && i < j < |file.content| && file.content[i] == 0 && file.content[j] == 0
    && walk.path(file.content[i + 1..j]) && walk.before(file.path, file.content[i + 1..j])
  }

  function Split(file: File, i: nat, j: nat): seq<File>
    requires i < j < |file.content|
  {
    [File(file.path, file.content[..i]), File(file.content[i + 1..j], file.content[j + 1..])]
  }

  /** Such content reads as the end of its file and a second file. */
  lemma SplitCollides(file: File, i: nat, j: nat)
    requires i < j < |file.content| && file.content[i] == 0 && file.content[j] == 0
    ensures ListingFrame(Split(file, i, j)) == ListingFrame([file])
  {
    var two, c := Split(file, i, j), file.content;
    HeadOfListing([file]);
    HeadOfListing(two);
    HeadOfListing(two[1..]);
    assert [file][1..] == [] && two[1..][1..] == [];
    assert c == c[..i] + [0] + (c[i + 1..j] + [0] + c[j + 1..]);
    assert c + [0] + [] == c[..i] + [0] + (c[i + 1..j] + [0] + (c[j + 1..] + [0] + []));
  }

  lemma SameSingle(a: File, b: File)
    requires NulFree(a.path) && NulFree(b.path) && ListingFrame([a]) == ListingFrame([b])
    ensures a == b
  {
    HeadOfListing([a]);
    HeadOfListing([b]);
    assert [a][1..] == [] && [b][1..] == [];
    var x, y := a.content + [0] + [], b.content + [0] + [];
    NulSplits(a.path, x, b.path, y);
    assert a.content == x[..|x| - 1] && b.content == y[..|y| - 1];
  }

  lemma HiddenAt(c: Bytes, first: Bytes, next: Bytes, tail: Bytes)
    requires c + [0] == first + [0] + (next + [0] + tail) && tail != []
    ensures var i, j := |first|, |first| + 1 + |next|;
            j < |c| && c[i] == 0 && c[j] == 0 && c[i + 1..j] == next
  {
    var whole, i, j := c + [0], |first|, |first| + 1 + |next|;
    assert |whole| == j + 1 + |tail|;
    assert whole[i] == 0 && whole[j] == 0 && whole[i + 1..j] == next;
    assert c == whole[..|c|];
  }

  /** Another listing of the same bytes shows where a single file hides a second one. */
  lemma HiddenFile(walk: Walk, file: File, other: seq<File>) returns (i: nat, j: nat)
    requires NulFreePaths(walk) && Listing(walk, [file]) && Listing(walk, other)
    requires other != [file] && ListingFrame(other) == ListingFrame([file])
    ensures HidesAt(walk, file, i, j)
  {
    assert [file][0] == file;
    ListingEndsInNul([file]);
    assert other != [];
    HeadOfListing([file]);
    HeadOfListing(other);
    var first, rest := other[0].content, other[1..];
    assert rest != [] by {
      if rest == [] {
        assert other == [other[0]];
        SameSingle(other[0], file);
      }
    }
    NulSplits(other[0].path, first + [0] + ListingFrame(rest), file.path, file.content + [0] + []);
    HeadOfListing(rest);
    ListingEndsInNul(rest);
    HiddenAt(file.content, first, rest[0].path, rest[0].content + [0] + ListingFrame(rest[1..]));
    assert other[1] == rest[0];
    i, j := |first|, |first| + 1 + |rest[0].path|;
  }

  ghost predicate Collides(walk: Walk, files: seq<File>) {
    exists other :: Listing(walk, other) && other != files && ListingFrame(other) == ListingFrame(files)
  }

  /** Exactly which packages share their bytes with another one: all of two or more files,
      and those of one file in which a second one is hidden. */
  lemma CollidesExactly(walk: Walk, files: seq<File>)
    requires NulFreePaths(walk) && Listing(walk, files)
    ensures Collides(walk, files) <==>
            || |files| >= 2
            || (|files| == 1 && exists i, j :: HidesAt(walk, files[0], i, j))
  {
    if |files| >= 2 {
      SwallowCollides(files);
      assert Listing(walk, [Swallow(files)]);
    } else if |files| == 1 {
      assert files == [files[0]];
      if i, j :| HidesAt(walk, files[0], i, j) {
        SplitCollides(files[0], i, j);
        assert Listing(walk, Split(files[0], i, j));
      }
      if other :| Listing(walk, other) && other != files && ListingFrame(other) == ListingFrame(files) {
        var i, j := HiddenFile(walk, files[0], other);
      }
    } else if other :| Listing(walk, other) && other != files && ListingFrame(other) == ListingFrame(files) {
      ListingEndsInNul(other);
    }
  }

  predicate HoldsTwoNuls(content: Bytes) {
    exists i, j :: 0 <= i < j < |content| && content[i] == 0 && content[j] == 0
  }

  function AnyOrder(): Walk {
    Walk(path => NulFree(path), (a, b) => true)
  }

  lemma {:induction false} NextNul(content: Bytes, i: nat, j: nat) returns (next: nat)
    requires i < j < |content| && content[i] == 0 && content[j] == 0
    ensures i < next <= j && content[next] == 0 && NulFree(content[i + 1..next])
    decreases j
  {
    if NulFree(content[i + 1..j]) {
      next := j;
    } else {
      var k :| 0 <= k < j - i - 1 && content[i + 1..j][k] == 0;
      next := NextNul(content, i, i + 1 + k);
    }
  }

  /** When nothing is asked of paths but to have no NUL byte, two NUL bytes in the content
      of a single file are what makes it ambiguous. */
  lemma CollidesInAnyOrder(files: seq<File>)
    requires Listing(AnyOrder(), files)
    ensures Collides(AnyOrder(), files) <==> |files| >= 2 || (|files| == 1 && HoldsTwoNuls(files[0].content))
  {
    CollidesExactly(AnyOrder(), files);
    if |files| == 1 && HoldsTwoNuls(files[0].content) {
      var i, j :| 0 <= i < j < |files[0].content| && files[0].content[i] == 0 && files[0].content[j] == 0;
      var next := NextNul(files[0].content, i, j);
      assert HidesAt(AnyOrder(), files[0], i, next);
    }
  }

  lemma {:induction false} ListingSnoc(files: seq<File>, file: File)
    ensures ListingFrame(files + [file]) == ListingFrame(files) + (file.path + [0] + file.content + [0])
  {
    if files == [] {
      assert [] + [file] == [file] && [file][1..] == [];
    } else {
      assert (files + [file])[1..] == files[1..] + [file];
      ListingSnoc(files[1..], file);
    }
  }
}
