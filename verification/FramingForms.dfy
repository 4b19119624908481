// The framings by what a reader takes back out of them.

module FramingForms {
  import opened Wrappers
  import opened Fips180
  import opened Sorting
  import opened Framing

  // ------------------------------------------------------------------- order

  /** Bytes compare at the first difference. */
  ghost predicate BytesBefore(a: Bytes, b: Bytes) {
    exists i :: LexAt(ByteLess, a, b, i)
  }

  lemma LexOfThree<T>(less: (T, T) -> bool, a0: T, a1: T, a2: T, b0: T, b1: T, b2: T)
    ensures LexLess(less, [a0, a1, a2], [b0, b1, b2]) <==>
            less(a0, b0) || (a0 == b0 && (less(a1, b1) || (a1 == b1 && less(a2, b2))))
  {
    var a, b := [a0, a1, a2], [b0, b1, b2];
    assert a[1..] == [a1, a2] && b[1..] == [b1, b2];
    assert a[1..][1..] == [a2] && b[1..][1..] == [b2];
    assert !LexLess(less, a[1..][1..][1..], b[1..][1..][1..]);
    assert LexLess(less, a[1..][1..], b[1..][1..]) <==> less(a2, b2);
    assert LexLess(less, a[1..], b[1..]) <==> less(a1, b1) || (a1 == b1 && less(a2, b2));
  }

  /** Candidates are ordered by path, then by disposition, then by source. */
  lemma CandidateOrderExactly(a: Candidate, b: Candidate)
    ensures CandidateLess(a, b) <==>
            || BytesBefore(a.path, b.path)
            || (a.path == b.path && BytesBefore(a.disposition, b.disposition))
            || (a.path == b.path && a.disposition == b.disposition && BytesBefore(a.source, b.source))
  {
    LexOfThree(Lex(ByteLess), a.path, a.disposition, a.source, b.path, b.disposition, b.source);
    LexExactly(ByteLess, a.path, b.path);
    LexExactly(ByteLess, a.disposition, b.disposition);
    LexExactly(ByteLess, a.source, b.source);
  }

  // ------------------------------------------------------------------- reading

  datatype Cut = Cut(value: Bytes, rest: Bytes)

  /** Eight bytes of length, and as many bytes. */
  function ReadField(s: Bytes): Option<Cut> {
    if |s| < 8 || |s| - 8 < FromBigEndian(s[..8]) then None
    else Some(Cut(s[8..][..FromBigEndian(s[..8])], s[8..][FromBigEndian(s[..8])..]))
  }

  lemma ReadsField(value: Bytes, rest: Bytes)
    requires Short(value)
    ensures ReadField(Field(value) + rest) == Some(Cut(value, rest))
  {
    Length64RoundTrip(|value|);
    var s := Field(value) + rest;
    assert s[..8] == Length64(|value|) && s[8..] == value + rest;
  }

  function ReadFields(s: Bytes, n: nat): Option<seq<Bytes>> {
    if n == 0 then (if s == [] then Some([]) else None)
    else
      var first := ReadField(s);
      if first.None? then None
      else
        var rest := ReadFields(first.value.rest, n - 1);
        if rest.None? then None else Some([first.value.value] + rest.value)
  }

  lemma ReadsMore(value: Bytes, s: Bytes, rest: seq<Bytes>)
    requires Short(value) && ReadFields(s, |rest|) == Some(rest)
    ensures ReadFields(Field(value) + s, |rest| + 1) == Some([value] + rest)
  {
    ReadsField(value, s);
  }

  lemma {:induction false} ReadsFields(values: seq<Bytes>)
    requires AllShort(values)
    ensures ReadFields(Fields(values), |values|) == Some(values)
  {
    if values != [] {
      ReadsFields(values[1..]);
      ReadsMore(values[0], Fields(values[1..]), values[1..]);
      assert values == [values[0]] + values[1..];
    }
  }

  /** Path, disposition and source of one candidate after another. */
  function Spelled(records: seq<Candidate>): seq<Bytes> {
    if records == [] then []
    else Spelled(records[..|records| - 1]) + [records[|records| - 1].path, records[|records| - 1].disposition, records[|records| - 1].source]
  }

  lemma {:induction false} FlattenSpells(records: seq<Candidate>)
    ensures Flatten(records) == Spelled(records)
  {
    if records != [] {
      FlattenSpells(records[..|records| - 1]);
    }
  }

  lemma CandidateHeaderLiteral()
    ensures |CandidateHeader()| == 37 && CandidateHeader()[36] == 0
    ensures forall i :: 0 <= i < 36 ==> CandidateHeader()[i] as char == "tsz-conformance-candidate-content-v1"[i]
  {
  }

  /** Behind the header stand the fields of the candidates in order, each of which a
      reader gets back. */
  lemma CandidatesReadBack(records: seq<Candidate>)
    requires ShortRecords(records)
    ensures var frame := CandidateFrame(records);
            && |frame| >= 37 && frame[36] == 0
            && (forall i :: 0 <= i < 36 ==> frame[i] as char == "tsz-conformance-candidate-content-v1"[i])
            && ReadFields(frame[37..], 3 * |records|) == Some(Spelled(Sort(CandidateLess, records)))
  {
    CandidateHeaderLiteral();
    SortedShort(records);
    var sorted := Sort(CandidateLess, records);
    CandidateOrder();
    SortCorrect(CandidateLess, records);
    assert |sorted| == |multiset(sorted)| == |records|;
    FlattenSpells(sorted);
    ReadsFields(Flatten(sorted));
    assert CandidateFrame(records)[37..] == Fields(Flatten(sorted));
  }

  function ReadInputs(s: Bytes, n: nat): Option<seq<Input>> {
    if n == 0 then (if s == [] then Some([]) else None)
    else
      var path := ReadField(s);
      if path.None? then None
      else
        var hash := ReadField(path.value.rest);
        if hash.None? || |hash.value.rest| < 8 then None
        else
          var size, rest := FromBigEndian(hash.value.rest[..8]), ReadInputs(hash.value.rest[8..], n - 1);
          if rest.None? then None else Some([Input(path.value.value, hash.value.value, size)] + rest.value)
  }

  lemma ReadsInput(x: Input, rest: Bytes, n: nat)
    requires InputOk(x) && n > 0
    ensures var more := ReadInputs(rest, n - 1);
            ReadInputs(InputFrame(x) + rest, n) == if more.None? then None else Some([x] + more.value)
  {
    InputTail(x, rest);
    var sized := Length64(x.size) + rest;
    ReadsField(x.path, Field(x.hash) + sized);
    ReadsField(x.hash, sized);
    Length64RoundTrip(x.size);
    assert sized[..8] == Length64(x.size) && sized[8..] == rest;
  }

  lemma {:induction false} ReadsInputs(inputs: seq<Input>)
    requires InputsOk(inputs)
    ensures ReadInputs(InputFrames(inputs), |inputs|) == Some(inputs)
  {
    if inputs != [] {
      assert inputs == [inputs[0]] + inputs[1..];
      ReadsInputs(inputs[1..]);
      ReadsInput(inputs[0], InputFrames(inputs[1..]), |inputs|);
    }
  }

  /** The header and the records of the build inputs. */
  lemma InputsReadBack(inputs: seq<Input>)
    requires InputsOk(inputs)
    ensures var frame := InputHeader() + InputFrames(inputs);
            && |frame| >= 32 && frame[31] == 0
            && (forall i :: 0 <= i < 31 ==> frame[i] as char == "tsz-conformance-build-inputs-v1"[i])
            && ReadInputs(frame[32..], |inputs|) == Some(inputs)
  {
    ReadsInputs(inputs);
    assert (InputHeader() + InputFrames(inputs))[32..] == InputFrames(inputs);
  }

  // ------------------------------------------------------------------- packages

  /** The bytes before the first NUL byte, and those behind it. */
  function ReadToNul(s: Bytes): Option<Cut> {
    if s == [] then None
    else if s[0] == 0 then Some(Cut([], s[1..]))
    else
      var rest := ReadToNul(s[1..]);
      if rest.None? then None else Some(Cut([s[0]] + rest.value.value, rest.value.rest))
  }

  lemma {:induction false} ReadsToNul(value: Bytes, rest: Bytes)
    requires NulFree(value)
    ensures ReadToNul(value + [0] + rest) == Some(Cut(value, rest))
  {
    var s := value + [0] + rest;
    if value == [] {
      assert s[1..] == rest;
    } else {
      assert s[1..] == value[1..] + [0] + rest && s[0] == value[0] && value == [value[0]] + value[1..];
      ReadsToNul(value[1..], rest);
    }
  }

  function ReadListing(s: Bytes, n: nat): Option<seq<File>>
    decreases n
  {
    if n == 0 then (if s == [] then Some([]) else None)
    else
      var path := ReadToNul(s);
      if path.None? then None
      else
        var content := ReadToNul(path.value.rest);
        if content.None? then None
        else
          var rest := ReadListing(content.value.rest, n - 1);
          if rest.None? then None else Some([File(path.value.value, content.value.value)] + rest.value)
  }

  /** Without NUL bytes in paths and contents, a reader gets every file back. */
  lemma {:induction false} ListingReadsBack(files: seq<File>)
    requires forall i :: 0 <= i < |files| ==> NulFree(files[i].path) && NulFree(files[i].content)
    ensures ReadListing(ListingFrame(files), |files|) == Some(files)
  {
    if files != [] {
      HeadOfListing(files);
      ReadsToNul(files[0].path, files[0].content + [0] + ListingFrame(files[1..]));
      ReadsToNul(files[0].content, ListingFrame(files[1..]));
      ListingReadsBack(files[1..]);
      assert files == [files[0]] + files[1..];
    }
  }
}
