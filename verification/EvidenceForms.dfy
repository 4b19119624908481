// What process output comes to, from the texts a compiler writes: completion markers of
// batch output and the verdicts on printed diagnostics, for
// crates/conformance/src/tsz_wrapper.rs.

module EvidenceForms {
  import opened Wrappers
  import opened Diagnostics
  import opened DiagnosticLaws
  import opened DiagnosticRoundTrip
  import opened Evidence

  // ------------------------------------------------------------ completion markers

  /** The marker line of a completion; an incomplete run writes none. */
  function MarkerText(c: Completion): string
    requires !c.Incomplete?
  {
    match c
    case Complete => "---TSZ-SEMANTIC-COMPLETION:complete---"
    case Deferred => "---TSZ-SEMANTIC-COMPLETION:deferred---"
    case Cycle => "---TSZ-SEMANTIC-COMPLETION:cycle---"
    case Limit => "---TSZ-SEMANTIC-COMPLETION:limit---"
  }

  /** Any line that claims to be a marker. */
  predicate Claims(line: string) {
    "---TSZ-SEMANTIC-COMPLETION:" <= line
  }

  predicate IsEnd(end: string) {
    end == "\n" || end == "\r\n" || end == ""
  }

  lemma ClaimKept(line: string)
    requires line != "" && line[|line| - 1] != ':'
    ensures Claims(line) <==> Claims(line[..|line| - 1])
  {
    var word := "---TSZ-SEMANTIC-COMPLETION:";
    if Claims(line) {
      assert line[|word| - 1] == word[|word| - 1] == ':';
      assert line[..|word|] == word && line[..|line| - 1][..|word|] == word;
    }
  }

  lemma {:induction false} TrimmedPrefix(line: string)
    ensures TrimEnd(line) <= line
    ensures Claims(line) <==> Claims(TrimEnd(line))
  {
    if line != "" && (line[|line| - 1] == '\r' || line[|line| - 1] == '\n') {
      var front := line[..|line| - 1];
      TrimmedPrefix(front);
      ClaimKept(line);
    }
  }

  lemma ClaimIsMarker(line: string)
    ensures IsMarker(line) <==> Claims(line)
  {
    TrimmedPrefix(line);
  }

  lemma TrimmedMarker(c: Completion, end: string)
    requires !c.Incomplete? && IsEnd(end)
    ensures TrimEnd(MarkerText(c) + end) == MarkerText(c)
  {
    var text, line := MarkerText(c), MarkerText(c) + end;
    assert text[|text| - 1] == '-';
    if end == "\n" {
      assert line[..|line| - 1] == text;
    } else if end == "\r\n" {
      var middle := text + "\r";
      assert line[..|line| - 1] == middle && middle[..|middle| - 1] == text;
      assert TrimEnd(line) == TrimEnd(middle) == TrimEnd(text);
    } else {
      assert line == text;
    }
  }

  /** A marker line says its completion, and no other line says one. */
  lemma MarkerSays(line: string, c: Completion)
    ensures MarkerOf(line) == Some(c) <==> !c.Incomplete? && TrimEnd(line) == MarkerText(c)
  {
    assert MARKER_PREFIX + "complete---" == MarkerText(Complete);
    assert MARKER_PREFIX + "deferred---" == MarkerText(Deferred);
    assert MARKER_PREFIX + "cycle---" == MarkerText(Cycle);
    assert MARKER_PREFIX + "limit---" == MarkerText(Limit);
    MarkersDiffer();
  }

  lemma MarkersDiffer()
    ensures forall a: Completion, b: Completion :: !a.Incomplete? && !b.Incomplete? && MarkerText(a) == MarkerText(b) ==> a == b
  {
    forall a: Completion, b: Completion | !a.Incomplete? && !b.Incomplete? && MarkerText(a) == MarkerText(b)
      ensures a == b
    {
      assert MarkerText(a)[27] == MarkerText(b)[27];
      assert MarkerText(a)[28] == MarkerText(b)[28];
    }
  }

  // ----------------------------------------------------------------- the stripping

  function Concat(pieces: seq<string>): string {
    if pieces == [] then "" else pieces[0] + Concat(pieces[1..])
  }

  /** Pieces of a text: each ends at its first line feed, but the last may have none. */
  ghost predicate Pieces(pieces: seq<string>) {
    forall i :: 0 <= i < |pieces| ==>
      && pieces[i] != "" && '\n' !in pieces[i][..|pieces[i]| - 1]
      && (i < |pieces| - 1 ==> pieces[i][|pieces[i]| - 1] == '\n')
  }

  lemma FirstPiece(first: string, rest: string)
    requires first != "" && '\n' !in first[..|first| - 1] && (first[|first| - 1] == '\n' || rest == "")
    ensures SplitInclusive(first + rest) == [first] + SplitInclusive(rest)
  {
    var text := first + rest;
    forall i | 0 <= i < |first| - 1
      ensures text[i] != '\n'
    {
      assert text[i] == first[..|first| - 1][i];
    }
    LineEndAt(text, |first|);
    assert text[..|first|] == first && text[|first|..] == rest;
  }

  lemma {:induction false} SplitConcat(pieces: seq<string>)
    requires Pieces(pieces)
    ensures SplitInclusive(Concat(pieces)) == pieces
  {
    if pieces != [] {
      assert Pieces(pieces[1..]);
      SplitConcat(pieces[1..]);
      assert |pieces| == 1 ==> pieces[1..] == [];
      FirstPiece(pieces[0], Concat(pieces[1..]));
    }
  }

  function Claiming(pieces: seq<string>): seq<string> {
    if pieces == [] then []
    else (if Claims(pieces[0]) then [pieces[0]] else []) + Claiming(pieces[1..])
  }

  function Plain(pieces: seq<string>): string {
    if pieces == [] then ""
    else (if Claims(pieces[0]) then "" else pieces[0]) + Plain(pieces[1..])
  }

  lemma Behind<T>(a: seq<T>, b: seq<T>, c: seq<T>)
    ensures a + (b + c) == (a + b) + c
  {
  }

  lemma {:induction false} ClaimingConcat(a: seq<string>, b: seq<string>)
    ensures Claiming(a + b) == Claiming(a) + Claiming(b)
  {
    if a == [] {
      assert a + b == b;
    } else {
      assert (a + b)[1..] == a[1..] + b;
      ClaimingConcat(a[1..], b);
      Behind(if Claims(a[0]) then [a[0]] else [], Claiming(a[1..]), Claiming(b));
    }
  }

  lemma {:induction false} PlainTogether(a: seq<string>, b: seq<string>)
    ensures Plain(a + b) == Plain(a) + Plain(b)
  {
    if a == [] {
      assert a + b == b;
    } else {
      assert (a + b)[1..] == a[1..] + b;
      PlainTogether(a[1..], b);
      Behind(if Claims(a[0]) then "" else a[0], Plain(a[1..]), Plain(b));
    }
  }

  lemma ClaimingOne(last: string)
    ensures Claiming([last]) == (if Claims(last) then [last] else [])
    ensures Plain([last]) == (if Claims(last) then "" else last)
  {
    assert [last][1..] == [];
  }

  lemma ClaimingLast(front: seq<string>, last: string)
    ensures Claiming(front + [last]) == Claiming(front) + (if Claims(last) then [last] else [])
    ensures Plain(front + [last]) == Plain(front) + (if Claims(last) then "" else last)
  {
    ClaimingConcat(front, [last]);
    PlainTogether(front, [last]);
    ClaimingOne(last);
  }

  lemma {:induction false} MarkersAreClaims(pieces: seq<string>)
    ensures Markers(pieces) == Claiming(pieces) && Unmarked(pieces) == Plain(pieces)
  {
    if pieces != [] {
      var front, last := pieces[..|pieces| - 1], pieces[|pieces| - 1];
      MarkersAreClaims(front);
      ClaimIsMarker(last);
      ClaimingLast(front, last);
      assert pieces == front + [last];
    }
  }

  /** Stripping a text: what is left are the lines that claim nothing, and the completion
      is the one that the only claiming line states, if it states one. */
  lemma StripReads(pieces: seq<string>, c: Completion)
    requires Pieces(pieces)
    ensures var found := SplitInclusive(Concat(pieces));
            && Unmarked(found) == Plain(pieces)
            && (!c.Incomplete? ==>
                  (Verdict(Markers(found)) == c <==> |Claiming(pieces)| == 1 && TrimEnd(Claiming(pieces)[0]) == MarkerText(c)))
  {
    SplitConcat(pieces);
    MarkersAreClaims(pieces);
    if |Claiming(pieces)| == 1 {
      MarkerSays(Claiming(pieces)[0], c);
    }
  }

  lemma {:induction false} PlainConcat(pieces: seq<string>)
    requires forall i :: 0 <= i < |pieces| ==> !Claims(pieces[i])
    ensures Claiming(pieces) == [] && Plain(pieces) == Concat(pieces)
  {
    if pieces != [] {
      PlainConcat(pieces[1..]);
    }
  }

  /** Stripping undoes marking: a marker among lines that claim nothing, wherever it
      stands, is read as its completion and removed. */
  lemma StripUndoesMark(before: seq<string>, c: Completion, end: string, after: seq<string>)
    requires !c.Incomplete? && IsEnd(end) && Pieces(before + [MarkerText(c) + end] + after)
    requires forall i :: 0 <= i < |before| ==> !Claims(before[i])
    requires forall i :: 0 <= i < |after| ==> !Claims(after[i])
    ensures var found := SplitInclusive(Concat(before + [MarkerText(c) + end] + after));
            Verdict(Markers(found)) == c && Unmarked(found) == Concat(before) + Concat(after)
  {
    TrimmedMarker(c, end);
    OneMarker(before, MarkerText(c) + end, after, c);
  }

  lemma OneClaim(before: seq<string>, marker: string, after: seq<string>)
    requires Claims(marker) && forall i :: 0 <= i < |before| ==> !Claims(before[i])
    requires forall i :: 0 <= i < |after| ==> !Claims(after[i])
    ensures var all := before + [marker] + after;
            Claiming(all) == [marker] && Plain(all) == Concat(before) + Concat(after)
  {
    PlainConcat(before);
    PlainConcat(after);
    ClaimingLast(before, marker);
    ClaimingConcat(before + [marker], after);
    PlainTogether(before + [marker], after);
    assert Concat(before) + "" == Concat(before) && [] + [marker] + [] == [marker];
  }

  lemma OneMarker(before: seq<string>, marker: string, after: seq<string>, c: Completion)
    requires !c.Incomplete? && TrimEnd(marker) == MarkerText(c) && Pieces(before + [marker] + after)
    requires forall i :: 0 <= i < |before| ==> !Claims(before[i])
    requires forall i :: 0 <= i < |after| ==> !Claims(after[i])
    ensures var found := SplitInclusive(Concat(before + [marker] + after));
            Verdict(Markers(found)) == c && Unmarked(found) == Concat(before) + Concat(after)
  {
    MarkerClaims(marker, c);
    OneClaim(before, marker, after);
    StripReads(before + [marker] + after, c);
  }

  lemma MarkerClaims(marker: string, c: Completion)
    requires !c.Incomplete? && TrimEnd(marker) == MarkerText(c)
    ensures Claims(marker)
  {
    TrimmedPrefix(marker);
    assert Claims(MarkerText(c));
  }

  // ------------------------------------------------------------- verdicts on output

  /** The verdict by exit status, for output that is understood and comes from one stream. */
  lemma StatusTable(r: Reader, output: Output)
    requires output.stdout.utf8 && output.stderr.utf8
    requires Parse(r, output.stdout.text).covered && Parse(r, output.stderr.text).covered
    requires Parse(r, output.stdout.text).fingerprints == [] || Parse(r, output.stderr.text).fingerprints == []
    ensures var silent := Parse(r, output.stdout.text).fingerprints == [] && Parse(r, output.stderr.text).fingerprints == [];
            match output.exit
            case Signal => !Trusted(r, output)
            case Code(status) =>
              && (status == 0 ==> Definitive(r, output))
              && (status == 1 || status == 2 ==> (Definitive(r, output) <==> !silent) && (Trusted(r, output) <==> !silent))
              && (status == 3 ==> Trusted(r, output) && !Definitive(r, output))
              && (status < 0 || status > 3 ==> !Trusted(r, output))
  {
  }

  /** Output with bytes that are no text, with lines that are not understood, or with
      diagnostics on both streams is never trusted. */
  lemma NeverTrusted(r: Reader, output: Output)
    requires || !output.stdout.utf8 || !output.stderr.utf8
             || !Parse(r, output.stdout.text).covered || !Parse(r, output.stderr.text).covered
             || (Parse(r, output.stdout.text).fingerprints != [] && Parse(r, output.stderr.text).fingerprints != [])
    ensures !Trusted(r, output)
  {
  }

  /** A run that prints its diagnostics and exits with 0 to 2, and not with 1 or 2 in
      silence, is definitive evidence of exactly these diagnostics, unless its summary
      miscounts them. */
  lemma PrintedRunIsDefinitive(
      t: Transport, blocks: seq<Block>, total: Option<Total>, lines: seq<Terminated>, last: string, status: int)
    requires TransportOk(t)
    requires forall i :: 0 <= i < |blocks| ==> Printable(t, blocks[i])
    requires forall i :: 0 <= i < |lines| ==> Whole(lines[i])
    requires '\n' !in last && Unterminated(lines, last) == DocumentLines(blocks, total)
    requires 0 <= status <= 2 && (status != 0 ==> blocks != [])
    ensures var output := Output(Code(status), Stream(Join(lines, last), true), Stream("", true));
            && (Definitive(Patterns(t), output) <==>
                  total.None? || (total.value.count == |blocks| && |blocks| < 0x1_0000_0000_0000_0000))
            && AllFingerprints(Patterns(t), output) == ExpectedAll(t, blocks)
  {
    var output := Output(Code(status), Stream(Join(lines, last), true), Stream("", true));
    ParseUndoesPrint(t, blocks, total, lines, last);
    EmptyText(Patterns(t));
    assert ExpectedAll(t, blocks) + [] == ExpectedAll(t, blocks);
  }
}
