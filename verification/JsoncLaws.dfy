// What the two passes of the JSONC normaliser do together.

module JsoncLaws {
  import opened Wrappers
  import opened Jsonc

  function Uncomment(labels: Labels): (code: Labels)
    ensures |code| == |labels|
  {
    seq(|labels|, i requires 0 <= i < |labels| => if labels[i] == Comment then Code else labels[i])
  }

  // -------------------------------------------- the passes agree about strings

  predicate AllWhite(s: Bytes) {
    forall i :: 0 <= i < |s| ==> IsWhite(s[i])
  }

  lemma WhiteFirst(s: Bytes)
    requires s != [] && IsWhite(s[0])
    ensures LexStrings(s, false) == [Code] + LexStrings(s[1..], false)
    ensures Lex(s, false) == Then([Code], Lex(s[1..], false))
  {
    assert First(s, false) == Some(Token([Code], false));
  }

  lemma {:induction false} WhiteIsCode(white: Bytes, rest: Bytes)
    requires AllWhite(white)
    ensures LexStrings(white + rest, false) == Repeat(Code, |white|) + LexStrings(rest, false)
    ensures Lex(white + rest, false) == Then(Repeat(Code, |white|), Lex(rest, false))
  {
    if white == [] {
      assert white + rest == rest;
      ThenNothing(Lex(rest, false));
    } else {
      var s, n := white + rest, |white| - 1;
      assert s[1..] == white[1..] + rest;
      WhiteFirst(s);
      WhiteIsCode(white[1..], rest);
      OneMore(n, LexStrings(rest, false));
      ThenTwice([Code], Repeat(Code, n), Lex(rest, false));
    }
  }

  lemma OneMore(n: nat, rest: Labels)
    ensures [Code] + Repeat(Code, n) == Repeat(Code, n + 1)
    ensures [Code] + (Repeat(Code, n) + rest) == Repeat(Code, n + 1) + rest
  {
    assert [Code] + (Repeat(Code, n) + rest) == ([Code] + Repeat(Code, n)) + rest;
  }

  lemma ThenNothing(rest: Option<Labels>)
    ensures Then([], rest) == rest
  {
    if rest.Some? {
      assert [] + rest.value == rest.value;
    }
  }

  lemma ThenTwice(a: Labels, b: Labels, rest: Option<Labels>)
    ensures Then(a, Then(b, rest)) == Then(a + b, rest)
  {
    if rest.Some? {
      assert a + (b + rest.value) == (a + b) + rest.value;
    }
  }

  ghost predicate Agrees(s: Bytes, inString: bool, labels: Labels)
    requires |labels| == |s|
  {
    && LexStrings(Blank(s, labels), inString) == Uncomment(labels)
    && Lex(Blank(s, labels), inString) == Some(Uncomment(labels))
  }

  lemma UncommentConcat(a: Labels, b: Labels)
    ensures Uncomment(a + b) == Uncomment(a) + Uncomment(b)
  {
  }

  lemma BehindWhite(white: Bytes, tail: Bytes, code: Labels)
    requires AllWhite(white) && LexStrings(tail, false) == code && Lex(tail, false) == Some(code)
    ensures LexStrings(white + tail, false) == Repeat(Code, |white|) + code
    ensures Lex(white + tail, false) == Some(Repeat(Code, |white|) + code)
  {
    WhiteIsCode(white, tail);
  }

  lemma CommentAgrees(s: Bytes, n: nat, rest: Labels)
    requires n <= |s| && |rest| == |s| - n && Agrees(s[n..], false, rest)
    ensures Agrees(s, false, Repeat(Comment, n) + rest)
  {
    var comment, white := Repeat(Comment, n), Blank(s[..n], Repeat(Comment, n));
    assert s == s[..n] + s[n..];
    BlankConcat(s[..n], comment, s[n..], rest);
    UncommentConcat(comment, rest);
    assert Uncomment(comment) == Repeat(Code, n);
    BehindWhite(white, Blank(s[n..], rest), Uncomment(rest));
  }

  lemma KeptFirst(s: Bytes, out: Bytes, inString: bool, token: Token)
    requires s != [] && |out| == |s| && out[0] == s[0] && (|s| > 1 ==> out[1] == s[1] || IsWhite(out[1]))
    requires First(s, inString) == Some(token) && token.labels[0] != Comment
    ensures First(out, inString) == Some(token)
    ensures LexStrings(out, inString) == token.labels + LexStrings(out[|token.labels|..], token.inString)
  {
  }

  lemma KeptAgrees(s: Bytes, inString: bool, token: Token, rest: Labels)
    requires s != [] && First(s, inString) == Some(token) && token.labels[0] != Comment
    requires |rest| == |s| - |token.labels| && Agrees(s[|token.labels|..], token.inString, rest)
    ensures Agrees(s, inString, token.labels + rest)
  {
    var n := |token.labels|;
    var labels := token.labels + rest;
    var out, tail := Blank(s, labels), Blank(s[n..], rest);
    assert s == s[..n] + s[n..] && forall i :: 0 <= i < n ==> token.labels[i] != Comment;
    BlankConcat(s[..n], token.labels, s[n..], rest);
    assert out[n..] == tail;
    KeptFirst(s, out, inString, token);
    UncommentConcat(token.labels, rest);
    assert Uncomment(token.labels) == token.labels;
  }

  /** A source without its comments has the same strings and no comments. */
  lemma {:induction false} PassesAgree(s: Bytes, inString: bool)
    requires Lex(s, inString).Some?
    ensures Agrees(s, inString, Lex(s, inString).value)
    decreases |s|
  {
    if s != [] {
      var token := First(s, inString).value;
      var n := |token.labels|;
      PassesAgree(s[n..], token.inString);
      if token.labels[0] == Comment {
        CommentAgrees(s, n, Lex(s[n..], false).value);
      } else {
        KeptAgrees(s, inString, token, Lex(s[n..], token.inString).value);
      }
    }
  }

  /** Stripping comments twice is stripping them once. */
  lemma StripIdempotent(s: Bytes)
    requires Stripped(s, false).Some?
    ensures Stripped(Stripped(s, false).value, false) == Stripped(s, false)
  {
    PassesAgree(s, false);
    var labels := Lex(s, false).value;
    var out := Blank(s, labels);
    assert Blank(out, Uncomment(labels)) == out;
  }

  // --------------------------------------------------------- both passes in one

  /** White space and comments carry no meaning. */
  predicate Trivia(s: Bytes, labels: Labels, i: nat)
    requires i < |s| == |labels|
  {
    labels[i] == Comment || IsWhite(s[i])
  }

  function SkipTrivia(s: Bytes, labels: Labels, i: nat): (j: nat)
    requires i <= |s| == |labels|
    ensures i <= j <= |s|
    decreases |s| - i
  {
    if i < |s| && Trivia(s, labels, i) then SkipTrivia(s, labels, i + 1) else i
  }

  /** A comma of the source outside strings whose next meaningful byte closes a list. */
  predicate IsTrailingComma(s: Bytes, labels: Labels, i: nat)
    requires i < |s| == |labels|
  {
    && labels[i] == Code && s[i] == COMMA
    && SkipTrivia(s, labels, i + 1) < |s| && IsCloser(s[SkipTrivia(s, labels, i + 1)])
  }

  /** Each byte of the normal form. */
  function NormalByte(s: Bytes, labels: Labels, i: nat): byte
    requires i < |s| == |labels|
  {
    if labels[i] == Comment then BlankByte(s[i])
    else if IsTrailingComma(s, labels, i) then SPACE
    else s[i]
  }

  function Normal(s: Bytes, labels: Labels): Bytes
    requires |labels| == |s|
  {
    seq(|s|, i requires 0 <= i < |s| => NormalByte(s, labels, i))
  }

  lemma {:induction false} SkipAgrees(s: Bytes, labels: Labels, i: nat)
    requires i <= |s| == |labels|
    ensures SkipWhite(Blank(s, labels), i) == SkipTrivia(s, labels, i)
    ensures var j := SkipTrivia(s, labels, i); j < |s| ==> Blank(s, labels)[j] == s[j]
    decreases |s| - i
  {
    if i < |s| && Trivia(s, labels, i) {
      SkipAgrees(s, labels, i + 1);
    }
  }

  lemma BothPasses(s: Bytes, labels: Labels)
    requires |labels| == |s|
    ensures DropCommas(Blank(s, labels), Uncomment(labels)) == Normal(s, labels)
  {
    var blanked := Blank(s, labels);
    forall i | 0 <= i < |s|
      ensures DropCommas(blanked, Uncomment(labels))[i] == NormalByte(s, labels, i)
    {
      SkipAgrees(s, labels, i + 1);
    }
  }

  /** The normal form of a source, when its comments end. */
  function Normalized(s: Bytes): Option<Bytes> {
    var labels := Lex(s, false);
    if labels.None? then None else Some(Normal(s, labels.value))
  }

  /** The byte order mark in UTF-8. */
  const MARK: Bytes := [0xEF, 0xBB, 0xBF]

  function TrimMarks(source: Bytes): Bytes {
    if MARK <= source then TrimMarks(source[3..]) else source
  }

  /** What the parser is given: comments blanked, and exactly the trailing commas
      outside strings. */
  method NormalizeJsonc(source: Bytes) returns (r: Option<Bytes>)
    ensures r == Normalized(TrimMarks(source))
  {
    var s := TrimMarks(source);
    var uncommented := StripComments(s);
    if uncommented.None? {
      return None;
    }
    ghost var labels := Lex(s, false).value;
    PassesAgree(s, false);
    BothPasses(s, labels);
    var normalized := StripTrailingCommas(uncommented.value);
    return Some(normalized);
  }

  /** Strings are copied, comments are blank, and line ends stay where they are. */
  lemma NormalFormKeeps(s: Bytes, i: nat)
    requires Lex(s, false).Some? && i < |s|
    ensures var labels, out := Lex(s, false).value, Normalized(s).value;
            && |out| == |s|
            && (labels[i] == Text ==> out[i] == s[i])
            && (labels[i] == Comment ==> IsWhite(out[i]))
            && (IsNewline(out[i]) <==> IsNewline(s[i])) && (IsNewline(s[i]) ==> out[i] == s[i])
  {
  }

  // -------------------------------------------------------------------- UTF-8

  predicate Continues(b: byte) {
    0x80 <= b < 0xC0
  }

  /** The length of the first character of well-formed UTF-8, by its first two bytes. */
  function CharLength(s: Bytes): nat
    requires s != []
  {
    if s[0] < 0x80 then 1
    else if |s| == 1 then 0
    else if 0xC2 <= s[0] < 0xE0 then if Continues(s[1]) then 2 else 0
    else if s[0] == 0xE0 then if 0xA0 <= s[1] < 0xC0 then 3 else 0
    else if s[0] == 0xED then if 0x80 <= s[1] < 0xA0 then 3 else 0
    else if 0xE1 <= s[0] < 0xF0 then if Continues(s[1]) then 3 else 0
    else if s[0] == 0xF0 then if 0x90 <= s[1] < 0xC0 then 4 else 0
    else if s[0] == 0xF4 then if 0x80 <= s[1] < 0x90 then 4 else 0
    else if 0xF1 <= s[0] < 0xF4 then if Continues(s[1]) then 4 else 0
    else 0
  }

  predicate StartsWithChar(s: Bytes)
    requires s != []
  {
    var n := CharLength(s);
    && 0 < n <= |s| && (n > 2 ==> Continues(s[2])) && (n > 3 ==> Continues(s[3]))
  }

  predicate Utf8(s: Bytes) {
    s == [] || (StartsWithChar(s) && Utf8(s[CharLength(s)..]))
  }

  predicate Ascii(s: Bytes) {
    forall i :: 0 <= i < |s| ==> s[i] < 0x80
  }

  /** Either every byte of a run of non-ASCII bytes is kept, or every one becomes ASCII. */
  ghost predicate KeepsRuns(s: Bytes, out: Bytes) {
    && |out| == |s|
    && (forall i :: 0 <= i < |s| ==> out[i] == s[i] || out[i] < 0x80)
    && (forall i :: 0 < i < |s| && s[i - 1] >= 0x80 && s[i] >= 0x80 ==> (out[i - 1] == s[i - 1] <==> out[i] == s[i]))
  }

  lemma KeepsRunsTail(s: Bytes, out: Bytes, n: nat)
    requires KeepsRuns(s, out) && n <= |s|
    ensures KeepsRuns(s[n..], out[n..])
  {
  }

  lemma {:induction false} AsciiBefore(s: Bytes, rest: Bytes)
    requires Ascii(s) && Utf8(rest)
    ensures Utf8(s + rest)
  {
    if s == [] {
      assert s + rest == rest;
    } else {
      assert (s + rest)[1..] == s[1..] + rest;
      AsciiBefore(s[1..], rest);
    }
  }

  lemma FirstCharKept(s: Bytes, out: Bytes)
    requires s != [] && StartsWithChar(s) && KeepsRuns(s, out)
    ensures var n := CharLength(s);
            Ascii(out[..n]) || (StartsWithChar(out) && CharLength(out) == n)
  {
    var n := CharLength(s);
    assert n > 1 ==> (out[0] == s[0] <==> out[1] == s[1]);
    assert n > 2 ==> (out[1] == s[1] <==> out[2] == s[2]);
    assert n > 3 ==> (out[2] == s[2] <==> out[3] == s[3]);
  }

  lemma Utf8FromParts(out: Bytes, n: nat)
    requires 0 < n <= |out| && Utf8(out[n..])
    requires Ascii(out[..n]) || (StartsWithChar(out) && CharLength(out) == n)
    ensures Utf8(out)
  {
    if Ascii(out[..n]) {
      AsciiBefore(out[..n], out[n..]);
      assert out == out[..n] + out[n..];
    }
  }

  lemma {:induction false} Utf8Kept(s: Bytes, out: Bytes)
    requires Utf8(s) && KeepsRuns(s, out)
    ensures Utf8(out)
    decreases |s|
  {
    if s != [] {
      var n := CharLength(s);
      KeepsRunsTail(s, out, n);
      Utf8Kept(s[n..], out[n..]);
      FirstCharKept(s, out);
      Utf8FromParts(out, n);
    }
  }

  /** Labels change only next to an ASCII byte. */
  ghost predicate UniformRuns(s: Bytes, labels: Labels) {
    && |labels| == |s|
    && forall i :: 0 < i < |s| && s[i - 1] >= 0x80 && s[i] >= 0x80 ==> (labels[i - 1] == Comment <==> labels[i] == Comment)
  }

  /** A token that ends a comment ends in ASCII or before ASCII, and one that starts a
      comment starts in ASCII. */
  lemma TokenEdges(s: Bytes, inString: bool)
    requires s != [] && First(s, inString).Some?
    ensures var labels := First(s, inString).value.labels; var n := |labels|;
            && (forall i :: 0 <= i < n ==> (labels[i] == Comment <==> labels[0] == Comment))
            && (labels[0] == Comment ==> s[0] < 0x80 && (n < |s| ==> s[n - 1] < 0x80 || s[n] < 0x80))
  {
    if !inString && Opens(s, STAR) {
      BodyEnds(s[2..]);
    }
  }

  lemma {:induction false} BodyEnds(s: Bytes)
    requires BodyLength(s).Some?
    ensures var n := BodyLength(s).value; s[n] == STAR && s[n + 1] == SLASH
  {
    if !(|s| >= 2 && s[0] == STAR && s[1] == SLASH) {
      BodyEnds(s[1..]);
    }
  }

  lemma {:induction false} LexUniform(s: Bytes, inString: bool)
    requires Lex(s, inString).Some?
    ensures UniformRuns(s, Lex(s, inString).value)
    decreases |s|
  {
    if s != [] {
      var token := First(s, inString).value;
      var n, labels := |token.labels|, Lex(s, inString).value;
      var rest := Lex(s[n..], token.inString).value;
      LexUniform(s[n..], token.inString);
      TokenEdges(s, inString);
      if n < |s| {
        TokenEdges(s[n..], token.inString);
      }
      forall i | 0 < i < |s| && s[i - 1] >= 0x80 && s[i] >= 0x80
        ensures labels[i - 1] == Comment <==> labels[i] == Comment
      {
        if i > n {
          assert s[n..][i - n - 1] == s[i - 1] && s[n..][i - n] == s[i];
          assert labels[i - 1] == rest[i - n - 1] && labels[i] == rest[i - n];
        }
      }
    }
  }

  lemma BlankKeepsRuns(s: Bytes, labels: Labels)
    requires UniformRuns(s, labels)
    ensures KeepsRuns(s, Blank(s, labels))
  {
  }

  lemma NormalKeepsRuns(s: Bytes, labels: Labels)
    requires UniformRuns(s, labels)
    ensures KeepsRuns(s, Normal(s, labels))
  {
    var out := Normal(s, labels);
    forall i | 0 <= i < |s|
      ensures out[i] == s[i] || out[i] < 0x80
      ensures s[i] >= 0x80 ==> (out[i] == s[i] <==> labels[i] != Comment)
    {
    }
  }

  /** Text in UTF-8 stays in UTF-8: the conversions back to text cannot fail. */
  lemma NormalFormIsUtf8(s: Bytes)
    requires Utf8(s) && Lex(s, false).Some?
    ensures Utf8(Stripped(s, false).value) && Utf8(Normalized(s).value)
  {
    var labels := Lex(s, false).value;
    LexUniform(s, false);
    BlankKeepsRuns(s, labels);
    NormalKeepsRuns(s, labels);
    Utf8Kept(s, Blank(s, labels));
    Utf8Kept(s, Normal(s, labels));
  }

  // ------------------------------------------------- dropping commas twice

  lemma {:induction false} SkipThrough(s: Bytes, i: nat, j: nat)
    requires i <= j <= |s| && forall k :: i <= k < j ==> IsWhite(s[k])
    ensures SkipWhite(s, i) == SkipWhite(s, j)
    decreases j - i
  {
    if i < j {
      SkipThrough(s, i + 1, j);
    }
  }

  lemma {:induction false} SkipStops(s: Bytes, i: nat)
    requires i <= |s|
    ensures var j := SkipWhite(s, i); (j < |s| ==> !IsWhite(s[j])) && forall k :: i <= k < j ==> IsWhite(s[k])
    decreases |s| - i
  {
    if i < |s| && IsWhite(s[i]) {
      SkipStops(s, i + 1);
    }
  }

  lemma {:induction false} SameStrings(s: Bytes, out: Bytes, inString: bool)
    requires |out| == |s|
    requires forall i :: 0 <= i < |s| ==>
               out[i] == s[i] || (LexStrings(s, inString)[i] == Code && s[i] == COMMA && out[i] == SPACE)
    ensures LexStrings(out, inString) == LexStrings(s, inString)
    decreases |s|
  {
    if s != [] {
      var n, mark, next := StringsStep(s, 0, inString);
      var labels := LexStrings(s, inString);
      assert s[0..] == s && labels == Repeat(mark, n) + LexStrings(s[n..], next);
      forall i | 0 <= i < |s| - n
        ensures out[n..][i] == s[n..][i] ||
                (LexStrings(s[n..], next)[i] == Code && s[n..][i] == COMMA && out[n..][i] == SPACE)
      {
        assert labels[n + i] == LexStrings(s[n..], next)[i];
      }
      SameStrings(s[n..], out[n..], next);
      assert labels[0] == mark && (n == 2 ==> labels[1] == mark);
      assert mark == Text ==> out[0] == s[0];
    }
  }

  /** A comma that stays although only white space separates it from one that goes. */
  predicate Uncovered(s: Bytes, labels: Labels, i: nat)
    requires i < |s| == |labels|
  {
    var j := SkipWhite(s, i + 1);
    && labels[i] == Code && s[i] == COMMA && !Trailing(s, i)
    && j < |s| && labels[j] == Code && Trailing(s, j)
  }

  lemma UncoveredGoesNext(s: Bytes, labels: Labels, i: nat)
    requires i < |s| == |labels| && labels[i] == Code && s[i] == COMMA && !Trailing(s, i)
    ensures Trailing(DropCommas(s, labels), i) <==> Uncovered(s, labels, i)
  {
    var d, j := DropCommas(s, labels), SkipWhite(s, i + 1);
    SkipStops(s, i + 1);
    SkipThrough(d, i + 1, j);
    if Uncovered(s, labels, i) {
      var k := SkipWhite(s, j + 1);
      SkipStops(s, j + 1);
      SkipThrough(d, j, k);
      assert d[k] == s[k];
    }
  }

  /** Dropping commas again changes nothing unless such a comma exists. */
  lemma CommasDroppedAgain(s: Bytes)
    ensures var labels := LexStrings(s, false); var d := DropCommas(s, labels);
            DropCommas(d, LexStrings(d, false)) == d <==> !(exists i :: 0 <= i < |s| && Uncovered(s, labels, i))
  {
    var labels := LexStrings(s, false);
    var d := DropCommas(s, labels);
    SameStrings(s, d, false);
    var e := DropCommas(d, labels);
    forall i | 0 <= i < |s|
      ensures e[i] == d[i] <==> !Uncovered(s, labels, i)
    {
      if labels[i] == Code && s[i] == COMMA && !Trailing(s, i) {
        UncoveredGoesNext(s, labels, i);
      }
    }
  }

  /** For example `[,,]`. */
  lemma TwoCommasInAList()
    ensures var s: Bytes := [91, COMMA, COMMA, BRACKET]; Uncovered(s, LexStrings(s, false), 1)
  {
    var s: Bytes := [91, COMMA, COMMA, BRACKET];
    var t := s[1..];
    assert LexStrings(s, false) == [Code] + LexStrings(t, false);
    assert LexStrings(t, false) == [Code] + LexStrings(t[1..], false);
    assert LexStrings(t[1..], false) == [Code] + LexStrings(t[1..][1..], false);
    assert SkipWhite(s, 2) == 2 && SkipWhite(s, 3) == 3;
  }
}
