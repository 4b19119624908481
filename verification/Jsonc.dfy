// The JSONC normaliser of crates/conformance/src/jsonc.rs: two passes over the bytes,
// one blanking comments, one blanking trailing commas.

module Jsonc {
  import opened Wrappers

  const TAB: byte := 9
  const LF: byte := 10
  const FF: byte := 12
  const CR: byte := 13
  const SPACE: byte := 32
  const QUOTE: byte := 34
  const STAR: byte := 42
  const COMMA: byte := 44
  const SLASH: byte := 47
  const BACKSLASH: byte := 92
  const BRACKET: byte := 93
  const BRACE: byte := 125

  predicate IsNewline(b: byte) {
    b == LF || b == CR
  }

  predicate IsWhite(b: byte) {
    b == TAB || IsNewline(b) || b == FF || b == SPACE
  }

  // ------------------------------------------------------------------ the lexer

  /** What a byte of the source belongs to. A string's quotes are part of it. */
  datatype Label = Code | Text | Comment

  type Labels = seq<Label>

  function Repeat(mark: Label, n: nat): (labels: Labels)
    ensures |labels| == n && forall i :: 0 <= i < n ==> labels[i] == mark
  {
    seq(n, _ => mark)
  }

  predicate Opens(s: Bytes, second: byte) {
    |s| >= 2 && s[0] == SLASH && s[1] == second
  }

  /** The bytes before the end of the line. */
  function LineLength(s: Bytes): (n: nat)
    ensures n <= |s| && (n < |s| ==> IsNewline(s[n]))
    ensures forall i :: 0 <= i < n ==> !IsNewline(s[i])
  {
    if s == [] || IsNewline(s[0]) then 0 else 1 + LineLength(s[1..])
  }

  /** The bytes before the first star that a slash follows. */
  function BodyLength(s: Bytes): (n: Option<nat>)
    ensures n.Some? ==> n.value + 2 <= |s|
  {
    if s == [] then None
    else if |s| >= 2 && s[0] == STAR && s[1] == SLASH then Some(0)
    else
      var rest := BodyLength(s[1..]);
      if rest.None? then None else Some(1 + rest.value)
  }

  function Then(labels: Labels, rest: Option<Labels>): Option<Labels> {
    if rest.None? then None else Some(labels + rest.value)
  }

  datatype Token = Token(labels: Labels, inString: bool)

  /** The labels of the first token, one byte of a string or an escape, and the mode
      after it. */
  function First(s: Bytes, inString: bool): (token: Option<Token>)
    requires s != []
    ensures token.Some? ==> 0 < |token.value.labels| <= |s|
  {
    if inString then
      if s[0] == BACKSLASH && |s| > 1 then Some(Token([Text, Text], true))
      else Some(Token([Text], s[0] != QUOTE))
    else if s[0] == QUOTE then Some(Token([Text], true))
    else if Opens(s, SLASH) then Some(Token(Repeat(Comment, LineLength(s)), false))
    else if Opens(s, STAR) then
      var n := BodyLength(s[2..]);
      if n.None? then None else Some(Token(Repeat(Comment, n.value + 4), false))
    else Some(Token([Code], false))
  }

  /** Every byte labelled, or nothing when a block comment does not end. */
  function Lex(s: Bytes, inString: bool): (labels: Option<Labels>)
    ensures labels.Some? ==> |labels.value| == |s|
    decreases |s|
  {
    if s == [] then Some([]) else
    var token := First(s, inString);
    if token.None? then None
    else Then(token.value.labels, Lex(s[|token.value.labels|..], token.value.inString))
  }

  /** The labels of a source without comments. */
  function LexStrings(s: Bytes, inString: bool): (labels: Labels)
    ensures |labels| == |s|
    decreases |s|
  {
    if s == [] then []
    else if inString then
      if s[0] == BACKSLASH && |s| > 1 then [Text, Text] + LexStrings(s[2..], true)
      else [Text] + LexStrings(s[1..], s[0] != QUOTE)
    else if s[0] == QUOTE then [Text] + LexStrings(s[1..], true)
    else [Code] + LexStrings(s[1..], false)
  }

  // ------------------------------------------------------------- the first pass

  function BlankByte(b: byte): byte {
    if IsNewline(b) then b else SPACE
  }

  /** Comment bytes become spaces, except line ends. */
  function Blank(s: Bytes, labels: Labels): (out: Bytes)
    requires |labels| == |s|
    ensures |out| == |s|
  {
    seq(|s|, i requires 0 <= i < |s| => if labels[i] == Comment then BlankByte(s[i]) else s[i])
  }

  lemma BlankConcat(s: Bytes, a: Labels, t: Bytes, b: Labels)
    requires |a| == |s| && |b| == |t|
    ensures Blank(s + t, a + b) == Blank(s, a) + Blank(t, b)
  {
  }

  function Stripped(s: Bytes, inString: bool): Option<Bytes> {
    var labels := Lex(s, inString);
    if labels.None? then None else Some(Blank(s, labels.value))
  }

  function Prepend(out: Bytes, rest: Option<Bytes>): Option<Bytes> {
    if rest.None? then None else Some(out + rest.value)
  }

  /** The first token's bytes, then the rest. */
  lemma StrippedStep(s: Bytes, inString: bool, token: Token)
    requires s != [] && First(s, inString) == Some(token)
    ensures var n := |token.labels|;
            Stripped(s, inString) == Prepend(Blank(s[..n], token.labels), Stripped(s[n..], token.inString))
  {
    var n := |token.labels|;
    var rest := Lex(s[n..], token.inString);
    if rest.Some? {
      assert s == s[..n] + s[n..];
      BlankConcat(s[..n], token.labels, s[n..], rest.value);
    }
  }

  function BlankAll(s: Bytes): (out: Bytes)
    ensures |out| == |s|
  {
    seq(|s|, i requires 0 <= i < |s| => BlankByte(s[i]))
  }

  lemma BlankAllNext(bytes: Bytes, start: nat, index: nat)
    requires start <= index < |bytes|
    ensures BlankAll(bytes[start..index + 1]) == BlankAll(bytes[start..index]) + [BlankByte(bytes[index])]
  {
  }

  lemma BlankFrame(body: Bytes)
    ensures BlankAll([SLASH, STAR] + body + [STAR, SLASH]) == [SPACE, SPACE] + BlankAll(body) + [SPACE, SPACE]
  {
  }

  lemma BlankComment(s: Bytes)
    ensures BlankAll(s) == Blank(s, Repeat(Comment, |s|))
  {
  }

  /** A line comment, up to the end of the line. */
  method LineComment(bytes: Bytes, start: nat) returns (blanks: Bytes, index: nat)
    requires start <= |bytes|
    ensures index == start + LineLength(bytes[start..])
    ensures blanks == Blank(bytes[start..index], Repeat(Comment, index - start))
  {
    blanks, index := [], start;
    while index < |bytes| && !IsNewline(bytes[index])
      invariant start <= index <= |bytes|
      invariant LineLength(bytes[start..]) == index - start + LineLength(bytes[index..])
      invariant blanks == BlankAll(bytes[start..index])
    {
      assert bytes[index..][1..] == bytes[index + 1..];
      BlankAllNext(bytes, start, index);
      blanks := blanks + [SPACE];
      index := index + 1;
    }
    BlankComment(bytes[start..index]);
  }

  function Later(n: Option<nat>, k: nat): Option<nat> {
    if n.None? then None else Some(n.value + k)
  }

  predicate EndsComment(bytes: Bytes, index: nat) {
    index + 1 < |bytes| && bytes[index] == STAR && bytes[index + 1] == SLASH
  }

  lemma BodyStep(bytes: Bytes, index: nat)
    requires index < |bytes|
    ensures BodyLength(bytes[index..]) ==
            if EndsComment(bytes, index) then Some(0) else Later(BodyLength(bytes[index + 1..]), 1)
  {
    assert bytes[index..][1..] == bytes[index + 1..];
  }

  /** The body of a block comment, up to its first star-slash pair. */
  method CommentBody(bytes: Bytes, start: nat) returns (blanks: Bytes, index: nat)
    requires start <= |bytes|
    ensures start <= index <= |bytes| && blanks == BlankAll(bytes[start..index])
    ensures index < |bytes| ==> EndsComment(bytes, index)
    ensures BodyLength(bytes[start..]) == if index == |bytes| then None else Some(index - start)
  {
    blanks, index := [], start;
    while index < |bytes| && !EndsComment(bytes, index)
      invariant start <= index <= |bytes| && blanks == BlankAll(bytes[start..index])
      invariant BodyLength(bytes[start..]) == Later(BodyLength(bytes[index..]), index - start)
    {
      BodyStep(bytes, index);
      BlankAllNext(bytes, start, index);
      blanks := blanks + [BlankByte(bytes[index])];
      index := index + 1;
    }
    if index < |bytes| {
      BodyStep(bytes, index);
    }
  }

  method BlockComment(bytes: Bytes, start: nat) returns (blanks: Option<Bytes>)
    requires start + 2 <= |bytes| && Opens(bytes[start..], STAR)
    ensures var n := BodyLength(bytes[start + 2..]);
            blanks == if n.None? then None
                      else Some(Blank(bytes[start..start + n.value + 4], Repeat(Comment, n.value + 4)))
  {
    var body, index := CommentBody(bytes, start + 2);
    if index >= |bytes| {
      return None;
    }
    ghost var s := bytes[start..index + 2];
    assert bytes[start..][0] == bytes[start] && bytes[start..][1] == bytes[start + 1];
    assert s == [SLASH, STAR] + bytes[start + 2..index] + [STAR, SLASH];
    BlankFrame(bytes[start + 2..index]);
    BlankComment(s);
    return Some([SPACE, SPACE] + body + [SPACE, SPACE]);
  }

  /** One turn of the first pass: what it writes for the token at `index`. */
  method StripToken(bytes: Bytes, index: nat, inString: bool) returns (written: Option<Bytes>, mode: bool)
    requires index < |bytes|
    ensures var token := First(bytes[index..], inString);
            && (written.None? <==> token.None?)
            && (token.Some? ==>
                  && written.value == Blank(bytes[index..][..|token.value.labels|], token.value.labels)
                  && mode == token.value.inString)
  {
    ghost var s := bytes[index..];
    if inString {
      if bytes[index] == BACKSLASH && index + 1 < |bytes| {
        return Some([bytes[index], bytes[index + 1]]), true;
      }
      return Some([bytes[index]]), bytes[index] != QUOTE;
    }
    if bytes[index] == QUOTE {
      return Some([bytes[index]]), true;
    }
    if index + 2 <= |bytes| && bytes[index] == SLASH && bytes[index + 1] == SLASH {
      var blanks, end := LineComment(bytes, index);
      assert s[..end - index] == bytes[index..end];
      return Some(blanks), false;
    }
    if index + 2 <= |bytes| && bytes[index] == SLASH && bytes[index + 1] == STAR {
      assert s[2..] == bytes[index + 2..];
      var blanks := BlockComment(bytes, index);
      ghost var n := BodyLength(s[2..]);
      assert n.Some? ==> s[..n.value + 4] == bytes[index..index + n.value + 4];
      return blanks, false;
    }
    return Some([bytes[index]]), false;
  }

  lemma PrependNothing(rest: Option<Bytes>)
    ensures Prepend([], rest) == rest
  {
    if rest.Some? {
      assert [] + rest.value == rest.value;
    }
  }

  lemma PrependTwice(a: Bytes, b: Bytes, rest: Option<Bytes>)
    ensures Prepend(a, Prepend(b, rest)) == Prepend(a + b, rest)
  {
    if rest.Some? {
      assert a + (b + rest.value) == (a + b) + rest.value;
    }
  }

  /** The first pass blanks exactly the comments, or reports one that does not end. */
  method StripComments(bytes: Bytes) returns (r: Option<Bytes>)
    ensures r == Stripped(bytes, false)
  {
    var output: Bytes, index, inString := [], 0, false;
    assert bytes[0..] == bytes;
    PrependNothing(Stripped(bytes, false));
    while index < |bytes|
      invariant index <= |bytes|
      invariant Stripped(bytes, false) == Prepend(output, Stripped(bytes[index..], inString))
      decreases |bytes| - index
    {
      var written, mode := StripToken(bytes, index, inString);
      ghost var s, token := bytes[index..], First(bytes[index..], inString);
      if written.None? {
        return None;
      }
      StrippedStep(s, inString, token.value);
      assert s[|token.value.labels|..] == bytes[index + |written.value|..];
      PrependTwice(output, written.value, Stripped(bytes[index + |written.value|..], mode));
      output, index, inString := output + written.value, index + |written.value|, mode;
    }
    assert Blank([], []) == [] && output + [] == output;
    return Some(output);
  }

  // ------------------------------------------------------------ the second pass

  predicate IsCloser(b: byte) {
    b == BRACE || b == BRACKET
  }

  /** The first index at or after `i` that does not hold white space. */
  function SkipWhite(s: Bytes, i: nat): (j: nat)
    requires i <= |s|
    ensures i <= j <= |s|
    decreases |s| - i
  {
    if i < |s| && IsWhite(s[i]) then SkipWhite(s, i + 1) else i
  }

  predicate Trailing(s: Bytes, i: nat)
    requires i < |s|
  {
    s[i] == COMMA && SkipWhite(s, i + 1) < |s| && IsCloser(s[SkipWhite(s, i + 1)])
  }

  /** Trailing commas outside strings become spaces. */
  function DropCommas(s: Bytes, labels: Labels): (out: Bytes)
    requires |labels| == |s|
    ensures |out| == |s|
  {
    seq(|s|, i requires 0 <= i < |s| => if labels[i] == Code && Trailing(s, i) then SPACE else s[i])
  }

  /** The labels from `i` on are those of the rest of the source in this mode. */
  ghost predicate At(labels: Labels, s: Bytes, i: nat, inString: bool) {
    i <= |s| == |labels| && labels[i..] == LexStrings(s[i..], inString)
  }

  lemma AtNext(labels: Labels, s: Bytes, i: nat, inString: bool, n: nat, mark: Label, next: bool)
    requires At(labels, s, i, inString) && i + n <= |s|
    requires LexStrings(s[i..], inString) == Repeat(mark, n) + LexStrings(s[i + n..], next)
    ensures At(labels, s, i + n, next) && forall k :: i <= k < i + n ==> labels[k] == mark
  {
    assert labels[i + n..] == labels[i..][n..];
    assert forall k :: i <= k < i + n ==> labels[k] == labels[i..][k - i];
  }

  lemma StringsStep(s: Bytes, i: nat, inString: bool) returns (n: nat, mark: Label, next: bool)
    requires i < |s|
    ensures n == (if inString && s[i] == BACKSLASH && i + 1 < |s| then 2 else 1) && i + n <= |s|
    ensures mark == (if inString || s[i] == QUOTE then Text else Code)
    ensures next == (if s[i] == QUOTE then !inString else inString)
    ensures LexStrings(s[i..], inString) == Repeat(mark, n) + LexStrings(s[i + n..], next)
  {
    n := if inString && s[i] == BACKSLASH && i + 1 < |s| then 2 else 1;
    mark := if inString || s[i] == QUOTE then Text else Code;
    next := if s[i] == QUOTE then !inString else inString;
    assert s[i..][n..] == s[i + n..];
    assert Repeat(mark, 1) == [mark] && Repeat(mark, 2) == [mark, mark];
  }

  method IsTrailing(bytes: Bytes, index: nat) returns (trailing: bool)
    requires index < |bytes| && bytes[index] == COMMA
    ensures trailing == Trailing(bytes, index)
  {
    var lookahead := index + 1;
    while lookahead < |bytes| && IsWhite(bytes[lookahead])
      invariant index < lookahead <= |bytes| && SkipWhite(bytes, index + 1) == SkipWhite(bytes, lookahead)
    {
      lookahead := lookahead + 1;
    }
    return lookahead < |bytes| && IsCloser(bytes[lookahead]);
  }

  /** One turn of the second pass. */
  method CommaToken(bytes: Bytes, index: nat, inString: bool) returns (written: Bytes, mode: bool, ghost mark: Label)
    requires index < |bytes|
    ensures 0 < |written| && index + |written| <= |bytes|
    ensures LexStrings(bytes[index..], inString) == Repeat(mark, |written|) + LexStrings(bytes[index + |written|..], mode)
    ensures forall k :: 0 <= k < |written| ==>
              written[k] == if mark == Code && Trailing(bytes, index + k) then SPACE else bytes[index + k]
  {
    var byte := bytes[index];
    ghost var n, next;
    n, mark, next := StringsStep(bytes, index, inString);
    if byte == QUOTE {
      return [byte], !inString, mark;
    }
    if inString && byte == BACKSLASH && index + 1 < |bytes| {
      return [byte, bytes[index + 1]], inString, mark;
    }
    if !inString && byte == COMMA {
      var trailing := IsTrailing(bytes, index);
      return [if trailing then SPACE else byte], inString, mark;
    }
    return [byte], inString, mark;
  }

  lemma WrittenSoFar(s: Bytes, labels: Labels, i: nat, written: Bytes, mark: Label)
    requires |labels| == |s| && i + |written| <= |s|
    requires forall k :: i <= k < i + |written| ==> labels[k] == mark
    requires forall k :: 0 <= k < |written| ==>
               written[k] == if mark == Code && Trailing(s, i + k) then SPACE else s[i + k]
    ensures DropCommas(s, labels)[..i + |written|] == DropCommas(s, labels)[..i] + written
  {
    var wanted := DropCommas(s, labels);
    forall k | i <= k < i + |written|
      ensures wanted[k] == written[k - i]
    {
      assert written[k - i] == if mark == Code && Trailing(s, i + (k - i)) then SPACE else s[i + (k - i)];
    }
  }

  /** The second pass drops exactly the trailing commas outside strings. */
  method StripTrailingCommas(bytes: Bytes) returns (output: Bytes)
    ensures output == DropCommas(bytes, LexStrings(bytes, false))
  {
    output := [];
    var index, inString := 0, false;
    ghost var labels := LexStrings(bytes, false);
    assert bytes[0..] == bytes && labels[0..] == labels;
    while index < |bytes|
      invariant At(labels, bytes, index, inString) && output == DropCommas(bytes, labels)[..index]
      decreases |bytes| - index
    {
      var written, mode, mark := CommaToken(bytes, index, inString);
      AtNext(labels, bytes, index, inString, |written|, mark, mode);
      WrittenSoFar(bytes, labels, index, written, mark);
      output, index, inString := output + written, index + |written|, mode;
    }
  }
}
