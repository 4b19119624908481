// The JSONC normaliser against a grammar: a source written by the grammar is labelled
// and rewritten piece by piece. Bytes stand here as the characters they encode.

module JsoncForms {
  import opened Wrappers
  import opened Jsonc
  import opened JsoncLaws

  datatype Piece = Plain(b: byte) | Str(content: Bytes) | Line(body: Bytes) | Block(body: Bytes)

  function EscapeByte(b: byte): Bytes {
    if b == '"' as byte || b == '\\' as byte then ['\\' as byte, b] else [b]
  }

  /** String content with its quotes and backslashes escaped. */
  function Escape(s: Bytes): Bytes {
    if s == [] then [] else EscapeByte(s[0]) + Escape(s[1..])
  }

  function PrintPiece(p: Piece): (s: Bytes)
    ensures s != []
  {
    match p
    case Plain(b) => [b]
    case Str(content) => ['"' as byte] + (Escape(content) + ['"' as byte])
    case Line(body) => ['/' as byte, '/' as byte] + body
    case Block(body) => ['/' as byte, '*' as byte] + (body + ['*' as byte, '/' as byte])
  }

  function LabelOf(p: Piece): Label {
    match p
    case Plain(_) => Code
    case Str(_) => Text
    case Line(_) => Comment
    case Block(_) => Comment
  }

  function Print(pieces: seq<Piece>): Bytes {
    if pieces == [] then [] else PrintPiece(pieces[0]) + Print(pieces[1..])
  }

  function Marks(pieces: seq<Piece>): Labels {
    if pieces == [] then []
    else Repeat(LabelOf(pieces[0]), |PrintPiece(pieces[0])|) + Marks(pieces[1..])
  }

  /** A piece is what it says, given what follows it: other bytes open nothing, a line
      comment runs to the end of its line, a block comment holds no closer. */
  ghost predicate Fits(p: Piece, rest: Bytes) {
    match p
    case Plain(b) => b != '"' as byte && (b == '/' as byte && rest != [] ==> rest[0] != '/' as byte && rest[0] != '*' as byte)
    case Str(_) => true
    case Line(body) => OneLine(body) && (rest != [] ==> rest[0] == '\n' as byte || rest[0] == '\r' as byte)
    case Block(body) => Unclosed(body)
  }

  ghost predicate OneLine(body: Bytes) {
    '\n' as byte !in body && '\r' as byte !in body
  }

  ghost predicate Unclosed(body: Bytes) {
    forall k :: 0 <= k < |body| && body[k] == '*' as byte ==> k + 1 == |body| || body[k + 1] != '/' as byte
  }

  ghost predicate WellFormed(pieces: seq<Piece>, tail: Bytes) {
    pieces != [] ==> Fits(pieces[0], Print(pieces[1..]) + tail) && WellFormed(pieces[1..], tail)
  }

  lemma LexStep(s: Bytes, inString: bool, token: Token)
    requires s != [] && First(s, inString) == Some(token)
    ensures Lex(s, inString) == Then(token.labels, Lex(s[|token.labels|..], token.inString))
  {
  }

  lemma EscapeFront(content: Bytes, rest: Bytes)
    requires content != []
    ensures (Escape(content) + [QUOTE]) + rest == EscapeByte(content[0]) + ((Escape(content[1..]) + [QUOTE]) + rest)
  {
  }

  lemma RepeatSum(mark: Label, n: nat, m: nat)
    ensures Repeat(mark, n) + Repeat(mark, m) == Repeat(mark, n + m)
  {
  }

  lemma ByteIsText(b: byte, tail: Bytes)
    ensures Lex(EscapeByte(b) + tail, true) == Then(Repeat(Text, |EscapeByte(b)|), Lex(tail, true))
  {
    var first := EscapeByte(b);
    var s := first + tail;
    assert s[0] == first[0] && s[|first|..] == tail;
    assert Repeat(Text, 1) == [Text] && Repeat(Text, 2) == [Text, Text];
    LexStep(s, true, Token(Repeat(Text, |first|), true));
  }

  lemma {:induction false} EscapedIsText(content: Bytes, rest: Bytes)
    ensures Lex((Escape(content) + [QUOTE]) + rest, true) == Then(Repeat(Text, |Escape(content)| + 1), Lex(rest, false))
  {
    var s := (Escape(content) + [QUOTE]) + rest;
    if content == [] {
      assert s[0] == QUOTE && s[1..] == rest && Repeat(Text, 1) == [Text];
      LexStep(s, true, Token([Text], false));
    } else {
      var n, m := |EscapeByte(content[0])|, |Escape(content[1..])| + 1;
      EscapeFront(content, rest);
      ByteIsText(content[0], (Escape(content[1..]) + [QUOTE]) + rest);
      EscapedIsText(content[1..], rest);
      ThenTwice(Repeat(Text, n), Repeat(Text, m), Lex(rest, false));
      RepeatSum(Text, n, m);
    }
  }

  lemma {:induction false} LineRuns(body: Bytes, rest: Bytes)
    requires OneLine(body) && (rest != [] ==> rest[0] == '\n' as byte || rest[0] == '\r' as byte)
    ensures LineLength(body + rest) == |body|
  {
    if body == [] {
      assert body + rest == rest;
    } else {
      assert (body + rest)[1..] == body[1..] + rest;
      LineRuns(body[1..], rest);
    }
  }

  lemma UnclosedTail(body: Bytes)
    requires body != [] && Unclosed(body)
    ensures Unclosed(body[1..])
    ensures body[0] == STAR ==> (body + [STAR, SLASH])[1] != SLASH
  {
    forall k | 0 <= k < |body| - 1 && body[1..][k] == STAR
      ensures k + 1 == |body| - 1 || body[1..][k + 1] != SLASH
    {
      assert body[k + 1] == STAR;
    }
  }

  lemma {:induction false} BlockRuns(body: Bytes, rest: Bytes)
    requires Unclosed(body)
    ensures BodyLength((body + [STAR, SLASH]) + rest) == Some(|body|)
  {
    var s := (body + [STAR, SLASH]) + rest;
    if body != [] {
      UnclosedTail(body);
      assert s[1..] == (body[1..] + [STAR, SLASH]) + rest;
      assert s[0] == (body + [STAR, SLASH])[0] && s[1] == (body + [STAR, SLASH])[1];
      BlockRuns(body[1..], rest);
    }
  }

  lemma LineIsComment(body: Bytes, rest: Bytes)
    requires Fits(Line(body), rest)
    ensures Lex(PrintPiece(Line(body)) + rest, false) == Then(Repeat(Comment, |body| + 2), Lex(rest, false))
  {
    var s, all := PrintPiece(Line(body)) + rest, [SLASH, SLASH] + body;
    LineRuns(all, rest);
    assert s == all + rest && s[|all|..] == rest;
    LexStep(s, false, Token(Repeat(Comment, |all|), false));
  }

  lemma BlockIsComment(body: Bytes, rest: Bytes)
    requires Fits(Block(body), rest)
    ensures Lex(PrintPiece(Block(body)) + rest, false) == Then(Repeat(Comment, |body| + 4), Lex(rest, false))
  {
    var s, inner := PrintPiece(Block(body)) + rest, (body + [STAR, SLASH]) + rest;
    BlockRuns(body, rest);
    assert s[2..] == inner && s[|body| + 4..] == rest;
    LexStep(s, false, Token(Repeat(Comment, |body| + 4), false));
  }

  lemma StrFront(content: Bytes, rest: Bytes)
    ensures PrintPiece(Str(content)) + rest == [QUOTE] + ((Escape(content) + [QUOTE]) + rest)
  {
  }

  lemma QuoteOpens(inner: Bytes)
    ensures Lex([QUOTE] + inner, false) == Then(Repeat(Text, 1), Lex(inner, true))
  {
    assert Repeat(Text, 1) == [Text];
    assert ([QUOTE] + inner)[1..] == inner;
    LexStep([QUOTE] + inner, false, Token([Text], true));
  }

  lemma StrIsText(content: Bytes, rest: Bytes)
    ensures Lex(PrintPiece(Str(content)) + rest, false) == Then(Repeat(Text, |Escape(content)| + 2), Lex(rest, false))
  {
    var inner, n := (Escape(content) + [QUOTE]) + rest, |Escape(content)| + 1;
    StrFront(content, rest);
    QuoteOpens(inner);
    EscapedIsText(content, rest);
    ThenTwice(Repeat(Text, 1), Repeat(Text, n), Lex(rest, false));
    RepeatSum(Text, 1, n);
  }

  lemma PlainIsCode(b: byte, rest: Bytes)
    requires Fits(Plain(b), rest)
    ensures Lex(PrintPiece(Plain(b)) + rest, false) == Then(Repeat(Code, 1), Lex(rest, false))
  {
    var s := [b] + rest;
    assert s[1..] == rest && Repeat(Code, 1) == [Code];
    LexStep(s, false, Token([Code], false));
  }

  lemma PieceIsLexed(p: Piece, rest: Bytes)
    requires Fits(p, rest)
    ensures Lex(PrintPiece(p) + rest, false) == Then(Repeat(LabelOf(p), |PrintPiece(p)|), Lex(rest, false))
  {
    match p
    case Plain(b) => PlainIsCode(b, rest);
    case Str(content) => StrIsText(content, rest);
    case Line(body) => LineIsComment(body, rest);
    case Block(body) => BlockIsComment(body, rest);
  }

  lemma PrintBefore(pieces: seq<Piece>, tail: Bytes)
    requires pieces != []
    ensures Print(pieces) + tail == PrintPiece(pieces[0]) + (Print(pieces[1..]) + tail)
  {
  }

  /** Strings are text, comments are comments and everything else is code, whatever they
      contain and whatever follows. */
  lemma {:induction false} PrintedIsLexed(pieces: seq<Piece>, tail: Bytes)
    requires WellFormed(pieces, tail)
    ensures Lex(Print(pieces) + tail, false) == Then(Marks(pieces), Lex(tail, false))
  {
    if pieces == [] {
      assert [] + tail == tail;
      ThenNothing(Lex(tail, false));
    } else {
      var p, rest := pieces[0], Print(pieces[1..]) + tail;
      PieceIsLexed(p, rest);
      PrintedIsLexed(pieces[1..], tail);
      PrintBefore(pieces, tail);
      ThenTwice(Repeat(LabelOf(p), |PrintPiece(p)|), Marks(pieces[1..]), Lex(tail, false));
    }
  }

  lemma {:induction false} NoBody(body: Bytes)
    requires Unclosed(body)
    ensures BodyLength(body) == None
  {
    if body != [] {
      UnclosedTail(body);
      NoBody(body[1..]);
    }
  }

  /** A block comment that does not end is an error, wherever it begins. */
  lemma UnendedBlock(pieces: seq<Piece>, body: Bytes)
    requires Unclosed(body) && WellFormed(pieces, ['/' as byte, '*' as byte] + body)
    ensures Normalized(Print(pieces) + (['/' as byte, '*' as byte] + body)) == None
  {
    var tail := ['/' as byte, '*' as byte] + body;
    PrintedIsLexed(pieces, tail);
    assert tail[2..] == body;
    NoBody(body);
  }

  // ------------------------------------------------------------- the normal form

  predicate WhiteByte(b: byte) {
    b == ' ' as byte || b == '\t' as byte || b == '\n' as byte || b == '\r' as byte || b == 0x0C
  }

  /** The next piece other than white space and comments closes a list or an object. */
  predicate ClosesNext(pieces: seq<Piece>) {
    && pieces != []
    && match pieces[0]
       case Plain(b) => b == ']' as byte || b == '}' as byte || (WhiteByte(b) && ClosesNext(pieces[1..]))
       case Str(_) => false
       case Line(_) => ClosesNext(pieces[1..])
       case Block(_) => ClosesNext(pieces[1..])
  }

  /** Spaces, but for the line ends. */
  function Blanks(body: Bytes): (s: Bytes)
    ensures |s| == |body|
  {
    if body == [] then []
    else [if body[0] == '\n' as byte || body[0] == '\r' as byte then body[0] else ' ' as byte] + Blanks(body[1..])
  }

  /** What becomes of a piece before the others. */
  function ShowPiece(p: Piece, rest: seq<Piece>): Bytes {
    match p
    case Plain(b) => [if b == ',' as byte && ClosesNext(rest) then ' ' as byte else b]
    case Str(_) => PrintPiece(p)
    case Line(body) => [' ' as byte, ' ' as byte] + Blanks(body)
    case Block(body) => [' ' as byte, ' ' as byte] + (Blanks(body) + [' ' as byte, ' ' as byte])
  }

  function Show(pieces: seq<Piece>): Bytes {
    if pieces == [] then [] else ShowPiece(pieces[0], pieces[1..]) + Show(pieces[1..])
  }

  lemma {:induction false} SkipShift(s: Bytes, labels: Labels, n: nat, i: nat)
    requires n + i <= |s| == |labels|
    ensures SkipTrivia(s, labels, n + i) == n + SkipTrivia(s[n..], labels[n..], i)
    decreases |s| - i
  {
    if n + i < |s| && Trivia(s, labels, n + i) {
      SkipShift(s, labels, n, i + 1);
    }
  }

  lemma NormalSuffix(s: Bytes, labels: Labels, n: nat)
    requires n <= |s| == |labels|
    ensures Normal(s, labels)[n..] == Normal(s[n..], labels[n..])
  {
    forall i | 0 <= i < |s| - n
      ensures NormalByte(s, labels, n + i) == NormalByte(s[n..], labels[n..], i)
    {
      SkipShift(s, labels, n, i + 1);
    }
  }

  lemma {:induction false} SkipRun(s: Bytes, labels: Labels, i: nat, n: nat)
    requires i <= n <= |s| == |labels| && forall k :: i <= k < n ==> Trivia(s, labels, k)
    ensures SkipTrivia(s, labels, i) == SkipTrivia(s, labels, n)
    decreases n - i
  {
    if i < n {
      SkipRun(s, labels, i + 1, n);
    }
  }

  ghost predicate Closes(s: Bytes, labels: Labels)
    requires |s| == |labels|
  {
    SkipTrivia(s, labels, 0) < |s| && IsCloser(s[SkipTrivia(s, labels, 0)])
  }

  /** Behind white space and comments, the same byte decides. */
  lemma ClosesBehind(s: Bytes, labels: Labels, n: nat)
    requires n <= |s| == |labels| && forall k :: 0 <= k < n ==> Trivia(s, labels, k)
    ensures Closes(s, labels) <==> Closes(s[n..], labels[n..])
  {
    SkipRun(s, labels, 0, n);
    SkipShift(s, labels, n, 0);
  }

  lemma {:induction false} MarksFit(pieces: seq<Piece>)
    ensures |Marks(pieces)| == |Print(pieces)|
  {
    if pieces != [] {
      MarksFit(pieces[1..]);
    }
  }

  lemma {:induction false} ClosesExactly(pieces: seq<Piece>)
    ensures |Marks(pieces)| == |Print(pieces)|
    ensures Closes(Print(pieces), Marks(pieces)) <==> ClosesNext(pieces)
  {
    MarksFit(pieces);
    if pieces != [] {
      var s, labels, n := Print(pieces), Marks(pieces), |PrintPiece(pieces[0])|;
      MarksFit(pieces[1..]);
      assert s[n..] == Print(pieces[1..]) && labels[n..] == Marks(pieces[1..]);
      assert s[0] == PrintPiece(pieces[0])[0] && labels[0] == LabelOf(pieces[0]);
      ClosesExactly(pieces[1..]);
      if !pieces[0].Str? && (pieces[0].Plain? ==> WhiteByte(pieces[0].b)) {
        ClosesBehind(s, labels, n);
      }
    }
  }

  lemma {:induction false} BlanksAt(body: Bytes, i: nat)
    requires i < |body|
    ensures Blanks(body)[i] == BlankByte(body[i])
  {
    if i > 0 {
      BlanksAt(body[1..], i - 1);
    }
  }

  lemma BlankBody(body: Bytes)
    ensures Blanks(body) == BlankAll(body)
  {
    forall i | 0 <= i < |body|
      ensures Blanks(body)[i] == BlankByte(body[i])
    {
      BlanksAt(body, i);
    }
  }

  lemma LineShows(body: Bytes)
    ensures BlankAll([SLASH, SLASH] + body) == [SPACE, SPACE] + BlankAll(body)
  {
  }

  lemma CommentShows(p: Piece, rest: seq<Piece>)
    requires p.Line? || p.Block?
    ensures ShowPiece(p, rest) == BlankAll(PrintPiece(p))
  {
    BlankBody(p.body);
    if p.Line? {
      LineShows(p.body);
    } else {
      BlankFrame(p.body);
      assert PrintPiece(p) == [SLASH, STAR] + p.body + [STAR, SLASH];
      assert ShowPiece(p, rest) == [SPACE, SPACE] + BlankAll(p.body) + [SPACE, SPACE];
    }
  }

  lemma PlainShows(pieces: seq<Piece>)
    requires pieces != [] && pieces[0].Plain?
    ensures |Marks(pieces)| == |Print(pieces)| && 1 <= |Print(pieces)|
    ensures ShowPiece(pieces[0], pieces[1..]) == [NormalByte(Print(pieces), Marks(pieces), 0)]
  {
    var s, labels := Print(pieces), Marks(pieces);
    MarksFit(pieces);
    MarksFit(pieces[1..]);
    ClosesExactly(pieces[1..]);
    SkipShift(s, labels, 1, 0);
    assert s[1..] == Print(pieces[1..]) && labels[1..] == Marks(pieces[1..]);
  }

  /** The first piece of the normal form. */
  lemma FirstShows(pieces: seq<Piece>)
    requires pieces != []
    ensures |Marks(pieces)| == |Print(pieces)| && |PrintPiece(pieces[0])| <= |Print(pieces)|
    ensures Normal(Print(pieces), Marks(pieces))[..|PrintPiece(pieces[0])|] == ShowPiece(pieces[0], pieces[1..])
  {
    var p, s, labels, n := pieces[0], Print(pieces), Marks(pieces), |PrintPiece(pieces[0])|;
    MarksFit(pieces);
    MarksFit(pieces[1..]);
    assert forall k :: 0 <= k < n ==> s[k] == PrintPiece(p)[k] && labels[k] == LabelOf(p);
    match p {
      case Plain(b) => PlainShows(pieces);
      case Str(_) =>
      case Line(_) => CommentShows(p, pieces[1..]);
      case Block(_) => CommentShows(p, pieces[1..]);
    }
  }

  /** And the rest of it. */
  lemma RestShows(pieces: seq<Piece>)
    requires pieces != []
    ensures |Marks(pieces)| == |Print(pieces)| && |Marks(pieces[1..])| == |Print(pieces[1..])|
    ensures |PrintPiece(pieces[0])| <= |Print(pieces)|
    ensures Normal(Print(pieces), Marks(pieces))[|PrintPiece(pieces[0])|..] == Normal(Print(pieces[1..]), Marks(pieces[1..]))
  {
    var s, labels, n := Print(pieces), Marks(pieces), |PrintPiece(pieces[0])|;
    MarksFit(pieces);
    MarksFit(pieces[1..]);
    NormalSuffix(s, labels, n);
    assert s[n..] == Print(pieces[1..]) && labels[n..] == Marks(pieces[1..]);
  }

  lemma Halves(s: Bytes, n: nat, first: Bytes, rest: Bytes)
    requires n <= |s| && s[..n] == first && s[n..] == rest
    ensures s == first + rest
  {
  }

  lemma {:induction false} NormalIsShown(pieces: seq<Piece>)
    ensures |Marks(pieces)| == |Print(pieces)| && Normal(Print(pieces), Marks(pieces)) == Show(pieces)
  {
    MarksFit(pieces);
    if pieces != [] {
      var rest := pieces[1..];
      FirstShows(pieces);
      RestShows(pieces);
      NormalIsShown(rest);
      Halves(Normal(Print(pieces), Marks(pieces)), |PrintPiece(pieces[0])|, ShowPiece(pieces[0], rest), Show(rest));
    }
  }

  /** The normaliser on any source of the grammar: comments become spaces but for line
      ends, a comma becomes a space exactly when, behind white space and comments, a
      bracket or a brace closes, and everything else is copied. */
  lemma NormalizedIsShown(pieces: seq<Piece>)
    requires WellFormed(pieces, [])
    ensures Normalized(Print(pieces)) == Some(Show(pieces))
  {
    PrintedIsLexed(pieces, []);
    assert Print(pieces) + [] == Print(pieces) && Marks(pieces) + [] == Marks(pieces);
    NormalIsShown(pieces);
  }

  // -------------------------------------------------------------- byte order marks

  function Times(n: nat, mark: Bytes): Bytes {
    if n == 0 then [] else mark + Times(n - 1, mark)
  }

  /** Marks in front of the source are no part of it. */
  lemma {:induction false} MarksTrimmed(n: nat, s: Bytes)
    requires !([0xEF, 0xBB, 0xBF] <= s)
    ensures TrimMarks(Times(n, [0xEF, 0xBB, 0xBF]) + s) == s
  {
    if n > 0 {
      var rest := Times(n - 1, MARK) + s;
      assert Times(n, MARK) + s == MARK + rest;
      MarksTrimmed(n - 1, s);
      assert (MARK + rest)[3..] == rest;
    } else {
      assert [] + s == s;
    }
  }
}
