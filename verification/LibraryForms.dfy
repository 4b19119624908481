// The library tokenizer against a grammar: the tokens of a source written by the
// grammar are exactly its words outside comments and quoted text.

module LibraryForms {
  import opened LibraryTokens

  datatype Piece =
    | Word(text: string)
    | Space(c: char)
    | Line(body: string)
    | Block(body: string)
    | Quoted(quote: char, content: string)
    | Other(c: char)

  function Escape(s: string, quote: char): string {
    if s == "" then ""
    else (if s[0] == quote || s[0] == '\\' then ['\\', s[0]] else [s[0]]) + Escape(s[1..], quote)
  }

  function PrintPiece(p: Piece): string {
    match p
    case Word(text) => text
    case Space(c) => [c]
    case Line(body) => "//" + body
    case Block(body) => "/*" + (body + "*/")
    case Quoted(quote, content) => [quote] + (Escape(content, quote) + [quote])
    case Other(c) => [c]
  }

  function Print(pieces: seq<Piece>): string {
    if pieces == [] then "" else PrintPiece(pieces[0]) + Print(pieces[1..])
  }

  function Words(pieces: seq<Piece>): seq<string> {
    if pieces == [] then []
    else (if pieces[0].Word? then [pieces[0].text] else []) + Words(pieces[1..])
  }

  predicate NameStart(c: char) {
    'a' <= c <= 'z' || 'A' <= c <= 'Z' || c == '_' || c == '$'
  }

  predicate NamePart(c: char) {
    NameStart(c) || '0' <= c <= '9'
  }

  predicate AllParts(s: string) {
    forall k :: 0 <= k < |s| ==> NamePart(s[k])
  }

  ghost predicate Unclosed(body: string) {
    forall k :: 0 <= k < |body| && body[k] == '*' ==> k + 1 == |body| || body[k + 1] != '/'
  }

  predicate SpaceChar(c: char) {
    c in " \t\n\r" || c as int == 0x0C
  }

  /** A piece is what it says, given what follows it. */
  ghost predicate Fits(p: Piece, rest: string) {
    match p
    case Word(text) =>
      || (|text| == 1 && text[0] in "{}[]()<>,:;=?")
      || (text != "" && NameStart(text[0]) && AllParts(text) && (rest != "" ==> !NamePart(rest[0])))
    case Space(c) => SpaceChar(c)
    case Line(body) => '\n' !in body && '\r' !in body && (rest != "" ==> rest[0] == '\n' || rest[0] == '\r')
    case Block(body) => Unclosed(body)
    case Quoted(quote, _) => quote in "'\"`"
    case Other(c) =>
      && !SpaceChar(c) && !NameStart(c) && c !in "{}[]()<>,:;=?" && c !in "'\"`"
      && (c == '/' && rest != "" ==> rest[0] != '/' && rest[0] != '*')
  }

  ghost predicate WellFormed(pieces: seq<Piece>) {
    pieces != [] ==> Fits(pieces[0], Print(pieces[1..])) && WellFormed(pieces[1..])
  }

  /** The rest of the source from `i` on. */
  predicate From(s: string, i: nat, rest: string) {
    i <= |s| && s[i..] == rest
  }

  lemma FromNext(s: string, i: nat, a: string, b: string)
    requires From(s, i, a + b)
    ensures From(s, i + |a|, b) && forall k :: 0 <= k < |a| ==> s[i + k] == a[k]
  {
    assert s[i + |a|..] == s[i..][|a|..];
    assert forall k :: 0 <= k < |a| ==> s[i + k] == s[i..][k];
  }

  lemma {:induction false} LineRuns(s: string, i: nat, body: string, rest: string)
    requires From(s, i, body + rest) && Fits(Line(body), rest)
    ensures LineEnd(s, i) == i + |body|
    decreases |body|
  {
    FromNext(s, i, body, rest);
    if body != "" {
      assert body + rest == [body[0]] + (body[1..] + rest);
      FromNext(s, i, [body[0]], body[1..] + rest);
      LineRuns(s, i + 1, body[1..], rest);
    } else if rest != "" {
      assert s[i] == s[i..][0];
    }
  }

  lemma UnclosedTail(body: string)
    requires body != "" && Unclosed(body)
    ensures Unclosed(body[1..])
    ensures body[0] == '*' ==> (body + "*/")[1] != '/'
  {
    forall k | 0 <= k < |body| - 1 && body[1..][k] == '*'
      ensures k + 1 == |body| - 1 || body[1..][k + 1] != '/'
    {
      assert body[k + 1] == '*';
    }
  }

  lemma {:induction false} BlockRuns(s: string, i: nat, body: string, rest: string)
    requires From(s, i, (body + "*/") + rest) && Unclosed(body)
    ensures BlockStop(s, i) == i + |body|
    decreases |body|
  {
    FromNext(s, i, body + "*/", rest);
    assert s[i] == (body + "*/")[0] && s[i + 1] == (body + "*/")[1];
    if body != "" {
      UnclosedTail(body);
      assert (body + "*/") + rest == [body[0]] + ((body[1..] + "*/") + rest);
      FromNext(s, i, [body[0]], (body[1..] + "*/") + rest);
      BlockRuns(s, i + 1, body[1..], rest);
    }
  }

  lemma {:induction false} QuoteRuns(s: string, i: nat, content: string, quote: char, rest: string)
    requires From(s, i, (Escape(content, quote) + [quote]) + rest) && quote in "'\"`"
    ensures QuoteEnd(s, i, quote) == i + |Escape(content, quote)| + 1
    decreases |content|
  {
    if content == "" {
      assert Escape(content, quote) + [quote] == [quote];
      FromNext(s, i, [quote], rest);
      assert s[i] == [quote][0];
    } else {
      var first := if content[0] == quote || content[0] == '\\' then ['\\', content[0]] else [content[0]];
      var tail := (Escape(content[1..], quote) + [quote]) + rest;
      assert (Escape(content, quote) + [quote]) + rest == first + tail;
      FromNext(s, i, first, tail);
      assert s[i] == first[0];
      QuoteRuns(s, i + |first|, content[1..], quote, rest);
    }
  }

  lemma {:induction false} WordRuns(s: string, i: nat, text: string, rest: string)
    requires From(s, i, text + rest) && AllParts(text) && (rest != "" ==> !NamePart(rest[0]))
    ensures WordEnd(s, i) == i + |text|
    decreases |text|
  {
    FromNext(s, i, text, rest);
    if text != "" {
      assert text + rest == [text[0]] + (text[1..] + rest);
      FromNext(s, i, [text[0]], text[1..] + rest);
      WordRuns(s, i + 1, text[1..], rest);
    } else if rest != "" {
      assert s[i] == s[i..][0];
    }
  }

  lemma PunctuationMarks(c: char)
    ensures c in "{}[]()<>,:;=?" <==> IsPunctuation(c)
  {
  }

  lemma MarkItem(s: string, i: nat)
    requires i < |s| && IsPunctuation(s[i])
    ensures ItemAt(s, i) == Item(i + 1, true)
  {
  }

  lemma NameItem(s: string, i: nat)
    requires i < |s| && NameStart(s[i])
    ensures ItemAt(s, i) == Item(WordEnd(s, i + 1), true)
  {
  }

  lemma WordItem(s: string, i: nat, text: string, rest: string)
    requires From(s, i, text + rest) && Fits(Word(text), rest)
    ensures i < |s| && ItemAt(s, i) == Item(i + |text|, true)
  {
    FromNext(s, i, text, rest);
    assert s[i] == text[0];
    PunctuationMarks(text[0]);
    if IsPunctuation(text[0]) {
      MarkItem(s, i);
    } else {
      assert text + rest == [text[0]] + (text[1..] + rest);
      FromNext(s, i, [text[0]], text[1..] + rest);
      WordRuns(s, i + 1, text[1..], rest);
      NameItem(s, i);
    }
  }

  lemma LineItem(s: string, i: nat, body: string, rest: string)
    requires From(s, i, ("//" + body) + rest) && Fits(Line(body), rest)
    ensures i < |s| && ItemAt(s, i) == Item(i + |body| + 2, false)
  {
    assert ("//" + body) + rest == "//" + (body + rest);
    FromNext(s, i, "//", body + rest);
    assert s[i] == "//"[0] && s[i + 1] == "//"[1];
    LineRuns(s, i + 2, body, rest);
  }

  lemma BlockItem(s: string, i: nat, body: string, rest: string)
    requires From(s, i, ("/*" + (body + "*/")) + rest) && Unclosed(body)
    ensures i < |s| && ItemAt(s, i) == Item(i + |body| + 4, false)
  {
    assert ("/*" + (body + "*/")) + rest == "/*" + ((body + "*/") + rest);
    FromNext(s, i, "/*", (body + "*/") + rest);
    assert s[i] == "/*"[0] && s[i + 1] == "/*"[1];
    FromNext(s, i + 2, body + "*/", rest);
    BlockRuns(s, i + 2, body, rest);
  }

  lemma QuotedItem(s: string, i: nat, quote: char, content: string, rest: string)
    requires From(s, i, ([quote] + (Escape(content, quote) + [quote])) + rest) && quote in "'\"`"
    ensures i < |s| && ItemAt(s, i) == Item(i + |Escape(content, quote)| + 2, false)
  {
    var inner := (Escape(content, quote) + [quote]) + rest;
    assert ([quote] + (Escape(content, quote) + [quote])) + rest == [quote] + inner;
    FromNext(s, i, [quote], inner);
    assert s[i] == [quote][0];
    QuoteRuns(s, i + 1, content, quote, rest);
  }

  lemma OtherItem(s: string, i: nat, c: char, rest: string)
    requires From(s, i, [c] + rest) && Fits(Other(c), rest)
    ensures i < |s| && ItemAt(s, i) == Item(i + 1, false)
  {
    FromNext(s, i, [c], rest);
    assert s[i] == [c][0];
    if i + 1 < |s| {
      assert s[i + 1] == s[i + 1..][0] == rest[0];
    }
  }

  lemma PieceItem(s: string, i: nat, p: Piece, rest: string)
    requires From(s, i, PrintPiece(p) + rest) && Fits(p, rest)
    ensures i < |s| && ItemAt(s, i) == Item(i + |PrintPiece(p)|, p.Word?)
  {
    match p
    case Word(text) => WordItem(s, i, text, rest);
    case Space(c) => FromNext(s, i, [c], rest);
    case Line(body) => LineItem(s, i, body, rest);
    case Block(body) => BlockItem(s, i, body, rest);
    case Quoted(quote, content) => QuotedItem(s, i, quote, content, rest);
    case Other(c) => OtherItem(s, i, c, rest);
  }

  /** The scan reads the piece at `i`. */
  predicate PieceAt(s: string, i: nat, p: Piece) {
    var end := i + |PrintPiece(p)|;
    && i < end <= |s| && ItemAt(s, i) == Item(end, p.Word?)
    && (p.Word? ==> s[i..end] == p.text)
  }

  /** The pieces stand one after the other from `i` to the end of the source. */
  predicate Laid(s: string, i: nat, pieces: seq<Piece>)
    decreases |pieces|
  {
    if pieces == [] then i == |s|
    else
      PieceAt(s, i, pieces[0]) && Laid(s, i + |PrintPiece(pieces[0])|, pieces[1..])
  }

  /** Well-formed pieces are what is left of the source at `i`. */
  ghost predicate Left(s: string, i: nat, pieces: seq<Piece>) {
    From(s, i, Print(pieces)) && WellFormed(pieces)
  }

  type Remainder = (nat, seq<Piece>) -> bool

  /** What is left begins with a piece that the scan reads, or the source ends. */
  ghost predicate ReadsOn(s: string, left: Remainder) {
    && (forall i: nat :: left(i, []) ==> i == |s|)
    && forall i: nat, p, rest :: left(i, [p] + rest) ==> PieceAt(s, i, p) && left(i + |PrintPiece(p)|, rest)
  }

  lemma FirstOf(p: Piece, rest: seq<Piece>)
    requires WellFormed([p] + rest)
    ensures Print([p] + rest) == PrintPiece(p) + Print(rest) && Fits(p, Print(rest)) && WellFormed(rest)
  {
    assert ([p] + rest)[1..] == rest;
  }

  lemma FirstIsRead(s: string, i: nat, p: Piece, rest: string)
    requires From(s, i, PrintPiece(p) + rest) && Fits(p, rest)
    ensures PieceAt(s, i, p) && From(s, i + |PrintPiece(p)|, rest)
  {
    PieceItem(s, i, p, rest);
    FromNext(s, i, PrintPiece(p), rest);
  }

  lemma LeftFirst(s: string, i: nat, p: Piece, rest: seq<Piece>)
    requires Left(s, i, [p] + rest)
    ensures PieceAt(s, i, p) && Left(s, i + |PrintPiece(p)|, rest)
  {
    FirstOf(p, rest);
    FirstIsRead(s, i, p, Print(rest));
  }

  lemma LeftEnds(s: string, i: nat)
    requires Left(s, i, [])
    ensures i == |s|
  {
    assert |s[i..]| == 0;
  }

  ghost function Remaining(s: string): Remainder {
    (i: nat, pieces) => Left(s, i, pieces)
  }

  lemma LeftReadsOn(s: string)
    ensures ReadsOn(s, Remaining(s))
  {
    forall i: nat | Remaining(s)(i, [])
      ensures i == |s|
    {
      LeftEnds(s, i);
    }
    forall i: nat, p, rest | Remaining(s)(i, [p] + rest)
      ensures PieceAt(s, i, p) && Remaining(s)(i + |PrintPiece(p)|, rest)
    {
      LeftFirst(s, i, p, rest);
    }
  }

  lemma {:induction false} ReadIsLaid(s: string, i: nat, left: Remainder, pieces: seq<Piece>)
    requires ReadsOn(s, left) && left(i, pieces)
    ensures Laid(s, i, pieces)
    decreases |pieces|
  {
    if pieces != [] {
      assert pieces == [pieces[0]] + pieces[1..];
      ReadIsLaid(s, i + |PrintPiece(pieces[0])|, left, pieces[1..]);
    }
  }

  /** The texts that some spans of the source cover, if they lie in it. */
  function Texts(s: string, spans: seq<(nat, nat)>): seq<string> {
    if spans == [] then []
    else
      var (start, end) := spans[0];
      [if start <= end <= |s| then s[start..end] else ""] + Texts(s, spans[1..])
  }

  lemma SpansFirst(s: string, i: nat, end: nat, token: bool)
    requires i < end <= |s| && ItemAt(s, i) == Item(end, token)
    ensures Texts(s, Spans(s, i)) == (if token then [s[i..end]] else []) + Texts(s, Spans(s, end))
  {
    var rest := Spans(s, end);
    if token {
      assert Spans(s, i) == [(i, end)] + rest && ([(i, end)] + rest)[1..] == rest;
    } else {
      assert Spans(s, i) == [] + rest == rest;
    }
  }

  lemma {:induction false} LaidIsScanned(s: string, i: nat, pieces: seq<Piece>)
    requires i <= |s| && Laid(s, i, pieces)
    ensures Texts(s, Spans(s, i)) == Words(pieces)
    decreases |pieces|
  {
    if pieces != [] {
      var end := i + |PrintPiece(pieces[0])|;
      LaidIsScanned(s, end, pieces[1..]);
      SpansFirst(s, i, end, pieces[0].Word?);
    }
  }

  /** The tokens are exactly the words, in order: none from a comment or quoted text, and
      none split or joined. */
  lemma TokensAreWords(s: string, i: nat, pieces: seq<Piece>)
    requires From(s, i, Print(pieces)) && WellFormed(pieces)
    ensures InSource(s, Spans(s, i)) && Texts(s, Spans(s, i)) == Words(pieces)
  {
    SpansIncrease(s, i);
    LeftReadsOn(s);
    ReadIsLaid(s, i, Remaining(s), pieces);
    LaidIsScanned(s, i, pieces);
  }
}
