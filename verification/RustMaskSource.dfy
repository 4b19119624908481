// The Rust scan on whole sources: in a source written as code, comments and literals,
// exactly the comments and literals are blanked, and exactly the strings are recorded.

module RustMaskSource {
  import opened Wrappers
  import opened RustMask
  import opened RustMaskForms
  import opened RustMaskLaws

  datatype Piece =
    | Code(c: char)
    | Line(body: string)
    | Block(comment: Body)
    | Str(content: string)
    | Raw(prefix: string, hashes: nat, content: string)
    | Plain(c: char)
    | Escaped(e: string)

  function PrintPiece(p: Piece): string {
    match p
    case Code(c) => [c]
    case Line(body) => "//" + body
    case Block(comment) => "/*" + RustMaskForms.Print(comment)
    case Str(content) => "\"" + (Escape(content) + "\"")
    case Raw(prefix, n, content) => prefix + (Fence(n) + "\"") + (content + Terminator(n))
    case Plain(c) => "'" + ([c] + "'")
    case Escaped(e) => "'\\" + (e + "'")
  }

  /** What the scan makes of a piece: whether it is a token, and the content of a string. */
  datatype Item = Item(token: bool, content: Option<(nat, nat)>)

  function ItemOf(p: Piece): Item {
    match p
    case Code(_) => Item(false, None)
    case Str(content) => Item(true, Some((1, 1 + |Escape(content)|)))
    case Raw(prefix, n, content) => Item(true, Some((|prefix| + n + 1, |prefix| + n + 1 + |content|)))
    case _ => Item(true, None)
  }

  function TokenFor(item: Item, i: nat, size: nat): Option<Token> {
    if !item.token then None
    else Some(Token(i, i + size, if item.content.None? then None
                                 else Some((i + item.content.value.0, i + item.content.value.1))))
  }

  /** `s` begins like a raw string. */
  ghost predicate OpensRaw(s: string) {
    exists n: nat :: n <= 255 && ("r" + (Fence(n) + "\"") <= s || "br" + (Fence(n) + "\"") <= s)
  }

  /** A character that opens nothing, given what follows it. */
  ghost predicate IsCode(c: char, word: bool, rest: string) {
    && c != '"'
    && (c == '/' && rest != "" ==> rest[0] != '/' && rest[0] != '*')
    && (c == '\'' ==> (rest != "" ==> rest[0] != '\\') && (|rest| > 1 ==> rest[1] != '\''))
    && (word || !OpensRaw([c] + rest))
  }

  /** A piece is what it says, given what follows it and whether a word stands before it. */
  ghost predicate Fits(p: Piece, word: bool, rest: string) {
    match p
    case Code(c) => IsCode(c, word, rest)
    case Line(body) => '\n' !in body && (rest != "" ==> rest[0] == '\n')
    case Block(comment) => WellFormed(comment)
    case Str(_) => true
    case Raw(prefix, n, content) => (prefix == "r" || prefix == "br") && n <= 255 && Unfenced(content, n) && !word
    case Plain(c) => c != '\\'
    case Escaped(e) => '\'' !in e && |e| <= 14
  }

  // ------------------------------------------------------------------- one piece

  lemma {:induction false} HashesAreFence(text: string, i: nat)
    requires i <= |text|
    ensures text[i..i + Hashes(text, i)] == Fence(Hashes(text, i))
    decreases |text| - i
  {
    if i < |text| && text[i] == '#' {
      HashesAreFence(text, i + 1);
      assert text[i..i + Hashes(text, i)] == ['#'] + text[i + 1..i + Hashes(text, i)];
      assert Fence(Hashes(text, i)) == ['#'] + Fence(Hashes(text, i) - 1);
    }
  }

  lemma JoinSlices(text: string, a: nat, b: nat, c: nat, d: nat)
    requires a <= b <= c <= d <= |text|
    ensures text[a..d] == text[a..b] + (text[b..c] + text[c..d])
  {
  }

  lemma OpenerShows(text: string, i: nat)
    requires i <= |text| && RawOpener(text, i).Some?
    ensures OpensRaw(text[i..])
  {
    var k := RawPrefix(text, i).value;
    var (n, start) := RawOpener(text, i).value;
    HashesAreFence(text, k);
    var prefix := text[i..k];
    assert prefix == "r" || prefix == "br";
    JoinSlices(text, i, k, k + n, start);
    assert text[k + n..start] == "\"";
    assert text[i..start] <= text[i..];
  }

  lemma CodeIsNoToken(alnum: Alnum, text: string, i: nat, c: char, rest: string)
    requires i < |text| && text[i] == c && text[i + 1..] == rest
    requires IsCode(c, WordBefore(alnum, text, i), rest)
    ensures TokenAt(alnum, text, i).None?
  {
    assert rest != "" ==> rest[0] == text[i + 1];
    assert |rest| > 1 ==> rest[1] == text[i + 2];
    if RawOpener(text, i).Some? {
      OpenerShows(text, i);
      assert text[i..] == [c] + rest;
    }
    if c == '\'' {
      PlainQuote(alnum, text, i);
    }
  }

  lemma PlainToken(alnum: Alnum, text: string, i: nat, c: char)
    requires StartsAt(text, i, "'" + ([c] + "'")) && c != '\\'
    ensures TokenAt(alnum, text, i) == Some(Token(i, i + 3, None))
  {
    var s := "'" + ([c] + "'");
    assert text[i] == text[i..i + 3][0] == s[0];
    assert text[i + 1] == text[i..i + 3][1] == s[1] && text[i + 2] == text[i..i + 3][2] == s[2];
    PlainQuote(alnum, text, i);
  }

  lemma EscapedToken(alnum: Alnum, text: string, i: nat, e: string)
    requires StartsAt(text, i, "'\\" + (e + "'")) && '\'' !in e && |e| <= 14
    ensures TokenAt(alnum, text, i) == Some(Token(i, i + 3 + |e|, None))
  {
    EscapedCharacter(alnum, text, i, e);
  }

  /** What the scan finds where a piece stands. */
  predicate IsAt(alnum: Alnum, text: string, i: nat, p: Piece) {
    i < |text| && TokenAt(alnum, text, i) == TokenFor(ItemOf(p), i, |PrintPiece(p)|)
  }

  lemma CodePiece(alnum: Alnum, text: string, i: nat, c: char, rest: string)
    requires StartsAt(text, i, [c]) && text[i + 1..] == rest && IsCode(c, WordBefore(alnum, text, i), rest)
    ensures IsAt(alnum, text, i, Code(c))
  {
    assert text[i..i + 1][0] == c;
    CodeIsNoToken(alnum, text, i, c, rest);
  }

  lemma LinePiece(alnum: Alnum, text: string, i: nat, body: string)
    requires StartsAt(text, i, "//" + body) && '\n' !in body
    requires i + 2 + |body| < |text| ==> text[i + 2 + |body|] == '\n'
    ensures IsAt(alnum, text, i, Line(body))
  {
    LineCommentIsOneToken(alnum, text, i, body);
  }

  lemma BlockPiece(alnum: Alnum, text: string, i: nat, comment: Body)
    requires WellFormed(comment) && StartsAt(text, i, "/*" + RustMaskForms.Print(comment))
    ensures IsAt(alnum, text, i, Block(comment))
  {
    NestedCommentIsOneToken(alnum, text, i, comment);
  }

  lemma StrPiece(alnum: Alnum, text: string, i: nat, content: string)
    requires StartsAt(text, i, "\"" + (Escape(content) + "\""))
    ensures IsAt(alnum, text, i, Str(content))
  {
    StringIsOneToken(alnum, text, i, content);
  }

  lemma RawItem(prefix: string, n: nat, content: string)
    ensures |PrintPiece(Raw(prefix, n, content))| == |prefix| + n + 1 + |content| + n + 1
    ensures ItemOf(Raw(prefix, n, content)) == Item(true, Some((|prefix| + n + 1, |prefix| + n + 1 + |content|)))
  {
  }

  lemma ItemIsAt(alnum: Alnum, text: string, i: nat, p: Piece, size: nat, start: nat, stop: nat)
    requires |PrintPiece(p)| == size && ItemOf(p) == Item(true, Some((start, stop)))
    requires i < |text| && TokenAt(alnum, text, i) == Some(Token(i, i + size, Some((i + start, i + stop))))
    ensures IsAt(alnum, text, i, p)
  {
  }

  lemma RawPiece(alnum: Alnum, text: string, i: nat, prefix: string, n: nat, content: string)
    requires IsRawPrefix(prefix) && n <= 255 && Unfenced(content, n) && i <= |text| && !WordBefore(alnum, text, i)
    requires StartsAt(text, i, prefix + (Fence(n) + "\"") + (content + Terminator(n)))
    ensures IsAt(alnum, text, i, Raw(prefix, n, content))
  {
    var start := |prefix| + n + 1;
    RawItem(prefix, n, content);
    RawStringIsOneToken(alnum, text, i, prefix, content, n);
    ItemIsAt(alnum, text, i, Raw(prefix, n, content), start + |content| + n + 1, start, start + |content|);
  }

  lemma CharPiece(alnum: Alnum, text: string, i: nat, c: char)
    requires StartsAt(text, i, "'" + ([c] + "'")) && c != '\\'
    ensures IsAt(alnum, text, i, Plain(c))
  {
    PlainToken(alnum, text, i, c);
  }

  lemma EscapedPiece(alnum: Alnum, text: string, i: nat, e: string)
    requires StartsAt(text, i, "'\\" + (e + "'")) && '\'' !in e && |e| <= 14
    ensures IsAt(alnum, text, i, Escaped(e))
  {
    EscapedToken(alnum, text, i, e);
  }

  lemma PieceIsAt(alnum: Alnum, text: string, i: nat, p: Piece, rest: string)
    requires StartsAt(text, i, PrintPiece(p)) && text[i + |PrintPiece(p)|..] == rest
    requires Fits(p, WordBefore(alnum, text, i), rest)
    ensures IsAt(alnum, text, i, p)
  {
    assert rest != "" ==> text[i + |PrintPiece(p)|] == rest[0];
    match p
    case Code(c) => CodePiece(alnum, text, i, c, rest);
    case Line(body) => LinePiece(alnum, text, i, body);
    case Block(comment) => BlockPiece(alnum, text, i, comment);
    case Str(content) => StrPiece(alnum, text, i, content);
    case Raw(prefix, n, content) => RawPiece(alnum, text, i, prefix, n, content);
    case Plain(c) => CharPiece(alnum, text, i, c);
    case Escaped(e) => EscapedPiece(alnum, text, i, e);
  }

  // ---------------------------------------------------------------- whole sources

  /** How pieces are written and scanned. */
  datatype Grammar = Grammar(write: Piece -> string, item: Piece -> Item)

  function Rust(): Grammar {
    Grammar(PrintPiece, ItemOf)
  }

  function Print(g: Grammar, pieces: seq<Piece>): string {
    if pieces == [] then "" else g.write(pieces[0]) + Print(g, pieces[1..])
  }

  function Expected(g: Grammar, i: nat, pieces: seq<Piece>): seq<Token>
    decreases |pieces|
  {
    if pieces == [] then []
    else
      var size := |g.write(pieces[0])|;
      var token := TokenFor(g.item(pieces[0]), i, size);
      (if token.Some? then [token.value] else []) + Expected(g, i + size, pieces[1..])
  }

  /** Whether a text ends in a character that continues an identifier. */
  predicate EndsInWord(alnum: Alnum, s: string) {
    s != "" && (alnum(s[|s| - 1]) || s[|s| - 1] == '_')
  }

  ghost predicate AllFit(alnum: Alnum, word: bool, pieces: seq<Piece>)
    decreases |pieces|
  {
    pieces != [] ==>
      && Fits(pieces[0], word, Print(Rust(), pieces[1..]))
      && AllFit(alnum, EndsInWord(alnum, PrintPiece(pieces[0])), pieces[1..])
  }

  /** These pieces are what is left of the source at `i`. */
  ghost predicate Left(alnum: Alnum, text: string, i: nat, pieces: seq<Piece>) {
    i <= |text| && text[i..] == Print(Rust(), pieces) && AllFit(alnum, WordBefore(alnum, text, i), pieces)
  }

  type Remainder = (nat, seq<Piece>) -> bool

  ghost predicate ReadsOn(alnum: Alnum, text: string, g: Grammar, left: Remainder) {
    (forall i: nat :: Ends(text, left, i)) && forall i: nat, p, rest :: Continues(alnum, text, g, left, i, p, rest)
  }

  predicate Ends(text: string, left: Remainder, i: nat) {
    left(i, []) ==> i == |text|
  }

  predicate Continues(alnum: Alnum, text: string, g: Grammar, left: Remainder, i: nat, p: Piece, rest: seq<Piece>) {
    left(i, [p] + rest) ==> Reads(alnum, text, g, i, p) && left(i + |g.write(p)|, rest)
  }

  /** The scan reads the piece at `i`. */
  predicate Reads(alnum: Alnum, text: string, g: Grammar, i: nat, p: Piece) {
    var size := |g.write(p)|;
    && size > 0 && i + size <= |text|
    && TokenAt(alnum, text, i) == TokenFor(g.item(p), i, size) && (!g.item(p).token ==> size == 1)
  }

  lemma {:induction false} ReadTokens(alnum: Alnum, text: string, i: nat, g: Grammar, left: Remainder, pieces: seq<Piece>)
    requires ReadsOn(alnum, text, g, left) && left(i, pieces)
    ensures i <= |text| && Tokens(alnum, text, i) == Expected(g, i, pieces)
    decreases |pieces|
  {
    if pieces != [] {
      var p, rest := pieces[0], pieces[1..];
      assert pieces == [p] + rest;
      assert Continues(alnum, text, g, left, i, p, rest);
      ReadTokens(alnum, text, i + |g.write(p)|, g, left, rest);
    } else {
      assert Ends(text, left, i);
    }
  }

  lemma FirstOf(alnum: Alnum, word: bool, p: Piece, rest: seq<Piece>)
    requires AllFit(alnum, word, [p] + rest)
    ensures Print(Rust(), [p] + rest) == PrintPiece(p) + Print(Rust(), rest)
    ensures Fits(p, word, Print(Rust(), rest)) && AllFit(alnum, EndsInWord(alnum, PrintPiece(p)), rest)
  {
    assert ([p] + rest)[1..] == rest;
  }

  lemma WordAfter(alnum: Alnum, text: string, i: nat, s: string)
    requires StartsAt(text, i, s) && s != ""
    ensures WordBefore(alnum, text, i + |s|) == EndsInWord(alnum, s)
  {
    assert text[i + |s| - 1] == text[i..i + |s|][|s| - 1];
  }

  lemma FitsIsPrinted(p: Piece, word: bool, rest: string)
    requires Fits(p, word, rest)
    ensures PrintPiece(p) != "" && (p.Code? ==> |PrintPiece(p)| == 1)
  {
  }

  lemma LeftFirst(alnum: Alnum, text: string, i: nat, p: Piece, rest: seq<Piece>)
    requires Left(alnum, text, i, [p] + rest)
    ensures PrintPiece(p) != "" && i + |PrintPiece(p)| <= |text| && (p.Code? ==> |PrintPiece(p)| == 1)
    ensures IsAt(alnum, text, i, p) && Left(alnum, text, i + |PrintPiece(p)|, rest)
  {
    var s, tail := PrintPiece(p), Print(Rust(), rest);
    FirstOf(alnum, WordBefore(alnum, text, i), p, rest);
    FitsIsPrinted(p, WordBefore(alnum, text, i), tail);
    assert text[i..i + |s|] == text[i..][..|s|] == s && text[i + |s|..] == text[i..][|s|..] == tail;
    PieceIsAt(alnum, text, i, p, tail);
    WordAfter(alnum, text, i, s);
  }

  ghost function Remaining(alnum: Alnum, text: string): Remainder {
    (i: nat, pieces) => Left(alnum, text, i, pieces)
  }

  lemma LeftEnds(alnum: Alnum, text: string, i: nat)
    requires Left(alnum, text, i, [])
    ensures i == |text|
  {
    assert |text[i..]| == 0;
  }

  lemma ReadsPiece(alnum: Alnum, text: string, i: nat, p: Piece)
    requires PrintPiece(p) != "" && i + |PrintPiece(p)| <= |text| && (p.Code? ==> |PrintPiece(p)| == 1)
    requires IsAt(alnum, text, i, p)
    ensures Reads(alnum, text, Rust(), i, p) && Rust().write(p) == PrintPiece(p)
  {
  }

  lemma ReadsFirst(alnum: Alnum, text: string, i: nat, p: Piece, rest: seq<Piece>)
    requires Left(alnum, text, i, [p] + rest)
    ensures Reads(alnum, text, Rust(), i, p) && Left(alnum, text, i + |Rust().write(p)|, rest)
  {
    LeftFirst(alnum, text, i, p, rest);
    ReadsPiece(alnum, text, i, p);
  }

  lemma RemainingEnds(alnum: Alnum, text: string, i: nat)
    ensures Ends(text, Remaining(alnum, text), i)
  {
    if Left(alnum, text, i, []) {
      LeftEnds(alnum, text, i);
    }
  }

  lemma RemainingFirst(alnum: Alnum, text: string, i: nat, p: Piece, rest: seq<Piece>)
    ensures Continues(alnum, text, Rust(), Remaining(alnum, text), i, p, rest)
  {
    if Left(alnum, text, i, [p] + rest) {
      ReadsFirst(alnum, text, i, p, rest);
    }
  }

  lemma LeftReadsOn(alnum: Alnum, text: string, g: Grammar, left: Remainder)
    requires g == Rust() && left == Remaining(alnum, text)
    ensures ReadsOn(alnum, text, g, left)
  {
    forall i: nat
      ensures Ends(text, left, i)
    {
      RemainingEnds(alnum, text, i);
    }
    forall i: nat, p, rest
      ensures Continues(alnum, text, g, left, i, p, rest)
    {
      RemainingFirst(alnum, text, i, p, rest);
    }
  }

  /** The tokens of a source are its comments and literals, at their places. */
  lemma TokensArePieces(alnum: Alnum, pieces: seq<Piece>)
    requires AllFit(alnum, false, pieces)
    ensures Tokens(alnum, Print(Rust(), pieces), 0) == Expected(Rust(), 0, pieces)
  {
    var text := Print(Rust(), pieces);
    assert text[0..] == text;
    assert Left(alnum, text, 0, pieces);
    LeftReadsOn(alnum, text, Rust(), Remaining(alnum, text));
    ReadTokens(alnum, text, 0, Rust(), Remaining(alnum, text), pieces);
  }

  // ------------------------------------------------------------------ what is masked

  function Blanks(s: string): (out: string)
    ensures |out| == |s|
  {
    seq(|s|, i requires 0 <= i < |s| => if s[i] == '\n' then '\n' else ' ')
  }

  /** The source as it is shown: code as it is, everything else blank. */
  function Shown(g: Grammar, pieces: seq<Piece>): (s: string)
    ensures |s| == |Print(g, pieces)|
  {
    if pieces == [] then ""
    else (if g.item(pieces[0]).token then Blanks(g.write(pieces[0])) else g.write(pieces[0])) + Shown(g, pieces[1..])
  }

  lemma {:induction false} ExpectedBehind(g: Grammar, i: nat, pieces: seq<Piece>, k: nat)
    requires k < |Expected(g, i, pieces)|
    ensures i <= Expected(g, i, pieces)[k].start
    decreases |pieces|
  {
    var size := |g.write(pieces[0])|;
    if !g.item(pieces[0]).token {
      ExpectedBehind(g, i + size, pieces[1..], k);
    } else if k > 0 {
      ExpectedBehind(g, i + size, pieces[1..], k - 1);
    }
  }

  lemma CoveredCons(first: Option<Token>, rest: seq<Token>, j: nat)
    ensures Covered((if first.Some? then [first.value] else []) + rest, j) <==>
            (first.Some? && Inside(first.value, j)) || Covered(rest, j)
  {
    var all := (if first.Some? then [first.value] else []) + rest;
    if first.Some? {
      assert all[0] == first.value;
    }
    if k :| 0 <= k < |rest| && Inside(rest[k], j) {
      assert Inside(all[|all| - |rest| + k], j);
    }
  }

  /** What is shown at a place is a blank exactly when a token covers it. */
  lemma {:induction false} CoveredExactly(g: Grammar, i: nat, pieces: seq<Piece>, j: nat)
    requires i <= j < i + |Print(g, pieces)|
    ensures var c := Print(g, pieces)[j - i];
            Shown(g, pieces)[j - i] == if Covered(Expected(g, i, pieces), j) && c != '\n' then ' ' else c
    decreases |pieces|
  {
    var size := |g.write(pieces[0])|;
    var token, rest := TokenFor(g.item(pieces[0]), i, size), Expected(g, i + size, pieces[1..]);
    CoveredCons(token, rest, j);
    if j < i + size {
      forall k | 0 <= k < |rest|
        ensures !Inside(rest[k], j)
      {
        ExpectedBehind(g, i + size, pieces[1..], k);
      }
    } else {
      CoveredExactly(g, i + size, pieces[1..], j);
    }
  }

  lemma MaskedByAt(g: Grammar, pieces: seq<Piece>, j: nat)
    requires j < |Print(g, pieces)|
    ensures Masked(Print(g, pieces), Expected(g, 0, pieces))[j] == Shown(g, pieces)[j]
  {
    MaskedAt(Print(g, pieces), Expected(g, 0, pieces), j);
    CoveredExactly(g, 0, pieces, j);
  }

  lemma MaskedBy(g: Grammar, pieces: seq<Piece>)
    ensures Masked(Print(g, pieces), Expected(g, 0, pieces)) == Shown(g, pieces)
  {
    forall j | 0 <= j < |Print(g, pieces)|
      ensures Masked(Print(g, pieces), Expected(g, 0, pieces))[j] == Shown(g, pieces)[j]
    {
      MaskedByAt(g, pieces, j);
    }
  }

  /** Masking a source shows its code and blanks its comments and literals. */
  lemma MaskedIsShown(alnum: Alnum, pieces: seq<Piece>)
    requires AllFit(alnum, false, pieces)
    ensures Masked(Print(Rust(), pieces), Tokens(alnum, Print(Rust(), pieces), 0)) == Shown(Rust(), pieces)
  {
    TokensArePieces(alnum, pieces);
    MaskedBy(Rust(), pieces);
  }

  // ---------------------------------------------------------------- what is recorded

  ghost predicate Contained(g: Grammar) {
    forall p :: g.item(p).content.Some? ==>
      g.item(p).token && g.item(p).content.value.0 <= g.item(p).content.value.1 <= |g.write(p)|
  }

  function LiteralFor(g: Grammar, i: nat, p: Piece): seq<Literal>
    requires g.item(p).content.Some? ==> g.item(p).content.value.0 <= g.item(p).content.value.1 <= |g.write(p)|
  {
    if g.item(p).content.None? then []
    else
      var (start, stop) := g.item(p).content.value;
      [Literal(i + start, g.write(p)[start..stop])]
  }

  /** The contents of strings and where they stand. */
  ghost function Recorded(g: Grammar, i: nat, pieces: seq<Piece>): seq<Literal>
    requires Contained(g)
    decreases |pieces|
  {
    if pieces == [] then [] else LiteralFor(g, i, pieces[0]) + Recorded(g, i + |g.write(pieces[0])|, pieces[1..])
  }

  lemma {:induction false} LiteralsConcat(text: string, a: seq<Token>, b: seq<Token>)
    ensures Literals(text, a + b) == Literals(text, a) + Literals(text, b)
  {
    if b == [] {
      assert a + b == a;
    } else {
      assert (a + b)[..|a + b| - 1] == a + b[..|b| - 1];
      LiteralsConcat(text, a, b[..|b| - 1]);
    }
  }

  lemma OneLiteral(text: string, t: Token)
    ensures Literals(text, [t]) == LiteralOf(text, t)
  {
    assert [t][..0] == [] && [] + LiteralOf(text, t) == LiteralOf(text, t);
  }

  lemma SliceInside(text: string, i: nat, s: string, start: nat, stop: nat)
    requires StartsAt(text, i, s) && start <= stop <= |s|
    ensures text[i + start..i + stop] == s[start..stop]
  {
    var a, b := text[i + start..i + stop], s[start..stop];
    forall k | 0 <= k < |b|
      ensures a[k] == b[k]
    {
      assert a[k] == text[i..i + |s|][start + k];
    }
  }

  lemma TokenLiteral(text: string, i: nat, s: string, item: Item, token: Token)
    requires StartsAt(text, i, s) && TokenFor(item, i, |s|) == Some(token)
    requires item.content.Some? ==> item.content.value.0 <= item.content.value.1 <= |s|
    ensures LiteralOf(text, token) ==
            if item.content.None? then []
            else [Literal(i + item.content.value.0, s[item.content.value.0..item.content.value.1])]
  {
    if item.content.Some? {
      SliceInside(text, i, s, item.content.value.0, item.content.value.1);
    }
  }

  lemma FirstLiteral(g: Grammar, text: string, i: nat, p: Piece, rest: seq<Token>)
    requires Contained(g) && StartsAt(text, i, g.write(p))
    ensures var token := TokenFor(g.item(p), i, |g.write(p)|);
            Literals(text, (if token.Some? then [token.value] else []) + rest) == LiteralFor(g, i, p) + Literals(text, rest)
  {
    var token := TokenFor(g.item(p), i, |g.write(p)|);
    if token.Some? {
      TokenLiteral(text, i, g.write(p), g.item(p), token.value);
      OneLiteral(text, token.value);
      LiteralsConcat(text, [token.value], rest);
    } else {
      assert [] + rest == rest && [] + Literals(text, rest) == Literals(text, rest);
    }
  }

  lemma {:induction false} LiteralsAre(g: Grammar, text: string, i: nat, pieces: seq<Piece>)
    requires Contained(g) && StartsAt(text, i, Print(g, pieces))
    ensures Literals(text, Expected(g, i, pieces)) == Recorded(g, i, pieces)
    decreases |pieces|
  {
    if pieces != [] {
      var s := g.write(pieces[0]);
      StartsSplit(text, i, s, Print(g, pieces[1..]));
      LiteralsAre(g, text, i + |s|, pieces[1..]);
      FirstLiteral(g, text, i, pieces[0], Expected(g, i + |s|, pieces[1..]));
    }
  }

  lemma RustContained()
    ensures Contained(Rust())
  {
    forall p | Rust().item(p).content.Some?
      ensures Rust().item(p).content.value.0 <= Rust().item(p).content.value.1 <= |Rust().write(p)|
    {
      assert Rust().item(p) == ItemOf(p) && Rust().write(p) == PrintPiece(p);
    }
  }

  /** The recorded literals of a source are the contents of its strings, in order. */
  lemma RecordedAreStrings(alnum: Alnum, pieces: seq<Piece>)
    requires AllFit(alnum, false, pieces)
    ensures Contained(Rust())
    ensures Literals(Print(Rust(), pieces), Tokens(alnum, Print(Rust(), pieces), 0)) == Recorded(Rust(), 0, pieces)
  {
    var text := Print(Rust(), pieces);
    RustContained();
    TokensArePieces(alnum, pieces);
    assert text[0..0 + |text|] == text;
    LiteralsAre(Rust(), text, 0, pieces);
  }

  /** What is recorded of a string is its content, escapes and all, and where it stands. */
  lemma RecordedContent(i: nat, content: string, prefix: string, n: nat)
    ensures LiteralFor(Rust(), i, Str(content)) == [Literal(i + 1, Escape(content))]
    ensures LiteralFor(Rust(), i, Raw(prefix, n, content)) == [Literal(i + |prefix| + n + 1, content)]
  {
    var s, r := PrintPiece(Str(content)), PrintPiece(Raw(prefix, n, content));
    assert s[1..1 + |Escape(content)|] == Escape(content);
    assert r[|prefix| + n + 1..|prefix| + n + 1 + |content|] == content;
    assert Rust().write(Str(content)) == s && Rust().write(Raw(prefix, n, content)) == r;
  }
}
