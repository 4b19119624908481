// The tokenizer of library declarations in crates/tsz-core/build.rs. A source is a byte
// string: every character stands for one byte.

module LibraryTokens {
  import opened Wrappers

  predicate IsWhite(c: char) {
    c == '\t' || c == '\n' || c == '\r' || c == ' ' || c as int == 12
  }

  predicate IsNewline(c: char) {
    c == '\n' || c == '\r'
  }

  predicate IsQuote(c: char) {
    c == '\'' || c == '"' || c == '`'
  }

  predicate IsPunctuation(c: char) {
    || c == '{' || c == '}' || c == '[' || c == ']' || c == '(' || c == ')' || c == '<' || c == '>'
    || c == ',' || c == ':' || c == ';' || c == '=' || c == '?'
  }

  predicate IsIdentifierStart(c: char) {
    'a' <= c <= 'z' || 'A' <= c <= 'Z' || c == '_' || c == '$'
  }

  predicate IsIdentifierPart(c: char) {
    IsIdentifierStart(c) || '0' <= c <= '9'
  }

  predicate IsIdentifier(token: string) {
    token != "" && IsIdentifierStart(token[0])
  }

  // ------------------------------------------------------------------ the lexer

  function LineEnd(s: string, i: nat): (end: nat)
    requires i <= |s|
    ensures i <= end <= |s|
    decreases |s| - i
  {
    if i == |s| || IsNewline(s[i]) then i else LineEnd(s, i + 1)
  }

  predicate ClosesBlock(s: string, i: nat) {
    i + 1 < |s| && s[i] == '*' && s[i + 1] == '/'
  }

  /** The star that closes a block comment, or the last byte or two of the source. */
  function BlockStop(s: string, i: nat): (end: nat)
    requires i <= |s|
    ensures i <= end <= |s|
    decreases |s| - i
  {
    if i + 1 >= |s| || ClosesBlock(s, i) then i else BlockStop(s, i + 1)
  }

  function QuoteEnd(s: string, i: nat, quote: char): (end: nat)
    requires i <= |s|
    ensures i <= end <= |s|
    decreases |s| - i
  {
    if i == |s| then i
    else if s[i] == '\\' then QuoteEnd(s, Min(i + 2, |s|), quote)
    else if s[i] == quote then i + 1
    else QuoteEnd(s, i + 1, quote)
  }

  function WordEnd(s: string, i: nat): (end: nat)
    requires i <= |s|
    ensures i <= end <= |s|
    ensures forall k :: i <= k < end ==> IsIdentifierPart(s[k])
    decreases |s| - i
  {
    if i < |s| && IsIdentifierPart(s[i]) then WordEnd(s, i + 1) else i
  }

  /** What stands at `i`: where it ends, and whether it is a token. */
  datatype Item = Item(end: nat, token: bool)

  predicate Slash(s: string, i: nat, second: char) {
    i + 1 < |s| && s[i] == '/' && s[i + 1] == second
  }

  function ItemAt(s: string, i: nat): (item: Item)
    requires i < |s|
    ensures i < item.end <= |s|
  {
    if IsWhite(s[i]) then Item(i + 1, false)
    else if Slash(s, i, '/') then Item(LineEnd(s, i + 2), false)
    else if Slash(s, i, '*') then Item(Min(BlockStop(s, i + 2) + 2, |s|), false)
    else if IsQuote(s[i]) then Item(QuoteEnd(s, i + 1, s[i]), false)
    else if IsPunctuation(s[i]) then Item(i + 1, true)
    else if IsIdentifierStart(s[i]) then Item(WordEnd(s, i + 1), true)
    else Item(i + 1, false)
  }

  const U32: nat := 0x1_0000_0000

  /** The text of a token and its offset, stored in 32 bits. */
  datatype Token = Token(text: string, offset: nat)

  /** The spans of the tokens from `i` on. */
  function Spans(s: string, i: nat): seq<(nat, nat)>
    requires i <= |s|
    decreases |s| - i
  {
    if i == |s| then []
    else
      var item := ItemAt(s, i);
      (if item.token then [(i, item.end)] else []) + Spans(s, item.end)
  }

  function TokenOf(s: string, span: (nat, nat)): Token
    requires span.0 <= span.1 <= |s|
  {
    Token(s[span.0..span.1], span.0 % U32)
  }

  // ---------------------------------------------------------------------- the scan

  method SkipLine(s: string, start: nat) returns (index: nat)
    requires start <= |s|
    ensures index == LineEnd(s, start)
  {
    index := start;
    while index < |s| && !IsNewline(s[index])
      invariant index <= |s| && LineEnd(s, start) == LineEnd(s, index)
    {
      index := index + 1;
    }
  }

  method SkipBlock(s: string, start: nat) returns (index: nat)
    requires start <= |s|
    ensures index == Min(BlockStop(s, start) + 2, |s|)
  {
    index := start;
    while index + 1 < |s| && !(s[index] == '*' && s[index + 1] == '/')
      invariant index <= |s| && BlockStop(s, start) == BlockStop(s, index)
    {
      index := index + 1;
    }
    index := Min(index + 2, |s|);
  }

  method SkipQuoted(s: string, start: nat, quote: char) returns (index: nat)
    requires start <= |s|
    ensures index == QuoteEnd(s, start, quote)
  {
    index := start;
    while index < |s|
      invariant index <= |s| && QuoteEnd(s, start, quote) == QuoteEnd(s, index, quote)
      decreases |s| - index
    {
      if s[index] == '\\' {
        index := Min(index + 2, |s|);
      } else if s[index] == quote {
        index := index + 1;
        return;
      } else {
        index := index + 1;
      }
    }
  }

  method SkipWord(s: string, start: nat) returns (index: nat)
    requires start <= |s|
    ensures index == WordEnd(s, start)
  {
    index := start;
    while index < |s| && IsIdentifierPart(s[index])
      invariant start <= index <= |s| && WordEnd(s, start) == WordEnd(s, index)
    {
      index := index + 1;
    }
  }

  method NextItem(s: string, index: nat) returns (item: Item)
    requires index < |s|
    ensures item == ItemAt(s, index)
  {
    var byte := s[index];
    if IsWhite(byte) {
      return Item(index + 1, false);
    }
    if Slash(s, index, '/') {
      var end := SkipLine(s, index + 2);
      return Item(end, false);
    }
    if Slash(s, index, '*') {
      var end := SkipBlock(s, index + 2);
      return Item(end, false);
    }
    if IsQuote(byte) {
      var end := SkipQuoted(s, index + 1, byte);
      return Item(end, false);
    }
    if IsPunctuation(byte) {
      return Item(index + 1, true);
    }
    if IsIdentifierStart(byte) {
      var end := SkipWord(s, index + 1);
      return Item(end, true);
    }
    return Item(index + 1, false);
  }

  ghost predicate InSource(s: string, spans: seq<(nat, nat)>) {
    forall k :: 0 <= k < |spans| ==> spans[k].0 < spans[k].1 <= |s|
  }

  ghost function TokensOf(s: string, spans: seq<(nat, nat)>): (tokens: seq<Token>)
    requires InSource(s, spans)
    ensures |tokens| == |spans|
  {
    seq(|spans|, k requires 0 <= k < |spans| => TokenOf(s, spans[k]))
  }

  /** Token spans follow one another without overlap. */
  ghost predicate Increasing(spans: seq<(nat, nat)>, low: nat) {
    && (forall k :: 0 <= k < |spans| ==> low <= spans[k].0 < spans[k].1)
    && (forall j, k :: 0 <= j < k < |spans| ==> spans[j].1 <= spans[k].0)
  }

  lemma {:induction false} SpansIncrease(s: string, i: nat)
    requires i <= |s|
    ensures InSource(s, Spans(s, i)) && Increasing(Spans(s, i), i)
    decreases |s| - i
  {
    if i < |s| {
      var item := ItemAt(s, i);
      SpansIncrease(s, item.end);
    }
  }

  /** One step of the scan. */
  lemma SpansStep(s: string, done: seq<(nat, nat)>, i: nat)
    requires i < |s| && Spans(s, 0) == done + Spans(s, i)
    ensures var item := ItemAt(s, i);
            Spans(s, 0) == (if item.token then done + [(i, item.end)] else done) + Spans(s, item.end)
  {
    var item := ItemAt(s, i);
    var rest := Spans(s, item.end);
    if item.token {
      assert done + ([(i, item.end)] + rest) == (done + [(i, item.end)]) + rest;
    } else {
      assert [] + rest == rest;
    }
  }

  /** The text is the source at the recorded offset. */
  predicate IsSlice(s: string, t: Token) {
    t.text != "" && t.offset + |t.text| <= |s| && t.text == s[t.offset..t.offset + |t.text|]
  }

  predicate AllSlices(s: string, tokens: seq<Token>) {
    forall k :: 0 <= k < |tokens| ==> IsSlice(s, tokens[k])
  }

  lemma SpansAreSlices(s: string, spans: seq<(nat, nat)>)
    requires |s| <= U32 && InSource(s, spans)
    ensures AllSlices(s, TokensOf(s, spans))
  {
  }

  method Tokenize(s: string) returns (tokens: seq<Token>)
    ensures InSource(s, Spans(s, 0)) && tokens == TokensOf(s, Spans(s, 0))
    ensures Increasing(Spans(s, 0), 0)
    ensures |s| <= 0x1_0000_0000 ==> AllSlices(s, tokens)
  {
    tokens := [];
    var index := 0;
    ghost var done: seq<(nat, nat)> := [];
    assert [] + Spans(s, 0) == Spans(s, 0);
    while index < |s|
      invariant index <= |s| && Spans(s, 0) == done + Spans(s, index)
      invariant InSource(s, done) && tokens == TokensOf(s, done)
      decreases |s| - index
    {
      SpansStep(s, done, index);
      var item := NextItem(s, index);
      if item.token {
        tokens := tokens + [Token(s[index..item.end], index % U32)];
        done := done + [(index, item.end)];
      }
      index := item.end;
    }
    assert done + [] == done;
    SpansIncrease(s, 0);
    if |s| <= U32 {
      SpansAreSlices(s, done);
    }
  }
}
