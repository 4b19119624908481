// The lexical scan of Rust sources in scripts/arch/arch_guard.py: comments and literals
// are blanked in place, and string literals are recorded with their offsets.

module RustMask {
  import opened Wrappers

  // ------------------------------------------------------------------ the lexer

  predicate StartsAt(text: string, i: nat, word: string) {
    i + |word| <= |text| && text[i..i + |word|] == word
  }

  predicate Two(text: string, i: nat, a: char, b: char) {
    i + 1 < |text| && text[i] == a && text[i + 1] == b
  }

  /** The first place at or after `i` where `word` stands, or the end of the text. */
  function Find(text: string, i: nat, word: string): (k: nat)
    requires i <= |text|
    ensures i <= k <= |text|
    decreases |text| - i
  {
    if i == |text| || StartsAt(text, i, word) then i else Find(text, i + 1, word)
  }

  /** The end of a block comment with `depth` comments open. */
  function CommentEnd(text: string, i: nat, depth: nat): (end: nat)
    requires i <= |text|
    ensures i <= end <= |text|
    decreases |text| - i
  {
    if i == |text| || depth == 0 then i
    else if Two(text, i, '/', '*') then CommentEnd(text, i + 2, depth + 1)
    else if Two(text, i, '*', '/') then CommentEnd(text, i + 2, depth - 1)
    else CommentEnd(text, i + 1, depth)
  }

  function Hashes(text: string, i: nat): (n: nat)
    requires i <= |text|
    ensures i + n <= |text|
    decreases |text| - i
  {
    if i < |text| && text[i] == '#' then 1 + Hashes(text, i + 1) else 0
  }

  /** What follows the `r` or `br` of a raw string. */
  function RawPrefix(text: string, i: nat): (k: Option<nat>)
    ensures k.Some? ==> i < k.value <= |text|
  {
    if Two(text, i, 'b', 'r') then Some(i + 2) else if i < |text| && text[i] == 'r' then Some(i + 1) else None
  }

  /** A raw string opener: the number of its hashes and where its content starts. */
  function RawOpener(text: string, i: nat): (opener: Option<(nat, nat)>)
    ensures opener.Some? ==> i < opener.value.1 <= |text|
  {
    var k := RawPrefix(text, i);
    if k.None? then None else
    var n := Hashes(text, k.value);
    if n <= 255 && k.value + n < |text| && text[k.value + n] == '"' then Some((n, k.value + n + 1)) else None
  }

  function Terminator(n: nat): (word: string)
    ensures |word| == n + 1
  {
    "\"" + seq(n, _ => '#')
  }

  /** The closing quote of an ordinary string, or the end of the text. */
  function StringStop(text: string, i: nat): (k: nat)
    requires i <= |text|
    ensures i <= k <= |text|
    decreases |text| - i
  {
    if i == |text| || text[i] == '"' then i
    else if text[i] == '\\' then StringStop(text, if i + 2 <= |text| then i + 2 else |text|)
    else StringStop(text, i + 1)
  }

  /** The next quote at or after `i` and before `limit`, or `limit`. */
  function QuoteBefore(text: string, i: nat, limit: nat): (k: nat)
    requires i <= limit <= |text|
    ensures i <= k <= limit
    decreases limit - i
  {
    if i == limit || text[i] == '\'' then i else QuoteBefore(text, i + 1, limit)
  }

  /** Where the closing quote of a character literal would stand. */
  function CharStop(text: string, i: nat): (k: nat)
    requires i < |text|
    ensures i < k
  {
    if i + 1 < |text| && text[i + 1] == '\\' then
      if i + 2 <= Min(|text|, i + 16) then QuoteBefore(text, i + 2, Min(|text|, i + 16)) else i + 2
    else i + 2
  }

  /** A comment or literal, with the content of a string literal. */
  datatype Token = Token(start: nat, end: nat, content: Option<(nat, nat)>)

  type Alnum = char -> bool

  predicate WordBefore(alnum: Alnum, text: string, i: nat)
    requires i <= |text|
  {
    i > 0 && (alnum(text[i - 1]) || text[i - 1] == '_')
  }

  /** The comment or literal that starts at `i`, in the order the scan tries them. */
  function TokenAt(alnum: Alnum, text: string, i: nat): (token: Option<Token>)
    requires i < |text|
  {
    if Two(text, i, '/', '/') then Some(Token(i, Find(text, i + 2, "\n"), None))
    else if Two(text, i, '/', '*') then Some(Token(i, CommentEnd(text, i + 2, 1), None))
    else if RawOpener(text, i).Some? && !WordBefore(alnum, text, i) then
      var (n, start) := RawOpener(text, i).value;
      var stop := Find(text, start, Terminator(n));
      Some(Token(i, if stop == |text| then |text| else stop + n + 1, Some((start, stop))))
    else if text[i] == '"' then
      var stop := StringStop(text, i + 1);
      Some(Token(i, if stop == |text| then |text| else stop + 1, Some((i + 1, stop))))
    else if text[i] == '\'' && CharStop(text, i) < |text| && text[CharStop(text, i)] == '\'' then
      Some(Token(i, CharStop(text, i) + 1, None))
    else None
  }

  lemma FindStarts(text: string, i: nat, word: string)
    requires i <= |text|
    ensures var k := Find(text, i, word); k < |text| ==> StartsAt(text, k, word)
    ensures forall j :: i <= j < Find(text, i, word) ==> !StartsAt(text, j, word)
    decreases |text| - i
  {
    if i < |text| && !StartsAt(text, i, word) {
      FindStarts(text, i + 1, word);
    }
  }

  lemma TokenBounds(alnum: Alnum, text: string, i: nat)
    requires i < |text| && TokenAt(alnum, text, i).Some?
    ensures var t := TokenAt(alnum, text, i).value;
            && t.start == i < t.end <= |text|
            && (t.content.Some? ==> i < t.content.value.0 <= t.content.value.1 <= t.end)
  {
    if RawOpener(text, i).Some? {
      var (n, start) := RawOpener(text, i).value;
      FindStarts(text, start, Terminator(n));
    }
  }

  /** All tokens from `i` on. */
  function Tokens(alnum: Alnum, text: string, i: nat): seq<Token>
    requires i <= |text|
    decreases |text| - i
  {
    if i == |text| then []
    else if TokenAt(alnum, text, i).Some? then
      TokenBounds(alnum, text, i);
      [TokenAt(alnum, text, i).value] + Tokens(alnum, text, TokenAt(alnum, text, i).value.end)
    else Tokens(alnum, text, i + 1)
  }

  // -------------------------------------------------------------- masking in place

  function Blank(s: string, start: nat, end: nat): (out: string)
    ensures |out| == |s|
  {
    seq(|s|, i requires 0 <= i < |s| => if start <= i < end && s[i] != '\n' then ' ' else s[i])
  }

  method MaskNonNewlines(characters: array<char>, start: nat, end: nat)
    requires start <= end <= characters.Length
    modifies characters
    ensures characters[..] == Blank(old(characters[..]), start, end)
  {
    for index := start to end
      invariant characters[..] == Blank(old(characters[..]), start, index)
    {
      if characters[index] != '\n' {
        characters[index] := ' ';
      }
    }
  }

  /** The text with every token blanked. */
  function Masked(text: string, tokens: seq<Token>): (out: string)
    ensures |out| == |text|
  {
    if tokens == [] then text
    else Blank(Masked(text, tokens[..|tokens| - 1]), tokens[|tokens| - 1].start, tokens[|tokens| - 1].end)
  }

  datatype Literal = Literal(offset: nat, content: string)

  function LiteralOf(text: string, t: Token): seq<Literal> {
    if t.content.Some? && t.content.value.0 <= t.content.value.1 <= |text| then
      [Literal(t.content.value.0, text[t.content.value.0..t.content.value.1])]
    else []
  }

  function Literals(text: string, tokens: seq<Token>): seq<Literal> {
    if tokens == [] then []
    else Literals(text, tokens[..|tokens| - 1]) + LiteralOf(text, tokens[|tokens| - 1])
  }

  // ---------------------------------------------------------------------- the scan

  method SkipComment(text: string, index: nat) returns (end: nat)
    requires index + 2 <= |text|
    ensures end == CommentEnd(text, index + 2, 1)
  {
    var depth := 1;
    end := index + 2;
    while end < |text| && depth > 0
      invariant end <= |text| && CommentEnd(text, index + 2, 1) == CommentEnd(text, end, depth)
      decreases |text| - end
    {
      if Two(text, end, '/', '*') {
        depth, end := depth + 1, end + 2;
      } else if Two(text, end, '*', '/') {
        depth, end := depth - 1, end + 2;
      } else {
        end := end + 1;
      }
    }
  }

  method SkipString(text: string, start: nat) returns (end: nat)
    requires start <= |text|
    ensures Min(end, |text|) == StringStop(text, start)
  {
    end := start;
    while end < |text|
      invariant start <= end
      invariant StringStop(text, start) == StringStop(text, Min(end, |text|))
      decreases |text| - end
    {
      if text[end] == '\\' {
        end := end + 2;
        continue;
      }
      if text[end] == '"' {
        break;
      }
      end := end + 1;
    }
  }

  method SkipChar(text: string, index: nat) returns (end: nat)
    requires index < |text|
    ensures end == CharStop(text, index)
  {
    end := index + 1;
    if end < |text| && text[end] == '\\' {
      end := end + 1;
      while end < Min(|text|, index + 16) && text[end] != '\''
        invariant index + 2 <= end
        invariant end <= Min(|text|, index + 16) ==>
            CharStop(text, index) == QuoteBefore(text, end, Min(|text|, index + 16))
        invariant end > Min(|text|, index + 16) ==> end == index + 2
      {
        end := end + 1;
      }
    } else {
      end := end + 1;
    }
  }

  method NextToken(alnum: Alnum, text: string, index: nat) returns (token: Option<Token>)
    requires index < |text|
    ensures token == TokenAt(alnum, text, index)
  {
    if Two(text, index, '/', '/') {
      return Some(Token(index, Find(text, index + 2, "\n"), None));
    }
    if Two(text, index, '/', '*') {
      var end := SkipComment(text, index);
      return Some(Token(index, end, None));
    }
    var raw := RawOpener(text, index);
    if raw.Some? && !WordBefore(alnum, text, index) {
      var (n, start) := raw.value;
      var stop := Find(text, start, Terminator(n));
      var end := if stop == |text| then |text| else stop + |Terminator(n)|;
      return Some(Token(index, end, Some((start, stop))));
    }
    if text[index] == '"' {
      var end := SkipString(text, index + 1);
      var stop := Min(end, |text|);
      return Some(Token(index, if end >= |text| then |text| else end + 1, Some((index + 1, stop))));
    }
    if text[index] == '\'' {
      var end := SkipChar(text, index);
      if end < |text| && text[end] == '\'' {
        return Some(Token(index, end + 1, None));
      }
    }
    return None;
  }

  /** Records and blanks one token. */
  method MaskToken(text: string, characters: array<char>, literals: seq<Literal>, token: Token, ghost done: seq<Token>)
    returns (more: seq<Literal>)
    requires token.start <= token.end <= |text| == characters.Length
    requires characters[..] == Masked(text, done) && literals == Literals(text, done)
    modifies characters
    ensures characters[..] == Masked(text, done + [token]) && more == Literals(text, done + [token])
  {
    assert (done + [token])[..|done|] == done;
    more := literals + LiteralOf(text, token);
    MaskNonNewlines(characters, token.start, token.end);
  }

  /** The tokens before `index` are `done`. */
  ghost predicate Progress(alnum: Alnum, text: string, done: seq<Token>, index: nat) {
    index <= |text| && Tokens(alnum, text, 0) == done + Tokens(alnum, text, index)
  }

  lemma ProgressStep(alnum: Alnum, text: string, done: seq<Token>, index: nat)
    requires index < |text| && Progress(alnum, text, done, index)
    ensures var token := TokenAt(alnum, text, index);
            match token
            case None => Progress(alnum, text, done, index + 1)
            case Some(t) => t.start == index < t.end <= |text| && Progress(alnum, text, done + [t], t.end)
  {
    var token := TokenAt(alnum, text, index);
    if token.Some? {
      TokenBounds(alnum, text, index);
      var rest := Tokens(alnum, text, token.value.end);
      assert done + ([token.value] + rest) == (done + [token.value]) + rest;
    }
  }

  lemma ProgressEnd(alnum: Alnum, text: string, done: seq<Token>)
    requires Progress(alnum, text, done, |text|)
    ensures Tokens(alnum, text, 0) == done
  {
    assert done + [] == done;
  }

  /** The masked code and the string literals, exactly those of the lexer. */
  method CodeAndLiterals(alnum: Alnum, text: string) returns (code: string, literals: seq<Literal>)
    ensures code == Masked(text, Tokens(alnum, text, 0))
    ensures literals == Literals(text, Tokens(alnum, text, 0))
  {
    var characters := new char[|text|](i requires 0 <= i < |text| => text[i]);
    literals := [];
    var index := 0;
    ghost var done: seq<Token> := [];
    assert [] + Tokens(alnum, text, 0) == Tokens(alnum, text, 0);
    assert characters[..] == text;
    while index < |text|
      invariant Progress(alnum, text, done, index)
      invariant characters[..] == Masked(text, done) && literals == Literals(text, done)
      decreases |text| - index
    {
      var token := NextToken(alnum, text, index);
      ProgressStep(alnum, text, done, index);
      if token.Some? {
        literals := MaskToken(text, characters, literals, token.value, done);
        done := done + [token.value];
        index := token.value.end;
      } else {
        index := index + 1;
      }
    }
    ProgressEnd(alnum, text, done);
    code := characters[..];
  }
}
