// The Rust lexer against a grammar: a comment or literal written by the grammar is
// one token, whatever stands around it.

module RustMaskForms {
  import opened Wrappers
  import opened RustMask

  // ------------------------------------------------------------- nested comments

  /** What follows the opener of a block comment, up to and with its closer. */
  datatype Body = Close | Char(c: char, rest: Body) | Nest(inner: Body, rest: Body)

  function Print(b: Body): (s: string)
    ensures |s| >= 2
  {
    match b
    case Close => "*/"
    case Char(c, rest) => [c] + Print(rest)
    case Nest(inner, rest) => "/*" + Print(inner) + Print(rest)
  }

  /** A character that stands for itself begins neither an opener nor a closer. */
  predicate WellFormed(b: Body) {
    match b
    case Close => true
    case Char(c, rest) => Print(b)[..2] != "/*" && Print(b)[..2] != "*/" && WellFormed(rest)
    case Nest(inner, rest) => WellFormed(inner) && WellFormed(rest)
  }

  lemma StartsSplit(text: string, i: nat, a: string, b: string)
    requires StartsAt(text, i, a + b)
    ensures StartsAt(text, i, a) && StartsAt(text, i + |a|, b)
  {
    assert text[i..i + |a + b|][..|a|] == a && text[i..i + |a + b|][|a|..] == b;
  }

  lemma StartsTwo(text: string, i: nat, s: string, a: char, b: char)
    requires StartsAt(text, i, s) && |s| >= 2
    ensures Two(text, i, a, b) <==> s[..2] == [a, b]
  {
    assert text[i] == text[i..i + |s|][0] && text[i + 1] == text[i..i + |s|][1];
  }

  lemma ReadChar(text: string, i: nat, b: Body)
    requires b.Char? && WellFormed(b) && StartsAt(text, i, Print(b))
    ensures i < |text| && !Two(text, i, '/', '*') && !Two(text, i, '*', '/') && StartsAt(text, i + 1, Print(b.rest))
  {
    StartsTwo(text, i, Print(b), '/', '*');
    StartsTwo(text, i, Print(b), '*', '/');
    StartsSplit(text, i, [b.c], Print(b.rest));
  }

  /** Where a comment body at `i` has its openers and closers. */
  predicate Laid(text: string, i: nat, b: Body)
    decreases b
  {
    match b
    case Close => Two(text, i, '*', '/')
    case Char(_, rest) => i < |text| && !Two(text, i, '/', '*') && !Two(text, i, '*', '/') && Laid(text, i + 1, rest)
    case Nest(inner, rest) => Two(text, i, '/', '*') && Laid(text, i + 2, inner) && Laid(text, i + 2 + Size(inner), rest)
  }

  function Size(b: Body): nat {
    match b
    case Close => 2
    case Char(_, rest) => 1 + Size(rest)
    case Nest(inner, rest) => 2 + Size(inner) + Size(rest)
  }

  lemma {:induction false} PrintSize(b: Body)
    ensures |Print(b)| == Size(b)
  {
    match b {
      case Close =>
      case Char(_, rest) =>
        PrintSize(rest);
      case Nest(inner, rest) =>
        PrintSize(inner);
        PrintSize(rest);
    }
  }

  lemma ReadNest(text: string, i: nat, b: Body)
    requires b.Nest? && StartsAt(text, i, Print(b))
    ensures Two(text, i, '/', '*')
    ensures StartsAt(text, i + 2, Print(b.inner)) && StartsAt(text, i + 2 + Size(b.inner), Print(b.rest))
  {
    PrintSize(b.inner);
    StartsTwo(text, i, Print(b), '/', '*');
    StartsSplit(text, i, "/*" + Print(b.inner), Print(b.rest));
    StartsSplit(text, i, "/*", Print(b.inner));
  }

  lemma ReadClose(text: string, i: nat)
    requires StartsAt(text, i, Print(Close))
    ensures Laid(text, i, Close)
  {
    StartsTwo(text, i, Print(Close), '*', '/');
  }

  lemma LaidChar(text: string, i: nat, b: Body)
    requires b.Char? && WellFormed(b) && StartsAt(text, i, Print(b)) && Laid(text, i + 1, b.rest)
    ensures Laid(text, i, b)
  {
    ReadChar(text, i, b);
  }

  lemma LaidNest(text: string, i: nat, b: Body)
    requires b.Nest? && StartsAt(text, i, Print(b))
    requires Laid(text, i + 2, b.inner) && Laid(text, i + 2 + Size(b.inner), b.rest)
    ensures Laid(text, i, b)
  {
    ReadNest(text, i, b);
  }

  lemma {:induction false} PrintedIsLaid(text: string, i: nat, b: Body)
    requires WellFormed(b) && StartsAt(text, i, Print(b))
    ensures Laid(text, i, b)
    decreases b
  {
    match b {
      case Close =>
        ReadClose(text, i);
      case Char(_, rest) =>
        ReadChar(text, i, b);
        PrintedIsLaid(text, i + 1, rest);
        LaidChar(text, i, b);
      case Nest(inner, rest) =>
        ReadNest(text, i, b);
        PrintedIsLaid(text, i + 2, inner);
        PrintedIsLaid(text, i + 2 + Size(inner), rest);
        LaidNest(text, i, b);
    }
  }

  /** A comment body closes exactly one level, however deeply comments nest in it. */
  lemma {:induction false} BodyCloses(text: string, i: nat, b: Body, depth: nat)
    requires Laid(text, i, b) && depth > 0
    ensures i + Size(b) <= |text| && CommentEnd(text, i, depth) == CommentEnd(text, i + Size(b), depth - 1)
    decreases b
  {
    match b {
      case Close =>
      case Char(_, rest) =>
        BodyCloses(text, i + 1, rest, depth);
      case Nest(inner, rest) =>
        BodyCloses(text, i + 2, inner, depth + 1);
        BodyCloses(text, i + 2 + Size(inner), rest, depth);
    }
  }

  lemma LaidEnds(text: string, i: nat, b: Body)
    requires Laid(text, i, b)
    ensures CommentEnd(text, i, 1) == i + Size(b) <= |text|
  {
    BodyCloses(text, i, b, 1);
  }

  lemma NestedCommentEnds(text: string, i: nat, b: Body)
    requires WellFormed(b) && StartsAt(text, i, Print(b))
    ensures CommentEnd(text, i, 1) == i + |Print(b)|
  {
    PrintSize(b);
    PrintedIsLaid(text, i, b);
    LaidEnds(text, i, b);
  }

  lemma CommentToken(alnum: Alnum, text: string, i: nat, end: nat)
    requires Two(text, i, '/', '*') && end <= |text| && CommentEnd(text, i + 2, 1) == end
    ensures TokenAt(alnum, text, i) == Some(Token(i, end, None))
  {
  }

  lemma OpenerStands(text: string, i: nat, rest: string)
    requires StartsAt(text, i, "/*" + rest)
    ensures Two(text, i, '/', '*') && StartsAt(text, i + 2, rest) && i + 2 + |rest| <= |text|
  {
    StartsTwo(text, i, "/*" + rest, '/', '*');
    StartsSplit(text, i, "/*", rest);
  }

  lemma BlockToken(alnum: Alnum, text: string, i: nat, body: string)
    requires Two(text, i, '/', '*') && i + 2 + |body| <= |text| && CommentEnd(text, i + 2, 1) == i + 2 + |body|
    ensures TokenAt(alnum, text, i) == Some(Token(i, i + 2 + |body|, None))
  {
    CommentToken(alnum, text, i, i + 2 + |body|);
  }

  /** A block comment is one token, nested comments and all. */
  lemma NestedCommentIsOneToken(alnum: Alnum, text: string, i: nat, b: Body)
    requires WellFormed(b) && StartsAt(text, i, "/*" + Print(b))
    ensures TokenAt(alnum, text, i) == Some(Token(i, i + 2 + |Print(b)|, None))
  {
    OpenerStands(text, i, Print(b));
    NestedCommentEnds(text, i + 2, b);
    BlockToken(alnum, text, i, Print(b));
  }

  // --------------------------------------------------------------- line comments

  lemma {:induction false} FindsFirst(text: string, i: nat, k: nat, word: string)
    requires i <= k < |text| && StartsAt(text, k, word) && forall j :: i <= j < k ==> !StartsAt(text, j, word)
    ensures Find(text, i, word) == k
    decreases k - i
  {
    if i < k {
      FindsFirst(text, i + 1, k, word);
    }
  }

  lemma {:induction false} FindsNothing(text: string, i: nat, word: string)
    requires i <= |text| && forall j :: i <= j < |text| ==> !StartsAt(text, j, word)
    ensures Find(text, i, word) == |text|
    decreases |text| - i
  {
    if i < |text| {
      FindsNothing(text, i + 1, word);
    }
  }

  lemma LineEnds(text: string, i: nat, body: string)
    requires StartsAt(text, i, body) && '\n' !in body
    requires i + |body| < |text| ==> text[i + |body|] == '\n'
    ensures Find(text, i, "\n") == i + |body|
  {
    forall j | i <= j < i + |body|
      ensures !StartsAt(text, j, "\n")
    {
      assert text[j] == text[i..i + |body|][j - i] && text[i..i + |body|][j - i] in body;
      assert text[j..j + 1][0] == text[j];
    }
    if i + |body| < |text| {
      assert text[i + |body|..i + |body| + 1] == "\n";
      FindsFirst(text, i, i + |body|, "\n");
    } else {
      FindsNothing(text, i, "\n");
    }
  }

  /** A line comment is one token up to the end of its line, which it leaves in place. */
  lemma LineCommentIsOneToken(alnum: Alnum, text: string, i: nat, body: string)
    requires StartsAt(text, i, "//" + body) && '\n' !in body
    requires i + 2 + |body| < |text| ==> text[i + 2 + |body|] == '\n'
    ensures TokenAt(alnum, text, i) == Some(Token(i, i + 2 + |body|, None))
  {
    StartsTwo(text, i, "//" + body, '/', '/');
    StartsSplit(text, i, "//", body);
    LineEnds(text, i + 2, body);
  }

  // --------------------------------------------------------------------- strings

  /** String content with its quotes and backslashes escaped. */
  function Escape(s: string): string {
    if s == "" then ""
    else (if s[0] == '"' || s[0] == '\\' then ['\\', s[0]] else [s[0]]) + Escape(s[1..])
  }

  lemma {:induction false} EscapedStops(text: string, i: nat, s: string)
    requires StartsAt(text, i, Escape(s) + "\"")
    ensures StringStop(text, i) == i + |Escape(s)|
    decreases |s|
  {
    if s == "" {
      StartsSplit(text, i, "", "\"");
    } else {
      var first := if s[0] == '"' || s[0] == '\\' then ['\\', s[0]] else [s[0]];
      assert Escape(s) + "\"" == first + (Escape(s[1..]) + "\"");
      StartsSplit(text, i, first, Escape(s[1..]) + "\"");
      EscapedStops(text, i + |first|, s[1..]);
      assert text[i] == first[0];
    }
  }

  lemma QuoteToken(alnum: Alnum, text: string, i: nat, stop: nat)
    requires i < |text| && text[i] == '"' && StringStop(text, i + 1) == stop < |text|
    ensures TokenAt(alnum, text, i) == Some(Token(i, stop + 1, Some((i + 1, stop))))
  {
  }

  /** A string with escapes is one token whose content is what stands between the
      quotes. */
  lemma StringIsOneToken(alnum: Alnum, text: string, i: nat, s: string)
    requires StartsAt(text, i, "\"" + (Escape(s) + "\""))
    ensures TokenAt(alnum, text, i) == Some(Token(i, i + 2 + |Escape(s)|, Some((i + 1, i + 1 + |Escape(s)|))))
    ensures text[i + 1..i + 1 + |Escape(s)|] == Escape(s)
  {
    StartsSplit(text, i, "\"", Escape(s) + "\"");
    StartsSplit(text, i + 1, Escape(s), "\"");
    EscapedStops(text, i + 1, s);
    assert text[i..i + 1][0] == '"';
    QuoteToken(alnum, text, i, i + 1 + |Escape(s)|);
  }

  lemma {:induction false} EscapedRuns(text: string, i: nat, s: string)
    requires StartsAt(text, i, Escape(s)) && i + |Escape(s)| == |text|
    ensures StringStop(text, i) == |text|
    decreases |s|
  {
    if s != "" {
      var first := if s[0] == '"' || s[0] == '\\' then ['\\', s[0]] else [s[0]];
      StartsSplit(text, i, first, Escape(s[1..]));
      EscapedRuns(text, i + |first|, s[1..]);
      assert text[i] == text[i..i + |first|][0] == first[0];
    }
  }

  /** A string that does not end runs to the end of the text. */
  lemma OpenStringRuns(alnum: Alnum, text: string, i: nat, s: string)
    requires StartsAt(text, i, "\"" + Escape(s)) && i + 1 + |Escape(s)| == |text|
    ensures TokenAt(alnum, text, i) == Some(Token(i, |text|, Some((i + 1, |text|))))
  {
    StartsSplit(text, i, "\"", Escape(s));
    assert text[i..i + 1][0] == '"';
    EscapedRuns(text, i + 1, s);
  }

  lemma {:induction false} OpenBodyRuns(text: string, i: nat, depth: nat)
    requires i <= |text| && depth > 0
    requires forall k :: i <= k < |text| ==> !Two(text, k, '/', '*') && !Two(text, k, '*', '/')
    ensures CommentEnd(text, i, depth) == |text|
    decreases |text| - i
  {
    if i < |text| {
      OpenBodyRuns(text, i + 1, depth);
    }
  }

  /** A block comment that does not end runs to the end of the text. */
  lemma OpenBlockRuns(alnum: Alnum, text: string, i: nat)
    requires i + 2 <= |text| && text[i] == '/' && text[i + 1] == '*'
    requires forall k :: i + 2 <= k < |text| - 1 ==>
               !(text[k] == '/' && text[k + 1] == '*') && !(text[k] == '*' && text[k + 1] == '/')
    ensures TokenAt(alnum, text, i) == Some(Token(i, |text|, None))
  {
    OpenBodyRuns(text, i + 2, 1);
  }

  // ----------------------------------------------------------------- raw strings

  function Fence(n: nat): string {
    seq(n, _ => '#')
  }

  lemma {:induction false} FenceIsCounted(text: string, i: nat, n: nat)
    requires StartsAt(text, i, Fence(n) + "\"")
    ensures Hashes(text, i) == n
    decreases n
  {
    if n == 0 {
      StartsSplit(text, i, "", "\"");
    } else {
      assert Fence(n) + "\"" == ['#'] + (Fence(n - 1) + "\"");
      StartsSplit(text, i, ['#'], Fence(n - 1) + "\"");
      FenceIsCounted(text, i + 1, n - 1);
    }
  }

  /** Content in which the closing fence does not stand. */
  predicate Unfenced(s: string, n: nat) {
    forall k :: 0 <= k < |s| ==> !StartsAt(s + Terminator(n), k, Terminator(n))
  }

  /** A word stands in the text where it stands in a part of it. */
  lemma StartsInside(text: string, start: nat, whole: string, k: nat, word: string)
    requires StartsAt(text, start, whole) && k + |word| <= |whole|
    ensures StartsAt(text, start + k, word) <==> StartsAt(whole, k, word)
  {
    var part, there := whole[k..k + |word|], text[start + k..start + k + |word|];
    forall j | 0 <= j < |word|
      ensures there[j] == part[j]
    {
      assert there[j] == text[start..start + |whole|][k + j] && part[j] == whole[k + j];
    }
    assert there == part;
  }

  lemma RawStops(text: string, start: nat, s: string, n: nat)
    requires Unfenced(s, n) && StartsAt(text, start, s + Terminator(n))
    ensures Find(text, start, Terminator(n)) == start + |s|
  {
    var whole := s + Terminator(n);
    StartsSplit(text, start, s, Terminator(n));
    forall j | start <= j < start + |s|
      ensures !StartsAt(text, j, Terminator(n))
    {
      assert !StartsAt(whole, j - start, Terminator(n));
      StartsInside(text, start, whole, j - start, Terminator(n));
    }
    FindsFirst(text, start, start + |s|, Terminator(n));
  }

  lemma RawToken(alnum: Alnum, text: string, i: nat, n: nat, start: nat, stop: nat)
    requires i < |text| && RawOpener(text, i) == Some((n, start)) && !WordBefore(alnum, text, i)
    requires text[i] == 'r' || text[i] == 'b'
    requires Find(text, start, Terminator(n)) == stop < |text|
    ensures TokenAt(alnum, text, i) == Some(Token(i, stop + n + 1, Some((start, stop))))
  {
  }

  /** What can stand before the hashes: the prefix of a raw string or of raw bytes. */
  predicate IsRawPrefix(prefix: string) {
    prefix == "r" || prefix == "br"
  }

  lemma OpenerIsRead(text: string, i: nat, prefix: string, n: nat)
    requires IsRawPrefix(prefix) && n <= 255 && StartsAt(text, i, prefix + (Fence(n) + "\""))
    ensures i < |text| && (text[i] == 'r' || text[i] == 'b')
    ensures RawOpener(text, i) == Some((n, i + |prefix| + n + 1))
  {
    StartsSplit(text, i, prefix, Fence(n) + "\"");
    FenceIsCounted(text, i + |prefix|, n);
    StartsSplit(text, i + |prefix|, Fence(n), "\"");
    assert text[i] == text[i..i + |prefix|][0];
    if prefix == "br" {
      StartsTwo(text, i, prefix, 'b', 'r');
    }
  }

  lemma RawEnds(alnum: Alnum, text: string, i: nat, start: nat, s: string, n: nat)
    requires i < |text| && (text[i] == 'r' || text[i] == 'b') && !WordBefore(alnum, text, i)
    requires RawOpener(text, i) == Some((n, start)) && Unfenced(s, n) && StartsAt(text, start, s + Terminator(n))
    ensures TokenAt(alnum, text, i) == Some(Token(i, start + |s| + n + 1, Some((start, start + |s|))))
  {
    RawStops(text, start, s, n);
    RawToken(alnum, text, i, n, start, start + |s|);
  }

  /** A raw string with up to 255 hashes is one token, quotes and all, unless its prefix
      continues an identifier. */
  lemma RawStringIsOneToken(alnum: Alnum, text: string, i: nat, prefix: string, s: string, n: nat)
    requires IsRawPrefix(prefix) && n <= 255 && Unfenced(s, n)
    requires StartsAt(text, i, prefix + (Fence(n) + "\"") + (s + Terminator(n)))
    requires !WordBefore(alnum, text, i)
    ensures var start := i + |prefix| + n + 1;
            TokenAt(alnum, text, i) == Some(Token(i, start + |s| + n + 1, Some((start, start + |s|))))
  {
    StartsSplit(text, i, prefix + (Fence(n) + "\""), s + Terminator(n));
    OpenerIsRead(text, i, prefix, n);
    RawEnds(alnum, text, i, i + |prefix| + n + 1, s, n);
  }

  /** A raw string that does not end runs to the end of the text. */
  lemma OpenRawRuns(alnum: Alnum, text: string, i: nat, prefix: string, n: nat)
    requires IsRawPrefix(prefix) && n <= 255 && StartsAt(text, i, prefix + (Fence(n) + "\"")) && !WordBefore(alnum, text, i)
    requires forall j :: i + |prefix| + n + 1 <= j < |text| ==> !StartsAt(text, j, "\"" + Fence(n))
    ensures TokenAt(alnum, text, i) == Some(Token(i, |text|, Some((i + |prefix| + n + 1, |text|))))
  {
    OpenerIsRead(text, i, prefix, n);
    assert Terminator(n) == "\"" + Fence(n);
    FindsNothing(text, i + |prefix| + n + 1, Terminator(n));
  }

  // ---------------------------------------------------- characters and lifetimes

  /** A quote begins a token exactly when its closing quote is found. */
  lemma QuoteAt(alnum: Alnum, text: string, i: nat)
    requires i < |text| && text[i] == '\''
    ensures var stop := CharStop(text, i);
            TokenAt(alnum, text, i) ==
            if stop < |text| && text[stop] == '\'' then Some(Token(i, stop + 1, None)) else None
  {
  }

  /** A character that is not escaped is one token; any other quote that no backslash
      follows is a lifetime and is retained. */
  lemma PlainQuote(alnum: Alnum, text: string, i: nat)
    requires i < |text| && text[i] == '\'' && (i + 1 < |text| ==> text[i + 1] != '\\')
    ensures TokenAt(alnum, text, i) ==
            if i + 2 < |text| && text[i + 2] == '\'' then Some(Token(i, i + 3, None)) else None
  {
    QuoteAt(alnum, text, i);
  }

  lemma {:induction false} FirstQuote(text: string, i: nat, k: nat, limit: nat)
    requires i <= k <= limit <= |text| && forall j :: i <= j < k ==> text[j] != '\''
    ensures QuoteBefore(text, i, limit) == QuoteBefore(text, k, limit)
    decreases k - i
  {
    if i < k {
      FirstQuote(text, i + 1, k, limit);
    }
  }

  lemma {:induction false} NoLaterQuote(text: string, i: nat, k: nat, limit: nat)
    requires i <= k < limit <= |text| && text[k] == '\''
    ensures QuoteBefore(text, i, limit) <= k && text[QuoteBefore(text, i, limit)] == '\''
    decreases k - i
  {
    if i < k && text[i] != '\'' {
      NoLaterQuote(text, i + 1, k, limit);
    }
  }

  lemma EscapeStands(text: string, i: nat, e: string)
    requires StartsAt(text, i, "'\\" + (e + "'"))
    ensures i + 2 + |e| < |text| && text[i] == '\'' && text[i + 1] == '\\' && text[i + 2 + |e|] == '\''
    ensures text[i + 2..i + 2 + |e|] == e
  {
    StartsSplit(text, i, "'\\", e + "'");
    StartsSplit(text, i + 2, e, "'");
    StartsTwo(text, i, "'\\" + (e + "'"), '\'', '\\');
  }

  /** An escaped character is one token if and only if what follows the backslash holds no
      quote and at most 14 characters. So the escaped quote is cut short, and its closing
      quote is scanned as the beginning of another character. */
  lemma EscapedCharacter(alnum: Alnum, text: string, i: nat, e: string)
    requires StartsAt(text, i, "'\\" + (e + "'"))
    ensures TokenAt(alnum, text, i) == Some(Token(i, i + 3 + |e|, None)) <==> '\'' !in e && |e| <= 14
    ensures e == "'" ==> TokenAt(alnum, text, i) == Some(Token(i, i + 3, None))
  {
    EscapeStands(text, i, e);
    QuoteAt(alnum, text, i);
    var limit, close := Min(|text|, i + 16), i + 2 + |e|;
    if '\'' in e {
      var k :| 0 <= k < |e| && e[k] == '\'';
      assert text[i + 2 + k] == text[i + 2..close][k];
      QuoteCutsShort(text, i, i + 2 + k, close);
    } else {
      assert forall j :: i + 2 <= j < close ==> text[j] == text[i + 2..close][j - i - 2];
      FirstQuote(text, i + 2, Min(close, limit), limit);
    }
  }

  lemma QuoteCutsShort(text: string, i: nat, k: nat, close: nat)
    requires i + 1 < |text| && text[i + 1] == '\\' && i + 2 <= k < close < |text| && text[k] == '\''
    ensures CharStop(text, i) < close
  {
    var limit := Min(|text|, i + 16);
    if k < limit {
      NoLaterQuote(text, i + 2, k, limit);
    }
  }
}
