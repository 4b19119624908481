// What the Rust scan guarantees, and the blanking of inline test modules built on it.

module RustMaskLaws {
  import opened Wrappers
  import opened RustMask
  import RustMaskForms

  predicate Inside(t: Token, i: nat) {
    t.start <= i < t.end
  }

  predicate Covered(tokens: seq<Token>, i: nat) {
    exists k :: 0 <= k < |tokens| && Inside(tokens[k], i)
  }

  /** Tokens follow one another without overlap, from `low` to `high`. */
  ghost predicate Ordered(tokens: seq<Token>, low: nat, high: nat) {
    && (forall k :: 0 <= k < |tokens| ==> low <= tokens[k].start < tokens[k].end <= high)
    && (forall j, k :: 0 <= j < k < |tokens| ==> tokens[j].end <= tokens[k].start)
  }

  predicate ContentInside(t: Token) {
    t.content.Some? ==> t.start < t.content.value.0 <= t.content.value.1 <= t.end
  }

  lemma {:induction false} TokensOrdered(alnum: Alnum, text: string, i: nat)
    requires i <= |text|
    ensures Ordered(Tokens(alnum, text, i), i, |text|)
    ensures forall k :: 0 <= k < |Tokens(alnum, text, i)| ==> ContentInside(Tokens(alnum, text, i)[k])
    decreases |text| - i
  {
    if i < |text| {
      var token := TokenAt(alnum, text, i);
      if token.Some? {
        TokenBounds(alnum, text, i);
        TokensOrdered(alnum, text, token.value.end);
      } else {
        TokensOrdered(alnum, text, i + 1);
      }
    }
  }

  /** Offsets and line ends are kept, what is outside tokens is unchanged, and what is
      inside is blank. */
  lemma {:induction false} MaskedAt(text: string, tokens: seq<Token>, i: nat)
    requires i < |text|
    ensures Masked(text, tokens)[i] == if Covered(tokens, i) && text[i] != '\n' then ' ' else text[i]
  {
    if tokens != [] {
      var n := |tokens| - 1;
      MaskedAt(text, tokens[..n], i);
      assert Covered(tokens, i) <==> Covered(tokens[..n], i) || Inside(tokens[n], i) by {
        if k :| 0 <= k < n && Inside(tokens[k], i) {
          assert tokens[..n][k] == tokens[k];
        }
      }
    }
  }

  // ------------------------------------------------------------------- literals

  ghost predicate Exact(text: string, l: Literal) {
    l.offset + |l.content| <= |text| && l.content == text[l.offset..l.offset + |l.content|]
  }

  /** Literals with increasing offsets between two places. */
  ghost predicate LiteralsBetween(text: string, found: seq<Literal>, low: nat, high: nat) {
    && (forall k :: 0 <= k < |found| ==> Exact(text, found[k]) && low <= found[k].offset <= high)
    && (forall j, k :: 0 <= j < k < |found| ==> found[j].offset < found[k].offset)
  }

  lemma JoinLiterals(text: string, a: seq<Literal>, b: seq<Literal>, low: nat, middle: nat, high: nat)
    requires LiteralsBetween(text, a, low, middle) && LiteralsBetween(text, b, middle + 1, high) && low <= middle < high
    ensures LiteralsBetween(text, a + b, low, high)
  {
    forall k | 0 <= k < |a + b|
      ensures (a + b)[k] == if k < |a| then a[k] else b[k - |a|]
    {
    }
  }

  /** Every recorded literal is the source slice at its offset, and offsets increase. */
  lemma {:induction false} LiteralsExact(text: string, tokens: seq<Token>, high: nat)
    requires Ordered(tokens, 0, high) && high <= |text| && forall k :: 0 <= k < |tokens| ==> ContentInside(tokens[k])
    ensures LiteralsBetween(text, Literals(text, tokens), 0, high)
  {
    if tokens != [] {
      var n := |tokens| - 1;
      assert ContentInside(tokens[n]);
      LiteralsExact(text, tokens[..n], tokens[n].start);
      JoinLiterals(text, Literals(text, tokens[..n]), LiteralOf(text, tokens[n]), 0, tokens[n].start, high);
    }
  }

  /** All recorded literals of a scan. */
  lemma RecordedLiterals(alnum: Alnum, text: string)
    ensures LiteralsBetween(text, Literals(text, Tokens(alnum, text, 0)), 0, |text|)
  {
    TokensOrdered(alnum, text, 0);
    LiteralsExact(text, Tokens(alnum, text, 0), |text|);
  }

  /** The literals of a text are those of its string tokens: one for each. */
  lemma {:induction false} LiteralForEachToken(text: string, tokens: seq<Token>, k: nat)
    requires k < |tokens| && tokens[k].content.Some? && ContentInside(tokens[k]) && tokens[k].end <= |text|
    ensures Literal(tokens[k].content.value.0, text[tokens[k].content.value.0..tokens[k].content.value.1]) in Literals(text, tokens)
  {
    if k < |tokens| - 1 {
      LiteralForEachToken(text, tokens[..|tokens| - 1], k);
    }
  }

  // ------------------------------------------------------- nothing lexical is left

  lemma {:induction false} UncoveredHasNoToken(alnum: Alnum, text: string, i: nat, k: nat)
    requires i <= k < |text| && !Covered(Tokens(alnum, text, i), k)
    ensures TokenAt(alnum, text, k).None?
    decreases |text| - i
  {
    var token := TokenAt(alnum, text, i);
    if token.Some? {
      TokenBounds(alnum, text, i);
      var rest := Tokens(alnum, text, token.value.end);
      var all := Tokens(alnum, text, i);
      assert all == [token.value] + rest && !Inside(all[0], k);
      assert forall j :: 0 <= j < |rest| ==> all[j + 1] == rest[j];
      UncoveredHasNoToken(alnum, text, token.value.end, k);
    } else if i < k {
      UncoveredHasNoToken(alnum, text, i + 1, k);
    }
  }

  /** A place that opens a string or a comment. */
  predicate Opens(text: string, k: nat)
    requires k < |text|
  {
    text[k] == '"' || Two(text, k, '/', '/') || Two(text, k, '/', '*')
  }

  lemma NoTokenOpensNothing(alnum: Alnum, text: string, k: nat)
    requires k < |text| && TokenAt(alnum, text, k).None?
    ensures !Opens(text, k)
  {
  }

  lemma OpensThere(text: string, code: string, k: nat)
    requires k < |text| == |code| && code[k] == text[k] && Opens(code, k)
    requires k + 1 < |text| && code[k + 1] != text[k + 1] ==> code[k + 1] == ' ' || code[k + 1] == '\n'
    ensures Opens(text, k)
  {
  }

  lemma NothingLeftIn(text: string, tokens: seq<Token>, k: nat)
    requires k < |text| && forall j :: 0 <= j < |text| && Opens(text, j) ==> Covered(tokens, j)
    ensures !Opens(Masked(text, tokens), k)
  {
    MaskedAt(text, tokens, k);
    if k + 1 < |text| {
      MaskedAt(text, tokens, k + 1);
    }
    if Opens(Masked(text, tokens), k) {
      OpensThere(text, Masked(text, tokens), k);
    }
  }

  lemma NothingOpens(alnum: Alnum, text: string, k: nat)
    requires k < |text|
    ensures !Opens(Masked(text, Tokens(alnum, text, 0)), k)
  {
    var tokens := Tokens(alnum, text, 0);
    forall j | 0 <= j < |text| && !Covered(tokens, j)
      ensures !Opens(text, j)
    {
      UncoveredHasNoToken(alnum, text, 0, j);
      NoTokenOpensNothing(alnum, text, j);
    }
    NothingLeftIn(text, tokens, k);
  }

  /** Every token of the scan is the one that starts where it starts. */
  lemma {:induction false} TokenIsAt(alnum: Alnum, text: string, i: nat, t: nat)
    requires i <= |text| && t < |Tokens(alnum, text, i)|
    ensures var token := Tokens(alnum, text, i)[t];
            token.start < |text| && TokenAt(alnum, text, token.start) == Some(token)
    decreases |text| - i
  {
    var first := TokenAt(alnum, text, i);
    if first.None? {
      TokenIsAt(alnum, text, i + 1, t);
    } else {
      TokenBounds(alnum, text, i);
      if t > 0 {
        TokenIsAt(alnum, text, first.value.end, t - 1);
      }
    }
  }

  lemma StartsElsewhere(alnum: Alnum, text: string, token: Token)
    requires token.start < |text| && TokenAt(alnum, text, token.start) == Some(token)
    ensures text[token.start] != '\\'
  {
  }

  /** A backslash behind a place that is kept is kept. */
  lemma BackslashKept(alnum: Alnum, text: string, k: nat)
    requires k + 1 < |text| && !Covered(Tokens(alnum, text, 0), k) && text[k + 1] == '\\'
    ensures !Covered(Tokens(alnum, text, 0), k + 1)
  {
    var tokens := Tokens(alnum, text, 0);
    forall t | 0 <= t < |tokens|
      ensures !Inside(tokens[t], k + 1)
    {
      assert !Inside(tokens[t], k);
      TokenIsAt(alnum, text, 0, t);
      StartsElsewhere(alnum, text, tokens[t]);
    }
  }

  lemma {:induction false} StopsAtQuote(text: string, i: nat, limit: nat)
    requires i <= limit <= |text|
    ensures QuoteBefore(text, i, limit) < limit ==> text[QuoteBefore(text, i, limit)] == '\''
    decreases limit - i
  {
    if i < limit && text[i] != '\'' {
      StopsAtQuote(text, i + 1, limit);
    }
  }

  /** A character that ends in the masked code ends in the text. */
  lemma EndsThere(text: string, code: string, k: nat)
    requires k < |text| == |code| && CharStop(code, k) < |code| && code[CharStop(code, k)] == '\''
    requires forall j :: 0 <= j < |text| && code[j] == '\'' ==> text[j] == '\''
    requires k + 1 < |text| ==> (code[k + 1] == '\\' <==> text[k + 1] == '\\')
    ensures CharStop(text, k) < |text| && text[CharStop(text, k)] == '\''
  {
    if k + 2 < |text| && text[k + 1] == '\\' {
      var stop, limit := CharStop(code, k), Min(|text|, k + 16);
      StopsAtQuote(text, k + 2, limit);
      if stop < limit {
        RustMaskForms.NoLaterQuote(text, k + 2, stop, limit);
      }
    }
  }

  lemma RawOpens(code: string, k: nat)
    requires RawOpener(code, k).Some?
    ensures exists q :: 0 <= q < |code| && Opens(code, q)
  {
    var q := RawOpener(code, k).value.1 - 1;
    assert Opens(code, q);
  }

  /** Where the text has no token, code that opens nothing has none either. */
  lemma NoTokenThere(alnum: Alnum, text: string, code: string, k: nat)
    requires k < |text| == |code| && code[k] == text[k] && TokenAt(alnum, text, k).None?
    requires forall j :: 0 <= j < |code| ==> !Opens(code, j)
    requires forall j :: 0 <= j < |text| && code[j] == '\'' ==> text[j] == '\''
    requires k + 1 < |text| ==> (code[k + 1] == '\\' <==> text[k + 1] == '\\')
    ensures TokenAt(alnum, code, k).None?
  {
    assert !Opens(code, k);
    if RawOpener(code, k).Some? {
      RawOpens(code, k);
    } else if code[k] == '\'' {
      RustMaskForms.QuoteAt(alnum, text, k);
      RustMaskForms.QuoteAt(alnum, code, k);
      if TokenAt(alnum, code, k).Some? {
        EndsThere(text, code, k);
      }
    }
  }

  /** The masked code holds no comment or literal at all, character literals included:
      no token starts anywhere in it. */
  lemma NothingLeft(alnum: Alnum, text: string, k: nat)
    requires k < |text|
    ensures TokenAt(alnum, Masked(text, Tokens(alnum, text, 0)), k).None?
  {
    var tokens := Tokens(alnum, text, 0);
    var code := Masked(text, tokens);
    forall j | 0 <= j < |text|
      ensures code[j] == if Covered(tokens, j) && text[j] != '\n' then ' ' else text[j]
      ensures !Opens(code, j)
    {
      MaskedAt(text, tokens, j);
      NothingOpens(alnum, text, j);
    }
    if !Covered(tokens, k) {
      UncoveredHasNoToken(alnum, text, 0, k);
      if k + 1 < |text| && text[k + 1] == '\\' {
        BackslashKept(alnum, text, k);
      }
      NoTokenThere(alnum, text, code, k);
    }
  }

  lemma {:induction false} NoTokens(alnum: Alnum, code: string, i: nat)
    requires i <= |code| && forall k :: 0 <= k < |code| ==> TokenAt(alnum, code, k).None?
    ensures Tokens(alnum, code, i) == []
    decreases |code| - i
  {
    if i < |code| {
      NoTokens(alnum, code, i + 1);
    }
  }

  /** Masking masked code changes nothing and finds no literal. */
  lemma MaskingTwice(alnum: Alnum, text: string)
    ensures var code := Masked(text, Tokens(alnum, text, 0));
            && Masked(code, Tokens(alnum, code, 0)) == code
            && Literals(code, Tokens(alnum, code, 0)) == []
  {
    var code := Masked(text, Tokens(alnum, text, 0));
    forall k | 0 <= k < |code|
      ensures TokenAt(alnum, code, k).None?
    {
      NothingLeft(alnum, text, k);
    }
    NoTokens(alnum, code, 0);
  }

  // ------------------------------------------------------------ inline test modules

  /** The next test module header at or after an offset: where it starts and ends. */
  type Finder = (string, nat) -> Option<(nat, nat)>

  ghost predicate FinderOk(find: Finder, code: string) {
    forall i: nat :: i <= |code| && find(code, i).Some? ==> i <= find(code, i).value.0 < find(code, i).value.1 <= |code|
  }

  function BraceEnd(code: string, i: nat, depth: nat): (end: nat)
    requires i <= |code|
    ensures i <= end <= |code|
    decreases |code| - i
  {
    if i == |code| || depth == 0 then i
    else BraceEnd(code, i + 1, if code[i] == '{' then depth + 1 else if code[i] == '}' then depth - 1 else depth)
  }

  /** The braces opened minus the braces closed. */
  function Depth(code: string, i: nat, k: nat): int
    requires i <= k <= |code|
  {
    if i == k then 0
    else Depth(code, i, k - 1) + (if code[k - 1] == '{' then 1 else if code[k - 1] == '}' then -1 else 0)
  }

  lemma {:induction false} DepthSplit(code: string, i: nat, k: nat)
    requires i < k <= |code|
    ensures Depth(code, i, k) ==
            (if code[i] == '{' then 1 else if code[i] == '}' then -1 else 0) + Depth(code, i + 1, k)
  {
    if i < k - 1 {
      DepthSplit(code, i, k - 1);
    }
  }

  /** The brace walk stops exactly where the braces balance for the first time, or at
      the end of the text. */
  lemma {:induction false} BraceEndExact(code: string, i: nat, depth: nat)
    requires i <= |code|
    ensures var end := BraceEnd(code, i, depth);
            && (forall k :: i <= k < end ==> depth + Depth(code, i, k) > 0)
            && (end < |code| ==> depth + Depth(code, i, end) == 0)
    decreases |code| - i
  {
    if i < |code| && depth > 0 {
      var next := if code[i] == '{' then depth + 1 else if code[i] == '}' then depth - 1 else depth;
      BraceEndExact(code, i + 1, next);
      forall k | i < k <= |code|
        ensures depth + Depth(code, i, k) == next + Depth(code, i + 1, k)
      {
        DepthSplit(code, i, k);
      }
    }
  }

  /** The end of the item after a header, unless the item is malformed. */
  function ItemEnd(code: string, i: nat): (end: Option<nat>)
    requires i <= |code|
    ensures end.Some? ==> i < end.value <= |code|
  {
    if i < |code| && code[i] == ';' then Some(i + 1)
    else if i < |code| && code[i] == '{' then Some(BraceEnd(code, i + 1, 1))
    else None
  }

  /** A semicolon ends an item, an opening brace begins one that ends where the braces
      balance, and whatever else follows a header is no item. */
  lemma ItemEndExactly(code: string, i: nat, first: nat)
    requires i < |code| && first == i + 1
    ensures code[i] == ';' ==> ItemEnd(code, i) == Some(first)
    ensures code[i] == '{' ==>
              && ItemEnd(code, i).Some?
              && (forall k :: first <= k < ItemEnd(code, i).value ==> 1 + Depth(code, first, k) > 0)
              && (ItemEnd(code, i).value < |code| ==> 1 + Depth(code, first, ItemEnd(code, i).value) == 0)
    ensures code[i] != ';' && code[i] != '{' ==> ItemEnd(code, i).None?
  {
    BraceEndExact(code, first, 1);
  }

  function Modules(find: Finder, code: string, i: nat): seq<Token>
    requires i <= |code| && FinderOk(find, code)
    decreases |code| - i
  {
    var found := find(code, i);
    if found.None? then []
    else
      var (start, header) := found.value;
      var end := ItemEnd(code, header);
      if end.None? then Modules(find, code, header)
      else [Token(start, end.value, None)] + Modules(find, code, end.value)
  }

  lemma {:induction false} ModulesOrdered(find: Finder, code: string, i: nat)
    requires i <= |code| && FinderOk(find, code)
    ensures Ordered(Modules(find, code, i), i, |code|)
    decreases |code| - i
  {
    var found := find(code, i);
    if found.Some? {
      var (start, header) := found.value;
      var end := ItemEnd(code, header);
      ModulesOrdered(find, code, if end.Some? then end.value else header);
    }
  }

  method WalkBraces(code: string, i: nat) returns (end: nat)
    requires i <= |code|
    ensures end == BraceEnd(code, i, 1)
  {
    var depth := 1;
    end := i;
    while end < |code| && depth > 0
      invariant end <= |code| && BraceEnd(code, i, 1) == BraceEnd(code, end, depth)
    {
      if code[end] == '{' {
        depth := depth + 1;
      } else if code[end] == '}' {
        depth := depth - 1;
      }
      end := end + 1;
    }
  }

  ghost predicate Progress(find: Finder, code: string, done: seq<Token>, i: nat)
    requires FinderOk(find, code)
  {
    i <= |code| && Modules(find, code, 0) == done + Modules(find, code, i)
  }

  lemma ProgressStep(find: Finder, code: string, done: seq<Token>, i: nat)
    requires FinderOk(find, code) && Progress(find, code, done, i)
    ensures find(code, i).None? ==> Modules(find, code, 0) == done
    ensures find(code, i).Some? ==>
              var (start, header) := find(code, i).value; var end := ItemEnd(code, header);
              if end.None? then Progress(find, code, done, header)
              else Progress(find, code, done + [Token(start, end.value, None)], end.value)
  {
    var found := find(code, i);
    if found.None? {
      assert done + [] == done;
    } else {
      var (start, header) := found.value;
      var end := ItemEnd(code, header);
      if end.Some? {
        var item, rest := [Token(start, end.value, None)], Modules(find, code, end.value);
        assert done + (item + rest) == (done + item) + rest;
      }
    }
  }

  method FindItemEnd(code: string, header: nat) returns (end: Option<nat>)
    requires header <= |code|
    ensures end == ItemEnd(code, header)
  {
    if header < |code| && code[header] == ';' {
      return Some(header + 1);
    }
    if header < |code| && code[header] == '{' {
      var stop := WalkBraces(code, header + 1);
      return Some(stop);
    }
    return None;
  }

  method BlankModules(find: Finder, text: string, code: string) returns (out: string)
    requires |code| == |text| && FinderOk(find, code)
    ensures out == Masked(text, Modules(find, code, 0))
  {
    var characters := new char[|text|](i requires 0 <= i < |text| => text[i]);
    var i := 0;
    ghost var done: seq<Token> := [];
    assert characters[..] == text && [] + Modules(find, code, 0) == Modules(find, code, 0);
    while find(code, i).Some?
      invariant Progress(find, code, done, i) && characters[..] == Masked(text, done)
      decreases |code| - i
    {
      ProgressStep(find, code, done, i);
      var (start, header) := find(code, i).value;
      var end := FindItemEnd(code, header);
      if end.None? {
        i := header;
      } else {
        MaskNonNewlines(characters, start, end.value);
        ghost var item := Token(start, end.value, None);
        assert (done + [item])[..|done|] == done;
        done := done + [item];
        i := end.value;
      }
    }
    ProgressStep(find, code, done, i);
    out := characters[..];
  }

  /** Blanks exactly the test modules that the masked code shows; every other character
      stays where it is. */
  method WithoutTestModules(alnum: Alnum, find: Finder, text: string) returns (out: string)
    requires FinderOk(find, Masked(text, Tokens(alnum, text, 0)))
    ensures out == Masked(text, Modules(find, Masked(text, Tokens(alnum, text, 0)), 0))
  {
    var code, literals := CodeAndLiterals(alnum, text);
    out := BlankModules(find, text, code);
  }
}
