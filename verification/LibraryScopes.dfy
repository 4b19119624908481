// Braces and keywords of library declarations by counting and by spelling: when a brace
// is still open, and which words declare.

module LibraryScopes {
  import opened LibraryTokens
  import opened LibraryForms
  import opened LibraryNames

  // ------------------------------------------------------------------- open braces

  /** The opening less the closing braces from token `j` up to token `m`. */
  function Excess(tokens: seq<Token>, j: nat, m: nat): int
    requires m <= |tokens|
  {
    if m <= j then 0
    else
      Excess(tokens, j, m - 1) + (if tokens[m - 1].text == "{" then 1 else if tokens[m - 1].text == "}" then -1 else 0)
  }

  /** Brace `j` opens before token `k`, and no later token closes it: from the brace on,
      opening braces always outnumber closing ones. */
  ghost predicate StillOpen(tokens: seq<Token>, j: nat, k: nat)
    requires k <= |tokens|
  {
    && j < k && tokens[j].text == "{"
    && forall m :: j < m <= k ==> Excess(tokens, j, m) > 0
  }

  /** The entries are open, the last one opened last. */
  ghost predicate Nested(tokens: seq<Token>, k: nat, open: seq<nat>)
    requires k <= |tokens|
  {
    forall i :: 0 <= i < |open| ==> StillOpen(tokens, open[i], k) && Excess(tokens, open[i], k) == |open| - i
  }

  ghost predicate Listed(tokens: seq<Token>, k: nat, open: seq<nat>)
    requires k <= |tokens|
  {
    forall j: nat :: StillOpen(tokens, j, k) ==> j in open
  }

  lemma StaysOpen(tokens: seq<Token>, j: nat, k: nat)
    requires j < k < |tokens|
    ensures StillOpen(tokens, j, k + 1) <==> StillOpen(tokens, j, k) && Excess(tokens, j, k + 1) > 0
  {
  }

  lemma OpensNow(tokens: seq<Token>, k: nat)
    requires k < |tokens|
    ensures StillOpen(tokens, k, k + 1) <==> tokens[k].text == "{"
  {
    assert Excess(tokens, k, k) == 0;
  }

  lemma TurnNested(tokens: seq<Token>, k: nat, open: seq<nat>)
    requires k < |tokens| && Nested(tokens, k, open) && Listed(tokens, k, open)
    ensures var next := Turn(tokens[k].text, open, k);
            Nested(tokens, k + 1, next) && Listed(tokens, k + 1, next)
  {
    var next := Turn(tokens[k].text, open, k);
    OpensNow(tokens, k);
    forall i | 0 <= i < |next|
      ensures StillOpen(tokens, next[i], k + 1) && Excess(tokens, next[i], k + 1) == |next| - i
    {
      if next[i] == k {
        assert i == |open|;
      } else {
        assert next[i] == open[i];
        StaysOpen(tokens, open[i], k);
      }
    }
    forall j: nat | StillOpen(tokens, j, k + 1)
      ensures j in next
    {
      if j < k {
        StaysOpen(tokens, j, k);
        var i :| 0 <= i < |open| && open[i] == j;
        assert Excess(tokens, open[i], k) == |open| - i;
        assert i < |next| && next[i] == j;
      } else {
        assert next[|open|] == k;
      }
    }
  }

  lemma {:induction false} OpenNested(tokens: seq<Token>, k: nat)
    requires k <= |tokens|
    ensures Nested(tokens, k, OpenBraces(tokens, k)) && Listed(tokens, k, OpenBraces(tokens, k))
  {
    if k > 0 {
      OpenNested(tokens, k - 1);
      TurnNested(tokens, k - 1, OpenBraces(tokens, k - 1));
    }
  }

  /** The braces around a token are exactly those still open before it, whatever closing
      braces stand before them. */
  lemma OpenExactly(tokens: seq<Token>, k: nat, j: nat)
    requires k <= |tokens|
    ensures j in OpenBraces(tokens, k) <==> StillOpen(tokens, j, k)
  {
    OpenNested(tokens, k);
  }

  ghost predicate AfterDeclareGlobal(tokens: seq<Token>, j: nat)
    requires j <= |tokens|
  {
    j >= 2 && tokens[j - 2].text == "declare" && tokens[j - 1].text == "global"
  }

  /** A token is in the global scope when every brace around it follows the words
      `declare global`. */
  lemma GlobalExactly(tokens: seq<Token>, k: nat)
    requires k <= |tokens|
    ensures InGlobalScope(tokens, k) <==>
            forall j: nat :: StillOpen(tokens, j, k) ==> AfterDeclareGlobal(tokens, j)
  {
    var open := OpenBraces(tokens, k);
    OpenNested(tokens, k);
    forall i | 0 <= i < |open|
      ensures GlobalHeader(tokens, open[i]) <==> AfterDeclareGlobal(tokens, open[i])
    {
    }
    if InGlobalScope(tokens, k) {
      forall j: nat | StillOpen(tokens, j, k)
        ensures AfterDeclareGlobal(tokens, j)
      {
        var i :| 0 <= i < |open| && open[i] == j;
      }
    }
    if forall j: nat :: StillOpen(tokens, j, k) ==> AfterDeclareGlobal(tokens, j) {
      forall i | 0 <= i < |open|
        ensures GlobalHeader(tokens, open[i])
      {
        assert StillOpen(tokens, open[i], k);
      }
    }
  }

  // ------------------------------------------------------------------- keywords

  /** In the global scope, a word stands before a name. */
  ghost predicate Before(tokens: seq<Token>, k: nat, word: string) {
    && k + 1 < |tokens| && tokens[k].text == word
    && (forall j: nat :: StillOpen(tokens, j, k) ==> AfterDeclareGlobal(tokens, j))
    && tokens[k + 1].text != "" && NameStart(tokens[k + 1].text[0])
  }

  lemma IntroducesExactly(tokens: seq<Token>, k: nat, word: string)
    requires word != "{" && word != "}"
    ensures Introduces(tokens, k) && tokens[k].text == word <==> Before(tokens, k, word)
  {
    if k < |tokens| {
      GlobalExactly(tokens, k);
    }
  }

  /** The words that declare a type. */
  lemma TypeWords(tokens: seq<Token>, k: nat)
    ensures DeclaresType(tokens, k) <==>
            || Before(tokens, k, "interface") || Before(tokens, k, "type") || Before(tokens, k, "class")
            || Before(tokens, k, "enum") || Before(tokens, k, "namespace") || Before(tokens, k, "module")
  {
    IntroducesExactly(tokens, k, "interface");
    IntroducesExactly(tokens, k, "type");
    IntroducesExactly(tokens, k, "class");
    IntroducesExactly(tokens, k, "enum");
    IntroducesExactly(tokens, k, "namespace");
    IntroducesExactly(tokens, k, "module");
  }

  ghost predicate BeforeVariable(tokens: seq<Token>, k: nat, word: string) {
    Before(tokens, k, word) && tokens[k + 1].text != "enum"
  }

  /** The words that declare a value; `const enum` declares one with the word `enum`. */
  lemma ValueWords(tokens: seq<Token>, k: nat)
    ensures DeclaresValue(tokens, k) <==>
            || Before(tokens, k, "class") || Before(tokens, k, "enum") || Before(tokens, k, "namespace")
            || Before(tokens, k, "module") || Before(tokens, k, "function")
            || BeforeVariable(tokens, k, "var") || BeforeVariable(tokens, k, "let") || BeforeVariable(tokens, k, "const")
  {
    IntroducesExactly(tokens, k, "class");
    IntroducesExactly(tokens, k, "enum");
    IntroducesExactly(tokens, k, "namespace");
    IntroducesExactly(tokens, k, "module");
    IntroducesExactly(tokens, k, "function");
    IntroducesExactly(tokens, k, "var");
    IntroducesExactly(tokens, k, "let");
    IntroducesExactly(tokens, k, "const");
  }
}
