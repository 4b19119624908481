// The names a library declares: the scope walk of `declaration_names` in
// crates/tsz-core/build.rs.

module LibraryNames {
  import opened LibraryTokens

  // ------------------------------------------------------------------- scopes

  predicate TokenIs(tokens: seq<Token>, i: int, text: string) {
    0 <= i < |tokens| && tokens[i].text == text
  }

  /** The brace that `declare global` stands before. */
  predicate GlobalHeader(tokens: seq<Token>, i: nat) {
    TokenIs(tokens, i - 1, "global") && TokenIs(tokens, i - 2, "declare")
  }

  /** A stack after one more token; a closing brace with none open does nothing. */
  function Turn<T>(text: string, stack: seq<T>, item: T): seq<T> {
    if text == "{" then stack + [item]
    else if text == "}" && stack != [] then stack[..|stack| - 1]
    else stack
  }

  /** The braces still open before token `k`. */
  function OpenBraces(tokens: seq<Token>, k: nat): (open: seq<nat>)
    requires k <= |tokens|
    ensures forall j :: 0 <= j < |open| ==> open[j] < k
  {
    if k == 0 then []
    else
      Turn(tokens[k - 1].text, OpenBraces(tokens, k - 1), k - 1)
  }

  /** Every brace around token `k` belongs to a `declare global`. */
  predicate InGlobalScope(tokens: seq<Token>, k: nat)
    requires k <= |tokens|
  {
    forall j :: 0 <= j < |OpenBraces(tokens, k)| ==> GlobalHeader(tokens, OpenBraces(tokens, k)[j])
  }

  predicate IsDeclarationScope(scopes: seq<bool>) {
    scopes == [] || forall i :: 0 <= i < |scopes| ==> scopes[i]
  }

  /** Which braces `declare global` stands before. */
  function Headers(tokens: seq<Token>): nat -> bool {
    (k: nat) => GlobalHeader(tokens, k)
  }

  /** The scope stack before token `k`: an opening brace pushes whether it opens a scope
      for declarations, a closing brace pops. */
  function Stack(tokens: seq<Token>, header: nat -> bool, k: nat): (scopes: seq<bool>)
    requires k <= |tokens|
  {
    if k == 0 then []
    else
      var scopes := Stack(tokens, header, k - 1);
      Turn(tokens[k - 1].text, scopes, IsDeclarationScope(scopes) && header(k - 1))
  }

  function Scopes(tokens: seq<Token>, k: nat): (scopes: seq<bool>)
    requires k <= |tokens|
  {
    Stack(tokens, Headers(tokens), k)
  }

  function Flags(trues: nat, falses: nat): seq<bool> {
    seq(trues, _ => true) + seq(falses, _ => false)
  }

  lemma TurnShape(text: string, trues: nat, falses: nat, global: bool) returns (t: nat, f: nat)
    ensures var scopes := Flags(trues, falses);
            Turn(text, scopes, IsDeclarationScope(scopes) && global) == Flags(t, f)
  {
    var scopes := Flags(trues, falses);
    t, f := trues, falses;
    if text == "{" {
      if falses > 0 {
        assert !scopes[trues];
        f := falses + 1;
      } else if global {
        t := trues + 1;
      } else {
        f := 1;
      }
    } else if text == "}" && scopes != [] {
      if falses > 0 {
        f := falses - 1;
      } else {
        t := trues - 1;
      }
    }
  }

  /** The stack is always trues followed by falses. */
  lemma {:induction false} StackShape(tokens: seq<Token>, header: nat -> bool, k: nat) returns (trues: nat, falses: nat)
    requires k <= |tokens|
    ensures Stack(tokens, header, k) == Flags(trues, falses)
  {
    if k == 0 {
      trues, falses := 0, 0;
    } else {
      trues, falses := StackShape(tokens, header, k - 1);
      trues, falses := TurnShape(tokens[k - 1].text, trues, falses, header(k - 1));
    }
  }

  lemma ScopesShape(tokens: seq<Token>, k: nat) returns (trues: nat, falses: nat)
    requires k <= |tokens|
    ensures Scopes(tokens, k) == seq(trues, _ => true) + seq(falses, _ => false)
  {
    trues, falses := StackShape(tokens, Headers(tokens), k);
  }

  /** The entries that a list of open braces asks for. */
  function FlagsOf(header: nat -> bool, open: seq<nat>): (flags: seq<bool>)
    ensures |flags| == |open|
  {
    if open == [] then []
    else
      var front := FlagsOf(header, open[..|open| - 1]);
      front + [IsDeclarationScope(front) && header(open[|open| - 1])]
  }

  lemma TurnFlags(header: nat -> bool, open: seq<nat>, text: string, k: nat)
    ensures var flags := FlagsOf(header, open);
            Turn(text, flags, IsDeclarationScope(flags) && header(k)) == FlagsOf(header, Turn(text, open, k))
  {
    assert (open + [k])[..|open|] == open;
  }

  lemma {:induction false} StackFlags(tokens: seq<Token>, header: nat -> bool, k: nat)
    requires k <= |tokens|
    ensures Stack(tokens, header, k) == FlagsOf(header, OpenBraces(tokens, k))
  {
    if k > 0 {
      StackFlags(tokens, header, k - 1);
      TurnFlags(header, OpenBraces(tokens, k - 1), tokens[k - 1].text, k - 1);
    }
  }

  lemma {:induction false} FlagsMean(header: nat -> bool, open: seq<nat>, j: nat)
    requires j < |open|
    ensures FlagsOf(header, open)[j] <==> forall i :: 0 <= i <= j ==> header(open[i])
  {
    var n := |open| - 1;
    var front := open[..n];
    assert forall i :: 0 <= i < n ==> front[i] == open[i];
    if j < n {
      FlagsMean(header, front, j);
    } else if n > 0 {
      forall i | 0 <= i < n
        ensures FlagsOf(header, front)[i] <==> forall m :: 0 <= m <= i ==> header(front[m])
      {
        FlagsMean(header, front, i);
      }
      assert FlagsOf(header, front)[n - 1] <==> forall m :: 0 <= m <= n - 1 ==> header(front[m]);
    }
  }

  /** A scope is open to declarations when its brace and all braces around it are. */
  lemma ScopesDescribe(tokens: seq<Token>, k: nat)
    requires k <= |tokens|
    ensures var scopes, open := Scopes(tokens, k), OpenBraces(tokens, k);
            && |scopes| == |open|
            && forall j :: 0 <= j < |scopes| ==> (scopes[j] <==> forall i :: 0 <= i <= j ==> GlobalHeader(tokens, open[i]))
  {
    var open := OpenBraces(tokens, k);
    StackFlags(tokens, Headers(tokens), k);
    forall j | 0 <= j < |open|
      ensures Scopes(tokens, k)[j] <==> forall i :: 0 <= i <= j ==> GlobalHeader(tokens, open[i])
    {
      FlagsMean(Headers(tokens), open, j);
      assert forall i :: 0 <= i <= j ==> Headers(tokens)(open[i]) == GlobalHeader(tokens, open[i]);
    }
  }

  lemma ScopeIsGlobal(tokens: seq<Token>, k: nat)
    requires k <= |tokens|
    ensures IsDeclarationScope(Scopes(tokens, k)) <==> InGlobalScope(tokens, k)
  {
    ScopesDescribe(tokens, k);
    var scopes := Scopes(tokens, k);
    if scopes != [] {
      assert scopes[|scopes| - 1] <==> InGlobalScope(tokens, k);
    }
  }

  /** One turn of the stack. */
  method NextScopes(tokens: seq<Token>, k: nat, scopes: seq<bool>) returns (next: seq<bool>)
    requires k < |tokens| && scopes == Scopes(tokens, k)
    ensures next == Scopes(tokens, k + 1)
  {
    next := scopes;
    if tokens[k].text == "{" {
      var global := IsDeclarationScope(scopes) && TokenIs(tokens, k - 1, "global") && TokenIs(tokens, k - 2, "declare");
      next := scopes + [global];
    } else if tokens[k].text == "}" && scopes != [] {
      next := scopes[..|scopes| - 1];
    }
  }

  // ------------------------------------------------------------- declarations

  /** Token `k` can introduce the identifier after it. */
  predicate Introduces(tokens: seq<Token>, k: nat) {
    && k + 1 < |tokens| && tokens[k].text != "{" && tokens[k].text != "}"
    && InGlobalScope(tokens, k) && IsIdentifier(tokens[k + 1].text)
  }

  predicate DeclaresType(tokens: seq<Token>, k: nat) {
    && Introduces(tokens, k)
    && tokens[k].text in {"interface", "type", "class", "enum", "namespace", "module"}
  }

  predicate DeclaresValue(tokens: seq<Token>, k: nat) {
    && Introduces(tokens, k)
    && (|| tokens[k].text in {"class", "enum", "namespace", "module", "function"}
        || (tokens[k].text in {"var", "let", "const"} && tokens[k + 1].text != "enum"))
  }

  predicate DeclaresRecord(tokens: seq<Token>, k: nat) {
    Introduces(tokens, k) && tokens[k].text == "type" && IsHomogeneousRecordAlias(tokens, k)
  }

  function Shape(name: string, key: string, value: string, mapped: string): seq<string> {
    ["type", name, "<", key, "extends", "keyof", "any", ",", value, ">", "=",
     "{", "[", mapped, "in", key, "]", ":", value, ";", "}"]
  }

  function Texts(tokens: seq<Token>): seq<string> {
    seq(|tokens|, i requires 0 <= i < |tokens| => tokens[i].text)
  }

  predicate IsHomogeneousRecordAlias(tokens: seq<Token>, start: nat) {
    start + 21 <= |tokens|
    && var shape := tokens[start..start + 21];
       var keyParameter, valueParameter, mappedParameter := shape[3].text, shape[8].text, shape[13].text;
       && shape[0].text == "type" && IsIdentifier(shape[1].text) && shape[2].text == "<"
       && IsIdentifier(keyParameter) && shape[4].text == "extends" && shape[5].text == "keyof"
       && shape[6].text == "any" && shape[7].text == "," && IsIdentifier(valueParameter)
       && shape[9].text == ">" && shape[10].text == "=" && shape[11].text == "{" && shape[12].text == "["
       && IsIdentifier(mappedParameter) && shape[14].text == "in" && shape[15].text == keyParameter
       && shape[16].text == "]" && shape[17].text == ":" && shape[18].text == valueParameter
       && shape[19].text == ";" && shape[20].text == "}"
  }

  lemma ShapeAt(tokens: seq<Token>, start: nat, name: string, key: string, value: string, mapped: string)
    requires start + 21 <= |tokens| && Texts(tokens[start..start + 21]) == Shape(name, key, value, mapped)
    requires IsIdentifier(name) && IsIdentifier(key) && IsIdentifier(value) && IsIdentifier(mapped)
    ensures IsHomogeneousRecordAlias(tokens, start)
  {
    var s := tokens[start..start + 21];
    var texts := Texts(s);
    TextsAre(s, texts, 0);
    TextsAre(s, texts, 7);
    TextsAre(s, texts, 14);
  }

  lemma TextsAre(s: seq<Token>, texts: seq<string>, i: nat)
    requires texts == Texts(s) && i + 7 <= |s|
    ensures s[i].text == texts[i] && s[i + 1].text == texts[i + 1] && s[i + 2].text == texts[i + 2]
    ensures s[i + 3].text == texts[i + 3] && s[i + 4].text == texts[i + 4] && s[i + 5].text == texts[i + 5]
    ensures s[i + 6].text == texts[i + 6]
  {
  }

  lemma AliasShape(tokens: seq<Token>, start: nat)
    requires IsHomogeneousRecordAlias(tokens, start)
    ensures start + 21 <= |tokens|
    ensures var s := tokens[start..start + 21];
            && Texts(s) == Shape(s[1].text, s[3].text, s[8].text, s[13].text)
            && IsIdentifier(s[1].text) && IsIdentifier(s[3].text) && IsIdentifier(s[8].text) && IsIdentifier(s[13].text)
  {
  }

  /** The recognised shape, whatever the binders are called. */
  lemma RecordAliasExactly(tokens: seq<Token>, start: nat)
    requires start + 21 <= |tokens|
    ensures IsHomogeneousRecordAlias(tokens, start) <==>
            exists name, key, value, mapped ::
              && IsIdentifier(name) && IsIdentifier(key) && IsIdentifier(value) && IsIdentifier(mapped)
              && Texts(tokens[start..start + 21]) == Shape(name, key, value, mapped)
  {
    if IsHomogeneousRecordAlias(tokens, start) {
      AliasShape(tokens, start);
    } else if name, key, value, mapped :|
      && IsIdentifier(name) && IsIdentifier(key) && IsIdentifier(value) && IsIdentifier(mapped)
      && Texts(tokens[start..start + 21]) == Shape(name, key, value, mapped)
    {
      ShapeAt(tokens, start, name, key, value, mapped);
    }
  }

  // ---------------------------------------------------------------- the index

  /** Places that are marked, the name each one gives and where it stands. */
  datatype Marks = Marks(on: nat -> bool, name: nat -> string, offset: nat -> nat)

  function Next(tokens: seq<Token>, k: nat): Token {
    if k + 1 < |tokens| then tokens[k + 1] else Token("", 0)
  }

  function MarksOf(tokens: seq<Token>, on: nat -> bool): Marks {
    Marks(on, (k: nat) => Next(tokens, k).text, (k: nat) => Next(tokens, k).offset)
  }

  function TypeMarks(tokens: seq<Token>): Marks {
    MarksOf(tokens, (k: nat) => DeclaresType(tokens, k))
  }

  function ValueMarks(tokens: seq<Token>): Marks {
    MarksOf(tokens, (k: nat) => DeclaresValue(tokens, k))
  }

  function RecordMarks(tokens: seq<Token>): Marks {
    MarksOf(tokens, (k: nat) => DeclaresRecord(tokens, k))
  }

  predicate Gives(m: Marks, n: nat, name: string, k: nat) {
    k < n && m.on(k) && m.name(k) == name
  }

  ghost predicate Given(m: Marks, n: nat, name: string) {
    exists k: nat :: Gives(m, n, name, k)
  }

  /** The names that the first `n` places give. */
  ghost predicate Collected(m: Marks, n: nat, names: set<string>) {
    forall name :: name in names <==> Given(m, n, name)
  }

  /** The last place among the first `n` that gives the name. */
  ghost predicate LastGives(m: Marks, n: nat, name: string, k: nat) {
    Gives(m, n, name, k) && forall later: nat :: Gives(m, n, name, later) ==> later <= k
  }

  ghost predicate Located(m: Marks, n: nat, origins: map<string, nat>) {
    && Collected(m, n, origins.Keys)
    && forall name :: name in origins ==> exists k: nat :: LastGives(m, n, name, k) && origins[name] == m.offset(k)
  }

  lemma GivenStep(m: Marks, k: nat, n: nat, name: string)
    requires n == k + 1
    ensures Given(m, n, name) <==> Given(m, k, name) || (m.on(k) && m.name(k) == name)
  {
    if j: nat :| Gives(m, k, name, j) {
      assert Gives(m, n, name, j);
    }
    if m.on(k) && m.name(k) == name {
      assert Gives(m, n, name, k);
    }
    if j: nat :| Gives(m, n, name, j) && j < k {
      assert Gives(m, k, name, j);
    }
  }

  lemma CollectStep(m: Marks, k: nat, n: nat, names: set<string>)
    requires n == k + 1 && Collected(m, k, names)
    ensures Collected(m, n, if m.on(k) then names + {m.name(k)} else names)
  {
    forall name
      ensures Given(m, n, name) <==> Given(m, k, name) || (m.on(k) && m.name(k) == name)
    {
      GivenStep(m, k, n, name);
    }
  }

  lemma LastStep(m: Marks, k: nat, n: nat, name: string, j: nat)
    requires n == k + 1 && (if m.on(k) && m.name(k) == name then j == k else LastGives(m, k, name, j))
    ensures LastGives(m, n, name, j)
  {
    if !(m.on(k) && m.name(k) == name) {
      assert Gives(m, k, name, j);
      assert forall later: nat :: Gives(m, n, name, later) ==> Gives(m, k, name, later);
    }
  }

  lemma LocateStep(m: Marks, k: nat, n: nat, origins: map<string, nat>)
    requires n == k + 1 && Located(m, k, origins)
    ensures Located(m, n, if m.on(k) then origins[m.name(k) := m.offset(k)] else origins)
  {
    CollectStep(m, k, n, origins.Keys);
    var next := if m.on(k) then origins[m.name(k) := m.offset(k)] else origins;
    assert next.Keys == if m.on(k) then origins.Keys + {m.name(k)} else origins.Keys;
    forall name | name in next
      ensures exists j: nat :: LastGives(m, n, name, j) && next[name] == m.offset(j)
    {
      if m.on(k) && name == m.name(k) {
        LastStep(m, k, n, name, k);
      } else {
        var j: nat :| LastGives(m, k, name, j) && origins[name] == m.offset(j);
        LastStep(m, k, n, name, j);
      }
    }
  }

  datatype Index = Index(types: set<string>, values: set<string>, origins: map<string, nat>)

  /** The index holds exactly what the first `n` tokens introduce; a repeated record
      alias keeps its last origin. */
  ghost predicate Indexed(tokens: seq<Token>, n: nat, index: Index) {
    && Collected(TypeMarks(tokens), n, index.types)
    && Collected(ValueMarks(tokens), n, index.values)
    && Located(RecordMarks(tokens), n, index.origins)
  }

  function Add(tokens: seq<Token>, k: nat, index: Index): Index {
    var name := Next(tokens, k);
    Index(if DeclaresType(tokens, k) then index.types + {name.text} else index.types,
          if DeclaresValue(tokens, k) then index.values + {name.text} else index.values,
          if DeclaresRecord(tokens, k) then index.origins[name.text := name.offset] else index.origins)
  }

  lemma AddStep(tokens: seq<Token>, k: nat, index: Index)
    requires Indexed(tokens, k, index)
    ensures Indexed(tokens, k + 1, Add(tokens, k, index))
  {
    CollectStep(TypeMarks(tokens), k, k + 1, index.types);
    CollectStep(ValueMarks(tokens), k, k + 1, index.values);
    LocateStep(RecordMarks(tokens), k, k + 1, index.origins);
  }

  /** One token outside the braces of other declarations. */
  method Declare(tokens: seq<Token>, k: nat, before: Index) returns (index: Index)
    requires k < |tokens| && tokens[k].text != "{" && tokens[k].text != "}" && InGlobalScope(tokens, k)
    ensures index == Add(tokens, k, before)
  {
    index := before;
    if k + 1 >= |tokens| || !IsIdentifier(tokens[k + 1].text) {
      return;
    }
    var word, name := tokens[k].text, tokens[k + 1];
    if word == "interface" || word == "type" {
      index := index.(types := index.types + {name.text});
      if word == "type" && IsHomogeneousRecordAlias(tokens, k) {
        index := index.(origins := index.origins[name.text := name.offset]);
      }
    } else if word == "class" || word == "enum" || word == "namespace" || word == "module" {
      index := index.(types := index.types + {name.text}, values := index.values + {name.text});
    } else if word == "function" {
      index := index.(values := index.values + {name.text});
    } else if (word == "var" || word == "let" || word == "const") && name.text != "enum" {
      index := index.(values := index.values + {name.text});
    }
  }

  lemma NothingAdded(tokens: seq<Token>, k: nat, index: Index)
    requires !Introduces(tokens, k)
    ensures Add(tokens, k, index) == index
  {
  }

  /** Exactly the names declared outside all braces but those of `declare global`. */
  method DeclarationNames(tokens: seq<Token>) returns (index: Index)
    ensures Indexed(tokens, |tokens|, index)
  {
    var scopes: seq<bool> := [];
    index := Index({}, {}, map[]);
    for k := 0 to |tokens|
      invariant scopes == Scopes(tokens, k) && Indexed(tokens, k, index)
    {
      ScopeIsGlobal(tokens, k);
      AddStep(tokens, k, index);
      if tokens[k].text == "{" || tokens[k].text == "}" {
        NothingAdded(tokens, k, index);
      } else if IsDeclarationScope(scopes) {
        index := Declare(tokens, k, index);
      } else {
        NothingAdded(tokens, k, index);
      }
      scopes := NextScopes(tokens, k, scopes);
    }
  }

  lemma OriginIndex(tokens: seq<Token>, origins: map<string, nat>, name: string)
    requires Located(RecordMarks(tokens), |tokens|, origins) && name in origins
    ensures exists k: nat :: k < |tokens| && tokens[k].text == name && tokens[k].offset == origins[name]
  {
    var m := RecordMarks(tokens);
    var k: nat :| LastGives(m, |tokens|, name, k) && origins[name] == m.offset(k);
    assert m.on(k) && DeclaresRecord(tokens, k);
    assert tokens[k + 1].text == name;
  }

  predicate Spells(source: string, offset: nat, name: string) {
    offset + |name| <= |source| && source[offset..offset + |name|] == name
  }

  lemma SliceSpells(source: string, tokens: seq<Token>, k: nat)
    requires AllSlices(source, tokens) && k < |tokens|
    ensures Spells(source, tokens[k].offset, tokens[k].text)
  {
    assert IsSlice(source, tokens[k]);
  }

  /** The origin of every record alias spells its name in the source. */
  lemma OriginSpellsName(source: string, tokens: seq<Token>, index: Index, name: string)
    requires AllSlices(source, tokens) && Indexed(tokens, |tokens|, index) && name in index.origins
    ensures Spells(source, index.origins[name], name)
  {
    OriginIndex(tokens, index.origins, name);
    var k: nat :| k < |tokens| && tokens[k].text == name && tokens[k].offset == index.origins[name];
    SliceSpells(source, tokens, k);
  }

  /** The index of one library. */
  method IndexLibrary(source: string) returns (index: Index)
    ensures InSource(source, Spans(source, 0))
    ensures Indexed(TokensOf(source, Spans(source, 0)), |Spans(source, 0)|, index)
    ensures |source| <= 0x1_0000_0000 ==> forall name :: name in index.origins ==> Spells(source, index.origins[name], name)
  {
    var tokens := Tokenize(source);
    index := DeclarationNames(tokens);
    if |source| <= U32 {
      forall name | name in index.origins
        ensures Spells(source, index.origins[name], name)
      {
        OriginSpellsName(source, tokens, index, name);
      }
    }
  }
}
