// Typed outcomes: reading undoes writing, for `tsz_nonzero_diagnostics` of
// scripts/ci/check-emit-regression-set.py and the outcomes of the committed baseline.

module EmitPayload {
  import opened Wrappers
  import opened Text
  import opened EmitRows

  function Join(codes: seq<string>): string {
    if codes == [] then ""
    else if |codes| == 1 then codes[0]
    else codes[0] + "," + Join(codes[1..])
  }

  function PrintHead(exit: nat): string {
    "TSZ_NONZERO_OUTCOME: exit=" + Decimal(exit) + ", "
  }

  function PrintCodes(codes: seq<string>): string {
    if codes == [] then "<none>" else Join(codes)
  }

  function PrintOutcome(exit: nat, codes: seq<string>): string {
    PrintHead(exit) + "diagnostics=" + PrintCodes(codes)
  }

  lemma {:induction false} AfterHead(head: string, rest: string)
    requires 'd' !in head
    ensures After(head + PAYLOAD_MARKER + rest, PAYLOAD_MARKER) == Some(rest)
  {
    var s := head + PAYLOAD_MARKER + rest;
    if head == "" {
      assert s == PAYLOAD_MARKER + rest;
      assert s[|PAYLOAD_MARKER|..] == rest;
    } else {
      assert s[0] == head[0] && PAYLOAD_MARKER[0] == 'd';
      assert s[1..] == head[1..] + PAYLOAD_MARKER + rest;
      AfterHead(head[1..], rest);
    }
  }

  lemma {:induction false} PartsOfWord(word: string, rest: string, part: string)
    requires ',' !in word
    ensures Parts(word + rest, part) == Parts(rest, part + word)
  {
    if word == "" {
      assert word + rest == rest && part + word == part;
    } else {
      var s := word + rest;
      assert s[0] == word[0] && s[1..] == word[1..] + rest;
      PartsOfWord(word[1..], rest, part + [word[0]]);
      assert part + [word[0]] + word[1..] == part + word;
    }
  }

  lemma CodeKept(code: string)
    requires IsCode(code)
    ensures ',' !in code && Keep(code) == [code]
  {
    assert code[|code| - 1] == code[2..][|code| - 3];
    forall i | 0 <= i < |code|
      ensures code[i] != ','
    {
      assert i >= 2 ==> code[i] == code[2..][i - 2];
    }
  }

  lemma {:induction false} PartsOfJoin(codes: seq<string>)
    requires codes != [] && AllCodes(codes)
    ensures Parts(Join(codes), "") == codes
  {
    var code := codes[0];
    CodeKept(code);
    if |codes| == 1 {
      PartsOfWord(code, "", "");
      assert code + "" == code && "" + code == code;
    } else {
      var rest := "," + Join(codes[1..]);
      assert Join(codes) == code + rest;
      PartsOfWord(code, rest, "");
      assert "" + code == code && rest[1..] == Join(codes[1..]);
      PartsOfJoin(codes[1..]);
    }
  }

  lemma {:induction false} JoinEnds(codes: seq<string>)
    requires codes != [] && AllCodes(codes)
    ensures var s := Join(codes); |s| > 2 && s[0] == 'T' && IsDigit(s[|s| - 1])
  {
    var code := codes[0];
    assert IsCode(code);
    if |codes| == 1 {
      assert code[|code| - 1] == code[2..][|code| - 3];
    } else {
      JoinEnds(codes[1..]);
    }
  }

  lemma PayloadTrimmed(codes: seq<string>)
    requires AllCodes(codes)
    ensures Trim(PrintCodes(codes)) == PrintCodes(codes)
    ensures codes != [] ==> PrintCodes(codes) != "<none>" && PrintCodes(codes) != ""
  {
    if codes != [] {
      JoinEnds(codes);
    }
  }

  lemma HeadHasNoMarker(exit: nat)
    ensures 'd' !in PrintHead(exit)
  {
    assert 'd' !in "TSZ_NONZERO_OUTCOME: exit=";
  }

  /** The codes of every written outcome are read back, in order. */
  lemma OutcomeRoundTrip(exit: nat, codes: seq<string>)
    requires AllCodes(codes)
    ensures TszDiagnostics(JStr(PrintOutcome(exit, codes))) == Ok(Some(codes))
  {
    HeadHasNoMarker(exit);
    AfterHead(PrintHead(exit), PrintCodes(codes));
    PayloadTrimmed(codes);
    assert NONZERO_PREFIX <= PrintOutcome(exit, codes);
    if codes != [] {
      PartsOfJoin(codes);
    }
  }
}
