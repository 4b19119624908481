// Which lines the patterns of crates/conformance/src/tsz_wrapper.rs accept: the forms of
// a diagnostic and of a summary, and nothing else.

module DiagnosticForms {
  import opened Wrappers
  import opened Text
  import opened Diagnostics
  import opened DiagnosticRoundTrip

  lemma {:induction false} SkippedSpaces(s: string) returns (gap: string)
    ensures s == gap + SkipWhite(s) && Spaces(gap)
  {
    if s != "" && IsWhite(s[0]) {
      var rest := SkippedSpaces(s[1..]);
      gap := [s[0]] + rest;
      assert s == [s[0]] + s[1..];
    } else {
      gap := "";
      assert "" + s == s;
    }
  }

  lemma {:induction false} ReadDigits(t: Transport, s: string)
    ensures var digits := Digits(t, s);
            s == digits + s[|digits|..] && forall i :: 0 <= i < |digits| ==> t.digit(digits[i])
  {
    if s != "" && t.digit(s[0]) {
      ReadDigits(t, s[1..]);
      assert Digits(t, s)[1..] == Digits(t, s[1..]);
    }
  }

  lemma KindWord(s: string) returns (kind: Kind)
    requires EatKind(s).Some?
    ensures s == Word(kind) + EatKind(s).value
  {
    kind := if Eat(s, "error").Some? then Error
            else if Eat(s, "warning").Some? then Warning
            else if Eat(s, "suggestion").Some? then Suggestion
            else Message;
  }

  lemma CodeForm(t: Transport, s: string) returns (gap: string, space: bool)
    requires CodeAndMessage(t, s).Some?
    ensures gap != "" && Spaces(gap)
    ensures var (code, message) := CodeAndMessage(t, s).value;
            code != "" && s == gap + ("TS" + (code + (":" + ((if space then " " else "") + message))))
  {
    gap := SkippedSpaces(s);
    var rest := Eat(SkipWhite(s), "TS").value;
    ReadDigits(t, rest);
    var text := Eat(rest[|Digits(t, rest)|..], ":").value;
    space := Eat(text, " ").Some?;
    assert !space ==> "" + text == text;
    assert gap == "" ==> gap + SkipWhite(s) == SkipWhite(s);
  }

  lemma AcceptedTail(t: Transport, s: string) returns (l: Layout)
    requires Tail(t, s).Some?
    ensures l.lead.None? && l.gap == " " && LayoutOk(l)
    ensures Tail(t, s).value.0 != "" && s == PrintTail(l, Tail(t, s).value.0, Tail(t, s).value.1)
  {
    var kind := KindWord(s);
    var gap, space := CodeForm(t, EatKind(s).value);
    l := Layout(kind, None, " ", gap, space);
  }

  lemma CutAt(s: string, i: nat)
    requires i < |s| && s[i] == '('
    ensures s == s[..i] + ("(" + s[i + 1..])
  {
  }

  /** What reads as the place and the rest of a diagnostic is written as one. */
  lemma AcceptedPosition(t: Transport, s: string) returns (l: Layout)
    requires LineAndColumn(t, s).Some?
    ensures LayoutOk(l)
    ensures var p := LineAndColumn(t, s).value;
            && p.line != "" && p.column != "" && p.code != ""
            && s == PrintPlace(l, p.line, p.column, PrintTail(l, p.code, p.message))
  {
    ReadDigits(t, s);
    var afterLine := Eat(s[|Digits(t, s)|..], ",").value;
    ReadDigits(t, afterLine);
    var afterColumn := Eat(afterLine[|Digits(t, afterLine)|..], "):").value;
    var gap := SkippedSpaces(afterColumn);
    assert gap == "" ==> gap + SkipWhite(afterColumn) == SkipWhite(afterColumn);
    var inner := AcceptedTail(t, SkipWhite(afterColumn));
    l := inner.(gap := gap);
  }

  lemma AcceptedPlace(t: Transport, s: string, i: nat) returns (l: Layout)
    requires i <= |s| && SuffixAt(t, s, i).Some?
    ensures LayoutOk(l)
    ensures var p := SuffixAt(t, s, i).value;
            && p.line != "" && p.column != "" && p.code != ""
            && s == s[..i] + ("(" + PrintPlace(l, p.line, p.column, PrintTail(l, p.code, p.message)))
  {
    CutAt(s, i);
    l := AcceptedPosition(t, s[i + 1..]);
  }

  lemma LeadCut(s: string) returns (lead: Option<string>)
    ensures var start := if Eat(s, ":").Some? then SkipWhite(s[1..]) else s;
            s == PrintLead(lead) + start && (lead.Some? ==> Spaces(lead.value))
  {
    if Eat(s, ":").Some? {
      var spaces := SkippedSpaces(s[1..]);
      lead := Some(spaces);
      assert s == ":" + (spaces + SkipWhite(s[1..])) == (":" + spaces) + SkipWhite(s[1..]);
    } else {
      lead := None;
      assert "" + s == s;
    }
  }

  /** A line read as a diagnostic without a place is written as one. */
  lemma AcceptedWithoutPlace(t: Transport, s: string) returns (l: Layout, code: string, message: string)
    requires WithoutPlace(t, s).Some?
    ensures LayoutOk(l) && Numeral(code) && s == PrintLead(l.lead) + PrintTail(l, code, message)
    ensures WithoutPlace(t, s).value == Fingerprint(DecimalValue(code), "", 0, 0, t.message(message), [])
    ensures DecimalValue(code) < U32_LIMIT
  {
    var lead := LeadCut(s);
    var start := if Eat(s, ":").Some? then SkipWhite(s[1..]) else s;
    var inner := AcceptedTail(t, start);
    code, message := Tail(t, start).value.0, Tail(t, start).value.1;
    l := inner.(lead := lead);
  }

  /** The parts of a line that reads as a diagnostic. */
  datatype Parts = Parts(file: string, line: string, column: string, code: string, message: string)

  function PrintParts(l: Layout, p: Parts): string {
    var tail := PrintTail(l, p.code, p.message);
    if p.file == "" then PrintLead(l.lead) + tail else p.file + ("(" + PrintPlace(l, p.line, p.column, tail))
  }

  predicate Read(p: Parts, t: Transport, f: Fingerprint) {
    && Numeral(p.code) && f.code == DecimalValue(p.code) && f.code < 0x1_0000_0000
    && f.message == t.message(p.message) && f.continuations == []
    && if p.file == "" then f.file == "" && f.line == 0 && f.column == 0
       else && Numeral(p.line) && Numeral(p.column) && f.file == t.path(p.file)
            && f.line == DecimalValue(p.line) && f.column == DecimalValue(p.column)
            && f.line < 0x1_0000_0000 && f.column < 0x1_0000_0000
  }

  /** Whatever is read as a diagnostic is written as one, with these very parts. */
  lemma OnlyDiagnosticsParse(t: Transport, s: string) returns (l: Layout, p: Parts)
    requires ParsePrimary(t, s).Some?
    ensures LayoutOk(l) && s == PrintParts(l, p) && Read(p, t, ParsePrimary(t, s).value)
  {
    var found := if s == "" then None else FindSuffix(t, s, 1);
    if found.Some? {
      var i := found.value;
      l := AcceptedPlace(t, s, i);
      var place := SuffixAt(t, s, i).value;
      p := Parts(s[..i], place.line, place.column, place.code, place.message);
    } else {
      var code, message;
      l, code, message := AcceptedWithoutPlace(t, s);
      p := Parts("", "", "", code, message);
    }
  }

  // ------------------------------------------------------------------ summaries

  /** Summaries as they are written, with numerals as they stand. */
  function TotalText(count: string, plural: bool, files: string): string {
    "Found " + (count + (" error" + ((if plural then "s" else "") + files)))
  }

  function FilesText(files: Option<(string, bool)>): string {
    if files.None? then "." else " in " + (files.value.0 + (if files.value.1 then " files." else " file."))
  }

  ghost predicate AllDigitsOf(t: Transport, s: string) {
    s != "" && forall i :: 0 <= i < |s| ==> t.digit(s[i])
  }

  lemma AcceptedFiles(t: Transport, s: string) returns (files: (string, bool))
    requires InFiles(t, s)
    ensures AllDigitsOf(t, files.0) && s == FilesText(Some(files))
  {
    var rest := Eat(s, " in ").value;
    ReadDigits(t, rest);
    var digits := Digits(t, rest);
    files := (digits, rest[|digits|..] == " files.");
  }

  /** Only summaries are read as summaries. */
  lemma OnlySummariesParse(t: Transport, s: string) returns (plural: bool, files: Option<(string, bool)>)
    requires SummaryCount(t, s).Some?
    ensures AllDigitsOf(t, SummaryCount(t, s).value) && (files.Some? ==> AllDigitsOf(t, files.value.0))
    ensures s == TotalText(SummaryCount(t, s).value, plural, FilesText(files))
  {
    var found := Eat(s, "Found ").value;
    ReadDigits(t, found);
    var errors := Eat(found[|Digits(t, found)|..], " error").value;
    plural := Eat(errors, "s").Some?;
    var rest := if plural then errors[1..] else errors;
    assert errors == (if plural then "s" else "") + rest;
    if rest == "." {
      files := None;
    } else {
      var inner := AcceptedFiles(t, rest);
      files := Some(inner);
    }
  }
}
