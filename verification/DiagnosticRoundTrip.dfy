// Printing diagnostics as the compiler does, and the proof that the parser of
// crates/conformance/src/tsz_wrapper.rs undoes it.

module DiagnosticRoundTrip {
  import opened Wrappers
  import opened Text
  import opened Diagnostics
  import opened DiagnosticLaws

  // ------------------------------------------------------------- characters

  /** The characters that a Unicode-aware program takes for white space. */
  const SPACES: set<int> := {
    0x09, 0x0A, 0x0B, 0x0C, 0x0D, 0x20, 0x85, 0xA0, 0x1680, 0x2000, 0x2001, 0x2002, 0x2003, 0x2004, 0x2005,
    0x2006, 0x2007, 0x2008, 0x2009, 0x200A, 0x2028, 0x2029, 0x202F, 0x205F, 0x3000}

  predicate Spaces(s: string) {
    forall i :: 0 <= i < |s| ==> s[i] as int in SPACES
  }

  /** The ASCII characters that indent a line. */
  predicate Indents(c: char) {
    c in {' ', '\t', '\n', '\r', 12 as char}
  }

  /** A line that goes on with the message above it. */
  predicate GoesOn(line: string) {
    Spaces(line) || Indents(line[0])
  }

  lemma ContinuationExactly(line: string)
    ensures IsContinuation(line) <==> GoesOn(line)
  {
    assert forall c: char :: IsWhite(c) <==> c as int in SPACES;
  }

  // ----------------------------------------------------------------- one line

  /** How a diagnostic is written: its severity, what stands before a diagnostic without
      a place, the white space in it, and whether a space follows the code. */
  datatype Layout = Layout(kind: Kind, lead: Option<string>, gap: string, codeGap: string, space: bool)

  predicate LayoutOk(l: Layout) {
    && (l.lead.Some? ==> Spaces(l.lead.value))
    && l.gap != "" && Spaces(l.gap) && l.codeGap != "" && Spaces(l.codeGap)
  }

  /** Without the space the message must not begin with one. */
  predicate Separated(l: Layout, message: string) {
    l.space || message == "" || message[0] != ' '
  }

  function PrintMessage(l: Layout, message: string): string {
    (if l.space then " " else "") + message
  }

  function PrintCode(l: Layout, code: string, message: string): string {
    l.codeGap + ("TS" + (code + (":" + PrintMessage(l, message))))
  }

  function PrintTail(l: Layout, code: string, message: string): string {
    Word(l.kind) + PrintCode(l, code, message)
  }

  function PrintPlace(l: Layout, line: string, column: string, tail: string): string {
    line + ("," + (column + ("):" + (l.gap + tail))))
  }

  function PrintLead(lead: Option<string>): string {
    if lead.Some? then ":" + lead.value else ""
  }

  function PrintPrimary(l: Layout, d: Fingerprint): string {
    var tail := PrintTail(l, Decimal(d.code), d.message);
    if d.file == "" then PrintLead(l.lead) + tail
    else d.file + ("(" + PrintPlace(l, Decimal(d.line), Decimal(d.column), tail))
  }

  lemma EatConcat(word: string, rest: string)
    ensures Eat(word + rest, word) == Some(rest)
  {
    assert (word + rest)[|word|..] == rest;
  }

  /** A numeral is read up to the first character that is no digit. */
  lemma {:induction false} DigitsConcat(t: Transport, digits: string, rest: string)
    requires TransportOk(t)
    requires AllDigits(digits)
    requires rest != "" && rest[0] as int < 128 && !IsDigit(rest[0])
    ensures Digits(t, digits + rest) == digits
    ensures (digits + rest)[|digits|..] == rest
  {
    var s := digits + rest;
    if digits == "" {
      assert s == rest;
    } else {
      assert s[0] == digits[0] && digits[0] as int < 128;
      assert s[1..] == digits[1..] + rest;
      DigitsConcat(t, digits[1..], rest);
      assert digits == [digits[0]] + digits[1..];
    }
  }

  lemma {:induction false} SkipGap(gap: string, rest: string)
    requires Spaces(gap) && rest != "" && !IsWhite(rest[0])
    ensures SkipWhite(gap + rest) == rest
  {
    if gap == "" {
      assert gap + rest == rest;
    } else {
      assert (gap + rest)[1..] == gap[1..] + rest;
      assert gap[0] as int in SPACES;
      SkipGap(gap[1..], rest);
    }
  }

  lemma MessageParses(l: Layout, message: string)
    requires Separated(l, message)
    ensures var s := PrintMessage(l, message);
            message == if Eat(s, " ").Some? then Eat(s, " ").value else s
  {
    if l.space {
      EatConcat(" ", message);
    } else {
      assert "" + message == message;
    }
  }

  lemma CodeParses(t: Transport, l: Layout, code: string, message: string)
    requires TransportOk(t) && LayoutOk(l) && Separated(l, message) && code != "" && AllDigits(code)
    ensures CodeAndMessage(t, PrintCode(l, code, message)) == Some((code, message))
  {
    var text := PrintMessage(l, message);
    var rest := code + (":" + text);
    assert PrintCode(l, code, message) == l.codeGap + ("TS" + rest);
    SkipGap(l.codeGap, "TS" + rest);
    EatConcat("TS", rest);
    DigitsConcat(t, code, ":" + text);
    EatConcat(":", text);
    MessageParses(l, message);
  }

  lemma EatKindConcat(kind: Kind, rest: string)
    ensures EatKind(Word(kind) + rest) == Some(rest)
  {
    EatConcat(Word(kind), rest);
    var s := Word(kind) + rest;
    assert s[0] == Word(kind)[0];
  }

  lemma TailParses(t: Transport, l: Layout, code: string, message: string)
    requires TransportOk(t) && LayoutOk(l) && Separated(l, message) && code != "" && AllDigits(code)
    ensures Tail(t, PrintTail(l, code, message)) == Some((code, message))
  {
    EatKindConcat(l.kind, PrintCode(l, code, message));
    CodeParses(t, l, code, message);
  }

  predicate Numeral(s: string) {
    s != "" && AllDigits(s)
  }

  lemma GapIsSkipped(l: Layout, code: string, message: string)
    requires LayoutOk(l)
    ensures var tail := PrintTail(l, code, message);
            SkipWhite(l.gap + tail) == tail && SkipWhite(l.gap + tail) != l.gap + tail
  {
    var tail := PrintTail(l, code, message);
    assert tail[0] == Word(l.kind)[0];
    SkipGap(l.gap, tail);
    assert |l.gap + tail| > |tail|;
  }

  lemma PlaceParses(t: Transport, l: Layout, line: string, column: string, code: string, message: string)
    requires TransportOk(t) && LayoutOk(l) && Separated(l, message)
    requires Numeral(line) && Numeral(column) && Numeral(code)
    ensures LineAndColumn(t, PrintPlace(l, line, column, PrintTail(l, code, message)))
         == Some(Position(line, column, code, message))
  {
    var tail := PrintTail(l, code, message);
    var rest := column + ("):" + (l.gap + tail));
    DigitsConcat(t, line, "," + rest);
    EatConcat(",", rest);
    DigitsConcat(t, column, "):" + (l.gap + tail));
    EatConcat("):", l.gap + tail);
    GapIsSkipped(l, code, message);
    TailParses(t, l, code, message);
  }

  /** The fields fit their machine words, and a line without a place has no position. */
  predicate Fits(d: Fingerprint) {
    && d.code < 0x1_0000_0000 && d.line < 0x1_0000_0000 && d.column < 0x1_0000_0000
    && (d.file == "" ==> d.line == 0 && d.column == 0)
  }

  /** No earlier part of the line reads as the place of a diagnostic. */
  ghost predicate Unambiguous(t: Transport, l: Layout, d: Fingerprint) {
    var s := PrintPrimary(l, d);
    forall k :: 1 <= k < (if d.file == "" then |s| + 1 else |d.file|) ==> SuffixAt(t, s, k).None?
  }

  function Carried(t: Transport, d: Fingerprint): Fingerprint {
    d.(file := if d.file == "" then "" else t.path(d.file), message := t.message(d.message),
       continuations := [])
  }

  lemma NumberOfDecimal(n: nat, limit: nat)
    ensures Number(Decimal(n), limit) == if n < limit then Some(n) else None
  {
    DecimalRoundTrip(n);
  }

  lemma LeadIsEaten(lead: Option<string>, tail: string)
    requires lead.Some? ==> Spaces(lead.value)
    requires tail != "" && tail[0] != ':' && !IsWhite(tail[0])
    ensures var s := PrintLead(lead) + tail; (if Eat(s, ":").Some? then SkipWhite(s[1..]) else s) == tail
  {
    var s := PrintLead(lead) + tail;
    if lead.Some? {
      assert s == ":" + (lead.value + tail) && s[1..] == lead.value + tail;
      SkipGap(lead.value, tail);
    } else {
      assert s == tail;
    }
  }

  lemma CodeCarried(t: Transport, s: string, tail: string, d: Fingerprint)
    requires Fits(d) && d.file == "" && Tail(t, tail) == Some((Decimal(d.code), d.message))
    requires (if Eat(s, ":").Some? then SkipWhite(s[1..]) else s) == tail
    ensures WithoutPlace(t, s) == Some(Carried(t, d))
  {
    NumberOfDecimal(d.code, U32_LIMIT);
  }

  lemma PlacelessParses(t: Transport, l: Layout, d: Fingerprint)
    requires TransportOk(t) && Fits(d) && LayoutOk(l) && Separated(l, d.message)
    requires d.file == ""
    ensures WithoutPlace(t, PrintPrimary(l, d)) == Some(Carried(t, d))
  {
    var tail := PrintTail(l, Decimal(d.code), d.message);
    TailParses(t, l, Decimal(d.code), d.message);
    assert tail[0] == Word(l.kind)[0];
    LeadIsEaten(l.lead, tail);
    CodeCarried(t, PrintPrimary(l, d), tail, d);
  }

  lemma NumbersCarried(t: Transport, d: Fingerprint)
    requires Fits(d) && d.file != ""
    ensures WithPlace(t, d.file, Position(Decimal(d.line), Decimal(d.column), Decimal(d.code), d.message))
         == Some(Carried(t, d))
  {
    NumberOfDecimal(d.code, U32_LIMIT);
    NumberOfDecimal(d.line, U32_LIMIT);
    NumberOfDecimal(d.column, U32_LIMIT);
  }

  lemma PlacedParses(t: Transport, l: Layout, d: Fingerprint)
    requires TransportOk(t) && Fits(d) && LayoutOk(l) && Separated(l, d.message)
    requires d.file != ""
    ensures SuffixAt(t, PrintPrimary(l, d), |d.file|).Some?
    ensures WithPlace(t, d.file, SuffixAt(t, PrintPrimary(l, d), |d.file|).value) == Some(Carried(t, d))
    ensures PrintPrimary(l, d)[..|d.file|] == d.file
  {
    var s, tail := PrintPrimary(l, d), PrintTail(l, Decimal(d.code), d.message);
    assert s[|d.file|] == '(' && s[|d.file| + 1..] == PrintPlace(l, Decimal(d.line), Decimal(d.column), tail);
    PlaceParses(t, l, Decimal(d.line), Decimal(d.column), Decimal(d.code), d.message);
    NumbersCarried(t, d);
  }

  lemma FirstIsEarlier(found: nat -> bool, i: nat, n: nat, k: nat)
    requires i <= k <= n && found(k)
    ensures FirstAt(found, i, n).Some? && FirstAt(found, i, n).value <= k
  {
  }

  lemma FirstIsThere(found: nat -> bool, i: nat, n: nat, k: nat)
    requires i <= k <= n && found(k) && forall j :: i <= j < k ==> !found(j)
    ensures FirstAt(found, i, n) == Some(k)
  {
  }

  lemma {:induction false} FindsAt(t: Transport, s: string, i: nat)
    requires 1 <= i <= |s| && SuffixAt(t, s, i).Some?
    requires forall k :: 1 <= k < i ==> SuffixAt(t, s, k).None?
    ensures FindSuffix(t, s, 1) == Some(i)
  {
    FirstIsThere(PlaceAt(t, s), 1, |s|, i);
  }

  lemma {:induction false} FindsNothing(t: Transport, s: string)
    requires s != "" && forall k :: 1 <= k <= |s| ==> SuffixAt(t, s, k).None?
    ensures FindSuffix(t, s, 1) == None
  {
  }

  lemma ParseAtSuffix(t: Transport, s: string, i: nat)
    requires 1 <= i <= |s| && SuffixAt(t, s, i).Some?
    requires forall k :: 1 <= k < i ==> SuffixAt(t, s, k).None?
    ensures ParsePrimary(t, s) == WithPlace(t, s[..i], SuffixAt(t, s, i).value)
  {
    FindsAt(t, s, i);
  }

  lemma ParseWithoutSuffix(t: Transport, s: string)
    requires s != "" && forall k :: 1 <= k <= |s| ==> SuffixAt(t, s, k).None?
    ensures ParsePrimary(t, s) == WithoutPlace(t, s)
  {
    FindsNothing(t, s);
  }

  lemma PrimaryParses(t: Transport, l: Layout, d: Fingerprint)
    requires TransportOk(t) && Fits(d) && LayoutOk(l) && Separated(l, d.message) && Unambiguous(t, l, d)
    ensures ParsePrimary(t, PrintPrimary(l, d)) == Some(Carried(t, d))
  {
    var s := PrintPrimary(l, d);
    if d.file == "" {
      PlacelessParses(t, l, d);
      ParseWithoutSuffix(t, s);
    } else {
      PlacedParses(t, l, d);
      ParseAtSuffix(t, s, |d.file|);
    }
  }

  lemma {:induction false} FindsEarlier(t: Transport, s: string, k: nat)
    requires 1 <= k <= |s| && SuffixAt(t, s, k).Some?
    ensures FindSuffix(t, s, 1).Some? && FindSuffix(t, s, 1).value <= k
  {
    FirstIsEarlier(PlaceAt(t, s), 1, |s|, k);
  }

  lemma WithPlaceFile(t: Transport, file: string, p: Position)
    requires forall path :: t.path(path) == path
    ensures WithPlace(t, file, p).Some? ==> WithPlace(t, file, p).value.file == file
  {
  }

  /** A match at `k` gives the line a file name of at most `k` characters. */
  lemma EarlierMatchMisleads(t: Transport, s: string, k: nat)
    requires forall path :: t.path(path) == path
    requires 1 <= k <= |s| && FindSuffix(t, s, 1).Some? && FindSuffix(t, s, 1).value <= k
    ensures ParsePrimary(t, s).Some? ==> 1 <= |ParsePrimary(t, s).value.file| <= k
  {
    var i := FindSuffix(t, s, 1).value;
    WithPlaceFile(t, s[..i], SuffixAt(t, s, i).value);
    assert |s[..i]| == i;
  }

  /** With no project root to remove, a line parses back to its diagnostic exactly
      when no earlier part of it reads as a place. */
  lemma PrimaryRoundTrip(t: Transport, l: Layout, d: Fingerprint)
    requires TransportOk(t) && Fits(d) && d.continuations == [] && LayoutOk(l) && Separated(l, d.message)
    requires (forall path :: t.path(path) == path) && (forall text :: t.message(text) == text)
    ensures ParsePrimary(t, PrintPrimary(l, d)) == Some(d) <==> Unambiguous(t, l, d)
  {
    var s := PrintPrimary(l, d);
    if Unambiguous(t, l, d) {
      PrimaryParses(t, l, d);
    } else {
      var k :| 1 <= k < (if d.file == "" then |s| + 1 else |d.file|) && SuffixAt(t, s, k).Some?;
      FindsEarlier(t, s, k);
      EarlierMatchMisleads(t, s, k);
    }
  }

  /** A parenthesis is needed for ambiguity. */
  lemma NoParenthesisUnambiguous(t: Transport, l: Layout, d: Fingerprint)
    requires LayoutOk(l) && '(' !in d.file
    requires d.file == "" ==> '(' !in d.message
    ensures Unambiguous(t, l, d)
  {
    var s := PrintPrimary(l, d);
    if d.file == "" {
      NoParenthesisInTail(l, d.code, d.message);
      NoParenthesisInLead(l.lead);
      NotInParts('(', PrintLead(l.lead), PrintTail(l, Decimal(d.code), d.message));
      assert forall k :: 0 <= k < |s| ==> s[k] in s;
    } else {
      assert forall k :: 0 <= k < |d.file| ==> s[k] == d.file[k] && d.file[k] in d.file;
    }
  }

  lemma NoParenthesisInSpaces(s: string)
    requires Spaces(s)
    ensures '(' !in s
  {
  }

  lemma NoParenthesisInLead(lead: Option<string>)
    requires lead.Some? ==> Spaces(lead.value)
    ensures '(' !in PrintLead(lead)
  {
    if lead.Some? {
      NoParenthesisInSpaces(lead.value);
      NotInParts('(', ":", lead.value);
    }
  }

  lemma NoParenthesisInTail(l: Layout, code: nat, message: string)
    requires LayoutOk(l) && '(' !in message
    ensures '(' !in PrintTail(l, Decimal(code), message)
  {
    var text := PrintMessage(l, message);
    NoParenthesisInNumber(code);
    NoParenthesisInSpaces(l.codeGap);
    NotInParts('(', if l.space then " " else "", message);
    NotInParts('(', ":", text);
    NotInParts('(', Decimal(code), ":" + text);
    NotInParts('(', "TS", Decimal(code) + (":" + text));
    NotInParts('(', l.codeGap, "TS" + (Decimal(code) + (":" + text)));
    NotInParts('(', Word(l.kind), PrintCode(l, Decimal(code), message));
  }

  // ------------------------------------------------------------- the summary

  datatype Total = Total(count: nat, plural: bool, files: Option<(nat, bool)>)

  function PrintTotal(total: Total): string {
    "Found " + (Decimal(total.count) + (" error" + ((if total.plural then "s" else "") + PrintFiles(total.files))))
  }

  function PrintFiles(files: Option<(nat, bool)>): string {
    if files.None? then "."
    else " in " + (Decimal(files.value.0) + (if files.value.1 then " files." else " file."))
  }

  lemma FilesParse(t: Transport, files: Option<(nat, bool)>)
    requires TransportOk(t)
    ensures PrintFiles(files) == "." || InFiles(t, PrintFiles(files))
    ensures Eat(PrintFiles(files), "s").None?
  {
    if files.Some? {
      var last := if files.value.1 then " files." else " file.";
      EatConcat(" in ", Decimal(files.value.0) + last);
      DigitsConcat(t, Decimal(files.value.0), last);
      assert PrintFiles(files)[0] == ' ';
    }
  }

  lemma TotalParses(t: Transport, total: Total)
    requires TransportOk(t)
    ensures SummaryCount(t, PrintTotal(total)) == Some(Decimal(total.count))
  {
    var files := PrintFiles(total.files);
    var errors := (if total.plural then "s" else "") + files;
    FilesParse(t, total.files);
    EatConcat("Found ", Decimal(total.count) + (" error" + errors));
    DigitsConcat(t, Decimal(total.count), " error" + errors);
    EatConcat(" error", errors);
    if total.plural {
      EatConcat("s", files);
    } else {
      assert errors == files;
    }
  }

  /** A summary is neither a continuation nor a diagnostic. */
  lemma TotalIsNoDiagnostic(t: Transport, total: Total)
    requires TransportOk(t)
    ensures ParsePrimary(t, PrintTotal(total)) == None
    ensures !IsContinuation(PrintTotal(total))
  {
    var s := PrintTotal(total);
    assert s[0] == 'F';
    ContinuationExactly(s);
    forall k | 1 <= k <= |s|
      ensures SuffixAt(t, s, k).None?
    {
      if k < |s| {
        NoParenthesisInTotal(total, k);
      }
    }
    ParseWithoutSuffix(t, s);
    NoKindIsFound(t, s);
  }

  lemma NoKindIsFound(t: Transport, s: string)
    requires s != "" && s[0] == 'F'
    ensures WithoutPlace(t, s) == None
  {
  }

  lemma NotInParts(c: char, a: string, b: string)
    requires c !in a && c !in b
    ensures c !in a + b
  {
  }

  lemma NoParenthesisInNumber(n: nat)
    ensures '(' !in Decimal(n)
  {
    assert !IsDigit('(');
  }

  lemma NoParenthesisInFiles(files: Option<(nat, bool)>)
    ensures '(' !in PrintFiles(files)
  {
    if files.Some? {
      var last := if files.value.1 then " files." else " file.";
      NoParenthesisInNumber(files.value.0);
      NotInParts('(', Decimal(files.value.0), last);
      NotInParts('(', " in ", Decimal(files.value.0) + last);
    }
  }

  lemma NoParenthesisInTotal(total: Total, k: nat)
    requires k < |PrintTotal(total)|
    ensures PrintTotal(total)[k] != '('
  {
    var plural, files := if total.plural then "s" else "", PrintFiles(total.files);
    NoParenthesisInFiles(total.files);
    NoParenthesisInNumber(total.count);
    NotInParts('(', plural, files);
    NotInParts('(', " error", plural + files);
    NotInParts('(', Decimal(total.count), " error" + (plural + files));
    NotInParts('(', "Found ", Decimal(total.count) + (" error" + (plural + files)));
    assert PrintTotal(total)[k] in PrintTotal(total);
  }

  // ------------------------------------------------------------ whole outputs

  /** A diagnostic with its continuation lines. */
  datatype Block = Block(layout: Layout, d: Fingerprint)

  function BlockLines(b: Block): seq<string> {
    [PrintPrimary(b.layout, b.d)] + b.d.continuations
  }

  function DocumentLines(blocks: seq<Block>, total: Option<Total>): seq<string> {
    if blocks == [] then (if total.Some? then [PrintTotal(total.value)] else [])
    else BlockLines(blocks[0]) + DocumentLines(blocks[1..], total)
  }

  ghost predicate Printable(t: Transport, b: Block) {
    && Fits(b.d)
    && LayoutOk(b.layout) && Separated(b.layout, b.d.message)
    && Unambiguous(t, b.layout, b.d)
    && (b.d.file != "" ==> !Indents(b.d.file[0]))
    && forall i :: 0 <= i < |b.d.continuations| ==> GoesOn(b.d.continuations[i])
  }

  function MapMessages(t: Transport, lines: seq<string>): seq<string> {
    seq(|lines|, i requires 0 <= i < |lines| => t.message(lines[i]))
  }

  /** What is expected back of a block. */
  function Expected(t: Transport, b: Block): Fingerprint {
    Carried(t, b.d).(continuations := MapMessages(t, b.d.continuations))
  }

  function ExpectedAll(t: Transport, blocks: seq<Block>): seq<Fingerprint> {
    seq(|blocks|, i requires 0 <= i < |blocks| => Expected(t, blocks[i]))
  }

  lemma {:induction false} ScanAppend(r: Reader, scan: Scan, a: seq<string>, b: seq<string>)
    ensures ScanLines(r, scan, a + b) == ScanLines(r, ScanLines(r, scan, a), b)
  {
    if b == [] {
      assert a + b == a;
    } else {
      ScanAppend(r, scan, a, b[..|b| - 1]);
      assert (a + b)[..|a + b| - 1] == a + b[..|b| - 1];
    }
  }

  /** Continuation lines join the diagnostic above them. */
  lemma {:induction false} ScanContinuations(t: Transport, scan: Scan, lines: seq<string>)
    requires scan.current.Some? && scan.current.value.continuations == []
    requires forall i :: 0 <= i < |lines| ==> GoesOn(lines[i])
    ensures ScanLines(Patterns(t), scan, lines)
         == scan.(current := Some(scan.current.value.(continuations := MapMessages(t, lines))))
  {
    if lines == [] {
      assert MapMessages(t, lines) == [];
    } else {
      var front := lines[..|lines| - 1];
      ScanContinuations(t, scan, front);
      ContinuationExactly(lines[|lines| - 1]);
      assert MapMessages(t, lines) == MapMessages(t, front) + [t.message(lines[|lines| - 1])];
    }
  }

  lemma PrimaryLineIsNoContinuation(l: Layout, d: Fingerprint)
    requires d.file != "" ==> !Indents(d.file[0])
    ensures !IsContinuation(PrintPrimary(l, d))
  {
    var s := PrintPrimary(l, d);
    ContinuationExactly(s);
    if d.file == "" {
      assert s[0] == if l.lead.Some? then ':' else Word(l.kind)[0];
    } else {
      assert s[0] == d.file[0] && s[|d.file|] == '(';
    }
  }

  lemma ScanBlock(t: Transport, scan: Scan, b: Block)
    requires TransportOk(t) && Printable(t, b)
    ensures ScanLines(Patterns(t), scan, BlockLines(b))
         == scan.(codes := scan.codes + [b.d.code], done := Flush(scan), current := Some(Expected(t, b)))
  {
    var r, first := Patterns(t), PrintPrimary(b.layout, b.d);
    PrimaryLineIsNoContinuation(b.layout, b.d);
    PrimaryParses(t, b.layout, b.d);
    assert r.primary(first) == Some(Carried(t, b.d));
    assert [first][..0] == [];
    var next := ScanLine(r, scan, first);
    assert ScanLines(r, scan, [first]) == next;
    ScanAppend(r, scan, [first], b.d.continuations);
    ScanContinuations(t, next, b.d.continuations);
  }

  /** The state after the lines of a block. */
  function AfterBlock(t: Transport, scan: Scan, b: Block): Scan {
    scan.(codes := scan.codes + [b.d.code], done := Flush(scan), current := Some(Expected(t, b)))
  }

  function AfterBlocks(t: Transport, scan: Scan, blocks: seq<Block>): Scan
    decreases |blocks|
  {
    if blocks == [] then scan else AfterBlocks(t, AfterBlock(t, scan, blocks[0]), blocks[1..])
  }

  lemma DocumentStep(t: Transport, scan: Scan, blocks: seq<Block>)
    requires TransportOk(t)
    requires blocks != [] && Printable(t, blocks[0])
    ensures ScanLines(Patterns(t), scan, DocumentLines(blocks, None)) ==
            ScanLines(Patterns(t), AfterBlock(t, scan, blocks[0]), DocumentLines(blocks[1..], None))
  {
    ScanBlock(t, scan, blocks[0]);
    ScanAppend(Patterns(t), scan, BlockLines(blocks[0]), DocumentLines(blocks[1..], None));
  }

  /** Reading a printed document leads through the states after its blocks. */
  lemma {:induction false} ScanDocument(t: Transport, scan: Scan, blocks: seq<Block>)
    requires TransportOk(t)
    requires forall i :: 0 <= i < |blocks| ==> Printable(t, blocks[i])
    ensures ScanLines(Patterns(t), scan, DocumentLines(blocks, None)) == AfterBlocks(t, scan, blocks)
    decreases |blocks|
  {
    if blocks != [] {
      DocumentStep(t, scan, blocks);
      ScanDocument(t, AfterBlock(t, scan, blocks[0]), blocks[1..]);
    }
  }

  lemma ExpectedCons(t: Transport, blocks: seq<Block>)
    requires blocks != []
    ensures ExpectedAll(t, blocks) == [Expected(t, blocks[0])] + ExpectedAll(t, blocks[1..])
  {
  }

  lemma {:induction false} BlocksAdd(t: Transport, scan: Scan, blocks: seq<Block>)
    ensures var end := AfterBlocks(t, scan, blocks);
            && Flush(end) == Flush(scan) + ExpectedAll(t, blocks)
            && end.covered == scan.covered && end.summary == scan.summary
    decreases |blocks|
  {
    if blocks == [] {
      assert ExpectedAll(t, blocks) == [];
    } else {
      BlocksAdd(t, AfterBlock(t, scan, blocks[0]), blocks[1..]);
      ExpectedCons(t, blocks);
      assert Flush(scan) + [Expected(t, blocks[0])] + ExpectedAll(t, blocks[1..]) == Flush(scan) + ExpectedAll(t, blocks);
    }
  }

  lemma {:induction false} DocumentSplit(blocks: seq<Block>, total: Total)
    ensures DocumentLines(blocks, Some(total)) == DocumentLines(blocks, None) + [PrintTotal(total)]
  {
    if blocks != [] {
      DocumentSplit(blocks[1..], total);
    }
  }

  lemma ScanTotal(t: Transport, scan: Scan, total: Total)
    requires TransportOk(t)
    requires scan.summary.None?
    ensures var next := ScanLine(Patterns(t), scan, PrintTotal(total));
            && Flush(next) == Flush(scan)
            && next.covered == (scan.covered && total.count < USIZE_LIMIT)
            && next.summary == Some(if total.count < USIZE_LIMIT then Some(total.count) else None)
  {
    TotalIsNoDiagnostic(t, total);
    TotalParses(t, total);
    NumberOfDecimal(total.count, USIZE_LIMIT);
    var r, line := Patterns(t), PrintTotal(total);
    assert r.primary(line) == None && r.summary(line) == Some(Decimal(total.count));
  }

  function WithTotal(lines: seq<string>, total: Option<Total>): seq<string> {
    if total.Some? then lines + [PrintTotal(total.value)] else lines
  }

  /** What lines and a summary come to, by the state after the lines. */
  lemma FinishLines(t: Transport, lines: seq<string>, end: Scan, total: Option<Total>)
    requires TransportOk(t) && ScanLines(Patterns(t), EMPTY_SCAN, lines) == end
    requires end.summary.None? && end.covered
    ensures var parsed := Finish(ScanLines(Patterns(t), EMPTY_SCAN, WithTotal(lines, total)));
            && parsed.fingerprints == Flush(end)
            && (parsed.covered <==> total.None? || (total.value.count == |Flush(end)| && total.value.count < USIZE_LIMIT))
  {
    if total.Some? {
      LastLineScanned(Patterns(t), lines, PrintTotal(total.value));
      FinishTotal(t, end, total.value);
    }
  }

  lemma {:induction false} DocumentWithTotal(blocks: seq<Block>, total: Option<Total>)
    ensures DocumentLines(blocks, total) == WithTotal(DocumentLines(blocks, None), total)
  {
    if total.Some? {
      DocumentSplit(blocks, total.value);
    }
  }

  lemma AllRead(t: Transport, blocks: seq<Block>)
    ensures var end := AfterBlocks(t, EMPTY_SCAN, blocks);
            Flush(end) == ExpectedAll(t, blocks) && end.summary.None? && end.covered
  {
    BlocksAdd(t, EMPTY_SCAN, blocks);
    assert [] + ExpectedAll(t, blocks) == ExpectedAll(t, blocks);
  }

  lemma ParsePrintedLines(t: Transport, blocks: seq<Block>, total: Option<Total>)
    requires TransportOk(t)
    requires forall i :: 0 <= i < |blocks| ==> Printable(t, blocks[i])
    ensures var parsed := Finish(ScanLines(Patterns(t), EMPTY_SCAN, DocumentLines(blocks, total)));
            && parsed.fingerprints == ExpectedAll(t, blocks)
            && (parsed.covered <==>
                  total.None? || (total.value.count == |blocks| && |blocks| < USIZE_LIMIT))
  {
    var lines, end := DocumentLines(blocks, None), AfterBlocks(t, EMPTY_SCAN, blocks);
    ScanDocument(t, EMPTY_SCAN, blocks);
    AllRead(t, blocks);
    DocumentWithTotal(blocks, total);
    FinishLines(t, lines, end, total);
  }

  lemma FinishTotal(t: Transport, scan: Scan, total: Total)
    requires TransportOk(t) && scan.summary.None? && scan.covered
    ensures var parsed := Finish(ScanLine(Patterns(t), scan, PrintTotal(total)));
            && parsed.fingerprints == Flush(scan)
            && (parsed.covered <==> total.count == |Flush(scan)| && total.count < USIZE_LIMIT)
  {
    ScanTotal(t, scan, total);
  }

  lemma LastLineScanned(r: Reader, lines: seq<string>, last: string)
    ensures ScanLines(r, EMPTY_SCAN, lines + [last]) == ScanLine(r, ScanLines(r, EMPTY_SCAN, lines), last)
  {
    assert (lines + [last])[..|lines|] == lines;
  }

  // -------------------------------------------------------- lines of a text

  /** A terminated line; `carriage` asks for CRLF. */
  datatype Terminated = Terminated(line: string, carriage: bool)

  function Join(lines: seq<Terminated>, last: string): string {
    if lines == [] then last
    else lines[0].line + (if lines[0].carriage then "\r\n" else "\n") + Join(lines[1..], last)
  }

  predicate Whole(line: Terminated) {
    '\n' !in line.line && (line.carriage || line.line == "" || line.line[|line.line| - 1] != '\r')
  }

  function Unterminated(lines: seq<Terminated>, last: string): seq<string> {
    seq(|lines|, i requires 0 <= i < |lines| => lines[i].line) + (if last == "" then [] else [last])
  }

  lemma {:induction false} LineEndAt(text: string, n: nat)
    requires 0 < n <= |text|
    requires forall i :: 0 <= i < n - 1 ==> text[i] != '\n'
    requires text[n - 1] == '\n' || n == |text|
    ensures LineEnd(text) == n
  {
    if n > 1 {
      LineEndAt(text[1..], n - 1);
    }
  }

  /** A line loses its end. */
  lemma EndStripped(line: Terminated)
    requires Whole(line)
    ensures StripEnd(line.line + (if line.carriage then "\r\n" else "\n")) == line.line
  {
    if line.carriage {
      var piece := line.line + "\r\n";
      assert piece[..|piece| - 1] == line.line + "\r";
      assert (line.line + "\r")[..|line.line|] == line.line;
    } else {
      var piece := line.line + "\n";
      assert piece[..|piece| - 1] == line.line;
    }
  }

  /** A text is cut behind its first line feed. */
  lemma CutFirst(line: string, end: string, rest: string)
    requires '\n' !in line && (end == "\r\n" || end == "\n")
    ensures SplitInclusive(line + end + rest) == [line + end] + SplitInclusive(rest)
  {
    var piece := line + end;
    var text := piece + rest;
    assert piece[|piece| - 1] == '\n';
    assert forall i :: 0 <= i < |line| ==> text[i] == line[i];
    LineEndAt(text, |piece|);
    assert text[..|piece|] == piece && text[|piece|..] == rest;
  }

  lemma FirstOfLines(piece: string, rest: string)
    requires SplitInclusive(piece + rest) == [piece] + SplitInclusive(rest)
    ensures Lines(piece + rest) == [StripEnd(piece)] + Lines(rest)
  {
  }

  lemma FirstLine(line: Terminated, rest: string)
    requires Whole(line)
    ensures var end := if line.carriage then "\r\n" else "\n";
            && Lines(line.line + end + rest) == [line.line] + Lines(rest)
  {
    var end := if line.carriage then "\r\n" else "\n";
    EndStripped(line);
    CutFirst(line.line, end, rest);
    FirstOfLines(line.line + end, rest);
  }

  lemma LastLine(last: string)
    requires '\n' !in last && last != ""
    ensures Lines(last) == [last]
  {
    LineEndAt(last, |last|);
    assert last[..|last|] == last && last[|last|..] == "";
    assert SplitInclusive(last) == [last];
    assert last[|last| - 1] in last;
  }

  /** The line iterator recovers the lines of a text, whichever ends they have. */
  lemma {:induction false} LinesOfText(lines: seq<Terminated>, last: string)
    requires forall i :: 0 <= i < |lines| ==> Whole(lines[i])
    requires '\n' !in last
    ensures Lines(Join(lines, last)) == Unterminated(lines, last)
  {
    if lines == [] {
      if last != "" {
        LastLine(last);
      }
    } else {
      FirstLine(lines[0], Join(lines[1..], last));
      LinesOfText(lines[1..], last);
      assert Unterminated(lines, last) == [lines[0].line] + Unterminated(lines[1..], last);
    }
  }

  /** Parsing undoes printing: whatever line ends the transport used, the output of
      the compiler parses back to its diagnostics, and it is fully covered exactly
      when the summary, if there is one, counts them right. */
  lemma ParseUndoesPrint(
      t: Transport, blocks: seq<Block>, total: Option<Total>, lines: seq<Terminated>, last: string)
    requires TransportOk(t)
    requires forall i :: 0 <= i < |blocks| ==> Printable(t, blocks[i])
    requires forall i :: 0 <= i < |lines| ==> Whole(lines[i])
    requires '\n' !in last
    requires Unterminated(lines, last) == DocumentLines(blocks, total)
    ensures var parsed := Parse(Patterns(t), Join(lines, last));
            && parsed.fingerprints == ExpectedAll(t, blocks)
            && parsed.codes == CodesOf(ExpectedAll(t, blocks))
            && (parsed.covered <==>
                  total.None? || (total.value.count == |blocks| && |blocks| < 0x1_0000_0000_0000_0000))
  {
    LinesOfText(lines, last);
    ParsePrintedLines(t, blocks, total);
    ParseAligned(Patterns(t), Join(lines, last));
  }
}
