// The compiler-output parser of crates/conformance/src/tsz_wrapper.rs: the two
// diagnostic patterns, the summary pattern and the line state machine.

module Diagnostics {
  import opened Wrappers
  import opened Text

  datatype Fingerprint = Fingerprint(
    code: nat, file: string, line: nat, column: nat, message: string, continuations: seq<string>)

  /** What depends on the invocation or on a Unicode version: the removal of the
      temporary project root from paths and messages, and the decimal digits. */
  datatype Transport = Transport(path: string -> string, message: string -> string, digit: char -> bool)

  ghost predicate TransportOk(t: Transport) {
    forall c: char :: c as int < 128 ==> (t.digit(c) <==> IsDigit(c))
  }

  const U32_LIMIT: nat := 0x1_0000_0000
  const USIZE_LIMIT: nat := 0x1_0000_0000_0000_0000

  predicate IsWhite(c: char) {
    var n := c as int;
    || 9 <= n <= 13 || n == 32 || n == 0x85 || n == 0xA0 || n == 0x1680 || 0x2000 <= n <= 0x200A
    || n == 0x2028 || n == 0x2029 || n == 0x202F || n == 0x205F || n == 0x3000
  }

  predicate IsAsciiWhite(c: char) {
    c == ' ' || c == '\t' || c == '\n' || c == '\r' || c as int == 12
  }

  // ---------------------------------------------------------------- patterns

  /** What follows `word` at the front of `s`. */
  function Eat(s: string, word: string): (rest: Option<string>)
    ensures rest.Some? ==> s == word + rest.value
  {
    if word <= s then Some(s[|word|..]) else None
  }

  /** The digits at the front of `s`. */
  function Digits(t: Transport, s: string): (digits: string)
    ensures digits <= s
  {
    if s != "" && t.digit(s[0]) then [s[0]] + Digits(t, s[1..]) else ""
  }

  function SkipWhite(s: string): (rest: string)
    ensures |rest| <= |s|
  {
    if s != "" && IsWhite(s[0]) then SkipWhite(s[1..]) else s
  }

  /** Severity words of a diagnostic line. */
  datatype Kind = Error | Warning | Suggestion | Message

  function Word(kind: Kind): string {
    match kind
    case Error => "error"
    case Warning => "warning"
    case Suggestion => "suggestion"
    case Message => "message"
  }

  /** What follows the severity word at the front of `s`. */
  function EatKind(s: string): Option<string> {
    if Eat(s, "error").Some? then Eat(s, "error")
    else if Eat(s, "warning").Some? then Eat(s, "warning")
    else if Eat(s, "suggestion").Some? then Eat(s, "suggestion")
    else Eat(s, "message")
  }

  /** The pattern `\s+TS(\d+): ?(.*)$`: the code's digits and the message. */
  function CodeAndMessage(t: Transport, s: string): Option<(string, string)> {
    var rest := Eat(SkipWhite(s), "TS");
    if rest.None? || SkipWhite(s) == s then None else
    var code := Digits(t, rest.value);
    var message := Eat(rest.value[|code|..], ":");
    if code == "" || message.None? then None
    else if Eat(message.value, " ").Some? then Some((code, Eat(message.value, " ").value))
    else Some((code, message.value))
  }

  /** The pattern `KIND\s+TS(\d+): ?(.*)$`. */
  function Tail(t: Transport, s: string): Option<(string, string)> {
    var rest := EatKind(s);
    if rest.None? then None else CodeAndMessage(t, rest.value)
  }

  datatype Position = Position(line: string, column: string, code: string, message: string)

  /** The pattern `(\d+),(\d+)\):\s+` and then the tail. */
  function LineAndColumn(t: Transport, s: string): Option<Position> {
    var line := Digits(t, s);
    var afterLine := Eat(s[|line|..], ",");
    if line == "" || afterLine.None? then None else
    var column := Digits(t, afterLine.value);
    var rest := Eat(afterLine.value[|column|..], "):");
    if column == "" || rest.None? || SkipWhite(rest.value) == rest.value then None else
    var tail := Tail(t, SkipWhite(rest.value));
    if tail.None? then None else Some(Position(line, column, tail.value.0, tail.value.1))
  }

  /** The pattern `\((\d+),(\d+)\):\s+` and then the tail, at position `i`. */
  function SuffixAt(t: Transport, s: string, i: nat): Option<Position>
    requires i <= |s|
  {
    if i < |s| && s[i] == '(' then LineAndColumn(t, s[i + 1..]) else None
  }

  /** The first index from `i` to `n` with a property. */
  function FirstAt(found: nat -> bool, i: nat, n: nat): (r: Option<nat>)
    ensures r.Some? ==> i <= r.value <= n && found(r.value)
    ensures forall k :: i <= k < (if r.Some? then r.value else n + 1) ==> !found(k)
    decreases n + 1 - i
  {
    if i > n then None else if found(i) then Some(i) else FirstAt(found, i + 1, n)
  }

  function PlaceAt(t: Transport, s: string): nat -> bool {
    (k: nat) => k <= |s| && SuffixAt(t, s, k).Some?
  }

  /** The lazy search for the end of the file name: the first suffix from `i` on. */
  function FindSuffix(t: Transport, s: string, i: nat): (r: Option<nat>)
    ensures r.Some? ==> i <= r.value <= |s| && SuffixAt(t, s, r.value).Some?
  {
    FirstAt(PlaceAt(t, s), i, |s|)
  }

  /** A numeral of ASCII digits below `limit`. */
  function Number(s: string, limit: nat): Option<nat> {
    if s != "" && AllDigits(s) && DecimalValue(s) < limit then Some(DecimalValue(s)) else None
  }

  function WithPlace(t: Transport, file: string, p: Position): Option<Fingerprint> {
    var code, line, column :=
      Number(p.code, U32_LIMIT), Number(p.line, U32_LIMIT), Number(p.column, U32_LIMIT);
    if code.None? || line.None? || column.None? then None
    else Some(Fingerprint(code.value, t.path(file), line.value, column.value, t.message(p.message), []))
  }

  function WithoutPlace(t: Transport, s: string): Option<Fingerprint> {
    var tail := Tail(t, if Eat(s, ":").Some? then SkipWhite(s[1..]) else s);
    if tail.None? || Number(tail.value.0, U32_LIMIT).None? then None
    else Some(Fingerprint(Number(tail.value.0, U32_LIMIT).value, "", 0, 0, t.message(tail.value.1), []))
  }

  /** A line that matches the first pattern but overflows is no diagnostic: the second
      pattern is not tried. */
  function ParsePrimary(t: Transport, s: string): Option<Fingerprint> {
    var found := if s == "" then None else FindSuffix(t, s, 1);
    if found.Some? then WithPlace(t, s[..found.value], SuffixAt(t, s, found.value).value)
    else WithoutPlace(t, s)
  }

  /** The pattern `^Found (\d+) errors?(?: in \d+ files?)?\.$`: the count's digits. */
  function SummaryCount(t: Transport, s: string): Option<string> {
    var found := Eat(s, "Found ");
    if found.None? then None else
    var count := Digits(t, found.value);
    var errors := Eat(found.value[|count|..], " error");
    if count == "" || errors.None? then None else
    var rest := if Eat(errors.value, "s").Some? then errors.value[1..] else errors.value;
    if rest == "." || InFiles(t, rest) then Some(count) else None
  }

  /** The pattern ` in \d+ files?\.$`. */
  predicate InFiles(t: Transport, s: string) {
    var files := Eat(s, " in ");
    && files.Some?
    && var digits := Digits(t, files.value);
       var rest := files.value[|digits|..];
       digits != "" && (rest == " file." || rest == " files.")
  }

  // ------------------------------------------------------------------- lines

  /** Pieces of the text, each ending in its line feed but perhaps the last. */
  function SplitInclusive(text: string): seq<string> {
    if text == "" then []
    else
      var n := LineEnd(text);
      [text[..n]] + SplitInclusive(text[n..])
  }

  function LineEnd(text: string): (n: nat)
    requires text != ""
    ensures 0 < n <= |text|
    ensures forall i :: 0 <= i < n - 1 ==> text[i] != '\n'
    ensures text[n - 1] == '\n' || n == |text|
  {
    if text[0] == '\n' || |text| == 1 then 1 else 1 + LineEnd(text[1..])
  }

  /** Drops a line feed, and a carriage return before it. */
  function StripEnd(piece: string): string {
    if piece == "" || piece[|piece| - 1] != '\n' then piece
    else
      var line := piece[..|piece| - 1];
      if line != "" && line[|line| - 1] == '\r' then line[..|line| - 1] else line
  }

  predicate IsContinuation(line: string) {
    || (forall i :: 0 <= i < |line| ==> IsWhite(line[i]))
    || IsAsciiWhite(line[0])
  }

  // ----------------------------------------------------------- state machine

  /** How a line is read: as a diagnostic, as a summary, as text of a message. */
  datatype Reader = Reader(
    primary: string -> Option<Fingerprint>, summary: string -> Option<string>, message: string -> string)

  function Patterns(t: Transport): Reader {
    Reader(s => ParsePrimary(t, s), s => SummaryCount(t, s), t.message)
  }

  /** The parser's variables. `summary` is the count of the last summary line, if
      any, and that count is absent when it does not fit the machine word. */
  datatype Scan = Scan(
    codes: seq<nat>, done: seq<Fingerprint>, current: Option<Fingerprint>,
    covered: bool, summary: Option<Option<nat>>)

  const EMPTY_SCAN := Scan([], [], None, true, None)

  function Flush(scan: Scan): seq<Fingerprint> {
    if scan.current.Some? then scan.done + [scan.current.value] else scan.done
  }

  function ScanLine(r: Reader, scan: Scan, line: string): Scan {
    if IsContinuation(line) then
      if scan.current.Some? then
        var f := scan.current.value;
        scan.(current := Some(f.(continuations := f.continuations + [r.message(line)])))
      else scan.(covered := false)
    else
      var primary := r.primary(line);
      if primary.Some? then
        scan.(codes := scan.codes + [primary.value.code], done := Flush(scan), current := primary)
      else
        var flushed := scan.(done := Flush(scan), current := None);
        var count := r.summary(line);
        if count.None? then flushed.(covered := false)
        else
          var observed := Number(count.value, USIZE_LIMIT);
          flushed.(summary := Some(observed),
                   covered := scan.covered && scan.summary.None? && observed.Some?)
  }

  datatype Parsed = Parsed(codes: seq<nat>, fingerprints: seq<Fingerprint>, covered: bool)

  function Finish(scan: Scan): Parsed {
    var fingerprints := Flush(scan);
    var miscounted :=
      scan.summary.Some? && scan.summary.value.Some? && scan.summary.value.value != |fingerprints|;
    Parsed(scan.codes, fingerprints, scan.covered && !miscounted)
  }

  function ScanLines(r: Reader, scan: Scan, lines: seq<string>): Scan {
    if lines == [] then scan
    else ScanLine(r, ScanLines(r, scan, lines[..|lines| - 1]), lines[|lines| - 1])
  }

  function Lines(text: string): seq<string> {
    var pieces := SplitInclusive(text);
    seq(|pieces|, i requires 0 <= i < |pieces| => StripEnd(pieces[i]))
  }

  function Parse(r: Reader, text: string): Parsed {
    Finish(ScanLines(r, EMPTY_SCAN, Lines(text)))
  }

  lemma ScanNext(r: Reader, lines: seq<string>, i: nat)
    requires i < |lines|
    ensures ScanLines(r, EMPTY_SCAN, lines[..i + 1]) == ScanLine(r, ScanLines(r, EMPTY_SCAN, lines[..i]), lines[i])
  {
    assert lines[..i + 1][..i] == lines[..i];
  }

  /** The loop of the source, with its separate variables. */
  method ParseDiagnosticOutput(r: Reader, text: string) returns (parsed: Parsed)
    ensures parsed == Parse(r, text)
  {
    var codes: seq<nat> := [];
    var fingerprints: seq<Fingerprint> := [];
    var current: Option<Fingerprint> := None;
    var covered := true;
    var summary: Option<Option<nat>> := None;
    var pieces := SplitInclusive(text);
    ghost var lines := Lines(text);
    for i := 0 to |pieces|
      invariant Scan(codes, fingerprints, current, covered, summary) == ScanLines(r, EMPTY_SCAN, lines[..i])
    {
      var line := StripEnd(pieces[i]);
      assert line == lines[i];
      ScanNext(r, lines, i);
      if (forall k :: 0 <= k < |line| ==> IsWhite(line[k])) || IsAsciiWhite(line[0]) {
        if current.Some? {
          current := Some(current.value.(continuations := current.value.continuations + [r.message(line)]));
        } else {
          covered := false;
        }
        continue;
      }
      var primary := r.primary(line);
      if primary.Some? {
        codes := codes + [primary.value.code];
        if current.Some? {
          fingerprints := fingerprints + [current.value];
        }
        current := primary;
        continue;
      }
      if current.Some? {
        fingerprints := fingerprints + [current.value];
        current := None;
      }
      var count := r.summary(line);
      if count.Some? {
        var observed := Number(count.value, USIZE_LIMIT);
        if summary.Some? || observed.None? {
          covered := false;
        }
        summary := Some(observed);
      } else {
        covered := false;
      }
    }
    assert lines[..|pieces|] == lines;
    if current.Some? {
      fingerprints := fingerprints + [current.value];
    }
    if summary.Some? && summary.value.Some? && summary.value.value != |fingerprints| {
      covered := false;
    }
    return Parsed(codes, fingerprints, covered);
  }
}
