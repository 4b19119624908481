// Rows and documents of an emit artifact by the texts in their JSON: what
// scripts/ci/check-emit-regression-set.py accepts, reads and compares.

module EmitForms {
  import opened Wrappers
  import opened Subsequence
  import opened EmitRows
  import opened EmitPayload
  import opened EmitGate

  // ------------------------------------------------------------------- statuses

  /** How a status is written. */
  function NameOf(s: Status): string {
    match s
    case Complete => "complete"
    case Crash => "crash"
    case Failing => "fail"
    case Incomplete => "incomplete"
    case Pass => "pass"
    case Skip => "skip"
    case Timeout => "timeout"
    case Unsupported => "unsupported"
  }

  lemma NamesDiffer(a: Status, b: Status)
    ensures NameOf(a) == NameOf(b) ==> a == b
  {
    assert NameOf(a)[0] == NameOf(b)[0] ==> a == b || {a, b} == {Complete, Crash} by {
      match a
      case Complete => case Crash => case Failing => case Incomplete =>
      case Pass => case Skip => case Timeout => case Unsupported =>
    }
    assert "complete"[1] != "crash"[1];
  }

  /** Reading undoes writing, and nothing else is read as a status. */
  lemma StatusesRead(v: Json, s: Status)
    ensures StatusOf(v) == Some(s) <==> v == JStr(NameOf(s))
  {
    if v.JStr? && StatusOf(v).Some? {
      assert v.text == NameOf(StatusOf(v).value);
      NamesDiffer(StatusOf(v).value, s);
    }
    if v == JStr(NameOf(s)) {
      assert StatusOf(v).Some? && v.text == NameOf(StatusOf(v).value);
      NamesDiffer(StatusOf(v).value, s);
    }
  }

  /** The moves of an artifact that are no regression, besides staying as it is. */
  const ARTIFACT_MOVES: set<(string, string)> := {
    ("crash", "complete"), ("incomplete", "complete"), ("timeout", "complete"), ("unsupported", "complete"),
    ("crash", "incomplete"), ("timeout", "incomplete"), ("unsupported", "incomplete"),
    ("crash", "unsupported"), ("timeout", "unsupported")}

  /** The moves of a product that are no regression, besides staying as it is. */
  const PRODUCT_MOVES: set<(string, string)> := {
    ("crash", "pass"), ("fail", "pass"), ("incomplete", "pass"), ("skip", "pass"), ("timeout", "pass"),
    ("unsupported", "pass"), ("crash", "fail"), ("timeout", "fail"), ("crash", "unsupported"),
    ("timeout", "unsupported"), ("skip", "unsupported"), ("crash", "incomplete"), ("timeout", "incomplete"),
    ("skip", "incomplete"), ("unsupported", "incomplete")}

  function MovesOf(kind: Kind): set<(string, string)> {
    if kind == Artifact then ARTIFACT_MOVES else PRODUCT_MOVES
  }

  lemma MovesListed(kind: Kind, a: Status, b: Status)
    requires InDomain(kind, a) && InDomain(kind, b)
    ensures IsStatusRegression(kind, a, b) <==> a != b && (NameOf(a), NameOf(b)) !in MovesOf(kind)
  {
    StatusOrder(kind, a, b, b);
    match a
    case Complete => case Crash => case Failing => case Incomplete =>
    case Pass => case Skip => case Timeout => case Unsupported =>
  }

  /** The text of a status in a row. */
  function TextAt(row: Row, kind: Kind): Json {
    match kind
    case Artifact => Get(row, "artifactState")
    case Product(JS) => Get(row, "jsStatus")
    case Product(DTS) => Get(row, "dtsStatus")
  }

  lemma FieldNames()
    ensures Field(JS, "Status") == "jsStatus" && Field(DTS, "Status") == "dtsStatus"
    ensures Field(JS, "Selected") == "jsSelected" && Field(DTS, "Selected") == "dtsSelected"
    ensures Field(JS, "Match") == "jsMatch" && Field(DTS, "Match") == "dtsMatch"
    ensures Field(JS, "ProductMatch") == "jsProductMatch" && Field(DTS, "ProductMatch") == "dtsProductMatch"
    ensures Field(JS, "ProductError") == "jsProductError" && Field(DTS, "ProductError") == "dtsProductError"
    ensures Field(JS, "Error") == "jsError" && Field(DTS, "Error") == "dtsError"
  {
  }

  lemma StatusText(value: Json, kind: Kind)
    requires RowOk(value)
    ensures InDomain(kind, StatusAt(ViewOf(value), kind))
    ensures TextAt(value.fields, kind) == JStr(NameOf(StatusAt(ViewOf(value), kind)))
  {
    FieldNames();
    StatusesRead(TextAt(value.fields, kind), StatusAt(ViewOf(value), kind));
    assert kind == Artifact || kind == Product(JS) || kind == Product(DTS);
  }

  /** Between valid rows a status regresses exactly when its text changes and the change
      is not among the listed moves. */
  lemma RowMoves(before: Json, after: Json, kind: Kind)
    requires RowOk(before) && RowOk(after)
    ensures var a, b := TextAt(before.fields, kind), TextAt(after.fields, kind);
            && a.JStr? && b.JStr?
            && (IsStatusRegression(kind, StatusAt(ViewOf(before), kind), StatusAt(ViewOf(after), kind)) <==>
                  a != b && (a.text, b.text) !in MovesOf(kind))
  {
    var x, y := StatusAt(ViewOf(before), kind), StatusAt(ViewOf(after), kind);
    StatusText(before, kind);
    StatusText(after, kind);
    MovesListed(kind, x, y);
    NamesDiffer(x, y);
  }

  // ----------------------------------------------------------------- valid rows

  predicate HasText(row: Row, field: string) {
    Get(row, field).JStr? && Get(row, field).text != ""
  }

  /** The status a surface must have, by its selection and the state of the artifact. */
  predicate StatusFits(state: string, selected: bool, status: string) {
    if !selected then status == "skip"
    else if state == "complete" then status == "pass" || status == "fail"
    else status == state
  }

  predicate SurfaceValid(row: Row, state: string, status: string, selected: string) {
    && (selected in row ==> row[selected].JBool?)
    && StatusFits(state, if selected in row then row[selected].flag else status != "skip", status)
  }

  /** The parity fields of one surface. */
  predicate ParityValid(row: Row, state: string, selected: bool, effective: string, product: string, error: string) {
    && effective in row && product in row
    && var raw, text := row[product], Get(row, error);
       && (selected ==> && (raw.JNull? || raw.JBool?) && (state == "complete" ==> raw.JBool?)
                        && row[effective] == JBool(Get(row, "outcomeMatch") == JBool(true) && raw == JBool(true)))
       && (!selected ==> raw.JNull? && row[effective].JNull?)
       && (if raw == JBool(false) then text.JStr? && text.text != "" else text.JNull?)
  }

  predicate ErrorValid(row: Row, status: string, error: string) {
    && (status == "pass" || status == "skip" ==> Get(row, error).JNull?)
    && TszDiagnostics(Get(row, error)).Ok?
  }

  /** A row as the schema asks for it. */
  predicate RowValid(row: Row) {
    && HasText(row, "testPath") && HasText(row, "baselineFile") && HasText(row, "name")
    && HasText(row, "artifactState") && HasText(row, "jsStatus") && HasText(row, "dtsStatus")
    && var state, js, dts := row["artifactState"].text, row["jsStatus"].text, row["dtsStatus"].text;
       && state in {"complete", "crash", "incomplete", "timeout", "unsupported"}
       && js in {"crash", "fail", "incomplete", "pass", "skip", "timeout", "unsupported"}
       && dts in {"crash", "fail", "incomplete", "pass", "skip", "timeout", "unsupported"}
       && SurfaceValid(row, state, js, "jsSelected") && SurfaceValid(row, state, dts, "dtsSelected")
       && ("jsSelected" in row || "dtsSelected" in row ==> SelectionValid(row, state))
       && ErrorValid(row, js, "jsError") && ErrorValid(row, dts, "dtsError")
  }

  predicate SelectionValid(row: Row, state: string) {
    && "jsSelected" in row && "dtsSelected" in row && "outcomeMatch" in row
    && (row["outcomeMatch"].JNull? || row["outcomeMatch"].JBool?)
    && (state == "complete" ==> row["outcomeMatch"].JBool?)
    && ParityValid(row, state, row["jsSelected"] == JBool(true), "jsMatch", "jsProductMatch", "jsProductError")
    && ParityValid(row, state, row["dtsSelected"] == JBool(true), "dtsMatch", "dtsProductMatch", "dtsProductError")
  }

  lemma KnownNames(text: string)
    ensures text in {"complete", "crash", "incomplete", "timeout", "unsupported"} <==>
            StatusOf(JStr(text)).Some? && StatusOf(JStr(text)).value in ARTIFACT_STATUSES
    ensures text in {"crash", "fail", "incomplete", "pass", "skip", "timeout", "unsupported"} <==>
            StatusOf(JStr(text)).Some? && StatusOf(JStr(text)).value in PRODUCT_STATUSES
  {
    if StatusOf(JStr(text)).Some? {
      StatusesRead(JStr(text), StatusOf(JStr(text)).value);
    }
    StatusesRead(JStr(text), Complete);
    StatusesRead(JStr(text), Crash);
    StatusesRead(JStr(text), Failing);
    StatusesRead(JStr(text), Incomplete);
    StatusesRead(JStr(text), Pass);
    StatusesRead(JStr(text), Skip);
    StatusesRead(JStr(text), Timeout);
    StatusesRead(JStr(text), Unsupported);
  }

  lemma StatusesValid(row: Row)
    ensures StatusesOk(row) <==>
            && HasText(row, "artifactState") && HasText(row, "jsStatus") && HasText(row, "dtsStatus")
            && row["artifactState"].text in {"complete", "crash", "incomplete", "timeout", "unsupported"}
            && row["jsStatus"].text in {"crash", "fail", "incomplete", "pass", "skip", "timeout", "unsupported"}
            && row["dtsStatus"].text in {"crash", "fail", "incomplete", "pass", "skip", "timeout", "unsupported"}
  {
    FieldNames();
    var state, js, dts := Get(row, "artifactState"), Get(row, "jsStatus"), Get(row, "dtsStatus");
    if state.JStr? && js.JStr? && dts.JStr? {
      KnownNames(state.text);
      KnownNames(js.text);
      KnownNames(dts.text);
    }
  }

  lemma StatusFitsExactly(artifact: Status, selected: bool, status: Status)
    ensures Consistent(artifact, selected, status) <==> StatusFits(NameOf(artifact), selected, NameOf(status))
  {
    NamesDiffer(status, Skip);
    NamesDiffer(artifact, Complete);
    NamesDiffer(status, Pass);
    NamesDiffer(status, Failing);
    NamesDiffer(status, artifact);
  }

  lemma SideValid(row: Row, side: Side, status: string, selected: string)
    requires StatusesOk(row) && Get(row, Field(side, "Status")) == JStr(status) && selected == Field(side, "Selected")
    ensures SideOk(row, side) <==> SurfaceValid(row, row["artifactState"].text, status, selected)
  {
    var read := SideStatus(row, side).value;
    StatusesRead(Get(row, "artifactState"), ArtifactOf(row));
    StatusesRead(JStr(status), read);
    NamesDiffer(read, Skip);
    if Selected(row, side).Some? {
      StatusFitsExactly(ArtifactOf(row), Selected(row, side).value, read);
    }
  }

  lemma SelectedIs(row: Row, side: Side, selected: string)
    requires selected == Field(side, "Selected") && selected in row
    ensures Selected(row, side) == Some(true) <==> row[selected] == JBool(true)
  {
  }

  lemma ParityIs(row: Row, side: Side, artifact: Status, selected: string, effective: string, product: string, error: string)
    requires selected == Field(side, "Selected") && selected in row && effective == Field(side, "Match")
    requires product == Field(side, "ProductMatch") && error == Field(side, "ProductError")
    ensures ParityOk(row, side, artifact) <==>
            ParityValid(row, NameOf(artifact), row[selected] == JBool(true), effective, product, error)
  {
    SelectedIs(row, side, selected);
    NamesDiffer(artifact, Complete);
  }

  lemma SelectionIs(row: Row)
    requires StatusesOk(row)
    ensures SelectionOk(row) <==> SelectionValid(row, row["artifactState"].text)
  {
    FieldNames();
    var artifact := ArtifactOf(row);
    StatusesRead(Get(row, "artifactState"), artifact);
    NamesDiffer(artifact, Complete);
    if "jsSelected" in row && "dtsSelected" in row {
      ParityIs(row, JS, artifact, "jsSelected", "jsMatch", "jsProductMatch", "jsProductError");
      ParityIs(row, DTS, artifact, "dtsSelected", "dtsMatch", "dtsProductMatch", "dtsProductError");
    }
  }

  lemma ErrorIs(row: Row, side: Side, status: string, error: string)
    requires SideStatus(row, side).Some? && Get(row, Field(side, "Status")) == JStr(status) && error == Field(side, "Error")
    ensures ErrorOk(row, side) <==> ErrorValid(row, status, error)
  {
    var read := SideStatus(row, side).value;
    StatusesRead(JStr(status), read);
    NamesDiffer(read, Pass);
    NamesDiffer(read, Skip);
  }

  /** A row is accepted exactly when it is valid, by the texts in its fields. */
  lemma AcceptedRows(value: Json)
    ensures RowOk(value) <==> value.JObj? && RowValid(value.fields)
  {
    if value.JObj? {
      var row := value.fields;
      StatusesValid(row);
      if StatusesOk(row) {
        FieldNames();
        SideValid(row, JS, row["jsStatus"].text, "jsSelected");
        SideValid(row, DTS, row["dtsStatus"].text, "dtsSelected");
        SelectionIs(row);
        ErrorIs(row, JS, row["jsStatus"].text, "jsError");
        ErrorIs(row, DTS, row["dtsStatus"].text, "dtsError");
      }
    }
  }

  /** What an accepted row is read as, field by field. */
  lemma RowReads(value: Json)
    requires RowOk(value)
    ensures ReadRow(value).Some?
    ensures var row, entry := value.fields, ReadRow(value).value;
            && Get(row, "testPath") == JStr(entry.key.testPath)
            && Get(row, "baselineFile") == JStr(entry.key.baselineFile)
            && Get(row, "name") == JStr(entry.key.name)
            && Get(row, "artifactState") == JStr(NameOf(entry.view.artifact))
            && Get(row, "jsStatus") == JStr(NameOf(entry.view.js.status))
            && Get(row, "dtsStatus") == JStr(NameOf(entry.view.dts.status))
            && (entry.view.js.parity <==> Get(row, "jsProductMatch") == JBool(true))
            && (entry.view.dts.parity <==> Get(row, "dtsProductMatch") == JBool(true))
            && TszDiagnostics(Get(row, "jsError")) == Ok(entry.view.js.codes)
            && TszDiagnostics(Get(row, "dtsError")) == Ok(entry.view.dts.codes)
  {
    FieldNames();
    StatusText(value, Artifact);
    StatusText(value, Product(JS));
    StatusText(value, Product(DTS));
  }

  // ------------------------------------------------------------------- outcomes

  /** White space that is trimmed from codes. */
  const SPACES: set<int> := {
    9, 10, 11, 12, 13, 28, 29, 30, 31, 32, 0x85, 0xA0, 0x1680, 0x2000, 0x2001, 0x2002, 0x2003, 0x2004, 0x2005,
    0x2006, 0x2007, 0x2008, 0x2009, 0x200A, 0x2028, 0x2029, 0x202F, 0x205F, 0x3000}

  predicate Spaces(s: string) {
    forall i :: 0 <= i < |s| ==> s[i] as int in SPACES
  }

  predicate Tight(s: string) {
    s != "" ==> s[0] as int !in SPACES && s[|s| - 1] as int !in SPACES
  }

  lemma SpaceExactly(c: char)
    ensures IsSpace(c) <==> c as int in SPACES
  {
  }

  lemma {:induction false} TrimFront(gap: string, s: string)
    requires Spaces(gap) && (s == "" || s[0] as int !in SPACES)
    ensures TrimStart(gap + s) == s
  {
    if gap == "" {
      assert gap + s == s;
      if s != "" {
        SpaceExactly(s[0]);
      }
    } else {
      SpaceExactly(gap[0]);
      assert (gap + s)[1..] == gap[1..] + s;
      TrimFront(gap[1..], s);
    }
  }

  lemma {:induction false} TrimBack(s: string, gap: string)
    requires Spaces(gap) && (s == "" || s[|s| - 1] as int !in SPACES)
    ensures TrimEnd(s + gap) == s
  {
    if gap == "" {
      assert s + gap == s;
      if s != "" {
        SpaceExactly(s[|s| - 1]);
      }
    } else {
      SpaceExactly(gap[|gap| - 1]);
      assert (s + gap)[..|s + gap| - 1] == s + gap[..|gap| - 1];
      TrimBack(s, gap[..|gap| - 1]);
    }
  }

  /** Trimming removes the white space around a text and nothing else. */
  lemma TrimExactly(before: string, s: string, after: string)
    requires Spaces(before) && Spaces(after) && Tight(s)
    ensures Trim(before + s + after) == s
  {
    if s == "" {
      assert before + s + after == (before + after) + "";
      TrimFront(before + after, "");
    } else {
      assert before + s + after == before + (s + after);
      TrimFront(before, s + after);
      TrimBack(s, after);
    }
  }

  /** A part of a payload: a text, perhaps none, with white space around it. */
  datatype Part = Part(before: string, text: string, after: string)

  predicate PartOk(p: Part) {
    Spaces(p.before) && Spaces(p.after) && Tight(p.text) && ',' !in p.text
  }

  function PrintPart(p: Part): string {
    p.before + p.text + p.after
  }

  function PrintParts(parts: seq<Part>): string {
    if parts == [] then ""
    else if |parts| == 1 then PrintPart(parts[0])
    else PrintPart(parts[0]) + ("," + PrintParts(parts[1..]))
  }

  function TextsOf(parts: seq<Part>): seq<string> {
    if parts == [] then [] else (if parts[0].text == "" then [] else [parts[0].text]) + TextsOf(parts[1..])
  }

  lemma PartIsKept(p: Part)
    requires PartOk(p)
    ensures ',' !in PrintPart(p) && Keep(PrintPart(p)) == if p.text == "" then [] else [p.text]
  {
    assert ',' as int !in SPACES;
    TrimExactly(p.before, p.text, p.after);
  }

  /** A list of parts is read as its texts, whatever white space and empty parts it has. */
  lemma {:induction false} PartsRead(parts: seq<Part>)
    requires forall i :: 0 <= i < |parts| ==> PartOk(parts[i])
    ensures Parts(PrintParts(parts), "") == TextsOf(parts)
  {
    if parts == [] {
      assert Trim("") == "";
    } else {
      var first := PrintPart(parts[0]);
      PartIsKept(parts[0]);
      if |parts| == 1 {
        PartsOfWord(first, "", "");
        assert first + "" == first && "" + first == first && parts[1..] == [];
      } else {
        var rest := "," + PrintParts(parts[1..]);
        PartsOfWord(first, rest, "");
        assert "" + first == first && rest[1..] == PrintParts(parts[1..]);
        PartsRead(parts[1..]);
      }
    }
  }

  /** The form of a diagnostic code. */
  predicate CodeForm(code: string) {
    |code| > 2 && code[0] == 'T' && code[1] == 'S' && forall i :: 2 <= i < |code| ==> '0' <= code[i] <= '9'
  }

  lemma CodesExactly(code: string)
    ensures IsCode(code) <==> CodeForm(code)
  {
    if |code| > 2 {
      assert forall i :: 2 <= i < |code| ==> code[i] == code[2..][i - 2];
      assert "TS" <= code <==> code[0] == 'T' && code[1] == 'S';
    }
  }

  /** A text that is no outcome establishes nothing. */
  lemma NoOutcome(v: Json)
    ensures TszDiagnostics(v) == Ok(None) <==> !v.JStr? || !("TSZ_NONZERO_OUTCOME:" <= v.text)
  {
  }

  predicate MarkerAt(s: string, i: nat) {
    i + 12 <= |s| && s[i..i + 12] == "diagnostics="
  }

  lemma {:induction false} NoMarker(s: string)
    requires forall i: nat :: !MarkerAt(s, i)
    ensures After(s, "diagnostics=").None?
  {
    assert !MarkerAt(s, 0);
    if s != "" {
      forall i: nat
        ensures !MarkerAt(s[1..], i)
      {
        assert !MarkerAt(s, i + 1);
        assert i + 12 <= |s[1..]| ==> s[1..][i..i + 12] == s[i + 1..i + 1 + 12];
      }
      NoMarker(s[1..]);
    }
  }

  /** An outcome without its payload marker is malformed. */
  lemma MarkerNeeded(text: string)
    requires "TSZ_NONZERO_OUTCOME:" <= text && forall i: nat :: !MarkerAt(text, i)
    ensures TszDiagnostics(JStr(text)).Err?
  {
    NoMarker(text);
  }

  /** The payload of an outcome: its codes when there are some and all are codes, no codes
      for `<none>`, and otherwise malformed. */
  lemma PayloadRead(head: string, payload: string)
    requires 'd' !in head && Tight(payload)
    ensures var text, codes := "TSZ_NONZERO_OUTCOME:" + head + "diagnostics=" + payload, Parts(payload, "");
            TszDiagnostics(JStr(text)) ==
            if payload == "<none>" then Ok(Some([]))
            else if payload == "" then Err("empty diagnostics payload")
            else if codes == [] || exists i :: 0 <= i < |codes| && !CodeForm(codes[i])
            then Err("malformed diagnostic codes") else Ok(Some(codes))
  {
    var start := "TSZ_NONZERO_OUTCOME:" + head;
    assert 'd' !in "TSZ_NONZERO_OUTCOME:";
    AfterHead(start, payload);
    assert "" + payload + "" == payload;
    TrimExactly("", payload, "");
    var codes := Parts(payload, "");
    forall i | 0 <= i < |codes|
      ensures IsCode(codes[i]) <==> CodeForm(codes[i])
    {
      CodesExactly(codes[i]);
    }
    assert NONZERO_PREFIX <= start + PAYLOAD_MARKER + payload;
  }

  // -------------------------------------------------------------- the comparison

  /** When an outcome is held: by passing without one, by never having had one, by having
      none of its codes, or by deleting some of the codes before. */
  lemma OutcomeHeld(before: Option<Surface>, after: Surface)
    ensures PayloadHeld(before, after) <==>
            match after.codes
            case None => before.None? || before.value.codes.None? || after.status == Pass
            case Some(codes) =>
              || codes == []
              || (before.Some? && before.value.codes.Some? && exists at :: Embedding(codes, before.value.codes.value, at))
  {
    if after.codes.Some? && before.Some? && before.value.codes.Some? {
      var codes, prior := after.codes.value, before.value.codes.value;
      if Sub(codes, prior) {
        var at := SubEmbeds(codes, prior);
      }
      if at :| Embedding(codes, prior, at) {
        EmbeddingSub(codes, prior, at);
      }
    }
  }

  /** The texts are equal or the change is listed. */
  predicate MayMove(before: Row, after: Row, kind: Kind) {
    var a, b := TextAt(before, kind), TextAt(after, kind);
    a.JStr? && b.JStr? && (a == b || (a.text, b.text) in MovesOf(kind))
  }

  predicate KeepsTrue(before: Row, after: Row, name: string) {
    Get(before, name) == JBool(true) ==> Get(after, name) == JBool(true)
  }

  lemma MovesMay(before: Json, after: Json, kind: Kind)
    requires RowOk(before) && RowOk(after)
    ensures MayMove(before.fields, after.fields, kind) <==>
            !IsStatusRegression(kind, StatusAt(ViewOf(before), kind), StatusAt(ViewOf(after), kind))
  {
    RowMoves(before, after, kind);
  }

  /** One row may follow another when its three statuses move as listed, proven parity
      stays, and both outcomes are held; a new row only has to hold its outcomes. */
  lemma RowsCompare(before: Json, after: Json)
    requires RowOk(before) && RowOk(after)
    ensures RowHeld(Some(ViewOf(before)), ViewOf(after)) <==>
            && MayMove(before.fields, after.fields, Artifact)
            && MayMove(before.fields, after.fields, Product(JS)) && MayMove(before.fields, after.fields, Product(DTS))
            && KeepsTrue(before.fields, after.fields, "jsProductMatch")
            && KeepsTrue(before.fields, after.fields, "dtsProductMatch")
            && PayloadHeld(Some(ViewOf(before).js), ViewOf(after).js) && PayloadHeld(Some(ViewOf(before).dts), ViewOf(after).dts)
    ensures RowHeld(None, ViewOf(after)) <==> PayloadHeld(None, ViewOf(after).js) && PayloadHeld(None, ViewOf(after).dts)
  {
    MovesMay(before, after, Artifact);
    MovesMay(before, after, Product(JS));
    MovesMay(before, after, Product(DTS));
    RowReads(before);
    RowReads(after);
  }
}
