// Rows of an emit artifact and their validation: `index_rows` and
// `tsz_nonzero_diagnostics` of scripts/ci/check-emit-regression-set.py.

module EmitRows {
  import opened Wrappers
  import opened Text
  import opened RowTables

  datatype Status = Complete | Crash | Failing | Incomplete | Pass | Skip | Timeout | Unsupported

  const ARTIFACT_STATUSES: set<Status> := {Complete, Crash, Incomplete, Timeout, Unsupported}
  const PRODUCT_STATUSES: set<Status> := {Crash, Failing, Incomplete, Pass, Skip, Timeout, Unsupported}

  function StatusOf(value: Json): Option<Status> {
    if !value.JStr? then None
    else if value.text == "complete" then Some(Complete)
    else if value.text == "crash" then Some(Crash)
    else if value.text == "fail" then Some(Failing)
    else if value.text == "incomplete" then Some(Incomplete)
    else if value.text == "pass" then Some(Pass)
    else if value.text == "skip" then Some(Skip)
    else if value.text == "timeout" then Some(Timeout)
    else if value.text == "unsupported" then Some(Unsupported)
    else None
  }

  datatype Key = Key(testPath: string, baselineFile: string, name: string)

  // ------------------------------------------------------ diagnostic payloads

  const NONZERO_PREFIX := "TSZ_NONZERO_OUTCOME:"
  const PAYLOAD_MARKER := "diagnostics="

  /** What follows the first occurrence of `word`. */
  function After(s: string, word: string): Option<string> {
    if word <= s then Some(s[|word|..])
    else if s == "" then None
    else After(s[1..], word)
  }

  predicate IsSpace(c: char) {
    var n := c as int;
    || 9 <= n <= 13 || 28 <= n <= 32 || n == 0x85 || n == 0xA0 || n == 0x1680 || 0x2000 <= n <= 0x200A
    || n == 0x2028 || n == 0x2029 || n == 0x202F || n == 0x205F || n == 0x3000
  }

  function TrimStart(s: string): string {
    if s != "" && IsSpace(s[0]) then TrimStart(s[1..]) else s
  }

  function TrimEnd(s: string): string {
    if s != "" && IsSpace(s[|s| - 1]) then TrimEnd(s[..|s| - 1]) else s
  }

  function Trim(s: string): string {
    TrimEnd(TrimStart(s))
  }

  /** The trimmed parts between commas that are not empty. */
  function Parts(s: string, part: string): seq<string> {
    if s == "" then Keep(part)
    else if s[0] == ',' then Keep(part) + Parts(s[1..], "")
    else Parts(s[1..], part + [s[0]])
  }

  function Keep(part: string): seq<string> {
    if Trim(part) == "" then [] else [Trim(part)]
  }

  predicate IsCode(code: string) {
    "TS" <= code && |code| > 2 && AllDigits(code[2..])
  }

  predicate AllCodes(codes: seq<string>) {
    forall i :: 0 <= i < |codes| ==> IsCode(codes[i])
  }

  /** The codes of a typed outcome, nothing for any other error, or a rejection. */
  function TszDiagnostics(error: Json): Result<Option<seq<string>>, string> {
    if !error.JStr? || !(NONZERO_PREFIX <= error.text) then Ok(None) else
    var after := After(error.text, PAYLOAD_MARKER);
    if after.None? then Err("missing diagnostics=") else
    var payload := Trim(after.value);
    if payload == "<none>" then Ok(Some([]))
    else if payload == "" then Err("empty diagnostics payload")
    else
      var codes := Parts(payload, "");
      if codes == [] || !AllCodes(codes) then Err("malformed diagnostic codes") else Ok(Some(codes))
  }

  // ------------------------------------------------------------------- a row

  datatype Side = JS | DTS

  function Field(side: Side, suffix: string): string {
    (if side.JS? then "js" else "dts") + suffix
  }

  type Row = map<string, Json>

  predicate HasSelection(row: Row) {
    "jsSelected" in row || "dtsSelected" in row
  }

  function SideStatus(row: Row, side: Side): Option<Status> {
    StatusOf(Get(row, Field(side, "Status")))
  }

  /** Whether a surface is selected; the status tells when the row does not. */
  function Selected(row: Row, side: Side): Option<bool> {
    if Field(side, "Selected") in row then
      (if row[Field(side, "Selected")].JBool? then Some(row[Field(side, "Selected")].flag) else None)
    else Some(SideStatus(row, side) != Some(Skip))
  }

  /** The status of a surface follows from the artifact and the selection. */
  predicate Consistent(artifact: Status, selected: bool, status: Status) {
    if !selected then status == Skip
    else if artifact == Complete then status == Pass || status == Failing
    else status == artifact
  }

  predicate NullOrBool(value: Json) {
    value.JNull? || value.JBool?
  }

  /** The parity fields a row with explicit selection must carry for one surface. */
  predicate ParityOk(row: Row, side: Side, artifact: Status) {
    var match_, product := Get(row, Field(side, "Match")), Get(row, Field(side, "ProductMatch"));
    var error := Get(row, Field(side, "ProductError"));
    && Field(side, "Match") in row && Field(side, "ProductMatch") in row
    && (if Selected(row, side) == Some(true) then
          && match_.JBool? && NullOrBool(product) && (artifact == Complete ==> product.JBool?)
          && match_.flag == (Get(row, "outcomeMatch") == JBool(true) && product == JBool(true))
        else match_.JNull? && product.JNull?)
    && (if product == JBool(false) then error.JStr? && error.text != "" else error.JNull?)
  }

  /** A surface that passed or was skipped has no error. */
  predicate ErrorOk(row: Row, side: Side) {
    && (SideStatus(row, side) in {Some(Pass), Some(Skip)} ==> Get(row, Field(side, "Error")).JNull?)
    && TszDiagnostics(Get(row, Field(side, "Error"))).Ok?
  }

  function Component(row: Row, field: string): string {
    if Get(row, field).JStr? then Get(row, field).text else ""
  }

  function KeyOf(row: Row): Key {
    Key(Component(row, "testPath"), Component(row, "baselineFile"), Component(row, "name"))
  }

  predicate KeyOk(key: Key) {
    key.testPath != "" && key.baselineFile != "" && key.name != ""
  }

  predicate StatusesOk(row: Row) {
    && StatusOf(Get(row, "artifactState")).Some? && StatusOf(Get(row, "artifactState")).value in ARTIFACT_STATUSES
    && SideStatus(row, JS).Some? && SideStatus(row, JS).value in PRODUCT_STATUSES
    && SideStatus(row, DTS).Some? && SideStatus(row, DTS).value in PRODUCT_STATUSES
  }

  function ArtifactOf(row: Row): Status
    requires StatusesOk(row)
  {
    StatusOf(Get(row, "artifactState")).value
  }

  predicate SideOk(row: Row, side: Side)
    requires StatusesOk(row)
  {
    && Selected(row, side).Some?
    && Consistent(ArtifactOf(row), Selected(row, side).value, SideStatus(row, side).value)
  }

  predicate SelectionOk(row: Row)
    requires StatusesOk(row)
  {
    && "jsSelected" in row && "dtsSelected" in row
    && "outcomeMatch" in row && NullOrBool(row["outcomeMatch"])
    && (ArtifactOf(row) == Complete ==> row["outcomeMatch"].JBool?)
    && ParityOk(row, JS, ArtifactOf(row)) && ParityOk(row, DTS, ArtifactOf(row))
  }

  predicate RowOk(value: Json) {
    && value.JObj?
    && var row := value.fields;
       && KeyOk(KeyOf(row))
       && StatusesOk(row)
       && SideOk(row, JS) && SideOk(row, DTS)
       && (HasSelection(row) ==> SelectionOk(row))
       && ErrorOk(row, JS) && ErrorOk(row, DTS)
  }

  // ---------------------------------------------------------- what a row says

  /** What the comparisons read of one surface: its status, whether byte parity was
      proven, and the codes of a typed outcome. */
  datatype Surface = Surface(status: Status, parity: bool, codes: Option<seq<string>>)

  datatype View = View(artifact: Status, js: Surface, dts: Surface)

  function SurfaceOf(row: Row, side: Side): Surface
    requires SideStatus(row, side).Some? && TszDiagnostics(Get(row, Field(side, "Error"))).Ok?
  {
    Surface(SideStatus(row, side).value, Get(row, Field(side, "ProductMatch")) == JBool(true),
            TszDiagnostics(Get(row, Field(side, "Error"))).value)
  }

  function ViewOf(value: Json): View
    requires RowOk(value)
  {
    View(ArtifactOf(value.fields), SurfaceOf(value.fields, JS), SurfaceOf(value.fields, DTS))
  }

  /** What validation guarantees of a surface. */
  predicate SurfaceOk(artifact: Status, s: Surface) {
    && s.status in PRODUCT_STATUSES
    && (s.status == Skip || Consistent(artifact, true, s.status))
    && (s.status in {Pass, Skip} ==> s.codes == None)
    && (s.codes.Some? ==> AllCodes(s.codes.value))
  }

  predicate ViewOk(v: View) {
    v.artifact in ARTIFACT_STATUSES && SurfaceOk(v.artifact, v.js) && SurfaceOk(v.artifact, v.dts)
  }

  lemma ValidRowsSay(value: Json)
    requires RowOk(value)
    ensures ViewOk(ViewOf(value))
  {
  }

  /** What the parity fields of a row with explicit selection say of a surface: only a
      selected one has parity, the effective match is parity and outcome together, and a
      complete artifact explains the parity it lacks. */
  predicate ParitySays(row: Row, side: Side, artifact: Status, s: Surface) {
    var error := Get(row, Field(side, "ProductError"));
    && (s.parity ==> s.status != Skip && error.JNull?)
    && (Get(row, Field(side, "Match")) ==
        if s.status == Skip then JNull else JBool(s.parity && Get(row, "outcomeMatch") == JBool(true)))
    && (artifact == Complete && s.status != Skip && !s.parity ==> error.JStr? && error.text != "")
  }

  lemma ParityFields(row: Row, side: Side)
    requires StatusesOk(row) && SideOk(row, side) && ErrorOk(row, side) && ParityOk(row, side, ArtifactOf(row))
    ensures ParitySays(row, side, ArtifactOf(row), SurfaceOf(row, side))
  {
    assert side == JS || side == DTS;
  }

  // ------------------------------------------------------------- the row table

  type Table = map<Key, View>

  function ReadRow(value: Json): Option<Entry<Key, View>> {
    if RowOk(value) then Some(Entry(KeyOf(value.fields), ViewOf(value))) else None
  }

  /** All rows of a table are what validation guarantees. */
  ghost predicate TableOk(table: Table) {
    forall key :: key in table ==> ViewOk(table[key])
  }

  /** How rows are read; `ReadRow` is the reader of the gate. */
  type RowReader = Json -> Option<Entry<Key, View>>

  ghost predicate Sound(read: RowReader) {
    forall row :: read(row).Some? ==> ViewOk(read(row).value.view)
  }

  lemma ReadRowSound()
    ensures Sound(ReadRow)
    ensures forall value :: ReadRow(value).Some? && HasSelection(value.fields) ==>
              var view := ReadRow(value).value.view;
              ParitySays(value.fields, JS, view.artifact, view.js) && ParitySays(value.fields, DTS, view.artifact, view.dts)
  {
    forall value | ReadRow(value).Some?
      ensures ViewOk(ReadRow(value).value.view)
      ensures HasSelection(value.fields) ==>
                var view := ReadRow(value).value.view;
                ParitySays(value.fields, JS, view.artifact, view.js) && ParitySays(value.fields, DTS, view.artifact, view.dts)
    {
      ValidRowsSay(value);
      if HasSelection(value.fields) {
        ParityFields(value.fields, JS);
        ParityFields(value.fields, DTS);
      }
    }
  }

  lemma {:induction false} IndexedTableOk(read: RowReader, rows: seq<Json>)
    requires Sound(read) && ReadRows(read, rows).Some?
    ensures TableOk(TableOf(ReadRows(read, rows).value))
  {
    if rows != [] {
      IndexedTableOk(read, rows[..|rows| - 1]);
      assert ReadRows(read, rows).value[..|rows| - 1] == ReadRows(read, rows[..|rows| - 1]).value;
    }
  }
}
