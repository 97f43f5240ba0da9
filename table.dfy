/** The parsed file (ReadResult) and the pure specifications of what CSVHandler does to it:
    the serialiser, the line parser with its header flag, the partial row update and the
    row removal. The library parsers are parameters: `isDecimal` stands for Decimal.TryParse
    and `parseGuid` for Guid.Parse (None where Guid.Parse throws). */
module Table {
  import opened Outcomes
  import opened Text

  /** A GUID as the 128-bit value Guid.Parse produces. */
  type Uuid = x: nat | x < 0x1_0000_0000_0000_0000_0000_0000_0000_0000

  /** The header names and the data rows of the file, in file order. */
  datatype ReadResult = ReadResult(keys: seq<string>, values: seq<seq<string>>)

  /** What Read returns together with the value its header flag holds afterwards. */
  datatype Parsed = Parsed(result: ReadResult, skipHeader: bool)

  /** Environment.NewLine on the platforms .NET runs on. */
  predicate PlatformNewLine(newLine: string) {
    newLine == "\n" || newLine == "\r\n"
  }

  /** A delimiter that the quote stripping and the line split leave alone. */
  predicate ValidDelimiter(d: char) {
    d != '"' && d != '\r' && d != '\n'
  }

  /** A name or cell that survives the file format: no quote, delimiter or line break in it. */
  predicate Clean(s: string, d: char) {
    NoneOf(s, ['"', d, '\r', '\n'])
  }

  // ---------------------------------------------------------------------------------------
  // Serialisation (ReadResultToCSV and the row building of Write)

  /** A cell as written to the file: unquoted when it parses as a decimal, else in quotes. */
  function Encode(isDecimal: string -> bool, v: string): string {
    if isDecimal(v) then v else "\"" + v + "\""
  }

  function EncodeAll(isDecimal: string -> bool, cells: seq<string>): seq<string> {
    seq(|cells|, i requires 0 <= i < |cells| => Encode(isDecimal, cells[i]))
  }

  /** One record line without its terminator: the encoded cells joined by the delimiter. */
  function Line(isDecimal: string -> bool, d: char, cells: seq<string>): string {
    Join(EncodeAll(isDecimal, cells), d)
  }

  /** Every line followed by "\n". */
  function ConcatLines(lines: seq<string>): string {
    if lines == [] then ""
    else ConcatLines(lines[..|lines| - 1]) + lines[|lines| - 1] + "\n"
  }

  /** Every row has at least `n` cells, so the serialiser can index its first `n`. */
  predicate CoversKeys(rows: seq<seq<string>>, n: nat) {
    forall j :: 0 <= j < |rows| ==> |rows[j]| >= n
  }

  function RowTexts(isDecimal: string -> bool, d: char, rows: seq<seq<string>>, n: nat): seq<string>
    requires CoversKeys(rows, n)
  {
    seq(|rows|, j requires 0 <= j < |rows| => Line(isDecimal, d, rows[j][..n]))
  }

  /** The file text ReadResultToCSV produces: the header line, then the first |keys| cells
      of every row. No keys leaves no delimiter for the trailing trim; a short row is
      indexed past its end. */
  function Serialize(isDecimal: string -> bool, d: char, t: ReadResult): Result<string> {
    if |t.keys| == 0 then Err(DelimiterNotFound)
    else if !CoversKeys(t.values, |t.keys|) then Err(IndexOutOfRange)
    else Ok(ConcatLines([Join(t.keys, d)] + RowTexts(isDecimal, d, t.values, |t.keys|)))
  }

  /** The serialiser's text after the header line and the first `j` rows. */
  function Emitted(isDecimal: string -> bool, d: char, header: string, rows: seq<seq<string>>,
                   n: nat, j: nat): string
    requires j <= |rows| && forall k :: 0 <= k < j ==> |rows[k]| >= n
  {
    if j == 0 then header
    else Emitted(isDecimal, d, header, rows, n, j - 1) + (Line(isDecimal, d, rows[j - 1][..n]) + "\n")
  }

  /** The row text Write appends: every element encoded, joined, ended by "\n". */
  function EncodeRecord(isDecimal: string -> bool, d: char, elements: seq<string>): Result<string> {
    if elements == [] then Err(DelimiterNotFound)
    else Ok(Line(isDecimal, d, elements) + "\n")
  }

  // ---------------------------------------------------------------------------------------
  // Parsing (Read)

  /** A line's cells: every quote removed, then split on the delimiter. */
  function Cells(d: char, line: string): seq<string> {
    Split(RemoveQuotes(line), [d])
  }

  /** The lines that are not empty, in order. */
  function NonBlank(lines: seq<string>): seq<string> {
    if lines == [] then []
    else NonBlank(lines[..|lines| - 1]) + (if lines[|lines| - 1] == "" then [] else [lines[|lines| - 1]])
  }

  function CellsOf(d: char, lines: seq<string>): seq<seq<string>> {
    seq(|lines|, k requires 0 <= k < |lines| => Cells(d, lines[k]))
  }

  /** Read's loop: while the flag is clear the first non-empty line becomes the keys and the
      flag is set; every other non-empty line becomes a row. */
  function ParseLines(d: char, lines: seq<string>, skipHeader: bool): Parsed {
    var ne := NonBlank(lines);
    if skipHeader then Parsed(ReadResult([], CellsOf(d, ne)), true)
    else if ne == [] then Parsed(ReadResult([], []), false)
    else Parsed(ReadResult(Cells(d, ne[0]), CellsOf(d, ne[1..])), true)
  }

  /** One pass of Read's loop body over `line`: an empty line is skipped; while the flag is
      clear the line's cells are added to the keys and the flag is set; otherwise they
      become a row. */
  function ParseStep(d: char, p: Parsed, line: string): Parsed {
    if line == "" then p
    else if !p.skipHeader then Parsed(ReadResult(p.result.keys + Cells(d, line), p.result.values), true)
    else Parsed(ReadResult(p.result.keys, p.result.values + [Cells(d, line)]), true)
  }

  /** Read: the content split at every character of the platform newline. */
  function ParseContent(newLine: string, d: char, content: string, skipHeader: bool): Parsed {
    ParseLines(d, Split(content, newLine), skipHeader)
  }

  // ---------------------------------------------------------------------------------------
  // Rows addressed by their first cell (Update and Delete)

  /** The first cell parses as a GUID. */
  predicate HasGuid(parseGuid: string -> Option<Uuid>, row: seq<string>) {
    |row| > 0 && parseGuid(row[0]).Some?
  }

  /** The first cell parses to `id`. */
  predicate Matches(parseGuid: string -> Option<Uuid>, row: seq<string>, id: Uuid) {
    |row| > 0 && parseGuid(row[0]) == Some(id)
  }

  /** The exception reading the first cell of a row without a GUID raises. */
  function IdError(row: seq<string>): Error {
    if |row| == 0 then IndexOutOfRange else BadGuid(row[0])
  }

  /** Column `i` of a matching row can be visited: elements[i] exists, and so does row[i]
      when there is a value to store there. */
  predicate SlotFits(row: seq<string>, elements: seq<Option<string>>, i: nat) {
    i < |elements| && (elements[i].Some? ==> i < |row|)
  }

  /** The row with columns 1 .. k-1 replaced by the non-null elements. */
  function Overlay(row: seq<string>, elements: seq<Option<string>>, k: nat): seq<string> {
    seq(|row|, c requires 0 <= c < |row| =>
      if 1 <= c < k && c < |elements| && elements[c].Some? then elements[c].value else row[c])
  }

  /** One pass of Update's inner loop over a row, for n >= 1 keys. */
  function UpdateRow(parseGuid: string -> Option<Uuid>, n: nat, row: seq<string>, id: Uuid,
                     elements: seq<Option<string>>): Result<seq<string>>
  {
    if !HasGuid(parseGuid, row) then Err(IdError(row))
    else if !Matches(parseGuid, row, id) then Ok(row)
    else if exists i: nat :: 1 <= i < n && !SlotFits(row, elements, i) then Err(IndexOutOfRange)
    else Ok(Overlay(row, elements, n))
  }

  /** Update's loop: the rows in file order, stopping at the first exception. */
  function UpdateRows(parseGuid: string -> Option<Uuid>, n: nat, rows: seq<seq<string>>, id: Uuid,
                      elements: seq<Option<string>>): Result<seq<seq<string>>>
  {
    if n == 0 || rows == [] then Ok(rows)
    else
      match UpdateRows(parseGuid, n, rows[..|rows| - 1], id, elements)
      case Err(e) => Err(e)
      case Ok(front) =>
        match UpdateRow(parseGuid, n, rows[|rows| - 1], id, elements)
        case Err(e) => Err(e)
        case Ok(r) => Ok(front + [r])
  }

  /** The rows that do not match `id`, in their original order. */
  function Kept(parseGuid: string -> Option<Uuid>, rows: seq<seq<string>>, id: Uuid): seq<seq<string>> {
    if rows == [] then []
    else (if Matches(parseGuid, rows[0], id) then [] else [rows[0]]) + Kept(parseGuid, rows[1..], id)
  }

  /** The exception Delete's backward scan meets first: that of the last row without a GUID. */
  function ScanError(parseGuid: string -> Option<Uuid>, rows: seq<seq<string>>): Option<Error> {
    if rows == [] then None
    else if !HasGuid(parseGuid, rows[|rows| - 1]) then Some(IdError(rows[|rows| - 1]))
    else ScanError(parseGuid, rows[..|rows| - 1])
  }

  /** Delete's loop: with no keys the inner loop never runs; otherwise every matching row goes. */
  function DeleteRows(parseGuid: string -> Option<Uuid>, n: nat, rows: seq<seq<string>>, id: Uuid)
    : Result<seq<seq<string>>>
  {
    if n == 0 then Ok(rows)
    else
      match ScanError(parseGuid, rows)
      case Some(e) => Err(e)
      case None => Ok(Kept(parseGuid, rows, id))
  }

  /** The text Update rewrites the file with. */
  function UpdatedContent(isDecimal: string -> bool, parseGuid: string -> Option<Uuid>, d: char,
                          t: ReadResult, id: Uuid, elements: seq<Option<string>>): Result<string>
  {
    match UpdateRows(parseGuid, |t.keys|, t.values, id, elements)
    case Err(e) => Err(e)
    case Ok(rows) => Serialize(isDecimal, d, ReadResult(t.keys, rows))
  }

  /** The text Delete rewrites the file with. */
  function PrunedContent(isDecimal: string -> bool, parseGuid: string -> Option<Uuid>, d: char,
                         t: ReadResult, id: Uuid): Result<string>
  {
    match DeleteRows(parseGuid, |t.keys|, t.values, id)
    case Err(e) => Err(e)
    case Ok(rows) => Serialize(isDecimal, d, ReadResult(t.keys, rows))
  }

  // ---------------------------------------------------------------------------------------
  // Tables that survive a write and a read unchanged

  /** Every serialised line is non-empty, so Read does not skip it. Only a single column
      can break this: an empty name, or a cell that encodes to the empty string. */
  predicate NoBlankLines(isDecimal: string -> bool, d: char, t: ReadResult) {
    Join(t.keys, d) != "" &&
    forall r :: r in t.values ==> Line(isDecimal, d, r) != ""
  }

  predicate WellFormed(isDecimal: string -> bool, d: char, t: ReadResult) {
    && |t.keys| >= 1
    && (forall k :: 0 <= k < |t.keys| ==> Clean(t.keys[k], d))
    && (forall r :: r in t.values ==> |r| == |t.keys|)
    && (forall r, i :: r in t.values && 0 <= i < |r| ==> Clean(r[i], d))
    && NoBlankLines(isDecimal, d, t)
  }
}
