/** CSVHandler: Read, Write, Update and Delete over one delimited file in the remote store. */
module Handler {
  import opened Outcomes
  import opened Text
  import opened Table
  import opened TableProperties
  import opened RowProperties
  import opened RemoteStore

  /** What the create, append-at-0, flush-at-|content| sequence leaves behind: the new content
      on success; otherwise the file as it was (create failed), created but empty (append
      failed), or created with the content staged but unflushed (flush failed). */
  predicate RewriteOutcome(oldCommitted: string, oldPending: string, content: string,
                           r: Result<()>, committed: string, pending: string)
  {
    match r
    case Ok(_) => committed == content && pending == ""
    case Err(e) =>
      || (e == RequestFailed(CreateRequest) && committed == oldCommitted && pending == oldPending)
      || (e == RequestFailed(AppendRequest) && committed == "" && pending == "")
      || (e == RequestFailed(FlushRequest) && committed == "" && pending == content)
  }

  /** What GET-length, append-at-end, flush-at-new-end leaves behind: the row after the old
      content on success; the row staged but unflushed when only the flush failed; the file
      as it was on every other failure. */
  predicate AppendOutcome(oldCommitted: string, oldPending: string, row: Result<string>,
                          r: Result<()>, committed: string, pending: string)
  {
    match r
    case Ok(_) => row.Ok? && oldPending == "" && committed == oldCommitted + row.value && pending == ""
    case Err(e) =>
      if e == RequestFailed(FlushRequest)
      then row.Ok? && oldPending == "" && committed == oldCommitted && pending == row.value
      else committed == oldCommitted && pending == oldPending
  }

  class CSVHandler {
    /** Set once the first header has been read; it is never cleared. */
    var skipHeader: bool
    const delimiter: char
    /** Environment.NewLine; Read splits at each of its characters. */
    const newLine: string
    /** Decimal.TryParse, deciding whether a cell is written without quotes. */
    const isDecimal: string -> bool
    /** Guid.Parse, None where it throws. */
    const parseGuid: string -> Option<Uuid>

    /** The source's own parameters come last, with its defaults: no header consumed yet, and
        a comma between cells. */
    constructor (newLine: string, isDecimal: string -> bool, parseGuid: string -> Option<Uuid>,
                 skipHeader: bool := false, delimiter: char := ',')
      ensures this.skipHeader == skipHeader && this.delimiter == delimiter
      ensures this.newLine == newLine && this.isDecimal == isDecimal && this.parseGuid == parseGuid
    {
      this.skipHeader := skipHeader;
      this.delimiter := delimiter;
      this.newLine := newLine;
      this.isDecimal := isDecimal;
      this.parseGuid := parseGuid;
    }

    /** The file text for a parsed table: header line, then the first |keys| cells of every
        row, decimals bare and everything else quoted, every line ended by "\n". */
    method ReadResultToCSV(res: ReadResult) returns (r: Result<string>)
      ensures r == Serialize(isDecimal, delimiter, res)
      ensures |res.keys| == 0 ==> r == Err(DelimiterNotFound)
      ensures |res.keys| > 0 ==> (r.Ok? <==> CoversKeys(res.values, |res.keys|))
    {
      var header := HeaderLine(res.keys);
      if header.Err? {
        return Err(header.error);
      }
      var n := |res.keys|;
      r := EncodeRows(header.value, res.values, n);
      if r.Ok? {
        SerializeRows(isDecimal, delimiter, res.keys, res.values, |res.values|);
        assert res.values[..|res.values|] == res.values;
      }
    }

    /** The serialiser's row loop: after `header`, the first `n` cells of every row as one
        line each; a row shorter than `n` is indexed past its end. */
    method EncodeRows(header: string, rows: seq<seq<string>>, n: nat) returns (r: Result<string>)
      requires n > 0
      ensures r.Ok? <==> forall k :: 0 <= k < |rows| ==> |rows[k]| >= n
      ensures r.Ok? ==> r.value == Emitted(isDecimal, delimiter, header, rows, n, |rows|)
      ensures r.Err? ==> r.error == IndexOutOfRange
    {
      var content := header;
      for j := 0 to |rows|
        invariant forall k :: 0 <= k < j ==> |rows[k]| >= n
        invariant content == Emitted(isDecimal, delimiter, header, rows, n, j)
      {
        var line := EncodeCells(rows[j], n);
        if line.Err? {
          assert |rows[j]| < n;
          return Err(IndexOutOfRange);
        }
        assert |rows[j]| >= n;
        content := content + line.value;
      }
      return Ok(content);
    }

    /** The serialiser's header loop and trim: the keys joined by the delimiter, ended by
        "\n"; with no keys there is no delimiter to trim. */
    method HeaderLine(keys: seq<string>) returns (r: Result<string>)
      ensures |keys| == 0 ==> r == Err(DelimiterNotFound)
      ensures |keys| > 0 ==> r == Ok(Join(keys, delimiter) + "\n")
    {
      var d := delimiter;
      var content := "";
      for k := 0 to |keys|
        invariant content == if k == 0 then "" else Join(keys[..k], d) + [d]
      {
        if k > 0 {
          assert keys[..k + 1] == keys[..k] + [keys[k]];
          JoinSnoc(keys[..k], keys[k], d);
        }
        content := content + keys[k] + [d];
      }
      var cut := LastIndexOf(content, d);
      if cut < 0 {
        return Err(DelimiterNotFound);
      }
      assert keys[..|keys|] == keys;
      assert cut == |content| - 1;
      return Ok(content[..cut] + "\n");
    }

    /** One line of cells as ReadResultToCSV and Write build it: the first `n` cells encoded,
        each followed by the delimiter, then the last delimiter replaced by "\n". With no
        cells there is no delimiter to replace; with fewer than `n` cells a cell is indexed
        past the end. */
    method EncodeCells(cells: seq<string>, n: nat) returns (r: Result<string>)
      ensures n == 0 ==> r == Err(DelimiterNotFound)
      ensures n > 0 && |cells| < n ==> r == Err(IndexOutOfRange)
      ensures n > 0 && |cells| >= n ==> r == Ok(Line(isDecimal, delimiter, cells[..n]) + "\n")
    {
      var d := delimiter;
      var text := "";
      for i := 0 to n
        invariant i > 0 ==> i <= |cells|
        invariant text == if i == 0 then "" else Line(isDecimal, d, cells[..i]) + [d]
      {
        if i >= |cells| {
          return Err(IndexOutOfRange);
        }
        LineSnoc(isDecimal, d, cells, i);
        if isDecimal(cells[i]) {
          text := text + cells[i] + [d];
        } else {
          text := text + "\"" + cells[i] + "\"" + [d];
        }
      }
      var cut := LastIndexOf(text, d);
      if cut < 0 {
        return Err(DelimiterNotFound);
      }
      assert cut == |text| - 1;
      return Ok(text[..cut] + "\n");
    }

    /** GetFileLength: the length of what GET returns. */
    method GetFileLength(file: RemoteFile) returns (r: Result<nat>)
      ensures r.Ok? ==> r.value == |file.committed|
      ensures r.Err? ==> r.error == RequestFailed(GetRequest)
    {
      var got := file.Get();
      if got.Err? {
        return Err(got.error);
      }
      return Ok(|got.value|);
    }

    /** Read: fetch the file and parse it; the header flag moves on only when the fetch succeeds. */
    method Read(file: RemoteFile) returns (r: Result<ReadResult>)
      modifies this
      ensures r.Err? ==> r.error == RequestFailed(GetRequest) && skipHeader == old(skipHeader)
      ensures r.Ok? ==>
        Parsed(r.value, skipHeader) == ParseContent(newLine, delimiter, file.committed, old(skipHeader))
    {
      var got := file.Get();
      if got.Err? {
        return Err(got.error);
      }
      var lines := Split(got.value, newLine);
      var keys: seq<string> := [];
      var values: seq<seq<string>> := [];
      for k := 0 to |lines|
        invariant Parsed(ReadResult(keys, values), skipHeader) ==
                  ParseLines(delimiter, lines[..k], old(skipHeader))
      {
        ParseLinesStep(delimiter, lines, k, old(skipHeader));
        keys, values := ReadLine(lines[k], keys, values);
      }
      assert lines[..|lines|] == lines;
      return Ok(ReadResult(keys, values));
    }

    /** Read's loop body for one line: strip the quotes, split on the delimiter, and add the
        cells to the keys (setting the flag) or as a new row. */
    method ReadLine(line: string, keys: seq<string>, values: seq<seq<string>>)
      returns (keys': seq<string>, values': seq<seq<string>>)
      modifies this
      ensures Parsed(ReadResult(keys', values'), skipHeader) ==
              ParseStep(delimiter, Parsed(ReadResult(keys, values), old(skipHeader)), line)
    {
      keys', values' := keys, values;
      if line == "" {
        return;
      }
      var val := Split(RemoveQuotes(line), [delimiter]);
      if !skipHeader {
        keys' := AddCells(keys, val);
        skipHeader := true;
      } else {
        values' := values + [val];
      }
    }

    /** The header loop of Read: every cell added to the keys, in order. */
    method AddCells(keys: seq<string>, cells: seq<string>) returns (keys': seq<string>)
      ensures keys' == keys + cells
    {
      keys' := keys;
      for m := 0 to |cells|
        invariant keys' == keys + cells[..m]
      {
        assert cells[..m + 1] == cells[..m] + [cells[m]];
        keys' := keys' + [cells[m]];
      }
      assert cells[..|cells|] == cells;
    }

    /** Update's row loop: in every row whose first cell parses to `id`, each column from 1 up
        to |keys|-1 takes the non-null element at its position. */
    method ApplyUpdate(res: ReadResult, id: Uuid, elements: seq<Option<string>>) returns (r: Result<ReadResult>)
      ensures r == match UpdateRows(parseGuid, |res.keys|, res.values, id, elements)
                   case Ok(rows) => Ok(ReadResult(res.keys, rows))
                   case Err(e) => Err(e)
    {
      var values := res.values;
      var n := |res.keys|;
      for j := 0 to |values|
        invariant |values| == |res.values|
        invariant n > 0 ==> UpdateRows(parseGuid, n, res.values[..j], id, elements) == Ok(values[..j])
        invariant n == 0 ==> values == res.values
        invariant forall k :: j <= k < |values| ==> values[k] == res.values[k]
      {
        var row := UpdateCells(values[j], n, id, elements);
        if row.Err? {
          UpdateRowsStopsAt(parseGuid, n, res.values, j, id, elements);
          return Err(row.error);
        }
        ghost var done := values[..j];
        values := values[j := row.value];
        if n > 0 {
          assert res.values[..j + 1][..j] == res.values[..j];
          assert values[..j + 1] == done + [row.value];
        }
      }
      assert res.values[..|res.values|] == res.values;
      assert values[..|values|] == values;
      return Ok(ReadResult(res.keys, values));
    }

    /** Update's column loop over one row, for `n` keys: column 0 decides whether the row is
        the one to update; every later column with a new value is overwritten in place. */
    method UpdateCells(row: seq<string>, n: nat, id: Uuid, elements: seq<Option<string>>)
      returns (r: Result<seq<string>>)
      ensures n == 0 ==> r == Ok(row)
      ensures n > 0 ==> r == UpdateRow(parseGuid, n, row, id, elements)
    {
      var value := row;
      var updateRow := false;
      for i := 0 to n
        invariant i == 0 ==> value == row && !updateRow
        invariant i > 0 ==> HasGuid(parseGuid, row) && updateRow == Matches(parseGuid, row, id)
        invariant i > 0 && updateRow ==>
                    (forall c: nat :: 1 <= c < i ==> SlotFits(row, elements, c)) &&
                    value == Overlay(row, elements, i)
        invariant i > 0 && !updateRow ==> value == row
      {
        if i == 0 {
          if |value| == 0 {
            return Err(IndexOutOfRange);
          }
          var g := parseGuid(value[0]);
          if g.None? {
            return Err(BadGuid(value[0]));
          }
          if g.value == id {
            updateRow := true;
            assert Overlay(row, elements, 1) == row;
          }
        } else if updateRow {
          if i >= |elements| {
            assert !SlotFits(row, elements, i);
            return Err(IndexOutOfRange);
          }
          if elements[i].Some? {
            if i >= |value| {
              assert !SlotFits(row, elements, i);
              return Err(IndexOutOfRange);
            }
            value := value[i := elements[i].value];
            assert value == Overlay(row, elements, i + 1);
          } else {
            assert Overlay(row, elements, i) == Overlay(row, elements, i + 1);
          }
        }
      }
      return Ok(value);
    }

    /** Delete's row loop: from the last row to the first, every row whose first cell parses
        to `id` is removed. */
    method RemoveRows(res: ReadResult, id: Uuid) returns (r: Result<ReadResult>)
      ensures r == match DeleteRows(parseGuid, |res.keys|, res.values, id)
                   case Ok(rows) => Ok(ReadResult(res.keys, rows))
                   case Err(e) => Err(e)
    {
      var values := res.values;
      var n := |res.keys|;
      var j := |values| - 1;
      while j >= 0
        invariant -1 <= j < |res.values|
        invariant n == 0 ==> values == res.values
        invariant n > 0 ==> values == res.values[..j + 1] + Kept(parseGuid, res.values[j + 1..], id)
        invariant n > 0 ==> forall k :: j < k < |res.values| ==> HasGuid(parseGuid, res.values[k])
        decreases j
      {
        ghost var row := res.values[j];
        ghost var rest := if n > 0 then Kept(parseGuid, res.values[j + 1..], id) else [];
        assert values[j] == row;
        var remove := ScanRow(values[j], n, id);
        if remove.Err? {
          ScanErrorLastBad(parseGuid, res.values, j);
          return Err(remove.error);
        }
        if n > 0 {
          KeptBackwardStep(parseGuid, res.values, j, id, rest, remove.value);
        }
        if remove.value {
          values := values[..j] + values[j + 1..];
        }
        assert n > 0 ==> HasGuid(parseGuid, row) && values == res.values[..j] + Kept(parseGuid, res.values[j..], id);
        j := j - 1;
      }
      if n > 0 {
        assert res.values[0..] == res.values && res.values[..0] == [];
        assert values == Kept(parseGuid, res.values, id);
        ScanErrorNone(parseGuid, res.values);
      }
      return Ok(ReadResult(res.keys, values));
    }

    /** Delete's column loop over one row, for `n` keys: column 0 decides whether the row is
        removed, and the loop breaks off as soon as it is. */
    method ScanRow(row: seq<string>, n: nat, id: Uuid) returns (r: Result<bool>)
      ensures n == 0 ==> r == Ok(false)
      ensures n > 0 && !HasGuid(parseGuid, row) ==> r == Err(IdError(row))
      ensures n > 0 && HasGuid(parseGuid, row) ==> r == Ok(Matches(parseGuid, row, id))
    {
      var i := 0;
      while i < n
        invariant 0 <= i <= n
        invariant i > 0 ==> HasGuid(parseGuid, row) && !Matches(parseGuid, row, id)
        decreases n - i
      {
        if i == 0 {
          if |row| == 0 {
            return Err(IndexOutOfRange);
          }
          var g := parseGuid(row[0]);
          if g.None? {
            return Err(BadGuid(row[0]));
          }
          if g.value == id {
            return Ok(true);
          }
        }
        i := i + 1;
      }
      return Ok(false);
    }

    /** CreateFile: create (or truncate) the file, append `content` at 0, flush at its length. */
    method CreateFile(file: RemoteFile, content: string) returns (r: Result<()>)
      modifies file
      ensures RewriteOutcome(old(file.committed), old(file.pending), content, r, file.committed, file.pending)
    {
      var ok := file.Create();
      if !ok {
        return Err(RequestFailed(CreateRequest));
      }
      ok := file.Append(0, content);
      if !ok {
        return Err(RequestFailed(AppendRequest));
      }
      ok := file.Flush(|content|);
      if !ok {
        return Err(RequestFailed(FlushRequest));
      }
      return Ok(());
    }

    /** Write: append one record at the current end of the file and flush it. The append
        position is the length GET reports, so data staged but never flushed makes it fail. */
    method Write(file: RemoteFile, elements: seq<string>) returns (r: Result<()>)
      modifies file
      ensures AppendOutcome(old(file.committed), old(file.pending),
                            EncodeRecord(isDecimal, delimiter, elements), r, file.committed, file.pending)
      ensures elements == [] ==> r.Err?
      ensures old(file.pending) != "" ==> r.Err?
    {
      var fileLength := GetFileLength(file);
      if fileLength.Err? {
        return Err(fileLength.error);
      }
      var row := EncodeCells(elements, |elements|);
      assert row == EncodeRecord(isDecimal, delimiter, elements) by {
        assert elements[..|elements|] == elements;
      }
      if row.Err? {
        return Err(row.error);
      }
      r := AppendRow(file, fileLength.value, row.value);
    }

    /** Write's append protocol: append `row` at `position`, the length GET reported, then
        flush at `position` plus the row's length. */
    method AppendRow(file: RemoteFile, position: nat, row: string) returns (r: Result<()>)
      requires position == |file.committed|
      modifies file
      ensures AppendOutcome(old(file.committed), old(file.pending), Ok(row), r, file.committed, file.pending)
      ensures old(file.pending) != "" ==> r.Err?
    {
      var ok := file.Append(position, row);
      if !ok {
        return Err(RequestFailed(AppendRequest));
      }
      ok := file.Flush(|row| + position);
      if !ok {
        return Err(RequestFailed(FlushRequest));
      }
      return Ok(());
    }

    /** Update: read the table, overwrite the non-null elements of every row whose identifier
        is `id`, and recreate the file with the result. */
    method Update(file: RemoteFile, id: Uuid, elements: seq<Option<string>>) returns (r: Result<()>)
      modifies this, file
      ensures r == Err(RequestFailed(GetRequest)) ==>
                skipHeader == old(skipHeader) && file.committed == old(file.committed) && file.pending == old(file.pending)
      ensures r != Err(RequestFailed(GetRequest)) ==>
                var p := ParseContent(newLine, delimiter, old(file.committed), old(skipHeader));
                && skipHeader == p.skipHeader
                && match UpdatedContent(isDecimal, parseGuid, delimiter, p.result, id, elements)
                   case Err(e) => r == Err(e) && file.committed == old(file.committed) && file.pending == old(file.pending)
                   case Ok(c) => RewriteOutcome(old(file.committed), old(file.pending), c, r, file.committed, file.pending)
    {
      var res := Read(file);
      if res.Err? {
        return Err(res.error);
      }
      var updated := ApplyUpdate(res.value, id, elements);
      UpdateRowsRaisesLocally(parseGuid, |res.value.keys|, res.value.values, id, elements);
      if updated.Err? {
        return Err(updated.error);
      }
      var content := ReadResultToCSV(updated.value);
      if content.Err? {
        return Err(content.error);
      }
      r := CreateFile(file, content.value);
    }

    /** Delete: read the table, drop every row whose identifier is `id`, and recreate the file
        with the rest. */
    method Delete(file: RemoteFile, id: Uuid) returns (r: Result<()>)
      modifies this, file
      ensures r == Err(RequestFailed(GetRequest)) ==>
                skipHeader == old(skipHeader) && file.committed == old(file.committed) && file.pending == old(file.pending)
      ensures r != Err(RequestFailed(GetRequest)) ==>
                var p := ParseContent(newLine, delimiter, old(file.committed), old(skipHeader));
                && skipHeader == p.skipHeader
                && match PrunedContent(isDecimal, parseGuid, delimiter, p.result, id)
                   case Err(e) => r == Err(e) && file.committed == old(file.committed) && file.pending == old(file.pending)
                   case Ok(c) => RewriteOutcome(old(file.committed), old(file.pending), c, r, file.committed, file.pending)
    {
      var res := Read(file);
      if res.Err? {
        return Err(res.error);
      }
      var pruned := RemoveRows(res.value, id);
      DeleteRowsRaisesLocally(parseGuid, |res.value.keys|, res.value.values, id);
      if pruned.Err? {
        return Err(pruned.error);
      }
      var content := ReadResultToCSV(pruned.value);
      if content.Err? {
        return Err(content.error);
      }
      r := CreateFile(file, content.value);
    }
  }
}
