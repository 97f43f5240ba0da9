/** What the serialiser, the parser and the row operations of CSVHandler guarantee. */
module TableProperties {
  import opened Outcomes
  import opened Text
  import opened Table

  // ---------------------------------------------------------------------------------------
  // Serialisation

  lemma {:induction false} ConcatLinesAppend(a: seq<string>, b: seq<string>)
    ensures ConcatLines(a + b) == ConcatLines(a) + ConcatLines(b)
    decreases |b|
  {
    if b == [] {
      assert a + b == a;
    } else {
      var init := b[..|b| - 1];
      assert (a + b)[..|a + b| - 1] == a + init;
      ConcatLinesAppend(a, init);
    }
  }

  /** The file text begins with the header names joined by the delimiter and "\n", and the
      rest is one line per row; with no keys serialising fails. */
  lemma {:induction false} SerializeHeaderFirst(isDecimal: string -> bool, d: char, t: ReadResult)
    ensures |t.keys| == 0 ==> Serialize(isDecimal, d, t) == Err(DelimiterNotFound)
    ensures Serialize(isDecimal, d, t).Ok? ==>
      Serialize(isDecimal, d, t).value ==
        Join(t.keys, d) + "\n" + ConcatLines(RowTexts(isDecimal, d, t.values, |t.keys|))
  {
    if Serialize(isDecimal, d, t).Ok? {
      var header := [Join(t.keys, d)];
      ConcatLinesAppend(header, RowTexts(isDecimal, d, t.values, |t.keys|));
      assert header[..0] == [];
    }
  }

  /** Quotes added for a non-decimal cell are exactly what the parser strips again, so what
      Read sees of a cell does not depend on the decimal test. */
  lemma {:induction false} QuotingIsTransparent(isDecimal: string -> bool, v: string)
    ensures RemoveQuotes(Encode(isDecimal, v)) == RemoveQuotes(v)
  {
    if !isDecimal(v) {
      RemoveQuotesAppend("\"" + v, "\"");
      RemoveQuotesAppend("\"", v);
    }
  }

  /** A record line grows one encoded cell at a time, as the serialiser's loops build it. */
  lemma {:induction false} LineSnoc(isDecimal: string -> bool, d: char, cells: seq<string>, i: nat)
    requires i < |cells|
    ensures Line(isDecimal, d, cells[..i + 1]) ==
            if i == 0 then Encode(isDecimal, cells[0])
            else Line(isDecimal, d, cells[..i]) + [d] + Encode(isDecimal, cells[i])
  {
    var enc := EncodeAll(isDecimal, cells[..i + 1]);
    if i > 0 {
      assert enc == EncodeAll(isDecimal, cells[..i]) + [Encode(isDecimal, cells[i])];
      JoinSnoc(EncodeAll(isDecimal, cells[..i]), Encode(isDecimal, cells[i]), d);
    }
  }

  /** The serialiser's row loop adds one line per row. */
  lemma {:induction false} SerializeStep(isDecimal: string -> bool, d: char, keys: seq<string>, values: seq<seq<string>>, j: nat)
    requires j < |values| && CoversKeys(values[..j], |keys|) && |values[j]| >= |keys|
    ensures CoversKeys(values[..j + 1], |keys|)
    ensures ConcatLines([Join(keys, d)] + RowTexts(isDecimal, d, values[..j + 1], |keys|)) ==
            ConcatLines([Join(keys, d)] + RowTexts(isDecimal, d, values[..j], |keys|))
              + Line(isDecimal, d, values[j][..|keys|]) + "\n"
  {
    assert values[..j + 1] == values[..j] + [values[j]];
    RowTextsSnoc(isDecimal, d, values[..j], values[j], |keys|);
    var ls := [Join(keys, d)] + RowTexts(isDecimal, d, values[..j], |keys|);
    var ls' := ls + [Line(isDecimal, d, values[j][..|keys|])];
    assert [Join(keys, d)] + RowTexts(isDecimal, d, values[..j + 1], |keys|) == ls';
    assert ls'[..|ls'| - 1] == ls;
  }

  /** The serialiser's text is the header line followed by the row loop's lines. */
  lemma {:induction false} SerializeRows(isDecimal: string -> bool, d: char, keys: seq<string>,
                                         values: seq<seq<string>>, j: nat)
    requires j <= |values| && forall k :: 0 <= k < j ==> |values[k]| >= |keys|
    ensures CoversKeys(values[..j], |keys|)
    ensures ConcatLines([Join(keys, d)] + RowTexts(isDecimal, d, values[..j], |keys|)) ==
            Emitted(isDecimal, d, Join(keys, d) + "\n", values, |keys|, j)
  {
    if j == 0 {
      assert [Join(keys, d)] + RowTexts(isDecimal, d, values[..0], |keys|) == [Join(keys, d)];
      assert [Join(keys, d)][..0] == [];
    } else {
      SerializeRows(isDecimal, d, keys, values, j - 1);
      SerializeStep(isDecimal, d, keys, values, j - 1);
    }
  }

  /** Write's row is exactly the line the serialiser emits for that row, so appending it to a
      serialised file gives the serialisation of the table with the row added. */
  lemma {:induction false} SerializeAppendRow(isDecimal: string -> bool, d: char, t: ReadResult, row: seq<string>)
    requires Serialize(isDecimal, d, t).Ok?
    requires |row| == |t.keys|
    ensures EncodeRecord(isDecimal, d, row).Ok?
    ensures Serialize(isDecimal, d, ReadResult(t.keys, t.values + [row])) ==
            Ok(Serialize(isDecimal, d, t).value + EncodeRecord(isDecimal, d, row).value)
  {
    var n := |t.keys|;
    var t' := ReadResult(t.keys, t.values + [row]);
    RowTextsSnoc(isDecimal, d, t.values, row, n);
    assert row[..n] == row;
    var ls := [Join(t.keys, d)] + RowTexts(isDecimal, d, t.values, n);
    var ls' := ls + [Line(isDecimal, d, row)];
    assert [Join(t.keys, d)] + RowTexts(isDecimal, d, t'.values, n) == ls';
    assert ls'[..|ls'| - 1] == ls;
    assert ConcatLines(ls') == ConcatLines(ls) + Line(isDecimal, d, row) + "\n";
    assert Serialize(isDecimal, d, t) == Ok(ConcatLines(ls));
    assert EncodeRecord(isDecimal, d, row) == Ok(Line(isDecimal, d, row) + "\n");
    assert Serialize(isDecimal, d, t') == Ok(ConcatLines(ls'));
    assert ConcatLines(ls') == ConcatLines(ls) + (Line(isDecimal, d, row) + "\n");
  }

  lemma {:induction false} RowTextsSnoc(isDecimal: string -> bool, d: char, values: seq<seq<string>>, row: seq<string>, n: nat)
    requires CoversKeys(values, n) && |row| >= n
    ensures CoversKeys(values + [row], n)
    ensures RowTexts(isDecimal, d, values + [row], n) == RowTexts(isDecimal, d, values, n) + [Line(isDecimal, d, row[..n])]
  {
    var values' := values + [row];
    assert CoversKeys(values', n);
    forall j | 0 <= j < |values'|
      ensures RowTexts(isDecimal, d, values', n)[j] == (RowTexts(isDecimal, d, values, n) + [Line(isDecimal, d, row[..n])])[j]
    {
      if j < |values| {
        assert values'[j] == values[j];
      }
    }
  }

  // ---------------------------------------------------------------------------------------
  // Parsing

  /** Splitting "\n"-terminated lines at the newline characters gives the lines back, followed
      by whatever trails the last terminator. */
  lemma {:induction false} SplitConcatLines(newLine: string, lines: seq<string>, last: string)
    requires '\n' in newLine
    requires forall k :: 0 <= k < |lines| ==> NoneOf(lines[k], newLine)
    requires NoneOf(last, newLine)
    ensures Split(ConcatLines(lines) + last, newLine) == lines + [last]
    decreases |lines|
  {
    SplitNoSeparator(last, newLine);
    if lines == [] {
      assert ConcatLines(lines) + last == last;
    } else {
      var init := lines[..|lines| - 1];
      var m := lines[|lines| - 1];
      SplitConcatLines(newLine, init, m);
      assert ConcatLines(lines) + last == (ConcatLines(init) + m) + ['\n'] + last;
      SplitAtSeparator(ConcatLines(init) + m, '\n', last, newLine);
      assert init + [m] == lines;
    }
  }

  lemma {:induction false} NonBlankAppend(a: seq<string>, b: seq<string>)
    ensures NonBlank(a + b) == NonBlank(a) + NonBlank(b)
    decreases |b|
  {
    if b == [] {
      assert a + b == a;
    } else {
      var init := b[..|b| - 1];
      assert (a + b)[..|a + b| - 1] == a + init;
      NonBlankAppend(a, init);
    }
  }

  lemma {:induction false} NonBlankAll(lines: seq<string>)
    requires forall k :: 0 <= k < |lines| ==> lines[k] != ""
    ensures NonBlank(lines) == lines
    decreases |lines|
  {
    if lines != [] {
      NonBlankAll(lines[..|lines| - 1]);
    }
  }

  /** The header line parses back to the names it was built from. */
  lemma {:induction false} HeaderCells(d: char, keys: seq<string>)
    requires ValidDelimiter(d)
    requires |keys| >= 1
    requires forall k :: 0 <= k < |keys| ==> Clean(keys[k], d)
    ensures Cells(d, Join(keys, d)) == keys
  {
    forall k | 0 <= k < |keys| ensures NoneOf(keys[k], ['"']) && NoneOf(keys[k], [d]) {
      assert Clean(keys[k], d);
    }
    NoneOfJoin(keys, d, ['"']);
    RemoveQuotesNoQuote(Join(keys, d));
    SplitJoin(keys, d);
  }

  /** A record line parses back to its cells, whichever of them were quoted. */
  lemma {:induction false} RecordCells(isDecimal: string -> bool, d: char, row: seq<string>)
    requires ValidDelimiter(d)
    requires |row| >= 1
    requires forall i :: 0 <= i < |row| ==> Clean(row[i], d)
    ensures Cells(d, Line(isDecimal, d, row)) == row
  {
    var enc := EncodeAll(isDecimal, row);
    RemoveQuotesJoin(enc, d);
    var stripped := seq(|enc|, k requires 0 <= k < |enc| => RemoveQuotes(enc[k]));
    forall k | 0 <= k < |row| ensures stripped[k] == row[k] && NoneOf(row[k], [d]) {
      assert Clean(row[k], d);
      QuotingIsTransparent(isDecimal, row[k]);
      RemoveQuotesNoQuote(row[k]);
    }
    assert stripped == row;
    SplitJoin(row, d);
  }

  /** No line of a well-formed table holds a newline character. */
  lemma {:induction false} LineFitsOnOneLine(isDecimal: string -> bool, newLine: string, d: char, cells: seq<string>,
                          encode: bool)
    requires PlatformNewLine(newLine) && ValidDelimiter(d)
    requires forall i :: 0 <= i < |cells| ==> Clean(cells[i], d)
    ensures NoneOf(if encode then Line(isDecimal, d, cells) else Join(cells, d), newLine)
  {
    var parts := if encode then EncodeAll(isDecimal, cells) else cells;
    forall k | 0 <= k < |parts| ensures NoneOf(parts[k], newLine) {
      assert Clean(cells[k], d);
      if encode {
        forall c | c in Encode(isDecimal, cells[k]) ensures c !in newLine {
          if !isDecimal(cells[k]) {
            assert c == '"' || c in cells[k];
          }
        }
      }
    }
    NoneOfJoin(parts, d, newLine);
  }

  /** The row lines parse back to the rows. */
  lemma {:induction false} RowsCells(isDecimal: string -> bool, d: char, values: seq<seq<string>>, n: nat)
    requires ValidDelimiter(d) && n >= 1
    requires forall r :: r in values ==> |r| == n
    requires forall r, i :: r in values && 0 <= i < |r| ==> Clean(r[i], d)
    ensures CoversKeys(values, n)
    ensures CellsOf(d, RowTexts(isDecimal, d, values, n)) == values
  {
    assert CoversKeys(values, n) by {
      forall j | 0 <= j < |values| ensures |values[j]| >= n {
        assert values[j] in values;
      }
    }
    var rows := RowTexts(isDecimal, d, values, n);
    forall j | 0 <= j < |values| ensures CellsOf(d, rows)[j] == values[j] {
      var r := values[j];
      assert r in values;
      assert r[..n] == r;
      RecordCells(isDecimal, d, r);
    }
  }

  /** Read over "\n"-terminated non-empty single lines: the first is the header, the others rows. */
  lemma {:induction false} ParseLinesFresh(newLine: string, d: char, ls: seq<string>)
    requires '\n' in newLine
    requires ls != []
    requires forall k :: 0 <= k < |ls| ==> NoneOf(ls[k], newLine) && ls[k] != ""
    ensures ParseContent(newLine, d, ConcatLines(ls), false) ==
            Parsed(ReadResult(Cells(d, ls[0]), CellsOf(d, ls[1..])), true)
  {
    assert NoneOf("", newLine);
    SplitConcatLines(newLine, ls, "");
    assert ConcatLines(ls) + "" == ConcatLines(ls);
    NonBlankAppend(ls, [""]);
    NonBlankAll(ls);
    assert NonBlank([""]) == [];
    assert NonBlank(ls + [""]) == ls;
  }

  /** The blank-line condition in the library's own terms: Decimal.TryParse rejects the empty
      string, so when the first key name is not empty and every row has a cell, no line of
      the serialised table is empty. */
  lemma {:induction false} NoBlankLinesFromParse(isDecimal: string -> bool, d: char, t: ReadResult)
    requires !isDecimal("")
    requires |t.keys| >= 1 && t.keys[0] != ""
    requires forall r :: r in t.values ==> |r| >= 1
    ensures NoBlankLines(isDecimal, d, t)
  {
    JoinStartsWithFirst(t.keys, d);
    forall r | r in t.values ensures Line(isDecimal, d, r) != "" {
      var cells := EncodeAll(isDecimal, r);
      assert cells[0] == Encode(isDecimal, r[0]) != "";
      JoinStartsWithFirst(cells, d);
    }
  }

  /** Round trip: a handler that has not read a header yet, reading what the serialiser wrote,
      recovers the same keys and rows in the same order. */
  lemma {:induction false} ParseSerialize(isDecimal: string -> bool, newLine: string, d: char, t: ReadResult)
    requires PlatformNewLine(newLine) && ValidDelimiter(d)
    requires WellFormed(isDecimal, d, t)
    ensures Serialize(isDecimal, d, t).Ok?
    ensures ParseContent(newLine, d, Serialize(isDecimal, d, t).value, false) == Parsed(t, true)
  {
    var n := |t.keys|;
    assert CoversKeys(t.values, n) by {
      forall j | 0 <= j < |t.values| ensures |t.values[j]| >= n {
        assert t.values[j] in t.values;
      }
    }
    var rows := RowTexts(isDecimal, d, t.values, n);
    var ls := [Join(t.keys, d)] + rows;
    forall k | 0 <= k < |ls| ensures NoneOf(ls[k], newLine) && ls[k] != "" {
      if k == 0 {
        LineFitsOnOneLine(isDecimal, newLine, d, t.keys, false);
      } else {
        var r := t.values[k - 1];
        assert r in t.values;
        assert r[..n] == r;
        LineFitsOnOneLine(isDecimal, newLine, d, r, true);
      }
    }
    assert Serialize(isDecimal, d, t) == Ok(ConcatLines(ls));
    ParseLinesFresh(newLine, d, ls);
    HeaderCells(d, t.keys);
    RowsCells(isDecimal, d, t.values, n);
    assert ls[1..] == rows;
  }

  /** Read's loop body: an empty line changes nothing; the first other line while the flag
      is clear becomes the keys; every other line becomes a row. */
  lemma {:induction false} ParseLinesStep(d: char, lines: seq<string>, k: nat, skipHeader: bool)
    requires k < |lines|
    ensures var p := ParseLines(d, lines[..k], skipHeader);
            && (!p.skipHeader ==> p.result == ReadResult([], []))
            && ParseLines(d, lines[..k + 1], skipHeader) == ParseStep(d, p, lines[k])
  {
    var line := lines[k];
    assert lines[..k + 1][..k] == lines[..k];
    var ne := NonBlank(lines[..k]);
    if line != "" {
      assert NonBlank(lines[..k + 1]) == ne + [line];
      assert CellsOf(d, ne + [line]) == CellsOf(d, ne) + [Cells(d, line)];
      if ne != [] {
        assert (ne + [line])[1..] == ne[1..] + [line];
        assert CellsOf(d, ne[1..] + [line]) == CellsOf(d, ne[1..]) + [Cells(d, line)];
      }
    }
  }

  /** The header flag lives on the handler: once a read has consumed a header, every later
      read of the same file returns no keys and hands the header line back as a row. */
  lemma {:induction false} ReadTwice(newLine: string, d: char, content: string)
    requires NonBlank(Split(content, newLine)) != []
    ensures var first := ParseContent(newLine, d, content, false);
            var second := ParseContent(newLine, d, content, first.skipHeader);
            && first.skipHeader
            && second.skipHeader
            && second.result.keys == []
            && second.result.values == [first.result.keys] + first.result.values
  {
    var ne := NonBlank(Split(content, newLine));
    assert ParseContent(newLine, d, content, false) ==
           Parsed(ReadResult(Cells(d, ne[0]), CellsOf(d, ne[1..])), true);
    assert ParseContent(newLine, d, content, true) == Parsed(ReadResult([], CellsOf(d, ne)), true);
    CellsOfCons(d, ne);
  }

  /** The rows of a non-empty run of lines: those of its first line, then those of the rest. */
  lemma {:induction false} CellsOfCons(d: char, ne: seq<string>)
    requires ne != []
    ensures CellsOf(d, ne) == [Cells(d, ne[0])] + CellsOf(d, ne[1..])
  {
    assert forall k :: 0 <= k < |ne| - 1 ==> CellsOf(d, ne[1..])[k] == CellsOf(d, ne)[k + 1];
  }

  /** Write followed by Read: the same keys, and the old rows followed by the new one. */
  lemma {:induction false} WriteThenRead(isDecimal: string -> bool, newLine: string, d: char, t: ReadResult,
                      row: seq<string>)
    requires PlatformNewLine(newLine) && ValidDelimiter(d)
    requires WellFormed(isDecimal, d, t)
    requires |row| == |t.keys|
    requires forall i :: 0 <= i < |row| ==> Clean(row[i], d)
    requires Line(isDecimal, d, row) != ""
    ensures Serialize(isDecimal, d, t).Ok? && EncodeRecord(isDecimal, d, row).Ok?
    ensures ParseContent(newLine, d,
                         Serialize(isDecimal, d, t).value + EncodeRecord(isDecimal, d, row).value,
                         false)
            == Parsed(ReadResult(t.keys, t.values + [row]), true)
  {
    ParseSerialize(isDecimal, newLine, d, t);
    SerializeAppendRow(isDecimal, d, t, row);
    var t' := ReadResult(t.keys, t.values + [row]);
    assert WellFormed(isDecimal, d, t');
    ParseSerialize(isDecimal, newLine, d, t');
  }

  /** A handler whose flag is already set reads no keys, so Update and Delete on it always
      fail in the serialiser, before the file is touched. */
  lemma {:induction false} StickyFlagBlocksRewrite(isDecimal: string -> bool, parseGuid: string -> Option<Uuid>,
                                newLine: string, d: char, content: string, id: Uuid,
                                elements: seq<Option<string>>)
    ensures var t := ParseContent(newLine, d, content, true).result;
            && UpdatedContent(isDecimal, parseGuid, d, t, id, elements) == Err(DelimiterNotFound)
            && PrunedContent(isDecimal, parseGuid, d, t, id) == Err(DelimiterNotFound)
  {
  }
}
