/** What Update's partial overwrite and Delete's backward removal do to the rows. */
module RowProperties {
  import opened Outcomes
  import opened Text
  import opened Table
  import opened TableProperties

  // ---------------------------------------------------------------------------------------
  // Update

  /** Once a prefix of the rows fails, the whole update fails with the same exception. */
  lemma {:induction false} UpdateRowsPrefixError(parseGuid: string -> Option<Uuid>, n: nat,
                                                 a: seq<seq<string>>, b: seq<seq<string>>,
                                                 id: Uuid, elements: seq<Option<string>>)
    requires UpdateRows(parseGuid, n, a, id, elements).Err?
    ensures UpdateRows(parseGuid, n, a + b, id, elements) == UpdateRows(parseGuid, n, a, id, elements)
    decreases |b|
  {
    if b == [] {
      assert a + b == a;
    } else {
      var init := b[..|b| - 1];
      assert (a + b)[..|a + b| - 1] == a + init;
      UpdateRowsPrefixError(parseGuid, n, a, init, id, elements);
    }
  }

  /** The row loop stops at the first row whose pass raises, with that row's exception. */
  lemma {:induction false} UpdateRowsStopsAt(parseGuid: string -> Option<Uuid>, n: nat, rows: seq<seq<string>>, j: nat,
                          id: Uuid, elements: seq<Option<string>>)
    requires n > 0 && j < |rows|
    requires UpdateRows(parseGuid, n, rows[..j], id, elements).Ok?
    requires UpdateRow(parseGuid, n, rows[j], id, elements).Err?
    ensures UpdateRows(parseGuid, n, rows, id, elements) == Err(UpdateRow(parseGuid, n, rows[j], id, elements).error)
  {
    assert rows[..j + 1][..j] == rows[..j];
    assert UpdateRows(parseGuid, n, rows[..j + 1], id, elements) == Err(UpdateRow(parseGuid, n, rows[j], id, elements).error);
    UpdateRowsPrefixError(parseGuid, n, rows[..j + 1], rows[j + 1..], id, elements);
    assert rows[..j + 1] + rows[j + 1..] == rows;
  }

  /** The row loop raises only the exceptions of a bad identifier or a missing column. */
  lemma {:induction false} UpdateRowsRaisesLocally(parseGuid: string -> Option<Uuid>, n: nat,
                                                   rows: seq<seq<string>>, id: Uuid,
                                                   elements: seq<Option<string>>)
    ensures var u := UpdateRows(parseGuid, n, rows, id, elements);
            u.Err? ==> u.error.IndexOutOfRange? || u.error.BadGuid?
    decreases |rows|
  {
    if n > 0 && rows != [] {
      UpdateRowsRaisesLocally(parseGuid, n, rows[..|rows| - 1], id, elements);
    }
  }

  /** Update succeeds exactly when every first cell is a GUID and, in the matching rows, every
      column the loop visits exists; with no keys the loop never looks at a row. */
  lemma {:induction false} UpdateRowsSucceeds(parseGuid: string -> Option<Uuid>, n: nat,
                                              rows: seq<seq<string>>, id: Uuid,
                                              elements: seq<Option<string>>)
    ensures UpdateRows(parseGuid, n, rows, id, elements).Ok? <==>
            (n == 0 ||
             forall j :: 0 <= j < |rows| ==>
               HasGuid(parseGuid, rows[j]) &&
               (Matches(parseGuid, rows[j], id) ==> forall i: nat :: 1 <= i < n ==> SlotFits(rows[j], elements, i)))
    decreases |rows|
  {
    if n > 0 && rows != [] {
      var init := rows[..|rows| - 1];
      UpdateRowsSucceeds(parseGuid, n, init, id, elements);
      var last := rows[|rows| - 1];
      if UpdateRow(parseGuid, n, last, id, elements).Err? {
        if HasGuid(parseGuid, last) {
          assert Matches(parseGuid, last, id);
          var i: nat :| 1 <= i < n && !SlotFits(last, elements, i);
        }
      }
    }
  }

  /** A successful update rewrites every matching row with the non-null elements at columns
      1 .. |keys|-1 and leaves column 0, all other columns and all other rows as they were. */
  lemma {:induction false} UpdateRowsEffect(parseGuid: string -> Option<Uuid>, n: nat,
                                            rows: seq<seq<string>>, id: Uuid,
                                            elements: seq<Option<string>>)
    requires UpdateRows(parseGuid, n, rows, id, elements).Ok?
    ensures var rows' := UpdateRows(parseGuid, n, rows, id, elements).value;
            && |rows'| == |rows|
            && forall j :: 0 <= j < |rows| ==>
                 && |rows'[j]| == |rows[j]|
                 && forall i :: 0 <= i < |rows[j]| ==>
                      rows'[j][i] ==
                        if n > 0 && Matches(parseGuid, rows[j], id) && 1 <= i < n && i < |elements| && elements[i].Some?
                        then elements[i].value else rows[j][i]
    decreases |rows|
  {
    if n > 0 && rows != [] {
      var init := rows[..|rows| - 1];
      UpdateRowsEffect(parseGuid, n, init, id, elements);
      UpdateRowsSucceeds(parseGuid, n, rows, id, elements);
      var rows' := UpdateRows(parseGuid, n, rows, id, elements).value;
      forall j | 0 <= j < |rows|
        ensures |rows'[j]| == |rows[j]|
        ensures forall i :: 0 <= i < |rows[j]| ==>
                  rows'[j][i] ==
                    if n > 0 && Matches(parseGuid, rows[j], id) && 1 <= i < n && i < |elements| && elements[i].Some?
                    then elements[i].value else rows[j][i]
      {
        if j == |rows| - 1 {
          if Matches(parseGuid, rows[j], id) {
            forall i: nat | 1 <= i < n ensures SlotFits(rows[j], elements, i) {
            }
          }
        } else {
          assert rows[j] == init[j];
        }
      }
    }
  }

  /** Not found: when no row matches, the rows come back unchanged, and Update still rewrites
      the file, with the text it would have serialised anyway. */
  lemma {:induction false} UpdateNotFound(isDecimal: string -> bool, parseGuid: string -> Option<Uuid>, d: char,
                       t: ReadResult, id: Uuid, elements: seq<Option<string>>)
    requires forall j :: 0 <= j < |t.values| ==> HasGuid(parseGuid, t.values[j])
    requires forall j :: 0 <= j < |t.values| ==> !Matches(parseGuid, t.values[j], id)
    ensures UpdateRows(parseGuid, |t.keys|, t.values, id, elements) == Ok(t.values)
    ensures UpdatedContent(isDecimal, parseGuid, d, t, id, elements) == Serialize(isDecimal, d, t)
  {
    var n := |t.keys|;
    UpdateRowsSucceeds(parseGuid, n, t.values, id, elements);
    UpdateRowsEffect(parseGuid, n, t.values, id, elements);
    var rows' := UpdateRows(parseGuid, n, t.values, id, elements).value;
    forall j | 0 <= j < |t.values| ensures rows'[j] == t.values[j] {
    }
    assert rows' == t.values;
  }

  /** Update's elements are aligned with all the keys, identifier included: elements of length
      2 on a three-column file make the matching row's third column raise. */
  lemma {:induction false} UpdateShortElements(parseGuid: string -> Option<Uuid>, row: seq<string>, id: Uuid, b: string)
    requires Matches(parseGuid, row, id)
    ensures UpdateRows(parseGuid, 3, [row], id, [None, Some(b)]) == Err(IndexOutOfRange)
  {
    assert [row][..0] == [];
    assert !SlotFits(row, [None, Some(b)], 2);
  }

  /** Update followed by Read gives the updated rows under the same keys. */
  lemma {:induction false} UpdateThenRead(isDecimal: string -> bool, parseGuid: string -> Option<Uuid>,
                       newLine: string, d: char, t: ReadResult, id: Uuid,
                       elements: seq<Option<string>>)
    requires PlatformNewLine(newLine) && ValidDelimiter(d)
    requires WellFormed(isDecimal, d, t)
    requires forall i :: 0 <= i < |elements| && elements[i].Some? ==> Clean(elements[i].value, d)
    requires UpdateRows(parseGuid, |t.keys|, t.values, id, elements).Ok?
    ensures UpdatedContent(isDecimal, parseGuid, d, t, id, elements).Ok?
    ensures ParseContent(newLine, d, UpdatedContent(isDecimal, parseGuid, d, t, id, elements).value, false)
            == Parsed(ReadResult(t.keys, UpdateRows(parseGuid, |t.keys|, t.values, id, elements).value), true)
  {
    var n := |t.keys|;
    var rows' := UpdateRows(parseGuid, n, t.values, id, elements).value;
    UpdateRowsEffect(parseGuid, n, t.values, id, elements);
    forall j | 0 <= j < |rows'|
      ensures |rows'[j]| == n
      ensures forall i :: 0 <= i < |rows'[j]| ==> Clean(rows'[j][i], d)
      ensures Line(isDecimal, d, rows'[j]) != ""
    {
      assert t.values[j] in t.values;
      UpdatedRowWellFormed(isDecimal, d, n, t.values[j], rows'[j], elements);
    }
    var t' := ReadResult(t.keys, rows');
    assert WellFormed(isDecimal, d, t');
    ParseSerialize(isDecimal, newLine, d, t');
  }

  /** A row that only took clean elements in columns 1 and up still survives the file format. */
  lemma {:induction false} UpdatedRowWellFormed(isDecimal: string -> bool, d: char, n: nat, r: seq<string>,
                             r': seq<string>, elements: seq<Option<string>>)
    requires |r| == n >= 1 && |r'| == n
    requires forall i :: 0 <= i < n ==> Clean(r[i], d)
    requires Line(isDecimal, d, r) != ""
    requires forall i :: 0 <= i < |elements| && elements[i].Some? ==> Clean(elements[i].value, d)
    requires forall i :: 0 <= i < n ==>
               r'[i] == r[i] || (1 <= i < |elements| && elements[i].Some? && r'[i] == elements[i].value)
    ensures forall i :: 0 <= i < n ==> Clean(r'[i], d)
    ensures Line(isDecimal, d, r') != ""
  {
    if n == 1 {
      assert r' == r;
    } else {
      JoinHoldsDelimiter(EncodeAll(isDecimal, r'), d);
    }
  }

  // ---------------------------------------------------------------------------------------
  // Delete

  /** Filtering distributes over concatenation: the surviving rows keep their relative order. */
  lemma {:induction false} KeptAppend(parseGuid: string -> Option<Uuid>, a: seq<seq<string>>,
                                      b: seq<seq<string>>, id: Uuid)
    ensures Kept(parseGuid, a + b, id) == Kept(parseGuid, a, id) + Kept(parseGuid, b, id)
    decreases |a|
  {
    if a == [] {
      assert a + b == b;
    } else {
      assert (a + b)[1..] == a[1..] + b;
      KeptAppend(parseGuid, a[1..], b, id);
    }
  }

  /** Every matching row is removed, every other row keeps its number of copies. */
  lemma {:induction false} KeptCounts(parseGuid: string -> Option<Uuid>, rows: seq<seq<string>>,
                                      id: Uuid, r: seq<string>)
    ensures multiset(Kept(parseGuid, rows, id))[r] ==
            if Matches(parseGuid, r, id) then 0 else multiset(rows)[r]
    decreases |rows|
  {
    if rows != [] {
      KeptCounts(parseGuid, rows[1..], id, r);
      assert rows == [rows[0]] + rows[1..];
    }
  }

  lemma {:induction false} KeptAll(parseGuid: string -> Option<Uuid>, rows: seq<seq<string>>, id: Uuid)
    requires forall j :: 0 <= j < |rows| ==> !Matches(parseGuid, rows[j], id)
    ensures Kept(parseGuid, rows, id) == rows
    decreases |rows|
  {
    if rows != [] {
      KeptAll(parseGuid, rows[1..], id);
    }
  }

  /** The backward scan raises only when some first cell is not a GUID. */
  lemma {:induction false} ScanErrorNone(parseGuid: string -> Option<Uuid>, rows: seq<seq<string>>)
    ensures ScanError(parseGuid, rows).None? <==> forall j :: 0 <= j < |rows| ==> HasGuid(parseGuid, rows[j])
    decreases |rows|
  {
    if rows != [] {
      ScanErrorNone(parseGuid, rows[..|rows| - 1]);
      assert forall j :: 0 <= j < |rows| - 1 ==> rows[..|rows| - 1][j] == rows[j];
    }
  }

  /** The backward scan raises only the exceptions of a bad identifier. */
  lemma {:induction false} DeleteRowsRaisesLocally(parseGuid: string -> Option<Uuid>, n: nat,
                                                   rows: seq<seq<string>>, id: Uuid)
    ensures var u := DeleteRows(parseGuid, n, rows, id);
            u.Err? ==> u.error.IndexOutOfRange? || u.error.BadGuid?
    decreases |rows|
  {
    if n > 0 && rows != [] && HasGuid(parseGuid, rows[|rows| - 1]) {
      DeleteRowsRaisesLocally(parseGuid, n, rows[..|rows| - 1], id);
    }
  }

  /** The exception the backward scan raises is that of the last row without a GUID. */
  lemma {:induction false} ScanErrorLastBad(parseGuid: string -> Option<Uuid>, rows: seq<seq<string>>, j: nat)
    requires j < |rows| && !HasGuid(parseGuid, rows[j])
    requires forall k :: j < k < |rows| ==> HasGuid(parseGuid, rows[k])
    ensures ScanError(parseGuid, rows) == Some(IdError(rows[j]))
    decreases |rows|
  {
    if j < |rows| - 1 {
      var init := rows[..|rows| - 1];
      assert init[j] == rows[j];
      ScanErrorLastBad(parseGuid, init, j);
    }
  }

  /** One step of Delete's backward scan over row `j`: removing that row when it matches and
      keeping it otherwise extends the kept suffix by that row's contribution. */
  lemma {:induction false} KeptBackwardStep(parseGuid: string -> Option<Uuid>, rows: seq<seq<string>>, j: nat, id: Uuid,
                         rest: seq<seq<string>>, remove: bool)
    requires j < |rows| && rest == Kept(parseGuid, rows[j + 1..], id)
    requires remove == Matches(parseGuid, rows[j], id)
    ensures var before := rows[..j + 1] + rest;
            (if remove then before[..j] + before[j + 1..] else before) ==
            rows[..j] + Kept(parseGuid, rows[j..], id)
  {
    var suffix := rows[j..];
    assert suffix[0] == rows[j] && suffix[1..] == rows[j + 1..];
    assert rows[..j + 1] == rows[..j] + [rows[j]];
    var before := rows[..j + 1] + rest;
    assert before[..j] == rows[..j] && before[j + 1..] == rest;
  }

  /** Delete removes every row whose first cell parses to `id`, keeps every other row with its
      multiplicity and order, and raises when any first cell is not a GUID. */
  lemma {:induction false} DeleteRowsEffect(parseGuid: string -> Option<Uuid>, n: nat, rows: seq<seq<string>>, id: Uuid)
    requires n > 0
    ensures DeleteRows(parseGuid, n, rows, id).Ok? <==>
            forall j :: 0 <= j < |rows| ==> HasGuid(parseGuid, rows[j])
    ensures DeleteRows(parseGuid, n, rows, id).Ok? ==>
            var rows' := DeleteRows(parseGuid, n, rows, id).value;
            && (forall r :: r in rows' ==> !Matches(parseGuid, r, id))
            && (forall r :: multiset(rows')[r] == if Matches(parseGuid, r, id) then 0 else multiset(rows)[r])
  {
    ScanErrorNone(parseGuid, rows);
    forall r ensures multiset(Kept(parseGuid, rows, id))[r] ==
                     if Matches(parseGuid, r, id) then 0 else multiset(rows)[r] {
      KeptCounts(parseGuid, rows, id, r);
    }
  }

  /** A sequence is its prefix before `j`, its element at `j` and its suffix after `j`. */
  lemma {:induction false} SpliceAt(rows: seq<seq<string>>, j: nat)
    requires j < |rows|
    ensures rows == rows[..j] + ([rows[j]] + rows[j + 1..])
  {
    assert rows == rows[..j] + rows[j..];
    assert rows[j..] == [rows[j]] + rows[j + 1..];
  }

  /** A run of rows none of which matches is kept whole. */
  lemma {:induction false} KeptRun(parseGuid: string -> Option<Uuid>, rows: seq<seq<string>>, id: Uuid, lo: nat, hi: nat)
    requires lo <= hi <= |rows|
    requires forall k :: lo <= k < hi ==> !Matches(parseGuid, rows[k], id)
    ensures Kept(parseGuid, rows[lo..hi], id) == rows[lo..hi]
  {
    var run := rows[lo..hi];
    forall k | 0 <= k < |run| ensures !Matches(parseGuid, run[k], id) {
      assert run[k] == rows[lo + k];
    }
    KeptAll(parseGuid, run, id);
  }

  /** Dropping one matching row between two runs that are kept whole joins the two runs. */
  lemma {:induction false} KeptSplice(parseGuid: string -> Option<Uuid>, front: seq<seq<string>>, row: seq<string>,
                   back: seq<seq<string>>, id: Uuid)
    requires Matches(parseGuid, row, id)
    requires Kept(parseGuid, front, id) == front && Kept(parseGuid, back, id) == back
    ensures Kept(parseGuid, front + ([row] + back), id) == front + back
  {
    var rest := [row] + back;
    assert Kept(parseGuid, rest, id) == back by {
      assert rest[0] == row && rest[1..] == back;
    }
    KeptAppend(parseGuid, front, rest, id);
  }

  /** The only matching row is the only one the filter drops. */
  lemma {:induction false} KeptDropsOne(parseGuid: string -> Option<Uuid>, rows: seq<seq<string>>, id: Uuid, j: nat)
    requires j < |rows| && Matches(parseGuid, rows[j], id)
    requires forall k :: 0 <= k < |rows| && k != j ==> !Matches(parseGuid, rows[k], id)
    ensures Kept(parseGuid, rows, id) == rows[..j] + rows[j + 1..]
  {
    KeptRun(parseGuid, rows, id, 0, j);
    KeptRun(parseGuid, rows, id, j + 1, |rows|);
    assert rows[0..j] == rows[..j] && rows[j + 1..|rows|] == rows[j + 1..];
    SpliceAt(rows, j);
    KeptSplice(parseGuid, rows[..j], rows[j], rows[j + 1..], id);
  }

  /** With unique identifiers exactly the one matching row disappears. */
  lemma {:induction false} DeleteUnique(parseGuid: string -> Option<Uuid>, n: nat, rows: seq<seq<string>>, id: Uuid, j: nat)
    requires n > 0 && j < |rows|
    requires forall k :: 0 <= k < |rows| ==> HasGuid(parseGuid, rows[k])
    requires Matches(parseGuid, rows[j], id)
    requires forall k :: 0 <= k < |rows| && k != j ==> !Matches(parseGuid, rows[k], id)
    ensures DeleteRows(parseGuid, n, rows, id) == Ok(rows[..j] + rows[j + 1..])
  {
    KeptDropsOne(parseGuid, rows, id, j);
    ScanErrorNone(parseGuid, rows);
  }

  /** Two rows with the same identifier both go: the break leaves only the inner loop. */
  lemma {:induction false} DeleteDuplicates(parseGuid: string -> Option<Uuid>, n: nat, row: seq<string>, id: Uuid)
    requires n > 0 && Matches(parseGuid, row, id)
    ensures DeleteRows(parseGuid, n, [row, row], id) == Ok([])
  {
    assert HasGuid(parseGuid, row);
    assert [row, row][..1] == [row] && [row][..0] == [];
    assert ScanError(parseGuid, [row]) == None;
    assert ScanError(parseGuid, [row, row]) == None;
    assert [row, row][1..] == [row] && [row][1..] == [];
    assert Kept(parseGuid, [row], id) == [];
    assert Kept(parseGuid, [row, row], id) == [];
  }

  /** Delete followed by Read gives the surviving rows under the same keys. */
  lemma {:induction false} DeleteThenRead(isDecimal: string -> bool, parseGuid: string -> Option<Uuid>,
                       newLine: string, d: char, t: ReadResult, id: Uuid)
    requires PlatformNewLine(newLine) && ValidDelimiter(d)
    requires WellFormed(isDecimal, d, t)
    requires forall j :: 0 <= j < |t.values| ==> HasGuid(parseGuid, t.values[j])
    ensures PrunedContent(isDecimal, parseGuid, d, t, id).Ok?
    ensures ParseContent(newLine, d, PrunedContent(isDecimal, parseGuid, d, t, id).value, false)
            == Parsed(ReadResult(t.keys, Kept(parseGuid, t.values, id)), true)
  {
    DeleteRowsEffect(parseGuid, |t.keys|, t.values, id);
    var rows' := Kept(parseGuid, t.values, id);
    forall r | r in rows' ensures r in t.values {
      KeptCounts(parseGuid, t.values, id, r);
    }
    var t' := ReadResult(t.keys, rows');
    assert WellFormed(isDecimal, d, t');
    ParseSerialize(isDecimal, newLine, d, t');
  }
}
