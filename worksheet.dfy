/**
 * The scan of one worksheet inside `generate_output` (src/main.rs:189-263):
 * the report date, the three row markers, the header line written when the
 * run has none yet, and one comma-joined line per data row tagged with the
 * report date. Output lines are modelled without their line terminator.
 */
module Worksheet {
  import opened Wrappers
  import opened Cells
  import opened Header
  import opened Locator

  /** Comma-joins a list of fields. */
  function Join(parts: seq<string>): string {
    if |parts| == 0 then ""
    else if |parts| == 1 then parts[0]
    else Join(parts[..|parts| - 1]) + "," + parts[|parts| - 1]
  }

  /** Each cell's display text, in order. */
  function Texts(row: Row): (r: seq<string>)
    ensures |r| == |row|
  {
    if row == [] then [] else [ToText(row[0])] + Texts(row[1..])
  }

  /** The fields of a data record: the row's cells, then the report date. */
  function Fields(row: Row, date: string): seq<string> {
    Texts(row) + [date]
  }

  /** The output line of a data record. */
  function RecordLine(row: Row, date: string): string {
    Join(Fields(row, date))
  }

  /** The text of cell (1, 0), or `""` when it is missing or not text. */
  function ReportDate(rows: seq<Row>): string {
    if |rows| > 1 && |rows[1]| > 0 then AsString(rows[1][0]).GetOr("") else ""
  }

  /** The row below row `h`, or no cells when `h` is the last row. */
  function SubRow(rows: seq<Row>, h: nat): Row
    requires h < |rows|
  {
    if h + 1 < |rows| then rows[h + 1] else []
  }

  /** The index of the first "Hole Number" row among the first `n` rows. */
  function FirstStart(rows: seq<Row>, n: nat): Option<nat>
    requires n <= |rows|
  {
    if n == 0 then None
    else if FirstStart(rows, n - 1).Some? then FirstStart(rows, n - 1)
    else if IsStart(rows[n - 1]) then Some(n - 1)
    else None
  }

  /** The header a "Hole Number" row at index `h` builds, with the row below it. */
  function HeaderAt(rows: seq<Row>, h: nat): seq<string>
    requires h < |rows|
  {
    Composite(rows[h], SubRow(rows, h))
  }

  /** The header a worksheet contributes: the one built from its first "Hole Number" row. */
  function DocHeader(rows: seq<Row>): Option<seq<string>> {
    var start := FirstStart(rows, |rows|);
    if start.Some? && start.value < |rows| then Some(HeaderAt(rows, start.value)) else None
  }

  /** The header line, if there is a header. */
  function HeaderText(h: Option<seq<string>>): seq<string> {
    if h.Some? then [Join(h.value)] else []
  }

  /** The data records written for the first `n` rows of a worksheet. */
  function DocRecords(rows: seq<Row>, n: nat): seq<string>
    requires n <= |rows|
  {
    if n == 0 then []
    else
      var here := if Emitted(rows, n - 1) then [RecordLine(rows[n - 1], ReportDate(rows))] else [];
      DocRecords(rows, n - 1) + here
  }

  /**
   * What the scan has written before its records once the row `start`
   * points at is seen: the header line, when the run had none yet.
   */
  function HeaderPart(rows: seq<Row>, headersSet: bool, start: Option<nat>): seq<string> {
    if headersSet || start.None? || start.value >= |rows| then [] else [Join(HeaderAt(rows, start.value))]
  }

  /**
   * What the scan of a worksheet appends to the output file: the header
   * line, when no earlier worksheet produced one and this one has a "Hole
   * Number" row, followed by the worksheet's data records.
   */
  function SheetOutput(rows: seq<Row>, headersSet: bool): seq<string> {
    HeaderPart(rows, headersSet, FirstStart(rows, |rows|)) + DocRecords(rows, |rows|)
  }

  /**
   * The scan's variables after some rows: the three row markers, the
   * run-wide `headers_set` flag and the lines written so far.
   */
  datatype Cursor = Cursor(headerRow: int, endRow: int, remarksRow: int, headersSet: bool, written: seq<string>)

  /** One iteration of the row loop (src/main.rs:197-262) at row `i`. */
  function Step(rows: seq<Row>, i: nat, c: Cursor): Cursor
    requires i < |rows|
  {
    var row := rows[i];
    if IsStart(row) then
      if c.headersSet then c.(headerRow := i + 1)
      else c.(headerRow := i + 1, headersSet := true, written := c.written + [Join(HeaderAt(rows, i))])
    else if IsEnd(row) then c.(endRow := i)
    else if i <= c.headerRow then c
    else if c.remarksRow < 0 && IsRemarks(row) then c.(remarksRow := i)
    else if c.headerRow > 0 && c.endRow < 0 && !IsEmpty(First(row)) then
      c.(written := c.written + [RecordLine(row, ReportDate(rows))])
    else c
  }

  /** The scan's variables once the first `n` rows have been seen. */
  function Scan(rows: seq<Row>, headersSet: bool, n: nat): Cursor
    requires n <= |rows|
  {
    if n == 0 then Cursor(-1, -1, -1, headersSet, [])
    else Step(rows, n - 1, Scan(rows, headersSet, n - 1))
  }

  /**
   * The scan of one worksheet: `out` is what it appends to the output file
   * and `nowSet` the new `headers_set`.
   */
  method ScanSheet(rows: seq<Row>, headersSet: bool) returns (out: seq<string>, nowSet: bool)
    ensures nowSet == (headersSet || DocHeader(rows).Some?)
    ensures out == SheetOutput(rows, headersSet)
  {
    var reportDate := ReportDate(rows);
    var cur := Cursor(-1, -1, -1, headersSet, []);
    var rowIdx := 0;
    while rowIdx < |rows|
      invariant 0 <= rowIdx <= |rows|
      invariant cur == Scan(rows, headersSet, rowIdx)
    {
      cur := ScanRow(rows, rowIdx, reportDate, cur);
      rowIdx := rowIdx + 1;
    }
    ScanAgrees(rows, headersSet, |rows|);
    out, nowSet := cur.written, cur.headersSet;
  }

  /** One iteration of the row loop: the scan's variables after row `rowIdx`. */
  method ScanRow(rows: seq<Row>, rowIdx: nat, reportDate: string, cur: Cursor) returns (next: Cursor)
    requires rowIdx < |rows| && reportDate == ReportDate(rows)
    ensures next == Step(rows, rowIdx, cur)
  {
    var row := rows[rowIdx];
    var firstCell := First(row);
    next := cur;
    if AsString(firstCell) == Some(DataStartId) {
      var subHeaderRow := rowIdx + 1;
      next := next.(headerRow := subHeaderRow);
      if !cur.headersSet {
        var subHeaders := if subHeaderRow < |rows| then rows[subHeaderRow] else [];
        var headers := BuildHeader(row, subHeaders);
        assert headers == HeaderAt(rows, rowIdx);
        next := next.(headersSet := true, written := cur.written + [Join(headers)]);
      }
    } else if AsString(firstCell) == Some(DataEndId) {
      next := next.(endRow := rowIdx);
    } else if rowIdx <= cur.headerRow {
    } else if cur.remarksRow < 0 && AsString(firstCell) == Some(RemarksStartId) {
      next := next.(remarksRow := rowIdx);
    } else if cur.headerRow > 0 && cur.endRow < 0 && !IsEmpty(firstCell) {
      var rowData := Texts(row);
      JoinSnoc(rowData, reportDate);
      next := next.(written := cur.written + [Join(rowData) + "," + reportDate]);
    }
  }

  /** Joining one more field adds a comma and the field. */
  lemma {:induction false} JoinSnoc(parts: seq<string>, last: string)
    requires |parts| > 0
    ensures Join(parts + [last]) == Join(parts) + "," + last
  {
    assert (parts + [last])[..|parts|] == parts;
  }

  /** How the classification changes at a "Hole Number" row. */
  lemma {:induction false} StepStart(rows: seq<Row>, i: nat)
    requires i < |rows| && IsStart(rows[i])
    ensures HeaderBound(rows, i + 1) == i + 1
    ensures EndSeen(rows, i + 1) == EndSeen(rows, i)
    ensures RemarksTaken(rows, i + 1) == RemarksTaken(rows, i)
    ensures DocRecords(rows, i + 1) == DocRecords(rows, i)
    ensures FirstStart(rows, i + 1) == if FirstStart(rows, i).Some? then FirstStart(rows, i) else Some(i)
  {
    assert !IsEnd(rows[i]);
    assert !RemarksCandidate(rows, i);
  }

  /** How the classification changes at any other row. */
  lemma {:induction false} StepOther(rows: seq<Row>, i: nat)
    requires i < |rows| && !IsStart(rows[i])
    ensures HeaderBound(rows, i + 1) == HeaderBound(rows, i)
    ensures EndSeen(rows, i + 1) == (EndSeen(rows, i) || IsEnd(rows[i]))
    ensures RemarksTaken(rows, i + 1) == (RemarksTaken(rows, i) || RemarksCandidate(rows, i))
    ensures FirstStart(rows, i + 1) == FirstStart(rows, i)
    ensures !Emitted(rows, i) ==> DocRecords(rows, i + 1) == DocRecords(rows, i)
    ensures Emitted(rows, i) ==> DocRecords(rows, i + 1) == DocRecords(rows, i) + [RecordLine(rows[i], ReportDate(rows))]
  {
  }

  /** A worksheet prefix without a "Hole Number" row yields no records. */
  lemma {:induction false} NoHeaderNoRecords(rows: seq<Row>, n: nat)
    requires n <= |rows| && FirstStart(rows, n).None?
    ensures DocRecords(rows, n) == []
    ensures LastStart(rows, n).None?
  {
    if n > 0 {
      NoHeaderNoRecords(rows, n - 1);
      assert HeaderBound(rows, n - 1) == -1;
    }
  }

  /** The first "Hole Number" row lies among the rows searched. */
  lemma {:induction false} FirstStartBound(rows: seq<Row>, n: nat)
    requires n <= |rows| && FirstStart(rows, n).Some?
    ensures FirstStart(rows, n).value < n
  {
    if FirstStart(rows, n - 1).Some? {
      FirstStartBound(rows, n - 1);
    }
  }

  /**
   * The scan's variables after `n` rows, stated without replaying the scan:
   * the markers as the row classification describes them, and the lines
   * written as the header part followed by the worksheet's data records.
   */
  predicate Agrees(rows: seq<Row>, headersSet: bool, n: nat)
    requires n <= |rows|
  {
    var c := Scan(rows, headersSet, n);
    && c.headerRow == HeaderBound(rows, n)
    && (c.endRow >= 0) == EndSeen(rows, n)
    && (c.remarksRow >= 0) == RemarksTaken(rows, n)
    && c.headersSet == (headersSet || FirstStart(rows, n).Some?)
    && (FirstStart(rows, n).Some? ==> FirstStart(rows, n).value < n)
    && c.written == HeaderPart(rows, headersSet, FirstStart(rows, n)) + DocRecords(rows, n)
  }

  /** The scan agrees with the row classification after any number of rows. */
  lemma {:induction false} ScanAgrees(rows: seq<Row>, headersSet: bool, n: nat)
    requires n <= |rows|
    ensures Agrees(rows, headersSet, n)
  {
    if n > 0 {
      ScanAgrees(rows, headersSet, n - 1);
      if IsStart(rows[n - 1]) {
        AgreesAtStart(rows, headersSet, n - 1);
      } else {
        AgreesAtOther(rows, headersSet, n - 1);
      }
    }
  }

  /** The agreement survives a "Hole Number" row. */
  lemma {:induction false} AgreesAtStart(rows: seq<Row>, headersSet: bool, i: nat)
    requires i < |rows| && IsStart(rows[i]) && Agrees(rows, headersSet, i)
    ensures Agrees(rows, headersSet, i + 1)
  {
    StepStart(rows, i);
    if FirstStart(rows, i).None? {
      NoHeaderNoRecords(rows, i);
    }
  }

  /** The agreement survives any other row. */
  lemma {:induction false} AgreesAtOther(rows: seq<Row>, headersSet: bool, i: nat)
    requires i < |rows| && !IsStart(rows[i]) && Agrees(rows, headersSet, i)
    ensures Agrees(rows, headersSet, i + 1)
  {
    StepOther(rows, i);
    if IsEnd(rows[i]) {
      assert !Emitted(rows, i);
    } else if i <= HeaderBound(rows, i) {
      assert !RemarksCandidate(rows, i) && !Emitted(rows, i);
    } else if !RemarksTaken(rows, i) && IsRemarks(rows[i]) {
      assert IsRemarksRow(rows, i);
    } else {
      assert !IsRemarksRow(rows, i);
    }
  }

  /** Each cell's display text lands at its own column. */
  lemma {:induction false} TextsSpec(row: Row)
    ensures forall k :: 0 <= k < |row| ==> Texts(row)[k] == ToText(row[k])
  {
    if row != [] {
      TextsSpec(row[1..]);
      forall k | 0 < k < |row| ensures Texts(row)[k] == ToText(row[k]) {
        assert row[k] == row[1..][k - 1];
      }
    }
  }

  /**
   * A data record is the row's display texts joined by commas, then a comma
   * and the report date: one field per cell plus the date.
   */
  lemma {:induction false} RecordLineShape(row: Row, date: string)
    requires |row| > 0
    ensures RecordLine(row, date) == Join(Texts(row)) + "," + date
    ensures |Fields(row, date)| == |row| + 1 && Fields(row, date)[|row|] == date
    ensures forall k :: 0 <= k < |row| ==> Fields(row, date)[k] == ToText(row[k])
  {
    JoinSnoc(Texts(row), date);
    TextsSpec(row);
  }

  /**
   * The records of a worksheet prefix are exactly the record lines of its
   * written rows, every one tagged with the worksheet's report date.
   */
  lemma {:induction false} DocRecordsMembers(rows: seq<Row>, n: nat)
    requires n <= |rows|
    ensures forall i :: 0 <= i < n && Emitted(rows, i) ==> RecordLine(rows[i], ReportDate(rows)) in DocRecords(rows, n)
    ensures forall line :: line in DocRecords(rows, n) ==>
      exists i :: 0 <= i < n && Emitted(rows, i) && line == RecordLine(rows[i], ReportDate(rows))
  {
    if n > 0 {
      DocRecordsMembers(rows, n - 1);
    }
  }

  /** A worksheet with no written row yields no records. */
  lemma {:induction false} NoneEmittedNoRecords(rows: seq<Row>, n: nat)
    requires n <= |rows| && forall i :: 0 <= i < n ==> !Emitted(rows, i)
    ensures DocRecords(rows, n) == []
  {
    if n > 0 {
      NoneEmittedNoRecords(rows, n - 1);
    }
  }

  /** FirstStart finds the earliest "Hole Number" row, and None means there is none. */
  lemma {:induction false} FirstStartIsFirst(rows: seq<Row>, n: nat)
    requires n <= |rows|
    ensures FirstStart(rows, n).Some? ==>
      var h := FirstStart(rows, n).value;
      h < n && IsStart(rows[h]) && forall k :: 0 <= k < h ==> !IsStart(rows[k])
    ensures FirstStart(rows, n).None? ==> forall k :: 0 <= k < n ==> !IsStart(rows[k])
  {
    if n > 0 {
      FirstStartIsFirst(rows, n - 1);
    }
  }

  /**
   * A worksheet contributes a header exactly when it has a "Hole Number"
   * row, and the header is the one built from the earliest such row.
   */
  lemma {:induction false} DocHeaderIsFirstStart(rows: seq<Row>)
    ensures DocHeader(rows).Some? <==> exists h :: 0 <= h < |rows| && IsStart(rows[h])
    ensures DocHeader(rows).Some? ==>
      exists h :: 0 <= h < |rows| && IsStart(rows[h]) && (forall k :: 0 <= k < h ==> !IsStart(rows[k]))
        && DocHeader(rows).value == HeaderAt(rows, h)
  {
    FirstStartIsFirst(rows, |rows|);
  }

  /**
   * A "Sub-Totals" row above every "Hole Number" row silences the whole
   * worksheet: no row is written, whatever "Hole Number" rows follow.
   */
  lemma {:induction false} EndBeforeHeaderSuppresses(rows: seq<Row>, e: nat)
    requires e < |rows| && IsEnd(rows[e]) && forall k :: 0 <= k < e ==> !IsStart(rows[k])
    ensures forall i :: 0 <= i < |rows| ==> !Emitted(rows, i)
    ensures DocRecords(rows, |rows|) == []
  {
    forall i | 0 <= i < |rows| ensures !Emitted(rows, i) {
      if i < e {
        LastStartIsLatest(rows, i);
      } else {
        NothingAfterEnd(rows, e, i);
      }
    }
    NoneEmittedNoRecords(rows, |rows|);
  }
}
