/**
 * Row classification inside one worksheet (src/main.rs:189-262). The
 * per-document scan keeps three markers; every predicate here says, for row
 * `i`, where the header bound lies and whether the other two markers are
 * set when the scan reaches it (all the scan ever tests of them), so that "is row `i`
 * written as data" can be stated without replaying the scan.
 */
module Locator {
  import opened Wrappers
  import opened Cells

  const DataStartId: string := "Hole Number"
  const DataEndId: string := "Sub-Totals"
  const RemarksStartId: string := "Remarks"

  /** The first cell holds exactly the given text. */
  predicate Marks(row: Row, id: string) {
    AsString(First(row)) == Some(id)
  }

  predicate IsStart(row: Row) { Marks(row, DataStartId) }
  predicate IsEnd(row: Row) { Marks(row, DataEndId) }
  predicate IsRemarks(row: Row) { Marks(row, RemarksStartId) }

  /** The index of the last "Hole Number" row among the first `n` rows. */
  function LastStart(rows: seq<Row>, n: nat): Option<nat>
    requires n <= |rows|
  {
    if n == 0 then None
    else if IsStart(rows[n - 1]) then Some(n - 1)
    else LastStart(rows, n - 1)
  }

  /**
   * `table_header_row` when row `i` is reached: the index of the sub-header
   * row below the latest "Hole Number" row, or -1 before any.
   */
  function HeaderBound(rows: seq<Row>, i: nat): int
    requires i <= |rows|
  {
    match LastStart(rows, i)
    case Some(h) => h + 1
    case None => -1
  }

  /** A "Sub-Totals" row comes before row `i` (`table_end_row >= 0`). */
  predicate EndSeen(rows: seq<Row>, i: nat)
    requires i <= |rows|
  {
    i > 0 && (EndSeen(rows, i - 1) || IsEnd(rows[i - 1]))
  }

  /** Row `j` reaches the remarks test (src/main.rs:249) with "Remarks" in its first cell. */
  predicate RemarksCandidate(rows: seq<Row>, j: nat)
    requires j < |rows|
  {
    !IsStart(rows[j]) && !IsEnd(rows[j]) && j > HeaderBound(rows, j) && IsRemarks(rows[j])
  }

  /** `remarks_start_row` has been set before row `i`. */
  predicate RemarksTaken(rows: seq<Row>, i: nat)
    requires i <= |rows|
  {
    i > 0 && (RemarksTaken(rows, i - 1) || RemarksCandidate(rows, i - 1))
  }

  /** Row `i` is the one recorded as `remarks_start_row`, and skipped. */
  predicate IsRemarksRow(rows: seq<Row>, i: nat)
    requires i < |rows|
  {
    RemarksCandidate(rows, i) && !RemarksTaken(rows, i)
  }

  /**
   * Row `i` passes every test except the remarks test: it is no sentinel
   * row, lies after the current sub-header row, follows a "Hole Number"
   * row, precedes every "Sub-Totals" row and has a non-empty first cell.
   */
  predicate Eligible(rows: seq<Row>, i: nat)
    requires i < |rows|
  {
    && !IsStart(rows[i]) && !IsEnd(rows[i])
    && i > HeaderBound(rows, i)
    && HeaderBound(rows, i) > 0 && !EndSeen(rows, i)
    && !IsEmpty(First(rows[i]))
  }

  /** Row `i` is written as a data line. */
  predicate Emitted(rows: seq<Row>, i: nat)
    requires i < |rows|
  {
    Eligible(rows, i) && !IsRemarksRow(rows, i)
  }

  /** EndSeen holds exactly when some earlier row is a "Sub-Totals" row. */
  lemma {:induction false} EndSeenIff(rows: seq<Row>, i: nat)
    requires i <= |rows|
    ensures EndSeen(rows, i) <==> exists j :: 0 <= j < i && IsEnd(rows[j])
  {
    if i > 0 {
      EndSeenIff(rows, i - 1);
    }
  }

  /** RemarksTaken holds exactly when some earlier row reached the remarks test as a "Remarks" row. */
  lemma {:induction false} RemarksTakenIff(rows: seq<Row>, i: nat)
    requires i <= |rows|
    ensures RemarksTaken(rows, i) <==> exists j :: 0 <= j < i && RemarksCandidate(rows, j)
  {
    if i > 0 {
      RemarksTakenIff(rows, i - 1);
    }
  }

  /** LastStart finds the latest "Hole Number" row before `n`, and None means there is none. */
  lemma {:induction false} LastStartIsLatest(rows: seq<Row>, n: nat)
    requires n <= |rows|
    ensures LastStart(rows, n).Some? ==>
      var h := LastStart(rows, n).value;
      h < n && IsStart(rows[h]) && forall k :: h < k < n ==> !IsStart(rows[k])
    ensures LastStart(rows, n).None? ==> forall k :: 0 <= k < n ==> !IsStart(rows[k])
  {
    if n > 0 && !IsStart(rows[n - 1]) {
      LastStartIsLatest(rows, n - 1);
    }
  }

  /**
   * The emission rule stated without the scan: row `i` is written exactly
   * when the latest "Hole Number" row `h` before it has `h + 1 < i`, no
   * "Sub-Totals" row occurs at or before `i`, row `i` is no "Hole Number"
   * row, its first cell is non-empty, and it is not the remarks row.
   */
  lemma {:induction false} EmittedIff(rows: seq<Row>, i: nat)
    requires i < |rows|
    ensures Emitted(rows, i) <==>
      && (exists h :: 0 <= h && h + 1 < i && IsStart(rows[h]) && forall k :: h < k < i ==> !IsStart(rows[k]))
      && (forall k :: 0 <= k <= i ==> !IsEnd(rows[k]))
      && !IsStart(rows[i]) && !IsEmpty(First(rows[i]))
      && !IsRemarksRow(rows, i)
  {
    LastStartIsLatest(rows, i);
    EndSeenIff(rows, i);
    var latest := exists h :: 0 <= h && h + 1 < i && IsStart(rows[h]) && forall k :: h < k < i ==> !IsStart(rows[k]);
    if latest {
      var h :| 0 <= h && h + 1 < i && IsStart(rows[h]) && forall k :: h < k < i ==> !IsStart(rows[k]);
      assert LastStart(rows, i) == Some(h);
    }
    if LastStart(rows, i).Some? && HeaderBound(rows, i) < i {
      assert latest;
    }
  }

  /**
   * No row at or above the sub-header row of any earlier "Hole Number" row
   * is written: a repeated "Hole Number" row moves the bound forward.
   */
  lemma {:induction false} EmittedPastEveryHeader(rows: seq<Row>, i: nat, h: nat)
    requires i < |rows| && h < i && IsStart(rows[h])
    requires Emitted(rows, i)
    ensures h + 1 < i
  {
    LastStartIsLatest(rows, i);
  }

  /** Nothing at or after a "Sub-Totals" row is written, whatever follows it. */
  lemma {:induction false} NothingAfterEnd(rows: seq<Row>, e: nat, i: nat)
    requires e <= i < |rows| && IsEnd(rows[e])
    ensures !Emitted(rows, i)
  {
    if e < i {
      EndSeenIff(rows, i);
    }
  }

  /** At most one row per document is taken as the remarks row. */
  lemma {:induction false} RemarksRowUnique(rows: seq<Row>, i: nat, j: nat)
    requires i < j < |rows| && IsRemarksRow(rows, i)
    ensures RemarksTaken(rows, j) && !IsRemarksRow(rows, j)
  {
    RemarksTakenIff(rows, j);
    assert RemarksCandidate(rows, i);
  }

  /**
   * Once the remarks row has been taken, later rows, "Remarks" rows
   * included, are written whenever they are otherwise eligible.
   */
  lemma {:induction false} LaterRowsAfterRemarks(rows: seq<Row>, r: nat, i: nat)
    requires r < i < |rows|
    requires IsRemarksRow(rows, r) && Eligible(rows, i)
    ensures Emitted(rows, i)
  {
    RemarksRowUnique(rows, r, i);
  }

  /**
   * A "Remarks" row above every "Hole Number" row takes the remarks slot,
   * since no row index is at or below the initial bound -1.
   */
  lemma {:induction false} EarlyRemarksTakesSlot(rows: seq<Row>, r: nat)
    requires r < |rows| && IsRemarks(rows[r])
    requires forall k :: 0 <= k <= r ==> !IsStart(rows[k])
    ensures RemarksTaken(rows, r + 1)
  {
    LastStartIsLatest(rows, r);
    assert RemarksCandidate(rows, r);
  }
}
