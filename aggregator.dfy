/**
 * The run of `generate_output` (src/main.rs:175-267) over a directory's
 * entries in listing order: one header line for the whole run, taken from
 * the first worksheet that has a "Hole Number" row, then the data records of
 * every worksheet in turn.
 */
module Aggregator {
  import opened Wrappers
  import opened Cells
  import opened Worksheet

  /** A directory entry as the run sees it. */
  datatype Entry =
    | Foreign              // no `.xlsx` extension: skipped
    | Broken               // the entry or the workbook cannot be read: the run stops with an error
    | NoSheet              // no readable worksheet named after the file: skipped
    | Sheet(rows: seq<Row>)

  /** The rows an entry contributes: none unless it is a readable worksheet. */
  function SheetRows(e: Entry): seq<Row> {
    if e.Sheet? then e.rows else []
  }

  /** The run's header: that of the first of the first `n` entries with a "Hole Number" row. */
  function FirstHeader(es: seq<Entry>, n: nat): Option<seq<string>>
    requires n <= |es|
  {
    if n == 0 then None
    else if FirstHeader(es, n - 1).Some? then FirstHeader(es, n - 1)
    else DocHeader(SheetRows(es[n - 1]))
  }

  /** The data records of an entry: those of its worksheet, if it is one. */
  function EntryRecords(e: Entry): seq<string> {
    DocRecords(SheetRows(e), |SheetRows(e)|)
  }

  /** The data records of the first `n` entries, worksheet after worksheet. */
  function Records(es: seq<Entry>, n: nat): seq<string>
    requires n <= |es|
  {
    if n == 0 then [] else Records(es, n - 1) + EntryRecords(es[n - 1])
  }

  /** The output of a run over the first `n` entries: the header line, if any, then the records. */
  function Lines(es: seq<Entry>, n: nat): seq<string>
    requires n <= |es|
  {
    HeaderText(FirstHeader(es, n)) + Records(es, n)
  }

  /** What entry `i` appends to the output file. */
  function EntryOutput(es: seq<Entry>, i: nat): seq<string>
    requires i < |es|
  {
    if es[i].Sheet? then SheetOutput(es[i].rows, FirstHeader(es, i).Some?) else []
  }

  /** The output file after the first `n` entries, entry by entry as the run writes it. */
  function Output(es: seq<Entry>, n: nat): seq<string>
    requires n <= |es|
  {
    if n == 0 then [] else Output(es, n - 1) + EntryOutput(es, n - 1)
  }

  /** The number of entries processed before the first unreadable one. */
  function Completed(es: seq<Entry>): (c: nat)
    ensures c <= |es|
  {
    if es == [] || es[0].Broken? then 0 else 1 + Completed(es[1..])
  }

  /**
   * `generate_output`. It stops at the first unreadable entry with `ok`
   * false, keeping what was already written; other entries that are not
   * readable worksheets are skipped.
   */
  method GenerateOutput(entries: seq<Entry>) returns (lines: seq<string>, ok: bool)
    ensures ok == (Completed(entries) == |entries|)
    ensures lines == Output(entries, Completed(entries))
  {
    lines := [];
    var headersSet := false;
    var d := 0;
    while d < |entries|
      invariant d <= Completed(entries)
      invariant headersSet == FirstHeader(entries, d).Some?
      invariant lines == Output(entries, d)
    {
      var e := entries[d];
      CompletedStep(entries, d);
      if e.Broken? {
        return lines, false;
      }
      if e.Sheet? {
        lines, headersSet := ProcessSheet(entries, d, lines, headersSet);
      } else {
        SkipStep(entries, d);
      }
      d := d + 1;
    }
    ok := true;
  }

  /** The scan of worksheet entry `d`, appended to the output so far. */
  method ProcessSheet(entries: seq<Entry>, d: nat, lines: seq<string>, headersSet: bool)
    returns (linesAfter: seq<string>, headersSetAfter: bool)
    requires d < |entries| && entries[d].Sheet?
    requires headersSet == FirstHeader(entries, d).Some? && lines == Output(entries, d)
    ensures headersSetAfter == FirstHeader(entries, d + 1).Some?
    ensures linesAfter == Output(entries, d + 1)
  {
    var out, nowSet := ScanSheet(entries[d].rows, headersSet);
    linesAfter := lines + out;
    headersSetAfter := nowSet;
  }

  /** An entry that is not a readable worksheet changes neither the output nor the run's header. */
  lemma {:induction false} SkipStep(es: seq<Entry>, d: nat)
    requires d < |es| && !es[d].Sheet?
    ensures Output(es, d + 1) == Output(es, d)
    ensures FirstHeader(es, d + 1) == FirstHeader(es, d)
  {
    assert EntryOutput(es, d) == [];
    assert Output(es, d) + [] == Output(es, d);
    assert DocHeader([]) == None;
  }

  /**
   * The output as the run writes it is the header line of the first
   * worksheet with a "Hole Number" row, if any, followed by the records of
   * every worksheet in order.
   */
  lemma {:induction false} OutputIsHeaderThenRecords(es: seq<Entry>, n: nat)
    requires n <= |es|
    ensures Output(es, n) == Lines(es, n)
  {
    if n > 0 {
      OutputIsHeaderThenRecords(es, n - 1);
      OutputStep(es, n);
    }
  }

  /** The header-then-records shape survives one more entry. */
  lemma {:induction false} OutputStep(es: seq<Entry>, n: nat)
    requires 0 < n <= |es| && Output(es, n - 1) == Lines(es, n - 1)
    ensures Output(es, n) == Lines(es, n)
  {
    if FirstHeader(es, n - 1).Some? {
      OutputStepWithHeader(es, n);
    } else {
      OutputStepWithoutHeader(es, n);
    }
  }

  /** Once the run has its header, an entry only adds its records. */
  lemma {:induction false} OutputStepWithHeader(es: seq<Entry>, n: nat)
    requires 0 < n <= |es| && FirstHeader(es, n - 1).Some? && Output(es, n - 1) == Lines(es, n - 1)
    ensures Output(es, n) == Lines(es, n)
  {
    var i := n - 1;
    RunStep(es, i);
    EntryOutputShape(es, i);
    Regroup(Output(es, i), EntryOutput(es, i), HeaderText(FirstHeader(es, i)), Records(es, i), EntryRecords(es[i]));
  }

  /** What was written, then a part that is exactly some records, is the header followed by all records. */
  lemma {:induction false} Regroup(written: seq<string>, part: seq<string>, h: seq<string>, before: seq<string>, r: seq<string>)
    requires written == h + before && part == [] + r
    ensures written + part == h + (before + r)
  {
    assert [] + r == r;
  }

  /** Before the run has a header, there is no output and an entry writes its own header and records. */
  lemma {:induction false} OutputStepWithoutHeader(es: seq<Entry>, n: nat)
    requires 0 < n <= |es| && FirstHeader(es, n - 1).None? && Output(es, n - 1) == Lines(es, n - 1)
    ensures Output(es, n) == Lines(es, n)
  {
    var i := n - 1;
    RunStep(es, i);
    EntryOutputShape(es, i);
    NoHeaderNoRun(es, i);
    var r := EntryRecords(es[i]);
    assert Output(es, i) == [];
    assert Records(es, i + 1) == r;
    assert Output(es, i + 1) == EntryOutput(es, i);
  }

  /** The run's header and records once entry `i` is taken in. */
  lemma {:induction false} RunStep(es: seq<Entry>, i: nat)
    requires i < |es|
    ensures FirstHeader(es, i).Some? ==> FirstHeader(es, i + 1) == FirstHeader(es, i)
    ensures FirstHeader(es, i).None? ==> FirstHeader(es, i + 1) == DocHeader(SheetRows(es[i]))
    ensures Records(es, i + 1) == Records(es, i) + EntryRecords(es[i])
    ensures Output(es, i + 1) == Output(es, i) + EntryOutput(es, i)
  {
  }

  /** What entry `i` writes: the header line when it supplies the run's first header, then its records. */
  lemma {:induction false} EntryOutputShape(es: seq<Entry>, i: nat)
    requires i < |es|
    ensures EntryOutput(es, i) == (if FirstHeader(es, i).Some? then [] else HeaderText(FirstHeader(es, i + 1))) + EntryRecords(es[i])
  {
    if !es[i].Sheet? {
      assert DocHeader([]) == None;
    }
  }

  /** A run prefix without a header yields no records. */
  lemma {:induction false} NoHeaderNoRun(es: seq<Entry>, n: nat)
    requires n <= |es| && FirstHeader(es, n).None?
    ensures Records(es, n) == []
  {
    if n > 0 {
      NoHeaderNoRun(es, n - 1);
      var rows := SheetRows(es[n - 1]);
      if FirstStart(rows, |rows|).Some? {
        FirstStartBound(rows, |rows|);
      }
      NoHeaderNoRecords(rows, |rows|);
    }
  }

  /** Entry `d`, reached with every earlier entry readable, either stops the run there or lets it go on. */
  lemma {:induction false} CompletedStep(es: seq<Entry>, d: nat)
    requires d < |es| && d <= Completed(es)
    ensures es[d].Broken? ==> Completed(es) == d
    ensures !es[d].Broken? ==> d + 1 <= Completed(es)
  {
    if d > 0 {
      CompletedStep(es[1..], d - 1);
    }
  }

  /**
   * Completed counts the entries before the first unreadable one: every
   * entry before it is readable, the entry at it (if any) is not, and it
   * covers the whole directory exactly when no entry is unreadable.
   */
  lemma {:induction false} CompletedIsFirstBroken(es: seq<Entry>)
    ensures forall k :: 0 <= k < Completed(es) ==> !es[k].Broken?
    ensures Completed(es) < |es| ==> es[Completed(es)].Broken?
    ensures Completed(es) == |es| <==> forall k :: 0 <= k < |es| ==> !es[k].Broken?
  {
    if es != [] && !es[0].Broken? {
      CompletedIsFirstBroken(es[1..]);
      assert forall k :: 1 <= k < |es| ==> es[k] == es[1..][k - 1];
    }
  }

  /**
   * The run's header comes from the first entry whose worksheet has a
   * "Hole Number" row; there is none exactly when no entry has one.
   */
  lemma {:induction false} FirstHeaderIsFirst(es: seq<Entry>, n: nat)
    requires n <= |es|
    ensures FirstHeader(es, n).None? <==> forall k :: 0 <= k < n ==> DocHeader(SheetRows(es[k])).None?
    ensures FirstHeader(es, n).Some? ==>
      exists k :: 0 <= k < n && es[k].Sheet? && FirstHeader(es, n) == DocHeader(es[k].rows)
        && forall j :: 0 <= j < k ==> DocHeader(SheetRows(es[j])).None?
  {
    if n > 0 {
      FirstHeaderIsFirst(es, n - 1);
      if FirstHeader(es, n - 1).None? && FirstHeader(es, n).Some? {
        assert DocHeader([]) == None;
        assert es[n - 1].Sheet?;
      }
    }
  }
}
