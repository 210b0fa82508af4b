/**
 * The composite header built from a "Hole Number" row and the row after it
 * (src/main.rs:208-234): empty main-header cells are forward-filled from the
 * nearest non-empty one to their left, each name is combined with the
 * sub-header at the same column when that is non-empty, normalised, and a
 * final "date" field names the provenance column.
 */
module Header {
  import opened Wrappers
  import opened Cells
  import opened Normalize

  /** The provenance column's name. */
  const DateField: string := "date"

  /** A header cell's text, `""` when the decoder gives none. */
  function MainText(c: Cell): string {
    AsString(c).GetOr("")
  }

  /** The sub-header text at column `i`, `""` past the end of the sub-header row. */
  function SubText(sub: Row, i: nat): string {
    if i < |sub| then AsString(sub[i]).GetOr("") else ""
  }

  /** The main header that column `i` uses, after forward-filling. */
  function Filled(row: Row, i: nat): string
    requires i < |row|
  {
    if MainText(row[i]) != "" then MainText(row[i])
    else if i == 0 then ""
    else Filled(row, i - 1)
  }

  /** A field name from its main and sub-header texts. */
  function Combine(main: string, subHeader: string): string {
    if subHeader != "" then FormatHeader(main + "_" + subHeader) else FormatHeader(main)
  }

  /** The field name of column `i`. */
  function FieldName(row: Row, sub: Row, i: nat): string
    requires i < |row|
  {
    Combine(Filled(row, i), SubText(sub, i))
  }

  /** The field names of the first `n` columns. */
  function FieldNames(row: Row, sub: Row, n: nat): (r: seq<string>)
    requires n <= |row|
    ensures |r| == n
  {
    if n == 0 then [] else FieldNames(row, sub, n - 1) + [FieldName(row, sub, n - 1)]
  }

  /** Column `i` of the field names is the field name of column `i`. */
  lemma {:induction false} FieldNamesSpec(row: Row, sub: Row, n: nat)
    requires n <= |row|
    ensures forall i :: 0 <= i < n ==> FieldNames(row, sub, n)[i] == FieldName(row, sub, i)
  {
    if n > 0 {
      FieldNamesSpec(row, sub, n - 1);
      var prev := FieldNames(row, sub, n - 1);
      assert FieldNames(row, sub, n) == prev + [FieldName(row, sub, n - 1)];
      forall i | 0 <= i < n - 1 ensures FieldNames(row, sub, n)[i] == FieldName(row, sub, i) {
        assert FieldNames(row, sub, n)[i] == prev[i];
      }
    }
  }

  /** The whole header: one field per cell of the header row, then "date". */
  function Composite(row: Row, sub: Row): seq<string> {
    FieldNames(row, sub, |row|) + [DateField]
  }

  /**
   * The header-building pass of `generate_output`: a left-to-right scan
   * that carries the most recent non-empty main header in `prev`.
   */
  method BuildHeader(row: Row, sub: Row) returns (headers: seq<string>)
    ensures headers == Composite(row, sub)
  {
    var prev := "";
    headers := [];
    var i := 0;
    while i < |row|
      invariant 0 <= i <= |row|
      invariant |headers| == i
      invariant forall k :: 0 <= k < i ==> headers[k] == FieldName(row, sub, k)
      invariant prev == if i == 0 then "" else Filled(row, i - 1)
    {
      var main := MainText(row[i]);
      ghost var filled := Filled(row, i);
      if main == "" {
        main := prev;
      } else {
        prev := main;
      }
      var subHeader := SubText(sub, i);
      assert main == filled;
      var name := Combine(main, subHeader);
      assert name == FieldName(row, sub, i);
      headers := headers + [name];
      i := i + 1;
    }
    HeaderFromFields(row, sub, headers);
    headers := headers + [DateField];
  }

  /** Field names that agree column by column, followed by "date", are the composite header. */
  lemma {:induction false} HeaderFromFields(row: Row, sub: Row, names: seq<string>)
    requires |names| == |row| && forall k :: 0 <= k < |row| ==> names[k] == FieldName(row, sub, k)
    ensures names + [DateField] == Composite(row, sub)
  {
    FieldNamesSpec(row, sub, |row|);
    assert names == FieldNames(row, sub, |row|);
  }

  /**
   * Forward fill, stated without recursion: column `i` uses the text of the
   * nearest column at or left of `i` whose text is non-empty, and `""` when
   * every such column is empty.
   */
  lemma {:induction false} FilledIsNearestLeft(row: Row, i: nat)
    requires i < |row|
    ensures Filled(row, i) == "" <==> forall j :: 0 <= j <= i ==> MainText(row[j]) == ""
    ensures Filled(row, i) != "" ==>
      exists j :: 0 <= j <= i && MainText(row[j]) == Filled(row, i)
        && forall k :: j < k <= i ==> MainText(row[k]) == ""
  {
    if MainText(row[i]) != "" {
    } else if i > 0 {
      FilledIsNearestLeft(row, i - 1);
      if Filled(row, i) != "" {
        var j :| 0 <= j <= i - 1 && MainText(row[j]) == Filled(row, i - 1)
          && forall k :: j < k <= i - 1 ==> MainText(row[k]) == "";
        assert forall k :: j < k <= i ==> MainText(row[k]) == "";
      }
    }
  }

  /**
   * The header has one field per header-row cell plus "date", and no field
   * contains a space, hyphen or line feed.
   */
  lemma {:induction false} CompositeShape(row: Row, sub: Row)
    ensures |Composite(row, sub)| == |row| + 1
    ensures Composite(row, sub)[|row|] == DateField
    ensures forall f :: f in Composite(row, sub) ==> forall c :: c in f ==> !IsSeparator(c)
  {
    var h := Composite(row, sub);
    FieldNamesSpec(row, sub, |row|);
    forall f | f in h
      ensures forall c :: c in f ==> !IsSeparator(c)
    {
      var i :| 0 <= i < |h| && h[i] == f;
      if i < |row| {
        var main := Filled(row, i);
        var subHeader := SubText(sub, i);
        assert f == Combine(main, subHeader);
        var src := if subHeader != "" then main + "_" + subHeader else main;
        assert f == FormatHeader(src);
        FormatHeaderSpec(src);
        forall c | c in f ensures !IsSeparator(c) {
          var j :| 0 <= j < |f| && f[j] == c;
        }
      } else {
        assert f == "date";
      }
    }
  }

  /** Sub-header cells past the end of the header row play no part. */
  lemma {:induction false} SubRowBeyondHeaderIgnored(row: Row, sub: Row, extra: Row)
    requires |sub| >= |row|
    ensures Composite(row, sub + extra) == Composite(row, sub)
  {
    FieldNamesSpec(row, sub + extra, |row|);
    FieldNamesSpec(row, sub, |row|);
    forall i | 0 <= i < |row|
      ensures FieldName(row, sub + extra, i) == FieldName(row, sub, i)
    {
      assert SubText(sub + extra, i) == SubText(sub, i);
    }
  }

  /**
   * A merged main header cell spans the empty cell to its right, and an
   * empty sub-header leaves the main name alone: main row `[a, empty, b]`
   * over sub row `[x, y, empty]` gives `a_x`, `a_y`, `b`, `date`.
   */
  lemma {:induction false} CompositeExample(a: string, b: string, x: string, y: string)
    requires a != "" && b != "" && x != "" && y != ""
    ensures Composite([Str(a), Empty, Str(b)], [Str(x), Str(y), Empty])
         == [FormatHeader(a + "_" + x), FormatHeader(a + "_" + y), FormatHeader(b), DateField]
  {
    var row := [Str(a), Empty, Str(b)];
    var sub := [Str(x), Str(y), Empty];
    FieldNamesSpec(row, sub, |row|);
    assert Filled(row, 1) == a;
    assert FieldName(row, sub, 0) == FormatHeader(a + "_" + x);
    assert FieldName(row, sub, 1) == FormatHeader(a + "_" + y);
    assert FieldName(row, sub, 2) == FormatHeader(b);
  }
}
