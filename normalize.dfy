/**
 * Header-name normalisation (`format_header`): trim both ends, lower-case,
 * then replace every space, hyphen and line feed by an underscore, one
 * character for one. Whitespace and lower-casing are modelled for ASCII.
 */
module Normalize {

  /**
   * ASCII whitespace: space, tab, line feed, vertical tab, form feed and
   * carriage return, the characters below 128 that `trim` removes.
   */
  predicate IsWhitespace(c: char) {
    c == ' ' || ('\t' <= c <= '\r')
  }

  predicate IsUpper(c: char) {
    'A' <= c <= 'Z'
  }

  /** Removes the longest all-whitespace prefix. */
  function TrimStart(s: string): string {
    if |s| > 0 && IsWhitespace(s[0]) then TrimStart(s[1..]) else s
  }

  /** Removes the longest all-whitespace suffix. */
  function TrimEnd(s: string): string {
    if |s| > 0 && IsWhitespace(s[|s| - 1]) then TrimEnd(s[..|s| - 1]) else s
  }

  /** `str::trim`. */
  function Trim(s: string): string {
    TrimEnd(TrimStart(s))
  }

  /** TrimStart keeps a suffix that does not start with whitespace and drops only whitespace. */
  lemma {:induction false} TrimStartSpec(s: string)
    ensures var r := TrimStart(s);
      && |r| <= |s| && r == s[|s| - |r|..]
      && (r == [] || !IsWhitespace(r[0]))
      && forall i :: 0 <= i < |s| - |r| ==> IsWhitespace(s[i])
  {
    if |s| > 0 && IsWhitespace(s[0]) {
      var t := s[1..];
      TrimStartSpec(t);
      var r := TrimStart(s);
      assert r == TrimStart(t);
      assert t[|t| - |r|..] == s[|s| - |r|..];
      forall i | 0 <= i < |s| - |r| ensures IsWhitespace(s[i]) {
        if i > 0 {
          assert s[i] == t[i - 1];
        }
      }
    }
  }

  /** TrimEnd keeps a prefix that does not end with whitespace and drops only whitespace. */
  lemma {:induction false} TrimEndSpec(s: string)
    ensures var r := TrimEnd(s);
      && |r| <= |s| && r == s[..|r|]
      && (r == [] || !IsWhitespace(r[|r| - 1]))
      && forall i :: |r| <= i < |s| ==> IsWhitespace(s[i])
  {
    if |s| > 0 && IsWhitespace(s[|s| - 1]) {
      TrimEndSpec(s[..|s| - 1]);
    }
  }

  /**
   * `trim` keeps the infix of `s` that starts at offset `a` and neither
   * begins nor ends with whitespace; everything it drops is whitespace.
   */
  lemma {:induction false} TrimSpec(s: string)
    ensures var r := Trim(s); var a := |s| - |TrimStart(s)|;
      && 0 <= a && a + |r| <= |s| && r == s[a..a + |r|]
      && (r == [] || (!IsWhitespace(r[0]) && !IsWhitespace(r[|r| - 1])))
      && (forall i :: 0 <= i < a ==> IsWhitespace(s[i]))
      && (forall i :: a + |r| <= i < |s| ==> IsWhitespace(s[i]))
  {
    var t := TrimStart(s);
    TrimStartSpec(s);
    TrimEndSpec(t);
    var r := Trim(s);
    var a := |s| - |t|;
    assert r == s[a..a + |r|] by {
      assert r == t[..|r|] && t == s[a..];
    }
    assert r != [] ==> r[0] == t[0];
    forall i | a + |r| <= i < |s| ensures IsWhitespace(s[i]) {
      assert s[i] == t[i - a];
    }
  }

  /** A string that neither begins nor ends with whitespace is its own trim. */
  lemma {:induction false} TrimFixpoint(s: string)
    requires s == [] || (!IsWhitespace(s[0]) && !IsWhitespace(s[|s| - 1]))
    ensures Trim(s) == s
  {
    assert TrimStart(s) == s;
  }

  /** Lower-cases an ASCII letter; a lower-cased character is never a separator or whitespace unless it was one. */
  function LowerChar(c: char): (r: char)
    ensures !IsUpper(r)
    ensures IsSeparator(r) == IsSeparator(c) && IsWhitespace(r) == IsWhitespace(c)
    ensures !IsUpper(c) ==> r == c
  {
    if IsUpper(c) then (c as int + 32) as char else c
  }

  /** `to_lowercase`, for ASCII letters. */
  function ToLower(s: string): (r: string)
    ensures |r| == |s|
  {
    if s == [] then [] else [LowerChar(s[0])] + ToLower(s[1..])
  }

  /** ToLower works character by character. */
  lemma {:induction false} ToLowerSpec(s: string)
    ensures forall i :: 0 <= i < |s| ==> ToLower(s)[i] == LowerChar(s[i])
  {
    if s != [] {
      ToLowerSpec(s[1..]);
    }
  }

  /** `replace` with a one-character pattern and a one-character replacement. */
  function Replace(s: string, from: char, to: char): (r: string)
    ensures |r| == |s|
  {
    if s == [] then [] else [if s[0] == from then to else s[0]] + Replace(s[1..], from, to)
  }

  /** Replace swaps every occurrence of `from` for `to` and keeps every other character. */
  lemma {:induction false} ReplaceSpec(s: string, from: char, to: char)
    ensures forall i :: 0 <= i < |s| ==> Replace(s, from, to)[i] == if s[i] == from then to else s[i]
  {
    if s != [] {
      ReplaceSpec(s[1..], from, to);
    }
  }

  /** The characters that end up as underscores. */
  predicate IsSeparator(c: char) {
    c == ' ' || c == '-' || c == '\n'
  }

  /** What one character of the trimmed header becomes, in a single pass. */
  function NormChar(c: char): (r: char)
    ensures !IsSeparator(r) && !IsUpper(r)
    ensures IsWhitespace(r) ==> IsWhitespace(c)
  {
    if IsSeparator(c) then '_' else LowerChar(c)
  }

  /** The single-pass reference: every character mapped through NormChar. */
  function NormMap(s: string): (r: string)
    ensures |r| == |s|
  {
    if s == [] then [] else [NormChar(s[0])] + NormMap(s[1..])
  }

  lemma {:induction false} NormMapSpec(s: string)
    ensures forall i :: 0 <= i < |s| ==> NormMap(s)[i] == NormChar(s[i])
  {
    if s != [] {
      NormMapSpec(s[1..]);
    }
  }

  /** `format_header`: three replacement passes over the trimmed, lower-cased text. */
  function FormatHeader(s: string): string {
    Replace(Replace(Replace(ToLower(Trim(s)), ' ', '_'), '-', '_'), '\n', '_')
  }

  /**
   * The three passes amount to mapping the trimmed text character by
   * character through NormChar, so the result has the trimmed text's
   * length, contains no space, hyphen, line feed or upper-case ASCII letter,
   * and neither begins nor ends with whitespace.
   */
  lemma {:induction false} FormatHeaderSpec(s: string)
    ensures FormatHeader(s) == NormMap(Trim(s))
    ensures |FormatHeader(s)| == |Trim(s)|
    ensures forall i :: 0 <= i < |FormatHeader(s)| ==> !IsSeparator(FormatHeader(s)[i]) && !IsUpper(FormatHeader(s)[i])
    ensures var r := FormatHeader(s); r == [] || (!IsWhitespace(r[0]) && !IsWhitespace(r[|r| - 1]))
  {
    var t := Trim(s);
    TrimSpec(s);
    var l := ToLower(t);
    var a := Replace(l, ' ', '_');
    var b := Replace(a, '-', '_');
    var r := Replace(b, '\n', '_');
    assert r == FormatHeader(s);
    ToLowerSpec(t);
    ReplaceSpec(l, ' ', '_');
    ReplaceSpec(a, '-', '_');
    ReplaceSpec(b, '\n', '_');
    NormMapSpec(t);
    forall i | 0 <= i < |r| ensures r[i] == NormChar(t[i]) {
      assert l[i] == LowerChar(t[i]);
      assert a[i] == if l[i] == ' ' then '_' else l[i];
      assert b[i] == if a[i] == '-' then '_' else a[i];
      assert r[i] == if b[i] == '\n' then '_' else b[i];
    }
    assert r == NormMap(t);
    assert r != [] ==> r[0] == NormChar(t[0]) && r[|r| - 1] == NormChar(t[|t| - 1]);
  }

  /** Normalising a normalised header changes nothing. */
  lemma {:induction false} FormatHeaderIdempotent(s: string)
    ensures FormatHeader(FormatHeader(s)) == FormatHeader(s)
  {
    var r := FormatHeader(s);
    FormatHeaderSpec(s);
    TrimFixpoint(r);
    var rr := FormatHeader(r);
    FormatHeaderSpec(r);
    NormMapSpec(r);
    assert |rr| == |r|;
    forall i | 0 <= i < |r|
      ensures rr[i] == r[i]
    {
      assert rr[i] == NormMap(r)[i] == NormChar(r[i]);
    }
  }

  /** A hyphen becomes an underscore and letters are lower-cased. */
  lemma {:induction false} FormatHeaderExample()
    ensures FormatHeader("Pit-No") == "pit_no"
  {
    TrimFixpoint("Pit-No");
    FormatHeaderSpec("Pit-No");
    NormMapSpec("Pit-No");
  }
}
