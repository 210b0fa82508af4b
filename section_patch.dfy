/**
 * The configuration patch in `update_binary` (src/main.rs:305-309) and its
 * inverse in `main` (src/main.rs:351-355). A configured path is stored in a
 * fixed-size section of the executable: the section is zero-filled, the
 * path's bytes are copied to its start, and on the next start-up the
 * section is read back with its trailing NUL bytes removed.
 */
module SectionPatch {

  newtype byte = x: int | 0 <= x < 256

  /** `n` zero bytes. */
  function Zeros(n: nat): (r: seq<byte>)
    ensures |r| == n
  {
    seq(n, _ => 0)
  }

  /**
   * The buffer after the intended patch of the section of `size` bytes at
   * `offset`: the data, then zeros up to the section's end; nothing outside
   * the section changes.
   */
  function Patched(buf: seq<byte>, offset: nat, size: nat, data: seq<byte>): (r: seq<byte>)
    requires offset + size <= |buf| && |data| <= size
    ensures |r| == |buf|
  {
    buf[..offset] + data + Zeros(size - |data|) + buf[offset + size..]
  }

  /** Byte by byte: data at the section's start, zeros after it, every byte outside the section kept. */
  lemma {:induction false} PatchedSpec(buf: seq<byte>, offset: nat, size: nat, data: seq<byte>)
    requires offset + size <= |buf| && |data| <= size
    ensures forall i :: 0 <= i < |buf| && !(offset <= i < offset + size) ==> Patched(buf, offset, size, data)[i] == buf[i]
    ensures forall i :: offset <= i < offset + |data| ==> Patched(buf, offset, size, data)[i] == data[i - offset]
    ensures forall i :: offset + |data| <= i < offset + size ==> Patched(buf, offset, size, data)[i] == 0
    ensures Patched(buf, offset, size, data)[offset..offset + size] == data + Zeros(size - |data|)
  {
    var r := Patched(buf, offset, size, data);
    var z := Zeros(size - |data|);
    assert r == buf[..offset] + (data + z) + buf[offset + size..];
    forall i | offset <= i < offset + |data| ensures r[i] == data[i - offset] {
      assert r[i] == (data + z)[i - offset];
    }
    forall i | offset + |data| <= i < offset + size ensures r[i] == 0 {
      assert r[i] == (data + z)[i - offset] == z[i - offset - |data|];
    }
    assert r[offset..offset + size] == data + z;
  }

  /**
   * The buffer after the patch as the code performs it: `fill(0)` over the
   * section, then `copy_from_slice` over `data.len()` bytes from the
   * section's start, however long the data is.
   */
  function PatchedAsWritten(buf: seq<byte>, offset: nat, size: nat, data: seq<byte>): (r: seq<byte>)
    requires offset + size <= |buf| && offset + |data| <= |buf|
    ensures |r| == |buf|
  {
    var zeroed := buf[..offset] + Zeros(size) + buf[offset + size..];
    zeroed[..offset] + data + zeroed[offset + |data|..]
  }

  /** When the data fits, the code's two steps are the intended patch. */
  lemma {:induction false} AsWrittenAgreesWhenFits(buf: seq<byte>, offset: nat, size: nat, data: seq<byte>)
    requires offset + size <= |buf| && |data| <= size
    ensures PatchedAsWritten(buf, offset, size, data) == Patched(buf, offset, size, data)
  {
    var w := PatchedAsWritten(buf, offset, size, data);
    var p := Patched(buf, offset, size, data);
    PatchedSpec(buf, offset, size, data);
    forall i | 0 <= i < |buf| ensures w[i] == p[i] {
      if i < offset {
      } else if i < offset + |data| {
        assert w[i] == data[i - offset];
      }
    }
  }

  /**
   * Data longer than its section overwrites the bytes after the section: a
   * one-byte section at offset 0 of `[1, 1, 1]` patched with `[7, 7]` gives
   * `[7, 7, 1]`, changing byte 1 outside the section.
   */
  lemma {:induction false} AsWrittenOverrunsSection()
    ensures PatchedAsWritten([1, 1, 1], 0, 1, [7, 7]) == [7, 7, 1]
    ensures PatchedAsWritten([1, 1, 1], 0, 1, [7, 7])[1] != [1, 1, 1][1]
  {
    var zeroed: seq<byte> := [1, 1, 1][..0] + Zeros(1) + [1, 1, 1][1..];
    assert zeroed == [0, 1, 1];
    assert zeroed[2..] == [1];
  }

  /** `fill(0)` over `buf[from..to]`. */
  method FillZero(buf: array<byte>, from: nat, to: nat)
    requires from <= to <= buf.Length
    modifies buf
    ensures buf[..] == old(buf[..])[..from] + Zeros(to - from) + old(buf[..])[to..]
  {
    var i := from;
    while i < to
      invariant from <= i <= to
      invariant forall k :: 0 <= k < buf.Length && !(from <= k < i) ==> buf[k] == old(buf[k])
      invariant forall k :: from <= k < i ==> buf[k] == 0
    {
      buf[i] := 0;
      i := i + 1;
    }
    assert buf[..] == old(buf[..])[..from] + Zeros(to - from) + old(buf[..])[to..];
  }

  /** `copy_from_slice` of `data` into `buf[at..at + |data|]`. */
  method CopyInto(buf: array<byte>, at: nat, data: seq<byte>)
    requires at + |data| <= buf.Length
    modifies buf
    ensures buf[..] == old(buf[..])[..at] + data + old(buf[..])[at + |data|..]
  {
    var j := 0;
    while j < |data|
      invariant 0 <= j <= |data|
      invariant forall k :: 0 <= k < buf.Length && !(at <= k < at + j) ==> buf[k] == old(buf[k])
      invariant forall k :: 0 <= k < j ==> buf[at + k] == data[k]
    {
      buf[at + j] := data[j];
      j := j + 1;
    }
    assert buf[..] == old(buf[..])[..at] + data + old(buf[..])[at + |data|..];
  }

  /** One section update as the code performs it. */
  method PatchAsWritten(buf: array<byte>, offset: nat, size: nat, data: seq<byte>)
    requires offset + size <= buf.Length && offset + |data| <= buf.Length
    modifies buf
    ensures buf[..] == PatchedAsWritten(old(buf[..]), offset, size, data)
  {
    FillZero(buf, offset, offset + size);
    CopyInto(buf, offset, data);
  }

  /**
   * One section update, refusing data longer than the section: `ok` says
   * whether it fitted, and a refused update leaves the buffer as it was.
   */
  method PatchSection(buf: array<byte>, offset: nat, size: nat, data: seq<byte>) returns (ok: bool)
    requires offset + size <= buf.Length
    modifies buf
    ensures ok == (|data| <= size)
    ensures ok ==> buf[..] == Patched(old(buf[..]), offset, size, data)
    ensures !ok ==> buf[..] == old(buf[..])
  {
    if |data| > size {
      return false;
    }
    PatchAsWritten(buf, offset, size, data);
    AsWrittenAgreesWhenFits(old(buf[..]), offset, size, data);
    ok := true;
  }

  /** A pending update: the section's file range and the bytes to store in it. */
  datatype Update = Update(offset: nat, size: nat, data: seq<byte>)

  /** Every update's section lies inside a buffer of `len` bytes. */
  predicate InBounds(ups: seq<Update>, len: nat) {
    forall i :: 0 <= i < |ups| ==> ups[i].offset + ups[i].size <= len
  }

  /** One update as the corrected loop applies it: skipped when its data does not fit its section. */
  function ApplyOne(buf: seq<byte>, u: Update): (r: seq<byte>)
    requires u.offset + u.size <= |buf|
    ensures |r| == |buf|
  {
    if |u.data| <= u.size then Patched(buf, u.offset, u.size, u.data) else buf
  }

  /** The updates applied in order by the corrected loop. */
  function ApplyAll(buf: seq<byte>, ups: seq<Update>): (r: seq<byte>)
    requires InBounds(ups, |buf|)
    ensures |r| == |buf|
  {
    if ups == [] then buf
    else ApplyOne(ApplyAll(buf, ups[..|ups| - 1]), ups[|ups| - 1])
  }

  /**
   * The corrected loop over `section_updates`: each update goes through the
   * checked patch, and `allFit` reports whether every one of them fitted.
   */
  method ApplyUpdates(buf: array<byte>, ups: seq<Update>) returns (allFit: bool)
    requires InBounds(ups, buf.Length)
    modifies buf
    ensures buf[..] == ApplyAll(old(buf[..]), ups)
    ensures allFit == forall i :: 0 <= i < |ups| ==> |ups[i].data| <= ups[i].size
  {
    allFit := true;
    var n := 0;
    while n < |ups|
      invariant 0 <= n <= |ups|
      invariant InBounds(ups[..n], buf.Length)
      invariant buf[..] == ApplyAll(old(buf[..]), ups[..n])
      invariant allFit == forall i :: 0 <= i < n ==> |ups[i].data| <= ups[i].size
    {
      var u := ups[n];
      assert ups[..n + 1][..n] == ups[..n];
      var ok := PatchSection(buf, u.offset, u.size, u.data);
      allFit := allFit && ok;
      n := n + 1;
    }
    assert ups[..n] == ups;
  }

  /** Byte `i` lies in none of the updates' sections. */
  predicate Outside(ups: seq<Update>, i: int) {
    forall k :: 0 <= k < |ups| ==> !(ups[k].offset <= i < ups[k].offset + ups[k].size)
  }

  /** The checked updates never change a byte that lies outside every update's section. */
  lemma {:induction false} ApplyAllKeepsOutside(buf: seq<byte>, ups: seq<Update>)
    requires InBounds(ups, |buf|)
    ensures forall i :: 0 <= i < |buf| && Outside(ups, i) ==> ApplyAll(buf, ups)[i] == buf[i]
  {
    if ups != [] {
      var init := ups[..|ups| - 1];
      var u := ups[|ups| - 1];
      ApplyAllKeepsOutside(buf, init);
      var prev := ApplyAll(buf, init);
      if |u.data| <= u.size {
        PatchedSpec(prev, u.offset, u.size, u.data);
      }
      forall i | 0 <= i < |buf| && Outside(ups, i) ensures ApplyAll(buf, ups)[i] == buf[i] {
        assert !(u.offset <= i < u.offset + u.size);
        assert Outside(init, i) by {
          forall k | 0 <= k < |init| ensures !(init[k].offset <= i < init[k].offset + init[k].size) {
            assert init[k] == ups[k];
          }
        }
      }
    }
  }

  /**
   * Byte by byte, the code's patch: the data from the section's start, zeros
   * from the data's end up to the section's end, and every other byte kept,
   * including bytes past the section that the data does not reach.
   */
  lemma {:induction false} PatchedAsWrittenSpec(buf: seq<byte>, offset: nat, size: nat, data: seq<byte>)
    requires offset + size <= |buf| && offset + |data| <= |buf|
    ensures forall i :: offset <= i < offset + |data| ==> PatchedAsWritten(buf, offset, size, data)[i] == data[i - offset]
    ensures forall i :: offset + |data| <= i < offset + size ==> PatchedAsWritten(buf, offset, size, data)[i] == 0
    ensures forall i :: 0 <= i < |buf| && !(offset <= i < offset + size) && !(offset <= i < offset + |data|) ==>
      PatchedAsWritten(buf, offset, size, data)[i] == buf[i]
  {
    var zeroed := buf[..offset] + Zeros(size) + buf[offset + size..];
    assert forall i :: offset <= i < offset + size ==> zeroed[i] == 0;
    assert forall i :: 0 <= i < |buf| && !(offset <= i < offset + size) ==> zeroed[i] == buf[i];
  }

  /** Every update's section and every update's copy lie inside a buffer of `len` bytes. */
  predicate CopiesInBounds(ups: seq<Update>, len: nat) {
    forall i :: 0 <= i < |ups| ==> ups[i].offset + ups[i].size <= len && ups[i].offset + |ups[i].data| <= len
  }

  /** The updates applied in order as the code applies them, with no length check. */
  function ApplyAllAsWritten(buf: seq<byte>, ups: seq<Update>): (r: seq<byte>)
    requires CopiesInBounds(ups, |buf|)
    ensures |r| == |buf|
  {
    if ups == [] then buf
    else
      var u := ups[|ups| - 1];
      PatchedAsWritten(ApplyAllAsWritten(buf, ups[..|ups| - 1]), u.offset, u.size, u.data)
  }

  /** The loop over `section_updates` as the code runs it: zero-fill and copy, update after update. */
  method ApplyUpdatesAsWritten(buf: array<byte>, ups: seq<Update>)
    requires CopiesInBounds(ups, buf.Length)
    modifies buf
    ensures buf[..] == ApplyAllAsWritten(old(buf[..]), ups)
  {
    var n := 0;
    while n < |ups|
      invariant 0 <= n <= |ups|
      invariant CopiesInBounds(ups[..n], buf.Length)
      invariant buf[..] == ApplyAllAsWritten(old(buf[..]), ups[..n])
    {
      var u := ups[n];
      assert ups[..n + 1][..n] == ups[..n];
      PatchAsWritten(buf, u.offset, u.size, u.data);
      n := n + 1;
    }
    assert ups[..n] == ups;
  }

  /** Byte `i` lies in none of the updates' sections and none of their copies. */
  predicate Untouched(ups: seq<Update>, i: int) {
    forall k :: 0 <= k < |ups| ==>
      !(ups[k].offset <= i < ups[k].offset + ups[k].size) && !(ups[k].offset <= i < ups[k].offset + |ups[k].data|)
  }

  /**
   * The code's loop keeps only the bytes that no section and no copy covers:
   * a copy longer than its section reaches past it.
   */
  lemma {:induction false} ApplyAllAsWrittenKeepsUntouched(buf: seq<byte>, ups: seq<Update>)
    requires CopiesInBounds(ups, |buf|)
    ensures forall i :: 0 <= i < |buf| && Untouched(ups, i) ==> ApplyAllAsWritten(buf, ups)[i] == buf[i]
  {
    if ups != [] {
      var init := ups[..|ups| - 1];
      var u := ups[|ups| - 1];
      ApplyAllAsWrittenKeepsUntouched(buf, init);
      PatchedAsWrittenSpec(ApplyAllAsWritten(buf, init), u.offset, u.size, u.data);
      forall i | 0 <= i < |buf| && Untouched(ups, i) ensures ApplyAllAsWritten(buf, ups)[i] == buf[i] {
        assert !(u.offset <= i < u.offset + u.size) && !(u.offset <= i < u.offset + |u.data|);
        assert Untouched(init, i) by {
          forall k | 0 <= k < |init|
            ensures !(init[k].offset <= i < init[k].offset + init[k].size) && !(init[k].offset <= i < init[k].offset + |init[k].data|)
          {
            assert init[k] == ups[k];
          }
        }
      }
    }
  }

  /** When every update fits its section, the code's loop and the checked loop write the same bytes. */
  lemma {:induction false} AsWrittenLoopAgreesWhenAllFit(buf: seq<byte>, ups: seq<Update>)
    requires InBounds(ups, |buf|) && forall i :: 0 <= i < |ups| ==> |ups[i].data| <= ups[i].size
    ensures CopiesInBounds(ups, |buf|)
    ensures ApplyAllAsWritten(buf, ups) == ApplyAll(buf, ups)
  {
    if ups != [] {
      var init := ups[..|ups| - 1];
      var u := ups[|ups| - 1];
      assert forall i :: 0 <= i < |init| ==> init[i] == ups[i];
      AsWrittenLoopAgreesWhenAllFit(buf, init);
      AsWrittenAgreesWhenFits(ApplyAll(buf, init), u.offset, u.size, u.data);
    }
  }

  /**
   * The skip of an update whose data already equals its whole section can
   * change what the code's loop writes: an earlier copy that runs into the
   * skipped section is then not undone. With `[1, 1, 1]`, the overrunning
   * update `(0, 1, [7, 7])` alone gives `[7, 7, 1]`, while followed by the
   * skipped update `(1, 1, [1])` it would give `[7, 1, 1]`.
   */
  lemma {:induction false} AsWrittenSkipMatters()
    ensures ApplyAllAsWritten([1, 1, 1], [Update(0, 1, [7, 7])]) == [7, 7, 1]
    ensures ApplyAllAsWritten([1, 1, 1], [Update(0, 1, [7, 7]), Update(1, 1, [1])]) == [7, 1, 1]
  {
    var b := Update(0, 1, [7, 7]);
    var a := Update(1, 1, [1]);
    AsWrittenOverrunsSection();
    assert [b, a][..1] == [b];
    var buf: seq<byte> := [1, 1, 1];
    assert [b][..0] == [];
    assert ApplyAllAsWritten(buf, [b]) == PatchedAsWritten(ApplyAllAsWritten(buf, []), 0, 1, [7, 7]);
    var after := ApplyAllAsWritten(buf, [b]);
    assert after == [7, 7, 1];
    var zeroed: seq<byte> := after[..1] + Zeros(1) + after[2..];
    assert zeroed == [7, 0, 1];
    assert zeroed[2..] == [1];
  }

  /** `trim_end_matches` of the NUL character: drops the trailing zero bytes. */
  function TrimNul(s: seq<byte>): seq<byte> {
    if |s| > 0 && s[|s| - 1] == 0 then TrimNul(s[..|s| - 1]) else s
  }

  /** TrimNul keeps the longest prefix that does not end in a zero byte, and drops only zeros. */
  lemma {:induction false} TrimNulSpec(s: seq<byte>)
    ensures var r := TrimNul(s);
      && |r| <= |s| && r == s[..|r|]
      && (r == [] || r[|r| - 1] != 0)
      && forall i :: |r| <= i < |s| ==> s[i] == 0
  {
    if |s| > 0 && s[|s| - 1] == 0 {
      TrimNulSpec(s[..|s| - 1]);
    }
  }

  /** Trailing zeros after data that does not end in a zero byte trim away. */
  lemma {:induction false} TrimNulZeros(data: seq<byte>, k: nat)
    requires data == [] || data[|data| - 1] != 0
    ensures TrimNul(data + Zeros(k)) == data
  {
    if k > 0 {
      assert (data + Zeros(k))[..|data| + k - 1] == data + Zeros(k - 1);
      TrimNulZeros(data, k - 1);
    } else {
      assert data + Zeros(0) == data;
    }
  }

  /**
   * Reading a patched section back, as `main` does, recovers the data,
   * provided the data fits and does not itself end in a zero byte.
   */
  lemma {:induction false} TrimNulRoundTrip(buf: seq<byte>, offset: nat, size: nat, data: seq<byte>)
    requires offset + size <= |buf| && |data| <= size
    requires data == [] || data[|data| - 1] != 0
    ensures TrimNul(Patched(buf, offset, size, data)[offset..offset + size]) == data
  {
    PatchedSpec(buf, offset, size, data);
    TrimNulZeros(data, size - |data|);
  }
}
