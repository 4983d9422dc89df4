/** Extracting, deleting, inserting and overlaying by character position. */
module Substrings {
  import opened MixedStrings
  import opened Cursors
  import opened Buffers

  // ---------- What the functions mean ----------

  /** `n` characters from position `p` (1-based) on, padded. */
  function SubstrOf(cs: seq<Chr>, p: nat, n: nat, pad: Chr): seq<Chr>
    requires p > 0
  {
    Fit(From(cs, p - 1), n, pad)
  }

  /** Without `n` characters from position `p` on. */
  function DelstrOf(cs: seq<Chr>, p: nat, n: nat): seq<Chr>
    requires p > 0
  {
    if p - 1 > |cs| then cs else cs[..p - 1] + From(cs, p - 1 + n)
  }

  /** `n` characters of `ds`, padded, put in after the first `k` characters of `cs`, padded. */
  function InsertOf(cs: seq<Chr>, ds: seq<Chr>, k: nat, n: nat, pad: Chr): seq<Chr> {
    Fit(cs, k, pad) + Fit(ds, n, pad) + From(cs, k)
  }

  /** `n` characters of `ds`, padded, put over `cs` from position `p` on. */
  function OverlayOf(cs: seq<Chr>, ds: seq<Chr>, p: nat, n: nat, pad: Chr): seq<Chr>
    requires p > 0
  {
    Fit(cs, p - 1, pad) + Fit(ds, n, pad) + From(cs, p - 1 + n)
  }

  // ---------- Algebra ----------

  /** Putting back what was deleted restores the string. */
  lemma {:induction false} InsertUndoesDelete(cs: seq<Chr>, p: nat, n: nat, pad: Chr)
    requires 0 < p && p - 1 + n <= |cs|
    ensures InsertOf(DelstrOf(cs, p, n), SubstrOf(cs, p, n, pad), p - 1, n, pad) == cs
  {
    var del, sub := DelstrOf(cs, p, n), SubstrOf(cs, p, n, pad);
    hide Fit;
    FitExactly(cs[p - 1..], n, pad);
    assert sub == cs[p - 1..][..n] == cs[p - 1..p - 1 + n];
    FitExactly(sub, n, pad);
    assert sub[..n] == sub;
    assert del == cs[..p - 1] + cs[p - 1 + n..];
    FitExactly(del, p - 1, pad);
    assert del[..p - 1] == cs[..p - 1] && From(del, p - 1) == cs[p - 1 + n..];
  }

  /** Overlaying is deleting and inserting, for all arguments. */
  lemma {:induction false} OverlayIsDeleteThenInsert(cs: seq<Chr>, ds: seq<Chr>, p: nat, n: nat, pad: Chr)
    requires p > 0
    ensures OverlayOf(cs, ds, p, n, pad) == InsertOf(DelstrOf(cs, p, n), ds, p - 1, n, pad)
  {
    var del := DelstrOf(cs, p, n);
    if p - 1 <= |cs| {
      assert Fit(del, p - 1, pad) == cs[..p - 1] == Fit(cs, p - 1, pad);
      assert From(del, p - 1) == From(cs, p - 1 + n);
    }
  }

  /** What was overlaid can be read back, whatever was there before; the rest is untouched. */
  lemma {:induction false} SubstrReadsOverlay(cs: seq<Chr>, ds: seq<Chr>, p: nat, n: nat, pad: Chr)
    requires p > 0
    ensures var r := OverlayOf(cs, ds, p, n, pad);
            && SubstrOf(r, p, n, pad) == Fit(ds, n, pad)
            && |r| == (if p - 1 + n < |cs| then |cs| else p - 1 + n)
            && SubstrOf(r, 1, p - 1, pad) == SubstrOf(cs, 1, p - 1, pad)
            && From(r, p - 1 + n) == From(cs, p - 1 + n)
  {
    var r := OverlayOf(cs, ds, p, n, pad);
    assert From(r, p - 1)[..n] == Fit(ds, n, pad);
    assert r[..p - 1] == Fit(cs, p - 1, pad);
    assert From(r, 0) == r && From(cs, 0) == cs;
  }

  /** Inserting only shifts: the parts of the original are found again around the insertion. */
  lemma {:induction false} DeleteUndoesInsert(cs: seq<Chr>, ds: seq<Chr>, k: nat, n: nat, pad: Chr)
    requires k <= |cs|
    ensures DelstrOf(InsertOf(cs, ds, k, n, pad), k + 1, n) == cs
    ensures SubstrOf(InsertOf(cs, ds, k, n, pad), k + 1, n, pad) == Fit(ds, n, pad)
  {
    var fit := Fit(ds, n, pad);
    var r := InsertOf(cs, ds, k, n, pad);
    hide Fit;
    assert r == cs[..k] + fit + cs[k..] by { FitExactly(cs, k, pad); }
    assert r[..k] == cs[..k] && From(r, k + n) == cs[k..];
    assert From(r, k)[..n] == fit;
    FitExactly(From(r, k), n, pad);
  }

  /** SUBSTR reads the text where there is some and pads elsewhere. */
  lemma {:induction false} SubstrAt(cs: seq<Chr>, p: nat, n: nat, pad: Chr, i: nat)
    requires p > 0 && i < n
    ensures |SubstrOf(cs, p, n, pad)| == n
    ensures SubstrOf(cs, p, n, pad)[i] == if p - 1 + i < |cs| then cs[p - 1 + i] else pad
  {}

  /** DELSTR closes the gap: characters before it keep their place and those behind it move up by what was there to delete. */
  lemma {:induction false} DelstrAt(cs: seq<Chr>, p: nat, n: nat, i: nat)
    requires p > 0 && i < |DelstrOf(cs, p, n)|
    ensures DelstrOf(cs, p, n)[i] == if i < p - 1 then cs[i] else cs[i + n]
    ensures |cs| - |DelstrOf(cs, p, n)| == if p - 1 >= |cs| then 0 else Min(n, |cs| - (p - 1))
  {}

  /** INSERT: first the text padded to the insertion point, then the padded insertion, then the rest of the text. */
  lemma {:induction false} InsertAt(cs: seq<Chr>, ds: seq<Chr>, k: nat, n: nat, pad: Chr, i: nat)
    requires i < |InsertOf(cs, ds, k, n, pad)|
    ensures |InsertOf(cs, ds, k, n, pad)| == n + if k < |cs| then |cs| else k
    ensures InsertOf(cs, ds, k, n, pad)[i]
         == if i < k then (if i < |cs| then cs[i] else pad)
            else if i < k + n then (if i - k < |ds| then ds[i - k] else pad)
            else cs[i - n]
  {}

  /** OVERLAY: the new text and its pads on top, the old text and the pads in front of the new one elsewhere. */
  lemma {:induction false} OverlayAt(cs: seq<Chr>, ds: seq<Chr>, p: nat, n: nat, pad: Chr, i: nat)
    requires p > 0 && i < |OverlayOf(cs, ds, p, n, pad)|
    ensures OverlayOf(cs, ds, p, n, pad)[i]
         == if p - 1 <= i < p - 1 + n then (if i - (p - 1) < |ds| then ds[i - (p - 1)] else pad)
            else if i < |cs| then cs[i] else pad
  {}

  lemma {:induction false} FitExactly(cs: seq<Chr>, n: nat, pad: Chr)
    requires n <= |cs|
    ensures Fit(cs, n, pad) == cs[..n]
  {}

  lemma {:induction false} PartsAreText(t: Table, cs: seq<Chr>, ds: seq<Chr>, p: nat, n: nat, pad: Chr)
    requires IsText(t, cs) && IsText(t, ds) && IsChr(t, pad) && p > 0
    ensures IsText(t, SubstrOf(cs, p, n, pad)) && IsText(t, DelstrOf(cs, p, n))
    ensures IsText(t, InsertOf(cs, ds, p - 1, n, pad)) && IsText(t, OverlayOf(cs, ds, p, n, pad))
  {}

  /** No character is ever split: the bytes of a text decode to that text. */
  lemma {:induction false} NeverSplits(t: Table, cs: seq<Chr>, ds: seq<Chr>, p: nat, n: nat, pad: Chr)
    requires IsText(t, cs) && IsText(t, ds) && IsChr(t, pad) && p > 0
    ensures var r := SubstrOf(cs, p, n, pad); Valid(t, Encode(r)) && Decode(t, Encode(r)) == r
    ensures var r := DelstrOf(cs, p, n); Valid(t, Encode(r)) && Decode(t, Encode(r)) == r
    ensures var r := InsertOf(cs, ds, p - 1, n, pad); Valid(t, Encode(r)) && Decode(t, Encode(r)) == r
    ensures var r := OverlayOf(cs, ds, p, n, pad); Valid(t, Encode(r)) && Decode(t, Encode(r)) == r
  {
    PartsAreText(t, cs, ds, p, n, pad);
    DecodeInvertsEncode(t, SubstrOf(cs, p, n, pad));
    DecodeInvertsEncode(t, DelstrOf(cs, p, n));
    DecodeInvertsEncode(t, InsertOf(cs, ds, p - 1, n, pad));
    DecodeInvertsEncode(t, OverlayOf(cs, ds, p, n, pad));
  }

  // ---------- Bytes of the pieces ----------

  /** A fitted text is a leading part and pads. */
  lemma {:induction false} FitBytes(cs: seq<Chr>, n: nat, pad: Chr)
    ensures Encode(Fit(cs, n, pad)) == Encode(Front(cs, n)) + Encode(Pads(pad, n - |Front(cs, n)|))
  {
    assert Fit(cs, n, pad) == Front(cs, n) + Pads(pad, n - |Front(cs, n)|);
    EncodeJoin(Front(cs, n), Pads(pad, n - |Front(cs, n)|));
  }

  /** Front and rest of a text are front and rest of its bytes. */
  lemma {:induction false} CutBytes(cs: seq<Chr>, k: nat)
    ensures |Encode(Front(cs, k))| <= |Encode(cs)|
    ensures Encode(cs)[..|Encode(Front(cs, k))|] == Encode(Front(cs, k))
    ensures Encode(cs)[|Encode(Front(cs, k))|..] == Encode(From(cs, k))
    ensures Front(cs, k) == cs[..Min(k, |cs|)]
  {
    EncodeSplit(cs, Min(k, |cs|));
    assert cs[..|cs|] == cs && cs[|cs|..] == [];
  }

  /** Two fitted texts and a rest. */
  lemma {:induction false} FittedBytes(cs: seq<Chr>, k: nat, ds: seq<Chr>, n: nat, rest: seq<Chr>, pad: Chr)
    ensures Encode(Fit(cs, k, pad) + Fit(ds, n, pad) + rest)
         == (Encode(Front(cs, k)) + Encode(Pads(pad, k - |Front(cs, k)|)))
            + (Encode(Front(ds, n)) + Encode(Pads(pad, n - |Front(ds, n)|))) + Encode(rest)
  {
    EncodeThree(Fit(cs, k, pad), Fit(ds, n, pad), rest);
    FitBytes(cs, k, pad);
    FitBytes(ds, n, pad);
  }

  // ---------- The byte-level functions ----------

  /** SUBSTR. */
  method Substr(t: Table, s: seq<Octet>, position: nat, length: nat, pad: Chr) returns (result: seq<Octet>)
    requires Valid(t, s) && position > 0
    ensures result == Encode(SubstrOf(Decode(t, s), position, length, pad))
  {
    ghost var cs := TextOf(t, s);
    if length == 0 {
      assert SubstrOf(cs, position, 0, pad) == [];
      return [];
    }
    var subPtr, startPos := IncChar(t, s, position - 1, cs);
    if startPos != 0 {
      assert SubstrOf(cs, position, length, pad) == Pads(pad, length);
      PadsLength(pad, length);
      var buffer := new Octet[length * |Bytes(pad)|];
      SetPadChar(buffer, 0, length, pad);
      assert buffer[..buffer.Length] == buffer[..];
      return buffer[..];
    }
    result := LeadingPart(t, subPtr, length, pad, From(cs, position - 1));
  }

  /** `n` characters from the front of a slice, padded. */
  method LeadingPart(t: Table, subPtr: seq<Octet>, n: nat, pad: Chr, ghost r: seq<Chr>) returns (result: seq<Octet>)
    requires IsText(t, r) && subPtr == Encode(r)
    ensures result == Encode(Fit(r, n, pad))
  {
    var endPtr, missing := IncChar(t, subPtr, n, r);
    FitBytes(r, n, pad);
    CutBytes(r, n);
    PadsLength(pad, missing);
    var realSubLen := |subPtr| - |endPtr|;
    if missing == 0 {
      result := subPtr[..realSubLen];
    } else {
      var buffer := new Octet[missing * |Bytes(pad)| + realSubLen];
      var _ := PutPadded(buffer, 0, subPtr[..realSubLen], missing, pad);
      assert buffer[..buffer.Length] == buffer[..];
      result := buffer[..];
    }
  }

  /** DELSTR. */
  method Delstr(t: Table, s: seq<Octet>, position: nat, length: nat) returns (result: seq<Octet>)
    requires Valid(t, s) && position > 0
    ensures result == Encode(DelstrOf(Decode(t, s), position, length))
  {
    ghost var cs := TextOf(t, s);
    var frontEnd, startPos := IncChar(t, s, position - 1, cs);
    if startPos != 0 {
      return s;
    }
    hide Encode, IsText, Valid, Decode;
    ghost var r, rest := cs[position - 1..], From(cs, position - 1 + length);
    EncodeSplit(cs, position - 1);
    EncodeJoin(cs[..position - 1], rest);
    var frontLength := |s| - |frontEnd|;
    assert s[..frontLength] == Encode(cs[..position - 1]);
    var backStart, deleteSize := IncChar(t, frontEnd, length, r);
    assert From(r, length) == rest;
    if deleteSize != 0 {
      assert cs[..position - 1] + [] == cs[..position - 1];
      result := s[..frontLength];
    } else {
      result := JoinSlices(s[..frontLength], backStart);
    }
  }

  /** INSERT. */
  method Insert(t: Table, s: seq<Octet>, newStr: seq<Octet>, startPos: nat, length: nat, pad: Chr) returns (result: seq<Octet>)
    requires Valid(t, s) && Valid(t, newStr)
    ensures result == Encode(InsertOf(Decode(t, s), Decode(t, newStr), startPos, length, pad))
  {
    hide Encode, IsText, Decode, Fit;
    ghost var cs := TextOf(t, s);
    ghost var ds := TextOf(t, newStr);
    var _, mainCharLen := ValidDbcs(t, s);
    var _, newCharLen := ValidDbcs(t, newStr);
    var frontSize, reqLeadPad := SplitAt(t, s, mainCharLen, startPos, cs);
    var middle, reqPadChar := Piece(t, newStr, newCharLen, length, ds);
    FittedBytes(cs, startPos, ds, length, From(cs, startPos), pad);
    result := Assemble(s[..frontSize], reqLeadPad, middle, reqPadChar, s[frontSize..], pad);
  }

  /** Where to split the string for an insertion: the bytes in front and the pads needed behind them. */
  method SplitAt(t: Table, s: seq<Octet>, mainCharLen: nat, startPos: nat, ghost cs: seq<Chr>)
    returns (frontSize: nat, reqLeadPad: nat)
    requires IsText(t, cs) && s == Encode(cs) && mainCharLen == |cs|
    ensures frontSize <= |s| && s[..frontSize] == Encode(Front(cs, startPos)) && s[frontSize..] == Encode(From(cs, startPos))
    ensures reqLeadPad == startPos - |Front(cs, startPos)|
  {
    var fCharLen: nat;
    if startPos == 0 {
      reqLeadPad, fCharLen := 0, 0;
    } else if startPos >= mainCharLen {
      reqLeadPad, fCharLen := startPos - mainCharLen, mainCharLen;
    } else {
      reqLeadPad, fCharLen := 0, startPos;
    }
    CutBytes(cs, startPos);
    frontSize := ByteLen(t, s, fCharLen, cs);
  }

  /** The bytes of at most `n` characters, and the number of pads missing to `n`. */
  method Piece(t: Table, s: seq<Octet>, charLen: nat, n: nat, ghost cs: seq<Chr>) returns (bytes: seq<Octet>, pads: nat)
    requires IsText(t, cs) && s == Encode(cs) && charLen == |cs|
    ensures bytes == Encode(Front(cs, n)) && pads == n - |Front(cs, n)|
  {
    var k := Min(charLen, n);
    CutBytes(cs, n);
    var size := ByteLen(t, s, k, cs);
    bytes, pads := s[..size], n - k;
  }

  /** OVERLAY. */
  method Overlay(t: Table, s: seq<Octet>, newStr: seq<Octet>, position: nat, length: nat, pad: Chr) returns (result: seq<Octet>)
    requires Valid(t, s) && Valid(t, newStr) && position > 0
    ensures result == Encode(OverlayOf(Decode(t, s), Decode(t, newStr), position, length, pad))
  {
    hide Encode, IsText, Decode, Fit;
    ghost var cs := TextOf(t, s);
    ghost var ds := TextOf(t, newStr);
    var _, mainCharLen := ValidDbcs(t, s);
    var _, newCharLen := ValidDbcs(t, newStr);
    var startPos := position - 1;
    var front, padFNum := Piece(t, s, mainCharLen, startPos, cs);
    var back := BackPart(t, s, startPos, length, mainCharLen, cs);
    var middle, padBNum := Piece(t, newStr, newCharLen, length, ds);
    FittedBytes(cs, startPos, ds, length, From(cs, startPos + length), pad);
    result := Assemble(front, padFNum, middle, padBNum, back, pad);
  }

  /** The bytes behind the overlaid part; none when the string is too short. */
  method BackPart(t: Table, s: seq<Octet>, startPos: nat, length: nat, charLen: nat, ghost cs: seq<Chr>) returns (back: seq<Octet>)
    requires IsText(t, cs) && s == Encode(cs) && charLen == |cs|
    ensures back == Encode(From(cs, startPos + length))
  {
    back := [];
    var fCharLen := Min(startPos, charLen);
    if fCharLen + length < charLen {
      var missing;
      back, missing := IncChar(t, s, fCharLen + length, cs);
    }
  }

  // ---------- POS ----------

  /** `ds` occurs in `cs` at character index `i` (0-based). */
  predicate OccursAt(cs: seq<Chr>, ds: seq<Chr>, i: nat) {
    i + |ds| <= |cs| && cs[i..i + |ds|] == ds
  }

  /** At a character boundary, comparing bytes decides whether the text occurs. */
  lemma {:induction false} BytesDecideOccurrence(t: Table, cs: seq<Chr>, ds: seq<Chr>, i: nat)
    requires IsText(t, cs) && IsText(t, ds) && i <= |cs|
    ensures Encode(ds) <= Encode(cs[i..]) <==> OccursAt(cs, ds, i)
  {
    PrefixSynchronises(t, cs[i..], ds);
    if i + |ds| <= |cs| {
      assert cs[i..][..|ds|] == cs[i..i + |ds|];
    }
  }

  /** `position` is the 1-based place of the first occurrence after the first `start` characters, or 0. */
  ghost predicate FirstOccurrence(cs: seq<Chr>, ds: seq<Chr>, start: nat, position: nat) {
    if position == 0 then
      ds == [] || forall i: nat | start <= i :: !OccursAt(cs, ds, i)
    else
      && ds != [] && start < position && OccursAt(cs, ds, position - 1)
      && forall i: nat | start <= i < position - 1 :: !OccursAt(cs, ds, i)
  }

  /** POS: character position of the needle after the first `start` characters. */
  method Pos(t: Table, s: seq<Octet>, needle: seq<Octet>, start: nat) returns (position: nat)
    requires Valid(t, s) && Valid(t, needle)
    ensures FirstOccurrence(Decode(t, s), Decode(t, needle), start, position)
  {
    ghost var cs := TextOf(t, s);
    ghost var ds := TextOf(t, needle);
    EncodeEmpty(ds);
    var haystack, missing := IncChar(t, s, start, cs);
    if |needle| > |haystack| || |needle| == 0 {
      NoRoomFor(t, cs, ds, Min(start, |cs|));
      return 0;
    }
    position := FindNeedle(t, haystack, needle, start, cs, ds);
  }

  /** Compare at one character boundary after the other. */
  method FindNeedle(t: Table, str: seq<Octet>, needle: seq<Octet>, start: nat, ghost cs: seq<Chr>, ghost ds: seq<Chr>)
    returns (position: nat)
    requires IsText(t, cs) && IsText(t, ds) && ds != [] && start <= |cs|
    requires str == Encode(cs[start..]) && needle == Encode(ds)
    ensures FirstOccurrence(cs, ds, start, position)
  {
    hide Encode, IsText, OccursAt;
    var haystack := str;
    position := start + 1;
    ghost var i: nat := start;
    while |haystack| >= |needle|
      invariant start <= i <= |cs| && haystack == Encode(cs[i..]) && position == i + 1
      invariant forall k: nat | start <= k < i :: !OccursAt(cs, ds, k)
      decreases |haystack|
    {
      BytesDecideOccurrence(t, cs, ds, i);
      if haystack[..|needle|] == needle {
        return;
      }
      assert i < |cs| by {
        EncodeEmpty(ds);
        EncodeEmpty(cs[i..]);
      }
      haystack := StepChar(t, haystack, cs, i);
      position := position + 1;
      i := i + 1;
    }
    NoRoomFor(t, cs, ds, i);
    position := 0;
  }

  /** Where the needle has more bytes than are left, it occurs no more. */
  lemma {:induction false} NoRoomFor(t: Table, cs: seq<Chr>, ds: seq<Chr>, i: nat)
    requires IsText(t, cs) && IsText(t, ds) && i <= |cs|
    requires |Encode(ds)| > |Encode(cs[i..])| || ds == []
    ensures ds != [] ==> forall k: nat | i <= k :: !OccursAt(cs, ds, k)
  {
    if ds != [] {
      forall k: nat | i <= k ensures !OccursAt(cs, ds, k) {
        if k <= |cs| {
          BytesDecideOccurrence(t, cs, ds, k);
          assert cs[i..][k - i..] == cs[k..];
          EncodeSplit(cs[i..], k - i);
        }
      }
    }
  }
}
