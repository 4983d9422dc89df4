/** Extracting by byte width: results of exactly the requested number of bytes that never split a character. */
module ByteWidth {
  import opened MixedStrings
  import opened Cursors
  import opened Buffers

  // ---------- What the functions mean ----------

  /** Bytes of the first `m` characters. */
  function Width(cs: seq<Chr>, m: nat): nat
    requires m <= |cs|
  {
    |Encode(cs[..m])|
  }

  /** The character used for an odd byte. */
  function OddPad(pad: Chr): Chr {
    if pad.Sbcs? then pad else Sbcs(SBCS_BLANK)
  }

  function DbcsPads(pad: Chr, rem: nat): nat {
    if pad.Sbcs? then 0 else rem / 2
  }

  function SbcsPads(pad: Chr, rem: nat): nat {
    if pad.Sbcs? then rem else rem % 2
  }

  /** DBLEFT: the characters that fit, then pads. */
  function LeftOf(cs: seq<Chr>, n: nat, pad: Chr): seq<Chr> {
    var k := Fitting(cs, n);
    var rem := if Width(cs, k) <= n then n - Width(cs, k) else 0;
    cs[..k] + Pads(pad, DbcsPads(pad, rem)) + Pads(OddPad(pad), SbcsPads(pad, rem))
  }

  /** DBRLEFT: what DBLEFT leaves. */
  function RleftOf(cs: seq<Chr>, n: nat): seq<Chr> {
    cs[Fitting(cs, n)..]
  }

  /** The first character DBRIGHT keeps: one further on when the cut falls inside a character. */
  function Cut(cs: seq<Chr>, n: nat): (i: nat)
    ensures i <= |cs|
  {
    if n > |Encode(cs)| then 0
    else
      var j := Fitting(cs, |Encode(cs)| - n);
      if j < |cs| && Width(cs, j) < |Encode(cs)| - n then j + 1 else j
  }

  /** DBRIGHT: pads, then the characters that fit. */
  function RightOf(cs: seq<Chr>, n: nat, pad: Chr): seq<Chr> {
    var i := Cut(cs, n);
    var rem := if |Encode(cs[i..])| <= n then n - |Encode(cs[i..])| else 0;
    Pads(OddPad(pad), SbcsPads(pad, rem)) + Pads(pad, DbcsPads(pad, rem)) + cs[i..]
  }

  /** DBRRIGHT: what DBRIGHT leaves. */
  function RrightOf(cs: seq<Chr>, n: nat): seq<Chr> {
    cs[..Cut(cs, n)]
  }

  // ---------- Properties ----------

  lemma {:induction false} WidthStep(cs: seq<Chr>, m: nat)
    requires m < |cs|
    ensures Width(cs, m + 1) == Width(cs, m) + |Bytes(cs[m])|
  {
    assert cs[..m + 1] == cs[..m] + [cs[m]];
    EncodeJoin(cs[..m], [cs[m]]);
    assert Encode([cs[m]]) == Bytes(cs[m]) + Encode([cs[m]][1..]);
  }

  lemma {:induction false} WidthGrows(cs: seq<Chr>, m: nat, k: nat)
    requires m < k <= |cs|
    ensures Width(cs, m) < Width(cs, k)
    decreases k - m
  {
    WidthStep(cs, k - 1);
    if m < k - 1 {
      WidthGrows(cs, m, k - 1);
    }
  }

  /** DBLEFT keeps the longest prefix of at most `n` bytes. */
  lemma {:induction false} LeftKeepsLongestPrefix(cs: seq<Chr>, n: nat, m: nat)
    requires m <= |cs|
    ensures Width(cs, m) <= n <==> m <= Fitting(cs, n)
  {
    FittingIsTight(cs, n);
    var k := Fitting(cs, n);
    if m < k {
      WidthGrows(cs, m, k);
    } else if m > k {
      WidthStep(cs, k);
      if m > k + 1 {
        WidthGrows(cs, k + 1, m);
      }
    }
  }

  /** The cut is at the first boundary that leaves at most `n` bytes. */
  lemma {:induction false} CutIsTight(cs: seq<Chr>, n: nat)
    requires n <= |Encode(cs)|
    ensures var i, skipped := Cut(cs, n), |Encode(cs)| - n;
            && skipped <= Width(cs, i) <= skipped + 1
            && (i > 0 ==> Width(cs, i - 1) < skipped)
  {
    var skipped := |Encode(cs)| - n;
    var j := Fitting(cs, skipped);
    FittingIsTight(cs, skipped);
    assert cs[..|cs|] == cs;
    if j < |cs| {
      WidthStep(cs, j);
    }
    if j > 0 {
      WidthStep(cs, j - 1);
    }
  }

  /** DBRIGHT keeps the longest suffix of at most `n` bytes. */
  lemma {:induction false} RightKeepsLongestSuffix(cs: seq<Chr>, n: nat, m: nat)
    requires m <= |cs|
    ensures |Encode(cs[m..])| <= n <==> Cut(cs, n) <= m
  {
    EncodeSplit(cs, m);
    if n <= |Encode(cs)| {
      var i := Cut(cs, n);
      CutIsTight(cs, n);
      if m < i - 1 {
        WidthGrows(cs, m, i - 1);
      } else if i < m {
        WidthGrows(cs, i, m);
      }
    }
  }

  lemma {:induction false} PadWidth(pad: Chr, rem: nat)
    ensures |Encode(Pads(pad, DbcsPads(pad, rem)))| + |Encode(Pads(OddPad(pad), SbcsPads(pad, rem)))| == rem
  {
    EncodePads(pad, DbcsPads(pad, rem));
    EncodePads(OddPad(pad), SbcsPads(pad, rem));
  }

  /** DBLEFT always gives a valid string of exactly `n` bytes. */
  lemma {:induction false} LeftIsExact(t: Table, cs: seq<Chr>, n: nat, pad: Chr)
    requires IsText(t, cs) && IsChr(t, pad)
    ensures |Encode(LeftOf(cs, n, pad))| == n && Valid(t, Encode(LeftOf(cs, n, pad)))
    ensures Decode(t, Encode(LeftOf(cs, n, pad))) == LeftOf(cs, n, pad)
  {
    LeftWidth(cs, n, pad);
    assert IsChr(t, OddPad(pad));
    assert IsText(t, LeftOf(cs, n, pad));
    DecodeInvertsEncode(t, LeftOf(cs, n, pad));
  }

  /** DBRIGHT always gives a valid string of exactly `n` bytes. */
  lemma {:induction false} RightIsExact(t: Table, cs: seq<Chr>, n: nat, pad: Chr)
    requires IsText(t, cs) && IsChr(t, pad)
    ensures |Encode(RightOf(cs, n, pad))| == n && Valid(t, Encode(RightOf(cs, n, pad)))
    ensures Decode(t, Encode(RightOf(cs, n, pad))) == RightOf(cs, n, pad)
  {
    RightWidth(cs, n, pad);
    assert IsChr(t, OddPad(pad));
    assert IsText(t, RightOf(cs, n, pad));
    DecodeInvertsEncode(t, RightOf(cs, n, pad));
  }

  lemma {:induction false} LeftWidth(cs: seq<Chr>, n: nat, pad: Chr)
    ensures |Encode(LeftOf(cs, n, pad))| == n
  {
    var k := Fitting(cs, n);
    FittingIsTight(cs, n);
    var rem := n - Width(cs, k);
    PadWidth(pad, rem);
    EncodeThree(cs[..k], Pads(pad, DbcsPads(pad, rem)), Pads(OddPad(pad), SbcsPads(pad, rem)));
  }

  lemma {:induction false} RightWidth(cs: seq<Chr>, n: nat, pad: Chr)
    ensures |Encode(RightOf(cs, n, pad))| == n
  {
    var i := Cut(cs, n);
    RightKeepsLongestSuffix(cs, n, i);
    var rem := n - |Encode(cs[i..])|;
    PadWidth(pad, rem);
    EncodeThree(Pads(OddPad(pad), SbcsPads(pad, rem)), Pads(pad, DbcsPads(pad, rem)), cs[i..]);
  }

  /** Nothing is lost on the left: the text bytes of DBLEFT, at most `n`, and DBRLEFT make up the string. */
  lemma {:induction false} LeftConserves(cs: seq<Chr>, n: nat, pad: Chr)
    ensures var left, rest := Encode(LeftOf(cs, n, pad)), Encode(RleftOf(cs, n));
            var kept := |Encode(cs)| - |rest|;
            && 0 <= kept <= |left| == n
            && left[..kept] + rest == Encode(cs)
  {
    hide Encode, Fitting;
    var k := Fitting(cs, n);
    FittingIsTight(cs, n);
    EncodeSplit(cs, k);
    LeftWidth(cs, n, pad);
    var rem := n - Width(cs, k);
    EncodeThree(cs[..k], Pads(pad, DbcsPads(pad, rem)), Pads(OddPad(pad), SbcsPads(pad, rem)));
  }

  lemma {:induction false} LeftAtBoundary(cs: seq<Chr>, n: nat, pad: Chr, m: nat)
    requires m <= |cs| && Width(cs, m) == n
    ensures LeftOf(cs, n, pad) + RleftOf(cs, n) == cs
  {
    var k := Fitting(cs, n);
    LeftKeepsLongestPrefix(cs, n, m);
    LeftKeepsLongestPrefix(cs, n, k);
    if m < k {
      WidthGrows(cs, m, k);
    }
    EncodeSplit(cs, m);
    LeftInside(cs, n, pad);
  }

  /** DBLEFT and DBRLEFT themselves make up the string exactly when a character ends at `n` bytes. */
  lemma {:induction false} LeftUnpadded(cs: seq<Chr>, n: nat, pad: Chr)
    ensures LeftOf(cs, n, pad) + RleftOf(cs, n) == cs <==> exists m | 0 <= m <= |cs| :: Width(cs, m) == n
  {
    hide LeftOf, RleftOf, Encode;
    var left, rest := LeftOf(cs, n, pad), RleftOf(cs, n);
    if left + rest == cs {
      LeftWidth(cs, n, pad);
      assert cs[..|left|] == left && Width(cs, |left|) == n;
    }
    if m :| 0 <= m <= |cs| && Width(cs, m) == n {
      LeftAtBoundary(cs, n, pad, m);
    }
  }

  /** Nothing is lost on the right: DBRRIGHT and the text bytes of DBRIGHT, at most `n`, make up the string. */
  lemma {:induction false} RightConserves(cs: seq<Chr>, n: nat, pad: Chr)
    ensures var right, rest := Encode(RightOf(cs, n, pad)), Encode(RrightOf(cs, n));
            var kept := |Encode(cs)| - |rest|;
            && 0 <= kept <= |right| == n
            && rest + right[n - kept..] == Encode(cs)
  {
    hide Encode, Cut;
    var i := Cut(cs, n);
    RightKeepsLongestSuffix(cs, n, i);
    EncodeSplit(cs, i);
    RightWidth(cs, n, pad);
    var rem := n - |Encode(cs[i..])|;
    EncodeThree(Pads(OddPad(pad), SbcsPads(pad, rem)), Pads(pad, DbcsPads(pad, rem)), cs[i..]);
  }

  lemma {:induction false} RightAtBoundary(cs: seq<Chr>, n: nat, pad: Chr, m: nat)
    requires m <= |cs| && |Encode(cs[m..])| == n
    ensures RrightOf(cs, n) + RightOf(cs, n, pad) == cs
  {
    hide Encode, Cut, RightOf;
    var i := Cut(cs, n);
    RightKeepsLongestSuffix(cs, n, m);
    RightKeepsLongestSuffix(cs, n, i);
    EncodeSplit(cs, m);
    EncodeSplit(cs, i);
    if i < m {
      WidthGrows(cs, i, m);
    }
    RightInside(cs, n, pad);
    assert RightOf(cs, n, pad) == cs[i..];
  }

  /** DBRRIGHT and DBRIGHT themselves make up the string exactly when a character starts `n` bytes before the end. */
  lemma {:induction false} RightUnpadded(cs: seq<Chr>, n: nat, pad: Chr)
    ensures RrightOf(cs, n) + RightOf(cs, n, pad) == cs <==> exists m | 0 <= m <= |cs| :: |Encode(cs[m..])| == n
  {
    hide RightOf, RrightOf, Encode;
    var right, rest := RightOf(cs, n, pad), RrightOf(cs, n);
    if rest + right == cs {
      RightWidth(cs, n, pad);
      assert cs[|rest|..] == right && |Encode(cs[|rest|..])| == n;
    }
    if m :| 0 <= m <= |cs| && |Encode(cs[m..])| == n {
      RightAtBoundary(cs, n, pad, m);
    }
  }

  lemma {:induction false} OnePad(pad: Chr, rem: nat)
    requires rem <= 1
    ensures Pads(pad, DbcsPads(pad, rem)) == []
    ensures Pads(OddPad(pad), SbcsPads(pad, rem)) == if rem == 0 then [] else [OddPad(pad)]
  {}

  /** Inside the string DBLEFT pads one odd byte, and only where a character would be split. */
  lemma {:induction false} LeftInside(cs: seq<Chr>, n: nat, pad: Chr)
    requires n <= |Encode(cs)|
    ensures var k := Fitting(cs, n);
            LeftOf(cs, n, pad) == cs[..k] + if Width(cs, k) == n then [] else [if pad.Sbcs? then pad else Sbcs(0x20)]
  {
    var k := Fitting(cs, n);
    FittingIsTight(cs, n);
    assert k == |cs| ==> cs[..k] == cs;
    OnePad(pad, n - Width(cs, k));
  }

  /** So does DBRIGHT. */
  lemma {:induction false} RightInside(cs: seq<Chr>, n: nat, pad: Chr)
    requires n <= |Encode(cs)|
    ensures var i := Cut(cs, n);
            RightOf(cs, n, pad) == (if |Encode(cs[i..])| == n then [] else [if pad.Sbcs? then pad else Sbcs(0x20)]) + cs[i..]
  {
    hide Encode, Cut;
    var i := Cut(cs, n);
    CutIsTight(cs, n);
    assert n - 1 <= |Encode(cs[i..])| <= n by {
      EncodeSplit(cs, i);
    }
    OnePad(pad, n - |Encode(cs[i..])|);
  }

  /** Beyond the end DBLEFT appends the pad: as often as bytes are missing, or half as often and a blank for an odd byte. */
  lemma {:induction false} LeftPads(cs: seq<Chr>, n: nat, pad: Chr)
    requires n >= |Encode(cs)|
    ensures var missing := n - |Encode(cs)|;
            LeftOf(cs, n, pad) == cs + match pad
                                       case Sbcs(_) => Pads(pad, missing)
                                       case Dbcs(_, _) => Pads(pad, missing / 2) + (if missing % 2 == 1 then [Sbcs(0x20)] else [])
  {
    assert cs[..|cs|] == cs;
    LeftKeepsLongestPrefix(cs, n, |cs|);
    assert Fitting(cs, n) == |cs|;
  }

  /** Beyond the beginning DBRIGHT puts the pads in front, the blank for an odd byte first. */
  lemma {:induction false} RightPads(cs: seq<Chr>, n: nat, pad: Chr)
    requires n >= |Encode(cs)|
    ensures var missing := n - |Encode(cs)|;
            RightOf(cs, n, pad) == match pad
                                   case Sbcs(_) => Pads(pad, missing) + cs
                                   case Dbcs(_, _) => (if missing % 2 == 1 then [Sbcs(0x20)] else []) + Pads(pad, missing / 2) + cs
  {
    assert cs[0..] == cs;
    RightKeepsLongestSuffix(cs, n, 0);
    assert Cut(cs, n) == 0;
  }

  // ---------- The byte-level functions ----------

  /** How many pads of each width fill `rem` bytes. */
  method PadCounts(rem: nat, pad: Chr) returns (dbcsPadNum: nat, sbcsPadNum: nat)
    ensures dbcsPadNum == DbcsPads(pad, rem) && sbcsPadNum == SbcsPads(pad, rem)
  {
    if rem > 0 {
      if |Bytes(pad)| == 1 {
        dbcsPadNum, sbcsPadNum := 0, rem;
      } else {
        dbcsPadNum, sbcsPadNum := rem / 2, rem % 2;
      }
    } else {
      dbcsPadNum, sbcsPadNum := 0, 0;
    }
  }

  /** The text, double-byte pads and single-byte pads. */
  method FillLeft(text: seq<Octet>, dbcsPadNum: nat, sbcsPadNum: nat, pad: Chr, size: nat) returns (result: seq<Octet>)
    requires size == |text| + |Encode(Pads(pad, dbcsPadNum))| + |Encode(Pads(OddPad(pad), sbcsPadNum))|
    ensures result == text + Encode(Pads(pad, dbcsPadNum)) + Encode(Pads(OddPad(pad), sbcsPadNum))
  {
    var buffer := new Octet[size];
    var scan := PutPadded(buffer, 0, text, dbcsPadNum, pad);
    SetPadChar(buffer, scan, sbcsPadNum, OddPad(pad));
    assert buffer[..buffer.Length] == buffer[..];
    result := buffer[..];
  }

  /** Single-byte pads, double-byte pads and the text. */
  method FillRight(text: seq<Octet>, dbcsPadNum: nat, sbcsPadNum: nat, pad: Chr, size: nat) returns (result: seq<Octet>)
    requires size == |text| + |Encode(Pads(pad, dbcsPadNum))| + |Encode(Pads(OddPad(pad), sbcsPadNum))|
    ensures result == Encode(Pads(OddPad(pad), sbcsPadNum)) + Encode(Pads(pad, dbcsPadNum)) + text
  {
    var buffer := new Octet[size];
    var scan := PutPadded(buffer, 0, [], sbcsPadNum, OddPad(pad));
    scan := PutPadded(buffer, scan, [], dbcsPadNum, pad);
    MemCpy(buffer, scan, text);
    assert buffer[..buffer.Length] == buffer[..];
    result := buffer[..];
  }

  /** dbLeft. */
  method DbLeft(t: Table, s: seq<Octet>, n: nat, pad: Chr) returns (result: seq<Octet>)
    requires Valid(t, s)
    ensures result == Encode(LeftOf(Decode(t, s), n, pad))
  {
    hide Encode, IsText, Valid, Decode, Fitting;
    ghost var cs := TextOf(t, s);
    LeftWidth(cs, n, pad);
    if n == 0 {
      return [];
    }
    var rest, rem := IncByte(t, s, n, cs);
    ghost var k := Fitting(cs, n);
    EncodeSplit(cs, k);
    var dbcsPadNum, sbcsPadNum := PadCounts(rem, pad);
    PadWidth(pad, rem);
    EncodeThree(cs[..k], Pads(pad, dbcsPadNum), Pads(OddPad(pad), sbcsPadNum));
    result := FillLeft(s[..n - rem], dbcsPadNum, sbcsPadNum, pad, n);
  }

  /** Step to the first character of the last `n` bytes; `rem` is 1 when a character is split there. */
  method StepToCut(t: Table, s: seq<Octet>, n: nat, ghost cs: seq<Chr>) returns (str: seq<Octet>, rem: nat)
    requires IsText(t, cs) && s == Encode(cs) && n <= |s|
    ensures str == Encode(cs[Cut(cs, n)..]) && rem == n - |str| && rem <= 1
  {
    hide Encode, Fitting;
    str, rem := IncByte(t, s, |s| - n, cs);
    ghost var j := Fitting(cs, |s| - n);
    FittingIsTight(cs, |s| - n);
    EncodeSplit(cs, j);
    assert cs[..|cs|] == cs;
    if rem != 0 {
      EncodeHead(t, cs[j..]);
      assert cs[j..][1..] == cs[j + 1..];
      rem := 1;
      str := str[2..];
    }
  }

  /** dbRight. */
  method DbRight(t: Table, s: seq<Octet>, n: nat, pad: Chr) returns (result: seq<Octet>)
    requires Valid(t, s)
    ensures result == Encode(RightOf(Decode(t, s), n, pad))
  {
    hide Encode, IsText, Valid, Decode, Fitting;
    ghost var cs := TextOf(t, s);
    RightWidth(cs, n, pad);
    if n == 0 {
      return [];
    }
    var str, rem := s, 0;
    if n > |s| {
      rem := n - |s|;
      assert cs[0..] == cs;
    } else {
      str, rem := StepToCut(t, s, n, cs);
    }
    var dbcsPadNum, sbcsPadNum := PadCounts(rem, pad);
    PadWidth(pad, rem);
    EncodeThree(Pads(OddPad(pad), sbcsPadNum), Pads(pad, dbcsPadNum), cs[Cut(cs, n)..]);
    result := FillRight(str, dbcsPadNum, sbcsPadNum, pad, |str| + rem);
  }

  /** dbRleft. */
  method DbRleft(t: Table, s: seq<Octet>, n: nat) returns (result: seq<Octet>)
    requires Valid(t, s)
    ensures result == Encode(RleftOf(Decode(t, s), n))
  {
    ghost var cs := TextOf(t, s);
    if n == 0 {
      assert cs[0..] == cs;
      result := s;
    } else {
      var rem;
      result, rem := IncByte(t, s, n, cs);
    }
  }

  /** dbRright. */
  method DbRright(t: Table, s: seq<Octet>, n: nat) returns (result: seq<Octet>)
    requires Valid(t, s)
    ensures result == Encode(RrightOf(Decode(t, s), n))
  {
    ghost var cs := TextOf(t, s);
    if n == 0 {
      RightKeepsLongestSuffix(cs, 0, Cut(cs, 0));
      EncodeEmpty(cs[Cut(cs, 0)..]);
      assert cs[..|cs|] == cs;
      result := s;
    } else if n > |s| {
      result := [];
    } else {
      var str, rem := StepToCut(t, s, n, cs);
      EncodeSplit(cs, Cut(cs, n));
      result := s[..|s| - |str|];
    }
  }
}
