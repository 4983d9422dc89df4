/**
 The cursor loops every string function is built from. A pointer with a length is
 modelled as the slice of bytes it delimits; advancing it drops a prefix. `cs` is the
 character sequence the slice encodes.
 */
module Cursors {
  import opened MixedStrings

  /** Validate a string, counting its logical characters; a lead byte at the very end is an error. */
  method ValidDbcs(t: Table, s: seq<Octet>) returns (valid: bool, charLength: nat)
    ensures valid <==> Valid(t, s)
    ensures valid ==> charLength == |Decode(t, s)|
  {
    var str := s;
    charLength := 0;
    while str != []
      invariant Valid(t, s) <==> Valid(t, str)
      invariant Valid(t, s) ==> |Decode(t, s)| == charLength + |Decode(t, str)|
      decreases |str|
    {
      ghost var before := str;
      if str[0] in t {
        str := str[1..];
        if str == [] {
          return false, charLength;
        }
      }
      str := str[1..];
      assert str == before[Step(t, before)..];
      charLength := charLength + 1;
    }
    valid := true;
  }

  /** Step over one character, from one boundary to the next. */
  method StepChar(t: Table, str: seq<Octet>, ghost cs: seq<Chr>, ghost i: nat) returns (rest: seq<Octet>)
    requires IsText(t, cs) && i < |cs| && str == Encode(cs[i..])
    ensures rest == Encode(cs[i + 1..]) && |rest| < |str|
  {
    EncodeHead(t, cs[i..]);
    assert cs[i..][1..] == cs[i + 1..];
    if str[0] in t {
      rest := str[2..];
    } else {
      rest := str[1..];
    }
  }

  /** Step over `charLen` characters; `left` says how many were missing. */
  method IncChar(t: Table, str: seq<Octet>, charLen: nat, ghost cs: seq<Chr>) returns (rest: seq<Octet>, left: nat)
    requires IsText(t, cs) && str == Encode(cs)
    ensures var k := if charLen <= |cs| then charLen else |cs|;
            rest == Encode(cs[k..]) && left == charLen - k
  {
    rest, left := str, charLen;
    ghost var k := 0;
    while left != 0
      invariant k <= |cs| && k + left == charLen && rest == Encode(cs[k..])
    {
      if rest == [] {
        break;
      }
      rest := StepChar(t, rest, cs, k);
      left, k := left - 1, k + 1;
    }
  }

  /** Bytes taken by a number of characters. */
  method ByteLen(t: Table, str: seq<Octet>, charLen: nat, ghost cs: seq<Chr>) returns (bytes: nat)
    requires IsText(t, cs) && str == Encode(cs)
    ensures bytes == |Encode(cs[..if charLen <= |cs| then charLen else |cs|])|
  {
    var rest, _ := IncChar(t, str, charLen, cs);
    EncodeSplit(cs, if charLen <= |cs| then charLen else |cs|);
    bytes := |str| - |rest|;
  }

  /** How many characters fit into `n` bytes. */
  function Fitting(cs: seq<Chr>, n: nat): (k: nat)
    ensures k <= |cs|
  {
    if cs == [] || |Bytes(cs[0])| > n then 0 else 1 + Fitting(cs[1..], n - |Bytes(cs[0])|)
  }

  /** The fitting characters leave no room, unless the string is used up or a double-byte character would be split. */
  lemma {:induction false} FittingIsTight(cs: seq<Chr>, n: nat)
    ensures var k := Fitting(cs, n);
            && |Encode(cs[..k])| <= n
            && (k == |cs| || |Encode(cs[..k])| == n || (|Encode(cs[..k])| == n - 1 && cs[k].Dbcs?))
    decreases |cs|
  {
    if cs != [] && |Bytes(cs[0])| <= n {
      var k := Fitting(cs[1..], n - |Bytes(cs[0])|);
      FittingIsTight(cs[1..], n - |Bytes(cs[0])|);
      assert cs[..k + 1][1..] == cs[1..][..k];
    }
  }

  /** One character at a boundary: its bytes, and whether it still fits. */
  lemma {:induction false} FittingStep(t: Table, cs: seq<Chr>, k: nat, left: nat)
    requires IsText(t, cs) && k < |cs|
    ensures var s, size := Encode(cs[k..]), |Bytes(cs[k])|;
            && s != [] && (s[0] in t <==> size == 2) && size <= |s| && s[size..] == Encode(cs[k + 1..])
            && |Encode(cs[..k + 1])| == |Encode(cs[..k])| + size
            && Fitting(cs[k..], left) == if size > left then 0 else 1 + Fitting(cs[k + 1..], left - size)
  {
    EncodeHead(t, cs[k..]);
    assert cs[k..][1..] == cs[k + 1..] && cs[..k + 1] == cs[..k] + [cs[k]];
    EncodeJoin(cs[..k], [cs[k]]);
    assert Encode([cs[k]]) == Bytes(cs[k]) + Encode([cs[k]][1..]);
  }

  lemma {:induction false} FittingAll(cs: seq<Chr>, k: nat, left: nat)
    requires k <= |cs|
    ensures Encode(cs[k..]) == [] <==> k == |cs|
    ensures k == |cs| || left == 0 ==> Fitting(cs[k..], left) == 0
  {}

  /** Step over `byteLen` bytes without splitting a double-byte character. */
  method IncByte(t: Table, str: seq<Octet>, byteLen: nat, ghost cs: seq<Chr>) returns (rest: seq<Octet>, left: nat)
    requires IsText(t, cs) && str == Encode(cs)
    ensures var k := Fitting(cs, byteLen);
            rest == Encode(cs[k..]) && left == byteLen - |Encode(cs[..k])|
  {
    hide Encode, Fitting, IsText;
    rest, left := str, byteLen;
    ghost var k := 0;
    assert cs[0..] == cs && cs[..0] == [];
    EncodeEmpty([]);
    while left != 0
      invariant k <= |cs| && rest == Encode(cs[k..]) && left + |Encode(cs[..k])| == byteLen
      invariant k + Fitting(cs[k..], left) == Fitting(cs, byteLen)
      decreases left
    {
      FittingAll(cs, k, left);
      if rest == [] {
        break;
      }
      FittingStep(t, cs, k, left);
      if rest[0] in t {
        if left == 1 {
          break;
        }
        rest := rest[2..];
        left := left - 1;
      } else {
        rest := rest[1..];
      }
      left, k := left - 1, k + 1;
    }
    FittingAll(cs, k, left);
  }

  /** IsDBCSBlank on a slice of whole characters. */
  predicate IsDbcsBlank(str: seq<Octet>) {
    |str| >= 2 && str[0] == DBCS_BLANK1 && str[1] == DBCS_BLANK2
  }

  lemma {:induction false} BlankAtHead(t: Table, cs: seq<Chr>)
    requires IsText(t, cs) && cs != []
    ensures var s := Encode(cs);
            && s != []
            && (s[0] == SBCS_BLANK <==> cs[0] == Sbcs(SBCS_BLANK))
            && (IsDbcsBlank(s) <==> cs[0] == Dbcs(DBCS_BLANK1, DBCS_BLANK2))
  {
    EncodeHead(t, cs);
  }

  /** Skip leading blanks of either width. */
  method SkipBlanks(t: Table, str: seq<Octet>, ghost cs: seq<Chr>) returns (rest: seq<Octet>)
    requires IsText(t, cs) && str == Encode(cs)
    ensures rest == Encode(DropBlanks(cs))
  {
    rest := str;
    ghost var c := cs;
    while rest != []
      invariant IsText(t, c) && rest == Encode(c) && DropBlanks(c) == DropBlanks(cs)
      decreases |rest|
    {
      EncodeHead(t, c);
      BlankAtHead(t, c);
      if rest[0] == SBCS_BLANK {
        rest := rest[1..];
      } else if IsDbcsBlank(rest) {
        rest := rest[2..];
      } else {
        break;
      }
      c := c[1..];
    }
    EncodeEmpty(c);
  }

  /** Skip up to the next blank of either width. */
  method SkipNonBlanks(t: Table, str: seq<Octet>, ghost cs: seq<Chr>) returns (rest: seq<Octet>)
    requires IsText(t, cs) && str == Encode(cs)
    ensures rest == Encode(DropWord(cs))
  {
    rest := str;
    ghost var c := cs;
    while rest != []
      invariant IsText(t, c) && rest == Encode(c) && DropWord(c) == DropWord(cs)
      decreases |rest|
    {
      EncodeHead(t, c);
      BlankAtHead(t, c);
      if rest[0] == SBCS_BLANK || IsDbcsBlank(rest) {
        break;
      } else if rest[0] in t {
        rest := rest[2..];
      } else {
        rest := rest[1..];
      }
      c := c[1..];
    }
    EncodeEmpty(c);
  }

  /** Length without trailing blanks. */
  function StripEnd(cs: seq<Chr>): (k: nat)
    ensures k <= |cs| && (k > 0 ==> !IsBlank(cs[k - 1]))
    ensures forall i | k <= i < |cs| :: IsBlank(cs[i])
  {
    if cs == [] || !IsBlank(cs[|cs| - 1]) then |cs| else StripEnd(cs[..|cs| - 1])
  }

  lemma {:induction false} StripEndUnique(cs: seq<Chr>, k: nat)
    requires k <= |cs| && (k > 0 ==> !IsBlank(cs[k - 1])) && forall i | k <= i < |cs| :: IsBlank(cs[i])
    ensures k == StripEnd(cs)
  {
  }

  /** The byte offset of a character boundary. */
  lemma {:induction false} OffsetOf(cs: seq<Chr>, k: nat)
    requires k <= |cs|
    ensures |Encode(cs)| - |Encode(cs[k..])| == |Encode(cs[..k])| <= |Encode(cs)|
    ensures Encode(cs)[..|Encode(cs[..k])|] == Encode(cs[..k])
  {
    EncodeSplit(cs, k);
  }

  lemma {:induction false} SuffixIsText(t: Table, cs: seq<Chr>, k: nat)
    requires IsText(t, cs) && k <= |cs|
    ensures IsText(t, cs[k..]) && (Encode(cs[k..]) == [] <==> k == |cs|)
  {}

  /** Strip trailing blanks: remember where the last run of blanks started. */
  method StripBlanks(t: Table, str: seq<Octet>, ghost cs: seq<Chr>) returns (stripped: seq<Octet>)
    requires IsText(t, cs) && str == Encode(cs)
    ensures stripped == Encode(cs[..StripEnd(cs)])
  {
    hide Encode, IsText, StripEnd;
    var scan := str;
    var blankStr: int := -1; // offset of the last blank part, or -1
    ghost var k, e := 0, 0;
    assert cs[0..] == cs;
    while scan != []
      invariant e <= k <= |cs| && scan == Encode(cs[k..])
      invariant (e > 0 ==> !IsBlank(cs[e - 1])) && forall i | e <= i < k :: IsBlank(cs[i])
      invariant blankStr == if e == k then -1 else |Encode(cs[..e])|
      decreases |scan|
    {
      SuffixIsText(t, cs, k);
      BlankAtHead(t, cs[k..]);
      OffsetOf(cs, k);
      if IsDbcsBlank(scan) || scan[0] == SBCS_BLANK {
        if blankStr == -1 {
          blankStr := |str| - |scan|;
        }
      } else {
        blankStr := -1;
        e := k + 1;
      }
      scan := StepChar(t, scan, cs, k);
      k := k + 1;
    }
    EncodeEmpty(cs[k..]);
    StripEndUnique(cs, e);
    OffsetOf(cs, e);
    stripped := if blankStr == -1 then str else str[..blankStr];
    assert cs[..|cs|] == cs;
  }
}
