/** Comparison of mixed strings, the shorter one padded; without a pad only the common length counts. */
module Compare {
  import opened MixedStrings
  import opened Cursors

  const COMP_EQUAL := 0
  const COMP_GREATER := 1
  const COMP_LESS := -1

  /** Double-byte characters are greater than single-byte ones; otherwise bytes decide. */
  function CompareChr(c: Chr, d: Chr): int {
    match (c, d)
    case (Sbcs(x), Sbcs(y)) => if x == y then COMP_EQUAL else if x > y then COMP_GREATER else COMP_LESS
    case (Dbcs(x1, x2), Dbcs(y1, y2)) =>
      if x1 == y1 then (if x2 == y2 then COMP_EQUAL else if x2 > y2 then COMP_GREATER else COMP_LESS)
      else if x1 > y1 then COMP_GREATER else COMP_LESS
    case (Dbcs(_, _), Sbcs(_)) => COMP_GREATER
    case (Sbcs(_), Dbcs(_, _)) => COMP_LESS
  }

  datatype Padding = NoPad | With(chr: Chr)

  /** The pad, if there is one, is a character of the code page. */
  predicate IsPadding(t: Table, pad: Padding) {
    pad.With? ==> IsChr(t, pad.chr)
  }

  /** Position `i` takes part in the comparison. */
  predicate Compared(x: seq<Chr>, y: seq<Chr>, pad: Padding, i: nat) {
    pad.With? || (i < |x| && i < |y|)
  }

  /** Character `i` of a text padded without end. */
  function Padded(cs: seq<Chr>, pad: Padding, i: nat): Chr
    requires pad.With? || i < |cs|
  {
    if i < |cs| then cs[i] else pad.chr
  }

  /** `i` is the first position at which the padded texts differ. */
  ghost predicate FirstDifference(x: seq<Chr>, y: seq<Chr>, pad: Padding, i: nat) {
    && Compared(x, y, pad, i) && Padded(x, pad, i) != Padded(y, pad, i)
    && forall j: nat | j < i :: Padded(x, pad, j) == Padded(y, pad, j)
  }

  /** The padded texts, or without a pad their common parts, are the same. */
  ghost predicate SamePadded(x: seq<Chr>, y: seq<Chr>, pad: Padding) {
    forall i: nat | Compared(x, y, pad, i) :: Padded(x, pad, i) == Padded(y, pad, i)
  }

  /** `rc` is the comparison of the padded texts and `diff` the 1-based place of the first difference, 0 if none. */
  ghost predicate IsComparison(x: seq<Chr>, y: seq<Chr>, pad: Padding, rc: int, diff: nat) {
    if diff == 0 then rc == COMP_EQUAL && SamePadded(x, y, pad)
    else FirstDifference(x, y, pad, diff - 1) && rc == CompareChr(Padded(x, pad, diff - 1), Padded(y, pad, diff - 1))
  }

  lemma {:induction false} CompareChrIsOrder(c: Chr, d: Chr, e: Chr)
    ensures CompareChr(c, d) == COMP_EQUAL <==> c == d
    ensures CompareChr(d, c) == -CompareChr(c, d)
    ensures CompareChr(c, d) <= 0 && CompareChr(d, e) <= 0 ==> CompareChr(c, e) <= 0
  {}

  // ---------- The loop ----------

  /** The bytes of the character at the cursor, or of the pad when the string is used up; and the cursor after it. */
  method NextToCompare(t: Table, str: seq<Octet>, pad: Padding, ghost cs: seq<Chr>) returns (comp: seq<Octet>, str': seq<Octet>)
    requires IsText(t, cs) && str == Encode(cs) && (str != [] || pad.With?)
    ensures cs == [] ==> pad.With?
    ensures comp == Bytes(if cs == [] then pad.chr else cs[0])
    ensures str' == Encode(if cs == [] then [] else cs[1..])
    ensures str != [] ==> |str'| < |str|
  {
    EncodeEmpty(cs);
    if str != [] {
      EncodeHead(t, cs);
      if str[0] in t {
        comp, str' := str[..2], str[2..];
      } else {
        comp, str' := str[..1], str[1..];
      }
    } else {
      comp, str' := Bytes(pad.chr), str;
    }
  }

  /** Compare the bytes of one character of each side. */
  method CompareBytes(t: Table, comp1: seq<Octet>, comp2: seq<Octet>, ghost c: Chr, ghost d: Chr) returns (rc: int)
    requires IsChr(t, c) && IsChr(t, d) && comp1 == Bytes(c) && comp2 == Bytes(d)
    ensures rc == CompareChr(c, d)
  {
    rc := COMP_EQUAL;
    if |comp1| == |comp2| {
      if comp1[0] == comp2[0] {
        if |comp1| == 2 {
          if comp1[1] > comp2[1] {
            rc := COMP_GREATER;
          } else if comp1[1] < comp2[1] {
            rc := COMP_LESS;
          }
        }
      } else if comp1[0] > comp2[0] {
        rc := COMP_GREATER;
      } else {
        rc := COMP_LESS;
      }
    } else if |comp1| == 2 {
      rc := COMP_GREATER;
    } else {
      rc := COMP_LESS;
    }
  }

  /** Compare two strings and return the result and the unmatched position. */
  method CharCompare(t: Table, s1: seq<Octet>, s2: seq<Octet>, pad: Padding, ghost x: seq<Chr>, ghost y: seq<Chr>)
    returns (rc: int, diff: nat)
    requires IsText(t, x) && IsText(t, y) && IsPadding(t, pad) && s1 == Encode(x) && s2 == Encode(y)
    ensures IsComparison(x, y, pad, rc, diff)
  {
    hide Encode, IsText, CompareChr;
    rc, diff := COMP_EQUAL, 0;
    var str1, str2 := s1, s2;
    while (str1 != [] || str2 != []) && rc == COMP_EQUAL
      invariant rc == COMP_EQUAL ==> str1 == Encode(From(x, diff)) && str2 == Encode(From(y, diff))
      invariant pad.With? || (diff <= |x| && diff <= |y|)
      invariant forall j: nat | j < diff :: Padded(x, pad, j) == Padded(y, pad, j)
      invariant rc != COMP_EQUAL ==> FirstDifference(x, y, pad, diff)
                                     && rc == CompareChr(Padded(x, pad, diff), Padded(y, pad, diff))
      decreases |str1| + |str2|
    {
      var comp1, comp2;
      EncodeEmpty(From(x, diff));
      EncodeEmpty(From(y, diff));
      if pad.NoPad? && (str1 == [] || str2 == []) {
        break;
      }
      FromIsText(t, x, diff);
      FromIsText(t, y, diff);
      comp1, str1 := NextToCompare(t, str1, pad, From(x, diff));
      comp2, str2 := NextToCompare(t, str2, pad, From(y, diff));
      ghost var c, d := Padded(x, pad, diff), Padded(y, pad, diff);
      rc := CompareBytes(t, comp1, comp2, c, d);
      CompareChrIsOrder(c, d, d);
      if rc == COMP_EQUAL {
        diff := diff + 1;
      }
    }
    if rc == COMP_EQUAL {
      EncodeEmpty(From(x, diff));
      EncodeEmpty(From(y, diff));
      diff := 0;
    } else {
      diff := diff + 1;
    }
  }

  lemma {:induction false} FromIsText(t: Table, cs: seq<Chr>, i: nat)
    requires IsText(t, cs)
    ensures IsText(t, From(cs, i)) && (i < |cs| ==> IsChr(t, cs[i]) && From(cs, i) != [] && From(cs, i)[0] == cs[i])
    ensures From(cs, i + 1) == if From(cs, i) == [] then [] else From(cs, i)[1..]
    ensures i >= |cs| <==> From(cs, i) == []
  {}

  // ---------- Comparison is a total preorder ----------

  /** Result and position are determined by the two texts and the pad. */
  lemma {:induction false} ComparisonUnique(x: seq<Chr>, y: seq<Chr>, pad: Padding, rc: int, diff: nat, rc': int, diff': nat)
    requires IsComparison(x, y, pad, rc, diff) && IsComparison(x, y, pad, rc', diff')
    ensures rc == rc' && diff == diff'
  {}

  /** Any two texts compare: the first difference is found by walking along both. */
  lemma {:induction false} ComparisonExists(x: seq<Chr>, y: seq<Chr>, pad: Padding) returns (rc: int, diff: nat)
    ensures IsComparison(x, y, pad, rc, diff) && -1 <= rc <= 1
    ensures diff <= if |x| < |y| then |y| else |x|
  {
    var n := if (|x| < |y|) == pad.With? then |y| else |x|;
    var i := 0;
    while i < n && Padded(x, pad, i) == Padded(y, pad, i)
      invariant i <= n && forall j: nat | j < i :: Padded(x, pad, j) == Padded(y, pad, j)
    {
      i := i + 1;
    }
    if i < n {
      rc, diff := CompareChr(Padded(x, pad, i), Padded(y, pad, i)), i + 1;
    } else {
      rc, diff := COMP_EQUAL, 0;
    }
  }

  /** Exchanging the operands negates the result and keeps the position. */
  lemma {:induction false} ComparisonAntisymmetric(x: seq<Chr>, y: seq<Chr>, pad: Padding, rc: int, diff: nat)
    requires IsComparison(x, y, pad, rc, diff)
    ensures IsComparison(y, x, pad, -rc, diff)
  {
    if diff != 0 {
      var c, d := Padded(x, pad, diff - 1), Padded(y, pad, diff - 1);
      CompareChrIsOrder(c, d, d);
    }
  }

  /** With a fixed pad, "not greater" is transitive. */
  lemma {:induction false} ComparisonTransitive(x: seq<Chr>, y: seq<Chr>, z: seq<Chr>, pad: Padding,
                                                rc1: int, d1: nat, rc2: int, d2: nat, rc3: int, d3: nat)
    requires pad.With? && IsComparison(x, y, pad, rc1, d1) && rc1 <= 0
    requires IsComparison(y, z, pad, rc2, d2) && rc2 <= 0
    requires IsComparison(x, z, pad, rc3, d3)
    ensures rc3 <= 0
    ensures rc3 == 0 ==> rc1 == 0 && rc2 == 0
  {
    if d1 == 0 && d2 == 0 {
      assert SamePadded(x, z, pad);
      ComparisonUnique(x, z, pad, rc3, d3, COMP_EQUAL, 0);
    } else {
      var m := if d1 == 0 || (d2 != 0 && d2 < d1) then d2 - 1 else d1 - 1;
      var c, d, e := Padded(x, pad, m), Padded(y, pad, m), Padded(z, pad, m);
      CompareChrIsOrder(c, d, e);
      CompareChrIsOrder(d, e, c);
      CompareChrIsOrder(e, c, d);
      assert FirstDifference(x, z, pad, m);
      ComparisonUnique(x, z, pad, rc3, d3, CompareChr(c, e), m + 1);
    }
  }

  // ---------- The direction of the order ----------

  /** The place of a character in the order: the single-byte ones, then the double-byte ones by lead byte and second byte. */
  function Rank(c: Chr): nat {
    match c
    case Sbcs(b) => b
    case Dbcs(b1, b2) => 256 + 256 * b1 + b2
  }

  lemma {:induction false} CompareChrFollowsRank(c: Chr, d: Chr)
    ensures CompareChr(c, d) == -1 <==> Rank(c) < Rank(d)
    ensures CompareChr(c, d) == 1 <==> Rank(c) > Rank(d)
  {}

  /** What of `x` is compared with `y`: without a pad the common length, otherwise at least as much as `y` has. */
  function Widened(x: seq<Chr>, y: seq<Chr>, pad: Padding): seq<Chr> {
    if |x| >= |y| then (if pad.NoPad? then x[..|y|] else x)
    else if pad.NoPad? then x
    else x + Pads(pad.chr, |y| - |x|)
  }

  /** The texts agree in the first `i` characters and `x` has the smaller character behind them. */
  predicate SmallerAt(x: seq<Chr>, y: seq<Chr>, i: nat) {
    i < |x| && i < |y| && x[..i] == y[..i] && Rank(x[i]) < Rank(y[i])
  }

  lemma {:induction false} WidenedIsPadded(x: seq<Chr>, y: seq<Chr>, pad: Padding)
    ensures |Widened(x, y, pad)| == |Widened(y, x, pad)|
    ensures forall i: nat :: i < |Widened(x, y, pad)| ==> Compared(x, y, pad, i) && Widened(x, y, pad)[i] == Padded(x, pad, i)
    ensures forall i: nat :: Compared(x, y, pad, i) && Padded(x, pad, i) != Padded(y, pad, i) ==> i < |Widened(x, y, pad)|
  {}

  /**
   The comparison is lexicographic: less, exactly when the left text has the character of
   smaller rank at the first difference, which is at the position returned; greater, exactly
   when the right text has.
   */
  lemma {:induction false} ComparisonIsLexicographic(x: seq<Chr>, y: seq<Chr>, pad: Padding, rc: int, diff: nat)
    requires IsComparison(x, y, pad, rc, diff)
    ensures var u, v := Widened(x, y, pad), Widened(y, x, pad);
            && (rc == -1 <==> diff > 0 && SmallerAt(u, v, diff - 1))
            && (rc == 1 <==> diff > 0 && SmallerAt(v, u, diff - 1))
            && (rc == 0 <==> diff == 0) && (diff == 0 <==> u == v) && -1 <= rc <= 1
  {
    var u, v := Widened(x, y, pad), Widened(y, x, pad);
    WidenedIsPadded(x, y, pad);
    WidenedIsPadded(y, x, pad);
    if diff == 0 {
      assert u == v;
    } else {
      var c, d := Padded(x, pad, diff - 1), Padded(y, pad, diff - 1);
      CompareChrFollowsRank(c, d);
      CompareChrIsOrder(c, d, d);
      assert u[diff - 1] == c && v[diff - 1] == d;
      assert u[..diff - 1] == v[..diff - 1];
    }
  }

  // ---------- The compare operator ----------

  /** Without leading and trailing blanks. */
  function Stripped(cs: seq<Chr>): seq<Chr> {
    var u := DropBlanks(cs);
    u[..StripEnd(u)]
  }

  /** Stripping takes away blanks at both ends, and all of them. */
  lemma {:induction false} StrippedIsMiddle(cs: seq<Chr>) returns (front: seq<Chr>, back: seq<Chr>)
    ensures cs == front + Stripped(cs) + back && AllBlank(front) && AllBlank(back)
    ensures Stripped(cs) != [] ==> !IsBlank(Stripped(cs)[0]) && !IsBlank(Stripped(cs)[|Stripped(cs)| - 1])
  {
    front := DropBlanksIsSuffix(cs);
    var u := DropBlanks(cs);
    back := u[StripEnd(u)..];
    assert u == Stripped(cs) + back;
  }

  /** Stripped texts that agree up to blank padding are the same. */
  lemma {:induction false} StrippedAreSame(x: seq<Chr>, y: seq<Chr>)
    requires SamePadded(Stripped(x), Stripped(y), With(Sbcs(SBCS_BLANK)))
    ensures Stripped(x) == Stripped(y)
  {
    var u, v := Stripped(x), Stripped(y);
    var pad := With(Sbcs(SBCS_BLANK));
    if u != [] {
      assert Padded(u, pad, |u| - 1) != pad.chr && Padded(v, pad, |u| - 1) == Padded(u, pad, |u| - 1);
    }
    if v != [] {
      assert Padded(v, pad, |v| - 1) != pad.chr && Padded(u, pad, |v| - 1) == Padded(v, pad, |v| - 1);
    }
    forall i | 0 <= i < |u| ensures u[i] == v[i] { assert Padded(u, pad, i) == Padded(v, pad, i); }
  }

  /** Padded with blanks to the same length, `x` has the smaller character at the first difference. */
  ghost predicate Precedes(x: seq<Chr>, y: seq<Chr>) {
    exists i: nat :: SmallerAt(Widened(x, y, With(Sbcs(0x20))), Widened(y, x, With(Sbcs(0x20))), i)
  }

  lemma {:induction false} ComparisonDecidesPrecedes(x: seq<Chr>, y: seq<Chr>, rc: int, diff: nat)
    requires IsComparison(x, y, With(Sbcs(SBCS_BLANK)), rc, diff)
    ensures rc == COMP_LESS <==> Precedes(x, y)
    ensures rc == COMP_GREATER <==> Precedes(y, x)
  {
    hide Widened, IsComparison;
    var pad := With(Sbcs(SBCS_BLANK));
    var u, v := Widened(x, y, pad), Widened(y, x, pad);
    ComparisonIsLexicographic(x, y, pad, rc, diff);
    if i: nat :| SmallerAt(u, v, i) {
      OneDifference(u, v, i, diff);
    }
    if i: nat :| SmallerAt(v, u, i) {
      OneDifference(v, u, i, diff);
    }
  }

  lemma {:induction false} OneDifference(u: seq<Chr>, v: seq<Chr>, i: nat, diff: nat)
    requires SmallerAt(u, v, i) && (diff > 0 ==> SmallerAt(u, v, diff - 1) || SmallerAt(v, u, diff - 1))
    requires diff == 0 ==> u == v
    ensures diff == i + 1
  {
    if diff > 0 {
      var j: nat := diff - 1;
      assert forall k: nat :: k < i ==> u[..i][k] == v[..i][k];
      assert forall k: nat :: k < j ==> u[..j][k] == v[..j][k];
    }
  }

  /** The string comparison operator: blanks at both ends do not count, the shorter rest is padded with blanks. */
  method StringCompare(t: Table, left: seq<Octet>, right: seq<Octet>) returns (rc: int)
    requires Valid(t, left) && Valid(t, right)
    ensures exists diff: nat :: IsComparison(Stripped(Decode(t, left)), Stripped(Decode(t, right)), With(Sbcs(SBCS_BLANK)), rc, diff)
    ensures rc == COMP_EQUAL <==> Stripped(Decode(t, left)) == Stripped(Decode(t, right))
    ensures rc == COMP_LESS <==> Precedes(Stripped(Decode(t, left)), Stripped(Decode(t, right)))
    ensures rc == COMP_GREATER <==> Precedes(Stripped(Decode(t, right)), Stripped(Decode(t, left)))
  {
    ghost var x := TextOf(t, left);
    ghost var y := TextOf(t, right);
    TextParts(t, x);
    TextParts(t, y);
    var leftPtr := SkipBlanks(t, left, x);
    var rightPtr := SkipBlanks(t, right, y);
    leftPtr := StripBlanks(t, leftPtr, DropBlanks(x));
    rightPtr := StripBlanks(t, rightPtr, DropBlanks(y));
    var charNum;
    rc, charNum := CharCompare(t, leftPtr, rightPtr, With(Sbcs(SBCS_BLANK)), Stripped(x), Stripped(y));
    ComparisonDecidesPrecedes(Stripped(x), Stripped(y), rc, charNum);
    if rc == COMP_EQUAL {
      EqualMeansSame(Stripped(x), Stripped(y), With(Sbcs(SBCS_BLANK)), charNum);
      StrippedAreSame(x, y);
    } else {
      assert Stripped(x) != Stripped(y);
    }
  }

  lemma {:induction false} EqualMeansSame(x: seq<Chr>, y: seq<Chr>, pad: Padding, diff: nat)
    requires IsComparison(x, y, pad, COMP_EQUAL, diff)
    ensures SamePadded(x, y, pad)
  {
    if diff != 0 {
      CompareChrIsOrder(Padded(x, pad, diff - 1), Padded(y, pad, diff - 1), Padded(x, pad, diff - 1));
    }
  }
}
