/**
 Mixed single- and double-byte strings. A table says which bytes are lead bytes; a lead
 byte and the byte after it form one character. Byte strings and character sequences
 determine each other, and the code is a prefix code.
 */
module MixedStrings {

  type Octet = b: int | 0 <= b < 256

  const SBCS_BLANK: Octet := 0x20
  const DBCS_BLANK1: Octet := 0x81
  const DBCS_BLANK2: Octet := 0x40

  /** The code page's lead bytes. The double-byte blank starts with one, the single-byte blank is none. */
  type Table = t: set<Octet> | DBCS_BLANK1 in t && SBCS_BLANK !in t witness {0x81}

  datatype Chr = Sbcs(b: Octet) | Dbcs(b1: Octet, b2: Octet)

  /** Bytes of the first character. */
  function Step(t: Table, s: seq<Octet>): nat
    requires s != []
  {
    if s[0] in t then 2 else 1
  }

  /** No character is cut off. */
  predicate Valid(t: Table, s: seq<Octet>)
    decreases |s|
  {
    s == [] || (Step(t, s) <= |s| && Valid(t, s[Step(t, s)..]))
  }

  function Decode(t: Table, s: seq<Octet>): seq<Chr>
    requires Valid(t, s)
    decreases |s|
  {
    if s == [] then []
    else [if s[0] in t then Dbcs(s[0], s[1]) else Sbcs(s[0])] + Decode(t, s[Step(t, s)..])
  }

  /** A character of the code page. */
  predicate IsChr(t: Table, c: Chr) {
    match c
    case Sbcs(b) => b !in t
    case Dbcs(b1, _) => b1 in t
  }

  predicate IsText(t: Table, cs: seq<Chr>) {
    forall i | 0 <= i < |cs| :: IsChr(t, cs[i])
  }

  function Bytes(c: Chr): (s: seq<Octet>)
    ensures 1 <= |s| <= 2
  {
    match c
    case Sbcs(b) => [b]
    case Dbcs(b1, b2) => [b1, b2]
  }

  function Encode(cs: seq<Chr>): seq<Octet> {
    if cs == [] then [] else Bytes(cs[0]) + Encode(cs[1..])
  }

  // ---------- Encoding and decoding ----------

  lemma {:induction false} DecodeIsText(t: Table, s: seq<Octet>)
    requires Valid(t, s)
    ensures IsText(t, Decode(t, s))
    decreases |s|
  {
    if s != [] {
      DecodeIsText(t, s[Step(t, s)..]);
    }
  }

  /** What is decoded can be encoded back, byte for byte. */
  lemma {:induction false} EncodeInvertsDecode(t: Table, s: seq<Octet>)
    requires Valid(t, s)
    ensures IsText(t, Decode(t, s)) && Encode(Decode(t, s)) == s
    decreases |s|
  {
    if s != [] {
      var k := Step(t, s);
      EncodeInvertsDecode(t, s[k..]);
      var c := if s[0] in t then Dbcs(s[0], s[1]) else Sbcs(s[0]);
      EncodeCons(c, Decode(t, s[k..]));
      assert s == Bytes(c) + s[k..];
    }
  }

  lemma {:induction false} EncodeCons(c: Chr, cs: seq<Chr>)
    ensures Encode([c] + cs) == Bytes(c) + Encode(cs)
  {
    assert ([c] + cs)[1..] == cs;
  }

  /** The first character of an encoded text. */
  lemma {:induction false} EncodeHead(t: Table, cs: seq<Chr>)
    requires IsText(t, cs) && cs != []
    ensures var s := Encode(cs);
            && s != [] && (s[0] in t <==> cs[0].Dbcs?) && Step(t, s) == |Bytes(cs[0])| <= |s|
            && s[..Step(t, s)] == Bytes(cs[0]) && s[Step(t, s)..] == Encode(cs[1..])
            && s[0] == Bytes(cs[0])[0] && (cs[0].Dbcs? ==> s[1] == cs[0].b2)
  {
    assert IsChr(t, cs[0]);
  }

  /** Every character sequence is the decoding of exactly one byte string. */
  lemma {:induction false} DecodeInvertsEncode(t: Table, cs: seq<Chr>)
    requires IsText(t, cs)
    ensures Valid(t, Encode(cs)) && Decode(t, Encode(cs)) == cs
    decreases |cs|
  {
    if cs != [] {
      EncodeHead(t, cs);
      DecodeInvertsEncode(t, cs[1..]);
    }
  }

  lemma {:induction false} EncodeJoin(cs: seq<Chr>, ds: seq<Chr>)
    ensures Encode(cs + ds) == Encode(cs) + Encode(ds)
    decreases |cs|
  {
    if cs == [] {
      assert cs + ds == ds;
    } else {
      assert (cs + ds)[1..] == cs[1..] + ds;
      EncodeJoin(cs[1..], ds);
    }
  }

  lemma {:induction false} EncodeSplit(cs: seq<Chr>, k: nat)
    requires k <= |cs|
    ensures Encode(cs) == Encode(cs[..k]) + Encode(cs[k..])
    ensures |Encode(cs[..k])| + |Encode(cs[k..])| == |Encode(cs)|
    ensures Encode(cs)[..|Encode(cs[..k])|] == Encode(cs[..k])
    ensures Encode(cs)[|Encode(cs[..k])|..] == Encode(cs[k..])
  {
    EncodeJoin(cs[..k], cs[k..]);
    assert cs[..k] + cs[k..] == cs;
  }

  lemma {:induction false} EncodeThree(x: seq<Chr>, y: seq<Chr>, z: seq<Chr>)
    ensures Encode(x + y + z) == Encode(x) + Encode(y) + Encode(z)
  {
    EncodeJoin(x + y, z);
    EncodeJoin(x, y);
  }

  lemma {:induction false} EncodeEmpty(cs: seq<Chr>)
    ensures Encode(cs) == [] <==> cs == []
  {}

  lemma {:induction false} EncodeLonger(cs: seq<Chr>)
    ensures |cs| <= |Encode(cs)| <= 2 * |cs|
    decreases |cs|
  {
    if cs != [] {
      EncodeLonger(cs[1..]);
    }
  }

  /** Prefix code: at a character boundary, equality of bytes is equality of characters. */
  lemma {:induction false} PrefixSynchronises(t: Table, cs: seq<Chr>, ds: seq<Chr>)
    requires IsText(t, cs) && IsText(t, ds)
    ensures Encode(ds) <= Encode(cs) <==> ds <= cs
    decreases |ds|
  {
    if ds != [] {
      EncodeHead(t, ds);
      if cs != [] {
        EncodeHead(t, cs);
        PrefixSynchronises(t, cs[1..], ds[1..]);
        if Encode(ds) <= Encode(cs) {
          assert Encode(cs)[0] == Encode(ds)[0];
          var k := Step(t, Encode(cs));
          assert Encode(ds)[..k] == Encode(cs)[..|Encode(ds)|][..k] == Encode(cs)[..k];
          assert Bytes(cs[0]) == Bytes(ds[0]) && cs[0] == ds[0];
          assert Encode(ds)[k..] == Encode(cs)[..|Encode(ds)|][k..];
        }
        if ds <= cs {
          EncodeSplit(cs, |ds|);
        }
      }
    }
  }

  /** Byte strings of equal text are equal, and only they. */
  lemma {:induction false} EncodeInjective(t: Table, cs: seq<Chr>, ds: seq<Chr>)
    requires IsText(t, cs) && IsText(t, ds)
    ensures Encode(cs) == Encode(ds) <==> cs == ds
  {
    DecodeInvertsEncode(t, cs);
    DecodeInvertsEncode(t, ds);
  }

  /** The character sequence of a valid string, with both directions of the code at hand. */
  lemma {:induction false} TextOf(t: Table, s: seq<Octet>) returns (cs: seq<Chr>)
    requires Valid(t, s)
    ensures cs == Decode(t, s) && IsText(t, cs) && s == Encode(cs)
  {
    cs := Decode(t, s);
    EncodeInvertsDecode(t, s);
  }

  /** The valid strings are the encodings of texts. */
  lemma {:induction false} ValidIsEncoded(t: Table, s: seq<Octet>)
    ensures Valid(t, s) <==> exists cs: seq<Chr> :: IsText(t, cs) && Encode(cs) == s
  {
    if Valid(t, s) {
      EncodeInvertsDecode(t, s);
    }
    if cs: seq<Chr> :| IsText(t, cs) && Encode(cs) == s {
      DecodeInvertsEncode(t, cs);
    }
  }

  // ---------- Cutting and padding ----------

  function Min(a: nat, b: nat): nat { if a < b then a else b }

  /** At most `i` characters from the front. */
  function Front(cs: seq<Chr>, i: nat): seq<Chr> {
    if i <= |cs| then cs[..i] else cs
  }

  /** From character `i` (0-based) on. */
  function From(cs: seq<Chr>, i: nat): seq<Chr> {
    if i <= |cs| then cs[i..] else []
  }

  /** `n` copies of a character. */
  function Pads(pad: Chr, n: nat): (cs: seq<Chr>)
    ensures |cs| == n && forall i | 0 <= i < n :: cs[i] == pad
  {
    seq(n, _ => pad)
  }

  /** The first `n` characters, padded on the right to that length. */
  function Fit(cs: seq<Chr>, n: nat, pad: Chr): (r: seq<Chr>)
    ensures |r| == n
  {
    if n <= |cs| then cs[..n] else cs + Pads(pad, n - |cs|)
  }

  lemma {:induction false} EncodePads(pad: Chr, n: nat)
    ensures |Encode(Pads(pad, n))| == if pad.Sbcs? then n else 2 * n
    ensures n > 0 ==> Encode(Pads(pad, n)) == Encode(Pads(pad, n - 1)) + Bytes(pad)
    decreases n
  {
    if n > 0 {
      EncodePads(pad, n - 1);
      assert Pads(pad, n) == Pads(pad, n - 1) + [pad];
      EncodeJoin(Pads(pad, n - 1), [pad]);
      assert Encode([pad]) == Bytes(pad) + Encode([pad][1..]);
    }
  }

  // ---------- Blanks ----------

  predicate IsBlank(c: Chr) {
    c == Sbcs(SBCS_BLANK) || c == Dbcs(DBCS_BLANK1, DBCS_BLANK2)
  }

  /** A blank is the byte 20, or the bytes 81 40 as one character. */
  lemma {:induction false} BlankBytes(c: Chr)
    ensures IsBlank(c) <==> Encode([c]) == [0x20] || Encode([c]) == [0x81, 0x40]
  {
    EncodeCons(c, []);
    assert [c] + [] == [c] && Bytes(c) + Encode([]) == Bytes(c);
    assert Bytes(c)[0] == (if c.Sbcs? then c.b else c.b1) && (c.Dbcs? ==> Bytes(c)[1] == c.b2);
  }

  predicate AllBlank(cs: seq<Chr>) {
    forall i | 0 <= i < |cs| :: IsBlank(cs[i])
  }

  predicate NoBlank(cs: seq<Chr>) {
    forall i | 0 <= i < |cs| :: !IsBlank(cs[i])
  }

  /** Without leading blanks. */
  function DropBlanks(cs: seq<Chr>): (r: seq<Chr>)
    ensures |r| <= |cs| && (r != [] ==> !IsBlank(r[0]))
  {
    if cs == [] || !IsBlank(cs[0]) then cs else DropBlanks(cs[1..])
  }

  /** The characters before the first blank. */
  function TakeWord(cs: seq<Chr>): seq<Chr> {
    if cs == [] || IsBlank(cs[0]) then [] else [cs[0]] + TakeWord(cs[1..])
  }

  /** From the first blank on. */
  function DropWord(cs: seq<Chr>): (r: seq<Chr>)
    ensures |r| <= |cs| && (r != [] ==> IsBlank(r[0]))
  {
    if cs == [] || IsBlank(cs[0]) then cs else DropWord(cs[1..])
  }

  lemma {:induction false} DropBlanksIsSuffix(cs: seq<Chr>) returns (p: seq<Chr>)
    ensures cs == p + DropBlanks(cs) && AllBlank(p)
    decreases |cs|
  {
    if cs == [] || !IsBlank(cs[0]) {
      p := [];
    } else {
      p := DropBlanksIsSuffix(cs[1..]);
      p := [cs[0]] + p;
    }
  }

  lemma {:induction false} WordSplits(cs: seq<Chr>)
    ensures cs == TakeWord(cs) + DropWord(cs) && NoBlank(TakeWord(cs))
    decreases |cs|
  {
    if cs != [] && !IsBlank(cs[0]) {
      WordSplits(cs[1..]);
    }
  }

  lemma {:induction false} TextParts(t: Table, cs: seq<Chr>)
    requires IsText(t, cs)
    ensures IsText(t, DropBlanks(cs)) && IsText(t, TakeWord(cs)) && IsText(t, DropWord(cs))
    decreases |cs|
  {
    if cs != [] {
      TailIsText(t, cs);
      TextParts(t, cs[1..]);
    }
  }

  lemma {:induction false} TailIsText(t: Table, cs: seq<Chr>)
    requires IsText(t, cs) && cs != []
    ensures IsChr(t, cs[0]) && IsText(t, cs[1..])
  {}
}
