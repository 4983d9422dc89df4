/**
 The recursive-descent parser as functions: what it accepts, the tree it builds, the
 error it reports and where.
 */
module Syntax {
  import opened Bytes
  import opened Patterns

  /** `classes` stands for the ctype tests: the characters of each symbolic name, in ascending order. */
  datatype Source = Source(text: seq<Byte>, classes: map<seq<Byte>, seq<Byte>>)

  datatype Error =
    | UnexpectedSymbol
    | MissingParenClose
    | IllegalSet
    | UnexpectedEop
    | IllegalNumber
    | IllegalSymbolicName
    | Diverges // the original never returns: a range that ends at the largest char

  datatype Parsed<T> = Ok(value: T, pos: nat) | Fail(error: Error, at: nat)

  const OPEN_PAREN: Byte := '(' as int
  const CLOSE_PAREN: Byte := ')' as int
  const OPEN_BRACE: Byte := '{' as int
  const CLOSE_BRACE: Byte := '}' as int
  const BAR: Byte := '|' as int
  const STAR: Byte := '*' as int
  const PLUS: Byte := '+' as int
  const OPEN_BRACKET: Byte := '[' as int
  const CLOSE_BRACKET: Byte := ']' as int
  const QUESTION: Byte := '?' as int
  const BACKSLASH: Byte := '\\' as int
  const CARET: Byte := '^' as int
  const DASH: Byte := '-' as int
  const COLON: Byte := ':' as int

  /** A character that stands for itself, or starts an escape or a '?'. */
  predicate Letter(c: Byte) {
    c !in {OPEN_PAREN, CLOSE_PAREN, OPEN_BRACE, CLOSE_BRACE, BAR, STAR, PLUS, OPEN_BRACKET, CLOSE_BRACKET, NUL}
  }

  // ---------- Grammar ----------

  function ParseExpr(src: Source, p: nat): (r: Parsed<Regex>)
    requires p <= |src.text|
    ensures r.Ok? ==> p < r.pos <= |src.text| && WellShaped(r.value)
    ensures r.Fail? ==> r.at <= |src.text|
    decreases |src.text| - p, 3
  {
    var t := ParseTerm(src, p);
    if t.Ok? && At(src.text, t.pos) == BAR then
      var e := ParseExpr(src, t.pos + 1);
      if e.Ok? then Ok(Alt(t.value, e.value), e.pos) else e
    else t
  }

  function ParseTerm(src: Source, p: nat): (r: Parsed<Regex>)
    requires p <= |src.text|
    ensures r.Ok? ==> p < r.pos <= |src.text| && IsTerm(r.value) && WellShaped(r.value)
    ensures r.Ok? ==> (StartsGroup(r.value) <==> At(src.text, p) == OPEN_PAREN)
    ensures r.Fail? ==> r.at <= |src.text|
    decreases |src.text| - p, 2
  {
    var f := ParseFactor(src, p);
    if f.Ok? && var c := At(src.text, f.pos); c == OPEN_PAREN || c == OPEN_BRACKET || Letter(c) then
      var t := ParseTerm(src, f.pos);
      if t.Ok? then Ok(Cat(f.value, t.value), t.pos) else t
    else f
  }

  function ParseFactor(src: Source, p: nat): (r: Parsed<Regex>)
    requires p <= |src.text|
    ensures r.Ok? ==> p < r.pos <= |src.text| && IsFactor(r.value) && WellShaped(r.value)
    ensures r.Ok? ==> (Operand(r.value).Group? <==> At(src.text, p) == OPEN_PAREN)
    ensures r.Fail? ==> r.at <= |src.text|
    decreases |src.text| - p, 1
  {
    var b := ParseBase(src, p);
    if b.Fail? then b
    else ParsePostfix(src, b.value, b.pos)
  }

  function ParsePostfix(src: Source, base: Regex, p: nat): (r: Parsed<Regex>)
    requires p <= |src.text| && IsBase(base) && WellShaped(base)
    ensures r.Ok? ==> p <= r.pos <= |src.text| && IsFactor(r.value) && WellShaped(r.value) && Operand(r.value) == base
    ensures r.Fail? ==> r.at <= |src.text|
  {
    var c := At(src.text, p);
    if c == STAR then Ok(Star(base), p + 1)
    else if c == PLUS then Ok(Plus(base), p + 1)
    else if c == OPEN_BRACE then
      var n := ParseCount(src.text, p);
      if n.Ok? then Ok(Times(base, n.value), n.pos) else Fail(n.error, n.at)
    else Ok(base, p)
  }

  function ParseBase(src: Source, p: nat): (r: Parsed<Regex>)
    requires p <= |src.text|
    ensures r.Ok? ==> p < r.pos <= |src.text| && IsBase(r.value) && WellShaped(r.value)
    ensures r.Ok? ==> (r.value.Group? <==> At(src.text, p) == OPEN_PAREN)
    ensures r.Fail? ==> r.at <= |src.text|
    decreases |src.text| - p, 0
  {
    var c := At(src.text, p);
    if c == QUESTION then Ok(AnyOne, p + 1)
    else if c == BACKSLASH then
      if At(src.text, p + 1) == NUL then Fail(UnexpectedEop, p + 1)
      else Ok(Lit(At(src.text, p + 1)), p + 2)
    else if c == OPEN_BRACKET then ParseSet(src, p + 1)
    else if c == OPEN_PAREN then
      var e := ParseExpr(src, p + 1);
      if e.Fail? then e
      else if At(src.text, e.pos) == CLOSE_PAREN then Ok(Group(e.value), e.pos + 1)
      else Fail(MissingParenClose, e.pos)
    else if Letter(c) then Ok(Lit(c), p + 1)
    else Fail(UnexpectedSymbol, p)
  }

  // ---------- {n} ----------

  /** Position of the first '}' or NUL from `q` on. */
  function BraceEnd(text: seq<Byte>, q: nat): (e: nat)
    requires q <= |text|
    ensures q <= e <= |text|
    decreases |text| - q
  {
    if At(text, q) == NUL || At(text, q) == CLOSE_BRACE then q else BraceEnd(text, q + 1)
  }

  /** What is kept in the 64-character buffer the number is copied to. */
  function Buffered(s: seq<Byte>): seq<Byte> {
    if |s| <= 62 then s else s[..62]
  }

  lemma {:induction false} BufferedNothing(s: seq<Byte>)
    requires s == []
    ensures Buffered(s) == []
  {}

  lemma {:induction false} BufferedStep(text: seq<Byte>, lo: nat, hi: nat)
    requires lo <= hi < |text|
    ensures var before, after := Buffered(text[lo..hi]), Buffered(text[lo..hi + 1]);
            after == if |before| < 62 then before + [text[hi]] else before
  {
    assert text[lo..hi + 1] == text[lo..hi] + [text[hi]];
  }

  function ParseCount(text: seq<Byte>, p: nat): (r: Parsed<nat>)
    requires p < |text|
    ensures r.Ok? ==> p < r.pos <= |text| && r.value >= 2
    ensures r.Fail? ==> r.at <= |text|
  {
    var e := BraceEnd(text, p + 1);
    if At(text, e) == NUL then Fail(UnexpectedEop, p)
    else
      var n := Atoi(Buffered(text[p + 1..e]));
      if n - 1 <= 0 then Fail(IllegalNumber, p) else Ok(n, e + 1)
  }

  predicate IsDigit(c: Byte) {
    '0' as int <= c <= '9' as int
  }

  predicate IsSpace(c: Byte) {
    c == 32 || 9 <= c <= 13
  }

  function Digits(s: seq<Byte>, acc: nat): nat {
    if s == [] || !IsDigit(s[0]) then acc else Digits(s[1..], 10 * acc + (s[0] - '0' as int))
  }

  /** The C library function, without its undefined behaviour beyond the range of int. */
  function Atoi(s: seq<Byte>): int {
    if s == [] then 0
    else if IsSpace(s[0]) then Atoi(s[1..])
    else if s[0] == DASH then 0 - Digits(s[1..], 0)
    else if s[0] == PLUS then Digits(s[1..], 0)
    else Digits(s, 0)
  }

  // ---------- Sets ----------

  function AddChar(acc: seq<Byte>, c: Byte): seq<Byte> {
    if c in acc then acc else acc + [c]
  }

  function AddAll(acc: seq<Byte>, cs: seq<Byte>): seq<Byte>
    decreases cs
  {
    if cs == [] then acc else AddAll(AddChar(acc, cs[0]), cs[1..])
  }

  /** Add the characters from `c` up to `e`. */
  function AddRange(acc: seq<Byte>, c: int, e: Byte): seq<Byte>
    requires -128 <= c
    decreases e - c
  {
    if c > e then acc else AddRange(AddChar(acc, c), c + 1, e)
  }

  /** A set ends at the first NUL of its characters. */
  function UpToNul(s: seq<Byte>): (t: seq<Byte>)
    ensures NUL !in t
  {
    if s == [] || s[0] == NUL then [] else [s[0]] + UpToNul(s[1..])
  }

  function ToUpper(c: Byte): Byte {
    if 'a' as int <= c <= 'z' as int then c - 32 else c
  }

  function Upper(s: seq<Byte>): seq<Byte> {
    seq(|s|, i requires 0 <= i < |s| => ToUpper(s[i]))
  }

  /** End of a symbolic name: at most 15 characters, stopping at ':' or NUL. */
  function NameEnd(text: seq<Byte>, q: nat, room: nat): (e: nat)
    requires q <= |text|
    ensures q <= e <= |text|
    decreases room
  {
    if room == 0 || At(text, q) == NUL || At(text, q) == COLON then q else NameEnd(text, q + 1, room - 1)
  }

  /** One member of a set definition, at `q`: the characters collected and the position after it. */
  function ParseMember(src: Source, start: nat, q: nat, acc: seq<Byte>): (r: Parsed<seq<Byte>>)
    requires start <= q < |src.text|
    ensures r.Ok? ==> q < r.pos <= |src.text|
    ensures r.Fail? ==> r.at == start
  {
    var c := src.text[q];
    if c == DASH && acc != [] then
      // acc is not empty, so at least one character of the set precedes the dash
      var b := if q > 0 then src.text[q - 1] else NUL;
      var e := At(src.text, q + 1);
      if e == NUL || e == CLOSE_BRACKET then Fail(IllegalSet, start)
      else
        var lo, hi := if b > e then e else b, if b > e then b else e;
        if hi == MAX_BYTE then Fail(Diverges, start) else Ok(AddRange(acc, lo + 1, hi), q + 2)
    else if c == BACKSLASH then
      if At(src.text, q + 1) == NUL then Fail(IllegalSet, start)
      else Ok(AddChar(acc, src.text[q + 1]), q + 2)
    else if c == COLON then
      var e := NameEnd(src.text, q + 1, 15);
      var name := Upper(src.text[q + 1..e]);
      if At(src.text, e) != COLON || name !in src.classes then Fail(IllegalSymbolicName, start)
      else Ok(AddAll(acc, src.classes[name]), e + 1)
    else Ok(AddChar(acc, c), q + 1)
  }

  function ParseMembers(src: Source, start: nat, q: nat, acc: seq<Byte>): (r: Parsed<seq<Byte>>)
    requires start <= q <= |src.text|
    ensures r.Ok? ==> q <= r.pos <= |src.text| && r.value != [] && (acc == [] ==> q < r.pos)
    ensures r.Fail? ==> r.at == start
    decreases |src.text| - q
  {
    if At(src.text, q) == NUL || At(src.text, q) == CLOSE_BRACKET then
      if acc == [] then Fail(IllegalSet, start) else Ok(acc, q)
    else
      var m := ParseMember(src, start, q, acc);
      if m.Fail? then m else ParseMembers(src, start, m.pos, m.value)
  }

  /** What stands between the brackets of a set definition. */
  function ParseSetBody(src: Source, p: nat): (r: Parsed<Regex>)
    requires p <= |src.text|
    ensures r.Ok? ==> p < r.pos <= |src.text| && r.value.Set? && WellShaped(r.value)
    ensures r.Fail? ==> r.at <= |src.text|
  {
    var negated := At(src.text, p) == CARET;
    var m := ParseMembers(src, p, if negated then p + 1 else p, []);
    if m.Ok? then Ok(Set(negated, UpToNul(m.value)), m.pos) else Fail(m.error, m.at)
  }

  function ParseSet(src: Source, p: nat): (r: Parsed<Regex>)
    requires p <= |src.text|
    ensures r.Ok? ==> p < r.pos <= |src.text| && r.value.Set? && WellShaped(r.value)
    ensures r.Fail? ==> r.at <= |src.text|
  {
    var s := ParseSetBody(src, p);
    if s.Fail? then s
    else if At(src.text, s.pos) == CLOSE_BRACKET then Ok(s.value, s.pos + 1)
    else Fail(IllegalSet, s.pos)
  }

  lemma {:induction false} AddRangeAdds(acc: seq<Byte>, c: int, e: Byte, x: Byte)
    requires -128 <= c
    ensures x in AddRange(acc, c, e) <==> x in acc || c <= x <= e
    decreases e - c
  {
    if c <= e {
      AddRangeAdds(AddChar(acc, c), c + 1, e, x);
    }
  }

  /**
   A range `b-e` after the character `b` adds everything between the two bounds. It
   contains both bounds exactly when it is ascending or `e` was there before: a
   descending range loses its lower end.
   */
  lemma {:induction false} RangeCoversBounds(src: Source, start: nat, q: nat, acc: seq<Byte>)
    requires start < q < |src.text| && src.text[q] == DASH && acc != [] && src.text[q - 1] in acc
    requires ParseMember(src, start, q, acc).Ok?
    ensures var b, e := src.text[q - 1], At(src.text, q + 1);
            var r := ParseMember(src, start, q, acc).value;
            && (forall x: Byte :: x in r <==> x in acc || (if b <= e then b < x <= e else e < x <= b))
            && ((forall x: Byte | b <= x <= e || e <= x <= b :: x in r) <==> b <= e || e in acc)
  {
    var b, e := src.text[q - 1], At(src.text, q + 1);
    var lo, hi := if b > e then e else b, if b > e then b else e;
    var r := ParseMember(src, start, q, acc).value;
    forall x: Byte ensures x in r <==> x in acc || lo < x <= hi {
      AddRangeAdds(acc, lo + 1, hi, x);
    }
    assert e in r <==> e in acc || b < e;
  }

  /** `[z-a]` takes 'b' to 'z', but not 'a'. */
  lemma {:induction false} DescendingRangeLosesEnd(classes: map<seq<Byte>, seq<Byte>>)
    ensures var p := ParseExpr(Source([OPEN_BRACKET, 'z' as int, DASH, 'a' as int, CLOSE_BRACKET], classes), 0);
            p.Ok? && p.pos == 5 && p.value.Set? && !p.value.negated
            && forall c: Byte :: c in p.value.members <==> 'a' as int < c <= 'z' as int
  {
    var src := Source([OPEN_BRACKET, 'z' as int, DASH, 'a' as int, CLOSE_BRACKET], classes);
    var range := AddRange(['z' as int], 'b' as int, 'z' as int);
    forall c: Byte ensures c in range <==> 'a' as int < c <= 'z' as int {
      AddRangeAdds(['z' as int], 'b' as int, 'z' as int, c);
    }
    var none: seq<Byte> := [];
    assert AddChar(none, 'z' as int) == ['z' as int];
    assert ParseMember(src, 1, 1, none) == Ok(['z' as int], 2);
    assert ParseMember(src, 1, 2, ['z' as int]) == Ok(range, 4);
    assert ParseMembers(src, 1, 4, range) == Ok(range, 4);
    assert ParseMembers(src, 1, 2, ['z' as int]) == ParseMembers(src, 1, 4, range);
    assert ParseMembers(src, 1, 1, none) == Ok(range, 4);
    UpToNulId(range);
    assert ParseSetBody(src, 1) == Ok(Set(false, range), 4);
    assert ParseSet(src, 1) == Ok(Set(false, range), 5);
    assert ParseBase(src, 0) == ParseSet(src, 1);
    assert ParseFactor(src, 0) == ParseSet(src, 1);
  }

  // ---------- Texts within texts ----------

  /** `s` stands in `text` at position `p`. */
  predicate Occurs(text: seq<Byte>, p: nat, s: seq<Byte>) {
    p + |s| <= |text| && text[p..p + |s|] == s
  }

  lemma {:induction false} OccursParts(text: seq<Byte>, p: nat, s: seq<Byte>, t: seq<Byte>)
    requires Occurs(text, p, s + t)
    ensures Occurs(text, p, s) && Occurs(text, p + |s|, t)
  {
    assert (s + t)[..|s|] == s && (s + t)[|s|..] == t;
  }

  lemma {:induction false} OccursHead(text: seq<Byte>, p: nat, s: seq<Byte>)
    requires Occurs(text, p, s) && s != []
    ensures At(text, p) == s[0] && Occurs(text, p + 1, s[1..])
  {
    assert text[p..p + |s|][0] == text[p];
    assert s == [s[0]] + s[1..];
    OccursParts(text, p, [s[0]], s[1..]);
  }

  lemma {:induction false} UpToNulId(s: seq<Byte>)
    requires NUL !in s
    ensures UpToNul(s) == s
    decreases |s|
  {
    if s != [] {
      UpToNulId(s[1..]);
    }
  }
}
