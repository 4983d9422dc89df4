/** A printer for patterns, which the parser inverts. */
module Printer {
  import opened Bytes
  import opened Patterns
  import opened Syntax
  import opened Writing

  function Decimal(n: nat): seq<Byte> {
    if n < 10 then ['0' as int + n] else Decimal(n / 10) + ['0' as int + n % 10]
  }

  function PrintMembers(members: seq<Byte>): seq<Byte> {
    if members == [] then [] else [BACKSLASH, members[0]] + PrintMembers(members[1..])
  }

  function Print(r: Regex): seq<Byte> {
    match r
    case Lit(c) => if StandsForItself(c) then [c] else [BACKSLASH, c]
    case AnyOne => [QUESTION]
    case Set(negated, members) =>
      [OPEN_BRACKET] + ((if negated then [CARET] else []) + PrintMembers(members)) + [CLOSE_BRACKET]
    case Group(body) => [OPEN_PAREN] + Print(body) + [CLOSE_PAREN]
    case Star(base) => Print(base) + [STAR]
    case Plus(base) => Print(base) + [PLUS]
    case Times(base, count) => Print(base) + ([OPEN_BRACE] + Decimal(count) + [CLOSE_BRACE])
    case Cat(first, rest) => Print(first) + Print(rest)
    case Alt(left, right) => Print(left) + ([BAR] + Print(right))
  }

  predicate Distinct(s: seq<Byte>) {
    forall i, j | 0 <= i < j < |s| :: s[i] != s[j]
  }

  /** Trees the printer can express: sets list each member once, counts fit the range of int. */
  predicate Printable(r: Regex) {
    match r
    case Lit(_) => true
    case AnyOne => true
    case Set(_, members) => members != [] && Distinct(members)
    case Group(body) => Printable(body)
    case Star(base) => Printable(base)
    case Plus(base) => Printable(base)
    case Times(base, count) => Printable(base) && count <= 0x7fff_ffff
    case Cat(first, rest) => Printable(first) && Printable(rest)
    case Alt(left, right) => Printable(left) && Printable(right)
  }

  // ---------- Numbers ----------

  function TenTo(k: nat): nat {
    if k == 0 then 1 else 10 * TenTo(k - 1)
  }

  lemma {:induction false} DecimalLength(n: nat, k: nat)
    requires n < TenTo(k) && k > 0
    ensures |Decimal(n)| <= k
    decreases k
  {
    if n >= 10 {
      assert k > 1;
      DecimalLength(n / 10, k - 1);
    }
  }

  lemma {:induction false} DecimalIsNumber(n: nat)
    ensures Numerals(Decimal(n)) && Decimal(n) != [] && Value(Decimal(n)) == n
    decreases n
  {
    if n >= 10 {
      DecimalIsNumber(n / 10);
      var d := Decimal(n);
      assert d[..|d| - 1] == Decimal(n / 10);
    } else {
      assert Decimal(n)[..0] == [];
    }
  }

  /** A decimal number in braces is written for that count. */
  lemma {:induction false} DecimalWritesCount(n: nat)
    requires 2 <= n <= 0x7fff_ffff
    ensures WritesCount(n, [OPEN_BRACE] + Decimal(n) + [CLOSE_BRACE])
  {
    hide Value;
    var d := Decimal(n);
    var text := [OPEN_BRACE] + d + [CLOSE_BRACE];
    DecimalIsNumber(n);
    assert TenTo(10) == 10_000_000_000 by {
      assert TenTo(5) == 100_000;
      assert TenTo(7) == 10_000_000;
      assert TenTo(9) == 1_000_000_000;
    }
    DecimalLength(n, 10);
    assert text[1..|text| - 1] == d && d[0..|d|] == d && d[..0] == [];
    assert NumberAt(d, n, 0, 0, |d|);
  }

  /** What stands between the braces of a printed count is read back as the count. */
  lemma {:induction false} CountParses(text: seq<Byte>, n: nat, p: nat)
    requires 2 <= n <= 0x7fff_ffff && Occurs(text, p, [OPEN_BRACE] + Decimal(n) + [CLOSE_BRACE])
    ensures At(text, p) == OPEN_BRACE && ParseCount(text, p) == Ok(n, p + |Decimal(n)| + 2)
  {
    DecimalWritesCount(n);
    CountIsParsed(text, p, n, [OPEN_BRACE] + Decimal(n) + [CLOSE_BRACE]);
  }

  // ---------- Sets ----------

  lemma {:induction false} OnceOfDistinct(s: seq<Byte>)
    requires Distinct(s)
    ensures Once(s) == s
    decreases |s|
  {
    if s != [] {
      OnceOfDistinct(s[..|s| - 1]);
    }
  }

  /** Escaped members, after other members. */
  lemma {:induction false} PrintedMembers(before: seq<Byte>, seen: seq<Byte>, members: seq<Byte>, classes: map<seq<Byte>, seq<Byte>>)
    requires WritesMembers(before, seen, classes) && NUL !in members
    ensures WritesMembers(before + PrintMembers(members), seen + members, classes)
    decreases |members|
  {
    hide WritesMembers;
    if members == [] {
      assert before + PrintMembers(members) == before && seen + members == seen;
    } else {
      var item, chars := [BACKSLASH, members[0]], [members[0]];
      OneMoreMember(before, seen, item, chars, classes);
      PrintedMembers(before + item, seen + chars, members[1..], classes);
      assert before + item + PrintMembers(members[1..]) == before + PrintMembers(members);
      assert seen + chars + members[1..] == seen + members;
    }
  }

  lemma {:induction false} PrintedSet(negated: bool, members: seq<Byte>, classes: map<seq<Byte>, seq<Byte>>)
    requires members != [] && Distinct(members) && NUL !in members
    ensures WritesSet(negated, members, (if negated then [CARET] else []) + PrintMembers(members), classes)
  {
    hide Once, WritesMembers;
    var body := PrintMembers(members);
    NoMembers([], 0, classes);
    PrintedMembers([], [], members, classes);
    assert [] + body == body && [] + members == members;
    OnceOfDistinct(members);
    assert ([CARET] + body)[1..] == body;
  }

  // ---------- Patterns ----------

  /** What is written as an operand is also written as a factor, a term and an expression. */
  lemma {:induction false} LowerLevels(r: Regex, text: seq<Byte>, classes: map<seq<Byte>, seq<Byte>>)
    ensures !r.Alt? ==> (WritesTerm(r, text, classes) <==> WritesExpr(r, text, classes))
    ensures IsFactor(r) ==> (WritesFactor(r, text, classes) <==> WritesTerm(r, text, classes))
    ensures IsBase(r) ==> (WritesBase(r, text, classes) <==> WritesFactor(r, text, classes))
  {}

  lemma {:induction false} GroupWrites(body: Regex, text: seq<Byte>, classes: map<seq<Byte>, seq<Byte>>)
    requires WritesExpr(body, text, classes)
    ensures WritesBase(Group(body), [OPEN_PAREN] + text + [CLOSE_PAREN], classes)
  {
    hide WritesExpr;
    var t := [OPEN_PAREN] + text + [CLOSE_PAREN];
    assert t[1..|t| - 1] == text;
  }

  lemma {:induction false} OperatorWrites(base: Regex, text: seq<Byte>, classes: map<seq<Byte>, seq<Byte>>)
    requires WritesBase(base, text, classes)
    ensures WritesFactor(Star(base), text + [STAR], classes) && WritesFactor(Plus(base), text + [PLUS], classes)
  {
    hide WritesBase;
    assert (text + [STAR])[..|text|] == text && (text + [PLUS])[..|text|] == text;
  }

  lemma {:induction false} TimesWrites(base: Regex, count: nat, text: seq<Byte>, number: seq<Byte>, classes: map<seq<Byte>, seq<Byte>>)
    requires WritesBase(base, text, classes) && WritesCount(count, number)
    ensures WritesFactor(Times(base, count), text + number, classes)
  {
    hide WritesBase, WritesCount;
    assert (text + number)[..|text|] == text && (text + number)[|text|..] == number;
  }

  lemma {:induction false} CatWrites(first: Regex, rest: Regex, t1: seq<Byte>, t2: seq<Byte>, classes: map<seq<Byte>, seq<Byte>>)
    requires WritesFactor(first, t1, classes) && WritesTerm(rest, t2, classes)
    ensures WritesTerm(Cat(first, rest), t1 + t2, classes)
  {
    hide WritesFactor;
    assert (t1 + t2)[..|t1|] == t1 && (t1 + t2)[|t1|..] == t2;
  }

  lemma {:induction false} AltWrites(left: Regex, right: Regex, t1: seq<Byte>, t2: seq<Byte>, classes: map<seq<Byte>, seq<Byte>>)
    requires WritesTerm(left, t1, classes) && WritesExpr(right, t2, classes)
    ensures WritesExpr(Alt(left, right), t1 + ([BAR] + t2), classes)
  {
    hide WritesTerm;
    var text := t1 + ([BAR] + t2);
    assert text[|t1|] == BAR && text[..|t1|] == t1 && text[|t1| + 1..] == t2;
  }

  /** Printed atoms. */
  lemma {:induction false} AtomWrites(r: Regex, classes: map<seq<Byte>, seq<Byte>>)
    requires IsAtom(r) && WellShaped(r) && Printable(r)
    ensures WritesBase(r, Print(r), classes)
  {
    hide WritesSet, PrintMembers;
    if r.Set? {
      var text := Print(r);
      PrintedSet(r.negated, r.members, classes);
      assert text[1..|text| - 1] == (if r.negated then [CARET] else []) + PrintMembers(r.members);
    }
  }

  /** A printed tree is written for the tree, as an operand, factor, term or expression. */
  lemma {:induction false} PrintWrites(r: Regex, classes: map<seq<Byte>, seq<Byte>>)
    requires WellShaped(r) && Printable(r)
    ensures WritesExpr(r, Print(r), classes)
    ensures IsTerm(r) ==> WritesTerm(r, Print(r), classes)
    ensures IsFactor(r) ==> WritesFactor(r, Print(r), classes)
    ensures IsBase(r) ==> WritesBase(r, Print(r), classes)
    decreases r
  {
    hide WritesExpr, WritesTerm, WritesFactor, WritesBase, WritesCount, PrintMembers, Decimal;
    LowerLevels(r, Print(r), classes);
    match r
    case Lit(_) => AtomWrites(r, classes);
    case AnyOne => AtomWrites(r, classes);
    case Set(_, _) => AtomWrites(r, classes);
    case Group(body) =>
      PrintWrites(body, classes);
      GroupWrites(body, Print(body), classes);
    case Star(base) =>
      PrintWrites(base, classes);
      OperatorWrites(base, Print(base), classes);
    case Plus(base) =>
      PrintWrites(base, classes);
      OperatorWrites(base, Print(base), classes);
    case Times(base, count) =>
      PrintWrites(base, classes);
      DecimalWritesCount(count);
      TimesWrites(base, count, Print(base), [OPEN_BRACE] + Decimal(count) + [CLOSE_BRACE], classes);
    case Cat(first, rest) =>
      PrintWrites(first, classes);
      PrintWrites(rest, classes);
      CatWrites(first, rest, Print(first), Print(rest), classes);
    case Alt(left, right) =>
      PrintWrites(left, classes);
      PrintWrites(right, classes);
      AltWrites(left, right, Print(left), Print(right), classes);
  }

  /** Parsing a printed pattern gives the pattern back and consumes the text completely. */
  lemma {:induction false} ParseInvertsPrint(r: Regex, classes: map<seq<Byte>, seq<Byte>>)
    requires WellShaped(r) && Printable(r)
    ensures ParseExpr(Source(Print(r), classes), 0) == Ok(r, |Print(r)|)
  {
    PrintWrites(r, classes);
    WrittenForOneTree(r, r, Print(r), classes);
  }
}
