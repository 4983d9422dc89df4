/**
 How patterns are written: which texts stand for which tree. This is the documented
 notation as a grammar of its own, which mentions neither the parser nor its tests; the
 parser reads exactly these texts.
 */
module Writing {
  import opened Bytes
  import opened Patterns
  import opened Syntax

  // ---------- The notation ----------

  /** A character that needs no backslash: neither an operator nor '?', a backslash or NUL. */
  predicate StandsForItself(c: Byte) {
    c !in {0, '(' as int, ')' as int, '{' as int, '}' as int, '|' as int, '*' as int, '+' as int,
           '[' as int, ']' as int, '?' as int, '\\' as int}
  }

  /** Alternatives. */
  ghost predicate WritesExpr(r: Regex, text: seq<Byte>, classes: map<seq<Byte>, seq<Byte>>)
    decreases r, 3
  {
    if r.Alt? then
      exists k | 0 <= k < |text| ::
        text[k] == '|' as int && WritesTerm(r.left, text[..k], classes) && WritesExpr(r.right, text[k + 1..], classes)
    else WritesTerm(r, text, classes)
  }

  /** Concatenations. */
  ghost predicate WritesTerm(r: Regex, text: seq<Byte>, classes: map<seq<Byte>, seq<Byte>>)
    decreases r, 2
  {
    if r.Cat? then
      exists k | 0 <= k <= |text| ::
        WritesFactor(r.first, text[..k], classes) && WritesTerm(r.rest, text[k..], classes)
    else WritesFactor(r, text, classes)
  }

  /** An operand with at most one postfix operator. */
  ghost predicate WritesFactor(r: Regex, text: seq<Byte>, classes: map<seq<Byte>, seq<Byte>>)
    decreases r, 1
  {
    var last := |text| - 1;
    match r
    case Star(base) => text != [] && text[last] == '*' as int && WritesBase(base, text[..last], classes)
    case Plus(base) => text != [] && text[last] == '+' as int && WritesBase(base, text[..last], classes)
    case Times(base, count) => exists k | 0 <= k <= |text| :: WritesBase(base, text[..k], classes) && WritesCount(count, text[k..])
    case _ => WritesBase(r, text, classes)
  }

  /** A character, '?', a set or something in parentheses. */
  ghost predicate WritesBase(r: Regex, text: seq<Byte>, classes: map<seq<Byte>, seq<Byte>>)
    decreases r, 0
  {
    match r
    case Lit(c) => (text == [c] && StandsForItself(c)) || (text == ['\\' as int, c] && c != 0)
    case AnyOne => text == ['?' as int]
    case Set(negated, members) =>
      && |text| >= 2 && text[0] == '[' as int && text[|text| - 1] == ']' as int
      && WritesSet(negated, members, text[1..|text| - 1], classes)
    case Group(body) =>
      && |text| >= 2 && text[0] == '(' as int && text[|text| - 1] == ')' as int
      && WritesExpr(body, text[1..|text| - 1], classes)
    case _ => false
  }

  // ---------- {n} ----------

  /** The number read from its decimal digits. */
  function Value(digits: seq<Byte>): int {
    if digits == [] then 0 else 10 * Value(digits[..|digits| - 1]) + (digits[|digits| - 1] - '0' as int)
  }

  predicate Numerals(s: seq<Byte>) {
    forall i | 0 <= i < |s| :: '0' as int <= s[i] <= '9' as int
  }

  predicate Spaces(s: seq<Byte>) {
    forall i | 0 <= i < |s| :: s[i] == ' ' as int || 9 <= s[i] <= 13
  }

  /** White space from `0`, a plus sign or none from `i`, digits from `j`, and from `k` on whatever does not start with a digit. */
  predicate NumberAt(s: seq<Byte>, n: nat, i: nat, j: nat, k: nat) {
    && i <= j <= k <= |s| && Spaces(s[..i])
    && (j == i || (j == i + 1 && s[i] == '+' as int))
    && Numerals(s[j..k]) && (k < |s| ==> !('0' as int <= s[k] <= '9' as int))
    && n == Value(s[j..k])
  }

  ghost predicate IsNumber(s: seq<Byte>, n: nat) {
    exists i: nat, j: nat, k: nat :: NumberAt(s, n, i, j, k)
  }

  /** A count of at least 2 in braces; of what stands between them, the first 62 characters matter. */
  ghost predicate WritesCount(n: nat, text: seq<Byte>) {
    && |text| >= 2 && text[0] == '{' as int && text[|text| - 1] == '}' as int
    && var inner := text[1..|text| - 1];
    && 0 !in inner && '}' as int !in inner && n >= 2
    && IsNumber(if |inner| <= 62 then inner else inner[..62], n)
  }

  // ---------- Sets ----------

  /** Each character once, in the order of first occurrence. */
  function Once(s: seq<Byte>): seq<Byte> {
    if s == [] then []
    else
      var before, c := s[..|s| - 1], s[|s| - 1];
      Once(before) + if c in before then [] else [c]
  }

  /** `members` is `s` up to its first NUL. */
  predicate UpToFirstNul(members: seq<Byte>, s: seq<Byte>) {
    members <= s && 0 !in members && (members == s || s[|members|] == 0)
  }

  /** The characters above the smaller of `b` and `e` up to the larger, which is not the largest of all. */
  predicate Range(b: Byte, e: Byte, chars: seq<Byte>) {
    var lo, hi := if b <= e then b else e, if b <= e then e else b;
    hi < 127 && |chars| == hi - lo && forall i | 0 <= i < |chars| :: chars[i] == lo + 1 + i
  }

  /** `upper` is `name` with its letters in upper case. */
  predicate InUpperCase(upper: seq<Byte>, name: seq<Byte>) {
    |upper| == |name| && forall i | 0 <= i < |name| ::
      upper[i] == if 'a' as int <= name[i] <= 'z' as int then name[i] - 'a' as int + 'A' as int else name[i]
  }

  /** `item` is a symbolic name between colons and stands for the characters of its class. */
  ghost predicate WritesClass(item: seq<Byte>, chars: seq<Byte>, classes: map<seq<Byte>, seq<Byte>>) {
    && 2 <= |item| <= 17 && item[0] == ':' as int && item[|item| - 1] == ':' as int
    && var name := item[1..|item| - 1];
    && 0 !in name && ':' as int !in name
    && exists upper | upper in classes :: InUpperCase(upper, name) && chars == classes[upper]
  }

  /**
   After the text `before`, which stands for the characters `seen`, `item` adds `chars`:
   a character as it is (a dash only at the beginning), an escaped character, a range
   that continues the character in front of the dash, or a class.
   */
  ghost predicate WritesMember(before: seq<Byte>, seen: seq<Byte>, item: seq<Byte>, chars: seq<Byte>, classes: map<seq<Byte>, seq<Byte>>) {
    || (|item| == 1 && item[0] !in {0, ']' as int, '\\' as int, ':' as int} && (item[0] == '-' as int ==> seen == []) && chars == item)
    || (|item| == 2 && item[0] == '\\' as int && item[1] != 0 && chars == item[1..])
    || (&& |item| == 2 && item[0] == '-' as int && before != [] && seen != []
        && item[1] !in {0, ']' as int} && Range(before[|before| - 1], item[1], chars))
    || WritesClass(item, chars, classes)
  }

  /** `text` is a sequence of members that stands for `chars`. */
  ghost predicate WritesMembers(text: seq<Byte>, chars: seq<Byte>, classes: map<seq<Byte>, seq<Byte>>)
    decreases |text|
  {
    if text == [] then chars == []
    else exists k, n | 0 <= k < |text| && 0 <= n <= |chars| ::
           WritesMembers(text[..k], chars[..n], classes) && WritesMember(text[..k], chars[..n], text[k..], chars[n..], classes)
  }

  /** What stands between the brackets of a set. Without a caret in front the first member must not be one. */
  ghost predicate WritesSet(negated: bool, members: seq<Byte>, text: seq<Byte>, classes: map<seq<Byte>, seq<Byte>>) {
    && (negated <==> text != [] && text[0] == '^' as int)
    && exists chars: seq<Byte> ::
         && WritesMembers(if negated then text[1..] else text, chars, classes)
         && chars != [] && UpToFirstNul(members, Once(chars))
  }

  // ---------- Where a pattern ends ----------

  /** The last factor of `r` has a postfix operator. */
  predicate EndsInOperator(r: Regex) {
    match r
    case Alt(_, right) => EndsInOperator(right)
    case Cat(_, rest) => EndsInOperator(rest)
    case _ => r.Star? || r.Plus? || r.Times?
  }

  /** A pattern ends before the end of the text, a closing bracket of any kind, or a second postfix operator in a row. */
  predicate Stops(r: Regex, c: Byte) {
    c in {0, ')' as int, '}' as int, ']' as int} || (c in {'*' as int, '+' as int, '{' as int} && EndsInOperator(r))
  }

  /** The first `pos` characters of the text are written for `r`, and the pattern ends there. */
  ghost predicate Denotes(src: Source, r: Regex, pos: nat) {
    pos <= |src.text| && WritesExpr(r, src.text[..pos], src.classes) && Stops(r, At(src.text, pos))
  }

  // ---------- What is written is parsed: numbers ----------

  lemma {:induction false} DigitsJoin(s: seq<Byte>, t: seq<Byte>, acc: nat)
    requires Numerals(s)
    ensures Digits(s + t, acc) == Digits(t, Digits(s, acc))
    decreases |s|
  {
    if s == [] {
      assert s + t == t;
    } else {
      assert (s + t)[1..] == s[1..] + t;
      DigitsJoin(s[1..], t, 10 * acc + (s[0] - '0' as int));
    }
  }

  lemma {:induction false} DigitsAreValue(s: seq<Byte>)
    requires Numerals(s)
    ensures Value(s) == Digits(s, 0)
    decreases |s|
  {
    if s != [] {
      var front, d := s[..|s| - 1], s[|s| - 1..];
      assert s == front + d && d[1..] == [];
      DigitsAreValue(front);
      DigitsJoin(front, d, 0);
    }
  }

  /** Digits and what follows them. */
  lemma {:induction false} DigitsOfNumber(s: seq<Byte>, k: nat)
    requires k <= |s| && Numerals(s[..k]) && (k < |s| ==> !IsDigit(s[k]))
    ensures Digits(s, 0) == Value(s[..k])
  {
    assert s == s[..k] + s[k..];
    DigitsAreValue(s[..k]);
    DigitsJoin(s[..k], s[k..], 0);
  }

  lemma {:induction false} AtoiOfNumber(s: seq<Byte>, n: nat, i: nat, j: nat, k: nat)
    requires NumberAt(s, n, i, j, k) && n > 0
    ensures Atoi(s) == n
    decreases i
  {
    hide Digits;
    assert s[j..k] == s[j..][..k - j];
    assert s[j..j] == [];
    if i > 0 {
      assert IsSpace(s[0]) by { assert s[..i][0] == s[0]; }
      assert s[1..][..i - 1] == s[..i][1..] && s[1..][j - 1..k - 1] == s[j..k];
      AtoiOfNumber(s[1..], n, i - 1, j - 1, k - 1);
    } else {
      DigitsOfNumber(s[j..], k - j);
      assert IsDigit(s[j]) by { assert s[j..k][0] == s[j]; }
      assert j == 0 ==> s[j..] == s;
    }
  }

  /** A positive number is only read where one is written. */
  lemma {:induction false} NumberOfAtoi(s: seq<Byte>) returns (i: nat, j: nat, k: nat)
    requires Atoi(s) > 0
    ensures NumberAt(s, Atoi(s), i, j, k)
    decreases |s|
  {
    hide Digits, Value;
    if IsSpace(s[0]) {
      i, j, k := NumberOfAtoi(s[1..]);
      SpaceInFront(s, Atoi(s), i, j, k);
      i, j, k := i + 1, j + 1, k + 1;
    } else {
      i, j := 0, if s[0] == PLUS then 1 else 0;
      var n := Span(s[j..]);
      k := j + n;
      DigitsOfNumber(s[j..], n);
      assert s[j..k] == s[j..][..n] && s[..i] == [];
      assert j == 0 ==> s[j..] == s;
    }
  }

  lemma {:induction false} SpaceInFront(s: seq<Byte>, n: nat, i: nat, j: nat, k: nat)
    requires s != [] && IsSpace(s[0]) && NumberAt(s[1..], n, i, j, k)
    ensures NumberAt(s, n, i + 1, j + 1, k + 1)
  {
    var u := s[1..];
    forall x | 0 <= x <= i ensures IsSpace(s[x]) {
      if x > 0 {
        assert u[..i][x - 1] == s[x];
      }
    }
    assert s[j + 1..k + 1] == u[j..k];
  }

  /** The number of digits in front. */
  function Span(s: seq<Byte>): (k: nat)
    ensures k <= |s| && Numerals(s[..k]) && (k < |s| ==> !IsDigit(s[k]))
  {
    if s == [] || !IsDigit(s[0]) then 0
    else
      var k := 1 + Span(s[1..]);
      assert s[..k] == [s[0]] + s[1..][..k - 1];
      k
  }

  /** The C function reads exactly the numbers written, as far as they are positive. */
  lemma {:induction false} AtoiReadsNumbers(s: seq<Byte>, n: nat)
    requires n > 0
    ensures Atoi(s) == n <==> IsNumber(s, n)
  {
    hide Atoi, NumberAt;
    if Atoi(s) == n {
      var i, j, k := NumberOfAtoi(s);
    }
    if i: nat, j: nat, k: nat :| NumberAt(s, n, i, j, k) {
      AtoiOfNumber(s, n, i, j, k);
    }
  }

  lemma {:induction false} BraceEndAt(text: seq<Byte>, q: nat, s: seq<Byte>)
    requires 0 !in s && '}' as int !in s && Occurs(text, q, s) && At(text, q + |s|) in {NUL, CLOSE_BRACE}
    ensures BraceEnd(text, q) == q + |s|
    decreases |s|
  {
    if s != [] {
      OccursHead(text, q, s);
      BraceEndAt(text, q + 1, s[1..]);
    }
  }

  lemma {:induction false} BeforeBrace(text: seq<Byte>, q: nat)
    requires q <= |text|
    ensures var s := text[q..BraceEnd(text, q)]; 0 !in s && '}' as int !in s
    ensures At(text, BraceEnd(text, q)) in {NUL, CLOSE_BRACE}
    decreases |text| - q
  {
    var e := BraceEnd(text, q);
    if e != q {
      BeforeBrace(text, q + 1);
      assert text[q..e] == [text[q]] + text[q + 1..e];
    }
  }

  lemma {:induction false} CountIsParsed(text: seq<Byte>, p: nat, n: nat, s: seq<Byte>)
    requires Occurs(text, p, s) && WritesCount(n, s)
    ensures At(text, p) == OPEN_BRACE && ParseCount(text, p) == Ok(n, p + |s|)
  {
    hide Atoi, BraceEnd, IsNumber, Occurs;
    var inner := s[1..|s| - 1];
    assert s == [OPEN_BRACE] + (inner + [CLOSE_BRACE]);
    OccursParts(text, p, [OPEN_BRACE], inner + [CLOSE_BRACE]);
    OccursHead(text, p, [OPEN_BRACE]);
    OccursParts(text, p + 1, inner, [CLOSE_BRACE]);
    OccursHead(text, p + 1 + |inner|, [CLOSE_BRACE]);
    BraceEndAt(text, p + 1, inner);
    AtoiReadsNumbers(Buffered(inner), n);
  }

  /** What stands between the first and the last character of a slice. */
  lemma {:induction false} InnerSlice(text: seq<Byte>, p: nat, e: nat)
    requires p + 2 <= e <= |text|
    ensures var s := text[p..e]; s[0] == text[p] && s[|s| - 1] == text[e - 1] && s[1..|s| - 1] == text[p + 1..e - 1]
  {
    var s, u := text[p..e], text[p + 1..e - 1];
    assert |s[1..|s| - 1]| == |u|;
    assert forall i | 0 <= i < |u| :: s[1..|s| - 1][i] == u[i];
  }

  lemma {:induction false} CountIsWritten(text: seq<Byte>, p: nat)
    requires p < |text| && text[p] == OPEN_BRACE && ParseCount(text, p).Ok?
    ensures var c := ParseCount(text, p); WritesCount(c.value, text[p..c.pos])
  {
    hide Atoi, BraceEnd, IsNumber;
    var e := BraceEnd(text, p + 1);
    BeforeBrace(text, p + 1);
    var inner := text[p + 1..e];
    InnerSlice(text, p, e + 1);
    AtoiReadsNumbers(Buffered(inner), Atoi(Buffered(inner)));
  }

  // ---------- Sets ----------

  lemma {:induction false} OnceKeeps(s: seq<Byte>, c: Byte)
    ensures c in Once(s) <==> c in s
    decreases |s|
  {
    if s != [] {
      OnceKeeps(s[..|s| - 1], c);
      assert s == s[..|s| - 1] + [s[|s| - 1]];
    }
  }

  lemma {:induction false} OnceMore(s: seq<Byte>, c: Byte)
    ensures Once(s + [c]) == AddChar(Once(s), c)
  {
    assert (s + [c])[..|s|] == s;
    OnceKeeps(s, c);
  }

  lemma {:induction false} OnceAll(s: seq<Byte>, cs: seq<Byte>)
    ensures Once(s + cs) == AddAll(Once(s), cs)
    decreases |cs|
  {
    hide Once, AddChar;
    if cs == [] {
      assert s + cs == s;
    } else {
      OnceMore(s, cs[0]);
      assert s + [cs[0]] + cs[1..] == s + cs;
      OnceAll(s + [cs[0]], cs[1..]);
    }
  }

  lemma {:induction false} OnceRange(s: seq<Byte>, c: int, e: Byte, chars: seq<Byte>)
    requires -128 <= c <= e + 1 && |chars| == e + 1 - c && forall i | 0 <= i < |chars| :: chars[i] == c + i
    ensures Once(s + chars) == AddRange(Once(s), c, e)
    decreases |chars|
  {
    hide Once, AddChar;
    if c > e {
      assert s + chars == s;
    } else {
      OnceMore(s, c);
      assert s + [c] + chars[1..] == s + chars;
      OnceRange(s + [c], c + 1, e, chars[1..]);
    }
  }

  lemma {:induction false} UpToNulIsPrefix(s: seq<Byte>)
    ensures UpToFirstNul(UpToNul(s), s)
    decreases |s|
  {
    if s != [] && s[0] != NUL {
      UpToNulIsPrefix(s[1..]);
    }
  }

  lemma {:induction false} UpToFirstNulUnique(members: seq<Byte>, s: seq<Byte>)
    requires UpToFirstNul(members, s)
    ensures members == UpToNul(s)
  {
    UpToNulIsPrefix(s);
    var t := UpToNul(s);
    assert forall i | 0 <= i < |t| :: t[i] == s[i] && t[i] != 0;
    assert forall i | 0 <= i < |members| :: members[i] == s[i] && members[i] != 0;
  }

  lemma {:induction false} UpperIsUnique(upper: seq<Byte>, name: seq<Byte>)
    ensures InUpperCase(upper, name) <==> upper == Upper(name)
  {}

  lemma {:induction false} NameEndAt(text: seq<Byte>, q: nat, room: nat, name: seq<Byte>)
    requires 0 !in name && ':' as int !in name && |name| <= room && Occurs(text, q, name) && At(text, q + |name|) == COLON
    ensures NameEnd(text, q, room) == q + |name|
    decreases |name|
  {
    if name != [] {
      OccursHead(text, q, name);
      NameEndAt(text, q + 1, room - 1, name[1..]);
    }
  }

  lemma {:induction false} BeforeColon(text: seq<Byte>, q: nat, room: nat)
    requires q <= |text|
    ensures var s := text[q..NameEnd(text, q, room)]; 0 !in s && ':' as int !in s && |s| <= room
    decreases room
  {
    var e := NameEnd(text, q, room);
    if e != q {
      BeforeColon(text, q + 1, room - 1);
      assert text[q..e] == [text[q]] + text[q + 1..e];
    }
  }

  /** Once a member has been collected, the text before is not empty. */
  lemma {:induction false} SeenBefore(text: seq<Byte>, chars: seq<Byte>, classes: map<seq<Byte>, seq<Byte>>)
    requires WritesMembers(text, chars, classes)
    ensures chars != [] ==> text != []
  {}

  /** A class name between colons is parsed. */
  lemma {:induction false} ClassIsParsed(src: Source, start: nat, q: nat, seen: seq<Byte>, item: seq<Byte>, chars: seq<Byte>)
    requires start <= q < |src.text| && Occurs(src.text, q, item) && WritesClass(item, chars, src.classes)
    ensures ParseMember(src, start, q, Once(seen)) == Ok(Once(seen + chars), q + |item|)
  {
    hide NameEnd, Once, Upper, Occurs, InUpperCase;
    var name := item[1..|item| - 1];
    assert item == [COLON] + (name + [COLON]);
    OccursParts(src.text, q, [COLON], name + [COLON]);
    OccursHead(src.text, q, [COLON]);
    OccursParts(src.text, q + 1, name, [COLON]);
    OccursHead(src.text, q + 1 + |name|, [COLON]);
    NameEndAt(src.text, q + 1, 15, name);
    OccursSlice(src.text, q + 1, name);
    var upper :| upper in src.classes && InUpperCase(upper, name) && chars == src.classes[upper];
    UpperIsUnique(upper, name);
    OnceAll(seen, chars);
  }

  lemma {:induction false} OccursSlice(text: seq<Byte>, q: nat, s: seq<Byte>)
    requires Occurs(text, q, s)
    ensures q + |s| <= |text| && text[q..q + |s|] == s
  {}

  /** A range is parsed; `before` is the text in front of it, as far as it belongs to the set. */
  lemma {:induction false} RangeIsParsed(src: Source, start: nat, q: nat, b: Byte, seen: seq<Byte>, item: seq<Byte>, chars: seq<Byte>)
    requires start < q < |src.text| && src.text[q - 1] == b && seen != []
    requires Occurs(src.text, q, item) && |item| == 2 && item[0] == DASH && item[1] !in {NUL, CLOSE_BRACKET} && Range(b, item[1], chars)
    ensures ParseMember(src, start, q, Once(seen)) == Ok(Once(seen + chars), q + 2)
  {
    hide Once, AddRange, Occurs;
    OccursHead(src.text, q, item);
    OccursHead(src.text, q + 1, item[1..]);
    OnceKeeps(seen, seen[0]);
    var e := item[1];
    OnceRange(seen, (if b > e then e else b) + 1, if b > e then b else e, chars);
  }

  /** What is written as a member is parsed as one. */
  lemma {:induction false} MemberIsParsed(src: Source, start: nat, q: nat, before: seq<Byte>, seen: seq<Byte>, item: seq<Byte>, chars: seq<Byte>)
    requires start <= q && Occurs(src.text, q, before + item) && WritesMember(before, seen, item, chars, src.classes)
    requires seen != [] ==> before != []
    ensures var p := q + |before|;
            && p < |src.text| && At(src.text, p) !in {NUL, CLOSE_BRACKET}
            && ParseMember(src, start, p, Once(seen)) == Ok(Once(seen + chars), p + |item|)
  {
    hide Once, AddRange, WritesClass, ParseMember, Occurs;
    var p := q + |before|;
    OccursParts(src.text, q, before, item);
    OccursSlice(src.text, p, item);
    ClassHead(item, chars, src.classes);
    OccursHead(src.text, p, item);
    if WritesClass(item, chars, src.classes) {
      ClassIsParsed(src, start, p, seen, item, chars);
    } else if |item| == 2 && item[0] == DASH && seen != [] {
      OccursSlice(src.text, q, before);
      assert before[|before| - 1] == src.text[p - 1];
      RangeIsParsed(src, start, p, src.text[p - 1], seen, item, chars);
    } else {
      SingleIsParsed(src, start, p, seen, item, chars);
    }
  }

  lemma {:induction false} ClassHead(item: seq<Byte>, chars: seq<Byte>, classes: map<seq<Byte>, seq<Byte>>)
    ensures WritesClass(item, chars, classes) ==> |item| >= 2 && item[0] == COLON
  {}

  /** A character as it is, or after a backslash. */
  lemma {:induction false} SingleIsParsed(src: Source, start: nat, q: nat, seen: seq<Byte>, item: seq<Byte>, chars: seq<Byte>)
    requires start <= q < |src.text| && Occurs(src.text, q, item)
    requires (&& |item| == 1 && item[0] !in {NUL, CLOSE_BRACKET, BACKSLASH, COLON} && (item[0] == DASH ==> seen == []) && chars == item)
             || (|item| == 2 && item[0] == BACKSLASH && item[1] != NUL && chars == item[1..])
    ensures ParseMember(src, start, q, Once(seen)) == Ok(Once(seen + chars), q + |item|)
  {
    hide AddRange, Occurs;
    OccursHead(src.text, q, item);
    if |item| == 2 {
      OccursHead(src.text, q + 1, item[1..]);
    }
    var c := item[|item| - 1];
    assert chars == [c];
    OnceMore(seen, c);
    assert seen == [] ==> Once(seen) == [];
  }

  /** The members written up to some point are parsed, whatever follows. */
  lemma {:induction false} MembersAreParsed(src: Source, start: nat, q: nat, text: seq<Byte>, chars: seq<Byte>)
    requires start <= q && Occurs(src.text, q, text) && WritesMembers(text, chars, src.classes)
    ensures ParseMembers(src, start, q, []) == ParseMembers(src, start, q + |text|, Once(chars))
    decreases |text|
  {
    hide Once, WritesMember, WritesMembers, ParseMember, ParseMembers, Occurs;
    OccursSlice(src.text, q, text);
    if text == [] {
      SeenBefore(text, chars, src.classes);
      OnceOfSome([]);
    } else {
      var before, seen, item, added := LastMember(text, chars, src.classes);
      OccursParts(src.text, q, before, item);
      MembersAreParsed(src, start, q, before, seen);
      SeenBefore(before, seen, src.classes);
      MemberIsParsed(src, start, q, before, seen, item, added);
      MembersStep(src, start, q + |before|, Once(seen));
    }
  }

  lemma {:induction false} LastMember(text: seq<Byte>, chars: seq<Byte>, classes: map<seq<Byte>, seq<Byte>>)
    returns (before: seq<Byte>, seen: seq<Byte>, item: seq<Byte>, added: seq<Byte>)
    requires text != [] && WritesMembers(text, chars, classes)
    ensures text == before + item && chars == seen + added && |before| < |text|
    ensures WritesMembers(before, seen, classes) && WritesMember(before, seen, item, added, classes)
  {
    hide WritesMember;
    var k, n :| 0 <= k < |text| && 0 <= n <= |chars| && WritesMembers(text[..k], chars[..n], classes)
                && WritesMember(text[..k], chars[..n], text[k..], chars[n..], classes);
    before, seen, item, added := text[..k], chars[..n], text[k..], chars[n..];
  }

  lemma {:induction false} MembersStep(src: Source, start: nat, q: nat, acc: seq<Byte>)
    requires start <= q < |src.text| && At(src.text, q) !in {NUL, CLOSE_BRACKET}
    ensures var m := ParseMember(src, start, q, acc);
            ParseMembers(src, start, q, acc) == if m.Fail? then m else ParseMembers(src, start, m.pos, m.value)
  {}

  /** One member read is one member written. */
  lemma {:induction false} MemberIsWritten(src: Source, start: nat, q0: nat, q: nat, seen: seq<Byte>) returns (chars: seq<Byte>)
    requires start <= q0 <= q < |src.text| && (seen != [] ==> q0 < q)
    requires src.text[q] !in {NUL, CLOSE_BRACKET} && ParseMember(src, start, q, Once(seen)).Ok?
    ensures var m := ParseMember(src, start, q, Once(seen));
            WritesMember(src.text[q0..q], seen, src.text[q..m.pos], chars, src.classes) && m.value == Once(seen + chars)
  {
    hide Once, AddRange, AddAll, WritesClass;
    var c := src.text[q];
    var pos := ParseMember(src, start, q, Once(seen)).pos;
    OnceOfSome(seen);
    if c == DASH && seen != [] {
      var b, e := src.text[q - 1], src.text[q + 1];
      assert src.text[q0..q][|src.text[q0..q]| - 1] == b;
      var lo, hi := if b > e then e else b, if b > e then b else e;
      chars := seq(hi - lo, i requires 0 <= i < hi - lo => lo + 1 + i);
      OnceRange(seen, lo + 1, hi, chars);
    } else if c == COLON {
      chars := ClassIsWritten(src, start, q, seen);
    } else {
      chars := [src.text[pos - 1]];
      OnceMore(seen, src.text[pos - 1]);
    }
  }

  lemma {:induction false} OnceOfSome(s: seq<Byte>)
    ensures Once(s) == [] <==> s == []
  {
    if s != [] {
      OnceKeeps(s, s[0]);
    }
  }

  lemma {:induction false} ClassIsWritten(src: Source, start: nat, q: nat, seen: seq<Byte>) returns (chars: seq<Byte>)
    requires start <= q < |src.text| && src.text[q] == COLON && ParseMember(src, start, q, Once(seen)).Ok?
    ensures var m := ParseMember(src, start, q, Once(seen));
            WritesClass(src.text[q..m.pos], chars, src.classes) && m.value == Once(seen + chars)
  {
    hide Once, AddRange, AddAll, NameEnd, Upper, InUpperCase;
    var e := NameEnd(src.text, q + 1, 15);
    var name := src.text[q + 1..e];
    BeforeColon(src.text, q + 1, 15);
    UpperIsUnique(Upper(name), name);
    InnerSlice(src.text, q, e + 1);
    chars := src.classes[Upper(name)];
    OnceAll(seen, chars);
  }

  /** All members read are members written. */
  lemma {:induction false} MembersAreWritten(src: Source, start: nat, q0: nat, q: nat, seen: seq<Byte>) returns (chars: seq<Byte>)
    requires start <= q0 <= q <= |src.text| && WritesMembers(src.text[q0..q], seen, src.classes)
    requires ParseMembers(src, start, q, Once(seen)).Ok?
    ensures var m := ParseMembers(src, start, q, Once(seen));
            && WritesMembers(src.text[q0..m.pos], chars, src.classes) && m.value == Once(chars) && chars != []
            && At(src.text, m.pos) in {NUL, CLOSE_BRACKET}
    decreases |src.text| - q
  {
    hide Once, WritesMember, ParseMember, WritesMembers;
    OnceOfSome(seen);
    if At(src.text, q) == NUL || At(src.text, q) == CLOSE_BRACKET {
      chars := seen;
    } else {
      SeenBefore(src.text[q0..q], seen, src.classes);
      var pos := ParseMember(src, start, q, Once(seen)).pos;
      var added := MemberIsWritten(src, start, q0, q, seen);
      OneMoreMember(src.text[q0..q], seen, src.text[q..pos], added, src.classes);
      assert src.text[q0..q] + src.text[q..pos] == src.text[q0..pos];
      chars := MembersAreWritten(src, start, q0, pos, seen + added);
    }
  }

  lemma {:induction false} OneMoreMember(before: seq<Byte>, seen: seq<Byte>, item: seq<Byte>, chars: seq<Byte>, classes: map<seq<Byte>, seq<Byte>>)
    requires WritesMembers(before, seen, classes) && WritesMember(before, seen, item, chars, classes)
    ensures WritesMembers(before + item, seen + chars, classes)
  {
    hide WritesMember, WritesMembers, WritesClass;
    var text, all := before + item, seen + chars;
    ItemNotEmpty(before, seen, item, chars, classes);
    MembersCut(text, all, |before|, |seen|, classes);
  }

  lemma {:induction false} ItemNotEmpty(before: seq<Byte>, seen: seq<Byte>, item: seq<Byte>, chars: seq<Byte>, classes: map<seq<Byte>, seq<Byte>>)
    requires WritesMember(before, seen, item, chars, classes)
    ensures item != []
  {}

  lemma {:induction false} MembersCut(text: seq<Byte>, chars: seq<Byte>, k: nat, n: nat, classes: map<seq<Byte>, seq<Byte>>)
    requires k < |text| && n <= |chars|
    requires WritesMembers(text[..k], chars[..n], classes) && WritesMember(text[..k], chars[..n], text[k..], chars[n..], classes)
    ensures WritesMembers(text, chars, classes)
  {
    hide WritesMember;
  }

  /** What is written for a set is parsed, up to a bracket or the end of the text. */
  lemma {:induction false} SetBodyIsParsed(src: Source, p: nat, r: Regex, body: seq<Byte>)
    requires r.Set? && Occurs(src.text, p, body) && WritesSet(r.negated, r.members, body, src.classes)
    requires At(src.text, p + |body|) in {NUL, CLOSE_BRACKET}
    ensures ParseSetBody(src, p) == Ok(r, p + |body|)
  {
    hide WritesMembers, ParseMembers, UpToNul, Once, Occurs;
    var members := if r.negated then body[1..] else body;
    var q := if r.negated then p + 1 else p;
    var chars: seq<Byte> :| WritesMembers(members, chars, src.classes) && chars != [] && UpToFirstNul(r.members, Once(chars));
    OccursSlice(src.text, p, body);
    if body != [] {
      OccursHead(src.text, p, body);
    }
    OccursSlice(src.text, q, members);
    MembersAreParsed(src, p, q, members, chars);
    OnceOfSome(chars);
    MembersEnd(src, p, q + |members|, Once(chars));
    UpToFirstNulUnique(r.members, Once(chars));
  }

  lemma {:induction false} SetIsParsed(src: Source, p: nat, r: Regex, body: seq<Byte>)
    requires r.Set? && Occurs(src.text, p, body + [CLOSE_BRACKET]) && WritesSet(r.negated, r.members, body, src.classes)
    ensures ParseSet(src, p) == Ok(r, p + |body| + 1)
  {
    hide Occurs, WritesSet, ParseSetBody;
    OccursParts(src.text, p, body, [CLOSE_BRACKET]);
    OccursHead(src.text, p + |body|, [CLOSE_BRACKET]);
    SetBodyIsParsed(src, p, r, body);
  }

  lemma {:induction false} MembersEnd(src: Source, start: nat, q: nat, acc: seq<Byte>)
    requires start <= q <= |src.text| && At(src.text, q) in {NUL, CLOSE_BRACKET}
    ensures ParseMembers(src, start, q, acc) == if acc == [] then Fail(IllegalSet, start) else Ok(acc, q)
  {}

  lemma {:induction false} SetIsWritten(src: Source, p: nat)
    requires p <= |src.text| && ParseSet(src, p).Ok?
    ensures var s := ParseSet(src, p);
            src.text[s.pos - 1] == CLOSE_BRACKET && WritesSet(s.value.negated, s.value.members, src.text[p..s.pos - 1], src.classes)
  {
    hide WritesMembers, ParseMembers, UpToNul, Once;
    var s := ParseSet(src, p);
    var q := if s.value.negated then p + 1 else p;
    OnceOfSome([]);
    NoMembers(src.text, q, src.classes);
    var chars := MembersAreWritten(src, p, q, q, []);
    UpToNulIsPrefix(Once(chars));
    var body := src.text[p..s.pos - 1];
    assert if s.value.negated then body[1..] == src.text[q..s.pos - 1] else body == src.text[q..s.pos - 1];
  }

  lemma {:induction false} NoMembers(text: seq<Byte>, q: nat, classes: map<seq<Byte>, seq<Byte>>)
    requires q <= |text|
    ensures WritesMembers(text[q..q], [], classes)
  {}

  // ---------- What is written is parsed: patterns ----------

  /** The first character of a term is one that starts an operand. */
  lemma {:induction false} TermStarts(r: Regex, text: seq<Byte>, classes: map<seq<Byte>, seq<Byte>>)
    requires WritesTerm(r, text, classes)
    ensures text != [] && (text[0] == OPEN_PAREN || text[0] == OPEN_BRACKET || Letter(text[0]))
    decreases r, 2
  {
    hide WritesSet, WritesExpr, WritesCount;
    if r.Cat? {
      var k := JointOf(r, text, classes);
      FactorStarts(r.first, text[..k], classes);
    } else {
      FactorStarts(r, text, classes);
    }
  }

  lemma {:induction false} FactorStarts(r: Regex, text: seq<Byte>, classes: map<seq<Byte>, seq<Byte>>)
    requires WritesFactor(r, text, classes)
    ensures text != [] && (text[0] == OPEN_PAREN || text[0] == OPEN_BRACKET || Letter(text[0]))
  {
    hide WritesSet, WritesExpr, WritesCount;
    if r.Times? {
      var base, count := BraceOf(r, text, classes);
    }
  }

  /** Where an alternative is cut. */
  lemma {:induction false} BarOf(r: Regex, text: seq<Byte>, classes: map<seq<Byte>, seq<Byte>>) returns (k: nat)
    requires r.Alt? && WritesExpr(r, text, classes)
    ensures k < |text| && text == text[..k] + ([BAR] + text[k + 1..])
    ensures WritesTerm(r.left, text[..k], classes) && WritesExpr(r.right, text[k + 1..], classes)
  {
    k :| 0 <= k < |text| && text[k] == BAR && WritesTerm(r.left, text[..k], classes) && WritesExpr(r.right, text[k + 1..], classes);
  }

  lemma {:induction false} AltParses(src: Source, p: nat, left: Regex, q: nat, right: Regex, e: nat)
    requires p <= |src.text| && ParseTerm(src, p) == Ok(left, q)
    requires q < |src.text| && At(src.text, q) == BAR && ParseExpr(src, q + 1) == Ok(right, e)
    ensures ParseExpr(src, p) == Ok(Alt(left, right), e)
  {
    hide ParseTerm;
  }

  lemma {:induction false} TermIsExpr(src: Source, r: Regex, p: nat, text: seq<Byte>)
    requires p <= |src.text| && !r.Alt?
    ensures WritesExpr(r, text, src.classes) <==> WritesTerm(r, text, src.classes)
    ensures ParseTerm(src, p) == Ok(r, p + |text|) && At(src.text, p + |text|) != BAR ==> ParseExpr(src, p) == ParseTerm(src, p)
  {
    hide WritesTerm, ParseTerm;
  }

  lemma {:induction false} StopsOfParts(r: Regex, c: Byte)
    requires Stops(r, c)
    ensures c !in {BAR, OPEN_PAREN, OPEN_BRACKET} && !Letter(c)
    ensures (r.Alt? ==> Stops(r.right, c)) && (r.Cat? ==> Stops(r.rest, c))
    ensures !r.Alt? && !r.Cat? && c in {STAR, PLUS, OPEN_BRACE} ==> r.Star? || r.Plus? || r.Times?
  {}

  lemma {:induction false} ExprIsParsed(src: Source, r: Regex, p: nat, text: seq<Byte>)
    requires Occurs(src.text, p, text) && WritesExpr(r, text, src.classes) && Stops(r, At(src.text, p + |text|))
    ensures ParseExpr(src, p) == Ok(r, p + |text|)
    decreases r, 3
  {
    hide Occurs, ParseTerm, WritesTerm, WritesExpr, ParseExpr, Stops;
    OccursSlice(src.text, p, text);
    StopsOfParts(r, At(src.text, p + |text|));
    if r.Alt? {
      var k := BarOf(r, text, src.classes);
      OccursParts(src.text, p, text[..k], [BAR] + text[k + 1..]);
      OccursHead(src.text, p + k, [BAR] + text[k + 1..]);
      assert ([BAR] + text[k + 1..])[1..] == text[k + 1..];
      TermIsParsed(src, r.left, p, text[..k]);
      ExprIsParsed(src, r.right, p + k + 1, text[k + 1..]);
      AltParses(src, p, r.left, p + k, r.right, p + |text|);
    } else {
      TermIsExpr(src, r, p, text);
      TermIsParsed(src, r, p, text);
    }
  }

  /** Where a concatenation is cut. */
  lemma {:induction false} JointOf(r: Regex, text: seq<Byte>, classes: map<seq<Byte>, seq<Byte>>) returns (k: nat)
    requires r.Cat? && WritesTerm(r, text, classes)
    ensures k <= |text| && text == text[..k] + text[k..]
    ensures WritesFactor(r.first, text[..k], classes) && WritesTerm(r.rest, text[k..], classes)
  {
    k :| 0 <= k <= |text| && WritesFactor(r.first, text[..k], classes) && WritesTerm(r.rest, text[k..], classes);
  }

  lemma {:induction false} CatParses(src: Source, p: nat, first: Regex, q: nat, rest: Regex, e: nat)
    requires p <= |src.text| && ParseFactor(src, p) == Ok(first, q) && q <= |src.text|
    requires var c := At(src.text, q); c == OPEN_PAREN || c == OPEN_BRACKET || Letter(c)
    requires ParseTerm(src, q) == Ok(rest, e)
    ensures ParseTerm(src, p) == Ok(Cat(first, rest), e)
  {
    hide ParseFactor;
  }

  lemma {:induction false} FactorIsTerm(src: Source, r: Regex, p: nat, text: seq<Byte>)
    requires p <= |src.text| && !r.Cat? && WritesTerm(r, text, src.classes)
    ensures WritesFactor(r, text, src.classes) && !r.Alt?
    ensures var c := At(src.text, p + |text|);
            ParseFactor(src, p) == Ok(r, p + |text|) && c != OPEN_PAREN && c != OPEN_BRACKET && !Letter(c) ==>
              ParseTerm(src, p) == ParseFactor(src, p)
  {
    hide ParseFactor;
  }

  lemma {:induction false} TermIsParsed(src: Source, r: Regex, p: nat, text: seq<Byte>)
    requires Occurs(src.text, p, text) && WritesTerm(r, text, src.classes)
    requires Stops(r, At(src.text, p + |text|)) || At(src.text, p + |text|) == BAR
    ensures ParseTerm(src, p) == Ok(r, p + |text|)
    decreases r, 2
  {
    hide Occurs, ParseFactor, WritesFactor, WritesTerm, ParseTerm, Stops;
    OccursSlice(src.text, p, text);
    if Stops(r, At(src.text, p + |text|)) {
      StopsOfParts(r, At(src.text, p + |text|));
    }
    if r.Cat? {
      var k := JointOf(r, text, src.classes);
      OccursParts(src.text, p, text[..k], text[k..]);
      TermStarts(r.rest, text[k..], src.classes);
      OccursHead(src.text, p + k, text[k..]);
      FactorIsParsed(src, r.first, p, text[..k]);
      TermIsParsed(src, r.rest, p + k, text[k..]);
      CatParses(src, p, r.first, p + k, r.rest, p + |text|);
    } else {
      FactorIsTerm(src, r, p, text);
      FactorIsParsed(src, r, p, text);
    }
  }

  /** Where the count starts. */
  lemma {:induction false} BraceOf(r: Regex, text: seq<Byte>, classes: map<seq<Byte>, seq<Byte>>) returns (base: seq<Byte>, count: seq<Byte>)
    requires r.Times? && WritesFactor(r, text, classes)
    ensures text == base + count && WritesBase(r.base, base, classes) && WritesCount(r.count, count)
  {
    hide WritesBase, WritesCount;
    var k :| 0 <= k <= |text| && WritesBase(r.base, text[..k], classes) && WritesCount(r.count, text[k..]);
    base, count := text[..k], text[k..];
  }

  lemma {:induction false} PostfixParses(src: Source, p: nat, base: Regex, q: nat)
    requires p <= |src.text| && ParseBase(src, p) == Ok(base, q)
    ensures var c, f := At(src.text, q), ParseFactor(src, p);
            && (c == STAR ==> f == Ok(Star(base), q + 1))
            && (c == PLUS ==> f == Ok(Plus(base), q + 1))
            && (c == OPEN_BRACE ==> var n := ParseCount(src.text, q); n.Ok? ==> f == Ok(Times(base, n.value), n.pos))
            && (c !in {STAR, PLUS, OPEN_BRACE} ==> f == Ok(base, q))
  {
    hide ParseBase, ParseCount;
  }

  lemma {:induction false} CountFollows(src: Source, r: Regex, p: nat, q: nat, count: seq<Byte>)
    requires p <= |src.text| && r.Times? && ParseBase(src, p) == Ok(r.base, q)
    requires Occurs(src.text, q, count) && WritesCount(r.count, count)
    ensures ParseFactor(src, p) == Ok(r, q + |count|)
  {
    hide Occurs, ParseFactor, ParseBase, ParseCount, WritesCount;
    CountIsParsed(src.text, q, r.count, count);
    PostfixParses(src, p, r.base, q);
  }

  /** The text of a factor with a one-character operator. */
  lemma {:induction false} OperatorOf(r: Regex, text: seq<Byte>, classes: map<seq<Byte>, seq<Byte>>) returns (base: seq<Byte>, op: Byte)
    requires (r.Star? || r.Plus?) && WritesFactor(r, text, classes)
    ensures text == base + [op] && op == (if r.Star? then STAR else PLUS) && WritesBase(r.base, base, classes)
  {
    hide WritesBase;
    base, op := text[..|text| - 1], text[|text| - 1];
  }

  lemma {:induction false} NoOperator(r: Regex, text: seq<Byte>, classes: map<seq<Byte>, seq<Byte>>)
    requires WritesFactor(r, text, classes) && !r.Star? && !r.Plus? && !r.Times?
    ensures WritesBase(r, text, classes)
  {
    hide WritesBase;
  }

  lemma {:induction false} FactorIsParsed(src: Source, r: Regex, p: nat, text: seq<Byte>)
    requires Occurs(src.text, p, text) && WritesFactor(r, text, src.classes)
    requires At(src.text, p + |text|) in {STAR, PLUS, OPEN_BRACE} ==> r.Star? || r.Plus? || r.Times?
    ensures ParseFactor(src, p) == Ok(r, p + |text|)
    decreases r, 1
  {
    hide Occurs, ParseFactor, ParseBase, ParseCount, WritesFactor, WritesBase, WritesCount;
    OccursSlice(src.text, p, text);
    if r.Times? {
      var base, count := BraceOf(r, text, src.classes);
      OccursParts(src.text, p, base, count);
      BaseIsParsed(src, r.base, p, base);
      CountFollows(src, r, p, p + |base|, count);
    } else if r.Star? || r.Plus? {
      var base, op := OperatorOf(r, text, src.classes);
      OccursParts(src.text, p, base, [op]);
      OccursHead(src.text, p + |base|, [op]);
      BaseIsParsed(src, r.base, p, base);
      PostfixParses(src, p, r.base, p + |base|);
    } else {
      NoOperator(r, text, src.classes);
      BaseIsParsed(src, r, p, text);
      PostfixParses(src, p, r, p + |text|);
    }
  }

  lemma {:induction false} BaseIsParsed(src: Source, r: Regex, p: nat, text: seq<Byte>)
    requires Occurs(src.text, p, text) && WritesBase(r, text, src.classes)
    ensures ParseBase(src, p) == Ok(r, p + |text|)
    decreases r, 0
  {
    hide Occurs, ParseExpr, ParseSet, WritesExpr, WritesSet;
    OccursSlice(src.text, p, text);
    OccursHead(src.text, p, text);
    if r.Group? || r.Set? {
      var body, close := text[1..|text| - 1], text[|text| - 1];
      assert text[1..] == body + [close];
      OccursParts(src.text, p + 1, body, [close]);
      OccursHead(src.text, p + 1 + |body|, [close]);
      if r.Group? {
        ExprIsParsed(src, r.body, p + 1, body);
      } else {
        SetIsParsed(src, p + 1, r, body);
      }
    } else if |text| == 2 {
      OccursHead(src.text, p + 1, text[1..]);
    }
  }

  // ---------- What is parsed is written ----------

  lemma {:induction false} CutSlice(text: seq<Byte>, p: nat, q: nat, e: nat)
    requires p <= q <= e <= |text|
    ensures text[p..e][..q - p] == text[p..q] && text[p..e][q - p..] == text[q..e]
    ensures q < e ==> text[p..e][q - p] == text[q] && text[p..e][q - p + 1..] == text[q + 1..e]
  {}

  lemma {:induction false} ExprIsWritten(src: Source, p: nat)
    requires p <= |src.text| && ParseExpr(src, p).Ok?
    ensures var e := ParseExpr(src, p);
            WritesExpr(e.value, src.text[p..e.pos], src.classes) && Stops(e.value, At(src.text, e.pos))
    decreases |src.text| - p, 3
  {
    hide ParseTerm, WritesTerm;
    var t, e := ParseTerm(src, p), ParseExpr(src, p);
    TermIsWritten(src, p);
    if At(src.text, t.pos) == BAR {
      ExprIsWritten(src, t.pos + 1);
      CutSlice(src.text, p, t.pos, e.pos);
    }
  }

  lemma {:induction false} TermIsWritten(src: Source, p: nat)
    requires p <= |src.text| && ParseTerm(src, p).Ok?
    ensures var t := ParseTerm(src, p);
            WritesTerm(t.value, src.text[p..t.pos], src.classes) && (Stops(t.value, At(src.text, t.pos)) || At(src.text, t.pos) == BAR)
    decreases |src.text| - p, 2
  {
    hide ParseFactor, WritesFactor;
    var f, t := ParseFactor(src, p), ParseTerm(src, p);
    FactorIsWritten(src, p);
    if t.pos != f.pos {
      TermIsWritten(src, f.pos);
      CutSlice(src.text, p, f.pos, t.pos);
    }
  }

  lemma {:induction false} FactorIsWritten(src: Source, p: nat)
    requires p <= |src.text| && ParseFactor(src, p).Ok?
    ensures var f := ParseFactor(src, p);
            && WritesFactor(f.value, src.text[p..f.pos], src.classes)
            && (At(src.text, f.pos) in {STAR, PLUS, OPEN_BRACE} ==> f.value.Star? || f.value.Plus? || f.value.Times?)
    decreases |src.text| - p, 1
  {
    hide ParseBase, ParseCount, WritesBase, WritesCount;
    var b, f := ParseBase(src, p), ParseFactor(src, p);
    BaseIsWritten(src, p);
    CutSlice(src.text, p, b.pos, f.pos);
    if f.value.Times? {
      CountIsWritten(src.text, b.pos);
    }
  }

  lemma {:induction false} BaseIsWritten(src: Source, p: nat)
    requires p <= |src.text| && ParseBase(src, p).Ok?
    ensures var b := ParseBase(src, p); WritesBase(b.value, src.text[p..b.pos], src.classes)
    decreases |src.text| - p, 0
  {
    hide ParseExpr, ParseSet, WritesExpr, WritesSet;
    var b := ParseBase(src, p);
    var text := src.text[p..b.pos];
    if b.value.Set? {
      SetIsWritten(src, p + 1);
      InnerSlice(src.text, p, b.pos);
    } else if b.value.Group? {
      ExprIsWritten(src, p + 1);
      InnerSlice(src.text, p, b.pos);
    }
  }

  // ---------- The parser reads exactly what is written ----------

  /** The parser reads a tree up to a position exactly when the text up to there is written for the tree and the pattern ends there. */
  lemma {:induction false} ParsesExactlyWhatIsWritten(src: Source, r: Regex, pos: nat)
    ensures ParseExpr(src, 0) == Ok(r, pos) <==> Denotes(src, r, pos)
  {
    hide ParseExpr, WritesExpr, Stops;
    if ParseExpr(src, 0) == Ok(r, pos) {
      ExprIsWritten(src, 0);
      assert src.text[0..pos] == src.text[..pos];
    }
    if Denotes(src, r, pos) {
      assert Occurs(src.text, 0, src.text[..pos]);
      ExprIsParsed(src, r, 0, src.text[..pos]);
    }
  }

  lemma {:induction false} ParserDecidesNotation(src: Source)
    ensures forall r: Regex, pos: nat :: Denotes(src, r, pos) <==> ParseExpr(src, 0) == Ok(r, pos)
    ensures ParseExpr(src, 0).Ok? <==> exists r: Regex, pos: nat :: Denotes(src, r, pos)
  {
    hide ParseExpr, Denotes;
    forall r: Regex, pos: nat ensures Denotes(src, r, pos) <==> ParseExpr(src, 0) == Ok(r, pos) {
      ParsesExactlyWhatIsWritten(src, r, pos);
    }
    var p := ParseExpr(src, 0);
    if p.Ok? {
      assert Denotes(src, p.value, p.pos);
    }
  }

  /** A text is written for at most one tree, and it is parsed to its end. */
  lemma {:induction false} WrittenForOneTree(r: Regex, r': Regex, text: seq<Byte>, classes: map<seq<Byte>, seq<Byte>>)
    requires WritesExpr(r, text, classes)
    ensures ParseExpr(Source(text, classes), 0) == Ok(r, |text|) && WellShaped(r)
    ensures WritesExpr(r', text, classes) ==> r' == r
  {
    hide ParseExpr, WritesExpr;
    var src := Source(text, classes);
    assert text[..|text|] == text;
    ParsesExactlyWhatIsWritten(src, r, |text|);
    ParsesExactlyWhatIsWritten(src, r', |text|);
  }
}
