/**
 What the parser's error numbers and positions mean. An error is reported where an operand,
 a count, a set or a closing parenthesis is due and something else stands; the text in
 front of it is described by the notation alone.
 */
module Failures {
  import opened Bytes
  import opened Patterns
  import opened Syntax
  import opened Writing

  // ---------- The place of an error ----------

  ghost predicate SomeTerm(text: seq<Byte>, classes: map<seq<Byte>, seq<Byte>>) {
    exists r: Regex :: WritesTerm(r, text, classes)
  }

  ghost predicate SomeBase(text: seq<Byte>, classes: map<seq<Byte>, seq<Byte>>) {
    exists r: Regex :: WritesBase(r, text, classes)
  }

  ghost predicate SomeCount(text: seq<Byte>) {
    exists n: nat :: WritesCount(n, text)
  }

  /** Behind the text `u` an expression is due: at the beginning, after a term and '|', or after '(', alone or behind a term. */
  ghost predicate ExprDue(u: seq<Byte>, classes: map<seq<Byte>, seq<Byte>>)
    decreases |u|
  {
    u == [] ||
    var last := |u| - 1;
    exists k | 0 <= k <= last ::
      && ExprDue(u[..k], classes)
      && if u[last] == '(' as int then k == last || SomeTerm(u[k..last], classes)
         else u[last] == '|' as int && SomeTerm(u[k..last], classes)
  }

  /** An operand may begin at `p`: where an expression is due or after a term. */
  ghost predicate OperandDue(src: Source, p: nat) {
    exists k | 0 <= k <= p <= |src.text| ::
      ExprDue(src.text[..k], src.classes) && (k == p || SomeTerm(src.text[k..p], src.classes))
  }

  /** An operand ends right before `at`. */
  ghost predicate AfterBase(src: Source, at: nat) {
    exists k | 0 <= k <= at <= |src.text| :: OperandDue(src, k) && SomeBase(src.text[k..at], src.classes)
  }

  /** `at` is behind a character `c` that begins an operand. */
  ghost predicate After(src: Source, at: nat, c: Byte) {
    0 < at <= |src.text| && src.text[at - 1] == c && OperandDue(src, at - 1)
  }

  // ---------- The reasons ----------

  ghost predicate ParenUnclosed(src: Source, at: nat) {
    exists k, r: Regex | 0 <= k <= at <= |src.text| ::
      && After(src, k, '(' as int) && WritesExpr(r, src.text[k..at], src.classes)
      && Stops(r, At(src.text, at)) && At(src.text, at) != ')' as int
  }

  /** No closing brace before the end of the text. */
  ghost predicate BraceUnclosed(src: Source, at: nat) {
    exists e: nat :: EndsWithoutBrace(src.text, at, e)
  }

  predicate EndsWithoutBrace(text: seq<Byte>, at: nat, e: nat) {
    at < e <= |text| && At(text, e) == 0 && '}' as int !in text[at + 1..e]
  }

  /** What stands between the braces is not a number of at least 2. */
  ghost predicate NoCount(src: Source, at: nat) {
    exists e: nat :: EndsWithBrace(src.text, at, e) && !SomeCount(src.text[at..e + 1])
  }

  predicate EndsWithBrace(text: seq<Byte>, at: nat, e: nat) {
    at < e < |text| && text[e] == '}' as int && 0 !in text[at + 1..e] && '}' as int !in text[at + 1..e]
  }

  /** After members for the characters `seen`, no member can be read at `q`: the error it is. */
  ghost predicate MemberFails(src: Source, e: Error, q: nat, seen: seq<Byte>) {
    var c, d := At(src.text, q), At(src.text, q + 1);
    match e
    case IllegalSet =>
      || (c in {0, ']' as int} && seen == [])
      || (c == '\\' as int && d == 0)
      || (c == '-' as int && seen != [] && d in {0, ']' as int})
    case Diverges =>
      c == '-' as int && seen != [] && d !in {0, ']' as int} && 0 < q <= |src.text| && (src.text[q - 1] == 127 || d == 127)
    case IllegalSymbolicName =>
      c == ':' as int && forall j: nat, chars: seq<Byte> | q <= j <= |src.text| :: !WritesClass(src.text[q..j], chars, src.classes)
    case _ => false
  }

  /** A set starts at `at`, behind its bracket, and breaks off with an error. */
  ghost predicate SetFails(src: Source, e: Error, at: nat) {
    && After(src, at, '[' as int)
    && var first := if At(src.text, at) == '^' as int then at + 1 else at;
    && exists q, seen: seq<Byte> | first <= q <= |src.text| ::
      WritesMembers(src.text[first..q], seen, src.classes) && MemberFails(src, e, q, seen)
  }

  /** A set whose members are fine, but the text ends before its bracket. */
  ghost predicate SetUnclosed(src: Source, at: nat) {
    && At(src.text, at) == 0
    && exists k, negated, members: seq<Byte> | 0 <= k <= at <= |src.text| ::
         After(src, k, '[' as int) && WritesSet(negated, members, src.text[k..at], src.classes)
  }

  /** The reason for the error `e` reported at `at`. */
  ghost predicate Explains(src: Source, e: Error, at: nat) {
    var c := At(src.text, at);
    at <= |src.text| &&
    match e
    case UnexpectedSymbol =>
      ExprDue(src.text[..at], src.classes) &&
      c in {0, ')' as int, '{' as int, '}' as int, '|' as int, '*' as int, '+' as int, ']' as int}
    case MissingParenClose => ParenUnclosed(src, at)
    case UnexpectedEop => (c == 0 && After(src, at, '\\' as int)) || (c == '{' as int && AfterBase(src, at) && BraceUnclosed(src, at))
    case IllegalNumber => c == '{' as int && AfterBase(src, at) && NoCount(src, at)
    case IllegalSet => SetFails(src, e, at) || SetUnclosed(src, at)
    case IllegalSymbolicName => SetFails(src, e, at)
    case Diverges => SetFails(src, e, at)
  }

  /** Somewhere there is a reason for the error `e`. */
  ghost predicate Reported(src: Source, e: Error) {
    exists at: nat :: Explains(src, e, at)
  }

  // ---------- Every error has its reason ----------

  /** The parser goes on with an operand. */
  predicate Starts(c: Byte) {
    c == OPEN_PAREN || c == OPEN_BRACKET || Letter(c)
  }

  lemma {:induction false} FactorIsATerm(r: Regex, text: seq<Byte>, classes: map<seq<Byte>, seq<Byte>>)
    requires WritesFactor(r, text, classes)
    ensures WritesTerm(r, text, classes)
  {}

  /** A factor behind a term makes a longer term. */
  lemma {:induction false} AppendFactor(t: Regex, x: seq<Byte>, f: Regex, y: seq<Byte>, classes: map<seq<Byte>, seq<Byte>>) returns (r: Regex)
    requires WritesTerm(t, x, classes) && WritesFactor(f, y, classes)
    ensures WritesTerm(r, x + y, classes)
    decreases t
  {
    hide WritesFactor, WritesTerm;
    if t.Cat? {
      var k := JointOf(t, x, classes);
      var rest := AppendFactor(t.rest, x[k..], f, y, classes);
      r := Cat(t.first, rest);
      assert (x + y)[..k] == x[..k] && (x + y)[k..] == x[k..] + y;
      TermsJoin(t.first, rest, x + y, k, x[k..] + y, classes);
    } else {
      r := Cat(t, f);
      FactorIsATerm(f, y, classes);
      TermIsFactor(t, x, classes);
      assert (x + y)[..|x|] == x && (x + y)[|x|..] == y;
      TermsJoin(t, f, x + y, |x|, y, classes);
    }
  }

  lemma {:induction false} TermIsFactor(t: Regex, x: seq<Byte>, classes: map<seq<Byte>, seq<Byte>>)
    requires !t.Cat? && WritesTerm(t, x, classes)
    ensures WritesFactor(t, x, classes)
  {}

  lemma {:induction false} TermsJoin(first: Regex, rest: Regex, text: seq<Byte>, k: nat, tail: seq<Byte>, classes: map<seq<Byte>, seq<Byte>>)
    requires k <= |text| && text[k..] == tail && WritesFactor(first, text[..k], classes) && WritesTerm(rest, tail, classes)
    ensures WritesTerm(Cat(first, rest), text, classes)
  {
    hide WritesFactor;
  }

  lemma {:induction false} DueAtExpr(src: Source, p: nat)
    requires p <= |src.text| && ExprDue(src.text[..p], src.classes)
    ensures OperandDue(src, p)
  {}

  lemma {:induction false} DueAfterParen(src: Source, p: nat)
    requires p < |src.text| && src.text[p] == OPEN_PAREN && OperandDue(src, p)
    ensures ExprDue(src.text[..p + 1], src.classes)
  {
    hide SomeTerm;
    var u := src.text[..p + 1];
    var k :| 0 <= k <= p && ExprDue(src.text[..k], src.classes) && (k == p || SomeTerm(src.text[k..p], src.classes));
    assert u[..k] == src.text[..k] && u[k..p] == src.text[k..p] && u[p] == OPEN_PAREN && |u| - 1 == p;
  }

  lemma {:induction false} DueAfterBar(src: Source, p: nat, q: nat, r: Regex)
    requires p <= q < |src.text| && src.text[q] == BAR
    requires ExprDue(src.text[..p], src.classes) && WritesTerm(r, src.text[p..q], src.classes)
    ensures ExprDue(src.text[..q + 1], src.classes)
  {
    hide WritesTerm;
    var u := src.text[..q + 1];
    assert u[..p] == src.text[..p] && u[p..q] == src.text[p..q] && SomeTerm(u[p..q], src.classes) && |u| - 1 == q;
  }

  lemma {:induction false} DueAfterFactor(src: Source, p: nat, q: nat, f: Regex)
    requires OperandDue(src, p) && p <= q <= |src.text| && WritesFactor(f, src.text[p..q], src.classes)
    ensures OperandDue(src, q)
  {
    hide WritesFactor, WritesTerm, ExprDue;
    var k :| 0 <= k <= p && ExprDue(src.text[..k], src.classes) && (k == p || SomeTerm(src.text[k..p], src.classes));
    var y := src.text[p..q];
    if k == p {
      FactorIsATerm(f, y, src.classes);
      assert SomeTerm(src.text[k..q], src.classes);
    } else {
      var x := src.text[k..p];
      var t :| WritesTerm(t, x, src.classes);
      var r := AppendFactor(t, x, f, y, src.classes);
      assert x + y == src.text[k..q];
    }
  }

  lemma {:induction false} ExprFails(src: Source, p: nat)
    requires p <= |src.text| && ExprDue(src.text[..p], src.classes) && ParseExpr(src, p).Fail?
    ensures var f := ParseExpr(src, p); Explains(src, f.error, f.at)
    decreases |src.text| - p, 3
  {
    hide ParseTerm, WritesTerm, Explains, ExprDue, OperandDue;
    var t := ParseTerm(src, p);
    if t.Fail? {
      DueAtExpr(src, p);
      TermFails(src, p);
    } else {
      TermIsWritten(src, p);
      DueAfterBar(src, p, t.pos, t.value);
      ExprFails(src, t.pos + 1);
    }
  }

  lemma {:induction false} TermFails(src: Source, p: nat)
    requires OperandDue(src, p) && p <= |src.text| && ParseTerm(src, p).Fail?
    requires Starts(At(src.text, p)) || ExprDue(src.text[..p], src.classes)
    ensures var f := ParseTerm(src, p); Explains(src, f.error, f.at)
    decreases |src.text| - p, 2
  {
    hide ParseFactor, WritesFactor, Explains, ExprDue, OperandDue;
    var t := ParseFactor(src, p);
    if t.Fail? {
      FactorFails(src, p);
    } else {
      FactorIsWritten(src, p);
      DueAfterFactor(src, p, t.pos, t.value);
      TermFails(src, t.pos);
    }
  }

  lemma {:induction false} FactorFails(src: Source, p: nat)
    requires OperandDue(src, p) && p <= |src.text| && ParseFactor(src, p).Fail?
    requires Starts(At(src.text, p)) || ExprDue(src.text[..p], src.classes)
    ensures var f := ParseFactor(src, p); Explains(src, f.error, f.at)
    decreases |src.text| - p, 1
  {
    hide ParseBase, ParseCount, WritesBase, ExprDue, OperandDue, Explains;
    var b := ParseBase(src, p);
    if b.Fail? {
      BaseFails(src, p);
    } else {
      BaseIsWritten(src, p);
      assert SomeBase(src.text[p..b.pos], src.classes);
      CountFails(src, b.pos);
    }
  }

  lemma {:induction false} CountFails(src: Source, p: nat)
    requires p < |src.text| && src.text[p] == OPEN_BRACE && AfterBase(src, p) && ParseCount(src.text, p).Fail?
    ensures var f := ParseCount(src.text, p); Explains(src, f.error, f.at)
  {
    hide AfterBase, BraceEnd, WritesCount, Atoi;
    var e := BraceEnd(src.text, p + 1);
    BeforeBrace(src.text, p + 1);
    if At(src.text, e) == NUL {
      assert EndsWithoutBrace(src.text, p, e);
    } else {
      NotACount(src.text, p, src.text[p..e + 1]);
      assert EndsWithBrace(src.text, p, e);
    }
  }

  lemma {:induction false} NotACount(text: seq<Byte>, p: nat, s: seq<Byte>)
    requires Occurs(text, p, s) && p < |text| && ParseCount(text, p).Fail?
    ensures !SomeCount(s)
  {
    hide ParseCount, WritesCount;
    if n: nat :| WritesCount(n, s) {
      CountIsParsed(text, p, n, s);
    }
  }

  lemma {:induction false} BaseFails(src: Source, p: nat)
    requires OperandDue(src, p) && p <= |src.text| && ParseBase(src, p).Fail?
    requires Starts(At(src.text, p)) || ExprDue(src.text[..p], src.classes)
    ensures var f := ParseBase(src, p); Explains(src, f.error, f.at)
    decreases |src.text| - p, 0
  {
    hide ParseExpr, ParseSet, ExprDue, OperandDue, SetFails, SetUnclosed, WritesExpr, Stops;
    var c := At(src.text, p);
    if c == OPEN_BRACKET {
      SetOrMemberFails(src, p + 1);
    } else if c == OPEN_PAREN {
      var e := ParseExpr(src, p + 1);
      if e.Fail? {
        DueAfterParen(src, p);
        ExprFails(src, p + 1);
      } else {
        ExprIsWritten(src, p + 1);
        assert After(src, p + 1, OPEN_PAREN);
      }
    }
  }

  // ---------- Sets ----------

  lemma {:induction false} SetOrMemberFails(src: Source, p: nat)
    requires After(src, p, OPEN_BRACKET) && ParseSet(src, p).Fail?
    ensures var f := ParseSet(src, p); Explains(src, f.error, f.at)
  {
    hide After, ParseMembers, WritesMembers, Once, UpToNul, MemberFails;
    var first := if At(src.text, p) == CARET then p + 1 else p;
    OnceOfSome([]);
    NoMembers(src.text, first, src.classes);
    var m := ParseMembers(src, p, first, []);
    if m.Fail? {
      var q, seen := MembersFail(src, p, first, first, []);
      SetErrors(src, m.error, q, seen);
    } else {
      var chars := MembersAreWritten(src, p, first, first, []);
      UpToNulIsPrefix(Once(chars));
      var body := src.text[p..m.pos];
      assert At(src.text, p) == CARET ==> body[1..] == src.text[first..m.pos];
      assert WritesSet(At(src.text, p) == CARET, UpToNul(Once(chars)), body, src.classes);
    }
  }

  lemma {:induction false} MembersFail(src: Source, start: nat, first: nat, q: nat, seen: seq<Byte>) returns (q': nat, seen': seq<Byte>)
    requires start <= first <= q <= |src.text| && WritesMembers(src.text[first..q], seen, src.classes)
    requires ParseMembers(src, start, q, Once(seen)).Fail?
    ensures first <= q' <= |src.text| && WritesMembers(src.text[first..q'], seen', src.classes)
    ensures MemberFails(src, ParseMembers(src, start, q, Once(seen)).error, q', seen')
    decreases |src.text| - q
  {
    hide Once, WritesMember, ParseMember, WritesMembers, MemberFails;
    OnceOfSome(seen);
    if At(src.text, q) == NUL || At(src.text, q) == CLOSE_BRACKET {
      q', seen' := q, seen;
      NothingSeen(src, q);
    } else {
      SeenBefore(src.text[first..q], seen, src.classes);
      var m := ParseMember(src, start, q, Once(seen));
      if m.Fail? {
        q', seen' := q, seen;
        OneMemberFails(src, start, q, seen);
      } else {
        var added := MemberIsWritten(src, start, first, q, seen);
        OneMoreMember(src.text[first..q], seen, src.text[q..m.pos], added, src.classes);
        assert src.text[first..q] + src.text[q..m.pos] == src.text[first..m.pos];
        q', seen' := MembersFail(src, start, first, m.pos, seen + added);
      }
    }
  }

  lemma {:induction false} SetErrors(src: Source, e: Error, q: nat, seen: seq<Byte>)
    requires MemberFails(src, e, q, seen)
    ensures e.IllegalSet? || e.Diverges? || e.IllegalSymbolicName?
  {}

  lemma {:induction false} NothingSeen(src: Source, q: nat)
    requires At(src.text, q) in {NUL, CLOSE_BRACKET}
    ensures MemberFails(src, IllegalSet, q, [])
  {}

  lemma {:induction false} OneMemberFails(src: Source, start: nat, q: nat, seen: seq<Byte>)
    requires start <= q < |src.text| && (seen != [] ==> start < q) && ParseMember(src, start, q, Once(seen)).Fail?
    ensures MemberFails(src, ParseMember(src, start, q, Once(seen)).error, q, seen)
  {
    hide Once, AddRange, AddAll, NameEnd, Upper, WritesClass;
    OnceOfSome(seen);
    if src.text[q] == COLON {
      forall j: nat, chars: seq<Byte> | q <= j <= |src.text| ensures !WritesClass(src.text[q..j], chars, src.classes) {
        if WritesClass(src.text[q..j], chars, src.classes) {
          assert Occurs(src.text, q, src.text[q..j]);
          ClassIsParsed(src, start, q, seen, src.text[q..j], chars);
        }
      }
    }
  }

  // ---------- Every reason leads to its error ----------

  /** Behind a term the parser goes on with the next operand, and fails if that fails. */
  lemma {:induction false} TermGoesOn(src: Source, r: Regex, k: nat, p: nat)
    requires k <= p <= |src.text| && WritesTerm(r, src.text[k..p], src.classes)
    requires Starts(At(src.text, p)) && ParseTerm(src, p).Fail?
    ensures ParseTerm(src, k) == ParseTerm(src, p)
    decreases r
  {
    hide WritesTerm, WritesFactor, ParseFactor, ParseTerm;
    var text := src.text[k..p];
    if r.Cat? {
      var i := JointOf(r, text, src.classes);
      CutSlice(src.text, k, k + i, p);
      assert Occurs(src.text, k, text[..i]);
      TermStarts(r.rest, text[i..], src.classes);
      FactorIsParsed(src, r.first, k, text[..i]);
      TermGoesOn(src, r.rest, k + i, p);
      TermStep(src, k, r.first, k + i);
    } else {
      TermIsFactor(r, text, src.classes);
      assert Occurs(src.text, k, text);
      FactorIsParsed(src, r, k, text);
      TermStep(src, k, r, p);
    }
  }

  lemma {:induction false} TermStep(src: Source, k: nat, first: Regex, q: nat)
    requires k <= |src.text| && ParseFactor(src, k) == Ok(first, q) && Starts(At(src.text, q)) && ParseTerm(src, q).Fail?
    ensures ParseTerm(src, k) == ParseTerm(src, q)
  {
    hide ParseFactor;
  }

  lemma {:induction false} ExprStep(src: Source, k: nat, q: nat)
    requires k <= |src.text|
    ensures ParseTerm(src, k).Fail? ==> ParseExpr(src, k) == ParseTerm(src, k)
    ensures var t := ParseTerm(src, k);
            t.Ok? && t.pos == q && At(src.text, q) == BAR && ParseExpr(src, q + 1).Fail? ==> ParseExpr(src, k) == ParseExpr(src, q + 1)
  {
    hide ParseTerm;
  }

  /** An error in an expression that is due is the error of the whole. */
  lemma {:induction false} WholeFails(src: Source, p: nat)
    requires p <= |src.text| && ExprDue(src.text[..p], src.classes) && ParseExpr(src, p).Fail?
    ensures ParseExpr(src, 0) == ParseExpr(src, p)
    decreases p, 0
  {
    hide ParseExpr, ParseTerm, ExprDue, SomeTerm;
    if p > 0 {
      var k := DueBecause(src, p);
      if src.text[p - 1] == OPEN_PAREN {
        GroupFails(src, p - 1);
        OperandFails(src, k, p - 1);
      } else {
        RightOperandFails(src, k, p - 1);
        WholeFails(src, k);
      }
    }
  }

  /** Why an expression is due: where the one around it, or the alternative before it, begins. */
  lemma {:induction false} DueBecause(src: Source, p: nat) returns (k: nat)
    requires 0 < p <= |src.text| && ExprDue(src.text[..p], src.classes)
    ensures var last := p - 1;
            && k <= last && ExprDue(src.text[..k], src.classes)
            && if src.text[last] == OPEN_PAREN then k == last || SomeTerm(src.text[k..last], src.classes)
               else src.text[last] == BAR && SomeTerm(src.text[k..last], src.classes)
  {
    hide SomeTerm;
    var u := src.text[..p];
    var last := p - 1;
    k :| 0 <= k <= last && ExprDue(u[..k], src.classes)
         && if u[last] == OPEN_PAREN then k == last || SomeTerm(u[k..last], src.classes)
         else u[last] == BAR && SomeTerm(u[k..last], src.classes);
    assert u[..k] == src.text[..k] && u[k..last] == src.text[k..last];
  }

  lemma {:induction false} RightOperandFails(src: Source, k: nat, bar: nat)
    requires k <= bar < |src.text| && src.text[bar] == BAR && SomeTerm(src.text[k..bar], src.classes)
    requires ParseExpr(src, bar + 1).Fail?
    ensures ParseExpr(src, k) == ParseExpr(src, bar + 1)
  {
    hide ParseExpr, ParseTerm, WritesTerm;
    var t :| WritesTerm(t, src.text[k..bar], src.classes);
    assert Occurs(src.text, k, src.text[k..bar]);
    TermIsParsed(src, t, k, src.text[k..bar]);
    ExprStep(src, k, bar);
  }

  lemma {:induction false} GroupFails(src: Source, p: nat)
    requires p < |src.text| && src.text[p] == OPEN_PAREN && ParseExpr(src, p + 1).Fail?
    ensures ParseTerm(src, p) == ParseExpr(src, p + 1)
  {
    hide ParseExpr;
    assert ParseBase(src, p) == ParseExpr(src, p + 1);
    assert ParseFactor(src, p) == ParseExpr(src, p + 1);
  }

  /** An operand that fails at `p`, behind the term from `k` on if there is one. */
  lemma {:induction false} OperandFails(src: Source, k: nat, p: nat)
    requires k <= p <= |src.text| && ExprDue(src.text[..k], src.classes)
    requires k == p || (Starts(At(src.text, p)) && SomeTerm(src.text[k..p], src.classes))
    requires ParseTerm(src, p).Fail?
    ensures ParseExpr(src, 0) == ParseTerm(src, p)
    decreases p, 1
  {
    hide ParseExpr, ParseTerm, WritesTerm, ExprDue;
    if k < p {
      var t :| WritesTerm(t, src.text[k..p], src.classes);
      TermGoesOn(src, t, k, p);
    }
    ExprStep(src, k, 0);
    WholeFails(src, k);
  }

  /** An operand that begins at `p` and fails. */
  lemma {:induction false} DueOperandFails(src: Source, p: nat)
    requires OperandDue(src, p) && p <= |src.text| && Starts(At(src.text, p)) && ParseBase(src, p).Fail?
    ensures ParseExpr(src, 0) == ParseBase(src, p)
  {
    hide ParseExpr, ParseBase, ExprDue, SomeTerm;
    var k :| 0 <= k <= p && ExprDue(src.text[..k], src.classes) && (k == p || SomeTerm(src.text[k..p], src.classes));
    OperandFails(src, k, p);
  }

  lemma {:induction false} DueCountFails(src: Source, at: nat)
    requires AfterBase(src, at) && at < |src.text| && src.text[at] == OPEN_BRACE && ParseCount(src.text, at).Fail?
    ensures var n := ParseCount(src.text, at); ParseExpr(src, 0) == Fail(n.error, n.at)
  {
    hide ParseExpr, ParseBase, ParseCount, WritesBase, WritesTerm, ExprDue;
    var p :| 0 <= p <= at && OperandDue(src, p) && SomeBase(src.text[p..at], src.classes);
    var r :| WritesBase(r, src.text[p..at], src.classes);
    assert Occurs(src.text, p, src.text[p..at]);
    BaseIsParsed(src, r, p, src.text[p..at]);
    BaseStarts(src, p);
    var k :| 0 <= k <= p && ExprDue(src.text[..k], src.classes) && (k == p || SomeTerm(src.text[k..p], src.classes));
    OperandFails(src, k, p);
  }

  lemma {:induction false} BaseStarts(src: Source, p: nat)
    requires p <= |src.text| && ParseBase(src, p).Ok?
    ensures Starts(At(src.text, p))
  {
    hide ParseExpr, ParseSet;
  }

  lemma {:induction false} BraceReasons(src: Source, e: Error, at: nat)
    requires Explains(src, e, at) && At(src.text, at) == OPEN_BRACE && (e.UnexpectedEop? || e.IllegalNumber?)
    ensures ParseExpr(src, 0) == Fail(e, at)
  {
    hide AfterBase, ParseExpr, Atoi;
    BeforeBrace(src.text, at + 1);
    var b := BraceEnd(src.text, at + 1);
    if e.UnexpectedEop? {
      var z: nat :| EndsWithoutBrace(src.text, at, z);
      assert At(src.text, b) == NUL by { BraceBeyond(src.text, at, z); }
    } else {
      NoCountFails(src, at);
    }
    DueCountFails(src, at);
  }

  lemma {:induction false} BraceBeyond(text: seq<Byte>, at: nat, z: nat)
    requires EndsWithoutBrace(text, at, z)
    ensures At(text, BraceEnd(text, at + 1)) == NUL
  {
    BeforeBrace(text, at + 1);
    var b := BraceEnd(text, at + 1);
    assert forall i | at < i < b :: text[i] == text[at + 1..b][i - at - 1];
    if b < z {
      assert text[at + 1..z][b - at - 1] == text[b];
    }
  }

  lemma {:induction false} NoCountFails(src: Source, at: nat)
    requires at < |src.text| && src.text[at] == OPEN_BRACE && NoCount(src, at)
    ensures ParseCount(src.text, at) == Fail(IllegalNumber, at)
  {
    hide Atoi, WritesCount;
    var e: nat :| EndsWithBrace(src.text, at, e) && !SomeCount(src.text[at..e + 1]);
    BraceEndAt(src.text, at + 1, src.text[at + 1..e]);
    if ParseCount(src.text, at).Ok? {
      CountIsWritten(src.text, at);
    }
  }

  lemma {:induction false} SetReasons(src: Source, e: Error, at: nat)
    requires SetFails(src, e, at)
    ensures ParseExpr(src, 0) == Fail(e, at)
  {
    hide ParseExpr, WritesMembers, ParseMembers, MemberFails, OperandDue;
    var first := if At(src.text, at) == CARET then at + 1 else at;
    var q: nat, seen: seq<Byte> :| first <= q <= |src.text| && WritesMembers(src.text[first..q], seen, src.classes) && MemberFails(src, e, q, seen);
    assert Occurs(src.text, first, src.text[first..q]);
    MembersAreParsed(src, at, first, src.text[first..q], seen);
    SeenBefore(src.text[first..q], seen, src.classes);
    FailingMember(src, e, at, q, seen);
    SetParseFails(src, at, first, e);
    DueOperandFails(src, at - 1);
  }

  lemma {:induction false} SetParseFails(src: Source, at: nat, first: nat, e: Error)
    requires 0 < at <= |src.text| && src.text[at - 1] == OPEN_BRACKET
    requires first == (if At(src.text, at) == CARET then at + 1 else at)
    requires ParseMembers(src, at, first, []) == Fail(e, at)
    ensures ParseBase(src, at - 1) == Fail(e, at)
  {
    hide ParseMembers, ParseExpr;
  }

  lemma {:induction false} FailingMember(src: Source, e: Error, start: nat, q: nat, seen: seq<Byte>)
    requires start <= q <= |src.text| && MemberFails(src, e, q, seen) && (seen != [] ==> start < q)
    ensures ParseMembers(src, start, q, Once(seen)) == Fail(e, start)
  {
    hide Once, ParseMember, ParseMembers, WritesClass;
    OnceOfSome(seen);
    if At(src.text, q) in {NUL, CLOSE_BRACKET} {
      MembersEnd(src, start, q, Once(seen));
    } else {
      OneFailingMember(src, e, start, q, seen);
      MembersStep(src, start, q, Once(seen));
    }
  }

  lemma {:induction false} OneFailingMember(src: Source, e: Error, start: nat, q: nat, seen: seq<Byte>)
    requires start <= q < |src.text| && MemberFails(src, e, q, seen) && (seen != [] ==> start < q)
    requires At(src.text, q) !in {NUL, CLOSE_BRACKET}
    ensures ParseMember(src, start, q, Once(seen)) == Fail(e, start)
  {
    hide Once, AddRange, AddAll, NameEnd, Upper, WritesClass;
    OnceOfSome(seen);
    if src.text[q] == COLON && ParseMember(src, start, q, Once(seen)).Ok? {
      var chars := ClassIsWritten(src, start, q, seen);
    }
  }

  lemma {:induction false} UnclosedReasons(src: Source, at: nat)
    requires SetUnclosed(src, at)
    ensures at <= |src.text| ==> ParseExpr(src, 0) == Fail(IllegalSet, at)
  {
    hide ParseExpr, WritesSet, ParseSetBody, OperandDue;
    var k: nat, negated, members: seq<Byte> :| 0 <= k <= at <= |src.text| && After(src, k, OPEN_BRACKET)
                                               && WritesSet(negated, members, src.text[k..at], src.classes);
    assert Occurs(src.text, k, src.text[k..at]);
    SetBodyIsParsed(src, k, Set(negated, members), src.text[k..at]);
    DueOperandFails(src, k - 1);
  }

  lemma {:induction false} ParenReasons(src: Source, at: nat)
    requires ParenUnclosed(src, at)
    ensures ParseExpr(src, 0) == Fail(MissingParenClose, at)
  {
    hide ParseExpr, WritesExpr, OperandDue, Stops;
    var k: nat, r: Regex :| 0 <= k <= at <= |src.text| && After(src, k, OPEN_PAREN) && WritesExpr(r, src.text[k..at], src.classes)
                            && Stops(r, At(src.text, at)) && At(src.text, at) != CLOSE_PAREN;
    assert Occurs(src.text, k, src.text[k..at]);
    ExprIsParsed(src, r, k, src.text[k..at]);
    DueOperandFails(src, k - 1);
  }

  lemma {:induction false} SymbolReasons(src: Source, at: nat)
    requires Explains(src, UnexpectedSymbol, at)
    ensures ParseExpr(src, 0) == Fail(UnexpectedSymbol, at)
  {
    hide ParseExpr, ExprDue;
    assert ParseBase(src, at) == Fail(UnexpectedSymbol, at);
    assert ParseTerm(src, at) == ParseFactor(src, at) == ParseBase(src, at);
    OperandFails(src, at, at);
  }

  lemma {:induction false} ReasonFails(src: Source, e: Error, at: nat)
    requires Explains(src, e, at)
    ensures ParseExpr(src, 0) == Fail(e, at)
  {
    hide ParseExpr, SetFails, SetUnclosed, ParenUnclosed, ExprDue, OperandDue, AfterBase;
    match e
    case UnexpectedSymbol => SymbolReasons(src, at);
    case MissingParenClose => ParenReasons(src, at);
    case UnexpectedEop =>
      if At(src.text, at) == NUL {
        DueOperandFails(src, at - 1);
      } else {
        BraceReasons(src, e, at);
      }
    case IllegalNumber => BraceReasons(src, e, at);
    case IllegalSet =>
      if SetFails(src, e, at) {
        SetReasons(src, e, at);
      } else {
        UnclosedReasons(src, at);
      }
    case IllegalSymbolicName => SetReasons(src, e, at);
    case Diverges => SetReasons(src, e, at);
  }

  /** The parser reports an error at a position exactly when there is the reason for it that the number stands for. */
  lemma {:induction false} FailsExactlyForItsReason(src: Source, e: Error, at: nat)
    ensures ParseExpr(src, 0) == Fail(e, at) <==> Explains(src, e, at)
  {
    hide ParseExpr, Explains, ExprDue;
    if ParseExpr(src, 0) == Fail(e, at) {
      NothingReadYet(src);
      ExprFails(src, 0);
    }
    if Explains(src, e, at) {
      ReasonFails(src, e, at);
    }
  }

  lemma {:induction false} ReasonsDecided(src: Source)
    ensures forall e: Error, at: nat :: Explains(src, e, at) <==> ParseExpr(src, 0) == Fail(e, at)
    ensures forall e: Error :: Reported(src, e) <==> ParseExpr(src, 0).Fail? && ParseExpr(src, 0).error == e
  {
    hide ParseExpr, Explains;
    forall e: Error, at: nat ensures Explains(src, e, at) <==> ParseExpr(src, 0) == Fail(e, at) {
      FailsExactlyForItsReason(src, e, at);
    }
    var f := ParseExpr(src, 0);
    assert f.Fail? ==> Explains(src, f.error, f.at);
  }

  lemma {:induction false} NothingReadYet(src: Source)
    ensures ExprDue(src.text[..0], src.classes)
  {}
}
