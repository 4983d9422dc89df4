/**
 Abstract syntax of the patterns, the language each one denotes, and the syntactic
 conditions under which the one-pass compiler is right.
 */
module Patterns {
  import opened Bytes

  datatype Regex =
    | Lit(c: Byte)
    | AnyOne
    | Set(negated: bool, members: seq<Byte>)
    | Group(body: Regex)
    | Star(base: Regex)
    | Plus(base: Regex)
    | Times(base: Regex, count: nat)
    | Cat(first: Regex, rest: Regex)
    | Alt(left: Regex, right: Regex)

  // ---------- Denotation ----------

  /** `w` belongs to the language of `r`. */
  ghost predicate In(r: Regex, w: seq<Byte>)
    decreases r, 0
  {
    match r
    case Lit(c) => w == [c]
    case AnyOne => |w| == 1
    case Set(negated, members) => |w| == 1 && (w[0] in members) != negated
    case Group(body) => In(body, w)
    case Star(base) => exists n: nat :: Power(base, n, w)
    case Plus(base) => exists n: nat :: n > 0 && Power(base, n, w)
    case Times(base, count) => Power(base, count, w)
    case Cat(first, rest) => exists k | 0 <= k <= |w| :: In(first, w[..k]) && In(rest, w[k..])
    case Alt(left, right) => In(left, w) || In(right, w)
  }

  /** `w` is a concatenation of `n` words of `r`. */
  ghost predicate Power(r: Regex, n: nat, w: seq<Byte>)
    decreases r, n + 1
  {
    if n == 0 then w == []
    else exists k | 0 <= k <= |w| :: In(r, w[..k]) && Power(r, n - 1, w[k..])
  }

  function Flatten(ws: seq<seq<Byte>>): seq<Byte> {
    if ws == [] then [] else ws[0] + Flatten(ws[1..])
  }

  /** `w` is cut into the words `ws` of `r`. */
  ghost predicate CutInto(r: Regex, ws: seq<seq<Byte>>, w: seq<Byte>) {
    Flatten(ws) == w && forall i | 0 <= i < |ws| :: In(r, ws[i])
  }

  lemma {:induction false} PowerIsConcatenation(r: Regex, n: nat, w: seq<Byte>)
    ensures Power(r, n, w) <==> exists ws: seq<seq<Byte>> :: |ws| == n && CutInto(r, ws, w)
    decreases n
  {
    hide In;
    if Power(r, n, w) {
      var ws := CutPower(r, n, w);
    }
    if ws: seq<seq<Byte>> :| |ws| == n && CutInto(r, ws, w) {
      JoinPower(r, ws, w);
    }
  }

  lemma {:induction false} CutPower(r: Regex, n: nat, w: seq<Byte>) returns (ws: seq<seq<Byte>>)
    requires Power(r, n, w)
    ensures |ws| == n && CutInto(r, ws, w)
    decreases n
  {
    hide In;
    if n == 0 {
      ws := [];
    } else {
      var k :| 0 <= k <= |w| && In(r, w[..k]) && Power(r, n - 1, w[k..]);
      ws := CutPower(r, n - 1, w[k..]);
      ws := [w[..k]] + ws;
    }
  }

  lemma {:induction false} JoinPower(r: Regex, ws: seq<seq<Byte>>, w: seq<Byte>)
    requires CutInto(r, ws, w)
    ensures Power(r, |ws|, w)
    decreases |ws|
  {
    hide In;
    if ws != [] {
      var k := |ws[0]|;
      assert w[..k] == ws[0] && w[k..] == Flatten(ws[1..]);
      JoinPower(r, ws[1..], w[k..]);
    }
  }

  /** The repetitions in terms of cutting a word: any number of pieces, at least one, or exactly so many. */
  lemma {:induction false} RepetitionsCutWords(r: Regex, n: nat, w: seq<Byte>)
    ensures In(Star(r), w) <==> exists ws: seq<seq<Byte>> :: CutInto(r, ws, w)
    ensures In(Plus(r), w) <==> exists ws: seq<seq<Byte>> :: ws != [] && CutInto(r, ws, w)
    ensures In(Times(r, n), w) <==> exists ws: seq<seq<Byte>> :: |ws| == n && CutInto(r, ws, w)
  {
    hide CutInto, Power;
    PowerIsConcatenation(r, n, w);
    forall m: nat ensures Power(r, m, w) <==> exists ws: seq<seq<Byte>> :: |ws| == m && CutInto(r, ws, w) {
      PowerIsConcatenation(r, m, w);
    }
    assert forall ws: seq<seq<Byte>> :: CutInto(r, ws, w) ==> Power(r, |ws|, w);
  }

  predicate Nullable(r: Regex) {
    match r
    case Lit(_) => false
    case AnyOne => false
    case Set(_, _) => false
    case Group(body) => Nullable(body)
    case Star(_) => true
    case Plus(base) => Nullable(base)
    case Times(base, count) => count == 0 || Nullable(base)
    case Cat(first, rest) => Nullable(first) && Nullable(rest)
    case Alt(left, right) => Nullable(left) || Nullable(right)
  }

  /** The syntactic test agrees with the language. */
  lemma {:induction false} NullableIsEmptyWord(r: Regex)
    ensures Nullable(r) <==> In(r, [])
    decreases r, 0
  {
    match r
    case Lit(_) =>
    case AnyOne =>
    case Set(_, _) =>
    case Group(body) => NullableIsEmptyWord(body);
    case Star(base) => assert Power(base, 0, []);
    case Plus(base) =>
      NullablePower(base, 1);
      forall n: nat | n > 0 && Power(base, n, []) ensures Nullable(base) { NullablePower(base, n); }
    case Times(base, count) => NullablePower(base, count);
    case Cat(first, rest) =>
      NullableIsEmptyWord(first);
      NullableIsEmptyWord(rest);
      var e: seq<Byte> := [];
      assert e[..0] == e && e[0..] == e;
    case Alt(left, right) =>
      NullableIsEmptyWord(left);
      NullableIsEmptyWord(right);
  }

  lemma {:induction false} NullablePower(r: Regex, n: nat)
    ensures n == 0 || Nullable(r) <==> Power(r, n, [])
    decreases r, n + 1
  {
    if n > 0 {
      NullableIsEmptyWord(r);
      NullablePower(r, n - 1);
      var e: seq<Byte> := [];
      assert e[..0] == e && e[0..] == e;
    }
  }

  // ---------- Shape: which trees the grammar can produce ----------

  predicate IsAtom(r: Regex) {
    r.Lit? || r.AnyOne? || r.Set?
  }

  predicate IsBase(r: Regex) {
    IsAtom(r) || r.Group?
  }

  predicate IsFactor(r: Regex) {
    IsBase(r) || r.Star? || r.Plus? || r.Times?
  }

  predicate IsTerm(r: Regex) {
    IsFactor(r) || r.Cat?
  }

  /** `r` is an expression of the grammar expression -> term ['|' expression], term -> factor [term]. */
  predicate WellShaped(r: Regex) {
    match r
    case Lit(c) => c != NUL
    case AnyOne => true
    case Set(_, members) => NUL !in members
    case Group(body) => WellShaped(body)
    case Star(base) => IsBase(base) && WellShaped(base)
    case Plus(base) => IsBase(base) && WellShaped(base)
    case Times(base, count) => IsBase(base) && count >= 2 && WellShaped(base)
    case Cat(first, rest) => IsFactor(first) && IsTerm(rest) && WellShaped(first) && WellShaped(rest)
    case Alt(left, right) => IsTerm(left) && WellShaped(left) && WellShaped(right)
  }

  /** The first factor of a term. */
  function Head(r: Regex): Regex {
    if r.Cat? then r.first else r
  }

  /** The operand a factor's postfix operator applies to. */
  function Operand(r: Regex): Regex {
    if r.Star? || r.Plus? || r.Times? then r.base else r
  }

  /** A term whose text starts with a parenthesis. */
  predicate StartsGroup(r: Regex) {
    Operand(Head(r)).Group?
  }

  // ---------- Safety ----------

  /** Control enters the pattern at the first state emitted for it. */
  predicate HeadEntered(r: Regex) {
    match r
    case Lit(_) => true
    case AnyOne => true
    case Set(_, _) => true
    case Group(body) => HeadEntered(body)
    case Star(_) => false
    case Plus(_) => true
    case Times(base, _) => HeadEntered(base)
    case Cat(first, _) => HeadEntered(first)
    case Alt(_, _) => false
  }

  /** Control leaves the pattern only through `next1` of the last state emitted for it. */
  predicate SingleExit(r: Regex) {
    match r
    case Lit(_) => true
    case AnyOne => true
    case Set(_, _) => true
    case Group(body) => SingleExit(body)
    case Star(_) => true
    case Plus(_) => false
    case Times(base, _) => SingleExit(base)
    case Cat(_, rest) => SingleExit(rest)
    case Alt(_, _) => false
  }

  /** Operand of '+' and left operand of '|' are head-entered; `x a*` needs a single-exit `x`. */
  predicate Safe(r: Regex) {
    match r
    case Lit(_) => true
    case AnyOne => true
    case Set(_, _) => true
    case Group(body) => Safe(body)
    case Star(base) => Safe(base)
    case Plus(base) => Safe(base) && HeadEntered(base)
    case Times(base, _) => Safe(base)
    case Cat(first, rest) =>
      Safe(first) && Safe(rest) &&
      (Head(rest).Star? && !StartsGroup(rest) ==> SingleExit(first))
    case Alt(left, right) => Safe(left) && Safe(right) && HeadEntered(left)
  }

  /** Bodies of '*' and '+' cannot match the empty word. */
  predicate Productive(r: Regex) {
    match r
    case Lit(_) => true
    case AnyOne => true
    case Set(_, _) => true
    case Group(body) => Productive(body)
    case Star(base) => Productive(base) && !Nullable(base)
    case Plus(base) => Productive(base) && !Nullable(base)
    case Times(base, _) => Productive(base)
    case Cat(first, rest) => Productive(first) && Productive(rest)
    case Alt(left, right) => Productive(left) && Productive(right)
  }
}
