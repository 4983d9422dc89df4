/**
 The safety conditions are exact: for an unsafe pattern, some state is left with a wrong
 target, by a patch or, for '+', from the start, and no later patch mends it.
 */
module Exactness {
  import opened Bytes
  import opened Patterns
  import opened Nfa
  import opened Layout
  import opened Compiler
  import opened Closed
  import opened Language
  import opened Settle
  import opened Correctness

  /** `b` is `a` on [lo, hi), except that `next1` of the last cell may be redirected out of the block, as later patches do. */
  ghost predicate SameButExit(a: Nfa, b: Nfa, lo: nat, hi: nat) {
    && lo < hi <= |a.cells| && hi <= |b.cells|
    && (forall i | lo <= i < hi - 1 :: b.cells[i] == a.cells[i])
    && Redirected(a.cells[hi - 1], b.cells[hi - 1], hi)
  }

  lemma {:induction false} TailOnly(a: Nfa, b: Nfa, lo: nat, m: nat, hi: nat)
    requires SameButExit(a, b, lo, hi) && lo <= m < hi
    ensures SameButExit(a, b, m, hi)
  {}

  predicate Redirected(before: Cell, after: Cell, hi: nat) {
    after == before ||
    (before.Cell? && after.Cell? && after.op == before.op && after.next2 == before.next2 && after.next1 >= hi)
  }

  /** If redirecting `next1` of the last state redirects all exits, the pattern is single-exit. */
  lemma {:induction false} RedirectedIsSingleExit(a: Nfa, b: Nfa, r: Regex, lo: nat, x: nat, y: nat)
    requires WellShaped(r) && x != y && SameButExit(a, b, lo, lo + Size(r))
    requires Laid(a, r, lo, x) && Laid(b, r, lo, y)
    ensures SingleExit(r)
    decreases r, 0
  {
    match r
    case Lit(_) =>
    case AnyOne =>
    case Set(_, _) =>
    case Star(_) =>
    case Plus(_) =>
    case Group(body) => RedirectedIsSingleExit(a, b, body, lo, x, y);
    case Times(base, count) => RedirectedTimes(a, b, base, count, lo, x, y);
    case Cat(first, rest) => RedirectedCat(a, b, first, rest, lo, x, y);
    case Alt(_, _) =>
  }

  lemma {:induction false} RedirectedCat(a: Nfa, b: Nfa, first: Regex, rest: Regex, lo: nat, x: nat, y: nat)
    requires WellShaped(rest) && x != y && SameButExit(a, b, lo, lo + Size(Cat(first, rest)))
    requires Laid(a, Cat(first, rest), lo, x) && Laid(b, Cat(first, rest), lo, y)
    ensures SingleExit(rest)
    decreases Cat(first, rest), 0, 0
  {
    hide Laid, SameButExit;
    CatLaid(a, first, rest, lo, x);
    CatLaid(b, first, rest, lo, y);
    var m := lo + Size(first) + if StartsGroup(rest) then 1 else 0;
    TailOnly(a, b, lo, m, lo + Size(Cat(first, rest)));
    RedirectedIsSingleExit(a, b, rest, m, x, y);
  }

  lemma {:induction false} RedirectedTimes(a: Nfa, b: Nfa, r: Regex, count: nat, lo: nat, x: nat, y: nat)
    requires WellShaped(r) && x != y && SameButExit(a, b, lo, lo + SizeTimes(r, count))
    requires LaidTimes(a, r, count, lo, x) && LaidTimes(b, r, count, lo, y)
    ensures SingleExit(r)
    decreases r, count + 1
  {
    hide Laid, LaidTimes;
    TimesLaid(a, r, count, lo, x);
    TimesLaid(b, r, count, lo, y);
    if count <= 1 {
      RedirectedIsSingleExit(a, b, r, lo, x, y);
    } else {
      RedirectedTimes(a, b, r, count - 1, lo + Size(r) + Bridge(r), x, y);
    }
  }

  /** A laid-out block leads nowhere but into itself and to its exit. */
  lemma {:induction false} LaidTargets(a: Nfa, r: Regex, lo: nat, x: nat, hi: nat, i: nat)
    requires Laid(a, r, lo, x) && lo + Size(r) <= hi && x <= hi && lo <= i < lo + Size(r)
    ensures i < |a.cells| && a.cells[i].Cell? && a.cells[i].next1 <= hi
    decreases r, 0
  {
    hide Laid, LaidTimes;
    match r
    case Lit(_) => AtomIsSet(a, r, lo, x);
    case AnyOne => AtomIsSet(a, r, lo, x);
    case Set(_, _) => AtomIsSet(a, r, lo, x);
    case Group(body) =>
      GroupLaid(a, body, lo, x);
      LaidTargets(a, body, lo, x, hi, i);
    case Star(base) => LoopTargets(a, r, lo, x, hi, i);
    case Plus(base) => LoopTargets(a, r, lo, x, hi, i);
    case Times(base, count) =>
      CopiesLaid(a, base, count, lo, x);
      TimesTargets(a, base, count, lo, x, hi, i);
    case Cat(first, rest) => CatTargets(a, first, rest, lo, x, hi, i);
    case Alt(left, right) => AltTargets(a, left, right, lo, x, hi, i);
  }

  lemma {:induction false} AltTargets(a: Nfa, left: Regex, right: Regex, lo: nat, x: nat, hi: nat, i: nat)
    requires var r := Alt(left, right); Laid(a, r, lo, x) && lo + Size(r) <= hi && x <= hi && lo <= i < lo + Size(r)
    ensures i < |a.cells| && a.cells[i].Cell? && a.cells[i].next1 <= hi
    decreases Alt(left, right), 0, 0
  {
    hide Laid;
    AltLaid(a, left, right, lo, x);
    var m := lo + Size(left);
    EntryInBlock(right);
    if i < m {
      LaidTargets(a, left, lo, m, hi, i);
    } else if i > m + 1 {
      LaidTargets(a, right, m + 2, x, hi, i);
    }
  }

  lemma {:induction false} LoopTargets(a: Nfa, r: Regex, lo: nat, x: nat, hi: nat, i: nat)
    requires r.Star? || r.Plus?
    requires Laid(a, r, lo, x) && lo + Size(r) <= hi && x <= hi && lo <= i < lo + Size(r)
    ensures i < |a.cells| && a.cells[i].Cell? && a.cells[i].next1 <= hi
    decreases r, 0, 0
  {
    hide Laid;
    LoopLaid(a, r, lo, x);
    EntryInBlock(r.base);
    var s := lo + Size(r.base);
    if i < s {
      LaidTargets(a, r.base, lo, s, hi, i);
    }
  }

  lemma {:induction false} CatTargets(a: Nfa, first: Regex, rest: Regex, lo: nat, x: nat, hi: nat, i: nat)
    requires var r := Cat(first, rest); Laid(a, r, lo, x) && lo + Size(r) <= hi && x <= hi && lo <= i < lo + Size(r)
    ensures i < |a.cells| && a.cells[i].Cell? && a.cells[i].next1 <= hi
    decreases Cat(first, rest), 0, 0
  {
    hide Laid;
    CatLaid(a, first, rest, lo, x);
    var m := lo + Size(first);
    EntryInBlock(rest);
    if i < m {
      LaidTargets(a, first, lo, if StartsGroup(rest) then m else m + Entry(rest), hi, i);
    } else if !StartsGroup(rest) {
      LaidTargets(a, rest, m, x, hi, i);
    } else if i > m {
      LaidTargets(a, rest, m + 1, x, hi, i);
    }
  }

  lemma {:induction false} TimesTargets(a: Nfa, r: Regex, count: nat, lo: nat, x: nat, hi: nat, i: nat)
    requires LaidTimes(a, r, count, lo, x) && lo + SizeTimes(r, count) <= hi && x <= hi && lo <= i < lo + SizeTimes(r, count)
    ensures i < |a.cells| && a.cells[i].Cell? && a.cells[i].next1 <= hi
    decreases r, count + 1
  {
    hide Laid, LaidTimes, Entry;
    TimesLaid(a, r, count, lo, x);
    if count <= 1 {
      LaidTargets(a, r, lo, x, hi, i);
    } else {
      var m := lo + Size(r);
      var m' := m + Bridge(r);
      EntryInTimes(r, count - 1);
      if i < m {
        LaidTargets(a, r, lo, CopyExit(r, m), hi, i);
      } else if i >= m' {
        TimesTargets(a, r, count - 1, m', x, hi, i);
      }
    }
  }

  // ---------- Unsafe patterns are spoilt ----------

  /** An unsafe pattern is not laid out by compiling it, and no later patch of its exit mends it. */
  lemma {:induction false} UnsafeIsSpoilt(r: Regex, a: Nfa, c: Nfa, b: Nfa, x: nat)
    requires |a.cells| > 0 && WellShaped(r) && !Safe(r) && c == Compile(r, a).0
    requires a.cells[|a.cells| - 1].Cell? ==> IsTerm(r) && !StartsGroup(r)
    requires SameButExit(c, b, |a.cells|, |c.cells|)
    ensures !Laid(b, r, |a.cells|, x)
    decreases r, 1
  {
    hide Laid, Compile, CompileRest, CompileRight, Postfix, SameButExit, Size, Returned;
    match r
    case Lit(_) =>
    case AnyOne =>
    case Set(_, _) =>
    case Group(body) =>
      GroupCompiles(body, a);
      GroupLaid(b, body, |a.cells|, x);
      UnsafeIsSpoilt(body, a, c, b, x);
    case Star(base) =>
      OperatorCompiles(r, a);
      UnsafeLoop(r, a, Compile(base, a).0, c, b, x);
    case Plus(base) =>
      OperatorCompiles(r, a);
      UnsafeLoop(r, a, Compile(base, a).0, c, b, x);
    case Times(base, count) =>
      OperatorCompiles(r, a);
      UnsafeTimes(base, count, a, Compile(base, a).0, c, b, x);
    case Cat(first, rest) =>
      OperandsCompile(first, rest, a);
      UnsafeCat(first, rest, a, Compile(first, a).0, c, b, x);
    case Alt(left, right) =>
      OperandsCompile(left, right, a);
      UnsafeAlt(left, right, a, Compile(left, a).0, c, b, x);
  }

  lemma {:induction false} UnsafeLoop(r: Regex, a: Nfa, a1: Nfa, c: Nfa, b: Nfa, x: nat)
    requires r.Star? || r.Plus?
    requires |a.cells| > 0 && WellShaped(r) && !Safe(r) && a1 == Compile(r.base, a).0 && c == Postfix(r, a1, |a.cells|).0
    requires a.cells[|a.cells| - 1].Cell? ==> !StartsGroup(r.base)
    requires SameButExit(c, b, |a.cells|, |c.cells|)
    ensures !Laid(b, r, |a.cells|, x)
    decreases r, 0
  {
    if !Safe(r.base) {
      assert SameButExit(a1, b, |a.cells|, |a1.cells|);
      UnsafeIsSpoilt(r.base, a, a1, b, |a1.cells|);
    } else {
      PlusMisdirects(r.base, a1, c, b, |a.cells|, x);
    }
  }

  /** '+' leads back to the first state of an operand that is not entered there; a later redirection leads further off. */
  lemma {:induction false} PlusMisdirects(base: Regex, a1: Nfa, c: Nfa, b: Nfa, lo: nat, x: nat)
    requires Safe(base) && !HeadEntered(base)
    requires 0 < lo && |a1.cells| == lo + Size(base) && c == ClosePlus(a1, lo)
    requires SameButExit(c, b, lo, |c.cells|)
    ensures !Laid(b, Plus(base), lo, x)
  {
    hide Laid;
    LoopLaid(b, Plus(base), lo, x);
    SafeReturnsEntry(base);
    HeadEnteredIsReturnedZero(base);
    EntryInBlock(base);
    assert c.cells[|a1.cells|] == Cell(Eps, lo, |a1.cells| + 1);
    assert b.cells[|a1.cells|].next1 != lo + Entry(base);
  }

  lemma {:induction false} UnsafeTimes(base: Regex, count: nat, a: Nfa, a1: Nfa, c: Nfa, b: Nfa, x: nat)
    requires |a.cells| > 0 && WellShaped(Times(base, count)) && !Safe(base)
    requires a1 == Compile(base, a).0 && c == Postfix(Times(base, count), a1, |a.cells|).0
    requires a.cells[|a.cells| - 1].Cell? ==> !StartsGroup(base)
    requires SameButExit(c, b, |a.cells|, |c.cells|)
    ensures !Laid(b, Times(base, count), |a.cells|, x)
    decreases Times(base, count), 0
  {
    hide Laid, LaidTimes, Compile;
    CopiesLaid(b, base, count, |a.cells|, x);
    TimesLaid(b, base, count, |a.cells|, x);
    assert a1.cells <= c.cells && |a1.cells| < |c.cells|;
    assert SameButExit(a1, b, |a.cells|, |a1.cells|);
    UnsafeIsSpoilt(base, a, a1, b, CopyExit(base, |a1.cells|));
  }

  lemma {:induction false} UnsafeCat(first: Regex, rest: Regex, a: Nfa, a1: Nfa, c: Nfa, b: Nfa, x: nat)
    requires |a.cells| > 0 && WellShaped(Cat(first, rest)) && !Safe(Cat(first, rest))
    requires a1 == Compile(first, a).0 && c == CompileRest(rest, a1)
    requires a.cells[|a.cells| - 1].Cell? ==> !StartsGroup(first)
    requires SameButExit(c, b, |a.cells|, |c.cells|)
    ensures !Laid(b, Cat(first, rest), |a.cells|, x)
    decreases Cat(first, rest), 0
  {
    hide Laid, Compile, SameButExit, Closes;
    CatLaid(b, first, rest, |a.cells|, x);
    CompileCloses(first, a);
    if StartsGroup(rest) {
      UnsafeBridged(first, rest, a, a1, Compile(rest, Emit(a1, Unset)).0, c, b, x);
    } else {
      UnsafeChained(first, rest, a, a1, c, b, x);
    }
  }

  lemma {:induction false} UnsafeBridged(first: Regex, rest: Regex, a: Nfa, a1: Nfa, a2: Nfa, c: Nfa, b: Nfa, x: nat)
    requires |a.cells| > 0 && WellShaped(first) && WellShaped(rest) && IsFactor(first) && StartsGroup(rest)
    requires !(Safe(first) && Safe(rest))
    requires a1 == Compile(first, a).0 && a2 == Compile(rest, Emit(a1, Unset)).0 && Closes(a, a1)
    requires |c.cells| == |a2.cells| && c == Fill(a2, |a1.cells|, c.cells[|a1.cells|])
    requires a.cells[|a.cells| - 1].Cell? ==> !StartsGroup(first)
    requires SameButExit(c, b, |a.cells|, |c.cells|)
    ensures !Laid(b, first, |a.cells|, |a1.cells|) || !Laid(b, rest, |a1.cells| + 1, x)
    decreases Cat(first, rest), 0, 0
  {
    hide Laid, Compile, Closes, SameButExit;
    CompileCloses(rest, Emit(a1, Unset));
    BridgedFront(a1, a2, c, b, |a.cells|);
    if !Safe(first) {
      UnsafeIsSpoilt(first, a, a1, b, |a1.cells|);
    } else {
      UnsafeIsSpoilt(rest, Emit(a1, Unset), a2, b, x);
    }
  }

  lemma {:induction false} UnsafeChained(first: Regex, rest: Regex, a: Nfa, a1: Nfa, c: Nfa, b: Nfa, x: nat)
    requires |a.cells| > 0 && WellShaped(first) && WellShaped(rest) && IsFactor(first) && IsTerm(rest) && !StartsGroup(rest)
    requires Safe(first) && Safe(rest) ==> Head(rest).Star? && !SingleExit(first)
    requires a1 == Compile(first, a).0 && c == Compile(rest, a1).0 && Closes(a, a1)
    requires a.cells[|a.cells| - 1].Cell? ==> !StartsGroup(first)
    requires SameButExit(c, b, |a.cells|, |c.cells|)
    ensures !Laid(b, first, |a.cells|, |a1.cells| + Entry(rest)) || !Laid(b, rest, |a1.cells|, x)
    decreases Cat(first, rest), 0, 0
  {
    hide Laid, Compile, SameButExit, Closes;
    CompileCloses(rest, a1);
    FrontKept(a1, c, b, |a.cells|);
    if !Safe(first) {
      UnsafeIsSpoilt(first, a, a1, b, |a1.cells| + Entry(rest));
    } else if !Safe(rest) {
      TailOnly(c, b, |a.cells|, |a1.cells|, |c.cells|);
      UnsafeIsSpoilt(rest, a1, c, b, x);
    } else {
      assert Entry(rest) == Entry(Head(rest)) > 0;
      NotRedirected(first, a, a1, b, |a1.cells| + Entry(rest));
    }
  }

  /** The exits of a factor that is not single-exit cannot be redirected by a patch. */
  lemma {:induction false} NotRedirected(r: Regex, a: Nfa, a1: Nfa, b: Nfa, y: nat)
    requires |a.cells| > 0 && WellShaped(r) && Safe(r) && !SingleExit(r) && a1 == Compile(r, a).0
    requires a.cells[|a.cells| - 1].Cell? ==> IsTerm(r) && !StartsGroup(r)
    requires SameButExit(a1, b, |a.cells|, |a1.cells|) && y != |a1.cells|
    ensures !Laid(b, r, |a.cells|, y)
  {
    hide Laid, Compile, SameButExit;
    CompileLays(r, a);
    if Laid(b, r, |a.cells|, y) {
      RedirectedIsSingleExit(a1, b, r, |a.cells|, |a1.cells|, y);
    }
  }

  lemma {:induction false} BridgedFront(a1: Nfa, a2: Nfa, c: Nfa, b: Nfa, lo: nat)
    requires lo < |a1.cells| && Closes(Emit(a1, Unset), a2) && |a2.cells| > |a1.cells| + 1
    requires |c.cells| == |a2.cells| && c == Fill(a2, |a1.cells|, c.cells[|a1.cells|])
    requires SameButExit(c, b, lo, |c.cells|)
    ensures SameButExit(a1, b, lo, |a1.cells|) && SameButExit(a2, b, |a1.cells| + 1, |a2.cells|)
  {
    assert forall i | lo <= i < |a1.cells| :: b.cells[i] == c.cells[i] == a2.cells[i] == Emit(a1, Unset).cells[i] == a1.cells[i];
  }

  lemma {:induction false} UnsafeAlt(left: Regex, right: Regex, a: Nfa, a1: Nfa, c: Nfa, b: Nfa, x: nat)
    requires |a.cells| > 0 && WellShaped(Alt(left, right)) && !Safe(Alt(left, right)) && a1 == Compile(left, a).0
    requires |a.cells| + Returned(left) < |a1.cells| && c == CompileRight(right, a1, |a.cells| + Returned(left)).0
    requires a.cells[|a.cells| - 1].Unset?
    requires SameButExit(c, b, |a.cells|, |c.cells|)
    ensures !Laid(b, Alt(left, right), |a.cells|, x)
    decreases Alt(left, right), 0
  {
    hide Laid, Compile, SameButExit, CloseAlt, Entry, Returned;
    AltLaid(b, left, right, |a.cells|, x);
    var a2 := Compile(right, Emit(Emit(a1, Unset), Unset)).0;
    HeadEnteredIsReturnedZero(left);
    if HeadEntered(left) {
      UnsafeOperand(left, right, a, a1, a2, c, b, x);
    } else {
      AltMisdirects(left, right, a, a1, a2, c, b, |a.cells| + Returned(left), |a1.cells| + 2 + Returned(right));
    }
  }

  lemma {:induction false} UnsafeOperand(left: Regex, right: Regex, a: Nfa, a1: Nfa, a2: Nfa, c: Nfa, b: Nfa, x: nat)
    requires |a.cells| > 0 && WellShaped(left) && WellShaped(right) && !(Safe(left) && Safe(right))
    requires a1 == Compile(left, a).0 && a2 == Compile(right, Emit(Emit(a1, Unset), Unset)).0
    requires c == CloseAlt(a2, |a1.cells|, |a.cells|, |a1.cells| + 2 + Returned(right))
    requires a.cells[|a.cells| - 1].Unset?
    requires SameButExit(c, b, |a.cells|, |c.cells|)
    ensures !Laid(b, left, |a.cells|, |a1.cells|) || !Laid(b, right, |a1.cells| + 2, x)
    decreases Alt(left, right), 0, 0
  {
    hide Laid, Compile, Closes, SameButExit, CloseAlt, Returned, Size;
    CompileCloses(left, a);
    CompileCloses(right, Emit(Emit(a1, Unset), Unset));
    AltFront(a, a1, a2, c, b, |a1.cells| + 2 + Returned(right));
    if !Safe(left) {
      UnsafeIsSpoilt(left, a, a1, b, |a1.cells|);
    } else {
      UnsafeIsSpoilt(right, Emit(Emit(a1, Unset), Unset), a2, b, x);
    }
  }

  /** Entered behind its first state, the left operand has one of its own states sent to the branch state. */
  lemma {:induction false} AltMisdirects(left: Regex, right: Regex, a: Nfa, a1: Nfa, a2: Nfa, c: Nfa, b: Nfa, t1: nat, e: nat)
    requires |a.cells| > 0 && WellShaped(left) && WellShaped(right)
    requires a1 == Compile(left, a).0 && a2 == Compile(right, Emit(Emit(a1, Unset), Unset)).0
    requires |a.cells| < t1 < |a1.cells| && c == CloseAlt(a2, |a1.cells|, t1, e)
    requires SameButExit(c, b, |a.cells|, |c.cells|)
    ensures !Laid(b, left, |a.cells|, |a1.cells|)
  {
    CompileCloses(left, a);
    CompileCloses(right, Emit(Emit(a1, Unset), Unset));
    assert a2.cells[t1 - 1] == Emit(Emit(a1, Unset), Unset).cells[t1 - 1] == a1.cells[t1 - 1];
    assert b.cells[t1 - 1] == c.cells[t1 - 1];
    if Laid(b, left, |a.cells|, |a1.cells|) {
      LaidTargets(b, left, |a.cells|, |a1.cells|, |a1.cells|, t1 - 1);
    }
  }

  lemma {:induction false} AltFront(a: Nfa, a1: Nfa, a2: Nfa, c: Nfa, b: Nfa, e: nat)
    requires Closes(a, a1) && Closes(Emit(Emit(a1, Unset), Unset), a2) && |a1.cells| + 2 < |a2.cells|
    requires |a.cells| < |a1.cells| && c == CloseAlt(a2, |a1.cells|, |a.cells|, e)
    requires SameButExit(c, b, |a.cells|, |c.cells|)
    ensures SameButExit(a1, b, |a.cells|, |a1.cells|) && SameButExit(a2, b, |a1.cells| + 2, |a2.cells|)
  {
    assert forall i | |a.cells| <= i < |a1.cells| ::
        b.cells[i] == c.cells[i] == a2.cells[i] == Emit(Emit(a1, Unset), Unset).cells[i] == a1.cells[i];
  }

  lemma {:induction false} FrontKept(a: Nfa, a1: Nfa, b: Nfa, lo: nat)
    requires Closes(a, a1) && lo < |a.cells| < |a1.cells| && SameButExit(a1, b, lo, |a1.cells|)
    ensures SameButExit(a, b, lo, |a.cells|)
  {
    var m := |a.cells| - 1;
    assert b.cells[m] == a1.cells[m];
  }

  /** The compiler emits the layout of a pattern exactly when the pattern is safe. */
  lemma {:induction false} LaidOutExactlyWhenSafe(r: Regex, minimal: bool)
    requires WellShaped(r)
    ensures Laid(Program(r, minimal), r, 1, Final(r)) <==> Safe(r)
  {
    if Safe(r) {
      ProgramLaid(r, minimal);
    } else {
      var a := Nfa([Unset], []);
      UnsafeIsSpoilt(r, a, Compile(r, a).0, Program(r, minimal), Final(r));
    }
  }

  // ---------- Unproductive patterns go round in circles ----------

  /** A path that reads nothing uses up a step of settling. */
  lemma {:induction false} EmptyPathSettles(a: Nfa, goal: nat, s: nat, n: nat, d: nat)
    requires Reach(a, goal, s, [], n) && s != goal && Settles(a, s, d)
    ensures d > 0 && Settles(a, goal, d - 1)
    decreases n
  {
    var next := if Reach(a, goal, a.cells[s].next1, [], n - 1) then a.cells[s].next1 else a.cells[s].next2;
    if next != goal {
      EmptyPathSettles(a, goal, next, n - 1, d - 1);
      SettlesLonger(a, goal, d - 2, d - 1);
    }
  }

  lemma {:induction false} SettleStep(a: Nfa, s: nat, d: nat)
    requires Settles(a, s, d) && 0 < s < |a.cells| && a.cells[s].Cell? && a.cells[s].op.Eps?
    ensures d > 0 && Settles(a, a.cells[s].next1, d - 1) && Settles(a, a.cells[s].next2, d - 1)
  {}

  lemma {:induction false} StaysPut(a: Nfa, goal: nat)
    ensures Reach(a, goal, goal, [], 0)
  {}

  /** The decision state of a loop over an empty word never settles. */
  lemma {:induction false} LoopNeverSettles(a: Nfa, r: Regex, lo: nat, x: nat, d: nat)
    requires r.Star? || r.Plus?
    requires WellShaped(r) && Nullable(r.base) && lo > 0 && Laid(a, r, lo, x)
    ensures !Settles(a, lo + Size(r.base), d)
    decreases d
  {
    hide Laid, Settles, Reach, In;
    LoopLaid(a, r, lo, x);
    var s := lo + Size(r.base);
    if Settles(a, s, d) {
      SettleStep(a, s, d);
      NullableIsEmptyWord(r.base);
      EntryInBlock(r.base);
      var w: seq<Byte> := [];
      assert w[..0] == w && w[0..] == w;
      StaysPut(a, s);
      var n := WordToPath(a, r.base, lo, s, s, w, 0, 0);
      EmptyPathSettles(a, s, lo + Entry(r.base), n, d - 1);
      LoopNeverSettles(a, r, lo, x, d - 2);
    }
  }

  /** Somewhere in the layout of an unproductive pattern is a state that never settles. */
  lemma {:induction false} UnproductiveNeverSettles(a: Nfa, r: Regex, lo: nat, x: nat) returns (s: nat)
    requires WellShaped(r) && !Productive(r) && lo > 0 && Laid(a, r, lo, x)
    ensures lo <= s < lo + Size(r) && forall d: nat :: !Settles(a, s, d)
    decreases r, 1
  {
    hide Laid, LaidTimes, Settles;
    match r
    case Lit(_) => s := lo;
    case AnyOne => s := lo;
    case Set(_, _) => s := lo;
    case Group(body) =>
      GroupLaid(a, body, lo, x);
      s := UnproductiveNeverSettles(a, body, lo, x);
    case Star(base) => s := UnproductiveLoop(a, r, lo, x);
    case Plus(base) => s := UnproductiveLoop(a, r, lo, x);
    case Times(base, count) => s := UnproductiveTimes(a, base, count, lo, x);
    case Cat(first, rest) =>
      CatLaid(a, first, rest, lo, x);
      var m := lo + Size(first);
      var m' := m + if StartsGroup(rest) then 1 else 0;
      if !Productive(first) {
        s := UnproductiveNeverSettles(a, first, lo, if StartsGroup(rest) then m else m + Entry(rest));
      } else {
        s := UnproductiveNeverSettles(a, rest, m', x);
      }
    case Alt(left, right) =>
      AltLaid(a, left, right, lo, x);
      var m := lo + Size(left);
      if !Productive(left) {
        s := UnproductiveNeverSettles(a, left, lo, m);
      } else {
        s := UnproductiveNeverSettles(a, right, m + 2, x);
      }
  }

  lemma {:induction false} UnproductiveTimes(a: Nfa, base: Regex, count: nat, lo: nat, x: nat) returns (s: nat)
    requires WellShaped(Times(base, count)) && !Productive(base) && lo > 0 && Laid(a, Times(base, count), lo, x)
    ensures lo <= s < lo + Size(Times(base, count)) && forall d: nat :: !Settles(a, s, d)
    decreases Times(base, count), 0
  {
    hide Laid, LaidTimes, Settles;
    CopiesLaid(a, base, count, lo, x);
    TimesLaid(a, base, count, lo, x);
    s := UnproductiveNeverSettles(a, base, lo, CopyExit(base, lo + Size(base)));
  }

  lemma {:induction false} UnproductiveLoop(a: Nfa, r: Regex, lo: nat, x: nat) returns (s: nat)
    requires r.Star? || r.Plus?
    requires WellShaped(r) && !Productive(r) && lo > 0 && Laid(a, r, lo, x)
    ensures lo <= s < lo + Size(r) && forall d: nat :: !Settles(a, s, d)
    decreases r, 0
  {
    hide Laid, Settles;
    LoopLaid(a, r, lo, x);
    if Nullable(r.base) {
      s := lo + Size(r.base);
      forall d: nat ensures !Settles(a, s, d) { LoopNeverSettles(a, r, lo, x, d); }
    } else {
      s := UnproductiveNeverSettles(a, r.base, lo, lo + Size(r.base));
    }
  }

  /** Compiling a safe pattern leaves no epsilon cycle exactly when no body of '*' or '+' matches the empty word. */
  lemma {:induction false} CycleFreeExactlyWhenProductive(r: Regex, minimal: bool)
    requires WellShaped(r) && Safe(r)
    ensures (exists d: nat :: Settled(Program(r, minimal), d)) <==> Productive(r)
  {
    if Productive(r) {
      var d := ProgramSettled(r, minimal);
    } else {
      ProgramLaid(r, minimal);
      var s := UnproductiveNeverSettles(Program(r, minimal), r, 1, Final(r));
      forall d: nat ensures !Settled(Program(r, minimal), d) {
        assert !Settles(Program(r, minimal), s, d);
      }
    }
  }
}
