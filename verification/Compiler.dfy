/**
 The one-pass compiler on pattern trees: states are emitted in order, later
 operators go back and patch states emitted earlier, `{n}` copies the states just
 emitted. The next free state is always `|a.cells|`.
 */
module Compiler {
  import opened Bytes
  import opened Patterns
  import opened Nfa
  import opened Layout

  /** setState at the next free state. */
  function Emit(a: Nfa, cell: Cell): Nfa {
    a.(cells := a.cells + [cell])
  }

  /** setState at a state reserved earlier. */
  function Fill(a: Nfa, s: nat, cell: Cell): Nfa
    requires s < |a.cells|
  {
    a.(cells := a.cells[s := cell])
  }

  /** Overwrite `next1` only. What an unwritten cell holds stays unspecified. */
  function Patch(a: Nfa, s: nat, target: nat): Nfa
    requires s < |a.cells|
  {
    match a.cells[s]
    case Unset => a
    case Cell(_, _, _) => Fill(a, s, a.cells[s].(next1 := target))
  }

  /** Append copies of the cells [lo, hi) with successors moved up by `d`. */
  function CopyBlock(a: Nfa, lo: nat, hi: nat, d: nat): (b: Nfa)
    requires lo <= hi <= |a.cells|
    ensures |b.cells| == |a.cells| + (hi - lo) && b.sets == a.sets && a.cells <= b.cells
  {
    a.(cells := a.cells + seq(hi - lo, i requires 0 <= i < hi - lo => Shift(a.cells[lo + i], d)))
  }

  lemma {:induction false} CopyBlockNone(a: Nfa, lo: nat, d: nat)
    requires lo <= |a.cells|
    ensures CopyBlock(a, lo, lo, d) == a
  {}

  /** One more cell is copied. */
  lemma {:induction false} CopyBlockStep(a: Nfa, lo: nat, j: nat, d: nat)
    requires lo <= j < |a.cells|
    ensures CopyBlock(a, lo, j + 1, d) == Emit(CopyBlock(a, lo, j, d), Shift(a.cells[j], d))
  {
    assert CopyBlock(a, lo, j + 1, d).cells == CopyBlock(a, lo, j, d).cells + [Shift(a.cells[j], d)];
  }

  /** Cells added by `more` rounds of the copy loop. */
  function Rounds(size: nat, more: nat): nat {
    if more == 0 then 0 else size + Rounds(size, more - 1)
  }

  /** One round of the loop of `{n}`: a bridge state if needed, then a copy of the block [t1, free). */
  function CopyRound(a: Nfa, t1: nat, t2: nat, size: nat, bridged: bool): (b: Nfa)
    requires t1 <= |a.cells| && size == |a.cells| - t1 + (if bridged then 1 else 0)
    ensures |b.cells| == |a.cells| + size && a.cells <= b.cells && b.sets == a.sets
  {
    var a1 := if bridged then Emit(a, Cell(Eps, t2 + size, t2 + size)) else a;
    CopyBlock(a1, t1, |a.cells|, size)
  }

  /** The loop of `{n}`: `more` further copies of the block [t1, free), entered at t2. */
  function CopyLoop(a: Nfa, t1: nat, t2: nat, size: nat, bridged: bool, more: nat): (b: Nfa)
    requires t1 <= |a.cells| && size == |a.cells| - t1 + (if bridged then 1 else 0)
    ensures |b.cells| == |a.cells| + Rounds(size, more) && a.cells <= b.cells && b.sets == a.sets
    decreases more
  {
    if more == 0 then a
    else CopyLoop(CopyRound(a, t1, t2, size, bridged), t1 + size, t2 + size, size, bridged, more - 1)
  }

  /** `*` after a factor compiled at `lo` and entered at `t2`. */
  function CloseStar(a: Nfa, lo: nat, t2: nat): (b: Nfa)
    requires 0 < lo <= |a.cells|
    ensures |b.cells| == |a.cells| + 1 && b.sets == a.sets
  {
    var s := |a.cells|;
    Patch(Emit(a, Cell(Eps, s + 1, t2)), lo - 1, s)
  }

  /** `+` after a factor compiled at `lo`. */
  function ClosePlus(a: Nfa, lo: nat): (b: Nfa)
    ensures |b.cells| == |a.cells| + 1 && b.sets == a.sets
  {
    Emit(a, Cell(Eps, lo, |a.cells| + 1))
  }

  /** `{count}` after a factor compiled at `lo` and entered at `t2`. */
  function CloseTimes(a: Nfa, lo: nat, t2: nat, count: nat): (b: Nfa)
    requires lo <= |a.cells|
    ensures b.sets == a.sets && a.cells <= b.cells
    ensures |b.cells| == |a.cells| + Rounds(|a.cells| - lo + (if lo == t2 then 0 else 1), if count == 0 then 0 else count - 1)
  {
    var bridged := lo != t2;
    CopyLoop(a, lo, t2, |a.cells| - lo + (if bridged then 1 else 0), bridged, if count == 0 then 0 else count - 1)
  }

  /** After both operands of '|': `m` is the exit reserved for the left one, entered at `t1`; the right one is entered at `e`. */
  function CloseAlt(a: Nfa, m: nat, t1: nat, e: nat): (b: Nfa)
    requires 0 < t1 <= m && m + 1 < |a.cells|
    ensures |b.cells| == |a.cells| && b.sets == a.sets
  {
    var a1 := Fill(a, m + 1, Cell(Eps, e, t1));
    var a2 := Fill(a1, m, Cell(Eps, |a.cells|, |a.cells|));
    Patch(a2, t1 - 1, m + 1)
  }

  /** The postfix operator of `r`, whose operand has been compiled at `lo`. */
  function Postfix(r: Regex, a: Nfa, lo: nat): (c: (Nfa, nat))
    requires r.Star? || r.Plus? || r.Times?
    requires 0 < lo && |a.cells| == lo + Size(r.base)
    ensures |c.0.cells| == lo + Size(r) && c.1 == lo + Returned(r) && c.0.sets == a.sets
  {
    var t2 := lo + Returned(r.base);
    match r
    case Star(_) => (CloseStar(a, lo, t2), |a.cells|)
    case Plus(_) => (ClosePlus(a, lo), lo)
    case Times(base, count) =>
      SizeTimesIsRounds(base, count);
      (CloseTimes(a, lo, t2, count), t2)
  }

  /**
   Compile `r` at the next free state. Returns the automaton and the state the
   parser hands back as the entry of `r`.
   */
  function Compile(r: Regex, a: Nfa): (c: (Nfa, nat))
    requires |a.cells| > 0
    ensures |c.0.cells| == |a.cells| + Size(r)
    ensures c.1 == |a.cells| + Returned(r)
    ensures a.sets <= c.0.sets
    decreases r, 0
  {
    var free := |a.cells|;
    match r
    case Lit(c) => (Emit(a, Cell(Char(c), free + 1, free + 1)), free)
    case AnyOne => (Emit(a, Cell(Any, free + 1, free + 1)), free)
    case Set(negated, members) =>
      var a1 := a.(sets := a.sets + [members]);
      (Emit(a1, Cell(InSet(|a.sets|, negated), free + 1, free + 1)), free)
    case Group(body) => Compile(body, a)
    case Star(base) => Postfix(r, Compile(base, a).0, free)
    case Plus(base) => Postfix(r, Compile(base, a).0, free)
    case Times(base, count) => Postfix(r, Compile(base, a).0, free)
    case Cat(first, rest) =>
      var (a1, t1) := Compile(first, a);
      (CompileRest(rest, a1), t1)
    case Alt(left, right) =>
      ReturnedInBlock(left);
      var (a1, t1) := Compile(left, a);
      CompileRight(right, a1, t1)
  }

  /** After '|': reserve the exit of the left operand and the branch state, compile the right operand, fill both in. */
  function CompileRight(right: Regex, a: Nfa, t1: nat): (c: (Nfa, nat))
    requires 0 < t1 < |a.cells|
    ensures |c.0.cells| == |a.cells| + 2 + Size(right)
    ensures c.1 == |a.cells| + 1
    ensures a.sets <= c.0.sets
    decreases right, 1
  {
    var (b, e) := Compile(right, Emit(Emit(a, Unset), Unset));
    (CloseAlt(b, |a.cells|, t1, e), |a.cells| + 1)
  }

  /** The rest of a concatenation: a parenthesis gets a bridge state to its entry. */
  function CompileRest(rest: Regex, a: Nfa): (b: Nfa)
    requires |a.cells| > 0
    ensures |b.cells| == |a.cells| + (if StartsGroup(rest) then 1 else 0) + Size(rest)
    ensures a.sets <= b.sets
    decreases rest, 1
  {
    if StartsGroup(rest) then
      var (b, t2) := Compile(rest, Emit(a, Unset));
      Fill(b, |a.cells|, Cell(Eps, t2, t2))
    else
      Compile(rest, a).0
  }

  /** A parenthesis adds no states. */
  lemma {:induction false} GroupCompiles(body: Regex, a: Nfa)
    requires |a.cells| > 0
    ensures Compile(Group(body), a) == Compile(body, a)
  {}

  /** A loop or repetition is its operand and what the operator adds. */
  lemma {:induction false} OperatorCompiles(r: Regex, a: Nfa)
    requires |a.cells| > 0 && (r.Star? || r.Plus? || r.Times?)
    ensures Compile(r, a) == Postfix(r, Compile(r.base, a).0, |a.cells|)
  {
    hide Postfix, Size, Returned;
  }

  /** What the postfix operators compile to. */
  lemma {:induction false} PostfixCompiles(base: Regex, count: nat, b: Nfa)
    requires |b.cells| > 0
    ensures var a, t1, t2 := Compile(base, b).0, |b.cells|, Compile(base, b).1;
            && Compile(Star(base), b) == (CloseStar(a, t1, t2), |a.cells|)
            && Compile(Plus(base), b) == (ClosePlus(a, t1), t1)
            && Compile(Times(base, count), b) == (CloseTimes(a, t1, t2, count), t2)
  {
    hide CloseStar, ClosePlus, CloseTimes, Size, Returned, Rounds, Compile;
    OperatorCompiles(Star(base), b);
    OperatorCompiles(Plus(base), b);
    OperatorCompiles(Times(base, count), b);
  }

  /** What concatenation and alternation compile to. */
  lemma {:induction false} OperandsCompile(first: Regex, rest: Regex, b: Nfa)
    requires |b.cells| > 0
    ensures var (a, t1) := Compile(first, b);
            && Compile(Cat(first, rest), b) == (CompileRest(rest, a), t1)
            && t1 < |a.cells|
            && Compile(Alt(first, rest), b) == CompileRight(rest, a, t1)
  {
    hide CompileRest, CompileRight;
    ReturnedInBlock(first);
  }

  /** The entry of a compiled pattern is one of the states emitted for it. */
  lemma {:induction false} EntryEmitted(r: Regex, a: Nfa)
    requires |a.cells| > 0
    ensures |a.cells| <= Compile(r, a).1 < |Compile(r, a).0.cells|
  {
    ReturnedInBlock(r);
  }

  lemma {:induction false} CopyLoopDone(a: Nfa, t1: nat, t2: nat, size: nat, bridged: bool)
    requires t1 <= |a.cells| && size == |a.cells| - t1 + (if bridged then 1 else 0)
    ensures CopyLoop(a, t1, t2, size, bridged, 0) == a
  {}

  lemma {:induction false} SizeTimesIsRounds(r: Regex, count: nat)
    ensures SizeTimes(r, count) == Size(r) + Rounds(Size(r) + Bridge(r), if count == 0 then 0 else count - 1)
    decreases count
  {
    if count > 1 {
      SizeTimesIsRounds(r, count - 1);
    }
  }

  /** The whole automaton: start state 0, the pattern, the accept gate and the accept state. */
  function Program(r: Regex, minimal: bool): (a: Nfa)
    ensures |a.cells| == Final(r) + 2
  {
    var (a, t) := Compile(r, Nfa([Unset], []));
    Finish(Fill(a, 0, Cell(Eps, t, t)), minimal)
  }

  function Gate(final: nat, minimal: bool): Cell {
    if minimal then Cell(Eps, EOP, EOP) else Cell(Char(NUL), final + 1, final + 1)
  }

  function Finish(a: Nfa, minimal: bool): Nfa {
    Emit(Emit(a, Gate(|a.cells|, minimal)), Cell(Eps, EOP, EOP))
  }

  /** The accept gate of the automaton of `r`. */
  function Final(r: Regex): nat {
    1 + Size(r)
  }

  function Start(r: Regex): nat {
    1 + Returned(r)
  }

  // ---------- Back-patching yields the compositional layout ----------

  /** What compiling a term does to the cell before its first state. */
  function Touched(before: Cell, r: Regex, lo: nat): Cell {
    if before.Cell? && Head(r).Star? then before.(next1 := lo + Entry(r)) else before
  }

  /** `b` extends `a`, changing at most the last cell, into `last`. */
  ghost predicate Extends(a: Nfa, b: Nfa, last: Cell) {
    && 0 < |a.cells| <= |b.cells|
    && a.sets <= b.sets
    && (forall i | 0 <= i < |a.cells| - 1 :: b.cells[i] == a.cells[i])
    && b.cells[|a.cells| - 1] == last
  }

  /** `b` is `a` with `r` laid out at its end. */
  ghost predicate Grown(a: Nfa, b: Nfa, r: Regex) {
    && 0 < |a.cells| && |b.cells| == |a.cells| + Size(r)
    && Laid(b, r, |a.cells|, |b.cells|)
    && Extends(a, b, Touched(a.cells[|a.cells| - 1], r, |a.cells|))
  }

  /**
   For safe patterns the emitted states are exactly the compositional layout, and
   nothing before them changes, except that an expected patch reaches the state
   before a starred atom.
   */
  lemma {:induction false} CompileLays(r: Regex, a: Nfa)
    requires |a.cells| > 0 && WellShaped(r) && Safe(r)
    requires a.cells[|a.cells| - 1].Cell? ==> IsTerm(r) && !StartsGroup(r)
    ensures Grown(a, Compile(r, a).0, r)
    decreases r, 0
  {
    hide Compile, CompileRest, CompileRight, Postfix, Laid, Size;
    match r
    case Lit(_) => AtomLays(r, a);
    case AnyOne => AtomLays(r, a);
    case Set(_, _) => AtomLays(r, a);
    case Group(body) =>
      CompileLays(body, a);
      GroupCompiles(body, a);
      GroupLays(body, a, Compile(body, a).0);
    case Star(base) =>
      CompileLays(base, a);
      SafeReturnsEntry(base);
      OperatorCompiles(r, a);
      StarLays(a, Compile(base, a).0, base);
    case Plus(base) =>
      CompileLays(base, a);
      SafeReturnsEntry(base);
      HeadEnteredIsReturnedZero(base);
      OperatorCompiles(r, a);
      PlusLays(a, Compile(base, a).0, base);
    case Times(base, count) =>
      CompileLays(base, a);
      SafeReturnsEntry(base);
      OperatorCompiles(r, a);
      TimesLays(a, Compile(base, a).0, base, count);
    case Cat(first, rest) =>
      CompileLays(first, a);
      OperandsCompile(first, rest, a);
      CompileRestLays(first, rest, a, Compile(first, a).0);
    case Alt(left, right) =>
      CompileLays(left, a);
      SafeReturnsEntry(left);
      HeadEnteredIsReturnedZero(left);
      OperandsCompile(left, right, a);
      CompileRightLays(left, right, a, Compile(left, a).0);
  }

  lemma {:induction false} GroupLays(body: Regex, a: Nfa, b: Nfa)
    requires Grown(a, b, body) && a.cells[|a.cells| - 1].Unset?
    ensures Grown(a, b, Group(body))
  {
    GroupLaid(b, body, |a.cells|, |b.cells|);
    hide Laid;
  }

  lemma {:induction false} CompileRightLays(left: Regex, right: Regex, a: Nfa, a1: Nfa)
    requires WellShaped(Alt(left, right)) && Safe(right) && Grown(a, a1, left)
    requires a.cells[|a.cells| - 1].Unset? && Entry(left) == 0
    ensures Grown(a, CompileRight(right, a1, |a.cells|).0, Alt(left, right))
    decreases right, 1
  {
    hide Laid, Compile, CloseAlt, Entry, Returned;
    SafeReturnsEntry(right);
    CompileLays(right, Emit(Emit(a1, Unset), Unset));
    AltLays(a, a1, Compile(right, Emit(Emit(a1, Unset), Unset)).0, left, right);
  }

  lemma {:induction false} AtomLays(r: Regex, a: Nfa)
    requires IsAtom(r)
    requires |a.cells| > 0
    ensures Grown(a, Compile(r, a).0, r)
  {
    if r.Set? {
      var b := Compile(r, a).0;
      assert b.sets[|a.sets|] == r.members && HasCell(b, |a.cells|, InSet(|a.sets|, r.negated), |b.cells|);
    }
  }

  lemma {:induction false} CompileRestLays(first: Regex, rest: Regex, a: Nfa, a1: Nfa)
    requires WellShaped(Cat(first, rest)) && Safe(Cat(first, rest)) && Grown(a, a1, first)
    ensures Grown(a, CompileRest(rest, a1), Cat(first, rest))
    decreases rest, 1
  {
    hide Compile, Laid, Entry, Returned;
    SafeReturnsEntry(rest);
    if StartsGroup(rest) {
      CompileLays(rest, Emit(a1, Unset));
      BridgedCatLays(a, a1, Compile(rest, Emit(a1, Unset)).0, first, rest);
    } else {
      LastIsSet(a1, first, |a.cells|, |a1.cells|);
      CompileLays(rest, a1);
      CatLays(a, a1, Compile(rest, a1).0, first, rest);
    }
  }

  lemma {:induction false} StarLays(a: Nfa, a1: Nfa, base: Regex)
    requires IsBase(base) && Grown(a, a1, base) && Returned(base) == Entry(base)
    requires a.cells[|a.cells| - 1].Cell? ==> !base.Group?
    ensures Grown(a, Postfix(Star(base), a1, |a.cells|).0, Star(base))
  {
    hide Laid;
    var lo := |a.cells|;
    var b := CloseStar(a1, lo, lo + Entry(base));
    LoopLaid(b, Star(base), lo, |b.cells|);
    LaidFrame(a1, b, base, lo, |a1.cells|);
    assert HasEps(b, lo + Size(base), |b.cells|, lo + Entry(base));
  }

  lemma {:induction false} PlusLays(a: Nfa, a1: Nfa, base: Regex)
    requires IsBase(base) && Grown(a, a1, base) && Entry(base) == 0
    ensures Grown(a, Postfix(Plus(base), a1, |a.cells|).0, Plus(base))
  {
    hide Laid;
    var lo := |a.cells|;
    var b := ClosePlus(a1, lo);
    LoopLaid(b, Plus(base), lo, |b.cells|);
    LaidFrame(a1, b, base, lo, |a1.cells|);
    assert HasEps(b, lo + Size(base), lo, |b.cells|);
  }

  lemma {:induction false} TimesLays(a: Nfa, a1: Nfa, base: Regex, count: nat)
    requires IsBase(base) && Grown(a, a1, base) && count > 0 && Returned(base) == Entry(base)
    ensures Grown(a, Postfix(Times(base, count), a1, |a.cells|).0, Times(base, count))
  {
    hide Grown, Size, Entry, CloseTimes;
    CopiesLay(a, a1, base, count);
  }

  lemma {:induction false} CopiesLay(a: Nfa, a1: Nfa, base: Regex, count: nat)
    requires IsBase(base) && Grown(a, a1, base) && count > 0 && Returned(base) == Entry(base)
    ensures Grown(a, CloseTimes(a1, |a.cells|, |a.cells| + Entry(base), count), Times(base, count))
  {
    hide Laid, LaidTimes, CopyLoop;
    var lo := |a.cells|;
    var b := CloseTimes(a1, lo, lo + Entry(base), count);
    CopiesLaid(b, base, count, lo, |b.cells|);
    CopyLoopLays(a1, b, base, lo, lo + Entry(base), Size(base) + Bridge(base), count - 1);
    SizeTimesIsRounds(base, count);
    assert a1.cells <= b.cells;
  }

  /** One round keeps the block, lays out a relocated copy, and bridges the two if needed. */
  lemma {:induction false} CopyRoundLays(a: Nfa, r: Regex, t1: nat, t2: nat, size: nat, more: nat) returns (b: Nfa)
    requires |a.cells| == t1 + Size(r) && t2 == t1 + Entry(r) && size == Size(r) + Bridge(r)
    requires Returned(r) == Entry(r) && Laid(a, r, t1, |a.cells|) && more > 0
    ensures |b.cells| == t1 + size + Size(r)
    ensures CopyLoop(a, t1, t2, size, t1 != t2, more) == CopyLoop(b, t1 + size, t2 + size, size, t1 != t2, more - 1)
    ensures Laid(b, r, t1, |a.cells|) && Laid(b, r, t1 + size, |b.cells|)
    ensures t1 != t2 ==> HasEps(b, |a.cells|, t2 + size, t2 + size)
  {
    hide Laid;
    b := CopyRound(a, t1, t2, size, t1 != t2);
    CopyRoundCells(a, t1, t2, size, t1 != t2);
    LaidInCopy(a, b, r, t1, |a.cells|, size);
  }

  lemma {:induction false} CopyRoundCells(a: Nfa, t1: nat, t2: nat, size: nat, bridged: bool)
    requires t1 <= |a.cells| && size == |a.cells| - t1 + (if bridged then 1 else 0)
    ensures var b := CopyRound(a, t1, t2, size, bridged);
            && Relocated(a, b, t1, |a.cells|, size)
            && (bridged ==> HasEps(b, |a.cells|, t2 + size, t2 + size))
  {}

  lemma {:induction false} LaidInCopy(a: Nfa, b: Nfa, r: Regex, lo: nat, x: nat, d: nat)
    requires Laid(a, r, lo, x) && Relocated(a, b, lo, lo + Size(r), d) && a.cells <= b.cells
    ensures Laid(b, r, lo, x) && Laid(b, r, lo + d, x + d)
  {
    LaidRelocated(a, b, r, lo, x, d);
    LaidFrame(a, b, r, lo, x);
  }

  lemma {:induction false} PrependCopy(a: Nfa, b: Nfa, r: Regex, count: nat, t1: nat, t2: nat, size: nat, m: nat)
    requires m == t1 + Size(r) && t2 == t1 + Entry(r) && size == Size(r) + Bridge(r)
    requires t1 + size <= |a.cells| && a.cells <= b.cells && a.sets == b.sets
    requires Returned(r) == Entry(r) && Laid(a, r, t1, m)
    requires t1 != t2 ==> HasEps(a, m, t2 + size, t2 + size)
    requires count > 0 && LaidTimes(b, r, count, t1 + size, |b.cells|)
    ensures LaidTimes(b, r, count + 1, t1, |b.cells|)
  {
    hide Laid, LaidTimes;
    TimesLaid(b, r, count + 1, t1, |b.cells|);
    LaidFrame(a, b, r, t1, m);
  }

  /** The copy loop chains relocated copies of the block it starts from. */
  lemma {:induction false} CopyLoopLays(a: Nfa, b: Nfa, r: Regex, t1: nat, t2: nat, size: nat, more: nat)
    requires |a.cells| == t1 + Size(r) && t2 == t1 + Entry(r) && size == Size(r) + Bridge(r)
    requires Returned(r) == Entry(r) && Laid(a, r, t1, |a.cells|)
    requires b == CopyLoop(a, t1, t2, size, t1 != t2, more)
    ensures LaidTimes(b, r, more + 1, t1, |b.cells|)
    decreases more
  {
    hide Laid, LaidTimes, Size, Entry;
    TimesLaid(b, r, 1, t1, |b.cells|);
    if more > 0 {
      var a2 := CopyRoundLays(a, r, t1, t2, size, more);
      CopyLoopLays(a2, b, r, t1 + size, t2 + size, size, more - 1);
      PrependCopy(a2, b, r, more, t1, t2, size, |a.cells|);
    }
  }

  lemma {:induction false} BridgedCatLays(a: Nfa, a1: Nfa, a2: Nfa, first: Regex, rest: Regex)
    requires StartsGroup(rest) && IsFactor(first)
    requires Grown(a, a1, first) && Grown(Emit(a1, Unset), a2, rest)
    ensures Grown(a, Fill(a2, |a1.cells|, Cell(Eps, |a1.cells| + 1 + Entry(rest), |a1.cells| + 1 + Entry(rest))),
                  Cat(first, rest))
  {
    var m := |a1.cells|;
    hide Laid;
    var e := m + 1 + Entry(rest);
    var b := Fill(a2, m, Cell(Eps, e, e));
    CatLaid(b, first, rest, |a.cells|, |b.cells|);
    assert forall i | 0 <= i < m :: b.cells[i] == Emit(a1, Unset).cells[i];
    LaidFrame(a1, b, first, |a.cells|, m);
    LaidFrame(a2, b, rest, m + 1, |b.cells|);
    assert HasEps(b, m, e, e);
  }

  lemma {:induction false} CatLays(a: Nfa, a1: Nfa, a2: Nfa, first: Regex, rest: Regex)
    requires WellShaped(Cat(first, rest)) && Safe(Cat(first, rest)) && !StartsGroup(rest)
    requires Grown(a, a1, first) && Grown(a1, a2, rest) && a1.cells[|a1.cells| - 1].Cell?
    ensures Grown(a, a2, Cat(first, rest))
  {
    hide Laid;
    CatLaid(a2, first, rest, |a.cells|, |a2.cells|);
    var m := |a1.cells|;
    if Head(rest).Star? {
      LaidExitPatched(a1, a2, first, |a.cells|, m, m + Entry(rest));
    } else {
      AtomEntryZero(rest);
      LaidFrame(a1, a2, first, |a.cells|, m);
    }
  }

  lemma {:induction false} AtomEntryZero(r: Regex)
    requires WellShaped(r) && IsTerm(r) && !StartsGroup(r) && !Head(r).Star?
    ensures Entry(r) == 0
  {
    var head := Head(r);
    assert Entry(r) == Entry(head);
    match head
    case Lit(_) =>
    case AnyOne =>
    case Set(_, _) =>
    case Plus(base) =>
      assert IsAtom(base);
      assert Entry(base) == 0;
    case Times(base, _) =>
      assert IsAtom(base);
      assert Entry(base) == 0;
  }

  lemma {:induction false} AltLays(a: Nfa, a1: Nfa, a2: Nfa, left: Regex, right: Regex)
    requires |a.cells| > 0 && a.cells[|a.cells| - 1].Unset? && Entry(left) == 0
    requires Grown(a, a1, left) && Grown(Emit(Emit(a1, Unset), Unset), a2, right)
    ensures Grown(a, CloseAlt(a2, |a1.cells|, |a.cells|, |a1.cells| + 2 + Entry(right)), Alt(left, right))
  {
    hide Laid, Entry, Size;
    SizeOfAlt(left, right);
    var lo, m := |a.cells|, |a1.cells|;
    var b := CloseAlt(a2, m, lo, m + 2 + Entry(right));
    AltLaid(b, left, right, lo, |b.cells|);
    var a1' := Emit(Emit(a1, Unset), Unset);
    assert forall i | 0 <= i < m :: a2.cells[i] == a1'.cells[i] == a1.cells[i];
    LaidFrame(a1, b, left, lo, m);
    LaidFrame(a2, b, right, m + 2, |b.cells|);
    assert HasEps(b, m, |b.cells|, |b.cells|) && HasEps(b, m + 1, m + 2 + Entry(right), lo);
  }

  lemma {:induction false} SizeOfAlt(left: Regex, right: Regex)
    ensures Size(Alt(left, right)) == Size(left) + 2 + Size(right)
  {}

  /** The last state of a laid-out block has been written. */
  lemma {:induction false} LastIsSet(a: Nfa, r: Regex, lo: nat, x: nat)
    requires Laid(a, r, lo, x)
    ensures lo + Size(r) <= |a.cells| && a.cells[lo + Size(r) - 1].Cell?
    decreases r, 0
  {
    hide Laid, LaidTimes;
    match r
    case Lit(_) => AtomIsSet(a, r, lo, x);
    case AnyOne => AtomIsSet(a, r, lo, x);
    case Set(_, _) => AtomIsSet(a, r, lo, x);
    case Group(body) =>
      GroupLaid(a, body, lo, x);
      LastIsSet(a, body, lo, x);
    case Star(_) => LoopLaid(a, r, lo, x);
    case Plus(_) => LoopLaid(a, r, lo, x);
    case Times(base, count) =>
      CopiesLaid(a, base, count, lo, x);
      LastOfTimesIsSet(a, base, count, lo, x);
    case Cat(first, rest) =>
      CatLaid(a, first, rest, lo, x);
      LastIsSet(a, rest, lo + Size(first) + (if StartsGroup(rest) then 1 else 0), x);
    case Alt(left, right) =>
      AltLaid(a, left, right, lo, x);
      LastIsSet(a, right, lo + Size(left) + 2, x);
  }

  lemma {:induction false} AtomIsSet(a: Nfa, r: Regex, lo: nat, x: nat)
    requires IsAtom(r) && Laid(a, r, lo, x)
    ensures lo < |a.cells| && a.cells[lo].Cell? && a.cells[lo].next1 == x && Size(r) == 1
  {
    hide LaidTimes;
  }

  lemma {:induction false} LastOfTimesIsSet(a: Nfa, r: Regex, count: nat, lo: nat, x: nat)
    requires LaidTimes(a, r, count, lo, x)
    ensures lo + SizeTimes(r, count) <= |a.cells| && a.cells[lo + SizeTimes(r, count) - 1].Cell?
    decreases r, count + 1
  {
    hide Laid, LaidTimes, Size, Entry;
    TimesLaid(a, r, count, lo, x);
    if count <= 1 {
      LastIsSet(a, r, lo, x);
    } else {
      LastOfTimesIsSet(a, r, count - 1, lo + Size(r) + Bridge(r), x);
    }
  }
}
