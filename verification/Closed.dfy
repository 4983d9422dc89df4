/**
 Every automaton the compiler emits is closed, whether or not the pattern is safe:
 no reserved state is left unwritten, no transition leads outside, and 0 is a target
 of the last two states only.
 */
module Closed {
  import opened Bytes
  import opened Patterns
  import opened Nfa
  import opened Layout
  import opened Compiler

  /** A written cell with both targets in [lo, hi], a known set, and no NUL literal. */
  predicate Sound(cell: Cell, lo: nat, hi: nat, sets: nat) {
    && cell.Cell?
    && lo <= cell.next1 <= hi && lo <= cell.next2 <= hi
    && (cell.op.InSet? ==> cell.op.index < sets)
    && (cell.op.Char? ==> cell.op.c != NUL)
  }

  /** `next1` may have been redirected into [lo, hi]. */
  predicate MayPatch(before: Cell, after: Cell, lo: nat, hi: nat) {
    after == before ||
    (before.Cell? && exists y | lo <= y <= hi :: after == before.(next1 := y))
  }

  /** `b` is `a` with a closed block added; of the old cells only the last may have been redirected, into the block. */
  ghost predicate Closes(a: Nfa, b: Nfa) {
    && 0 < |a.cells| <= |b.cells|
    && a.sets <= b.sets
    && (forall i | 0 <= i < |a.cells| - 1 :: b.cells[i] == a.cells[i])
    && MayPatch(a.cells[|a.cells| - 1], b.cells[|a.cells| - 1], |a.cells|, |b.cells|)
    && (forall i | |a.cells| <= i < |b.cells| :: Sound(b.cells[i], |a.cells|, |b.cells|, |b.sets|))
  }

  lemma {:induction false} CompileCloses(r: Regex, a: Nfa)
    requires |a.cells| > 0 && WellShaped(r)
    ensures Closes(a, Compile(r, a).0)
    decreases r, 0
  {
    hide Compile, CompileRest, CompileRight, Postfix, Closes, Size, Returned;
    match r
    case Lit(_) => AtomCloses(r, a);
    case AnyOne => AtomCloses(r, a);
    case Set(_, _) => AtomCloses(r, a);
    case Group(body) =>
      CompileCloses(body, a);
      GroupCompiles(body, a);
    case Star(base) =>
      CompileCloses(base, a);
      OperatorCompiles(r, a);
      StarCloses(a, Compile(base, a).0, base);
    case Plus(base) =>
      CompileCloses(base, a);
      OperatorCompiles(r, a);
      PlusCloses(a, Compile(base, a).0, base);
    case Times(base, count) =>
      CompileCloses(base, a);
      OperatorCompiles(r, a);
      TimesCloses(a, Compile(base, a).0, base, count);
    case Cat(first, rest) =>
      CompileCloses(first, a);
      OperandsCompile(first, rest, a);
      RestCloses(rest, a, Compile(first, a).0);
    case Alt(left, right) =>
      CompileCloses(left, a);
      OperandsCompile(left, right, a);
      RightCloses(right, a, Compile(left, a).0, |a.cells| + Returned(left));
  }

  lemma {:induction false} AtomCloses(r: Regex, a: Nfa)
    requires IsAtom(r) && WellShaped(r) && |a.cells| > 0
    ensures Closes(a, Compile(r, a).0)
  {}

  lemma {:induction false} StarCloses(a: Nfa, a1: Nfa, base: Regex)
    requires 0 < |a.cells| && |a1.cells| == |a.cells| + Size(base) && Closes(a, a1)
    ensures Closes(a, Postfix(Star(base), a1, |a.cells|).0)
  {
    ReturnedInBlock(base);
    var b := CloseStar(a1, |a.cells|, |a.cells| + Returned(base));
    assert b == Postfix(Star(base), a1, |a.cells|).0;
  }

  lemma {:induction false} PlusCloses(a: Nfa, a1: Nfa, base: Regex)
    requires 0 < |a.cells| && |a1.cells| == |a.cells| + Size(base) && Closes(a, a1)
    ensures Closes(a, Postfix(Plus(base), a1, |a.cells|).0)
  {
    var b := ClosePlus(a1, |a.cells|);
    assert b == Postfix(Plus(base), a1, |a.cells|).0;
  }

  lemma {:induction false} TimesCloses(a: Nfa, a1: Nfa, base: Regex, count: nat)
    requires 0 < |a.cells| && |a1.cells| == |a.cells| + Size(base) && Closes(a, a1)
    ensures Closes(a, Postfix(Times(base, count), a1, |a.cells|).0)
  {
    ReturnedInBlock(base);
    var lo := |a.cells|;
    var t2 := lo + Returned(base);
    var size := Size(base) + (if lo != t2 then 1 else 0);
    var more := if count == 0 then 0 else count - 1;
    var b := CopyLoop(a1, lo, t2, size, lo != t2, more);
    assert b == Postfix(Times(base, count), a1, lo).0;
    CopyLoopCloses(a1, b, lo, lo, t2, size, lo != t2, more);
  }

  /** All cells from `lo` on are sound for the block [lo, |a.cells|). */
  ghost predicate SoundFrom(a: Nfa, lo: nat) {
    forall i | lo <= i < |a.cells| :: Sound(a.cells[i], lo, |a.cells|, |a.sets|)
  }

  /** A copy of a sound block, shifted, is sound, and so is the bridge to it. */
  lemma {:induction false} CopyRoundCloses(a: Nfa, b: Nfa, lo: nat, t1: nat, t2: nat, size: nat, bridged: bool)
    requires lo <= t1 <= t2 < |a.cells| && size == |a.cells| - t1 + (if bridged then 1 else 0)
    requires SoundFrom(a, lo) && SoundFrom(a, t1)
    requires |b.cells| == |a.cells| + size && a.cells <= b.cells && a.sets == b.sets
    requires Relocated(a, b, t1, |a.cells|, size)
    requires bridged ==> HasEps(b, |a.cells|, t2 + size, t2 + size)
    ensures SoundFrom(b, lo) && SoundFrom(b, t1 + size)
  {
    forall i | |a.cells| <= i < |b.cells|
      ensures Sound(b.cells[i], lo, |b.cells|, |b.sets|)
      ensures t1 + size <= i ==> Sound(b.cells[i], t1 + size, |b.cells|, |b.sets|)
    {
      if t1 + size <= i {
        assert b.cells[i] == Shift(a.cells[i - size], size);
      }
    }
  }

  lemma {:induction false} SoundRound(a: Nfa, lo: nat, t1: nat, t2: nat, size: nat, bridged: bool) returns (b: Nfa)
    requires lo <= t1 <= t2 < |a.cells| && size == |a.cells| - t1 + (if bridged then 1 else 0)
    requires SoundFrom(a, lo) && SoundFrom(a, t1)
    ensures b == CopyRound(a, t1, t2, size, bridged) && |b.cells| == |a.cells| + size
    ensures SoundFrom(b, lo) && SoundFrom(b, t1 + size)
  {
    b := CopyRound(a, t1, t2, size, bridged);
    CopyRoundCells(a, t1, t2, size, bridged);
    CopyRoundCloses(a, b, lo, t1, t2, size, bridged);
  }

  lemma {:induction false} CompiledIsSound(r: Regex, a: Nfa)
    requires |a.cells| > 0 && WellShaped(r)
    ensures SoundFrom(Compile(r, a).0, |a.cells|)
    ensures |a.cells| <= Compile(r, a).1 < |Compile(r, a).0.cells|
  {
    hide Compile;
    CompileCloses(r, a);
    ReturnedInBlock(r);
  }

  lemma {:induction false} CopyLoopCloses(a: Nfa, b: Nfa, lo: nat, t1: nat, t2: nat, size: nat, bridged: bool, more: nat)
    requires lo <= t1 <= t2 < |a.cells| && size == |a.cells| - t1 + (if bridged then 1 else 0)
    requires SoundFrom(a, lo) && SoundFrom(a, t1)
    requires b == CopyLoop(a, t1, t2, size, bridged, more)
    ensures SoundFrom(b, lo)
    decreases more
  {
    hide SoundFrom;
    if more > 0 {
      var a2 := SoundRound(a, lo, t1, t2, size, bridged);
      CopyLoopCloses(a2, b, lo, t1 + size, t2 + size, size, bridged, more - 1);
    }
  }

  lemma {:induction false} RestCloses(rest: Regex, a: Nfa, a1: Nfa)
    requires WellShaped(rest) && |a1.cells| > |a.cells| && Closes(a, a1)
    ensures Closes(a, CompileRest(rest, a1))
    decreases rest, 1
  {
    hide Compile, Returned;
    if StartsGroup(rest) {
      CompileCloses(rest, Emit(a1, Unset));
      ReturnedInBlock(rest);
      BridgeCloses(a, a1, Compile(rest, Emit(a1, Unset)).0, |a1.cells| + 1 + Returned(rest));
    } else {
      CompileCloses(rest, a1);
      TransCloses(a, a1, Compile(rest, a1).0);
    }
  }

  lemma {:induction false} TransCloses(a: Nfa, a1: Nfa, a2: Nfa)
    requires Closes(a, a1) && Closes(a1, a2) && |a.cells| < |a1.cells|
    ensures Closes(a, a2)
  {}

  lemma {:induction false} BridgeCloses(a: Nfa, a1: Nfa, a2: Nfa, e: nat)
    requires Closes(a, a1) && |a.cells| < |a1.cells|
    requires Closes(Emit(a1, Unset), a2) && |a1.cells| < e <= |a2.cells|
    ensures Closes(a, Fill(a2, |a1.cells|, Cell(Eps, e, e)))
  {
    assert forall i | 0 <= i < |a1.cells| :: a2.cells[i] == Emit(a1, Unset).cells[i] == a1.cells[i];
  }

  lemma {:induction false} RightCloses(right: Regex, a: Nfa, a1: Nfa, t1: nat)
    requires WellShaped(right) && |a.cells| <= t1 < |a1.cells| && Closes(a, a1)
    ensures Closes(a, CompileRight(right, a1, t1).0)
    decreases right, 1
  {
    hide Compile, Returned, CloseAlt, Closes;
    var a1' := Emit(Emit(a1, Unset), Unset);
    CompileCloses(right, a1');
    ReturnedInBlock(right);
    AltCloses(a, a1, Compile(right, a1').0, t1, |a1'.cells| + Returned(right));
  }

  lemma {:induction false} AltCloses(a: Nfa, a1: Nfa, a2: Nfa, t1: nat, e: nat)
    requires |a.cells| <= t1 < |a1.cells| && Closes(a, a1)
    requires Closes(Emit(Emit(a1, Unset), Unset), a2) && |a1.cells| + 2 <= e <= |a2.cells|
    ensures Closes(a, CloseAlt(a2, |a1.cells|, t1, e))
  {
    var m := |a1.cells|;
    var a1' := Emit(Emit(a1, Unset), Unset);
    assert forall i | 0 <= i < m :: a2.cells[i] == a1'.cells[i] == a1.cells[i];
  }

  /** The finished automaton: states 1..final-1 stay in 1..final, the last two are the accept gate and the accept state. */
  ghost predicate Gated(a: Nfa, final: nat, minimal: bool) {
    && 0 < final && |a.cells| == final + 2
    && (forall i | 1 <= i < final :: Sound(a.cells[i], 1, final, |a.sets|))
    && a.cells[final] == Gate(final, minimal)
    && a.cells[final + 1] == Cell(Eps, EOP, EOP)
    && a.cells[0].Cell? && 1 <= a.cells[0].next1 <= final && a.cells[0].next2 == a.cells[0].next1
  }

  lemma {:induction false} ProgramGated(r: Regex, minimal: bool)
    requires WellShaped(r)
    ensures Gated(Program(r, minimal), Final(r), minimal)
  {
    CompileCloses(r, Nfa([Unset], []));
    ReturnedInBlock(r);
  }
}
