/**
 A compositional picture of a finished automaton. `Laid(a, r, lo, x)` says that the
 cells from `lo` on hold the states of pattern `r` with every exit leading to state `x`.
 It mentions no emission order, no reservation and no patching.
 */
module Layout {
  import opened Patterns
  import opened Nfa

  /** Offset of the state that the parser hands back as the entry of `r`. For '+' this is the first state, whatever the operand. */
  function Returned(r: Regex): nat
    decreases r, 0
  {
    match r
    case Lit(_) => 0
    case AnyOne => 0
    case Set(_, _) => 0
    case Group(body) => Returned(body)
    case Star(base) => Size(base)
    case Plus(_) => 0
    case Times(base, _) => Returned(base)
    case Cat(first, _) => Returned(first)
    case Alt(left, _) => Size(left) + 1
  }

  /** 1 when consecutive copies of `{n}` are joined by an epsilon state. */
  function Bridge(r: Regex): nat
    decreases r, 2
  {
    if Returned(r) == 0 then 0 else 1
  }

  /** Number of states emitted for `r`. */
  function Size(r: Regex): (n: nat)
    ensures n > 0
    decreases r, 1
  {
    match r
    case Lit(_) => 1
    case AnyOne => 1
    case Set(_, _) => 1
    case Group(body) => Size(body)
    case Star(base) => Size(base) + 1
    case Plus(base) => Size(base) + 1
    case Times(base, count) => SizeTimes(base, count)
    case Cat(first, rest) => Size(first) + (if StartsGroup(rest) then 1 else 0) + Size(rest)
    case Alt(left, right) => Size(left) + 2 + Size(right)
  }

  function SizeTimes(r: Regex, count: nat): (n: nat)
    ensures n > 0
    decreases r, 3, count
  {
    if count <= 1 then Size(r) else Size(r) + Bridge(r) + SizeTimes(r, count - 1)
  }

  /** Offset of the state at which `r` has to be entered. */
  function Entry(r: Regex): nat
    decreases r, 0
  {
    match r
    case Lit(_) => 0
    case AnyOne => 0
    case Set(_, _) => 0
    case Group(body) => Entry(body)
    case Star(base) => Size(base)
    case Plus(base) => Entry(base)
    case Times(base, _) => Entry(base)
    case Cat(first, _) => Entry(first)
    case Alt(left, _) => Size(left) + 1
  }

  predicate HasCell(a: Nfa, s: nat, op: Op, next1: nat) {
    s < |a.cells| && a.cells[s].Cell? && a.cells[s].op == op && a.cells[s].next1 == next1
  }

  predicate HasEps(a: Nfa, s: nat, next1: nat, next2: nat) {
    s < |a.cells| && a.cells[s] == Cell(Eps, next1, next2)
  }

  ghost predicate Laid(a: Nfa, r: Regex, lo: nat, x: nat)
    decreases r, 0
  {
    match r
    case Lit(c) => HasCell(a, lo, Char(c), x)
    case AnyOne => HasCell(a, lo, Any, x)
    case Set(negated, members) =>
      exists k | 0 <= k < |a.sets| :: a.sets[k] == members && HasCell(a, lo, InSet(k, negated), x)
    case Group(body) => Laid(a, body, lo, x)
    case Star(base) =>
      var s := lo + Size(base);
      Laid(a, base, lo, s) && HasEps(a, s, x, lo + Entry(base))
    case Plus(base) =>
      var s := lo + Size(base);
      Laid(a, base, lo, s) && HasEps(a, s, lo + Entry(base), x)
    case Times(base, count) => LaidTimes(a, base, count, lo, x)
    case Cat(first, rest) =>
      var m := lo + Size(first);
      if StartsGroup(rest) then
        Laid(a, first, lo, m) && HasEps(a, m, m + 1 + Entry(rest), m + 1 + Entry(rest)) && Laid(a, rest, m + 1, x)
      else
        Laid(a, first, lo, m + Entry(rest)) && Laid(a, rest, m, x)
    case Alt(left, right) =>
      var m := lo + Size(left);
      && Laid(a, left, lo, m)
      && HasEps(a, m, x, x)
      && HasEps(a, m + 1, m + 2 + Entry(right), lo + Entry(left))
      && Laid(a, right, m + 2, x)
  }

  /** `count` relocated copies chained exit to entry. */
  ghost predicate LaidTimes(a: Nfa, r: Regex, count: nat, lo: nat, x: nat)
    decreases r, count + 1
  {
    if count <= 1 then Laid(a, r, lo, x)
    else
      var m := lo + Size(r);
      && Laid(a, r, lo, CopyExit(r, m))
      && (Bridge(r) != 0 ==> HasEps(a, m, m + 1 + Entry(r), m + 1 + Entry(r)))
      && LaidTimes(a, r, count - 1, m + Bridge(r), x)
  }

  /** Where a copy that ends before state `m` exits to: the bridge, or the entry of the next copy. */
  function CopyExit(r: Regex, m: nat): nat {
    if Bridge(r) == 0 then m + Entry(r) else m
  }

  lemma {:induction false} GroupLaid(a: Nfa, body: Regex, lo: nat, x: nat)
    ensures Laid(a, Group(body), lo, x) <==> Laid(a, body, lo, x)
  {
    hide LaidTimes;
  }

  lemma {:induction false} CatLaid(a: Nfa, first: Regex, rest: Regex, lo: nat, x: nat)
    ensures var m := lo + Size(first);
            Laid(a, Cat(first, rest), lo, x) <==>
            if StartsGroup(rest) then
              Laid(a, first, lo, m) && HasEps(a, m, m + 1 + Entry(rest), m + 1 + Entry(rest)) && Laid(a, rest, m + 1, x)
            else
              Laid(a, first, lo, m + Entry(rest)) && Laid(a, rest, m, x)
  {
    hide Size, Entry, StartsGroup, LaidTimes, HasEps, HasCell;
  }

  lemma {:induction false} AltLaid(a: Nfa, left: Regex, right: Regex, lo: nat, x: nat)
    ensures var m := lo + Size(left);
            Laid(a, Alt(left, right), lo, x) <==>
            && Laid(a, left, lo, m)
            && HasEps(a, m, x, x)
            && HasEps(a, m + 1, m + 2 + Entry(right), lo + Entry(left))
            && Laid(a, right, m + 2, x)
  {
    hide Size, Entry, StartsGroup, LaidTimes, HasEps, HasCell;
  }

  lemma {:induction false} LoopLaid(a: Nfa, r: Regex, lo: nat, x: nat)
    requires r.Star? || r.Plus?
    ensures var s := lo + Size(r.base);
            Laid(a, r, lo, x) <==>
            && Laid(a, r.base, lo, s)
            && (if r.Star? then HasEps(a, s, x, lo + Entry(r.base)) else HasEps(a, s, lo + Entry(r.base), x))
  {
    hide Size, Entry, StartsGroup, LaidTimes, HasEps, HasCell;
  }

  lemma {:induction false} TimesLaid(a: Nfa, r: Regex, count: nat, lo: nat, x: nat)
    ensures count <= 1 ==> (LaidTimes(a, r, count, lo, x) <==> Laid(a, r, lo, x))
    ensures var m := lo + Size(r);
            count > 1 ==>
              (LaidTimes(a, r, count, lo, x) <==>
               && Laid(a, r, lo, CopyExit(r, m))
               && (Bridge(r) != 0 ==> HasEps(a, m, m + 1 + Entry(r), m + 1 + Entry(r)))
               && LaidTimes(a, r, count - 1, m + Bridge(r), x))
  {
    hide Size, Entry, Laid, HasEps, HasCell;
  }

  lemma {:induction false} CopiesLaid(a: Nfa, base: Regex, count: nat, lo: nat, x: nat)
    ensures Laid(a, Times(base, count), lo, x) <==> LaidTimes(a, base, count, lo, x)
  {
    hide LaidTimes;
  }

  // ---------- Basic facts ----------

  lemma {:induction false} EntryInBlock(r: Regex)
    ensures Entry(r) < Size(r)
    decreases r
  {
    match r
    case Lit(_) =>
    case AnyOne =>
    case Set(_, _) =>
    case Group(body) => EntryInBlock(body);
    case Star(base) =>
    case Plus(base) => EntryInBlock(base);
    case Times(base, count) => EntryInBlock(base);
    case Cat(first, rest) => EntryInBlock(first);
    case Alt(left, right) =>
  }

  lemma {:induction false} EntryInTimes(r: Regex, count: nat)
    ensures Entry(r) < SizeTimes(r, count)
  {
    EntryInBlock(r);
  }

  lemma {:induction false} ReturnedInBlock(r: Regex)
    ensures Returned(r) < Size(r)
    decreases r
  {
    match r
    case Lit(_) =>
    case AnyOne =>
    case Set(_, _) =>
    case Group(body) => ReturnedInBlock(body);
    case Star(base) =>
    case Plus(base) =>
    case Times(base, count) => ReturnedInBlock(base);
    case Cat(first, rest) => ReturnedInBlock(first);
    case Alt(left, right) =>
  }

  /** The syntactic notion of being head-entered says that the parser hands back the first state. */
  lemma {:induction false} HeadEnteredIsReturnedZero(r: Regex)
    ensures HeadEntered(r) <==> Returned(r) == 0
    decreases r
  {
    match r
    case Lit(_) =>
    case AnyOne =>
    case Set(_, _) =>
    case Group(body) => HeadEnteredIsReturnedZero(body);
    case Star(base) =>
    case Plus(base) =>
    case Times(base, _) => HeadEnteredIsReturnedZero(base);
    case Cat(first, _) => HeadEnteredIsReturnedZero(first);
    case Alt(_, _) =>
  }

  /** A safe pattern is entered where the parser says. */
  lemma {:induction false} SafeReturnsEntry(r: Regex)
    requires Safe(r)
    ensures Returned(r) == Entry(r)
    decreases r
  {
    match r
    case Lit(_) =>
    case AnyOne =>
    case Set(_, _) =>
    case Group(body) => SafeReturnsEntry(body);
    case Star(_) =>
    case Plus(base) =>
      SafeReturnsEntry(base);
      HeadEnteredIsReturnedZero(base);
    case Times(base, _) => SafeReturnsEntry(base);
    case Cat(first, _) => SafeReturnsEntry(first);
    case Alt(_, _) =>
  }

  /** For '+' the parser hands back the right entry exactly when the operand is head-entered. */
  lemma {:induction false} PlusReturnsEntryExactly(base: Regex)
    requires Safe(base)
    ensures Returned(Plus(base)) == Entry(Plus(base)) <==> HeadEntered(base)
  {
    SafeReturnsEntry(base);
    HeadEnteredIsReturnedZero(base);
  }

  /** `b` holds the same cells as `a` on [lo, hi), and at least the same sets. */
  ghost predicate SameOn(a: Nfa, b: Nfa, lo: nat, hi: nat) {
    && hi <= |b.cells| && hi <= |a.cells|
    && a.sets <= b.sets
    && forall i | lo <= i < hi :: a.cells[i] == b.cells[i]
  }

  /** What is laid out in a block depends on the cells of that block only. */
  lemma {:induction false} LaidFrame(a: Nfa, b: Nfa, r: Regex, lo: nat, x: nat)
    requires Laid(a, r, lo, x) && SameOn(a, b, lo, lo + Size(r))
    ensures Laid(b, r, lo, x)
    decreases r, 0
  {
    hide Laid, LaidTimes;
    match r
    case Lit(_) => LaidAtomFrame(a, b, r, lo, x);
    case AnyOne => LaidAtomFrame(a, b, r, lo, x);
    case Set(_, _) => LaidAtomFrame(a, b, r, lo, x);
    case Group(body) =>
      GroupLaid(a, body, lo, x);
      GroupLaid(b, body, lo, x);
      LaidFrame(a, b, body, lo, x);
    case Star(_) => LaidLoopFrame(a, b, r, lo, x);
    case Plus(_) => LaidLoopFrame(a, b, r, lo, x);
    case Times(base, count) =>
      CopiesLaid(a, base, count, lo, x);
      CopiesLaid(b, base, count, lo, x);
      LaidTimesFrame(a, b, base, count, lo, x);
    case Cat(first, rest) => LaidCatFrame(a, b, first, rest, lo, x);
    case Alt(left, right) => LaidAltFrame(a, b, left, right, lo, x);
  }

  lemma {:induction false} LaidAtomFrame(a: Nfa, b: Nfa, r: Regex, lo: nat, x: nat)
    requires IsAtom(r) && Laid(a, r, lo, x) && SameOn(a, b, lo, lo + 1)
    ensures Laid(b, r, lo, x)
  {
    hide LaidTimes;
  }

  lemma {:induction false} LaidLoopFrame(a: Nfa, b: Nfa, r: Regex, lo: nat, x: nat)
    requires r.Star? || r.Plus?
    requires Laid(a, r, lo, x) && SameOn(a, b, lo, lo + Size(r))
    ensures Laid(b, r, lo, x)
    decreases r, 0, 0
  {
    hide Laid, SameOn;
    LoopLaid(a, r, lo, x);
    LoopLaid(b, r, lo, x);
    var s := lo + Size(r.base);
    FrameParts(a, b, lo, s, s + 1, lo + Size(r));
    LaidFrame(a, b, r.base, lo, s);
  }

  lemma {:induction false} FrameParts(a: Nfa, b: Nfa, lo: nat, m: nat, m': nat, hi: nat)
    requires SameOn(a, b, lo, hi) && lo <= m <= m' <= hi
    ensures SameOn(a, b, lo, m) && SameOn(a, b, m', hi)
    ensures forall i | m <= i < m' :: i < |a.cells| && i < |b.cells| && a.cells[i] == b.cells[i]
  {}

  lemma {:induction false} LaidCatFrame(a: Nfa, b: Nfa, first: Regex, rest: Regex, lo: nat, x: nat)
    requires Laid(a, Cat(first, rest), lo, x) && SameOn(a, b, lo, lo + Size(Cat(first, rest)))
    ensures Laid(b, Cat(first, rest), lo, x)
    decreases Cat(first, rest), 0, 0
  {
    hide Laid, LaidTimes, SameOn;
    CatLaid(a, first, rest, lo, x);
    CatLaid(b, first, rest, lo, x);
    var m := lo + Size(first);
    FrameParts(a, b, lo, m, if StartsGroup(rest) then m + 1 else m, lo + Size(Cat(first, rest)));
    if StartsGroup(rest) {
      LaidFrame(a, b, first, lo, m);
      LaidFrame(a, b, rest, m + 1, x);
    } else {
      LaidFrame(a, b, first, lo, m + Entry(rest));
      LaidFrame(a, b, rest, m, x);
    }
  }

  lemma {:induction false} LaidAltFrame(a: Nfa, b: Nfa, left: Regex, right: Regex, lo: nat, x: nat)
    requires Laid(a, Alt(left, right), lo, x) && SameOn(a, b, lo, lo + Size(Alt(left, right)))
    ensures Laid(b, Alt(left, right), lo, x)
    decreases Alt(left, right), 0, 0
  {
    hide Laid, LaidTimes, SameOn;
    AltLaid(a, left, right, lo, x);
    AltLaid(b, left, right, lo, x);
    var m := lo + Size(left);
    FrameParts(a, b, lo, m, m + 2, lo + Size(Alt(left, right)));
    LaidFrame(a, b, left, lo, lo + Size(left));
    LaidFrame(a, b, right, lo + Size(left) + 2, x);
  }

  lemma {:induction false} LaidTimesFrame(a: Nfa, b: Nfa, r: Regex, count: nat, lo: nat, x: nat)
    requires LaidTimes(a, r, count, lo, x) && SameOn(a, b, lo, lo + SizeTimes(r, count))
    ensures LaidTimes(b, r, count, lo, x)
    decreases r, count + 1
  {
    hide Laid, LaidTimes, SameOn;
    TimesLaid(a, r, count, lo, x);
    TimesLaid(b, r, count, lo, x);
    if count <= 1 {
      LaidFrame(a, b, r, lo, x);
    } else {
      var m := lo + Size(r);
      FrameParts(a, b, lo, m, m + Bridge(r), lo + SizeTimes(r, count));
      LaidFrame(a, b, r, lo, CopyExit(r, lo + Size(r)));
      LaidTimesFrame(a, b, r, count - 1, lo + Size(r) + Bridge(r), x);
    }
  }

  // ---------- Relocation ----------

  /** A cell with both successors moved up by `d`. */
  function Shift(cell: Cell, d: nat): Cell {
    match cell
    case Unset => Unset
    case Cell(op, next1, next2) => Cell(op, next1 + d, next2 + d)
  }

  /** `b` holds, `d` further up, the cells of `a` on [lo, hi) shifted by `d`. */
  ghost predicate Relocated(a: Nfa, b: Nfa, lo: nat, hi: nat, d: nat) {
    && hi <= |a.cells| && hi + d <= |b.cells|
    && a.sets <= b.sets
    && forall i | lo + d <= i < hi + d :: b.cells[i] == Shift(a.cells[i - d], d)
  }

  /** Relocating a block relocates the pattern laid out in it, exits included. */
  lemma {:induction false} LaidRelocated(a: Nfa, b: Nfa, r: Regex, lo: nat, x: nat, d: nat)
    requires Laid(a, r, lo, x) && Relocated(a, b, lo, lo + Size(r), d)
    ensures Laid(b, r, lo + d, x + d)
    decreases r, 0
  {
    hide Laid, LaidTimes;
    match r
    case Lit(_) => LaidAtomRelocated(a, b, r, lo, x, d);
    case AnyOne => LaidAtomRelocated(a, b, r, lo, x, d);
    case Set(_, _) => LaidAtomRelocated(a, b, r, lo, x, d);
    case Group(body) =>
      GroupLaid(a, body, lo, x);
      GroupLaid(b, body, lo + d, x + d);
      LaidRelocated(a, b, body, lo, x, d);
    case Star(base) => LaidLoopRelocated(a, b, r, lo, x, d);
    case Plus(base) => LaidLoopRelocated(a, b, r, lo, x, d);
    case Times(base, count) =>
      CopiesLaid(a, base, count, lo, x);
      CopiesLaid(b, base, count, lo + d, x + d);
      LaidTimesRelocated(a, b, base, count, lo, x, d);
    case Cat(first, rest) => LaidCatRelocated(a, b, first, rest, lo, x, d);
    case Alt(left, right) => LaidAltRelocated(a, b, left, right, lo, x, d);
  }

  lemma {:induction false} LaidAtomRelocated(a: Nfa, b: Nfa, r: Regex, lo: nat, x: nat, d: nat)
    requires IsAtom(r) && Laid(a, r, lo, x) && Relocated(a, b, lo, lo + 1, d)
    ensures Laid(b, r, lo + d, x + d)
  {
    hide LaidTimes;
    if r.Set? {
      var k :| 0 <= k < |a.sets| && a.sets[k] == r.members && HasCell(a, lo, InSet(k, r.negated), x);
      assert b.sets[k] == r.members && HasCell(b, lo + d, InSet(k, r.negated), x + d);
    }
  }

  lemma {:induction false} RelocatedParts(a: Nfa, b: Nfa, lo: nat, m: nat, m': nat, hi: nat, d: nat)
    requires Relocated(a, b, lo, hi, d) && lo <= m <= m' <= hi
    ensures Relocated(a, b, lo, m, d) && Relocated(a, b, m', hi, d)
    ensures m < m' ==> m < |a.cells| && m + d < |b.cells| && b.cells[m + d] == Shift(a.cells[m], d)
    ensures m + 1 < m' ==> m + 1 < |a.cells| && m + 1 + d < |b.cells| && b.cells[m + 1 + d] == Shift(a.cells[m + 1], d)
  {}

  lemma {:induction false} LaidLoopRelocated(a: Nfa, b: Nfa, r: Regex, lo: nat, x: nat, d: nat)
    requires r.Star? || r.Plus?
    requires Laid(a, r, lo, x) && Relocated(a, b, lo, lo + Size(r), d)
    ensures Laid(b, r, lo + d, x + d)
    decreases r, 0, 0
  {
    hide Laid, Relocated;
    LoopLaid(a, r, lo, x);
    LoopLaid(b, r, lo + d, x + d);
    var s := lo + Size(r.base);
    RelocatedParts(a, b, lo, s, s + 1, lo + Size(r), d);
    LaidRelocated(a, b, r.base, lo, s, d);
  }

  lemma {:induction false} LaidCatRelocated(a: Nfa, b: Nfa, first: Regex, rest: Regex, lo: nat, x: nat, d: nat)
    requires Laid(a, Cat(first, rest), lo, x) && Relocated(a, b, lo, lo + Size(Cat(first, rest)), d)
    ensures Laid(b, Cat(first, rest), lo + d, x + d)
    decreases Cat(first, rest), 0, 0
  {
    hide Laid, Relocated;
    CatLaid(a, first, rest, lo, x);
    CatLaid(b, first, rest, lo + d, x + d);
    var m := lo + Size(first);
    RelocatedParts(a, b, lo, m, if StartsGroup(rest) then m + 1 else m, lo + Size(Cat(first, rest)), d);
    if StartsGroup(rest) {
      LaidRelocated(a, b, first, lo, m, d);
      LaidRelocated(a, b, rest, m + 1, x, d);
    } else {
      LaidRelocated(a, b, first, lo, m + Entry(rest), d);
      LaidRelocated(a, b, rest, m, x, d);
    }
  }

  lemma {:induction false} LaidAltRelocated(a: Nfa, b: Nfa, left: Regex, right: Regex, lo: nat, x: nat, d: nat)
    requires Laid(a, Alt(left, right), lo, x) && Relocated(a, b, lo, lo + Size(Alt(left, right)), d)
    ensures Laid(b, Alt(left, right), lo + d, x + d)
    decreases Alt(left, right), 0, 0
  {
    hide Laid, Relocated;
    AltLaid(a, left, right, lo, x);
    AltLaid(b, left, right, lo + d, x + d);
    var m := lo + Size(left);
    RelocatedParts(a, b, lo, m, m + 2, lo + Size(Alt(left, right)), d);
    LaidRelocated(a, b, left, lo, m, d);
    LaidRelocated(a, b, right, m + 2, x, d);
  }

  lemma {:induction false} TimesSizes(r: Regex, count: nat)
    requires count > 1
    ensures SizeTimes(r, count) == Size(r) + Bridge(r) + SizeTimes(r, count - 1) && Bridge(r) <= 1
  {}

  lemma {:induction false} LaidTimesRelocated(a: Nfa, b: Nfa, r: Regex, count: nat, lo: nat, x: nat, d: nat)
    requires LaidTimes(a, r, count, lo, x) && Relocated(a, b, lo, lo + SizeTimes(r, count), d)
    ensures LaidTimes(b, r, count, lo + d, x + d)
    decreases r, count + 1
  {
    hide Laid, LaidTimes, Relocated;
    TimesLaid(a, r, count, lo, x);
    TimesLaid(b, r, count, lo + d, x + d);
    if count <= 1 {
      LaidRelocated(a, b, r, lo, x, d);
    } else {
      var m := lo + Size(r);
      TimesSizes(r, count);
      hide Size, SizeTimes, Entry, Bridge;
      RelocatedParts(a, b, lo, m, m + Bridge(r), lo + SizeTimes(r, count), d);
      LaidRelocated(a, b, r, lo, CopyExit(r, m), d);
      LaidTimesRelocated(a, b, r, count - 1, m + Bridge(r), x, d);
    }
  }

  // ---------- Redirecting the exit ----------

  /** `b` is `a` on [lo, hi) except that `next1` of the last cell is now `y`. */
  ghost predicate ExitPatched(a: Nfa, b: Nfa, lo: nat, hi: nat, y: nat) {
    && lo < hi <= |a.cells| && hi <= |b.cells|
    && SameOn(a, b, lo, hi - 1)
    && a.cells[hi - 1].Cell?
    && b.cells[hi - 1] == a.cells[hi - 1].(next1 := y)
  }

  lemma {:induction false} PatchedParts(a: Nfa, b: Nfa, lo: nat, m: nat, hi: nat, y: nat)
    requires ExitPatched(a, b, lo, hi, y) && lo < m < hi
    ensures SameOn(a, b, lo, m) && ExitPatched(a, b, m, hi, y)
    ensures m + 1 < hi ==> ExitPatched(a, b, m + 1, hi, y)
    ensures m + 1 < hi ==> m < |a.cells| && m < |b.cells| && a.cells[m] == b.cells[m]
  {}

  /** Redirecting `next1` of the last state redirects every exit of a single-exit pattern. */
  lemma {:induction false} LaidExitPatched(a: Nfa, b: Nfa, r: Regex, lo: nat, x: nat, y: nat)
    requires WellShaped(r) && SingleExit(r)
    requires Laid(a, r, lo, x) && ExitPatched(a, b, lo, lo + Size(r), y)
    ensures Laid(b, r, lo, y)
    decreases r, 0
  {
    hide Laid, LaidTimes;
    match r
    case Lit(_) => LaidAtomExitPatched(a, b, r, lo, x, y);
    case AnyOne => LaidAtomExitPatched(a, b, r, lo, x, y);
    case Set(_, _) => LaidAtomExitPatched(a, b, r, lo, x, y);
    case Group(body) =>
      GroupLaid(a, body, lo, x);
      GroupLaid(b, body, lo, y);
      LaidExitPatched(a, b, body, lo, x, y);
    case Star(_) => LaidStarExitPatched(a, b, r, lo, x, y);
    case Times(base, count) =>
      CopiesLaid(a, base, count, lo, x);
      CopiesLaid(b, base, count, lo, y);
      LaidTimesExitPatched(a, b, base, count, lo, x, y);
    case Cat(first, rest) => LaidCatExitPatched(a, b, first, rest, lo, x, y);
  }

  lemma {:induction false} LaidAtomExitPatched(a: Nfa, b: Nfa, r: Regex, lo: nat, x: nat, y: nat)
    requires IsAtom(r) && Laid(a, r, lo, x) && ExitPatched(a, b, lo, lo + 1, y)
    ensures Laid(b, r, lo, y)
  {
    hide LaidTimes;
    if r.Set? {
      var k :| 0 <= k < |a.sets| && a.sets[k] == r.members && HasCell(a, lo, InSet(k, r.negated), x);
      assert b.sets[k] == r.members && HasCell(b, lo, InSet(k, r.negated), y);
    }
  }

  lemma {:induction false} LaidStarExitPatched(a: Nfa, b: Nfa, r: Regex, lo: nat, x: nat, y: nat)
    requires r.Star? && Laid(a, r, lo, x) && ExitPatched(a, b, lo, lo + Size(r), y)
    ensures Laid(b, r, lo, y)
  {
    hide Laid;
    LoopLaid(a, r, lo, x);
    LoopLaid(b, r, lo, y);
    LaidFrame(a, b, r.base, lo, lo + Size(r.base));
  }

  lemma {:induction false} LaidCatExitPatched(a: Nfa, b: Nfa, first: Regex, rest: Regex, lo: nat, x: nat, y: nat)
    requires WellShaped(Cat(first, rest)) && SingleExit(rest)
    requires Laid(a, Cat(first, rest), lo, x) && ExitPatched(a, b, lo, lo + Size(Cat(first, rest)), y)
    ensures Laid(b, Cat(first, rest), lo, y)
    decreases Cat(first, rest), 0, 0
  {
    hide Laid, ExitPatched, SameOn;
    CatLaid(a, first, rest, lo, x);
    CatLaid(b, first, rest, lo, y);
    var m := lo + Size(first);
    PatchedParts(a, b, lo, m, lo + Size(Cat(first, rest)), y);
    if StartsGroup(rest) {
      LaidFrame(a, b, first, lo, m);
      LaidExitPatched(a, b, rest, m + 1, x, y);
    } else {
      LaidFrame(a, b, first, lo, m + Entry(rest));
      LaidExitPatched(a, b, rest, m, x, y);
    }
  }

  lemma {:induction false} LaidTimesExitPatched(a: Nfa, b: Nfa, r: Regex, count: nat, lo: nat, x: nat, y: nat)
    requires WellShaped(r) && SingleExit(r)
    requires LaidTimes(a, r, count, lo, x) && ExitPatched(a, b, lo, lo + SizeTimes(r, count), y)
    ensures LaidTimes(b, r, count, lo, y)
    decreases r, count + 1
  {
    hide Laid, LaidTimes, ExitPatched, SameOn;
    TimesLaid(a, r, count, lo, x);
    TimesLaid(b, r, count, lo, y);
    if count <= 1 {
      LaidExitPatched(a, b, r, lo, x, y);
    } else {
      PatchedParts(a, b, lo, lo + Size(r), lo + SizeTimes(r, count), y);
      LaidFrame(a, b, r, lo, CopyExit(r, lo + Size(r)));
      LaidTimesExitPatched(a, b, r, count - 1, lo + Size(r) + Bridge(r), x, y);
    }
  }
}
