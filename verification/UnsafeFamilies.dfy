/**
 The languages that unsafe patterns are compiled to: for every shape in which a rule of
 safety is broken, what the emitted automaton accepts instead.
 */
module UnsafeFamilies {
  import opened Bytes
  import opened Patterns
  import opened Nfa
  import opened Layout
  import opened Compiler
  import opened Closed
  import opened Language

  /** The pattern of the empty word. */
  const NOTHING: Regex := Times(AnyOne, 0)

  lemma {:induction false} NothingIsEmpty(v: seq<Byte>)
    ensures In(NOTHING, v) <==> v == []
  {}

  /** What leads from state `s` to `goal` is the language of `r`. */
  ghost predicate Means(a: Nfa, goal: nat, s: nat, r: Regex) {
    forall v :: Spells(a, s, goal, v) <==> In(r, v)
  }

  // ---------- Composing meanings ----------

  lemma {:induction false} MeansAt(a: Nfa, goal: nat, s: nat, r: Regex, w: seq<Byte>)
    requires Means(a, goal, s, r)
    ensures Spells(a, s, goal, w) <==> In(r, w)
  {}

  /** Patterns with the same words mean the same. */
  lemma {:induction false} MeansSame(a: Nfa, goal: nat, s: nat, r: Regex, q: Regex)
    requires Means(a, goal, s, r) && forall v :: In(r, v) <==> In(q, v)
    ensures Means(a, goal, s, q)
  {
    hide Spells, In;
    forall v ensures Spells(a, s, goal, v) <==> In(q, v) { MeansAt(a, goal, s, r, v); }
  }

  lemma {:induction false} GoalMeansNothing(a: Nfa, goal: nat)
    ensures Means(a, goal, goal, NOTHING)
  {
    forall v ensures Spells(a, goal, goal, v) <==> In(NOTHING, v) {
      assert Reach(a, goal, goal, v, 0) <==> v == [];
    }
  }

  lemma {:induction false} EitherSpells(a: Nfa, goal: nat, s: nat, p: nat, q: nat, w: seq<Byte>)
    requires HasEps(a, s, p, q) && 0 < s && s != goal
    ensures Spells(a, s, goal, w) <==> Spells(a, p, goal, w) || Spells(a, q, goal, w)
  {
    hide Reach;
    if Spells(a, s, goal, w) {
      var n: nat :| Reach(a, goal, s, w, n);
      LoopBranches(a, goal, s, w, n);
    }
    if Spells(a, p, goal, w) {
      var n: nat :| Reach(a, goal, p, w, n);
      LoopBranches(a, goal, s, w, n + 1);
    }
    if Spells(a, q, goal, w) {
      var n: nat :| Reach(a, goal, q, w, n);
      LoopBranches(a, goal, s, w, n + 1);
    }
  }

  lemma {:induction false} EitherMeans(a: Nfa, goal: nat, s: nat, p: nat, q: nat, r1: Regex, r2: Regex)
    requires HasEps(a, s, p, q) && 0 < s && s != goal
    requires Means(a, goal, p, r1) && Means(a, goal, q, r2)
    ensures Means(a, goal, s, Alt(r1, r2))
  {
    hide Spells, In, Means;
    forall w ensures Spells(a, s, goal, w) <==> In(Alt(r1, r2), w) {
      EitherSpells(a, goal, s, p, q, w);
      MeansAt(a, goal, p, r1, w);
      MeansAt(a, goal, q, r2, w);
      AltOf(r1, r2, w);
    }
    MeansAll(a, goal, s, Alt(r1, r2));
  }

  lemma {:induction false} MeansAll(a: Nfa, goal: nat, s: nat, r: Regex)
    requires forall v :: Spells(a, s, goal, v) <==> In(r, v)
    ensures Means(a, goal, s, r)
  {}

  lemma {:induction false} PassMeans(a: Nfa, goal: nat, s: nat, e: nat, r: Regex)
    requires HasEps(a, s, e, e) && 0 < s && s != goal && Means(a, goal, e, r)
    ensures Means(a, goal, s, r)
  {
    hide Spells, In, Means;
    forall w ensures Spells(a, s, goal, w) <==> In(r, w) {
      EitherSpells(a, goal, s, e, e, w);
      MeansAt(a, goal, e, r, w);
    }
    MeansAll(a, goal, s, r);
  }

  /** A laid-out pattern means itself followed by what its exit means. */
  lemma {:induction false} ThenMeans(a: Nfa, goal: nat, r: Regex, lo: nat, x: nat, rest: Regex)
    requires WellShaped(r) && Laid(a, r, lo, x) && 0 < lo && lo + Size(r) <= goal && Means(a, goal, x, rest)
    ensures Means(a, goal, lo + Entry(r), Cat(r, rest))
  {
    hide Laid, In, Means, Reach;
    forall w ensures Spells(a, lo + Entry(r), goal, w) <==> In(Cat(r, rest), w) {
      if Spells(a, lo + Entry(r), goal, w) {
        var n: nat :| Reach(a, goal, lo + Entry(r), w, n);
        var k, m := PathToWord(a, r, lo, x, goal, w, n);
        assert Spells(a, x, goal, w[k..]);
        MeansAt(a, goal, x, rest, w[k..]);
        CatOf(r, rest, w, k);
      }
      if In(Cat(r, rest), w) {
        var k := CatWitness(Cat(r, rest), w);
        MeansAt(a, goal, x, rest, w[k..]);
        var m: nat :| Reach(a, goal, x, w[k..], m);
        var n := WordToPath(a, r, lo, x, goal, w, k, m);
        assert Spells(a, lo + Entry(r), goal, w);
      }
    }
    MeansAll(a, goal, lo + Entry(r), Cat(r, rest));
  }

  lemma {:induction false} CatOf(r: Regex, rest: Regex, w: seq<Byte>, k: nat)
    requires k <= |w| && In(r, w[..k]) && In(rest, w[k..])
    ensures In(Cat(r, rest), w)
  {}

  /** A laid-out pattern that exits to the goal means itself. */
  lemma {:induction false} LastMeans(a: Nfa, goal: nat, r: Regex, lo: nat)
    requires WellShaped(r) && Laid(a, r, lo, goal) && 0 < lo && goal == lo + Size(r)
    ensures Means(a, goal, lo + Entry(r), r)
  {
    hide Laid, In, Spells;
    forall w ensures Spells(a, lo + Entry(r), goal, w) <==> In(r, w) {
      LaidSpells(a, r, lo, w);
    }
  }

  /** One more iteration in front of a star is within the star. */
  lemma {:induction false} StarAbsorbs(y: Regex, v: seq<Byte>)
    requires In(Cat(y, Star(y)), v)
    ensures In(Star(y), v)
  {
    var k := CatWitness(Cat(y, Star(y)), v);
    var n: nat :| Power(y, n, v[k..]);
    assert Power(y, n + 1, v);
  }

  // ---------- x+y* ----------

  /** A factor and a starred atom behind it. */
  function Starred(first: Regex, y: Regex): Regex {
    Cat(first, Star(y))
  }

  /** The states of a starred atom behind `a1`, and what is left of `a1` in front. */
  lemma {:induction false} StarredCells(first: Regex, y: Regex, minimal: bool, a1: Nfa)
    requires WellShaped(first) && IsFactor(first) && IsAtom(y) && WellShaped(y)
    requires a1 == Compile(first, Nfa([Unset], [])).0
    ensures var p, e := Program(Starred(first, y), minimal), 1 + Size(first);
            && |a1.cells| == e && Final(Starred(first, y)) == e + 2 && Size(y) == 1 && Start(Starred(first, y)) == 1 + Returned(first)
            && Laid(p, y, e, e + 1) && HasEps(p, e + 1, e + 2, e) && Laid(p, Star(y), e, e + 2)
            && a1.cells[e - 1].Cell? && p.cells[e - 1] == a1.cells[e - 1].(next1 := e + 1)
            && SameOn(a1, p, 1, e - 1)
  {
    hide Laid, Compile, CompileRest, Closes, Sound;
    var a0 := Nfa([Unset], []);
    var r, e := Starred(first, y), 1 + Size(first);
    LastEmittedIsCell(first, a0);
    OperandsCompile(first, Star(y), a0);
    CompileLays(Star(y), a1);
    var a2 := Compile(Star(y), a1).0;
    NoBridge(y, a1);
    var p := Program(r, minimal);
    LaidFrame(a2, p, Star(y), e, e + 2);
    LoopLaid(p, Star(y), e, e + 2);
  }

  lemma {:induction false} LastEmittedIsCell(r: Regex, a: Nfa)
    requires |a.cells| > 0 && WellShaped(r)
    ensures var b := Compile(r, a).0; b.cells[|b.cells| - 1].Cell?
  {
    CompileCloses(r, a);
    var b := Compile(r, a).0;
    assert Sound(b.cells[|b.cells| - 1], |a.cells|, |b.cells|, |b.sets|);
  }

  lemma {:induction false} NoBridge(y: Regex, a1: Nfa)
    requires IsAtom(y) && |a1.cells| > 0
    ensures CompileRest(Star(y), a1) == Compile(Star(y), a1).0 && !StartsGroup(Star(y)) && Size(y) == 1
  {}

  /** `x+y*` is compiled to an automaton for `xy*`: after the first `x` there is no way back. */
  lemma {:induction false} StarCutsPlus(x: Regex, y: Regex, minimal: bool)
    requires WellShaped(Starred(Plus(x), y)) && Safe(Plus(x)) && IsAtom(y)
    ensures var r := Starred(Plus(x), y); Means(Program(r, minimal), Final(r), Start(r), Cat(x, Star(y)))
  {
    hide Laid, Compile, In, Spells, Means, Program;
    var a0 := Nfa([Unset], []);
    var a1 := Compile(Plus(x), a0).0;
    var r, p, s := Starred(Plus(x), y), Program(Starred(Plus(x), y), minimal), 1 + Size(x);
    var goal := s + 3;
    StarredCells(Plus(x), y, minimal, a1);
    PlusBlock(x, a0);
    LaidFrame(a1, p, x, 1, s);
    StarTailMeans(p, y, s + 1, goal);
    EitherMeans(p, goal, s, s + 2, s + 1, Star(y), Cat(y, Star(y)));
    StarOrMore(p, goal, s, y);
    ThenMeans(p, goal, x, 1, s, Star(y));
  }

  /** A head-entered operand with its '+', compiled first. */
  lemma {:induction false} PlusBlock(x: Regex, a: Nfa)
    requires |a.cells| == 1 && a.cells[0].Unset? && WellShaped(Plus(x)) && Safe(Plus(x))
    ensures var a1, s := Compile(Plus(x), a).0, 1 + Size(x);
            && Laid(a1, x, 1, s) && HasEps(a1, s, 1, s + 1) && |a1.cells| == s + 1 && Entry(x) == 0 && Returned(Plus(x)) == 0
  {
    hide Laid, Compile;
    CompileLays(Plus(x), a);
    SafeReturnsEntry(x);
    HeadEnteredIsReturnedZero(x);
    LoopLaid(Compile(Plus(x), a).0, Plus(x), 1, 2 + Size(x));
  }

  /** The star state means the star, its character one more. */
  lemma {:induction false} StarTailMeans(p: Nfa, y: Regex, e: nat, goal: nat)
    requires IsAtom(y) && WellShaped(y) && 0 < e && goal == e + 2 && Size(y) == 1
    requires Laid(p, Star(y), e, goal) && Laid(p, y, e, e + 1)
    ensures Means(p, goal, e + 1, Star(y)) && Means(p, goal, e, Cat(y, Star(y)))
  {
    hide Laid, Means, In;
    LastMeans(p, goal, Star(y), e);
    AtomEntry(y);
    ThenMeans(p, goal, y, e, e + 1, Star(y));
  }

  lemma {:induction false} AtomEntry(y: Regex)
    requires IsAtom(y)
    ensures Entry(y) == 0 && Entry(Star(y)) == Size(y) == 1
  {}

  lemma {:induction false} StarOrMore(p: Nfa, goal: nat, s: nat, y: Regex)
    requires Means(p, goal, s, Alt(Star(y), Cat(y, Star(y))))
    ensures Means(p, goal, s, Star(y))
  {
    hide In, Means;
    forall v ensures In(Alt(Star(y), Cat(y, Star(y))), v) <==> In(Star(y), v) {
      AltOf(Star(y), Cat(y, Star(y)), v);
      if In(Cat(y, Star(y)), v) { StarAbsorbs(y, v); }
    }
    MeansSame(p, goal, s, Alt(Star(y), Cat(y, Star(y))), Star(y));
  }

  // ---------- (A|B)y* ----------

  /** The block of a safe alternation in parentheses, compiled first. */
  lemma {:induction false} AltBlock(left: Regex, right: Regex, a: Nfa)
    requires |a.cells| == 1 && a.cells[0].Unset? && WellShaped(Alt(left, right)) && Safe(Alt(left, right))
    ensures var a1, m, e := Compile(Group(Alt(left, right)), a).0, 1 + Size(left), 3 + Size(left) + Size(right);
            && |a1.cells| == e && Laid(a1, left, 1, m) && HasEps(a1, m, e, e)
            && HasEps(a1, m + 1, m + 2 + Entry(right), 1) && Laid(a1, right, m + 2, e)
            && Entry(left) == 0 && Returned(Group(Alt(left, right))) == Size(left) + 1
            && Compile(Group(Alt(left, right)), a).1 == m + 1
  {
    hide Laid, Compile, Size, Entry, Returned;
    var r := Alt(left, right);
    SafeReturnsEntry(left);
    HeadEnteredIsReturnedZero(left);
    GroupedAltSizes(left, right);
    CompileLays(r, a);
    GroupCompiles(r, a);
    AltLaid(Compile(r, a).0, left, right, 1, 3 + Size(left) + Size(right));
  }

  lemma {:induction false} GroupedAltSizes(left: Regex, right: Regex)
    ensures var r := Alt(left, right);
            Returned(Group(r)) == Returned(r) == Size(left) + 1 && Size(Group(r)) == Size(r) == Size(left) + 2 + Size(right)
  {}

  /** The words of `(A|B)y*` as compiled: after `A` at least one `y` is needed. */
  function StarredAlternation(left: Regex, right: Regex, y: Regex): Regex {
    Alt(Cat(right, Star(y)), Cat(left, Cat(y, Star(y))))
  }

  /** `(A|B)y*` is compiled to an automaton for `By*|Ayy*`, for a single-exit `B`. */
  lemma {:induction false} StarSkipsLeft(left: Regex, right: Regex, y: Regex, minimal: bool)
    requires WellShaped(Starred(Group(Alt(left, right)), y)) && Safe(Alt(left, right)) && SingleExit(right) && IsAtom(y)
    ensures var r := Starred(Group(Alt(left, right)), y);
            Means(Program(r, minimal), Final(r), Start(r), StarredAlternation(left, right, y))
  {
    hide Laid, Compile, In, Spells, Means, Program, SameOn;
    var a0 := Nfa([Unset], []);
    var first := Group(Alt(left, right));
    var a1, p := Compile(first, a0).0, Program(Starred(first, y), minimal);
    var m, e := 1 + Size(left), 3 + Size(left) + Size(right);
    var goal := e + 2;
    StarredCells(first, y, minimal, a1);
    AltBlock(left, right, a0);
    FrameParts(a1, p, 1, m, m + 2, e - 1);
    LaidFrame(a1, p, left, 1, m);
    LastRedirected(a1, p, m + 2, e, e + 1);
    LaidExitPatched(a1, p, right, m + 2, e, e + 1);
    StarTailMeans(p, y, e, goal);
    PassMeans(p, goal, m, e, Cat(y, Star(y)));
    ThenMeans(p, goal, left, 1, m, Cat(y, Star(y)));
    ThenMeans(p, goal, right, m + 2, e + 1, Star(y));
    EitherMeans(p, goal, m + 1, m + 2 + Entry(right), 1, Cat(right, Star(y)), Cat(left, Cat(y, Star(y))));
  }

  lemma {:induction false} LastRedirected(a: Nfa, b: Nfa, lo: nat, hi: nat, y: nat)
    requires lo < hi <= |a.cells| && hi <= |b.cells| && SameOn(a, b, lo, hi - 1)
    requires a.cells[hi - 1].Cell? && b.cells[hi - 1] == a.cells[hi - 1].(next1 := y)
    ensures ExitPatched(a, b, lo, hi, y)
  {}

  // ---------- Alternations whose left operand is not head-entered ----------

  /** `b` is `a` on [1, |a.cells|), except that `next1` of state `t` is `y`. */
  ghost predicate PatchedAt(a: Nfa, b: Nfa, t: nat, y: nat) {
    && 0 < t < |a.cells| <= |b.cells| && a.sets <= b.sets
    && a.cells[t].Cell? && b.cells[t] == a.cells[t].(next1 := y)
    && forall i | 1 <= i < |a.cells| && i != t :: b.cells[i] == a.cells[i]
  }

  /** What '|' adds to its left operand, compiled as `a1` and entered at `t1`: the state before `t1` is led to the branch state. */
  lemma {:induction false} BranchCells(left: Regex, right: Regex, minimal: bool, a1: Nfa, t1: nat)
    requires WellShaped(Alt(left, right)) && Safe(right) && Compile(left, Nfa([Unset], [])) == (a1, t1) && t1 > 1
    ensures var r, e := Alt(left, right), 1 + Size(left);
            var p, goal := Program(r, minimal), Final(r);
            && |a1.cells| == e && goal == e + 2 + Size(right) && Start(r) == e + 1
            && t1 - 1 < e && PatchedAt(a1, p, t1 - 1, e + 1)
            && HasEps(p, e, goal, goal) && HasEps(p, e + 1, e + 2 + Entry(right), t1) && Laid(p, right, e + 2, goal)
  {
    hide Laid, Compile, Returned, Entry, Closes, PatchedAt, Size, CloseAlt;
    var a0 := Nfa([Unset], []);
    var a1' := Emit(Emit(a1, Unset), Unset);
    var a2 := Compile(right, a1').0;
    CompileCloses(left, a0);
    OperandsCompile(left, right, a0);
    ReturnedInBlock(left);
    SafeReturnsEntry(right);
    CompileLays(right, a1');
    SizeOfAlt(left, right);
    var c := CloseAlt(a2, |a1.cells|, t1, |a1.cells| + 2 + Entry(right));
    BranchClosed(a0, a1, a2, c, t1, |a1.cells| + 2 + Entry(right));
    var p := Program(Alt(left, right), minimal);
    BranchFinished(a1, c, p, t1);
    LaidFrame(a2, p, right, |a1.cells| + 2, |a2.cells|);
  }

  lemma {:induction false} BranchClosed(a0: Nfa, a1: Nfa, a2: Nfa, c: Nfa, t1: nat, entry: nat)
    requires |a0.cells| == 1 && Closes(a0, a1) && 1 < t1 < |a1.cells|
    requires Extends(Emit(Emit(a1, Unset), Unset), a2, Unset) && |a2.cells| > |a1.cells| + 2
    requires c == CloseAlt(a2, |a1.cells|, t1, entry)
    ensures PatchedAt(a1, c, t1 - 1, |a1.cells| + 1) && SameOn(a2, c, |a1.cells| + 2, |a2.cells|)
    ensures var e := |a1.cells|; HasEps(c, e, |c.cells|, |c.cells|) && HasEps(c, e + 1, entry, t1)
  {
    var a1' := Emit(Emit(a1, Unset), Unset);
    assert forall i | 0 <= i < |a1.cells| :: a2.cells[i] == a1'.cells[i] == a1.cells[i];
    assert Sound(a1.cells[t1 - 1], 1, |a1.cells|, |a1.sets|);
  }

  /** The start state and the gate leave the rest alone. */
  lemma {:induction false} BranchFinished(a1: Nfa, c: Nfa, p: Nfa, t1: nat)
    requires 1 < t1 < |a1.cells| && PatchedAt(a1, c, t1 - 1, |a1.cells| + 1)
    requires |c.cells| <= |p.cells| && c.sets == p.sets && forall i | 1 <= i < |c.cells| :: p.cells[i] == c.cells[i]
    ensures PatchedAt(a1, p, t1 - 1, |a1.cells| + 1)
    ensures SameOn(c, p, 1, |c.cells|)
  {}

  // ---------- (A|B)|C ----------

  /** The automaton of `(A|B)|C`: from the exit of `A`, at `m`, a way leads back to the outer branch state `e + 1`. */
  ghost predicate Nested(p: Nfa, left: Regex, right: Regex, last: Regex, m: nat, e: nat, goal: nat) {
    && WellShaped(left) && WellShaped(right) && WellShaped(last)
    && m == 1 + Size(left) && e == m + 2 + Size(right) && goal == e + 2 + Size(last) && Entry(left) == 0
    && Laid(p, left, 1, m) && HasEps(p, m, e + 1, e) && HasEps(p, m + 1, m + 2 + Entry(right), 1)
    && Laid(p, right, m + 2, e) && HasEps(p, e, goal, goal)
    && HasEps(p, e + 1, e + 2 + Entry(last), m + 1) && Laid(p, last, e + 2, goal)
  }

  lemma {:induction false} NestedCells(left: Regex, right: Regex, last: Regex, minimal: bool)
    requires WellShaped(Alt(Group(Alt(left, right)), last)) && Safe(Alt(left, right)) && Safe(last)
    ensures var r, m := Alt(Group(Alt(left, right)), last), 1 + Size(left);
            var e := m + 2 + Size(right);
            && Nested(Program(r, minimal), left, right, last, m, e, Final(r)) && Start(r) == e + 1
  {
    hide Laid, Compile, SameOn, Program, Entry, Returned;
    var a0 := Nfa([Unset], []);
    var first, m := Group(Alt(left, right)), 1 + Size(left);
    var a1 := Compile(first, a0).0;
    AltBlock(left, right, a0);
    BranchCells(first, last, minimal, a1, m + 1);
    var p, e := Program(Alt(first, last), minimal), |a1.cells|;
    PatchedAround(a1, p, m, e + 1);
    LaidFrame(a1, p, left, 1, m);
    FrameParts(a1, p, m + 1, m + 1, m + 2, e);
    LaidFrame(a1, p, right, m + 2, e);
  }

  lemma {:induction false} PatchedAround(a: Nfa, b: Nfa, t: nat, y: nat)
    requires PatchedAt(a, b, t, y)
    ensures SameOn(a, b, 1, t) && SameOn(a, b, t + 1, |a.cells|) && b.cells[t] == a.cells[t].(next1 := y)
  {}

  /** `left` iterated, then a word of any of the three. */
  function NestedLanguage(left: Regex, right: Regex, last: Regex): Regex {
    Cat(Star(left), Alt(left, Alt(right, last)))
  }

  lemma {:induction false} NestedParts(p: Nfa, left: Regex, right: Regex, last: Regex, m: nat, e: nat, goal: nat)
    requires Nested(p, left, right, last, m, e, goal)
    ensures Means(p, goal, e + 2 + Entry(last), last) && Means(p, goal, m + 2 + Entry(right), right)
    ensures Means(p, goal, e, NOTHING)
  {
    hide Laid, Means, In;
    LastMeans(p, goal, last, e + 2);
    GoalMeansNothing(p, goal);
    PassMeans(p, goal, e, goal, NOTHING);
    ThenMeans(p, goal, right, m + 2, e, NOTHING);
    ThenNothing(p, goal, m + 2 + Entry(right), right);
  }

  lemma {:induction false} ThenNothing(p: Nfa, goal: nat, s: nat, r: Regex)
    requires Means(p, goal, s, Cat(r, NOTHING))
    ensures Means(p, goal, s, r)
  {
    hide Spells;
    forall v ensures In(Cat(r, NOTHING), v) <==> In(r, v) {
      if In(Cat(r, NOTHING), v) {
        var k := CatWitness(Cat(r, NOTHING), v);
        NothingIsEmpty(v[k..]);
        assert v[..k] == v;
      }
      if In(r, v) {
        assert v[..|v|] == v && v[|v|..] == [];
        NothingIsEmpty([]);
        CatOf(r, NOTHING, v, |v|);
      }
    }
    MeansSame(p, goal, s, Cat(r, NOTHING), r);
  }

  lemma {:induction false} NestedToWord(p: Nfa, left: Regex, right: Regex, last: Regex, m: nat, e: nat, goal: nat, w: seq<Byte>, n: nat)
    returns (c: nat, k: nat)
    requires Nested(p, left, right, last, m, e, goal) && Reach(p, goal, e + 1, w, n)
    ensures k <= |w| && Power(left, c, w[..k]) && In(Alt(left, Alt(right, last)), w[k..])
    decreases n
  {
    hide Laid, Means, Reach, In, Power;
    NestedParts(p, left, right, last, m, e, goal);
    LoopBranches(p, goal, e + 1, w, n);
    c, k := 0, 0;
    assert w[..0] == [] && w[0..] == w;
    NoWords(left);
    AltOf(right, last, w);
    AltOf(left, Alt(right, last), w);
    if Reach(p, goal, e + 2 + Entry(last), w, n - 1) {
      MeansAt(p, goal, e + 2 + Entry(last), last, w);
    } else {
      LoopBranches(p, goal, m + 1, w, n - 1);
      if Reach(p, goal, m + 2 + Entry(right), w, n - 2) {
        MeansAt(p, goal, m + 2 + Entry(right), right, w);
      } else {
        c, k := NestedAround(p, left, right, last, m, e, goal, w, n);
      }
    }
  }

  /** Through the left operand: on to its exit, and from there out or round again. */
  lemma {:induction false} NestedAround(p: Nfa, left: Regex, right: Regex, last: Regex, m: nat, e: nat, goal: nat, w: seq<Byte>, n: nat)
    returns (c: nat, k: nat)
    requires Nested(p, left, right, last, m, e, goal) && n >= 2 && Reach(p, goal, 1, w, n - 2)
    ensures k <= |w| && Power(left, c, w[..k]) && In(Alt(left, Alt(right, last)), w[k..])
    decreases n, 0
  {
    hide Laid, Means, Reach, In, Power;
    NestedParts(p, left, right, last, m, e, goal);
    var k1, m1 := PathToWord(p, left, 1, m, goal, w, n - 2);
    LoopBranches(p, goal, m, w[k1..], m1);
    if Reach(p, goal, e + 1, w[k1..], m1 - 1) {
      var k2;
      c, k2 := NestedToWord(p, left, right, last, m, e, goal, w[k1..], m1 - 1);
      PowerJoin(left, c, w, k1, k2);
      c, k := c + 1, k1 + k2;
    } else {
      assert Spells(p, e, goal, w[k1..]);
      MeansAt(p, goal, e, NOTHING, w[k1..]);
      OneWord(left, w, k1);
      c, k := 0, 0;
      assert w[..0] == [] && w[0..] == w;
      NoWords(left);
      AltOf(left, Alt(right, last), w);
    }
  }

  lemma {:induction false} OneWord(r: Regex, w: seq<Byte>, k: nat)
    requires k <= |w| && In(r, w[..k]) && In(NOTHING, w[k..])
    ensures In(r, w)
  {
    NothingIsEmpty(w[k..]);
    assert w[..k] == w;
  }

  /** Words of the left operand lead round, and any last word out. */
  lemma {:induction false} NestedToPath(p: Nfa, left: Regex, right: Regex, last: Regex, m: nat, e: nat, goal: nat, w: seq<Byte>, c: nat, k: nat)
    requires Nested(p, left, right, last, m, e, goal)
    requires k <= |w| && Power(left, c, w[..k]) && In(Alt(left, Alt(right, last)), w[k..])
    ensures Spells(p, e + 1, goal, w)
    decreases c
  {
    hide Laid, Means, Spells, In, Power;
    NestedParts(p, left, right, last, m, e, goal);
    EitherSpells(p, goal, e + 1, e + 2 + Entry(last), m + 1, w);
    EitherSpells(p, goal, m + 1, m + 2 + Entry(right), 1, w);
    if c == 0 {
      NoMore(left, w[..k]);
      assert w[k..] == w;
      AltOf(left, Alt(right, last), w);
      AltOf(right, last, w);
      MeansAt(p, goal, e + 2 + Entry(last), last, w);
      MeansAt(p, goal, m + 2 + Entry(right), right, w);
      if In(left, w) {
        assert w[..|w|] == w && w[|w|..] == [];
        NothingIsEmpty([]);
        MeansAt(p, goal, e, NOTHING, []);
        EitherSpells(p, goal, m, e + 1, e, []);
        ThenSpells(p, left, 1, m, goal, w, |w|);
      }
    } else {
      var i := PowerSplit(left, c, w, k);
      NestedToPath(p, left, right, last, m, e, goal, w[i..], c - 1, k - i);
      EitherSpells(p, goal, m, e + 1, e, w[i..]);
      ThenSpells(p, left, 1, m, goal, w, i);
    }
  }

  lemma {:induction false} ThenSpells(p: Nfa, r: Regex, lo: nat, x: nat, goal: nat, w: seq<Byte>, k: nat)
    requires WellShaped(r) && Laid(p, r, lo, x) && 0 < lo && lo + Size(r) <= goal
    requires k <= |w| && In(r, w[..k]) && Spells(p, x, goal, w[k..])
    ensures Spells(p, lo + Entry(r), goal, w)
  {
    hide Laid, In, Reach;
    var m: nat :| Reach(p, goal, x, w[k..], m);
    var n := WordToPath(p, r, lo, x, goal, w, k, m);
  }

  /** `(A|B)|C` is compiled to an automaton for `A*(A|B|C)`: after `A` everything starts again. */
  lemma {:induction false} BarRestarts(left: Regex, right: Regex, last: Regex, minimal: bool)
    requires WellShaped(Alt(Group(Alt(left, right)), last)) && Safe(Alt(left, right)) && Safe(last)
    ensures var r := Alt(Group(Alt(left, right)), last);
            Means(Program(r, minimal), Final(r), Start(r), NestedLanguage(left, right, last))
  {
    hide Laid, In, Power, Program, Nested, Spells, Safe, WellShaped;
    var r, m := Alt(Group(Alt(left, right)), last), 1 + Size(left);
    var p, e, goal := Program(r, minimal), m + 2 + Size(right), Final(r);
    var tail := Alt(left, Alt(right, last));
    NestedCells(left, right, last, minimal);
    forall w ensures Spells(p, e + 1, goal, w) <==> In(NestedLanguage(left, right, last), w) {
      if Spells(p, e + 1, goal, w) {
        var n := PathOf(p, e + 1, goal, w);
        var c, k := NestedToWord(p, left, right, last, m, e, goal, w, n);
        StarOf(left, c, w[..k]);
        CatOf(Star(left), tail, w, k);
      }
      if In(NestedLanguage(left, right, last), w) {
        var k := CatWitness(Cat(Star(left), tail), w);
        var c := StarWitness(left, w[..k]);
        NestedToPath(p, left, right, last, m, e, goal, w, c, k);
      }
    }
  }

  lemma {:induction false} PathOf(p: Nfa, s: nat, goal: nat, w: seq<Byte>) returns (n: nat)
    requires Spells(p, s, goal, w)
    ensures Reach(p, goal, s, w, n)
  {
    n :| Reach(p, goal, s, w, n);
  }

  lemma {:induction false} StarOf(r: Regex, n: nat, v: seq<Byte>)
    requires Power(r, n, v)
    ensures In(Star(r), v)
  {}

  lemma {:induction false} StarWitness(r: Regex, v: seq<Byte>) returns (n: nat)
    requires In(Star(r), v)
    ensures Power(r, n, v)
  {
    n :| Power(r, n, v);
  }

  // ---------- x*|B ----------

  /** The automaton of `x*|B`: the last state of `x` leads to the branch state `s + 2` instead of the star state `s`. */
  ghost predicate Looped(p: Nfa, x: Regex, right: Regex, s: nat, goal: nat) {
    && WellShaped(x) && WellShaped(right) && s == 1 + Size(x) && goal == s + 3 + Size(right)
    && Laid(p, x, 1, s + 2) && HasEps(p, s, s + 1, 1 + Entry(x)) && HasEps(p, s + 1, goal, goal)
    && HasEps(p, s + 2, s + 3 + Entry(right), s) && Laid(p, right, s + 3, goal)
  }

  lemma {:induction false} LoopedCells(x: Regex, right: Regex, minimal: bool)
    requires WellShaped(Alt(Star(x), right)) && Safe(x) && SingleExit(x) && Safe(right)
    ensures var r, s := Alt(Star(x), right), 1 + Size(x);
            Looped(Program(r, minimal), x, right, s, Final(r)) && Start(r) == s + 2
  {
    hide Laid, Compile, SameOn, Program, Entry, Returned;
    var a0 := Nfa([Unset], []);
    var s := 1 + Size(x);
    var a1 := Compile(Star(x), a0).0;
    CompileLays(Star(x), a0);
    StarReturns(x, a0);
    LoopLaid(a1, Star(x), 1, s + 1);
    BranchCells(Star(x), right, minimal, a1, s);
    var p := Program(Alt(Star(x), right), minimal);
    PatchedAround(a1, p, s - 1, s + 2);
    LastRedirected(a1, p, 1, s, s + 2);
    LaidExitPatched(a1, p, x, 1, s, s + 2);
    FrameParts(a1, p, s, s, s + 1, s + 1);
  }

  lemma {:induction false} StarReturns(x: Regex, a: Nfa)
    requires |a.cells| == 1
    ensures Compile(Star(x), a).1 == 1 + Size(x) && Size(Star(x)) == Size(x) + 1
  {}

  /** `x` iterated, then nothing or a word of the right operand. */
  function LoopedLanguage(x: Regex, right: Regex): Regex {
    Cat(Star(x), Alt(NOTHING, right))
  }

  lemma {:induction false} LoopedParts(p: Nfa, x: Regex, right: Regex, s: nat, goal: nat)
    requires Looped(p, x, right, s, goal)
    ensures Means(p, goal, s + 3 + Entry(right), right) && Means(p, goal, s + 1, NOTHING)
  {
    hide Laid, Means, In;
    LastMeans(p, goal, right, s + 3);
    GoalMeansNothing(p, goal);
    PassMeans(p, goal, s + 1, goal, NOTHING);
  }

  lemma {:induction false} LoopedToWord(p: Nfa, x: Regex, right: Regex, s: nat, goal: nat, w: seq<Byte>, n: nat) returns (c: nat, k: nat)
    requires Looped(p, x, right, s, goal) && Reach(p, goal, s + 2, w, n)
    ensures k <= |w| && Power(x, c, w[..k]) && In(Alt(NOTHING, right), w[k..])
    decreases n
  {
    hide Laid, Means, Reach, In, Power;
    LoopedParts(p, x, right, s, goal);
    LoopBranches(p, goal, s + 2, w, n);
    c, k := 0, 0;
    assert w[..0] == [] && w[0..] == w;
    NoWords(x);
    AltOf(NOTHING, right, w);
    if Reach(p, goal, s + 3 + Entry(right), w, n - 1) {
      MeansAt(p, goal, s + 3 + Entry(right), right, w);
    } else {
      LoopBranches(p, goal, s, w, n - 1);
      if Reach(p, goal, s + 1, w, n - 2) {
        MeansAt(p, goal, s + 1, NOTHING, w);
      } else {
        var k1, m1 := PathToWord(p, x, 1, s + 2, goal, w, n - 2);
        var k2;
        c, k2 := LoopedToWord(p, x, right, s, goal, w[k1..], m1);
        PowerJoin(x, c, w, k1, k2);
        c, k := c + 1, k1 + k2;
      }
    }
  }

  lemma {:induction false} LoopedToPath(p: Nfa, x: Regex, right: Regex, s: nat, goal: nat, w: seq<Byte>, c: nat, k: nat)
    requires Looped(p, x, right, s, goal)
    requires k <= |w| && Power(x, c, w[..k]) && In(Alt(NOTHING, right), w[k..])
    ensures Spells(p, s + 2, goal, w)
    decreases c
  {
    hide Laid, Means, Spells, In, Power;
    LoopedParts(p, x, right, s, goal);
    EitherSpells(p, goal, s + 2, s + 3 + Entry(right), s, w);
    EitherSpells(p, goal, s, s + 1, 1 + Entry(x), w);
    if c == 0 {
      NoMore(x, w[..k]);
      assert w[k..] == w;
      AltOf(NOTHING, right, w);
      MeansAt(p, goal, s + 3 + Entry(right), right, w);
      MeansAt(p, goal, s + 1, NOTHING, w);
    } else {
      var i := PowerSplit(x, c, w, k);
      LoopedToPath(p, x, right, s, goal, w[i..], c - 1, k - i);
      ThenSpells(p, x, 1, s + 2, goal, w, i);
    }
  }

  /** `x*|B` is compiled to an automaton for `x*(|B)`, for a single-exit `x`: any iteration may be followed by `B`. */
  lemma {:induction false} BarFollowsStar(x: Regex, right: Regex, minimal: bool)
    requires WellShaped(Alt(Star(x), right)) && Safe(x) && SingleExit(x) && Safe(right)
    ensures var r := Alt(Star(x), right);
            Means(Program(r, minimal), Final(r), Start(r), LoopedLanguage(x, right))
  {
    hide Laid, In, Power, Program, Looped, Spells, Safe, WellShaped;
    var r, s := Alt(Star(x), right), 1 + Size(x);
    var p, goal := Program(r, minimal), Final(r);
    LoopedCells(x, right, minimal);
    forall w ensures Spells(p, s + 2, goal, w) <==> In(LoopedLanguage(x, right), w) {
      if Spells(p, s + 2, goal, w) {
        var n := PathOf(p, s + 2, goal, w);
        var c, k := LoopedToWord(p, x, right, s, goal, w, n);
        StarOf(x, c, w[..k]);
        CatOf(Star(x), Alt(NOTHING, right), w, k);
      }
      if In(LoopedLanguage(x, right), w) {
        var k := CatWitness(Cat(Star(x), Alt(NOTHING, right)), w);
        var c := StarWitness(x, w[..k]);
        LoopedToPath(p, x, right, s, goal, w, c, k);
      }
    }
  }
}
