/** What becomes of unsafe patterns: one concrete failure for each rule, and one family solved exactly. */
module UnsafePatterns {
  import opened Bytes
  import opened Patterns
  import opened Nfa
  import opened Layout
  import opened Compiler
  import opened Language
  import opened UnsafeFamilies

  // ---------- (A|B)+ ----------

  /** The loop state at `s` leads back to the left operand only; what leaves it has read words of that operand. */
  ghost predicate LeftLoop(a: Nfa, left: Regex, lo: nat, s: nat) {
    && 0 < lo && lo + Size(left) < s && WellShaped(left) && Entry(left) == 0
    && Laid(a, left, lo, lo + Size(left))
    && HasEps(a, lo + Size(left), s, s) && HasEps(a, s, lo, s + 1)
  }

  lemma {:induction false} LeftLoopToWord(a: Nfa, left: Regex, lo: nat, s: nat, w: seq<Byte>, n: nat) returns (p: nat)
    requires LeftLoop(a, left, lo, s) && Reach(a, s + 1, s, w, n)
    ensures Power(left, p, w)
    decreases n
  {
    if Reach(a, s + 1, s + 1, w, n - 1) {
      p := 0;
    } else {
      var k, m := PathToWord(a, left, lo, lo + Size(left), s + 1, w, n - 1);
      p := LeftLoopToWord(a, left, lo, s, w[k..], m - 1);
      p := p + 1;
    }
  }

  lemma {:induction false} LeftLoopToPath(a: Nfa, left: Regex, lo: nat, s: nat, w: seq<Byte>, p: nat) returns (n: nat)
    requires LeftLoop(a, left, lo, s) && Power(left, p, w)
    ensures Reach(a, s + 1, s, w, n)
    decreases p
  {
    if p == 0 {
      n := 1;
      assert Reach(a, s + 1, s + 1, w, 0);
    } else {
      var k := PowerWitness(left, p, w);
      var m := LeftLoopToPath(a, left, lo, s, w[k..], p - 1);
      assert Reach(a, s + 1, lo + Size(left), w[k..], m + 1);
      n := WordToPath(a, left, lo, lo + Size(left), s + 1, w, k, m + 1);
      n := n + 1;
    }
  }

  function Loop(left: Regex, right: Regex): Regex {
    Plus(Group(Alt(left, right)))
  }

  lemma {:induction false} LoopCells(left: Regex, right: Regex, minimal: bool)
    requires WellShaped(Alt(left, right)) && Safe(Alt(left, right))
    ensures LeftLoop(Program(Loop(left, right), minimal), left, 1, Size(Alt(left, right)) + 1)
    ensures Start(Loop(left, right)) == 1 && Final(Loop(left, right)) == Size(Alt(left, right)) + 2
  {
    hide Laid, Compile;
    var r := Alt(left, right);
    var a0 := Nfa([Unset], []);
    var a1 := Compile(r, a0).0;
    GroupCompiles(r, a0);
    OperatorCompiles(Loop(left, right), a0);
    CompileLays(r, a0);
    var a2 := ClosePlus(a1, 1);
    assert Compile(Loop(left, right), a0) == (a2, 1);
    var b := Program(Loop(left, right), minimal);
    LaidFrame(a1, b, r, 1, Size(r) + 1);
    AltLaid(b, left, right, 1, Size(r) + 1);
    SafeReturnsEntry(left);
    HeadEnteredIsReturnedZero(left);
  }

  /** `(A|B)+` is compiled to an automaton for `A+`: the right operand is lost. */
  lemma {:induction false} LoopLosesRightOperand(left: Regex, right: Regex, minimal: bool, w: seq<Byte>)
    requires WellShaped(Alt(left, right)) && Safe(Alt(left, right))
    ensures var r := Loop(left, right);
            Spells(Program(r, minimal), Start(r), Final(r), w) <==> In(Plus(left), w)
  {
    hide Laid, Reach, In, Power, Program, Safe, WellShaped;
    var r := Loop(left, right);
    var a, s := Program(r, minimal), Size(Alt(left, right)) + 1;
    LoopCells(left, right, minimal);
    if Spells(a, 1, s + 1, w) {
      var n: nat :| Reach(a, s + 1, 1, w, n);
      LoopPathToWord(a, left, s, w, n);
    }
    if In(Plus(left), w) {
      var n := LoopWordToPath(a, left, s, w);
    }
  }

  lemma {:induction false} LoopPathToWord(a: Nfa, left: Regex, s: nat, w: seq<Byte>, n: nat)
    requires LeftLoop(a, left, 1, s) && Reach(a, s + 1, 1, w, n)
    ensures In(Plus(left), w)
  {
    hide Laid, Reach, In, Power, WellShaped;
    var q := 1 + Size(left);
    var k, m := PathToWord(a, left, 1, q, s + 1, w, n);
    PassOn(a, s + 1, q, s, w[k..], m);
    var p := LeftLoopToWord(a, left, 1, s, w[k..], m - 1);
    PowerJoinAll(left, p, w, k);
    PlusOf(Plus(left), p + 1, w);
  }

  lemma {:induction false} LoopWordToPath(a: Nfa, left: Regex, s: nat, w: seq<Byte>) returns (n: nat)
    requires LeftLoop(a, left, 1, s) && In(Plus(left), w)
    ensures Reach(a, s + 1, 1, w, n)
  {
    hide Laid, Reach, In, Power, WellShaped;
    var q := 1 + Size(left);
    var p := PlusWitness(Plus(left), w);
    var k := PowerWitness(left, p, w);
    n := LeftLoopToPath(a, left, 1, s, w[k..], p - 1);
    PassOn(a, s + 1, q, s, w[k..], n + 1);
    n := WordToPath(a, left, 1, q, s + 1, w, k, n + 1);
  }

  lemma {:induction false} PowerJoinAll(r: Regex, p: nat, w: seq<Byte>, k: nat)
    requires k <= |w| && In(r, w[..k]) && Power(r, p, w[k..])
    ensures Power(r, p + 1, w)
  {}

  lemma {:induction false} CutFront<T>(v: seq<T>, w: seq<T>, k: nat)
    requires k <= |v|
    ensures (v + w)[..k] == v[..k] && (v + w)[k..] == v[k..] + w
  {}

  lemma {:induction false} PowerAdd(r: Regex, m: nat, n: nat, v: seq<Byte>, w: seq<Byte>)
    requires Power(r, m, v) && Power(r, n, w)
    ensures Power(r, m + n, v + w)
    decreases m
  {
    if m == 0 {
      assert v + w == w;
    } else {
      var k := PowerWitness(r, m, v);
      PowerAdd(r, m - 1, n, v[k..], w);
      CutFront(v, w, k);
    }
  }

  lemma {:induction false} WordIsPower(r: Regex, w: seq<Byte>)
    requires In(r, w)
    ensures Power(r, 1, w) && In(Plus(r), w)
  {
    assert w[..|w|] == w && Power(r, 0, w[|w|..]);
    var n: nat := 1;
    assert n > 0 && Power(r, n, w);
  }

  lemma {:induction false} PowerAddAt(r: Regex, m: nat, n: nat, w: seq<Byte>, k: nat)
    requires k <= |w| && Power(r, m, w[..k]) && Power(r, n, w[k..])
    ensures Power(r, m + n, w)
  {
    PowerAdd(r, m, n, w[..k], w[k..]);
    assert w[..k] + w[k..] == w;
  }

  /** Every word of `p` is a word of `q`. */
  ghost predicate Within(p: Regex, q: Regex) {
    forall w | In(p, w) :: In(q, w)
  }

  lemma {:induction false} WithinAt(p: Regex, q: Regex, w: seq<Byte>)
    requires Within(p, q) && In(p, w)
    ensures In(q, w)
  {}

  /** If every word of `r` is one or more words of `left`, then so is every iteration of `r`. */
  lemma {:induction false} IterationsOf(left: Regex, r: Regex, n: nat, w: seq<Byte>) returns (p: nat)
    requires Within(r, Plus(left)) && Power(r, n, w)
    ensures p >= n && Power(left, p, w)
    decreases n
  {
    hide In, Power, Within;
    p := 0;
    if n == 0 {
      NoMore(r, w);
      NoWords(left);
    } else {
      var k := PowerWitness(r, n, w);
      WithinAt(r, Plus(left), w[..k]);
      var q := PlusWitness(Plus(left), w[..k]);
      p := IterationsOf(left, r, n - 1, w[k..]);
      PowerAddAt(left, q, p, w, k);
      p := q + p;
    }
  }

  lemma {:induction false} PlusWithin(left: Regex, r: Regex, w: seq<Byte>)
    requires Within(r, Plus(left)) && In(Plus(r), w)
    ensures In(Plus(left), w)
  {
    var n := PlusWitness(Plus(r), w);
    var p := IterationsOf(left, r, n, w);
  }

  /** What the automaton of `r` accepts is what `r` means. */
  ghost predicate KeepsMeaning(r: Regex, minimal: bool) {
    forall w :: Spells(Program(r, minimal), Start(r), Final(r), w) <==> In(r, w)
  }

  /** `(A|B)+` keeps its meaning exactly when every word of `B` already belongs to `A+`. */
  lemma {:induction false} LoopIsRightExactly(left: Regex, right: Regex, minimal: bool)
    requires WellShaped(Alt(left, right)) && Safe(Alt(left, right))
    ensures KeepsMeaning(Loop(left, right), minimal) <==> Within(right, Plus(left))
  {
    var r, both := Loop(left, right), Group(Alt(left, right));
    forall w ensures Spells(Program(r, minimal), Start(r), Final(r), w) <==> In(Plus(left), w) {
      LoopLosesRightOperand(left, right, minimal, w);
    }
    if KeepsMeaning(r, minimal) {
      forall w | In(right, w) ensures In(Plus(left), w) {
        WordIsPower(both, w);
        assert Spells(Program(r, minimal), Start(r), Final(r), w);
      }
    }
    if Within(right, Plus(left)) {
      LeftOrBoth(left, right);
    }
  }

  lemma {:induction false} LeftOrBoth(left: Regex, right: Regex)
    requires Within(right, Plus(left))
    ensures forall w :: In(Plus(left), w) <==> In(Loop(left, right), w)
  {
    var both := Group(Alt(left, right));
    forall v | In(both, v) ensures In(Plus(left), v) {
      assert In(Alt(left, right), v);
      if In(left, v) { WordIsPower(left, v); }
    }
    forall v | In(left, v) ensures In(Plus(both), v) { WordIsPower(both, v); }
    forall w ensures In(Plus(left), w) <==> In(Loop(left, right), w) {
      if In(Plus(left), w) { PlusWithin(both, left, w); }
      if In(Loop(left, right), w) { PlusWithin(left, both, w); }
    }
  }

  // ---------- One failure for each rule ----------

  const A: Byte := 97
  const B: Byte := 98
  const C: Byte := 99

  /** Every word of a literal pattern, of its iteration or of its non-empty iteration consists of that character. */
  lemma {:induction false} OnlyItself(c: Byte, n: nat, w: seq<Byte>)
    requires Power(Lit(c), n, w)
    ensures |w| == n && forall i | 0 <= i < |w| :: w[i] == c
    decreases n
  {
    if n > 0 {
      var k := PowerWitness(Lit(c), n, w);
      assert w[..k] == [c] && w == w[..k] + w[k..];
      OnlyItself(c, n - 1, w[k..]);
    }
  }

  /** `(a|b)+` rejects "b". */
  lemma {:induction false} PlusOnAlternation(minimal: bool)
    ensures var r := Plus(Group(Alt(Lit(A), Lit(B))));
            WellShaped(r) && !Safe(r) && In(r, [B]) && !Spells(Program(r, minimal), Start(r), Final(r), [B])
  {
    WordIsPower(Group(Alt(Lit(A), Lit(B))), [B]);
    LoopLosesRightOperand(Lit(A), Lit(B), minimal, [B]);
    if In(Plus(Lit(A)), [B]) {
      var n := PlusWitness(Plus(Lit(A)), [B]);
      OnlyItself(A, n, [B]);
    }
  }

  lemma {:induction false} LitIs(c: Byte, w: seq<Byte>)
    ensures In(Lit(c), w) <==> w == [c]
  {}

  /** A word of a concatenation is not empty if the words of its first part are not. */
  lemma {:induction false} StartsWith(c: Byte, rest: Regex, w: seq<Byte>)
    ensures In(Cat(Lit(c), rest), w) <==> w != [] && w[0] == c && In(rest, w[1..])
  {
    hide Power;
    if In(Cat(Lit(c), rest), w) {
      var k := CatWitness(Cat(Lit(c), rest), w);
      assert w == w[..k] + w[k..];
    }
    if w != [] && w[0] == c && In(rest, w[1..]) {
      assert w[..1] == [c];
      CatOf(Lit(c), rest, w, 1);
    }
  }

  lemma {:induction false} InStar(c: Byte, w: seq<Byte>)
    ensures In(Star(Lit(c)), w) <==> forall i | 0 <= i < |w| :: w[i] == c
    decreases |w|
  {
    if In(Star(Lit(c)), w) {
      var n := StarWitness(Lit(c), w);
      OnlyItself(c, n, w);
    }
    if forall i | 0 <= i < |w| :: w[i] == c {
      if w == [] {
        NoWords(Lit(c));
        StarOf(Lit(c), 0, []);
      } else {
        InStar(c, w[1..]);
        StartsWith(c, Star(Lit(c)), w);
        StarAbsorbs(Lit(c), w);
      }
    }
  }

  /** `a*|b` accepts "ab": the star's own character leads back to the branch. */
  lemma {:induction false} StarBeforeBar(minimal: bool)
    ensures var r := Alt(Star(Lit(A)), Lit(B));
            WellShaped(r) && !Safe(r) && !In(r, [A, B]) && Spells(Program(r, minimal), Start(r), Final(r), [A, B])
  {
    hide In, Program, Start, Final, Means, Spells, Size, Returned, Power;
    var r, w, tail := Alt(Star(Lit(A)), Lit(B)), [A, B], Alt(NOTHING, Lit(B));
    BarFollowsStar(Lit(A), Lit(B), minimal);
    assert w[..1] == [A] && w[1..] == [B];
    InStar(A, [A]);
    InStar(A, w);
    assert w[1] == B;
    LitIs(B, [B]);
    LitIs(B, w);
    AltOf(NOTHING, Lit(B), [B]);
    AltOf(Star(Lit(A)), Lit(B), w);
    CatOf(Star(Lit(A)), tail, w, 1);
    MeansAt(Program(r, minimal), Final(r), Start(r), LoopedLanguage(Lit(A), Lit(B)), w);
  }

  /** `a+b*` rejects "aa": entering the star has cut the way back of the plus. */
  lemma {:induction false} StarAfterPlus(minimal: bool)
    ensures var r := Cat(Plus(Lit(A)), Star(Lit(B)));
            WellShaped(r) && !Safe(r) && In(r, [A, A]) && !Spells(Program(r, minimal), Start(r), Final(r), [A, A])
  {
    hide In, Program, Start, Final, Means, Spells, Size, Returned, Power;
    var r, w := Cat(Plus(Lit(A)), Star(Lit(B))), [A, A];
    StarCutsPlus(Lit(A), Lit(B), minimal);
    assert [A] + [A] == w && w[1..] == [A];
    LitIs(A, [A]);
    TwoWords(Lit(A), [A], [A]);
    NoMoreWords(Plus(Lit(A)), Lit(B), w);
    StartsWith(A, Star(Lit(B)), w);
    InStar(B, [A]);
    MeansAt(Program(r, minimal), Final(r), Start(r), Cat(Lit(A), Star(Lit(B))), w);
  }

  lemma {:induction false} TwoWords(r: Regex, v: seq<Byte>, w: seq<Byte>)
    requires In(r, v) && In(r, w)
    ensures In(Plus(r), v + w)
  {
    WordIsPower(r, v);
    WordIsPower(r, w);
    PowerAdd(r, 1, 1, v, w);
    PlusOf(Plus(r), 2, v + w);
  }

  lemma {:induction false} NoMoreWords(first: Regex, r: Regex, w: seq<Byte>)
    requires In(first, w)
    ensures In(Cat(first, Star(r)), w)
  {
    assert w[..|w|] == w && w[|w|..] == [];
    NoWords(r);
    StarOf(r, 0, []);
    CatOf(first, Star(r), w, |w|);
  }

  /** `(a|b)c*` rejects "a": only the right operand is led to the star. */
  lemma {:induction false} StarAfterBar(minimal: bool)
    ensures var r := Cat(Group(Alt(Lit(A), Lit(B))), Star(Lit(C)));
            WellShaped(r) && !Safe(r) && In(r, [A]) && !Spells(Program(r, minimal), Start(r), Final(r), [A])
  {
    hide In, Program, Start, Final, Means, Spells, Size, Returned, Power;
    var r, w := Cat(Group(Alt(Lit(A), Lit(B))), Star(Lit(C))), [A];
    StarSkipsLeft(Lit(A), Lit(B), Lit(C), minimal);
    GroupIs(Alt(Lit(A), Lit(B)), w);
    LitIs(A, w);
    AltOf(Lit(A), Lit(B), w);
    NoMoreWords(Group(Alt(Lit(A), Lit(B))), Lit(C), w);
    StartsWith(B, Star(Lit(C)), w);
    StartsWith(A, Cat(Lit(C), Star(Lit(C))), w);
    StartsWith(C, Star(Lit(C)), w[1..]);
    AltOf(Cat(Lit(B), Star(Lit(C))), Cat(Lit(A), Cat(Lit(C), Star(Lit(C)))), w);
    MeansAt(Program(r, minimal), Final(r), Start(r), StarredAlternation(Lit(A), Lit(B), Lit(C)), w);
  }

  lemma {:induction false} GroupIs(body: Regex, w: seq<Byte>)
    ensures In(Group(body), w) <==> In(body, w)
  {
    hide Power;
  }

  /** `(a|b)|c` accepts "ac": the exit of `a` leads back to the branch. */
  lemma {:induction false} BarAfterBar(minimal: bool)
    ensures var r := Alt(Group(Alt(Lit(A), Lit(B))), Lit(C));
            WellShaped(r) && !Safe(r) && !In(r, [A, C]) && Spells(Program(r, minimal), Start(r), Final(r), [A, C])
  {
    hide In, Program, Start, Final, Means, Spells, Size, Returned, Power;
    var r, w := Alt(Group(Alt(Lit(A), Lit(B))), Lit(C)), [A, C];
    var last := Alt(Lit(A), Alt(Lit(B), Lit(C)));
    BarRestarts(Lit(A), Lit(B), Lit(C), minimal);
    GroupIs(Alt(Lit(A), Lit(B)), w);
    assert w[..1] == [A] && w[1..] == [C];
    InStar(A, [A]);
    LitIs(C, [C]);
    AltOf(Lit(B), Lit(C), [C]);
    AltOf(Lit(A), Alt(Lit(B), Lit(C)), [C]);
    CatOf(Star(Lit(A)), last, w, 1);
    LitIs(A, w);
    LitIs(B, w);
    LitIs(C, w);
    AltOf(Lit(A), Lit(B), w);
    AltOf(Group(Alt(Lit(A), Lit(B))), Lit(C), w);
    MeansAt(Program(r, minimal), Final(r), Start(r), NestedLanguage(Lit(A), Lit(B), Lit(C)), w);
  }
}
