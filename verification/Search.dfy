/** RegExp_Pos: leftmost-longest or leftmost-shortest search on top of the matcher. */
module Search {
  import opened Bytes
  import opened Patterns
  import opened Compiler
  import opened Closed
  import opened Settle
  import opened Simulation
  import opened Reading
  import opened Prefixes
  import opened Language
  import opened Correctness
  import opened Meaning
  import opened Engine

  /** Some word of the pattern starts at `p` within the first `n` characters. */
  ghost predicate MatchAt(r: Regex, a: seq<Byte>, n: nat, p: nat)
    requires n <= |a|
  {
    exists q | p <= q <= n :: In(r, a[p..q])
  }

  /** Some non-empty word of the pattern starts at `p`. */
  ghost predicate NonEmptyMatchAt(r: Regex, a: seq<Byte>, n: nat, p: nat)
    requires n <= |a|
  {
    exists q | p < q <= n :: In(r, a[p..q])
  }

  /** `q` ends the shortest word of the pattern that starts at `p`. */
  ghost predicate ShortestEnd(r: Regex, a: seq<Byte>, n: nat, p: nat, q: nat)
    requires n <= |a|
  {
    p <= q <= n && In(r, a[p..q]) && forall q' | p <= q' < q :: !In(r, a[p..q'])
  }

  /** `q` ends the longest word of the pattern that starts at `p`. */
  ghost predicate LongestEnd(r: Regex, a: seq<Byte>, n: nat, p: nat, q: nat)
    requires n <= |a|
  {
    p <= q <= n && In(r, a[p..q]) && forall q' | q < q' <= n :: !In(r, a[p..q'])
  }

  /** A successfully parsed pattern that the matcher can run. */
  ghost predicate Ready(aut: Automaton, r: Regex)
    reads aut, aut.ch, aut.next1, aut.next2
  {
    && WellShaped(r) && Safe(r) && Productive(r)
    && aut.final == Final(r) && aut.Holds(Program(r, aut.minimal))
  }

  /** setMinimal on a parsed pattern. */
  method SwitchMode(aut: Automaton, f: bool, ghost r: Regex)
    requires Ready(aut, r)
    modifies aut, aut.ch, aut.next1, aut.next2
    ensures Ready(aut, r) && aut.minimal == f && aut.currentPos == old(aut.currentPos)
    ensures fresh(aut.ch) || aut.ch == old(aut.ch)
    ensures fresh(aut.next1) || aut.next1 == old(aut.next1)
    ensures fresh(aut.next2) || aut.next2 == old(aut.next2)
  {
    ModeSwitchIsRecompilation(r, aut.minimal, f);
    aut.SetMinimal(f, Program(r, aut.minimal));
  }

  /** match on a parsed pattern, starting at `p`. */
  method MatchFrom(aut: Automaton, a: seq<Byte>, p: nat, len: nat, ghost r: Regex) returns (found: bool)
    requires Ready(aut, r) && p + len + 2 <= |a|
    modifies aut`currentPos
    ensures Ready(aut, r)
    ensures aut.minimal ==> (found <==> MatchAt(r, a, p + len, p))
    ensures aut.minimal && found ==> ShortestEnd(r, a, p + len, p, p + aut.currentPos)
    ensures !aut.minimal && NulFree(a[p..p + len]) ==> (found <==> In(r, a[p..p + len]))
    ensures !aut.minimal && NulFree(a[p..p + len]) && found ==> aut.currentPos == len
    ensures !found ==> Furthest(Program(r, aut.minimal), a[p..], len, Start(r), aut.currentPos)
  {
    ghost var d := Runnable(r, aut.minimal);
    found := aut.Match(a[p..], len, Program(r, aut.minimal), d);
    VerdictMeans(r, aut.minimal, a, p, len, found, aut.currentPos);
  }

  /** The matcher may be run on the compiled pattern. */
  lemma {:induction false} Runnable(r: Regex, minimal: bool) returns (d: nat)
    requires WellShaped(r) && Safe(r) && Productive(r)
    ensures Explorable(Program(r, minimal)) && Settled(Program(r, minimal), d)
    ensures Program(r, minimal).cells[0].Cell? && Program(r, minimal).cells[0].next1 == Start(r)
  {
    d := ProgramSettled(r, minimal);
    ProgramGated(r, minimal);
    ProgramLaid(r, minimal);
    GatedIsExplorable(Program(r, minimal), Final(r), minimal);
  }

  /** What the matcher's report on the subject from `p` on means. */
  lemma {:induction false} VerdictMeans(r: Regex, minimal: bool, a: seq<Byte>, p: nat, len: nat, found: bool, pos: nat)
    requires WellShaped(r) && Safe(r) && p + len <= |a|
    requires Verdict(Program(r, minimal), Horizon(minimal, len), a[p..], len, Start(r), found, pos)
    ensures minimal ==> (found <==> MatchAt(r, a, p + len, p))
    ensures minimal && found ==> ShortestEnd(r, a, p + len, p, p + pos)
    ensures !minimal && NulFree(a[p..p + len]) ==> (found <==> In(r, a[p..p + len]))
    ensures !minimal && NulFree(a[p..p + len]) && found ==> pos == len
    ensures !found ==> Furthest(Program(r, minimal), a[p..], len, Start(r), pos)
  {
    hide In, Furthest, Accepts, Program, Safe, WellShaped;
    if minimal {
      MinimalMatchIsShortestPrefix(r, a[p..], len);
      PrefixesAreSlices(r, a, p, len);
    } else if NulFree(a[p..p + len]) {
      Slices(a, p);
      MaximalMatchIsMembership(r, a[p..], len);
    }
  }

  lemma {:induction false} Slices(a: seq<Byte>, p: nat)
    requires p <= |a|
    ensures forall k: nat {:trigger a[p..][..k]} | p + k <= |a| :: a[p..][..k] == a[p..p + k]
  {}

  lemma {:induction false} PrefixesAreSlices(r: Regex, a: seq<Byte>, p: nat, len: nat)
    requires p + len <= |a|
    ensures (exists k | 0 <= k <= len :: In(r, a[p..][..k])) <==> MatchAt(r, a, p + len, p)
    ensures forall k: nat | k <= len && ShortestPrefix(r, a[p..], len, k) :: ShortestEnd(r, a, p + len, p, p + k)
  {
    hide In;
    Slices(a, p);
    if MatchAt(r, a, p + len, p) {
      var q :| p <= q <= p + len && In(r, a[p..q]);
      assert a[p..][..q - p] == a[p..q];
    }
    forall k: nat | k <= len && ShortestPrefix(r, a[p..], len, k) ensures ShortestEnd(r, a, p + len, p, p + k) {
      forall q | p <= q < p + k ensures !In(r, a[p..q]) {
        assert a[p..][..q - p] == a[p..q];
      }
    }
  }

  /**
   Search the first `n` characters of `a`. Returns the 1-based start of the leftmost
   match or 0, and the end-of-match position that is stored, if any.
   */
  method Pos(aut: Automaton, a: seq<Byte>, n: nat, ghost r: Regex) returns (i: nat, end: Option<int>)
    requires Ready(aut, r) && n + 2 <= |a|
    modifies aut, aut.ch, aut.next1, aut.next2
    ensures Ready(aut, r) && aut.minimal == old(aut.minimal)
    // leftmost
    ensures i == 0 ==> forall p | 0 <= p < n :: !MatchAt(r, a, n, p)
    ensures i > 0 ==> i <= n && MatchAt(r, a, n, i - 1) && forall p | 0 <= p < i - 1 :: !MatchAt(r, a, n, p)
    // the position stored
    ensures end == None <==> n == 0
    ensures n > 0 && i == 0 ==> end == Some(0)
    ensures i > 0 && aut.minimal ==> end.Some? && end.value >= 0 && ShortestEnd(r, a, n, i - 1, end.value)
    ensures i > 0 && !aut.minimal && NulFree(a[..n]) ==>
              end.Some? && end.value >= 0 && EndIsLongest(r, a, n, i - 1, end.value)
  {
    assert WellShaped(r);
    hide Ready, MatchAt, ShortestEnd, EndIsLongest, In, Program, Start;
    i, end := 0, None;
    if n > 0 {
      var fOldState := aut.minimal;
      SwitchMode(aut, true, r);
      var pszString, strlength, found := FirstMatch(aut, a, n, r);
      if found {
        i := pszString;
        if !fOldState {
          MatchMaximal(aut, a, n, pszString - 1, r);
        }
        end := Some(i + aut.currentPos - 1);
      } else {
        end := Some(0);
      }
      SwitchMode(aut, fOldState, r);
    }
  }

  /** Try every start from the left until the minimal matcher succeeds. */
  method FirstMatch(aut: Automaton, a: seq<Byte>, n: nat, ghost r: Regex)
    returns (pszString: nat, strlength: nat, found: bool)
    requires Ready(aut, r) && aut.minimal && 0 < n && n + 2 <= |a|
    modifies aut`currentPos
    ensures Ready(aut, r) && 0 < pszString <= n && pszString + strlength == n
    ensures forall p | 0 <= p < pszString - 1 :: !MatchAt(r, a, n, p)
    ensures found <==> MatchAt(r, a, n, pszString - 1)
    ensures found ==> ShortestEnd(r, a, n, pszString - 1, pszString - 1 + aut.currentPos)
    ensures !found ==> pszString == n
  {
    hide Ready, MatchAt, ShortestEnd, Furthest, In, Program, Start;
    pszString, strlength := 0, n;
    found := MatchFrom(aut, a, pszString, strlength, r);
    strlength := strlength - 1;
    pszString := pszString + 1;
    while !found && strlength != 0
      invariant 0 < pszString && pszString + strlength == n && Ready(aut, r)
      invariant forall p | 0 <= p < pszString - 1 :: !MatchAt(r, a, n, p)
      invariant found <==> MatchAt(r, a, n, pszString - 1)
      invariant found ==> ShortestEnd(r, a, n, pszString - 1, pszString - 1 + aut.currentPos)
    {
      found := MatchFrom(aut, a, pszString, strlength, r);
      strlength := strlength - 1;
      pszString := pszString + 1;
    }
  }

  /** Replace the shortest match found at `p` by the longest. */
  method MatchMaximal(aut: Automaton, a: seq<Byte>, n: nat, p: nat, ghost r: Regex)
    requires Ready(aut, r) && p < n && n + 2 <= |a|
    modifies aut, aut.ch, aut.next1, aut.next2
    ensures Ready(aut, r) && !aut.minimal
    ensures fresh(aut.ch) || aut.ch == old(aut.ch)
    ensures fresh(aut.next1) || aut.next1 == old(aut.next1)
    ensures fresh(aut.next2) || aut.next2 == old(aut.next2)
    ensures NulFree(a[..n]) && MatchAt(r, a, n, p) ==> EndIsLongest(r, a, n, p, p + aut.currentPos)
  {
    SwitchMode(aut, false, r);
    LongestMatch(aut, a, n, p, r);
  }

  lemma {:induction false} NulFreePart(a: seq<Byte>, n: nat, p: nat, q: nat)
    requires p <= q <= n <= |a|
    ensures NulFree(a[..n]) ==> NulFree(a[p..q])
  {
    assert forall i | 0 <= i < q - p :: a[p..q][i] == a[..n][p + i];
  }

  /** From the start found, try ever shorter subjects until the maximal matcher succeeds. */
  method LongestMatch(aut: Automaton, a: seq<Byte>, n: nat, p: nat, ghost r: Regex)
    requires Ready(aut, r) && !aut.minimal && p < n && n + 2 <= |a|
    modifies aut`currentPos
    ensures Ready(aut, r)
    ensures NulFree(a[..n]) && MatchAt(r, a, n, p) ==> EndIsLongest(r, a, n, p, p + aut.currentPos)
  {
    assert WellShaped(r);
    hide Ready, Furthest, MatchAt, EndIsLongest, In, Program, Start, NulFree, NoLonger;
    NoneBeyond(r, a, n, p);
    var strlength: nat := n - p;
    var found := false;
    while strlength != 0
      invariant strlength <= n - p && !found && Ready(aut, r)
      invariant strlength < n - p ==> Furthest(Program(r, false), a[p..], strlength + 1, Start(r), aut.currentPos)
      invariant NulFree(a[..n]) ==> NoLonger(r, a, n, p, p + strlength)
    {
      NulFreePart(a, n, p, p + strlength);
      found := MatchFrom(aut, a, p, strlength, r);
      if found {
        break;
      }
      OneLess(r, a, n, p, p + strlength);
      strlength := strlength - 1;
    }
    if found {
      LongestFound(r, a, n, p, p + strlength);
    } else {
      OnlyEmptyWord(r, a, n, p, aut.currentPos);
    }
  }

  /**
   The position stored is the end of the longest match exactly when the match is not
   empty or the character there cannot be read at all; otherwise it is one too far.
   */
  ghost predicate EndIsLongest(r: Regex, a: seq<Byte>, n: nat, p: nat, end: nat)
    requires p < n <= |a| && WellShaped(r)
  {
    var stuck := !Reads(Program(r, false), Start(r), [a[p]]);
    && (LongestEnd(r, a, n, p, end) <==> NonEmptyMatchAt(r, a, n, p) || stuck)
    && (LongestEnd(r, a, n, p, end) || end == p + 1)
  }

  /** No word of the pattern that starts at `p` ends beyond `q`. */
  ghost predicate NoLonger(r: Regex, a: seq<Byte>, n: nat, p: nat, q: nat)
    requires p <= n <= |a|
  {
    forall q' | q < q' <= n && p <= q' :: !In(r, a[p..q'])
  }

  lemma {:induction false} NoneBeyond(r: Regex, a: seq<Byte>, n: nat, p: nat)
    requires p <= n <= |a|
    ensures NoLonger(r, a, n, p, n)
  {}

  lemma {:induction false} OneLess(r: Regex, a: seq<Byte>, n: nat, p: nat, q: nat)
    requires p < q <= n <= |a|
    ensures NoLonger(r, a, n, p, q) && !In(r, a[p..q]) ==> NoLonger(r, a, n, p, q - 1)
  {}

  lemma {:induction false} LongestFound(r: Regex, a: seq<Byte>, n: nat, p: nat, q: nat)
    requires p < q <= n <= |a| && WellShaped(r)
    requires NulFree(a[..n]) ==> In(r, a[p..q]) && NoLonger(r, a, n, p, q)
    ensures NulFree(a[..n]) ==> EndIsLongest(r, a, n, p, q)
  {
    hide In, Program, Reads, WellShaped;
    if NulFree(a[..n]) {
      assert LongestEnd(r, a, n, p, q) && NonEmptyMatchAt(r, a, n, p);
    }
  }

  lemma {:induction false} OnlyEmptyWord(r: Regex, a: seq<Byte>, n: nat, p: nat, pos: nat)
    requires p < n <= |a| && WellShaped(r)
    requires Furthest(Program(r, false), a[p..], 1, Start(r), pos)
    requires NulFree(a[..n]) ==> NoLonger(r, a, n, p, p)
    ensures NulFree(a[..n]) && MatchAt(r, a, n, p) ==> EndIsLongest(r, a, n, p, p + pos)
  {
    hide In, Program, Reads, WellShaped;
    assert a[p..][..1] == [a[p]];
    if NulFree(a[..n]) && MatchAt(r, a, n, p) {
      assert LongestEnd(r, a, n, p, p) && !LongestEnd(r, a, n, p, p + 1);
    }
  }

  /** For a pattern that cannot match the empty word, every match has a longest end that is not its start. */
  lemma {:induction false} NonNullableMatchIsNonEmpty(r: Regex, a: seq<Byte>, n: nat, p: nat)
    requires n <= |a| && !Nullable(r) && MatchAt(r, a, n, p)
    ensures NonEmptyMatchAt(r, a, n, p)
  {
    var q :| p <= q <= n && In(r, a[p..q]);
    if q == p {
      assert a[p..q] == [];
      NullableIsEmptyWord(r);
    }
  }

  const AB_STAR: Regex := Star(Group(Cat(Lit(97), Lit(98))))

  /** `(ab)*` on "a": only the empty word matches, but the position stored in maximal mode is 1. */
  lemma {:induction false} EmptyMatchOverruns()
    ensures WellShaped(AB_STAR) && Safe(AB_STAR) && Productive(AB_STAR)
    ensures MatchAt(AB_STAR, [97], 1, 0) && !NonEmptyMatchAt(AB_STAR, [97], 1, 0) && LongestEnd(AB_STAR, [97], 1, 0, 0)
    ensures forall end: nat :: EndIsLongest(AB_STAR, [97], 1, 0, end) ==> end == 1
  {
    var a: seq<Byte> := [97];
    WordsOfAbStar();
    assert Satisfiable(AB_STAR) && Safe(AB_STAR) && WellShaped(AB_STAR);
    hide In, Program, Safe, WellShaped, Satisfiable, Start, Reads;
    assert a[0..0] == [] && a[0..1] == a && a + [98] == [97, 98];
    assert Begins(AB_STAR, a);
    ReadsWhatWordsBeginWith(AB_STAR, false, a);
  }

  lemma {:induction false} WordsOfAbStar()
    ensures In(AB_STAR, []) && In(AB_STAR, [97, 98]) && !In(AB_STAR, [97])
  {
    var ab := Group(Cat(Lit(97), Lit(98)));
    var w, a: seq<Byte> := [97, 98], [97];
    AbIsWord(w);
    NoWords(ab);
    NoneLeft(ab, w, 2) by { assert w[..2] == w; }
    assert w[..2] == w;
    forall n: nat ensures !Power(ab, n, a) {
      if n > 0 && Power(ab, n, a) {
        var k := PowerWitness(ab, n, a);
        AbIsWord(a[..k]);
      }
    }
  }

  lemma {:induction false} AbIsWord(w: seq<Byte>)
    ensures In(Group(Cat(Lit(97), Lit(98))), w) <==> w == [97, 98]
  {
    var ab := Cat(Lit(97), Lit(98));
    if In(ab, w) {
      var k := CatWitness(ab, w);
      assert w == w[..k] + w[k..];
    }
    if w == [97, 98] {
      assert w[..1] == [97] && w[1..] == [98];
    }
  }
}
