/** What a match means: the matcher's verdict in terms of the pattern's language. */
module Meaning {
  import opened Bytes
  import opened Patterns
  import opened Nfa
  import opened Layout
  import opened Compiler
  import opened Closed
  import opened Simulation
  import opened Reading
  import opened Correctness

  /** A run of the compiled pattern finishes at level `k` exactly when it has read a word of the pattern. */
  lemma {:induction false} ProgramAccepts(r: Regex, minimal: bool, a: seq<Byte>, len: nat, k: nat)
    requires WellShaped(r) && Safe(r) && len <= |a| && k <= Horizon(minimal, len)
    ensures Accepts(Program(r, minimal), a, len, Start(r), 0, k) <==>
            var p := if minimal then k else k - 1;
            0 <= p <= len && (minimal || EndsAt(a, len, p)) && In(r, a[..p])
  {
    var m := Program(r, minimal);
    ProgramGated(r, minimal);
    ProgramLaid(r, minimal);
    EntryInBlock(r);
    AcceptsIsSpelling(m, Final(r), minimal, a, len, Start(r), 0, k);
    var p := if minimal then k else k - 1;
    if 0 <= p <= len {
      assert a[0..p] == a[..p];
      CompilationPreservesMeaning(r, minimal, a[..p]);
    }
  }

  /** The matcher's verdict: some run finishes within the horizon. */
  ghost predicate Matches(r: Regex, minimal: bool, a: seq<Byte>, len: nat)
    requires len <= |a|
  {
    exists k | 0 <= k <= Horizon(minimal, len) :: Accepts(Program(r, minimal), a, len, Start(r), 0, k)
  }

  /** Maximal matching decides membership of the whole subject, unless the subject contains a NUL. */
  lemma {:induction false} MaximalMatchIsMembership(r: Regex, a: seq<Byte>, len: nat)
    requires WellShaped(r) && Safe(r) && len <= |a| && NulFree(a[..len])
    ensures Matches(r, false, a, len) <==> In(r, a[..len])
    ensures forall k: nat :: FirstAccept(Program(r, false), a, len, Start(r), k) && k <= len + 1 ==> k == len + 1
  {
    hide Accepts, In, Program, Safe, WellShaped, Start;
    forall k: nat | k <= len + 1
      ensures Accepts(Program(r, false), a, len, Start(r), 0, k) <==> k == len + 1 && In(r, a[..len])
    {
      ProgramAccepts(r, false, a, len, k);
      if 0 < k <= len {
        assert a[..len][k - 1] == a[k - 1];
      }
    }
    assert In(r, a[..len]) ==> Accepts(Program(r, false), a, len, Start(r), 0, len + 1);
  }

  /** With NULs in the subject, maximal matching accepts a word that ends at any of them. */
  lemma {:induction false} MaximalMatchStopsAtNul(r: Regex, a: seq<Byte>, len: nat)
    requires WellShaped(r) && Safe(r) && len <= |a|
    ensures Matches(r, false, a, len) <==> exists p | 0 <= p <= len :: EndsAt(a, len, p) && In(r, a[..p])
  {
    hide Accepts, In, Program, Safe, WellShaped, Start;
    forall k: nat | k <= len + 1
      ensures Accepts(Program(r, false), a, len, Start(r), 0, k) <==> k > 0 && EndsAt(a, len, k - 1) && In(r, a[..k - 1])
    {
      ProgramAccepts(r, false, a, len, k);
    }
    if exists p | 0 <= p <= len :: EndsAt(a, len, p) && In(r, a[..p]) {
      var p :| 0 <= p <= len && EndsAt(a, len, p) && In(r, a[..p]);
      assert Accepts(Program(r, false), a, len, Start(r), 0, p + 1);
    }
  }

  /** `p` is the length of the shortest prefix of the first `len` characters that belongs to the pattern. */
  ghost predicate ShortestPrefix(r: Regex, a: seq<Byte>, len: nat, p: nat)
    requires len <= |a|
  {
    p <= len && In(r, a[..p]) && forall q | 0 <= q < p :: !In(r, a[..q])
  }

  /** Minimal matching finds the shortest prefix that belongs to the pattern. */
  lemma {:induction false} MinimalMatchIsShortestPrefix(r: Regex, a: seq<Byte>, len: nat)
    requires WellShaped(r) && Safe(r) && len <= |a|
    ensures Matches(r, true, a, len) <==> exists p | 0 <= p <= len :: In(r, a[..p])
    ensures forall k: nat :: k <= len && FirstAccept(Program(r, true), a, len, Start(r), k) ==> ShortestPrefix(r, a, len, k)
  {
    hide Accepts, In, Program, Safe, WellShaped, Start;
    forall k: nat | k <= len
      ensures Accepts(Program(r, true), a, len, Start(r), 0, k) <==> In(r, a[..k])
    {
      ProgramAccepts(r, true, a, len, k);
    }
    if exists p | 0 <= p <= len :: In(r, a[..p]) {
      var p :| 0 <= p <= len && In(r, a[..p]);
      assert Accepts(Program(r, true), a, len, Start(r), 0, p);
    }
  }

  /** For every compiled pattern, safe or not, acceptance at a level within the horizon depends on the subject alone. */
  lemma {:induction false} LevelsIgnoreTheRest(r: Regex, minimal: bool, a: seq<Byte>, b: seq<Byte>, len: nat, k: nat)
    requires WellShaped(r) && len <= |a| && len <= |b| && a[..len] == b[..len]
    requires k <= Horizon(minimal, len)
    ensures Accepts(Program(r, minimal), a, len, Program(r, minimal).cells[0].next1, 0, k) <==>
            Accepts(Program(r, minimal), b, len, Program(r, minimal).cells[0].next1, 0, k)
  {
    var m := Program(r, minimal);
    ProgramGated(r, minimal);
    var s := m.cells[0].next1;
    AcceptsIsSpelling(m, Final(r), minimal, a, len, s, 0, k);
    AcceptsIsSpelling(m, Final(r), minimal, b, len, s, 0, k);
    var p := if minimal then k else k - 1;
    if 0 <= p <= len {
      assert a[0..p] == a[..len][0..p] == b[..len][0..p] == b[0..p];
      assert p < len ==> a[p] == a[..len][p] == b[..len][p] == b[p];
    }
  }

  /**
   For every compiled pattern, safe or not, what the matcher reports, success or failure
   and the position it stops at, depends on the subject alone, although sets and '?' look
   at what lies beyond its end.
   */
  lemma {:induction false} OverreadIsHarmless(r: Regex, minimal: bool, a: seq<Byte>, b: seq<Byte>, len: nat,
                                              found: bool, pos: nat, found': bool, pos': nat)
    requires WellShaped(r) && len <= |a| && len <= |b| && a[..len] == b[..len]
    requires Verdict(Program(r, minimal), Horizon(minimal, len), a, len, Program(r, minimal).cells[0].next1, found, pos)
    requires Verdict(Program(r, minimal), Horizon(minimal, len), b, len, Program(r, minimal).cells[0].next1, found', pos')
    ensures found == found' && pos == pos'
  {
    ProgramGated(r, minimal);
    hide Accepts, Furthest, Program, WellShaped;
    var m, horizon := Program(r, minimal), Horizon(minimal, len);
    var s := m.cells[0].next1;
    forall k | 0 <= k <= horizon
      ensures Accepts(m, a, len, s, 0, k) <==> Accepts(m, b, len, s, 0, k)
    {
      LevelsIgnoreTheRest(r, minimal, a, b, len, k);
    }
    if !found && !found' {
      FurthestUnique(m, a, b, len, s, pos, pos');
    }
  }

  /** Rewriting the accept gate gives exactly what compiling in the other mode would have given. */
  lemma {:induction false} ModeSwitchIsRecompilation(r: Regex, before: bool, after: bool)
    requires WellShaped(r)
    ensures Fill(Program(r, before), Final(r), Gate(Final(r), after)) == Program(r, after)
  {
    var p, q := Fill(Program(r, before), Final(r), Gate(Final(r), after)), Program(r, after);
    assert p.cells == q.cells;
  }

  /** The automaton after a sequence of mode switches; switching to the mode already set does nothing. */
  function Switched(a: Nfa, final: nat, minimal: bool, modes: seq<bool>): Nfa
    requires final < |a.cells|
    decreases |modes|
  {
    if modes == [] then a
    else Switched(if modes[0] != minimal then Fill(a, final, Gate(final, modes[0])) else a, final, modes[0], modes[1..])
  }

  /** However often the mode is switched, the automaton is the one compiled in the last mode. */
  lemma {:induction false} SwitchesAreRecompilation(r: Regex, minimal: bool, modes: seq<bool>)
    requires WellShaped(r)
    ensures Switched(Program(r, minimal), Final(r), minimal, modes)
         == Program(r, if modes == [] then minimal else modes[|modes| - 1])
    decreases |modes|
  {
    if modes != [] {
      ModeSwitchIsRecompilation(r, minimal, modes[0]);
      SwitchesAreRecompilation(r, modes[0], modes[1..]);
    }
  }
}
