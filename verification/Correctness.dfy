/** The compiler as a whole: from a pattern to the language of the emitted automaton. */
module Correctness {
  import opened Bytes
  import opened Patterns
  import opened Nfa
  import opened Layout
  import opened Compiler
  import opened Language
  import opened Settle

  lemma {:induction false} ProgramLaid(r: Regex, minimal: bool)
    requires WellShaped(r) && Safe(r)
    ensures Laid(Program(r, minimal), r, 1, Final(r))
    ensures Program(r, minimal).cells[0] == Cell(Eps, Start(r), Start(r)) && Start(r) == 1 + Entry(r)
  {
    SafeReturnsEntry(r);
    var a0 := Nfa([Unset], []);
    CompileLays(r, a0);
    var a1 := Compile(r, a0).0;
    LaidFrame(a1, Program(r, minimal), r, 1, Final(r));
  }

  /** Compilation preserves meaning: start to accept gate spells exactly the words of the pattern, in either mode. */
  lemma {:induction false} CompilationPreservesMeaning(r: Regex, minimal: bool, w: seq<Byte>)
    requires WellShaped(r) && Safe(r)
    ensures Spells(Program(r, minimal), Start(r), Final(r), w) <==> In(r, w)
  {
    ProgramLaid(r, minimal);
    LaidSpells(Program(r, minimal), r, 1, w);
  }

  /** Compilation of a productive safe pattern leaves no epsilon cycle. */
  lemma {:induction false} ProgramSettled(r: Regex, minimal: bool) returns (d: nat)
    requires WellShaped(r) && Safe(r) && Productive(r)
    ensures Settled(Program(r, minimal), d)
  {
    ProgramLaid(r, minimal);
    var a := Program(r, minimal);
    var final := Final(r);
    assert Settles(a, final + 1, 1) && Settles(a, final, 1);
    var e := BlockSettled(a, r, 1, final, 1);
    EntryInBlock(r);
    d := EpsSettles(a, 0, Start(r), Start(r), e, e);
    BlockLonger(a, 1, final, e, d);
    SettlesLonger(a, final, 1, d);
    SettlesLonger(a, final + 1, 1, d);
  }

  /** The words accepted do not depend on the mode the pattern was compiled in. */
  lemma {:induction false} MeaningIgnoresMode(r: Regex, w: seq<Byte>)
    requires WellShaped(r) && Safe(r)
    ensures Spells(Program(r, true), Start(r), Final(r), w) <==> Spells(Program(r, false), Start(r), Final(r), w)
  {
    CompilationPreservesMeaning(r, true, w);
    CompilationPreservesMeaning(r, false, w);
  }
}
