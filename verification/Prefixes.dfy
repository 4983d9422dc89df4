/** What can be read from the start of a compiled pattern is what its words begin with. */
module Prefixes {
  import opened Bytes
  import opened Patterns
  import opened Nfa
  import opened Layout
  import opened Compiler
  import opened Closed
  import opened Language
  import opened Correctness
  import opened Reading

  /** Every set of the pattern takes some character. */
  ghost predicate Satisfiable(r: Regex) {
    match r
    case Lit(_) => true
    case AnyOne => true
    case Set(negated, members) => exists c: Byte :: (c in members) != negated
    case Group(body) => Satisfiable(body)
    case Star(base) => Satisfiable(base)
    case Plus(base) => Satisfiable(base)
    case Times(base, _) => Satisfiable(base)
    case Cat(first, rest) => Satisfiable(first) && Satisfiable(rest)
    case Alt(left, right) => Satisfiable(left) && Satisfiable(right)
  }

  /** Some word of the pattern begins with `w`. */
  ghost predicate Begins(r: Regex, w: seq<Byte>) {
    exists v :: In(r, w + v)
  }

  // ---------- From every state the exit can be reached ----------

  /** From state `s` some word leads to `goal`. */
  ghost predicate Leads(a: Nfa, goal: nat, s: nat) {
    exists v :: Spells(a, s, goal, v)
  }

  lemma {:induction false} EpsLeads(a: Nfa, goal: nat, s: nat)
    requires 0 < s < |a.cells| && a.cells[s].Cell? && a.cells[s].op.Eps? && s != goal
    requires Leads(a, goal, a.cells[s].next1) || Leads(a, goal, a.cells[s].next2)
    ensures Leads(a, goal, s)
  {
    hide Reach;
    var t := if Leads(a, goal, a.cells[s].next1) then a.cells[s].next1 else a.cells[s].next2;
    var v :| Spells(a, t, goal, v);
    var n: nat :| Reach(a, goal, t, v, n);
    LoopBranches(a, goal, s, v, n + 1);
    assert Spells(a, s, goal, v);
  }

  lemma {:induction false} CharLeads(a: Nfa, goal: nat, s: nat, c: Byte)
    requires 0 < s < |a.cells| && a.cells[s].Cell? && !a.cells[s].op.Eps? && s != goal
    requires Fits(a.sets, a.cells[s].op, c) && Leads(a, goal, a.cells[s].next1)
    ensures Leads(a, goal, s)
  {
    var v :| Spells(a, a.cells[s].next1, goal, v);
    var n: nat :| Reach(a, goal, a.cells[s].next1, v, n);
    var w := [c] + v;
    assert w[1..] == v;
    assert Reach(a, goal, s, w, n + 1);
    assert Spells(a, s, goal, w);
  }

  /** Every state of a laid-out block leads on to what its exit leads to. */
  lemma {:induction false} BlockLeads(a: Nfa, r: Regex, lo: nat, x: nat, goal: nat, i: nat)
    requires WellShaped(r) && Satisfiable(r) && Laid(a, r, lo, x)
    requires 0 < lo <= i < lo + Size(r) <= goal && Leads(a, goal, x)
    ensures Leads(a, goal, i)
    decreases r, 0
  {
    hide Laid, LaidTimes, Leads;
    match r
    case Lit(_) => AtomLeads(a, r, lo, x, goal);
    case AnyOne => AtomLeads(a, r, lo, x, goal);
    case Set(_, _) => AtomLeads(a, r, lo, x, goal);
    case Group(body) =>
      GroupLaid(a, body, lo, x);
      BlockLeads(a, body, lo, x, goal, i);
    case Star(_) => LoopLeads(a, r, lo, x, goal, i);
    case Plus(_) => LoopLeads(a, r, lo, x, goal, i);
    case Times(base, count) =>
      CopiesLaid(a, base, count, lo, x);
      TimesLeads(a, base, count, lo, x, goal, i);
    case Cat(first, rest) => CatLeads(a, first, rest, lo, x, goal, i);
    case Alt(left, right) => AltLeads(a, left, right, lo, x, goal, i);
  }

  lemma {:induction false} AtomLeads(a: Nfa, r: Regex, lo: nat, x: nat, goal: nat)
    requires IsAtom(r) && Satisfiable(r) && Laid(a, r, lo, x) && 0 < lo < goal && Leads(a, goal, x)
    ensures Leads(a, goal, lo) && Size(r) == 1
  {
    hide LaidTimes, Leads;
    var c: Byte := match r case Lit(c) => c case _ => 0;
    if r.Set? {
      var k :| 0 <= k < |a.sets| && a.sets[k] == r.members && HasCell(a, lo, InSet(k, r.negated), x);
      c :| (c in r.members) != r.negated;
    }
    CharLeads(a, goal, lo, c);
  }

  lemma {:induction false} LoopLeads(a: Nfa, r: Regex, lo: nat, x: nat, goal: nat, i: nat)
    requires r.Star? || r.Plus?
    requires WellShaped(r) && Satisfiable(r) && Laid(a, r, lo, x)
    requires 0 < lo <= i < lo + Size(r) <= goal && Leads(a, goal, x)
    ensures Leads(a, goal, i)
    decreases r, 0, 0
  {
    hide Laid, Leads;
    LoopLaid(a, r, lo, x);
    var s := lo + Size(r.base);
    EpsLeads(a, goal, s);
    if i < s {
      BlockLeads(a, r.base, lo, s, goal, i);
    }
  }

  lemma {:induction false} TimesLeads(a: Nfa, r: Regex, count: nat, lo: nat, x: nat, goal: nat, i: nat)
    requires WellShaped(r) && Satisfiable(r) && LaidTimes(a, r, count, lo, x)
    requires 0 < lo <= i < lo + SizeTimes(r, count) <= goal && Leads(a, goal, x)
    ensures Leads(a, goal, i)
    decreases r, 1, count
  {
    hide Laid, LaidTimes, Leads;
    TimesLaid(a, r, count, lo, x);
    if count <= 1 {
      BlockLeads(a, r, lo, x, goal, i);
    } else {
      var m := lo + Size(r);
      var m' := m + Bridge(r);
      if i >= m' {
        TimesLeads(a, r, count - 1, m', x, goal, i);
      } else {
        EntryInTimes(r, count - 1);
        TimesLeads(a, r, count - 1, m', x, goal, m' + Entry(r));
        if Bridge(r) != 0 {
          EpsLeads(a, goal, m);
        }
        if i < m {
          BlockLeads(a, r, lo, CopyExit(r, m), goal, i);
        }
      }
    }
  }

  lemma {:induction false} CatLeads(a: Nfa, first: Regex, rest: Regex, lo: nat, x: nat, goal: nat, i: nat)
    requires WellShaped(Cat(first, rest)) && Satisfiable(Cat(first, rest)) && Laid(a, Cat(first, rest), lo, x)
    requires 0 < lo <= i < lo + Size(Cat(first, rest)) <= goal && Leads(a, goal, x)
    ensures Leads(a, goal, i)
    decreases Cat(first, rest), 0, 0
  {
    hide Laid, Leads;
    CatLaid(a, first, rest, lo, x);
    var m := lo + Size(first);
    var m' := m + if StartsGroup(rest) then 1 else 0;
    if i >= m' {
      BlockLeads(a, rest, m', x, goal, i);
    } else {
      EntryInBlock(rest);
      BlockLeads(a, rest, m', x, goal, m' + Entry(rest));
      if StartsGroup(rest) {
        EpsLeads(a, goal, m);
      }
      if i < m {
        BlockLeads(a, first, lo, if StartsGroup(rest) then m else m + Entry(rest), goal, i);
      }
    }
  }

  lemma {:induction false} AltLeads(a: Nfa, left: Regex, right: Regex, lo: nat, x: nat, goal: nat, i: nat)
    requires WellShaped(Alt(left, right)) && Satisfiable(Alt(left, right)) && Laid(a, Alt(left, right), lo, x)
    requires 0 < lo <= i < lo + Size(Alt(left, right)) <= goal && Leads(a, goal, x)
    ensures Leads(a, goal, i)
    decreases Alt(left, right), 0, 0
  {
    hide Laid, Leads;
    AltLaid(a, left, right, lo, x);
    var m := lo + Size(left);
    EpsLeads(a, goal, m);
    if i >= m + 2 {
      BlockLeads(a, right, m + 2, x, goal, i);
    } else if i < m {
      BlockLeads(a, left, lo, m, goal, i);
    } else if i == m + 1 {
      EntryInBlock(left);
      BlockLeads(a, left, lo, m, goal, lo + Entry(left));
      EpsLeads(a, goal, m + 1);
    }
  }

  // ---------- Reading and beginning a word ----------

  /** What leads to the goal has been read on the way. */
  lemma {:induction false} ReachReads(a: Nfa, goal: nat, s: nat, w: seq<Byte>, v: seq<Byte>, n: nat)
    requires Reach(a, goal, s, w + v, n)
    ensures Walk(a, s, w, n)
    decreases n
  {
    if w != [] {
      var cell := a.cells[s];
      if cell.op.Eps? {
        if Reach(a, goal, cell.next1, w + v, n - 1) {
          ReachReads(a, goal, cell.next1, w, v, n - 1);
        } else {
          ReachReads(a, goal, cell.next2, w, v, n - 1);
        }
      } else {
        assert (w + v)[1..] == w[1..] + v;
        ReachReads(a, goal, cell.next1, w[1..], v, n - 1);
      }
    }
  }

  /** What has been read inside the pattern can be completed to reach the accept gate. */
  lemma {:induction false} ReadCompletes(m: Nfa, final: nat, minimal: bool, s: nat, w: seq<Byte>, n: nat) returns (v: seq<Byte>)
    requires Gated(m, final, minimal) && 1 <= s <= final && (minimal || NulFree(w)) && Walk(m, s, w, n)
    requires forall i | 1 <= i <= final :: Leads(m, final, i)
    ensures Spells(m, s, final, w + v)
    decreases n
  {
    hide Leads, Spells;
    if w == [] {
      v := LeadsBy(m, final, s);
      assert w + v == v;
    } else if s == final {
      GateReadsNothing(m, final, minimal, w, n);
      v := [];
    } else {
      var cell := m.cells[s];
      assert Sound(cell, 1, final, |m.sets|);
      if cell.op.Eps? {
        var t := if Walk(m, cell.next1, w, n - 1) then cell.next1 else cell.next2;
        v := ReadCompletes(m, final, minimal, t, w, n - 1);
        EpsSpells(m, final, s, t, w + v);
      } else {
        v := ReadCompletes(m, final, minimal, cell.next1, w[1..], n - 1);
        CharSpells(m, final, s, w[0], w[1..] + v);
        assert [w[0]] + (w[1..] + v) == w + v;
      }
    }
  }

  lemma {:induction false} LeadsBy(m: Nfa, goal: nat, s: nat) returns (v: seq<Byte>)
    requires Leads(m, goal, s)
    ensures Spells(m, s, goal, v)
  {
    v :| Spells(m, s, goal, v);
  }

  lemma {:induction false} EpsSpells(m: Nfa, goal: nat, s: nat, t: nat, w: seq<Byte>)
    requires 0 < s < |m.cells| && m.cells[s].Cell? && m.cells[s].op.Eps? && s != goal
    requires (t == m.cells[s].next1 || t == m.cells[s].next2) && Spells(m, t, goal, w)
    ensures Spells(m, s, goal, w)
  {
    var n: nat :| Reach(m, goal, t, w, n);
    assert Reach(m, goal, s, w, n + 1);
  }

  lemma {:induction false} CharSpells(m: Nfa, goal: nat, s: nat, c: Byte, w: seq<Byte>)
    requires 0 < s < |m.cells| && m.cells[s].Cell? && !m.cells[s].op.Eps? && s != goal
    requires Fits(m.sets, m.cells[s].op, c) && Spells(m, m.cells[s].next1, goal, w)
    ensures Spells(m, s, goal, [c] + w)
  {
    var n: nat :| Reach(m, goal, m.cells[s].next1, w, n);
    assert ([c] + w)[1..] == w;
    assert Reach(m, goal, s, [c] + w, n + 1);
  }

  /** Behind the accept gate nothing but a NUL can be read. */
  lemma {:induction false} GateReadsNothing(m: Nfa, final: nat, minimal: bool, w: seq<Byte>, n: nat)
    requires Gated(m, final, minimal) && w != [] && (minimal || NulFree(w))
    ensures !Walk(m, final, w, n)
  {
    if n > 0 {
      EndReadsNothing(m, w);
    }
  }

  /** A safe pattern whose sets are not empty can read exactly what its words begin with. */
  lemma {:induction false} ReadsWhatWordsBeginWith(r: Regex, minimal: bool, w: seq<Byte>)
    requires WellShaped(r) && Safe(r) && Satisfiable(r) && (minimal || NulFree(w))
    ensures Reads(Program(r, minimal), Start(r), w) <==> Begins(r, w)
  {
    hide Laid, In, Safe, WellShaped, Reach;
    var m, final := Program(r, minimal), Final(r);
    ProgramGated(r, minimal);
    ProgramLaid(r, minimal);
    EntryInBlock(r);
    if Reads(m, Start(r), w) {
      var n: nat :| Walk(m, Start(r), w, n);
      AllLead(r, minimal);
      var v := ReadCompletes(m, final, minimal, Start(r), w, n);
      CompilationPreservesMeaning(r, minimal, w + v);
      assert Begins(r, w);
    }
    if Begins(r, w) {
      var v :| In(r, w + v);
      CompilationPreservesMeaning(r, minimal, w + v);
      var n: nat :| Reach(m, final, Start(r), w + v, n);
      ReachReads(m, final, Start(r), w, v, n);
    }
  }

  lemma {:induction false} AllLead(r: Regex, minimal: bool)
    requires WellShaped(r) && Safe(r) && Satisfiable(r)
    ensures forall i | 1 <= i <= Final(r) :: Leads(Program(r, minimal), Final(r), i)
  {
    hide Laid, Safe, WellShaped, Satisfiable;
    var m, final := Program(r, minimal), Final(r);
    ProgramLaid(r, minimal);
    assert Reach(m, final, final, [], 0) && Spells(m, final, final, []);
    assert Leads(m, final, final);
    forall i | 1 <= i < final ensures Leads(m, final, i) {
      BlockLeads(m, r, 1, final, final, i);
    }
  }

  /** `p` is the length of the longest prefix of the first `n` characters that begins a word of the pattern. */
  ghost predicate LongestBeginning(r: Regex, a: seq<Byte>, n: nat, p: nat)
    requires n <= |a|
  {
    p <= n && Begins(r, a[..p]) && forall k | p < k <= n :: !Begins(r, a[..k])
  }

  /** The position of a failing match, in terms of the pattern. */
  lemma {:induction false} FurthestIsLongestBeginning(r: Regex, minimal: bool, a: seq<Byte>, n: nat, p: nat)
    requires WellShaped(r) && Safe(r) && Satisfiable(r) && n <= |a| && (minimal || NulFree(a[..n]))
    requires Furthest(Program(r, minimal), a, n, Start(r), p)
    ensures LongestBeginning(r, a, n, p)
  {
    hide Begins, Reads, Program, Safe, WellShaped, Satisfiable;
    forall k | 0 <= k <= n ensures Reads(Program(r, minimal), Start(r), a[..k]) <==> Begins(r, a[..k]) {
      assert NulFree(a[..n]) ==> NulFree(a[..k]) by {
        assert forall i | 0 <= i < k :: a[..k][i] == a[..n][i];
      }
      ReadsWhatWordsBeginWith(r, minimal, a[..k]);
    }
  }
}
