/**
 The automaton as a value: numbered cells, each with an operator and two successors.
 A cell that has been reserved but not written is `Unset`; whatever the real array
 holds there is unspecified.
 */
module Nfa {
  import opened Bytes

  datatype Op =
    | Eps
    | Any
    | InSet(index: nat, negated: bool)
    | Char(c: Byte)

  datatype Cell =
    | Unset
    | Cell(op: Op, next1: nat, next2: nat)

  datatype Nfa = Nfa(cells: seq<Cell>, sets: seq<seq<Byte>>)

  /** End of pattern: as a successor, 0 means acceptance and is never expanded. */
  const EOP: nat := 0

  /** The operator consumes the character `c`. */
  predicate Fits(sets: seq<seq<Byte>>, op: Op, c: Byte) {
    match op
    case Eps => false
    case Any => true
    case InSet(index, negated) => index < |sets| && (c in sets[index]) != negated
    case Char(x) => c == x
  }

  /** Some path of at most `n` edges leads from state `s` to `goal` and spells exactly `w`. */
  ghost predicate Reach(a: Nfa, goal: nat, s: nat, w: seq<Byte>, n: nat)
    decreases n
  {
    if s == goal then w == []
    else
      && n > 0 && s != EOP && s < |a.cells| && a.cells[s].Cell?
      && var cell := a.cells[s];
      if cell.op.Eps? then
        Reach(a, goal, cell.next1, w, n - 1) || Reach(a, goal, cell.next2, w, n - 1)
      else
        w != [] && Fits(a.sets, cell.op, w[0]) && Reach(a, goal, cell.next1, w[1..], n - 1)
  }

  /** An epsilon state with one target only passes on. */
  lemma {:induction false} PassOn(a: Nfa, goal: nat, s: nat, e: nat, w: seq<Byte>, n: nat)
    requires s < |a.cells| && a.cells[s] == Cell(Eps, e, e) && s != goal && s != EOP
    ensures Reach(a, goal, s, w, n) <==> n > 0 && Reach(a, goal, e, w, n - 1)
  {}

  /** The language of the automaton between two states. */
  ghost predicate Spells(a: Nfa, s: nat, goal: nat, w: seq<Byte>) {
    exists n: nat :: Reach(a, goal, s, w, n)
  }
}
