/**
 What the queue-driven simulator explores: runs through the automaton that read the
 subject from a position on, and how these runs relate to the language between the
 start state and the accept gate.
 */
module Simulation {
  import opened Bytes
  import opened Nfa
  import opened Closed
  import opened Settle

  /**
   Whether an operator lets the run advance past position `j` of a subject of length `len`.
   Literals see a virtual NUL at the end; sets and '?' do not check the end at all.
   */
  predicate Takes(sets: seq<seq<Byte>>, op: Op, a: seq<Byte>, len: nat, j: nat)
    requires len <= |a|
  {
    match op
    case Eps => false
    case Any => true
    case InSet(_, _) => j < |a| && Fits(sets, op, a[j])
    case Char(c) => if j < len then a[j] == c else j == len && c == NUL
  }

  /** At most `n` transitions lead from state `s` at position `j` to the end of the pattern at position `k`. */
  ghost predicate Run(m: Nfa, a: seq<Byte>, len: nat, s: nat, j: nat, k: nat, n: nat)
    requires len <= |a|
    decreases n
  {
    if s == EOP then j == k
    else
      && n > 0 && s < |m.cells| && m.cells[s].Cell?
      && var cell := m.cells[s];
      if cell.op.Eps? then
        Run(m, a, len, cell.next1, j, k, n - 1) || Run(m, a, len, cell.next2, j, k, n - 1)
      else
        j < k && Takes(m.sets, cell.op, a, len, j) && Run(m, a, len, cell.next1, j + 1, k, n - 1)
  }

  /** Some run from `s` at `j` ends the pattern exactly at position `k`. */
  ghost predicate Accepts(m: Nfa, a: seq<Byte>, len: nat, s: nat, j: nat, k: nat)
    requires len <= |a|
  {
    exists n: nat :: Run(m, a, len, s, j, k, n)
  }

  // ---------- One step of the simulator ----------

  lemma {:induction false} RunLonger(m: Nfa, a: seq<Byte>, len: nat, s: nat, j: nat, k: nat, n: nat, n': nat)
    requires len <= |a| && Run(m, a, len, s, j, k, n) && n <= n'
    ensures Run(m, a, len, s, j, k, n') && j <= k
    decreases n
  {
    if s != EOP {
      var cell := m.cells[s];
      if cell.op.Eps? {
        if Run(m, a, len, cell.next1, j, k, n - 1) {
          RunLonger(m, a, len, cell.next1, j, k, n - 1, n' - 1);
        } else {
          RunLonger(m, a, len, cell.next2, j, k, n - 1, n' - 1);
        }
      } else {
        RunLonger(m, a, len, cell.next1, j + 1, k, n - 1, n' - 1);
      }
    }
  }

  lemma {:induction false} AcceptsForward(m: Nfa, a: seq<Byte>, len: nat, s: nat, j: nat, k: nat)
    requires len <= |a|
    ensures Accepts(m, a, len, s, j, k) ==> j <= k
    ensures s == EOP ==> (Accepts(m, a, len, s, j, k) <==> j == k)
  {
    if Accepts(m, a, len, s, j, k) {
      var n: nat :| Run(m, a, len, s, j, k, n);
      RunLonger(m, a, len, s, j, k, n, n);
    }
    if s == EOP && j == k {
      assert Run(m, a, len, s, j, k, 0);
    }
  }

  /** Expanding an epsilon state loses and adds no acceptance. */
  lemma {:induction false} EpsStep(m: Nfa, a: seq<Byte>, len: nat, s: nat, j: nat, k: nat)
    requires len <= |a| && s != EOP && s < |m.cells| && m.cells[s].Cell? && m.cells[s].op.Eps?
    ensures Accepts(m, a, len, s, j, k) <==>
            Accepts(m, a, len, m.cells[s].next1, j, k) || Accepts(m, a, len, m.cells[s].next2, j, k)
  {
    var cell := m.cells[s];
    if Accepts(m, a, len, s, j, k) {
      var n: nat :| Run(m, a, len, s, j, k, n);
      assert Run(m, a, len, cell.next1, j, k, n - 1) || Run(m, a, len, cell.next2, j, k, n - 1);
    }
    if Accepts(m, a, len, cell.next1, j, k) {
      var n: nat :| Run(m, a, len, cell.next1, j, k, n);
      assert Run(m, a, len, s, j, k, n + 1);
    }
    if Accepts(m, a, len, cell.next2, j, k) {
      var n: nat :| Run(m, a, len, cell.next2, j, k, n);
      assert Run(m, a, len, s, j, k, n + 1);
    }
  }

  /** Consuming a character moves acceptance to the next level. */
  lemma {:induction false} TakeStep(m: Nfa, a: seq<Byte>, len: nat, s: nat, j: nat, k: nat)
    requires len <= |a| && s != EOP && s < |m.cells| && m.cells[s].Cell? && !m.cells[s].op.Eps?
    ensures Accepts(m, a, len, s, j, k) <==>
            Takes(m.sets, m.cells[s].op, a, len, j) && Accepts(m, a, len, m.cells[s].next1, j + 1, k)
  {
    var cell := m.cells[s];
    if Accepts(m, a, len, s, j, k) {
      var n: nat :| Run(m, a, len, s, j, k, n);
      assert Run(m, a, len, cell.next1, j + 1, k, n - 1);
    }
    if Takes(m.sets, cell.op, a, len, j) && Accepts(m, a, len, cell.next1, j + 1, k) {
      var n: nat :| Run(m, a, len, cell.next1, j + 1, k, n);
      AcceptsForward(m, a, len, cell.next1, j + 1, k);
      assert Run(m, a, len, s, j, k, n + 1);
    }
  }

  // ---------- Runs and the language between start state and accept gate ----------

  /** Position `p` is where the subject ends as the accept gate sees it: at its length or at a NUL. */
  predicate EndsAt(a: seq<Byte>, len: nat, p: nat)
    requires len <= |a|
  {
    p == len || (p < len && a[p] == NUL)
  }

  /** The subject position a run must have reached to finish at level `k`. */
  ghost predicate Finishes(m: Nfa, final: nat, minimal: bool, a: seq<Byte>, len: nat, s: nat, j: nat, k: nat)
    requires len <= |a|
  {
    var p := if minimal then k else k - 1;
    j <= p <= len && (minimal || EndsAt(a, len, p)) && Spells(m, s, final, a[j..p])
  }

  lemma {:induction false} RunSpells(m: Nfa, final: nat, minimal: bool, a: seq<Byte>, len: nat, s: nat, j: nat, k: nat, n: nat)
    requires Gated(m, final, minimal) && len <= |a| && 1 <= s <= final
    requires k <= (if minimal then len else len + 1)
    requires Run(m, a, len, s, j, k, n)
    ensures Finishes(m, final, minimal, a, len, s, j, k)
    decreases n
  {
    var cell := m.cells[s];
    if s == final {
      assert Reach(m, final, final, [], 0);
      if minimal {
        assert a[j..k] == [];
      } else {
        assert Run(m, a, len, final + 1, j + 1, k, n - 1);
        assert Run(m, a, len, EOP, j + 1, k, n - 2);
        assert a[j..k - 1] == [];
      }
    } else if cell.op.Eps? {
      var t := if Run(m, a, len, cell.next1, j, k, n - 1) then cell.next1 else cell.next2;
      RunSpells(m, final, minimal, a, len, t, j, k, n - 1);
      var p := if minimal then k else k - 1;
      var i: nat :| Reach(m, final, t, a[j..p], i);
      assert Reach(m, final, s, a[j..p], i + 1);
    } else {
      RunSpells(m, final, minimal, a, len, cell.next1, j + 1, k, n - 1);
      var p := if minimal then k else k - 1;
      var i: nat :| Reach(m, final, cell.next1, a[j + 1..p], i);
      assert a[j..p][1..] == a[j + 1..p] && a[j..p][0] == a[j];
      assert Reach(m, final, s, a[j..p], i + 1);
    }
  }

  lemma {:induction false} SpellsRun(m: Nfa, final: nat, minimal: bool, a: seq<Byte>, len: nat, s: nat, j: nat, k: nat, n: nat)
    requires Gated(m, final, minimal) && len <= |a| && 1 <= s <= final
    requires minimal || k > 0
    requires var p := if minimal then k else k - 1;
             j <= p <= len && (minimal || EndsAt(a, len, p)) && Reach(m, final, s, a[j..p], n)
    ensures Run(m, a, len, s, j, k, n + 2)
    decreases n
  {
    var cell := m.cells[s];
    var p := if minimal then k else k - 1;
    if s == final {
      if minimal {
        assert Run(m, a, len, EOP, j, k, 1);
      } else {
        assert Run(m, a, len, EOP, k, k, 0);
        assert Run(m, a, len, final + 1, k, k, 1);
      }
    } else if cell.op.Eps? {
      var t := if Reach(m, final, cell.next1, a[j..p], n - 1) then cell.next1 else cell.next2;
      SpellsRun(m, final, minimal, a, len, t, j, k, n - 1);
    } else {
      assert a[j..p][1..] == a[j + 1..p] && a[j..p][0] == a[j];
      SpellsRun(m, final, minimal, a, len, cell.next1, j + 1, k, n - 1);
    }
  }

  /** A run finishes at level `k` exactly when the characters read so far are spelled by a path to the gate. */
  lemma {:induction false} AcceptsIsSpelling(m: Nfa, final: nat, minimal: bool, a: seq<Byte>, len: nat, s: nat, j: nat, k: nat)
    requires Gated(m, final, minimal) && len <= |a| && 1 <= s <= final
    requires k <= (if minimal then len else len + 1)
    ensures Accepts(m, a, len, s, j, k) <==> Finishes(m, final, minimal, a, len, s, j, k)
  {
    if Accepts(m, a, len, s, j, k) {
      var n: nat :| Run(m, a, len, s, j, k, n);
      RunSpells(m, final, minimal, a, len, s, j, k, n);
    }
    if Finishes(m, final, minimal, a, len, s, j, k) {
      var p := if minimal then k else k - 1;
      var n: nat :| Reach(m, final, s, a[j..p], n);
      SpellsRun(m, final, minimal, a, len, s, j, k, n);
    }
  }

  // ---------- Termination measure ----------

  /** Number of queue entries the epsilon expansion of `s` will ever produce at one level. */
  ghost function Weight(m: Nfa, s: nat, d: nat): (w: nat)
    requires Settles(m, s, d)
    ensures w > 0
    decreases d
  {
    if s == EOP || s >= |m.cells| || m.cells[s].Unset? || !m.cells[s].op.Eps? then 1
    else 1 + Weight(m, m.cells[s].next1, d - 1) + Weight(m, m.cells[s].next2, d - 1)
  }

  /** The weight does not depend on the bound used to compute it. */
  lemma {:induction false} WeightStable(m: Nfa, s: nat, d: nat, e: nat)
    requires Settles(m, s, d) && d <= e
    ensures Settles(m, s, e) && Weight(m, s, d) == Weight(m, s, e)
    decreases d
  {
    if d > 0 && s != EOP && s < |m.cells| && m.cells[s].Cell? && m.cells[s].op.Eps? {
      WeightStable(m, m.cells[s].next1, d - 1, e - 1);
      WeightStable(m, m.cells[s].next2, d - 1, e - 1);
    }
  }

  ghost predicate AllSettle(m: Nfa, q: seq<int>, d: nat) {
    forall i | 0 <= i < |q| :: q[i] >= 0 && Settles(m, q[i], d)
  }

  ghost function TotalWeight(m: Nfa, q: seq<int>, d: nat): nat
    requires AllSettle(m, q, d)
  {
    if q == [] then 0 else Weight(m, q[0], d) + TotalWeight(m, q[1..], d)
  }

  /** Replacing an epsilon state by its targets makes the work ahead strictly lighter. */
  lemma {:induction false} EpsLightens(m: Nfa, s: nat, q: seq<int>, d: nat)
    requires s != EOP && s < |m.cells| && m.cells[s].Cell? && m.cells[s].op.Eps?
    requires Settles(m, s, d) && AllSettle(m, q, d)
    ensures var n1, n2 := m.cells[s].next1, m.cells[s].next2;
            && AllSettle(m, [n2] + ([n1] + q), d) && AllSettle(m, [n1] + q, d)
            && TotalWeight(m, [n2] + ([n1] + q), d) < Weight(m, s, d) + TotalWeight(m, q, d)
            && TotalWeight(m, [n1] + q, d) < Weight(m, s, d) + TotalWeight(m, q, d)
  {
    var n1, n2 := m.cells[s].next1, m.cells[s].next2;
    WeightStable(m, n1, d - 1, d);
    WeightStable(m, n2, d - 1, d);
    assert ([n2] + ([n1] + q))[1..] == [n1] + q && ([n1] + q)[1..] == q;
    forall i | 0 <= i < |[n1] + q| ensures ([n1] + q)[i] >= 0 && Settles(m, ([n1] + q)[i], d) {}
  }

  // ---------- What is still to be explored ----------

  /** Some state in `q`, visited at position `j`, leads to acceptance at level `k`. */
  ghost predicate Some(m: Nfa, a: seq<Byte>, len: nat, q: seq<int>, j: nat, k: nat)
    requires len <= |a|
  {
    exists i | 0 <= i < |q| :: q[i] >= 0 && Accepts(m, a, len, q[i], j, k)
  }

  lemma {:induction false} SomeJoin(m: Nfa, a: seq<Byte>, len: nat, p: seq<int>, q: seq<int>, j: nat, k: nat)
    requires len <= |a|
    ensures Some(m, a, len, p + q, j, k) <==> Some(m, a, len, p, j, k) || Some(m, a, len, q, j, k)
  {
    if Some(m, a, len, p, j, k) {
      var i :| 0 <= i < |p| && p[i] >= 0 && Accepts(m, a, len, p[i], j, k);
      assert (p + q)[i] == p[i];
    }
    if Some(m, a, len, q, j, k) {
      var i :| 0 <= i < |q| && q[i] >= 0 && Accepts(m, a, len, q[i], j, k);
      assert (p + q)[|p| + i] == q[i];
    }
  }

  lemma {:induction false} SomeOne(m: Nfa, a: seq<Byte>, len: nat, s: nat, j: nat, k: nat)
    requires len <= |a|
    ensures Some(m, a, len, [s], j, k) <==> Accepts(m, a, len, s, j, k)
  {
    if Accepts(m, a, len, s, j, k) {
      assert [s][0] == s;
    }
  }

  lemma {:induction false} SomeForward(m: Nfa, a: seq<Byte>, len: nat, q: seq<int>, j: nat, k: nat)
    requires len <= |a| && k < j
    ensures !Some(m, a, len, q, j, k)
  {
    forall i | 0 <= i < |q| && q[i] >= 0 ensures !Accepts(m, a, len, q[i], j, k) {
      AcceptsForward(m, a, len, q[i], j, k);
    }
  }

  /** Acceptance at level `k` still possible from `cur` at position `j` and `nxt` at position `j + 1`. */
  ghost predicate Waiting(m: Nfa, a: seq<Byte>, len: nat, cur: seq<int>, nxt: seq<int>, j: nat, k: nat)
    requires len <= |a|
  {
    Some(m, a, len, cur, j, k) || Some(m, a, len, nxt, j + 1, k)
  }

  /** The same, with `state` taken out of the queue; a negative `state` is the level marker. */
  ghost predicate Pending(m: Nfa, a: seq<Byte>, len: nat, state: int, cur: seq<int>, nxt: seq<int>, j: nat, k: nat)
    requires len <= |a|
  {
    (state >= 0 && Accepts(m, a, len, state, j, k)) || Waiting(m, a, len, cur, nxt, j, k)
  }

  lemma {:induction false} PopKeeps(m: Nfa, a: seq<Byte>, len: nat, cur: seq<int>, nxt: seq<int>, j: nat, k: nat)
    requires len <= |a| && cur != [] && cur[0] >= 0
    ensures Waiting(m, a, len, cur, nxt, j, k) <==> Pending(m, a, len, cur[0], cur[1..], nxt, j, k)
  {
    assert cur == [cur[0]] + cur[1..];
    SomeJoin(m, a, len, [cur[0]], cur[1..], j, k);
    SomeOne(m, a, len, cur[0], j, k);
  }

  lemma {:induction false} EpsKeeps(m: Nfa, a: seq<Byte>, len: nat, s: nat, cur: seq<int>, nxt: seq<int>, j: nat, k: nat)
    requires len <= |a| && s != EOP && s < |m.cells| && m.cells[s].Cell? && m.cells[s].op.Eps?
    ensures var n1, n2 := m.cells[s].next1, m.cells[s].next2;
            var cur' := if n1 != n2 then [n2] + ([n1] + cur) else [n1] + cur;
            Pending(m, a, len, s, cur, nxt, j, k) <==> Waiting(m, a, len, cur', nxt, j, k)
  {
    var n1, n2 := m.cells[s].next1, m.cells[s].next2;
    EpsStep(m, a, len, s, j, k);
    SomeJoin(m, a, len, [n1], cur, j, k);
    SomeJoin(m, a, len, [n2], [n1] + cur, j, k);
    SomeOne(m, a, len, n1, j, k);
    SomeOne(m, a, len, n2, j, k);
  }

  lemma {:induction false} TakeKeeps(m: Nfa, a: seq<Byte>, len: nat, s: nat, cur: seq<int>, nxt: seq<int>, j: nat, k: nat)
    requires len <= |a| && s != EOP && s < |m.cells| && m.cells[s].Cell? && !m.cells[s].op.Eps?
    ensures var nxt' := if Takes(m.sets, m.cells[s].op, a, len, j) then nxt + [m.cells[s].next1] else nxt;
            Pending(m, a, len, s, cur, nxt, j, k) <==> Waiting(m, a, len, cur, nxt', j, k)
  {
    TakeStep(m, a, len, s, j, k);
    SomeJoin(m, a, len, nxt, [m.cells[s].next1], j + 1, k);
    SomeOne(m, a, len, m.cells[s].next1, j + 1, k);
  }

  lemma {:induction false} TotalWeightPop(m: Nfa, cur: seq<int>, d: nat)
    requires cur != [] && AllSettle(m, cur, d)
    ensures AllSettle(m, cur[1..], d)
    ensures TotalWeight(m, cur, d) == Weight(m, cur[0], d) + TotalWeight(m, cur[1..], d)
  {}

  /** Every state but 0 can be expanded without leaving the automaton. */
  ghost predicate Explorable(m: Nfa) {
    && |m.cells| > 0 && m.cells[0].Cell? && m.cells[0].next1 < |m.cells|
    && forall i | 1 <= i < |m.cells| ::
         && m.cells[i].Cell? && m.cells[i].next1 < |m.cells| && m.cells[i].next2 < |m.cells|
         && (m.cells[i].op.InSet? ==> m.cells[i].op.index < |m.sets|)
  }

  lemma {:induction false} GatedIsExplorable(m: Nfa, final: nat, minimal: bool)
    requires Gated(m, final, minimal)
    ensures Explorable(m)
  {
    forall i | 1 <= i < |m.cells|
      ensures m.cells[i].Cell? && m.cells[i].next1 < |m.cells| && m.cells[i].next2 < |m.cells|
      ensures m.cells[i].op.InSet? ==> m.cells[i].op.index < |m.sets|
    {
      if i < final { assert Sound(m.cells[i], 1, final, |m.sets|); }
    }
  }

  /** The last position the matcher explores. */
  function Horizon(minimal: bool, len: nat): nat {
    if minimal then len else len + 1
  }

  /** `k` is the first level at which a run from `s` at position 0 ends the pattern. */
  ghost predicate FirstAccept(m: Nfa, a: seq<Byte>, len: nat, s: nat, k: nat)
    requires len <= |a|
  {
    Accepts(m, a, len, s, 0, k) && forall i | 0 <= i < k :: !Accepts(m, a, len, s, 0, i)
  }

  /** States waiting in the queue. */
  ghost predicate States(m: Nfa, q: seq<int>) {
    forall i | 0 <= i < |q| :: 0 <= q[i] < |m.cells|
  }

  lemma {:induction false} StatesSettle(m: Nfa, q: seq<int>, d: nat)
    requires States(m, q) && Settled(m, d)
    ensures AllSettle(m, q, d)
  {}

  /** What the matcher knows at its loop head: where it is and what is queued for this level and the next. */
  datatype Frontier = Frontier(j: nat, cur: seq<int>, nxt: seq<int>)

  ghost predicate Sane(m: Nfa, d: nat, f: Frontier) {
    States(m, f.cur) && States(m, f.nxt) && AllSettle(m, f.cur, d) && AllSettle(m, f.nxt, d)
  }

  /** Processing `state` with frontier `f` leads to frontier `g`. */
  ghost function Next(m: Nfa, a: seq<Byte>, len: nat, state: int, f: Frontier): Frontier
    requires len <= |a| && (state < 0 || (state < |m.cells| && m.cells[state].Cell?))
  {
    if state < 0 then Frontier(f.j + 1, f.nxt, [])
    else
      var cell := m.cells[state];
      if cell.op.Eps? then
        f.(cur := if cell.next1 != cell.next2 then [cell.next2] + ([cell.next1] + f.cur) else [cell.next1] + f.cur)
      else
        f.(nxt := if Takes(m.sets, cell.op, a, len, f.j) then f.nxt + [cell.next1] else f.nxt)
  }

  /** What processing a state does to the queue. */
  lemma {:induction false} NextQueue(m: Nfa, a: seq<Byte>, len: nat, state: int, f: Frontier, marker: int)
    requires len <= |a| && (state < 0 || (state < |m.cells| && m.cells[state].Cell?)) && (state < 0 ==> f.cur == [])
    ensures var g, queue := Next(m, a, len, state, f), f.cur + [marker] + f.nxt;
            && g.j == (if state < 0 then f.j + 1 else f.j)
            && g.cur + [marker] + g.nxt ==
               if state < 0 then f.nxt + [marker]
               else
                 var cell := m.cells[state];
                 if cell.op.Eps? then
                   if cell.next1 != cell.next2 then [cell.next2 as int] + ([cell.next1 as int] + queue) else [cell.next1 as int] + queue
                 else if Takes(m.sets, cell.op, a, len, f.j) then queue + [cell.next1 as int] else queue
  {
    hide Takes;
    if state < 0 {
      assert f.nxt + [marker] + [] == f.nxt + [marker];
    }
  }

  /** One step of the matcher keeps the set of levels at which acceptance is possible. */
  lemma {:induction false} NextKeeps(m: Nfa, a: seq<Byte>, len: nat, state: int, f: Frontier, k: nat)
    requires len <= |a| && state != EOP && (state < 0 || (state < |m.cells| && m.cells[state].Cell?))
    requires state < 0 ==> f.cur == []
    ensures var g := Next(m, a, len, state, f);
            Pending(m, a, len, state, f.cur, f.nxt, f.j, k) <==> Waiting(m, a, len, g.cur, g.nxt, g.j, k)
  {
    if state >= 0 {
      if m.cells[state].op.Eps? {
        EpsKeeps(m, a, len, state, f.cur, f.nxt, f.j, k);
      } else {
        TakeKeeps(m, a, len, state, f.cur, f.nxt, f.j, k);
      }
    }
  }

  lemma {:induction false} NextKeepsAll(m: Nfa, a: seq<Byte>, len: nat, state: int, f: Frontier)
    requires len <= |a| && state != EOP && (state < 0 || (state < |m.cells| && m.cells[state].Cell?))
    requires state < 0 ==> f.cur == []
    ensures var g := Next(m, a, len, state, f);
            forall k: nat :: Pending(m, a, len, state, f.cur, f.nxt, f.j, k) <==> Waiting(m, a, len, g.cur, g.nxt, g.j, k)
  {
    forall k: nat {
      NextKeeps(m, a, len, state, f, k);
    }
  }

  /** One step keeps the frontier sane and, within a level, makes it lighter. */
  lemma {:induction false} NextSane(m: Nfa, a: seq<Byte>, len: nat, state: int, f: Frontier, d: nat)
    requires len <= |a| && Explorable(m) && Settled(m, d) && Sane(m, d, f)
    requires state != EOP && (state < 0 || state < |m.cells|)
    ensures var g := Next(m, a, len, state, f);
            && Sane(m, d, g)
            && (state >= 0 ==> TotalWeight(m, g.cur, d) < Weight(m, state, d) + TotalWeight(m, f.cur, d))
  {
    var g := Next(m, a, len, state, f);
    assert States(m, g.cur) && States(m, g.nxt);
    StatesSettle(m, g.cur, d);
    StatesSettle(m, g.nxt, d);
    if state >= 0 && m.cells[state].op.Eps? {
      EpsLightens(m, state, f.cur, d);
    }
  }

  /** Taking the front state out of the current level keeps levels and weights. */
  lemma {:induction false} PopFront(m: Nfa, a: seq<Byte>, len: nat, f: Frontier, d: nat)
    requires len <= |a| && Sane(m, d, f) && f.cur != []
    ensures Sane(m, d, f.(cur := f.cur[1..])) && 0 <= f.cur[0] < |m.cells|
    ensures forall k: nat :: Waiting(m, a, len, f.cur, f.nxt, f.j, k) <==>
                             Pending(m, a, len, f.cur[0], f.cur[1..], f.nxt, f.j, k)
    ensures TotalWeight(m, f.cur, d) == Weight(m, f.cur[0], d) + TotalWeight(m, f.cur[1..], d)
  {
    forall k: nat {
      PopKeeps(m, a, len, f.cur, f.nxt, f.j, k);
    }
    TotalWeightPop(m, f.cur, d);
  }

  /** A frontier beyond the horizon, or empty, has nothing more to offer. */
  lemma {:induction false} NothingLeft(m: Nfa, a: seq<Byte>, len: nat, f: Frontier, horizon: nat)
    requires len <= |a|
    requires f.cur == [] || f.j > horizon
    requires f.nxt == [] || f.j + 1 > horizon
    ensures forall k | 0 <= k <= horizon :: !Waiting(m, a, len, f.cur, f.nxt, f.j, k)
  {
    forall k | 0 <= k <= horizon ensures !Waiting(m, a, len, f.cur, f.nxt, f.j, k) {
      if f.cur != [] { SomeForward(m, a, len, f.cur, f.j, k); }
      if f.nxt != [] { SomeForward(m, a, len, f.nxt, f.j + 1, k); }
    }
  }

  /** When the end of the pattern is popped, the current position is the first accepting level. */
  lemma {:induction false} EndOfPattern(m: Nfa, a: seq<Byte>, len: nat, start: nat, f: Frontier, horizon: nat)
    requires len <= |a| && f.j <= horizon
    requires forall k | 0 <= k <= horizon ::
               Accepts(m, a, len, start, 0, k) <==> Pending(m, a, len, EOP, f.cur, f.nxt, f.j, k)
    ensures FirstAccept(m, a, len, start, f.j)
  {
    AcceptsForward(m, a, len, EOP, f.j, f.j);
    assert Accepts(m, a, len, start, 0, f.j);
    forall i | 0 <= i < f.j ensures !Accepts(m, a, len, start, 0, i) {
      AcceptsForward(m, a, len, EOP, f.j, i);
      SomeForward(m, a, len, f.cur, f.j, i);
      SomeForward(m, a, len, f.nxt, f.j + 1, i);
    }
  }

  /** The first queue element is the front of the current level, or the marker when that level is done. */
  lemma {:induction false} FrontOfQueue(f: Frontier, marker: int, state: int, rest: seq<int>)
    requires [state] + rest == f.cur + [marker] + f.nxt
    ensures if f.cur == [] then state == marker && rest == f.nxt
            else state == f.cur[0] && rest == f.cur[1..] + [marker] + f.nxt
  {
    var q := [state] + rest;
    assert q[0] == state && q[1..] == rest;
    if f.cur == [] {
      assert q == [marker] + f.nxt;
    } else {
      assert q == [f.cur[0]] + (f.cur[1..] + [marker] + f.nxt);
    }
  }

  /** Exploring ends when only the level marker is left, or beyond the horizon. */
  lemma {:induction false} Exhausted(m: Nfa, a: seq<Byte>, len: nat, f: Frontier, horizon: nat, marker: int)
    requires len <= |a|
    requires f.cur + [marker] + f.nxt == [marker] || f.j > horizon
    ensures forall k | 0 <= k <= horizon :: !Waiting(m, a, len, f.cur, f.nxt, f.j, k)
  {
    assert |f.cur + [marker] + f.nxt| == |f.cur| + 1 + |f.nxt|;
    NothingLeft(m, a, len, f, horizon);
  }
}
