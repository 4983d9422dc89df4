/**
 How far the matcher gets. A match that fails leaves behind the length of the longest
 prefix of the subject that some path from the start state can read.
 */
module Reading {
  import opened Bytes
  import opened Nfa
  import opened Settle
  import opened Simulation

  /** Some path of at most `n` edges from state `s` reads the whole of `w`. */
  ghost predicate Walk(m: Nfa, s: nat, w: seq<Byte>, n: nat)
    decreases n
  {
    w == [] ||
    (&& n > 0 && s != EOP && s < |m.cells| && m.cells[s].Cell?
     && var cell := m.cells[s];
     if cell.op.Eps? then
       Walk(m, cell.next1, w, n - 1) || Walk(m, cell.next2, w, n - 1)
     else
       Fits(m.sets, cell.op, w[0]) && Walk(m, cell.next1, w[1..], n - 1))
  }

  ghost predicate Reads(m: Nfa, s: nat, w: seq<Byte>) {
    exists n: nat :: Walk(m, s, w, n)
  }

  /** `p` is the length of the longest prefix of the first `len` characters that can be read from `s`. */
  ghost predicate Furthest(m: Nfa, a: seq<Byte>, len: nat, s: nat, p: nat)
    requires len <= |a|
  {
    p <= len && Reads(m, s, a[..p]) && forall k | p < k <= len :: !Reads(m, s, a[..k])
  }

  // ---------- One step ----------

  lemma {:induction false} ReadsNothing(m: Nfa, s: nat)
    ensures Reads(m, s, [])
  {
    assert Walk(m, s, [], 0);
  }

  lemma {:induction false} EpsReads(m: Nfa, s: nat, w: seq<Byte>)
    requires s != EOP && s < |m.cells| && m.cells[s].Cell? && m.cells[s].op.Eps? && w != []
    ensures Reads(m, s, w) <==> Reads(m, m.cells[s].next1, w) || Reads(m, m.cells[s].next2, w)
  {
    var cell := m.cells[s];
    if Reads(m, s, w) {
      var n: nat :| Walk(m, s, w, n);
      assert Walk(m, cell.next1, w, n - 1) || Walk(m, cell.next2, w, n - 1);
    }
    if Reads(m, cell.next1, w) {
      var n: nat :| Walk(m, cell.next1, w, n);
      assert Walk(m, s, w, n + 1);
    }
    if Reads(m, cell.next2, w) {
      var n: nat :| Walk(m, cell.next2, w, n);
      assert Walk(m, s, w, n + 1);
    }
  }

  lemma {:induction false} TakeReads(m: Nfa, s: nat, w: seq<Byte>)
    requires s != EOP && s < |m.cells| && m.cells[s].Cell? && !m.cells[s].op.Eps? && w != []
    ensures Reads(m, s, w) <==> Fits(m.sets, m.cells[s].op, w[0]) && Reads(m, m.cells[s].next1, w[1..])
  {
    var cell := m.cells[s];
    if Reads(m, s, w) {
      var n: nat :| Walk(m, s, w, n);
      assert Walk(m, cell.next1, w[1..], n - 1);
    }
    if Fits(m.sets, cell.op, w[0]) && Reads(m, cell.next1, w[1..]) {
      var n: nat :| Walk(m, cell.next1, w[1..], n);
      assert Walk(m, s, w, n + 1);
    }
  }

  lemma {:induction false} EndReadsNothing(m: Nfa, w: seq<Byte>)
    requires w != []
    ensures !Reads(m, EOP, w)
  {}

  // ---------- The queue ----------

  /** Some state in `q` can read `w`. */
  ghost predicate SomeReads(m: Nfa, q: seq<int>, w: seq<Byte>) {
    exists i | 0 <= i < |q| :: q[i] >= 0 && Reads(m, q[i], w)
  }

  lemma {:induction false} SomeReadsJoin(m: Nfa, p: seq<int>, q: seq<int>, w: seq<Byte>)
    ensures SomeReads(m, p + q, w) <==> SomeReads(m, p, w) || SomeReads(m, q, w)
  {
    hide Reads;
    if SomeReads(m, p, w) {
      var i :| 0 <= i < |p| && p[i] >= 0 && Reads(m, p[i], w);
      assert (p + q)[i] == p[i];
    }
    if SomeReads(m, q, w) {
      var i :| 0 <= i < |q| && q[i] >= 0 && Reads(m, q[i], w);
      assert (p + q)[|p| + i] == q[i];
    }
  }

  lemma {:induction false} SomeReadsOne(m: Nfa, s: nat, w: seq<Byte>)
    ensures SomeReads(m, [s], w) <==> Reads(m, s, w)
  {
    hide Reads;
    if Reads(m, s, w) {
      assert [s][0] == s;
    }
  }

  /** From `cur` at position `j` or `nxt` at position `j + 1` the characters up to `k` can be read. */
  ghost predicate Ahead(m: Nfa, a: seq<Byte>, cur: seq<int>, nxt: seq<int>, j: nat, k: nat)
    requires j < k <= |a|
  {
    SomeReads(m, cur, a[j..k]) || SomeReads(m, nxt, a[j + 1..k])
  }

  /** The same, with `state` taken out of the queue; a negative `state` is the level marker. */
  ghost predicate AheadOf(m: Nfa, a: seq<Byte>, state: int, cur: seq<int>, nxt: seq<int>, j: nat, k: nat)
    requires j < k <= |a|
  {
    (state >= 0 && Reads(m, state, a[j..k])) || Ahead(m, a, cur, nxt, j, k)
  }

  lemma {:induction false} EpsAhead(m: Nfa, a: seq<Byte>, s: nat, cur: seq<int>, nxt: seq<int>, j: nat, k: nat)
    requires j < k <= |a| && s != EOP && s < |m.cells| && m.cells[s].Cell? && m.cells[s].op.Eps?
    ensures var n1, n2 := m.cells[s].next1, m.cells[s].next2;
            var cur' := if n1 != n2 then [n2] + ([n1] + cur) else [n1] + cur;
            AheadOf(m, a, s, cur, nxt, j, k) <==> Ahead(m, a, cur', nxt, j, k)
  {
    hide Reads, SomeReads;
    var n1, n2 := m.cells[s].next1, m.cells[s].next2;
    var w := a[j..k];
    EpsReads(m, s, w);
    SomeReadsJoin(m, [n1], cur, w);
    SomeReadsJoin(m, [n2], [n1] + cur, w);
    SomeReadsOne(m, n1, w);
    SomeReadsOne(m, n2, w);
  }

  lemma {:induction false} TakeAhead(m: Nfa, a: seq<Byte>, len: nat, s: nat, cur: seq<int>, nxt: seq<int>, j: nat, k: nat)
    requires j < k <= len <= |a| && s != EOP && s < |m.cells| && m.cells[s].Cell? && !m.cells[s].op.Eps?
    ensures var nxt' := if Takes(m.sets, m.cells[s].op, a, len, j) then nxt + [m.cells[s].next1] else nxt;
            AheadOf(m, a, s, cur, nxt, j, k) <==> Ahead(m, a, cur, nxt', j, k)
  {
    hide Reads, SomeReads;
    var w, v := a[j..k], a[j + 1..k];
    assert w[0] == a[j] && w[1..] == v;
    TakeReads(m, s, w);
    SomeReadsJoin(m, nxt, [m.cells[s].next1], v);
    SomeReadsOne(m, m.cells[s].next1, v);
  }

  // ---------- What is still to be read ----------

  /**
   Position `f.j` has been reached, and what can be read beyond it can be read from
   `state` or from the states queued.
   */
  ghost predicate Exploring(m: Nfa, a: seq<Byte>, len: nat, start: nat, state: int, f: Frontier)
    requires len <= |a|
  {
    && Reads(m, start, a[..if f.j <= len then f.j else len])
    && (forall k | f.j < k <= len :: Reads(m, start, a[..k]) <==> AheadOf(m, a, state, f.cur, f.nxt, f.j, k))
  }

  /** The same, between two states. */
  ghost predicate Explored(m: Nfa, a: seq<Byte>, len: nat, start: nat, f: Frontier)
    requires len <= |a|
  {
    && Reads(m, start, a[..if f.j <= len then f.j else len])
    && (forall k | f.j < k <= len :: Reads(m, start, a[..k]) <==> Ahead(m, a, f.cur, f.nxt, f.j, k))
  }

  lemma {:induction false} ExploreFirst(m: Nfa, a: seq<Byte>, len: nat, start: nat)
    requires len <= |a|
    ensures Exploring(m, a, len, start, start, Frontier(0, [], []))
  {
    hide Reads;
    ReadsNothing(m, start);
    assert a[..0] == [];
    forall k | 0 < k <= len
      ensures Reads(m, start, a[..k]) <==> AheadOf(m, a, start, [], [], 0, k)
    {
      assert a[0..k] == a[..k];
    }
  }

  /** Processing one state keeps what can be read. The level marker is met only when the next level is not empty. */
  lemma {:induction false} ExploreNext(m: Nfa, a: seq<Byte>, len: nat, start: nat, state: int, f: Frontier)
    requires len <= |a| && state != EOP && (state < 0 || (state < |m.cells| && m.cells[state].Cell?))
    requires state < 0 ==> f.cur == [] && f.nxt != [] && States(m, f.nxt)
    requires Exploring(m, a, len, start, state, f)
    ensures Explored(m, a, len, start, Next(m, a, len, state, f))
  {
    hide Reads, SomeReads, Takes;
    var g := Next(m, a, len, state, f);
    if state < 0 {
      MarkerReached(m, a, len, start, state, f);
    } else {
      forall k | f.j < k <= len
        ensures Reads(m, start, a[..k]) <==> Ahead(m, a, g.cur, g.nxt, g.j, k)
      {
        if m.cells[state].op.Eps? {
          EpsAhead(m, a, state, f.cur, f.nxt, f.j, k);
        } else {
          TakeAhead(m, a, len, state, f.cur, f.nxt, f.j, k);
        }
      }
    }
  }

  lemma {:induction false} MarkerReached(m: Nfa, a: seq<Byte>, len: nat, start: nat, state: int, f: Frontier)
    requires len <= |a| && state < 0 && f.cur == [] && f.nxt != [] && States(m, f.nxt)
    requires Exploring(m, a, len, start, state, f)
    ensures Explored(m, a, len, start, Frontier(f.j + 1, f.nxt, []))
  {
    hide Reads;
    if f.j + 1 <= len {
      var k := f.j + 1;
      assert a[f.j + 1..k] == [];
      ReadsNothing(m, f.nxt[0]);
      assert SomeReads(m, f.nxt, a[f.j + 1..k]);
      assert AheadOf(m, a, state, f.cur, f.nxt, f.j, k);
    }
    forall k | f.j + 1 < k <= len
      ensures Reads(m, start, a[..k]) <==> Ahead(m, a, f.nxt, [], f.j + 1, k)
    {
      assert AheadOf(m, a, state, f.cur, f.nxt, f.j, k) <==> SomeReads(m, f.nxt, a[f.j + 1..k]);
    }
  }

  /** Taking the next state out of the queue changes nothing. */
  lemma {:induction false} ExplorePop(m: Nfa, a: seq<Byte>, len: nat, start: nat, f: Frontier, marker: int)
    requires len <= |a| && marker < 0 && States(m, f.cur) && Explored(m, a, len, start, f)
    ensures f.cur == [] ==> Exploring(m, a, len, start, marker, f)
    ensures f.cur != [] ==> f.cur[0] >= 0 && Exploring(m, a, len, start, f.cur[0], f.(cur := f.cur[1..]))
  {
    hide Reads, SomeReads;
    if f.cur != [] {
      assert f.cur == [f.cur[0]] + f.cur[1..];
      forall k | f.j < k <= len
        ensures Reads(m, start, a[..k]) <==> AheadOf(m, a, f.cur[0], f.cur[1..], f.nxt, f.j, k)
      {
        SomeReadsJoin(m, [f.cur[0]], f.cur[1..], a[f.j..k]);
        SomeReadsOne(m, f.cur[0], a[f.j..k]);
      }
    }
  }

  /** When the queue is exhausted, the position reached is the furthest. */
  lemma {:induction false} ExploredAll(m: Nfa, a: seq<Byte>, len: nat, start: nat, f: Frontier, marker: int)
    requires len <= |a| && Explored(m, a, len, start, f)
    requires f.cur + [marker] + f.nxt == [marker] || f.j >= len
    ensures Furthest(m, a, len, start, if f.j <= len then f.j else len)
  {
    hide Reads;
    assert |f.cur + [marker] + f.nxt| == |f.cur| + 1 + |f.nxt|;
    forall k | f.j < k <= len ensures !Reads(m, start, a[..k]) {
      assert !SomeReads(m, [], a[f.j..k]) && !SomeReads(m, [], a[f.j + 1..k]);
    }
  }

  lemma {:induction false} ExploredToEnd(m: Nfa, a: seq<Byte>, len: nat, start: nat, state: int, f: Frontier)
    requires len <= |a| && Exploring(m, a, len, start, state, f) && f.j == len
    ensures Furthest(m, a, len, start, len)
  {}

  // ---------- What the position means ----------

  /** The furthest position depends on the subject alone. */
  lemma {:induction false} FurthestUnique(m: Nfa, a: seq<Byte>, b: seq<Byte>, len: nat, s: nat, p: nat, q: nat)
    requires len <= |a| && len <= |b| && a[..len] == b[..len]
    requires Furthest(m, a, len, s, p) && Furthest(m, b, len, s, q)
    ensures p == q
  {
    hide Reads;
    forall k | 0 <= k <= len ensures a[..k] == b[..k] {
      assert a[..k] == a[..len][..k] && b[..k] == b[..len][..k];
    }
    assert a[..q] == b[..q] && a[..p] == b[..p];
  }

  // ---------- The matcher's loop ----------

  /**
   What the matcher reports: on success the first accepting level, on failure, besides
   that no level accepts, the furthest position; both cut off at the length.
   */
  ghost predicate Verdict(m: Nfa, horizon: nat, a: seq<Byte>, len: nat, s: nat, found: bool, pos: nat)
    requires len <= |a|
  {
    if found then
      exists k | 0 <= k <= horizon :: FirstAccept(m, a, len, s, k) && pos == if k > len then len else k
    else
      (forall k | 0 <= k <= horizon :: !Accepts(m, a, len, s, 0, k)) && Furthest(m, a, len, s, pos)
  }

  /** The loop head, with `state` just taken from the queue. The level marker is only met with a next level to explore. */
  ghost predicate AtHead(m: Nfa, a: seq<Byte>, len: nat, s: nat, state: int, f: Frontier, d: nat, horizon: nat)
    requires len <= |a|
  {
    && f.j <= horizon && Sane(m, d, f)
    && (if state < 0 then f.cur == [] && f.nxt != [] else state < |m.cells|)
    && (forall k | 0 <= k <= horizon :: Accepts(m, a, len, s, 0, k) <==> Pending(m, a, len, state, f.cur, f.nxt, f.j, k))
    && Exploring(m, a, len, s, state, f)
  }

  /** After processing a state, before the next one is taken. */
  ghost predicate Between(m: Nfa, a: seq<Byte>, len: nat, s: nat, f: Frontier, d: nat, horizon: nat)
    requires len <= |a|
  {
    && Sane(m, d, f)
    && (forall k | 0 <= k <= horizon :: Accepts(m, a, len, s, 0, k) <==> Waiting(m, a, len, f.cur, f.nxt, f.j, k))
    && Explored(m, a, len, s, f)
  }

  /** Epsilon work ahead on the current level. */
  ghost function Load(m: Nfa, state: int, f: Frontier, d: nat): nat
    requires Settled(m, d) && state < |m.cells| && Sane(m, d, f)
  {
    (if state >= 0 then Weight(m, state, d) else 0) + TotalWeight(m, f.cur, d)
  }

  lemma {:induction false} HeadFirst(m: Nfa, a: seq<Byte>, len: nat, d: nat, horizon: nat)
    requires len <= |a| && Explorable(m) && Settled(m, d)
    ensures var s := m.cells[0].next1; AtHead(m, a, len, s, s, Frontier(0, [], []), d, horizon)
  {
    hide Accepts, Exploring;
    ExploreFirst(m, a, len, m.cells[0].next1);
  }

  lemma {:induction false} HeadFacts(m: Nfa, a: seq<Byte>, len: nat, s: nat, state: int, f: Frontier, d: nat, horizon: nat)
    requires len <= |a| && AtHead(m, a, len, s, state, f, d, horizon)
    ensures f.j <= horizon && (state >= 0 ==> state < |m.cells|) && Sane(m, d, f)
  {}

  /** Processing a state keeps everything, and lightens the level it belongs to. */
  lemma {:induction false} HeadStep(m: Nfa, a: seq<Byte>, len: nat, s: nat, state: int, f: Frontier, d: nat, horizon: nat)
    requires len <= |a| && Explorable(m) && Settled(m, d) && state != EOP
    requires AtHead(m, a, len, s, state, f, d, horizon)
    ensures state < 0 || m.cells[state].Cell?
    ensures var g := Next(m, a, len, state, f);
            && Between(m, a, len, s, g, d, horizon)
            && (if state < 0 then g.j == f.j + 1 else g.j == f.j && TotalWeight(m, g.cur, d) < Load(m, state, f, d))
  {
    hide Accepts, Pending, Waiting, Exploring, Explored, Weight, TotalWeight, Settles;
    NextSane(m, a, len, state, f, d);
    NextKeepsAll(m, a, len, state, f);
    ExploreNext(m, a, len, s, state, f);
  }

  /** Taking the next state. */
  lemma {:induction false} HeadAgain(m: Nfa, a: seq<Byte>, len: nat, s: nat, f: Frontier, d: nat, horizon: nat, marker: int)
    requires len <= |a| && Settled(m, d) && marker < 0 && f.j <= horizon
    requires Between(m, a, len, s, f, d, horizon) && f.cur + [marker] + f.nxt != [marker]
    ensures f.cur == [] ==> AtHead(m, a, len, s, marker, f, d, horizon) && Load(m, marker, f, d) == TotalWeight(m, f.cur, d)
    ensures f.cur != [] ==>
              var g := f.(cur := f.cur[1..]);
              && AtHead(m, a, len, s, f.cur[0], g, d, horizon)
              && Load(m, f.cur[0], g, d) == TotalWeight(m, f.cur, d)
  {
    hide Accepts, Waiting, Exploring, Explored, Weight, TotalWeight, Settles;
    ExplorePop(m, a, len, s, f, marker);
    if f.cur != [] {
      PopFront(m, a, len, f, d);
    } else {
      assert [] + [marker] + f.nxt == [marker] + f.nxt;
    }
  }

  /** Minimal matching gives up when the last level has been explored. */
  lemma {:induction false} HeadAtEnd(m: Nfa, a: seq<Byte>, len: nat, s: nat, state: int, f: Frontier, d: nat)
    requires len <= |a| && state < 0 && f.j == len && AtHead(m, a, len, s, state, f, d, len)
    ensures Verdict(m, len, a, len, s, false, len)
  {
    hide Accepts, Exploring, Furthest;
    NothingLeft(m, a, len, f, len);
    ExploredToEnd(m, a, len, s, state, f);
  }

  /** Exploring ends when the queue is exhausted or beyond the last level. */
  lemma {:induction false} NoneAccepts(m: Nfa, a: seq<Byte>, len: nat, s: nat, f: Frontier, d: nat, horizon: nat, marker: int)
    requires len <= |a| && Between(m, a, len, s, f, d, horizon)
    requires f.cur + [marker] + f.nxt == [marker] || (f.j > horizon && f.j > len)
    ensures Verdict(m, horizon, a, len, s, false, if f.j > len then len else f.j)
  {
    hide Accepts, Explored, Furthest;
    Exhausted(m, a, len, f, horizon, marker);
    ExploredAll(m, a, len, s, f, marker);
  }

  lemma {:induction false} HeadAccepts(m: Nfa, a: seq<Byte>, len: nat, s: nat, f: Frontier, d: nat, horizon: nat)
    requires len <= |a| && AtHead(m, a, len, s, EOP, f, d, horizon)
    ensures Verdict(m, horizon, a, len, s, true, if f.j > len then len else f.j)
  {
    hide Accepts, Exploring, FirstAccept;
    EndOfPattern(m, a, len, s, f, horizon);
  }
}
