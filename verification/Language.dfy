/**
 The language of a laid-out pattern. A path that enters the block of `r` and ends
 beyond it splits into a word of `r` and a path from the exit, and conversely.
 */
module Language {
  import opened Bytes
  import opened Patterns
  import opened Nfa
  import opened Layout

  // ---------- Cutting and joining words ----------

  lemma {:induction false} Cut<T>(w: seq<T>, k: nat, i: nat)
    requires i <= k <= |w|
    ensures w[..k][..i] == w[..i] && w[..k][i..] == w[i..][..k - i] && w[i..][k - i..] == w[k..]
  {}

  lemma {:induction false} CatWitness(r: Regex, v: seq<Byte>) returns (i: nat)
    requires r.Cat? && In(r, v)
    ensures i <= |v| && In(r.first, v[..i]) && In(r.rest, v[i..])
  {
    i :| 0 <= i <= |v| && In(r.first, v[..i]) && In(r.rest, v[i..]);
  }

  lemma {:induction false} CatSplit(first: Regex, rest: Regex, w: seq<Byte>, k: nat) returns (i: nat)
    requires k <= |w| && In(Cat(first, rest), w[..k])
    ensures i <= k && In(first, w[..i]) && In(rest, w[i..][..k - i])
    ensures w[i..][k - i..] == w[k..]
  {
    i := CatWitness(Cat(first, rest), w[..k]);
    Cut(w, k, i);
  }

  lemma {:induction false} CatJoin(first: Regex, rest: Regex, w: seq<Byte>, i: nat, j: nat)
    requires i + j <= |w| && In(first, w[..i]) && In(rest, w[i..][..j])
    ensures In(Cat(first, rest), w[..i + j]) && w[i..][j..] == w[i + j..]
  {
    Cut(w, i + j, i);
  }

  lemma {:induction false} PowerWitness(r: Regex, n: nat, v: seq<Byte>) returns (i: nat)
    requires n > 0 && Power(r, n, v)
    ensures i <= |v| && In(r, v[..i]) && Power(r, n - 1, v[i..])
  {
    i :| 0 <= i <= |v| && In(r, v[..i]) && Power(r, n - 1, v[i..]);
  }

  lemma {:induction false} PlusWitness(r: Regex, v: seq<Byte>) returns (n: nat)
    requires r.Plus? && In(r, v)
    ensures n > 0 && Power(r.base, n, v)
  {
    n :| n > 0 && Power(r.base, n, v);
  }

  lemma {:induction false} PowerSplit(r: Regex, n: nat, w: seq<Byte>, k: nat) returns (i: nat)
    requires n > 0 && k <= |w| && Power(r, n, w[..k])
    ensures i <= k && In(r, w[..i]) && Power(r, n - 1, w[i..][..k - i])
    ensures w[i..][k - i..] == w[k..]
  {
    i := PowerWitness(r, n, w[..k]);
    Cut(w, k, i);
  }

  lemma {:induction false} PowerJoin(r: Regex, n: nat, w: seq<Byte>, i: nat, j: nat)
    requires i + j <= |w| && In(r, w[..i]) && Power(r, n, w[i..][..j])
    ensures Power(r, n + 1, w[..i + j]) && w[i..][j..] == w[i + j..]
  {
    Cut(w, i + j, i);
  }

  lemma {:induction false} NoWords(r: Regex)
    ensures Power(r, 0, [])
  {}

  /** An epsilon state leads to one of its targets. */
  lemma {:induction false} LoopBranches(a: Nfa, goal: nat, s: nat, w: seq<Byte>, n: nat)
    requires 0 < s < |a.cells| && a.cells[s].Cell? && a.cells[s].op.Eps? && s != goal
    ensures Reach(a, goal, s, w, n) <==>
            n > 0 && (Reach(a, goal, a.cells[s].next1, w, n - 1) || Reach(a, goal, a.cells[s].next2, w, n - 1))
  {}

  lemma {:induction false} NoMore(r: Regex, v: seq<Byte>)
    requires Power(r, 0, v)
    ensures v == []
  {}

  lemma {:induction false} NoneLeft(r: Regex, w: seq<Byte>, k: nat)
    requires k <= |w| && In(r, w[..k])
    ensures Power(r, 1, w[..k])
  {
    assert w[k..][..0] == [];
    PowerJoin(r, 0, w, k, 0);
  }

  /** Two laid-out patterns in sequence, the first leading into the second. */
  ghost predicate Joined(a: Nfa, first: Regex, rest: Regex, lo: nat, y: nat, lo2: nat, x: nat, goal: nat) {
    && 0 < lo && lo + Size(first) <= goal && 0 < lo2 && lo2 + Size(rest) <= goal
    && Laid(a, first, lo, y) && Laid(a, rest, lo2, x)
    && var e := lo2 + Entry(rest); y == e || (HasEps(a, y, e, e) && 0 < y < goal)
  }

  /** Where a concatenation puts the exit of its first part and the start of the rest. */
  lemma {:induction false} CatJoined(a: Nfa, first: Regex, rest: Regex, lo: nat, x: nat, goal: nat)
    returns (y: nat, lo2: nat)
    requires Laid(a, Cat(first, rest), lo, x) && 0 < lo && lo + Size(Cat(first, rest)) <= goal
    ensures Joined(a, first, rest, lo, y, lo2, x, goal)
  {
    hide Laid;
    CatLaid(a, first, rest, lo, x);
    EntryInBlock(rest);
    var m := lo + Size(first);
    if StartsGroup(rest) {
      y, lo2 := m, m + 1;
    } else {
      y, lo2 := m + Entry(rest), m;
    }
  }

  // ---------- From paths to words ----------

  /** Every path out of a block starts with a word of its pattern. */
  lemma {:induction false} PathToWord(a: Nfa, r: Regex, lo: nat, x: nat, goal: nat, w: seq<Byte>, n: nat)
    returns (k: nat, m: nat)
    requires WellShaped(r) && Laid(a, r, lo, x) && lo > 0 && goal >= lo + Size(r)
    requires Reach(a, goal, lo + Entry(r), w, n)
    ensures k <= |w| && m <= n && In(r, w[..k]) && Reach(a, goal, x, w[k..], m)
    decreases r, 0, 1
  {
    hide Laid, LaidTimes, Reach;
    EntryInBlock(r);
    match r
    case Lit(_) => k, m := AtomToWord(a, r, lo, x, goal, w, n);
    case AnyOne => k, m := AtomToWord(a, r, lo, x, goal, w, n);
    case Set(_, _) => k, m := AtomToWord(a, r, lo, x, goal, w, n);
    case Group(body) =>
      GroupLaid(a, body, lo, x);
      k, m := PathToWord(a, body, lo, x, goal, w, n);
    case Star(base) =>
      var p;
      k, m, p := LoopToWord(a, r, lo, x, goal, w, n);
    case Plus(base) =>
      k, m := PlusToWord(a, r, lo, x, goal, w, n);
    case Times(base, count) =>
      CopiesLaid(a, base, count, lo, x);
      k, m := TimesToWord(a, base, count, lo, x, goal, w, n);
    case Cat(first, rest) =>
      var y, lo2 := CatJoined(a, first, rest, lo, x, goal);
      k, m := CatToWord(a, first, rest, lo, y, lo2, x, goal, w, n);
    case Alt(left, right) =>
      k, m := AltToWord(a, left, right, lo, x, goal, w, n);
  }

  lemma {:induction false} PlusToWord(a: Nfa, r: Regex, lo: nat, x: nat, goal: nat, w: seq<Byte>, n: nat)
    returns (k: nat, m: nat)
    requires r.Plus? && WellShaped(r) && Laid(a, r, lo, x) && lo > 0 && goal >= lo + Size(r)
    requires Reach(a, goal, lo + Entry(r), w, n)
    ensures k <= |w| && m <= n && In(r, w[..k]) && Reach(a, goal, x, w[k..], m)
    decreases r, 0, 0
  {
    hide Laid, Reach, In, Power, Entry, Size;
    LoopLaid(a, r, lo, x);
    EntryInBlock(r.base);
    PlusSizes(r);
    var k1, m1 := PathToWord(a, r.base, lo, lo + Size(r.base), goal, w, n);
    var k2, m2, p := LoopToWord(a, r, lo, x, goal, w[k1..], m1);
    PowerJoin(r.base, p, w, k1, k2);
    k, m := k1 + k2, m2;
    PlusOf(r, p + 1, w[..k]);
  }

  lemma {:induction false} PlusSizes(r: Regex)
    requires r.Plus?
    ensures Entry(r) == Entry(r.base) && Size(r) == Size(r.base) + 1
  {}

  lemma {:induction false} PlusOf(r: Regex, n: nat, v: seq<Byte>)
    requires r.Plus? && n > 0 && Power(r.base, n, v)
    ensures In(r, v)
  {}

  lemma {:induction false} AtomToWord(a: Nfa, r: Regex, lo: nat, x: nat, goal: nat, w: seq<Byte>, n: nat) returns (k: nat, m: nat)
    requires IsAtom(r)
    requires Laid(a, r, lo, x) && 0 < lo < goal && Reach(a, goal, lo, w, n)
    ensures k <= |w| && m <= n && In(r, w[..k]) && Reach(a, goal, x, w[k..], m)
  {
    k, m := 1, n - 1;
    assert w[..1] == [w[0]];
  }

  lemma {:induction false} AltToWord(a: Nfa, left: Regex, right: Regex, lo: nat, x: nat, goal: nat, w: seq<Byte>, n: nat)
    returns (k: nat, m: nat)
    requires WellShaped(Alt(left, right)) && Laid(a, Alt(left, right), lo, x) && lo > 0
    requires goal >= lo + Size(Alt(left, right))
    requires Reach(a, goal, lo + Entry(Alt(left, right)), w, n)
    ensures k <= |w| && m <= n && In(Alt(left, right), w[..k]) && Reach(a, goal, x, w[k..], m)
    decreases Alt(left, right), 0, 0
  {
    hide Laid, Reach, In;
    AltLaid(a, left, right, lo, x);
    var q := lo + Size(left);
    LoopBranches(a, goal, q + 1, w, n);
    if Reach(a, goal, q + 2 + Entry(right), w, n - 1) {
      k, m := PathToWord(a, right, q + 2, x, goal, w, n - 1);
    } else {
      k, m := PathToWord(a, left, lo, q, goal, w, n - 1);
      PassOn(a, goal, q, x, w[k..], m);
      m := m - 1;
    }
    AltOf(left, right, w[..k]);
  }

  lemma {:induction false} AltOf(left: Regex, right: Regex, v: seq<Byte>)
    ensures In(Alt(left, right), v) <==> In(left, v) || In(right, v)
  {
    hide Power;
  }

  /** Starting at the decision state of a loop: zero or more words of the body. */
  lemma {:induction false} LoopToWord(a: Nfa, r: Regex, lo: nat, x: nat, goal: nat, w: seq<Byte>, n: nat)
    returns (k: nat, m: nat, p: nat)
    requires r.Star? || r.Plus?
    requires WellShaped(r) && Laid(a, r, lo, x) && lo > 0 && goal >= lo + Size(r)
    requires Reach(a, goal, lo + Size(r.base), w, n)
    ensures k <= |w| && m <= n && Power(r.base, p, w[..k]) && Reach(a, goal, x, w[k..], m)
    decreases r.base, 1, n
  {
    hide Laid, Reach, In, Power;
    LoopLaid(a, r, lo, x);
    EntryInBlock(r.base);
    var s := lo + Size(r.base);
    LoopBranches(a, goal, s, w, n);
    if Reach(a, goal, x, w, n - 1) {
      k, m, p := 0, n - 1, 0;
      assert w[0..] == w && w[..0] == [];
      NoWords(r.base);
    } else {
      var k1, m1 := PathToWord(a, r.base, lo, s, goal, w, n - 1);
      var k2, m2, p2 := LoopToWord(a, r, lo, x, goal, w[k1..], m1);
      PowerJoin(r.base, p2, w, k1, k2);
      k, m, p := k1 + k2, m2, p2 + 1;
    }
  }

  lemma {:induction false} TimesToWord(a: Nfa, r: Regex, count: nat, lo: nat, x: nat, goal: nat, w: seq<Byte>, n: nat)
    returns (k: nat, m: nat)
    requires WellShaped(r) && count > 0 && LaidTimes(a, r, count, lo, x) && lo > 0
    requires goal >= lo + SizeTimes(r, count)
    requires Reach(a, goal, lo + Entry(r), w, n)
    ensures k <= |w| && m <= n && Power(r, count, w[..k]) && Reach(a, goal, x, w[k..], m)
    decreases r, 1, count
  {
    hide Laid, LaidTimes, Reach, In, Power;
    TimesLaid(a, r, count, lo, x);
    EntryInBlock(r);
    if count == 1 {
      k, m := PathToWord(a, r, lo, x, goal, w, n);
      NoneLeft(r, w, k);
    } else {
      var q := lo + Size(r);
      var k1, m1 := PathToWord(a, r, lo, CopyExit(r, q), goal, w, n);
      if Bridge(r) != 0 {
        PassOn(a, goal, q, q + 1 + Entry(r), w[k1..], m1);
      }
      var k2, m2 := TimesToWord(a, r, count - 1, q + Bridge(r), x, goal, w[k1..], if Bridge(r) == 0 then m1 else m1 - 1);
      PowerJoin(r, count - 1, w, k1, k2);
      k, m := k1 + k2, m2;
    }
  }

  /** `first` exits to `y`, from which the entry of `rest` is reached directly or by a bridge. */
  lemma {:induction false} CatToWord(a: Nfa, first: Regex, rest: Regex, lo: nat, y: nat, lo2: nat, x: nat, goal: nat,
                                     w: seq<Byte>, n: nat)
    returns (k: nat, m: nat)
    requires WellShaped(first) && WellShaped(rest)
    requires Joined(a, first, rest, lo, y, lo2, x, goal)
    requires Reach(a, goal, lo + Entry(first), w, n)
    ensures k <= |w| && m <= n && In(Cat(first, rest), w[..k]) && Reach(a, goal, x, w[k..], m)
    decreases Cat(first, rest), 0, 0
  {
    hide Laid, Reach, In;
    var k1, m1 := PathToWord(a, first, lo, y, goal, w, n);
    if y != lo2 + Entry(rest) {
      PassOn(a, goal, y, lo2 + Entry(rest), w[k1..], m1);
    }
    var k2, m2 := PathToWord(a, rest, lo2, x, goal, w[k1..], if y == lo2 + Entry(rest) then m1 else m1 - 1);
    k, m := k1 + k2, m2;
    CatJoin(first, rest, w, k1, k2);
  }

  // ---------- From words to paths ----------

  /** A word of the pattern leads from its entry to its exit. */
  lemma {:induction false} WordToPath(a: Nfa, r: Regex, lo: nat, x: nat, goal: nat, w: seq<Byte>, k: nat, m: nat)
    returns (n: nat)
    requires WellShaped(r) && Laid(a, r, lo, x) && lo > 0 && goal >= lo + Size(r)
    requires k <= |w| && In(r, w[..k]) && Reach(a, goal, x, w[k..], m)
    ensures Reach(a, goal, lo + Entry(r), w, n)
    decreases r, 1
  {
    hide Laid, LaidTimes, Reach;
    EntryInBlock(r);
    match r
    case Lit(_) => n := AtomToPath(a, r, lo, x, goal, w, k, m);
    case AnyOne => n := AtomToPath(a, r, lo, x, goal, w, k, m);
    case Set(_, _) => n := AtomToPath(a, r, lo, x, goal, w, k, m);
    case Group(body) =>
      GroupLaid(a, body, lo, x);
      n := WordToPath(a, body, lo, x, goal, w, k, m);
    case Star(base) =>
      var p: nat :| Power(base, p, w[..k]);
      n := LoopToPath(a, r, lo, x, goal, w, k, m, p);
    case Plus(base) => n := PlusToPath(a, r, lo, x, goal, w, k, m);
    case Times(base, count) =>
      CopiesLaid(a, base, count, lo, x);
      n := TimesToPath(a, base, count, lo, x, goal, w, k, m);
    case Cat(first, rest) =>
      var y, lo2 := CatJoined(a, first, rest, lo, x, goal);
      n := CatToPath(a, first, rest, lo, y, lo2, x, goal, w, k, m);
    case Alt(left, right) => n := AltToPath(a, left, right, lo, x, goal, w, k, m);
  }

  lemma {:induction false} AtomToPath(a: Nfa, r: Regex, lo: nat, x: nat, goal: nat, w: seq<Byte>, k: nat, m: nat) returns (n: nat)
    requires IsAtom(r)
    requires Laid(a, r, lo, x) && 0 < lo < goal
    requires k <= |w| && In(r, w[..k]) && Reach(a, goal, x, w[k..], m)
    ensures Reach(a, goal, lo, w, n)
  {
    n := m + 1;
    assert k == 1 && w[..1][0] == w[0];
  }

  lemma {:induction false} PlusToPath(a: Nfa, r: Regex, lo: nat, x: nat, goal: nat, w: seq<Byte>, k: nat, m: nat)
    returns (n: nat)
    requires r.Plus? && WellShaped(r) && Laid(a, r, lo, x) && lo > 0 && goal >= lo + Size(r)
    requires k <= |w| && In(r, w[..k]) && Reach(a, goal, x, w[k..], m)
    ensures Reach(a, goal, lo + Entry(r), w, n)
    decreases r, 0
  {
    hide Laid, Reach, In, Power, Entry, Size;
    LoopLaid(a, r, lo, x);
    EntryInBlock(r.base);
    PlusSizes(r);
    var p := PlusWitness(r, w[..k]);
    var i := PowerSplit(r.base, p, w, k);
    var n1 := LoopToPath(a, r, lo, x, goal, w[i..], k - i, m, p - 1);
    n := WordToPath(a, r.base, lo, lo + Size(r.base), goal, w, i, n1);
  }

  lemma {:induction false} AltToPath(a: Nfa, left: Regex, right: Regex, lo: nat, x: nat, goal: nat, w: seq<Byte>, k: nat, m: nat)
    returns (n: nat)
    requires WellShaped(Alt(left, right)) && Laid(a, Alt(left, right), lo, x) && lo > 0
    requires goal >= lo + Size(Alt(left, right))
    requires k <= |w| && In(Alt(left, right), w[..k]) && Reach(a, goal, x, w[k..], m)
    ensures Reach(a, goal, lo + Entry(Alt(left, right)), w, n)
    decreases Alt(left, right), 0
  {
    hide Laid, Reach, In;
    AltLaid(a, left, right, lo, x);
    AltOf(left, right, w[..k]);
    var q := lo + Size(left);
    if In(left, w[..k]) {
      PassOn(a, goal, q, x, w[k..], m + 1);
      n := WordToPath(a, left, lo, q, goal, w, k, m + 1);
    } else {
      n := WordToPath(a, right, q + 2, x, goal, w, k, m);
    }
    n := n + 1;
    LoopBranches(a, goal, q + 1, w, n);
  }

  lemma {:induction false} LoopToPath(a: Nfa, r: Regex, lo: nat, x: nat, goal: nat, w: seq<Byte>, k: nat, m: nat, p: nat)
    returns (n: nat)
    requires r.Star? || r.Plus?
    requires WellShaped(r) && Laid(a, r, lo, x) && lo > 0 && goal >= lo + Size(r)
    requires k <= |w| && Power(r.base, p, w[..k]) && Reach(a, goal, x, w[k..], m)
    ensures Reach(a, goal, lo + Size(r.base), w, n)
    decreases r.base, 2, p
  {
    hide Laid, Reach, In, Power;
    LoopLaid(a, r, lo, x);
    EntryInBlock(r.base);
    var s := lo + Size(r.base);
    if p == 0 {
      NoMore(r.base, w[..k]);
      n := m + 1;
      assert w[0..] == w;
      LoopBranches(a, goal, s, w, n);
    } else {
      var i := PowerSplit(r.base, p, w, k);
      var n1 := LoopToPath(a, r, lo, x, goal, w[i..], k - i, m, p - 1);
      n := WordToPath(a, r.base, lo, s, goal, w, i, n1);
      n := n + 1;
      LoopBranches(a, goal, s, w, n);
    }
  }

  lemma {:induction false} TimesToPath(a: Nfa, r: Regex, count: nat, lo: nat, x: nat, goal: nat, w: seq<Byte>, k: nat, m: nat)
    returns (n: nat)
    requires WellShaped(r) && count > 0 && LaidTimes(a, r, count, lo, x) && lo > 0
    requires goal >= lo + SizeTimes(r, count)
    requires k <= |w| && Power(r, count, w[..k]) && Reach(a, goal, x, w[k..], m)
    ensures Reach(a, goal, lo + Entry(r), w, n)
    decreases r, 2, count
  {
    hide Laid, LaidTimes, Reach, In, Power;
    TimesLaid(a, r, count, lo, x);
    EntryInBlock(r);
    var i := PowerSplit(r, count, w, k);
    if count == 1 {
      NoMore(r, w[i..][..k - i]);
      n := WordToPath(a, r, lo, x, goal, w, i, m);
    } else {
      var q := lo + Size(r);
      var n1 := TimesToPath(a, r, count - 1, q + Bridge(r), x, goal, w[i..], k - i, m);
      if Bridge(r) != 0 {
        PassOn(a, goal, q, q + 1 + Entry(r), w[i..], n1 + 1);
      }
      n := WordToPath(a, r, lo, CopyExit(r, q), goal, w, i, if Bridge(r) == 0 then n1 else n1 + 1);
    }
  }

  lemma {:induction false} CatToPath(a: Nfa, first: Regex, rest: Regex, lo: nat, y: nat, lo2: nat, x: nat, goal: nat,
                                     w: seq<Byte>, k: nat, m: nat)
    returns (n: nat)
    requires WellShaped(first) && WellShaped(rest)
    requires Joined(a, first, rest, lo, y, lo2, x, goal)
    requires k <= |w| && In(Cat(first, rest), w[..k]) && Reach(a, goal, x, w[k..], m)
    ensures Reach(a, goal, lo + Entry(first), w, n)
    decreases Cat(first, rest), 0
  {
    hide Laid, Reach, In;
    var i := CatSplit(first, rest, w, k);
    var n1 := WordToPath(a, rest, lo2, x, goal, w[i..], k - i, m);
    if y != lo2 + Entry(rest) {
      PassOn(a, goal, y, lo2 + Entry(rest), w[i..], n1 + 1);
    }
    n := WordToPath(a, first, lo, y, goal, w, i, if y == lo2 + Entry(rest) then n1 else n1 + 1);
  }

  // ---------- Summary ----------

  /** A laid-out pattern whose exit is the goal spells exactly its language. */
  lemma {:induction false} LaidSpells(a: Nfa, r: Regex, lo: nat, w: seq<Byte>)
    requires WellShaped(r) && lo > 0 && Laid(a, r, lo, lo + Size(r))
    ensures Spells(a, lo + Entry(r), lo + Size(r), w) <==> In(r, w)
  {
    var goal := lo + Size(r);
    if Spells(a, lo + Entry(r), goal, w) {
      var n: nat :| Reach(a, goal, lo + Entry(r), w, n);
      var k, m := PathToWord(a, r, lo, goal, goal, w, n);
      assert k == |w| && w[..k] == w;
    }
    if In(r, w) {
      assert w[..|w|] == w && Reach(a, goal, goal, w[|w|..], 0);
      var n := WordToPath(a, r, lo, goal, goal, w, |w|, 0);
    }
  }
}
