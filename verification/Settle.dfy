/**
 Epsilon transitions of a compiled pattern cannot go round in circles, provided no
 body of '*' or '+' matches the empty word.
 */
module Settle {
  import opened Patterns
  import opened Nfa
  import opened Layout
  import opened Language

  /** Every sequence of epsilon transitions from `s` ends within `d` steps. */
  ghost predicate Settles(a: Nfa, s: nat, d: nat)
    decreases d
  {
    s == EOP || s >= |a.cells| || a.cells[s].Unset? || !a.cells[s].op.Eps? ||
    (d > 0 && Settles(a, a.cells[s].next1, d - 1) && Settles(a, a.cells[s].next2, d - 1))
  }

  /** The automaton has no epsilon cycle. */
  ghost predicate Settled(a: Nfa, d: nat) {
    forall s | 0 <= s < |a.cells| :: Settles(a, s, d)
  }

  lemma {:induction false} SettlesLonger(a: Nfa, s: nat, d: nat, e: nat)
    requires Settles(a, s, d) && d <= e
    ensures Settles(a, s, e)
    decreases d
  {
    if d > 0 && s != EOP && s < |a.cells| && a.cells[s].Cell? && a.cells[s].op.Eps? {
      SettlesLonger(a, a.cells[s].next1, d - 1, e - 1);
      SettlesLonger(a, a.cells[s].next2, d - 1, e - 1);
    }
  }

  ghost predicate BlockSettles(a: Nfa, lo: nat, hi: nat, d: nat) {
    forall s | lo <= s < hi :: Settles(a, s, d)
  }

  lemma {:induction false} BlockLonger(a: Nfa, lo: nat, hi: nat, d: nat, e: nat)
    requires BlockSettles(a, lo, hi, d) && d <= e
    ensures BlockSettles(a, lo, hi, e)
  {
    forall s | lo <= s < hi ensures Settles(a, s, e) { SettlesLonger(a, s, d, e); }
  }

  lemma {:induction false} BlocksMeet(a: Nfa, lo: nat, mid: nat, hi: nat, d: nat, e: nat) returns (f: nat)
    requires BlockSettles(a, lo, mid, d) && BlockSettles(a, mid, hi, e)
    ensures f >= d && f >= e && BlockSettles(a, lo, hi, f)
  {
    f := if d < e then e else d;
    BlockLonger(a, lo, mid, d, f);
    BlockLonger(a, mid, hi, e, f);
  }

  /** An epsilon state settles one step after its targets. */
  lemma {:induction false} EpsSettles(a: Nfa, s: nat, p: nat, q: nat, d: nat, e: nat) returns (f: nat)
    requires HasEps(a, s, p, q) && Settles(a, p, d) && Settles(a, q, e)
    ensures f > d && f > e && Settles(a, s, f)
  {
    f := (if d < e then e else d) + 1;
    SettlesLonger(a, p, d, f - 1);
    SettlesLonger(a, q, e, f - 1);
  }

  /** When the exit of a pattern settles, so do all its states. */
  lemma {:induction false} BlockSettled(a: Nfa, r: Regex, lo: nat, x: nat, d: nat) returns (f: nat)
    requires WellShaped(r) && Productive(r) && lo > 0 && Laid(a, r, lo, x)
    requires Settles(a, x, d)
    ensures f >= d && BlockSettles(a, lo, lo + Size(r), f)
    decreases r, 2
  {
    hide Laid, LaidTimes, Settles;
    match r
    case Lit(_) => f := AtomSettled(a, r, lo, x, d);
    case AnyOne => f := AtomSettled(a, r, lo, x, d);
    case Set(_, _) => f := AtomSettled(a, r, lo, x, d);
    case Group(body) =>
      GroupLaid(a, body, lo, x);
      f := BlockSettled(a, body, lo, x, d);
    case Star(base) => f := LoopSettled(a, r, lo, x, d);
    case Plus(base) => f := LoopSettled(a, r, lo, x, d);
    case Times(base, count) =>
      CopiesLaid(a, base, count, lo, x);
      f := TimesSettled(a, base, count, lo, x, d);
    case Cat(first, rest) => f := CatSettled(a, first, rest, lo, x, d);
    case Alt(left, right) => f := AltSettled(a, left, right, lo, x, d);
  }

  lemma {:induction false} AtomSettled(a: Nfa, r: Regex, lo: nat, x: nat, d: nat) returns (f: nat)
    requires IsAtom(r) && Laid(a, r, lo, x)
    ensures f == d && BlockSettles(a, lo, lo + Size(r), f) && Settles(a, lo, 0)
  {
    hide LaidTimes;
    f := d;
    assert !a.cells[lo].op.Eps?;
  }

  lemma {:induction false} LoopSettled(a: Nfa, r: Regex, lo: nat, x: nat, d: nat) returns (f: nat)
    requires r.Star? || r.Plus?
    requires WellShaped(r) && Productive(r) && lo > 0 && Laid(a, r, lo, x)
    requires Settles(a, x, d)
    ensures f >= d && BlockSettles(a, lo, lo + Size(r), f)
    decreases r, 0
  {
    hide Laid, Settles;
    LoopLaid(a, r, lo, x);
    var s := lo + Size(r.base);
    var e := EntrySettled(a, r.base, lo, s);
    var g;
    if r.Star? {
      g := EpsSettles(a, s, x, lo + Entry(r.base), d, e);
    } else {
      g := EpsSettles(a, s, lo + Entry(r.base), x, e, d);
    }
    var h := BlockSettled(a, r.base, lo, s, g);
    f := BlocksMeet(a, lo, s, s + 1, h, g);
  }

  lemma {:induction false} TimesSettled(a: Nfa, r: Regex, count: nat, lo: nat, x: nat, d: nat) returns (f: nat)
    requires WellShaped(r) && Productive(r) && lo > 0 && LaidTimes(a, r, count, lo, x)
    requires Settles(a, x, d)
    ensures f >= d && BlockSettles(a, lo, lo + SizeTimes(r, count), f)
    decreases r, 3, count
  {
    hide Laid, LaidTimes, Settles;
    TimesLaid(a, r, count, lo, x);
    if count <= 1 {
      f := BlockSettled(a, r, lo, x, d);
    } else {
      var m := lo + Size(r);
      var m' := m + Bridge(r);
      var e := TimesSettled(a, r, count - 1, m', x, d);
      EntryInBlock(r);
      EntryInTimes(r, count - 1);
      assert Settles(a, m' + Entry(r), e);
      var g := e;
      if Bridge(r) != 0 {
        g := EpsSettles(a, m, m' + Entry(r), m' + Entry(r), e, e);
      }
      var h := BlockSettled(a, r, lo, CopyExit(r, m), g);
      h := BlocksMeet(a, lo, m, m', h, g);
      f := BlocksMeet(a, lo, m', m' + SizeTimes(r, count - 1), h, e);
    }
  }

  /** The join of a concatenation settles when the second part does. */
  lemma {:induction false} JoinSettled(a: Nfa, first: Regex, rest: Regex, lo: nat, y: nat, lo2: nat, x: nat, goal: nat, d: nat)
    returns (e: nat)
    requires Joined(a, first, rest, lo, y, lo2, x, goal) && Settles(a, lo2 + Entry(rest), d)
    ensures e >= d && Settles(a, y, e)
  {
    hide Laid, Settles;
    e := d;
    if y != lo2 + Entry(rest) {
      e := EpsSettles(a, y, lo2 + Entry(rest), lo2 + Entry(rest), d, d);
    }
  }

  lemma {:induction false} CatSettled(a: Nfa, first: Regex, rest: Regex, lo: nat, x: nat, d: nat) returns (f: nat)
    requires WellShaped(Cat(first, rest)) && Productive(Cat(first, rest)) && lo > 0 && Laid(a, Cat(first, rest), lo, x)
    requires Settles(a, x, d)
    ensures f >= d && BlockSettles(a, lo, lo + Size(Cat(first, rest)), f)
    decreases Cat(first, rest), 0
  {
    hide Laid, Settles;
    CatLaid(a, first, rest, lo, x);
    var m := lo + Size(first);
    var m' := m + (if StartsGroup(rest) then 1 else 0);
    var hi := lo + Size(Cat(first, rest));
    var e := BlockSettled(a, rest, m', x, d);
    EntryInBlock(rest);
    assert Settles(a, m' + Entry(rest), e);
    var g := e;
    if StartsGroup(rest) {
      g := EpsSettles(a, m, m' + Entry(rest), m' + Entry(rest), e, e);
    }
    var h := BlockSettled(a, first, lo, if StartsGroup(rest) then m else m + Entry(rest), g);
    h := BlocksMeet(a, lo, m, m', h, g);
    f := BlocksMeet(a, lo, m', hi, h, e);
  }

  lemma {:induction false} AltSettled(a: Nfa, left: Regex, right: Regex, lo: nat, x: nat, d: nat) returns (f: nat)
    requires WellShaped(Alt(left, right)) && Productive(Alt(left, right)) && lo > 0 && Laid(a, Alt(left, right), lo, x)
    requires Settles(a, x, d)
    ensures f >= d && BlockSettles(a, lo, lo + Size(Alt(left, right)), f)
    decreases Alt(left, right), 0
  {
    hide Laid, Settles;
    AltLaid(a, left, right, lo, x);
    var m := lo + Size(left);
    var hi := lo + Size(Alt(left, right));
    var e := EpsSettles(a, m, x, x, d, d);
    var g := BlockSettled(a, left, lo, m, e);
    var h := BlockSettled(a, right, m + 2, x, d);
    EntryInBlock(left);
    EntryInBlock(right);
    assert Settles(a, lo + Entry(left), g) && Settles(a, m + 2 + Entry(right), h);
    var i := EpsSettles(a, m + 1, m + 2 + Entry(right), lo + Entry(left), h, g);
    f := BlocksMeet(a, lo, m, m + 1, g, e);
    f := BlocksMeet(a, lo, m + 1, m + 2, f, i);
    f := BlocksMeet(a, lo, m + 2, hi, f, h);
  }

  /** The entry of a non-nullable pattern settles whatever its exit does. */
  lemma {:induction false} EntrySettled(a: Nfa, r: Regex, lo: nat, x: nat) returns (f: nat)
    requires WellShaped(r) && Productive(r) && !Nullable(r) && lo > 0 && Laid(a, r, lo, x)
    ensures Settles(a, lo + Entry(r), f)
    decreases r, 2
  {
    hide Laid, LaidTimes, Settles;
    match r
    case Lit(_) => f := AtomSettled(a, r, lo, x, 0);
    case AnyOne => f := AtomSettled(a, r, lo, x, 0);
    case Set(_, _) => f := AtomSettled(a, r, lo, x, 0);
    case Group(body) =>
      GroupLaid(a, body, lo, x);
      f := EntrySettled(a, body, lo, x);
    case Plus(base) =>
      LoopLaid(a, r, lo, x);
      f := EntrySettled(a, base, lo, lo + Size(base));
    case Times(base, count) => f := TimesEntrySettled(a, base, count, lo, x);
    case Cat(first, rest) => f := CatEntrySettled(a, first, rest, lo, x);
    case Alt(left, right) => f := AltEntrySettled(a, left, right, lo, x);
  }

  lemma {:induction false} TimesEntrySettled(a: Nfa, base: Regex, count: nat, lo: nat, x: nat) returns (f: nat)
    requires WellShaped(Times(base, count)) && Productive(base) && lo > 0 && Laid(a, Times(base, count), lo, x)
    requires !Nullable(base)
    ensures Settles(a, lo + Entry(base), f)
    decreases Times(base, count), 0
  {
    hide Laid, LaidTimes, Settles;
    CopiesLaid(a, base, count, lo, x);
    TimesLaid(a, base, count, lo, x);
    f := EntrySettled(a, base, lo, CopyExit(base, lo + Size(base)));
  }

  lemma {:induction false} AltEntrySettled(a: Nfa, left: Regex, right: Regex, lo: nat, x: nat) returns (f: nat)
    requires WellShaped(Alt(left, right)) && Productive(Alt(left, right)) && lo > 0 && Laid(a, Alt(left, right), lo, x)
    requires !Nullable(Alt(left, right))
    ensures Settles(a, lo + Entry(Alt(left, right)), f)
    decreases Alt(left, right), 0
  {
    hide Laid, Settles;
    AltLaid(a, left, right, lo, x);
    var m := lo + Size(left);
    var d := EntrySettled(a, left, lo, m);
    var e := EntrySettled(a, right, m + 2, x);
    f := EpsSettles(a, m + 1, m + 2 + Entry(right), lo + Entry(left), e, d);
  }

  lemma {:induction false} CatEntrySettled(a: Nfa, first: Regex, rest: Regex, lo: nat, x: nat) returns (f: nat)
    requires WellShaped(Cat(first, rest)) && Productive(Cat(first, rest)) && lo > 0 && Laid(a, Cat(first, rest), lo, x)
    requires !Nullable(Cat(first, rest))
    ensures Settles(a, lo + Entry(first), f)
    decreases Cat(first, rest), 0
  {
    hide Laid, Settles;
    var goal := lo + Size(Cat(first, rest));
    var y, lo2 := CatJoined(a, first, rest, lo, x, goal);
    if Nullable(first) {
      var d := EntrySettled(a, rest, lo2, x);
      var e := JoinSettled(a, first, rest, lo, y, lo2, x, goal, d);
      f := BlockSettled(a, first, lo, y, e);
      EntryInBlock(first);
    } else {
      f := EntrySettled(a, first, lo, y);
    }
  }
}
