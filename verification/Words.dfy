/** Blank-delimited words of a character sequence. */
module Words {
  import opened MixedStrings

  /** Put a character in front: into the first word, or as a word of its own. */
  function Attach(c: Chr, glued: bool, ws: seq<seq<Chr>>): seq<seq<Chr>>
    requires glued ==> ws != []
  {
    if glued then [[c] + ws[0]] + ws[1..] else [[c]] + ws
  }

  /** The text starts inside a word. */
  predicate InWord(cs: seq<Chr>) {
    cs != [] && !IsBlank(cs[0])
  }

  /** The words of a text, character by character. */
  function WordsOf(cs: seq<Chr>): (ws: seq<seq<Chr>>)
    ensures InWord(cs) ==> ws != []
  {
    if cs == [] then []
    else if IsBlank(cs[0]) then WordsOf(cs[1..])
    else Attach(cs[0], InWord(cs[1..]), WordsOf(cs[1..]))
  }

  lemma {:induction false} AttachJoin(c: Chr, glued: bool, ws: seq<seq<Chr>>, zs: seq<seq<Chr>>)
    requires glued ==> ws != []
    ensures Attach(c, glued, ws + zs) == Attach(c, glued, ws) + zs
  {
    if glued {
      assert (ws + zs)[1..] == ws[1..] + zs;
    }
  }

  /** A word: not empty, without blanks. */
  predicate IsWord(w: seq<Chr>) {
    w != [] && NoBlank(w)
  }

  lemma {:induction false} WordsAreWords(cs: seq<Chr>)
    ensures forall i | 0 <= i < |WordsOf(cs)| :: IsWord(WordsOf(cs)[i])
    decreases |cs|
  {
    if cs != [] {
      WordsAreWords(cs[1..]);
    }
  }

  lemma {:induction false} WordsAreText(t: Table, cs: seq<Chr>)
    requires IsText(t, cs)
    ensures forall i | 0 <= i < |WordsOf(cs)| :: IsText(t, WordsOf(cs)[i])
    decreases |cs|
  {
    if cs != [] {
      WordsAreText(t, cs[1..]);
    }
  }

  // ---------- Cutting word lists ----------

  /** Leading blanks do not matter. */
  lemma {:induction false} WordsSkipBlanks(x: seq<Chr>, y: seq<Chr>)
    requires AllBlank(x)
    ensures WordsOf(x + y) == WordsOf(y)
    decreases |x|
  {
    if x == [] {
      assert x + y == y;
    } else {
      assert (x + y)[1..] == x[1..] + y;
      WordsSkipBlanks(x[1..], y);
    }
  }

  /** A word in front of nothing or of a blank is split off. */
  lemma {:induction false} WordsCons(w: seq<Chr>, y: seq<Chr>)
    requires IsWord(w) && (y == [] || IsBlank(y[0]))
    ensures WordsOf(w + y) == [w] + WordsOf(y)
    decreases |w|
  {
    assert (w + y)[1..] == w[1..] + y;
    if |w| == 1 {
      assert w[1..] + y == y && w == [w[0]];
    } else {
      WordsCons(w[1..], y);
      assert InWord(w[1..] + y);
      assert [w[0]] + w[1..] == w;
    }
  }

  /** Cutting a text at a blank cuts its word list. */
  lemma {:induction false} WordsJoin(x: seq<Chr>, y: seq<Chr>)
    requires x == [] || IsBlank(x[|x| - 1]) || y == [] || IsBlank(y[0])
    ensures WordsOf(x + y) == WordsOf(x) + WordsOf(y)
    decreases |x|
  {
    if x == [] {
      assert x + y == y;
    } else {
      assert (x + y)[1..] == x[1..] + y;
      WordsJoin(x[1..], y);
      if !IsBlank(x[0]) {
        assert InWord(x[1..] + y) == InWord(x[1..]);
        AttachJoin(x[0], InWord(x[1..]), WordsOf(x[1..]), WordsOf(y));
      }
    }
  }

  // ---------- Word by word ----------

  /** The first word and what follows it. */
  function FirstWord(cs: seq<Chr>): seq<Chr> {
    TakeWord(DropBlanks(cs))
  }

  function AfterWord(cs: seq<Chr>): (r: seq<Chr>)
    ensures |r| <= |cs|
  {
    DropWord(DropBlanks(cs))
  }

  lemma {:induction false} WordsUnfold(cs: seq<Chr>)
    ensures WordsOf(cs) == if DropBlanks(cs) == [] then [] else [FirstWord(cs)] + WordsOf(AfterWord(cs))
    ensures DropBlanks(cs) != [] ==> IsWord(FirstWord(cs)) && |AfterWord(cs)| < |cs|
  {
    var p := DropBlanksIsSuffix(cs);
    var u := DropBlanks(cs);
    WordsSkipBlanks(p, u);
    if u != [] {
      WordSplits(u);
      assert IsWord(TakeWord(u)) by { assert TakeWord(u)[0] == u[0]; }
      WordsCons(TakeWord(u), DropWord(u));
    }
  }

  /** What follows the first `n` words. */
  function AfterWords(cs: seq<Chr>, n: nat): (r: seq<Chr>)
    ensures |r| <= |cs|
    decreases n
  {
    if n == 0 then cs else AfterWord(AfterWords(cs, n - 1))
  }

  lemma {:induction false} AfterWordsHasRest(cs: seq<Chr>, n: nat)
    ensures WordsOf(AfterWords(cs, n)) == WordsOf(cs)[Min(n, |WordsOf(cs)|)..]
    decreases n
  {
    if n > 0 {
      AfterWordsHasRest(cs, n - 1);
      WordsUnfold(AfterWords(cs, n - 1));
    }
  }

  lemma {:induction false} AfterWordsIsText(t: Table, cs: seq<Chr>, n: nat)
    requires IsText(t, cs)
    ensures IsText(t, AfterWords(cs, n))
    decreases n
  {
    if n > 0 {
      AfterWordsIsText(t, cs, n - 1);
      TextParts(t, AfterWords(cs, n - 1));
      TextParts(t, DropBlanks(AfterWords(cs, n - 1)));
    }
  }

  lemma {:induction false} Regroup<T>(cs: seq<T>, q: seq<T>, u: seq<T>, b: seq<T>, r: seq<T>)
    requires cs == q + u && u == b + r
    ensures cs == (q + b) + r
    ensures b != [] ==> (q + b)[|q + b| - 1] == b[|b| - 1]
  {}

  lemma {:induction false} MoreWords(cs: seq<Chr>, n: nat)
    requires n < |WordsOf(cs)|
    ensures WordsOf(AfterWords(cs, n)) != []
  {
    AfterWordsHasRest(cs, n);
  }

  /** The remainder is a suffix; what precedes it ends with the last word passed. */
  lemma {:induction false} AfterWordsIsSuffix(cs: seq<Chr>, n: nat) returns (p: seq<Chr>)
    ensures cs == p + AfterWords(cs, n)
    ensures 0 < n <= |WordsOf(cs)| ==> p != [] && !IsBlank(p[|p| - 1])
    decreases n
  {
    if n == 0 {
      p := [];
    } else {
      var q := AfterWordsIsSuffix(cs, n - 1);
      var u := AfterWords(cs, n - 1);
      var b := AfterWordIsSuffix(u);
      Regroup(cs, q, u, b, AfterWord(u));
      p := q + b;
      if n <= |WordsOf(cs)| {
        MoreWords(cs, n - 1);
      }
    }
  }

  lemma {:induction false} AfterWordIsSuffix(u: seq<Chr>) returns (p: seq<Chr>)
    ensures u == p + AfterWord(u)
    ensures WordsOf(u) != [] ==> p != [] && !IsBlank(p[|p| - 1])
  {
    WordsUnfold(u);
    var b := DropBlanksIsSuffix(u);
    WordSplits(DropBlanks(u));
    p := b + FirstWord(u);
  }

  /** After at least one word the remainder is empty or starts with a blank. */
  lemma {:induction false} AfterWordsAtBlank(cs: seq<Chr>, n: nat)
    requires n > 0
    ensures AfterWords(cs, n) == [] || IsBlank(AfterWords(cs, n)[0])
  {}

  // ---------- SUBWORD and DELWORD ----------

  /** From the start of word `p` (1-based) to the end of the last of at most `n` words. */
  function SubwordOf(cs: seq<Chr>, p: nat, n: nat): seq<Chr>
    requires p > 0
  {
    var u := DropBlanks(AfterWords(cs, p - 1));
    u[..|u| - |AfterWords(u, Min(n, |WordsOf(u)|))|]
  }

  /** Without `n` words from word `p` on and the blanks after them. */
  function DelwordOf(cs: seq<Chr>, p: nat, n: nat): seq<Chr>
    requires p > 0
  {
    var v := DropBlanks(AfterWords(cs, p - 1));
    if v == [] || n == 0 then cs else cs[..|cs| - |v|] + DropBlanks(AfterWords(v, n))
  }

  lemma {:induction false} DropBlanksKeepsWords(cs: seq<Chr>)
    ensures WordsOf(DropBlanks(cs)) == WordsOf(cs)
  {
    var p := DropBlanksIsSuffix(cs);
    WordsSkipBlanks(p, DropBlanks(cs));
  }

  lemma {:induction false} NonePassed(u: seq<Chr>)
    ensures AfterWords(u, 0) == u && WordsOf([]) == []
  {}

  /** SUBWORD keeps exactly the words asked for and has no blank at either end. */
  lemma {:induction false} SubwordWords(cs: seq<Chr>, p: nat, n: nat)
    requires p > 0
    ensures var ws, sub := WordsOf(cs), SubwordOf(cs, p, n);
            && WordsOf(sub) == ws[Min(p - 1, |ws|)..Min(p - 1 + n, |ws|)]
            && (sub != [] ==> !IsBlank(sub[0]) && !IsBlank(sub[|sub| - 1]))
  {
    hide WordsOf, DropBlanks, AfterWords, IsBlank;
    var ws := WordsOf(cs);
    var u := DropBlanks(AfterWords(cs, p - 1));
    AfterWordsHasRest(cs, p - 1);
    DropBlanksKeepsWords(AfterWords(cs, p - 1));
    var m := Min(n, |WordsOf(u)|);
    var q := AfterWordsIsSuffix(u, m);
    var r := AfterWords(u, m);
    AfterWordsHasRest(u, m);
    assert u[..|u| - |r|] == q;
    if m > 0 {
      AfterWordsAtBlank(u, m);
      WordsJoin(q, r);
      assert WordsOf(u)[..m] == WordsOf(q);
    } else {
      NonePassed(u);
      assert q == [];
    }
  }

  /** The text before word `p`, blanks included, holds the words before it. */
  lemma {:induction false} FrontWords(cs: seq<Chr>, p: nat) returns (front: seq<Chr>)
    requires p > 0 && DropBlanks(AfterWords(cs, p - 1)) != []
    ensures var v := DropBlanks(AfterWords(cs, p - 1));
            && cs == front + v && (front == [] || IsBlank(front[|front| - 1]))
            && p - 1 < |WordsOf(cs)| && WordsOf(front) == WordsOf(cs)[..p - 1] && WordsOf(v) == WordsOf(cs)[p - 1..]
  {
    var r := AfterWords(cs, p - 1);
    var q := AfterWordsIsSuffix(cs, p - 1);
    var b := DropBlanksIsSuffix(r);
    var v := DropBlanks(r);
    front := q + b;
    Regroup(cs, q, r, b, v);
    if p > 1 {
      AfterWordsAtBlank(cs, p - 1);
      assert b != [];
    } else {
      assert q == [] by { assert |q| + |r| == |cs|; }
    }
    AfterWordsHasRest(cs, p - 1);
    DropBlanksKeepsWords(r);
    WordsUnfold(r);
    WordsJoin(front, v);
    ConcatCut(WordsOf(front), WordsOf(cs), p - 1);
  }

  lemma {:induction false} ConcatCut<T>(x: seq<T>, ws: seq<T>, n: nat)
    requires n <= |ws| && ws == x + ws[n..]
    ensures x == ws[..n]
  {
    assert |x| == n;
    assert ws[..n] == (x + ws[n..])[..n];
  }

  /** SUBWORD is a slice of the string: before it stand the words before word `p`, behind it those after the last one extracted. */
  lemma {:induction false} SubwordIsSlice(cs: seq<Chr>, p: nat, n: nat) returns (front: seq<Chr>, back: seq<Chr>)
    requires p > 0
    ensures cs == front + SubwordOf(cs, p, n) + back
    ensures var ws := WordsOf(cs);
            WordsOf(front) == ws[..Min(p - 1, |ws|)] && WordsOf(back) == ws[Min(p - 1 + n, |ws|)..]
  {
    hide WordsOf, DropBlanks, AfterWords, IsBlank;
    var u := DropBlanks(AfterWords(cs, p - 1));
    if u == [] {
      front, back := cs, [];
      NoneLeft(cs, p);
      assert SubwordOf(cs, p, n) == [];
      assert cs + [] + [] == cs;
    } else {
      front := FrontWords(cs, p);
      var m := Min(n, |WordsOf(u)|);
      back := AfterWords(u, m);
      var q := AfterWordsIsSuffix(u, m);
      AfterWordsHasRest(u, m);
      assert SubwordOf(cs, p, n) == q by { assert u[..|u| - |back|] == q; }
      Rejoin(cs, front, u, q, back);
      CutTwice(WordsOf(cs), p - 1, n, WordsOf(u), m);
    }
  }

  lemma {:induction false} NoneLeft(cs: seq<Chr>, p: nat)
    requires p > 0 && DropBlanks(AfterWords(cs, p - 1)) == []
    ensures |WordsOf(cs)| <= p - 1 && WordsOf([]) == []
  {
    AfterWordsHasRest(cs, p - 1);
    DropBlanksKeepsWords(AfterWords(cs, p - 1));
  }

  lemma {:induction false} Rejoin<T>(cs: seq<T>, front: seq<T>, u: seq<T>, q: seq<T>, back: seq<T>)
    requires cs == front + u && u == q + back
    ensures cs == front + q + back
  {}

  lemma {:induction false} CutTwice<T>(ws: seq<T>, k: nat, n: nat, us: seq<T>, m: nat)
    requires k <= |ws| && us == ws[k..] && m == Min(n, |us|)
    ensures us[..m] == ws[Min(k, |ws|)..Min(k + n, |ws|)] && us[m..] == ws[Min(k + n, |ws|)..]
  {}

  /**
   DELWORD cuts one piece out of the string: the words asked for and the blanks after them.
   The blanks before stay, and what follows starts with a word.
   */
  lemma {:induction false} DelwordIsCut(cs: seq<Chr>, p: nat, n: nat) returns (front: seq<Chr>, gone: seq<Chr>, back: seq<Chr>)
    requires p > 0
    ensures cs == front + gone + back && DelwordOf(cs, p, n) == front + back
    ensures var ws := WordsOf(cs);
            && WordsOf(front) == ws[..Min(p - 1, |ws|)]
            && WordsOf(gone) == ws[Min(p - 1, |ws|)..Min(p - 1 + n, |ws|)]
            && WordsOf(back) == ws[Min(p - 1 + n, |ws|)..]
    ensures (gone != [] ==> !IsBlank(gone[0])) && (back != [] ==> !IsBlank(back[0]))
    ensures front == [] || back == [] || IsBlank(front[|front| - 1])
  {
    hide WordsOf, AfterWords, IsBlank, DropBlanks;
    var v := DropBlanks(AfterWords(cs, p - 1));
    if v == [] {
      front, gone, back := cs, [], [];
      NoneLeft(cs, p);
      assert cs + [] + [] == cs;
    } else {
      hide DelwordOf;
      front := FrontWords(cs, p);
      gone, back := GoneAndBack(v, n);
      Rejoin(cs, front, v, gone, back);
      DelwordText(cs, p, n, front, v);
      CutTwice(WordsOf(cs), p - 1, n, WordsOf(v), Min(n, |WordsOf(v)|));
    }
  }

  lemma {:induction false} DelwordText(cs: seq<Chr>, p: nat, n: nat, front: seq<Chr>, v: seq<Chr>)
    requires p > 0 && v == DropBlanks(AfterWords(cs, p - 1)) && v != [] && cs == front + v
    ensures DelwordOf(cs, p, n) == front + if n == 0 then v else DropBlanks(AfterWords(v, n))
  {
    hide AfterWords, DropBlanks;
    assert cs[..|cs| - |v|] == front;
  }

  /** From the start of a word: what DELWORD takes away, and what it leaves behind that. */
  lemma {:induction false} GoneAndBack(v: seq<Chr>, n: nat) returns (gone: seq<Chr>, back: seq<Chr>)
    requires v != [] && !IsBlank(v[0])
    ensures v == gone + back && back == if n == 0 then v else DropBlanks(AfterWords(v, n))
    ensures var ws, m := WordsOf(v), Min(n, |WordsOf(v)|); WordsOf(gone) == ws[..m] && WordsOf(back) == ws[m..]
    ensures (gone != [] ==> !IsBlank(gone[0])) && (back != [] ==> !IsBlank(back[0]))
  {
    if n == 0 {
      gone, back := [], v;
      NonePassed(v);
    } else {
      var q := AfterWordsIsSuffix(v, n);
      var r := AfterWords(v, n);
      var b := DropBlanksIsSuffix(r);
      gone, back := q + b, DropBlanks(r);
      Regroup(v, q, r, b, back);
      AfterWordsHasRest(v, n);
      DropBlanksKeepsWords(r);
      AfterWordsAtBlank(v, n);
      if back == [] {
        assert gone == v;
      } else {
        assert IsBlank(b[0]) && IsBlank(gone[|gone| - 1]);
        WordsJoin(gone, back);
        ConcatCut(WordsOf(gone), WordsOf(v), Min(n, |WordsOf(v)|));
      }
    }
  }

  /** DELWORD removes exactly the words asked for. */
  lemma {:induction false} DelwordWords(cs: seq<Chr>, p: nat, n: nat)
    requires p > 0
    ensures var ws := WordsOf(cs);
            WordsOf(DelwordOf(cs, p, n)) == ws[..Min(p - 1, |ws|)] + ws[Min(p - 1 + n, |ws|)..]
  {
    var front, gone, back := DelwordIsCut(cs, p, n);
    WordsJoin(front, back);
  }

  /** SUBWORD and DELWORD partition the words: what one returns is what the other leaves out. */
  lemma {:induction false} WordsPartition(cs: seq<Chr>, p: nat, n: nat)
    requires p > 0
    ensures var del, sub := WordsOf(DelwordOf(cs, p, n)), WordsOf(SubwordOf(cs, p, n));
            var k := Min(p - 1, |del|);
            WordsOf(cs) == del[..k] + sub + del[k..]
  {
    SubwordWords(cs, p, n);
    DelwordWords(cs, p, n);
  }

  // ---------- SPACE ----------

  /** The words with `gap` between each two. */
  function JoinWords(ws: seq<seq<Chr>>, gap: seq<Chr>): seq<Chr> {
    if ws == [] then [] else if |ws| == 1 then ws[0] else ws[0] + (gap + JoinWords(ws[1..], gap))
  }

  function SpaceOf(cs: seq<Chr>, n: nat, pad: Chr): seq<Chr> {
    JoinWords(WordsOf(cs), Pads(pad, n))
  }

  lemma {:induction false} JoinWordsKeepsWords(ws: seq<seq<Chr>>, gap: seq<Chr>)
    requires (forall i | 0 <= i < |ws| :: IsWord(ws[i])) && gap != [] && AllBlank(gap)
    ensures WordsOf(JoinWords(ws, gap)) == ws
    decreases |ws|
  {
    if |ws| == 1 {
      WordsCons(ws[0], []);
      assert ws[0] + [] == ws[0] && ws == [ws[0]];
    } else if ws != [] {
      JoinWordsKeepsWords(ws[1..], gap);
      WordsSkipBlanks(gap, JoinWords(ws[1..], gap));
      WordsCons(ws[0], gap + JoinWords(ws[1..], gap));
      assert ws == [ws[0]] + ws[1..];
    }
  }

  /** SPACE with a blank pad and a positive count keeps the words and has nothing left to do the second time. */
  lemma {:induction false} SpaceKeepsWords(cs: seq<Chr>, n: nat, pad: Chr)
    requires n > 0 && IsBlank(pad)
    ensures WordsOf(SpaceOf(cs, n, pad)) == WordsOf(cs)
    ensures SpaceOf(SpaceOf(cs, n, pad), n, pad) == SpaceOf(cs, n, pad)
  {
    WordsAreWords(cs);
    JoinWordsKeepsWords(WordsOf(cs), Pads(pad, n));
  }

  /** Every gap between words, whatever its blanks, becomes exactly `n` pads, for any pad and also for none. */
  lemma {:induction false} SpaceFillsGap(w: seq<Chr>, b: seq<Chr>, y: seq<Chr>, n: nat, pad: Chr)
    requires IsWord(w) && b != [] && AllBlank(b) && WordsOf(y) != []
    ensures SpaceOf(w + b + y, n, pad) == w + Pads(pad, n) + SpaceOf(y, n, pad)
  {
    assert w + b + y == w + (b + y);
    WordsCons(w, b + y);
    WordsSkipBlanks(b, y);
    var ws := [w] + WordsOf(y);
    assert ws[1..] == WordsOf(y);
  }

  /** Blanks at the ends disappear: a single word is left alone, and nothing is left of nothing but blanks. */
  lemma {:induction false} SpaceDropsEnds(a: seq<Chr>, w: seq<Chr>, b: seq<Chr>, cs: seq<Chr>, n: nat, pad: Chr)
    requires AllBlank(a) && IsWord(w) && AllBlank(b)
    ensures SpaceOf(a + cs, n, pad) == SpaceOf(cs, n, pad) == SpaceOf(cs + b, n, pad)
    ensures SpaceOf(a + w + b, n, pad) == w
    ensures SpaceOf(a, n, pad) == []
  {
    WordsSkipBlanks(a, cs);
    WordsOfBlanks(a);
    WordsOfBlanks(b);
    WordsJoin(cs, b);
    assert WordsOf(cs) + [] == WordsOf(cs);
    assert a + w + b == a + (w + b);
    WordsSkipBlanks(a, w + b);
    WordsCons(w, b);
  }

  lemma {:induction false} WordsOfBlanks(b: seq<Chr>)
    requires AllBlank(b)
    ensures WordsOf(b) == []
  {
    WordsSkipBlanks(b, []);
    assert b + [] == b;
  }
}
