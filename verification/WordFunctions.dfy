/** The word functions as cursor loops over bytes. */
module WordFunctions {
  import opened MixedStrings
  import opened Cursors
  import opened Buffers
  import opened Words

  /**
   Find the next word: returns the slice that starts with it, its length in bytes (0 if
   there is none) and the slice after it.
   */
  method NextWord(t: Table, str: seq<Octet>, ghost cs: seq<Chr>) returns (at: seq<Octet>, wordLength: nat, rest: seq<Octet>)
    requires IsText(t, cs) && str == Encode(cs)
    ensures at == Encode(DropBlanks(cs)) && rest == Encode(AfterWord(cs))
    ensures wordLength == |Encode(FirstWord(cs))| <= |at| && at[..wordLength] == Encode(FirstWord(cs))
    ensures wordLength == 0 <==> WordsOf(cs) == []
  {
    at, wordLength, rest := str, 0, [];
    TextParts(t, cs);
    WordsUnfold(cs);
    ghost var u := DropBlanks(cs);
    WordSplits(u);
    EncodeJoin(TakeWord(u), DropWord(u));
    EncodeEmpty(cs);
    EncodeEmpty(u);
    EncodeEmpty(TakeWord(u));
    if str != [] {
      at := SkipBlanks(t, str, cs);
      if at != [] {
        rest := SkipNonBlanks(t, at, u);
        wordLength := |at| - |rest|;
      }
    }
  }

  /** Number of words. */
  method WordLen(t: Table, str: seq<Octet>, ghost cs: seq<Chr>) returns (count: nat)
    requires IsText(t, cs) && str == Encode(cs)
    ensures count == |WordsOf(cs)|
  {
    count := 0;
    if str == [] {
      EncodeEmpty(cs);
      return;
    }
    TextParts(t, cs);
    DropBlanksKeepsWords(cs);
    var scan := SkipBlanks(t, str, cs);
    ghost var c := DropBlanks(cs);
    while scan != []
      invariant IsText(t, c) && scan == Encode(c) && (c != [] ==> !IsBlank(c[0]))
      invariant count + |WordsOf(c)| == |WordsOf(cs)|
      decreases |c|
    {
      EncodeEmpty(c);
      WordsUnfold(c);
      TextParts(t, c);
      TextParts(t, DropWord(c));
      DropBlanksKeepsWords(DropWord(c));
      count := count + 1;
      scan := SkipNonBlanks(t, scan, c);
      scan := SkipBlanks(t, scan, DropWord(c));
      c := DropBlanks(DropWord(c));
    }
    EncodeEmpty(c);
  }

  // ---------- WORDPOS ----------

  /** A cursor on a word: its bytes' slice, its length (0 past the last word) and the slice after it. */
  datatype Cursor = Cursor(at: seq<Octet>, length: nat, next: seq<Octet>)

  /** The cursor is on word `i` (0-based) of `cs`. */
  ghost predicate OnWord(cs: seq<Chr>, i: nat, c: Cursor) {
    && c.next == Encode(AfterWords(cs, i + 1))
    && c.length <= |c.at|
    && (if i < |WordsOf(cs)| then c.length > 0 && c.at[..c.length] == Encode(WordsOf(cs)[i]) else c.length == 0)
  }

  /** Scan from `next` on to word `i`. */
  method StepTo(t: Table, next: seq<Octet>, ghost cs: seq<Chr>, ghost i: nat) returns (c: Cursor)
    requires IsText(t, cs) && next == Encode(AfterWords(cs, i))
    ensures OnWord(cs, i, c)
  {
    AfterWordsIsText(t, cs, i);
    AfterWordsHasRest(cs, i);
    WordsUnfold(AfterWords(cs, i));
    var at, length, next' := NextWord(t, next, AfterWords(cs, i));
    c := Cursor(at, length, next');
  }

  /** Scan on from word `i` to the next. */
  method StepOn(t: Table, c: Cursor, ghost cs: seq<Chr>, ghost i: nat) returns (next: Cursor)
    requires IsText(t, cs) && OnWord(cs, i, c)
    ensures OnWord(cs, i + 1, next)
  {
    next := StepTo(t, c.next, cs, i + 1);
  }

  /** The phrase's words occur from word `i` (0-based) on. */
  predicate PhraseAt(ws: seq<seq<Chr>>, phrase: seq<seq<Chr>>, i: nat) {
    i + |phrase| <= |ws| && ws[i..i + |phrase|] == phrase
  }

  lemma {:induction false} NoRoomForPhrase(ws: seq<seq<Chr>>, phrase: seq<seq<Chr>>)
    ensures forall i: nat | i + |phrase| > |ws| :: !PhraseAt(ws, phrase, i)
  {}

  lemma {:induction false} PhraseAtPointwise(ws: seq<seq<Chr>>, phrase: seq<seq<Chr>>, i: nat)
    requires i + |phrase| <= |ws|
    ensures PhraseAt(ws, phrase, i) <==> forall m | 0 <= m < |phrase| :: ws[i + m] == phrase[m]
  {
    var slice := ws[i..i + |phrase|];
    assert forall m | 0 <= m < |phrase| :: slice[m] == ws[i + m];
  }

  /** Compare word by word, stopping at the first difference. */
  method ComparePhrase(t: Table, needleWords: nat, haystack: Cursor, ghost hs: seq<Chr>, ghost h: nat,
                       needle: Cursor, ghost ns: seq<Chr>) returns (matched: bool)
    requires IsText(t, hs) && IsText(t, ns) && needleWords == |WordsOf(ns)| && h + needleWords <= |WordsOf(hs)|
    requires OnWord(hs, h, haystack) && OnWord(ns, 0, needle)
    ensures matched <==> PhraseAt(WordsOf(hs), WordsOf(ns), h)
  {
    hide IsText, WordsOf, Encode, AfterWords;
    ghost var ws, phrase := WordsOf(hs), WordsOf(ns);
    var haystackPosition, needlePosition := haystack, needle;
    var i := needleWords;
    ghost var k := 0;
    while i != 0
      invariant k + i == needleWords && forall m | 0 <= m < k :: ws[h + m] == phrase[m]
      invariant OnWord(hs, h + k, haystackPosition) && OnWord(ns, k, needlePosition)
      decreases i
    {
      SameWord(t, hs, h + k, haystackPosition, ns, k, needlePosition);
      if haystackPosition.length != needlePosition.length ||
         needlePosition.at[..needlePosition.length] != haystackPosition.at[..needlePosition.length] {
        break;
      }
      haystackPosition := StepOn(t, haystackPosition, hs, h + k);
      needlePosition := StepOn(t, needlePosition, ns, k);
      i, k := i - 1, k + 1;
    }
    PhraseAtPointwise(ws, phrase, h);
    matched := i == 0;
  }

  /** Equal length and equal bytes mean equal words. */
  lemma {:induction false} SameWord(t: Table, hs: seq<Chr>, h: nat, hc: Cursor, ns: seq<Chr>, n: nat, nc: Cursor)
    requires IsText(t, hs) && IsText(t, ns) && h < |WordsOf(hs)| && n < |WordsOf(ns)|
    requires OnWord(hs, h, hc) && OnWord(ns, n, nc)
    ensures WordsOf(hs)[h] == WordsOf(ns)[n] <==> hc.length == nc.length && nc.at[..nc.length] == hc.at[..nc.length]
  {
    WordsAreText(t, hs);
    WordsAreText(t, ns);
    EncodeInjective(t, WordsOf(hs)[h], WordsOf(ns)[n]);
  }

  /** Word position of a phrase from word `start` (1-based) on, or 0. */
  method WordPos(t: Table, s: seq<Octet>, p: seq<Octet>, start: nat) returns (position: nat)
    requires Valid(t, s) && Valid(t, p) && start > 0
    ensures var ws, phrase := WordsOf(Decode(t, s)), WordsOf(Decode(t, p));
            && (position == 0 <==> phrase == [] || forall i: nat | start - 1 <= i :: !PhraseAt(ws, phrase, i))
            && (position > 0 ==> start <= position && PhraseAt(ws, phrase, position - 1))
            && (position > 0 ==> forall i: nat | start - 1 <= i < position - 1 :: !PhraseAt(ws, phrase, i))
  {
    ghost var hs := TextOf(t, s);
    ghost var ns := TextOf(t, p);
    var haystackWords: int := WordLen(t, s, hs);
    var needleWords := WordLen(t, p, ns);
    if needleWords > haystackWords - start + 1 || needleWords == 0 || start > haystackWords {
      return 0;
    }
    position := SearchPhrase(t, s, p, start, haystackWords, needleWords, hs, ns);
  }

  /** The search proper, when the phrase is not empty and there is room for it. */
  method SearchPhrase(t: Table, s: seq<Octet>, p: seq<Octet>, start: nat, haystackWords: nat, needleWords: nat,
                      ghost hs: seq<Chr>, ghost ns: seq<Chr>) returns (position: nat)
    requires IsText(t, hs) && IsText(t, ns) && s == Encode(hs) && p == Encode(ns)
    requires haystackWords == |WordsOf(hs)| && needleWords == |WordsOf(ns)|
    requires 0 < start && start - 1 + needleWords <= haystackWords
    ensures var ws, phrase := WordsOf(hs), WordsOf(ns);
            && (position == 0 ==> forall i: nat | start - 1 <= i :: !PhraseAt(ws, phrase, i))
            && (position > 0 ==> start <= position && PhraseAt(ws, phrase, position - 1))
            && (position > 0 ==> forall i: nat | start - 1 <= i < position - 1 :: !PhraseAt(ws, phrase, i))
  {
    NonePassed(hs);
    NonePassed(ns);
    hide IsText, WordsOf, Encode, AfterWords, OnWord, PhraseAt;
    ghost var ws, phrase := WordsOf(hs), WordsOf(ns);
    var haystack := StepTo(t, s, hs, 0);
    var i: nat := start - 1;
    ghost var h := 0;
    while i != 0
      invariant h + i == start - 1 && OnWord(hs, h, haystack)
    {
      haystack := StepOn(t, haystack, hs, h);
      i, h := i - 1, h + 1;
    }
    var count := start;
    var searchCount: nat := haystackWords + 2 - needleWords - count;
    var needle := StepTo(t, p, ns, 0);
    while searchCount != 0
      invariant start <= count && searchCount + needleWords + count == haystackWords + 2
      invariant OnWord(hs, count - 1, haystack)
      invariant forall i: nat | start - 1 <= i < count - 1 :: !PhraseAt(ws, phrase, i)
      decreases searchCount
    {
      var matched := ComparePhrase(t, needleWords, haystack, hs, count - 1, needle, ns);
      if matched {
        break;
      }
      haystack := StepOn(t, haystack, hs, count - 1);
      count := count + 1;
      searchCount := searchCount - 1;
    }
    NoRoomForPhrase(ws, phrase);
    position := if searchCount != 0 then count else 0;
  }

  // ---------- SUBWORD, DELWORD, SPACE ----------

  /** Step over the words before word `p`; the result is at word `p`, or empty. */
  method LeadingWords(t: Table, s: seq<Octet>, p: nat, ghost cs: seq<Chr>) returns (scan: seq<Octet>)
    requires IsText(t, cs) && s == Encode(cs) && p > 0
    ensures scan == Encode(DropBlanks(AfterWords(cs, p - 1)))
  {
    scan := s;
    var startPos := p;
    ghost var k := 0;
    ghost var c := cs;
    while scan != []
      invariant k + startPos == p && startPos > 0 && scan == Encode(c) && IsText(t, c)
      invariant DropBlanks(c) == DropBlanks(AfterWords(cs, k))
      invariant c == [] ==> DropBlanks(AfterWords(cs, p - 1)) == []
      decreases |scan| + startPos
    {
      TextParts(t, c);
      EncodeEmpty(DropBlanks(c));
      EncodeShrinks(c);
      scan := SkipBlanks(t, scan, c);
      c := DropBlanks(c);
      if scan != [] {
        startPos := startPos - 1;
        if startPos == 0 {
          return;
        }
        TextParts(t, c);
        EncodeShrinks(c);
        scan := SkipNonBlanks(t, scan, c);
        c := DropWord(c);
        k := k + 1;
        EncodeEmpty(c);
      }
      if c == [] {
        NothingAfterEmpty(cs, k, p - 1);
      }
    }
    EncodeEmpty(c);
  }

  lemma {:induction false} EncodeShrinks(c: seq<Chr>)
    ensures |Encode(DropBlanks(c))| <= |Encode(c)| && |Encode(DropWord(c))| <= |Encode(c)|
  {
    var p := DropBlanksIsSuffix(c);
    EncodeJoin(p, DropBlanks(c));
    WordSplits(c);
    EncodeJoin(TakeWord(c), DropWord(c));
  }

  lemma {:induction false} NothingAfterEmpty(cs: seq<Chr>, k: nat, n: nat)
    requires k <= n && DropBlanks(AfterWords(cs, k)) == []
    ensures DropBlanks(AfterWords(cs, n)) == []
    decreases n
  {
    if k < n {
      NothingAfterEmpty(cs, k, n - 1);
    }
  }

  /** The slice of `n` words from word `p` on. */
  method SubWord(t: Table, s: seq<Octet>, p: nat, n: nat) returns (result: seq<Octet>)
    requires Valid(t, s) && p > 0
    ensures result == Encode(SubwordOf(Decode(t, s), p, n))
  {
    ghost var cs := TextOf(t, s);
    ghost var u := DropBlanks(AfterWords(cs, p - 1));
    AfterWordsIsText(t, cs, p - 1);
    TextParts(t, AfterWords(cs, p - 1));
    EncodeEmpty(u);
    if s == [] || n == 0 {
      EncodeEmpty(cs);
      NothingAfterEmpty([], 0, p - 1);
      return [];
    }
    var scan := LeadingWords(t, s, p, cs);
    if scan == [] {
      return [];
    }
    var wordPtr := WordsToCopy(t, scan, n, u);
    ghost var r := AfterWords(u, Min(n, |WordsOf(u)|));
    ghost var q := AfterWordsIsSuffix(u, Min(n, |WordsOf(u)|));
    assert u[|u| - |r|..] == r;
    EncodeSplit(u, |u| - |r|);
    var wordLength := |scan| - |wordPtr|;
    result := scan[..wordLength];
  }

  /** Pass at most `n` words; `wordPtr` is where the last one passed ends. */
  method WordsToCopy(t: Table, subwordPtr: seq<Octet>, n: nat, ghost u: seq<Chr>) returns (wordPtr: seq<Octet>)
    requires IsText(t, u) && subwordPtr == Encode(u) && DropBlanks(u) == u
    ensures wordPtr == Encode(AfterWords(u, Min(n, |WordsOf(u)|)))
  {
    wordPtr := subwordPtr;
    var scan := subwordPtr;
    var subwordSize: nat := n;
    ghost var m := 0;
    while scan != [] && subwordSize != 0
      invariant m + subwordSize == n && m <= |WordsOf(u)|
      invariant wordPtr == Encode(AfterWords(u, m)) && scan == Encode(DropBlanks(AfterWords(u, m)))
      decreases subwordSize
    {
      ghost var r := AfterWords(u, m);
      OneMoreWord(t, u, m);
      scan := SkipNonBlanks(t, scan, DropBlanks(r));
      wordPtr := scan;
      subwordSize := subwordSize - 1;
      m := m + 1;
      EncodeEmpty(AfterWords(u, m));
      if scan != [] {
        scan := SkipBlanks(t, scan, AfterWords(u, m));
      }
    }
    WordsLeft(u, m);
  }

  lemma {:induction false} OneMoreWord(t: Table, u: seq<Chr>, m: nat)
    requires IsText(t, u) && Encode(DropBlanks(AfterWords(u, m))) != []
    ensures IsText(t, DropBlanks(AfterWords(u, m))) && IsText(t, AfterWords(u, m + 1)) && m < |WordsOf(u)|
  {
    AfterWordsIsText(t, u, m);
    AfterWordsIsText(t, u, m + 1);
    TextParts(t, AfterWords(u, m));
    WordsLeft(u, m);
  }

  lemma {:induction false} WordsLeft(u: seq<Chr>, m: nat)
    ensures Encode(DropBlanks(AfterWords(u, m))) == [] <==> |WordsOf(u)| <= m
  {
    EncodeEmpty(DropBlanks(AfterWords(u, m)));
    AfterWordsHasRest(u, m);
    WordsUnfold(AfterWords(u, m));
  }

  /** The string without `n` words from word `p` on; the blanks before word `p` stay, those after the deleted words go. */
  method DelWord(t: Table, s: seq<Octet>, p: nat, n: nat) returns (result: seq<Octet>)
    requires Valid(t, s) && p > 0
    ensures result == Encode(DelwordOf(Decode(t, s), p, n))
  {
    ghost var cs := TextOf(t, s);
    if s == [] {
      EncodeEmpty(cs);
      NothingAfterEmpty([], 0, p - 1);
      return [];
    }
    if n == 0 {
      return s;
    }
    hide IsText, AfterWords, WordsOf, Encode, DropBlanks, Valid, Decode;
    var scan := FrontPart(t, s, p, cs);
    ghost var v := DropBlanks(AfterWords(cs, p - 1));
    EncodeEmpty(v);
    if scan == [] {
      return s;
    }
    AfterWordsIsText(t, cs, p - 1);
    TextParts(t, AfterWords(cs, p - 1));
    var frontLength := |s| - |scan|;
    var backStart := SkipWords(t, scan, n, v);
    DelwordBytes(cs, p, n);
    result := JoinSlices(s[..frontLength], backStart);
  }

  lemma {:induction false} DelwordBytes(cs: seq<Chr>, p: nat, n: nat)
    requires p > 0 && n > 0 && DropBlanks(AfterWords(cs, p - 1)) != []
    ensures var v := DropBlanks(AfterWords(cs, p - 1));
            && |Encode(v)| <= |Encode(cs)|
            && Encode(DelwordOf(cs, p, n)) == Encode(cs)[..|Encode(cs)| - |Encode(v)|] + Encode(DropBlanks(AfterWords(v, n)))
  {
    var v := DropBlanks(AfterWords(cs, p - 1));
    var front := FrontWords(cs, p);
    assert cs[..|cs| - |v|] == front && cs[|cs| - |v|..] == v;
    EncodeSplit(cs, |cs| - |v|);
    EncodeJoin(front, DropBlanks(AfterWords(v, n)));
  }

  /** Step over the words before word `p` and the blanks that follow them. */
  method FrontPart(t: Table, s: seq<Octet>, p: nat, ghost cs: seq<Chr>) returns (scan: seq<Octet>)
    requires IsText(t, cs) && s == Encode(cs) && p > 0
    ensures scan == Encode(DropBlanks(AfterWords(cs, p - 1)))
  {
    scan := s;
    var startPos := p - 1;
    ghost var k := 0;
    while startPos != 0 && scan != []
      invariant k + startPos == p - 1 && scan == Encode(AfterWords(cs, k))
      decreases startPos
    {
      ghost var r := AfterWords(cs, k);
      AfterWordsIsText(t, cs, k);
      TextParts(t, r);
      scan := SkipBlanks(t, scan, r);
      EncodeEmpty(DropBlanks(r));
      if scan != [] {
        scan := SkipNonBlanks(t, scan, DropBlanks(r));
      }
      startPos, k := startPos - 1, k + 1;
    }
    AfterWordsIsText(t, cs, k);
    if startPos != 0 {
      EncodeEmpty(AfterWords(cs, k));
      NothingAfterEmpty(cs, k, p - 1);
    }
    scan := SkipBlanks(t, scan, AfterWords(cs, k));
  }

  /** Skip `n` words and the blanks around them. */
  method SkipWords(t: Table, str: seq<Octet>, n: nat, ghost v: seq<Chr>) returns (scan: seq<Octet>)
    requires IsText(t, v) && str == Encode(v)
    ensures scan == Encode(DropBlanks(AfterWords(v, n))) && IsText(t, DropBlanks(AfterWords(v, n)))
  {
    scan := str;
    var deleteSize := n;
    ghost var m := 0;
    while scan != [] && deleteSize != 0
      invariant m + deleteSize == n && scan == Encode(AfterWords(v, m))
      decreases deleteSize
    {
      ghost var r := AfterWords(v, m);
      AfterWordsIsText(t, v, m);
      TextParts(t, r);
      scan := SkipBlanks(t, scan, r);
      scan := SkipNonBlanks(t, scan, DropBlanks(r));
      deleteSize, m := deleteSize - 1, m + 1;
    }
    AfterWordsIsText(t, v, m);
    AfterWordsIsText(t, v, n);
    TextParts(t, AfterWords(v, m));
    TextParts(t, AfterWords(v, n));
    if deleteSize != 0 {
      EncodeEmpty(AfterWords(v, m));
      NothingAfterEmpty(v, m, n);
    }
    scan := SkipBlanks(t, scan, AfterWords(v, m));
  }

  /** Total bytes of a list of words. */
  ghost function ByteSum(ws: seq<seq<Chr>>): nat {
    if ws == [] then 0 else |Encode(ws[0])| + ByteSum(ws[1..])
  }

  lemma {:induction false} OneMore(n: nat, g: nat)
    ensures (n + 1) * g == n * g + g
  {}

  lemma {:induction false} JoinLength(ws: seq<seq<Chr>>, gap: seq<Chr>)
    requires ws != []
    ensures |Encode(JoinWords(ws, gap))| == ByteSum(ws) + (|ws| - 1) * |Encode(gap)|
    decreases |ws|
  {
    if |ws| > 1 {
      JoinLength(ws[1..], gap);
      JoinStep(ws, gap);
      OneMore(|ws| - 2, |Encode(gap)|);
    } else {
      assert ws[1..] == [];
    }
  }

  /** First pass: the number of words and their total length. */
  method CountWords(t: Table, s: seq<Octet>, ghost cs: seq<Chr>) returns (count: nat, wordSize: nat)
    requires IsText(t, cs) && s == Encode(cs)
    ensures count == |WordsOf(cs)| && wordSize == ByteSum(WordsOf(cs))
  {
    ghost var ws := WordsOf(cs);
    count, wordSize := 0, 0;
    var word := StepTo(t, s, cs, 0);
    while word.length != 0
      invariant count <= |ws| && OnWord(cs, count, word)
      invariant wordSize + ByteSum(ws[count..]) == ByteSum(ws)
      decreases |ws| - count
    {
      assert ws[count..][0] == ws[count] && ws[count..][1..] == ws[count + 1..];
      wordSize := wordSize + word.length;
      count := count + 1;
      word := StepTo(t, word.next, cs, count);
    }
  }

  /** The words with `spaces` pad characters between them. */
  method Space(t: Table, s: seq<Octet>, spaces: nat, pad: Chr) returns (result: seq<Octet>)
    requires Valid(t, s) && IsChr(t, pad)
    ensures result == Encode(SpaceOf(Decode(t, s), spaces, pad))
  {
    ghost var cs := TextOf(t, s);
    ghost var ws, gap := WordsOf(cs), Pads(pad, spaces);
    var count, wordSize := CountWords(t, s, cs);
    if count == 0 {
      return [];
    }
    var padSize := |Bytes(pad)|;
    count := count - 1;
    JoinLength(ws, gap);
    PadsLength(pad, spaces);
    var buffer := new Octet[wordSize + count * (spaces * padSize)];
    FillSpaced(t, s, spaces, pad, count, buffer, cs);
    result := buffer[..];
  }

  /** Second pass: copy word and gap, word and gap, and the last word. */
  method FillSpaced(t: Table, s: seq<Octet>, spaces: nat, pad: Chr, gaps: nat, buffer: array<Octet>, ghost cs: seq<Chr>)
    requires IsText(t, cs) && s == Encode(cs) && IsChr(t, pad)
    requires gaps + 1 == |WordsOf(cs)| && buffer.Length == |Encode(SpaceOf(cs, spaces, pad))|
    modifies buffer
    ensures buffer[..] == Encode(SpaceOf(cs, spaces, pad))
  {
    ghost var ws, gap, all := WordsOf(cs), Pads(pad, spaces), Encode(SpaceOf(cs, spaces, pad));
    var current: nat := 0;
    var count := gaps;
    ghost var k, done := 0, [];
    var word := StepTo(t, s, cs, 0);
    assert ws[0..] == ws && done + all == all;
    while count != 0
      invariant k + count == gaps && OnWord(cs, k, word)
      invariant current == |done| <= buffer.Length && buffer[..current] == done
      invariant done + Encode(JoinWords(ws[k..], gap)) == all
      decreases count
    {
      SpaceStep(ws, k, gap, done, all);
      done := done + (Encode(ws[k]) + Encode(gap));
      current := PutPadded(buffer, current, word.at[..word.length], spaces, pad);
      count, k := count - 1, k + 1;
      word := StepTo(t, word.next, cs, k);
    }
    assert ws[k..] == [ws[k]];
    MemCpy(buffer, current, word.at[..word.length]);
    assert buffer[..buffer.Length] == buffer[..];
  }

  /** One more word and gap are done. */
  lemma {:induction false} SpaceStep(ws: seq<seq<Chr>>, k: nat, gap: seq<Chr>, done: seq<Octet>, all: seq<Octet>)
    requires k + 1 < |ws| && done + Encode(JoinWords(ws[k..], gap)) == all
    ensures (done + (Encode(ws[k]) + Encode(gap))) + Encode(JoinWords(ws[k + 1..], gap)) == all
    ensures |done| + |Encode(ws[k])| + |Encode(gap)| <= |all|
  {
    JoinStep(ws[k..], gap);
    assert ws[k..][1..] == ws[k + 1..];
  }

  lemma {:induction false} JoinStep(ws: seq<seq<Chr>>, gap: seq<Chr>)
    requires |ws| > 1
    ensures Encode(JoinWords(ws, gap)) == (Encode(ws[0]) + Encode(gap)) + Encode(JoinWords(ws[1..], gap))
  {
    EncodeJoin(ws[0], gap + JoinWords(ws[1..], gap));
    EncodeJoin(gap, JoinWords(ws[1..], gap));
  }
}
