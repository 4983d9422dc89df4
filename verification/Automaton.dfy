/**
 The regular-expression engine as it runs: a one-pass parser that writes states into
 growing arrays, and a matcher that explores them level by level through a queue.
 */
module Engine {
  import opened Bytes
  import opened Patterns
  import opened Nfa
  import opened Compiler
  import opened Closed
  import opened Settle
  import opened Simulation
  import opened Reading
  import opened Syntax
  import opened Writing
  import opened Failures
  import DQ = DoubleQueue

  datatype Option<T> = None | Some(value: T)

  function ErrorCode(e: Error): int {
    match e
    case UnexpectedSymbol => 1
    case MissingParenClose => 2
    case IllegalSet => 3
    case UnexpectedEop => 4
    case IllegalNumber => 5
    case IllegalSymbolicName => 6
    case Diverges => -1
  }

  /** What is left of the automaton after a failed parse: the start state is the end of the pattern. */
  function MatchAnything(sets: seq<seq<Byte>>): Nfa {
    Nfa([Cell(Eps, EOP, EOP)], sets)
  }

  /** After a failed parse every subject is accepted before its first character is read, in either mode. */
  lemma {:induction false} MatchAnythingAccepts(sets: seq<seq<Byte>>, minimal: bool, a: seq<Byte>, len: nat, found: bool, pos: nat)
    requires len <= |a|
    ensures var m := MatchAnything(sets); Explorable(m) && Settled(m, 0)
    ensures var m := MatchAnything(sets); Accepts(m, a, len, m.cells[0].next1, 0, 0)
    ensures var m := MatchAnything(sets);
            Verdict(m, Horizon(minimal, len), a, len, m.cells[0].next1, found, pos) <==> found && pos == 0
  {
    var m := MatchAnything(sets);
    var s := m.cells[0].next1;
    assert Run(m, a, len, s, 0, 0, 0);
    assert FirstAccept(m, a, len, s, 0);
  }

  /** checkRange: whether `c` is not yet among the characters collected. */
  method CheckRange(range: seq<Byte>, c: Byte) returns (isNew: bool)
    ensures isNew <==> c !in range
  {
    isNew := true;
    var i := 0;
    while i < |range|
      invariant 0 <= i <= |range| && isNew
      invariant c !in range[..i]
    {
      if range[i] == c {
        isNew := false;
        break;
      }
      i := i + 1;
    }
  }

  /** realloc to a larger size. */
  method Reallocated<T(0)>(a: array<T>, n: nat) returns (b: array<T>)
    requires a.Length <= n
    ensures fresh(b) && b.Length == n
    ensures forall i | 0 <= i < a.Length :: b[i] == a[i]
  {
    b := new T[n];
    forall i | 0 <= i < a.Length { b[i] := a[i]; }
  }

  /** Add the characters of a class that are not there yet. */
  method AddClass(range: seq<Byte>, members: seq<Byte>) returns (range': seq<Byte>)
    ensures range' == AddAll(range, members)
  {
    range' := range;
    var j := 0;
    while j < |members|
      invariant 0 <= j <= |members|
      invariant AddAll(range', members[j..]) == AddAll(range, members)
    {
      assert members[j..][0] == members[j] && members[j..][1..] == members[j + 1..];
      var isNew := CheckRange(range', members[j]);
      if isNew {
        range' := range' + [members[j]];
      }
      j := j + 1;
    }
    assert members[j..] == [];
  }

  class Automaton {
    const classes: map<seq<Byte>, seq<Byte>>
    var ch: array<Op>
    var next1: array<nat>
    var next2: array<nat>
    var final: int
    var regexp: seq<Byte>
    var setArray: seq<seq<Byte>>
    var size: nat
    var freeState: nat
    var currentPos: nat
    var minimal: bool

    ghost predicate Allocated()
      reads this
    {
      ch.Length == next1.Length == next2.Length == size && size > 0 && next1 != next2
    }

    /** The arrays agree with every written cell of `b`; what reserved cells hold is left open. */
    ghost predicate Holds(b: Nfa)
      reads this, ch, next1, next2
    {
      && Allocated() && setArray == b.sets
      && forall i | 0 <= i < |b.cells| && b.cells[i].Cell? ::
           i < size && b.cells[i] == Cell(ch[i], next1[i], next2[i])
    }

    /** In the middle of a parse that has emitted `b`. */
    ghost predicate Emitted(b: Nfa)
      reads this, ch, next1, next2
    {
      Holds(b) && freeState == |b.cells| && freeState > 0 && currentPos <= |regexp|
    }

    constructor (classes: map<seq<Byte>, seq<Byte>>)
      ensures Allocated() && fresh(ch) && fresh(next1) && fresh(next2)
      ensures final == -1 && !minimal && this.classes == classes && setArray == []
    {
      this.classes := classes;
      ch, next1, next2 := new Op[16], new nat[16], new nat[16];
      size := 16;
      final := -1;
      regexp, setArray := [], [];
      freeState, currentPos, minimal := 1, 0, false;
    }

    /** Enlarge the arrays until `position` can be written. */
    method Grow(position: nat)
      requires Allocated()
      modifies this`ch, this`next1, this`next2, this`size
      ensures Allocated() && position < size && old(size) <= size
      ensures (fresh(ch) && fresh(next1) && fresh(next2)) || (ch == old(ch) && next1 == old(next1) && next2 == old(next2))
      ensures forall i | 0 <= i < old(size) ::
                ch[i] == old(ch[i]) && next1[i] == old(next1[i]) && next2[i] == old(next2[i])
    {
      while size <= position
        invariant Allocated() && old(size) <= size
        invariant (fresh(ch) && fresh(next1) && fresh(next2)) || (ch == old(ch) && next1 == old(next1) && next2 == old(next2))
        invariant forall i | 0 <= i < old(size) ::
                    ch[i] == old(ch[i]) && next1[i] == old(next1[i]) && next2[i] == old(next2[i])
        decreases position - size
      {
        var newCh := Reallocated(ch, 2 * size);
        var newNext1 := Reallocated(next1, 2 * size);
        var newNext2 := Reallocated(next2, 2 * size);
        ch, next1, next2, size := newCh, newNext1, newNext2, 2 * size;
      }
    }

    /** Insert a state, enlarging the arrays as needed. `b` is what the arrays hold so far. */
    method SetState(position: nat, transition: Op, state1: nat, state2: nat, ghost b: Nfa)
      requires Holds(b) && position <= |b.cells|
      modifies this`ch, this`next1, this`next2, this`size, ch, next1, next2
      ensures Holds(if position == |b.cells| then Emit(b, Cell(transition, state1, state2))
                    else Fill(b, position, Cell(transition, state1, state2)))
      ensures position < size && old(size) <= size
      ensures fresh(ch) || ch == old(ch)
      ensures fresh(next1) || next1 == old(next1)
      ensures fresh(next2) || next2 == old(next2)
      ensures ch[position] == transition && next1[position] == state1 && next2[position] == state2
      ensures forall i | 0 <= i < old(size) && i != position ::
                ch[i] == old(ch[i]) && next1[i] == old(next1[i]) && next2[i] == old(next2[i])
    {
      Grow(position);
      ch[position] := transition;
      next1[position] := state1;
      next2[position] := state2;
    }

    /** setState at the next free state, which is then taken. */
    method Append(transition: Op, state1: nat, state2: nat, ghost b: Nfa)
      requires Emitted(b)
      modifies this`ch, this`next1, this`next2, this`size, this`freeState, ch, next1, next2
      ensures Kept() && size > old(freeState)
      ensures Emitted(Emit(b, Cell(transition, state1, state2)))
    {
      SetState(freeState, transition, state1, state2, b);
      freeState := freeState + 1;
    }

    // ---------- Parsing ----------

    /** Add a set and return its number; it ends at the first NUL. */
    method InsertSet(range: seq<Byte>) returns (index: nat)
      modifies this`setArray
      ensures setArray == old(setArray) + [UpToNul(range)] && index == |old(setArray)|
    {
      var members: seq<Byte> := [];
      var i := 0;
      while i < |range| && range[i] != NUL
        invariant 0 <= i <= |range|
        invariant members + UpToNul(range[i..]) == UpToNul(range)
      {
        assert range[i..][0] == range[i] && range[i..][1..] == range[i + 1..];
        members := members + [range[i]];
        i := i + 1;
      }
      assert UpToNul(range[i..]) == [] by { assert i < |range| ==> range[i..][0] == NUL; }
      assert members == UpToNul(range);
      setArray := setArray + [members];
      index := |setArray| - 1;
    }

    /** One member of a set definition at `ptr`. */
    method SetMember(range: seq<Byte>, ptr: nat) returns (error: Option<Error>, range': seq<Byte>, ptr': nat)
      requires currentPos <= ptr < |regexp|
      ensures match ParseMember(Source(regexp, classes), currentPos, ptr, range)
              case Ok(members, p) => error == None && range' == members && ptr' == p
              case Fail(e, _) => error == Some(e)
    {
      error, range', ptr' := None, range, ptr;
      var c := regexp[ptr];
      if c == DASH && range != [] {
        var b, e := if ptr > 0 then regexp[ptr - 1] else NUL, At(regexp, ptr + 1);
        if e == NUL || e == CLOSE_BRACKET {
          return Some(IllegalSet), range, ptr;
        }
        ptr' := ptr + 2;
        if b > e {
          b, e := e, b;
        }
        if e == MAX_BYTE {
          return Some(Diverges), range, ptr;
        }
        var x: int := b + 1;
        while x <= e
          invariant b < x <= e + 1 || x == b + 1
          invariant AddRange(range', x, e) == AddRange(range, b + 1, e)
          decreases e - x
        {
          var isNew := CheckRange(range', x);
          if isNew {
            range' := range' + [x];
          }
          x := x + 1;
        }
      } else if c == BACKSLASH {
        if At(regexp, ptr + 1) == NUL {
          return Some(IllegalSet), range, ptr;
        }
        var isNew := CheckRange(range, regexp[ptr + 1]);
        if isNew {
          range' := range + [regexp[ptr + 1]];
        }
        ptr' := ptr + 2;
      } else if c == COLON {
        error, range', ptr' := SymbolicName(range, ptr);
      } else {
        var isNew := CheckRange(range, c);
        if isNew {
          range' := range + [c];
        }
        ptr' := ptr + 1;
      }
    }

    /** A symbolic name at `ptr`, as in [:ALPHA:]. */
    method SymbolicName(range: seq<Byte>, ptr: nat) returns (error: Option<Error>, range': seq<Byte>, ptr': nat)
      requires currentPos <= ptr < |regexp| && regexp[ptr] == COLON
      ensures match ParseMember(Source(regexp, classes), currentPos, ptr, range)
              case Ok(members, p) => error == None && range' == members && ptr' == p
              case Fail(e, _) => error == Some(e)
    {
      error, range', ptr' := None, range, ptr + 1;
      var length := 0;
      while length < 15 && At(regexp, ptr') != NUL && At(regexp, ptr') != COLON
        invariant length <= 15 && ptr < ptr' <= |regexp|
        invariant NameEnd(regexp, ptr', 15 - length) == NameEnd(regexp, ptr + 1, 15)
      {
        length := length + 1;
        ptr' := ptr' + 1;
      }
      var name := Upper(regexp[ptr + 1..ptr']);
      if At(regexp, ptr') != COLON || name !in classes {
        return Some(IllegalSymbolicName), range, ptr;
      }
      ptr' := ptr' + 1;
      range' := AddClass(range, classes[name]);
    }

    /** Collect the members of a set definition from `ptr` on. */
    method SetMembers(first: nat) returns (error: Option<Error>, range: seq<Byte>, ptr: nat)
      requires currentPos <= first <= |regexp|
      ensures match ParseMembers(Source(regexp, classes), currentPos, first, [])
              case Ok(members, p) => error == None && range == members && ptr == p
              case Fail(e, _) => error == Some(e)
    {
      error, range, ptr := None, [], first;
      while At(regexp, ptr) != NUL && At(regexp, ptr) != CLOSE_BRACKET
        invariant currentPos <= ptr <= |regexp| && error == None
        invariant ParseMembers(Source(regexp, classes), currentPos, ptr, range)
               == ParseMembers(Source(regexp, classes), currentPos, first, [])
        decreases |regexp| - ptr
      {
        error, range, ptr := SetMember(range, ptr);
        if error.Some? {
          return;
        }
      }
      if range == [] {
        error := Some(IllegalSet);
      }
    }

    /** A set definition; `currentPos` is after the opening bracket and ends before the closing one. */
    method SetDefinition(ghost b: Nfa) returns (error: Option<Error>, r: nat)
      requires Emitted(b)
      modifies this, ch, next1, next2
      ensures Kept() && Outcome(ParseSetBody(Source(regexp, classes), old(currentPos)), b, error, r)
    {
      r := 0;
      var negated := At(regexp, currentPos) == CARET;
      var range, ptr;
      error, range, ptr := SetMembers(if negated then currentPos + 1 else currentPos);
      if error.Some? {
        return;
      }
      currentPos := ptr;
      var index := InsertSet(range);
      ghost var b1 := b.(sets := b.sets + [UpToNul(range)]);
      assert Holds(b1);
      r := freeState;
      Append(InSet(index, negated), freeState + 1, freeState + 1, b1);
    }

    /** The parser leaves the pattern, the mode and the accept gate alone and only reallocates its arrays. */
    twostate predicate Kept()
      reads this
    {
      && regexp == old(regexp) && minimal == old(minimal) && final == old(final)
      && (fresh(ch) || ch == old(ch)) && (fresh(next1) || next1 == old(next1)) && (fresh(next2) || next2 == old(next2))
      && Allocated() && currentPos <= |regexp|
    }

    /**
     One parsing method has followed the grammar: on success the text is consumed, the
     tree compiled after `b`, and its entry returned; on failure the error and its place agree.
     */
    ghost predicate Outcome(p: Parsed<Regex>, b: Nfa, error: Option<Error>, r: nat)
      requires |b.cells| > 0
      reads this, ch, next1, next2
    {
      match p
      case Ok(tree, pos) =>
        error == None && currentPos == pos && Emitted(Compile(tree, b).0) && r == Compile(tree, b).1
      case Fail(e, at) => error == Some(e) && currentPos == at
    }

    /** Alternatives: term ['|' expression]. */
    method Expression(ghost b: Nfa) returns (error: Option<Error>, r: nat)
      requires Emitted(b)
      modifies this, ch, next1, next2
      ensures Kept() && Outcome(ParseExpr(Source(regexp, classes), old(currentPos)), b, error, r)
      decreases |regexp| - currentPos, 4
    {
      hide Compile, CompileRight, ParseTerm, Holds;
      ghost var t := ParseTerm(Source(regexp, classes), currentPos);
      error, r := Term(b);
      if error.None? && At(regexp, currentPos) == BAR {
        ghost var e := ParseExpr(Source(regexp, classes), currentPos + 1);
        EntryEmitted(t.value, b);
        if e.Ok? {
          OperandsCompile(t.value, e.value, b);
        }
        error, r := RightOperand(r, Compile(t.value, b).0);
      }
    }

    /** From '|' on: the left operand is entered at `t1`. */
    method RightOperand(t1: nat, ghost a: Nfa) returns (error: Option<Error>, r: nat)
      requires Emitted(a) && At(regexp, currentPos) == BAR && 0 < t1 < |a.cells|
      modifies this, ch, next1, next2
      ensures Kept()
      ensures match ParseExpr(Source(regexp, classes), old(currentPos) + 1)
              case Ok(tree, pos) =>
                && error == None && currentPos == pos
                && Emitted(CompileRight(tree, a, t1).0) && r == CompileRight(tree, a, t1).1
              case Fail(e, at) => error == Some(e) && currentPos == at
      decreases |regexp| - currentPos, 3
    {
      hide Compile, ParseExpr, CloseAlt;
      currentPos := currentPos + 1;
      freeState := freeState + 1;
      var t2 := freeState;
      freeState := freeState + 1;
      ghost var a' := Emit(Emit(a, Unset), Unset);
      ghost var e := ParseExpr(Source(regexp, classes), currentPos);
      var entry;
      error, entry := Expression(a');
      r := t2;
      if error.None? {
        Alternative(t1, t2, entry, Compile(e.value, a').0);
      }
    }

    /** The three states written once both operands of '|' have been parsed. */
    method Alternative(t1: nat, t2: nat, entry: nat, ghost a: Nfa)
      requires Emitted(a) && 0 < t1 < t2 && t2 < |a.cells|
      modifies this`ch, this`next1, this`next2, this`size, ch, next1, next2
      ensures Kept() && Emitted(CloseAlt(a, t2 - 1, t1, entry))
    {
      SetState(t2, Eps, entry, t1, a);
      ghost var a3 := Fill(a, t2, Cell(Eps, entry, t1));
      SetState(t2 - 1, Eps, freeState, freeState, a3);
      ghost var a4 := Fill(a3, t2 - 1, Cell(Eps, freeState, freeState));
      PatchState(t1 - 1, ch[t1 - 1], t2, next2[t1 - 1], a4);
    }

    /** setState on a state that keeps its operator and second successor. */
    method PatchState(position: nat, transition: Op, state1: nat, state2: nat, ghost b: Nfa)
      requires Holds(b) && position < |b.cells| && position < size
      requires transition == ch[position] && state2 == next2[position]
      modifies this`ch, this`next1, this`next2, this`size, ch, next1, next2
      ensures Holds(Patch(b, position, state1))
      ensures (fresh(ch) || ch == old(ch)) && (fresh(next1) || next1 == old(next1)) && (fresh(next2) || next2 == old(next2))
    {
      SetState(position, transition, state1, state2, b);
    }

    /** Concatenation: factor [term]; the entry of what follows is not used. */
    method Term(ghost b: Nfa) returns (error: Option<Error>, r: nat)
      requires Emitted(b)
      modifies this, ch, next1, next2
      ensures Kept() && Outcome(ParseTerm(Source(regexp, classes), old(currentPos)), b, error, r)
      decreases |regexp| - currentPos, 3
    {
      hide Compile, CompileRest, ParseFactor, Holds;
      ghost var f := ParseFactor(Source(regexp, classes), currentPos);
      error, r := Factor(b);
      if error.None? {
        var c := At(regexp, currentPos);
        if c == OPEN_PAREN || c == OPEN_BRACKET || Letter(c) {
          ghost var t := ParseTerm(Source(regexp, classes), currentPos);
          if t.Ok? {
            OperandsCompile(f.value, t.value, b);
          }
          error := RestOfTerm(Compile(f.value, b).0);
        }
      }
    }

    /** A parenthesis gets an epsilon state in front, anything else is simply appended. */
    method RestOfTerm(ghost a: Nfa) returns (error: Option<Error>)
      requires Emitted(a)
      modifies this, ch, next1, next2
      ensures Kept()
      ensures match ParseTerm(Source(regexp, classes), old(currentPos))
              case Ok(tree, pos) => error == None && currentPos == pos && Emitted(CompileRest(tree, a))
              case Fail(e, at) => error == Some(e) && currentPos == at
      decreases |regexp| - currentPos, 4
    {
      ghost var t := ParseTerm(Source(regexp, classes), currentPos);
      var t2;
      if At(regexp, currentPos) == OPEN_PAREN {
        var t1 := freeState;
        freeState := freeState + 1;
        error, t2 := Term(Emit(a, Unset));
        if error.None? {
          SetState(t1, Eps, t2, t2, Compile(t.value, Emit(a, Unset)).0);
        }
      } else {
        error, t2 := Term(a);
      }
    }

    /** A single character, a set or a parenthesised expression, with an optional postfix operator. */
    method Factor(ghost b: Nfa) returns (error: Option<Error>, r: nat)
      requires Emitted(b)
      modifies this, ch, next1, next2
      ensures Kept() && Outcome(ParseFactor(Source(regexp, classes), old(currentPos)), b, error, r)
      decreases |regexp| - currentPos, 2
    {
      var t1 := freeState;
      ghost var p := ParseBase(Source(regexp, classes), currentPos);
      var t2;
      error, t2 := BaseFactor(b);
      r := t2;
      if error.None? {
        error, r := PostfixOperator(t1, t2, p.value, b);
      }
    }

    /** '*', '+' or '{n}' after the operand `base`, which was compiled at `t1` and is entered at `t2`. */
    method PostfixOperator(t1: nat, t2: nat, ghost base: Regex, ghost b: Nfa) returns (error: Option<Error>, r: nat)
      requires |b.cells| > 0 && IsBase(base) && WellShaped(base)
      requires Emitted(Compile(base, b).0) && t1 == |b.cells| && t2 == Compile(base, b).1
      modifies this, ch, next1, next2
      ensures Kept() && Outcome(ParsePostfix(Source(regexp, classes), base, old(currentPos)), b, error, r)
    {
      hide Compile, SoundFrom, CloseTimes;
      error, r := None, t2;
      ghost var a := Compile(base, b).0;
      PostfixCompiles(base, 0, b);
      CompiledIsSound(base, b);
      var c := At(regexp, currentPos);
      if c == STAR {
        r := freeState;
        CloseStarState(t1, t2, a);
        currentPos := currentPos + 1;
      } else if c == PLUS {
        r := t1;
        Append(Eps, t1, freeState + 1, a);
        currentPos := currentPos + 1;
      } else if c == OPEN_BRACE {
        ghost var n := ParseCount(regexp, currentPos);
        error := Repetition(t1, t2, a);
        if n.Ok? {
          PostfixCompiles(base, n.value, b);
        }
      }
    }

    /** The part of a factor before its postfix operator. */
    method BaseFactor(ghost b: Nfa) returns (error: Option<Error>, t2: nat)
      requires Emitted(b)
      modifies this, ch, next1, next2
      ensures Kept() && Outcome(ParseBase(Source(regexp, classes), old(currentPos)), b, error, t2)
      decreases |regexp| - currentPos, 1
    {
      error, t2 := None, freeState;
      var c := At(regexp, currentPos);
      if c == QUESTION {
        Append(Any, freeState + 1, freeState + 1, b);
        currentPos := currentPos + 1;
      } else if c == BACKSLASH {
        currentPos := currentPos + 1;
        if At(regexp, currentPos) == NUL {
          return Some(UnexpectedEop), t2;
        }
        Append(Char(regexp[currentPos]), freeState + 1, freeState + 1, b);
        currentPos := currentPos + 1;
      } else if c == OPEN_BRACKET {
        error, t2 := BracketFactor(b);
      } else if c == OPEN_PAREN {
        error, t2 := GroupFactor(b);
      } else if Letter(c) {
        Append(Char(c), freeState + 1, freeState + 1, b);
        currentPos := currentPos + 1;
      } else {
        error := Some(UnexpectedSymbol);
      }
    }

    method BracketFactor(ghost b: Nfa) returns (error: Option<Error>, t2: nat)
      requires Emitted(b) && At(regexp, currentPos) == OPEN_BRACKET
      modifies this, ch, next1, next2
      ensures Kept() && Outcome(ParseSet(Source(regexp, classes), old(currentPos) + 1), b, error, t2)
    {
      currentPos := currentPos + 1;
      error, t2 := SetDefinition(b);
      if error.None? {
        if At(regexp, currentPos) == CLOSE_BRACKET {
          currentPos := currentPos + 1;
        } else {
          error := Some(IllegalSet);
        }
      }
    }

    method GroupFactor(ghost b: Nfa) returns (error: Option<Error>, t2: nat)
      requires Emitted(b) && At(regexp, currentPos) == OPEN_PAREN
      modifies this, ch, next1, next2
      ensures Kept() && Outcome(ParseBase(Source(regexp, classes), old(currentPos)), b, error, t2)
      decreases |regexp| - currentPos, 0
    {
      currentPos := currentPos + 1;
      error, t2 := Expression(b);
      if error.None? {
        if At(regexp, currentPos) == CLOSE_PAREN {
          currentPos := currentPos + 1;
        } else {
          error := Some(MissingParenClose);
        }
      }
    }

    /** '*': an epsilon state to the operand and beyond, and the state before the operand redirected to it. */
    method CloseStarState(t1: nat, t2: nat, ghost a: Nfa)
      requires Emitted(a) && 0 < t1 <= |a.cells|
      modifies this, ch, next1, next2
      ensures Kept() && currentPos == old(currentPos) && Emitted(CloseStar(a, t1, t2))
    {
      Append(Eps, freeState + 1, t2, a);
      next1[t1 - 1] := freeState - 1;
    }

    /** The text up to the closing brace or the end, as far as the buffer holds it. */
    method ReadCount() returns (buffer: seq<Byte>, tempPos: nat)
      requires currentPos < |regexp|
      ensures currentPos < tempPos <= |regexp| && tempPos == BraceEnd(regexp, currentPos + 1)
      ensures buffer == Buffered(regexp[currentPos + 1..tempPos])
    {
      hide Buffered;
      tempPos := currentPos + 1;
      buffer := [];
      assert buffer == Buffered(regexp[currentPos + 1..tempPos]) by { BufferedNothing(regexp[currentPos + 1..tempPos]); }
      while At(regexp, tempPos) != NUL && At(regexp, tempPos) != CLOSE_BRACE
        invariant currentPos < tempPos <= |regexp|
        invariant BraceEnd(regexp, tempPos) == BraceEnd(regexp, currentPos + 1)
        invariant buffer == Buffered(regexp[currentPos + 1..tempPos])
        decreases |regexp| - tempPos
      {
        BufferedStep(regexp, currentPos + 1, tempPos);
        if |buffer| < 62 {
          buffer := buffer + [regexp[tempPos]];
        }
        tempPos := tempPos + 1;
      }
    }

    /** '{n}': read the number, then append n - 1 relocated copies of the operand. */
    method Repetition(t1: nat, t2: nat, ghost a: Nfa) returns (error: Option<Error>)
      requires Emitted(a) && At(regexp, currentPos) == OPEN_BRACE
      requires t1 <= t2 < |a.cells| && SoundFrom(a, t1)
      modifies this, ch, next1, next2
      ensures Kept()
      ensures match ParseCount(regexp, old(currentPos))
              case Ok(n, pos) =>
                error == None && currentPos == pos && Emitted(CloseTimes(a, t1, t2, n))
              case Fail(e, at) => error == Some(e) && currentPos == at
    {
      hide SoundFrom, CloseTimes, Atoi, BraceEnd, Buffered;
      error := None;
      var buffer, tempPos := ReadCount();
      if At(regexp, tempPos) == NUL {
        return Some(UnexpectedEop);
      }
      var n := Atoi(buffer);
      if n - 1 <= 0 {
        return Some(IllegalNumber);
      }
      CopyStates(t1, t2, n - 1, a);
      currentPos := tempPos + 1;
    }

    /** Append `more` copies of the block [t1, freeState), each with its targets shifted by the size of the previous one. */
    method CopyStates(start: nat, entry: nat, more: nat, ghost a: Nfa)
      requires Emitted(a) && start <= entry < |a.cells| && SoundFrom(a, start)
      modifies this, ch, next1, next2
      ensures Kept() && currentPos == old(currentPos)
      ensures Emitted(CloseTimes(a, start, entry, more + 1))
    {
      hide CopyLoop, SoundFrom, Rounds;
      var t1: nat, t2: nat := start, entry;
      var orExpression := t1 != t2;
      var size := freeState - t1 + (if orExpression then 1 else 0);
      var i := more;
      ghost var b := a;
      ghost var goal := CloseTimes(a, start, entry, more + 1);
      while i > 0
        invariant Kept() && currentPos == old(currentPos)
        invariant Emitted(b) && t1 <= t2 < |b.cells| && SoundFrom(b, t1)
        invariant size == |b.cells| - t1 + (if orExpression then 1 else 0)
        invariant CopyLoop(b, t1, t2, size, orExpression, i) == goal
        decreases i
      {
        b := CopyOnce(t1, t2, size, orExpression, b, i);
        t1, t2, i := t1 + size, t2 + size, i - 1;
      }
      CopyLoopDone(b, t1, t2, size, orExpression);
    }

    /** One round of the loop: the epsilon state to the copy, if needed, then the copy. */
    method CopyOnce(t1: nat, t2: nat, size: nat, orExpression: bool, ghost b: Nfa, ghost more: nat) returns (ghost b': Nfa)
      requires Emitted(b) && t1 <= t2 < |b.cells| && SoundFrom(b, t1) && more > 0
      requires size == |b.cells| - t1 + (if orExpression then 1 else 0)
      modifies this, ch, next1, next2
      ensures Kept() && currentPos == old(currentPos)
      ensures Emitted(b') && |b'.cells| == |b.cells| + size && SoundFrom(b', t1 + size)
      ensures CopyLoop(b, t1, t2, size, orExpression, more)
           == CopyLoop(b', t1 + size, t2 + size, size, orExpression, more - 1)
    {
      var k := freeState;
      ghost var b1 := b;
      if orExpression {
        Append(Eps, t2 + size, t2 + size, b);
        b1 := Emit(b, Cell(Eps, t2 + size, t2 + size));
      }
      CopyStatesOf(t1, k, size, b, b1);
      b' := CopyRound(b, t1, t2, size, orExpression);
      CopyRoundCells(b, t1, t2, size, orExpression);
      CopyRoundCloses(b, b', t1, t1, t2, size, orExpression);
    }

    method CopyStatesOf(t1: nat, k: nat, size: nat, ghost b: Nfa, ghost b1: Nfa)
      requires Emitted(b1) && t1 <= k == |b.cells| && SoundFrom(b, t1) && b.cells <= b1.cells
      modifies this, ch, next1, next2
      ensures Kept() && currentPos == old(currentPos)
      ensures Emitted(CopyBlock(b1, t1, k, size))
    {
      hide CopyBlock;
      CopyBlockNone(b1, t1, size);
      for j := t1 to k
        invariant Kept() && currentPos == old(currentPos)
        invariant Emitted(CopyBlock(b1, t1, j, size))
      {
        ghost var c := CopyBlock(b1, t1, j, size);
        assert Sound(b.cells[j], t1, |b.cells|, |b.sets|) && c.cells[j] == b.cells[j];
        CopyBlockStep(b1, t1, j, size);
        Append(ch[j], next1[j] + size, next2[j] + size, c);
      }
    }

    /**
     Create the automaton of a pattern. If an error occurs its number is returned and
     the automaton is made to match anything.
     */
    method Parse(text: seq<Byte>) returns (code: int)
      requires Allocated()
      modifies this, ch, next1, next2
      ensures minimal == old(minimal) && Allocated()
      ensures (fresh(ch) || ch == old(ch)) && (fresh(next1) || next1 == old(next1)) && (fresh(next2) || next2 == old(next2))
      ensures match ParseExpr(Source(text, classes), 0)
              case Ok(tree, pos) =>
                && code == 0 && currentPos == pos
                && final == Final(tree) && Holds(Program(tree, minimal))
              case Fail(e, at) =>
                && code == ErrorCode(e) != 0 && currentPos == at
                && final == old(final) && Holds(MatchAnything(setArray))
      // in terms of the notation
      ensures code == 0 <==> exists r: Regex, pos: nat :: Denotes(Source(text, classes), r, pos)
      ensures forall r: Regex, pos: nat :: Denotes(Source(text, classes), r, pos) ==>
                                             currentPos == pos && final == Final(r) && WellShaped(r) && Holds(Program(r, minimal))
      ensures forall e: Error, at: nat :: Explains(Source(text, classes), e, at) ==> code == ErrorCode(e) && currentPos == at
    {
      hide Compile, ParseExpr, Program, Final, Denotes, Explains;
      ParserDecidesNotation(Source(text, classes));
      ReasonsDecided(Source(text, classes));
      ghost var b := Nfa([Unset], []);
      Reset(text);
      ghost var p := ParseExpr(Source(text, classes), 0);
      var error, temp := Expression(b);
      if error.Some? {
        AcceptAtOnce();
        regexp := [];
        return ErrorCode(error.value);
      }
      Finalize(temp, p.value);
      regexp := [];
      code := 0;
    }

    /** Start parsing a new pattern: state 0 is reserved. */
    method Reset(text: seq<Byte>)
      requires Allocated()
      modifies this, ch, next1, next2
      ensures ch == old(ch) && next1 == old(next1) && next2 == old(next2)
      ensures minimal == old(minimal) && final == old(final) && regexp == text && currentPos == 0
      ensures Emitted(Nfa([Unset], []))
    {
      regexp := text;
      currentPos := 0;
      freeState := 1;
      Clear();
    }

    /** Make the automaton match anything. */
    method AcceptAtOnce()
      requires Allocated()
      modifies this`ch, this`next1, this`next2, this`size, ch, next1, next2
      ensures (fresh(ch) || ch == old(ch)) && (fresh(next1) || next1 == old(next1)) && (fresh(next2) || next2 == old(next2))
      ensures Holds(MatchAnything(setArray))
    {
      SetState(0, Eps, EOP, EOP, Nfa([Unset], setArray));
    }

    /** Zero the arrays and drop all sets. */
    method Clear()
      requires Allocated()
      modifies this`setArray, ch, next1, next2
      ensures setArray == []
      ensures forall i | 0 <= i < size :: ch[i] == Char(NUL) && next1[i] == 0 && next2[i] == 0
    {
      forall i | 0 <= i < size { ch[i] := Char(NUL); }
      forall i | 0 <= i < size { next1[i] := 0; }
      forall i | 0 <= i < size { next2[i] := 0; }
      setArray := [];
    }

    /** Set the start state, the accept gate for the current mode, and the accept state. */
    method Finalize(start: nat, ghost tree: Regex)
      requires WellShaped(tree)
      requires Emitted(Compile(tree, Nfa([Unset], [])).0) && start == Compile(tree, Nfa([Unset], [])).1
      modifies this, ch, next1, next2
      ensures minimal == old(minimal) && currentPos == old(currentPos)
      ensures (fresh(ch) || ch == old(ch)) && (fresh(next1) || next1 == old(next1)) && (fresh(next2) || next2 == old(next2))
      ensures final == Final(tree) && Holds(Program(tree, minimal))
    {
      hide Compile, Closes, WellShaped;
        ghost var (a, t) := Compile(tree, Nfa([Unset], []));
      SetState(0, Eps, start, start, a);
      ghost var a1 := Fill(a, 0, Cell(Eps, t, t));
      final := freeState;
      if !minimal {
        Append(Char(NUL), freeState + 1, freeState + 1, a1);
      } else {
        Append(Eps, EOP, EOP, a1);
      }
      SetState(freeState, Eps, EOP, EOP, Emit(a1, Gate(|a1.cells|, minimal)));
    }

    /** Switch between minimal and maximal matching by rewriting the accept gate. */
    method SetMinimal(f: bool, ghost m: Nfa)
      requires Holds(m) && -1 <= final < |m.cells|
      modifies this`minimal, this`ch, this`next1, this`next2, this`size, ch, next1, next2
      ensures (fresh(ch) || ch == old(ch)) && (fresh(next1) || next1 == old(next1)) && (fresh(next2) || next2 == old(next2))
      ensures minimal == f && Holds(if f != old(minimal) && final != -1 then Fill(m, final, Gate(final, f)) else m)
    {
      if f != minimal {
        if final != -1 {
          if !f {
            SetState(final, Char(NUL), final + 1, final + 1, m);
          } else {
            SetState(final, Eps, EOP, EOP, m);
          }
        }
        minimal := f;
      }
    }

    // ---------- Matching ----------

    /** Whether set number `index` takes the character `c`. */
    method InSetArray(index: nat, negated: bool, c: Byte) returns (found: bool)
      requires index < |setArray|
      ensures found <==> (c in setArray[index]) != negated
    {
      var set_ := setArray[index];
      found := negated;
      var i := 0;
      while i < |set_|
        invariant 0 <= i <= |set_| && found == negated && c !in set_[..i]
      {
        if set_[i] == c {
          found := !found;
          break;
        }
        i := i + 1;
      }
    }

    /** Whether the state lets the run advance at position `j`. */
    method TakesCharacter(state: nat, a: seq<Byte>, len: nat, j: nat, ghost m: Nfa) returns (takes: bool)
      requires Holds(m) && state < |m.cells| && m.cells[state].Cell? && !m.cells[state].op.Eps?
      requires m.cells[state].op.InSet? ==> m.cells[state].op.index < |m.sets|
      requires len <= |a| && j < |a|
      ensures takes <==> Takes(m.sets, m.cells[state].op, a, len, j)
    {
      match ch[state]
      case InSet(index, negated) => takes := InSetArray(index, negated, a[j]);
      case Any => takes := true;
      case Char(c) =>
        if j < len {
          takes := c == a[j];
        } else {
          takes := j == len && c == NUL;
        }
      case Eps => assert false;
    }

    /**
     Process one state popped from the queue: expand it, or test it against the
     character at `j`, or, for the level marker, move on to the next character.
     */
    method Advance(state: int, a: seq<Byte>, len: nat, j: nat, dq: DQ.DoubleQueue, ghost f: Frontier, ghost m: Nfa)
      returns (j': nat)
      requires Holds(m) && Explorable(m) && j == f.j && j < |a| && len <= |a|
      requires dq.Valid() && dq.memory as object !in {this, ch, next1, next2}
      requires if state == DQ.SCAN then f.cur == [] && dq.Contents() == f.nxt
               else 0 < state < |m.cells| && dq.Contents() == f.cur + [DQ.SCAN] + f.nxt
      modifies dq, dq.memory
      ensures dq.Valid() && (dq.memory == old(dq.memory) || fresh(dq.memory))
      ensures var g := Next(m, a, len, state, f);
              j' == g.j && dq.Contents() == g.cur + [DQ.SCAN] + g.nxt
    {
      j' := j;
      assert state != DQ.SCAN ==> m.cells[state] == Cell(ch[state], next1[state], next2[state]);
      assert state != DQ.SCAN && ch[state].InSet? ==> ch[state].index < |m.sets|;
      NextQueue(m, a, len, state, f, DQ.SCAN);
      hide Takes, Holds, Explorable, Next;
      if state == DQ.SCAN {
        j' := j + 1;
        dq.Put(DQ.SCAN);
      } else if ch[state] == Eps {
        Expand(next1[state], next2[state], dq);
      } else {
        var takes := TakesCharacter(state, a, len, j, m);
        if takes {
          dq.Put(next1[state]);
        }
      }
    }

    /** Put the successors of an epsilon state in front of the queue, once if they coincide. */
    method Expand(n1: nat, n2: nat, dq: DQ.DoubleQueue)
      requires dq.Valid()
      modifies dq, dq.memory
      ensures dq.Valid() && (dq.memory == old(dq.memory) || fresh(dq.memory))
      ensures dq.Contents() == if n1 != n2 then [n2 as int] + ([n1 as int] + old(dq.Contents())) else [n1 as int] + old(dq.Contents())
    {
      dq.Push(n1);
      if n1 != n2 {
        dq.Push(n2);
      }
    }

    /** Take the next state from the queue, unless only the level marker is left or the subject is exceeded. */
    method TakeNext(dq: DQ.DoubleQueue, j: nat, len: nat, ghost f: Frontier) returns (more: bool, state: int)
      requires dq.Valid() && dq.Contents() == f.cur + [DQ.SCAN] + f.nxt
      modifies dq`head
      ensures dq.Valid() && (more <==> f.cur + [DQ.SCAN] + f.nxt != [DQ.SCAN] && j <= len + 1)
      ensures !more ==> state == DQ.SCAN
      ensures more ==> if f.cur == [] then state == DQ.SCAN && dq.Contents() == f.nxt
                else state == f.cur[0] && dq.Contents() == f.cur[1..] + [DQ.SCAN] + f.nxt
    {
      state := DQ.SCAN;
      var empty := dq.IsEmpty();
      more := !empty && j <= len + 1;
      if more {
        state := dq.Pop();
        FrontOfQueue(f, DQ.SCAN, state, dq.Contents());
      }
    }

    /**
     Explore the automaton on the first `len` characters of `a`, level by level. The
     two positions after them are read but their contents are arbitrary.
     */
    method Match(a: seq<Byte>, len: nat, ghost m: Nfa, ghost d: nat) returns (found: bool)
      requires Holds(m) && Explorable(m) && Settled(m, d)
      requires len + 2 <= |a|
      modifies this`currentPos
      ensures Verdict(m, Horizon(minimal, len), a, len, m.cells[0].next1, found, currentPos)
    {
      assert m.cells[0] == Cell(ch[0], next1[0], next2[0]);
      hide AtHead, Between, Verdict, Load, TotalWeight, Settles, Settled, Sane, Holds, Next, Explorable;
      ghost var start, horizon := m.cells[0].next1, Horizon(minimal, len);
      var j: nat := 0;
      var state: int := next1[0];
      var dq := new DQ.DoubleQueue(64);
      ghost var f := Frontier(0, [], []);
      HeadFirst(m, a, len, d, horizon);
      HeadFacts(m, a, len, start, state, f, d, horizon);
      assert dq.Contents() == f.cur + [DQ.SCAN] + f.nxt;
      while state != EOP
        invariant fresh(dq) && fresh(dq.memory) && dq.Valid()
        invariant j == f.j <= horizon && state < |m.cells| && Sane(m, d, f)
        invariant AtHead(m, a, len, start, state, f, d, horizon)
        invariant if state == DQ.SCAN then f.cur == [] && dq.Contents() == f.nxt
                  else 0 <= state && dq.Contents() == f.cur + [DQ.SCAN] + f.nxt
        decreases len + 2 - j, Load(m, state, f, d)
      {
        if state == DQ.SCAN && minimal && j == len {
          HeadAtEnd(m, a, len, start, state, f, d);
          break;
        }
        HeadStep(m, a, len, start, state, f, d, horizon);
        ghost var g := Next(m, a, len, state, f);
        j := Advance(state, a, len, j, dq, f, m);
        f := g;
        var more;
        more, state := TakeNext(dq, j, len, f);
        if !more {
          NoneAccepts(m, a, len, start, f, d, horizon, DQ.SCAN);
          break;
        }
        HeadAgain(m, a, len, start, f, d, horizon, DQ.SCAN);
        if f.cur != [] {
          f := f.(cur := f.cur[1..]);
        }
        HeadFacts(m, a, len, start, state, f, d, horizon);
      }
      if state == EOP {
        HeadAccepts(m, a, len, start, f, d, horizon);
      }
      currentPos := j;
      if currentPos > len {
        currentPos := len;
      }
      found := state == EOP;
    }
  }
}
