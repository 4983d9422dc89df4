/** RegExp_Init and RegExp_Match: from the text of a pattern to the verdict on a subject. */
module Session {
  import opened Bytes
  import opened Patterns
  import opened Compiler
  import opened Reading
  import opened Prefixes
  import opened Syntax
  import opened Writing
  import opened Failures
  import opened Engine
  import opened Search

  /** Parse a pattern in maximal mode, or in minimal mode if asked for. `code` is 0 on success. */
  method Init(classes: map<seq<Byte>, seq<Byte>>, text: seq<Byte>, minimal: bool) returns (aut: Automaton, code: int)
    ensures fresh(aut) && fresh(aut.ch) && fresh(aut.next1) && fresh(aut.next2) && aut.minimal == minimal
    ensures match ParseExpr(Source(text, classes), 0)
            case Ok(r, _) => code == 0 && (Safe(r) && Productive(r) ==> Ready(aut, r))
            case Fail(e, _) => code == ErrorCode(e) != 0
    // in terms of the notation
    ensures code == 0 <==> exists r: Regex, pos: nat :: Denotes(Source(text, classes), r, pos)
    ensures code == 1 <==> Reported(Source(text, classes), UnexpectedSymbol)
    ensures code == 2 <==> Reported(Source(text, classes), MissingParenClose)
    ensures code == 3 <==> Reported(Source(text, classes), IllegalSet)
    ensures code == 4 <==> Reported(Source(text, classes), UnexpectedEop)
    ensures code == 5 <==> Reported(Source(text, classes), IllegalNumber)
    ensures code == 6 <==> Reported(Source(text, classes), IllegalSymbolicName)
    ensures forall r: Regex, pos: nat :: Denotes(Source(text, classes), r, pos) && Safe(r) && Productive(r) ==> Ready(aut, r)
  {
    hide ParseExpr, Denotes, Reported, Safe, Productive;
    ParserDecidesNotation(Source(text, classes));
    ReasonsDecided(Source(text, classes));
    aut := new Automaton(classes);
    if minimal {
      aut.SetMinimal(true, Nfa.Nfa([], []));
    }
    code := aut.Parse(text);
  }

  /** RegExp_Match. */
  method Match(aut: Automaton, subject: seq<Byte>, n: nat, ghost r: Regex) returns (found: bool)
    requires Ready(aut, r) && n + 2 <= |subject|
    modifies aut`currentPos
    ensures Ready(aut, r)
    ensures aut.minimal ==> (found <==> MatchAt(r, subject, n, 0))
    ensures !aut.minimal && NulFree(subject[..n]) ==> (found <==> In(r, subject[..n]))
    // the position stored
    ensures aut.minimal && found ==> ShortestEnd(r, subject, n, 0, aut.currentPos)
    ensures !aut.minimal && NulFree(subject[..n]) && found ==> aut.currentPos == n
    ensures !found ==> Furthest(Program(r, aut.minimal), subject, n, Start(r), aut.currentPos)
    ensures !found && Satisfiable(r) && (aut.minimal || NulFree(subject[..n])) ==>
              LongestBeginning(r, subject, n, aut.currentPos)
  {
    hide Furthest, LongestBeginning, MatchAt, ShortestEnd, In, Program, Satisfiable;
    assert WellShaped(r) && Safe(r);
    assert subject[0..n] == subject[..n] && subject[0..] == subject;
    found := MatchFrom(aut, subject, 0, n, r);
    if !found && Satisfiable(r) && (aut.minimal || NulFree(subject[..n])) {
      FurthestIsLongestBeginning(r, aut.minimal, subject, n, aut.currentPos);
    }
  }

  /** A text written for a pattern, parsed, compiled and run, decides exactly the pattern's language. */
  method Matches(classes: map<seq<Byte>, seq<Byte>>, text: seq<Byte>, ghost r: Regex, subject: seq<Byte>, n: nat) returns (found: bool)
    requires WritesExpr(r, text, classes) && Safe(r) && Productive(r)
    requires n + 2 <= |subject| && NulFree(subject[..n])
    ensures found <==> In(r, subject[..n])
  {
    WrittenForOneTree(r, r, text, classes);
    var aut, code := Init(classes, text, false);
    found := Match(aut, subject, n, r);
  }
}
