# Regular expressions and mixed-width strings, verified

This project models two components of an Open Object Rexx source tree and proves what
they do, for every input they promise to handle.

**The regular-expression engine** (`rxregexp`). A one-pass recursive-descent parser writes
the states of a nondeterministic automaton into three growing arrays. Operators that come
later in the text go back and patch states that were emitted earlier; `|` reserves two
states and fills them in when its right operand is known; `{n}` copies the states just
emitted and relocates every target. The matcher explores the automaton level by level
through an array-backed queue that grows at both ends, with one marker between the states
of the current level and those of the next. On top of it, `pos` searches for the leftmost
longest or the leftmost shortest match by rewriting one state of the automaton.

**Mixed single- and double-byte strings** (`ASCIIDBCSStrings.cpp`). A table says which bytes
are lead bytes; a lead byte and the byte after it form one character. Every string function
is a pointer-and-length loop over raw bytes, and has to agree with a plain operation on the
sequence of characters.

## How the model is built

| file | contents |
|---|---|
| `Bytes.dfy`, `Patterns.dfy` | signed characters; pattern trees, the language of a pattern, the safety conditions |
| `Nfa.dfy`, `Layout.dfy` | automata as values, their language; a compositional picture of a finished automaton |
| `Compiler.dfy`, `Closed.dfy` | the one-pass compiler with reservations, patches and copies; what it keeps for every pattern |
| `Language.dfy`, `Settle.dfy`, `Correctness.dfy` | the language of a laid-out pattern; absence of epsilon cycles; the compiler as a whole |
| `Exactness.dfy`, `UnsafeFamilies.dfy`, `UnsafePatterns.dfy` | the conditions are exact; the languages that patterns violating them are compiled to, and one failure for each rule |
| `Syntax.dfy` | the recursive-descent parser as functions |
| `Writing.dfy`, `Failures.dfy`, `Printer.dfy` | the notation as a grammar of its own, the reasons for errors, both decided by the parser; a printer the parser inverts |
| `Simulation.dfy`, `Reading.dfy`, `Prefixes.dfy`, `Meaning.dfy` | runs of the matcher, its termination measure, how far it reads, and what its report means |
| `DoubleQueue.dfy`, `Automaton.dfy`, `Search.dfy`, `Session.dfy` | the running code: the queue, the parser over arrays, the matcher, the search, a session |
| `MixedStrings.dfy`, `Cursors.dfy`, `Buffers.dfy` | decoding and encoding, the cursor loops, filling result buffers |
| `Words.dfy`, `WordFunctions.dfy`, `Compare.dfy`, `Substrings.dfy`, `ByteWidth.dfy` | the string functions over characters, and the byte loops that compute them |

The compiler appears twice. `Engine.Automaton` is the class with the original's fields; its
methods write the arrays. Each is proved to follow `Syntax` (what is parsed) and `Compiler`
(which states are emitted). All theorems about meaning are then proved about `Compiler`.
A state that has been reserved but not written yet is `Unset` there: whatever the real array
holds at that place is unspecified, and a patch that hits such a state has no effect that lasts.

What the parser accepts is stated a second time without it. `Writing` says which texts are
written for a tree (operators, escapes, counts and the members of sets, each spelt out) and
where a pattern ends in a longer text; `Failures` says which reason, at which place, each error
number stands for. The parser is proved to agree with both in both directions.

The compiler does not preserve the meaning of every pattern, and the model keeps it as it is.
A pattern is *safe* when the operand of `+` and the left operand of `|` are entered at the
first state emitted for them, and a starred atom that follows another factor follows one with
a single exit. For safe patterns meaning is preserved. `Layout.Laid` is a compositional picture
of the automaton of any pattern, with its own notion of where the pattern is entered
(`Layout.Entry`); what the parser hands back as the entry is a separate function
(`Layout.Returned`). `Exactness.LaidOutExactlyWhenSafe` shows that the emitted states fit this
picture exactly when the pattern is safe. For an unsafe pattern some state has a wrong target
for good: with `|` and with a starred atom a patch has spoilt it, with `+` it is emitted with
the wrong target. `UnsafeFamilies` gives the language that each unsafe shape is compiled to, and
`UnsafePatterns` one failing pattern for each rule. A pattern is *productive* when no body of
`*` or `+` matches the empty word; for safe patterns this is exactly the absence of epsilon
cycles, on which the matcher need not terminate.

Strings with a pointer and a length are modelled as the slice they delimit; advancing the
pointer drops a prefix. `Decode` and `Encode` convert between bytes and characters. Methods of
the byte level take the character sequence their argument encodes as a ghost parameter.

## Model

| member | source | states |
|---|---|---|
| `Correctness.CompilationPreservesMeaning` | src/oorexx-3.2.0-leopard/rxregexp/automaton.cpp:116-398 | For every safe pattern, in either mode, the words that lead from the start state to the accept gate are exactly the words of the pattern, despite in-place patching, reserved states and relocated copies. |
| `Correctness.MeaningIgnoresMode` | src/oorexx-3.2.0-leopard/rxregexp/automaton.cpp:145-159 | The accepted words do not depend on the mode the pattern was parsed in. |
| `Patterns.RepetitionsCutWords` | src/oorexx-3.2.0-leopard/rxregexp/automaton.cpp:342-398 | A word belongs to a starred, plussed or counted pattern if and only if it can be cut into any number of words of the operand, at least one, or exactly as many as counted. |
| `Correctness.ProgramSettled` | src/oorexx-3.2.0-leopard/rxregexp/automaton.cpp:343-356 | A safe productive pattern compiles to an automaton in which every chain of epsilon transitions ends within some bound. |
| `Exactness.LaidOutExactlyWhenSafe` | src/oorexx-3.2.0-leopard/rxregexp/automaton.cpp:235-398 | Compiling emits the compositional automaton of a pattern if and only if the pattern is safe; an unsafe pattern has a state with a wrong target that no later patch mends. |
| `Exactness.PlusMisdirects` | src/oorexx-3.2.0-leopard/rxregexp/automaton.cpp:351-356 | The loop state of `+` over an operand that is not entered at its first state leads to a wrong state, whatever a later patch of its exit does. |
| `Exactness.AltMisdirects` | src/oorexx-3.2.0-leopard/rxregexp/automaton.cpp:243-253 | A left operand of &#124; that is not entered at its first state has one of its own states led to the branch state. |
| `Exactness.NotRedirected` | src/oorexx-3.2.0-leopard/rxregexp/automaton.cpp:343-349 | The patch of a starred atom does not redirect the exits of a factor in front of it that is not single-exit. |
| `Exactness.CycleFreeExactlyWhenProductive` | src/oorexx-3.2.0-leopard/rxregexp/automaton.cpp:343-356 | A safe pattern compiles to an automaton without epsilon cycles if and only if no body of `*` or `+` matches the empty word. |
| `Compiler.CompileLays` | src/oorexx-3.2.0-leopard/rxregexp/automaton.cpp:235-398 | Emitting in one pass with patches yields the compositional layout of a safe pattern at the end of what was there, and changes nothing before it except that the state in front of a starred atom is led to the star. |
| `Compiler.CopyLoopLays` | src/oorexx-3.2.0-leopard/rxregexp/automaton.cpp:358-396 | The loop of `{n}` lays out n disjoint relocated copies of the block, each exit leading to the entry of the next, through a bridge state when the entry is not the first state. |
| `Layout.LaidRelocated` | src/oorexx-3.2.0-leopard/rxregexp/automaton.cpp:390-391 | Copying a block with all targets shifted relocates the pattern laid out in it, exits included. |
| `Layout.LaidExitPatched` | src/oorexx-3.2.0-leopard/rxregexp/automaton.cpp:343-346 | Redirecting `next1` of the last state redirects every exit of a single-exit pattern and keeps its layout. |
| `Layout.HeadEnteredIsReturnedZero` | src/oorexx-3.2.0-leopard/rxregexp/automaton.cpp:290-398 | The syntactic notion of being entered at the first state says that the parser hands back the first state. |
| `Layout.SafeReturnsEntry` | src/oorexx-3.2.0-leopard/rxregexp/automaton.cpp:235-398 | For a safe pattern the state the parser hands back is the one at which the pattern has to be entered. |
| `Layout.PlusReturnsEntryExactly` | src/oorexx-3.2.0-leopard/rxregexp/automaton.cpp:351-356 | For `+` over a safe operand the two agree if and only if the operand is head-entered. |
| `Language.LaidSpells` | src/oorexx-3.2.0-leopard/rxregexp/automaton.cpp:235-398 | A laid-out pattern whose exit is the goal spells exactly its language from its entry. |
| `Closed.CompileCloses` | src/oorexx-3.2.0-leopard/rxregexp/automaton.cpp:235-398 | For every pattern, safe or not: each emitted state is written, its targets stay in the block or its exit, no literal is NUL, and of the earlier states only the last may have been redirected, into the block. |
| `Closed.ProgramGated` | src/oorexx-3.2.0-leopard/rxregexp/automaton.cpp:116-159 | In every finished automaton the states before the accept gate, the start state included, lead only to states 1 to `final`, and only the last two may lead to 0, so 0 as accept marker never clashes with state 0. |
| `UnsafePatterns.LoopLosesRightOperand` | src/oorexx-3.2.0-leopard/rxregexp/automaton.cpp:351-356 | (A&#124;B)+ is compiled to an automaton for `A+`, for all safe `A` and `B`. |
| `UnsafePatterns.LoopIsRightExactly` | src/oorexx-3.2.0-leopard/rxregexp/automaton.cpp:351-356 | (A&#124;B)+ keeps its meaning if and only if every word of `B` belongs to `A+`. |
| `UnsafeFamilies.StarCutsPlus` | src/oorexx-3.2.0-leopard/rxregexp/automaton.cpp:343-356 | `x+y*` is compiled to an automaton for `xy*`, for every safe, head-entered `x` and every atom `y`. |
| `UnsafeFamilies.StarSkipsLeft` | src/oorexx-3.2.0-leopard/rxregexp/automaton.cpp:343-349 | (A&#124;B)y\* is compiled to an automaton for By\*&#124;Ayy\*, for every atom `y`, a safe A&#124;B and a single-exit `B`. |
| `UnsafeFamilies.BarFollowsStar` | src/oorexx-3.2.0-leopard/rxregexp/automaton.cpp:243-253 | x\*&#124;B is compiled to an automaton for `x*` followed by nothing or `B`, for safe `x` and `B` with `x` single-exit. |
| `UnsafeFamilies.BarRestarts` | src/oorexx-3.2.0-leopard/rxregexp/automaton.cpp:243-253 | (A&#124;B)&#124;C is compiled to an automaton for A\*(A&#124;B&#124;C), for a safe A&#124;B and a safe `C`. |
| `UnsafePatterns.PlusOnAlternation` | src/oorexx-3.2.0-leopard/rxregexp/automaton.cpp:351-356 | (a&#124;b)+ rejects "b". |
| `UnsafePatterns.StarBeforeBar` | src/oorexx-3.2.0-leopard/rxregexp/automaton.cpp:243-253 | `a*` as left operand of &#124;: the pattern with right operand `b` accepts "ab". |
| `UnsafePatterns.StarAfterPlus` | src/oorexx-3.2.0-leopard/rxregexp/automaton.cpp:343-349 | `a+b*` rejects "aa". |
| `UnsafePatterns.StarAfterBar` | src/oorexx-3.2.0-leopard/rxregexp/automaton.cpp:343-349 | (a&#124;b)c\* rejects "a". |
| `UnsafePatterns.BarAfterBar` | src/oorexx-3.2.0-leopard/rxregexp/automaton.cpp:243-253 | (a&#124;b) as left operand of &#124;: the pattern with right operand `c` accepts "ac". |
| `Writing.ParsesExactlyWhatIsWritten` | src/oorexx-3.2.0-leopard/rxregexp/automaton.cpp:205-569 | The parser reads a tree up to a position if and only if the text up to there is written for that tree in the notation, a grammar that does not mention the parser, and the pattern ends there: before the end, a closing bracket or an operator that nothing can take. |
| `Writing.WrittenForOneTree` | src/oorexx-3.2.0-leopard/rxregexp/automaton.cpp:205-569 | The notation is unambiguous: a text is written for at most one tree, and parsing it yields that tree and consumes the whole text. |
| `Writing.AtoiReadsNumbers` | src/oorexx-3.2.0-leopard/rxregexp/automaton.cpp:362-377 | A positive number is read from the buffer if and only if the buffer holds white space, an optional plus sign, the decimal digits of the number and no further digit. |
| `Failures.FailsExactlyForItsReason` | src/oorexx-3.2.0-leopard/rxregexp/automaton.cpp:235-569 | The parser reports an error at a position if and only if the reason the error stands for is there: an expression is due and no operand begins, a parenthesis is not closed, an escape or a count breaks off, a count is no number of at least 2, a set is empty, unclosed or breaks off at a dash or backslash, a colon in a set does not begin the name of a class, or a range reaches the largest character. |
| `Printer.ParseInvertsPrint` | src/oorexx-3.2.0-leopard/rxregexp/automaton.cpp:235-569 | Parsing the printed form of any well-shaped printable pattern, sets and counts included, yields that pattern and consumes the text completely. |
| `Syntax.RangeCoversBounds` | src/oorexx-3.2.0-leopard/rxregexp/automaton.cpp:429-450 | A range in a set adds exactly the characters between its bounds; both bounds are in the set if and only if the range ascends or its end was there before: a descending range loses its lower end. |
| `Syntax.DescendingRangeLosesEnd` | src/oorexx-3.2.0-leopard/rxregexp/automaton.cpp:429-450 | `[z-a]` is accepted and stands for 'b' to 'z': 'a' is lost. |
| `Printer.CountParses` | src/oorexx-3.2.0-leopard/rxregexp/automaton.cpp:358-377 | The decimal form of a count between braces is read back as that count. |
| `Engine.Automaton.Parse` | src/oorexx-3.2.0-leopard/rxregexp/automaton.cpp:116-198 | The code is 0 if and only if the beginning of the text is written for a tree and ends there; then the arrays hold the automaton of that tree, the accept gate is `final` and `currentPos` is where the pattern ends. Otherwise the error code and position are those of the reason for failing, and state 0 accepts at once. |
| `Engine.MatchAnythingAccepts` | src/oorexx-3.2.0-leopard/rxregexp/automaton.cpp:139-144 | After a failed parse the matcher reports success at position 0 for every subject, in either mode, and nothing else. |
| `Engine.Automaton.Expression` | src/oorexx-3.2.0-leopard/rxregexp/automaton.cpp:235-255 | The alternatives at the current position are consumed and their automaton is appended; the result is its entry, or the grammar's error. |
| `Engine.Automaton.RightOperand` | src/oorexx-3.2.0-leopard/rxregexp/automaton.cpp:243-253 | After &#124; the exit of the left operand and the branch state are reserved, the right operand is compiled behind them and both are filled in. |
| `Engine.Automaton.Term` | src/oorexx-3.2.0-leopard/rxregexp/automaton.cpp:262-281 | A concatenation is consumed and its automaton appended. |
| `Engine.Automaton.RestOfTerm` | src/oorexx-3.2.0-leopard/rxregexp/automaton.cpp:268-278 | The rest of a concatenation is appended, behind a bridge state when it starts with a parenthesis. |
| `Engine.Automaton.Factor` | src/oorexx-3.2.0-leopard/rxregexp/automaton.cpp:290-398 | A factor with its postfix operator is consumed and its automaton appended; the result is the entry handed back for it. |
| `Engine.Automaton.PostfixOperator` | src/oorexx-3.2.0-leopard/rxregexp/automaton.cpp:343-397 | `*`, `+` or `{n}` after an operand: which states are added, which state is patched and which entry is returned. |
| `Engine.Automaton.Repetition` | src/oorexx-3.2.0-leopard/rxregexp/automaton.cpp:358-395 | `{n}` reads the number as the grammar does, rejects n < 2, and appends n - 1 copies. |
| `Engine.Automaton.CopyStates` | src/oorexx-3.2.0-leopard/rxregexp/automaton.cpp:381-393 | The copying loops emit exactly the relocated copies, bridges included. |
| `Engine.Automaton.SetDefinition` | src/oorexx-3.2.0-leopard/rxregexp/automaton.cpp:409-569 | A set definition adds one set with the members the grammar gives it and one state that tests for it. |
| `Engine.Automaton.SetMember` | src/oorexx-3.2.0-leopard/rxregexp/automaton.cpp:429-553 | One member of a set: character, escaped character, range or symbolic name. |
| `Engine.Automaton.InsertSet` | src/oorexx-3.2.0-leopard/rxregexp/automaton.cpp:623-639 | A set is stored up to its first NUL and its number is its index. |
| `Engine.CheckRange` | src/oorexx-3.2.0-leopard/rxregexp/automaton.cpp:601-610 | Whether a character is new to the ones collected. |
| `Engine.Automaton.SetState` | src/oorexx-3.2.0-leopard/rxregexp/automaton.cpp:578-592 | Writes one state, enlarging the arrays as needed and keeping everything else. |
| `Engine.Automaton.SetMinimal` | src/oorexx-3.2.0-leopard/rxregexp/automaton.cpp:93-105 | Switching the mode rewrites the accept gate and nothing else; without a parsed pattern only the flag changes. |
| `Engine.Automaton.Match` | src/oorexx-3.2.0-leopard/rxregexp/automaton.cpp:649-733 | Terminates on every automaton without epsilon cycles and reports a verdict: success with the first accepting level within the horizon of the mode as position, or failure, when no level accepts, with the length of the longest prefix that can be read as position; both cut off at the length. |
| `Engine.Automaton.InSetArray` | src/oorexx-3.2.0-leopard/rxregexp/automaton.cpp:685-700 | Set lookup with the negation flag. |
| `DoubleQueue.DoubleQueue.constructor` | src/oorexx-3.2.0-leopard/rxregexp/dblqueue.cpp:45-49 | The queue starts with the level marker only. |
| `DoubleQueue.DoubleQueue.Push` | src/oorexx-3.2.0-leopard/rxregexp/dblqueue.cpp:62-67 | Puts an element in front, growing when the front is reached; 0 <= head < tail < size is kept. |
| `DoubleQueue.DoubleQueue.Put` | src/oorexx-3.2.0-leopard/rxregexp/dblqueue.cpp:74-79 | Puts an element at the end, growing when the end is reached. |
| `DoubleQueue.DoubleQueue.Pop` | src/oorexx-3.2.0-leopard/rxregexp/dblqueue.cpp:87-97 | Removes and returns the first element; on an empty queue it reads the slot behind the end once, and returns 0 from then on. |
| `DoubleQueue.DoubleQueue.Enlarge` | src/oorexx-3.2.0-leopard/rxregexp/dblqueue.cpp:106-121 | Doubles the array and keeps the elements in order. |
| `DoubleQueue.DoubleQueue.IsEmpty` | src/oorexx-3.2.0-leopard/rxregexp/dblqueue.hpp:52-55 | True exactly when nothing but the level marker is left. |
| `Simulation.AcceptsIsSpelling` | src/oorexx-3.2.0-leopard/rxregexp/automaton.cpp:649-733 | On a closed automaton a run finishes at a level exactly when the automaton spells the characters read so far up to the accept gate; in maximal mode the gate also needs the end of the subject or a NUL. |
| `Simulation.NextKeeps` | src/oorexx-3.2.0-leopard/rxregexp/automaton.cpp:663-716 | Processing one state of the queue keeps the set of levels at which acceptance is still possible. |
| `Simulation.NextSane` | src/oorexx-3.2.0-leopard/rxregexp/automaton.cpp:663-716 | Expanding a state makes the summed epsilon weight of the current level smaller, although the queue never removes duplicates. |
| `Simulation.EndOfPattern` | src/oorexx-3.2.0-leopard/rxregexp/automaton.cpp:663-732 | When the end of the pattern is taken from the queue, the current position is the first accepting level. |
| `Reading.HeadStep` | src/oorexx-3.2.0-leopard/rxregexp/automaton.cpp:663-716 | Processing one state keeps what the matcher knows: the levels still possible and what can still be read; within a level it makes the work ahead smaller. |
| `Reading.HeadAgain` | src/oorexx-3.2.0-leopard/rxregexp/automaton.cpp:721-724 | At the loop head the queue is current-level states, one marker and next-level states; the marker is met only when the next level is not empty. |
| `Reading.NoneAccepts` | src/oorexx-3.2.0-leopard/rxregexp/automaton.cpp:721-732 | When the queue is exhausted or the subject exceeded, no level accepts and the position reached is the furthest that can be read. |
| `Prefixes.ReadsWhatWordsBeginWith` | src/oorexx-3.2.0-leopard/rxregexp/automaton.cpp:649-733 | A safe pattern whose sets are not empty can read from its start exactly what its words begin with. |
| `Prefixes.FurthestIsLongestBeginning` | src/oorexx-3.2.0-leopard/rxregexp/automaton.cpp:727-729 | For such a pattern the position left by a failing match is the length of the longest prefix of the subject that begins a word of the pattern. |
| `Meaning.MaximalMatchIsMembership` | src/oorexx-3.2.0-leopard/rxregexp/automaton.cpp:649-733 | For a safe pattern and a NUL-free subject, maximal matching succeeds if and only if the whole subject is a word of the pattern, and then the position is its length. |
| `Meaning.MaximalMatchStopsAtNul` | src/oorexx-3.2.0-leopard/rxregexp/automaton.cpp:704-715 | With NULs in the subject, maximal matching succeeds if and only if some word of the pattern ends at a NUL or at the end of the subject. |
| `Meaning.MinimalMatchIsShortestPrefix` | src/oorexx-3.2.0-leopard/rxregexp/automaton.cpp:649-733 | For a safe pattern, minimal matching succeeds if and only if some prefix is a word of the pattern, and the first accepting level is the length of the shortest one. |
| `Meaning.OverreadIsHarmless` | src/oorexx-3.2.0-leopard/rxregexp/automaton.cpp:685-729 | For every compiled pattern, safe or not, both outputs of the matcher, the result and the position after success or failure, depend on the first N characters only, although sets and `?` look beyond them. |
| `Meaning.ModeSwitchIsRecompilation` | src/oorexx-3.2.0-leopard/rxregexp/automaton.cpp:93-105 | Rewriting the accept gate yields exactly the automaton that parsing in the other mode would have produced. |
| `Meaning.SwitchesAreRecompilation` | src/oorexx-3.2.0-leopard/rxregexp/automaton.cpp:93-105 | After any sequence of mode switches the automaton is the one parsing in the last mode would have produced. |
| `Search.SwitchMode` | src/oorexx-3.2.0-leopard/rxregexp/automaton.cpp:93-105 | Any switch of mode keeps a parsed pattern equal to its compilation in the mode now set. |
| `Search.MatchFrom` | src/oorexx-3.2.0-leopard/rxregexp/rxregexp.cpp:236-240 | Matching from a given start decides whether a word of the pattern starts there (minimal, ending at the shortest) or spans the given length (maximal); a failing match leaves the furthest position. |
| `Search.FirstMatch` | src/oorexx-3.2.0-leopard/rxregexp/rxregexp.cpp:235-240 | Trying every start from the left finds the least one at which a word of the pattern starts. |
| `Search.LongestMatch` | src/oorexx-3.2.0-leopard/rxregexp/rxregexp.cpp:247-252 | Trying ever shorter subjects from that start finds the end of the longest non-empty word; if there is none, the position left is 1 when the next character can be read and 0 otherwise. |
| `Search.Pos` | src/oorexx-3.2.0-leopard/rxregexp/rxregexp.cpp:229-268 | Returns the least 1-based start of a match, or 0; stores the end of the shortest match in minimal mode; in maximal mode the position stored is the end of the longest match if and only if that match is not empty or the next character cannot be read, and one past it otherwise; restores mode and arrays. |
| `Search.NonNullableMatchIsNonEmpty` | src/oorexx-3.2.0-leopard/rxregexp/rxregexp.cpp:229-268 | For a pattern that does not match the empty word the longest match always exists, so `Search.Pos` is leftmost-longest without further condition. |
| `Search.EmptyMatchOverruns` | src/oorexx-3.2.0-leopard/rxregexp/rxregexp.cpp:247-257 | `(ab)*` on "a": only the empty word matches, but every position that `Search.Pos` may store in maximal mode is 1. |
| `Session.Init` | src/oorexx-3.2.0-leopard/rxregexp/rxregexp.cpp:55-96 | Creates an automaton in the mode asked for and parses the pattern; the code is 0 exactly when the text begins with a pattern in the notation and 1 to 6 exactly when there is the reason for that error; a safe productive pattern is ready to match. |
| `Session.Match` | src/oorexx-3.2.0-leopard/rxregexp/rxregexp.cpp:166-201 | Matches a subject in the current mode; the position stored is the end of the shortest match, the length, or after a failure the length of the longest prefix that begins a word of the pattern. |
| `Session.Matches` | src/oorexx-3.2.0-leopard/rxregexp/rxregexp.cpp:55-96 | End to end: parsing any text written for a safe productive pattern and matching a NUL-free subject decides whether the subject belongs to the pattern's language. |
| `MixedStrings.EncodeInvertsDecode` | src/oorexx-3.2.0-leopard/kernel/classes/ASCIIDBCSStrings.cpp:150-192 | A valid string is recovered byte for byte from its characters. |
| `MixedStrings.DecodeInvertsEncode` | src/oorexx-3.2.0-leopard/kernel/classes/ASCIIDBCSStrings.cpp:150-192 | Every sequence of characters of the code page is the decoding of exactly one byte string. |
| `MixedStrings.ValidIsEncoded` | src/oorexx-3.2.0-leopard/kernel/classes/ASCIIDBCSStrings.cpp:150-192 | The valid strings are exactly the encodings of character sequences of the code page. |
| `MixedStrings.BlankBytes` | src/oorexx-3.2.0-leopard/kernel/classes/ASCIIDBCSStrings.cpp:337-366 | A character is a blank if and only if its bytes are 20, or 81 and 40. |
| `MixedStrings.PrefixSynchronises` | src/oorexx-3.2.0-leopard/kernel/classes/ASCIIDBCSStrings.cpp:2684-2692 | Prefix code: at a character boundary one encoded text is a prefix of another if and only if the character sequence is. |
| `Cursors.ValidDbcs` | src/oorexx-3.2.0-leopard/kernel/classes/ASCIIDBCSStrings.cpp:150-192 | Accepts exactly the strings without a cut-off character and counts their characters. |
| `Cursors.IncChar` | src/oorexx-3.2.0-leopard/kernel/classes/ASCIIDBCSStrings.cpp:270-300 | Steps over whole characters and reports how many were missing. |
| `Cursors.IncByte` | src/oorexx-3.2.0-leopard/kernel/classes/ASCIIDBCSStrings.cpp:302-335 | Steps over as many characters as fit into the given bytes, never into one. |
| `Cursors.ByteLen` | src/oorexx-3.2.0-leopard/kernel/classes/ASCIIDBCSStrings.cpp:620-634 | The bytes of the first characters of a string. |
| `Cursors.SkipBlanks` | src/oorexx-3.2.0-leopard/kernel/classes/ASCIIDBCSStrings.cpp:337-366 | Drops exactly the leading blanks of either width. |
| `Cursors.SkipNonBlanks` | src/oorexx-3.2.0-leopard/kernel/classes/ASCIIDBCSStrings.cpp:368-397 | Drops exactly the characters before the first blank of either width. |
| `Cursors.StripBlanks` | src/oorexx-3.2.0-leopard/kernel/classes/ASCIIDBCSStrings.cpp:399-442 | Cuts off exactly the trailing blanks of either width. |
| `Buffers.SetPadChar` | src/oorexx-3.2.0-leopard/kernel/classes/ASCIIDBCSStrings.cpp:794-812 | Fills in a number of pad characters of either width and leaves the buffer before them alone. |
| `Compare.CharCompare` | src/oorexx-3.2.0-leopard/kernel/classes/ASCIIDBCSStrings.cpp:487-583 | The result is the comparison of the first characters that differ between the padded texts and the position is its 1-based place; equal and 0 if and only if the padded texts are the same. Without a pad only the common length is compared. |
| `Compare.CompareChrFollowsRank` | src/oorexx-3.2.0-leopard/kernel/classes/ASCIIDBCSStrings.cpp:556-577 | Characters are ordered by a number: single-byte characters by their byte, then double-byte characters by lead byte and second byte. |
| `Compare.ComparisonIsLexicographic` | src/oorexx-3.2.0-leopard/kernel/classes/ASCIIDBCSStrings.cpp:487-583 | Less (greater) is returned if and only if the texts, padded to the same length, agree before the position returned and there the left (right) character has the smaller number; equal if and only if the padded texts are the same. |
| `Compare.ComparisonAntisymmetric` | src/oorexx-3.2.0-leopard/kernel/classes/ASCIIDBCSStrings.cpp:487-583 | Exchanging the operands negates the result and keeps the position. |
| `Compare.ComparisonTransitive` | src/oorexx-3.2.0-leopard/kernel/classes/ASCIIDBCSStrings.cpp:487-583 | With a fixed pad, not greater is transitive, and equal only if both comparisons were. |
| `Compare.ComparisonExists` | src/oorexx-3.2.0-leopard/kernel/classes/ASCIIDBCSStrings.cpp:487-583 | Any two texts compare, with a result of -1, 0 or 1 and a position within the longer one: the order is total. |
| `Compare.ComparisonUnique` | src/oorexx-3.2.0-leopard/kernel/classes/ASCIIDBCSStrings.cpp:487-583 | Result and position are determined by the two texts and the pad. |
| `Compare.StringCompare` | src/oorexx-3.2.0-leopard/kernel/classes/ASCIIDBCSStrings.cpp:1463-1490 | Compares without leading and trailing blanks: equal if and only if the stripped character sequences are identical, less (greater) if and only if the left (right) one, padded with blanks, has the smaller character at the first difference. |
| `Compare.StrippedIsMiddle` | src/oorexx-3.2.0-leopard/kernel/classes/ASCIIDBCSStrings.cpp:1463-1490 | Stripping cuts blanks of either width off both ends, all of them and nothing else. |
| `WordFunctions.NextWord` | src/oorexx-3.2.0-leopard/kernel/classes/ASCIIDBCSStrings.cpp:724-745 | Finds the next word, its length and the slice after it. |
| `WordFunctions.WordLen` | src/oorexx-3.2.0-leopard/kernel/classes/ASCIIDBCSStrings.cpp:692-712 | Counts the words. |
| `WordFunctions.WordPos` | src/oorexx-3.2.0-leopard/kernel/classes/ASCIIDBCSStrings.cpp:1903-2015 | Returns the least word index from the start on at which the words of the phrase equal a slice of the words of the string, 0 exactly when there is none or the phrase is empty. |
| `WordFunctions.ComparePhrase` | src/oorexx-3.2.0-leopard/kernel/classes/ASCIIDBCSStrings.cpp:1966-1997 | Comparing word by word through two cursors decides whether the phrase occurs at a word index. |
| `WordFunctions.SubWord` | src/oorexx-3.2.0-leopard/kernel/classes/ASCIIDBCSStrings.cpp:1654-1713 | Returns the slice from the start of a word to the end of the last word asked for. |
| `WordFunctions.DelWord` | src/oorexx-3.2.0-leopard/kernel/classes/ASCIIDBCSStrings.cpp:1719-1790 | Removes words and the blanks after them, keeping the blanks before. |
| `WordFunctions.Space` | src/oorexx-3.2.0-leopard/kernel/classes/ASCIIDBCSStrings.cpp:2114-2181 | Returns the words with the given number of pads between them. |
| `Words.SubwordWords` | src/oorexx-3.2.0-leopard/kernel/classes/ASCIIDBCSStrings.cpp:1654-1713 | The extracted slice holds exactly the words asked for and has no blank at either end. |
| `Words.SubwordIsSlice` | src/oorexx-3.2.0-leopard/kernel/classes/ASCIIDBCSStrings.cpp:1654-1713 | The result is a slice of the string, blanks between its words included: the words before it are those before the first word asked for, the words behind it those after the last. |
| `Words.DelwordIsCut` | src/oorexx-3.2.0-leopard/kernel/classes/ASCIIDBCSStrings.cpp:1719-1790 | The result is the string without one slice, which starts with the first word to delete and holds the words to delete and the blanks behind them; the blanks before it stay. |
| `Words.WordsPartition` | src/oorexx-3.2.0-leopard/kernel/classes/ASCIIDBCSStrings.cpp:1654-1790 | The words of a string are the first words of the deletion, the extracted words, and the other words of the deletion. |
| `Words.SpaceKeepsWords` | src/oorexx-3.2.0-leopard/kernel/classes/ASCIIDBCSStrings.cpp:2114-2181 | Spacing with a blank pad and a positive count keeps the words and changes nothing the second time. |
| `Words.SpaceFillsGap` | src/oorexx-3.2.0-leopard/kernel/classes/ASCIIDBCSStrings.cpp:2114-2181 | Between two words, whatever blanks stand there, the result has exactly the given number of pads, for every pad and every number, 0 included. |
| `Words.SpaceDropsEnds` | src/oorexx-3.2.0-leopard/kernel/classes/ASCIIDBCSStrings.cpp:2114-2181 | Blanks at either end do not matter; a single word is left alone, and blanks alone give the empty string. |
| `Substrings.Substr` | src/oorexx-3.2.0-leopard/kernel/classes/ASCIIDBCSStrings.cpp:1527-1591 | For all arguments, the bytes of the padded slice of characters. |
| `Substrings.Delstr` | src/oorexx-3.2.0-leopard/kernel/classes/ASCIIDBCSStrings.cpp:1597-1648 | For all arguments, the bytes without the slice of characters. |
| `Substrings.Insert` | src/oorexx-3.2.0-leopard/kernel/classes/ASCIIDBCSStrings.cpp:2357-2455 | For all arguments, the bytes of the padded front, the padded insertion and the rest. |
| `Substrings.Overlay` | src/oorexx-3.2.0-leopard/kernel/classes/ASCIIDBCSStrings.cpp:2461-2565 | For all arguments, the bytes of the padded front, the padded overlay and what lies behind it. |
| `Substrings.SubstrAt` | src/oorexx-3.2.0-leopard/kernel/classes/ASCIIDBCSStrings.cpp:1527-1591 | Character by character: the text where there is some, and pads behind it. |
| `Substrings.DelstrAt` | src/oorexx-3.2.0-leopard/kernel/classes/ASCIIDBCSStrings.cpp:1597-1648 | Character by character: those before the gap stay, those behind it move up, and as many are missing as there were to delete. |
| `Substrings.InsertAt` | src/oorexx-3.2.0-leopard/kernel/classes/ASCIIDBCSStrings.cpp:2357-2455 | Character by character: text or pads before the insertion point, then the new text and its pads, then the rest moved back. |
| `Substrings.OverlayAt` | src/oorexx-3.2.0-leopard/kernel/classes/ASCIIDBCSStrings.cpp:2461-2565 | Character by character: the new text and its pads on top, the old text, or pads where it is too short, elsewhere. |
| `Substrings.InsertUndoesDelete` | src/oorexx-3.2.0-leopard/kernel/classes/ASCIIDBCSStrings.cpp:1597-1648 | Inserting the extracted characters where they were deleted restores the string, for every position and length in range. |
| `Substrings.DeleteUndoesInsert` | src/oorexx-3.2.0-leopard/kernel/classes/ASCIIDBCSStrings.cpp:2357-2455 | Deleting what was inserted restores the string, and extracting it gives the padded insertion. |
| `Substrings.OverlayIsDeleteThenInsert` | src/oorexx-3.2.0-leopard/kernel/classes/ASCIIDBCSStrings.cpp:2461-2565 | Overlaying is deleting and then inserting, for all arguments, although the two share no code. |
| `Substrings.SubstrReadsOverlay` | src/oorexx-3.2.0-leopard/kernel/classes/ASCIIDBCSStrings.cpp:2461-2565 | What was overlaid is read back; the parts before and behind it are the original's, and the length is the larger of the two ends. |
| `Substrings.NeverSplits` | src/oorexx-3.2.0-leopard/kernel/classes/ASCIIDBCSStrings.cpp:1527-1648 | The results of all four functions are valid strings whose characters are those of the specification: no character is split. |
| `Substrings.Pos` | src/oorexx-3.2.0-leopard/kernel/classes/ASCIIDBCSStrings.cpp:2651-2701 | Returns the least 1-based character index after the start at which the needle occurs, 0 if there is none or the needle is empty. |
| `Substrings.BytesDecideOccurrence` | src/oorexx-3.2.0-leopard/kernel/classes/ASCIIDBCSStrings.cpp:2684-2692 | At a character boundary, comparing bytes decides whether the character sequence occurs. |
| `ByteWidth.DbLeft` | src/oorexx-3.2.0-leopard/kernel/classes/ASCIIDBCSStrings.cpp:3063-3138 | The characters that fit into n bytes, then pads of either width. |
| `ByteWidth.DbRight` | src/oorexx-3.2.0-leopard/kernel/classes/ASCIIDBCSStrings.cpp:3144-3227 | Pads of either width, then the characters that fit into the last n bytes. |
| `ByteWidth.DbRleft` | src/oorexx-3.2.0-leopard/kernel/classes/ASCIIDBCSStrings.cpp:3363-3392 | What dbLeft leaves. |
| `ByteWidth.DbRright` | src/oorexx-3.2.0-leopard/kernel/classes/ASCIIDBCSStrings.cpp:3398-3439 | What dbRight leaves. |
| `ByteWidth.LeftIsExact` | src/oorexx-3.2.0-leopard/kernel/classes/ASCIIDBCSStrings.cpp:3063-3138 | dbLeft always gives a valid string of exactly n bytes, for pads of either width. |
| `ByteWidth.RightIsExact` | src/oorexx-3.2.0-leopard/kernel/classes/ASCIIDBCSStrings.cpp:3144-3227 | dbRight always gives a valid string of exactly n bytes, for pads of either width. |
| `ByteWidth.LeftKeepsLongestPrefix` | src/oorexx-3.2.0-leopard/kernel/classes/ASCIIDBCSStrings.cpp:302-335 | dbLeft keeps exactly the prefixes of at most n bytes, hence the longest. |
| `ByteWidth.RightKeepsLongestSuffix` | src/oorexx-3.2.0-leopard/kernel/classes/ASCIIDBCSStrings.cpp:3184-3196 | dbRight keeps exactly the suffixes of at most n bytes, hence the longest. |
| `ByteWidth.LeftConserves` | src/oorexx-3.2.0-leopard/kernel/classes/ASCIIDBCSStrings.cpp:3363-3392 | Byte conservation: the text bytes of dbLeft followed by dbRleft are the string, for every n. |
| `ByteWidth.LeftUnpadded` | src/oorexx-3.2.0-leopard/kernel/classes/ASCIIDBCSStrings.cpp:3363-3392 | dbLeft itself followed by dbRleft is the string if and only if a character ends at n bytes. |
| `ByteWidth.RightConserves` | src/oorexx-3.2.0-leopard/kernel/classes/ASCIIDBCSStrings.cpp:3398-3439 | Byte conservation: dbRright followed by the text bytes of dbRight is the string, for every n, also inside a double-byte character. |
| `ByteWidth.RightUnpadded` | src/oorexx-3.2.0-leopard/kernel/classes/ASCIIDBCSStrings.cpp:3398-3439 | dbRright followed by dbRight itself is the string if and only if a character starts n bytes before the end. |
| `ByteWidth.LeftInside` | src/oorexx-3.2.0-leopard/kernel/classes/ASCIIDBCSStrings.cpp:3063-3138 | Within the string dbLeft pads one odd byte, and only where a character would be split: with the pad if it is a single-byte one, otherwise with a blank. |
| `ByteWidth.RightInside` | src/oorexx-3.2.0-leopard/kernel/classes/ASCIIDBCSStrings.cpp:3144-3227 | Within the string dbRight pads one odd byte, and only where a character would be split: with the pad if it is a single-byte one, otherwise with a blank. |
| `ByteWidth.LeftPads` | src/oorexx-3.2.0-leopard/kernel/classes/ASCIIDBCSStrings.cpp:3063-3138 | Beyond the string dbLeft appends as many single-byte pads as bytes are missing, or half as many double-byte pads and a blank for an odd byte behind them. |
| `ByteWidth.RightPads` | src/oorexx-3.2.0-leopard/kernel/classes/ASCIIDBCSStrings.cpp:3144-3227 | Beyond the string dbRight puts as many single-byte pads as bytes are missing in front, or half as many double-byte pads with a blank for an odd byte in front of them. |

## Left out

- CompilationPreservesMeaning: for an unsafe pattern outside the shapes of `UnsafeFamilies`, or built from several of them, no language is given; an unsafe pattern can still be right by coincidence, as `(a|a)+` is. What is exact for every pattern is the statement about the emitted automaton.
- StarSkipsLeft: the right operand is single-exit, and so is the body of the star in BarFollowsStar; other operands are patched in one of several exits.
- Match: requires an automaton without epsilon cycles; on others the original need not return.
- Parse: a range that ends at the largest character never terminates in the original; the model reports it as an error of its own, `Diverges`.
- Atoi: numbers beyond the range of `int` are undefined in C; the model computes them exactly.
- SymbolicName: the `ctype` tests are a parameter that maps each name to its characters, and upper-casing is ASCII only.
- InSetArray: operator bits, set number and character share one integer in the original; here they are a datatype, which is the same for fewer than 4096 sets.
- NextWord: the slice after the last word is empty; in the original that pointer is left unset and not used.
- SetPadChar: the original takes the width of a pad from its terminating NUL, so that a NUL pad has none; the model takes it from the character. The same holds for every function that pads.
- Substr: omitted arguments and their defaults are resolved by the caller; lengths and positions are explicit. The same holds for Delstr, Insert, Overlay, SubWord, DelWord, Space and the byte-width functions.
- Insert: the character lengths are recounted; the original may have them from an earlier validation.
- Failing allocations, freeing of memory and debug output.
- The Rexx object glue: argument checks, object variables and the automaton pointer stored as text.
- Text that is left over when the parser stops is ignored, as in the original; `Session.Init` reports success for it.
- Caseless comparison and search, `strstr`, `lastpos`, `translate`, `copies`, `center`, `reverse` and cursor movement by characters: either without a clean specification or easy beside the ones modelled.
- Conversion tables between single- and double-byte characters.
