# DFA over {0, 1}: reader, printer and equivalence test

This project models `DFA.java`, a class that holds a complete
deterministic automaton over the binary alphabet. `trans` is an n×2
successor table, `isAccept` has one flag per state, and state 0 is the
start state. The model proves properties of the class's three pieces of
logic:

- **The stream constructor** (`DFA(InputStream)`). It is modelled as
  `Dfa.DFA.Read` over the token sequence a scanner would deliver. Its
  loops fill the two arrays in place:
  - `MarkUnread` writes the `-1` sentinel;
  - `ReadLines` reads the transition lines;
  - `MarkAccepting` reads the accepting ids.

  The method is proved against the pure function `TextFormat.Parse`.
  `TextFormat.ParseExactly` then says, without loops, which inputs the
  reader accepts and what table it builds. The reader's check inspects
  row `s`, but it writes the targets to row `i`. The model keeps this
  quirk and its consequences (see Findings).
- **`print`**. It is modelled as `Dfa.DFA.Print`, which builds the
  written output as a sequence of numbers, spaces and line ends, and is
  proved equal to `TextFormat.Render`. The round trip
  `TextFormat.PrintThenRead` (and `Dfa.PrintedIsReadBack` on objects)
  shows that reading back what `print` writes reproduces the same table
  and accepting flags.
- **`isEquivalentTo`**. In the source it is a stub that always answers
  `true`. That stub is kept as `Dfa.DFA.IsEquivalentToAsWritten`.
  `Dfa.DFA.IsEquivalentTo` is the procedure the doc comment promises:
  - it searches the pairs of states reachable from (0, 0) in lock-step;
  - it keeps a visited n×m grid and a worklist;
  - it answers false at the first pair on which exactly one automaton
    accepts.

  It is proved to answer true exactly when no binary word is accepted by
  exactly one of the two automata (`Semantics.Equivalent`, defined from
  `Semantics.Run`, which is delta*).

Modules:
- `Semantics` holds the automaton value and the language semantics, plus
  language-preserving changes: adding unreachable states and renaming
  states.
- `TextFormat` holds the token-level reader (as written, and corrected)
  and the printer's output.
- `Dfa` holds the class with its arrays.

## Model

| member | source | states |
|---|---|---|
| Dfa.DFA.Alloc | DFA.java:34-38 | allocates n rows of two successors and n flags, every entry at its default (targets 0, nothing accepting) |
| Dfa.DFA.MarkUnread | DFA.java:63-64 | afterwards every row holds the sentinel -1 as its 0-successor (the table is `Unread(n)`) |
| Dfa.DFA.ReadLines | DFA.java:65-71 | the transition-line loop stops with exactly the error `ReadRows` gives, or leaves the table `ReadRows` builds: check row s, store into row i |
| Dfa.DFA.MarkAccepting | DFA.java:72-77 | the accepting-id loop stops with the first missing or out-of-range id, or sets exactly the flags `ReadAccepts` describes |
| Dfa.DFA.Read | DFA.java:57-78 | the stream constructor fails exactly when `Parse` fails, with the same error; otherwise it yields a fresh DFA whose arrays hold `Parse`'s automaton |
| TextFormat.ParseExactly | DFA.java:57-78 | the reader succeeds iff every token is present, no transition line is rejected, and every accepting id is a state; then row j holds line j's targets and a state accepts iff it is listed |
| TextFormat.ParseReportsFirstBadLine | DFA.java:65-68 | the first rejected transition line (state out of range, or a row that no longer holds the sentinel) makes the reader fail with "Bad state number s" for that line's s |
| TextFormat.ParseReportsFirstBadAcceptId | DFA.java:72-75 | after good transition lines, the first out-of-range accepting id makes the reader fail with "Bad accept state s" |
| TextFormat.PermutedLinesRejected | DFA.java:67-70 | lines listed as state 1 then state 0 are rejected with "Bad state number 0" |
| TextFormat.RepeatedStateAccepted | DFA.java:67-70 | lines listing state 1 twice and state 0 never are accepted, with row 0 holding state 1's first line |
| TextFormat.SentinelTargetHidesRepeat | DFA.java:67-70 | a line naming state 0 with 0-successor -1 leaves row 0 looking unread, so a second line naming state 0 is accepted, and row 0 holds (-1, 5) |
| TextFormat.UncheckedTablesAccepted | DFA.java:59-70 | out-of-range targets and a zero state count are accepted, giving automata that are not well formed |
| TextFormat.ParseIntendedExactly | DFA.java:40-53 | the corrected reader succeeds iff n ≥ 1, each line names a distinct state, every target and accepting id is a state; its result is well formed, with each line's targets in the row of the state it names |
| TextFormat.IntendedReaderFixesPlacement | DFA.java:65-70 | on the inputs above, the corrected reader accepts the permuted lines, rejects the repeated state, the bad target, the empty automaton and the -1 target that hides a repeated state |
| Dfa.DFA.Print | DFA.java:86-106 | what `print` writes is exactly `Render` of the DFA's contents |
| TextFormat.AcceptIds | DFA.java:94-104 | the listed ids are exactly the accepting states, strictly ascending, and as many as `CountTrue` counts |
| TextFormat.AcceptLine | DFA.java:94-105 | the accepting line alternates ids and single spaces, starting and ending with an id, and is empty with no accepting state |
| TextFormat.RenderTokens | DFA.java:86-106 | the printed numbers are n, the accepting count, then "i t0 t1" for i = 0..n-1 in order, then the accepting ids |
| TextFormat.PrintThenRead | DFA.java:80-82 | reading back what `print` writes succeeds and yields the same table and accepting flags |
| Dfa.PrintedIsReadBack | DFA.java:80-82 | on objects: printing a DFA and reading the output back gives a DFA with the same contents |
| Dfa.DFA.IsEquivalentToAsWritten | DFA.java:111-114 | the method as written answers true for every pair of DFAs |
| Dfa.StubMisjudgesEverythingVersusNothing | DFA.java:111-114 | on the one-state automata accepting everything and nothing, the stub answers true and the decision procedure false |
| Dfa.DFA.IsEquivalentTo | DFA.java:108-110 | answers true iff no binary word is accepted by exactly one of the two DFAs, both run from state 0 |
| Dfa.DFA.Search | DFA.java:108-110 | the worklist loop, started from a consistent marked grid and worklist, answers true iff the two automata are equivalent |
| Dfa.DFA.Visit | DFA.java:108-110 | expanding one successor either refutes equivalence with a mismatch, or marks it, keeps the grid consistent and reachable-only, and shrinks the unvisited pairs when it is new |
| Dfa.MismatchRefutes | DFA.java:108-110 | a mismatching successor of a reachable pair yields a word that exactly one automaton accepts |
| Dfa.ExploredGrows | DFA.java:108-110 | marking an agreeing successor keeps every marked pair reachable and agreeing |
| Dfa.ExhaustedSearchProvesEquivalence | DFA.java:108-110 | with the worklist empty, the marked pairs are closed under steps and agree, so the automata are equivalent |
| Dfa.VerdictIsReflexive | DFA.java:108-110 | every well-formed DFA is found equivalent to itself |
| Dfa.VerdictIsSymmetric | DFA.java:108-110 | the verdict does not depend on the order of the two DFAs |
| Dfa.VerdictIsTransitive | DFA.java:108-110 | verdicts of equivalence chain |
| Semantics.Run | DFA.java:50-51 | delta* from a state of a well-formed automaton ends in a state |
| Semantics.RunAppend | DFA.java:50-51 | reading one more symbol takes one more step from where the run ended |
| Semantics.ReachableStep | DFA.java:108-110 | the start pair is reachable, and every successor of a reachable pair is reachable |
| Semantics.ClosedAgreeingSetProvesEquivalence | DFA.java:108-110 | a set of pairs holding (0, 0), closed under lock-step moves and free of mismatches, proves language equivalence |
| Semantics.UnreachableStatesKeepLanguage | DFA.java:108-110 | adding states that state 0 cannot reach keeps the language |
| Semantics.RenamingKeepsLanguage | DFA.java:108-110 | renaming the states bijectively, keeping 0 the start state, keeps the language |
| Semantics.EverythingDiffersFromNothing | DFA.java:108-110 | the one-state automaton accepting everything is not equivalent to the one accepting nothing |

## Left out

- `main` (DFA.java:116-144) is not modelled: it opens files, catches the exceptions and prints the verdict.
- `Scanner` tokenisation is not modelled. The reader takes the integers it would deliver, as a `seq<int>`. A missing token is the error `OutOfTokens`. Non-integer tokens are not represented.
- Java's 32-bit `int` is not modelled. Tokens are unbounded integers, and `nextInt`'s rejection of values outside that range is left out.
- `NegativeArraySizeException` for a negative state count is folded into the error value `NegativeArraySize`. Running out of memory for a huge count is not modelled.
- `PrintStream` decimal formatting is not modelled. `print` writes numbers, spaces and line ends (`Out` items), and `Tokens` stands for a scanner reading them back.
- `InputFormatException` is not modelled beyond its two messages, which appear as the error kinds `BadStateNumber` and `BadAcceptState`; the message text is not.
- The arrays of a DFA that the Java reader abandons half-filled when it throws are not modelled. `Dfa.DFA.Read` returns only the error.
- Java's `int[n][2]` (an array of row arrays) is modelled as one `array2<int>`. Rows are never shared or reassigned, so no aliasing is lost.
- Dfa.DFA.IsEquivalentTo: requires both DFAs to be well formed (at least one state, every target a state). The reader does not guarantee this (see Findings).
- Dfa.DFA.IsEquivalentTo: the search keeps a ghost set of marked pairs next to the grid, used only to state the grid's meaning. The worklist is a sequence used as a stack.
- The code as written is followed where it differs from its own doc comment. The doc comment (DFA.java:44-49) keys each transition line by its state number. The check at DFA.java:67 inspects row `s`, but line i is stored in row i (DFA.java:69-70). So the code does not accept the lines in every order. It rejects a repeated state `s` only when the row at position `s` already holds a 0-successor other than -1: tokens `2 0  0 1 1  0 0 0` fail with "Bad state number 0". `TextFormat.Parse` follows the code as written, and `TextFormat.ParseIntended` is the corrected reader.

## Findings

| source | as written | input that shows it | evidently intended | confidence | as-written member | corrected member |
|---|---|---|---|---|---|---|
| DFA.java:67-70 | the duplicate check reads row `s`, but the targets are stored in row `i` | tokens `2 0  1 0 0  0 1 1` (state 1's line first, then state 0's) fail with "Bad state number 0" | each line's targets go into row `s`, so that the lines may come in any order | high, not executed | TextFormat.PermutedLinesRejected | TextFormat.ParseIntendedExactly |
| DFA.java:67-70 | the same mix-up lets a repeated state through while another state's line is missing | tokens `2 0  1 1 1  1 0 0` are accepted, and row 0 receives state 1's first line | a state named twice is a "bad state number" | high, not executed | TextFormat.RepeatedStateAccepted | TextFormat.IntendedReaderFixesPlacement |
| DFA.java:67-70 | a line whose 0-successor is -1 leaves its row looking unread, so a repeat of its state passes the check | tokens `2 0  0 -1 5  0 1 1` name state 0 twice, are accepted, and give row 0 = (-1, 5) | a target of -1 is a bad target, and a state named twice is a "bad state number" | high, not executed | TextFormat.SentinelTargetHidesRepeat | TextFormat.IntendedReaderFixesPlacement |
| DFA.java:59-70 | neither the state count nor the transition targets are checked | tokens `1 0  0 5 7` give a table whose targets 5 and 7 are not states; tokens `0 0` give an automaton without a start state | at least one state, and every target in [0, n) | medium, not executed | TextFormat.UncheckedTablesAccepted | TextFormat.ParseIntendedExactly |
| DFA.java:111-114 | `isEquivalentTo` always returns true | the one-state automaton accepting everything against the one accepting nothing | true exactly for DFAs with the same language | high, not executed | Dfa.DFA.IsEquivalentToAsWritten, Dfa.StubMisjudgesEverythingVersusNothing | Dfa.DFA.IsEquivalentTo |
