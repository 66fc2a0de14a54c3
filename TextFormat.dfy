/**
 * The textual DFA format, on already-tokenised input.
 *
 * The reader of DFA.java reads whitespace-separated integers: `n f`, then n
 * transition lines `s t0 t1`, then f accepting ids.  `Parse` is the value
 * the reader computes from the token sequence, check for check and in the
 * order the checks happen; `ParseIntended` is the reader with its row
 * placement corrected and its targets range-checked.  `Render` is what
 * `print` writes, as integers, spaces and line ends, and `Tokens` is what a
 * whitespace-separated scanner reads back from it.
 */
module TextFormat {
  import opened Semantics

  /** Why reading stops.  The first four are what DFA.java can raise; the
    * last two only the corrected reader reports. */
  datatype ReadError =
    | OutOfTokens              // the scanner runs out of integers
    | NegativeArraySize(n: int)  // the state count is negative
    | BadStateNumber(s: int)   // "Bad state number s"
    | BadAcceptState(s: int)   // "Bad accept state s"
    | BadStateCount(n: int)    // corrected reader: fewer than one state
    | BadTarget(t: int)        // corrected reader: a target that is not a state

  datatype Result<T> = Ok(value: T) | Err(error: ReadError)

  // ---------------------------------------------------------------------
  // Token positions
  // ---------------------------------------------------------------------

  /** Position of the first token of transition line j; LineAt(n) is the
    * position of the first accepting id. */
  function LineAt(j: int): int { 2 + 3 * j }

  /** The state number that transition line j names. */
  function StateOn(tokens: seq<int>, j: int): int
    requires 0 <= j && LineAt(j) < |tokens|
  {
    tokens[LineAt(j)]
  }

  /** The two targets on transition line j. */
  function Targets(tokens: seq<int>, j: int): (int, int)
    requires 0 <= j && LineAt(j) + 3 <= |tokens|
  {
    (tokens[LineAt(j) + 1], tokens[LineAt(j) + 2])
  }

  /** The k-th accepting id, after the n transition lines. */
  function AcceptId(tokens: seq<int>, n: int, k: int): int
    requires 0 <= n && 0 <= k && LineAt(n) + k < |tokens|
  {
    tokens[LineAt(n) + k]
  }

  // ---------------------------------------------------------------------
  // The reader as DFA.java writes it
  // ---------------------------------------------------------------------

  /** The table before any transition line is read: column 0 of every row
    * holds the sentinel -1, column 1 the array default 0. */
  function Unread(n: nat): (rows: seq<(int, int)>)
    ensures |rows| == n
  {
    seq(n, _ => (-1, 0))
  }

  /** The transition-line loop from line i on, with the table `rows` built so
    * far.  The check inspects row s, the line's own state number, but the
    * targets are stored in row i, the line's position. */
  function ReadRows(tokens: seq<int>, n: nat, i: nat, rows: seq<(int, int)>): (r: Result<seq<(int, int)>>)
    requires i <= n && |rows| == n
    ensures r.Ok? ==> |r.value| == n
    ensures r.Ok? && i < n ==> LineAt(n) <= |tokens|
    decreases n - i
  {
    if i == n then Ok(rows)
    else if |tokens| <= LineAt(i) then Err(OutOfTokens)
    else
      var s := tokens[LineAt(i)];
      if s < 0 || s >= n || rows[s].0 != -1 then Err(BadStateNumber(s))
      else if |tokens| < LineAt(i) + 3 then Err(OutOfTokens)
      else ReadRows(tokens, n, i + 1, rows[i := (tokens[LineAt(i) + 1], tokens[LineAt(i) + 2])])
  }

  /** The accepting-id loop from id k on; `f` may be negative, and then the
    * loop reads nothing. */
  function ReadAccepts(tokens: seq<int>, n: nat, f: int, k: nat, acc: seq<bool>): (r: Result<seq<bool>>)
    requires |acc| == n
    ensures r.Ok? ==> |r.value| == n
    ensures r.Ok? && k < f ==> LineAt(n) + f <= |tokens|
    decreases f - k
  {
    if k >= f then Ok(acc)
    else if |tokens| <= LineAt(n) + k then Err(OutOfTokens)
    else
      var s := tokens[LineAt(n) + k];
      if s < 0 || s >= n then Err(BadAcceptState(s))
      else ReadAccepts(tokens, n, f, k + 1, acc[s := true])
  }

  /** Pairs a finished table with the outcome of the accepting-id loop. */
  function WithAccepts(rows: seq<(int, int)>, accepts: Result<seq<bool>>): Result<Automaton>
  {
    match accepts
    case Err(e) => Err(e)
    case Ok(acc) => Ok(Automaton(rows, acc))
  }

  /** Both loops, from transition line i on. */
  function ReadTable(tokens: seq<int>, n: nat, f: int, i: nat, rows: seq<(int, int)>): Result<Automaton>
    requires i <= n && |rows| == n
  {
    match ReadRows(tokens, n, i, rows)
    case Err(e) => Err(e)
    case Ok(table) => WithAccepts(table, ReadAccepts(tokens, n, f, 0, seq(n, _ => false)))
  }

  /** What the reader of DFA.java builds from the tokens, or why it stops. */
  function Parse(tokens: seq<int>): (r: Result<Automaton>)
    ensures r.Ok? ==> |tokens| >= 2 && |r.value.trans| == |r.value.accept| == tokens[0]
  {
    if |tokens| < 2 then Err(OutOfTokens)
    else if tokens[0] < 0 then Err(NegativeArraySize(tokens[0]))
    else ReadTable(tokens, tokens[0], tokens[1], 0, Unread(tokens[0]))
  }

  // ---------------------------------------------------------------------
  // What that reader accepts, stated without its loops
  // ---------------------------------------------------------------------

  /** Transition line j fails the reader's check: its state number is not a
    * state, or it is the number of an EARLIER line position s whose line
    * stored a first target other than -1 (row s is where line s wrote). */
  predicate RejectsLine(tokens: seq<int>, n: int, j: int)
    requires 0 <= j && LineAt(j) < |tokens|
  {
    var s := StateOn(tokens, j);
    s < 0 || s >= n || (s < j && tokens[LineAt(s) + 1] != -1)
  }

  /** Row j of the table the reader stores: the targets of line j, whatever
    * state number that line names. */
  function TargetTable(tokens: seq<int>, n: nat): (t: seq<(int, int)>)
    requires LineAt(n) <= |tokens|
    ensures |t| == n
  {
    seq(n, j requires 0 <= j < n => Targets(tokens, j))
  }

  /** `s` is one of the f accepting ids. */
  ghost predicate IsListed(tokens: seq<int>, n: nat, f: int, s: int)
  {
    exists k :: 0 <= k < f && LineAt(n) + k < |tokens| && AcceptId(tokens, n, k) == s
  }

  ghost function ListedTable(tokens: seq<int>, n: nat, f: int): (t: seq<bool>)
    ensures |t| == n
  {
    seq(n, s requires 0 <= s < n => IsListed(tokens, n, f, s))
  }

  /** The inputs the reader of DFA.java accepts. */
  ghost predicate ReaderAccepts(tokens: seq<int>)
  {
    |tokens| >= 2 && tokens[0] >= 0 &&
    LineAt(tokens[0]) <= |tokens| && LineAt(tokens[0]) + tokens[1] <= |tokens| &&
    (forall j :: 0 <= j < tokens[0] ==> !RejectsLine(tokens, tokens[0], j)) &&
    (forall k :: 0 <= k < tokens[1] ==> 0 <= AcceptId(tokens, tokens[0], k) < tokens[0])
  }

  /** The transition loop succeeds exactly when no line from i on is
    * rejected, and then row j holds the targets of line j. */
  lemma {:induction false} ReadRowsExactly(tokens: seq<int>, n: nat, i: nat, rows: seq<(int, int)>)
    requires i <= n && |rows| == n && LineAt(n) <= |tokens|
    requires forall j :: 0 <= j < i ==> rows[j] == Targets(tokens, j)
    requires forall j :: i <= j < n ==> rows[j].0 == -1
    ensures ReadRows(tokens, n, i, rows).Ok? <==> forall j :: i <= j < n ==> !RejectsLine(tokens, n, j)
    ensures ReadRows(tokens, n, i, rows).Ok? ==> ReadRows(tokens, n, i, rows).value == TargetTable(tokens, n)
    decreases n - i
  {
    if i == n {
      assert rows == TargetTable(tokens, n);
    } else {
      var s := StateOn(tokens, i);
      assert 0 <= s < n ==> (rows[s].0 != -1 <==> s < i && tokens[LineAt(s) + 1] != -1);
      if !RejectsLine(tokens, n, i) {
        ReadRowsExactly(tokens, n, i + 1, rows[i := Targets(tokens, i)]);
      }
    }
  }

  /** The first rejected line decides the error. */
  lemma {:induction false} ReadRowsFirstBadLine(tokens: seq<int>, n: nat, i: nat, rows: seq<(int, int)>, r: nat)
    requires i <= r < n && |rows| == n && LineAt(r) < |tokens|
    requires forall j :: 0 <= j < i ==> rows[j] == Targets(tokens, j)
    requires forall j :: i <= j < n ==> rows[j].0 == -1
    requires RejectsLine(tokens, n, r) && forall j :: i <= j < r ==> !RejectsLine(tokens, n, j)
    ensures ReadRows(tokens, n, i, rows) == Err(BadStateNumber(StateOn(tokens, r)))
    decreases r - i
  {
    var s := StateOn(tokens, i);
    assert 0 <= s < n ==> (rows[s].0 != -1 <==> s < i && tokens[LineAt(s) + 1] != -1);
    if i < r {
      assert !RejectsLine(tokens, n, i);
      ReadRowsFirstBadLine(tokens, n, i + 1, rows[i := Targets(tokens, i)], r);
    }
  }

  /** The accepting-id loop succeeds exactly when every id from k on is a
    * state, and then it marks the listed ids on top of `acc`. */
  lemma {:induction false} ReadAcceptsExactly(tokens: seq<int>, n: nat, f: int, k: nat, acc: seq<bool>)
    requires |acc| == n && LineAt(n) + f <= |tokens|
    ensures ReadAccepts(tokens, n, f, k, acc).Ok? <==>
              forall j :: k <= j < f ==> 0 <= AcceptId(tokens, n, j) < n
    ensures ReadAccepts(tokens, n, f, k, acc).Ok? ==>
              forall s :: 0 <= s < n ==>
                (ReadAccepts(tokens, n, f, k, acc).value[s] <==>
                   acc[s] || exists j :: k <= j < f && AcceptId(tokens, n, j) == s)
    decreases f - k
  {
    if k < f {
      var s := AcceptId(tokens, n, k);
      if 0 <= s < n {
        ReadAcceptsExactly(tokens, n, f, k + 1, acc[s := true]);
        if ReadAccepts(tokens, n, f, k, acc).Ok? {
          var r := ReadAccepts(tokens, n, f, k, acc).value;
          forall x | 0 <= x < n
            ensures r[x] <==> acc[x] || exists j :: k <= j < f && AcceptId(tokens, n, j) == x
          {
            if r[x] && !acc[x] && x != s {
              var j :| k + 1 <= j < f && AcceptId(tokens, n, j) == x;
            }
          }
        }
      }
    }
  }

  /** The first out-of-range accepting id decides the error. */
  lemma {:induction false} ReadAcceptsFirstBadId(tokens: seq<int>, n: nat, f: int, k: nat, acc: seq<bool>, r: nat)
    requires |acc| == n && k <= r < f && LineAt(n) + r < |tokens|
    requires !(0 <= AcceptId(tokens, n, r) < n)
    requires forall j :: k <= j < r ==> 0 <= AcceptId(tokens, n, j) < n
    ensures ReadAccepts(tokens, n, f, k, acc) == Err(BadAcceptState(AcceptId(tokens, n, r)))
    decreases r - k
  {
    if k < r {
      ReadAcceptsFirstBadId(tokens, n, f, k + 1, acc[AcceptId(tokens, n, k) := true], r);
    }
  }

  /** The reader succeeds exactly on the inputs `ReaderAccepts` describes.
    * Then the table has exactly n rows, row j holds the targets of the j-th
    * transition line (not of the line naming state j), and a state accepts
    * exactly when it is listed, however often. */
  lemma ParseExactly(tokens: seq<int>)
    ensures Parse(tokens).Ok? <==> ReaderAccepts(tokens)
    ensures Parse(tokens).Ok? ==>
              Parse(tokens).value == Automaton(TargetTable(tokens, tokens[0]),
                                               ListedTable(tokens, tokens[0], tokens[1]))
  {
    if |tokens| >= 2 && tokens[0] >= 0 {
      var n, f := tokens[0], tokens[1];
      var rows := ReadRows(tokens, n, 0, Unread(n));
      if LineAt(n) <= |tokens| {
        ReadRowsExactly(tokens, n, 0, Unread(n));
        if rows.Ok? && LineAt(n) + f <= |tokens| {
          var falses := seq(n, _ => false);
          ReadAcceptsExactly(tokens, n, f, 0, falses);
          var accepts := ReadAccepts(tokens, n, f, 0, falses);
          if accepts.Ok? {
            forall s | 0 <= s < n ensures accepts.value[s] == ListedTable(tokens, n, f)[s] {
              if accepts.value[s] {
                var j :| 0 <= j < f && AcceptId(tokens, n, j) == s;
                assert IsListed(tokens, n, f, s);
              }
            }
          }
        }
      }
    }
  }

  /** "Bad state number s" names the state number on the first rejected
    * transition line. */
  lemma ParseReportsFirstBadLine(tokens: seq<int>, r: nat)
    requires |tokens| >= 2 && 0 <= r < tokens[0] && LineAt(r) < |tokens|
    requires RejectsLine(tokens, tokens[0], r)
    requires forall j :: 0 <= j < r ==> !RejectsLine(tokens, tokens[0], j)
    ensures Parse(tokens) == Err(BadStateNumber(StateOn(tokens, r)))
  {
    ReadRowsFirstBadLine(tokens, tokens[0], 0, Unread(tokens[0]), r);
  }

  /** "Bad accept state s" names the first accepting id that is not a state,
    * once every transition line has passed. */
  lemma ParseReportsFirstBadAcceptId(tokens: seq<int>, r: nat)
    requires |tokens| >= 2 && tokens[0] >= 0 && LineAt(tokens[0]) + r < |tokens|
    requires forall j :: 0 <= j < tokens[0] ==> !RejectsLine(tokens, tokens[0], j)
    requires r < tokens[1] && !(0 <= AcceptId(tokens, tokens[0], r) < tokens[0])
    requires forall j :: 0 <= j < r ==> 0 <= AcceptId(tokens, tokens[0], j) < tokens[0]
    ensures Parse(tokens) == Err(BadAcceptState(AcceptId(tokens, tokens[0], r)))
  {
    var n := tokens[0];
    ReadRowsExactly(tokens, n, 0, Unread(n));
    ReadAcceptsFirstBadId(tokens, n, tokens[1], 0, seq(n, _ => false), r);
  }

  // ---------------------------------------------------------------------
  // Consequences of the row placement (the as-written reader)
  // ---------------------------------------------------------------------

  /** Two states listed in the order 1, 0: a complete table, yet the second
    * line is refused, because row 0 already holds line 0's targets. */
  lemma PermutedLinesRejected()
    ensures Parse([2, 0, 1, 0, 0, 0, 1, 1]) == Err(BadStateNumber(0))
  {
    ParseReportsFirstBadLine([2, 0, 1, 0, 0, 0, 1, 1], 1);
  }

  /** State 1 listed twice and state 0 never: accepted, and row 0 silently
    * receives the targets of a line about state 1. */
  lemma RepeatedStateAccepted()
    ensures Parse([2, 0, 1, 1, 1, 1, 0, 0]) == Ok(Automaton([(1, 1), (0, 0)], [false, false]))
  {
    var t := [2, 0, 1, 1, 1, 1, 0, 0];
    ParseExactly(t);
    assert !RejectsLine(t, 2, 0) && !RejectsLine(t, 2, 1);
    assert TargetTable(t, 2) == [(1, 1), (0, 0)];
    assert ListedTable(t, 2, 0) == [false, false];
  }

  /** State 0 listed twice: the first line stores -1 as row 0's 0-successor,
    * so row 0 still looks unread and the repeat passes the check. */
  lemma SentinelTargetHidesRepeat()
    ensures Parse([2, 0, 0, -1, 5, 0, 1, 1]) == Ok(Automaton([(-1, 5), (1, 1)], [false, false]))
  {
    var t := [2, 0, 0, -1, 5, 0, 1, 1];
    ParseExactly(t);
    assert !RejectsLine(t, 2, 0) && !RejectsLine(t, 2, 1);
    assert TargetTable(t, 2) == [(-1, 5), (1, 1)];
    assert ListedTable(t, 2, 0) == [false, false];
  }

  /** A target that is not a state, and an automaton with no start state,
    * are both read without complaint. */
  lemma UncheckedTablesAccepted()
    ensures Parse([1, 0, 0, 5, 7]) == Ok(Automaton([(5, 7)], [false]))
    ensures !Parse([1, 0, 0, 5, 7]).value.WellFormed()
    ensures Parse([0, 0]) == Ok(Automaton([], []))
  {
    ParseExactly([0, 0]);
    assert ReaderAccepts([0, 0]);
    assert TargetTable([0, 0], 0) == [];
    assert ListedTable([0, 0], 0, 0) == [];
    var t := [1, 0, 0, 5, 7];
    ParseExactly(t);
    assert !RejectsLine(t, 1, 0);
    assert ReaderAccepts(t);
    assert TargetTable(t, 1) == [(5, 7)];
    assert ListedTable(t, 1, 0) == [false];
    assert Parse(t).value.trans[0].0 == 5;
  }

  // ---------------------------------------------------------------------
  // The reader as evidently intended
  // ---------------------------------------------------------------------

  /** Corrected transition loop: the check and the store both use row s, and
    * both targets must be states (so a stored row never holds -1). */
  function ReadRowsIntended(tokens: seq<int>, n: nat, i: nat, rows: seq<(int, int)>): (r: Result<seq<(int, int)>>)
    requires i <= n && |rows| == n
    ensures r.Ok? ==> |r.value| == n
    decreases n - i
  {
    if i == n then Ok(rows)
    else if |tokens| <= LineAt(i) then Err(OutOfTokens)
    else
      var s := tokens[LineAt(i)];
      if s < 0 || s >= n || rows[s].0 != -1 then Err(BadStateNumber(s))
      else if |tokens| < LineAt(i) + 3 then Err(OutOfTokens)
      else
        var t0, t1 := tokens[LineAt(i) + 1], tokens[LineAt(i) + 2];
        if t0 < 0 || t0 >= n then Err(BadTarget(t0))
        else if t1 < 0 || t1 >= n then Err(BadTarget(t1))
        else ReadRowsIntended(tokens, n, i + 1, rows[s := (t0, t1)])
  }

  /** Corrected reader: at least one state, rows placed by state number. */
  function ParseIntended(tokens: seq<int>): Result<Automaton>
  {
    if |tokens| < 2 then Err(OutOfTokens)
    else if tokens[0] < 1 then Err(BadStateCount(tokens[0]))
    else
      var n := tokens[0];
      match ReadRowsIntended(tokens, n, 0, Unread(n))
      case Err(e) => Err(e)
      case Ok(table) => WithAccepts(table, ReadAccepts(tokens, n, tokens[1], 0, seq(n, _ => false)))
  }

  /** The number of rows still holding the sentinel. */
  function Sentinels(rows: seq<(int, int)>): (c: nat)
    ensures c <= |rows|
    ensures c == 0 <==> forall x :: 0 <= x < |rows| ==> rows[x].0 != -1
  {
    if rows == [] then 0
    else Sentinels(rows[..|rows| - 1]) + (if rows[|rows| - 1].0 == -1 then 1 else 0)
  }

  /** Filling a sentinel row with a real row removes one sentinel. */
  lemma {:induction false} FillingRemovesSentinel(rows: seq<(int, int)>, s: int, row: (int, int))
    requires 0 <= s < |rows| && rows[s].0 == -1 && row.0 != -1
    ensures Sentinels(rows[s := row]) == Sentinels(rows) - 1
    decreases |rows|
  {
    var last := |rows| - 1;
    assert rows[s := row][..last] == if s == last then rows[..last] else rows[..last][s := row];
    if s < last {
      FillingRemovesSentinel(rows[..last], s, row);
    }
  }

  /** Transition line j is acceptable to the corrected reader: it names a
    * state no earlier line named, and both targets are states. */
  predicate IntendedLineOk(tokens: seq<int>, n: int, j: int)
    requires 0 <= j && LineAt(j) + 3 <= |tokens|
  {
    0 <= StateOn(tokens, j) < n &&
    (forall k :: 0 <= k < j ==> StateOn(tokens, k) != StateOn(tokens, j)) &&
    0 <= Targets(tokens, j).0 < n && 0 <= Targets(tokens, j).1 < n
  }

  /** The inputs the corrected reader accepts: any order of the n lines, as
    * long as each names a different state. */
  ghost predicate IntendedAccepts(tokens: seq<int>)
  {
    |tokens| >= 2 && tokens[0] >= 1 &&
    LineAt(tokens[0]) <= |tokens| && LineAt(tokens[0]) + tokens[1] <= |tokens| &&
    (forall j :: 0 <= j < tokens[0] ==> IntendedLineOk(tokens, tokens[0], j)) &&
    (forall k :: 0 <= k < tokens[1] ==> 0 <= AcceptId(tokens, tokens[0], k) < tokens[0])
  }

  /** What the corrected loop knows after i lines: each line so far was
    * acceptable and its targets sit in the row of the state it names, a row
    * still holds the sentinel exactly when no line has named its state, and
    * n - i rows hold it. */
  ghost predicate Bookkept(tokens: seq<int>, n: nat, i: nat, rows: seq<(int, int)>)
  {
    i <= n && |rows| == n && LineAt(i) <= |tokens| &&
    (forall j :: 0 <= j < i ==>
       IntendedLineOk(tokens, n, j) && rows[StateOn(tokens, j)] == Targets(tokens, j)) &&
    (forall x :: 0 <= x < n ==>
       (rows[x].0 == -1 <==> forall j :: 0 <= j < i ==> StateOn(tokens, j) != x)) &&
    Sentinels(rows) == n - i
  }

  /** The table before the first line is bookkept. */
  lemma {:induction false} UnreadBookkept(tokens: seq<int>, n: nat)
    requires LineAt(0) <= |tokens|
    ensures Bookkept(tokens, n, 0, Unread(n))
    decreases n
  {
    if n > 0 {
      UnreadBookkept(tokens, n - 1);
      assert Unread(n)[..n - 1] == Unread(n - 1);
    }
  }

  /** The corrected check on line i passes exactly when the line is acceptable. */
  lemma IntendedCheckExactly(tokens: seq<int>, n: nat, i: nat, rows: seq<(int, int)>)
    requires Bookkept(tokens, n, i, rows) && i < n && LineAt(i) + 3 <= |tokens|
    ensures var s := StateOn(tokens, i);
            (0 <= s < n && rows[s].0 == -1 &&
             0 <= Targets(tokens, i).0 < n && 0 <= Targets(tokens, i).1 < n)
            <==> IntendedLineOk(tokens, n, i)
  {
    var s := StateOn(tokens, i);
    if 0 <= s < n && rows[s].0 != -1 {
      var j :| 0 <= j < i && StateOn(tokens, j) == s;
    }
  }

  /** Storing an acceptable line in its own row keeps the bookkeeping. */
  lemma IntendedStepBookkept(tokens: seq<int>, n: nat, i: nat, rows: seq<(int, int)>)
    requires Bookkept(tokens, n, i, rows) && i < n && LineAt(i) + 3 <= |tokens|
    requires IntendedLineOk(tokens, n, i)
    ensures Bookkept(tokens, n, i + 1, rows[StateOn(tokens, i) := Targets(tokens, i)])
  {
    var s := StateOn(tokens, i);
    IntendedCheckExactly(tokens, n, i, rows);
    FillingRemovesSentinel(rows, s, Targets(tokens, i));
  }

  /** With every line read, no sentinel is left: every row holds a line's
    * targets, which are states. */
  lemma IntendedTableComplete(tokens: seq<int>, n: nat, rows: seq<(int, int)>)
    requires Bookkept(tokens, n, n, rows)
    ensures forall x :: 0 <= x < n ==> 0 <= rows[x].0 < n && 0 <= rows[x].1 < n
  {
    forall x | 0 <= x < n ensures 0 <= rows[x].0 < n && 0 <= rows[x].1 < n {
      assert rows[x].0 != -1;
      var j :| 0 <= j < n && StateOn(tokens, j) == x;
    }
  }

  /** The corrected loop from line i on succeeds exactly when every remaining
    * line is acceptable, and then it yields a table of states in which each
    * line's targets sit in the row of the state it names. */
  lemma {:induction false} ReadRowsIntendedExactly(tokens: seq<int>, n: nat, i: nat, rows: seq<(int, int)>)
    requires Bookkept(tokens, n, i, rows)
    ensures ReadRowsIntended(tokens, n, i, rows).Ok? <==>
              LineAt(n) <= |tokens| && forall j :: i <= j < n ==> IntendedLineOk(tokens, n, j)
    ensures ReadRowsIntended(tokens, n, i, rows).Ok? ==>
              Bookkept(tokens, n, n, ReadRowsIntended(tokens, n, i, rows).value)
    decreases n - i
  {
    if i < n && LineAt(i) + 3 <= |tokens| {
      IntendedCheckExactly(tokens, n, i, rows);
      if IntendedLineOk(tokens, n, i) {
        IntendedStepBookkept(tokens, n, i, rows);
        ReadRowsIntendedExactly(tokens, n, i + 1, rows[StateOn(tokens, i) := Targets(tokens, i)]);
      }
    }
  }

  /** The corrected reader succeeds exactly on `IntendedAccepts` inputs, and
    * its result is a well-formed DFA in which each line's targets sit in
    * the row of the state it names. */
  lemma ParseIntendedExactly(tokens: seq<int>)
    ensures ParseIntended(tokens).Ok? <==> IntendedAccepts(tokens)
    ensures ParseIntended(tokens).Ok? ==>
              var a := ParseIntended(tokens).value;
              a.WellFormed() && |a.trans| == tokens[0] &&
              (forall j :: 0 <= j < tokens[0] ==>
                 0 <= StateOn(tokens, j) < tokens[0] && a.trans[StateOn(tokens, j)] == Targets(tokens, j)) &&
              a.accept == ListedTable(tokens, tokens[0], tokens[1])
  {
    if |tokens| >= 2 && tokens[0] >= 1 {
      var n, f := tokens[0], tokens[1];
      UnreadBookkept(tokens, n);
      ReadRowsIntendedExactly(tokens, n, 0, Unread(n));
      var rows := ReadRowsIntended(tokens, n, 0, Unread(n));
      if rows.Ok? {
        IntendedTableComplete(tokens, n, rows.value);
        if LineAt(n) + f <= |tokens| {
          var falses := seq(n, _ => false);
          ReadAcceptsExactly(tokens, n, f, 0, falses);
          var accepts := ReadAccepts(tokens, n, f, 0, falses);
          if accepts.Ok? {
            forall s | 0 <= s < n ensures accepts.value[s] == ListedTable(tokens, n, f)[s] {
              if accepts.value[s] {
                var j :| 0 <= j < f && AcceptId(tokens, n, j) == s;
                assert IsListed(tokens, n, f, s);
              }
            }
          }
        }
      }
    }
  }

  /** The same inputs as in the as-written lemmas above, read correctly. */
  lemma IntendedReaderFixesPlacement()
    ensures ParseIntended([2, 0, 1, 0, 0, 0, 1, 1]) == Ok(Automaton([(1, 1), (0, 0)], [false, false]))
    ensures ParseIntended([2, 0, 1, 1, 1, 1, 0, 0]) == Err(BadStateNumber(1))
    ensures ParseIntended([1, 0, 0, 5, 7]) == Err(BadTarget(5))
    ensures ParseIntended([0, 0]) == Err(BadStateCount(0))
    ensures ParseIntended([2, 0, 0, -1, 5, 0, 1, 1]) == Err(BadTarget(-1))
  {
    var t := [2, 0, 1, 0, 0, 0, 1, 1];
    ParseIntendedExactly(t);
    assert IntendedLineOk(t, 2, 0) && IntendedLineOk(t, 2, 1);
    var a := ParseIntended(t).value;
    assert StateOn(t, 0) == 1 && StateOn(t, 1) == 0;
    assert a.trans == [(1, 1), (0, 0)];
    assert ListedTable(t, 2, 0) == [false, false];
    var u := [2, 0, 1, 1, 1, 1, 0, 0];
    assert Unread(2) == [(-1, 0), (-1, 0)];
    assert ReadRowsIntended(u, 2, 1, [(-1, 0), (1, 1)]) == Err(BadStateNumber(1));
    assert ReadRowsIntended(u, 2, 0, Unread(2)) == Err(BadStateNumber(1));
    assert Unread(1) == [(-1, 0)];
    assert ReadRowsIntended([1, 0, 0, 5, 7], 1, 0, Unread(1)) == Err(BadTarget(5));
    assert ReadRowsIntended([2, 0, 0, -1, 5, 0, 1, 1], 2, 0, Unread(2)) == Err(BadTarget(-1));
  }

  // ---------------------------------------------------------------------
  // The writer
  // ---------------------------------------------------------------------

  /** What `print` writes: decimal integers, single spaces and line ends. */
  datatype Out = Num(v: int) | Space | Newline

  /** The integers a whitespace-separated scanner reads back, in order. */
  function Tokens(out: seq<Out>): seq<int>
  {
    if out == [] then []
    else (if out[0].Num? then [out[0].v] else []) + Tokens(out[1..])
  }

  /** The scanner reads the first item, then the rest. */
  lemma TokensCons(o: Out, rest: seq<Out>)
    ensures Tokens([o] + rest) == (if o.Num? then [o.v] else []) + Tokens(rest)
  {
    assert ([o] + rest)[1..] == rest;
  }

  lemma {:induction false} TokensAppend(x: seq<Out>, y: seq<Out>)
    ensures Tokens(x + y) == Tokens(x) + Tokens(y)
    decreases |x|
  {
    if x != [] {
      assert (x + y)[0] == x[0];
      assert (x + y)[1..] == x[1..] + y;
      TokensAppend(x[1..], y);
    } else {
      assert x + y == y;
    }
  }

  /** The number of accepting states, as the first loop of `print` counts them. */
  function CountTrue(acc: seq<bool>): (c: nat)
    ensures c <= |acc|
  {
    if acc == [] then 0
    else CountTrue(acc[..|acc| - 1]) + (if acc[|acc| - 1] then 1 else 0)
  }

  /** The accepting states in the order the last loop of `print` meets them. */
  function AcceptIds(acc: seq<bool>): (ids: seq<int>)
    ensures |ids| == CountTrue(acc)
    ensures forall k :: 0 <= k < |ids| ==> 0 <= ids[k] < |acc| && acc[ids[k]]
    ensures forall s :: 0 <= s < |acc| && acc[s] ==> s in ids
    ensures forall k, l :: 0 <= k < l < |ids| ==> ids[k] < ids[l]
  {
    if acc == [] then []
    else AcceptIds(acc[..|acc| - 1]) + (if acc[|acc| - 1] then [|acc| - 1] else [])
  }

  /** The last line of `print`: the ids separated by single spaces, with no
    * leading or trailing space, and empty when there are none. */
  function AcceptLine(ids: seq<int>): (line: seq<Out>)
    ensures |line| == if ids == [] then 0 else 2 * |ids| - 1
    ensures forall j :: 0 <= j < |line| ==> line[j] == if j % 2 == 0 then Num(ids[j / 2]) else Space
  {
    if |ids| == 0 then []
    else if |ids| == 1 then [Num(ids[0])]
    else AcceptLine(ids[..|ids| - 1]) + [Space, Num(ids[|ids| - 1])]
  }

  /** The scanner reads the ids back from the last line. */
  lemma {:induction false} AcceptLineTokens(ids: seq<int>)
    ensures Tokens(AcceptLine(ids)) == ids
    decreases |ids|
  {
    if |ids| > 1 {
      var init := ids[..|ids| - 1];
      AcceptLineTokens(init);
      TokensAppend(AcceptLine(init), [Space, Num(ids[|ids| - 1])]);
      var x := ids[|ids| - 1];
      TokensCons(Space, [Num(x)]);
      TokensCons(Num(x), []);
      assert [Space] + [Num(x)] == [Space, Num(x)];
      assert [Num(x)] + [] == [Num(x)];
      assert init + [ids[|ids| - 1]] == ids;
    }
  }

  /** Scanning one more flag adds its index when it is set. */
  lemma AcceptIdsPrefix(acc: seq<bool>, i: int)
    requires 0 <= i < |acc|
    ensures AcceptIds(acc[..i + 1]) == AcceptIds(acc[..i]) + (if acc[i] then [i] else [])
    ensures CountTrue(acc[..i + 1]) == CountTrue(acc[..i]) + (if acc[i] then 1 else 0)
  {
    assert acc[..i + 1][..i] == acc[..i];
  }

  /** Printing one more accepting id: the first one bare, later ones after
    * a space. */
  lemma AcceptLineSnoc(ids: seq<int>, s: int)
    ensures AcceptLine(ids + [s]) == AcceptLine(ids) + (if ids == [] then [Num(s)] else [Space, Num(s)])
  {
    assert (ids + [s])[..|ids|] == ids;
  }

  /** The lines `i t0 t1` for the first k states, in increasing order. */
  function RowLines(rows: seq<(int, int)>, k: nat): (out: seq<Out>)
    requires k <= |rows|
    ensures |out| == 6 * k
  {
    if k == 0 then []
    else RowLines(rows, k - 1) + [Num(k - 1), Space, Num(rows[k - 1].0), Space, Num(rows[k - 1].1), Newline]
  }

  /** After the two header tokens, line i of the table is read back as the
    * three tokens i, t0, t1 at the positions the reader expects them. */
  lemma {:induction false} RowLinesTokens(rows: seq<(int, int)>, k: nat, header: seq<int>)
    requires k <= |rows| && |header| == 2
    ensures var t := header + Tokens(RowLines(rows, k));
            |t| == LineAt(k) &&
            forall i :: 0 <= i < k ==>
              t[LineAt(i)] == i && t[LineAt(i) + 1] == rows[i].0 && t[LineAt(i) + 2] == rows[i].1
    decreases k
  {
    if k > 0 {
      RowLinesTokens(rows, k - 1, header);
      var line := [Num(k - 1), Space, Num(rows[k - 1].0), Space, Num(rows[k - 1].1), Newline];
      TokensAppend(RowLines(rows, k - 1), line);
      TokensOfRowLine(k - 1, rows[k - 1].0, rows[k - 1].1);
    }
  }

  /** The scanner reads a table line `i t0 t1` back as three tokens. */
  lemma TokensOfRowLine(i: int, t0: int, t1: int)
    ensures Tokens([Num(i), Space, Num(t0), Space, Num(t1), Newline]) == [i, t0, t1]
  {
    var line := [Num(i), Space, Num(t0), Space, Num(t1), Newline];
    assert Tokens(line[5..]) == [];
    assert Tokens(line[4..]) == [t1] by { assert line[4..][1..] == line[5..]; }
    assert Tokens(line[3..]) == [t1] by { assert line[3..][1..] == line[4..]; }
    assert Tokens(line[2..]) == [t0, t1] by { assert line[2..][1..] == line[3..]; }
    assert Tokens(line[1..]) == [t0, t1] by { assert line[1..][1..] == line[2..]; }
  }

  /** Everything `print` writes for `a`: the header line `n f`, the n table
    * lines, and the line of accepting states. */
  function Render(a: Automaton): seq<Out>
    requires |a.trans| == |a.accept|
  {
    [Num(|a.accept|), Space, Num(CountTrue(a.accept)), Newline] +
    RowLines(a.trans, |a.trans|) +
    AcceptLine(AcceptIds(a.accept)) + [Newline]
  }

  /** The token layout of the output: n and the accepting count, then line i
    * as `i t0 t1` for every i in increasing order, then the accepting ids
    * in strictly ascending order. */
  lemma RenderTokens(a: Automaton)
    requires |a.trans| == |a.accept|
    ensures var t := Tokens(Render(a));
            var n, ids := |a.accept|, AcceptIds(a.accept);
            |t| == LineAt(n) + |ids| && t[0] == n && t[1] == |ids| &&
            (forall i :: 0 <= i < n ==>
               t[LineAt(i)] == i && t[LineAt(i) + 1] == a.trans[i].0 && t[LineAt(i) + 2] == a.trans[i].1) &&
            (forall k :: 0 <= k < |ids| ==> AcceptId(t, n, k) == ids[k])
  {
    var n, ids := |a.accept|, AcceptIds(a.accept);
    var header := [n, |ids|];
    RenderTokenParts(a);
    RowLinesTokens(a.trans, n, header);
    var t := Tokens(Render(a));
    var front := header + Tokens(RowLines(a.trans, n));
    assert t == front + ids;
    forall i | 0 <= i < n
      ensures t[LineAt(i)] == i && t[LineAt(i) + 1] == a.trans[i].0 && t[LineAt(i) + 2] == a.trans[i].1
    {
      assert t[LineAt(i)] == front[LineAt(i)];
      assert t[LineAt(i) + 1] == front[LineAt(i) + 1];
      assert t[LineAt(i) + 2] == front[LineAt(i) + 2];
    }
  }

  /** The output splits into the header tokens, the table tokens and the ids. */
  lemma RenderTokenParts(a: Automaton)
    requires |a.trans| == |a.accept|
    ensures Tokens(Render(a)) ==
              [|a.accept|, CountTrue(a.accept)] + Tokens(RowLines(a.trans, |a.trans|)) + AcceptIds(a.accept)
  {
    var n, ids := |a.accept|, AcceptIds(a.accept);
    var head := [Num(n), Space, Num(|ids|), Newline];
    var rows := RowLines(a.trans, n);
    var last := AcceptLine(ids);
    assert Render(a) == head + rows + (last + [Newline]);
    TokensAppend(head + rows, last + [Newline]);
    TokensAppend(head, rows);
    TokensAppend(last, [Newline]);
    AcceptLineTokens(ids);
    assert Tokens([Newline]) == [];
    assert Tokens(head[2..]) == [|ids|] by { assert head[2..][1..] == [Newline]; }
    assert Tokens(head[1..]) == [|ids|] by { assert head[1..][1..] == head[2..]; }
    assert Tokens(head) == [n, |ids|];
  }

  /** Round trip: reading back what `print` writes gives the same table and
    * the same accepting states, for every table whatever its targets. */
  lemma PrintThenRead(a: Automaton)
    requires |a.trans| == |a.accept|
    ensures Parse(Tokens(Render(a))) == Ok(a)
  {
    var t := Tokens(Render(a));
    var n, ids := |a.accept|, AcceptIds(a.accept);
    RenderTokens(a);
    forall j | 0 <= j < n ensures !RejectsLine(t, n, j) {
      assert StateOn(t, j) == j;
    }
    ParseExactly(t);
    assert TargetTable(t, n) == a.trans;
    forall s | 0 <= s < n ensures ListedTable(t, n, |ids|)[s] == a.accept[s] {
      if a.accept[s] {
        var k :| 0 <= k < |ids| && ids[k] == s;
        assert AcceptId(t, n, k) == s;
      }
    }
    assert ListedTable(t, n, |ids|) == a.accept;
  }
}
