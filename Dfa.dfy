/**
 * The DFA class of DFA.java: a transition table `trans` with one row of two
 * successors per state, and an `isAccept` flag per state; state 0 is the
 * start state.  The reader and the printer work on these arrays in place,
 * as the Java code does, and are proved against the token-level functions
 * of TextFormat; the equivalence test is proved against the language
 * semantics of Semantics.
 */
module Dfa {
  import opened Semantics
  import opened TextFormat

  class DFA {
    /** trans[q, 0] and trans[q, 1]: the successors of q on 0 and on 1. */
    var trans: array2<int>
    /** isAccept[q]: q is an accepting state. */
    var isAccept: array<bool>

    /** One row of two successors per state. */
    ghost predicate Valid()
      reads this
    {
      trans.Length1 == 2 && trans.Length0 == isAccept.Length
    }

    /** The transition table as a sequence of rows. */
    ghost function Rows(): (rows: seq<(int, int)>)
      reads this, trans
      requires Valid()
      ensures |rows| == trans.Length0
    {
      seq(trans.Length0, i requires 0 <= i < trans.Length0 && trans.Length1 == 2 reads this, trans =>
        (trans[i, 0], trans[i, 1]))
    }

    /** The automaton these arrays hold. */
    ghost function Model(): (a: Automaton)
      reads this, trans, isAccept
      requires Valid()
    {
      Automaton(Rows(), isAccept[..])
    }

    /** The internal constructor: arrays for `nstates` states, with every
      * entry at its default (targets 0, nothing accepting). */
    constructor Alloc(nstates: nat)
      ensures Valid() && fresh(trans) && fresh(isAccept) && isAccept.Length == nstates
      ensures forall q, c :: 0 <= q < nstates && 0 <= c < 2 ==> trans[q, c] == 0
      ensures forall q :: 0 <= q < nstates ==> !isAccept[q]
      ensures Model() == Automaton(seq(nstates, _ => (0, 0)), seq(nstates, _ => false))
    {
      trans := new int[nstates, 2]((i, j) => 0);
      isAccept := new bool[nstates](i => false);
    }

    /** Marks every row as not yet read: its successor on 0 becomes -1. */
    method MarkUnread()
      requires Valid() && forall q :: 0 <= q < trans.Length0 ==> trans[q, 1] == 0
      modifies trans
      ensures Valid() && Rows() == Unread(trans.Length0)
    {
      var i := 0;
      while i < trans.Length0
        invariant 0 <= i <= trans.Length0
        invariant forall j :: 0 <= j < i ==> trans[j, 0] == -1
        invariant forall j :: 0 <= j < trans.Length0 ==> trans[j, 1] == 0
      {
        trans[i, 0] := -1;
        i := i + 1;
      }
    }

    /** Reads the transition lines into the table, which must hold the
      * sentinel rows; the check looks at row s, the line's state number,
      * while the targets go into row i, the line's position. */
    method ReadLines(tokens: seq<int>) returns (r: Result<()>)
      requires Valid()
      modifies trans
      ensures Valid()
      ensures r.Err? ==> ReadRows(tokens, trans.Length0, 0, old(Rows())) == Err(r.error)
      ensures r.Ok? ==> ReadRows(tokens, trans.Length0, 0, old(Rows())) == Ok(Rows())
    {
      ghost var spec := ReadRows(tokens, trans.Length0, 0, Rows());
      var n := trans.Length0;
      var i := 0;
      while i < n
        invariant 0 <= i <= n
        invariant ReadRows(tokens, n, i, Rows()) == spec
      {
        var pos := LineAt(i);
        if |tokens| <= pos {
          return Err(OutOfTokens);
        }
        var s := tokens[pos];
        if s < 0 || s >= n || trans[s, 0] != -1 {
          return Err(BadStateNumber(s));
        }
        if |tokens| < pos + 3 {
          return Err(OutOfTokens);
        }
        ghost var before := Rows();
        trans[i, 0] := tokens[pos + 1];
        trans[i, 1] := tokens[pos + 2];
        assert Rows() == before[i := (tokens[pos + 1], tokens[pos + 2])];
        i := i + 1;
      }
      return Ok(());
    }

    /** Reads the `f` accepting ids that follow the transition lines and
      * sets their flags, stopping at the first missing or bad id. */
    method MarkAccepting(tokens: seq<int>, f: int) returns (r: Result<()>)
      requires Valid()
      modifies isAccept
      ensures r.Err? ==> ReadAccepts(tokens, isAccept.Length, f, 0, old(isAccept[..])) == Err(r.error)
      ensures r.Ok? ==> ReadAccepts(tokens, isAccept.Length, f, 0, old(isAccept[..])) == Ok(isAccept[..])
    {
      ghost var spec := ReadAccepts(tokens, isAccept.Length, f, 0, isAccept[..]);
      var n := isAccept.Length;
      var k := 0;
      while k < f
        invariant 0 <= k
        invariant ReadAccepts(tokens, n, f, k, isAccept[..]) == spec
        decreases f - k
      {
        var pos := LineAt(n) + k;
        if |tokens| <= pos {
          return Err(OutOfTokens);
        }
        var s := tokens[pos];
        if s < 0 || s >= n {
          return Err(BadAcceptState(s));
        }
        isAccept[s] := true;
        k := k + 1;
      }
      return Ok(());
    }

    /** The stream constructor, on the tokens the scanner would deliver: it
      * either stops with the error the Java code raises, or yields a fresh
      * DFA holding what `Parse` describes. */
    static method Read(tokens: seq<int>) returns (r: Result<DFA>)
      ensures r.Err? ==> Parse(tokens) == Err(r.error)
      ensures r.Ok? ==> fresh(r.value) && fresh(r.value.trans) && fresh(r.value.isAccept) &&
                        r.value.Valid() && Parse(tokens) == Ok(r.value.Model())
    {
      if |tokens| < 2 {
        return Err(OutOfTokens);
      }
      var nstates, naccept := tokens[0], tokens[1];
      if nstates < 0 {
        return Err(NegativeArraySize(nstates));
      }
      var d := new DFA.Alloc(nstates);
      d.MarkUnread();
      var lines := d.ReadLines(tokens);
      if lines.Err? {
        return Err(lines.error);
      }
      // The accepting ids.
      assert d.isAccept[..] == seq(nstates, _ => false);
      var marked := d.MarkAccepting(tokens, naccept);
      if marked.Err? {
        return Err(marked.error);
      }
      return Ok(d);
    }

    /** `print`, with the stream replaced by the sequence of items written. */
    method Print() returns (out: seq<Out>)
      requires Valid()
      ensures out == Render(Model())
    {
      ghost var rows, acc := Rows(), isAccept[..];
      var nstates := isAccept.Length;
      var naccept := 0;
      var i := 0;
      while i < nstates
        invariant 0 <= i <= nstates
        invariant naccept == CountTrue(acc[..i])
      {
        AcceptIdsPrefix(acc, i);
        naccept := naccept + (if isAccept[i] then 1 else 0);
        i := i + 1;
      }
      assert acc[..nstates] == acc;
      var header := [Num(nstates), Space, Num(naccept), Newline];
      // One line per state: its number and its two successors.
      var lines := [];
      i := 0;
      while i < nstates
        invariant 0 <= i <= nstates
        invariant lines == RowLines(rows, i)
      {
        assert rows[i] == (trans[i, 0], trans[i, 1]);
        lines := lines + [Num(i), Space, Num(trans[i, 0]), Space, Num(trans[i, 1]), Newline];
        i := i + 1;
      }
      // The accepting states, separated by single spaces.
      var ids := [];
      var firstPrint := true;
      i := 0;
      while i < nstates
        invariant 0 <= i <= nstates
        invariant firstPrint <==> AcceptIds(acc[..i]) == []
        invariant ids == AcceptLine(AcceptIds(acc[..i]))
      {
        AcceptIdsPrefix(acc, i);
        ghost var before := AcceptIds(acc[..i]);
        if isAccept[i] {
          AcceptLineSnoc(before, i);
          if firstPrint {
            firstPrint := false;
            ids := ids + [Num(i)];
          } else {
            ids := ids + [Space, Num(i)];
          }
          assert ids == AcceptLine(before + [i]);
        } else {
          assert AcceptIds(acc[..i + 1]) == before;
        }
        i := i + 1;
      }
      assert acc[..nstates] == acc;
      out := header + lines + ids + [Newline];
      assert Model() == Automaton(rows, acc);
      assert |rows| == |acc| == nstates;
      assert out == Render(Automaton(rows, acc));
    }

    /** Row p of this DFA and row q of `other`, read at column c, are the
      * lock-step move of the two models on symbol c. */
    lemma SuccessorsAre(other: DFA, p: int, q: int, c: int)
      requires Valid() && other.Valid() && Model().WellFormed() && other.Model().WellFormed()
      requires 0 <= p < trans.Length0 && 0 <= q < other.trans.Length0 && 0 <= c < 2
      ensures (trans[p, c], other.trans[q, c]) == ProductStep(Model(), other.Model(), p, q, c == 1)
    {
      assert Model().trans[p] == (trans[p, 0], trans[p, 1]);
      assert other.Model().trans[q] == (other.trans[q, 0], other.trans[q, 1]);
    }

    /** `isEquivalentTo` as DFA.java has it: a stub that always answers true. */
    method IsEquivalentToAsWritten(other: DFA) returns (eq: bool)
      ensures eq
    {
      eq := true;
    }

    /** `isEquivalentTo` as its documentation promises it: true exactly when
      * the two DFAs accept the same words.  It explores the pairs of states
      * reachable from (0, 0) in lock-step, with a set of visited pairs and a
      * worklist, and answers false as soon as it reaches a pair on which
      * exactly one of the two accepts. */
    method IsEquivalentTo(other: DFA) returns (eq: bool)
      requires Valid() && other.Valid()
      requires Model().WellFormed() && other.Model().WellFormed()
      ensures eq <==> Equivalent(Model(), other.Model())
    {
      ghost var a, b := Model(), other.Model();
      var n, m := isAccept.Length, other.isAccept.Length;
      if isAccept[0] != other.isAccept[0] {
        assert Accepts(a, []) != Accepts(b, []);
        return false;
      }
      assert Run(a, 0, []) == 0 && Run(b, 0, []) == 0;
      var visited := new bool[n, m]((p, q) => false);
      visited[0, 0] := true;
      var work := [(0, 0)];
      // The pairs marked in the grid, and the product states not yet marked.
      ghost var seen := {(0, 0)};
      ghost var unvisited := (set p, q | 0 <= p < n && 0 <= q < m :: (p, q)) - {(0, 0)};
      eq := Search(other, a, b, visited, seen, work, unvisited);
    }

    /** The worklist loop of the equivalence test: it expands the queued
      * pairs until a mismatch turns up or the worklist runs empty. */
    method Search(other: DFA, ghost a: Automaton, ghost b: Automaton, visited: array2<bool>,
                  ghost seen: set<(int, int)>, work: seq<(int, int)>, ghost unvisited: set<(int, int)>)
      returns (eq: bool)
      requires Valid() && other.Valid() && a == Model() && b == other.Model()
      requires Marks(a, b, visited, seen) && Explored(a, b, seen, unvisited)
      requires forall k :: 0 <= k < |work| ==> work[k] in seen
      requires ClosedBesidesWork(a, b, seen, work)
      modifies visited
      ensures eq <==> Equivalent(a, b)
    {
      var work := work;
      ghost var seen, unvisited := seen, unvisited;
      while work != []
        invariant Marks(a, b, visited, seen) && Explored(a, b, seen, unvisited)
        invariant forall k :: 0 <= k < |work| ==> work[k] in seen
        invariant ClosedBesidesWork(a, b, seen, work)
        decreases |unvisited|, |work|
      {
        var p, q := work[|work| - 1].0, work[|work| - 1].1;
        ClosedOutsidePop(a, b, seen, work);
        work := work[..|work| - 1];
        ghost var u0, w0 := |unvisited|, |work|;
        var mismatch;
        mismatch, work, seen, unvisited := Visit(other, a, b, visited, seen, p, q, 0, work, unvisited);
        if mismatch {
          return false;
        }
        mismatch, work, seen, unvisited := Visit(other, a, b, visited, seen, p, q, 1, work, unvisited);
        if mismatch {
          return false;
        }
        ClosedOutsideExpanded(a, b, seen, work, p, q);
        assert |unvisited| <= u0 && (|unvisited| == u0 ==> |work| == w0);
      }
      // Every pair reachable from (0, 0) has been visited, and none is a mismatch.
      ExhaustedSearchProvesEquivalence(a, b, seen, unvisited);
      return true;
    }

    /** One step of the equivalence test: the successor of the marked pair
      * (p, q) on symbol c is either a mismatch, which refutes equivalence,
      * or it ends up marked, and is queued when it is new. */
    method Visit(other: DFA, ghost a: Automaton, ghost b: Automaton, visited: array2<bool>,
                 ghost seen: set<(int, int)>, p: int, q: int, c: int, work: seq<(int, int)>,
                 ghost unvisited: set<(int, int)>)
      returns (mismatch: bool, work': seq<(int, int)>, ghost seen': set<(int, int)>, ghost unvisited': set<(int, int)>)
      requires Valid() && other.Valid() && a == Model() && b == other.Model()
      requires Marks(a, b, visited, seen) && Explored(a, b, seen, unvisited) && (p, q) in seen && 0 <= c < 2
      requires forall k :: 0 <= k < |work| ==> work[k] in seen
      requires ClosedOutside(a, b, seen, work, (p, q))
      modifies visited
      ensures mismatch ==> !Equivalent(a, b)
      ensures !mismatch ==> Marks(a, b, visited, seen') && Explored(a, b, seen', unvisited')
      ensures !mismatch ==> seen <= seen' && ProductStep(a, b, p, q, c == 1) in seen'
      ensures !mismatch ==> forall k :: 0 <= k < |work'| ==> work'[k] in seen'
      ensures !mismatch ==> ClosedOutside(a, b, seen', work', (p, q))
      ensures !mismatch ==> |unvisited'| < |unvisited| || (unvisited' == unvisited && work' == work)
    {
      SuccessorsAre(other, p, q, c);
      var next := (trans[p, c], other.trans[q, c]);
      mismatch, work', seen', unvisited' := false, work, seen, unvisited;
      if !visited[next.0, next.1] {
        if isAccept[next.0] != other.isAccept[next.1] {
          MismatchRefutes(a, b, seen, unvisited, p, q, c == 1);
          return true, work, seen, unvisited;
        }
        ExploredGrows(a, b, seen, unvisited, p, q, c == 1);
        ClosedOutsideGrows(a, b, seen, work, (p, q), next);
        visited[next.0, next.1] := true;
        work' := work + [next];
        seen' := seen + {next};
        unvisited' := unvisited - {next};
      }
    }
  }

  /** The visited grid has a cell per product state, and the marked cells
    * are exactly the pairs of `seen`. */
  ghost predicate Marks(a: Automaton, b: Automaton, visited: array2<bool>, seen: set<(int, int)>)
    reads visited
  {
    visited.Length0 == |a.trans| && visited.Length1 == |b.trans| &&
    forall x, y :: 0 <= x < |a.trans| && 0 <= y < |b.trans| ==> (visited[x, y] <==> (x, y) in seen)
  }

  /** The bookkeeping of the equivalence test: `seen` holds (0, 0) and only
    * product states, each reachable from (0, 0) and none a mismatch; the
    * product states outside `seen` are in `unvisited`. */
  ghost predicate Explored(a: Automaton, b: Automaton, seen: set<(int, int)>, unvisited: set<(int, int)>)
  {
    a.WellFormed() && b.WellFormed() && (0, 0) in seen &&
    (forall pq :: pq in seen ==>
       0 <= pq.0 < |a.trans| && 0 <= pq.1 < |b.trans| &&
       Reachable(a, b, pq.0, pq.1) && a.accept[pq.0] == b.accept[pq.1]) &&
    forall p, q :: 0 <= p < |a.trans| && 0 <= q < |b.trans| && (p, q) !in seen ==> (p, q) in unvisited
  }

  /** The successors of every pair of `seen`, except those still on the
    * worklist, are in `seen`. */
  ghost predicate ClosedBesidesWork(a: Automaton, b: Automaton, seen: set<(int, int)>, work: seq<(int, int)>)
    requires a.WellFormed() && b.WellFormed()
  {
    forall p, q, c {:trigger ProductStep(a, b, p, q, c)} ::
      (p, q) in seen && (p, q) !in work &&
      0 <= p < |a.trans| && 0 <= q < |b.trans| ==>
      ProductStep(a, b, p, q, c) in seen
  }

  /** As ClosedBesidesWork, while the pair `current` is being expanded: its
    * successors need not be in `seen` yet. */
  ghost predicate ClosedOutside(a: Automaton, b: Automaton, seen: set<(int, int)>,
                                work: seq<(int, int)>, current: (int, int))
    requires a.WellFormed() && b.WellFormed()
  {
    forall p, q, c {:trigger ProductStep(a, b, p, q, c)} ::
      (p, q) in seen && (p, q) !in work && (p, q) != current &&
      0 <= p < |a.trans| && 0 <= q < |b.trans| ==>
      ProductStep(a, b, p, q, c) in seen
  }

  /** Taking the last pair off the worklist makes it the pair being expanded. */
  lemma ClosedOutsidePop(a: Automaton, b: Automaton, seen: set<(int, int)>, work: seq<(int, int)>)
    requires a.WellFormed() && b.WellFormed() && work != []
    requires ClosedBesidesWork(a, b, seen, work)
    ensures ClosedOutside(a, b, seen, work[..|work| - 1], work[|work| - 1])
  {
    assert work == work[..|work| - 1] + [work[|work| - 1]];
    forall p, q, c | (p, q) in seen && (p, q) !in work[..|work| - 1] && (p, q) != work[|work| - 1] &&
                     0 <= p < |a.trans| && 0 <= q < |b.trans|
      ensures ProductStep(a, b, p, q, c) in seen
    {
      assert (p, q) !in work;
    }
  }

  /** Visiting a new pair and queueing it keeps the rest closed. */
  lemma ClosedOutsideGrows(a: Automaton, b: Automaton, seen: set<(int, int)>, work: seq<(int, int)>,
                           current: (int, int), next: (int, int))
    requires a.WellFormed() && b.WellFormed()
    requires ClosedOutside(a, b, seen, work, current)
    ensures ClosedOutside(a, b, seen + {next}, work + [next], current)
  {
    forall p, q, c | (p, q) in seen + {next} && (p, q) !in work + [next] && (p, q) != current &&
                     0 <= p < |a.trans| && 0 <= q < |b.trans|
      ensures ProductStep(a, b, p, q, c) in seen + {next}
    {
      assert (p, q) !in work;
    }
  }

  /** Once both successors of the expanded pair are seen, it is closed too. */
  lemma ClosedOutsideExpanded(a: Automaton, b: Automaton, seen: set<(int, int)>, work: seq<(int, int)>,
                              p: int, q: int)
    requires a.WellFormed() && b.WellFormed() && 0 <= p < |a.trans| && 0 <= q < |b.trans|
    requires ClosedOutside(a, b, seen, work, (p, q))
    requires ProductStep(a, b, p, q, false) in seen && ProductStep(a, b, p, q, true) in seen
    ensures ClosedBesidesWork(a, b, seen, work)
  {
  }

  /** With the worklist empty, the visited pairs are closed under steps and
    * agree, so the two automata are equivalent. */
  lemma ExhaustedSearchProvesEquivalence(a: Automaton, b: Automaton, seen: set<(int, int)>,
                                         unvisited: set<(int, int)>)
    requires Explored(a, b, seen, unvisited) && ClosedBesidesWork(a, b, seen, [])
    ensures Equivalent(a, b)
  {
    ClosedAgreeingSetProvesEquivalence(a, b, seen);
  }

  /** A mismatching successor of a seen pair is reached by a word that
    * exactly one of the two automata accepts. */
  lemma MismatchRefutes(a: Automaton, b: Automaton, seen: set<(int, int)>, unvisited: set<(int, int)>,
                        p: int, q: int, c: bool)
    requires Explored(a, b, seen, unvisited) && (p, q) in seen
    requires a.accept[ProductStep(a, b, p, q, c).0] != b.accept[ProductStep(a, b, p, q, c).1]
    ensures !Equivalent(a, b)
  {
    ReachableStep(a, b, p, q, c);
    var next := ProductStep(a, b, p, q, c);
    var w :| Run(a, 0, w) == next.0 && Run(b, 0, w) == next.1;
    assert Accepts(a, w) != Accepts(b, w);
  }

  /** Visiting an agreeing successor of a seen pair keeps the bookkeeping,
    * and takes one pair out of the unvisited ones. */
  lemma ExploredGrows(a: Automaton, b: Automaton, seen: set<(int, int)>, unvisited: set<(int, int)>,
                      p: int, q: int, c: bool)
    requires Explored(a, b, seen, unvisited) && (p, q) in seen
    requires ProductStep(a, b, p, q, c) !in seen
    requires a.accept[ProductStep(a, b, p, q, c).0] == b.accept[ProductStep(a, b, p, q, c).1]
    ensures var next := ProductStep(a, b, p, q, c);
      Explored(a, b, seen + {next}, unvisited - {next}) && |unvisited - {next}| < |unvisited|
  {
    var next := ProductStep(a, b, p, q, c);
    ReachableStep(a, b, p, q, c);
    assert next in unvisited;
  }

  /** What `print` writes, read back by the stream constructor, gives a DFA
    * with the same table and the same accepting states. */
  method PrintedIsReadBack(d: DFA) returns (back: Result<DFA>)
    requires d.Valid()
    ensures back.Ok? && back.value.Valid() && back.value.Model() == d.Model()
  {
    var out := d.Print();
    PrintThenRead(d.Model());
    back := DFA.Read(Tokens(out));
  }

  /** The stub and the decision procedure on the one-state automata that
    * accept everything and nothing: the stub calls them equivalent, the
    * decision procedure does not. */
  method StubMisjudgesEverythingVersusNothing() returns (stub: bool, decided: bool)
    ensures stub && !decided
  {
    var everything := new DFA.Alloc(1);
    everything.isAccept[0] := true;
    var nothing := new DFA.Alloc(1);
    assert everything.Model() == OneState(true);
    assert nothing.Model() == OneState(false);
    stub := everything.IsEquivalentToAsWritten(nothing);
    decided := everything.IsEquivalentTo(nothing);
    EverythingDiffersFromNothing();
  }

  /** Every well-formed DFA is equivalent to itself. */
  method VerdictIsReflexive(d: DFA) returns (same: bool)
    requires d.Valid() && d.Model().WellFormed()
    ensures same
  {
    same := d.IsEquivalentTo(d);
  }

  /** The verdict does not depend on the order of the two DFAs. */
  method VerdictIsSymmetric(d: DFA, e: DFA) returns (de: bool, ed: bool)
    requires d.Valid() && d.Model().WellFormed()
    requires e.Valid() && e.Model().WellFormed()
    ensures de == ed
  {
    de := d.IsEquivalentTo(e);
    ed := e.IsEquivalentTo(d);
  }

  /** Two verdicts of "equivalent" in a chain give a third. */
  method VerdictIsTransitive(d: DFA, e: DFA, f: DFA) returns (de: bool, ef: bool, df: bool)
    requires d.Valid() && d.Model().WellFormed()
    requires e.Valid() && e.Model().WellFormed()
    requires f.Valid() && f.Model().WellFormed()
    ensures de && ef ==> df
  {
    de := d.IsEquivalentTo(e);
    ef := e.IsEquivalentTo(f);
    df := d.IsEquivalentTo(f);
  }
}
