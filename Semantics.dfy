/**
 * The language semantics of a complete DFA over the binary alphabet {0, 1}.
 *
 * An automaton is a value here: row q of `trans` holds the successors of
 * state q on symbol 0 and on symbol 1, `accept[q]` says whether q is an
 * accepting state, and state 0 is always the start state.  These functions
 * are the yardstick against which the imperative equivalence test of the
 * DFA class is proved.
 */
module Semantics {

  /** A binary word: `false` stands for symbol 0, `true` for symbol 1. */
  type Word = seq<bool>

  datatype Automaton = Automaton(trans: seq<(int, int)>, accept: seq<bool>)
  {
    /** A complete DFA: at least one state (the start state 0), one row per
      * state, and every transition target is a state. */
    predicate WellFormed() {
      |trans| == |accept| >= 1 &&
      forall q :: 0 <= q < |trans| ==>
        0 <= trans[q].0 < |trans| && 0 <= trans[q].1 < |trans|
    }
  }

  /** The successor of state `q` on symbol `c`. */
  function Step(a: Automaton, q: int, c: bool): (r: int)
    requires a.WellFormed() && 0 <= q < |a.trans|
    ensures 0 <= r < |a.trans|
  {
    if c then a.trans[q].1 else a.trans[q].0
  }

  /** delta*(q, w): the state reached from `q` after reading `w`. */
  function Run(a: Automaton, q: int, w: Word): (r: int)
    requires a.WellFormed() && 0 <= q < |a.trans|
    ensures 0 <= r < |a.trans|
    decreases |w|
  {
    if w == [] then q else Run(a, Step(a, q, w[0]), w[1..])
  }

  /** `w` is in the language of `a`: the run from the start state 0 ends in
    * an accepting state. */
  predicate Accepts(a: Automaton, w: Word)
    requires a.WellFormed()
  {
    a.accept[Run(a, 0, w)]
  }

  /** Language equivalence: no word is accepted by exactly one of the two. */
  ghost predicate Equivalent(a: Automaton, b: Automaton)
    requires a.WellFormed() && b.WellFormed()
  {
    forall w: Word :: Accepts(a, w) == Accepts(b, w)
  }

  /** Reading one more symbol takes one more step from where the run ended. */
  lemma {:induction false} RunAppend(a: Automaton, q: int, w: Word, c: bool)
    requires a.WellFormed() && 0 <= q < |a.trans|
    ensures Run(a, q, w + [c]) == Step(a, Run(a, q, w), c)
    decreases |w|
  {
    if w != [] {
      assert (w + [c])[0] == w[0];
      assert (w + [c])[1..] == w[1..] + [c];
      RunAppend(a, Step(a, q, w[0]), w[1..], c);
    }
  }

  // ---------------------------------------------------------------------
  // The product automaton of `a` and `b`: pairs (p, q) moving in lock-step.
  // ---------------------------------------------------------------------

  /** One lock-step move of the product automaton on symbol `c`. */
  function ProductStep(a: Automaton, b: Automaton, p: int, q: int, c: bool): (r: (int, int))
    requires a.WellFormed() && b.WellFormed()
    requires 0 <= p < |a.trans| && 0 <= q < |b.trans|
    ensures 0 <= r.0 < |a.trans| && 0 <= r.1 < |b.trans|
  {
    (Step(a, p, c), Step(b, q, c))
  }

  /** The product state (p, q) is reached from (0, 0) by some word. */
  ghost predicate Reachable(a: Automaton, b: Automaton, p: int, q: int)
    requires a.WellFormed() && b.WellFormed()
  {
    exists w: Word :: Run(a, 0, w) == p && Run(b, 0, w) == q
  }

  /** The start pair is reachable, and so is every successor of a reachable pair. */
  lemma ReachableStep(a: Automaton, b: Automaton, p: int, q: int, c: bool)
    requires a.WellFormed() && b.WellFormed() && Reachable(a, b, p, q)
    requires 0 <= p < |a.trans| && 0 <= q < |b.trans|
    ensures Reachable(a, b, 0, 0)
    ensures Reachable(a, b, ProductStep(a, b, p, q, c).0, ProductStep(a, b, p, q, c).1)
  {
    assert Run(a, 0, []) == 0 && Run(b, 0, []) == 0;
    var w :| Run(a, 0, w) == p && Run(b, 0, w) == q;
    RunAppend(a, 0, w, c);
    RunAppend(b, 0, w, c);
    assert Run(a, 0, w + [c]) == ProductStep(a, b, p, q, c).0;
    assert Run(b, 0, w + [c]) == ProductStep(a, b, p, q, c).1;
  }

  /** Every pair of `v` is a product state whose successors are in `v`. */
  ghost predicate ClosedUnderSteps(a: Automaton, b: Automaton, v: set<(int, int)>)
    requires a.WellFormed() && b.WellFormed()
  {
    (forall p, q :: (p, q) in v ==> 0 <= p < |a.trans| && 0 <= q < |b.trans|) &&
    forall p, q, c {:trigger ProductStep(a, b, p, q, c)} ::
      (p, q) in v && 0 <= p < |a.trans| && 0 <= q < |b.trans| ==> ProductStep(a, b, p, q, c) in v
  }

  /** No pair of `v` is a mismatch (accepting in exactly one automaton). */
  ghost predicate NoMismatch(a: Automaton, b: Automaton, v: set<(int, int)>)
    requires a.WellFormed() && b.WellFormed()
  {
    forall pq :: pq in v ==>
      0 <= pq.0 < |a.trans| && 0 <= pq.1 < |b.trans| &&
      a.accept[pq.0] == b.accept[pq.1]
  }

  /** A step-closed set of pairs holds every pair reachable from its members. */
  lemma {:induction false} ClosedSetHoldsRuns(a: Automaton, b: Automaton, v: set<(int, int)>,
                                              p: int, q: int, w: Word)
    requires a.WellFormed() && b.WellFormed() && ClosedUnderSteps(a, b, v)
    requires (p, q) in v
    ensures 0 <= p < |a.trans| && 0 <= q < |b.trans|
    ensures (Run(a, p, w), Run(b, q, w)) in v
    decreases |w|
  {
    if w != [] {
      var next := ProductStep(a, b, p, q, w[0]);
      ClosedSetHoldsRuns(a, b, v, next.0, next.1, w[1..]);
    }
  }

  /** Soundness of the "true" answer of product reachability: a step-closed,
    * mismatch-free set of pairs that contains the start pair (0, 0) proves
    * that the two languages are equal. */
  lemma ClosedAgreeingSetProvesEquivalence(a: Automaton, b: Automaton, v: set<(int, int)>)
    requires a.WellFormed() && b.WellFormed()
    requires (0, 0) in v && ClosedUnderSteps(a, b, v) && NoMismatch(a, b, v)
    ensures Equivalent(a, b)
  {
    forall w: Word ensures Accepts(a, w) == Accepts(b, w) {
      ClosedSetHoldsRuns(a, b, v, 0, 0, w);
    }
  }

  // ---------------------------------------------------------------------
  // Language-preserving changes of representation.
  // ---------------------------------------------------------------------

  /** `a` with extra states appended after its last one; the extra rows may
    * point anywhere in the larger automaton, and may or may not accept. */
  function Padded(a: Automaton, extra: seq<(int, int)>, extraAccept: seq<bool>): Automaton
  {
    Automaton(a.trans + extra, a.accept + extraAccept)
  }

  /** The runs of the padded automaton from the old states never leave them. */
  lemma {:induction false} PaddedRunsAgree(a: Automaton, extra: seq<(int, int)>,
                                           extraAccept: seq<bool>, q: int, w: Word)
    requires a.WellFormed() && Padded(a, extra, extraAccept).WellFormed()
    requires 0 <= q < |a.trans|
    ensures Run(Padded(a, extra, extraAccept), q, w) == Run(a, q, w)
    decreases |w|
  {
    if w != [] {
      PaddedRunsAgree(a, extra, extraAccept, Step(a, q, w[0]), w[1..]);
    }
  }

  /** Adding states that the start state cannot reach keeps the language. */
  lemma UnreachableStatesKeepLanguage(a: Automaton, extra: seq<(int, int)>, extraAccept: seq<bool>)
    requires a.WellFormed() && Padded(a, extra, extraAccept).WellFormed()
    ensures Equivalent(a, Padded(a, extra, extraAccept))
  {
    var b := Padded(a, extra, extraAccept);
    forall w: Word ensures Accepts(a, w) == Accepts(b, w) {
      PaddedRunsAgree(a, extra, extraAccept, 0, w);
    }
  }

  /** `pi` renames the states 0..n-1 bijectively, `rho` is its inverse, and
    * the start state keeps its name. */
  predicate IsRenaming(pi: seq<int>, rho: seq<int>, n: int)
  {
    |pi| == n && |rho| == n && n >= 1 && pi[0] == 0 &&
    (forall q :: 0 <= q < n ==> 0 <= pi[q] < n && rho[pi[q]] == q) &&
    (forall q :: 0 <= q < n ==> 0 <= rho[q] < n && pi[rho[q]] == q)
  }

  /** `a` with state q renamed to pi[q]: the new state i behaves as the old
    * state rho[i], with its targets renamed. */
  function Renamed(a: Automaton, pi: seq<int>, rho: seq<int>): (r: Automaton)
    requires a.WellFormed() && IsRenaming(pi, rho, |a.trans|)
    ensures r.WellFormed()
  {
    var n := |a.trans|;
    Automaton(
      seq(n, i requires 0 <= i < n => (pi[a.trans[rho[i]].0], pi[a.trans[rho[i]].1])),
      seq(n, i requires 0 <= i < n => a.accept[rho[i]]))
  }

  /** Running the renamed automaton from pi[q] ends in the renamed end state. */
  lemma {:induction false} RenamedRunsCorrespond(a: Automaton, pi: seq<int>, rho: seq<int>,
                                                 q: int, w: Word)
    requires a.WellFormed() && IsRenaming(pi, rho, |a.trans|)
    requires 0 <= q < |a.trans|
    ensures Run(Renamed(a, pi, rho), pi[q], w) == pi[Run(a, q, w)]
    decreases |w|
  {
    if w != [] {
      var r := Renamed(a, pi, rho);
      assert Step(r, pi[q], w[0]) == pi[Step(a, q, w[0])];
      RenamedRunsCorrespond(a, pi, rho, Step(a, q, w[0]), w[1..]);
    }
  }

  /** Relabelling the states (keeping 0 as the start state) keeps the language. */
  lemma RenamingKeepsLanguage(a: Automaton, pi: seq<int>, rho: seq<int>)
    requires a.WellFormed() && IsRenaming(pi, rho, |a.trans|)
    ensures Equivalent(a, Renamed(a, pi, rho))
  {
    var r := Renamed(a, pi, rho);
    forall w: Word ensures Accepts(a, w) == Accepts(r, w) {
      RenamedRunsCorrespond(a, pi, rho, 0, w);
    }
  }

  // ---------------------------------------------------------------------
  // Two one-state automata: everything and nothing.
  // ---------------------------------------------------------------------

  /** One state, a self-loop on both symbols, accepting iff `acc`. */
  function OneState(acc: bool): (r: Automaton)
    ensures r.WellFormed()
  {
    Automaton([(0, 0)], [acc])
  }

  /** The automaton accepting every word and the one accepting none differ:
    * the empty word already separates them. */
  lemma EverythingDiffersFromNothing()
    ensures !Equivalent(OneState(true), OneState(false))
  {
    assert Accepts(OneState(true), []) != Accepts(OneState(false), []);
  }
}
