/**
 * A finite automaton stored as one boolean adjacency matrix per symbol:
 * its construction from an automaton, word acceptance, emptiness,
 * transitive closure, and the tensor (Kronecker) product of two automata.
 */
module AdjacencyFA {
  import opened Common
  import opened BoolMatrix
  import opened FiniteAutomata

  /** The indices 0 .. n-1. */
  function Indices(n: nat): (r: set<nat>)
    ensures forall i :: i in r <==> 0 <= i < n
  {
    if n == 0 then {} else Indices(n - 1) + {n - 1}
  }

  lemma {:induction false} IndicesCard(n: nat)
    ensures |Indices(n)| == n
  {
    if n > 0 {
      IndicesCard(n - 1);
      var prev := Indices(n - 1);
      assert n - 1 !in prev;
      assert |prev + {n - 1}| == |prev| + 1;
      assert Indices(n) == prev + {n - 1};
    } else {
      assert Indices(n) == {};
    }
  }

  /** Numbers the states in the order the automaton lists them. */
  function StateIndex<S>(states: seq<S>): (m: map<S, nat>)
    requires Distinct(states)
    ensures forall i :: 0 <= i < |states| ==> states[i] in m && m[states[i]] == i
    ensures forall x :: x in m ==> m[x] < |states| && states[m[x]] == x
  {
    map i | 0 <= i < |states| :: states[i] := i
  }

  /** The numbering of distinct states is one-to-one. */
  lemma StateIndexOneToOne<S>(states: seq<S>)
    requires Distinct(states)
    ensures forall x, y :: x in StateIndex(states) && y in StateIndex(states) && StateIndex(states)[x] == StateIndex(states)[y] ==> x == y
  {
  }

  /** The inverse of a one-to-one numbering: from each number back to its state. */
  function IndexToState<S>(idx: map<S, nat>): (inv: map<nat, S>)
    requires forall x, y :: x in idx && y in idx && idx[x] == idx[y] ==> x == y
    ensures inv.Keys == idx.Values
    ensures forall x :: x in idx ==> idx[x] in inv && inv[idx[x]] == x
  {
    map x | x in idx :: idx[x] := x
  }

  /** The numbered states are exactly the elements of the list. */
  lemma StateIndexKeys<S>(states: seq<S>)
    requires Distinct(states)
    ensures StateIndex(states).Keys == Elements(states)
  {
  }

  /** A list without repetitions has as many distinct elements as positions. */
  lemma {:induction false} DistinctCard<S>(s: seq<S>)
    requires Distinct(s)
    ensures |Elements(s)| == |s|
    decreases |s|
  {
    if s != [] {
      var init := s[..|s| - 1];
      assert Distinct(init);
      DistinctCard(init);
      assert Elements(s) == Elements(init) + {s[|s| - 1]};
      assert s[|s| - 1] !in Elements(init);
    }
  }

  /** The image of a set of states under a numbering. */
  function IndexSet<S>(idx: map<S, nat>, xs: set<S>): (r: set<nat>)
    requires xs <= idx.Keys
    ensures forall x :: x in xs ==> idx[x] in r
    ensures forall i :: i in r ==> exists x :: x in xs && idx[x] == i
  {
    set x | x in xs :: idx[x]
  }

  /** The entries of the matrix of symbol l: one per transition on l, between the numbers of its ends. */
  ghost function TransitionEntries<S>(a: Nfa<S>, l: Label): Matrix
    requires ValidNfa(a)
  {
    var idx := StateIndex(a.states);
    set t | t in a.transitions && t.1 == l :: (idx[t.0], idx[t.2])
  }

  /** The matrices of an automaton: one per symbol, square of the number of states. */
  ghost function LabelMatrices<S>(a: Nfa<S>): (M: map<Label, Matrix>)
    requires ValidNfa(a)
    ensures M.Keys == Symbols(a)
    ensures AllSquare(M, |a.states|)
  {
    map l | l in Symbols(a) :: TransitionEntries(a, l)
  }

  /** Some start state reads w into some final state. */
  ghost predicate Accepting(M: map<Label, Matrix>, start: set<nat>, final: set<nat>, w: seq<Label>) {
    exists s, f :: s in start && f in final && Walk(M, s, w, f)
  }

  /** A word is read along the matrices exactly when the automaton itself can read it. */
  lemma {:induction false} MatrixWalkIffNfaWalk<S>(a: Nfa<S>, p: S, w: seq<Label>, q: S)
    requires ValidNfa(a) && p in a.states && q in a.states
    ensures Walk(LabelMatrices(a), StateIndex(a.states)[p], w, StateIndex(a.states)[q])
        <==> NfaWalk(a, p, w, q)
    decreases |w|
  {
    var idx := StateIndex(a.states);
    var M := LabelMatrices(a);
    if w == [] {
      assert idx[p] == idx[q] ==> a.states[idx[p]] == a.states[idx[q]];
    } else {
      if Walk(M, idx[p], w, idx[q]) {
        var m: nat :| (idx[p], m) in M[w[0]] && Walk(M, m, w[1..], idx[q]);
        var t :| t in a.transitions && t.1 == w[0] && (idx[t.0], idx[t.2]) == (idx[p], m);
        assert a.states[idx[t.0]] == t.0 && a.states[idx[p]] == p;
        MatrixWalkIffNfaWalk(a, t.2, w[1..], q);
      }
      if NfaWalk(a, p, w, q) {
        var t :| t in a.transitions && t.0 == p && t.1 == w[0] && NfaWalk(a, t.2, w[1..], q);
        MatrixWalkIffNfaWalk(a, t.2, w[1..], q);
        assert (idx[p], idx[t.2]) in M[w[0]];
      }
    }
  }

  /** The matrix form of an automaton accepts exactly the words the automaton accepts. */
  lemma NfaLanguage<S>(a: Nfa<S>, w: seq<Label>)
    requires ValidNfa(a)
    ensures Accepting(LabelMatrices(a), IndexSet(StateIndex(a.states), a.start), IndexSet(StateIndex(a.states), a.final), w)
        <==> exists s, f :: s in a.start && f in a.final && NfaWalk(a, s, w, f)
  {
    var idx := StateIndex(a.states);
    var M := LabelMatrices(a);
    var start := IndexSet(idx, a.start);
    var final := IndexSet(idx, a.final);
    if Accepting(M, start, final, w) {
      var i, j :| i in start && j in final && Walk(M, i, w, j);
      var s :| s in a.start && idx[s] == i;
      var f :| f in a.final && idx[f] == j;
      MatrixWalkIffNfaWalk(a, s, w, f);
    }
    if exists s, f :: s in a.start && f in a.final && NfaWalk(a, s, w, f) {
      var s, f :| s in a.start && f in a.final && NfaWalk(a, s, w, f);
      MatrixWalkIffNfaWalk(a, s, w, f);
      assert idx[s] in start && idx[f] in final;
    }
  }

  /** The entries recorded from the first k edges of the networkx view. */
  ghost function Filled<S>(nx: seq<NxEdge<S>>, k: nat, idx: map<S, nat>, l: Label): Matrix
    requires k <= |nx|
  {
    set j | 0 <= j < k && nx[j].src.Node? && nx[j].dst.Node? && nx[j].symbol == Some(l)
              && nx[j].src.state in idx && nx[j].dst.state in idx
            :: (idx[nx[j].src.state], idx[nx[j].dst.state])
  }

  lemma FilledMember<S>(nx: seq<NxEdge<S>>, k: nat, idx: map<S, nat>, l: Label, j: nat, x: S, y: S)
    requires j < k <= |nx| && nx[j] == NxEdge(Node(x), Some(l), Node(y))
    requires x in idx && y in idx
    ensures (idx[x], idx[y]) in Filled(nx, k, idx, l)
  {
  }

  /** Reading edge k adds its entry to the matrix of its symbol, when both its ends are states. */
  lemma FilledNext<S>(nx: seq<NxEdge<S>>, k: nat, idx: map<S, nat>, l: Label)
    requires k < |nx|
    ensures Filled(nx, k + 1, idx, l) ==
      Filled(nx, k, idx, l)
        + (if nx[k].src.Node? && nx[k].dst.Node? && nx[k].symbol == Some(l)
              && nx[k].src.state in idx && nx[k].dst.state in idx
           then {(idx[nx[k].src.state], idx[nx[k].dst.state])} else {})
  {
  }

  /** Reading every edge of the networkx view, start markers skipped, yields the transition matrices. */
  lemma FilledAll<S>(a: Nfa<S>, l: Label)
    requires ValidNfa(a)
    ensures Filled(ToNetworkx(a), |ToNetworkx(a)|, StateIndex(a.states), l) == TransitionEntries(a, l)
  {
    FilledSound(a, l);
    FilledComplete(a, l);
  }

  lemma FilledSound<S>(a: Nfa<S>, l: Label)
    requires ValidNfa(a)
    ensures Filled(ToNetworkx(a), |ToNetworkx(a)|, StateIndex(a.states), l) <= TransitionEntries(a, l)
  {
    var nx := ToNetworkx(a);
    var idx := StateIndex(a.states);
    forall p | p in Filled(nx, |nx|, idx, l)
      ensures p in TransitionEntries(a, l)
    {
      var j :| 0 <= j < |nx| && nx[j].src.Node? && nx[j].dst.Node? && nx[j].symbol == Some(l)
               && nx[j].src.state in idx && nx[j].dst.state in idx
               && p == (idx[nx[j].src.state], idx[nx[j].dst.state]);
      NetworkxRealEdges(a, j);
    }
  }

  lemma FilledComplete<S>(a: Nfa<S>, l: Label)
    requires ValidNfa(a)
    ensures TransitionEntries(a, l) <= Filled(ToNetworkx(a), |ToNetworkx(a)|, StateIndex(a.states), l)
  {
    var idx := StateIndex(a.states);
    forall p | p in TransitionEntries(a, l)
      ensures p in Filled(ToNetworkx(a), |ToNetworkx(a)|, idx, l)
    {
      var t :| t in a.transitions && t.1 == l && p == (idx[t.0], idx[t.2]);
      var i :| 0 <= i < |a.transitions| && a.transitions[i] == t;
      TransitionFilled(a, i);
    }
  }

  /** The entry of transition i is recorded while reading the networkx view. */
  lemma TransitionFilled<S>(a: Nfa<S>, i: nat)
    requires ValidNfa(a) && i < |a.transitions|
    ensures var t := a.transitions[i];
      (StateIndex(a.states)[t.0], StateIndex(a.states)[t.2])
        in Filled(ToNetworkx(a), |ToNetworkx(a)|, StateIndex(a.states), t.1)
  {
    var t := a.transitions[i];
    assert t in a.transitions;
    var j := NetworkxTransition(a, i);
    FilledMember(ToNetworkx(a), |ToNetworkx(a)|, StateIndex(a.states), t.1, j, t.0, t.2);
  }

  /** An all-false matrix for every symbol. */
  method ZeroMatrices(symbols: set<Label>) returns (M: map<Label, Matrix>)
    ensures M.Keys == symbols
    ensures forall l :: l in M ==> M[l] == {}
  {
    M := map[];
    var pending := symbols;
    while pending != {}
      invariant pending <= symbols
      invariant M.Keys == symbols - pending
      invariant forall l :: l in M ==> M[l] == {}
      decreases pending
    {
      var l :| l in pending;
      M := M[l := {}];
      pending := pending - {l};
    }
  }

  /**
   * Starts from an all-false matrix per symbol and sets one entry per edge
   * of the networkx view of a whose ends are both states; the edges leaving
   * a start marker are skipped.
   */
  method FillMatrices<S>(a: Nfa<S>, idx: map<S, nat>) returns (M: map<Label, Matrix>)
    requires ValidNfa(a) && idx == StateIndex(a.states)
    ensures M == LabelMatrices(a)
  {
    M := ZeroMatrices(Symbols(a));
    FilledNone(a, idx, M);
    for k := 0 to |ToNetworkx(a)|
      invariant M.Keys == Symbols(a)
      invariant forall l :: l in M ==> M[l] == Filled(ToNetworkx(a), k, idx, l)
    {
      M := RecordEdge(a, idx, k, M);
    }
    FilledMatrices(a, M);
  }

  /** Before any edge is read, every matrix is empty. */
  lemma FilledNone<S>(a: Nfa<S>, idx: map<S, nat>, M: map<Label, Matrix>)
    requires forall l :: l in M ==> M[l] == {}
    ensures forall l :: l in M ==> M[l] == Filled(ToNetworkx(a), 0, idx, l)
  {
  }

  /** Once every edge is read, the matrices are those of the automaton. */
  lemma FilledMatrices<S>(a: Nfa<S>, M: map<Label, Matrix>)
    requires ValidNfa(a) && M.Keys == Symbols(a)
    requires forall l :: l in M ==> M[l] == Filled(ToNetworkx(a), |ToNetworkx(a)|, StateIndex(a.states), l)
    ensures M == LabelMatrices(a)
  {
    var L := LabelMatrices(a);
    forall l | l in M
      ensures M[l] == L[l]
    {
      FilledAll(a, l);
    }
  }

  /** Sets the entry of edge k of the networkx view, unless one of its ends is a start marker. */
  method RecordEdge<S>(a: Nfa<S>, idx: map<S, nat>, k: nat, M: map<Label, Matrix>) returns (M': map<Label, Matrix>)
    requires ValidNfa(a) && idx == StateIndex(a.states) && k < |ToNetworkx(a)|
    requires M.Keys == Symbols(a)
    requires forall l :: l in M ==> M[l] == Filled(ToNetworkx(a), k, idx, l)
    ensures M'.Keys == Symbols(a)
    ensures forall l :: l in M' ==> M'[l] == Filled(ToNetworkx(a), k + 1, idx, l)
  {
    var nx := ToNetworkx(a);
    var e := nx[k];
    M' := M;
    if !(e.src.Starting? || e.dst.Starting?) {
      NetworkxRealEdges(a, k);
      var l := e.symbol.value;
      assert l in Symbols(a);
      M' := M[l := M[l] + {(idx[e.src.state], idx[e.dst.state])}];
    }
    forall l | l in M'
      ensures M'[l] == Filled(nx, k + 1, idx, l)
    {
      FilledNext(nx, k, idx, l);
    }
  }

  /** The facts the constructor's Valid() needs about an automaton's numbering and matrices. */
  lemma BuiltValid<S>(a: Nfa<S>)
    requires ValidNfa(a)
    ensures |StateIndex(a.states)| == |a.states|
    ensures WellFormed(StateIndex(a.states), |a.states|, LabelMatrices(a),
                       IndexSet(StateIndex(a.states), a.start), IndexSet(StateIndex(a.states), a.final))
  {
    DistinctCard(a.states);
    StateIndexKeys(a.states);
    StateIndexValues(a.states);
  }

  /** The numbering of a list of distinct states uses exactly the numbers 0 .. |states|-1. */
  lemma StateIndexValues<S>(states: seq<S>)
    requires Distinct(states)
    ensures StateIndex(states).Values == Indices(|states|)
  {
    var idx := StateIndex(states);
    forall i | i in Indices(|states|) ensures i in idx.Values {
      assert idx[states[i]] == i;
    }
  }

  /** Pushing one configuration adds its weight. */
  function Pow(b: nat, e: nat): (r: nat)
    ensures b >= 1 ==> r >= 1
  {
    if e == 0 then 1 else b * Pow(b, e - 1)
  }

  /** Each pending configuration weighs b to the power of the symbols still to read. */
  function Weight(stack: seq<(seq<Label>, nat)>, b: nat): nat {
    if stack == [] then 0
    else Weight(stack[..|stack| - 1], b) + Pow(b, |stack[|stack| - 1].0|)
  }

  lemma WeightPush(stack: seq<(seq<Label>, nat)>, c: (seq<Label>, nat), b: nat)
    ensures Weight(stack + [c], b) == Weight(stack, b) + Pow(b, |c.0|)
  {
    assert (stack + [c])[..|stack|] == stack;
  }

  /** Pushing one more configuration of weight p stays within one more p. */
  lemma WeightGrows(stack: seq<(seq<Label>, nat)>, c: (seq<Label>, nat), b: nat, base: nat, done: nat)
    requires Weight(stack, b) <= base + done * Pow(b, |c.0|)
    ensures Weight(stack + [c], b) <= base + (done + 1) * Pow(b, |c.0|)
  {
    WeightPush(stack, c, b);
    assert (done + 1) * Pow(b, |c.0|) == done * Pow(b, |c.0|) + Pow(b, |c.0|);
  }

  lemma MoreSlack(w: nat, base: nat, done: nat, p: nat)
    requires w <= base + done * p
    ensures w <= base + (done + 1) * p
  {
    assert (done + 1) * p == done * p + p;
  }

  /** The configuration (rest, q) lies on a walk from a start state over the part of word before rest. */
  ghost predicate Reached(M: map<Label, Matrix>, start: set<nat>, word: seq<Label>, c: (seq<Label>, nat)) {
    && |c.0| <= |word|
    && c.0 == word[|word| - |c.0|..]
    && exists s :: s in start && Walk(M, s, word[..|word| - |c.0|], c.1)
  }

  /** From configuration c the rest of the word leads to a final state. */
  ghost predicate AcceptsFrom(M: map<Label, Matrix>, final: set<nat>, c: (seq<Label>, nat)) {
    exists f :: f in final && Walk(M, c.1, c.0, f)
  }

  lemma ReachedStep(M: map<Label, Matrix>, start: set<nat>, word: seq<Label>,
                    rest: seq<Label>, q: nat, m: nat)
    requires Reached(M, start, word, (rest, q))
    requires rest != [] && rest[0] in M && (q, m) in M[rest[0]]
    ensures Reached(M, start, word, (rest[1..], m))
  {
    var k := |word| - |rest|;
    var s :| s in start && Walk(M, s, word[..k], q);
    assert word[k] == rest[0];
    assert word[..k + 1] == word[..k] + [rest[0]];
    WalkSnoc(M, s, word[..k], rest[0], m);
    assert rest[1..] == word[k + 1..];
  }

  /** Every matrix is square of the number of states, and states are numbered 0 .. statesCount-1. */
  ghost predicate WellFormed<S>(states: map<S, nat>, statesCount: nat, matrices: map<Label, Matrix>,
                                startStates: set<nat>, finalStates: set<nat>) {
    && AllSquare(matrices, statesCount)
    && states.Values == Indices(statesCount)
    && (forall i :: i in startStates ==> i < statesCount)
    && (forall i :: i in finalStates ==> i < statesCount)
  }

  class AdjacencyMatrixFA<S(==)> {
    var states: map<S, nat>
    var statesCount: nat
    var alphabet: set<Label>
    var matrices: map<Label, Matrix>
    var startStates: set<nat>
    var finalStates: set<nat>

    /** Every matrix is square of the number of states, and states are numbered 0 .. statesCount-1. */
    ghost predicate Valid()
      reads this
    {
      WellFormed(states, statesCount, matrices, startStates, finalStates)
    }

    /** The automaton accepts w. */
    ghost predicate AcceptsWord(w: seq<Label>)
      reads this
    {
      Accepting(matrices, startStates, finalStates, w)
    }

    /** The automaton with no states (built without an automaton). */
    constructor Empty()
      ensures Valid()
      ensures states == map[] && statesCount == 0 && alphabet == {}
      ensures matrices == map[] && startStates == {} && finalStates == {}
    {
      matrices := map[];
      states := map[];
      alphabet := {};
      startStates := {};
      finalStates := {};
      statesCount := 0;
    }

    /** An automaton with the given fields, as intersect_automata fills them in. */
    constructor Assemble(states: map<S, nat>, statesCount: nat, alphabet: set<Label>,
                         matrices: map<Label, Matrix>, startStates: set<nat>, finalStates: set<nat>)
      ensures this.states == states && this.statesCount == statesCount && this.alphabet == alphabet
      ensures this.matrices == matrices && this.startStates == startStates && this.finalStates == finalStates
    {
      this.states := states;
      this.statesCount := statesCount;
      this.alphabet := alphabet;
      this.matrices := matrices;
      this.startStates := startStates;
      this.finalStates := finalStates;
    }

    /**
     * Numbers the states of a in their listed order and records one matrix
     * per symbol, setting an entry for each transition; the start-marker
     * edges of the networkx view are skipped.
     */
    constructor (a: Nfa<S>)
      requires ValidNfa(a)
      ensures Valid()
      ensures states == StateIndex(a.states) && statesCount == |a.states|
      ensures alphabet == Symbols(a)
      ensures matrices == LabelMatrices(a)
      ensures startStates == IndexSet(StateIndex(a.states), a.start)
      ensures finalStates == IndexSet(StateIndex(a.states), a.final)
    {
      var idx := StateIndex(a.states);
      var n := |idx|;
      var symbols := Symbols(a);
      var M := FillMatrices(a, idx);
      BuiltValid(a);

      states := idx;
      statesCount := n;
      alphabet := symbols;
      matrices := M;
      startStates := IndexSet(idx, a.start);
      finalStates := IndexSet(idx, a.final);
    }

    /**
     * Depth-first search over configurations (rest of the word, state).
     * Popping a configuration whose rest is empty at a non-final state raises
     * IndexError as soon as there is a state to try; a next symbol without a
     * matrix raises KeyError.
     */
    method Accepts(word: seq<Label>) returns (r: Result<bool>)
      requires Valid()
      ensures r.Ok? ==> (r.value <==> AcceptsWord(word))
      ensures r.Err? ==> r.error == IndexError || r.error == KeyError
      ensures r.Err? && r.error == IndexError ==> EndsOutsideFinal(matrices, startStates, finalStates, word)
      ensures r.Err? && r.error == KeyError ==> MissingSymbol(matrices, startStates, word)
      ensures r == Ok(false) ==> !EndsOutsideFinal(matrices, startStates, finalStates, word)
      ensures r == Ok(false) ==> !MissingSymbol(matrices, startStates, word)
    {
      r := Search(matrices, startStates, finalStates, states.Values, statesCount, word);
    }

    /**
     * The reachability matrix: the diagonal plus every symbol's matrix,
     * closed by Warshall's algorithm in place.
     */
    method TransitiveClosure() returns (R: array2<bool>)
      requires Valid()
      ensures fresh(R) && R.Length0 == statesCount && R.Length1 == statesCount
      ensures forall i, j :: 0 <= i < statesCount && 0 <= j < statesCount ==>
        (R[i, j] <==> Reachable(UnionOf(matrices), i, j))
    {
      var n := statesCount;
      ghost var E := UnionOf(matrices);
      UnionOfSquare(matrices, n);
      var reach := Diagonal(n);
      if |matrices| == 0 {
        R := new bool[n, n]((i, j) => (i, j) in reach);
        EmptyClosure(E, n);
        return;
      }
      reach := AddMatrices(reach, matrices);
      R := new bool[n, n]((i, j) => (i, j) in reach);
      InitialPaths(E, n, reach);
      for k := 0 to n
        invariant forall i, j :: 0 <= i < n && 0 <= j < n ==> (R[i, j] <==> PathBelow(E, i, j, k))
      {
        WarshallPass(R, E, k);
        PassPaths(E, n, k);
      }
      AllPaths(E, n);
    }

    /** The automaton accepts no word: no final state is reachable from a start state. */
    method IsEmpty() returns (r: bool)
      requires Valid()
      ensures r <==> forall w :: !AcceptsWord(w)
    {
      var closure := TransitiveClosure();
      var starts := startStates;
      while starts != {}
        invariant starts <= startStates
        invariant forall s, f :: s in startStates - starts && f in finalStates ==> !Reachable(UnionOf(matrices), s, f)
        decreases starts
      {
        var s :| s in starts;
        var finals := finalStates;
        while finals != {}
          invariant finals <= finalStates
          invariant forall f :: f in finalStates - finals ==> !Reachable(UnionOf(matrices), s, f)
          decreases finals
        {
          var f :| f in finals;
          if closure[s, f] {
            ReachableIffWalk(matrices, s, f);
            ghost var w :| Walk(matrices, s, w, f);
            assert AcceptsWord(w);
            return false;
          }
          finals := finals - {f};
        }
        starts := starts - {s};
      }
      forall w ensures !AcceptsWord(w) {
        if AcceptsWord(w) {
          var s, f :| s in startStates && f in finalStates && Walk(matrices, s, w, f);
          WalkReachable(matrices, s, w, f);
        }
      }
      return true;
    }
  }

  /** Some run over the whole word ends in a state that is not final. */
  ghost predicate EndsOutsideFinal(M: map<Label, Matrix>, start: set<nat>, final: set<nat>, word: seq<Label>) {
    exists s, q :: s in start && q !in final && Walk(M, s, word, q)
  }

  /** Some run over a prefix of the word stops before a symbol that has no matrix. */
  ghost predicate MissingSymbol(M: map<Label, Matrix>, start: set<nat>, word: seq<Label>) {
    exists s, i, q :: s in start && 0 <= i < |word| && word[i] !in M && Walk(M, s, word[..i], q)
  }

  /**
   * Depth-first search over configurations (rest of the word, state).
   * Popping a configuration whose rest is empty at a non-final state raises
   * IndexError as soon as there is a state to try; a next symbol without a
   * matrix raises KeyError.
   */
  method Search(M: map<Label, Matrix>, start: set<nat>, final: set<nat>, values: set<nat>, n: nat,
                word: seq<Label>) returns (r: Result<bool>)
    requires AllSquare(M, n) && values == Indices(n)
    requires forall s :: s in start ==> s < n
    ensures Explains(M, start, final, word, r)
  {
    var stack := StartConfigurations(word, start);
    StartReached(M, start, final, word, stack);
    StartErrors(M, start, final, n, word, stack);

    while stack != []
      invariant SearchInvariant(M, start, final, word, stack)
      invariant ErrorsPending(M, start, final, n, word, stack)
      decreases Weight(stack, n + 1)
    {
      var outcome;
      outcome, stack := Expand(M, start, final, values, n, word, stack);
      if outcome.Some? {
        return outcome.value;
      }
    }
    NothingLeft(M, start, final, n, word);
    return Ok(false);
  }

  /** When no configuration is left, the word is rejected without an error. */
  lemma NothingLeft(M: map<Label, Matrix>, start: set<nat>, final: set<nat>, n: nat, word: seq<Label>)
    requires SearchInvariant(M, start, final, word, [])
    requires ErrorsPending(M, start, final, n, word, [])
    ensures Explains(M, start, final, word, Ok(false))
  {
  }

  /**
   * What an outcome of the search says about the word: true or false as the
   * word is accepted or not; only IndexError or KeyError, each only when a
   * run of the word gets stuck that way; and false only when no run does.
   */
  ghost predicate Explains(M: map<Label, Matrix>, start: set<nat>, final: set<nat>, word: seq<Label>, r: Result<bool>) {
    && (r.Ok? ==> (r.value <==> Accepting(M, start, final, word)))
    && (r.Err? ==> r.error == IndexError || r.error == KeyError)
    && (r.Err? && r.error == IndexError ==> EndsOutsideFinal(M, start, final, word))
    && (r.Err? && r.error == KeyError ==> MissingSymbol(M, start, word))
    && (r == Ok(false) ==> !EndsOutsideFinal(M, start, final, word) && !MissingSymbol(M, start, word))
  }

  /**
   * One round of the search: pop the top configuration, answer true when it
   * has read the whole word in a final state, otherwise push its successors
   * (or stop with the error raised while trying them).
   */
  method Expand(M: map<Label, Matrix>, start: set<nat>, final: set<nat>, values: set<nat>, n: nat,
                word: seq<Label>, stack: seq<(seq<Label>, nat)>)
    returns (outcome: Option<Result<bool>>, stack': seq<(seq<Label>, nat)>)
    requires AllSquare(M, n) && values == Indices(n)
    requires stack != [] && SearchInvariant(M, start, final, word, stack)
    requires ErrorsPending(M, start, final, n, word, stack)
    ensures outcome.Some? ==> Explains(M, start, final, word, outcome.value)
    ensures outcome.None? ==> SearchInvariant(M, start, final, word, stack')
    ensures outcome.None? ==> ErrorsPending(M, start, final, n, word, stack')
    ensures outcome.None? ==> Weight(stack', n + 1) < Weight(stack, n + 1)
  {
    var c := stack[|stack| - 1];
    PopConfiguration(M, start, final, word, stack, n + 1);
    var popped := stack[..|stack| - 1];
    assert stack == popped + [c];
    var rest, q := c.0, c.1;
    if rest == [] && q in final {
      AcceptNow(M, start, word, q);
      return Some(Ok(true)), popped;
    }
    var err;
    err, stack' := PushSuccessors(M, start, values, n, word, rest, q, popped);
    if err.Some? {
      if err.value == IndexError {
        AcceptNow(M, start, word, q);
      } else {
        KeyErrorWitness(M, start, word, rest, q);
      }
      return Some(Err(err.value)), stack';
    }
    SearchStep(M, start, final, n, word, popped, c, stack');
    ErrorStep(M, start, final, n, word, popped, c, stack');
    outcome := None;
  }

  /**
   * The inner loop of accepting: for each state m, taken from the values of
   * the state numbering, push (rest[1..], m) when the matrix of rest[0] has
   * the entry (q, m). The first state tried raises IndexError when rest is
   * empty and KeyError when rest[0] has no matrix.
   */
  method PushSuccessors(M: map<Label, Matrix>, start: set<nat>, values: set<nat>, n: nat,
                        ghost word: seq<Label>, rest: seq<Label>, q: nat, stack: seq<(seq<Label>, nat)>)
    returns (err: Option<Error>, stack': seq<(seq<Label>, nat)>)
    requires values == Indices(n)
    requires Reached(M, start, word, (rest, q))
    requires forall c :: c in stack ==> Reached(M, start, word, c)
    ensures err == Some(IndexError) ==> rest == [] && n > 0
    ensures err == Some(KeyError) ==> rest != [] && rest[0] !in M
    ensures err.Some? ==> err == Some(IndexError) || err == Some(KeyError)
    ensures err.None? ==> forall c :: c in stack' ==> Reached(M, start, word, c)
    ensures err.None? ==> forall k :: |stack| <= k < |stack'| ==> stack'[k].1 < n
    ensures err.None? && rest == [] ==> n == 0
    ensures err.None? ==> |stack| <= |stack'| && stack'[..|stack|] == stack
    ensures err.None? && rest != [] && n > 0 ==> rest[0] in M
    ensures err.None? && rest != [] && rest[0] in M ==>
      forall m :: 0 <= m < n && (q, m) in M[rest[0]] ==> (rest[1..], m) in stack'
    ensures err.None? ==> Weight(stack', n + 1) < Weight(stack, n + 1) + Pow(n + 1, |rest|)
  {
    var b := n + 1;
    stack' := stack;
    err := None;
    ghost var done: nat := 0;
    ghost var p: nat := if rest == [] then 1 else Pow(b, |rest| - 1);
    IndicesCard(n);
    var next := values;
    while next != {}
      invariant next <= values
      invariant done + |next| == n
      invariant |stack| <= |stack'| && stack'[..|stack|] == stack
      invariant next == values ==> stack' == stack
      invariant next != values ==> rest != [] && rest[0] in M
      invariant forall c :: c in stack' ==> Reached(M, start, word, c)
      invariant forall k :: |stack| <= k < |stack'| ==> stack'[k].1 < n
      invariant rest != [] && rest[0] in M ==>
        forall m :: m in values - next && (q, m) in M[rest[0]] ==> (rest[1..], m) in stack'
      invariant rest != [] ==> Weight(stack', b) <= Weight(stack, b) + done * p
      decreases next
    {
      var m :| m in next;
      if rest == [] {
        return Some(IndexError), stack';
      }
      if rest[0] !in M {
        return Some(KeyError), stack';
      }
      if (q, m) in M[rest[0]] {
        ReachedStep(M, start, word, rest, q, m);
        assert |rest[1..]| == |rest| - 1;
        WeightGrows(stack', (rest[1..], m), b, Weight(stack, b), done);
        stack' := stack' + [(rest[1..], m)];
      } else {
        MoreSlack(Weight(stack', b), Weight(stack, b), done, p);
      }
      next := next - {m};
      done := done + 1;
    }
    if rest != [] {
      WeightBound(done, n, p);
    }
  }

  /** Every pending configuration was reached, and an accepting run, if any, passes through one of them. */
  ghost predicate SearchInvariant(M: map<Label, Matrix>, start: set<nat>, final: set<nat>, word: seq<Label>,
                                  stack: seq<(seq<Label>, nat)>) {
    && (forall c :: c in stack ==> Reached(M, start, word, c))
    && (Accepting(M, start, final, word) ==> exists c :: c in stack && AcceptsFrom(M, final, c))
  }

  /** Popping the top configuration removes its weight and leaves the configurations below it reached. */
  lemma PopConfiguration(M: map<Label, Matrix>, start: set<nat>, final: set<nat>, word: seq<Label>,
                         stack: seq<(seq<Label>, nat)>, b: nat)
    requires stack != [] && SearchInvariant(M, start, final, word, stack)
    ensures Reached(M, start, word, stack[|stack| - 1])
    ensures forall c :: c in stack[..|stack| - 1] ==> Reached(M, start, word, c)
    ensures SearchInvariant(M, start, final, word, stack[..|stack| - 1] + [stack[|stack| - 1]])
    ensures Weight(stack, b) == Weight(stack[..|stack| - 1], b) + Pow(b, |stack[|stack| - 1].0|)
  {
    assert stack == stack[..|stack| - 1] + [stack[|stack| - 1]];
  }

  /** A configuration with nothing left to read ends a walk over the whole word. */
  lemma AcceptNow(M: map<Label, Matrix>, start: set<nat>, word: seq<Label>, q: nat)
    requires Reached(M, start, word, ([], q))
    ensures exists s :: s in start && Walk(M, s, word, q)
  {
    assert word[..|word|] == word;
  }

  lemma KeyErrorWitness(M: map<Label, Matrix>, start: set<nat>, word: seq<Label>, rest: seq<Label>, q: nat)
    requires Reached(M, start, word, (rest, q))
    requires rest != [] && rest[0] !in M
    ensures exists s, i, q :: s in start && 0 <= i < |word| && word[i] !in M && Walk(M, s, word[..i], q)
  {
    assert word[|word| - |rest|] == rest[0];
  }

  /** A configuration that can still accept has a successor that can. */
  lemma SuccessorAccepts(M: map<Label, Matrix>, final: set<nat>, n: nat, rest: seq<Label>, q: nat)
    requires AllSquare(M, n)
    requires AcceptsFrom(M, final, (rest, q))
    requires rest != []
    ensures rest[0] in M
    ensures exists m :: 0 <= m < n && (q, m) in M[rest[0]] && AcceptsFrom(M, final, (rest[1..], m))
  {
    var f :| f in final && Walk(M, q, rest, f);
    var m: nat :| (q, m) in M[rest[0]] && Walk(M, m, rest[1..], f);
    assert AcceptsFrom(M, final, (rest[1..], m));
  }

  /** Replacing a popped configuration by its successors keeps the search invariant. */
  lemma SearchStep(M: map<Label, Matrix>, start: set<nat>, final: set<nat>, n: nat, word: seq<Label>,
                   popped: seq<(seq<Label>, nat)>, c: (seq<Label>, nat), stack: seq<(seq<Label>, nat)>)
    requires AllSquare(M, n)
    requires SearchInvariant(M, start, final, word, popped + [c])
    requires !(c.0 == [] && c.1 in final)
    requires forall c' :: c' in stack ==> Reached(M, start, word, c')
    requires |popped| <= |stack| && stack[..|popped|] == popped
    requires c.0 != [] && n > 0 ==> c.0[0] in M
    requires c.0 != [] && c.0[0] in M ==>
      forall m :: 0 <= m < n && (c.1, m) in M[c.0[0]] ==> (c.0[1..], m) in stack
    ensures SearchInvariant(M, start, final, word, stack)
  {
    if Accepting(M, start, final, word) {
      var c' :| c' in popped + [c] && AcceptsFrom(M, final, c');
      if c' == c {
        SuccessorAccepts(M, final, n, c.0, c.1);
        var m :| 0 <= m < n && (c.1, m) in M[c.0[0]] && AcceptsFrom(M, final, (c.0[1..], m));
        assert (c.0[1..], m) in stack;
      } else {
        var k :| 0 <= k < |popped| && popped[k] == c';
        assert stack[k] == c';
      }
    }
  }

  /**
   * The search cannot go on from configuration c: its word is read in a
   * state that is not final, or its next symbol has no matrix.
   */
  ghost predicate Stuck(M: map<Label, Matrix>, final: set<nat>, c: (seq<Label>, nat)) {
    if c.0 == [] then c.1 !in final else c.0[0] !in M
  }

  /** Some run from configuration c reaches a stuck configuration. */
  ghost predicate FailsFrom(M: map<Label, Matrix>, final: set<nat>, c: (seq<Label>, nat)) {
    exists j: nat, q: nat :: j <= |c.0| && Walk(M, c.1, c.0[..j], q) && Stuck(M, final, (c.0[j..], q))
  }

  /**
   * Every pending configuration names a state, and a run that gets stuck,
   * if any, passes through one of them.
   */
  ghost predicate ErrorsPending(M: map<Label, Matrix>, start: set<nat>, final: set<nat>, n: nat, word: seq<Label>,
                                stack: seq<(seq<Label>, nat)>) {
    && (forall c :: c in stack ==> c.1 < n)
    && (EndsOutsideFinal(M, start, final, word) || MissingSymbol(M, start, word) ==>
          exists c :: c in stack && FailsFrom(M, final, c))
  }

  /** The start configurations hold every run that gets stuck. */
  lemma StartErrors(M: map<Label, Matrix>, start: set<nat>, final: set<nat>, n: nat, word: seq<Label>,
                    stack: seq<(seq<Label>, nat)>)
    requires forall s :: s in start ==> s < n
    requires forall c :: c in stack ==> c.0 == word && c.1 in start
    requires forall s :: s in start ==> (word, s) in stack
    ensures ErrorsPending(M, start, final, n, word, stack)
  {
    if EndsOutsideFinal(M, start, final, word) {
      var s, q :| s in start && q !in final && Walk(M, s, word, q);
      assert word[..|word|] == word && word[|word|..] == [];
      assert (word, s) in stack && FailsFrom(M, final, (word, s));
    } else if MissingSymbol(M, start, word) {
      var s, i, q :| s in start && 0 <= i < |word| && word[i] !in M && Walk(M, s, word[..i], q);
      assert word[i..][0] == word[i];
      assert (word, s) in stack && FailsFrom(M, final, (word, s));
    }
  }

  /**
   * Replacing a popped configuration by its successors keeps every stuck
   * run pending: the popped one was not stuck itself, so its run goes on
   * through a successor.
   */
  lemma ErrorStep(M: map<Label, Matrix>, start: set<nat>, final: set<nat>, n: nat, word: seq<Label>,
                  popped: seq<(seq<Label>, nat)>, c: (seq<Label>, nat), stack: seq<(seq<Label>, nat)>)
    requires AllSquare(M, n)
    requires ErrorsPending(M, start, final, n, word, popped + [c])
    requires c.0 == [] ==> n == 0
    requires c.0 != [] && n > 0 ==> c.0[0] in M
    requires c.0 != [] && c.0[0] in M ==>
      forall m :: 0 <= m < n && (c.1, m) in M[c.0[0]] ==> (c.0[1..], m) in stack
    requires |popped| <= |stack| && stack[..|popped|] == popped
    requires forall k :: |popped| <= k < |stack| ==> stack[k].1 < n
    ensures ErrorsPending(M, start, final, n, word, stack)
  {
    forall c' | c' in stack ensures c'.1 < n {
      var k :| 0 <= k < |stack| && stack[k] == c';
      if k < |popped| {
        assert popped[k] in popped + [c];
      }
    }
    if EndsOutsideFinal(M, start, final, word) || MissingSymbol(M, start, word) {
      var c' :| c' in popped + [c] && FailsFrom(M, final, c');
      if c' == c {
        FailsOnward(M, final, n, c.0, c.1);
        var m :| 0 <= m < n && (c.1, m) in M[c.0[0]] && FailsFrom(M, final, (c.0[1..], m));
        assert (c.0[1..], m) in stack;
      } else {
        var k :| 0 <= k < |popped| && popped[k] == c';
        assert stack[k] == c';
      }
    }
  }

  /** A configuration that is not stuck but fails has a successor that fails. */
  lemma FailsOnward(M: map<Label, Matrix>, final: set<nat>, n: nat, rest: seq<Label>, q: nat)
    requires AllSquare(M, n) && q < n
    requires FailsFrom(M, final, (rest, q))
    requires rest == [] ==> n == 0
    requires rest != [] ==> rest[0] in M
    ensures rest != [] && rest[0] in M
    ensures exists m :: 0 <= m < n && (q, m) in M[rest[0]] && FailsFrom(M, final, (rest[1..], m))
  {
    var j: nat, p: nat :| j <= |rest| && Walk(M, q, rest[..j], p) && Stuck(M, final, (rest[j..], p));
    assert rest[..0] == [] && rest[0..] == rest;
    assert j > 0;
    assert rest[..j][0] == rest[0];
    var m: nat :| (q, m) in M[rest[0]] && Walk(M, m, rest[..j][1..], p);
    assert rest[..j][1..] == rest[1..][..j - 1] && rest[j..] == rest[1..][j - 1..];
    assert FailsFrom(M, final, (rest[1..], m));
  }

  /** One configuration per start state, each with the whole word still to read. */
  method StartConfigurations(word: seq<Label>, start: set<nat>) returns (stack: seq<(seq<Label>, nat)>)
    ensures forall c :: c in stack ==> c.0 == word && c.1 in start
    ensures forall s :: s in start ==> (word, s) in stack
  {
    stack := [];
    var pending := start;
    while pending != {}
      invariant pending <= start
      invariant forall c :: c in stack ==> c.0 == word && c.1 in start
      invariant forall s :: s in start ==> s in pending || (word, s) in stack
      decreases pending
    {
      var s :| s in pending;
      stack := stack + [(word, s)];
      pending := pending - {s};
    }
  }

  lemma StartReached(M: map<Label, Matrix>, start: set<nat>, final: set<nat>, word: seq<Label>,
                     stack: seq<(seq<Label>, nat)>)
    requires forall c :: c in stack ==> c.0 == word && c.1 in start
    requires forall s :: s in start ==> (word, s) in stack
    ensures SearchInvariant(M, start, final, word, stack)
  {
    assert word[..|word| - |word|] == [];
    assert word[|word| - |word|..] == word;
    if Accepting(M, start, final, word) {
      var s, f :| s in start && f in final && Walk(M, s, word, f);
      assert (word, s) in stack && AcceptsFrom(M, final, (word, s));
    }
  }

  lemma WeightBound(done: nat, n: nat, p: nat)
    requires done <= n && p >= 1
    ensures done * p < (n + 1) * p
  {
    MulMonotone(done, n, p);
  }

  /** Adds every symbol's matrix to reach. */
  method AddMatrices(reach: Matrix, M: map<Label, Matrix>) returns (r: Matrix)
    ensures r == reach + UnionOf(M)
  {
    r := reach;
    var labels := M.Keys;
    while labels != {}
      invariant labels <= M.Keys
      invariant forall p :: p in r <==> p in reach || exists l :: l in M.Keys - labels && p in M[l]
      decreases labels
    {
      var l :| l in labels;
      r := r + M[l];
      labels := labels - {l};
    }
  }

  /** Without any edge only the diagonal is reachable. */
  lemma EmptyClosure(E: Matrix, n: nat)
    requires E == {}
    ensures forall i, j :: 0 <= i < n && 0 <= j < n ==> ((i, j) in Diagonal(n) <==> Reachable(E, i, j))
  {
    forall i, j | 0 <= i < n && 0 <= j < n
      ensures (i, j) in Diagonal(n) <==> Reachable(E, i, j)
    {
      if Reachable(E, i, j) {
        var p :| IsPath(E, p) && p[0] == i && p[|p| - 1] == j;
        PathLeaves(E, p);
      }
      if i == j {
        ReachableRefl(E, i);
      }
    }
  }

  lemma InitialPaths(E: Matrix, n: nat, reach: Matrix)
    requires reach == Diagonal(n) + E
    ensures forall i, j :: 0 <= i < n && 0 <= j < n ==> ((i, j) in reach <==> PathBelow(E, i, j, 0))
  {
    forall i, j | 0 <= i < n && 0 <= j < n
      ensures (i, j) in reach <==> PathBelow(E, i, j, 0)
    {
      PathBelowZero(E, i, j);
    }
  }

  lemma PassPaths(E: Matrix, n: nat, k: nat)
    ensures forall i, j :: 0 <= i < n && 0 <= j < n ==>
      (PathBelow(E, i, j, k + 1) <==> PathBelow(E, i, j, k) || (PathBelow(E, i, k, k) && PathBelow(E, k, j, k)))
  {
    forall i, j | 0 <= i < n && 0 <= j < n
      ensures PathBelow(E, i, j, k + 1) <==> PathBelow(E, i, j, k) || (PathBelow(E, i, k, k) && PathBelow(E, k, j, k))
    {
      PathBelowStep(E, i, j, k);
    }
  }

  lemma AllPaths(E: Matrix, n: nat)
    requires Square(E, n)
    ensures forall i, j :: 0 <= i < n && 0 <= j < n ==> (PathBelow(E, i, j, n) <==> Reachable(E, i, j))
  {
    forall i, j | 0 <= i < n && 0 <= j < n
      ensures PathBelow(E, i, j, n) <==> Reachable(E, i, j)
    {
      PathBelowAll(E, n, i, j);
    }
  }

  /** One pass of Warshall's algorithm through intermediate state k, in place. */
  method WarshallPass(R: array2<bool>, ghost E: Matrix, k: nat)
    requires R.Length0 == R.Length1 && k < R.Length0
    requires forall i, j :: 0 <= i < R.Length0 && 0 <= j < R.Length0 ==> (R[i, j] <==> PathBelow(E, i, j, k))
    modifies R
    ensures forall i, j :: 0 <= i < R.Length0 && 0 <= j < R.Length0 ==>
      (R[i, j] <==> PathBelow(E, i, j, k) || (PathBelow(E, i, k, k) && PathBelow(E, k, j, k)))
  {
    var n := R.Length0;
    for s := 0 to n
      invariant forall i, j :: 0 <= i < s && 0 <= j < n ==>
        (R[i, j] <==> PathBelow(E, i, j, k) || (PathBelow(E, i, k, k) && PathBelow(E, k, j, k)))
      invariant forall i, j :: s <= i < n && 0 <= j < n ==> (R[i, j] <==> PathBelow(E, i, j, k))
    {
      for e := 0 to n
        invariant forall i, j :: 0 <= i < s && 0 <= j < n ==>
          (R[i, j] <==> PathBelow(E, i, j, k) || (PathBelow(E, i, k, k) && PathBelow(E, k, j, k)))
        invariant forall j :: 0 <= j < e ==>
          (R[s, j] <==> PathBelow(E, s, j, k) || (PathBelow(E, s, k, k) && PathBelow(E, k, j, k)))
        invariant forall j :: e <= j < n ==> (R[s, j] <==> PathBelow(E, s, j, k))
        invariant forall i, j :: s < i < n && 0 <= j < n ==> (R[i, j] <==> PathBelow(E, i, j, k))
      {
        R[s, e] := R[s, e] || (R[s, k] && R[k, e]);
      }
    }
  }

  /** The state numbering of a product automaton: the pair (s1, s2) gets s1's number times n2 plus s2's. */
  function PairStates<S1, S2>(m1: map<S1, nat>, m2: map<S2, nat>, n2: nat): (m: map<(S1, S2), nat>)
    ensures forall p :: p in m ==> p.0 in m1 && p.1 in m2
    ensures forall s1, s2 :: s1 in m1 && s2 in m2 ==> (s1, s2) in m && m[(s1, s2)] == PairIndex(m1[s1], m2[s2], n2)
  {
    map s1, s2 | s1 in m1 && s2 in m2 :: (s1, s2) := PairIndex(m1[s1], m2[s2], n2)
  }

  /** The numbers of all pairs (i1, i2) with i1 in A and i2 in B. */
  function PairIndices(A: set<nat>, B: set<nat>, n2: nat): (r: set<nat>)
    ensures forall i1, i2 :: i1 in A && i2 in B ==> PairIndex(i1, i2, n2) in r
    ensures forall i :: i in r ==> exists i1, i2 :: i1 in A && i2 in B && i == PairIndex(i1, i2, n2)
  {
    set i1, i2 | i1 in A && i2 in B :: PairIndex(i1, i2, n2)
  }

  /**
   * The product automaton: a state per pair of states, a matrix per symbol
   * both have (the Kronecker product of theirs), start and final states the
   * pairs of start and of final states.
   */
  method IntersectAutomata<S1(==), S2(==)>(first: AdjacencyMatrixFA<S1>, second: AdjacencyMatrixFA<S2>)
    returns (r: AdjacencyMatrixFA<(S1, S2)>)
    requires first.Valid() && second.Valid()
    ensures fresh(r) && r.Valid()
    ensures r.statesCount == Mul(first.statesCount, second.statesCount)
    ensures r.matrices == KronMap(first.matrices, second.matrices, second.statesCount)
    ensures r.states == PairStates(first.states, second.states, second.statesCount)
    ensures r.startStates == PairIndices(first.startStates, second.startStates, second.statesCount)
    ensures r.finalStates == PairIndices(first.finalStates, second.finalStates, second.statesCount)
    ensures r.alphabet == first.alphabet + second.alphabet
  {
    var n1, n2 := first.statesCount, second.statesCount;
    var matrices := ProductMatrices(first.matrices, second.matrices, n2);
    var states := PairStates(first.states, second.states, n2);
    var start := PairIndices(first.startStates, second.startStates, n2);
    var final := PairIndices(first.finalStates, second.finalStates, n2);
    ProductValid(first.matrices, n1, second.matrices, n2);
    PairStatesValues(first.states, n1, second.states, n2);
    PairIndicesBound(first.startStates, n1, second.startStates, n2);
    PairIndicesBound(first.finalStates, n1, second.finalStates, n2);

    r := new AdjacencyMatrixFA.Assemble(states, Mul(n1, n2), first.alphabet + second.alphabet, matrices, start, final);
  }

  /** The Kronecker product of the two matrices of every symbol both automata have; other symbols are skipped. */
  method ProductMatrices(A: map<Label, Matrix>, B: map<Label, Matrix>, nB: nat) returns (P: map<Label, Matrix>)
    ensures P == KronMap(A, B, nB)
  {
    P := map[];
    var labels := A.Keys;
    while labels != {}
      invariant labels <= A.Keys
      invariant P.Keys == (A.Keys - labels) * B.Keys
      invariant forall l :: l in P ==> P[l] == Kron(A[l], B[l], nB)
      decreases labels
    {
      var l :| l in labels;
      labels := labels - {l};
      if l !in B {
        continue;
      }
      P := P[l := Kron(A[l], B[l], nB)];
    }
  }

  lemma ProductValid(A: map<Label, Matrix>, nA: nat, B: map<Label, Matrix>, nB: nat)
    requires AllSquare(A, nA) && AllSquare(B, nB)
    ensures AllSquare(KronMap(A, B, nB), Mul(nA, nB))
  {
    var P := KronMap(A, B, nB);
    forall l | l in P ensures Square(P[l], Mul(nA, nB)) {
      KronMapSquare(A, nA, B, nB, l);
    }
  }

  lemma KronMapSquare(A: map<Label, Matrix>, nA: nat, B: map<Label, Matrix>, nB: nat, l: Label)
    requires AllSquare(A, nA) && AllSquare(B, nB) && l in KronMap(A, B, nB)
    ensures Square(KronMap(A, B, nB)[l], Mul(nA, nB))
  {
    KronSquare(A[l], nA, B[l], nB);
  }

  lemma PairStatesValues<S1, S2>(m1: map<S1, nat>, n1: nat, m2: map<S2, nat>, n2: nat)
    requires m1.Values == Indices(n1) && m2.Values == Indices(n2)
    ensures PairStates(m1, m2, n2).Values == Indices(Mul(n1, n2))
  {
    var m := PairStates(m1, m2, n2);
    forall i | i in m.Values ensures i < Mul(n1, n2) {
      PairStateBelow(m1, n1, m2, n2, i);
    }
    forall i | 0 <= i < Mul(n1, n2) ensures i in m.Values {
      PairStateCover(m1, n1, m2, n2, i);
    }
  }

  lemma PairStateBelow<S1, S2>(m1: map<S1, nat>, n1: nat, m2: map<S2, nat>, n2: nat, i: nat)
    requires m1.Values == Indices(n1) && m2.Values == Indices(n2)
    requires i in PairStates(m1, m2, n2).Values
    ensures i < Mul(n1, n2)
  {
    var m := PairStates(m1, m2, n2);
    var p :| p in m && m[p] == i;
    var x, y := m1[p.0], m2[p.1];
    assert x in m1.Values && y in m2.Values;
    PairIndexBound(x, y, n1, n2);
  }

  /** Every number below Mul(n1, n2) is the number of a pair. */
  lemma PairIndexSplit(i: nat, n1: nat, n2: nat) returns (x: nat, y: nat)
    requires i < Mul(n1, n2)
    ensures x < n1 && y < n2 && PairIndex(x, y, n2) == i
  {
    PairIndexSurjective(i, n1, n2);
    x, y := i / n2, i % n2;
  }

  lemma PairStateCover<S1, S2>(m1: map<S1, nat>, n1: nat, m2: map<S2, nat>, n2: nat, i: nat)
    requires m1.Values == Indices(n1) && m2.Values == Indices(n2)
    requires i < Mul(n1, n2)
    ensures i in PairStates(m1, m2, n2).Values
  {
    var x, y := PairIndexSplit(i, n1, n2);
    assert x in Indices(n1) && y in Indices(n2);
    var s1 :| s1 in m1 && m1[s1] == x;
    var s2 :| s2 in m2 && m2[s2] == y;
    assert PairStates(m1, m2, n2)[(s1, s2)] == i;
  }

  lemma PairIndicesBound(A: set<nat>, n1: nat, B: set<nat>, n2: nat)
    requires forall i :: i in A ==> i < n1
    requires forall i :: i in B ==> i < n2
    ensures forall i :: i in PairIndices(A, B, n2) ==> i < Mul(n1, n2)
  {
    forall i | i in PairIndices(A, B, n2) ensures i < Mul(n1, n2) {
      var i1, i2 :| i1 in A && i2 in B && i == PairIndex(i1, i2, n2);
      PairIndexBound(i1, i2, n1, n2);
    }
  }

  /** The product automaton accepts exactly the words both automata accept. */
  lemma IntersectionLanguage(A: map<Label, Matrix>, SA: set<nat>, FA: set<nat>,
                             B: map<Label, Matrix>, nB: nat, SB: set<nat>, FB: set<nat>, w: seq<Label>)
    requires AllSquare(B, nB)
    requires forall i :: i in SB ==> i < nB
    requires forall i :: i in FB ==> i < nB
    ensures Accepting(KronMap(A, B, nB), PairIndices(SA, SB, nB), PairIndices(FA, FB, nB), w)
        <==> Accepting(A, SA, FA, w) && Accepting(B, SB, FB, w)
  {
    var P := KronMap(A, B, nB);
    if Accepting(P, PairIndices(SA, SB, nB), PairIndices(FA, FB, nB), w) {
      var s, f :| s in PairIndices(SA, SB, nB) && f in PairIndices(FA, FB, nB) && Walk(P, s, w, f);
      var s1, s2 :| s1 in SA && s2 in SB && s == PairIndex(s1, s2, nB);
      var f1, f2 :| f1 in FA && f2 in FB && f == PairIndex(f1, f2, nB);
      KronWalk(A, B, nB, s1, s2, w, f1, f2);
    }
    if Accepting(A, SA, FA, w) && Accepting(B, SB, FB, w) {
      var s1, f1 :| s1 in SA && f1 in FA && Walk(A, s1, w, f1);
      var s2, f2 :| s2 in SB && f2 in FB && Walk(B, s2, w, f2);
      KronWalk(A, B, nB, s1, s2, w, f1, f2);
      assert PairIndex(s1, s2, nB) in PairIndices(SA, SB, nB);
      assert PairIndex(f1, f2, nB) in PairIndices(FA, FB, nB);
    }
  }
}
