/**
 * Regular path queries by the tensor product: the regular expression's
 * automaton (first factor) is intersected with the graph's automaton
 * (second factor), and the transitive closure of the product links a pair
 * of nodes when some word labels a graph walk between them and is read by
 * the expression's automaton from a start to a final state.
 */
module TensorRpq {
  import opened Common
  import opened BoolMatrix
  import opened FiniteAutomata
  import opened AdjacencyFA

  /** Some word read by the expression's automaton labels a graph walk from s to f. */
  ghost predicate RpqAnswer<R>(regex: Nfa<R>, g: Graph, s: nat, f: nat) {
    exists rs, rf, w :: rs in regex.start && rf in regex.final && NfaWalk(regex, rs, w, rf) && GraphWalk(g, s, w, f)
  }

  /**
   * The answer of the query: the pairs of a given start node and a given
   * final node that the product's closure links from some (expression start,
   * start node) to some (expression final, final node).
   */
  method TensorBasedRpq<R(==)>(regex: Nfa<R>, g: Graph, startNodes: set<nat>, finalNodes: set<nat>)
    returns (result: set<(nat, nat)>)
    requires ValidNfa(regex)
    ensures forall s, f :: (s, f) in result <==> s in startNodes && f in finalNodes && RpqAnswer(regex, g, s, f)
  {
    var graphNfa := GraphToNfa(g, Some(startNodes), Some(finalNodes));
    assert GraphAutomaton(g, graphNfa);
    assert startNodes + finalNodes <= Elements(graphNfa.states);
    var closure, index, regexStart, regexFinal, E := ClosureOfProduct(regex, graphNfa);
    result := CollectPairs(closure, index, regexStart, regexFinal, startNodes, finalNodes);
    forall s, f | s in startNodes && f in finalNodes
      ensures (s, f) in result <==> RpqAnswer(regex, g, s, f)
    {
      AllLinkedPairs(regex, g, graphNfa, closure, index, E, s, f);
      LinkedAnswer(regex, g, closure, index, s, f);
    }
  }

  /**
   * The automata of the expression and of the graph, their intersection and
   * its transitive closure; with the numbering of the product's pairs of
   * states and the expression's start and final states read back from the
   * numbering.
   */
  method ClosureOfProduct<R(==)>(regex: Nfa<R>, gn: Nfa<nat>)
    returns (closure: array2<bool>, index: map<(R, nat), nat>, regexStart: set<R>, regexFinal: set<R>, ghost E: Matrix)
    requires ValidNfa(regex) && ValidNfa(gn)
    ensures ProductIndex(regex, gn, index) && ProductUnion(regex, gn, E) && ClosureReach(closure, index, E)
    ensures regexStart == regex.start && regexFinal == regex.final
  {
    var regexFa := new AdjacencyMatrixFA(regex);
    var graphFa := new AdjacencyMatrixFA(gn);
    var product := IntersectAutomata(regexFa, graphFa);
    closure := product.TransitiveClosure();
    regexStart := ReadBack(regexFa.states, regexFa.startStates);
    regexFinal := ReadBack(regexFa.states, regexFa.finalStates);
    index := product.states;
    E := UnionOf(product.matrices);
    ImagePreimage(regex.states, regex.start);
    ImagePreimage(regex.states, regex.final);
    ProductIndexHolds(regex, gn, index);
    ClosureReachHolds(regex.states, gn.states, closure, index, E);
  }

  /** The numbering of the product's pairs of states, as the rest of the query uses it. */
  lemma ProductIndexHolds<R>(regex: Nfa<R>, gn: Nfa<nat>, index: map<(R, nat), nat>)
    requires ValidNfa(regex) && ValidNfa(gn)
    requires index == PairStates(StateIndex(regex.states), StateIndex(gn.states), |gn.states|)
    ensures ProductIndex(regex, gn, index)
  {
    PairsNumbered(regex.states, gn.states, index);
  }

  /** The closure's bounds cover every number of a pair, the closure being as large as the product. */
  lemma ClosureReachHolds<R>(rStates: seq<R>, gStates: seq<nat>, closure: array2<bool>, index: map<(R, nat), nat>, E: Matrix)
    requires Distinct(rStates) && Distinct(gStates)
    requires index == PairStates(StateIndex(rStates), StateIndex(gStates), |gStates|)
    requires closure.Length0 == Mul(|rStates|, |gStates|) && closure.Length1 == Mul(|rStates|, |gStates|)
    requires forall i, j :: 0 <= i < closure.Length0 && 0 <= j < closure.Length1 ==> (closure[i, j] <==> Reachable(E, i, j))
    ensures ClosureReach(closure, index, E)
  {
    ProductIndexInRange(rStates, gStates, index);
  }

  /** The product's closure links (rs, s) to (rf, f). */
  predicate Linked<R(==)>(closure: array2<bool>, index: map<(R, nat), nat>, rs: R, s: nat, rf: R, f: nat)
    reads closure
  {
    && (rs, s) in index && (rf, f) in index
    && index[(rs, s)] < closure.Length0 && index[(rf, f)] < closure.Length1
    && closure[index[(rs, s)], index[(rf, f)]]
  }

  /** The comprehension that ends the query: every (start node, final node) pair some expression start and final link. */
  method CollectPairs<R(==)>(closure: array2<bool>, index: map<(R, nat), nat>, regexStart: set<R>, regexFinal: set<R>,
                             startNodes: set<nat>, finalNodes: set<nat>)
    returns (result: set<(nat, nat)>)
    requires forall r, s :: r in regexStart + regexFinal && s in startNodes + finalNodes ==> (r, s) in index
    requires forall p :: p in index ==> index[p] < closure.Length0 && index[p] < closure.Length1
    ensures forall s, f :: (s, f) in result <==>
      (s in startNodes && f in finalNodes &&
       exists rs, rf :: rs in regexStart && rf in regexFinal && Linked(closure, index, rs, s, rf, f))
  {
    result := set s, f, rs, rf | s in startNodes && f in finalNodes && rs in regexStart && rf in regexFinal
                                 && closure[index[(rs, s)], index[(rf, f)]]
                              :: (s, f);
  }

  /** The states whose numbers are among the given numbers. */
  function ReadBack<S>(idx: map<S, nat>, numbers: set<nat>): set<S> {
    set x | x in idx && idx[x] in numbers
  }

  /** Reading back the numbers of a set of states gives the same set, the numbering being one-to-one. */
  lemma ImagePreimage<S>(states: seq<S>, xs: set<S>)
    requires Distinct(states) && xs <= Elements(states)
    ensures ReadBack(StateIndex(states), IndexSet(StateIndex(states), xs)) == xs
  {
    IndexSetExact(states, xs);
  }

  /** Every pair of an expression state and a graph state has a number below the product's size. */
  lemma ProductIndexInRange<R>(rStates: seq<R>, gStates: seq<nat>, index: map<(R, nat), nat>)
    requires Distinct(rStates) && Distinct(gStates)
    requires index == PairStates(StateIndex(rStates), StateIndex(gStates), |gStates|)
    ensures forall p :: p in index ==> index[p] < Mul(|rStates|, |gStates|)
  {
    forall p | p in index
      ensures index[p] < Mul(|rStates|, |gStates|)
    {
      PairInRange(rStates, gStates, p.0, p.1, index);
    }
  }

  /** One numbered pair of states: its number is below the product's size. */
  lemma PairInRange<R>(rStates: seq<R>, gStates: seq<nat>, r: R, s: nat, index: map<(R, nat), nat>)
    requires Distinct(rStates) && Distinct(gStates) && (r, s) in index
    requires index == PairStates(StateIndex(rStates), StateIndex(gStates), |gStates|)
    ensures index[(r, s)] < Mul(|rStates|, |gStates|)
  {
    PairIndexBound(StateIndex(rStates)[r], StateIndex(gStates)[s], |rStates|, |gStates|);
  }

  /** Every pair of an expression state and a graph state is numbered. */
  lemma PairsNumbered<R>(rStates: seq<R>, gStates: seq<nat>, index: map<(R, nat), nat>)
    requires Distinct(rStates) && Distinct(gStates)
    requires index == PairStates(StateIndex(rStates), StateIndex(gStates), |gStates|)
    ensures forall r, s :: r in rStates && s in gStates ==> (r, s) in index
  {
  }

  /** Some word takes the expression's automaton from rs to rf and labels a graph walk from s to f. */
  ghost predicate CommonWord<R>(regex: Nfa<R>, g: Graph, rs: R, s: nat, rf: R, f: nat) {
    exists w :: NfaWalk(regex, rs, w, rf) && GraphWalk(g, s, w, f)
  }

  /** The closure links a pair of nodes from an expression start to an expression final exactly when they answer the query. */
  lemma LinkedAnswer<R>(regex: Nfa<R>, g: Graph, closure: array2<bool>, index: map<(R, nat), nat>, s: nat, f: nat)
    requires ValidNfa(regex)
    requires forall rs, rf :: rs in regex.states && rf in regex.states ==>
      (Linked(closure, index, rs, s, rf, f) <==> CommonWord(regex, g, rs, s, rf, f))
    ensures (exists rs, rf :: rs in regex.start && rf in regex.final && Linked(closure, index, rs, s, rf, f))
        <==> RpqAnswer(regex, g, s, f)
  {
    if exists rs, rf :: rs in regex.start && rf in regex.final && Linked(closure, index, rs, s, rf, f) {
      var rs, rf :| rs in regex.start && rf in regex.final && Linked(closure, index, rs, s, rf, f);
      var w :| NfaWalk(regex, rs, w, rf) && GraphWalk(g, s, w, f);
    }
    if RpqAnswer(regex, g, s, f) {
      var rs, rf, w :| rs in regex.start && rf in regex.final && NfaWalk(regex, rs, w, rf) && GraphWalk(g, s, w, f);
      assert CommonWord(regex, g, rs, s, rf, f);
    }
  }

  /** gn is the automaton of graph g: its transitions are g's edges, in order. */
  ghost predicate GraphAutomaton(g: Graph, gn: Nfa<nat>) {
    && ValidNfa(gn)
    && |gn.transitions| == |g.edges|
    && (forall i :: 0 <= i < |g.edges| ==> gn.transitions[i] == TransitionOf(g.edges[i]))
  }

  /** index numbers every pair of an expression state and a graph state as the product does. */
  ghost predicate ProductIndex<R>(regex: Nfa<R>, gn: Nfa<nat>, index: map<(R, nat), nat>) {
    && ValidNfa(regex) && ValidNfa(gn)
    && index == PairStates(StateIndex(regex.states), StateIndex(gn.states), |gn.states|)
    && (forall r, x :: r in regex.states && x in gn.states ==> (r, x) in index)
  }

  /** E is the union of the product's matrices, one Kronecker product per shared symbol. */
  ghost predicate ProductUnion<R>(regex: Nfa<R>, gn: Nfa<nat>, E: Matrix) {
    && ValidNfa(regex) && ValidNfa(gn)
    && E == UnionOf(KronMap(LabelMatrices(regex), LabelMatrices(gn), |gn.states|))
  }

  /** Every number of a pair is within the closure's bounds, and the closure holds the reachability of E. */
  ghost predicate ClosureReach<R>(closure: array2<bool>, index: map<(R, nat), nat>, E: Matrix)
    reads closure
  {
    && (forall p :: p in index ==> index[p] < closure.Length0 && index[p] < closure.Length1)
    && (forall i, j :: 0 <= i < closure.Length0 && 0 <= j < closure.Length1 ==> (closure[i, j] <==> Reachable(E, i, j)))
  }

  /** What the query knows once the closure is computed. */
  ghost predicate ProductClosure<R>(regex: Nfa<R>, gn: Nfa<nat>, closure: array2<bool>, index: map<(R, nat), nat>, E: Matrix)
    reads closure
  {
    ProductIndex(regex, gn, index) && ProductUnion(regex, gn, E) && ClosureReach(closure, index, E)
  }

  /** Every pair of an expression start and an expression final: the closure entry is a common word. */
  lemma AllLinkedPairs<R>(regex: Nfa<R>, g: Graph, gn: Nfa<nat>, closure: array2<bool>, index: map<(R, nat), nat>, E: Matrix,
                          s: nat, f: nat)
    requires GraphAutomaton(g, gn) && ProductClosure(regex, gn, closure, index, E)
    requires s in gn.states && f in gn.states
    ensures forall rs, rf :: rs in regex.states && rf in regex.states ==>
      (Linked(closure, index, rs, s, rf, f) <==> CommonWord(regex, g, rs, s, rf, f))
  {
    forall rs, rf | rs in regex.states && rf in regex.states
      ensures Linked(closure, index, rs, s, rf, f) <==> CommonWord(regex, g, rs, s, rf, f)
    {
      LinkedPair(regex, g, gn, closure, index, E, rs, s, rf, f);
    }
  }

  /** One pair of expression states: the closure entry holds exactly when a common word exists. */
  lemma LinkedPair<R>(regex: Nfa<R>, g: Graph, gn: Nfa<nat>, closure: array2<bool>, index: map<(R, nat), nat>, E: Matrix,
                      rs: R, s: nat, rf: R, f: nat)
    requires GraphAutomaton(g, gn) && ProductClosure(regex, gn, closure, index, E)
    requires rs in regex.states && rf in regex.states && s in gn.states && f in gn.states
    ensures Linked(closure, index, rs, s, rf, f) <==> CommonWord(regex, g, rs, s, rf, f)
  {
    var i := PairNumber(regex.states, gn.states, rs, s);
    var j := PairNumber(regex.states, gn.states, rf, f);
    ClosureEntry(closure, index, E, rs, s, rf, f, i, j);
    PairReachable(regex, g, gn, E, rs, rf, s, f);
  }

  /** The number the product gives a pair of states. */
  lemma PairNumber<R>(rStates: seq<R>, gStates: seq<nat>, r: R, s: nat) returns (i: nat)
    requires Distinct(rStates) && Distinct(gStates) && r in rStates && s in gStates
    ensures (r, s) in PairStates(StateIndex(rStates), StateIndex(gStates), |gStates|)
    ensures i == PairStates(StateIndex(rStates), StateIndex(gStates), |gStates|)[(r, s)]
    ensures i == PairIndex(StateIndex(rStates)[r], StateIndex(gStates)[s], |gStates|)
  {
    i := PairIndex(StateIndex(rStates)[r], StateIndex(gStates)[s], |gStates|);
  }

  /** A closure entry between two numbered pairs is their reachability. */
  lemma ClosureEntry<R>(closure: array2<bool>, index: map<(R, nat), nat>, E: Matrix, rs: R, s: nat, rf: R, f: nat, i: nat, j: nat)
    requires (rs, s) in index && (rf, f) in index && index[(rs, s)] == i && index[(rf, f)] == j
    requires i < closure.Length0 && j < closure.Length1
    requires forall i, j :: 0 <= i < closure.Length0 && 0 <= j < closure.Length1 ==> (closure[i, j] <==> Reachable(E, i, j))
    ensures Linked(closure, index, rs, s, rf, f) <==> Reachable(E, i, j)
  {
  }

  /** A state is in the image of xs exactly when it is in xs, the numbering being one-to-one. */
  lemma IndexSetExact<S>(states: seq<S>, xs: set<S>)
    requires Distinct(states) && xs <= Elements(states)
    ensures forall x :: x in StateIndex(states) ==> (StateIndex(states)[x] in IndexSet(StateIndex(states), xs) <==> x in xs)
  {
    var idx := StateIndex(states);
    forall x | x in idx && idx[x] in IndexSet(idx, xs) ensures x in xs {
      var y :| y in xs && idx[y] == idx[x];
      assert states[idx[y]] == y && states[idx[x]] == x;
    }
  }

  /**
   * The closure of the product links (rs, s) to (rf, f) exactly when some
   * word takes the expression's automaton from rs to rf and labels a graph
   * walk from s to f.
   */
  lemma PairReachable<R>(regex: Nfa<R>, g: Graph, gn: Nfa<nat>, E: Matrix, rs: R, rf: R, s: nat, f: nat)
    requires ValidNfa(regex) && ValidNfa(gn)
    requires E == UnionOf(KronMap(LabelMatrices(regex), LabelMatrices(gn), |gn.states|))
    requires |gn.transitions| == |g.edges|
    requires forall i :: 0 <= i < |g.edges| ==> gn.transitions[i] == TransitionOf(g.edges[i])
    requires rs in regex.states && rf in regex.states && s in gn.states && f in gn.states
    ensures Reachable(E, PairIndex(StateIndex(regex.states)[rs], StateIndex(gn.states)[s], |gn.states|),
                         PairIndex(StateIndex(regex.states)[rf], StateIndex(gn.states)[f], |gn.states|))
        <==> CommonWord(regex, g, rs, s, rf, f)
  {
    var A, B, nB := LabelMatrices(regex), LabelMatrices(gn), |gn.states|;
    var idxR, idxG := StateIndex(regex.states), StateIndex(gn.states);
    var i, j := PairIndex(idxR[rs], idxG[s], nB), PairIndex(idxR[rf], idxG[f], nB);
    ReachableIffWalk(KronMap(A, B, nB), i, j);
    if exists w :: Walk(KronMap(A, B, nB), i, w, j) {
      var w :| Walk(KronMap(A, B, nB), i, w, j);
      KronWalk(A, B, nB, idxR[rs], idxG[s], w, idxR[rf], idxG[f]);
      MatrixWalkIffNfaWalk(regex, rs, w, rf);
      MatrixWalkIffNfaWalk(gn, s, w, f);
      GraphNfaWalk(g, gn, s, w, f);
    }
    if CommonWord(regex, g, rs, s, rf, f) {
      var w :| NfaWalk(regex, rs, w, rf) && GraphWalk(g, s, w, f);
      KronWalk(A, B, nB, idxR[rs], idxG[s], w, idxR[rf], idxG[f]);
      MatrixWalkIffNfaWalk(regex, rs, w, rf);
      MatrixWalkIffNfaWalk(gn, s, w, f);
      GraphNfaWalk(g, gn, s, w, f);
    }
  }
}
