/**
 * Context-free path queries by the tensor product of a recursive state
 * machine with the graph: the machine's boxes are flattened into one
 * automaton over (nonterminal, state) pairs, the graph's automaton is
 * intersected with it, and entries of the product's closure are promoted
 * into new graph edges until nothing new appears.
 */
module TensorCfpq {
  import opened Common
  import opened BoolMatrix
  import opened FiniteAutomata
  import opened AdjacencyFA

  /** A state of the flattened machine: the box's nonterminal and the state inside the box. */
  type RsmState = (string, nat)

  /**
   * A box of the machine: its nonterminal and its automaton. `isNfa` is false
   * when the box does not hold a finite-automaton object, and the box is then
   * ignored.
   */
  datatype Box = Box(head: string, isNfa: bool, automaton: Nfa<nat>)

  /** A networkx edge label that passes `if label:` (present and a non-empty name). */
  predicate Kept(symbol: Option<Label>) {
    symbol.Some? && symbol.value.Term? && symbol.value.text != ""
  }

  /** A transition of the flattened machine: a kept transition of some box, both ends tagged with its nonterminal. */
  ghost predicate BoxTransition(boxes: seq<Box>, t: (RsmState, Label, RsmState)) {
    && t.0.0 == t.2.0
    && Kept(Some(t.1))
    && exists b :: b in boxes && b.isNfa && b.head == t.0.0 && (t.0.1, t.1, t.2.1) in b.automaton.transitions
  }

  /** The start states of the boxes, tagged with their nonterminals. */
  function BoxStarts(boxes: seq<Box>): set<RsmState> {
    set b, s | b in boxes && b.isNfa && s in b.automaton.start :: (b.head, s)
  }

  /** The final states of the boxes, tagged with their nonterminals. */
  function BoxFinals(boxes: seq<Box>): set<RsmState> {
    set b, s | b in boxes && b.isNfa && s in b.automaton.final :: (b.head, s)
  }

  /** The transitions of the automaton are exactly the boxes' kept transitions. */
  ghost predicate Flattens(boxes: seq<Box>, a: Nfa<RsmState>) {
    forall t :: t in a.transitions <==> BoxTransition(boxes, t)
  }

  /**
   * Flattens the machine into one automaton: for each box that is an
   * automaton, its start and final states and every labelled edge of its
   * networkx view, tagged with the box's nonterminal.
   */
  method RsmToNfa(boxes: seq<Box>) returns (a: Nfa<RsmState>)
    ensures ValidNfa(a) && Flattens(boxes, a)
    ensures a.start == BoxStarts(boxes) && a.final == BoxFinals(boxes)
  {
    var transitions: seq<(RsmState, Label, RsmState)> := [];
    var startSet: set<RsmState> := {};
    var finalSet: set<RsmState> := {};
    for i := 0 to |boxes|
      invariant forall t :: t in transitions <==> BoxTransition(boxes[..i], t)
      invariant startSet == BoxStarts(boxes[..i]) && finalSet == BoxFinals(boxes[..i])
    {
      var box := boxes[i];
      assert boxes[..i + 1] == boxes[..i] + [box];
      if !box.isNfa {
        BoxesSkip(boxes[..i], box);
        continue;
      }
      startSet := startSet + (set s | s in box.automaton.start :: (box.head, s));
      finalSet := finalSet + (set s | s in box.automaton.final :: (box.head, s));
      BoxStatesSnoc(boxes[..i], box);
      var before := transitions;
      transitions := BoxEdges(transitions, box.head, box.automaton);
      BoxTransitionsSnoc(boxes[..i], box, before, transitions);
    }
    assert boxes[..|boxes|] == boxes;
    var states := TransitionStates(transitions);
    states := AddStates(states, startSet);
    states := AddStates(states, finalSet);
    a := Nfa(states, transitions, startSet, finalSet);
    assert forall t :: t in transitions ==> t.0 in Elements(states) && t.2 in Elements(states);
  }

  lemma BoxesSkip(boxes: seq<Box>, box: Box)
    requires !box.isNfa
    ensures forall t :: BoxTransition(boxes + [box], t) <==> BoxTransition(boxes, t)
    ensures BoxStarts(boxes + [box]) == BoxStarts(boxes) && BoxFinals(boxes + [box]) == BoxFinals(boxes)
  {
    forall t | BoxTransition(boxes + [box], t) ensures BoxTransition(boxes, t) {
      var b :| b in boxes + [box] && b.isNfa && b.head == t.0.0 && (t.0.1, t.1, t.2.1) in b.automaton.transitions;
      assert b in boxes;
    }
    forall t | BoxTransition(boxes, t) ensures BoxTransition(boxes + [box], t) {
      var b :| b in boxes && b.isNfa && b.head == t.0.0 && (t.0.1, t.1, t.2.1) in b.automaton.transitions;
      assert b in boxes + [box];
    }
  }

  lemma BoxStatesSnoc(boxes: seq<Box>, box: Box)
    requires box.isNfa
    ensures BoxStarts(boxes + [box]) == BoxStarts(boxes) + (set s | s in box.automaton.start :: (box.head, s))
    ensures BoxFinals(boxes + [box]) == BoxFinals(boxes) + (set s | s in box.automaton.final :: (box.head, s))
  {
    assert forall b :: b in boxes + [box] <==> b in boxes || b == box;
  }

  lemma BoxTransitionsSnoc(boxes: seq<Box>, box: Box, before: seq<(RsmState, Label, RsmState)>,
                           after: seq<(RsmState, Label, RsmState)>)
    requires box.isNfa
    requires forall t :: t in before <==> BoxTransition(boxes, t)
    requires forall t :: t in after <==> t in before || InBox(box.head, box.automaton, t)
    ensures forall t :: t in after <==> BoxTransition(boxes + [box], t)
  {
    forall t ensures t in after <==> BoxTransition(boxes + [box], t) {
      if BoxTransition(boxes + [box], t) {
        var b :| b in boxes + [box] && b.isNfa && b.head == t.0.0 && (t.0.1, t.1, t.2.1) in b.automaton.transitions;
        if b != box {
          assert b in boxes;
          assert BoxTransition(boxes, t);
        }
      }
      if t in after && !(t in before) {
        assert box in boxes + [box];
      }
      if t in before {
        var b :| b in boxes && b.isNfa && b.head == t.0.0 && (t.0.1, t.1, t.2.1) in b.automaton.transitions;
        assert b in boxes + [box];
      }
    }
  }

  /** t is a kept transition of the automaton of the box with nonterminal head, tagged with head. */
  ghost predicate InBox(head: string, box: Nfa<nat>, t: (RsmState, Label, RsmState)) {
    t.0.0 == head && t.2.0 == head && Kept(Some(t.1)) && (t.0.1, t.1, t.2.1) in box.transitions
  }

  /** The networkx edge k is a kept, labelled edge between two genuine states, giving transition t. */
  ghost predicate KeptEdge(head: string, nx: seq<NxEdge<nat>>, k: nat, t: (RsmState, Label, RsmState))
    requires k < |nx|
  {
    && Kept(nx[k].symbol) && nx[k].src.Node? && nx[k].dst.Node?
    && t == ((head, nx[k].src.state), nx[k].symbol.value, (head, nx[k].dst.state))
  }

  /** The labelled edges of one box's networkx view, appended as tagged transitions. */
  method BoxEdges(transitions: seq<(RsmState, Label, RsmState)>, head: string, box: Nfa<nat>)
    returns (r: seq<(RsmState, Label, RsmState)>)
    ensures forall t :: t in r <==> t in transitions || InBox(head, box, t)
  {
    var nx := ToNetworkx(box);
    r := transitions;
    for k := 0 to |nx|
      invariant forall t :: t in r <==> t in transitions || exists j: nat :: j < k && KeptEdge(head, nx, j, t)
    {
      var e := nx[k];
      if Kept(e.symbol) {
        NetworkxLabelled(box, k);
        var t := ((head, e.src.state), e.symbol.value, (head, e.dst.state));
        assert KeptEdge(head, nx, k, t);
        r := r + [t];
      }
    }
    forall t ensures (exists j: nat :: j < |nx| && KeptEdge(head, nx, j, t)) <==> InBox(head, box, t) {
      if exists j: nat :: j < |nx| && KeptEdge(head, nx, j, t) {
        var j: nat :| j < |nx| && KeptEdge(head, nx, j, t);
        NetworkxLabelled(box, j);
      }
      if InBox(head, box, t) {
        var i :| 0 <= i < |box.transitions| && box.transitions[i] == (t.0.1, t.1, t.2.1);
        var j := NetworkxTransition(box, i);
        assert KeptEdge(head, nx, j, t);
      }
    }
  }

  /** Every labelled edge of the networkx view joins two genuine states and is a transition. */
  lemma NetworkxLabelled<S>(a: Nfa<S>, k: nat)
    requires k < |ToNetworkx(a)| && ToNetworkx(a)[k].symbol.Some?
    ensures ToNetworkx(a)[k].src.Node? && ToNetworkx(a)[k].dst.Node?
    ensures (ToNetworkx(a)[k].src.state, ToNetworkx(a)[k].symbol.value, ToNetworkx(a)[k].dst.state) in a.transitions
  {
    var starting := StartingEdges(a.states, a.start);
    assert k >= |starting|;
    NetworkxRealEdges(a, k);
  }

  /** add_transitions: each transition adds its source and then its target as states. */
  method TransitionStates<S(==)>(transitions: seq<(S, Label, S)>) returns (states: seq<S>)
    ensures Distinct(states)
    ensures forall t :: t in transitions ==> t.0 in states && t.2 in states
  {
    states := [];
    for i := 0 to |transitions|
      invariant Distinct(states)
      invariant forall k :: 0 <= k < i ==> transitions[k].0 in states && transitions[k].2 in states
    {
      states := AddState(AddState(states, transitions[i].0), transitions[i].2);
    }
  }

  /** A walk of the flattened machine never leaves the box it starts in. */
  lemma {:induction false} StaysInBox(boxes: seq<Box>, a: Nfa<RsmState>, p: RsmState, w: seq<Label>, q: RsmState)
    requires Flattens(boxes, a) && NfaWalk(a, p, w, q)
    ensures p.0 == q.0
    decreases |w|
  {
    if w != [] {
      var t :| t in a.transitions && t.0 == p && t.1 == w[0] && NfaWalk(a, t.2, w[1..], q);
      StaysInBox(boxes, a, t.2, w[1..], q);
    }
  }

  /** Every walk of a box over names the flattening keeps is a walk of the flattened machine. */
  lemma {:induction false} BoxWalk(boxes: seq<Box>, a: Nfa<RsmState>, b: Box, u: nat, w: seq<Label>, v: nat)
    requires Flattens(boxes, a) && b in boxes && b.isNfa
    requires forall k :: 0 <= k < |w| ==> Kept(Some(w[k]))
    requires NfaWalk(b.automaton, u, w, v)
    ensures NfaWalk(a, (b.head, u), w, (b.head, v))
    decreases |w|
  {
    if w != [] {
      var t :| t in b.automaton.transitions && t.0 == u && t.1 == w[0] && NfaWalk(b.automaton, t.2, w[1..], v);
      var t' := ((b.head, u), w[0], (b.head, t.2));
      assert BoxTransition(boxes, t');
      BoxWalk(boxes, a, b, t.2, w[1..], v);
    }
  }

  // ---------------------------------------------------------------------------
  // update_matrices
  // ---------------------------------------------------------------------------

  /** The matrix of symbol l, or the empty matrix when there is none. */
  function Cell(M: map<Label, Matrix>, l: Label): Matrix {
    if l in M then M[l] else {}
  }

  /** Symbol-wise union of two families of matrices (the elementwise OR of the sparse matrices). */
  function Merge(A: map<Label, Matrix>, B: map<Label, Matrix>): (M: map<Label, Matrix>)
    ensures M.Keys == A.Keys + B.Keys
    ensures forall l :: l in M ==> forall p :: p in M[l] <==> (l in A && p in A[l]) || (l in B && p in B[l])
  {
    map l | l in A.Keys + B.Keys :: Cell(A, l) + Cell(B, l)
  }

  lemma MergeSquare(A: map<Label, Matrix>, B: map<Label, Matrix>, n: nat)
    requires AllSquare(A, n) && AllSquare(B, n)
    ensures AllSquare(Merge(A, B), n)
  {
  }

  /**
   * A new automaton with the previous one's states, numbering, start and final
   * states, and a copy of its matrices ORed with the given ones. Being built
   * empty, it has no alphabet. The previous automaton is left as it was.
   */
  method UpdateMatrices(prev: AdjacencyMatrixFA<nat>, matrices: map<Label, Matrix>) returns (r: AdjacencyMatrixFA<nat>)
    requires prev.Valid() && AllSquare(matrices, prev.statesCount)
    ensures fresh(r) && r.Valid()
    ensures r.states == prev.states && r.statesCount == prev.statesCount
    ensures r.startStates == prev.startStates && r.finalStates == prev.finalStates
    ensures r.alphabet == {}
    ensures r.matrices == Merge(prev.matrices, matrices)
  {
    var merged := MergeInto(prev.matrices, matrices);
    MergeSquare(prev.matrices, matrices, prev.statesCount);
    assert WellFormed(prev.states, prev.statesCount, merged, prev.startStates, prev.finalStates);
    r := new AdjacencyMatrixFA.Empty();
    r.statesCount := prev.statesCount;
    r.states := prev.states;
    r.startStates := prev.startStates;
    r.finalStates := prev.finalStates;
    r.matrices := merged;
  }

  /** The copied matrices, with each given matrix ORed into the one of its symbol or added when there is none. */
  method MergeInto(base: map<Label, Matrix>, matrices: map<Label, Matrix>) returns (merged: map<Label, Matrix>)
    ensures merged == Merge(base, matrices)
  {
    merged := base;
    var pending := matrices.Keys;
    ghost var done: map<Label, Matrix> := map[];
    MergeNothing(base);
    while pending != {}
      invariant pending <= matrices.Keys && done.Keys == matrices.Keys - pending
      invariant forall l :: l in done ==> done[l] == matrices[l]
      invariant merged == Merge(base, done)
      decreases pending
    {
      var sym :| sym in pending;
      MergeStep(base, done, sym, matrices[sym]);
      if sym in merged {
        merged := merged[sym := merged[sym] + matrices[sym]];
      } else {
        assert {} + matrices[sym] == matrices[sym];
        merged := merged[sym := matrices[sym]];
      }
      done := done[sym := matrices[sym]];
      pending := pending - {sym};
    }
    assert done == matrices;
  }

  lemma MergeNothing(base: map<Label, Matrix>)
    ensures Merge(base, map[]) == base
  {
    var m := Merge(base, map[]);
    assert m.Keys == base.Keys;
    forall l | l in m ensures m[l] == base[l] {
      assert m[l] == base[l] + {};
    }
  }

  /** ORing one more matrix into a merge. */
  lemma MergeStep(base: map<Label, Matrix>, done: map<Label, Matrix>, sym: Label, m: Matrix)
    requires sym !in done
    ensures Merge(base, done[sym := m]) == Merge(base, done)[sym := Cell(Merge(base, done), sym) + m]
  {
    var lhs := Merge(base, done[sym := m]);
    var rhs := Merge(base, done)[sym := Cell(Merge(base, done), sym) + m];
    assert lhs.Keys == rhs.Keys;
    forall l | l in lhs ensures lhs[l] == rhs[l] {
      if l == sym {
        assert lhs[l] == Cell(base, l) + m;
      } else {
        assert lhs[l] == Cell(base, l) + Cell(done, l);
      }
    }
  }


  // ---------------------------------------------------------------------------
  // One pass over the product's closure
  // ---------------------------------------------------------------------------

  /** Python's dict.get: the value of k, or None. */
  function Lookup<K, V>(m: map<K, V>, k: K): Option<V> {
    if k in m then Some(m[k]) else None
  }

  /** Different keys get different numbers. */
  ghost predicate OneToOne<S>(m: map<S, nat>) {
    forall x, y :: x in m && y in m && m[x] == m[y] ==> x == y
  }

  /**
   * The closure entry between graph nodes a and b through machine state q
   * gives a new edge a -q-> b: q is both a start and a final state of the
   * machine, the product's closure links (a, q) to (b, q), and the graph has
   * no such edge yet.
   */
  ghost predicate PromotableIn(G: map<Label, Matrix>, nG: nat, rS: map<RsmState, nat>, R: map<Label, Matrix>, nR: nat,
                               rStart: set<nat>, rFinal: set<nat>, a: nat, q: RsmState, b: nat) {
    && a < nG && b < nG
    && q in rS && rS[q] in rStart && rS[q] in rFinal
    && Reachable(UnionOf(KronMap(G, R, nR)), PairIndex(a, rS[q], nR), PairIndex(b, rS[q], nR))
    && !(StateLabel(q) in G && (a, b) in G[StateLabel(q)])
  }

  /** PromotableIn, for the graph's and the machine's automata. */
  ghost predicate Promotable(graph: AdjacencyMatrixFA<nat>, rsm: AdjacencyMatrixFA<RsmState>, a: nat, q: RsmState, b: nat)
    reads graph, rsm
  {
    PromotableIn(graph.matrices, graph.statesCount, rsm.states, rsm.matrices, rsm.statesCount,
                 rsm.startStates, rsm.finalStates, a, q, b)
  }

  /** A new edge a -q-> b is a common word: the graph reads it from a to b, the machine from q back to q. */
  lemma PromotableMeaning(G: map<Label, Matrix>, nG: nat, rS: map<RsmState, nat>, R: map<Label, Matrix>, nR: nat,
                          rStart: set<nat>, rFinal: set<nat>, a: nat, q: RsmState, b: nat)
    requires AllSquare(R, nR) && q in rS && rS[q] < nR
    ensures PromotableIn(G, nG, rS, R, nR, rStart, rFinal, a, q, b) <==>
      (&& a < nG && b < nG && rS[q] in rStart && rS[q] in rFinal
       && !(StateLabel(q) in G && (a, b) in G[StateLabel(q)])
       && exists w :: Walk(G, a, w, b) && Walk(R, rS[q], w, rS[q]))
  {
    var r := rS[q];
    var P := KronMap(G, R, nR);
    var i, j := PairIndex(a, r, nR), PairIndex(b, r, nR);
    ReachableIffWalk(P, i, j);
    if exists w :: Walk(P, i, w, j) {
      var w :| Walk(P, i, w, j);
      KronWalk(G, R, nR, a, r, w, b, r);
    }
    if exists w :: Walk(G, a, w, b) && Walk(R, r, w, r) {
      var w :| Walk(G, a, w, b) && Walk(R, r, w, r);
      KronWalk(G, R, nR, a, r, w, b, r);
    }
  }

  /**
   * When nothing is promotable, the graph's matrices are closed under common
   * words: every machine state q that is both a start and a final state has
   * an edge a -q-> b wherever the graph reads from a to b a word the machine
   * reads from q back to q.
   */
  lemma ClosedUnderCommonWords(G: map<Label, Matrix>, nG: nat, rS: map<RsmState, nat>, R: map<Label, Matrix>, nR: nat,
                               rStart: set<nat>, rFinal: set<nat>)
    requires AllSquare(R, nR) && rS.Values == Indices(nR)
    requires forall q, a: nat, b: nat :: !PromotableIn(G, nG, rS, R, nR, rStart, rFinal, a, q, b)
    ensures forall q, a: nat, b: nat, w ::
      a < nG && b < nG && q in rS && rS[q] in rStart && rS[q] in rFinal && Walk(G, a, w, b) && Walk(R, rS[q], w, rS[q])
      ==> StateLabel(q) in G && (a, b) in G[StateLabel(q)]
  {
    forall q, a: nat, b: nat, w |
      a < nG && b < nG && q in rS && rS[q] in rStart && rS[q] in rFinal && Walk(G, a, w, b) && Walk(R, rS[q], w, rS[q])
      ensures StateLabel(q) in G && (a, b) in G[StateLabel(q)]
    {
      assert rS[q] in rS.Values;
      assert !PromotableIn(G, nG, rS, R, nR, rStart, rFinal, a, q, b);
      PromotableMeaning(G, nG, rS, R, nR, rStart, rFinal, a, q, b);
      assert exists w' :: Walk(G, a, w', b) && Walk(R, rS[q], w', rS[q]);
    }
  }

  /** The pass recorded the edge a -q-> b. */
  predicate Recorded(newMatrix: map<Label, Matrix>, q: RsmState, a: nat, b: nat) {
    StateLabel(q) in newMatrix && (a, b) in newMatrix[StateLabel(q)]
  }

  /** Every recorded matrix is keyed by a machine state and has an entry. */
  ghost predicate StateLabelled(newMatrix: map<Label, Matrix>) {
    forall l :: l in newMatrix ==> l.StateLabel? && newMatrix[l] != {}
  }

  /** The product of the graph's and the machine's automata, and its reachability matrix. */
  ghost predicate ProductOf(graph: AdjacencyMatrixFA<nat>, rsm: AdjacencyMatrixFA<RsmState>,
                            inter: AdjacencyMatrixFA<(nat, RsmState)>, closure: array2<bool>)
    reads graph, rsm, inter, closure
  {
    && graph.Valid() && rsm.Valid() && OneToOne(graph.states) && OneToOne(rsm.states)
    && inter.states == PairStates(graph.states, rsm.states, rsm.statesCount)
    && closure.Length0 == Mul(graph.statesCount, rsm.statesCount) && closure.Length1 == closure.Length0
    && forall i, j :: 0 <= i < closure.Length0 && 0 <= j < closure.Length1 ==>
         (closure[i, j] <==> Reachable(UnionOf(KronMap(graph.matrices, rsm.matrices, rsm.statesCount)), i, j))
  }

  /** Index pair (i, j) comes before (x, y) in row-major order. */
  predicate Before(i: nat, j: nat, x: nat, y: nat) {
    i < x || (i == x && j < y)
  }

  /** The recorded edges are the promotable ones whose closure entries have been visited. */
  ghost predicate Tracked(graph: AdjacencyMatrixFA<nat>, rsm: AdjacencyMatrixFA<RsmState>,
                          newMatrix: map<Label, Matrix>, x: nat, y: nat)
    reads graph, rsm
  {
    forall q, a: nat, b: nat :: Recorded(newMatrix, q, a, b) <==>
      Promotable(graph, rsm, a, q, b) &&
      Before(PairIndex(a, rsm.states[q], rsm.statesCount), PairIndex(b, rsm.states[q], rsm.statesCount), x, y)
  }

  /**
   * The entry between the product states pFrom and pTo yields the edge
   * a -q-> b: both carry machine state q, which is a start and a final state,
   * a and b are the numbers of their graph nodes, and the graph lacks the edge.
   */
  ghost predicate Fires(G: map<Label, Matrix>, gS: map<nat, nat>, rS: map<RsmState, nat>, rStart: set<nat>, rFinal: set<nat>,
                        pFrom: (nat, RsmState), pTo: (nat, RsmState), q: RsmState, a: nat, b: nat) {
    && q == pFrom.1 && q == pTo.1
    && pFrom.0 in gS && pTo.0 in gS && a == gS[pFrom.0] && b == gS[pTo.0]
    && q in rS && rS[q] in rStart && rS[q] in rFinal
    && !(StateLabel(q) in G && (a, b) in G[StateLabel(q)])
  }

  /**
   * The body of the pass for one closure entry, from the product states it
   * joins: skip unless both carry the same machine state, start on one side
   * and final on the other; then record the edge under that state unless the
   * graph has it. A graph node without a number cannot occur and is skipped.
   */
  method ConsiderPair(newMatrix: map<Label, Matrix>, G: map<Label, Matrix>, gS: map<nat, nat>, rS: map<RsmState, nat>,
                      rStart: set<nat>, rFinal: set<nat>, pFrom: (nat, RsmState), pTo: (nat, RsmState))
    returns (r: map<Label, Matrix>)
    requires StateLabelled(newMatrix)
    ensures StateLabelled(r)
    ensures forall q, a: nat, b: nat :: Recorded(r, q, a, b) <==>
      Recorded(newMatrix, q, a, b) || Fires(G, gS, rS, rStart, rFinal, pFrom, pTo, q, a, b)
  {
    var gi := Lookup(gS, pFrom.0);
    var gj := Lookup(gS, pTo.0);
    var ri := Lookup(rS, pFrom.1);
    var rj := Lookup(rS, pTo.1);
    if pFrom.1 != pTo.1 || !(ri.Some? && ri.value in rStart) || !(rj.Some? && rj.value in rFinal) {
      return newMatrix;
    }
    var edgeLabel := StateLabel(pFrom.1);
    if gi.Some? && gj.Some? && (edgeLabel !in G || (gi.value, gj.value) !in G[edgeLabel]) {
      r := newMatrix[edgeLabel := Cell(newMatrix, edgeLabel) + {(gi.value, gj.value)}];
    } else {
      r := newMatrix;
    }
  }

  /**
   * One pass: every nonzero entry of the closure is decoded into its two
   * product states through the product's numbering, and considered. The
   * recorded edges are exactly the promotable ones.
   */
  method Promote(graph: AdjacencyMatrixFA<nat>, rsm: AdjacencyMatrixFA<RsmState>,
                 inter: AdjacencyMatrixFA<(nat, RsmState)>, closure: array2<bool>)
    returns (newMatrix: map<Label, Matrix>)
    requires ProductOf(graph, rsm, inter, closure)
    ensures StateLabelled(newMatrix)
    ensures forall q, a: nat, b: nat :: Recorded(newMatrix, q, a, b) <==> Promotable(graph, rsm, a, q, b)
  {
    var n := closure.Length0;
    PairStatesOneToOne(graph.states, rsm.states, rsm.statesCount);
    PairStatesValues(graph.states, graph.statesCount, rsm.states, rsm.statesCount);
    var inv := IndexToState(inter.states);
    newMatrix := map[];
    for x := 0 to n
      invariant StateLabelled(newMatrix) && Tracked(graph, rsm, newMatrix, x, 0)
    {
      for y := 0 to n
        invariant StateLabelled(newMatrix) && Tracked(graph, rsm, newMatrix, x, y)
      {
        ghost var before := newMatrix;
        if closure[x, y] {
          newMatrix := ConsiderPair(newMatrix, graph.matrices, graph.states, rsm.states, rsm.startStates, rsm.finalStates,
                                    inv[x], inv[y]);
          FiresAt(graph, rsm, inter, closure, inv, x, y);
        } else {
          NothingAt(graph, rsm, closure, x, y);
        }
        TrackedStep(graph, rsm, before, newMatrix, x, y);
      }
      RowDone(graph, rsm, newMatrix, x);
    }
    AllDone(graph, rsm, newMatrix);
  }

  /** The numbering of pairs is one-to-one when both numberings are. */
  lemma PairStatesOneToOne<S1, S2>(m1: map<S1, nat>, m2: map<S2, nat>, n2: nat)
    requires OneToOne(m1) && OneToOne(m2) && m2.Values == Indices(n2)
    ensures forall x, y :: (x in PairStates(m1, m2, n2) && y in PairStates(m1, m2, n2)
      && PairStates(m1, m2, n2)[x] == PairStates(m1, m2, n2)[y]) ==> x == y
  {
    var m := PairStates(m1, m2, n2);
    forall x, y | x in m && y in m && m[x] == m[y] ensures x == y {
      assert m2[x.1] in m2.Values && m2[y.1] in m2.Values;
      PairIndexInjective(m1[x.0], m2[x.1], m1[y.0], m2[y.1], n2);
    }
  }

  /** A visited nonzero entry yields exactly the promotable edges whose indices it is. */
  lemma FiresAt(graph: AdjacencyMatrixFA<nat>, rsm: AdjacencyMatrixFA<RsmState>,
                inter: AdjacencyMatrixFA<(nat, RsmState)>, closure: array2<bool>, inv: map<nat, (nat, RsmState)>, x: nat, y: nat)
    requires ProductOf(graph, rsm, inter, closure)
    requires x < closure.Length0 && y < closure.Length0 && closure[x, y]
    requires x in inv && y in inv && inv[x] in inter.states && inter.states[inv[x]] == x
    requires inv[y] in inter.states && inter.states[inv[y]] == y
    ensures forall q, a: nat, b: nat ::
      Fires(graph.matrices, graph.states, rsm.states, rsm.startStates, rsm.finalStates, inv[x], inv[y], q, a, b) <==>
      Promotable(graph, rsm, a, q, b) && PairIndex(a, rsm.states[q], rsm.statesCount) == x
        && PairIndex(b, rsm.states[q], rsm.statesCount) == y
  {
    var nR := rsm.statesCount;
    var pFrom, pTo := inv[x], inv[y];
    assert graph.states[pFrom.0] in graph.states.Values && graph.states[pTo.0] in graph.states.Values;
    assert rsm.states[pFrom.1] in rsm.states.Values && rsm.states[pTo.1] in rsm.states.Values;
    forall q, a: nat, b: nat
      ensures Fires(graph.matrices, graph.states, rsm.states, rsm.startStates, rsm.finalStates, pFrom, pTo, q, a, b) <==>
        Promotable(graph, rsm, a, q, b) && PairIndex(a, rsm.states[q], nR) == x && PairIndex(b, rsm.states[q], nR) == y
    {
      if Promotable(graph, rsm, a, q, b) && PairIndex(a, rsm.states[q], nR) == x && PairIndex(b, rsm.states[q], nR) == y {
        assert rsm.states[q] in rsm.states.Values;
        PairIndexInjective(a, rsm.states[q], graph.states[pFrom.0], rsm.states[pFrom.1], nR);
        PairIndexInjective(b, rsm.states[q], graph.states[pTo.0], rsm.states[pTo.1], nR);
      }
    }
  }

  /** A zero entry of the closure yields no promotable edge. */
  lemma NothingAt(graph: AdjacencyMatrixFA<nat>, rsm: AdjacencyMatrixFA<RsmState>, closure: array2<bool>, x: nat, y: nat)
    requires graph.Valid() && rsm.Valid()
    requires closure.Length0 == Mul(graph.statesCount, rsm.statesCount) && closure.Length1 == closure.Length0
    requires forall i, j :: 0 <= i < closure.Length0 && 0 <= j < closure.Length1 ==>
      (closure[i, j] <==> Reachable(UnionOf(KronMap(graph.matrices, rsm.matrices, rsm.statesCount)), i, j))
    requires x < closure.Length0 && y < closure.Length0 && !closure[x, y]
    ensures forall q, a: nat, b: nat :: Promotable(graph, rsm, a, q, b) ==>
      PairIndex(a, rsm.states[q], rsm.statesCount) != x || PairIndex(b, rsm.states[q], rsm.statesCount) != y
  {
  }

  lemma TrackedStep(graph: AdjacencyMatrixFA<nat>, rsm: AdjacencyMatrixFA<RsmState>,
                    before: map<Label, Matrix>, after: map<Label, Matrix>, x: nat, y: nat)
    requires Tracked(graph, rsm, before, x, y)
    requires forall q, a: nat, b: nat :: Recorded(after, q, a, b) <==> (Recorded(before, q, a, b) ||
      (Promotable(graph, rsm, a, q, b) && PairIndex(a, rsm.states[q], rsm.statesCount) == x &&
       PairIndex(b, rsm.states[q], rsm.statesCount) == y))
    ensures Tracked(graph, rsm, after, x, y + 1)
  {
  }

  lemma RowDone(graph: AdjacencyMatrixFA<nat>, rsm: AdjacencyMatrixFA<RsmState>, newMatrix: map<Label, Matrix>, x: nat)
    requires graph.Valid() && rsm.Valid()
    requires Tracked(graph, rsm, newMatrix, x, Mul(graph.statesCount, rsm.statesCount))
    ensures Tracked(graph, rsm, newMatrix, x + 1, 0)
  {
    forall q, a: nat, b: nat | Promotable(graph, rsm, a, q, b)
      ensures PairIndex(b, rsm.states[q], rsm.statesCount) < Mul(graph.statesCount, rsm.statesCount)
    {
      assert rsm.states[q] in rsm.states.Values;
      PairIndexBound(b, rsm.states[q], graph.statesCount, rsm.statesCount);
    }
  }

  lemma AllDone(graph: AdjacencyMatrixFA<nat>, rsm: AdjacencyMatrixFA<RsmState>, newMatrix: map<Label, Matrix>)
    requires graph.Valid() && rsm.Valid()
    requires Tracked(graph, rsm, newMatrix, Mul(graph.statesCount, rsm.statesCount), 0)
    ensures forall q, a: nat, b: nat :: Recorded(newMatrix, q, a, b) <==> Promotable(graph, rsm, a, q, b)
  {
    forall q, a: nat, b: nat | Promotable(graph, rsm, a, q, b)
      ensures PairIndex(a, rsm.states[q], rsm.statesCount) < Mul(graph.statesCount, rsm.statesCount)
    {
      assert rsm.states[q] in rsm.states.Values;
      PairIndexBound(a, rsm.states[q], graph.statesCount, rsm.statesCount);
    }
  }

  // ---------------------------------------------------------------------------
  // The loop: promote until a pass records nothing
  // ---------------------------------------------------------------------------

  /** Every entry of a family of matrices, with its symbol. */
  ghost function Entries(M: map<Label, Matrix>): set<(Label, nat, nat)> {
    set l, p | l in M && p in M[l] :: (l, p.0, p.1)
  }

  /** What the loop can ever reach: the initial entries and every edge between numbered nodes under a machine state. */
  ghost function Bound(M0: map<Label, Matrix>, rS: map<RsmState, nat>, n: nat): set<(Label, nat, nat)> {
    Entries(M0) + set q, a: nat, b: nat | q in rS && a < n && b < n :: (StateLabel(q), a, b)
  }

  /**
   * M grows M0: it keeps every entry, leaves the matrices of terminal
   * names as they were, and every new edge is under a machine state that
   * is a start and a final state.
   */
  ghost predicate Extends(M0: map<Label, Matrix>, M: map<Label, Matrix>, rS: map<RsmState, nat>, rStart: set<nat>, rFinal: set<nat>) {
    && (forall l :: l in M0 ==> l in M && M0[l] <= M[l])
    && (forall l: Label :: l.Term? ==> (l in M <==> l in M0) && (l in M0 ==> M[l] == M0[l]))
    && (forall q, a: nat, b: nat :: Recorded(M, q, a, b) && !Recorded(M0, q, a, b) ==>
          q in rS && rS[q] in rStart && rS[q] in rFinal)
  }

  /**
   * Repeats the pass over the product of the graph's current automaton and
   * the machine's, merging what it records into the graph's matrices, until
   * a pass records nothing. The result has the graph's states and numbering,
   * grows its matrices, and no promotable edge is left.
   */
  method Saturate(graph0: AdjacencyMatrixFA<nat>, rsm: AdjacencyMatrixFA<RsmState>) returns (graph: AdjacencyMatrixFA<nat>)
    requires graph0.Valid() && rsm.Valid() && OneToOne(graph0.states) && OneToOne(rsm.states)
    ensures graph.Valid()
    ensures graph.states == graph0.states && graph.statesCount == graph0.statesCount
    ensures graph.startStates == graph0.startStates && graph.finalStates == graph0.finalStates
    ensures Extends(graph0.matrices, graph.matrices, rsm.states, rsm.startStates, rsm.finalStates)
    ensures forall q, a: nat, b: nat :: !Promotable(graph, rsm, a, q, b)
  {
    ghost var bound := Bound(graph0.matrices, rsm.states, graph0.statesCount);
    graph := graph0;
    while true
      invariant graph.Valid()
      invariant graph.states == graph0.states && graph.statesCount == graph0.statesCount
      invariant graph.startStates == graph0.startStates && graph.finalStates == graph0.finalStates
      invariant Extends(graph0.matrices, graph.matrices, rsm.states, rsm.startStates, rsm.finalStates)
      invariant Entries(graph.matrices) <= bound
      decreases bound - Entries(graph.matrices)
    {
      var inter := IntersectAutomata(graph, rsm);
      var closure := inter.TransitiveClosure();
      var newMatrix := Promote(graph, rsm, inter, closure);
      if newMatrix == map[] {
        break;
      }
      GrowthStep(graph0.matrices, graph.matrices, newMatrix, rsm.states, rsm.startStates, rsm.finalStates,
                 graph.statesCount, rsm.matrices, rsm.statesCount);
      graph := UpdateMatrices(graph, newMatrix);
    }
  }

  /** Merging a non-empty pass into the matrices adds entries, stays within the bound and keeps Extends. */
  lemma GrowthStep(M0: map<Label, Matrix>, M: map<Label, Matrix>, newMatrix: map<Label, Matrix>,
                   rS: map<RsmState, nat>, rStart: set<nat>, rFinal: set<nat>, n: nat, R: map<Label, Matrix>, nR: nat)
    requires StateLabelled(newMatrix) && newMatrix != map[]
    requires forall q, a: nat, b: nat :: Recorded(newMatrix, q, a, b) ==> PromotableIn(M, n, rS, R, nR, rStart, rFinal, a, q, b)
    requires Extends(M0, M, rS, rStart, rFinal) && Entries(M) <= Bound(M0, rS, n)
    ensures AllSquare(newMatrix, n)
    ensures Extends(M0, Merge(M, newMatrix), rS, rStart, rFinal)
    ensures Entries(M) < Entries(Merge(M, newMatrix)) <= Bound(M0, rS, n)
  {
    GrowthSquare(M, newMatrix, rS, rStart, rFinal, n, R, nR);
    GrowthAdds(M, newMatrix, rS, rStart, rFinal, n, R, nR);
    GrowthBounded(M0, M, newMatrix, rS, rStart, rFinal, n, R, nR);
    GrowthExtends(M0, M, newMatrix, rS, rStart, rFinal, n, R, nR);
  }

  lemma GrowthSquare(M: map<Label, Matrix>, newMatrix: map<Label, Matrix>,
                     rS: map<RsmState, nat>, rStart: set<nat>, rFinal: set<nat>, n: nat, R: map<Label, Matrix>, nR: nat)
    requires StateLabelled(newMatrix)
    requires forall q, a: nat, b: nat :: Recorded(newMatrix, q, a, b) ==> PromotableIn(M, n, rS, R, nR, rStart, rFinal, a, q, b)
    ensures AllSquare(newMatrix, n)
  {
    forall l | l in newMatrix ensures Square(newMatrix[l], n) {
      forall p | p in newMatrix[l] ensures p.0 < n && p.1 < n {
        assert Recorded(newMatrix, l.state, p.0, p.1);
      }
    }
  }

  lemma GrowthAdds(M: map<Label, Matrix>, newMatrix: map<Label, Matrix>,
                   rS: map<RsmState, nat>, rStart: set<nat>, rFinal: set<nat>, n: nat, R: map<Label, Matrix>, nR: nat)
    requires StateLabelled(newMatrix) && newMatrix != map[]
    requires forall q, a: nat, b: nat :: Recorded(newMatrix, q, a, b) ==> PromotableIn(M, n, rS, R, nR, rStart, rFinal, a, q, b)
    ensures Entries(M) < Entries(Merge(M, newMatrix))
  {
    var merged := Merge(M, newMatrix);
    forall e | e in Entries(M) ensures e in Entries(merged) {
      var l: Label, p: (nat, nat) :| l in M && p in M[l] && e == (l, p.0, p.1);
      assert p in merged[l];
    }
    var l :| l in newMatrix;
    var p :| p in newMatrix[l];
    assert Recorded(newMatrix, l.state, p.0, p.1);
    assert p in merged[l];
    assert (l, p.0, p.1) in Entries(merged);
    assert (l, p.0, p.1) !in Entries(M);
  }

  lemma GrowthBounded(M0: map<Label, Matrix>, M: map<Label, Matrix>, newMatrix: map<Label, Matrix>,
                      rS: map<RsmState, nat>, rStart: set<nat>, rFinal: set<nat>, n: nat, R: map<Label, Matrix>, nR: nat)
    requires StateLabelled(newMatrix)
    requires forall q, a: nat, b: nat :: Recorded(newMatrix, q, a, b) ==> PromotableIn(M, n, rS, R, nR, rStart, rFinal, a, q, b)
    requires Entries(M) <= Bound(M0, rS, n)
    ensures Entries(Merge(M, newMatrix)) <= Bound(M0, rS, n)
  {
    var merged := Merge(M, newMatrix);
    forall e | e in Entries(merged) ensures e in Bound(M0, rS, n) {
      var l: Label, p: (nat, nat) :| l in merged && p in merged[l] && e == (l, p.0, p.1);
      if l in M && p in M[l] {
        assert e in Entries(M);
      } else {
        assert Recorded(newMatrix, l.state, p.0, p.1);
      }
    }
  }

  lemma GrowthExtends(M0: map<Label, Matrix>, M: map<Label, Matrix>, newMatrix: map<Label, Matrix>,
                      rS: map<RsmState, nat>, rStart: set<nat>, rFinal: set<nat>, n: nat, R: map<Label, Matrix>, nR: nat)
    requires StateLabelled(newMatrix)
    requires forall q, a: nat, b: nat :: Recorded(newMatrix, q, a, b) ==> PromotableIn(M, n, rS, R, nR, rStart, rFinal, a, q, b)
    requires Extends(M0, M, rS, rStart, rFinal)
    ensures Extends(M0, Merge(M, newMatrix), rS, rStart, rFinal)
  {
    var merged := Merge(M, newMatrix);
    forall l | l in M0 ensures l in merged && M0[l] <= merged[l] {
      assert M0[l] <= M[l];
    }
    forall q, a: nat, b: nat | Recorded(merged, q, a, b) && !Recorded(M0, q, a, b)
      ensures q in rS && rS[q] in rStart && rS[q] in rFinal
    {
      if !Recorded(M, q, a, b) {
        assert Recorded(newMatrix, q, a, b);
      }
    }
  }

  // ---------------------------------------------------------------------------
  // Reading the answer and the whole query
  // ---------------------------------------------------------------------------

  /** The matrix of symbol l links the numbers of s and f. */
  ghost predicate Connected(M: map<Label, Matrix>, states: map<nat, nat>, l: Label, s: nat, f: nat) {
    l in M && s in states && f in states && (states[s], states[f]) in M[l]
  }

  /**
   * The answer: no pairs when the matrices have no matrix of the start
   * nonterminal's name; otherwise every (start, final) pair whose numbers that
   * matrix links, skipping nodes without a number.
   */
  method ExtractPairs(matrices: map<Label, Matrix>, states: map<nat, nat>, initialLabel: string,
                      starts: set<nat>, finals: set<nat>) returns (pairs: set<(nat, nat)>)
    ensures forall s, f :: (s, f) in pairs <==>
      s in starts && f in finals && Connected(matrices, states, Term(initialLabel), s, f)
  {
    var sym := Term(initialLabel);
    if sym !in matrices {
      return {};
    }
    var res := matrices[sym];
    pairs := {};
    var pendingStarts := starts;
    while pendingStarts != {}
      invariant pendingStarts <= starts
      invariant forall s, f :: (s, f) in pairs <==>
        s in starts - pendingStarts && f in finals && Connected(matrices, states, sym, s, f)
      decreases pendingStarts
    {
      var s :| s in pendingStarts;
      var pendingFinals := finals;
      while pendingFinals != {}
        invariant pendingFinals <= finals
        invariant forall s', f :: (s', f) in pairs <==>
          ((s' in starts - pendingStarts && f in finals) || (s' == s && f in finals - pendingFinals))
          && Connected(matrices, states, sym, s', f)
        decreases pendingFinals
      {
        var f :| f in pendingFinals;
        var si := Lookup(states, s);
        var fi := Lookup(states, f);
        if si.Some? && fi.Some? && (si.value, fi.value) in res {
          pairs := pairs + {(s, f)};
        }
        pendingFinals := pendingFinals - {f};
      }
      pendingStarts := pendingStarts - {s};
    }
  }

  /** The graph has an edge from s to f whose label reads as the name l. */
  ghost predicate LabelledEdge(g: Graph, s: nat, l: string, f: nat) {
    exists e :: e in g.edges && e.src == s && e.dst == f && SymbolOf(e.symbol) == Term(l)
  }

  /**
   * The query: flatten the machine, build both automata, saturate the
   * graph's automaton against the machine's, and read the answer from the
   * matrix of the start nonterminal's name, over the given start and final
   * nodes (every node when a set is missing or empty). The saturation only
   * adds matrices keyed by machine states, so the answer is the pairs joined
   * by a graph edge labelled with the start nonterminal's name.
   */
  method TensorBasedCfpq(boxes: seq<Box>, initialLabel: string, g: Graph,
                         startNodes: Option<set<nat>>, finalNodes: Option<set<nat>>)
    returns (pairs: set<(nat, nat)>)
    ensures forall s, f :: (s, f) in pairs <==>
      s in OrDefault(startNodes, Elements(g.nodes)) && f in OrDefault(finalNodes, Elements(g.nodes))
      && LabelledEdge(g, s, initialLabel, f)
  {
    var rsmFa := RsmToNfa(boxes);
    var graphFa := GraphToNfa(g, startNodes, finalNodes);
    var rsmAdj := new AdjacencyMatrixFA(rsmFa);
    var graphAdj := new AdjacencyMatrixFA(graphFa);
    StateIndexOneToOne(rsmFa.states);
    StateIndexOneToOne(graphFa.states);
    ghost var initial := graphAdj.matrices;
    var saturated := Saturate(graphAdj, rsmAdj);
    pairs := ExtractPairs(saturated.matrices, saturated.states, initialLabel,
                          OrDefault(startNodes, graphFa.start), OrDefault(finalNodes, graphFa.final));
    forall s, f | s in graphFa.start && f in graphFa.final
      ensures Connected(saturated.matrices, saturated.states, Term(initialLabel), s, f) <==> LabelledEdge(g, s, initialLabel, f)
    {
      TermMatrixKept(initial, saturated.matrices, rsmAdj.states, rsmAdj.startStates, rsmAdj.finalStates,
                     saturated.states, initialLabel, s, f);
      DirectEntry(g, graphFa, initialLabel, s, f);
    }
  }

  /** Growing the matrices leaves the matrix of every terminal name as it was. */
  lemma TermMatrixKept(M0: map<Label, Matrix>, M: map<Label, Matrix>, rS: map<RsmState, nat>, rStart: set<nat>, rFinal: set<nat>,
                       states: map<nat, nat>, l: string, s: nat, f: nat)
    requires Extends(M0, M, rS, rStart, rFinal)
    ensures Connected(M, states, Term(l), s, f) <==> Connected(M0, states, Term(l), s, f)
  {
    assert Term(l) in M <==> Term(l) in M0;
  }

  /** The matrix of name l built from a graph's automaton links s and f exactly when an edge labelled l does. */
  lemma DirectEntry(g: Graph, a: Nfa<nat>, l: string, s: nat, f: nat)
    requires ValidNfa(a) && |a.transitions| == |g.edges|
    requires forall i :: 0 <= i < |g.edges| ==> a.transitions[i] == TransitionOf(g.edges[i])
    requires s in a.states && f in a.states
    ensures Connected(LabelMatrices(a), StateIndex(a.states), Term(l), s, f) <==> LabelledEdge(g, s, l, f)
  {
    if Connected(LabelMatrices(a), StateIndex(a.states), Term(l), s, f) {
      EntryHasEdge(g, a, l, s, f);
    }
    if LabelledEdge(g, s, l, f) {
      EdgeHasEntry(g, a, l, s, f);
    }
  }

  lemma EntryHasEdge(g: Graph, a: Nfa<nat>, l: string, s: nat, f: nat)
    requires ValidNfa(a) && |a.transitions| == |g.edges|
    requires forall i :: 0 <= i < |g.edges| ==> a.transitions[i] == TransitionOf(g.edges[i])
    requires s in a.states && f in a.states
    requires Connected(LabelMatrices(a), StateIndex(a.states), Term(l), s, f)
    ensures LabelledEdge(g, s, l, f)
  {
    var idx := StateIndex(a.states);
    StateIndexOneToOne(a.states);
    var t :| t in a.transitions && t.1 == Term(l) && (idx[t.0], idx[t.2]) == (idx[s], idx[f]);
    var i :| 0 <= i < |a.transitions| && a.transitions[i] == t;
    assert t.0 == s && t.2 == f;
    assert g.edges[i] in g.edges;
  }

  lemma EdgeHasEntry(g: Graph, a: Nfa<nat>, l: string, s: nat, f: nat)
    requires ValidNfa(a) && |a.transitions| == |g.edges|
    requires forall i :: 0 <= i < |g.edges| ==> a.transitions[i] == TransitionOf(g.edges[i])
    requires s in a.states && f in a.states
    requires LabelledEdge(g, s, l, f)
    ensures Connected(LabelMatrices(a), StateIndex(a.states), Term(l), s, f)
  {
    var idx := StateIndex(a.states);
    StateIndexKeys(a.states);
    var e :| e in g.edges && e.src == s && e.dst == f && SymbolOf(e.symbol) == Term(l);
    var i :| 0 <= i < |g.edges| && g.edges[i] == e;
    var t := a.transitions[i];
    assert t in a.transitions && t == (s, Term(l), f);
    assert Term(l) in Symbols(a);
    assert (idx[s], idx[f]) in TransitionEntries(a, Term(l));
  }

  // ---------------------------------------------------------------------------
  // The pass as written: its guard tests an index against state-pair keys
  // ---------------------------------------------------------------------------

  /** A Python dictionary key: an integer or a tuple of states. */
  datatype PyKey<K> = PyInt(i: int) | PyTuple(t: K)

  /** The keys of a dictionary keyed by tuples of states. */
  function DictKeys<K, V>(d: map<K, V>): set<PyKey<K>> {
    set k | k in d :: PyTuple(k)
  }

  /**
   * The pass as the code has it: before decoding a nonzero closure entry it
   * skips the entry unless both integer indices are keys of the product's
   * state numbering, whose keys are pairs of states. No index passes, so the
   * pass records nothing and the loop stops after its first pass.
   */
  method PromoteAsWritten(inter: AdjacencyMatrixFA<(nat, RsmState)>, closure: array2<bool>)
    returns (newMatrix: map<Label, Matrix>)
    ensures newMatrix == map[]
  {
    newMatrix := map[];
    var keys := DictKeys(inter.states);
    for x := 0 to closure.Length0
      invariant newMatrix == map[]
    {
      for y := 0 to closure.Length1
        invariant newMatrix == map[]
      {
        if closure[x, y] {
          if PyInt(x) !in keys || PyInt(y) !in keys {
            continue;
          }
          // The decoding and recording that follow the test are never reached.
          assert false;
        }
      }
    }
  }

  /** The example: the state 0 of box S, a one-node graph's numbering and the machine's numbering. */
  const ExampleState: RsmState := ("S", 0)
  const ExampleGraph: map<nat, nat> := map[0 := 0]
  const ExampleRsm: map<RsmState, nat> := map[ExampleState := 0]

  /**
   * A machine whose box S has a single state 0 that is both start and final
   * (S derives the empty word) over a one-node graph without edges: the
   * closure entry (0, 0) of the product is promotable into the edge 0 -(S, 0)-> 0,
   * while the guard as written skips that entry.
   */
  lemma GuardSkipsPromotable()
    ensures PromotableIn(map[], 1, ExampleRsm, map[], 1, {0}, {0}, 0, ExampleState, 0)
    ensures (0, ExampleState) in PairStates(ExampleGraph, ExampleRsm, 1)
    ensures PairStates(ExampleGraph, ExampleRsm, 1)[(0, ExampleState)] == 0
    ensures PyInt(0) !in DictKeys(PairStates(ExampleGraph, ExampleRsm, 1))
  {
    ExamplePromotable();
    ExampleNumbering();
  }

  lemma ExamplePromotable()
    ensures PromotableIn(map[], 1, ExampleRsm, map[], 1, {0}, {0}, 0, ExampleState, 0)
  {
    var none: map<Label, Matrix> := map[];
    ReachableRefl(UnionOf(KronMap(none, none, 1)), PairIndex(0, ExampleRsm[ExampleState], 1));
  }

  lemma ExampleNumbering()
    ensures (0, ExampleState) in PairStates(ExampleGraph, ExampleRsm, 1)
    ensures PairStates(ExampleGraph, ExampleRsm, 1)[(0, ExampleState)] == 0
  {
    var m := PairStates(ExampleGraph, ExampleRsm, 1);
    assert ExampleGraph[0] == 0 && ExampleRsm[ExampleState] == 0;
    assert m[(0, ExampleState)] == PairIndex(0, 0, 1);
  }
}
