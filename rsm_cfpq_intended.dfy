/**
 * The tensor-product query with its promotion step as the algorithm means
 * it: a closure entry that joins a start state of a box to a final state of
 * the same box adds a graph edge labelled with the box's nonterminal. The
 * answer read from the start nonterminal's matrix is then the set of node
 * pairs that the least extension of the graph closed under the boxes joins
 * by an edge with that name.
 */
module IntendedTensorCfpq {
  import opened Common
  import opened BoolMatrix
  import opened FiniteAutomata
  import opened AdjacencyFA
  import opened TensorCfpq

  // ---------------------------------------------------------------------------
  // The intended answer, over graph nodes
  // ---------------------------------------------------------------------------

  /** A labelled edge between two graph nodes. */
  type Triple = (nat, Label, nat)

  /** The flattened machine reads w from p to q. */
  ghost predicate MachineWalk(boxes: seq<Box>, p: RsmState, w: seq<Label>, q: RsmState)
    decreases |w|
  {
    if w == [] then p == q
    else exists t :: BoxTransition(boxes, t) && t.0 == p && t.1 == w[0] && MachineWalk(boxes, t.2, w[1..], q)
  }

  /** The edges E read w from u to v. */
  ghost predicate EdgeWalk(E: set<Triple>, u: nat, w: seq<Label>, v: nat)
    decreases |w|
  {
    if w == [] then u == v
    else exists m: nat :: (u, w[0], m) in E && EdgeWalk(E, m, w[1..], v)
  }

  /** The graph's edges, each with the name it reads as. */
  function GraphEdges(g: Graph): set<Triple> {
    set e | e in g.edges :: TransitionOf(e)
  }

  /** The nodes of the graph's automaton: every edge end, and every start and final node. */
  function Nodes(g: Graph, startNodes: Option<set<nat>>, finalNodes: Option<set<nat>>): set<nat> {
    Ends(g.edges) + OrDefault(startNodes, Elements(g.nodes)) + OrDefault(finalNodes, Elements(g.nodes))
  }

  /**
   * E is closed under the boxes: whenever a box reads, from one of its start
   * states to one of its final states, a word that E reads between the nodes
   * u and v of V, E has the edge u -S-> v for the box's nonterminal S.
   */
  ghost predicate ClosedUnder(boxes: seq<Box>, V: set<nat>, E: set<Triple>) {
    forall p, q, w, u, v ::
      p in BoxStarts(boxes) && q in BoxFinals(boxes) && p.0 == q.0 && u in V && v in V &&
      MachineWalk(boxes, p, w, q) && EdgeWalk(E, u, w, v)
      ==> (u, Term(p.0), v) in E
  }

  /** The edge u -l-> v is in every closed set of edges that contains E0, that is, in the least one. */
  ghost predicate Derived(boxes: seq<Box>, V: set<nat>, E0: set<Triple>, u: nat, l: Label, v: nat) {
    forall E :: E0 <= E && ClosedUnder(boxes, V, E) ==> (u, l, v) in E
  }

  // ---------------------------------------------------------------------------
  // The same notions over numbered states
  // ---------------------------------------------------------------------------

  /** Every entry of M is an entry of H. */
  ghost predicate Covers(H: map<Label, Matrix>, M: map<Label, Matrix>) {
    forall l, e :: l in M && e in M[l] ==> l in H && e in H[l]
  }

  /** A walk of M is a walk of every family that covers M. */
  lemma {:induction false} WalkCovered(H: map<Label, Matrix>, M: map<Label, Matrix>, i: nat, w: seq<Label>, j: nat)
    requires Covers(H, M) && Walk(M, i, w, j)
    ensures Walk(H, i, w, j)
    decreases |w|
  {
    if w != [] {
      var m: nat :| (i, m) in M[w[0]] && Walk(M, m, w[1..], j);
      WalkCovered(H, M, m, w[1..], j);
    }
  }

  /**
   * H is closed under the machine R: whenever R reads, from the start state
   * p to the final state q of the same box, a word that H reads from a to b,
   * the matrix of p's nonterminal links a to b.
   */
  ghost predicate ClosedIn(H: map<Label, Matrix>, nG: nat, rS: map<RsmState, nat>, R: map<Label, Matrix>, nR: nat,
                           rStart: set<nat>, rFinal: set<nat>) {
    forall p, q, a: nat, b: nat, w :: ClosedInCase(H, nG, rS, R, rStart, rFinal, p, q, a, b, w)
  }

  /** One instance of ClosedIn: box p..q reads w, and so do the matrices from a to b. */
  ghost predicate ClosedInCase(H: map<Label, Matrix>, nG: nat, rS: map<RsmState, nat>, R: map<Label, Matrix>,
                               rStart: set<nat>, rFinal: set<nat>, p: RsmState, q: RsmState, a: nat, b: nat, w: seq<Label>) {
    a < nG && b < nG && p in rS && q in rS && p.0 == q.0 && rS[p] in rStart && rS[q] in rFinal &&
    Walk(H, a, w, b) && Walk(R, rS[p], w, rS[q])
    ==> Term(p.0) in H && (a, b) in H[Term(p.0)]
  }

  /** M lies inside every closed family that covers M0. */
  ghost predicate LeastOver(M0: map<Label, Matrix>, M: map<Label, Matrix>, nG: nat, rS: map<RsmState, nat>,
                            R: map<Label, Matrix>, nR: nat, rStart: set<nat>, rFinal: set<nat>) {
    forall H :: Covers(H, M0) && ClosedIn(H, nG, rS, R, nR, rStart, rFinal) ==> Covers(H, M)
  }

  // ---------------------------------------------------------------------------
  // One pass
  // ---------------------------------------------------------------------------

  /**
   * The closure entry between (a, p) and (b, q) gives a new edge a -S-> b
   * for the nonterminal S of p's box: p is a start state and q a final state
   * of that box, the product's closure links the two, and the graph has no
   * such edge yet.
   */
  ghost predicate SpansIn(G: map<Label, Matrix>, nG: nat, rS: map<RsmState, nat>, R: map<Label, Matrix>, nR: nat,
                          rStart: set<nat>, rFinal: set<nat>, a: nat, p: RsmState, q: RsmState, b: nat) {
    && a < nG && b < nG && p in rS && q in rS && p.0 == q.0 && rS[p] in rStart && rS[q] in rFinal
    && Reachable(UnionOf(KronMap(G, R, nR)), PairIndex(a, rS[p], nR), PairIndex(b, rS[q], nR))
    && !(Term(p.0) in G && (a, b) in G[Term(p.0)])
  }

  /** SpansIn, for the graph's and the machine's automata. */
  ghost predicate Spans(graph: AdjacencyMatrixFA<nat>, rsm: AdjacencyMatrixFA<RsmState>, a: nat, p: RsmState, q: RsmState, b: nat)
    reads graph, rsm
  {
    SpansIn(graph.matrices, graph.statesCount, rsm.states, rsm.matrices, rsm.statesCount,
            rsm.startStates, rsm.finalStates, a, p, q, b)
  }

  /** A new edge a -S-> b is a common word: the graph reads it from a to b, the box from a start to a final state. */
  lemma SpansMeaning(G: map<Label, Matrix>, nG: nat, rS: map<RsmState, nat>, R: map<Label, Matrix>, nR: nat,
                     rStart: set<nat>, rFinal: set<nat>, a: nat, p: RsmState, q: RsmState, b: nat)
    requires AllSquare(R, nR) && p in rS && q in rS && rS[p] < nR && rS[q] < nR
    ensures SpansIn(G, nG, rS, R, nR, rStart, rFinal, a, p, q, b) <==>
      (&& a < nG && b < nG && p.0 == q.0 && rS[p] in rStart && rS[q] in rFinal
       && !(Term(p.0) in G && (a, b) in G[Term(p.0)])
       && exists w :: Walk(G, a, w, b) && Walk(R, rS[p], w, rS[q]))
  {
    var P := KronMap(G, R, nR);
    var i, j := PairIndex(a, rS[p], nR), PairIndex(b, rS[q], nR);
    ReachableIffWalk(P, i, j);
    if exists w :: Walk(P, i, w, j) {
      var w :| Walk(P, i, w, j);
      KronWalk(G, R, nR, a, rS[p], w, b, rS[q]);
    }
    if exists w :: Walk(G, a, w, b) && Walk(R, rS[p], w, rS[q]) {
      var w :| Walk(G, a, w, b) && Walk(R, rS[p], w, rS[q]);
      KronWalk(G, R, nR, a, rS[p], w, b, rS[q]);
    }
  }

  /** When no closure entry spans a box, the matrices are closed under the machine. */
  lemma ClosedWhenNoSpans(G: map<Label, Matrix>, nG: nat, rS: map<RsmState, nat>, R: map<Label, Matrix>, nR: nat,
                          rStart: set<nat>, rFinal: set<nat>)
    requires AllSquare(R, nR) && rS.Values == Indices(nR)
    requires forall p, q, a: nat, b: nat :: !SpansIn(G, nG, rS, R, nR, rStart, rFinal, a, p, q, b)
    ensures ClosedIn(G, nG, rS, R, nR, rStart, rFinal)
  {
    forall p, q, a: nat, b: nat, w ensures ClosedInCase(G, nG, rS, R, rStart, rFinal, p, q, a, b, w) {
      if a < nG && b < nG && p in rS && q in rS && p.0 == q.0 && rS[p] in rStart && rS[q] in rFinal &&
         Walk(G, a, w, b) && Walk(R, rS[p], w, rS[q]) {
        assert rS[p] in rS.Values && rS[q] in rS.Values;
        assert !SpansIn(G, nG, rS, R, nR, rStart, rFinal, a, p, q, b);
        SpansMeaning(G, nG, rS, R, nR, rStart, rFinal, a, p, q, b);
        assert exists w' :: Walk(G, a, w', b) && Walk(R, rS[p], w', rS[q]);
      }
    }
  }

  /** The pass recorded the edge a -S-> b. */
  predicate Added(newMatrix: map<Label, Matrix>, S: string, a: nat, b: nat) {
    Term(S) in newMatrix && (a, b) in newMatrix[Term(S)]
  }

  /** Every recorded matrix is keyed by a name and has an entry. */
  ghost predicate TermLabelled(newMatrix: map<Label, Matrix>) {
    forall l :: l in newMatrix ==> l.Term? && newMatrix[l] != {}
  }

  /** Every recorded edge comes from a closure entry that spans a box of its nonterminal. */
  ghost predicate SoundPass(newMatrix: map<Label, Matrix>, G: map<Label, Matrix>, nG: nat, rS: map<RsmState, nat>,
                            R: map<Label, Matrix>, nR: nat, rStart: set<nat>, rFinal: set<nat>) {
    forall S, a: nat, b: nat :: Added(newMatrix, S, a, b) ==>
      exists p: RsmState, q: RsmState :: p.0 == S && SpansIn(G, nG, rS, R, nR, rStart, rFinal, a, p, q, b)
  }

  /** SoundPass, for the graph's and the machine's automata. */
  ghost predicate AddedSound(graph: AdjacencyMatrixFA<nat>, rsm: AdjacencyMatrixFA<RsmState>, newMatrix: map<Label, Matrix>)
    reads graph, rsm
  {
    SoundPass(newMatrix, graph.matrices, graph.statesCount, rsm.states, rsm.matrices, rsm.statesCount,
              rsm.startStates, rsm.finalStates)
  }

  /** Every spanning closure entry visited so far has been recorded. */
  ghost predicate Covered(graph: AdjacencyMatrixFA<nat>, rsm: AdjacencyMatrixFA<RsmState>,
                          newMatrix: map<Label, Matrix>, x: nat, y: nat)
    reads graph, rsm
  {
    forall p, q, a: nat, b: nat :: Spans(graph, rsm, a, p, q, b) &&
      Before(PairIndex(a, rsm.states[p], rsm.statesCount), PairIndex(b, rsm.states[q], rsm.statesCount), x, y)
      ==> Added(newMatrix, p.0, a, b)
  }

  /**
   * The entry between the product states pFrom and pTo yields the edge
   * a -S-> b: both machine states belong to the box of S, the first is a
   * start and the second a final state, a and b are the numbers of their
   * graph nodes, and the graph lacks the edge.
   */
  ghost predicate SpanFires(G: map<Label, Matrix>, gS: map<nat, nat>, rS: map<RsmState, nat>, rStart: set<nat>, rFinal: set<nat>,
                            pFrom: (nat, RsmState), pTo: (nat, RsmState), S: string, a: nat, b: nat) {
    && S == pFrom.1.0 && S == pTo.1.0
    && pFrom.0 in gS && pTo.0 in gS && a == gS[pFrom.0] && b == gS[pTo.0]
    && pFrom.1 in rS && rS[pFrom.1] in rStart && pTo.1 in rS && rS[pTo.1] in rFinal
    && !(Term(S) in G && (a, b) in G[Term(S)])
  }

  /**
   * The body of the pass for one closure entry: skip unless the two machine
   * states belong to the same box, start on one side and final on the other;
   * then record the edge under the box's nonterminal unless the graph has it.
   */
  method ConsiderSpan(newMatrix: map<Label, Matrix>, G: map<Label, Matrix>, gS: map<nat, nat>, rS: map<RsmState, nat>,
                      rStart: set<nat>, rFinal: set<nat>, pFrom: (nat, RsmState), pTo: (nat, RsmState))
    returns (r: map<Label, Matrix>)
    requires TermLabelled(newMatrix)
    ensures TermLabelled(r)
    ensures forall S, a: nat, b: nat :: Added(r, S, a, b) <==>
      Added(newMatrix, S, a, b) || SpanFires(G, gS, rS, rStart, rFinal, pFrom, pTo, S, a, b)
  {
    var gi := Lookup(gS, pFrom.0);
    var gj := Lookup(gS, pTo.0);
    var ri := Lookup(rS, pFrom.1);
    var rj := Lookup(rS, pTo.1);
    if pFrom.1.0 != pTo.1.0 || !(ri.Some? && ri.value in rStart) || !(rj.Some? && rj.value in rFinal) {
      return newMatrix;
    }
    var edgeLabel := Term(pFrom.1.0);
    if gi.Some? && gj.Some? && (edgeLabel !in G || (gi.value, gj.value) !in G[edgeLabel]) {
      r := newMatrix[edgeLabel := Cell(newMatrix, edgeLabel) + {(gi.value, gj.value)}];
    } else {
      r := newMatrix;
    }
  }

  /**
   * One pass: every nonzero entry of the closure is decoded into its two
   * product states and considered. The recorded edges are exactly those of
   * the spanning entries.
   */
  method PromoteSpans(graph: AdjacencyMatrixFA<nat>, rsm: AdjacencyMatrixFA<RsmState>,
                      inter: AdjacencyMatrixFA<(nat, RsmState)>, closure: array2<bool>)
    returns (newMatrix: map<Label, Matrix>)
    requires ProductOf(graph, rsm, inter, closure)
    ensures TermLabelled(newMatrix)
    ensures AddedSound(graph, rsm, newMatrix)
    ensures forall p, q, a: nat, b: nat :: Spans(graph, rsm, a, p, q, b) ==> Added(newMatrix, p.0, a, b)
  {
    var n := closure.Length0;
    PairStatesOneToOne(graph.states, rsm.states, rsm.statesCount);
    PairStatesValues(graph.states, graph.statesCount, rsm.states, rsm.statesCount);
    var inv := IndexToState(inter.states);
    newMatrix := map[];
    for x := 0 to n
      invariant TermLabelled(newMatrix) && AddedSound(graph, rsm, newMatrix) && Covered(graph, rsm, newMatrix, x, 0)
    {
      newMatrix := ScanRow(graph, rsm, inter, closure, inv, x, newMatrix);
    }
    CoveredAll(graph, rsm, newMatrix);
  }

  /** The pass over row x of the closure. */
  method ScanRow(graph: AdjacencyMatrixFA<nat>, rsm: AdjacencyMatrixFA<RsmState>,
                 inter: AdjacencyMatrixFA<(nat, RsmState)>, closure: array2<bool>, inv: map<nat, (nat, RsmState)>,
                 x: nat, prev: map<Label, Matrix>)
    returns (newMatrix: map<Label, Matrix>)
    requires ProductOf(graph, rsm, inter, closure) && x < closure.Length0
    requires inv.Keys == inter.states.Values == Indices(closure.Length0)
    requires forall i :: i in inv ==> inv[i] in inter.states && inter.states[inv[i]] == i
    requires TermLabelled(prev) && AddedSound(graph, rsm, prev) && Covered(graph, rsm, prev, x, 0)
    ensures TermLabelled(newMatrix) && AddedSound(graph, rsm, newMatrix) && Covered(graph, rsm, newMatrix, x + 1, 0)
  {
    var n := closure.Length0;
    newMatrix := prev;
    for y := 0 to n
      invariant TermLabelled(newMatrix) && AddedSound(graph, rsm, newMatrix) && Covered(graph, rsm, newMatrix, x, y)
    {
      ghost var before := newMatrix;
      if closure[x, y] {
        newMatrix := ConsiderSpan(newMatrix, graph.matrices, graph.states, rsm.states, rsm.startStates, rsm.finalStates,
                                  inv[x], inv[y]);
        FireStep(graph, rsm, inter, closure, inv, x, y, before, newMatrix);
      } else {
        NoSpanAt(graph, rsm, closure, x, y);
        CoveredStep(graph, rsm, before, newMatrix, x, y);
      }
    }
    CoveredRow(graph, rsm, newMatrix, x);
  }

  /** A visited nonzero entry fires exactly for the spanning edges whose indices it is. */
  lemma SpanFiresAt(graph: AdjacencyMatrixFA<nat>, rsm: AdjacencyMatrixFA<RsmState>,
                    inter: AdjacencyMatrixFA<(nat, RsmState)>, closure: array2<bool>, inv: map<nat, (nat, RsmState)>, x: nat, y: nat)
    requires ProductOf(graph, rsm, inter, closure)
    requires x < closure.Length0 && y < closure.Length0 && closure[x, y]
    requires x in inv && y in inv && inv[x] in inter.states && inter.states[inv[x]] == x
    requires inv[y] in inter.states && inter.states[inv[y]] == y
    ensures forall S, a: nat, b: nat ::
      SpanFires(graph.matrices, graph.states, rsm.states, rsm.startStates, rsm.finalStates, inv[x], inv[y], S, a, b) ==>
      inv[x].1.0 == S && Spans(graph, rsm, a, inv[x].1, inv[y].1, b)
    ensures forall p, q, a: nat, b: nat ::
      Spans(graph, rsm, a, p, q, b) && PairIndex(a, rsm.states[p], rsm.statesCount) == x
        && PairIndex(b, rsm.states[q], rsm.statesCount) == y ==>
      SpanFires(graph.matrices, graph.states, rsm.states, rsm.startStates, rsm.finalStates, inv[x], inv[y], p.0, a, b)
  {
    var nR := rsm.statesCount;
    var pFrom, pTo := inv[x], inv[y];
    assert graph.states[pFrom.0] in graph.states.Values && graph.states[pTo.0] in graph.states.Values;
    assert rsm.states[pFrom.1] in rsm.states.Values && rsm.states[pTo.1] in rsm.states.Values;
    forall p, q, a: nat, b: nat |
      Spans(graph, rsm, a, p, q, b) && PairIndex(a, rsm.states[p], nR) == x && PairIndex(b, rsm.states[q], nR) == y
      ensures SpanFires(graph.matrices, graph.states, rsm.states, rsm.startStates, rsm.finalStates, pFrom, pTo, p.0, a, b)
    {
      assert rsm.states[p] in rsm.states.Values && rsm.states[q] in rsm.states.Values;
      PairIndexInjective(a, rsm.states[p], graph.states[pFrom.0], rsm.states[pFrom.1], nR);
      PairIndexInjective(b, rsm.states[q], graph.states[pTo.0], rsm.states[pTo.1], nR);
    }
  }

  /** Considering a nonzero entry keeps the recorded edges sound and covers the entry. */
  lemma FireStep(graph: AdjacencyMatrixFA<nat>, rsm: AdjacencyMatrixFA<RsmState>,
                 inter: AdjacencyMatrixFA<(nat, RsmState)>, closure: array2<bool>, inv: map<nat, (nat, RsmState)>, x: nat, y: nat,
                 before: map<Label, Matrix>, after: map<Label, Matrix>)
    requires ProductOf(graph, rsm, inter, closure)
    requires x < closure.Length0 && y < closure.Length0 && closure[x, y]
    requires x in inv && y in inv && inv[x] in inter.states && inter.states[inv[x]] == x
    requires inv[y] in inter.states && inter.states[inv[y]] == y
    requires AddedSound(graph, rsm, before) && Covered(graph, rsm, before, x, y)
    requires forall S, a: nat, b: nat :: Added(after, S, a, b) <==> (Added(before, S, a, b) ||
      SpanFires(graph.matrices, graph.states, rsm.states, rsm.startStates, rsm.finalStates, inv[x], inv[y], S, a, b))
    ensures AddedSound(graph, rsm, after) && Covered(graph, rsm, after, x, y + 1)
  {
    SpanFiresAt(graph, rsm, inter, closure, inv, x, y);
    CoveredStep(graph, rsm, before, after, x, y);
  }

  /** A zero entry of the closure spans no box. */
  lemma NoSpanAt(graph: AdjacencyMatrixFA<nat>, rsm: AdjacencyMatrixFA<RsmState>, closure: array2<bool>, x: nat, y: nat)
    requires graph.Valid() && rsm.Valid()
    requires closure.Length0 == Mul(graph.statesCount, rsm.statesCount) && closure.Length1 == closure.Length0
    requires forall i, j :: 0 <= i < closure.Length0 && 0 <= j < closure.Length1 ==>
      (closure[i, j] <==> Reachable(UnionOf(KronMap(graph.matrices, rsm.matrices, rsm.statesCount)), i, j))
    requires x < closure.Length0 && y < closure.Length0 && !closure[x, y]
    ensures forall p, q, a: nat, b: nat :: Spans(graph, rsm, a, p, q, b) ==>
      PairIndex(a, rsm.states[p], rsm.statesCount) != x || PairIndex(b, rsm.states[q], rsm.statesCount) != y
  {
  }

  lemma CoveredStep(graph: AdjacencyMatrixFA<nat>, rsm: AdjacencyMatrixFA<RsmState>,
                    before: map<Label, Matrix>, after: map<Label, Matrix>, x: nat, y: nat)
    requires AddedSound(graph, rsm, before) && Covered(graph, rsm, before, x, y)
    requires forall S, a: nat, b: nat :: Added(before, S, a, b) ==> Added(after, S, a, b)
    requires forall S, a: nat, b: nat :: Added(after, S, a, b) ==>
      Added(before, S, a, b) || exists p: RsmState, q: RsmState :: p.0 == S && Spans(graph, rsm, a, p, q, b)
    requires forall p, q, a: nat, b: nat ::
      (Spans(graph, rsm, a, p, q, b) &&
       PairIndex(a, rsm.states[p], rsm.statesCount) == x && PairIndex(b, rsm.states[q], rsm.statesCount) == y)
      ==> Added(after, p.0, a, b)
    ensures AddedSound(graph, rsm, after) && Covered(graph, rsm, after, x, y + 1)
  {
  }

  lemma CoveredRow(graph: AdjacencyMatrixFA<nat>, rsm: AdjacencyMatrixFA<RsmState>, newMatrix: map<Label, Matrix>, x: nat)
    requires graph.Valid() && rsm.Valid()
    requires Covered(graph, rsm, newMatrix, x, Mul(graph.statesCount, rsm.statesCount))
    ensures Covered(graph, rsm, newMatrix, x + 1, 0)
  {
    forall p, q, a: nat, b: nat | Spans(graph, rsm, a, p, q, b)
      ensures PairIndex(b, rsm.states[q], rsm.statesCount) < Mul(graph.statesCount, rsm.statesCount)
    {
      assert rsm.states[q] in rsm.states.Values;
      PairIndexBound(b, rsm.states[q], graph.statesCount, rsm.statesCount);
    }
  }

  lemma CoveredAll(graph: AdjacencyMatrixFA<nat>, rsm: AdjacencyMatrixFA<RsmState>, newMatrix: map<Label, Matrix>)
    requires graph.Valid() && rsm.Valid()
    requires Covered(graph, rsm, newMatrix, Mul(graph.statesCount, rsm.statesCount), 0)
    ensures forall p, q, a: nat, b: nat :: Spans(graph, rsm, a, p, q, b) ==> Added(newMatrix, p.0, a, b)
  {
    forall p, q, a: nat, b: nat | Spans(graph, rsm, a, p, q, b)
      ensures PairIndex(a, rsm.states[p], rsm.statesCount) < Mul(graph.statesCount, rsm.statesCount)
    {
      assert rsm.states[p] in rsm.states.Values;
      PairIndexBound(a, rsm.states[p], graph.statesCount, rsm.statesCount);
    }
  }

  // ---------------------------------------------------------------------------
  // The loop: promote until a pass records nothing
  // ---------------------------------------------------------------------------

  /** What the loop can ever reach: the initial entries and every edge between numbered nodes under a box's nonterminal. */
  ghost function SpanBound(M0: map<Label, Matrix>, rS: map<RsmState, nat>, n: nat): set<(Label, nat, nat)> {
    Entries(M0) + set p, a: nat, b: nat | p in rS && a < n && b < n :: (Term(p.0), a, b)
  }

  /**
   * Repeats the pass over the product of the graph's current automaton and
   * the machine's, merging what it records into the graph's matrices, until
   * a pass records nothing. The result keeps the graph's states, covers its
   * matrices, is closed under the machine, and lies inside every closed
   * family that covers the graph's matrices: it is the least such family.
   */
  method SaturateSpans(graph0: AdjacencyMatrixFA<nat>, rsm: AdjacencyMatrixFA<RsmState>) returns (graph: AdjacencyMatrixFA<nat>)
    requires graph0.Valid() && rsm.Valid() && OneToOne(graph0.states) && OneToOne(rsm.states)
    ensures graph.Valid()
    ensures graph.states == graph0.states && graph.statesCount == graph0.statesCount
    ensures graph.startStates == graph0.startStates && graph.finalStates == graph0.finalStates
    ensures Covers(graph.matrices, graph0.matrices)
    ensures ClosedIn(graph.matrices, graph.statesCount, rsm.states, rsm.matrices, rsm.statesCount, rsm.startStates, rsm.finalStates)
    ensures LeastOver(graph0.matrices, graph.matrices, graph.statesCount, rsm.states, rsm.matrices, rsm.statesCount,
                      rsm.startStates, rsm.finalStates)
  {
    ghost var nG := graph0.statesCount;
    ghost var bound := SpanBound(graph0.matrices, rsm.states, nG);
    graph := graph0;
    LeastAtStart(graph0.matrices, nG, rsm.states, rsm.matrices, rsm.statesCount, rsm.startStates, rsm.finalStates);
    while true
      invariant graph.Valid()
      invariant graph.states == graph0.states && graph.statesCount == nG
      invariant graph.startStates == graph0.startStates && graph.finalStates == graph0.finalStates
      invariant Covers(graph.matrices, graph0.matrices)
      invariant Entries(graph.matrices) <= bound
      invariant LeastOver(graph0.matrices, graph.matrices, nG, rsm.states, rsm.matrices, rsm.statesCount,
                          rsm.startStates, rsm.finalStates)
      decreases bound - Entries(graph.matrices)
    {
      var inter := IntersectAutomata(graph, rsm);
      var closure := inter.TransitiveClosure();
      var newMatrix := PromoteSpans(graph, rsm, inter, closure);
      if newMatrix == map[] {
        EmptyPassClosed(graph, rsm, newMatrix);
        break;
      }
      SpanGrowth(graph0.matrices, graph.matrices, newMatrix, nG, rsm.states, rsm.matrices, rsm.statesCount,
                 rsm.startStates, rsm.finalStates);
      graph := UpdateMatrices(graph, newMatrix);
    }
  }

  /** A complete pass that records nothing leaves the matrices closed. */
  lemma EmptyPassClosed(graph: AdjacencyMatrixFA<nat>, rsm: AdjacencyMatrixFA<RsmState>, newMatrix: map<Label, Matrix>)
    requires graph.Valid() && rsm.Valid() && newMatrix == map[]
    requires forall p, q, a: nat, b: nat :: Spans(graph, rsm, a, p, q, b) ==> Added(newMatrix, p.0, a, b)
    ensures ClosedIn(graph.matrices, graph.statesCount, rsm.states, rsm.matrices, rsm.statesCount, rsm.startStates, rsm.finalStates)
  {
    forall p, q, a: nat, b: nat
      ensures !SpansIn(graph.matrices, graph.statesCount, rsm.states, rsm.matrices, rsm.statesCount,
                       rsm.startStates, rsm.finalStates, a, p, q, b)
    {
      assert !Added(newMatrix, p.0, a, b);
      assert !Spans(graph, rsm, a, p, q, b);
    }
    ClosedWhenNoSpans(graph.matrices, graph.statesCount, rsm.states, rsm.matrices, rsm.statesCount,
                      rsm.startStates, rsm.finalStates);
  }

  lemma LeastAtStart(M0: map<Label, Matrix>, nG: nat, rS: map<RsmState, nat>, R: map<Label, Matrix>, nR: nat,
                     rStart: set<nat>, rFinal: set<nat>)
    ensures Covers(M0, M0) && LeastOver(M0, M0, nG, rS, R, nR, rStart, rFinal)
  {
  }

  /** Merging a non-empty pass into the matrices adds entries, stays within the bound and inside every closed cover. */
  lemma SpanGrowth(M0: map<Label, Matrix>, M: map<Label, Matrix>, newMatrix: map<Label, Matrix>, n: nat,
                   rS: map<RsmState, nat>, R: map<Label, Matrix>, nR: nat, rStart: set<nat>, rFinal: set<nat>)
    requires TermLabelled(newMatrix) && newMatrix != map[]
    requires SoundPass(newMatrix, M, n, rS, R, nR, rStart, rFinal)
    requires AllSquare(R, nR) && rS.Values == Indices(nR)
    requires Covers(M, M0) && Entries(M) <= SpanBound(M0, rS, n)
    requires LeastOver(M0, M, n, rS, R, nR, rStart, rFinal)
    ensures AllSquare(newMatrix, n)
    ensures Covers(Merge(M, newMatrix), M0)
    ensures Entries(M) < Entries(Merge(M, newMatrix)) <= SpanBound(M0, rS, n)
    ensures LeastOver(M0, Merge(M, newMatrix), n, rS, R, nR, rStart, rFinal)
  {
    SpanSquare(M, newMatrix, n, rS, R, nR, rStart, rFinal);
    SpanAdds(M, newMatrix, n, rS, R, nR, rStart, rFinal);
    SpanBounded(M0, M, newMatrix, n, rS, R, nR, rStart, rFinal);
    SpanLeast(M0, M, newMatrix, n, rS, R, nR, rStart, rFinal);
  }

  lemma SpanSquare(M: map<Label, Matrix>, newMatrix: map<Label, Matrix>, n: nat,
                   rS: map<RsmState, nat>, R: map<Label, Matrix>, nR: nat, rStart: set<nat>, rFinal: set<nat>)
    requires TermLabelled(newMatrix)
    requires SoundPass(newMatrix, M, n, rS, R, nR, rStart, rFinal)
    ensures AllSquare(newMatrix, n)
  {
    forall l | l in newMatrix ensures Square(newMatrix[l], n) {
      forall e | e in newMatrix[l] ensures e.0 < n && e.1 < n {
        assert Added(newMatrix, l.text, e.0, e.1);
      }
    }
  }

  lemma SpanAdds(M: map<Label, Matrix>, newMatrix: map<Label, Matrix>, n: nat,
                 rS: map<RsmState, nat>, R: map<Label, Matrix>, nR: nat, rStart: set<nat>, rFinal: set<nat>)
    requires TermLabelled(newMatrix) && newMatrix != map[]
    requires SoundPass(newMatrix, M, n, rS, R, nR, rStart, rFinal)
    ensures Entries(M) < Entries(Merge(M, newMatrix))
  {
    var merged := Merge(M, newMatrix);
    forall e | e in Entries(M) ensures e in Entries(merged) {
      var l: Label, c: (nat, nat) :| l in M && c in M[l] && e == (l, c.0, c.1);
      assert c in merged[l];
    }
    var l :| l in newMatrix;
    var c :| c in newMatrix[l];
    assert Added(newMatrix, l.text, c.0, c.1);
    assert c in merged[l];
    assert (l, c.0, c.1) in Entries(merged);
    assert (l, c.0, c.1) !in Entries(M);
  }

  lemma SpanBounded(M0: map<Label, Matrix>, M: map<Label, Matrix>, newMatrix: map<Label, Matrix>, n: nat,
                    rS: map<RsmState, nat>, R: map<Label, Matrix>, nR: nat, rStart: set<nat>, rFinal: set<nat>)
    requires TermLabelled(newMatrix)
    requires SoundPass(newMatrix, M, n, rS, R, nR, rStart, rFinal)
    requires Covers(M, M0) && Entries(M) <= SpanBound(M0, rS, n)
    ensures Covers(Merge(M, newMatrix), M0)
    ensures Entries(Merge(M, newMatrix)) <= SpanBound(M0, rS, n)
  {
    var merged := Merge(M, newMatrix);
    forall e | e in Entries(merged) ensures e in SpanBound(M0, rS, n) {
      var l: Label, c: (nat, nat) :| l in merged && c in merged[l] && e == (l, c.0, c.1);
      if l in M && c in M[l] {
        assert e in Entries(M);
      } else {
        assert Added(newMatrix, l.text, c.0, c.1);
        var p: RsmState, q: RsmState :| p.0 == l.text && SpansIn(M, n, rS, R, nR, rStart, rFinal, c.0, p, q, c.1);
        assert e == (Term(p.0), c.0, c.1);
      }
    }
  }

  lemma SpanLeast(M0: map<Label, Matrix>, M: map<Label, Matrix>, newMatrix: map<Label, Matrix>, n: nat,
                  rS: map<RsmState, nat>, R: map<Label, Matrix>, nR: nat, rStart: set<nat>, rFinal: set<nat>)
    requires TermLabelled(newMatrix)
    requires SoundPass(newMatrix, M, n, rS, R, nR, rStart, rFinal)
    requires AllSquare(R, nR) && rS.Values == Indices(nR)
    requires LeastOver(M0, M, n, rS, R, nR, rStart, rFinal)
    ensures LeastOver(M0, Merge(M, newMatrix), n, rS, R, nR, rStart, rFinal)
  {
    var merged := Merge(M, newMatrix);
    forall H | Covers(H, M0) && ClosedIn(H, n, rS, R, nR, rStart, rFinal) ensures Covers(H, merged) {
      assert Covers(H, M);
      forall l, c | l in merged && c in merged[l] ensures l in H && c in H[l] {
        if !(l in M && c in M[l]) {
          assert Added(newMatrix, l.text, c.0, c.1);
          var p: RsmState, q: RsmState :| p.0 == l.text && SpansIn(M, n, rS, R, nR, rStart, rFinal, c.0, p, q, c.1);
          assert rS[p] in rS.Values && rS[q] in rS.Values;
          SpansMeaning(M, n, rS, R, nR, rStart, rFinal, c.0, p, q, c.1);
          var w :| Walk(M, c.0, w, c.1) && Walk(R, rS[p], w, rS[q]);
          WalkCovered(H, M, c.0, w, c.1);
          ClosedInApply(H, n, rS, R, nR, rStart, rFinal, p, q, c.0, c.1, w);
        }
      }
    }
  }

  // ---------------------------------------------------------------------------
  // From numbered states back to graph nodes
  // ---------------------------------------------------------------------------

  /** The edges a family of matrices holds, read back through the numbering of the graph's nodes. */
  ghost function Decode(M: map<Label, Matrix>, idx: map<nat, nat>): set<Triple> {
    set u, l, v | u in idx && v in idx && l in M && (idx[u], idx[v]) in M[l] :: (u, l, v)
  }

  /** The labels that occur in a set of edges. */
  ghost function LabelsOf(E: set<Triple>): set<Label> {
    set t | t in E :: t.1
  }

  /** The matrix of label l for a set of edges under the numbering; edges with an unnumbered end are dropped. */
  ghost function EncodedMatrix(E: set<Triple>, idx: map<nat, nat>, l: Label): Matrix {
    set t | t in E && t.1 == l && t.0 in idx && t.2 in idx :: (idx[t.0], idx[t.2])
  }

  /** The matrices of a set of edges under the numbering. */
  ghost function Encode(E: set<Triple>, idx: map<nat, nat>): map<Label, Matrix> {
    map l | l in LabelsOf(E) :: EncodedMatrix(E, idx, l)
  }

  /** An entry between the numbers of two nodes decodes into the edge between them. */
  lemma DecodeHas(M: map<Label, Matrix>, idx: map<nat, nat>, u: nat, l: Label, v: nat)
    requires u in idx && v in idx && l in M && (idx[u], idx[v]) in M[l]
    ensures (u, l, v) in Decode(M, idx)
  {
  }

  /** An edge between numbered nodes is an entry of its label's encoded matrix. */
  lemma EncodeHas(E: set<Triple>, idx: map<nat, nat>, t: Triple)
    requires t in E && t.0 in idx && t.2 in idx
    ensures t.1 in Encode(E, idx) && (idx[t.0], idx[t.2]) in Encode(E, idx)[t.1]
  {
    assert t.1 in LabelsOf(E);
  }

  /** A closed set of edges has the edge of a box whose word it reads between two nodes of V. */
  lemma ClosedUnderApply(boxes: seq<Box>, V: set<nat>, E: set<Triple>, p: RsmState, q: RsmState, w: seq<Label>, u: nat, v: nat)
    requires ClosedUnder(boxes, V, E)
    requires p in BoxStarts(boxes) && q in BoxFinals(boxes) && p.0 == q.0 && u in V && v in V
    requires MachineWalk(boxes, p, w, q) && EdgeWalk(E, u, w, v)
    ensures (u, Term(p.0), v) in E
  {
  }

  /** Closed matrices have the entry of a box whose word they read between two numbered nodes. */
  lemma ClosedInApply(H: map<Label, Matrix>, nG: nat, rS: map<RsmState, nat>, R: map<Label, Matrix>, nR: nat,
                      rStart: set<nat>, rFinal: set<nat>, p: RsmState, q: RsmState, a: nat, b: nat, w: seq<Label>)
    requires ClosedIn(H, nG, rS, R, nR, rStart, rFinal)
    requires a < nG && b < nG && p in rS && q in rS && p.0 == q.0 && rS[p] in rStart && rS[q] in rFinal
    requires Walk(H, a, w, b) && Walk(R, rS[p], w, rS[q])
    ensures Term(p.0) in H && (a, b) in H[Term(p.0)]
  {
    assert ClosedInCase(H, nG, rS, R, rStart, rFinal, p, q, a, b, w);
  }

  /** The matrices read a word between two numbered nodes exactly when the decoded edges do. */
  lemma {:induction false} DecodeWalk(M: map<Label, Matrix>, idx: map<nat, nat>, n: nat, u: nat, w: seq<Label>, v: nat)
    requires OneToOne(idx) && idx.Values == Indices(n) && AllSquare(M, n) && u in idx && v in idx
    ensures Walk(M, idx[u], w, idx[v]) <==> EdgeWalk(Decode(M, idx), u, w, v)
    decreases |w|
  {
    var E := Decode(M, idx);
    if w != [] {
      if Walk(M, idx[u], w, idx[v]) {
        var m: nat :| (idx[u], m) in M[w[0]] && Walk(M, m, w[1..], idx[v]);
        assert m in idx.Values;
        var x :| x in idx && idx[x] == m;
        DecodeWalk(M, idx, n, x, w[1..], v);
        assert (u, w[0], x) in E;
      }
      if EdgeWalk(E, u, w, v) {
        var x: nat :| (u, w[0], x) in E && EdgeWalk(E, x, w[1..], v);
        assert x in idx && (idx[u], idx[x]) in M[w[0]];
        DecodeWalk(M, idx, n, x, w[1..], v);
      }
    }
  }

  /** A word the encoded matrices read between two numbered nodes is read by the edges themselves. */
  lemma {:induction false} EncodeWalk(E: set<Triple>, idx: map<nat, nat>, u: nat, w: seq<Label>, v: nat)
    requires OneToOne(idx) && u in idx && v in idx
    requires Walk(Encode(E, idx), idx[u], w, idx[v])
    ensures EdgeWalk(E, u, w, v)
    decreases |w|
  {
    if w != [] {
      var H := Encode(E, idx);
      var m: nat :| (idx[u], m) in H[w[0]] && Walk(H, m, w[1..], idx[v]);
      var t :| t in E && t.1 == w[0] && t.0 in idx && t.2 in idx && (idx[t.0], idx[t.2]) == (idx[u], m);
      EncodeWalk(E, idx, t.2, w[1..], v);
      assert t == (u, w[0], t.2);
    }
  }

  /** The flattened automaton reads a word exactly when the boxes' transitions do. */
  lemma {:induction false} NfaWalkIsMachineWalk(boxes: seq<Box>, a: Nfa<RsmState>, p: RsmState, w: seq<Label>, q: RsmState)
    requires Flattens(boxes, a)
    ensures NfaWalk(a, p, w, q) <==> MachineWalk(boxes, p, w, q)
    decreases |w|
  {
    if w != [] {
      if NfaWalk(a, p, w, q) {
        var t :| t in a.transitions && t.0 == p && t.1 == w[0] && NfaWalk(a, t.2, w[1..], q);
        NfaWalkIsMachineWalk(boxes, a, t.2, w[1..], q);
      }
      if MachineWalk(boxes, p, w, q) {
        var t :| BoxTransition(boxes, t) && t.0 == p && t.1 == w[0] && MachineWalk(boxes, t.2, w[1..], q);
        NfaWalkIsMachineWalk(boxes, a, t.2, w[1..], q);
      }
    }
  }

  /** The machine's matrices read a word between two of its states exactly when the boxes do. */
  lemma MachineMatrixWalk(boxes: seq<Box>, a: Nfa<RsmState>, p: RsmState, w: seq<Label>, q: RsmState)
    requires ValidNfa(a) && Flattens(boxes, a) && p in a.states && q in a.states
    ensures Walk(LabelMatrices(a), StateIndex(a.states)[p], w, StateIndex(a.states)[q]) <==> MachineWalk(boxes, p, w, q)
  {
    MatrixWalkIffNfaWalk(a, p, w, q);
    NfaWalkIsMachineWalk(boxes, a, p, w, q);
  }

  /** A state whose number is among the numbers of xs is in xs. */
  lemma IndexSetMember<S>(idx: map<S, nat>, xs: set<S>, x: S)
    requires OneToOne(idx) && xs <= idx.Keys && x in idx && idx[x] in IndexSet(idx, xs)
    ensures x in xs
  {
  }

  /** The automata the query builds: the flattened machine, and the graph's automaton with one transition per edge. */
  ghost predicate Built(boxes: seq<Box>, rsmFa: Nfa<RsmState>, g: Graph, graphFa: Nfa<nat>) {
    && ValidNfa(rsmFa) && Flattens(boxes, rsmFa) && rsmFa.start == BoxStarts(boxes) && rsmFa.final == BoxFinals(boxes)
    && ValidNfa(graphFa) && |graphFa.transitions| == |g.edges|
    && (forall i :: 0 <= i < |g.edges| ==> graphFa.transitions[i] == TransitionOf(g.edges[i]))
  }

  /** ClosedIn for the matrices and numbering of the flattened machine, over the graph automaton's states. */
  ghost predicate ClosedFor(H: map<Label, Matrix>, graphFa: Nfa<nat>, rsmFa: Nfa<RsmState>)
    requires ValidNfa(rsmFa)
  {
    var rS := StateIndex(rsmFa.states);
    ClosedIn(H, |graphFa.states|, rS, LabelMatrices(rsmFa), |rsmFa.states|, IndexSet(rS, rsmFa.start), IndexSet(rS, rsmFa.final))
  }

  /** The encoding of a set of edges that holds the graph's edges covers the graph automaton's matrices. */
  lemma EncodeCoversGraph(boxes: seq<Box>, rsmFa: Nfa<RsmState>, g: Graph, graphFa: Nfa<nat>, E: set<Triple>)
    requires Built(boxes, rsmFa, g, graphFa) && GraphEdges(g) <= E
    ensures Covers(Encode(E, StateIndex(graphFa.states)), LabelMatrices(graphFa))
  {
    var idx := StateIndex(graphFa.states);
    var M0 := LabelMatrices(graphFa);
    var H := Encode(E, idx);
    StateIndexKeys(graphFa.states);
    forall l, e | l in M0 && e in M0[l] ensures l in H && e in H[l] {
      var t :| t in graphFa.transitions && t.1 == l && (idx[t.0], idx[t.2]) == e;
      var i :| 0 <= i < |graphFa.transitions| && graphFa.transitions[i] == t;
      assert g.edges[i] in g.edges;
      EncodeHas(E, idx, t);
    }
  }

  /** The encoding of a closed set of edges is closed. */
  lemma EncodeClosed(boxes: seq<Box>, rsmFa: Nfa<RsmState>, g: Graph, graphFa: Nfa<nat>, E: set<Triple>)
    requires Built(boxes, rsmFa, g, graphFa) && ClosedUnder(boxes, Elements(graphFa.states), E)
    ensures ClosedFor(Encode(E, StateIndex(graphFa.states)), graphFa, rsmFa)
  {
    var rS := StateIndex(rsmFa.states);
    EncodeClosedIn(boxes, rsmFa, graphFa, E);
    assert ClosedIn(Encode(E, StateIndex(graphFa.states)), |graphFa.states|, rS, LabelMatrices(rsmFa), |rsmFa.states|,
                    IndexSet(rS, rsmFa.start), IndexSet(rS, rsmFa.final));
  }

  /** EncodeClosed, with ClosedFor written out. */
  lemma EncodeClosedIn(boxes: seq<Box>, rsmFa: Nfa<RsmState>, graphFa: Nfa<nat>, E: set<Triple>)
    requires ValidNfa(rsmFa) && Flattens(boxes, rsmFa) && rsmFa.start == BoxStarts(boxes) && rsmFa.final == BoxFinals(boxes)
    requires ValidNfa(graphFa) && ClosedUnder(boxes, Elements(graphFa.states), E)
    ensures ClosedIn(Encode(E, StateIndex(graphFa.states)), |graphFa.states|, StateIndex(rsmFa.states),
                     LabelMatrices(rsmFa), |rsmFa.states|,
                     IndexSet(StateIndex(rsmFa.states), rsmFa.start), IndexSet(StateIndex(rsmFa.states), rsmFa.final))
  {
    var H := Encode(E, StateIndex(graphFa.states));
    var rS := StateIndex(rsmFa.states);
    var R := LabelMatrices(rsmFa);
    var rStart, rFinal := IndexSet(rS, rsmFa.start), IndexSet(rS, rsmFa.final);
    forall p, q, a: nat, b: nat, w ensures ClosedInCase(H, |graphFa.states|, rS, R, rStart, rFinal, p, q, a, b, w) {
      if a < |graphFa.states| && b < |graphFa.states| && p in rS && q in rS && p.0 == q.0 &&
         rS[p] in rStart && rS[q] in rFinal && Walk(H, a, w, b) && Walk(R, rS[p], w, rS[q]) {
        EncodeClosedAt(boxes, rsmFa, graphFa, E, p, q, a, b, w);
      }
    }
  }

  /** One instance of EncodeClosed: a box's word read by the encoding between two numbered nodes. */
  lemma EncodeClosedAt(boxes: seq<Box>, rsmFa: Nfa<RsmState>, graphFa: Nfa<nat>, E: set<Triple>,
                       p: RsmState, q: RsmState, a: nat, b: nat, w: seq<Label>)
    requires ValidNfa(rsmFa) && Flattens(boxes, rsmFa) && rsmFa.start == BoxStarts(boxes) && rsmFa.final == BoxFinals(boxes)
    requires ValidNfa(graphFa) && ClosedUnder(boxes, Elements(graphFa.states), E)
    requires a < |graphFa.states| && b < |graphFa.states|
    requires p in StateIndex(rsmFa.states) && q in StateIndex(rsmFa.states) && p.0 == q.0
    requires StateIndex(rsmFa.states)[p] in IndexSet(StateIndex(rsmFa.states), rsmFa.start)
    requires StateIndex(rsmFa.states)[q] in IndexSet(StateIndex(rsmFa.states), rsmFa.final)
    requires Walk(Encode(E, StateIndex(graphFa.states)), a, w, b)
    requires Walk(LabelMatrices(rsmFa), StateIndex(rsmFa.states)[p], w, StateIndex(rsmFa.states)[q])
    ensures Term(p.0) in Encode(E, StateIndex(graphFa.states))
    ensures (a, b) in Encode(E, StateIndex(graphFa.states))[Term(p.0)]
  {
    var idx := StateIndex(graphFa.states);
    var u, v := graphFa.states[a], graphFa.states[b];
    EncodedNodeWalk(graphFa, E, a, w, b);
    BoxMatrixWalk(boxes, rsmFa, p, w, q);
    ClosedUnderApply(boxes, Elements(graphFa.states), E, p, q, w, u, v);
    EncodeHas(E, idx, (u, Term(p.0), v));
  }

  /** A walk of the encoding between two numbers is a walk of the edges between the nodes so numbered. */
  lemma EncodedNodeWalk(graphFa: Nfa<nat>, E: set<Triple>, a: nat, w: seq<Label>, b: nat)
    requires ValidNfa(graphFa) && a < |graphFa.states| && b < |graphFa.states|
    requires Walk(Encode(E, StateIndex(graphFa.states)), a, w, b)
    ensures graphFa.states[a] in Elements(graphFa.states) && graphFa.states[b] in Elements(graphFa.states)
    ensures graphFa.states[a] in StateIndex(graphFa.states) && graphFa.states[b] in StateIndex(graphFa.states)
    ensures StateIndex(graphFa.states)[graphFa.states[a]] == a && StateIndex(graphFa.states)[graphFa.states[b]] == b
    ensures EdgeWalk(E, graphFa.states[a], w, graphFa.states[b])
  {
    var idx := StateIndex(graphFa.states);
    StateIndexOneToOne(graphFa.states);
    StateIndexKeys(graphFa.states);
    var u, v := graphFa.states[a], graphFa.states[b];
    assert idx[u] == a && idx[v] == b;
    EncodeWalk(E, idx, u, w, v);
  }

  /** A walk of the flattened machine's matrices from a start to a final state is a walk of one box. */
  lemma BoxMatrixWalk(boxes: seq<Box>, rsmFa: Nfa<RsmState>, p: RsmState, w: seq<Label>, q: RsmState)
    requires ValidNfa(rsmFa) && Flattens(boxes, rsmFa) && rsmFa.start == BoxStarts(boxes) && rsmFa.final == BoxFinals(boxes)
    requires p in StateIndex(rsmFa.states) && q in StateIndex(rsmFa.states)
    requires StateIndex(rsmFa.states)[p] in IndexSet(StateIndex(rsmFa.states), rsmFa.start)
    requires StateIndex(rsmFa.states)[q] in IndexSet(StateIndex(rsmFa.states), rsmFa.final)
    requires Walk(LabelMatrices(rsmFa), StateIndex(rsmFa.states)[p], w, StateIndex(rsmFa.states)[q])
    ensures p in BoxStarts(boxes) && q in BoxFinals(boxes) && MachineWalk(boxes, p, w, q)
  {
    var rS := StateIndex(rsmFa.states);
    StateIndexOneToOne(rsmFa.states);
    StateIndexKeys(rsmFa.states);
    IndexSetMember(rS, rsmFa.start, p);
    IndexSetMember(rS, rsmFa.final, q);
    MachineMatrixWalk(boxes, rsmFa, p, w, q);
  }

  /** Decoding matrices that cover the graph automaton's recovers every edge of the graph. */
  lemma GraphInDecode(boxes: seq<Box>, rsmFa: Nfa<RsmState>, g: Graph, graphFa: Nfa<nat>, M: map<Label, Matrix>)
    requires Built(boxes, rsmFa, g, graphFa) && Covers(M, LabelMatrices(graphFa))
    ensures GraphEdges(g) <= Decode(M, StateIndex(graphFa.states))
  {
    var idx := StateIndex(graphFa.states);
    StateIndexKeys(graphFa.states);
    forall t | t in GraphEdges(g) ensures t in Decode(M, idx) {
      var e :| e in g.edges && t == TransitionOf(e);
      var i :| 0 <= i < |g.edges| && g.edges[i] == e;
      assert graphFa.transitions[i] == t;
      assert t in graphFa.transitions;
      assert t.1 in Symbols(graphFa);
      assert (idx[t.0], idx[t.2]) in TransitionEntries(graphFa, t.1);
      DecodeHas(M, idx, t.0, t.1, t.2);
    }
  }

  /** Decoding closed matrices gives a closed set of edges. */
  lemma DecodeClosed(boxes: seq<Box>, rsmFa: Nfa<RsmState>, g: Graph, graphFa: Nfa<nat>, M: map<Label, Matrix>)
    requires Built(boxes, rsmFa, g, graphFa)
    requires AllSquare(M, |graphFa.states|) && ClosedFor(M, graphFa, rsmFa)
    ensures ClosedUnder(boxes, Elements(graphFa.states), Decode(M, StateIndex(graphFa.states)))
  {
    var idx := StateIndex(graphFa.states);
    var E := Decode(M, idx);
    var rS := StateIndex(rsmFa.states);
    StateIndexOneToOne(graphFa.states);
    StateIndexKeys(graphFa.states);
    StateIndexValues(graphFa.states);
    StateIndexKeys(rsmFa.states);
    forall p, q, w, u, v |
      p in BoxStarts(boxes) && q in BoxFinals(boxes) && p.0 == q.0 && u in Elements(graphFa.states) &&
      v in Elements(graphFa.states) && MachineWalk(boxes, p, w, q) && EdgeWalk(E, u, w, v)
      ensures (u, Term(p.0), v) in E
    {
      DecodeWalk(M, idx, |graphFa.states|, u, w, v);
      MachineMatrixWalk(boxes, rsmFa, p, w, q);
      assert rS[p] in IndexSet(rS, rsmFa.start) && rS[q] in IndexSet(rS, rsmFa.final);
      ClosedInApply(M, |graphFa.states|, rS, LabelMatrices(rsmFa), |rsmFa.states|, IndexSet(rS, rsmFa.start),
                    IndexSet(rS, rsmFa.final), p, q, idx[u], idx[v], w);
      DecodeHas(M, idx, u, Term(p.0), v);
    }
  }

  /**
   * Over the graph's nodes, matrices that cover the graph automaton's, are
   * closed, and lie inside every closed cover link two nodes under l exactly
   * when the edge is derived.
   */
  lemma AnswerDerived(boxes: seq<Box>, rsmFa: Nfa<RsmState>, g: Graph, graphFa: Nfa<nat>, M: map<Label, Matrix>,
                      s: nat, l: Label, f: nat)
    requires Built(boxes, rsmFa, g, graphFa)
    requires AllSquare(M, |graphFa.states|) && Covers(M, LabelMatrices(graphFa)) && ClosedFor(M, graphFa, rsmFa)
    requires forall H :: Covers(H, LabelMatrices(graphFa)) && ClosedFor(H, graphFa, rsmFa) ==> Covers(H, M)
    requires s in graphFa.states && f in graphFa.states
    ensures Connected(M, StateIndex(graphFa.states), l, s, f) <==>
      Derived(boxes, Elements(graphFa.states), GraphEdges(g), s, l, f)
  {
    var idx := StateIndex(graphFa.states);
    var V := Elements(graphFa.states);
    StateIndexOneToOne(graphFa.states);
    if Connected(M, idx, l, s, f) {
      forall E | GraphEdges(g) <= E && ClosedUnder(boxes, V, E) ensures (s, l, f) in E {
        EncodeCoversGraph(boxes, rsmFa, g, graphFa, E);
        EncodeClosed(boxes, rsmFa, g, graphFa, E);
        var H := Encode(E, idx);
        assert (idx[s], idx[f]) in EncodedMatrix(E, idx, l);
        var t :| t in E && t.1 == l && t.0 in idx && t.2 in idx && (idx[t.0], idx[t.2]) == (idx[s], idx[f]);
        assert t == (s, l, f);
      }
    }
    if Derived(boxes, V, GraphEdges(g), s, l, f) {
      GraphInDecode(boxes, rsmFa, g, graphFa, M);
      DecodeClosed(boxes, rsmFa, g, graphFa, M);
      assert (s, l, f) in Decode(M, idx);
    }
  }

  // ---------------------------------------------------------------------------
  // The whole query
  // ---------------------------------------------------------------------------

  /**
   * The query with the intended promotion: flatten the machine, build both
   * automata, saturate the graph's automaton, and read the matrix of the
   * start nonterminal's name over the given start and final nodes (every
   * node when a set is missing or empty). The answer is the pairs joined by
   * an edge with that name in the least extension of the graph's edges that
   * is closed under the boxes.
   */
  method CorrectedTensorCfpq(boxes: seq<Box>, initialLabel: string, g: Graph,
                             startNodes: Option<set<nat>>, finalNodes: Option<set<nat>>)
    returns (pairs: set<(nat, nat)>)
    ensures forall s, f :: (s, f) in pairs <==>
      s in OrDefault(startNodes, Elements(g.nodes)) && f in OrDefault(finalNodes, Elements(g.nodes))
      && Derived(boxes, Nodes(g, startNodes, finalNodes), GraphEdges(g), s, Term(initialLabel), f)
  {
    var rsmFa := RsmToNfa(boxes);
    var graphFa := GraphToNfa(g, startNodes, finalNodes);
    var matrices, states := SaturatedMatrices(rsmFa, graphFa);
    pairs := ExtractPairs(matrices, states, initialLabel,
                          OrDefault(startNodes, graphFa.start), OrDefault(finalNodes, graphFa.final));
    assert Built(boxes, rsmFa, g, graphFa);
    assert Nodes(g, startNodes, finalNodes) == Elements(graphFa.states);
    AnswersDerived(boxes, rsmFa, g, graphFa, matrices, Term(initialLabel));
  }

  /** Builds both adjacency automata and saturates the graph's: the least closed cover of its matrices. */
  method SaturatedMatrices(rsmFa: Nfa<RsmState>, graphFa: Nfa<nat>) returns (matrices: map<Label, Matrix>, states: map<nat, nat>)
    requires ValidNfa(rsmFa) && ValidNfa(graphFa)
    ensures states == StateIndex(graphFa.states)
    ensures AllSquare(matrices, |graphFa.states|) && Covers(matrices, LabelMatrices(graphFa))
    ensures ClosedIn(matrices, |graphFa.states|, StateIndex(rsmFa.states), LabelMatrices(rsmFa), |rsmFa.states|,
                     IndexSet(StateIndex(rsmFa.states), rsmFa.start), IndexSet(StateIndex(rsmFa.states), rsmFa.final))
    ensures LeastOver(LabelMatrices(graphFa), matrices, |graphFa.states|, StateIndex(rsmFa.states), LabelMatrices(rsmFa),
                      |rsmFa.states|, IndexSet(StateIndex(rsmFa.states), rsmFa.start), IndexSet(StateIndex(rsmFa.states), rsmFa.final))
  {
    var rsmAdj := new AdjacencyMatrixFA(rsmFa);
    var graphAdj := new AdjacencyMatrixFA(graphFa);
    StateIndexOneToOne(rsmFa.states);
    StateIndexOneToOne(graphFa.states);
    var saturated := SaturateSpans(graphAdj, rsmAdj);
    matrices, states := saturated.matrices, saturated.states;
  }

  /** AnswerDerived for every start and final state of the graph's automaton. */
  lemma AnswersDerived(boxes: seq<Box>, rsmFa: Nfa<RsmState>, g: Graph, graphFa: Nfa<nat>, M: map<Label, Matrix>, l: Label)
    requires Built(boxes, rsmFa, g, graphFa)
    requires AllSquare(M, |graphFa.states|) && Covers(M, LabelMatrices(graphFa))
    requires ClosedIn(M, |graphFa.states|, StateIndex(rsmFa.states), LabelMatrices(rsmFa), |rsmFa.states|,
                      IndexSet(StateIndex(rsmFa.states), rsmFa.start), IndexSet(StateIndex(rsmFa.states), rsmFa.final))
    requires LeastOver(LabelMatrices(graphFa), M, |graphFa.states|, StateIndex(rsmFa.states), LabelMatrices(rsmFa), |rsmFa.states|,
                       IndexSet(StateIndex(rsmFa.states), rsmFa.start), IndexSet(StateIndex(rsmFa.states), rsmFa.final))
    ensures forall s, f :: s in graphFa.start && f in graphFa.final ==>
      (Connected(M, StateIndex(graphFa.states), l, s, f) <==> Derived(boxes, Elements(graphFa.states), GraphEdges(g), s, l, f))
  {
    forall s, f | s in graphFa.start && f in graphFa.final
      ensures Connected(M, StateIndex(graphFa.states), l, s, f) <==> Derived(boxes, Elements(graphFa.states), GraphEdges(g), s, l, f)
    {
      AnswerDerived(boxes, rsmFa, g, graphFa, M, s, l, f);
    }
  }

  // ---------------------------------------------------------------------------
  // A path the grammar matches, without an edge of the nonterminal's name
  // ---------------------------------------------------------------------------

  /** The grammar S -> a as one box: state 0 reads a into state 1. */
  const PathBoxes: seq<Box> := [Box("S", true, Nfa([0, 1], [(0, Term("a"), 1)], {0}, {1}))]

  /** The graph 0 -a-> 1. */
  const PathGraph: Graph := Graph([0, 1], [Edge(0, Some("a"), 1)])

  /**
   * The pair (0, 1) is derived, so the corrected query answers it, while the
   * graph has no edge labelled S from 0 to 1, so the query as written does not.
   */
  lemma PathWithoutEdge()
    ensures !LabelledEdge(PathGraph, 0, "S", 1)
    ensures Derived(PathBoxes, Nodes(PathGraph, None, None), GraphEdges(PathGraph), 0, Term("S"), 1)
  {
    var V := Nodes(PathGraph, None, None);
    var E0 := GraphEdges(PathGraph);
    var a := Term("a");
    assert TransitionOf(PathGraph.edges[0]) == (0, a, 1);
    assert PathGraph.edges[0] in PathGraph.edges;
    assert (0, a, 1) in E0;
    var p, q := ("S", 0), ("S", 1);
    assert PathBoxes[0] in PathBoxes;
    assert BoxTransition(PathBoxes, (p, a, q));
    assert [a][1..] == [];
    assert MachineWalk(PathBoxes, q, [a][1..], q);
    assert MachineWalk(PathBoxes, p, [a], q);
    assert p in BoxStarts(PathBoxes) && q in BoxFinals(PathBoxes);
    assert 0 in V && 1 in V;
    forall E | E0 <= E && ClosedUnder(PathBoxes, V, E) ensures (0, Term("S"), 1) in E {
      assert EdgeWalk(E, 1, [a][1..], 1);
      assert EdgeWalk(E, 0, [a], 1);
    }
  }
}
