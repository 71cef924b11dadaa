/**
 * Labelled graphs and the nondeterministic finite automata built from them
 * (`graph_to_nfa`), together with the networkx view of an automaton that the
 * adjacency-matrix constructor walks over.
 */
module FiniteAutomata {
  import opened Common

  /**
   * A transition symbol. Graph edges and regular expressions use terminal
   * names; the recursive-state-machine engine also labels edges with a
   * state of the machine, a (nonterminal, state number) pair.
   */
  datatype Label = Term(text: string) | StateLabel(state: (string, nat))

  /** A directed multigraph edge; `symbol` is None when the edge has no "label" attribute. */
  datatype Edge = Edge(src: nat, symbol: Option<string>, dst: nat)

  datatype Graph = Graph(nodes: seq<nat>, edges: seq<Edge>)

  /**
   * An automaton as the automaton library stores it: its states (listed in
   * the library's iteration order, without repetition), its transitions,
   * and its start and final states.
   */
  datatype Nfa<S> = Nfa(states: seq<S>, transitions: seq<(S, Label, S)>, start: set<S>, final: set<S>)

  ghost predicate ValidNfa<S>(a: Nfa<S>) {
    && Distinct(a.states)
    && (forall t :: t in a.transitions ==> t.0 in a.states && t.2 in a.states)
    && (forall s :: s in a.start ==> s in a.states)
    && (forall s :: s in a.final ==> s in a.states)
  }

  /** The symbols that occur on some transition. */
  function Symbols<S>(a: Nfa<S>): set<Label> {
    set t | t in a.transitions :: t.1
  }

  /** The automaton can read w going from p to q. */
  ghost predicate NfaWalk<S>(a: Nfa<S>, p: S, w: seq<Label>, q: S)
    decreases |w|
  {
    if w == [] then p == q
    else exists t :: t in a.transitions && t.0 == p && t.1 == w[0] && NfaWalk(a, t.2, w[1..], q)
  }

  /** The word w labels a walk of graph edges from u to v. */
  ghost predicate GraphWalk(g: Graph, u: nat, w: seq<Label>, v: nat)
    decreases |w|
  {
    if w == [] then u == v
    else exists e :: e in g.edges && e.src == u && SymbolOf(e.symbol) == w[0] && GraphWalk(g, e.dst, w[1..], v)
  }

  /** The symbol an edge contributes: its label, or the empty name when it has none. */
  function SymbolOf(given: Option<string>): (l: Label)
    ensures l.Term?
    ensures given.None? ==> l == Term("")
    ensures given.Some? ==> l.text == given.value
  {
    Term(if given.Some? then given.value else "")
  }

  /** The transition an edge becomes. */
  function TransitionOf(e: Edge): (nat, Label, nat) {
    (e.src, SymbolOf(e.symbol), e.dst)
  }

  /** Every endpoint of an edge in es. */
  function Ends(es: seq<Edge>): set<nat> {
    (set e | e in es :: e.src) + (set e | e in es :: e.dst)
  }

  lemma EndsSnoc(es: seq<Edge>, i: nat)
    requires i < |es|
    ensures Ends(es[..i + 1]) == Ends(es[..i]) + {es[i].src, es[i].dst}
  {
    assert es[..i + 1] == es[..i] + [es[i]];
  }

  lemma TransitionsSnoc(ts: seq<(nat, Label, nat)>, es: seq<Edge>, i: nat)
    requires i < |es| && |ts| == i
    requires forall k :: 0 <= k < i ==> ts[k] == TransitionOf(es[k])
    ensures forall k :: 0 <= k < i + 1 ==> (ts + [TransitionOf(es[i])])[k] == TransitionOf(es[k])
  {
  }

  /** Adding a state to the automaton's state set, which keeps it free of repetitions. */
  function AddState<S(==)>(states: seq<S>, s: S): (r: seq<S>)
    ensures Elements(r) == Elements(states) + {s}
    ensures Distinct(states) ==> Distinct(r)
  {
    if s in states then states else states + [s]
  }

  /**
   * Turns a graph into an automaton: one transition per edge (a missing
   * label reads as the empty name), and the given start and final nodes,
   * where a missing or empty set means every node of the graph.
   */
  method GraphToNfa(g: Graph, startStates: Option<set<nat>>, finalStates: Option<set<nat>>) returns (a: Nfa<nat>)
    ensures ValidNfa(a)
    ensures |a.transitions| == |g.edges|
    ensures forall i :: 0 <= i < |g.edges| ==>
      a.transitions[i] == TransitionOf(g.edges[i])
    ensures a.start == OrDefault(startStates, Elements(g.nodes))
    ensures a.final == OrDefault(finalStates, Elements(g.nodes))
    ensures Elements(a.states) == Ends(g.edges) + a.start + a.final
  {
    var states, transitions := AddEdges(g);

    // `if not start_states: start_states = set(graph.nodes)`, then one add_start_state per node
    var startSet := OrDefault(startStates, Elements(g.nodes));
    states := AddStates(states, startSet);
    var finalSet := OrDefault(finalStates, Elements(g.nodes));
    states := AddStates(states, finalSet);

    forall t | t in transitions
      ensures t.0 in Ends(g.edges) && t.2 in Ends(g.edges)
    {
      var k :| 0 <= k < |transitions| && transitions[k] == t;
      assert g.edges[k] in g.edges;
    }
    a := Nfa(states, transitions, startSet, finalSet);
  }

  /** One add_transition per graph edge: the transitions, and the states they mention. */
  method AddEdges(g: Graph) returns (states: seq<nat>, transitions: seq<(nat, Label, nat)>)
    ensures Distinct(states)
    ensures Elements(states) == Ends(g.edges)
    ensures |transitions| == |g.edges|
    ensures forall i :: 0 <= i < |g.edges| ==>
      transitions[i] == TransitionOf(g.edges[i])
  {
    states := [];
    transitions := [];
    for i := 0 to |g.edges|
      invariant |transitions| == i
      invariant forall k :: 0 <= k < i ==>
        transitions[k] == TransitionOf(g.edges[k])
      invariant Distinct(states)
      invariant Elements(states) == Ends(g.edges[..i])
    {
      var e := g.edges[i];
      EndsSnoc(g.edges, i);
      TransitionsSnoc(transitions, g.edges, i);
      states := AddState(AddState(states, e.src), e.dst);
      transitions := transitions + [TransitionOf(e)];
    }
    assert g.edges[..|g.edges|] == g.edges;
  }

  /** Adds each state of xs to the state list, one at a time. */
  method AddStates<S(==)>(states: seq<S>, xs: set<S>) returns (r: seq<S>)
    requires Distinct(states)
    ensures Distinct(r)
    ensures Elements(r) == Elements(states) + xs
  {
    r := states;
    var pending := xs;
    while pending != {}
      invariant pending <= xs
      invariant Distinct(r)
      invariant Elements(r) == Elements(states) + (xs - pending)
      decreases pending
    {
      var s :| s in pending;
      r := AddState(r, s);
      pending := pending - {s};
    }
  }

  /** The automaton built from a graph reads exactly the words that label walks of the graph. */
  lemma {:induction false} GraphNfaWalk(g: Graph, a: Nfa<nat>, u: nat, w: seq<Label>, v: nat)
    requires |a.transitions| == |g.edges|
    requires forall i :: 0 <= i < |g.edges| ==>
      a.transitions[i] == TransitionOf(g.edges[i])
    ensures NfaWalk(a, u, w, v) <==> GraphWalk(g, u, w, v)
    decreases |w|
  {
    if w != [] {
      if NfaWalk(a, u, w, v) {
        var t :| t in a.transitions && t.0 == u && t.1 == w[0] && NfaWalk(a, t.2, w[1..], v);
        var i :| 0 <= i < |a.transitions| && a.transitions[i] == t;
        GraphNfaWalk(g, a, t.2, w[1..], v);
        assert g.edges[i] in g.edges;
      }
      if GraphWalk(g, u, w, v) {
        var e :| e in g.edges && e.src == u && SymbolOf(e.symbol) == w[0] && GraphWalk(g, e.dst, w[1..], v);
        var i :| 0 <= i < |g.edges| && g.edges[i] == e;
        GraphNfaWalk(g, a, e.dst, w[1..], v);
        assert a.transitions[i] in a.transitions;
      }
    }
  }

  /** A node of the networkx view: a state, or the pseudo-node that marks a start state. */
  datatype NxNode<S> = Node(state: S) | Starting(of: S)

  /** An edge of the networkx view; the start markers carry no label. */
  datatype NxEdge<S> = NxEdge(src: NxNode<S>, symbol: Option<Label>, dst: NxNode<S>)

  /** Pseudo edges `starting_s -> s`, one per start state, in state order. */
  function StartingEdges<S>(states: seq<S>, start: set<S>): (es: seq<NxEdge<S>>)
    ensures forall e :: e in es ==> e.src.Starting? && e.symbol.None?
  {
    if states == [] then []
    else
      var rest := StartingEdges(states[1..], start);
      if states[0] in start then [NxEdge(Starting(states[0]), None, Node(states[0]))] + rest else rest
  }

  /** The networkx multigraph of an automaton: start markers, then one labelled edge per transition. */
  function ToNetworkx<S>(a: Nfa<S>): seq<NxEdge<S>> {
    StartingEdges(a.states, a.start)
      + seq(|a.transitions|, i requires 0 <= i < |a.transitions| =>
              NxEdge(Node(a.transitions[i].0), Some(a.transitions[i].1), Node(a.transitions[i].2)))
  }

  /** Every edge between two genuine states of the networkx view is a transition of the automaton. */
  lemma NetworkxRealEdges<S>(a: Nfa<S>, k: nat)
    requires k < |ToNetworkx(a)|
    requires ToNetworkx(a)[k].src.Node? && ToNetworkx(a)[k].dst.Node?
    ensures ToNetworkx(a)[k].symbol.Some?
    ensures (ToNetworkx(a)[k].src.state, ToNetworkx(a)[k].symbol.value, ToNetworkx(a)[k].dst.state) in a.transitions
  {
    var starting := StartingEdges(a.states, a.start);
    assert forall j :: 0 <= j < |starting| ==> ToNetworkx(a)[j] == starting[j] && starting[j] in starting;
    assert a.transitions[k - |starting|] in a.transitions;
  }

  /** Transition i appears in the networkx view, after the start markers. */
  lemma NetworkxTransition<S>(a: Nfa<S>, i: nat) returns (j: nat)
    requires i < |a.transitions|
    ensures j < |ToNetworkx(a)|
    ensures ToNetworkx(a)[j] == NxEdge(Node(a.transitions[i].0), Some(a.transitions[i].1), Node(a.transitions[i].2))
  {
    j := |StartingEdges(a.states, a.start)| + i;
  }
}
