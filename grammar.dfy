/**
 * Context-free grammars in weak Chomsky normal form, as the grammar-based
 * path queries receive them, and what it means for a graph path to be
 * derived from a nonterminal.
 */
module Grammar {
  import opened Common
  import opened FiniteAutomata

  /** A grammar symbol: a nonterminal (pyformlang Variable) or a terminal. */
  datatype GSymbol = Variable(name: string) | Terminal(name: string)

  /** `head -> body`; an epsilon production has the empty body. */
  datatype Production = Production(head: string, body: seq<GSymbol>)

  /**
   * A grammar with its start nonterminal and its productions. `nullable` is
   * the set of nonterminals that derive the empty word, which the engines
   * obtain from the grammar library.
   */
  datatype Cfg = Cfg(start: string, productions: set<Production>, nullable: set<string>)

  /** Every body is a terminal, a pair of nonterminals or empty (weak CNF). */
  ghost predicate WeakCnf(cfg: Cfg) {
    forall p :: p in cfg.productions ==>
      (|p.body| == 1 && p.body[0].Terminal?) || (|p.body| == 2 && p.body[0].Variable? && p.body[1].Variable?) || p.body == []
  }

  /** A labelled path of length one: source node, terminal, destination node. */
  type TermEdge = (nat, string, nat)

  /** A fact `u -A-> v`: some path from u to v spells a word derived from A. */
  type Fact = (nat, string, nat)

  /** The labelled edges of a graph (unlabelled edges carry no terminal). */
  function LabelledEdges(g: Graph): (es: set<TermEdge>)
    ensures forall u: nat, a, v: nat :: (u, a, v) in es <==> Edge(u, Some(a), v) in g.edges
  {
    var es := set e | e in g.edges && e.symbol.Some? :: (e.src, e.symbol.value, e.dst);
    assert forall u: nat, a, v: nat :: Edge(u, Some(a), v) in g.edges ==> (u, a, v) in es by {
      forall u: nat, a, v: nat | Edge(u, Some(a), v) in g.edges
        ensures (u, a, v) in es
      {
        var e := Edge(u, Some(a), v);
        assert (e.src, e.symbol.value, e.dst) == (u, a, v);
      }
    }
    es
  }

  /**
   * A derivation tree for a fact. A leaf `Step` uses one labelled edge and a
   * production `head -> a`; a leaf `Stay` derives the empty word at node v from
   * a nullable nonterminal; `Join` glues two facts that meet at a node with a
   * production `head -> B C`.
   */
  datatype Parse =
    | Step(u: nat, a: string, v: nat, head: string)
    | Stay(v: nat, head: string)
    | Join(head: string, left: Parse, right: Parse)

  /** The fact a derivation tree derives. */
  function Root(p: Parse): Fact {
    match p
    case Step(u, _, v, head) => (u, head, v)
    case Stay(v, head) => (v, head, v)
    case Join(head, left, right) => (Root(left).0, head, Root(right).2)
  }

  /**
   * The tree is a derivation in grammar cfg over the labelled edges E, with
   * the empty word derivable at every node of N.
   */
  ghost predicate ValidParse(cfg: Cfg, E: set<TermEdge>, N: set<nat>, p: Parse) {
    match p
    case Step(u, a, v, head) => (u, a, v) in E && Production(head, [Terminal(a)]) in cfg.productions
    case Stay(v, head) => v in N && head in cfg.nullable
    case Join(head, left, right) =>
      && ValidParse(cfg, E, N, left)
      && ValidParse(cfg, E, N, right)
      && Root(left).2 == Root(right).0
      && Production(head, [Variable(Root(left).1), Variable(Root(right).1)]) in cfg.productions
  }

  /** Some derivation tree derives fact t. */
  ghost predicate Derivable(cfg: Cfg, E: set<TermEdge>, N: set<nat>, t: Fact) {
    exists p :: ValidParse(cfg, E, N, p) && Root(p) == t
  }

  /** A fact is derivable in graph g: over its labelled edges, with every node nullable-capable. */
  ghost predicate DerivableIn(cfg: Cfg, g: Graph, t: Fact) {
    Derivable(cfg, LabelledEdges(g), Elements(g.nodes), t)
  }

  /** A production `head -> a` applied to a labelled edge derives its fact. */
  lemma StepDerivable(cfg: Cfg, E: set<TermEdge>, N: set<nat>, u: nat, a: string, v: nat, head: string)
    requires (u, a, v) in E && Production(head, [Terminal(a)]) in cfg.productions
    ensures Derivable(cfg, E, N, (u, head, v))
  {
    var p := Step(u, a, v, head);
    assert ValidParse(cfg, E, N, p) && Root(p) == (u, head, v);
  }

  /** A nullable nonterminal derives the empty path at every node. */
  lemma StayDerivable(cfg: Cfg, E: set<TermEdge>, N: set<nat>, v: nat, head: string)
    requires v in N && head in cfg.nullable
    ensures Derivable(cfg, E, N, (v, head, v))
  {
    var p := Stay(v, head);
    assert ValidParse(cfg, E, N, p) && Root(p) == (v, head, v);
  }

  /** Two derivable facts that meet at a node, and a production `head -> B C`, derive the glued fact. */
  lemma JoinDerivable(cfg: Cfg, E: set<TermEdge>, N: set<nat>, t1: Fact, t2: Fact, head: string)
    requires Derivable(cfg, E, N, t1) && Derivable(cfg, E, N, t2)
    requires t1.2 == t2.0
    requires Production(head, [Variable(t1.1), Variable(t2.1)]) in cfg.productions
    ensures Derivable(cfg, E, N, (t1.0, head, t2.2))
  {
    var p1 :| ValidParse(cfg, E, N, p1) && Root(p1) == t1;
    var p2 :| ValidParse(cfg, E, N, p2) && Root(p2) == t2;
    var p := Join(head, p1, p2);
    assert ValidParse(cfg, E, N, p) && Root(p) == (t1.0, head, t2.2);
  }

  /** The nonterminals a grammar mentions as a head or as nullable. */
  function Heads(cfg: Cfg): set<string> {
    (set p | p in cfg.productions :: p.head) + cfg.nullable
  }

  /**
   * What a networkx graph guarantees: no node is listed twice and every
   * endpoint of an edge is a listed node.
   */
  ghost predicate NodesListed(g: Graph) {
    Distinct(g.nodes) && Ends(g.edges) <= Elements(g.nodes)
  }

  /** Both ends of an edge are among the ends of its sequence. */
  lemma EdgeEnds(es: seq<Edge>, e: Edge)
    requires e in es
    ensures e.src in Ends(es) && e.dst in Ends(es)
  {
    assert e.src in (set x | x in es :: x.src);
    assert e.dst in (set x | x in es :: x.dst);
  }
}
