/**
 * Context-free path querying with one Boolean matrix per nonterminal: the
 * matrices start from the terminal productions and the nullable
 * nonterminals, and every binary production `A -> B C` adds the product of
 * B's and C's matrices to A's until a whole pass adds nothing.
 */
module MatrixCfpq {
  import opened Common
  import opened BoolMatrix
  import opened FiniteAutomata
  import opened AdjacencyFA
  import opened Grammar

  /** The matrix of each nonterminal met so far (`var_mats`), over node indices. */
  type VarMats = map<string, Matrix>

  /** The labelled edges whose label is truthy: the empty label is skipped like a missing one. */
  function TruthyEdges(g: Graph): (es: set<TermEdge>)
    ensures forall u: nat, a, v: nat :: (u, a, v) in es <==> Edge(u, Some(a), v) in g.edges && a != ""
  {
    var es := set e | e in g.edges && e.symbol.Some? && e.symbol.value != "" :: (e.src, e.symbol.value, e.dst);
    assert forall u: nat, a, v: nat :: (Edge(u, Some(a), v) in g.edges && a != "" ==> (u, a, v) in es) by {
      forall u: nat, a, v: nat | Edge(u, Some(a), v) in g.edges && a != ""
        ensures (u, a, v) in es
      {
        var e := Edge(u, Some(a), v);
        assert (e.src, e.symbol.value, e.dst) == (u, a, v);
      }
    }
    es
  }

  /** The entries of all matrices, as facts (row index, nonterminal, column index). */
  function Facts(vm: VarMats): (F: set<Fact>)
    ensures forall i: nat, A, j: nat :: (i, A, j) in F <==> A in vm && (i, j) in vm[A]
  {
    var F := set A, p | A in vm && p in vm[A] :: (p.0, A, p.1);
    assert forall i: nat, A, j: nat :: (A in vm && (i, j) in vm[A] ==> (i, A, j) in F) by {
      forall i: nat, A, j: nat | A in vm && (i, j) in vm[A]
        ensures (i, A, j) in F
      {
        var p := (i, j);
        assert (p.0, A, p.1) == (i, A, j);
      }
    }
    F
  }

  /** Fact t over node indices is derivable over the truthy edges, between the nodes at those indices. */
  ghost predicate Holds(cfg: Cfg, g: Graph, t: Fact) {
    && t.0 < |g.nodes| && t.2 < |g.nodes| && t.1 in Heads(cfg)
    && Derivable(cfg, TruthyEdges(g), Elements(g.nodes), (g.nodes[t.0], t.1, g.nodes[t.2]))
  }

  /** Every entry holds. */
  ghost predicate Sound(cfg: Cfg, g: Graph, F: set<Fact>) {
    forall t :: t in F ==> Holds(cfg, g, t)
  }

  // ---------------------------------------------------------------------------
  // Initial matrices of `matrix_based_cfpq`: terminal productions and nullable diagonals
  // ---------------------------------------------------------------------------

  /** Edge e, with a truthy label a, puts (i, j) into the matrix of every head of `A -> a`. */
  ghost predicate EdgeEntry(productions: set<Production>, idx: map<nat, nat>, e: Edge, i: nat, A: string, j: nat) {
    && e.symbol.Some? && e.symbol.value != ""
    && e.src in idx && e.dst in idx && idx[e.src] == i && idx[e.dst] == j
    && Production(A, [Terminal(e.symbol.value)]) in productions
  }

  /** The entry an initial matrix gets from a terminal production or from a nullable nonterminal. */
  ghost predicate Leaf(cfg: Cfg, g: Graph, i: nat, A: string, j: nat) {
    && i < |g.nodes| && j < |g.nodes|
    && ((exists a :: Edge(g.nodes[i], Some(a), g.nodes[j]) in g.edges && a != "" && Production(A, [Terminal(a)]) in cfg.productions)
        || (i == j && A in cfg.nullable))
  }

  /**
   * The production loop of `matrix_based_cfpq` for one edge (i -> j labelled `edgeLabel`): every production whose
   * body is that terminal gets entry (i, j) in its head's matrix, which is
   * created empty first when missing.
   */
  method AddTerminalEntries(productions: set<Production>, vm: VarMats, i: nat, j: nat, edgeLabel: string)
    returns (vm': VarMats)
    ensures forall t :: t in Facts(vm') <==>
      t in Facts(vm) || (t.0 == i && t.2 == j && Production(t.1, [Terminal(edgeLabel)]) in productions)
  {
    vm' := vm;
    var pending := productions;
    while pending != {}
      invariant pending <= productions
      invariant forall t :: t in Facts(vm') <==>
        t in Facts(vm) || (t.0 == i && t.2 == j && Production(t.1, [Terminal(edgeLabel)]) in productions - pending)
      decreases pending
    {
      var p :| p in pending;
      if |p.body| == 1 && p.body[0].Terminal? {
        var terminal := p.body[0].name;
        if terminal == edgeLabel {
          assert p.body == [Terminal(edgeLabel)];
          if p.head !in vm' {
            vm' := vm'[p.head := {}];
          }
          vm' := vm'[p.head := vm'[p.head] + {(i, j)}];
        }
      }
      pending := pending - {p};
    }
  }

  /** The edge loop of `matrix_based_cfpq`: the matrices of the terminal productions, edge by edge. */
  method TerminalMatrices(productions: set<Production>, g: Graph, idx: map<nat, nat>) returns (vm: VarMats)
    requires Ends(g.edges) <= idx.Keys
    ensures forall i: nat, A, j: nat :: (i, A, j) in Facts(vm) <==> exists e :: e in g.edges && EdgeEntry(productions, idx, e, i, A, j)
  {
    vm := map[];
    for k := 0 to |g.edges|
      invariant forall i: nat, A, j: nat :: (i, A, j) in Facts(vm) <==>
        exists m :: 0 <= m < k && EdgeEntry(productions, idx, g.edges[m], i, A, j)
    {
      var e := g.edges[k];
      EdgeEnds(g.edges, e);
      var edgeLabel := e.symbol;
      if edgeLabel.Some? && edgeLabel.value != "" {
        vm := AddTerminalEntries(productions, vm, idx[e.src], idx[e.dst], edgeLabel.value);
      }
    }
  }

  /**
   * The nullable loop of `matrix_based_cfpq`: every node gets the diagonal entry in the matrix of every
   * nullable nonterminal.
   */
  method NullableDiagonal(vm: VarMats, nodes: seq<nat>, idx: map<nat, nat>, nullable: set<string>) returns (vm': VarMats)
    requires forall k :: 0 <= k < |nodes| ==> nodes[k] in idx && idx[nodes[k]] == k
    ensures forall t :: t in Facts(vm') <==> t in Facts(vm) || (t.0 == t.2 && t.0 < |nodes| && t.1 in nullable)
  {
    vm' := vm;
    for k := 0 to |nodes|
      invariant forall t :: t in Facts(vm') <==> t in Facts(vm) || (t.0 == t.2 && t.0 < k && t.1 in nullable)
    {
      var node := nodes[k];
      var pending := nullable;
      while pending != {}
        invariant pending <= nullable
        invariant forall t :: t in Facts(vm') <==>
          t in Facts(vm) || (t.0 == t.2 && t.0 < k && t.1 in nullable) || (t.0 == k && t.2 == k && t.1 in nullable - pending)
        decreases pending
      {
        var v :| v in pending;
        if v !in vm' {
          vm' := vm'[v := {}];
        }
        vm' := vm'[v := vm'[v] + {(idx[node], idx[node])}];
        pending := pending - {v};
      }
    }
  }

  /** The terminal entries recorded edge by edge are the leaves of derivations. */
  lemma TerminalLeaves(cfg: Cfg, g: Graph, idx: map<nat, nat>, i: nat, A: string, j: nat)
    requires NodesListed(g) && idx == StateIndex(g.nodes)
    ensures (exists e :: e in g.edges && EdgeEntry(cfg.productions, idx, e, i, A, j)) <==>
      i < |g.nodes| && j < |g.nodes| &&
      exists a :: Edge(g.nodes[i], Some(a), g.nodes[j]) in g.edges && a != "" && Production(A, [Terminal(a)]) in cfg.productions
  {
    if e :| e in g.edges && EdgeEntry(cfg.productions, idx, e, i, A, j) {
      assert e == Edge(g.nodes[i], Some(e.symbol.value), g.nodes[j]);
    }
    if i < |g.nodes| && j < |g.nodes| &&
      exists a :: Edge(g.nodes[i], Some(a), g.nodes[j]) in g.edges && a != "" && Production(A, [Terminal(a)]) in cfg.productions {
      var a :| Edge(g.nodes[i], Some(a), g.nodes[j]) in g.edges && a != "" && Production(A, [Terminal(a)]) in cfg.productions;
      assert EdgeEntry(cfg.productions, idx, Edge(g.nodes[i], Some(a), g.nodes[j]), i, A, j);
    }
  }

  /** The set-up of `matrix_based_cfpq`, before its fixpoint: the initial matrices hold exactly the leaf entries. */
  method InitialMatrices(cfg: Cfg, g: Graph) returns (vm: VarMats)
    requires NodesListed(g)
    ensures forall i: nat, A, j: nat :: (i, A, j) in Facts(vm) <==> Leaf(cfg, g, i, A, j)
  {
    var idx := StateIndex(g.nodes);
    StateIndexKeys(g.nodes);
    var terminal := TerminalMatrices(cfg.productions, g, idx);
    vm := NullableDiagonal(terminal, g.nodes, idx, cfg.nullable);
    forall i: nat, A, j: nat
      ensures (i, A, j) in Facts(vm) <==> Leaf(cfg, g, i, A, j)
    {
      TerminalLeaves(cfg, g, idx, i, A, j);
    }
  }

  // ---------------------------------------------------------------------------
  // The product fixpoint of `matrix_based_cfpq` (its `while added` loop)
  // ---------------------------------------------------------------------------

  /** Fact t follows from F by the binary production p: `A -> B C` with B's (i, k) and C's (k, j). */
  ghost predicate JoinStep(F: set<Fact>, p: Production, t: Fact) {
    && |p.body| == 2 && t.1 == p.head
    && exists k :: (t.0, p.body[0].name, k) in F && (k, p.body[1].name, t.2) in F
  }

  /** F is closed under production p. */
  ghost predicate ClosedUnder(F: set<Fact>, p: Production) {
    forall t :: JoinStep(F, p, t) ==> t in F
  }

  /**
   * The entry loop over the product in `matrix_based_cfpq`: every entry of `newMat` missing from the head's matrix is
   * set, and `changed` records whether one was.
   */
  method AddEntries(vm: VarMats, head: string, newMat: Matrix) returns (vm': VarMats, changed: bool)
    requires head in vm
    ensures vm' == vm[head := vm[head] + newMat]
    ensures changed <==> !(newMat <= vm[head])
  {
    var mat := vm[head];
    changed := false;
    var pending := newMat;
    while pending != {}
      invariant pending <= newMat
      invariant mat == vm[head] + (newMat - pending)
      invariant changed <==> !(newMat - pending <= vm[head])
      decreases pending
    {
      var entry :| entry in pending;
      if entry !in mat {
        mat := mat + {entry};
        changed := true;
      }
      pending := pending - {entry};
    }
    assert newMat - pending == newMat;
    vm' := vm[head := mat];
  }

  /**
   * The body of the production loop of `matrix_based_cfpq`, for one production: a binary production whose two body
   * nonterminals have matrices adds their product to the head's matrix.
   */
  method ApplyProduction(vm: VarMats, p: Production) returns (vm': VarMats, changed: bool)
    ensures forall t :: t in Facts(vm') <==> t in Facts(vm) || JoinStep(Facts(vm), p, t)
    ensures changed <==> Facts(vm') != Facts(vm)
  {
    vm', changed := vm, false;
    if |p.body| == 2 {
      var B := p.body[0].name;
      var C := p.body[1].name;
      var head := p.head;
      if B in vm && C in vm {
        var withHead := vm;
        if head !in withHead {
          withHead := withHead[head := {}];
          EmptyMatrixFacts(vm, head);
        }
        var newMat := Product(withHead[B], withHead[C]);
        vm', changed := AddEntries(withHead, head, newMat);
        ApplyProductionFacts(withHead, vm', p, newMat);
      } else {
        NoJoin(vm, p);
      }
    } else {
      NoJoin(vm, p);
    }
  }

  /** A new, empty matrix adds no entries. */
  lemma EmptyMatrixFacts(vm: VarMats, head: string)
    requires head !in vm
    ensures Facts(vm[head := {}]) == Facts(vm)
  {
  }

  /** Without a matrix for both body nonterminals, or without a binary body, nothing joins. */
  lemma NoJoin(vm: VarMats, p: Production)
    requires |p.body| == 2 ==> p.body[0].name !in vm || p.body[1].name !in vm
    ensures forall t :: !JoinStep(Facts(vm), p, t)
  {
  }

  /** The entries after adding the product of the body's matrices are the joins. */
  lemma ApplyProductionFacts(vm: VarMats, vm': VarMats, p: Production, newMat: Matrix)
    requires |p.body| == 2 && p.body[0].name in vm && p.body[1].name in vm && p.head in vm
    requires newMat == Product(vm[p.body[0].name], vm[p.body[1].name])
    requires vm' == vm[p.head := vm[p.head] + newMat]
    ensures forall t :: t in Facts(vm') <==> t in Facts(vm) || JoinStep(Facts(vm), p, t)
    ensures !(newMat <= vm[p.head]) <==> Facts(vm') != Facts(vm)
  {
    FactsUpdate(vm, p.head, vm[p.head] + newMat);
    forall t: Fact
      ensures t in Facts(vm') <==> t in Facts(vm) || JoinStep(Facts(vm), p, t)
    {
      JoinEntry(vm, p, newMat, t);
    }
    if !(newMat <= vm[p.head]) {
      var e :| e in newMat && e !in vm[p.head];
      var t: Fact := (e.0, p.head, e.1);
      assert (t.0, t.2) in vm'[p.head];
      assert t in Facts(vm') && t !in Facts(vm);
    }
  }

  /** Replacing one nonterminal's matrix replaces exactly its entries. */
  lemma FactsUpdate(vm: VarMats, A: string, M: Matrix)
    ensures forall t :: t in Facts(vm[A := M]) <==> (t.1 == A && (t.0, t.2) in M) || (t.1 != A && t in Facts(vm))
  {
  }

  /** A fact joins by p exactly when it is an entry of the product, filed under p's head. */
  lemma JoinEntry(vm: VarMats, p: Production, newMat: Matrix, t: Fact)
    requires |p.body| == 2 && p.body[0].name in vm && p.body[1].name in vm
    requires newMat == Product(vm[p.body[0].name], vm[p.body[1].name])
    ensures JoinStep(Facts(vm), p, t) <==> t.1 == p.head && (t.0, t.2) in newMat
  {
    if t.1 == p.head && (t.0, t.2) in newMat {
      var k :| (t.0, k) in vm[p.body[0].name] && (k, t.2) in vm[p.body[1].name];
      assert (t.0, p.body[0].name, k) in Facts(vm) && (k, p.body[1].name, t.2) in Facts(vm);
    }
  }

  /** A joined fact of two sound facts is sound. */
  lemma JoinSound(cfg: Cfg, g: Graph, F: set<Fact>, p: Production, t: Fact)
    requires WeakCnf(cfg) && p in cfg.productions
    requires Sound(cfg, g, F) && JoinStep(F, p, t)
    ensures Holds(cfg, g, t)
  {
    var k :| (t.0, p.body[0].name, k) in F && (k, p.body[1].name, t.2) in F;
    var t1, t2 := (t.0, p.body[0].name, k), (k, p.body[1].name, t.2);
    assert Holds(cfg, g, t1) && Holds(cfg, g, t2);
    assert p.body == [Variable(t1.1), Variable(t2.1)];
    var E, N := TruthyEdges(g), Elements(g.nodes);
    JoinDerivable(cfg, E, N, (g.nodes[t.0], t1.1, g.nodes[k]), (g.nodes[k], t2.1, g.nodes[t.2]), p.head);
    assert p.head in Heads(cfg);
  }

  /** Applying a production of the grammar keeps the entries sound. */
  lemma ApplySound(cfg: Cfg, g: Graph, F: set<Fact>, F': set<Fact>, p: Production)
    requires WeakCnf(cfg) && p in cfg.productions && Sound(cfg, g, F)
    requires forall t :: t in F' <==> t in F || JoinStep(F, p, t)
    ensures Sound(cfg, g, F')
  {
    forall t | t in F'
      ensures Holds(cfg, g, t)
    {
      if t !in F {
        JoinSound(cfg, g, F, p, t);
      }
    }
  }

  /**
   * One round of the `while added` loop: one pass over the productions. `added` says whether an
   * entry was set; when none was, the matrices are closed under every
   * production.
   */
  method Pass(ghost cfg: Cfg, ghost g: Graph, productions: set<Production>, vm: VarMats) returns (vm': VarMats, added: bool)
    requires WeakCnf(cfg) && productions == cfg.productions && Sound(cfg, g, Facts(vm))
    ensures Sound(cfg, g, Facts(vm'))
    ensures Facts(vm) <= Facts(vm')
    ensures added <==> Facts(vm') != Facts(vm)
    ensures !added ==> forall p :: p in productions ==> ClosedUnder(Facts(vm'), p)
  {
    vm', added := vm, false;
    var pending := productions;
    while pending != {}
      invariant pending <= productions
      invariant Sound(cfg, g, Facts(vm')) && Facts(vm) <= Facts(vm')
      invariant added <==> Facts(vm') != Facts(vm)
      invariant !added ==> forall p :: p in productions && p !in pending ==> ClosedUnder(Facts(vm'), p)
      decreases pending
    {
      var p :| p in pending;
      ghost var before := vm';
      var changed;
      vm', changed := ApplyProduction(vm', p);
      ApplySound(cfg, g, Facts(before), Facts(vm'), p);
      added := added || changed;
      pending := pending - {p};
    }
  }

  /** All facts over n node indices and the grammar's nonterminals. */
  function IndexUniverse(n: nat, heads: set<string>): set<Fact> {
    set i: nat, A, j: nat | i < n && A in heads && j < n :: (i, A, j)
  }

  /** Sound facts lie within the index universe. */
  lemma SoundBounded(cfg: Cfg, g: Graph, F: set<Fact>)
    requires Sound(cfg, g, F)
    ensures F <= IndexUniverse(|g.nodes|, Heads(cfg))
  {
  }

  /** The leaves are sound. */
  lemma LeavesSound(cfg: Cfg, g: Graph, F: set<Fact>)
    requires forall i: nat, A, j: nat :: (i, A, j) in F <==> Leaf(cfg, g, i, A, j)
    ensures Sound(cfg, g, F)
  {
    forall t | t in F
      ensures Holds(cfg, g, t)
    {
      var (i, A, j) := t;
      var E, N := TruthyEdges(g), Elements(g.nodes);
      if a :| Edge(g.nodes[i], Some(a), g.nodes[j]) in g.edges && a != "" && Production(A, [Terminal(a)]) in cfg.productions {
        StepDerivable(cfg, E, N, g.nodes[i], a, g.nodes[j], A);
        var q := Production(A, [Terminal(a)]);
        assert q.head in Heads(cfg);
      } else {
        StayDerivable(cfg, E, N, g.nodes[i], A);
      }
    }
  }

  /** A terminal production on an edge gives a leaf entry at the indices of the edge's ends. */
  lemma StepLeaf(cfg: Cfg, g: Graph, u: nat, a: string, v: nat, head: string)
    requires NodesListed(g)
    requires Edge(u, Some(a), v) in g.edges && a != "" && Production(head, [Terminal(a)]) in cfg.productions
    ensures u in g.nodes && v in g.nodes
    ensures Leaf(cfg, g, StateIndex(g.nodes)[u], head, StateIndex(g.nodes)[v])
  {
    var idx := StateIndex(g.nodes);
    StateIndexKeys(g.nodes);
    EdgeEnds(g.edges, Edge(u, Some(a), v));
    assert u in Elements(g.nodes) && v in Elements(g.nodes);
    assert g.nodes[idx[u]] == u && g.nodes[idx[v]] == v;
  }

  /** With the leaves present and every production closed, every derivation's fact is an entry. */
  lemma {:induction false} Complete(cfg: Cfg, g: Graph, F: set<Fact>, p: Parse)
    requires NodesListed(g)
    requires forall i: nat, A, j: nat :: Leaf(cfg, g, i, A, j) ==> (i, A, j) in F
    requires forall q :: q in cfg.productions ==> ClosedUnder(F, q)
    requires ValidParse(cfg, TruthyEdges(g), Elements(g.nodes), p)
    ensures Root(p).0 in g.nodes && Root(p).2 in g.nodes
    ensures (StateIndex(g.nodes)[Root(p).0], Root(p).1, StateIndex(g.nodes)[Root(p).2]) in F
  {
    var idx := StateIndex(g.nodes);
    match p
    case Step(u, a, v, head) =>
      StepLeaf(cfg, g, u, a, v, head);
    case Stay(v, head) =>
      assert Leaf(cfg, g, idx[v], head, idx[v]);
    case Join(head, left, right) =>
      Complete(cfg, g, F, left);
      Complete(cfg, g, F, right);
      var q := Production(head, [Variable(Root(left).1), Variable(Root(right).1)]);
      var k := idx[Root(left).2];
      assert (idx[Root(p).0], q.body[0].name, k) in F && (k, q.body[1].name, idx[Root(p).2]) in F;
      assert JoinStep(F, q, (idx[Root(p).0], head, idx[Root(p).2]));
  }

  /**
   * `matrix_based_cfpq` up to its fixpoint: the matrices after the fixpoint hold exactly the facts
   * derivable between the nodes at their indices.
   */
  method Saturate(cfg: Cfg, g: Graph) returns (vm: VarMats)
    requires NodesListed(g) && WeakCnf(cfg)
    ensures forall t :: t in Facts(vm) ==> Holds(cfg, g, t)
    ensures forall p :: ValidParse(cfg, TruthyEdges(g), Elements(g.nodes), p) ==>
      Root(p).0 in g.nodes && Root(p).2 in g.nodes &&
      (StateIndex(g.nodes)[Root(p).0], Root(p).1, StateIndex(g.nodes)[Root(p).2]) in Facts(vm)
  {
    vm := InitialMatrices(cfg, g);
    LeavesSound(cfg, g, Facts(vm));
    ghost var bound := IndexUniverse(|g.nodes|, Heads(cfg));
    var added := true;
    while added
      invariant Sound(cfg, g, Facts(vm))
      invariant forall i: nat, A, j: nat :: Leaf(cfg, g, i, A, j) ==> (i, A, j) in Facts(vm)
      invariant !added ==> forall p :: p in cfg.productions ==> ClosedUnder(Facts(vm), p)
      decreases bound - Facts(vm), if added then 1 else 0
    {
      ghost var before := Facts(vm);
      vm, added := Pass(cfg, g, cfg.productions, vm);
      SoundBounded(cfg, g, Facts(vm));
    }
    forall p | ValidParse(cfg, TruthyEdges(g), Elements(g.nodes), p)
      ensures Root(p).0 in g.nodes && Root(p).2 in g.nodes
      ensures (StateIndex(g.nodes)[Root(p).0], Root(p).1, StateIndex(g.nodes)[Root(p).2]) in Facts(vm)
    {
      Complete(cfg, g, Facts(vm), p);
    }
  }

  // ---------------------------------------------------------------------------
  // The answer of `matrix_based_cfpq`: the start symbol's pairs
  // ---------------------------------------------------------------------------

  /** `not xs or x in xs`: a falsy node set admits every node. */
  predicate Admits(xs: Option<set<nat>>, x: nat) {
    Falsy(xs) || x in xs.value
  }

  /** Pair (u, v) is the translation of an entry of `entries` that the node sets admit. */
  ghost predicate Translated(entries: Matrix, indexToNode: map<nat, nat>, startNodes: Option<set<nat>>,
                             finalNodes: Option<set<nat>>, u: nat, v: nat) {
    exists e :: e in entries && e.0 in indexToNode && e.1 in indexToNode
      && indexToNode[e.0] == u && indexToNode[e.1] == v && Admits(startNodes, u) && Admits(finalNodes, v)
  }

  /** The pairs are exactly the admitted translations of the entries. */
  ghost predicate Collected(pairs: set<(nat, nat)>, entries: Matrix, indexToNode: map<nat, nat>,
                            startNodes: Option<set<nat>>, finalNodes: Option<set<nat>>) {
    forall u: nat, v: nat :: (u, v) in pairs <==> Translated(entries, indexToNode, startNodes, finalNodes, u, v)
  }

  /** The matrix of a nonterminal, empty when it has none. */
  function MatrixOf(vm: VarMats, A: string): (M: Matrix)
    ensures forall i, j :: (i, j) in M <==> (i, A, j) in Facts(vm)
  {
    if A in vm then vm[A] else {}
  }

  /** One more entry looked at. */
  lemma CollectStep(pairs: set<(nat, nat)>, done: Matrix, e: (nat, nat), indexToNode: map<nat, nat>,
                    startNodes: Option<set<nat>>, finalNodes: Option<set<nat>>)
    requires e.0 in indexToNode && e.1 in indexToNode
    requires Collected(pairs, done, indexToNode, startNodes, finalNodes)
    ensures var u, v := indexToNode[e.0], indexToNode[e.1];
      Collected(if Admits(startNodes, u) && Admits(finalNodes, v) then pairs + {(u, v)} else pairs,
                done + {e}, indexToNode, startNodes, finalNodes)
  {
  }

  /**
   * The answer loop of `matrix_based_cfpq`: the start symbol's entries, translated back to nodes and
   * filtered by the optional start and final node sets.
   */
  method CollectPairs(vm: VarMats, start: string, indexToNode: map<nat, nat>,
                      startNodes: Option<set<nat>>, finalNodes: Option<set<nat>>) returns (pairs: set<(nat, nat)>)
    requires forall e :: e in MatrixOf(vm, start) ==> e.0 in indexToNode && e.1 in indexToNode
    ensures Collected(pairs, MatrixOf(vm, start), indexToNode, startNodes, finalNodes)
  {
    pairs := {};
    if start in vm {
      var pending := vm[start];
      while pending != {}
        invariant pending <= vm[start]
        invariant Collected(pairs, vm[start] - pending, indexToNode, startNodes, finalNodes)
        decreases pending
      {
        var entry :| entry in pending;
        CollectStep(pairs, vm[start] - pending, entry, indexToNode, startNodes, finalNodes);
        var u := indexToNode[entry.0];
        var v := indexToNode[entry.1];
        if Admits(startNodes, u) && Admits(finalNodes, v) {
          pairs := pairs + {(u, v)};
        }
        assert vm[start] - (pending - {entry}) == (vm[start] - pending) + {entry};
        pending := pending - {entry};
      }
    }
  }

  /** A path from u to v spells a word of the grammar's language, over edges with truthy labels. */
  ghost predicate MatrixAnswer(cfg: Cfg, g: Graph, u: nat, v: nat) {
    Derivable(cfg, TruthyEdges(g), Elements(g.nodes), (u, cfg.start, v))
  }

  /**
   * `matrix_based_cfpq` on a grammar already in weak normal form: the pairs
   * (u, v) with a path from u to v in the grammar's language, u admitted by
   * the start nodes and v by the final nodes.
   */
  method MatrixBasedCfpq(cfg: Cfg, g: Graph, startNodes: Option<set<nat>>, finalNodes: Option<set<nat>>)
    returns (pairs: set<(nat, nat)>)
    requires NodesListed(g) && WeakCnf(cfg)
    ensures forall u: nat, v: nat :: (u, v) in pairs <==>
      Admits(startNodes, u) && Admits(finalNodes, v) && MatrixAnswer(cfg, g, u, v)
  {
    var vm := Saturate(cfg, g);
    var nodeToIndex := StateIndex(g.nodes);
    StateIndexOneToOne(g.nodes);
    var indexToNode := IndexToState(nodeToIndex);
    IndexToNode(g.nodes, nodeToIndex, indexToNode);
    pairs := CollectPairs(vm, cfg.start, indexToNode, startNodes, finalNodes);
    forall u: nat, v: nat
      ensures (u, v) in pairs <==> Admits(startNodes, u) && Admits(finalNodes, v) && MatrixAnswer(cfg, g, u, v)
    {
      if Admits(startNodes, u) && Admits(finalNodes, v) && MatrixAnswer(cfg, g, u, v) {
        var p :| ValidParse(cfg, TruthyEdges(g), Elements(g.nodes), p) && Root(p) == (u, cfg.start, v);
        assert (nodeToIndex[u], cfg.start, nodeToIndex[v]) in Facts(vm);
      }
    }
  }

  /** The inverse numbering maps each index back to the node listed there. */
  lemma IndexToNode(nodes: seq<nat>, nodeToIndex: map<nat, nat>, indexToNode: map<nat, nat>)
    requires Distinct(nodes) && nodeToIndex == StateIndex(nodes)
    requires indexToNode.Keys == nodeToIndex.Values
    requires forall x :: x in nodeToIndex ==> nodeToIndex[x] in indexToNode && indexToNode[nodeToIndex[x]] == x
    ensures forall i :: 0 <= i < |nodes| ==> i in indexToNode && indexToNode[i] == nodes[i]
  {
    forall i | 0 <= i < |nodes|
      ensures i in indexToNode && indexToNode[i] == nodes[i]
    {
      assert nodeToIndex[nodes[i]] == i;
    }
  }

  /**
   * On a graph without empty labels the matrix engine answers the same
   * question as the Hellings engine.
   */
  lemma TruthyEdgesAll(g: Graph)
    requires forall e :: e in g.edges ==> e.symbol != Some("")
    ensures TruthyEdges(g) == LabelledEdges(g)
  {
    forall t | t in LabelledEdges(g)
      ensures t in TruthyEdges(g)
    {
      assert Edge(t.0, Some(t.1), t.2) in g.edges;
    }
  }
}
