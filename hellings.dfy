/**
 * Context-free path querying by Hellings' worklist algorithm: facts
 * `u -A-> v` are seeded from labelled edges and nullable nonterminals, then
 * every pair of facts meeting at a node is glued by the binary productions
 * until nothing new appears.
 */
module HellingsCfpq {
  import opened Common
  import opened FiniteAutomata
  import opened Grammar

  /** Terminal bodies: which heads produce each terminal (`term_to_vars`). */
  type TermTable = map<GSymbol, set<string>>

  /** Binary bodies: which heads produce each pair of symbols (`pair_to_vars`). */
  type PairTable = map<(GSymbol, GSymbol), set<string>>

  /** The two tables index exactly the terminal and the binary productions. */
  ghost predicate Tables(productions: set<Production>, termToVars: TermTable, pairToVars: PairTable) {
    && (forall a, A :: (a in termToVars && A in termToVars[a]) <==> a.Terminal? && Production(A, [a]) in productions)
    && (forall a, b, A :: ((a, b) in pairToVars && A in pairToVars[(a, b)]) <==> Production(A, [a, b]) in productions)
  }

  /** One production added to the tables, as `setdefault(...).add(head)` does. */
  function AddProduction(termToVars: TermTable, pairToVars: PairTable, p: Production): (TermTable, PairTable) {
    if |p.body| == 1 && p.body[0].Terminal? then
      var heads := if p.body[0] in termToVars then termToVars[p.body[0]] else {};
      (termToVars[p.body[0] := heads + {p.head}], pairToVars)
    else if |p.body| == 2 then
      var key := (p.body[0], p.body[1]);
      var heads := if key in pairToVars then pairToVars[key] else {};
      (termToVars, pairToVars[key := heads + {p.head}])
    else
      (termToVars, pairToVars)
  }

  /** Adding a production to tables of a set of productions gives the tables of the larger set. */
  lemma AddProductionTables(done: set<Production>, termToVars: TermTable, pairToVars: PairTable, p: Production)
    requires Tables(done, termToVars, pairToVars)
    ensures Tables(done + {p}, AddProduction(termToVars, pairToVars, p).0, AddProduction(termToVars, pairToVars, p).1)
  {
    var (t, q) := AddProduction(termToVars, pairToVars, p);
    if |p.body| == 2 {
      assert p.body == [p.body[0], p.body[1]];
    } else if |p.body| == 1 {
      assert p.body == [p.body[0]];
    }
    forall a, b, A | Production(A, [a, b]) in done + {p}
      ensures (a, b) in q && A in q[(a, b)]
    {
      if Production(A, [a, b]) == p {
        assert |p.body| == 2 && (p.body[0], p.body[1]) == (a, b);
      }
    }
    forall a: GSymbol, A | a.Terminal? && Production(A, [a]) in done + {p}
      ensures a in t && A in t[a]
    {
      if Production(A, [a]) == p {
        assert |p.body| == 1 && p.body[0] == a;
      }
    }
  }

  /** The table-building loop of `hellings_based_cfpq`: the two lookup tables, one production at a time. */
  method BuildTables(productions: set<Production>) returns (termToVars: TermTable, pairToVars: PairTable)
    ensures Tables(productions, termToVars, pairToVars)
  {
    termToVars, pairToVars := map[], map[];
    var pending := productions;
    while pending != {}
      invariant pending <= productions
      invariant Tables(productions - pending, termToVars, pairToVars)
      decreases pending
    {
      var p :| p in pending;
      AddProductionTables(productions - pending, termToVars, pairToVars, p);
      termToVars, pairToVars := AddProduction(termToVars, pairToVars, p).0, AddProduction(termToVars, pairToVars, p).1;
      assert productions - (pending - {p}) == (productions - pending) + {p};
      pending := pending - {p};
    }
  }

  /**
   * The first facts of `hellings_based_cfpq` (its `new_edges` set): `u -A-> v` for every labelled edge whose
   * terminal A produces, and `v -A-> v` for every node and nullable A.
   */
  function Seeds(g: Graph, termToVars: TermTable, nullable: set<string>): (S: set<Fact>)
    ensures forall u: nat, A, v: nat :: (u, A, v) in S <==>
      (exists a :: Edge(u, Some(a), v) in g.edges && Terminal(a) in termToVars && A in termToVars[Terminal(a)])
      || (u == v && v in g.nodes && A in nullable)
  {
    var fromEdges := set e, A | e in g.edges && e.symbol.Some? && Terminal(e.symbol.value) in termToVars
      && A in termToVars[Terminal(e.symbol.value)] :: (e.src, A, e.dst);
    var fromNodes := set v, A | v in g.nodes && A in nullable :: (v, A, v);
    assert forall u: nat, A, v: nat, a :: (Edge(u, Some(a), v) in g.edges && Terminal(a) in termToVars && A in termToVars[Terminal(a)]
      ==> (u, A, v) in fromEdges) by {
      forall u: nat, A, v: nat, a | Edge(u, Some(a), v) in g.edges && Terminal(a) in termToVars && A in termToVars[Terminal(a)]
        ensures (u, A, v) in fromEdges
      {
        var e := Edge(u, Some(a), v);
        assert (e.src, A, e.dst) == (u, A, v);
      }
    }
    fromEdges + fromNodes
  }

  /** The facts `update_queue` derives from e1 followed by e2, before filtering out known facts. */
  function Combine(e1: Fact, e2: Fact, pairToVars: PairTable): (c: set<Fact>)
    ensures forall t :: t in c <==>
      && e1.2 == e2.0 && (Variable(e1.1), Variable(e2.1)) in pairToVars
      && t.0 == e1.0 && t.1 in pairToVars[(Variable(e1.1), Variable(e2.1))] && t.2 == e2.2
  {
    if e1.2 == e2.0 && (Variable(e1.1), Variable(e2.1)) in pairToVars then
      set A | A in pairToVars[(Variable(e1.1), Variable(e2.1))] :: (e1.0, A, e2.2)
    else
      {}
  }

  /**
   * `update_queue(e1, e2, buff)`: every fact of `Combine(e1, e2)` not yet in
   * `newEdges` is added to the buffer and appended to the queue.
   */
  method UpdateQueue(e1: Fact, e2: Fact, buff: set<Fact>, queue: seq<Fact>, newEdges: set<Fact>, pairToVars: PairTable)
    returns (buff': set<Fact>, queue': seq<Fact>)
    ensures buff' == buff + (Combine(e1, e2, pairToVars) - newEdges)
    ensures |queue'| >= |queue| && queue'[..|queue|] == queue
    ensures Elements(queue'[|queue|..]) == Combine(e1, e2, pairToVars) - newEdges
  {
    buff', queue' := buff, queue;
    if e1.2 == e2.0 {
      var pair := (Variable(e1.1), Variable(e2.1));
      if pair in pairToVars {
        var pending := pairToVars[pair];
        while pending != {}
          invariant pending <= pairToVars[pair]
          invariant |queue'| >= |queue| && queue'[..|queue|] == queue
          invariant forall t :: t in queue'[|queue|..] <==>
            t in Combine(e1, e2, pairToVars) - newEdges && t.1 !in pending
          invariant buff' == buff + Elements(queue'[|queue|..])
          decreases pending
        {
          var A :| A in pending;
          var newEdge := (e1.0, A, e2.2);
          if newEdge !in newEdges {
            ElementsAppend(queue'[|queue|..], [newEdge]);
            assert (queue' + [newEdge])[|queue|..] == queue'[|queue|..] + [newEdge];
            buff' := buff' + {newEdge};
            queue' := queue' + [newEdge];
          }
          pending := pending - {A};
        }
      }
    }
  }

  /** All facts on the given nodes and nonterminals: a bound on what the loop can add. */
  function Universe(nodes: set<nat>, heads: set<string>): set<Fact> {
    set u, A, v | u in nodes && A in heads && v in nodes :: (u, A, v)
  }

  /** The nodes a graph mentions. */
  function GraphNodes(g: Graph): set<nat> {
    Elements(g.nodes) + Ends(g.edges)
  }

  /** Every pair of done facts has its combinations among the facts S. */
  ghost predicate Closed(S: set<Fact>, done: set<Fact>, pairToVars: PairTable) {
    forall e1, e2 :: e1 in done && e2 in done ==> Combine(e1, e2, pairToVars) <= S
  }

  /** Every fact of S is derivable in the graph. */
  ghost predicate Sound(cfg: Cfg, g: Graph, S: set<Fact>) {
    forall t :: t in S ==> DerivableIn(cfg, g, t)
  }

  /** What the worklist loop keeps: facts sound and bounded, seeds present, the facts off the queue closed. */
  ghost predicate LoopInv(cfg: Cfg, g: Graph, termToVars: TermTable, pairToVars: PairTable, newEdges: set<Fact>, queue: seq<Fact>) {
    && Seeds(g, termToVars, cfg.nullable) <= newEdges
    && Sound(cfg, g, newEdges)
    && newEdges <= Universe(GraphNodes(g), Heads(cfg))
    && Elements(queue) <= newEdges
    && Closed(newEdges, newEdges - Elements(queue), pairToVars)
  }

  /** The seeds are derivable: each from one edge, or empty at a node. */
  lemma SeedsSound(cfg: Cfg, g: Graph, termToVars: TermTable, pairToVars: PairTable)
    requires Tables(cfg.productions, termToVars, pairToVars)
    ensures Sound(cfg, g, Seeds(g, termToVars, cfg.nullable))
  {
    forall t | t in Seeds(g, termToVars, cfg.nullable)
      ensures DerivableIn(cfg, g, t)
    {
      var (u, A, v) := t;
      if a :| Edge(u, Some(a), v) in g.edges && Terminal(a) in termToVars && A in termToVars[Terminal(a)] {
        StepDerivable(cfg, LabelledEdges(g), Elements(g.nodes), u, a, v, A);
      } else {
        StayDerivable(cfg, LabelledEdges(g), Elements(g.nodes), v, A);
      }
    }
  }

  /** The seeds are facts on the graph's nodes and the grammar's nonterminals. */
  lemma SeedsBounded(cfg: Cfg, g: Graph, termToVars: TermTable, pairToVars: PairTable)
    requires Tables(cfg.productions, termToVars, pairToVars)
    ensures Seeds(g, termToVars, cfg.nullable) <= Universe(GraphNodes(g), Heads(cfg))
  {
    forall t | t in Seeds(g, termToVars, cfg.nullable)
      ensures t in Universe(GraphNodes(g), Heads(cfg))
    {
      var (u, A, v) := t;
      if a :| Edge(u, Some(a), v) in g.edges && Terminal(a) in termToVars && A in termToVars[Terminal(a)] {
        var p := Production(A, [Terminal(a)]);
        assert p.head in Heads(cfg);
        EdgeEnds(g.edges, Edge(u, Some(a), v));
      }
    }
  }

  /** The combinations of two derivable facts are derivable. */
  lemma CombineSound(cfg: Cfg, g: Graph, pairToVars: PairTable, termToVars: TermTable, e1: Fact, e2: Fact)
    requires Tables(cfg.productions, termToVars, pairToVars)
    requires DerivableIn(cfg, g, e1) && DerivableIn(cfg, g, e2)
    ensures Sound(cfg, g, Combine(e1, e2, pairToVars))
  {
    forall t | t in Combine(e1, e2, pairToVars)
      ensures DerivableIn(cfg, g, t)
    {
      JoinDerivable(cfg, LabelledEdges(g), Elements(g.nodes), e1, e2, t.1);
    }
  }

  /** The combinations of two bounded facts are bounded. */
  lemma CombineBounded(cfg: Cfg, g: Graph, pairToVars: PairTable, termToVars: TermTable, e1: Fact, e2: Fact)
    requires Tables(cfg.productions, termToVars, pairToVars)
    requires e1 in Universe(GraphNodes(g), Heads(cfg)) && e2 in Universe(GraphNodes(g), Heads(cfg))
    ensures Combine(e1, e2, pairToVars) <= Universe(GraphNodes(g), Heads(cfg))
  {
    forall t | t in Combine(e1, e2, pairToVars)
      ensures t in Universe(GraphNodes(g), Heads(cfg))
    {
      var p := Production(t.1, [Variable(e1.1), Variable(e2.1)]);
      assert p.head in Heads(cfg);
    }
  }

  /** What the pass over `new_edges` for one popped fact keeps. */
  ghost predicate PassInv(cfg: Cfg, g: Graph, pairToVars: PairTable, newEdges: set<Fact>, edge: Fact,
                          rest: seq<Fact>, pending: set<Fact>, buffer: set<Fact>, queue: seq<Fact>) {
    && pending <= newEdges
    && buffer !! newEdges
    && Sound(cfg, g, buffer)
    && buffer <= Universe(GraphNodes(g), Heads(cfg))
    && |queue| >= |rest| && queue[..|rest|] == rest
    && Elements(queue[|rest|..]) == buffer
    && (forall e :: e in newEdges && e !in pending ==>
          Combine(edge, e, pairToVars) <= newEdges + buffer && Combine(e, edge, pairToVars) <= newEdges + buffer)
  }

  /** Both `update_queue` calls for one fact e keep the pass invariant. */
  lemma PassStep(cfg: Cfg, g: Graph, termToVars: TermTable, pairToVars: PairTable, newEdges: set<Fact>, edge: Fact,
                 rest: seq<Fact>, pending: set<Fact>, buffer: set<Fact>, queue: seq<Fact>, e: Fact,
                 buffer1: set<Fact>, queue1: seq<Fact>, buffer2: set<Fact>, queue2: seq<Fact>)
    requires Tables(cfg.productions, termToVars, pairToVars)
    requires Sound(cfg, g, newEdges) && newEdges <= Universe(GraphNodes(g), Heads(cfg)) && edge in newEdges
    requires PassInv(cfg, g, pairToVars, newEdges, edge, rest, pending, buffer, queue) && e in pending
    requires buffer1 == buffer + (Combine(edge, e, pairToVars) - newEdges)
    requires |queue1| >= |queue| && queue1[..|queue|] == queue
    requires Elements(queue1[|queue|..]) == Combine(edge, e, pairToVars) - newEdges
    requires buffer2 == buffer1 + (Combine(e, edge, pairToVars) - newEdges)
    requires |queue2| >= |queue1| && queue2[..|queue1|] == queue1
    requires Elements(queue2[|queue1|..]) == Combine(e, edge, pairToVars) - newEdges
    ensures PassInv(cfg, g, pairToVars, newEdges, edge, rest, pending - {e}, buffer2, queue2)
  {
    CombineSound(cfg, g, pairToVars, termToVars, edge, e);
    CombineSound(cfg, g, pairToVars, termToVars, e, edge);
    CombineBounded(cfg, g, pairToVars, termToVars, edge, e);
    CombineBounded(cfg, g, pairToVars, termToVars, e, edge);
    assert queue2[..|rest|] == rest by {
      assert queue2[..|queue|] == queue;
    }
    assert queue2[|rest|..] == queue[|rest|..] + queue1[|queue|..] + queue2[|queue1|..] by {
      assert queue2 == queue1 + queue2[|queue1|..];
      assert queue1 == queue + queue1[|queue|..];
      assert queue == rest + queue[|rest|..];
    }
  }

  /** One pass of the worklist loop of `hellings_based_cfpq`: pop a fact, combine it with every fact both ways. */
  method Pass(ghost cfg: Cfg, ghost g: Graph, ghost termToVars: TermTable, pairToVars: PairTable,
              newEdges: set<Fact>, queue: seq<Fact>) returns (newEdges': set<Fact>, queue': seq<Fact>)
    requires Tables(cfg.productions, termToVars, pairToVars)
    requires LoopInv(cfg, g, termToVars, pairToVars, newEdges, queue) && queue != []
    ensures LoopInv(cfg, g, termToVars, pairToVars, newEdges', queue')
    ensures newEdges <= newEdges'
    ensures newEdges' == newEdges ==> |queue'| < |queue|
  {
    var edge := queue[0];
    var rest := queue[1..];
    assert edge in Elements(queue);
    queue' := rest;
    var buffer := {};
    var pending := newEdges;
    while pending != {}
      invariant PassInv(cfg, g, pairToVars, newEdges, edge, rest, pending, buffer, queue')
      decreases pending
    {
      var e :| e in pending;
      var buffer1, queue1 := UpdateQueue(edge, e, buffer, queue', newEdges, pairToVars);
      var buffer2, queue2 := UpdateQueue(e, edge, buffer1, queue1, newEdges, pairToVars);
      PassStep(cfg, g, termToVars, pairToVars, newEdges, edge, rest, pending, buffer, queue', e,
               buffer1, queue1, buffer2, queue2);
      buffer, queue' := buffer2, queue2;
      pending := pending - {e};
    }
    newEdges' := newEdges + buffer;
    PassDone(cfg, g, termToVars, pairToVars, newEdges, queue, edge, rest, buffer, queue');
  }

  /** The elements of a concatenation. */
  lemma ElementsAppend<T>(a: seq<T>, b: seq<T>)
    ensures Elements(a + b) == Elements(a) + Elements(b)
  {
    assert forall x :: x in a + b <==> x in a || x in b;
  }

  /** A sequence without elements is empty. */
  lemma NoElements<T>(s: seq<T>)
    ensures Elements(s) == {} ==> s == []
  {
    if s != [] {
      assert s[0] in Elements(s);
    }
  }

  /** The queue after a pass: the popped fact is gone, the buffered ones are appended. */
  lemma PassQueue(queue: seq<Fact>, rest: seq<Fact>, buffer: set<Fact>, queue': seq<Fact>)
    requires queue != [] && rest == queue[1..]
    requires |queue'| >= |rest| && queue'[..|rest|] == rest && Elements(queue'[|rest|..]) == buffer
    ensures Elements(queue) == {queue[0]} + Elements(rest)
    ensures Elements(queue') == Elements(rest) + buffer
    ensures buffer == {} ==> queue' == rest
  {
    assert queue == [queue[0]] + rest;
    ElementsAppend([queue[0]], rest);
    assert queue' == rest + queue'[|rest|..];
    ElementsAppend(rest, queue'[|rest|..]);
    NoElements(queue'[|rest|..]);
  }

  /** After a pass the loop invariant holds again, and either new facts appeared or the queue shrank. */
  lemma PassDone(cfg: Cfg, g: Graph, termToVars: TermTable, pairToVars: PairTable, newEdges: set<Fact>,
                 queue: seq<Fact>, edge: Fact, rest: seq<Fact>, buffer: set<Fact>, queue': seq<Fact>)
    requires LoopInv(cfg, g, termToVars, pairToVars, newEdges, queue)
    requires queue != [] && edge == queue[0] && rest == queue[1..]
    requires PassInv(cfg, g, pairToVars, newEdges, edge, rest, {}, buffer, queue')
    ensures LoopInv(cfg, g, termToVars, pairToVars, newEdges + buffer, queue')
    ensures buffer == {} ==> |queue'| < |queue|
  {
    PassQueue(queue, rest, buffer, queue');
    PassClosed(pairToVars, newEdges, edge, queue, rest, buffer, queue');
  }

  /** After a pass the facts off the queue are still closed. */
  lemma PassClosed(pairToVars: PairTable, newEdges: set<Fact>, edge: Fact, queue: seq<Fact>, rest: seq<Fact>,
                   buffer: set<Fact>, queue': seq<Fact>)
    requires queue != [] && edge == queue[0] && rest == queue[1..] && edge in newEdges
    requires Closed(newEdges, newEdges - Elements(queue), pairToVars)
    requires Elements(queue) == {edge} + Elements(rest)
    requires Elements(queue') == Elements(rest) + buffer
    requires forall e :: e in newEdges ==>
      Combine(edge, e, pairToVars) <= newEdges + buffer && Combine(e, edge, pairToVars) <= newEdges + buffer
    ensures Closed(newEdges + buffer, (newEdges + buffer) - Elements(queue'), pairToVars)
  {
    var done := (newEdges + buffer) - Elements(queue');
    assert done <= (newEdges - Elements(queue)) + {edge};
  }

  /** Once the queue is empty, every derivable fact has been found. */
  lemma {:induction false} Complete(cfg: Cfg, g: Graph, termToVars: TermTable, pairToVars: PairTable,
                                    S: set<Fact>, p: Parse)
    requires Tables(cfg.productions, termToVars, pairToVars)
    requires Seeds(g, termToVars, cfg.nullable) <= S && Closed(S, S, pairToVars)
    requires ValidParse(cfg, LabelledEdges(g), Elements(g.nodes), p)
    ensures Root(p) in S
  {
    match p
    case Step(u, a, v, head) =>
      assert Edge(u, Some(a), v) in g.edges;
      assert Terminal(a) in termToVars && head in termToVars[Terminal(a)];
    case Stay(v, head) =>
    case Join(head, left, right) =>
      Complete(cfg, g, termToVars, pairToVars, S, left);
      Complete(cfg, g, termToVars, pairToVars, S, right);
      assert Root(p) in Combine(Root(left), Root(right), pairToVars);
  }

  /** The facts are exactly the derivable ones once the loop has stopped. */
  lemma Saturated(cfg: Cfg, g: Graph, termToVars: TermTable, pairToVars: PairTable, S: set<Fact>)
    requires Tables(cfg.productions, termToVars, pairToVars)
    requires LoopInv(cfg, g, termToVars, pairToVars, S, [])
    ensures forall t :: t in S <==> DerivableIn(cfg, g, t)
  {
    var none: seq<Fact> := [];
    assert S - Elements(none) == S;
    forall t | DerivableIn(cfg, g, t)
      ensures t in S
    {
      var p :| ValidParse(cfg, LabelledEdges(g), Elements(g.nodes), p) && Root(p) == t;
      Complete(cfg, g, termToVars, pairToVars, S, p);
    }
  }

  /**
   * The seeding and worklist loop of `hellings_based_cfpq`: the facts it ends with are exactly the facts
   * derivable in the grammar over the graph.
   */
  method Saturate(cfg: Cfg, g: Graph) returns (newEdges: set<Fact>)
    ensures forall t :: t in newEdges <==> DerivableIn(cfg, g, t)
  {
    var termToVars, pairToVars := BuildTables(cfg.productions);
    newEdges := Seeds(g, termToVars, cfg.nullable);
    SeedsSound(cfg, g, termToVars, pairToVars);
    SeedsBounded(cfg, g, termToVars, pairToVars);
    var queue := Enumerate(newEdges);
    assert newEdges - Elements(queue) == {};
    ghost var bound := Universe(GraphNodes(g), Heads(cfg));
    while queue != []
      invariant LoopInv(cfg, g, termToVars, pairToVars, newEdges, queue)
      decreases bound - newEdges, |queue|
    {
      ghost var before := newEdges;
      newEdges, queue := Pass(cfg, g, termToVars, pairToVars, newEdges, queue);
      if newEdges != before {
        assert bound - newEdges < bound - before;
      }
    }
    Saturated(cfg, g, termToVars, pairToVars, newEdges);
  }

  /**
   * The final comprehension of `hellings_based_cfpq`: the answer pairs. Python's `v1 in None` raises TypeError,
   * so omitted start nodes fail as soon as there is a fact, and omitted final
   * nodes fail as soon as a start-symbol fact leaves a start node.
   */
  function Answer(newEdges: set<Fact>, startVar: string, startNodes: Option<set<nat>>, finalNodes: Option<set<nat>>)
    : (r: Result<set<(nat, nat)>>)
    ensures r.Err? <==>
      (startNodes.None? && newEdges != {})
      || (startNodes.Some? && finalNodes.None? && exists t :: t in newEdges && t.0 in startNodes.value && t.1 == startVar)
    ensures r.Err? ==> r.error == TypeError
    ensures r.Ok? ==> forall u, v :: (u, v) in r.value <==>
      startNodes.Some? && finalNodes.Some? && u in startNodes.value && v in finalNodes.value && (u, startVar, v) in newEdges
  {
    if newEdges == {} then Ok({})
    else if startNodes.None? then Err(TypeError)
    else if finalNodes.None? && exists t :: t in newEdges && t.0 in startNodes.value && t.1 == startVar then Err(TypeError)
    else
      var r := set t | t in newEdges && t.0 in startNodes.value && t.1 == startVar && t.2 in finalNodes.value :: (t.0, t.2);
      assert forall u, v :: (u in startNodes.value && (u, startVar, v) in newEdges && finalNodes.Some? && v in finalNodes.value
        ==> (u, v) in r) by {
        forall u, v | u in startNodes.value && (u, startVar, v) in newEdges && finalNodes.Some? && v in finalNodes.value
          ensures (u, v) in r
        {
          var t := (u, startVar, v);
          assert (t.0, t.2) == (u, v);
        }
      }
      Ok(r)
  }

  /** A fact u -start-> v: a path from u to v spells a word of the grammar's language. */
  ghost predicate CfpqAnswer(cfg: Cfg, g: Graph, u: nat, v: nat) {
    DerivableIn(cfg, g, (u, cfg.start, v))
  }

  /**
   * `hellings_based_cfpq` on a grammar already in weak normal form: the pairs
   * (u, v) with u a start node, v a final node and a path between them in the
   * grammar's language; a missing node set raises TypeError when consulted.
   */
  method HellingsBasedCfpq(cfg: Cfg, g: Graph, startNodes: Option<set<nat>>, finalNodes: Option<set<nat>>)
    returns (result: Result<set<(nat, nat)>>)
    ensures result.Err? <==>
      (startNodes.None? && exists t :: DerivableIn(cfg, g, t))
      || (startNodes.Some? && finalNodes.None? && exists u: nat, v: nat :: u in startNodes.value && CfpqAnswer(cfg, g, u, v))
    ensures result.Err? ==> result.error == TypeError
    ensures result.Ok? ==> forall u: nat, v: nat :: (u, v) in result.value <==>
      startNodes.Some? && finalNodes.Some? && u in startNodes.value && v in finalNodes.value && CfpqAnswer(cfg, g, u, v)
  {
    var newEdges := Saturate(cfg, g);
    result := Answer(newEdges, cfg.start, startNodes, finalNodes);
    if startNodes.None? && newEdges != {} {
      var t :| t in newEdges;
      assert DerivableIn(cfg, g, t);
    }
    if startNodes.Some? && finalNodes.None? && exists t :: t in newEdges && t.0 in startNodes.value && t.1 == cfg.start {
      var t :| t in newEdges && t.0 in startNodes.value && t.1 == cfg.start;
      assert CfpqAnswer(cfg, g, t.0, t.2);
    }
    if startNodes.Some? && finalNodes.None? && exists u: nat, v: nat :: u in startNodes.value && CfpqAnswer(cfg, g, u, v) {
      var u: nat, v: nat :| u in startNodes.value && CfpqAnswer(cfg, g, u, v);
      assert (u, cfg.start, v) in newEdges;
    }
  }
}
