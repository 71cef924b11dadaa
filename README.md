# Graph path queries over automata and grammars, modelled in Dafny

This project models the query engines of a formal-languages course project.
A labelled directed graph is queried for the pairs of nodes that a path joins
when the path's word belongs to a language. The language is given in one of
three ways:

* **A regular expression, via its automaton.** The engines are a tensor
  product of the two automata's boolean adjacency matrices followed by
  transitive closure, and a multiple-source breadth-first search on the
  matrices.
* **A context-free grammar in weak Chomsky normal form.** The engines are
  Hellings' worklist algorithm and a fixpoint over one boolean matrix per
  nonterminal.
* **A recursive state machine, one automaton box per nonterminal.** The
  engine is the tensor-based fixpoint.

The model is split into modules:

* **`Common`**: options, results with Python's errors, and helpers on
  sequences.
* **`BoolMatrix`**: a sparse boolean matrix as the set of its true entries.
  - product, transpose and union;
  - Kronecker product and the numbering of index pairs;
  - reachability and walks, with the facts that link them.
* **`FiniteAutomata`**:
  - automata, graphs and the walks of each;
  - `graph_to_nfa`;
  - the networkx view of an automaton.
* **`AdjacencyFA`**: the `AdjacencyMatrixFA` class and its operations, and
  `intersect_automata`.
  - The constructor fills one matrix per symbol.
  - `accepts` is a stack search with its `IndexError` and `KeyError`
    outcomes.
  - `transitive_closure` is Warshall's algorithm on an `array2`.
  - `is_empty` is answered from the closure.
* **`TensorRpq`** and **`MsBfsRpq`**: the two regular path queries, and
  `create_bool_vector`.
* **`Grammar`**: productions, derivation trees over a graph, and what
  "derivable" means.
* **`HellingsCfpq`** and **`MatrixCfpq`**: the two grammar-based engines.
* **`TensorCfpq`**: the recursive state machine engine as written.
  - `rsm_to_nfa`, `update_matrices` and `tensor_based_cfpq`;
  - the pass that promotes closure entries into new edges, with the
    line-90 guard as written and corrected (see Findings).
* **`IntendedTensorCfpq`**: the same engine with the promotion step the
  algorithm means (see Findings). A closure entry from a start state to a
  final state of one box adds an edge named with that box's nonterminal.

Each engine is a method proved against a declarative answer. The answers are:

* some word labels a graph walk and is accepted by the expression's automaton;
* some derivation tree of the grammar derives the fact between two nodes;
* for the recursive state machine engine as written: an edge named with the
  start nonterminal joins the two nodes in the graph itself. Its promoted
  edges are keyed by machine states, and the answer never reads them;
* for the corrected recursive state machine engine: an edge named with the
  start nonterminal joins the two nodes in the least extension of the graph's
  edges that is closed under the boxes.

Lemmas relate the matrix forms to these answers. Examples:

* a walk along the label matrices is a walk of the automaton;
* the Kronecker product reads exactly the words both factors read;
* the closure is reachability, and reachability is "some word";
* the breadth-first search and the tensor product agree when their inputs
  admit the same answer.

## Model

| member | source | states |
|---|---|---|
| FiniteAutomata.GraphToNfa | project/task2.py:18-39 | one transition per graph edge, in edge order, labelled by the edge's label or the empty symbol; start and final states are the given sets or, when missing or empty, every node; the states are exactly the edges' ends plus start and final states |
| FiniteAutomata.AddEdges | project/task2.py:25-27 | the transitions added for the edges, one per edge, and the repetition-free list of the states they mention |
| FiniteAutomata.AddStates | project/task2.py:31-37 | adding start or final states keeps the state list free of repetitions and adds exactly the given states |
| FiniteAutomata.AddState | project/task2.py:27 | adding a state adds exactly that state and keeps the list free of repetitions |
| FiniteAutomata.GraphNfaWalk | project/task2.py:25-27 | the automaton built from a graph reads a word between two states exactly when the word labels a walk of the graph between those nodes |
| FiniteAutomata.NetworkxRealEdges | project/task8.py:37 | every edge of an automaton's networkx view between two genuine states is a labelled transition of the automaton |
| FiniteAutomata.NetworkxTransition | project/task8.py:37 | every transition of the automaton appears in its networkx view |
| AdjacencyFA.StateIndex | project/task3.py:22-23 | the i-th listed state gets number i, and every numbered state is listed at its number |
| AdjacencyFA.StateIndexOneToOne | project/task3.py:22 | different states get different numbers |
| AdjacencyFA.IndexToState | project/task4.py:34 | the inverse numbering has exactly the used numbers as keys and maps each back to its state |
| AdjacencyFA.LabelMatrices | project/task3.py:26-35 | the matrix of a symbol holds (i, j) exactly when a transition on that symbol goes from state number i to state number j |
| AdjacencyFA.AdjacencyMatrixFA.constructor | project/task3.py:11-38 | the object holds the state numbering, the state count, the alphabet, one matrix per symbol as above and the numbers of the start and final states |
| AdjacencyFA.AdjacencyMatrixFA.Empty | project/task3.py:11-20 | built without an automaton: no states, no matrices, no start or final states |
| AdjacencyFA.FillMatrices | project/task3.py:26-35 | starting from an empty matrix per symbol and setting one entry per edge of the networkx view (start markers skipped) gives exactly the matrices of the automaton |
| AdjacencyFA.MatrixWalkIffNfaWalk | project/task3.py:26-35 | a word leads from p to q along the matrices exactly when the automaton reads it from p to q |
| AdjacencyFA.NfaLanguage | project/task3.py:22-38 | the matrix form accepts exactly the words the automaton accepts |
| AdjacencyFA.AdjacencyMatrixFA.Accepts | project/task3.py:40-61 | an `Ok` answer is true exactly when some start state reads the word to a final state; the only errors are `IndexError` and `KeyError`; `IndexError` only when some run reads the whole word into a non-final state; `KeyError` only when some run reaches a symbol without a matrix; `Ok(false)` only when no run gets stuck either way |
| AdjacencyFA.Search | project/task3.py:40-61 | the stack search behind `accepts`: its outcome explains the word as `Accepts` states it |
| AdjacencyFA.Expand | project/task3.py:46-58 | one popped configuration: accepted, an error explained as above, or its successors pushed with the search invariants kept and the stack's weight lower |
| AdjacencyFA.ErrorStep | project/task3.py:46-58 | replacing a popped configuration by its successors keeps every run that gets stuck on the stack |
| AdjacencyFA.FailsOnward | project/task3.py:54-58 | a configuration that is not stuck itself but whose run gets stuck has a successor whose run gets stuck |
| AdjacencyFA.PushSuccessors | project/task3.py:54-58 | pushes one configuration per successor state on the next symbol, or reports `KeyError` when that symbol has no matrix |
| AdjacencyFA.SearchStep | project/task3.py:46-58 | one step keeps the search invariant: the stacked configurations are exactly what remains to try |
| AdjacencyFA.AdjacencyMatrixFA.TransitiveClosure | project/task3.py:74-100 | a fresh square array whose (i, j) entry is true exactly when j is reachable from i in the union of all symbol matrices (the diagonal included) |
| AdjacencyFA.WarshallPass | project/task3.py:92-98 | one pass of the triple loop keeps exactly the paths whose inner nodes lie below the pass number |
| AdjacencyFA.AddMatrices | project/task3.py:88-89 | the reachability matrix gains exactly the entries of every symbol's matrix |
| AdjacencyFA.AdjacencyMatrixFA.IsEmpty | project/task3.py:63-72 | true exactly when the automaton accepts no word at all |
| AdjacencyFA.IntersectAutomata | project/task3.py:104-158 | the product object: state count is the product of the counts, matrices are the Kronecker products of the shared symbols, states, start and final states are the numbered pairs, alphabet is the union |
| AdjacencyFA.PairStatesValues | project/task3.py:130-138 | the numbers given to pairs of states are exactly 0 up to the product's state count |
| AdjacencyFA.IntersectionLanguage | project/task3.py:104-158 | the product accepts exactly the words that both automata accept |
| BoolMatrix.KronWalk | project/task3.py:120-128 | the product reads w from pair (a, b) to pair (a', b') exactly when the first factor reads it from a to a' and the second from b to b' |
| BoolMatrix.KronMap | project/task3.py:120-128 | the Kronecker products are keyed by exactly the symbols both factors have |
| BoolMatrix.ReachableIffWalk | project/task3.py:74-100 | reachability in the union of the symbol matrices means some word leads there |
| BoolMatrix.ClosureIdempotent | project/task3.py:74-100 | closing a closure adds nothing |
| BoolMatrix.PairIndexInjective | project/task3.py:130-134 | the numbering of index pairs by i * n + j is one-to-one when j is below n |
| BoolMatrix.MulIsProduct | project/task3.py:130-134 | the repeated-addition product used for pair numbers equals multiplication |
| TensorRpq.TensorBasedRpq | project/task3.py:161-192 | (s, f) is answered exactly when s is a given start node, f a given final node and some word accepted by the expression's automaton labels a graph walk from s to f |
| TensorRpq.ClosureOfProduct | project/task3.py:164-180 | the closure of the product of the two automata, with the product's numbering and the expression's start and final states read back |
| TensorRpq.CollectPairs | project/task3.py:182-192 | the pairs of given nodes that the closure links from some expression start to some expression final |
| TensorRpq.LinkedPair | project/task3.py:188-191 | one closure entry between numbered pairs holds exactly when a common word leads between them |
| TensorRpq.AllLinkedPairs | project/task3.py:182-191 | the same, for every pair of expression states at once |
| TensorRpq.LinkedAnswer | project/task3.py:182-192 | a closure link from an expression start to an expression final is exactly the answer of the query |
| MsBfsRpq.CreateBoolVector | project/task4.py:8-12 | a fresh array of the given size, true exactly at the given indexes; an `IndexError` exactly when an index is out of range |
| MsBfsRpq.StartFront | project/task4.py:37-44 | block j of the first front has exactly the entry (start state of the expression, j-th start node) |
| MsBfsRpq.TransposeAll | project/task4.py:53-56 | every matrix transposed, under the same symbol |
| MsBfsRpq.TransformBlocks | project/task4.py:65-69 | each k-row block of the front multiplied by the transposed expression matrix |
| MsBfsRpq.UpdateFront | project/task4.py:61-76 | block j of the next front holds (q', v) exactly when some shared symbol moves an entry of block j to expression state q' and graph node v |
| MsBfsRpq.Explore | project/task4.py:79-86 | when the front is empty, block j of the visited matrix holds (q, v) exactly when some word leads the expression from its start to q and labels a graph walk from the j-th start node to v |
| MsBfsRpq.RowAnswers | project/task4.py:99-113 | the answers of one start node: its node paired with every final node whose column the block reached in a final expression state |
| MsBfsRpq.CollectAnswers | project/task4.py:88-113 | the answers of all blocks |
| MsBfsRpq.SearchFrom | project/task4.py:19-113 | the search and extraction, from the expression's first start state |
| MsBfsRpq.MsBfsBasedRpq | project/task4.py:15-115 | `IndexError` exactly when the expression's automaton has no start state; otherwise (s, t) is answered exactly when s is a start node and t a final node (all nodes when none are given) and some word labels a graph walk from s to t and leads the expression from its start state to a final state |
| MsBfsRpq.BfsAgreesWithTensor | project/task4.py:15-115 | with a single start state and non-empty node sets, the search answers exactly what the tensor-product query answers |
| Grammar.LabelledEdges | project/task6.py:33-35 | the labelled edges of the graph, as (source, terminal, target) |
| HellingsCfpq.BuildTables | project/task6.py:24-31 | the two lookup tables: the heads of each terminal production and of each binary production |
| HellingsCfpq.Seeds | project/task6.py:37-42 | the first facts: u -A-> v for a labelled edge whose terminal A produces, and v -A-> v for every node and nullable A |
| HellingsCfpq.Combine | project/task6.py:46-53 | the facts two facts that meet at a node derive through a binary production |
| HellingsCfpq.UpdateQueue | project/task6.py:46-56 | every combined fact not yet known is added to the buffer and appended to the queue, and nothing else |
| HellingsCfpq.Pass | project/task6.py:58-64 | one loop iteration keeps the loop invariant (every known fact is derivable; facts not on the queue are closed under combination), and either grows the facts or shortens the queue |
| HellingsCfpq.Saturate | project/task6.py:37-64 | when the queue is empty, the known facts are exactly the facts derivable in the grammar over the graph |
| HellingsCfpq.Complete | project/task6.py:58-64 | facts that contain the seeds and are closed under combination contain every derivable fact |
| HellingsCfpq.Answer | project/task6.py:66-71 | the pairs of start-symbol facts from a start node to a final node; a `TypeError` exactly when a missing node set is consulted |
| HellingsCfpq.HellingsBasedCfpq | project/task6.py:16-71 | (u, v) is answered exactly when u is a start node, v a final node and some path from u to v spells a word of the grammar; the only error is `TypeError`, raised exactly when a missing node set would be consulted |
| MatrixCfpq.TruthyEdges | project/task7.py:22-24 | the edges whose label is present and non-empty |
| MatrixCfpq.AddTerminalEntries | project/task7.py:25-34 | one edge adds its entry to the matrix of every head of a terminal production with the edge's label |
| MatrixCfpq.TerminalMatrices | project/task7.py:21-34 | the initial entries are exactly the edge entries of terminal productions |
| MatrixCfpq.NullableDiagonal | project/task7.py:36-43 | adds exactly the diagonal entries of the nullable nonterminals |
| MatrixCfpq.InitialMatrices | project/task7.py:15-43 | the initial matrices hold exactly the leaf facts |
| MatrixCfpq.AddEntries | project/task7.py:63-68 | the head's matrix gains the new product entries, and the flag is set exactly when one was missing |
| MatrixCfpq.ApplyProduction | project/task7.py:49-68 | a binary production adds exactly the joins of its two body matrices, and reports whether anything changed |
| MatrixCfpq.Pass | project/task7.py:47-68 | a pass keeps every entry derivable and only grows the matrices; when nothing was added, the matrices are closed under every production |
| MatrixCfpq.Complete | project/task7.py:46-68 | matrices that hold the leaves and are closed under every production hold the fact of every derivation tree |
| MatrixCfpq.Saturate | project/task7.py:15-68 | after the fixpoint, the matrices hold exactly the derivable facts, at the nodes' indices |
| MatrixCfpq.CollectPairs | project/task7.py:70-83 | the start symbol's entries translated back to nodes, kept when a start node set is missing or empty or contains the source, and likewise for the target |
| MatrixCfpq.MatrixBasedCfpq | project/task7.py:8-83 | (u, v) is answered exactly when the optional node sets admit u and v and some path from u to v, over edges with non-empty labels, spells a word of the grammar |
| MatrixCfpq.TruthyEdgesAll | project/task7.py:22-24 | on a graph without empty labels, this engine and the Hellings engine read the same edges |
| TensorCfpq.RsmToNfa | project/task8.py:21-48 | the flattened automaton has exactly these transitions: the box-tagged transitions of every automaton box, kept when their label is non-empty. Its start and final states are those of the boxes, tagged |
| TensorCfpq.BoxEdges | project/task8.py:37-39 | the transitions one box contributes: its labelled networkx edges, tagged with the box's nonterminal |
| TensorCfpq.StaysInBox | project/task8.py:26-39 | a walk of the flattened machine never leaves the box it starts in |
| TensorCfpq.BoxWalk | project/task8.py:26-39 | every walk of a box over kept labels is a walk of the flattened machine |
| TensorCfpq.Merge | project/task8.py:59-65 | the merged matrices have the union of the symbols, and each entry is in either matrix |
| TensorCfpq.MergeInto | project/task8.py:59-65 | the symbol-by-symbol merge loop gives exactly the merged matrices |
| TensorCfpq.UpdateMatrices | project/task8.py:51-67 | a fresh object with the old states, numbering, start and final states, no alphabet, and the old matrices merged with the new ones |
| TensorCfpq.PromotableMeaning | project/task8.py:83-121 | a closure entry is promotable into a new edge a -q-> b exactly when the edge is missing, q is a start and final machine state, and some word labels a graph walk from a to b and a machine walk from q back to q |
| TensorCfpq.ClosedUnderCommonWords | project/task8.py:82-126 | with nothing left to promote, every such common word has its edge |
| TensorCfpq.ConsiderPair | project/task8.py:93-121 | one closure entry: the new edge is recorded exactly when the entry is promotable |
| TensorCfpq.Promote | project/task8.py:86-121 | the edges recorded by one pass are exactly the promotable ones, each under a machine state |
| TensorCfpq.Saturate | project/task8.py:82-126 | at the end, the graph's states and numbering are kept, its matrices only grow (by state-labelled edges), and no edge is promotable |
| TensorCfpq.GrowthStep | project/task8.py:123-126 | one update grows the number of entries and stays within the bound that makes the loop terminate |
| TensorCfpq.ExtractPairs | project/task8.py:128-145 | the (start, final) pairs whose numbers the initial label's matrix links; nothing when that label has no matrix |
| TensorCfpq.TermMatrixKept | project/task8.py:113-126 | growing the matrices by state-labelled edges leaves every terminal's matrix as it was |
| TensorCfpq.DirectEntry | project/task8.py:128-143 | the initial label's matrix built from the graph links s and f exactly when an edge with that label does |
| TensorCfpq.TensorBasedCfpq | project/task8.py:70-145 | (s, f) is answered exactly when s and f are start and final nodes (all nodes when none are given) and an edge labelled with the start nonterminal's name joins them |
| IntendedTensorCfpq.CorrectedTensorCfpq | project/task8.py:70-145 | (s, f) is answered exactly when s and f are start and final nodes (all nodes when none are given) and the edge s -S-> f for the start nonterminal S lies in every set of edges that holds the graph's edges and is closed under the boxes |
| IntendedTensorCfpq.SaturateSpans | project/task8.py:82-126 | the graph's states, numbering, start and final states are kept; the matrices cover the original ones; they are closed under the machine; and they lie inside every closed family that covers the original ones |
| IntendedTensorCfpq.PromoteSpans | project/task8.py:86-121 | every recorded matrix is keyed by a nonterminal name; a -S-> b is recorded exactly when some closure entry joins (a, a start state of S's box) to (b, a final state of that box) and the graph lacks that edge |
| IntendedTensorCfpq.ScanRow | project/task8.py:89-121 | the pass over one row of the closure keeps the pass's soundness and extends its completeness to the next row |
| IntendedTensorCfpq.ConsiderSpan | project/task8.py:93-121 | one closure entry adds exactly its edge when the two machine states lie in one box, the first a start and the second a final state, and the graph lacks the edge; otherwise nothing changes |
| IntendedTensorCfpq.SpansMeaning | project/task8.py:83-84 | a closure entry spans a box exactly when some word is read by the graph's matrices from a to b and by the box from a start to a final state, and the edge is missing |
| IntendedTensorCfpq.ClosedWhenNoSpans | project/task8.py:123-124 | when no closure entry spans a box, the matrices are closed under the machine |
| IntendedTensorCfpq.EmptyPassClosed | project/task8.py:123-124 | a complete pass that records nothing leaves the matrices closed |
| IntendedTensorCfpq.SpanGrowth | project/task8.py:123-126 | merging a non-empty sound pass adds entries, stays within the bound that ends the loop, and stays inside every closed cover of the original matrices |
| IntendedTensorCfpq.DecodeWalk | project/task3.py:22-35 | under a one-to-one numbering, the matrices read a word between two numbers exactly when the decoded edges read it between the nodes so numbered |
| IntendedTensorCfpq.EncodeWalk | project/task3.py:22-35 | a word the encoded matrices read between two numbers is read by the edges between the nodes so numbered |
| IntendedTensorCfpq.NfaWalkIsMachineWalk | project/task8.py:26-39 | the flattened automaton reads a word between two tagged states exactly when the boxes' transitions do |
| IntendedTensorCfpq.AnswerDerived | project/task8.py:128-143 | in the least closed cover of the graph automaton's matrices, a label's matrix links s and f exactly when the edge s -l-> f is derived from the graph's edges |
| IntendedTensorCfpq.PathWithoutEdge | project/task8.py:106-131 | for the grammar S -> a as one box over the graph 0 -a-> 1, no edge named S joins 0 and 1, yet the edge 0 -S-> 1 is derived |
| TensorCfpq.PromoteAsWritten | project/task8.py:89-91 | the guard as written skips every closure entry, so the pass records nothing |
| TensorCfpq.GuardSkipsPromotable | project/task8.py:89-91 | there is a machine and a graph where entry (0, 0) of the product is promotable into an edge, yet 0 is not a key of the product's numbering, so the guard skips it |

## Left out

- `regex_to_dfa` and the regular-expression parser are not modelled. The expression's automaton is an input.
- Grammar normalisation is not modelled: `cfg_to_weak_normal_form` and the grammar library's nullable computation. The grammar is taken in weak Chomsky normal form, with its nullable nonterminals given.
- `cfg_to_rsm` and `ebnf_to_rsm` are not modelled. The boxes of the recursive state machine are an input.
- Box symbols are modelled as terminal names. A box label that is a nonterminal's name becomes a `Term` of the same text, which is how the flattened automaton compares it.
- Boxes are taken without epsilon transitions: every box transition carries a symbol. How pyformlang's `Epsilon` label fares under the `if label:` test of `rsm_to_nfa` is not modelled.
- Sparse matrix formats are not modelled: CSR, COO and their `nonzero` order. A matrix is the set of its true entries.
- Shape and type errors that scipy raises on mismatched matrices are not modelled.
- The iteration order of Python sets and dicts is not modelled. Every loop over one is modelled as picking any remaining element.
- MatrixCfpq.MatrixBasedCfpq: requires the grammar in weak normal form, as the engine receives it after normalisation. It also matches productions by the names of their body symbols, as the code does.
- HellingsCfpq.HellingsBasedCfpq: when the node sets are `None`, only the `TypeError` raised by the answer's membership test is modelled, not the exception's message.
- MsBfsRpq.MsBfsBasedRpq: the result is stated for the expression's first start state. That is any of them, since the order of the start set is not modelled.
- TensorCfpq.TensorBasedCfpq: proved with the line-90 guard corrected, so that every closure index numbers a pair of states. Promotion keyed by machine states is kept as written.
- IntendedTensorCfpq.CorrectedTensorCfpq: closure under the boxes is asked only between the nodes of the graph's automaton (edge ends, start and final nodes), the only nodes the matrices number. A node outside them touches no edge and is not answered.
- TensorCfpq.UpdateMatrices: the new object's alphabet is empty, as the code leaves it. Nothing later reads it.
- A graph node without a number is not modelled in `tensor_based_cfpq`'s pass, since every graph state has a number there.
- Dataset loading and graph generation (`task1.py`) and the ANTLR grammar front end (`task11.py`) are not part of this model.

## Findings

| source | as written | input that shows it | evidently intended | confidence | as-written member | corrected member |
|---|---|---|---|---|---|---|
| project/task8.py:106-113 | a spanning closure entry becomes an edge keyed by the machine state itself (the comment on line 113 expects a transition symbol), and only when that one state is both start and final. The answer reads only the start nonterminal's matrix (lines 128-131), so no promoted edge ever reaches it | the grammar S -> a as one box, states 0 and 1, over the graph 0 -a-> 1 | an entry from a start state to a final state of the same box records an edge named with the box's nonterminal, so that (0, 1) is answered | not executed | TensorCfpq.TensorBasedCfpq, TensorCfpq.TermMatrixKept, IntendedTensorCfpq.PathWithoutEdge | IntendedTensorCfpq.CorrectedTensorCfpq |
| project/task8.py:90 | the closure's integer row and column indices are tested for membership in the product's state numbering, a dict keyed by pairs of states. Every entry is skipped, the pass records no edge and the loop stops after one pass | a machine with one box `S` whose only state 0 is both start and final, over a graph with one node 0 and no edges: closure entry (0, 0) numbers the pair (0, ("S", 0)) | decode each index through the product's numbering, so that entry (0, 0) records the edge 0 -("S", 0)-> 0 | not executed | TensorCfpq.PromoteAsWritten, TensorCfpq.GuardSkipsPromotable | TensorCfpq.Promote |
