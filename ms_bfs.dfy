/**
 * Regular path queries by multiple-source breadth-first search
 * (`ms_bfs_based_rpq`). The front is a boolean matrix with one block of k
 * rows per start node of the graph (k the number of states of the
 * expression's automaton) and one column per graph state: entry
 * (j * k + q, v) says that the search from the j-th start node has reached
 * expression state q together with graph state v.
 */
module MsBfsRpq {
  import opened Common
  import opened BoolMatrix
  import opened FiniteAutomata
  import opened AdjacencyFA
  import opened TensorRpq

  // ---------------------------------------------------------------------------
  // Boolean vectors
  // ---------------------------------------------------------------------------

  /**
   * A vector of the given size, true exactly at the given indexes; an index
   * outside the vector is an IndexError.
   */
  method CreateBoolVector(size: nat, trueIndexes: set<nat>) returns (r: Result<array<bool>>)
    ensures r.Ok? <==> forall i :: i in trueIndexes ==> i < size
    ensures r.Ok? ==> fresh(r.value) && r.value.Length == size
    ensures r.Ok? ==> forall i :: 0 <= i < size ==> (r.value[i] <==> i in trueIndexes)
  {
    var vector := new bool[size](_ => false);
    var pending := trueIndexes;
    while pending != {}
      invariant pending <= trueIndexes
      invariant forall i :: i in trueIndexes && i !in pending ==> i < size
      invariant forall i :: 0 <= i < size ==> (vector[i] <==> i in trueIndexes && i !in pending)
      decreases pending
    {
      var x :| x in pending;
      if x >= size {
        return Err(IndexError);
      }
      vector[x] := true;
      pending := pending - {x};
    }
    return Ok(vector);
  }

  // ---------------------------------------------------------------------------
  // Block layout of the front
  // ---------------------------------------------------------------------------

  /** Every entry of X is inside a rows x cols matrix. */
  ghost predicate Shaped(X: Matrix, rows: nat, cols: nat) {
    forall p :: p in X ==> p.0 < rows && p.1 < cols
  }

  /** Every row of a front with m blocks of k rows is row q of block j. */
  lemma RowSplit(r: nat, m: nat, k: nat) returns (j: nat, q: nat)
    requires r < Mul(m, k)
    ensures j < m && q < k && r == PairIndex(j, q, k)
  {
    PairIndexSurjective(r, m, k);
    j, q := r / k, r % k;
  }

  /** Row q of block j lies in the rows ind * k .. (ind + 1) * k exactly when j is ind. */
  lemma BlockRows(j: nat, q: nat, ind: nat, k: nat)
    requires q < k
    ensures Mul(ind, k) <= PairIndex(j, q, k) < Mul(ind, k) + k <==> j == ind
  {
    if j < ind {
      MulMonotone(j + 1, ind, k);
    } else if j > ind {
      MulMonotone(ind + 1, j, k);
    }
  }

  /** How far row r lies past row base. */
  function Offset(r: nat, base: nat): (d: nat)
    requires base <= r
    ensures base + d == r
  {
    r - base
  }

  /** The rows ind * k .. (ind + 1) * k of X, as a matrix of k rows. */
  function Block(X: Matrix, ind: nat, k: nat): (B: Matrix)
    ensures forall q: nat, v: nat :: (q, v) in B <==> q < k && (PairIndex(ind, q, k), v) in X
  {
    var B := set p | p in X && Mul(ind, k) <= p.0 < Mul(ind, k) + k :: (Offset(p.0, Mul(ind, k)), p.1);
    assert forall q: nat, v: nat :: q < k && (PairIndex(ind, q, k), v) in X ==> (q, v) in B by {
      forall q: nat, v: nat | q < k && (PairIndex(ind, q, k), v) in X ensures (q, v) in B {
        var p := (PairIndex(ind, q, k), v);
        assert (Offset(p.0, Mul(ind, k)), p.1) == (q, v);
      }
    }
    B
  }

  /** X with its rows ind * k .. (ind + 1) * k replaced by the k-row matrix B. */
  function WithBlock(X: Matrix, ind: nat, k: nat, B: Matrix): (Y: Matrix)
    requires forall b :: b in B ==> b.0 < k
    ensures forall r: nat, v: nat :: (r, v) in Y <==>
      if Mul(ind, k) <= r < Mul(ind, k) + k then (Offset(r, Mul(ind, k)), v) in B else (r, v) in X
  {
    var Y := (set p | p in X && !(Mul(ind, k) <= p.0 < Mul(ind, k) + k))
      + (set b | b in B :: (PairIndex(ind, b.0, k), b.1));
    assert forall r: nat, v: nat :: Mul(ind, k) <= r < Mul(ind, k) + k && (Offset(r, Mul(ind, k)), v) in B ==> (r, v) in Y by {
      forall r: nat, v: nat | Mul(ind, k) <= r < Mul(ind, k) + k && (Offset(r, Mul(ind, k)), v) in B ensures (r, v) in Y {
        var b := (Offset(r, Mul(ind, k)), v);
        assert (PairIndex(ind, b.0, k), b.1) == (r, v);
      }
    }
    Y
  }

  // ---------------------------------------------------------------------------
  // One step of the search
  // ---------------------------------------------------------------------------

  /**
   * Row q' of block j of the transformed matrix: some row q of block j of P
   * has the entry, and the transposed expression matrix T has (q', q).
   */
  ghost predicate BlockStep(P: Matrix, T: Matrix, k: nat, j: nat, q': nat, v: nat) {
    exists q: nat :: q < k && (q', q) in T && (PairIndex(j, q, k), v) in P
  }

  /** The blocks before ind have been multiplied by T; the others are still those of P. */
  ghost predicate Transformed(X: Matrix, P: Matrix, T: Matrix, k: nat, m: nat, ind: nat) {
    forall j: nat, q: nat, v: nat :: j < m && q < k ==>
      ((PairIndex(j, q, k), v) in X <==> if j < ind then BlockStep(P, T, k, j, q, v) else (PairIndex(j, q, k), v) in P)
  }

  /**
   * Each block of P multiplied on the left by the transposed expression
   * matrix T: the expression moves one step inside every search at once.
   */
  method TransformBlocks(P: Matrix, T: Matrix, k: nat, m: nat, n: nat) returns (X: Matrix)
    requires Square(T, k) && Shaped(P, Mul(m, k), n)
    ensures Shaped(X, Mul(m, k), n)
    ensures forall j: nat, q: nat, v: nat :: j < m && q < k ==> ((PairIndex(j, q, k), v) in X <==> BlockStep(P, T, k, j, q, v))
  {
    X := P;
    for ind := 0 to m
      invariant Shaped(X, Mul(m, k), n)
      invariant Transformed(X, P, T, k, m, ind)
    {
      TransformStep(X, P, T, k, m, n, ind);
      X := WithBlock(X, ind, k, Product(T, Block(X, ind, k)));
    }
  }

  /** Replacing block ind by T times itself keeps the shape and moves the boundary past ind. */
  lemma TransformStep(X: Matrix, P: Matrix, T: Matrix, k: nat, m: nat, n: nat, ind: nat)
    requires Square(T, k) && ind < m
    requires Shaped(X, Mul(m, k), n) && Transformed(X, P, T, k, m, ind)
    ensures forall b :: b in Product(T, Block(X, ind, k)) ==> b.0 < k
    ensures Shaped(WithBlock(X, ind, k, Product(T, Block(X, ind, k))), Mul(m, k), n)
    ensures Transformed(WithBlock(X, ind, k, Product(T, Block(X, ind, k))), P, T, k, m, ind + 1)
  {
    StepShaped(X, T, k, m, n, ind);
    var Y := WithBlock(X, ind, k, Product(T, Block(X, ind, k)));
    forall j: nat, q: nat, v: nat | j < m && q < k
      ensures (PairIndex(j, q, k), v) in Y <==> if j < ind + 1 then BlockStep(P, T, k, j, q, v) else (PairIndex(j, q, k), v) in P
    {
      BlockRows(j, q, ind, k);
      if j == ind {
        StepEntry(X, P, T, k, m, ind, q, v);
      }
    }
  }

  /** The replaced block stays inside the front's rows and columns. */
  lemma StepShaped(X: Matrix, T: Matrix, k: nat, m: nat, n: nat, ind: nat)
    requires Square(T, k) && ind < m && Shaped(X, Mul(m, k), n)
    ensures forall b :: b in Product(T, Block(X, ind, k)) ==> b.0 < k
    ensures Shaped(WithBlock(X, ind, k, Product(T, Block(X, ind, k))), Mul(m, k), n)
  {
    var B := Product(T, Block(X, ind, k));
    forall b | b in B ensures b.0 < k && b.1 < n {
      var z :| (b.0, z) in T && (z, b.1) in Block(X, ind, k);
      assert (PairIndex(ind, z, k), b.1) in X;
    }
    MulMonotone(ind + 1, m, k);
    WithBlockShaped(X, ind, k, B, Mul(m, k), n);
  }

  /** A block inside the rows and columns, put in place inside them, keeps the matrix inside them. */
  lemma WithBlockShaped(X: Matrix, ind: nat, k: nat, B: Matrix, rows: nat, cols: nat)
    requires Shaped(X, rows, cols) && Mul(ind, k) + k <= rows
    requires forall b :: b in B ==> b.0 < k && b.1 < cols
    ensures Shaped(WithBlock(X, ind, k, B), rows, cols)
  {
    var Y := WithBlock(X, ind, k, B);
    forall p | p in Y ensures p.0 < rows && p.1 < cols {
      if Mul(ind, k) <= p.0 < Mul(ind, k) + k {
        assert (Offset(p.0, Mul(ind, k)), p.1) in B;
      }
    }
  }

  /** Row q of the replaced block ind is row q of T times block ind of P. */
  lemma StepEntry(X: Matrix, P: Matrix, T: Matrix, k: nat, m: nat, ind: nat, q: nat, v: nat)
    requires Square(T, k) && ind < m && q < k && Transformed(X, P, T, k, m, ind)
    requires forall b :: b in Product(T, Block(X, ind, k)) ==> b.0 < k
    ensures (PairIndex(ind, q, k), v) in WithBlock(X, ind, k, Product(T, Block(X, ind, k))) <==> BlockStep(P, T, k, ind, q, v)
  {
    var B := Product(T, Block(X, ind, k));
    assert Offset(PairIndex(ind, q, k), Mul(ind, k)) == q;
    if (q, v) in B {
      var z :| (q, z) in T && (z, v) in Block(X, ind, k);
    }
    if BlockStep(P, T, k, ind, q, v) {
      var z: nat :| z < k && (q, z) in T && (PairIndex(ind, z, k), v) in P;
      assert (z, v) in Block(X, ind, k);
    }
  }

  /** The transposed matrix of every symbol. */
  function TransposeAll(D: map<Label, Matrix>): (DT: map<Label, Matrix>)
    ensures DT.Keys == D.Keys
    ensures forall l, i, j :: l in D ==> ((i, j) in DT[l] <==> (j, i) in D[l])
  {
    map l | l in D :: Transpose(D[l])
  }

  /**
   * One symbol l moves the search of block j to expression state q' and graph
   * state v: some entry (q, u) of the block has (q', q) in the transposed
   * expression matrix T and (u, v) in the graph matrix Gl.
   */
  ghost predicate LabelStep(front: Matrix, T: Matrix, Gl: Matrix, k: nat, j: nat, q': nat, v: nat) {
    exists q: nat, u: nat :: q < k && (q', q) in T && (PairIndex(j, q, k), u) in front && (u, v) in Gl
  }

  /** Some shared symbol moves the search of block j to (q', v). */
  ghost predicate Advance(front: Matrix, labels: set<Label>, DT: map<Label, Matrix>, G: map<Label, Matrix>,
                          k: nat, j: nat, q': nat, v: nat) {
    exists l :: l in labels && l in DT && l in G && LabelStep(front, DT[l], G[l], k, j, q', v)
  }

  /** X is the front moved by one symbol. */
  ghost predicate LabelFront(X: Matrix, front: Matrix, T: Matrix, Gl: Matrix, k: nat, m: nat, n: nat) {
    && Shaped(X, Mul(m, k), n)
    && forall j: nat, q': nat, v: nat :: j < m && q' < k ==>
         ((PairIndex(j, q', k), v) in X <==> LabelStep(front, T, Gl, k, j, q', v))
  }

  /**
   * The next front: for every symbol shared by the expression and the graph,
   * the front times the graph's matrix, each block then multiplied by the
   * transposed expression matrix; the results are added up.
   */
  method UpdateFront(front: Matrix, labels: set<Label>, DT: map<Label, Matrix>, G: map<Label, Matrix>, k: nat, m: nat, n: nat)
    returns (newFront: Matrix)
    requires labels <= DT.Keys && labels <= G.Keys
    requires AllSquare(DT, k) && AllSquare(G, n) && Shaped(front, Mul(m, k), n)
    ensures Shaped(newFront, Mul(m, k), n)
    ensures forall j: nat, q': nat, v: nat :: j < m && q' < k ==>
      ((PairIndex(j, q', k), v) in newFront <==> Advance(front, labels, DT, G, k, j, q', v))
  {
    var decomposed: map<Label, Matrix> := map[];
    var pending := labels;
    while pending != {}
      invariant pending <= labels
      invariant decomposed.Keys == labels - pending
      invariant forall l :: l in decomposed ==> LabelFront(decomposed[l], front, DT[l], G[l], k, m, n)
      decreases pending
    {
      var l :| l in pending;
      var P := Product(front, G[l]);
      ProductShaped(front, G[l], Mul(m, k), n);
      var X := TransformBlocks(P, DT[l], k, m, n);
      LabelFrontHolds(X, front, DT[l], G[l], k, m, n);
      decomposed := decomposed[l := X];
      pending := pending - {l};
    }
    newFront := {};
    var rest := decomposed.Keys;
    while rest != {}
      invariant rest <= decomposed.Keys
      invariant forall p :: p in newFront <==> exists l :: l in decomposed && l !in rest && p in decomposed[l]
      decreases rest
    {
      var l :| l in rest;
      newFront := newFront + decomposed[l];
      rest := rest - {l};
    }
    SumOfFronts(newFront, decomposed, front, labels, DT, G, k, m, n);
  }

  /** The front times a graph matrix keeps the front's rows and columns. */
  lemma ProductShaped(front: Matrix, Gl: Matrix, rows: nat, n: nat)
    requires Shaped(front, rows, n) && Square(Gl, n)
    ensures Shaped(Product(front, Gl), rows, n)
  {
    forall p | p in Product(front, Gl) ensures p.0 < rows && p.1 < n {
      var u :| (p.0, u) in front && (u, p.1) in Gl;
    }
  }

  /** Multiplying the blocks of front times Gl by T is the one-symbol step. */
  lemma LabelFrontHolds(X: Matrix, front: Matrix, T: Matrix, Gl: Matrix, k: nat, m: nat, n: nat)
    requires Shaped(X, Mul(m, k), n)
    requires forall j: nat, q: nat, v: nat :: j < m && q < k ==>
      ((PairIndex(j, q, k), v) in X <==> BlockStep(Product(front, Gl), T, k, j, q, v))
    ensures LabelFront(X, front, T, Gl, k, m, n)
  {
    forall j: nat, q': nat, v: nat | j < m && q' < k
      ensures BlockStep(Product(front, Gl), T, k, j, q', v) <==> LabelStep(front, T, Gl, k, j, q', v)
    {
      if BlockStep(Product(front, Gl), T, k, j, q', v) {
        var q: nat :| q < k && (q', q) in T && (PairIndex(j, q, k), v) in Product(front, Gl);
        var u :| (PairIndex(j, q, k), u) in front && (u, v) in Gl;
      }
      if LabelStep(front, T, Gl, k, j, q', v) {
        var q: nat, u: nat :| q < k && (q', q) in T && (PairIndex(j, q, k), u) in front && (u, v) in Gl;
        assert (PairIndex(j, q, k), v) in Product(front, Gl);
      }
    }
  }

  /** The sum of the one-symbol fronts over the shared symbols is the next front. */
  lemma SumOfFronts(newFront: Matrix, decomposed: map<Label, Matrix>, front: Matrix, labels: set<Label>,
                    DT: map<Label, Matrix>, G: map<Label, Matrix>, k: nat, m: nat, n: nat)
    requires labels <= DT.Keys && labels <= G.Keys && decomposed.Keys == labels
    requires forall l :: l in decomposed ==> LabelFront(decomposed[l], front, DT[l], G[l], k, m, n)
    requires forall p :: p in newFront <==> exists l :: l in decomposed && p in decomposed[l]
    ensures Shaped(newFront, Mul(m, k), n)
    ensures forall j: nat, q': nat, v: nat :: j < m && q' < k ==>
      ((PairIndex(j, q', k), v) in newFront <==> Advance(front, labels, DT, G, k, j, q', v))
  {
    forall p | p in newFront ensures p.0 < Mul(m, k) && p.1 < n {
      var l :| l in decomposed && p in decomposed[l];
    }
    forall j: nat, q': nat, v: nat | j < m && q' < k
      ensures (PairIndex(j, q', k), v) in newFront <==> Advance(front, labels, DT, G, k, j, q', v)
    {
      if (PairIndex(j, q', k), v) in newFront {
        var l :| l in decomposed && (PairIndex(j, q', k), v) in decomposed[l];
      }
      if Advance(front, labels, DT, G, k, j, q', v) {
        var l :| l in labels && l in DT && l in G && LabelStep(front, DT[l], G[l], k, j, q', v);
        assert (PairIndex(j, q', k), v) in decomposed[l];
      }
    }
  }

  /** The transposed matrices are square when the matrices are. */
  lemma TransposeAllSquare(D: map<Label, Matrix>, k: nat)
    requires AllSquare(D, k)
    ensures AllSquare(TransposeAll(D), k)
  {
    var DT := TransposeAll(D);
    forall l, p: (nat, nat) | l in DT && p in DT[l] ensures p.0 < k && p.1 < k {
      assert (p.1, p.0) in D[l];
    }
  }

  // ---------------------------------------------------------------------------
  // The search
  // ---------------------------------------------------------------------------

  /**
   * The first front: the search from the j-th start node stands at the
   * expression's start state q0 and at that node.
   */
  function StartFront(q0: nat, starts: seq<nat>, k: nat, n: nat): (S: Matrix)
    requires q0 < k && forall j :: 0 <= j < |starts| ==> starts[j] < n
    ensures Shaped(S, Mul(|starts|, k), n)
    ensures forall j: nat, q: nat, v: nat :: j < |starts| && q < k ==>
      ((PairIndex(j, q, k), v) in S <==> q == q0 && v == starts[j])
  {
    var S := set j | 0 <= j < |starts| :: (PairIndex(j, q0, k), starts[j]);
    forall p | p in S ensures p.0 < Mul(|starts|, k) && p.1 < n {
      var j :| 0 <= j < |starts| && p == (PairIndex(j, q0, k), starts[j]);
      PairIndexBound(j, q0, |starts|, k);
    }
    forall j: nat, q: nat, v: nat | j < |starts| && q < k && (PairIndex(j, q, k), v) in S
      ensures q == q0 && v == starts[j]
    {
      var i :| 0 <= i < |starts| && (PairIndex(j, q, k), v) == (PairIndex(i, q0, k), starts[i]);
      PairIndexInjective(j, q, i, q0, k);
    }
    S
  }

  /** Some word takes the expression from q0 to q and labels a graph walk from s to v. */
  ghost predicate Joint(D: map<Label, Matrix>, G: map<Label, Matrix>, q0: nat, s: nat, q: nat, v: nat) {
    exists w :: Walk(D, q0, w, q) && Walk(G, s, w, v)
  }

  /** Every entry of X is reached by its search. */
  ghost predicate Sound(X: Matrix, D: map<Label, Matrix>, G: map<Label, Matrix>, k: nat, q0: nat, starts: seq<nat>) {
    forall j: nat, q: nat, v: nat :: j < |starts| && q < k && (PairIndex(j, q, k), v) in X ==>
      Joint(D, G, q0, starts[j], q, v)
  }

  /** Every entry one step on from an entry of V is in W. */
  ghost predicate Closed(V: Matrix, W: Matrix, labels: set<Label>, DT: map<Label, Matrix>, G: map<Label, Matrix>, k: nat, m: nat) {
    forall j: nat, q': nat, v: nat :: j < m && q' < k && Advance(V, labels, DT, G, k, j, q', v) ==>
      (PairIndex(j, q', k), v) in W
  }

  /** The cells of a rows x cols matrix. */
  function Cells(rows: nat, cols: nat): (C: Matrix)
    ensures forall r: nat, c: nat :: (r, c) in C <==> r < rows && c < cols
  {
    var C := set r: nat, c: nat | r < rows && c < cols :: (r, c);
    assert forall r: nat, c: nat :: r < rows && c < cols ==> (r, c) in C;
    C
  }

  /** The assumptions the search makes of the matrices and of its starting points. */
  ghost predicate SearchInput(D: map<Label, Matrix>, DT: map<Label, Matrix>, G: map<Label, Matrix>, labels: set<Label>,
                              k: nat, n: nat, q0: nat, starts: seq<nat>) {
    && AllSquare(D, k) && AllSquare(G, n)
    && DT == TransposeAll(D) && labels == D.Keys * G.Keys
    && q0 < k && (forall j :: 0 <= j < |starts| ==> starts[j] < n)
  }

  /**
   * The search loop: the front is added to the visited matrix, moved one
   * step, and stripped of what was visited, until it is empty. The visited
   * matrix then holds exactly the (expression state, graph state) pairs
   * that some word reaches from each search's start.
   */
  method Explore(D: map<Label, Matrix>, DT: map<Label, Matrix>, G: map<Label, Matrix>, labels: set<Label>,
                 k: nat, n: nat, q0: nat, starts: seq<nat>) returns (visited: Matrix)
    requires SearchInput(D, DT, G, labels, k, n, q0, starts)
    ensures Shaped(visited, Mul(|starts|, k), n)
    ensures forall j: nat, q: nat, v: nat :: j < |starts| && q < k ==>
      ((PairIndex(j, q, k), v) in visited <==> Joint(D, G, q0, starts[j], q, v))
  {
    var m := |starts|;
    TransposeAllSquare(D, k);
    var front := StartFront(q0, starts, k, n);
    StartSound(D, G, k, n, q0, starts);
    visited := {};
    while front != {}
      invariant Shaped(front, Mul(m, k), n) && Shaped(visited, Mul(m, k), n)
      invariant front !! visited
      invariant Sound(front, D, G, k, q0, starts) && Sound(visited, D, G, k, q0, starts)
      invariant StartFront(q0, starts, k, n) <= visited + front
      invariant Closed(visited, visited + front, labels, DT, G, k, m)
      decreases Cells(Mul(m, k), n) - visited
    {
      CellsShrink(visited, front, Mul(m, k), n);
      var next := UpdateFront(front, labels, DT, G, k, m, n);
      NextSound(front, next, D, DT, G, labels, k, n, q0, starts);
      ClosedStep(visited, front, next, labels, DT, G, k, m, n);
      visited := visited + front;
      front := next - visited;
    }
    forall j: nat, q: nat, v: nat | j < m && q < k && Joint(D, G, q0, starts[j], q, v)
      ensures (PairIndex(j, q, k), v) in visited
    {
      var w :| Walk(D, q0, w, q) && Walk(G, starts[j], w, v);
      Complete(visited, D, DT, G, labels, k, n, q0, starts, j, w, q, v);
    }
  }

  /** The first front is reached by the empty word. */
  lemma StartSound(D: map<Label, Matrix>, G: map<Label, Matrix>, k: nat, n: nat, q0: nat, starts: seq<nat>)
    requires q0 < k && forall j :: 0 <= j < |starts| ==> starts[j] < n
    ensures Sound(StartFront(q0, starts, k, n), D, G, k, q0, starts)
  {
    forall j: nat, q: nat, v: nat | j < |starts| && q < k && (PairIndex(j, q, k), v) in StartFront(q0, starts, k, n)
      ensures Joint(D, G, q0, starts[j], q, v)
    {
      assert Walk(D, q0, [], q) && Walk(G, starts[j], [], v);
    }
  }

  /** A non-empty front outside the visited cells leaves fewer unvisited cells once added. */
  lemma CellsShrink(visited: Matrix, front: Matrix, rows: nat, cols: nat)
    requires front != {} && front !! visited && Shaped(front, rows, cols)
    ensures Cells(rows, cols) - (visited + front) < Cells(rows, cols) - visited
  {
    var p: (nat, nat) :| p in front;
    assert p in Cells(rows, cols) - visited;
  }

  /** One more symbol at the end of a common word. */
  lemma JointStep(D: map<Label, Matrix>, G: map<Label, Matrix>, q0: nat, s: nat, q: nat, u: nat, l: Label, q': nat, v: nat)
    requires Joint(D, G, q0, s, q, u)
    requires l in D && l in G && (q, q') in D[l] && (u, v) in G[l]
    ensures Joint(D, G, q0, s, q', v)
  {
    var w :| Walk(D, q0, w, q) && Walk(G, s, w, u);
    WalkSnoc(D, q0, w, l, q');
    WalkSnoc(G, s, w, l, v);
  }

  /** The next front of a sound front is sound. */
  lemma NextSound(front: Matrix, next: Matrix, D: map<Label, Matrix>, DT: map<Label, Matrix>, G: map<Label, Matrix>,
                  labels: set<Label>, k: nat, n: nat, q0: nat, starts: seq<nat>)
    requires SearchInput(D, DT, G, labels, k, n, q0, starts)
    requires Sound(front, D, G, k, q0, starts)
    requires forall j: nat, q': nat, v: nat :: j < |starts| && q' < k ==>
      ((PairIndex(j, q', k), v) in next <==> Advance(front, labels, DT, G, k, j, q', v))
    ensures Sound(next, D, G, k, q0, starts)
  {
    forall j: nat, q': nat, v: nat | j < |starts| && q' < k && (PairIndex(j, q', k), v) in next
      ensures Joint(D, G, q0, starts[j], q', v)
    {
      var l :| l in labels && l in DT && l in G && LabelStep(front, DT[l], G[l], k, j, q', v);
      var q: nat, u: nat :| q < k && (q', q) in DT[l] && (PairIndex(j, q, k), u) in front && (u, v) in G[l];
      JointStep(D, G, q0, starts[j], q, u, l, q', v);
    }
  }

  /** A step from the visited cells or from the front lands in the new visited cells or the new front. */
  lemma ClosedStep(visited: Matrix, front: Matrix, next: Matrix, labels: set<Label>, DT: map<Label, Matrix>,
                   G: map<Label, Matrix>, k: nat, m: nat, n: nat)
    requires Closed(visited, visited + front, labels, DT, G, k, m)
    requires forall j: nat, q': nat, v: nat :: j < m && q' < k ==>
      ((PairIndex(j, q', k), v) in next <==> Advance(front, labels, DT, G, k, j, q', v))
    ensures Closed(visited + front, visited + front + (next - (visited + front)), labels, DT, G, k, m)
  {
    forall j: nat, q': nat, v: nat | j < m && q' < k && Advance(visited + front, labels, DT, G, k, j, q', v)
      ensures (PairIndex(j, q', k), v) in visited + front + (next - (visited + front))
    {
      var l :| l in labels && l in DT && l in G && LabelStep(visited + front, DT[l], G[l], k, j, q', v);
      var q: nat, u: nat :| q < k && (q', q) in DT[l] && (PairIndex(j, q, k), u) in visited + front && (u, v) in G[l];
      if (PairIndex(j, q, k), u) in visited {
        assert LabelStep(visited, DT[l], G[l], k, j, q', v);
      } else {
        assert LabelStep(front, DT[l], G[l], k, j, q', v);
      }
    }
  }

  /** A closed set of cells holding the first front holds every pair a common word reaches. */
  lemma {:induction false} Complete(visited: Matrix, D: map<Label, Matrix>, DT: map<Label, Matrix>, G: map<Label, Matrix>,
                                    labels: set<Label>, k: nat, n: nat, q0: nat, starts: seq<nat>,
                                    j: nat, w: seq<Label>, q: nat, v: nat)
    requires SearchInput(D, DT, G, labels, k, n, q0, starts)
    requires Closed(visited, visited, labels, DT, G, k, |starts|)
    requires StartFront(q0, starts, k, n) <= visited
    requires j < |starts| && Walk(D, q0, w, q) && Walk(G, starts[j], w, v)
    ensures (PairIndex(j, q, k), v) in visited
    decreases |w|
  {
    if w == [] {
      assert (PairIndex(j, q0, k), starts[j]) in StartFront(q0, starts, k, n);
    } else {
      var init, l := w[..|w| - 1], w[|w| - 1];
      LastSplit(w);
      WalkSnoc(D, q0, init, l, q);
      WalkSnoc(G, starts[j], init, l, v);
      var q1: nat :| Walk(D, q0, init, q1) && (q1, q) in D[l];
      var u: nat :| Walk(G, starts[j], init, u) && (u, v) in G[l];
      Complete(visited, D, DT, G, labels, k, n, q0, starts, j, init, q1, u);
      AdvanceByEdge(visited, D, DT, G, labels, k, j, q1, u, l, q, v);
    }
  }

  /** A non-empty word is its prefix followed by its last letter. */
  lemma LastSplit(w: seq<Label>)
    requires w != []
    ensures w == w[..|w| - 1] + [w[|w| - 1]]
  {
  }

  /** An entry of V and one symbol that both the expression and the graph can read give a step. */
  lemma AdvanceByEdge(V: Matrix, D: map<Label, Matrix>, DT: map<Label, Matrix>, G: map<Label, Matrix>, labels: set<Label>,
                      k: nat, j: nat, q: nat, u: nat, l: Label, q': nat, v: nat)
    requires AllSquare(D, k) && DT == TransposeAll(D) && labels == D.Keys * G.Keys
    requires l in D && l in G && (q, q') in D[l] && (u, v) in G[l] && (PairIndex(j, q, k), u) in V
    ensures q' < k && Advance(V, labels, DT, G, k, j, q', v)
  {
    assert (q', q) in DT[l];
    assert LabelStep(V, DT[l], G[l], k, j, q', v);
  }

  // ---------------------------------------------------------------------------
  // Reading the answer off the visited matrix
  // ---------------------------------------------------------------------------

  /** The columns set in row r of X. */
  function RowOf(X: Matrix, r: nat): (row: set<nat>)
    ensures forall v :: v in row <==> (r, v) in X
  {
    var row := set p | p in X && p.0 == r :: p.1;
    assert forall v :: (r, v) in X ==> v in row by {
      forall v | (r, v) in X ensures v in row {
        var p := (r, v);
        assert p.1 == v;
      }
    }
    row
  }

  /**
   * Adds (s, node of v) for every column v set in both the row vector and
   * the vector of the graph's final states.
   */
  method AddReached(res0: set<(nat, nat)>, s: nat, rowVector: array<bool>, finalVector: array<bool>, n: nat,
                    indexToState: map<nat, nat>) returns (res: set<(nat, nat)>)
    requires rowVector.Length == n && finalVector.Length == n
    requires forall v :: 0 <= v < n ==> v in indexToState
    ensures forall p :: p in res <==>
      p in res0 || exists v :: 0 <= v < n && rowVector[v] && finalVector[v] && p == (s, indexToState[v])
  {
    res := res0;
    for v := 0 to n
      invariant forall p :: p in res <==>
        p in res0 || exists x :: 0 <= x < v && rowVector[x] && finalVector[x] && p == (s, indexToState[x])
    {
      if rowVector[v] && finalVector[v] {
        res := res + {(s, indexToState[v])};
      }
    }
  }

  /** A cell that answers the query: the search of block j reached a final expression state f and final graph column v. */
  ghost predicate Hit(visited: Matrix, k: nat, dfaFinals: set<nat>, finals: set<nat>, j: nat, f: nat, v: nat) {
    f in dfaFinals && v in finals && (PairIndex(j, f, k), v) in visited
  }

  /** The answers of the search of the j-th start node: its node paired with each reached final node. */
  method RowAnswers(res0: set<(nat, nat)>, visited: Matrix, starts: seq<nat>, j: nat, k: nat, n: nat, dfaFinals: set<nat>,
                    finalVector: array<bool>, ghost finals: set<nat>, indexToState: map<nat, nat>) returns (res: set<(nat, nat)>)
    requires j < |starts| && Shaped(visited, Mul(|starts|, k), n)
    requires finalVector.Length == n && forall v :: 0 <= v < n ==> (finalVector[v] <==> v in finals)
    requires starts[j] in indexToState && forall v :: 0 <= v < n ==> v in indexToState
    ensures forall p :: p in res <==>
      p in res0 || exists f: nat, v: nat :: v < n && Hit(visited, k, dfaFinals, finals, j, f, v) && p == (indexToState[starts[j]], indexToState[v])
  {
    var s := indexToState[starts[j]];
    res := res0;
    var pending := dfaFinals;
    while pending != {}
      invariant pending <= dfaFinals
      invariant forall p :: p in res <==>
        p in res0 || exists f: nat, v: nat :: f !in pending && v < n && Hit(visited, k, dfaFinals, finals, j, f, v) && p == (s, indexToState[v])
      decreases pending
    {
      var f :| f in pending;
      var row := RowOf(visited, PairIndex(j, f, k));
      var rowVector := CreateBoolVector(n, row);
      res := AddReached(res, s, rowVector.value, finalVector, n, indexToState);
      pending := pending - {f};
    }
  }

  /** The answers of all the searches, one block of the visited matrix after another. */
  method CollectAnswers(visited: Matrix, starts: seq<nat>, k: nat, n: nat, dfaFinals: set<nat>,
                        finalVector: array<bool>, ghost finals: set<nat>, indexToState: map<nat, nat>) returns (res: set<(nat, nat)>)
    requires Shaped(visited, Mul(|starts|, k), n)
    requires finalVector.Length == n && forall v :: 0 <= v < n ==> (finalVector[v] <==> v in finals)
    requires forall j :: 0 <= j < |starts| ==> starts[j] in indexToState
    requires forall v :: 0 <= v < n ==> v in indexToState
    ensures forall p :: p in res <==> exists j: nat, f: nat, v: nat ::
      j < |starts| && v < n && Hit(visited, k, dfaFinals, finals, j, f, v) && p == (indexToState[starts[j]], indexToState[v])
  {
    res := {};
    for j := 0 to |starts|
      invariant forall p :: p in res <==> exists i: nat, f: nat, v: nat ::
        i < j && v < n && Hit(visited, k, dfaFinals, finals, i, f, v) && p == (indexToState[starts[i]], indexToState[v])
    {
      res := RowAnswers(res, visited, starts, j, k, n, dfaFinals, finalVector, finals, indexToState);
    }
  }

  // ---------------------------------------------------------------------------
  // The query
  // ---------------------------------------------------------------------------

  /**
   * (s, t) answers the query when the expression's automaton is started at
   * r0: s is a start node and t a final node (every node when none are
   * given), and some word read from r0 to a final state of the expression
   * labels a graph walk from s to t.
   */
  ghost predicate BfsAnswer<R>(regex: Nfa<R>, g: Graph, startNodes: set<nat>, finalNodes: set<nat>, r0: R, s: nat, t: nat) {
    && s in OrDefault(Some(startNodes), Elements(g.nodes))
    && t in OrDefault(Some(finalNodes), Elements(g.nodes))
    && exists rf :: rf in regex.final && CommonWord(regex, g, r0, s, rf, t)
  }

  /** res holds exactly the answers of the query with the expression started at r0. */
  ghost predicate AnswersFrom<R>(regex: Nfa<R>, g: Graph, startNodes: set<nat>, finalNodes: set<nat>, r0: R, res: set<(nat, nat)>) {
    forall s: nat, t: nat :: (s, t) in res <==> BfsAnswer(regex, g, startNodes, finalNodes, r0, s, t)
  }

  /**
   * The query. The expression's automaton (a DFA) is searched from its
   * first start state, an IndexError when it has none; all start nodes of
   * the graph are searched at once.
   */
  method MsBfsBasedRpq<R(==)>(regex: Nfa<R>, g: Graph, startNodes: set<nat>, finalNodes: set<nat>)
    returns (result: Result<set<(nat, nat)>>)
    requires ValidNfa(regex)
    ensures result.Err? <==> regex.start == {}
    ensures result.Ok? ==> exists r0 :: r0 in regex.start && AnswersFrom(regex, g, startNodes, finalNodes, r0, result.value)
  {
    var dfaFa := new AdjacencyMatrixFA(regex);
    var graphNfa := GraphToNfa(g, Some(startNodes), Some(finalNodes));
    var nfaFa := new AdjacencyMatrixFA(graphNfa);
    if dfaFa.startStates == {} {
      assert regex.start == {};
      return Err(IndexError);
    }
    var q0 :| q0 in dfaFa.startStates;
    ghost var r0 :| r0 in regex.start && StateIndex(regex.states)[r0] == q0;
    StateIndexOneToOne(graphNfa.states);
    var res, starts, visited := SearchFrom(dfaFa, nfaFa, q0);
    result := Ok(res);
    assert GraphAutomaton(g, graphNfa);
    AnswerTranslation(regex, g, graphNfa, r0, starts, visited, res);
    AnswerOfQuery(regex, g, graphNfa, startNodes, finalNodes, r0, res);
  }

  /** The automaton's start and final states are the given nodes, or all nodes when none are given. */
  lemma AnswerOfQuery<R>(regex: Nfa<R>, g: Graph, gn: Nfa<nat>, startNodes: set<nat>, finalNodes: set<nat>, r0: R,
                         res: set<(nat, nat)>)
    requires gn.start == OrDefault(Some(startNodes), Elements(g.nodes))
    requires gn.final == OrDefault(Some(finalNodes), Elements(g.nodes))
    requires forall s: nat, t: nat :: (s, t) in res <==>
      s in gn.start && t in gn.final && exists rf :: rf in regex.final && CommonWord(regex, g, r0, s, rf, t)
    ensures AnswersFrom(regex, g, startNodes, finalNodes, r0, res)
  {
  }

  /**
   * The search of both automata from the expression's state q0 and the
   * answers read off the visited matrix; with the order the start nodes were
   * searched in and the visited matrix.
   */
  method SearchFrom<R(==)>(dfaFa: AdjacencyMatrixFA<R>, nfaFa: AdjacencyMatrixFA<nat>, q0: nat)
    returns (res: set<(nat, nat)>, ghost starts: seq<nat>, ghost visited: Matrix)
    requires dfaFa.Valid() && nfaFa.Valid() && q0 in dfaFa.startStates
    requires forall x, y :: x in nfaFa.states && y in nfaFa.states && nfaFa.states[x] == nfaFa.states[y] ==> x == y
    ensures Elements(starts) == nfaFa.startStates
    ensures VisitedJoint(visited, dfaFa.matrices, nfaFa.matrices, q0, starts, dfaFa.statesCount)
    ensures Collected(res, visited, starts, dfaFa.statesCount, nfaFa.statesCount, dfaFa.finalStates, nfaFa.finalStates,
                      IndexToState(nfaFa.states))
  {
    var k, n := dfaFa.statesCount, nfaFa.statesCount;
    var startList := Enumerate(nfaFa.startStates);
    var indexToState := IndexToState(nfaFa.states);
    var labels := dfaFa.matrices.Keys * nfaFa.matrices.Keys;
    var DT := TransposeAll(dfaFa.matrices);
    assert forall j :: 0 <= j < |startList| ==> startList[j] in nfaFa.startStates;
    var visitedMatrix := Explore(dfaFa.matrices, DT, nfaFa.matrices, labels, k, n, q0, startList);
    var finalVector := CreateBoolVector(n, nfaFa.finalStates);
    res := CollectAnswers(visitedMatrix, startList, k, n, dfaFa.finalStates, finalVector.value, nfaFa.finalStates, indexToState);
    starts, visited := startList, visitedMatrix;
  }

  /** The visited matrix holds exactly the pairs some common word reaches. */
  ghost predicate VisitedJoint(visited: Matrix, D: map<Label, Matrix>, G: map<Label, Matrix>, q0: nat, starts: seq<nat>, k: nat) {
    forall j: nat, q: nat, v: nat :: j < |starts| && q < k ==>
      ((PairIndex(j, q, k), v) in visited <==> Joint(D, G, q0, starts[j], q, v))
  }

  /** res pairs the node of each search with the final nodes its final cells reached. */
  ghost predicate Collected(res: set<(nat, nat)>, visited: Matrix, starts: seq<nat>, k: nat, n: nat,
                            dfaFinals: set<nat>, finals: set<nat>, indexToState: map<nat, nat>) {
    && (forall j :: 0 <= j < |starts| ==> starts[j] in indexToState)
    && (forall v :: 0 <= v < n ==> v in indexToState)
    && (forall p :: p in res <==> exists j: nat, f: nat, v: nat ::
          j < |starts| && v < n && Hit(visited, k, dfaFinals, finals, j, f, v) && p == (indexToState[starts[j]], indexToState[v]))
  }

  /** What the search leaves, stated of the automaton of the expression and of the graph's automaton. */
  ghost predicate Searched<R>(regex: Nfa<R>, g: Graph, gn: Nfa<nat>, r0: R, starts: seq<nat>, visited: Matrix, res: set<(nat, nat)>) {
    && ValidNfa(regex) && GraphAutomaton(g, gn) && r0 in regex.states
    && Elements(starts) == IndexSet(StateIndex(gn.states), gn.start)
    && VisitedJoint(visited, LabelMatrices(regex), LabelMatrices(gn), StateIndex(regex.states)[r0], starts, |regex.states|)
    && (forall x, y :: x in StateIndex(gn.states) && y in StateIndex(gn.states) && StateIndex(gn.states)[x] == StateIndex(gn.states)[y] ==> x == y)
    && Collected(res, visited, starts, |regex.states|, |gn.states|, IndexSet(StateIndex(regex.states), regex.final),
                 IndexSet(StateIndex(gn.states), gn.final), IndexToState(StateIndex(gn.states)))
  }

  /** The cells read off the visited matrix, back in terms of nodes, states and walks. */
  lemma AnswerTranslation<R>(regex: Nfa<R>, g: Graph, gn: Nfa<nat>, r0: R, starts: seq<nat>, visited: Matrix, res: set<(nat, nat)>)
    requires Searched(regex, g, gn, r0, starts, visited, res)
    ensures forall s: nat, t: nat :: (s, t) in res <==>
      s in gn.start && t in gn.final && exists rf :: rf in regex.final && CommonWord(regex, g, r0, s, rf, t)
  {
    forall s: nat, t: nat ensures (s, t) in res <==>
      s in gn.start && t in gn.final && exists rf :: rf in regex.final && CommonWord(regex, g, r0, s, rf, t)
    {
      if (s, t) in res {
        AnswerSound(regex, g, gn, r0, starts, visited, res, s, t);
      }
      if s in gn.start && t in gn.final && exists rf :: rf in regex.final && CommonWord(regex, g, r0, s, rf, t) {
        var rf :| rf in regex.final && CommonWord(regex, g, r0, s, rf, t);
        AnswerComplete(regex, g, gn, r0, starts, visited, res, s, rf, t);
      }
    }
  }

  /** A pair read off the visited matrix answers the query. */
  lemma AnswerSound<R>(regex: Nfa<R>, g: Graph, gn: Nfa<nat>, r0: R, starts: seq<nat>, visited: Matrix, res: set<(nat, nat)>,
                       s: nat, t: nat)
    requires Searched(regex, g, gn, r0, starts, visited, res) && (s, t) in res
    ensures s in gn.start && t in gn.final && exists rf :: rf in regex.final && CommonWord(regex, g, r0, s, rf, t)
  {
    var idxR: map<R, nat>, idxG: map<nat, nat> := StateIndex(regex.states), StateIndex(gn.states);
    var indexToState: map<nat, nat> := IndexToState(idxG);
    var j: nat, f: nat, v: nat :| j < |starts| && v < |gn.states|
      && Hit(visited, |regex.states|, IndexSet(idxR, regex.final), IndexSet(idxG, gn.final), j, f, v)
      && (s, t) == (indexToState[starts[j]], indexToState[v]);
    assert starts[j] in Elements(starts);
    var x := Preimage(idxG, gn.start, starts[j]);
    var rf := Preimage(idxR, regex.final, f);
    var y := Preimage(idxG, gn.final, v);
    assert x == s && y == t by {
      assert indexToState[idxG[x]] == x && indexToState[idxG[y]] == y;
    }
    VisitedJointAt(visited, LabelMatrices(regex), LabelMatrices(gn), idxR[r0], starts, |regex.states|, j, f, v);
    JointCommon(regex, g, gn, r0, x, rf, y);
  }

  /** The state a number of IndexSet(idx, xs) comes from. */
  lemma Preimage<S>(idx: map<S, nat>, xs: set<S>, i: nat) returns (x: S)
    requires xs <= idx.Keys && i in IndexSet(idx, xs)
    ensures x in xs && idx[x] == i
  {
    x :| x in xs && idx[x] == i;
  }

  /** A visited cell of a final row is reached by a common word. */
  lemma VisitedJointAt(visited: Matrix, D: map<Label, Matrix>, G: map<Label, Matrix>, q0: nat, starts: seq<nat>, k: nat,
                       j: nat, q: nat, v: nat)
    requires VisitedJoint(visited, D, G, q0, starts, k)
    requires j < |starts| && q < k && (PairIndex(j, q, k), v) in visited
    ensures Joint(D, G, q0, starts[j], q, v)
  {
  }

  /** A pair answering the query is read off the visited matrix. */
  lemma AnswerComplete<R>(regex: Nfa<R>, g: Graph, gn: Nfa<nat>, r0: R, starts: seq<nat>, visited: Matrix, res: set<(nat, nat)>,
                          s: nat, rf: R, t: nat)
    requires Searched(regex, g, gn, r0, starts, visited, res)
    requires s in gn.start && t in gn.final && rf in regex.final && CommonWord(regex, g, r0, s, rf, t)
    ensures (s, t) in res
  {
    var idxR: map<R, nat>, idxG: map<nat, nat> := StateIndex(regex.states), StateIndex(gn.states);
    assert idxG[s] in Elements(starts);
    var j :| 0 <= j < |starts| && starts[j] == idxG[s];
    JointCommon(regex, g, gn, r0, s, rf, t);
    var dfaFinals, finals := IndexSet(idxR, regex.final), IndexSet(idxG, gn.final);
    assert Hit(visited, |regex.states|, dfaFinals, finals, j, idxR[rf], idxG[t]);
    var indexToState: map<nat, nat> := IndexToState(idxG);
    assert Collected(res, visited, starts, |regex.states|, |gn.states|, dfaFinals, finals, indexToState);
    assert j < |starts| && idxG[t] < |gn.states|;
    CollectedHas(res, visited, starts, |regex.states|, |gn.states|, dfaFinals, finals, indexToState, j, idxR[rf], idxG[t]);
    assert indexToState[idxG[s]] == s && indexToState[idxG[t]] == t;
  }

  /** A hit of the visited matrix is an answer. */
  lemma CollectedHas(res: set<(nat, nat)>, visited: Matrix, starts: seq<nat>, k: nat, n: nat,
                     dfaFinals: set<nat>, finals: set<nat>, indexToState: map<nat, nat>, j: nat, f: nat, v: nat)
    requires Collected(res, visited, starts, k, n, dfaFinals, finals, indexToState)
    requires j < |starts| && v < n && Hit(visited, k, dfaFinals, finals, j, f, v)
    ensures (indexToState[starts[j]], indexToState[v]) in res
  {
  }

  /** A common word of the matrices between numbered states is a common word of the automaton and the graph. */
  lemma JointCommon<R>(regex: Nfa<R>, g: Graph, gn: Nfa<nat>, r0: R, s: nat, rf: R, t: nat)
    requires ValidNfa(regex) && GraphAutomaton(g, gn)
    requires r0 in regex.states && rf in regex.states && s in gn.states && t in gn.states
    ensures Joint(LabelMatrices(regex), LabelMatrices(gn), StateIndex(regex.states)[r0], StateIndex(gn.states)[s],
                  StateIndex(regex.states)[rf], StateIndex(gn.states)[t])
        <==> CommonWord(regex, g, r0, s, rf, t)
  {
    var idxR: map<R, nat>, idxG: map<nat, nat> := StateIndex(regex.states), StateIndex(gn.states);
    var D, G := LabelMatrices(regex), LabelMatrices(gn);
    if Joint(D, G, idxR[r0], idxG[s], idxR[rf], idxG[t]) {
      var w :| Walk(D, idxR[r0], w, idxR[rf]) && Walk(G, idxG[s], w, idxG[t]);
      MatrixWalkIffNfaWalk(regex, r0, w, rf);
      MatrixWalkIffNfaWalk(gn, s, w, t);
      GraphNfaWalk(g, gn, s, w, t);
    }
    if CommonWord(regex, g, r0, s, rf, t) {
      var w :| NfaWalk(regex, r0, w, rf) && GraphWalk(g, s, w, t);
      MatrixWalkIffNfaWalk(regex, r0, w, rf);
      MatrixWalkIffNfaWalk(gn, s, w, t);
      GraphNfaWalk(g, gn, s, w, t);
    }
  }

  /**
   * For an expression automaton with the single start state r0 and
   * non-empty sets of start and final nodes, the search answers exactly the
   * pairs the tensor-product query answers.
   */
  lemma BfsAgreesWithTensor<R>(regex: Nfa<R>, g: Graph, startNodes: set<nat>, finalNodes: set<nat>, r0: R, s: nat, t: nat)
    requires regex.start == {r0} && startNodes != {} && finalNodes != {}
    ensures BfsAnswer(regex, g, startNodes, finalNodes, r0, s, t)
        <==> s in startNodes && t in finalNodes && RpqAnswer(regex, g, s, t)
  {
    if RpqAnswer(regex, g, s, t) {
      var rs, rf, w :| rs in regex.start && rf in regex.final && NfaWalk(regex, rs, w, rf) && GraphWalk(g, s, w, t);
      assert rs == r0;
      assert CommonWord(regex, g, r0, s, rf, t);
    }
    if exists rf :: rf in regex.final && CommonWord(regex, g, r0, s, rf, t) {
      var rf :| rf in regex.final && CommonWord(regex, g, r0, s, rf, t);
      var w :| NfaWalk(regex, r0, w, rf) && GraphWalk(g, s, w, t);
      assert r0 in regex.start;
    }
  }
}
