/** Boolean matrices as the sets of their true entries, the Kronecker product,
    the Boolean matrix product, paths, reachability and labelled walks.
    Every engine of the repository works on these. */
module BoolMatrix {

  /** The true entries of a sparse Boolean matrix: (i, j) in M means M[i, j] is True. */
  type Matrix = set<(nat, nat)>

  /** Every true entry of M lies inside an n x n matrix. */
  ghost predicate Square(M: Matrix, n: nat) {
    forall p :: p in M ==> p.0 < n && p.1 < n
  }

  ghost predicate AllSquare<L>(M: map<L, Matrix>, n: nat) {
    forall l :: l in M ==> Square(M[l], n)
  }

  /** The union of the matrices of a label-to-matrix map (the sum of the matrices). */
  function UnionOf<L>(M: map<L, Matrix>): (u: Matrix)
    ensures forall l, p :: l in M && p in M[l] ==> p in u
    ensures forall p :: p in u ==> exists l :: l in M && p in M[l]
  {
    set l, p | l in M && p in M[l] :: p
  }

  lemma UnionOfSquare<L>(M: map<L, Matrix>, n: nat)
    requires AllSquare(M, n)
    ensures Square(UnionOf(M), n)
  {
  }

  /** The diagonal of an n x n matrix. */
  function Diagonal(n: nat): (d: Matrix)
    ensures Square(d, n)
    ensures forall i :: 0 <= i < n ==> (i, i) in d
    ensures forall p :: p in d ==> p.0 == p.1
  {
    set i | 0 <= i < n :: (i, i)
  }

  /** The Boolean matrix product A @ B: entry (i, j) is true iff some k has A[i, k] and B[k, j]. */
  function Product(A: Matrix, B: Matrix): (C: Matrix)
    ensures forall i, j :: (i, j) in C <==> exists k :: (i, k) in A && (k, j) in B
  {
    var C := set a, b | a in A && b in B && a.1 == b.0 :: (a.0, b.1);
    assert forall i, j, k :: (i, k) in A && (k, j) in B ==> (i, j) in C by {
      forall i, j, k | (i, k) in A && (k, j) in B ensures (i, j) in C {
        var a, b := (i, k), (k, j);
        assert a in A && b in B && a.1 == b.0;
      }
    }
    C
  }

  lemma ProductSquare(A: Matrix, B: Matrix, n: nat)
    requires Square(A, n) && Square(B, n)
    ensures Square(Product(A, B), n)
  {
  }

  /** The transpose of A. */
  function Transpose(A: Matrix): (T: Matrix)
    ensures forall i, j :: (i, j) in T <==> (j, i) in A
  {
    var T := set p | p in A :: (p.1, p.0);
    assert forall i, j :: (j, i) in A ==> (i, j) in T by {
      forall i, j | (j, i) in A ensures (i, j) in T {
        var p := (j, i);
        assert (p.1, p.0) == (i, j);
      }
    }
    T
  }

  // ---------------------------------------------------------------------------
  // Pair indices and the Kronecker product
  // ---------------------------------------------------------------------------

  /**
   * The product a * n, spelled out as repeated addition so that index
   * arithmetic stays linear for the verifier (MulIsProduct connects it to *).
   */
  function Mul(a: nat, n: nat): nat {
    if a == 0 then 0 else Mul(a - 1, n) + n
  }

  lemma {:induction false} MulIsProduct(a: nat, n: nat)
    ensures Mul(a, n) == a * n
  {
    if a > 0 {
      MulIsProduct(a - 1, n);
    }
  }

  /** The row-major index of the pair (x, y) when the second component ranges over [0, n). */
  function PairIndex(x: nat, y: nat, n: nat): nat {
    Mul(x, n) + y
  }

  lemma {:induction false} MulMonotone(a: nat, b: nat, n: nat)
    requires a <= b
    ensures Mul(a, n) <= Mul(b, n)
    decreases b - a
  {
    if a < b {
      MulMonotone(a, b - 1, n);
    }
  }

  /** Distinct pairs get distinct indices (the index is a bijection onto its image). */
  lemma PairIndexInjective(x1: nat, y1: nat, x2: nat, y2: nat, n: nat)
    requires y1 < n && y2 < n
    requires PairIndex(x1, y1, n) == PairIndex(x2, y2, n)
    ensures x1 == x2 && y1 == y2
  {
    if x1 < x2 {
      MulMonotone(x1 + 1, x2, n);
      assert false;
    } else if x2 < x1 {
      MulMonotone(x2 + 1, x1, n);
      assert false;
    }
  }

  /** Indices of pairs in [0, m) x [0, n) fill [0, m * n). */
  lemma PairIndexBound(x: nat, y: nat, m: nat, n: nat)
    requires x < m && y < n
    ensures PairIndex(x, y, n) < Mul(m, n)
  {
    MulMonotone(x + 1, m, n);
  }

  /** Every index in [0, m * n) is the index of a pair, recovered by division. */
  lemma PairIndexSurjective(i: nat, m: nat, n: nat)
    requires i < Mul(m, n)
    ensures n > 0 && i / n < m && i % n < n && PairIndex(i / n, i % n, n) == i
  {
    MulIsProduct(m, n);
    if n > 0 {
      MulIsProduct(i / n, n);
    }
    if i / n >= m {
      MulMonotone(m, i / n, n);
      assert false;
    }
  }

  /** The Kronecker product of A with the nB x nB matrix B. */
  function Kron(A: Matrix, B: Matrix, nB: nat): Matrix {
    set a, b | a in A && b in B :: (PairIndex(a.0, b.0, nB), PairIndex(a.1, b.1, nB))
  }

  /** Entry ((i1, i2), (j1, j2)) of A (x) B is A[i1, j1] && B[i2, j2]. */
  lemma KronEntry(A: Matrix, B: Matrix, nB: nat, i1: nat, i2: nat, j1: nat, j2: nat)
    requires Square(B, nB) && i2 < nB && j2 < nB
    ensures (PairIndex(i1, i2, nB), PairIndex(j1, j2, nB)) in Kron(A, B, nB)
        <==> (i1, j1) in A && (i2, j2) in B
  {
    var K := Kron(A, B, nB);
    if (PairIndex(i1, i2, nB), PairIndex(j1, j2, nB)) in K {
      var a, b :| a in A && b in B
        && (PairIndex(a.0, b.0, nB), PairIndex(a.1, b.1, nB)) == (PairIndex(i1, i2, nB), PairIndex(j1, j2, nB));
      PairIndexInjective(a.0, b.0, i1, i2, nB);
      PairIndexInjective(a.1, b.1, j1, j2, nB);
    }
    if (i1, j1) in A && (i2, j2) in B {
      var a, b := (i1, j1), (i2, j2);
      assert (PairIndex(a.0, b.0, nB), PairIndex(a.1, b.1, nB)) in K;
    }
  }

  /** Every entry of A (x) B is the index pair of an entry of A and an entry of B. */
  lemma KronEntryDecompose(A: Matrix, B: Matrix, nB: nat, p: (nat, nat))
    requires Square(B, nB) && p in Kron(A, B, nB)
    ensures exists i1: nat, i2: nat, j1: nat, j2: nat ::
      (i2 < nB && j2 < nB && (i1, j1) in A && (i2, j2) in B
       && p == (PairIndex(i1, i2, nB), PairIndex(j1, j2, nB)))
  {
    var a, b :| a in A && b in B && p == (PairIndex(a.0, b.0, nB), PairIndex(a.1, b.1, nB));
    assert b.0 < nB && b.1 < nB;
  }

  lemma KronSquare(A: Matrix, nA: nat, B: Matrix, nB: nat)
    requires Square(A, nA) && Square(B, nB)
    ensures Square(Kron(A, B, nB), Mul(nA, nB))
  {
    forall p | p in Kron(A, B, nB) ensures p.0 < Mul(nA, nB) && p.1 < Mul(nA, nB) {
      var a, b :| a in A && b in B && p == (PairIndex(a.0, b.0, nB), PairIndex(a.1, b.1, nB));
      PairIndexBound(a.0, b.0, nA, nB);
      PairIndexBound(a.1, b.1, nA, nB);
    }
  }

  /** The per-label Kronecker products over the labels that both maps have. */
  function KronMap<L>(A: map<L, Matrix>, B: map<L, Matrix>, nB: nat): (P: map<L, Matrix>)
    ensures P.Keys == A.Keys * B.Keys
    ensures forall l :: l in P ==> P[l] == Kron(A[l], B[l], nB)
  {
    map l | l in A.Keys * B.Keys :: Kron(A[l], B[l], nB)
  }

  // ---------------------------------------------------------------------------
  // Paths and reachability (the reflexive-transitive closure)
  // ---------------------------------------------------------------------------

  /** p is a non-empty sequence of vertices whose consecutive pairs are entries of E. */
  ghost predicate IsPath(E: Matrix, p: seq<nat>) {
    |p| >= 1 && forall t :: 0 <= t < |p| - 1 ==> (p[t], p[t + 1]) in E
  }

  /** A path is a single vertex or leaves its first vertex along an entry of E. */
  lemma PathLeaves(E: Matrix, p: seq<nat>)
    requires IsPath(E, p)
    ensures |p| == 1 || (p[0], p[1]) in E
  {
  }

  /** Every vertex strictly inside p is below k. */
  ghost predicate InnerBelow(p: seq<nat>, k: nat) {
    forall t :: 0 < t < |p| - 1 ==> p[t] < k
  }

  /** A path from i to j whose intermediate vertices are all below k (Warshall's invariant). */
  ghost predicate PathBelow(E: Matrix, i: nat, j: nat, k: nat) {
    exists p :: IsPath(E, p) && p[0] == i && p[|p| - 1] == j && InnerBelow(p, k)
  }

  /** j is reachable from i in zero or more steps of E. */
  ghost predicate Reachable(E: Matrix, i: nat, j: nat) {
    exists p :: IsPath(E, p) && p[0] == i && p[|p| - 1] == j
  }

  /** With no intermediate vertex allowed, a path is either empty or a single entry. */
  lemma PathBelowZero(E: Matrix, i: nat, j: nat)
    ensures PathBelow(E, i, j, 0) <==> i == j || (i, j) in E
  {
    if PathBelow(E, i, j, 0) {
      var p :| IsPath(E, p) && p[0] == i && p[|p| - 1] == j && InnerBelow(p, 0);
      if |p| >= 3 {
        assert p[1] < 0;
      }
    }
    if i == j {
      assert IsPath(E, [i]);
    } else if (i, j) in E {
      assert IsPath(E, [i, j]);
    }
  }

  /** Concatenating a path ending at k with a path starting at k. */
  lemma PathJoin(E: Matrix, p: seq<nat>, q: seq<nat>)
    requires IsPath(E, p) && IsPath(E, q) && p[|p| - 1] == q[0]
    ensures IsPath(E, p + q[1..]) && (p + q[1..])[0] == p[0]
    ensures (p + q[1..])[|p + q[1..]| - 1] == q[|q| - 1]
    ensures forall t :: 0 <= t < |p| ==> (p + q[1..])[t] == p[t]
    ensures forall t :: |p| <= t < |p + q[1..]| ==> (p + q[1..])[t] == q[t - |p| + 1]
  {
    var r := p + q[1..];
    forall t | 0 <= t < |r| - 1 ensures (r[t], r[t + 1]) in E {
      if t < |p| - 1 {
      } else if t == |p| - 1 {
        assert r[t] == q[0] && r[t + 1] == q[1];
      } else {
        assert r[t] == q[t - |p| + 1] && r[t + 1] == q[t - |p| + 2];
      }
    }
  }

  /** A path whose intermediate vertices are below k + 1 either avoids k inside, or
      splits at an inner k into two paths whose intermediate vertices are below k. */
  lemma {:induction false} PathBelowSplit(E: Matrix, p: seq<nat>, k: nat)
    requires IsPath(E, p) && InnerBelow(p, k + 1)
    ensures PathBelow(E, p[0], p[|p| - 1], k)
      || (PathBelow(E, p[0], k, k) && PathBelow(E, k, p[|p| - 1], k))
    decreases |p|
  {
    if InnerBelow(p, k) {
      return;
    }
    var t :| 0 < t < |p| - 1 && p[t] >= k;
    assert p[t] == k;
    var pre, suf := p[..t + 1], p[t..];
    assert IsPath(E, pre) by {
      forall u | 0 <= u < |pre| - 1 ensures (pre[u], pre[u + 1]) in E {
        assert pre[u] == p[u] && pre[u + 1] == p[u + 1];
      }
    }
    assert IsPath(E, suf) by {
      forall u | 0 <= u < |suf| - 1 ensures (suf[u], suf[u + 1]) in E {
        assert suf[u] == p[t + u] && suf[u + 1] == p[t + u + 1];
      }
    }
    assert InnerBelow(pre, k + 1) by {
      forall u | 0 < u < |pre| - 1 ensures pre[u] < k + 1 {
        assert pre[u] == p[u];
      }
    }
    assert InnerBelow(suf, k + 1) by {
      forall u | 0 < u < |suf| - 1 ensures suf[u] < k + 1 {
        assert suf[u] == p[t + u];
      }
    }
    PathBelowSplit(E, pre, k);
    PathBelowSplit(E, suf, k);
    assert pre[0] == p[0] && pre[|pre| - 1] == k;
    assert suf[0] == k && suf[|suf| - 1] == p[|p| - 1];
  }

  /** Warshall's step: admitting k as an intermediate vertex adds exactly the paths through k. */
  lemma PathBelowStep(E: Matrix, i: nat, j: nat, k: nat)
    ensures PathBelow(E, i, j, k + 1)
        <==> PathBelow(E, i, j, k) || (PathBelow(E, i, k, k) && PathBelow(E, k, j, k))
  {
    if PathBelow(E, i, j, k + 1) {
      var p :| IsPath(E, p) && p[0] == i && p[|p| - 1] == j && InnerBelow(p, k + 1);
      PathBelowSplit(E, p, k);
    }
    if PathBelow(E, i, j, k) {
      var p :| IsPath(E, p) && p[0] == i && p[|p| - 1] == j && InnerBelow(p, k);
      assert InnerBelow(p, k + 1);
    }
    if PathBelow(E, i, k, k) && PathBelow(E, k, j, k) {
      var p :| IsPath(E, p) && p[0] == i && p[|p| - 1] == k && InnerBelow(p, k);
      var q :| IsPath(E, q) && q[0] == k && q[|q| - 1] == j && InnerBelow(q, k);
      PathJoin(E, p, q);
      var r := p + q[1..];
      assert InnerBelow(r, k + 1) by {
        forall t | 0 < t < |r| - 1 ensures r[t] < k + 1 {
          if t < |p| - 1 {
          } else if t == |p| - 1 {
          } else {
            assert r[t] == q[t - |p| + 1];
          }
        }
      }
    }
  }

  /** In a matrix inside n x n, every intermediate vertex is below n, so the bound is no restriction. */
  lemma PathBelowAll(E: Matrix, n: nat, i: nat, j: nat)
    requires Square(E, n)
    ensures PathBelow(E, i, j, n) <==> Reachable(E, i, j)
  {
    if Reachable(E, i, j) {
      var p :| IsPath(E, p) && p[0] == i && p[|p| - 1] == j;
      assert InnerBelow(p, n) by {
        forall t | 0 < t < |p| - 1 ensures p[t] < n {
          assert (p[t - 1], p[t]) in E;
        }
      }
    }
  }

  /** The closure is reflexive. */
  lemma ReachableRefl(E: Matrix, i: nat)
    ensures Reachable(E, i, i)
  {
    assert IsPath(E, [i]);
  }

  /** The closure contains every entry of the matrix. */
  lemma ReachableEdge(E: Matrix, i: nat, j: nat)
    requires (i, j) in E
    ensures Reachable(E, i, j)
  {
    assert IsPath(E, [i, j]);
  }

  /** The closure is transitive. */
  lemma ReachableTrans(E: Matrix, i: nat, j: nat, k: nat)
    requires Reachable(E, i, j) && Reachable(E, j, k)
    ensures Reachable(E, i, k)
  {
    var p :| IsPath(E, p) && p[0] == i && p[|p| - 1] == j;
    var q :| IsPath(E, q) && q[0] == j && q[|q| - 1] == k;
    PathJoin(E, p, q);
  }

  /** Reachability is monotone in the matrix. */
  lemma ReachableMono(E: Matrix, F: Matrix, i: nat, j: nat)
    requires E <= F && Reachable(E, i, j)
    ensures Reachable(F, i, j)
  {
    var p :| IsPath(E, p) && p[0] == i && p[|p| - 1] == j;
    assert IsPath(F, p);
  }

  /** The closure matrix of E restricted to n x n. */
  ghost function ClosureOf(E: Matrix, n: nat): (C: Matrix)
    ensures Square(C, n)
  {
    set i, j | 0 <= i < n && 0 <= j < n && Reachable(E, i, j) :: (i, j)
  }

  /** If every step of a path is a reachable pair, its ends are reachable. */
  lemma {:induction false} ReachablePathOfReachable(E: Matrix, C: Matrix, p: seq<nat>)
    requires IsPath(C, p)
    requires forall a, b :: (a, b) in C ==> Reachable(E, a, b)
    ensures Reachable(E, p[0], p[|p| - 1])
    decreases |p|
  {
    if |p| == 1 {
      ReachableRefl(E, p[0]);
    } else {
      var rest := p[1..];
      assert IsPath(C, rest) by {
        forall t | 0 <= t < |rest| - 1 ensures (rest[t], rest[t + 1]) in C {
          assert rest[t] == p[t + 1] && rest[t + 1] == p[t + 2];
        }
      }
      ReachablePathOfReachable(E, C, rest);
      assert (p[0], p[1]) in C;
      ReachableTrans(E, p[0], p[1], p[|p| - 1]);
    }
  }

  /** The closure is idempotent: closing the closure adds nothing. */
  lemma ClosureIdempotent(E: Matrix, n: nat, i: nat, j: nat)
    requires Square(E, n) && i < n && j < n
    ensures Reachable(ClosureOf(E, n), i, j) <==> Reachable(E, i, j)
  {
    var C := ClosureOf(E, n);
    if Reachable(C, i, j) {
      var p :| IsPath(C, p) && p[0] == i && p[|p| - 1] == j;
      ReachablePathOfReachable(E, C, p);
    }
    if Reachable(E, i, j) {
      assert (i, j) in C;
      ReachableEdge(C, i, j);
    }
  }

  // ---------------------------------------------------------------------------
  // Labelled walks: the words a family of label matrices reads between two indices
  // ---------------------------------------------------------------------------

  /** Reading the word w from index i can end at index j. */
  ghost predicate Walk<L>(M: map<L, Matrix>, i: nat, w: seq<L>, j: nat)
    decreases |w|
  {
    if w == [] then i == j
    else w[0] in M && exists m: nat :: (i, m) in M[w[0]] && Walk(M, m, w[1..], j)
  }

  /** A walk extended by one letter at its end. */
  lemma {:induction false} WalkSnoc<L>(M: map<L, Matrix>, i: nat, w: seq<L>, l: L, j: nat)
    ensures Walk(M, i, w + [l], j) <==> l in M && exists m: nat :: Walk(M, i, w, m) && (m, j) in M[l]
    decreases |w|
  {
    if w == [] {
      assert [l][1..] == [];
      if Walk(M, i, [l], j) {
        assert Walk(M, j, [], j);
      }
      if l in M && exists m: nat :: Walk(M, i, w, m) && (m, j) in M[l] {
        var m: nat :| Walk(M, i, w, m) && (m, j) in M[l];
        assert m == i;
        assert Walk(M, j, [l][1..], j);
      }
    } else {
      assert (w + [l])[0] == w[0] && (w + [l])[1..] == w[1..] + [l];
      if Walk(M, i, w + [l], j) {
        var m :| (i, m) in M[w[0]] && Walk(M, m, w[1..] + [l], j);
        WalkSnoc(M, m, w[1..], l, j);
        var m': nat :| Walk(M, m, w[1..], m') && (m', j) in M[l];
        assert Walk(M, i, w, m');
      }
      if l in M && exists m: nat :: Walk(M, i, w, m) && (m, j) in M[l] {
        var m: nat :| Walk(M, i, w, m) && (m, j) in M[l];
        var m1 :| (i, m1) in M[w[0]] && Walk(M, m1, w[1..], m);
        WalkSnoc(M, m1, w[1..], l, j);
        assert Walk(M, m1, w[1..] + [l], j);
      }
    }
  }

  /** A walk followed by a walk is a walk on the concatenated word. */
  lemma {:induction false} WalkAppend<L>(M: map<L, Matrix>, i: nat, u: seq<L>, m: nat, v: seq<L>, j: nat)
    requires Walk(M, i, u, m) && Walk(M, m, v, j)
    ensures Walk(M, i, u + v, j)
    decreases |u|
  {
    if u == [] {
      assert u + v == v;
    } else {
      var x :| (i, x) in M[u[0]] && Walk(M, x, u[1..], m);
      WalkAppend(M, x, u[1..], m, v, j);
      assert (u + v)[0] == u[0] && (u + v)[1..] == u[1..] + v;
    }
  }

  /** Every walk gives a path of the union of the matrices. */
  lemma {:induction false} WalkReachable<L>(M: map<L, Matrix>, i: nat, w: seq<L>, j: nat)
    requires Walk(M, i, w, j)
    ensures Reachable(UnionOf(M), i, j)
    decreases |w|
  {
    if w == [] {
      ReachableRefl(UnionOf(M), i);
    } else {
      var m :| (i, m) in M[w[0]] && Walk(M, m, w[1..], j);
      WalkReachable(M, m, w[1..], j);
      ReachableEdge(UnionOf(M), i, m);
      ReachableTrans(UnionOf(M), i, m, j);
    }
  }

  /** Every path of the union of the matrices is read by some word. */
  lemma {:induction false} PathWalk<L>(M: map<L, Matrix>, p: seq<nat>, i: nat, j: nat)
    requires IsPath(UnionOf(M), p) && p[0] == i && p[|p| - 1] == j
    ensures exists w :: Walk(M, i, w, j)
    decreases |p|
  {
    if |p| == 1 {
      assert Walk(M, i, [], j);
    } else {
      var rest := p[1..];
      assert IsPath(UnionOf(M), rest) by {
        forall t | 0 <= t < |rest| - 1 ensures (rest[t], rest[t + 1]) in UnionOf(M) {
          assert rest[t] == p[t + 1] && rest[t + 1] == p[t + 2];
        }
      }
      PathWalk(M, rest, p[1], j);
      var w :| Walk(M, p[1], w, j);
      assert (i, p[1]) in UnionOf(M);
      var l :| l in M && (i, p[1]) in M[l];
      assert ([l] + w)[0] == l && ([l] + w)[1..] == w;
      assert Walk(M, i, [l] + w, j);
    }
  }

  /** Reachability in the union of the label matrices is exactly "some word leads there". */
  lemma ReachableIffWalk<L>(M: map<L, Matrix>, i: nat, j: nat)
    ensures Reachable(UnionOf(M), i, j) <==> exists w :: Walk(M, i, w, j)
  {
    if Reachable(UnionOf(M), i, j) {
      var p :| IsPath(UnionOf(M), p) && p[0] == i && p[|p| - 1] == j;
      PathWalk(M, p, i, j);
    }
    if exists w :: Walk(M, i, w, j) {
      var w :| Walk(M, i, w, j);
      WalkReachable(M, i, w, j);
    }
  }

  /** One step of the product from (a, b) is a step of each factor. */
  lemma KronStep(A: Matrix, B: Matrix, nB: nat, a: nat, b: nat, m: nat)
    requires Square(B, nB) && b < nB
    requires (PairIndex(a, b, nB), m) in Kron(A, B, nB)
    ensures exists j1: nat, j2: nat :: j2 < nB && m == PairIndex(j1, j2, nB) && (a, j1) in A && (b, j2) in B
  {
    var x, y :| x in A && y in B
      && (PairIndex(a, b, nB), m) == (PairIndex(x.0, y.0, nB), PairIndex(x.1, y.1, nB));
    assert y.0 < nB && y.1 < nB;
    PairIndexInjective(a, b, x.0, y.0, nB);
    assert m == PairIndex(x.1, y.1, nB) && (a, x.1) in A && (b, y.1) in B;
  }

  /** The first step of a non-empty walk of the product is a step of each factor. */
  lemma KronWalkFirst<L>(A: map<L, Matrix>, B: map<L, Matrix>, nB: nat,
                         a: nat, b: nat, w: seq<L>, x: nat)
    requires AllSquare(B, nB) && b < nB && w != []
    requires Walk(KronMap(A, B, nB), PairIndex(a, b, nB), w, x)
    ensures exists j1: nat, j2: nat ::
      (j2 < nB && (a, j1) in A[w[0]] && (b, j2) in B[w[0]]
       && Walk(KronMap(A, B, nB), PairIndex(j1, j2, nB), w[1..], x))
  {
    var P := KronMap(A, B, nB);
    var l := w[0];
    var m: nat :| (PairIndex(a, b, nB), m) in P[l] && Walk(P, m, w[1..], x);
    KronStep(A[l], B[l], nB, a, b, m);
  }

  /** A walk of the product that reads w from (a, b) to (a', b') gives walks of both factors. */
  lemma {:induction false} KronWalkSplit<L>(A: map<L, Matrix>, B: map<L, Matrix>, nB: nat,
                                            a: nat, b: nat, w: seq<L>, a': nat, b': nat)
    requires AllSquare(B, nB) && b < nB && b' < nB
    requires Walk(KronMap(A, B, nB), PairIndex(a, b, nB), w, PairIndex(a', b', nB))
    ensures Walk(A, a, w, a') && Walk(B, b, w, b')
    decreases |w|
  {
    if w == [] {
      PairIndexInjective(a, b, a', b', nB);
    } else {
      KronWalkFirst(A, B, nB, a, b, w, PairIndex(a', b', nB));
      var j1: nat, j2: nat :| j2 < nB && (a, j1) in A[w[0]] && (b, j2) in B[w[0]]
        && Walk(KronMap(A, B, nB), PairIndex(j1, j2, nB), w[1..], PairIndex(a', b', nB));
      KronWalkSplit(A, B, nB, j1, j2, w[1..], a', b');
    }
  }

  /** Walks of both factors on the same word give a walk of the product. */
  lemma {:induction false} KronWalkJoin<L>(A: map<L, Matrix>, B: map<L, Matrix>, nB: nat,
                                           a: nat, b: nat, w: seq<L>, a': nat, b': nat)
    requires AllSquare(B, nB) && b < nB
    requires Walk(A, a, w, a') && Walk(B, b, w, b')
    ensures Walk(KronMap(A, B, nB), PairIndex(a, b, nB), w, PairIndex(a', b', nB))
    decreases |w|
  {
    if w != [] {
      var l := w[0];
      var m1: nat :| (a, m1) in A[l] && Walk(A, m1, w[1..], a');
      var m2: nat :| (b, m2) in B[l] && Walk(B, m2, w[1..], b');
      assert m2 < nB;
      KronEntry(A[l], B[l], nB, a, b, m1, m2);
      KronWalkJoin(A, B, nB, m1, m2, w[1..], a', b');
    }
  }

  /** The product automaton reads w from (a, b) to (a', b') iff both factors read w. */
  lemma KronWalk<L>(A: map<L, Matrix>, B: map<L, Matrix>, nB: nat,
                    a: nat, b: nat, w: seq<L>, a': nat, b': nat)
    requires AllSquare(B, nB) && b < nB && b' < nB
    ensures Walk(KronMap(A, B, nB), PairIndex(a, b, nB), w, PairIndex(a', b', nB))
        <==> Walk(A, a, w, a') && Walk(B, b, w, b')
  {
    if Walk(KronMap(A, B, nB), PairIndex(a, b, nB), w, PairIndex(a', b', nB)) {
      KronWalkSplit(A, B, nB, a, b, w, a', b');
    }
    if Walk(A, a, w, a') && Walk(B, b, w, b') {
      KronWalkJoin(A, B, nB, a, b, w, a', b');
    }
  }
}
