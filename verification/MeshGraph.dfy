/** The quorum mesh as a mathematical object: a set of directed connections between the nodes
    0..n-1, its two-hop connectivity, and the order in which the generator prefers new
    connections.  Nothing here mentions the matrix the generator works on; QuorumMesh.dfy
    proves the matrix code against these definitions. */
module MeshGraph {

  type Edge = (int, int)
  type Graph = set<Edge>

  predicate InRange(n: nat, e: Edge) {
    0 <= e.0 < n && 0 <= e.1 < n
  }

  /** A connection serves both ends, whichever of them opened it. */
  predicate Adjacent(g: Graph, i: int, j: int) {
    (i, j) in g || (j, i) in g
  }

  function Neighbours(g: Graph, n: nat, i: int): set<int> {
    set k | 0 <= k < n && Adjacent(g, i, k)
  }

  /** The nodes that can relay between i and j. */
  function Relays(g: Graph, n: nat, i: int, j: int): set<int> {
    set k | 0 <= k < n && k != i && k != j && Adjacent(g, i, k) && Adjacent(g, j, k)
  }

  /** The number of different paths of one or two hops from i to j. */
  function Paths(g: Graph, n: nat, i: int, j: int): nat {
    (if i != j && Adjacent(g, i, j) then 1 else 0) + |Relays(g, n, i, j)|
  }

  function Outgoing(g: Graph, n: nat, i: int): set<int> {
    set k | 0 <= k < n && (i, k) in g
  }

  function Incoming(g: Graph, n: nat, j: int): set<int> {
    set k | 0 <= k < n && (k, j) in g
  }

  /** No node is connected to itself and no pair is connected in both directions. */
  ghost predicate Oriented(g: Graph, n: nat) {
    forall i, j :: (i, j) in g ==> 0 <= i < n && 0 <= j < n && i != j && (j, i) !in g
  }

  function Grid(n: nat): (s: set<Edge>)
    ensures forall e :: e in s <==> InRange(n, e)
  {
    set i, j | 0 <= i < n && 0 <= j < n :: (i, j)
  }

  /** The unordered pairs of nodes, smaller one first. */
  function Pairs(n: nat): (s: set<Edge>)
    ensures forall p :: p in s <==> 0 <= p.0 < p.1 < n
  {
    set p | p in Grid(n) && p.0 < p.1
  }

  /** The pairs with at most m paths. */
  function Sparse(g: Graph, n: nat, m: int): set<Edge> {
    set p | p in Pairs(n) && Paths(g, n, p.0, p.1) <= m
  }

  /** The pairs (i, i+1) .. (i, j-1) with at most m paths, counted. */
  function FewInRow(g: Graph, n: nat, m: int, i: nat, j: nat): nat
    decreases j
  {
    if j <= i + 1 then 0
    else FewInRow(g, n, m, i, j - 1) + if Paths(g, n, i, j - 1) <= m then 1 else 0
  }

  /** The pairs with at most m paths whose smaller node is below i, counted row by row. */
  function FewInRows(g: Graph, n: nat, m: int, i: nat): nat {
    if i == 0 then 0 else FewInRows(g, n, m, i - 1) + FewInRow(g, n, m, i - 1, n)
  }

  /** The number of pairs with at most m paths; by NotWithinTwoIsSize the size of Sparse. */
  function NotWithinTwo(g: Graph, n: nat, m: int): nat {
    FewInRows(g, n, m, n)
  }

  ghost predicate IsMinPaths(g: Graph, n: nat, m: int) {
    && (exists p :: p in Pairs(n) && Paths(g, n, p.0, p.1) == m)
    && (forall p :: p in Pairs(n) ==> m <= Paths(g, n, p.0, p.1))
  }

  ghost predicate AllPairsHave(g: Graph, n: nat, t: int) {
    forall i, j :: 0 <= i < n && 0 <= j < n && i != j ==> t <= Paths(g, n, i, j)
  }

  // ----- the generator's preference among new connections

  /** A connection the generator may still add. */
  predicate Candidate(g: Graph, n: nat, e: Edge) {
    InRange(n, e) && e.0 != e.1 && !Adjacent(g, e.0, e.1)
  }

  /** Connections of the two ends that e would use up, e included on both sides. */
  function Load(g: Graph, n: nat, e: Edge): nat {
    |Outgoing(g, n, e.0)| + |Incoming(g, n, e.1)| + 2
  }

  /** Pairs that stay at or below m paths once e is added. */
  function Leftover(g: Graph, n: nat, m: int, e: Edge): nat {
    NotWithinTwo(g + {e}, n, m)
  }

  /** Lexicographic order: on places of the matrix it is row-major order. */
  predicate Smaller(a: (int, int), b: (int, int)) {
    a.0 < b.0 || (a.0 == b.0 && a.1 < b.1)
  }

  function Score(g: Graph, n: nat, m: int, e: Edge): (int, int) {
    (Load(g, n, e), Leftover(g, n, m, e))
  }

  /** Score a at place e comes before score b at place f: the scores compare
      lexicographically, ties go to the earlier place in the matrix. */
  predicate Beats(a: (int, int), e: Edge, b: (int, int), f: Edge) {
    Smaller(a, b) || (a == b && (e == f || Smaller(e, f)))
  }

  ghost predicate IsBest(g: Graph, n: nat, m: int, e: Edge) {
    && Candidate(g, n, e)
    && forall f :: Candidate(g, n, f) ==> Beats(Score(g, n, m, e), e, Score(g, n, m, f), f)
  }

  lemma BestIsUnique(g: Graph, n: nat, m: int, e: Edge, f: Edge)
    requires IsBest(g, n, m, e) && IsBest(g, n, m, f)
    ensures e == f
  {
    var a, b := Score(g, n, m, e), Score(g, n, m, f);
    assert Beats(a, e, b, f) && Beats(b, f, a, e);
  }

  // ----- counting

  lemma SubsetSize<T>(a: set<T>, b: set<T>)
    requires a <= b
    ensures |a| <= |b|
  {
    assert |b - a| == |b| - |a|;
  }

  function Nodes(n: nat): (s: set<int>)
    ensures forall k :: k in s <==> 0 <= k < n
    ensures |s| == n
  {
    if n == 0 then {} else Nodes(n - 1) + {n - 1}
  }

  /** The pairs whose smaller node is one of 0..k-1 and whose larger node is c. */
  function Column(k: nat, c: int): (s: set<Edge>)
    ensures forall p :: p in s <==> 0 <= p.0 < k && p.1 == c
    ensures |s| == k
  {
    if k == 0 then {} else Column(k - 1, c) + {(k - 1, c)}
  }

  lemma PairsStep(n: nat)
    ensures |Pairs(n + 1)| == |Pairs(n)| + n
  {
    var column := Column(n, n);
    assert Pairs(n + 1) == Pairs(n) + column;
    assert Pairs(n) !! column;
  }

  lemma Triangle(n: nat, before: nat, now: nat)
    requires n > 0 && 2 * before == (n - 1) * (n - 1 - 1) && now == before + (n - 1)
    ensures 2 * now == n * (n - 1)
  {
  }

  lemma {:induction false} PairsSize(n: nat)
    ensures 2 * |Pairs(n)| == n * (n - 1)
  {
    if n == 0 {
      assert Pairs(0) == {};
    } else {
      var before := |Pairs(n - 1)|;
      PairsSize(n - 1);
      PairsStep(n - 1);
      Triangle(n, before, |Pairs(n)|);
    }
  }

  function Sorted(e: Edge): Edge {
    if e.0 < e.1 then e else (e.1, e.0)
  }

  lemma {:induction false} SortedSize(g: Graph, n: nat)
    requires Oriented(g, n)
    ensures |set e | e in g :: Sorted(e)| == |g|
    decreases |g|
  {
    if g == {} {
    } else {
      var e :| e in g;
      var h := g - {e};
      SortedSize(h, n);
      assert (set e | e in g :: Sorted(e)) == (set e | e in h :: Sorted(e)) + {Sorted(e)};
      assert Sorted(e) !in (set e | e in h :: Sorted(e));
    }
  }

  /** An oriented mesh has at most one connection for each of the n(n-1)/2 pairs. */
  lemma EdgeBound(g: Graph, n: nat)
    requires Oriented(g, n)
    ensures 2 * |g| <= n * (n - 1)
  {
    SortedSize(g, n);
    SubsetSize(set e | e in g :: Sorted(e), Pairs(n));
    PairsSize(n);
  }

  // ----- two-hop connectivity

  lemma PathsSymmetric(g: Graph, n: nat, i: int, j: int)
    ensures Paths(g, n, i, j) == Paths(g, n, j, i)
  {
    assert Relays(g, n, i, j) == Relays(g, n, j, i);
  }

  /** Without self-connections the relays are the common neighbours, and every path leaves
      i through a different neighbour. */
  lemma PathsAndDegree(g: Graph, n: nat, i: int, j: int)
    requires Oriented(g, n) && i != j && 0 <= j < n
    ensures Relays(g, n, i, j) == Neighbours(g, n, i) * Neighbours(g, n, j)
    ensures Paths(g, n, i, j) <= |Neighbours(g, n, i)|
  {
    var direct := if Adjacent(g, i, j) then {j} else {};
    assert |direct + Relays(g, n, i, j)| == Paths(g, n, i, j) by {
      assert direct !! Relays(g, n, i, j);
    }
    SubsetSize(direct + Relays(g, n, i, j), Neighbours(g, n, i));
  }

  /** No mesh whatsoever offers more than n-1 paths between two nodes. */
  lemma PathsBound(g: Graph, n: nat, i: int, j: int)
    requires 0 <= i < n && 0 <= j < n && i != j
    ensures Paths(g, n, i, j) <= n - 1
  {
    var all := Nodes(n);
    assert Relays(g, n, i, j) <= all - {i} - {j};
    SubsetSize(Relays(g, n, i, j), all - {i} - {j});
  }

  /** When no connection can be added, every pair has the full n-1 paths. */
  lemma SaturatedPaths(g: Graph, n: nat, i: int, j: int)
    requires forall e :: !Candidate(g, n, e)
    requires 0 <= i < n && 0 <= j < n && i != j
    ensures Paths(g, n, i, j) == n - 1
  {
    var all := Nodes(n);
    forall k | 0 <= k < n && k != i
      ensures Adjacent(g, i, k)
    {
      assert !Candidate(g, n, (i, k));
    }
    forall k | 0 <= k < n && k != j
      ensures Adjacent(g, j, k)
    {
      assert !Candidate(g, n, (j, k));
    }
    assert Relays(g, n, i, j) == all - {i} - {j};
  }

  /** Adding connections never costs a pair a path. */
  lemma PathsMonotone(g: Graph, h: Graph, n: nat, i: int, j: int)
    requires g <= h
    ensures Paths(g, n, i, j) <= Paths(h, n, i, j)
  {
    SubsetSize(Relays(g, n, i, j), Relays(h, n, i, j));
  }

  /** The pairs of s in the rows before row i. */
  ghost function InRows(s: set<Edge>, i: int): set<Edge> {
    set p | p in s && p.0 < i
  }

  /** The pairs of s in row i, before column j. */
  ghost function InRow(s: set<Edge>, i: int, j: int): set<Edge> {
    set p | p in s && p.0 == i && p.1 < j
  }

  lemma InRowsStep(s: set<Edge>, n: nat, i: int)
    requires forall p :: p in s ==> p.1 < n
    ensures |InRows(s, i + 1)| == |InRows(s, i)| + |InRow(s, i, n)|
  {
    assert InRows(s, i + 1) == InRows(s, i) + InRow(s, i, n);
    assert InRows(s, i) !! InRow(s, i, n);
  }

  /** What the counting needs to know of the set of sparse pairs. */
  ghost predicate HasSparse(s: set<Edge>, g: Graph, n: nat, m: int) {
    && (forall p :: p in s ==> 0 <= p.0 < p.1 < n)
    && (forall i, j :: 0 <= i < j < n ==> ((i, j) in s <==> Paths(g, n, i, j) <= m))
  }

  lemma InRowStep(s: set<Edge>, i: int, j: int)
    ensures |InRow(s, i, j + 1)| == |InRow(s, i, j)| + if (i, j) in s then 1 else 0
  {
    var last := if (i, j) in s then {(i, j)} else {};
    assert InRow(s, i, j + 1) == InRow(s, i, j) + last;
    assert InRow(s, i, j) !! last;
  }

  lemma {:induction false} FewInRowIsSize(s: set<Edge>, g: Graph, n: nat, m: int, i: nat, j: nat)
    requires HasSparse(s, g, n, m) && i < n && j <= n
    ensures FewInRow(g, n, m, i, j) == |InRow(s, i, j)|
  {
    if j <= i + 1 {
      assert InRow(s, i, j) == {};
    } else {
      FewInRowIsSize(s, g, n, m, i, j - 1);
      InRowStep(s, i, j - 1);
    }
  }

  lemma {:induction false} FewInRowsIsSize(s: set<Edge>, g: Graph, n: nat, m: int, i: nat)
    requires HasSparse(s, g, n, m) && i <= n
    ensures FewInRows(g, n, m, i) == |InRows(s, i)|
  {
    if i == 0 {
      assert InRows(s, 0) == {};
    } else {
      FewInRowsIsSize(s, g, n, m, i - 1);
      FewInRowIsSize(s, g, n, m, i - 1, n);
      InRowsStep(s, n, i - 1);
    }
  }

  lemma NotWithinTwoIsSize(g: Graph, n: nat, m: int)
    ensures NotWithinTwo(g, n, m) == |Sparse(g, n, m)|
  {
    FewInRowsIsSize(Sparse(g, n, m), g, n, m, n);
    assert InRows(Sparse(g, n, m), n) == Sparse(g, n, m);
  }

  lemma SparseMonotone(g: Graph, h: Graph, n: nat, m: int)
    requires g <= h
    ensures NotWithinTwo(h, n, m) <= NotWithinTwo(g, n, m)
  {
    NotWithinTwoIsSize(g, n, m);
    NotWithinTwoIsSize(h, n, m);
    forall p | p in Sparse(h, n, m)
      ensures p in Sparse(g, n, m)
    {
      PathsMonotone(g, h, n, p.0, p.1);
    }
    SubsetSize(Sparse(h, n, m), Sparse(g, n, m));
  }

  lemma MinPathsMonotone(g: Graph, h: Graph, n: nat, m: int, m': int)
    requires g <= h && IsMinPaths(g, n, m) && IsMinPaths(h, n, m')
    ensures m <= m'
  {
    var p :| p in Pairs(n) && Paths(h, n, p.0, p.1) == m';
    PathsMonotone(g, h, n, p.0, p.1);
  }

  lemma MinPathsUnique(g: Graph, n: nat, m: int, m': int)
    requires IsMinPaths(g, n, m) && IsMinPaths(g, n, m')
    ensures m == m'
  {
    MinPathsMonotone(g, g, n, m, m');
    MinPathsMonotone(g, g, n, m', m);
  }

  lemma MinPathsCoversAllPairs(g: Graph, n: nat, m: int, t: int)
    requires IsMinPaths(g, n, m)
    ensures AllPairsHave(g, n, t) <==> t <= m
  {
    if t <= m {
      forall i, j | 0 <= i < n && 0 <= j < n && i != j
        ensures t <= Paths(g, n, i, j)
      {
        PathsSymmetric(g, n, i, j);
        assert Sorted((i, j)) in Pairs(n);
      }
    } else {
      var p :| p in Pairs(n) && Paths(g, n, p.0, p.1) == m;
      assert Paths(g, n, p.0, p.1) < t;
    }
  }

  // ----- adding a candidate

  lemma CandidateKeepsOriented(g: Graph, n: nat, e: Edge)
    requires Oriented(g, n) && Candidate(g, n, e)
    ensures Oriented(g + {e}, n) && |g + {e}| == |g| + 1
  {
  }

  /** The score of every candidate beats the value 2n that the search for it starts from. */
  lemma CandidateLoad(g: Graph, n: nat, e: Edge)
    requires Oriented(g, n) && Candidate(g, n, e)
    ensures Load(g, n, e) <= 2 * n - 2
  {
    var others := Nodes(n) - {e.0} - {e.1};
    SubsetSize(Outgoing(g, n, e.0), others);
    SubsetSize(Incoming(g, n, e.1), others);
  }

  /** While some pair is short of n-1 paths there is a connection to add. */
  lemma CandidateExists(g: Graph, n: nat, m: int)
    requires IsMinPaths(g, n, m) && m < n - 1
    ensures exists e :: Candidate(g, n, e)
  {
    if forall e :: !Candidate(g, n, e) {
      var p :| p in Pairs(n) && Paths(g, n, p.0, p.1) == m;
      SaturatedPaths(g, n, p.0, p.1);
    }
  }

  /** As the mesh grows, the best connection never gets lighter. */
  lemma LoadMonotone(g: Graph, h: Graph, n: nat, m: int, m': int, e: Edge, f: Edge)
    requires g <= h && IsBest(g, n, m, e) && IsBest(h, n, m', f)
    ensures Load(g, n, e) <= Load(h, n, f)
  {
    assert Candidate(g, n, f);
    SubsetSize(Outgoing(g, n, f.0), Outgoing(h, n, f.0));
    SubsetSize(Incoming(g, n, f.1), Incoming(h, n, f.1));
    assert Beats(Score(g, n, m, e), e, Score(g, n, m, f), f);
  }

  // ----- degrees

  /** The degrees of the nodes 0..k-1, added up. */
  ghost function DegreeSum(g: Graph, n: nat, k: nat): nat {
    if k == 0 then 0 else DegreeSum(g, n, k - 1) + |Neighbours(g, n, k - 1)|
  }

  lemma NeighboursAdd(g: Graph, n: nat, a: int, b: int, i: int)
    requires Candidate(g, n, (a, b))
    ensures |Neighbours(g + {(a, b)}, n, i)|
         == |Neighbours(g, n, i)| + (if a == i then 1 else 0) + (if b == i then 1 else 0)
  {
    var h := g + {(a, b)};
    var gained := if i == a then {b} else if i == b then {a} else {};
    forall k
      ensures Adjacent(h, i, k) <==> Adjacent(g, i, k) || (i == a && k == b) || (i == b && k == a)
    {
    }
    assert Neighbours(h, n, i) == Neighbours(g, n, i) + gained;
    assert Neighbours(g, n, i) !! gained;
  }

  lemma {:induction false} DegreeSumAdd(g: Graph, n: nat, e: Edge, k: nat)
    requires Oriented(g, n) && Candidate(g, n, e) && k <= n
    ensures DegreeSum(g + {e}, n, k)
         == DegreeSum(g, n, k) + (if e.0 < k then 1 else 0) + (if e.1 < k then 1 else 0)
  {
    if k == 0 {
    } else {
      DegreeSumAdd(g, n, e, k - 1);
      NeighboursAdd(g, n, e.0, e.1, k - 1);
    }
  }

  lemma {:induction false} NoDegrees(n: nat, k: nat)
    ensures DegreeSum({}, n, k) == 0
  {
    if k == 0 {
    } else {
      NoDegrees(n, k - 1);
      assert Neighbours({}, n, k - 1) == {};
    }
  }

  /** Every connection is counted at both of its ends. */
  lemma {:induction false} Handshake(g: Graph, n: nat)
    requires Oriented(g, n)
    ensures DegreeSum(g, n, n) == 2 * |g|
    decreases |g|
  {
    if g == {} {
      NoDegrees(n, n);
    } else {
      var e :| e in g;
      var h := g - {e};
      var (a, b) := e;
      assert (a, b) in g && h + {(a, b)} == g;
      assert Candidate(h, n, (a, b));
      Handshake(h, n);
      DegreeSumAdd(h, n, (a, b), n);
    }
  }

  lemma {:induction false} DegreeSumAtLeast(g: Graph, n: nat, k: nat, d: int)
    requires forall i :: 0 <= i < k ==> d <= |Neighbours(g, n, i)|
    ensures k * d <= DegreeSum(g, n, k)
  {
    if k == 0 {
    } else {
      DegreeSumAtLeast(g, n, k - 1, d);
      assert k * d == (k - 1) * d + d;
    }
  }

  /** t paths between all pairs force degree t everywhere, hence n*t/2 connections. */
  lemma ConnectivityCost(g: Graph, n: nat, t: int)
    requires n >= 2 && Oriented(g, n) && AllPairsHave(g, n, t)
    ensures forall i :: 0 <= i < n ==> t <= |Neighbours(g, n, i)|
    ensures n * t <= 2 * |g|
  {
    forall i | 0 <= i < n
      ensures t <= |Neighbours(g, n, i)|
    {
      var j := if i == 0 then 1 else 0;
      PathsAndDegree(g, n, i, j);
    }
    DegreeSumAtLeast(g, n, n, t);
    Handshake(g, n);
  }

  // ----- fault tolerance

  /** i still reaches j in at most two hops once the nodes in `down` have failed and, if
      `cut`, the direct connection between the two has been lost. */
  predicate Reaches(g: Graph, n: nat, down: set<int>, cut: bool, i: int, j: int) {
    || (!cut && Adjacent(g, i, j))
    || exists k :: k in Relays(g, n, i, j) && k !in down
  }

  function Failures(down: set<int>, cut: bool): nat {
    |down| + if cut then 1 else 0
  }

  /** i and j have at least t paths exactly when no fewer than t failures can part them. */
  lemma PathsAreFaultTolerance(g: Graph, n: nat, i: int, j: int, t: int)
    requires i != j
    ensures t <= Paths(g, n, i, j) <==>
            forall down, cut :: Failures(down, cut) < t ==> Reaches(g, n, down, cut, i, j)
  {
    var relays := Relays(g, n, i, j);
    if t <= Paths(g, n, i, j) {
      forall down, cut | Failures(down, cut) < t
        ensures Reaches(g, n, down, cut, i, j)
      {
        if forall k :: k in relays ==> k in down {
          SubsetSize(relays, down);
        }
      }
    } else {
      var cut := Adjacent(g, i, j);
      assert Failures(relays, cut) == Paths(g, n, i, j);
      assert !Reaches(g, n, relays, cut, i, j);
    }
  }

  /** After any t-1 nodes fail, every two survivors are connected directly or through a
      surviving relay. */
  lemma MeshFaultTolerance(g: Graph, n: nat, t: int, down: set<int>, i: int, j: int)
    requires AllPairsHave(g, n, t) && |down| < t
    requires 0 <= i < n && 0 <= j < n && i != j
    ensures Adjacent(g, i, j) || exists k :: 0 <= k < n && k !in down && Adjacent(g, i, k) && Adjacent(g, k, j)
  {
    PathsAreFaultTolerance(g, n, i, j, t);
    assert Failures(down, false) < t;
    assert Reaches(g, n, down, false, i, j);
    if !Adjacent(g, i, j) {
      var k :| k in Relays(g, n, i, j) && k !in down;
    }
  }
}
