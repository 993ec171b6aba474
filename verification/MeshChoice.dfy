/** What the generator's choice comes to, told by the mesh that each connection would give. */
module MeshChoice {
  import opened MeshGraph
  import opened MeshRun

  // ----- the connections of a node, counted one by one

  /** The connections that node i has opened. */
  ghost function Opened(g: Graph, i: int): set<Edge> {
    set d | d in g && d.0 == i
  }

  /** The connections that node j has been sent. */
  ghost function Taken(g: Graph, j: int): set<Edge> {
    set d | d in g && d.1 == j
  }

  lemma OneMoreOpened(g: Graph, n: nat, a: int, b: int, i: int)
    requires (a, b) !in g && 0 <= a < n && 0 <= b < n
    ensures |Outgoing(g + {(a, b)}, n, i)| == |Outgoing(g, n, i)| + if a == i then 1 else 0
    ensures |Opened(g + {(a, b)}, i)| == |Opened(g, i)| + if a == i then 1 else 0
  {
    var h := g + {(a, b)};
    if a == i {
      assert Outgoing(h, n, i) == Outgoing(g, n, i) + {b};
      assert Opened(h, i) == Opened(g, i) + {(a, b)};
    } else {
      assert Outgoing(h, n, i) == Outgoing(g, n, i);
      assert Opened(h, i) == Opened(g, i);
    }
  }

  lemma OneMoreTaken(g: Graph, n: nat, a: int, b: int, i: int)
    requires (a, b) !in g && 0 <= a < n && 0 <= b < n
    ensures |Incoming(g + {(a, b)}, n, i)| == |Incoming(g, n, i)| + if b == i then 1 else 0
    ensures |Taken(g + {(a, b)}, i)| == |Taken(g, i)| + if b == i then 1 else 0
  {
    var h := g + {(a, b)};
    if b == i {
      assert Incoming(h, n, i) == Incoming(g, n, i) + {a};
      assert Taken(h, i) == Taken(g, i) + {(a, b)};
    } else {
      assert Incoming(h, n, i) == Incoming(g, n, i);
      assert Taken(h, i) == Taken(g, i);
    }
  }

  /** Row and column sums are numbers of connections. */
  lemma {:induction false} DegreesAreConnections(g: Graph, n: nat, i: int)
    requires forall e :: e in g ==> InRange(n, e)
    ensures |Outgoing(g, n, i)| == |Opened(g, i)| && |Incoming(g, n, i)| == |Taken(g, i)|
    decreases |g|
  {
    if g == {} {
      assert Outgoing(g, n, i) == {} && Incoming(g, n, i) == {};
      assert Opened(g, i) == {} && Taken(g, i) == {};
    } else {
      var e :| e in g;
      var (a, b) := e;
      var h := g - {e};
      assert h + {(a, b)} == g;
      DegreesAreConnections(h, n, i);
      OneMoreOpened(h, n, a, b, i);
      OneMoreTaken(h, n, a, b, i);
    }
  }

  // ----- the preference

  /** The connections at the two ends of x in the mesh with x: those its first node has opened
      and those its second node has been sent. */
  ghost function EndsOf(g: Graph, x: Edge): nat {
    |Opened(g + {x}, x.0)| + |Taken(g + {x}, x.1)|
  }

  /** The pairs that have at most m paths in the mesh with x. */
  ghost function ShortOf(g: Graph, n: nat, m: int, x: Edge): nat {
    |Sparse(g + {x}, n, m)|
  }

  /** e is the one to take of the two: its ends have fewer connections; or as many, and it
      leaves fewer pairs short; or as many of both, and it is not behind f in the matrix. */
  ghost predicate Preferred(g: Graph, n: nat, m: int, e: Edge, f: Edge) {
    || EndsOf(g, e) < EndsOf(g, f)
    || (EndsOf(g, e) == EndsOf(g, f) && ShortOf(g, n, m, e) < ShortOf(g, n, m, f))
    || (EndsOf(g, e) == EndsOf(g, f) && ShortOf(g, n, m, e) == ShortOf(g, n, m, f)
        && (e.0 < f.0 || (e.0 == f.0 && e.1 <= f.1)))
  }

  /** e can be added to the mesh, and no other connection that can be is preferred. */
  ghost predicate Foremost(g: Graph, n: nat, m: int, e: Edge) {
    Candidate(g, n, e) && forall f :: Candidate(g, n, f) ==> Preferred(g, n, m, e, f)
  }

  /** Adding a connection adds one at either end. */
  lemma EndsAreLoad(g: Graph, n: nat, x: Edge)
    requires Oriented(g, n) && Candidate(g, n, x)
    ensures EndsOf(g, x) == Load(g, n, x)
  {
    var (a, b) := x;
    forall e | e in g ensures InRange(n, e) {
      var (i, j) := e;
      assert (i, j) in g;
    }
    DegreesAreConnections(g, n, a);
    DegreesAreConnections(g, n, b);
    OneMoreOpened(g, n, a, b, a);
    OneMoreTaken(g, n, a, b, b);
  }

  /** What a probe counts is what the mesh with the probed connection is short of. */
  lemma ShortIsLeftover(g: Graph, n: nat, m: int, x: Edge)
    ensures ShortOf(g, n, m, x) == Leftover(g, n, m, x)
  {
    NotWithinTwoIsSize(g + {x}, n, m);
  }

  lemma SamePreference(a: (int, int), e: Edge, b: (int, int), f: Edge)
    ensures Beats(a, e, b, f) <==>
            || a.0 < b.0
            || (a.0 == b.0 && a.1 < b.1)
            || (a.0 == b.0 && a.1 == b.1 && (e.0 < f.0 || (e.0 == f.0 && e.1 <= f.1)))
  {
    assert a == (a.0, a.1) && b == (b.0, b.1) && e == (e.0, e.1) && f == (f.0, f.1);
  }

  lemma PreferredIsBeats(g: Graph, n: nat, m: int, e: Edge, f: Edge)
    requires Oriented(g, n) && Candidate(g, n, e) && Candidate(g, n, f)
    ensures Preferred(g, n, m, e, f) <==> Beats(Score(g, n, m, e), e, Score(g, n, m, f), f)
  {
    EndsAreLoad(g, n, e);
    EndsAreLoad(g, n, f);
    ShortIsLeftover(g, n, m, e);
    ShortIsLeftover(g, n, m, f);
    SamePreference(Score(g, n, m, e), e, Score(g, n, m, f), f);
  }

  /** The search is for the foremost connection, and finds no other. */
  lemma BestIsForemost(g: Graph, n: nat, m: int, e: Edge)
    requires Oriented(g, n)
    ensures IsBest(g, n, m, e) <==> Foremost(g, n, m, e)
  {
    if Candidate(g, n, e) {
      forall f | Candidate(g, n, f)
        ensures Preferred(g, n, m, e, f) <==> Beats(Score(g, n, m, e), e, Score(g, n, m, f), f)
      {
        PreferredIsBeats(g, n, m, e, f);
      }
    }
  }

  // ----- whole runs

  /** A pass takes e: some pair has fewer than t paths, m is the least number that a pair has,
      and e is foremost for m. */
  ghost predicate Takes(g: Graph, n: nat, t: int, e: Edge) {
    exists m :: IsMinPaths(g, n, m) && m < t && Foremost(g, n, m, e)
  }

  lemma ChosenIsTaken(g: Graph, n: nat, t: int, e: Edge)
    requires n >= 2 && Oriented(g, n)
    ensures Chosen(g, n, t, e) <==> Takes(g, n, t, e)
  {
    var min := MinPaths(g, n);
    BestIsForemost(g, n, min, e);
    if m :| IsMinPaths(g, n, m) && m < t && Foremost(g, n, m, e) {
      MinPathsUnique(g, n, m, min);
    }
  }

  ghost predicate TakesEach(run: seq<Edge>, n: nat, t: int) {
    forall k :: 0 <= k < |run| ==> Takes(Mesh(run[..k]), n, t, run[k])
  }

  lemma GreedyTakes(g: Graph, n: nat, t: int, e: Edge)
    requires n >= 2 && Oriented(g, n)
    ensures Greedy(n, t)(g, e) <==> Takes(g, n, t, e)
  {
    ChosenIsTaken(g, n, t, e);
    assert Greedy(n, t)(g, e) <==> Chosen(g, n, t, e);
  }

  lemma CandidatesOriented(run: seq<Edge>, n: nat, k: nat)
    requires forall i :: 0 <= i < |run| ==> Candidate(Mesh(run[..i]), n, run[i])
    requires k <= |run|
    ensures Oriented(Mesh(run[..k]), n)
  {
    var rule: Rule := (g, e) => Candidate(g, n, e);
    RunInvariant(run, rule, n, k);
  }

  /** The runs of the generator are exactly those that take a foremost connection in each
      pass. */
  lemma RunTakesForemost(run: seq<Edge>, n: nat, t: int)
    requires n >= 2
    ensures GreedyRun(run, n, t) <==> TakesEach(run, n, t)
  {
    var rule := Greedy(n, t);
    GreedyRule(n, t);
    if GreedyRun(run, n, t) {
      forall k | 0 <= k < |run|
        ensures Takes(Mesh(run[..k]), n, t, run[k])
      {
        assert rule(Mesh(run[..k]), run[k]);
        RunInvariant(run, rule, n, k);
        GreedyTakes(Mesh(run[..k]), n, t, run[k]);
      }
    }
    if TakesEach(run, n, t) {
      forall k | 0 <= k < |run|
        ensures rule(Mesh(run[..k]), run[k])
      {
        assert forall i :: 0 <= i < |run| ==> Takes(Mesh(run[..i]), n, t, run[i]);
        CandidatesOriented(run, n, k);
        GreedyTakes(Mesh(run[..k]), n, t, run[k]);
      }
    }
  }

  // ----- when the minimum rises

  /** No pair is short exactly when all pairs have a path more. */
  lemma NoneShort(g: Graph, n: nat, m: int)
    ensures Sparse(g, n, m) == {} <==> AllPairsHave(g, n, m + 1)
  {
    if Sparse(g, n, m) == {} {
      forall i, j | 0 <= i < n && 0 <= j < n && i != j
        ensures m + 1 <= Paths(g, n, i, j)
      {
        PathsSymmetric(g, n, i, j);
        assert Sorted((i, j)) !in Sparse(g, n, m);
      }
    }
    if p :| p in Sparse(g, n, m) {
      assert !(m + 1 <= Paths(g, n, p.0, p.1));
    }
  }

  /** A pass raises the minimum whenever some connection does that adds to ends with no more
      connections than the chosen one's. */
  lemma RaisesWhenPossible(g: Graph, n: nat, m: int, e: Edge, f: Edge)
    requires Foremost(g, n, m, e) && Candidate(g, n, f) && EndsOf(g, f) <= EndsOf(g, e)
    requires AllPairsHave(g + {f}, n, m + 1)
    ensures AllPairsHave(g + {e}, n, m + 1)
  {
    assert Preferred(g, n, m, e, f);
    NoneShort(g + {f}, n, m);
    NoneShort(g + {e}, n, m);
  }

  // ----- when the generator stops

  /** No failures up to the given number keep i from reaching j. */
  ghost predicate PairSurvives(g: Graph, n: nat, most: int, i: int, j: int) {
    forall down, cut :: Failures(down, cut) <= most ==> Reaches(g, n, down, cut, i, j)
  }

  ghost predicate Survives(g: Graph, n: nat, most: int) {
    forall i, j :: 0 <= i < n && 0 <= j < n && i != j ==> PairSurvives(g, n, most, i, j)
  }

  /** All pairs have a path more than the given number of failures if and only if the mesh
      survives them. */
  lemma PathsSurvive(g: Graph, n: nat, most: int, t: int)
    requires t == most + 1
    ensures AllPairsHave(g, n, t) <==> Survives(g, n, most)
  {
    forall i, j | 0 <= i < n && 0 <= j < n && i != j
      ensures t <= Paths(g, n, i, j) <==> PairSurvives(g, n, most, i, j)
    {
      PathsAreFaultTolerance(g, n, i, j, t);
    }
  }

  /** A finished run of up to ten nodes stops at the first mesh that survives any three
      failures, one of more nodes at the first that survives any single failure. */
  lemma StopsInTime(run: seq<Edge>, n: nat, k: nat)
    requires n >= 2 && Finished(run, n, MinConnections(n)) && k <= |run|
    ensures k == |run| <==> Survives(Mesh(run[..k]), n, if n <= 10 then 3 else 1)
  {
    var t := MinConnections(n);
    PathsSurvive(Mesh(run[..k]), n, if n <= 10 then 3 else 1, t);
    if k < |run| {
      GreedyRule(n, t);
      assert Greedy(n, t)(Mesh(run[..k]), run[k]);
    } else {
      assert run[..k] == run;
    }
  }
}
