/** Whole runs of the mesh generator, each given by the connections it adds, in order. */
module MeshRun {
  import opened MeshGraph

  /** The two-hop connectivity asked of a quorum of n nodes. */
  function MinConnections(n: nat): nat {
    if n <= 10 then 4 else 2
  }

  // ----- the least number of paths

  lemma {:induction false} MinPathsExists(g: Graph, n: nat, p: Edge)
    requires p in Pairs(n)
    ensures exists m :: IsMinPaths(g, n, m)
    decreases Paths(g, n, p.0, p.1)
  {
    if q :| q in Pairs(n) && Paths(g, n, q.0, q.1) < Paths(g, n, p.0, p.1) {
      MinPathsExists(g, n, q);
    } else {
      assert IsMinPaths(g, n, Paths(g, n, p.0, p.1));
    }
  }

  ghost function MinPaths(g: Graph, n: nat): (m: int)
    requires n >= 2
    ensures IsMinPaths(g, n, m)
  {
    MinPathsExists(g, n, (0, 1));
    var m :| IsMinPaths(g, n, m);
    m
  }

  // ----- runs of any rule that says which connection may be added to which mesh

  type Rule = (Graph, Edge) -> bool

  ghost function Mesh(run: seq<Edge>): Graph {
    set e | e in run
  }

  ghost predicate Follows(run: seq<Edge>, rule: Rule) {
    forall k :: 0 <= k < |run| ==> rule(Mesh(run[..k]), run[k])
  }

  ghost predicate AddsCandidates(rule: Rule, n: nat) {
    forall g, e :: rule(g, e) ==> Candidate(g, n, e)
  }

  ghost predicate Deterministic(rule: Rule) {
    forall g, e, f :: rule(g, e) && rule(g, f) ==> e == f
  }

  lemma FollowsSnoc(run: seq<Edge>, rule: Rule, e: Edge)
    requires Follows(run, rule) && rule(Mesh(run), e)
    ensures Follows(run + [e], rule)
    ensures Mesh(run + [e]) == Mesh(run) + {e}
  {
    var longer := run + [e];
    forall k | 0 <= k < |longer|
      ensures rule(Mesh(longer[..k]), longer[k])
    {
      assert longer[..k] == run[..k];
      assert run[..|run|] == run;
    }
  }

  lemma MeshStep(run: seq<Edge>, k: nat)
    requires k < |run|
    ensures Mesh(run[..k + 1]) == Mesh(run[..k]) + {run[k]}
  {
    assert run[..k + 1] == run[..k] + [run[k]];
  }

  lemma CandidateAdded(g: Graph, h: Graph, rule: Rule, n: nat, e: Edge)
    requires Oriented(g, n) && AddsCandidates(rule, n) && rule(g, e) && h == g + {e}
    ensures Oriented(h, n) && |h| == |g| + 1
  {
    CandidateKeepsOriented(g, n, e);
  }

  /** Every mesh on the way is oriented and has gained one new connection in each pass. */
  lemma {:induction false} RunInvariant(run: seq<Edge>, rule: Rule, n: nat, k: nat)
    requires Follows(run, rule) && AddsCandidates(rule, n) && k <= |run|
    ensures Oriented(Mesh(run[..k]), n)
    ensures |Mesh(run[..k])| == k
  {
    if k == 0 {
    } else {
      RunInvariant(run, rule, n, k - 1);
      MeshStep(run, k - 1);
      CandidateAdded(Mesh(run[..k - 1]), Mesh(run[..k]), rule, n, run[k - 1]);
    }
  }

  lemma {:induction false} RunsAgree(run: seq<Edge>, run': seq<Edge>, rule: Rule, k: nat)
    requires Follows(run, rule) && Follows(run', rule) && Deterministic(rule)
    requires k <= |run| && k <= |run'|
    ensures run[..k] == run'[..k]
  {
    if k == 0 {
    } else {
      RunsAgree(run, run', rule, k - 1);
      assert run[..k] == run[..k - 1] + [run[k - 1]];
      assert run'[..k] == run'[..k - 1] + [run'[k - 1]];
    }
  }

  lemma MeshGrows(run: seq<Edge>, a: nat, b: nat)
    requires a <= b <= |run|
    ensures Mesh(run[..a]) <= Mesh(run[..b])
  {
    assert run[..a] == run[..b][..a];
  }

  /** Along a run no pair ever loses a path, the minimum never falls, and the number of
      pairs at or below any fixed threshold never rises. */
  lemma RunMonotone(run: seq<Edge>, n: nat, a: nat, b: nat)
    requires n >= 2 && a <= b <= |run|
    ensures var g, h := Mesh(run[..a]), Mesh(run[..b]);
            && (forall i, j :: Paths(g, n, i, j) <= Paths(h, n, i, j))
            && MinPaths(g, n) <= MinPaths(h, n)
            && (forall m :: NotWithinTwo(h, n, m) <= NotWithinTwo(g, n, m))
  {
    var g, h := Mesh(run[..a]), Mesh(run[..b]);
    MeshGrows(run, a, b);
    forall i, j ensures Paths(g, n, i, j) <= Paths(h, n, i, j) {
      PathsMonotone(g, h, n, i, j);
    }
    MinPathsMonotone(g, h, n, MinPaths(g, n), MinPaths(h, n));
    forall m ensures NotWithinTwo(h, n, m) <= NotWithinTwo(g, n, m) {
      SparseMonotone(g, h, n, m);
    }
  }

  // ----- the generator's rule

  /** A pass adds e to g: some pair of g falls short of t paths, and e is the best of all
      connections that can be added. */
  ghost predicate Chosen(g: Graph, n: nat, t: int, e: Edge)
    requires n >= 2
  {
    MinPaths(g, n) < t && IsBest(g, n, MinPaths(g, n), e)
  }

  ghost predicate IsGreedy(rule: Rule, n: nat, t: int)
    requires n >= 2
  {
    forall g, e {:trigger Chosen(g, n, t, e)} :: rule(g, e) <==> Chosen(g, n, t, e)
  }

  ghost function Greedy(n: nat, t: int): (rule: Rule)
    requires n >= 2
  {
    assert IsGreedy((g: Graph, e: Edge) => Chosen(g, n, t, e), n, t);
    var rule :| IsGreedy(rule, n, t);
    rule
  }

  ghost predicate GreedyRun(run: seq<Edge>, n: nat, t: int)
    requires n >= 2
  {
    Follows(run, Greedy(n, t))
  }

  ghost predicate Finished(run: seq<Edge>, n: nat, t: int)
    requires n >= 2
  {
    GreedyRun(run, n, t) && AllPairsHave(Mesh(run), n, t)
  }

  lemma GreedyRule(n: nat, t: int)
    requires n >= 2
    ensures AddsCandidates(Greedy(n, t), n) && Deterministic(Greedy(n, t))
    ensures forall g, e :: Greedy(n, t)(g, e) ==> !AllPairsHave(g, n, t)
  {
    var rule := Greedy(n, t);
    forall g, e | rule(g, e)
      ensures Candidate(g, n, e) && !AllPairsHave(g, n, t)
    {
      assert Chosen(g, n, t, e);
      MinPathsCoversAllPairs(g, n, MinPaths(g, n), t);
    }
    forall g, e, f | rule(g, e) && rule(g, f)
      ensures e == f
    {
      assert Chosen(g, n, t, e) && Chosen(g, n, t, f);
      BestIsUnique(g, n, MinPaths(g, n), e, f);
    }
  }

  lemma ChosenLoads(g: Graph, h: Graph, n: nat, t: int, e: Edge, f: Edge)
    requires n >= 2 && g <= h && Greedy(n, t)(g, e) && Greedy(n, t)(h, f)
    ensures Load(g, n, e) <= Load(h, n, f)
  {
    assert Chosen(g, n, t, e) && Chosen(h, n, t, f);
    LoadMonotone(g, h, n, MinPaths(g, n), MinPaths(h, n), e, f);
  }

  /** The connections of a run are chosen in order of load: what a pass takes up at the two ends
      of its connection is never less than what an earlier pass took up. */
  lemma RunLoads(run: seq<Edge>, n: nat, t: int, a: nat, b: nat)
    requires n >= 2 && GreedyRun(run, n, t) && a <= b < |run|
    ensures Load(Mesh(run[..a]), n, run[a]) <= Load(Mesh(run[..b]), n, run[b])
  {
    var g, h := Mesh(run[..a]), Mesh(run[..b]);
    MeshGrows(run, a, b);
    assert Greedy(n, t)(g, run[a]) && Greedy(n, t)(h, run[b]);
    ChosenLoads(g, h, n, t, run[a], run[b]);
  }

  /** No run makes more than n(n-1)/2 passes. */
  lemma RunBounded(run: seq<Edge>, n: nat, t: int)
    requires n >= 2 && GreedyRun(run, n, t)
    ensures 2 * |run| <= n * (n - 1)
  {
    GreedyRule(n, t);
    RunInvariant(run, Greedy(n, t), n, |run|);
    EdgeBound(Mesh(run[..|run|]), n);
  }

  /** Adding the best connection to a mesh that falls short continues the run. */
  lemma GreedyStep(run: seq<Edge>, n: nat, t: int, g: Graph, m: int, e: Edge) returns (run': seq<Edge>)
    requires n >= 2 && GreedyRun(run, n, t) && Mesh(run) == g
    requires IsMinPaths(g, n, m) && m < t && IsBest(g, n, m, e)
    ensures GreedyRun(run', n, t) && Mesh(run') == g + {e}
    ensures |run'| == |run| + 1 && 2 * |run'| <= n * (n - 1)
  {
    MinPathsUnique(g, n, m, MinPaths(g, n));
    assert Chosen(g, n, t, e);
    run' := run + [e];
    FollowsSnoc(run, Greedy(n, t), e);
    RunBounded(run', n, t);
  }

  /** A run that goes on was not finished. */
  lemma Unfinished(run: seq<Edge>, run': seq<Edge>, n: nat, t: int)
    requires n >= 2 && GreedyRun(run, n, t) && GreedyRun(run', n, t) && |run| < |run'|
    ensures !AllPairsHave(Mesh(run), n, t)
  {
    GreedyRule(n, t);
    RunsAgree(run, run', Greedy(n, t), |run|);
    assert run[..|run|] == run;
    assert Greedy(n, t)(Mesh(run'[..|run|]), run'[|run|]);
  }

  /** There is only one finished run: the number of nodes and the target determine the mesh. */
  lemma FinishedRunIsUnique(run: seq<Edge>, run': seq<Edge>, n: nat, t: int)
    requires n >= 2 && Finished(run, n, t) && Finished(run', n, t)
    ensures run == run'
  {
    if |run| < |run'| {
      Unfinished(run, run', n, t);
    } else if |run'| < |run| {
      Unfinished(run', run, n, t);
    }
    GreedyRule(n, t);
    RunsAgree(run, run', Greedy(n, t), |run|);
    assert run[..|run|] == run && run'[..|run'|] == run';
  }

  /** A finished mesh costs between n*t/2 and n(n-1)/2 connections, gives every node degree
      t, and keeps every two survivors within two hops after any t-1 nodes fail. */
  lemma FinishedMesh(run: seq<Edge>, n: nat, t: int)
    requires n >= 2 && Finished(run, n, t)
    ensures n * t <= 2 * |run| <= n * (n - 1)
    ensures forall i :: 0 <= i < n ==> t <= |Neighbours(Mesh(run), n, i)|
    ensures forall down: set<int>, i, j ::
              |down| < t && 0 <= i < n && 0 <= j < n && i != j ==> Reaches(Mesh(run), n, down, false, i, j)
  {
    RunBounded(run, n, t);
    GreedyRule(n, t);
    RunInvariant(run, Greedy(n, t), n, |run|);
    assert run[..|run|] == run;
    ConnectivityCost(Mesh(run), n, t);
    forall down: set<int>, i, j | |down| < t && 0 <= i < n && 0 <= j < n && i != j
      ensures Reaches(Mesh(run), n, down, false, i, j)
    {
      PathsAreFaultTolerance(Mesh(run), n, i, j, t);
      assert Failures(down, false) < t;
    }
  }

  /** The empty mesh has no paths, the value the generator starts from. */
  lemma EmptyMesh(n: nat)
    requires n >= 2
    ensures IsMinPaths({}, n, 0)
  {
    assert Relays({}, n, 0, 1) == {};
    assert (0, 1) in Pairs(n);
  }

  lemma CompleteMesh(n: nat)
    ensures Oriented(Pairs(n), n) && AllPairsHave(Pairs(n), n, n - 1)
  {
    forall i, j | 0 <= i < n && 0 <= j < n && i != j
      ensures Paths(Pairs(n), n, i, j) == n - 1
    {
      SaturatedPaths(Pairs(n), n, i, j);
    }
  }

  /** With two or more nodes, a mesh with t paths between all pairs exists, oriented or not, if
      and only if t is at most n-1. */
  lemma PathsReachable(n: nat, t: int)
    requires n >= 2
    ensures (exists g :: AllPairsHave(g, n, t)) <==> t <= n - 1
    ensures (exists g :: Oriented(g, n) && AllPairsHave(g, n, t)) <==> t <= n - 1
  {
    if t <= n - 1 {
      CompleteMesh(n);
      assert AllPairsHave(Pairs(n), n, t);
    } else {
      forall g ensures !AllPairsHave(g, n, t) {
        PathsBound(g, n, 0, 1);
        assert Paths(g, n, 0, 1) < t;
      }
    }
  }

  /** The generator's own target can be met exactly for five nodes or more. For two to four no
      matrix at all lets it stop. */
  lemma TargetReachable(n: nat)
    requires n >= 2
    ensures (exists g :: AllPairsHave(g, n, MinConnections(n))) <==> n >= 5
    ensures (exists g :: Oriented(g, n) && AllPairsHave(g, n, MinConnections(n))) <==> n >= 5
  {
    PathsReachable(n, MinConnections(n));
  }
}
