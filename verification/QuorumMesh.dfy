/** The generator of quorum meshes: a 0/1 matrix that is probed, restored and extended in
    place until every pair of nodes has enough paths of at most two hops. */
module QuorumMesh {
  import opened MeshGraph
  import opened MeshRun
  import opened Options

  // ----- counting paths and pairs

  /** The nodes of ns that give a path from i. */
  ghost function Counted(g: Graph, i: int, ns: seq<int>): set<int> {
    set x | x in ns && (x == i || Adjacent(g, i, x))
  }

  lemma CountedStep(g: Graph, i: int, ns: seq<int>, k: nat)
    requires forall p, q :: 0 <= p < q < |ns| ==> ns[p] < ns[q]
    requires k < |ns|
    ensures |Counted(g, i, ns[..k + 1])|
         == |Counted(g, i, ns[..k])| + if ns[k] == i || Adjacent(g, i, ns[k]) then 1 else 0
  {
    assert ns[..k + 1] == ns[..k] + [ns[k]];
    var gained := if ns[k] == i || Adjacent(g, i, ns[k]) then {ns[k]} else {};
    assert Counted(g, i, ns[..k + 1]) == Counted(g, i, ns[..k]) + gained;
    assert Counted(g, i, ns[..k]) !! gained;
  }

  lemma CountedArePaths(g: Graph, n: nat, i: int, j: int, ns: seq<int>)
    requires 0 <= i < n && 0 <= j < n
    requires forall x :: x in ns <==> 0 <= x < n && x != j && Adjacent(g, j, x)
    ensures |Counted(g, i, ns)| == Paths(g, n, i, j)
  {
    var direct := if i != j && Adjacent(g, i, j) then {i} else {};
    assert Counted(g, i, ns) == direct + Relays(g, n, i, j);
    assert direct !! Relays(g, n, i, j);
  }

  /** The pairs that come before `at` in row-major order. */
  ghost function Before(n: nat, at: Edge): set<Edge> {
    set p | p in Pairs(n) && Smaller(p, at)
  }

  lemma BeforeRow(n: nat, i: nat)
    requires i < n
    ensures Before(n, (0, 0)) == {}
    ensures Before(n, (i, i + 1)) == Before(n, (i, 0))
    ensures Before(n, (i, n)) == Before(n, (i + 1, 0))
  {
  }

  lemma BeforeStep(n: nat, i: nat, j: nat)
    requires i < j < n
    ensures (i, j) !in Before(n, (i, j))
    ensures Before(n, (i, j + 1)) == Before(n, (i, j)) + {(i, j)}
  {
  }

  lemma BeforeEnd(n: nat)
    ensures Before(n, (n, 0)) == Pairs(n)
  {
  }

  ghost predicate MinOver(g: Graph, n: nat, done: set<Edge>, m: Option<nat>) {
    match m
    case None => done == {}
    case Some(v) =>
      && (exists p :: p in done && Paths(g, n, p.0, p.1) == v)
      && (forall p :: p in done ==> v <= Paths(g, n, p.0, p.1))
  }

  lemma MinOverStep(g: Graph, n: nat, i: nat, j: nat, m: Option<nat>)
    requires i < j < n && MinOver(g, n, Before(n, (i, j)), m)
    ensures var c := Paths(g, n, i, j);
            MinOver(g, n, Before(n, (i, j + 1)), if m.None? || c < m.value then Some(c) else m)
  {
    BeforeStep(n, i, j);
  }

  // ----- the search for the best connection, for any candidates and any scores

  type Candidates = Edge -> bool
  type Scores = Edge -> (int, int)

  ghost predicate SomeBefore(cand: Candidates, at: Edge) {
    exists f :: cand(f) && Smaller(f, at)
  }

  /** What the search knows after looking at all places before `at`. */
  ghost predicate BestBefore(cand: Candidates, score: Scores, limit: int, at: Edge, best: (int, int), e: Edge) {
    if SomeBefore(cand, at) then
      && cand(e) && Smaller(e, at)
      && best == score(e)
      && forall f :: cand(f) && Smaller(f, at) ==> Beats(best, e, score(f), f)
    else
      best.0 == limit && e == (0, 0)
  }

  /** Moving on without a candidate: at the next place, or at the start of the next row. */
  lemma BestBeforeSkip(cand: Candidates, score: Scores, limit: int, at: Edge, next: Edge, best: (int, int), e: Edge)
    requires BestBefore(cand, score, limit, at, best, e)
    requires forall f :: cand(f) ==> (Smaller(f, at) <==> Smaller(f, next))
    ensures BestBefore(cand, score, limit, next, best, e)
  {
  }

  lemma BestBeforeStep(cand: Candidates, score: Scores, limit: int, at: Edge, best: (int, int), e: Edge)
    requires BestBefore(cand, score, limit, at, best, e) && cand(at)
    requires score(at).0 < limit
    ensures if Smaller(score(at), best)
            then BestBefore(cand, score, limit, (at.0, at.1 + 1), score(at), at)
            else BestBefore(cand, score, limit, (at.0, at.1 + 1), best, e)
  {
    var next := (at.0, at.1 + 1);
    assert cand(at) && Smaller(at, next);
    forall f | cand(f) && Smaller(f, next)
      ensures Smaller(f, at) || f == at
    {
    }
  }

  ghost predicate Searches(cand: Candidates, score: Scores, g: Graph, n: nat, m: int) {
    && (forall e {:trigger Candidate(g, n, e)} :: cand(e) <==> Candidate(g, n, e))
    && (forall e {:trigger Score(g, n, m, e)} :: score(e) == Score(g, n, m, e))
  }

  lemma SearchStart(g: Graph, n: nat, m: int, best: (int, int)) returns (cand: Candidates, score: Scores)
    requires best.0 == 2 * n
    ensures Searches(cand, score, g, n, m)
    ensures BestBefore(cand, score, 2 * n, (0, 0), best, (0, 0))
  {
    cand := e => Candidate(g, n, e);
    score := e => Score(g, n, m, e);
    forall f | cand(f) ensures !Smaller(f, (0, 0)) {
      assert Candidate(g, n, f);
    }
  }

  lemma SearchSkip(cand: Candidates, score: Scores, g: Graph, n: nat, m: int, i: nat, j: nat, best: (int, int), e: Edge)
    requires Searches(cand, score, g, n, m)
    requires BestBefore(cand, score, 2 * n, (i, j), best, e)
    requires !Candidate(g, n, (i, j))
    ensures BestBefore(cand, score, 2 * n, (i, j + 1), best, e)
  {
    assert !cand((i, j));
    BestBeforeSkip(cand, score, 2 * n, (i, j), (i, j + 1), best, e);
  }

  lemma SearchStep(cand: Candidates, score: Scores, g: Graph, n: nat, m: int, i: nat, j: nat, best: (int, int), e: Edge,
                   c: (int, int))
    requires Oriented(g, n) && Searches(cand, score, g, n, m)
    requires BestBefore(cand, score, 2 * n, (i, j), best, e)
    requires Candidate(g, n, (i, j)) && c == Score(g, n, m, (i, j))
    ensures if Smaller(c, best)
            then BestBefore(cand, score, 2 * n, (i, j + 1), c, (i, j))
            else BestBefore(cand, score, 2 * n, (i, j + 1), best, e)
  {
    CandidateLoad(g, n, (i, j));
    BestBeforeStep(cand, score, 2 * n, (i, j), best, e);
  }

  lemma SearchRow(cand: Candidates, score: Scores, g: Graph, n: nat, m: int, i: nat, best: (int, int), e: Edge)
    requires Searches(cand, score, g, n, m)
    requires BestBefore(cand, score, 2 * n, (i, n), best, e)
    ensures BestBefore(cand, score, 2 * n, (i + 1, 0), best, e)
  {
    forall f | cand(f)
      ensures Smaller(f, (i, n)) <==> Smaller(f, (i + 1, 0))
    {
      assert Candidate(g, n, f);
    }
    BestBeforeSkip(cand, score, 2 * n, (i, n), (i + 1, 0), best, e);
  }

  lemma SearchEnd(cand: Candidates, score: Scores, g: Graph, n: nat, m: int, best: (int, int), e: Edge)
    requires Searches(cand, score, g, n, m)
    requires BestBefore(cand, score, 2 * n, (n, 0), best, e)
    ensures if exists f :: Candidate(g, n, f) then IsBest(g, n, m, e) else e == (0, 0)
  {
    if f0 :| Candidate(g, n, f0) {
      assert cand(f0) && Smaller(f0, (n, 0));
      forall f | Candidate(g, n, f)
        ensures Beats(Score(g, n, m, e), e, Score(g, n, m, f), f)
      {
        assert cand(f) && Smaller(f, (n, 0));
      }
      assert Candidate(g, n, e);
    } else {
      forall f ensures !cand(f) {
        assert !Candidate(g, n, f);
      }
    }
  }

  // ----- the matrix

  class QuorumMatrix {
    const nodes: nat
    const conns: array2<int>

    /** The connections the matrix stands for. */
    ghost var edges: Graph

    ghost predicate Binary()
      reads this, conns
    {
      && conns.Length0 == nodes
      && conns.Length1 == nodes
      && (forall e :: e in edges ==> InRange(nodes, e))
      && (forall i, j :: 0 <= i < nodes && 0 <= j < nodes ==>
            conns[i, j] == if (i, j) in edges then 1 else 0)
    }

    ghost predicate Valid()
      reads this, conns
    {
      Binary() && Oriented(edges, nodes)
    }

    constructor (n: nat)
      ensures nodes == n && fresh(conns)
      ensures Valid() && edges == {}
    {
      nodes := n;
      conns := new int[n, n]((i, j) => 0);
      edges := {};
    }

    method NeighboursOf(j: nat) returns (neighbours: seq<int>)
      requires Binary() && j < nodes
      ensures forall x :: x in neighbours <==> 0 <= x < nodes && x != j && Adjacent(edges, j, x)
      ensures forall p, q :: 0 <= p < q < |neighbours| ==> neighbours[p] < neighbours[q]
    {
      neighbours := [];
      for r := 0 to j
        invariant forall x :: x in neighbours <==> 0 <= x < r && Adjacent(edges, j, x)
        invariant forall p :: 0 <= p < |neighbours| ==> neighbours[p] < r
        invariant forall p, q :: 0 <= p < q < |neighbours| ==> neighbours[p] < neighbours[q]
      {
        if conns[r, j] != 0 || conns[j, r] > 0 {
          neighbours := neighbours + [r];
        }
      }
      for c := j + 1 to nodes
        invariant forall x :: x in neighbours <==> 0 <= x < c && x != j && Adjacent(edges, j, x)
        invariant forall p :: 0 <= p < |neighbours| ==> neighbours[p] < c
        invariant forall p, q :: 0 <= p < q < |neighbours| ==> neighbours[p] < neighbours[q]
      {
        if conns[j, c] != 0 || conns[c, j] > 0 {
          neighbours := neighbours + [c];
        }
      }
    }

    method CountPathsWithinTwo(a: nat, b: nat) returns (paths: nat)
      requires Binary() && a < nodes && b < nodes
      ensures paths == Paths(edges, nodes, a, b)
    {
      var i, j := a, b;
      if i > j {
        i, j := j, i;
      }
      ghost var g := edges;
      var neighbours := NeighboursOf(j);
      paths := 0;
      for k := 0 to |neighbours|
        invariant paths == |Counted(g, i, neighbours[..k])|
      {
        var n := neighbours[k];
        assert n in neighbours;
        CountedStep(g, i, neighbours, k);
        if n == i || conns[n, i] > 0 || conns[i, n] > 0 {
          paths := paths + 1;
        }
      }
      assert neighbours[..|neighbours|] == neighbours;
      CountedArePaths(g, nodes, i, j, neighbours);
      PathsSymmetric(g, nodes, a, b);
    }

    method MinWithinTwo() returns (m: Option<nat>)
      requires Binary()
      ensures m.None? <==> nodes < 2
      ensures m.Some? ==> IsMinPaths(edges, nodes, m.value)
    {
      m := None;
      ghost var g := edges;
      for i := 0 to nodes
        invariant MinOver(g, nodes, Before(nodes, (i, 0)), m)
      {
        BeforeRow(nodes, i);
        for j := i + 1 to nodes
          invariant MinOver(g, nodes, Before(nodes, (i, j)), m)
        {
          var c := CountPathsWithinTwo(i, j);
          MinOverStep(g, nodes, i, j, m);
          if m.None? || c < m.value {
            m := Some(c);
          }
        }
      }
      BeforeEnd(nodes);
      assert nodes >= 2 ==> (0, 1) in Pairs(nodes);
    }

    method CountNotWithinTwo(minPaths: int) returns (c: nat)
      requires Binary()
      ensures c == NotWithinTwo(edges, nodes, minPaths)
    {
      c := 0;
      for i := 0 to nodes
        invariant c == FewInRows(edges, nodes, minPaths, i)
      {
        for j := i + 1 to nodes
          invariant c == FewInRows(edges, nodes, minPaths, i) + FewInRow(edges, nodes, minPaths, i, j)
        {
          var k := CountPathsWithinTwo(i, j);
          if k <= minPaths {
            c := c + 1;
          }
        }
      }
    }

    method OutgoingConns(i: nat) returns (s: nat)
      requires Binary() && i < nodes
      ensures s == |Outgoing(edges, nodes, i)|
    {
      s := 0;
      ghost var seen: set<int> := {};
      for j := 0 to nodes
        invariant seen == set k | 0 <= k < j && (i, k) in edges
        invariant s == |seen|
      {
        s := s + conns[i, j];
        seen := if conns[i, j] == 1 then seen + {j} else seen;
      }
      assert seen == Outgoing(edges, nodes, i);
    }

    method IncomingConns(j: nat) returns (s: nat)
      requires Binary() && j < nodes
      ensures s == |Incoming(edges, nodes, j)|
    {
      s := 0;
      ghost var seen: set<int> := {};
      for k := 0 to nodes
        invariant seen == set x | 0 <= x < k && (x, j) in edges
        invariant s == |seen|
      {
        s := s + conns[k, j];
        seen := if conns[k, j] == 1 then seen + {k} else seen;
      }
      assert seen == Incoming(edges, nodes, j);
    }

    /** Adds one connection. */
    method AddConnection(i: nat, j: nat)
      requires Valid() && Candidate(edges, nodes, (i, j))
      modifies this, conns
      ensures Valid() && edges == old(edges) + {(i, j)}
    {
      conns[i, j], edges := 1, edges + {(i, j)};
    }

    /** Adds the connection (i, j) for a moment, to see what it is worth. */
    method Probe(i: nat, j: nat, minPaths: int) returns (c: nat)
      requires Valid() && Candidate(edges, nodes, (i, j))
      modifies this, conns
      ensures Valid() && edges == old(edges)
      ensures c == Leftover(edges, nodes, minPaths, (i, j))
    {
      AddConnection(i, j);
      c := CountNotWithinTwo(minPaths);
      conns[i, j], edges := 0, old(edges);
    }

    /** Looks at the place (i, j) of the matrix and updates the best connection so far. */
    method Consider(i: nat, j: nat, minPaths: int, outgoing: nat, best: (int, int), bi: nat, bj: nat,
                    ghost cand: Candidates, ghost score: Scores)
      returns (best': (int, int), bi': nat, bj': nat)
      requires Valid() && i < nodes && j < nodes && outgoing == |Outgoing(edges, nodes, i)|
      requires Searches(cand, score, edges, nodes, minPaths)
      requires BestBefore(cand, score, 2 * nodes, (i, j), best, (bi, bj))
      modifies this, conns
      ensures Valid() && edges == old(edges)
      ensures BestBefore(cand, score, 2 * nodes, (i, j + 1), best', (bi', bj'))
    {
      best', bi', bj' := best, bi, bj;
      var incoming := IncomingConns(j);
      if i == j || conns[i, j] != 0 || conns[j, i] != 0 {
        SearchSkip(cand, score, edges, nodes, minPaths, i, j, best, (bi, bj));
        return;
      }
      var left := Probe(i, j, minPaths);
      var c := (outgoing + 1 + (incoming + 1), left);
      SearchStep(cand, score, edges, nodes, minPaths, i, j, best, (bi, bj), c);
      if Smaller(c, best) {
        best', bi', bj' := c, i, j;
      }
    }

    /** Searches the whole matrix for the best connection to add. The matrix is left as it
        was found; (0, 0) is returned exactly when there is nothing to add. */
    method BestConnection(minPaths: int) returns (bi: nat, bj: nat)
      requires Valid()
      modifies this, conns
      ensures Valid() && edges == old(edges)
      ensures if exists e :: Candidate(edges, nodes, e)
              then IsBest(edges, nodes, minPaths, (bi, bj))
              else (bi, bj) == (0, 0)
    {
      ghost var g := edges;
      var sparse := CountNotWithinTwo(minPaths);
      var best := (nodes + nodes, sparse);
      ghost var cand, score := SearchStart(g, nodes, minPaths, best);
      bi, bj := 0, 0;
      for i := 0 to nodes
        invariant Valid() && edges == g
        invariant BestBefore(cand, score, 2 * nodes, (i, 0), best, (bi, bj))
      {
        var outgoing := OutgoingConns(i);
        for j := 0 to nodes
          invariant Valid() && edges == g
          invariant BestBefore(cand, score, 2 * nodes, (i, j), best, (bi, bj))
        {
          best, bi, bj := Consider(i, j, minPaths, outgoing, best, bi, bj, cand, score);
        }
        SearchRow(cand, score, g, nodes, minPaths, i, best, (bi, bj));
      }
      SearchEnd(cand, score, g, nodes, minPaths, best, (bi, bj));
    }

    /** One pass of the generator: finds and adds the best connection. */
    method Pass(minPaths: nat, ghost run: seq<Edge>) returns (ghost run': seq<Edge>)
      requires nodes >= 5 && Valid()
      requires IsMinPaths(edges, nodes, minPaths) && minPaths < MinConnections(nodes)
      requires GreedyRun(run, nodes, MinConnections(nodes)) && Mesh(run) == edges
      modifies this, conns
      ensures Valid()
      ensures GreedyRun(run', nodes, MinConnections(nodes)) && Mesh(run') == edges
      ensures |run'| == |run| + 1 && 2 * |run'| <= nodes * (nodes - 1)
    {
      CandidateExists(edges, nodes, minPaths);
      var bi, bj := BestConnection(minPaths);
      run' := GreedyStep(run, nodes, MinConnections(nodes), edges, minPaths, (bi, bj));
      AddConnection(bi, bj);
    }

    /** Builds the mesh. `run` lists the connections in the order they were added; by
        FinishedRunIsUnique it is the only finished run there is. */
    method Generate() returns (ghost run: seq<Edge>)
      requires nodes >= 5
      requires Valid() && edges == {}
      modifies this, conns
      ensures Valid()
      ensures Finished(run, nodes, MinConnections(nodes)) && Mesh(run) == edges
    {
      var target := MinConnections(nodes);
      var minPaths := 0;
      ghost var limit := nodes * (nodes - 1);
      run := [];
      EmptyMesh(nodes);
      while minPaths < target
        invariant Valid()
        invariant IsMinPaths(edges, nodes, minPaths)
        invariant GreedyRun(run, nodes, target) && Mesh(run) == edges
        decreases limit - 2 * |run|
      {
        run := Pass(minPaths, run);
        var m := MinWithinTwo();
        minPaths := m.value;
      }
      MinPathsCoversAllPairs(edges, nodes, minPaths, target);
    }
  }
}
