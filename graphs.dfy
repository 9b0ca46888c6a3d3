/**
 * The dependency graph seen through node indices: node `i` of a Dag is index `i`, and
 * `adj[i]` is the list of indices in that node's `is_dependency_for` list. This module
 * holds what both Dag generations share: the meaning of a directed cycle, the
 * three-colour depth-first search of `has_cycle?` / `is_cyclic_util`, and the
 * edge list `get_edges` walks through.
 */
module Graphs {
  import opened Wrappers

  /** Every listed successor is a node of the graph. */
  predicate Closed(adj: seq<seq<nat>>) {
    forall i, k :: 0 <= i < |adj| && 0 <= k < |adj[i]| ==> adj[i][k] < |adj|
  }

  ghost predicate IsEdge(adj: seq<seq<nat>>, a: nat, b: nat) {
    a < |adj| && b in adj[a]
  }

  /** `p` walks along edges of the graph. */
  ghost predicate IsPath(adj: seq<seq<nat>>, p: seq<nat>) {
    && (forall k :: 0 <= k < |p| ==> p[k] < |adj|)
    && (forall k :: 0 <= k < |p| - 1 ==> IsEdge(adj, p[k], p[k + 1]))
  }

  /** A closed walk of at least one edge; a self-loop `[a, a]` is one. */
  ghost predicate IsCycle(adj: seq<seq<nat>>, c: seq<nat>) {
    |c| >= 2 && c[0] == c[|c| - 1] && IsPath(adj, c)
  }

  ghost predicate Cyclic(adj: seq<seq<nat>>) {
    exists c :: IsCycle(adj, c)
  }

  /** Along a path whose edges all go down in `rank`, the last node ranks below the first. */
  lemma {:induction false} RankDecreasesAlongPath(adj: seq<seq<nat>>, rank: map<nat, nat>, p: seq<nat>)
    requires IsPath(adj, p) && |p| >= 2
    requires forall a, b :: IsEdge(adj, a, b) ==> a in rank && b in rank && rank[b] < rank[a]
    ensures p[0] in rank && p[|p| - 1] in rank && rank[p[|p| - 1]] < rank[p[0]]
  {
    assert IsEdge(adj, p[0], p[1]);
    if |p| > 2 {
      var tail := p[1..];
      assert forall k :: 0 <= k < |tail| ==> tail[k] == p[k + 1];
      RankDecreasesAlongPath(adj, rank, tail);
    }
  }

  /** A graph whose every edge goes down in some ranking has no cycle. */
  lemma RankedIsAcyclic(adj: seq<seq<nat>>, rank: map<nat, nat>)
    requires forall a, b :: IsEdge(adj, a, b) ==> a in rank && b in rank && rank[b] < rank[a]
    ensures !Cyclic(adj)
  {
    if Cyclic(adj) {
      var c :| IsCycle(adj, c);
      RankDecreasesAlongPath(adj, rank, c);
    }
  }

  /** An edge from the end of a path back into the path closes a cycle. */
  lemma BackEdgeCloses(adj: seq<seq<nat>>, p: seq<nat>, k: nat)
    requires IsPath(adj, p) && k < |p| && IsEdge(adj, p[|p| - 1], p[k])
    ensures Cyclic(adj)
  {
    var c := p[k..] + [p[k]];
    assert forall m :: 0 <= m < |c| - 1 ==> c[m] == p[k + m];
    assert IsCycle(adj, c);
  }

  /** A graph without nodes has no cycle. */
  lemma EmptyIsAcyclic()
    ensures !Cyclic([])
  {
    RankedIsAcyclic([], map[]);
  }

  /** The edges leaving node `a`, as (from, to) pairs in list order. */
  function Row(adj: seq<seq<nat>>, a: nat): (r: seq<(nat, nat)>)
    requires a < |adj|
    ensures |r| == |adj[a]|
    ensures forall j :: 0 <= j < |r| ==> r[j] == (a, adj[a][j])
  {
    seq(|adj[a]|, j requires 0 <= j < |adj[a]| => (a, adj[a][j]))
  }

  /** The edges as (from, to) pairs: node by node, and each node's list in its own order. */
  function EdgePairs(adj: seq<seq<nat>>): seq<(nat, nat)> {
    if adj == [] then [] else EdgePairs(adj[..|adj| - 1]) + Row(adj, |adj| - 1)
  }

  /** The listed pairs are exactly the edges of the graph. */
  lemma {:induction false} EdgePairsAreEdges(adj: seq<seq<nat>>, a: nat, b: nat)
    ensures (a, b) in EdgePairs(adj) <==> IsEdge(adj, a, b)
    decreases |adj|
  {
    if adj != [] {
      var n := |adj| - 1;
      var last := Row(adj, n);
      EdgePairsAreEdges(adj[..n], a, b);
      assert EdgePairs(adj) == EdgePairs(adj[..n]) + last;
      if a == n && b in adj[n] {
        var j :| 0 <= j < |adj[n]| && adj[n][j] == b;
        assert last[j] == (a, b);
      }
      if a < n {
        assert adj[..n][a] == adj[a];
      }
    }
  }

  // ---------------------------------------------------------------------------
  // Three-colour depth-first search (`has_cycle?` and `is_cyclic_util`).
  // A node is white when not visited, grey when on the recursion stack, and
  // black ("finished") when visited and off the stack.
  // ---------------------------------------------------------------------------

  function Unvisited(visited: seq<bool>): set<nat> {
    set i: nat | i < |visited| && !visited[i]
  }

  ghost predicate Finished(visited: seq<bool>, onStack: seq<bool>, x: nat) {
    x < |visited| && x < |onStack| && visited[x] && !onStack[x]
  }

  /**
   * The search invariant: the grey nodes are exactly those on the recursion
   * stack, which is a path; every black node carries a rank, and every edge
   * out of a black node leads to a black node of smaller rank.
   */
  ghost predicate SearchInv(adj: seq<seq<nat>>, visited: seq<bool>, onStack: seq<bool>,
                            stack: seq<nat>, rank: map<nat, nat>, time: nat)
  {
    && |visited| == |adj| && |onStack| == |adj| && Closed(adj)
    && IsPath(adj, stack)
    && (forall x :: 0 <= x < |adj| ==> (onStack[x] <==> x in stack))
    && (forall x :: 0 <= x < |adj| && onStack[x] ==> visited[x])
    && (forall x :: 0 <= x < |adj| && visited[x] && !onStack[x] ==> x in rank && rank[x] < time)
    && (forall x :: x in rank ==> Finished(visited, onStack, x))
    && (forall x, y :: 0 <= x < |adj| && visited[x] && !onStack[x] && y in adj[x] ==>
          Finished(visited, onStack, y) && x in rank && y in rank && rank[y] < rank[x])
  }

  lemma SubsetNotLarger(a: set<nat>, b: set<nat>)
    requires a <= b
    ensures |a| <= |b|
  {
    assert b == a + (b - a);
  }

  lemma SubsetSmaller(a: set<nat>, b: set<nat>, u: nat)
    requires a <= b - {u} && u in b
    ensures |a| < |b|
  {
    assert b == (b - {u}) + {u};
    assert |b - {u}| == |b| - 1;
    var rest := (b - {u}) - a;
    assert b - {u} == a + rest;
  }

  /** Colouring a white successor of the stack top grey pushes it onto the stack. */
  lemma MarkGrey(adj: seq<seq<nat>>, visited: seq<bool>, onStack: seq<bool>,
                 stack: seq<nat>, rank: map<nat, nat>, time: nat, u: nat)
    requires SearchInv(adj, visited, onStack, stack, rank, time)
    requires u < |adj| && !visited[u] && (stack == [] || u in adj[stack[|stack| - 1]])
    ensures SearchInv(adj, visited[u := true], onStack[u := true], stack + [u], rank, time)
  {
    var path := stack + [u];
    var v, o := visited[u := true], onStack[u := true];
    assert forall k :: 0 <= k < |stack| ==> path[k] == stack[k];
    assert IsPath(adj, path);
    forall x | 0 <= x < |adj|
      ensures (o[x] <==> x in path) && (o[x] ==> v[x])
    {
      if x != u {
        assert x in path <==> x in stack;
      }
    }
    forall x | 0 <= x < |adj| && v[x] && !o[x]
      ensures x != u && visited[x] && !onStack[x]
    {
    }
    forall x, y | 0 <= x < |adj| && v[x] && !o[x] && y in adj[x]
      ensures Finished(v, o, y) && x in rank && y in rank && rank[y] < rank[x]
    {
      assert Finished(visited, onStack, y);
    }
  }

  /** Colouring the stack top black, once all its successors are black, pops it. */
  lemma MarkBlack(adj: seq<seq<nat>>, visited: seq<bool>, onStack: seq<bool>,
                  stack: seq<nat>, rank: map<nat, nat>, time: nat, u: nat)
    requires SearchInv(adj, visited, onStack, stack + [u], rank, time)
    requires u < |adj| && u !in stack
    requires forall y :: y in adj[u] ==> Finished(visited, onStack, y)
    ensures SearchInv(adj, visited, onStack[u := false], stack, rank[u := time], time + 1)
    ensures Finished(visited, onStack[u := false], u)
  {
    var path := stack + [u];
    var o, r := onStack[u := false], rank[u := time];
    assert forall k :: 0 <= k < |stack| ==> path[k] == stack[k];
    assert IsPath(adj, stack);
    forall x | 0 <= x < |adj|
      ensures (o[x] <==> x in stack) && (o[x] ==> visited[x])
    {
      if x != u {
        assert x in path <==> x in stack;
      }
    }
    forall x | 0 <= x < |adj| && visited[x] && !o[x]
      ensures x in r && r[x] < time + 1
    {
    }
    forall x, y | 0 <= x < |adj| && visited[x] && !o[x] && y in adj[x]
      ensures Finished(visited, o, y) && x in r && y in r && r[y] < r[x]
    {
      assert Finished(visited, onStack, y);
      assert y != u;
      if x != u {
        assert !onStack[x];
      }
    }
  }

  /**
   * The search only moves forward: visited nodes stay visited, black nodes stay
   * black, and ranks once given are kept.
   */
  ghost predicate Later(adj: seq<seq<nat>>, v0: seq<bool>, o0: seq<bool>, r0: map<nat, nat>,
                        v1: seq<bool>, o1: seq<bool>, r1: map<nat, nat>)
  {
    && |v0| == |adj| && |v1| == |adj|
    && (forall x :: 0 <= x < |adj| && v0[x] ==> v1[x])
    && (forall x :: Finished(v0, o0, x) ==> Finished(v1, o1, x))
    && (forall x :: x in r0 ==> x in r1 && r1[x] == r0[x])
  }

  lemma LaterTransitive(adj: seq<seq<nat>>, v0: seq<bool>, o0: seq<bool>, r0: map<nat, nat>,
                        v1: seq<bool>, o1: seq<bool>, r1: map<nat, nat>,
                        v2: seq<bool>, o2: seq<bool>, r2: map<nat, nat>)
    requires Later(adj, v0, o0, r0, v1, o1, r1) && Later(adj, v1, o1, r1, v2, o2, r2)
    ensures Later(adj, v0, o0, r0, v2, o2, r2)
    ensures Unvisited(v2) <= Unvisited(v0)
  {
  }

  /**
   * `is_cyclic_util(u)`: on a white node, colour it grey, explore its
   * successors, and report a cycle if that exploration finds one; otherwise
   * colour it black. On a node already visited it only clears the node's stack
   * mark.
   */
  method IsCyclicUtil(adj: seq<seq<nat>>, u: nat, visited: array<bool>, onStack: array<bool>,
                      ghost stack: seq<nat>, ghost rank: map<nat, nat>, ghost time: nat)
    returns (cyclic: bool, ghost rank': map<nat, nat>, ghost time': nat)
    requires u < |adj| && visited != onStack
    requires SearchInv(adj, visited[..], onStack[..], stack, rank, time)
    requires !visited[u] ==> stack == [] || u in adj[stack[|stack| - 1]]
    requires visited[u] ==> !onStack[u]
    modifies visited, onStack
    decreases |Unvisited(visited[..])|, 0
    ensures cyclic ==> Cyclic(adj)
    ensures !cyclic ==> SearchInv(adj, visited[..], onStack[..], stack, rank', time')
    ensures !cyclic ==> Finished(visited[..], onStack[..], u)
    ensures !cyclic ==> Later(adj, old(visited[..]), old(onStack[..]), rank, visited[..], onStack[..], rank')
  {
    rank', time' := rank, time;
    if !visited[u] {
      ghost var v0, o0 := visited[..], onStack[..];
      MarkGrey(adj, visited[..], onStack[..], stack, rank, time, u);
      visited[u] := true;
      onStack[u] := true;
      ghost var v1, o1 := visited[..], onStack[..];
      SubsetSmaller(Unvisited(v1), Unvisited(v0), u);
      cyclic, rank', time' := AnyDependentCyclic(adj, u, visited, onStack, stack, rank', time');
      if cyclic {
        return;
      }
      MarkBlack(adj, visited[..], onStack[..], stack, rank', time', u);
      ghost var v2, o2, r2 := visited[..], onStack[..], rank';
      onStack[u] := false;
      rank' := rank'[u := time'];
      time' := time' + 1;
      assert Later(adj, v0, o0, rank, v1, o1, rank);
      assert Later(adj, v2, o2, r2, visited[..], onStack[..], rank') by {
        assert !Finished(v2, o2, u);
        assert u !in r2;
      }
      LaterTransitive(adj, v0, o0, rank, v1, o1, rank, v2, o2, r2);
      LaterTransitive(adj, v0, o0, rank, v2, o2, r2, visited[..], onStack[..], rank');
    } else {
      onStack[u] := false;
      assert onStack[..] == old(onStack[..]);
    }
    cyclic := false;
  }
  /**
   * The `any?` over the grey node `u`'s successors inside `is_cyclic_util`:
   * stops at the first successor whose block reports a cycle.
   */
  method AnyDependentCyclic(adj: seq<seq<nat>>, u: nat, visited: array<bool>, onStack: array<bool>,
                            ghost stack: seq<nat>, ghost rank: map<nat, nat>, ghost time: nat)
    returns (cyclic: bool, ghost rank': map<nat, nat>, ghost time': nat)
    requires u < |adj| && visited != onStack && u !in stack
    requires SearchInv(adj, visited[..], onStack[..], stack + [u], rank, time)
    modifies visited, onStack
    decreases |Unvisited(visited[..])|, 2
    ensures cyclic ==> Cyclic(adj)
    ensures !cyclic ==> SearchInv(adj, visited[..], onStack[..], stack + [u], rank', time')
    ensures !cyclic ==> forall y :: y in adj[u] ==> Finished(visited[..], onStack[..], y)
    ensures !cyclic ==> Later(adj, old(visited[..]), old(onStack[..]), rank, visited[..], onStack[..], rank')
  {
    rank', time' := rank, time;
    var successors := adj[u];
    var j := 0;
    while j < |successors|
      invariant 0 <= j <= |successors|
      invariant SearchInv(adj, visited[..], onStack[..], stack + [u], rank', time')
      invariant Later(adj, old(visited[..]), old(onStack[..]), rank, visited[..], onStack[..], rank')
      invariant forall k :: 0 <= k < j ==> Finished(visited[..], onStack[..], successors[k])
    {
      ghost var v0, o0, r0 := visited[..], onStack[..], rank';
      SubsetNotLarger(Unvisited(v0), Unvisited(old(visited[..])));
      cyclic, rank', time' := DependentCyclic(adj, u, successors[j], visited, onStack, stack, rank', time');
      if cyclic {
        return;
      }
      LaterTransitive(adj, old(visited[..]), old(onStack[..]), rank, v0, o0, r0, visited[..], onStack[..], rank');
      j := j + 1;
    }
    cyclic := false;
  }

  /**
   * The block given to that `any?` for successor `d`: search `d` if it is
   * white; then the answer is whether `d` is grey, i.e. an edge back into the
   * recursion stack.
   */
  method DependentCyclic(adj: seq<seq<nat>>, u: nat, d: nat, visited: array<bool>, onStack: array<bool>,
                         ghost stack: seq<nat>, ghost rank: map<nat, nat>, ghost time: nat)
    returns (cyclic: bool, ghost rank': map<nat, nat>, ghost time': nat)
    requires u < |adj| && d in adj[u] && visited != onStack && u !in stack
    requires SearchInv(adj, visited[..], onStack[..], stack + [u], rank, time)
    modifies visited, onStack
    decreases |Unvisited(visited[..])|, 1
    ensures cyclic ==> Cyclic(adj)
    ensures !cyclic ==> SearchInv(adj, visited[..], onStack[..], stack + [u], rank', time')
    ensures !cyclic ==> Finished(visited[..], onStack[..], d)
    ensures !cyclic ==> Later(adj, old(visited[..]), old(onStack[..]), rank, visited[..], onStack[..], rank')
  {
    rank', time' := rank, time;
    ghost var path := stack + [u];
    assert path[|path| - 1] == u;
    if !visited[d] {
      cyclic, rank', time' := IsCyclicUtil(adj, d, visited, onStack, path, rank, time);
      if cyclic {
        return;
      }
    }
    cyclic := onStack[d];
    if cyclic {
      ghost var k :| 0 <= k < |path| && path[k] == d;
      BackEdgeCloses(adj, path, k);
    }
  }

  /**
   * `has_cycle?`: runs the search from every node in order, so that cycles in
   * parts of the graph not reachable from the first node are found too. The
   * result is true exactly when the graph has a directed cycle.
   */
  method AnyCyclic(adj: seq<seq<nat>>) returns (cyclic: bool)
    requires Closed(adj)
    ensures cyclic <==> Cyclic(adj)
  {
    var visited := new bool[|adj|](_ => false);
    var onStack := new bool[|adj|](_ => false);
    ghost var rank: map<nat, nat> := map[];
    ghost var time: nat := 0;
    var i := 0;
    while i < |adj|
      invariant 0 <= i <= |adj|
      invariant SearchInv(adj, visited[..], onStack[..], [], rank, time)
      invariant forall k :: 0 <= k < i ==> visited[k]
    {
      var found;
      found, rank, time := IsCyclicUtil(adj, i, visited, onStack, [], rank, time);
      if found {
        return true;
      }
      i := i + 1;
    }
    forall a: nat, b: nat | IsEdge(adj, a, b)
      ensures a in rank && b in rank && rank[b] < rank[a]
    {
      assert visited[a] && !onStack[a];
    }
    RankedIsAcyclic(adj, rank);
    return false;
  }
}
