/**
 * The dependency graph of the current generation (ruby/lib/dag.rb). Nodes wrap
 * jobs; a node's `isDependencyFor` list holds the positions, in the Dag's node
 * list, of the nodes that depend on it, so the reverse edges run from a job to
 * the jobs that need it.
 */
module Dags {
  import opened Wrappers
  import opened Records
  import Jobs
  import Graphs
  import Seqs
  import ReverseEdges

  class Node {
    const name: Name
    const job: Jobs.Job
    /** The names of the jobs this node depends on. */
    var dependsOn: seq<Name>
    /** Positions of the nodes that depend on this one. */
    var isDependencyFor: seq<nat>

    /** `Node.new(job)`: takes the job's name and starts without edges. */
    constructor (j: Jobs.Job)
      ensures job == j && name == j.name
      ensures dependsOn == [] && isDependencyFor == []
    {
      job := j;
      name := j.name;
      dependsOn := [];
      isDependencyFor := [];
    }

    /** `add_dependency`: one more name at the end of `dependsOn`, nothing else changes. */
    method AddDependency(dependency: Name)
      modifies this
      ensures dependsOn == old(dependsOn) + [dependency]
      ensures isDependencyFor == old(isDependencyFor)
    {
      dependsOn := dependsOn + [dependency];
    }

    /** `add_is_dependency_for`: one more node at the end of `isDependencyFor`, nothing else changes. */
    method AddIsDependencyFor(dependent: nat)
      modifies this
      ensures isDependencyFor == old(isDependencyFor) + [dependent]
      ensures dependsOn == old(dependsOn)
    {
      isDependencyFor := isDependencyFor + [dependent];
    }
  }

  /** `Edge.new(from, to)`: a reverse edge, from a node to one that depends on it. */
  datatype Edge = Edge(from: Node, to: Node)

  class Dag {
    /** The nodes in insertion order; `each` enumerates exactly this list. */
    var nodes: seq<Node>

    /** `Dag.new`: no nodes. */
    constructor ()
      ensures nodes == []
    {
      nodes := [];
    }

    /** `<<`: the node goes at the end; the nodes themselves are untouched. */
    method Append(node: Node)
      modifies this
      ensures nodes == old(nodes) + [node]
    {
      nodes := nodes + [node];
    }

    function Names(): (r: seq<Name>)
      reads this
      ensures |r| == |nodes|
      ensures forall k :: 0 <= k < |nodes| ==> r[k] == nodes[k].name
    {
      NamesOf(nodes)
    }

    function Deps(): (r: seq<seq<Name>>)
      reads this, nodes
      ensures |r| == |nodes|
      ensures forall k :: 0 <= k < |nodes| ==> r[k] == nodes[k].dependsOn
    {
      seq(|nodes|, k requires 0 <= k < |nodes| reads this, nodes => nodes[k].dependsOn)
    }

    /** The reverse-edge graph over node positions. */
    function Adjacency(): (r: seq<seq<nat>>)
      reads this, nodes
      ensures |r| == |nodes|
      ensures forall k :: 0 <= k < |nodes| ==> r[k] == nodes[k].isDependencyFor
    {
      seq(|nodes|, k requires 0 <= k < |nodes| reads this, nodes => nodes[k].isDependencyFor)
    }

    /** No node object is listed twice. */
    predicate Distinct()
      reads this
    {
      forall i, j :: 0 <= i < j < |nodes| ==> nodes[i] != nodes[j]
    }

    /**
     * `assign_dependencies`: for every node in order and every name it depends on
     * in order, appends the node to the reverse-edge list of the first node with
     * that name, and stops with an error at the first name no node carries. On
     * success every node has heard from exactly the nodes naming it; after an
     * error the nodes keep what was appended before the dangling name.
     */
    method AssignDependencies() returns (err: Option<string>)
      requires Distinct()
      modifies nodes
      ensures forall k :: 0 <= k < |nodes| ==> nodes[k].dependsOn == old(nodes[k].dependsOn)
      ensures err.None? <==> ReverseEdges.AllFound(Names(), old(Deps()))
      ensures err.None? ==> forall k :: 0 <= k < |nodes| ==>
                nodes[k].isDependencyFor == old(nodes[k].isDependencyFor) + ReverseEdges.Incoming(Names(), old(Deps()), k)
      ensures err.Some? ==> exists i: nat, j: nat ::
                ReverseEdges.IsFirstMissing(Names(), old(Deps()), i, j) &&
                err.value == ReverseEdges.MissingMessage(old(Deps())[i][j]) &&
                forall k :: 0 <= k < |nodes| ==>
                  nodes[k].isDependencyFor == old(nodes[k].isDependencyFor) + ReverseEdges.Added(Names(), old(Deps()), i, j, k)
    {
      var names := Names();
      ghost var deps := Deps();
      ghost var before := Adjacency();
      var i := 0;
      while i < |nodes|
        invariant 0 <= i <= |nodes|
        invariant forall k :: 0 <= k < |nodes| ==> nodes[k].dependsOn == deps[k]
        invariant forall k :: 0 <= k < |nodes| ==>
                    nodes[k].isDependencyFor == before[k] + ReverseEdges.Incoming(names, deps[..i], k)
        invariant ReverseEdges.AllFound(names, deps[..i])
      {
        err := AssignDependenciesOf(i, names, deps, before);
        if err.Some? {
          return;
        }
        i := i + 1;
      }
      assert deps[..|nodes|] == deps;
      return None;
    }

    /** One round of `assign_dependencies`: the names node `i` depends on, in order. */
    method AssignDependenciesOf(i: nat, names: seq<Name>, ghost deps: seq<seq<Name>>, ghost before: seq<seq<nat>>)
      returns (err: Option<string>)
      requires Distinct() && i < |nodes| && |deps| == |nodes| && |before| == |nodes|
      requires names == Names()
      requires forall k :: 0 <= k < |nodes| ==> nodes[k].dependsOn == deps[k]
      requires forall k :: 0 <= k < |nodes| ==>
                 nodes[k].isDependencyFor == before[k] + ReverseEdges.Incoming(names, deps[..i], k)
      requires ReverseEdges.AllFound(names, deps[..i])
      modifies nodes
      ensures forall k :: 0 <= k < |nodes| ==> nodes[k].dependsOn == deps[k]
      ensures err.None? ==> ReverseEdges.AllFound(names, deps[..i + 1])
      ensures err.None? ==> forall k :: 0 <= k < |nodes| ==>
                nodes[k].isDependencyFor == before[k] + ReverseEdges.Incoming(names, deps[..i + 1], k)
      ensures err.Some? ==> exists j: nat ::
                ReverseEdges.IsFirstMissing(names, deps, i, j) &&
                err.value == ReverseEdges.MissingMessage(deps[i][j]) &&
                forall k :: 0 <= k < |nodes| ==>
                  nodes[k].isDependencyFor == before[k] + ReverseEdges.Added(names, deps, i, j, k)
    {
      var node := nodes[i];
      ReverseEdges.AddedStart(names, deps, i);
      var j := 0;
      while j < |node.dependsOn|
        invariant 0 <= j <= |deps[i]|
        invariant forall k :: 0 <= k < |nodes| ==> nodes[k].dependsOn == deps[k]
        invariant forall k :: 0 <= k < |nodes| ==>
                    nodes[k].isDependencyFor == before[k] + ReverseEdges.Added(names, deps, i, j, k)
        invariant ReverseEdges.AllIn(deps[i][..j], names)
      {
        err := AssignDependency(i, j, names, deps, before);
        if err.Some? {
          assert ReverseEdges.IsFirstMissing(names, deps, i, j);
          return;
        }
        ReverseEdges.AllInStep(deps[i], j, names);
        j := j + 1;
      }
      assert j == |deps[i]|;
      ReverseEdges.AddedComplete(names, deps, i);
      ReverseEdges.AllFoundStep(deps, i, names);
      return None;
    }

    /**
     * The block `assign_dependencies` runs for dependency `j` of node `i`: finds
     * the first node with that name and appends `i` to its reverse edges, or
     * reports the name as missing and changes nothing.
     */
    method AssignDependency(i: nat, j: nat, names: seq<Name>, ghost deps: seq<seq<Name>>, ghost before: seq<seq<nat>>)
      returns (err: Option<string>)
      requires Distinct() && i < |nodes| && |deps| == |nodes| && |before| == |nodes| && j < |deps[i]|
      requires names == Names()
      requires forall k :: 0 <= k < |nodes| ==> nodes[k].dependsOn == deps[k]
      requires forall k :: 0 <= k < |nodes| ==>
                 nodes[k].isDependencyFor == before[k] + ReverseEdges.Added(names, deps, i, j, k)
      modifies nodes
      ensures forall k :: 0 <= k < |nodes| ==> nodes[k].dependsOn == deps[k]
      ensures err.None? <==> deps[i][j] in names
      ensures err.Some? ==> err.value == ReverseEdges.MissingMessage(deps[i][j])
      ensures err.None? ==> forall k :: 0 <= k < |nodes| ==>
                nodes[k].isDependencyFor == before[k] + ReverseEdges.Added(names, deps, i, j + 1, k)
      ensures err.Some? ==> forall k :: 0 <= k < |nodes| ==>
                nodes[k].isDependencyFor == before[k] + ReverseEdges.Added(names, deps, i, j, k)
    {
      var dependentJob := nodes[i].dependsOn[j];
      var dependentNode := ReverseEdges.FindNamed(names, dependentJob);
      if dependentNode.None? {
        return Some(ReverseEdges.MissingMessage(dependentJob));
      }
      var target := dependentNode.value;
      ReverseEdges.AddedStep(names, deps, i, j);
      Link(target, i);
      forall k | 0 <= k < |nodes|
        ensures nodes[k].isDependencyFor == before[k] + ReverseEdges.Added(names, deps, i, j + 1, k)
      {
        var extra := if k == target then [i] else [];
        assert nodes[k].isDependencyFor == (before[k] + ReverseEdges.Added(names, deps, i, j, k)) + extra;
        assert ReverseEdges.Added(names, deps, i, j + 1, k) == ReverseEdges.Added(names, deps, i, j, k) + extra;
        Seqs.AppendAssociative(before[k], ReverseEdges.Added(names, deps, i, j, k), extra);
      }
      return None;
    }

    /** `dependent_node.add_is_dependency_for node`, seen from the whole node list. */
    method Link(target: nat, dependent: nat)
      requires Distinct() && target < |nodes|
      modifies nodes[target]
      ensures forall k :: 0 <= k < |nodes| ==> nodes[k].dependsOn == old(nodes[k].dependsOn)
      ensures forall k :: 0 <= k < |nodes| ==>
                nodes[k].isDependencyFor == old(nodes[k].isDependencyFor) + (if k == target then [dependent] else [])
    {
      nodes[target].AddIsDependencyFor(dependent);
      forall k | 0 <= k < |nodes| && k != target
        ensures nodes[k].isDependencyFor == old(nodes[k].isDependencyFor)
      {
        assert nodes[k] != nodes[target];
      }
    }

    /**
     * `has_cycle?`: true exactly when the reverse-edge graph has a directed
     * cycle. The search keeps its visited and on-stack marks to itself, so no
     * node changes.
     */
    method HasCycle() returns (cyclic: bool)
      requires Graphs.Closed(Adjacency()) && Seqs.NoDup(Names())
      ensures cyclic <==> Graphs.Cyclic(Adjacency())
    {
      cyclic := Graphs.AnyCyclic(Adjacency());
    }

    /** The edges `get_edges` lists, as node positions: node by node, each reverse-edge list in order. */
    function EdgePositions(): seq<(nat, nat)>
      reads this, nodes
    {
      Graphs.EdgePairs(Adjacency())
    }

    /**
     * `get_edges`: one Edge per entry of a node's reverse-edge list, from the
     * node to the node at that position, node by node and in list order.
     */
    method GetEdges() returns (edges: seq<Edge>)
      requires Graphs.Closed(Adjacency())
      ensures |edges| == |EdgePositions()|
      ensures forall e :: 0 <= e < |edges| ==>
                EdgePositions()[e].0 < |nodes| && EdgePositions()[e].1 < |nodes| &&
                edges[e] == Edge(nodes[EdgePositions()[e].0], nodes[EdgePositions()[e].1])
    {
      ghost var adj := Adjacency();
      ghost var pairs: seq<(nat, nat)> := [];
      edges := [];
      for i := 0 to |nodes|
        invariant pairs == Graphs.EdgePairs(adj[..i])
        invariant |edges| == |pairs|
        invariant forall e :: 0 <= e < |pairs| ==>
                    pairs[e].0 < |nodes| && pairs[e].1 < |nodes| && edges[e] == Edge(nodes[pairs[e].0], nodes[pairs[e].1])
      {
        var node := nodes[i];
        ghost var row := Graphs.Row(adj, i);
        for m := 0 to |node.isDependencyFor|
          invariant pairs == Graphs.EdgePairs(adj[..i]) + row[..m]
          invariant |edges| == |pairs|
          invariant forall e :: 0 <= e < |pairs| ==>
                      pairs[e].0 < |nodes| && pairs[e].1 < |nodes| && edges[e] == Edge(nodes[pairs[e].0], nodes[pairs[e].1])
        {
          edges := edges + [Edge(node, nodes[node.isDependencyFor[m]])];
          assert row[..m + 1] == row[..m] + [row[m]];
          pairs := pairs + [row[m]];
        }
        assert adj[..i + 1][..i] == adj[..i];
        assert row[..|row|] == row;
      }
      assert adj[..|nodes|] == adj;
    }

    /** `map_nodes(names)`: for each name, the first node carrying it, or `nil` when none does. */
    function MapNodes(jobNames: seq<Name>): (r: seq<Option<Node>>)
      reads this
      ensures |r| == |jobNames|
      ensures forall m :: 0 <= m < |r| ==> (r[m].None? <==> jobNames[m] !in Names())
      ensures forall m :: 0 <= m < |r| && r[m].Some? ==>
                exists k :: 0 <= k < |nodes| && r[m].value == nodes[k] && nodes[k].name == jobNames[m] &&
                            jobNames[m] !in Names()[..k]
    {
      var ns := nodes;
      seq(|jobNames|, m requires 0 <= m < |jobNames| =>
        match ReverseEdges.FindNamed(NamesOf(ns), jobNames[m])
        case None => None
        case Some(k) => Some(ns[k]))
    }

    /** `nodes.select { |node| node.depends_on.empty? }`: the nodes without dependencies, in node order. */
    function Roots(): (r: seq<Node>)
      reads this, nodes
      ensures forall m :: 0 <= m < |r| ==> r[m] in nodes && r[m].dependsOn == []
      ensures forall k :: 0 <= k < |nodes| && nodes[k].dependsOn == [] ==> nodes[k] in r
    {
      RootsOf(nodes)
    }

    function RootNames(): seq<Name>
      reads this, nodes
    {
      NamesOf(Roots())
    }

    /**
     * `topological_sort`, with the reply of the external `tsort` program given
     * as `tsortOutput` (its lines, stripped). A one-node Dag yields its node;
     * otherwise the nodes without dependencies come first, in node order,
     * followed by the nodes named by the reply that are not already listed,
     * each once and in reply order; a name no node carries yields `nil`.
     */
    method TopologicalSort(tsortOutput: seq<string>) returns (sorted: seq<Option<Node>>)
      ensures |nodes| == 1 ==> sorted == [Some(nodes[0])]
      ensures |nodes| != 1 ==> sorted == MapNodes(SortedNames(RootNames(), tsortOutput))
    {
      if |nodes| == 1 {
        return [Some(nodes[0])];
      }
      var sortedNodeNames := ReadReply(RootNames(), tsortOutput);
      sorted := MapNodes(sortedNodeNames);
    }

    /** With distinct node names, the sort starts with the nodes without dependencies, in node order. */
    lemma SortStartsWithRoots(tsortOutput: seq<string>)
      requires Seqs.NoDup(Names())
      ensures var sorted := MapNodes(SortedNames(RootNames(), tsortOutput));
              |Roots()| <= |sorted| && forall m :: 0 <= m < |Roots()| ==> sorted[m] == Some(Roots()[m])
    {
      var sorted := MapNodes(SortedNames(RootNames(), tsortOutput));
      forall m | 0 <= m < |Roots()|
        ensures sorted[m] == Some(Roots()[m])
      {
        var root := Roots()[m];
        assert root in Roots();
        var k :| 0 <= k < |nodes| && nodes[k] == root;
        assert Names()[k] == root.name;
        var other := sorted[m].value;
        var k' :| 0 <= k' < |nodes| && nodes[k'] == other;
        assert Names()[k'] == other.name;
      }
    }

    /** With distinct node names the sort never lists a node twice. */
    lemma SortNeverRepeats(tsortOutput: seq<string>)
      requires Seqs.NoDup(Names())
      ensures var sorted := MapNodes(SortedNames(RootNames(), tsortOutput));
              forall a, b :: 0 <= a < b < |sorted| && sorted[a].Some? ==> sorted[a] != sorted[b]
    {
      RootsKeepDistinctNames(nodes);
    }
  }

  function NamesOf(ns: seq<Node>): (r: seq<Name>)
    ensures |r| == |ns|
    ensures forall k :: 0 <= k < |ns| ==> r[k] == ns[k].name
  {
    seq(|ns|, k requires 0 <= k < |ns| => ns[k].name)
  }

  /** Selecting the nodes without dependencies keeps the names distinct. */
  lemma {:induction false} RootsKeepDistinctNames(ns: seq<Node>)
    requires Seqs.NoDup(NamesOf(ns))
    ensures Seqs.NoDup(NamesOf(RootsOf(ns)))
    decreases |ns|
  {
    if ns != [] {
      var front := ns[..|ns| - 1];
      var last := ns[|ns| - 1];
      assert forall k :: 0 <= k < |front| ==> NamesOf(front)[k] == NamesOf(ns)[k];
      RootsKeepDistinctNames(front);
      var rs := RootsOf(front);
      if last.dependsOn == [] {
        forall a | 0 <= a < |rs|
          ensures rs[a].name != last.name
        {
          assert rs[a] in front;
          var k :| 0 <= k < |front| && front[k] == rs[a];
          assert NamesOf(ns)[k] == rs[a].name;
        }
        assert RootsOf(ns) == rs + [last];
      }
    }
  }

  /** The nodes of `ns` without dependencies, in order. */
  function RootsOf(ns: seq<Node>): (r: seq<Node>)
    reads ns
    ensures forall m :: 0 <= m < |r| ==> r[m] in ns && r[m].dependsOn == []
    ensures forall k :: 0 <= k < |ns| && ns[k].dependsOn == [] ==> ns[k] in r
  {
    if ns == [] then []
    else
      var front := ns[..|ns| - 1];
      assert forall k :: 0 <= k < |front| ==> front[k] == ns[k];
      RootsOf(front) + (if ns[|ns| - 1].dependsOn == [] then [ns[|ns| - 1]] else [])
  }

  /** Selecting from a concatenation selects from the parts in turn, so node order is kept. */
  lemma {:induction false} RootsOfAppend(a: seq<Node>, b: seq<Node>)
    ensures RootsOf(a + b) == RootsOf(a) + RootsOf(b)
    decreases |b|
  {
    if b != [] {
      var front := b[..|b| - 1];
      var last := b[|b| - 1];
      assert (a + b)[..|a + b| - 1] == a + front;
      assert (a + b)[|a + b| - 1] == last;
      RootsOfAppend(a, front);
      Seqs.AppendAssociative(RootsOf(a), RootsOf(front), if last.dependsOn == [] then [last] else []);
    } else {
      assert a + b == a;
    }
  }

  /** A single node is selected exactly when it has no dependencies. */
  lemma RootsOfOne(n: Node)
    ensures RootsOf([n]) == if n.dependsOn == [] then [n] else []
  {
    assert [n][..0] == [];
  }

  /**
   * The reading loop of `topological_sort`: starting from the root names, each
   * line of the reply is added unless its name is already listed.
   */
  method ReadReply(roots: seq<Name>, tsortOutput: seq<string>) returns (sortedNodeNames: seq<Name>)
    ensures sortedNodeNames == SortedNames(roots, tsortOutput)
  {
    sortedNodeNames := roots;
    for m := 0 to |tsortOutput|
      invariant sortedNodeNames == roots + Seqs.Dedup(Seqs.Without(Lines(tsortOutput[..m]), roots))
    {
      var line := Some(tsortOutput[m]);
      assert Lines(tsortOutput[..m + 1]) == Lines(tsortOutput[..m]) + [line];
      ghost var seen := Seqs.Dedup(Seqs.Without(Lines(tsortOutput[..m]), roots));
      Seqs.DedupWithoutStep(Lines(tsortOutput[..m]), line, roots);
      if line !in sortedNodeNames {
        Seqs.AppendAssociative(roots, seen, [line]);
        sortedNodeNames := sortedNodeNames + [line];
      }
    }
    assert tsortOutput[..|tsortOutput|] == tsortOutput;
  }

  /** Each line of the `tsort` reply read as a node name. */
  function Lines(lines: seq<string>): (r: seq<Name>)
    ensures |r| == |lines|
    ensures forall m :: 0 <= m < |lines| ==> r[m] == Some(lines[m])
  {
    seq(|lines|, m requires 0 <= m < |lines| => Some(lines[m]))
  }

  /**
   * The names `topological_sort` maps back to nodes: the root names, then every
   * name of the reply that is not a root, each once, in the order first seen.
   */
  function SortedNames(roots: seq<Name>, lines: seq<string>): (r: seq<Name>)
    ensures |roots| <= |r| && r[..|roots|] == roots
    ensures Seqs.NoDup(r[|roots|..])
    ensures forall x :: x in r[|roots|..] <==> x.Some? && x.value in lines && x !in roots
    ensures Seqs.NoDup(roots) ==> Seqs.NoDup(r)
  {
    var rest := Seqs.Dedup(Seqs.Without(Lines(lines), roots));
    var r := roots + rest;
    assert r[|roots|..] == rest;
    Seqs.NoDupAppend(roots, rest);
    assert forall x :: x in Lines(lines) <==> x.Some? && x.value in lines by {
      forall x | x in Lines(lines) ensures x.Some? && x.value in lines {
        var m :| 0 <= m < |lines| && Lines(lines)[m] == x;
      }
      forall x: Name | x.Some? && x.value in lines ensures x in Lines(lines) {
        var m :| 0 <= m < |lines| && lines[m] == x.value;
        assert Lines(lines)[m] == x;
      }
    }
    r
  }
}
