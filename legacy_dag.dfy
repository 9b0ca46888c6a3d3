/**
 * The dependency graph of the first generation (lib/dag.rb): the same node and
 * reverse-edge structure as the current one, without edges or an external
 * sort. Its node list is a public attribute that callers append to.
 */
module LegacyDags {
  import opened Wrappers
  import opened Records
  import LegacyJobs
  import Graphs
  import Seqs
  import ReverseEdges

  class DagNode {
    const name: Name
    const job: LegacyJobs.Job
    /** The names of the jobs this node depends on. */
    var dependsOn: seq<Name>
    /** Positions of the nodes that depend on this one. */
    var isDependencyFor: seq<nat>

    /** `DagNode.new(job)`: takes the job's name and starts without edges. */
    constructor (j: LegacyJobs.Job)
      ensures job == j && name == j.name
      ensures dependsOn == [] && isDependencyFor == []
    {
      job := j;
      name := j.name;
      dependsOn := [];
      isDependencyFor := [];
    }

    /** `add_dependency`: one more name at the end of `dependsOn`, nothing else changes. */
    method AddDependency(dependency: Name)
      modifies this
      ensures dependsOn == old(dependsOn) + [dependency]
      ensures isDependencyFor == old(isDependencyFor)
    {
      dependsOn := dependsOn + [dependency];
    }

    /** `add_is_dependency_for`: one more node at the end of `isDependencyFor`, nothing else changes. */
    method AddIsDependencyFor(dependent: nat)
      modifies this
      ensures isDependencyFor == old(isDependencyFor) + [dependent]
      ensures dependsOn == old(dependsOn)
    {
      isDependencyFor := isDependencyFor + [dependent];
    }
  }

  class Dag {
    /** The nodes in insertion order (`attr_reader :nodes`). */
    var nodes: seq<DagNode>

    /** `Dag.new`: no nodes. */
    constructor ()
      ensures nodes == []
    {
      nodes := [];
    }

    function Names(): (r: seq<Name>)
      reads this
      ensures |r| == |nodes|
      ensures forall k :: 0 <= k < |nodes| ==> r[k] == nodes[k].name
    {
      NamesOf(nodes)
    }

    function Deps(): (r: seq<seq<Name>>)
      reads this, nodes
      ensures |r| == |nodes|
      ensures forall k :: 0 <= k < |nodes| ==> r[k] == nodes[k].dependsOn
    {
      seq(|nodes|, k requires 0 <= k < |nodes| reads this, nodes => nodes[k].dependsOn)
    }

    /** The reverse-edge graph over node positions. */
    function Adjacency(): (r: seq<seq<nat>>)
      reads this, nodes
      ensures |r| == |nodes|
      ensures forall k :: 0 <= k < |nodes| ==> r[k] == nodes[k].isDependencyFor
    {
      seq(|nodes|, k requires 0 <= k < |nodes| reads this, nodes => nodes[k].isDependencyFor)
    }

    /** No node object is listed twice. */
    predicate Distinct()
      reads this
    {
      forall i, j :: 0 <= i < j < |nodes| ==> nodes[i] != nodes[j]
    }

    /**
     * `assign_dependencies`: for every node in order and every name it depends on
     * in order, appends the node to the reverse-edge list of the first node with
     * that name, and stops with an error at the first name no node carries. On
     * success every node has heard from exactly the nodes naming it; after an
     * error the nodes keep what was appended before the dangling name.
     */
    method AssignDependencies() returns (err: Option<string>)
      requires Distinct()
      modifies nodes
      ensures forall k :: 0 <= k < |nodes| ==> nodes[k].dependsOn == old(nodes[k].dependsOn)
      ensures err.None? <==> ReverseEdges.AllFound(Names(), old(Deps()))
      ensures err.None? ==> forall k :: 0 <= k < |nodes| ==>
                nodes[k].isDependencyFor == old(nodes[k].isDependencyFor) + ReverseEdges.Incoming(Names(), old(Deps()), k)
      ensures err.Some? ==> exists i: nat, j: nat ::
                ReverseEdges.IsFirstMissing(Names(), old(Deps()), i, j) &&
                err.value == ReverseEdges.MissingMessage(old(Deps())[i][j]) &&
                forall k :: 0 <= k < |nodes| ==>
                  nodes[k].isDependencyFor == old(nodes[k].isDependencyFor) + ReverseEdges.Added(Names(), old(Deps()), i, j, k)
    {
      var names := Names();
      ghost var deps := Deps();
      ghost var before := Adjacency();
      var i := 0;
      while i < |nodes|
        invariant 0 <= i <= |nodes|
        invariant forall k :: 0 <= k < |nodes| ==> nodes[k].dependsOn == deps[k]
        invariant forall k :: 0 <= k < |nodes| ==>
                    nodes[k].isDependencyFor == before[k] + ReverseEdges.Incoming(names, deps[..i], k)
        invariant ReverseEdges.AllFound(names, deps[..i])
      {
        err := AssignDependenciesOf(i, names, deps, before);
        if err.Some? {
          return;
        }
        i := i + 1;
      }
      assert deps[..|nodes|] == deps;
      return None;
    }

    /** One round of `assign_dependencies`: the names node `i` depends on, in order. */
    method AssignDependenciesOf(i: nat, names: seq<Name>, ghost deps: seq<seq<Name>>, ghost before: seq<seq<nat>>)
      returns (err: Option<string>)
      requires Distinct() && i < |nodes| && |deps| == |nodes| && |before| == |nodes|
      requires names == Names()
      requires forall k :: 0 <= k < |nodes| ==> nodes[k].dependsOn == deps[k]
      requires forall k :: 0 <= k < |nodes| ==>
                 nodes[k].isDependencyFor == before[k] + ReverseEdges.Incoming(names, deps[..i], k)
      requires ReverseEdges.AllFound(names, deps[..i])
      modifies nodes
      ensures forall k :: 0 <= k < |nodes| ==> nodes[k].dependsOn == deps[k]
      ensures err.None? ==> ReverseEdges.AllFound(names, deps[..i + 1])
      ensures err.None? ==> forall k :: 0 <= k < |nodes| ==>
                nodes[k].isDependencyFor == before[k] + ReverseEdges.Incoming(names, deps[..i + 1], k)
      ensures err.Some? ==> exists j: nat ::
                ReverseEdges.IsFirstMissing(names, deps, i, j) &&
                err.value == ReverseEdges.MissingMessage(deps[i][j]) &&
                forall k :: 0 <= k < |nodes| ==>
                  nodes[k].isDependencyFor == before[k] + ReverseEdges.Added(names, deps, i, j, k)
    {
      var node := nodes[i];
      ReverseEdges.AddedStart(names, deps, i);
      var j := 0;
      while j < |node.dependsOn|
        invariant 0 <= j <= |deps[i]|
        invariant forall k :: 0 <= k < |nodes| ==> nodes[k].dependsOn == deps[k]
        invariant forall k :: 0 <= k < |nodes| ==>
                    nodes[k].isDependencyFor == before[k] + ReverseEdges.Added(names, deps, i, j, k)
        invariant ReverseEdges.AllIn(deps[i][..j], names)
      {
        err := AssignDependency(i, j, names, deps, before);
        if err.Some? {
          assert ReverseEdges.IsFirstMissing(names, deps, i, j);
          return;
        }
        ReverseEdges.AllInStep(deps[i], j, names);
        j := j + 1;
      }
      assert j == |deps[i]|;
      ReverseEdges.AddedComplete(names, deps, i);
      ReverseEdges.AllFoundStep(deps, i, names);
      return None;
    }

    /**
     * The block `assign_dependencies` runs for dependency `j` of node `i`: finds
     * the first node with that name and appends `i` to its reverse edges, or
     * reports the name as missing and changes nothing.
     */
    method AssignDependency(i: nat, j: nat, names: seq<Name>, ghost deps: seq<seq<Name>>, ghost before: seq<seq<nat>>)
      returns (err: Option<string>)
      requires Distinct() && i < |nodes| && |deps| == |nodes| && |before| == |nodes| && j < |deps[i]|
      requires names == Names()
      requires forall k :: 0 <= k < |nodes| ==> nodes[k].dependsOn == deps[k]
      requires forall k :: 0 <= k < |nodes| ==>
                 nodes[k].isDependencyFor == before[k] + ReverseEdges.Added(names, deps, i, j, k)
      modifies nodes
      ensures forall k :: 0 <= k < |nodes| ==> nodes[k].dependsOn == deps[k]
      ensures err.None? <==> deps[i][j] in names
      ensures err.Some? ==> err.value == ReverseEdges.MissingMessage(deps[i][j])
      ensures err.None? ==> forall k :: 0 <= k < |nodes| ==>
                nodes[k].isDependencyFor == before[k] + ReverseEdges.Added(names, deps, i, j + 1, k)
      ensures err.Some? ==> forall k :: 0 <= k < |nodes| ==>
                nodes[k].isDependencyFor == before[k] + ReverseEdges.Added(names, deps, i, j, k)
    {
      var dependentJob := nodes[i].dependsOn[j];
      var dependentNode := ReverseEdges.FindNamed(names, dependentJob);
      if dependentNode.None? {
        return Some(ReverseEdges.MissingMessage(dependentJob));
      }
      var target := dependentNode.value;
      ReverseEdges.AddedStep(names, deps, i, j);
      Link(target, i);
      forall k | 0 <= k < |nodes|
        ensures nodes[k].isDependencyFor == before[k] + ReverseEdges.Added(names, deps, i, j + 1, k)
      {
        var extra := if k == target then [i] else [];
        assert nodes[k].isDependencyFor == (before[k] + ReverseEdges.Added(names, deps, i, j, k)) + extra;
        assert ReverseEdges.Added(names, deps, i, j + 1, k) == ReverseEdges.Added(names, deps, i, j, k) + extra;
        Seqs.AppendAssociative(before[k], ReverseEdges.Added(names, deps, i, j, k), extra);
      }
      return None;
    }

    /** `dependent_node.add_is_dependency_for node`, seen from the whole node list. */
    method Link(target: nat, dependent: nat)
      requires Distinct() && target < |nodes|
      modifies nodes[target]
      ensures forall k :: 0 <= k < |nodes| ==> nodes[k].dependsOn == old(nodes[k].dependsOn)
      ensures forall k :: 0 <= k < |nodes| ==>
                nodes[k].isDependencyFor == old(nodes[k].isDependencyFor) + (if k == target then [dependent] else [])
    {
      nodes[target].AddIsDependencyFor(dependent);
      forall k | 0 <= k < |nodes| && k != target
        ensures nodes[k].isDependencyFor == old(nodes[k].isDependencyFor)
      {
        assert nodes[k] != nodes[target];
      }
    }

    /**
     * `has_cycle?`: true exactly when the reverse-edge graph has a directed
     * cycle, and so false on a Dag without nodes. No node changes.
     */
    method HasCycle() returns (cyclic: bool)
      requires Graphs.Closed(Adjacency()) && Seqs.NoDup(Names())
      ensures cyclic <==> Graphs.Cyclic(Adjacency())
      ensures nodes == [] ==> !cyclic
    {
      cyclic := Graphs.AnyCyclic(Adjacency());
      if nodes == [] {
        assert Adjacency() == [];
        Graphs.EmptyIsAcyclic();
      }
    }

    /** `topological_sort`: the node names in insertion order, one per node. */
    function TopologicalSort(): (r: seq<Name>)
      reads this
      ensures |r| == |nodes|
      ensures forall k :: 0 <= k < |nodes| ==> r[k] == nodes[k].name
    {
      Names()
    }
  }

  function NamesOf(ns: seq<DagNode>): (r: seq<Name>)
    ensures |r| == |ns|
    ensures forall k :: 0 <= k < |ns| ==> r[k] == ns[k].name
  {
    seq(|ns|, k requires 0 <= k < |ns| => ns[k].name)
  }
}
