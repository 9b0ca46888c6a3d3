# pipgen, modelled in Dafny

pipgen turns CI job definitions into an ordered pipeline. This project models its Ruby core in both of its generations:

- **Job parsing.** Turns a job record (a `name` and an optional `plan` of `get`, `put` and `aggregate` items) into:
  - the job's get items and put items;
  - the names of the jobs it depends on, taken from the gets' `passed` lists;
  - the resources it needs.
- **Resource.** A name-only record whose equality is name equality.
- **Dependency graph (`Dag`).** A list of nodes, each with forward (`depends_on`) and reverse (`is_dependency_for`) edges. It offers:
  - `assign_dependencies`, which derives the reverse edges by name lookup;
  - a three-colour depth-first cycle search;
  - the edge list;
  - the in-process part of the topological sort.
- **Pipeline.** A small validator that is filled by `add_job`, `add_jobs` and `library`, then checked by `make`.

Files and modules:

| file | module | models |
|---|---|---|
| `wrappers.dfy` | `Wrappers` | `Option` and `Result` |
| `seqs.dfy` | `Seqs` | one-level `flatten`, first-occurrence `uniq`, and their properties |
| `resource.dfy` | `Resources` | `ruby/lib/resource.rb` |
| `records.dfy` | `Records` | the typed job record and the plan helpers both `Job` generations share |
| `job.dfy` | `Jobs` | `ruby/lib/job.rb` |
| `legacy_job.dfy` | `LegacyJobs` | `lib/job.rb` |
| `graphs.dfy` | `Graphs` | graphs over node positions, directed cycles, and the depth-first search shared by both `Dag` generations |
| `reverse_edges.dfy` | `ReverseEdges` | the reverse-edge lists `assign_dependencies` builds, as functions of the forward lists |
| `dag.dfy` | `Dags` | `ruby/lib/dag.rb` |
| `legacy_dag.dfy` | `LegacyDags` | `lib/dag.rb` |
| `pipeline.dfy` | `Pipelines` | `lib/pipeline.rb` |

Representation choices:

- A job record is a typed value. `name` is an `Option<string>`, where `None` is Ruby's `nil`. `plan` is absent, `nil`, or a list of items. An item is a `Get` (resource and optional `passed` list), a `Put`, an `Aggregate` (its items), or an item with some other key. The types keep "get", "put" and "aggregate" out of that other key, and "name" and "plan" out of a record's other keys.
- `Edge.new(from, to)` is the datatype constructor `Dags.Edge`. Its two checks that both ends are nodes are enforced by the field types.
- Each `Job#initialize` is a method with the source's `each` loop. The method is proved equal to a pure function `Parsed`, and the lemmas are about `Parsed`.
- Raising becomes a `Failure` or `Some(message)` result carrying the message the source raises.
- A Dag node is a class whose two edge lists are fields that the methods append to:
  - `dependsOn` holds the names of the dependencies, because the source only ever reads their `.name`;
  - `isDependencyFor` holds positions in the Dag's node list, because the source appends node objects there.
- `Graphs` sees a Dag as the list of those position lists. The search's `visited` and `rec_stack` tables are `bool` arrays indexed by position.
- The newer `topological_sort` pipes the edges through the external `tsort` program. The lines that program prints are a parameter (`tsortOutput`, already stripped); the model assumes nothing about them.

## Model

| member | source | states |
|---|---|---|
| Resources.New | ruby/lib/resource.rb:9-12 | keeps the hash; the name is present exactly when the hash has a "name" entry, and is that entry |
| Resources.FromName | ruby/lib/resource.rb:5-7 | the resource's name is the given name, and its hash holds only that entry |
| Resources.Equal | ruby/lib/resource.rb:14-16 | `==`: two resources are equal when their names are; its properties are the three lemmas below |
| Resources.EqualIgnoresOtherEntries | ruby/lib/resource.rb:14-16 | resources built from two hashes are `==` exactly when the hashes agree on "name", whatever else they hold |
| Resources.FromNameEqual | ruby/lib/resource.rb:5-16 | resources built from names are `==` exactly when the names are equal |
| Resources.EqualIsEquivalence | ruby/lib/resource.rb:14-16 | `==` is reflexive, symmetric and transitive |
| Records.Select | ruby/lib/job.rb:53-59 | every selected item carries the key, and there are no more of them than items |
| Records.SelectMembers | ruby/lib/job.rb:53-59 | an item is selected exactly when it is in the list and carries the key |
| Records.SelectAppend | ruby/lib/job.rb:53-59 | selecting from a concatenation is concatenating the selections, so plan order is kept |
| Records.GetItems | ruby/lib/job.rb:53-55 | every selected item is a get, and there are no more of them than plan items |
| Records.PutItems | ruby/lib/job.rb:57-59 | every selected item is a put, and there are no more of them than plan items |
| Records.AggregateChildren | ruby/lib/job.rb:50 | the items of the top-level aggregates, in plan order; pinned by the three lemmas below |
| Records.AggregateItems | ruby/lib/job.rb:49-51 | every item found inside the top-level aggregates carries the requested key |
| Records.AggregateChildrenMembers | ruby/lib/job.rb:49-51 | the items collected from aggregates are exactly the items of some top-level aggregate |
| Records.AggregateChildrenAppend | ruby/lib/job.rb:49-51 | collecting from a concatenation is concatenating the collections, so plan order is kept |
| Records.AggregateChildrenOfOne | ruby/lib/job.rb:50 | one aggregate contributes exactly its own items, in order and with repeats; any other item contributes nothing |
| Records.PassedLists | ruby/lib/job.rb:27-30 | there are no more passed lists than items; with `PassedListsAppend` and `PassedListsOfOne` the lists are exactly those of the gets carrying `passed`, whole and in order |
| Records.PassedListsAppend | ruby/lib/job.rb:27-30 | the passed lists of a concatenation are those of its parts, in order |
| Records.PassedListsOfOne | ruby/lib/job.rb:29 | a get carrying `passed` contributes exactly that whole list; any other item contributes nothing |
| Records.PassedListsWhole | lib/job.rb:28-31 | each collected list is the whole `passed` list of some get, and every get carrying `passed` has its whole list collected |
| Records.PassedNames | ruby/lib/job.rb:29 | a name is in some collected passed list exactly when some get item's `passed` list holds it |
| Seqs.Flatten | ruby/lib/job.rb:36 | an element is in the flattened list exactly when it is in one of the lists |
| Seqs.FlattenAppend | ruby/lib/job.rb:36 | flattening a concatenation flattens the parts in turn, and one list flattens to itself, so the lists' order is kept |
| Seqs.Dedup | ruby/lib/job.rb:37 | the result has no duplicates, has the same elements as the input, and is no longer |
| Seqs.DedupFollowsFirstOccurrence | ruby/lib/job.rb:37 | of two kept elements, the earlier one first occurs earlier in the input |
| Seqs.DedupOfNoDup | ruby/lib/job.rb:37 | removing duplicates from a list without duplicates changes nothing |
| Seqs.Without | ruby/lib/dag.rb:117 | an element survives exactly when it is in the list and not excluded |
| Seqs.DedupWithoutStep | ruby/lib/dag.rb:116-119 | reading one more line adds it at the end, unless it is excluded or already listed |
| Jobs.AllGets | ruby/lib/job.rb:23-25 | every collected get item is a get |
| Jobs.AllPuts | ruby/lib/job.rb:32-34 | every collected put item is a put |
| Jobs.FindRequiredResources | ruby/lib/job.rb:61-63 | one resource per item, in order, named by the item's resource |
| Jobs.Parsed | ruby/lib/job.rb:7-41 | fails exactly on an empty record, with "Empty job definition"; otherwise it keeps the record and takes the `name` entry (or `nil`) as the name |
| Jobs.New | ruby/lib/job.rb:7-41 | the item-by-item construction yields exactly `Parsed(record)` |
| Jobs.ParsedItems | ruby/lib/job.rb:23-25 | the gets are exactly the get items at the top level or one aggregate deep; the puts are likewise |
| Jobs.NoPlanNothingNeeded | ruby/lib/job.rb:20-21 | an absent, `nil` or empty plan gives no gets, puts, dependencies or resources |
| Jobs.ParsedDependencies | ruby/lib/job.rb:27-37 | the dependencies have no duplicates and are exactly the names in the gets' `passed` lists |
| Jobs.DependenciesInFirstMentionOrder | ruby/lib/job.rb:36-37 | the dependencies are ordered by first mention across the passed lists |
| Jobs.ParsedResources | ruby/lib/job.rb:39-40 | one resource per get, named by it, then one per put, so the count is gets plus puts |
| Jobs.AppendedStep | ruby/lib/job.rb:23-34 | a get or put appended to the plan lands at the end of the gets or puts, and changes nothing else |
| Jobs.PutAddsNoDependency | ruby/lib/job.rb:27-34 | a put item adds one put and leaves the gets and dependencies unchanged |
| Jobs.GetWithoutPassedAddsNoDependency | ruby/lib/job.rb:27-30 | a get without `passed` adds one get and leaves the dependencies unchanged |
| Jobs.NestedAggregateIgnored | ruby/lib/job.rb:50 | a get inside an aggregate inside an aggregate is dropped: no gets, dependencies or resources |
| LegacyJobs.Parsed | lib/job.rb:8-36 | an empty record gives name "" and leaves gets and dependencies unset; otherwise both are set and the name is the `name` entry |
| LegacyJobs.New | lib/job.rb:8-36 | the item-by-item construction yields exactly `Parsed(record)` |
| LegacyJobs.ParsedGets | lib/job.rb:23-25 | the gets are exactly the top-level get items; aggregates are not searched |
| LegacyJobs.ParsedDependencies | lib/job.rb:28-31 | each dependency entry is the whole `passed` list of some get, every get carrying `passed` has its list among them, there are no more entries than gets, and a name is in one of them exactly when some get passes it; one entry per such get and their order come from `LegacyJobs.AppendedStep` with `Records.PassedListsOfOne` |
| LegacyJobs.AppendedStep | lib/job.rb:28-31 | an item appended to the plan: a get lands last among the gets, a get carrying `passed` adds that whole list as one more entry, not flattened or deduplicated, and any other item changes neither list |
| LegacyJobs.AggregateIgnored | lib/job.rb:25 | appending an aggregate changes neither the gets nor the dependencies |
| LegacyJobs.IsValid | lib/job.rb:38-40 | valid exactly when the name is not empty; a `nil` name raises |
| LegacyJobs.ValidExactlyWhenNamed | lib/job.rb:11-13 | an empty record gives an invalid job without raising; otherwise validity is a non-empty name |
| Graphs.EdgePairsAreEdges | ruby/lib/dag.rb:134-142 | the listed pairs are exactly the edges of the graph |
| Graphs.RankedIsAcyclic | ruby/lib/dag.rb:145-158 | a graph whose edges all go down in some rank has no cycle |
| Graphs.BackEdgeCloses | ruby/lib/dag.rb:150-153 | an edge from the end of a path back into it closes a cycle |
| Graphs.EmptyIsAcyclic | lib/dag.rb:58-67 | a graph without nodes has no cycle |
| Graphs.MarkGrey | ruby/lib/dag.rb:146-148 | putting an unvisited node on the recursion stack keeps the search invariant |
| Graphs.MarkBlack | ruby/lib/dag.rb:156 | taking a node off the stack once its successors are finished keeps the invariant and finishes the node |
| Graphs.IsCyclicUtil | ruby/lib/dag.rb:145-158 | reporting a cycle means there is one; otherwise the node is finished and the invariant holds |
| Graphs.AnyDependentCyclic | ruby/lib/dag.rb:150-153 | the same for the successor loop: no cycle reported means every successor is finished |
| Graphs.DependentCyclic | ruby/lib/dag.rb:151-152 | the same for one successor: true means a cycle, false means the successor is finished |
| Graphs.AnyCyclic | ruby/lib/dag.rb:89-98 | the search from every node returns true exactly when the graph has a directed cycle |
| ReverseEdges.FindNamed | ruby/lib/dag.rb:82 | finds nothing exactly when no node has the name; otherwise the first node with it |
| ReverseEdges.FirstMissingExists | ruby/lib/dag.rb:80-83 | when some dependency names no node, there is a first one in processing order |
| ReverseEdges.IncomingCounts | ruby/lib/dag.rb:79-87 | node `i` occurs in node `k`'s reverse list once for each of its dependencies that resolves to `k` |
| ReverseEdges.IncomingMirrors | ruby/lib/dag.rb:79-87 | node `i` is in node `k`'s reverse list exactly when one of `i`'s dependencies resolves to `k` |
| ReverseEdges.IncomingInNodeOrder | ruby/lib/dag.rb:80 | each reverse list is in node order and holds only node positions |
| ReverseEdges.AddedStep | ruby/lib/dag.rb:81-84 | processing one dependency appends its node to the node it names, and to no other |
| ReverseEdges.AddedComplete | ruby/lib/dag.rb:81-85 | once all of a node's dependencies are processed, the lists are those of the longer prefix |
| Dags.Node.constructor | ruby/lib/dag.rb:12-18 | a node takes its job and the job's name, and starts with both edge lists empty |
| Dags.Node.AddDependency | ruby/lib/dag.rb:20-22 | appends one name to `dependsOn`; the other list is unchanged |
| Dags.Node.AddIsDependencyFor | ruby/lib/dag.rb:24-26 | appends one node to `isDependencyFor`; the other list is unchanged |
| Dags.Dag.constructor | ruby/lib/dag.rb:57-59 | a new Dag has no nodes |
| Dags.Dag.Append | ruby/lib/dag.rb:61-67 | `<<` appends the node at the end of the list that `each` enumerates |
| Dags.Dag.AssignDependencies | ruby/lib/dag.rb:79-87 | `dependsOn` lists are unchanged. It succeeds exactly when every dependency names a node. On success, each node's reverse list gains exactly the nodes that name it, in node order. On failure, it reports the first dangling name with its message, and keeps what was appended before it |
| Dags.Dag.AssignDependency | ruby/lib/dag.rb:82-84 | one lookup: an error exactly when the name is missing, otherwise the node is appended to the first node with that name |
| Dags.Dag.Link | ruby/lib/dag.rb:84 | appends the node to one reverse list and changes no other list |
| Dags.Dag.HasCycle | ruby/lib/dag.rb:89-98 | true exactly when the reverse-edge graph has a directed cycle |
| Dags.Dag.GetEdges | ruby/lib/dag.rb:134-142 | one Edge per reverse-list entry, from the node to the one it lists, node by node and in list order |
| Dags.Dag.MapNodes | ruby/lib/dag.rb:130-132 | per name, the first node with that name, or `nil` exactly when there is none |
| Dags.Dag.Roots | ruby/lib/dag.rb:106 | the selected nodes are exactly the nodes without dependencies |
| Dags.Dag.TopologicalSort | ruby/lib/dag.rb:100-126 | a one-node Dag yields that node; otherwise the root names followed by the new reply lines, mapped to nodes |
| Dags.Dag.SortStartsWithRoots | ruby/lib/dag.rb:106-107 | with distinct names, the sort starts with the nodes without dependencies, in node order |
| Dags.Dag.SortNeverRepeats | ruby/lib/dag.rb:117 | with distinct names, no node is listed twice |
| Dags.RootsOfAppend | ruby/lib/dag.rb:106 | selecting from a concatenation selects from the parts in turn, so node order is kept |
| Dags.RootsOfOne | ruby/lib/dag.rb:106 | a single node is selected exactly when it has no dependencies |
| Dags.RootsKeepDistinctNames | ruby/lib/dag.rb:106-107 | selecting roots keeps names distinct |
| Dags.ReadReply | ruby/lib/dag.rb:116-119 | the line-by-line reading yields exactly `SortedNames` |
| Dags.SortedNames | ruby/lib/dag.rb:107-119 | the roots come first. Then come each reply line not already listed, once, and nothing else. Distinct roots give a list without repeats |
| LegacyDags.DagNode.constructor | lib/dag.rb:7-13 | a node takes its job and the job's name, and starts with both edge lists empty |
| LegacyDags.DagNode.AddDependency | lib/dag.rb:15-17 | appends one name to `dependsOn`; the other list is unchanged |
| LegacyDags.DagNode.AddIsDependencyFor | lib/dag.rb:19-21 | appends one node to `isDependencyFor`; the other list is unchanged |
| LegacyDags.Dag.constructor | lib/dag.rb:34-36 | a new Dag has no nodes |
| LegacyDags.Dag.AssignDependencies | lib/dag.rb:48-56 | the same contract as the current generation's `assign_dependencies` |
| LegacyDags.Dag.AssignDependency | lib/dag.rb:51-53 | one lookup: an error exactly when the name is missing, otherwise one append |
| LegacyDags.Dag.Link | lib/dag.rb:53 | appends the node to one reverse list and changes no other list |
| LegacyDags.Dag.HasCycle | lib/dag.rb:58-67 | true exactly when the reverse-edge graph has a directed cycle, and false on an empty Dag |
| LegacyDags.Dag.TopologicalSort | lib/dag.rb:69-74 | the node names in insertion order, one per node |
| Pipelines.MissingJobError | lib/pipeline.rb:57-61 | no error exactly when every job's name is in the library |
| Pipelines.MakeOutcome | lib/pipeline.rb:43-53 | gives "Empty pipeline definition" with neither field set. Gives "Empty job list" when a library is set but the jobs are absent or empty. Gives "Empty job library" when jobs are set (even to an empty list) but the library is absent, or when jobs are non-empty and the library is empty. Succeeds exactly when both are non-empty and every job is in the library, and the order is then the job names in add order |
| Pipelines.FirstMissingJobReported | lib/pipeline.rb:57-61 | `make` reports "Missing job: name" for the first job, in add order, that the library lacks |
| Pipelines.FirstMissingIsReported | lib/pipeline.rb:58-59 | the check stops at the first missing job |
| Pipelines.Pipeline.constructor | lib/pipeline.rb:37-41 | jobs, library and job order all start unset |
| Pipelines.Pipeline.AddJob | lib/pipeline.rb:12-17 | "Nil job" for `nil`, "Given job not a Job object" for a non-Job, otherwise one job appended at the end |
| Pipelines.Pipeline.AddJobs | lib/pipeline.rb:19-25 | "Nil job list" for `nil`, the array message for a non-array or any non-Job element, otherwise all jobs appended in order |
| Pipelines.Pipeline.Library | lib/pipeline.rb:27-33 | the checks run in order: `nil`, then empty, then non-array or non-Job element. Only a non-empty array of Jobs replaces the library |
| Pipelines.Pipeline.Make | lib/pipeline.rb:43-53 | raises what `MakeOutcome` says and leaves the state alone; on success it records the order and returns the pipeline itself |
| Pipelines.Pipeline.VerifyNoMissingJobs | lib/pipeline.rb:57-61 | the checking loop yields exactly `MissingJobError` |
| Pipelines.Pipeline.DetermineJobOrder | lib/pipeline.rb:63-69 | the collecting loop yields the job names in add order |
| Pipelines.AnyNotAJob | lib/pipeline.rb:22 | true exactly when some element is not a Job |
| Pipelines.AnyNamed | lib/pipeline.rb:59 | true exactly when some library job carries the name |
| Pipelines.Define | lib/pipeline.rb:6-10 | runs the block's calls on a fresh pipeline and then `make`; the first raised error wins |
| Pipelines.FillStopsAtError | lib/pipeline.rb:6-10 | once a call in the block has raised, later calls change nothing |
| Pipelines.AddedJobsThenLibrary | lib/pipeline.rb:43-69 | adding jobs and then a library holding all of them succeeds, with the names in add order |

## Left out

- Printing and string forms are not modelled: `print`, `to_s` and `list_to_s` in both Dag files, and `Job#to_s`.
- `ruby/pipgen.rb` is not part of this model. It reads files, expands templates, loads YAML and prints.
- The external `tsort` program in `topological_sort` is not modelled. The model does not produce the edges' text lines for it. Its reply is a parameter with no guarantees.
- Ruby's dynamic type checks are replaced by types:
  - "Must provide a job!" cannot happen, because a node takes a `Job`;
  - "from must be a Node" and "to must be a Node" cannot happen, because an `Edge` holds two `Node`s;
  - `is_a?` checks in `Pipeline` are modelled as variants of the argument type.
- Symbolising the record's keys (`ruby/lib/job.rb:9`) is not modelled: the record is typed.
- A `passed` entry that is not a list is not modelled.
- An item with both a `get` and a `put` key cannot be written in the typed record.
- `LegacyJobs.ParsedDependencies`: its own ensures do not state that there is one entry per get carrying `passed`, nor their order. Both are stated by `LegacyJobs.AppendedStep` together with `Records.PassedListsOfOne`.
- `Jobs.ParsedItems`: states membership only. Order is stated by `Jobs.AppendedStep` together with `Records.SelectAppend` and `Records.AggregateChildrenAppend`.
- `Dags.Dag.HasCycle`: requires distinct node names and reverse edges that stay inside the Dag, because the source keys its `visited` and `rec_stack` tables by name. Nodes with equal names share one entry there, which the position-based search does not reproduce.
- `LegacyDags.Dag.HasCycle`: requires distinct node names and a closed graph, for the same reason.
- `Dags.Dag.GetEdges`: requires reverse edges that stay inside the Dag. A reverse list holds positions, so a node outside the Dag handed to `add_is_dependency_for` cannot be represented.
- `Dags.Dag.AssignDependencies`: requires the node list not to hold the same node object twice. Reverse edges are recorded as positions, which match node objects only without such aliasing.
- `LegacyDags.Dag.AssignDependencies`: requires no repeated node object, for the same reason.
- `Dags.Dag.SortStartsWithRoots`: requires distinct node names, because `map_nodes` finds the first node with a name.
- `Dags.Dag.SortNeverRepeats`: requires distinct node names, for the same reason.
- Old Dag node list: the node list of `lib/dag.rb` is a public attribute that callers append to, so it is a plain field with no appending method.
- Legacy `plan_aggregate_items`: `lib/job.rb:44-46` is never called, so it has no member.
- `Pipelines.Pipeline.Library`: stores a copy of the array, while the source keeps the caller's array by reference (`lib/pipeline.rb:32`). A caller that empties its array after `library` makes `make` raise "Empty job library" in the source; the model cannot reach that state this way (aliasing).
- `Pipelines.Pipeline.Library`: a non-array without `empty?` raises Ruby's `NoMethodError`. Its message is given only up to the receiver's description.
- `LegacyJobs.IsValid`: Ruby's `NoMethodError` message for `nil` is given in its usual wording, for the same reason.
- `Pipeline.define` evaluates its block as Ruby code. The model takes the block as the list of calls it makes.
- `add_jobs` on the pipeline's own list: appending the list to itself (aliasing) is not modelled.
