/**
 * A job of the current generation (ruby/lib/job.rb): a record turned into the
 * job's name, its get and put items, the names of the jobs it depends on and
 * the resources it needs.
 */
module Jobs {
  import opened Wrappers
  import opened Records
  import Seqs
  import Resources

  datatype Job = Job(
    record: JobRecord,
    name: Name,
    planGets: seq<Step>,
    planPuts: seq<Step>,
    dependsOn: seq<string>,
    requiredResources: seq<Resources.Resource>)

  const EmptyJobDefinition := "Empty job definition"

  /** The get items of a plan: those inside top-level aggregates first, then the top-level ones. */
  function AllGets(plan: seq<Step>): (r: seq<Step>)
    ensures forall k :: 0 <= k < |r| ==> r[k].Get?
  {
    AggregateItems(plan, GetKey) + GetItems(plan)
  }

  /** The put items of a plan, in the same order as the gets. */
  function AllPuts(plan: seq<Step>): (r: seq<Step>)
    ensures forall k :: 0 <= k < |r| ==> r[k].Put?
  {
    AggregateItems(plan, PutKey) + PutItems(plan)
  }

  /** `item[kind]`: the resource a get or put item names under its key. */
  function ResourceName(item: Step, kind: StepKind): string
    requires HasKey(item, kind)
  {
    match kind
    case GetKey => item.resource
    case PutKey => item.resource
  }

  /** `find_required_resources(items, kind)`: one resource per item, named by the item's resource. */
  function FindRequiredResources(items: seq<Step>, kind: StepKind): (r: seq<Resources.Resource>)
    requires forall k :: 0 <= k < |items| ==> HasKey(items[k], kind)
    ensures |r| == |items|
    ensures forall k :: 0 <= k < |items| ==> r[k].name == Some(ResourceName(items[k], kind))
  {
    seq(|items|, k requires 0 <= k < |items| && HasKey(items[k], kind) =>
      Resources.FromName(ResourceName(items[k], kind)))
  }

  /** The dependencies named by a list of gets: their passed lists run together, each name once. */
  function DependsOn(gets: seq<Step>): seq<string> {
    Seqs.Dedup(Seqs.Flatten(PassedLists(gets)))
  }

  /** The job `Job.new(record)` builds, or the message it raises. */
  function Parsed(record: JobRecord): (r: Result<Job, string>)
    ensures r.Failure? <==> record.IsEmpty()
    ensures r.Failure? ==> r.error == EmptyJobDefinition
    ensures r.Success? ==> r.value.record == record && r.value.name == record.NameOrNil()
  {
    if record.IsEmpty() then Failure(EmptyJobDefinition)
    else
      var plan := record.PlanSteps();
      var gets := AllGets(plan);
      var puts := AllPuts(plan);
      Success(Job(record, record.NameOrNil(), gets, puts, DependsOn(gets),
                  FindRequiredResources(gets, GetKey) + FindRequiredResources(puts, PutKey)))
  }

  /** The gets are every get item at the top level of the plan or one aggregate deep, and the puts likewise. */
  lemma {:induction false} ParsedItems(record: JobRecord)
    requires !record.IsEmpty()
    ensures var job := Parsed(record).value;
            var plan := record.PlanSteps();
            (forall x :: x in job.planGets <==> x.Get? && (x in plan || x in AggregateChildren(plan))) &&
            (forall x :: x in job.planPuts <==> x.Put? && (x in plan || x in AggregateChildren(plan)))
  {
    var plan := record.PlanSteps();
    SelectMembers(plan, GetKey);
    SelectMembers(plan, PutKey);
    SelectMembers(AggregateChildren(plan), GetKey);
    SelectMembers(AggregateChildren(plan), PutKey);
  }

  /** A job without a plan, or with a `nil` or empty one, has no gets, puts, dependencies or resources. */
  lemma NoPlanNothingNeeded(record: JobRecord)
    requires !record.IsEmpty() && record.PlanSteps() == []
    ensures var job := Parsed(record).value;
            job.planGets == [] && job.planPuts == [] && job.dependsOn == [] && job.requiredResources == []
  {
  }

  /** The dependencies are the names in the gets' passed lists, each listed once. */
  lemma {:induction false} ParsedDependencies(record: JobRecord)
    requires !record.IsEmpty()
    ensures var job := Parsed(record).value;
            Seqs.NoDup(job.dependsOn) &&
            forall n :: n in job.dependsOn <==>
              exists k :: 0 <= k < |job.planGets| && job.planGets[k].passed.Some? && n in job.planGets[k].passed.value
  {
    var gets := Parsed(record).value.planGets;
    forall n
      ensures n in DependsOn(gets) <==>
                exists k :: 0 <= k < |gets| && gets[k].passed.Some? && n in gets[k].passed.value
    {
      PassedNames(gets, n);
    }
  }

  /** One resource per get, named after its resource, then one per put. */
  lemma ParsedResources(record: JobRecord)
    requires !record.IsEmpty()
    ensures var job := Parsed(record).value;
            |job.requiredResources| == |job.planGets| + |job.planPuts| &&
            (forall k :: 0 <= k < |job.planGets| ==> job.requiredResources[k].name == Some(job.planGets[k].resource)) &&
            (forall k :: 0 <= k < |job.planPuts| ==>
               job.requiredResources[|job.planGets| + k].name == Some(job.planPuts[k].resource))
  {
  }

  /** `Job.new(record)`: gathers the gets and their passed lists item by item. */
  method New(record: JobRecord) returns (r: Result<Job, string>)
    ensures r == Parsed(record)
  {
    if record.IsEmpty() {
      return Failure(EmptyJobDefinition);
    }
    var name := record.NameOrNil();
    if record.plan.Absent? || record.plan.Nil? || record.plan.steps == [] {
      return Success(Job(record, name, [], [], [], []));
    }
    var plan := record.plan.steps;
    var allGetItems := AggregateItems(plan, GetKey) + GetItems(plan);
    var planGets: seq<Step> := [];
    var passed: seq<seq<string>> := [];
    for i := 0 to |allGetItems|
      invariant planGets == allGetItems[..i]
      invariant passed == PassedLists(allGetItems[..i])
    {
      var item := allGetItems[i];
      assert allGetItems[..i + 1][..i] == allGetItems[..i];
      planGets := planGets + [item];
      if item.Get? && item.passed.Some? {
        passed := passed + [item.passed.value];
      }
    }
    assert allGetItems[..|allGetItems|] == allGetItems;
    var planPuts := AggregateItems(plan, PutKey) + PutItems(plan);
    var dependsOn := Seqs.Dedup(Seqs.Flatten(passed));
    assert dependsOn == DependsOn(planGets);
    var requiredResources := FindRequiredResources(planGets, GetKey) + FindRequiredResources(planPuts, PutKey);
    return Success(Job(record, name, planGets, planPuts, dependsOn, requiredResources));
  }

  /** A record with one more item at the end of its plan. */
  function WithStep(record: JobRecord, step: Step): JobRecord {
    record.(plan := Steps(record.PlanSteps() + [step]))
  }

  /** A put item adds a put and a resource, and no dependency. */
  lemma {:induction false} PutAddsNoDependency(record: JobRecord, resource: string)
    requires !record.IsEmpty()
    ensures Parsed(WithStep(record, Put(resource))).Success?
    ensures Parsed(WithStep(record, Put(resource))).value.planGets == Parsed(record).value.planGets
    ensures Parsed(WithStep(record, Put(resource))).value.planPuts == Parsed(record).value.planPuts + [Put(resource)]
    ensures Parsed(WithStep(record, Put(resource))).value.dependsOn == Parsed(record).value.dependsOn
  {
    var step := Put(resource);
    var plan := record.PlanSteps();
    assert WithStep(record, step).PlanSteps() == plan + [step];
    AppendedStep(plan, step);
  }

  /** A get item without a passed list adds a get and a resource, and no dependency. */
  lemma {:induction false} GetWithoutPassedAddsNoDependency(record: JobRecord, resource: string)
    requires !record.IsEmpty()
    ensures Parsed(WithStep(record, Get(resource, None))).Success?
    ensures Parsed(WithStep(record, Get(resource, None))).value.planGets ==
              Parsed(record).value.planGets + [Get(resource, None)]
    ensures Parsed(WithStep(record, Get(resource, None))).value.dependsOn == Parsed(record).value.dependsOn
  {
    var step := Get(resource, None);
    var plan := record.PlanSteps();
    assert WithStep(record, step).PlanSteps() == plan + [step];
    AppendedStep(plan, step);
    var gets := AllGets(plan);
    PassedListsAppend(gets, [step]);
    assert PassedLists([step]) == [];
    assert PassedLists(gets + [step]) == PassedLists(gets);
  }

  /** A get or put appended at the top level of a plan lands at the end of the gets or puts. */
  lemma {:induction false} AppendedStep(plan: seq<Step>, step: Step)
    requires step.Get? || step.Put?
    ensures AllGets(plan + [step]) == AllGets(plan) + (if step.Get? then [step] else [])
    ensures AllPuts(plan + [step]) == AllPuts(plan) + (if step.Put? then [step] else [])
  {
    AggregateChildrenAppend(plan, [step]);
    assert AggregateChildren([step]) == [] by {
      assert [step][..0] == [];
    }
    assert AggregateChildren(plan + [step]) == AggregateChildren(plan);
    SelectAppend(plan, [step], GetKey);
    SelectAppend(plan, [step], PutKey);
    assert [step][..0] == [];
  }

  /**
   * The dependencies appear in the order in which they are first named, reading
   * the passed lists of the gets one after another.
   */
  lemma DependenciesInFirstMentionOrder(record: JobRecord, i: nat, j: nat)
    requires Parsed(record).Success?
    requires i < j < |Parsed(record).value.dependsOn|
    ensures var job := Parsed(record).value;
            var mentions := Seqs.Flatten(PassedLists(job.planGets));
            job.dependsOn[i] in mentions && job.dependsOn[j] in mentions &&
            Seqs.FirstIndex(mentions, job.dependsOn[i]) < Seqs.FirstIndex(mentions, job.dependsOn[j])
  {
    var job := Parsed(record).value;
    Seqs.DedupFollowsFirstOccurrence(Seqs.Flatten(PassedLists(job.planGets)), i, j);
  }

  /** An aggregate inside an aggregate is never searched: its gets are not the job's. */
  lemma NestedAggregateIgnored(name: Name, inner: seq<Step>)
    ensures var record := JobRecord(Some(name), Steps([Aggregate([Aggregate(inner)])]), {});
            Parsed(record).Success? && Parsed(record).value.planGets == [] &&
            Parsed(record).value.dependsOn == [] && Parsed(record).value.requiredResources == []
  {
    var plan := [Aggregate([Aggregate(inner)])];
    assert AggregateChildren(plan) == [Aggregate(inner)] by {
      assert plan[..0] == [];
    }
  }
}
