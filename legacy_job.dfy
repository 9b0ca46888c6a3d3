/**
 * A job of the first generation (lib/job.rb): only top-level get items are
 * read, passed lists are kept as they are, and an empty record gives a job
 * named "" with no lists at all instead of an error.
 */
module LegacyJobs {
  import opened Wrappers
  import opened Records

  /** `planGets` and `dependsOn` are None (`nil`) for a job built from an empty record. */
  datatype Job = Job(
    record: JobRecord,
    name: Name,
    planGets: Option<seq<Step>>,
    dependsOn: Option<seq<seq<string>>>)

  /** The job `Job.new(record)` builds. */
  function Parsed(record: JobRecord): (job: Job)
    ensures job.record == record
    ensures record.IsEmpty() ==> job.name == Some("") && job.planGets.None? && job.dependsOn.None?
    ensures !record.IsEmpty() ==> job.name == record.NameOrNil() && job.planGets.Some? && job.dependsOn.Some?
  {
    if record.IsEmpty() then Job(record, Some(""), None, None)
    else
      var gets := GetItems(record.PlanSteps());
      Job(record, record.NameOrNil(), Some(gets), Some(PassedLists(gets)))
  }

  /** `Job.new(record)`: gathers the top-level gets and their passed lists item by item. */
  method New(record: JobRecord) returns (job: Job)
    ensures job == Parsed(record)
  {
    if record.IsEmpty() {
      return Job(record, Some(""), None, None);
    }
    var name := record.NameOrNil();
    if record.plan.Absent? || record.plan.Nil? || record.plan.steps == [] {
      return Job(record, name, Some([]), Some([]));
    }
    var allGetItems := GetItems(record.plan.steps);
    var planGets: seq<Step> := [];
    var dependsOn: seq<seq<string>> := [];
    for i := 0 to |allGetItems|
      invariant planGets == allGetItems[..i]
      invariant dependsOn == PassedLists(allGetItems[..i])
    {
      var item := allGetItems[i];
      assert allGetItems[..i + 1][..i] == allGetItems[..i];
      planGets := planGets + [item];
      if item.Get? && item.passed.Some? {
        dependsOn := dependsOn + [item.passed.value];
      }
    }
    assert allGetItems[..|allGetItems|] == allGetItems;
    return Job(record, name, Some(planGets), Some(dependsOn));
  }

  /** The gets are exactly the get items at the top level of the plan; aggregates are not searched. */
  lemma {:induction false} ParsedGets(record: JobRecord)
    requires !record.IsEmpty()
    ensures forall x :: x in Parsed(record).planGets.value <==> x.Get? && x in record.PlanSteps()
  {
    SelectMembers(record.PlanSteps(), GetKey);
  }

  /**
   * The dependencies are the gets' passed lists, one list per get that has
   * one, in plan order: a name passed by two gets is listed twice.
   */
  lemma {:induction false} ParsedDependencies(record: JobRecord, n: string)
    requires !record.IsEmpty()
    ensures var job := Parsed(record);
            forall m :: 0 <= m < |job.dependsOn.value| ==>
              exists k :: 0 <= k < |job.planGets.value| && job.planGets.value[k].passed == Some(job.dependsOn.value[m])
    ensures var job := Parsed(record);
            forall k :: 0 <= k < |job.planGets.value| && job.planGets.value[k].passed.Some? ==>
              job.planGets.value[k].passed.value in job.dependsOn.value
    ensures var job := Parsed(record);
            |job.dependsOn.value| <= |job.planGets.value| &&
            ((exists m :: 0 <= m < |job.dependsOn.value| && n in job.dependsOn.value[m]) <==>
             exists k :: 0 <= k < |job.planGets.value| && job.planGets.value[k].passed.Some? &&
                         n in job.planGets.value[k].passed.value)
  {
    PassedNames(Parsed(record).planGets.value, n);
    PassedListsWhole(Parsed(record).planGets.value);
  }

  /** An aggregate appended to the plan changes neither the gets nor the dependencies. */
  lemma {:induction false} AggregateIgnored(record: JobRecord, items: seq<Step>)
    requires !record.IsEmpty()
    ensures var extended := record.(plan := Steps(record.PlanSteps() + [Aggregate(items)]));
            Parsed(extended).planGets == Parsed(record).planGets &&
            Parsed(extended).dependsOn == Parsed(record).dependsOn
  {
    var step := Aggregate(items);
    SelectAppend(record.PlanSteps(), [step], GetKey);
    assert Select([step], GetKey) == [] by {
      assert [step][..0] == [];
    }
  }

  /**
   * An item appended to the plan: a get lands at the end of the gets, and a get
   * carrying `passed` adds that whole list, unchanged, as one more dependency
   * entry; any other item changes neither list.
   */
  lemma {:induction false} AppendedStep(record: JobRecord, s: Step)
    requires !record.IsEmpty()
    ensures var extended := record.(plan := Steps(record.PlanSteps() + [s]));
            Parsed(extended).planGets.value == Parsed(record).planGets.value + (if s.Get? then [s] else []) &&
            Parsed(extended).dependsOn.value ==
              Parsed(record).dependsOn.value + (if s.Get? && s.passed.Some? then [s.passed.value] else [])
  {
    var plan := record.PlanSteps();
    SelectAppend(plan, [s], GetKey);
    assert Select([s], GetKey) == (if s.Get? then [s] else []) by {
      assert [s][..0] == [];
    }
    PassedListsAppend(GetItems(plan), Select([s], GetKey));
    if s.Get? {
      PassedListsOfOne(s);
    }
  }

  /** `valid?`: a job is valid when its name is not empty; a `nil` name raises. */
  function IsValid(job: Job): (r: Result<bool, string>)
    ensures r.Failure? <==> job.name.None?
    ensures r.Success? ==> (r.value <==> job.name.value != "")
  {
    if job.name.None? then Failure("undefined method `empty?' for nil:NilClass")
    else Success(job.name.value != "")
  }

  /** A job built from a record with a non-empty name is valid; one built from an empty record is not. */
  lemma ValidExactlyWhenNamed(record: JobRecord)
    ensures record.IsEmpty() ==> IsValid(Parsed(record)) == Success(false)
    ensures !record.IsEmpty() && record.NameOrNil().Some? ==>
              IsValid(Parsed(record)) == Success(record.NameOrNil().value != "")
  {
  }
}
