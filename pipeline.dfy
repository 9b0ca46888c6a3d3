/**
 * A pipeline definition (lib/pipeline.rb): a list of jobs and a job library
 * filled in step by step, then checked by `make`, which records the job order.
 */
module Pipelines {
  import opened Wrappers
  import opened Records
  import LegacyJobs

  /** An argument where a job is expected: `nil`, some other object, or a Job. */
  datatype JobArg = NilJob | NotAJob | AJob(job: LegacyJobs.Job)

  /** How an object that is not an Array answers `empty?`, if it has that method at all. */
  datatype EmptyAnswer = NoEmptyMethod | AnswersEmpty | AnswersNotEmpty

  /** An argument where a list of jobs is expected. */
  datatype ListArg = NilList | NotAnArray(empty: EmptyAnswer) | AnArray(items: seq<JobArg>)

  const NilJobMessage := "Nil job"
  const NotAJobMessage := "Given job not a Job object"
  const NilJobListMessage := "Nil job list"
  const NotAJobListMessage := "Job list must be an array of Job objects"
  const NilLibraryMessage := "Nil job library"
  const EmptyLibraryMessage := "Empty job library"
  const NotALibraryMessage := "Job library must be an array of Job objects"
  const EmptyDefinitionMessage := "Empty pipeline definition"
  const EmptyJobListMessage := "Empty job list"
  const NoEmptyMethodMessage := "undefined method `empty?'"
  const NilNameMessage := "no implicit conversion of nil into String"

  /** Every element is a Job. */
  predicate AllJobs(items: seq<JobArg>) {
    forall k :: 0 <= k < |items| ==> items[k].AJob?
  }

  /** The jobs of a list whose every element is a Job. */
  function JobsOf(items: seq<JobArg>): (r: seq<LegacyJobs.Job>)
    requires AllJobs(items)
    ensures |r| == |items|
    ensures forall k :: 0 <= k < |items| ==> items[k] == AJob(r[k])
  {
    seq(|items|, k requires 0 <= k < |items| && items[k].AJob? => items[k].job)
  }

  /** `@jobs ||= []`: the job list so far, or an empty one. */
  function JobsSoFar(jobs: Option<seq<LegacyJobs.Job>>): seq<LegacyJobs.Job> {
    if jobs.Some? then jobs.value else []
  }

  /** Some library job has the job's name; two `nil` names match. */
  predicate InLibrary(library: seq<LegacyJobs.Job>, job: LegacyJobs.Job) {
    exists i :: 0 <= i < |library| && library[i].name == job.name
  }

  /** `"Missing job: " + name`; a `nil` name makes the concatenation itself fail. */
  function MissingJobMessage(name: Name): string {
    if name.Some? then "Missing job: " + name.value else NilNameMessage
  }

  /** `verify_no_missing_jobs!`: the error for the first job, in add order, that the library lacks. */
  function MissingJobError(jobs: seq<LegacyJobs.Job>, library: seq<LegacyJobs.Job>): (r: Option<string>)
    ensures r.None? <==> forall k :: 0 <= k < |jobs| ==> InLibrary(library, jobs[k])
  {
    if jobs == [] then None
    else if !InLibrary(library, jobs[0]) then Some(MissingJobMessage(jobs[0].name))
    else
      var rest := MissingJobError(jobs[1..], library);
      assert forall k :: 1 <= k < |jobs| ==> jobs[1..][k - 1] == jobs[k];
      rest
  }

  /** `determine_job_order`: the job names in add order. */
  function JobNames(jobs: seq<LegacyJobs.Job>): (r: seq<Name>)
    ensures |r| == |jobs|
    ensures forall k :: 0 <= k < |jobs| ==> r[k] == jobs[k].name
  {
    seq(|jobs|, k requires 0 <= k < |jobs| => jobs[k].name)
  }

  /**
   * The emptiness checks of `make`, in their order. Ruby's `or` and `and` bind
   * equally tight and group to the left, so the second check reads
   * "(jobs nil or empty) and library set", and the third likewise.
   */
  function EmptinessError(jobs: Option<seq<LegacyJobs.Job>>, library: Option<seq<LegacyJobs.Job>>): Option<string> {
    if jobs.None? && library.None? then Some(EmptyDefinitionMessage)
    else if (jobs.None? || jobs.value == []) && library.Some? then Some(EmptyJobListMessage)
    else if (library.None? || library.value == []) && jobs.Some? then Some(EmptyLibraryMessage)
    else None
  }

  /** What `make` raises, or the job order it records. */
  function MakeOutcome(jobs: Option<seq<LegacyJobs.Job>>, library: Option<seq<LegacyJobs.Job>>): (r: Result<seq<Name>, string>)
    ensures jobs.None? && library.None? ==> r == Failure(EmptyDefinitionMessage)
    ensures library.Some? && (jobs.None? || jobs.value == []) ==> r == Failure(EmptyJobListMessage)
    ensures jobs.Some? && jobs.value != [] && (library.None? || library.value == []) ==> r == Failure(EmptyLibraryMessage)
    ensures jobs.Some? && library.None? ==> r == Failure(EmptyLibraryMessage)
    ensures r.Success? <==>
              jobs.Some? && library.Some? && jobs.value != [] && library.value != [] &&
              forall k :: 0 <= k < |jobs.value| ==> InLibrary(library.value, jobs.value[k])
    ensures r.Success? ==> |r.value| == |jobs.value| && forall k :: 0 <= k < |r.value| ==> r.value[k] == jobs.value[k].name
  {
    var emptiness := EmptinessError(jobs, library);
    if emptiness.Some? then Failure(emptiness.value)
    else
      var missing := MissingJobError(jobs.value, library.value);
      if missing.Some? then Failure(missing.value)
      else Success(JobNames(jobs.value))
  }

  /** `make` names the first job of the list, in add order, that the library lacks. */
  lemma {:induction false} FirstMissingJobReported(jobs: seq<LegacyJobs.Job>, library: seq<LegacyJobs.Job>, k: nat)
    requires k < |jobs| && library != []
    requires forall m :: 0 <= m < k ==> InLibrary(library, jobs[m])
    requires !InLibrary(library, jobs[k])
    ensures MakeOutcome(Some(jobs), Some(library)) == Failure(MissingJobMessage(jobs[k].name))
  {
    FirstMissingIsReported(jobs, library, k);
  }

  lemma {:induction false} FirstMissingIsReported(jobs: seq<LegacyJobs.Job>, library: seq<LegacyJobs.Job>, k: nat)
    requires k < |jobs|
    requires forall m :: 0 <= m < k ==> InLibrary(library, jobs[m])
    requires !InLibrary(library, jobs[k])
    ensures MissingJobError(jobs, library) == Some(MissingJobMessage(jobs[k].name))
    decreases k
  {
    if k > 0 {
      assert InLibrary(library, jobs[0]);
      assert forall m :: 0 <= m < k - 1 ==> jobs[1..][m] == jobs[m + 1];
      FirstMissingIsReported(jobs[1..], library, k - 1);
    }
  }

  class Pipeline {
    var jobs: Option<seq<LegacyJobs.Job>>
    var library: Option<seq<LegacyJobs.Job>>
    /** `attr_reader :job_order`: set by a successful `make`. */
    var jobOrder: Option<seq<Name>>

    /** `Pipeline.new`: nothing set. */
    constructor ()
      ensures jobs.None? && library.None? && jobOrder.None?
    {
      jobs := None;
      library := None;
      jobOrder := None;
    }

    /** `add_job`: rejects `nil` and non-Jobs; otherwise appends the job. */
    method AddJob(job: JobArg) returns (err: Option<string>)
      modifies this
      ensures library == old(library) && jobOrder == old(jobOrder)
      ensures job.NilJob? ==> err == Some(NilJobMessage) && jobs == old(jobs)
      ensures job.NotAJob? ==> err == Some(NotAJobMessage) && jobs == old(jobs)
      ensures job.AJob? ==> err.None? && jobs == Some(JobsSoFar(old(jobs)) + [job.job])
    {
      if job.NilJob? {
        return Some(NilJobMessage);
      }
      if !job.AJob? {
        return Some(NotAJobMessage);
      }
      jobs := Some(JobsSoFar(jobs) + [job.job]);
      return None;
    }

    /** `add_jobs`: rejects `nil`, non-Arrays and lists holding a non-Job; otherwise appends them all in order. */
    method AddJobs(list: ListArg) returns (err: Option<string>)
      modifies this
      ensures library == old(library) && jobOrder == old(jobOrder)
      ensures list.NilList? ==> err == Some(NilJobListMessage) && jobs == old(jobs)
      ensures list.NotAnArray? || (list.AnArray? && !AllJobs(list.items)) ==>
                err == Some(NotAJobListMessage) && jobs == old(jobs)
      ensures list.AnArray? && AllJobs(list.items) ==>
                err.None? && jobs == Some(JobsSoFar(old(jobs)) + JobsOf(list.items))
    {
      if list.NilList? {
        return Some(NilJobListMessage);
      }
      if !list.AnArray? {
        return Some(NotAJobListMessage);
      }
      var anyNotAJob := AnyNotAJob(list.items);
      if anyNotAJob {
        return Some(NotAJobListMessage);
      }
      jobs := Some(JobsSoFar(jobs) + JobsOf(list.items));
      return None;
    }

    /**
     * `library`: rejects `nil`, then anything empty, then non-Arrays and lists
     * holding a non-Job, in that order; otherwise the library is replaced.
     */
    method Library(list: ListArg) returns (err: Option<string>)
      modifies this
      ensures jobs == old(jobs) && jobOrder == old(jobOrder)
      ensures err.None? <==> list.AnArray? && list.items != [] && AllJobs(list.items)
      ensures err.None? ==> library == Some(JobsOf(list.items))
      ensures err.Some? ==> library == old(library)
      ensures list.NilList? ==> err == Some(NilLibraryMessage)
      ensures list == AnArray([]) || list == NotAnArray(AnswersEmpty) ==> err == Some(EmptyLibraryMessage)
      ensures list == NotAnArray(NoEmptyMethod) ==> err == Some(NoEmptyMethodMessage)
      ensures list == NotAnArray(AnswersNotEmpty) || (list.AnArray? && list.items != [] && !AllJobs(list.items)) ==>
                err == Some(NotALibraryMessage)
    {
      if list.NilList? {
        return Some(NilLibraryMessage);
      }
      if list == NotAnArray(NoEmptyMethod) {
        return Some(NoEmptyMethodMessage);
      }
      if list == NotAnArray(AnswersEmpty) || list == AnArray([]) {
        return Some(EmptyLibraryMessage);
      }
      if !list.AnArray? {
        return Some(NotALibraryMessage);
      }
      var anyNotAJob := AnyNotAJob(list.items);
      if anyNotAJob {
        return Some(NotALibraryMessage);
      }
      library := Some(JobsOf(list.items));
      return None;
    }

    /**
     * `make`: the emptiness checks, then `verify_no_missing_jobs!`, then the job
     * order; on success the order is recorded and the pipeline itself returned.
     */
    method Make() returns (r: Result<Pipeline, string>)
      modifies this
      ensures jobs == old(jobs) && library == old(library)
      ensures MakeOutcome(jobs, library).Failure? ==>
                r == Failure(MakeOutcome(jobs, library).error) && jobOrder == old(jobOrder)
      ensures MakeOutcome(jobs, library).Success? ==>
                r == Success(this) && jobOrder == Some(MakeOutcome(jobs, library).value)
    {
      if jobs.None? && library.None? {
        return Failure(EmptyDefinitionMessage);
      }
      if (jobs.None? || jobs.value == []) && library.Some? {
        return Failure(EmptyJobListMessage);
      }
      if (library.None? || library.value == []) && jobs.Some? {
        return Failure(EmptyLibraryMessage);
      }
      var missing := VerifyNoMissingJobs();
      if missing.Some? {
        return Failure(missing.value);
      }
      var order := DetermineJobOrder();
      jobOrder := Some(order);
      return Success(this);
    }

    /** `verify_no_missing_jobs!`: checks the jobs in add order against the library. */
    method VerifyNoMissingJobs() returns (err: Option<string>)
      requires jobs.Some? && library.Some?
      ensures err == MissingJobError(jobs.value, library.value)
    {
      var js := jobs.value;
      var lib := library.value;
      for k := 0 to |js|
        invariant forall m :: 0 <= m < k ==> InLibrary(lib, js[m])
      {
        var found := AnyNamed(lib, js[k].name);
        if !found {
          FirstMissingIsReported(js, lib, k);
          return Some(MissingJobMessage(js[k].name));
        }
      }
      return None;
    }

    /** `determine_job_order`: collects the job names in add order. */
    method DetermineJobOrder() returns (result: seq<Name>)
      requires jobs.Some?
      ensures result == JobNames(jobs.value)
    {
      var js := jobs.value;
      result := [];
      for k := 0 to |js|
        invariant result == JobNames(js[..k])
      {
        result := result + [js[k].name];
      }
      assert js[..|js|] == js;
    }
  }

  /** One call made inside a `Pipeline.define` block. */
  datatype Call = AddJobCall(job: JobArg) | AddJobsCall(list: ListArg) | LibraryCall(list: ListArg)

  /** The fields a definition block fills in. */
  datatype Fields = Fields(jobs: Option<seq<LegacyJobs.Job>>, library: Option<seq<LegacyJobs.Job>>)

  /** The effect of one call on the fields, or the error it raises. */
  function Apply(f: Fields, call: Call): Result<Fields, string> {
    match call
    case AddJobCall(NilJob) => Failure(NilJobMessage)
    case AddJobCall(NotAJob) => Failure(NotAJobMessage)
    case AddJobCall(AJob(j)) => Success(f.(jobs := Some(JobsSoFar(f.jobs) + [j])))
    case AddJobsCall(NilList) => Failure(NilJobListMessage)
    case AddJobsCall(NotAnArray(_)) => Failure(NotAJobListMessage)
    case AddJobsCall(AnArray(items)) =>
      if AllJobs(items) then Success(f.(jobs := Some(JobsSoFar(f.jobs) + JobsOf(items))))
      else Failure(NotAJobListMessage)
    case LibraryCall(NilList) => Failure(NilLibraryMessage)
    case LibraryCall(NotAnArray(NoEmptyMethod)) => Failure(NoEmptyMethodMessage)
    case LibraryCall(NotAnArray(AnswersEmpty)) => Failure(EmptyLibraryMessage)
    case LibraryCall(NotAnArray(AnswersNotEmpty)) => Failure(NotALibraryMessage)
    case LibraryCall(AnArray(items)) =>
      if items == [] then Failure(EmptyLibraryMessage)
      else if AllJobs(items) then Success(f.(library := Some(JobsOf(items))))
      else Failure(NotALibraryMessage)
  }

  /** The fields after a block of calls on a fresh pipeline; the first error stops the block. */
  function Fill(calls: seq<Call>): Result<Fields, string> {
    if calls == [] then Success(Fields(None, None))
    else
      match Fill(calls[..|calls| - 1])
      case Failure(e) => Failure(e)
      case Success(f) => Apply(f, calls[|calls| - 1])
  }

  /** What `Pipeline.define` raises, or the job order of the pipeline it returns. */
  function DefineOutcome(calls: seq<Call>): Result<seq<Name>, string> {
    match Fill(calls)
    case Failure(e) => Failure(e)
    case Success(f) => MakeOutcome(f.jobs, f.library)
  }

  /**
   * `Pipeline.define`: a fresh pipeline, the calls of the block in order, then
   * `make`. Evaluating the block as Ruby code is not modelled; the block is
   * given as the list of calls it makes.
   */
  method Define(calls: seq<Call>) returns (r: Result<Pipeline, string>)
    ensures DefineOutcome(calls).Failure? ==> r == Failure(DefineOutcome(calls).error)
    ensures DefineOutcome(calls).Success? ==>
              r.Success? && fresh(r.value) && r.value.jobOrder == Some(DefineOutcome(calls).value)
  {
    var p := new Pipeline();
    for k := 0 to |calls|
      invariant Fill(calls[..k]) == Success(Fields(p.jobs, p.library))
      invariant fresh(p) && p.jobOrder.None?
    {
      assert calls[..k + 1][..k] == calls[..k];
      ghost var before := Fields(p.jobs, p.library);
      assert Fill(calls[..k + 1]) == Apply(before, calls[k]);
      var err: Option<string>;
      match calls[k] {
        case AddJobCall(job) => err := p.AddJob(job);
        case AddJobsCall(list) => err := p.AddJobs(list);
        case LibraryCall(list) => err := p.Library(list);
      }
      if err.Some? {
        assert Fill(calls[..k + 1]) == Failure(err.value);
        FillStopsAtError(calls, k + 1, err.value);
        return Failure(err.value);
      }
      assert Apply(before, calls[k]) == Success(Fields(p.jobs, p.library));
    }
    assert calls[..|calls|] == calls;
    r := p.Make();
  }

  /** Once a call of the block has raised, later calls change nothing. */
  lemma {:induction false} FillStopsAtError(calls: seq<Call>, k: nat, e: string)
    requires k <= |calls| && Fill(calls[..k]) == Failure(e)
    ensures Fill(calls) == Failure(e)
    decreases |calls| - k
  {
    if k < |calls| {
      assert calls[..k + 1][..k] == calls[..k];
      FillStopsAtError(calls, k + 1, e);
    } else {
      assert calls[..k] == calls;
    }
  }

  /** A block that only adds jobs, one by one, and then sets a library holding all of them succeeds with the names in add order. */
  lemma {:induction false} AddedJobsThenLibrary(js: seq<LegacyJobs.Job>, library: seq<LegacyJobs.Job>)
    requires js != [] && library != []
    requires forall k :: 0 <= k < |js| ==> InLibrary(library, js[k])
    ensures DefineOutcome(AddJobCalls(js) + [LibraryCall(AnArray(JobArgs(library)))]) == Success(JobNames(js))
  {
    AddJobCallsFill(js);
    var calls := AddJobCalls(js) + [LibraryCall(AnArray(JobArgs(library)))];
    assert calls[..|calls| - 1] == AddJobCalls(js);
    assert JobsOf(JobArgs(library)) == library;
  }

  /** `add_job j` for each job, in order. */
  function AddJobCalls(js: seq<LegacyJobs.Job>): (r: seq<Call>)
    ensures |r| == |js|
  {
    seq(|js|, k requires 0 <= k < |js| => AddJobCall(AJob(js[k])))
  }

  /** The jobs as arguments. */
  function JobArgs(js: seq<LegacyJobs.Job>): (r: seq<JobArg>)
    ensures |r| == |js| && AllJobs(r)
  {
    seq(|js|, k requires 0 <= k < |js| => AJob(js[k]))
  }

  lemma {:induction false} AddJobCallsFill(js: seq<LegacyJobs.Job>)
    ensures Fill(AddJobCalls(js)) == Success(Fields(if js == [] then None else Some(js), None))
  {
    if js != [] {
      var front := js[..|js| - 1];
      assert AddJobCalls(js)[..|js| - 1] == AddJobCalls(front);
      AddJobCallsFill(front);
      assert front + [js[|js| - 1]] == js;
    }
  }

  /** `items.any? { |j| not j.is_a? Job }` */
  method AnyNotAJob(items: seq<JobArg>) returns (found: bool)
    ensures found <==> !AllJobs(items)
  {
    for k := 0 to |items|
      invariant AllJobs(items[..k])
    {
      if !items[k].AJob? {
        return true;
      }
      assert items[..k + 1] == items[..k] + [items[k]];
    }
    assert items[..|items|] == items;
    return false;
  }

  /** `library.any? { |i| i.name == name }` */
  method AnyNamed(library: seq<LegacyJobs.Job>, name: Name) returns (found: bool)
    ensures found <==> exists i :: 0 <= i < |library| && library[i].name == name
  {
    for k := 0 to |library|
      invariant forall i :: 0 <= i < k ==> library[i].name != name
    {
      if library[k].name == name {
        return true;
      }
    }
    return false;
  }
}
