/**
 * The typed form of a job record as both Job generations read it: an optional
 * `name`, an optional `plan`, and plan items that are `get`, `put` or `aggregate`
 * steps (or some other step the code never looks into).
 */
module Records {
  import opened Wrappers
  import Seqs

  /** A job or node name; `None` is Ruby's `nil`. */
  type Name = Option<string>

  /** Ruby string interpolation `"#{name}"`: `nil` interpolates as the empty string. */
  function NameText(n: Name): string {
    if n.Some? then n.value else ""
  }

  /** The two item keys the plan helpers select on: "get" and "put". */
  datatype StepKind = GetKey | PutKey

  /** The key of a plan item that is neither a get, a put nor an aggregate. */
  type OtherKey = k: string | k != "get" && k != "put" && k != "aggregate" witness "task"

  /** A record key other than "name" and "plan". */
  type RecordKey = k: string | k != "name" && k != "plan" witness "serial"

  /** A plan item, told apart by the key it carries. */
  datatype Step =
    | Get(resource: string, passed: Option<seq<string>>)  // `passed` is None when the key is absent
    | Put(resource: string)
    | Aggregate(items: seq<Step>)
    | Other(key: OtherKey)                                // a task or any other step

  /** `item.key?(kind)` */
  predicate HasKey(s: Step, kind: StepKind) {
    match kind
    case GetKey => s.Get?
    case PutKey => s.Put?
  }

  /** The "plan" entry of a record: absent, present but `nil`, or a list of items. */
  datatype PlanEntry = Absent | Nil | Steps(steps: seq<Step>)

  /**
   * A job record. `nameEntry` is None when the record has no "name" key, and
   * Some(None) when the key holds `nil`; `otherKeys` are its remaining keys.
   */
  datatype JobRecord = JobRecord(nameEntry: Option<Name>, plan: PlanEntry, otherKeys: set<RecordKey>) {
    /** `hash.empty?` */
    predicate IsEmpty() {
      nameEntry.None? && plan.Absent? && otherKeys == {}
    }

    /** `hash["name"]`: `nil` when the key is absent. */
    function NameOrNil(): Name {
      if nameEntry.Some? then nameEntry.value else None
    }

    /** The plan items, or none when the plan is absent, `nil` or empty. */
    function PlanSteps(): seq<Step> {
      if plan.Steps? then plan.steps else []
    }
  }

  /** `steps.select { |item| item.key? kind }` */
  function Select(steps: seq<Step>, kind: StepKind): (r: seq<Step>)
    ensures forall k :: 0 <= k < |r| ==> HasKey(r[k], kind)
    ensures |r| <= |steps|
  {
    if steps == [] then []
    else
      var front := Select(steps[..|steps| - 1], kind);
      var last := steps[|steps| - 1];
      if HasKey(last, kind) then front + [last] else front
  }

  /** The selection holds exactly the items that carry the key. */
  lemma {:induction false} SelectMembers(steps: seq<Step>, kind: StepKind)
    ensures forall x :: x in Select(steps, kind) <==> x in steps && HasKey(x, kind)
    decreases |steps|
  {
    if steps != [] {
      var front := steps[..|steps| - 1];
      SelectMembers(front, kind);
      assert steps == front + [steps[|steps| - 1]];
    }
  }

  /** Selecting from two lists one after the other keeps their order. */
  lemma {:induction false} SelectAppend(a: seq<Step>, b: seq<Step>, kind: StepKind)
    ensures Select(a + b, kind) == Select(a, kind) + Select(b, kind)
    decreases |b|
  {
    if b != [] {
      var front := b[..|b| - 1];
      assert (a + b)[..|a + b| - 1] == a + front;
      SelectAppend(a, front, kind);
    } else {
      assert a + b == a;
    }
  }

  /** `get_items(plan)`: the top-level items with a "get" key, in plan order. */
  function GetItems(plan: seq<Step>): (r: seq<Step>)
    ensures forall k :: 0 <= k < |r| ==> r[k].Get?
    ensures |r| <= |plan|
  {
    Select(plan, GetKey)
  }

  /** `put_items(plan)`: the top-level items with a "put" key, in plan order. */
  function PutItems(plan: seq<Step>): (r: seq<Step>)
    ensures forall k :: 0 <= k < |r| ==> r[k].Put?
    ensures |r| <= |plan|
  {
    Select(plan, PutKey)
  }

  /**
   * `plan.select { |p| p.key?("aggregate") }.collect { |p| p["aggregate"] }.flatten`:
   * the items of every top-level aggregate, in plan order. An aggregate nested
   * inside one of them stays a single (aggregate) item.
   */
  function AggregateChildren(plan: seq<Step>): seq<Step> {
    if plan == [] then []
    else
      var front := AggregateChildren(plan[..|plan| - 1]);
      var last := plan[|plan| - 1];
      if last.Aggregate? then front + last.items else front
  }

  /** The children are the items of the top-level aggregates and nothing else. */
  lemma {:induction false} AggregateChildrenMembers(plan: seq<Step>)
    ensures forall x :: x in AggregateChildren(plan) <==>
              exists k :: 0 <= k < |plan| && plan[k].Aggregate? && x in plan[k].items
    decreases |plan|
  {
    if plan != [] {
      var front := plan[..|plan| - 1];
      AggregateChildrenMembers(front);
      assert forall k :: 0 <= k < |plan| - 1 ==> front[k] == plan[k];
    }
  }

  lemma {:induction false} AggregateChildrenAppend(a: seq<Step>, b: seq<Step>)
    ensures AggregateChildren(a + b) == AggregateChildren(a) + AggregateChildren(b)
    decreases |b|
  {
    if b != [] {
      var front := b[..|b| - 1];
      assert (a + b)[..|a + b| - 1] == a + front;
      AggregateChildrenAppend(a, front);
    } else {
      assert a + b == a;
    }
  }

  /** One aggregate contributes all its items, in order and with repeats; any other item contributes nothing. */
  lemma AggregateChildrenOfOne(s: Step)
    ensures AggregateChildren([s]) == if s.Aggregate? then s.items else []
  {
    assert [s][..0] == [];
  }

  /** `plan_aggregate_items(kind)`: the items of the given kind found inside top-level aggregates. */
  function AggregateItems(plan: seq<Step>, kind: StepKind): (r: seq<Step>)
    ensures forall k :: 0 <= k < |r| ==> HasKey(r[k], kind)
  {
    Select(AggregateChildren(plan), kind)
  }

  /** The `passed` list of every get item that carries one, in order. */
  function PassedLists(items: seq<Step>): (r: seq<seq<string>>)
    ensures |r| <= |items|
  {
    if items == [] then []
    else
      var front := PassedLists(items[..|items| - 1]);
      var last := items[|items| - 1];
      if last.Get? && last.passed.Some? then front + [last.passed.value] else front
  }

  lemma {:induction false} PassedListsAppend(a: seq<Step>, b: seq<Step>)
    ensures PassedLists(a + b) == PassedLists(a) + PassedLists(b)
    decreases |b|
  {
    if b != [] {
      var front := b[..|b| - 1];
      assert (a + b)[..|a + b| - 1] == a + front;
      PassedListsAppend(a, front);
    } else {
      assert a + b == a;
    }
  }

  /** A get with a `passed` list contributes that whole list; every other item contributes nothing. */
  lemma PassedListsOfOne(s: Step)
    ensures PassedLists([s]) == if s.Get? && s.passed.Some? then [s.passed.value] else []
  {
    assert [s][..0] == [];
  }

  /**
   * Each collected list is the whole `passed` list of some get, and every get
   * carrying `passed` has its whole list collected.
   */
  lemma {:induction false} PassedListsWhole(items: seq<Step>)
    ensures forall m :: 0 <= m < |PassedLists(items)| ==>
              exists k :: 0 <= k < |items| && items[k].Get? && items[k].passed == Some(PassedLists(items)[m])
    ensures forall k :: 0 <= k < |items| && items[k].Get? && items[k].passed.Some? ==>
              items[k].passed.value in PassedLists(items)
    decreases |items|
  {
    if items != [] {
      var front := items[..|items| - 1];
      var last := items[|items| - 1];
      PassedListsWhole(front);
      assert forall k :: 0 <= k < |items| - 1 ==> front[k] == items[k];
      var lists := PassedLists(items);
      var frontLists := PassedLists(front);
      assert lists == if last.Get? && last.passed.Some? then frontLists + [last.passed.value] else frontLists;
      forall m | 0 <= m < |lists|
        ensures exists k :: 0 <= k < |items| && items[k].Get? && items[k].passed == Some(PassedLists(items)[m])
      {
        if m < |frontLists| {
          assert lists[m] == frontLists[m];
          var k :| 0 <= k < |front| && front[k].Get? && front[k].passed == Some(frontLists[m]);
          assert items[k] == front[k];
        } else {
          assert items[|items| - 1].passed == Some(lists[m]);
        }
      }
    } else {
      assert PassedLists(items) == [];
    }
  }

  /** A name occurs in some passed list exactly when some get item's passed list holds it. */
  lemma {:induction false} PassedNames(items: seq<Step>, n: string)
    ensures (exists m :: 0 <= m < |PassedLists(items)| && n in PassedLists(items)[m]) <==>
            exists k :: 0 <= k < |items| && items[k].Get? && items[k].passed.Some? && n in items[k].passed.value
    decreases |items|
  {
    if items != [] {
      var front := items[..|items| - 1];
      var last := items[|items| - 1];
      var lists := PassedLists(items);
      var frontLists := PassedLists(front);
      PassedNames(front, n);
      assert forall k :: 0 <= k < |items| - 1 ==> front[k] == items[k];
      assert lists == if last.Get? && last.passed.Some? then frontLists + [last.passed.value] else frontLists;
      assert forall m :: 0 <= m < |frontLists| ==> lists[m] == frontLists[m];
      if exists k :: 0 <= k < |items| && items[k].Get? && items[k].passed.Some? && n in items[k].passed.value {
        var k :| 0 <= k < |items| && items[k].Get? && items[k].passed.Some? && n in items[k].passed.value;
        if k == |items| - 1 {
          assert n in lists[|lists| - 1];
        } else {
          assert front[k] == items[k];
          var m :| 0 <= m < |frontLists| && n in frontLists[m];
          assert n in lists[m];
        }
      }
    }
  }
}
