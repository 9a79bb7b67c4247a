/**
 * The planned-day rule shared by both checkers: a required task name is
 * satisfied by a task carrying that exact name and a specific due time,
 * and the missing set is the required names minus the satisfied ones.
 */
module Planning {
  import opened Sequences

  datatype Option<T> = None | Some(value: T)

  /** A task's due: its calendar date (`YYYY-MM-DD`) and, when set, a specific timestamp. */
  datatype Due = Due(date: string, datetime: Option<string>)

  /** The fields of a provider task the checkers read. */
  datatype Task = Task(content: string, due: Option<Due>)

  /** Python truthiness of `due.datetime`: present and not the empty string. */
  predicate HasSpecificTime(d: Due)
  {
    d.datetime.Some? && d.datetime.value != ""
  }

  /** `t` marks its own name as planned: the name is required (exact match) and it has a specific time. */
  predicate Satisfies(t: Task, required: seq<string>)
  {
    t.content in required && t.due.Some? && HasSpecificTime(t.due.value)
  }

  /** The names marked planned by some task of `tasks`. */
  function SatisfiedNames(required: seq<string>, tasks: seq<Task>): (r: set<string>)
    ensures r <= SetOf(required)
  {
    set t | t in tasks && Satisfies(t, required) :: t.content
  }

  /** `set(required) - planned`: the required names no task satisfies. */
  function Missing(required: seq<string>, tasks: seq<Task>): (r: set<string>)
    ensures r <= SetOf(required)
    ensures forall n :: n in r <==>
      n in required && forall t :: t in tasks && t.content == n ==> !(t.due.Some? && HasSpecificTime(t.due.value))
  {
    SetOf(required) - SatisfiedNames(required, tasks)
  }

  /** Looking at one more task adds its name to the planned set exactly when it satisfies the rule. */
  lemma SatisfiedNamesSnoc(required: seq<string>, tasks: seq<Task>, t: Task)
    ensures SatisfiedNames(required, tasks + [t]) ==
      SatisfiedNames(required, tasks) + (if Satisfies(t, required) then {t.content} else {})
  {
  }

  /** Only which tasks occur matters: reordering or duplicating tasks leaves the missing set unchanged. */
  lemma MissingDependsOnlyOnElements(required: seq<string>, a: seq<Task>, b: seq<Task>)
    requires forall t :: t in a <==> t in b
    ensures Missing(required, a) == Missing(required, b)
  {
  }

  /**
   * A task that does not satisfy the rule (its name is not required, it has
   * no due, or its due has no specific time) never changes the missing set,
   * wherever it is inserted.
   */
  lemma NonSatisfyingTaskIrrelevant(required: seq<string>, tasks: seq<Task>, k: nat, t: Task)
    requires k <= |tasks|
    requires !Satisfies(t, required)
    ensures Missing(required, tasks[..k] + [t] + tasks[k..]) == Missing(required, tasks)
  {
  }
}
