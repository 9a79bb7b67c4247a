/**
 * The one-shot checker (main.py): validate the environment, then run a
 * single planned-day check over the tasks the provider returned for the
 * filter `tomorrow`, notifying when a required task lacks a specific time.
 */
module OneShotChecker {
  import opened Sequences
  import opened Planning
  import opened Notification

  const RequiredTasks: seq<string> := ["Plan for the Next Day"]
  const RequiredVars: seq<string> := ["TODOIST_API_TOKEN", "DISCORD_WEBHOOK_URL"]

  /** `os.getenv(name)` is truthy: the variable is present and not empty. */
  predicate IsSet(env: map<string, string>, name: string)
  {
    name in env && env[name] != ""
  }

  /** The variables of `vars` that are unset or empty, in the order of `vars`. */
  function UnsetVars(vars: seq<string>, env: map<string, string>): (r: seq<string>)
    ensures forall v :: v in r <==> v in vars && !IsSet(env, v)
    ensures IsSubsequence(r, vars)
  {
    if vars == [] then []
    else if IsSet(env, vars[0]) then UnsetVars(vars[1..], env)
    else [vars[0]] + UnsetVars(vars[1..], env)
  }

  /** The environment check: both the task-provider token and the webhook URL are set and non-empty. */
  function ValidateEnvironment(env: map<string, string>): (ok: bool)
    ensures ok <==> IsSet(env, "TODOIST_API_TOKEN") && IsSet(env, "DISCORD_WEBHOOK_URL")
  {
    UnsetVars(RequiredVars, env) == []
  }

  /**
   * The provider's `tomorrow` filter only returns tasks that carry a due;
   * the check reads `due.datetime` of every task whose name is required.
   */
  predicate DueReadable(tasks: seq<Task>)
  {
    forall t :: t in tasks && t.content in RequiredTasks ==> t.due.Some?
  }

  /**
   * One check over tomorrow's tasks: collects the planned names, and when
   * some required name is missing, builds the notification and reports
   * false.
   */
  method CheckPlannedDay(tasks: seq<Task>) returns (allPlanned: bool, notification: Option<string>)
    requires DueReadable(tasks)
    ensures allPlanned <==> Missing(RequiredTasks, tasks) == {}
    ensures notification.Some? <==> !allPlanned
    ensures notification.Some? ==> Announces(notification.value, Missing(RequiredTasks, tasks))
  {
    var planned: set<string> := {};
    for i := 0 to |tasks|
      invariant planned == SatisfiedNames(RequiredTasks, tasks[..i])
    {
      var task := tasks[i];
      assert task in tasks;
      if task.content in RequiredTasks && HasSpecificTime(task.due.value) {
        planned := planned + {task.content};
      }
      SatisfiedNamesSnoc(RequiredTasks, tasks[..i], task);
      assert tasks[..i + 1] == tasks[..i] + [task];
    }
    assert tasks[..|tasks|] == tasks;
    var missing := SetOf(RequiredTasks) - planned;
    if missing != {} {
      var message, _ := SendDiscordNotification(missing);
      return false, Some(message);
    }
    return true, None;
  }

  /** The outcome of one run of the program. */
  datatype Run = Run(status: nat, checked: Option<bool>, notification: Option<string>)

  /**
   * The program's entry point: exit status 1 without checking when the
   * environment is incomplete; otherwise one check (its result is only
   * logged) and a normal exit.
   */
  method RunOnce(env: map<string, string>, tasks: seq<Task>) returns (run: Run)
    requires ValidateEnvironment(env) ==> DueReadable(tasks)
    ensures run.status == (if ValidateEnvironment(env) then 0 else 1)
    ensures run.checked.None? <==> !ValidateEnvironment(env)
    ensures run.checked.None? ==> run.notification.None?
    ensures run.checked.Some? ==> (run.checked.value <==> Missing(RequiredTasks, tasks) == {})
    ensures run.checked.Some? ==> (run.notification.Some? <==> !run.checked.value)
    ensures run.notification.Some? ==> Announces(run.notification.value, Missing(RequiredTasks, tasks))
  {
    if !ValidateEnvironment(env) {
      return Run(1, None, None);
    }
    var result, notification := CheckPlannedDay(tasks);
    return Run(0, Some(result), notification);
  }

  /**
   * When no `Plan for the Next Day` task carries a specific time (for
   * instance, the only one is due tomorrow without a time of day), that
   * name is missing, whatever other tasks there are.
   */
  lemma UntimedPlanTaskIsMissing(tasks: seq<Task>)
    requires forall t :: t in tasks && t.content == "Plan for the Next Day" ==> !(t.due.Some? && HasSpecificTime(t.due.value))
    ensures Missing(RequiredTasks, tasks) == {"Plan for the Next Day"}
  {
  }
}
