/**
 * The scheduled checker (app.py): filters all tasks to those due on the
 * `tomorrow` date on the client side, checks four daily tasks, and is
 * registered to run at fixed evening hours.
 */
module ScheduledChecker {
  import opened Sequences
  import opened Planning
  import opened Notification

  const RequiredTasks: seq<string> := ["Breakfast", "Lunch", "Dinner", "Shower"]

  /** `t` has a due whose calendar date is exactly `day`. */
  predicate DueOn(t: Task, day: string)
  {
    t.due.Some? && t.due.value.date == day
  }

  /** The tasks due on `tomorrow` (a `YYYY-MM-DD` string), in their original order. */
  function TomorrowTasks(tasks: seq<Task>, tomorrow: string): (r: seq<Task>)
    ensures forall t :: t in r <==> t in tasks && DueOn(t, tomorrow)
    ensures IsSubsequence(r, tasks)
  {
    if tasks == [] then []
    else if DueOn(tasks[0], tomorrow) then [tasks[0]] + TomorrowTasks(tasks[1..], tomorrow)
    else TomorrowTasks(tasks[1..], tomorrow)
  }

  /** The filter keeps every copy of a task due on `tomorrow` and no copy of any other task. */
  lemma {:induction false} TomorrowTasksKeepsEveryCopy(tasks: seq<Task>, tomorrow: string, t: Task)
    ensures multiset(TomorrowTasks(tasks, tomorrow))[t] == (if DueOn(t, tomorrow) then multiset(tasks)[t] else 0)
  {
    if tasks != [] {
      TomorrowTasksKeepsEveryCopy(tasks[1..], tomorrow, t);
      assert tasks == [tasks[0]] + tasks[1..];
      assert multiset(tasks) == multiset([tasks[0]]) + multiset(tasks[1..]);
    }
  }

  /**
   * The required names that no task due on `tomorrow` satisfies: a name is
   * missing exactly when no task with that name is due that day with a
   * specific time.
   */
  function DailyMissing(tasks: seq<Task>, tomorrow: string): (r: set<string>)
    ensures r <= {"Breakfast", "Lunch", "Dinner", "Shower"}
    ensures forall n :: n in r <==>
      n in RequiredTasks &&
      forall t :: t in tasks && t.content == n ==> !(DueOn(t, tomorrow) && HasSpecificTime(t.due.value))
  {
    Missing(RequiredTasks, TomorrowTasks(tasks, tomorrow))
  }

  /** One check: notifies exactly when some required name is missing. */
  method CheckPlannedDay(tasks: seq<Task>, tomorrow: string) returns (notification: Option<string>)
    ensures notification.Some? <==> DailyMissing(tasks, tomorrow) != {}
    ensures notification.Some? ==> Announces(notification.value, DailyMissing(tasks, tomorrow))
  {
    var tomorrowTasks := TomorrowTasks(tasks, tomorrow);
    var planned: seq<string> := [];
    for i := 0 to |tomorrowTasks|
      invariant SetOf(planned) == SatisfiedNames(RequiredTasks, tomorrowTasks[..i])
    {
      var task := tomorrowTasks[i];
      assert task in tomorrowTasks;
      if task.content in RequiredTasks && HasSpecificTime(task.due.value) {
        planned := planned + [task.content];
      }
      SatisfiedNamesSnoc(RequiredTasks, tomorrowTasks[..i], task);
      assert tomorrowTasks[..i + 1] == tomorrowTasks[..i] + [task];
    }
    assert tomorrowTasks[..|tomorrowTasks|] == tomorrowTasks;
    var missing := SetOf(RequiredTasks) - SetOf(planned);
    notification := None;
    if missing != {} {
      var message, _ := SendDiscordNotification(missing);
      notification := Some(message);
    }
  }

  /** A task due on another day (or on no day) never changes the missing set, even with a specific time. */
  lemma OtherDayTaskIrrelevant(tasks: seq<Task>, tomorrow: string, k: nat, t: Task)
    requires k <= |tasks|
    requires !DueOn(t, tomorrow)
    ensures DailyMissing(tasks[..k] + [t] + tasks[k..], tomorrow) == DailyMissing(tasks, tomorrow)
  {
  }

  /** Reordering or duplicating tasks leaves the missing set unchanged. */
  lemma DailyMissingDependsOnlyOnElements(a: seq<Task>, b: seq<Task>, tomorrow: string)
    requires forall t :: t in a <==> t in b
    ensures DailyMissing(a, tomorrow) == DailyMissing(b, tomorrow)
  {
  }

  // Trigger times: `f"{hour:02d}:00"` for each hour of `range(19, 23)`.

  function Digit(d: nat): char
    requires d < 10
  {
    "0123456789"[d]
  }

  predicate IsDigit(c: char)
  {
    '0' <= c <= '9'
  }

  predicate AllDigits(s: string)
  {
    forall i :: 0 <= i < |s| ==> IsDigit(s[i])
  }

  /** The number a string of decimal digits denotes; leading zeros are allowed. */
  function DigitsValue(s: string): nat
    requires AllDigits(s)
  {
    if s == [] then 0 else DigitsValue(s[..|s| - 1]) * 10 + (s[|s| - 1] - '0') as nat
  }

  /** `str(n)`: the shortest decimal representation of `n`. */
  function Decimal(n: nat): (s: string)
    ensures |s| >= 1 && AllDigits(s)
    ensures n >= 10 ==> |s| >= 2
    ensures n < 100 ==> |s| <= 2
  {
    if n < 10 then [Digit(n)] else Decimal(n / 10) + [Digit(n % 10)]
  }

  lemma {:induction false} DecimalRoundTrip(n: nat)
    ensures DigitsValue(Decimal(n)) == n
  {
    var s := Decimal(n);
    if n < 10 {
      assert s[..0] == [];
    } else {
      DecimalRoundTrip(n / 10);
      assert s[..|s| - 1] == Decimal(n / 10);
    }
  }

  /** `f"{n:02d}"`: the decimal form of `n`, left-padded with zeros to two characters. */
  function ZeroPad2(n: nat): (s: string)
    ensures |s| >= 2 && AllDigits(s) && DigitsValue(s) == n
    ensures n < 100 ==> |s| == 2
    ensures n >= 10 ==> s == Decimal(n)
  {
    DecimalRoundTrip(n);
    if n < 10 then
      assert DigitsValue(['0']) == 0 by { assert ['0'][..0] == []; }
      assert ['0', Digit(n)][..1] == ['0'];
      ['0', Digit(n)]
    else Decimal(n)
  }

  /** The trigger string for `hour`: two zero-padded digits, then `:00`. */
  function TriggerTime(hour: nat): (s: string)
    ensures hour < 100 ==> |s| == 5 && s[2..] == ":00"
    ensures hour < 100 ==> AllDigits(s[..2]) && DigitsValue(s[..2]) == hour
  {
    var hh := ZeroPad2(hour);
    assert hour < 100 ==> (hh + ":00")[..2] == hh;
    hh + ":00"
  }

  lemma EveningTriggerTimes()
    ensures TriggerTime(19) == "19:00" && TriggerTime(20) == "20:00"
    ensures TriggerTime(21) == "21:00" && TriggerTime(22) == "22:00"
  {
  }

  /** Registers one daily trigger per hour from 19 up to and including 22. */
  method ScheduleTriggers() returns (times: seq<string>)
    ensures |times| == 4
    ensures forall i :: 0 <= i < |times| ==> times[i] == TriggerTime(19 + i)
    ensures times == ["19:00", "20:00", "21:00", "22:00"]
  {
    times := [];
    for hour := 19 to 23
      invariant |times| == hour - 19
      invariant forall i :: 0 <= i < |times| ==> times[i] == TriggerTime(19 + i)
    {
      times := times + [TriggerTime(hour)];
    }
    EveningTriggerTimes();
  }
}
