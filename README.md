# todoist-bugger, modelled in Dafny

todoist-bugger checks whether tomorrow is "planned" in a Todoist account and,
if not, posts a warning to a Discord webhook. A required task name counts as
planned when some task due tomorrow carries exactly that name and a specific
due time (not only a date). The check exists in two variants:

- `main.py`, a one-shot program: it validates two environment variables
  (`TODOIST_API_TOKEN`, `DISCORD_WEBHOOK_URL`) and exits with status 1 when
  one is unset or empty; otherwise it runs one check against the single
  required task `Plan for the Next Day`. The provider has already filtered
  the tasks to those due tomorrow.
- `app.py`, a scheduled program: it fetches all tasks and keeps those whose
  `due.date` equals tomorrow's `YYYY-MM-DD` string itself. It then checks the
  four required tasks `Breakfast`, `Lunch`, `Dinner` and `Shower`, and it
  registers the check at `19:00`, `20:00`, `21:00` and `22:00` every day.

In both variants a notification is sent exactly when the missing set is
non-empty. The message is a fixed header followed by one `- <name>` line per
missing name.

Modules:

- `sequences.dfy` (`Sequences`): set-of-a-sequence, subsequence, distinctness
  and "lists a set exactly once".
- `planning.dfy` (`Planning`): the `Task` and `Due` data and the missing-set
  rule that both variants share.
- `notification.dfy` (`Notification`): the message builder, which is the same
  code in both files. It comes with a reader (`ParseMessage`) that recovers
  the names from a message.
- `one_shot.dfy` (`OneShotChecker`): `main.py`.
- `scheduled.dfy` (`ScheduledChecker`): `app.py`.

"Truthy" follows Python. `due.datetime` counts only when it is present and
non-empty. An environment variable counts as set only when it is present and
non-empty. Tomorrow's date is a parameter, and the task list stands for the
provider's answer. The notification effect is the payload the checker would
post (`Some(message)`), or `None` when nothing is sent.

## Model

| member | source | states |
|---|---|---|
| Planning.Missing | main.py:60-66 | the missing set lies within the required names, and a name is missing exactly when it is required and no task with that name has a due with a specific time |
| Planning.SatisfiedNames | main.py:60-63 | the planned names (the closed form of `planned_tasks`, which both check loops are proved equal to) are always among the required names |
| Planning.SatisfiedNamesSnoc | main.py:61-63 | looking at one more task adds its name to the planned set exactly when the name is required and the task has a specific due time |
| Planning.MissingDependsOnlyOnElements | main.py:60-66 | two task lists with the same elements give the same missing set, so reordering or duplicating tasks changes nothing |
| Planning.NonSatisfyingTaskIrrelevant | main.py:62 | inserting a task anywhere leaves the missing set unchanged when its name is not required or it has no specific due time (so a matching name without a time stays missing) |
| Notification.SendDiscordNotification | main.py:80-85 | the message is the header followed by one bullet line per name, in an iteration order that lists every missing name exactly once; when no name contains a line break, the message reads back as that set |
| Notification.BulletsSnoc | main.py:84-85 | appending one `- name\n` line to the message extends the bullet list by that name |
| Notification.ParseBulletsRoundTrip | app.py:43-44 | bullet lines of names without line breaks read back as exactly those names, in order |
| Notification.MessageRoundTrip | app.py:42-44 | a message built from a list of names reads back, past the header, as exactly that list |
| Notification.AnnouncedSetIsUnique | app.py:42-44 | a message announces at most one set of names: its bullet lines correspond one-to-one with the missing set |
| Notification.ParseBulletsInverse | app.py:43-44 | any text the bullet reader accepts is exactly the bullet lines of the names it returns |
| Notification.AnnouncedMessageIsBuilt | main.py:83-85 | a message that announces a set is the header followed by one bullet line per element of the set, each element once, so the payload text is fixed up to order |
| OneShotChecker.UnsetVars | main.py:36 | the result holds exactly the listed variables that are absent or empty, in the order they were listed |
| OneShotChecker.ValidateEnvironment | main.py:33-43 | validation passes exactly when both `TODOIST_API_TOKEN` and `DISCORD_WEBHOOK_URL` are present and non-empty |
| OneShotChecker.CheckPlannedDay | main.py:53-78 | returns true exactly when the missing set of `Plan for the Next Day` is empty; a notification is produced exactly when it returns false, and it announces that missing set |
| OneShotChecker.RunOnce | main.py:98-117 | exit status 1 and no check and no notification when validation fails; otherwise status 0, one check whose result and notification are those of the missing set |
| OneShotChecker.UntimedPlanTaskIsMissing | main.py:51-66 | when no `Plan for the Next Day` task has a specific time (e.g. the only one is due tomorrow without a time), the missing set is exactly {`Plan for the Next Day`} |
| ScheduledChecker.TomorrowTasks | app.py:26 | keeps exactly the tasks with a due whose date equals tomorrow's string, in their original order |
| ScheduledChecker.TomorrowTasksKeepsEveryCopy | app.py:26 | the filter keeps every copy of a task due tomorrow and drops every copy of any other task |
| ScheduledChecker.DailyMissing | app.py:22-35 | the missing set lies within {Breakfast, Lunch, Dinner, Shower}; a name is missing exactly when it is required and no task with that name is due tomorrow with a specific time |
| ScheduledChecker.CheckPlannedDay | app.py:17-38 | a notification is produced exactly when the missing set for tomorrow is non-empty, and it announces that set |
| ScheduledChecker.OtherDayTaskIrrelevant | app.py:26-31 | a task due on another date, or without a due, never changes the missing set, even when it has a matching name and a specific time |
| ScheduledChecker.DailyMissingDependsOnlyOnElements | app.py:30-35 | reordering or duplicating tasks leaves the missing set unchanged |
| ScheduledChecker.DecimalRoundTrip | app.py:59 | the decimal digits of an hour read back as that hour |
| ScheduledChecker.ZeroPad2 | app.py:59 | the `02d` form of a number is all digits, at least two long (exactly two below 100), denotes the number, and pads only below 10 |
| ScheduledChecker.TriggerTime | app.py:59 | for an hour below 100 the trigger string is two digits denoting the hour followed by `:00` |
| ScheduledChecker.EveningTriggerTimes | app.py:58-59 | the hours 19 to 22 format as `19:00`, `20:00`, `21:00` and `22:00` |
| ScheduledChecker.ScheduleTriggers | app.py:56-59 | exactly four triggers are registered, the i-th at hour 19 + i: `19:00`, `20:00`, `21:00`, `22:00` |

`send_discord_notification` at app.py:40-44 is the same code as at
main.py:80-85, so `Notification.SendDiscordNotification` models both.

## Left out

- OneShotChecker.CheckPlannedDay and OneShotChecker.RunOnce: at main.py:62 a task with a required name and no due would raise an `AttributeError`. Both members instead require such tasks to carry a due (`DueReadable`; `RunOnce` only when validation passes), which the provider's `tomorrow` filter guarantees; the exception is not modelled.
- ScheduledChecker.TriggerTime: the format is stated only for hours below 100; only hours 19 to 22 are used.
- Todoist API calls (`TodoistAPI`, `get_tasks`, `sync`, `items.all`) are a foreign library. The task list is an input, and a failing provider call (which propagates as an exception) is not modelled.
- The webhook `requests.post`, `raise_for_status` and the caught `RequestException` are network I/O. The model returns the message that would be posted. Whether delivery succeeds never affects any result, so it is not represented. Neither is the JSON wrapping `{"content": message}`.
- The iteration order of a Python set is unspecified. The message builder returns the order it took, and its contract only says that the order lists each missing name once.
- `datetime.now()`, `timedelta` and `strftime` read the wall clock. Tomorrow's date is a parameter.
- The `schedule` library, `run_pending` and the endless `while True` / `sleep(60)` loop in app.py are timer plumbing that never terminates. Only the registered trigger strings are modelled.
- Logging (`setup_logging`, the JSON formatter, every log call), `argparse`, `load_dotenv` and the module-level reads of the environment are left out. `sys.exit` is represented by the returned `Run.status`.
