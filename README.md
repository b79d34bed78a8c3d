# monodo core in Dafny

monodo is a single-page to-do application. This project models its core
logic:

- the periodic deadline check `checkDeadlines` in `src/App.tsx`. Each open
  todo with a deadline is reminded about by one of two policies. The
  configured policy fires inside a window of `startBeforeMinutes` before the
  deadline and repeats every `intervalMinutes`. The legacy policy sends a
  one-time warning in the last 15 minutes.
- the list handlers `handleAddTodo`, `toggleTodo` and `deleteTodo`.
- the display order `sortedTodos` and the "top" todo `topTodo`.
- the calendar's per-day lists `selectedDateTodos` and the day-dot test
  `hasEvents` in `src/components/CalendarView.tsx`.

Times are integers counting milliseconds since the epoch. Ids are given
strings. Reminders are values returned by the check; showing them is not
modelled.

Files:

- `types.dfy` (module `Types`): the `Todo` record and its parts.
- `seqs.dfy` (module `Seqs`): order-preserving filtering.
- `reminders.dfy` (module `Reminders`): the two reminder policies. It holds
  one check as a loop over the list (`CheckDeadlines`), the per-todo callback
  (`CheckOne`) and their specification functions.
- `todo_list.dfy` (module `TodoList`): adding, toggling, deleting, sorting
  and the top todo.
- `calendar.dfy` (module `Calendar`): the day view.
- `app.dfy` (module `App`): the component state as a class `TodoApp`. Each
  handler stores back what the pure operations compute.

Three details of the code are easy to misread; the model follows the code in
each:

- A `lastNotifiedAt` at the epoch instant itself counts as "never notified",
  because the code reads a missing time as 0.
- The legacy check consults the alerted set as it was when the check began.
  The ids warned about during one check are added to the set afterwards.
- When several todos fire in one check, the in-app alert shows the last one
  in list order.

## Model

| member | source | states |
|---|---|---|
| Reminders.DiffMinutes | src/App.tsx:139-140 | the result is the ceiling of the difference in minutes: `MinuteMs*(r-1) < diff <= MinuteMs*r` |
| Reminders.DiffMinutesBounds | src/App.tsx:140-148 | the minute count is positive iff the difference is, and is at most k iff the difference is at most k minutes |
| Reminders.Decide | src/App.tsx:137-200 | completed or deadline-less todos never fire; a firing todo has a deadline still ahead; the configured policy fires only when enabled; the legacy policy fires only when not enabled and the id is not alerted |
| Reminders.ConfiguredFiresIff | src/App.tsx:143-155 | the configured policy fires iff enabled, open, 0 < deadline - now <= start window, and never notified (time 0) or at least interval minus 1000 ms since the last reminder |
| Reminders.LegacyFiresIff | src/App.tsx:196-200 | the legacy warning fires iff not enabled, open, 0 < deadline - now < 15 minutes and the id is not alerted yet |
| Reminders.CheckTodo | src/App.tsx:136-231 | checking a todo changes at most its `lastNotifiedAt`; a configured reminder sets it to `now`; otherwise the todo is returned unchanged |
| Reminders.CheckedList | src/App.tsx:136-232 | the checked list has the same length and, position by position, differs only in `lastNotifiedAt` |
| Reminders.FiredMembers | src/App.tsx:156-228 | a reminder is dispatched for a todo of the list iff its policy decides to fire, with that policy's kind, id and title |
| Reminders.LegacyIdsMembers | src/App.tsx:198-200 | the ids added to the alerted set are exactly those of todos the legacy policy fires for |
| Reminders.LegacyIds | src/App.tsx:198-200 | no id added to the alerted set was in it already |
| Reminders.LastAlertIsLastFired | src/App.tsx:156-199 | the todo put into the alert is the last todo in list order that fired, and there is none iff nothing fired |
| Reminders.CheckOne | src/App.tsx:136-231 | the per-todo callback returns the checked todo, the reminder it dispatches, the id it adds to the alerted set (only under the legacy policy) and whether it wrote the todo (only under the configured policy) |
| Reminders.CheckStep | src/App.tsx:136-232 | adding one callback's results to those for the todos before it gives the results for the longer prefix |
| Reminders.CheckDeadlines | src/App.tsx:131-237 | the loop returns the checked list, the grown alerted set, the dispatched reminders and the alert todo; the "updated" flag holds iff some todo fired by the configured policy; when it is false the list is unchanged |
| Reminders.QuietCheckKeepsList | src/App.tsx:234-236 | a check in which no configured reminder fires leaves the list unchanged |
| Reminders.RecheckTodoIsQuiet | src/App.tsx:149-155 | a todo just checked at `now` is not due again at `now` once its legacy id is remembered |
| Reminders.SecondCheckIsQuiet | src/App.tsx:131-244 | the eager re-check at the same instant, run on the state the first check left, dispatches nothing |
| Reminders.ConfiguredRepeatSpacing | src/App.tsx:149-155 | two configured reminders for one todo are at least interval minus 1000 ms apart |
| Reminders.NothingDueNothingFired | src/App.tsx:136-231 | when no todo is due, the check dispatches nothing |
| Reminders.NoLegacyWarningWithoutId | src/App.tsx:198-200 | a check never warns about an id that no todo carries |
| Reminders.LegacyCountOfCheck | src/App.tsx:198-200 | with unique ids, one check warns about an id at most once, and exactly when it adds the id to the alerted set |
| Reminders.LegacyWarnsOncePerId | src/App.tsx:198-200 | over any sequence of checks the legacy policy warns about each id at most once, and never about an id already alerted |
| Reminders.DefaultSettingsScenario | src/App.tsx:139-155 | with the default 30/10 settings and a deadline five minutes away, the first check fires and records `now`; checks 3 and 10 minutes later stay silent |
| TodoList.KeptFrom | src/App.tsx:248 | the first position at or after k holding a character `trim` keeps, with only trimmable characters skipped |
| TodoList.KeptUntil | src/App.tsx:248 | the end of the kept part before k, with only trimmable characters dropped after it |
| TodoList.TrimStart | src/App.tsx:248 | the result is a suffix of the input that does not start with JavaScript whitespace |
| TodoList.TrimEnd | src/App.tsx:248 | the result is a prefix of the input that does not end with JavaScript whitespace |
| TodoList.TrimmedEmptyIff | src/App.tsx:248 | a title trims to empty iff every character is JavaScript whitespace |
| TodoList.AddTodo | src/App.tsx:246-274 | a blank title changes nothing; otherwise a new open todo built from the form, with the fresh id and the creation time, goes in front, and the form is reset to its defaults |
| TodoList.ToggleTodo | src/App.tsx:276-290 | todos with the id flip `completed`, with `completedAt` set to the toggle time when completing and cleared when reopening; all others are unchanged |
| TodoList.ToggleKeepsConsistency | src/App.tsx:276-290 | toggling preserves "completed iff completedAt is set" |
| TodoList.ToggleTwiceRestoresOpen | src/App.tsx:276-290 | completing then reopening an open todo restores the list exactly |
| TodoList.DeleteTodo | src/App.tsx:292-294 | exactly the todos with the id are removed; every other record keeps its number of occurrences and its order |
| TodoList.DeleteAbsentIsIdentity | src/App.tsx:292-294 | deleting an absent id changes nothing |
| TodoList.DeleteIsIdempotent | src/App.tsx:292-294 | deleting twice is deleting once |
| TodoList.DeleteUndoesAdd | src/App.tsx:246-294 | deleting the todo just added under a fresh id restores the list |
| TodoList.Compare | src/App.tsx:296-303 | the corrected comparator: negative iff `Precedes(a, b)`, positive iff `Precedes(b, a)`, and equal to the source's answer whenever non-zero |
| TodoList.CompareIsConsistent | src/App.tsx:296-303 | the corrected comparator is zero on equal arguments, sign-antisymmetric and transitive |
| TodoList.PrecedesIsStrictWeakOrder | src/App.tsx:296-303 | the display relation is irreflexive, asymmetric and has transitive incomparability |
| TodoList.SortedIsDisplayOrdered | src/App.tsx:296-303 | being sorted by the relation means open before completed, and within a group deadlined first in ascending deadline order |
| TodoList.Insert | src/App.tsx:296-303 | inserting into a sorted list keeps it sorted and adds exactly the element |
| TodoList.SortTodos | src/App.tsx:296-303 | the display order is a permutation of the list and sorted |
| TodoList.FirstOpen | src/App.tsx:305 | none iff every todo is completed; otherwise the open todo at the first position holding one, as `find` returns it |
| TodoList.FirstOpenOfSorted | src/App.tsx:296-305 | in a sorted list no open todo precedes the first open one |
| TodoList.TopTodoIsMostUrgent | src/App.tsx:296-305 | the top todo is absent iff all are completed; otherwise it is open and has the earliest deadline among open todos that have one |
| Seqs.Filter | src/components/CalendarView.tsx:57-61 | filtering keeps exactly the elements that pass, each as often as it occurs, in order |
| Calendar.SelectedDateTodos | src/components/CalendarView.tsx:55-63 | each of the four lists holds exactly the todos of its kind for the selected day, each as often as it occurs in the list, in list order |
| Calendar.BucketsAreDisjoint | src/components/CalendarView.tsx:57-61 | no todo appears in two lists of the same day |
| Calendar.HasEventsIff | src/components/CalendarView.tsx:57-73 | a day has a dot iff its scheduled, completed or legacy-completed list is non-empty |
| Calendar.CreatedOnlyDayHasNoDot | src/components/CalendarView.tsx:57-73 | a day with only deadline-less created todos gets no dot |
| Calendar.EmptyStateIff | src/components/CalendarView.tsx:211-214 | the "no events" message appears iff no todo belongs to the day in any of the four ways |
| App.TodoApp.constructor | src/App.tsx:25-41 | the app starts with no todos, no alerted ids, no alert and the default form |
| App.TodoApp.Tick | src/App.tsx:131-244 | one check: the list is replaced by the checked list, the warned ids join the alerted set, the last fired todo becomes the alert, and the form is untouched |
| App.TodoApp.Submit | src/App.tsx:246-274 | submitting stores what `AddTodo` returns and touches nothing else |
| App.TodoApp.Toggle | src/App.tsx:276-290 | toggling stores `ToggleTodo` of the list and touches nothing else |
| App.TodoApp.Delete | src/App.tsx:292-294 | deleting stores `DeleteTodo` of the list and touches nothing else |
| App.TodoApp.MarkAlertDone | src/App.tsx:807-812 | with an alert open, toggles its todo and closes the alert; otherwise nothing changes |
| App.TodoApp.Snooze | src/App.tsx:820 | only closes the alert |
| App.CompletingStopsReminders | src/App.tsx:137-290 | once toggled to completed, a todo is never reminded about again, under any alerted set and at any time |
| App.NewTodoInWindowFiresAtOnce | src/App.tsx:239-264 | a todo added with its deadline already inside its enabled window fires at the next check |

## Findings

| source | as written | input that shows it | evidently intended | confidence | as-written member | corrected member |
|---|---|---|---|---|---|---|
| src/App.tsx:297-301 | the comparator returns 1 whenever `a` has no deadline, even when `b` has none either | two open todos without deadlines: compare(a, b) = 1 and compare(b, a) = 1 | return 0 for two todos of one group without deadlines, so the comparator is consistent and the sort order is defined | high (not executed) | TodoList.SourceCompareIsInconsistent | TodoList.CompareIsConsistent |

ECMAScript leaves the result of `sort` implementation-defined when the
comparator is inconsistent. The model sorts by the corrected relation
(`Precedes`, the negative answers of `TodoList.Compare`). It keeps the
deadline-less todos of one group in their original order. The proved
properties of `topTodo` do not depend on that order.

## Left out

- Rendering, themes, translations and the `{title}` substitution in
  reminder texts: these are presentation only.
- Notification delivery: the system notification, the service-worker route
  and its fallback, and the permission test. The check returns the reminders
  it would dispatch. Bookkeeping happens whether or not permission is granted,
  as in the code.
- The service worker's notification-click handler (`public/sw.js`) and the
  page's message listener are not modelled. Only the "complete" action posts a
  `COMPLETE_TODO` message, which the page forwards to `toggleTodo` (modelled).
  Every other click, "snooze" included, only focuses or opens the app window.
- The timer and effect scheduling: one minute by `setInterval`, plus the
  eager run when `todos` or `alertedIds` change. Each run is one call of
  `CheckDeadlines` or `TodoApp.Tick` at a given `now`. Runs are sequential;
  React's batching of state updates is not modelled.
- Persistence in `localStorage` and its JSON revival of dates. The alerted
  set is in memory only, so it restarts empty on reload, as in the code.
- The progress bar (floating point), the month grid of `date-fns`, and the
  current-time ticker are not modelled.
- Id generation (`uuidv4`) and the clock are parameters (`id`, `now`, `at`).
- The parsing of the `datetime-local` deadline field is not modelled.
  `TodoForm.deadline` is already an optional instant.
- Reminders.DiffMinutes: JavaScript numbers are doubles. `Math.ceil` of the
  float quotient is modelled as exact integer ceiling. This differs only for
  deadlines beyond 2^53 ms.
- Calendar.SelectedDateTodos: `isSameDay` depends on the local time zone. It
  is abstracted as a parameter `dayOf` that maps an instant to its day.
- TodoList.SortTodos: the tie order of deadline-less todos in one group is
  unspecified by the source (see Findings). The model picks insertion order.
- The `hasDot && !isSelected` styling of grid cells is not modelled.
