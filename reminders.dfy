/** The deadline reminder check (`checkDeadlines` in src/App.tsx).

    One call looks at every todo at one instant `now` and decides, per todo,
    whether a reminder is due under one of two mutually exclusive policies:
    the configured policy (the todo's own notification settings, enabled) and
    the legacy policy (a one-shot warning less than 15 minutes before the
    deadline, remembered in the set of alerted ids). Delivering the reminder
    is an abstract `Reminder` output; the only field of a todo the check
    writes is `lastNotifiedAt`. */
module Reminders {
  import opened Types

  const MinuteMs := 60 * 1000
  /** Tolerance subtracted from the repeat interval to absorb timer drift. */
  const JitterMs := 1000
  /** The legacy policy warns when the deadline is less than this far away. */
  const LegacyWindowMs := 15 * 60 * 1000

  /** Minutes left until the deadline, rounded up: `Math.ceil(diff / 60000)`
      for a whole number of milliseconds `diff`, computed with floor division
      of the negated value. */
  function DiffMinutes(diff: int): (r: int)
    ensures MinuteMs * (r - 1) < diff <= MinuteMs * r
  {
    -((-diff) / MinuteMs)
  }

  /** Rounding up keeps the sign: the minutes left are positive iff the
      deadline is still ahead, and they are at most `k` iff at most `k` whole
      minutes are left. */
  lemma DiffMinutesBounds(diff: int, k: int)
    ensures DiffMinutes(diff) > 0 <==> diff > 0
    ensures DiffMinutes(diff) <= k <==> diff <= k * MinuteMs
  {
  }

  /** `lastNotifiedAt ? lastNotifiedAt.getTime() : 0`: never notified reads as 0. */
  function LastNotifiedMs(t: Todo): int
  {
    if t.lastNotifiedAt.Some? then t.lastNotifiedAt.value else 0
  }

  datatype Kind = Configured | Legacy

  /** An abstract notification dispatch: which todo, with which title, by which policy. */
  datatype Reminder = Reminder(id: string, title: string, kind: Kind)

  /** The verdict for one todo at `now`; `alertedIds` is the set of ids the
      legacy policy has already warned about. */
  function Decide(t: Todo, alertedIds: set<string>, now: int): (r: Option<Kind>)
    ensures t.completed || t.deadline.None? ==> r == None
    ensures r.Some? ==> t.deadline.Some? && t.deadline.value > now
    ensures r == Some(Configured) ==> PolicyEnabled(t)
    ensures r == Some(Legacy) ==> !PolicyEnabled(t) && t.id !in alertedIds
  {
    if t.completed || t.deadline.None? then None
    else
      var diff := t.deadline.value - now;
      var diffMinutes := DiffMinutes(diff);
      if PolicyEnabled(t)
         && diffMinutes <= t.notification.value.startBeforeMinutes && diffMinutes > 0
         && (LastNotifiedMs(t) == 0
             || now - LastNotifiedMs(t) >= t.notification.value.intervalMinutes * 60 * 1000 - JitterMs)
      then Some(Configured)
      else if !PolicyEnabled(t) && diff > 0 && diff < LegacyWindowMs && t.id !in alertedIds
      then Some(Legacy)
      else None
  }

  /** The configured policy, restated in milliseconds: it fires exactly when the
      deadline is in the future but at most `startBeforeMinutes` away, and the
      todo was never notified or the repeat interval (less the tolerance) has
      elapsed since the last notification. */
  lemma ConfiguredFiresIff(t: Todo, alertedIds: set<string>, now: int)
    ensures Decide(t, alertedIds, now) == Some(Configured) <==>
      && !t.completed && t.deadline.Some? && PolicyEnabled(t)
      && 0 < t.deadline.value - now <= t.notification.value.startBeforeMinutes * MinuteMs
      && (LastNotifiedMs(t) == 0
          || now - LastNotifiedMs(t) >= t.notification.value.intervalMinutes * MinuteMs - JitterMs)
  {
    if !t.completed && t.deadline.Some? && PolicyEnabled(t) {
      DiffMinutesBounds(t.deadline.value - now, t.notification.value.startBeforeMinutes);
    }
  }

  /** The legacy policy fires exactly for an open, deadlined todo without an
      enabled policy, less than 15 minutes before its deadline, whose id has not
      been warned about yet. */
  lemma LegacyFiresIff(t: Todo, alertedIds: set<string>, now: int)
    ensures Decide(t, alertedIds, now) == Some(Legacy) <==>
      && !t.completed && t.deadline.Some? && !PolicyEnabled(t)
      && 0 < t.deadline.value - now < LegacyWindowMs
      && t.id !in alertedIds
  {
  }

  /** The todo as the check returns it: only `lastNotifiedAt` may change, and it
      becomes `now` exactly when the configured policy fires. */
  function CheckTodo(t: Todo, alertedIds: set<string>, now: int): (r: Todo)
    ensures r == t.(lastNotifiedAt := r.lastNotifiedAt)
    ensures Decide(t, alertedIds, now) == Some(Configured) ==> r.lastNotifiedAt == Some(now)
    ensures Decide(t, alertedIds, now) != Some(Configured) ==> r == t
  {
    if Decide(t, alertedIds, now) == Some(Configured) then t.(lastNotifiedAt := Some(now)) else t
  }

  /** The list the check computes: same length, same order, each todo checked. */
  function CheckedList(todos: seq<Todo>, alertedIds: set<string>, now: int): (r: seq<Todo>)
    ensures |r| == |todos|
    ensures forall i :: 0 <= i < |r| ==> r[i] == todos[i].(lastNotifiedAt := r[i].lastNotifiedAt)
  {
    seq(|todos|, i requires 0 <= i < |todos| => CheckTodo(todos[i], alertedIds, now))
  }

  /** The reminder a single todo triggers, if any. */
  function FiredFor(t: Todo, alertedIds: set<string>, now: int): seq<Reminder>
  {
    match Decide(t, alertedIds, now)
    case None => []
    case Some(k) => [Reminder(t.id, t.title, k)]
  }

  /** The reminders one check dispatches, in list order. */
  function Fired(todos: seq<Todo>, alertedIds: set<string>, now: int): (rs: seq<Reminder>)
    ensures |rs| <= |todos|
  {
    if todos == [] then []
    else
      var n := |todos| - 1;
      Fired(todos[..n], alertedIds, now) + FiredFor(todos[n], alertedIds, now)
  }

  /** One reminder per todo whose verdict fires, carrying its id, title and
      policy, and nothing else. */
  lemma {:induction false} FiredMembers(todos: seq<Todo>, alertedIds: set<string>, now: int)
    ensures forall r :: r in Fired(todos, alertedIds, now) ==>
      exists i :: 0 <= i < |todos| && todos[i].id == r.id && todos[i].title == r.title
        && Decide(todos[i], alertedIds, now) == Some(r.kind)
    ensures forall i :: 0 <= i < |todos| && Decide(todos[i], alertedIds, now).Some? ==>
      Reminder(todos[i].id, todos[i].title, Decide(todos[i], alertedIds, now).value) in Fired(todos, alertedIds, now)
  {
    if todos != [] {
      var n := |todos| - 1;
      assert forall i :: 0 <= i < n ==> todos[..n][i] == todos[i];
      FiredMembers(todos[..n], alertedIds, now);
    }
  }

  /** The ids the legacy policy warns about in one check. */
  function LegacyIds(todos: seq<Todo>, alertedIds: set<string>, now: int): (ids: set<string>)
    ensures forall id :: id in ids ==> id !in alertedIds
  {
    if todos == [] then {}
    else
      var n := |todos| - 1;
      LegacyIds(todos[..n], alertedIds, now)
        + (if Decide(todos[n], alertedIds, now) == Some(Legacy) then {todos[n].id} else {})
  }

  /** An id is added to the alerted set iff some todo with that id fires the
      legacy policy. */
  lemma {:induction false} LegacyIdsMembers(todos: seq<Todo>, alertedIds: set<string>, now: int)
    ensures forall id :: id in LegacyIds(todos, alertedIds, now) <==>
      exists i :: 0 <= i < |todos| && todos[i].id == id && Decide(todos[i], alertedIds, now) == Some(Legacy)
  {
    if todos != [] {
      var n := |todos| - 1;
      assert forall i :: 0 <= i < n ==> todos[..n][i] == todos[i];
      LegacyIdsMembers(todos[..n], alertedIds, now);
    }
  }

  /** The todo shown in the in-app alert after one check: the last one in list
      order that fired (as it was before the check), or none when nothing fired. */
  function LastAlert(todos: seq<Todo>, alertedIds: set<string>, now: int): (r: Option<Todo>)
  {
    if todos == [] then None
    else
      var n := |todos| - 1;
      if Decide(todos[n], alertedIds, now).Some? then Some(todos[n])
      else LastAlert(todos[..n], alertedIds, now)
  }

  /** Last fired wins: the alert is the todo at the last position that fires,
      and there is none exactly when no todo fires. */
  lemma {:induction false} LastAlertIsLastFired(todos: seq<Todo>, alertedIds: set<string>, now: int)
    ensures LastAlert(todos, alertedIds, now).None? <==>
      forall i :: 0 <= i < |todos| ==> Decide(todos[i], alertedIds, now) == None
    ensures LastAlert(todos, alertedIds, now).Some? ==>
      exists i :: 0 <= i < |todos| && todos[i] == LastAlert(todos, alertedIds, now).value
        && Decide(todos[i], alertedIds, now).Some?
        && (forall j :: i < j < |todos| ==> Decide(todos[j], alertedIds, now) == None)
  {
    if todos != [] {
      var n := |todos| - 1;
      assert forall i :: 0 <= i < n ==> todos[..n][i] == todos[i];
      LastAlertIsLastFired(todos[..n], alertedIds, now);
    }
  }

  /** Whether the configured policy fires for some todo of the list. */
  predicate AnyConfigured(todos: seq<Todo>, alertedIds: set<string>, now: int)
  {
    todos != [] &&
    (Decide(todos[|todos| - 1], alertedIds, now) == Some(Configured)
     || AnyConfigured(todos[..|todos| - 1], alertedIds, now))
  }

  lemma {:induction false} AnyConfiguredIff(todos: seq<Todo>, alertedIds: set<string>, now: int)
    ensures AnyConfigured(todos, alertedIds, now) <==>
      exists i :: 0 <= i < |todos| && Decide(todos[i], alertedIds, now) == Some(Configured)
  {
    if todos != [] {
      var n := |todos| - 1;
      assert forall i :: 0 <= i < n ==> todos[..n][i] == todos[i];
      AnyConfiguredIff(todos[..n], alertedIds, now);
    }
  }

  /** How the per-prefix results grow by one todo. */
  lemma PrefixStep(todos: seq<Todo>, alertedIds: set<string>, now: int, i: int)
    requires 0 <= i < |todos|
    ensures Fired(todos[..i + 1], alertedIds, now) == Fired(todos[..i], alertedIds, now) + FiredFor(todos[i], alertedIds, now)
    ensures LegacyIds(todos[..i + 1], alertedIds, now) == LegacyIds(todos[..i], alertedIds, now)
      + (if Decide(todos[i], alertedIds, now) == Some(Legacy) then {todos[i].id} else {})
    ensures LastAlert(todos[..i + 1], alertedIds, now) ==
      if Decide(todos[i], alertedIds, now).Some? then Some(todos[i]) else LastAlert(todos[..i], alertedIds, now)
    ensures CheckedList(todos[..i + 1], alertedIds, now) == CheckedList(todos[..i], alertedIds, now) + [CheckTodo(todos[i], alertedIds, now)]
    ensures AnyConfigured(todos[..i + 1], alertedIds, now) <==>
      Decide(todos[i], alertedIds, now) == Some(Configured) || AnyConfigured(todos[..i], alertedIds, now)
  {
    assert todos[..i + 1][..i] == todos[..i];
  }

  /** The loop of the check keeps its invariants: adding the results of the
      callback for todo `i` to the results for the todos before it gives the
      results for the todos up to and including it. */
  lemma CheckStep(todos: seq<Todo>, alertedIds: set<string>, now: int, i: int,
                  next: Todo, reminder: seq<Reminder>, warned: set<string>, written: bool)
    requires 0 <= i < |todos|
    requires next == CheckTodo(todos[i], alertedIds, now)
    requires reminder == FiredFor(todos[i], alertedIds, now)
    requires warned == if Decide(todos[i], alertedIds, now) == Some(Legacy) then {todos[i].id} else {}
    requires written <==> Decide(todos[i], alertedIds, now) == Some(Configured)
    ensures CheckedList(todos[..i], alertedIds, now) + [next] == CheckedList(todos[..i + 1], alertedIds, now)
    ensures Fired(todos[..i], alertedIds, now) + reminder == Fired(todos[..i + 1], alertedIds, now)
    ensures alertedIds + LegacyIds(todos[..i], alertedIds, now) + warned
      == alertedIds + LegacyIds(todos[..i + 1], alertedIds, now)
    ensures (if reminder != [] then Some(todos[i]) else LastAlert(todos[..i], alertedIds, now))
      == LastAlert(todos[..i + 1], alertedIds, now)
    ensures (AnyConfigured(todos[..i], alertedIds, now) || written) == AnyConfigured(todos[..i + 1], alertedIds, now)
  {
    PrefixStep(todos, alertedIds, now, i);
  }

  /** The callback the check maps over the list, for one todo: the todo as it
      is stored back, the reminder it dispatches (none or one), the id it adds
      to the alerted set (none or its own), and whether it was written. */
  method CheckOne(todo: Todo, alertedIds: set<string>, now: int)
    returns (next: Todo, reminder: seq<Reminder>, warned: set<string>, written: bool)
    ensures next == CheckTodo(todo, alertedIds, now)
    ensures reminder == FiredFor(todo, alertedIds, now)
    ensures warned == if Decide(todo, alertedIds, now) == Some(Legacy) then {todo.id} else {}
    ensures written <==> Decide(todo, alertedIds, now) == Some(Configured)
  {
    next, reminder, warned, written := todo, [], {}, false;
    var verdict := Decide(todo, alertedIds, now);
    if verdict.Some? {
      reminder := [Reminder(todo.id, todo.title, verdict.value)];
      if verdict.value == Configured {
        written := true;
        next := todo.(lastNotifiedAt := Some(now));
      } else {
        warned := {todo.id};
      }
    }
  }

  /** One call of the check. `alertedIds` is the set as it stood when the check
      started: every legacy decision of the pass reads that snapshot, and the
      ids warned about are added to the set that is handed back. `todosUpdated`
      says whether any todo was written, which is when the list is stored back. */
  method CheckDeadlines(todos: seq<Todo>, alertedIds: set<string>, now: int)
    returns (updated: seq<Todo>, newAlertedIds: set<string>, fired: seq<Reminder>,
             alert: Option<Todo>, todosUpdated: bool)
    ensures updated == CheckedList(todos, alertedIds, now)
    ensures newAlertedIds == alertedIds + LegacyIds(todos, alertedIds, now)
    ensures fired == Fired(todos, alertedIds, now)
    ensures alert == LastAlert(todos, alertedIds, now)
    ensures todosUpdated <==>
      exists i :: 0 <= i < |todos| && Decide(todos[i], alertedIds, now) == Some(Configured)
    ensures !todosUpdated ==> updated == todos
  {
    updated, newAlertedIds, fired, alert, todosUpdated := [], alertedIds, [], None, false;
    var i := 0;
    while i < |todos|
      invariant 0 <= i <= |todos|
      invariant updated == CheckedList(todos[..i], alertedIds, now)
      invariant newAlertedIds == alertedIds + LegacyIds(todos[..i], alertedIds, now)
      invariant fired == Fired(todos[..i], alertedIds, now)
      invariant alert == LastAlert(todos[..i], alertedIds, now)
      invariant todosUpdated == AnyConfigured(todos[..i], alertedIds, now)
    {
      var next, reminder, warned, written := CheckOne(todos[i], alertedIds, now);
      CheckStep(todos, alertedIds, now, i, next, reminder, warned, written);
      updated := updated + [next];
      fired := fired + reminder;
      newAlertedIds := newAlertedIds + warned;
      if reminder != [] {
        alert := Some(todos[i]);
      }
      todosUpdated := todosUpdated || written;
      i := i + 1;
    }
    assert todos[..i] == todos;
    AnyConfiguredIff(todos, alertedIds, now);
    if !todosUpdated {
      QuietCheckKeepsList(todos, alertedIds, now);
    }
  }

  /** A check that fires nothing by the configured policy returns the list unchanged. */
  lemma {:induction false} QuietCheckKeepsList(todos: seq<Todo>, alertedIds: set<string>, now: int)
    requires forall i :: 0 <= i < |todos| ==> Decide(todos[i], alertedIds, now) != Some(Configured)
    ensures CheckedList(todos, alertedIds, now) == todos
  {
    var r := CheckedList(todos, alertedIds, now);
    forall i | 0 <= i < |todos|
      ensures r[i] == todos[i]
    {
      assert r[i] == CheckTodo(todos[i], alertedIds, now);
    }
  }

  /** Every enabled policy repeats at least once a minute. */
  predicate PositiveIntervals(todos: seq<Todo>)
  {
    forall i :: 0 <= i < |todos| && PolicyEnabled(todos[i]) ==> todos[i].notification.value.intervalMinutes >= 1
  }

  /** A todo just checked at `now` is not due again at the same instant, once its
      own legacy warning (if any) is remembered. */
  lemma RecheckTodoIsQuiet(t: Todo, alertedIds: set<string>, alertedIds': set<string>, now: int)
    requires now != 0
    requires PolicyEnabled(t) ==> t.notification.value.intervalMinutes >= 1
    requires alertedIds <= alertedIds'
    requires Decide(t, alertedIds, now) == Some(Legacy) ==> t.id in alertedIds'
    ensures Decide(CheckTodo(t, alertedIds, now), alertedIds', now) == None
  {
    var u := CheckTodo(t, alertedIds, now);
    ConfiguredFiresIff(t, alertedIds, now);
    ConfiguredFiresIff(u, alertedIds', now);
    LegacyFiresIff(t, alertedIds, now);
    LegacyFiresIff(u, alertedIds', now);
  }

  /** Running the check a second time at the same instant, on the list and the
      set the first run produced, dispatches nothing (for a non-zero `now` and
      repeat intervals of at least a minute). */
  lemma SecondCheckIsQuiet(todos: seq<Todo>, alertedIds: set<string>, now: int)
    requires now != 0
    requires PositiveIntervals(todos)
    ensures Fired(CheckedList(todos, alertedIds, now), alertedIds + LegacyIds(todos, alertedIds, now), now) == []
  {
    var updated := CheckedList(todos, alertedIds, now);
    var alerted' := alertedIds + LegacyIds(todos, alertedIds, now);
    LegacyIdsMembers(todos, alertedIds, now);
    forall i | 0 <= i < |updated|
      ensures Decide(updated[i], alerted', now) == None
    {
      assert updated[i] == CheckTodo(todos[i], alertedIds, now);
      RecheckTodoIsQuiet(todos[i], alertedIds, alerted', now);
    }
    NothingDueNothingFired(updated, alerted', now);
  }

  /** Two reminders of the configured policy for one todo are at least the
      repeat interval, less the tolerance, apart: after firing at `t1` (which
      records `lastNotifiedAt := t1`) the policy fires again at `t2` only if
      enough time has passed. */
  lemma ConfiguredRepeatSpacing(t: Todo, alertedIds: set<string>, alertedIds': set<string>, t1: int, t2: int)
    requires t1 != 0
    requires Decide(t, alertedIds, t1) == Some(Configured)
    requires Decide(CheckTodo(t, alertedIds, t1), alertedIds', t2) == Some(Configured)
    ensures t2 - t1 >= t.notification.value.intervalMinutes * MinuteMs - JitterMs
  {
    ConfiguredFiresIff(CheckTodo(t, alertedIds, t1), alertedIds', t2);
  }

  /** The number of legacy warnings about `id` among `rs`. */
  function LegacyCount(rs: seq<Reminder>, id: string): nat
  {
    if rs == [] then 0
    else (if rs[0].id == id && rs[0].kind == Legacy then 1 else 0) + LegacyCount(rs[1..], id)
  }

  lemma {:induction false} LegacyCountAppend(a: seq<Reminder>, b: seq<Reminder>, id: string)
    ensures LegacyCount(a + b, id) == LegacyCount(a, id) + LegacyCount(b, id)
  {
    if a != [] {
      assert (a + b)[1..] == a[1..] + b;
      LegacyCountAppend(a[1..], b, id);
    } else {
      assert a + b == b;
    }
  }

  /** A list none of whose todos is due produces no reminder. */
  lemma NothingDueNothingFired(todos: seq<Todo>, alertedIds: set<string>, now: int)
    requires forall i :: 0 <= i < |todos| ==> Decide(todos[i], alertedIds, now) == None
    ensures Fired(todos, alertedIds, now) == []
  {
    var rs := Fired(todos, alertedIds, now);
    FiredMembers(todos, alertedIds, now);
  }

  /** A check over todos none of which carries `id` never warns about `id`. */
  lemma {:induction false} NoLegacyWarningWithoutId(todos: seq<Todo>, alertedIds: set<string>, now: int, id: string)
    requires !HasId(todos, id)
    ensures LegacyCount(Fired(todos, alertedIds, now), id) == 0
  {
    if todos != [] {
      var n := |todos| - 1;
      assert forall i :: 0 <= i < n ==> todos[..n][i] == todos[i];
      NoLegacyWarningWithoutId(todos[..n], alertedIds, now, id);
      LegacyCountAppend(Fired(todos[..n], alertedIds, now), FiredFor(todos[n], alertedIds, now), id);
    }
  }

  /** With unique ids, one check warns about an id at most once, and does so
      exactly when the id is among the ids it adds to the alerted set. */
  lemma {:induction false} LegacyCountOfCheck(todos: seq<Todo>, alertedIds: set<string>, now: int, id: string)
    requires UniqueIds(todos)
    ensures LegacyCount(Fired(todos, alertedIds, now), id) <= 1
    ensures LegacyCount(Fired(todos, alertedIds, now), id) == 1 <==> id in LegacyIds(todos, alertedIds, now)
  {
    if todos != [] {
      var n := |todos| - 1;
      var prefix := todos[..n];
      assert forall i :: 0 <= i < n ==> prefix[i] == todos[i];
      LegacyCountAppend(Fired(prefix, alertedIds, now), FiredFor(todos[n], alertedIds, now), id);
      if todos[n].id == id {
        // No other todo carries this id, so the prefix never warns about it.
        assert !HasId(prefix, id);
        NoLegacyWarningWithoutId(prefix, alertedIds, now, id);
        LegacyIdsMembers(prefix, alertedIds, now);
      } else {
        assert UniqueIds(prefix);
        LegacyCountOfCheck(prefix, alertedIds, now, id);
      }
    }
  }

  /** The reminders of successive checks at the instants `nows`, each check
      working on the list and alerted set its predecessor left. */
  function Run(todos: seq<Todo>, alertedIds: set<string>, nows: seq<int>): seq<Reminder>
    decreases |nows|
  {
    if nows == [] then []
    else
      Fired(todos, alertedIds, nows[0])
        + Run(CheckedList(todos, alertedIds, nows[0]),
              alertedIds + LegacyIds(todos, alertedIds, nows[0]), nows[1..])
  }

  /** The legacy policy warns about each todo at most once over any run of
      checks, and never about an id already in the alerted set. */
  lemma {:induction false} LegacyWarnsOncePerId(todos: seq<Todo>, alertedIds: set<string>, nows: seq<int>, id: string)
    requires UniqueIds(todos)
    ensures LegacyCount(Run(todos, alertedIds, nows), id) <= (if id in alertedIds then 0 else 1)
    decreases |nows|
  {
    if nows != [] {
      var now := nows[0];
      var todos' := CheckedList(todos, alertedIds, now);
      var alerted' := alertedIds + LegacyIds(todos, alertedIds, now);
      assert forall i :: 0 <= i < |todos| ==> todos'[i].id == todos[i].id;
      assert UniqueIds(todos');
      LegacyCountAppend(Fired(todos, alertedIds, now), Run(todos', alerted', nows[1..]), id);
      LegacyCountOfCheck(todos, alertedIds, now, id);
      LegacyWarnsOncePerId(todos', alerted', nows[1..], id);
    }
  }

  /** The reminder scenario of a todo due in five minutes with the default
      settings (start 30 minutes before, repeat every 10): the first check
      fires and records the time, a check three minutes later does not fire,
      and a check ten minutes after the first does not fire either, because
      the deadline has passed. */
  lemma DefaultSettingsScenario(t: Todo, alertedIds: set<string>, now: int)
    requires now != 0
    requires !t.completed && t.lastNotifiedAt.None?
    requires t.notification == Some(NotificationSettings(true, 30, 10))
    requires t.deadline == Some(now + 5 * MinuteMs)
    ensures Decide(t, alertedIds, now) == Some(Configured)
    ensures CheckTodo(t, alertedIds, now).lastNotifiedAt == Some(now)
    ensures Decide(CheckTodo(t, alertedIds, now), alertedIds, now + 3 * MinuteMs) == None
    ensures Decide(CheckTodo(t, alertedIds, now), alertedIds, now + 10 * MinuteMs) == None
  {
    ConfiguredFiresIff(t, alertedIds, now);
    ConfiguredFiresIff(CheckTodo(t, alertedIds, now), alertedIds, now + 3 * MinuteMs);
  }
}
