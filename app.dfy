/** The state the main component keeps (src/App.tsx) and the handlers that
    replace it: the todo list, the set of ids the legacy policy has warned
    about, the todo shown in the in-app alert, and the "new task" form. Each
    handler stores back what the pure operations compute. */
module App {
  import opened Types
  import opened Reminders
  import opened TodoList

  class TodoApp {
    var todos: seq<Todo>
    var alertedIds: set<string>
    var alertTodo: Option<Todo>
    var form: TodoForm

    constructor ()
      ensures todos == [] && alertedIds == {} && alertTodo == None && form == DefaultForm
    {
      todos := [];
      alertedIds := {};
      alertTodo := None;
      form := DefaultForm;
    }

    /** One run of the deadline check at `now`: the reminders it dispatches are
      returned; the list is stored back only when a todo was written, which
      leaves it equal to the checked list either way; the warned ids join the
      alerted set; and the last todo that fired, if any, becomes the alert. */
    method Tick(now: int) returns (fired: seq<Reminder>)
      modifies this
      ensures fired == Fired(old(todos), old(alertedIds), now)
      ensures todos == CheckedList(old(todos), old(alertedIds), now)
      ensures alertedIds == old(alertedIds) + LegacyIds(old(todos), old(alertedIds), now)
      ensures alertTodo == match LastAlert(old(todos), old(alertedIds), now)
                           case Some(t) => Some(t)
                           case None => old(alertTodo)
      ensures form == old(form)
    {
      var updated, newAlertedIds, alert, todosUpdated;
      updated, newAlertedIds, fired, alert, todosUpdated := CheckDeadlines(todos, alertedIds, now);
      if todosUpdated {
        todos := updated;
      }
      alertedIds := newAlertedIds;
      if alert.Some? {
        alertTodo := alert;
      }
    }

    /** Submitting the form with a fresh `id` at time `now`. */
    method Submit(id: string, now: int)
      modifies this
      ensures todos == AddTodo(old(todos), old(form), id, now).0
      ensures form == AddTodo(old(todos), old(form), id, now).1
      ensures alertedIds == old(alertedIds) && alertTodo == old(alertTodo)
    {
      var added := AddTodo(todos, form, id, now);
      todos := added.0;
      form := added.1;
    }

    method Toggle(id: string, at: int)
      modifies this
      ensures todos == ToggleTodo(old(todos), id, at)
      ensures alertedIds == old(alertedIds) && alertTodo == old(alertTodo) && form == old(form)
    {
      todos := ToggleTodo(todos, id, at);
    }

    method Delete(id: string)
      modifies this
      ensures todos == DeleteTodo(old(todos), id)
      ensures alertedIds == old(alertedIds) && alertTodo == old(alertTodo) && form == old(form)
    {
      todos := DeleteTodo(todos, id);
    }

    /** The alert's "mark done" button: toggles the alerted todo at `at` and
      closes the alert; without an alert it does nothing. */
    method MarkAlertDone(at: int)
      modifies this
      ensures old(alertTodo).Some? ==> todos == ToggleTodo(old(todos), old(alertTodo).value.id, at)
      ensures old(alertTodo).None? ==> todos == old(todos)
      ensures alertTodo == None
      ensures alertedIds == old(alertedIds) && form == old(form)
    {
      if alertTodo.Some? {
        todos := ToggleTodo(todos, alertTodo.value.id, at);
        alertTodo := None;
      }
    }

    /** The alert's "snooze" button only closes the alert. */
    method Snooze()
      modifies this
      ensures alertTodo == None
      ensures todos == old(todos) && alertedIds == old(alertedIds) && form == old(form)
    {
      alertTodo := None;
    }
  }

  /** Completing a todo takes it out of every future reminder: at any later
      check, under any alerted set, neither policy fires for it. */
  lemma CompletingStopsReminders(todos: seq<Todo>, id: string, at: int, i: int, alertedIds: set<string>, now: int)
    requires 0 <= i < |todos| && todos[i].id == id && !todos[i].completed
    ensures ToggleTodo(todos, id, at)[i].completed
    ensures ToggleTodo(todos, id, at)[i].completedAt == Some(at)
    ensures Decide(ToggleTodo(todos, id, at)[i], alertedIds, now) == None
  {
  }

  /** A todo added with reminders enabled whose deadline already lies inside
      its reminder window is reminded about by the very next check at the time
      it was added. */
  lemma NewTodoInWindowFiresAtOnce(todos: seq<Todo>, form: TodoForm, id: string, now: int, alertedIds: set<string>)
    requires Trim(form.title) != []
    requires form.notificationEnabled && form.deadline.Some?
    requires 0 < form.deadline.value - now <= form.startBeforeMinutes * MinuteMs
    ensures Decide(AddTodo(todos, form, id, now).0[0], alertedIds, now) == Some(Configured)
  {
    ConfiguredFiresIff(AddTodo(todos, form, id, now).0[0], alertedIds, now);
  }
}
