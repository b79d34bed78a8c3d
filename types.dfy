/** The record shapes of the to-do list (src/types.ts). Every point in time is
    a whole number of milliseconds since the epoch, as `Date.getTime()` gives it. */
module Types {

  datatype Option<+T> = None | Some(value: T)

  /** The closed set of descriptive tags; they never affect scheduling. */
  datatype Category = Work | Study | Personal | Urgent

  /** A per-task reminder policy: start reminding `startBeforeMinutes` before the
      deadline, and repeat every `intervalMinutes`. */
  datatype NotificationSettings = NotificationSettings(
    enabled: bool,
    startBeforeMinutes: int,
    intervalMinutes: int)

  datatype Todo = Todo(
    id: string,
    title: string,
    deadline: Option<int>,
    completed: bool,
    createdAt: int,
    category: Option<Category>,
    notification: Option<NotificationSettings>,
    lastNotifiedAt: Option<int>,
    completedAt: Option<int>)

  /** `todo.notification?.enabled`: an absent policy reads as disabled. */
  predicate PolicyEnabled(t: Todo)
  {
    t.notification.Some? && t.notification.value.enabled
  }

  /** No two todos of the list share an id (ids come from a UUID generator). */
  predicate UniqueIds(todos: seq<Todo>)
  {
    forall i, j :: 0 <= i < |todos| && 0 <= j < |todos| && todos[i].id == todos[j].id ==> i == j
  }

  predicate HasId(todos: seq<Todo>, id: string)
  {
    exists i :: 0 <= i < |todos| && todos[i].id == id
  }
}
