/** The day view of the calendar (src/components/CalendarView.tsx): the todos
    of a selected day split into four lists, and the test that decides whether
    a day of the month grid gets a dot. `isSameDay` compares local calendar
    days; here `dayOf` maps an instant to its day, and two instants are on the
    same day when `dayOf` agrees on them. The instant `selected` stands for the
    selected date (or the grid cell's date). */
module Calendar {
  import opened Types
  import Seqs

  predicate SameDay(dayOf: int -> int, a: int, b: int)
  {
    dayOf(a) == dayOf(b)
  }

  /** An open todo due on the day. */
  predicate IsScheduled(t: Todo, dayOf: int -> int, selected: int)
  {
    t.deadline.Some? && SameDay(dayOf, t.deadline.value, selected) && !t.completed
  }

  /** A todo completed on the day. */
  predicate IsCompletedOn(t: Todo, dayOf: int -> int, selected: int)
  {
    t.completed && t.completedAt.Some? && SameDay(dayOf, t.completedAt.value, selected)
  }

  /** A completed todo from before completion times were recorded, filed under
      the day it was created. */
  predicate IsLegacyCompletedOn(t: Todo, dayOf: int -> int, selected: int)
  {
    t.completed && t.completedAt.None? && SameDay(dayOf, t.createdAt, selected)
  }

  /** An open todo without a deadline created on the day. */
  predicate IsCreatedOn(t: Todo, dayOf: int -> int, selected: int)
  {
    SameDay(dayOf, t.createdAt, selected) && !t.completed && t.deadline.None?
  }

  datatype DayBuckets = DayBuckets(
    scheduled: seq<Todo>,
    completed: seq<Todo>,
    legacyCompleted: seq<Todo>,
    created: seq<Todo>)

  /** `selectedDateTodos`: each list holds exactly the todos of its kind for the
      day of `selected`, in the order of the todo list, each as often as it
      occurs there. */
  function SelectedDateTodos(todos: seq<Todo>, dayOf: int -> int, selected: int): (b: DayBuckets)
    ensures forall t :: t in b.scheduled <==> t in todos && IsScheduled(t, dayOf, selected)
    ensures forall t :: t in b.completed <==> t in todos && IsCompletedOn(t, dayOf, selected)
    ensures forall t :: t in b.legacyCompleted <==> t in todos && IsLegacyCompletedOn(t, dayOf, selected)
    ensures forall t :: t in b.created <==> t in todos && IsCreatedOn(t, dayOf, selected)
    ensures forall t :: multiset(b.scheduled)[t] == if IsScheduled(t, dayOf, selected) then multiset(todos)[t] else 0
    ensures forall t :: multiset(b.completed)[t] == if IsCompletedOn(t, dayOf, selected) then multiset(todos)[t] else 0
    ensures forall t :: multiset(b.legacyCompleted)[t]
                         == if IsLegacyCompletedOn(t, dayOf, selected) then multiset(todos)[t] else 0
    ensures forall t :: multiset(b.created)[t] == if IsCreatedOn(t, dayOf, selected) then multiset(todos)[t] else 0
    ensures Seqs.IsSubsequence(b.scheduled, todos) && Seqs.IsSubsequence(b.completed, todos)
    ensures Seqs.IsSubsequence(b.legacyCompleted, todos) && Seqs.IsSubsequence(b.created, todos)
  {
    DayBuckets(
      Seqs.Filter(todos, (t: Todo) => IsScheduled(t, dayOf, selected)),
      Seqs.Filter(todos, (t: Todo) => IsCompletedOn(t, dayOf, selected)),
      Seqs.Filter(todos, (t: Todo) => IsLegacyCompletedOn(t, dayOf, selected)),
      Seqs.Filter(todos, (t: Todo) => IsCreatedOn(t, dayOf, selected)))
  }

  /** No todo lands in two lists of the same day. */
  lemma BucketsAreDisjoint(todos: seq<Todo>, dayOf: int -> int, selected: int, t: Todo)
    ensures var b := SelectedDateTodos(todos, dayOf, selected);
      && (t in b.scheduled ==> t !in b.completed && t !in b.legacyCompleted && t !in b.created)
      && (t in b.completed ==> t !in b.legacyCompleted && t !in b.created)
      && (t in b.legacyCompleted ==> t !in b.created)
  {
  }

  /** `hasEvents`: some todo is due on the day while open, or was completed on
      it, or is a legacy completed todo created on it. */
  predicate HasEvents(todos: seq<Todo>, dayOf: int -> int, selected: int)
  {
    exists i :: 0 <= i < |todos| &&
      (IsScheduled(todos[i], dayOf, selected) || IsCompletedOn(todos[i], dayOf, selected)
       || IsLegacyCompletedOn(todos[i], dayOf, selected))
  }

  /** A day gets a dot iff its scheduled, completed or legacy-completed list is
      non-empty; the list of deadline-less todos created that day plays no part. */
  lemma HasEventsIff(todos: seq<Todo>, dayOf: int -> int, selected: int)
    ensures var b := SelectedDateTodos(todos, dayOf, selected);
      HasEvents(todos, dayOf, selected) <==> b.scheduled != [] || b.completed != [] || b.legacyCompleted != []
  {
    var b := SelectedDateTodos(todos, dayOf, selected);
    if b.scheduled != [] {
      assert b.scheduled[0] in b.scheduled;
    } else if b.completed != [] {
      assert b.completed[0] in b.completed;
    } else if b.legacyCompleted != [] {
      assert b.legacyCompleted[0] in b.legacyCompleted;
    }
    if HasEvents(todos, dayOf, selected) {
      var i :| 0 <= i < |todos| &&
        (IsScheduled(todos[i], dayOf, selected) || IsCompletedOn(todos[i], dayOf, selected)
         || IsLegacyCompletedOn(todos[i], dayOf, selected));
      assert todos[i] in todos;
    }
  }

  /** A day whose only todos are deadline-less ones created on it lists them
      but gets no dot. */
  lemma CreatedOnlyDayHasNoDot(todos: seq<Todo>, dayOf: int -> int, selected: int)
    requires var b := SelectedDateTodos(todos, dayOf, selected);
      b.scheduled == [] && b.completed == [] && b.legacyCompleted == []
    ensures !HasEvents(todos, dayOf, selected)
  {
    HasEventsIff(todos, dayOf, selected);
  }

  /** The "no events" message is shown when all four lists are empty. */
  predicate ShowsEmptyState(b: DayBuckets)
  {
    |b.scheduled| == 0 && |b.completed| == 0 && |b.legacyCompleted| == 0 && |b.created| == 0
  }

  /** The empty state appears iff no todo belongs to the day in any of the four
      ways. */
  lemma EmptyStateIff(todos: seq<Todo>, dayOf: int -> int, selected: int)
    ensures ShowsEmptyState(SelectedDateTodos(todos, dayOf, selected)) <==>
      forall i :: 0 <= i < |todos| ==>
        && !IsScheduled(todos[i], dayOf, selected) && !IsCompletedOn(todos[i], dayOf, selected)
        && !IsLegacyCompletedOn(todos[i], dayOf, selected) && !IsCreatedOn(todos[i], dayOf, selected)
  {
    var b := SelectedDateTodos(todos, dayOf, selected);
    if !ShowsEmptyState(b) {
      if b.scheduled != [] {
        assert b.scheduled[0] in b.scheduled;
      } else if b.completed != [] {
        assert b.completed[0] in b.completed;
      } else if b.legacyCompleted != [] {
        assert b.legacyCompleted[0] in b.legacyCompleted;
      } else {
        assert b.created[0] in b.created;
      }
    } else {
      forall i | 0 <= i < |todos|
        ensures !IsScheduled(todos[i], dayOf, selected) && !IsCompletedOn(todos[i], dayOf, selected)
        ensures !IsLegacyCompletedOn(todos[i], dayOf, selected) && !IsCreatedOn(todos[i], dayOf, selected)
      {
        assert todos[i] in todos;
      }
    }
  }
}
