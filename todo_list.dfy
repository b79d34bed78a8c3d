/** The list operations of the main view (src/App.tsx): adding a todo from the
    form, completing and reopening, deleting, and the display order with the
    "top" todo it puts first. Each is a pure transformation of the list that
    the component stores back. */
module TodoList {
  import opened Types
  import Seqs

  // ---------------------------------------------------------------- adding

  /** The characters `String.prototype.trim` removes: the ECMAScript WhiteSpace
      and LineTerminator code points. */
  predicate IsTrimmable(c: char)
  {
    || c == '\t' || c == '\n' || c == '\U{B}' || c == '\U{C}' || c == '\r' || c == ' '
    || c == '\U{A0}' || c == '\U{1680}' || ('\U{2000}' <= c <= '\U{200A}')
    || c == '\U{2028}' || c == '\U{2029}' || c == '\U{202F}' || c == '\U{205F}'
    || c == '\U{3000}' || c == '\U{FEFF}'
  }

  /** The first position at or after `k` that holds a character `trim` keeps,
      or `|s|` when there is none. */
  function KeptFrom(s: string, k: nat): (j: nat)
    requires k <= |s|
    ensures k <= j <= |s|
    ensures forall i :: k <= i < j ==> IsTrimmable(s[i])
    ensures j < |s| ==> !IsTrimmable(s[j])
    decreases |s| - k
  {
    if k < |s| && IsTrimmable(s[k]) then KeptFrom(s, k + 1) else k
  }

  /** One past the last position before `k` that holds a character `trim`
      keeps, or 0 when there is none. */
  function KeptUntil(s: string, k: nat): (j: nat)
    requires k <= |s|
    ensures j <= k
    ensures forall i :: j <= i < k ==> IsTrimmable(s[i])
    ensures 0 < j ==> !IsTrimmable(s[j - 1])
  {
    if 0 < k && IsTrimmable(s[k - 1]) then KeptUntil(s, k - 1) else k
  }

  /** Drops leading trimmable characters: what is left is a suffix that does
      not start with one. */
  function TrimStart(s: string): (r: string)
    ensures |r| <= |s|
    ensures forall i :: 0 <= i < |r| ==> r[i] == s[|s| - |r| + i]
    ensures forall i :: 0 <= i < |s| - |r| ==> IsTrimmable(s[i])
    ensures r != [] ==> !IsTrimmable(r[0])
  {
    s[KeptFrom(s, 0)..]
  }

  /** Drops trailing trimmable characters: what is left is a prefix that does
      not end with one. */
  function TrimEnd(s: string): (r: string)
    ensures |r| <= |s|
    ensures forall i :: 0 <= i < |r| ==> r[i] == s[i]
    ensures forall i :: |r| <= i < |s| ==> IsTrimmable(s[i])
    ensures r != [] ==> !IsTrimmable(r[|r| - 1])
  {
    s[..KeptUntil(s, |s|)]
  }

  /** `String.prototype.trim`. */
  function Trim(s: string): string
  {
    TrimEnd(TrimStart(s))
  }

  /** A title is rejected (`!title.trim()`) exactly when every character of it
      is whitespace; the empty title is the case with no characters. */
  lemma TrimmedEmptyIff(s: string)
    ensures Trim(s) == [] <==> forall i :: 0 <= i < |s| ==> IsTrimmable(s[i])
  {
  }

  /** The state of the "new task" form. */
  datatype TodoForm = TodoForm(
    title: string,
    deadline: Option<int>,
    category: Category,
    notificationEnabled: bool,
    startBeforeMinutes: int,
    intervalMinutes: int)

  /** The form as it is reset after a todo is added: empty title, no deadline,
      "personal", reminders on, 30 minutes before, every 10 minutes. */
  const DefaultForm := TodoForm("", None, Personal, true, 30, 10)

  /** `handleAddTodo`: a title that is blank after trimming changes nothing;
      otherwise one new, open todo built from the form (with the fresh `id` and
      the creation time `now`) goes in front of the list and the form is reset. */
  function AddTodo(todos: seq<Todo>, form: TodoForm, id: string, now: int): (r: (seq<Todo>, TodoForm))
    ensures Trim(form.title) == [] ==> r == (todos, form)
    ensures Trim(form.title) != [] ==>
      && |r.0| == |todos| + 1 && r.0[1..] == todos
      && r.0[0].id == id && r.0[0].title == form.title && r.0[0].deadline == form.deadline
      && !r.0[0].completed && r.0[0].completedAt.None? && r.0[0].lastNotifiedAt.None?
      && r.0[0].createdAt == now && r.0[0].category == Some(form.category)
      && r.0[0].notification == Some(NotificationSettings(form.notificationEnabled, form.startBeforeMinutes, form.intervalMinutes))
      && r.1 == DefaultForm
  {
    if Trim(form.title) == [] then (todos, form)
    else
      var newTodo := Todo(
        id, form.title, form.deadline, false, now, Some(form.category),
        Some(NotificationSettings(form.notificationEnabled, form.startBeforeMinutes, form.intervalMinutes)),
        None, None);
      ([newTodo] + todos, DefaultForm)
  }

  // ------------------------------------------------- completing, reopening

  /** `completedAt` is set exactly on completed todos (legacy records may
      break this: completed without a completion time). */
  predicate CompletionConsistent(t: Todo)
  {
    t.completed <==> t.completedAt.Some?
  }

  function ToggleOne(t: Todo, id: string, at: int): Todo
  {
    if t.id == id then
      var isCompleted := !t.completed;
      t.(completed := isCompleted, completedAt := if isCompleted then Some(at) else None)
    else t
  }

  /** `toggleTodo`: every todo with the id flips `completed`, and its
      `completedAt` becomes the toggle time `at` when it becomes completed and
      is cleared when it is reopened; every other todo is unchanged. */
  function ToggleTodo(todos: seq<Todo>, id: string, at: int): (r: seq<Todo>)
    ensures |r| == |todos|
    ensures forall i :: 0 <= i < |todos| && todos[i].id != id ==> r[i] == todos[i]
    ensures forall i :: 0 <= i < |todos| && todos[i].id == id ==>
      && r[i] == todos[i].(completed := r[i].completed, completedAt := r[i].completedAt)
      && r[i].completed == !todos[i].completed
      && CompletionConsistent(r[i])
      && (r[i].completed ==> r[i].completedAt == Some(at))
  {
    seq(|todos|, i requires 0 <= i < |todos| => ToggleOne(todos[i], id, at))
  }

  /** Toggling keeps the completion invariant of a list that has it. */
  lemma ToggleKeepsConsistency(todos: seq<Todo>, id: string, at: int)
    requires forall i :: 0 <= i < |todos| ==> CompletionConsistent(todos[i])
    ensures forall i :: 0 <= i < |todos| ==> CompletionConsistent(ToggleTodo(todos, id, at)[i])
  {
  }

  /** Completing an open todo and reopening it restores it exactly (when it had
      no completion time, as the invariant demands). */
  lemma ToggleTwiceRestoresOpen(todos: seq<Todo>, id: string, at: int, at': int)
    requires forall i :: 0 <= i < |todos| && todos[i].id == id ==> !todos[i].completed && todos[i].completedAt.None?
    ensures ToggleTodo(ToggleTodo(todos, id, at), id, at') == todos
  {
    var once := ToggleTodo(todos, id, at);
    var twice := ToggleTodo(once, id, at');
    forall i | 0 <= i < |todos|
      ensures twice[i] == todos[i]
    {
      if todos[i].id == id {
        assert once[i].id == id;
      }
    }
  }

  // --------------------------------------------------------------- deleting

  /** `deleteTodo`: exactly the todos with the id are removed, and the rest keep
      their order. */
  function DeleteTodo(todos: seq<Todo>, id: string): (r: seq<Todo>)
    ensures forall t :: t in r <==> t in todos && t.id != id
    ensures forall t :: multiset(r)[t] == if t.id != id then multiset(todos)[t] else 0
    ensures Seqs.IsSubsequence(r, todos)
    ensures !HasId(r, id)
  {
    Seqs.Filter(todos, (t: Todo) => t.id != id)
  }

  /** Deleting an id that is not in the list changes nothing. */
  lemma DeleteAbsentIsIdentity(todos: seq<Todo>, id: string)
    requires !HasId(todos, id)
    ensures DeleteTodo(todos, id) == todos
  {
    Seqs.FilterKeepsAll(todos, (t: Todo) => t.id != id);
  }

  /** Deleting the same id twice is deleting it once. */
  lemma DeleteIsIdempotent(todos: seq<Todo>, id: string)
    ensures DeleteTodo(DeleteTodo(todos, id), id) == DeleteTodo(todos, id)
  {
    Seqs.FilterIdempotent(todos, (t: Todo) => t.id != id);
  }

  /** Deleting the todo just added under a fresh id gives back the list as it
      was. */
  lemma DeleteUndoesAdd(todos: seq<Todo>, form: TodoForm, id: string, now: int)
    requires !HasId(todos, id)
    ensures DeleteTodo(AddTodo(todos, form, id, now).0, id) == todos
  {
    var added := AddTodo(todos, form, id, now).0;
    DeleteAbsentIsIdentity(todos, id);
    if Trim(form.title) != [] {
      assert added == [added[0]] + todos;
      assert added[1..] == todos;
    }
  }

  // ---------------------------------------------------------- display order

  /** The strict part of the display comparator: `a` goes before `b` when it is
      open and `b` completed, or, in the same group, when `a` has a deadline and
      `b` has none or an earlier deadline. Two todos of one group without
      deadlines are tied: the comparator answers "after" both ways for them,
      so their relative order is left to the sort implementation. */
  predicate Precedes(a: Todo, b: Todo)
  {
    if a.completed != b.completed then !a.completed
    else if a.deadline.None? then false
    else if b.deadline.None? then true
    else a.deadline.value < b.deadline.value
  }

  /** The comparator of `sortedTodos` as written (negative puts `a` first). */
  function SourceCompare(a: Todo, b: Todo): int
  {
    if a.completed == b.completed then
      if a.deadline.None? then 1
      else if b.deadline.None? then -1
      else a.deadline.value - b.deadline.value
    else if a.completed then 1 else -1
  }

  /** As written the comparator is inconsistent: of two open todos without
      deadlines, each is said to come after the other. */
  lemma SourceCompareIsInconsistent()
    ensures var a := Todo("a", "first", None, false, 0, None, None, None, None);
            var b := a.(id := "b", title := "second");
            SourceCompare(a, b) > 0 && SourceCompare(b, a) > 0
  {
  }

  /** The comparator as intended: two todos of one group without deadlines
      compare equal, and otherwise it answers as written. Its negative answers
      are exactly `Precedes`, the relation the display sort below uses. */
  function Compare(a: Todo, b: Todo): (r: int)
    ensures r < 0 <==> Precedes(a, b)
    ensures r > 0 <==> Precedes(b, a)
    ensures r != 0 ==> r == SourceCompare(a, b)
  {
    if a.completed == b.completed && a.deadline.None? && b.deadline.None? then 0
    else SourceCompare(a, b)
  }

  /** The intended comparator is consistent: antisymmetric in sign, zero on
      equal arguments, and transitive. */
  lemma CompareIsConsistent(a: Todo, b: Todo, c: Todo)
    ensures Compare(a, a) == 0
    ensures Compare(a, b) < 0 <==> Compare(b, a) > 0
    ensures Compare(a, b) < 0 && Compare(b, c) < 0 ==> Compare(a, c) < 0
  {
    PrecedesIsStrictWeakOrder(a, b, c);
  }

  lemma PrecedesIsStrictWeakOrder(a: Todo, b: Todo, c: Todo)
    ensures !Precedes(a, a)
    ensures Precedes(a, b) ==> !Precedes(b, a)
    ensures Precedes(a, c) ==> Precedes(a, b) || Precedes(b, c)
  {
  }

  predicate SortedByPrecedes(s: seq<Todo>)
  {
    forall i, j :: 0 <= i < j < |s| ==> !Precedes(s[j], s[i])
  }

  /** What the display order promises: open todos before completed ones, and
      within each group deadlined todos first, in ascending deadline order. */
  predicate DisplayOrdered(s: seq<Todo>)
  {
    forall i, j :: 0 <= i < j < |s| ==>
      && (s[i].completed ==> s[j].completed)
      && (s[i].completed == s[j].completed && s[i].deadline.None? ==> s[j].deadline.None?)
      && (s[i].completed == s[j].completed && s[i].deadline.Some? && s[j].deadline.Some? ==>
            s[i].deadline.value <= s[j].deadline.value)
  }

  lemma SortedIsDisplayOrdered(s: seq<Todo>)
    ensures SortedByPrecedes(s) <==> DisplayOrdered(s)
  {
  }

  /** An element that no element of a sorted list precedes can go in front. */
  lemma SortedCons(h: Todo, r: seq<Todo>)
    requires SortedByPrecedes(r)
    requires forall e :: e in multiset(r) ==> !Precedes(e, h)
    ensures SortedByPrecedes([h] + r)
  {
    forall j | 0 <= j < |r|
      ensures !Precedes(r[j], h)
    {
      assert r[j] in multiset(r);
    }
  }

  function Insert(x: Todo, s: seq<Todo>): (r: seq<Todo>)
    requires SortedByPrecedes(s)
    ensures multiset(r) == multiset(s) + multiset{x}
    ensures SortedByPrecedes(r)
  {
    if s == [] then [x]
    else
      assert s == [s[0]] + s[1..];
      if Precedes(s[0], x) then
        var rest := Insert(x, s[1..]);
        forall e | e in multiset(rest)
          ensures !Precedes(e, s[0])
        {
          if e != x {
            assert e in s[1..];
          }
        }
        SortedCons(s[0], rest);
        [s[0]] + rest
      else
        forall e | e in multiset(s)
          ensures !Precedes(e, x)
        {
          PrecedesIsStrictWeakOrder(e, s[0], x);
        }
        SortedCons(x, s);
        [x] + s
  }

  /** `sortedTodos`: the todos in display order, a permutation of the list. */
  function SortTodos(todos: seq<Todo>): (r: seq<Todo>)
    ensures multiset(r) == multiset(todos)
    ensures SortedByPrecedes(r)
  {
    if todos == [] then []
    else
      assert todos == [todos[0]] + todos[1..];
      Insert(todos[0], SortTodos(todos[1..]))
  }

  /** The first open todo of a list, as `find(t => !t.completed)` returns it. */
  function FirstOpen(s: seq<Todo>): (r: Option<Todo>)
    ensures r.None? <==> forall i :: 0 <= i < |s| ==> s[i].completed
    ensures r.Some? ==> r.value in s && !r.value.completed
    ensures r.Some? ==> exists k :: 0 <= k < |s| && s[k] == r.value && forall j :: 0 <= j < k ==> s[j].completed
  {
    if s == [] then None
    else if !s[0].completed then Some(s[0])
    else
      var r := FirstOpen(s[1..]);
      if r.Some? then
        var k :| 0 <= k < |s| - 1 && s[1..][k] == r.value && forall j :: 0 <= j < k ==> s[1..][j].completed;
        assert s[k + 1] == r.value && forall j :: 0 <= j < k + 1 ==> s[j].completed;
        r
      else r
  }

  /** In a sorted list no open todo goes before the first open one. */
  lemma {:induction false} FirstOpenOfSorted(s: seq<Todo>)
    requires SortedByPrecedes(s)
    ensures FirstOpen(s).Some? ==> forall t :: t in s && !t.completed ==> !Precedes(t, FirstOpen(s).value)
  {
    if s != [] && s[0].completed {
      FirstOpenOfSorted(s[1..]);
    }
  }

  /** `topTodo`: the first open todo of the display order. */
  function TopTodo(todos: seq<Todo>): Option<Todo>
  {
    FirstOpen(SortTodos(todos))
  }

  /** The top todo is absent iff every todo is completed; otherwise it is an
      open todo of the list, and when some open todo has a deadline it has the
      earliest deadline among the open todos. (Which deadline-less todo comes
      first when no open todo has a deadline is up to the sort.) */
  lemma TopTodoIsMostUrgent(todos: seq<Todo>)
    ensures TopTodo(todos).None? <==> forall t :: t in todos ==> t.completed
    ensures TopTodo(todos).Some? ==>
      && TopTodo(todos).value in todos
      && !TopTodo(todos).value.completed
      && forall t :: t in todos && !t.completed && t.deadline.Some? ==>
           TopTodo(todos).value.deadline.Some? && TopTodo(todos).value.deadline.value <= t.deadline.value
  {
    var sorted := SortTodos(todos);
    assert forall t :: t in todos <==> t in sorted by {
      assert forall t :: t in todos <==> t in multiset(todos);
      assert forall t :: t in sorted <==> t in multiset(sorted);
    }
    FirstOpenOfSorted(sorted);
    if TopTodo(todos).None? {
      forall t | t in todos
        ensures t.completed
      {
        var k :| 0 <= k < |sorted| && sorted[k] == t;
      }
    }
  }
}
