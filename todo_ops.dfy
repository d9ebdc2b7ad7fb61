/**
 * The list transformations the to-do component applies to its local copy of
 * the rows once a remote call has succeeded: flip the completion flag of the
 * rows with a given id, drop the rows with a given id, prepend a new row, and
 * count the rows by completion state.
 */
module TodoOps {
  import opened Supabase

  /** No row of `todos` carries `id`. */
  predicate AbsentId(todos: seq<Todo>, id: string) {
    forall i :: 0 <= i < |todos| ==> todos[i].id != id
  }

  /** The list after a successful toggle of `id`, where `completed` is the
      flag the caller passed in: every row with that id gets `!completed`;
      length, order, the other rows and the other fields stay as they were. */
  function Toggled(todos: seq<Todo>, id: string, completed: bool): (r: seq<Todo>)
    ensures |r| == |todos|
    ensures forall i :: 0 <= i < |r| ==> r[i] == todos[i].(completed := r[i].completed)
    ensures forall i :: 0 <= i < |r| ==>
      r[i].completed == (if todos[i].id == id then !completed else todos[i].completed)
  {
    if todos == [] then []
    else
      var head := if todos[0].id == id then todos[0].(completed := !completed) else todos[0];
      [head] + Toggled(todos[1..], id, completed)
  }

  /** The list after a successful delete of `id`: no row with that id is left,
      and only rows of the original list remain. */
  function WithoutId(todos: seq<Todo>, id: string): (r: seq<Todo>)
    ensures |r| <= |todos|
    ensures AbsentId(r, id)
    ensures forall t :: t in r ==> t in todos
  {
    if todos == [] then []
    else if todos[0].id == id then WithoutId(todos[1..], id)
    else [todos[0]] + WithoutId(todos[1..], id)
  }

  /** The rows whose completion flag is `done`, in list order. */
  function WithStatus(todos: seq<Todo>, done: bool): (r: seq<Todo>)
    ensures |r| <= |todos|
    ensures forall t :: t in r ==> t in todos && t.completed == done
  {
    if todos == [] then []
    else if todos[0].completed == done then [todos[0]] + WithStatus(todos[1..], done)
    else WithStatus(todos[1..], done)
  }

  /** The number of rows still to do. */
  function ActiveCount(todos: seq<Todo>): nat {
    |WithStatus(todos, false)|
  }

  /** The number of rows already done. */
  function CompletedCount(todos: seq<Todo>): nat {
    |WithStatus(todos, true)|
  }

  /** `a` occurs in `b` in order, possibly with other elements in between. */
  predicate Subsequence(a: seq<Todo>, b: seq<Todo>) {
    if a == [] then true
    else if b == [] then false
    else if a[0] == b[0] then Subsequence(a[1..], b[1..])
    else Subsequence(a, b[1..])
  }

  // ----- Toggle -----

  /** Toggling an id no row carries changes nothing. */
  lemma ToggledAbsent(todos: seq<Todo>, id: string, completed: bool)
    requires AbsentId(todos, id)
    ensures Toggled(todos, id, completed) == todos
  {
  }

  /** Toggling twice with the same stale flag lands where one toggle did. */
  lemma ToggledIdempotent(todos: seq<Todo>, id: string, completed: bool)
    ensures Toggled(Toggled(todos, id, completed), id, completed) == Toggled(todos, id, completed)
  {
  }

  /** When the flag passed is the matching rows' current state (as the
      checkbox passes it), toggling back with the new state undoes it. */
  lemma ToggledUndo(todos: seq<Todo>, id: string, completed: bool)
    requires forall i :: 0 <= i < |todos| && todos[i].id == id ==> todos[i].completed == completed
    ensures Toggled(Toggled(todos, id, completed), id, !completed) == todos
  {
  }

  // ----- Delete -----

  /** Exactly the rows carrying `id` are removed: every other row keeps its
      number of occurrences. */
  lemma {:induction false} WithoutIdOccurrences(todos: seq<Todo>, id: string, t: Todo)
    ensures multiset(WithoutId(todos, id))[t] == if t.id == id then 0 else multiset(todos)[t]
  {
    if todos != [] {
      WithoutIdOccurrences(todos[1..], id, t);
      assert todos == [todos[0]] + todos[1..];
    }
  }

  /** The remaining rows keep their relative order. */
  lemma {:induction false} WithoutIdSubsequence(todos: seq<Todo>, id: string)
    ensures Subsequence(WithoutId(todos, id), todos)
  {
    if todos != [] {
      WithoutIdSubsequence(todos[1..], id);
      var r := WithoutId(todos, id);
      if todos[0].id == id && r != [] {
        assert r[0].id != id;
      }
    }
  }

  /** Deleting distributes over concatenation, so the rows before and after
      any cut stay on their own side. */
  lemma {:induction false} WithoutIdAppend(a: seq<Todo>, b: seq<Todo>, id: string)
    ensures WithoutId(a + b, id) == WithoutId(a, id) + WithoutId(b, id)
  {
    if a != [] {
      WithoutIdAppend(a[1..], b, id);
      assert (a + b)[1..] == a[1..] + b;
    } else {
      assert a + b == b;
    }
  }

  /** Deleting an id no row carries changes nothing. */
  lemma {:induction false} WithoutIdAbsent(todos: seq<Todo>, id: string)
    requires AbsentId(todos, id)
    ensures WithoutId(todos, id) == todos
  {
    if todos != [] {
      WithoutIdAbsent(todos[1..], id);
    }
  }

  /** Deleting twice is deleting once. */
  lemma WithoutIdIdempotent(todos: seq<Todo>, id: string)
    ensures WithoutId(WithoutId(todos, id), id) == WithoutId(todos, id)
  {
  }

  // ----- Add -----

  /** Adding a row with a fresh id and then deleting that id restores the
      list. */
  lemma PrependThenDelete(row: Todo, todos: seq<Todo>)
    requires AbsentId(todos, row.id)
    ensures WithoutId([row] + todos, row.id) == todos
  {
    assert ([row] + todos)[1..] == todos;
    WithoutIdAbsent(todos, row.id);
  }

  /** A prepended row adds one to the counter of its own state. */
  lemma CountsAfterPrepend(row: Todo, todos: seq<Todo>)
    ensures ActiveCount([row] + todos) == ActiveCount(todos) + (if row.completed then 0 else 1)
    ensures CompletedCount([row] + todos) == CompletedCount(todos) + (if row.completed then 1 else 0)
  {
  }

  // ----- Counters -----

  /** Every row is counted exactly once: active plus completed is the length,
      so each count is bounded by it. */
  lemma {:induction false} CountsAddUp(todos: seq<Todo>)
    ensures ActiveCount(todos) + CompletedCount(todos) == |todos|
    ensures ActiveCount(todos) <= |todos| && CompletedCount(todos) <= |todos|
  {
    if todos != [] {
      CountsAddUp(todos[1..]);
    }
  }
}
