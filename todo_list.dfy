/**
 * The `TodoList` view component: its four pieces of state and the handlers
 * that update them once a remote call has answered. Every remote call is a
 * parameter: the current-user lookup is an `Option` of the user's id (`None`
 * when nobody is signed in) and each table query is a `Reply` (`Error` when
 * the service reported an error, which the handler catches and logs).
 */
module TodoListComponent {
  import opened Wrappers
  import opened JsString
  import opened Supabase
  import opened TodoOps

  /** The answer of one table query. */
  datatype Reply<T> = Success(data: T) | Error

  /** The payload of the insert the add handler sends. */
  datatype NewRow = NewRow(title: string, userId: string)

  class TodoList {
    var todos: seq<Todo>
    var newTodo: string
    var loading: bool
    var adding: bool

    /** Mounting state: no rows, empty input, loading, not adding. */
    constructor ()
      ensures todos == [] && newTodo == "" && loading && !adding
    {
      todos := [];
      newTodo := "";
      loading := true;
      adding := false;
    }

    /** The input's change handler: the text becomes `value`. */
    method EditInput(value: string)
      modifies this
      ensures newTodo == value
      ensures todos == old(todos) && loading == old(loading) && adding == old(adding)
    {
      newTodo := value;
    }

    /** Loads the signed-in user's rows. On success the list becomes the rows
        returned (none when the data is null); with no user or an error the
        previous list stays. Loading has ended whatever happened. */
    method FetchTodos(user: Option<string>, reply: Reply<Option<seq<Todo>>>)
      modifies this
      ensures !loading
      ensures todos ==
        if user.Some? && reply.Success? then
          (if reply.data.Some? then reply.data.value else [])
        else old(todos)
      ensures newTodo == old(newTodo) && adding == old(adding)
    {
      if user.Some? {
        match reply
        case Success(data) =>
          todos := if data.Some? then data.value else [];
        case Error =>
      }
      loading := false;
    }

    /** Submits the input. Blank input is rejected with no request and no
        change of state. Otherwise an insert of the trimmed title for the
        signed-in user is issued (none when nobody is signed in); a returned
        row goes in front of the list and clears the input, while an error,
        a missing user or a null row leave list and input as they were. On
        every path past the blank check `adding` ends false. `insert` is the
        request the handler sends, if any. */
    method AddTodo(user: Option<string>, reply: Reply<Option<Todo>>) returns (insert: Option<NewRow>)
      modifies this
      ensures IsBlank(old(newTodo)) ==>
        insert == None && todos == old(todos) && newTodo == old(newTodo) && adding == old(adding)
      ensures !IsBlank(old(newTodo)) ==>
        !adding &&
        insert == (if user.Some? then Some(NewRow(Trim(old(newTodo)), user.value)) else None)
      ensures !IsBlank(old(newTodo)) && user.Some? && reply.Success? && reply.data.Some? ==>
        todos == [reply.data.value] + old(todos) && newTodo == ""
      ensures IsBlank(old(newTodo)) || user.None? || reply.Error? || reply.data.None? ==>
        todos == old(todos) && newTodo == old(newTodo)
      ensures loading == old(loading)
    {
      TrimEmptyIffBlank(newTodo);
      insert := None;
      if Trim(newTodo) != "" {
        adding := true;
        if user.Some? {
          insert := Some(NewRow(Trim(newTodo), user.value));
          match reply
          case Success(data) =>
            if data.Some? {
              todos := [data.value] + todos;
              newTodo := "";
            }
          case Error =>
        }
        adding := false;
      }
    }

    /** Flips the completion of the rows carrying `id`, where `completed` is
        the state the caller saw. On success the list is `Toggled`; on error
        it is unchanged. */
    method ToggleTodo(id: string, completed: bool, reply: Reply<()>)
      modifies this
      ensures todos == if reply.Success? then Toggled(old(todos), id, completed) else old(todos)
      ensures newTodo == old(newTodo) && loading == old(loading) && adding == old(adding)
    {
      if reply.Success? {
        todos := Toggled(todos, id, completed);
      }
    }

    /** Removes the rows carrying `id`. On success the list is `WithoutId`;
        on error it is unchanged. */
    method DeleteTodo(id: string, reply: Reply<()>)
      modifies this
      ensures todos == if reply.Success? then WithoutId(old(todos), id) else old(todos)
      ensures newTodo == old(newTodo) && loading == old(loading) && adding == old(adding)
    {
      if reply.Success? {
        todos := WithoutId(todos, id);
      }
    }

    /** The submit button is enabled exactly when no add is in flight and
        the input is not blank. */
    function SubmitEnabled(): (r: bool)
      reads this
      ensures r <==> !adding && !IsBlank(newTodo)
    {
      TrimEmptyIffBlank(newTodo);
      !adding && Trim(newTodo) != ""
    }

    /** The counters shown under the list; together they count every row. */
    function ActiveTodos(): (n: nat)
      reads this
      ensures n + CompletedCount(todos) == |todos|
    {
      CountsAddUp(todos);
      ActiveCount(todos)
    }

    function CompletedTodos(): (n: nat)
      reads this
      ensures n + ActiveCount(todos) == |todos| && n <= |todos|
    {
      CountsAddUp(todos);
      CompletedCount(todos)
    }
  }
}
