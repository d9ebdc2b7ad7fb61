/** The row type of the `todos` table, as the client library declares it. */
module Supabase {

  /** One to-do row; every field mirrors a column of the remote table. */
  datatype Todo = Todo(
    id: string,
    userId: string,
    title: string,
    completed: bool,
    createdAt: string,
    updatedAt: string)
}
