/**
 The task record as the backend returns it, and the requests the screen sends.
 */
module Tasks {
  import opened Wrappers

  /** The backend's `_id`; opaque to the screen. */
  type Id = string

  /** One task: `{_id, title, description, completed, createdAt}`. The creation
      time is only displayed, so it is kept as the string the backend sends. */
  datatype Task = Task(id: Id, title: string, description: string, completed: bool, createdAt: string)

  /** The `data` object of a request body. A field is `None` when the body does
      not mention it, so a body names exactly the fields it changes. */
  datatype Fields = Fields(title: Option<string>, description: Option<string>, completed: Option<bool>)

  /** The HTTP calls the screen issues against the task collection. */
  datatype Request =
    | Post(body: Fields)               // POST {base}/tasks
    | Put(target: Id, body: Fields)    // PUT {base}/tasks/{id}
    | Delete(target: Id)               // DELETE {base}/tasks/{id}

  /** How a PUT body is read by the backend: fields it names replace those of
      the stored task, fields it omits are kept, the id and creation time never
      change. This is the partial-update reading the screen's handlers rely on. */
  function Apply(t: Task, f: Fields): Task
  {
    Task(t.id,
         if f.title.Some? then f.title.value else t.title,
         if f.description.Some? then f.description.value else t.description,
         if f.completed.Some? then f.completed.value else t.completed,
         t.createdAt)
  }
}
