/** The JSON replies and status codes the handlers send, and a handler's result. */
module Http {
  import opened Dates
  import opened Storage

  /** One element of a log reply: the three selected columns of an exercise row. */
  datatype LogEntry = LogEntry(description: string, duration: real, date: Instant)

  datatype Reply =
    | UserCreated(username: string, id: int)
    | UserList(users: seq<User>)
    | ExerciseAdded(idText: string, username: string, date: Instant, duration: real, description: string)
    | ExerciseLog(id: int, username: string, count: nat, log: seq<LogEntry>)

  /** Status 200 with a reply, 400 with a message, or 404 with a message. */
  datatype Response =
    | Ok(reply: Reply)
    | BadRequest(message: string)
    | NotFound(message: string)

  /** What a handler produces: the response it sends and the store after it ran. */
  datatype Handled = Handled(response: Response, store: Store)
}
