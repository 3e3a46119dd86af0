/** The records the remote service hands to the core, and the ones the core sends back. */
module Entities {
  import opened Wrappers

  /** A task; the remote service nests sub-tasks inside their parent. */
  datatype Task = Task(id: nat, name: string, subTasks: seq<Task>)

  /**
   * A recorded time entry. `date` is the UTC calendar day of the entry's
   * timestamp; `hours` and `todoItemId` are the already parsed values of the
   * text fields the service receives.
   */
  datatype TimeEntry = TimeEntry(
    id: string,
    description: string,
    date: int,
    hours: int,
    projectId: string,
    projectName: string,
    todoListId: string,
    todoListName: string,
    todoItemId: nat,
    todoItemName: string)

  /** The task an entry was logged against, as a task without sub-tasks. */
  function EntryTask(e: TimeEntry): (t: Task)
    ensures t.id == e.todoItemId && t.name == e.todoItemName && t.subTasks == []
  {
    Task(e.todoItemId, e.todoItemName, [])
  }

  datatype TaskList = TaskList(id: string, name: string, uncompletedCount: nat)

  datatype Project = Project(id: string, name: string)

  /** A request that could not be sent, or whose answer could not be decoded. */
  datatype GatewayError = TransportError(message: string)

  /** The body of a time-entry creation request. `date` is the day to book. */
  datatype TimeEntryInput = TimeEntryInput(
    description: string,
    personId: string,
    date: int,
    time: string,
    hours: int,
    minutes: string)

  /** The remote service's answer to a creation request. */
  datatype CreatedReply = CreatedReply(id: Option<string>, status: string)
}
