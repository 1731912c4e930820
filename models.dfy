/** The records the services store: notes, tasks and their subtasks. */
module Models {

  datatype Option<+T> = None | Some(value: T)

  /** A point in time, counted in microseconds from the earliest representable
      instant (0001-01-01 00:00:00). The bounds are the earliest and the latest
      instants the date-time type can hold; the views use them as sentinels. */
  const MinTime: int := 0
  const MaxTime: int := 315537897599999999

  type Timestamp = t: int | MinTime <= t <= MaxTime

  /** A checklist item scoped to one task; its id is unique within that task only. */
  datatype Subtask = Subtask(id: int, title: string, completed: bool)

  /** A task. The priority is whatever string the caller gave: the service does
      not validate it, only the command line restricts it to high, medium, low. */
  datatype Task = Task(
    id: string,
    title: string,
    createdAt: Timestamp,
    dueDate: Option<Timestamp>,
    priority: string,
    completed: bool,
    completedAt: Option<Timestamp>,
    course: Option<string>,
    linkedNotes: seq<string>,
    subtasks: seq<Subtask>)

  /** A note. A note without a course is in the inbox. */
  datatype Note = Note(
    id: string,
    content: string,
    createdAt: Timestamp,
    modifiedAt: Timestamp,
    course: Option<string>,
    topics: seq<string>,
    linkedFromTasks: seq<string>)

  predicate NoteInInbox(n: Note) { n.course.None? }

  predicate TaskInInbox(t: Task) { t.course.None? }
}
