/** Creating, looking up and listing tasks over the shared document. */
module Tasks {
  import opened Models
  import opened Sequences
  import opened Store

  /** The first task in `tasks` whose id is `taskId`, or None. */
  function TaskWithId(tasks: seq<Task>, taskId: string): Option<Task>
  {
    FindFirst(tasks, (t: Task) => t.id == taskId)
  }

  /** The tasks without a course, in store order. */
  function InboxTasks(tasks: seq<Task>): (r: seq<Task>)
    ensures forall t :: t in r <==> t in tasks && TaskInInbox(t)
    ensures IsSubsequence(r, tasks)
    ensures forall t :: multiset(r)[t] == if TaskInInbox(t) then multiset(tasks)[t] else 0
  {
    FilterIsSubsequence(tasks, TaskInInbox);
    forall t ensures multiset(Filter(tasks, TaskInInbox))[t] == if TaskInInbox(t) then multiset(tasks)[t] else 0 {
      FilterMultiplicity(tasks, TaskInInbox, t);
    }
    Filter(tasks, TaskInInbox)
  }

  class TaskService {
    const store: JsonStore

    constructor (store: JsonStore)
      ensures this.store == store
    {
      this.store := store;
    }

    /** Stores a new open task with identifier `id`, created at `now`.
        The priority is stored as given, "medium" when the caller gives none. */
    method CreateTask(id: string, now: Timestamp, title: string, dueDate: Option<Timestamp> := None,
                      priority: string := "medium", course: Option<string> := None)
      returns (task: Task)
      modifies store
      ensures task.id == id && task.title == title && task.createdAt == now
      ensures task.dueDate == dueDate && task.priority == priority && task.course == course
      ensures !task.completed && task.completedAt.None?
      ensures task.linkedNotes == [] && task.subtasks == []
      ensures store.data == old(store.data).(tasks := old(store.data.tasks) + [task])
      ensures (forall t :: t in old(store.data.tasks) ==> t.id != id) ==> TaskWithId(store.data.tasks, id) == Some(task)
      ensures task in GetInboxTasks() <==> course.None?
    {
      task := Task(id, title, now, dueDate, priority, false, None, course, [], []);
      var data := store.Load();
      data := data.(tasks := data.tasks + [task]);
      store.Save(data);
      FindFirstAppend(old(store.data.tasks), task, (t: Task) => t.id == id);
      assert store.data.tasks[|store.data.tasks| - 1] == task;
      assert task in ListTasks();
    }

    /** The first stored task with identifier `taskId`, or None; changes nothing. */
    method GetTask(taskId: string) returns (r: Option<Task>)
      ensures r == TaskWithId(store.data.tasks, taskId)
    {
      var data := store.Load();
      var i := 0;
      while i < |data.tasks|
        invariant 0 <= i <= |data.tasks|
        invariant forall j :: 0 <= j < i ==> data.tasks[j].id != taskId
      {
        if data.tasks[i].id == taskId {
          return Some(data.tasks[i]);
        }
        i := i + 1;
      }
      return None;
    }

    /** Every stored task, in store order. */
    function ListTasks(): (r: seq<Task>)
      reads store
      ensures |r| == |store.data.tasks|
      ensures forall i :: 0 <= i < |r| ==> r[i] == store.data.tasks[i]
    {
      store.data.tasks
    }

    /** The stored tasks without a course, in store order. */
    function GetInboxTasks(): (r: seq<Task>)
      reads store
      ensures forall t :: t in r <==> t in ListTasks() && t.course.None?
      ensures IsSubsequence(r, ListTasks())
      ensures forall t :: multiset(r)[t] == if t.course.None? then multiset(ListTasks())[t] else 0
    {
      InboxTasks(ListTasks())
    }
  }
}
