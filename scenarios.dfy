/** The inbox scenarios of the command-line integration tests, replayed against
    the services and the inbox view over a fresh, empty store. */
module Scenarios {
  import opened Models
  import opened Sequences
  import opened Store
  import opened Notes
  import opened Tasks
  import opened View

  /** With nothing stored the inbox view reports an empty inbox. */
  method EmptyInbox() returns (v: InboxView)
    ensures v == InboxEmpty
  {
    var store := new JsonStore(Document([], []));
    var notes := new NoteService(store);
    var tasks := new TaskService(store);
    v := ViewInbox(notes.GetInboxNotes(), tasks.GetInboxTasks());
  }

  /** Adds a note and a task, neither with a course, to a fresh store. */
  method StoreNoteAndTask() returns (notes: NoteService, tasks: TaskService, note: Note, task: Task)
    ensures notes.store == tasks.store
    ensures notes.store.data == Document([note], [task])
    ensures note.course.None? && task.course.None?
    ensures task.priority == "medium" && !task.completed
  {
    var store := new JsonStore(Document([], []));
    notes := new NoteService(store);
    tasks := new TaskService(store);
    note := notes.CreateNote("n1", 0, "Inbox note");
    task := tasks.CreateTask("t1", 0, "Inbox task");
  }

  /** A note and a task added without a course both show; the total is two.
      The task, given no priority, has priority "medium" and is open. */
  method InboxShowsAllItems() returns (v: InboxView, task: Task)
    ensures v == InboxListing(true, true, 1, 1, 2)
    ensures task.priority == "medium" && !task.completed
  {
    var notes, tasks, note;
    notes, tasks, note, task := StoreNoteAndTask();
    OneOpenNote(note);
    OneOpenTask(task);
    var inboxNotes, inboxTasks := notes.GetInboxNotes(), tasks.GetInboxTasks();
    NoteAndTaskView(note, task);
    v := ViewInbox(inboxNotes, inboxTasks);
  }

  lemma OneOpenNote(n: Note)
    requires n.course.None?
    ensures InboxNotes([n]) == [n]
  {
    assert [n][1..] == [];
  }

  lemma OneOpenTask(t: Task)
    requires t.course.None?
    ensures InboxTasks([t]) == [t]
  {
    assert [t][1..] == [];
  }

  /** An inbox of one note and one medium-priority task shows both tables, total two. */
  lemma NoteAndTaskView(n: Note, t: Task)
    requires t.priority == "medium"
    ensures ViewInbox([n], [t]) == InboxListing(true, true, 1, 1, 2)
  {
    assert PriorityLabel(t.priority).Some?;
  }

  /** Adds a note without a course and a note with course "Biology" to a fresh store. */
  method StoreOpenAndFiledNotes() returns (notes: NoteService, tasks: TaskService, open: Note, filed: Note)
    ensures notes.store == tasks.store
    ensures notes.store.data == Document([open, filed], [])
    ensures open.content == "Inbox note" && open.course.None?
    ensures filed.content == "Course note" && filed.course == Some("Biology")
  {
    var store := new JsonStore(Document([], []));
    notes := new NoteService(store);
    tasks := new TaskService(store);
    open := notes.CreateNote("n1", 0, "Inbox note");
    filed := notes.CreateNote("n2", 0, "Course note", Some("Biology"));
  }

  /** Of a note without a course and a note with course "Biology", only the
      first is in the inbox, and it is all of the inbox; the total is one. */
  method InboxExcludesOrganizedItems() returns (v: InboxView, inbox: seq<Note>)
    ensures v == InboxListing(true, false, 1, 0, 1)
    ensures |inbox| == 1 && inbox[0].content == "Inbox note" && inbox[0].course.None?
  {
    var notes, tasks, open, filed := StoreOpenAndFiledNotes();
    InboxOfTwo(open, filed);
    inbox := notes.GetInboxNotes();
    var inboxTasks := tasks.GetInboxTasks();
    assert inboxTasks == [];
    OneNoteView(open);
    v := ViewInbox(inbox, inboxTasks);
  }

  /** An inbox holding one note and no task shows the note table alone, total one. */
  lemma OneNoteView(n: Note)
    ensures ViewInbox([n], []) == InboxListing(true, false, 1, 0, 1)
  {
  }

  /** Of two stored notes, the one without a course is the whole inbox. */
  lemma InboxOfTwo(open: Note, filed: Note)
    requires open.course.None? && filed.course.Some?
    ensures InboxNotes([open, filed]) == [open]
  {
    assert [open, filed][1..] == [filed];
    assert [filed][1..] == [];
  }
}
