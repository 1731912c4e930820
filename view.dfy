/** The ordering and counting rules of the inbox, today, week and overdue views.
    The lists they start from are the services' query results; rendering them
    as tables is not modelled. */
module View {
  import opened Models
  import opened Text
  import opened Sequences
  import opened StableSort
  import Notes
  import Tasks

  /** Display label per priority name, as the views' lookup table has it. */
  const PriorityLabels: map<string, string> :=
    map["high" := "[red]HIGH[/red]", "medium" := "[yellow]MED[/yellow]", "low" := "[green]LOW[/green]"]

  /** Sort rank per priority name for the today view. */
  const PriorityOrder: map<string, int> := map["high" := 0, "medium" := 1, "low" := 2]

  /** The label shown for a stored priority; None where the table has no entry,
      which in the views is a failed lookup. */
  function PriorityLabel(name: string): Option<string>
  {
    if name in PriorityLabels then Some(PriorityLabels[name]) else None
  }

  /** The label lookup succeeds exactly on high, medium and low, and tells them apart. */
  lemma PriorityLabelTable(a: string, b: string)
    ensures PriorityLabel(a).Some? <==> a == "high" || a == "medium" || a == "low"
    ensures PriorityLabel(a).Some? && PriorityLabel(a) == PriorityLabel(b) ==> a == b
  {
  }

  predicate KnownPriorities(tasks: seq<Task>)
  {
    forall i :: 0 <= i < |tasks| ==> tasks[i].priority in PriorityOrder
  }

  /** Sort key of the today view: the rank of the task's priority. It is only
      consulted when every task's priority is in the table (see `SortToday`). */
  function TodayKey(t: Task): int
  {
    if t.priority in PriorityOrder then PriorityOrder[t.priority] else |PriorityOrder|
  }

  /** Sort key of the week view: the due date, the latest instant when there is none. */
  function WeekKey(t: Task): int
  {
    if t.dueDate.Some? then t.dueDate.value else MaxTime
  }

  /** Sort key of the overdue view: the due date, the earliest instant when there is none. */
  function OverdueKey(t: Task): int
  {
    if t.dueDate.Some? then t.dueDate.value else MinTime
  }

  /** The today view's sort. A priority missing from the table fails the lookup
      before anything moves: the list is left as it was and `ok` is false. */
  method SortToday(tasks: array<Task>) returns (ok: bool)
    modifies tasks
    ensures ok <==> KnownPriorities(old(tasks[..]))
    ensures tasks[..] == if ok then SortBy(old(tasks[..]), TodayKey) else old(tasks[..])
  {
    ok := forall i | 0 <= i < tasks.Length :: tasks[i].priority in PriorityOrder;
    if ok {
      SortInPlace(tasks, TodayKey);
    }
  }

  /** The week view's sort: by due date, tasks without one last. */
  method SortWeek(tasks: array<Task>)
    modifies tasks
    ensures tasks[..] == SortBy(old(tasks[..]), WeekKey)
  {
    SortInPlace(tasks, WeekKey);
  }

  /** The overdue view's sort: oldest due date first, tasks without one first of all. */
  method SortOverdue(tasks: array<Task>)
    modifies tasks
    ensures tasks[..] == SortBy(old(tasks[..]), OverdueKey)
  {
    SortInPlace(tasks, OverdueKey);
  }

  lemma SortedElementsFromInput<T>(s: seq<T>, key: T -> int)
    ensures multiset(SortBy(s, key)) == multiset(s)
    ensures forall i :: 0 <= i < |s| ==> SortBy(s, key)[i] in s
  {
    SortByPermutation(s, key);
    var r := SortBy(s, key);
    forall i | 0 <= i < |s| ensures r[i] in s {
      assert r[i] in multiset(r);
    }
  }

  /** After the today sort, priority ranks never decrease, tasks of equal priority
      keep their order, and the tasks are those of the input. */
  lemma TodayOrder(s: seq<Task>)
    requires KnownPriorities(s)
    ensures multiset(SortBy(s, TodayKey)) == multiset(s)
    ensures KnownPriorities(SortBy(s, TodayKey))
    ensures forall i, j :: 0 <= i < j < |s| ==>
      PriorityOrder[SortBy(s, TodayKey)[i].priority] <= PriorityOrder[SortBy(s, TodayKey)[j].priority]
    ensures SameKeyOrder(SortBy(s, TodayKey), s, TodayKey)
  {
    SortedElementsFromInput(s, TodayKey);
    SortBySorted(s, TodayKey);
    SortByStable(s, TodayKey);
  }

  /** After the week sort, due dates ascend and a task without one is followed only
      by tasks without one or due at the latest instant. */
  lemma WeekOrder(s: seq<Task>)
    ensures multiset(SortBy(s, WeekKey)) == multiset(s)
    ensures var r := SortBy(s, WeekKey);
      forall i, j :: 0 <= i < j < |r| && r[i].dueDate.Some? && r[j].dueDate.Some? ==>
        r[i].dueDate.value <= r[j].dueDate.value
    ensures var r := SortBy(s, WeekKey);
      forall i, j :: 0 <= i < j < |r| && r[i].dueDate.None? ==>
        r[j].dueDate.None? || r[j].dueDate == Some(MaxTime)
    ensures SameKeyOrder(SortBy(s, WeekKey), s, WeekKey)
  {
    SortByPermutation(s, WeekKey);
    SortBySorted(s, WeekKey);
    SortByStable(s, WeekKey);
    var r := SortBy(s, WeekKey);
    forall i, j | 0 <= i < j < |r| && r[i].dueDate.None?
      ensures r[j].dueDate.None? || r[j].dueDate == Some(MaxTime)
    {
      assert WeekKey(r[i]) <= WeekKey(r[j]);
    }
  }

  /** After the overdue sort, due dates ascend and a task without one is preceded only
      by tasks without one or due at the earliest instant. */
  lemma OverdueOrder(s: seq<Task>)
    ensures multiset(SortBy(s, OverdueKey)) == multiset(s)
    ensures var r := SortBy(s, OverdueKey);
      forall i, j :: 0 <= i < j < |r| && r[i].dueDate.Some? && r[j].dueDate.Some? ==>
        r[i].dueDate.value <= r[j].dueDate.value
    ensures var r := SortBy(s, OverdueKey);
      forall i, j :: 0 <= i < j < |r| && r[j].dueDate.None? ==>
        r[i].dueDate.None? || r[i].dueDate == Some(MinTime)
    ensures SameKeyOrder(SortBy(s, OverdueKey), s, OverdueKey)
  {
    SortByPermutation(s, OverdueKey);
    SortBySorted(s, OverdueKey);
    SortByStable(s, OverdueKey);
    var r := SortBy(s, OverdueKey);
    forall i, j | 0 <= i < j < |r| && r[j].dueDate.None?
      ensures r[i].dueDate.None? || r[i].dueDate == Some(MinTime)
    {
      assert OverdueKey(r[i]) <= OverdueKey(r[j]);
    }
  }

  predicate SubtaskDone(s: Subtask) { s.completed }

  /** How many of the subtasks are completed. */
  function CompletedCount(subtasks: seq<Subtask>): (c: nat)
    ensures c <= |subtasks|
    ensures c == 0 <==> forall i :: 0 <= i < |subtasks| ==> !subtasks[i].completed
    ensures c == |subtasks| <==> forall i :: 0 <= i < |subtasks| ==> subtasks[i].completed
  {
    if subtasks == [] then 0
    else
      assert forall i :: 1 <= i < |subtasks| ==> subtasks[i] == subtasks[1..][i - 1];
      (if subtasks[0].completed then 1 else 0) + CompletedCount(subtasks[1..])
  }

  /** The count is the number of completed subtasks, each counted once. */
  lemma {:induction false} CompletedCountIsFilter(subtasks: seq<Subtask>)
    ensures CompletedCount(subtasks) == |Filter(subtasks, SubtaskDone)|
  {
    if subtasks != [] {
      CompletedCountIsFilter(subtasks[1..]);
    }
  }

  /** The progress column: "-" without subtasks, otherwise "done/total ✓". */
  function SubtaskProgress(subtasks: seq<Subtask>): (d: string)
    ensures d == "-" <==> subtasks == []
  {
    if subtasks == [] then "-"
    else
      var d := Decimal(CompletedCount(subtasks)) + "/" + Decimal(|subtasks|) + " \U{2713}";
      assert IsDigit(d[0]);
      d
  }

  /** Every task's priority has a label, so the tasks table can be built. */
  predicate KnownLabels(tasks: seq<Task>)
  {
    forall i :: 0 <= i < |tasks| ==> PriorityLabel(tasks[i].priority).Some?
  }

  /** What the inbox view shows: a message that the inbox is empty; the tables that
      have rows and the totals line; or, when an inbox task's priority has no label,
      a failed lookup part-way through, after the notes table if there was one. */
  datatype InboxView =
    | InboxEmpty
    | InboxListing(showNotes: bool, showTasks: bool, noteCount: nat, taskCount: nat, total: nat)
    | InboxLabelMissing(notesShown: bool)

  function ViewInbox(inboxNotes: seq<Note>, inboxTasks: seq<Task>): (v: InboxView)
    ensures v.InboxEmpty? <==> inboxNotes == [] && inboxTasks == []
    ensures v.InboxLabelMissing? <==> !KnownLabels(inboxTasks)
    ensures v.InboxLabelMissing? ==> (v.notesShown <==> inboxNotes != [])
    ensures v.InboxListing? ==>
      v.noteCount == |inboxNotes| && v.taskCount == |inboxTasks| &&
      v.total == v.noteCount + v.taskCount && v.total > 0 &&
      (v.showNotes <==> inboxNotes != []) && (v.showTasks <==> inboxTasks != [])
  {
    if inboxNotes == [] && inboxTasks == [] then InboxEmpty
    else if !KnownLabels(inboxTasks) then InboxLabelMissing(inboxNotes != [])
    else
      InboxListing(inboxNotes != [], inboxTasks != [], |inboxNotes|, |inboxTasks|,
                   |inboxNotes| + |inboxTasks|)
  }

  /** Over a stored document, the inbox is empty exactly when every note and every
      task has a course, and its total never exceeds the number of stored items. */
  lemma InboxOfDocument(notes: seq<Note>, tasks: seq<Task>)
    ensures ViewInbox(Notes.InboxNotes(notes), Tasks.InboxTasks(tasks)).InboxEmpty? <==>
      (forall i :: 0 <= i < |notes| ==> notes[i].course.Some?) &&
      (forall i :: 0 <= i < |tasks| ==> tasks[i].course.Some?)
    ensures ViewInbox(Notes.InboxNotes(notes), Tasks.InboxTasks(tasks)).InboxListing? ==>
      ViewInbox(Notes.InboxNotes(notes), Tasks.InboxTasks(tasks)).total <= |notes| + |tasks|
  {
    var n, t := Notes.InboxNotes(notes), Tasks.InboxTasks(tasks);
    if n != [] {
      assert n[0] in notes;
    }
    if t != [] {
      assert t[0] in tasks;
    }
  }
}
