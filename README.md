# Personal knowledge manager: record lists, view ordering and identifiers

This project models the record-list layer of a command-line tool for capturing
notes and tasks, and proves properties of that model in Dafny.

- **Store** (`store.dfy`): the single document `{notes, tasks}` that all state lives in.
  Loading the backing file reads a field of a `JsonStore` object and saving overwrites it.
- **Note service** (`note_service.dfy`) and **task service** (`task_service.dfy`):
  classes over a shared store. Creating a note or task loads the document, appends one
  record and saves it. A lookup is a first-match scan (a `while` loop with early return).
  Listing returns the stored records in store order. The inbox query keeps the records
  that have no course, in store order.
- **View rules** (`view.dfy`, over `stable_sort.dfy`):
  - The today view sorts by priority rank (high 0, medium 1, low 2).
  - The week view sorts by due date, with a missing date treated as the latest instant.
  - The overdue view sorts by due date, with a missing date treated as the earliest instant.
  - All three sorts are stable, in place, and run on an `array`.
  - The view also computes the subtask progress count and its "-" placeholder, the priority
    label lookup, and the inbox total and empty-inbox decision. An inbox task whose priority
    has no label makes the inbox view fail part-way, after its notes table.
- **Identifier formatting** (`ids.dfy`, over `text.dfy`): `{prefix}_{YYYYMMDD_HHMMSS}_{xyz}`.
  The clock fields and the three random draws are parameters.
  The module proves a parse-back round trip, injectivity and the documented example.
- **Scenarios** (`scenarios.dfy`): the inbox integration tests replayed as verified client code.

Shared pieces:
- `models.dfy`: the record types.
- `sequences.dfy`: first-match scan, order-preserving filter, subsequence.

Timestamps are integers counting microseconds from the earliest representable instant.
`MinTime` and `MaxTime` stand for the date-time type's minimum and maximum, which the week
and overdue sorts use as sentinels.

The model follows the code where the design description asks for more. `create_note`
stores the content without checking that it is non-empty. It stores topics as given, with
duplicates. `create_task` stores any priority string; only the command line restricts it.

## Model

| member | source | states |
|---|---|---|
| Tasks.TaskService.CreateTask | src/pkm/services/task_service.py:23-59 | The returned task has the given id, title, creation time, due date, priority and course. It is open: not completed, no completion time. Its linked notes and subtasks are empty. The document afterwards is the old one with exactly this task appended to `tasks`; earlier tasks and all notes are unchanged. If no earlier task had this id, a lookup by it finds the new task. The task is in the inbox iff it was created without a course. Priority defaults to "medium". |
| Tasks.TaskService.GetTask | src/pkm/services/task_service.py:61-74 | Returns the first stored task, in store order, whose id matches, or None if none does. It modifies nothing. |
| Tasks.TaskService.ListTasks | src/pkm/services/task_service.py:76-83 | Returns every stored task, same count, same order. |
| Tasks.TaskService.GetInboxTasks | src/pkm/services/task_service.py:85-91 | t is in the result iff t is a listed task with no course. The result is an order-preserving subsequence of the listing. Each task without a course occurs exactly as often as in the listing. |
| Tasks.InboxTasks | src/pkm/services/task_service.py:91 | The tasks without a course, as an order-preserving subsequence. Each such task occurs exactly as often as in the input; no other task occurs. |
| Notes.NoteService.CreateNote | src/pkm/services/note_service.py:23-52 | The returned note has the given id, content and course. `created_at == modified_at == now`. Topics are the given list as is, or empty when none is given. `linked_from_tasks` is empty. The document afterwards is the old one with exactly this note appended to `notes`; tasks are unchanged. If no earlier note had this id, a lookup by it finds the new note. The note is in the inbox iff it was created without a course. |
| Notes.NoteService.GetNote | src/pkm/services/note_service.py:54-67 | Returns the first stored note whose id matches, or None. It modifies nothing. |
| Notes.NoteService.ListNotes | src/pkm/services/note_service.py:69-76 | Returns every stored note, same count, same order. |
| Notes.NoteService.GetInboxNotes | src/pkm/services/note_service.py:78-84 | n is in the result iff n is a listed note with no course. The result is an order-preserving subsequence of the listing. Each note without a course occurs exactly as often as in the listing. |
| Notes.InboxNotes | src/pkm/services/note_service.py:84 | The notes without a course, as an order-preserving subsequence. Each such note occurs exactly as often as in the input; no other note occurs. |
| Sequences.FindFirst | src/pkm/services/note_service.py:63-67 | None iff no element matches. Otherwise the result is the element at some index that matches, and no earlier element matches. |
| Sequences.FindFirstAppend | src/pkm/services/task_service.py:55-73 | Appending a record does not change what a lookup finds among the earlier records. When nothing earlier matches, the lookup finds the appended record if it matches. |
| Sequences.Filter | src/pkm/services/task_service.py:91 | The result is no longer than the input. Every kept element is in the input and satisfies the condition. Every input element that satisfies it is kept. |
| Sequences.FilterAppend | src/pkm/services/note_service.py:84 | Filtering distributes over concatenation, so relative order is kept. |
| Sequences.FilterMultiplicity | src/pkm/services/note_service.py:84 | A kept element occurs as often as in the input; a dropped one does not occur. |
| Sequences.FilterIsSubsequence | src/pkm/services/task_service.py:91 | The filter result is a subsequence of its input. |
| StableSort.SortInPlace | src/pkm/cli/view.py:155 | Sorting in place leaves the array equal to `SortBy` of its old contents. |
| StableSort.SortBySorted | src/pkm/cli/view.py:155 | The sorted list is non-decreasing in the key. |
| StableSort.SortByPermutation | src/pkm/cli/view.py:155 | The sorted list has the same elements as the input, each as often. |
| StableSort.SortByStable | src/pkm/cli/view.py:155 | For every key value, the elements with that key appear in input order. |
| StableSort.StableSortUnique | src/pkm/cli/view.py:155 | Two lists that are both key-ordered and agree on the order within every key are equal. |
| StableSort.SortByIsTheStableSort | src/pkm/cli/view.py:155 | Any key-ordered list that keeps each key's elements in input order equals `SortBy`'s result. So `SortBy` is the result of any stable sort, including the list sort the views call. |
| View.SortToday | src/pkm/cli/view.py:153-155 | If every priority is in the rank table, the tasks end up stably sorted by rank. Otherwise the lookup fails and the list is left unchanged. |
| View.TodayOrder | src/pkm/cli/view.py:154-155 | After the today sort, ranks (high 0, medium 1, low 2) never decrease. Tasks of equal priority keep their relative order. The result is a permutation of the input. |
| View.SortWeek | src/pkm/cli/view.py:218-219 | The tasks end up stably sorted by due date, with a missing due date treated as the latest instant. |
| View.WeekOrder | src/pkm/cli/view.py:219 | Due dates ascend. A task with no due date is followed only by tasks with no due date or due at the latest instant. Ties keep their order. The result is a permutation of the input. |
| View.SortOverdue | src/pkm/cli/view.py:283-284 | The tasks end up stably sorted by due date, with a missing due date treated as the earliest instant. |
| View.OverdueOrder | src/pkm/cli/view.py:284 | Due dates ascend, oldest first. A task with no due date is preceded only by tasks with no due date or due at the earliest instant. Ties keep their order. The result is a permutation of the input. |
| View.PriorityLabelTable | src/pkm/cli/view.py:95-99 | The label lookup succeeds exactly on "high", "medium" and "low", and distinct names get distinct labels. |
| View.CompletedCount | src/pkm/cli/view.py:106 | `0 <= completed <= len(subtasks)`. The count is 0 iff no subtask is completed. It equals the length iff all are completed. |
| View.CompletedCountIsFilter | src/pkm/cli/view.py:106 | The count equals the number of subtasks with `completed` set. |
| View.SubtaskProgress | src/pkm/cli/view.py:105-109 | The progress cell is "-" exactly when there are no subtasks. |
| View.ViewInbox | src/pkm/cli/view.py:75-120 | "Inbox is empty" exactly when both inbox lists are empty. The view fails exactly when some inbox task's priority has no label, as the lookup at lines 95-99 raises. Its notes table has then been shown iff there are inbox notes. Otherwise the note and task counts are the lengths of the two lists and the total is their sum, which is positive. Each table is shown iff its list is non-empty. |
| View.InboxOfDocument | src/pkm/cli/view.py:72-77 | Over a stored document, the inbox is empty exactly when every note and every task has a course. The total never exceeds the number of stored records. |
| Scenarios.EmptyInbox | tests/integration/test_view_commands.py:41-49 | With nothing stored, the inbox view reports an empty inbox. |
| Scenarios.InboxShowsAllItems | tests/integration/test_view_commands.py:13-39 | After adding one note and one task without a course, both tables show and the total is 2. The task got priority "medium" and is open. |
| Scenarios.InboxExcludesOrganizedItems | tests/integration/test_view_commands.py:51-83 | A note without a course and a note with course "Biology" are stored. The inbox is exactly one note: the one with content "Inbox note" and no course. The view shows the note table alone, with total 1. |
| Ids.GenerateId | src/pkm/models/common.py:8-24 | The id starts with `prefix + "_"`. Then come 8 digits, "_", 6 digits, "_", and 3 characters that are each a lowercase ASCII letter or a digit. The length is `len(prefix) + 20`. |
| Ids.ParseGenerated | src/pkm/models/common.py:22-24 | For a prefix without "_", splitting the id at its first "_" gives back exactly the prefix, clock fields and random draws. |
| Ids.GenerateIdInjective | src/pkm/models/common.py:9-24 | For prefixes without "_", distinct (prefix, clock, draws) inputs give distinct ids. |
| Ids.GenerateIdDocumentedExample | src/pkm/models/common.py:15 | Generating with prefix "n", the clock 2025-11-23 10:30:45 and the draws for "a7c" gives the documented example "n_20251123_103045_a7c". |
| Ids.GenerateIdPaddedExample | src/pkm/models/common.py:22 | A clock whose month, day, hour, minute and second are single digits prints each with a leading zero ("t_20250105_090307_9z0"). |
| Text.ZeroPad | src/pkm/models/common.py:22 | The padded field has exactly the requested width and consists of digits. |
| Text.ZeroPadValue | src/pkm/models/common.py:22 | Reading the padded digits back gives the number, so padding loses nothing. |

## Left out

- File I/O: the backing JSON file is not part of this model. `load`/`save` read and overwrite the store's document field. A missing file, a corrupt file and atomic replacement are not modelled.
- Serialisation (`serialize_*`/`deserialize_*`) is not part of this model. Records are stored as the values themselves, which treats serialisation and deserialisation as an identity round trip. Date-string formats are not modelled.
- `generate_task_id`/`generate_note_id`, `datetime.now()` and `random.choices` are nondeterministic. The services take the new id and the current instant as parameters. `GenerateId` takes the clock fields and the three draws (indices into the 36-character alphabet) as parameters.
- `complete_task`, `add_subtask`, `complete_subtask`, `get_tasks_today`, `get_tasks_this_week` and `get_tasks_overdue` are called by the commands, but their bodies are not part of this model. The views' orderings are modelled over whatever list these queries return.
- Note operations other than create, get, list and the inbox query (organising, topic and course queries, deletion, linking) are not part of this model.
- Rendering is not modelled: tables, colours, `truncate`, `format_datetime`, `format_due_date` and the 12-hour due-time display. The progress cell's text beyond the "-" case is built but not characterised further.
- Command-line parsing and data-directory creation are not modelled.
- View.SortToday: a priority outside the table makes the view's lookup raise. The model reports this as `ok == false` with the list unchanged, and does not model the aborted command. `TodayKey`'s value for unknown names is never used.
- StableSort.SortInPlace: the library sort is modelled by insertion sort. `SortByIsTheStableSort` shows that every stable sort by the same key gives the same list.
- Ids.GenerateId: years are padded to four digits. A platform `strftime` may print years below 1000 without padding. The clock supplies current years, so this does not arise.
- Ids.GenerateId: the day is bounded by 31, not by the length of the month.
- Timestamps are integers of microseconds. Time zones and the naive/aware distinction of date-time values are not modelled.
