/** Creating, looking up and listing notes over the shared document. */
module Notes {
  import opened Models
  import opened Sequences
  import opened Store

  /** The first note in `notes` whose id is `noteId`, or None. */
  function NoteWithId(notes: seq<Note>, noteId: string): Option<Note>
  {
    FindFirst(notes, (n: Note) => n.id == noteId)
  }

  /** The notes without a course, in store order. */
  function InboxNotes(notes: seq<Note>): (r: seq<Note>)
    ensures forall n :: n in r <==> n in notes && NoteInInbox(n)
    ensures IsSubsequence(r, notes)
    ensures forall n :: multiset(r)[n] == if NoteInInbox(n) then multiset(notes)[n] else 0
  {
    FilterIsSubsequence(notes, NoteInInbox);
    forall n ensures multiset(Filter(notes, NoteInInbox))[n] == if NoteInInbox(n) then multiset(notes)[n] else 0 {
      FilterMultiplicity(notes, NoteInInbox, n);
    }
    Filter(notes, NoteInInbox)
  }

  class NoteService {
    const store: JsonStore

    constructor (store: JsonStore)
      ensures this.store == store
    {
      this.store := store;
    }

    /** Stores a new note with identifier `id`, created and modified at `now`.
        The content is stored as given and the topics as given, duplicates included. */
    method CreateNote(id: string, now: Timestamp, content: string,
                      course: Option<string> := None, topics: Option<seq<string>> := None)
      returns (note: Note)
      modifies store
      ensures note.id == id && note.content == content && note.course == course
      ensures note.createdAt == now && note.modifiedAt == note.createdAt
      ensures note.topics == (if topics.Some? then topics.value else [])
      ensures note.linkedFromTasks == []
      ensures store.data == old(store.data).(notes := old(store.data.notes) + [note])
      ensures (forall n :: n in old(store.data.notes) ==> n.id != id) ==> NoteWithId(store.data.notes, id) == Some(note)
      ensures note in GetInboxNotes() <==> course.None?
    {
      note := Note(id, content, now, now, course, if topics.Some? then topics.value else [], []);
      var data := store.Load();
      data := data.(notes := data.notes + [note]);
      store.Save(data);
      FindFirstAppend(old(store.data.notes), note, (n: Note) => n.id == id);
      assert store.data.notes[|store.data.notes| - 1] == note;
      assert note in ListNotes();
    }

    /** The first stored note with identifier `noteId`, or None; changes nothing. */
    method GetNote(noteId: string) returns (r: Option<Note>)
      ensures r == NoteWithId(store.data.notes, noteId)
    {
      var data := store.Load();
      var i := 0;
      while i < |data.notes|
        invariant 0 <= i <= |data.notes|
        invariant forall j :: 0 <= j < i ==> data.notes[j].id != noteId
      {
        if data.notes[i].id == noteId {
          return Some(data.notes[i]);
        }
        i := i + 1;
      }
      return None;
    }

    /** Every stored note, in store order. */
    function ListNotes(): (r: seq<Note>)
      reads store
      ensures |r| == |store.data.notes|
      ensures forall i :: 0 <= i < |r| ==> r[i] == store.data.notes[i]
    {
      store.data.notes
    }

    /** The stored notes without a course, in store order. */
    function GetInboxNotes(): (r: seq<Note>)
      reads store
      ensures forall n :: n in r <==> n in ListNotes() && n.course.None?
      ensures IsSubsequence(r, ListNotes())
      ensures forall n :: multiset(r)[n] == if n.course.None? then multiset(ListNotes())[n] else 0
    {
      InboxNotes(ListNotes())
    }
  }
}
