/** The single document all state lives in, and the store that holds it.
    Reading the backing file and rewriting it are reduced to reading and
    overwriting one field; records are stored as the values themselves. */
module Store {
  import opened Models

  /** The whole persisted state: all notes and all tasks, each in store order. */
  datatype Document = Document(notes: seq<Note>, tasks: seq<Task>)

  class JsonStore {
    var data: Document

    constructor (initial: Document)
      ensures data == initial
    {
      data := initial;
    }

    /** Reads the whole document. */
    method Load() returns (d: Document)
      ensures d == data
    {
      d := data;
    }

    /** Replaces the whole document. */
    method Save(d: Document)
      modifies this
      ensures data == d
    {
      data := d;
    }
  }
}
