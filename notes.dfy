/** The note record that the linking engine, the note helpers and the graph view read. */
module Notes {

  datatype Option<+T> = None | Some(value: T)

  /** A note as the core reads it. A missing `title` or `content` behaves exactly like the
      empty string wherever it is read, so both are `""` here. A `tags` field that is not an
      array behaves like `[]`; a tag that is not a string is `None`. */
  datatype Note = Note(id: string, title: string, content: string, tags: seq<Option<string>>)
}
