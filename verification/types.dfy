/** The note record and the small value types shared by the store and the editor. */
module NoteTypes {

  /** An optional value; stands for the source's `T | null` and `T | undefined`. */
  datatype Option<+T> = None | Some(value: T)

  /** One user document. Timestamps are milliseconds since the epoch, as the
      browser clock reports them; `summary` is absent until a summary has been
      generated (the source's `undefined` and `null` both map to `None`). */
  datatype Note = Note(
    id: string,
    title: string,
    content: string,
    createdAt: int,
    updatedAt: int,
    summary: Option<string>
  )

  /** Whether the editor shows the raw text or the rendered preview. */
  datatype ViewMode = Edit | Preview
}
