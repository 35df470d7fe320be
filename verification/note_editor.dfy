/** The rules the note editor applies between keystrokes and the store,
    pulled out of the component as pure functions on the editor's local
    draft. */
module NoteEditor {
  import opened NoteTypes
  import opened JsString
  import NoteStore

  /** The editor's local state: the draft title and content, the summary it
      shows, and whether the user has typed since the note was loaded. */
  datatype Draft = Draft(title: string, content: string, currentSummary: Option<string>, isUserEditing: bool)

  /** The note the editor shows: the first note whose id is the selection. */
  function ActiveNote(notes: seq<Note>, activeNoteId: Option<string>): (r: Option<Note>)
    ensures activeNoteId.None? ==> r.None?
    ensures activeNoteId.Some? ==> r == NoteStore.FindNote(notes, activeNoteId.value)
  {
    match activeNoteId
    case None => None
    case Some(id) => NoteStore.FindNote(notes, id)
  }

  /** The summary the editor displays for a note: a stored empty string counts
      as no summary, since the source reads it through `||`. */
  function DisplayedSummary(n: Note): (r: Option<string>)
    ensures r.Some? ==> r.value != [] && n.summary == r
    ensures r.None? ==> n.summary.None? || n.summary == Some([])
  {
    match n.summary
    case Some(s) => if s == [] then None else Some(s)
    case None => None
  }

  // ---------------------------------------------------------------------------
  // Loading a note into the draft

  /** The draft after the selected note changed: a copy of that note, or
      empty text when nothing is selected; never marked as edited. */
  function ResetDraft(active: Option<Note>): (d: Draft)
    ensures !d.isUserEditing
    ensures active.None? ==> d == Draft("", "", None, false)
    ensures active.Some? ==> d.title == active.value.title && d.content == active.value.content
    ensures active.Some? ==> d.currentSummary == DisplayedSummary(active.value)
  {
    match active
    case None => Draft("", "", None, false)
    case Some(n) => Draft(n.title, n.content, DisplayedSummary(n), false)
  }

  /** The id the reset is keyed on (`activeNote?.id`). */
  function ActiveKey(active: Option<Note>): (k: Option<string>)
    ensures active.None? <==> k.None?
    ensures active.Some? ==> k == Some(active.value.id)
  {
    match active
    case None => None
    case Some(n) => Some(n.id)
  }

  /** The reset runs only when the selected note's id differs from the one
      last loaded; changes to the same note's stored text leave the draft alone. */
  function SyncDraft(lastKey: Option<string>, active: Option<Note>, d: Draft): (r: Draft)
    ensures ActiveKey(active) == lastKey ==> r == d
    ensures ActiveKey(active) != lastKey ==> r == ResetDraft(active)
  {
    if ActiveKey(active) == lastKey then d else ResetDraft(active)
  }

  /** Typing into the title field. */
  function EditTitle(d: Draft, title: string): (r: Draft)
    ensures r.isUserEditing && r.title == title
    ensures r.content == d.content && r.currentSummary == d.currentSummary
  {
    d.(title := title, isUserEditing := true)
  }

  /** Typing into the content field. */
  function EditContent(d: Draft, content: string): (r: Draft)
    ensures r.isUserEditing && r.content == content
    ensures r.title == d.title && r.currentSummary == d.currentSummary
  {
    d.(content := content, isUserEditing := true)
  }

  // ---------------------------------------------------------------------------
  // Scheduling saves

  /** The arguments of a debounced `updateNote` call. */
  datatype SaveArgs = SaveArgs(id: string, title: string, content: string)

  /** The draft differs from the stored note in its title or its content. */
  predicate Diverges(n: Note, d: Draft) {
    d.title != n.title || d.content != n.content
  }

  /** The save the editor schedules once its short timer elapses: only for an
      active note, only after the user has edited, and only when the draft
      differs from what the store holds. */
  function PendingSave(active: Option<Note>, d: Draft): (r: Option<SaveArgs>)
    ensures r.Some? <==> active.Some? && d.isUserEditing && Diverges(active.value, d)
    ensures r.Some? ==> r.value == SaveArgs(active.value.id, d.title, d.content)
  {
    match active
    case None => None
    case Some(n) =>
      if d.isUserEditing && Diverges(n, d) then Some(SaveArgs(n.id, d.title, d.content)) else None
  }

  // ---------------------------------------------------------------------------
  // Inline formatting

  datatype FormatKind = Bold | Italic | Underline

  /** The marker placed before the selection. */
  function OpenMarker(k: FormatKind): (m: string)
    ensures k == Bold ==> m == "**"
    ensures k == Italic ==> m == "*"
    ensures k == Underline ==> m == "<u>"
    ensures |m| == (match k case Bold => 2 case Italic => 1 case Underline => 3)
  {
    match k
    case Bold => "**"
    case Italic => "*"
    case Underline => "<u>"
  }

  /** The marker placed after the selection. */
  function CloseMarker(k: FormatKind): (m: string)
    ensures k == Bold ==> m == "**"
    ensures k == Italic ==> m == "*"
    ensures k == Underline ==> m == "</u>"
    ensures |m| == (match k case Bold => 2 case Italic => 1 case Underline => 4)
  {
    match k
    case Bold => "**"
    case Italic => "*"
    case Underline => "</u>"
  }

  /** The new content `handleFormat` computes: the selected text wrapped in the
      markers and spliced back between the text before `start` and the text
      from `end` on, with JavaScript's `substring` semantics for the indices. */
  function FormatSelection(content: string, start: int, end: int, k: FormatKind): (r: string)
    ensures 0 <= start <= end <= |content| ==>
      r == content[..start] + OpenMarker(k) + content[start..end] + CloseMarker(k) + content[end..]
  {
    Substring(content, 0, start) + (OpenMarker(k) + Substring(content, start, end) + CloseMarker(k))
      + SubstringFrom(content, end)
  }

  /** A text selection in the content field, as the browser reports it. */
  datatype Selection = Selection(start: int, end: int)

  /** `handleFormat`: without a content field there is nothing to do; otherwise
      the draft content is formatted and the draft is marked as edited. */
  function HandleFormat(d: Draft, field: Option<Selection>, k: FormatKind): (r: Draft)
    ensures field.None? ==> r == d
    ensures field.Some? ==> r.isUserEditing && r.content == FormatSelection(d.content, field.value.start, field.value.end, k)
    ensures r.title == d.title && r.currentSummary == d.currentSummary
  {
    match field
    case None => d
    case Some(sel) => d.(content := FormatSelection(d.content, sel.start, sel.end, k), isUserEditing := true)
  }

  // ---------------------------------------------------------------------------
  // Title blur

  /** The title shown when none is set. */
  const UntitledTitle: string := "Untitled"

  /** Leaving the title field: a blank draft title falls back to the stored
      title, or to "Untitled" when the stored title is empty; any other title
      stays as typed. The resulting title is never empty. */
  function BlurTitle(d: Draft, stored: Note): (r: Draft)
    ensures !AllWhitespace(d.title) ==> r == d
    ensures AllWhitespace(d.title) && stored.title != [] ==> r.title == stored.title
    ensures AllWhitespace(d.title) && stored.title == [] ==> r.title == UntitledTitle
    ensures r.title != []
    ensures r.content == d.content && r.currentSummary == d.currentSummary && r.isUserEditing == d.isUserEditing
  {
    if Trim(d.title) == [] then d.(title := if stored.title == [] then UntitledTitle else stored.title)
    else d
  }

  // ---------------------------------------------------------------------------
  // Summarize

  /** `handleSummarize`'s guard: the id handed to the store's `generateSummary`,
      or nothing (the "Cannot Summarize" notice) when there is no active note
      or its content is empty. */
  function SummarizeTarget(active: Option<Note>): (r: Option<string>)
    ensures r.None? <==> active.None? || active.value.content == []
    ensures r.Some? ==> r.value == active.value.id
  {
    match active
    case None => None
    case Some(n) => if n.content == [] then None else Some(n.id)
  }

  /** What the editor tells the user once `generateSummary` has answered. */
  datatype SummaryNotice = SummaryGenerated | SummarizationFailed

  /** Handling the store's answer: a non-empty summary is shown (the dialog
      opens with it); an absent or empty one reports a failure and leaves the
      draft alone. */
  function OnSummaryResult(d: Draft, result: Option<string>): (r: (Draft, SummaryNotice))
    ensures r.1 == SummaryGenerated <==> result.Some? && result.value != []
    ensures r.1 == SummaryGenerated ==> r.0.currentSummary == result
    ensures r.1 == SummarizationFailed ==> r.0 == d
    ensures r.0.title == d.title && r.0.content == d.content && r.0.isUserEditing == d.isUserEditing
  {
    match result
    case Some(s) => if s == [] then (d, SummarizationFailed) else (d.(currentSummary := Some(s)), SummaryGenerated)
    case None => (d, SummarizationFailed)
  }
}
