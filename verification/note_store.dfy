/** The note store: the application's single source of truth. Each action of
    the source store is a pure transition on `StoreState`. The clock reading,
    the freshly generated id and the summarizer are parameters. */
module NoteStore {
  import opened NoteTypes

  datatype StoreState = StoreState(
    notes: seq<Note>,
    activeNoteId: Option<string>,
    isLoadingSummary: bool,
    isHydrated: bool,
    viewMode: ViewMode
  )

  /** The state the store starts in, before anything is restored or created. */
  const Initial: StoreState := StoreState([], None, false, false, Edit)

  /** The title every new note starts with. */
  const NewNoteTitle: string := "New Note"

  /** The slice of the state written to browser storage. */
  datatype PersistedSlice = PersistedSlice(notes: seq<Note>, activeNoteId: Option<string>, viewMode: ViewMode)

  // ---------------------------------------------------------------------------
  // Looking notes up

  /** Some note carries `id` (the source's `notes.some(n => n.id === id)`). */
  predicate HasNote(notes: seq<Note>, id: string) {
    exists i :: 0 <= i < |notes| && notes[i].id == id
  }

  /** The index of the first note carrying `id`, if any. */
  function FindIndex(notes: seq<Note>, id: string): (r: Option<nat>)
    ensures r.None? <==> !HasNote(notes, id)
    ensures r.Some? ==> r.value < |notes| && notes[r.value].id == id
    ensures r.Some? ==> forall j :: 0 <= j < r.value ==> notes[j].id != id
  {
    if |notes| == 0 then None
    else if notes[0].id == id then Some(0)
    else
      match FindIndex(notes[1..], id)
      case None => None
      case Some(k) => Some(k + 1)
  }

  /** The first note carrying `id` (the source's `notes.find(n => n.id === id)`). */
  function FindNote(notes: seq<Note>, id: string): (r: Option<Note>)
    ensures r.None? <==> !HasNote(notes, id)
    ensures r.Some? ==> r.value.id == id && r.value in notes
    ensures r.Some? ==> exists k :: 0 <= k < |notes| && notes[k] == r.value && forall j :: 0 <= j < k ==> notes[j].id != id
  {
    match FindIndex(notes, id)
    case None => None
    case Some(k) => Some(notes[k])
  }

  // ---------------------------------------------------------------------------
  // Invariants the actions are proved to keep

  /** No two notes share an id. */
  predicate UniqueIds(notes: seq<Note>) {
    forall i, j :: 0 <= i < j < |notes| ==> notes[i].id != notes[j].id
  }

  /** Every note was last updated no earlier than it was created. */
  predicate TimestampsOrdered(notes: seq<Note>) {
    forall n :: n in notes ==> n.createdAt <= n.updatedAt
  }

  predicate Valid(s: StoreState) {
    UniqueIds(s.notes) && TimestampsOrdered(s.notes)
  }

  /** The clock reading `now` is not earlier than any creation time in `notes`. */
  predicate ClockNotBefore(notes: seq<Note>, now: int) {
    forall i :: 0 <= i < |notes| ==> notes[i].createdAt <= now
  }

  // ---------------------------------------------------------------------------
  // Actions

  /** `setHydrated`: persisted state has been loaded. */
  function SetHydrated(s: StoreState): (r: StoreState)
    ensures r.isHydrated
    ensures r.notes == s.notes && r.activeNoteId == s.activeNoteId
    ensures r.isLoadingSummary == s.isLoadingSummary && r.viewMode == s.viewMode
  {
    s.(isHydrated := true)
  }

  /** The note `addNote` creates from the fresh id and the clock reading. */
  function NewNote(id: string, now: int): (n: Note)
    ensures n.id == id && n.title == NewNoteTitle && n.content == []
    ensures n.createdAt == now && n.updatedAt == now && n.summary == None
  {
    Note(id, NewNoteTitle, "", now, now, None)
  }

  /** `addNote`: prepend a new note and return it. The selection is not changed
      here; the source selects the new note in a later, timer-driven step,
      which is `SetActiveNoteId(Some(note.id))`. */
  function AddNote(s: StoreState, id: string, now: int): (r: (StoreState, Note))
    ensures r.1 == NewNote(id, now)
    ensures |r.0.notes| == |s.notes| + 1
    ensures r.0.notes[0] == r.1 && r.0.notes[1..] == s.notes
    ensures r.0.activeNoteId == s.activeNoteId
    ensures r.0.isLoadingSummary == s.isLoadingSummary && r.0.isHydrated == s.isHydrated
    ensures r.0.viewMode == s.viewMode
  {
    var note := NewNote(id, now);
    (s.(notes := [note] + s.notes), note)
  }

  /** `setActiveNoteId`: change the selection; the id is not checked. */
  function SetActiveNoteId(s: StoreState, id: Option<string>): (r: StoreState)
    ensures r.activeNoteId == id
    ensures r.notes == s.notes && r.isLoadingSummary == s.isLoadingSummary
    ensures r.isHydrated == s.isHydrated && r.viewMode == s.viewMode
  {
    s.(activeNoteId := id)
  }

  /** A note with new title and content, stamped with `now`. */
  function Edited(n: Note, title: string, content: string, now: int): (m: Note)
    ensures m.id == n.id && m.createdAt == n.createdAt && m.summary == n.summary
    ensures m.title == title && m.content == content && m.updatedAt == now
  {
    n.(title := title, content := content, updatedAt := now)
  }

  /** `updateNote`: a no-op unless some note has `id`; then every note with
      that id gets the new title, content and timestamp, and nothing else
      changes. */
  function UpdateNote(s: StoreState, id: string, title: string, content: string, now: int): (r: StoreState)
    ensures !HasNote(s.notes, id) ==> r == s
    ensures |r.notes| == |s.notes|
    ensures forall i :: 0 <= i < |s.notes| ==>
      && r.notes[i].id == s.notes[i].id
      && r.notes[i].createdAt == s.notes[i].createdAt
      && r.notes[i].summary == s.notes[i].summary
    ensures forall i :: 0 <= i < |s.notes| && s.notes[i].id == id ==>
      r.notes[i].title == title && r.notes[i].content == content && r.notes[i].updatedAt == now
    ensures forall i :: 0 <= i < |s.notes| && s.notes[i].id != id ==> r.notes[i] == s.notes[i]
    ensures r.activeNoteId == s.activeNoteId && r.isLoadingSummary == s.isLoadingSummary
    ensures r.isHydrated == s.isHydrated && r.viewMode == s.viewMode
  {
    if !HasNote(s.notes, id) then s
    else
      s.(notes := seq(|s.notes|, i requires 0 <= i < |s.notes| =>
                        if s.notes[i].id == id then Edited(s.notes[i], title, content, now) else s.notes[i]))
  }

  /** The notes that do not carry `id`, in their original order. */
  function WithoutId(notes: seq<Note>, id: string): (r: seq<Note>)
    ensures |r| <= |notes|
    ensures forall n :: n in r <==> n in notes && n.id != id
    ensures !HasNote(notes, id) ==> r == notes
  {
    if |notes| == 0 then []
    else if notes[0].id == id then WithoutId(notes[1..], id)
    else
      assert !HasNote(notes, id) ==> !HasNote(notes[1..], id) by {
        if !HasNote(notes, id) {
          forall j | 0 <= j < |notes[1..]| ensures notes[1..][j].id != id {
            assert notes[1..][j] == notes[j + 1];
          }
        }
      }
      [notes[0]] + WithoutId(notes[1..], id)
  }

  /** `deleteNote`: drop every note carrying `id`, and clear the selection
      when it pointed at `id` (whether or not such a note existed). */
  function DeleteNote(s: StoreState, id: string): (r: StoreState)
    ensures forall n :: n in r.notes <==> n in s.notes && n.id != id
    ensures !HasNote(s.notes, id) ==> r.notes == s.notes
    ensures s.activeNoteId == Some(id) ==> r.activeNoteId == None
    ensures s.activeNoteId != Some(id) ==> r.activeNoteId == s.activeNoteId
    ensures r.isLoadingSummary == s.isLoadingSummary && r.isHydrated == s.isHydrated
    ensures r.viewMode == s.viewMode
  {
    s.(notes := WithoutId(s.notes, id),
       activeNoteId := if s.activeNoteId == Some(id) then None else s.activeNoteId)
  }

  /** What the external summarizer reports: a summary, or a failure of any kind. */
  datatype SummarizeOutcome = Summarized(summary: string) | SummarizeFailed

  /** The text `generateSummary` would send to the summarizer: the content of
      the first note with `id`, or nothing when that note is missing or empty. */
  function SummaryInput(s: StoreState, id: string): (r: Option<string>)
    ensures r.None? <==> (FindNote(s.notes, id).None? || FindNote(s.notes, id).value.content == [])
    ensures r.Some? ==> r.value != [] && FindNote(s.notes, id).Some? && FindNote(s.notes, id).value.content == r.value
  {
    match FindNote(s.notes, id)
    case None => None
    case Some(n) => if n.content == [] then None else Some(n.content)
  }

  /** First half of `generateSummary`: raise the loading flag, but only when
      the request passes the guard. */
  function BeginSummary(s: StoreState, id: string): (r: StoreState)
    ensures SummaryInput(s, id).None? ==> r == s
    ensures SummaryInput(s, id).Some? ==> r.isLoadingSummary
    ensures r.notes == s.notes && r.activeNoteId == s.activeNoteId
    ensures r.isHydrated == s.isHydrated && r.viewMode == s.viewMode
  {
    if SummaryInput(s, id).None? then s else s.(isLoadingSummary := true)
  }

  /** A note with its summary replaced. */
  function WithSummary(n: Note, summary: string): (m: Note)
    ensures m.summary == Some(summary)
    ensures m.id == n.id && m.title == n.title && m.content == n.content
    ensures m.createdAt == n.createdAt && m.updatedAt == n.updatedAt
  {
    n.(summary := Some(summary))
  }

  /** Second half of `generateSummary`, applied to the state as it is when the
      summarizer answers (the note may have been deleted meanwhile). */
  function CompleteSummary(s: StoreState, id: string, outcome: SummarizeOutcome): (r: (StoreState, Option<string>))
    ensures !r.0.isLoadingSummary
    ensures |r.0.notes| == |s.notes|
    ensures outcome.SummarizeFailed? ==> r.0.notes == s.notes && r.1 == None
    ensures outcome.Summarized? ==> r.1 == Some(outcome.summary)
    ensures outcome.Summarized? ==> forall i :: 0 <= i < |s.notes| && s.notes[i].id == id ==>
      r.0.notes[i] == WithSummary(s.notes[i], outcome.summary)
    ensures forall i :: 0 <= i < |s.notes| && s.notes[i].id != id ==> r.0.notes[i] == s.notes[i]
    ensures r.0.activeNoteId == s.activeNoteId && r.0.isHydrated == s.isHydrated
    ensures r.0.viewMode == s.viewMode
  {
    match outcome
    case SummarizeFailed => (s.(isLoadingSummary := false), None)
    case Summarized(summary) =>
      var notes := seq(|s.notes|, i requires 0 <= i < |s.notes| =>
                         if s.notes[i].id == id then WithSummary(s.notes[i], summary) else s.notes[i]);
      (s.(notes := notes, isLoadingSummary := false), Some(summary))
  }

  /** `generateSummary` run to completion with no other action in between:
      the guard, then `summarize` applied to the note's content. */
  function GenerateSummary(s: StoreState, id: string, summarize: string -> SummarizeOutcome): (r: (StoreState, Option<string>))
    ensures SummaryInput(s, id).None? ==> r == (s, None)
    ensures SummaryInput(s, id).Some? ==> !r.0.isLoadingSummary
    ensures SummaryInput(s, id).Some? && summarize(SummaryInput(s, id).value).SummarizeFailed? ==>
      r.0.notes == s.notes && r.1 == None
    ensures SummaryInput(s, id).Some? && summarize(SummaryInput(s, id).value).Summarized? ==>
      r.1 == Some(summarize(SummaryInput(s, id).value).summary)
    ensures r.0.activeNoteId == s.activeNoteId && r.0.isHydrated == s.isHydrated
    ensures r.0.viewMode == s.viewMode
  {
    match SummaryInput(s, id)
    case None => (s, None)
    case Some(text) => CompleteSummary(BeginSummary(s, id), id, summarize(text))
  }

  /** The other view mode. */
  function Flip(m: ViewMode): (r: ViewMode)
    ensures r != m
  {
    if m == Edit then Preview else Edit
  }

  /** `toggleViewMode`. */
  function ToggleViewMode(s: StoreState): (r: StoreState)
    ensures r.viewMode != s.viewMode
    ensures r.notes == s.notes && r.activeNoteId == s.activeNoteId
    ensures r.isLoadingSummary == s.isLoadingSummary && r.isHydrated == s.isHydrated
  {
    s.(viewMode := Flip(s.viewMode))
  }

  /** `setViewMode`. */
  function SetViewMode(s: StoreState, mode: ViewMode): (r: StoreState)
    ensures r.viewMode == mode
    ensures r.notes == s.notes && r.activeNoteId == s.activeNoteId
    ensures r.isLoadingSummary == s.isLoadingSummary && r.isHydrated == s.isHydrated
  {
    s.(viewMode := mode)
  }

  // ---------------------------------------------------------------------------
  // Persistence

  /** `partialize`: the slice written to storage. */
  function Partialize(s: StoreState): (p: PersistedSlice)
    ensures p.notes == s.notes && p.activeNoteId == s.activeNoteId && p.viewMode == s.viewMode
  {
    PersistedSlice(s.notes, s.activeNoteId, s.viewMode)
  }

  /** Rehydration: the stored slice merged over the current state, persisted
      fields winning (the storage layer's default shallow merge). */
  function Restore(s: StoreState, p: PersistedSlice): (r: StoreState)
    ensures r.notes == p.notes && r.activeNoteId == p.activeNoteId && r.viewMode == p.viewMode
    ensures r.isLoadingSummary == s.isLoadingSummary && r.isHydrated == s.isHydrated
  {
    s.(notes := p.notes, activeNoteId := p.activeNoteId, viewMode := p.viewMode)
  }
}
