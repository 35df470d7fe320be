# noteweave core, modelled in Dafny

noteweave is a single-user, browser-only note-taking app. This project models two parts of it:

- The **note store** (`src/store/noteStore.ts`) holds the notes, the selected note id, the summary-loading flag, the hydration flag and the view mode. Each of its actions (`addNote`, `setActiveNoteId`, `updateNote`, `deleteNote`, `generateSummary`, `setHydrated`, `toggleViewMode`, `setViewMode`) is modelled as a pure transition on an immutable `StoreState`. So is the `partialize` projection onto the persisted slice, together with its restore.
- The **editor controller rules** are embedded in `src/components/notes/NoteEditor.tsx`. They are modelled as pure functions on the editor's local `Draft`:
  - the draft reset when the selected note changes;
  - the "draft diverges, so schedule a save" rule;
  - the inline-format splice (`handleFormat`);
  - the blank-title-on-blur fallback;
  - the summarize guard and the handling of its result;
  - the cancel-and-reschedule `debounce`, as a state machine with at most one pending call.

Three things the source obtains from the environment are parameters instead:
- the clock reading (`Date.now()`);
- the fresh id (`crypto.randomUUID()`);
- the summarizer (`summarizeNote`): a function from the note text to `Summarized(summary)` or `SummarizeFailed`.

Files:
- `types.dfy`: `Note`, `Option`, `ViewMode`.
- `js_string.dfy`: JavaScript `substring` (index clamping and swapping) and `trim` (the ECMAScript whitespace and line-terminator code points).
- `note_store.dfy`: the store.
- `store_properties.dfy`: lemmas about the store.
- `debounce.dfy`: the debouncer.
- `note_editor.dfy`: the editor rules.
- `editor_properties.dfy`: lemmas about the editor rules, alone and together with the store.

Behaviours of the code that the model keeps:
- `deleteNote` clears the selection whenever it equals the id, even if no note has that id. It removes *every* note with the id. Deleting removes exactly one entry only when ids are unique (`StoreProperties.DeleteRemovesExactlyOne`).
- `updateNote` only stamps the current clock reading. `updatedAt` strictly increases only if the clock has advanced (`StoreProperties.UpdateNoteAdvancesTimestamp`).
- `addNote` does not select the new note. Selection is a separate, later, timer-driven `setActiveNoteId` step (`StoreProperties.AddThenSelectActivatesNewNote`).
- The editor reads a stored summary through `summary || null`, so an empty stored summary is shown as no summary (`NoteEditor.DisplayedSummary`). An empty summary returned by the summarizer is stored, but the editor reports it as a failure (`NoteEditor.OnSummaryResult`).
- `handleSummarize` itself only checks for an active note with content. Refusing while a summary is already loading is done by disabling the button, which is rendering.

## Model

| member | source | states |
|---|---|---|
| `NoteStore.FindIndex` | src/store/noteStore.ts:75 | the index of the first note with the id; none exactly when no note has it |
| `NoteStore.FindNote` | src/store/noteStore.ts:75 | `find` returns the first note with the id, and nothing exactly when `some` would be false |
| `NoteStore.SetHydrated` | src/store/noteStore.ts:37 | sets the hydration flag and changes nothing else |
| `NoteStore.NewNote` | src/store/noteStore.ts:39-45 | a new note has the given id, title "New Note", empty content, both timestamps equal to the clock reading, and no summary |
| `NoteStore.AddNote` | src/store/noteStore.ts:38-56 | the new note is at index 0, the old list follows unchanged, length grows by one, the selection and the flags are untouched, and the new note is returned |
| `NoteStore.SetActiveNoteId` | src/store/noteStore.ts:57 | sets the selection to any id, checked or not, and changes nothing else |
| `NoteStore.Edited` | src/store/noteStore.ts:64 | the edited note has the new title, content and timestamp, and keeps its id, creation time and summary |
| `NoteStore.UpdateNote` | src/store/noteStore.ts:58-67 | a missing id leaves the whole state unchanged; otherwise matching notes get the new title, content and timestamp, while ids, creation times, summaries, other notes, order, length and flags are preserved |
| `NoteStore.WithoutId` | src/store/noteStore.ts:70 | the kept notes are exactly those without the id; the list is unchanged when no note has it |
| `NoteStore.DeleteNote` | src/store/noteStore.ts:68-73 | removes exactly the notes with the id; the selection becomes none if it was that id and is unchanged otherwise |
| `NoteStore.SummaryInput` | src/store/noteStore.ts:75-76 | the request is refused exactly when the note is missing or its content is empty; otherwise the note's non-empty content is what the summarizer receives |
| `NoteStore.BeginSummary` | src/store/noteStore.ts:76-78 | a refused request leaves the state untouched; an accepted one raises the loading flag |
| `NoteStore.WithSummary` | src/store/noteStore.ts:83 | only the summary field of the note changes |
| `NoteStore.CompleteSummary` | src/store/noteStore.ts:80-92 | loading becomes false; on success matching notes get the summary and it is returned; on failure the notes are unchanged and nothing is returned; other notes never change |
| `NoteStore.GenerateSummary` | src/store/noteStore.ts:74-93 | a refusal returns none with the state untouched; otherwise loading ends false, and a failure keeps the notes and returns none, while a success returns the summary |
| `NoteStore.Flip` | src/store/noteStore.ts:96 | the toggled view mode differs from the current one |
| `NoteStore.ToggleViewMode` | src/store/noteStore.ts:94-98 | switches to the other view mode and changes nothing else |
| `NoteStore.SetViewMode` | src/store/noteStore.ts:99-101 | sets the view mode and changes nothing else |
| `NoteStore.Partialize` | src/store/noteStore.ts:107-111 | the persisted slice holds exactly the notes, the selection and the view mode |
| `NoteStore.Restore` | src/store/noteStore.ts:107-111 | rehydration puts the slice's three fields in place and keeps the transient flags |
| `StoreProperties.AddNotePreservesValid` | src/store/noteStore.ts:39-49 | with a fresh id, adding a note keeps ids unique and timestamps ordered |
| `StoreProperties.AddThenSelectActivatesNewNote` | src/store/noteStore.ts:51-53 | the deferred selection step makes the new note the one found for the selected id |
| `StoreProperties.AddNotesOrderAndUniqueness` | src/store/noteStore.ts:47-49 | after any run of additions with distinct fresh ids, each reading its own clock value, ids stay unique, new notes come first (latest first) carrying their own timestamps, and the old list follows unchanged |
| `StoreProperties.UpdateNotePreservesValid` | src/store/noteStore.ts:62-66 | with a clock not behind any creation time, an update keeps the store valid |
| `StoreProperties.UpdateNoteAdvancesTimestamp` | src/store/noteStore.ts:64 | if the clock has passed a note's last update, updating it strictly increases `updatedAt` |
| `StoreProperties.UpdateThenFind` | src/store/noteStore.ts:58-66 | after updating a present id, looking it up finds the new title and content |
| `StoreProperties.WithoutIdAppend` | src/store/noteStore.ts:70 | filtering distributes over concatenation, so the survivors keep their order |
| `StoreProperties.DeleteRemovesExactlyOne` | src/store/noteStore.ts:68-73 | with unique ids, deleting a present id removes exactly that entry and keeps the rest in order |
| `StoreProperties.WithoutIdPreservesUnique` | src/store/noteStore.ts:70 | filtering keeps ids unique |
| `StoreProperties.DeleteNotePreservesValid` | src/store/noteStore.ts:68-73 | deletion keeps the store valid |
| `StoreProperties.RefusedSummaryLeavesStateAlone` | src/store/noteStore.ts:75-76 | for a missing note or empty content, the state is untouched and the loading flag is never raised |
| `StoreProperties.SummarySuccessChangesOnlySummary` | src/store/noteStore.ts:80-87 | on success only the target notes' summaries change, loading is false and the summary is returned |
| `StoreProperties.LateSummaryForDeletedNote` | src/store/noteStore.ts:81-86 | an answer that arrives for a deleted note changes no note |
| `StoreProperties.CompleteSummaryPreservesValid` | src/store/noteStore.ts:81-86 | storing a summary keeps the store valid |
| `StoreProperties.ToggleViewModeInvolution` | src/store/noteStore.ts:94-98 | toggling twice is the identity |
| `StoreProperties.SetViewModeIdempotent` | src/store/noteStore.ts:99-101 | setting the same view mode twice is setting it once |
| `StoreProperties.SetHydratedIdempotent` | src/store/noteStore.ts:37 | marking hydrated twice is marking it once |
| `StoreProperties.PersistRoundTrip` | src/store/noteStore.ts:107-111 | restoring a state's own slice gives the state back; the slice of a restored state is the slice restored |
| `StoreProperties.RestoreRecoversPersistedFields` | src/store/noteStore.ts:107-111 | restoring a saved slice over any state recovers exactly the saved notes, selection and view mode |
| `StoreProperties.CreateEditDeleteScenario` | src/store/noteStore.ts:38-73 | from empty: add gives "New Note" with empty content; select, update to "Hi"/"Hello world", and delete leave an empty list and no selection |
| `StoreProperties.SummaryScenario` | src/store/noteStore.ts:74-93 | a summarizer answering "A fox story." stores that summary and clears the loading flag |
| `Debounce.Idle` | src/components/notes/NoteEditor.tsx:55 | a fresh debouncer has nothing pending |
| `Debounce.Invoke` | src/components/notes/NoteEditor.tsx:58-61 | a call replaces whatever was pending with its own arguments |
| `Debounce.Elapse` | src/components/notes/NoteEditor.tsx:61 | when the timer fires, the pending call runs and nothing stays pending |
| `Debounce.Run` | src/components/notes/NoteEditor.tsx:51-63 | nothing runs that was not pending at the start or invoked in the trace, and no more calls run than there are events |
| `Debounce.RunFrom` | src/components/notes/NoteEditor.tsx:55-61 | from any state, the calls that run are the pending one if the timer fires first, followed by the survivors |
| `Debounce.RunMatchesSurvivors` | src/components/notes/NoteEditor.tsx:55-61 | starting idle, a call runs if and only if the timer fires before any later call |
| `Debounce.SupersededCallDoesNotRun` | src/components/notes/NoteEditor.tsx:58-61 | a call followed directly by another call never runs: what runs is what runs before it plus what runs from the next call on |
| `Debounce.FiredCallRuns` | src/components/notes/NoteEditor.tsx:61 | a call followed directly by the timer runs, in its place: after what runs before it and before what runs from the timer on |
| `Debounce.PendingIsLastCall` | src/components/notes/NoteEditor.tsx:55-61 | at most one call is pending, and it is the most recent call exactly when no timer fired after it |
| `JsString.Clamp` | src/components/notes/NoteEditor.tsx:138 | a substring index is clamped into the string |
| `JsString.Substring` | src/components/notes/NoteEditor.tsx:138 | `substring` returns the slice between the indices, in either order |
| `JsString.SubstringFrom` | src/components/notes/NoteEditor.tsx:154 | the one-argument `substring` returns the suffix |
| `JsString.TrimStart` | src/components/notes/NoteEditor.tsx:222 | removes exactly the leading whitespace |
| `JsString.TrimEnd` | src/components/notes/NoteEditor.tsx:222 | removes exactly the trailing whitespace |
| `JsString.Trim` | src/components/notes/NoteEditor.tsx:222 | the trimmed title is a slice of the input with only whitespace outside it; it is empty if and only if every character is whitespace, and otherwise starts and ends with a non-whitespace character |
| `NoteEditor.ActiveNote` | src/components/notes/NoteEditor.tsx:75-78 | the shown note is the first with the selected id, or none without a selection |
| `NoteEditor.DisplayedSummary` | src/components/notes/NoteEditor.tsx:99 | an empty or absent stored summary is shown as none; any other is shown as is |
| `NoteEditor.ResetDraft` | src/components/notes/NoteEditor.tsx:95-106 | on a note change the draft copies its title, content and shown summary; with no note the texts are empty; editing is off either way |
| `NoteEditor.ActiveKey` | src/components/notes/NoteEditor.tsx:107 | the reset is keyed on the shown note's id |
| `NoteEditor.SyncDraft` | src/components/notes/NoteEditor.tsx:95-107 | the draft is reset only when the shown note's id changes; otherwise it is kept |
| `NoteEditor.EditTitle` | src/components/notes/NoteEditor.tsx:121-124 | typing a title marks the draft as edited and keeps its content |
| `NoteEditor.EditContent` | src/components/notes/NoteEditor.tsx:126-129 | typing content marks the draft as edited and keeps its title |
| `NoteEditor.PendingSave` | src/components/notes/NoteEditor.tsx:109-119 | a save is scheduled exactly when a note is shown, the user has edited, and the title or content differs; it carries the note's id and the draft |
| `NoteEditor.OpenMarker` | src/components/notes/NoteEditor.tsx:141-151 | the opening markers are `**`, `*` and `<u>` |
| `NoteEditor.CloseMarker` | src/components/notes/NoteEditor.tsx:141-151 | the closing markers are `**`, `*` and `</u>` |
| `NoteEditor.FormatSelection` | src/components/notes/NoteEditor.tsx:136-154 | for an in-range selection the result is the prefix, the open marker, the selection, the close marker and the suffix |
| `NoteEditor.HandleFormat` | src/components/notes/NoteEditor.tsx:131-158 | without the text field nothing changes; otherwise the content is formatted and the draft is marked as edited |
| `NoteEditor.BlurTitle` | src/components/notes/NoteEditor.tsx:221-225 | a blank title becomes the stored title, or "Untitled" if that is empty; a non-blank title is kept; the result is never empty |
| `NoteEditor.SummarizeTarget` | src/components/notes/NoteEditor.tsx:160-168 | summarizing is refused exactly when no note is shown or its content is empty; otherwise the shown note's id goes to the store |
| `NoteEditor.OnSummaryResult` | src/components/notes/NoteEditor.tsx:169-183 | a non-empty summary is shown and kept as the current summary; an absent or empty one is reported as a failure and changes nothing |
| `EditorProperties.FormatKeepsSurroundings` | src/components/notes/NoteEditor.tsx:153-154 | formatting keeps the prefix and suffix, places the markers around the selection, and grows the length by 4, 2 or 7 |
| `EditorProperties.FormatRoundTrip` | src/components/notes/NoteEditor.tsx:153-154 | removing the markers from their known positions gives back the original content |
| `EditorProperties.FormatAtCursor` | src/components/notes/NoteEditor.tsx:138-154 | with an empty selection, the adjacent marker pair is inserted at the cursor |
| `EditorProperties.FormatBoldScenario` | src/components/notes/NoteEditor.tsx:141-154 | bold on "fox" in "the fox ran" gives "the **fox** ran" |
| `EditorProperties.BlurTitleIdempotent` | src/components/notes/NoteEditor.tsx:221-225 | blurring twice is blurring once |
| `EditorProperties.BlurTitleScenario` | src/components/notes/NoteEditor.tsx:221-225 | a title of spaces, a tab and a newline falls back to the stored title; " milk " is kept |
| `EditorProperties.ResetSchedulesNoSave` | src/components/notes/NoteEditor.tsx:95-114 | right after a note is loaded the draft matches it, so no save is scheduled |
| `EditorProperties.EditTitleSchedulesSave` | src/components/notes/NoteEditor.tsx:109-124 | typing a title different from the stored one schedules a save of the draft for that note |
| `EditorProperties.SaveReturnsToIdle` | src/components/notes/NoteEditor.tsx:109-119 | once the scheduled save has gone through the store's update, the shown note matches the draft and no save is scheduled |
| `EditorProperties.SummarizeGuardAgreesWithStore` | src/components/notes/NoteEditor.tsx:160-169 | when the editor asks for a summary, the store does not refuse: it gets the shown note's content and raises the loading flag |
| `EditorProperties.SummaryResultShown` | src/components/notes/NoteEditor.tsx:169-183 | after an accepted request, the user sees the summary exactly when the summarizer returned a non-empty one |

## Left out

- Rendering: JSX, React hooks and effect scheduling, toasts, dialogs, the summary dialog's open state, and the summarize button's disabled state. Only the pure rules are kept.
- The storage layer's `create`/`persist` mechanics, `localStorage`, JSON serialisation, the storage key, and the `onRehydrateStorage` callback. Persistence is modelled only as `Partialize` and `Restore`.
- `crypto.randomUUID()`, `Date.now()` and the `summarizeNote` AI call are inputs. Id freshness is a precondition of the invariant lemmas, because the code never checks it.
- NoteStore.AddNote: takes one clock reading for both timestamps. The source calls `Date.now()` twice, and the two readings can differ by a millisecond.
- Async interleaving of overlapping `generateSummary` calls is concurrency. The two halves, `BeginSummary` and `CompleteSummary`, can be applied to different states, but no schedule of overlapping calls is modelled.
- Real timers. The 50 ms selection delay, the 100 ms divergence timer and the 500 ms debounce wait are abstracted. The event `Event.Fire`, handled by `Debounce.Elapse`, marks the moment a timer expires. The 100 ms effect timer, which is also cancelled and rescheduled, is not composed with the debouncer.
- Character positions are counted in Unicode scalar values. The browser counts selection offsets and `substring` indices in UTF-16 code units, so the two agree only for text in the Basic Multilingual Plane.
- `NotePreview.tsx` (markdown rendering through an external library), `NoteItem.tsx`, `NoteList.tsx`, `AppHeader.tsx` and `page.tsx`: presentation only. The page's fallback only calls `setHydrated`.
