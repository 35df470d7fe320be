/** Properties relating several store actions, and the invariants they keep. */
module StoreProperties {
  import opened NoteTypes
  import opened NoteStore

  // ---------------------------------------------------------------------------
  // addNote

  /** A fresh id keeps ids unique, and the new note's timestamps are ordered. */
  lemma AddNotePreservesValid(s: StoreState, id: string, now: int)
    requires Valid(s)
    requires !HasNote(s.notes, id)
    ensures Valid(AddNote(s, id, now).0)
  {
    var r := AddNote(s, id, now).0;
    forall i, j | 0 <= i < j < |r.notes| ensures r.notes[i].id != r.notes[j].id {
      assert r.notes[j] == s.notes[j - 1];
      if i > 0 {
        assert r.notes[i] == s.notes[i - 1];
      }
    }
  }

  /** The deferred selection step that follows `addNote` makes the new note
      the active one, whatever the list already held. */
  lemma AddThenSelectActivatesNewNote(s: StoreState, id: string, now: int)
    ensures var (s1, note) := AddNote(s, id, now);
            var s2 := SetActiveNoteId(s1, Some(note.id));
            s2.activeNoteId == Some(id) && FindNote(s2.notes, id) == Some(note)
  {
    var (s1, note) := AddNote(s, id, now);
    assert FindIndex(s1.notes, id) == Some(0);
  }

  /** `addNote` called once for each id of `ids`, in order, the `k`-th call
      reading the clock value `times[k]`. */
  function AddNotes(s: StoreState, ids: seq<string>, times: seq<int>): (r: StoreState)
    requires |times| == |ids|
    ensures |r.notes| == |s.notes| + |ids|
    ensures r.activeNoteId == s.activeNoteId
    decreases |ids|
  {
    if |ids| == 0 then s else AddNotes(AddNote(s, ids[0], times[0]).0, ids[1..], times[1..])
  }

  predicate Distinct(ids: seq<string>) {
    forall i, j :: 0 <= i < j < |ids| ==> ids[i] != ids[j]
  }

  /** A note is found in `[n] + notes` exactly when it is `n` or found in `notes`. */
  lemma HasNotePrepend(n: Note, notes: seq<Note>, id: string)
    ensures HasNote([n] + notes, id) <==> n.id == id || HasNote(notes, id)
  {
    assert ([n] + notes)[0] == n;
    if HasNote(notes, id) {
      var i :| 0 <= i < |notes| && notes[i].id == id;
      assert ([n] + notes)[i + 1] == notes[i];
    }
    if HasNote([n] + notes, id) && n.id != id {
      var i :| 0 <= i < |[n] + notes| && ([n] + notes)[i].id == id;
      assert i > 0;
      assert notes[i - 1] == ([n] + notes)[i];
      assert notes[i - 1].id == id;
    }
  }

  /** After a run of `addNote` calls with pairwise distinct fresh ids, the ids
      are still unique, the new notes come first (latest first) and the old
      list follows unchanged. */
  lemma {:induction false} AddNotesOrderAndUniqueness(s: StoreState, ids: seq<string>, times: seq<int>)
    requires |times| == |ids|
    requires Valid(s)
    requires Distinct(ids)
    requires forall k :: 0 <= k < |ids| ==> !HasNote(s.notes, ids[k])
    ensures var r := AddNotes(s, ids, times);
            && Valid(r)
            && r.notes[|ids|..] == s.notes
            && forall k :: 0 <= k < |ids| ==> r.notes[k] == NewNote(ids[|ids| - 1 - k], times[|ids| - 1 - k])
    decreases |ids|
  {
    if |ids| > 0 {
      var s1 := AddNote(s, ids[0], times[0]).0;
      AddNotePreservesValid(s, ids[0], times[0]);
      var rest := ids[1..];
      assert Distinct(rest) by {
        forall i, j | 0 <= i < j < |rest| ensures rest[i] != rest[j] {
          assert rest[i] == ids[i + 1] && rest[j] == ids[j + 1];
        }
      }
      forall k | 0 <= k < |rest| ensures !HasNote(s1.notes, rest[k]) {
        assert rest[k] == ids[k + 1];
        HasNotePrepend(NewNote(ids[0], times[0]), s.notes, rest[k]);
      }
      var later := times[1..];
      AddNotesOrderAndUniqueness(s1, rest, later);
      var r := AddNotes(s1, rest, later);
      assert r == AddNotes(s, ids, times);
      assert r.notes[|ids|..] == s1.notes[1..] by {
        assert r.notes[|rest|..] == s1.notes;
      }
      forall k | 0 <= k < |ids| ensures r.notes[k] == NewNote(ids[|ids| - 1 - k], times[|ids| - 1 - k]) {
        if k < |rest| {
          assert ids[|ids| - 1 - k] == rest[|rest| - 1 - k];
          assert times[|ids| - 1 - k] == later[|rest| - 1 - k];
        } else {
          assert r.notes[k] == s1.notes[0];
        }
      }
    }
  }

  // ---------------------------------------------------------------------------
  // updateNote

  /** With a clock that is not behind any creation time, `updateNote` keeps the
      store valid. */
  lemma UpdateNotePreservesValid(s: StoreState, id: string, title: string, content: string, now: int)
    requires Valid(s)
    requires ClockNotBefore(s.notes, now)
    ensures Valid(UpdateNote(s, id, title, content, now))
  {
  }

  /** When the clock has advanced past a note's last update, updating that note
      strictly increases its `updatedAt`. */
  lemma UpdateNoteAdvancesTimestamp(s: StoreState, id: string, title: string, content: string, now: int, i: nat)
    requires i < |s.notes| && s.notes[i].id == id
    requires s.notes[i].updatedAt < now
    ensures UpdateNote(s, id, title, content, now).notes[i].updatedAt > s.notes[i].updatedAt
  {
  }

  /** After an update, looking the id up finds a note with the new text. */
  lemma UpdateThenFind(s: StoreState, id: string, title: string, content: string, now: int)
    requires HasNote(s.notes, id)
    ensures var r := UpdateNote(s, id, title, content, now);
            FindNote(r.notes, id).Some? && FindNote(r.notes, id).value.title == title
            && FindNote(r.notes, id).value.content == content
  {
    var r := UpdateNote(s, id, title, content, now);
    var k := FindIndex(s.notes, id).value;
    assert r.notes[k].id == id;
    assert HasNote(r.notes, id);
    var k' := FindIndex(r.notes, id).value;
    assert s.notes[k'].id == id;
  }

  // ---------------------------------------------------------------------------
  // deleteNote

  /** Filtering distributes over concatenation: `deleteNote` keeps the
      surviving notes in their original order. */
  lemma {:induction false} WithoutIdAppend(a: seq<Note>, b: seq<Note>, id: string)
    ensures WithoutId(a + b, id) == WithoutId(a, id) + WithoutId(b, id)
    decreases |a|
  {
    if |a| == 0 {
      assert a + b == b;
    } else {
      assert (a + b)[0] == a[0];
      assert (a + b)[1..] == a[1..] + b;
      WithoutIdAppend(a[1..], b, id);
    }
  }

  /** With unique ids, deleting a present id removes exactly that one entry
      and leaves the rest in order. */
  lemma DeleteRemovesExactlyOne(s: StoreState, k: nat)
    requires UniqueIds(s.notes)
    requires k < |s.notes|
    ensures DeleteNote(s, s.notes[k].id).notes == s.notes[..k] + s.notes[k + 1..]
    ensures |DeleteNote(s, s.notes[k].id).notes| == |s.notes| - 1
  {
    var id := s.notes[k].id;
    var pre, post := s.notes[..k], s.notes[k + 1..];
    assert s.notes == pre + ([s.notes[k]] + post);
    WithoutIdAppend(pre, [s.notes[k]] + post, id);
    WithoutIdAppend([s.notes[k]], post, id);
    IdOccursOnce(s.notes, k);
    assert WithoutId([s.notes[k]], id) == [];
  }

  /** With unique ids, the id at `k` occurs neither before nor after `k`. */
  lemma IdOccursOnce(notes: seq<Note>, k: nat)
    requires UniqueIds(notes)
    requires k < |notes|
    ensures !HasNote(notes[..k], notes[k].id) && !HasNote(notes[k + 1..], notes[k].id)
  {
    var id, pre, post := notes[k].id, notes[..k], notes[k + 1..];
    forall j | 0 <= j < |pre| ensures pre[j].id != id {
      assert pre[j] == notes[j];
    }
    forall j | 0 <= j < |post| ensures post[j].id != id {
      assert post[j] == notes[k + 1 + j];
    }
  }

  /** A list with unique ids whose head's id occurs nowhere else. */
  lemma UniqueCons(n: Note, rest: seq<Note>)
    requires UniqueIds(rest)
    requires forall m :: m in rest ==> m.id != n.id
    ensures UniqueIds([n] + rest)
  {
    var r := [n] + rest;
    forall i, j | 0 <= i < j < |r| ensures r[i].id != r[j].id {
      assert r[j] == rest[j - 1];
      if i > 0 {
        assert r[i] == rest[i - 1];
      }
    }
  }

  /** The tail of a list with unique ids has unique ids, none equal to the head's. */
  lemma UniqueSplit(notes: seq<Note>)
    requires |notes| > 0 && UniqueIds(notes)
    ensures UniqueIds(notes[1..])
    ensures forall m :: m in notes[1..] ==> m.id != notes[0].id
  {
    var tail := notes[1..];
    forall i, j | 0 <= i < j < |tail| ensures tail[i].id != tail[j].id {
      assert tail[i] == notes[i + 1] && tail[j] == notes[j + 1];
    }
    forall m | m in tail ensures m.id != notes[0].id {
      var k :| 0 <= k < |tail| && tail[k] == m;
      assert notes[k + 1] == m;
    }
  }

  /** Filtering a list with unique ids keeps the ids unique. */
  lemma {:induction false} WithoutIdPreservesUnique(notes: seq<Note>, id: string)
    requires UniqueIds(notes)
    ensures UniqueIds(WithoutId(notes, id))
    decreases |notes|
  {
    if |notes| > 0 {
      UniqueSplit(notes);
      WithoutIdPreservesUnique(notes[1..], id);
      if notes[0].id != id {
        UniqueCons(notes[0], WithoutId(notes[1..], id));
      }
    }
  }

  lemma DeleteNotePreservesValid(s: StoreState, id: string)
    requires Valid(s)
    ensures Valid(DeleteNote(s, id))
  {
    WithoutIdPreservesUnique(s.notes, id);
  }

  // ---------------------------------------------------------------------------
  // generateSummary

  /** A refused request touches nothing: in particular the loading flag is
      never raised, neither by the first step nor by the whole action. */
  lemma RefusedSummaryLeavesStateAlone(s: StoreState, id: string, summarize: string -> SummarizeOutcome)
    requires !HasNote(s.notes, id) || FindNote(s.notes, id).value.content == []
    ensures BeginSummary(s, id) == s
    ensures GenerateSummary(s, id, summarize) == (s, None)
  {
  }

  /** A successful summary changes only the summary of the notes with that id. */
  lemma SummarySuccessChangesOnlySummary(s: StoreState, id: string, summarize: string -> SummarizeOutcome)
    requires SummaryInput(s, id).Some?
    requires summarize(SummaryInput(s, id).value).Summarized?
    ensures var (r, out) := GenerateSummary(s, id, summarize);
            var text := summarize(SummaryInput(s, id).value).summary;
            && |r.notes| == |s.notes|
            && out == Some(text)
            && !r.isLoadingSummary
            && (forall i :: 0 <= i < |s.notes| && s.notes[i].id == id ==> r.notes[i] == s.notes[i].(summary := Some(text)))
            && (forall i :: 0 <= i < |s.notes| && s.notes[i].id != id ==> r.notes[i] == s.notes[i])
  {
  }

  /** A summarizer answer that arrives after its note was deleted changes no note. */
  lemma LateSummaryForDeletedNote(s: StoreState, id: string, outcome: SummarizeOutcome)
    requires !HasNote(s.notes, id)
    ensures CompleteSummary(s, id, outcome).0.notes == s.notes
  {
    var r := CompleteSummary(s, id, outcome).0;
    assert forall i :: 0 <= i < |s.notes| ==> s.notes[i].id != id;
  }

  lemma CompleteSummaryPreservesValid(s: StoreState, id: string, outcome: SummarizeOutcome)
    requires Valid(s)
    ensures Valid(CompleteSummary(s, id, outcome).0)
  {
  }

  // ---------------------------------------------------------------------------
  // View mode, hydration, persistence

  lemma ToggleViewModeInvolution(s: StoreState)
    ensures ToggleViewMode(ToggleViewMode(s)) == s
  {
  }

  lemma SetViewModeIdempotent(s: StoreState, mode: ViewMode)
    ensures SetViewMode(SetViewMode(s, mode), mode) == SetViewMode(s, mode)
  {
  }

  lemma SetHydratedIdempotent(s: StoreState)
    ensures SetHydrated(SetHydrated(s)) == SetHydrated(s)
  {
  }

  /** Restoring a state's own slice gives the state back, and the slice of a
      restored state is the slice that was restored. */
  lemma PersistRoundTrip(s: StoreState, p: PersistedSlice)
    ensures Restore(s, Partialize(s)) == s
    ensures Partialize(Restore(s, p)) == p
  {
  }

  /** Restoring one state's slice over another recovers exactly the three
      persisted fields and keeps the two transient flags. */
  lemma RestoreRecoversPersistedFields(current: StoreState, saved: StoreState)
    ensures var r := Restore(current, Partialize(saved));
            && r.notes == saved.notes && r.activeNoteId == saved.activeNoteId && r.viewMode == saved.viewMode
            && r.isLoadingSummary == current.isLoadingSummary && r.isHydrated == current.isHydrated
  {
  }

  // ---------------------------------------------------------------------------
  // Scenarios

  /** Start empty, add a note, select it, edit it, delete it. */
  lemma CreateEditDeleteScenario(id: string, t0: int, t1: int)
    ensures var (s1, note) := AddNote(Initial, id, t0);
            && note.title == "New Note" && note.content == "" && note.summary == None
            && var s2 := SetActiveNoteId(s1, Some(note.id));
            var s3 := UpdateNote(s2, id, "Hi", "Hello world", t1);
            && FindNote(s3.notes, id).Some?
            && FindNote(s3.notes, id).value.title == "Hi"
            && FindNote(s3.notes, id).value.content == "Hello world"
            && var s4 := DeleteNote(s3, id);
            s4.notes == [] && s4.activeNoteId == None
  {
    var (s1, note) := AddNote(Initial, id, t0);
    var s2 := SetActiveNoteId(s1, Some(note.id));
    assert HasNote(s2.notes, id) by { assert s2.notes[0].id == id; }
    UpdateThenFind(s2, id, "Hi", "Hello world", t1);
  }

  /** A summarizer that answers "A fox story." has that summary stored. */
  lemma SummaryScenario(id: string, t: int)
    ensures var n := Note(id, "Fox", "The quick brown fox", t, t, None);
            var s := StoreState([n], Some(id), false, true, Edit);
            var (r, out) := GenerateSummary(s, id, (text: string) => Summarized("A fox story."));
            && out == Some("A fox story.")
            && r.notes == [n.(summary := Some("A fox story."))]
            && !r.isLoadingSummary
  {
    var n := Note(id, "Fox", "The quick brown fox", t, t, None);
    var s := StoreState([n], Some(id), false, true, Edit);
    assert FindIndex(s.notes, id) == Some(0);
  }
}
