/** Properties of the editor rules, alone and together with the store. */
module EditorProperties {
  import opened NoteTypes
  import opened JsString
  import NoteStore
  import StoreProperties
  import opened NoteEditor

  // ---------------------------------------------------------------------------
  // Inline formatting

  /** The content with the two markers inserted by `FormatSelection` taken out
      again, located by their known positions. */
  function RemoveMarkers(r: string, start: nat, end: nat, k: FormatKind): (c: string)
    requires start <= end
    requires end + |OpenMarker(k)| + |CloseMarker(k)| <= |r|
  {
    var o, c := |OpenMarker(k)|, |CloseMarker(k)|;
    r[..start] + r[start + o..end + o] + r[end + o + c..]
  }

  /** How much `handleFormat` lengthens the content for each kind of format. */
  function MarkerLength(k: FormatKind): nat {
    match k
    case Bold => 4
    case Italic => 2
    case Underline => 7
  }

  /** The three pieces of `p + q + r` can be sliced back out by their lengths. */
  lemma SlicesOfThree<T>(p: seq<T>, q: seq<T>, r: seq<T>)
    ensures var x := p + q + r;
            && x[..|p|] == p && x[|p|..|p| + |q|] == q && x[|p| + |q|..] == r
  {
    var x := p + q + r;
    assert x[..|p| + |q|] == p + q;
  }

  /** Slicing within a prefix of `x` is slicing `x` itself. */
  lemma SliceOfPrefix<T>(x: seq<T>, i: nat, j: nat, n: nat)
    requires i <= j <= n <= |x|
    ensures x[..n][..j] == x[..j] && x[..n][i..j] == x[i..j]
  {
  }

  /** The five pieces of `a + o + m + c + e` can be sliced back out by their lengths. */
  lemma SlicesOfFive<T>(a: seq<T>, o: seq<T>, m: seq<T>, c: seq<T>, e: seq<T>)
    ensures var x := a + o + m + c + e;
            var i, j, k, l := |a|, |a| + |o|, |a| + |o| + |m|, |a| + |o| + |m| + |c|;
            && |x| == l + |e|
            && x[..i] == a && x[i..j] == o && x[j..k] == m && x[k..l] == c && x[l..] == e
  {
    var x := a + o + m + c + e;
    var i, j, k := |a|, |a| + |o|, |a| + |o| + |m|;
    SlicesOfThree(a + o + m, c, e);
    SlicesOfThree(a, o, m);
    SliceOfPrefix(x, 0, i, k);
    SliceOfPrefix(x, i, j, k);
    SliceOfPrefix(x, j, k, k);
  }

  /** Formatting a selection inside the content keeps the text before the
      selection and after it, and grows the content by exactly the markers'
      length: 4 for bold, 2 for italic, 7 for underline. */
  lemma FormatKeepsSurroundings(content: string, start: nat, end: nat, k: FormatKind)
    requires start <= end <= |content|
    ensures var r := FormatSelection(content, start, end, k);
            && |r| == |content| + MarkerLength(k)
            && r[..start] == content[..start]
            && r[start..start + |OpenMarker(k)|] == OpenMarker(k)
            && r[end + |OpenMarker(k)|..end + MarkerLength(k)] == CloseMarker(k)
            && r[end + MarkerLength(k)..] == content[end..]
  {
    var o, c := OpenMarker(k), CloseMarker(k);
    assert |o| + |c| == MarkerLength(k);
    SlicesOfFive(content[..start], o, content[start..end], c, content[end..]);
  }

  /** Wrapping `content[start..end]` in any two markers and cutting them out
      again by their lengths gives back `content`. */
  lemma SpliceRoundTrip(content: string, start: nat, end: nat, o: string, c: string)
    requires start <= end <= |content|
    ensures var r := content[..start] + o + content[start..end] + c + content[end..];
            && end + |o| + |c| <= |r|
            && r[..start] + r[start + |o|..end + |o|] + r[end + |o| + |c|..] == content
  {
    SlicesOfFive(content[..start], o, content[start..end], c, content[end..]);
    assert content == content[..start] + content[start..end] + content[end..];
  }

  /** Removing the markers from where they were put gives back the original
      content: formatting loses nothing. */
  lemma FormatRoundTrip(content: string, start: nat, end: nat, k: FormatKind)
    requires start <= end <= |content|
    ensures end + |OpenMarker(k)| + |CloseMarker(k)| <= |FormatSelection(content, start, end, k)|
    ensures RemoveMarkers(FormatSelection(content, start, end, k), start, end, k) == content
  {
    SpliceRoundTrip(content, start, end, OpenMarker(k), CloseMarker(k));
  }

  /** With an empty selection (a bare cursor) the marker pair is inserted at
      the cursor, side by side. */
  lemma FormatAtCursor(content: string, pos: nat, k: FormatKind)
    requires pos <= |content|
    ensures FormatSelection(content, pos, pos, k) == content[..pos] + OpenMarker(k) + CloseMarker(k) + content[pos..]
  {
    assert content[pos..pos] == [];
  }

  /** Bold on the word "fox" of "the fox ran". */
  lemma FormatBoldScenario()
    ensures FormatSelection("the fox ran", 4, 7, Bold) == "the **fox** ran"
  {
    var s := "the fox ran";
    assert s[..4] == "the " && s[4..7] == "fox" && s[7..] == " ran";
  }

  // ---------------------------------------------------------------------------
  // Title blur

  /** Blurring twice is blurring once: the fallback title is never replaced
      again. */
  lemma BlurTitleIdempotent(d: Draft, stored: Note)
    ensures BlurTitle(BlurTitle(d, stored), stored) == BlurTitle(d, stored)
  {
    var r := BlurTitle(d, stored);
    if AllWhitespace(d.title) && stored.title == [] {
      assert !IsJsWhitespace(UntitledTitle[0]);
    }
  }

  /** A title made only of spaces and line breaks counts as blank. */
  lemma BlurTitleScenario(stored: Note)
    requires stored.title == "Groceries"
    ensures BlurTitle(Draft(" \t\n", "c", None, true), stored).title == "Groceries"
    ensures BlurTitle(Draft(" milk ", "c", None, true), stored).title == " milk "
  {
    var blank, word := " \t\n", " milk ";
    assert blank[0] == ' ' && blank[1] == '\t' && blank[2] == '\n';
    assert AllWhitespace(blank);
    assert word[1] == 'm';
    assert !AllWhitespace(word);
  }

  // ---------------------------------------------------------------------------
  // Draft and store together

  /** Right after a note is loaded the draft mirrors it, so no save is
      scheduled; with no note loaded there is nothing to save either. */
  lemma ResetSchedulesNoSave(active: Option<Note>)
    ensures PendingSave(active, ResetDraft(active)).None?
    ensures active.Some? ==> !Diverges(active.value, ResetDraft(active))
  {
  }

  /** Typing a title that differs from the stored one schedules a save of the
      whole draft for that note. */
  lemma EditTitleSchedulesSave(n: Note, d: Draft, title: string)
    requires title != n.title
    ensures PendingSave(Some(n), EditTitle(d, title)) == Some(SaveArgs(n.id, title, d.content))
  {
  }

  /** Editing: typing, then the save running through the store, returns the
      editor to idle: the note it now shows matches the draft, so no further
      save is scheduled. */
  lemma SaveReturnsToIdle(s: NoteStore.StoreState, d: Draft, now: int)
    requires PendingSave(ActiveNote(s.notes, s.activeNoteId), d).Some?
    ensures var args := PendingSave(ActiveNote(s.notes, s.activeNoteId), d).value;
            var s' := NoteStore.UpdateNote(s, args.id, args.title, args.content, now);
            PendingSave(ActiveNote(s'.notes, s'.activeNoteId), d).None?
  {
    var n := ActiveNote(s.notes, s.activeNoteId).value;
    var id := s.activeNoteId.value;
    assert n.id == id;
    assert NoteStore.HasNote(s.notes, id);
    StoreProperties.UpdateThenFind(s, id, d.title, d.content, now);
  }

  /** The editor's guard and the store's guard agree: when the editor asks for
      a summary of the note it shows, the store does not refuse and raises the
      loading flag; when the editor refuses, no store call is made at all. */
  lemma SummarizeGuardAgreesWithStore(s: NoteStore.StoreState)
    ensures var active := ActiveNote(s.notes, s.activeNoteId);
            SummarizeTarget(active).Some? ==>
              && NoteStore.SummaryInput(s, SummarizeTarget(active).value) == Some(active.value.content)
              && NoteStore.BeginSummary(s, SummarizeTarget(active).value).isLoadingSummary
  {
  }

  /** A summary the store produced is shown; a refusal or failure is reported. */
  lemma SummaryResultShown(s: NoteStore.StoreState, d: Draft, summarize: string -> NoteStore.SummarizeOutcome)
    requires SummarizeTarget(ActiveNote(s.notes, s.activeNoteId)).Some?
    ensures var id := SummarizeTarget(ActiveNote(s.notes, s.activeNoteId)).value;
            var (_, result) := NoteStore.GenerateSummary(s, id, summarize);
            var (d', notice) := OnSummaryResult(d, result);
            notice == SummaryGenerated <==>
              summarize(NoteStore.SummaryInput(s, id).value).Summarized?
              && summarize(NoteStore.SummaryInput(s, id).value).summary != []
  {
  }
}
