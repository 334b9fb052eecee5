/**
  The notes editor of app/page.tsx: the component's state, the handlers that
  overwrite it, and the two views it derives from it on every render.

  The pure builders (spread, `map`, `filter`, `find`, `new Set`) are
  functions; each handler is a method of `MarkdownNotesApp` that applies
  them atomically. Clock readings and the new note's id are inputs.
 */
module NotesEditor {
  import opened JsArrays
  import opened JsStrings

  /** Milliseconds since the epoch, as `new Date()` reads it. */
  type Timestamp = int

  datatype Note = Note(
    id: string,
    title: string,
    content: string,
    tags: seq<string>,
    createdAt: Timestamp,
    updatedAt: Timestamp)

  /** A `Partial<Note>`: each field is either given or absent. */
  datatype NoteUpdate = NoteUpdate(
    id: Option<string>,
    title: Option<string>,
    content: Option<string>,
    tags: Option<seq<string>>,
    createdAt: Option<Timestamp>,
    updatedAt: Option<Timestamp>)

  /** The partial update that sets only `tags`. */
  function TagsUpdate(tags: seq<string>): NoteUpdate {
    NoteUpdate(None, None, None, Some(tags), None, None)
  }

  const UntitledTitle := "Untitled Note"
  const NewNoteContent := "# New Note\n\nStart writing..."

  /** The note `createNewNote` builds. */
  function NewNote(id: string, now: Timestamp): (n: Note)
    ensures n.id == id && n.title == UntitledTitle && n.content == NewNoteContent
    ensures n.tags == [] && n.createdAt == now && n.updatedAt == now
  {
    Note(id, UntitledTitle, NewNoteContent, [], now, now)
  }

  /**
    `{ ...note, ...updates, updatedAt: now }`: every field the update gives
    overrides the note's, except `updatedAt`, which is always `now`.
   */
  function Merge(note: Note, updates: NoteUpdate, now: Timestamp): (m: Note)
    ensures m.updatedAt == now
    ensures m.id == (if updates.id.Some? then updates.id.value else note.id)
    ensures m.title == (if updates.title.Some? then updates.title.value else note.title)
    ensures m.content == (if updates.content.Some? then updates.content.value else note.content)
    ensures m.tags == (if updates.tags.Some? then updates.tags.value else note.tags)
    ensures m.createdAt == (if updates.createdAt.Some? then updates.createdAt.value else note.createdAt)
  {
    var n := note;
    var n := if updates.id.Some? then n.(id := updates.id.value) else n;
    var n := if updates.title.Some? then n.(title := updates.title.value) else n;
    var n := if updates.content.Some? then n.(content := updates.content.value) else n;
    var n := if updates.tags.Some? then n.(tags := updates.tags.value) else n;
    var n := if updates.createdAt.Some? then n.(createdAt := updates.createdAt.value) else n;
    n.(updatedAt := now)
  }

  /** `notes.map(note => note.id === id ? merged : note)` */
  function ReplaceById(notes: seq<Note>, id: string, merged: Note): (r: seq<Note>)
    ensures |r| == |notes|
    ensures forall i :: 0 <= i < |notes| && notes[i].id == id ==> r[i] == merged
    ensures forall i :: 0 <= i < |notes| && notes[i].id != id ==> r[i] == notes[i]
  {
    if notes == [] then []
    else [if notes[0].id == id then merged else notes[0]] + ReplaceById(notes[1..], id, merged)
  }

  /** `notes.filter(note => note.id !== id)` */
  function WithoutId(notes: seq<Note>, id: string): (r: seq<Note>)
    ensures IsSubsequence(r, notes)
    ensures forall i :: 0 <= i < |r| ==> r[i].id != id
    ensures forall i :: 0 <= i < |notes| && notes[i].id != id ==> notes[i] in r
    ensures forall n :: multiset(r)[n] == if n.id != id then multiset(notes)[n] else 0
  {
    var keep := (note: Note) => note.id != id;
    FilterIsSubsequence(notes, keep);
    Filter(notes, keep)
  }

  /**
    The selection after deleting the selected note:
    `notes.find(note => note.id !== id && notes.length > 1) || null`, over
    the list as it was before the delete.
   */
  function NextSelection(notes: seq<Note>, id: string): (r: Option<Note>)
    ensures r.None? <==> |notes| <= 1 || forall i :: 0 <= i < |notes| ==> notes[i].id == id
    ensures r.Some? ==> exists i :: 0 <= i < |notes| && notes[i] == r.value && r.value.id != id
                                    && forall j :: 0 <= j < i ==> notes[j].id == id
  {
    Find(notes, (note: Note) => note.id != id && |notes| > 1)
  }

  /** `tags.filter(tag => tag !== tagToRemove)` */
  function WithoutTag(tags: seq<string>, tagToRemove: string): (r: seq<string>)
    ensures IsSubsequence(r, tags)
    ensures forall i :: 0 <= i < |r| ==> r[i] != tagToRemove && r[i] in tags
    ensures forall i :: 0 <= i < |tags| && tags[i] != tagToRemove ==> tags[i] in r
    ensures forall t :: multiset(r)[t] == if t != tagToRemove then multiset(tags)[t] else 0
  {
    var keep := (tag: string) => tag != tagToRemove;
    FilterIsSubsequence(tags, keep);
    Filter(tags, keep)
  }

  /**
    The tag `addTag` would add for the text typed: `newTag.trim().toLowerCase()`.
    It is empty exactly when the trimmed text is, as long as the trimmed text,
    free of capitals, and does not start or end with white space.
   */
  function TagCandidate(newTag: string): (tag: string)
    ensures tag == "" <==> Trim(newTag) == ""
    ensures |tag| == |Trim(newTag)|
    ensures forall k :: 0 <= k < |tag| ==> !IsAsciiUpper(tag[k])
    ensures tag != [] ==> !IsWhiteSpace(tag[0]) && !IsWhiteSpace(tag[|tag| - 1])
  {
    LowerCaseKeepsWhiteSpace();
    ToLowerCase(Trim(newTag))
  }

  /** Lower-casing neither creates nor removes white space. */
  lemma LowerCaseKeepsWhiteSpace()
    ensures forall c :: IsWhiteSpace(ToLowerChar(c)) <==> IsWhiteSpace(c)
  {
    forall c | IsAsciiUpper(c) ensures !IsWhiteSpace(ToLowerChar(c)) && !IsWhiteSpace(c) {
      assert 'a' <= ToLowerChar(c) <= 'z';
    }
  }

  /** A candidate is already normalised: typing it again yields the same tag. */
  lemma TagCandidateIdempotent(newTag: string)
    ensures TagCandidate(TagCandidate(newTag)) == TagCandidate(newTag)
  {
    var tag := TagCandidate(newTag);
    if tag != [] {
      TrimOfUnpadded(tag);
    } else {
      assert Trim(tag) == "" by { assert TrimStart(tag) == tag; }
    }
    ToLowerCaseIdempotent(Trim(newTag));
  }

  /** The selected note's tags after `addTag`: the candidate is appended unless already present. */
  function AppendIfAbsent(tags: seq<string>, tag: string): (r: seq<string>)
    ensures tag in r
    ensures tag in tags ==> r == tags
    ensures tag !in tags ==> r == tags + [tag]
  {
    if tag in tags then tags else tags + [tag]
  }

  /** `prev.includes(tag) ? prev.filter(t => t !== tag) : [...prev, tag]` */
  function Toggle(prev: seq<string>, tag: string): (r: seq<string>)
    ensures tag in r <==> tag !in prev
    ensures forall i :: 0 <= i < |prev| && prev[i] != tag ==> prev[i] in r
    ensures forall i :: 0 <= i < |r| && r[i] != tag ==> r[i] in prev
  {
    if tag in prev then WithoutTag(prev, tag) else prev + [tag]
  }

  /** `notes.flatMap(note => note.tags)` */
  function AllTagOccurrences(notes: seq<Note>): (r: seq<string>)
    ensures forall i, k :: 0 <= i < |notes| && 0 <= k < |notes[i].tags| ==> notes[i].tags[k] in r
    ensures forall j :: 0 <= j < |r| ==> exists i :: 0 <= i < |notes| && r[j] in notes[i].tags
  {
    if notes == [] then []
    else
      var rest := AllTagOccurrences(notes[1..]);
      assert forall i :: 1 <= i < |notes| ==> notes[1..][i - 1] == notes[i];
      notes[0].tags + rest
  }

  /** `getAllTags()`: `[...new Set(notes.flatMap(note => note.tags))]`. */
  function DistinctTags(notes: seq<Note>): (r: seq<string>)
    ensures NoDup(r)
    ensures forall i, k :: 0 <= i < |notes| && 0 <= k < |notes[i].tags| ==> notes[i].tags[k] in r
    ensures forall j :: 0 <= j < |r| ==> exists i :: 0 <= i < |notes| && r[j] in notes[i].tags
  {
    Dedup(AllTagOccurrences(notes))
  }

  /**
    The filter of `filteredNotes`: the title or the content contains the
    query, ignoring case, and either no tag filter is selected or the note
    carries one of the selected tags.
   */
  function Matches(note: Note, searchQuery: string, selectedTags: seq<string>): (b: bool)
    ensures b <==>
              && ((exists i :: OccursAt(ToLowerCase(note.title), ToLowerCase(searchQuery), i))
                  || (exists i :: OccursAt(ToLowerCase(note.content), ToLowerCase(searchQuery), i)))
              && (selectedTags == [] || exists k :: 0 <= k < |selectedTags| && selectedTags[k] in note.tags)
  {
    IncludesIffOccurs(ToLowerCase(note.title), ToLowerCase(searchQuery));
    IncludesIffOccurs(ToLowerCase(note.content), ToLowerCase(searchQuery));
    && (Includes(ToLowerCase(note.title), ToLowerCase(searchQuery))
        || Includes(ToLowerCase(note.content), ToLowerCase(searchQuery)))
    && (|selectedTags| == 0 || exists tag :: tag in selectedTags && tag in note.tags)
  }

  /** `filteredNotes`: the notes that match, in list order. */
  function NotesMatching(notes: seq<Note>, searchQuery: string, selectedTags: seq<string>): (r: seq<Note>)
    ensures IsSubsequence(r, notes)
    ensures forall i :: 0 <= i < |r| ==> r[i] in notes && Matches(r[i], searchQuery, selectedTags)
    ensures forall i :: 0 <= i < |notes| && Matches(notes[i], searchQuery, selectedTags) ==> notes[i] in r
    ensures forall n :: multiset(r)[n] == if Matches(n, searchQuery, selectedTags) then multiset(notes)[n] else 0
  {
    var keep := (note: Note) => Matches(note, searchQuery, selectedTags);
    FilterIsSubsequence(notes, keep);
    Filter(notes, keep)
  }

  /** `getAllTags()` lists the tags in the order in which they first occur across the notes. */
  lemma DistinctTagsFirstOccurrenceOrder(notes: seq<Note>)
    ensures var all := AllTagOccurrences(notes);
            var r := DistinctTags(notes);
            forall i, j :: 0 <= i < j < |r| ==> FirstIndexOf(all, r[i]) < FirstIndexOf(all, r[j])
  {
    DedupFirstOccurrenceOrder(AllTagOccurrences(notes));
  }

  /** The note selected after a delete is one that survives the delete. */
  lemma NextSelectionSurvivesDelete(notes: seq<Note>, id: string)
    ensures NextSelection(notes, id).Some? ==> NextSelection(notes, id).value in WithoutId(notes, id)
  {
  }

  /**
    After an update, the merged copy is listed as soon as some entry carried
    the selection's id; when none did, the list keeps no trace of it.
   */
  lemma MergedCopyIsListed(notes: seq<Note>, id: string, merged: Note)
    ensures (exists i :: 0 <= i < |notes| && notes[i].id == id) ==> merged in ReplaceById(notes, id, merged)
    ensures (forall i :: 0 <= i < |notes| ==> notes[i].id != id) ==> ReplaceById(notes, id, merged) == notes
  {
    var r := ReplaceById(notes, id, merged);
    if exists i :: 0 <= i < |notes| && notes[i].id == id {
      var i :| 0 <= i < |notes| && notes[i].id == id;
      assert r[i] == merged;
    }
  }

  /** With an empty search box and no tag filter every note is listed, in order. */
  lemma {:induction false} NoCriteriaListsEveryNote(notes: seq<Note>)
    ensures NotesMatching(notes, "", []) == notes
  {
    forall i | 0 <= i < |notes| ensures Matches(notes[i], "", []) {
      assert ToLowerCase("") == "";
    }
    FilterKeepsAll(notes, (note: Note) => Matches(note, "", []));
  }

  /** Adding a tag keeps a duplicate-free tag list duplicate-free. */
  lemma AppendIfAbsentKeepsNoDup(tags: seq<string>, tag: string)
    requires NoDup(tags)
    ensures NoDup(AppendIfAbsent(tags, tag))
  {
  }

  /** Toggling keeps a duplicate-free filter list duplicate-free. */
  lemma ToggleKeepsNoDup(prev: seq<string>, tag: string)
    requires NoDup(prev)
    ensures NoDup(Toggle(prev, tag))
  {
    if tag in prev {
      FilterKeepsNoDup(prev, (t: string) => t != tag);
    }
  }

  /** Toggling a tag that is not selected, and toggling it again, restores the list. */
  lemma ToggleTwiceRestores(prev: seq<string>, tag: string)
    requires tag !in prev
    ensures Toggle(Toggle(prev, tag), tag) == prev
  {
    var keep := (t: string) => t != tag;
    FilterAppend(prev, [tag], keep);
    FilterKeepsAll(prev, keep);
    assert Filter([tag], keep) == [];
  }

  /** Typing "Work" and then "work" leaves the single tag "work". */
  lemma CaseInsensitiveTagDedup()
    ensures AppendIfAbsent(AppendIfAbsent([], TagCandidate("Work")), TagCandidate("work")) == ["work"]
  {
    CandidateOfCapitalised();
    CandidateOfLowerCase();
  }

  lemma CandidateOfCapitalised()
    ensures TagCandidate("Work") == "work"
  {
    TrimOfUnpadded("Work");
    LowerCaseOfCapitalised();
  }

  lemma CandidateOfLowerCase()
    ensures TagCandidate("work") == "work"
  {
    TrimOfUnpadded("work");
    LowerCaseOfLowerCase();
  }

  lemma LowerCaseOfCapitalised()
    ensures ToLowerCase("Work") == "work"
  {
    var lower := ToLowerCase("Work");
    assert lower[0] == 'w' && lower[1] == 'o' && lower[2] == 'r' && lower[3] == 'k';
  }

  lemma LowerCaseOfLowerCase()
    ensures ToLowerCase("work") == "work"
  {
    var lower := ToLowerCase("work");
    assert lower[0] == 'w' && lower[1] == 'o' && lower[2] == 'r' && lower[3] == 'k';
  }

  /** A text that neither starts nor ends with white space is its own trim. */
  lemma TrimOfUnpadded(s: string)
    requires s != [] && !IsWhiteSpace(s[0]) && !IsWhiteSpace(s[|s| - 1])
    ensures Trim(s) == s
  {
    assert TrimStart(s) == s;
    assert TrimEnd(s) == s;
  }

  const WelcomeContent: string := "# Welcome to Markdown Notes\n\nThis is a **minimalist** markdown notes app. You can:\n\n- Write in *markdown*\n- Organize with tags\n- Switch between edit and preview modes\n\n## Features\n\n- Clean, distraction-free interface\n- Live markdown preview\n- Tag-based organization\n- Search functionality\n\n> Start writing your thoughts!"
  const QuickNotesContent: string := "## Daily Tasks\n\n- [ ] Review project requirements\n- [x] Update documentation\n- [ ] Plan next sprint\n\n### Ideas\n\n- Implement dark mode\n- Add export functionality\n- Cloud sync feature"

  /** The two notes the editor starts with, both stamped with the time of loading. */
  function SampleNotes(now: Timestamp): (r: seq<Note>)
    ensures |r| == 2
  {
    [ Note("1", "Welcome to Markdown Notes",
           WelcomeContent,
           ["welcome", "tutorial"], now, now),
      Note("2", "Quick Notes",
           QuickNotesContent,
           ["tasks", "ideas"], now, now) ]
  }

  /** At startup `getAllTags()` lists the seed's four tags, in order of appearance. */
  lemma SampleTags(now: Timestamp)
    ensures DistinctTags(SampleNotes(now)) == ["welcome", "tutorial", "tasks", "ideas"]
  {
    var tags: seq<string> := ["welcome", "tutorial", "tasks", "ideas"];
    assert NoDup(tags) by {
      assert tags[0] != tags[1] && tags[0] != tags[2] && tags[0] != tags[3];
      assert tags[1] != tags[2] && tags[1] != tags[3] && tags[2] != tags[3];
    }
    DedupOfDistinct(tags);
    SampleTagOccurrences(now);
  }

  lemma SampleTagOccurrences(now: Timestamp)
    ensures AllTagOccurrences(SampleNotes(now)) == ["welcome", "tutorial", "tasks", "ideas"]
  {
    var notes := SampleNotes(now);
    assert notes[1..][1..] == [];
    assert AllTagOccurrences(notes[1..]) == ["tasks", "ideas"];
  }

  /** A list without repeats is its own `[...new Set(tags)]`. */
  lemma {:induction false} DedupOfDistinct(tags: seq<string>)
    requires NoDup(tags)
    ensures Dedup(tags) == tags
    decreases |tags|
  {
    if tags != [] {
      var init := tags[..|tags| - 1];
      assert NoDup(init) by {
        forall i, j | 0 <= i < j < |init| ensures init[i] != init[j] {
          assert init[i] == tags[i] && init[j] == tags[j];
        }
      }
      DedupOfDistinct(init);
      assert tags[|tags| - 1] !in init by {
        forall k | 0 <= k < |init| ensures init[k] != tags[|tags| - 1] {
          assert init[k] == tags[k];
        }
      }
      assert init + [tags[|tags| - 1]] == tags;
    }
  }

  /** The state of the `MarkdownNotesApp` component: one field per `useState`. */
  class MarkdownNotesApp {
    var notes: seq<Note>
    /** A copy of a note, not a position in `notes`. */
    var selectedNote: Option<Note>
    var isPreviewMode: bool
    var searchQuery: string
    var selectedTags: seq<string>
    var newTag: string
    var isDeleteDialogOpen: bool
    var noteToDelete: Option<Note>

    /** The initial `useState` values. */
    constructor ()
      ensures notes == [] && selectedNote == None && !isPreviewMode && searchQuery == ""
      ensures selectedTags == [] && newTag == "" && !isDeleteDialogOpen && noteToDelete == None
    {
      notes := [];
      selectedNote := None;
      isPreviewMode := false;
      searchQuery := "";
      selectedTags := [];
      newTag := "";
      isDeleteDialogOpen := false;
      noteToDelete := None;
    }

    /** The `useEffect` seed: two sample notes, the first one selected. */
    method LoadSampleNotes(now: Timestamp)
      modifies this
      ensures notes == SampleNotes(now) && selectedNote == Some(SampleNotes(now)[0])
      ensures isPreviewMode == old(isPreviewMode) && searchQuery == old(searchQuery)
      ensures selectedTags == old(selectedTags) && newTag == old(newTag)
      ensures isDeleteDialogOpen == old(isDeleteDialogOpen) && noteToDelete == old(noteToDelete)
    {
      var sampleNotes := SampleNotes(now);
      notes := sampleNotes;
      selectedNote := Some(sampleNotes[0]);
    }

    /** `filteredNotes`, recomputed from the current state. */
    function FilteredNotes(): (r: seq<Note>)
      reads this
      ensures IsSubsequence(r, notes)
      ensures forall i :: 0 <= i < |r| ==> Matches(r[i], searchQuery, selectedTags)
      ensures forall i :: 0 <= i < |notes| && Matches(notes[i], searchQuery, selectedTags) ==> notes[i] in r
      ensures forall n :: multiset(r)[n] == if Matches(n, searchQuery, selectedTags) then multiset(notes)[n] else 0
    {
      NotesMatching(notes, searchQuery, selectedTags)
    }

    /** `getAllTags()`: each tag carried by some note, once. */
    function GetAllTags(): (r: seq<string>)
      reads this
      ensures NoDup(r)
      ensures forall i, k :: 0 <= i < |notes| && 0 <= k < |notes[i].tags| ==> notes[i].tags[k] in r
      ensures forall j :: 0 <= j < |r| ==> exists i :: 0 <= i < |notes| && r[j] in notes[i].tags
    {
      DistinctTags(notes)
    }

    /** `createNewNote`: the new note goes first and becomes the selection, in edit mode. */
    method CreateNewNote(id: string, now: Timestamp)
      modifies this
      ensures notes == [NewNote(id, now)] + old(notes)
      ensures selectedNote == Some(NewNote(id, now)) && !isPreviewMode
      ensures searchQuery == old(searchQuery) && selectedTags == old(selectedTags) && newTag == old(newTag)
      ensures isDeleteDialogOpen == old(isDeleteDialogOpen) && noteToDelete == old(noteToDelete)
    {
      var newNote := NewNote(id, now);
      notes := [newNote] + notes;
      selectedNote := Some(newNote);
      isPreviewMode := false;
    }

    /**
      `updateNote(updates)`: nothing without a selection; otherwise the
      selection becomes the merged copy and every list entry with the
      selection's (old) id is replaced by it.
     */
    method UpdateNote(updates: NoteUpdate, now: Timestamp)
      modifies this
      ensures old(selectedNote).None? ==> notes == old(notes) && selectedNote == old(selectedNote)
      ensures old(selectedNote).Some? ==>
                var merged := Merge(old(selectedNote).value, updates, now);
                selectedNote == Some(merged) && notes == ReplaceById(old(notes), old(selectedNote).value.id, merged)
      ensures isPreviewMode == old(isPreviewMode) && searchQuery == old(searchQuery)
      ensures selectedTags == old(selectedTags) && newTag == old(newTag)
      ensures isDeleteDialogOpen == old(isDeleteDialogOpen) && noteToDelete == old(noteToDelete)
    {
      if selectedNote.None? {
        return;
      }
      var updatedNote := Merge(selectedNote.value, updates, now);
      notes := ReplaceById(notes, selectedNote.value.id, updatedNote);
      selectedNote := Some(updatedNote);
    }

    /** `openDeleteDialog(note)`: remember the note and show the dialog; nothing is deleted yet. */
    method OpenDeleteDialog(note: Note)
      modifies this
      ensures noteToDelete == Some(note) && isDeleteDialogOpen
      ensures notes == old(notes) && selectedNote == old(selectedNote) && isPreviewMode == old(isPreviewMode)
      ensures searchQuery == old(searchQuery) && selectedTags == old(selectedTags) && newTag == old(newTag)
    {
      noteToDelete := Some(note);
      isDeleteDialogOpen := true;
    }

    /** The dialog's `onClose` (cancel or dismiss): forget the note and hide the dialog. */
    method CloseDeleteDialog()
      modifies this
      ensures noteToDelete == None && !isDeleteDialogOpen
      ensures notes == old(notes) && selectedNote == old(selectedNote) && isPreviewMode == old(isPreviewMode)
      ensures searchQuery == old(searchQuery) && selectedTags == old(selectedTags) && newTag == old(newTag)
    {
      isDeleteDialogOpen := false;
      noteToDelete := None;
    }

    /**
      `handleConfirmDelete`: nothing without a pending note; otherwise every
      entry with its id leaves the list, a selection of that id moves to the
      first other note of the old list (none if the old list had at most one
      entry), and the dialog closes.
     */
    method HandleConfirmDelete()
      modifies this
      ensures old(noteToDelete).None? ==>
                notes == old(notes) && selectedNote == old(selectedNote)
                && noteToDelete == old(noteToDelete) && isDeleteDialogOpen == old(isDeleteDialogOpen)
      ensures old(noteToDelete).Some? ==>
                var id := old(noteToDelete).value.id;
                && notes == WithoutId(old(notes), id)
                && selectedNote == (if old(selectedNote).Some? && old(selectedNote).value.id == id
                                    then NextSelection(old(notes), id) else old(selectedNote))
                && noteToDelete == None && !isDeleteDialogOpen
      ensures isPreviewMode == old(isPreviewMode) && searchQuery == old(searchQuery)
      ensures selectedTags == old(selectedTags) && newTag == old(newTag)
    {
      if noteToDelete.None? {
        return;
      }
      var id := noteToDelete.value.id;
      var before := notes;
      notes := WithoutId(before, id);
      if selectedNote.Some? && selectedNote.value.id == id {
        selectedNote := NextSelection(before, id);
      }
      noteToDelete := None;
      isDeleteDialogOpen := false;
    }

    /**
      `addTag`: nothing (not even clearing the input) without a selection or
      when the input is blank; otherwise the trimmed, lower-cased tag is
      added through `updateNote` unless the note already has it, and the
      input is cleared.
     */
    method AddTag(now: Timestamp)
      modifies this
      ensures old(selectedNote).None? || Trim(old(newTag)) == "" ==>
                notes == old(notes) && selectedNote == old(selectedNote) && newTag == old(newTag)
      ensures old(selectedNote).Some? && Trim(old(newTag)) != "" ==>
                var note := old(selectedNote).value;
                var tag := TagCandidate(old(newTag));
                && newTag == ""
                && (tag in note.tags ==> notes == old(notes) && selectedNote == old(selectedNote))
                && (tag !in note.tags ==>
                      var merged := Merge(note, TagsUpdate(AppendIfAbsent(note.tags, tag)), now);
                      selectedNote == Some(merged) && notes == ReplaceById(old(notes), note.id, merged))
      ensures isPreviewMode == old(isPreviewMode) && searchQuery == old(searchQuery)
      ensures selectedTags == old(selectedTags)
      ensures isDeleteDialogOpen == old(isDeleteDialogOpen) && noteToDelete == old(noteToDelete)
    {
      if selectedNote.None? || Trim(newTag) == "" {
        return;
      }
      var tag := ToLowerCase(Trim(newTag));
      if tag !in selectedNote.value.tags {
        UpdateNote(TagsUpdate(selectedNote.value.tags + [tag]), now);
      }
      newTag := "";
    }

    /** `removeTag(tagToRemove)`: through `updateNote`, drop every occurrence of that exact tag. */
    method RemoveTag(tagToRemove: string, now: Timestamp)
      modifies this
      ensures old(selectedNote).None? ==> notes == old(notes) && selectedNote == old(selectedNote)
      ensures old(selectedNote).Some? ==>
                var note := old(selectedNote).value;
                var merged := Merge(note, TagsUpdate(WithoutTag(note.tags, tagToRemove)), now);
                selectedNote == Some(merged) && notes == ReplaceById(old(notes), note.id, merged)
      ensures isPreviewMode == old(isPreviewMode) && searchQuery == old(searchQuery)
      ensures selectedTags == old(selectedTags) && newTag == old(newTag)
      ensures isDeleteDialogOpen == old(isDeleteDialogOpen) && noteToDelete == old(noteToDelete)
    {
      if selectedNote.None? {
        return;
      }
      UpdateNote(TagsUpdate(WithoutTag(selectedNote.value.tags, tagToRemove)), now);
    }

    /** `toggleTagFilter(tag)`: select the tag if it is not selected, unselect it otherwise. */
    method ToggleTagFilter(tag: string)
      modifies this
      ensures selectedTags == Toggle(old(selectedTags), tag)
      ensures NoDup(old(selectedTags)) ==> NoDup(selectedTags)
      ensures notes == old(notes) && selectedNote == old(selectedNote) && isPreviewMode == old(isPreviewMode)
      ensures searchQuery == old(searchQuery) && newTag == old(newTag)
      ensures isDeleteDialogOpen == old(isDeleteDialogOpen) && noteToDelete == old(noteToDelete)
    {
      if NoDup(selectedTags) {
        ToggleKeepsNoDup(selectedTags, tag);
      }
      selectedTags := Toggle(selectedTags, tag);
    }
  }
}
