# Minimalist notes: note API route and notes editor, in Dafny

This project models the two pieces of decision logic in the minimalist-notes
web application:

- **The notes API route** (`app/api/notes/route.ts`). A module-level array
  `notes` is the store. `POST /api/notes` reads a JSON body and destructures
  `content` from it. It answers 500 "Error processing request" when the body
  does not parse or is `null`, because both throw into the `catch`. It answers
  400 "Content is required" when `content` is missing or falsy. Otherwise it
  builds a note `{id, content, createdAt}`, appends it to the store and answers
  201 with it. The store is the class `NotesRoute.NoteStore` and the handler is
  its method `Post`. The parsed body (`Json.Value`, or a parse failure), the
  UUID and the clock reading are parameters. JavaScript truthiness
  (`Json.IsTruthy`) and destructuring (`Json.ContentProperty`) are modelled
  exactly over JSON values.
- **The notes editor** (`app/page.tsx`). The component's eight `useState`
  fields are the fields of the class `NotesEditor.MarkdownNotesApp`. Each event
  handler is a method that overwrites them atomically. The values the handlers
  build with spread, `map`, `filter`, `find` and `new Set` are functions, and
  so are the derived views `filteredNotes` and `getAllTags()`. As in the
  source, `selectedNote` is a copy of a note, not a position in the list.
  `updateNote` replaces every list entry whose id equals the copy's id.
- Supporting modules: `JsArrays` models `filter`, `find` and `[...new Set(xs)]`
  on sequences. `JsStrings` models `trim`, `toLowerCase` and `includes`.

The code and the design description disagree in places; the model follows the
code:

- A body that is not valid JSON gets 500, not 400.
- The route file has no GET or DELETE handler, so none is modelled.
- A stored note's `content` is whatever truthy JSON value arrived. The
  handler's `string` type is never checked, so `{"content": 5}` is stored with
  the number 5.
- After deleting the selected note, the new selection is the *first* note of
  the old list with another id, and only when the old list had more than one
  entry. It is not an arbitrary remaining note.
- `updatedAt >= createdAt` is not an invariant of the code, which never
  compares clock readings, so it is not claimed.

## Model

| member | source | states |
|---|---|---|
| Json.IsTruthy | app/api/notes/route.ts:19 | `!content` is true exactly for `null`, `false`, `0` and `""`. Every array and object is truthy, even an empty one. |
| Json.ContentProperty | app/api/notes/route.ts:17 | `const { content } = body` throws exactly on `null`. It yields the member exactly when the body is an object with a `content` key. |
| NotesRoute.Judge | app/api/notes/route.ts:15-35 | The body fails (the `catch` path) exactly when it is malformed or `null`. It is accepted exactly when it is an object whose `content` is present and truthy. The accepted content is the body's `content` as it came. |
| NotesRoute.NoteStore.constructor | app/api/notes/route.ts:11 | The store starts empty. |
| NotesRoute.NoteStore.Post | app/api/notes/route.ts:13-36 | Malformed or `null` body: 500 "Error processing request". Missing or falsy content: 400 "Content is required". Otherwise: 201 with the note `{uuid, content, now}`, appended at the end of the store. Only a 201 changes the store, which grows by at most one note, and by exactly one iff the status is 201. |
| NotesRoute.FalsyContentIsRejected | app/api/notes/route.ts:19-21 | An object body whose `content` is missing, `null`, `false`, `0` or `""` is rejected with 400. |
| NotesRoute.NonObjectBodyIsRejected | app/api/notes/route.ts:17-21 | A string, number, boolean or array body has no `content`. It is rejected with 400 and does not fail with 500. |
| NotesRoute.HandlerTestCases | app/api/notes/route.test.ts:32-72 | The four test requests: `{content: 'My first test note'}` is accepted with that content; `{}` and `{content: ''}` are rejected; a body that is not JSON fails. |
| NotesRoute.PostTwice | app/api/notes/route.ts:29 | For any two ids and any two non-empty contents, two successful posts append their notes in posting order after the existing ones. |
| JsArrays.Filter | app/page.tsx:96 | `filter` keeps exactly the elements that pass, and never adds any. Every passing value keeps all of its copies, and every failing value has none. |
| JsArrays.FilterIsSubsequence | app/page.tsx:96 | `filter` keeps the relative order: its result is a subsequence of its input. |
| JsArrays.FilterKeepsAll | app/page.tsx:129-137 | A filter that every element passes returns its input unchanged. |
| JsArrays.FilterAppend | app/page.tsx:141 | Filtering a concatenation is concatenating the filtered parts. |
| JsArrays.FilterKeepsNoDup | app/page.tsx:141 | Filtering a duplicate-free list gives a duplicate-free list. |
| JsArrays.FirstIndexWhere | app/page.tsx:99 | The index it returns is the first one whose element passes, or the length when none does. |
| JsArrays.Find | app/page.tsx:99 | `find` gives `undefined` exactly when no element passes. Otherwise it gives the element at the first passing index. |
| JsArrays.FirstIndexOf | app/page.tsx:126 | The position of the first occurrence of an element. |
| JsArrays.Dedup | app/page.tsx:126 | `[...new Set(s)]` has no duplicates and contains exactly the elements of `s`. |
| JsArrays.DedupFirstOccurrenceOrder | app/page.tsx:126 | `[...new Set(s)]` lists the elements in the order of their first occurrence in `s`. |
| JsStrings.WhiteSpaceIsEcmaScriptWhiteSpace | app/page.tsx:108-110 | `IsWhiteSpace` (the set `WhiteSpace`) holds exactly for ECMAScript's WhiteSpace (TAB, VT, FF, ZWNBSP and the Unicode Zs space separators) and LineTerminator (LF, CR, LS, PS) code points, the characters `trim` removes. |
| JsStrings.TrimStart | app/page.tsx:108 | Only leading white space is removed, and the result does not start with white space. |
| JsStrings.TrimEnd | app/page.tsx:108 | Only trailing white space is removed, and the result does not end with white space. |
| JsStrings.Trim | app/page.tsx:108-110 | `trim` returns a slice of its input. Everything outside the slice is white space, and the slice neither starts nor ends with white space. |
| JsStrings.TrimIsEmptyIffBlank | app/page.tsx:108 | `!newTag.trim()` holds exactly when the text is empty or all white space. |
| JsStrings.ToLowerChar | app/page.tsx:110 | Capitals A-Z become their lower-case letters and every other character is kept, so the result is never an ASCII capital. |
| JsStrings.ToLowerCase | app/page.tsx:131-132 | `toLowerCase` keeps the length and lower-cases each character. |
| JsStrings.ToLowerCaseIdempotent | app/page.tsx:110 | Lower-casing an already lower-cased string changes nothing. |
| JsStrings.Includes | app/page.tsx:131-132 | The empty query is found in every string, and a found query is no longer than the string. |
| JsStrings.IncludesIffOccurs | app/page.tsx:131-132 | `includes` holds exactly when the query occurs at some position of the string. |
| NotesEditor.NewNote | app/page.tsx:60-67 | The new note has the given id, the title "Untitled Note", the default content, no tags, and `now` as both timestamps. |
| NotesEditor.Merge | app/page.tsx:76-80 | `{...note, ...updates, updatedAt: now}`: each field the update gives overrides the note's. `updatedAt` is always `now`, even when the update sets it. |
| NotesEditor.ReplaceById | app/page.tsx:82-84 | The list keeps its length. Every entry whose id equals the selection's id becomes the merged note, and every other entry is unchanged. |
| NotesEditor.WithoutId | app/page.tsx:96 | The delete keeps, in order, exactly the entries whose id differs from the deleted note's id, each with as many copies as the old list had. |
| NotesEditor.NextSelection | app/page.tsx:98-100 | The new selection is null exactly when the old list had at most one entry or every entry has the deleted id. Otherwise it is the first entry of the old list with another id. |
| NotesEditor.WithoutTag | app/page.tsx:120 | Removing a tag drops every occurrence of exactly that tag and keeps the other tags in order, each with as many copies as before. |
| NotesEditor.TagCandidate | app/page.tsx:110 | `newTag.trim().toLowerCase()` is empty exactly when the trimmed text is. It is as long as the trimmed text, has no ASCII capital, and neither starts nor ends with white space. |
| NotesEditor.TagCandidateIdempotent | app/page.tsx:110-112 | A stored tag typed again yields itself, so `addTag` never adds a second spelling of a tag it produced. |
| NotesEditor.AppendIfAbsent | app/page.tsx:111-113 | The tag ends up in the list. It is appended at the end when absent, and the list is unchanged when it is present. |
| NotesEditor.Toggle | app/page.tsx:139-143 | The toggled tag is selected afterwards exactly when it was not selected before. Every other tag keeps its membership. |
| NotesEditor.AllTagOccurrences | app/page.tsx:125 | `flatMap` holds every tag of every note and nothing else. |
| NotesEditor.DistinctTags | app/page.tsx:124-127 | `getAllTags()` holds each tag that occurs in some note exactly once, and no other tag. |
| NotesEditor.Matches | app/page.tsx:129-136 | A note matches exactly when the lower-cased query occurs at some position of its lower-cased title or content, and either no tag filter is selected or one of the selected tags is among the note's tags. |
| NotesEditor.NotesMatching | app/page.tsx:129-137 | `filteredNotes` is an order-preserving subsequence of `notes`. It keeps exactly the notes that match the search and the tag filter, each with as many copies as `notes` has. |
| NotesEditor.DistinctTagsFirstOccurrenceOrder | app/page.tsx:124-127 | `getAllTags()` lists the tags in order of first occurrence across the notes. |
| NotesEditor.NextSelectionSurvivesDelete | app/page.tsx:96-101 | A note chosen as the new selection is still in the list after the delete. |
| NotesEditor.MergedCopyIsListed | app/page.tsx:82-85 | The merged copy appears in the list when some entry had the selection's id. When none had it, the list is unchanged. |
| NotesEditor.NoCriteriaListsEveryNote | app/page.tsx:129-137 | With an empty search query and no selected tags, `filteredNotes` equals `notes`. |
| NotesEditor.AppendIfAbsentKeepsNoDup | app/page.tsx:111-113 | Adding a tag keeps a duplicate-free tag list duplicate-free. |
| NotesEditor.ToggleKeepsNoDup | app/page.tsx:139-143 | `toggleTagFilter` keeps `selectedTags` duplicate-free. |
| NotesEditor.ToggleTwiceRestores | app/page.tsx:139-143 | Toggling an unselected tag twice restores the original list. |
| NotesEditor.CaseInsensitiveTagDedup | app/page.tsx:107-115 | Adding "Work" and then "work" to an empty tag list leaves the single tag "work". |
| NotesEditor.SampleNotes | app/page.tsx:35-54 | The seed consists of two sample notes. |
| NotesEditor.SampleTags | app/page.tsx:35-54 | At startup `getAllTags()` lists "welcome", "tutorial", "tasks" and "ideas", in that order. |
| NotesEditor.DedupOfDistinct | app/page.tsx:124-127 | `[...new Set(tags)]` returns a duplicate-free list unchanged. |
| NotesEditor.MarkdownNotesApp.constructor | app/page.tsx:24-31 | The initial `useState` values: no notes, no selection, edit mode, empty query, no tag filter, empty tag input, and the dialog closed with no pending note. |
| NotesEditor.MarkdownNotesApp.LoadSampleNotes | app/page.tsx:34-57 | The seed sets the two sample notes and selects the first one. |
| NotesEditor.MarkdownNotesApp.FilteredNotes | app/page.tsx:129-137 | The view is a subsequence of the current notes. It holds exactly the notes that match the current query and tag filter, each with all of its copies. |
| NotesEditor.MarkdownNotesApp.GetAllTags | app/page.tsx:124-127 | The view holds every tag of the current notes, once each. |
| NotesEditor.MarkdownNotesApp.CreateNewNote | app/page.tsx:59-71 | `notes` becomes the new note followed by the old notes. The new note is selected, preview mode is off, and nothing else changes. |
| NotesEditor.MarkdownNotesApp.UpdateNote | app/page.tsx:73-86 | With no selection nothing changes. Otherwise the selection becomes the merged copy, and the list entries with the old selection's id are replaced by it. |
| NotesEditor.MarkdownNotesApp.OpenDeleteDialog | app/page.tsx:88-91 | The pending note is set and the dialog opens. `notes` and the selection are unchanged. |
| NotesEditor.MarkdownNotesApp.CloseDeleteDialog | app/page.tsx:386-389 | The pending note is cleared and the dialog closes. `notes` and the selection are unchanged. |
| NotesEditor.MarkdownNotesApp.HandleConfirmDelete | app/page.tsx:93-105 | With no pending note nothing changes. Otherwise every entry with the pending note's id leaves the list, in order. A selection with that id moves to `NextSelection` of the old list, and any other selection stays. The pending note is cleared and the dialog closes. |
| NotesEditor.MarkdownNotesApp.AddTag | app/page.tsx:107-115 | With no selection, or a blank input, nothing changes and the input is kept. Otherwise the trimmed, lower-cased tag is appended through `updateNote` unless the selection already has it, and the input is cleared either way. |
| NotesEditor.MarkdownNotesApp.RemoveTag | app/page.tsx:117-122 | With no selection nothing changes. Otherwise `updateNote` runs with the selection's tags minus every occurrence of the tag. |
| NotesEditor.MarkdownNotesApp.ToggleTagFilter | app/page.tsx:139-143 | `selectedTags` becomes its toggle, stays duplicate-free, and nothing else changes. |

## Left out

- JsStrings.ToLowerCase: lower-cases only the 26 ASCII capitals. JavaScript's `toLowerCase` applies full Unicode case mapping, which the model does not include.
- Strings are sequences of Unicode scalar values, not of UTF-16 code units. `trim`, `includes` and lower-casing therefore ignore surrogate halves.
- Parsing JSON (`request.json()`) is not modelled. Its result is an input: a `Json.Value` or a parse failure. Rounding of a JSON number to a double happens inside the parse, so the model takes the parsed value.
- `NextResponse.json` serialisation and the ISO encoding of dates are not modelled. A response is a status and a body datatype, and a date is a millisecond count.
- `randomUUID()`, `Date.now()` and `new Date()` are parameters. `createNewNote` reads the clock three times (for the id, `createdAt` and `updatedAt`). The model takes the id string and one `now` for both timestamps. The seed (`SampleNotes`, `LoadSampleNotes`) likewise reads `new Date()` four times, once for each timestamp of its two notes. The model uses one `now` for all four.
- The log calls (`console.log`, `console.error`) are left out. They have no effect on the state.
- Concurrent requests are left out. Each `POST` is one atomic step on the store.
- Each React handler is modelled as one atomic transition. `useState` batching and stale closures are left out.
- The JSX rendering is left out, along with the inline handlers that only copy a widget's value into a field (`setSearchQuery`, `setNewTag`, `setSelectedNote` on a click, `setIsPreviewMode`).
- The delete confirmation dialog component is left out. It only forwards its two callbacks, and the callbacks themselves are modelled.
- A `Partial<Note>` whose key is present but holds `undefined` is not modelled. The only callers pass `title`, `content` or `tags` with a value.
