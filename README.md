# Mermaid diagram editor: diagram store and Tab indentation

This project models two parts of a browser-based Mermaid diagram editor in
Dafny and proves properties about them.

* **The diagram store** (`src/services/diagramDB.ts`). This is the `DiagramDB`
  object, which holds one optional handle to the browser's IndexedDB database
  `MermaidDiagramsDB` (version 1). The database has one collection,
  `diagrams`, keyed by `id`. The store offers `init`, `ensureDB`, `create`,
  `getAll`, `getById`, `update` and `delete`. The source mutates this state, so
  the model is imperative:
  * `DiagramDatabase.Database` is the durable database as it persists between
    page loads: its version, its collection names, and the contents of the
    collection as a `map`.
  * `DiagramDatabase.DiagramDB` is the wrapper. Its field `db: Database?` is
    set by `Init`.
  * `init`, `create`, `update` and `delete` are methods with a `modifies`
    clause; their `ensures` state the promise's resolution or rejection and
    the new contents of the collection. `getAll` and `getById` are methods
    that change nothing and state what they resolve with. `ensureDB` is a
    function of the handle.

  The records, partial records and the object-spread merge are pure values in
  `DiagramStore`.
* **The editor's key handler** (`handleKeyDown` in
  `src/components/MermaidEditor.tsx`). Tab indents and Shift+Tab unindents,
  with a selection and without one. The handler has no state of its own, so
  the model is pure. Each branch is a function returning an `Edit`: the text
  passed to `onChange` and the selection restored afterwards.
  * `Indentation.HandleKeyDown` returns the whole reaction to one key press:
    whether the default is prevented, and the list of `onChange` calls in
    order.
  * The JavaScript string built-ins the handler uses are modelled in
    `JsStrings` with their clamping rules: `substring`, `lastIndexOf`,
    `startsWith`, `endsWith`, `split` and `join`.

Modules:

| file | module | contents |
|---|---|---|
| `wrappers.dfy` | `Wrappers` | `Option`, `Result` (a promise that resolves with a value or rejects), `Outcome` (a `Promise<void>`) |
| `js_strings.dfy` | `JsStrings` | the string built-ins and the split/join round trips |
| `indentation.dfy` | `Indentation` | the four text edits, the key handler, the findings and their corrections |
| `diagram_store.dfy` | `DiagramStore` | `Diagram`, `Patch` (`Partial<Diagram>`), the spread merge, the error messages |
| `diagram_db.dfy` | `DiagramDatabase` | the durable database, the `DiagramDB` class and its methods, two client scenarios |

Two client methods have no contract of their own, so they have no row in the
table below. Their assertions are still checked:
* `DiagramDatabase.UseBeforeInit`: every operation before `init` rejects with
  "Database not initialized".
* `DiagramDatabase.ReloadScenario`: on a fresh profile, a diagram is created.
  After a reload it is listed and read back. It is then renamed without its
  source text changing, and deleted twice without error. After that it can be
  neither read nor updated.

## Model

| member | source | states |
|---|---|---|
| `JsStrings.Clamp` | src/components/MermaidEditor.tsx:23-25 | an index is clamped into `[0, n]`: unchanged when in range, 0 below, `n` above |
| `JsStrings.Substring` | src/components/MermaidEditor.tsx:23-25 | `substring(from, to)` is the slice between the bounds when they are in range, the swapped slice when `from` is past `to`, and never longer than the string |
| `JsStrings.SubstringFrom` | src/components/MermaidEditor.tsx:25 | `substring(from)` is the suffix from `from`; a negative `from` gives the whole string, one past the end gives the empty string |
| `JsStrings.LastIndexOf` | src/components/MermaidEditor.tsx:112 | the result is -1 or an index holding the character, at or before the clamped position, and no later index up to that position holds it |
| `JsStrings.Split` | src/components/MermaidEditor.tsx:32-33 | `split` yields one piece more than there are separators, and no piece contains the separator |
| `JsStrings.Join` | src/components/MermaidEditor.tsx:41 | `join`: defined by its body; `JoinSplit` and `SplitJoin` state that it inverts `Split` |
| `JsStrings.StartsWith` | src/components/MermaidEditor.tsx:91 | `startsWith`: defined by its body (the string's first characters are the prefix); `UnindentLineShape` states what it means for a line |
| `JsStrings.EndsWith` | src/components/MermaidEditor.tsx:115 | `endsWith`: defined by its body (the string's last characters are the suffix); `UnindentAtCursorSpec` states what it decides at the cursor |
| `JsStrings.JoinSplit` | src/components/MermaidEditor.tsx:32-41 | joining the pieces of a split gives back the original string |
| `JsStrings.SplitJoin` | src/components/MermaidEditor.tsx:88-96 | splitting a join of separator-free pieces gives back the pieces |
| `JsStrings.SplitSingle` | src/components/MermaidEditor.tsx:88-89 | a string splits into one piece exactly when it holds no newline, and that piece is then the string itself |
| `Indentation.UnindentLine` | src/components/MermaidEditor.tsx:91-94 | the per-line unindent: defined by its body; `UnindentLineShape` and `UnindentIndentLine` state it |
| `Indentation.IndentLine` | src/components/MermaidEditor.tsx:37-39 | the per-line indent: defined by its body; `UnindentIndentLine` states that the unindent inverts it |
| `Indentation.IndentAll` | src/components/MermaidEditor.tsx:34-40 | the indent map keeps the number of lines and puts exactly one indent before each line, on the first line as on every other |
| `Indentation.UnindentAll` | src/components/MermaidEditor.tsx:90-95 | the unindent map keeps the number of lines and unindents each line on its own |
| `Indentation.UnindentLineShape` | src/components/MermaidEditor.tsx:91-94 | a line that starts with two spaces loses exactly those two; any other line is unchanged |
| `Indentation.UnindentIndentLine` | src/components/MermaidEditor.tsx:91-94 | unindenting a line that was just indented gives the line back |
| `Indentation.IndentBlock` | src/components/MermaidEditor.tsx:32-41 | split, indent map and join: defined by its body; `IndentBlockLines`, `IndentBlockLength` and `UnindentIndentBlock` state it |
| `Indentation.UnindentBlock` | src/components/MermaidEditor.tsx:88-96 | split, unindent map and join: defined by its body; `UnindentBlockLines` and `UnindentBlockShorter` state it |
| `Indentation.IndentBlockLines` | src/components/MermaidEditor.tsx:32-41 | after indenting a block, its lines are the old lines one to one, each behind one indent, and the newline count is unchanged |
| `Indentation.UnindentBlockLines` | src/components/MermaidEditor.tsx:88-96 | after unindenting a block, its lines are the old lines one to one, each unindented, and the newline count is unchanged |
| `Indentation.UnindentIndentBlock` | src/components/MermaidEditor.tsx:32-41 | unindenting an indented block gives the block back |
| `Indentation.IndentBlockLength` | src/components/MermaidEditor.tsx:32-41 | indenting a block adds exactly two characters per line |
| `Indentation.UnindentBlockShorter` | src/components/MermaidEditor.tsx:88-96 | unindenting never lengthens a block |
| `Indentation.SelectionLineStart` | src/components/MermaidEditor.tsx:24-28 | line 28's line start: defined by its body; `LineStartFacts` states it |
| `Indentation.CursorLineStart` | src/components/MermaidEditor.tsx:112 | line 112's line start: defined by its body; `CursorLineStartFacts` states it |
| `Indentation.LineStartFacts` | src/components/MermaidEditor.tsx:24-28 | the selection line start is at most `start`, is 0 or follows a newline, and no newline lies between it and `start` |
| `Indentation.CursorLineStartFacts` | src/components/MermaidEditor.tsx:112 | the cursor line start equals the selection line start, except at offset 0 of a text beginning with a newline, where the clamped search gives 1 |
| `Indentation.SelectedLines` | src/components/MermaidEditor.tsx:23-29 | `selectedLines`: defined by its body; `SelectedLinesSpec` states it |
| `Indentation.SelectedLinesSpec` | src/components/MermaidEditor.tsx:23-29 | the selected lines are exactly the text from the line start to the selection end |
| `Indentation.IndentAtCursor` | src/components/MermaidEditor.tsx:55-67 | Tab at a cursor: defined by its body; `IndentAtCursorSpec` states it |
| `Indentation.IndentSelection` | src/components/MermaidEditor.tsx:22-54 | Tab over a selection: defined by its body; `IndentSelectionSpec` states it |
| `Indentation.UnindentSelection` | src/components/MermaidEditor.tsx:79-109 | Shift+Tab over a selection: defined by its body; `UnindentSelectionSpec` states it |
| `Indentation.UnindentAtCursor` | src/components/MermaidEditor.tsx:110-125 | Shift+Tab at a cursor: defined by its body; `UnindentAtCursorSpec` states it |
| `Indentation.IndentAtCursorSpec` | src/components/MermaidEditor.tsx:55-67 | Tab at a cursor inserts two spaces there, and the cursor lands after them |
| `Indentation.IndentSelectionSpec` | src/components/MermaidEditor.tsx:22-54 | Tab over a selection keeps the text before the line start and after the selection, makes the lines in between the old lines each behind one indent (the same count), grows the text by two per line, and shifts both selection ends by two |
| `Indentation.UnindentSelectionSpec` | src/components/MermaidEditor.tsx:79-109 | Shift+Tab over a selection keeps the text before the line start and after the selection, makes the lines in between the old lines each unindented (the same count), never lengthens the text, starts the selection at `max(start - 2, lineStart)` and ends it at `end - 2` |
| `Indentation.UnindentAtCursorSpec` | src/components/MermaidEditor.tsx:110-125 | Shift+Tab at a cursor emits a change exactly when the two characters before the cursor are spaces; the change deletes them and moves the cursor back by two |
| `Indentation.UnindentAtCursorUndoesIndent` | src/components/MermaidEditor.tsx:55-67 | Shift+Tab right after Tab at a cursor restores the text and the cursor |
| `Indentation.HandleKeyDown` | src/components/MermaidEditor.tsx:10-128 | the handler as written: defined by its body; `OtherKeysIgnored`, `TabIndents` and `ShiftTabEmitsIndentThenUnindent` state it |
| `Indentation.Resulting` | src/components/MermaidEditor.tsx:98-109 | what the editor is left with, the last `onChange` value and the last scheduled selection: defined by its body; `ShiftTabEmitsIndentThenUnindent` and `FixedKeepsText` use it |
| `Indentation.OtherKeysIgnored` | src/components/MermaidEditor.tsx:14 | any key other than Tab is left to the textarea: no default prevented and no change |
| `Indentation.TabIndents` | src/components/MermaidEditor.tsx:14-69 | Tab without Shift prevents the default and emits exactly one change: the selection indent or the cursor indent |
| `Indentation.ShiftTabEmitsIndentThenUnindent` | src/components/MermaidEditor.tsx:14-127 | Shift+Tab emits the indent of the original text and then, when one applies, the unindent of the same original text, which is what the editor keeps |
| `Indentation.ShiftTabInsertsIndent` | src/components/MermaidEditor.tsx:72-127 | as written, Shift+Tab at a cursor with no two spaces before it leaves two spaces inserted at the cursor |
| `Indentation.ShiftTabInsertsIndentExample` | src/components/MermaidEditor.tsx:55-60 | as written, Shift+Tab at the end of "a" leaves "a  " |
| `Indentation.IndentSelectionEndLags` | src/components/MermaidEditor.tsx:52-53 | as written, indenting all of "a\nb" gives "  a\n  b" with the selection ending at 5, in front of the second line's text rather than after it |
| `Indentation.UnindentSelectionMovesUnchangedSelection` | src/components/MermaidEditor.tsx:107-108 | as written, Shift+Tab over the "b" of "ab" keeps the text but collapses the selection to 0..0 |
| `Indentation.IndentSelectionFixed` | src/components/MermaidEditor.tsx:50-54 | the corrected Tab over a selection: defined by its body; `IndentSelectionFixedShape` and `IndentSelectionFixedFollowsText` state it |
| `Indentation.UnindentSelectionFixed` | src/components/MermaidEditor.tsx:105-109 | the corrected Shift+Tab over a selection: defined by its body; `UnindentSelectionFixedShape` and `UnindentSelectionFixedFollowsText` state it |
| `Indentation.HandleKeyDownFixed` | src/components/MermaidEditor.tsx:71-127 | the corrected handler, Shift+Tab running only the unindent: defined by its body; `FixedShiftTabNeverIndents` and `FixedKeepsText` state it |
| `Indentation.IndentSelectionFixedFollowsText` | src/components/MermaidEditor.tsx:50-54 | with the correction, the selection restored after Tab starts on its old character and ends in front of the text that followed the selection |
| `Indentation.IndentSelectionFixedShape` | src/components/MermaidEditor.tsx:43-54 | the corrected indent emits the same text as the original; its start is two past the old start and its end is where the indented block ends |
| `Indentation.UnindentSelectionFixedShape` | src/components/MermaidEditor.tsx:98-109 | the corrected unindent emits the same text as the original; its end is where the unindented block ends, and its start moves only when the first line lost an indent |
| `Indentation.UnindentSelectionFixedFollowsText` | src/components/MermaidEditor.tsx:105-109 | with the correction, the selection restored after Shift+Tab starts in front of the same text (less the first line's removed indent) and ends in front of the text that followed the selection |
| `Indentation.FixedShiftTabNeverIndents` | src/components/MermaidEditor.tsx:71-127 | with the correction, Shift+Tab emits at most one change, never lengthens the text, and emits nothing at a cursor with no indent before it |
| `Indentation.FixedKeepsText` | src/components/MermaidEditor.tsx:14-127 | the corrected handler leaves the same text as the original for every key, except Shift+Tab at a cursor with no indent before it |
| `DiagramStore.Message` | src/services/diagramDB.ts:23-158 | the message of each rejection, word for word: defined by its body; `MessagesDistinct` states that the messages tell the rejections apart |
| `DiagramStore.MessagesDistinct` | src/services/diagramDB.ts:23-158 | two rejections carry the same message exactly when they are the same rejection |
| `DiagramStore.Spread` | src/services/diagramDB.ts:122-125 | object spread: defined by its body; `WithId`, `Merge` and `MergeFields` state it |
| `DiagramStore.WithId` | src/services/diagramDB.ts:60-61 | the record `create` adds carries the new id and every other field of the given diagram |
| `DiagramStore.Merge` | src/services/diagramDB.ts:122-127 | the record `update` writes carries the requested id and the update time `now`, whatever the patch says |
| `DiagramStore.MergeFields` | src/services/diagramDB.ts:122-127 | every field the patch supplies overrides the stored one, and every field it omits is kept |
| `DiagramStore.RenameKeepsCode` | src/services/diagramDB.ts:122-127 | a patch holding only a name changes the name, id and update time and keeps the source text and creation time |
| `DiagramStore.EmptyPatchRestamps` | src/services/diagramDB.ts:122-127 | an empty patch only re-stamps the id and the update time |
| `DiagramStore.MergeIdempotent` | src/services/diagramDB.ts:122-129 | applying the same update twice gives the same record as applying it once |
| `DiagramStore.KeyedByIdPreserved` | src/services/diagramDB.ts:35-37 | adding a record under its id, writing a merged record back under its key, and deleting a key all keep every record's id equal to its key |
| `DiagramStore.UpdateKeepsClockOrder` | src/services/diagramDB.ts:126 | with a clock that does not go backwards, an update never moves a record's update time back and leaves no record later than the clock |
| `DiagramDatabase.CreateStoreIfAbsent` | src/services/diagramDB.ts:34-42 | after the upgrade the collection exists, and no other collection is added or removed |
| `DiagramDatabase.UpgradeIdempotent` | src/services/diagramDB.ts:31-43 | running the upgrade again changes nothing |
| `DiagramDatabase.EnumerationSize` | src/services/diagramDB.ts:79-82 | a listing of stored records, each once, has as many entries as the collection has keys |
| `DiagramDatabase.Database.Absent` | src/services/diagramDB.ts:20 | a browser profile with no database: version 0, no collection, no records |
| `DiagramDatabase.DiagramDB.constructor` | src/services/diagramDB.ts:16 | a new store holds no database handle |
| `DiagramDatabase.DiagramDB.Init` | src/services/diagramDB.ts:18-45 | opening rejects with "Failed to open database" when the request fails or the database is at a later version, and then changes nothing; otherwise an older database is upgraded to version 1 with its records kept, and the handle is set |
| `DiagramDatabase.DiagramDB.EnsureDB` | src/services/diagramDB.ts:47-52 | the handle is returned exactly when one is set; otherwise the error is "Database not initialized" |
| `DiagramDatabase.DiagramDB.Create` | src/services/diagramDB.ts:54-72 | it resolves with the new id and adds the record under it, or rejects with "Failed to create diagram" (write failure or id already present) and changes nothing |
| `DiagramDatabase.DiagramDB.GetAll` | src/services/diagramDB.ts:74-89 | it resolves with every stored record, each once, as many as there are keys, or rejects with "Failed to get diagrams" |
| `DiagramDatabase.DiagramDB.GetById` | src/services/diagramDB.ts:91-106 | it resolves with the stored record, or with an absence when the id is not a key, or rejects with "Failed to get diagram" |
| `DiagramDatabase.DiagramDB.Update` | src/services/diagramDB.ts:108-144 | a failed read rejects with "Failed to get diagram for update", a missing key with "Diagram not found", a failed write with "Failed to update diagram", each changing nothing; otherwise the merged record replaces the stored one and nothing else changes |
| `DiagramDatabase.DiagramDB.Delete` | src/services/diagramDB.ts:146-161 | it removes the key (an absent key is no error) or rejects with "Failed to delete diagram" and changes nothing |

## Left out

- The asynchronous plumbing of IndexedDB is not modelled: requests, callbacks, transactions and promises. Each call completes at once, and a request the browser rejects is a boolean parameter.
- Transaction-level failures are not modelled, such as a missing collection or aborted transactions. `Valid()` keeps the collection present once a handle is set.
- The three secondary indexes (`name`, `createdAt`, `updatedAt`) are left out. Nothing in the store reads them.
- `uuidv4()` becomes the parameter `newId`. An `add` under an existing key is rejected, as IndexedDB does.
- `new Date()` becomes the parameter `now`, and dates are integers (milliseconds).
- Fields that a `Partial<Diagram>` lists explicitly as `undefined` are treated as absent. In the source they would overwrite the stored field with `undefined`.
- `DiagramDatabase.DiagramDB.GetAll`: does not state that IndexedDB lists records in ascending key order; it promises each record once, in some order.
- The structured clone that IndexedDB stores is not modelled. A record read back equals the record written.
- Positions and lengths are counted in UTF-16 code units, as JavaScript strings and `selectionStart`/`selectionEnd` count them; each `char` of the model stands for one code unit. The model only ever compares characters with a space or a newline, so what a code unit holds beyond that plays no part.
- The DOM's treatment of selection writes is not modelled (clamping to the text length, and conversion of a negative value). The restored selection is the pair of integers the handler computes.
- `setTimeout` and React's batching of `onChange` are not modelled. The editor keeps the last text passed to `onChange`, and the deferred selection writes run in order, so the last one wins (`Indentation.Resulting`).
- The first-line special case in the indent map (lines 36-38 of `src/components/MermaidEditor.tsx`) returns the same value as the general case, so the model has one case.
- A later schema version (2, adding a zoom field to each record) is not in this code; the model opens version 1, as the code does.
- The rest of the application is not part of this model: the editor's rendering and the other event handlers, `MermaidPreview`, the sidebar, the modal, and autosave and routing in `App.tsx`.

## Findings

| source | as written | input that shows it | evidently intended | confidence | as-written member | corrected member |
|---|---|---|---|---|---|---|
| src/components/MermaidEditor.tsx:14-127 | The Tab block also runs for Shift+Tab. When no two spaces precede the cursor, the Shift+Tab block emits nothing after it, so two spaces are inserted. | text "a", cursor at 1, Shift+Tab: the text becomes "a  " | Shift+Tab should only unindent, and change nothing when there is no indent | high (not executed) | `Indentation.ShiftTabInsertsIndentExample` | `Indentation.FixedShiftTabNeverIndents` |
| src/components/MermaidEditor.tsx:52-53 | After indenting a selection, its end moves by two however many lines were indented. | "a\nb" selected whole (0..3), Tab: the text is "  a\n  b" and the selection ends at 5, before "b" | the end moves by two per indented line (to 7), staying after the selected text | medium (not executed) | `Indentation.IndentSelectionEndLags` | `Indentation.IndentSelectionFixedFollowsText` |
| src/components/MermaidEditor.tsx:107-108 | After unindenting a selection, both ends move left by two even when no line lost an indent. | "ab" with "b" selected (1..2), Shift+Tab: the text is unchanged and the selection collapses to 0..0 | the start moves only when the first line lost an indent, and the end moves by the characters removed | medium (not executed) | `Indentation.UnindentSelectionMovesUnchangedSelection` | `Indentation.UnindentSelectionFixedFollowsText` |

The corrected handler is `Indentation.HandleKeyDownFixed`. It runs only the
unindent on Shift+Tab and uses `Indentation.IndentSelectionFixed` and
`Indentation.UnindentSelectionFixed` for the restored selections.
`Indentation.FixedKeepsText` shows that the correction leaves the text
unchanged in every other case.
