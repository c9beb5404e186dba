# Patient visit notes form: a Dafny model of its logic

The form (`static/ehr.js`) keeps one patient record in a page-wide slot,
`window.loadedPatientData`, and has four pieces of deterministic logic:

- **Identifier generation** (`uuid`). Sixteen random bytes get version 4 and variant `10` forced into them, as RFC 4122 requires (sections 4.1.1, 4.1.3 and 4.4). They are then written as lower-case hex in the 8-4-4-4-12 layout. Without a secure source, a fixed template is filled from weak random digits.
- **Load gate** (`loadPatientFile`). A file that does not parse, or whose `schema` is not `patient-v1`, leaves the slot alone. Otherwise the parsed document replaces the slot wholesale.
- **History rendering** (`renderVisitHistory`). A copy of the visits is sorted newest first. Each visit gives one `date:\nnotes\n\n` block, and the text is trimmed.
- **Visit recording** (`saveNewVisit`). The handler first validates the form. It then creates a record or overwrites the loaded record's demographics, and appends one visit. It derives the file name `LAST_FIRST_PID.json` and saves. A freshly created record reaches the slot only after the save completes; a loaded record is changed in the slot as it is edited (see below).

Modules, one per file:

- `Wrappers`: `Option` and `Result`.
- `Text`: the ASCII string operations the form uses: `trim`, `\s+` collapsing, `toUpperCase`, and the `[^A-Za-z0-9_-]` filter.
- `Uuid`: masking, hex encoding, hyphen layout, the fallback template, and a parser that inverts the layout.
- `Records`: the `patient-v1` document and the slot.
- `History`: the date part, the blocks, an insertion sort and the render loop.
- `Recorder`: validation, file name, and the record transition `RecordVisit`.
- `Session`: a class `EhrSession` whose one field is the slot. Its methods are the handlers that assign the slot.

One aliasing detail matters. When a record is loaded, `saveNewVisit` mutates that same object (ehr.js:136). So the slot already shows the new demographics and the new visit before the save is awaited. A failed save therefore still changes a loaded record. A fresh record enters the slot only after a successful save (ehr.js:162-163). The model treats the save as an input `saveSucceeds` and proves both behaviours.

The handler awaits the save (ehr.js:162), so other handlers may run before it assigns the slot (ehr.js:163). `Session.EhrSession` therefore has the handler in two steps, `BeginSaveNewVisit` up to the save and `FinishSaveNewVisit` after it; `SaveNewVisit` is the two run back to back.

Two consequences of the code worth knowing:

- The character class `[^A-Za-z0-9_-]` keeps `-`, so ("Ana", "Ruiz", "A12-34") gives the file name `RUIZ_ANA_A12-34.json` (`Recorder.FilenameKeepsHyphen`).
- The birthdate is read without trimming (ehr.js:122), so a blank-only birthdate passes validation (`Recorder.BlankBirthdateAccepted`).

## Model

| member | source | states |
|---|---|---|
| Text.TrimStart | static/ehr.js:120-124 | the result is a suffix of the input, everything cut is white space, and it does not start with white space |
| Text.TrimEnd | static/ehr.js:120-124 | the result is a prefix of the input, everything cut is white space, and it does not end with white space |
| Text.Trim | static/ehr.js:116 | the trimmed text is no longer than the input and has no white space at either end |
| Text.TrimCutsOnlySpace | static/ehr.js:120-124 | the trimmed text is a contiguous slice of the input, and only white space lies before and after it |
| Text.TrimEmptyIff | static/ehr.js:126-134 | a trimmed field is empty exactly when the raw field is all white space |
| Text.TrimIdempotent | static/ehr.js:120-124 | trimming twice gives the same text as trimming once |
| Text.Upper | static/ehr.js:157-158 | upper-casing keeps the length and maps each character through ASCII upper-casing |
| Text.UpperAppend | static/ehr.js:157-158 | upper-casing distributes over concatenation |
| Text.UpperShape | static/ehr.js:157-158 | after upper-casing no lower-case letter is left, and white space stays exactly where it was |
| Text.CollapseSpaces | static/ehr.js:157-158 | no white space remains and the text does not grow |
| Text.TrimStartOfSpaceRun | static/ehr.js:157-158 | skipping a white-space run lands exactly on the first character after it |
| Text.CollapseSpacesRun | static/ehr.js:157-158 | a maximal white-space run after a stretch without white space becomes exactly one `_`, with the text on both sides kept |
| Text.CollapseSpacesIdentity | static/ehr.js:157-158 | a name without white space is left unchanged |
| Text.CollapseSpacesIdempotent | static/ehr.js:157-158 | collapsing twice gives the same text as collapsing once |
| Text.KeepPidChars | static/ehr.js:159 | the filtered pid contains only `[A-Za-z0-9_-]` characters and does not grow |
| Text.KeepPidCharsAppend | static/ehr.js:159 | the filter decides each character on its own: it distributes over concatenation |
| Text.KeepPidCharsIdentity | static/ehr.js:159 | a pid made only of allowed characters, `-` included, is kept whole |
| Text.KeepPidCharsNone | static/ehr.js:159 | a pid with no allowed character becomes empty |
| Uuid.HexDigit | static/ehr.js:13 | each nibble is written as one lower-case hex digit |
| Uuid.DigitValue | static/ehr.js:13 | reading a lower-case digit back gives the nibble that writes it; an inverse that pins down the encoder, with no counterpart in the source |
| Uuid.ByteHex | static/ehr.js:13 | each byte is written as exactly two lower-case hex digits (the zero padding) |
| Uuid.HexEncode | static/ehr.js:13 | the hex string has two lower-case digits per byte, and bytes `i` map to positions `2i`, `2i+1` |
| Uuid.HexDecode | static/ehr.js:13 | a decodable string has exactly two characters per byte; an inverse that pins down the encoder, with no counterpart in the source |
| Uuid.HexDecodeEncode | static/ehr.js:13 | decoding the hex encoding gives back the bytes |
| Uuid.HexEncodeDecode | static/ehr.js:13 | any string that decodes is exactly the encoding of its bytes |
| Uuid.Hyphenate | static/ehr.js:15-21 | the 8-4-4-4-12 layout of 32 digits is 36 characters long |
| Uuid.Unhyphenate | static/ehr.js:15-21 | removing the four hyphens leaves 32 characters; an inverse that pins down the layout, with no counterpart in the source |
| Uuid.HyphenateUnhyphenate | static/ehr.js:15-21 | removing the hyphens undoes the layout |
| Uuid.UnhyphenateHyphenate | static/ehr.js:15-21 | the layout of the unhyphenated digits gives back any string with hyphens at 8, 13, 18 and 23 |
| Uuid.Format | static/ehr.js:13-21 | 16 bytes give 36 characters: `-` at 8, 13, 18 and 23, lower-case hex digits everywhere else |
| Uuid.Parse | static/ehr.js:13-21 | an identifier that parses yields exactly 16 bytes; an inverse that pins down the format, with no counterpart in the source |
| Uuid.ParseFormat | static/ehr.js:13-21 | parsing the formatted identifier gives back the 16 bytes |
| Uuid.FormatParse | static/ehr.js:13-21 | every identifier that parses is the format of its bytes |
| Uuid.FormatInjective | static/ehr.js:13-21 | distinct byte strings give distinct identifiers |
| Uuid.Mask | static/ehr.js:10-11 | byte 6 gets high nibble 4 and byte 8 gets high bits `10`; their low bits and all other bytes are kept |
| Uuid.FromBytes | static/ehr.js:6-21 | the secure-path identifier is canonical, with `4` at index 14 and one of `8`, `9`, `a`, `b` at index 19 |
| Uuid.FromBytesDeterminedByRandomBits | static/ehr.js:10-21 | two secure-path identifiers are equal only if the random bytes agree outside the six forced bits |
| Uuid.MaskInPlace | static/ehr.js:10-11 | the array afterwards holds the masked bytes |
| Uuid.RandomValuesUuid | static/ehr.js:6-21 | the array is masked in place and the result is the format of the masked bytes, a version-4 identifier |
| Uuid.Placeholders | static/ehr.js:26-27 | one random nibble is drawn per `x` or `y`, so no more draws than template characters |
| Uuid.FallbackPlaceholders | static/ehr.js:26 | the fallback template draws 31 random digits |
| Uuid.FallbackTemplateLayout | static/ehr.js:26 | the fallback template has hyphens at 8, 13, 18 and 23, `4` at 14 and `y` at 19 |
| Uuid.FillTemplate | static/ehr.js:26-30 | the filled template has the same length; `x` becomes a hex digit, `y` one of `8`, `9`, `a`, `b`, and everything else is kept |
| Uuid.FillTemplateVersion4 | static/ehr.js:26-30 | filling any template in the version-4 layout yields a version-4 identifier |
| Uuid.Kinds | static/ehr.js:26-28 | the placeholders in order, one `x` or `y` per draw |
| Uuid.ReadTemplate | static/ehr.js:26-30 | reading a filled template back yields one nibble per draw; an inverse with no counterpart in the source |
| Uuid.ReadFillTemplate | static/ehr.js:26-30 | reading back a filled template gives every draw in full at an `x`, and its two low bits at a `y` |
| Uuid.FillDeterminesKept | static/ehr.js:26-30 | two fills of one template are equal only if their draws agree on what each placeholder keeps |
| Uuid.FallbackKinds | static/ehr.js:26 | the fallback template draws fifteen `x`, one `y`, then fifteen `x` |
| Uuid.FallbackDeterminedByNibbles | static/ehr.js:26-30 | two weak-path identifiers are equal only if the thirty `x` draws agree and the `y` draw agrees in its two low bits |
| Uuid.FallbackUuid | static/ehr.js:26-30 | the weak-path identifier meets the same guarantees as the secure path: 36 characters, hyphens, `4` at 14, variant digit at 19 |
| History.DatePart | static/ehr.js:111 | the date is the prefix of the timestamp up to its first `T`, or all of it when there is no `T` |
| History.NotesText | static/ehr.js:112 | missing notes read as the empty string, present notes as they are |
| History.BlockShape | static/ehr.js:111-113 | a block is the date, `:` and a line break, the notes, and a blank line |
| History.TranscriptStartsWithFirstBlock | static/ehr.js:109-114 | the accumulated text is empty exactly when there are no visits, and otherwise opens with the first visit's block |
| History.HistoryText | static/ehr.js:100-116 | no record or no `visits` gives `""`, and the history never starts or ends with white space |
| History.DatePartAt | static/ehr.js:111 | when the first `T` is at index `i`, the date is exactly the first `i` characters |
| History.TranscriptAppend | static/ehr.js:109-114 | appending a visit appends exactly its `date:\nnotes\n\n` block |
| History.Insert | static/ehr.js:105-107 | inserting into a newest-first list keeps it newest first and adds exactly that visit |
| History.SortByTimeDesc | static/ehr.js:105-107 | the sorted copy is newest first and is a permutation of the stored visits |
| History.RenderVisitHistory | static/ehr.js:96-117 | the loop's trimmed text is the history of the slot: no record or no `visits` gives `""`, otherwise the trimmed blocks of the sorted copy |
| History.HistoryEmpty | static/ehr.js:100-103 | no record, no `visits` field, or an empty visit list renders as `""` |
| History.HistoryIsDisplayOrder | static/ehr.js:105-116 | the history is the trimmed blocks of some newest-first permutation of the stored visits |
| History.DisplayOrderUnique | static/ehr.js:105-107 | when no two visits share an instant, there is only one newest-first permutation |
| History.HistoryIgnoresStoredOrder | static/ehr.js:105-116 | when the stored visits have distinct instants, reordering them does not change the history |
| History.SortKeepsDistinct | static/ehr.js:105-107 | sorting a copy of visits with distinct instants keeps the instants distinct |
| History.InsertKeepsDistinct | static/ehr.js:105-107 | inserting a visit whose instant is new into a newest-first list keeps the instants distinct |
| History.HistoryNewestFirst | static/ehr.js:105-116 | two visits stored oldest first render as the newer block, then the older one, trimmed |
| Recorder.Validate | static/ehr.js:120-134 | demographics fail exactly when a trimmed name or pid or the raw birthdate is empty; notes fail exactly when demographics pass and trimmed notes are empty; otherwise the trimmed values and raw birthdate are kept |
| Recorder.ValidEntryShape | static/ehr.js:120-134 | an accepted entry has five non-empty fields, and the first name, last name, pid and notes have no white space at either end |
| Recorder.BlankBirthdateAccepted | static/ehr.js:122-126 | a blank-only birthdate passes validation and is stored as typed |
| Recorder.SafeName | static/ehr.js:157-158 | a name part of the file name has no white space and no lower-case letter |
| Recorder.SafeNameRun | static/ehr.js:157-158 | a white-space run inside a name becomes exactly one `_`, with the part before it upper-cased and the rest made safe on its own |
| Recorder.Filename | static/ehr.js:157-160 | the file name is the safe last name, `_`, the safe first name, `_`, the filtered pid and `.json`, and contains no white space |
| Recorder.FilenameOfCleanEntry | static/ehr.js:157-160 | upper-case names without white space and an allowed pid appear verbatim in `LAST_FIRST_PID.json` |
| Recorder.FilenameIgnoresBirthdateAndNotes | static/ehr.js:157-160 | the file name depends only on the names and the pid |
| Recorder.FilenameKeepsHyphen | static/ehr.js:157-160 | ("Ana", "Ruiz", "A12-34") gives `RUIZ_ANA_A12-34.json` |
| Recorder.NewRecord | static/ehr.js:136-144 | a created record is tagged `patient-v1`, carries the new identifier and the form's demographics, and has no visits |
| Recorder.WithDemographics | static/ehr.js:146-149 | the four demographic fields become the form's; schema, identifier and visits are untouched |
| Recorder.NewVisit | static/ehr.js:151-155 | the pushed visit carries the new visit identifier, the current time and the notes |
| Recorder.RecordVisit | static/ehr.js:119-163 | an alert leaves the slot unchanged; a completed save leaves the written record in the slot; with nothing loaded, the slot changes only on a completed save |
| Recorder.StopsBeforeSave | static/ehr.js:126-151 | when the handler stops before the save, the save's result makes no difference |
| Recorder.IncompleteFormChangesNothing | static/ehr.js:126-134 | an incomplete form leaves the slot unchanged and saves nothing; the error names the demographics exactly when they are incomplete |
| Recorder.RecordOnLoadedRecord | static/ehr.js:136-155 | on a loaded record, schema, `patient_id` and earlier visits are kept in order, demographics become the form's, and exactly one visit with the trimmed notes is appended at the end; the slot holds it either way |
| Recorder.RecordOnEmptySlot | static/ehr.js:136-163 | with nothing loaded, a completed save installs a new `patient-v1` record with the form's demographics and one visit; a rejected save leaves the slot as it was |
| Recorder.FailedSaveStillChangesLoadedRecord | static/ehr.js:136-163 | for a loaded record the slot is the same whether the save completes or not, and it differs from the record before |
| Recorder.RecordWithoutVisits | static/ehr.js:146-151 | a loaded record without `visits` gets the new demographics, then `push` throws: no visit and no save |
| Recorder.RecordKeepsSchema | static/ehr.js:136-155 | if the slot held only `patient-v1` records before, it does after, and so does the record handed to the save |
| Recorder.SavedRecordIsInstalled | static/ehr.js:162-163 | a save completes exactly when the form is valid, the save succeeds and `push` does not throw; the slot then holds exactly the written record under the derived file name |
| Session.EhrSession.constructor | static/ehr.js:98 | a fresh page has nothing loaded |
| Session.EhrSession.LoadPatientFile | static/ehr.js:65-79 | unparseable input or a schema other than `patient-v1` leaves the slot unchanged with the matching error; otherwise the slot becomes exactly the parsed document |
| Session.EhrSession.BeginSaveNewVisit | static/ehr.js:119-160 | up to the awaited save, the slot updates in source order with the aliasing: it stops with an alert or the `push` error exactly as `RecordVisit` does, or hands to the save the record and file name `RecordVisit` reports, with the slot as it is while the save is pending |
| Session.EhrSession.FinishSaveNewVisit | static/ehr.js:163 | after the save the slot is the saved record, whatever another handler assigned meanwhile |
| Session.EhrSession.SaveNewVisit | static/ehr.js:119-163 | the two steps run back to back end in the slot and outcome of `RecordVisit` and keep the `patient-v1` invariant |
| Session.EhrSession.ClearAllFields | static/ehr.js:182 | the slot becomes the cleared (falsy) value |
| Session.EhrSession.RenderVisitHistory | static/ehr.js:96-117 | rendering returns the history of the current slot and changes nothing |
| Session.RecordedVisitIsListed | static/ehr.js:162-165 | after a visit is recorded on a loaded record, the history lists the earlier visits plus the new one, each once, newest first |

## Left out

- `crypto.randomUUID` (ehr.js:2-3): the platform's own generator is opaque. The identifiers that `saveNewVisit` stores are inputs, and `Uuid` models the two paths the file implements.
- `crypto.getRandomValues` and `Math.random`: the random bytes and nibbles are parameters. The `console.warn` of the weak path is a diagnostic only.
- `saveJSON` (ehr.js:33-59): the save picker, writable streams, `Blob`, object URLs and the anchor click are platform I/O. The save is modelled as an input that says whether the awaited save completes. A rejection is the `SaveRejected` outcome, which stands for the uncaught rejection.
- Session.EhrSession.SaveNewVisit: runs its two steps with no other handler in between. Calling `BeginSaveNewVisit`, then a handler that does not touch the loaded record object (`loadPatientFile` or `clearAllFields`, which assign the slot), then `FinishSaveNewVisit`, follows the source. Two overlapping saves on one loaded record do not; see the next line. Beyond `FinishSaveNewVisit` overwriting the slot, no property of a particular interleaving is proved.
- Session.EhrSession.FinishSaveNewVisit: the record carried across the await is a copy taken when the save starts. In the source it is the live loaded object (ehr.js:136). A visit that a second overlapping `saveNewVisit` pushes onto that object before ehr.js:163 is therefore not reflected. The model keeps only the first handler's visit where the source keeps both, whether or not the second save completes. Records are values here, so object identity and sharing between handlers are not modelled.
- `JSON.stringify`, `JSON.parse` and `FileReader`: foreign library calls. The parse result is an `Option` of a record. The save-then-reload round trip is not modelled, because it rests on JSON serialisation.
- JSON documents of other shapes: parsed `null`, non-string fields, visits without `content` or `timestamp`. The record type gives every field a string, and only `visits` (and a visit's notes) may be absent.
- `new Date()`, `toISOString()` and `Date` parsing: a timestamp is its text plus the instant that parsing yields. An unparseable timestamp (NaN in the comparator) is not modelled.
- History.SortByTimeDesc: equal instants keep their stored order, as the stable `Array.prototype.sort` of ECMAScript 2019 does, but stability is not stated as a contract; the claims are sortedness, permutation and uniqueness for distinct instants (`History.HistoryIsDisplayOrder`, `History.DisplayOrderUnique`).
- Text.IsSpace: only ASCII white space counts. JavaScript's `\s` and `trim` also match Unicode spaces such as U+00A0.
- Text.Upper: only ASCII letters are upper-cased. JavaScript's `toUpperCase` follows full Unicode case mapping.
- DOM effects: reading and writing the form fields, the history box, the file input, `alert` and `showToast` (ehr.js:81-90, 165-171, 175-184, 187-207). These are UI only. `Session.EhrSession.RenderVisitHistory` returns the text that would be written to the history box.
