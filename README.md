# hemaNurseManager editors in Dafny

This project models the three browser editors of hemaNurseManager. Each one loads a JSON file, lets the user edit it, and exports it again:

- **Chemotherapy medication catalogue** (`chemoMedicationManager/app.js`). A flat drug list, or a file already grouped by category, is regrouped into A–Z buckets keyed by the first character of each drug's name. Each drug is normalised on load. Drugs are edited through a form whose structured lists (side effects, premedications, prophylaxis, supportive care) are written and read back as lines of text. The catalogue is exported as a flat list in the file's own field names.
- **Chemotherapy protocol tree** (`chemoProtocolManager/app.js`). This is a disease → phase → protocols tree. The editor adds and deletes diseases and phases, edits a phase's goal, and edits protocols through a draft. That includes adding, removing and updating drug rows, and saving the draft back into the phase's protocol list.
- **IV-compatibility list** (`drugInteractionManager/app.js`).
  - A nested drug-A → drug-B matrix, or a list saved earlier, is loaded into a list of records.
  - Records are added or edited through a dialog. Its note is generated from the four route ratings by a three-tier decision table: the core sentence, the modifier sentences and the summary.
  - Saving rejects blank names and duplicate pairs.
  - The list is searched, shown with a severity badge, collected into a sorted name list, and exported back to the nested matrix.

Parsed JSON is the `Json` datatype, and an object is an ordered field list. JavaScript truthiness is `Truthy`, and `undefined` is `None`.

A JavaScript exception that ends a handler (reading a property of `null`, `.trim` or `.toLowerCase` on a non-string, `.map` on a non-array) is an error outcome in the model. That outcome carries the state the source leaves behind: a partly filled catalogue, a partly filled matrix list, or a tree left unchanged.

Each page's state is a class:

- `MedicationEditor.Editor`
- `ProtocolEditor.Editor`
- `InteractionStore.Store`

Every handler is a method proved against the pure functions of its module. The loops of the source (regrouping, matrix walking, list mapping, export, the sorted datalist) are `while` loops with their invariants.

When all four ratings are missing, the generated note ends with "Compatible, but missing data warrants caution" (`AutoNote.AllMissingNote`). The generic "limited or mixed information" summary is reached only through a rating outside the four known values (`AutoNote.SummaryMeaning`).

## Model

| member | source | states |
|---|---|---|
| `Lists.RemoveAt` | drugInteractionManager/app.js:298 | `splice(index, 1)`: an index inside the list removes exactly that element, and later elements move down by one. An index past the end changes nothing. |
| `Lists.PlaceAt` | drugInteractionManager/app.js:284-288 | Without an index the new element is appended. An index inside the list replaces that slot only, and every other element stays. |
| `Json.OrElse` | chemoMedicationManager/app.js:101-116 | `a or fallback`: a truthy value is kept, and a falsy or undefined one gives the fallback. |
| `Json.Either` | chemoMedicationManager/app.js:103-113 | `a or b` on two possibly undefined values: the first if truthy, else the second. |
| `Json.Member` | chemoProtocolManager/app.js:233 | Reading a property: the object's field, or undefined for a non-object. |
| `Json.WithMember` | chemoProtocolManager/app.js:197 | Assigning a property changes an object's field list (replacing or appending the key). A non-object is left as it is. |
| `Json.MemberWith` | chemoProtocolManager/app.js:197 | After an assignment the property reads as the assigned value, and every other property reads as before. |
| `Json.WithMemberTwice` | chemoProtocolManager/app.js:197 | Two assignments to the same property amount to the second one. |
| `Json.WithMemberSame` | chemoProtocolManager/app.js:197 | Assigning a property its current value leaves the object unchanged. |
| `Json.WithoutMember` | chemoProtocolManager/app.js:206 | `delete`: an object loses that key, and a non-object is untouched. |
| `Json.FieldValues` | chemoMedicationManager/app.js:77 | `Object.values`: the values in key order, one per field. |
| `Text.Trim` | chemoMedicationManager/app.js:52 | `trim()`: the result has no white space at either end and is no longer than the input. |
| `Text.TrimIdempotent` | drugInteractionManager/app.js:238-241 | Trimming twice is trimming once. |
| `Text.Upper` | chemoMedicationManager/app.js:52 | `toUpperCase()`, character by character, with the same length. |
| `Text.Lower` | drugInteractionManager/app.js:260-261 | `toLowerCase()`, character by character, with the same length. |
| `Text.SplitJoin` | chemoMedicationManager/app.js:352 | Splitting the join of separator-free parts gives the parts back. |
| `Text.JoinSplit` | chemoMedicationManager/app.js:352 | Joining the pieces of a split gives the text back. |
| `Text.MapTrim` | chemoMedicationManager/app.js:318 | `map(l => l.trim())`: one trimmed piece per piece. |
| `Text.NonBlank` | chemoMedicationManager/app.js:318 | `filter(Boolean)`: every kept piece is non-empty, and nothing is lost when none is empty. |
| `Text.NonBlankMembers` | chemoMedicationManager/app.js:318 | A piece is in the result exactly when it is a non-empty piece of the input. |
| `Text.NonBlankAppend` | chemoMedicationManager/app.js:318 | Filtering a concatenation filters each run and keeps the runs in order. |
| `Text.NonBlankOne` | chemoMedicationManager/app.js:318 | A single piece is kept exactly when it is non-empty; with `NonBlankAppend` this fixes the order of the whole result. |
| `Text.Lines` | chemoMedicationManager/app.js:317-319 | The entries read from a text area are non-empty, trimmed and free of line breaks; `LinesJoinLinesBlank` says which entries they are. |
| `Text.LinesJoinLines` | chemoMedicationManager/app.js:313-319 | Writing clean entries into a text area and reading it back gives the same entries. |
| `Text.LinesJoinLinesBlank` | chemoMedicationManager/app.js:313-319 | Single-line entries written to a text area come back trimmed, the blank ones dropped and the others kept in order. |
| `Text.LinesJoinLinesTrim` | chemoMedicationManager/app.js:313-319 | Single-line entries that are not blank come back from a text area trimmed, one per entry, in order. |
| `Text.LinesIdempotent` | chemoMedicationManager/app.js:313-319 | Reading, writing back and reading a text area again changes nothing. |
| `Text.NatToString` | drugInteractionManager/app.js:45 | The keys `Object.keys` gives an array: a non-empty digit string. |
| `Text.NatToStringValue` | drugInteractionManager/app.js:45 | Reading the decimal digits of an index key back gives the index. |
| `Text.NatToStringInjective` | drugInteractionManager/app.js:45 | Different indices have different keys. |
| `Medications.TextKey` | chemoMedicationManager/app.js:50-55 | A name's bucket is a letter or digit, or `#`. It is not `#` exactly when the trimmed name is non-empty and its upper-cased first character is a letter or digit, and then the bucket is that character. |
| `Medications.GroupKey` | chemoMedicationManager/app.js:50-55 | The key lookup fails (throws at `.trim`) exactly when the name is truthy and not a string. Otherwise it yields a letter, digit or `#`. |
| `Medications.TextKeyFirst` | chemoMedicationManager/app.js:52-54 | A non-blank first character decides the bucket: its capital if that is a letter or digit, otherwise `#`. |
| `Medications.TextKeyPadding` | chemoMedicationManager/app.js:52 | Leading white space does not change the bucket. |
| `Medications.TextKeyCase` | chemoMedicationManager/app.js:52 | A name starting with a lower-case letter files under the capital letter. |
| `Medications.TextKeyOfKey` | chemoMedicationManager/app.js:54 | A one-character name that is a letter or digit files under itself. |
| `Medications.IndicationList` | chemoMedicationManager/app.js:107 | An array of indications is kept. A truthy single value becomes a one-element list. Anything else becomes the empty list. |
| `Medications.NormalizeDrug` | chemoMedicationManager/app.js:98-117 | Field by field: a truthy `name`, `class`, `mechanism`, `warnings`, `nursingInfo`, `premedications` or `source` is kept, and otherwise the field is `""` (scalars) or `[]` (lists). For each alias pair (`routes`/`route`, `extravasation_risk`/`extravasationRisk`, `side_effects`/`sideEffects`, `required_prophylaxis`/`requiredProphylaxis`, `supportive_care`/`supportiveCare`) a truthy first name wins, then a truthy second name, then the default. Indications follow `IndicationList`. The result is canonical and has no monitoring. |
| `Medications.ExportIndication` | chemoMedicationManager/app.js:458 | A single indication is exported bare, and any other number as the list. |
| `Medications.ExportDrug` | chemoMedicationManager/app.js:454-470 | The exported record is an object whose fields are, in the source's order, the identity, the structured lists and the trailing lists. |
| `Medications.ExportHeadReads` | chemoMedicationManager/app.js:455-459 | The export names the drug's name, class, routes, indication and extravasation risk in the file's snake_case names. The camelCase `route` and `extravasationRisk` are absent. |
| `Medications.ExportBodyReads` | chemoMedicationManager/app.js:460-463 | The side effects, premedications, prophylaxis and supportive care read back from the export unchanged. |
| `Medications.ExportTailReads` | chemoMedicationManager/app.js:464-469 | Source, mechanism, warnings and nursing info read back from the export unchanged. |
| `Medications.ExportNormalizeRoundTrip` | chemoMedicationManager/app.js:98-117 | Reloading an exported canonical drug gives the same drug, except that monitoring is dropped. This holds when a lone indication is truthy and not an array. |
| `Medications.NormalizeExportIdempotent` | chemoMedicationManager/app.js:454-470 | Normalising, exporting and normalising again is the same as normalising once. |
| `Medications.DrugFromForm` | chemoMedicationManager/app.js:389-408 | The drug the dialog builds: the inputs as typed, each text area as its non-blank trimmed lines, and the structured lists through their line parsers. `FormDrugCanonical` and `SavedDrugRoundTrip` state what that drug satisfies. |
| `Medications.FormDrugCanonical` | chemoMedicationManager/app.js:392-408 | A drug saved from the form is canonical. |
| `Medications.FormIndicationOk` | chemoMedicationManager/app.js:398 | A drug saved from the form never has a lone indication that export would corrupt. |
| `Medications.SavedDrugRoundTrip` | chemoMedicationManager/app.js:389-470 | Exporting a drug saved from the form and reloading it gives the same drug, except for its monitoring list. |
| `MedicationCodecs.EntryTexts` | chemoMedicationManager/app.js:327 | One `key: value` text per object entry, in order. |
| `MedicationCodecs.IndexedTexts` | chemoMedicationManager/app.js:327 | One text per array element, keyed by its position. |
| `MedicationCodecs.FlattenEntries` | chemoMedicationManager/app.js:324-344 | The mapped lines exist exactly when every entry can be flattened (none is `null`). They are then the entries' lines, in order. |
| `MedicationCodecs.FlattenList` | chemoMedicationManager/app.js:322-345 | A falsy list gives no lines, an array gives its entries' lines, and a truthy non-array throws at `.map`. |
| `MedicationCodecs.BuildEntries` | chemoMedicationManager/app.js:351-355 | The object built from a line's parts, one part after another; a repeated key keeps its first position and takes the later value. `BuildEntriesCons` and `BuildEntriesFresh` state it. |
| `MedicationCodecs.BuildEntriesCons` | chemoMedicationManager/app.js:352-355 | The parts of a side-effect line are added to the object one after another. |
| `MedicationCodecs.ParseSideEffect` | chemoMedicationManager/app.js:348-357 | A line without a colon stays a string, and a line with one becomes an object. |
| `MedicationCodecs.ParseList` | chemoMedicationManager/app.js:348-381 | One parsed entry per line, in order. |
| `MedicationCodecs.FlattenSideEffect` | chemoMedicationManager/app.js:322-329 | One side-effect entry as a line: it fails exactly on `null`, and a string stays as it is. `SideEffectLine` gives the line of an object. |
| `MedicationCodecs.FlattenPremed` | chemoMedicationManager/app.js:331-337 | One premedication as a line: it fails exactly on `null`, and a string stays as it is. `PremedLine` gives the line of an object. |
| `MedicationCodecs.ParsePremed` | chemoMedicationManager/app.js:360-370 | One line as a premedication: a line with fewer than two parts is the drug, otherwise the first three trimmed parts. `ParsePremedOf`, `PremedSinglePart` and `PremedRoundTrip` state it. |
| `MedicationCodecs.PremedLine` | chemoMedicationManager/app.js:335 | A premedication object is written as `drug`, `route`, `timing` joined by bars. |
| `MedicationCodecs.ParsePremedOf` | chemoMedicationManager/app.js:360-369 | A line with three trimmed parts parses to the premedication with those fields. |
| `MedicationCodecs.ParseTypeNoteOf` | chemoMedicationManager/app.js:372-380 | A line with two trimmed parts parses to the type/notes entry with those fields. |
| `MedicationCodecs.PremedRoundTrip` | chemoMedicationManager/app.js:331-370 | A premedication with clean fields (trimmed, no bar) is written as a line that parses back to it. |
| `MedicationCodecs.PremedParseBack` | chemoMedicationManager/app.js:360-369 | The bar-joined line of clean fields parses back to the premedication. |
| `MedicationCodecs.FlattenTypeNote` | chemoMedicationManager/app.js:339-345 | One prophylaxis or supportive-care entry as a line: it fails exactly on `null`, and a string stays as it is. `TypeNoteLine` gives the line of an object. |
| `MedicationCodecs.ParseTypeNote` | chemoMedicationManager/app.js:372-381 | One line as a type/notes entry: a line with fewer than two parts is the type, otherwise the first two trimmed parts. `ParseTypeNoteOf`, `TypeNoteIgnoresThirdPart` and `TypeNoteRoundTrip` state it. |
| `MedicationCodecs.TypeNoteLine` | chemoMedicationManager/app.js:343 | A type/notes entry is written as `type` and `notes` joined by a bar. |
| `MedicationCodecs.TypeNoteRoundTrip` | chemoMedicationManager/app.js:339-381 | A type/notes entry with clean fields is written as a line that parses back to it. |
| `MedicationCodecs.TypeNoteParseBack` | chemoMedicationManager/app.js:372-380 | The bar-joined line of clean fields parses back to the type/notes entry. |
| `MedicationCodecs.TypeNoteIgnoresThirdPart` | chemoMedicationManager/app.js:376-379 | Parts after the second are dropped; the first two are trimmed. |
| `MedicationCodecs.PremedSinglePart` | chemoMedicationManager/app.js:363 | A line without a bar becomes a premedication named by the whole line, with empty route and timing. |
| `MedicationCodecs.PremedsRoundTrip` | chemoMedicationManager/app.js:331-370 | A whole premedication list with clean fields comes back unchanged when its flattened lines are parsed again. |
| `MedicationCodecs.TypeNotesRoundTrip` | chemoMedicationManager/app.js:339-381 | A whole prophylaxis or supportive-care list with clean fields comes back unchanged when its flattened lines are parsed again. |
| `MedicationCodecs.BarLineTrim` | chemoMedicationManager/app.js:317-319 | A premedication or type/notes line with two or more bar-separated parts is not blank, and trimming it in the text area does not change what it parses to. |
| `MedicationCodecs.BarLinesThroughForm` | chemoMedicationManager/app.js:313-319 | Single-line entries of two or more bar-separated parts parse the same after the text area's join, split, trim and filter. |
| `MedicationCodecs.PremedFormLine` | chemoMedicationManager/app.js:331-337 | The line of a premedication with single-line clean fields stays on one line and has three bar-separated parts. |
| `MedicationCodecs.PremedsThroughForm` | chemoMedicationManager/app.js:308-405 | A premedication list whose fields are clean and hold no line break survives the whole edit: flattened, joined into the text area, read back line by line and parsed on save. |
| `MedicationCodecs.TypeNoteFormLine` | chemoMedicationManager/app.js:339-345 | The line of a type/notes entry with single-line clean fields stays on one line and has two bar-separated parts. |
| `MedicationCodecs.TypeNotesThroughForm` | chemoMedicationManager/app.js:309-407 | A prophylaxis or supportive-care list whose fields are clean and hold no line break survives the whole edit. |
| `MedicationCodecs.StrFields` | chemoMedicationManager/app.js:354 | The object fields of string pairs, one per pair, in order. |
| `MedicationCodecs.PairTexts` | chemoMedicationManager/app.js:327 | One `key: value` text per pair, in order. |
| `MedicationCodecs.EntryOfPair` | chemoMedicationManager/app.js:353-354 | A clean `key: value` part reads back as that pair. |
| `MedicationCodecs.PairTextsReadBack` | chemoMedicationManager/app.js:352-355 | The texts of clean pairs read back, part by part, as those pairs. |
| `MedicationCodecs.BuildEntriesFresh` | chemoMedicationManager/app.js:351-356 | Parts that read as pairs with distinct fresh keys add exactly those fields, in order. |
| `MedicationCodecs.PairLineHasColon` | chemoMedicationManager/app.js:350 | A flattened object with at least one key contains a colon, so it is parsed as an object. |
| `MedicationCodecs.SideEffectLine` | chemoMedicationManager/app.js:327 | A side-effect object of strings is written as its `key: value` texts joined by bars. |
| `MedicationCodecs.SideEffectParseBack` | chemoMedicationManager/app.js:348-357 | That line parses back to the same object when keys and values are clean and the keys are distinct. |
| `MedicationCodecs.SideEffectRoundTrip` | chemoMedicationManager/app.js:322-357 | A non-empty side-effect object with clean, distinct keys and values comes back unchanged when its flattened line is parsed again. |
| `MedicationCodecs.PairLineForm` | chemoMedicationManager/app.js:322-329 | The bar-joined `key: value` line of single-line clean pairs is non-empty, trimmed and free of line breaks, so the text area gives it back as it is. |
| `MedicationCodecs.SideEffectFormLine` | chemoMedicationManager/app.js:322-357 | Such a side-effect object's line is non-empty, trimmed, on one line, and parses back to the object. |
| `MedicationCodecs.SideEffectsThroughForm` | chemoMedicationManager/app.js:307-404 | A list of side-effect objects with single-line clean, distinct keys and values survives the whole edit: flattened, joined into the text area, read back line by line and parsed on save. |
| `MedicationGroups.InsertKey` | chemoMedicationManager/app.js:62-66 | A new bucket key joins the enumeration order once, and nothing else does. A non-digit key goes last. |
| `MedicationGroups.InsertKeyOrdered` | chemoMedicationManager/app.js:62-66 | Adding a fresh key keeps the order JavaScript enumerates it in: digit keys first and ascending, no repeats. |
| `MedicationGroups.Empty` | chemoMedicationManager/app.js:47 | The cleared catalogue is valid and has no buckets. |
| `MedicationGroups.AddDrug` | chemoMedicationManager/app.js:62-69 | Filing a drug appends it to its bucket, creating the bucket if needed. Other buckets are unchanged. |
| `MedicationGroups.AddDrugValid` | chemoMedicationManager/app.js:62-69 | Filing a drug keeps the catalogue valid: the order lists exactly the buckets, without repeats, in enumeration order. |
| `MedicationGroups.Prepare` | chemoMedicationManager/app.js:60-69 | Each loaded item gives its bucket key (or a failure) and its normalised drug. |
| `MedicationGroups.AllKeyedPrefix` | chemoMedicationManager/app.js:59-70 | A prefix of items that all have keys still all have keys. |
| `MedicationGroups.FileAll` | chemoMedicationManager/app.js:59-70 | The filing loop: each drug is appended to the bucket of its key, and the first drug without a key stops the loop with the buckets filled so far. `FileAllValid`, `FileAllOk`, `FileAllBucket` and `FileAllStops` state it. |
| `MedicationGroups.LoadItems` | chemoMedicationManager/app.js:58-70 | The flat load: every item normalised and filed under the key of its name. `LoadItemsPartition`, `LoadItemsStops` and `LoadItemsBuckets` state it. |
| `MedicationGroups.FileAllValid` | chemoMedicationManager/app.js:59-70 | The regrouping loop always leaves a valid catalogue, even when it throws midway. |
| `MedicationGroups.FileAllOk` | chemoMedicationManager/app.js:59-70 | The load succeeds exactly when every item has a key. |
| `MedicationGroups.FileAllBucket` | chemoMedicationManager/app.js:59-70 | After a complete load, each bucket holds exactly the drugs whose key is that bucket, in file order. A missing bucket means no such drug. |
| `MedicationGroups.LoadItemsPartition` | chemoMedicationManager/app.js:58-70 | A flat list loads without a throw exactly when every drug's name gives a key. The buckets then partition the normalised drugs by key, in file order. |
| `MedicationGroups.FileAllStops` | chemoMedicationManager/app.js:59-70 | At the first item without a key the loop throws, and it keeps the buckets filled so far. |
| `MedicationGroups.LoadItemsStops` | chemoMedicationManager/app.js:59-70 | A load that throws at item `i` leaves exactly the catalogue of the first `i` items. |
| `MedicationGroups.SizeAppend` | chemoMedicationManager/app.js:440-441 | The drug count of two runs of buckets is the sum of their counts. |
| `MedicationGroups.SizeOther` | chemoMedicationManager/app.js:440-441 | Changing a bucket outside the order does not change the count. |
| `MedicationGroups.SizeUpdate` | chemoMedicationManager/app.js:440-441 | Replacing one bucket changes the count by the difference in its length. |
| `MedicationGroups.SizeInsert` | chemoMedicationManager/app.js:440-441 | Adding a key to the order adds its bucket's length. |
| `MedicationGroups.AddDrugTotal` | chemoMedicationManager/app.js:62-69 | Filing a drug adds exactly one drug to the catalogue. |
| `MedicationGroups.FileAllTotal` | chemoMedicationManager/app.js:59-70 | A complete load holds exactly as many drugs as the file lists. |
| `MedicationGroups.BucketMembers` | chemoMedicationManager/app.js:59-70 | Every drug in a bucket comes from an item filed under that key. |
| `MedicationGroups.LoadItemsBuckets` | chemoMedicationManager/app.js:58-70 | After a load every bucket is non-empty, and each of its drugs is the normalisation of a loaded item with that key. |
| `MedicationGroups.DeleteDrug` | chemoMedicationManager/app.js:247-253 | Deleting splices one drug out of the selected bucket. The other buckets, the keys and validity are unchanged. |
| `MedicationGroups.SaveDrug` | chemoMedicationManager/app.js:410-418 | Saving appends a new drug or replaces the edited one in the selected bucket. The other buckets, the keys and validity are unchanged. |
| `MedicationGroups.DeleteDrugTotal` | chemoMedicationManager/app.js:247-253 | A delete removes exactly one drug when the index is inside the bucket, and none otherwise. |
| `MedicationGroups.SaveDrugTotal` | chemoMedicationManager/app.js:410-418 | A save adds one drug when adding (or past the end), and none when replacing. |
| `MedicationGroups.CollectValues` | chemoMedicationManager/app.js:77-81 | Gathering the categories' drugs fails (throws at `cat.drugs`) exactly when some category value is `null`. |
| `MedicationGroups.CollectDropsOthers` | chemoMedicationManager/app.js:78 | A category without a `drugs` array contributes nothing. |
| `MedicationGroups.CollectAppends` | chemoMedicationManager/app.js:78-79 | A category with a `drugs` array appends its drugs in order. |
| `MedicationGroups.CollectDrugs` | chemoMedicationManager/app.js:76-81 | The drugs of a grouped file: `null` throws, an object's values are gathered, and any other value gives none. |
| `MedicationGroups.LoadJson` | chemoMedicationManager/app.js:46-96 | A flat file is filed item by item. A grouped file's drugs are gathered and then filed the same way. A failed gather leaves an empty catalogue. |
| `MedicationGroups.LoadJsonValid` | chemoMedicationManager/app.js:46-96 | Loading any file leaves a valid catalogue. |
| `MedicationGroups.GroupedLoadIsFlat` | chemoMedicationManager/app.js:71-95 | Loading a grouped file is the same as loading the flat concatenation of its groups' drugs. |
| `MedicationGroups.CollectGroups` | chemoMedicationManager/app.js:77-81 | Gathering category objects yields the concatenation of their drug lists. |
| `MedicationGroups.ExportCatalog` | chemoMedicationManager/app.js:439-473 | The flat export: each bucket's drugs in the catalogue's key order, each written by `ExportDrug`. `ExportOrderCount`, `ExportOrderHas` and `LoadExportCount` state it. |
| `MedicationGroups.ExportBucket` | chemoMedicationManager/app.js:441-472 | One export record per drug of a bucket, in order. |
| `MedicationGroups.ExportOrderCount` | chemoMedicationManager/app.js:439-473 | The flat export has exactly as many records as the catalogue holds drugs. |
| `MedicationGroups.ExportOrderSnoc` | chemoMedicationManager/app.js:440-473 | One more bucket appends its drugs' records at the end of the export. |
| `MedicationGroups.ExportOrderHas` | chemoMedicationManager/app.js:440-473 | Every drug of every bucket appears in the export. |
| `MedicationGroups.SaveDrugExported` | chemoMedicationManager/app.js:410-473 | A drug just saved appears in the next export. |
| `MedicationGroups.LoadExportCount` | chemoMedicationManager/app.js:46-473 | A successful load followed by an export gives as many records as the drugs the file listed. |
| `MedicationEditor.GatherDrugs` | chemoMedicationManager/app.js:76-81 | The gathering loop computes `CollectValues`: the concatenated drug arrays, or failure at a `null` category. |
| `MedicationEditor.Editor.constructor` | chemoMedicationManager/app.js:3-4 | The page starts with an empty, valid catalogue, no category and no open dialog. |
| `MedicationEditor.Editor.Load` | chemoMedicationManager/app.js:46-96 | After a load the catalogue is the one `LoadJson` describes, including the partial catalogue on a throw, and it is valid. The selection and dialog are untouched. |
| `MedicationEditor.Editor.FileItems` | chemoMedicationManager/app.js:59-70 | The regrouping loop over an empty catalogue produces `LoadItems` of the items. |
| `MedicationEditor.Editor.SelectCategory` | chemoMedicationManager/app.js:157-158 | Clicking a category selects it, and nothing else changes. |
| `MedicationEditor.Editor.DeleteDrug` | chemoMedicationManager/app.js:247-253 | A confirmed delete applies `DeleteDrug` to the catalogue. A refused one changes nothing. |
| `MedicationEditor.Editor.OpenDrugModal` | chemoMedicationManager/app.js:260-266 | With no category nothing happens. Otherwise the edited index is recorded and the dialog opens. |
| `MedicationEditor.Editor.CloseModal` | chemoMedicationManager/app.js:384-387 | Closing the dialog clears the edited index. The catalogue and selection are unchanged. |
| `MedicationEditor.Editor.SaveDrug` | chemoMedicationManager/app.js:389-423 | With a selected existing bucket, the form's drug is placed by `SaveDrug` and the dialog closes. Otherwise (no category, or a stale one that throws) nothing changes. Validity is kept. |
| `MedicationEditor.Editor.Export` | chemoMedicationManager/app.js:439-473 | The export loop produces the flat list `ExportCatalog` describes. |
| `ProtocolTree.DiseaseOf` | chemoProtocolManager/app.js:122 | A disease is found when the tree has a non-null member under that key. A `null` tree or a missing or null disease gives nothing. |
| `ProtocolTree.PhaseOf` | chemoProtocolManager/app.js:233 | A phase is found when its disease is found and has a non-null member under that key. |
| `ProtocolTree.ProtocolsOf` | chemoProtocolManager/app.js:232-236 | A legacy array phase is its own protocol list, and any other phase gives its `protocols` member. |
| `ProtocolTree.ShownProtocols` | chemoProtocolManager/app.js:129 | The list shown is the array phase, or a truthy `protocols` member, or an empty list. |
| `ProtocolTree.ShownGoal` | chemoProtocolManager/app.js:130 | The goal shown is a truthy `goal` member or the empty string. |
| `ProtocolTree.LegacyPhase` | chemoProtocolManager/app.js:128-130 | A legacy array phase shows and edits its elements as protocols, with an empty goal. |
| `ProtocolTree.NewPhase` | chemoProtocolManager/app.js:181-184 | A new phase has an empty goal and an empty protocol list. |
| `ProtocolTree.SetPhase` | chemoProtocolManager/app.js:181 | `tree[disease][phase] = v` on a tree whose disease can be read. `SetPhaseReads`, `SetPhaseTwice`, `SetPhaseSame` and `SetPhaseUndo` state it. |
| `ProtocolTree.SetPhaseReads` | chemoProtocolManager/app.js:181 | Writing a phase makes it read back as written (a `null` reads as missing). Other phases and other diseases are unchanged. |
| `ProtocolTree.AddDisease` | chemoProtocolManager/app.js:88-103 | It throws exactly on a `null` tree, and leaves the tree unchanged exactly when the name is already a truthy member. Otherwise the name maps to an empty object and other diseases are unchanged. |
| `ProtocolTree.DiseaseKeyNotInherited` | chemoProtocolManager/app.js:92-94 | A disease key is never a name inherited from `Object.prototype`, so the own-member test reads the key as JavaScript does. |
| `ProtocolTree.DiseaseKey` | chemoProtocolManager/app.js:92 | The stored name is trimmed, no longer than typed, and has no lower-case letter. |
| `ProtocolTree.BlankNameAddsEmptyKey` | chemoProtocolManager/app.js:89-95 | A name of spaces passes the emptiness check and adds a disease under the empty key. |
| `ProtocolTree.AddPhase` | chemoProtocolManager/app.js:176-191 | It throws exactly when the current disease is missing. It is unchanged exactly when the name already reads as truthy on the disease: a truthy own member, or a name an object inherits from `Object.prototype` that the disease does not define itself. Otherwise it writes a new phase. |
| `ProtocolTree.AddPhaseInherited` | chemoProtocolManager/app.js:180-187 | A phase named after an inherited property is refused as existing unless the disease defines that name itself. |
| `ProtocolTree.ConstructorPhaseRefused` | chemoProtocolManager/app.js:180-187 | The phase name `constructor` cannot be added to an empty disease. |
| `ProtocolTree.AddPhaseInserts` | chemoProtocolManager/app.js:180-184 | After adding a phase it reads as a new phase. Other phases and diseases are unchanged. |
| `ProtocolTree.EditGoal` | chemoProtocolManager/app.js:193-201 | It throws exactly when the phase is missing, and a cancelled prompt changes nothing. Otherwise only the phase's `goal` is set to the answer. |
| `ProtocolTree.EditGoalOnlyGoal` | chemoProtocolManager/app.js:197 | After a goal edit the goal reads as typed, and every other field, phase and disease reads as before. |
| `ProtocolTree.DeleteDisease` | chemoProtocolManager/app.js:206 | Deleting a disease throws only on a `null` tree. The disease is gone and the others are unchanged. |
| `ProtocolTree.DeletePhase` | chemoProtocolManager/app.js:214-220 | It throws exactly when the disease is missing. The phase is gone, and other phases and diseases are unchanged. |
| `ProtocolTree.WithProtocolsReads` | chemoProtocolManager/app.js:232-236 | After replacing a phase's protocol list, the list reads as written and the phase's other fields are unchanged. |
| `ProtocolTree.Assign` | chemoProtocolManager/app.js:369 | `list[index] = v`: the slot holds `v` and other elements stay. Writing past the end lengthens the list, with `null` in the gap. |
| `ProtocolTree.Place` | chemoProtocolManager/app.js:364-370 | A new protocol is pushed, and an edited one is assigned to its index. |
| `ProtocolTree.DeleteProtocol` | chemoProtocolManager/app.js:222-229 | It changes the tree exactly when the phase exists and its protocol list is an array. The list is then spliced at the index. Otherwise it throws. |
| `ProtocolTree.SaveProtocol` | chemoProtocolManager/app.js:361-370 | It changes the tree exactly when the phase exists and its protocol list is an array. The draft is then placed in the list. Otherwise it throws. |
| `ProtocolTree.ProtocolEditReads` | chemoProtocolManager/app.js:222-236 | After a protocol edit the phase's list reads as written and its shown goal is kept. Other phases and diseases are unchanged. |
| `ProtocolTree.SetPhaseTwice` | chemoProtocolManager/app.js:181 | Writing a phase twice is writing it once with the second value. |
| `ProtocolTree.SetPhaseSame` | chemoProtocolManager/app.js:181 | Writing a phase with its current value leaves the tree unchanged. |
| `ProtocolTree.WithProtocolsTwice` | chemoProtocolManager/app.js:232-236 | Replacing the protocol list twice is replacing it once. |
| `ProtocolTree.WithProtocolsSame` | chemoProtocolManager/app.js:232-236 | Replacing the protocol list with itself changes nothing. |
| `ProtocolTree.SetPhaseUndo` | chemoProtocolManager/app.js:181 | Writing a phase and then writing the old phase back restores the tree. |
| `ProtocolTree.SaveNewThenDelete` | chemoProtocolManager/app.js:222-229 | Adding a new protocol and then deleting it at the end of the list restores the tree. |
| `ProtocolTree.NewProtocol` | chemoProtocolManager/app.js:244-249 | A new protocol is named "New Protocol", with no drugs, no nurse info and an empty source. |
| `ProtocolTree.NewDrugRow` | chemoProtocolManager/app.js:333 | A new drug row is in the "Chemo" phase with empty name, dose, route, day and note. |
| `ProtocolTree.AddDrugRow` | chemoProtocolManager/app.js:330-335 | It succeeds exactly for an object draft whose `drugs` is missing, falsy or an array. The new list is the old one (or empty) plus a new row, and other fields are unchanged. |
| `ProtocolTree.RemoveDrug` | chemoProtocolManager/app.js:337-341 | It succeeds exactly when `drugs` is an array. That array is spliced at the index, and other fields are unchanged. |
| `ProtocolTree.UpdateDrug` | chemoProtocolManager/app.js:343-346 | It succeeds exactly when the indexed row exists and is not `null`. Only that row's field is set, the other rows and the list's length are unchanged, and other fields are unchanged. |
| `ProtocolTree.SaveFields` | chemoProtocolManager/app.js:352-358 | Capturing the form fails exactly on a `null` draft. |
| `ProtocolTree.ThreeWrites` | chemoProtocolManager/app.js:353-358 | Three assignments to distinct fields read back as assigned, and every other field is unchanged. |
| `ProtocolTree.SaveFieldsReads` | chemoProtocolManager/app.js:352-358 | The saved draft has the typed name and source, and nurse info of non-empty trimmed lines. Every other field is unchanged. |
| `ProtocolEditor.Editor.constructor` | chemoProtocolManager/app.js:1-2 | The page starts with an empty tree, no disease and no draft. |
| `ProtocolEditor.Editor.Load` | chemoProtocolManager/app.js:33-34 | The parsed file replaces the tree as it is. The selection and draft are kept. |
| `ProtocolEditor.Editor.SelectDisease` | chemoProtocolManager/app.js:79-83 | Clicking a disease selects it, and nothing else changes. |
| `ProtocolEditor.Editor.AddDisease` | chemoProtocolManager/app.js:88-103 | A typed name adds the upper-cased, trimmed disease and selects it. An empty, cancelled or existing name changes nothing. |
| `ProtocolEditor.Editor.AddPhase` | chemoProtocolManager/app.js:176-191 | With a disease selected and a name typed, the tree becomes `AddPhase`'s result. Otherwise nothing changes. |
| `ProtocolEditor.Editor.EditGoal` | chemoProtocolManager/app.js:193-201 | The tree becomes `EditGoal`'s result when that changes it, and otherwise stays. |
| `ProtocolEditor.Editor.DeleteCurrentDisease` | chemoProtocolManager/app.js:203-212 | A confirmed delete of the selected disease removes it and clears the selection. Otherwise nothing changes. |
| `ProtocolEditor.Editor.DeletePhase` | chemoProtocolManager/app.js:214-220 | A confirmed delete applies `DeletePhase`. A refusal or a throw changes nothing. |
| `ProtocolEditor.Editor.DeleteProtocol` | chemoProtocolManager/app.js:222-229 | A confirmed delete applies `DeleteProtocol`. A refusal or a throw changes nothing. |
| `ProtocolEditor.Editor.OpenProtocolModal` | chemoProtocolManager/app.js:253-265 | The draft records the disease, phase, index and a copy of the protocol. The tree is untouched. |
| `ProtocolEditor.Editor.AddNewProtocol` | chemoProtocolManager/app.js:243-251 | The draft is a new protocol to be appended. |
| `ProtocolEditor.Editor.CloseModal` | chemoProtocolManager/app.js:267-270 | Closing the dialog discards the draft, and the tree is untouched. |
| `ProtocolEditor.Editor.AddDrugRow` | chemoProtocolManager/app.js:330-335 | The draft's protocol gets a new drug row when `AddDrugRow` succeeds. Otherwise the draft stays. |
| `ProtocolEditor.Editor.RemoveDrug` | chemoProtocolManager/app.js:337-341 | The draft's row at the index is spliced out when `RemoveDrug` succeeds. Otherwise the draft stays. |
| `ProtocolEditor.Editor.UpdateDrug` | chemoProtocolManager/app.js:343-346 | The draft's row field is set when `UpdateDrug` succeeds. Otherwise the draft stays. |
| `ProtocolEditor.Editor.SaveProtocol` | chemoProtocolManager/app.js:348-375 | The form fields are captured into the draft, and the draft is placed into its phase's list and the dialog closes. If the placement throws, the tree is unchanged and the captured draft stays open. |
| `ProtocolEditor.Editor.Export` | chemoProtocolManager/app.js:381-387 | A truthy tree is exported as it is, and a falsy one is refused. |
| `AutoNote.Rate` | drugInteractionManager/app.js:204-205 | Empty and "No Data" both read as no data; "Compatible", "Incompatible" and "Variable" read exactly as those ratings; any other text is an unknown rating that keeps its text. |
| `AutoNote.Read` | drugInteractionManager/app.js:204-207 | Each route takes the rating of its own select, so a dialog with nothing selected reads as no data on all four routes. |
| `AutoNote.Core` | drugInteractionManager/app.js:209-214 | The core sentence chosen by the Y-site rating, then by all four routes missing. `CoreMeaning` and `CoreByYSite` state it. |
| `AutoNote.CoreMeaning` | drugInteractionManager/app.js:209-214 | A known Y-site rating names the core sentence. The "no data" sentence needs all four routes missing. Anything else gets "Y-site data unavailable". |
| `AutoNote.CoreByYSite` | drugInteractionManager/app.js:211-213 | A known Y-site rating decides the core sentence whatever the other routes say. |
| `AutoNote.Modifiers` | drugInteractionManager/app.js:216-225 | The modifier sentences for the solution, syringe and admixture ratings, in that order. `ModifiersMeaning` states it. |
| `AutoNote.ModifiersMeaning` | drugInteractionManager/app.js:216-225 | The modifiers come in the order solution, syringe, admixture. There is a solution sentence exactly for a known solution rating, a syringe sentence exactly for an incompatible syringe, and an admixture sentence exactly for incompatible or variable admixture. Nothing else appears. |
| `AutoNote.Summary` | drugInteractionManager/app.js:227-232 | The summary chosen by the first matching rule over the four ratings. `SummaryMeaning` states it. |
| `AutoNote.SummaryMeaning` | drugInteractionManager/app.js:227-232 | Each summary is characterised by the set of ratings: any incompatible; all four compatible; any variable; only compatible and missing; otherwise, only through an unknown rating, the "limited or mixed" fallback. |
| `AutoNote.Note` | drugInteractionManager/app.js:203-235 | `generateAutoNote`: the core sentence, the modifier sentences and the summary, separated by single spaces. `NoModifiersDoubleSpace`, `AllMissingNote`, `AllCompatibleNote` and `EmptyIsNoData` state it. |
| `AutoNote.FormNote` | drugInteractionManager/app.js:191-200 | The note for the dialog's selects, naming the typed first drug or "Drug A" when that input is empty. `InteractionStore.UpdateAutoNote` and `Interactions.ReopenSavedRecord` use it. |
| `AutoNote.NoModifiersDoubleSpace` | drugInteractionManager/app.js:234 | With no modifier the core and the summary are separated by two spaces. |
| `AutoNote.AllMissingNote` | drugInteractionManager/app.js:203-235 | A dialog with nothing selected gives the "no data" core, no modifier, and the "compatible, but missing data" summary. |
| `AutoNote.AllCompatibleNote` | drugInteractionManager/app.js:203-235 | Four selects set to "Compatible" give the compatible core, the compatible-solution sentence and the "all routes" summary. |
| `AutoNote.EmptyIsNoData` | drugInteractionManager/app.js:204-205 | A select left empty and one set to "No Data" give the same note. |
| `AutoNote.SameReadSameNote` | drugInteractionManager/app.js:203-207 | Two dialogs whose selects read as the same four ratings get the same note. |
| `Interactions.ListRecord` | drugInteractionManager/app.js:65-72 | A saved-list item maps to a record (only `null` throws). Names and timestamp are copied. Compatibility is truthy. The note is `note`, else `mechanism`, else empty. |
| `Interactions.ListLoad` | drugInteractionManager/app.js:65-72 | A saved list loads exactly when no item is `null`, one record per item in order. |
| `Interactions.ListRoundTrip` | drugInteractionManager/app.js:65-72 | A record with names, a timestamp and default-or-truthy fields survives being written as a list item and read back. |
| `Interactions.Entries` | drugInteractionManager/app.js:45-46 | A sub-map's entries: an object's fields, an array's elements under their index keys, or nothing for a scalar. |
| `Interactions.ArrayEntryKeysDistinct` | drugInteractionManager/app.js:45-46 | The index keys of an array row are pairwise distinct, so each element becomes a record under its own drug-B name. |
| `Interactions.MatrixRecord` | drugInteractionManager/app.js:49-56 | A matrix cell becomes a record with the two names and the load time, a truthy compatibility, and `notes` and `source` or empty strings. |
| `Interactions.RowCells` | drugInteractionManager/app.js:45-57 | One step per sub-map entry, in order. |
| `Interactions.SubMapCells` | drugInteractionManager/app.js:43-58 | A non-null sub-map walks its entries. |
| `Interactions.MatrixCells` | drugInteractionManager/app.js:42-59 | The matrix walk, drug A by drug A in key order, one step per sub-map entry. `MatrixThrows` and `InteractionStore.MatrixStops` state it. |
| `Interactions.Fill` | drugInteractionManager/app.js:42-59 | Running the walk's steps: every record up to the first throw is pushed. `FillMeaning` and `FillAppend` state it. |
| `Interactions.FillMeaning` | drugInteractionManager/app.js:42-59 | The walk succeeds exactly when no step throws. Otherwise it stops at the first throw. The records pushed are exactly the steps before it, in order. |
| `Interactions.FillAppend` | drugInteractionManager/app.js:42-59 | Walking two runs of steps is walking the first, then the second only if the first did not throw. |
| `Interactions.SubMapThrowsCells` | drugInteractionManager/app.js:43-47 | A drug's row throws exactly when its sub-map is `null` or has a `null` entry. |
| `Interactions.MatrixThrows` | drugInteractionManager/app.js:40-61 | The matrix load throws exactly when some drug's sub-map throws. |
| `Interactions.LoadParsed` | drugInteractionManager/app.js:37-73 | After `INTERACTIONS = []`: an unconfirmed object or `null` leaves the list empty. A confirmed matrix walks its cells. A confirmed `null` throws. An array maps or throws. A scalar leaves the list empty. |
| `Interactions.LoadFile` | drugInteractionManager/app.js:28-86 | Invalid JSON keeps the previous list and fails. Parsed JSON is loaded as above. |
| `Interactions.Nest` | drugInteractionManager/app.js:313-323 | The export is an object. |
| `Interactions.LookupLast` | drugInteractionManager/app.js:314-323 | The exported cell for a pair is the entry of the last record filed under it, or missing when no record is. |
| `Interactions.NestLookup` | drugInteractionManager/app.js:313-323 | A drug A appears in the export exactly when some record has it, and its sub-map answers each drug B as `LookupLast`. |
| `Interactions.NoDrugANoLookup` | drugInteractionManager/app.js:315 | Without a record for drug A there is no cell for it. |
| `Interactions.ExportLastWins` | drugInteractionManager/app.js:318-322 | Of two records for the same pair, the later one overwrites the earlier in the export. |
| `Interactions.ExportOneDirection` | drugInteractionManager/app.js:313-323 | Export is one-directional: a pair recorded only as A→B has no B→A cell. |
| `Interactions.CompatObject` | drugInteractionManager/app.js:244-249 | The saved compatibility is a truthy object. |
| `Interactions.CompatObjectReads` | drugInteractionManager/app.js:244-249 | Each route reads as the selected value, or is omitted when nothing was selected. |
| `Interactions.NewRecord` | drugInteractionManager/app.js:238-277 | The saved record has the trimmed names, note and source, the selected compatibility and the save time. |
| `Interactions.Ordered` | drugInteractionManager/app.js:260-261 | `sort()` of two names: the same two names, in non-decreasing order. |
| `Interactions.PairKey` | drugInteractionManager/app.js:260-261 | The lower-cased names, sorted and joined by a bar. `PairKeySymmetric`, `PairKeyExact` and `PairKeyCollision` state it. |
| `Interactions.PairKeySymmetric` | drugInteractionManager/app.js:260-261 | The duplicate key of A and B is that of B and A. |
| `Interactions.LowerKeepsBar` | drugInteractionManager/app.js:260 | Lower-casing neither adds nor removes a bar. |
| `Interactions.PairKeyExact` | drugInteractionManager/app.js:260-262 | For bar-free names, two pairs get the same key exactly when they are the same names, ignoring case, in either order. |
| `Interactions.PairKeyCollision` | drugInteractionManager/app.js:260-262 | Names with a bar can collide: ("a" bar "b", "c") and ("a", "b" bar "c") share a key though they are different pairs. |
| `Interactions.PairOf` | drugInteractionManager/app.js:260 | A record has a pair key exactly when both names are strings; otherwise `toLowerCase` throws. |
| `Interactions.FindDuplicate` | drugInteractionManager/app.js:258-263 | The duplicate search in list order, skipping the edited record, ending at the first clash or the first record without string names. `FindDuplicateMeaning` states it. |
| `Interactions.FindDuplicateMeaning` | drugInteractionManager/app.js:258-263 | The search returns the first record (skipping the edited one) whose key matches, or none when no record matches. It throws at the first record without string names, when no match comes before it. |
| `Interactions.Save` | drugInteractionManager/app.js:237-294 | A blank name is refused. A duplicate names a matching record other than the edited one. A save succeeds exactly with both names and no clash, and then pushes or replaces the new record. |
| `Interactions.SaveKeepsPairsApart` | drugInteractionManager/app.js:258-288 | After a save the new record's pair differs from every other record's pair. |
| `Interactions.SavePreservesPairsApart` | drugInteractionManager/app.js:258-288 | If all pairs were distinct before a save, they still are after it. |
| `Interactions.DeletePreservesPairsApart` | drugInteractionManager/app.js:296-303 | Deleting keeps all pairs distinct. |
| `Interactions.EditForm` | drugInteractionManager/app.js:157-173 | The inputs `openEditModal` fills from a record, each value or empty when missing. `EditSavedRecord` states it for a just-saved record. |
| `Interactions.EditSavedRecord` | drugInteractionManager/app.js:157-173 | Reopening a just-saved record fills the inputs with the trimmed names, note and source and the same selects, before the note is regenerated. |
| `Interactions.Reopened` | drugInteractionManager/app.js:157-177 | What `openEditModal` shows: the filled inputs, with the note generated from the selects and the first name. |
| `Interactions.ReopenSavedRecord` | drugInteractionManager/app.js:157-177 | Reopening a just-saved record shows the trimmed names and source, the same selects and the generated note; a note typed over the generated one is not shown. |
| `InteractionViews.LowerValue` | drugInteractionManager/app.js:105 | Lower-casing a route value throws exactly for a truthy non-string. |
| `InteractionViews.SeverityOf` | drugInteractionManager/app.js:104-110 | Severe exactly when some route says incompatible. Moderate when none does but one says variable. Mild otherwise. None when a value throws. |
| `InteractionViews.FieldValuesAppend` | drugInteractionManager/app.js:105 | The values of two runs of fields are the values of each in turn. |
| `InteractionViews.RatedOne` | drugInteractionManager/app.js:244-249 | A route's saved value is the selection, or nothing when empty. |
| `InteractionViews.RatedValues` | drugInteractionManager/app.js:244-249 | The saved object's values are the four selections in order, with empty ones left out. |
| `InteractionViews.CompatValues` | drugInteractionManager/app.js:105 | `Object.values` of the compatibility, or of an empty object when it is falsy, for every kind of value a record can hold. `CompatObjectValues` states it for a saved compatibility. |
| `InteractionViews.CompatObjectValues` | drugInteractionManager/app.js:105-249 | `Object.values` of a saved compatibility is the non-empty selections in order. |
| `InteractionViews.SaysInAppend` | drugInteractionManager/app.js:106-108 | A word is among two runs of values exactly when it is in one of them. |
| `InteractionViews.SaysInPicked` | drugInteractionManager/app.js:106-108 | A selection says a word exactly when it is non-empty and lower-cases to it. |
| `InteractionViews.SaysPicked` | drugInteractionManager/app.js:104-108 | A saved compatibility says a word exactly when one of the four selections lower-cases to it. |
| `InteractionViews.LowerRating` | drugInteractionManager/app.js:104-108 | For the dialog's values, "incompatible" and "variable" in lower case are exactly the Incompatible and Variable ratings. |
| `InteractionViews.DialogSeverityDefined` | drugInteractionManager/app.js:104-110 | A record saved from the dialog always has a severity. |
| `InteractionViews.SaysRatings` | drugInteractionManager/app.js:104-108 | For known ratings, the list's words match the note's ratings. |
| `InteractionViews.SeverityMatchesSummary` | drugInteractionManager/app.js:104-232 | For known ratings the badge and the generated note agree: severe exactly with the "incompatible" summary, moderate exactly with the "variable" summary. |
| `InteractionViews.Shown` | drugInteractionManager/app.js:112-115 | The positions of the records whose text holds the search term, ignoring case. `ShownSound`, `ShownComplete` and `EmptySearchShowsAll` state it. |
| `InteractionViews.ShownSound` | drugInteractionManager/app.js:112-115 | Every row shown matches the search term, in list order without repeats. |
| `InteractionViews.ShownComplete` | drugInteractionManager/app.js:112-115 | Every matching record is shown. |
| `InteractionViews.ContainsEmpty` | drugInteractionManager/app.js:114 | Every text contains the empty term. |
| `InteractionViews.EmptySearchShowsAll` | drugInteractionManager/app.js:112-115 | An empty search shows every record. |
| `InteractionViews.NameSet` | drugInteractionManager/app.js:344-351 | The names `updateDrugDatalist` collects from the records. `NameSetMeaning` states it. |
| `InteractionViews.NameSetMeaning` | drugInteractionManager/app.js:348-351 | A name is offered exactly when some record lists it. |
| `InteractionViews.Insert` | drugInteractionManager/app.js:353 | Inserting into a strictly sorted list keeps it sorted and adds exactly that name. |
| `InteractionStore.ReadList` | drugInteractionManager/app.js:65-72 | The mapping loop computes `ListLoad`: all records, or failure at the first `null`. |
| `InteractionStore.FillStops` | drugInteractionManager/app.js:42-59 | After a throw, later steps change nothing. |
| `InteractionStore.ClearModalInputs` | drugInteractionManager/app.js:183-189 | Empty names, note and selects, and the default source "Trissel’s 2 IV Compatibility". |
| `InteractionStore.UpdateAutoNote` | drugInteractionManager/app.js:191-200 | The note is regenerated from the selects and the first name ("Drug A" when empty). Nothing else changes. |
| `InteractionStore.MatrixStops` | drugInteractionManager/app.js:42-59 | Once a drug's row has thrown, the later drugs are never reached. |
| `InteractionStore.RowCellsSnoc` | drugInteractionManager/app.js:45-57 | One more entry adds its step at the end of the row. |
| `InteractionStore.FillStopsAfter` | drugInteractionManager/app.js:42-59 | Steps added after a throw change nothing. |
| `InteractionStore.RowCellsSplit` | drugInteractionManager/app.js:45-57 | A row is its first entries' steps followed by the rest. |
| `InteractionStore.RowStops` | drugInteractionManager/app.js:45-57 | Once an entry of a row has thrown, the rest of the row is never reached. |
| `InteractionStore.Store.constructor` | drugInteractionManager/app.js:2-3 | The page starts with no records and nothing edited. |
| `InteractionStore.Store.Load` | drugInteractionManager/app.js:28-86 | The list and outcome after a file load are what `LoadFile` describes, including the partial list left by a throw. The edited position is kept. |
| `InteractionStore.Store.LoadMatrix` | drugInteractionManager/app.js:40-61 | The nested loops push exactly the records the matrix walk describes and fail at its first throw. |
| `InteractionStore.Store.LoadRow` | drugInteractionManager/app.js:43-58 | One drug's loop continues the walk by that drug's row. |
| `InteractionStore.Store.OpenAdd` | drugInteractionManager/app.js:149-155 | Nothing is edited. The dialog shows blank fields, the default source and the note generated for them. |
| `InteractionStore.Store.OpenEdit` | drugInteractionManager/app.js:157-177 | The position is recorded first. The dialog shows the record's fields with a regenerated note. Past the end it throws and no dialog is shown. |
| `InteractionStore.Store.Save` | drugInteractionManager/app.js:237-294 | The list changes only on an accepted save, to the list `Save` computes. The edited position is not cleared. |
| `InteractionStore.Store.Delete` | drugInteractionManager/app.js:296-303 | A confirmed delete splices the record out. A refused one changes nothing. |
| `InteractionStore.Store.Export` | drugInteractionManager/app.js:307-342 | The export loop builds the nested matrix `Nest` describes. |
| `InteractionStore.Store.DrugNames` | drugInteractionManager/app.js:344-356 | The datalist is strictly sorted and lists exactly the collected names. |

## Left out

- File reading, `JSON.parse`, `JSON.stringify`, downloads, the DOM, rendering, status messages and timers are not modelled. A parse failure is an absent `Option`. Prompts and confirmations are parameters. The clock (`new Date().toISOString()`) is the parameter `now`.
- `Interactions.LoadParsed`: the matrix load calls `new Date()` once per record. The model stamps every record of one load with the same `now`, so it does not capture records of one load carrying different times.
- Numbers are modelled as integers; floating-point values are not modelled.
- Upper- and lower-casing cover ASCII letters only. White space for `trim` is a fixed character set.
- Object key order: JavaScript enumerates integer-like keys first. That order is modelled for the medication buckets (`InsertKey`). Elsewhere an object keeps insertion order, and keys are assumed distinct.
- `Json.Member` reads the properties of objects only. A string's or an array's properties read as undefined, and that includes an array element under an index key such as `"0"`. The medication and interaction code never reads an array that way; `Interactions.Entries` gives an array row's index keys itself.
- Array-shaped protocol files are not modelled. When a loaded protocol tree or one of its diseases is an array, `Object.keys` lists the index keys `"0"`, `"1"`, … as disease or phase names, and the handlers read and write the elements through them. The model finds no disease or phase under such a key. An edit through one throws or leaves the tree unchanged in the model, whereas JavaScript changes the array element and `JSON.stringify` keeps the change.
- `Lists.PlaceAt`: an index past the end is modelled as an append. JavaScript leaves holes, which `forEach` skips. `ProtocolTree.Assign` writes `null` into the gap instead.
- `MedicationCodecs.ParseSideEffect`: a side-effect part with the key `__proto__` is kept as an ordinary field. JavaScript ignores the assignment `obj["__proto__"] = v` for a string `v`, so that part is lost there. `MedicationCodecs.SideEffectRoundTrip` and `MedicationCodecs.SideEffectsThroughForm` share this: for that one key they describe the model, not the browser.
- The never-taken `!INTERACTIONS` check of the IV-compatibility export is left out. So are inherited property names on the objects it builds.
- `isNaN` in the datalist is the parameter `looksNumeric`. Non-string names are not collected. The sort compares characters, not UTF-16 code units.
- The dialog's select elements are plain strings. A browser drops values not offered as options; that is not modelled.
- `renderList` uses `indexOf` to find a shown record's position. The model uses the record's own position. The two always coincide: `indexOf` compares by reference, and every record is a distinct object made by `.map` on load or by an object literal on save.
- Route ratings left unselected are omitted from the saved compatibility object, as `undefined` disappears in JSON.
- `MedicationEditor.Editor.OpenDrugModal`: the form that the dialog fills is not part of the editor state. The text areas it writes are modelled by the codecs (`MedicationCodecs.FlattenList`) and by `Text.LinesJoinLines`.
- `MedicationCodecs.SideEffectsThroughForm` is stated for lists of side-effect objects. A plain-string side effect in the same list also comes back when it is non-empty, trimmed, on one line and free of colons, but no lemma states that.
- The `drugs` default in `saveDrugFromModal` never fires for a loaded bucket, because every bucket is created with a `drugs` array.
- `ProtocolTree` operations that write a named property on a scalar tree, disease or phase are modelled as leaving the tree unchanged, as JavaScript does. A write under a name that is not an index key on an array is modelled the same way: JavaScript adds a property that `JSON.stringify` then drops. Writes under index keys are the array-shaped files above.
- `Interactions.ListRoundTrip` is stated only for records whose names and timestamp are defined and whose note and source are truthy or empty. Other records change on reload, because `||` replaces falsy values.
- `Medications.ExportNormalizeRoundTrip`: the monitoring list is exported but is not read back on load, so a reload loses it. The lemma states the round trip without it.
- `Medications.NormalizeExportIdempotent` requires that a lone indication is truthy and not an array. A lone `""` is exported bare and reloads as no indication. A lone nested array reloads as its elements.
