# Exam-notes validation pipeline

This project models the validation half of the exam-notes generator in
`ai-practice/scripts/02_generate_notes.py`. A language model returns its ten
revision notes as free text. `validate_and_save_notes` then:

1. cleans the text (strips whitespace, unwraps a Markdown code fence, cuts
   prose in front of the first `{`);
2. parses the result as JSON;
3. validates the value against the pydantic models `Note` and
   `NotesResponse`;
4. writes the parsed value to the output file;
5. returns the ten notes.

The project has six modules:

- `Wrappers` (`wrappers.dfy`): the `Option` and `Result` types.
- `Json` (`json.dfy`): the parsed JSON value as a datatype.
- `TextOps` (`text_ops.dfy`): Python's `str.strip()`, `startswith`, `find` and `rfind`, each with a specification. `strip()` removes the characters for which `str.isspace()` holds: U+0009–U+000D, U+001C–U+001F, U+0020, U+0085, U+00A0, U+1680, U+2000–U+200A, U+2028, U+2029, U+202F, U+205F and U+3000.
- `Sanitizer` (`sanitizer.dfy`): the cleaning of lines 127–146, as pure functions. Its properties are proved as lemmas, with scenario lemmas for the reply shapes the cleaning is written for.
- `NoteSchema` (`note_schema.dfy`): the schema of lines 20–29, in two forms. The fields of `Note` are a list of field declarations (key, kind, bounds), as pydantic declares them. The first is a validity predicate on the parsed value. The second is a validator. It returns either the notes or every violated constraint at its location, so `notes`, index, field. The two forms are proved to agree, and the validator is proved sound and complete for per-entry violations. Notes written back as JSON round-trip through the validator.
- `NotesPipeline` (`pipeline.dfy`): the control flow of lines 149–182, as a method. `json.loads` is a function parameter. The file write is a ghost output.

The model follows the code. Where a reader might expect otherwise:

- The code writes the parsed `data`, not the validated object.
- Every failure returns `None`. There is no distinct I/O-failure result.
- Note ids are not required to be distinct, although the prompt at lines 96-97 asks the language model for "exactly 10 unique notes". Ten notes with the same id are accepted (`DuplicateIdsAccepted`).
- The bare-fence branch keeps a language tag such as `python`. Only the later cut at the first `{` removes it (`TaggedBareFence`).
- Text with no `{` is stripped and unfenced, never cut or rejected by the cleaner.

## Model

| member | source | states |
|---|---|---|
| TextOps.StartsWith | ai-practice/scripts/02_generate_notes.py:131-137 | `str.startswith`: the pattern is no longer than the text and equals its prefix of the same length. |
| TextOps.Strip | ai-practice/scripts/02_generate_notes.py:128 | `strip()` returns a contiguous slice of its input. The slice neither begins nor ends with whitespace, and it is empty exactly when the input is all whitespace. |
| TextOps.StripPadded | ai-practice/scripts/02_generate_notes.py:128 | `strip()` removes exactly the surrounding whitespace: a stripped string padded with whitespace strips back to itself. |
| TextOps.StripStripped | ai-practice/scripts/02_generate_notes.py:136 | Stripping an already stripped string changes nothing. |
| TextOps.Find | ai-practice/scripts/02_generate_notes.py:133 | `find` returns -1 only when the pattern occurs nowhere. Otherwise the pattern occurs at the result and at no lower index. |
| TextOps.RFind | ai-practice/scripts/02_generate_notes.py:134 | `rfind` returns -1 or an index where the pattern occurs, and the pattern occurs at no higher index. |
| TextOps.FindPrefix | ai-practice/scripts/02_generate_notes.py:131-133 | A string that starts with the pattern finds it at index 0, so `start_idx` is 7 or 3. |
| TextOps.FindChar | ai-practice/scripts/02_generate_notes.py:145 | `find("{")` is -1 exactly when there is no `{`. Otherwise the result is the index of the first `{`. |
| Sanitizer.FenceInterior | ai-practice/scripts/02_generate_notes.py:134-136 | The fence step keeps a slice of its input, and stripped input stays stripped. |
| Sanitizer.StripFences | ai-practice/scripts/02_generate_notes.py:131-142 | The fence step returns a slice of the text. It keeps text stripped, and leaves text that does not start with a fence unchanged. |
| Sanitizer.CutProse | ai-practice/scripts/02_generate_notes.py:145-146 | The cut returns a suffix of its input with no `{` in the part removed. The suffix starts with `{` when there is one, and is the whole input when there is none. |
| Sanitizer.Sanitize | ai-practice/scripts/02_generate_notes.py:128-146 | The cleaned text either starts with `{` or holds no `{` at all. |
| Sanitizer.SanitizeIsSlice | ai-practice/scripts/02_generate_notes.py:128-146 | The cleaned text is one contiguous piece of the reply, so it is never longer. |
| Sanitizer.SanitizeStripped | ai-practice/scripts/02_generate_notes.py:128-146 | The cleaned text neither begins nor ends with whitespace. |
| Sanitizer.SanitizeKeepsEnd | ai-practice/scripts/02_generate_notes.py:145-146 | Without a leading fence, the output is a suffix of the stripped reply. Only brace-free text in front is cut, so nothing after the last `}` is removed. |
| Sanitizer.CleanJsonUnchanged | ai-practice/scripts/02_generate_notes.py:128-146 | Text that starts with `{` and has no surrounding whitespace comes back unchanged. |
| Sanitizer.NoBraceOnlyStripped | ai-practice/scripts/02_generate_notes.py:128-146 | A reply with no `{` and no leading fence comes back merely stripped. |
| Sanitizer.JsonFenceInterior | ai-practice/scripts/02_generate_notes.py:131-136 | After "```json", when the last fence lies beyond index 7, the fence step yields exactly the stripped text between index 7 and that fence. |
| Sanitizer.BareFenceInterior | ai-practice/scripts/02_generate_notes.py:137-142 | The same holds for a bare "```" from index 3. |
| Sanitizer.ClosedFenceDropsTail | ai-practice/scripts/02_generate_notes.py:134-142 | When the last fence lies beyond the opener, the result is a slice of the text strictly between the opener and that fence. The last fence and everything after it, including any `}`, are dropped. |
| Sanitizer.FenceInteriorUnchanged | ai-practice/scripts/02_generate_notes.py:134-135 | When the last fence lies at or before the start index, the fence step leaves the text unchanged. |
| Sanitizer.JsonFenceUnclosed | ai-practice/scripts/02_generate_notes.py:131-136 | After "```json", a last fence at or before index 7 leaves the text unchanged. |
| Sanitizer.BareFenceUnclosed | ai-practice/scripts/02_generate_notes.py:137-142 | After a bare "```", a last fence at or before index 3 leaves the text unchanged. |
| Sanitizer.JsonFenceWithoutBody | ai-practice/scripts/02_generate_notes.py:131-136 | "```json```" has its last fence at index 7, so the fence step keeps it as it is. |
| Sanitizer.FourBackquotesUnchanged | ai-practice/scripts/02_generate_notes.py:137-142 | Four backquotes have their last fence at index 1, so the fence step keeps them as they are. |
| Sanitizer.LoneFenceUnchanged | ai-practice/scripts/02_generate_notes.py:134-142 | When the opening fence is the only one, `rfind` returns 0 and the text is left unchanged. |
| Sanitizer.JsonFenceClosedAtEnd | ai-practice/scripts/02_generate_notes.py:131-136 | A "```json" block that ends with a fence yields the stripped text between the fences. |
| Sanitizer.BareFenceClosedAtEnd | ai-practice/scripts/02_generate_notes.py:137-142 | The same holds for a bare "```" block. |
| Sanitizer.JsonFenceAround | ai-practice/scripts/02_generate_notes.py:131-136 | A "```json" block holds a stripped text with equal whitespace on both sides. The fence step then yields exactly that text. |
| Sanitizer.BareFenceAround | ai-practice/scripts/02_generate_notes.py:137-142 | A bare "```" block holds a stripped text followed by whitespace. The fence step then yields exactly that text. |
| Sanitizer.FencedReply | ai-practice/scripts/02_generate_notes.py:128-146 | A reply of the form "```json", newline, object, newline, "```" is cleaned to exactly the object. |
| Sanitizer.LeadingProse | ai-practice/scripts/02_generate_notes.py:145-146 | Prose without a brace in front of an object is cut off, leaving exactly the object. |
| Sanitizer.TaggedBareFence | ai-practice/scripts/02_generate_notes.py:137-146 | A bare fence with a language tag keeps the tag through the fence step. The cut at the first `{` then leaves exactly the object. |
| Sanitizer.SanitizeIdempotentOnBrace | ai-practice/scripts/02_generate_notes.py:128-146 | Cleaning again changes nothing when the cleaned text holds a `{`. |
| Sanitizer.NestedFencesNotIdempotent | ai-practice/scripts/02_generate_notes.py:131-142 | Cleaning is not idempotent in general: a "```json" block wrapped around another fenced block loses one fence per pass. |
| NoteSchema.DescribesUnique | ai-practice/scripts/02_generate_notes.py:20-25 | An object determines at most one note. |
| NoteSchema.NoteFieldsMeaning | ai-practice/scripts/02_generate_notes.py:22-25 | The four declared fields of `Note` require exactly what the `id`, `heading`, `summary` and `page_ref` predicates state. |
| NoteSchema.FieldErrors | ai-practice/scripts/02_generate_notes.py:22-25 | A field's check reports nothing when the field satisfies its declaration. Otherwise it reports exactly one violation, located at the field's key. |
| NoteSchema.FieldsErrors | ai-practice/scripts/02_generate_notes.py:20-25 | Checking several fields reports nothing exactly when every field satisfies its declaration. |
| NoteSchema.NoteErrorsByField | ai-practice/scripts/02_generate_notes.py:20-25 | A note's violations are those of `id`, `heading`, `summary` and `page_ref`, in declaration order. One bad field never hides another. |
| NoteSchema.IsNote | ai-practice/scripts/02_generate_notes.py:20-25 | An object that `Note` accepts: `id` an integer from 1 to 10, `heading` a string of at most 100 characters, `summary` a string of at most 150 characters, `page_ref` absent, null or an integer. Other keys are not constrained. |
| NoteSchema.IsNotesResponse | ai-practice/scripts/02_generate_notes.py:27-29 | An object that `NotesResponse` accepts: a `notes` list of exactly ten entries, each of which `Note` accepts. |
| NoteSchema.NoteErrors | ai-practice/scripts/02_generate_notes.py:20-25 | A note's violation list is empty exactly when the object is a valid `Note`. |
| NoteSchema.NoteErrorsPerField | ai-practice/scripts/02_generate_notes.py:22-25 | Each of `id`, `heading`, `summary` and `page_ref` is reported at its own key exactly when its constraint is violated. |
| NoteSchema.IdBelowMinimum | ai-practice/scripts/02_generate_notes.py:22 | An integer `id` below 1 is reported at `id` as below the minimum 1. Only such an `id` is. |
| NoteSchema.IdAboveMaximum | ai-practice/scripts/02_generate_notes.py:22 | An integer `id` above 10 is reported at `id` as above the maximum 10. Only such an `id` is. |
| NoteSchema.HeadingTooLong | ai-practice/scripts/02_generate_notes.py:23 | A `heading` longer than 100 characters is reported as too long. Only such a heading is. |
| NoteSchema.SummaryTooLong | ai-practice/scripts/02_generate_notes.py:24 | A `summary` longer than 150 characters is reported as too long. Only such a summary is. |
| NoteSchema.RequiredFieldsMissing | ai-practice/scripts/02_generate_notes.py:22-24 | Each of `id`, `heading` and `summary` is reported missing exactly when its key is absent. |
| NoteSchema.ValidateNote | ai-practice/scripts/02_generate_notes.py:20-25 | `Note(**j)` succeeds exactly on valid notes. It returns a note within bounds that holds the object's field values. Otherwise it returns the non-empty violation list. |
| NoteSchema.AbsentPageRefIsNone | ai-practice/scripts/02_generate_notes.py:25 | A valid note whose `page_ref` is absent or null has no page reference. |
| NoteSchema.ListErrorsEmpty | ai-practice/scripts/02_generate_notes.py:29 | The entries' violation list is empty exactly when every entry is a valid note. |
| NoteSchema.PlacedEmpty | ai-practice/scripts/02_generate_notes.py:29 | The list of placed violations is empty exactly when no entry has a violation. |
| NoteSchema.PlacedComplete | ai-practice/scripts/02_generate_notes.py:29 | Every violation of every entry is reported, prefixed by `notes` and that entry's index. |
| NoteSchema.PlacedSound | ai-practice/scripts/02_generate_notes.py:29 | Every reported violation lies under `notes` at an entry's index. With that prefix removed, it is one of that entry's own violations. |
| NoteSchema.ListErrorsComplete | ai-practice/scripts/02_generate_notes.py:29 | The same completeness for the `notes` list, with indices from 0. |
| NoteSchema.ListErrorsSound | ai-practice/scripts/02_generate_notes.py:29 | The same soundness for the `notes` list, with indices from 0. |
| NoteSchema.ValidateNotes | ai-practice/scripts/02_generate_notes.py:29 | A `List[Note]` is accepted exactly when every entry is a note. It then yields one note per entry, in order, each within bounds and holding its entry's values. Otherwise it yields the entries' violations. |
| NoteSchema.ValidateResponse | ai-practice/scripts/02_generate_notes.py:27-29 | `NotesResponse(**data)` succeeds exactly when `notes` is a list of ten valid notes. It then returns ten notes, each within bounds and holding its entry's values. Otherwise it reports at least one violation. |
| NoteSchema.ResponseErrorsOfList | ai-practice/scripts/02_generate_notes.py:29 | With a `notes` list, the errors are the count error, if any, followed by the entries' errors. |
| NoteSchema.ResponseReportsCount | ai-practice/scripts/02_generate_notes.py:29 | A wrong number of entries, with the number found, is reported exactly when the list does not hold ten. |
| NoteSchema.ResponseReportsEveryEntry | ai-practice/scripts/02_generate_notes.py:29 | Every violation of every entry is reported at `notes`, the entry's index, then its own location. |
| NoteSchema.ResponseShapeErrors | ai-practice/scripts/02_generate_notes.py:27-29 | A value that is not an object, a missing `notes` key and a `notes` value that is not a list are each reported alone. |
| NoteSchema.EntryIdAboveMaximum | ai-practice/scripts/02_generate_notes.py:22-29 | An entry's `id` above 10 is reported at `notes`, its index, `id` exactly when that entry's `id` is an integer above 10. |
| NoteSchema.NoteToJson | ai-practice/scripts/02_generate_notes.py:20-25 | A note's object form (what `model_dump()` gives) holds its field values, with a missing page as null. The program itself never serialises a note; this is the inverse the round-trip lemmas use. |
| NoteSchema.ResponseToJson | ai-practice/scripts/02_generate_notes.py:27-29 | The `{"notes": [...]}` object form of a note list: a `notes` list of the same length holding each note's object. Like `NoteToJson`, it is the inverse the round-trip lemmas use, not something the program writes. |
| NoteSchema.NoteRoundTrip | ai-practice/scripts/02_generate_notes.py:20-25 | A note within bounds, written and validated again, comes back unchanged. |
| NoteSchema.ResponseRoundTrip | ai-practice/scripts/02_generate_notes.py:20-29 | Ten notes within bounds, written and validated again, come back unchanged. |
| NoteSchema.ValidatedNotesRevalidate | ai-practice/scripts/02_generate_notes.py:152 | Whatever the validator accepts, it accepts again with the same result once written back in its own form. |
| NoteSchema.DuplicateIdsAccepted | ai-practice/scripts/02_generate_notes.py:22-29 | Ids need not be distinct: ten copies of one valid note are accepted. |
| NotesPipeline.Returned | ai-practice/scripts/02_generate_notes.py:172-182 | The return value: the validated notes after a save, `None` after either failure. |
| NotesPipeline.ValidateAndSaveNotes | ai-practice/scripts/02_generate_notes.py:149-182 | A run behaves as follows. A parse error happens exactly when the cleaned reply does not parse. A schema error, carrying the non-empty violation list, happens exactly when the parsed value is not a valid response. Otherwise it returns the ten validated notes, each holding its entry's values. The output file is written only on success, and with the parsed value itself. What the function returns is the validated notes exactly when the cleaned reply parses to a valid response, and `None` otherwise. |
| NotesPipeline.NoBraceNeverSaved | ai-practice/scripts/02_generate_notes.py:145-152 | Suppose no JSON text denoting an object lacks a `{`. Then a reply with no `{` never yields a valid response. |
| NotesPipeline.CleanReplyParsedAsGiven | ai-practice/scripts/02_generate_notes.py:128-149 | A reply that is already a bare object with no surrounding whitespace reaches the parser exactly as given. |

## Left out

- The OpenAI calls are out of scope: `get_assistant_id`, `generate_notes_with_assistant` with its polling loop, `generate_notes_with_chat` and `main` (lines 31–122 and 184–221) are network, file and console I/O.
- The console output is out of scope: the success and error messages and the display loop of lines 163–170 only print.
- `json.loads` is a function parameter, not a JSON grammar. `NoBraceNeverSaved` states its one assumption about it, that object texts contain `{`, as a hypothesis.
- `json.dump` becomes the ghost `written` output, with the path and the value written. Indentation, `ensure_ascii` and key order are not modelled: `JObject` holds a map, while a Python `dict` keeps insertion order.
- Write failures are out of scope. `open(..., 'w')` truncates the file first. A failing write falls into the generic `except` and returns `None`, possibly leaving a partial file. The model's write always succeeds.
- pydantic's internals are out of scope. The model omits lax coercion: `"5"`, `5.0` and booleans are not accepted as integers. It omits pydantic's error-message text, the order of its errors and how it reports several errors in one field. Extra keys in a note are ignored, as pydantic ignores them by default.
- Python strings may contain lone surrogates. Dafny `char` values are Unicode scalar values, so the model cannot express them.
- `ValidateResponse`: when `data` is not a dictionary, `NotesResponse(**data)` raises `TypeError` rather than a validation error. The model reports it as a `NotAnObject` violation. Both end in the generic `except` and return `None`.
- `ResponseErrorsOfList`: the violation list puts the count error first and then every entry's errors, in entry order. This grouping is the model's own. pydantic may order them differently, and it may report fewer errors: it checks the maximum length while validating the items and the minimum only after every item passes, so it can report only the count error or only the entries' errors.
- The default `output_file` value `"exam_notes.json"` is a Python default argument. The model takes the path as a parameter.
- Console prints can raise. A print that raises at line 154 or at lines 160-170 sends the run to the `except` at line 179, before or after the write. If the handler's own prints at lines 180-181 raise too, the exception leaves the function instead of returning `None`. They do raise on a console that cannot encode "❌", and so does the print at line 175 after a parse error. After a failure at lines 160-170 the file is already written either way. The model's prints never fail, so `written.Some? <==> outcome.Saved?` and the `None` results exclude these runs.
