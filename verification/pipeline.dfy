/**
 * `validate_and_save_notes`: sanitise the model's reply, parse it, validate
 * it against the note schema, write the parsed value to the output file and
 * return the ten notes. Parsing (`json.loads`) is library code and is a
 * parameter here; the file write is the ghost output `written`.
 */
module NotesPipeline {
  import opened Wrappers
  import opened Json
  import opened TextOps
  import opened Sanitizer
  import opened NoteSchema

  /** How a run ends: the notes were saved, the cleaned text was not JSON, or the value broke the schema. */
  datatype Outcome =
    | Saved(notes: seq<Note>)
    | ParseError
    | SchemaError(violations: seq<Violation>)

  /** A file written by the pipeline: its path and the JSON value dumped into it. */
  datatype Persisted = Persisted(path: string, content: Json)

  /** What the Python function returns: the notes on success, None on either failure. */
  function Returned(outcome: Outcome): Option<seq<Note>> {
    match outcome
    case Saved(notes) => Some(notes)
    case _ => None
  }

  /**
   * One run on the reply `raw`. The file is written only when both parsing
   * and validation succeed, and what is written is the parsed value itself,
   * not the validated notes.
   */
  method ValidateAndSaveNotes(raw: string, outputFile: string, parse: string -> Option<Json>)
    returns (outcome: Outcome, ghost written: Option<Persisted>)
    ensures outcome.ParseError? <==> parse(Sanitize(raw)).None?
    ensures outcome.SchemaError? <==> parse(Sanitize(raw)).Some? && !IsNotesResponse(parse(Sanitize(raw)).value)
    ensures outcome.SchemaError? ==>
      outcome.violations != [] && outcome.violations == ErrorsOf(ValidateResponse(parse(Sanitize(raw)).value))
    ensures outcome.Saved? ==>
      && |outcome.notes| == NoteCount
      && ValidateResponse(parse(Sanitize(raw)).value) == Ok(outcome.notes)
      && forall k :: 0 <= k < NoteCount ==>
           InBounds(outcome.notes[k]) && Describes(outcome.notes[k], NotesOf(parse(Sanitize(raw)).value)[k])
    ensures written.Some? <==> outcome.Saved?
    ensures written.Some? ==> written.value == Persisted(outputFile, parse(Sanitize(raw)).value)
    ensures Returned(outcome) ==
      if parse(Sanitize(raw)).Some? && IsNotesResponse(parse(Sanitize(raw)).value)
      then Some(ValidateResponse(parse(Sanitize(raw)).value).value)
      else None
  {
    written := None;
    var cleaned := Sanitize(raw);
    var data := parse(cleaned);
    if data.None? {
      return ParseError, written;
    }
    var response := ValidateResponse(data.value);
    if response.Err? {
      return SchemaError(response.error), written;
    }
    written := Some(Persisted(outputFile, data.value));
    outcome := Saved(response.value);
  }

  /** Every JSON text that denotes an object contains a `{`, as every JSON text of an object does. */
  ghost predicate ObjectsNeedBrace(parse: string -> Option<Json>) {
    forall s :: parse(s).Some? && parse(s).value.JObject? ==> '{' in s
  }

  /**
   * A reply without any `{` is never saved: the sanitiser only strips it, and
   * what it parses to, if anything, is not an object.
   */
  lemma NoBraceNeverSaved(raw: string, parse: string -> Option<Json>)
    requires ObjectsNeedBrace(parse)
    requires '{' !in raw
    ensures parse(Sanitize(raw)).None? || !IsNotesResponse(parse(Sanitize(raw)).value)
  {
    SanitizeIsSlice(raw);
    AbsentFromSlice('{', Sanitize(raw), raw);
  }

  /** A reply that is already a bare JSON object, with no surrounding whitespace, is parsed exactly as given. */
  lemma CleanReplyParsedAsGiven(raw: string, parse: string -> Option<Json>)
    requires raw != [] && raw[0] == '{' && !IsSpace(raw[|raw| - 1])
    ensures parse(Sanitize(raw)) == parse(raw)
  {
    CleanJsonUnchanged(raw);
  }
}
