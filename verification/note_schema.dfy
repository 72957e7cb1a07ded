/**
 * The note schema: pydantic models `Note` and `NotesResponse`. The model
 * reads them in two ways. A validity predicate on the parsed JSON value says
 * which values the schema accepts. A validator either builds the notes or
 * returns every constraint the value violates, each at its location.
 */
module NoteSchema {
  import opened Wrappers
  import opened Json

  /** Bounds declared on the fields of `Note` and `NotesResponse`. */
  const MinId: int := 1
  const MaxId: int := 10
  const MaxHeadingLength: nat := 100
  const MaxSummaryLength: nat := 150
  const NoteCount: nat := 10

  /** A validated study note; `pageRef` is None when `page_ref` was absent or null. */
  datatype Note = Note(id: int, heading: string, summary: string, pageRef: Option<int>)

  /** The field bounds every validated note satisfies. */
  predicate InBounds(n: Note) {
    MinId <= n.id <= MaxId && |n.heading| <= MaxHeadingLength && |n.summary| <= MaxSummaryLength
  }

  /** One step of a location, as in pydantic's error locations: a key or a list index. */
  datatype Loc = Key(name: string) | Index(i: nat)

  /** What is wrong at a location. */
  datatype Problem =
    | NotAnObject
    | Missing
    | NotAnInteger
    | NotAString
    | NotAList
    | BelowMinimum(min: int)
    | AboveMaximum(max: int)
    | TooLong(maxLength: nat)
    | WrongLength(expected: nat, actual: nat)

  /** A violated constraint and where it was found, from the root of the value. */
  datatype Violation = Violation(loc: seq<Loc>, problem: Problem)

  /* ---------------- The schema as predicates on the parsed value ---------------- */

  /** `id`: a required integer between 1 and 10. */
  predicate IdOk(o: map<string, Json>) {
    "id" in o && o["id"].JInt? && MinId <= o["id"].n <= MaxId
  }

  /** `heading`: a required string of at most 100 characters. */
  predicate HeadingOk(o: map<string, Json>) {
    "heading" in o && o["heading"].JString? && |o["heading"].s| <= MaxHeadingLength
  }

  /** `summary`: a required string of at most 150 characters. */
  predicate SummaryOk(o: map<string, Json>) {
    "summary" in o && o["summary"].JString? && |o["summary"].s| <= MaxSummaryLength
  }

  /** `page_ref`: an optional integer; absent and null both mean None. */
  predicate PageRefOk(o: map<string, Json>) {
    "page_ref" !in o || o["page_ref"].JNull? || o["page_ref"].JInt?
  }

  /** The value is an object that `Note` accepts. Other keys are not constrained. */
  predicate IsNote(j: Json) {
    j.JObject? && IdOk(j.fields) && HeadingOk(j.fields) && SummaryOk(j.fields) && PageRefOk(j.fields)
  }

  /** The value is an object with a `notes` list. */
  predicate HasNotesList(j: Json) {
    j.JObject? && "notes" in j.fields && j.fields["notes"].JArray?
  }

  /** The entries of the `notes` list. */
  function NotesOf(j: Json): seq<Json>
    requires HasNotesList(j)
  {
    j.fields["notes"].items
  }

  /** The value is an object that `NotesResponse` accepts: a `notes` list of exactly ten notes. */
  predicate IsNotesResponse(j: Json) {
    && HasNotesList(j)
    && |NotesOf(j)| == NoteCount
    && forall k :: 0 <= k < |NotesOf(j)| ==> IsNote(NotesOf(j)[k])
  }

  /** `n` holds exactly the field values written in the object `j`. */
  predicate Describes(n: Note, j: Json) {
    && j.JObject?
    && "id" in j.fields && j.fields["id"] == JInt(n.id)
    && "heading" in j.fields && j.fields["heading"] == JString(n.heading)
    && "summary" in j.fields && j.fields["summary"] == JString(n.summary)
    && match n.pageRef
       case None => "page_ref" !in j.fields || j.fields["page_ref"] == JNull
       case Some(p) => "page_ref" in j.fields && j.fields["page_ref"] == JInt(p)
  }

  /** An object describes at most one note. */
  lemma DescribesUnique(n: Note, m: Note, j: Json)
    requires Describes(n, j) && Describes(m, j)
    ensures n == m
  {
    match n.pageRef
    case None =>
    case Some(p) =>
  }

  /* ---------------- The validator ---------------- */

  /** The errors of a validation: none on success. */
  function ErrorsOf<T>(r: Result<T, seq<Violation>>): seq<Violation> {
    if r.Err? then r.error else []
  }

  /** Some violation is reported at the top-level key `key`. */
  ghost predicate Reports(errs: seq<Violation>, key: string) {
    exists v :: v in errs && v.loc == [Key(key)]
  }

  /** The kind of a declared field of `Note`, with its bounds. */
  datatype FieldRule =
    | RequiredInt(lo: int, hi: int)
    | RequiredString(maxLength: nat)
    | OptionalInt

  /** A declared field of `Note`: its key and its rule. */
  datatype FieldDecl = FieldDecl(key: string, rule: FieldRule)

  /** The four fields of `Note`, in declaration order. */
  const NoteFields: seq<FieldDecl> := [
    FieldDecl("id", RequiredInt(MinId, MaxId)),
    FieldDecl("heading", RequiredString(MaxHeadingLength)),
    FieldDecl("summary", RequiredString(MaxSummaryLength)),
    FieldDecl("page_ref", OptionalInt)]

  /** The object satisfies one declared field. */
  predicate FieldOk(o: map<string, Json>, f: FieldDecl) {
    match f.rule
    case RequiredInt(lo, hi) => f.key in o && o[f.key].JInt? && lo <= o[f.key].n <= hi
    case RequiredString(maxLength) => f.key in o && o[f.key].JString? && |o[f.key].s| <= maxLength
    case OptionalInt => f.key !in o || o[f.key].JNull? || o[f.key].JInt?
  }

  /** The declared fields say exactly what the four field predicates say. */
  lemma NoteFieldsMeaning(o: map<string, Json>)
    ensures FieldOk(o, NoteFields[0]) == IdOk(o)
    ensures FieldOk(o, NoteFields[1]) == HeadingOk(o)
    ensures FieldOk(o, NoteFields[2]) == SummaryOk(o)
    ensures FieldOk(o, NoteFields[3]) == PageRefOk(o)
  {
  }

  /** The check of one field: nothing when it is satisfied, otherwise one violation at its key. */
  function FieldErrors(o: map<string, Json>, f: FieldDecl): (vs: seq<Violation>)
    ensures vs == [] <==> FieldOk(o, f)
    ensures |vs| <= 1
    ensures forall v :: v in vs ==> v.loc == [Key(f.key)]
  {
    var at := [Key(f.key)];
    match f.rule
    case RequiredInt(lo, hi) =>
      if f.key !in o then [Violation(at, Missing)]
      else if !o[f.key].JInt? then [Violation(at, NotAnInteger)]
      else if o[f.key].n < lo then [Violation(at, BelowMinimum(lo))]
      else if o[f.key].n > hi then [Violation(at, AboveMaximum(hi))]
      else []
    case RequiredString(maxLength) =>
      if f.key !in o then [Violation(at, Missing)]
      else if !o[f.key].JString? then [Violation(at, NotAString)]
      else if |o[f.key].s| > maxLength then [Violation(at, TooLong(maxLength))]
      else []
    case OptionalInt =>
      if f.key !in o || o[f.key].JNull? || o[f.key].JInt? then [] else [Violation(at, NotAnInteger)]
  }

  /** The checks of several fields, in order; each field is checked on its own. */
  function FieldsErrors(o: map<string, Json>, fs: seq<FieldDecl>): (vs: seq<Violation>)
    ensures vs == [] <==> forall i :: 0 <= i < |fs| ==> FieldOk(o, fs[i])
  {
    if fs == [] then []
    else
      assert forall i :: 1 <= i < |fs| ==> fs[1..][i - 1] == fs[i];
      FieldErrors(o, fs[0]) + FieldsErrors(o, fs[1..])
  }

  /**
   * Every violated field constraint of `Note(**j)`. Each field is checked on
   * its own, so one bad field never hides another.
   */
  function NoteErrors(j: Json): (errs: seq<Violation>)
    ensures errs == [] <==> IsNote(j)
  {
    if !j.JObject? then [Violation([], NotAnObject)]
    else
      NoteFieldsMeaning(j.fields);
      FieldsErrors(j.fields, NoteFields)
  }

  /** The checks of a non-empty list of fields: the first field's, then the rest's. */
  lemma FieldsErrorsCons(o: map<string, Json>, fs: seq<FieldDecl>)
    requires fs != []
    ensures FieldsErrors(o, fs) == FieldErrors(o, fs[0]) + FieldsErrors(o, fs[1..])
  {
  }

  /** The checks of four fields, spelled out. */
  lemma FieldsErrorsOfFour(o: map<string, Json>, fs: seq<FieldDecl>)
    requires |fs| == 4
    ensures FieldsErrors(o, fs)
         == FieldErrors(o, fs[0]) + (FieldErrors(o, fs[1]) + (FieldErrors(o, fs[2]) + FieldErrors(o, fs[3])))
  {
    var t1, t2, t3 := fs[1..], fs[2..], fs[3..];
    assert t1[0] == fs[1] && t1[1..] == t2;
    assert t2[0] == fs[2] && t2[1..] == t3;
    assert t3[0] == fs[3] && t3[1..] == [];
    FieldsErrorsCons(o, fs);
    FieldsErrorsCons(o, t1);
    FieldsErrorsCons(o, t2);
    FieldsErrorsCons(o, t3);
    assert FieldErrors(o, fs[3]) + [] == FieldErrors(o, fs[3]);
  }

  /** The violations of an object are those of its four fields, in declaration order. */
  lemma NoteErrorsByField(j: Json)
    requires j.JObject?
    ensures NoteErrors(j) == FieldErrors(j.fields, NoteFields[0]) + (FieldErrors(j.fields, NoteFields[1])
      + (FieldErrors(j.fields, NoteFields[2]) + FieldErrors(j.fields, NoteFields[3])))
  {
    FieldsErrorsOfFour(j.fields, NoteFields);
  }

  lemma ReportsAppend(a: seq<Violation>, b: seq<Violation>, key: string)
    ensures Reports(a + b, key) <==> Reports(a, key) || Reports(b, key)
  {
    if Reports(a + b, key) {
      var v :| v in a + b && v.loc == [Key(key)];
      assert v in a || v in b;
    }
    if Reports(a, key) {
      var v :| v in a && v.loc == [Key(key)];
      assert v in a + b;
    }
    if Reports(b, key) {
      var v :| v in b && v.loc == [Key(key)];
      assert v in a + b;
    }
  }

  /** Violations all located at `at` report `key` exactly when there are some and `at` is `key`. */
  lemma ReportsAllAt(vs: seq<Violation>, at: string, key: string)
    requires forall v :: v in vs ==> v.loc == [Key(at)]
    ensures Reports(vs, key) <==> vs != [] && at == key
  {
    if vs != [] && at == key {
      assert vs[0] in vs;
    }
    if Reports(vs, key) {
      var v :| v in vs && v.loc == [Key(key)];
      assert [Key(at)][0] == [Key(key)][0];
    }
  }

  /** Each field's constraint is reported, at that field's key, exactly when it is violated. */
  lemma NoteErrorsPerField(j: Json, key: string)
    requires j.JObject?
    ensures key == "id" ==> (Reports(NoteErrors(j), key) <==> !IdOk(j.fields))
    ensures key == "heading" ==> (Reports(NoteErrors(j), key) <==> !HeadingOk(j.fields))
    ensures key == "summary" ==> (Reports(NoteErrors(j), key) <==> !SummaryOk(j.fields))
    ensures key == "page_ref" ==> (Reports(NoteErrors(j), key) <==> !PageRefOk(j.fields))
  {
    var o := j.fields;
    var ids := FieldErrors(o, NoteFields[0]);
    var headings := FieldErrors(o, NoteFields[1]);
    var summaries := FieldErrors(o, NoteFields[2]);
    var pageRefs := FieldErrors(o, NoteFields[3]);
    NoteErrorsByField(j);
    NoteFieldsMeaning(o);
    ReportsAppend(ids, headings + (summaries + pageRefs), key);
    ReportsAppend(headings, summaries + pageRefs, key);
    ReportsAppend(summaries, pageRefs, key);
    ReportsAllAt(ids, "id", key);
    ReportsAllAt(headings, "heading", key);
    ReportsAllAt(summaries, "summary", key);
    ReportsAllAt(pageRefs, "page_ref", key);
  }

  /** A violation located at one of the required keys of a note comes from that field's own check. */
  lemma NoteErrorsAt(j: Json, v: Violation)
    requires j.JObject?
    ensures v.loc == [Key("id")] ==> (v in NoteErrors(j) <==> v in FieldErrors(j.fields, NoteFields[0]))
    ensures v.loc == [Key("heading")] ==> (v in NoteErrors(j) <==> v in FieldErrors(j.fields, NoteFields[1]))
    ensures v.loc == [Key("summary")] ==> (v in NoteErrors(j) <==> v in FieldErrors(j.fields, NoteFields[2]))
  {
    NoteErrorsByField(j);
  }

  /** An `id` below 1 is reported as below the minimum, and only such an `id` is. */
  lemma IdBelowMinimum(j: Json)
    requires j.JObject?
    ensures Violation([Key("id")], BelowMinimum(MinId)) in NoteErrors(j)
        <==> "id" in j.fields && j.fields["id"].JInt? && j.fields["id"].n < MinId
  {
    NoteErrorsAt(j, Violation([Key("id")], BelowMinimum(MinId)));
  }

  /** An `id` above 10 is reported as above the maximum, and only such an `id` is. */
  lemma IdAboveMaximum(j: Json)
    requires j.JObject?
    ensures Violation([Key("id")], AboveMaximum(MaxId)) in NoteErrors(j)
        <==> "id" in j.fields && j.fields["id"].JInt? && j.fields["id"].n > MaxId
  {
    NoteErrorsAt(j, Violation([Key("id")], AboveMaximum(MaxId)));
  }

  /** A `heading` longer than 100 characters is reported as too long, and only such a heading is. */
  lemma HeadingTooLong(j: Json)
    requires j.JObject?
    ensures Violation([Key("heading")], TooLong(MaxHeadingLength)) in NoteErrors(j)
        <==> "heading" in j.fields && j.fields["heading"].JString? && |j.fields["heading"].s| > MaxHeadingLength
  {
    NoteErrorsAt(j, Violation([Key("heading")], TooLong(MaxHeadingLength)));
  }

  /** A `summary` longer than 150 characters is reported as too long, and only such a summary is. */
  lemma SummaryTooLong(j: Json)
    requires j.JObject?
    ensures Violation([Key("summary")], TooLong(MaxSummaryLength)) in NoteErrors(j)
        <==> "summary" in j.fields && j.fields["summary"].JString? && |j.fields["summary"].s| > MaxSummaryLength
  {
    NoteErrorsAt(j, Violation([Key("summary")], TooLong(MaxSummaryLength)));
  }

  /** Each required field is reported missing exactly when its key is absent. */
  lemma RequiredFieldsMissing(j: Json)
    requires j.JObject?
    ensures Violation([Key("id")], Missing) in NoteErrors(j) <==> "id" !in j.fields
    ensures Violation([Key("heading")], Missing) in NoteErrors(j) <==> "heading" !in j.fields
    ensures Violation([Key("summary")], Missing) in NoteErrors(j) <==> "summary" !in j.fields
  {
    NoteErrorsAt(j, Violation([Key("id")], Missing));
    NoteErrorsAt(j, Violation([Key("heading")], Missing));
    NoteErrorsAt(j, Violation([Key("summary")], Missing));
  }

  /** `Note(**j)`: the note the object describes, or the violations of its fields. */
  function ValidateNote(j: Json): (r: Result<Note, seq<Violation>>)
    ensures r.Ok? <==> IsNote(j)
    ensures r.Ok? ==> InBounds(r.value) && Describes(r.value, j)
    ensures r.Err? ==> r.error == NoteErrors(j) && r.error != []
  {
    if NoteErrors(j) != [] then Err(NoteErrors(j))
    else
      var o := j.fields;
      Ok(Note(o["id"].n, o["heading"].s, o["summary"].s,
              if "page_ref" in o && o["page_ref"].JInt? then Some(o["page_ref"].n) else None))
  }

  /** A violation of a note, moved to that note's place in the `notes` list. */
  function AtNote(index: nat, v: Violation): Violation {
    Violation([Key("notes"), Index(index)] + v.loc, v.problem)
  }

  /** Every violation of a note, moved to that note's place. */
  function AllAtNote(index: nat, errs: seq<Violation>): (r: seq<Violation>)
    ensures |r| == |errs|
    ensures forall i :: 0 <= i < |errs| ==> r[i] == AtNote(index, errs[i])
  {
    seq(|errs|, i requires 0 <= i < |errs| => AtNote(index, errs[i]))
  }

  /**
   * The violations of a list of entries, the first standing at index `base`
   * of `notes`: each entry's own violations, moved to that entry
   * (PlacedComplete, PlacedSound).
   */
  function Placed(perEntry: seq<seq<Violation>>, base: nat): seq<Violation>
    decreases |perEntry|
  {
    if perEntry == [] then []
    else AllAtNote(base, perEntry[0]) + Placed(perEntry[1..], base + 1)
  }

  /** Nothing is reported exactly when no entry has a violation. */
  lemma {:induction false} PlacedEmpty(perEntry: seq<seq<Violation>>, base: nat)
    ensures Placed(perEntry, base) == [] <==> forall k :: 0 <= k < |perEntry| ==> perEntry[k] == []
    decreases |perEntry|
  {
    if perEntry != [] {
      PlacedEmpty(perEntry[1..], base + 1);
      assert forall k :: 1 <= k < |perEntry| ==> perEntry[1..][k - 1] == perEntry[k];
    }
  }

  /** The violations of each entry of `items`, in order. */
  function EntryErrors(items: seq<Json>): (r: seq<seq<Violation>>)
    ensures |r| == |items|
  {
    if items == [] then [] else [NoteErrors(items[0])] + EntryErrors(items[1..])
  }

  /** Entry `k` of EntryErrors holds the violations of entry `k`. */
  lemma {:induction false} EntryErrorsAt(items: seq<Json>, k: nat)
    requires k < |items|
    ensures EntryErrors(items)[k] == NoteErrors(items[k])
    decreases k
  {
    if k > 0 {
      EntryErrorsAt(items[1..], k - 1);
      assert items[1..][k - 1] == items[k];
    }
  }

  /** The violations of the entries of the `notes` list, each at its entry's index. */
  function ListErrors(items: seq<Json>): seq<Violation> {
    Placed(EntryErrors(items), 0)
  }

  /** The entries' violation list is empty exactly when every entry is a note. */
  lemma ListErrorsEmpty(items: seq<Json>)
    ensures ListErrors(items) == [] <==> forall k :: 0 <= k < |items| ==> IsNote(items[k])
  {
    var perEntry := EntryErrors(items);
    PlacedEmpty(perEntry, 0);
    forall k | 0 <= k < |items| ensures perEntry[k] == NoteErrors(items[k]) {
      EntryErrorsAt(items, k);
    }
  }

  /** A list of notes: the notes when every entry is one, otherwise the violations of the entries. */
  function ValidateNotes(items: seq<Json>): (r: Result<seq<Note>, seq<Violation>>)
    ensures r.Ok? <==> forall k :: 0 <= k < |items| ==> IsNote(items[k])
    ensures r.Ok? ==> |r.value| == |items|
    ensures r.Ok? ==> forall k :: 0 <= k < |items| ==> InBounds(r.value[k]) && Describes(r.value[k], items[k])
    ensures r.Err? ==> r.error == ListErrors(items) && r.error != []
  {
    ListErrorsEmpty(items);
    if ListErrors(items) != [] then Err(ListErrors(items))
    else Ok(seq(|items|, k requires 0 <= k < |items| => ValidateNote(items[k]).value))
  }

  /** Every violation of every entry is reported, at that entry's index. */
  lemma {:induction false} PlacedComplete(perEntry: seq<seq<Violation>>, base: nat, k: nat, v: Violation)
    requires k < |perEntry| && v in perEntry[k]
    ensures AtNote(base + k, v) in Placed(perEntry, base)
    decreases |perEntry|
  {
    var head := AllAtNote(base, perEntry[0]);
    assert Placed(perEntry, base) == head + Placed(perEntry[1..], base + 1);
    if k == 0 {
      var i :| 0 <= i < |perEntry[0]| && perEntry[0][i] == v;
      assert head[i] == AtNote(base, v);
    } else {
      assert perEntry[1..][k - 1] == perEntry[k];
      PlacedComplete(perEntry[1..], base + 1, k - 1, v);
      assert base + 1 + (k - 1) == base + k;
    }
  }

  /**
   * Nothing else is reported: each violation lies under `notes` at the index
   * of an entry, and with those two steps removed it is one of that entry's own.
   */
  lemma {:induction false} PlacedSound(perEntry: seq<seq<Violation>>, base: nat, v: Violation)
    requires v in Placed(perEntry, base)
    ensures |v.loc| >= 2 && v.loc[0] == Key("notes") && v.loc[1].Index?
    ensures base <= v.loc[1].i < base + |perEntry|
    ensures Violation(v.loc[2..], v.problem) in perEntry[v.loc[1].i - base]
    decreases |perEntry|
  {
    var head := AllAtNote(base, perEntry[0]);
    assert Placed(perEntry, base) == head + Placed(perEntry[1..], base + 1);
    if v in head {
      var i :| 0 <= i < |head| && head[i] == v;
      var u := perEntry[0][i];
      assert v.loc == [Key("notes"), Index(base)] + u.loc;
      assert v.loc[2..] == u.loc;
    } else {
      PlacedSound(perEntry[1..], base + 1, v);
      assert perEntry[1..][v.loc[1].i - (base + 1)] == perEntry[v.loc[1].i - base];
    }
  }

  /** Every violation of entry `k` is reported at index `k` of `notes`. */
  lemma ListErrorsComplete(items: seq<Json>, k: nat, v: Violation)
    requires k < |items| && v in NoteErrors(items[k])
    ensures AtNote(k, v) in ListErrors(items)
  {
    EntryErrorsAt(items, k);
    PlacedComplete(EntryErrors(items), 0, k, v);
  }

  /**
   * Every reported violation lies under `notes` at the index of an entry, and
   * with those two steps removed it is one of that entry's own.
   */
  lemma ListErrorsSound(items: seq<Json>, v: Violation)
    requires v in ListErrors(items)
    ensures |v.loc| >= 2 && v.loc[0] == Key("notes") && v.loc[1].Index? && v.loc[1].i < |items|
    ensures Violation(v.loc[2..], v.problem) in NoteErrors(items[v.loc[1].i])
  {
    var perEntry := EntryErrors(items);
    PlacedSound(perEntry, 0, v);
    EntryErrorsAt(items, v.loc[1].i);
  }

  /** The violation reported when `notes` does not hold exactly ten entries. */
  function CountError(items: seq<Json>): seq<Violation> {
    if |items| == NoteCount then [] else [Violation([Key("notes")], WrongLength(NoteCount, |items|))]
  }

  /**
   * `NotesResponse(**data)`: the ten notes, or the violations found. A value
   * that is not an object, a missing `notes` key and a `notes` value that is
   * not a list are reported alone; otherwise a wrong count is reported
   * together with every violation of every entry.
   */
  function ValidateResponse(j: Json): (r: Result<seq<Note>, seq<Violation>>)
    ensures r.Ok? <==> IsNotesResponse(j)
    ensures r.Ok? ==> |r.value| == NoteCount
    ensures r.Ok? ==> forall k :: 0 <= k < NoteCount ==> InBounds(r.value[k]) && Describes(r.value[k], NotesOf(j)[k])
    ensures r.Err? ==> r.error != []
  {
    if !j.JObject? then Err([Violation([], NotAnObject)])
    else if "notes" !in j.fields then Err([Violation([Key("notes")], Missing)])
    else if !j.fields["notes"].JArray? then Err([Violation([Key("notes")], NotAList)])
    else
      var items := NotesOf(j);
      var entries := ValidateNotes(items);
      if entries.Ok? && CountError(items) == [] then entries
      else Err(CountError(items) + ErrorsOf(entries))
  }

  /** With a `notes` list, the errors are the count error, if any, followed by the entries' errors. */
  lemma ResponseErrorsOfList(j: Json)
    requires HasNotesList(j)
    ensures ErrorsOf(ValidateResponse(j)) == CountError(NotesOf(j)) + ListErrors(NotesOf(j))
  {
  }

  /** A wrong number of entries is reported, with the number found, exactly when the count is not ten. */
  lemma ResponseReportsCount(j: Json)
    requires HasNotesList(j)
    ensures Violation([Key("notes")], WrongLength(NoteCount, |NotesOf(j)|)) in ErrorsOf(ValidateResponse(j))
        <==> |NotesOf(j)| != NoteCount
  {
    var w := Violation([Key("notes")], WrongLength(NoteCount, |NotesOf(j)|));
    ResponseErrorsOfList(j);
    if w in ListErrors(NotesOf(j)) {
      ListErrorsSound(NotesOf(j), w);
    }
  }

  /** Every violation of every entry is reported at `notes`, that entry's index, then its own location. */
  lemma ResponseReportsEveryEntry(j: Json, k: nat, v: Violation)
    requires HasNotesList(j) && k < |NotesOf(j)| && v in NoteErrors(NotesOf(j)[k])
    ensures Violation([Key("notes"), Index(k)] + v.loc, v.problem) in ErrorsOf(ValidateResponse(j))
  {
    ResponseErrorsOfList(j);
    ListErrorsComplete(NotesOf(j), k, v);
  }

  /** A value that is not an object, a missing `notes` key and a `notes` value that is not a list are each reported alone. */
  lemma ResponseShapeErrors(j: Json)
    ensures !j.JObject? ==> ValidateResponse(j) == Err([Violation([], NotAnObject)])
    ensures j.JObject? && "notes" !in j.fields ==> ValidateResponse(j) == Err([Violation([Key("notes")], Missing)])
    ensures j.JObject? && "notes" in j.fields && !j.fields["notes"].JArray?
        ==> ValidateResponse(j) == Err([Violation([Key("notes")], NotAList)])
  {
  }

  /**
   * An entry whose `id` is above 10 is reported at `notes`, its index, `id`,
   * and no other entry's `id` is reported there.
   */
  lemma EntryIdAboveMaximum(j: Json, k: nat)
    requires HasNotesList(j) && k < |NotesOf(j)|
    ensures Violation([Key("notes"), Index(k), Key("id")], AboveMaximum(MaxId)) in ErrorsOf(ValidateResponse(j))
        <==> var e := NotesOf(j)[k]; e.JObject? && "id" in e.fields && e.fields["id"].JInt? && e.fields["id"].n > MaxId
  {
    var e := NotesOf(j)[k];
    var u := Violation([Key("id")], AboveMaximum(MaxId));
    var w := Violation([Key("notes"), Index(k), Key("id")], AboveMaximum(MaxId));
    assert w == Violation([Key("notes"), Index(k)] + u.loc, u.problem);
    ResponseErrorsOfList(j);
    if e.JObject? {
      IdAboveMaximum(e);
      if u in NoteErrors(e) {
        ResponseReportsEveryEntry(j, k, u);
      }
    }
    if w in ListErrors(NotesOf(j)) {
      ListErrorsSound(NotesOf(j), w);
      assert w.loc[2..] == u.loc;
    }
  }

  /** An accepted note whose `page_ref` is absent or null has no page reference. */
  lemma AbsentPageRefIsNone(j: Json)
    requires IsNote(j) && ("page_ref" !in j.fields || j.fields["page_ref"].JNull?)
    ensures ValidateNote(j).value.pageRef == None
  {
  }

  /* ---------------- Serialisation and round trips ---------------- */

  /** A note as the JSON object it is written as; a missing page reference is written as null. */
  function NoteToJson(n: Note): (j: Json)
    ensures Describes(n, j)
  {
    JObject(map[
      "id" := JInt(n.id),
      "heading" := JString(n.heading),
      "summary" := JString(n.summary),
      "page_ref" := match n.pageRef case None => JNull case Some(p) => JInt(p)])
  }

  /** A list of notes as the `{"notes": [...]}` document. */
  function ResponseToJson(ns: seq<Note>): (j: Json)
    ensures HasNotesList(j) && |NotesOf(j)| == |ns|
    ensures forall k :: 0 <= k < |ns| ==> NotesOf(j)[k] == NoteToJson(ns[k])
  {
    JObject(map["notes" := JArray(seq(|ns|, k requires 0 <= k < |ns| => NoteToJson(ns[k])))])
  }

  /** Writing a note that keeps the bounds and validating it again gives back the same note. */
  lemma NoteRoundTrip(n: Note)
    requires InBounds(n)
    ensures ValidateNote(NoteToJson(n)) == Ok(n)
  {
    var j := NoteToJson(n);
    assert IsNote(j);
    DescribesUnique(ValidateNote(j).value, n, j);
  }

  /** Writing ten notes that keep the bounds and validating the document gives back the same notes. */
  lemma ResponseRoundTrip(ns: seq<Note>)
    requires |ns| == NoteCount && forall k :: 0 <= k < |ns| ==> InBounds(ns[k])
    ensures ValidateResponse(ResponseToJson(ns)) == Ok(ns)
  {
    var j := ResponseToJson(ns);
    forall k | 0 <= k < |ns| ensures IsNote(NotesOf(j)[k]) {
      NoteRoundTrip(ns[k]);
    }
    assert IsNotesResponse(j);
    var r := ValidateResponse(j);
    forall k | 0 <= k < |ns| ensures r.value[k] == ns[k] {
      DescribesUnique(r.value[k], ns[k], NotesOf(j)[k]);
    }
    assert r.value == ns;
  }

  /** Whatever the validator accepts, it accepts again once written back in its own form. */
  lemma ValidatedNotesRevalidate(j: Json)
    requires ValidateResponse(j).Ok?
    ensures ValidateResponse(ResponseToJson(ValidateResponse(j).value)) == ValidateResponse(j)
  {
    ResponseRoundTrip(ValidateResponse(j).value);
  }

  /** Ids need not be distinct: ten copies of one note are accepted. */
  lemma DuplicateIdsAccepted(n: Note)
    requires InBounds(n)
    ensures ValidateResponse(ResponseToJson(seq(NoteCount, _ => n))).Ok?
  {
    ResponseRoundTrip(seq(NoteCount, _ => n));
  }
}
