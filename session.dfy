/**
 * The session state held by the `App` component of app.js: the profile, the
 * answers per instrument, the per-item notes and the per-section notes, with
 * the pure transitions its event handlers apply, the export snapshot, the
 * import merge and the four separately persisted entries.
 */
module Session {
  import opened Wrappers
  import opened Catalog

  /** What onboarding collects.  `dob` is the date input's "YYYY-MM-DD" text. */
  datatype Profile = Profile(name: string, dob: string, gender: string)

  /** The fields the profile edit dialog changes one at a time. */
  datatype ProfileField = Name | DateOfBirth | Gender

  /** Item id to the chosen scale index, for one instrument. */
  type Answers = map<string, int>

  /** Instrument id to its answers; an absent item id is an unanswered item. */
  type Responses = map<string, Answers>

  /** Item id (or section key) to free text. */
  type Notes = map<string, string>

  /** The four pieces of state; `profile == None` means onboarding has not been completed. */
  datatype SessionState = SessionState(
    profile: Option<Profile>,
    responses: Responses,
    notes: Notes,
    sectionNotes: Notes)

  /** The state of a first visit: no profile and three empty maps. */
  const Fresh: SessionState := SessionState(None, map[], map[], map[])

  /** `responses[testId] || {}`: the answers of one instrument, empty when it has none yet. */
  function AnswersOf(responses: Responses, testId: string): (a: Answers)
    ensures testId in responses ==> a == responses[testId]
    ensures testId !in responses ==> a == map[]
  {
    if testId in responses then responses[testId] else map[]
  }

  /** `handleOnboardingComplete`: the profile is set as given; no field is checked. */
  function WithProfile(st: SessionState, data: Profile): (r: SessionState)
    ensures r.profile == Some(data)
    ensures r.responses == st.responses && r.notes == st.notes && r.sectionNotes == st.sectionNotes
  {
    st.(profile := Some(data))
  }

  /**
   * The profile edit dialog: `setProfile(p => ({ ...p, field: value }))`.
   * Spreading a missing profile yields an object with only that field, modelled
   * with the other two fields empty.
   */
  function WithProfileField(st: SessionState, field: ProfileField, value: string): (r: SessionState)
    ensures r.profile.Some?
    ensures r.responses == st.responses && r.notes == st.notes && r.sectionNotes == st.sectionNotes
    ensures field == Name ==> r.profile.value.name == value
    ensures field == DateOfBirth ==> r.profile.value.dob == value
    ensures field == Gender ==> r.profile.value.gender == value
    ensures st.profile.Some? && field != Name ==> r.profile.value.name == st.profile.value.name
    ensures st.profile.Some? && field != DateOfBirth ==> r.profile.value.dob == st.profile.value.dob
    ensures st.profile.Some? && field != Gender ==> r.profile.value.gender == st.profile.value.gender
  {
    st.(profile := Some(Edited(st.profile.GetOr(Profile("", "", "")), field, value)))
  }

  /** The profile with one field replaced. */
  function Edited(p: Profile, field: ProfileField, value: string): Profile {
    match field
    case Name => p.(name := value)
    case DateOfBirth => p.(dob := value)
    case Gender => p.(gender := value)
  }

  /**
   * `handleUpdate`: the answer `value` is stored for `itemId` under `testId`,
   * creating that instrument's map if it has none; every other answer, every
   * other instrument and the other three fields stay as they were.  The value
   * is not range-checked.
   */
  function WithAnswer(st: SessionState, testId: string, itemId: string, value: int): (r: SessionState)
    ensures r.profile == st.profile && r.notes == st.notes && r.sectionNotes == st.sectionNotes
    ensures r.responses.Keys == st.responses.Keys + {testId}
    ensures r.responses[testId].Keys == AnswersOf(st.responses, testId).Keys + {itemId}
    ensures r.responses[testId][itemId] == value
    ensures forall q :: q in r.responses[testId] && q != itemId ==>
              r.responses[testId][q] == AnswersOf(st.responses, testId)[q]
    ensures forall t :: t in st.responses && t != testId ==> r.responses[t] == st.responses[t]
  {
    st.(responses := st.responses[testId := AnswersOf(st.responses, testId)[itemId := value]])
  }

  /**
   * `handleClear`: only `itemId` is removed from the instrument's answers; the
   * instrument's map is created (empty) when it had none.
   */
  function WithoutAnswer(st: SessionState, testId: string, itemId: string): (r: SessionState)
    ensures r.profile == st.profile && r.notes == st.notes && r.sectionNotes == st.sectionNotes
    ensures r.responses.Keys == st.responses.Keys + {testId}
    ensures r.responses[testId].Keys == AnswersOf(st.responses, testId).Keys - {itemId}
    ensures forall q :: q in r.responses[testId] ==> r.responses[testId][q] == AnswersOf(st.responses, testId)[q]
    ensures forall t :: t in st.responses && t != testId ==> r.responses[t] == st.responses[t]
  {
    st.(responses := st.responses[testId := AnswersOf(st.responses, testId) - {itemId}])
  }

  /** `handleNoteUpdate`: one note is set (an empty text is kept, not removed). */
  function WithNote(st: SessionState, itemId: string, text: string): (r: SessionState)
    ensures r.profile == st.profile && r.responses == st.responses && r.sectionNotes == st.sectionNotes
    ensures r.notes.Keys == st.notes.Keys + {itemId} && r.notes[itemId] == text
    ensures forall q :: q in st.notes && q != itemId ==> r.notes[q] == st.notes[q]
  {
    st.(notes := st.notes[itemId := text])
  }

  /** `handleSectionNoteUpdate`: one section note is set (an empty text is kept). */
  function WithSectionNote(st: SessionState, sectionKey: string, text: string): (r: SessionState)
    ensures r.profile == st.profile && r.responses == st.responses && r.notes == st.notes
    ensures r.sectionNotes.Keys == st.sectionNotes.Keys + {sectionKey} && r.sectionNotes[sectionKey] == text
    ensures forall k :: k in st.sectionNotes && k != sectionKey ==> r.sectionNotes[k] == st.sectionNotes[k]
  {
    st.(sectionNotes := st.sectionNotes[sectionKey := text])
  }

  // ---------------------------------------------------------------- snapshot

  /** The format tag written into every export. */
  const FormatVersion: string := "3.0"

  /**
   * The parsed backup document.  A field is `None` when the document does not
   * carry it (or carries a falsy value there); maps and the profile object are
   * always truthy when present, even when empty.
   */
  datatype Snapshot = Snapshot(
    version: string,
    date: string,
    profile: Option<Profile>,
    responses: Option<Responses>,
    notes: Option<Notes>,
    sectionNotes: Option<Notes>)

  /** `handleExport`'s record: the version tag, the given timestamp and all four fields. */
  function ExportOf(st: SessionState, date: string): (s: Snapshot)
    ensures s.version == FormatVersion && s.date == date
    ensures s.profile == st.profile
    ensures s.responses == Some(st.responses) && s.notes == Some(st.notes) && s.sectionNotes == Some(st.sectionNotes)
  {
    Snapshot(FormatVersion, date, st.profile, Some(st.responses), Some(st.notes), Some(st.sectionNotes))
  }

  /**
   * `handleImport` after a successful parse and a confirmed prompt: each field
   * the snapshot carries replaces the current one whole (no per-key merge);
   * each field it lacks is left untouched.  Version and date are ignored.
   */
  function Merged(st: SessionState, s: Snapshot): (r: SessionState)
    ensures s.profile.Some? ==> r.profile == s.profile
    ensures s.profile.None? ==> r.profile == st.profile
    ensures s.responses.Some? ==> r.responses == s.responses.value
    ensures s.responses.None? ==> r.responses == st.responses
    ensures s.notes.Some? ==> r.notes == s.notes.value
    ensures s.notes.None? ==> r.notes == st.notes
    ensures s.sectionNotes.Some? ==> r.sectionNotes == s.sectionNotes.value
    ensures s.sectionNotes.None? ==> r.sectionNotes == st.sectionNotes
  {
    SessionState(
      if s.profile.Some? then s.profile else st.profile,
      s.responses.GetOr(st.responses),
      s.notes.GetOr(st.notes),
      s.sectionNotes.GetOr(st.sectionNotes))
  }

  /** How an import attempt ended: the toast shown, or nothing when the prompt is declined. */
  datatype ImportOutcome = Imported | Declined | InvalidFile

  /**
   * What `JSON.parse` made of the file: it threw, it gave `null`, or it gave a
   * value whose truthy fields are those of the snapshot (any other value,
   * a number or an array say, is a snapshot with no fields).
   */
  datatype Parsed = Unparsable | NullDocument | Document(snapshot: Snapshot)

  /**
   * The whole import.  A file that does not parse shows "Invalid file" and the
   * prompt is never asked; otherwise the prompt is asked, and declining it
   * changes nothing and shows nothing.  Once confirmed, a `null` document
   * throws at its first field read, before any field is set, so it too shows
   * "Invalid file" and changes nothing; any other document is merged.
   */
  function ImportResult(st: SessionState, parsed: Parsed, confirmed: bool): (r: (SessionState, ImportOutcome))
    ensures parsed.Unparsable? ==> r == (st, InvalidFile)
    ensures !parsed.Unparsable? && !confirmed ==> r == (st, Declined)
    ensures parsed.NullDocument? && confirmed ==> r == (st, InvalidFile)
    ensures parsed.Document? && confirmed ==> r == (Merged(st, parsed.snapshot), Imported)
  {
    match parsed
    case Unparsable => (st, InvalidFile)
    case NullDocument => (st, if confirmed then InvalidFile else Declined)
    case Document(s) => if confirmed then (Merged(st, s), Imported) else (st, Declined)
  }

  /** An import either leaves the state as it was or merges a parsed document; it never half-applies. */
  lemma ImportAllOrNothing(st: SessionState, parsed: Parsed, confirmed: bool)
    ensures ImportResult(st, parsed, confirmed).1 != Imported ==> ImportResult(st, parsed, confirmed).0 == st
    ensures ImportResult(st, parsed, confirmed).1 == Imported
        <==> parsed.Document? && confirmed && ImportResult(st, parsed, confirmed).0 == Merged(st, parsed.snapshot)
  {
  }

  /** Exporting and importing into any store gives back the exported fields (the profile only if there was one). */
  lemma ExportImportRoundTrip(st: SessionState, other: SessionState, date: string)
    ensures Merged(other, ExportOf(st, date)) == st.(profile := if st.profile.Some? then st.profile else other.profile)
    ensures Merged(Fresh, ExportOf(st, date)) == st
  {
  }

  /** Importing a snapshot is idempotent: a second identical import changes nothing more. */
  lemma MergeIdempotent(st: SessionState, s: Snapshot)
    ensures Merged(Merged(st, s), s) == Merged(st, s)
  {
  }

  /** Import is a whole-field replace, not a key-by-key merge: an answer map missing from the file's one is dropped. */
  lemma ImportIsNotDeepMerge()
    ensures var st := Fresh.(responses := map["aq" := map["aq_1" := 2]]);
            var s := Snapshot(FormatVersion, "", None, Some(map["aq" := map["aq_2" := 1]]), None, None);
            "aq_1" !in Merged(st, s).responses["aq"]
  {
  }

  // ---------------------------------------------------------------- persistence

  /**
   * The four localStorage entries `nd_profile`, `nd_responses`, `nd_notes`,
   * `nd_section_notes`, already parsed; an entry is `None` when it is missing.
   * The profile entry holds an optional profile because the text "null" is
   * written when there is no profile.
   */
  datatype Saved = Saved(
    profile: Option<Option<Profile>>,
    responses: Option<Responses>,
    notes: Option<Notes>,
    sectionNotes: Option<Notes>)

  /** The auto-save: each field written to its own entry. */
  function Persisted(st: SessionState): (s: Saved)
    ensures s.profile == Some(st.profile)
    ensures s.responses == Some(st.responses) && s.notes == Some(st.notes) && s.sectionNotes == Some(st.sectionNotes)
  {
    Saved(Some(st.profile), Some(st.responses), Some(st.notes), Some(st.sectionNotes))
  }

  /** The state initialisers of `App`: each missing entry defaults on its own, without affecting the others. */
  function Restored(s: Saved): (st: SessionState)
    ensures st.profile == (if s.profile.Some? then s.profile.value else None)
    ensures st.responses == s.responses.GetOr(map[])
    ensures st.notes == s.notes.GetOr(map[]) && st.sectionNotes == s.sectionNotes.GetOr(map[])
  {
    SessionState(s.profile.GetOr(None), s.responses.GetOr(map[]), s.notes.GetOr(map[]), s.sectionNotes.GetOr(map[]))
  }

  /** What is saved is restored exactly; with nothing saved, the session starts fresh. */
  lemma PersistRestoreRoundTrip(st: SessionState)
    ensures Restored(Persisted(st)) == st
    ensures Restored(Saved(None, None, None, None)) == Fresh
  {
  }

  // ---------------------------------------------------------------- answer laws

  /** Repeating `handleUpdate` with the same arguments gives the same state. */
  lemma AnswerIdempotent(st: SessionState, testId: string, itemId: string, value: int)
    ensures WithAnswer(WithAnswer(st, testId, itemId, value), testId, itemId, value)
         == WithAnswer(st, testId, itemId, value)
  {
    var once := WithAnswer(st, testId, itemId, value);
    var a := AnswersOf(once.responses, testId);
    assert a[itemId := value] == a;
    assert once.responses[testId := a] == once.responses;
  }

  /** Clearing twice is clearing once. */
  lemma ClearIdempotent(st: SessionState, testId: string, itemId: string)
    ensures WithoutAnswer(WithoutAnswer(st, testId, itemId), testId, itemId) == WithoutAnswer(st, testId, itemId)
  {
    var once := WithoutAnswer(st, testId, itemId);
    var a := AnswersOf(once.responses, testId);
    assert a - {itemId} == a;
    assert once.responses[testId := a] == once.responses;
  }

  /** Clearing an answered item and answering it again with its old value restores the exact prior state. */
  lemma ClearThenRestore(st: SessionState, testId: string, itemId: string)
    requires testId in st.responses && itemId in st.responses[testId]
    ensures WithAnswer(WithoutAnswer(st, testId, itemId), testId, itemId, st.responses[testId][itemId]) == st
  {
    var prior := st.responses[testId];
    var cleared := WithoutAnswer(st, testId, itemId);
    assert AnswersOf(cleared.responses, testId) == prior - {itemId};
    assert (prior - {itemId})[itemId := prior[itemId]] == prior;
    assert st.responses[testId := prior] == st.responses;
  }

  /** Clearing an item that has no answer leaves the state as it was, once the instrument has a map. */
  lemma ClearAbsentIsNoOp(st: SessionState, testId: string, itemId: string)
    requires testId in st.responses && itemId !in st.responses[testId]
    ensures WithoutAnswer(st, testId, itemId) == st
  {
    assert st.responses[testId] - {itemId} == st.responses[testId];
    assert st.responses[testId := st.responses[testId]] == st.responses;
  }

  /** Clearing on an instrument with no map creates an empty one: the state is not left as it was. */
  lemma ClearCreatesEmptyMap(st: SessionState, testId: string, itemId: string)
    requires testId !in st.responses
    ensures WithoutAnswer(st, testId, itemId).responses == st.responses[testId := map[]]
    ensures WithoutAnswer(st, testId, itemId) != st
  {
    assert testId in WithoutAnswer(st, testId, itemId).responses;
  }

  /** Notes are independent of answers: clearing an answer keeps the item's note. */
  lemma NoteSurvivesClear(st: SessionState, testId: string, itemId: string)
    requires itemId in st.notes
    ensures itemId in WithoutAnswer(st, testId, itemId).notes
    ensures WithoutAnswer(st, testId, itemId).notes[itemId] == st.notes[itemId]
  {
  }

  // ---------------------------------------------------------------- scale validity

  /** Every stored answer is an index of its instrument's scale (the instrument being found in the list). */
  predicate ValidResponses(config: seq<TestConfig>, responses: Responses) {
    forall t, q :: t in responses && q in responses[t] ==>
      FindConfig(config, t).Some? && 0 <= responses[t][q] < FindConfig(config, t).value.scaleLength
  }

  /**
   * The only caller of `handleUpdate` passes the index of a button drawn from
   * the active instrument's scale, so answering through the UI keeps every
   * stored answer a valid scale index.
   */
  lemma AnswerFromScaleKeepsValid(config: seq<TestConfig>, st: SessionState, testId: string, itemId: string, value: int)
    requires ValidResponses(config, st.responses)
    requires FindConfig(config, testId).Some? && 0 <= value < FindConfig(config, testId).value.scaleLength
    ensures ValidResponses(config, WithAnswer(st, testId, itemId, value).responses)
  {
    var r := WithAnswer(st, testId, itemId, value).responses;
    forall t, q | t in r && q in r[t]
      ensures FindConfig(config, t).Some? && 0 <= r[t][q] < FindConfig(config, t).value.scaleLength
    {
      if t == testId && q != itemId {
        assert q in AnswersOf(st.responses, testId);
        assert testId in st.responses;
      }
    }
  }

  /** Clearing an answer keeps every stored answer a valid scale index. */
  lemma ClearKeepsValid(config: seq<TestConfig>, st: SessionState, testId: string, itemId: string)
    requires ValidResponses(config, st.responses)
    ensures ValidResponses(config, WithoutAnswer(st, testId, itemId).responses)
  {
    var r := WithoutAnswer(st, testId, itemId).responses;
    forall t, q | t in r && q in r[t]
      ensures FindConfig(config, t).Some? && 0 <= r[t][q] < FindConfig(config, t).value.scaleLength
    {
      if t == testId {
        assert q in AnswersOf(st.responses, testId);
        assert testId in st.responses;
      }
    }
  }

  /** `handleUpdate` itself does not check the range: an index past a four-level scale is stored. */
  lemma AnswerIsNotRangeChecked()
    ensures var config := [TestConfig("aq", 4)];
            var r := WithAnswer(Fresh, "aq", "aq_12", 7);
            r.responses["aq"]["aq_12"] == 7 && !ValidResponses(config, r.responses)
  {
    var config := [TestConfig("aq", 4)];
    var r := WithAnswer(Fresh, "aq", "aq_12", 7);
    assert "aq" in r.responses && "aq_12" in r.responses["aq"];
  }

  /** Import does not validate either: a valid session can be replaced by out-of-range answers. */
  lemma ImportIsNotValidated()
    ensures var config := [TestConfig("aq", 4)];
            var s := Snapshot(FormatVersion, "", None, Some(map["aq" := map["aq_12" := 7]]), None, None);
            ValidResponses(config, Fresh.responses) && !ValidResponses(config, Merged(Fresh, s).responses)
  {
    var config := [TestConfig("aq", 4)];
    var s := Snapshot(FormatVersion, "", None, Some(map["aq" := map["aq_12" := 7]]), None, None);
    var r := Merged(Fresh, s).responses;
    assert "aq" in r && "aq_12" in r["aq"] && r["aq"]["aq_12"] == 7;
  }
}
