/**
 * The session store of app.js lifted out of the `App` component: the four
 * state fields that its `useState` hooks hold and the handlers that replace
 * them.  Each handler's new state is the matching pure transition of module
 * Session applied to the old state.
 */
module Store {
  import opened Wrappers
  import opened Catalog
  import opened Session

  class SessionStore {
    var profile: Option<Profile>
    var responses: Responses
    var notes: Notes
    var sectionNotes: Notes

    /** The four fields as one value. */
    function Current(): SessionState
      reads this
    {
      SessionState(profile, responses, notes, sectionNotes)
    }

    /** Start-up: each field read from its own saved entry, or defaulted when that entry is missing. */
    constructor Restore(saved: Saved)
      ensures Current() == Restored(saved)
    {
      var st := Restored(saved);
      profile, responses, notes, sectionNotes := st.profile, st.responses, st.notes, st.sectionNotes;
    }

    /** The auto-save's payload: the four entries written separately. */
    method Persist() returns (saved: Saved)
      ensures saved == Persisted(Current())
      ensures Restored(saved) == Current()
    {
      saved := Saved(Some(profile), Some(responses), Some(notes), Some(sectionNotes));
      PersistRestoreRoundTrip(Current());
    }

    /** `handleOnboardingComplete`. */
    method CompleteOnboarding(data: Profile)
      modifies this
      ensures Current() == WithProfile(old(Current()), data)
    {
      profile := Some(data);
    }

    /** One field of the profile edit dialog. */
    method EditProfile(field: ProfileField, value: string)
      modifies this
      ensures Current() == WithProfileField(old(Current()), field, value)
    {
      profile := Some(Edited(profile.GetOr(Profile("", "", "")), field, value));
    }

    /** `handleUpdate(questionId, value)` while `activeTest` is shown. */
    method Update(activeTest: string, questionId: string, value: int)
      modifies this
      ensures Current() == WithAnswer(old(Current()), activeTest, questionId, value)
    {
      var current := AnswersOf(responses, activeTest);
      responses := responses[activeTest := current[questionId := value]];
    }

    /** `handleClear(questionId)` while `activeTest` is shown. */
    method Clear(activeTest: string, questionId: string)
      modifies this
      ensures Current() == WithoutAnswer(old(Current()), activeTest, questionId)
    {
      var current := AnswersOf(responses, activeTest);
      responses := responses[activeTest := current - {questionId}];
    }

    /** `handleNoteUpdate`. */
    method UpdateNote(questionId: string, text: string)
      modifies this
      ensures Current() == WithNote(old(Current()), questionId, text)
    {
      notes := notes[questionId := text];
    }

    /** `handleSectionNoteUpdate`. */
    method UpdateSectionNote(sectionKey: string, text: string)
      modifies this
      ensures Current() == WithSectionNote(old(Current()), sectionKey, text)
    {
      sectionNotes := sectionNotes[sectionKey := text];
    }

    /** `handleExport`'s record, with the timestamp supplied by the caller; the store is not changed. */
    method Export(date: string) returns (snapshot: Snapshot)
      ensures snapshot == ExportOf(Current(), date)
      ensures Merged(Fresh, snapshot) == Current()
    {
      snapshot := Snapshot(FormatVersion, date, profile, Some(responses), Some(notes), Some(sectionNotes));
      ExportImportRoundTrip(Current(), Fresh, date);
    }

    /**
     * `handleImport` once the file has been read: `parsed` is what `JSON.parse`
     * made of it, `confirmed` is the answer to the replace prompt.
     */
    method Import(parsed: Parsed, confirmed: bool) returns (outcome: ImportOutcome)
      modifies this
      ensures (Current(), outcome) == ImportResult(old(Current()), parsed, confirmed)
    {
      if parsed.Unparsable? {
        return InvalidFile;
      }
      if !confirmed {
        return Declined;
      }
      if parsed.NullDocument? {
        return InvalidFile;
      }
      var data := parsed.snapshot;
      if data.profile.Some? { profile := data.profile; }
      if data.responses.Some? { responses := data.responses.value; }
      if data.notes.Some? { notes := data.notes.value; }
      if data.sectionNotes.Some? { sectionNotes := data.sectionNotes.value; }
      return Imported;
    }

    /** `handleReset`: once confirmed, storage is cleared and the page reloads into a first visit. */
    method Reset(confirmed: bool)
      modifies this
      ensures Current() == if confirmed then Restored(Saved(None, None, None, None)) else old(Current())
      ensures confirmed ==> Current() == Fresh
    {
      if confirmed {
        profile, responses, notes, sectionNotes := None, map[], map[], map[];
      }
    }
  }
}
