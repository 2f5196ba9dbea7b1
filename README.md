# Session state of the neurodivergence screening tool

This project models the session-state layer of the screening questionnaire app
(`App` in app.js), lifted out of React into an explicit store. It states
properties of that layer and proves them in Dafny.

The store holds four fields:

- the user **profile**, absent until onboarding is complete;
- the **responses**, instrument id → item id → chosen scale index;
- the per-item **notes**, item id → text;
- the per-section **notes**, section key → text.

Around the store sit pure derivations over the read-only instrument catalog:

- per-instrument and overall completion percentages;
- the answered/total counter of a section;
- the partition of an instrument's items into named sections;
- the age shown in the header.

The catalog itself is not part of app.js. It is a parameter here, in the shape
app.js reads it:

- `TEST_CONFIG` becomes a `seq<TestConfig>`, each entry an id and a scale length;
- `QUESTIONS` becomes a `map<string, seq<Item>>`, each item an id plus an
  optional `group` and an optional `part`.

Modules, in dependency order:

- `Wrappers` (wrappers.dfy): `Option`.
- `Catalog` (catalog.dfy): items, instruments, the section name of an item,
  and the lookups that app.js does on the catalog.
- `Session` (session.dfy): the state value and one pure transition per
  handler. It also holds the export record, the import merge and the four
  persisted entries, with their laws.
- `Progress` (progress.dfy): `calculateProgress`, `overallProgress` (a method
  with the source's accumulating loop) and the section counter.
- `Grouping` (grouping.dfy): `groupedQuestions`, as a method that builds the
  group dictionary in one scan the way the source does. It is proved equal to
  a reference definition, and partition and order lemmas are proved about
  that definition.
- `Age` (age.dfy): `calculateAge`, as a method with the source's decrement.
- `Store` (store.dfy): class `SessionStore`, whose fields are the four pieces
  of state. Each handler is a method whose new state is the matching
  `Session` transition of the old state.

Modelling choices:

- The active instrument is a parameter of `Update`, `Clear` and
  `GroupedQuestions`, not a store field.
- The import's parsed file is a `Parsed` value: `Unparsable` when
  `JSON.parse` threw, `NullDocument` when the file held `null`, and
  `Document(snapshot)` otherwise. The answer to the confirmation prompt is a
  `bool`. A `null` file still gets the prompt; declining it shows nothing,
  and confirming it throws at `data.profile`, which shows "Invalid file" and
  changes nothing.
- The export timestamp and today's date are inputs.
- `Math.round(answered / total * 100)` is modelled on the exact ratio, in
  integers, as `(200a + t) / (2t)`: the nearest integer, with halves rounded
  up. app.js computes the ratio in double-precision floating point, which can
  land just below an exact half (23 of 40 gives 57.49999999999999 there, so
  app.js shows 57 where the model gives 58). "## Left out" lists the members
  this affects.
- app.js validates less than a reader might expect, and the model keeps that:
  - `handleUpdate` does not range-check the value. Only its caller keeps it
    in range (`AnswerIsNotRangeChecked`, `AnswerFromScaleKeepsValid`).
  - `handleOnboardingComplete` does not validate the profile. Only the
    form's `required` attributes do.
  - `handleImport` checks nothing beyond a successful parse
    (`ImportIsNotValidated`).
  - A corrupt saved entry is not tolerated at start-up, because the
    `JSON.parse` in the state initialisers would throw. The model only
    covers missing entries.
- An empty note is kept as a stored value. It is not treated as "no note".
- A percentage of 100 matches "every item answered" only for instruments
  with fewer than 200 items. With 200 items or more, one unanswered item
  still rounds to 100 (`RoundsUpToFull`). `PercentFullIffAll` and
  `ProgressComplete` state exactly when the two coincide.

## Model

| member | source | states |
|---|---|---|
| Catalog.GroupName | app.js:459 | the section name of an item is never empty; it is the group when that is a non-empty string, otherwise the part when that is a non-empty string, otherwise "Questions" |
| Catalog.ItemsOf | app.js:426 | the items of an unknown instrument are the empty list; otherwise they are the catalog's list |
| Catalog.FindConfig | app.js:554 | `TEST_CONFIG.find`: no result exactly when no entry has that id; otherwise the result is an entry with that id, and no earlier entry has it |
| Session.AnswersOf | app.js:478 | an instrument with no stored map has no answers; otherwise its answers are the stored map |
| Session.WithProfile | app.js:471-473 | onboarding sets the profile exactly as given, with no validation, and leaves the other three fields alone |
| Session.WithProfileField | app.js:634-638 | an edit sets one profile field, keeps the other two, and touches nothing else |
| Session.WithAnswer | app.js:475-480 | the item's value becomes `value` and the instrument's map is created if missing; every other item, every other instrument and the other three fields are unchanged |
| Session.WithoutAnswer | app.js:495-501 | only that item's key leaves the instrument's map, and an empty map is created if there was none; everything else is unchanged |
| Session.WithNote | app.js:503-505 | one item note is set (empty text included) and every other note is kept |
| Session.WithSectionNote | app.js:507-509 | one section note is set and every other one is kept |
| Session.ExportOf | app.js:516 | the export carries version "3.0", the given date, the profile and all three maps |
| Session.Merged | app.js:535-538 | each of the four fields the snapshot carries replaces the current one whole; each field it lacks is left as it was |
| Session.ImportResult | app.js:532-541 | a parse failure shows "Invalid file" without asking; any parsed file, `null` included, is asked about, and declining changes nothing and shows nothing; a confirmed `null` file shows "Invalid file" and changes nothing; any other confirmed file is merged and shows "Imported!" |
| Session.ImportAllOrNothing | app.js:532-541 | an import that does not show "Imported!" leaves the state unchanged, and one that does has merged a confirmed, non-null document whole |
| Session.ExportImportRoundTrip | app.js:516-538 | exporting and then importing into a fresh store reproduces all four fields; into any store, it reproduces them except a missing profile |
| Session.MergeIdempotent | app.js:535-538 | importing the same snapshot twice gives the same state as importing it once |
| Session.ImportIsNotDeepMerge | app.js:536 | an answer that is missing from the imported map is dropped, not kept |
| Session.Persisted | app.js:445-448 | the auto-save writes each of the four fields to its own entry |
| Session.Restored | app.js:389-404 | at start-up each field comes from its own entry; a missing entry defaults to no profile or an empty map, independently of the others |
| Session.PersistRestoreRoundTrip | app.js:389-448 | what is saved is restored exactly; with nothing saved, the session starts fresh |
| Session.AnswerIdempotent | app.js:475-480 | answering twice with the same arguments equals answering once |
| Session.ClearIdempotent | app.js:495-501 | clearing twice equals clearing once |
| Session.ClearThenRestore | app.js:475-501 | clearing an answered item and answering it again with its old value restores the exact prior state |
| Session.ClearAbsentIsNoOp | app.js:495-501 | clearing an unanswered item of an instrument that has a map changes nothing |
| Session.ClearCreatesEmptyMap | app.js:497-499 | clearing on an instrument with no map adds an empty map for it, so the state does change |
| Session.NoteSurvivesClear | app.js:495-505 | clearing an answer keeps the item's note |
| Session.AnswerFromScaleKeepsValid | app.js:250-253 | answering with an index of the active instrument's scale, the only way the UI calls `handleUpdate`, keeps every stored answer a valid scale index |
| Session.ClearKeepsValid | app.js:495-501 | clearing keeps every stored answer a valid scale index |
| Session.AnswerIsNotRangeChecked | app.js:475-480 | `handleUpdate` itself stores index 7 for a 4-level scale |
| Session.ImportIsNotValidated | app.js:532-538 | an import can replace valid answers with out-of-range ones |
| Progress.RoundedPercent | app.js:428 | the result is the integer nearest to the exact ratio 100·answered/total, with halves rounded up (app.js's floating-point ratio can give one less at a half; see "## Left out") |
| Progress.Percent | app.js:428 | it is 0 for no items; it is at most 100 when answered ≤ total; for 0 < total and answered ≤ total, it is 100 exactly when 200·answered ≥ 199·total |
| Progress.PercentFullIffAll | app.js:428 | for 0 < total < 200, the percentage is 100 exactly when every item is answered |
| Progress.RoundsUpToFull | app.js:428 | 199 of 200 answered already shows 100 |
| Progress.AnsweredCount | app.js:427 | the answered count is the number of keys in the instrument's map, and 0 when it has none |
| Progress.CalculateProgress | app.js:425-429 | for an instrument with items it is the integer nearest to 100·(stored answers)/(items), halves rounded up (exact ratio; see "## Left out"); it is 0 for an instrument without items or without answers, and at most 100 when there are no more answers than items |
| Progress.ProgressBounded | app.js:425-429 | when the stored keys are item ids of the instrument, the progress lies in [0, 100] |
| Progress.ProgressComplete | app.js:425-429 | with stored keys among distinct item ids and 1 to 199 items, the progress is 100 exactly when every item has an answer |
| Progress.OverallProgress | app.js:432-439 | the loop gives one rounded percentage of the summed answers over the summed items of all listed instruments |
| Progress.OverallBounded | app.js:432-439 | if no instrument has more answers than items, the summed answers do not exceed the summed items and the overall figure is at most 100 |
| Progress.OverallOfOne | app.js:425-439 | with one instrument, the overall figure equals that instrument's progress |
| Progress.OverallIsWeighted | app.js:432-439 | 2 of 2 answered plus 0 of 18 gives 10 overall, while the average of the two percentages is 50 |
| Progress.AnswerCount | app.js:475-480 | answering raises the answered count by one exactly when the item was unanswered |
| Progress.ClearCount | app.js:495-501 | clearing lowers the answered count by one exactly when the item was answered |
| Progress.SectionAnswered | app.js:303-305 | a section's answered count, as shown with its item count, is the number of positions in the section whose item has an answer; it is at most the item count, and equals it exactly when every item has an answer |
| Grouping.SectionKey | app.js:465 | the key is the instrument id, then "_", then the group name |
| Grouping.SectionKeyInjective | app.js:465 | within one instrument, equal keys mean equal group names |
| Grouping.GroupNamesDistinctAndComplete | app.js:457-463 | each group name is listed once, and every item's name is listed |
| Grouping.GroupNamesHaveItems | app.js:457-463 | every group name belongs to some item |
| Grouping.MembersOfName | app.js:458-462 | a group holds only items with its name; it is empty exactly when no item has the name |
| Grouping.MembersInOrder | app.js:458-462 | a group's items are the list's items of that name, taken at increasing positions with none skipped, so each keeps its catalog order |
| Grouping.Sections | app.js:463-467 | there is one section per distinct group name |
| Grouping.GroupedQuestions | app.js:454-468 | the result is empty without an active instrument; otherwise the loop-built dictionary gives exactly the reference sections, in key-creation order |
| Grouping.SectionKeysDistinct | app.js:463-467 | no two sections of an instrument share a key |
| Grouping.GroupsInFirstAppearanceOrder | app.js:457-463 | before any item of a later section, an item of every earlier section has appeared |
| Grouping.PartitionOfItems | app.js:457-462 | the groups together hold each item of the list exactly once (equal multisets) |
| Grouping.SectionsCoverItemsOnce | app.js:454-468 | the sections' items together are exactly the instrument's items, each once |
| Grouping.UngroupedItemsShareDefault | app.js:459 | in a list whose items have neither group nor part, there is one "Questions" section holding them all in order |
| Age.CalculateAge | app.js:413-422 | no date of birth gives no age; otherwise the result is the age: that birthday has come, the next has not |
| Age.AgeUnique | app.js:413-422 | at most one age fits a birth date and a current date |
| Age.BirthdayCounts | app.js:418-419 | on the birthday the new age counts, and on the day before it does not |
| Store.SessionStore.Restore | app.js:389-404 | the store starts from the saved entries, with each missing entry defaulted |
| Store.SessionStore.Persist | app.js:442-451 | the four entries saved are the current fields, and restoring them gives the current state back |
| Store.SessionStore.CompleteOnboarding | app.js:471-473 | the new state is `WithProfile` of the old state |
| Store.SessionStore.EditProfile | app.js:634-638 | the new state is `WithProfileField` of the old state |
| Store.SessionStore.Update | app.js:475-480 | the new state is `WithAnswer` of the old state, for the active instrument |
| Store.SessionStore.Clear | app.js:495-501 | the new state is `WithoutAnswer` of the old state, for the active instrument |
| Store.SessionStore.UpdateNote | app.js:503-505 | the new state is `WithNote` of the old state |
| Store.SessionStore.UpdateSectionNote | app.js:507-509 | the new state is `WithSectionNote` of the old state |
| Store.SessionStore.Export | app.js:515-525 | the record is `ExportOf` the current state, the store is unchanged, and importing the record into a fresh store reproduces the state |
| Store.SessionStore.Import | app.js:527-545 | the new state and the outcome are those of `ImportResult`, so a parse failure or a declined prompt changes nothing |
| Store.SessionStore.Reset | app.js:547-552 | once confirmed, the session returns to the first-visit state that a reload with cleared storage gives; otherwise nothing changes |

## Left out

- Rendering is left out: the React/JSX markup (`Toast`, `TestInfoModal`, the
  `OnboardingModal` form, `TestCard`, `QuestionItem`) and the
  `expandedSections` toggles. None of it holds session logic.
- Progress.RoundedPercent: rounds the exact ratio, while app.js rounds the
  double `(answered / total) * 100`. At an exact half that double can fall
  just below .5 (23/40, 46/80, 29/200), so app.js shows one less there.
  Floating-point arithmetic is not modelled.
- Progress.Percent: its rounding bounds describe exact rounding, so at such
  halves app.js's value is one less than the one stated.
- Progress.CalculateProgress: at such halves (23 answered of 40 items, say)
  app.js:428 shows one less than the model's value.
- Progress.OverallProgress: the summed answers and items are exact, but the
  final rounding at app.js:438 can show one less than the model's value
  when the summed ratio is such a half.
- `ProgressRing` geometry is left out. It is floating-point drawing with `Math.PI`.
- The 800 ms debounce of the auto-save and the "Saved" toast are left out,
  because they depend on timers. `Persist` models only what one save writes.
- The file-handling I/O is left out: `FileReader`, `Blob`, object URLs, the
  download anchor and its file name, `window.print` and the `confirm` dialog.
  The no-file-selected early return goes with them. The parsed file and the
  dialog's answer are parameters instead.
- `JSON.parse` and `JSON.stringify` are left out. Snapshots and saved entries
  are typed values, so a file whose fields have the wrong JSON type is not
  representable. A file that parses to a number or a string is imported in
  app.js with no effect. The model covers that case as a snapshot with every
  field absent.
- `new Date(...)` and the ISO timestamp are left out. Dates are
  (year, month, day) triples, and the export date is an input string.
  Parsing an invalid date string is not covered.
- `Age.CalculateAge` does not model a time-zone shift. app.js parses a
  date-only string as UTC but reads local fields, so west of UTC the
  birthday can shift by a day. The model takes the date as already
  local.
- The auto-advance scan after `handleUpdate` is left out. It queries the DOM
  and reads the responses from before the update.
- `Grouping.GroupedQuestions` assumes group names that are not integer-like.
  For integer-like keys, JavaScript's `Object.entries` lists them first, so
  app.js would produce a different order.
- `Grouping.GroupedQuestions` also assumes group names that are not
  `Object.prototype` property names such as "constructor". Such a name would
  make the `groups[groupName]` check in app.js misbehave.
- `Store.SessionStore.Reset` models only the resulting state. Clearing
  `localStorage` and reloading the page are not modelled.
- test_info.js and src/data/testInfo.js are not part of this model. They hold
  only static descriptive text.
- tailwind.config.js is not part of this model. It is styling configuration.
