# Canvas → Trello sync: a Dafny model of its bookkeeping and safe-wipe logic

The program copies upcoming Canvas assignments and calendar events onto a Trello
board. It keeps a JSON state file that maps Canvas items to the Trello cards and
lists it created. With `--wipe-board` it removes what it created, but it must
never touch content a person changed. This project models the parts of that
program that decide something without the network:

- **State file** (`state.py`, module `State` in `state.dfy`). Covers the five
  sections, the schema migration applied on load (default-filling of card
  records, rewriting of legacy `assignment_to_card` entries), and the object
  `save` writes.
- **Safe wipe** (`TrelloClient.wipe_managed`, module `Wipe` in `wipe.dfy`).
  Decides which open cards and which lists are archived. Locked, finished,
  manual, moved and hand-edited cards are spared, and so are protected lists
  and lists that still hold cards.
- **Wipe branch of the command line** (`run_one` in `cli.py`, module `Cli` in
  `cli.dfy`). Covers the confirmation gate, the managed-card list built from
  the state, the list filter, and the pruning of the state after the wipe. The
  same module holds the poll-interval arithmetic and the suggested term id.
- **Board helpers** (`trello.py`, module `Trello` in `trello.dfy`).
  Lookup-first `ensure_list` and `ensure_label`, the palette colour of a new
  label, the label map of a board, and the shortlink of a board URL.
- **Canvas item shaping** (`canvas.py`, module `Canvas` in `canvas.dfy`). Covers
  the item key, the checksum input, the date window, the submission rule,
  `upcoming_items`, and the `Link`-header walk of paginated requests.
- **Log redaction** (`logging_utils.py`, module `Redact` in `redact.dfy`).
  Credential headers and chosen query parameters are masked.

Shared modules:

- `Py` (`py.dfy`) models the Python built-ins the code leans on:
  - JSON values and their truthiness;
  - `dict.get`;
  - `str()`;
  - `int()` on a digit string;
  - truncation toward zero.
- `Text` (`text.dfy`) models `str.strip`, `replace("\r\n", "\n")`, `lower`,
  `split`/`join` and `find`.
- `Index` (`index.dfy`) is the "last entry wins, blank keys skipped" dict
  loop. The label map and the wipe's eligible-card index both use it.
- `Json` (`json.dfy`) models the key order `json.dumps(..., sort_keys=True)`
  writes.
- `Wrappers` (`wrappers.dfy`) provides `Option` and `Result`.

Everything the program asks of a server is an input or an output here:

- the open cards and full cards of the board;
- the Canvas lists and pages;
- the id a create request returns;
- the ISO-8601 parser (`parse`, giving microseconds since the epoch, or none);
- the first digest byte of SHA-256 (`firstByte`);
- the digest of the serialised payload (`digest`).

Instants are integer microseconds, so the `int(timestamp())` whole-second
comparison is written out as truncation toward zero. A Python exception on a
badly shaped value is a `Failure` of a `Result`.

Two behaviours of the code are easy to misread, and the model follows the code:

- The comment at `state.py:61` shows a legacy key as
  `{course_id}:{assignment_id}`. The code needs only a colon; the two halves
  need not be integers.
- The `Link`-header scan moves past a `rel="next"` part whose `<...>` is
  malformed and keeps looking in the later parts.

One consequence of the pruning is worth knowing. Once a course's list is
archived, the course leaves `course_to_list`
(`Cli.ArchivedCourseListForgetsOrigin`). A second wipe run before any sync
then gives the course-info card a blank origin, which makes that card
archivable from any list. `Cli.SecondWipeArchivesMovedCourseInfoCard` builds
such a case: the first wipe spares a course-info card that was moved to
another list, and the second wipe archives it. In the program a sync normally
runs right after the wipe and records a new list for the course, which closes
the gap. A sync that raises does not close it, and the next poll wipes again.

## Model

| member | source | states |
|---|---|---|
| `State.Empty` | canvas_trello_sync/state.py:22-30 | all five sections are empty maps |
| `State.Section` | canvas_trello_sync/state.py:34-37 | a missing or null section reads as an empty map, an object passes through, any other truthy value is refused |
| `State.FillDefaults` | canvas_trello_sync/state.py:42-51 | a record object gains exactly the missing defaulted sub-fields with their defaults and keeps every value it had; non-objects are untouched |
| `State.FillDefaultsCurrent` | canvas_trello_sync/state.py:45-51 | default-filling changes nothing in a record that already has every sub-field |
| `State.LegacyRecord` | canvas_trello_sync/state.py:72-82 | a rewritten legacy record is an object carrying every current sub-field |
| `State.LegacyKeyInjective` | canvas_trello_sync/state.py:71 | distinct legacy keys get distinct current keys |
| `State.MigrateLegacy` | canvas_trello_sync/state.py:62-82 | the rewritten keys are exactly `assignment:` plus each object-valued legacy key holding a colon, each mapped to its rewritten record |
| `State.MigrateParts` | canvas_trello_sync/state.py:33-90 | migration succeeds exactly when every section and the item rewrite succeed, and assembles the state from them |
| `State.Saved` | canvas_trello_sync/state.py:104-111 | the saved object holds exactly the five section keys |
| `State.MigrateSections` | canvas_trello_sync/state.py:34-37 | each of the four plain sections is empty when missing or null and equal to the file's object otherwise |
| `State.MigrateFillsDefaults` | canvas_trello_sync/state.py:39-58 | a non-empty `item_to_card` keeps its keys, every record becomes current, present sub-field values are kept and non-object entries are untouched |
| `State.LegacyIgnoredWhenCurrent` | canvas_trello_sync/state.py:39-58 | with a non-empty `item_to_card`, the value of `assignment_to_card` does not affect the migration |
| `State.LegacyRecordFields` | canvas_trello_sync/state.py:71-82 | a legacy record is active, unlocked, with blank origin, last-seen and rendered fields, and `card_id`/`checksum` passed through `str` |
| `State.MigrateLegacyEntries` | canvas_trello_sync/state.py:62-90 | on the legacy path the items are exactly the rewritten object entries whose key has a colon; all other entries are dropped |
| `State.MigrateFailsOnlyOnShape` | canvas_trello_sync/state.py:64-70 | badly shaped legacy entries never make the migration fail |
| `State.LegacyExample` | canvas_trello_sync/state.py:60-82 | `"101:555"` with `card_id` "c1" becomes the full record at `"assignment:101:555"` |
| `State.SavedSections` | canvas_trello_sync/state.py:104-111 | each of the four mapping sections of the saved object reads back as the state's mapping |
| `State.SavedItems` | canvas_trello_sync/state.py:104-111 | the saved item mapping of a current-schema state reads back unchanged |
| `State.SaveLoadRoundTrip` | canvas_trello_sync/state.py:104-111 | loading the saved object of a current-schema state gives that state back |
| `State.MigrateIdempotent` | canvas_trello_sync/state.py:33-58 | a migrated state is current, and saving and loading it again changes nothing |
| `Index.LastWinsKeys` | canvas_trello_sync/trello.py:198-205 | the dict's keys are exactly the non-blank keys of the entries |
| `Index.LastWinsValue` | canvas_trello_sync/trello.py:198-205 | the value under a key is that of the last entry carrying it |
| `Index.LastWinsFrom` | canvas_trello_sync/trello.py:119-124 | every stored value comes from the last entry carrying its key |
| `Trello.EnsureList` | canvas_trello_sync/trello.py:275-281 | a known name returns its id with no request and no change; otherwise the new id is recorded in both indexes and returned |
| `Trello.EnsureListIdempotent` | canvas_trello_sync/trello.py:275-281 | a second call for the same name creates nothing and returns the first call's id |
| `Trello.BoardLabels` | canvas_trello_sync/trello.py:115-124 | every label with a non-blank stripped name is filed under that name, and each entry is the last label of that name |
| `Trello.BoardLabelsLastWins` | canvas_trello_sync/trello.py:120-123 | the entry for a name is the id and colour of the last label carrying it |
| `Trello.PickLabelColor` | canvas_trello_sync/trello.py:127-130 | the chosen colour is one of the ten palette colours |
| `Trello.PaletteDistinct` | canvas_trello_sync/trello.py:128 | the palette holds ten distinct colours |
| `Trello.EnsureLabel` | canvas_trello_sync/trello.py:140-154 | an existing label keeps its id and gets an update, sent to that label's id with the requested colour, exactly when a non-blank requested colour differs; a new label uses the requested colour or else the palette colour; other labels are unchanged |
| `Trello.EnsureLabelIdempotent` | canvas_trello_sync/trello.py:140-154 | repeating the call with the same colour issues no request and returns the same id |
| `Trello.IndexOf` | canvas_trello_sync/trello.py:93 | finds the first part equal to the target, or none when absent |
| `Trello.IndexOfFirst` | canvas_trello_sync/trello.py:93 | the first occurrence is the one found |
| `Trello.ShortlinkOf` | canvas_trello_sync/trello.py:90-100 | succeeds exactly when a non-blank part follows the first "b" part, and the result is then that next part stripped; it is non-empty and slash-free |
| `Trello.ShortlinkAtFirstB` | canvas_trello_sync/trello.py:93 | a shortlink position is always the first "b" part |
| `Trello.BoardShortlink` | canvas_trello_sync/trello.py:89-100 | succeeds exactly when a non-blank path segment follows the first "b" segment, and the result is then that segment stripped; it is non-empty and slash-free |
| `Trello.ShortlinkOfBoardUrl` | canvas_trello_sync/trello.py:89-98 | a URL `…/b/<shortlink>/…` yields its shortlink |
| `Wipe.ParseDue` | canvas_trello_sync/trello.py:234-240 | blank text has no instant; other text has the parser's result |
| `Wipe.CollectIds` | canvas_trello_sync/trello.py:195-196 | computes `{str(x) for x in xs if x}` |
| `Wipe.BuildIndex` | canvas_trello_sync/trello.py:198-205 | computes the eligible-card index |
| `Wipe.CardPass` | canvas_trello_sync/trello.py:207-254 | archives, in board order, exactly the open cards that pass every test |
| `Wipe.ListPass` | canvas_trello_sync/trello.py:259-271 | archives exactly the candidate lists holding no remaining open card |
| `Wipe.WipeManaged` | canvas_trello_sync/trello.py:187-273 | archived cards and lists are the decisions of the card and list passes; the second listing happens only when some list is a candidate |
| `Wipe.ArchivedCardsExactly` | canvas_trello_sync/trello.py:207-254 | an id is archived exactly when some open card with that id passes every test |
| `Wipe.UnmanagedNeverArchived` | canvas_trello_sync/trello.py:198-211 | a card with no dict record carrying its id, and the blank id, are never archived |
| `Wipe.DecidingRecord` | canvas_trello_sync/trello.py:198-205 | the last record for a card id is the one the index holds |
| `Wipe.LockedOrFinishedNeverArchived` | canvas_trello_sync/trello.py:213-215 | a card whose deciding record is locked, done or manual is never archived |
| `Wipe.MovedNeverArchived` | canvas_trello_sync/trello.py:217-220 | a card outside the non-blank origin list of its deciding record is never archived |
| `Wipe.EditedNeverArchived` | canvas_trello_sync/trello.py:222-251 | a card with a rendered snapshot is never archived when it cannot be fetched or its normalised name, description or due differ |
| `Wipe.UntouchedCardArchived` | canvas_trello_sync/trello.py:207-254 | an open card whose deciding record passes every test is archived |
| `Wipe.ArchivedListsSafe` | canvas_trello_sync/trello.py:256-271 | a list is archived exactly when it is managed, not protected and holds no remaining open card |
| `Wipe.DueOkMeaning` | canvas_trello_sync/trello.py:242-246 | due dates match exactly when both are absent or unparseable, or both parse to the same whole second; the guard changes nothing |
| `Wipe.SameSecondMatches` | canvas_trello_sync/trello.py:246 | for instants after the epoch, the match is equality of whole seconds |
| `Wipe.NormIgnoresLineEndings` | canvas_trello_sync/trello.py:231-232 | text sent back with CR LF line endings normalises like the original |
| `Wipe.NormOfTrimmed` | canvas_trello_sync/trello.py:231-232 | trimmed text without CR is its own normal form |
| `Cli.IntervalSeconds` | canvas_trello_sync/cli.py:130 | the interval is at least 60 seconds and at least the configured minutes, and equals one of the two |
| `Cli.SleepSeconds` | canvas_trello_sync/cli.py:241-242 | the sleep is at least one second and at least the interval minus the whole seconds elapsed, and equals one of the two |
| `Cli.NextRunOnSchedule` | canvas_trello_sync/cli.py:241-242 | after a run shorter than the interval, the next run starts on schedule, at most a second late |
| `Cli.OverrunSleepsOneSecond` | canvas_trello_sync/cli.py:242 | a run as long as the interval or longer is followed by a one-second sleep |
| `Cli.ClockStepBackSleepsFullInterval` | canvas_trello_sync/cli.py:241-242 | a negative elapsed time truncates toward zero, so the sleep is at least the interval |
| `Cli.MaxPresent` | canvas_trello_sync/cli.py:116 | the maximum of the present values, or none exactly when no value is present |
| `Cli.SuggestedTermId` | canvas_trello_sync/cli.py:111-116 | none exactly when no course has a digit-only term id; otherwise the maximum of those ids |
| `Cli.TermIdOfInteger` | canvas_trello_sync/cli.py:112-114 | a non-negative integer term id counts with its own value |
| `Cli.NegativeTermIdSkipped` | canvas_trello_sync/cli.py:114 | a negative term id is skipped |
| `Cli.ItemRecords` | canvas_trello_sync/cli.py:141 | the item records in the list are exactly the dict values with a truthy `card_id` |
| `Cli.Synthetic` | canvas_trello_sync/cli.py:144-146 | a synthesised record reads back as an active, unlocked record with the given origin and no snapshot |
| `Cli.CourseInfoRecords` | canvas_trello_sync/cli.py:142-146 | one synthesised record per course-info card, with that course's list as origin |
| `Cli.TokenRecords` | canvas_trello_sync/cli.py:147-162 | token and last-sync records appear exactly when their ids are set, with the token list as origin; the last-sync record comes last |
| `Cli.ManagedCards` | canvas_trello_sync/cli.py:141-162 | the list holds the item, course-info and token records and nothing else |
| `Cli.EligibleCardIds` | canvas_trello_sync/cli.py:141-162 | the cards the wipe may archive are exactly the card ids of dict item records, course-info cards and the token and last-sync cards |
| `Cli.LastSyncCardArchived` | canvas_trello_sync/cli.py:154-162 | the last-sync card is archived exactly when it is open in the token list, or anywhere when no token list is recorded |
| `Cli.ProtectedIds` | canvas_trello_sync/cli.py:164-165 | protected ids are the meta list, or empty when the meta value is not a list |
| `Cli.ManagedLists` | canvas_trello_sync/cli.py:166-170 | the managed list ids are exactly the flagged ids not listed as protected |
| `Cli.CandidateLists` | canvas_trello_sync/cli.py:164-183 | the lists the wipe considers are the flagged, non-blank ids whose string form is not protected |
| `Cli.Prune` | canvas_trello_sync/cli.py:185-198 | entries pointing at archived lists or cards are removed, all others kept unchanged; `meta` is untouched; an unhashable list id or a non-dict record is an error |
| `Cli.PruneNothingArchived` | canvas_trello_sync/cli.py:185-197 | with nothing archived, pruning changes nothing |
| `Cli.PruneIdempotent` | canvas_trello_sync/cli.py:185-197 | pruning twice with the same ids is pruning once |
| `Cli.PrunedStateReloads` | canvas_trello_sync/cli.py:185-199 | a pruned current-schema state saves and loads back unchanged |
| `Cli.ArchivedCourseListForgetsOrigin` | canvas_trello_sync/cli.py:187 | once its list is archived, a course's info card has a blank origin |
| `Cli.SecondWipeArchivesMovedCourseInfoCard` | canvas_trello_sync/cli.py:142-197 | with no sync between two wipes, a moved course-info card the first wipe spares is archived by the second |
| `Cli.OnlyCourseInfoCardArchived` | canvas_trello_sync/cli.py:142-146 | a lone course-info card is archived exactly when its course's list is blank or is the list the card is in |
| `Cli.PruneForgetsCourse` | canvas_trello_sync/cli.py:185-189 | archiving a course's list drops the course and the list from the state and keeps its info card |
| `Cli.OnlyListArchived` | canvas_trello_sync/cli.py:164-183 | a flagged list with no card left in it is archived |
| `Cli.WipeBoard` | canvas_trello_sync/cli.py:134-199 | a confirmation other than the board id fails before the state is read; an unreadable state fails; otherwise the archive requests are the wipe's card and list decisions on the loaded state, and the saved state is that state pruned of them, or, when pruning raises, the requests are reported with the error and nothing is saved; archived cards are managed and archived lists are flagged, unprotected and empty; `meta` is kept |
| `Cli.WipeArchivesExactly` | canvas_trello_sync/cli.py:134-199 | a card is archived exactly when the confirmation matches, the state loads, and the card is open and passes every test against its deciding record (unlocked, active, in its origin list, unedited), whether or not pruning then succeeds |
| `Cli.WipeArchivesListsExactly` | canvas_trello_sync/cli.py:134-199 | a list is archived exactly when the confirmation matches, the state loads, and the list is flagged, non-blank, unprotected and empty after the card pass |
| `Cli.WipeForgetsArchived` | canvas_trello_sync/cli.py:185-199 | the state a wipe saves keeps exactly the entries that name no archived card or list |
| `Cli.ArchivedAreEligible` | canvas_trello_sync/trello.py:207-211 | every archived id is non-blank and in the eligible index |
| `Cli.ArchivedListsFlagged` | canvas_trello_sync/cli.py:166-183 | every archived list is flagged in the state, not protected and empty |
| `Cli.WipeSavedStateReloads` | canvas_trello_sync/cli.py:185-199 | the file a wipe saves loads back as the pruned state |
| `Canvas.Key` | canvas_trello_sync/canvas.py:73-75 | the key splits at ':' into the type name and the two decimal ids |
| `Canvas.KeyRoundTrip` | canvas_trello_sync/canvas.py:73-75 | every key reads back as the triple it was made from |
| `Canvas.KeyInjective` | canvas_trello_sync/canvas.py:73-75 | distinct (type, course, item) triples give distinct keys |
| `Canvas.ChecksumOrderInsensitive` | canvas_trello_sync/canvas.py:35-37 | the checksum depends on the payload's members, not on their insertion order |
| `Canvas.PayloadOf` | canvas_trello_sync/canvas.py:182-191 | the payload pairs each named field, in order, with the object's value for it (null when missing) |
| `Canvas.ChecksumIgnoresSubmission` | canvas_trello_sync/canvas.py:182-191 | changing the submission alone leaves the assignment checksum unchanged |
| `Canvas.WithinWindow` | canvas_trello_sync/canvas.py:25-32 | false for an absent date, `start <= t <= end` inclusive for a parsed one, an error for one that does not parse |
| `Canvas.PaddedStateCounts` | canvas_trello_sync/canvas.py:177-180 | the workflow state is compared trimmed and lowercased |
| `Canvas.UnsubmittedState` | canvas_trello_sync/canvas.py:176-180 | without submission or grading times, only "submitted" and "graded" count |
| `Canvas.ItemId` | canvas_trello_sync/canvas.py:213 | an integer id is kept; a string id is accepted exactly when it spells an integer |
| `Canvas.ItemOf` | canvas_trello_sync/canvas.py:171-254 | an unparseable date is an error; an out-of-window or absent date gives no item; an in-window object gives an item exactly when its id is an integer (and, for an assignment, its submission is a dict or falsy), and the item carries that id, the parsed date, the title or "Untitled assignment"/"Untitled event", the URL or "", the checksum of its payload, and the submission state and flag |
| `Canvas.ItemsOf` | canvas_trello_sync/canvas.py:171-254 | as many items as objects in the window, each dated in it and of its course |
| `Canvas.ItemsOfSucceeds` | canvas_trello_sync/canvas.py:171-254 | the loop succeeds exactly when no object makes it fail |
| `Canvas.ItemsOfCorrespond` | canvas_trello_sync/canvas.py:171-254 | the loop succeeds exactly when every object is shaped without error; then each in-window object's item is in the result and every result item is the item of some object |
| `Canvas.ItemsOfSingle` | canvas_trello_sync/canvas.py:171-254 | a single object gives its item, nothing when it is skipped, or its error |
| `Canvas.ItemsOfAppend` | canvas_trello_sync/canvas.py:171-254 | shaping two pages one after the other gives the first page's items followed by the second's, or the first error met |
| `Canvas.UpcomingItems` | canvas_trello_sync/canvas.py:165-256 | the in-window assignments and then the in-window events, each dated in the window and of its course |
| `Canvas.UpcomingItemsJoin` | canvas_trello_sync/canvas.py:165-256 | the assignments' error first, then the events' error, else the assignment items followed by the event items |
| `Canvas.UpcomingItemsSucceed` | canvas_trello_sync/canvas.py:165-256 | the call succeeds exactly when every assignment and every event is shaped without error |
| `Canvas.UpcomingItemsFromObjects` | canvas_trello_sync/canvas.py:165-256 | on success, the items are exactly the items of the given assignments and events |
| `Canvas.UntitledEvent` | canvas_trello_sync/canvas.py:248-250 | an untitled event is titled "Untitled event" and a missing URL is "" |
| `Canvas.CollectSucceeds` | canvas_trello_sync/canvas.py:171-254 | a shaping loop succeeds exactly when every element is shaped without error |
| `Canvas.CollectSingle` | canvas_trello_sync/canvas.py:171-254 | the loop over one element yields its item, nothing, or its error |
| `Canvas.CollectMembers` | canvas_trello_sync/canvas.py:171-254 | the loop's result holds exactly the items the elements produce |
| `Canvas.CollectAppend` | canvas_trello_sync/canvas.py:171-254 | the loop over two sequences in turn is the loop over their concatenation |
| `Canvas.CollectCount` | canvas_trello_sync/canvas.py:171-254 | the loop yields one item per element that produces one |
| `Canvas.CollectAll` | canvas_trello_sync/canvas.py:171-254 | a property of every produced item holds of every result item |
| `Canvas.UntitledAssignment` | canvas_trello_sync/canvas.py:214-216 | an untitled assignment is titled "Untitled assignment" and a missing URL is "" |
| `Canvas.AssignmentItemChecksum` | canvas_trello_sync/canvas.py:171-217 | an assignment is an item exactly when its due date lies in the window, and the item carries the assignment checksum |
| `Canvas.ItemChecksumIgnoresSubmission` | canvas_trello_sync/canvas.py:176-217 | an assignment whose submission changes keeps its checksum |
| `Canvas.NextLink` | canvas_trello_sync/canvas.py:110-122 | a next URL is non-empty and holds no ',' or '>' |
| `Canvas.NextLinkOfHeader` | canvas_trello_sync/canvas.py:110-122 | `<url>; rel="next"` yields `url` |
| `Canvas.PartTarget` | canvas_trello_sync/canvas.py:116-120 | a part's target is non-empty and holds no ',' or '>' |
| `Canvas.PartTargetOfTrimmed` | canvas_trello_sync/canvas.py:116-120 | a trimmed `rel="next"` part with a non-empty `<...>` yields the text between the first `<` and the first `>` |
| `Canvas.NextInPartsHead` | canvas_trello_sync/canvas.py:114-120 | the first part with a well-formed `rel="next"` target decides; a part without one is passed over |
| `Canvas.NextLinkSkipsOtherParts` | canvas_trello_sync/canvas.py:113-120 | parts without `rel="next"` are passed over |
| `Canvas.WalkFuelMonotone` | canvas_trello_sync/canvas.py:105-123 | a walk that completes gives the same pages with more fuel |
| `Canvas.PagesFuelMonotone` | canvas_trello_sync/canvas.py:100-125 | the request bound only cuts off; it never changes a completed result |
| `Canvas.SinglePage` | canvas_trello_sync/canvas.py:105-123 | a first page without a next link is the whole result |
| `Canvas.PagesInOrder` | canvas_trello_sync/canvas.py:105-123 | the first page's items come first, then those reached from its next link |
| `Canvas.WalkLoop` | canvas_trello_sync/canvas.py:105-123 | the loop collects exactly the pages of the walk, or reports that the bound was reached |
| `Canvas.GetPaginated` | canvas_trello_sync/canvas.py:100-125 | the pages reached by following `rel="next"` links, in request order |
| `Json.InsertMultiset` | canvas_trello_sync/canvas.py:36 | inserting adds exactly the new member and loses none |
| `Json.InsertAscending` | canvas_trello_sync/canvas.py:36 | inserting a member with a new key keeps the members ascending by key |
| `Json.SortByKey` | canvas_trello_sync/canvas.py:36 | the members are a permutation of the input, ascending by key |
| `Json.AscendingUnique` | canvas_trello_sync/canvas.py:36 | two ascending arrangements of the same members are equal |
| `Json.SerializedOrderInsensitive` | canvas_trello_sync/canvas.py:36 | the serialised order depends only on which members the dict holds |
| `Redact.SafeHeaders` | canvas_trello_sync/logging_utils.py:24-32 | every header key is kept; credential headers, matched case-insensitively, are masked and the others keep their values |
| `Redact.CredentialHeaderAnyCase` | canvas_trello_sync/logging_utils.py:27-28 | a header is masked exactly when its name spells "authorization" or "cookie" letter by letter in either ASCII case (or with the Kelvin sign for "k") |
| `Redact.LowerIsWord` | canvas_trello_sync/logging_utils.py:27 | a name lowercases to a lower-case word exactly when it spells that word ignoring case |
| `Redact.SafeHeadersIdempotent` | canvas_trello_sync/logging_utils.py:24-32 | masking twice is masking once |
| `Redact.SanitizeQuery` | canvas_trello_sync/logging_utils.py:14-19 | pairs keep their count, order and keys; values of redacted keys are masked, the others are kept |
| `Redact.SanitizeQueryNothingToRedact` | canvas_trello_sync/logging_utils.py:12-19 | with no keys to redact, the query is unchanged |
| `Redact.SanitizeQueryIdempotent` | canvas_trello_sync/logging_utils.py:14-19 | sanitising twice is sanitising once |
| `Redact.SanitizeUrl` | canvas_trello_sync/logging_utils.py:11-21 | scheme, netloc, path and fragment pass through; only the query is sanitised |
| `Redact.SanitizeUrlNoKeys` | canvas_trello_sync/logging_utils.py:12 | with no redact keys the URL is unchanged |
| `Py.IntToStringRoundTrip` | canvas_trello_sync/canvas.py:75 | the decimal spelling of an integer reads back as that integer |
| `Py.TextField` | canvas_trello_sync/trello.py:202 | `str(v or "")` is blank exactly when `v` is falsy, and is the text itself for a string |
| `Py.TruncDiv` | canvas_trello_sync/cli.py:242 | the quotient truncates toward zero |
| `Text.StripIdempotent` | canvas_trello_sync/trello.py:98 | stripping twice is stripping once |
| `Text.StripPadded` | canvas_trello_sync/canvas.py:177 | padding trimmed text with whitespace does not change its stripped form |
| `Text.CrlfToLfUndoesLfToCrlf` | canvas_trello_sync/trello.py:232 | replacing CR LF by LF undoes turning LF into CR LF |
| `Text.SplitJoin` | canvas_trello_sync/trello.py:90 | splitting joined separator-free parts gives the parts back |

## Left out

- HTTP. This covers every request, the error-to-exit mapping, and the
  archive, create and update calls. Responses are inputs and requests are
  output values. An archive request that fails mid-wipe is not modelled; the
  wipe's requests are taken to succeed.
- The second open-card listing of `wipe_managed`. It is the input
  `remaining`; the model does not tie it to the first listing minus the
  archived cards.
- SHA-256 and the JSON text encoding. They are the parameters `firstByte` and
  `digest`. Only the member order `sort_keys=True` gives is modelled.
- Date parsing (`dateutil.isoparse`, `datetime.fromisoformat`, time zones) and
  `iso_utc`. The parser is the parameter `parse`, and an item's date is the
  parsed instant rather than its re-formatted text.
- `html_to_text` and the description fields of item details. Only the
  submission state and flag are kept in `Details`. A truthy `description`
  that is not a string makes `html_to_text` raise (`canvas.py:41`); the model
  still gives an item for such an object.
- File I/O in `SyncState.load` and `save`. `Load` takes the parsed contents,
  and `Saved` is the object written.
- `config.py`, logging setup, `instrument_session`, the `--list-courses`
  logging, and the `while True` poll loop itself. Only its sleep arithmetic is
  modelled.
- `sync_once`, which runs after the wipe. syncer.py is not part of this model.
- Wipe idempotence. A second wipe with no sync in between can archive a
  course-info card the first one spared (`Cli.SecondWipeArchivesMovedCourseInfoCard`),
  so the model does not promise that a second wipe archives nothing. Proving
  that it does once a sync has run would need `sync_once`.
- `get_board_lists`. It is a plain HTTP read into the `BoardLists` datatype.
- `urlsplit`, `parse_qsl`, `urlencode` and `urlunsplit`. The URL comes already
  split, with its query decoded into pairs.
- Dict iteration order. The key orders of the state's dicts are inputs
  (`Cli.Orders`), since a Dafny map has no order. That order decides which of
  two records with the same card id wins.
- The `Py.Value` data model has three limits:
  - there are no floats;
  - `str()` of a list or dict is a fixed marker, not Python's repr;
  - `isdigit` and `int()` accept ASCII digits only.
- `Canvas.ItemId`: does not accept what Python's `int()` also accepts in a
  string (surrounding whitespace, a leading '+', underscores). Such ids are an
  error in the model.
- `State.Section`: a truthy section that is not an object is refused at load.
  The program keeps it and fails later, when the section is first used.
- `Text.Lower`: lowercases ASCII letters and the Kelvin sign only, not all of
  Unicode.
- `Canvas.GetPaginated`: takes a bound on the number of requests. A walk that
  would need more requests reports itself incomplete, and an endless chain of
  next links is not modelled.
- Canvas objects (courses, assignments, events) are assumed to be dicts, as
  the program assumes.
