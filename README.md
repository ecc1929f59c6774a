# gb2 — a Dafny model of the grounding engine

gb2 is a small household web application in PHP. Parents define **infractions**,
and each infraction carries an escalation ladder of grounding days. Applying one to a
kid raises that kid's strike counter for the infraction. It then locks the kid's
**privileges** (phone, games, other) until a computed expiry, and records an event
that is due for **review** on a later day. On review, a parent may keep the locks,
unlock them, or shorten them. Around this engine sit the parent's privileges page,
the infraction definitions page and its seeding tool, chore rotation, weekly bonuses
and their claims, proof-photo submission and approval, kid and parent sign-in,
device tokens, a small key/value store with a one-step undo, the history and family
pages, branding, and the two browser scripts.

This project models that behaviour in Dafny and proves what it promises:

- Database tables are fields of classes, for example `Privileges.PrivilegeStore.rows`,
  `Infractions.InfractionDb` and `Store.KidTable`.
- Page handlers and library functions that write are methods, with `modifies` frames.
- The calculations (ladder rungs, review days, expiry composition, queue
  selection and order, form normalisation, escaping) are functions.
- The properties the code relies on are lemmas.
- Time is an integer `now` in seconds. Calendar days count from 1970-01-01 (UTC).
- A transaction's failure is a `dbFails` parameter. After a failure, every write made
  inside the transaction is undone.

One module per source area: `Common` (shared datatypes, PHP `trim`, `(int)` casts,
`explode`/`implode`), `Privileges`, `Infractions`, `InfractionReview`, `Grounding`,
`InfractionDefs`, `SeedInfractions`, `LegacyUtils`, `ChoreData`, `Rotation`,
`Bonuses`, `ClaimBonus`, `SubmitProof`, `Approve`, `Setup`, `Tokens`, `Auth`,
`Store`, `Undo`, `History`, `Family`, `Branding`, `AppJs` and `GroundingJs`.

## Model

| member | source | states |
|---|---|---|
| Privileges.RowOf | lib/privileges.php:12-23 | a kid's row is the stored one, or all locks, banks and expiries empty when none is stored |
| Privileges.Ensured | lib/privileges.php:6-10 | the table gains a default row for the kid only when it has none; EnsuredSpec proves it |
| Privileges.EnsuredSpec | lib/privileges.php:6-10 | ensuring a row adds exactly that kid, is idempotent and changes no kid's view |
| Privileges.PrivilegeStore.EnsureRow | lib/privileges.php:6-10 | INSERT OR IGNORE: the table gains a default row for the kid only when it has none |
| Privileges.PrivilegeStore.GetForKid | lib/privileges.php:12-23 | returns the kid's view from before the call, now stored; no expiry is cleared on read (no auto-unlock) |
| Privileges.LocksSet | lib/privileges.php:25-32 | the kid's row takes the three lock flags; SetLocksFrame proves nothing else changes |
| Privileges.SetLocksFrame | lib/privileges.php:25-32 | setting locks changes the kid's three flags only: banks and expiries stay, so a manual unlock leaves a stale expiry; other kids untouched |
| Privileges.PrivilegeStore.SetLocks | lib/privileges.php:25-32 | the table after the call is the lock update of the ensured row |
| Privileges.BanksSet | lib/privileges.php:34-41 | the kid's row takes the three banks; SetBanksFrame proves nothing else changes |
| Privileges.SetBanksFrame | lib/privileges.php:34-41 | setting banks changes the three banks only; locks, expiries and other kids stay |
| Privileges.PrivilegeStore.SetBanks | lib/privileges.php:34-41 | the table after the call is the bank update of the ensured row |
| Privileges.BonusApplied | lib/privileges.php:43-51 | the bonus minutes are added to the kid's phone and games banks; ApplyBonusFrame proves nothing else changes |
| Privileges.ApplyBonusFrame | lib/privileges.php:43-51 | a bonus adds to the phone and games banks; the other bank, locks, expiries and every other kid's row stay |
| Privileges.PrivilegeStore.ApplyBonus | lib/privileges.php:43-51 | the table after the call is the bonus credit on the ensured row |
| Privileges.WithLockUntil | lib/infractions.php:251 | storing an expiry for one category sets its lock flag to whether the expiry is set and changes nothing else |
| Privileges.PrivilegeStore.SetLockUntil | admin/infraction_review.php:57 | stores one category's expiry (NULL unlocks) and returns it; every other row is unchanged |
| Privileges.StackedUntil | lib/infractions.php:185-187 | the add-mode expiry is at least now plus the duration, at least the current expiry plus it, and one of the two |
| Privileges.PrivilegeStore.AddLockMinutes | lib/infractions.php:253 | stacks the minutes on the later of now and the current expiry, locks the category and returns the new expiry |
| Privileges.StackTwice | lib/infractions.php:185-187 | two add-mode applications in a row equal one application of the summed duration |
| Privileges.StackAfterExpiry | lib/infractions.php:185-187 | an expiry already in the past is ignored: stacking starts from now |
| Privileges.Overwritten | lib/infractions.php:245-255 | a row after per-category expiry writes: written categories take their expiry and matching flag, the others and the banks stay |
| Privileges.WritesStep | lib/infractions.php:245-255 | one loop step over a category stores that category's write on top of the earlier ones, and reads the expiry from before the loop |
| Privileges.WritesAppliedSpec | lib/infractions.php:245-255 | after all three categories the kid's row is the overwritten row, and every other kid is unchanged |
| Infractions.EngineMode | lib/infractions.php:169-170 | the mode is `add` exactly when the stored mode is "add"; any other value behaves as `set` |
| Infractions.DecodeBlocks | lib/infractions.php:67-77 | exactly the three category flags: all 0 for a non-array document, otherwise each key's value or 0 when the key is missing |
| Infractions.StrikeCount | lib/infractions.php:27-33 | the stored counter, or 0 when the kid has no row for the definition |
| Infractions.InfractionDb.GetStrikes | lib/infractions.php:27-33 | returns the stored counter, or 0 without a row |
| Infractions.InfractionDb.SetStrikes | lib/infractions.php:35-44 | upsert: the counter for (kid, definition) becomes the given count and no other counter changes |
| Infractions.InfractionDb.ResetStrikeForEvent | lib/infractions.php:46-60 | the counter becomes 0 and one `infraction.strike_reset` audit entry is appended |
| Infractions.LadderIndex | lib/infractions.php:93-94 | the chosen rung index is always inside the ladder |
| Infractions.ComputeDays | lib/infractions.php:84-98 | never negative; the clamped `days` when the ladder has no positive rung, otherwise a positive rung of the ladder |
| Infractions.LadderEscalation | lib/infractions.php:79-98 | strike n takes rung n for n within the ladder, every later strike the last rung, and strike 1 or less the first |
| Infractions.LadderValues | lib/infractions.php:87-91 | the loop keeps exactly the positive ladder entries, in order |
| Infractions.ReviewDays | lib/infractions.php:100-107 | an explicit positive period wins; otherwise half the days rounded up, at least 1; 0 exactly when there is no period and no days |
| Infractions.MakePlan | lib/infractions.php:162-172 | the next strike is one more than the current; days come from the ladder, minutes are days times 1440; mode and blocks are normalised; the review day is today plus the review days, or none when that is 0 |
| Infractions.CatUntil | lib/infractions.php:179-188 | set mode counts from now, add mode stacks on the current expiry; either way at least now plus the duration |
| Infractions.SetModeReplaces | lib/infractions.php:182-183 | a set-mode application shortens a longer lock that is already in place |
| Infractions.PreviewComputed | lib/infractions.php:179-189 | the preview lists exactly the blocked categories, each with its composed expiry |
| Infractions.PreviewLoop | lib/infractions.php:179-189 | the preview loop computes exactly that map |
| Infractions.AppliedComputed | lib/infractions.php:245-255 | apply records exactly the blocked categories when the duration is positive, each with its composed expiry |
| Infractions.ApplyWrites | lib/infractions.php:245-255 | apply writes a category exactly when it is blocked and the duration is positive, with the composed expiry |
| Infractions.AppliedRows | lib/infractions.php:245-255 | the table after apply has written the first categories' expiries; AppliedRowsSpec proves the result of all three |
| Infractions.AppliedRowsSpec | lib/infractions.php:245-255 | after apply every active category is locked until its new expiry; other categories, banks and kids are unchanged |
| Infractions.PreviewMatchesApply | lib/infractions.php:158-201 | preview and apply agree on the expiries when the duration is positive; with zero days apply records none while preview still lists them |
| Infractions.LockOne | lib/infractions.php:249-254 | locks one category with the composed expiry and returns it |
| Infractions.LockBlocked | lib/infractions.php:245-255 | the loop records the applied expiries and leaves the table as the writes apply it |
| Infractions.NormaliseReviewAction | lib/infractions.php:123-126 | the trimmed action when it is `review_only`, `unlock` or `shorten`, otherwise `review_only` |
| Infractions.NormaliseName | lib/infractions.php:123-126 | the whitelist keeps every known action under its own name |
| Infractions.InfractionDb.MarkEventReviewed | lib/infractions.php:113-153 | fills the review columns of an existing event with the normalised action (again, if it was already reviewed); the audit entry is appended either way |
| Infractions.InfractionDb.Preview | lib/infractions.php:158-201 | fails exactly for an unknown definition; otherwise returns the plan and preview expiries; the only write is the default privileges row, and no kid's view changes |
| Infractions.EventOf | lib/infractions.php:258-272 | the event row carries the kid, the definition, the time, the actor, the strike before and after, the days, the mode, the blocks, the computed expiries, the review date and the note, not yet reviewed |
| Infractions.InfractionDb.RecordEvent | lib/infractions.php:258-288 | inserts the event under the next id and appends an `infraction.apply` audit entry |
| Infractions.InfractionDb.ApplyPlan | lib/infractions.php:239-294 | commits the strike, the locks, the event and the audit together, or on failure leaves all of them as they were |
| Infractions.InfractionDb.Apply | lib/infractions.php:211-307 | succeeds exactly for a known definition and no database failure; then the strike is one more, the blocked categories are locked, one event and one audit entry are added; otherwise nothing changes |
| InfractionReview.PageAction | admin/infraction_review.php:28 | the page acts on `unlock` or `shorten` exactly when the trimmed action is that word, and otherwise reviews only |
| InfractionReview.ShortenTarget | admin/infraction_review.php:30 | the target is now plus the kept minutes, negative minutes clamped to 0, so never before now |
| InfractionReview.Shortened | admin/infraction_review.php:69-80 | a current expiry that is set and ends before the target is kept; otherwise the target is stored |
| InfractionReview.ShortenNeverExtends | admin/infraction_review.php:73-77 | the result never exceeds the target, and for a set expiry it is the earlier of the expiry and the target |
| InfractionReview.ShortenCreatesLock | admin/infraction_review.php:69-80 | a blocked category with no expiry gets locked until the target by a shortening |
| InfractionReview.ReviewWrites | admin/infraction_review.php:54-84 | an unlock writes NULL to every blocked category; a shortening writes the target where the lock is not kept; a plain review writes nothing |
| InfractionReview.ResolvedUntil | admin/infraction_review.php:52-81 | the recorded resolution lists the blocked categories of an unlock or shortening, each with what it stored or kept |
| InfractionReview.ResolvedMatchesRows | admin/infraction_review.php:52-84 | every category in the recorded resolution holds that expiry after the review, locked exactly when it has one, except that an expiry a shortening keeps leaves the lock flag as it was; other categories and kids are unchanged |
| InfractionReview.ReviewOnlyKeepsRows | admin/infraction_review.php:82-84 | a plain review leaves the privileges table as it was |
| InfractionReview.UnlockClears | admin/infraction_review.php:54-60 | an unlock clears the flag and the expiry of every blocked category |
| InfractionReview.ResolveCategory | admin/infraction_review.php:55-81 | one pass for one category issues its write, if any, and returns its entry in the resolution |
| InfractionReview.ResolveLoop | admin/infraction_review.php:54-84 | the loop applies all the writes and returns the whole resolution |
| InfractionReview.ResolveLocks | admin/infraction_review.php:54-84 | the privileges table after the review and the recorded resolution, as specified |
| InfractionReview.ResolveFound | admin/infraction_review.php:49-92 | for a found event: the locks are resolved, the strike reset when asked, and the review recorded and audited |
| InfractionReview.Resolve | admin/infraction_review.php:24-100 | fails with "Missing event id." for a non-positive id and with "Review failed: Event not found." when the join misses, changing nothing; otherwise resolves and records the review |
| InfractionReview.ReReviewOverwrites | admin/infraction_review.php:37-47 | an event already reviewed is still found, so it can be reviewed again |
| InfractionReview.QueuesDisjoint | admin/infraction_review.php:110-137 | no event is both due now and upcoming |
| InfractionReview.Selected | admin/infraction_review.php:115-117 | the selection never grows the input |
| InfractionReview.SelectedSpec | admin/infraction_review.php:115-132 | a row is selected exactly when it is an input row that belongs on the list |
| InfractionReview.OnOrBeforeTotal | admin/infraction_review.php:118 | the order by review day ascending, then time descending, relates every pair |
| InfractionReview.ConsSorted | admin/infraction_review.php:118 | a row that may precede every row of a sorted list may head it |
| InfractionReview.InsertSpec | admin/infraction_review.php:118 | inserting keeps the list sorted and adds exactly that row |
| InfractionReview.SortRows | admin/infraction_review.php:118 | the query's order on the selected rows, by insertion; SortRowsSpec proves it sorted and a permutation |
| InfractionReview.SortRowsSpec | admin/infraction_review.php:118 | the ordered list is sorted and a permutation of its input |
| InfractionReview.QueueRows | admin/infraction_review.php:109-137 | a list is the sorted selected rows cut at 200; QueueRowsSpec proves membership, order and the cap |
| InfractionReview.QueueRowsSpec | admin/infraction_review.php:109-137 | each list holds only rows that belong on it, sorted, at most 200, all of them when fewer belong, and no left-out row sorts before the last one shown |
| Grounding.PvRow | admin/grounding.php:16-25 | the stored row, or zero locks and banks when the kid has none |
| Grounding.FormLocks | admin/grounding.php:32-34 | each lock flag is 1 exactly when its box is checked, 0 otherwise |
| Grounding.FormBanks | admin/grounding.php:36-38 | each bank is the posted value, negatives clamped to 0 |
| Grounding.Upserted | admin/grounding.php:40-50 | a new kid gets the form's flags and banks with NULL expiries, an existing kid keeps its expiries; UpsertFrame proves it |
| Grounding.UpsertFrame | admin/grounding.php:40-50 | the upsert sets that kid's six flag and bank columns, keeps its expiries, and touches no other kid |
| Grounding.Save | admin/grounding.php:27-55 | writes only for a positive kid id, and redirects to the saved page either way |
| InfractionDefs.PostInt | admin/infraction_defs.php:14-19 | the posted integer clamped into the bounds: unchanged inside them, the nearer bound outside |
| InfractionDefs.NormMode | admin/infraction_defs.php:25-28 | the mode is `add` exactly when the trimmed, lower-cased input is "add" |
| InfractionDefs.NormModeStable | admin/infraction_defs.php:25-28 | a saved mode reads back unchanged, both by the editor and by the engine |
| InfractionDefs.NormBlocks | admin/infraction_defs.php:30-36 | one flag per category, 1 exactly when its checkbox was posted |
| InfractionDefs.BlocksRoundTrip | admin/infraction_defs.php:79 | the engine decodes exactly the block flags the editor saved |
| InfractionDefs.Casts | admin/infraction_defs.php:44-45 | one cast per part, each the integer cast of the trimmed part |
| InfractionDefs.ParseIntList | admin/infraction_defs.php:38-49 | nothing for a blank input; otherwise the positive casts of the parts between separators, in order |
| InfractionDefs.CastParts | admin/infraction_defs.php:43-47 | the loop keeps exactly the positive casts, in order |
| InfractionDefs.IntString | admin/infraction_defs.php:211 | a printed integer has no list separator in it and starts with a digit or a minus sign |
| InfractionDefs.IntStringCast | admin/infraction_defs.php:211 | a printed integer casts back to itself |
| InfractionDefs.CastsOfIntStrings | admin/infraction_defs.php:211 | every printed rung casts back to itself |
| InfractionDefs.LadderCsv | admin/infraction_defs.php:211 | the rungs as decimal integers joined by commas; LadderCsvRoundTrip proves parsing it back keeps the positive rungs |
| InfractionDefs.LadderCsvRoundTrip | admin/infraction_defs.php:211 | parsing the printed ladder gives back exactly its positive rungs |
| InfractionDefs.LadderCsvTrimmed | admin/infraction_defs.php:211 | a printed ladder that is not empty is non-blank and its own trim |
| InfractionDefs.ReplaceCrlf | admin/infraction_defs.php:52 | the CRLF replacement never lengthens the text |
| InfractionDefs.NonEmptyLines | admin/infraction_defs.php:54-57 | every kept line is non-empty and comes from the input |
| InfractionDefs.NonEmptyLinesSpec | admin/infraction_defs.php:54-57 | every non-empty line is kept, and the order is kept |
| InfractionDefs.TrimAll | admin/infraction_defs.php:53 | each line trimmed, one for one |
| InfractionDefs.LinesOf | admin/infraction_defs.php:51-59 | the trimmed, non-empty lines of the text split at line feeds after CRLF is folded; ParseLines computes it |
| InfractionDefs.ParseLines | admin/infraction_defs.php:51-59 | the non-empty trimmed lines, in order, none starting or ending with whitespace |
| InfractionDefs.RepairsRoundTrip | admin/infraction_defs.php:212 | printing clean repair lines and parsing them back gives the same lines |
| InfractionDefs.JoinLinesCrlfFree | admin/infraction_defs.php:212 | joined clean lines have no CRLF for the replacement to change |
| InfractionDefs.JoinLinesTrimmed | admin/infraction_defs.php:212 | joined clean lines are their own trim |
| InfractionDefs.TrimAllClean | admin/infraction_defs.php:53 | trimming clean lines changes nothing |
| InfractionDefs.NonEmptyAll | admin/infraction_defs.php:54-57 | a list of non-empty lines is kept whole |
| InfractionDefs.ActionOf | admin/infraction_defs.php:67-69 | the action is create, update or delete exactly when the trimmed input is that word |
| InfractionDefs.FormRowForEngine | admin/infraction_defs.php:70-81 | a saved definition reads back with the normalised mode and blocks, days and review days within 0..365, and only positive rungs |
| InfractionDefs.HandleDefPost | admin/infraction_defs.php:64-145 | each branch's flash message and write: required fields, create, update with and without an id, delete with and without an id, an unknown action, and a failing statement, which writes nothing |
| InfractionDefs.EditLadderRoundTrip | admin/infraction_defs.php:162-166 | opening a definition and saving it unchanged keeps the positive rungs of a stored ladder; a blank or unreadable column saves as no ladder |
| SeedInfractions.NonBlank | tools/seed-infractions.php:148 | an entry is kept exactly when it is not blank after trimming |
| SeedInfractions.Flag | tools/seed-infractions.php:153-155 | the flag is 1 exactly when the key is present with a non-zero value, and otherwise 0 |
| SeedInfractions.Normalise | tools/seed-infractions.php:143-156 | the mode whitelisted, only positive rungs, only non-blank repairs, exactly three 0/1 block flags, every other field kept |
| SeedInfractions.SeedRow | tools/seed-infractions.php:29-46 | the inserted row carries the code and the creation time |
| SeedInfractions.Upserted | tools/seed-infractions.php:21-72 | an existing code updates every row with that code and keeps its creation time; a new code inserts one row under the next id; other rows are kept |
| SeedInfractions.UpsertHolds | tools/seed-infractions.php:21-72 | after an upsert the table holds the definition |
| SeedInfractions.UpsertHeld | tools/seed-infractions.php:51-69 | upserting a definition the table already holds changes nothing |
| SeedInfractions.UpsertKeepsOther | tools/seed-infractions.php:21-72 | an upsert leaves alone a definition held under another code |
| SeedInfractions.SeedFold | tools/seed-infractions.php:142-159 | the table and next id after each definition, normalised, is upserted in turn; the SeedFold lemmas prove ids, holding and idempotence |
| SeedInfractions.SeedFoldIds | tools/seed-infractions.php:142-159 | fresh ids stay above every id in use |
| SeedInfractions.SeedFoldHolds | tools/seed-infractions.php:142-159 | after seeding, the table holds every definition of a list with distinct codes |
| SeedInfractions.HeldThrough | tools/seed-infractions.php:142-159 | a held definition whose code no later definition uses stays held |
| SeedInfractions.SeedFoldHeld | tools/seed-infractions.php:142-159 | seeding a table that already holds every definition changes nothing |
| SeedInfractions.SeedIdempotent | tools/seed-infractions.php:4-13 | idempotent by code: a second run, at any time, leaves the table and the next id as the first run left them |
| SeedInfractions.SeedFoldKeepsOthers | tools/seed-infractions.php:142-159 | seeding never removes a row and never touches a row whose code is not seeded |
| SeedInfractions.UpsertDef | tools/seed-infractions.php:21-72 | the table and next id after the call are the upsert's |
| SeedInfractions.Seed | tools/seed-infractions.php:140-165 | commits every upsert in order, or on a failure rolls all of them back |
| SeedInfractions.SeedStep | tools/seed-infractions.php:142-159 | one loop pass normalises and upserts the next definition |
| SeedInfractions.BuiltInIdempotent | tools/seed-infractions.php:74-138 | the built-in list has distinct codes, so running the tool twice is harmless |
| SeedInfractions.ThreeRungs | lib/infractions.php:92-95 | a three-rung ladder of positive entries gives the first, the second, and then always the third rung |
| SeedInfractions.NormalisedRow | tools/seed-infractions.php:143-158 | the engine reads a seeded row with its positive rungs, its whitelisted mode and its 0/1 block flags |
| SeedInfractions.DisrespectLadder | tools/seed-infractions.php:75-90 | Disrespect stacks on phone and games: 1, 3, 7 days and then 7; reviews after half the days rounded up |
| SeedInfractions.SkipChoresDefault | tools/seed-infractions.php:107-121 | skipping chores costs one day on games for every strike, stacked |
| SeedInfractions.VapingLadder | tools/seed-infractions.php:122-137 | Vaping sets every lock from now: 14, 14, then 21 days from the third strike on |
| LegacyUtils.IsGroundedUntil | lib/gb/utils.php:16-20 | grounded exactly while a parsed expiry lies in the future |
| LegacyUtils.DaysLeft | lib/gb/utils.php:22-28 | 0 when there is no expiry or it has passed; otherwise the whole days left, a started day counting as a full one |
| LegacyUtils.GroundedIffDaysLeft | lib/gb/utils.php:16-28 | grounded exactly when at least one day, possibly partial, is left |
| LegacyUtils.AddSeconds | lib/gb/utils.php:30-34 | the parsed expiry, or now when there is none, moved by the seconds |
| LegacyUtils.SetDaysFromNow | lib/gb/utils.php:36-39 | now plus the days, with a negative count read as zero |
| LegacyUtils.ClampInt | lib/gb/utils.php:41-44 | within the bounds when they are ordered, unchanged inside them; the lower bound wins otherwise |
| LegacyUtils.LegacyIndex | lib/gb/utils.php:51 | the rung index for the next strike, inside the ladder, the first for a negative count |
| LegacyUtils.LegacyComputeDays | lib/gb/utils.php:46-55 | the clamped default days without a ladder; otherwise the clamped rung for the next strike, capped at the last |
| LegacyUtils.LegacyAgreesWithEngine | lib/gb/utils.php:46-55 | on an all-positive ladder, or with none, the legacy rule and the engine give the same days |
| LegacyUtils.LegacyKeepsZeroRung | lib/gb/utils.php:50-53 | a zero rung: the legacy rule gives 0 days where the engine, which drops the rung, gives 3 |
| LegacyUtils.FindInf | lib/gb/utils.php:57-62 | none exactly when no entry has the id; otherwise an entry that has it |
| LegacyUtils.FindInfFirst | lib/gb/utils.php:57-62 | the entry found is the first one with the id |
| ChoreData.ChoreDb.constructor | lib/rotation.php:20-102 | a chore database starts with the given kids and no slots, rule, assignments, bonus rows, submissions or audit entries |
| Rotation.IsoWeekday | lib/rotation.php:7 | the ISO day of the week is between Monday (1) and Sunday (7) |
| Rotation.IsoWeekdayNext | lib/rotation.php:7 | the next day is the next day of the week, Sunday wrapping to Monday |
| Rotation.WeekStartMonday | lib/rotation.php:6-9 | a Monday, on or at most six days before the day |
| Rotation.WeekStartSameWeek | lib/rotation.php:6-9 | every day of one Monday-to-Sunday week has the same week start |
| Rotation.IsWeekday | lib/rotation.php:11-14 | a weekday exactly when Monday to Friday |
| Rotation.WeekdayOffset | lib/rotation.php:16-18 | 0 for Monday up to 6, the distance from the week's Monday |
| Rotation.RuleGetOrCreate | lib/rotation.php:20-34 | the latest rule, unchanged; or, with none, a new default rule from the configured lists or the built-in ones |
| Rotation.EnsuredSlots | lib/rotation.php:36-49 | the slot table only grows: the existing slots stay as a prefix |
| Rotation.EnsuredSlotsCover | lib/rotation.php:38-47 | after the pass every trimmed non-blank title has a slot |
| Rotation.EnsuredSlotsPrefix | lib/rotation.php:38-47 | a later stage of the pass extends an earlier one |
| Rotation.EnsuredSlotsDistinct | lib/rotation.php:41-47 | no title is added twice: distinct slot titles stay distinct |
| Rotation.EnsureSlotsExist | lib/rotation.php:36-49 | the table after the loop is the ensured table |
| Rotation.KidMapOf | lib/rotation.php:64-66 | every kid's name is a key, and every key maps to the id of a kid with that name |
| Rotation.SlotIdOf | lib/rotation.php:70-73 | the id of a slot with the title, or none exactly when no slot has it |
| Rotation.SlotIdsFor | lib/rotation.php:68-74 | at most one id per rule title, each the id of an existing slot |
| Rotation.RotationAdvances | lib/rotation.php:77-82 | from one weekday to the next the rotation moves by one position: tomorrow's slot for kid i is today's slot for kid i+1 |
| Rotation.Generated | lib/rotation.php:79-90 | a known kid without an assignment for the day gets the rotated slot, open; the Generated lemmas prove it keeps, assigns and is idempotent |
| Rotation.GeneratedKeeps | lib/rotation.php:84-89 | nothing is ever overwritten, and only the given day's keys are added |
| Rotation.GeneratedAssigns | lib/rotation.php:79-90 | every known kid named in the rule has an assignment for the day; the first naming of a kid without one gets its rotated slot, open |
| Rotation.GeneratedFresh | lib/rotation.php:79-90 | a kid no position names gets no assignment |
| Rotation.GeneratedNoop | lib/rotation.php:84-89 | when every named kid already has an assignment for the day, nothing changes |
| Rotation.GeneratedIdempotent | lib/rotation.php:79-90 | generating the same day twice is the same as once |
| Rotation.AssignLoop | lib/rotation.php:79-90 | the assignments after the loop are the generated ones |
| Rotation.GenerateForDay | lib/rotation.php:51-91 | weekends change nothing; on a weekday the stored rule is kept, or the default rule is created when none is stored, the slots are ensured, and the kids are assigned unless no rule slot resolves |
| Bonuses.BonusWeekStart | lib/bonuses.php:7-10 | the Monday of the given day's week, or of today's week when the day does not parse |
| Bonuses.BonusWeekStartStable | lib/bonuses.php:7-10 | every day of a week maps to the same week start, which maps to itself |
| Bonuses.PerWeek | lib/bonuses.php:18 | instances per week: the definition's maximum, at least one |
| Bonuses.Repeat | lib/bonuses.php:19-22 | n copies of the definition id |
| Bonuses.RepeatCount | lib/bonuses.php:19-22 | the copies hold the id exactly n times |
| Bonuses.CopiesCount | lib/bonuses.php:15-23 | a reset inserts exactly the weekly number of instances for each listed definition, and none for any other |
| Bonuses.CopiesMember | lib/bonuses.php:15-23 | every inserted definition id is one of the listed active ones |
| Bonuses.InsertedSpec | lib/bonuses.php:20-21 | inserting adds exactly the new ids, each a fresh available instance of its definition, and keeps every other row |
| Bonuses.InsertedConcat | lib/bonuses.php:16-23 | inserting one list and then another is inserting both in turn |
| Bonuses.InsertCopies | lib/bonuses.php:19-22 | the inner loop inserts the copies of one definition under the next ids |
| Bonuses.ResetWeek | lib/bonuses.php:12-24 | a reset inserts the week's fresh instances for every active definition, in query order, under the next ids |
| Bonuses.ListWeek | lib/bonuses.php:26-38 | a week lists its instances whose definition still exists, the join dropping the others; ResetWeekListed proves what a reset adds to it |
| Bonuses.ResetWeekListed | lib/bonuses.php:12-38 | after a reset each new instance is listed for that week, available, of an active definition; every other week's listing is unchanged |
| Bonuses.ClaimOutcome | lib/bonuses.php:40-61 | only an existing, available instance is claimed, recording the kid and the time; ClaimOnce proves it succeeds once |
| Bonuses.ClaimOnce | lib/bonuses.php:40-61 | a claim succeeds exactly on an available instance, then holds it for the kid and changes no other row; a second claim, by anyone, fails and changes nothing |
| Bonuses.Claim | lib/bonuses.php:40-61 | the transaction's result and instances are the claim's outcome |
| ClaimBonus.ClaimPost | api/claim_bonus.php:16-57 | invalid, missing and unavailable instances are refused with their messages and no write; otherwise the conditional update either wins (audited, success message) or loses to a rival (failure message, rival holds it) |
| ClaimBonus.SingleWinner | api/claim_bonus.php:39-52 | however the race goes, exactly one kid holds the instance, and a losing update changes nothing |
| SubmitProof.PickUploadField | api/submit_proof.php:21-29 | the first of `photo`, `photo_camera`, `photo_library` that was sent, or `photo` when none was |
| SubmitProof.ExtFor | api/submit_proof.php:58-61 | png, webp or heic exactly for those types (heic also for heif), otherwise jpg |
| SubmitProof.StorePhoto | api/submit_proof.php:31-69 | without a photo the sentinel path; a stored photo was sent without error, exists, has an accepted type and was moved, under a random name with the type's extension; refusals are 400, 413 ("File too large.") or 500 |
| SubmitProof.AllowedMime | api/submit_proof.php:51 | exactly the five image types the endpoint stores |
| SubmitProof.StorePhotoGuards | api/submit_proof.php:40-53 | a file over the size cap is refused whatever its type, and a file of a type not accepted is never stored |
| SubmitProof.YmdTrailingNewline | api/submit_proof.php:77 | the date check accepts a well-formed date and also the same date followed by a line feed, and refuses other shapes |
| SubmitProof.BaseSubmitted | api/submit_proof.php:84-85 | the kid's assignment for the day becomes pending on the new submission; every other assignment stays |
| SubmitProof.BonusSubmitted | api/submit_proof.php:111-112 | the instance becomes pending on the new submission and keeps its claim; every other instance stays |
| SubmitProof.KindOf | api/submit_proof.php:71-94 | the base branch exactly for "base", the bonus branch exactly for "bonus" |
| SubmitProof.SubmitBase | api/submit_proof.php:74-92 | a bad date or slot gives 400 with no write; otherwise one pending submission, the assignment marked pending, one audit entry, and a redirect with the photo or no-photo message |
| SubmitProof.SubmitBonus | api/submit_proof.php:94-119 | a bad week or id gives 400, an instance the kid does not hold as claimed gives 403 "Not your bonus.", both with no write; otherwise one pending submission, the instance marked pending and one audit entry |
| SubmitProof.IsYmd | api/submit_proof.php:77 | four digits, a dash, two digits, a dash, two digits, optionally followed by one line feed that PCRE's `$` lets through |
| SubmitProof.SubmitPost | api/submit_proof.php:1-122 | a refused upload or an unknown kind writes nothing and answers with its status; a base proof with a bad day or slot answers 400, otherwise records the pending submission under the next id, marks the assignment and audits; a bonus proof answers 400 on a bad week or id and 403 "Not your bonus." on an instance the kid does not hold, otherwise records, marks the instance and audits |
| Approve.NoteOf | api/approve.php:19-46 | no note exactly when the trimmed note is empty; otherwise the trimmed note |
| Approve.Rewards | api/approve.php:56-67 | the phone and games minutes of the instance's definition, or 0 and 0 when the join finds no row |
| Approve.InstancesReviewed | api/approve.php:49-90 | a bonus proof's instance becomes approved, or claimed again on rejection; every other instance stays |
| Approve.AssignmentsReviewed | api/approve.php:75-99 | a base proof's assignment becomes approved, or open with no submission on rejection; nothing changes without a day or a kid |
| Approve.ApplyReview | api/approve.php:40-109 | the committed writes: the submission's decision, note and time, the instance or assignment, the banked minutes when they apply, and one audit entry |
| Approve.Review | api/approve.php:17-118 | invalid input, a submission that is not pending and a failed transaction each redirect with their error and change nothing; otherwise the decision is recorded, the instance or assignment updated, the rewards banked on an approved bonus, and the review audited |
| Approve.BaseRoundTrip | api/approve.php:92-99 | submitting a base proof and having it rejected gives back the open assignment, so the kid can submit again; approving leaves it approved on that proof |
| Approve.BonusLifecycle | api/approve.php:49-90 | a claimed instance, once submitted, is no longer held as claimed; rejected it is held by the same kid again; approved it can no longer be claimed |
| Setup.PasswordError | admin/setup.php:53-56 | a parent password shorter than ten characters is refused with "Use at least 10 characters."; any longer one is accepted |
| Setup.Dedup | admin/setup.php:92 | the posted ids without repeats, with the same set of ids as the input |
| Setup.IndexOf | admin/setup.php:92 | the position of an id's first occurrence |
| Setup.IndexOfPrefix | admin/setup.php:92 | an id seen within a prefix has its first occurrence inside that prefix |
| Setup.DedupOrder | admin/setup.php:92 | the ids kept are in the order of their first occurrences, as `array_unique` keeps them |
| Setup.DedupDistinct | admin/setup.php:92 | an id list without repeats is kept unchanged |
| Setup.IntVals | admin/setup.php:90 | each posted id is read with the integer cast |
| Setup.KidIdsOf | admin/setup.php:90-92 | the kept ids are exactly the positive casts of the posted values, each once |
| Setup.IdNames | admin/setup.php:94-95 | every kid's id is mapped, and to the name of a kid with that id |
| Setup.KidNames | admin/setup.php:97-100 | ids that name no kid are skipped; the result is empty exactly when no id names a kid; every entry is a kid's name |
| Setup.SlotTitles | admin/setup.php:102-106 | the first ten of the trimmed, non-blank posted titles, in the posted order |
| Setup.SlotTitlesSpec | admin/setup.php:102-106 | with at most ten non-blank titles every one is kept, trimmed; the titles of a prefix of the posted list come first |
| Setup.SlotTitlesIdempotent | admin/setup.php:102-106 | normalising the stored titles again changes nothing |
| Setup.NonEmptyKeeps | admin/setup.php:105 | dropping blank entries from a list without any keeps the list |
| Setup.SaveRotation | admin/setup.php:27-122 | the page load creates the default rule when none is stored; then no kid order, no resolvable kid and no slot title each give their error and change nothing else; otherwise the rule keeps its name, its kids and slots become the resolved names and titles, a slot exists for each title, and the save is audited |
| Setup.KnownNames | admin/setup.php:33-34 | the rule's kids that are still kids, and only those |
| Setup.Missing | admin/setup.php:35 | the actual kids that the rule does not name, and only those |
| Setup.UiKidsOrder | admin/setup.php:31-36 | the form lists every actual kid and nothing else, starting with the rule's kids that still exist in the rule's order |
| Setup.SavedOrderShown | admin/setup.php:31-36 | after an order of existing kids is saved, the form starts with exactly that order |
| Setup.KnownAll | admin/setup.php:34 | when every rule kid exists, none is filtered out |
| Setup.UiSlots | admin/setup.php:39-43 | five or more rule slots are shown as they are; fewer are padded from the default titles to exactly five |
| Setup.WriteRotation | admin/setup.php:112-119 | the rule the page load left keeps its name and takes the resolved kids and titles, a slot exists for each title, and the save is audited |
| Setup.MaxSortOrder | admin/setup.php:135 | the largest sort order among the definitions, or 0 when there is none |
| Setup.AddBonusDef | admin/setup.php:124-141 | a blank title gives "Bonus title is required." and changes nothing, the next id included; otherwise a new active definition with no reward, a weekly maximum of at least one and a sort order one past the largest existing one (1 when there is none) is added under the next id and audited |
| Setup.SeedBonusDefaults | admin/setup.php:143-160 | nothing changes when any definition exists; otherwise the five default titles are added in order, once a week and sorted by position, and the seeding is audited |
| Tokens.ScopeOf | lib/gb/tokens.php:51-55 | the scope is "kid" exactly for the text "kid", and "kiosk" for anything else |
| Tokens.ScopeName | lib/gb/tokens.php:21 | the stored scope name reads back as the same scope |
| Tokens.Normalised | lib/gb/tokens.php:9-26 | the normalised list is never longer than the stored one |
| Tokens.NormalRow | lib/gb/tokens.php:11-24 | a row is kept exactly when it is an array with a non-empty id and hash, and then with its fields and its scope normalised |
| Tokens.NormalisedWellFormed | lib/gb/tokens.php:16 | every token read back has an id and a hash |
| Tokens.NormalisedKeeps | lib/gb/tokens.php:10-25 | every row that normalises is in the list read back |
| Tokens.TokensGet | lib/gb/tokens.php:5-27 | a stored value that is not a list reads as no tokens; a list reads as its kept rows, normalised, in their order |
| Tokens.SaveGetRoundTrip | lib/gb/tokens.php:5-31 | saving a list of well-formed tokens and reading it back gives the same list |
| Tokens.Saved | lib/gb/tokens.php:29-31 | one stored row per token |
| Tokens.Make | lib/gb/tokens.php:33-49 | the plain token is shown once and only its hash is stored, with the trimmed title, the normalised scope, the creation time and not revoked |
| Tokens.Accepts | lib/gb/tokens.php:58-60 | a token accepts a hash when it is not revoked, has the needed scope and its hash matches |
| Tokens.Verify | lib/gb/tokens.php:51-63 | a presented token verifies exactly when its trimmed text is non-blank and some token that is not revoked, of the needed scope, stores its hash |
| Tokens.MadeTokenVerifies | lib/gb/tokens.php:33-63 | a made token, once listed, verifies with its plain text in its own scope; a revoked copy of it does not |
| Tokens.Insert | lib/gb/tokens.php:67-71 | inserting one token lengthens the list by one |
| Tokens.InsertSpec | lib/gb/tokens.php:67-71 | inserting into a newest-first list keeps it newest first and adds exactly that token |
| Tokens.SortByCreatedDesc | lib/gb/tokens.php:67-71 | the sort keeps the number of tokens |
| Tokens.SortSpec | lib/gb/tokens.php:67-71 | the sort orders the tokens newest first and is a permutation |
| Tokens.KeepCount | lib/gb/tokens.php:72 | at least one token is kept, and exactly `max` when `max` is positive |
| Tokens.Prune | lib/gb/tokens.php:65-73 | the pruned list has as many tokens as the list and the limit allow |
| Tokens.SortedCut | lib/gb/tokens.php:72 | cutting a newest-first list keeps the head newest first, loses nothing, and leaves nothing after the cut newer than the head |
| Tokens.PruneSpec | lib/gb/tokens.php:65-73 | the kept tokens are newest first and come from the list, all are kept when within the limit, and no dropped token is newer than a kept one |
| Auth.PinPolicyAsWritten | lib/auth.php:7-14 | the PIN check as written: the digits pattern, with PCRE's allowance for a final newline, and the length within the configured bounds (6 and 6 by default) |
| Auth.PinPolicyAcceptsNewline | lib/auth.php:11-13 | under the default bounds the check as written accepts "12345" followed by a newline, which is not all digits |
| Auth.PinPolicyOk | lib/auth.php:7-14 | the intended PIN check: digits only, with the length within the bounds; whatever it accepts the check as written accepts too |
| Auth.PinPolicyAgrees | lib/auth.php:11-13 | the intended check and the check as written agree on every PIN that does not end in a newline |
| Auth.FindDevice | lib/auth.php:28-34 | a device found carries the hash, is not revoked and belongs to an existing kid; none is found only when no such device exists |
| Auth.KidCurrent | lib/auth.php:16-41 | a kid is signed in only with a cookie of 64 hex digits whose hash belongs to a live device of an existing kid, and is that device's kid |
| Auth.NewlineTokenRefused | lib/auth.php:22-24 | a cookie of 64 hex digits followed by a newline gets through the pattern but fails the hex decoding, so it signs nobody in |
| Auth.KidDevices.KidLogin | lib/auth.php:75-106 | the login succeeds exactly when the PIN meets the policy, the kid exists with a PIN set, and the PIN verifies; then one live device with the new token's hash is recorded and the login audited, otherwise nothing changes |
| Auth.LoginRecognised | lib/auth.php:16-106 | the cookie a login sets is recognised afterwards, as this kid on this device when no earlier device has the same hash |
| Auth.FindAppended | lib/auth.php:28-34 | a live device appended for an existing kid is found by its hash, and is the one found when its hash is new |
| Auth.AdminSession.AdminCurrent | lib/auth.php:126-135 | the session is current exactly when its time is set and no older than the time-out; a current session is refreshed to now, an expired one is left |
| Auth.AdminSession.AdminLogin | lib/auth.php:146-155 | the login succeeds exactly when a password hash is configured and the password verifies; then the session starts now and the login is audited, otherwise nothing changes |
| Auth.AdminSession.AdminLogout | lib/auth.php:157-160 | after logging out no check succeeds at any time |
| Auth.AdminCheck | lib/auth.php:126-135 | a parent session is current when its time is set (not 0) and no older than the time-out; AdminWindowSlides proves how the window moves |
| Auth.AdminWindowSlides | lib/auth.php:126-135 | a session checked now stays current until the time-out after now and lapses after it |
| Store.JsonDecodeMaybe | lib/gb/store.php:9-13 | a NULL or empty column, or text that does not parse, gives the fallback; otherwise the parsed value |
| Store.JsonEncode | lib/gb/store.php:15-18 | a value that cannot be encoded is stored as "[]"; otherwise its encoding |
| Store.KeyClassesDisjoint | lib/gb/store.php:42-51 | no config key is both a JSON key and a boolean key |
| Store.Interpret | lib/gb/store.php:46-58 | a JSON key's text is decoded against the value it had; a boolean key's "1" and "0" read as true and false; any other text is kept as text |
| Store.ConfigFold | lib/gb/store.php:41-60 | reading rows never drops a key of the fallback config |
| Store.GetConfig | lib/gb/store.php:37-61 | a store that is not set up gives the fallback config; otherwise the fallback with every stored row read in |
| Store.ConfigFoldOther | lib/gb/store.php:41-60 | a key no row names keeps its fallback value, or stays absent |
| Store.ConfigFoldAt | lib/gb/store.php:43-59 | with the table's distinct keys, each stored row with a key decides that key's value |
| Store.EmptyKeySkipped | lib/gb/store.php:46 | a row with an empty key never enters the config |
| Store.Truthy | lib/gb/store.php:68 | PHP truthiness of a configuration value: false, "", "0" and the empty list are false |
| Store.Stored | lib/gb/store.php:63-72 | a JSON key stores its encoding; a boolean key stores "1" or "0" by the value's truthiness |
| Store.ConfigTable.SetConfig | lib/gb/store.php:63-75 | the key's stored text is inserted or replaced and every other key is kept |
| Store.SetGetBool | lib/gb/store.php:37-75 | a boolean key set to any value reads back as that value's truthiness |
| Store.SavedKids | lib/gb/store.php:104-118 | a save keeps at most the entries it was given |
| Store.SavedKidsSpec | lib/gb/store.php:104-118 | every entry with a non-blank name is saved as its row |
| Store.SavedKidsOrder | lib/gb/store.php:104-118 | every saved row comes from an entry with a non-blank name, and the rows keep the entries' order |
| Store.SavedKidsNames | lib/gb/store.php:106-107 | every saved kid has a non-empty, trimmed name |
| Store.ReloadedAll | lib/gb/store.php:77-95 | the load gives one entry per stored row |
| Store.SaveKidsIdempotent | lib/gb/store.php:77-125 | saving what was loaded changes nothing |
| Store.ReloadedFixed | lib/gb/store.php:77-125 | rows with non-empty trimmed names, loaded and saved again, are the same rows |
| Store.KidTable.SaveKids | lib/gb/store.php:97-125 | the save succeeds exactly when the store does not fail and the kept names are distinct (the column is UNIQUE); then the table is the kept entries, otherwise it is left as it was |
| Store.SavedInfractions | lib/gb/store.php:154-169 | a save keeps at most the definitions it was given |
| Store.SavedInfractionsSpec | lib/gb/store.php:154-169 | every saved definition has a non-empty id and label and a mode of "add" or "set", and every definition with an id and a label is saved |
| Store.SavedInfractionsOrder | lib/gb/store.php:154-169 | every saved definition comes from an entry with an id and a label, and the rows keep the entries' order |
| Store.InfractionTable.SaveInfractions | lib/gb/store.php:147-176 | the save succeeds exactly when the store does not fail and the kept ids are distinct (the primary key); then the table is the kept definitions, otherwise it is left as it was |
| Store.EventLimit | lib/gb/store.php:194 | the number of events asked for is the limit clamped to 1..1000 |
| Store.LoadEvents | lib/gb/store.php:190-207 | no events when the store is not set up; otherwise the newest events, as many as the clamped limit allows |
| Undo.Label | lib/gb/undo.php:18-22 | the label is the snapshot's, and empty when there is no snapshot or no label |
| Undo.UndoSession.SetSnapshot | lib/gb/undo.php:5-8 | the snapshot holds the kids, the label and the time, and can be undone straight away with that label |
| Undo.UndoSession.ApplyUndo | lib/gb/undo.php:24-31 | nothing is restored when no snapshot is within the window or its kids do not decode to a list; otherwise the kids table is saved from the snapshot, and succeeds exactly when the save does |
| Undo.UndoSession.Clear | lib/gb/undo.php:33-36 | after clearing nothing can be undone and there is no label |
| Undo.Available | lib/gb/undo.php:10-16 | a snapshot with a positive time no older than the window can be undone; UndoWindow proves the window exact and monotone |
| Undo.UndoWindow | lib/gb/undo.php:10-16 | a snapshot can be undone up to the window after it was taken and not later; a wider window only keeps it longer |
| Undo.UndoRestores | lib/gb/undo.php:5-31 | undoing a snapshot of a saved kids table restores exactly that table, and its distinct names pass the UNIQUE constraint again |
| History.JsonArrOf | app/history.php:15-21 | a NULL or blank column, or one that does not decode to an array, reads as empty; otherwise as the decoded trimmed text |
| History.JsonArrTrimmed | app/history.php:17 | surrounding whitespace never changes what a column reads as |
| History.OnTitles | app/history.php:24-27 | the titles list names each category exactly when its flag is 1 |
| History.BlocksLabel | app/history.php:23-29 | the label is "None" exactly when no category is blocked |
| History.BlocksLabelInjective | app/history.php:23-29 | two equal labels mean the same categories are blocked, so the label tells exactly which ones are |
| History.LabelShapes | app/history.php:23-29 | the eight possible labels, categories joined by ", " in the order Phone, Games, Other |
| History.UntilParts | app/history.php:33-37 | a category's part is present exactly when it has a time; the phone part comes first and the other part last |
| History.UntilLabel | app/history.php:31-39 | the label is "—" exactly when no category has a time; a single phone time shows as "Phone→" and the time |
| History.UntilLabelShapes | app/history.php:31-39 | the eight possible labels: the parts of the categories with a time joined by " • " in the order Phone, Games, Other, or "—" |
| History.ReviewStatus | app/history.php:41-54 | an entry is pending exactly when it has no review time; a reviewed unlock or shortening shows as approved with "Reviewed: unlock" or "Reviewed: shorten", a plain review as open with "Reviewed: review-only", any other review as open with "Reviewed" |
| History.DisplayMode | app/history.php:141-142 | the mode shown is "add" exactly when the entry says "add", and "set" otherwise |
| Family.AvailableCount | admin/family.php:52-65 | the count never exceeds the number of rows |
| Family.BonusAvailableCount | admin/family.php:52-65 | the count is the number of array rows that belong to the kid and are open |
| Family.AvailableCountAppend | admin/family.php:54-63 | the count over two lists joined is the sum of their counts |
| Family.AvailableCountPositions | admin/family.php:52-65 | the count is the number of positions holding a counted row |
| Family.NotCountedIgnored | admin/family.php:55-62 | a row for another kid, or one nobody can take, never changes the count |
| Branding.StripControl | admin/branding.php:24 | every control character is removed and the rest keeps its order; text without control characters is unchanged |
| Branding.SafeText | admin/branding.php:21-27 | the result is a prefix of the trimmed text stripped of control characters, no longer than the limit, and all of it when it fits |
| Branding.SafeTextKeepsPlain | admin/branding.php:21-27 | plain text without edge whitespace that fits the limit passes through unchanged |
| Branding.SafeTextLeadingSpace | admin/branding.php:22-24 | trimming comes before stripping, so a control character ahead of a space leaves that space in the result |
| Branding.NewBrand | admin/branding.php:68-71 | the saved brand is never empty and fits sixteen characters; it is the sanitised text when any is left |
| Branding.BrandingPost | admin/branding.php:64-87 | a failed write reports its message; otherwise the sanitised brand and family are saved under the branding section |
| Branding.BrandingKeepsOthers | admin/branding.php:73-77 | a save sets the brand and the family and keeps every other key of the local config and every other branding entry |
| AppJs.LeadingZero | assets/js/app.js:4 | a leading zero does not change the number a run of digits spells |
| AppJs.Pad2 | assets/js/app.js:4 | at least two digits, exactly two below 100, reading back as the number |
| AppJs.Breakdown | assets/js/app.js:7-11 | whole days, hours under 24, minutes under 60 and seconds under 60 that add back up to the count |
| AppJs.RemainingParts | assets/js/app.js:7-17 | days only when there are any, hours when there are any or there are days, then two-digit minutes and seconds |
| AppJs.FmtRemaining | assets/js/app.js:6-19 | the text is in parentheses and ends with " remaining)" |
| AppJs.FmtRemainingClamps | assets/js/app.js:7 | a negative time left shows as "00m 00s", the same as none |
| AppJs.Tick | assets/js/app.js:24-34 | an element without a positive end time is left alone; otherwise it is marked expired exactly when no time is left, and shows the time left when some is |
| AppJs.TickCountdowns | assets/js/app.js:21-36 | every countdown element is updated as one tick says, from the same clock reading |
| AppJs.ExpiredStays | assets/js/app.js:27-30 | an element once expired stays expired at every later tick |
| AppJs.ReplaceAllAppend | assets/js/app.js:39-44 | replacing a character in joined text is replacing it in each part |
| AppJs.ReplaceAllAbsent | assets/js/app.js:39-44 | replacing a character the text does not hold changes nothing |
| AppJs.EscapeChain | assets/js/app.js:38-45 | the five replacements in the script's order, ampersand first; EscapeChainIsEscape proves it equal to the one-pass escape |
| AppJs.EscapeChainAppend | assets/js/app.js:38-45 | the chain of replacements works on each part of a text independently |
| AppJs.EscapeChainChar | assets/js/app.js:38-45 | on one character the chain gives that character's entity, since no entity added holds a character replaced later |
| AppJs.EscapeChainIsEscape | assets/js/app.js:38-45 | the chain, ampersand first, escapes each character exactly once, so no entity is escaped twice |
| AppJs.EscapeCharSafe | assets/js/app.js:38-45 | no escaped character leaves a markup character behind |
| AppJs.EscapeSafe | assets/js/app.js:38-45 | the escaped text holds no angle bracket, double quote or apostrophe, so it cannot end a text node or a quoted attribute |
| AppJs.Esc | assets/js/app.js:38-45 | `esc` is the chain with "&#39;" for the apostrophe, and its output is free of markup characters |
| GroundingJs.ThemeOf | assets/js/grounding.js:66 | the theme is "light", "dark" or "auto", and a known theme is kept |
| GroundingJs.ApplyTheme | assets/js/grounding.js:65-74 | the stored value is the normalised theme; "auto" removes the page's theme attribute and the others set it to the theme |
| GroundingJs.InitialTheme | assets/js/grounding.js:75-77 | nothing stored, or an empty value, applies "auto" |
| GroundingJs.ThemeReload | assets/js/grounding.js:65-77 | reloading the page applies the same theme the last switch stored |
| GroundingJs.Strings | assets/js/grounding.js:104 | the list's string items and nothing else |
| GroundingJs.ReadRecent | assets/js/grounding.js:100-106 | stored text that does not parse to a list reads as no ids; a list reads as its string items |
| GroundingJs.WriteRecent | assets/js/grounding.js:107-109 | the first ten ids are stored, in order |
| GroundingJs.Without | assets/js/grounding.js:269 | the ids other than the chosen one, and only those |
| GroundingJs.WithoutDistinct | assets/js/grounding.js:269 | removing an id from a list without repeats leaves a list without repeats |
| GroundingJs.SubmitRecent | assets/js/grounding.js:264-271 | nothing is stored when no infraction is chosen; otherwise the chosen id goes first, ahead of the others read back |
| GroundingJs.SubmitRecentSpec | assets/js/grounding.js:264-271 | after a submit the chosen id is first and appears once, at most ten ids are kept, each other id was there before, and no id repeats when none did |
| GroundingJs.WriteReadRoundTrip | assets/js/grounding.js:100-109 | a stored list of ids reads back as the same list |
| GroundingJs.EscapeHtml | assets/js/grounding.js:153-158 | `escapeHtml` is the same chain with "&#039;" for the apostrophe, and its output is free of markup characters |
| GroundingJs.JsTrimStart | assets/js/grounding.js:196 | nothing left at the front is whitespace |
| GroundingJs.JsTrimEnd | assets/js/grounding.js:196 | nothing left at the end is whitespace, and the text still starts where it did |
| GroundingJs.JsTrim | assets/js/grounding.js:196 | the trimmed text neither starts nor ends with whitespace |
| GroundingJs.FilterBy | assets/js/grounding.js:197-198 | the listed infractions are exactly those whose lower-cased label or id contains the query; an empty query lists all |
| GroundingJs.Filtered | assets/js/grounding.js:195-198 | the search is trimmed and lower-cased before matching; a blank search lists every infraction |
| GroundingJs.FindsOwnId | assets/js/grounding.js:197-198 | every infraction with a lower-case id is found by a search for that id |
| GroundingJs.InitialTab | assets/js/grounding.js:326-334 | the saved tab is shown when it names a tab; otherwise the first tab, and nothing when that is ''; whatever is shown is one of the tabs |
| GroundingJs.QuickAdd.Close | assets/js/grounding.js:126-137 | the dialog is hidden, the choice, search and highlights are cleared, each element present is reset to its empty text, and the full list is shown again |
| Common.TrimLeft | admin/infraction_defs.php:40 | the result starts with no character PHP's `trim` strips |
| Common.TrimLeftSpec | admin/infraction_defs.php:40 | the left trim drops exactly a run of strippable characters from the front |
| Common.TrimRight | admin/infraction_defs.php:40 | the result ends with no strippable character and starts where the text did |
| Common.TrimRightSpec | admin/infraction_defs.php:40 | the right trim drops exactly a run of strippable characters from the end |
| Common.Trim | admin/infraction_defs.php:40 | the trimmed text neither starts nor ends with a strippable character |
| Common.TrimEmptyIff | admin/infraction_defs.php:40-41 | the trimmed text is empty exactly when every character is strippable |
| Common.TrimNoEdges | admin/infraction_defs.php:40 | text without strippable edges is its own trim |
| Common.ToLower | admin/infraction_defs.php:26 | the lower-cased text has the same length, each character lower-cased |
| Common.PositivesSpec | admin/infraction_defs.php:44-47 | the positive values of a list and only those, in order; a list of positives is kept whole |
| Common.PositivesAppend | admin/infraction_defs.php:44-47 | one more value adds itself when positive and nothing otherwise |
| Common.SplitBy | admin/infraction_defs.php:42 | splitting always gives at least one part |
| Common.SplitNoSep | admin/infraction_defs.php:42 | text without a separator joins the first part of what follows it |
| Common.SplitJoin | admin/infraction_defs.php:42 | parts free of separators, joined by a separator and split again, come back as the same parts |
| Common.Join | app/history.php:28 | joining starts with the first part, and nothing joins to empty |
| Common.LeadingDigits | admin/infraction_defs.php:45 | the longest run of digits at the front of the text |
| Common.DecimalString | admin/infraction_defs.php:211 | a number prints as a non-empty run of digits |
| Common.DigitsOfDecimal | admin/infraction_defs.php:211 | the printed digits spell the number back |
| Common.LeadingDigitsAll | admin/infraction_defs.php:45 | a text of digits only is all leading digits |
| Common.IntCastDecimal | admin/infraction_defs.php:45 | the integer cast of a printed number is that number |
| Common.JsonArr | lib/infractions.php:61-64 | a blank value, or one that does not decode to an array, reads as the fallback; otherwise as the decoded array |

## Left out

The code is followed where it differs from what a reader might expect:

- Reading a kid's privileges never unlocks an expired lock. `get_for_kid` only reads (lib/privileges.php:12-23), so the model has no auto-unlock.
- A manual lock toggle leaves the stored expiry in place (lib/privileges.php:25-32, admin/grounding.php:40-50).
- An event that was already reviewed can be reviewed again (admin/infraction_review.php:37-47).
- The review writes are not wrapped in a transaction, so the model has no `dbFails` there.
- `shorten` on a category with no stored expiry sets one, so it can create a lock (admin/infraction_review.php:70-80).
- The preview reports expiries for the blocked categories even when the minutes are 0; apply then writes none (lib/infractions.php:179-189 against 246-247).
- The strike count is read before the transaction opens (lib/infractions.php:228 against 239). The model is sequential, so this makes no difference to it.
- The comment above `gb_token_prune` says revoked tokens come last, but the sort looks only at `created` (lib/gb/tokens.php:66-71). The model follows the sort.

Outside the model:

- The unshown privilege helpers `gb2_priv_set_lock_until`, `gb2_priv_add_lock_minutes`, `gb2_priv_iso_from_ts` and `gb2_priv_parse_until`, and lib/db.php, are not part of this model. They appear only through the contracts their callers imply: setting an expiry sets the flag exactly when there is one, and adding minutes starts from the later of now and the stored expiry.
- Clock and calendar: `time()`, `gmdate`, `strtotime` and ISO date strings are not modelled. Times are whole seconds passed in, and days are numbered from 1970-01-01. The string comparison of `review_on` with timestamps is modelled as a comparison of day numbers.
- SQL: the ordering of query results, `LIMIT` and `COALESCE` appear only where a page depends on them. The queue order is modelled; other orderings are taken as given.
- Concurrency: transactions are sequential all-or-nothing steps, and a race is a parameter saying who wins.
- Crypto and randomness: `password_hash`/`password_verify`, `hash`, `hash_equals`, `random_bytes` and `bin2hex` are uninterpreted function parameters. The token and id texts they produce are parameters too.
- JSON: `json_decode`/`json_encode` are parameters or given structures. Their parsing and printing are not modelled.
- Lengths: PHP's `strlen` counts bytes, while the model counts characters of a `seq<char>`. This matters only for multi-byte passwords and PINs.
- Case: `strtolower` and JavaScript's `toLowerCase` are modelled for ASCII letters only.
- Integers: PHP's integer casts are modelled for leading decimal digits after optional whitespace and sign. Overflow to float, hexadecimal and exponent forms are not modelled.
- The web layer is not modelled: sessions, cookies, headers, redirects, CSRF checks, HTML rendering, the DOM, timers, toasts and `localStorage` I/O. A page's redirect is its flash result. Stored values are parameters.
- The kid's device `last_seen`, IP and user-agent update in `gb2_kid_current` (lib/auth.php:37-38) is not modelled, because it only records client metadata.
- Admin impersonation, `gb2_kid_require` and `gb2_kid_logout` (lib/auth.php:48-73, 108-124) are not modelled, because they only route requests and set cookies.
- The `add_kid` action of admin/setup.php (lines 70-81) is not modelled. It calls `gb2_kid_create` and `gb2_kid_set_pin` in lib/kids.php, which is not part of this model.
- The `set_admin` config-file write (admin/setup.php:57-64) and the branding config-file write (admin/branding.php:30-50) are not modelled. Only the password rule and the resulting config array are.
- The file upload in api/submit_proof.php (lines 35-69) is not modelled: the move, the directory creation and the MIME sniffing. The MIME type and the size are parameters.
- `gb_log_event_db` and `gb_store_require_ready` (lib/gb/store.php:20-35, 178-188) are not modelled, because they only insert a log row or print a page.
- Thin pages with no logic of their own are not modelled, and neither is the plumbing (lib/gb/db.php, lib/migrations.php, lib/ledger.php, lib/audit.php). The audit log is an append-only sequence of entries.
- Tokens.Prune: the order of tokens with the same `created` is not stated, because `usort` does not promise one.
- Tokens.Verify: it takes already normalised tokens, so the skip of entries that are not arrays is not modelled.
- Tokens.Make: the encoding of the random bytes into the plain token and the id is not modelled. Both are parameters.
- Store.Truthy: the truthiness of an array value is simplified to whether its JSON text is "[]".
- Branding.SafeText: `maxLen` is a `nat`. A negative limit, which the page never passes, is not modelled.
- Branding.SafeText: the text is a sequence of characters, so it is always valid UTF-8. On invalid UTF-8 the `/u` pattern fails, `preg_replace` returns null and the page keeps '' (admin/branding.php:24); that case is not modelled.
- Branding.SafeText: the length and the cut count characters, as `mb_strlen` and `mb_substr` do. Without the mbstring extension the page falls back to `strlen` and `substr`, which count bytes (admin/branding.php:11-19); that fallback is not modelled.
- Setup.AddBonusDef: the page load creates the default rotation rule when none is stored (admin/setup.php:27). That write is outside this method's frame; Setup.SaveRotation models it.
- Setup.SeedBonusDefaults: the same page-load rule creation is outside this method's frame.
- Auth.KidDevices.KidLogin: it uses the corrected PIN policy `Auth.PinPolicyOk` (see Findings) rather than the one as written.
- AppJs.TickCountdowns: the `parseInt` of the attribute text is a parameter of each element. Partial numeric prefixes are not modelled.

## Findings

| source | as written | input that shows it | evidently intended | confidence | as-written member | corrected member |
|---|---|---|---|---|---|---|
| lib/auth.php:11-13 | the PIN must match `/^[0-9]+$/`, and PCRE's `$` also matches before a final newline, so a newline counts toward the length | "12345" followed by a newline, under the default bounds 6..6 | a PIN of digits only, between the bounds | not executed | Auth.PinPolicyAcceptsNewline | Auth.PinPolicyOk |
