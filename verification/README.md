# PollHub voting system — a Dafny model

PollHub is a single-page poll application. An administrator creates polls,
edits them (every edit leaves a change record), puts them on hold, closes or
deletes them, imports a whitelist of e-mail addresses, and exports results.
Visitors vote once per poll under a device id kept in browser storage. A
restricted poll first asks the voter for an e-mail address on the whitelist.

This project models the application's logic as pure Dafny functions over
immutable datatypes, and proves what that logic guarantees:

- `Types` holds the records: polls, options, edit records, users and
  whitelist entries.
- `PollUtils` models poll creation. It also models the edit engine: the
  ordered change log, and the reconciliation that carries votes over by
  option id. It holds the rounded percentage, the winning option and the sum
  of vote totals.
- `AuthUtils` models the identity and whitelist helpers over an abstract
  key-value store that stands in for `localStorage`. `AuthUtils.IsAdmin` is
  the role test.
- `App` models each handler of the application shell as a function from one
  session state to the next: vote, status change, edit, delete, create,
  e-mail verification, admin login and logout.
- `FormValidation`, `CreatePollForm` and `EditPollForm` model the two poll
  forms: the option-row editing, the shared validation rule and what each
  form submits.
- `WhitelistManager` and `WhitelistTemplate` model the CSV import, the rule
  that accepts or rejects an upload, clearing the list, and the downloadable
  template. The template is proved to import back as its own three entries.
- `ResultsExport` models the export: the record per poll, the CSV summary and
  detail lines, and the JSON totals.
- `PollCard` models one poll card: when a click forwards a vote, which option
  is highlighted, how an option row looks, and the "recent changes" box.
- `Common` and `Strings` hold sequence and string helpers, mirroring
  JavaScript's `filter`, `find`, `trim`, `toLowerCase`, `split` and `join`.

Things the program draws from outside become parameters:

- Random ids come from a generator `mint: nat -> string`. `getUserId` takes
  the one random id it would draw as `freshId`.
- Clock readings are naturals passed as `now`.
- `formatDate` is a parameter, and so is `JSON.parse` for uploaded JSON files.

The model follows the code as written where it differs from the
application's own description:

- A vote naming an option id the poll does not have is not rejected. It
  still raises `totalVotes` and records the voter, and no option gains a
  vote. `App.UnknownOptionBreaksTally` shows that this breaks the
  total-equals-sum invariant.
- The restricted-poll gate only checks that the user has an e-mail. Any user
  with an e-mail attached votes.
- A CSV upload skips the rows without an e-mail and keeps the others. It is
  rejected only when no row is left. A JSON upload is rejected as a whole when
  any entry lacks an e-mail.
- `updatePoll` keeps a non-empty submitted option id verbatim, even one the
  poll never had. It does not recompute `totalVotes`, so an edit that drops
  an option leaves the total above the option sum. This is why the weaker
  invariant `App.Accounted` is the one that votes and edits both keep.

## Model

| member | source | states |
|---|---|---|
| PollUtils.CreatePoll | src/utils/pollUtils.ts:7-27 | one option per submitted text, in order, each with zero votes and a generated id; the poll id is drawn after the option ids; title, description and creation time copied; no votes, voters or history; active; restricted iff the form said so; the allowed e-mails kept only for a restricted poll |
| PollUtils.CreatedPollIsTallied | src/utils/pollUtils.ts:7-27 | a new poll's total equals its option sum and it has one distinct voter per vote (none) |
| PollUtils.CreatedIdsDistinct | src/utils/pollUtils.ts:3-15 | with a generator that never repeats, the option ids are pairwise distinct and differ from the poll id |
| PollUtils.RenameOf | src/utils/pollUtils.ts:59-63 | a rename line exists only for an old option whose id the first matching submitted option carries with another text, and it names the old text |
| PollUtils.Renames | src/utils/pollUtils.ts:58-64 | the rename pass yields at most one line per old option, only rename lines, and exactly the renames of the old options |
| PollUtils.RenamesConcat | src/utils/pollUtils.ts:58-64 | the rename pass over concatenated old options is the pass over the first part followed by the pass over the second: lines come in the old options' order |
| PollUtils.RenamesSingle | src/utils/pollUtils.ts:59-63 | one old option contributes exactly its own rename line, or nothing |
| PollUtils.TitleBlock | src/utils/pollUtils.ts:33-35 | a title line from the old to the new title exists iff the title changed |
| PollUtils.DescriptionBlock | src/utils/pollUtils.ts:38-40 | "Description updated" is logged iff the description changed |
| PollUtils.AddedBlock | src/utils/pollUtils.ts:43-50 | an "Added" line exists for a text iff it is submitted and no old option has it |
| PollUtils.RemovedBlock | src/utils/pollUtils.ts:52-56 | a "Removed" line exists for a text iff an old option has it and nothing submitted has it |
| PollUtils.AddedBlockConcat | src/utils/pollUtils.ts:43-50 | the "Added" lines of a concatenated submission are those of its first part followed by those of its second: submission order, duplicates kept |
| PollUtils.AddedBlockSingle | src/utils/pollUtils.ts:46-49 | one submitted option contributes exactly one "Added" line for its text when no old option has it, and none otherwise |
| PollUtils.RemovedBlockConcat | src/utils/pollUtils.ts:52-56 | the "Removed" lines over concatenated old options are those of the first part followed by those of the second: the poll's order, duplicates kept |
| PollUtils.RemovedBlockSingle | src/utils/pollUtils.ts:53-56 | one old option contributes exactly one "Removed" line for its text when nothing submitted has it, and none otherwise |
| PollUtils.ChangeLogContents | src/utils/pollUtils.ts:30-64 | the whole log holds each of those kinds of line under exactly those conditions |
| PollUtils.ChangeLogOrdered | src/utils/pollUtils.ts:30-64 | the log lists title, description, additions, removals and renames in that order |
| PollUtils.AsEditOptions | src/components/EditPoll.tsx:14-16 | the edit form's rows are the poll's (id, text) pairs in poll order |
| PollUtils.UnchangedSubmissionLogsNothing | src/utils/pollUtils.ts:30-64 | submitting a poll's own title, description and options (distinct ids) logs no change at all |
| PollUtils.CarriedVotes | src/utils/pollUtils.ts:68-72 | an option starts from the votes of the first old option with its id, and from 0 when there is none |
| PollUtils.Reconcile | src/utils/pollUtils.ts:66-74 | the new options follow submission order with the submitted texts; a non-empty id is kept verbatim and only an empty one is generated; votes are carried over by id |
| PollUtils.UpdatePoll | src/utils/pollUtils.ts:29-91 | the result has the reconciled options, the new title and description, the edit time set, and exactly one edit record appended holding the rendered change log and the admin; everything else, the total included, is carried over |
| PollUtils.SumCarriedBound | src/utils/pollUtils.ts:66-74 | with distinct non-empty old ids and distinct submitted ids, each old option's votes are carried over at most once |
| PollUtils.UpdateNeverAddsVotes | src/utils/pollUtils.ts:66-74 | under those conditions an edit never raises the option sum: removed options lose their votes and none are created |
| PollUtils.SurvivingOptionKeepsVotes | src/utils/pollUtils.ts:67-73 | an option submitted under an old id keeps exactly that option's votes |
| PollUtils.CalculatePercentage | src/utils/pollUtils.ts:93-96 | 0 for an empty poll, otherwise the integer nearest to 100·votes/total, halves rounding up |
| PollUtils.PercentageBounds | src/utils/pollUtils.ts:93-96 | a share of the total is at most 100, and all of it is exactly 100 |
| PollUtils.PercentageMonotone | src/utils/pollUtils.ts:93-96 | more votes never give a smaller percentage |
| PollUtils.WinnerIndex | src/components/PollCard.tsx:48-52 | the reduce picks an option with the most votes, and every earlier option has strictly fewer (the first maximum wins ties) |
| PollUtils.TotalVotesConcat | src/App.tsx:192 | the header total of two lists of polls is the sum of their totals |
| AuthUtils.SetWhitelistedUsers | src/utils/authUtils.ts:14-16 | writes the whitelist key and leaves every other key as it was |
| AuthUtils.WhitelistRoundTrip | src/utils/authUtils.ts:9-16 | reading the whitelist back after writing it gives the written list |
| AuthUtils.NoWhitelistIsEmpty | src/utils/authUtils.ts:9-12 | with nothing stored the whitelist is empty |
| AuthUtils.AnyEmailMatches | src/utils/authUtils.ts:20 | true iff some entry's e-mail equals the address once both are lower-cased |
| AuthUtils.IsUserWhitelisted | src/utils/authUtils.ts:18-21 | an address is whitelisted iff some stored entry has an e-mail equal to it after lower-casing both |
| AuthUtils.WhitelistCaseInsensitive | src/utils/authUtils.ts:18-21 | the answer does not depend on the case of the queried address |
| AuthUtils.AuthenticateAdmin | src/utils/authUtils.ts:23-26 | true iff the user name is "admin" and the password "admin123", compared exactly |
| AuthUtils.AdminCheckIsCaseSensitive | src/utils/authUtils.ts:23-26 | "Admin" or "ADMIN123" are refused, the exact pair is accepted |
| AuthUtils.GetUserId | src/utils/authUtils.ts:54-61 | a stored non-empty id is returned with the store unchanged; otherwise the fresh id is returned and stored; no other key changes |
| AuthUtils.GetUserIdStable | src/utils/authUtils.ts:54-61 | once a non-empty id is issued, every later call returns it and changes nothing, whatever id it would have drawn |
| AuthUtils.GetCurrentUser | src/utils/authUtils.ts:28-44 | the stored user when one decodes; otherwise a regular user with no e-mail carrying the id from `getUserId`, with that call's store effect |
| AuthUtils.SetCurrentUser | src/utils/authUtils.ts:46-48 | writes the session key and leaves every other key as it was |
| AuthUtils.CurrentUserRoundTrip | src/utils/authUtils.ts:28-48 | reading the current user back after storing one gives that user and touches nothing |
| AuthUtils.Logout | src/utils/authUtils.ts:50-52 | removes the session key and nothing else |
| AuthUtils.LogoutKeepsDeviceId | src/utils/authUtils.ts:28-61 | after logout the visitor is the default regular user with the same persisted id, and the whitelist is untouched |
| App.Bump | src/App.tsx:155-159 | every option whose id is the voted id gains one vote; ids, texts and other counts stay |
| App.SumVotesBump | src/App.tsx:155-159 | the option sum rises by the number of options carrying the voted id |
| App.VoteAll | src/App.tsx:152-170 | each poll with the id that the user has not voted in records the vote; every other poll stays |
| App.HandleVote | src/App.tsx:135-171 | a vote changes only the polls or only the e-mail prompt; when the prompt changes, it opens for this poll and the polls stay; when the first poll with the id is active and not gated on the e-mail, the polls become the `setPolls` map, which leaves every other poll as it was |
| App.VoteNeedsActivePoll | src/App.tsx:136-142 | an unknown poll id, or a first match that is not active, changes nothing |
| App.VoteNeedsEmail | src/App.tsx:144-148 | an active restricted poll and a user without e-mail: only the e-mail prompt opens |
| App.VoteAlreadyCast | src/App.tsx:152-154 | if the user already voted in every poll with the id, the polls do not change |
| App.VoteTwiceIsNoop | src/App.tsx:135-171 | voting a second time in the same poll, for any option, changes nothing |
| App.CastVoteEffect | src/App.tsx:154-166 | an accepted vote raises the named option and the total by one, appends the voter, and changes nothing else in the poll |
| App.CastVoteKeepsTally | src/App.tsx:152-170 | a new voter's vote for an option the poll has exactly once keeps total = option sum and distinct voters |
| App.UnknownOptionBreaksTally | src/App.tsx:155-165 | a vote for an option id the poll lacks still raises the total, so it ends one above the option sum |
| App.CastVoteKeepsAccounted | src/App.tsx:154-166 | any vote by a new voter keeps the option sum at most the total, with one distinct voter per vote |
| App.VoteKeepsAccounted | src/App.tsx:152-170 | `handleVote` keeps every poll accounted in that sense |
| App.TotalVotesOfVoteAll | src/App.tsx:152-170 | the header total rises by the number of polls that record the vote |
| App.VoteRaisesHeaderTotal | src/App.tsx:192 | an accepted vote in a poll with a unique id raises the header total by exactly one |
| App.HandleStatusChange | src/App.tsx:118-126 | polls with the id get the new status; other polls and the rest of the session stay |
| App.StatusChangeOnlyStatus | src/App.tsx:118-126 | a status change alters nothing but statuses, so the header total is unchanged |
| App.HandleUpdatePoll | src/App.tsx:102-112 | polls with the id are replaced by `updatePoll`'s result with the current user as editor; the others stay; the edit view closes |
| App.UpdateKeepsHeaderTotal | src/App.tsx:102-112 | an edit never changes the header total |
| App.UpdateKeepsAccounted | src/utils/pollUtils.ts:66-90 | with usable old ids and distinct submitted ids an edit keeps a poll accounted |
| App.ConfirmDeletePoll | src/App.tsx:128-133 | with a pending non-empty id, every poll with it is dropped and the pending id clears; otherwise nothing happens |
| App.DeleteRemovesExactly | src/App.tsx:128-133 | no poll with the id survives, every other poll does, and the survivors keep their order |
| App.WhitelistEmails | src/App.tsx:92 | one address per whitelist entry, in order, the entry's own e-mail |
| App.HandleCreatePoll | src/App.tsx:86-96 | a non-admin changes nothing; for an admin the new poll goes in front, restricted to the whitelist e-mails when asked, and the form closes |
| App.CreatePollPrepends | src/App.tsx:86-96 | the admin's new poll heads the list, is tallied and active, has the right allowed list, the old polls follow unchanged, and the header total stays |
| App.HandleEmailVerification | src/App.tsx:173-190 | an address not on the whitelist only sets the error; otherwise the e-mail and name are attached to the user and stored, the prompt closes, the error clears, and nothing else in the session changes |
| App.HandleAdminLogin | src/App.tsx:53-67 | wrong credentials only set the error; right ones make the user the admin carrying `getUserId`'s id, stored, with the login view closed and the error cleared, and nothing else in the session changes |
| App.HandleLogout | src/App.tsx:69-76 | the session key is removed and the user becomes the default user for the device id, which `getCurrentUser` stores; the create, edit and delete views close, and nothing else in the session changes |
| App.EmailVerificationKeepsIdentity | src/App.tsx:173-185 | verifying an e-mail keeps the user's id, role and persisted identity |
| App.AdminLoginKeepsIdentity | src/App.tsx:53-61 | logging in as admin changes the role, not the id the device already had |
| App.AdminLoginEstablishesIdentity | src/App.tsx:53-61 | a first admin login on a fresh device persists the id it issues |
| App.LogoutKeepsIdentity | src/App.tsx:69-72 | logging out leaves the regular user with the same persisted id |
| FormValidation.NonBlank | src/components/CreatePoll.tsx:50 | the kept entries are non-blank entries of the input |
| FormValidation.Normalized | src/components/CreatePoll.tsx:55 | each entry trimmed and lower-cased, position by position |
| FormValidation.OptionsCheck | src/components/CreatePoll.tsx:50-58 | a duplicate error iff two normalised options coincide, "too few" iff they are distinct but fewer than two, no error otherwise |
| FormValidation.ValidateIff | src/components/CreatePoll.tsx:39-62 | the form is accepted iff title and description are not blank, at least two options are not blank, and those are distinct after trimming and lower-casing |
| CreatePollForm.Initial | src/components/CreatePoll.tsx:12-15 | the form opens empty, public, with two empty option rows |
| CreatePollForm.AddOption | src/components/CreatePoll.tsx:21-25 | an empty row is appended while there are fewer than 8; otherwise nothing changes |
| CreatePollForm.RemoveOption | src/components/CreatePoll.tsx:27-31 | the row at the index goes while there are more than 2, the others keep their order; otherwise nothing changes |
| CreatePollForm.UpdateOption | src/components/CreatePoll.tsx:33-37 | only the row at the index changes, to the typed value |
| CreatePollForm.ChooseAccess | src/components/CreatePoll.tsx:177-206 | the radios set only the restriction flag, and "restricted" cannot be chosen while the whitelist is empty |
| CreatePollForm.NoWhitelistStaysPublic | src/components/CreatePoll.tsx:18-19 | with an empty whitelist a public form stays public whatever is clicked |
| CreatePollForm.StepKeepsRange | src/components/CreatePoll.tsx:21-31 | adding, removing or retyping keeps the row count between 2 and 8 |
| CreatePollForm.RowsStayInRange | src/components/CreatePoll.tsx:21-31 | any sequence of such actions keeps it between 2 and 8 |
| CreatePollForm.InitialInRange | src/components/CreatePoll.tsx:14-31 | from the opening form every reachable form has 2 to 8 rows |
| CreatePollForm.HandleSubmit | src/components/CreatePoll.tsx:64-77 | submits iff validation passes, with trimmed title and description, the non-blank rows untrimmed and the restriction flag |
| CreatePollForm.SubmissionIsClean | src/components/CreatePoll.tsx:39-77 | a submission has trimmed non-empty title and description, at least two non-blank options, distinct after normalising, each a row of the form |
| CreatePollForm.SubmissionKeepsRows | src/components/CreatePoll.tsx:69 | every non-blank row is submitted, and rows keep their relative order |
| CreatePollForm.SubmissionRevalidates | src/components/CreatePoll.tsx:39-77 | a submitted poll passes the same validation again |
| EditPollForm.InitialEdit | src/components/EditPoll.tsx:12-16 | the form opens on the poll's title, description and (id, text) rows |
| EditPollForm.AddOption | src/components/EditPoll.tsx:19-23 | a row with empty id and text is appended while there are fewer than 8 |
| EditPollForm.RemoveOption | src/components/EditPoll.tsx:25-29 | the row at the index goes while there are more than 2, the others keep their order |
| EditPollForm.UpdateOption | src/components/EditPoll.tsx:31-35 | only the text of the row at the index changes; its id stays |
| EditPollForm.RowsStayInRange | src/components/EditPoll.tsx:19-29 | any sequence of actions keeps between 2 and 8 rows |
| EditPollForm.InitialIdsFrom | src/components/EditPoll.tsx:14-16 | the opening rows' ids are poll ids with no repeat |
| EditPollForm.StepKeepsIds | src/components/EditPoll.tsx:19-35 | no action introduces a foreign or repeated non-empty id |
| EditPollForm.RunKeepsIds | src/components/EditPoll.tsx:19-35 | nor does any sequence of actions |
| EditPollForm.NonBlankRows | src/components/EditPoll.tsx:67 | the kept rows are non-blank rows of the form |
| EditPollForm.NonBlankRowsConcat | src/components/EditPoll.tsx:67 | the non-blank rows of two runs of rows are those of the first followed by those of the second |
| EditPollForm.NonBlankRowsSingle | src/components/EditPoll.tsx:67 | a single row is kept, with its id and untrimmed text, exactly when its text is not blank |
| EditPollForm.NonBlankRowsTexts | src/components/EditPoll.tsx:48-67 | the texts of the kept rows are the non-blank texts the validation looked at |
| EditPollForm.NonBlankRowsKeepIds | src/components/EditPoll.tsx:67 | dropping blank rows keeps the ids distinct and from the poll |
| EditPollForm.HandleSubmit | src/components/EditPoll.tsx:62-74 | submits iff validation passes, with trimmed title and description and the non-blank rows, ids kept |
| EditPollForm.SubmissionIsClean | src/components/EditPoll.tsx:37-74 | a submission has trimmed non-empty fields and at least two non-blank rows, distinct after normalising, each a row of the form |
| EditPollForm.SubmissionKeepsRows | src/components/EditPoll.tsx:62-74 | every non-blank row is submitted with its id, and the rows keep their order through any split point |
| EditPollForm.EditSessionNeverAddsVotes | src/components/EditPoll.tsx:11-74 | whatever the admin does on the form, the submitted edit yields options holding no more votes than before |
| WhitelistManager.TrimAll | src/components/UserWhitelistManager.tsx:30 | each cell trimmed, position by position |
| WhitelistManager.RowFieldsKeys | src/components/UserWhitelistManager.tsx:33-37 | a key is in a row's record iff some column with that header has a non-empty cell |
| WhitelistManager.RowFieldsLast | src/components/UserWhitelistManager.tsx:33-37 | a key holds the cell of the last such column: later columns overwrite earlier ones |
| WhitelistManager.KeptRecord | src/components/UserWhitelistManager.tsx:39-41 | a line contributes at most one record, and only one with an e-mail |
| WhitelistManager.CsvRows | src/components/UserWhitelistManager.tsx:29-42 | at most one record per data line, each with an e-mail |
| WhitelistManager.CsvRowsConcat | src/components/UserWhitelistManager.tsx:29-42 | the lines are read independently: parsing a + b is parsing a then b |
| WhitelistManager.RowWithoutEmailSkipped | src/components/UserWhitelistManager.tsx:39-41 | a line without an e-mail is skipped without rejecting the others; one with an e-mail is appended |
| WhitelistManager.NonBlankLines | src/components/UserWhitelistManager.tsx:26 | the lines kept are not blank |
| WhitelistManager.ParseCsv | src/components/UserWhitelistManager.tsx:24-42 | fails iff the content has no non-blank line; otherwise every record has an e-mail |
| WhitelistManager.HandleFileUpload | src/components/UserWhitelistManager.tsx:14-59 | no file does nothing; a non-empty list of entries with e-mails replaces the stored whitelist and is shown with the count; anything else only reports the error |
| WhitelistManager.UploadAllOrNothing | src/components/UserWhitelistManager.tsx:48-58 | an upload succeeds and the stored list becomes exactly the parsed one, or fails with the store and the shown list untouched |
| WhitelistManager.CsvAcceptedIffNonEmpty | src/components/UserWhitelistManager.tsx:24-55 | a CSV file is accepted iff it yields at least one record |
| WhitelistManager.OtherFileRejected | src/components/UserWhitelistManager.tsx:43-55 | a file that is neither CSV nor JSON is rejected and the store is untouched |
| WhitelistManager.ClearWhitelist | src/components/UserWhitelistManager.tsx:97-102 | the stored and the shown lists become empty, the status resets, and no other key changes |
| WhitelistManager.FullRowFields | src/components/UserWhitelistManager.tsx:33-37 | with distinct headers and every cell filled, the record maps each header to its cell and has no other key |
| WhitelistManager.CleanLineRecord | src/components/UserWhitelistManager.tsx:30-37 | a line of trimmed cells without commas reads back as the record of those cells |
| WhitelistManager.CleanLineKept | src/components/UserWhitelistManager.tsx:29-41 | such a line under a header with "email" is kept |
| WhitelistManager.CleanRowsParse | src/components/UserWhitelistManager.tsx:29-42 | clean data lines parse to one record each, in order |
| WhitelistManager.CleanLinesSurvive | src/components/UserWhitelistManager.tsx:26 | non-blank lines without breaks, joined by breaks, split back into the same lines |
| WhitelistManager.HeaderRoundTrip | src/components/UserWhitelistManager.tsx:27 | a clean lower-case header line reads back as its own keys |
| WhitelistManager.CsvRoundTrip | src/components/UserWhitelistManager.tsx:24-42 | CSV text written from a clean header with "email" and clean rows parses back to exactly one record per row |
| WhitelistTemplate.TemplateLines | src/components/UserWhitelistManager.tsx:78 | one comma-separated line per template entry, in order |
| WhitelistTemplate.TemplateTextLines | src/components/UserWhitelistManager.tsx:77-79 | the template text is the header line and the entry lines joined by breaks |
| WhitelistTemplate.EntryLine | src/components/UserWhitelistManager.tsx:78 | an entry's line is its three cells joined by commas |
| WhitelistTemplate.TemplateTextRoundTrip | src/components/UserWhitelistManager.tsx:76-79 | any non-empty list of clean entries, written as the template is, imports back as exactly those entries |
| WhitelistTemplate.TemplateRoundTrip | src/components/UserWhitelistManager.tsx:65-79 | the downloaded template imports as its three entries with e-mail, name and department |
| ResultsExport.ExportOptions | src/components/PollResultsExport.tsx:21-25 | each option's text, votes and rounded percentage, in order |
| ResultsExport.ExportEdits | src/components/PollResultsExport.tsx:29-33 | each edit's formatted time, changes and author, in order |
| ResultsExport.Project | src/components/PollResultsExport.tsx:13-34 | a poll has a record iff it has an option (the winner's reduce throws otherwise) |
| ResultsExport.ResultsData | src/components/PollResultsExport.tsx:13-34 | the export exists iff every poll has an option, and then has one record per poll, in order |
| ResultsExport.ProjectFields | src/components/PollResultsExport.tsx:13-34 | the record carries the poll's fields, each option's text and votes, and each edit's changes and author |
| ResultsExport.ExportHidesVoters | src/components/PollResultsExport.tsx:13-34 | the voters and the allowed e-mails do not affect the export |
| ResultsExport.WinningOptionIsFirstMax | src/components/PollResultsExport.tsx:26-28 | the winning option is the text of the first option with the most votes |
| ResultsExport.ExportedPercentagesBounded | src/components/PollResultsExport.tsx:21-25 | when the option sum does not exceed the total, every exported percentage is at most 100 |
| ResultsExport.SummaryRows | src/components/PollResultsExport.tsx:43-45 | one summary row per record, in order |
| ResultsExport.OptionLines | src/components/PollResultsExport.tsx:50-52 | one detail line per option of a record, in order |
| ResultsExport.DetailLinesCount | src/components/PollResultsExport.tsx:48-53 | one detail line per (poll, option) pair |
| ResultsExport.DetailLineAt | src/components/PollResultsExport.tsx:49-53 | the line of option o of poll p comes after all earlier polls' lines: poll-then-option order |
| ResultsExport.DetailLinesEnd | src/components/PollResultsExport.tsx:51 | every detail line ends with "%" and a line break |
| ResultsExport.NoBreakInRow | src/components/PollResultsExport.tsx:44 | a summary row whose fields have no break is a single line |
| ResultsExport.HeaderHasNoBreak | src/components/PollResultsExport.tsx:42 | the summary header is a single line |
| ResultsExport.SummaryOneLinePerPoll | src/components/PollResultsExport.tsx:42-45 | without breaks in the fields, the summary splits into the header and exactly one row per poll |
| ResultsExport.JsonDocument | src/components/PollResultsExport.tsx:59-64 | the JSON document exists iff the records do |
| ResultsExport.RecordVotesMatch | src/components/PollResultsExport.tsx:62 | the exported records' totals add up to the polls' vote total |
| ResultsExport.JsonTotals | src/components/PollResultsExport.tsx:59-64 | the poll count equals the number of records and the vote total is the sum of the records' totals |
| PollCard.CardVote | src/components/PollCard.tsx:31-46 | a forwarded vote names this poll and the clicked option |
| PollCard.CardVoteIff | src/components/PollCard.tsx:31-46 | the card forwards iff the poll is active and either the user lacks an e-mail on a restricted poll or has not voted |
| PollCard.Click | src/components/PollCard.tsx:186 | no click forwards while results are shown or the poll is not active |
| PollCard.ClickForwardsIff | src/components/PollCard.tsx:26-46 | a click forwards exactly when results are hidden and the poll is active, and only for a user who has not voted |
| PollCard.ForwardedClickCounts | src/App.tsx:135-170 | a forwarded click either opens the e-mail prompt or records the vote in that poll |
| PollCard.WinnerHighlight | src/components/PollCard.tsx:172 | with distinct ids an option is highlighted iff results are shown, a vote exists and it is the first most-voted option |
| PollCard.OneWinner | src/components/PollCard.tsx:172 | at most one option is highlighted |
| PollCard.OpenIffClickForwards | src/components/PollCard.tsx:177-186 | a row looks clickable exactly when clicking it forwards a vote |
| PollCard.RecentChanges | src/components/PollCard.tsx:128-144 | the box appears iff the poll was ever edited |
| PollCard.RecentChangesAccount | src/components/PollCard.tsx:139-144 | the box shows the first min(3, n) changes of the latest record and announces the rest iff n > 3, accounting for every change |
| Strings.Trim | src/components/CreatePoll.tsx:42 | the result has no leading or trailing whitespace, and is empty exactly when the input is blank |
| Strings.TrimSlice | src/components/EditPoll.tsx:70 | the trimmed text is the slice of the input after its leading whitespace, with only whitespace before and after it |
| Strings.TrimTrimmed | src/components/CreatePoll.tsx:72 | trimming a string without leading or trailing whitespace leaves it as it is |
| Strings.Split | src/components/UserWhitelistManager.tsx:26 | the pieces contain no separator, there is at least one, and joining them gives the input back |
| Strings.SplitJoin | src/components/UserWhitelistManager.tsx:30 | splitting a join of separator-free pieces gives the pieces back |
| Strings.NatToStringRoundTrip | src/components/PollResultsExport.tsx:44 | a number's decimal text reads back as the number |

## Left out

- The rendering (JSX, styles, icons, modals) is not modelled. The UI toggles `handleCreatePollClick`, `handleEditPoll` and `handleDeletePoll` in src/App.tsx only flip which view is open and are not modelled either.
- Storage is an abstract map. The poll list's load and save effects (src/App.tsx:30-51) are left out, together with their JSON encoding and the defaults applied when decoding old polls.
- Reading the uploaded file (`FileReader`) and the download plumbing (`Blob`, object URLs, the date in the file name) are not modelled. The model starts from the file's name and text.
- `JSON.parse` of an uploaded JSON file is a parameter. So is `formatDate`, since `Intl` formatting is outside the model. The JSON template and `JSON.stringify` layout are not modelled.
- `generateId` and `Math.random` are not modelled. Ids come from a supplied generator, and no model of base-36 text is attempted.
- The second `getUserId` in src/utils/pollUtils.ts:98-105 duplicates the one in authUtils and is not used by the core. It is not modelled separately.
- `Strings.Trim` and `Strings.Lower` treat only ASCII whitespace and ASCII letters. Unicode whitespace and case mapping are left out.
- PollUtils.CalculatePercentage: computed exactly on rationals. Floating-point rounding of `votes / totalVotes * 100` right at a .5 boundary is not modelled.
- ResultsExport.SummaryRows: fields are quoted without doubling embedded quotes, as the code does. The export therefore has no parse-back property, and only the line structure is proved.
- AuthUtils.IsUserWhitelisted: the code throws on a stored entry without an e-mail. The model treats such an entry as no match. The whitelist manager never stores one.
- AuthUtils.GetWhitelistedUsers: a stored value that is not a whitelist reads as the empty list. The code would throw on malformed JSON, or return whatever the JSON holds.
- AuthUtils.GetCurrentUser: a stored value that is not a user falls back to the default user. The code returns any value that parses as JSON.
- App.WhitelistEmails: an entry without an e-mail contributes "". The code would put `undefined` in the allowed list.
- PollUtils.UpdatePoll: the code calls `new Date()` twice, once for the edit record's timestamp and once for `lastEditedAt`. The model uses one `now` for both, so the two readings always agree.
- PollCard.WinningOption requires at least one option, because the card's `reduce` without a start value throws on an empty list. The export reports that case as no result.
- CreatePollForm.Step and EditPollForm.Step treat an update at an index the form does not show as doing nothing. The form never produces one.
- WhitelistTemplate.TemplateTextRoundTrip is stated for non-empty entry lists. The template has three entries.
- Concurrency between React state updates is not modelled. Each handler is one atomic transition on the latest state.
