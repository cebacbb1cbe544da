# CivicAi-AutoBot outbound pipeline — a Dafny model

This project models the decision logic of the AutoBot outbound-email pipeline. Leads come in through a bulk text import or a CSV import. Import and enqueue create `GENERATE_EMAIL` jobs. The cron job runner turns each pending job into a signed sales email in the `email_outbox` table. Admin endpoints then move those emails from draft to approved, edit them, append text to them, export and archive them, and switch sending on or off. The sender picks today's least-used warmed-up account and sends the oldest approved emails within that account's daily limit.

Every database table is a sequence of rows, oldest first, so "order by created_at ascending" is position order. The following are parameters of the model:
- the language model's replies;
- the JSON parser;
- the mail transport;
- database read and write errors;
- new ids and the clock.

Each HTTP handler is a function or method from the request and the tables before the call to the response and the tables after it.

Modules, following the source layout:
- `Wrappers`, `Seqs`, `Text`, `Json`, `Http`, `Csv`: results, sequences, the JavaScript string operations the code uses (`trim`, `split`, `join`, `indexOf`, `toLowerCase`), loose request values with their truthiness and `Number(...)`, responses, and CSV quoting.
- `Leads`, `Outbox`, `Jobs`: the tables and `src/lib/jobs.ts`'s queue operations.
- `Warmup`: the per-account daily limit and the choice of today's sender.
- `Dispatch`: `src/lib/sendOutboxBatch.ts`.
- `StatusApi`, `BulkAppend`, `Archive`, `SendingSwitch`: the admin endpoints on the outbox and the sending switch.
- `LeadImport`, `Enqueue`: `bulk-leads`, `bulk-csv` and `jobs/enqueue`.
- `SalesEmail`: `generateSalesEmail` in `src/lib/openaiClient.ts`.
- `CronJobs`: `cron-processJobs`.
- `Drafts`: `src/lib/processors.ts`.
- `LinkedInGenerate`: `admin/linkedin-generate`.

Where parts of the code disagree, the model follows each part as written:
- `cron-processJobs` does not look at a job's type. Every fetched job is written as a sales email through `generateSalesEmail`. `processJob` in `processors.ts` is never called by it.
- `bulk-leads` writes DM jobs of type `GENERATE_LINKEDIN_DM`, without the final `S`, and `processJob` ignores that type (`Drafts.ImportedDmJobIsIgnored`).
- `bulk-csv` writes its jobs to the table `jobs`, while the rest of the code uses `marketing_jobs`. The model keeps the imported jobs apart as `newJobs` and does not merge them into the runner's queue.
- `processors.ts` writes the sender into `sender_account_id`, while the sender code reads and writes `sender_id`.
- The cron runner reads `autoApprove === true` strictly, so a payload `autoApprove: 1` gives a draft (`CronJobs.StrictApproval`). `enqueue` and `processors.ts` use truthiness.
- `enqueue` defaults the language to `nl`, and the cron runner defaults it to `en` (`CronJobs.EnqueuedDefaultIsDutch`).
- `bulk-csv.ts` exports only an App Router handler, `POST(req: NextRequest)`, from a file under `src/pages/api`. The pages router serves a file's default export, so as deployed this endpoint does not answer. The model describes the handler's logic as written (`LeadImport.BulkCsv`).
- `pickSenderForToday` counts today's sent emails with a `head: true` query, which returns no rows, so every account's `used` is 0 and the tie-break alone picks the sender. The model keeps `used` an input.

## Model

| member | source | states |
|---|---|---|
| Jobs.EnqueueJob | src/lib/jobs.ts:14-34 | the new job is appended as the newest row, pending, with the given type, lead and payload; earlier rows are unchanged and ids stay unique |
| Jobs.GetPendingJobs | src/lib/jobs.ts:37-47 | the fetch returns only pending jobs, as many as there are pending up to `limit` |
| Jobs.PendingJobsAreOldest | src/lib/jobs.ts:37-47 | the fetched jobs are exactly the pending jobs before a cut-off position, in table order (oldest first): no newer pending job is taken while an older one is left; the cut is short of the table only when `limit` jobs were taken |
| Jobs.MarkJobStatus | src/lib/jobs.ts:49-61 | only the row with that id changes, and of the modelled columns only its status and error; the error is recorded exactly when a non-empty message is given |
| Warmup.CalcWarmupLimit | src/lib/jobs.ts:68-87 | without a warmup start the limit is the daily cap; from day 5 on it is the cap; before that it is the ramp value 5, 10, 20, 30 or 40 of the elapsed day, with every day up to 0 counting as day 0 |
| Warmup.NoWarmupIgnoresToday | src/lib/jobs.ts:68-73 | with no warmup start the limit is the account's daily cap, whatever the day |
| Warmup.FalsyCapIsFifty | src/lib/jobs.ts:72-86 | a missing or zero `max_per_day` counts as 50 once warmup is over or absent |
| Warmup.WarmupSteps | src/lib/jobs.ts:80-84 | during the first days of warmup the limit is 5 on day 0 or earlier, then 10, 20, 30, 40 per elapsed day |
| Warmup.WarmupLimitValues | src/lib/jobs.ts:68-87 | the limit is always one of the staircase values or the daily cap, and from day 5 on it is the cap |
| Warmup.WarmupMonotone | src/lib/jobs.ts:72-86 | for a cap of at least 40 the limit never decreases as the days pass |
| Warmup.SmallCapRampOvershoots | src/lib/jobs.ts:80-86 | for a cap below 40 the staircase exceeds the cap during warmup (a cap of 10 allows 40 on day 4) |
| Warmup.FirstLeastUsed | src/lib/jobs.ts:128-136 | the index chosen has the smallest sent count, and no earlier slot has the same count (the sort is stable) |
| Warmup.PickSenderForToday | src/lib/jobs.ts:89-137 | fails exactly when no account is active; returns none exactly when every active account is at its limit; otherwise returns an active account with room that has sent no more than any other active account with room; on a tie it is the first such account in listing order |
| Warmup.ActiveSlotsCover | src/lib/jobs.ts:90-125 | the candidate accounts are exactly the active ones: every active account has a slot, and every slot belongs to an active account |
| Dispatch.BatchSize | src/lib/sendOutboxBatch.ts:16-22 | the batch never exceeds the account's remaining room or the requested maximum, and is empty exactly when either is used up |
| Dispatch.SelectBatch | src/lib/sendOutboxBatch.ts:24-30 | the batch holds only eligible emails (approved, not sent, unassigned), as many as there are up to the batch size |
| Dispatch.SelectBatchIsOldestEligible | src/lib/sendOutboxBatch.ts:24-30 | the batch is the oldest approved, not yet sent, unassigned emails, without duplicates, at most the batch size |
| Dispatch.StampRecordsOutcome | src/lib/sendOutboxBatch.ts:53-75 | after an attempt the row carries the sender and is no longer eligible; a delivered row is sent at `now`, a rejected one failed with the transport's reason; the address, subject and body are untouched |
| Dispatch.SendEach | src/lib/sendOutboxBatch.ts:37-76 | every batch row is stamped with its own attempt's outcome, every other row is unchanged, and the count is the number of delivered attempts |
| Dispatch.SendApprovedBatchOnce | src/lib/sendOutboxBatch.ts:10-84 | a sender failure or no capacity leaves the table as it was; otherwise the oldest eligible emails up to the batch size are attempted, each ends sent or failed with the sender recorded, and the reported remaining room is the room minus the number sent |
| Dispatch.PickedSlotHasBatchRoom | src/lib/sendOutboxBatch.ts:11-22 | a picked sender always leaves room for a non-empty batch, so `LimitReached` from the batch path needs a non-positive maximum |
| Dispatch.SendSingleOutboxEmailNow | src/lib/sendOutboxBatch.ts:90-144 | no sender or no room is reported before the row is read; a missing row fails with the database's single-row error, a row that is not approved and a transport failure are errors, and all three leave the table; an approved row under the limit that is delivered always succeeds, reporting one sent from the account's address with one less of the room, and only that row changes: to sent, with the sender and `now`, keeping its address, subject and body |
| StatusApi.EmailStatus | src/pages/api/admin/email-status.ts:9-37 | a verb other than POST is refused; succeeds exactly for POST with id and status given, the status draft, approved, declined or archived, and no database error; then only the row with that id changes, to the new status and time; `sent` and `failed` are refused; a database error is a server error with its message or `Server error`; every failure leaves the table unchanged |
| StatusApi.EmailBulkStatus | src/pages/api/admin/email-bulk-status.ts:17-55 | a verb other than POST is refused; succeeds exactly for POST with a non-empty id list, an allowed status (draft, approved, sent, failed, declined or archived) and no database error; then every listed row and no other takes the new status, and the count reported is the number of ids asked for; a database error is a server error; every failure leaves the table unchanged |
| StatusApi.BulkStatusCountsIds | src/pages/api/admin/email-bulk-status.ts:43-50 | the count is of ids requested, not rows updated: an unknown id reports 1 and changes nothing |
| StatusApi.EmailUpdate | src/pages/api/admin/email-update.ts:9-50 | a verb other than POST is refused and a missing id is a bad request; a database error is a server error with the database's message; an unknown id fails with the single-row error; otherwise the given fields replace the row's, the omitted ones stay, and the updated row is returned |
| BulkAppend.AppendBody | src/pages/api/admin/email-bulk-append.ts:47-48 | the new body ends with the text; a blank body becomes the text alone, otherwise the trimmed body, a blank line, then the text |
| BulkAppend.AppendBodyInverse | src/pages/api/admin/email-bulk-append.ts:47-48 | removing the appended text gives back the trimmed old body and separator |
| BulkAppend.AppendTwice | src/pages/api/admin/email-bulk-append.ts:47-48 | appending twice stacks the texts in order with one separator between them |
| BulkAppend.AppendedIsTrimmed | src/pages/api/admin/email-bulk-append.ts:28-48 | appending a trimmed text gives a trimmed, non-empty body |
| BulkAppend.FoundRows | src/pages/api/admin/email-bulk-append.ts:31-42 | the rows read are those with a listed id, at most the fetch limit of them, as many as there are up to it |
| BulkAppend.FailedUpdate | src/pages/api/admin/email-bulk-append.ts:45-57 | there is an update error exactly when some found row's own update fails, and the error reported is one of those rows' errors |
| BulkAppend.EmailBulkAppend | src/pages/api/admin/email-bulk-append.ts:13-64 | a verb other than POST is refused; no ids or a blank text are bad requests; a failed read is a server error; none of these changes anything; otherwise every found row whose own update succeeds gets the appended body and a new update time, and no other row changes; the call succeeds, reporting the number of rows found, exactly when every found row's update succeeds, and is otherwise a server error with a failed row's message |
| BulkAppend.AppendTouchesOnlyBody | src/pages/api/admin/email-bulk-append.ts:50-53 | appending never changes a row's subject, status or sender, and a changed row was listed and ends with the text |
| Csv.EscRoundTrip | src/pages/api/admin/email-archive-approved.ts:53-57 | an escaped field reads back as the original text, whatever quotes it contains |
| Csv.RecordRoundTrip | src/pages/api/admin/email-archive-approved.ts:78-92 | a row of escaped fields joined by commas reads back as the fields |
| Csv.RecordsRoundTrip | src/pages/api/admin/email-archive-approved.ts:78-94 | the export's lines read back as exactly the exported records |
| Archive.ExportRows | src/pages/api/admin/email-archive-approved.ts:29-41 | the export holds only approved rows of the outbox, as many as there are up to the export limit, and is empty exactly when none is approved |
| Archive.Dedup | src/pages/api/admin/email-archive-approved.ts:62-64 | the lead ids are distinct, non-empty, and include every non-empty id given |
| Archive.LeadById | src/pages/api/admin/email-archive-approved.ts:65-76 | a lead found has the id asked for; none found means no fetched lead has it |
| Archive.ExportIsNewestFirst | src/pages/api/admin/email-archive-approved.ts:29-34 | the export is the approved rows from a cut-off position to the end of the table, newest first; the cut-off is past the start only when the export is full |
| Archive.ArchiveApproved | src/pages/api/admin/email-archive-approved.ts:14-112 | a verb other than POST is refused; a failed read, or a failed update when something was exported, is a server error that changes nothing; otherwise the call succeeds: with nothing approved the export is empty and nothing changes, and otherwise the CSV is the header and one parsable record per exported row, exactly the exported rows become archived, and the archived count is their number |
| Archive.ExportCsv | src/pages/api/admin/email-archive-approved.ts:78-94 | the export is the header line followed by one CSV record per row, which `Csv.RecordsRoundTrip` reads back; with no rows it is the header alone |
| Archive.ArchiveWhere | src/pages/api/admin/email-archive-approved.ts:96-104 | exactly the rows whose id was exported become `archived`, with every other column kept; all other rows are unchanged |
| SendingSwitch.StoredValue | src/pages/api/admin/sending-toggle.ts:23-25 | a missing settings row reads as on; a row reads as on only when its flag is true |
| SendingSwitch.CurrentValue | src/pages/api/admin/sending-toggle.ts:8-27 | a failed read reads as on, and off is reported only after a successful read of an off or empty flag |
| SendingSwitch.NewValue | src/pages/api/admin/sending-toggle.ts:40-62 | an explicit boolean is taken as is; otherwise the current value is flipped, and a failed read turns sending off |
| SendingSwitch.SendingToggle | src/pages/api/admin/sending-toggle.ts:8-97 | GET reports the current value and writes nothing; POST writes the new value and reports it unless the write fails; other verbs are refused |
| SendingSwitch.ExplicitSetIdempotent | src/pages/api/admin/sending-toggle.ts:40-42 | setting the same explicit value twice leaves the same state as setting it once |
| SendingSwitch.ToggleTwiceRestores | src/pages/api/admin/sending-toggle.ts:45-62 | two toggles in a row return the switch to its first value |
| SendingSwitch.UnreadableToggleTurnsOff | src/pages/api/admin/sending-toggle.ts:51-55 | a toggle whose read fails turns sending off |
| LeadImport.ParseLine | src/pages/api/admin/bulk-leads.ts:14-26 | a parsed line always has an email containing `@`, trimmed, and a company only when it has a name |
| LeadImport.ParseFieldsDecides | src/pages/api/admin/bulk-leads.ts:18-26 | a line is kept exactly when its last field contains `@`; the email is the last field, the name the first field exactly when there are at least two, the company the second exactly when there are at least three |
| LeadImport.ParseLineOfJoin | src/pages/api/admin/bulk-leads.ts:18-26 | any number of trimmed comma-free fields joined by commas parse back as that last field, first field and second field, or as nothing when the last field lacks `@` |
| LeadImport.ParseLines | src/pages/api/admin/bulk-leads.ts:11-29 | there is at most one lead per input line, and every lead read has a trimmed email containing `@` |
| LeadImport.FormatRowParses | src/pages/api/admin/bulk-leads.ts:18-26 | a lead written as `email`, `name,email` or `name,company,email` parses back as the same lead |
| LeadImport.ParseLinesRoundTrip | src/pages/api/admin/bulk-leads.ts:11-29 | the lines of a list of leads, joined by newlines, parse back as exactly that list |
| LeadImport.EmailAndDmJobs | src/pages/api/admin/bulk-leads.ts:72-94 | two pending jobs per inserted lead, in lead order: first the cold email job, then the LinkedIn DM job, each with its fixed payload |
| LeadImport.BulkLeads | src/pages/api/admin/bulk-leads.ts:31-114 | POST only; missing text or no valid line is a bad request that adds nothing; otherwise every parsed lead is added in order, with an email job and a DM job each when `makeJobs` is truthy |
| LeadImport.CleanRow | src/pages/api/admin/bulk-csv.ts:19-30 | a row is kept exactly when its email, trimmed and lower-cased, contains `@`; a non-string email is an error; empty names and companies become null |
| LeadImport.CleanRows | src/pages/api/admin/bulk-csv.ts:19-30 | a successful clean keeps at most one lead per row, each with an email containing `@` |
| LeadImport.CleanRowsFailsIff | src/pages/api/admin/bulk-csv.ts:19-30 | cleaning fails exactly when some row has an email that is present but not a string |
| LeadImport.CleanEmailIdempotent | src/pages/api/admin/bulk-csv.ts:21-22 | cleaning an email twice is the same as cleaning it once |
| LeadImport.LanguageFor | src/pages/api/admin/bulk-csv.ts:59 | a lead's job language is `nl` exactly when the email ends in `.nl`, otherwise `en` |
| LeadImport.FirstContactJobs | src/pages/api/admin/bulk-csv.ts:50-71 | one pending email job per imported lead, in order, with that lead's language |
| LeadImport.BulkCsv | src/pages/api/admin/bulk-csv.ts:5-84 | no rows is a bad request, a non-string email a server error, no valid row a bad request, and none of these adds anything; otherwise the cleaned leads are added in order, with one job each when `makeJobs` is truthy |
| Enqueue.NormalisePayload | src/pages/api/jobs/enqueue.ts:24-28 | the stored language is the given one or `nl`, the approval flag is the truthiness of the given one, and the context is the given one or empty |
| Enqueue.NormaliseIdempotent | src/pages/api/jobs/enqueue.ts:24-28 | normalising a normalised payload changes nothing |
| Enqueue.EnqueueRequest | src/pages/api/jobs/enqueue.ts:9-31 | only POST of a `GENERATE_EMAIL` job with a lead id succeeds; it appends one pending job with the normalised payload and returns it; every refusal leaves the queue unchanged |
| Enqueue.EnqueuedJobIsFetchedLast | src/lib/jobs.ts:37-47 | a newly enqueued job is fetched after every job that was already pending |
| SalesEmail.StrippedHasNoSignOff | src/lib/openaiClient.ts:65-68 | after stripping, no sign-off phrase remains anywhere in the text |
| SalesEmail.StripWithoutSignOff | src/lib/openaiClient.ts:65-68 | a reply with no sign-off phrase is only trimmed |
| SalesEmail.CutFromIsLeftmost | src/lib/openaiClient.ts:65-67 | the removal starts at the first sign-off phrase: no phrase starts between the search start and the cut |
| SalesEmail.SubjectPrefixRemoved | src/lib/openaiClient.ts:81-82 | a leading `Subject:` label is removed from the subject line |
| SalesEmail.LinesOfSigned | src/lib/openaiClient.ts:71-80 | the signed text's non-blank lines are the reply's followed by the greeting and the sign-off |
| SalesEmail.EmailIsSigned | src/lib/openaiClient.ts:14-95 | the subject and body are never empty and the body always ends with the sign-off; the default subject is used exactly when the first line is blank, with the whole signed text as body |
| SalesEmail.EmptyReplySubjectIsGreeting | src/lib/openaiClient.ts:62-84 | an empty reply gives the greeting as subject and the sign-off alone as body |
| CronJobs.Language | src/pages/api/cron-processJobs.ts:42-44 | a missing language gives English; Dutch exactly for `nl` |
| CronJobs.CronLimit | src/pages/api/cron-processJobs.ts:18 | a missing or falsy limit is 20, a non-zero number is kept |
| CronJobs.CronLimitOfSignedString | src/pages/api/cron-processJobs.ts:18 | a limit sent as a signed decimal string is read with its sign |
| CronJobs.Outcome | src/pages/api/cron-processJobs.ts:29-67 | a job succeeds exactly when its lead read succeeds and finds a lead with an email, the model replies and the insert succeeds, and then inserts the `DraftRow` of the reply for that lead; otherwise it fails with the read error, the single-row error for a missing lead (also for a job without a lead), the missing-email message, the reply error or the insert error, in that order |
| CronJobs.DraftRow | src/pages/api/cron-processJobs.ts:53-65 | the outbox row goes to the lead's address with the lead's id, `approved` exactly when `autoApprove` is `true` and `draft` otherwise |
| CronJobs.Settle | src/pages/api/cron-processJobs.ts:69-80 | the job ends done exactly on success and failed otherwise, with the error recorded when it has a message, and nothing else changes |
| CronJobs.WritesPerJob | src/pages/api/cron-processJobs.ts:26-81 | every job gets two status writes: `processing`, then `done` on success or `failed` on error |
| CronJobs.RunJobs | src/pages/api/cron-processJobs.ts:23-81 | processed plus failed is the number fetched, one email is inserted per processed job, and each fetched job is settled by its own outcome |
| CronJobs.SettledAfterRun | src/pages/api/cron-processJobs.ts:26-81 | after the run every fetched job's row is done exactly when its own outcome succeeded and failed otherwise, with its payload and lead kept |
| CronJobs.ProcessJobsRequest | src/pages/api/cron-processJobs.ts:9-94 | non-POST is refused and changes nothing; a bad limit is a server error; otherwise the oldest pending jobs up to the limit are run and the counts reported |
| CronJobs.InsertedEmailIsSigned | src/pages/api/cron-processJobs.ts:42-67 | every inserted email has a non-empty subject and a body that ends with the sign-off, and is the sales email for the job's language |
| CronJobs.NoEmailFails | src/pages/api/cron-processJobs.ts:36-39 | a lead without an email fails its job with the missing-email message |
| CronJobs.StrictApproval | src/pages/api/cron-processJobs.ts:54-55 | `autoApprove: 1` is truthy, yet the row the runner writes for it is a draft |
| CronJobs.EnqueuedDefaultIsDutch | src/pages/api/cron-processJobs.ts:42-44 | a job enqueued without language is written in Dutch, while the same payload with the runner's own default would be English |
| Drafts.JsonSpan | src/lib/processors.ts:143-146 | the span runs from the first opening to the last closing bracket when these enclose something, and is the whole reply otherwise |
| Drafts.JsonSpanOfWrapped | src/lib/processors.ts:143-146 | JSON surrounded by prose without brackets is cut out exactly |
| Drafts.JsonSpanIdempotent | src/lib/processors.ts:143-146 | cutting the span twice gives the same span |
| Drafts.ReplyText | src/lib/processors.ts:51-85 | a failed call passes its error on, an empty reply is an error, otherwise the trimmed reply |
| Drafts.TrimmedOr | src/lib/processors.ts:153-157 | a non-blank string gives its trim, a falsy or blank value the fallback, any other value an error |
| Drafts.EmailText | src/lib/processors.ts:142-157 | an unparsable reply gives the default subject and the raw reply as body; the subject is always non-empty and trimmed |
| Drafts.EmailTextOfWrappedJson | src/lib/processors.ts:142-157 | a reply with a JSON object with non-blank subject and body gives exactly their trims |
| Drafts.HandleGenerateEmail | src/lib/processors.ts:91-187 | no lead id or no lead email writes nothing; a failed or empty reply and an unreadable payload pass on their error; with a lead address and a usable reply the draft is stored unless the insert fails; a draft goes to the lead's address from the oldest active sender, approved exactly when `autoApprove` is truthy, with the subject and body that `EmailText` reads from the reply |
| Drafts.NoLeadNoDraft | src/lib/processors.ts:108-111 | a missing lead or email adds no draft whatever the reply |
| Drafts.LinkedInCount | src/lib/processors.ts:197-200 | the count is the payload's when it is a number in (0, 100], otherwise 20 |
| Drafts.LinkedInItems | src/lib/processors.ts:241-255 | an array gives its non-blank string elements trimmed, in order; another parse result gives none; an unparsable reply gives itself as one item unless blank |
| Drafts.LinkedInItemsOfCleanArray | src/lib/processors.ts:247-251 | an array of clean strings is stored item for item |
| Drafts.HandleGenerateLinkedIn | src/lib/processors.ts:194-280 | fails exactly when the reply is unusable or there are items and the insert fails, with that error; otherwise one draft row of the given kind per item, in order, or nothing when there are no items |
| Drafts.StoreItems | src/lib/processors.ts:257-275 | no items stores nothing and cannot fail; otherwise one draft row of the job's kind per item, in order, and the call fails exactly when the insert reports an error |
| Drafts.ProcessJob | src/lib/processors.ts:28-45 | an email job is handled by the email generator, a post or DM job by the LinkedIn generator with its kind, and an unknown type does nothing |
| Drafts.ImportedDmJobIsIgnored | src/lib/processors.ts:28-45 | the DM job type the bulk import writes is not routed anywhere |
| LinkedInGenerate.Total | src/pages/api/admin/linkedin-generate.ts:24-25 | the total is between 1 and 50: 10 when missing or not positive, otherwise the count capped at 50 |
| LinkedInGenerate.TotalOfSignedString | src/pages/api/admin/linkedin-generate.ts:24-25 | a count sent as `+n` gives n capped at 50, and as `-n` the default 10 |
| Json.StringToNumber | src/pages/api/cron-processJobs.ts:18 | `Number` of a trimmed string: empty is 0, decimal digits are their value, a `0x`, `0o` or `0b` spelling is never negative and a leading minus never positive |
| Json.SignedDigits | src/pages/api/cron-processJobs.ts:18 | a sign in front of decimal digits is honoured: `+12` reads as 12 and `-12` as -12 |
| Json.NumberOfPrefixed | src/pages/api/admin/linkedin-generate.ts:24-25 | hexadecimal, octal and binary spellings read as their value in that base, and a minus sign in front of one makes it NaN |
| Json.NumberOfDecimal | src/pages/api/admin/linkedin-generate.ts:24-25 | the decimal spelling of a count converts back to that count |
| LinkedInGenerate.GeneratedItems | src/pages/api/admin/linkedin-generate.ts:30-38 | generation succeeds exactly when every call does, giving one draft per call in call order; otherwise the error is the first failure's |
| LinkedInGenerate.GenerateAll | src/pages/api/admin/linkedin-generate.ts:30-38 | the generation loop agrees with the reference definition `Generated`: one draft per call in call order, stopping at the first failed call with its error |
| LinkedInGenerate.GenerateRequest | src/pages/api/admin/linkedin-generate.ts:9-55 | POST of type `post` or `dm` only; success exactly when all calls and the insert succeed, adding the drafts and reporting the total; any failure leaves the table unchanged |
| LinkedInGenerate.NeverNothingGenerated | src/pages/api/admin/linkedin-generate.ts:40-42 | the "nothing generated" branch cannot be reached: a successful run always has at least one item |

## Left out

- Network, database and model calls are parameters. Database errors are modelled where they decide the answer of the admin outbox endpoints (`StatusApi`, `BulkAppend`, `Archive`), the sending switch, the job runner's lead read and insert, the generators' inserts and the single-row read of a send. The other database errors, which the code turns into a 500 or a thrown error, are not modelled:
  - the lead and job inserts of `bulk-leads` (bulk-leads.ts:65-67 and 100-105) and `bulk-csv` (bulk-csv.ts:45-47 and 65-67);
  - the insert of `enqueue` (jobs.ts:32, answered at enqueue.ts:32-34);
  - the read of pending jobs (jobs.ts:45, answered at cron-processJobs.ts:88-93);
  - the account read and the per-account count read of `pickSenderForToday` (jobs.ts:94 and 120), which throw; the model's sender choice cannot fail except for having no active account;
  - the read of the batch in `sendApprovedBatchOnce` (sendOutboxBatch.ts:32);
  - the status writes of the batch (sendOutboxBatch.ts:53-61 and 66-74) and of `sendSingleOutboxEmailNow` (sendOutboxBatch.ts:128-136), whose results the code ignores.
- Time stamps are an abstract `now`. The date arithmetic of the warmup (`diffDays` from the start date) is an input to `Warmup.CalcWarmupLimit`.
- The prompt texts are left out, because they only shape the model's reply. The language choice they depend on is modelled (`CronJobs.Language`).
- The file name of the archive export is left out.
- Floating-point numbers and non-integer counts are left out, because request numbers are integers here.
- Json.ToNumber: `Number` is modelled for null, booleans, integers and strings holding an optional sign and decimal digits, a `0x`, `0o` or `0b` spelling, or nothing but white space. Arrays (`[]` is 0, `[7]` is 7), fractions, exponents (`"1e1"` is 10) and `"Infinity"` all read as NaN here, because the model has no non-integer numbers and no array conversion.
- CronJobs.CronLimit: inherits the `Json.ToNumber` gaps, so a limit of `[7]` or `"1e1"` is a server error here, while the source fetches 7 or 10 jobs.
- CronJobs.ProcessJobsRequest: a NaN or negative limit answers with a server error. This assumes the database rejects such a `.limit(...)`; the database's behaviour is not part of this model. Its message, `invalid limit`, is a placeholder for the database's own.
- LinkedInGenerate.Total: inherits the `Json.ToNumber` gaps, so a count of `[7]` or `"1e1"` gives the default 10, while the source generates 7 or 10 items.
- LeadImport.CleanRow: only ASCII letters are lower-cased. JavaScript's `toLowerCase` also maps other Unicode capitals, so `"JOSÉ@x.nl"` is stored as `"josé@x.nl"` by the source and as `"josÉ@x.nl"` here.
- BulkAppend.EmailBulkAppend: the per-row updates run concurrently with `Promise.all`. The model applies them in table order. The rows are distinct, so the table afterwards is the same. The read of the bodies (`.in("id", ids).limit(5000)`) names no order, so which rows a read of more than 5000 returns, and in what order, is up to the database; the model takes the first ones in table order. When several updates fail, the message of the source's 500 is that of the first failure in time; the model reports the first failed row in that read order.
- Jobs.MarkJobStatus: the `updated_at` column is not modelled. A failure of the status write is not modelled either. The source throws it (jobs.ts:63):
  - in the runner, a failed `processing` or `done` write sends the job to its `catch`, so a failed `done` write counts the job as failed after its email was inserted;
  - a failed `failed` write escapes to the handler's 500 (cron-processJobs.ts:88-93) and stops the jobs after it.
- CronJobs.Outcome: an error's message is the given string. JavaScript's `err?.message \|\| String(err)` formatting is not modelled.
- LinkedInGenerate.GenerateRequest: `generateLinkedInPost` and `generateLinkedInDM` are not defined in `src/lib/openaiClient.ts`, so their results are the oracle `content`.
- Drafts.HandleGenerateEmail: the active senders' ids are an input, oldest first. The user prompt's wording is not modelled.
- Warmup.PickSenderForToday: each account's sent count for today is an input. The source's count query is not modelled. Its `head: true` form is described above.
- SalesEmail.GenerateSalesEmail: has no contract of its own. Its properties are stated by `SalesEmail.EmailIsSigned`, `SalesEmail.LinesOfSigned` and `SalesEmail.EmptyReplySubjectIsGreeting`.
