# el-cli knowledge-base pipeline, modelled in Dafny

This project models the part of the `el-cli` command-line tool that works on an
ElevenLabs conversational-AI knowledge base. It lists every document through the
cursor-paginated list endpoint. The backup command then fetches each document's
details, computes statistics, and writes the documents to disk under a
collision-safe naming policy. The delete command selects documents by id, name,
kind and ownership, passes them through two confirmation gates, and deletes them.
Two smaller commands search for url documents and upload a file.

The model replaces every outside effect with a value:
- The list endpoint is a finite sequence of page responses.
- The detail and delete endpoints are functions from the request number to a reply.
- The interactive prompts are the ids (or the path) the user picks.
- The file system is a set of names per directory.
- The current time is a parameter.

Modules:
- `Wrappers`, `Sequences`, `KbTypes` (`common.dfy`): `Option`, `filter`, and the document record.
- `Strings` (`strings.dfy`): the JavaScript string operations the code relies on.
  - `replace` with a string pattern replaces only the first occurrence, and expands the `$$`, `$&`, `` $` `` and `$'` patterns of the replacement text.
  - `split`/`join` on one character; `includes`; `endsWith`.
  - Number formatting and JavaScript truthiness of a string flag.
- `Pagination` (`pagination.dfy`): `getDocumentList`, as a method with a loop, proved against a specification function.
- `BackupNaming` (`naming.dfy`): `addCountToName`, `handleFileExists` and the file-name template.
- `BackupStats` (`stats.dfy`): the reducers, `calcStats` and `formatAge`.
- `BackupRun` (`backuprun.dfy`): the detail-fetch loop, the write loop, the index and merged files, and the composed backup.
- `Delete` (`delete.dfy`): listing, selection, the gates, and the delete loop.
- `ListUrl` (`listurl.dfy`) and `CreateFile` (`createfile.dfy`).

## Model

| member | source | states |
|---|---|---|
| `KbTypes.TypeName` | src/types/knowledgebase.ts:1-2 | each document kind has one of the three names "text", "file", "url" |
| `KbTypes.TypeNameInjective` | src/types/knowledgebase.ts:1-2 | distinct kinds have distinct names |
| `KbTypes.CountsOfTypesSum` | src/types/knowledgebase.ts:20 | every document has exactly one kind, so the per-kind counts add up to the number of documents |
| `Strings.ReplaceFirst` | src/commands/knowledgebase/backup.ts:308 | `replace` with a string pattern rewrites only the first occurrence, by the replacement with its `$` patterns expanded (literally when it holds no `$`); without an occurrence the string is unchanged |
| `Strings.SubstituteLiteral` | src/commands/knowledgebase/backup.ts:308 | a replacement text without `$` is inserted as it is |
| `Strings.SubstitutePatterns` | src/commands/knowledgebase/backup.ts:308 | in a replacement text `$&` stands for the matched text and `$$` for one `$`, so `a$$b` inserts `a$b` |
| `Strings.Split` | src/commands/knowledgebase/delete.ts:87 | `split` on one character returns at least one part, no part holds the separator, and joining the parts gives back the input |
| `Strings.EndsWithSepPart` | src/commands/knowledgebase/create/file.ts:36-38 | a string ends with a separator followed by a separator-free text exactly when that text follows its last separator |
| `Pagination.QueryFor` | src/utils/knowledgebase.ts:24 | every request asks for 100 documents; the cursor parameter is sent exactly when the cursor is not empty |
| `Pagination.FirstStop` | src/utils/knowledgebase.ts:23-45 | the loop stops at the first page that is non-ok or reports no more pages |
| `Pagination.RequestCount` | src/utils/knowledgebase.ts:23-45 | when some page stops the listing, the paginator sends one request per page up to and including the first such page; when none does, one per page |
| `Pagination.GetDocumentList` | src/utils/knowledgebase.ts:14-49 | the loop's outcome is the specified listing; the number of requests; request k carries the cursor of the page before it (none for the first); a delay after every ok page that reports more pages |
| `Pagination.CompleteListing` | src/utils/knowledgebase.ts:23-36 | N ok pages of which only the last has `has_more` false give exactly N requests and the in-order concatenation of their documents |
| `Pagination.FailureIsFatal` | src/utils/knowledgebase.ts:37-40 | a non-ok page reached by the loop ends the listing in failure with the cursor that was sent and the body, whatever follows it |
| `Pagination.ListedOnlyWhenAllOk` | src/utils/knowledgebase.ts:33-40 | a list is returned only when every page requested was ok, and it is their concatenation: no partial list |
| `Pagination.TwoPageScenario` | src/utils/knowledgebase.ts:17-44 | two pages with cursor "c1": the second request carries "c1", two requests are sent, and the list is the three documents in order |
| `BackupNaming.SplitName` | src/commands/knowledgebase/backup.ts:131-132 | a name with a dot is its stem, a dot and a dot-free extension; a name without a dot has an empty stem and is its own extension |
| `BackupNaming.AddCountToName` | src/commands/knowledgebase/backup.ts:113-121 | fails exactly when every numbered variant from the start up to 100 exists; otherwise it returns the smallest free variant, which does not exist |
| `BackupNaming.HandleFileExists` | src/commands/knowledgebase/backup.ts:123-143 | a free name is returned unchanged under every policy; on a collision replace keeps it, skip writes nothing, error is fatal, keep-both searches; only skip gives no name, and only replace can give an existing name |
| `BackupNaming.KeepBothSmallest` | src/commands/knowledgebase/backup.ts:113-121 | on a collision under keep-both the result is `stem(N).ext` for the smallest free N from 2, and the search fails only when 2 to 100 are all taken |
| `BackupNaming.KeepBothThird` | src/commands/knowledgebase/backup.ts:131-133 | when variant 2 exists and variant 3 does not, keep-both picks variant 3 |
| `BackupNaming.KeepBothScenario` | src/commands/knowledgebase/backup.ts:113-133 | with `doc.json` and `doc(2).json` present, `doc.json` resolves to `doc(3).json` |
| `BackupNaming.KeepBothAfterCreate` | src/commands/knowledgebase/backup.ts:113-133 | once the chosen name has been created, resolving the same name again never returns it a second time |
| `BackupNaming.DocumentFileName` | src/commands/knowledgebase/backup.ts:308-319 | a document's file name ends in `.json`, and what precedes it is the sanitised filled template |
| `BackupNaming.FillNoPlaceholder` | src/commands/knowledgebase/backup.ts:308 | a template without `{{` is used as it is |
| `BackupNaming.FillId` | src/commands/knowledgebase/backup.ts:308 | `{{id}}` between brace-free texts is replaced by the id, when the id holds no brace and no `$` |
| `BackupNaming.DefaultTemplate` | src/commands/knowledgebase/backup.ts:308 | the default template `{{id}}` names a document after its id when the id holds no brace and no `$` |
| `BackupNaming.DollarIdExpands` | src/commands/knowledgebase/backup.ts:308 | an id `$&` is expanded by `replace`: the default template gives back `{{id}}` |
| `BackupNaming.FillName` | src/commands/knowledgebase/backup.ts:308 | `{{name}}` gives the document's name when the name holds no brace and no `$` |
| `BackupNaming.FillType` | src/commands/knowledgebase/backup.ts:308 | `{{type}}` gives the document's kind name |
| `BackupNaming.FillTypeAndId` | src/commands/knowledgebase/backup.ts:308 | `{{type}}-{{id}}` gives the kind name, a dash and the id: both placeholders are filled |
| `BackupStats.RoundDiv` | src/commands/knowledgebase/backup.ts:224 | `Math.round` of a quotient is the nearest integer, halves rounded up |
| `BackupStats.NearestUnique` | src/commands/knowledgebase/backup.ts:224 | only one integer is nearest to a quotient |
| `BackupStats.BytesAppend` | src/commands/knowledgebase/backup.ts:210 | the byte total of two lists of documents is the sum of their totals |
| `BackupStats.CharactersAppend` | src/commands/knowledgebase/backup.ts:211 | the character total of two lists of documents is the sum of their totals |
| `BackupStats.UpdatedAppend` | src/commands/knowledgebase/backup.ts:218 | the last update of two lists of documents is the later of their last updates |
| `BackupStats.BytesBounds` | src/commands/knowledgebase/backup.ts:210 | when every size lies between two bounds, the byte total lies between the count times each bound |
| `BackupStats.Updated` | src/commands/knowledgebase/backup.ts:218 | the result is at least 0 and at least every document's last update, and it is 0 or one of them: the maximum seeded with 0 |
| `BackupStats.Average` | src/commands/knowledgebase/backup.ts:224 | an average is absent (NaN) exactly for no documents, and is otherwise the rounded quotient |
| `BackupStats.Age` | src/commands/knowledgebase/backup.ts:214-216 | the mean age is absent exactly for no documents, and is otherwise the rounded mean of now minus last update, in seconds |
| `BackupStats.CalcStats` | src/commands/knowledgebase/backup.ts:220-232 | the count is the number of documents; the totals are the sums; every average is the rounded quotient and absent exactly when there are no documents; tokens are a quarter of the characters rounded once; the last update is the maximum, seeded with 0 |
| `BackupStats.EmptyStats` | src/commands/knowledgebase/backup.ts:210-232 | no documents give zero totals, a zero last update and NaN averages |
| `BackupStats.CombinedStats` | src/commands/knowledgebase/backup.ts:205-239 | the combined statistics over text, file and url agree with the per-kind ones: counts, sizes and characters add up, and the last update is the latest of the three |
| `BackupStats.AverageSizeWithinBounds` | src/commands/knowledgebase/backup.ts:224 | the average size lies between the smallest and the largest document size |
| `BackupStats.AgeInUnits` | src/commands/knowledgebase/backup.ts:347-352 | the first unit whose length the age exceeds is chosen: years (at least 1), months (1-12), days (1-30), hours (1-24), minutes (1-60), otherwise the seconds themselves; each count is the age divided by that unit rounded to the nearest integer, halves up |
| `BackupStats.FormatAge` | src/commands/knowledgebase/backup.ts:344-354 | an age is rendered as its count and unit; NaN renders as "NaN seconds" |
| `BackupStats.PluralizeSingular` | src/commands/knowledgebase/backup.ts:345 | the noun takes no `s` exactly when the count is 1 |
| `BackupRun.FetchDetails` | src/commands/knowledgebase/backup.ts:174-199 | fetched plus failed is the number of listed documents; fetched counts the ok replies; the buckets are the specified ones; one delay per document |
| `BackupRun.FetchedMembership` | src/commands/knowledgebase/backup.ts:184-186 | a body is in bucket t exactly when the reply for a listed document of kind t was ok and carried it |
| `BackupRun.BucketSizes` | src/commands/knowledgebase/backup.ts:185-205 | the buckets together hold exactly as many documents as were fetched |
| `BackupRun.AllFetched` | src/commands/knowledgebase/backup.ts:174-199 | when every request succeeds, each bucket has one body per listed document of its kind |
| `BackupRun.FatalSticks` | src/commands/knowledgebase/backup.ts:319 | once a name cannot be resolved the run ends and later documents change nothing |
| `BackupRun.StepEffect` | src/commands/knowledgebase/backup.ts:318-325 | one iteration touches only the document's own kind: its written or skipped counter grows by one, files are only added, and under any policy but replace a write adds a new file |
| `BackupRun.WriteDocuments` | src/commands/knowledgebase/backup.ts:310-328 | the loop's outcome is the specified one over the documents in order; one delay per document handled |
| `BackupRun.TallyMatchesKinds` | src/commands/knowledgebase/backup.ts:319-325 | per kind, written plus skipped equals the number of documents of that kind |
| `BackupRun.WritesAddFiles` | src/commands/knowledgebase/backup.ts:319-322 | files are only added; each write adds at most one name; unless the policy is replace every write creates a new file |
| `BackupRun.OnlyErrorOrKeepBothFail` | src/commands/knowledgebase/backup.ts:127-139 | under replace or skip the write loop always handles every document |
| `BackupRun.WriteRootFile` | src/commands/knowledgebase/backup.ts:246-248 | the file is written under the namer's answer, which is added to the output directory; skipping leaves it unchanged and happens only for an existing name under skip; a fatal answer ends the run with the namer's message |
| `BackupRun.WriteRootFiles` | src/commands/knowledgebase/backup.ts:245-266 | with `--no-index` and without `--merge` nothing is written; existing files stay |
| `BackupRun.RootFilesResolved` | src/commands/knowledgebase/backup.ts:245-266 | the index is the namer's answer for `index.json` against the directory as found (unless `--no-index`); the merged file is its answer for `knowledgebase.json` against the directory with the index written (with `--merge`); the first fatal answer ends the run with its message |
| `BackupRun.RootFatalPolicies` | src/commands/knowledgebase/backup.ts:127-139 | only the error and keep-both policies can end the run at the root files, and only when one of them is wanted |
| `BackupRun.MergedKeepsIndex` | src/commands/knowledgebase/backup.ts:245-266 | the merged file never takes the name of the index written in the same run, and both are in the directory |
| `BackupRun.FreshRoot` | src/commands/knowledgebase/backup.ts:245-266 | in an empty output directory the index and merged files keep their own names |
| `BackupRun.WriteOutput` | src/commands/knowledgebase/backup.ts:245-328 | an error of the namer at the root files or in the write loop ends the backup with its message; otherwise it succeeds with the root files as resolved, and with the write loop's directories and counters unless `--merge` |
| `BackupRun.Backup` | src/commands/knowledgebase/backup.ts:174-328 | an error resolving the index or merged file, or in the write loop, ends the backup with its message; when neither fails the backup succeeds; on success fetched plus failed is the number listed, the statistics are those of the buckets, and the documents are written as the write loop specifies, or not at all with `--merge` |
| `Sequences.FilterMembership` | src/commands/knowledgebase/delete.ts:115-121 | a document survives a filter exactly when it was in the list and passes the test |
| `Sequences.FilterAppend` | src/commands/knowledgebase/delete.ts:115-121 | filtering keeps the order: filtering a concatenation concatenates the filtered parts |
| `Sequences.FilterCount` | src/commands/knowledgebase/delete.ts:115-121 | a filter keeps every copy of an element that passes the test and no copy of one that does not |
| `Sequences.FilterFilter` | src/commands/knowledgebase/delete.ts:115-121 | two filters in a row select what one filter by both tests selects |
| `Delete.Summarize` | src/commands/knowledgebase/delete.ts:68-74 | the summary keeps id, name, kind and ownership, and records whether there are dependent agents |
| `Delete.GetAllDocuments` | src/commands/knowledgebase/delete.ts:57-78 | a non-ok listing is fatal with its body; otherwise one summary per listed document, in order |
| `Delete.Ids` | src/commands/knowledgebase/delete.ts:87 | no argument gives no ids; an argument gives its comma-separated parts |
| `Delete.SomeIncluded` | src/commands/knowledgebase/delete.ts:103 | true exactly when some id occurs inside the string |
| `Delete.Pick` | src/commands/knowledgebase/delete.ts:99-112 | `--all` picks the listing; otherwise the id matches, in listing order, come first; only listed documents are picked, and the total is at most three times the listing's length |
| `Delete.PickCounts` | src/commands/knowledgebase/delete.ts:103-111 | without `--all` every listed copy of a document is picked once per test it passes (id, name included, name excluded), with no deduplication; so no document is picked more than three times as often as it is listed |
| `Delete.SelectCounts` | src/commands/knowledgebase/delete.ts:114-121 | the narrowing keeps every picked copy of a document of a requested kind (and the user's under `--only-owned`) and drops every copy of any other |
| `Delete.Narrow` | src/commands/knowledgebase/delete.ts:114-121 | narrowing only removes, and keeps only documents of a requested kind and, with `--only-owned`, the user's; without either flag it changes nothing |
| `Delete.Select` | src/commands/knowledgebase/delete.ts:99-121 | the selection holds only listed documents, at most three times as many entries as listed |
| `Delete.SelectedMembership` | src/commands/knowledgebase/delete.ts:99-121 | a document is selected exactly when it was listed, passes `--all` or the id test or a name test, has a requested kind, and with `--only-owned` is the user's |
| `Delete.AllIgnoresOtherTests` | src/commands/knowledgebase/delete.ts:99-101 | `--all` selects every listed document whatever the ids and name tests, unless kind or ownership narrow it |
| `Delete.EmptyIdMatchesAll` | src/commands/knowledgebase/delete.ts:87-103 | with partial matching, an empty id entry makes the id step select every listed document |
| `Delete.TrailingCommaIds` | src/commands/knowledgebase/delete.ts:87 | the argument "a," splits into "a" and an empty id |
| `Delete.ApplyGates` | src/commands/knowledgebase/delete.ts:123-165 | an empty selection or an empty confirmation leaves nothing; what remains is non-empty, part of the selection, confirmed unless `--yes-confirm`, and, for documents with dependent agents, confirmed again unless ignored; conversely every selected document passing both gates remains |
| `Delete.NoDependentsNeverGated` | src/commands/knowledgebase/delete.ts:148-159 | a confirmed document without dependent agents always reaches the delete loop |
| `Delete.PromptsSkipped` | src/commands/knowledgebase/delete.ts:129-159 | with `--yes-confirm` the first prompt's answer plays no part; with `--ignore-dependent-agents` the second's does not |
| `Delete.GatesKeepCopies` | src/commands/knowledgebase/delete.ts:129-159 | a selected document that is confirmed (or `--yes-confirm`) and, if it has dependent agents, confirmed again (or ignored) reaches the delete loop with every one of its copies |
| `Delete.MatchedTwiceGatedTwice` | src/commands/knowledgebase/delete.ts:99-165 | a listed document matching both the id test and `--name-includes`, and passing the narrowing and the gates, reaches the delete loop at least twice, its id twice among the loop's ids |
| `Delete.ContinueSendsTwice` | src/commands/knowledgebase/delete.ts:99-191 | with `--continue-on-error`, such a document gets at least two delete requests in what the run reports |
| `Delete.UnattendedDeletesSelection` | src/commands/knowledgebase/delete.ts:129-165 | with both prompts skipped the whole selection goes to the delete loop |
| `Delete.FirstFailure` | src/commands/knowledgebase/delete.ts:179-184 | the index of the first failed request, before which every request succeeded |
| `Delete.DeleteLoop` | src/commands/knowledgebase/delete.ts:168-191 | with `--continue-on-error` every document is tried and deleted plus failed is their number; without it the first failure aborts after the successes before it and nothing later is tried |
| `Delete.SecondOfThreeFails` | src/commands/knowledgebase/delete.ts:171-187 | of three deletes whose second fails, the abort comes at the second request after one success |
| `Delete.DeleteGated` | src/commands/knowledgebase/delete.ts:123-191 | nothing to delete reports zero counts without a request; otherwise the requests follow the gated documents in order: all of them, with both counts, under `--continue-on-error`; without it every one when none fails, else up to the first failure, which aborts with that document's message |
| `Delete.Run` | src/commands/knowledgebase/delete.ts:80-191 | a failed listing is fatal; otherwise the gates never pass on an empty list, and the run reports what the delete loop gives on the gated selection: zero counts and no request when nothing is left, the counts under `--continue-on-error`, otherwise the full count or the abort at the first failure |
| `ListUrl.Search` | src/commands/knowledgebase/list/url.ts:47-78 | without a url or a name it fails first; a non-ok listing fails; with a term and an ok listing (even an empty one) it always answers with its matches; the count is the number of results, the terms are returned as given, and every result is a listed url document with the given url and name |
| `ListUrl.FoundIff` | src/commands/knowledgebase/list/url.ts:61-69 | a listed document is found exactly when it is a url document whose url and name equal the given ones |
| `ListUrl.MatchesKeepOrder` | src/commands/knowledgebase/list/url.ts:61-69 | the results keep the listing's order |
| `CreateFile.ErrorMessage` | src/commands/knowledgebase/create/file.ts:28-34 | the message of a non-empty path contains the path |
| `CreateFile.ErrorMessageInjective` | src/commands/knowledgebase/create/file.ts:28-34 | the empty path, and only it, gives "No file selected"; distinct paths give distinct messages |
| `CreateFile.HasValidFileExtension` | src/commands/knowledgebase/create/file.ts:36-38 | a name is accepted exactly when it ends with a dot and one of the accepted extensions |
| `CreateFile.ValidIffExtension` | src/commands/knowledgebase/create/file.ts:36-38 | a name is accepted exactly when it has a dot and the text after its last dot is pdf, txt, epub, docx or html |
| `CreateFile.UpperCaseRefused` | src/commands/knowledgebase/create/file.ts:36-38 | the comparison is case-sensitive: `report.PDF` is refused |
| `CreateFile.ChosenPath` | src/commands/knowledgebase/create/file.ts:49-60 | a non-empty argument is the path; otherwise the selector's answer when it gives one, and the empty path on a cancellation |
| `CreateFile.Create` | src/commands/knowledgebase/create/file.ts:49-95 | an upload is requested exactly when the file exists and has an accepted extension; a missing file reports its message, a refused extension the type message; the request carries the path and the name flag when given; the outcome follows the response |
| `CreateFile.CancelledSelection` | src/commands/knowledgebase/create/file.ts:59-64 | cancelling the selector fails with "No file selected" and uploads nothing |
| `CreateFile.MissingBeforeExtension` | src/commands/knowledgebase/create/file.ts:62-68 | a missing file with a refused extension is reported as missing |
| `CreateFile.ArgumentSkipsSelector` | src/commands/knowledgebase/create/file.ts:51 | a file argument makes the selector's answer irrelevant |

## Left out

- HTTP transport, `response.json()` and JSON serialisation: the endpoints are oracles. In the backup's detail fetch, a body that is not JSON counts as a failed request (`DetailThrew`). Elsewhere the exception it raises is not modelled. Error bodies are carried as text, not re-serialised.
- The API key lookup in `src/utils/elevenlabs.ts`, including the "key not found" error of every command: src/utils/elevenlabs.ts is not part of this model.
- Delays: counted as events; their length (`--delay`, halved in the write loop) is not modelled.
- Progress bars, spinners, tables, colours, `linkPath`, `this.log` output and `truncOrPad`: display only.
- `R.shuffle` in the write loop: the loop runs over the documents in the order given. The lemmas about written and skipped counts and about files hold for any order, because they hold for every input sequence.
- `filenamify` is an uninterpreted function parameter. The output-directory date format (date-fns `format`), `formatDistanceToNow` and `Intl.NumberFormat` are left out. `path.join` normalisation is left out: a sub-directory is written "dir/kind".
- `Date.now()` is a parameter read once for the whole `age` reduction; the code reads the clock once per document.
- `BackupStats.CalcStats`: averages are computed in exact arithmetic. Floating-point error in the sums and quotients is not modelled, and the `tokens` reducer's sum of quarters is taken as exactly a quarter of the character total.
- `BackupStats.AgeInUnits`: the divisions by 60, 24, 30 and 365 are taken as one exact division.
- String lengths are counted in characters, not UTF-16 code units.
- `util.format` in the keep-both search: only the `%i` that the code inserts is filled in. Another `%` directive already present in a file name is not interpreted.
- `Pagination.GetDocumentList`: this outcome is not in the source; it exists only because the page sequence is finite. When the sequence runs out while the server still reports more pages, the outcome is `Unfinished`.
- `BackupRun.Backup`: starts from the listed documents, so the listing's own failure belongs to `Pagination.GetDocumentList`. The creation of the output directories is not modelled (`mkdirSync`).
- The `create url` and `create text` commands, `src/commands/user/config.ts` and `src/utils/format.ts`: outside the pipeline modelled here.
- Prompts: a checkbox answer is any list of ids. That the real prompt can only return offered ids does not matter, because the gates only keep selected documents.

Behaviour of the code that the model keeps as written:
- Without `--continue-on-error`, the first failed delete raises its error before `failedCount++`, so no counts are reported; the documents deleted before it stay deleted (`Delete.DeleteLoop`, `DeleteAborted`).
- The selection is never deduplicated. The id and name matches are concatenated, so a document matching two tests reaches the delete loop twice (`Delete.PickCounts`, `Delete.MatchedTwiceGatedTwice`). With `--continue-on-error` it gets a second delete request (`Delete.ContinueSendsTwice`); without it, a failure of the first request ends the run before the second.
- `addCountToName` recurses; `BackupNaming.AddCountToName` follows the recursion, with the same bound of 100.
