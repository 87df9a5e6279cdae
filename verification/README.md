# Google Drive helper (`driveCall.js`): a Dafny model of its decision logic

`driveCall.js` wraps the Google Drive v3 client for one folder: list, upload,
delete, download, "upload and replace", and a storage-quota report. Almost all
of it is a pass-through to remote calls. This project models the three pieces
that carry their own logic, and proves what they guarantee:

- **`formatBytes`** (module `ByteFormat`): divide by 1024 while the value is at
  least 1024 and a larger unit remains, over the unit list B, KB, MB, GB, TB.
  The byte count is a `real` and the unit an index into `Units`. Proved: the
  loop terminates, the index stays within the list, on exit the value is below
  1024 or the unit is TB, `value * 1024^index` gives the input back, and a
  unit above B carries a value of at least 1; together these four conditions
  (the normalized form) determine the result uniquely (`FormatIff`), which matches an
  independent threshold definition (`ExpectedUnit`). `getDriveStorage`'s three
  figures (total, used, `limit - usage`) go through the same function.
- **`verifyExistence`** (module `Existence`): scan a folder listing for the
  first entry whose name equals the file name exactly. The result is
  `Found(id)`, `NotFound` (the source's `""`) or `ListFailed` (the source's
  `undefined`, when the listing call throws and the error is only logged).
- **`uploadAndReplace`** (module `Replace`) over an abstract folder
  (`seq<Entry>` in listing order, module `Folder`): check, then delete the
  found entry, then upload; or only upload. The remote store's answers are a
  parameter `Remote(listOk, deleteOk, newId)`. Every remote failure is caught
  and logged in the source, so the sequence always reaches the upload. Proved:
  with unique ids, whatever the store answers, entries of other names are
  untouched; with the store answering every call and unique, non-empty ids (a
  fresh id for the upload), exactly the first entry of that name is replaced
  and nothing else changes, the name count afterwards is
  `max(count before, 1)`, and ids stay unique; starting from at most one entry
  of that name, under the same conditions, two calls in a row leave exactly
  one entry of that name after each call. After a failed listing, by
  contrast, the count rises by one (`Replace.ListFailedStillUploads`). The
  two-call fact treats the first upload as finished before the second call
  lists the folder, which the source does not wait for (see "## Left out").

Quirk modelled as written: `archivoID != ''` is true for `undefined`, so a
failed listing still calls `deleteFile(undefined)` (which the client rejects,
and the rejection is logged) and then uploads, leaving a duplicate beside an
existing file (`Replace.ListFailedStillUploads`). A failed check does not
abort: the delete and the upload still run. Likewise an entry whose id were
the empty string would read as "not found"; Drive never issues empty ids,
which the `Folder.WellFormed` invariant records.

Files: `optional.dfy` (Option), `byte_format.dfy`, `folder.dfy`,
`existence.dfy`, `replace.dfy`.

## Model

| member | source | states |
|---|---|---|
| ByteFormat.FormatBytes | driveCall.js:189-197 | The loop ends with an index in 0..4 and `symbol == Units[index]`; `value * 1024^index` equals the input; the value is below 1024 unless the unit is TB; a unit above B carries a value of at least 1; an input below 1024 comes back unchanged in B; the result equals the recursive definition `Format`. |
| ByteFormat.Reduce | driveCall.js:192-195 | Started at any unit index, the divide-and-step-up loop terminates (measure `4 - index`) at an index between the start and TB, with the value scaled back to the input, below 1024 unless at TB, and unchanged when it started below 1024. |
| ByteFormat.Symbol | driveCall.js:196 | The unit looked up by the final index is one of B, KB, MB, GB, TB (the lookup is in bounds). |
| ByteFormat.FormatIff | driveCall.js:191-195 | A scaled value is in the normalized form for an input (the exit conditions of the loop plus a value of at least 1 above B) if and only if it is what `formatBytes` returns for that input. |
| ByteFormat.NormalizedUnique | driveCall.js:192-195 | Two results in the normalized form (the exit conditions plus a value of at least 1 above B) for the same input are equal. |
| ByteFormat.FormatUnitByThresholds | driveCall.js:190-195 | The unit chosen is B below 1024, KB below 1024^2, MB below 1024^3, GB below 1024^4 and TB from 1024^4 on, so large inputs stay in TB with a large value. |
| ByteFormat.FormatExamples | driveCall.js:189-197 | 0 gives 0 B, 1024 gives 1 KB, 1536 gives 1.5 KB, 1024^4 gives 1 TB, 1024^5 gives 1024 TB. |
| ByteFormat.StorageReport | driveCall.js:176-179 | Total, used and available (`limit - usage`) are each formatted into a result satisfying the exit conditions for that figure. |
| Folder.RemoveId | driveCall.js:83-85 | The store's delete by id; its own contract only bounds the length (the result is no longer than the folder), and `Folder.RemoveIdMembers` and `Folder.RemoveIdAt` carry what it keeps and removes. |
| Folder.RemoveIdMembers | driveCall.js:81-85 | After deleting by id, the folder holds exactly the entries that carry another id. |
| Folder.RemoveIdAt | driveCall.js:83-85 | With unique ids, deleting the id of the entry at position k removes that entry and leaves the rest in order. |
| Folder.RemoveIdWellFormed | driveCall.js:83-85 | Deleting by id keeps ids unique and non-empty. |
| Folder.CountWithout | driveCall.js:110 | Removing one entry lowers the count of a name by one exactly when the entry carries that name. |
| Folder.OthersWithout | driveCall.js:110 | Removing an entry of name n leaves the sequence of entries with other names unchanged. |
| Existence.FirstNamed | driveCall.js:110 | When some entry carries the name, the position returned holds the name and no earlier entry does. |
| Existence.VerifyExistence | driveCall.js:99-117 | `ListFailed` exactly when the listing failed; `NotFound` exactly when the listing succeeded and no entry has the name; `Found` exactly when some entry has it, and then the id is that of the first such entry. |
| Existence.VerifyExistenceExample | driveCall.js:106-112 | In a folder holding a.txt and b.txt, a.txt is found by its id and c.txt is not found. |
| Replace.ShouldDelete | driveCall.js:129 | The loose test `archivoID != ''` on the value the check resolves to: a delete is issued unless the check returned the empty string, that is unless nothing was found; a failed listing (`undefined`) does lead to a delete. |
| Replace.Plan | driveCall.js:127-134 | The upload is always the last call; a delete comes before it exactly when the check result is not the empty id, carrying the found id, or no id after a failed listing. |
| Replace.UploadAndReplace | driveCall.js:127-134 | The folder afterwards is the folder after the delete step followed by the upload; no entry appears except the new upload, which is the last entry. |
| Replace.ReplaceWhenFound | driveCall.js:128-131 | With unique ids, when the first entry with the name is at k and carries a non-empty id, and the listing and the delete succeed, the result is the folder without position k followed by the new entry. |
| Replace.CreateWhenAbsent | driveCall.js:128-133 | When no entry has the name, whatever the store answers, the result is the folder followed by the new entry (if the upload succeeds). |
| Replace.ListFailedStillUploads | driveCall.js:114-131 | A failed listing plans a delete with no id and then the upload; the folder is kept and the new entry appended, so the name count rises by one. |
| Replace.DeleteFailedStillUploads | driveCall.js:86-89 | A failed delete is passed over: the old entry stays and the upload is appended. |
| Replace.OthersUntouched | driveCall.js:127-134 | With unique ids, whatever the store answers, the entries with other names are exactly those before, in the same order. |
| Replace.CountAfterReplace | driveCall.js:127-134 | With unique, non-empty ids and the store answering every call, the count of the name afterwards is 1 if it was 0, otherwise unchanged; so at most one before means exactly one after. |
| Replace.ReplacedEntryIsNew | driveCall.js:127-134 | With unique, non-empty ids and the store answering every call, with at most one entry of the name before and a fresh id for the upload, the only entry of that name afterwards is the new upload, whose id is none of the old ids. |
| Replace.ReplacePreservesWellFormed | driveCall.js:127-134 | Whatever the store answers, a fresh non-empty upload id keeps ids unique and non-empty. |
| Replace.ReplaceTwice | driveCall.js:127-134 | Starting from at most one entry of the name, with the store answering every call and the first upload given a fresh non-empty id, two calls in a row leave exactly one entry of the name after each call; the first upload is taken as complete before the second call's listing (the source does not await it). |

## Left out

- Client construction and credential loading (driveCall.js:1-20): a foreign library and secrets.
- The remote calls themselves and the query `'${folderId}' in parents`: the folder's listing is the sequence the model works on, and delete/create are operations on it.
- `listFilesInFolder`: it only lists and prints.
- `downloadFile`: streaming to a local file, started and not awaited; pure I/O.
- `uploadFiles` calls in `uploadAndReplace` are not awaited (driveCall.js:131, 133); the model runs the upload as the last sequential step and ignores its detached timing. Replace.ReplaceTwice relies on this: in the source, a second call can list the folder before the first upload lands, and two entries of the name can result.
- ByteFormat.FormatBytes: the `toFixed(2)` rendering to text is not modelled, only the numeric value and the unit; the model covers numeric inputs only. JavaScript numbers are doubles, and dividing a double of at least 1024 by 1024 is exact, so `real` loses nothing there. A non-number input that never enters the loop (`undefined`, or a string below 1024) reaches `toFixed` unchanged and throws a TypeError at driveCall.js:196; that failure is not modelled.
- ByteFormat.StorageReport: the remote fetch and printing are left out, and the figures are taken as numbers. The Drive API reports quota figures as decimal strings: a figure of at least 1024 becomes a number in the division, but one below 1024 (a usage of "0" on an empty account) reaches `toFixed` as a string and throws, and a missing `limit` (unlimited accounts) throws on the first line; the catch at driveCall.js:180-181 then ends the report early. The model does not cover these throws.
- The listing order is taken as stable from call to call, and a new upload is taken to be listed last; `files.list` is called without `orderBy` (driveCall.js:101-104), so the store promises neither. Replace.UploadAndReplace's clause that the upload is the last entry, the "same order" in Replace.OthersUntouched, and which duplicate counts as the first one on a later call (Replace.ReplaceWhenFound, Replace.CountAfterReplace with duplicates) depend on this.
- The listing is assumed to be the complete folder: the source makes one `files.list` call (driveCall.js:101-104) with no page loop and no filter on trashed files, so a same-name file past the first page is reported as not found and a duplicate is created. Replace.CountAfterReplace, Replace.ReplacedEntryIsNew, Replace.ReplaceTwice, Replace.ReplaceWhenFound and Replace.CreateWhenAbsent depend on this assumption (the listing the check sees is the whole folder).
- All `console.log` / `console.error` reporting.
- `app.js`: configuration only (environment variable, MIME lookup).
- Concurrent changes to the folder between the check and the upload: the model runs one call at a time.
