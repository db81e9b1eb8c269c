# Glacier restore: manifest validation and object-key resolution

A Dafny model of the two request-handling steps of `glacier_restore.py`, the script that restores database backup objects from the S3 Glacier storage class. Each step walks the restore manifest: one record per request, with bucket, backup path, SQL server, instance and database names, an optional file name, a retrieval tier, an optional `MMDDYYYY` last-modified date and a requester e-mail.

- `csv_file_check` (module `Validation`) examines the records in order. For each record it adds the requester to the alert recipients, then lists the bucket under `path/server/instance/database`. An empty listing ends the walk with success. A missing mandatory field aborts the run, and so does a record with neither a file name nor a date.
- `file_name_check` (module `Resolution`) examines the records in order. When a record has no file name, the script puts a '0' in front of its date unless the date has eight characters, reorders it to `YYYYMMDD` and takes the first listed key that contains it. The part of that key after the last `/` is written into the record as its file name. When a record has a file name, the script probes that object. A failed probe removes the record from the restore list. The walk ends at the first record that resolves and returns the `(file name, key)` pair.

The storage service is a parameter. A prefix listing is a function `(bucket, prefix) -> ListResponse`, where the response either carries the keys under "Contents" in listing order or has no "Contents" entry. The existence probe is a function `(bucket, key) -> Exists | NotFound | OtherError`. An abort, or the crash on a response without "Contents", is an error value rather than a process exit. Modules: `Wrappers` (Option, Result), `Text` (substring test, `rindex`, leaf of a key), `Dates`, `Manifest` (records, prefix and key construction), `Validation`, `Resolution`.

Where the code cannot run as written, the model follows the evident intent:
- Line 149 builds the key from `file_name` before assigning it, and line 193 writes `s3.Object{...}` where a call is meant. The probed key is `prefix + "/" + file_name` (`Manifest.ObjectKey`).
- After a successful probe, line 227 returns `file_key`, which that path never assigns. When an earlier request in the same run took the date branch with a non-empty listing and matched nothing, `file_key` still holds the last key line 171 scanned for that request, and the script returns that stale key. With no such request, the name is unbound. The model returns the probed key.
- Line 137 calls `time.slepp`. The model treats it as the intended pause, which has no observable effect.

Where the code and its comments disagree, the model follows the code:
- An empty listing takes the `break` at line 78 and ends validation with success, although the comment at line 75 describes the listing as validating that the prefix exists.
- The search date is `YYYYMMDD`, which is what the slicing at line 168 produces. The comment at line 166 says `21-07-2021`.
- The script reads `response["Contents"]` without a guard. A listing with no "Contents" entry therefore crashes the run (`ContentsAbsent`) instead of taking the `break`.

## Model

| member | source | states |
|---|---|---|
| Text.LastIndexOf | glacier_restore.py:176 | `rindex`: finds a position holding the character exactly when the character occurs, with no later occurrence |
| Text.Leaf | glacier_restore.py:175-184 | the resolved name has no '/'; for a key with '/', key = prefix + "/" + name; for a key without '/', name = key |
| Text.LeafOfJoin | glacier_restore.py:149-176 | extracting the leaf undoes joining a directory and a '/'-free name |
| Dates.PadDate | glacier_restore.py:159-160 | the date is a suffix of the result and at most one '0' is added; the length is unchanged iff the date has 8 characters; the result has 8 characters iff the input has 7 or 8 |
| Dates.PadDateSettles | glacier_restore.py:159-160 | padding is idempotent exactly on 7- and 8-character dates |
| Dates.Take | glacier_restore.py:168 | Python's `s[0:n]`: the first n characters, or the whole string when it is shorter |
| Dates.Drop | glacier_restore.py:168 | Python's `s[n:]`: the characters after the first n, or the empty string when it is shorter |
| Dates.AlterDate | glacier_restore.py:168 | `s[4:] + s[0:4]` keeps the length and is a rotation by four places; strings shorter than four are unchanged (Python slice clamping) |
| Dates.RestoreAlteredDate | glacier_restore.py:168 | rotating the last four characters back to the front recovers the original date |
| Dates.AlterDateIsYearMonthDay | glacier_restore.py:166-168 | an 8-character MMDDYYYY date becomes YYYY + MM + DD |
| Dates.SevenDigitDate | glacier_restore.py:158-168 | "7212021" pads to "07212021" and is searched as "20210721", not the "21-07-2021" that the comment promises |
| Manifest.PartialPath | glacier_restore.py:68 | the prefix is path/server/instance/database: each of the four segments sits at its place, separated by single '/' characters, and the length is the four lengths plus three |
| Manifest.ObjectKey | glacier_restore.py:149 | the probed key is the prefix, a '/', then the file name |
| Manifest.DatabaseIsLeafOfPrefix | glacier_restore.py:148 | the database is the leaf of the prefix when it has no '/' |
| Manifest.ObjectKeyLeaf | glacier_restore.py:149 | the file name is recovered as the leaf of the key built from it |
| Manifest.MissingRequired | glacier_restore.py:80-81 | a field is missing iff the bucket, backup path, server, instance, database or retrieval tier is empty; the file name, date and e-mail are not required |
| Validation.CheckRecord | glacier_restore.py:76-132 | a record passes iff its listing is non-empty, no mandatory field is empty and a file name or date is present; it stops the walk iff its listing is empty; a listing without "Contents" fails with ContentsAbsent |
| Validation.Walk | glacier_restore.py:62-132 | the first record that does not pass decides: an empty listing ends with success, a failure aborts with that failure; recipients are every examined requester, in order, including the deciding one |
| Validation.CsvFileCheck | glacier_restore.py:59-78 | recipients grow by the requesters of exactly the examined records, in record order |
| Validation.WalkDecidedBy | glacier_restore.py:62-132 | the first failing or stopping record is the last one examined, and its check is the verdict |
| Validation.MissingFieldAborts | glacier_restore.py:81-97 | a reached record with a non-empty listing and an empty mandatory field aborts there |
| Validation.NoFileNameOrDateAborts | glacier_restore.py:118-132 | a reached record with neither a file name nor a date aborts there |
| Validation.EmptyListingStops | glacier_restore.py:76-78 | a reached record with an empty listing ends the walk with success after adding its requester |
| Validation.AllValidPasses | glacier_restore.py:62-137 | a manifest of passing records is examined to the end, every requester is added, and the run reports success |
| Validation.AbortIffReachedFailure | glacier_restore.py:62-137 | the run aborts iff some failing record is reached with every record before it passing |
| Validation.LaterRecordsUnchecked | glacier_restore.py:76-78 | records after the one that ended the walk do not affect the report |
| Validation.WalkPrefix | glacier_restore.py:62-78 | two manifests that agree up to the deciding record give the same walk |
| Resolution.FirstMatch | glacier_restore.py:170-172 | the first key in listing order that matches the date; no earlier key matches; None iff no key matches |
| Resolution.DateMatch | glacier_restore.py:172 | the test `partial_s3_path and sql_database_name and altered in file_key`: a key shorter than the date never matches |
| Resolution.DateMatchIff | glacier_restore.py:172 | a key matches iff the prefix and database name are non-empty and the key is some text, then the searched date, then more text |
| Resolution.EmbeddedDateMatches | glacier_restore.py:172 | a key that embeds the date anywhere matches iff the prefix and database name are non-empty |
| Resolution.SearchDate | glacier_restore.py:159-168 | the searched date has 8 characters for 7- or 8-character input, and rotating it back gives the padded date |
| Resolution.ResolveByDate | glacier_restore.py:162-190 | without a file name: unmatched iff no key matches; otherwise the key is the first listed key that matches, the prefix and database name are non-empty, and the name is the key's leaf |
| Resolution.ResolveByProbe | glacier_restore.py:191-227 | with a file name: resolves to (file name, key) iff the probe reports the object exists; otherwise dropped with the probe's outcome |
| Resolution.ResolveRecord | glacier_restore.py:155-227 | a missing "Contents" ends the run; without a file name the request is unmatched iff no listed key matches its search date, and otherwise resolves to the first matching key, named by its leaf; with a file name it resolves to (file name, key) iff the probe reports the object exists, and is otherwise dropped with the probe's outcome |
| Resolution.ProbedRecordResolves | glacier_restore.py:191-194 | a named request whose object exists resolves to its own name and the key built from it |
| Resolution.WithFileName | glacier_restore.py:177-184 | the update sets the file name and changes no other field |
| Resolution.FileNameCheck | glacier_restore.py:140-227 | corrected walk (see Findings): the outcome is the closed form `Expected`: examined requests up to the first that resolves, failed probes removed, the resolved request renamed, the rest untouched |
| Resolution.FirstDecisive | glacier_restore.py:142-227 | the position of the first request that resolves or whose listing lacks "Contents", with no earlier one doing so; None iff there is none |
| Resolution.Walk | glacier_restore.py:142-227 | corrected walk: it never grows the list, adds at most one requester per request examined, and adds at least the deciding one when a request resolves |
| Resolution.WalkMeetsExpected | glacier_restore.py:142-227 | corrected walk: the walk over the live list, which removes records in place and then examines the record that moved up, reaches that closed form |
| Resolution.ExpectedUndecided | glacier_restore.py:142-212 | corrected walk: with no request ending the walk, the outcome keeps exactly the surviving requests and adds every requester |
| Resolution.ExpectedResolvedAt | glacier_restore.py:142-189 | corrected walk: the first resolving request decides the outcome: survivors before it, it renamed, the rest untouched, requesters up to and including it |
| Resolution.ExpectedResolvedInPlace | glacier_restore.py:170-189 | with only unmatched requests before it, a resolving request is the single element of the list that changes, and the script's walk gives the same outcome as the corrected one |
| Resolution.ExpectedDropOne | glacier_restore.py:195-212 | corrected walk: one dropped request among unmatched ones is exactly the request removed from the list, and every requester is added |
| Resolution.ExpectedKeepsNamed | glacier_restore.py:191-194 | with only unmatched requests before it, a request that resolves under its own file name leaves the list as it was |
| Resolution.UnresolvedRunExaminesAll | glacier_restore.py:142-212 | corrected walk: if nothing resolves, every requester is added and exactly the failed-probe records are gone |
| Resolution.FirstResolvedWins | glacier_restore.py:142-189 | corrected walk: the first request that resolves ends the walk with its pair; earlier failed probes are removed, later requests are untouched |
| Resolution.FailedProbeRemovesOnlyThatRecord | glacier_restore.py:195-212 | corrected walk: one failed probe among unmatched requests shrinks the list by one, every other request keeps its order, and every requester is added (the script skips the request after the removed one) |
| Resolution.SuccessfulProbeKeepsList | glacier_restore.py:191-227 | with only unmatched requests before it, a successful probe leaves the list unchanged and returns the given name with its key; the script's check gives the same outcome, whatever follows |
| Resolution.DateResolutionUpdatesOnlyFileName | glacier_restore.py:175-189 | with only unmatched requests before it, a date match rewrites only that record's file name, to the key's leaf; the script's check gives the same outcome, whatever follows |
| Resolution.ExpectedUpdatesOnly | glacier_restore.py:175-189 | with only unmatched requests before it, a resolving request is renamed in place and every other request is kept |
| Resolution.SurvivorsAllKept | glacier_restore.py:142-212 | with no failed probe, every request stays in order |
| Resolution.SurvivorsAppend | glacier_restore.py:142-212 | removing the failed-probe records works segment by segment |
| Resolution.IndexOf | glacier_restore.py:197 | `list.remove` finds the first equal record: it is at that index and not earlier |
| Resolution.RemoveFirst | glacier_restore.py:197-212 | `list.remove` shrinks the list by one, takes out one copy of the record, and shifts only the records after it |
| Resolution.WalkAsWritten | glacier_restore.py:142-212 | the script's loop: after `remove` its position still advances; it never grows the list and adds at most one requester per request left to examine |
| Resolution.FileNameCheckAsWritten | glacier_restore.py:140-227 | the file name check as the script runs it: the list never grows and at most one requester is added per request |
| Resolution.AsWrittenAgreesWithoutDrops | glacier_restore.py:142-212 | for every input with no failed probe before the first request that ends the walk, the script's walk and the corrected walk give the same outcome |
| Resolution.AsWrittenAgreesUpToResolution | glacier_restore.py:142-212 | when only unmatched requests precede the first request that ends the walk, the script's walk and the corrected walk agree, whatever follows it |
| Resolution.CheckAgreesUpToResolution | glacier_restore.py:140-227 | the same agreement for the whole file name check with the run's listing and probe |
| Resolution.AsWrittenSkipsAfterRemoval | glacier_restore.py:142-212 | a failed probe followed by any request: the script removes the first request and never examines the second, even one that would resolve |
| Resolution.CorrectedDropsBoth | glacier_restore.py:142-212 | two failed probes in a row under the corrected walk: both requests are removed and both requesters are added |
| Resolution.MissingFilesDropBoth | glacier_restore.py:191-212 | two requests naming backup files absent from the bucket both fail their probes, so the pair above occurs |

## Left out

- Listing and probing the bucket (`list_objects_v2`, `Object.load`): foreign service calls, which are parameters of the model. A non-`ClientError` exception from the probe is not modelled, and neither is an exception raised by `list_objects_v2` itself at lines 76 and 155 (a missing bucket, denied access, an empty bucket name): a listing function always returns a response, so that crash has no counterpart in the model.
- The test at glacier_restore.py:100, `sql_database_name in bucket_contents`: it compares a string with the dictionaries of a listing, so it never holds, and the model has no step for it.
- Calendar validation of the date by `datetime.strptime` at glacier_restore.py:167: library parsing. The date is an opaque string, so a date that Python would reject with `ValueError` is still searched in the model.
- Composing and sending the alert e-mails, the HTML templates, `print`, `time.sleep` and `sys.exit`: I/O. An abort is an error value. Recipients are gathered but nothing is sent.
- The module-level S3 clients and the global timestamp (glacier_restore.py:51-56): environment setup. The global recipient list is a parameter and a result.
- Restore initiation, status polling, the in-place and multipart copy, and the size threshold: they are not in the source file modelled here.
- Resolution.ResolveByProbe: returns the probed key after a successful probe, not the stale or unbound `file_key` the script returns at line 227.
- Validation.CsvFileCheck: its own contract states only the recipients. The verdict is stated by Validation.Walk and the lemmas about the check.

## Findings

| source | as written | input that shows it | evidently intended | confidence | as-written member | corrected member |
|---|---|---|---|---|---|---|
| glacier_restore.py:142-212 | `restore_list.remove(data)` runs inside `for data in restore_list`, so the list iterator's position still advances after the removal | a request whose named file does not exist followed by any request: the first is removed, the second is never examined, stays on the list, and its requester is never added; when the second would resolve, the script returns no pair | every request is examined; each failed probe removes exactly its request | not executed; high (standard Python list-iterator semantics) | Resolution.AsWrittenSkipsAfterRemoval | Resolution.FileNameCheck |
