# KeePass allow-list cleanup, modelled in Dafny

This project models the core of `tools/cleanup_kdbx.py`. The tool opens a
KeePass database and reads an allow-list of e-mail addresses from one column of
a CSV file. It then deletes every entry under the requested groups whose
address is not on the list. In dry-run it only reports what it would delete.

The model is split into one module per part of the tool:

- `Wrappers`: `Option` and `Result`.
- `Errors`: the situations in which the tool raises `CleanupError`.
- `Text`: Python's `str.strip` and `str.lower` and the tool's `normalize_email`.
- `Store`: the in-memory KeePass tree as the tool sees it. Groups and entries
  are values. The opened database is a class `Database` whose `root` field is
  replaced by `DeleteEntry`, the model of `kp.delete_entry`. An entry is
  identified by its KeePass UUID.
- `GroupPath`: `resolve_group`. It is a specification function `Resolve` and a
  method `ResolveGroup` with the source's loop.
- `Identity`: `extract_entry_email` and the candidate field order.
- `AllowList`: the column choice and set building of `read_allowed_emails`.
  The CSV file is given as its header list and its rows, each row a map.
- `Cleanup`: `delete_obsolete_entries`. It has two methods with the source's
  nested loops. The outer loop, `DeleteObsoleteEntries`, is proved against
  the specification function `RunPaths`, which gives the tree and the report
  after a pass over a list of group paths. The inner loop, `DeleteEach`, is
  proved against `Obsolete` (the entries not kept, in order) and `Prune` (the
  tree without them). The lemmas about `RunPaths` state what the pass
  promises.
- `Tool`: the part of `main` between reading the allow-list and saving.
- `Examples`: concrete runs on small trees, including the two behaviours that
  follow from deleting each entry as soon as it is decided.

## Model

| member | source | states |
|---|---|---|
| Text.StripChars | tools/cleanup_kdbx.py:84 | `s.strip(chars)` is never longer than `s`. What is left neither starts nor ends with a stripped character. It is empty exactly when every character of `s` is stripped. |
| Text.StripCharsUnchanged | tools/cleanup_kdbx.py:84 | A string that neither starts nor ends with a stripped character is returned unchanged. |
| Text.StripCharsPadding | tools/cleanup_kdbx.py:84 | Adding stripped characters on either side of a string does not change what strip returns. |
| Text.NormalizeEmail | tools/cleanup_kdbx.py:81-87 | `normalize_email` is `None` exactly when the input is `None`, empty or whitespace only. Otherwise it is non-empty and no longer than the input, has no whitespace at either end, and holds no upper-case ASCII letter. |
| Text.NormalizeTrimmed | tools/cleanup_kdbx.py:81-87 | A value with no whitespace at either end normalises to its lower-cased self. |
| Text.NormalizeIdempotent | tools/cleanup_kdbx.py:81-87 | Every non-`None` result of `normalize_email` is a fixed point of it. |
| Text.NormalizeIgnoresPadding | tools/cleanup_kdbx.py:84 | Whitespace added on either side of a value does not change its normal form. |
| Text.NormalizeIgnoresCase | tools/cleanup_kdbx.py:87 | Two values that are equal after lower-casing have the same normal form. |
| Text.LowerIdempotent | tools/cleanup_kdbx.py:87 | Lower-casing twice is the same as lower-casing once. |
| Store.CollectEntriesPreorder | tools/cleanup_kdbx.py:115-120 | `collect_entries(g)` is the group's own entries, then the blocks of its subgroups in order. Subgroup `k`'s block is exactly `collect_entries` of that subgroup. |
| Store.CollectEntriesLength | tools/cleanup_kdbx.py:115-120 | The length of `collect_entries(g)` is the number of entries in the subtree. |
| Store.CollectEntriesMembers | tools/cleanup_kdbx.py:115-120 | An entry is collected exactly when it is one of the group's own entries or is collected from one of its subgroups. |
| Store.CollectEntries | tools/cleanup_kdbx.py:115-120 | `collect_entries(g)` starts with the group's own entries. |
| Store.Database.DeleteEntry | tools/cleanup_kdbx.py:143 | The new tree is the old tree with every entry of that UUID removed. Groups are kept. |
| Store.Prune | tools/cleanup_kdbx.py:143 | Deleting a set of UUIDs keeps each group's name and number of subgroups. A group keeps exactly its entries whose UUID is not deleted. |
| Store.CollectPrune | tools/cleanup_kdbx.py:143 | After a deletion, the collected entries are the earlier ones without the deleted entries, in the same order. |
| Store.PrunePrune | tools/cleanup_kdbx.py:143 | Two successive deletions are the same as one deletion of both sets. |
| Store.PruneNothing | tools/cleanup_kdbx.py:143 | Deleting nothing leaves the tree unchanged. |
| GroupPath.Split | tools/cleanup_kdbx.py:102 | `split("/")` gives at least one piece, and no piece contains a slash. |
| GroupPath.JoinSplit | tools/cleanup_kdbx.py:102 | Joining the pieces of a split with `/` gives back the string. |
| GroupPath.SplitJoin | tools/cleanup_kdbx.py:102 | Splitting slash-free pieces joined with `/` gives back the pieces. |
| GroupPath.NonEmpty | tools/cleanup_kdbx.py:102 | `[part for part in parts if part]` holds exactly the non-empty pieces. |
| GroupPath.NonEmptyAppend | tools/cleanup_kdbx.py:102 | Dropping empty pieces distributes over concatenation, so the kept pieces stay in order and keep their number. |
| GroupPath.Segments | tools/cleanup_kdbx.py:102 | Every segment of a path is non-empty and slash-free. |
| GroupPath.SegmentsAreNonEmptyPieces | tools/cleanup_kdbx.py:102 | For every path, with slashes at the ends or doubled inside, the segments are the non-empty `/`-separated pieces in order. |
| GroupPath.SegmentsOfJoin | tools/cleanup_kdbx.py:102 | A path written as segments joined by single slashes has exactly those segments. |
| GroupPath.SegmentsEmptyIffSlashes | tools/cleanup_kdbx.py:102-104 | A path is rejected as empty exactly when it consists of slashes only, the empty path included. |
| GroupPath.FindChild | tools/cleanup_kdbx.py:108 | The result is the index of the first subgroup whose name equals the segment exactly. It is `None` exactly when no subgroup has that name. |
| GroupPath.Walk | tools/cleanup_kdbx.py:106-111 | Following the segments one subgroup at a time fails only with "not found" naming one of the segments. |
| GroupPath.Resolve | tools/cleanup_kdbx.py:100-112 | `resolve_group` raises the empty-path error exactly when the path has no segments. Any other error is "not found" naming one of the path's segments. |
| GroupPath.ResolveGroup | tools/cleanup_kdbx.py:100-112 | The loop returns `Resolve(root, path)`. That is the empty-path error when there are no segments. Otherwise it is the walk from the root, one exactly named subgroup per segment. |
| GroupPath.WalkEndsAtName | tools/cleanup_kdbx.py:107-112 | The resolved group is named by the last segment. |
| GroupPath.WalkAppend | tools/cleanup_kdbx.py:107-111 | Walking `a + b` is walking `a`, then walking `b` from the group reached. A failure in `a` is kept. |
| GroupPath.WalkFailure | tools/cleanup_kdbx.py:107-110 | A failed walk raises "not found". It names a segment of the path and the name of the group reached by the segments before it, which has no subgroup of that name. |
| GroupPath.WalkWithin | tools/cleanup_kdbx.py:107-112 | Every entry collected under a resolved group is an entry of the starting tree. |
| GroupPath.ResolvePrune | tools/cleanup_kdbx.py:100-112 | Deleting entries changes neither which group a path resolves to nor the error it raises. The resolved group loses only the deleted entries. |
| Identity.FirstCandidate | tools/cleanup_kdbx.py:92-96 | The loop over candidate fields finds nothing exactly when every field normalises to `None`. A value it finds is in normal form. |
| Identity.FirstCandidateIsFirst | tools/cleanup_kdbx.py:92-96 | The value found comes from some field `k`, and every field before `k` normalises to `None`. |
| Identity.ExtractEntryEmail | tools/cleanup_kdbx.py:90-97 | An address, when there is one, is non-empty and in normal form. |
| Identity.ExtractEntryEmailPriority | tools/cleanup_kdbx.py:90-97 | The result is the `email` field's normal form if there is one. Otherwise it is the `e-mail` field's (the order of line 36). Otherwise it is the normal form of the username, which may be `None`. |
| AllowList.Matches | tools/cleanup_kdbx.py:58 | A header is among the matches exactly when it equals the column name ignoring case. |
| AllowList.MatchesFirst | tools/cleanup_kdbx.py:58-63 | `matches[0]` is the first header that equals the column name ignoring case. |
| AllowList.SelectColumn | tools/cleanup_kdbx.py:49-63 | No headers is an error. With no column given, the first header is chosen. A named column fails exactly when no header matches it ignoring case, and that error carries the column and the headers. |
| AllowList.SelectColumnFirst | tools/cleanup_kdbx.py:55-63 | A named column selects the first header equal to it ignoring case. |
| AllowList.EmailsIn | tools/cleanup_kdbx.py:65-69 | A value is in the set exactly when some row's cell in the column normalises to it. |
| AllowList.Cell | tools/cleanup_kdbx.py:66-67 | A row without the column contributes nothing (`row.get` gives `None`). A value it contributes is non-empty and in normal form. |
| AllowList.CollectEmails | tools/cleanup_kdbx.py:65-69 | The loop over the rows builds exactly `EmailsIn(rows, column)`. |
| AllowList.AllowedEmails | tools/cleanup_kdbx.py:49-74 | No headers is the no-header error. No rows is an error. A column error is passed on unchanged. Once a column is chosen, the result is the set of its normalised cells, or the no-e-mails error naming the column when that set is empty. A successful result is never empty. |
| AllowList.ReadAllowedEmails | tools/cleanup_kdbx.py:49-74 | The method returns exactly what `AllowedEmails` specifies, errors included. |
| AllowList.AllowedEmailsExactly | tools/cleanup_kdbx.py:65-74 | The allow-list is exactly the set of normalised cells of the chosen column, and each of them is in normal form. |
| Cleanup.TitleOf | tools/cleanup_kdbx.py:141 | A non-empty title is reported as is. A missing or empty title is reported as `<Untitled>`. |
| Cleanup.Keep | tools/cleanup_kdbx.py:138-139 | An entry with no username and no custom fields is never kept, and nothing is kept by an empty allow-list. |
| Cleanup.Obsolete | tools/cleanup_kdbx.py:137-141 | No more entries are reported than were collected, and none of those reported is kept. |
| Cleanup.ObsoleteMembers | tools/cleanup_kdbx.py:137-141 | An entry is reported exactly when it is in the collected list and is not kept. |
| Cleanup.ObsoleteAppend | tools/cleanup_kdbx.py:137-141 | Decisions keep the collection order: the entries reported for `a + b` are those for `a`, then those for `b`. |
| Cleanup.ObsoleteAllKept | tools/cleanup_kdbx.py:137-141 | When every entry is kept, nothing is reported. |
| Cleanup.ObsoleteNoneKept | tools/cleanup_kdbx.py:137-141 | When no entry is kept, every entry is reported, in order. |
| Cleanup.DeleteEach | tools/cleanup_kdbx.py:137-143 | The inner loop reports the titles of exactly the entries that are not kept, in order. It leaves the tree as it was in dry-run, and otherwise removes exactly those entries. |
| Cleanup.DeleteObsoleteEntries | tools/cleanup_kdbx.py:123-145 | The method leaves the tree that `RunPaths` specifies. It returns the titles of the entries `RunPaths` reports, or the first path error. |
| Cleanup.RunPaths | tools/cleanup_kdbx.py:135-143 | A pass fails only with the empty-path error or a "not found" error. |
| Cleanup.DryRunLeavesTreeUnchanged | tools/cleanup_kdbx.py:142-143 | In dry-run, the pass leaves the tree unchanged. |
| Cleanup.ReportedAreObsolete | tools/cleanup_kdbx.py:135-141 | In either mode, a reported entry is not kept, and it was under one of the requested paths in the starting tree. |
| Cleanup.DryRunReportsExactly | tools/cleanup_kdbx.py:135-143 | In dry-run, an entry is reported exactly when it is under one of the requested paths and is not kept. |
| Cleanup.ApplyRemovesReported | tools/cleanup_kdbx.py:142-143 | Outside dry-run, the new tree is the old one without the reported entries and nothing else changes. The entries left are the old ones minus those reported, in the same order. |
| Cleanup.PathAllKept | tools/cleanup_kdbx.py:136-143 | Right after a path is processed outside dry-run, every entry under it is kept. |
| Cleanup.ApplyLeavesOnlyAllowed | tools/cleanup_kdbx.py:3-5 | After a successful pass outside dry-run, every entry left under each requested group is kept. |
| Cleanup.NothingToDelete | tools/cleanup_kdbx.py:135-145 | When every entry under each path is kept, the pass reports nothing and changes nothing. |
| Cleanup.ApplyIdempotent | tools/cleanup_kdbx.py:123-145 | A second pass over what a successful pass left reports nothing and changes nothing. |
| Cleanup.ModesAgree | tools/cleanup_kdbx.py:135-143 | From the same tree, dry-run and apply fail alike, with the same error. When they succeed, they report the same entries as sets of UUIDs. |
| Cleanup.RunPathsAppend | tools/cleanup_kdbx.py:135-143 | Paths are processed in order on the tree as earlier paths left it. The pass over `a + b` is the pass over `a`, followed by the pass over `b` with the reports appended, unless `a` failed. |
| Cleanup.ErrorKeepsEarlierDeletions | tools/cleanup_kdbx.py:135-143 | A path that fails after others succeeded ends the pass with its error. The deletions made for the earlier paths stay in the tree. |
| Cleanup.PassErrors | tools/cleanup_kdbx.py:136 | A pass fails only with the empty-path error, or with "not found" naming a segment of one of the paths. |
| Tool.MainOutcome | tools/cleanup_kdbx.py:182-212 | `main` stops before the database is used exactly when reading the allow-list fails. Otherwise a failing pass ends the run with the pass's error and nothing saved. A successful pass finishes with the titles of the entries it reported, and saves the tree it left exactly when not in dry-run. |
| Tool.RunMain | tools/cleanup_kdbx.py:182-212 | The orchestration returns `MainOutcome`. It leaves the tree untouched when the allow-list fails, and otherwise leaves the pass's tree, including after a pass error. |
| Tool.MainSavesOnlyAllowed | tools/cleanup_kdbx.py:200-212 | The saved tree is the opened one without the reported entries. Every entry it holds under a requested group is kept. |
| Tool.MainSavesWhenNothingDeleted | tools/cleanup_kdbx.py:209-212 | Outside dry-run, the database is saved even when nothing was deleted, and the tree saved is the one opened. |
| Tool.MainDryRunChangesNothing | tools/cleanup_kdbx.py:200-209 | In dry-run, nothing is saved and the tree is unchanged. The report is the titles of exactly the not-kept entries under the requested groups. |
| Examples.EmailFieldAddress | tools/cleanup_kdbx.py:90-97 | An entry whose `email` field has no surrounding whitespace is judged by that field, lower-cased. |
| Examples.TeamScenario | tools/cleanup_kdbx.py:123-145 | With allow-list {alice@example.com, bob@example.com}, entry `E1` (`email` = `ALICE@EXAMPLE.COM`) is kept. `E2` (username `carol`) is deleted. |
| Examples.TeamReport | tools/cleanup_kdbx.py:141 | That pass reports `["E2"]`. |
| Examples.RootPrefixNotFound | tools/cleanup_kdbx.py:102-110 | A path is resolved below the root group, so `Root/Team` fails. The error says segment `Root` was not found under `Root`. |
| Examples.MissingGroup | tools/cleanup_kdbx.py:109-110 | Path `Missing` fails with an error naming `Missing` and the root group. |
| Examples.UntidyPathSegments | tools/cleanup_kdbx.py:102 | `/Team//Sub/` has exactly the segments `Team` and `Sub`. |
| Examples.ErrorAfterDeletion | tools/cleanup_kdbx.py:135-143 | For paths `Team` then `Missing`, the pass ends with the error. `E2` is already gone from the tree. |
| Examples.OverlapDryRun | tools/cleanup_kdbx.py:135-143 | With paths `A` and `A/B`, where `B` lies under `A`, dry-run reports the entry in `B` twice. |
| Examples.OverlapApply | tools/cleanup_kdbx.py:135-143 | With the same paths outside dry-run, that entry is gone when `A/B` is resolved, so it is reported once. |

## Left out

- Opening and decoding the CSV file, `csv.DictReader`, and the `FileNotFoundError`/`OSError` translation (tools/cleanup_kdbx.py:45-47, 75-78). These are file I/O. The model takes the header list and the rows as given.
- Opening the KeePass database, credential errors and `kp.save` (tools/cleanup_kdbx.py:188-198, 210-216). These belong to pykeepass and the encrypted file format. The save appears only as the tree that would be written, and a failing save is not modelled.
- `parse_arguments`, printing, and the exit codes of `main` (tools/cleanup_kdbx.py:148-218). This is the command-line surface. `Tool.Outcome` keeps only how a run ends.
- `Identity.CustomProperty`: `entry.get_custom_property` is part of pykeepass, which is not part of this model. It is modelled as an abstract lookup: an entry's `custom` map holds the value the store gives for each key it answers for. Whether the store's lookup ignores case, as the module docstring says (tools/cleanup_kdbx.py:8), is left to that map and is not stated.
- `Text.Lower`: lower-cases ASCII letters only. Python's full Unicode case mapping is not modelled.
- `Text.NormalizeEmail`: it inherits that restriction. Its promise of having no upper-case letters is stated for ASCII letters only.
- `Text.IsSpace` lists the characters Python's `str.isspace` accepts. Unicode database updates beyond that list are not followed.
- Error messages are kept as the pieces of context they name (`Errors.CleanupError`), not as formatted text.
- Entry identity is the KeePass UUID. The model does not assume UUIDs are unique in a tree, so a deletion removes every entry carrying that UUID.
- The gallery web application and the two `script.js` files are outside the cleanup tool.

## Behaviour of the code worth knowing

- The module docstring's example passes group paths such as `Root/Clients/Acme` (tools/cleanup_kdbx.py:17). The code resolves a path starting below the root group, so such a path looks for a child of the root named `Root` (`Examples.RootPrefixNotFound`). The model follows the code. Its scenario uses the path `Team`.
- Dry-run and apply can report different lists when paths overlap. The code deletes each entry as soon as it is decided (tools/cleanup_kdbx.py:143), and later paths resolve against the changed tree. So dry-run can report an entry twice while apply reports it once (`Examples.OverlapDryRun`, `Examples.OverlapApply`). What does hold is `Cleanup.ModesAgree`: the same entries as sets of UUIDs, and the same errors.
- An apply run saves even when nothing was deleted. The code saves whenever dry-run is off (`Tool.MainSavesWhenNothingDeleted`).
- A bad group path raises `CleanupError` out of `delete_obsolete_entries`. `main` does not catch it (tools/cleanup_kdbx.py:200), so deletions already made stay in memory and the save is never reached (`Tool.MainOutcome`, `Cleanup.ErrorKeepsEarlierDeletions`).
- The example entry uses the key `email` from `EMAIL_FIELD_CANDIDATES` (tools/cleanup_kdbx.py:36), since the model states nothing about case in custom field keys.
