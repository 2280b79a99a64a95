# Repository snapshot download, modelled in Dafny

This project models the core of a GitHub checkout helper's archive path
(`src/github-api-helper.ts`). That code fetches a snapshot of a repository
through the hosting provider's REST API instead of cloning it. It:

- resolves the default branch when neither a ref nor a commit was given;
- downloads the zipball (Windows) or tarball (elsewhere) for `commit || ref`;
- writes the archive to `<dest>/<uuid>.tar.gz` and extracts it into `<dest>/<uuid>`;
- checks that the extraction holds exactly one top-level folder;
- moves (or, on Windows, copies) each entry of that folder into `<dest>`;
- removes the scratch directory.

The model is functional. Every external collaborator is an input value:

- the metadata lookup's outcome (`LookupOutcome`);
- the archive endpoint (`fetch: ArchiveRequest -> HttpOutcome`);
- the generated unique id;
- the tree the archive unpacks to;
- the platform (`Platform`).

The filesystem is a map from paths (sequences of names) to file or
directory nodes. An operation returns an `Outcome`: `Succeeded(fs)` or
`Failed(error, fs)`. A failure carries the filesystem as it was left,
because the source rolls nothing back.

Modules, leaf first:

- `Wrappers`: `Option` and `Result`.
- `Errors`: bytes, paths, the thrown errors, and the `status` an error carries.
- `Refs`: upper-casing, the prefix and suffix tests, the wiki-name test and `refs/heads/` normalisation.
- `DefaultBranch`: `getDefaultBranch`.
- `Archive`: `downloadArchive`.
- `FileSystem`: `writeFile`, `mkdirP`, extraction, `rmRF`, `readdir`, `mv`/`cp` and the relocation loop.
- `Download`: `downloadRepository` and the theorems about the final layout.

## Model

| member | source | states |
|---|---|---|
| Errors.StatusOf | src/github-api-helper.ts:97 | only an error thrown by the HTTP client carries a status; assertion errors and the non-200 `Error` carry none |
| Refs.ToUpper | src/github-api-helper.ts:98 | the upper-cased name has the same length, and each character is the upper-cased original character |
| Refs.WikiNameIff | src/github-api-helper.ts:96-99 | a name passes the `.WIKI` test exactly when its last five characters spell `.wiki` in any mix of case |
| Refs.WikiSuffixMakesWiki | src/github-api-helper.ts:98 | any name followed by `.wiki` in any case passes the wiki test |
| Refs.NormalizeRef | src/github-api-helper.ts:111-114 | the result always starts with `refs/`; it equals the input exactly when the input already starts with `refs/`; otherwise it is `refs/heads/` + input; the input is always a suffix of it |
| Refs.NormalizeRefIdempotent | src/github-api-helper.ts:112-114 | normalising twice gives the same as normalising once |
| Refs.NormalizeRefExamples | src/github-api-helper.ts:112-114 | `main` becomes `refs/heads/main`; `refs/tags/v1` is unchanged |
| DefaultBranch.ReadDefaultBranch | src/github-api-helper.ts:89-93 | the try block succeeds exactly for a non-empty `default_branch`; an empty one raises an error without status; a failed request keeps its status |
| DefaultBranch.RecoverLookupError | src/github-api-helper.ts:94-106 | the catch block recovers, with `master`, exactly when the error's status is 404 and the name is a wiki name; otherwise it rethrows the same error |
| DefaultBranch.GetDefaultBranch | src/github-api-helper.ts:79-118 | success exactly for a non-empty branch, or a 404 on a wiki repository; every result starts with `refs/`; a found branch is normalised; an empty branch is the assertion error; any other lookup failure is thrown with its status unchanged |
| DefaultBranch.WikiFallback | src/github-api-helper.ts:96-114 | a 404 lookup gives `refs/heads/master` for a wiki repository, and the 404 error itself for any other repository |
| DefaultBranch.OtherFailuresPropagate | src/github-api-helper.ts:96-105 | a failure with any other status, or none, is thrown unchanged whatever the repository name |
| DefaultBranch.EmptyBranchNeverFallsBack | src/github-api-helper.ts:92-104 | an empty `default_branch` fails with the assertion error even for a wiki repository |
| Archive.FormatFor | src/github-api-helper.ts:134-136 | the zipball endpoint is chosen exactly on Windows |
| Archive.TargetRef | src/github-api-helper.ts:132 | `commit \|\| ref` is one of the two, and is empty exactly when both are |
| Archive.RequestFor | src/github-api-helper.ts:128-136 | the request names the owner and repository, the target ref and the platform's format |
| Archive.CheckResponse | src/github-api-helper.ts:137-143 | success exactly for a status-200 response, which returns its body; any other status raises an error with that status and body; a thrown request error propagates |
| Archive.DownloadArchive | src/github-api-helper.ts:120-144 | succeeds exactly when the endpoint answers the selected request with status 200, and returns that body |
| Archive.CommitTakesPrecedence | src/github-api-helper.ts:129-133 | with a non-empty commit, the request is for the commit whatever the ref is |
| Archive.RefUsedWithoutCommit | src/github-api-helper.ts:132 | with an empty commit, the request is for the ref |
| FileSystem.RemoveTree | src/github-api-helper.ts:50 | the path and everything below it are gone; every other path keeps its node |
| FileSystem.WriteFile | src/github-api-helper.ts:38 | the write succeeds exactly when the path is not a directory and its parent is one; it then stores a file there and changes nothing else |
| FileSystem.MakeDirectories | src/github-api-helper.ts:44 | on success the path is a directory, existing entries are kept, and only ancestors of the path are added; a failure names a file on the way |
| FileSystem.MakeChildDirectory | src/github-api-helper.ts:43-44 | under an existing directory, creating a non-file child adds exactly that directory |
| FileSystem.Extract | src/github-api-helper.ts:45-49 | extraction needs the archive file; every entry of the unpacked tree appears below the target directory; below it nothing appears but the tree's entries and what was there before, and what was there and is not overwritten is kept; nothing outside it changes |
| FileSystem.Children | src/github-api-helper.ts:54 | a name is listed exactly when `dir/name` exists |
| FileSystem.Transfer | src/github-api-helper.ts:67-71 | one `io.mv`/`io.cp`: the target's subtree becomes the source's; a move also removes the source; nothing else changes |
| FileSystem.Relocate | src/github-api-helper.ts:64-72 | every listed entry's subtree appears under its name in the destination; a move removes the sources; every other path keeps its node |
| FileSystem.RelocateOneMore | src/github-api-helper.ts:64-72 | one more loop iteration after relocating some entries equals relocating them and the new one together |
| FileSystem.MoveEntries | src/github-api-helper.ts:64-72 | the loop over a directory listing, in any order, ends in the all-at-once relocation of the listed entries |
| FileSystem.CopyAndMoveAgree | src/github-api-helper.ts:67-73 | once the scratch directory is removed, copying and moving leave the same filesystem |
| FileSystem.ChildrenMatchTree | src/github-api-helper.ts:54-64 | below a directory holding exactly an unpacked tree, every listing equals the tree's listing |
| FileSystem.LiftLayout | src/github-api-helper.ts:64-73 | after relocation and scratch removal, each target holds what its source held, the scratch directory is gone, and every other path is untouched |
| FileSystem.LiftedFromScratch | src/github-api-helper.ts:61-73 | lifting the entries of the single top-level folder puts the tree's content below `dest` and keeps every other path as it was |
| Download.ArchiveFileName | src/github-api-helper.ts:37 | the archive file is never named like the extraction directory; its name is `.tar.gz` on every platform |
| Download.ModeFor | src/github-api-helper.ts:67-71 | entries are copied exactly on Windows |
| Download.ResolveRef | src/github-api-helper.ts:22-26 | with a ref or a commit given, the ref is kept unchanged; with neither, the default branch is resolved; on success the archive target is never empty |
| Download.TheOnly | src/github-api-helper.ts:59 | the one element of a one-element listing |
| Download.Unpacked | src/github-api-helper.ts:34-50 | after staging, the scratch directory exists and holds the unpacked tree over whatever was already at `dest/<id>`, the archive file is gone, and nothing else changes |
| Download.ArchiveLeavesNoTrace | src/github-api-helper.ts:37-50 | writing the archive and deleting it after extraction leaves the same state as never writing it |
| Download.StageAt | src/github-api-helper.ts:34-50 | staging succeeds exactly when the destination is a directory, the archive path is not one, and the scratch path is not a file; a missing destination changes nothing |
| Download.Stage | src/github-api-helper.ts:34-50 | the same, for the `<id>.tar.gz` and `<id>` paths under the destination |
| Download.LiftContent | src/github-api-helper.ts:52-73 | any count of top-level entries other than one fails with the assertion error and moves nothing; success needs exactly one entry that is a directory, and leaves no scratch path |
| Download.Materialize | src/github-api-helper.ts:34-73 | a destination that is not a directory fails with the filesystem untouched; success leaves nothing at or below `dest/<id>` |
| Download.DownloadRepository | src/github-api-helper.ts:13-74 | a failed resolution or download is thrown as it is, with the filesystem untouched; success leaves nothing at or below `dest/<id>` |
| Download.ExplicitRefSkipsLookup | src/github-api-helper.ts:22-26 | with a ref or a commit given, the whole download is the same whatever the metadata lookup would return |
| Download.LookupConsultedIff | src/github-api-helper.ts:22-26 | the lookup decides the ref exactly when both ref and commit are empty |
| Download.MaterializedDetermined | src/github-api-helper.ts:64-73 | the final layout determines the destination's contents completely |
| Download.StagedScratch | src/github-api-helper.ts:43-50 | with a fresh id, the staged scratch directory holds exactly the unpacked tree, and every other path is as it was |
| Download.StagedSingleFolder | src/github-api-helper.ts:54-64 | with one top-level folder, the scratch listing is that folder, which is a directory listing the archive folder's entries |
| Download.LiftSingleFolder | src/github-api-helper.ts:54-73 | a scratch directory listing one folder has that folder's entries relocated and the scratch directory removed |
| Download.MaterializeSucceeds | src/github-api-helper.ts:34-73 | with a fresh id and one top-level folder, the local steps succeed and relocate that folder's entries |
| Download.MaterializeLayout | src/github-api-helper.ts:64-73 | on success each entry `c` of the top-level folder is at `dest/c` with its subtree, and every other path is as before, so nothing is left at or below `dest/<id>`; `dest/<id>.tar.gz` is gone unless the top-level folder has an entry of that name |
| Download.WrongEntryCountFails | src/github-api-helper.ts:54-58 | with zero or several top-level entries, the run fails with the assertion error, and nothing outside the extraction directory has changed |
| Download.SuccessfulDownloadLayout | src/github-api-helper.ts:13-74 | once resolution and download succeed, the whole run succeeds with the layout above, and `dest/<id>.tar.gz` is gone unless the top-level folder has an entry of that name |
| Download.PlatformsAgree | src/github-api-helper.ts:45-71 | the Windows (zip, copy) and other (tar, move) runs end in the same filesystem, given that the zipball and the tarball unpack to the same tree |

## Left out

- Retries: `retryHelper.execute` (lines 29 and 85) is not part of this model. Each wrapped call is one attempt whose outcome is an input.
- `src/octokit-provider.ts`: it only builds the API client, so there is no logic to model.
- The HTTP requests are inputs: the metadata lookup's outcome and the `fetch` function.
- The archive formats: tar and zip decoding (`@actions/tool-cache`) is foreign code. The unpacked tree is an input, and the zipball and the tarball are assumed to unpack to the same tree (which is what Download.PlatformsAgree relies on). Extraction failures and file permissions are not modelled.
- UUID generation: the id is an input. The layout theorems assume it is fresh, as a random UUID makes overwhelmingly likely.
- Logging, the buffer release on line 39, `Buffer` conversion and `parseInt` of the status have no observable effect here.
- Concurrency and process termination are not modelled.
- Refs.ToUpper: only the ASCII letters a-z are upper-cased. JavaScript's `toUpperCase` also maps other letters, for example the dotless `ı` to `I`, so a name like `x.wıki` is a wiki name there but not here.
- DefaultBranch.GetDefaultBranch: `default_branch` is modelled as a string. A `null` or missing field would also fail the assertion; that is not modelled.
- Download.ResolveRef: `ref` and `commit` are plain strings. The source's `!ref` would also treat `null` and `undefined` as empty.
- FileSystem.Transfer: an existing target is replaced. The `@actions/io` library (not part of this model) instead moves or copies into an existing directory of that name. Targets that clash with existing destination entries therefore follow the replace rule.
- FileSystem.MoveEntries: proved only when the unique id names none of the relocated entries. If the id matched one, the real loop would depend on listing order; `Download.LiftContent` relocates all entries at once and does not describe that case.
- Download.LiftContent: a failing `io.mv` or `io.cp` is not modelled; relocation always succeeds once the folder is found.
- Download.Materialize: the code does no cleanup on failure. A failure leaves the archive file or the extraction directory behind, and the model does the same. The archive is always written as `<id>.tar.gz`, zip downloads included.
