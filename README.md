# devsetup-manager core, modelled in Dafny

devsetup-manager is an Electron desktop application. It downloads development tools (web servers,
PHP, databases) into a per-user folder, starts and stops them as child processes, and keeps
their logs. This project models the logic at its centre and proves properties of it. The
modelled logic is:

- **The installer.** Both the current `toolInstaller.js` and the older `src/toolInstaller.ts`.
  It derives the artifact name and install folder from the tool name, version and URL, and
  forwards download progress. It checks a `sha256:` checksum, extracts with three attempts,
  linear backoff and a staging directory, and uninstalls.
- **The process supervisor** (`src/appManager.ts`). This is the table of running tools with a
  500-line log buffer per tool, the start, stop and exit handling, the log view, and the
  depth-bounded search for an executable.
- **The catalog fetch** (`src/toolApi.ts`, `toolApi.js`). A strict JSON parse comes first. If it
  fails, a tolerant parse runs on a cleaned-up text: block comments, line comments, text
  outside the outermost brackets and trailing commas are removed. The newer version then falls
  back to a local file.
- **The catalog cache** in the renderer (`src/renderer/toolsCache.ts`). It has a one-hour
  freshness window, a forced refresh, and a write only after a successful fetch.
- **The on-disk layout** (`src/pathService.ts`).
- **The list and validation rules** of the user interface (`src/renderer/App.tsx`).

How the model is built:

- **File system.** A map from paths to contents plus a set of directories. Paths are sequences
  of segments.
- **Parameters.** The outside world enters as parameters:
  - the HTTP response, as a value;
  - the SHA-256 digest and `JSON.parse`, as functions;
  - the archive library, the rename and copy calls, and `spawn`, as oracles saying whether
    each step works;
  - the clock, as a number or a timestamp text.
- **Imperative code stays imperative.** The download counter, the attempt loop of
  `tryExtract`, the entry-moving loop and the executable search are methods with loops. Each
  is proved equal to a specification function.
- **State.** The supervisor's mutable table is the class `AppManager.Supervisor`, and the
  renderer's `localStorage` is the class `ToolsCache.Cache`. Each method is proved to take the
  state to its specification function applied to the old state. Everything else is functions
  and lemmas.

Facts proved here that the code's comments or intentions do not state:

- `tryExtract` removes its staging directory only after a success (lemma
  `ToolInstaller.FailureLeavesStagingDir`). Moving entries out of staging is not atomic: an
  attempt that fails halfway leaves the destination partly filled
  (`ToolInstaller.FailedMoveLeavesPartialDestination`). Both go against the comment at
  toolInstaller.js:39, which says the staging directory avoids partial state.
- The older `installTool` returns the artifact path whether or not extraction worked
  (`LegacyInstaller.LegacyResultIgnoresExtraction`).
- `appendLog` creates a table entry on its own. So a failed spawn, which logs, leaves a
  log-only entry. From then on the tool counts as running, every start is refused, and stop
  throws because there is no process to kill (`AppManager.SpawnFailureBlocksRestart`).
- The log view merges the file's lines with the buffer, and the file already holds the
  buffered lines. So after a fresh tool has logged at most 250 lines, the view shows each of
  them twice (`AppManager.LogViewRepeatsBuffer`). From 500 lines on, the buffer fills the view
  and each line shows once (`AppManager.LogViewIsBufferAfterLongRun`). In between, only the
  newest lines show twice (`AppManager.LogViewAfterLogging`).
- The older installer extracts straight into the install folder. A library error after some
  entries were written leaves those entries in place
  (`LegacyInstaller.LegacyFailedExtractionLeavesPartialFolder`).
- The line-comment step of the tolerant parse does not know about JSON strings. It cuts every
  `https://` URL at its `//` (`ToolApi.LineStripCutsUrls`). So a catalog that is not strict
  JSON and carries URLs on the same line as later content cannot be repaired. This is recorded
  as behaviour, not corrected, because the step is a heuristic.

## Model

| member | source | states |
|---|---|---|
| ToolInstaller.BeforeQuery | toolInstaller.js:90 | the result is the longest prefix without `?`, and the input continues with `?` if it is longer |
| ToolInstaller.FileName | toolInstaller.js:90 | the artifact name contains no path separator and no `?` |
| ToolInstaller.FileNameOfUrl | toolInstaller.js:90 | for `<prefix>/<name><query>` with a separator-free name and query, the artifact name is exactly `name` |
| ToolInstaller.FileNameTakesBasenameOfWholeUrl | toolInstaller.js:90 | for any URL `<path>?<query>/<name>` the artifact name is `name`, whatever file the path names: `basename` runs before the cut at `?` |
| ToolInstaller.ArtifactInInstallDir | toolInstaller.js:89-91 | the install folder is strictly below bin; the artifact lies in it and, with a non-empty name, directly in it |
| ToolInstaller.InstallDirInjective | toolInstaller.js:89 | distinct non-empty (tool, version) pairs get distinct install folders |
| ToolInstaller.Percent | toolInstaller.js:17-18 | the reported percentage is `received/total*100` rounded to nearest, halves up |
| ToolInstaller.PercentMonotone | toolInstaller.js:17-18 | more bytes received never gives a lower percentage |
| ToolInstaller.PercentBounds | toolInstaller.js:17-18 | while no more than the announced length has arrived the percentage is at most 100, and exactly 100 at the announced length |
| ToolInstaller.Overall | toolInstaller.js:94-95 | the overall progress is `pct*0.7` rounded to nearest |
| ToolInstaller.OverallBounds | toolInstaller.js:93-95 | a download percentage of 0..100 maps into 0..70, and 100 maps to 70 |
| ToolInstaller.OverallMonotone | toolInstaller.js:94-95 | the scaling never reverses the order of two percentages |
| ToolInstaller.Reports | toolInstaller.js:17-18 | one report per chunk when a content length is announced, none otherwise |
| ToolInstaller.Download | toolInstaller.js:8-24 | the method accumulating `received` over the chunks produces exactly the specified download outcome, file system and reports |
| ToolInstaller.DownloadNoPartialFile | toolInstaller.js:12-21 | success leaves the whole body at the destination; a stream error leaves no file there; an HTTP or network error touches no file and reports nothing; no other file changes |
| ToolInstaller.ReportsShape | toolInstaller.js:14-18 | reports never decrease; with an honest length they stay at most 100; a complete body ends on 100 |
| ToolInstaller.ExpectedHex | toolInstaller.js:29 | exactly one leading `sha256:` is removed, and other text is kept as is |
| ToolInstaller.VerifyChecksum | toolInstaller.js:27-37 | reading fails exactly for a missing file; the result is true exactly when the digest equals the expected hex text |
| ToolInstaller.ChecksumPrefixIsIgnored | toolInstaller.js:28-29 | the same hex is accepted with or without `sha256:`; a doubled prefix is not accepted |
| ToolInstaller.KindOf | toolInstaller.js:44-57 | `.zip` is a zip archive; otherwise `.tar.gz` or `.tgz` is a tar archive; anything else is a plain file |
| ToolInstaller.WriteEntriesFrame | toolInstaller.js:43-57 | staging adds exactly one file per entry below the staging directory and changes no directory and no file outside it |
| ToolInstaller.WriteEntriesContent | toolInstaller.js:43-57 | with distinct names, each staged entry's file holds that entry's content |
| ToolInstaller.MoveEntries | toolInstaller.js:61-71 | the loop renaming, else copying, each entry gives the specified move outcome |
| ToolInstaller.RunAttempt | toolInstaller.js:42-78 | one iteration of the attempt loop gives the specified attempt outcome |
| ToolInstaller.TryExtract | toolInstaller.js:38-87 | the attempt loop with early return and waits gives the specified extraction outcome |
| ToolInstaller.TryFromDelays | toolInstaller.js:79-84 | after failed attempt k the wait is 250*(k+1); a success waits once per earlier failure; a total failure waits three times |
| ToolInstaller.ExtractWaits | toolInstaller.js:41-86 | a failed extraction waits 250, 500 and 750 ms, including after the last attempt; a success waits a prefix of that |
| ToolInstaller.MoveFromFrame | toolInstaller.js:61-71 | moving entries changes no file outside the staging and destination folders and no directory |
| ToolInstaller.AttemptFrame | toolInstaller.js:42-78 | an attempt changes no file outside the staging and destination folders, and leaves the staging folder in place |
| ToolInstaller.TryFromFrame | toolInstaller.js:38-87 | extraction changes no file outside the staging and destination folders; a failure leaves the staging folder |
| ToolInstaller.FailureLeavesStagingDir | toolInstaller.js:72-86 | when every attempt fails the staging directory is still there, because cleanup runs only after a success |
| ToolInstaller.MoveFromAllOk | toolInstaller.js:61-71 | moving succeeds exactly when each entry can be renamed or copied; then each entry is in the destination with its staged content, and unrelated files are kept |
| ToolInstaller.StagedInTmp | toolInstaller.js:43-59 | after staging and creating the destination, every listed entry is in the staging folder with its content |
| ToolInstaller.AttemptOkIff | toolInstaller.js:42-78 | an attempt succeeds exactly when staging works and every entry moves; then every staged entry is in the destination with its content |
| ToolInstaller.FailedAttemptKeepsListing | toolInstaller.js:41-84 | a failed attempt leaves what the next attempt stages unchanged |
| ToolInstaller.TryFromOkIff | toolInstaller.js:38-87 | extraction returns true exactly when one of the three attempts can succeed; then the destination holds every entry, and a working cleanup leaves nothing in staging |
| ToolInstaller.FailedMoveLeavesPartialDestination | toolInstaller.js:61-71 | when the second entry can be neither renamed nor copied, the attempt fails with the first entry already moved |
| ToolInstaller.Scaled | toolInstaller.js:94-95 | every forwarded report is the scaled download percentage, one for one |
| ToolInstaller.WithConfigDirs | toolInstaller.js:109-111 | the config, nginx and php folders exist afterwards and no file changes |
| ToolInstaller.CheckAndExtract | toolInstaller.js:96-112 | the checksum and extraction steps give the specified outcome |
| ToolInstaller.InstallTool | toolInstaller.js:88-113 | the method gives the specified outcome of `installTool` |
| ToolInstaller.DownloadAfterMkdir | toolInstaller.js:92 | creating the parent folder before the download changes nothing, since the download creates it too |
| ToolInstaller.AfterDownloadFacts | toolInstaller.js:96-112 | after a download: a mismatch happens exactly when the checksum is given and wrong; success exactly when it is accepted and an attempt can move everything; 100 is reported only on success |
| ToolInstaller.InstallFailureCause | toolInstaller.js:92-105 | the download error comes first (with no extraction waits), then a mismatch of a given checksum; reading the file never fails |
| ToolInstaller.InstallOkIff | toolInstaller.js:88-113 | install succeeds exactly when download, checksum and one extraction attempt succeed; it then returns the artifact path, has reported 100, has filled the folder and has created the config folders |
| ToolInstaller.InstallProgress | toolInstaller.js:93-107 | reported progress never decreases, stays within 0..100, and anything above 70 is the single final 100 of a success |
| ToolInstaller.InstallFrame | toolInstaller.js:88-113 | an install changes files only in the tool's folder and the staging directory |
| ToolInstaller.UninstallRemovesInstall | toolInstaller.js:114-119 | with a version, nothing is left in that version's folder; without one, nothing is left of any version; uninstalling twice equals uninstalling once |
| ToolInstaller.UninstallScope | toolInstaller.js:114-119 | uninstall never touches the config or log folders; an empty tool and version empty all of bin |
| FileSystem.MkdirAll | toolInstaller.js:9 | a recursive mkdir creates the folder and its ancestors only, and changes no file |
| FileSystem.RemoveTree | toolInstaller.js:119 | a forced recursive remove drops exactly what lies at or below the path and keeps everything else unchanged |
| FileSystem.RemoveTreeIdempotent | toolInstaller.js:119 | removing an already removed path changes nothing, so a missing path is not an error |
| LegacyInstaller.LegacyArtifactLayout | src/toolInstaller.ts:54-56 | the artifact is `userData/tools/<tool>/<version>/<name>`, and its folder is the extraction target |
| LegacyInstaller.LegacyExtract | src/toolInstaller.ts:37-51 | extraction succeeds exactly for an archive suffix and a working library; a plain file changes nothing; no directory and no file outside the install folder changes |
| LegacyInstaller.LegacyFailedExtractionLeavesPartialFolder | src/toolInstaller.ts:37-51 | when the archive library throws, the call fails and every entry written before the error stays in the install folder with its content |
| LegacyInstaller.LegacyInstallTool | src/toolInstaller.ts:53-63 | the method gives the specified outcome of the older `installTool` |
| LegacyInstaller.LegacyResultIgnoresExtraction | src/toolInstaller.ts:59-62 | the artifact path is returned exactly when download and checksum succeed, whatever extraction does; reading the file never fails; a plain file leaves the file system as the download left it |
| LegacyInstaller.LegacyProgress | src/toolInstaller.ts:14-17 | progress is the raw download percentage per chunk, never decreasing and at most 100 |
| PathService.ProfileRoot | src/pathService.ts:7 | the first non-empty of USERPROFILE, home and userData |
| PathService.BaseDir | src/pathService.ts:4-11 | on win32 `<profile>/.config/devsetup-manager`, elsewhere userData |
| PathService.BinDir | src/pathService.ts:13-15 | one level below base, named `bin` |
| PathService.ConfigDir | src/pathService.ts:17-19 | one level below base, named `config` |
| PathService.NginxConfigDir | src/pathService.ts:21-23 | one level below config, named `nginx` |
| PathService.PhpConfigDir | src/pathService.ts:25-27 | one level below config, named `php` |
| PathService.LogDir | src/pathService.ts:29-31 | one level below base, named `Log` with a capital L |
| PathService.LayoutIsATree | src/pathService.ts:13-31 | bin, config and Log do not contain one another; nginx and php are distinct and below base; nothing under bin is config or log |
| AppManager.FindExecutable | src/appManager.ts:46-65 | the recursive search with its entry loop returns exactly the specified search result |
| AppManager.FindCorrect | src/appManager.ts:46-65 | something is found exactly when an accepted file is within depth 3 through readable folders; the result lies below the start folder within that depth and names an accepted file |
| AppManager.FindIsFirstCandidate | src/appManager.ts:46-65 | the search returns the first accepted file in depth-first listing order (each directory's entries in turn, a sub-directory's files before the entries after it), and nothing when there is none |
| AppManager.FindFromCorrect | src/appManager.ts:50-62 | the entry loop finds something exactly when a later entry holds an accepted file |
| AppManager.FirstExeWinsOnWindows | src/appManager.ts:53-57 | on win32 an earlier unrelated `.exe` wins over a later exact match |
| AppManager.SearchDepthBoundary | src/appManager.ts:47 | a match three folders down is found, and one four folders down is not |
| AppManager.Newest | src/appManager.ts:116 | the last 500 elements in order, or all of them when there are fewer |
| AppManager.PushAllKeepsNewest | src/appManager.ts:28-29 | after any number of pushes the buffer is exactly the newest 500 lines, in arrival order |
| AppManager.Resolve | src/appManager.ts:38-39 | a relative path resolves below the bin folder |
| AppManager.Split | src/appManager.ts:112 | splitting on newlines yields at least one piece, and no piece holds a newline |
| AppManager.SplitJoinsBack | src/appManager.ts:112 | joining the pieces with newlines gives the text back |
| AppManager.SplitOfJoin | src/appManager.ts:112 | newline-free pieces joined with newlines split back into the same pieces |
| AppManager.SplitConcat | src/appManager.ts:112 | the pieces of a concatenation are those of the first text, its last piece joined to the first piece of the second, then the rest of the second's |
| AppManager.NonEmpty | src/appManager.ts:112 | exactly the non-empty lines are kept |
| AppManager.NonEmptyOne | src/appManager.ts:112 | a single line is kept exactly when it is not empty |
| AppManager.NonEmptyAppend | src/appManager.ts:112 | the filter works piece by piece, so it keeps order and repeated lines |
| AppManager.FileLinesRoundTrip | src/appManager.ts:112 | the file written by appending clean lines reads back as those lines |
| AppManager.FileReadsLoggedLines | src/appManager.ts:112 | a file written by appending any lines, with newlines or empty lines, reads back as the non-empty pieces of each line in logging order |
| AppManager.AppendLogKeepsLogsBounded | src/appManager.ts:26-29 | logging keeps every buffer within 500 lines |
| AppManager.StartKeepsLogsBounded | src/appManager.ts:35-96 | starting keeps every buffer within 500 lines |
| AppManager.OthersKeepLogsBounded | src/appManager.ts:82-102 | output, exit and stop keep every buffer within 500 lines |
| AppManager.AppendLogCreatesEntry | src/appManager.ts:26-28 | logging for an unknown tool creates a process-less entry with that line, so the tool counts as running; no other tool changes |
| AppManager.StartRefusedWhileEntryExists | src/appManager.ts:36 | a start is refused with `Already running` exactly when an entry exists, before anything changes |
| AppManager.StartSucceeds | src/appManager.ts:35-80 | a start succeeds exactly when the path exists or the search finds a file, and the spawn works; the new entry holds the process and the start line |
| AppManager.SpawnFailureBlocksRestart | src/appManager.ts:73 | after a failed spawn the tool counts as running, later starts are refused and stop finds no process |
| AppManager.StopKeepsEntry | src/appManager.ts:98-103 | stop fails with `Not running` exactly without an entry; otherwise the kill is sent and the entry stays |
| AppManager.ExitAllowsRestart | src/appManager.ts:90-93 | with logging before deletion, the exit removes the entry, the tool can start again, and the file gets the exit line |
| AppManager.ExitAsWrittenBlocksRestart | src/appManager.ts:90-93 | with the deletion landing before the un-awaited log push, a log-only entry remains and every later start is refused |
| AppManager.AppendLogStep | src/appManager.ts:20-29 | a writable log call pushes the line onto the tool's buffer and appends it with a newline to the tool's file |
| AppManager.LogAllState | src/appManager.ts:20-29 | after a fresh tool logs lines, its buffer is those lines pushed onto an empty buffer and its file holds them joined |
| AppManager.LogViewAfterLogging | src/appManager.ts:105-119 | after a fresh tool logs any lines, the view is the newest 500 of the file's pieces followed by the newest 500 lines; without the log folder it is the buffer alone |
| AppManager.LogViewRepeatsBuffer | src/appManager.ts:105-119 | after a fresh tool logs at most 250 clean lines, the view shows them twice in order; without the log folder, once |
| AppManager.LogViewIsBufferAfterLongRun | src/appManager.ts:105-119 | after a fresh tool logs 500 lines or more, the view is the buffer alone: the newest 500 lines |
| AppManager.ToolLogsShape | src/appManager.ts:105-119 | the view has at most 500 lines, is the newest of file lines followed by the buffer, and ends with the buffer |
| AppManager.Supervisor.constructor | src/appManager.ts:12 | the table starts empty |
| AppManager.Supervisor.AppendLog | src/appManager.ts:20-33 | the table and files become the specified log step, and the 500-line bound is kept |
| AppManager.Supervisor.Start | src/appManager.ts:35-96 | the table and result become the specified start step, and the bound is kept |
| AppManager.Supervisor.Stop | src/appManager.ts:98-103 | the table and result become the specified stop step, and the bound is kept |
| AppManager.Supervisor.OnOutput | src/appManager.ts:82-89 | a chunk of output is trimmed and logged with its stream's tag |
| AppManager.Supervisor.OnExit | src/appManager.ts:90-93 | the exit line is logged and the entry is gone afterwards |
| AppManager.Supervisor.IsRunning | src/appManager.ts:122-124 | running means an entry exists |
| AppManager.Supervisor.GetToolLogs | src/appManager.ts:105-120 | the view is the specified merge of file lines and buffer |
| Strings.Trim | src/appManager.ts:83 | the result is the input without leading and trailing JavaScript white space, and the cut characters are all white space |
| ToolApi.CloseFrom | src/toolApi.ts:12 | the first `*` `/` pair at or after the given index, or none |
| ToolApi.BlockStripDeletes | src/toolApi.ts:12 | removing block comments only deletes characters |
| ToolApi.BlockStripKeepsPrefix | src/toolApi.ts:12 | a prefix with no comment opener passes unchanged, unless its final slash meets a star |
| ToolApi.BlockCommentRemoved | src/toolApi.ts:12 | after any text holding no comment opener (URLs and paths included), a comment up to the nearest closer goes entirely, and the rest is cleaned on its own |
| ToolApi.BlockStripIdentity | src/toolApi.ts:12 | text without a comment opener is unchanged |
| ToolApi.LineEnd | src/toolApi.ts:13 | the first line terminator at or after the index, or the end |
| ToolApi.LineStripDeletes | src/toolApi.ts:13 | removing line comments only deletes characters |
| ToolApi.LineStripKeepsPrefix | src/toolApi.ts:13 | a prefix with no `//` passes unchanged, unless its final slash meets another |
| ToolApi.LineCommentRemoved | src/toolApi.ts:13 | after any text holding no `//` and not ending with a slash, a line comment goes up to the line terminator, which stays |
| ToolApi.LineCommentToEnd | src/toolApi.ts:13 | after any text holding no `//` and not ending with a slash, a comment on the last line takes the rest of the text |
| ToolApi.LineStripIdentity | src/toolApi.ts:13 | text without `//` is unchanged |
| ToolApi.LineStripCutsUrls | src/toolApi.ts:13 | a URL inside a JSON string is cut at its `//` |
| ToolApi.FirstOpen | src/toolApi.ts:15-17 | the earliest `{` or `[`, or none |
| ToolApi.LastClose | src/toolApi.ts:18 | the last `}` or `]`, or none |
| ToolApi.SliceToBrackets | src/toolApi.ts:15-21 | when both exist in order, the text from the first opener to the last closer, which starts and ends with a bracket; otherwise unchanged |
| ToolApi.SpaceEnd | src/toolApi.ts:23 | the end of the white-space run starting at the index |
| ToolApi.CommaStripDeletes | src/toolApi.ts:23 | removing trailing commas only deletes characters |
| ToolApi.CommaStripKeepsPrefix | src/toolApi.ts:23 | a prefix in which no comma stands before white space and a closer passes unchanged, when the rest starts with neither |
| ToolApi.TrailingCommaRemoved | src/toolApi.ts:23 | after any text in which no comma stands before white space and a closer (other members' commas included), a comma and the white space up to a closing bracket go, and the bracket stays |
| ToolApi.CommaBeforeValueKept | src/toolApi.ts:23 | a comma before anything but a closing bracket stays |
| ToolApi.CommaStripIdentity | src/toolApi.ts:23 | text without commas is unchanged |
| ToolApi.SanitizeDeletes | src/toolApi.ts:12-23 | the cleaned text is the input with characters deleted, so never longer |
| ToolApi.SanitizeIdentity | src/toolApi.ts:12-23 | a bracketed text with no `/` and no comma comes out unchanged |
| ToolApi.FetchToolsOrder | src/toolApi.ts:3-29 | a rejected request or a non-ok reply fails before parsing; a strict parse wins; the cleaned text is parsed only after that fails, and its failure is reported |
| ToolApi.LocalFallbackOrder | toolApi.js:3-36 | the local file is consulted only after both remote parses fail, so a rejected request never reaches it; if it fails too, the tolerant parse's error is reported |
| ToolsCache.Cache.constructor | src/renderer/toolsCache.ts:11 | the cache starts from the given store |
| ToolsCache.Cache.GetCachedToolsJson | src/renderer/toolsCache.ts:9-26 | the store and the result become the specified cache step |
| ToolsCache.CacheHitIff | src/renderer/toolsCache.ts:11-17 | the cache is used exactly when an entry exists, is non-empty, decodes, no refresh is forced and it is under an hour old; the store is then unchanged |
| ToolsCache.OneHourIsStale | src/renderer/toolsCache.ts:15 | an entry exactly one hour old is refetched |
| ToolsCache.ForceRefreshFetches | src/renderer/toolsCache.ts:12-22 | a forced refresh always gives the fetch's outcome, a rejected request included |
| ToolsCache.StoreWrittenOnlyOnSuccess | src/renderer/toolsCache.ts:21-25 | only a successful fetch writes, and only the one key with the start time; a failure leaves the store as it was |
| ToolsCache.FetchedCatalogServedWithinHour | src/renderer/toolsCache.ts:10-25 | a fetched catalog is served from the cache by every unforced call within the hour |
| AppRules.Dedupe | src/renderer/App.tsx:563 | the same elements without repetitions, and never longer |
| AppRules.FirstIndex | src/renderer/App.tsx:563 | the position of the first occurrence of an element |
| AppRules.DedupeKeepsFirstOccurrenceOrder | src/renderer/App.tsx:563 | the kept elements are listed in the order of their first occurrences in the input |
| AppRules.DedupeOfDistinct | src/renderer/App.tsx:563 | a list without repetitions is kept as it is |
| AppRules.KnownInstalled | src/renderer/App.tsx:70 | exactly the catalog services whose name is installed |
| AppRules.KnownInstalledKeepsOrder | src/renderer/App.tsx:70 | the filter distributes over concatenation, so catalog order is kept |
| AppRules.KnownInstalledOne | src/renderer/App.tsx:70 | one service is kept exactly when its name is installed |
| AppRules.Extras | src/renderer/App.tsx:72 | exactly the installed names the catalog lacks, shown under their own name |
| AppRules.ServicesListRows | src/renderer/App.tsx:68-73 | each row is an installed catalog service or an unknown installed name; every installed name has a row |
| AppRules.PlaceholderIffNothingInstalled | src/renderer/App.tsx:73-74 | the placeholder shows exactly when nothing is installed; catalog rows come first |
| AppRules.ExtrasDistinct | src/renderer/App.tsx:72 | the rows for unknown names carry distinct names |
| AppRules.SaveAllowedIff | src/renderer/App.tsx:442-448 | saving is allowed exactly with a service name and a blank port or an integer port in 1..65535 |
| AppRules.FindVersion | src/renderer/App.tsx:482 | the first entry with the requested version, or none |
| AppRules.PickVersionFacts | src/renderer/App.tsx:480-485 | none exactly for an empty list; the requested version at its first occurrence when present; otherwise the first entry |
| AppRules.PlanInstallFacts | src/renderer/App.tsx:488-492 | an install is planned exactly with a picked version that has a URL; the x64 URL is preferred |
| AppRules.RemoveFolder | src/renderer/App.tsx:575 | exactly the other folders remain |
| AppRules.AddFolderFacts | src/renderer/App.tsx:562-563 | after adding, no repetitions and the new folder is present; a clean list grows by it at the end, or stays when it already held it |
| AppRules.AddFolderIdempotent | src/renderer/App.tsx:563 | adding a folder twice equals adding it once |
| AppRules.RemoveFolderKeepsOrder | src/renderer/App.tsx:575 | removal keeps the order of the remaining folders |
| AppRules.RemoveAbsentFolder | src/renderer/App.tsx:575 | removing an absent folder changes nothing |
| AppRules.RemoveUndoesAdd | src/renderer/App.tsx:563-575 | removing a folder just added restores the list |
| AppRules.AppendServiceFacts | src/renderer/App.tsx:462-465 | a service of that name is present afterwards, old entries stay, appending again changes nothing, and names stay distinct |

## Left out

- Network I/O and streams are values. The HTTP response is a value: a request error, or a
  status with a content length, a list of chunks and a stream-error flag. Chunk events and
  piping are not modelled.
- SHA-256 itself is an uninterpreted function parameter. Only the prefix rule and the exact
  comparison are modelled.
- The archive libraries, `rename` and `copyFile` are oracles per attempt and entry. The
  staging directory's random name is a parameter. Archive entries are top-level files; nested
  archive folders are not modelled.
- The `delay` timers are not modelled; only the computed wait values are kept.
- Floating point: `Math.round(received/total*100)` and `Math.round(pct*0.7)` are modelled in
  integers, rounding halves up. The two can differ where a float product lands just below .5.
- `parseInt` of the content-length header is not modelled; the model receives the parsed
  number, with 0 standing for absent or invalid.
- `path.join` is segment concatenation that drops empty segments. Normalisation of `..`,
  repeated separators and win32 drive letters is not modelled. `path.basename` splits on `/`,
  and on win32 also on `\`.
- Spawn details are not modelled. `spawn` is an outcome (a process id or an error message).
  Its arguments, its working directory and the child's signals are not modelled, and the exit
  event's code and signal are one text.
- AppManager.Supervisor.OnExit models the exit handler as evidently intended (see Findings).
  The un-awaited `appendLog` calls elsewhere are also taken as atomic steps in call order.
- AppManager.Supervisor.AppendLog: when the log folder or file cannot be written, the model
  changes nothing. The source catches that error before touching the buffer, so this agrees
  with it. The model does not capture the short window in which another call interleaves.
- AppManager.Supervisor.Start: the start is taken as one atomic step. The source awaits
  `fs.access`, `readdir` and the spawn between its `Already running` guard and the
  registration of the process. So two overlapping starts of one tool can both pass the guard
  and both spawn, and the second registration orphans the first child. The model does not
  capture that interleaving; AppManager.StartRefusedWhileEntryExists holds for starts that do
  not overlap.
- AppManager.Running: the table is a plain JavaScript object. A tool named like an inherited
  `Object.prototype` member (`constructor`, `toString`, `__proto__`) reads as present there.
  The model's map takes tool names to be no such member.
- ToolInstaller.InstallProgress: the config-folder `mkdir` calls at toolInstaller.js:109-111
  never fail in the model. In the source they run after `onProgress(100)`, so one that fails
  (a file named `config` in the way) rejects the install after 100 was reported.
- ToolInstaller.AfterDownloadFacts: the same infallible config-folder `mkdir` calls. Its
  "100 only on success" clause rests on them.
- ToolInstaller.Download: the write stream has no `error` listener in the source. A URL
  whose artifact name is empty (such as `https://h/?x`) makes the destination the install
  folder itself, where the real write fails unhandled. The model writes a file at that path.
- ToolInstaller.MoveEntries: entries are moved in the order the archive lists them. The real
  `readdir` order of the staging folder is up to the operating system.
- AppManager.FindCorrect: directory listings are taken in the order given; the real order of
  `readdir` is up to the operating system.
- Strings.ToLower lowers ASCII letters only; Unicode case mapping is not modelled.
- Dates are not modelled: `new Date().toISOString()` and `Date.now()` are passed in as
  parameters.
- The JSON codec is not modelled: `JSON.parse`, `JSON.stringify` and `res.json()` are function
  parameters or outcomes.
- ToolsCache.FetchedCatalogServedWithinHour requires the codec to round-trip, which the real
  `JSON.stringify`/`JSON.parse` pair does for the catalog data.
- AppRules.SaveAllowedIff: `Number(port)` is a parameter that yields an integer or nothing. Hex,
  exponent and white-space spellings are the parameter's concern.
- The wider `App.tsx` UI is not modelled: rendering, React state setters, IPC calls, the theme
  and the `meta || created` choice of which service's versions to use are all left out. The
  version list is passed in directly.
- Several files are left out as thin wrappers or glue: the Electron glue (`src/main.ts` and
  the preload scripts), `src/configService.ts`, `configService.js` and
  `src/listDirectories.js`.
- ToolInstaller.InstallOkIff, ToolInstaller.AfterDownloadFacts and
  ToolInstaller.InstallFailureCause assume two things:
  - the staging directory (under the system temp folder) and the install folder do not
    overlap;
  - archive entries have distinct names.
- ToolInstaller.InstallProgress and LegacyInstaller.LegacyProgress assume the body does not
  exceed an announced content length. With a longer body, the real code reports percentages
  above 100.

## Findings

| source | as written | input that shows it | evidently intended | confidence | as-written member | corrected member |
|---|---|---|---|---|---|---|
| src/appManager.ts:90-93 | the exit handler calls `appendLog` without awaiting it and then deletes the entry; `appendLog` re-creates the entry after its file write, so a process-less entry remains | a started tool whose process exits while the log folder is writable: afterwards `isRunning` is true and every start throws `Already running` | the exit removes the entry, so the tool can be started again | not executed | AppManager.ExitAsWritten (lemma AppManager.ExitAsWrittenBlocksRestart) | AppManager.ExitSpec (lemma AppManager.ExitAllowsRestart; used by AppManager.Supervisor.OnExit) |
