# Harmony self-updater: a Dafny model

This project models the decision logic of the mod that keeps the game's copy of the
Harmony library (`Managed/0Harmony.dll`) up to date (`0HarmonyUpdater/Main.cs`). It
covers each step of the updater:

1. **Load switch.** At load, a `DisableWebUpdate.txt` sentinel turns `UpdateFromGithub` off.
2. **Read versions.** It reads the file versions of the installed copy and of the copy bundled with the mod.
3. **Find the newest release.** `TryDownloadHarmonyRelease` fetches the GitHub release page and splits it into trimmed, non-blank lines (`GetLines`). It matches every line against the release-tag pattern. It keeps the first release whose version is at least every other one.
4. **Newer gate.** It stops unless that release is strictly newer than the installed copy.
5. **Choose an asset.** It turns the release link into the expanded-assets link by replacing `tag`. It matches the asset pattern, prefers a path containing `Fat` over the first path, downloads that zip, and takes `net48/0Harmony.dll` out of it.
6. **Install.** `doUpdate` takes the downloaded bytes. Without them it takes the bundled copy, but only when that copy is strictly newer. It moves the old file to `<path>.<old version>`, writes the new one, reads its version back, and queues a restart notice when Harmony was already loaded.

The model is written as follows:

- **External services are parameters.** The network (`Fetch`), the zip reader (`Unzip`) and the file-version reader (`Metadata`) are function parameters. The sentinel file is a boolean argument. The app domain query is a boolean field of `Host`.
- **Files.** The file system is a map from path to bytes.
- **Mutable state.** The updater's state is the class `Updater.HarmonyUpdater`. It holds the files, `UpdateFromGithub` and the queued notices.
- **Pure logic.** The regular expressions, `String.Split`, `Trim`, `Replace`, `Version.Parse` and the LINQ pipelines are pure functions with the .NET semantics the code relies on:
  - empty pieces are kept by `Split`;
  - `Char.IsWhiteSpace` characters are removed by `Trim`;
  - the leftmost match and greedy runs are taken by `Regex.Match`;
  - the first greatest element is kept by the stable `OrderByDescending(...).First()`;
  - a component above `Int32.MaxValue` makes `Version.Parse` throw.
- **Faults.** An exception that faults the download's `Task` is a `Failure` of `DownloadError`. An exception from a file step is a `Failure` of `FileError`.

Ties between equal release versions go to the earliest matching line. The code fixes this through the stable sort.

## Model

| member | source | states |
|---|---|---|
| Strings.Split | 0HarmonyUpdater/Main.cs:48 | `s.Split('\n')` always yields at least one piece, and no piece holds the separator |
| Strings.SplitAtSeparator | 0HarmonyUpdater/Main.cs:48 | splitting `a + sep + b` gives the pieces of `a` followed by the pieces of `b` |
| Strings.JoinSplit | 0HarmonyUpdater/Main.cs:48 | joining the pieces of a split with the separator gives the text back |
| Strings.SplitJoin | 0HarmonyUpdater/Main.cs:48 | splitting separator-free pieces joined by the separator gives the pieces back |
| Strings.Replace | 0HarmonyUpdater/Main.cs:80 | ordinal `String.Replace`, left to right without overlaps; its meaning is stated by `ReplaceSkips`, `ReplaceWithoutOccurrence` and `ReplaceOnce` |
| Strings.ReplaceSkips | 0HarmonyUpdater/Main.cs:80 | text that cannot start an occurrence of the old value passes through `Replace` unchanged |
| Strings.ReplaceWithoutOccurrence | 0HarmonyUpdater/Main.cs:80 | `Replace` leaves text without any occurrence of the old value as it is |
| Strings.ReplaceOnce | 0HarmonyUpdater/Main.cs:80 | an occurrence with no other occurrence around it is replaced and nothing else changes |
| Strings.FilterMap | 0HarmonyUpdater/Main.cs:66-69 | the `Select`/`Where(Success)`/`Select` pipeline: no more results than lines, empty exactly when no line matches, every result is the match of some line |
| Strings.FilterMapAppend | 0HarmonyUpdater/Main.cs:94-98 | the pipeline keeps line order: results for concatenated lines are the concatenated results |
| Versions.Less | 0HarmonyUpdater/Main.cs:70 | `Version` comparison: the first component that differs decides; `LessIsStrictTotalOrder` states that this is a strict total order |
| Versions.LessEq | 0HarmonyUpdater/Main.cs:77 | `<=` on versions, used for the newer gate (line 77) and the bundled-copy test (line 159); `LessEqFacts` states it is the negation of `>` |
| Versions.LessIsStrictTotalOrder | 0HarmonyUpdater/Main.cs:70 | the version order used to sort releases is irreflexive, transitive, asymmetric and total |
| Versions.LessEqFacts | 0HarmonyUpdater/Main.cs:77 | `<=` on versions is transitive and is exactly "not greater" |
| Versions.ParseVersion | 0HarmonyUpdater/Main.cs:73 | `Version.Parse` succeeds only on four dotted digit runs with every component within `Int32.MaxValue`, and its result is the decimal value of each run in order; well-formed text fails only when some component overflows |
| Versions.ToString | 0HarmonyUpdater/Main.cs:165 | `Version.ToString()` prints four dotted digit runs; `ParseToString` states that the text parses back to the version |
| Versions.ParseToString | 0HarmonyUpdater/Main.cs:165 | a version printed as in the backup file name parses back to the same version |
| Artifact.ParseFileVersion | 0HarmonyUpdater/Main.cs:37 | a missing file is `FileNotFound`; success means the metadata's version text parses to the result, in range; failure on an existing file means no version text or text that does not parse |
| Lines.Trim | 0HarmonyUpdater/Main.cs:49 | the trimmed line neither starts nor ends with white space |
| Lines.TrimStartRemovesWhiteSpace | 0HarmonyUpdater/Main.cs:49 | everything removed at the front is white space |
| Lines.TrimEndRemovesWhiteSpace | 0HarmonyUpdater/Main.cs:49 | everything removed at the back is white space |
| Lines.TrimStrips | 0HarmonyUpdater/Main.cs:49 | the trimmed line is a contiguous slice of the original, with only white space cut on either side |
| Lines.TrimKeepsCharacters | 0HarmonyUpdater/Main.cs:49 | trimming adds no character |
| Lines.TrimTrimmed | 0HarmonyUpdater/Main.cs:49 | trimming a trimmed line changes nothing |
| Lines.TrimEmpty | 0HarmonyUpdater/Main.cs:49-50 | `Trim` leaves the empty string exactly when the line is all white space |
| Lines.NonBlank | 0HarmonyUpdater/Main.cs:49-50 | a piece is dropped exactly when it is all white space; a kept piece is its trim, non-empty and trimmed |
| Lines.GetLines | 0HarmonyUpdater/Main.cs:47-51 | split on '\n', trim, drop empty pieces; its meaning is stated by `GetLinesClean`, `GetLinesPiece`, `GetLinesAppend` and `GetLinesJoin` |
| Lines.GetLinesPiece | 0HarmonyUpdater/Main.cs:47-51 | a text without a line break gives no line when it is all white space, and otherwise exactly its trim |
| Lines.GetLinesClean | 0HarmonyUpdater/Main.cs:47-51 | every line `GetLines` returns is non-empty, holds no line break and is its own trim |
| Lines.GetLinesAppend | 0HarmonyUpdater/Main.cs:47-51 | the lines of `a + "\n" + b` are the lines of `a` followed by the lines of `b` |
| Lines.GetLinesJoin | 0HarmonyUpdater/Main.cs:47-51 | `GetLines` gives back clean lines joined by '\n', nothing lost, reordered or altered |
| Patterns.Leftmost | 0HarmonyUpdater/Main.cs:67 | `Regex.Match` reports the leftmost start at which the pattern matches; no match means it matches nowhere |
| Patterns.LeftmostAt | 0HarmonyUpdater/Main.cs:67 | a match at `b` with no match before `b` is the one reported |
| Patterns.NumbersAtShape | 0HarmonyUpdater/Main.cs:41 | what `\d+(\.\d+){n}` matches is `n + 1` digit runs separated by dots |
| Patterns.NumbersAtFinds | 0HarmonyUpdater/Main.cs:41 | dotted digit runs followed by a non-digit are matched exactly to their end |
| Patterns.ReleaseAt | 0HarmonyUpdater/Main.cs:41 | a release-pattern match starts with the literal release prefix and ends after it |
| Patterns.ReleaseShape | 0HarmonyUpdater/Main.cs:41 | the matched text is the release prefix followed by a four-part version, and occurs in the line |
| Patterns.ReleaseMatch | 0HarmonyUpdater/Main.cs:67 | the position of `ReleaseRegex.Match`: the pattern matches there and at no earlier start; `None` exactly when it matches nowhere |
| Patterns.MatchRelease | 0HarmonyUpdater/Main.cs:67-69 | a match's path is the line's text over the leftmost match, the release prefix plus its captured version; the version is four dotted digit runs; no match exactly when the pattern fits nowhere |
| Patterns.MatchReleaseFinds | 0HarmonyUpdater/Main.cs:41 | a line holding a release link (no '/' before it, a non-digit after it) yields that link and its version |
| Patterns.DottedQuadFound | 0HarmonyUpdater/Main.cs:41 | a four-part version followed by a non-digit is matched by the version group to its end |
| Patterns.ReleaseFoundAt | 0HarmonyUpdater/Main.cs:41 | the release pattern matches a release link up to the end of its version |
| Patterns.AssetAt | 0HarmonyUpdater/Main.cs:92 | a match of the asset pattern at a position ends after it and inside the line; `AssetShape` states what it matches |
| Patterns.AssetShape | 0HarmonyUpdater/Main.cs:92 | what the asset pattern matches is the head pattern, a `[\w\-]*` run, a dot and the tail pattern |
| Patterns.AssetMatch | 0HarmonyUpdater/Main.cs:95 | the position of `zipPathRegex.Match`: the pattern matches there and at no earlier start; `None` exactly when it matches nowhere |
| Patterns.MatchAsset | 0HarmonyUpdater/Main.cs:95-97 | a match's value is the line's text over the leftmost match and has the asset pattern's shape; no match exactly when the pattern fits nowhere |
| Patterns.MatchAssetFinds | 0HarmonyUpdater/Main.cs:92 | a line holding the link of an asset of the release yields exactly that asset path |
| Patterns.AssetFoundAt | 0HarmonyUpdater/Main.cs:92 | the asset pattern matches an asset path exactly to its end |
| Discovery.ReleaseTags | 0HarmonyUpdater/Main.cs:66-69 | every release link found is the release prefix followed by a four-part version; `DownloadWithoutRelease` states what happens when there is none |
| Discovery.ParseAll | 0HarmonyUpdater/Main.cs:70 | every release version parses, in order, or some release version fails to parse |
| Discovery.NewestIndex | 0HarmonyUpdater/Main.cs:70-71 | the index chosen is at least every other version and strictly greater than every earlier one |
| Discovery.NewestIndexUnique | 0HarmonyUpdater/Main.cs:70-71 | that index is the only one with this property |
| Discovery.NewestRelease | 0HarmonyUpdater/Main.cs:66-73 | no release link faults with `NoRelease`, exactly; an overflowing version faults with `VersionOverflow`, exactly; success is the first greatest release with its parsed version |
| Discovery.NewestReleaseAt | 0HarmonyUpdater/Main.cs:70-71 | conversely, the first greatest release is the one selected |
| Discovery.ExpandedAssetsUri | 0HarmonyUpdater/Main.cs:80 | the site base followed by the release path with `tag` replaced; `ExpandedAssetsOfRelease` states the result for a release link |
| Discovery.ExpandedAssetsOfRelease | 0HarmonyUpdater/Main.cs:80 | for a release link the substitution replaces exactly the `tag` segment: `https://github.com/pardeike/Harmony/releases/expanded_assets/v<version>` |
| Discovery.AssetPaths | 0HarmonyUpdater/Main.cs:94-98 | every asset path found has the asset pattern's shape; `MatchAssetFinds` and `FilterMapAppend` state that the links present are found in line order |
| Discovery.FirstFat | 0HarmonyUpdater/Main.cs:100 | `FirstOrDefault(p => p.Contains("Fat"))`: the first path containing "Fat", none before it, `None` exactly when no path contains it |
| Discovery.ChooseAsset | 0HarmonyUpdater/Main.cs:100 | faults with `NoAsset` exactly on an empty list; the choice is one of the paths, contains "Fat" when any path does, and is the first path otherwise |
| Discovery.ChooseAssetFat | 0HarmonyUpdater/Main.cs:100 | the first "Fat" path is chosen wherever it stands |
| Discovery.FirstEntry | 0HarmonyUpdater/Main.cs:116 | the contents of the first entry named `net48/0Harmony.dll`; `NoEntry` exactly when there is none |
| Discovery.ExtractEntry | 0HarmonyUpdater/Main.cs:114-121 | unreadable bytes are `BadArchive` exactly; otherwise the first entry named `net48/0Harmony.dll`, or `NoEntry` exactly when there is none |
| Discovery.DownloadZip | 0HarmonyUpdater/Main.cs:102-121 | a failed request yields empty bytes; after a fetched archive the result is exactly the entry extraction of its bytes; the only faults are `BadArchive` and `NoEntry` |
| Discovery.DownloadChosen | 0HarmonyUpdater/Main.cs:100-121 | `NoAsset` exactly when no asset path matched, else the download of the chosen path |
| Discovery.DownloadAsset | 0HarmonyUpdater/Main.cs:80-121 | a failed request for the asset list yields empty bytes, else the choice among the asset paths on its lines |
| Discovery.DownloadIfNewer | 0HarmonyUpdater/Main.cs:77-78 | a release not newer than the installed one yields empty bytes; bytes come only for a strictly newer release |
| Discovery.TryDownloadHarmonyRelease | 0HarmonyUpdater/Main.cs:45-122 | a failed page request yields empty bytes; a failed selection faults the download's `Task` with its error; otherwise the newer-gate on the selected release |
| Discovery.DownloadOnlyNewer | 0HarmonyUpdater/Main.cs:61-78 | bytes come back only when the page was fetched and its newest release is strictly newer than the installed version |
| Discovery.DownloadDeliversEntry | 0HarmonyUpdater/Main.cs:61-121 | when every request succeeds, the newest release is newer and an asset is chosen, the result is the first `net48/0Harmony.dll` entry of that asset's archive |
| Discovery.DownloadWithoutRelease | 0HarmonyUpdater/Main.cs:66-71 | a fetched page with no release link faults the download's `Task` with `NoRelease` |
| Updater.BackupPath | 0HarmonyUpdater/Main.cs:165 | the backup name extends the library path and differs from it |
| Updater.RestartMessage | 0HarmonyUpdater/Main.cs:174 | the notice text with the old and new versions; `UpdateNotice` states when it is queued and with which versions |
| Updater.Incoming | 0HarmonyUpdater/Main.cs:159-160 | remote bytes win; without them the bundled copy is read only when strictly newer, and a missing bundled file is `FileNotFound` |
| Updater.Replaced | 0HarmonyUpdater/Main.cs:165-166 | after move and write the old contents sit at the backup path, the new ones at the library path, and no other file changes |
| Updater.UpdateEffect | 0HarmonyUpdater/Main.cs:157-178 | `doUpdate` as a function of the state before it; its meaning is stated by the `Update*` lemmas below |
| Updater.UpdateInstallsIncoming | 0HarmonyUpdater/Main.cs:157-166 | `doUpdate` changes the files not at all or exactly by installing the non-empty incoming bytes with a backup |
| Updater.UpdateRemoteWins | 0HarmonyUpdater/Main.cs:159-166 | non-empty remote bytes are installed unchanged, whatever the bundled version |
| Updater.UpdateBundledWhenNewer | 0HarmonyUpdater/Main.cs:159-166 | without remote bytes a strictly newer bundled copy is installed |
| Updater.UpdateNothingToInstall | 0HarmonyUpdater/Main.cs:159-163 | without remote bytes and without a newer bundled copy nothing changes and nothing is reported |
| Updater.UpdateNotice | 0HarmonyUpdater/Main.cs:170-177 | the restart notice is queued exactly when an update was written and read back and Harmony was loaded; it names the old and the new version |
| Updater.UpdateReportsWrittenVersion | 0HarmonyUpdater/Main.cs:165-168 | the version reported is read from the bytes written, and the backup holds the old contents |
| Updater.ReadRun | 0HarmonyUpdater/Main.cs:147-151 | the run carries both versions as read from the files; it fails exactly when either read fails |
| Updater.Update | 0HarmonyUpdater/Main.cs:147-196 | the run as written: read both versions, then download and continue, or `doUpdate` alone; stated by `FaultSkipsBundled`, `OfflineInstallsBundled` and `EmptyPageSkipsBundled` |
| Updater.AfterDownload | 0HarmonyUpdater/Main.cs:185-189 | a faulted download ends the run with nothing changed and `doUpdate` not run |
| Updater.Softened | 0HarmonyUpdater/Main.cs:184-189 | corrected: a missing release or asset match becomes "no remote bytes"; every other fault and every success is kept as it is |
| Updater.AfterDownloadWithFallback | 0HarmonyUpdater/Main.cs:184-189 | corrected continuation: only faults other than a missing match end the run unchanged |
| Updater.UpdateWithFallback | 0HarmonyUpdater/Main.cs:180-196 | the corrected run; stated by `FallbackAfterSoftFailure`, `EmptyPageSkipsBundled` and `FallbackAgreesWithoutFault` |
| Updater.EmptyReleasePage | 0HarmonyUpdater/Main.cs:64-71 | an empty release page faults the download with `NoRelease` |
| Updater.FaultSkipsBundled | 0HarmonyUpdater/Main.cs:184-189 | as written, a faulted download ends the run with files and notices unchanged |
| Updater.OfflineInstallsBundled | 0HarmonyUpdater/Main.cs:196 | with `UpdateFromGithub` off a strictly newer bundled copy is installed |
| Updater.FallbackAfterSoftFailure | 0HarmonyUpdater/Main.cs:180-196 | corrected: a download yielding nothing or no match ends exactly as a run without the network |
| Updater.EmptyPageSkipsBundled | 0HarmonyUpdater/Main.cs:184-189 | an empty release page with a newer bundled copy: as written the files stay unchanged, corrected the bundled copy is installed |
| Updater.FallbackAgreesWithoutFault | 0HarmonyUpdater/Main.cs:180-196 | the correction changes nothing when the download does not fault |
| Updater.HarmonyUpdater.constructor | 0HarmonyUpdater/Main.cs:39 | `UpdateFromGithub` starts out true with no notice queued |
| Updater.HarmonyUpdater.DoUpdate | 0HarmonyUpdater/Main.cs:157-178 | the new files, notices and result are exactly those of `UpdateEffect`, about which the `Update*` lemmas state the policy; the switch is untouched |
| Updater.HarmonyUpdater.HarmonyUpdate | 0HarmonyUpdater/Main.cs:126-197 | the sentinel turns `UpdateFromGithub` off for good; the new state and outcome are those of `Update`, with download, continuation and `doUpdate` in source order |
| Updater.HarmonyUpdater.HarmonyUpdateWithFallback | 0HarmonyUpdater/Main.cs:126-197 | the same run with the corrected continuation |

## Left out

- The network requests, their `async` completion and the continuation scheduling are not modelled as such. Each request is a call of the `Fetch` parameter that succeeds (`Some`) or does not (`None`). The continuation runs right after the download, because nothing else touches the state in between.
- The relation between a response's `text` and its `data` (the encoding) is not modelled; the two are independent fields.
- Zip decoding is not modelled: it is the `Unzip` parameter. The single `Stream.Read` at line 119 may return fewer bytes than the entry holds; the model takes the whole entry.
- Reading assembly metadata (`FileVersionInfo`) is the `Metadata` parameter.
- How the sentinel path and the library paths are built from the assembly location and `Application.dataPath` is not modelled; the paths are inputs. The app domain lookup (lines 138-140) is the boolean `harmonyLoaded`.
- Logging (`Log.Log`, `Log.Exception`) is left out. The `try`/`catch` at lines 182-194 is not modelled separately: it only wraps starting the download's `Task`, and faults inside that `Task` are the `DownloadFaulted` outcome.
- Delivering the restart notice (`DelayedInvoker`, the message box) is left out. The model appends the message to `notices`.
- Write failures of `File.WriteAllBytes` and `File.ReadAllBytes` other than a missing file are not modelled.
- Versions.ParseVersion: accepts exactly four components. `Version.Parse` also takes two or three components, surrounding white space and a leading '+'. All version texts reaching it here are four dotted digit runs (release tags), or file versions, which are assumed to be in that form.
- `\d` and `\w` in the two patterns are modelled as ASCII digits and ASCII letters, digits and `_`. .NET also accepts other Unicode digits and letters.
- `HarmonyUpdate`'s `FirstOrDefault` over assemblies and the `Load` entry point are outside the model.

## Findings

| source | as written | input that shows it | evidently intended | confidence | as-written member | corrected member |
|---|---|---|---|---|---|---|
| 0HarmonyUpdater/Main.cs:66-71 | The release selection and the asset choice (line 100) call `.First()`, which throws on an empty sequence. The exception faults the download's `Task`, so `t.Result` throws in the continuation (line 187) and `doUpdate` never runs. | A release page that holds no release link (for example an empty page), with a bundled copy newer than the installed one: the run leaves the files unchanged and the bundled copy is not installed. | Finding no release or no asset means "no remote update", as a failed request does (`return []`), so `doUpdate` still installs a newer bundled copy. | not executed | Updater.EmptyPageSkipsBundled | Updater.FallbackAfterSoftFailure |
