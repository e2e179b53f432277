# LunarVPN core decisions, modelled in Dafny

LunarVPN is a VPN client and server written in Go. This project models the
parts of it that decide something from plain data:

- **Credential check** (`core/auth.go`). `StaticAuth.Authenticate` splits the
  hello's credential blob at its first `:` into login and password. It then
  looks the login up in a fixed table.
- **Client configuration** (`cmd/client/windows.go`). This covers two parts:
  - `parseLayers` turns the `-layers` argument, such as `"0, 2,1"`, into
    indices of the layer catalog;
  - the line filter of `loadListFile` reads whitelist and blacklist files.
    It keeps trimmed lines that are neither blank nor `#`/`//` comments.

  The model also covers the default file contents written when a list file
  is missing.
- **Updaters** (`cmd/starter.go`, the launcher, and
  `cmd/client/updater.go`, the Windows client). Both take the same steps:
  1. pick the first release tagged `commercial`;
  2. pick its first asset named `GOOS.….zip`;
  3. read the version out of the asset name (`extractVersion` /
     `extractGitVersion`);
  4. compare it with the installed version (`compareVersions`);
  5. download only when the remote version is strictly newer.

  Before downloading, the launcher also asks the user. The answer must be
  `y`, `yes`, `д` or `да`, after lower-casing and trimming.

The two Go files hold identical copies of `compareVersions`, of the version
extraction and of the two searches. The model defines each of them once:
`Versions` holds the comparison and `Releases` holds the rest. Both updater
modules use them.

Modules:

| file | module | what |
|---|---|---|
| `results.dfy` | `Results` | `Option` and `Result`, standing in for nil pointers and `(value, error)` pairs |
| `text.dfy` | `Text` | the Go `strings`/`strconv` functions the core calls, on sequences, with their laws (split/join round trips, first occurrence, trimming, `Atoi` reading back decimal text) |
| `auth.dfy` | `Auth` | `StaticAuth.Authenticate` on byte strings |
| `client_config.dfy` | `ClientConfig`, `ListDefaults` | `parseLayers`, the list-file filter, the default list files |
| `versions.dfy` | `Versions` | `compareVersions` as a loop, proved against a zero-padded lexicographic order |
| `releases.dfy` | `Releases` | releases, assets, the two first-match searches, version extraction, the shared update plan |
| `starter.dfy` | `Starter` | the launcher's `CheckAndUpdate`, including the confirmation prompt |
| `updater.dfy` | `Updater` | the client's `CheckAndUpdate` |

Go's loops appear as methods with loop invariants: `parseLayers`, the
list-file loop, `compareVersions` and the two searches. The list-file loop,
`compareVersions` and the searches are proved equal to specification
functions, and the properties proved are about those functions.
`parseLayers` states its result directly: the error for empty input, one
index per valid part, and the error of the first invalid part. Each
`CheckAndUpdate` has no loop of its own. It is a straight-line method over
the searches and is proved equal to a `Decide` function.

Inputs from the environment are parameters:

- `runtime.GOOS` is `goos`;
- the installed version is `appVersion` or `currentVersion`;
- the decoded GitHub release list is `releases`;
- the word `fmt.Scanln` stores is `answer`.

A `CheckAndUpdate` call ends in one of four `Outcome`s:

- an `Error`;
- `Latest`, for the "already the newest" return: `(false, nil)` in the
  launcher, `nil` in the client;
- `Declined`, the launcher only. Go returns the same `(false, nil)` here as
  for `Latest` (cmd/starter.go:196-198), so the launcher's `main` then also
  prints "application version is latest" (cmd/starter.go:75-76). The model
  keeps the two apart; Go's return value does not;
- `Download(url, archiveName)`. This stands for downloading the asset into a
  temporary file of that name and unpacking it, which is I/O.

## Model

| member | source | states |
|---|---|---|
| Auth.StaticAuth.Authenticate | core/auth.go:15-31 | empty credential data is rejected; data without a `:` is rejected |
| Auth.AuthenticateIff | core/auth.go:15-31 | accepted exactly when the data has a first `:` whose prefix is a login in the table and whose suffix equals that login's password |
| Auth.CredentialsSplitAtFirstColon | core/auth.go:21-29 | for a colon-free login, `login:password` is accepted iff the table maps that login to exactly that password, however many `:` the password holds |
| Auth.AuthenticateRoundTrip | core/auth.go:20-30 | every table entry with a colon-free login authenticates with `login:password` |
| Auth.WrongPasswordRejected | core/auth.go:26-29 | a known login with any other password is rejected |
| Auth.ColonKeyNeverMatches | core/auth.go:21-27 | a table key containing `:` never takes part in a decision: removing it changes no outcome |
| ClientConfig.ParseLayers | cmd/client/windows.go:171-193 | empty input gives "no layers specified"; success iff every comma-separated part, trimmed, is an integer in `[0, catalog size)`; then one index per part, in order, equal to that integer; failure names the first bad part with its error |
| ClientConfig.ParseParts | cmd/client/windows.go:179-192 | the loop over the parts succeeds iff every part is valid, then yields each part's index in order; otherwise it returns the first invalid part's error |
| ClientConfig.ReadPart | cmd/client/windows.go:180-189 | one part is accepted iff, trimmed, it is an integer in `[0, catalog size)`, giving that integer; otherwise "invalid layer index" for a non-integer, "out of range" for an integer outside the catalog |
| ClientConfig.EmptyPartIsInvalid | cmd/client/windows.go:176-183 | `"1,,2"` splits into `"1"`, `""`, `"2"`, and the empty part is an invalid layer index |
| ClientConfig.ParseListFile | cmd/client/windows.go:141-157 | the list read from the contents is the `Entries` of its `\n`-separated lines |
| ClientConfig.FilterLines | cmd/client/windows.go:144-155 | the loop over the lines returns their `Entries`: each line trimmed, kept unless blank or a comment, in order |
| ClientConfig.EntriesAreClean | cmd/client/windows.go:144-155 | every kept entry is trimmed, non-empty and starts with neither `#` nor `//` |
| ClientConfig.EntriesBounded | cmd/client/windows.go:141-157 | there are no more entries than `\n`-separated lines |
| ClientConfig.EntriesComplete | cmd/client/windows.go:144-155 | every line that, once trimmed, is non-empty and not a comment is among the entries in its trimmed form |
| ClientConfig.EntriesSound | cmd/client/windows.go:144-155 | conversely, every entry is the trimmed form of some line that, trimmed, is non-empty and not a comment |
| ClientConfig.CommentLinesHaveNoEntries | cmd/client/windows.go:147-152 | lines that are all blank or comments yield no entries |
| ListDefaults.HintsAreCommentLines | cmd/client/windows.go:87-96 | each line of the default list files is a single trimmed `#` comment |
| ListDefaults.CommentFileHasNoEntries | cmd/client/windows.go:141-152 | a file joined from comment lines and blank lines yields an empty list |
| ListDefaults.DefaultWhitelistIsEmpty | cmd/client/windows.go:87-88 | the default whitelist file yields an empty whitelist |
| ListDefaults.DefaultBlacklistIsEmpty | cmd/client/windows.go:96 | the default blacklist file yields an empty blacklist |
| Versions.CompareVersions | cmd/starter.go:119-141 | the loop returns the zero-padded lexicographic comparison of the numeric components, and only -1, 0 or 1 |
| Versions.LexFirstDifference | cmd/starter.go:123-139 | when the components agree before position k and differ at k, position k decides the result |
| Versions.LexEqualIff | cmd/client/updater.go:29-46 | the comparison gives 0 exactly when the zero-padded components agree everywhere |
| Versions.CompareReflexive | cmd/starter.go:119-141 | every version compares equal to itself |
| Versions.CompareAntisymmetric | cmd/client/updater.go:25-47 | swapping the arguments negates the result |
| Versions.CompareTransitive | cmd/starter.go:119-141 | "not newer than" is transitive |
| Versions.ComponentsOfVersionString | cmd/starter.go:120-131 | a version written from natural numbers reads back as those numbers |
| Versions.CompareVersionStrings | cmd/client/updater.go:25-47 | written versions compare as their number lists, so `1.10` is newer than `1.9` |
| Versions.TrailingZeroIgnored | cmd/starter.go:124-131 | a missing trailing component counts as 0: `1.2` equals `1.2.0` |
| Versions.NonNumericPartIsZero | cmd/client/updater.go:30-37 | a non-numeric trailing component counts as 0: `1.beta` equals `1` |
| Releases.FirstCommercial | cmd/starter.go:160-170 | the index found is the first release tagged `commercial`; there is none exactly when no release has that tag |
| Releases.FindCommercial | cmd/client/updater.go:66-76 | the release loop stops at the first release tagged `commercial` |
| Releases.FirstPlatformArchive | cmd/starter.go:172-179 | the index found is the first asset named with prefix `GOOS.` and suffix `.zip`; there is none exactly when no asset qualifies |
| Releases.FindAsset | cmd/client/updater.go:78-85 | the asset loop leaves the first matching asset's name and URL, or two empty strings |
| Releases.ExtractVersion | cmd/starter.go:278-285 | fails with "invalid asset name" exactly when the name, less one trailing `.zip`, has no `.`; otherwise returns the text after its first `.` |
| Releases.ArchiveName | cmd/starter.go:201 | the archive name `GOOS.version.zip` is 5 characters longer than `GOOS` and `version` together, and is itself a name the asset search accepts for `GOOS` |
| Releases.ExtractVersionRoundTrip | cmd/client/updater.go:169-176 | for a dot-free platform name, the version read from the archive name `GOOS.v.zip` that the updater builds is `v` |
| Releases.ArchiveNameMatchesAsset | cmd/starter.go:174-201 | for a dot-free platform name, the archive name rebuilt from the extracted version equals the chosen asset's name |
| Releases.OverlappingArchiveNameRejected | cmd/starter.go:174-187 | the asset search accepts `GOOS.zip`, but version extraction then fails on it |
| Releases.PlanUpdate | cmd/client/updater.go:66-97 | the release search, asset search, version extraction and version gate compute the update plan |
| Releases.PlanCommercialNotFound | cmd/client/updater.go:66-76 | the "commercial not found" error occurs exactly when no release has that tag |
| Releases.PlanAssetNotFound | cmd/client/updater.go:78-89 | the "can not find the github asset" error occurs exactly when a commercial release exists and its first platform archive is missing or has an empty URL |
| Releases.PlanInvalidAssetName | cmd/starter.go:181-188 | the "invalid asset name" error occurs exactly when the chosen archive has a URL but no `.` once `.zip` is removed |
| Releases.PlanFetchIsFirstNewerArchive | cmd/starter.go:160-191 | a fetch is planned only for the first matching asset of the first commercial release, with a non-empty URL and a strictly newer extracted version |
| Releases.NotNewerMeansNoFetch | cmd/client/updater.go:95-97 | with an asset found, the plan is "up to date" iff the remote version is not newer, and a fetch iff it is |
| Releases.UpdateReachesFixpoint | cmd/starter.go:189-191 | after installing the fetched version, the same releases plan no update |
| Releases.OlderInstallAlsoUpdates | cmd/client/updater.go:95-97 | an installation no newer than one that would update gets the same update |
| Releases.LaterReleasesIgnored | cmd/client/updater.go:66-72 | releases after the first commercial one never change the plan |
| Starter.LowerChar | cmd/starter.go:195 | ASCII and basic Cyrillic capitals map to lower case; other characters are unchanged |
| Starter.ToLower | cmd/starter.go:195 | the lower-cased answer has the same length and no remaining capitals |
| Starter.ToLowerIdempotent | cmd/starter.go:195 | lower-casing twice equals lower-casing once |
| Starter.ConfirmsUpdate | cmd/starter.go:195-196 | a confirming answer is non-empty and, lower-cased and trimmed, starts with `y` or `д` |
| Starter.ConfirmsCaseInsensitive | cmd/starter.go:195-196 | an answer and its lower-cased form are accepted alike |
| Starter.EmptyAnswerDeclines | cmd/starter.go:193-199 | an empty line, the prompt's default, declines |
| Starter.UpperCaseYesAccepted | cmd/starter.go:195-196 | `YES` is accepted |
| Starter.CyrillicYesAccepted | cmd/starter.go:196 | `ДА` is accepted |
| Starter.CheckAndUpdate | cmd/starter.go:143-213 | the launcher's outcome is the shared plan's error or "latest"; a planned fetch goes ahead with `GOOS.version.zip` only after a confirming answer |
| Starter.DownloadOnlyNewerAndConfirmed | cmd/starter.go:189-201 | a download implies a confirming answer, a strictly newer version and the chosen asset's URL; for a dot-free platform the archive name is the asset's name |
| Starter.DeclineNeverDownloads | cmd/starter.go:196-199 | a non-confirming answer never downloads and acts like an empty answer |
| Starter.AnswerOnlyMattersForNewer | cmd/starter.go:185-191 | without a newer version, every answer gives the same outcome, never "declined" |
| Updater.CheckAndUpdate | cmd/client/updater.go:49-111 | the client's outcome is the shared plan's error, "latest", or the download of a planned fetch into `GOOS.version.zip` |
| Updater.NeverDeclines | cmd/client/updater.go:95-99 | the client has no prompt, so no outcome is "declined" |
| Updater.DownloadIffNewer | cmd/client/updater.go:87-99 | once the chosen archive has a URL and a readable version, the client downloads iff that version is strictly newer, and otherwise reports "latest" |
| Updater.InstalledVersionIsLatest | cmd/client/updater.go:95-97 | after installing the downloaded version, the same releases report the client as up to date |

## Left out

- HTTP requests, status checks, JSON decoding, downloads, zip extraction, file creation and rename are not modelled. This covers `downloadFile` and `applyUpdate` in both updaters. `Download(url, archiveName)` stands for their run; their I/O errors and the final `(true, nil)` / `os.Exit(0)` are not modelled.
- `progressWriter` is not modelled. It prints a download percentage computed in floating point.
- Not modelled: the launcher's `main`, `run` (process start through PowerShell or `exec`), `getClientVersion`, and the executable-path lookup. Their results are parameters.
- Printed messages are not modelled. This includes the prompt text. The prompt asks "Skip update? [y/N]", yet an accepting answer goes ahead with the update; the model follows the code.
- `Starter.LowerChar`: does not model full Unicode `strings.ToLower`. It covers ASCII and the basic Cyrillic capitals U+0400–U+042F, which include every letter of the accepted answers.
- `Text.TrimSpace` trims ASCII white space only, not the other Unicode spaces Go also trims.
- `Text.Atoi` reads an optional sign and decimal digits with no bound. Go's `ErrRange` for values beyond 64 bits is not modelled. In `parseLayers` such a part is an "invalid layer index" in Go; here it reads as its value and is reported "out of range".
- `Versions.CompareVersions`: components are unbounded integers. Go discards the `strconv.Atoi` error (cmd/starter.go:126, 130), and for a component beyond 64 bits that call returns the value clamped to the largest or smallest `int`. Go therefore compares `1.99999999999999999999` and `1.99999999999999999998` as equal; the model compares them by value and returns 1.
- `ClientConfig.ParseLayers`: requires a layer catalog of at most 256 entries. This keeps `uint8(idx)` from wrapping around, so the truncation is not modelled. The actual layer objects are reduced to the catalog's size.
- `main` in `cmd/client/windows.go` prints the `parseLayers` error and continues with a nil list. That, flag parsing, the logger, `ensureFile`, `os.ReadFile` and the connection are not modelled. The list filter takes the file contents as input.
- `core.ClientHello` is reduced to its `AuthData` bytes. The `Authenticator` interface is represented by its one implementation, `StaticAuth`. The login and password bytes are compared directly, as Go compares the strings converted from them.
- Layer encoding, the handshake, client and server sessions, split-tunnel routing and their concurrency are not modelled: that code is not part of this model.
- `Releases.FindCommercial`: returns the index of the chosen release where Go keeps a pointer into the slice. The release is then read by that index.
