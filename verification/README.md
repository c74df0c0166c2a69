# otoko sync core in Dafny

A model of the part of otoko that syncs a Bandcamp collection to disk:

- restrict the collection to the requested item identifiers;
- plan one relative path per item:
  - `<band>/<title>`, after the path sanitizer;
  - one ` (<id>)` per other release of the same work;
  - the encoding's extension for tracks;
- for each item, run `Download`:
  - the existence and completeness check, with the removal of a broken album;
  - resolution of the download descriptor from the item's download page;
  - the GET of the file and the status and length checks;
  - creation of the parent directory;
  - writing the body, to the file itself for a track and to `<album>.zip` for an album;
  - extraction of the album archive into the album directory;
  - removal of the archive;
- the item and sale records with their `String` forms, and the encoding to extension table.

Modules follow the source files:

| module | file | contents |
|---|---|---|
| `Outcomes` | `outcomes.dfy` | `Option` and `Result` |
| `Strings` | `strings.dfy` | `strconv.FormatInt` and its parse-back, `%02d`, `strings.Split` and the last segment, `strings.Map` |
| `FileSystem` | `filesystem.dfy` | The filesystem as a map from paths to files and directories: `Stat`, `MkdirAll`, `Create`/`OpenFile` with truncation, `Remove`, `RemoveAll`, `filepath.Join`/`Dir` |
| `Items` | `items.dfy` | `bandcamp/item.go` |
| `Downloads` | `downloads.dfy` | `bandcamp/download.go`: the extension table, `decodeBlob`'s token loop, `GetItemDownload` |
| `Extract` | `extract.dfy` | `extract.go`: `sanitizeUnicode`, entry names, `extractAlbum`/`unzipFile` |
| `SyncPlan` | `sync_plan.dfy` | `cmds_sync.go`: the ID filter, the sanitizer and the name plan |
| `SyncDownload` | `sync_download.dfy` | `cmds_sync.go`: `Download` |

The filesystem is a value: every operation is a pure function from one snapshot to the next. The network, the HTML tokenizer, the JSON decoder and the zip reader are parameters of the model:

- the page fetch is a `PageFetch`: a request error, a transport error, or the token stream;
- the JSON decoder is `unmarshal: string -> Result<PageData, string>`;
- the GET of the file is a `Fetch`, whose response body is `Complete` or `Broken` after some bytes;
- the zip reader is `readZip: Bytes -> ArchiveRead`: a format error, or the entries in order.

Three facts about the code shape the model:

- The name plan compares the raw band and title when it looks for collisions, but builds the path from the sanitized ones. So two items can get the same path. `SyncPlan.SanitizedTitlesCanCollide` gives two titles that differ only in a forbidden character. `SyncPlan.SuffixedTitleCanCollide` gives a title that already reads like a suffixed one.
- Extraction keeps spaces: the whitelist holds the space, so `Artist - 05 Track Name!.flac` is written as `05 Track Name_.flac`.
- The album completeness check looks for `%02d <title><ext>` files, names that extraction does not write when the title holds a character outside the whitelist. This is the finding below.

The sync, `SyncDownload.SyncItem`, takes the completeness check as a parameter: `AsWritten` is the loop at cmds_sync.go:134-143 as it stands, and `Corrected` is the check the finding proposes. Every other step is the same for both. The properties of one sync are stated for either check.

A track whose copy broke keeps its partial file, and the next run skips it, because only albums are checked for completeness. `SyncDownload.TrackDownload` states this.

## Model

| member | source | states |
|---|---|---|
| SyncPlan.FilterByIds | cmds_sync.go:41-46 | The kept items are exactly the collection's items whose identifier is listed, and there are no more of them than before |
| SyncPlan.SelectItems | cmds_sync.go:41-46 | With no identifiers the collection is kept whole; otherwise membership is "in the collection and listed" |
| SyncPlan.FilterByIdsAppend | cmds_sync.go:41-46 | Filtering keeps collection order: filtering a concatenation concatenates the filtered parts |
| SyncPlan.FilterByIdsKeepsListed | cmds_sync.go:41-46 | When every identifier is listed, the collection comes back unchanged |
| SyncPlan.Sanitize | cmds_sync.go:109-118 | Same length; each of `/ ? < > : \| " *` becomes `_`; every other character, non-ASCII included, stays |
| SyncPlan.SanitizeBounds | cmds_sync.go:109-118 | The result holds no forbidden character, so no `/`: band and title stay single path elements |
| SyncPlan.SanitizeIdempotent | cmds_sync.go:109-118 | Clean strings pass unchanged, and sanitizing twice is sanitizing once |
| SyncPlan.PlanNames | cmds_sync.go:48-70 | One name per item, in order, each the item's planned name within the whole selected collection |
| SyncPlan.ItemName | cmds_sync.go:51-68 | One pass of the outer loop yields the planned name: the base, the suffixes, and the extension for tracks only |
| SyncPlan.SuffixedName | cmds_sync.go:51-64 | The inner loop appends ` (<id>)` once per entry that has the same raw band and title and a different identifier |
| SyncPlan.CollisionCount | cmds_sync.go:55-64 | The inner loop counts at most one suffix per entry, and a positive count has a colliding entry behind it |
| SyncPlan.PlannedName | cmds_sync.go:51-68 | The planned name starts with the sanitized `band/title` and ends with the extension, for tracks only |
| SyncPlan.CollisionCountZero | cmds_sync.go:55-64 | The number of suffixes is at most the collection size, and zero exactly when nothing collides |
| SyncPlan.NameWithoutCollision | cmds_sync.go:48-70 | An item nothing collides with is named `band/title`, plus the extension for a track and nothing for an album |
| SyncPlan.GroupSplits | cmds_sync.go:55-64 | Within a work's group, every entry either collides with the item or shares its identifier |
| SyncPlan.GroupSuffixCount | cmds_sync.go:55-64 | With distinct identifiers in the group, an item gets one suffix per other member of its group |
| SyncPlan.NamesDistinctInGroup | cmds_sync.go:55-64 | Two colliding releases of the same work always get different names |
| SyncPlan.TrackAlbumPairExample | cmds_sync.go:48-70 | A track and an album with the same band and title are named `A/B (1)<ext>` and `A/B (2)` |
| SyncPlan.SanitizedTitlesCanCollide | cmds_sync.go:51-64 | Titles `B?` and `B*` are not collisions, yet both items are named `A/B_` |
| SyncPlan.SuffixedTitleCanCollide | cmds_sync.go:51-64 | Album `B` with a duplicate and album `B (1)` both end up named `A/B (1)` |
| Strings.FormatInt | cmds_sync.go:62 | The rendering is non-empty, starts with `-` exactly for a negative number, is digits otherwise, and holds no `)` or `/` |
| Strings.FormatIntRoundTrip | cmds_sync.go:62 | `strconv.FormatInt(id, 10)` parses back to the identifier for every 64-bit value |
| Strings.FormatIntInjective | cmds_sync.go:62 | Different identifiers render differently |
| Strings.PadTwo | cmds_sync.go:136-137 | The `%02d` rendering has at least two characters, is exactly two digits for 0 to 99, and is the plain decimal rendering outside 0 to 9 |
| Strings.TwoDigitValue | cmds_sync.go:136-137 | For 0 to 99 the two digits of the `%02d` rendering denote the number |
| Strings.PadTwoRoundTrip | cmds_sync.go:136-137 | The `%02d` track number parses back to the number |
| Strings.Split | extract.go:28 | `strings.Split` with a non-empty separator returns at least one piece |
| Strings.LastSegment | extract.go:28-29 | The last piece is the whole name when the separator does not occur in it |
| Strings.SplitJoin | extract.go:28 | Joining the pieces of `strings.Split` with the separator gives back the name |
| Strings.LastSegmentProperties | extract.go:28-29 | The last piece holds no separator, is a suffix of the name, and is the whole name when there is no separator |
| Strings.IndexFrom | extract.go:28 | The search finds the first occurrence of the separator at or after the start, and reports none only when there is none |
| FileSystem.MkdirAll | cmds_sync.go:179-181 | Fails exactly when the path or one of its ancestors is a file; otherwise those all become directories and nothing else changes |
| FileSystem.WriteFile | cmds_sync.go:189-192 | Fails exactly on a directory or a missing parent; otherwise the path holds the bytes and every other path is kept |
| FileSystem.RemoveAll | cmds_sync.go:150-152 | The path and everything under it disappear; every other path is kept as it was |
| FileSystem.Remove | cmds_sync.go:186 | A file disappears, a missing path changes nothing, and no other path is affected |
| FileSystem.JoinUnder | cmds_sync.go:136-137 | A name joined to a directory lies inside that directory, whatever the name holds, '/' included |
| FileSystem.ParentOfJoin | cmds_sync.go:179 | `filepath.Dir` of a name joined to a directory is that directory, and the path lies inside it |
| Items.ItemType.String | bandcamp/item.go:16-18 | The type's string is its code, character for character |
| Items.ItemString | bandcamp/item.go:38-40 | The string is the type code followed by the decimal identifier: a `-` right after the code exactly for a negative identifier, then digits only |
| Items.ItemStringRoundTrip | bandcamp/item.go:38-40 | An item's string starts with its type code and the rest parses back to its identifier |
| Items.ItemStringInjective | bandcamp/item.go:38-40 | For a fixed type, the string tells identifiers apart |
| Items.SaleString | bandcamp/item.go:62-64 | The string is the sale type code followed by the decimal sale identifier: a `-` right after the code exactly for a negative identifier, then digits only |
| Items.SaleStringRoundTrip | bandcamp/item.go:62-64 | A sale's string starts with its type code and the rest parses back to the sale identifier |
| Items.SaleStringInjective | bandcamp/item.go:62-64 | For a fixed sale type, the string tells sale identifiers apart |
| Items.TypeCodes | bandcamp/item.go:44-55 | The sale codes, like the item codes `a` and `t`, are one character each and pairwise distinct |
| Downloads.Extension | bandcamp/download.go:15-25 | The extension of a format is one of the table's values |
| Downloads.ExtensionShape | bandcamp/download.go:15-25 | Every accepted format has an entry, and its extension is a `.` followed by lower-case letters and digits |
| Downloads.ExtensionTableSize | bandcamp/download.go:15-25 | The table has eight entries |
| Downloads.ExtensionTable | bandcamp/download.go:15-25 | Every extension is dotted; both MP3 formats give `.mp3`, and AAC and ALAC both give `.m4a` |
| Downloads.EncodingsMatchTable | bandcamp/download.go:15-25 | The accepted formats and the table's keys are the same set, each format named once |
| Downloads.FirstBlob | bandcamp/download.go:96-101 | A tag carries a blob exactly when it has a `data-blob` attribute, and the value is the first such attribute's |
| Downloads.FinishBlob | bandcamp/download.go:104-108 | An empty blob is "not found" and nothing else; any other blob goes on, unchanged, to decoding |
| Downloads.ScanBlob | bandcamp/download.go:81-106 | The loop ends with a non-empty blob that is the starting value or carried by one of the start tags, or fails with "not found" or a tokenizer error |
| Downloads.DecodeBlob | bandcamp/download.go:77-109 | A blob found is non-empty and carried by a start tag of the page; the only failures are "not found" and a tokenizer error |
| Downloads.ScanLastCarrier | bandcamp/download.go:81-102 | The blob kept is the one on the last start tag that carries one |
| Downloads.ScanStopsAtError | bandcamp/download.go:81-90 | The first error token ends the loop: at end of input as if the tokens ran out, otherwise with the tokenizer's error |
| Downloads.ScanIgnoresOtherTokens | bandcamp/download.go:91-94 | End tags, text and every other non-start token change nothing, wherever they occur |
| Downloads.DecodeBlobRule | bandcamp/download.go:77-109 | A page read to the end yields the last carrier's value if non-empty, and "not found" if it is empty or missing |
| Downloads.SelectDownload | bandcamp/download.go:64-71 | A download is found exactly when an entry has the requested encoding; it is one of the entries, stamped with the email |
| Downloads.ChooseFromPage | bandcamp/download.go:62-73 | Success exactly when the first download item offers the format; no items is its own error, otherwise "format unavailable" |
| Downloads.FirstItemOnly | bandcamp/download.go:62 | Two pages with the same email and the same first download item choose the same download: later items are never consulted |
| Downloads.GetItemDownload | bandcamp/download.go:34-75 | Request, transport, tokenizer, missing-blob and JSON failures pass through; a success is in the requested format |
| Extract.SanitizeUnicode | extract.go:42-50 | Same length; ASCII letters, digits, space, `-`, `.` and `_` stay, and every other character becomes `_` |
| Extract.SanitizeUnicodeWhitelisted | extract.go:42-50 | The result is whitelisted ASCII only and holds no `/` |
| Extract.SanitizeUnicodeIdempotent | extract.go:42-50 | Whitelisted names pass unchanged, and sanitizing twice is sanitizing once |
| Extract.EntryFileName | extract.go:28-32 | The name an entry is written under holds no `/`, so it stays inside the album directory |
| Extract.EntryFileNameCandidate | extract.go:28-32 | The name before sanitizing is a separator-free suffix of the entry name, and the whole name when there is no ` - ` |
| Extract.ArtistTitleSegment | extract.go:28-29 | For `<artist> - <title>` with dash-free parts, the candidate is the title |
| Extract.EntryFileNameExample | extract.go:28-32 | `Artist - 05 Track Name!.flac` is written as `05 Track Name_.flac` |
| Extract.Target | extract.go:28-34 | An entry's target lies directly inside the album directory: one path element below it |
| Extract.WriteEntries | extract.go:24-38 | The loop succeeds only when no entry is a directory, and stops with "unexpected directory" only when some entry is one |
| Extract.ExtractAlbum | extract.go:12-40 | A zip format error and a failed MkdirAll each leave the filesystem untouched; otherwise the entries are written in order |
| Extract.DirectoryEntryStops | extract.go:24-27 | A directory entry stops extraction with "unexpected directory", after the entries before it were written |
| Extract.WriteEntriesSuccess | extract.go:24-38 | A successful extraction overlays the entries' files on the filesystem |
| Extract.WrittenKeys | extract.go:34-35 | The files written are exactly the entries' target paths |
| Extract.WrittenLastWins | extract.go:34-35 | When two entries have the same target, the later one's bytes are kept, because the file is truncated |
| Extract.WriteEntriesFrame | extract.go:24-38 | Nothing outside the album directory changes |
| Extract.WriteEntriesKeepsDirectories | extract.go:24-38 | Extraction removes nothing, and directories stay directories |
| Extract.WriteEntriesSucceeds | extract.go:24-38 | With no directory entry and no directory in any target's way, extraction succeeds |
| Extract.ExtractAlbumSuccess | extract.go:12-40 | Under those conditions, extractAlbum succeeds and its result is the overlay of the written files |
| Extract.ExtractAlbumContents | extract.go:21-38 | After success the album directory exists, and inside it are exactly the old paths plus the entries' targets |
| SyncDownload.TrackFileName | cmds_sync.go:136-137 | For a track number from 0 to 99, the looked-up name is the two digits of the number, a space, the raw title and the encoding's extension, in that order |
| SyncDownload.Classify | cmds_sync.go:128-153 | Proceed exactly when the path is missing or forced; repair exactly when an existing album, not forced, is found incomplete |
| SyncDownload.AlbumSyncedAsWritten | cmds_sync.go:134-143 | The album loop as written succeeds exactly when every `%02d <title><ext>` path exists |
| SyncDownload.AlbumSynced | cmds_sync.go:134-143 | The corrected loop succeeds exactly when every track's file exists under its extracted name |
| SyncDownload.DecideAsWritten | cmds_sync.go:128-153 | Proceed exactly when the path is missing or forced; repair exactly when an existing album misses a `%02d <title><ext>` file |
| SyncDownload.Decide | cmds_sync.go:128-153 | Proceed, skip or repair, each exactly under its condition; the album condition uses the extracted names |
| SyncDownload.Verdict | cmds_sync.go:128-153 | Both checks proceed under the same condition and agree on tracks; they differ only in the album loop |
| SyncDownload.RepairedProceeds | cmds_sync.go:149-153 | After the album directory alone is removed, the check evaluated again proceeds with no further removal |
| SyncDownload.CheckResponse | cmds_sync.go:171-177 | The response passes exactly on status 200 with a non-zero length; the status is checked first |
| SyncDownload.DownloadTarget | cmds_sync.go:183-187 | An album is written to `<path>.zip`, anything else to the path itself |
| SyncDownload.ExtractionOutcome | cmds_sync.go:219-223 | Success exactly when extraction succeeded; a zip format error is reported as the missing email |
| SyncDownload.WriteBody | cmds_sync.go:189-223 | A create error leaves the filesystem as it was; a broken copy keeps the partial file and reports the copy error |
| SyncDownload.Store | cmds_sync.go:179-223 | A failed MkdirAll changes nothing; for an album, no archive file remains afterwards |
| SyncDownload.Transfer | cmds_sync.go:155-177 | Every failure before the body is stored leaves the filesystem unchanged, with the source's error |
| SyncDownload.SyncItem | cmds_sync.go:126-153 | With the check as written, this is `Download`: skipped exactly when that check says skip, with nothing changed; otherwise the transfer runs, after removing the album when the check repairs |
| SyncDownload.StoreTrack | cmds_sync.go:179-217 | A track at a free path is written with the delivered bytes |
| SyncDownload.StoreNotZip | cmds_sync.go:183-222 | A non-zip archive reports the missing email and creates no album directory |
| SyncDownload.StoreAlbumContents | cmds_sync.go:179-223 | A stored album's directory holds exactly the old paths plus the entries' targets |
| SyncDownload.TrackDownload | cmds_sync.go:126-217 | A new track is written in full, or partially; either way the next run without `--force` skips it |
| SyncDownload.EmailMissingReported | cmds_sync.go:155-222 | A non-zip album download reports the missing email, creates no album directory, and leaves no archive |
| SyncDownload.NoArchiveLeftBehind | cmds_sync.go:183-187 | No run leaves an album's archive behind as a file, unless one was there before |
| SyncDownload.SyncedAlbumContents | cmds_sync.go:126-223 | After a successful album sync with either check, the directory holds the extracted files, plus old ones only when nothing was repaired |
| SyncDownload.AsWrittenRepairsSyncedAlbum | cmds_sync.go:134-150 | After a successful album sync with either check, a track that no entry is written as is still missing, so the next run as written removes the album |
| SyncDownload.TitleAt | cmds_sync.go:136-137 | For every track number, including 100 and above where `%02d` gives more than two digits, the raw title starts in the looked-up name right after the padded number and its space |
| SyncDownload.UnsanitizedTitleNeverWritten | cmds_sync.go:136-137 | For every track number, a title holding a character outside the extraction whitelist gives a looked-up name that no archive entry is ever written under |
| SyncDownload.AsWrittenRepairsUnsanitizedTitle | cmds_sync.go:134-150 | After a successful album sync with either check, an album with such a title on a track of any number, whose file was not there before, is removed by the next run as written, whatever the archive held |
| SyncDownload.SyncedAlbumSkipped | cmds_sync.go:134-147 | After a successful album sync with either check, an album whose tracks all have entries named as extraction writes them is skipped by the corrected check |
| SyncDownload.ArtistEntryExtracted | extract.go:28-32 | An entry `<artist> - %02d <title><ext>` with dash-free parts is written under the name the corrected check looks for |
| SyncDownload.BangTitleRedownloaded | cmds_sync.go:136-137 | Track 5 "Track Name!" in FLAC: after a sync with either check, the check as written repairs the album and the corrected check skips it |

## Left out

- The concurrency of the command is not modelled: the semaphore of `--jobs` workers, the goroutines, the interrupt context and the final wait. Each `Download` is modelled alone, one item at a time.
- The progress bars are left out. So is the only use of `Item.String`, which names a progress bar. `Item.String` is still modelled, as `Items.ItemString`.
- The collection fetch (`GetCollection`), the command line, `main.go` and `cmds.go` are not part of this model.
- The network is an input of the model, not something it performs: `PageFetch`, `Fetch`, and the HTTP client with its headers and cookies.
- HTML tokenizing, JSON decoding and zip reading are inputs too, passed as the token stream, `unmarshal` and `readZip`.
- `filepath.Join` and `filepath.Dir` are modelled without lexical cleaning. `.`, `..`, empty elements and trailing slashes are not normalised.
- File permissions (`0o755`, the entry's mode) are not modelled. Neither are `Stat` errors other than "does not exist".
- These errors are not modelled: the errors of `RemoveAll`, of the deferred `Remove` and of the `Close` calls, the per-entry `Open` and `Copy` errors of `unzipFile`, and the `src.Stat` error of `extractAlbum`.
- Downloads.GetItemDownload: on an empty `download_items` the source indexes `Items[0]` and panics. The model returns `NoDownloadItems` instead.
- Downloads.SelectDownload: Go's map iteration order is unspecified. The model takes the entries as a sequence in one iteration's order, and states only "some entry with the requested encoding".
- Strings.ParseInt: only base 10 is modelled; other bases are not. A malformed string and a value outside the int64 range both give `None`, so `strconv.ParseInt`'s separate syntax and range errors are not told apart.
- The item's purchase time and price are left out. The `Track` record is declared outside the modelled files; only its number and title are used.

## Findings

| source | as written | input that shows it | evidently intended | confidence | as-written member | corrected member |
|---|---|---|---|---|---|---|
| cmds_sync.go:134-143 | An existing album counts as synced only if every `%02d <title><ext>` file exists in its directory. But extraction (extract.go:28-34) writes each entry under the sanitized last ` - ` segment of its name. | An album with track 5 "Track Name!" in FLAC, whose archive holds `Artist - 05 Track Name!.flac`, syncs to `05 Track Name_.flac`. The next run looks for `05 Track Name!.flac`, finds the album incomplete, removes it and downloads it again, on every run. | The check looks for the names extraction writes, so an album synced in full is skipped. | medium, not executed | SyncDownload.DecideAsWritten | SyncDownload.Decide |

Lemmas exhibit the discrepancy for the code as written. `SyncDownload.UnsanitizedTitleNeverWritten` shows that, whatever the track number, a title holding a character outside the whitelist never gives an extracted name. `SyncDownload.AsWrittenRepairsUnsanitizedTitle` shows that such an album is removed on the next run after every successful sync. `SyncDownload.AsWrittenRepairsSyncedAlbum` states the general case, and `SyncDownload.BangTitleRedownloaded` works through the input above. `SyncDownload.SyncedAlbumSkipped` proves that the corrected `SyncDownload.Decide` skips such an album, and `SyncDownload.SyncItem` runs either check.
