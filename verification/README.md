# m3u8-fetcher core, modelled in Dafny

m3u8-fetcher downloads an HLS video. It fetches the `.m3u8` playlist and
resolves every segment reference against the playlist URL. It optionally
reads an `#EXT-X-KEY` directive to prepare AES-128 decryption (as `start`
wires the call, this never happens; see "## Findings"), and downloads
the `.ts` segments, ten at a time, retrying failures. It keeps a
`progress.json` record so that an interrupted run can resume. When the last
segment arrives, it concatenates the segments in playlist order into
`<filename>.ts`.

This project models the pure logic of `fetcher.js` and proves properties of
it. The downloader becomes a sequential state machine. The modules:

- `Base`: bytes, `Option`, `Result`.
- `JsText`: the JavaScript built-ins the code leans on:
  - `split` and `join` on one character;
  - `indexOf`;
  - `toLowerCase`, as far as the `.ts` test needs it;
  - `TextEncoder` (UTF-8).
- `Url`: `applyURL`.
- `Playlist`: `parseM3u8`. The method `ParseM3u8` walks the lines as the
  `forEach` does. The function `SegmentPositions` is the independent
  reference it is checked against.
- `SegmentCipher`: `aesDecrypt`, the fallback IV, and the per-segment choice
  between decrypting and passing through (`SegmentData`). The AES primitive
  is a function-valued parameter `Cipher`.
- `KeyDirective`: the three attribute regexes of `prepareDownload`, modelled
  as JavaScript evaluates them. The model also covers:
  - `prepareDownload` with its declared parameters (`PrepareDownload`);
  - `prepareDownload` as `start` actually calls it (`PrepareDownloadAsWired`);
  - a corrected variant (`PrepareDownloadFixed`).
- `Downloader`: `downloadTsSeg` and `downloadFile`. The module-level
  variables `finishNum`, `mediaFileLength` and `mediaFileList` become fields
  of one immutable `State`. Each attempt gets its network outcome as a
  `Fetch` value, and `Run` folds a sequence of attempts. `Consistent` is the
  bookkeeping invariant: record k carries index k and the URL at position k,
  `finishNum` counts the done records, and payloads sit exactly at the done
  indices. `Deficit` is the stored bytes that
  `mediaFileLength` does not account for.
- `Session`: `start`. It covers:
  - the resume branch, which reloads segment files from disk;
  - the fresh branch, which parses the playlist;
  - the call to `prepareDownload`;
  - the `indexOf` dispatch that maps each playlist entry to a segment index;
  - the corrected resume and dispatch.

The regexes are not simplified. Without the `s` flag the leftmost match
starts at the beginning of the first line that holds the attribute, and the
greedy `.*` then picks the last occurrence on that line.
`KeyDirective.IsRegexMatch` states that choice. With a single occurrence the
value is simply the text after `NAME=`, up to `,` or white space, or up to
the closing `"` for `URI` (`KeyDirective.SingleOccurrence`).

An empty playlist writes no output file, because no `downloadTsSeg` call
ever runs (`Downloader.EmptyPlaylistWritesNothing`).

## Model

| member | source | states |
|---|---|---|
| JsText.Split | fetcher.js:30-35 | `split('/')` yields at least one piece; no piece contains the separator; joining the pieces with it gives the input back |
| JsText.SplitJoin | fetcher.js:33-35 | splitting the join of separator-free pieces gives the pieces back, so split and join are inverse |
| JsText.SplitAppend | fetcher.js:30-35 | the pieces of `a + '/' + b` are the pieces of `a` followed by those of `b` |
| JsText.IndexOf | fetcher.js:186 | `indexOf` is the first position holding the value; it is -1 exactly when the value is absent |
| JsText.Utf8EncodeLength | fetcher.js:74-76 | `TextEncoder` output is never shorter than the text; it is as long exactly when the text is ASCII, and then each byte is the character code |
| Url.ApplyUrl | fetcher.js:26-37 | a target beginning with "http" comes back unchanged; every result is non-empty and ends with the target |
| Url.ApplyUrlRootRelative | fetcher.js:29-31 | for a base `scheme//host[/path]`, a target beginning with '/' keeps scheme and host and drops the whole path |
| Url.ApplyUrlRelative | fetcher.js:32-36 | any other target replaces the last '/'-piece of the base, keeping the directory verbatim |
| Url.ApplyUrlRelativeNoSlash | fetcher.js:32-36 | against a base without '/', a relative target becomes "/" + target |
| Url.ApplyUrlMissingHost | fetcher.js:29-31 | against a base without '/', a root-relative target takes the text "undefined" as its host |
| Url.ApplyUrlExampleAbsolute | fetcher.js:27-28 | "http://other/seg.ts" and even "httpx/seg.ts" come back unchanged |
| Url.ApplyUrlExampleRootRelative | fetcher.js:29-31 | "/seg1.ts" against "http://host/path/index.m3u8" gives "http://host/seg1.ts" |
| Url.ApplyUrlExampleRelative | fetcher.js:32-36 | "seg1.ts" against "http://host/path/index.m3u8" gives "http://host/path/seg1.ts" |
| Url.ApplyUrlExampleDotDot | fetcher.js:32-36 | "../seg.ts" is kept as written: "http://host/path/../seg.ts" |
| Playlist.ContainsTsExact | fetcher.js:42 | a line passes the `.ts` test exactly when ".ts" occurs in it in any mix of case |
| Playlist.SegmentPositionsExact | fetcher.js:41-42 | the reference positions are exactly the segment lines, each once, in increasing order |
| Playlist.CollectSegmentUrls | fetcher.js:41-50 | the loop pushes, in order, the resolved URL of each segment line and nothing else |
| Playlist.ParseM3u8 | fetcher.js:39-57 | entry `k` is the `k`-th segment line resolved with `applyURL`; the two lists are aligned; record `k` carries that URL, `done == false` and index `k` |
| Playlist.NoSegmentLinesMeansEmpty | fetcher.js:41-51 | a playlist without segment lines parses to empty lists rather than failing |
| SegmentCipher.SegmentData | fetcher.js:105 | bytes pass through unchanged without a key URI; with one they go through the cipher with the declared IV, or else a 16-byte IV of 15 zeros and `index mod 256` |
| SegmentCipher.FallbackIvShape | fetcher.js:97 | the fallback IV has 16 bytes, the first 15 zero and the last equal to the index below 256 |
| SegmentCipher.FallbackIvWraps | fetcher.js:97 | without a declared IV, segments 256 apart share an IV, while neighbours below 256 do not |
| SegmentCipher.DeclaredIvIsShared | fetcher.js:97-98 | a declared IV is used for every segment whatever its index |
| KeyDirective.RegexMatchUnique | fetcher.js:80-82 | at most one position is the regex's choice |
| KeyDirective.MatchPositionIsRegexMatch | fetcher.js:80-82 | the scan finds exactly the regex's choice: the last occurrence on the first line with one; it finds nothing only when there is no occurrence |
| KeyDirective.AttributeSpec | fetcher.js:80-82 | the extracted value is '' exactly when the attribute occurs nowhere; otherwise it is the value at the regex's choice |
| KeyDirective.NoMatchMeansEmpty | fetcher.js:80-82 | `(match \|\| ['', '', ''])[2]` is '' when the attribute is absent |
| KeyDirective.SingleOccurrence | fetcher.js:80-82 | with one occurrence, the value is the text after `NAME=` |
| KeyDirective.PrepareDownload | fetcher.js:67-94 | without the tag the result is the empty configuration; with it, the call fails exactly when the key request fails, and otherwise `uri` is `applyURL` of the URI attribute, `method` is the METHOD attribute's value and `key` is what the key request returned; the IV is empty exactly when its text is, is otherwise the UTF-8 bytes of that text (not a hex decoding), and is as long as its text exactly when that text is ASCII; an empty segment list only raises the warning flag |
| KeyDirective.MissingMethodIsEmpty | fetcher.js:80 | with the tag but no METHOD attribute, `method` stays '' |
| KeyDirective.MissingIvFallsBack | fetcher.js:82-83 | with the tag but no IV attribute, `iv` is empty and each segment uses its fallback IV |
| KeyDirective.MissingUriStillDecrypts | fetcher.js:81-84 | with the tag but no URI attribute, `uri` becomes `applyURL('', url)` and every segment still goes through the cipher |
| KeyDirective.FixedMissingUriPassesThrough | fetcher.js:81-86 | the corrected extraction leaves segments untouched when no URI is declared, and agrees with the original whenever one is |
| KeyDirective.PrepareDownloadAsWired | fetcher.js:184 | called as `start` calls it, the result is always the empty configuration |
| KeyDirective.WiredNeverDecrypts | fetcher.js:184 | as wired, every segment is kept exactly as fetched |
| KeyDirective.DeclaredCallDecrypts | fetcher.js:79-86 | called with its declared parameters, a playlist with the tag has every segment run through the decryptor, keyed with what the key request returned |
| Downloader.ArraySet | fetcher.js:106 | `a[i] = v` puts `v` at `i`, leaves the other entries alone, and leaves holes when assigning past the end |
| Downloader.Unwrap | fetcher.js:126 | an array has no hole exactly when all its entries are buffers, and then the buffers are listed in order |
| Downloader.FitTo | fetcher.js:126 | `Buffer.concat(list, total)` has exactly `total` bytes: the concatenation cut short, or zero-filled |
| Downloader.DownloadTsSeg | fetcher.js:101-123 | an index out of range or already done is a no-op; a failure changes nothing and retries the same index; a success marks only that record done, stores its bytes at that index and adds their length, writes the output exactly when the count reaches the number of segments, and schedules no retry unless that final write throws |
| Downloader.CountDoneFull | fetcher.js:114 | the done count equals the number of records exactly when every record is done |
| Downloader.AllDoneOutput | fetcher.js:125-127 | with every record done, `downloadFile` succeeds and builds the payloads in index order, cut short by the deficit |
| Downloader.StepSpec | fetcher.js:101-117 | one call keeps the bookkeeping invariant and the deficit; it writes exactly when it completes the last pending segment, and then writes the payloads in index order, cut short by the deficit |
| Downloader.RunSpec | fetcher.js:101-123 | any sequence of attempts keeps the bookkeeping invariant and the deficit |
| Downloader.RunAllDoneIsStuck | fetcher.js:102 | once every record is done, no attempt changes anything |
| Downloader.RunOutput | fetcher.js:114-127 | whatever the attempts, the output is written at most once, and when it is, it is the payloads in index order, cut short by the starting deficit |
| Downloader.FreshRunWritesConcatenation | fetcher.js:101-129 | a first run in which every segment succeeds once, in any completion order, writes exactly the segments' bytes concatenated in playlist order |
| Downloader.EmptyPlaylistWritesNothing | fetcher.js:114 | with no segments, no output file is ever written |
| Session.Urls | fetcher.js:166 | `list.map(({url}) => url)` is aligned with the records |
| Session.ReloadSpec | fetcher.js:169-175 | the resume loop fails exactly when a done record's file is missing; otherwise it keeps payloads exactly at the done indices, holding their files, and counts them |
| Session.ResumeSpec | fetcher.js:164-176 | resuming fails exactly when a done record's file is missing; otherwise the state is consistent, its `tsUrlList` is the saved records' URLs in order, `finishNum` counts the done records, each holds its own file, and the deficit is exactly the bytes read back |
| Session.CountReloadedSpec | fetcher.js:173-174 | counting the reloaded bytes leaves no deficit, and writes the full concatenation at once exactly when every record is done |
| Session.ResumeFixedSpec | fetcher.js:164-176 | the corrected resume fails under the same condition; otherwise it leaves no deficit and writes the full output at once exactly when every record is done |
| Session.ResumedOutputIsTruncated | fetcher.js:169-175 | as written, a resumed run that writes its output loses as many bytes off the end as were read back from disk |
| Session.ResumeTruncationExample | fetcher.js:169-175 | a three-byte segment on disk plus a two-byte one fetched: as written the output is 2 bytes, corrected it is all 5 |
| Session.ResumedFixedOutputIsComplete | fetcher.js:169-175 | with the fix, any output a resumed run writes is the full concatenation |
| Session.ResumedAllDoneNeverWrites | fetcher.js:102 | as written, resuming a record in which every segment is done never writes the output |
| Session.ResumedFixedAllDoneWrites | fetcher.js:169-175 | with the fix, such a resume writes the segment files concatenated in index order straight away |
| Session.FreshIsConsistent | fetcher.js:176-182 | a first run starts consistent, with nothing done and no deficit |
| Session.Start | fetcher.js:164-184 | resumes exactly when the saved record has segments and playlist text, yielding the resume state; otherwise it yields a consistent fresh state from the parsed playlist, whose record k is `{url: tsUrlList[k], done: false, index: k}`; the key configuration is always the empty one |
| Session.Dispatch | fetcher.js:185-187 | entry `k` goes to the first position holding its URL, which is at most `k` |
| Session.DispatchedIffFirst | fetcher.js:186 | segment `j` is dispatched exactly when no earlier entry has its URL |
| Session.DispatchCoversIffDistinct | fetcher.js:185-187 | the dispatch names every segment exactly once exactly when the URLs are pairwise distinct |
| Session.UndispatchedStaysPending | fetcher.js:101-114 | attempts that never name a pending segment leave it pending, and the output unwritten |
| Session.DuplicateUrlStalls | fetcher.js:185-187 | as written, when calls do not overlap, a playlist listing a URL twice never writes its output: the later entry goes to the earlier index, which is already done |
| Session.OverlappingDuplicatePads | fetcher.js:101-126 | for URLs "a, b, a", both calls for index 0 in flight together pass the guard, the count reaches three, and the output is the first two segments followed by as many zero bytes as the first holds |
| Session.OverlappingDuplicateLeavesHole | fetcher.js:101-126 | for URLs "a, a, b", both calls for index 0 in flight together make the count reach three while index 1 is a hole, so `Buffer.concat` throws and nothing is written |
| Session.DispatchByPositionIsPermutation | fetcher.js:185-187 | dispatch by position names every segment exactly once |
| Session.DispatchByPositionCompletes | fetcher.js:185-187 | with dispatch by position, a first run in which every segment succeeds once writes all segments in order, repeated URLs or not |

## Left out

- Filesystem I/O is not modelled. This covers `access`, `mkdir`, `readFile`/`writeFile` of `progress.json` and of the segment files, `clearSegDir` and `initProgress`. The saved record is the `Progress` value. The segment files on disk are a map from index to bytes. The output file is the `written` field.
- A failed write of `progress.json` or of a segment file is not modelled. In the source it happens after the record is marked done but before `finishNum` is counted. Writes are taken to succeed.
- The network is not modelled. This covers `urllib.curl` for the playlist, the key and the segments, and the five-minute timeout. The playlist text is the `downloaded` parameter of `Start`. The key request is a `KeyFetch` function parameter. Each segment attempt carries its outcome as a `Fetch`.
- The AES-128-CBC decryptor (`./decryptor`, with `expandKey`) is not part of this model. It is the opaque `Cipher` parameter, taken to be total, so a throwing `decrypt` is not modelled.
- Concurrency is not modelled. This covers `p-map` with ten workers and the 100 ms `setTimeout` retry delay. The race between the `done` check and the `done` update, which are separated by `await`, is also left out. Attempts are a sequence taken one at a time, so any interleaving of completions and retries is covered, but no overlap within one attempt.
- Console logging is not modelled. The "M3u8 is empty" warning is the `emptyWarning` flag.
- bin/fetcher.js is the command-line entry point (arguments, version, usage) and is not part of this model.
- `JSON.parse` returning `null` (the `|| { m3u8: '', list: [] }` fallback) is not modelled. Malformed JSON is not modelled either. A missing `m3u8` field is the empty string.
- `toLowerCase` is modelled on ASCII letters only. No other character lower-cases to '.', 't' or 's', so the `.ts` test decides the same.
- `TextEncoder` on lone surrogates is not modelled. A Dafny `char` is a Unicode scalar value.
- The module-level variables persisting across two `start` calls in one process are not modelled: one `start` per process.
- Url.ApplyUrl: its contract states the prefix facts. The three branches are stated in full by `ApplyUrlRootRelative`, `ApplyUrlRelative`, `ApplyUrlRelativeNoSlash` and `ApplyUrlMissingHost` for bases of the shapes they name, not for every base.
- KeyDirective.KeyFetch: `getAesConf` keeps the whole `urllib.curl` result as `aesConf.key` and hands it to `expandKey` (fetcher.js:60-64), not its `data` field, as lines 22 and 104 do. The model carries that value opaquely, as the cipher's key parameter. It does not claim the decryptor receives the bytes of the key file, and fixing the call site at fetcher.js:184 alone would not give it them.
- Session.DuplicateUrlStalls: holds for attempts taken one at a time. Under the pool of ten concurrent calls, two calls for the same index can both pass the guard at fetcher.js:102 before either request returns, and both count. For "a, b, a" the count then reaches the segment count and a zero-padded output is written (`OverlappingDuplicatePads`). For "a, a, b" a hole makes `Buffer.concat` throw (`OverlappingDuplicateLeavesHole`). `Run` does not model overlapping calls; the two lemmas compose `Store` directly.
- Session.Start: the fresh branch is stated through the parser's reference positions and the bookkeeping invariant, which ties each saved record to its URL. The resume branch is stated as equal to `Resume`, whose properties `ResumeSpec` gives. `Start` models the code as written, so it uses neither the corrected resume nor the corrected dispatch.

## Findings

| source | as written | input that shows it | evidently intended | confidence | as-written member | corrected member |
|---|---|---|---|---|---|---|
| fetcher.js:169-175 | the resume loop reloads each done segment's file but never adds its length to `mediaFileLength`, so `Buffer.concat(list, mediaFileLength)` cuts the output short by the reloaded bytes | one done record with a 3-byte file on disk and one pending segment that fetches 2 bytes: the output is 2 bytes instead of 5 (`Session.ResumeTruncationExample`) | count the reloaded bytes, so that the output is the full concatenation | high (not executed) | Session.ResumedOutputIsTruncated | Session.ResumedFixedOutputIsComplete |
| fetcher.js:102 | when every saved record is already done, every `downloadTsSeg` call fails the `!done` guard, so `downloadFile` never runs | a saved record whose segments are all done, with their files present | write the output straight away after the resume loop | high (not executed) | Session.ResumedAllDoneNeverWrites | Session.ResumedFixedAllDoneWrites |
| fetcher.js:184 | `prepareDownload(tsUrlList, finishList, m3u8, url)` against the declaration `(tsUrlList, m3u8Str, url)`: `m3u8Str` is the record array, whose `indexOf('#EXT-X-KEY')` is always -1 | any playlist with `#EXT-X-KEY:METHOD=AES-128,URI="k.key"` | pass the playlist text and URL, so that the key directive is read and segments go through the decryptor (which, with fetcher.js:60-61 as they stand, is keyed with the whole urllib result rather than its `data`) | high (not executed) | KeyDirective.WiredNeverDecrypts | KeyDirective.DeclaredCallDecrypts |
| fetcher.js:81-84 | with the tag present but no URI attribute, `applyURL('', url)` gives the playlist directory plus '/'. That is non-empty, so a key is requested from the directory and every segment goes through the cipher | `#EXT-X-KEY:METHOD=NONE` | resolve a URI, and decrypt, only when one is declared | medium (not executed) | KeyDirective.MissingUriStillDecrypts | KeyDirective.FixedMissingUriPassesThrough |
| fetcher.js:186 | `tsUrlList.indexOf(tsUrl)` sends every entry with a repeated URL to its first position. The later segment is never fetched. If the first call has finished before the second is dispatched, `finishNum` never reaches the segment count. If both are in flight together, both count, and the output is zero-padded or `Buffer.concat` throws | a playlist listing `a.ts` twice; "a, b, a" with overlapping calls writes segments 0 and 1 plus zero bytes | entry `k` downloads segment `k` | medium (not executed) | Session.DuplicateUrlStalls | Session.DispatchByPositionCompletes |
