# Survivor episode downloader, modelled in Dafny

The downloader fetches one day's episode from a video server that publishes
it as numbered `.ts` segments (`<base URL><id>.ts`, ids 1, 2, 3, ...) with no
index. It can only learn whether a segment exists by fetching it. The model
covers the logic under the network, ffmpeg and moviepy calls:

- **Naming** (`naming.dfy`, `decimal.dfy`). The date fields are zero-padded
  to two characters. The per-date directory key is `year_month_day`. The
  model also builds the stream's base URL, a segment's URL, the segment file
  paths and the path of the finished video. It proves that these names do
  not collide. Different dates always get different directory keys and video
  paths. For months and days in 0..99 they also get different base URLs.
  Within one date's directory, different ids or file kinds always get
  different file paths.
- **Duration** (`durations.dfy`). A number of seconds is split into hours,
  minutes and seconds, and rendered as text such as "1 hour, 5 minutes and
  1 second".
- **Segment-count discovery** (`remote.dfy`, `discovery.dfy`). A galloping
  search doubles an upper limit until a probe fails. An upper-midpoint binary
  search then finds the last segment that exists. Against a server that has
  exactly segments 1..n, it returns n after at most 2·⌊log₂ n⌋ + 2 probes.
- **Resume selection and the download loop** (`store.dfy`). A date's
  temporary directory is a `SegmentStore`. It holds the `.ts` files (id to
  bytes) and the set of ids that have an `.mp4` file. Those files are the
  only record of progress. The ids still to download and to convert are read
  off the store. The download loop fetches the missing segments in ascending
  order and stops at the first fetch that returns no data.

The server is a total function from URL to `Option<bytes>`. A timeout or a
URL error raised while opening the URL both give `None`, as in the code
(viewer.py:124-129): there is no separate "transient error" outcome. Errors
raised after that point are not caught by the code and are not modelled (see
Left out). The calls to `exit(1)` become the
outcomes `VideoNotFound` and `SegmentDownloadFailed(id)`. The settings held
in the global `Config` object are passed as parameters.

`download_video` as written sets the segment count to the constant 10
(viewer.py:249-250). The call to `get_num_video_segments` sits commented out
on the line above. `SegmentStore.DownloadVideo` models the code as written.
`SegmentStore.DownloadWholeVideo` is the same run using the discovered count
(see Findings).

Resuming is idempotent for the download loop: after a run without failure,
the next run's loop requests no segment. The program as a whole still sends
requests on a second run. The existence check always fetches segment 1
(viewer.py:243), and `DownloadVideo`'s ghost output `requested` records that
request.

## Model

| member | source | states |
|---|---|---|
| `Decimal.DecimalString` | viewer.py:123 | `str(id)` of a non-negative integer is a non-empty string of digits. It starts with '0' only for 0, and has one character exactly for 0-9. |
| `Decimal.ParseDecimalString` | viewer.py:123 | Reading the numeral back gives the number it was printed from. |
| `Decimal.DecimalStringInjective` | viewer.py:123 | Different numbers print differently. |
| `Naming.MakeDate` | viewer.py:49-52 | Definition: `Date(year, month, day)` keeps each field formatted by `TwoDigitField`. Its property is `MakeDateRoundTrip`. |
| `Naming.MakeDateRoundTrip` | viewer.py:49-52 | Each field of a date reads back as the integer passed in, so the date loses nothing. |
| `Naming.BaseUrl` | viewer.py:117-118 | Definition: the fixed prefix, year, month and day run together, then `xxxx.mp4/media_`. Its property is `BaseUrlInjective`. |
| `Naming.SegmentUrl` | viewer.py:123 | Definition: `base + str(id) + '.ts'`. Its property is `SegmentUrlInjective`. |
| `Naming.TwoDigitField` | viewer.py:49-52 | `f'{v:02d}'`: the result has at least 2 characters. Values 0-9 gain one leading '0'. Values of 10 and above are their plain numeral. Negative values are '-' followed by the numeral of their magnitude. |
| `Naming.TwoDigitFieldRoundTrip` | viewer.py:49-52 | Every formatted field, negative ones included, reads back as the integer it came from. |
| `Naming.FieldWidth` | viewer.py:50-52 | A month or day in 0..99 takes exactly two characters. |
| `Naming.DateKeyInjective` | viewer.py:166-167 | The directory key `year_month_day` determines year, month and day, so different dates never share a temporary directory. |
| `Naming.BaseUrlInjective` | viewer.py:117-118 | For months and days in 0..99, different dates have different stream base URLs, even though the fields are run together with no separator. |
| `Naming.SegmentUrlInjective` | viewer.py:121-123 | Different segment ids of one stream have different URLs (`base + str(id) + '.ts'`). |
| `Naming.SegmentPathsDistinct` | viewer.py:165-173 | In a date's directory, `ts/<id>.ts` and `mp4/<id>.mp4` name one id each, and a `.ts` path never equals an `.mp4` path. Modelling the directory as two id collections therefore loses nothing. |
| `Naming.VideoPathInjective` | viewer.py:112-114 | Different dates' finished videos go to different files. |
| `Durations.NewDuration` | viewer.py:59-65 | `3600*hours + 60*minutes + seconds` equals the input, with minutes and seconds below 60. |
| `Durations.DecompositionUnique` | viewer.py:59-65 | Only one normalized (hours, minutes, seconds) triple has a given total, so the constructor's result is the only one possible. |
| `Durations.Render` | viewer.py:67-90 | `__str__` returns `Spoken(d)`. That is the phrases of the non-zero units in the order hours, minutes, seconds, each singular for 1 and plural otherwise, joined as an English list. With no non-zero unit it returns "0 seconds". |
| `Durations.UnitPhraseForms` | viewer.py:69-83 | A unit's phrase is "1 unit" for a count of 1 and "N units" for any other count. |
| `Durations.SpokenByCount` | viewer.py:84-90 | Three parts are joined as "a, b and c", two as "a and b", one stands alone, and none gives "0 seconds". |
| `Durations.SpokenZeroIff` | viewer.py:84-90 | The text is "0 seconds" exactly when hours, minutes and seconds are all 0. |
| `Remote.DownloadVideoSegment` | viewer.py:121-131 | Definition: the server's answer for the segment's URL, which is `None` when opening it timed out or failed. It is used by `SavedSegments` and the download loop. |
| `Remote.DoesVideoSegmentExist` | viewer.py:134-136 | Definition: a segment exists when its fetch gives data. It is used by `HasSegments`, `FindUpperLimit`, `SearchLastSegment` and `FirstUnavailable`. |
| `Remote.DoesVideoExist` | viewer.py:139-140 | Definition: a video exists when segment 1 does. It is the guard whose failure gives `VideoNotFound` in `SegmentStore.DownloadVideo` and `SegmentStore.DownloadWholeVideo`. |
| `Discovery.FindUpperLimit` | viewer.py:146-149 | The galloping phase ends with `upper_limit` a power of two, 2^(k+1) where k = ⌊log₂ n⌋. Segment `upper_limit/2` exists, segment `upper_limit` does not, and `upper_limit/2 ≤ n < upper_limit`. It makes k + 1 probes. |
| `Discovery.SearchLastSegment` | viewer.py:151-157 | Starting from an existing `lower_limit` and an `upper_limit` at or above n, the upper-midpoint search ends with `lower_limit == n`. A starting gap below 2^b takes at most b probes. |
| `Discovery.GetNumVideoSegments` | viewer.py:143-158 | With segment i existing exactly when 1 ≤ i ≤ n, the result is exactly n, reached in at most 2·⌊log₂ n⌋ + 2 probes. |
| `Store.IsDownloaded` | viewer.py:165-168 | Definition: the id has a `.ts` or an `.mp4` file. Its use is characterised by `IdsToDownload`'s membership contract and by `DownloadCompletes`. |
| `Store.IsConverted` | viewer.py:171-173 | Definition: the id has an `.mp4` file. Its use is characterised by `IdsToConvert`'s membership contract. |
| `Store.IdsNotIn` | viewer.py:177-181 | The filtered range comes out strictly ascending, within its bounds. |
| `Store.IdsNotInMembers` | viewer.py:177-181 | An id is in the filtered range exactly when it lies within the bounds and is not among the excluded ids. |
| `Store.IdsToDownload` | viewer.py:165-181 | Lists, strictly ascending, exactly the ids 1..n that have neither a `.ts` nor an `.mp4` file. |
| `Store.IdsToConvert` | viewer.py:171-189 | Lists, strictly ascending, exactly the ids 1..n that have no `.mp4` file. |
| `Store.DownloadListWithinConvertList` | viewer.py:176-189 | The download list equals the conversion list with the ids that have a `.ts` file removed. So it is a subset of the conversion list, in the same order. |
| `Store.FirstUnavailable` | viewer.py:259-263 | Gives the position of the first listed segment whose fetch returns no data. Every earlier segment returns data. `None` means every listed segment does. |
| `Store.FetchedIds` | viewer.py:259-263 | The ids the download loop requests form a prefix of the download list, so the loop only fetches listed ids, in list order. Every requested id but the last gives data. The loop stops before the end of the list only after a request that gave no data. |
| `Store.SavedSegmentsAt` | viewer.py:259-264 | Saving only adds files. A `.ts` file present before stays. An id outside the list keeps exactly what it had. A listed id whose segment has data ends up holding that data. |
| `Store.DownloadCompletes` | viewer.py:257-264 | When the loop over the download list meets no failure, every id 1..n counts as downloaded afterwards. |
| `Store.SecondRunFetchesNothing` | viewer.py:176-263 | After such a run no id is on the new download list, and the next run's download loop requests no segment (`FetchedIds` of the new list is empty). |
| `Store.SegmentStore.SaveVideoSegment` | viewer.py:199-202 | Writes or overwrites exactly one `.ts` file and changes nothing else. |
| `Store.SegmentStore.DownloadVideoSegments` | viewer.py:259-264 | Fetches and saves the listed segments in order. The ghost output `fetched` is exactly `FetchedIds` of the list. If every fetch gives data, the `.ts` files become `SavedSegments` of the whole list and the outcome is `Downloaded`. Otherwise it stops at the first failing id k and reports `SegmentDownloadFailed(ids[k])`, with only the segments before k saved. `.mp4` files are untouched. |
| `Store.SegmentStore.DownloadVideo` | viewer.py:240-264 | As written: if segment 1 is missing, the outcome is `VideoNotFound` and nothing changes. The requests made are segment 1, then `FetchedIds` of the download list. Otherwise it runs the download loop over `IdsToDownload(ts, mp4, 10)`. On success every id 1..10 counts as downloaded. |
| `Store.FixedCountFailsShortVideos` | viewer.py:249-250 | For a video of 1 to 9 segments and an empty directory, the fixed count of 10 lists an id that does not exist. The run as written therefore ends in a failure. |
| `Store.FixedCountMissesLaterSegments` | viewer.py:249-250 | For a video of more than 10 segments, segment 11 exists but is never listed for download. |
| `Store.SegmentStore.DownloadWholeVideo` | viewer.py:249 | With the count taken from `GetNumVideoSegments`, a video of n ≥ 1 segments always ends `Downloaded`, with every id 1..n downloaded. A missing video (n = 0) gives `VideoNotFound` and changes nothing. The download loop fetches exactly the download list. |

## Findings

| source | as written | input that shows it | evidently intended | confidence | as-written member | corrected member |
|---|---|---|---|---|---|---|
| viewer.py:249-250 | The number of segments is the constant 10. The discovery call is commented out. | A video of 3 segments and an empty temporary directory: id 4 is listed, its fetch fails, and the run aborts. A video of 777 segments: only segments 1..10 are downloaded and merged. | `num_video_segments = get_num_video_segments(base_url)` | medium (not executed; the intended call sits commented out on the line above) | `Store.FixedCountFailsShortVideos` | `Store.SegmentStore.DownloadWholeVideo` |

## Left out

- The HTTP request (`urllib`), its timeout and the `time.sleep` rate limit (viewer.py:121-131) are not modelled. The server is an explicit function from URL to optional bytes. Each fetch of a URL gives the same answer, so a server that changes during a run is not modelled.
- Errors that the code does not catch are left out: a timeout or connection reset while reading the body (`response.read()`, viewer.py:130), and an I/O error while writing the `.ts` file (viewer.py:201-202). Each ends the program in the middle of the loop. A stop during the write can leave a truncated `<id>.ts`. A later run counts that file as downloaded, because only the file's presence is checked (viewer.py:168). `Remote.Web` never fails in this way and `SegmentStore.SaveVideoSegment` writes a file whole, so the model cannot show this hazard.
- The segment conversion through `ffmpeg` (viewer.py:205-210) and the conversion loop (viewer.py:269-273) are left out. They are an external tool whose exit code the code ignores, so the model cannot say which `.mp4` files appear.
- The moviepy merge (viewer.py:218-226) is left out: it is an external library working with frame rates in floating point.
- Directory creation and removal, and the temporary audio clean-up (viewer.py:192-196, 213-215, 229-237), are filesystem plumbing and are left out.
- The IPython progress bars (viewer.py:15-24, 258, 265, 270, 273) are display only and are left out.
- Reading the date from standard input, `interact` and the "already downloaded" branch (viewer.py:93-109, 292-306) are left out. `VideoPath` names the file that branch checks.
- The duration estimate `num * 10.0` (viewer.py:161-162) and its `int(...)` truncation are left out. `Durations.NewDuration` starts from a natural number of seconds, the value after truncation.
- The global `Config` object (viewer.py:27-42) is left out: its directory names are parameters of the path functions.
- `Discovery.GetNumVideoSegments`: the contract covers servers whose segments are exactly 1..n. With gaps, or with a timeout mid-search, the code can return a smaller count; the model does not describe that result.
