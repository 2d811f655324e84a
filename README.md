# Spotify-to-FLAC sync: the request governor and the sync helpers, in Dafny

This project models the parts of the Spotify-to-FLAC downloader that carry
real logic and proves what they promise.

- **The request governor** (`RateLimiter` in `lucida_client.py`). It is a sliding-window admission
  controller. Before each request, `wait()` sleeps in four steps:
  - for the minimum spacing since the last admission;
  - until the per-minute window has room;
  - until the per-hour window has room;
  - for an exponential backoff of `min(min_delay * 2**k, 300)` seconds after `k` consecutive errors.

  It then appends the admission time to a log bounded to `requests_per_hour` entries.
  `record_success`, `record_error` and `get_stats` maintain and read that state.
- **The pure and retry helpers of the sync script** (`lucida_sync.py`):
  - the filename sanitiser;
  - the playlist-ID extraction from a URL;
  - the choice of an Amazon Music link among a search page's hrefs;
  - the construction of the track list from a playlist's items;
  - the prompt loop that accepts or rejects URLs;
  - the bounded search and download retry loops of a worker.

Time is exact `real` seconds. `time.time()` and `time.sleep()` become a
`Clock` object passed to the governor: sleeping `d` seconds leaves the clock
at least `d` seconds later. Every external call becomes a function
parameter:
- the Spotify `playlist_items` call;
- the browser search page;
- the download.

Modules, one per file:

| file | module | models |
|---|---|---|
| `wrappers.dfy` | `Wrappers` | `Option` |
| `sliding_window.dfy` | `SlidingWindow` | the log: windowed counts, the oldest in-window entry, the `deque(maxlen)` append |
| `rate_limiter.dfy` | `RateLimiting` | `RateLimiter` as a class, the clock, the backoff |
| `text.dfy` | `Text` | `in`, `str.isspace`, `str.strip`, ASCII `str.lower`, deletion of characters |
| `filenames.dfy` | `Filenames` | `_sanitize_filename` |
| `playlist.dfy` | `Playlist` | the playlist ID and `get_playlist_tracks` |
| `session.dfy` | `Session` | the prompt loop of `sync_playlist_async` |
| `link_selection.dfy` | `LinkSelection` | the href choice of `get_direct_amazon_link_async` |
| `track_worker.dfy` | `TrackWorker` | the retry loops of `process_track_async` |

The governor's invariant `RateLimiter.Valid()` states that:
- the log holds at most `requests_per_hour` entries;
- the log is in admission order;
- its last entry is `last_request_time`;
- measured at the last admission, neither window holds more entries than its limit.

`Wait` keeps this invariant. It ties the new log to a bounded append of the admission time and the admission
time to the spacing and backoff it waited out. It also ensures that, at the admission
time, at most `requests_per_minute` and `requests_per_hour` logged
entries are in their windows. When the log was full, the entry the append evicts
was at least an hour old, so an entry only leaves the log after it has left the hour window.
The error backoff is slept on top of the other waits, starting at a time at which
both windows already had room, and `Wait` does not sleep at all when the spacing
has elapsed, there are no consecutive errors and both windows have room.
`RateLimiter.MinuteSpan` turns the invariant into
the rate guarantee itself. Any `requests_per_minute + 1`
consecutive admissions ending at the last one span at least a minute.

Two places where the source's own text and its code part ways:
- The class docstring (lucida_client.py:21-24) promises never to exceed the
  site's limits, with no failure case. The backoff at lucida_client.py:85-88 raises
  `OverflowError` after 1024 consecutive errors; see "Findings".
- `record_success` and `record_error` (lucida_client.py:100-106) exist to feed
  the backoff, and `_rate_limit` (lucida_client.py:152-154) to call `wait()`.
  Nothing in `lucida_sync.py` calls any of them. The operations are modelled as
  defined, and the worker model does not call them.

## Model

| member | source | states |
|---|---|---|
| SlidingWindow.CountAfter | lucida_client.py:58 | the number of log entries newer than a cut-off never exceeds the log's length |
| SlidingWindow.CountAfterZero | lucida_client.py:58-59 | the windowed count is zero exactly when no entry is newer than the cut-off |
| SlidingWindow.OldestAfter | lucida_client.py:61-64 | with entries in the window: a logged entry newer than the cut-off and no newer than any other in-window entry; otherwise the cut-off itself (the `default=`) |
| SlidingWindow.BoundedAppend | lucida_client.py:38 | `deque(maxlen).append`: below capacity the log is extended; at capacity exactly the oldest entry is dropped and the rest keep their order |
| SlidingWindow.CountAfterAppend | lucida_client.py:97 | appending a timestamp adds one to a windowed count exactly when it is inside the window |
| SlidingWindow.CountAfterSuffix | lucida_client.py:38 | evicting older entries never increases a windowed count |
| SlidingWindow.CountAfterAntitone | lucida_client.py:57-58 | a later cut-off (a later clock reading) never counts more entries |
| SlidingWindow.CountAfterDrops | lucida_client.py:57-58 | moving the cut-off past a logged entry strictly lowers the count |
| SlidingWindow.CountAfterAll | lucida_client.py:58 | when every entry is inside the window, all of them are counted |
| SlidingWindow.ExpiryWait | lucida_client.py:61-78 | the windowed wait `window - (now - oldest) + 1`, with the oldest in-window entry or the cut-off when the window is empty |
| SlidingWindow.RoomPersists | lucida_client.py:57-81 | room in both windows at one time is still there at any later time |
| SlidingWindow.OldestOutside | lucida_client.py:71-81 | in an ordered log, a window holding fewer entries than the whole log no longer holds the oldest entry |
| SlidingWindow.ExpiryWaitBounds | lucida_client.py:61-78 | the windowed wait `window - (now - oldest) + 1` is 1 s for an empty window and otherwise lies in (1, window + 1]: (1, 61] per minute, (1, 3601] per hour |
| SlidingWindow.ExpiryWaitClears | lucida_client.py:65-68 | after sleeping at least the windowed wait, the oldest in-window entry has left the window, so the count is strictly smaller |
| SlidingWindow.BoundedAppendSorted | lucida_client.py:97 | appending a timestamp no older than the log keeps it in admission order, with the new timestamp last and newest |
| SlidingWindow.BoundedAppendCount | lucida_client.py:97 | the count over the bounded log is at most the old count plus the appended entry |
| SlidingWindow.WindowSpan | lucida_client.py:57-68 | if at most `limit` entries lie within `window` of the newest, then the `limit + 1` newest entries span at least `window` |
| RateLimiting.Backoff | lucida_client.py:85-88 | `min(min_delay * 2**k, 300)` in exact arithmetic |
| RateLimiting.BackoffAsWritten | lucida_client.py:85-88 | the computation as written: no value (the `OverflowError` of converting `2**k` to a float) from `k = 1024` on, the capped backoff below that |
| RateLimiting.DoubledIsProduct | lucida_client.py:86 | repeated doubling equals `min_delay * 2**k` |
| RateLimiting.DoubledMonotone | lucida_client.py:86 | `min_delay * 2**k` is non-negative and non-decreasing in `k` |
| RateLimiting.BackoffBounds | lucida_client.py:85-88 | the backoff lies in [0, 300]; it is `min_delay * 2**k` up to the ceiling and 300 from there on |
| RateLimiting.BackoffMonotone | lucida_client.py:85-88 | more consecutive errors never shorten the backoff |
| RateLimiting.BackoffSaturates | lucida_client.py:85-88 | with the 2 s minimum delay, 8 or more errors give exactly the 300 s ceiling |
| RateLimiting.BackoffOverflowFinding | lucida_client.py:85-88 | with 2 s and 1024 errors the float computation fails although the capped value is 300; at 1023 it yields 300 |
| RateLimiting.Clock.Sleep | lucida_client.py:53 | `time.sleep(d)` for `d >= 0`: the clock ends at least `d` seconds later |
| RateLimiting.RateLimiter.constructor | lucida_client.py:27-43 | the limits as given (defaults 30, 500, 2.0), an empty log, last request time 0, no errors, and the invariant |
| RateLimiting.RateLimiter.Wait | lucida_client.py:45-98 | keeps the invariant; appends the admission time as a bounded append; records it as the last request time; waits at least `min_delay` (plus the backoff after errors) since the previous admission; after errors, waits at least the backoff beyond the call's start, and both windows already had room when the backoff began; does not sleep when the spacing has elapsed, there are no errors and both windows have room; leaves both windows within their limits at the admission time; when the log was full, the evicted entry is at least an hour old; leaves the error count alone |
| RateLimiting.RateLimiter.SleepUntilAdmissible | lucida_client.py:49-94 | after the four checks the spacing and the backoff since the last admission have elapsed, both windows are below their limits, and a full log's oldest entry is at least an hour old; after errors the backoff is an extra sleep beyond the call's start, begun when both windows had room; no check fires, so no sleep, when the spacing has elapsed, there are no errors and both windows have room |
| RateLimiting.RateLimiter.SleepForWindows | lucida_client.py:57-81 | after the per-minute and the per-hour checks, both windows are below their limits; when both windows already have room it does not sleep |
| RateLimiting.RateLimiter.SleepForWindowsThenBackoff | lucida_client.py:57-94 | after the two window checks and the backoff, both windows are below their limits; after errors the clock has advanced by at least the backoff, and both windows had room when the backoff began; with no errors and room in both windows, no sleep |
| RateLimiting.RateLimiter.Valid | lucida_client.py:22-43 | the invariant behind "never exceed the request limits": at least one request per minute, a non-negative spacing, a log of at most `requests_per_hour` entries in admission order ending at the last request time, and neither window over its limit at the last admission |
| RateLimiting.RateLimiter.SleepForSpacing | lucida_client.py:49-55 | no sleep when `min_delay` has already passed since the last admission; afterwards at least `min_delay` has passed |
| RateLimiting.RateLimiter.SleepForWindow | lucida_client.py:57-81 | no sleep below the limit; at the limit a sleep of at least the windowed wait, after which the window is below its limit |
| RateLimiting.RateLimiter.SleepForBackoff | lucida_client.py:83-94 | sleeps only when there are consecutive errors, and then at least the backoff |
| RateLimiting.RateLimiter.Record | lucida_client.py:96-98 | the bounded append and the new last request time keep the invariant |
| RateLimiting.RateLimiter.RecordSuccess | lucida_client.py:100-102 | the error count becomes 0 whatever it was; the log and the last request time are unchanged |
| RateLimiting.RateLimiter.RecordError | lucida_client.py:104-106 | the error count grows by exactly 1 with no cap; nothing else changes |
| RateLimiting.RateLimiter.GetStats | lucida_client.py:108-123 | the two windowed counts, the error count as stored and the log length, with minute <= hour <= total <= `requests_per_hour`; no state changes |
| RateLimiting.RateLimiter.MinuteSpan | lucida_client.py:57-98 | in a governed log, any `requests_per_minute + 1` consecutive admissions ending at the last one span at least 60 s |
| RateLimiting.ErrorResetScenario | lucida_client.py:100-106 | two errors, a success and an error leave a streak of 1, so a 4 s backoff |
| RateLimiting.BackoffScenario | lucida_client.py:49-98 | after one error, the next admission is at least 6 s (2 s spacing plus 4 s backoff) after the previous one |
| RateLimiting.PerMinuteScenario | lucida_client.py:57-68 | with two requests per minute, the third immediate request is admitted at least 60 s after the first |
| Text.Contains | lucida_sync.py:88-91 | Python's `sub in s`: some position of `s` starts with `sub` |
| Text.IsSpace | lucida_sync.py:68 | the characters `str.strip()` removes: Python's whitespace characters |
| Text.OccursImpliesContains | lucida_sync.py:89 | an occurrence at any position makes `sub in s` true |
| Text.ContainsIffOccurs | lucida_sync.py:88-91 | `sub in s` holds exactly when `sub` occurs at some position of `s` |
| Text.TrimStart | lucida_sync.py:68 | the result is a suffix of the input; everything removed is whitespace; the result does not start with whitespace |
| Text.TrimEnd | lucida_sync.py:68 | the result is a prefix of the input; everything removed is whitespace; the result does not end with whitespace |
| Text.Strip | lucida_sync.py:68 | `str.strip()` leaves no whitespace at either end |
| Text.StripTrimmed | lucida_sync.py:68 | a string with no whitespace at its ends is left unchanged |
| Text.TrimStartConcat | lucida_sync.py:68 | leading whitespace is only removed from the front part when the rest starts with a non-space character |
| Text.StripKeepsSuffix | lucida_sync.py:152 | stripping `x + u`, where `u` starts and ends with non-whitespace, removes only the leading whitespace of `x` |
| Text.Lower | lucida_sync.py:186 | lower-casing keeps the length |
| Text.SubsequenceTransitive | lucida_sync.py:68 | deleting characters twice is deleting characters |
| Text.SliceIsSubsequence | lucida_sync.py:68 | every contiguous slice is obtained by deleting characters |
| Text.StripIsSubsequence | lucida_sync.py:68 | `strip()` only deletes characters |
| Filenames.RemoveForbidden | lucida_sync.py:68 | after the `re.sub` none of the nine characters of its class is left |
| Filenames.RemoveForbiddenKeepsOthers | lucida_sync.py:68 | the `re.sub` keeps every other character as often as the input has it, in order, so it only deletes the forbidden ones |
| Filenames.RemoveForbiddenKeeps | lucida_sync.py:68 | a name with no forbidden character passes the `re.sub` unchanged |
| Filenames.RemoveForbiddenConcat | lucida_sync.py:152 | the `re.sub` distributes over concatenation |
| Filenames.SanitizeFilename | lucida_sync.py:66-68 | the sanitised name has no forbidden character and no whitespace at either end |
| Filenames.SanitizeIsSubsequence | lucida_sync.py:68 | the sanitiser only deletes characters |
| Filenames.SanitizeIdempotent | lucida_sync.py:68 | sanitising twice is sanitising once |
| Filenames.SanitizeKeepsSuffix | lucida_sync.py:152 | a suffix free of forbidden characters and of edge whitespace survives sanitising intact |
| Filenames.SanitizeKeepsFlac | lucida_sync.py:152 | the sanitised `artist - name.flac` still ends with `.flac` |
| Playlist.AfterLast | lucida_sync.py:102 | `split("/")[-1]`: a suffix of the URL with no separator that is preceded by a separator unless it is the whole URL |
| Playlist.BeforeFirst | lucida_sync.py:102 | `split("?")[0]`: a prefix with no separator that is followed by a separator unless it is the whole string |
| Playlist.PlaylistId | lucida_sync.py:102 | the playlist ID contains neither `/` nor `?` |
| Playlist.AfterLastAppend | lucida_sync.py:102 | the last segment of `prefix + "/" + tail` is `tail` when `tail` has no `/` |
| Playlist.BeforeFirstPrepend | lucida_sync.py:102 | the first segment of `head + "?" + rest` is `head` when `head` has no `?` |
| Playlist.PlaylistIdRoundTrip | lucida_sync.py:102 | the ID of `.../<id>?<query>` and of `.../<id>` is `<id>`, for an ID without `/` or `?` and a query without `/` |
| Playlist.NonNullTracks | lucida_sync.py:108-110 | the non-null tracks are no more than the items |
| Playlist.Describe | lucida_sync.py:111-115 | the entry for one track: its name, its first artist's name, and the query `artist + " " + name` |
| Playlist.ExtractTracks | lucida_sync.py:108-116 | the loop over the items as a value: `None` on the `IndexError`, otherwise one entry per non-null track |
| Playlist.ExtractTracksFails | lucida_sync.py:108-116 | extraction fails exactly when some item holds a non-null track without artists (the `IndexError` on `artists[0]`) |
| Playlist.ExtractTracksEntries | lucida_sync.py:106-116 | a successful extraction has one entry per non-null track, in item order, each built from that track's first artist |
| Playlist.ExtractFailurePersists | lucida_sync.py:108-116 | once a prefix of the items makes extraction fail, the whole list fails: the exception leaves the loop |
| Playlist.PlaylistTracks | lucida_sync.py:99-119 | a failed Spotify call gives no tracks; otherwise never more tracks than items |
| Playlist.ExtractedQueries | lucida_sync.py:112-114 | every extracted entry's query is the first artist's name, a space and the track name |
| Playlist.TrackQueries | lucida_sync.py:112-114 | each entry's query is the first artist's name, a space, and the track name |
| Playlist.CollectTracks | lucida_sync.py:108-116 | the append loop over the items gives exactly the extracted list, and `[]` once a track without artists raises |
| Playlist.GetPlaylistTracks | lucida_sync.py:99-119 | the loop builds exactly the specified track list, including `[]` on every error |
| Session.LowerIsQ | lucida_sync.py:186 | `line.lower() == 'q'` holds exactly for `q` and `Q` |
| Session.Classify | lucida_sync.py:186-190 | quit exactly on `q`/`Q`; fetch exactly when the line is not a quit and contains `spotify.com/playlist` |
| Session.Fetched | lucida_sync.py:184-194 | the URLs handed to `get_playlist_tracks`, for the lines entered in order, up to the first `q` |
| Session.Batches | lucida_sync.py:184-194 | the non-empty track lists handed to the workers, one per fetched URL that yielded tracks |
| Session.SyncSession | lucida_sync.py:183-194 | the URLs fetched and the non-empty track lists handed to the workers are exactly those the specification gives for the lines entered |
| Session.SessionTurn | lucida_sync.py:184-194 | one turn of the loop: quit ends, a rejected line fetches nothing, an accepted URL is fetched and its tracks are synced when there are any |
| Session.FetchedAreAccepted | lucida_sync.py:188-192 | every fetched URL was entered, in order, and contains `spotify.com/playlist` |
| Session.QuitEndsSession | lucida_sync.py:186-187 | nothing entered after a `q` is fetched or synced |
| Session.BatchesNonEmpty | lucida_sync.py:192-194 | workers only start for non-empty track lists, at most one list per fetched URL |
| LinkSelection.FirstContaining | lucida_sync.py:88-91 | the index of the first href containing the pattern, or none when no href does |
| LinkSelection.SelectLink | lucida_sync.py:86-93 | the chosen link is one of the hrefs and not empty; there is none exactly when no href contains `trackAsin=` or `/tracks/` |
| LinkSelection.SelectLinkPrefersAsin | lucida_sync.py:88-89 | when an href contains `trackAsin=`, the first such href is chosen |
| LinkSelection.SelectLinkFallsBack | lucida_sync.py:90-91 | with no `trackAsin=` href, the first href containing `/tracks/` is chosen |
| TrackWorker.Found | lucida_sync.py:143-147 | the truthiness test on the search result: a link counts as found exactly when it is present and non-empty |
| TrackWorker.AmazonLink | lucida_sync.py:76-97 | a failed page load gives no link; a link found is non-empty and is one of the page's hrefs |
| TrackWorker.SearchWithRetry | lucida_sync.py:137-145 | 1 to 3 searches; every search before the last failed; it stops at the first success; without a link all 3 were made; 2 s pause after each failure |
| TrackWorker.DownloadWithRetry | lucida_sync.py:155-169 | 1 or 2 downloads; it stops at the first success; a failure means both attempts failed; 2 s pause after each failure |
| TrackWorker.OutputName | lucida_sync.py:152 | the file name ends with `.flac` and holds no forbidden character |
| TrackWorker.ProcessTrack | lucida_sync.py:121-172 | not found exactly when all 3 searches failed, and then no download is attempted; otherwise the found link is downloaded under the sanitised name, and the track is completed exactly when one of the 2 downloads succeeded |

## Left out

- `LucidaClient` apart from `RateLimiter` (`__init__`, `_launch_browser_context`, `download_track`): HTTP sessions, browser automation and file writes against an external site. A download is a function parameter returning success or failure.
- The browser navigation in `get_direct_amazon_link_async` and `sync_playlist_async`: a search page is a function parameter returning the page's hrefs, or nothing when navigation raised.
- Concurrency in `sync_playlist_async`: the semaphore of 3, `asyncio.gather` and the staggered start `index * 5`. The model stops at the non-empty track lists handed to the workers. `ProcessTrack` models one worker on its own.
- `setup_credentials` and `main`: `.env` handling, prompts and SDK construction.
- The Spotify SDK: `playlist_items` is a function parameter. Any exception it or the item dictionaries raise (missing keys) is its `None` result.
- All console output.
- Floating-point time: the clock is exact `real` seconds. `Clock.Sleep` may oversleep, and every proof uses only "at least `d` later".
- RateLimiting.RateLimiter.Wait: requires that the clock is not behind the last admission, which is the monotonic clock. A wall clock that steps backwards is not modelled.
- RateLimiting.RateLimiter.Wait: sleeps the capped backoff `Backoff(min_delay, k)` for every error count `k`. For `k >= 1024` the source instead raises `OverflowError` (lucida_client.py:86). That exception is modelled only in `BackoffAsWritten`; see "Findings".
- RateLimiting.RateLimiter.constructor: requires `requests_per_minute >= 1` and `min_delay >= 0`. With a per-minute limit of 0 the minute check always fires: it sleeps 1 s when the window is empty and up to 61 s otherwise, then admits anyway, so no per-minute invariant holds. A negative `min_delay` makes the backoff negative, and `time.sleep` raises `ValueError` once there is a consecutive error; with no errors the source runs, but that case is not modelled. `requests_per_hour` is a `nat`, so negative values are excluded; for those `deque(maxlen=...)` at lucida_client.py:38 raises `ValueError`.
- `max_backoff` is a constant of the module (`MaxBackoff`), not a per-object field, because nothing assigns it after construction.
- `os.path.join(download_dir, safe_name)`: the download receives the sanitised file name, and the directory is part of the download parameter.
- Text.Lower: lower-cases ASCII letters only. That is enough for the `q` test, because no other character lower-cases to `q`. The multi-character lower-casings of some Unicode letters are not modelled.
- The worker's exception handler and page clean-up (`except`/`finally` around the worker): exceptions from the page set-up and from `download_track` are not modelled. A failed search or download is an ordinary outcome.

## Findings

| source | as written | input that shows it | evidently intended | confidence | as-written member | corrected member |
|---|---|---|---|---|---|---|
| lucida_client.py:85-88 | `min(self.min_delay * (2**self.consecutive_errors), self.max_backoff)` converts `2**k` to a float before the cap applies, which raises `OverflowError` once `k >= 1024` | 1024 consecutive errors with `min_delay = 2.0` | wait the 300 s ceiling | not executed | RateLimiting.BackoffOverflowFinding | RateLimiting.BackoffBounds |
