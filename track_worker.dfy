/**
  One download worker (`process_track_async`) with its browser and network
  calls supplied as functions: search the track on Amazon Music up to three
  times, and when a link is found download it under a sanitised file name
  up to twice, pausing two seconds after every failed attempt.
 */
module TrackWorker {
  import opened Wrappers
  import opened Filenames
  import opened Playlist
  import opened LinkSelection

  const SearchAttempts: nat := 3
  const DownloadAttempts: nat := 2
  /** Seconds slept after each failed attempt (`asyncio.sleep(2)`). */
  const RetryPause: nat := 2

  /** Python truthiness of the link: present and not the empty string. */
  predicate Found(link: Option<string>) {
    link.Some? && link.value != []
  }

  /**
    `get_direct_amazon_link_async` once the search page is loaded: the page's
    hrefs, or `None` when navigating raised, go through the link selection.
   */
  function AmazonLink(page: Option<seq<string>>): (link: Option<string>)
    ensures page.None? ==> link.None?
    ensures link.Some? ==> Found(link) && link.value in page.value
  {
    if page.None? then None else SelectLink(page.value)
  }

  /**
    The search retry loop. `searchPage(query, attempt)` is the outcome of
    the `attempt`-th search. It stops at the first attempt that finds a
    link, makes at most three, and pauses after each failure.
   */
  method SearchWithRetry(query: string, searchPage: (string, nat) -> Option<seq<string>>)
    returns (link: Option<string>, attempts: nat, paused: nat)
    ensures 1 <= attempts <= SearchAttempts
    ensures link == AmazonLink(searchPage(query, attempts - 1))
    ensures forall k :: 0 <= k < attempts - 1 ==> !Found(AmazonLink(searchPage(query, k)))
    ensures !Found(link) ==> attempts == SearchAttempts
    ensures paused == RetryPause * (if Found(link) then attempts - 1 else attempts)
  {
    link := None;
    attempts := 0;
    paused := 0;
    while attempts < SearchAttempts
      invariant attempts <= SearchAttempts
      invariant forall k :: 0 <= k < attempts ==> !Found(AmazonLink(searchPage(query, k)))
      invariant attempts > 0 ==> link == AmazonLink(searchPage(query, attempts - 1))
      invariant paused == RetryPause * attempts
    {
      link := AmazonLink(searchPage(query, attempts));
      attempts := attempts + 1;
      if Found(link) {
        break;
      }
      paused := paused + RetryPause;
    }
  }

  /**
    The download retry loop. `download(link, fileName, attempt)` is whether
    the `attempt`-th download succeeded. It stops at the first success, makes
    at most two attempts, and pauses after each failure.
   */
  method DownloadWithRetry(link: string, fileName: string, download: (string, string, nat) -> bool)
    returns (success: bool, attempts: nat, paused: nat)
    ensures 1 <= attempts <= DownloadAttempts
    ensures success == download(link, fileName, attempts - 1)
    ensures forall k :: 0 <= k < attempts - 1 ==> !download(link, fileName, k)
    ensures !success ==> attempts == DownloadAttempts
    ensures paused == RetryPause * (if success then attempts - 1 else attempts)
  {
    success := false;
    attempts := 0;
    paused := 0;
    while attempts < DownloadAttempts
      invariant attempts <= DownloadAttempts
      invariant forall k :: 0 <= k < attempts ==> !download(link, fileName, k)
      invariant !success
      invariant paused == RetryPause * attempts
    {
      if download(link, fileName, attempts) {
        success := true;
        attempts := attempts + 1;
        break;
      }
      attempts := attempts + 1;
      paused := paused + RetryPause;
    }
  }

  /** The file name a track is saved under: `artist - name.flac`, sanitised. */
  function OutputName(info: TrackInfo): (name: string)
    ensures |name| >= 5 && name[|name| - 5..] == ".flac"
    ensures NoForbidden(name)
  {
    SanitizeKeepsFlac(info.artist, info.name);
    SanitizeFilename(info.artist + " - " + info.name + ".flac")
  }

  datatype Outcome =
    | NotFound
    | Completed(link: string, fileName: string)
    | PermanentFailure(link: string, fileName: string)

  /**
    `process_track_async` without the stagger, the semaphore and the page
    set-up: search, give up without downloading when no link is found,
    otherwise download the found link under `OutputName`.
   */
  method ProcessTrack(info: TrackInfo, searchPage: (string, nat) -> Option<seq<string>>,
                      download: (string, string, nat) -> bool)
    returns (outcome: Outcome, searches: nat, downloads: nat)
    ensures 1 <= searches <= SearchAttempts && downloads <= DownloadAttempts
    ensures outcome.NotFound? <==>
      forall k :: 0 <= k < SearchAttempts ==> !Found(AmazonLink(searchPage(info.query, k)))
    ensures outcome.NotFound? ==> downloads == 0
    ensures !outcome.NotFound? ==>
      && downloads >= 1
      && AmazonLink(searchPage(info.query, searches - 1)) == Some(outcome.link)
      && outcome.link != []
      && outcome.fileName == OutputName(info)
    ensures outcome.Completed? <==>
      !outcome.NotFound? && exists k :: 0 <= k < DownloadAttempts && download(outcome.link, outcome.fileName, k)
  {
    var link, paused;
    link, searches, paused := SearchWithRetry(info.query, searchPage);
    if !Found(link) {
      return NotFound, searches, 0;
    }
    var fileName := OutputName(info);
    var success, waited;
    success, downloads, waited := DownloadWithRetry(link.value, fileName, download);
    if success {
      outcome := Completed(link.value, fileName);
    } else {
      outcome := PermanentFailure(link.value, fileName);
    }
  }
}
