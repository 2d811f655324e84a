/**
  The prompt loop of `sync_playlist_async`: each line read is either `q`
  in any letter case (leave), a line without `spotify.com/playlist`
  (reject and ask again), or a playlist URL whose tracks are fetched and,
  when there are any, handed to the download workers.
 */
module Session {
  import opened Wrappers
  import opened Text
  import opened Playlist

  datatype Command = Quit | Reject | Fetch

  /** The text every accepted URL must contain. */
  const PlaylistMarker: string := "spotify.com/playlist"

  /** `Lower(s) == "q"` holds for exactly the two spellings of `q`. */
  lemma LowerIsQ(s: string)
    ensures Lower(s) == "q" <==> s == "q" || s == "Q"
  {
    if |s| == 1 {
      assert Lower(s) == [LowerChar(s[0])] + Lower(s[1..]);
      assert Lower(s[1..]) == [];
    }
  }

  /** The two tests at the head of the loop, in the order the loop makes them. */
  function Classify(line: string): (c: Command)
    ensures c == Quit <==> line == "q" || line == "Q"
    ensures c == Fetch <==> line != "q" && line != "Q" && Contains(line, PlaylistMarker)
  {
    LowerIsQ(line);
    if Lower(line) == "q" then Quit
    else if !Contains(line, PlaylistMarker) then Reject
    else Fetch
  }

  /** The URLs handed to `get_playlist_tracks`, for the lines read in order. */
  function Fetched(lines: seq<string>): seq<string> {
    if lines == [] then []
    else
      match Classify(lines[0])
      case Quit => []
      case Reject => Fetched(lines[1..])
      case Fetch => [lines[0]] + Fetched(lines[1..])
  }

  /** The non-empty track lists handed to the workers, one per fetched URL that yielded tracks. */
  function Batches(lines: seq<string>, playlistItems: string -> Option<seq<PlaylistItem>>): seq<seq<TrackInfo>> {
    if lines == [] then []
    else
      match Classify(lines[0])
      case Quit => []
      case Reject => Batches(lines[1..], playlistItems)
      case Fetch =>
        var tracks := PlaylistTracks(lines[0], playlistItems);
        (if tracks == [] then [] else [tracks]) + Batches(lines[1..], playlistItems)
  }

  /**
    The loop over the lines entered at the prompt (the prompt itself is the
    sequence `lines`; running out of lines ends the session like `q`).
   */
  method SyncSession(lines: seq<string>, playlistItems: string -> Option<seq<PlaylistItem>>)
    returns (fetched: seq<string>, batches: seq<seq<TrackInfo>>)
    ensures fetched == Fetched(lines)
    ensures batches == Batches(lines, playlistItems)
  {
    fetched, batches := [], [];
    var i := 0;
    while i < |lines|
      invariant 0 <= i <= |lines|
      invariant fetched + Fetched(lines[i..]) == Fetched(lines)
      invariant batches + Batches(lines[i..], playlistItems) == Batches(lines, playlistItems)
    {
      var line := lines[i];
      SessionTurn(lines, i, playlistItems, fetched, batches);
      var command := Classify(line);
      if command == Quit {
        return;
      }
      if command == Fetch {
        var tracks := GetPlaylistTracks(line, playlistItems);
        fetched := fetched + [line];
        if tracks != [] {
          batches := batches + [tracks];
        }
      }
      i := i + 1;
    }
    assert fetched + [] == fetched && batches + [] == batches;
  }

  /** One turn of the loop, as the specification functions see it, after what was already collected. */
  lemma SessionTurn(lines: seq<string>, i: nat, playlistItems: string -> Option<seq<PlaylistItem>>,
                    fetched: seq<string>, batches: seq<seq<TrackInfo>>)
    requires i < |lines|
    ensures var c := Classify(lines[i]);
      && (c == Quit ==>
            && fetched + Fetched(lines[i..]) == fetched
            && batches + Batches(lines[i..], playlistItems) == batches)
      && (c == Reject ==>
            && fetched + Fetched(lines[i..]) == fetched + Fetched(lines[i + 1..])
            && batches + Batches(lines[i..], playlistItems) == batches + Batches(lines[i + 1..], playlistItems))
      && (c == Fetch ==>
            && fetched + Fetched(lines[i..]) == (fetched + [lines[i]]) + Fetched(lines[i + 1..])
            && var tracks := PlaylistTracks(lines[i], playlistItems);
               batches + Batches(lines[i..], playlistItems)
                 == (if tracks == [] then batches else batches + [tracks]) + Batches(lines[i + 1..], playlistItems))
  {
    assert lines[i..][0] == lines[i] && lines[i..][1..] == lines[i + 1..];
    var c := Classify(lines[i]);
    if c == Quit {
      assert fetched + [] == fetched && batches + [] == batches;
    } else if c == Fetch {
      var rest := Fetched(lines[i + 1..]);
      assert fetched + ([lines[i]] + rest) == (fetched + [lines[i]]) + rest;
      var tracks := PlaylistTracks(lines[i], playlistItems);
      var later := Batches(lines[i + 1..], playlistItems);
      if tracks == [] {
        assert [] + later == later;
      } else {
        assert batches + ([tracks] + later) == (batches + [tracks]) + later;
      }
    }
  }

  /**
    Every URL that is fetched was entered, in the order entered, and
    contains `spotify.com/playlist`; a rejected line is never fetched.
   */
  lemma {:induction false} FetchedAreAccepted(lines: seq<string>)
    ensures IsSubsequence(Fetched(lines), lines)
    ensures forall k :: 0 <= k < |Fetched(lines)| ==> Contains(Fetched(lines)[k], PlaylistMarker)
  {
    if lines != [] {
      FetchedAreAccepted(lines[1..]);
      var rest := Fetched(lines[1..]);
      if Classify(lines[0]) == Fetch {
        assert ([lines[0]] + rest)[1..] == rest;
      }
    }
  }

  /** A `q` ends the session: nothing entered after it is fetched or synced. */
  lemma {:induction false} QuitEndsSession(before: seq<string>, quit: string, after: seq<string>,
                                           playlistItems: string -> Option<seq<PlaylistItem>>)
    requires quit == "q" || quit == "Q"
    ensures Fetched(before + [quit] + after) == Fetched(before)
    ensures Batches(before + [quit] + after, playlistItems) == Batches(before, playlistItems)
  {
    var lines := before + [quit] + after;
    if before == [] {
      assert lines[0] == quit;
    } else {
      assert lines[0] == before[0] && lines[1..] == before[1..] + [quit] + after;
      QuitEndsSession(before[1..], quit, after, playlistItems);
    }
  }

  /** Workers are only started for non-empty track lists, at most one per fetched URL. */
  lemma {:induction false} BatchesNonEmpty(lines: seq<string>, playlistItems: string -> Option<seq<PlaylistItem>>)
    ensures |Batches(lines, playlistItems)| <= |Fetched(lines)|
    ensures forall k :: 0 <= k < |Batches(lines, playlistItems)| ==> Batches(lines, playlistItems)[k] != []
  {
    if lines != [] {
      BatchesNonEmpty(lines[1..], playlistItems);
    }
  }
}
