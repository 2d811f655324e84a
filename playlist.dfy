/**
  The Spotify side of the sync script: the playlist ID cut out of a URL,
  and the list of tracks (search query, name, first artist) built from a
  playlist's items, skipping the items whose track is null.
 */
module Playlist {
  import opened Wrappers

  /** The text after the last `sep` of `s`, or all of `s` when there is none (`s.split(sep)[-1]`). */
  function AfterLast(s: string, sep: char): (r: string)
    ensures |r| <= |s| && r == s[|s| - |r|..]
    ensures sep !in r
    ensures |r| < |s| ==> s[|s| - |r| - 1] == sep
  {
    if s == [] || s[|s| - 1] == sep then []
    else
      var r := AfterLast(s[..|s| - 1], sep) + [s[|s| - 1]];
      assert s[..|s| - 1][|s| - |r|..] + [s[|s| - 1]] == s[|s| - |r|..];
      r
  }

  /** The text before the first `sep` of `s`, or all of `s` when there is none (`s.split(sep)[0]`). */
  function BeforeFirst(s: string, sep: char): (r: string)
    ensures |r| <= |s| && r == s[..|r|]
    ensures sep !in r
    ensures |r| < |s| ==> s[|r|] == sep
  {
    if s == [] || s[0] == sep then []
    else [s[0]] + BeforeFirst(s[1..], sep)
  }

  /** `playlist_url.split("/")[-1].split("?")[0]`. */
  function PlaylistId(url: string): (id: string)
    ensures '/' !in id && '?' !in id
  {
    BeforeFirst(AfterLast(url, '/'), '?')
  }

  /** `AfterLast` inverts appending a separator and a separator-free tail. */
  lemma {:induction false} AfterLastAppend(prefix: string, sep: char, tail: string)
    requires sep !in tail
    ensures AfterLast(prefix + [sep] + tail, sep) == tail
  {
    var s := prefix + [sep] + tail;
    if tail == [] {
      assert s[|s| - 1] == sep;
    } else {
      var init := tail[..|tail| - 1];
      assert s[..|s| - 1] == prefix + [sep] + init;
      assert s[|s| - 1] == tail[|tail| - 1];
      AfterLastAppend(prefix, sep, init);
      assert init + [tail[|tail| - 1]] == tail;
    }
  }

  /** `BeforeFirst` inverts prepending a separator-free head to a separator. */
  lemma {:induction false} BeforeFirstPrepend(head: string, sep: char, rest: string)
    requires sep !in head
    ensures BeforeFirst(head + [sep] + rest, sep) == head
  {
    var s := head + [sep] + rest;
    if head == [] {
      assert s[0] == sep;
    } else {
      assert s[0] == head[0] && s[1..] == head[1..] + [sep] + rest;
      BeforeFirstPrepend(head[1..], sep, rest);
      assert [head[0]] + head[1..] == head;
    }
  }

  /**
    For a URL `.../<id>?<query>` whose query holds no `/`, the ID is
    recovered exactly; without a query the same holds for `.../<id>`.
   */
  lemma PlaylistIdRoundTrip(prefix: string, id: string, query: string)
    requires '/' !in id && '?' !in id && '/' !in query
    ensures PlaylistId(prefix + "/" + id + "?" + query) == id
    ensures PlaylistId(prefix + "/" + id) == id
  {
    assert prefix + "/" + id + "?" + query == prefix + ['/'] + (id + ['?'] + query);
    AfterLastAppend(prefix, '/', id + ['?'] + query);
    BeforeFirstPrepend(id, '?', query);
    AfterLastAppend(prefix, '/', id);
    assert BeforeFirst(id, '?') == id;
  }

  datatype Artist = Artist(name: string)
  datatype Track = Track(name: string, artists: seq<Artist>)
  /** One entry of `playlist_items(...)['items']`; its track may be null. */
  datatype PlaylistItem = PlaylistItem(track: Option<Track>)
  /** The dictionary built per track: `query`, `name`, `artist`. */
  datatype TrackInfo = TrackInfo(query: string, name: string, artist: string)

  /** The non-null tracks of `items`, in order. */
  function NonNullTracks(items: seq<PlaylistItem>): (ts: seq<Track>)
    ensures |ts| <= |items|
  {
    if items == [] then []
    else
      var init := NonNullTracks(items[..|items| - 1]);
      match items[|items| - 1].track
      case None => init
      case Some(t) => init + [t]
  }

  /** The entry built for one track, from its first artist. */
  function Describe(t: Track): (info: TrackInfo)
    requires t.artists != []
    ensures info.name == t.name && info.artist == t.artists[0].name
    ensures info.query == info.artist + " " + info.name
  {
    var artist := t.artists[0].name;
    TrackInfo(artist + " " + t.name, t.name, artist)
  }

  /**
    The loop over the items, one item at a time: `None` once a non-null
    track without artists is met (the `IndexError` of
    `track['artists'][0]`), otherwise one more entry per non-null track.
   */
  function ExtractTracks(items: seq<PlaylistItem>): (r: Option<seq<TrackInfo>>)
    ensures r.Some? ==> |r.value| == |NonNullTracks(items)|
  {
    if items == [] then Some([])
    else
      var init := ExtractTracks(items[..|items| - 1]);
      match items[|items| - 1].track
      case None => init
      case Some(t) =>
        if t.artists == [] || init.None? then None
        else Some(init.value + [Describe(t)])
  }

  /** Extraction fails exactly when some item holds a track without artists. */
  lemma {:induction false} ExtractTracksFails(items: seq<PlaylistItem>)
    ensures ExtractTracks(items).None? <==>
      exists k :: 0 <= k < |items| && items[k].track.Some? && items[k].track.value.artists == []
  {
    if items != [] {
      var prefix := items[..|items| - 1];
      ExtractTracksFails(prefix);
      var last := items[|items| - 1];
      if ExtractTracks(prefix).None? {
        var k :| 0 <= k < |prefix| && prefix[k].track.Some? && prefix[k].track.value.artists == [];
        assert items[k] == prefix[k];
      } else if last.track.Some? && last.track.value.artists == [] {
      } else {
        forall k | 0 <= k < |items| && items[k].track.Some? ensures items[k].track.value.artists != [] {
          if k < |prefix| {
            assert items[k] == prefix[k];
          }
        }
      }
    }
  }

  /**
    A successful extraction holds one entry per non-null track, in order,
    each built from that track's first artist.
   */
  lemma {:induction false} ExtractTracksEntries(items: seq<PlaylistItem>)
    ensures var ts := NonNullTracks(items);
      ExtractTracks(items).Some? ==>
        && |ExtractTracks(items).value| == |ts|
        && forall k :: 0 <= k < |ts| ==> ts[k].artists != [] && ExtractTracks(items).value[k] == Describe(ts[k])
  {
    if items != [] {
      var prefix := items[..|items| - 1];
      ExtractTracksEntries(prefix);
      var ts, earlier := NonNullTracks(items), NonNullTracks(prefix);
      var init := ExtractTracks(prefix);
      match items[|items| - 1].track
      case None =>
        assert ts == earlier && ExtractTracks(items) == init;
      case Some(t) =>
        assert ts == earlier + [t];
        if t.artists != [] && init.Some? {
          var r := ExtractTracks(items).value;
          assert r == init.value + [Describe(t)];
          forall k | 0 <= k < |ts| ensures ts[k].artists != [] && r[k] == Describe(ts[k]) {
            if k < |earlier| {
              assert ts[k] == earlier[k] && r[k] == init.value[k];
            }
          }
        }
    }
  }

  /** Once extraction has failed on a prefix, it fails on the whole list. */
  lemma {:induction false} ExtractFailurePersists(items: seq<PlaylistItem>, n: nat)
    requires n <= |items| && ExtractTracks(items[..n]).None?
    ensures ExtractTracks(items).None?
    decreases |items| - n
  {
    if n < |items| {
      assert items[..n + 1][..n] == items[..n];
      ExtractFailurePersists(items, n + 1);
    } else {
      assert items[..n] == items;
    }
  }

  /**
    `get_playlist_tracks` as a specification: the Spotify call yields the
    items, or `None` when it raised; any failure gives the empty list.
   */
  function PlaylistTracks(url: string, playlistItems: string -> Option<seq<PlaylistItem>>): (r: seq<TrackInfo>)
    ensures playlistItems(PlaylistId(url)).None? ==> r == []
    ensures playlistItems(PlaylistId(url)).Some? ==> |r| <= |playlistItems(PlaylistId(url)).value|
  {
    var fetched := playlistItems(PlaylistId(url));
    if fetched.None? then []
    else
      var extracted := ExtractTracks(fetched.value);
      if extracted.None? then [] else extracted.value
  }

  /** Every extracted entry's query is the first artist's name, a space and the track name. */
  lemma ExtractedQueries(items: seq<PlaylistItem>)
    ensures ExtractTracks(items).Some? ==>
      forall k :: 0 <= k < |ExtractTracks(items).value| ==>
        ExtractTracks(items).value[k].query == ExtractTracks(items).value[k].artist + " " + ExtractTracks(items).value[k].name
  {
    ExtractTracksEntries(items);
  }

  /** Every entry's query is the first artist's name, a space and the track name. */
  lemma TrackQueries(url: string, playlistItems: string -> Option<seq<PlaylistItem>>)
    ensures var ts := PlaylistTracks(url, playlistItems);
      forall k :: 0 <= k < |ts| ==> ts[k].query == ts[k].artist + " " + ts[k].name
  {
    var fetched := playlistItems(PlaylistId(url));
    if fetched.Some? {
      ExtractedQueries(fetched.value);
    }
  }

  /**
    The `for item in results['items']` loop of `get_playlist_tracks`: one
    entry per non-null track, and `[]` once a track without artists raises.
   */
  method CollectTracks(items: seq<PlaylistItem>) returns (tracks: seq<TrackInfo>)
    ensures ExtractTracks(items).None? ==> tracks == []
    ensures ExtractTracks(items).Some? ==> tracks == ExtractTracks(items).value
  {
    tracks := [];
    var i := 0;
    while i < |items|
      invariant 0 <= i <= |items|
      invariant ExtractTracks(items[..i]) == Some(tracks)
    {
      assert items[..i + 1][..i] == items[..i];
      var item := items[i];
      if item.track.Some? {
        var track := item.track.value;
        if track.artists == [] {
          ExtractFailurePersists(items, i + 1);
          return [];
        }
        tracks := tracks + [Describe(track)];
      }
      i := i + 1;
    }
    assert items[..i] == items;
  }

  /**
    `get_playlist_tracks`: fetch the items for the URL's playlist ID and
    collect their tracks; any error yields `[]`.
   */
  method GetPlaylistTracks(url: string, playlistItems: string -> Option<seq<PlaylistItem>>)
    returns (tracks: seq<TrackInfo>)
    ensures tracks == PlaylistTracks(url, playlistItems)
  {
    var result := playlistItems(PlaylistId(url));
    if result.None? {
      return [];
    }
    tracks := CollectTracks(result.value);
  }
}
