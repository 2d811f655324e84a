/**
  The choice of a track link among the anchors of an Amazon Music search
  page: the first href holding `trackAsin=`, failing that the first holding
  `/tracks/`, failing that none.
 */
module LinkSelection {
  import opened Wrappers
  import opened Text

  const AsinMarker: string := "trackAsin="
  const TracksMarker: string := "/tracks/"

  /** The index of the first href containing `pattern`, if any. */
  function FirstContaining(hrefs: seq<string>, pattern: string): (r: Option<nat>)
    ensures r.Some? ==>
      && r.value < |hrefs|
      && Contains(hrefs[r.value], pattern)
      && forall j :: 0 <= j < r.value ==> !Contains(hrefs[j], pattern)
    ensures r.None? ==> forall j :: 0 <= j < |hrefs| ==> !Contains(hrefs[j], pattern)
  {
    if hrefs == [] then None
    else if Contains(hrefs[0], pattern) then Some(0)
    else
      match FirstContaining(hrefs[1..], pattern)
      case None => None
      case Some(k) => Some(k + 1)
  }

  /** The two first-match loops of `get_direct_amazon_link_async`. */
  function SelectLink(hrefs: seq<string>): (link: Option<string>)
    ensures link.Some? ==> link.value in hrefs && link.value != []
    ensures link.None? <==>
      forall j :: 0 <= j < |hrefs| ==> !Contains(hrefs[j], AsinMarker) && !Contains(hrefs[j], TracksMarker)
  {
    match FirstContaining(hrefs, AsinMarker)
    case Some(k) =>
      NonEmptyWhenContaining(hrefs[k], AsinMarker);
      Some(hrefs[k])
    case None =>
      match FirstContaining(hrefs, TracksMarker)
      case Some(k) =>
        NonEmptyWhenContaining(hrefs[k], TracksMarker);
        Some(hrefs[k])
      case None => None
  }

  /** A string containing a non-empty pattern is not empty. */
  lemma NonEmptyWhenContaining(s: string, pattern: string)
    requires pattern != [] && Contains(s, pattern)
    ensures s != []
  {
  }

  /** When some href holds `trackAsin=`, the first such href is chosen, whatever else the page holds. */
  lemma SelectLinkPrefersAsin(hrefs: seq<string>, k: nat)
    requires k < |hrefs| && Contains(hrefs[k], AsinMarker)
    requires forall j :: 0 <= j < k ==> !Contains(hrefs[j], AsinMarker)
    ensures SelectLink(hrefs) == Some(hrefs[k])
  {
  }

  /** With no `trackAsin=` href, the first href holding `/tracks/` is chosen. */
  lemma SelectLinkFallsBack(hrefs: seq<string>, k: nat)
    requires forall j :: 0 <= j < |hrefs| ==> !Contains(hrefs[j], AsinMarker)
    requires k < |hrefs| && Contains(hrefs[k], TracksMarker)
    requires forall j :: 0 <= j < k ==> !Contains(hrefs[j], TracksMarker)
    ensures SelectLink(hrefs) == Some(hrefs[k])
  {
  }
}
