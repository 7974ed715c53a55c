/** The artwork memo of the releases page, `src/pages/Releases.tsx`: one run
    of the effect walks the releases and, for each one that has no artwork
    yet and has a SoundCloud URL, asks `getAlbumArtURL` for one and stores
    it under the release id. The oEmbed answers are a parameter. */
module Releases {
  import opened Wrappers
  import ArtworkRetriever

  /** The fields of a release that the effect and the card read. */
  datatype Release = Release(id: int, soundcloud_url: string)

  /** `artworkUrls[id]` is truthy: present and not the empty string. */
  predicate HasArtwork(urls: map<int, string>, id: int) {
    id in urls && urls[id] != ""
  }

  /** `!artworkUrls[release.id] && release.soundcloud_url`, evaluated on the
      map the effect closed over. */
  predicate Eligible(snapshot: map<int, string>, r: Release)
    ensures HasArtwork(snapshot, r.id) ==> !Eligible(snapshot, r)
    ensures r.soundcloud_url == "" ==> !Eligible(snapshot, r)
  {
    !HasArtwork(snapshot, r.id) && r.soundcloud_url != ""
  }

  /** What `getAlbumArtURL(release.soundcloud_url)` settles to, given the
      oEmbed answer for each URL. */
  function Fetch(oembed: string -> ArtworkRetriever.OEmbedOutcome, r: Release): (f: Result<string, string>)
    ensures f.Success? ==> f.value != ""
    ensures f.Failure? ==> f.error == ArtworkRetriever.ArtworkError
  {
    ArtworkRetriever.GetAlbumArtUrl(oembed(r.soundcloud_url))
  }

  /** The callback for one release: an eligible release whose fetch
      succeeds is stored by the `setArtworkUrls(prev => ...)` updater; every
      other case leaves the map alone. */
  function Step(snapshot: map<int, string>, live: map<int, string>, r: Release,
                oembed: string -> ArtworkRetriever.OEmbedOutcome): (m: map<int, string>)
    ensures Eligible(snapshot, r) && Fetch(oembed, r).Success? ==> m == live[r.id := Fetch(oembed, r).value]
    ensures !(Eligible(snapshot, r) && Fetch(oembed, r).Success?) ==> m == live
  {
    if Eligible(snapshot, r) then
      match Fetch(oembed, r)
      case Success(url) => live[r.id := url]
      case Failure(_) => live
    else live
  }

  /** The map after the callbacks of `rs`, in order, starting from `live`. */
  function PassOver(snapshot: map<int, string>, live: map<int, string>, rs: seq<Release>,
                    oembed: string -> ArtworkRetriever.OEmbedOutcome): (m: map<int, string>)
    ensures live.Keys <= m.Keys
    ensures (forall r :: r in rs ==> !Eligible(snapshot, r)) ==> m == live
  {
    if rs == [] then live
    else
      var front := rs[..|rs| - 1];
      assert forall r :: r in front ==> r in rs;
      Step(snapshot, PassOver(snapshot, live, front, oembed), rs[|rs| - 1], oembed)
  }

  /** The URLs `getAlbumArtURL` is called with during the pass, in call
      order: one per release that is eligible on the snapshot. */
  function FetchedUrls(snapshot: map<int, string>, rs: seq<Release>): (u: seq<string>)
    ensures forall i :: 0 <= i < |u| ==> u[i] != ""
  {
    if rs == [] then []
    else
      var last := rs[|rs| - 1];
      FetchedUrls(snapshot, rs[..|rs| - 1]) + (if Eligible(snapshot, last) then [last.soundcloud_url] else [])
  }

  /** The positions of the releases that are eligible on the snapshot. */
  function EligibleIndices(snapshot: map<int, string>, rs: seq<Release>): set<int> {
    set i | 0 <= i < |rs| && Eligible(snapshot, rs[i])
  }

  /** Extending the releases by one adds its position exactly when it is
      eligible. */
  lemma EligibleIndicesSnoc(snapshot: map<int, string>, front: seq<Release>, last: Release)
    ensures EligibleIndices(snapshot, front + [last])
            == EligibleIndices(snapshot, front) + (if Eligible(snapshot, last) then {|front|} else {})
    ensures |front| !in EligibleIndices(snapshot, front)
  {
    var rs := front + [last];
    forall i | 0 <= i < |front| ensures rs[i] == front[i] {
    }
  }

  /** One call per eligible release: the number of fetches is the number
      of releases eligible on the snapshot. */
  lemma {:induction false} FetchedUrlsCount(snapshot: map<int, string>, rs: seq<Release>)
    ensures |FetchedUrls(snapshot, rs)| == |EligibleIndices(snapshot, rs)|
  {
    if rs != [] {
      var front, last := rs[..|rs| - 1], rs[|rs| - 1];
      FetchedUrlsCount(snapshot, front);
      assert rs == front + [last];
      EligibleIndicesSnoc(snapshot, front, last);
    }
  }

  /** A URL is fetched exactly when some release with that URL is eligible:
      it has no truthy artwork entry and its URL is not empty. A release
      whose artwork is already known causes no call. */
  lemma {:induction false} FetchedUrlsExactly(snapshot: map<int, string>, rs: seq<Release>)
    ensures |FetchedUrls(snapshot, rs)| <= |rs|
    ensures forall u :: u in FetchedUrls(snapshot, rs) <==>
              exists r :: r in rs && Eligible(snapshot, r) && r.soundcloud_url == u
  {
    if rs != [] {
      var front, last := rs[..|rs| - 1], rs[|rs| - 1];
      FetchedUrlsExactly(snapshot, front);
      assert rs == front + [last];
      forall u
        ensures u in FetchedUrls(snapshot, rs) <==>
                exists r :: r in rs && Eligible(snapshot, r) && r.soundcloud_url == u
      {
        if exists r :: r in rs && Eligible(snapshot, r) && r.soundcloud_url == u {
          var r :| r in rs && Eligible(snapshot, r) && r.soundcloud_url == u;
          if r != last {
            assert r in front;
          }
        }
      }
    }
  }

  /** When every release already has artwork or lacks a URL, the effect
      makes no call at all. */
  lemma FetchedUrlsNoneEligible(snapshot: map<int, string>, rs: seq<Release>)
    requires forall r :: r in rs ==> HasArtwork(snapshot, r.id) || r.soundcloud_url == ""
    ensures FetchedUrls(snapshot, rs) == []
  {
    FetchedUrlsExactly(snapshot, rs);
  }

  /** Every stored artwork URL is non-empty. */
  predicate AllNonEmpty(urls: map<int, string>) {
    forall id :: id in urls ==> urls[id] != ""
  }

  /** Entries are never removed, and an entry changes only for an id of an
      eligible release whose fetch succeeded, to that fetch's URL. Stored
      URLs stay non-empty. */
  lemma {:induction false} PassOverChanges(snapshot: map<int, string>, live: map<int, string>, rs: seq<Release>,
                                           oembed: string -> ArtworkRetriever.OEmbedOutcome)
    ensures var m := PassOver(snapshot, live, rs, oembed);
      live.Keys <= m.Keys
      && (AllNonEmpty(live) ==> AllNonEmpty(m))
      && forall id :: id in m && (id !in live || m[id] != live[id]) ==>
           exists r :: r in rs && r.id == id && Eligible(snapshot, r) && Fetch(oembed, r) == Success(m[id])
  {
    if rs != [] {
      var front, r := rs[..|rs| - 1], rs[|rs| - 1];
      PassOverChanges(snapshot, live, front, oembed);
      var before := PassOver(snapshot, live, front, oembed);
      var m := PassOver(snapshot, live, rs, oembed);
      assert r in rs;
      assert forall x :: x in front ==> x in rs;
      if Eligible(snapshot, r) && Fetch(oembed, r).Success? {
        ArtworkRetriever.UpgradeThumbLength(oembed(r.soundcloud_url).thumbnail.url);
      }
    }
  }

  /** An eligible release whose fetch succeeds has artwork after the pass. */
  lemma {:induction false} PassOverStoresSuccesses(snapshot: map<int, string>, live: map<int, string>,
                                                   rs: seq<Release>, oembed: string -> ArtworkRetriever.OEmbedOutcome)
    ensures forall r :: r in rs && Eligible(snapshot, r) && Fetch(oembed, r).Success? ==>
              HasArtwork(PassOver(snapshot, live, rs, oembed), r.id)
  {
    if rs != [] {
      var front, last := rs[..|rs| - 1], rs[|rs| - 1];
      PassOverStoresSuccesses(snapshot, live, front, oembed);
      var before := PassOver(snapshot, live, front, oembed);
      forall r | r in rs && Eligible(snapshot, r) && Fetch(oembed, r).Success?
        ensures HasArtwork(PassOver(snapshot, live, rs, oembed), r.id)
      {
        if Eligible(snapshot, last) && Fetch(oembed, last).Success? {
          ArtworkRetriever.UpgradeThumbLength(oembed(last.soundcloud_url).thumbnail.url);
        }
        if r != last {
          assert r in front by {
            assert rs == front + [last];
          }
        }
      }
    }
  }

  /** Failures are not cached: when every release with a given id is
      either ineligible or fails, that id gains no artwork, so an eligible
      release with it is eligible again on the next run of the effect. */
  lemma {:induction false} PassOverKeepsFailuresEligible(snapshot: map<int, string>, rs: seq<Release>,
                                                         oembed: string -> ArtworkRetriever.OEmbedOutcome, id: int)
    requires forall r :: r in rs && r.id == id && Eligible(snapshot, r) ==> Fetch(oembed, r).Failure?
    ensures var m := PassOver(snapshot, snapshot, rs, oembed);
      (id in m <==> id in snapshot) && (id in m ==> m[id] == snapshot[id])
      && forall r :: r in rs && r.id == id && Eligible(snapshot, r) ==> Eligible(m, r)
  {
    PassOverChanges(snapshot, snapshot, rs, oembed);
  }

  /** A release without a SoundCloud URL is never fetched: an id whose
      releases all lack one gets no artwork it did not have. */
  lemma PassOverSkipsEmptyUrls(snapshot: map<int, string>, rs: seq<Release>,
                               oembed: string -> ArtworkRetriever.OEmbedOutcome, id: int)
    requires forall r :: r in rs && r.id == id ==> r.soundcloud_url == ""
    ensures var m := PassOver(snapshot, snapshot, rs, oembed);
      HasArtwork(m, id) <==> HasArtwork(snapshot, id)
  {
    PassOverChanges(snapshot, snapshot, rs, oembed);
  }

  /** The state of the `Releases` component that the effect writes. */
  class ReleasesPage {
    var artworkUrls: map<int, string>

    /** The stored URLs are those `getAlbumArtURL` resolved to: never empty. */
    predicate Valid()
      reads this
    {
      AllNonEmpty(artworkUrls)
    }

    constructor()
      ensures artworkUrls == map[] && Valid()
    {
      artworkUrls := map[];
    }

    /** One run of the effect. `releases` is `None` while the query has no
        data; the callbacks run in array order. `fetched` lists the URLs
        `getAlbumArtURL` is called with, in call order. */
    method RunEffect(releases: Option<seq<Release>>, oembed: string -> ArtworkRetriever.OEmbedOutcome)
      returns (fetched: seq<string>)
      requires Valid()
      modifies this
      ensures Valid()
      ensures releases.None? ==> artworkUrls == old(artworkUrls) && fetched == []
      ensures releases.Some? ==>
                artworkUrls == PassOver(old(artworkUrls), old(artworkUrls), releases.value, oembed)
                && fetched == FetchedUrls(old(artworkUrls), releases.value)
    {
      fetched := [];
      if releases.Some? {
        var rs := releases.value;
        var snapshot := artworkUrls;
        var i := 0;
        while i < |rs|
          invariant 0 <= i <= |rs|
          invariant artworkUrls == PassOver(snapshot, snapshot, rs[..i], oembed)
          invariant fetched == FetchedUrls(snapshot, rs[..i])
        {
          var r := rs[i];
          if !(r.id in snapshot && snapshot[r.id] != "") && r.soundcloud_url != "" {
            fetched := fetched + [r.soundcloud_url];
            var art := ArtworkRetriever.GetAlbumArtUrl(oembed(r.soundcloud_url));
            if art.Success? {
              artworkUrls := artworkUrls[r.id := art.value];
            }
          }
          assert rs[..i + 1][..i] == rs[..i];
          i := i + 1;
        }
        assert rs[..|rs|] == rs;
        PassOverChanges(snapshot, snapshot, rs, oembed);
      }
    }

    /** The card's style: a background image exactly when `artworkUrls[id]`
        is truthy, and then that URL. */
    function CardBackground(id: int): (r: Option<string>)
      reads this
      ensures r.Some? <==> HasArtwork(artworkUrls, id)
      ensures r.Some? ==> r.value == artworkUrls[id] && r.value != ""
    {
      if id in artworkUrls && artworkUrls[id] != "" then Some(artworkUrls[id]) else None
    }
  }
}
