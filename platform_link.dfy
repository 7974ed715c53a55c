/** The label and the action text of a release link, as rendered by
    `src/components/releases/PlatformLink.tsx`. The platform arrives as a
    plain string. */
module PlatformLink {
  import CreateRelease

  /** The five platform strings the switch of `getPlatformName` knows. */
  predicate IsKnown(platform: string) {
    platform == "spotify" || platform == "apple_music" || platform == "youtube"
    || platform == "soundcloud" || platform == "free_download"
  }

  /** `getPlatformName`: a display label for each known platform; any other
      string is shown as it is. */
  function PlatformName(platform: string): (name: string)
    ensures !IsKnown(platform) ==> name == platform
    ensures IsKnown(platform) ==> name != platform && name != ""
  {
    match platform
    case "spotify" => "Spotify"
    case "apple_music" => "Apple Music"
    case "youtube" => "YouTube"
    case "soundcloud" => "SoundCloud"
    case "free_download" => "Free Download"
    case _ => platform
  }

  /** `getActionText`. */
  function ActionText(platform: string): (text: string)
    ensures text == "Download" <==> platform == "free_download"
    ensures text != "Download" ==> text == "Play"
  {
    if platform == "free_download" then "Download" else "Play"
  }

  /** The label of each known platform. */
  lemma PlatformNameTable()
    ensures PlatformName("spotify") == "Spotify"
    ensures PlatformName("apple_music") == "Apple Music"
    ensures PlatformName("youtube") == "YouTube"
    ensures PlatformName("soundcloud") == "SoundCloud"
    ensures PlatformName("free_download") == "Free Download"
  {
  }

  /** A string is shown unchanged exactly when the switch does not know it. */
  lemma PlatformNameIdentity(platform: string)
    ensures PlatformName(platform) == platform <==> !IsKnown(platform)
  {
  }

  /** The five known platforms get five different labels. */
  lemma PlatformNameDistinct(p: string, q: string)
    requires IsKnown(p) && IsKnown(q) && p != q
    ensures PlatformName(p) != PlatformName(q)
  {
    var a, b := PlatformName(p), PlatformName(q);
    assert a[0] != b[0] || a[1] != b[1] || |a| != |b|;
  }

  /** The labels are not distinct over all strings: every label is itself
      an unknown platform string, and it is shown like the platform it
      labels (`"Spotify"` is shown as `"spotify"` is). */
  lemma PlatformNameCollides(p: string)
    requires IsKnown(p)
    ensures !IsKnown(PlatformName(p))
    ensures PlatformName(PlatformName(p)) == PlatformName(p)
  {
  }

  /** Every platform the release form can store is known to the switch and
      gets its own label; only the free download is offered as a download. */
  lemma FormPlatformsLabelled(p: CreateRelease.Platform, q: CreateRelease.Platform)
    ensures IsKnown(CreateRelease.PlatformKey(p))
    ensures p != q ==> PlatformName(CreateRelease.PlatformKey(p)) != PlatformName(CreateRelease.PlatformKey(q))
    ensures ActionText(CreateRelease.PlatformKey(p)) == "Download" <==> p == CreateRelease.FreeDownload
  {
    if p != q {
      CreateRelease.PlatformKeyInjective(p, q);
      PlatformNameDistinct(CreateRelease.PlatformKey(p), CreateRelease.PlatformKey(q));
    }
  }
}
