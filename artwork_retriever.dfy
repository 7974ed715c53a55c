/** The SoundCloud artwork lookup of `src/services/artworkRetriever.ts`.
    The HTTP request and the JSON decoding are not modelled: what they
    produced is passed in as an `OEmbedOutcome`. What is modelled is the
    decision on that outcome and the textual upgrade of the thumbnail URL
    by two first-occurrence `replace` calls with string patterns. */
module ArtworkRetriever {
  import opened Wrappers

  // ---------------------------------------------------------------------
  // First-occurrence search and replace (String.prototype.replace with a
  // string pattern).
  // ---------------------------------------------------------------------

  /** `pat` occurs in `s` starting at index `i`. */
  predicate OccursAt(s: string, pat: string, i: int) {
    0 <= i && i + |pat| <= |s| && s[i..i + |pat|] == pat
  }

  predicate Contains(s: string, pat: string) {
    exists i | 0 <= i <= |s| - |pat| :: OccursAt(s, pat, i)
  }

  /** `i` is the leftmost index at which `pat` occurs in `s`. */
  predicate IsFirstOccurrence(s: string, pat: string, i: int) {
    OccursAt(s, pat, i) && forall j :: 0 <= j < i ==> !OccursAt(s, pat, j)
  }

  lemma OccursAtTail(s: string, pat: string, k: nat)
    requires |s| > 0
    ensures OccursAt(s[1..], pat, k) <==> OccursAt(s, pat, k + 1)
  {
    if k + |pat| <= |s| - 1 {
      assert s[1..][k..k + |pat|] == s[k + 1..k + 1 + |pat|];
    }
  }

  lemma AbsentFromTail(s: string, pat: string)
    requires |s| > 0 && !Contains(s, pat)
    ensures !Contains(s[1..], pat)
  {
    forall k | 0 <= k <= |s| - 1 - |pat| ensures !OccursAt(s[1..], pat, k) {
      OccursAtTail(s, pat, k);
    }
  }

  lemma FirstOccurrenceInTail(s: string, pat: string, i: int)
    requires IsFirstOccurrence(s, pat, i) && !OccursAt(s, pat, 0)
    ensures i > 0 && IsFirstOccurrence(s[1..], pat, i - 1)
  {
    OccursAtTail(s, pat, i - 1);
    forall j | 0 <= j < i - 1 ensures !OccursAt(s[1..], pat, j) {
      OccursAtTail(s, pat, j);
    }
  }

  /** The leftmost occurrence of `pat` in `s`, if any. */
  function FindFirst(s: string, pat: string): (r: Option<nat>)
    ensures r.None? <==> !Contains(s, pat)
    ensures r.Some? ==> IsFirstOccurrence(s, pat, r.value)
    decreases |s|
  {
    if |s| < |pat| then
      None
    else if s[..|pat|] == pat then
      assert OccursAt(s, pat, 0);
      Some(0)
    else
      var rest := FindFirst(s[1..], pat);
      assert !OccursAt(s, pat, 0);
      match rest
      case None =>
        forall i | 1 <= i <= |s| - |pat| ensures !OccursAt(s, pat, i) {
          OccursAtTail(s, pat, i - 1);
        }
        None
      case Some(k) =>
        OccursAtTail(s, pat, k);
        forall j | 1 <= j < k + 1 ensures !OccursAt(s, pat, j) {
          OccursAtTail(s, pat, j - 1);
        }
        Some(k + 1)
  }

  /** `s.replace(pat, rep)` with a string pattern and a replacement free of
      `$` patterns: the leftmost occurrence of `pat` is replaced by `rep`
      as written; later occurrences are left alone. An empty pattern
      matches at index 0. */
  function ReplaceFirst(s: string, pat: string, rep: string): (r: string)
    ensures !Contains(s, pat) ==> r == s
    ensures forall i {:trigger IsFirstOccurrence(s, pat, i)} ::
              IsFirstOccurrence(s, pat, i) ==> r == s[..i] + rep + s[i + |pat|..]
    decreases |s|
  {
    if |s| < |pat| then
      s
    else if s[..|pat|] == pat then
      assert OccursAt(s, pat, 0);
      rep + s[|pat|..]
    else
      var tail := ReplaceFirst(s[1..], pat, rep);
      assert !OccursAt(s, pat, 0);
      assert !Contains(s, pat) ==> !Contains(s[1..], pat) by {
        if !Contains(s, pat) {
          AbsentFromTail(s, pat);
        }
      }
      forall i | IsFirstOccurrence(s, pat, i) ensures [s[0]] + tail == s[..i] + rep + s[i + |pat|..] {
        FirstOccurrenceInTail(s, pat, i);
        assert s[1..][..i - 1] == s[1..i];
        assert s[1..][i - 1 + |pat|..] == s[i + |pat|..];
        assert [s[0]] + s[1..i] == s[..i];
      }
      [s[0]] + tail
  }

  /** The length change of a first-occurrence replacement. */
  lemma ReplaceFirstLength(s: string, pat: string, rep: string)
    ensures |ReplaceFirst(s, pat, rep)| ==
            if Contains(s, pat) then |s| - |pat| + |rep| else |s|
  {
    var f := FindFirst(s, pat);
    if f.Some? {
      assert IsFirstOccurrence(s, pat, f.value);
    }
  }

  // ---------------------------------------------------------------------
  // The thumbnail upgrade of line 17.
  // ---------------------------------------------------------------------

  const LowResMarker: string := "-t500x500"
  const HighResMarker: string := "-t1080x1080"
  const JpgExtension: string := ".jpg"
  const PngExtension: string := ".png"
  const ArtworkError: string := "Failed to fetch SoundCloud artwork"

  /** `baseThumb.replace('-t500x500', '-t1080x1080').replace('.jpg', '.png')`. */
  function UpgradeThumb(thumb: string): (r: string)
    ensures |r| >= |thumb|
    ensures !Contains(thumb, LowResMarker) && !Contains(thumb, JpgExtension) ==> r == thumb
  {
    var marked := ReplaceFirst(thumb, LowResMarker, HighResMarker);
    ReplaceFirstLength(thumb, LowResMarker, HighResMarker);
    ReplaceFirstLength(marked, JpgExtension, PngExtension);
    ReplaceFirst(marked, JpgExtension, PngExtension)
  }

  /** The upgraded URL is two characters longer exactly when the low
      resolution marker occurs, and as long as the input otherwise. */
  lemma UpgradeThumbLength(thumb: string)
    ensures |UpgradeThumb(thumb)| == if Contains(thumb, LowResMarker) then |thumb| + 2 else |thumb|
  {
    ReplaceFirstLength(thumb, LowResMarker, HighResMarker);
    ReplaceFirstLength(ReplaceFirst(thumb, LowResMarker, HighResMarker), JpgExtension, PngExtension);
  }

  /** Swapping a middle piece for one that shares no character with
      `pat` creates no occurrence of `pat`. */
  lemma SpliceKeepsAbsent(x: string, was: string, now: string, y: string, pat: string)
    requires |pat| > 0 && |now| > 0
    requires forall c :: c in now ==> c !in pat
    requires !Contains(x + was + y, pat)
    ensures !Contains(x + now + y, pat)
  {
    var s, r := x + was + y, x + now + y;
    forall k | 0 <= k <= |r| - |pat| ensures !OccursAt(r, pat, k) {
      if k + |pat| <= |x| {
        assert r[k..k + |pat|] == x[k..k + |pat|] == s[k..k + |pat|];
        assert !OccursAt(s, pat, k);
      } else if k >= |x| + |now| {
        var d := k - |x| - |now|;
        assert r[k..k + |pat|] == y[d..d + |pat|];
        assert s[|x| + |was| + d..|x| + |was| + d + |pat|] == y[d..d + |pat|];
        assert !OccursAt(s, pat, |x| + |was| + d);
      } else {
        // The window meets `now` at index m.
        var m := if k < |x| then |x| else k;
        assert r[m] == now[m - |x|] && now[m - |x|] in now;
        assert r[k..k + |pat|][m - k] == r[m];
        assert r[m] !in pat;
      }
    }
  }

  /** Writing the high resolution marker never creates a `.jpg` that was
      not there: the marker holds none of the characters of `.jpg`. */
  lemma MarkerUpgradeKeepsJpgAbsent(thumb: string)
    requires !Contains(thumb, JpgExtension)
    ensures !Contains(ReplaceFirst(thumb, LowResMarker, HighResMarker), JpgExtension)
  {
    var f := FindFirst(thumb, LowResMarker);
    if f.Some? {
      var i := f.value;
      ReplaceFirstAt(thumb, LowResMarker, HighResMarker, i);
      var x, y := thumb[..i], thumb[i + |LowResMarker|..];
      assert thumb == x + LowResMarker + y;
      SpliceKeepsAbsent(x, LowResMarker, HighResMarker, y, JpgExtension);
    }
  }

  /** Swapping out a middle piece that shares no character with `pat`
      destroys no occurrence of `pat`: none can overlap that piece. */
  lemma SpliceKeepsPresent(x: string, was: string, now: string, y: string, pat: string)
    requires |pat| > 0 && |was| > 0
    requires forall c :: c in was ==> c !in pat
    requires Contains(x + was + y, pat)
    ensures Contains(x + now + y, pat)
  {
    if !Contains(x + now + y, pat) {
      SpliceKeepsAbsent(x, now, was, y, pat);
    }
  }

  /** A replacement that found its pattern leaves `rep` in the result. */
  lemma ReplaceFirstInserts(s: string, pat: string, rep: string)
    requires Contains(s, pat)
    ensures Contains(ReplaceFirst(s, pat, rep), rep)
  {
    var i := FindFirst(s, pat).value;
    ReplaceFirstAt(s, pat, rep, i);
    var r := s[..i] + rep + s[i + |pat|..];
    assert r[i..i + |rep|] == rep;
    assert OccursAt(r, rep, i);
  }

  /** A first-occurrence replacement whose pattern shares no character
      with `q` keeps every occurrence of `q` alive. */
  lemma ReplaceFirstKeepsPresent(s: string, pat: string, rep: string, q: string)
    requires |q| > 0 && |pat| > 0
    requires forall c :: c in pat ==> c !in q
    requires Contains(s, q)
    ensures Contains(ReplaceFirst(s, pat, rep), q)
  {
    var f := FindFirst(s, pat);
    if f.Some? {
      var i := f.value;
      ReplaceFirstAt(s, pat, rep, i);
      var x, y := s[..i], s[i + |pat|..];
      assert s == x + pat + y;
      SpliceKeepsPresent(x, pat, rep, y, q);
    }
  }

  /** Writing the high resolution marker never removes a `.jpg`: the low
      resolution marker it overwrites holds none of the characters of `.jpg`. */
  lemma MarkerUpgradeKeepsJpg(thumb: string)
    requires Contains(thumb, JpgExtension)
    ensures Contains(ReplaceFirst(thumb, LowResMarker, HighResMarker), JpgExtension)
  {
    forall c | c in LowResMarker ensures c !in JpgExtension {
      assert c in {'-', 't', '5', '0', 'x'};
    }
    ReplaceFirstKeepsPresent(thumb, LowResMarker, HighResMarker, JpgExtension);
  }

  /** Turning `.jpg` into `.png` never removes the high resolution marker:
      `.jpg` holds none of the marker's characters. */
  lemma JpgUpgradeKeepsMarker(s: string)
    requires Contains(s, HighResMarker)
    ensures Contains(ReplaceFirst(s, JpgExtension, PngExtension), HighResMarker)
  {
    forall c | c in JpgExtension ensures c !in HighResMarker {
      assert c in {'.', 'j', 'p', 'g'};
    }
    ReplaceFirstKeepsPresent(s, JpgExtension, PngExtension, HighResMarker);
  }

  /** The two substitutions are independent: each happens exactly when
      its own marker is present, whether or not the other one is. */
  lemma UpgradeThumbIndependent(thumb: string)
    ensures var marked := ReplaceFirst(thumb, LowResMarker, HighResMarker);
              Contains(marked, JpgExtension) <==> Contains(thumb, JpgExtension)
    ensures Contains(thumb, LowResMarker) ==> Contains(UpgradeThumb(thumb), HighResMarker)
    ensures Contains(thumb, JpgExtension) ==> Contains(UpgradeThumb(thumb), PngExtension)
    ensures !Contains(thumb, LowResMarker) ==>
              UpgradeThumb(thumb) == ReplaceFirst(thumb, JpgExtension, PngExtension)
    ensures !Contains(thumb, JpgExtension) ==>
              UpgradeThumb(thumb) == ReplaceFirst(thumb, LowResMarker, HighResMarker)
    ensures !Contains(thumb, LowResMarker) && !Contains(thumb, JpgExtension) ==>
              UpgradeThumb(thumb) == thumb
  {
    var marked := ReplaceFirst(thumb, LowResMarker, HighResMarker);
    if Contains(thumb, JpgExtension) {
      MarkerUpgradeKeepsJpg(thumb);
      ReplaceFirstInserts(marked, JpgExtension, PngExtension);
    } else {
      MarkerUpgradeKeepsJpgAbsent(thumb);
    }
    if Contains(thumb, LowResMarker) {
      ReplaceFirstInserts(thumb, LowResMarker, HighResMarker);
      JpgUpgradeKeepsMarker(marked);
    }
  }

  lemma OccursAtShift(p: string, s: string, pat: string, j: nat)
    ensures OccursAt(p + s, pat, |p| + j) <==> OccursAt(s, pat, j)
  {
    if j + |pat| <= |s| {
      assert (p + s)[|p| + j..|p| + j + |pat|] == s[j..j + |pat|];
    }
  }

  /** The result of a replacement whose leftmost match is known. */
  lemma ReplaceFirstAt(s: string, pat: string, rep: string, i: int)
    requires IsFirstOccurrence(s, pat, i)
    ensures ReplaceFirst(s, pat, rep) == s[..i] + rep + s[i + |pat|..]
  {
  }

  /** No occurrence of `pat` in `s` starts before index `n`. */
  predicate NoneStartsBefore(s: string, pat: string, n: int) {
    forall j :: 0 <= j < n ==> !OccursAt(s, pat, j)
  }

  lemma FirstOccurrenceAfterPrefix(p: string, s: string, pat: string, i: nat)
    requires NoneStartsBefore(p + s, pat, |p|)
    requires IsFirstOccurrence(s, pat, i)
    ensures IsFirstOccurrence(p + s, pat, |p| + i)
  {
    OccursAtShift(p, s, pat, i);
    forall j | |p| <= j < |p| + i ensures !OccursAt(p + s, pat, j) {
      OccursAtShift(p, s, pat, j - |p|);
    }
  }

  lemma AbsentAfterPrefix(p: string, s: string, pat: string)
    requires NoneStartsBefore(p + s, pat, |p|)
    requires !Contains(s, pat)
    ensures !Contains(p + s, pat)
  {
    forall j | |p| <= j <= |p + s| - |pat| ensures !OccursAt(p + s, pat, j) {
      OccursAtShift(p, s, pat, j - |p|);
    }
  }

  /** A prefix in which no occurrence of `pat` starts is passed over
      unchanged by the replacement. */
  lemma {:induction false} ReplaceFirstAfterPrefix(p: string, s: string, pat: string, rep: string)
    requires NoneStartsBefore(p + s, pat, |p|)
    ensures ReplaceFirst(p + s, pat, rep) == p + ReplaceFirst(s, pat, rep)
    decreases |p|
  {
    if p == [] {
      assert p + s == s;
    } else {
      var t := p + s;
      assert !OccursAt(t, pat, 0);
      if |t| >= |pat| {
        assert t[1..] == p[1..] + s;
        forall j | 0 <= j < |p| - 1 ensures !OccursAt(p[1..] + s, pat, j) {
          OccursAtTail(t, pat, j);
        }
        ReplaceFirstAfterPrefix(p[1..], s, pat, rep);
        assert [p[0]] + (p[1..] + ReplaceFirst(s, pat, rep)) == p + ReplaceFirst(s, pat, rep);
      }
    }
  }

  /** No occurrence starts in a prefix that lacks the first character of `pat`. */
  lemma NoneStartsInCharFreePrefix(p: string, s: string, pat: string)
    requires |pat| > 0 && pat[0] !in p
    ensures NoneStartsBefore(p + s, pat, |p|)
  {
    forall j | 0 <= j < |p| ensures !OccursAt(p + s, pat, j) {
      if j + |pat| <= |p + s| {
        assert (p + s)[j..j + |pat|][0] == p[j];
      }
    }
  }

  /** No occurrence starts in an occurrence-free `x` when the character
      that follows `x` appears nowhere in `pat` after its first position. */
  lemma NoneStartsInCleanPrefix(x: string, y: string, pat: string)
    requires !Contains(x, pat)
    requires |y| > 0 && |pat| > 0 && y[0] !in pat[1..]
    ensures NoneStartsBefore(x + y, pat, |x|)
  {
    forall j | 0 <= j < |x| ensures !OccursAt(x + y, pat, j) {
      if j + |pat| <= |x| {
        assert (x + y)[j..j + |pat|] == x[j..j + |pat|];
        assert !OccursAt(x, pat, j);
      } else if j + |pat| <= |x + y| {
        var d := |x| - j;
        assert (x + y)[j..j + |pat|][d] == y[0];
        assert pat[d] == pat[1..][d - 1];
      }
    }
  }

  /** Leftmost-match replacement when `pat` starts the string. */
  lemma ReplaceFirstAtStart(pat: string, rest: string, rep: string)
    ensures ReplaceFirst(pat + rest, pat, rep) == rep + rest
  {
    assert IsFirstOccurrence(pat + rest, pat, 0);
    assert (pat + rest)[|pat|..] == rest;
  }

  /** A SoundCloud thumbnail `base + "-t500x500.jpg"`, whose base holds
      neither marker, becomes `base + "-t1080x1080.png"`. */
  lemma {:induction false} UpgradeThumbShape(base: string)
    requires !Contains(base, LowResMarker) && !Contains(base, JpgExtension)
    ensures UpgradeThumb(base + LowResMarker + JpgExtension) == base + HighResMarker + PngExtension
  {
    var mid := ReplaceFirst(base + LowResMarker + JpgExtension, LowResMarker, HighResMarker);
    assert mid == base + (HighResMarker + JpgExtension) by {
      assert base + LowResMarker + JpgExtension == base + (LowResMarker + JpgExtension);
      NoneStartsInCleanPrefix(base, LowResMarker + JpgExtension, LowResMarker);
      ReplaceFirstAfterPrefix(base, LowResMarker + JpgExtension, LowResMarker, HighResMarker);
      ReplaceFirstAtStart(LowResMarker, JpgExtension, HighResMarker);
    }
    var tail := ReplaceFirst(HighResMarker + JpgExtension, JpgExtension, PngExtension);
    assert tail == HighResMarker + PngExtension by {
      NoneStartsInCharFreePrefix(HighResMarker, JpgExtension, JpgExtension);
      ReplaceFirstAfterPrefix(HighResMarker, JpgExtension, JpgExtension, PngExtension);
      assert JpgExtension == JpgExtension + [];
      ReplaceFirstAtStart(JpgExtension, [], PngExtension);
    }
    assert ReplaceFirst(mid, JpgExtension, PngExtension) == base + tail by {
      NoneStartsInCleanPrefix(base, HighResMarker + JpgExtension, JpgExtension);
      ReplaceFirstAfterPrefix(base, HighResMarker + JpgExtension, JpgExtension, PngExtension);
    }
    assert base + (HighResMarker + PngExtension) == base + HighResMarker + PngExtension;
  }

  /** "https://i1.sndcdn.com/artworks-XYZ", cut where the two markers'
      first characters occur. */
  const SampleBase: string := "https://i1.sndcdn.com/artworks-XYZ"

  /** The sample base, cut into the pieces the marker search walks over. */
  lemma SampleBasePieces()
    ensures SampleBase == "https://i1" + ("." + ("sndcdn" + ("." + ("com/artworks" + "-XYZ"))))
  {
  }

  lemma SampleBaseHasNoMarker()
    ensures !Contains(SampleBase, LowResMarker) && !Contains(SampleBase, JpgExtension)
  {
    var a, b, c, d, e, f := "https://i1", ".", "sndcdn", ".", "com/artworks", "-XYZ";
    SampleBasePieces();
    // The resolution marker: only "-XYZ" holds a '-', and it is too short.
    assert !Contains(f, LowResMarker);
    NoneStartsInCharFreePrefix(e, f, LowResMarker);
    AbsentAfterPrefix(e, f, LowResMarker);
    NoneStartsInCharFreePrefix(d, e + f, LowResMarker);
    AbsentAfterPrefix(d, e + f, LowResMarker);
    NoneStartsInCharFreePrefix(c, d + (e + f), LowResMarker);
    AbsentAfterPrefix(c, d + (e + f), LowResMarker);
    NoneStartsInCharFreePrefix(b, c + (d + (e + f)), LowResMarker);
    AbsentAfterPrefix(b, c + (d + (e + f)), LowResMarker);
    NoneStartsInCharFreePrefix(a, b + (c + (d + (e + f))), LowResMarker);
    AbsentAfterPrefix(a, b + (c + (d + (e + f))), LowResMarker);
    // The extension: the two '.' start ".snd" and ".com", not ".jpg".
    assert !Contains(e + f, JpgExtension) by {
      NoneStartsInCharFreePrefix(e + f, [], JpgExtension);
      assert e + f + [] == e + f;
    }
    assert !OccursAt(d + (e + f), JpgExtension, 0) by {
      assert (d + (e + f))[0..4][1] == 'c' != JpgExtension[1];
    }
    AbsentAfterPrefix(d, e + f, JpgExtension);
    NoneStartsInCharFreePrefix(c, d + (e + f), JpgExtension);
    AbsentAfterPrefix(c, d + (e + f), JpgExtension);
    assert !OccursAt(b + (c + (d + (e + f))), JpgExtension, 0) by {
      assert (b + (c + (d + (e + f))))[0..4][1] == 's' != JpgExtension[1];
    }
    AbsentAfterPrefix(b, c + (d + (e + f)), JpgExtension);
    NoneStartsInCharFreePrefix(a, b + (c + (d + (e + f))), JpgExtension);
    AbsentAfterPrefix(a, b + (c + (d + (e + f))), JpgExtension);
  }

  /** "https://i1.sndcdn.com/artworks-XYZ-t500x500.jpg" becomes
      "https://i1.sndcdn.com/artworks-XYZ-t1080x1080.png". */
  lemma UpgradeThumbExample()
    ensures UpgradeThumb(SampleBase + "-t500x500" + ".jpg") == SampleBase + "-t1080x1080" + ".png"
  {
    SampleBaseHasNoMarker();
    UpgradeThumbShape(SampleBase);
  }

  /** The input of `UpgradeThumbFirstOnly`, cut at the markers. */
  lemma FirstOnlyInput()
    ensures "a.jpg/b-t500x500-t500x500.jpg" == "a" + (".jpg" + ("/b" + ("-t500x500" + ("-t500x500" + ".jpg"))))
  {
  }

  /** The output of `UpgradeThumbFirstOnly`, cut at the markers. */
  lemma FirstOnlyOutput()
    ensures "a.png/b-t1080x1080-t500x500.jpg" == "a" + (".png" + ("/b" + ("-t1080x1080" + ("-t500x500" + ".jpg"))))
  {
  }

  /** "a.jpg/b-t500x500-t500x500.jpg" becomes "a.png/b-t1080x1080-t500x500.jpg":
      only the first marker is upgraded, and the first `.jpg` is replaced
      wherever it stands, not only as the trailing extension. */
  lemma UpgradeThumbFirstOnly()
    ensures UpgradeThumb("a.jpg/b-t500x500-t500x500.jpg") == "a.png/b-t1080x1080-t500x500.jpg"
  {
    FirstOnlyInput();
    FirstOnlyOutput();
    UpgradeThumbFirstOnlyCut();
  }

  /** `UpgradeThumbFirstOnly` on the input cut at the markers. */
  lemma UpgradeThumbFirstOnlyCut()
    ensures UpgradeThumb("a" + (".jpg" + ("/b" + ("-t500x500" + ("-t500x500" + ".jpg")))))
         == "a" + (".png" + ("/b" + ("-t1080x1080" + ("-t500x500" + ".jpg"))))
  {
    var x, tail := "a" + (JpgExtension + "/b"), LowResMarker + JpgExtension;
    var rest := "/b" + (HighResMarker + tail);
    var mid := ReplaceFirst("a" + (JpgExtension + ("/b" + (LowResMarker + tail))), LowResMarker, HighResMarker);
    assert mid == "a" + (JpgExtension + rest) by {
      assert "a" + (JpgExtension + ("/b" + (LowResMarker + tail))) == x + (LowResMarker + tail);
      NoneStartsInCharFreePrefix(x, LowResMarker + tail, LowResMarker);
      ReplaceFirstAfterPrefix(x, LowResMarker + tail, LowResMarker, HighResMarker);
      ReplaceFirstAtStart(LowResMarker, tail, HighResMarker);
      assert x + (HighResMarker + tail) == "a" + (JpgExtension + rest);
    }
    assert ReplaceFirst(mid, JpgExtension, PngExtension) == "a" + (PngExtension + rest) by {
      NoneStartsInCharFreePrefix("a", JpgExtension + rest, JpgExtension);
      ReplaceFirstAfterPrefix("a", JpgExtension + rest, JpgExtension, PngExtension);
      ReplaceFirstAtStart(JpgExtension, rest, PngExtension);
    }
  }

  // ---------------------------------------------------------------------
  // getAlbumArtURL: the branches on the oEmbed outcome.
  // ---------------------------------------------------------------------

  /** What the JSON body held under `thumbnail_url`. */
  datatype ThumbnailField =
    | Missing                      // undefined or null
    | StringValue(url: string)
    | OtherValue(truthy: bool)     // a number, boolean, array or object

  /** What the `fetch` of the oEmbed endpoint and `response.json()` gave. */
  datatype OEmbedOutcome =
    | NetworkError                 // fetch rejected
    | NotOk(status: int)           // response.ok was false
    | MalformedJson                // response.json() rejected
    | Body(thumbnail: ThumbnailField)

  /** The cause inside the `try` block, before it is re-wrapped. */
  datatype Cause = FetchRejected | SoundCloudDataFailed | JsonFailed | ThumbnailNotFound | NotAString

  /** The body of the `try` block of `getAlbumArtURL`. */
  function Attempt(o: OEmbedOutcome): (r: Result<string, Cause>)
    ensures r.Success? <==> o.Body? && o.thumbnail.StringValue? && o.thumbnail.url != ""
    ensures r.Success? ==> r.value == UpgradeThumb(o.thumbnail.url)
    ensures r == Failure(FetchRejected) <==> o.NetworkError?
    ensures r == Failure(SoundCloudDataFailed) <==> o.NotOk?
    ensures r == Failure(JsonFailed) <==> o.MalformedJson?
    ensures r == Failure(NotAString) <==> o == Body(OtherValue(true))
    ensures r == Failure(ThumbnailNotFound) <==>
              o in {Body(Missing), Body(OtherValue(false)), Body(StringValue(""))}
  {
    match o
    case NetworkError => Failure(FetchRejected)
    case NotOk(_) => Failure(SoundCloudDataFailed)
    case MalformedJson => Failure(JsonFailed)
    case Body(Missing) => Failure(ThumbnailNotFound)
    case Body(OtherValue(truthy)) => if truthy then Failure(NotAString) else Failure(ThumbnailNotFound)
    case Body(StringValue(u)) => if u == "" then Failure(ThumbnailNotFound) else Success(UpgradeThumb(u))
  }

  /** `getAlbumArtURL`: every cause is re-thrown as one message. */
  function GetAlbumArtUrl(o: OEmbedOutcome): (r: Result<string, string>)
    ensures r.Failure? ==> r.error == ArtworkError
    ensures r.Success? <==> o.Body? && o.thumbnail.StringValue? && o.thumbnail.url != ""
    ensures r.Success? ==> r.value == UpgradeThumb(o.thumbnail.url) && |r.value| >= |o.thumbnail.url| > 0
  {
    match Attempt(o)
    case Success(u) =>
      UpgradeThumbLength(o.thumbnail.url);
      Success(u)
    case Failure(_) => Failure(ArtworkError)
  }
}
