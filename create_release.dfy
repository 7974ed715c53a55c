/** The release creation form of `src/pages/admin/CreateRelease.tsx`: the
    URL slug derived from a title (`generateUrlTitle`) and the `prev => next`
    updaters of the form state. Every updater is a function from the old
    form to the new one. */
module CreateRelease {
  import opened Wrappers

  // ---------------------------------------------------------------------
  // Characters.
  // ---------------------------------------------------------------------

  /** `toLowerCase` on the ASCII range; every other character is kept. */
  function ToLower(c: char): (d: char)
    ensures !('A' <= d <= 'Z')
    ensures 'A' <= c <= 'Z' ==> d as int == c as int + 32
    ensures !('A' <= c <= 'Z') ==> d == c
  {
    if 'A' <= c <= 'Z' then (c as int + 32) as char else c
  }

  /** A character matched by the JavaScript regular expression class `\s`:
      the white space characters and line terminators of ECMAScript. */
  predicate IsSpace(c: char) {
    c == ' ' || '\t' <= c <= '\r' || c == '\U{00A0}' || c == '\U{1680}'
    || '\U{2000}' <= c <= '\U{200A}' || c == '\U{2028}' || c == '\U{2029}'
    || c == '\U{202F}' || c == '\U{205F}' || c == '\U{3000}' || c == '\U{FEFF}'
  }

  /** The class `[a-z0-9]`. */
  predicate IsAlnum(c: char) {
    'a' <= c <= 'z' || '0' <= c <= '9'
  }

  /** The class `[a-z0-9\s-]` that survives the second pass. */
  predicate IsKept(c: char) {
    IsAlnum(c) || IsSpace(c) || c == '-'
  }

  /** The letters and digits of `s`, in order. */
  function Alnums(s: string): (r: string)
    ensures |r| <= |s|
    ensures forall c :: c in r ==> IsAlnum(c) && c in s
  {
    if s == [] then []
    else if IsAlnum(s[0]) then [s[0]] + Alnums(s[1..])
    else Alnums(s[1..])
  }

  lemma {:induction false} AlnumsAppend(a: string, b: string)
    ensures Alnums(a + b) == Alnums(a) + Alnums(b)
    decreases |a|
  {
    if a == [] {
      assert a + b == b;
    } else {
      assert (a + b)[1..] == a[1..] + b;
      AlnumsAppend(a[1..], b);
    }
  }

  // ---------------------------------------------------------------------
  // The four passes of generateUrlTitle.
  // ---------------------------------------------------------------------

  /** `title.toLowerCase()`, on ASCII letters. */
  function Lower(s: string): (r: string)
    ensures |r| == |s|
    ensures forall i :: 0 <= i < |s| ==> r[i] == ToLower(s[i])
  {
    if s == [] then [] else [ToLower(s[0])] + Lower(s[1..])
  }

  /** `.replace(/[^a-z0-9\s-]/g, '')`: every character outside the class
      is removed; the letters and digits stay in order. */
  function KeepAllowed(s: string): (r: string)
    ensures forall c :: c in r ==> IsKept(c) && c in s
    ensures Alnums(r) == Alnums(s)
    ensures (forall c :: c in s ==> IsKept(c)) ==> r == s
    ensures |s| == 1 ==> r == (if IsKept(s[0]) then s else [])
  {
    if s == [] then []
    else if IsKept(s[0]) then [s[0]] + KeepAllowed(s[1..])
    else KeepAllowed(s[1..])
  }

  /** The filter works character by character: filtering a concatenation
      concatenates the filtered parts, so every allowed character, white
      space and hyphens included, stays where it was. */
  lemma {:induction false} KeepAllowedAppend(a: string, b: string)
    ensures KeepAllowed(a + b) == KeepAllowed(a) + KeepAllowed(b)
    decreases |a|
  {
    if a == [] {
      assert a + b == b;
    } else {
      assert (a + b)[1..] == a[1..] + b;
      KeepAllowedAppend(a[1..], b);
    }
  }

  /** The two run-collapsing passes: `/\s+/g` and `/-+/g`, each run replaced
      by one `-`. `Separators`, white space and hyphens together, is not a
      pass of its own: it is the class of the two passes combined, against
      which they are proved. */
  datatype RunClass = Spaces | Hyphens | Separators

  predicate InRun(c: char, k: RunClass) {
    match k
    case Spaces => IsSpace(c)
    case Hyphens => c == '-'
    case Separators => IsSpace(c) || c == '-'
  }

  /** `s` without its leading run of `k` characters. */
  function SkipRun(s: string, k: RunClass): (r: string)
    ensures |r| <= |s|
    ensures r != [] ==> !InRun(r[0], k)
    ensures s != [] && InRun(s[0], k) ==> |r| < |s|
  {
    if s != [] && InRun(s[0], k) then SkipRun(s[1..], k) else s
  }

  /** What is left after the run is a suffix of `s`. */
  lemma {:induction false} SkipRunSuffix(s: string, k: RunClass)
    ensures SkipRun(s, k) == s[|s| - |SkipRun(s, k)|..]
    decreases |s|
  {
    if s != [] && InRun(s[0], k) {
      var r := SkipRun(s[1..], k);
      SkipRunSuffix(s[1..], k);
      assert s[1..][|s| - 1 - |r|..] == s[|s| - |r|..];
    }
  }

  /** A skipped run holds no letter or digit. */
  lemma {:induction false} SkipRunKeepsAlnums(s: string, k: RunClass)
    ensures Alnums(SkipRun(s, k)) == Alnums(s)
    decreases |s|
  {
    if s != [] && InRun(s[0], k) {
      assert !IsAlnum(s[0]);
      SkipRunKeepsAlnums(s[1..], k);
    }
  }

  /** `s.replace(/\s+/g, '-')` for `Spaces` and `s.replace(/-+/g, '-')` for
      `Hyphens`: every maximal run of the class becomes a single `-`. */
  function Collapse(s: string, k: RunClass): (r: string)
    ensures s != [] ==> r != [] && r[0] == (if InRun(s[0], k) then '-' else s[0])
    decreases |s|
  {
    if s == [] then []
    else if InRun(s[0], k) then
      var rest := Collapse(SkipRun(s, k), k);
      assert ("-" + rest)[1..] == rest;
      "-" + rest
    else
      var rest := Collapse(s[1..], k);
      assert ([s[0]] + rest)[1..] == rest;
      [s[0]] + rest
  }

  /** A collapse writes only `-` and the characters of `s` outside the class. */
  lemma {:induction false} CollapseChars(s: string, k: RunClass)
    ensures forall c :: c in Collapse(s, k) ==> c == '-' || (c in s && !InRun(c, k))
    decreases |s|
  {
    if s != [] {
      if InRun(s[0], k) {
        var t := SkipRun(s, k);
        CollapseChars(t, k);
        assert Collapse(s, k) == "-" + Collapse(t, k);
        SkipRunSuffix(s, k);
        assert forall c :: c in t ==> c in s;
      } else {
        CollapseChars(s[1..], k);
        assert Collapse(s, k) == [s[0]] + Collapse(s[1..], k);
        assert forall c :: c in s[1..] ==> c in s;
      }
    }
  }

  /** Collapsing a run keeps every letter and digit, in order. */
  lemma {:induction false} CollapseKeepsAlnums(s: string, k: RunClass)
    ensures Alnums(Collapse(s, k)) == Alnums(s)
    decreases |s|
  {
    if s != [] {
      if InRun(s[0], k) {
        SkipRunKeepsAlnums(s, k);
        CollapseKeepsAlnums(SkipRun(s, k), k);
        assert Collapse(s, k) == "-" + Collapse(SkipRun(s, k), k);
        AlnumsAppend("-", Collapse(SkipRun(s, k), k));
      } else {
        CollapseKeepsAlnums(s[1..], k);
        assert Collapse(s, k) == [s[0]] + Collapse(s[1..], k);
        AlnumsAppend([s[0]], Collapse(s[1..], k));
        assert s == [s[0]] + s[1..];
        AlnumsAppend([s[0]], s[1..]);
      }
    }
  }

  /** After the hyphen pass no two hyphens are adjacent. */
  lemma {:induction false} CollapseNoDoubleHyphen(s: string)
    ensures NoDoubleHyphen(Collapse(s, Hyphens))
    decreases |s|
  {
    if s != [] {
      if s[0] == '-' {
        var t := SkipRun(s, Hyphens);
        CollapseNoDoubleHyphen(t);
        assert Collapse(s, Hyphens) == "-" + Collapse(t, Hyphens);
      } else {
        CollapseNoDoubleHyphen(s[1..]);
        assert Collapse(s, Hyphens) == [s[0]] + Collapse(s[1..], Hyphens);
      }
    }
  }

  lemma UnconsAppend(w: string, u: string)
    requires w != []
    ensures w + u == [w[0]] + (w[1..] + u)
  {
    assert w == [w[0]] + w[1..];
  }

  /** A character outside the class passes through a collapse. */
  lemma CollapseCons(c: char, s: string, k: RunClass)
    requires !InRun(c, k)
    ensures Collapse([c] + s, k) == [c] + Collapse(s, k)
  {
    assert ([c] + s)[1..] == s;
  }

  /** A whole run, followed by text that does not continue it, is skipped. */
  lemma {:induction false} SkipRunWhole(run: string, t: string, k: RunClass)
    requires forall i :: 0 <= i < |run| ==> InRun(run[i], k)
    requires t == [] || !InRun(t[0], k)
    ensures SkipRun(run + t, k) == t
    decreases |run|
  {
    if run == [] {
      assert run + t == t;
    } else {
      var y := run[1..] + t;
      assert SkipRun(run + t, k) == SkipRun(y, k) by {
        UnconsAppend(run, t);
        assert InRun(run[0], k);
        assert ([run[0]] + y)[1..] == y;
      }
      assert SkipRun(run[1..] + t, k) == t by {
        SkipRunWhole(run[1..], t, k);
      }
    }
  }

  /** Each maximal run becomes exactly one `-`: text free of the class
      before a run is kept, the run turns into `-`, and the collapse goes on
      after it. */
  lemma {:induction false} CollapseRun(w: string, run: string, t: string, k: RunClass)
    requires forall i :: 0 <= i < |w| ==> !InRun(w[i], k)
    requires run != [] && forall i :: 0 <= i < |run| ==> InRun(run[i], k)
    requires t == [] || !InRun(t[0], k)
    ensures Collapse(w + (run + t), k) == w + ("-" + Collapse(t, k))
    decreases |w|
  {
    var tail := "-" + Collapse(t, k);
    if w == [] {
      var x := run + t;
      assert Collapse(x, k) == tail by {
        assert x[0] == run[0];
        SkipRunWhole(run, t, k);
      }
      assert w + x == x && w + tail == tail;
    } else {
      var u := run + t;
      var rest := w[1..] + u;
      assert Collapse(rest, k) == w[1..] + tail by {
        CollapseRun(w[1..], run, t, k);
      }
      assert Collapse(w + u, k) == [w[0]] + Collapse(rest, k) by {
        UnconsAppend(w, u);
        assert !InRun(w[0], k);
        CollapseCons(w[0], rest, k);
      }
      UnconsAppend(w, tail);
    }
  }

  /** The `^-` alternative: a leading `-` is removed. */
  function TrimFront(s: string): (r: string)
    ensures |s| - 1 <= |r| <= |s| && r == s[|s| - |r|..]
    ensures |r| < |s| <==> s != [] && s[0] == '-'
    ensures Alnums(r) == Alnums(s)
    ensures NoDoubleHyphen(s) ==> NoDoubleHyphen(r) && (r != [] ==> r[0] != '-')
  {
    if s != [] && s[0] == '-' then s[1..] else s
  }

  /** The `-$` alternative: a trailing `-` is removed. */
  function TrimBack(s: string): (r: string)
    ensures |s| - 1 <= |r| <= |s| && r == s[..|r|]
    ensures |r| < |s| <==> s != [] && s[|s| - 1] == '-'
    ensures Alnums(r) == Alnums(s)
    ensures NoDoubleHyphen(s) ==> NoDoubleHyphen(r) && (r != [] ==> r[|r| - 1] != '-')
  {
    if s != [] && s[|s| - 1] == '-' then
      var r := s[..|s| - 1];
      assert s == r + "-";
      AlnumsAppend(r, "-");
      r
    else s
  }

  /** `.replace(/^-|-$/g, '')`: one leading and one trailing `-` go. */
  function TrimHyphens(s: string): (r: string)
    ensures var a := if s != [] && s[0] == '-' then 1 else 0;
      a + |r| <= |s| <= a + |r| + 1 && r == s[a..a + |r|]
      && (|s| == a + |r| + 1 ==> s[|s| - 1] == '-')
      && (s != [] && s[|s| - 1] == '-' && |s| > a ==> |s| == a + |r| + 1)
    ensures Alnums(r) == Alnums(s)
    ensures NoDoubleHyphen(s) ==> NoDoubleHyphen(r) && NoEdgeHyphen(r)
    ensures NoEdgeHyphen(s) ==> r == s
  {
    TrimBack(TrimFront(s))
  }

  /** Trimming adds no character. */
  lemma TrimHyphensChars(s: string)
    ensures forall c :: c in TrimHyphens(s) ==> c in s
  {
    var r := TrimHyphens(s);
    forall c | c in r
      ensures c in s
    {
      var i :| 0 <= i < |r| && r[i] == c;
      var a := if s != [] && s[0] == '-' then 1 else 0;
      assert s[a + i] == c;
    }
  }

  /** `generateUrlTitle`: a slug that keeps the letters and digits of the
      lower-cased title, in order, and nothing else but hyphens. */
  function GenerateUrlTitle(title: string): (r: string)
    ensures IsSlug(r)
    ensures Alnums(r) == Alnums(Lower(title))
  {
    var spaced := Collapse(KeepAllowed(Lower(title)), Spaces);
    CollapseChars(KeepAllowed(Lower(title)), Spaces);
    CollapseChars(spaced, Hyphens);
    CollapseKeepsAlnums(KeepAllowed(Lower(title)), Spaces);
    CollapseKeepsAlnums(spaced, Hyphens);
    CollapseNoDoubleHyphen(spaced);
    TrimHyphensChars(Collapse(spaced, Hyphens));
    TrimHyphens(Collapse(spaced, Hyphens))
  }

  // ---------------------------------------------------------------------
  // What a URL title looks like.
  // ---------------------------------------------------------------------

  predicate NoDoubleHyphen(s: string) {
    forall i :: 0 <= i < |s| - 1 ==> !(s[i] == '-' && s[i + 1] == '-')
  }

  predicate NoEdgeHyphen(s: string) {
    s != [] ==> s[0] != '-' && s[|s| - 1] != '-'
  }

  /** Lower-case letters, digits and single inner hyphens. */
  predicate IsSlug(s: string) {
    (forall c :: c in s ==> IsAlnum(c) || c == '-') && NoDoubleHyphen(s) && NoEdgeHyphen(s)
  }

  /** A run-free string passes a collapse unchanged; for hyphens it is
      enough that no two are adjacent. */
  lemma {:induction false} CollapseFixed(s: string, k: RunClass)
    requires (forall c :: c in s ==> !InRun(c, k)) || (k == Hyphens && NoDoubleHyphen(s))
    ensures Collapse(s, k) == s
    decreases |s|
  {
    if s != [] {
      if InRun(s[0], k) {
        assert k == Hyphens && s[0] == '-';
        assert SkipRun(s, k) == s[1..] by {
          assert |s| > 1 ==> s[1] != '-';
        }
      }
      assert (forall c :: c in s[1..] ==> c in s);
      CollapseFixed(s[1..], k);
      assert s == [s[0]] + s[1..];
    }
  }

  /** The first three passes leave a URL title as it is. */
  /** A slug holds no capital, only kept characters, and no white space. */
  lemma SlugCharsPlain(s: string)
    requires IsSlug(s)
    ensures forall c :: c in s ==> IsKept(c) && !InRun(c, Spaces) && !('A' <= c <= 'Z')
  {
    forall c | c in s ensures IsKept(c) && !InRun(c, Spaces) && !('A' <= c <= 'Z') {
      assert IsAlnum(c) || c == '-';
    }
  }

  lemma PassesFixSlug(s: string)
    requires IsSlug(s)
    ensures Collapse(Collapse(KeepAllowed(Lower(s)), Spaces), Hyphens) == s
  {
    SlugCharsPlain(s);
    assert Lower(s) == s by {
      forall i | 0 <= i < |s| ensures Lower(s)[i] == s[i] {
        assert s[i] in s;
      }
    }
    CollapseFixed(s, Spaces);
    CollapseFixed(s, Hyphens);
  }

  /** A string that already is a URL title is its own URL title. */
  lemma GenerateUrlTitleFixesSlug(s: string)
    requires IsSlug(s)
    ensures GenerateUrlTitle(s) == s
  {
    PassesFixSlug(s);
  }

  /** Generating the URL title of a URL title changes nothing. */
  lemma GenerateUrlTitleIdempotent(title: string)
    ensures GenerateUrlTitle(GenerateUrlTitle(title)) == GenerateUrlTitle(title)
  {
    GenerateUrlTitleFixesSlug(GenerateUrlTitle(title));
  }

  /** The URL title is empty exactly when the title has no ASCII letter or
      digit: a title of spaces, hyphens and punctuation gives "". */
  lemma GenerateUrlTitleEmpty(title: string)
    ensures GenerateUrlTitle(title) == "" <==> Alnums(Lower(title)) == ""
  {
    var r := GenerateUrlTitle(title);
    if r != "" {
      assert r[0] in r;
      assert IsAlnum(r[0]);
      assert Alnums(r) != "";
    }
  }

  // ---------------------------------------------------------------------
  // The URL title as the words of the title joined by hyphens.
  // ---------------------------------------------------------------------

  /** A non-empty string with no white space and no hyphen. */
  predicate IsWord(w: string) {
    w != [] && forall i :: 0 <= i < |w| ==> !InRun(w[i], Separators)
  }

  /** The words of `s`: its non-empty maximal segments that hold no white
      space and no hyphen, in order. */
  function Words(s: string): (ws: seq<string>)
    ensures forall i :: 0 <= i < |ws| ==> IsWord(ws[i])
    ensures s != [] && !InRun(s[0], Separators) ==> ws != []
    decreases |s|
  {
    if s == [] then []
    else if InRun(s[0], Separators) then Words(s[1..])
    else
      var ws := Words(s[1..]);
      if |s| > 1 && !InRun(s[1], Separators) then
        assert IsWord([s[0]] + ws[0]) by {
          assert IsWord(ws[0]);
        }
        [[s[0]] + ws[0]] + ws[1..]
      else [[s[0]]] + ws
  }

  /** `ws.join('-')`. */
  function JoinHyphen(ws: seq<string>): string {
    if ws == [] then ""
    else if |ws| == 1 then ws[0]
    else ws[0] + "-" + JoinHyphen(ws[1..])
  }

  lemma JoinHyphenPrepend(w: string, ws: seq<string>)
    requires ws != []
    ensures JoinHyphen([w] + ws) == w + "-" + JoinHyphen(ws)
  {
    assert ([w] + ws)[1..] == ws;
  }

  lemma JoinHyphenExtendFirst(c: char, w: string, ws: seq<string>)
    ensures JoinHyphen([[c] + w] + ws) == [c] + JoinHyphen([w] + ws)
  {
    if ws != [] {
      JoinHyphenPrepend([c] + w, ws);
      JoinHyphenPrepend(w, ws);
      assert [c] + w + "-" + JoinHyphen(ws) == [c] + (w + "-" + JoinHyphen(ws));
    }
  }

  /** Joined words neither begin nor end with a hyphen. */
  lemma {:induction false} JoinHyphenEdges(ws: seq<string>)
    requires forall i :: 0 <= i < |ws| ==> IsWord(ws[i])
    ensures ws != [] ==> JoinHyphen(ws) != []
    ensures NoEdgeHyphen(JoinHyphen(ws))
  {
    if ws != [] {
      var w := ws[0];
      assert IsWord(w);
      if |ws| > 1 {
        JoinHyphenEdges(ws[1..]);
        var j := JoinHyphen(ws[1..]);
        assert JoinHyphen(ws) == w + "-" + j;
      }
    }
  }

  /** Skipping a separator run does not change the words. */
  lemma {:induction false} WordsAfterSeparators(s: string)
    ensures Words(SkipRun(s, Separators)) == Words(s)
    decreases |s|
  {
    if s != [] && InRun(s[0], Separators) {
      WordsAfterSeparators(s[1..]);
    }
  }

  /** Skipping the run of one pass and then all separators is skipping all
      separators. */
  lemma {:induction false} SkipRunThenSeparators(s: string, k: RunClass)
    requires k != Separators
    ensures SkipRun(SkipRun(s, k), Separators) == SkipRun(s, Separators)
    decreases |s|
  {
    if s != [] && InRun(s[0], k) {
      SkipRunThenSeparators(s[1..], k);
    }
  }

  /** A separator run through the space pass turns into hyphens only, and
      skipping those hyphens lands where skipping the separators does. */
  lemma {:induction false} SpacePassOverSeparators(s: string)
    requires s != [] && InRun(s[0], Separators)
    ensures var u := Collapse(s, Spaces);
      u != [] && u[0] == '-' && SkipRun(u, Hyphens) == Collapse(SkipRun(s, Separators), Spaces)
    decreases |s|
  {
    var u := Collapse(s, Spaces);
    var s2 := if IsSpace(s[0]) then SkipRun(s, Spaces) else s[1..];
    var c2 := Collapse(s2, Spaces);
    assert u == "-" + c2;
    assert SkipRun(u, Hyphens) == SkipRun(c2, Hyphens) by {
      assert u[1..] == c2;
    }
    assert SkipRun(s, Separators) == SkipRun(s2, Separators) by {
      if IsSpace(s[0]) {
        SkipRunThenSeparators(s, Spaces);
      }
    }
    if s2 != [] && InRun(s2[0], Separators) {
      SpacePassOverSeparators(s2);
    }
  }

  /** The space pass followed by the hyphen pass is one collapse of every
      separator run, white space and hyphens mixed. */
  lemma {:induction false} CollapseTwoPasses(s: string)
    ensures Collapse(Collapse(s, Spaces), Hyphens) == Collapse(s, Separators)
    decreases |s|
  {
    if s != [] {
      if InRun(s[0], Separators) {
        var v := SkipRun(s, Separators);
        var u := Collapse(s, Spaces);
        SpacePassOverSeparators(s);
        assert Collapse(u, Hyphens) == "-" + Collapse(SkipRun(u, Hyphens), Hyphens);
        CollapseTwoPasses(v);
      } else {
        var rest := Collapse(s[1..], Spaces);
        assert Collapse(s, Spaces) == [s[0]] + rest;
        CollapseCons(s[0], rest, Hyphens);
        CollapseTwoPasses(s[1..]);
      }
    }
  }

  /** Collapsing the separators of `t` gives its words joined by hyphens,
      with one more hyphen when `t` ends in a separator run. */
  predicate CollapsesToWords(t: string) {
    var n := Collapse(t, Separators);
    var j := JoinHyphen(Words(t));
    n == j || (Words(t) != [] && n == j + "-")
  }

  /** A string that starts with a word collapses to its words joined by
      hyphens, and a trailing separator run leaves one more hyphen. */
  lemma {:induction false} CollapseSeparatorsWords(t: string)
    requires t == [] || !InRun(t[0], Separators)
    ensures CollapsesToWords(t)
    decreases |t|, 1
  {
    if t != [] {
      if |t| == 1 {
        assert t[1..] == [] && [t[0]] == t;
        assert Words(t) == [t];
        assert Collapse(t, Separators) == [t[0]] + Collapse([], Separators);
      } else if !InRun(t[1], Separators) {
        CollapseWordGrows(t);
      } else {
        CollapseWordThenRun(t);
      }
    }
  }

  lemma {:induction false} CollapseWordGrows(t: string)
    requires |t| > 1 && !InRun(t[0], Separators) && !InRun(t[1], Separators)
    ensures CollapsesToWords(t)
    decreases |t|, 0
  {
    var c, t1 := t[0], t[1..];
    var n1 := Collapse(t1, Separators);
    var ws := Words(t1);
    var j := JoinHyphen(ws);
    assert Collapse(t, Separators) == [c] + n1 by {
      CollapseCons(c, t1, Separators);
      assert t == [c] + t1;
    }
    assert n1 == j || (ws != [] && n1 == j + "-") by {
      CollapseSeparatorsWords(t1);
    }
    assert Words(t) == [[c] + ws[0]] + ws[1..];
    assert JoinHyphen(Words(t)) == [c] + j by {
      assert [ws[0]] + ws[1..] == ws;
      JoinHyphenExtendFirst(c, ws[0], ws[1..]);
    }
    assert [c] + (j + "-") == [c] + j + "-";
  }

  lemma {:induction false} CollapseWordThenRun(t: string)
    requires |t| > 1 && !InRun(t[0], Separators) && InRun(t[1], Separators)
    ensures CollapsesToWords(t)
    decreases |t|, 0
  {
    var c, t1 := t[0], t[1..];
    var v := SkipRun(t1, Separators);
    var nv := Collapse(v, Separators);
    var j := JoinHyphen(Words(v));
    assert Collapse(t, Separators) == [c] + ("-" + nv) by {
      CollapseCons(c, t1, Separators);
      assert t == [c] + t1;
      assert Collapse(t1, Separators) == "-" + nv;
    }
    assert Words(t) == [[c]] + Words(v) by {
      WordsAfterSeparators(t1);
    }
    assert nv == j || (Words(v) != [] && nv == j + "-") by {
      CollapseSeparatorsWords(v);
    }
    if Words(v) != [] {
      assert JoinHyphen(Words(t)) == [c] + "-" + j by {
        JoinHyphenPrepend([c], Words(v));
      }
      if nv == j {
        assert [c] + ("-" + j) == [c] + "-" + j;
      } else {
        assert [c] + ("-" + (j + "-")) == [c] + "-" + j + "-";
      }
    } else {
      assert JoinHyphen(Words(t)) == [c];
      assert [c] + ("-" + j) == [c] + "-";
    }
  }

  /** Trimming removes a hyphen added on either side of a string that does
      not itself begin or end with one. */
  lemma TrimAround(j: string, lead: string, trail: string)
    requires NoEdgeHyphen(j)
    requires lead == "" || lead == "-"
    requires trail == "" || (trail == "-" && j != [])
    ensures TrimHyphens(lead + (j + trail)) == j
  {
    var x := j + trail;
    assert TrimFront(lead + x) == x by {
      if lead == "-" {
        assert (lead + x)[1..] == x;
      } else {
        assert lead + x == x;
        if x != [] {
          assert x[0] == j[0];
        }
      }
    }
    if trail == "-" {
      assert x[..|j|] == j;
    } else {
      assert x == j;
    }
  }

  /** Trimming the collapsed string leaves exactly the words joined by
      hyphens. */
  lemma TrimCollapsedSeparators(s: string)
    ensures TrimHyphens(Collapse(s, Separators)) == JoinHyphen(Words(s))
  {
    var t := SkipRun(s, Separators);
    var j := JoinHyphen(Words(t));
    var n := Collapse(t, Separators);
    assert Words(s) == Words(t) by {
      WordsAfterSeparators(s);
    }
    assert n == j || (Words(t) != [] && n == j + "-") by {
      CollapseSeparatorsWords(t);
    }
    assert NoEdgeHyphen(j) && (Words(t) != [] ==> j != []) by {
      JoinHyphenEdges(Words(t));
    }
    var lead := if s != [] && InRun(s[0], Separators) then "-" else "";
    var trail := if n == j then "" else "-";
    assert Collapse(s, Separators) == lead + (j + trail) by {
      if lead == "-" {
        assert Collapse(s, Separators) == "-" + n;
      } else {
        assert t == s;
        assert lead + n == n;
      }
      if trail == "" {
        assert j + trail == j;
      }
    }
    TrimAround(j, lead, trail);
  }

  /** `generateUrlTitle` joins the words of the filtered, lower-cased title
      with single hyphens: every run of white space and hyphens between two
      words becomes one `-`, and runs at either end disappear. */
  lemma GenerateUrlTitleWords(title: string)
    ensures GenerateUrlTitle(title) == JoinHyphen(Words(KeepAllowed(Lower(title))))
  {
    var s := KeepAllowed(Lower(title));
    CollapseTwoPasses(s);
    TrimCollapsedSeparators(s);
  }

  /** The words of `a b` are `a` and `b`, joined as `a-b`. */
  lemma WordsExample()
    ensures Words("a b") == ["a", "b"]
    ensures JoinHyphen(Words("a b")) == "a-b"
  {
    assert Words("b") == ["b"] by {
      assert "b"[1..] == [];
    }
    assert Words(" b") == ["b"] by {
      assert " b"[1..] == "b";
    }
    assert Words("a b") == ["a", "b"] by {
      assert "a b"[1..] == " b";
      assert ["a"] + ["b"] == ["a", "b"];
    }
    assert ["a", "b"][1..] == ["b"];
  }

  /** A title with a space between its words gets a hyphen there. */
  lemma GenerateUrlTitleExample()
    ensures GenerateUrlTitle("A b") == "a-b"
  {
    assert Lower("A b") == "a b" by {
      assert "A b"[1..] == " b" && " b"[1..] == "b" && "b"[1..] == [];
    }
    assert KeepAllowed("a b") == "a b" by {
      assert forall c :: c in "a b" ==> IsKept(c);
    }
    WordsExample();
    GenerateUrlTitleWords("A b");
  }

  // ---------------------------------------------------------------------
  // The form state and its updaters.
  // ---------------------------------------------------------------------

  /** The platforms a link of the form may name, `free_download` included. */
  datatype Platform = Spotify | SoundCloud | AppleMusic | YouTube | FreeDownload

  /** The string a platform is sent and stored as. */
  function PlatformKey(p: Platform): (key: string)
    ensures key != ""
  {
    match p
    case Spotify => "spotify"
    case SoundCloud => "soundcloud"
    case AppleMusic => "apple_music"
    case YouTube => "youtube"
    case FreeDownload => "free_download"
  }

  /** Distinct platforms are stored under distinct strings. */
  lemma PlatformKeyInjective(p: Platform, q: Platform)
    ensures PlatformKey(p) == PlatformKey(q) <==> p == q
  {
    if p != q {
      assert PlatformKey(p)[0] != PlatformKey(q)[0] || PlatformKey(p)[1] != PlatformKey(q)[1];
    }
  }

  datatype Link = Link(platform: Platform, url: string)

  datatype ReleaseForm = ReleaseForm(
    title: string,
    url_title: string,
    soundcloud_url: string,
    release_date: string,
    collaborators: string,
    links: seq<Link>)

  const InitialForm: ReleaseForm := ReleaseForm("", "", "", "", "", [])

  /** The `name` attributes of the form's text inputs. */
  datatype Field = Title | UrlTitle | SoundcloudUrl | ReleaseDate | Collaborators

  function Get(f: ReleaseForm, name: Field): string {
    match name
    case Title => f.title
    case UrlTitle => f.url_title
    case SoundcloudUrl => f.soundcloud_url
    case ReleaseDate => f.release_date
    case Collaborators => f.collaborators
  }

  /** `{...prev, [name]: value}`. */
  function SetField(f: ReleaseForm, name: Field, value: string): (r: ReleaseForm)
    ensures Get(r, name) == value
    ensures forall other :: other != name ==> Get(r, other) == Get(f, other)
    ensures r.links == f.links
  {
    match name
    case Title => f.(title := value)
    case UrlTitle => f.(url_title := value)
    case SoundcloudUrl => f.(soundcloud_url := value)
    case ReleaseDate => f.(release_date := value)
    case Collaborators => f.(collaborators := value)
  }

  /** `handleInputChange`: the edited field takes the new value, and an edit
      of the title also regenerates the URL title from it. */
  function HandleInputChange(f: ReleaseForm, name: Field, value: string): (r: ReleaseForm)
    ensures name == Title ==> r.title == value && r.url_title == GenerateUrlTitle(value) && IsSlug(r.url_title)
    ensures name != Title ==> Get(r, name) == value
    ensures forall other :: other != name && !(name == Title && other == UrlTitle) ==> Get(r, other) == Get(f, other)
    ensures r.links == f.links
  {
    var next := SetField(f, name, value);
    if name == Title then next.(url_title := GenerateUrlTitle(value)) else next
  }

  /** Some link of `links` names `p`. */
  predicate InUse(links: seq<Link>, p: Platform) {
    exists l :: l in links && l.platform == p
  }

  /** No two links name the same platform. */
  predicate DistinctPlatforms(links: seq<Link>) {
    forall i, j :: 0 <= i < j < |links| ==> links[i].platform != links[j].platform
  }

  /** The order in which `addLink` offers platforms. */
  const OfferOrder: seq<Platform> := [Spotify, AppleMusic, YouTube, FreeDownload]

  /** `order.find(p => !used.includes(p))`. */
  function FirstAvailable(order: seq<Platform>, links: seq<Link>): (r: Option<Platform>)
    ensures r.None? <==> forall p :: p in order ==> InUse(links, p)
    ensures r.Some? ==> exists i :: 0 <= i < |order| && order[i] == r.value && !InUse(links, r.value)
                          && forall j :: 0 <= j < i ==> InUse(links, order[j])
  {
    if order == [] then None
    else if !InUse(links, order[0]) then Some(order[0])
    else
      var rest := FirstAvailable(order[1..], links);
      if rest.Some? then
        var i :| 0 <= i < |order[1..]| && order[1..][i] == rest.value && !InUse(links, rest.value)
                 && forall j :: 0 <= j < i ==> InUse(links, order[1..][j]);
        assert order[i + 1] == rest.value;
        rest
      else
        assert forall p :: p in order ==> p == order[0] || p in order[1..];
        rest
  }

  /** `addLink`: one link with the first unused platform of `OfferOrder`
      and an empty URL is appended; when all four are in use the form is
      returned as it was. */
  function AddLink(f: ReleaseForm): (r: ReleaseForm)
    ensures r.(links := f.links) == f
    ensures (forall p :: p in OfferOrder ==> InUse(f.links, p)) ==> r == f
    ensures (exists p :: p in OfferOrder && !InUse(f.links, p)) ==>
              |r.links| == |f.links| + 1 && r.links[..|f.links|] == f.links
              && r.links[|f.links|].url == "" && r.links[|f.links|].platform in OfferOrder
              && !InUse(f.links, r.links[|f.links|].platform)
              && exists i :: 0 <= i < |OfferOrder| && OfferOrder[i] == r.links[|f.links|].platform
                   && forall j :: 0 <= j < i ==> InUse(f.links, OfferOrder[j])
  {
    match FirstAvailable(OfferOrder, f.links)
    case None => f
    case Some(p) => f.(links := f.links + [Link(p, "")])
  }

  /** Each platform is offered only while it is unused, so `addLink` keeps
      the platforms of the links distinct. */
  lemma AddLinkKeepsDistinct(f: ReleaseForm)
    requires DistinctPlatforms(f.links)
    ensures DistinctPlatforms(AddLink(f).links)
  {
    var r := AddLink(f).links;
    if |r| > |f.links| {
      var n := |f.links|;
      forall i | 0 <= i < n ensures r[i].platform != r[n].platform {
        assert r[i] == f.links[i] && f.links[i] in f.links;
      }
    }
  }

  /** `links.filter((_, i) => i !== index)`. */
  function WithoutIndex(links: seq<Link>, index: int): (r: seq<Link>)
    ensures 0 <= index < |links| ==> r == links[..index] + links[index + 1..]
    ensures !(0 <= index < |links|) ==> r == links
    decreases |links|
  {
    if links == [] then []
    else
      var last := |links| - 1;
      var front := WithoutIndex(links[..last], index);
      if last == index then front
      else
        assert links == links[..last] + [links[last]];
        front + [links[last]]
  }

  /** `removeLink(index)`: the link at `index` is dropped and the others
      keep their order; an index outside the list changes nothing. */
  function RemoveLink(f: ReleaseForm, index: int): (r: ReleaseForm)
    ensures r.(links := f.links) == f
    ensures 0 <= index < |f.links| ==> r.links == f.links[..index] + f.links[index + 1..]
    ensures !(0 <= index < |f.links|) ==> r == f
  {
    f.(links := WithoutIndex(f.links, index))
  }

  /** What `updateLink` writes: `{...link, [field]: value}` for the
      `platform` and `url` fields. */
  datatype LinkEdit = SetPlatform(platform: Platform) | SetUrl(url: string)

  function ApplyEdit(l: Link, e: LinkEdit): Link {
    match e
    case SetPlatform(p) => l.(platform := p)
    case SetUrl(u) => l.(url := u)
  }

  /** `links.map((link, i) => i === index ? {...link, [field]: value} : link)`. */
  function EditAt(links: seq<Link>, index: int, e: LinkEdit): (r: seq<Link>)
    ensures |r| == |links|
    ensures forall i :: 0 <= i < |links| && i != index ==> r[i] == links[i]
    ensures 0 <= index < |links| ==> r[index] == ApplyEdit(links[index], e)
    decreases |links|
  {
    if links == [] then []
    else
      var last := |links| - 1;
      EditAt(links[..last], index, e) + [if last == index then ApplyEdit(links[last], e) else links[last]]
  }

  /** `updateLink(index, field, value)`: only the named field of the link at
      `index` changes; an index outside the list changes nothing. */
  function UpdateLink(f: ReleaseForm, index: int, e: LinkEdit): (r: ReleaseForm)
    ensures r.(links := f.links) == f
    ensures |r.links| == |f.links|
    ensures forall i :: 0 <= i < |f.links| && i != index ==> r.links[i] == f.links[i]
    ensures 0 <= index < |f.links| ==> r.links[index] == ApplyEdit(f.links[index], e)
    ensures e.SetUrl? && 0 <= index < |f.links| ==> r.links[index].platform == f.links[index].platform
    ensures e.SetPlatform? && 0 <= index < |f.links| ==> r.links[index].url == f.links[index].url
    ensures !(0 <= index < |f.links|) ==> r == f
  {
    f.(links := EditAt(f.links, index, e))
  }

  /** When the platforms before `OfferOrder[i]` are in use and it is not,
      `addLink` appends a link to it. */
  lemma AddLinkOffers(f: ReleaseForm, i: nat)
    requires i < |OfferOrder| && !InUse(f.links, OfferOrder[i])
    requires forall j :: 0 <= j < i ==> InUse(f.links, OfferOrder[j])
    ensures AddLink(f) == f.(links := f.links + [Link(OfferOrder[i], "")])
  {
    var r := AddLink(f);
    var n := |f.links|;
    var k :| 0 <= k < |OfferOrder| && OfferOrder[k] == r.links[n].platform
             && forall j :: 0 <= j < k ==> InUse(f.links, OfferOrder[j]);
    assert !InUse(f.links, OfferOrder[k]);
    assert k == i;
    assert r.links == r.links[..n] + [r.links[n]];
  }

  /** The links after the first `n` presses of "+ ADD LINK" on a fresh form. */
  function Offered(n: nat): seq<Link>
    requires n <= |OfferOrder|
  {
    seq(n, j requires 0 <= j < n => Link(OfferOrder[j], ""))
  }

  lemma OfferedInUse(n: nat, p: Platform)
    requires n <= |OfferOrder|
    ensures InUse(Offered(n), p) <==> p in OfferOrder[..n]
  {
    var links := Offered(n);
    if InUse(links, p) {
      var l :| l in links && l.platform == p;
      var j :| 0 <= j < n && links[j] == l;
      assert OfferOrder[..n][j] == p;
    }
    if p in OfferOrder[..n] {
      var j :| 0 <= j < n && OfferOrder[..n][j] == p;
      assert links[j] in links;
    }
  }

  /** How many links `n` presses add: one per press until all four
      platforms are offered. */
  function Presses(n: nat): (k: nat)
    ensures k <= |OfferOrder| && k <= n
    ensures k < n <==> n > |OfferOrder|
  {
    if n < 4 then n else 4
  }

  /** `n` presses of "+ ADD LINK". */
  function AddLinkTimes(f: ReleaseForm, n: nat): ReleaseForm {
    if n == 0 then f else AddLink(AddLinkTimes(f, n - 1))
  }

  /** With the first `m` platforms offered, `addLink` offers the next. */
  lemma AddLinkAfterOffered(f: ReleaseForm, m: nat)
    requires m < |OfferOrder| && f.links == Offered(m)
    ensures AddLink(f) == f.(links := Offered(m + 1))
  {
    forall j | 0 <= j < m ensures InUse(f.links, OfferOrder[j]) {
      OfferedInUse(m, OfferOrder[j]);
      assert OfferOrder[..m][j] == OfferOrder[j];
    }
    assert !InUse(f.links, OfferOrder[m]) by {
      OfferedInUse(m, OfferOrder[m]);
    }
    AddLinkOffers(f, m);
    assert Offered(m) + [Link(OfferOrder[m], "")] == Offered(m + 1);
  }

  /** With all four platforms offered, `addLink` returns the form unchanged. */
  lemma AddLinkWhenAllOffered(f: ReleaseForm)
    requires f.links == Offered(|OfferOrder|)
    ensures AddLink(f) == f
  {
    forall p | p in OfferOrder ensures InUse(f.links, p) {
      OfferedInUse(|OfferOrder|, p);
      assert OfferOrder[..|OfferOrder|] == OfferOrder;
    }
  }

  /** Pressing "+ ADD LINK" on a fresh form offers Spotify, Apple Music,
      YouTube and Free Download in that order; further presses change
      nothing. */
  lemma {:induction false} AddLinkFillsInOrder(n: nat)
    ensures AddLinkTimes(InitialForm, n) == InitialForm.(links := Offered(Presses(n)))
    decreases n, 1
  {
    if n > 0 {
      AddLinkFillsStep(n);
    } else {
      AddLinkFillsBase();
    }
  }

  /** No press leaves the fresh form, which holds no offer. */
  lemma AddLinkFillsBase()
    ensures AddLinkTimes(InitialForm, 0) == InitialForm.(links := Offered(0))
  {
    assert Offered(0) == [];
  }

  /** The induction step of `AddLinkFillsInOrder`. */
  lemma AddLinkFillsStep(n: nat)
    requires n > 0
    ensures AddLinkTimes(InitialForm, n) == InitialForm.(links := Offered(Presses(n)))
    decreases n, 0
  {
    AddLinkFillsInOrder(n - 1);
    AddLinkPress(AddLinkTimes(InitialForm, n - 1), Presses(n - 1));
  }

  /** One press on a fresh form holding the first `m` offers. */
  lemma AddLinkPress(f: ReleaseForm, m: nat)
    requires m <= 4 && f == InitialForm.(links := Offered(m))
    ensures AddLink(f) == InitialForm.(links := Offered(Presses(m + 1)))
  {
    if m < 4 {
      AddLinkAfterOffered(f, m);
    } else {
      AddLinkWhenAllOffered(f);
    }
  }
}
