/**
 * getYouTubeEmbedUrl: extracts the 11-character video id that follows the
 * last URL marker on the first line of the input and builds the embed URL.
 *
 * The regular expression
 *     ^.*(?:youtu.be\/|v\/|u\/\w\/|embed\/|watch\?v=|&v=)([^#&?]*).*
 * is modelled by the search a backtracking matcher performs: the greedy `.*`
 * first swallows the whole first line (`.` does not match a line
 * terminator), then gives characters back one at a time, so the marker that
 * is found is the one that starts last on the first line. The capture group
 * then takes the longest run of characters other than '#', '&' and '?'
 * (line terminators included), and the trailing `.*` always succeeds.
 */
module YouTubeUrl {
  import opened Wrappers

  const EmbedPrefix := "https://www.youtube.com/embed/"
  const EmbedSuffix := "?enablejsapi=1"
  /** The length of a YouTube video id. */
  const IdLength := 11

  /** The characters JavaScript's `.` does not match. */
  predicate IsLineTerminator(c: char) {
    c == '\n' || c == '\r' || c == '\U{2028}' || c == '\U{2029}'
  }

  /** `\w` */
  predicate IsWordChar(c: char) {
    ('a' <= c <= 'z') || ('A' <= c <= 'Z') || ('0' <= c <= '9') || c == '_'
  }

  /** `[^#&?]` */
  predicate IsIdChar(c: char) {
    c != '#' && c != '&' && c != '?'
  }

  /**
   * The length of the marker alternative that matches at position k, trying
   * the alternatives in the order the pattern lists them.
   */
  function MarkerAt(s: string, k: nat): (r: Option<nat>)
    ensures r.Some? ==> k + r.value <= |s| && r.value in {2, 3, 4, 6, 8, 9}
  {
    // youtu.be/  (the '.' matches any character but a line terminator)
    if k + 9 <= |s| && s[k] == 'y' && s[k + 1] == 'o' && s[k + 2] == 'u' && s[k + 3] == 't' &&
       s[k + 4] == 'u' && !IsLineTerminator(s[k + 5]) && s[k + 6] == 'b' && s[k + 7] == 'e' && s[k + 8] == '/'
    then Some(9)
    // v/
    else if k + 2 <= |s| && s[k] == 'v' && s[k + 1] == '/'
    then Some(2)
    // u/\w/
    else if k + 4 <= |s| && s[k] == 'u' && s[k + 1] == '/' && IsWordChar(s[k + 2]) && s[k + 3] == '/'
    then Some(4)
    // embed/
    else if k + 6 <= |s| && s[k] == 'e' && s[k + 1] == 'm' && s[k + 2] == 'b' && s[k + 3] == 'e' &&
            s[k + 4] == 'd' && s[k + 5] == '/'
    then Some(6)
    // watch?v=
    else if k + 8 <= |s| && s[k] == 'w' && s[k + 1] == 'a' && s[k + 2] == 't' && s[k + 3] == 'c' &&
            s[k + 4] == 'h' && s[k + 5] == '?' && s[k + 6] == 'v' && s[k + 7] == '='
    then Some(8)
    // &v=
    else if k + 3 <= |s| && s[k] == '&' && s[k + 1] == 'v' && s[k + 2] == '='
    then Some(3)
    else None
  }

  /** The end of the line that contains position i: the first line terminator at or after i, or the end. */
  function LineEnd(s: string, i: nat): (e: nat)
    requires i <= |s|
    ensures i <= e <= |s|
    ensures forall j :: i <= j < e ==> !IsLineTerminator(s[j])
    ensures e < |s| ==> IsLineTerminator(s[e])
    decreases |s| - i
  {
    if i == |s| || IsLineTerminator(s[i]) then i else LineEnd(s, i + 1)
  }

  /** A marker found at `start`, `len` characters long. */
  datatype MarkerMatch = MarkerMatch(start: nat, len: nat)

  /**
   * The backtracking of `^.*`: try the marker at k, then at k - 1, and so on
   * down to 0. The result is the marker with the greatest start at or before
   * k, or none when no position up to k holds one.
   */
  function LastMarkerFrom(s: string, k: nat): (r: Option<MarkerMatch>)
    ensures r.Some? ==> r.value.start <= k && MarkerAt(s, r.value.start) == Some(r.value.len)
    ensures r.Some? ==> forall j :: r.value.start < j <= k ==> MarkerAt(s, j).None?
    ensures r.None? ==> forall j :: 0 <= j <= k ==> MarkerAt(s, j).None?
    decreases k
  {
    match MarkerAt(s, k)
    case Some(n) => Some(MarkerMatch(k, n))
    case None => if k == 0 then None else LastMarkerFrom(s, k - 1)
  }

  /**
   * The capture group `([^#&?]*)` from position i: the longest run of
   * characters other than '#', '&' and '?'.
   */
  function IdRun(s: string, i: nat): (id: string)
    requires i <= |s|
    ensures i + |id| <= |s| && id == s[i..i + |id|]
    ensures forall j :: 0 <= j < |id| ==> IsIdChar(id[j])
    ensures i + |id| == |s| || !IsIdChar(s[i + |id|])
    decreases |s| - i
  {
    if i < |s| && IsIdChar(s[i]) then [s[i]] + IdRun(s, i + 1) else []
  }

  /** url.match(regExp)[1], or none when the pattern does not match. */
  function CapturedId(url: string): (r: Option<string>)
    ensures r.None? <==> forall j :: 0 <= j <= LineEnd(url, 0) ==> MarkerAt(url, j).None?
    ensures r.Some? ==> forall j :: 0 <= j < |r.value| ==> IsIdChar(r.value[j])
  {
    match LastMarkerFrom(url, LineEnd(url, 0))
    case None => None
    case Some(m) => Some(IdRun(url, m.start + m.len))
  }

  /**
   * getYouTubeEmbedUrl: the embed URL for the captured id when the pattern
   * matches and the id is exactly IdLength characters, otherwise none.
   */
  function EmbedUrl(url: string): (r: Option<string>)
    ensures r.Some? ==> |r.value| == |EmbedPrefix| + IdLength + |EmbedSuffix|
    ensures r.Some? ==> r.value[..|EmbedPrefix|] == EmbedPrefix && r.value[|EmbedPrefix| + IdLength..] == EmbedSuffix
    ensures r.Some? ==> forall j :: |EmbedPrefix| <= j < |EmbedPrefix| + IdLength ==> IsIdChar(r.value[j])
    ensures r.None? <==> CapturedId(url).None? || |CapturedId(url).value| != IdLength
  {
    match CapturedId(url)
    case None => None
    case Some(id) =>
      if |id| == IdLength then
        var e := EmbedPrefix + id + EmbedSuffix;
        assert e[|EmbedPrefix|..|EmbedPrefix| + IdLength] == id;
        Some(e)
      else None
  }

  /** The video id an embed URL carries. */
  function VideoIdOf(embed: string): (id: string)
    requires |embed| == |EmbedPrefix| + IdLength + |EmbedSuffix|
    ensures |id| == IdLength
  {
    embed[|EmbedPrefix|..|EmbedPrefix| + IdLength]
  }

  // ---------------------------------------------------------------------
  // What the match finds
  // ---------------------------------------------------------------------

  /**
   * The search stops at the last marker: when position k <= e holds a marker
   * and no position in (k, e] does, the search from e finds the one at k.
   */
  lemma LastMarkerIs(s: string, e: nat, k: nat, n: nat)
    requires k <= e && MarkerAt(s, k) == Some(n)
    requires forall j :: k < j <= e ==> MarkerAt(s, j).None?
    ensures LastMarkerFrom(s, e) == Some(MarkerMatch(k, n))
  {
  }

  /**
   * The latest marker wins: when position k of the first line holds a marker
   * and no later position of the first line does, the captured id is the run
   * that follows that marker.
   */
  lemma CapturedAfterLastMarker(url: string, k: nat, n: nat)
    requires k <= LineEnd(url, 0) && MarkerAt(url, k) == Some(n)
    requires forall j :: k < j <= LineEnd(url, 0) ==> MarkerAt(url, j).None?
    ensures CapturedId(url) == Some(IdRun(url, k + n))
  {
    LastMarkerIs(url, LineEnd(url, 0), k, n);
  }

  /** The capture group is determined: a maximal run of id characters at i is IdRun(s, i). */
  lemma {:induction false} IdRunIsMaximalRun(s: string, i: nat, id: string)
    requires i + |id| <= |s| && s[i..i + |id|] == id
    requires forall j :: 0 <= j < |id| ==> IsIdChar(id[j])
    requires i + |id| == |s| || !IsIdChar(s[i + |id|])
    ensures IdRun(s, i) == id
    decreases |id|
  {
    if id != [] {
      assert s[i] == id[0];
      assert s[i + 1..i + 1 + |id[1..]|] == id[1..];
      IdRunIsMaximalRun(s, i + 1, id[1..]);
      assert id == [id[0]] + id[1..];
    } else {
      assert i == |s| || !IsIdChar(s[i]);
    }
  }

  /** Where the delimiter ('/', '?' or '&') of each marker alternative sits. */
  function DelimiterOffset(n: nat): (o: nat)
    requires n in {2, 3, 4, 6, 8, 9}
    ensures o < n
  {
    if n == 9 then 8 else if n == 2 then 1 else if n == 4 then 1
    else if n == 6 then 5 else if n == 8 then 5 else 0
  }

  /** Every marker contains a '/', a '?' or a '&'. */
  lemma MarkerHasDelimiter(s: string, k: nat)
    requires MarkerAt(s, k).Some?
    ensures var q := k + DelimiterOffset(MarkerAt(s, k).value);
      q < |s| && (s[q] == '/' || s[q] == '?' || s[q] == '&')
  {
  }

  /** A marker holds no line terminator, so it lies inside one line. */
  lemma MarkerWithinLine(s: string, k: nat)
    requires MarkerAt(s, k).Some?
    ensures forall q :: k <= q < k + MarkerAt(s, k).value ==> !IsLineTerminator(s[q])
  {
  }

  /** Whether a marker matches depends only on the characters it spans. */
  lemma MarkerTransfer(s: string, j: nat, t: string, i: nat)
    requires MarkerAt(s, j).Some?
    requires i + MarkerAt(s, j).value <= |t|
    requires t[i..i + MarkerAt(s, j).value] == s[j..j + MarkerAt(s, j).value]
    ensures MarkerAt(t, i) == MarkerAt(s, j)
  {
    var n := MarkerAt(s, j).value;
    var a, b := t[i..i + n], s[j..j + n];
    assert t[i] == a[0] == b[0] == s[j];
    assert t[i + 1] == a[1] == b[1] == s[j + 1];
    if n >= 3 { assert t[i + 2] == a[2] == b[2] == s[j + 2]; }
    if n >= 4 { assert t[i + 3] == a[3] == b[3] == s[j + 3]; }
    if n >= 6 { assert t[i + 4] == a[4] == b[4] == s[j + 4] && t[i + 5] == a[5] == b[5] == s[j + 5]; }
    if n >= 8 { assert t[i + 6] == a[6] == b[6] == s[j + 6] && t[i + 7] == a[7] == b[7] == s[j + 7]; }
    if n >= 9 { assert t[i + 8] == a[8] == b[8] == s[j + 8]; }
  }

  /** No marker runs into a "?e" that follows it. */
  lemma MarkerStopsBeforeQuery(s: string, j: nat, b: nat)
    requires j < b && b + 1 < |s| && s[b] == '?' && s[b + 1] == 'e'
    requires MarkerAt(s, j).Some?
    ensures j + MarkerAt(s, j).value <= b
  {
  }

  // ---------------------------------------------------------------------
  // Round trips
  // ---------------------------------------------------------------------

  const ShortLinkPrefix := "https://youtu.be/"
  const WatchLinkPrefix := "https://www.youtube.com/watch?v="

  /** A video id the usual links carry: IdLength id characters, none of them '/'. */
  predicate PlainId(id: string) {
    |id| == IdLength && forall j :: 0 <= j < |id| ==> IsIdChar(id[j]) && id[j] != '/'
  }

  /** No marker starts inside a plain id at the end of a string. */
  lemma NoMarkerInPlainId(p: string, id: string, j: nat)
    requires PlainId(id) && |p| <= j
    ensures MarkerAt(p + id, j).None?
  {
    var s := p + id;
    if MarkerAt(s, j).Some? {
      MarkerHasDelimiter(s, j);
    }
  }

  /** A string whose first characters hold no line terminator has its first line reach past them. */
  lemma FirstLineCovers(s: string, n: nat)
    requires n <= |s| && forall j :: 0 <= j < n ==> !IsLineTerminator(s[j])
    ensures LineEnd(s, 0) >= n
  {
  }

  /** The captured id of a link made of a fixed prefix ending in its last marker, then a plain id. */
  lemma CapturedFromPrefixedLink(p: string, k: nat, id: string)
    requires PlainId(id) && k <= |p|
    requires forall j :: 0 <= j < |p| ==> !IsLineTerminator(p[j])
    requires MarkerAt(p + id, k) == Some(|p| - k)
    requires forall j :: k < j < |p| ==> MarkerAt(p + id, j).None?
    ensures CapturedId(p + id) == Some(id)
  {
    var url := p + id;
    forall j | 0 <= j < |p| ensures !IsLineTerminator(url[j]) {
      assert url[j] == p[j];
    }
    FirstLineCovers(url, |p|);
    forall j | k < j <= LineEnd(url, 0) ensures MarkerAt(url, j).None? {
      if j >= |p| {
        NoMarkerInPlainId(p, id, j);
      }
    }
    CapturedAfterLastMarker(url, k, |p| - k);
    assert url[|p|..|p| + |id|] == id;
    IdRunIsMaximalRun(url, |p|, id);
  }

  /** A youtu.be short link to a plain id gives the embed URL for that id. */
  lemma ShortLinkRoundTrip(id: string)
    requires PlainId(id)
    ensures EmbedUrl(ShortLinkPrefix + id) == Some(EmbedPrefix + id + EmbedSuffix)
  {
    var url := ShortLinkPrefix + id;
    assert url[..|ShortLinkPrefix|] == ShortLinkPrefix;
    assert MarkerAt(url, 8) == Some(9);
    forall j | 8 < j < |ShortLinkPrefix| ensures MarkerAt(url, j).None? {
      assert url[j] == ShortLinkPrefix[j];
      if j + 1 < |ShortLinkPrefix| { assert url[j + 1] == ShortLinkPrefix[j + 1]; }
    }
    CapturedFromPrefixedLink(ShortLinkPrefix, 8, id);
  }

  /** A watch?v= link to a plain id gives the embed URL for that id. */
  lemma WatchLinkRoundTrip(id: string)
    requires PlainId(id)
    ensures EmbedUrl(WatchLinkPrefix + id) == Some(EmbedPrefix + id + EmbedSuffix)
  {
    var url := WatchLinkPrefix + id;
    assert url[..|WatchLinkPrefix|] == WatchLinkPrefix;
    assert MarkerAt(url, 24) == Some(8);
    forall j | 24 < j < |WatchLinkPrefix| ensures MarkerAt(url, j).None? {
      assert url[j] == WatchLinkPrefix[j];
      if j + 1 < |WatchLinkPrefix| { assert url[j + 1] == WatchLinkPrefix[j + 1]; }
    }
    CapturedFromPrefixedLink(WatchLinkPrefix, 24, id);
  }

  // ---------------------------------------------------------------------
  // Idempotence
  // ---------------------------------------------------------------------

  /** No marker starts on the first line of s. */
  predicate FirstLineMarkerFree(s: string) {
    forall j :: 0 <= j <= LineEnd(s, 0) ==> MarkerAt(s, j).None?
  }

  /**
   * A marker on the first line of a run that starts at `base` is a marker on
   * the first line of the whole string, after `start`.
   */
  lemma MarkerInRun(s: string, start: nat, base: nat, run: string, j: nat)
    requires start < base && base + |run| <= |s| && s[base..base + |run|] == run
    requires forall q :: 0 <= q < base ==> !IsLineTerminator(s[q])
    requires forall q :: start < q <= LineEnd(s, 0) ==> MarkerAt(s, q).None?
    requires j <= LineEnd(run, 0)
    ensures MarkerAt(run, j).None?
  {
    if MarkerAt(run, j).Some? {
      var n := MarkerAt(run, j).value;
      var p := base + j;
      SliceOfRun(s, base, run, j, n);
      MarkerTransfer(run, j, s, p);
      assert MarkerAt(s, p).Some?;
      PrefixThroughRun(s, base, run, j);
      FirstLineCovers(s, p);
    }
  }

  lemma SliceOfRun(s: string, base: nat, run: string, j: nat, n: nat)
    requires base + |run| <= |s| && s[base..base + |run|] == run
    requires j + n <= |run|
    ensures s[base + j..base + j + n] == run[j..j + n]
  {
    var a, b := s[base + j..base + j + n], run[j..j + n];
    forall q | 0 <= q < n ensures a[q] == b[q] {
      assert s[base + j + q] == s[base..base + |run|][j + q];
    }
  }

  lemma PrefixThroughRun(s: string, base: nat, run: string, j: nat)
    requires base + |run| <= |s| && s[base..base + |run|] == run
    requires forall q :: 0 <= q < base ==> !IsLineTerminator(s[q])
    requires j <= LineEnd(run, 0) && j <= |run|
    ensures forall q :: 0 <= q < base + j ==> !IsLineTerminator(s[q])
  {
    forall q | 0 <= q < base + j ensures !IsLineTerminator(s[q]) {
      if q >= base {
        assert s[q] == run[q - base];
      }
    }
  }

  /** Everything up to the end of the marker the search stops at lies on the first line. */
  lemma LastMarkerOnFirstLine(url: string)
    requires LastMarkerFrom(url, LineEnd(url, 0)).Some?
    ensures var m := LastMarkerFrom(url, LineEnd(url, 0)).value;
      forall q :: 0 <= q < m.start + m.len ==> !IsLineTerminator(url[q])
  {
    var m := LastMarkerFrom(url, LineEnd(url, 0)).value;
    MarkerWithinLine(url, m.start);
  }

  /**
   * A captured id holds no marker on its first line: such a marker would lie
   * on the first line of the URL, after the marker the search stopped at.
   */
  lemma CapturedIdIsMarkerFree(url: string)
    requires CapturedId(url).Some?
    ensures FirstLineMarkerFree(CapturedId(url).value)
  {
    var last := LastMarkerFrom(url, LineEnd(url, 0));
    var m := last.value;
    var base := m.start + m.len;
    var id := IdRun(url, base);
    assert CapturedId(url) == Some(id);
    LastMarkerOnFirstLine(url);
    forall j | 0 <= j <= LineEnd(id, 0) ensures MarkerAt(id, j).None? {
      MarkerInRun(url, m.start, base, id, j);
    }
  }

  /** After "embed/" the fixed parts of an embed URL hold no marker. */
  lemma NoMarkerInEmbedFrame(id: string, j: nat)
    requires |id| == IdLength
    requires 24 < j < |EmbedPrefix| || |EmbedPrefix| + IdLength <= j
    ensures MarkerAt(EmbedPrefix + id + EmbedSuffix, j).None?
  {
    var e := EmbedPrefix + id + EmbedSuffix;
    var a := |EmbedPrefix|;
    var b := a + IdLength;
    if j < a {
      assert e[j] == EmbedPrefix[j];
      if j + 1 < a { assert e[j + 1] == EmbedPrefix[j + 1]; }
    } else if j < |e| {
      assert e[j] == EmbedSuffix[j - b];
      if j + 1 < |e| { assert e[j + 1] == EmbedSuffix[j + 1 - b]; }
    }
  }

  /** A marker on the first line inside the id of an embed URL would be a marker on the id's first line. */
  lemma NoMarkerInEmbeddedId(id: string, j: nat)
    requires |id| == IdLength && FirstLineMarkerFree(id)
    requires |EmbedPrefix| <= j < |EmbedPrefix| + IdLength
    requires forall q :: |EmbedPrefix| <= q < j ==> !IsLineTerminator((EmbedPrefix + id + EmbedSuffix)[q])
    ensures MarkerAt(EmbedPrefix + id + EmbedSuffix, j).None?
  {
    var e := EmbedPrefix + id + EmbedSuffix;
    var a := |EmbedPrefix|;
    var b := a + IdLength;
    if MarkerAt(e, j).Some? {
      var n := MarkerAt(e, j).value;
      assert e[b] == '?' && e[b + 1] == 'e';
      MarkerStopsBeforeQuery(e, j, b);
      assert e[a..b] == id;
      SliceOfRun(e, a, id, j - a, n);
      MarkerTransfer(e, j, id, j - a);
      forall q | 0 <= q < j - a ensures !IsLineTerminator(id[q]) {
        assert id[q] == e[a + q];
      }
      FirstLineCovers(id, j - a);
    }
  }

  /** The embed URL for an id free of markers on its first line captures that id again. */
  lemma EmbedCapturesId(id: string)
    requires |id| == IdLength && forall j :: 0 <= j < |id| ==> IsIdChar(id[j])
    requires FirstLineMarkerFree(id)
    ensures CapturedId(EmbedPrefix + id + EmbedSuffix) == Some(id)
  {
    var e := EmbedPrefix + id + EmbedSuffix;
    var a := |EmbedPrefix|;
    var b := a + IdLength;
    forall j | 0 <= j < a ensures !IsLineTerminator(e[j]) {
      assert e[j] == EmbedPrefix[j];
    }
    FirstLineCovers(e, a);
    assert e[..a] == EmbedPrefix;
    assert MarkerAt(e, 24) == Some(6);
    forall j | 24 < j <= LineEnd(e, 0) ensures MarkerAt(e, j).None? {
      if a <= j < b {
        NoMarkerInEmbeddedId(id, j);
      } else {
        NoMarkerInEmbedFrame(id, j);
      }
    }
    CapturedAfterLastMarker(e, 24, 6);
    assert e[a..b] == id;
    IdRunIsMaximalRun(e, a, id);
  }

  /**
   * Feeding an embed URL back in gives the same embed URL, and the id it
   * carries is the id captured from the original URL.
   */
  lemma EmbedUrlIdempotent(url: string)
    requires EmbedUrl(url).Some?
    ensures VideoIdOf(EmbedUrl(url).value) == CapturedId(url).value
    ensures EmbedUrl(EmbedUrl(url).value) == EmbedUrl(url)
  {
    var id := CapturedId(url).value;
    var e := EmbedPrefix + id + EmbedSuffix;
    assert EmbedUrl(url) == Some(e);
    assert e[|EmbedPrefix|..|EmbedPrefix| + IdLength] == id;
    CapturedIdIsMarkerFree(url);
    EmbedCapturesId(id);
  }
}
