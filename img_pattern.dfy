/** The regular expression /<img[^>]+src="([^">]+)"/ of the feed code, written
    out as a scan with the backtracking of JavaScript's `String.prototype.match`
    (no `g` flag): the leftmost start position wins, and at that start the greedy
    `[^>]+` is tried longest first. */
module ImgPattern {
  import opened Wrappers

  const ImgOpen: string := "<img"
  const SrcOpen: string := "src=\""

  /** A character of the class `[^">]` (the capture group). */
  predicate InValue(c: char) { c != '"' && c != '>' }

  /** The regular expression matches `s` at position `i`, with its `[^>]+`
      running from `i + 4` up to `q`, where `src="` begins, and captures `v`. */
  ghost predicate MatchAt(s: string, i: nat, q: nat, v: string)
  {
    i + 5 <= q && q + 5 + |v| < |s|
    && s[i..i + 4] == ImgOpen
    && (forall k :: i + 4 <= k < q ==> s[k] != '>')
    && s[q..q + 5] == SrcOpen
    && |v| > 0 && s[q + 5..q + 5 + |v|] == v
    && (forall k :: 0 <= k < |v| ==> InValue(v[k]))
    && s[q + 5 + |v|] == '"'
  }

  /** Where a match was found: its start, the start of its `src="`, and the
      captured group. */
  datatype Match = Match(start: nat, srcAt: nat, value: string)

  /** The end of the greedy run `[^>]*` that begins at j. */
  function GtFreeEnd(s: string, j: nat): (e: nat)
    requires j <= |s|
    ensures j <= e <= |s|
    ensures forall k :: j <= k < e ==> s[k] != '>'
    ensures e == |s| || s[e] == '>'
    decreases |s| - j
  {
    if j == |s| || s[j] == '>' then j else GtFreeEnd(s, j + 1)
  }

  /** The end of the greedy run `[^">]*` that begins at j. */
  function ValueEnd(s: string, j: nat): (e: nat)
    requires j <= |s|
    ensures j <= e <= |s|
    ensures forall k :: j <= k < e ==> InValue(s[k])
    ensures e == |s| || !InValue(s[e])
    decreases |s| - j
  {
    if j == |s| || !InValue(s[j]) then j else ValueEnd(s, j + 1)
  }

  /** `([^">]+)"` at position j: the greedy group and its closing quote.
      Backtracking into the group cannot help, as a shorter group is followed
      by a character of the group, which is not a quote. */
  function CaptureAt(s: string, j: nat): (r: Option<string>)
    requires j <= |s|
  {
    var e := ValueEnd(s, j);
    if j < e && e < |s| && s[e] == '"' then Some(s[j..e]) else None
  }

  /** `src="([^">]+)"` at position q. */
  function SrcCaptureAt(s: string, q: nat): (r: Option<string>)
  {
    if q + 5 <= |s| && s[q..q + 5] == SrcOpen then CaptureAt(s, q + 5) else None
  }

  lemma SrcCaptureAtSpec(s: string, i: nat, q: nat, v: string)
    requires i + 5 <= q <= |s| && s[i..i + 4] == ImgOpen
    requires forall k :: i + 4 <= k < q ==> s[k] != '>'
    ensures SrcCaptureAt(s, q) == Some(v) <==> MatchAt(s, i, q, v)
  {
    if MatchAt(s, i, q, v) {
      var e := ValueEnd(s, q + 5);
      var m := q + 5 + |v|;
      forall k | q + 5 <= k < m ensures InValue(s[k]) {
        assert s[k] == v[k - (q + 5)];
      }
      assert e == m;
    }
  }

  /** The backtracking of `[^>]+` after the `<img` at i: tries the run ending
      at q, then one shorter, down to the one-character run. */
  function Backtrack(s: string, i: nat, q: nat): (r: Option<Match>)
    requires i + 4 <= |s| && s[i..i + 4] == ImgOpen && q <= |s|
    requires forall k :: i + 4 <= k < q ==> s[k] != '>'
    ensures r.Some? ==> r.value.start == i && r.value.srcAt <= q
                        && MatchAt(s, i, r.value.srcAt, r.value.value)
    ensures r.Some? ==> forall q': nat, v' :: r.value.srcAt < q' <= q ==> !MatchAt(s, i, q', v')
    ensures r.None? ==> forall q': nat, v' :: q' <= q ==> !MatchAt(s, i, q', v')
    decreases q
  {
    if q < i + 5 then None
    else
      var c := SrcCaptureAt(s, q);
      SrcCaptureAtSpec(s, i, q, if c.Some? then c.value else "");
      if c.Some? then
        Some(Match(i, q, c.value))
      else
        var r := Backtrack(s, i, q - 1);
        assert forall v' :: !MatchAt(s, i, q, v') by {
          forall v' ensures !MatchAt(s, i, q, v') {
            SrcCaptureAtSpec(s, i, q, v');
          }
        }
        r
  }

  /** The regular expression anchored at i, given that `<img` is there: the
      longest `[^>]+` that leads to a match. */
  function MatchFrom(s: string, i: nat): (r: Option<Match>)
    requires i + 4 <= |s| && s[i..i + 4] == ImgOpen
    ensures r.Some? ==> r.value.start == i && MatchAt(s, i, r.value.srcAt, r.value.value)
    ensures r.Some? ==> forall q': nat, v' :: r.value.srcAt < q' ==> !MatchAt(s, i, q', v')
    ensures r.None? ==> forall q': nat, v' :: !MatchAt(s, i, q', v')
  {
    var e := GtFreeEnd(s, i + 4);
    var r := Backtrack(s, i, e);
    // a match's `[^>]+` cannot run past the first `>`
    assert forall q': nat, v' :: MatchAt(s, i, q', v') ==> q' <= e;
    r
  }

  /** The regular expression tried at every start position from `from` on. */
  function FindFrom(s: string, from: nat): (r: Option<Match>)
    ensures r.Some? ==> from <= r.value.start && MatchAt(s, r.value.start, r.value.srcAt, r.value.value)
    ensures r.Some? ==> forall i: nat, q: nat, v :: from <= i && MatchAt(s, i, q, v) ==>
                          r.value.start < i || (r.value.start == i && q <= r.value.srcAt)
    ensures r.None? <==> forall i: nat, q: nat, v :: from <= i ==> !MatchAt(s, i, q, v)
    decreases |s| - from
  {
    if |s| < from + 4 then None
    else if s[from..from + 4] == ImgOpen && MatchFrom(s, from).Some? then MatchFrom(s, from)
    else
      var r := FindFrom(s, from + 1);
      assert forall q: nat, v :: !MatchAt(s, from, q, v);
      r
  }

  /** `s.match(/<img[^>]+src="([^">]+)"/)?.[1]`: the captured `src` value of the
      first match. It is found exactly when the regular expression has a match,
      occurs in `s` as the capture of a match, is never empty and holds no `"`
      and no `>`. */
  function FirstImgSrc(s: string): (r: Option<string>)
    ensures r.None? <==> forall i: nat, q: nat, v :: !MatchAt(s, i, q, v)
    ensures r.Some? ==> exists i: nat, q: nat :: MatchAt(s, i, q, r.value)
    ensures r.Some? ==> |r.value| > 0 && '"' !in r.value && '>' !in r.value
  {
    var m := FindFrom(s, 0);
    if m.Some? then
      CapturedValueShape(s, m.value.start, m.value.srcAt, m.value.value);
      Some(m.value.value)
    else None
  }

  /** The value is the capture of the FIRST match in JavaScript's order:
      no match starts further left, and none at the same start has a longer
      `[^>]+` (so a later `src="` in the same tag, even of `data-src`, wins). */
  lemma FirstImgSrcIsFirst(s: string, i: nat, q: nat, v: string)
    requires MatchAt(s, i, q, v)
    ensures FirstImgSrc(s).Some?
    ensures exists i0: nat, q0: nat :: MatchAt(s, i0, q0, FirstImgSrc(s).value)
                             && (i0 < i || (i0 == i && q <= q0))
  {
    var m := FindFrom(s, 0);
    assert MatchAt(s, m.value.start, m.value.srcAt, m.value.value);
  }

  /** A captured value is never empty and holds no `"` and no `>`. */
  lemma CapturedValueShape(s: string, i: nat, q: nat, v: string)
    requires MatchAt(s, i, q, v)
    ensures |v| > 0 && '"' !in v && '>' !in v
  {
  }

  /** For given positions, the captured value is determined. */
  lemma MatchValueUnique(s: string, i: nat, q: nat, v: string, w: string)
    requires MatchAt(s, i, q, v) && MatchAt(s, i, q, w)
    ensures v == w
  {
    SrcCaptureAtSpec(s, i, q, v);
    SrcCaptureAtSpec(s, i, q, w);
  }
}
