/** The editor's reader of the combined Markdown (mdkv/gui/static/main.js, `parseCombinedTracks`):
    every match of `/<!--\s*track:([^\s]+)\s+type:[^>]*?-->/g` opens a section whose id is the
    captured group and whose content runs to the next match, with leading whitespace removed. */
module CombinedParser {
  import opened Wrappers
  import opened Text

  // ---- the pieces of the pattern

  /** Where a greedy `\s*` starting at `i` stops. */
  function SkipSpace(s: string, i: nat): (j: nat)
    requires i <= |s|
    ensures i <= j <= |s|
    decreases |s| - i
  {
    if i < |s| && IsSpace(s[i]) then SkipSpace(s, i + 1) else i
  }

  /** `SkipSpace` stops at the first character that is not whitespace. */
  lemma {:induction false} SkipSpaceStops(s: string, i: nat, j: nat)
    requires i <= j <= |s|
    requires forall k :: i <= k < j ==> IsSpace(s[k])
    requires j == |s| || !IsSpace(s[j])
    ensures SkipSpace(s, i) == j
    decreases j - i
  {
    if i < j {
      SkipSpaceStops(s, i + 1, j);
    }
  }

  /** What a greedy `([^\s]*)` starting at `i` captures. */
  function Word(s: string, i: nat): (w: string)
    requires i <= |s|
    ensures |w| <= |s| - i
    decreases |s| - i
  {
    if i < |s| && !IsSpace(s[i]) then [s[i]] + Word(s, i + 1) else []
  }

  /** The capture is the text from `i` on, runs over non-whitespace only, and stops at
      whitespace or the end. */
  lemma {:induction false} WordRun(s: string, i: nat)
    requires i <= |s|
    ensures Word(s, i) == s[i..i + |Word(s, i)|]
    ensures NoSpace(Word(s, i))
    ensures i + |Word(s, i)| == |s| || IsSpace(s[i + |Word(s, i)|])
    decreases |s| - i
  {
    if i < |s| && !IsSpace(s[i]) {
      WordRun(s, i + 1);
    }
  }

  lemma {:induction false} WordStops(s: string, i: nat, j: nat)
    requires i <= j <= |s|
    requires forall k :: i <= k < j ==> !IsSpace(s[k])
    requires j == |s| || IsSpace(s[j])
    ensures Word(s, i) == s[i..j]
    decreases j - i
  {
    if i < j {
      WordStops(s, i + 1, j);
      assert s[i..j] == [s[i]] + s[i + 1..j];
    }
  }

  /** The first '>' at or after `i`, or `|s|` when there is none. */
  function FirstGt(s: string, i: nat): (j: nat)
    requires i <= |s|
    ensures i <= j <= |s|
    ensures j < |s| ==> s[j] == '>'
    decreases |s| - i
  {
    if i < |s| && s[i] != '>' then FirstGt(s, i + 1) else i
  }

  lemma {:induction false} FirstGtStops(s: string, i: nat, j: nat)
    requires i <= j < |s|
    requires forall k :: i <= k < j ==> s[k] != '>'
    requires s[j] == '>'
    ensures FirstGt(s, i) == j
    decreases j - i
  {
    if i < j {
      FirstGtStops(s, i + 1, j);
    }
  }

  /** The literal `<!--` at `p`. */
  predicate OpenAt(s: string, p: nat) {
    p + 4 <= |s| && s[p] == '<' && s[p + 1] == '!' && s[p + 2] == '-' && s[p + 3] == '-'
  }

  /** The literal `track:` at `p`. */
  predicate TrackKeyAt(s: string, p: nat) {
    p + 6 <= |s| && s[p] == 't' && s[p + 1] == 'r' && s[p + 2] == 'a' && s[p + 3] == 'c' && s[p + 4] == 'k'
    && s[p + 5] == ':'
  }

  /** The literal `type:` at `p`. */
  predicate TypeKeyAt(s: string, p: nat) {
    p + 5 <= |s| && s[p] == 't' && s[p + 1] == 'y' && s[p + 2] == 'p' && s[p + 3] == 'e' && s[p + 4] == ':'
  }

  /** `{ index, id, headerLen }`: where a match starts, its captured id and its length. */
  datatype HeaderMatch = HeaderMatch(index: nat, id: string, headerLen: nat)

  /** The pattern tried at position `p`. Each quantifier in it has one way to succeed:
      `\s*` and `\s+` stop before a letter, `([^\s]+)` must end before whitespace, and the
      lazy `[^>]*?-->` can only end at the first '>', which must close a "-->". */
  function MatchAt(s: string, p: nat): (r: Option<HeaderMatch>)
    requires p <= |s|
    ensures r.Some? ==> r.value.index == p && 0 < r.value.headerLen && p + r.value.headerLen <= |s|
  {
    if OpenAt(s, p) then MatchFromKey(s, p, SkipSpace(s, p + 4)) else None
  }

  /** The rest of the pattern once `<!--\s*` has reached `a`. */
  function MatchFromKey(s: string, p: nat, a: nat): (r: Option<HeaderMatch>)
    requires p + 4 <= a <= |s|
    ensures r.Some? ==> r.value.index == p && 0 < r.value.headerLen && p + r.value.headerLen <= |s|
  {
    if !TrackKeyAt(s, a) then None
    else
      var id := Word(s, a + 6);
      var c := a + 6 + |id|;
      if id == [] then None
      else
        var d := SkipSpace(s, c);
        if d == c || !TypeKeyAt(s, d) then None
        else
          var g := FirstGt(s, d + 5);
          if g == |s| || g < d + 7 || s[g - 2] != '-' || s[g - 1] != '-' then None
          else Some(HeaderMatch(p, id, g + 1 - p))
  }

  /** The part of a match after "<!--\s*": it ends with "-->" and captures a non-empty id
      without whitespace. */
  lemma KeyShape(s: string, p: nat, a: nat)
    requires p + 4 <= a <= |s| && MatchFromKey(s, p, a).Some?
    ensures var m := MatchFromKey(s, p, a).value;
            OccursAt(s, "-->", p + m.headerLen - 3) && m.id != [] && NoSpace(m.id)
  {
    WordRun(s, a + 6);
    var d := SkipSpace(s, a + 6 + |Word(s, a + 6)|);
    var g := FirstGt(s, d + 5);
    assert s[g - 2..g + 1] == "-->";
  }

  /** A match starts with "<!--", ends with "-->", and captures a non-empty id without whitespace. */
  lemma MatchShape(s: string, p: nat)
    requires p <= |s| && MatchAt(s, p).Some?
    ensures var m := MatchAt(s, p).value;
            OccursAt(s, "<!--", p) && OccursAt(s, "-->", p + m.headerLen - 3) && m.id != [] && NoSpace(m.id)
  {
    KeyShape(s, p, SkipSpace(s, p + 4));
    assert s[p..p + 4] == "<!--";
  }

  /** `re.exec(text)` with `re.lastIndex == from`: the match at the first position from `from` on. */
  function NextMatch(s: string, from: nat): (r: Option<HeaderMatch>)
    requires from <= |s|
    ensures r.Some? ==> from <= r.value.index && 0 < r.value.headerLen && r.value.index + r.value.headerLen <= |s|
    decreases |s| - from
  {
    if MatchAt(s, from).Some? then MatchAt(s, from)
    else if from == |s| then None
    else NextMatch(s, from + 1)
  }

  /** Each match ends inside the text and before the next one starts. */
  predicate Ordered(s: string, ms: seq<HeaderMatch>) {
    (forall i :: 0 <= i < |ms| ==> ms[i].index + ms[i].headerLen <= |s|)
    && (forall i, j :: 0 <= i < j < |ms| ==> ms[i].index + ms[i].headerLen <= ms[j].index)
  }

  /** The matches the `exec` loop collects, starting with `lastIndex == from`. */
  function AllMatches(s: string, from: nat): (r: seq<HeaderMatch>)
    requires from <= |s|
    decreases |s| - from + 1, 1
  {
    MatchesAfter(s, from, NextMatch(s, from))
  }

  /** The matches collected once `exec` has returned `r` for `lastIndex == from`. */
  function MatchesAfter(s: string, from: nat, r: Option<HeaderMatch>): (ms: seq<HeaderMatch>)
    requires from <= |s|
    requires r.Some? ==> from <= r.value.index && 0 < r.value.headerLen && r.value.index + r.value.headerLen <= |s|
    decreases if r.Some? then |s| - (r.value.index + r.value.headerLen) + 1 else 0, 2
  {
    match r
    case None => []
    case Some(m) => [m] + AllMatches(s, m.index + m.headerLen)
  }

  /** The matches are found left to right, each past the end of the one before. */
  lemma {:induction false} AllMatchesOrdered(s: string, from: nat)
    requires from <= |s|
    ensures Ordered(s, AllMatches(s, from))
    ensures forall i :: 0 <= i < |AllMatches(s, from)| ==> from <= AllMatches(s, from)[i].index
    decreases |s| - from
  {
    match NextMatch(s, from)
    case None =>
    case Some(m) =>
      AllMatchesOrdered(s, m.index + m.headerLen);
  }

  /** `exec` returns a match of the pattern at the index it reports. */
  lemma {:induction false} NextMatchIsMatch(s: string, from: nat)
    requires from <= |s| && NextMatch(s, from).Some?
    ensures NextMatch(s, from).value.index <= |s|
    ensures MatchAt(s, NextMatch(s, from).value.index) == NextMatch(s, from)
    decreases |s| - from
  {
    if MatchAt(s, from).None? {
      NextMatchIsMatch(s, from + 1);
    }
  }

  /** `exec` returns the leftmost match from `lastIndex` on: no position before the one it
      reports holds a match, and when it returns nothing no position from `lastIndex` does. */
  lemma {:induction false} NextMatchLeftmost(s: string, from: nat)
    requires from <= |s|
    ensures NextMatch(s, from).Some? ==> forall q :: from <= q < NextMatch(s, from).value.index ==> MatchAt(s, q).None?
    ensures NextMatch(s, from).None? ==> forall q :: from <= q <= |s| ==> MatchAt(s, q).None?
    decreases |s| - from
  {
    if MatchAt(s, from).None? && from < |s| {
      NextMatchLeftmost(s, from + 1);
    }
  }

  /** The loop skips no header: every position from the scan start that holds a match is
      where a collected match starts, or lies inside one. */
  lemma {:induction false} AllMatchesCover(s: string, from: nat)
    requires from <= |s|
    ensures forall q :: from <= q <= |s| && MatchAt(s, q).Some? ==>
              exists k :: 0 <= k < |AllMatches(s, from)|
                          && AllMatches(s, from)[k].index <= q < AllMatches(s, from)[k].index + AllMatches(s, from)[k].headerLen
    decreases |s| - from
  {
    NextMatchLeftmost(s, from);
    match NextMatch(s, from)
    case None =>
    case Some(m) =>
      var ms := AllMatches(s, from);
      var rest := AllMatches(s, m.index + m.headerLen);
      MatchesStep(s, from, m);
      AllMatchesCover(s, m.index + m.headerLen);
      forall q | from <= q <= |s| && MatchAt(s, q).Some?
        ensures exists k :: 0 <= k < |ms| && ms[k].index <= q < ms[k].index + ms[k].headerLen
      {
        if q < m.index + m.headerLen {
          assert ms[0] == m;
        } else {
          var k :| 0 <= k < |rest| && rest[k].index <= q < rest[k].index + rest[k].headerLen;
          assert ms[k + 1] == rest[k];
        }
      }
  }

  /** Between two consecutive collected matches, and after the last one, no position holds a
      match: a header found by the pattern is never left out of the sections. */
  lemma NoMatchBetween(s: string, from: nat, k: nat, q: nat)
    requires from <= |s|
    requires k < |AllMatches(s, from)|
    requires AllMatches(s, from)[k].index + AllMatches(s, from)[k].headerLen <= q <= |s|
    requires k + 1 < |AllMatches(s, from)| ==> q < AllMatches(s, from)[k + 1].index
    ensures MatchAt(s, q).None?
  {
    AllMatchesOrdered(s, from);
    AllMatchesCover(s, from);
  }

  /** Every collected match is a match of the pattern where it stands. */
  lemma {:induction false} AllMatchesAreMatches(s: string, from: nat)
    requires from <= |s|
    ensures forall k :: 0 <= k < |AllMatches(s, from)| ==>
              AllMatches(s, from)[k].index <= |s| && MatchAt(s, AllMatches(s, from)[k].index) == Some(AllMatches(s, from)[k])
    decreases |s| - from
  {
    match NextMatch(s, from)
    case None =>
    case Some(m) =>
      NextMatchIsMatch(s, from);
      AllMatchesAreMatches(s, m.index + m.headerLen);
      assert AllMatches(s, from) == [m] + AllMatches(s, m.index + m.headerLen);
  }

  datatype Section = Section(id: string, content: string)

  function SectionEnd(s: string, ms: seq<HeaderMatch>, i: nat): nat
    requires i < |ms|
  {
    if i + 1 < |ms| then ms[i + 1].index else |s|
  }

  /** The sections loop: match `i` opens a section that runs to the next match or the end. */
  function Sections(s: string, ms: seq<HeaderMatch>): (r: seq<Section>)
    requires Ordered(s, ms)
    ensures |r| == |ms|
  {
    seq(|ms|, i requires 0 <= i < |ms| =>
      Section(ms[i].id, LStrip(s[ms[i].index + ms[i].headerLen..SectionEnd(s, ms, i)])))
  }

  /** `parseCombinedTracks`, on values. */
  function Parse(s: string): (r: seq<Section>)
    ensures forall i :: 0 <= i < |r| ==> r[i].content == [] || !IsSpace(r[i].content[0])
  {
    AllMatchesOrdered(s, 0);
    Sections(s, AllMatches(s, 0))
  }

  /** Every section the reader returns has a non-empty id without whitespace. */
  lemma ParsedIds(s: string)
    ensures forall i :: 0 <= i < |Parse(s)| ==> Parse(s)[i].id != [] && NoSpace(Parse(s)[i].id)
  {
    var ms := AllMatches(s, 0);
    AllMatchesOrdered(s, 0);
    AllMatchesAreMatches(s, 0);
    forall i | 0 <= i < |Parse(s)| ensures Parse(s)[i].id != [] && NoSpace(Parse(s)[i].id) {
      assert Parse(s)[i].id == ms[i].id;
      MatchShape(s, ms[i].index);
    }
  }

  /** One turn of the `exec` loop: a match found at `from` or later heads the rest. */
  lemma MatchesStep(s: string, from: nat, m: HeaderMatch)
    requires from <= |s| && NextMatch(s, from) == Some(m)
    ensures AllMatches(s, from) == [m] + AllMatches(s, m.index + m.headerLen)
  {
  }

  lemma AppendAssoc<T>(a: seq<T>, x: T, b: seq<T>)
    ensures a + ([x] + b) == (a + [x]) + b
  {
  }

  /** The `exec` loop keeps `matches + AllMatches(s, lastIndex)` equal to every match. */
  lemma CollectStep(s: string, from: nat, m: HeaderMatch, prefix: seq<HeaderMatch>, all: seq<HeaderMatch>)
    requires from <= |s| && NextMatch(s, from) == Some(m)
    requires prefix + AllMatches(s, from) == all
    ensures (prefix + [m]) + AllMatches(s, m.index + m.headerLen) == all
  {
    MatchesStep(s, from, m);
    AppendAssoc(prefix, m, AllMatches(s, m.index + m.headerLen));
  }

  method CollectMatches(text: string) returns (matches: seq<HeaderMatch>)
    ensures matches == AllMatches(text, 0)
  {
    matches := [];
    var last: nat := 0;
    while true
      invariant last <= |text|
      invariant matches + AllMatches(text, last) == AllMatches(text, 0)
      decreases |text| - last
    {
      var m := NextMatch(text, last);
      if m.None? {
        return;
      }
      CollectStep(text, last, m.value, matches, AllMatches(text, 0));
      matches := matches + [m.value];
      last := m.value.index + m.value.headerLen;
    }
  }

  /** Section `i` as the sections loop computes it. */
  lemma SectionAt(s: string, ms: seq<HeaderMatch>, i: nat)
    requires Ordered(s, ms) && i < |ms|
    ensures ms[i].index + ms[i].headerLen <= SectionEnd(s, ms, i) <= |s|
    ensures Sections(s, ms)[i]
            == Section(ms[i].id, LStrip(s[ms[i].index + ms[i].headerLen..SectionEnd(s, ms, i)]))
  {
  }

  /** The sections loop of `parseCombinedTracks`. */
  method SectionsOf(text: string, matches: seq<HeaderMatch>) returns (sections: seq<Section>)
    requires Ordered(text, matches)
    ensures sections == Sections(text, matches)
  {
    ghost var all := Sections(text, matches);
    sections := [];
    for i := 0 to |matches|
      invariant |sections| == i
      invariant forall k :: 0 <= k < i ==> sections[k] == all[k]
    {
      SectionAt(text, matches, i);
      var start := matches[i].index + matches[i].headerLen;
      var end := if i + 1 < |matches| then matches[i + 1].index else |text|;
      var content := text[start..end];
      content := LStrip(content);
      sections := sections + [Section(matches[i].id, content)];
    }
  }

  /** `parseCombinedTracks` */
  method ParseCombinedTracks(text: string) returns (sections: seq<Section>)
    ensures sections == Parse(text)
  {
    var matches := CollectMatches(text);
    AllMatchesOrdered(text, 0);
    sections := SectionsOf(text, matches);
  }
}
