/** The partial round trip between the combined Markdown export (mdkv/services/export.py,
    `to_markdown`) and the editor's reader (mdkv/gui/static/main.js, `parseCombinedTracks`). */
module RoundTrip {
  import opened Wrappers
  import opened Text
  import opened Model
  import opened Export
  import opened CombinedParser

  /** `x` contains no "<!--". */
  predicate NoOpener(x: string) {
    forall k :: 0 <= k < |x| ==> !OpenAt(x, k)
  }

  /** What the reader needs of a header: an id without whitespace, and no '>' in the type or
      the language text before the closing "-->". */
  predicate HeaderReadable(t: Track) {
    t.trackId != [] && NoSpace(t.trackId) && '>' !in t.trackType && '>' !in LangText(t.language)
  }

  /** What the reader needs of an exported track: a readable header and no "<!--" in the
      content. */
  predicate Parsable(t: Track) {
    HeaderReadable(t) && NoOpener(t.content)
  }

  // ---- scanning over text that cannot start a match

  lemma {:induction false} ScanSkip(s: string, lo: nat, hi: nat)
    requires lo <= hi <= |s|
    requires forall p :: lo <= p < hi ==> !OpenAt(s, p)
    ensures NextMatch(s, lo) == NextMatch(s, hi)
    decreases hi - lo
  {
    if lo < hi {
      assert MatchAt(s, lo) == None;
      ScanSkip(s, lo + 1, hi);
    }
  }

  lemma {:induction false} FirstGtSkip(s: string, i: nat, j: nat)
    requires i <= j <= |s|
    requires forall k :: i <= k < j ==> s[k] != '>'
    ensures FirstGt(s, i) == FirstGt(s, j)
    decreases j - i
  {
    if i < j {
      FirstGtSkip(s, i + 1, j);
    }
  }

  lemma {:induction false} CharsOf(w: string, o: nat, x: string)
    requires o + |x| <= |w| && w[o..o + |x|] == x
    ensures forall k :: o <= k < o + |x| ==> w[k] == x[k - o]
  {
    forall k | o <= k < o + |x| ensures w[k] == x[k - o] {
      assert w[k] == w[o..o + |x|][k - o];
    }
  }

  lemma {:induction false} OpenerPart(w: string, o: nat)
    requires o + 11 <= |w| && w[o..o + 11] == "<!-- track:"
    ensures OpenAt(w, o) && SkipSpace(w, o + 4) == o + 5 && TrackKeyAt(w, o + 5)
  {
    CharsOf(w, o, "<!-- track:");
    assert w[o] == '<' && w[o + 1] == '!' && w[o + 2] == '-' && w[o + 3] == '-';
    assert w[o + 4] == ' ' && w[o + 5] == 't';
    SkipSpaceStops(w, o + 4, o + 5);
    assert w[o + 6] == 'r' && w[o + 7] == 'a' && w[o + 8] == 'c' && w[o + 9] == 'k' && w[o + 10] == ':';
  }

  lemma {:induction false} IdPart(w: string, b: nat, id: string)
    requires b + |id| < |w| && w[b..b + |id|] == id && NoSpace(id) && w[b + |id|] == ' '
    ensures Word(w, b) == id
  {
    forall k | b <= k < b + |id| ensures !IsSpace(w[k]) {
      assert w[k] == id[k - b];
    }
    WordStops(w, b, b + |id|);
  }

  lemma {:induction false} TypePart(w: string, c: nat)
    requires c + 6 <= |w| && w[c..c + 6] == " type:"
    ensures SkipSpace(w, c) == c + 1 && TypeKeyAt(w, c + 1)
  {
    assert w[c] == ' ' && w[c + 1] == 't';
    SkipSpaceStops(w, c, c + 1);
    assert w[c + 2] == 'y' && w[c + 3] == 'p' && w[c + 4] == 'e' && w[c + 5] == ':';
  }

  lemma {:induction false} ClosePart(w: string, i: nat, rest: string)
    requires i + |rest| + 4 <= |w| && w[i..i + |rest|] == rest && '>' !in rest
    requires w[i + |rest|..i + |rest| + 4] == " -->"
    ensures FirstGt(w, i) == i + |rest| + 3
    ensures w[i + |rest| + 1] == '-' && w[i + |rest| + 2] == '-'
  {
    var e := i + |rest|;
    forall k | i <= k < e ensures w[k] != '>' {
      assert w[k] == rest[k - i];
    }
    FirstGtSkip(w, i, e);
    assert w[e] == ' ' && w[e + 1] == '-' && w[e + 2] == '-' && w[e + 3] == '>';
    FirstGtSkip(w, e, e + 3);
    FirstGtStops(w, e + 3, e + 3);
  }

  /** A header laid out as "<!-- track:" + id + " type:" + rest + " -->" at `o` matches, with
      the id as its capture, when the id is non-empty without whitespace and the rest has
      no '>'. */
  lemma {:induction false} MatchOfHeader(w: string, o: nat, id: string, rest: string)
    requires o + 21 + |id| + |rest| <= |w|
    requires w[o..o + 11] == "<!-- track:"
    requires w[o + 11..o + 11 + |id|] == id
    requires w[o + 11 + |id|..o + 17 + |id|] == " type:"
    requires w[o + 17 + |id|..o + 17 + |id| + |rest|] == rest
    requires w[o + 17 + |id| + |rest|..o + 21 + |id| + |rest|] == " -->"
    requires id != [] && NoSpace(id) && '>' !in rest
    ensures MatchAt(w, o) == Some(HeaderMatch(o, id, 21 + |id| + |rest|))
  {
    var c := o + 11 + |id|;
    OpenerPart(w, o);
    assert w[c] == w[c..c + 6][0];
    IdPart(w, o + 11, id);
    TypePart(w, c);
    ClosePart(w, c + 6, rest);
    KeyTail(w, o, o + 5, id, c + 1, c + 9 + |rest|);
  }

  /** The part of the pattern after `<!--\s*`, once each step is known to succeed. */
  lemma KeyTail(s: string, p: nat, a: nat, id: string, d: nat, g: nat)
    requires p + 4 <= a && a + 6 + |id| < d && d + 7 <= g < |s|
    requires TrackKeyAt(s, a) && Word(s, a + 6) == id && id != []
    requires SkipSpace(s, a + 6 + |id|) == d && TypeKeyAt(s, d)
    requires FirstGt(s, d + 5) == g && s[g - 2] == '-' && s[g - 1] == '-'
    ensures MatchFromKey(s, p, a) == Some(HeaderMatch(p, id, g + 1 - p))
  {
  }

  // ---- slices of concatenations

  lemma {:induction false} SliceSplit(w: string, o: nat, x: string, y: string)
    requires o + |x| + |y| <= |w| && w[o..o + |x| + |y|] == x + y
    ensures w[o..o + |x|] == x && w[o + |x|..o + |x| + |y|] == y
  {
    assert w[o..o + |x|] == w[o..o + |x| + |y|][..|x|];
    assert w[o + |x|..o + |x| + |y|] == w[o..o + |x| + |y|][|x|..];
  }

  /** Where the pieces of an exported header comment stand. */
  lemma {:induction false} HeaderLayout(w: string, o: nat, t: Track, rest: string)
    requires o + |HeaderComment(t)| <= |w| && w[o..o + |HeaderComment(t)|] == HeaderComment(t)
    requires rest == t.trackType + " lang:" + LangText(t.language)
    ensures var id := t.trackId;
            |HeaderComment(t)| == 21 + |id| + |rest|
            && w[o..o + 11] == "<!-- track:"
            && w[o + 11..o + 11 + |id|] == id
            && w[o + 11 + |id|..o + 17 + |id|] == " type:"
            && w[o + 17 + |id|..o + 17 + |id| + |rest|] == rest
            && w[o + 17 + |id| + |rest|..o + 21 + |id| + |rest|] == " -->"
  {
    var id := t.trackId;
    var p1 := "<!-- track:" + id;
    var p2 := p1 + " type:";
    var p3 := p2 + rest;
    assert HeaderComment(t) == p3 + " -->";
    SliceSplit(w, o, p3, " -->");
    SliceSplit(w, o, p2, rest);
    SliceSplit(w, o, p1, " type:");
    SliceSplit(w, o, "<!-- track:", id);
  }

  /** An exported header comment matches where it stands, capturing the track id. */
  lemma {:induction false} HeaderMatchAt(w: string, o: nat, t: Track)
    requires o + |HeaderComment(t)| <= |w| && w[o..o + |HeaderComment(t)|] == HeaderComment(t)
    requires HeaderReadable(t)
    ensures MatchAt(w, o) == Some(HeaderMatch(o, t.trackId, |HeaderComment(t)|))
  {
    var rest := t.trackType + " lang:" + LangText(t.language);
    HeaderLayout(w, o, t, rest);
    assert '>' !in rest;
    HeaderMatchOf(w, o, t.trackId, rest, |HeaderComment(t)|);
  }

  /** `MatchOfHeader`, with the length of the header given. */
  lemma {:induction false} HeaderMatchOf(w: string, o: nat, id: string, rest: string, len: nat)
    requires len == 21 + |id| + |rest| && o + len <= |w|
    requires w[o..o + 11] == "<!-- track:"
    requires w[o + 11..o + 11 + |id|] == id
    requires w[o + 11 + |id|..o + 17 + |id|] == " type:"
    requires w[o + 17 + |id|..o + 17 + |id| + |rest|] == rest
    requires w[o + 17 + |id| + |rest|..o + 21 + |id| + |rest|] == " -->"
    requires id != [] && NoSpace(id) && '>' !in rest
    ensures MatchAt(w, o) == Some(HeaderMatch(o, id, len))
  {
    MatchOfHeader(w, o, id, rest);
  }

  // ---- regions where no match starts

  /** No match starts on a character other than '<'. */
  lemma {:induction false} NoLtWithin(w: string, lo: nat, x: string)
    requires lo + |x| <= |w| && w[lo..lo + |x|] == x && '<' !in x
    ensures NextMatch(w, lo) == NextMatch(w, lo + |x|)
  {
    forall p | lo <= p < lo + |x| ensures !OpenAt(w, p) {
      assert w[p] == x[p - lo];
    }
    ScanSkip(w, lo, lo + |x|);
  }

  /** No match starts inside a text without "<!--" when the character after it cannot
      continue one. */
  lemma {:induction false} NoOpenerWithin(w: string, lo: nat, x: string)
    requires lo + |x| <= |w| && w[lo..lo + |x|] == x && NoOpener(x)
    requires lo + |x| == |w| || (w[lo + |x|] != '!' && w[lo + |x|] != '-')
    ensures NextMatch(w, lo) == NextMatch(w, lo + |x|)
  {
    forall p | lo <= p < lo + |x| ensures !OpenAt(w, p) {
      if p + 4 <= lo + |x| {
        var q := p - lo;
        assert !OpenAt(x, q);
        assert w[p] == x[q] && w[p + 1] == x[q + 1] && w[p + 2] == x[q + 2] && w[p + 3] == x[q + 3];
      }
    }
    ScanSkip(w, lo, lo + |x|);
  }

  // ---- one exported track, and the title line

  lemma {:induction false} SuffixSplit(w: string, lo: nat, x: string, y: string)
    requires lo <= |w| && w[lo..] == x + y
    ensures lo + |x| <= |w| && w[lo..lo + |x|] == x && w[lo + |x|..] == y
  {
    assert w[lo..lo + |x|] == w[lo..][..|x|];
    assert w[lo + |x|..] == w[lo..][|x|..];
  }

  /** The four parts of a segment, where it stands in `w`. */
  lemma {:induction false} SegmentLayout(w: string, lo: nat, t: Track)
    requires lo + |Segment(t)| <= |w| && w[lo..lo + |Segment(t)|] == Segment(t)
    ensures var b := lo + 2 + |HeaderComment(t)|;
            b + 2 + |t.content| == lo + |Segment(t)|
            && w[lo..lo + 2] == "\n\n" && w[lo + 2..b] == HeaderComment(t)
            && w[b..b + 2] == "\n\n" && w[b + 2..b + 2 + |t.content|] == t.content
  {
    var h := HeaderComment(t);
    SliceSplit(w, lo, "\n\n" + h + "\n\n", t.content);
    SliceSplit(w, lo, "\n\n" + h, "\n\n");
    SliceSplit(w, lo, "\n\n", h);
  }

  /** A blank line and then a header: the header is the next match. */
  lemma {:induction false} BlankThenHeader(w: string, lo: nat, t: Track)
    requires HeaderReadable(t)
    requires lo + 2 + |HeaderComment(t)| <= |w| && w[lo..lo + 2] == "\n\n"
    requires w[lo + 2..lo + 2 + |HeaderComment(t)|] == HeaderComment(t)
    ensures NextMatch(w, lo) == Some(HeaderMatch(lo + 2, t.trackId, |HeaderComment(t)|))
  {
    NoLtWithin(w, lo, "\n\n");
    HeaderMatchAt(w, lo + 2, t);
  }

  /** A blank line and then a text without "<!--" hold no match. */
  lemma {:induction false} BlankThenText(w: string, b: nat, c: string)
    requires b + 2 + |c| <= |w| && w[b..b + 2] == "\n\n" && w[b + 2..b + 2 + |c|] == c && NoOpener(c)
    requires b + 2 + |c| == |w| || w[b + 2 + |c|] == '\n'
    ensures NextMatch(w, b) == NextMatch(w, b + 2 + |c|)
  {
    NoLtWithin(w, b, "\n\n");
    NoOpenerWithin(w, b + 2, c);
  }

  /** The reader finds a track's header two characters into its segment, and nothing
      else before the segment ends, when the segment is last or followed by a line break. */
  lemma {:induction false} SegmentScan(w: string, lo: nat, t: Track)
    requires Parsable(t)
    requires lo + |Segment(t)| <= |w| && w[lo..lo + |Segment(t)|] == Segment(t)
    requires lo + |Segment(t)| == |w| || w[lo + |Segment(t)|] == '\n'
    ensures NextMatch(w, lo) == Some(HeaderMatch(lo + 2, t.trackId, |HeaderComment(t)|))
    ensures NextMatch(w, lo + 2 + |HeaderComment(t)|) == NextMatch(w, lo + |Segment(t)|)
  {
    SegmentLayout(w, lo, t);
    BlankThenHeader(w, lo, t);
    BlankThenText(w, lo + 2 + |HeaderComment(t)|, t.content);
  }

  /** The "<!--" of the title line is followed by "MDKV:", not "track:". */
  lemma {:induction false} TitleOpenerFails(w: string)
    requires 11 <= |w| && w[0..11] == "<!-- MDKV: "
    ensures MatchAt(w, 0) == None
  {
    assert w[4] == ' ' && w[5] == 'M';
    SkipSpaceStops(w, 4, 5);
  }

  lemma {:induction false} TitleOpenerRest(w: string)
    requires 11 <= |w| && w[0..11] == "<!-- MDKV: "
    ensures w[1..11] == "!-- MDKV: "
  {
  }

  /** No match starts in the first eleven characters of the title line. */
  lemma {:induction false} TitleOpener(w: string)
    requires 11 <= |w| && w[0..11] == "<!-- MDKV: "
    ensures NextMatch(w, 0) == NextMatch(w, 11)
  {
    TitleOpenerFails(w);
    TitleOpenerRest(w);
    NoLtWithin(w, 1, "!-- MDKV: ");
  }

  /** The title line holds no match when the title has no "<!--": its own "<!--" is followed
      by "MDKV:", not "track:". */
  lemma {:induction false} TitleScan(w: string, title: string)
    requires NoOpener(title)
    requires |TitleLine(title)| <= |w| && w[..|TitleLine(title)|] == TitleLine(title)
    requires |TitleLine(title)| == |w| || w[|TitleLine(title)|] == '\n'
    ensures NextMatch(w, 0) == NextMatch(w, |TitleLine(title)|)
  {
    var n := |TitleLine(title)|;
    assert w[0..n] == w[..n];
    SliceSplit(w, 0, "<!-- MDKV: " + title, " -->");
    SliceSplit(w, 0, "<!-- MDKV: ", title);
    TitleOpener(w);
    assert w[11 + |title|] == ' ';
    NoOpenerWithin(w, 11, title);
    NoLtWithin(w, 11 + |title|, " -->");
  }

  // ---- the layout of the exported tracks

  lemma {:induction false} ConcatConcat(x: seq<string>, y: seq<string>)
    ensures Concat(x + y) == Concat(x) + Concat(y)
  {
    if x == [] {
      assert x + y == y;
    } else {
      assert (x + y)[1..] == x[1..] + y;
      ConcatConcat(x[1..], y);
    }
  }

  /** `parts` are the exported texts of the tracks `ks`, one for one. */
  predicate SegmentsOf(parts: seq<string>, ks: seq<Track>) {
    |parts| == |ks| && forall j :: 0 <= j < |ks| ==> parts[j] == Segment(ks[j])
  }

  lemma {:induction false} SegmentsAreSegments(ks: seq<Track>)
    ensures SegmentsOf(Segments(ks), ks)
  {
    forall j | 0 <= j < |ks| ensures Segments(ks)[j] == Segment(ks[j]) {
      SegmentsAt(ks, j);
    }
  }

  lemma {:induction false} SegmentsOfTail(parts: seq<string>, ks: seq<Track>)
    requires SegmentsOf(parts, ks) && ks != []
    ensures SegmentsOf(parts[1..], ks[1..])
  {
    forall j | 0 <= j < |ks| - 1 ensures parts[1..][j] == Segment(ks[1..][j]) {
      assert parts[1..][j] == parts[j + 1] && ks[1..][j] == ks[j + 1];
    }
  }

  /** The exported tracks start with a blank line, or are empty. */
  lemma {:induction false} SegmentsStart(parts: seq<string>, ks: seq<Track>)
    requires SegmentsOf(parts, ks)
    ensures var x := Concat(parts);
            (ks == [] <==> x == []) && (x != [] ==> |x| >= 2 && x[0] == '\n' && x[1] == '\n')
  {
    if ks != [] {
      assert Concat(parts) == parts[0] + Concat(parts[1..]);
      assert parts[0] == Segment(ks[0]);
      SegmentStart(ks[0]);
      assert Concat(parts)[..2] == parts[0][..2];
    }
  }

  /** The matches the reader should find in the tracks exported from offset `off` on. */
  function Expected(off: nat, ks: seq<Track>): (r: seq<HeaderMatch>)
    ensures |r| == |ks|
    decreases |ks|
  {
    if ks == [] then []
    else [HeaderMatch(off + 2, ks[0].trackId, |HeaderComment(ks[0])|)] + Expected(off + |Segment(ks[0])|, ks[1..])
  }

  /** Match `i` is the header of track `i`, two characters after the tracks before it. */
  lemma {:induction false} ExpectedAt(off: nat, ks: seq<Track>, parts: seq<string>, i: nat)
    requires SegmentsOf(parts, ks) && i < |ks|
    ensures Expected(off, ks)[i]
            == HeaderMatch(off + |Concat(parts[..i])| + 2, ks[i].trackId, |HeaderComment(ks[i])|)
    decreases |ks|
  {
    if i == 0 {
      assert parts[..0] == [];
    } else {
      SegmentsOfTail(parts, ks);
      ExpectedAt(off + |Segment(ks[0])|, ks[1..], parts[1..], i - 1);
      assert parts[..i][1..] == parts[1..][..i - 1];
      assert parts[..i][0] == Segment(ks[0]);
    }
  }

  /** Two scan positions with the same next match collect the same matches. */
  lemma {:induction false} SameNextSameAll(s: string, x: nat, y: nat)
    requires x <= |s| && y <= |s| && NextMatch(s, x) == NextMatch(s, y)
    ensures AllMatches(s, x) == AllMatches(s, y)
  {
  }

  /** Started at `lo`, the reader's next match is `m`, and after `m` it goes on as from `hi`. */
  predicate Link(w: string, lo: nat, hi: nat, m: HeaderMatch) {
    lo <= hi <= |w| && NextMatch(w, lo) == Some(m) && NextMatch(w, m.index + m.headerLen) == NextMatch(w, hi)
  }

  /** Started at each of `pos` but the last, the reader links to the next position through
      the match of the same index. */
  predicate Chain(w: string, pos: seq<nat>, ms: seq<HeaderMatch>) {
    |pos| == |ms| + 1 && pos[|ms|] <= |w| && forall j :: 0 <= j < |ms| ==> Link(w, pos[j], pos[j + 1], ms[j])
  }

  /** Across a link the reader collects its match and then what it collects from `hi`. */
  lemma {:induction false} LinkStep(w: string, lo: nat, hi: nat, m: HeaderMatch)
    requires Link(w, lo, hi, m)
    ensures AllMatches(w, lo) == [m] + AllMatches(w, hi)
  {
    MatchesStep(w, lo, m);
    SameNextSameAll(w, m.index + m.headerLen, hi);
  }

  /** Along a chain that ends where nothing is found, the reader collects the rest of it. */
  lemma {:induction false} ChainCollects(w: string, pos: seq<nat>, ms: seq<HeaderMatch>, i: nat)
    requires Chain(w, pos, ms) && i <= |ms| && AllMatches(w, pos[|ms|]) == []
    ensures pos[i] <= |w| && AllMatches(w, pos[i]) == ms[i..]
    decreases |ms| - i
  {
    if i < |ms| {
      assert Link(w, pos[i], pos[i + 1], ms[i]);
      LinkStep(w, pos[i], pos[i + 1], ms[i]);
      ChainCollects(w, pos, ms, i + 1);
      assert ms[i..] == [ms[i]] + ms[i + 1..];
    }
  }

  /** The reader finds nothing at the end of the text. */
  lemma {:induction false} NoMatchAtEnd(w: string)
    ensures AllMatches(w, |w|) == []
  {
    assert MatchAt(w, |w|) == None;
  }

  /** Part `j` of the exported tracks stands from `lo` to `hi`, and is last or followed by a
      line break. */
  lemma {:induction false} PartSegmentAt(w: string, from: nat, parts: seq<string>, ks: seq<Track>, j: nat,
                                         lo: nat, hi: nat)
    requires from <= |w| && w[from..] == Concat(parts) && SegmentsOf(parts, ks) && BlankStarts(parts)
    requires j < |ks|
    requires lo == from + |Concat(parts[..j])| && hi == from + |Concat(parts[..j + 1])|
    ensures hi == lo + |Segment(ks[j])| <= |w| && w[lo..hi] == Segment(ks[j])
    ensures hi == |w| || w[hi] == '\n'
  {
    var gap := if j + 1 < |parts| then "\n\n" else "";
    if j + 1 < |parts| {
      assert |parts[j + 1]| >= 2 && parts[j + 1][..2] == "\n\n";
    }
    PartGapAt(w, from, parts, j, gap, lo, lo + |parts[j]|);
    if j + 1 < |parts| {
      assert w[hi] == w[hi..hi + |gap|][0];
    }
    assert parts[j] == Segment(ks[j]);
  }

  /** A segment from `lo` to `hi`, last or followed by a line break: the reader's next match
      is its header `m`, and after `m` the reader goes on as from `hi`. */
  lemma {:induction false} SegmentLink(w: string, lo: nat, hi: nat, t: Track, m: HeaderMatch)
    requires Parsable(t)
    requires hi == lo + |Segment(t)| <= |w| && w[lo..hi] == Segment(t)
    requires hi == |w| || w[hi] == '\n'
    requires m == HeaderMatch(lo + 2, t.trackId, |HeaderComment(t)|)
    ensures Link(w, lo, hi, m)
  {
    SegmentScan(w, lo, t);
  }

  /** The start offsets of the parts, and the end of the last one. */
  function Offsets(from: nat, parts: seq<string>): (pos: seq<nat>)
    ensures |pos| == |parts| + 1
    ensures forall j :: 0 <= j <= |parts| ==> pos[j] == from + |Concat(parts[..j])|
  {
    seq(|parts| + 1, j requires 0 <= j <= |parts| => from + |Concat(parts[..j])|)
  }

  /** The parts of the exported tracks make a chain of the reader's steps. */
  lemma {:induction false} PartsChain(w: string, from: nat, parts: seq<string>, ks: seq<Track>,
                                      ms: seq<HeaderMatch>)
    requires from <= |w| && w[from..] == Concat(parts) && SegmentsOf(parts, ks) && BlankStarts(parts)
    requires forall k :: 0 <= k < |ks| ==> Parsable(ks[k])
    requires ExpectedOf(ms, from, parts, ks)
    ensures Chain(w, Offsets(from, parts), ms)
    ensures Offsets(from, parts)[|ms|] == |w|
  {
    var pos := Offsets(from, parts);
    forall j | 0 <= j < |ms| ensures Link(w, pos[j], pos[j + 1], ms[j]) {
      PartSegmentAt(w, from, parts, ks, j, pos[j], pos[j + 1]);
      SegmentLink(w, pos[j], pos[j + 1], ks[j], ms[j]);
    }
    assert parts[..|ms|] == parts;
  }

  /** From where the exported tracks start, the reader finds exactly their headers. */
  lemma {:induction false} MatchesFrom(w: string, from: nat, ks: seq<Track>, parts: seq<string>)
    requires from <= |w| && w[from..] == Concat(parts) && SegmentsOf(parts, ks)
    requires forall k :: 0 <= k < |ks| ==> Parsable(ks[k])
    ensures AllMatches(w, from) == Expected(from, ks)
  {
    var pos := Offsets(from, parts);
    var ms := Expected(from, ks);
    ExpectedIsExpected(from, ks, parts);
    SegmentsBlankStarts(parts, ks);
    PartsChain(w, from, parts, ks, ms);
    NoMatchAtEnd(w);
    ChainCollects(w, pos, ms, 0);
    assert parts[..0] == [];
  }

  // ---- the sections

  /** What the reader leaves after a track's content: the blank line before the next header. */
  function Gap(ks: seq<Track>, i: nat): string {
    if i + 1 < |ks| then "\n\n" else ""
  }

  lemma {:induction false} LStripBlankLine(x: string)
    ensures LStrip("\n\n" + x) == LStrip(x)
  {
    assert ("\n\n" + x)[1..] == "\n" + x;
    assert ("\n" + x)[1..] == x;
  }

  lemma {:induction false} SliceJoin(w: string, i: nat, j: nat, k: nat)
    requires i <= j <= k <= |w|
    ensures w[i..k] == w[i..j] + w[j..k]
  {
  }

  /** The text between the end of a track's header and the next header (or the end). */
  lemma {:induction false} ContentSlice(w: string, lo: nat, seg: string, h: string, c: string, gap: string)
    requires seg == "\n\n" + h + "\n\n" + c
    requires lo + |seg| + |gap| <= |w| && w[lo..lo + |seg|] == seg
    requires w[lo + |seg|..lo + |seg| + |gap|] == gap
    ensures w[lo + 2 + |h|..lo + |seg| + |gap|] == "\n\n" + (c + gap)
  {
    assert seg == ("\n\n" + h) + ("\n\n" + c);
    SliceSplit(w, lo, "\n\n" + h, "\n\n" + c);
    var b := lo + 2 + |h|;
    var n := lo + |seg|;
    SliceJoin(w, b, n, n + |gap|);
  }

  lemma {:induction false} ConcatSplitAt(parts: seq<string>, i: nat)
    requires i < |parts|
    ensures Concat(parts) == Concat(parts[..i]) + (parts[i] + Concat(parts[i + 1..]))
  {
    assert parts == parts[..i] + parts[i..];
    ConcatConcat(parts[..i], parts[i..]);
    assert parts[i..][1..] == parts[i + 1..];
  }

  /** Where part `i` stands in a text that ends with the concatenation of the parts. */
  lemma {:induction false} PartAt(w: string, from: nat, parts: seq<string>, i: nat)
    requires from <= |w| && w[from..] == Concat(parts) && i < |parts|
    ensures var lo := from + |Concat(parts[..i])|;
            var hi := lo + |parts[i]|;
            hi <= |w| && w[lo..hi] == parts[i] && w[hi..] == Concat(parts[i + 1..])
            && |Concat(parts[..i + 1])| == |Concat(parts[..i])| + |parts[i]|
  {
    var lo := from + |Concat(parts[..i])|;
    ConcatSplitAt(parts, i);
    SuffixSplit(w, from, Concat(parts[..i]), parts[i] + Concat(parts[i + 1..]));
    SuffixSplit(w, lo, parts[i], Concat(parts[i + 1..]));
    assert parts[..i + 1] == parts[..i] + [parts[i]];
    ConcatAppend(parts[..i], parts[i]);
  }

  /** A segment starts with a blank line. */
  lemma {:induction false} SegmentStart(t: Track)
    ensures |Segment(t)| >= 2 && Segment(t)[..2] == "\n\n"
  {
  }

  lemma {:induction false} ConcatHead(w: string, hi: nat, parts: seq<string>)
    requires hi <= |w| && w[hi..] == Concat(parts) && parts != [] && |parts[0]| >= 2
    ensures hi + 2 <= |w| && w[hi..hi + 2] == parts[0][..2]
  {
    assert Concat(parts) == parts[0] + Concat(parts[1..]);
    assert w[hi..hi + 2] == Concat(parts)[..2];
  }

  /** Part `i` of a concatenation where every later part starts with a blank line: where it
      stands, and the blank line or the end of the text after it. */
  lemma {:induction false} PartGapAt(w: string, from: nat, parts: seq<string>, i: nat, gap: string,
                                     lo: nat, hi: nat)
    requires from <= |w| && w[from..] == Concat(parts) && i < |parts|
    requires i + 1 < |parts| ==> |parts[i + 1]| >= 2 && parts[i + 1][..2] == "\n\n"
    requires gap == if i + 1 < |parts| then "\n\n" else ""
    requires lo == from + |Concat(parts[..i])| && hi == lo + |parts[i]|
    ensures hi + |gap| <= |w| && w[lo..hi] == parts[i] && w[hi..hi + |gap|] == gap
    ensures i + 1 == |parts| ==> hi == |w|
    ensures |Concat(parts[..i + 1])| == |Concat(parts[..i])| + |parts[i]|
  {
    PartAt(w, from, parts, i);
    var after := parts[i + 1..];
    if i + 1 < |parts| {
      assert after[0] == parts[i + 1];
      ConcatHead(w, hi, after);
    } else {
      assert after == [];
    }
  }

  /** A section whose text is a blank line and then `x` holds `x` without leading whitespace. */
  lemma {:induction false} SectionFromSlice(w: string, ms: seq<HeaderMatch>, i: nat, st: nat, e: nat, x: string)
    requires Ordered(w, ms) && i < |ms|
    requires ms[i].index + ms[i].headerLen == st && SectionEnd(w, ms, i) == e
    requires st <= e <= |w| && w[st..e] == "\n\n" + x
    ensures Sections(w, ms)[i] == Section(ms[i].id, LStrip(x))
  {
    SectionAt(w, ms, i);
    LStripBlankLine(x);
  }

  /** The section the reader makes of one exported segment at `lo`, when its match is the
      segment's header and its section ends where the segment and the gap after it end. */
  lemma {:induction false} SectionOfSegment(w: string, ms: seq<HeaderMatch>, i: nat, lo: nat, seg: string,
                                            t: Track, gap: string)
    requires Ordered(w, ms) && i < |ms| && seg == Segment(t)
    requires lo + |seg| + |gap| <= |w| && w[lo..lo + |seg|] == seg && w[lo + |seg|..lo + |seg| + |gap|] == gap
    requires ms[i] == HeaderMatch(lo + 2, t.trackId, |HeaderComment(t)|)
    requires i + 1 < |ms| ==> ms[i + 1].index == lo + |seg| + |gap|
    requires i + 1 == |ms| ==> lo + |seg| + |gap| == |w|
    ensures Sections(w, ms)[i] == Section(t.trackId, LStrip(t.content + gap))
  {
    ContentSlice(w, lo, seg, HeaderComment(t), t.content, gap);
    SectionFromSlice(w, ms, i, lo + 2 + |HeaderComment(t)|, lo + |seg| + |gap|, t.content + gap);
  }

  /** `ms` are the headers of the tracks `ks` exported as `parts` from offset `from` on. */
  predicate ExpectedOf(ms: seq<HeaderMatch>, from: nat, parts: seq<string>, ks: seq<Track>)
    requires |parts| == |ks|
  {
    |ms| == |ks|
    && forall j :: 0 <= j < |ks| ==>
         ms[j] == HeaderMatch(from + |Concat(parts[..j])| + 2, ks[j].trackId, |HeaderComment(ks[j])|)
  }

  lemma {:induction false} ExpectedIsExpected(from: nat, ks: seq<Track>, parts: seq<string>)
    requires SegmentsOf(parts, ks)
    ensures ExpectedOf(Expected(from, ks), from, parts, ks)
  {
    forall j | 0 <= j < |ks|
      ensures Expected(from, ks)[j]
              == HeaderMatch(from + |Concat(parts[..j])| + 2, ks[j].trackId, |HeaderComment(ks[j])|)
    {
      ExpectedAt(from, ks, parts, j);
    }
  }

  /** Every part starts with a blank line. */
  predicate BlankStarts(parts: seq<string>) {
    forall j :: 0 <= j < |parts| ==> |parts[j]| >= 2 && parts[j][..2] == "\n\n"
  }

  lemma {:induction false} SegmentsBlankStarts(parts: seq<string>, ks: seq<Track>)
    requires SegmentsOf(parts, ks)
    ensures BlankStarts(parts)
  {
    forall j | 0 <= j < |parts| ensures |parts[j]| >= 2 && parts[j][..2] == "\n\n" {
      assert parts[j] == Segment(ks[j]);
      SegmentStart(ks[j]);
    }
  }

  /** The section the reader makes of part `i` of the exported tracks, when that part is the
      segment of `t`, the next part starts with a blank line and the matches are the parts'
      headers. */
  lemma {:induction false} SectionOfPart(w: string, from: nat, parts: seq<string>, ms: seq<HeaderMatch>,
                                         i: nat, t: Track, gap: string)
    requires from <= |w| && w[from..] == Concat(parts) && i < |parts| && |ms| == |parts|
    requires parts[i] == Segment(t) && Ordered(w, ms)
    requires i + 1 < |parts| ==> |parts[i + 1]| >= 2 && parts[i + 1][..2] == "\n\n"
    requires gap == if i + 1 < |parts| then "\n\n" else ""
    requires ms[i] == HeaderMatch(from + |Concat(parts[..i])| + 2, t.trackId, |HeaderComment(t)|)
    requires i + 1 < |ms| ==> ms[i + 1].index == from + |Concat(parts[..i + 1])| + 2
    ensures Sections(w, ms)[i] == Section(t.trackId, LStrip(t.content + gap))
  {
    var lo := from + |Concat(parts[..i])|;
    PartGapAt(w, from, parts, i, gap, lo, lo + |parts[i]|);
    SectionOfSegment(w, ms, i, lo, parts[i], t, gap);
  }

  /** Section `i` of the exported tracks: track `i`'s id and its content, leading whitespace
      removed, with the blank line before the next header kept. */
  lemma {:induction false} SectionOfExport(w: string, from: nat, ks: seq<Track>, parts: seq<string>,
                                           ms: seq<HeaderMatch>, i: nat)
    requires from <= |w| && w[from..] == Concat(parts) && SegmentsOf(parts, ks) && i < |ks|
    requires BlankStarts(parts) && ExpectedOf(ms, from, parts, ks) && Ordered(w, ms)
    ensures Sections(w, ms)[i] == Section(ks[i].trackId, LStrip(ks[i].content + Gap(ks, i)))
  {
    assert parts[i] == Segment(ks[i]);
    assert ms[i] == HeaderMatch(from + |Concat(parts[..i])| + 2, ks[i].trackId, |HeaderComment(ks[i])|);
    if i + 1 < |ks| {
      assert |parts[i + 1]| >= 2 && parts[i + 1][..2] == "\n\n";
      assert ms[i + 1].index == from + |Concat(parts[..i + 1])| + 2;
    }
    SectionOfPart(w, from, parts, ms, i, ks[i], Gap(ks, i));
  }

  /** Reading back the combined export: when the title and every exported content hold no
      "<!--", every exported id is whitespace-free and non-empty and no type or language
      holds '>', the reader finds one section per exported track, in order, with the
      track's id, and its content with leading whitespace removed and, for all but the last
      track, the blank line before the next header kept. */
  lemma {:induction false} ExportParseRoundTrip(v: DocValue, filter: Option<seq<string>>)
    requires NoOpener(v.title)
    requires forall t :: t in Kept(v.tracks, Selection(filter)) ==> Parsable(t)
    ensures var ks := Kept(v.tracks, Selection(filter));
            var ps := Parse(Markdown(v, filter));
            |ps| == |ks|
            && forall i :: 0 <= i < |ks| ==> ps[i] == Section(ks[i].trackId, LStrip(ks[i].content + Gap(ks, i)))
  {
    var ks := Kept(v.tracks, Selection(filter));
    var parts := Segments(ks);
    var tl := TitleLine(v.title);
    var body := Concat(parts);
    var w := tl + body;
    MarkdownLayout(v, filter);
    assert w[..|tl|] == tl && w[|tl|..] == body;
    SegmentsAreSegments(ks);
    SegmentsStart(parts, ks);
    forall k | 0 <= k < |ks| ensures Parsable(ks[k]) {
      assert ks[k] in ks;
    }
    TitleScan(w, v.title);
    SameNextSameAll(w, 0, |tl|);
    MatchesFrom(w, |tl|, ks, parts);
    assert AllMatches(w, |tl|) == Expected(|tl|, ks);
    AllMatchesOrdered(w, 0);
    if ks != [] {
      ExpectedAt(|tl|, ks, parts, 0);
    }
    var ms := Expected(|tl|, ks);
    ExpectedIsExpected(|tl|, ks, parts);
    SegmentsBlankStarts(parts, ks);
    forall i | 0 <= i < |ks|
      ensures Parse(w)[i] == Section(ks[i].trackId, LStrip(ks[i].content + Gap(ks, i)))
    {
      SectionOfExport(w, |tl|, ks, parts, ms, i);
    }
  }

  /** A content that does not start with whitespace comes back unchanged, followed by the
      blank line before the next header unless its track is the last one exported. */
  lemma {:induction false} ExportParseKeepsContent(v: DocValue, filter: Option<seq<string>>, i: nat)
    requires NoOpener(v.title)
    requires forall t :: t in Kept(v.tracks, Selection(filter)) ==> Parsable(t)
    requires var ks := Kept(v.tracks, Selection(filter));
             i < |ks| && ks[i].content != [] && !IsSpace(ks[i].content[0])
    ensures var ks := Kept(v.tracks, Selection(filter));
            |Parse(Markdown(v, filter))| == |ks|
            && Parse(Markdown(v, filter))[i] == Section(ks[i].trackId, ks[i].content + Gap(ks, i))
  {
    ExportParseRoundTrip(v, filter);
  }
}
