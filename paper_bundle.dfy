/** The text helpers of the paper bundler (paper/build_paper_bundle.py): splitting YAML front
    matter off a Markdown file, stripping the HTML comments it starts with, and cutting out
    the section under a level-two heading. */
module PaperBundle {
  import opened Wrappers
  import opened Text

  // ---- split_front_matter_and_body

  /** `line.strip() == "---"` */
  predicate IsFence(line: string) {
    Strip(line) == "---"
  }

  /** The first line at or after `from` that is a fence, or `|lines|` when there is none. */
  function Fence(lines: seq<string>, from: nat): (k: nat)
    requires from <= |lines|
    ensures from <= k <= |lines|
    decreases |lines| - from
  {
    if from == |lines| || IsFence(lines[from]) then from else Fence(lines, from + 1)
  }

  lemma {:induction false} FenceFirst(lines: seq<string>, from: nat)
    requires from <= |lines|
    ensures Fence(lines, from) < |lines| ==> IsFence(lines[Fence(lines, from)])
    ensures forall k :: from <= k < Fence(lines, from) ==> !IsFence(lines[k])
    decreases |lines| - from
  {
    if from < |lines| && !IsFence(lines[from]) {
      FenceFirst(lines, from + 1);
    }
  }

  lemma {:induction false} FenceStops(lines: seq<string>, from: nat, k: nat)
    requires from <= k <= |lines|
    requires forall j :: from <= j < k ==> !IsFence(lines[j])
    requires k == |lines| || IsFence(lines[k])
    ensures Fence(lines, from) == k
    decreases k - from
  {
    if from < k {
      FenceStops(lines, from + 1, k);
    }
  }

  /** What `split_front_matter_and_body` returns: the front-matter text handed to
      `yaml.safe_load` (`None` when there is no front matter), and the body. */
  datatype Split = Split(frontMatter: Option<string>, body: string)

  function FrontMatterSplit(text: string): Split {
    var lines := SplitLines(text);
    if |lines| >= 3 && IsFence(lines[0]) && Fence(lines, 1) < |lines| then
      var idx := Fence(lines, 1);
      Split(Some(Join(lines[1..idx], "\n")), Join(lines[idx + 1..], "\n"))
    else Split(None, text)
  }

  /** `split_front_matter_and_body` */
  method SplitFrontMatterAndBody(markdownText: string) returns (frontMatter: Option<string>, body: string)
    ensures Split(frontMatter, body) == FrontMatterSplit(markdownText)
  {
    var lines := SplitLines(markdownText);
    if |lines| >= 3 && IsFence(lines[0]) {
      for idx := 1 to |lines|
        invariant Fence(lines, 1) == Fence(lines, idx)
      {
        if IsFence(lines[idx]) {
          return Some(Join(lines[1..idx], "\n")), Join(lines[idx + 1..], "\n");
        }
      }
    }
    return None, markdownText;
  }

  /** The text comes back unchanged when it has fewer than three lines, does not open with a
      fence, or never closes it; otherwise the body is what follows the first closing fence. */
  lemma FrontMatterSplitSpec(text: string)
    ensures var lines := SplitLines(text);
            (|lines| < 3 || !IsFence(lines[0]) || forall k :: 1 <= k < |lines| ==> !IsFence(lines[k]))
            ==> FrontMatterSplit(text) == Split(None, text)
    ensures var lines := SplitLines(text);
            forall idx :: |lines| >= 3 && IsFence(lines[0]) && 1 <= idx < |lines| && IsFence(lines[idx])
                          && (forall k :: 1 <= k < idx ==> !IsFence(lines[k]))
                          ==> FrontMatterSplit(text)
                              == Split(Some(Join(lines[1..idx], "\n")), Join(lines[idx + 1..], "\n"))
  {
    var lines := SplitLines(text);
    if |lines| >= 1 {
      FenceFirst(lines, 1);
    }
    forall idx | |lines| >= 3 && IsFence(lines[0]) && 1 <= idx < |lines| && IsFence(lines[idx])
                 && (forall k :: 1 <= k < idx ==> !IsFence(lines[k]))
      ensures Fence(lines, 1) == idx
    {
      FenceStops(lines, 1, idx);
    }
  }

  /** A file written as a fence, front-matter lines, a fence and body lines splits back into
      the front-matter lines and the body lines. */
  lemma FrontMatterOfComposed(front: seq<string>, bodyLines: seq<string>)
    requires |front| + |bodyLines| >= 1
    requires forall k :: 0 <= k < |front| ==> !IsFence(front[k])
    requires var lines := ["---"] + front + ["---"] + bodyLines;
             lines[|lines| - 1] != [] && forall k :: 0 <= k < |lines| ==> '\n' !in lines[k]
    ensures FrontMatterSplit(Join(["---"] + front + ["---"] + bodyLines, "\n"))
            == Split(Some(Join(front, "\n")), Join(bodyLines, "\n"))
  {
    var lines := ["---"] + front + ["---"] + bodyLines;
    SplitLinesJoin(lines);
    assert Strip("---") == "---";
    ComposedLines("---", front, bodyLines);
    forall k | 1 <= k < |front| + 1 ensures !IsFence(lines[k]) {
      assert lines[k] == front[k - 1];
    }
    FenceStops(lines, 1, |front| + 1);
  }

  /** Where the parts of a fenced file stand among its lines. */
  lemma ComposedLines(fence: string, front: seq<string>, bodyLines: seq<string>)
    ensures var lines := [fence] + front + [fence] + bodyLines;
            |lines| == |front| + |bodyLines| + 2 && lines[0] == fence && lines[|front| + 1] == fence
            && (forall k :: 1 <= k < |front| + 1 ==> lines[k] == front[k - 1])
            && lines[1..|front| + 1] == front && lines[|front| + 2..] == bodyLines
  {
    var lines := [fence] + front + [fence] + bodyLines;
    assert lines[1..|front| + 1] == front;
    assert lines[|front| + 2..] == bodyLines;
  }

  // ---- strip_leading_html_comments

  /** The `while` loop on text that has been left-stripped: while it opens a comment that is
      closed somewhere, drop everything up to the first "-->" and left-strip again. */
  function StripComments(t: string): string
    decreases |t|
  {
    if StartsWith(t, "<!--") && Find(t, "-->") != -1 then StripComments(LStrip(t[Find(t, "-->") + 3..]))
    else t
  }

  /** `strip_leading_html_comments` on values. */
  function StrippedComments(body: string): string {
    StripComments(LStrip(body))
  }

  /** A turn of the loop removes at least five characters: the first "-->" cannot start
      before the third character of a text that opens with "<!--". */
  lemma CommentStepShrinks(t: string)
    requires StartsWith(t, "<!--") && Find(t, "-->") != -1
    ensures Find(t, "-->") >= 2
    ensures |LStrip(t[Find(t, "-->") + 3..])| <= |t| - 5
  {
    var e := Find(t, "-->");
    assert t[e..e + 3] == "-->";
    assert t[e] == '-';
    assert t[..4] == "<!--";
    assert t[0] == '<' && t[1] == '!';
  }

  lemma LStripKeeps(s: string)
    requires s == [] || !IsSpace(s[0])
    ensures LStrip(s) == s
  {
  }

  lemma EndsWithTrans(a: string, b: string, c: string)
    requires EndsWith(a, b) && EndsWith(b, c)
    ensures EndsWith(a, c)
  {
    assert a[|a| - |c|..] == a[|a| - |b|..][|b| - |c|..];
  }

  lemma {:induction false} StripCommentsShape(t: string)
    requires t == [] || !IsSpace(t[0])
    ensures EndsWith(t, StripComments(t))
    ensures StripComments(t) == [] || !IsSpace(StripComments(t)[0])
    ensures !StartsWith(StripComments(t), "<!--") || Find(StripComments(t), "-->") == -1
    decreases |t|
  {
    if StartsWith(t, "<!--") && Find(t, "-->") != -1 {
      var rest := t[Find(t, "-->") + 3..];
      var next := LStrip(rest);
      StripCommentsShape(next);
      LStripSuffix(rest);
      assert EndsWith(t, rest);
      assert EndsWith(rest, next);
      EndsWithTrans(t, rest, next);
      EndsWithTrans(t, next, StripComments(next));
    }
  }

  /** The result is a suffix of the body, starts with no whitespace, and does not open with a
      comment that is closed. */
  lemma StrippedCommentsShape(body: string)
    ensures var r := StrippedComments(body);
            EndsWith(body, r) && (r == [] || !IsSpace(r[0])) && (!StartsWith(r, "<!--") || Find(r, "-->") == -1)
  {
    var t := LStrip(body);
    LStripSuffix(body);
    StripCommentsShape(t);
    EndsWithTrans(body, t, StripComments(t));
  }

  /** Stripping twice strips nothing more. */
  lemma StrippedCommentsIdempotent(body: string)
    ensures StrippedComments(StrippedComments(body)) == StrippedComments(body)
  {
    var r := StrippedComments(body);
    StrippedCommentsShape(body);
    LStripKeeps(r);
  }

  /** `strip_leading_html_comments` */
  method StripLeadingHtmlComments(markdownBody: string) returns (text: string)
    ensures text == StrippedComments(markdownBody)
  {
    text := LStrip(markdownBody);
    while StartsWith(text, "<!--")
      invariant StripComments(text) == StrippedComments(markdownBody)
      decreases |text|
    {
      var end := Find(text, "-->");
      if end == -1 {
        break;
      }
      text := LStrip(text[end + 3..]);
    }
  }

  // ---- extract_section_by_heading

  /** The first line at or after `from` whose stripped form the heading pattern matches, or
      `|lines|`. */
  function HeadingAt(lines: seq<string>, heading: string -> bool, from: nat): (k: nat)
    requires from <= |lines|
    ensures from <= k <= |lines|
    decreases |lines| - from
  {
    if from == |lines| || heading(Strip(lines[from])) then from else HeadingAt(lines, heading, from + 1)
  }

  lemma {:induction false} HeadingAtFirst(lines: seq<string>, heading: string -> bool, from: nat)
    requires from <= |lines|
    ensures HeadingAt(lines, heading, from) < |lines| ==> heading(Strip(lines[HeadingAt(lines, heading, from)]))
    ensures forall k :: from <= k < HeadingAt(lines, heading, from) ==> !heading(Strip(lines[k]))
    decreases |lines| - from
  {
    if from < |lines| && !heading(Strip(lines[from])) {
      HeadingAtFirst(lines, heading, from + 1);
    }
  }

  lemma {:induction false} HeadingAtStops(lines: seq<string>, heading: string -> bool, from: nat, k: nat)
    requires from <= k <= |lines|
    requires forall j :: from <= j < k ==> !heading(Strip(lines[j]))
    requires k == |lines| || heading(Strip(lines[k]))
    ensures HeadingAt(lines, heading, from) == k
    decreases k - from
  {
    if from < k {
      HeadingAtStops(lines, heading, from + 1, k);
    }
  }

  /** `line.startswith("## ")` */
  predicate IsH2(line: string) {
    StartsWith(line, "## ")
  }

  /** The first level-two heading line at or after `from`, or `|lines|`. */
  function NextH2(lines: seq<string>, from: nat): (k: nat)
    requires from <= |lines|
    ensures from <= k <= |lines|
    decreases |lines| - from
  {
    if from == |lines| || IsH2(lines[from]) then from else NextH2(lines, from + 1)
  }

  lemma {:induction false} NextH2First(lines: seq<string>, from: nat)
    requires from <= |lines|
    ensures NextH2(lines, from) < |lines| ==> IsH2(lines[NextH2(lines, from)])
    ensures forall k :: from <= k < NextH2(lines, from) ==> !IsH2(lines[k])
    decreases |lines| - from
  {
    if from < |lines| && !IsH2(lines[from]) {
      NextH2First(lines, from + 1);
    }
  }

  lemma {:induction false} NextH2Stops(lines: seq<string>, from: nat, k: nat)
    requires from <= k <= |lines|
    requires forall j :: from <= j < k ==> !IsH2(lines[j])
    requires k == |lines| || IsH2(lines[k])
    ensures NextH2(lines, from) == k
    decreases k - from
  {
    if from < k {
      NextH2Stops(lines, from + 1, k);
    }
  }

  /** `extract_section_by_heading` on values; `heading` stands for the compiled pattern's
      `match` (a prefix match, case-insensitive in the source). */
  function SectionByHeading(text: string, heading: string -> bool): string {
    var lines := SplitLines(text);
    var h := HeadingAt(lines, heading, 0);
    if h == |lines| then "" else Join(lines[h + 1..NextH2(lines, h + 1)], "\n")
  }

  /** `extract_section_by_heading` */
  method ExtractSectionByHeading(text: string, heading: string -> bool) returns (r: string)
    ensures r == SectionByHeading(text, heading)
  {
    var lines := SplitLines(text);
    var startIdx: Option<nat> := None;
    for i := 0 to |lines|
      invariant startIdx == None
      invariant HeadingAt(lines, heading, 0) == HeadingAt(lines, heading, i)
    {
      if heading(Strip(lines[i])) {
        startIdx := Some(i + 1);
        break;
      }
    }
    if startIdx.None? {
      assert HeadingAt(lines, heading, 0) == |lines|;
      assert SectionByHeading(text, heading) == "";
      return "";
    }
    assert HeadingAt(lines, heading, 0) + 1 == startIdx.value;
    var endIdx := |lines|;
    for j := startIdx.value to |lines|
      invariant endIdx == |lines|
      invariant NextH2(lines, startIdx.value) == NextH2(lines, j)
    {
      if IsH2(lines[j]) {
        endIdx := j;
        break;
      }
    }
    assert NextH2(lines, startIdx.value) == endIdx;
    SectionFromIndices(text, heading, startIdx.value, endIdx);
    return Join(lines[startIdx.value..endIdx], "\n");
  }

  lemma SectionFromIndices(text: string, heading: string -> bool, s: nat, e: nat)
    requires var lines := SplitLines(text);
             1 <= s <= e <= |lines| && HeadingAt(lines, heading, 0) + 1 == s && NextH2(lines, s) == e
    ensures SectionByHeading(text, heading) == Join(SplitLines(text)[s..e], "\n")
  {
  }

  /** No line matches the heading: the result is empty. */
  lemma NoHeadingNoSection(text: string, heading: string -> bool)
    requires forall i :: 0 <= i < |SplitLines(text)| ==> !heading(Strip(SplitLines(text)[i]))
    ensures SectionByHeading(text, heading) == ""
  {
    HeadingAtStops(SplitLines(text), heading, 0, |SplitLines(text)|);
  }

  /** With the first matching line at `h` and the next level-two heading after it at `e` (or
      the end), the result is the lines strictly between, none of which is such a heading. */
  lemma SectionBetween(text: string, heading: string -> bool, h: nat, e: nat)
    requires var lines := SplitLines(text);
             h < e <= |lines| && heading(Strip(lines[h])) && (forall i :: 0 <= i < h ==> !heading(Strip(lines[i])))
             && (forall j :: h < j < e ==> !IsH2(lines[j])) && (e == |lines| || IsH2(lines[e]))
    ensures SectionByHeading(text, heading) == Join(SplitLines(text)[h + 1..e], "\n")
  {
    var lines := SplitLines(text);
    HeadingAtStops(lines, heading, 0, h);
    NextH2Stops(lines, h + 1, e);
  }

  lemma MiddleIndex<T>(a: seq<T>, b: seq<T>, c: seq<T>, k: nat)
    requires |a| <= k < |a| + |b|
    ensures (a + b + c)[k] == b[k - |a|]
  {
  }

  /** A document written as lines before the heading, the heading, the section's lines and
      a rest that starts at a level-two heading gives back exactly the section's lines. */
  lemma SectionOfComposed(before: seq<string>, head: string, section: seq<string>, after: seq<string>,
                          heading: string -> bool)
    requires heading(Strip(head))
    requires forall k :: 0 <= k < |before| ==> !heading(Strip(before[k]))
    requires forall k :: 0 <= k < |section| ==> !IsH2(section[k])
    requires after == [] || IsH2(after[0])
    requires var lines := before + [head] + section + after;
             lines[|lines| - 1] != [] && forall k :: 0 <= k < |lines| ==> '\n' !in lines[k]
    ensures SectionByHeading(Join(before + [head] + section + after, "\n"), heading) == Join(section, "\n")
  {
    var lines := before + [head] + section + after;
    SplitLinesJoin(lines);
    var h := |before|;
    var e := h + 1 + |section|;
    forall k | 0 <= k < h ensures !heading(Strip(lines[k])) {
      assert lines[k] == before[k];
    }
    assert lines[h] == head;
    HeadingAtStops(lines, heading, 0, h);
    forall k | h + 1 <= k < e ensures !IsH2(lines[k]) {
      MiddleIndex(before + [head], section, after, k);
    }
    if after != [] {
      assert lines[e] == after[0];
    }
    NextH2Stops(lines, h + 1, e);
    assert lines[h + 1..e] == section;
  }
}
