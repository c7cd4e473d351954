/** Combined Markdown export (mdkv/services/export.py, `to_markdown`): a title comment, then
    for each selected track a comment header carrying its id, type and language, followed by
    its content. */
module Export {
  import opened Wrappers
  import opened Text
  import opened Model

  /** The concatenation of `parts`, front to back. */
  function Concat(parts: seq<string>): (r: string)
    ensures parts == [] ==> r == []
  {
    if parts == [] then [] else parts[0] + Concat(parts[1..])
  }

  /** `"".join(parts)` is the concatenation of the parts. */
  lemma {:induction false} JoinIsConcat(parts: seq<string>)
    ensures Join(parts, "") == Concat(parts)
  {
    if |parts| == 1 {
      assert Concat(parts[1..]) == [];
    } else if |parts| > 1 {
      JoinIsConcat(parts[1..]);
    }
  }

  lemma {:induction false} ConcatAppend(parts: seq<string>, last: string)
    ensures Concat(parts + [last]) == Concat(parts) + last
  {
    if parts == [] {
      assert Concat([last][1..]) == [];
    } else {
      assert (parts + [last])[1..] == parts[1..] + [last];
      ConcatAppend(parts[1..], last);
    }
  }

  function TitleLine(title: string): string {
    "<!-- MDKV: " + title + " -->"
  }

  /** `f"{track.language}"`: Python writes a missing language as "None". */
  function LangText(language: Option<string>): string {
    match language
    case None => "None"
    case Some(l) => l
  }

  /** The comment line of a track's header, without the blank lines around it. */
  function HeaderComment(t: Track): string {
    "<!-- track:" + t.trackId + " type:" + t.trackType + " lang:" + LangText(t.language) + " -->"
  }

  /** The exported text of one track: its header between blank lines, then its content. */
  function Segment(t: Track): string {
    "\n\n" + HeaderComment(t) + "\n\n" + t.content
  }

  /** The exported text of each track, in order. */
  function Segments(ts: seq<Track>): (r: seq<string>)
    ensures |r| == |ts|
  {
    if ts == [] then [] else [Segment(ts[0])] + Segments(ts[1..])
  }

  lemma {:induction false} SegmentsAt(ts: seq<Track>, i: nat)
    requires i < |ts|
    ensures Segments(ts)[i] == Segment(ts[i])
  {
    if i > 0 {
      SegmentsAt(ts[1..], i - 1);
    }
  }

  lemma {:induction false} SegmentsAppend(ts: seq<Track>, t: Track)
    ensures Segments(ts + [t]) == Segments(ts) + [Segment(t)]
  {
    if ts == [] {
      assert Segments([t][1..]) == [];
    } else {
      assert (ts + [t])[1..] == ts[1..] + [t];
      SegmentsAppend(ts[1..], t);
    }
  }

  /** `set(include_track_types) if include_track_types else None`: no filter and an empty
      filter both select every track. */
  function Selection(filter: Option<seq<string>>): (r: Option<set<string>>)
    ensures r.None? <==> filter.None? || filter.value == []
    ensures r.Some? ==> forall ty :: ty in r.value <==> ty in filter.value
  {
    match filter
    case None => None
    case Some(types) => if types == [] then None else Some(set ty | ty in types)
  }

  predicate Selected(selection: Option<set<string>>, t: Track) {
    selection.None? || t.trackType in selection.value
  }

  /** The selected tracks, in their order. */
  function Kept(ts: seq<Track>, selection: Option<set<string>>): (r: seq<Track>)
    ensures |r| <= |ts|
    ensures forall t :: t in r <==> t in ts && Selected(selection, t)
  {
    if ts == [] then []
    else (if Selected(selection, ts[0]) then [ts[0]] else []) + Kept(ts[1..], selection)
  }

  lemma {:induction false} KeptAppend(ts: seq<Track>, t: Track, selection: Option<set<string>>)
    ensures Kept(ts + [t], selection) == Kept(ts, selection) + (if Selected(selection, t) then [t] else [])
  {
    if ts == [] {
      assert Kept([t][1..], selection) == [];
    } else {
      assert (ts + [t])[1..] == ts[1..] + [t];
      KeptAppend(ts[1..], t, selection);
    }
  }

  /** With every track selected, nothing is dropped. */
  lemma {:induction false} KeptAll(ts: seq<Track>)
    ensures Kept(ts, None) == ts
  {
    if ts != [] {
      KeptAll(ts[1..]);
    }
  }

  /** `to_markdown` on values. */
  function Markdown(v: DocValue, filter: Option<seq<string>>): string {
    Join([TitleLine(v.title)] + Segments(Kept(v.tracks, Selection(filter))), "")
  }

  /** One pass of the export loop. */
  lemma SegmentsKeptStep(ts: seq<Track>, i: nat, selection: Option<set<string>>)
    requires i < |ts|
    ensures Segments(Kept(ts[..i + 1], selection))
            == Segments(Kept(ts[..i], selection)) + (if Selected(selection, ts[i]) then [Segment(ts[i])] else [])
  {
    var before := Kept(ts[..i], selection);
    assert ts[..i + 1] == ts[..i] + [ts[i]];
    KeptAppend(ts[..i], ts[i], selection);
    if Selected(selection, ts[i]) {
      SegmentsAppend(before, ts[i]);
    } else {
      assert before + [] == before;
    }
  }

  lemma ConsAppend(head: string, before: seq<string>, after: seq<string>, x: string, c: bool)
    requires after == before + (if c then [x] else [])
    ensures (if c then ([head] + before) + [x] else [head] + before) == [head] + after
  {
    if c {
      assert ([head] + before) + [x] == [head] + (before + [x]);
    } else {
      assert before + [] == before;
    }
  }

  lemma PartsStep(title: string, ts: seq<Track>, i: nat, selection: Option<set<string>>, parts: seq<string>)
    requires i < |ts| && parts == [TitleLine(title)] + Segments(Kept(ts[..i], selection))
    ensures (if Selected(selection, ts[i]) then parts + [Segment(ts[i])] else parts)
            == [TitleLine(title)] + Segments(Kept(ts[..i + 1], selection))
  {
    SegmentsKeptStep(ts, i, selection);
    ConsAppend(TitleLine(title), Segments(Kept(ts[..i], selection)), Segments(Kept(ts[..i + 1], selection)),
               Segment(ts[i]), Selected(selection, ts[i]));
  }

  lemma MarkdownOfParts(v: DocValue, filter: Option<seq<string>>, parts: seq<string>)
    requires parts == [TitleLine(v.title)] + Segments(Kept(v.tracks, Selection(filter)))
    ensures Join(parts, "") == Markdown(v, filter)
  {
  }

  /** `to_markdown` */
  method ToMarkdown(doc: Document, filter: Option<seq<string>>) returns (md: string)
    requires doc.Valid()
    ensures md == Markdown(doc.Value(), filter)
  {
    var selection := Selection(filter);
    ghost var ts := doc.TrackList();
    var parts := [TitleLine(doc.title)];
    for i := 0 to |doc.order|
      invariant parts == [TitleLine(doc.title)] + Segments(Kept(ts[..i], selection))
    {
      var track := doc.tracks[doc.order[i]];
      assert track == ts[i];
      PartsStep(doc.title, ts, i, selection, parts);
      if Selected(selection, track) {
        parts := parts + [Segment(track)];
      }
    }
    assert ts[..|doc.order|] == ts;
    ghost var v := doc.Value();
    assert v.title == doc.title && v.tracks == ts;
    MarkdownOfParts(v, filter, parts);
    md := Join(parts, "");
  }

  /** The export is the title comment followed by the selected tracks' segments in order. */
  lemma MarkdownLayout(v: DocValue, filter: Option<seq<string>>)
    ensures Markdown(v, filter) == TitleLine(v.title) + Concat(Segments(Kept(v.tracks, Selection(filter))))
  {
    var parts := [TitleLine(v.title)] + Segments(Kept(v.tracks, Selection(filter)));
    JoinIsConcat(parts);
    assert parts[1..] == Segments(Kept(v.tracks, Selection(filter)));
  }

  /** No filter, or an empty one, exports every track. */
  lemma UnfilteredExportsAll(v: DocValue, filter: Option<seq<string>>)
    requires filter.None? || filter.value == []
    ensures Markdown(v, filter) == TitleLine(v.title) + Concat(Segments(v.tracks))
  {
    MarkdownLayout(v, filter);
    KeptAll(v.tracks);
  }

  /** A filter keeps exactly the tracks whose type it lists. */
  lemma FilterKeepsListedTypes(v: DocValue, types: seq<string>, t: Track)
    requires types != []
    ensures t in Kept(v.tracks, Selection(Some(types))) <==> t in v.tracks && t.trackType in types
  {
  }
}
