/** The definition-to-document builder (mdkv/library.py, `build_document_from_definition`):
    a definition record names a title, optional authors and timestamp, and a list of track
    records; every track is stored under `tracks/<id>.md`. */
module Library {
  import opened Wrappers
  import opened Text
  import opened Model
  import opened Storage

  /** One record of `defn["tracks"]`; a key the record lacks is `None`. */
  datatype TrackDef = TrackDef(id: Option<string>, trackType: Option<string>, language: Option<string>,
                               content: Option<string>)

  /** The definition record `defn`; a key it lacks is `None`. */
  datatype Definition = Definition(title: Option<string>, authors: Option<seq<string>>,
                                   created: Option<Timestamp>, tracks: Option<seq<TrackDef>>)

  /** `f"tracks/{id}.md"` */
  function DefPath(id: string): string {
    "tracks/" + id + ".md"
  }

  /** Different ids give different paths. */
  lemma DefPathInjective(a: string, b: string)
    requires DefPath(a) == DefPath(b)
    ensures a == b
  {
    assert a == DefPath(a)[7..|DefPath(a)| - 3];
    assert b == DefPath(b)[7..|DefPath(b)| - 3];
  }

  /** `Track(track_id=t["id"], track_type=t["type"], language=t.get("language"),
      path=f"tracks/{t['id']}.md", content=t.get("content", ""))`. */
  function TrackFromDef(d: TrackDef): (r: Result<Track, Error>)
    ensures d.id.None? ==> r == Err(KeyError("id"))
    ensures d.id.Some? && d.trackType.None? ==> r == Err(KeyError("type"))
    ensures d.id.Some? && d.trackType.Some? ==>
              (r.Ok? <==> d.trackType.value in AllowedTrackTypes() && d.id.value != "")
    ensures d.id.Some? && d.trackType.Some? && d.trackType.value !in AllowedTrackTypes() ==>
              r == Err(ValueError("Unsupported track_type: " + d.trackType.value))
    ensures d.id.Some? && d.trackType.Some? && d.trackType.value in AllowedTrackTypes() && d.id.value == "" ==>
              r == Err(ValueError("track_id must not be empty"))
    ensures r.Ok? ==> r.value == Track(d.id.value, d.trackType.value, d.language, DefPath(d.id.value),
                                       d.content.GetOr(""))
                      && TrackOk(r.value)
  {
    if d.id.None? then Err(KeyError("id"))
    else if d.trackType.None? then Err(KeyError("type"))
    else NewTrack(d.id.value, d.trackType.value, d.language, DefPath(d.id.value), d.content.GetOr(""))
  }

  /** The loop of `add_track` calls, on values: stops at the first error. */
  function AddDefs(ts: seq<Track>, defs: seq<TrackDef>): Result<seq<Track>, Error>
    decreases |defs|
  {
    if defs == [] then Ok(ts)
    else
      match TrackFromDef(defs[0])
      case Err(e) => Err(e)
      case Ok(t) =>
        match AddTo(ts, t)
        case Err(e) => Err(e)
        case Ok(more) => AddDefs(more, defs[1..])
  }

  /** What a track record promises about the track built from it. */
  predicate BuiltFrom(t: Track, d: TrackDef) {
    TrackOk(t) && d.id == Some(t.trackId) && d.trackType == Some(t.trackType) && t.language == d.language
    && t.path == DefPath(t.trackId) && t.content == d.content.GetOr("")
  }

  /** The built tracks follow the records one for one, and their ids are distinct. */
  lemma {:induction false} AddDefsFollow(ts: seq<Track>, defs: seq<TrackDef>)
    requires DistinctIds(ts)
    ensures var r := AddDefs(ts, defs);
            r.Ok? ==> |r.value| == |ts| + |defs| && r.value[..|ts|] == ts && DistinctIds(r.value)
                      && forall i :: 0 <= i < |defs| ==> BuiltFrom(r.value[|ts| + i], defs[i])
    decreases |defs|
  {
    var r := AddDefs(ts, defs);
    if defs != [] && r.Ok? {
      var t := TrackFromDef(defs[0]).value;
      var more := AddTo(ts, t).value;
      AddToKeepsDistinct(ts, t);
      AddDefsFollow(more, defs[1..]);
      assert r == AddDefs(more, defs[1..]);
      assert r.value[..|more|] == more;
      assert r.value[..|ts|] == more[..|ts|];
      assert r.value[|ts|] == t;
      forall i | 0 <= i < |defs|
        ensures BuiltFrom(r.value[|ts| + i], defs[i])
      {
        if i > 0 {
          assert defs[1..][i - 1] == defs[i];
          assert r.value[|more| + (i - 1)] == r.value[|ts| + i];
        }
      }
    }
  }

  /** A record that cannot make a track makes the whole build fail. */
  lemma {:induction false} AddDefsBadRecord(ts: seq<Track>, defs: seq<TrackDef>, i: nat)
    requires i < |defs| && TrackFromDef(defs[i]).Err?
    ensures AddDefs(ts, defs).Err?
    decreases i
  {
    if i > 0 && TrackFromDef(defs[0]).Ok? && AddTo(ts, TrackFromDef(defs[0]).value).Ok? {
      assert defs[1..][i - 1] == defs[i];
      AddDefsBadRecord(AddTo(ts, TrackFromDef(defs[0]).value).value, defs[1..], i - 1);
    }
  }

  /** The tracks a run of buildable records gives, one per record. */
  function BuiltTracks(defs: seq<TrackDef>): (r: seq<Track>)
    requires forall k :: 0 <= k < |defs| ==> TrackFromDef(defs[k]).Ok?
    ensures |r| == |defs| && forall k :: 0 <= k < |defs| ==> r[k] == TrackFromDef(defs[k]).value
  {
    seq(|defs|, k requires 0 <= k < |defs| => TrackFromDef(defs[k]).value)
  }

  /** Records with distinct ids that all build: the loop gets past them, having added their
      tracks in order. */
  lemma {:induction false} BuildPrefix(defs: seq<TrackDef>, j: nat)
    requires j <= |defs| && forall k :: 0 <= k < j ==> TrackFromDef(defs[k]).Ok?
    requires forall k, l :: 0 <= k < l < j ==> defs[k].id != defs[l].id
    ensures AddDefs([], defs) == AddDefs(BuiltTracks(defs[..j]), defs[j..])
  {
    if j == 0 {
      assert defs[..0] == [] && defs[0..] == defs;
    } else {
      BuildPrefix(defs, j - 1);
      var before := BuiltTracks(defs[..j - 1]);
      var t := TrackFromDef(defs[j - 1]).value;
      assert defs[j - 1..][0] == defs[j - 1] && defs[j - 1..][1..] == defs[j..];
      forall i | 0 <= i < |before| ensures before[i].trackId != t.trackId {
        assert defs[..j - 1][i] == defs[i];
        assert defs[i].id != defs[j - 1].id;
      }
      AddToFresh(before, t);
      assert before + [t] == BuiltTracks(defs[..j]);
    }
  }

  /** The first record that cannot become a track, after records with distinct ids: its own
      error is the loop's error. */
  lemma FirstBadRecord(defs: seq<TrackDef>, j: nat)
    requires j < |defs| && forall k :: 0 <= k < j ==> TrackFromDef(defs[k]).Ok?
    requires forall k, l :: 0 <= k < l < j ==> defs[k].id != defs[l].id
    requires TrackFromDef(defs[j]).Err?
    ensures AddDefs([], defs) == Err(TrackFromDef(defs[j]).error)
  {
    BuildPrefix(defs, j);
    assert defs[j..][0] == defs[j];
  }

  /** The first repeated id, with every record up to it buildable: `add_track`'s duplicate
      error for that id. */
  lemma FirstDuplicateRecord(defs: seq<TrackDef>, i: nat, j: nat, id: string)
    requires i < j < |defs| && forall k :: 0 <= k <= j ==> TrackFromDef(defs[k]).Ok?
    requires forall k, l :: 0 <= k < l < j ==> defs[k].id != defs[l].id
    requires defs[i].id == Some(id) && defs[j].id == Some(id)
    ensures AddDefs([], defs) == Err(ValidationError("duplicate track_id: " + id))
  {
    BuildPrefix(defs, j);
    var before := BuiltTracks(defs[..j]);
    assert defs[..j][i] == defs[i];
    assert before[i].trackId == id;
    assert defs[j..][0] == defs[j];
  }

  /** `build_document_from_definition`, on values, with `now` standing for `utcnow()`. */
  function Built(defn: Definition, now: Timestamp): Result<DocValue, Error> {
    if defn.title.None? then Err(KeyError("title"))
    else
      match AddDefs([], defn.tracks.GetOr([]))
      case Err(e) => Err(e)
      case Ok(ts) => Ok(DocValue(defn.title.value, defn.authors.GetOr([]), defn.created.GetOr(now), "0.1", ts, map[]))
  }

  /** A built document: the definition's title, its authors or none, its timestamp or `now`,
      version "0.1", no metadata, and one track per record in definition order, each stored
      under `tracks/<id>.md` with its content or "". */
  lemma BuiltFacts(defn: Definition, now: Timestamp)
    ensures defn.title.None? ==> Built(defn, now) == Err(KeyError("title"))
    ensures var r := Built(defn, now);
            r.Ok? ==> var defs := defn.tracks.GetOr([]);
                      r.value.title == defn.title.value && r.value.authors == defn.authors.GetOr([])
                      && r.value.created == defn.created.GetOr(now) && r.value.version == "0.1"
                      && r.value.metadata == map[] && DistinctIds(r.value.tracks)
                      && |r.value.tracks| == |defs|
                      && forall i :: 0 <= i < |defs| ==> BuiltFrom(r.value.tracks[i], defs[i])
  {
    AddDefsFollow([], defn.tracks.GetOr([]));
  }

  /** A record without an id or type, with an unknown type or an empty id, fails the build. */
  lemma BadRecordFails(defn: Definition, now: Timestamp, i: nat)
    requires defn.tracks.Some? && i < |defn.tracks.value| && TrackFromDef(defn.tracks.value[i]).Err?
    ensures Built(defn, now).Err?
  {
    AddDefsBadRecord([], defn.tracks.value, i);
  }

  /** Two records with the same id fail the build. */
  lemma DuplicateIdFails(defn: Definition, now: Timestamp, i: nat, j: nat)
    requires defn.tracks.Some? && i < j < |defn.tracks.value|
    requires defn.tracks.value[i].id.Some? && defn.tracks.value[i].id == defn.tracks.value[j].id
    ensures Built(defn, now).Err?
  {
    BuiltFacts(defn, now);
  }

  /** The build's error at the first bad record (a missing key, an unknown type, an empty id)
      is that record's own `KeyError` or `ValueError`. */
  lemma BadRecordError(defn: Definition, now: Timestamp, j: nat)
    requires defn.title.Some? && defn.tracks.Some? && j < |defn.tracks.value|
    requires forall k :: 0 <= k < j ==> TrackFromDef(defn.tracks.value[k]).Ok?
    requires forall k, l :: 0 <= k < l < j ==> defn.tracks.value[k].id != defn.tracks.value[l].id
    requires TrackFromDef(defn.tracks.value[j]).Err?
    ensures Built(defn, now) == Err(TrackFromDef(defn.tracks.value[j]).error)
  {
    FirstBadRecord(defn.tracks.value, j);
  }

  /** The build's error at the first repeated id is `ValidationError("duplicate track_id: <id>")`. */
  lemma DuplicateIdError(defn: Definition, now: Timestamp, i: nat, j: nat, id: string)
    requires defn.title.Some? && defn.tracks.Some? && i < j < |defn.tracks.value|
    requires forall k :: 0 <= k <= j ==> TrackFromDef(defn.tracks.value[k]).Ok?
    requires forall k, l :: 0 <= k < l < j ==> defn.tracks.value[k].id != defn.tracks.value[l].id
    requires defn.tracks.value[i].id == Some(id) && defn.tracks.value[j].id == Some(id)
    ensures Built(defn, now) == Err(ValidationError("duplicate track_id: " + id))
  {
    FirstDuplicateRecord(defn.tracks.value, i, j, id);
  }

  /** Built documents always save and load back unchanged: their ids are distinct, every
      track passes its checks, and distinct ids give distinct paths. */
  lemma BuiltReloads(defn: Definition, now: Timestamp)
    requires Built(defn, now).Ok?
    ensures Reloadable(Built(defn, now).value)
    ensures LoadValue(SavedArchive(Built(defn, now).value)) == Built(defn, now)
  {
    var v := Built(defn, now).value;
    var defs := defn.tracks.GetOr([]);
    BuiltFacts(defn, now);
    forall t | t in v.tracks ensures TrackOk(t) {
      var i :| 0 <= i < |v.tracks| && v.tracks[i] == t;
      assert BuiltFrom(v.tracks[i], defs[i]);
    }
    forall i, j | 0 <= i < j < |v.tracks| ensures v.tracks[i].path != v.tracks[j].path {
      assert BuiltFrom(v.tracks[i], defs[i]) && BuiltFrom(v.tracks[j], defs[j]);
      if v.tracks[i].path == v.tracks[j].path {
        DefPathInjective(v.tracks[i].trackId, v.tracks[j].trackId);
      }
    }
    SaveLoadRoundTrip(v);
  }

  /** `build_document_from_definition` */
  method BuildDocumentFromDefinition(defn: Definition, now: Timestamp) returns (r: Result<Document, Error>)
    ensures var v := Built(defn, now);
            (r.Ok? <==> v.Ok?) && (r.Err? ==> r.error == v.error)
            && (r.Ok? ==> r.value.Valid() && r.value.Value() == v.value)
  {
    if defn.title.None? {
      return Err(KeyError("title"));
    }
    var doc := new Document(defn.title.value, defn.authors.GetOr([]), defn.created.GetOr(now));
    ghost var header := doc.Value();
    var defs := defn.tracks.GetOr([]);
    for i := 0 to |defs|
      invariant doc.Valid()
      invariant doc.Value() == header.(tracks := doc.TrackList())
      invariant AddDefs([], defs) == AddDefs(doc.TrackList(), defs[i..])
    {
      assert defs[i..][0] == defs[i] && defs[i..][1..] == defs[i + 1..];
      var t := defs[i];
      if t.id.None? {
        return Err(KeyError("id"));
      }
      if t.trackType.None? {
        return Err(KeyError("type"));
      }
      var track := NewTrack(t.id.value, t.trackType.value, t.language, DefPath(t.id.value), t.content.GetOr(""));
      if track.Err? {
        return Err(track.error);
      }
      var added := doc.AddTrack(track.value);
      if added.Fail? {
        return Err(added.error);
      }
    }
    assert defs[|defs|..] == [];
    return Ok(doc);
  }
}
