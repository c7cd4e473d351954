/** The MDKV document model (mdkv/core/model.py): tracks with their construction checks,
    and the document with its insertion-ordered track map and its metadata map. */
module Model {
  import opened Wrappers
  import opened Text

  /** The exceptions the core raises, with the messages it gives them. */
  datatype Error =
    | ValueError(message: string)
    | KeyError(key: string)
    | ValidationError(message: string)
    /** an archive entry that is not the YAML text the codec expects */
    | YamlError(entry: string)

  /** `allowed_track_types()` */
  function AllowedTrackTypes(): (r: seq<string>)
    ensures |r| == 7
    ensures forall i, j :: 0 <= i < j < |r| ==> r[i] != r[j]
    ensures "primary" in r
  {
    ["primary", "translation", "commentary", "code", "reference", "media_ref", "revision"]
  }

  /** A point in time; `created` is kept at microsecond resolution. */
  datatype Timestamp = Timestamp(micros: nat)

  datatype Track = Track(
    trackId: string,
    trackType: string,
    language: Option<string>,
    path: string,
    content: string)

  /** What `Track.__post_init__` checks. */
  predicate TrackOk(t: Track) {
    t.trackType in AllowedTrackTypes() && t.trackId != "" && StartsWith(t.path, "tracks/")
  }

  /** `Track(...)`: the dataclass constructor followed by `__post_init__`, whose three checks
      run in the order type, id, path and each raise `ValueError`. */
  function NewTrack(id: string, trackType: string, language: Option<string>, path: string, content: string)
    : (r: Result<Track, Error>)
    ensures r.Ok? <==> TrackOk(Track(id, trackType, language, path, content))
    ensures r.Ok? ==> r.value == Track(id, trackType, language, path, content)
    ensures trackType !in AllowedTrackTypes() ==> r == Err(ValueError("Unsupported track_type: " + trackType))
    ensures trackType in AllowedTrackTypes() && id == "" ==> r == Err(ValueError("track_id must not be empty"))
    ensures trackType in AllowedTrackTypes() && id != "" && !StartsWith(path, "tracks/") ==>
              r == Err(ValueError("track path must be under 'tracks/' directory"))
  {
    if trackType !in AllowedTrackTypes() then Err(ValueError("Unsupported track_type: " + trackType))
    else if id == "" then Err(ValueError("track_id must not be empty"))
    else if !StartsWith(path, "tracks/") then Err(ValueError("track path must be under 'tracks/' directory"))
    else Ok(Track(id, trackType, language, path, content))
  }

  /** The value of a document: its fields, with the tracks listed in insertion order. */
  datatype DocValue = DocValue(
    title: string,
    authors: seq<string>,
    created: Timestamp,
    version: string,
    tracks: seq<Track>,
    metadata: map<string, string>)

  function Ids(ts: seq<Track>): (r: seq<string>)
    ensures |r| == |ts| && forall i :: 0 <= i < |ts| ==> r[i] == ts[i].trackId
  {
    seq(|ts|, i requires 0 <= i < |ts| => ts[i].trackId)
  }

  predicate DistinctIds(ts: seq<Track>) {
    forall i, j :: 0 <= i < j < |ts| ==> ts[i].trackId != ts[j].trackId
  }

  predicate Distinct(ks: seq<string>) {
    forall i, j :: 0 <= i < j < |ks| ==> ks[i] != ks[j]
  }

  function IndexOf(ks: seq<string>, k: string): (i: nat)
    requires k in ks
    ensures i < |ks| && ks[i] == k
    ensures forall j :: 0 <= j < i ==> ks[j] != k
  {
    if ks[0] == k then 0 else 1 + IndexOf(ks[1..], k)
  }

  lemma IndexOfDistinct(ks: seq<string>, i: nat)
    requires Distinct(ks) && i < |ks|
    ensures IndexOf(ks, ks[i]) == i
  {
  }

  /** The tracks of a map, listed in the order of `ks`. */
  function InOrder(ks: seq<string>, m: map<string, Track>): (r: seq<Track>)
    requires forall k :: k in ks ==> k in m
    ensures |r| == |ks| && forall i :: 0 <= i < |ks| ==> r[i] == m[ks[i]]
  {
    seq(|ks|, i requires 0 <= i < |ks| => m[ks[i]])
  }

  /** The shape of `MDKVDocument.tracks`: the keys listed once each, in `ks` exactly, each being
      its track's id. */
  ghost predicate WellKeyed(ks: seq<string>, m: map<string, Track>) {
    && Distinct(ks)
    && (forall k :: k in m <==> k in ks)
    && (forall k :: k in m ==> m[k].trackId == k)
  }

  lemma WellKeyedAppend(ks: seq<string>, m: map<string, Track>, t: Track)
    requires WellKeyed(ks, m) && t.trackId !in m
    ensures WellKeyed(ks + [t.trackId], m[t.trackId := t])
  {
  }

  lemma WellKeyedRemove(ks: seq<string>, m: map<string, Track>, i: nat)
    requires WellKeyed(ks, m) && i < |ks|
    ensures WellKeyed(ks[..i] + ks[i + 1..], m - {ks[i]})
  {
    var rest := ks[..i] + ks[i + 1..];
    assert forall j :: 0 <= j < |rest| ==> rest[j] == (if j < i then ks[j] else ks[j + 1]);
    forall k | k in ks && k != ks[i] ensures k in rest {
      var j :| 0 <= j < |ks| && ks[j] == k;
      if j < i {
        assert rest[j] == k;
      } else {
        assert rest[j - 1] == k;
      }
    }
  }

  lemma InOrderAppend(ks: seq<string>, m: map<string, Track>, k: string, t: Track)
    requires forall x :: x in ks ==> x in m
    requires k !in ks
    ensures InOrder(ks + [k], m[k := t]) == InOrder(ks, m) + [t]
  {
    assert forall i :: 0 <= i < |ks| ==> ks[i] != k;
  }

  lemma InOrderRemove(ks: seq<string>, m: map<string, Track>, i: nat)
    requires forall x :: x in ks ==> x in m
    requires Distinct(ks) && i < |ks|
    ensures forall x :: x in ks[..i] + ks[i + 1..] ==> x in m - {ks[i]}
    ensures InOrder(ks[..i] + ks[i + 1..], m - {ks[i]}) == InOrder(ks, m)[..i] + InOrder(ks, m)[i + 1..]
  {
    var rest := ks[..i] + ks[i + 1..];
    forall j | 0 <= j < |rest| ensures rest[j] == (if j < i then ks[j] else ks[j + 1]) && rest[j] != ks[i] {
    }
  }

  // ---- the document operations on values: the reference definitions the methods are proved against

  /** `add_track` on a track list: refused when the id is taken, else appended at the end. */
  function AddTo(ts: seq<Track>, t: Track): (r: Result<seq<Track>, Error>)
    ensures r.Err? <==> exists i :: 0 <= i < |ts| && ts[i].trackId == t.trackId
    ensures r.Err? ==> r.error == ValidationError("duplicate track_id: " + t.trackId)
    ensures r.Ok? ==> |r.value| == |ts| + 1 && r.value[..|ts|] == ts && r.value[|ts|] == t
  {
    if t.trackId in Ids(ts) then Err(ValidationError("duplicate track_id: " + t.trackId))
    else Ok(ts + [t])
  }

  /** A successful `add_track` keeps the ids unique. */
  lemma AddToKeepsDistinct(ts: seq<Track>, t: Track)
    requires DistinctIds(ts) && AddTo(ts, t).Ok?
    ensures DistinctIds(AddTo(ts, t).value)
  {
  }

  /** The track after `rename_track`: new id, and a `tracks/<new>.md` path if it was a `.md` under `tracks/`. */
  function Renamed(t: Track, newId: string): (r: Track)
    ensures r.trackId == newId
    ensures r.trackType == t.trackType && r.language == t.language && r.content == t.content
    ensures StartsWith(t.path, "tracks/") && EndsWith(t.path, ".md") ==> r.path == "tracks/" + newId + ".md"
    ensures !(StartsWith(t.path, "tracks/") && EndsWith(t.path, ".md")) ==> r.path == t.path
  {
    var p := if StartsWith(t.path, "tracks/") && EndsWith(t.path, ".md") then "tracks/" + newId + ".md" else t.path;
    t.(trackId := newId, path := p)
  }

  /** Renaming leaves a track acceptable to `Track(...)` exactly when the new id is not empty. */
  lemma RenamedTrackOk(t: Track, newId: string)
    requires TrackOk(t)
    ensures TrackOk(Renamed(t, newId)) <==> newId != ""
  {
    var r := Renamed(t, newId);
    if StartsWith(t.path, "tracks/") && EndsWith(t.path, ".md") {
      assert r.path[..7] == "tracks/";
    }
  }

  /** order-preserving filter of `find_tracks_by_type` */
  function OfType(ts: seq<Track>, trackType: string): (r: seq<Track>)
    ensures |r| <= |ts|
    ensures forall t :: t in r <==> t in ts && t.trackType == trackType
  {
    if ts == [] then []
    else (if ts[0].trackType == trackType then [ts[0]] else []) + OfType(ts[1..], trackType)
  }

  /** The filter is order preserving: it distributes over concatenation. */
  lemma {:induction false} OfTypeAppend(a: seq<Track>, b: seq<Track>, trackType: string)
    ensures OfType(a + b, trackType) == OfType(a, trackType) + OfType(b, trackType)
  {
    if a == [] {
      assert a + b == b;
    } else {
      assert (a + b)[1..] == a[1..] + b;
      OfTypeAppend(a[1..], b, trackType);
    }
  }

  /** The truthy languages of the tracks (neither None nor ""), in track order. */
  function Languages(ts: seq<Track>): (r: seq<string>)
    ensures forall l :: l in r <==> l != "" && exists i :: 0 <= i < |ts| && ts[i].language == Some(l)
  {
    if ts == [] then []
    else
      var rest := Languages(ts[1..]);
      assert forall l :: (exists i :: 0 <= i < |ts| && ts[i].language == Some(l)) <==>
        (ts[0].language == Some(l) || exists i :: 0 <= i < |ts[1..]| && ts[1..][i].language == Some(l)) by {
        forall l | exists i :: 0 <= i < |ts| && ts[i].language == Some(l)
          ensures ts[0].language == Some(l) || exists i :: 0 <= i < |ts[1..]| && ts[1..][i].language == Some(l)
        {
          var i :| 0 <= i < |ts| && ts[i].language == Some(l);
          if i > 0 {
            assert ts[1..][i - 1].language == Some(l);
          }
        }
      }
      (if ts[0].language.Some? && ts[0].language.value != "" then [ts[0].language.value] else []) + rest
  }

  predicate StrictlySorted(s: seq<string>) {
    forall i, j :: 0 <= i < j < |s| ==> StrLess(s[i], s[j])
  }

  lemma SortedCons(x: string, s: seq<string>)
    requires StrictlySorted(s)
    requires s != [] ==> StrLess(x, s[0])
    ensures StrictlySorted([x] + s)
  {
    forall j | 1 <= j < |[x] + s|
      ensures StrLess(([x] + s)[0], ([x] + s)[j])
    {
      if j > 1 {
        StrLessTransitive(x, s[0], s[j - 1]);
      }
    }
  }

  /** Inserts `x` into a strictly ascending list unless it is already there. */
  function InsertSorted(x: string, s: seq<string>): (r: seq<string>)
    requires StrictlySorted(s)
    ensures StrictlySorted(r)
    ensures forall y :: y in r <==> y == x || y in s
  {
    if s == [] then [x]
    else if x == s[0] then s
    else if StrLess(x, s[0]) then
      SortedCons(x, s);
      [x] + s
    else
      StrLessTotal(x, s[0]);
      var rest := InsertSorted(x, s[1..]);
      forall y | y in rest ensures StrLess(s[0], y) {
        if y != x {
          var j :| 1 <= j < |s| && s[j] == y;
        }
      }
      SortedCons(s[0], rest);
      [s[0]] + rest
  }

  /** `sorted(set(xs))` */
  function SortedSet(xs: seq<string>): (r: seq<string>)
    ensures StrictlySorted(r)
    ensures forall y :: y in r <==> y in xs
  {
    if xs == [] then [] else InsertSorted(xs[0], SortedSet(xs[1..]))
  }

  /** A strictly ascending list is determined by its elements, so `SortedSet` is `sorted(set(...))`. */
  lemma SameElementsSameEmptiness(a: seq<string>, b: seq<string>)
    requires forall y :: y in a <==> y in b
    ensures a == [] <==> b == []
  {
    if a != [] {
      var y := a[0];
      assert y in a;
    }
    if b != [] {
      var y := b[0];
      assert y in b;
    }
  }

  lemma {:induction false} StrictlySortedUnique(a: seq<string>, b: seq<string>)
    requires StrictlySorted(a) && StrictlySorted(b)
    requires forall y :: y in a <==> y in b
    ensures a == b
  {
    SameElementsSameEmptiness(a, b);
    if a != [] {
      assert a[0] in a && b[0] in b;
      if a[0] != b[0] {
        var i :| 0 <= i < |b| && b[i] == a[0];
        var j :| 0 <= j < |a| && a[j] == b[0];
        assert i > 0 && j > 0;
        StrLessTransitive(a[0], a[j], b[i]);
        StrLessIrreflexive(a[0]);
        assert false;
      }
      forall y ensures y in a[1..] <==> y in b[1..] {
        if y in a[1..] {
          var k :| 0 <= k < |a[1..]| && a[1..][k] == y;
          assert a[k + 1] == y;
          StrLessIrreflexive(y);
          assert y != b[0];
          assert y in b;
          var h :| 0 <= h < |b| && b[h] == y;
          assert b[1..][h - 1] == y;
        }
        if y in b[1..] {
          var k :| 0 <= k < |b[1..]| && b[1..][k] == y;
          assert b[k + 1] == y;
          StrLessIrreflexive(y);
          assert y != a[0];
          assert y in a;
          var h :| 0 <= h < |a| && a[h] == y;
          assert a[1..][h - 1] == y;
        }
      }
      StrictlySortedUnique(a[1..], b[1..]);
      assert a == [a[0]] + a[1..] && b == [b[0]] + b[1..];
    }
  }

  /** `metadata.get(key, default)` */
  function MetaGet(m: map<string, string>, key: string, default: Option<string>): (r: Option<string>)
    ensures key in m ==> r == Some(m[key])
    ensures key !in m ==> r == default
  {
    if key in m then Some(m[key]) else default
  }

  /** The metadata laws: a set key reads back, other keys are untouched, and removal of a
      missing key changes nothing. */
  lemma MetadataLaws(m: map<string, string>, key: string, other: string, value: string, default: Option<string>)
    ensures MetaGet(m[key := value], key, default) == Some(value)
    ensures other != key ==> MetaGet(m[key := value], other, default) == MetaGet(m, other, default)
    ensures MetaGet(m - {key}, key, default) == default
    ensures key !in m ==> m - {key} == m
  {
  }

  /** `MDKVDocument`: the track map is kept as the list of keys in insertion order plus a map. */
  class Document {
    var title: string
    var authors: seq<string>
    var created: Timestamp
    var version: string
    var order: seq<string>
    var tracks: map<string, Track>
    var metadata: map<string, string>

    /** The keys are listed once each, in `order` exactly, and every key is its track's id. */
    ghost predicate Valid()
      reads this
    {
      WellKeyed(order, tracks)
    }

    /** `tracks.values()`, in insertion order. */
    function TrackList(): (r: seq<Track>)
      reads this
      requires Valid()
      ensures |r| == |order| && forall i :: 0 <= i < |order| ==> r[i] == tracks[order[i]]
      ensures Ids(r) == order
      ensures DistinctIds(r)
    {
      InOrder(order, tracks)
    }

    function Value(): DocValue
      reads this
      requires Valid()
    {
      DocValue(title, authors, created, version, TrackList(), metadata)
    }

    constructor (title: string, authors: seq<string>, created: Timestamp, version: string := "0.1")
      ensures Valid()
      ensures Value() == DocValue(title, authors, created, version, [], map[])
      ensures order == [] && tracks == map[]
    {
      this.title := title;
      this.authors := authors;
      this.created := created;
      this.version := version;
      order := [];
      tracks := map[];
      metadata := map[];
    }

    /** `add_track` */
    method AddTrack(t: Track) returns (r: Outcome<Error>)
      requires Valid()
      modifies this
      ensures Valid()
      ensures r.Fail? <==> t.trackId in old(tracks)
      ensures r.Fail? ==> r.error == ValidationError("duplicate track_id: " + t.trackId) && unchanged(this)
      ensures r.Pass? ==> order == old(order) + [t.trackId] && tracks == old(tracks)[t.trackId := t]
      ensures var a := AddTo(old(TrackList()), t);
              (r.Pass? <==> a.Ok?) && (a.Ok? ==> Value() == old(Value()).(tracks := a.value))
    {
      if t.trackId in tracks {
        return Fail(ValidationError("duplicate track_id: " + t.trackId));
      }
      ghost var before := TrackList();
      order := order + [t.trackId];
      tracks := tracks[t.trackId := t];
      r := Pass;
      InOrderAppend(old(order), old(tracks), t.trackId, t);
      WellKeyedAppend(old(order), old(tracks), t);
    }

    /** `get_track` */
    function GetTrack(id: string): (r: Option<Track>)
      reads this
      requires Valid()
      ensures r.Some? <==> id in Ids(TrackList())
      ensures r.Some? ==> r.value == TrackList()[IndexOf(order, id)] && r.value.trackId == id
    {
      if id in tracks then Some(tracks[id]) else None
    }

    /** `remove_track` */
    method RemoveTrack(id: string) returns (r: Result<Track, Error>)
      requires Valid()
      modifies this
      ensures Valid()
      ensures id !in old(tracks) ==> r == Err(KeyError(id)) && unchanged(this)
      ensures id in old(tracks) ==>
                var i := IndexOf(old(order), id);
                && r == Ok(old(TrackList())[i])
                && r.value.trackId == id
                && order == old(order)[..i] + old(order)[i + 1..]
                && tracks == old(tracks) - {id}
                && Value() == old(Value()).(tracks := old(TrackList())[..i] + old(TrackList())[i + 1..])
    {
      if id !in tracks {
        return Err(KeyError(id));
      }
      ghost var before := TrackList();
      var i := IndexOf(order, id);
      InOrderRemove(order, tracks, i);
      WellKeyedRemove(order, tracks, i);
      r := Ok(tracks[id]);
      order := order[..i] + order[i + 1..];
      tracks := tracks - {id};
    }

    /** `find_tracks_by_type` */
    function FindTracksByType(trackType: string): (r: seq<Track>)
      reads this
      requires Valid()
      ensures r == OfType(TrackList(), trackType)
      ensures forall t :: t in r <==> t in TrackList() && t.trackType == trackType
    {
      OfType(TrackList(), trackType)
    }

    /** `list_languages` */
    function ListLanguages(): (r: seq<string>)
      reads this
      requires Valid()
      ensures StrictlySorted(r)
      ensures forall l :: l in r <==> l != "" && exists t :: t in TrackList() && t.language == Some(l)
    {
      var ts := TrackList();
      assert forall l :: (exists i :: 0 <= i < |ts| && ts[i].language == Some(l)) <==>
                         (exists t :: t in ts && t.language == Some(l));
      SortedSet(Languages(ts))
    }

    /** `update_track_content` */
    method UpdateTrackContent(id: string, newContent: string) returns (r: Outcome<Error>)
      requires Valid()
      modifies this
      ensures Valid()
      ensures order == old(order)
      ensures id !in old(tracks) ==> r == Fail(KeyError(id)) && unchanged(this)
      ensures id in old(tracks) ==>
                && r == Pass
                && tracks == old(tracks)[id := old(tracks)[id].(content := newContent)]
                && Value() == old(Value()).(tracks := old(TrackList())[IndexOf(order, id) := old(tracks)[id].(content := newContent)])
    {
      var t := GetTrack(id);
      if t.None? {
        return Fail(KeyError(id));
      }
      ghost var before := TrackList();
      tracks := tracks[id := t.value.(content := newContent)];
      r := Pass;
      assert TrackList() == before[IndexOf(order, id) := t.value.(content := newContent)];
    }

    /** `rename_track`: "new id exists" is checked before "old id missing", both before any change;
        on success the renamed track moves to the end of the order. */
    method RenameTrack(oldId: string, newId: string) returns (r: Outcome<Error>)
      requires Valid()
      modifies this
      ensures Valid()
      ensures r == if newId in old(tracks) then Fail(ValueError("track id exists: " + newId))
                   else if oldId !in old(tracks) then Fail(KeyError(oldId))
                   else Pass
      ensures r.Fail? ==> unchanged(this)
      ensures r.Pass? ==>
                var i := IndexOf(old(order), oldId);
                && order == old(order)[..i] + old(order)[i + 1..] + [newId]
                && tracks == (old(tracks) - {oldId})[newId := Renamed(old(tracks)[oldId], newId)]
                && Value() == old(Value()).(tracks := old(TrackList())[..i] + old(TrackList())[i + 1..]
                                                     + [Renamed(old(TrackList())[i], newId)])
    {
      if newId in tracks {
        return Fail(ValueError("track id exists: " + newId));
      }
      var t := GetTrack(oldId);
      if t.None? {
        return Fail(KeyError(oldId));
      }
      var i := IndexOf(order, oldId);
      assert t.value == tracks[oldId] == TrackList()[i];
      ReplaceAtEnd(i, Renamed(t.value, newId));
      r := Pass;
    }

    /** Removes the key at position `i` and appends `t` under its own id: the mapping updates
        `tracks.pop(old_id)` and `tracks[new_id] = track` of `rename_track`. */
    method ReplaceAtEnd(i: nat, t: Track)
      requires Valid() && i < |order|
      requires t.trackId !in tracks
      modifies this
      ensures Valid()
      ensures order == old(order)[..i] + old(order)[i + 1..] + [t.trackId]
      ensures tracks == (old(tracks) - {old(order)[i]})[t.trackId := t]
      ensures Value() == old(Value()).(tracks := old(TrackList())[..i] + old(TrackList())[i + 1..] + [t])
    {
      ghost var before := TrackList();
      var gone := order[i];
      InOrderRemove(order, tracks, i);
      WellKeyedRemove(order, tracks, i);
      order := order[..i] + order[i + 1..];
      tracks := tracks - {gone};
      ghost var middle := InOrder(order, tracks);
      assert middle == before[..i] + before[i + 1..];
      InOrderAppend(order, tracks, t.trackId, t);
      WellKeyedAppend(order, tracks, t);
      order := order + [t.trackId];
      tracks := tracks[t.trackId := t];
      assert TrackList() == middle + [t];
    }

    /** `set_metadata` */
    method SetMetadata(key: string, value: string)
      requires Valid()
      modifies this
      ensures Valid()
      ensures Value() == old(Value()).(metadata := old(metadata)[key := value])
    {
      metadata := metadata[key := value];
    }

    /** `get_metadata` */
    function GetMetadata(key: string, default: Option<string> := None): (r: Option<string>)
      reads this
      ensures key in metadata ==> r == Some(metadata[key])
      ensures key !in metadata ==> r == default
    {
      MetaGet(metadata, key, default)
    }

    /** `remove_metadata`: a missing key is not an error. */
    method RemoveMetadata(key: string)
      requires Valid()
      modifies this
      ensures Valid()
      ensures Value() == old(Value()).(metadata := old(metadata) - {key})
      ensures key !in old(metadata) ==> Value() == old(Value())
    {
      metadata := metadata - {key};
    }
  }

  /** Renaming a track to its own id always fails and changes nothing: with the id present the
      "exists" check fires, without it the lookup does. */
  method RenameToSelfFails(doc: Document, id: string) returns (r: Outcome<Error>)
    requires doc.Valid()
    modifies doc
    ensures doc.Valid() && r.Fail? && unchanged(doc)
    ensures r.error == if id in old(doc.tracks) then ValueError("track id exists: " + id) else KeyError(id)
  {
    r := doc.RenameTrack(id, id);
  }
}
