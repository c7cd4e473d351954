/** The `.mdkv` container (mdkv/storage/io.py): an archive holding each track's text at the
    track's path and a `manifest.yaml` entry that records the document fields and a table of
    track descriptors. Saving writes the entries; loading reads the manifest back and rebuilds
    the document through the same checks that built it. */
module Storage {
  import opened Wrappers
  import opened Text
  import opened Model

  const ManifestName: string := "manifest.yaml"

  /** One row of the manifest's track table; a key the row lacks is `None`. */
  datatype Descriptor = Descriptor(
    trackId: Option<string>,
    trackType: Option<string>,
    language: Option<string>,
    path: Option<string>)

  /** The manifest mapping, key by key, in the order it is written; a missing key is `None`. */
  datatype Manifest = Manifest(
    title: Option<string>,
    authors: Option<seq<string>>,
    created: Option<string>,
    version: Option<string>,
    metadata: Option<map<string, string>>,
    tracks: Option<seq<Descriptor>>)

  /** What an archive entry holds: the text of a track, or the manifest as the YAML
      reader returns it. */
  datatype Blob = Utf8(text: string) | YamlDoc(manifest: Manifest)

  datatype Entry = Entry(name: string, data: Blob)

  // ---- the timestamp text

  /** `created.isoformat()`, with the decimal count of microseconds standing in for the ISO text. */
  function IsoFormat(t: Timestamp): string {
    NatToDecimal(t.micros)
  }

  /** `datetime.fromisoformat(s)` */
  function FromIsoFormat(s: string): Result<Timestamp, Error> {
    match DecimalToNat(s)
    case None => Err(ValueError("Invalid isoformat string: '" + s + "'"))
    case Some(n) => Ok(Timestamp(n))
  }

  lemma IsoFormatRoundTrip(t: Timestamp)
    ensures FromIsoFormat(IsoFormat(t)) == Ok(t)
  {
    DecimalRoundTrip(t.micros);
  }

  // ---- saving

  function DescriptorOf(t: Track): Descriptor {
    Descriptor(Some(t.trackId), Some(t.trackType), t.language, Some(t.path))
  }

  function Descriptors(ts: seq<Track>): (r: seq<Descriptor>)
    ensures |r| == |ts| && forall i :: 0 <= i < |ts| ==> r[i] == DescriptorOf(ts[i])
  {
    seq(|ts|, i requires 0 <= i < |ts| => DescriptorOf(ts[i]))
  }

  /** `_manifest_from_doc` */
  function ManifestOf(v: DocValue): Manifest {
    Manifest(Some(v.title), Some(v.authors), Some(IsoFormat(v.created)), Some(v.version),
             Some(v.metadata), Some(Descriptors(v.tracks)))
  }

  function TrackEntries(ts: seq<Track>): (r: seq<Entry>)
    ensures |r| == |ts| && forall i :: 0 <= i < |ts| ==> r[i] == Entry(ts[i].path, Utf8(ts[i].content))
  {
    seq(|ts|, i requires 0 <= i < |ts| => Entry(ts[i].path, Utf8(ts[i].content)))
  }

  /** The archive `save_mdkv` writes: one entry per track in insertion order, then the manifest. */
  function SavedArchive(v: DocValue): seq<Entry> {
    TrackEntries(v.tracks) + [Entry(ManifestName, YamlDoc(ManifestOf(v)))]
  }

  /** `save_mdkv`, with the archive it writes as its result. */
  method SaveMdkv(doc: Document) returns (archive: seq<Entry>)
    requires doc.Valid()
    ensures archive == SavedArchive(doc.Value())
  {
    var manifest := ManifestOf(doc.Value());
    archive := [];
    for i := 0 to |doc.order|
      invariant archive == TrackEntries(doc.TrackList()[..i])
    {
      var track := doc.tracks[doc.order[i]];
      archive := archive + [Entry(track.path, Utf8(track.content))];
      assert doc.TrackList()[..i + 1] == doc.TrackList()[..i] + [track];
    }
    assert doc.TrackList()[..|doc.order|] == doc.TrackList();
    archive := archive + [Entry(ManifestName, YamlDoc(manifest))];
  }

  // ---- loading

  /** `ZipFile.open(name)` finds the entry written last under `name`. */
  function Lookup(a: seq<Entry>, name: string): (r: Option<Blob>)
    ensures r.None? <==> forall i :: 0 <= i < |a| ==> a[i].name != name
    ensures r.Some? ==> exists i :: 0 <= i < |a| && a[i] == Entry(name, r.value)
                                    && forall j :: i < j < |a| ==> a[j].name != name
    decreases |a|
  {
    if a == [] then None
    else if a[|a| - 1].name == name then Some(a[|a| - 1].data)
    else Lookup(a[..|a| - 1], name)
  }

  /** An entry that no later entry shadows is the one `Lookup` finds. */
  lemma LookupUnshadowed(a: seq<Entry>, k: nat)
    requires k < |a|
    requires forall j :: k < j < |a| ==> a[j].name != a[k].name
    ensures Lookup(a, a[k].name) == Some(a[k].data)
  {
    var i :| 0 <= i < |a| && a[i] == Entry(a[k].name, Lookup(a, a[k].name).value)
             && forall j :: i < j < |a| ==> a[j].name != a[k].name;
    assert i == k;
  }

  /** The `KeyError` that `ZipFile.open` raises for a name no entry has. */
  function MissingEntry(name: string): Error {
    KeyError("There is no item named '" + name + "' in the archive")
  }

  /** Opening the entry `name` and decoding its text. The text of the manifest entry, which
      holds the manifest record rather than its YAML text, reads as "". */
  function ReadText(a: seq<Entry>, name: string): Result<string, Error> {
    match Lookup(a, name)
    case None => Err(MissingEntry(name))
    case Some(Utf8(s)) => Ok(s)
    case Some(YamlDoc(_)) => Ok("")
  }

  /** Reading fails exactly when no entry has the name, with zipfile's message, and otherwise
      gives the text of the entry written last under it. */
  lemma ReadTextSpec(a: seq<Entry>, name: string)
    ensures ReadText(a, name).Err? <==> forall i :: 0 <= i < |a| ==> a[i].name != name
    ensures ReadText(a, name).Err? ==> ReadText(a, name).error == MissingEntry(name)
    ensures forall text :: Lookup(a, name) == Some(Utf8(text)) ==> ReadText(a, name) == Ok(text)
  {
  }

  /** One pass of the loop at io.py:59-70 up to `add_track`: the descriptor's path, the entry
      it names, the descriptor's id and type, then `Track(...)`. */
  function TrackFromDescriptor(d: Descriptor, a: seq<Entry>): Result<Track, Error>
  {
    if d.path.None? then Err(KeyError("path"))
    else
      match ReadText(a, d.path.value)
      case Err(e) => Err(e)
      case Ok(content) =>
        if d.trackId.None? then Err(KeyError("track_id"))
        else if d.trackType.None? then Err(KeyError("track_type"))
        else NewTrack(d.trackId.value, d.trackType.value, d.language, d.path.value, content)
  }

  /** The errors of one pass in the order the source raises them (the path key, the entry,
      the id key, the type key, then the `Track` checks), and what a loaded track keeps of its
      descriptor and entry. */
  lemma TrackFromDescriptorSpec(d: Descriptor, a: seq<Entry>)
    ensures var r := TrackFromDescriptor(d, a);
            && (d.path.None? ==> r == Err(KeyError("path")))
            && (d.path.Some? && ReadText(a, d.path.value).Err? ==> r == Err(MissingEntry(d.path.value)))
            && (d.path.Some? && ReadText(a, d.path.value).Ok? && d.trackId.None? ==> r == Err(KeyError("track_id")))
            && (d.path.Some? && ReadText(a, d.path.value).Ok? && d.trackId.Some? && d.trackType.None? ==>
                  r == Err(KeyError("track_type")))
            && (d.path.Some? && ReadText(a, d.path.value).Ok? && d.trackId.Some? && d.trackType.Some? ==>
                  r == NewTrack(d.trackId.value, d.trackType.value, d.language, d.path.value,
                                ReadText(a, d.path.value).value))
            && (r.Ok? ==> LoadedFrom(r.value, d, a))
  {
    ReadTextSpec(a, d.path.GetOr(""));
  }

  /** A descriptor that names the manifest entry as a track's path: the entry opens, and the
      track's checks then refuse the path, or the missing id or type before that. */
  lemma ManifestAsTrackRejected(d: Descriptor, a: seq<Entry>)
    requires d.path == Some(ManifestName) && Lookup(a, ManifestName).Some?
    ensures d.trackId.None? ==> TrackFromDescriptor(d, a) == Err(KeyError("track_id"))
    ensures d.trackId.Some? && d.trackType.None? ==> TrackFromDescriptor(d, a) == Err(KeyError("track_type"))
    ensures d.trackId.Some? && d.trackType.Some? && d.trackType.value in AllowedTrackTypes() && d.trackId.value != "" ==>
              TrackFromDescriptor(d, a) == Err(ValueError("track path must be under 'tracks/' directory"))
  {
    assert !StartsWith(ManifestName, "tracks/") by {
      assert ManifestName[0] != "tracks/"[0];
    }
  }

  /** The loop at io.py:59-70: each descriptor's track added after `ts`, stopping at the first error. */
  function AddDescriptors(ts: seq<Track>, ds: seq<Descriptor>, a: seq<Entry>): Result<seq<Track>, Error>
    decreases |ds|
  {
    if ds == [] then Ok(ts)
    else
      match TrackFromDescriptor(ds[0], a)
      case Err(e) => Err(e)
      case Ok(t) =>
        match AddTo(ts, t)
        case Err(e) => Err(e)
        case Ok(more) => AddDescriptors(more, ds[1..], a)
  }

  /** What a descriptor promises about the track loaded from it. */
  predicate LoadedFrom(t: Track, d: Descriptor, a: seq<Entry>) {
    TrackOk(t) && d == DescriptorOf(t) && ReadText(a, t.path) == Ok(t.content)
  }

  /** One successful pass of the loading loop. */
  lemma AddDescriptorsStep(ts: seq<Track>, ds: seq<Descriptor>, a: seq<Entry>)
    requires ds != [] && AddDescriptors(ts, ds, a).Ok?
    ensures var t := TrackFromDescriptor(ds[0], a);
            t.Ok? && LoadedFrom(t.value, ds[0], a) && AddTo(ts, t.value).Ok?
            && AddDescriptors(ts, ds, a) == AddDescriptors(AddTo(ts, t.value).value, ds[1..], a)
  {
  }

  /** The tracks `r` extend `ts` by one loaded track per descriptor, with distinct ids. */
  predicate Follows(ts: seq<Track>, ds: seq<Descriptor>, a: seq<Entry>, r: seq<Track>) {
    |r| == |ts| + |ds| && r[..|ts|] == ts && DistinctIds(r)
    && forall i :: 0 <= i < |ds| ==> LoadedFrom(r[|ts| + i], ds[i], a)
  }

  /** Putting the first loaded track in front of the others' facts. */
  lemma FollowCons(ts: seq<Track>, t: Track, rest: seq<Track>, ds: seq<Descriptor>, a: seq<Entry>)
    requires ds != [] && LoadedFrom(t, ds[0], a)
    requires Follows(ts + [t], ds[1..], a, rest)
    ensures Follows(ts, ds, a, rest)
  {
    assert rest[..|ts|] == (ts + [t])[..|ts|];
    assert rest[|ts|] == (ts + [t])[|ts|];
    forall i | 0 <= i < |ds| ensures LoadedFrom(rest[|ts| + i], ds[i], a) {
      if i > 0 {
        assert ds[1..][i - 1] == ds[i];
        assert |ts + [t]| + (i - 1) == |ts| + i;
      }
    }
  }

  /** The loaded tracks follow the descriptors one for one, and their ids are distinct. */
  lemma {:induction false} AddDescriptorsFollow(ts: seq<Track>, ds: seq<Descriptor>, a: seq<Entry>)
    requires DistinctIds(ts)
    ensures AddDescriptors(ts, ds, a).Ok? ==> Follows(ts, ds, a, AddDescriptors(ts, ds, a).value)
    decreases |ds|
  {
    if ds != [] && AddDescriptors(ts, ds, a).Ok? {
      AddDescriptorsStep(ts, ds, a);
      var t := TrackFromDescriptor(ds[0], a).value;
      var more := AddTo(ts, t).value;
      AddToKeepsDistinct(ts, t);
      AddDescriptorsFollow(more, ds[1..], a);
      assert more == ts + [t];
      FollowCons(ts, t, AddDescriptors(more, ds[1..], a).value, ds, a);
    } else if ds == [] {
      assert AddDescriptors(ts, ds, a) == Ok(ts);
      assert ts[..|ts|] == ts;
    }
  }

  /** Two descriptors with the same track id: the manifest does not load. */
  lemma DuplicateDescriptorsRejected(ds: seq<Descriptor>, a: seq<Entry>, i: nat, j: nat)
    requires i < j < |ds| && ds[i].trackId == ds[j].trackId
    ensures AddDescriptors([], ds, a).Err?
  {
    AddDescriptorsFollow([], ds, a);
  }

  /** The tracks a run of loadable descriptors gives, one per descriptor. */
  function LoadedTracks(ds: seq<Descriptor>, a: seq<Entry>): (r: seq<Track>)
    requires forall k :: 0 <= k < |ds| ==> TrackFromDescriptor(ds[k], a).Ok?
    ensures |r| == |ds| && forall k :: 0 <= k < |ds| ==> r[k] == TrackFromDescriptor(ds[k], a).value
  {
    seq(|ds|, k requires 0 <= k < |ds| => TrackFromDescriptor(ds[k], a).value)
  }

  /** The track of descriptor `n` has an id that none of the tracks before it has. */
  lemma LoadedFresh(ds: seq<Descriptor>, a: seq<Entry>, n: nat)
    requires n < |ds| && forall k :: 0 <= k <= n ==> TrackFromDescriptor(ds[k], a).Ok?
    requires forall k, l :: 0 <= k < l <= n ==> ds[k].trackId != ds[l].trackId
    ensures forall i :: 0 <= i < n ==> LoadedTracks(ds[..n], a)[i].trackId != TrackFromDescriptor(ds[n], a).value.trackId
  {
    TrackFromDescriptorSpec(ds[n], a);
    forall i | 0 <= i < n
      ensures LoadedTracks(ds[..n], a)[i].trackId != TrackFromDescriptor(ds[n], a).value.trackId
    {
      assert ds[..n][i] == ds[i];
      TrackFromDescriptorSpec(ds[i], a);
    }
  }

  lemma LoadedSnoc(ds: seq<Descriptor>, a: seq<Entry>, j: nat)
    requires 0 < j <= |ds| && forall k :: 0 <= k < j ==> TrackFromDescriptor(ds[k], a).Ok?
    ensures LoadedTracks(ds[..j - 1], a) + [TrackFromDescriptor(ds[j - 1], a).value] == LoadedTracks(ds[..j], a)
  {
  }

  /** Descriptors with distinct ids that all load: the loop gets past them, having added
      their tracks in order. */
  lemma {:induction false} LoadPrefix(ds: seq<Descriptor>, a: seq<Entry>, j: nat)
    requires j <= |ds| && forall k :: 0 <= k < j ==> TrackFromDescriptor(ds[k], a).Ok?
    requires forall k, l :: 0 <= k < l < j ==> ds[k].trackId != ds[l].trackId
    ensures AddDescriptors([], ds, a) == AddDescriptors(LoadedTracks(ds[..j], a), ds[j..], a)
  {
    if j == 0 {
      assert ds[..0] == [] && ds[0..] == ds;
    } else {
      LoadPrefix(ds, a, j - 1);
      LoadedFresh(ds, a, j - 1);
      assert ds[j - 1..][0] == ds[j - 1] && ds[j - 1..][1..] == ds[j..];
      AddFreshDescriptor(LoadedTracks(ds[..j - 1], a), ds[j - 1..], a, TrackFromDescriptor(ds[j - 1], a).value);
      LoadedSnoc(ds, a, j);
    }
  }

  /** The first repeated track id in the manifest, with every descriptor up to it loadable:
      loading fails with `add_track`'s duplicate error for that id. */
  lemma FirstDuplicateDescriptor(ds: seq<Descriptor>, a: seq<Entry>, i: nat, j: nat, id: string)
    requires i < j < |ds| && forall k :: 0 <= k <= j ==> TrackFromDescriptor(ds[k], a).Ok?
    requires forall k, l :: 0 <= k < l < j ==> ds[k].trackId != ds[l].trackId
    requires ds[i].trackId == Some(id) && ds[j].trackId == Some(id)
    ensures AddDescriptors([], ds, a) == Err(ValidationError("duplicate track_id: " + id))
  {
    LoadPrefix(ds, a, j);
    var before := LoadedTracks(ds[..j], a);
    assert ds[..j][i] == ds[i];
    TrackFromDescriptorSpec(ds[i], a);
    TrackFromDescriptorSpec(ds[j], a);
    assert before[i].trackId == id;
    assert ds[j..][0] == ds[j];
  }

  /** The first descriptor that does not load, after descriptors with distinct ids: loading
      fails with that descriptor's own error. */
  lemma FirstBadDescriptor(ds: seq<Descriptor>, a: seq<Entry>, j: nat)
    requires j < |ds| && forall k :: 0 <= k < j ==> TrackFromDescriptor(ds[k], a).Ok?
    requires forall k, l :: 0 <= k < l < j ==> ds[k].trackId != ds[l].trackId
    requires TrackFromDescriptor(ds[j], a).Err?
    ensures AddDescriptors([], ds, a) == Err(TrackFromDescriptor(ds[j], a).error)
  {
    LoadPrefix(ds, a, j);
    assert ds[j..][0] == ds[j];
  }

  /** The document fields of the manifest (io.py:52-58): `manifest["title"]`, the authors,
      `fromisoformat(manifest["created"])`, the version and the metadata, with no tracks yet. */
  function ManifestHeader(m: Manifest): Result<DocValue, Error> {
    if m.title.None? then Err(KeyError("title"))
    else if m.created.None? then Err(KeyError("created"))
    else
      match FromIsoFormat(m.created.value)
      case Err(e) => Err(e)
      case Ok(created) =>
        Ok(DocValue(m.title.value, m.authors.GetOr([]), created, m.version.GetOr("0.1"), [],
                    m.metadata.GetOr(map[])))
  }

  /** `_doc_from_manifest`, on values. */
  function DocValueFromManifest(m: Manifest, a: seq<Entry>): Result<DocValue, Error> {
    match ManifestHeader(m)
    case Err(e) => Err(e)
    case Ok(header) =>
      match AddDescriptors([], m.tracks.GetOr([]), a)
      case Err(e) => Err(e)
      case Ok(ts) => Ok(header.(tracks := ts))
  }

  /** What a loaded manifest gives: the title and timestamp it records, defaults for the
      authors, version and metadata it lacks, and one well-formed track per descriptor, read
      from the entry the descriptor names, with distinct ids. */
  lemma ManifestLoadFacts(m: Manifest, a: seq<Entry>)
    ensures m.title.None? ==> DocValueFromManifest(m, a) == Err(KeyError("title"))
    ensures m.title.Some? && m.created.None? ==> DocValueFromManifest(m, a) == Err(KeyError("created"))
    ensures var r := DocValueFromManifest(m, a);
            r.Ok? ==>
              Some(r.value.title) == m.title && m.created.Some?
              && FromIsoFormat(m.created.value) == Ok(r.value.created)
              && r.value.authors == m.authors.GetOr([]) && r.value.version == m.version.GetOr("0.1")
              && r.value.metadata == m.metadata.GetOr(map[])
    ensures var r := DocValueFromManifest(m, a);
            r.Ok? ==>
              DistinctIds(r.value.tracks) && |r.value.tracks| == |m.tracks.GetOr([])|
              && forall i :: 0 <= i < |r.value.tracks| ==> LoadedFrom(r.value.tracks[i], m.tracks.GetOr([])[i], a)
  {
    AddDescriptorsFollow([], m.tracks.GetOr([]), a);
  }

  /** A manifest whose header reads and whose first repeated track id comes after loadable
      descriptors fails to load with `add_track`'s duplicate error for that id. */
  lemma ManifestDuplicateError(m: Manifest, a: seq<Entry>, i: nat, j: nat, id: string)
    requires ManifestHeader(m).Ok? && m.tracks.Some?
    requires i < j < |m.tracks.value| && forall k :: 0 <= k <= j ==> TrackFromDescriptor(m.tracks.value[k], a).Ok?
    requires forall k, l :: 0 <= k < l < j ==> m.tracks.value[k].trackId != m.tracks.value[l].trackId
    requires m.tracks.value[i].trackId == Some(id) && m.tracks.value[j].trackId == Some(id)
    ensures DocValueFromManifest(m, a) == Err(ValidationError("duplicate track_id: " + id))
  {
    FirstDuplicateDescriptor(m.tracks.value, a, i, j, id);
  }

  /** `load_mdkv`, on values: the manifest entry, read as YAML, then `_doc_from_manifest`. */
  function LoadValue(a: seq<Entry>): (r: Result<DocValue, Error>)
    ensures Lookup(a, ManifestName).None? ==> r == Err(MissingEntry(ManifestName))
    ensures forall text :: Lookup(a, ManifestName) == Some(Utf8(text)) ==> r == Err(YamlError(ManifestName))
    ensures forall m :: Lookup(a, ManifestName) == Some(YamlDoc(m)) ==> r == DocValueFromManifest(m, a)
    ensures r.Ok? ==> DistinctIds(r.value.tracks) && forall t :: t in r.value.tracks ==> TrackOk(t)
  {
    match Lookup(a, ManifestName)
    case None => Err(MissingEntry(ManifestName))
    case Some(Utf8(_)) => Err(YamlError(ManifestName))
    case Some(YamlDoc(m)) =>
      ManifestLoadFacts(m, a);
      var r := DocValueFromManifest(m, a);
      assert r.Ok? ==> forall t :: t in r.value.tracks ==> TrackOk(t) by {
        if r.Ok? {
          forall t | t in r.value.tracks ensures TrackOk(t) {
            var i :| 0 <= i < |r.value.tracks| && r.value.tracks[i] == t;
            assert LoadedFrom(r.value.tracks[i], m.tracks.GetOr([])[i], a);
          }
        }
      }
      r
  }

  /** `_doc_from_manifest`: a new document, its metadata updated from the manifest, then one
      `add_track` per descriptor. */
  method DocFromManifest(m: Manifest, a: seq<Entry>) returns (r: Result<Document, Error>)
    ensures var v := DocValueFromManifest(m, a);
            (r.Ok? <==> v.Ok?) && (r.Err? ==> r.error == v.error)
            && (r.Ok? ==> r.value.Valid() && r.value.Value() == v.value)
  {
    if m.title.None? {
      return Err(KeyError("title"));
    }
    if m.created.None? {
      return Err(KeyError("created"));
    }
    var created := FromIsoFormat(m.created.value);
    if created.Err? {
      return Err(created.error);
    }
    var doc := new Document(m.title.value, m.authors.GetOr([]), created.value, m.version.GetOr("0.1"));
    doc.metadata := doc.metadata + m.metadata.GetOr(map[]);
    var header := ManifestHeader(m).value;
    var ds := m.tracks.GetOr([]);
    for i := 0 to |ds|
      invariant doc.Valid()
      invariant doc.Value() == header.(tracks := doc.TrackList())
      invariant AddDescriptors([], ds, a) == AddDescriptors(doc.TrackList(), ds[i..], a)
    {
      assert ds[i..][0] == ds[i] && ds[i..][1..] == ds[i + 1..];
      var d := ds[i];
      if d.path.None? {
        return Err(KeyError("path"));
      }
      var content := ReadText(a, d.path.value);
      if content.Err? {
        return Err(content.error);
      }
      if d.trackId.None? {
        return Err(KeyError("track_id"));
      }
      if d.trackType.None? {
        return Err(KeyError("track_type"));
      }
      var track := NewTrack(d.trackId.value, d.trackType.value, d.language, d.path.value, content.value);
      if track.Err? {
        return Err(track.error);
      }
      var added := doc.AddTrack(track.value);
      if added.Fail? {
        return Err(added.error);
      }
    }
    assert ds[|ds|..] == [];
    return Ok(doc);
  }

  /** `load_mdkv` */
  method LoadMdkv(a: seq<Entry>) returns (r: Result<Document, Error>)
    ensures var v := LoadValue(a);
            (r.Ok? <==> v.Ok?) && (r.Err? ==> r.error == v.error)
            && (r.Ok? ==> r.value.Valid() && r.value.Value() == v.value)
  {
    var entry := Lookup(a, ManifestName);
    if entry.None? {
      return Err(MissingEntry(ManifestName));
    }
    if entry.value.Utf8? {
      return Err(YamlError(ManifestName));
    }
    r := DocFromManifest(entry.value.manifest, a);
  }

  // ---- the round trip

  predicate DistinctPaths(ts: seq<Track>) {
    forall i, j :: 0 <= i < j < |ts| ==> ts[i].path != ts[j].path
  }

  /** What a document needs for its saved archive to load back as the same document: the
      construction checks hold for every track, and no two tracks share a path. */
  predicate Reloadable(v: DocValue) {
    DistinctIds(v.tracks) && DistinctPaths(v.tracks) && forall t :: t in v.tracks ==> TrackOk(t)
  }

  /** No track entry has the manifest's name, since track paths start with "tracks/". */
  lemma NotManifest(t: Track)
    requires TrackOk(t)
    ensures t.path != ManifestName
  {
    assert t.path[0] == "tracks/"[0];
  }

  lemma AddToFresh(ts: seq<Track>, t: Track)
    requires forall i :: 0 <= i < |ts| ==> ts[i].trackId != t.trackId
    ensures AddTo(ts, t) == Ok(ts + [t])
  {
  }

  /** The descriptor of track `k` in the saved manifest loads that track from the archive. */
  lemma DescriptorReloads(v: DocValue, k: nat)
    requires Reloadable(v) && k < |v.tracks|
    ensures TrackFromDescriptor(Descriptors(v.tracks)[k], SavedArchive(v)) == Ok(v.tracks[k])
  {
    var ts, a := v.tracks, SavedArchive(v);
    var t := ts[k];
    assert a[k] == Entry(t.path, Utf8(t.content));
    assert t in ts;
    NotManifest(t);
    LookupUnshadowed(a, k);
  }

  /** A descriptor that loads a track with a fresh id: the loading loop adds it and goes on. */
  lemma AddFreshDescriptor(ts: seq<Track>, ds: seq<Descriptor>, a: seq<Entry>, t: Track)
    requires ds != [] && TrackFromDescriptor(ds[0], a) == Ok(t)
    requires forall i :: 0 <= i < |ts| ==> ts[i].trackId != t.trackId
    ensures AddDescriptors(ts, ds, a) == AddDescriptors(ts + [t], ds[1..], a)
  {
    AddToFresh(ts, t);
  }

  /** Descriptor `k` loads track `k`, whose id no earlier track has: the loop goes from
      position `k` to `k + 1`. */
  lemma FreshStep(ts: seq<Track>, ds: seq<Descriptor>, a: seq<Entry>, k: nat)
    requires k < |ts| && k < |ds| && TrackFromDescriptor(ds[k], a) == Ok(ts[k])
    requires forall i :: 0 <= i < k ==> ts[i].trackId != ts[k].trackId
    ensures AddDescriptors(ts[..k], ds[k..], a) == AddDescriptors(ts[..k + 1], ds[k + 1..], a)
  {
    assert ds[k..][0] == ds[k];
    forall i | 0 <= i < |ts[..k]| ensures ts[..k][i].trackId != ts[k].trackId {
      assert ts[..k][i] == ts[i];
    }
    AddFreshDescriptor(ts[..k], ds[k..], a, ts[k]);
    assert ts[..k] + [ts[k]] == ts[..k + 1];
    assert ds[k..][1..] == ds[k + 1..];
  }

  /** One pass of the loading loop over a saved manifest adds the next saved track. */
  lemma ReloadStep(v: DocValue, k: nat)
    requires Reloadable(v) && k < |v.tracks|
    ensures AddDescriptors(v.tracks[..k], Descriptors(v.tracks)[k..], SavedArchive(v))
            == AddDescriptors(v.tracks[..k + 1], Descriptors(v.tracks)[k + 1..], SavedArchive(v))
  {
    DescriptorReloads(v, k);
    FreshStep(v.tracks, Descriptors(v.tracks), SavedArchive(v), k);
  }

  lemma {:induction false} ReloadTracks(v: DocValue, k: nat)
    requires Reloadable(v) && k <= |v.tracks|
    ensures AddDescriptors(v.tracks[..k], Descriptors(v.tracks)[k..], SavedArchive(v)) == Ok(v.tracks)
    decreases |v.tracks| - k
  {
    if k == |v.tracks| {
      assert v.tracks[..k] == v.tracks;
      assert Descriptors(v.tracks)[k..] == [];
    } else {
      ReloadStep(v, k);
      ReloadTracks(v, k + 1);
    }
  }

  /** Saving a document whose tracks are well formed and have distinct paths, then loading
      the archive, gives back the same document. */
  lemma SaveLoadRoundTrip(v: DocValue)
    requires Reloadable(v)
    ensures LoadValue(SavedArchive(v)) == Ok(v)
  {
    var a := SavedArchive(v);
    LookupUnshadowed(a, |a| - 1);
    IsoFormatRoundTrip(v.created);
    ReloadTracks(v, 0);
    assert v.tracks[..0] == [];
  }

  /** The manifest entry of a saved archive is the one `save_mdkv` wrote last. */
  lemma SavedManifestFound(v: DocValue)
    requires forall t :: t in v.tracks ==> TrackOk(t)
    ensures LoadValue(SavedArchive(v)) == DocValueFromManifest(ManifestOf(v), SavedArchive(v))
  {
    var a := SavedArchive(v);
    forall k | 0 <= k < |a| - 1 ensures a[k].name != ManifestName {
      assert v.tracks[k] in v.tracks;
      NotManifest(v.tracks[k]);
    }
    LookupUnshadowed(a, |a| - 1);
  }

  /** Without distinct paths the round trip fails: two tracks saved at the same path both load
      the text written last, so tracks that differ in content do not come back. */
  lemma SharedPathLosesContent(v: DocValue, i: nat, j: nat)
    requires DistinctIds(v.tracks) && forall t :: t in v.tracks ==> TrackOk(t)
    requires i < j < |v.tracks| && v.tracks[i].path == v.tracks[j].path
    ensures var r := LoadValue(SavedArchive(v));
            r.Ok? ==> |r.value.tracks| == |v.tracks| && r.value.tracks[i].content == r.value.tracks[j].content
    ensures v.tracks[i].content != v.tracks[j].content ==> LoadValue(SavedArchive(v)) != Ok(v)
  {
    var a := SavedArchive(v);
    var m := ManifestOf(v);
    SavedManifestFound(v);
    ManifestLoadFacts(m, a);
    var r := DocValueFromManifest(m, a);
    if r.Ok? {
      var ti, tj := r.value.tracks[i], r.value.tracks[j];
      assert LoadedFrom(ti, m.tracks.value[i], a);
      assert LoadedFrom(tj, m.tracks.value[j], a);
      assert DescriptorOf(ti) == DescriptorOf(v.tracks[i]) && DescriptorOf(tj) == DescriptorOf(v.tracks[j]);
      assert ti.path == tj.path;
      assert ReadText(a, ti.path) == Ok(ti.content) && ReadText(a, tj.path) == Ok(tj.content);
    }
  }
}
