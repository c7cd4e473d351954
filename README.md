# MDKV core, modelled and verified in Dafny

MDKV stores a multi-track Markdown document in one archive. The archive holds a `manifest.yaml` that describes the
document, plus one Markdown text per track under `tracks/`. This project models the logical core of the Python
package and of the browser helper that reads its combined export. It then proves what that core promises.

The modules:

- **Text** (`text.dfy`): the Python and JavaScript string operations the core relies on. These are `lstrip`,
  `rstrip`, `strip`, `startswith`, `find`, `split`, `join`, `splitlines` and `<` on `str`.
- **Model** (`model.dfy`): `Track` and its construction checks, and `MDKVDocument`.
  - `Model.Document` is a class whose insertion-ordered `tracks` dict is kept as a key sequence `order` plus a map.
  - Its invariant `Valid()` says three things: every key appears once in `order`, `order` lists exactly the keys,
    and each key equals its track's `track_id`.
  - Every mutating method is proved against a value-level reference definition (`AddTo`, `Renamed`, `OfType`,
    `SortedSet`, `MetaGet`). Each method also gives the whole new state through `Value()`.
- **Validate** (`validate.dfy`): `validate_document`. The issue list is built by successive appends. The method
  fails with the `"; "`-joined messages exactly when a rule is broken.
- **Storage** (`storage.dfy`): `_manifest_from_doc`, `_doc_from_manifest`, `save_mdkv` and `load_mdkv`.
  - The archive is a list of named entries. A later entry with the same name shadows an earlier one, as a ZIP
    reader does.
  - The manifest entry holds the manifest record itself, so YAML is an identity encoding.
  - The main result is the save/load round trip `SaveLoadRoundTrip`. `SharedPathLosesContent` shows why that round
    trip needs distinct track paths.
- **Library** (`library.py`'s `build_document_from_definition`, in `library.dfy`): builds a document from a
  definition record, storing each track at `tracks/<id>.md`. It proves that a built document always survives
  save/load.
- **Export** (`export.dfy`): `to_markdown`. The loop that appends to `parts` with a type filter is a method proved
  against the value-level `Markdown`.
- **CombinedParser** (`parser.dfy`): `parseCombinedTracks` from `main.js`.
  - The global regular expression `/<!--\s*track:([^\s]+)\s+type:[^>]*?-->/g` is modelled deterministically.
    `MatchAt` is one attempt at a position. `NextMatch` is `exec` from `lastIndex`. `AllMatches`, with its
    continuation `MatchesAfter`, collects matches the way the `while` loop does.
  - Both loops of the function are methods (`CollectMatches`, `SectionsOf`) proved against those functions.
- **RoundTrip** (`roundtrip.dfy`): reading back the combined export. The parser finds one section per exported track,
  in order, when four conditions hold:
  - the title contains no `<!--`;
  - no exported content contains `<!--`;
  - every id is non-empty and free of whitespace;
  - no type or language contains `>`.

  Each section holds the track's id and its content with leading whitespace removed. Every section but the last
  keeps the blank line that begins the next header.
- **PaperBundle** (`paper_bundle.dfy`): three helpers, each a method with its loop, proved against a value-level
  definition. They are `strip_leading_html_comments`, `extract_section_by_heading` and the splitting part of
  `split_front_matter_and_body`.

Facts about the code that the model reproduces and that are easy to get wrong:

- `rename_track` checks "new id exists" (`ValueError`) before "old id missing" (`KeyError`).
- `rename_track` appends the renamed key at the end of the insertion order, because it pops the old key and
  inserts the new one.
- `rename_track(x, x)` raises `ValueError` when `x` is present and `KeyError` when it is absent
  (`Model.RenameToSelfFails`).
- `rename_track` accepts an empty new id, so the document invariant does not include the `Track` construction
  checks.
- The save/load round trip needs distinct track paths (`Storage.SharedPathLosesContent`).

## Model

| member | source | states |
|---|---|---|
| Model.AllowedTrackTypes | mdkv/core/model.py:22-35 | seven track types, pairwise distinct, "primary" among them |
| Model.NewTrack | mdkv/core/model.py:55-61 | construction succeeds exactly when the type is allowed, the id is non-empty and the path starts with "tracks/"; otherwise it raises the `ValueError` of the first failing check, in the order type, id, path, with the source's messages |
| Model.Document.constructor | mdkv/core/model.py:64-75 | a new document has the given title, authors, created and version (default "0.1"), no tracks and no metadata, and satisfies the key invariant |
| Model.Document.AddTrack | mdkv/core/model.py:77-84 | fails with `ValidationError("duplicate track_id: …")` and changes nothing exactly when the id is present; otherwise appends the id at the end of the order and maps it to the track; keeps the invariant that each key is its track's id |
| Model.AddToKeepsDistinct | mdkv/core/model.py:77-84 | a successful add keeps the track ids distinct |
| Model.Document.GetTrack | mdkv/core/model.py:86-88 | returns a track exactly when the id is a key, and then the track stored at that id's position in the order |
| Model.Document.RemoveTrack | mdkv/core/model.py:90-97 | `KeyError(id)` and no change when the id is absent; otherwise returns that track and removes only it, the others keeping their relative order; keeps the invariant |
| Model.WellKeyedRemove | mdkv/core/model.py:95-97 | removing one key from the order and the map keeps the key invariant |
| Model.Document.ListLanguages | mdkv/core/model.py:99-102 | strictly ascending list holding exactly the truthy languages of the tracks (neither None nor "") |
| Model.StrictlySortedUnique | mdkv/core/model.py:101-102 | two strictly ascending lists with the same elements are equal, so the result is the unique `sorted(set(...))` |
| Model.Document.FindTracksByType | mdkv/core/model.py:105-107 | exactly the tracks of the given type, as the order-preserving filter of the track list |
| Model.OfTypeAppend | mdkv/core/model.py:105-107 | the filter distributes over concatenation, so it keeps document order |
| Model.Document.UpdateTrackContent | mdkv/core/model.py:109-117 | `KeyError(id)` and no change when the id is missing; otherwise only that track's content changes; order, other fields and other tracks unchanged |
| Model.Document.RenameTrack | mdkv/core/model.py:119-134 | `ValueError("track id exists: …")` when the new id is present, checked first; else `KeyError(old)` when the old id is missing; either failure leaves the document unchanged; success removes the old key and appends the new one, mapped to the renamed track |
| Model.Renamed | mdkv/core/model.py:129-133 | the renamed track has the new id; its path becomes "tracks/<new>.md" exactly when the old path starts with "tracks/" and ends with ".md", and is otherwise unchanged; type, language and content are kept |
| Model.RenamedTrackOk | mdkv/core/model.py:131-133 | a renamed valid track still passes the `Track` checks exactly when the new id is non-empty |
| Model.RenameToSelfFails | mdkv/core/model.py:124-128 | renaming an id to itself always fails without change: `ValueError` when the id is present, `KeyError` when it is absent |
| Model.Document.SetMetadata | mdkv/core/model.py:137-139 | the metadata map gets the key bound to the value; nothing else changes |
| Model.MetaGet | mdkv/core/model.py:141-143 | the stored value when the key is present, the default otherwise |
| Model.Document.GetMetadata | mdkv/core/model.py:141-143 | the stored value when the key is present, the default otherwise |
| Model.Document.RemoveMetadata | mdkv/core/model.py:145-147 | the key is removed; removing a missing key changes nothing |
| Model.MetadataLaws | mdkv/core/model.py:137-147 | set-then-get returns the value set, other keys are untouched, get after remove gives the default, and removing a missing key is a no-op |
| Validate.CollectIssues | mdkv/core/validate.py:22-28 | every issue is an ERROR; the messages are those of the broken rules in the order title, authors, primary; each rule's issue is present exactly when its condition holds (the primary check is on the key) |
| Validate.Errors | mdkv/core/validate.py:30 | the filter keeps exactly the ERROR issues, and returns the list unchanged when every issue is an ERROR |
| Validate.ErrorsAppend | mdkv/core/validate.py:30 | the filter distributes over concatenation, so it keeps the issues' order |
| Validate.ValidateDocument | mdkv/core/validate.py:17-35 | fails exactly when the title is empty, the authors are empty or no track has the key "primary", with the broken rules' messages joined by "; " in rule order; a normal return is the empty list; it has no `modifies` clause |
| Validate.AllRulesBrokenMessage | mdkv/core/validate.py:30-34 | with every rule broken, the message is the three messages joined by "; " |
| Validate.SingleRuleMessage | mdkv/core/validate.py:30-34 | with one rule broken, the message is that rule's message alone |
| Storage.IsoFormatRoundTrip | mdkv/storage/io.py:32 | decoding the stand-in encoding of `created` gives back the timestamp |
| Storage.SaveMdkv | mdkv/storage/io.py:74-85 | the archive written is one entry per track (its path, its content) in document order, then the manifest entry |
| Storage.Lookup | mdkv/storage/io.py:61 | an archive lookup finds nothing exactly when no entry has the name, and otherwise the data of the last entry with that name |
| Storage.LookupUnshadowed | mdkv/storage/io.py:91 | an entry with no later namesake is what a lookup of its name finds |
| Storage.ReadTextSpec | mdkv/storage/io.py:61-62 | opening an entry fails exactly when no entry has the name, with zipfile's `KeyError("There is no item named '<name>' in the archive")`; a text entry written last under the name gives its text |
| Storage.TrackFromDescriptorSpec | mdkv/storage/io.py:60-69 | one pass up to `add_track` raises, in order, `KeyError("path")`, the missing-entry `KeyError`, `KeyError("track_id")`, `KeyError("track_type")`, then the `Track` checks' `ValueError`s; a loaded track has the descriptor's fields and the entry's text |
| Storage.ManifestAsTrackRejected | mdkv/storage/io.py:60-69 | a descriptor whose path is "manifest.yaml" opens that entry, then fails with `KeyError("track_id")`, `KeyError("track_type")` or the `ValueError` for a path outside "tracks/" |
| Storage.AddDescriptorsStep | mdkv/storage/io.py:59-70 | a successful pass of the loading loop reads the descriptor's track, loaded as it describes, and adds it |
| Storage.AddDescriptorsFollow | mdkv/storage/io.py:59-70 | a successful load adds one track per descriptor, in manifest order, each loaded from its descriptor's path and fields, with distinct ids |
| Storage.DuplicateDescriptorsRejected | mdkv/storage/io.py:63-70 | a manifest listing one track id twice does not load |
| Storage.FirstDuplicateDescriptor | mdkv/storage/io.py:59-70 | at the first repeated track id, after descriptors that all load, the loop fails with `ValidationError("duplicate track_id: <id>")` |
| Storage.FirstBadDescriptor | mdkv/storage/io.py:59-70 | the first descriptor that does not load, after descriptors with distinct ids, gives the loop its own error |
| Storage.ManifestDuplicateError | mdkv/storage/io.py:47-70 | a manifest whose header reads fails to load with the duplicate error of its first repeated track id |
| Storage.ManifestLoadFacts | mdkv/storage/io.py:52-70 | a missing title gives `KeyError("title")`, then a missing created gives `KeyError("created")`; on success the document has the manifest's title, decoded created, authors (default []), version (default "0.1"), metadata (default {}) and one loaded track per descriptor |
| Storage.DocFromManifest | mdkv/storage/io.py:47-71 | the loop over descriptors that calls `add_track` on a fresh document gives the same document or the same error as the value-level load |
| Storage.LoadValue | mdkv/storage/io.py:88-93 | no manifest entry gives zipfile's missing-entry `KeyError`; a text where the manifest record belongs is a `YamlError`; otherwise the result is `_doc_from_manifest` on the manifest; a loaded document has distinct ids and tracks that pass the construction checks |
| Storage.LoadMdkv | mdkv/storage/io.py:88-93 | the method gives the same document or the same error as the value-level load |
| Storage.SavedManifestFound | mdkv/storage/io.py:85 | the manifest that loading reads back from a saved archive is the one `save_mdkv` wrote |
| Storage.DescriptorReloads | mdkv/storage/io.py:59-69 | in a saved archive, each track's descriptor loads back exactly that track |
| Storage.LoadPrefix | mdkv/storage/io.py:59-70 | descriptors with distinct ids that all load are added in order before the loop reaches the next descriptor |
| Storage.ReloadTracks | mdkv/storage/io.py:59-70 | loading the saved descriptors from position k on, after the first k tracks, gives back every track in order |
| Storage.SaveLoadRoundTrip | mdkv/storage/io.py:74-93 | a document with distinct ids and paths and valid tracks loads back equal to itself in every field, with the track order preserved |
| Storage.SharedPathLosesContent | mdkv/storage/io.py:83-84 | two tracks saved at one path load with the same content, so tracks that differ in content do not round-trip |
| Library.DefPathInjective | mdkv/library.py:19 | different ids give different paths "tracks/<id>.md" |
| Library.TrackFromDef | mdkv/library.py:15-21 | a record without "id" or "type" raises `KeyError`; an unknown type raises `ValueError("Unsupported track_type: …")` and an empty id `ValueError("track_id must not be empty")`; otherwise the track has path "tracks/<id>.md", language None and content "" by default, and passes the path check |
| Library.AddDefsFollow | mdkv/library.py:14-22 | a successful build adds one track per record, in definition order, with distinct ids |
| Library.AddDefsBadRecord | mdkv/library.py:15-22 | a record that cannot become a track makes the loop fail |
| Library.BuiltFacts | mdkv/library.py:12-23 | a missing title is a `KeyError`; a built document has the title, the authors (default []), created or the current time, version "0.1", no metadata, and one track per record in order |
| Library.BadRecordFails | mdkv/library.py:15-22 | a bad record (missing key, unknown type, empty id) fails the build |
| Library.DuplicateIdFails | mdkv/library.py:15-22 | two records with one id fail the build |
| Library.BuildPrefix | mdkv/library.py:14-22 | records with distinct ids that all build are added in order before the loop reaches the next record |
| Library.FirstBadRecord | mdkv/library.py:15-22 | the first record that cannot become a track gives the loop its own error |
| Library.FirstDuplicateRecord | mdkv/library.py:15-22 | the first repeated id, after buildable records, gives `ValidationError("duplicate track_id: <id>")` |
| Library.BadRecordError | mdkv/library.py:12-23 | the build fails with the first bad record's own `KeyError` or `ValueError` |
| Library.DuplicateIdError | mdkv/library.py:12-23 | the build fails with `ValidationError("duplicate track_id: <id>")` at the first repeated id |
| Library.BuiltReloads | mdkv/library.py:12-23 | every built document saves and loads back unchanged |
| Library.BuildDocumentFromDefinition | mdkv/library.py:12-23 | the loop that calls `add_track` gives the same document or the same error as the value-level build |
| Export.Selection | mdkv/services/export.py:23 | no filter and an empty filter both select everything; otherwise the selection is the set of listed types |
| Export.Kept | mdkv/services/export.py:25-27 | a track is kept exactly when it is in the document and selected |
| Export.PartsStep | mdkv/services/export.py:25-29 | one pass of the loop appends a segment exactly for a selected track |
| Export.ToMarkdown | mdkv/services/export.py:16-30 | the loop's output is the value-level export; the document is not modified |
| Export.MarkdownLayout | mdkv/services/export.py:24-30 | the export is the title comment followed by the kept tracks' segments concatenated, with no other separators |
| Export.UnfilteredExportsAll | mdkv/services/export.py:23 | with no filter or an empty one, every track gives one segment, in document order |
| Export.FilterKeepsListedTypes | mdkv/services/export.py:26-27 | with a non-empty filter, exactly the tracks whose type is listed are exported |
| CombinedParser.MatchShape | mdkv/gui/static/main.js:120 | every match opens with "<!--", closes with "-->", and captures a non-empty id without whitespace |
| CombinedParser.NextMatchIsMatch | mdkv/gui/static/main.js:123 | what `exec` returns is a match attempted at its own index |
| CombinedParser.AllMatchesOrdered | mdkv/gui/static/main.js:122-125 | the collected matches lie inside the text, start at or after the scan start, and do not overlap, left to right |
| CombinedParser.AllMatchesAreMatches | mdkv/gui/static/main.js:122-125 | every collected match is the match found at its index |
| CombinedParser.NextMatchLeftmost | mdkv/gui/static/main.js:123 | `exec` returns the leftmost match from `lastIndex`: no earlier position matches, and when it returns null no position from `lastIndex` does |
| CombinedParser.AllMatchesCover | mdkv/gui/static/main.js:121-125 | the loop skips no header: every matching position from the start is where a collected match starts or lies inside one |
| CombinedParser.NoMatchBetween | mdkv/gui/static/main.js:121-125 | no position between two consecutive collected matches, or after the last, holds a match |
| CombinedParser.CollectMatches | mdkv/gui/static/main.js:121-125 | the `while` loop over `exec` collects exactly the matches from the start of the text |
| CombinedParser.CollectStep | mdkv/gui/static/main.js:123-124 | one `exec` and push keeps the collected prefix plus what remains equal to all the matches |
| CombinedParser.Sections | mdkv/gui/static/main.js:126-133 | one section per match |
| CombinedParser.SectionAt | mdkv/gui/static/main.js:127-132 | section i holds match i's id and the text from the end of its header to the next match's index or the end, with leading whitespace removed |
| CombinedParser.SectionsOf | mdkv/gui/static/main.js:126-133 | the `for` loop builds exactly the sections of the matches |
| CombinedParser.Parse | mdkv/gui/static/main.js:119-135 | no section's content starts with whitespace |
| CombinedParser.ParsedIds | mdkv/gui/static/main.js:120 | every parsed id is non-empty and free of whitespace |
| CombinedParser.ParseCombinedTracks | mdkv/gui/static/main.js:119-135 | the function's result is the value-level parse |
| RoundTrip.HeaderMatchAt | mdkv/gui/static/main.js:120 | an exported header comment with a readable id, type and language matches where it stands, capturing the track id and spanning the whole comment |
| RoundTrip.TitleScan | mdkv/gui/static/main.js:120 | a title line whose title has no "<!--" holds no match: scanning from the start finds what scanning from the end of the title line finds |
| RoundTrip.SegmentScan | mdkv/gui/static/main.js:123 | inside one exported track the reader finds its header two characters in, and nothing else before the track ends |
| RoundTrip.MatchesFrom | mdkv/gui/static/main.js:122-125 | from where the exported tracks start, the reader collects exactly their headers, in order |
| RoundTrip.SectionOfExport | mdkv/gui/static/main.js:127-133 | section i is track i's id and content, leading whitespace removed, with the next header's blank line kept unless it is the last |
| RoundTrip.ExportParseRoundTrip | mdkv/gui/static/main.js:119-135 | parsing the export gives one section per exported track, in order, with the track's id and its content stripped of leading whitespace, plus "\n\n" for all but the last |
| RoundTrip.ExportParseKeepsContent | mdkv/services/export.py:28-29 | a content that does not start with whitespace comes back unchanged, followed by "\n\n" unless its track is the last exported |
| PaperBundle.SplitFrontMatterAndBody | paper/build_paper_bundle.py:45-60 | the indexed search with early return gives the value-level split |
| PaperBundle.FenceFirst | paper/build_paper_bundle.py:49-50 | the search stops at the first fence line after the opening one, or finds none |
| PaperBundle.FrontMatterSplitSpec | paper/build_paper_bundle.py:47-60 | fewer than three lines, no opening "---" or no closing "---" give the text back unchanged; otherwise the front matter is the lines between and the body the lines after the first closing fence, "\n"-joined |
| PaperBundle.FrontMatterOfComposed | paper/build_paper_bundle.py:49-59 | a file written as fence, front-matter lines, fence and body lines splits back into those front-matter and body texts |
| PaperBundle.CommentStepShrinks | paper/build_paper_bundle.py:69-73 | each turn of the loop removes at least five characters, so the loop ends |
| PaperBundle.StrippedCommentsShape | paper/build_paper_bundle.py:68-74 | the result is a suffix of the input, starts with no whitespace, and does not open with a terminated comment |
| PaperBundle.StrippedCommentsIdempotent | paper/build_paper_bundle.py:63-74 | stripping twice gives the same as stripping once |
| PaperBundle.StripLeadingHtmlComments | paper/build_paper_bundle.py:63-74 | the `while` loop gives the value-level result |
| PaperBundle.HeadingAtFirst | paper/build_paper_bundle.py:142-145 | the first loop stops at the first line whose stripped form matches the heading |
| PaperBundle.NextH2First | paper/build_paper_bundle.py:149-153 | the second loop stops at the first line from its start that begins with "## ", and no line before it begins so |
| PaperBundle.ExtractSectionByHeading | paper/build_paper_bundle.py:134-154 | the two loops give the value-level result |
| PaperBundle.NoHeadingNoSection | paper/build_paper_bundle.py:146-147 | no matching line gives "" |
| PaperBundle.SectionBetween | paper/build_paper_bundle.py:148-154 | with a match, the result is the lines strictly after the first matching line, up to the next "## " line or the end, "\n"-joined |
| PaperBundle.SectionOfComposed | paper/build_paper_bundle.py:134-154 | a text made of lines before the heading, the heading, the section's lines and a following "## " part gives back the section |

## Left out

- The ZIP container and deflate compression (`zipfile`), the filesystem calls and `mkdir`: the archive is a list of
  (name, data) entries where a later entry shadows an earlier one. The missing-entry `KeyError` message quotes the
  name as `'<name>'`; the escaping `repr` applies to names with quotes or control characters is not modelled.
- The YAML encoding of the manifest: the manifest entry holds the manifest record itself. Key order and
  `sort_keys=False` therefore do not appear. The YAML text of the manifest entry, when a descriptor names it as
  a track's path, is not modelled: it reads as "", and the track checks that follow give the source's errors.
- LoadValue: an entry holding text where the manifest belongs is a `YamlError`; what `yaml.safe_load` would make
  of that text is not modelled.
- The UTF-8 encode and decode of track texts: an entry's text is read back as written.
- ISO 8601: `created` is a microsecond count, encoded as decimal digits, with a proved decode. `isoformat` and
  `fromisoformat` themselves are not modelled.
- `MDKVDocument(tracks=..., metadata=...)`: the constructor's optional initial tracks and metadata are not
  parameters of `Model.Document.constructor`; no caller in the core passes them.
- The wall clock: `utcnow()` in the library builder is the parameter `now`.
- `metadata.update`: manifest metadata is merged into an empty map. Metadata order is not modelled, since a Dafny
  map is unordered.
- Track aliasing: a `Track` is a value. A caller holding a track object and mutating it after `add_track` is not
  modelled; neither is the GUI's direct field mutation.
- Dynamic typing of the manifest and definition records: a key is present (`Some`) or absent (`None`).
  `list(authors)` copies values, which is the identity on sequences.
- Whitespace: `IsSpace` is the intersection of Python's `str.isspace` and JavaScript's `\s`. Characters on which
  they disagree are not modelled.
- `splitlines`: only '\n' breaks a line.
- JavaScript strings are sequences of UTF-16 code units; here they are sequences of characters.
- CombinedParser.NextMatch: a capture keeps the id as a string. The match object also carries only the index, the
  id and the length, which is all the function uses.
- The regular expression of `extract_section_by_heading` (compiled with `re.IGNORECASE`) is the parameter
  `heading: string -> bool`, applied to the stripped line.
- `yaml.safe_load` of the front matter: the model returns the front-matter text it would parse.
- `to_html` (MarkdownIt), `export_to_files`, the search service, the GUI server, the rest of `main.js`, the command
  line, `build_document`, `ensure_list`, checksums and git: outside the modelled core.
- RoundTrip.ExportParseRoundTrip: it assumes no "<!--" in the title or in any exported content. This is stronger
  than needed: only text that forms a full header would be misread.
- RoundTrip.ExportParseRoundTrip: it does not strip the trailing "\n\n" the parser keeps; the content comes back
  with that blank line.
