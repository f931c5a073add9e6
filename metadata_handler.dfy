/**
 * Tag handling for lossy files: which extensions may be tagged, the checks
 * made before a file's tags are touched, and the per-format name tables
 * that move the six metadata fields into and out of a tag container.
 *
 * A tag container is a map from tag name to tag value. Each format has a
 * write table (field name to tag name) used when applying metadata and a
 * read table (tag name, field name) walked in order when reading; the two
 * are inverse to each other. A field is written only when it is one of the
 * six known fields and its value is non-empty.
 */
module MetadataHandler {
  import opened Wrappers
  import opened Strings
  import opened Paths

  // ---------------------------------------------------------------------
  // supports_format and the guards of read/apply
  // ---------------------------------------------------------------------

  const SupportedExtensions: set<string> := {"mp3", "ogg", "aac", "m4a", "opus", "flac", "wav"}

  /** `supports_format(extension)`: the extension, lower-cased, is one of the seven. */
  function SupportsFormat(extension: string): (r: bool)
    ensures r ==> 3 <= |extension| <= 4 && '.' !in extension
  {
    var low := Lower(extension);
    assert '.' in extension ==> '.' in low by {
      if '.' in extension {
        var k :| 0 <= k < |extension| && extension[k] == '.';
        assert low[k] == '.';
      }
    }
    low in SupportedExtensions
  }

  /** Support does not depend on case: exactly the lower-case forms of the seven are supported. */
  lemma SupportsFormatIgnoresCase(extension: string)
    ensures SupportsFormat(extension) <==> SupportsFormat(Lower(extension))
    ensures SupportsFormat(extension) <==> Lower(extension) in SupportedExtensions
  {
    LowerIdempotent(extension);
  }

  lemma SupportsFormatExamples()
    ensures SupportsFormat("MP3") && SupportsFormat("Opus") && SupportsFormat("flac")
    ensures !SupportsFormat("txt") && !SupportsFormat(".mp3") && !SupportsFormat("")
  {
    assert Lower("MP3") == "mp3";
    assert Lower("Opus") == "opus";
    assert Lower("flac") == "flac";
    assert Lower("txt") == "txt";
    assert Lower(".mp3") == ".mp3";
  }

  /** `s.lstrip(c)`: drops every leading `c`. */
  function LStripChar(s: string, c: char): (r: string)
    ensures |r| <= |s| && r == s[|s| - |r|..]
    ensures r == [] || r[0] != c
    ensures forall k :: 0 <= k < |s| - |r| ==> s[k] == c
  {
    if |s| > 0 && s[0] == c then LStripChar(s[1..], c) else s
  }

  /** `Path(file_path).suffix.lower().lstrip(".")`: the extension without its dot, or "". */
  function ExtensionOf(filePath: string): (r: string)
    ensures '.' !in r
  {
    NameExtension(Name(ParsePath(filePath)))
  }

  /** The extension of a final path part, lower-cased and without its dot. */
  function NameExtension(name: string): (r: string)
    ensures '.' !in r
  {
    var s := Suffix(name);
    var ext := LStripChar(Lower(s), '.');
    assert '.' !in ext by {
      if ext != [] {
        forall k | 0 <= k < |ext| ensures ext[k] != '.' {
          var j := |s| - |ext| + k;
          assert ext[k] == Lower(s)[j] == LowerChar(s[j]);
        }
      }
    }
    ext
  }

  datatype TagError =
    | IOError(message: string)
    | ValueError(message: string)
    | TypeError(message: string)

  /**
   * The checks `read_metadata_from_file` and `apply_metadata_to_file` make
   * before any tag is read or written: that the file exists, then that its
   * extension is supported, then that the tag library could load it. The
   * outcomes of the existence test and of loading are parameters.
   */
  function CheckTagAccess(exists_: bool, filePath: string, loadable: bool): (r: Result<(), TagError>)
    ensures r.Ok? <==> exists_ && SupportsFormat(ExtensionOf(filePath)) && loadable
    ensures !exists_ ==> r == Err(IOError("File does not exist: " + filePath))
    ensures exists_ && !SupportsFormat(ExtensionOf(filePath)) ==>
              r == Err(ValueError("Unsupported format: " + ExtensionOf(filePath)))
    ensures exists_ && SupportsFormat(ExtensionOf(filePath)) && !loadable ==>
              r == Err(IOError("Could not load audio file: " + filePath))
  {
    if !exists_ then Err(IOError("File does not exist: " + filePath))
    else
      var extension := ExtensionOf(filePath);
      if !SupportsFormat(extension) then Err(ValueError("Unsupported format: " + extension))
      else if !loadable then Err(IOError("Could not load audio file: " + filePath))
      else Ok(())
  }

  /**
   * The guard order: a missing file is reported whatever the outcome of
   * loading would have been, and so is an unsupported extension, which is
   * the only ValueError and arises only for a file that exists.
   */
  lemma GuardOrder(exists_: bool, filePath: string, loadable: bool)
    ensures var r := CheckTagAccess(exists_, filePath, loadable);
      && (!exists_ ==> CheckTagAccess(exists_, filePath, !loadable) == r)
      && (r.Err? && r.error.ValueError? ==> exists_ && CheckTagAccess(exists_, filePath, !loadable) == r)
  {
  }

  /** A name ending in a plain suffix has that suffix's text, lower-cased, as its extension. */
  lemma NameExtensionOfSuffix(stem: string, suffix: string)
    requires stem != "" && PlainSuffix(suffix)
    ensures NameExtension(stem + suffix) == Lower(suffix[1..])
  {
    SuffixOfStemPlus(stem, suffix);
    var low := Lower(suffix);
    assert low[0] == '.';
    assert low[1..] == Lower(suffix[1..]);
    var rest := low[1..];
    assert rest != [] && rest[0] != '.' by {
      assert low[1] == LowerChar(suffix[1]);
      assert suffix[1] in suffix[1..];
    }
    assert LStripChar(rest, '.') == rest;
    assert LStripChar(low, '.') == LStripChar(rest, '.');
  }

  /** A name without a dot, or whose only dot comes first, has no extension. */
  lemma NameExtensionNone(name: string)
    requires '.' !in name || (name[0] == '.' && '.' !in name[1..])
    ensures NameExtension(name) == ""
  {
    if '.' in name {
      forall k | 1 <= k < |name| ensures name[k] != '.' {
        assert name[1..][k - 1] == name[k];
      }
      assert RFind(name, '.') == 0;
    }
    assert Lower("") == "";
  }

  // ---------------------------------------------------------------------
  // Name tables and the write/read rules shared by all formats
  // ---------------------------------------------------------------------

  /** Distinct fields go to distinct tags. */
  ghost predicate Injective(tags: map<string, string>)
  {
    forall f, g :: f in tags && g in tags && tags[f] == tags[g] ==> f == g
  }

  /** The fields named by a read table. */
  function FieldSet(table: seq<(string, string)>): set<string>
  {
    set k | 0 <= k < |table| :: table[k].1
  }

  /**
   * The read table `table` (tag, field) and the write table `tags` (field to
   * tag) are inverse: every row of the read table is a row of the write
   * table, the read table names every field of the write table, and the
   * write table sends distinct fields to distinct tags.
   */
  ghost predicate TablesAgree(tags: map<string, string>, table: seq<(string, string)>)
  {
    && Injective(tags)
    && (forall k :: 0 <= k < |table| ==> table[k].1 in tags && tags[table[k].1] == table[k].0)
    && FieldSet(table) == tags.Keys
  }

  /** The fields a write table acts on, with their non-empty values. */
  function Recognised(tags: map<string, string>, metadata: Fields): Fields
  {
    map f | f in metadata && f in tags && metadata[f] != "" :: metadata[f]
  }

  /**
   * The tags written for the fields of `done`: each recognised field with a
   * non-empty value sets its tag to the value encoded for that format.
   */
  function WritesOn<V>(tags: map<string, string>, metadata: Fields, done: set<string>,
                       encode: (string, string) -> V): map<string, V>
    requires Injective(tags)
  {
    map f | f in done && f in metadata && f in tags && metadata[f] != "" :: tags[f] := encode(f, metadata[f])
  }

  /** The tags written for the whole metadata map. */
  function Writes<V>(tags: map<string, string>, metadata: Fields, encode: (string, string) -> V): map<string, V>
    requires Injective(tags)
  {
    WritesOn(tags, metadata, metadata.Keys, encode)
  }

  lemma WritesOnStep<V>(tags: map<string, string>, metadata: Fields, done: set<string>, f: string,
                        encode: (string, string) -> V)
    requires Injective(tags) && f in metadata && f !in done
    ensures WritesOn(tags, metadata, done + {f}, encode)
         == if f in tags && metadata[f] != "" then WritesOn(tags, metadata, done, encode)[tags[f] := encode(f, metadata[f])]
            else WritesOn(tags, metadata, done, encode)
  {
  }

  lemma MergeUpdate<V>(c: map<string, V>, w: map<string, V>, k: string, v: V)
    ensures (c + w)[k := v] == c + w[k := v]
  {
  }

  /** Before the first field is handled nothing has been written. */
  lemma ApplyStart<V>(tags: map<string, string>, metadata: Fields, encode: (string, string) -> V,
                      start: map<string, V>)
    requires Injective(tags)
    ensures start + WritesOn(tags, metadata, {}, encode) == start
  {
    assert WritesOn(tags, metadata, {}, encode) == map[];
  }

  /**
   * One step of an apply loop: handling `field` writes its tag exactly when
   * the field is recognised and non-empty, which extends the tags written so
   * far by that field's.
   */
  lemma ApplyStep<V>(tags: map<string, string>, metadata: Fields, done: set<string>, field: string,
                     encode: (string, string) -> V, start: map<string, V>)
    requires Injective(tags) && field in metadata && field !in done
    ensures field in tags && metadata[field] != "" ==>
              (start + WritesOn(tags, metadata, done, encode))[tags[field] := encode(field, metadata[field])]
              == start + WritesOn(tags, metadata, done + {field}, encode)
    ensures !(field in tags && metadata[field] != "") ==>
              start + WritesOn(tags, metadata, done, encode) == start + WritesOn(tags, metadata, done + {field}, encode)
  {
    WritesOnStep(tags, metadata, done, field, encode);
    if field in tags && metadata[field] != "" {
      MergeUpdate(start, WritesOn(tags, metadata, done, encode), tags[field], encode(field, metadata[field]));
    }
  }

  /** What the read loop collects for the fields of `done`. */
  function ReadBackOn<V>(tags: map<string, string>, container: map<string, V>, get: (string, V) -> string,
                         done: set<string>): map<string, string>
  {
    map f | f in done && f in tags && tags[f] in container :: get(f, container[tags[f]])
  }

  /** Reading: each field whose tag is present, with the value read from that tag. */
  function ReadBack<V>(tags: map<string, string>, container: map<string, V>, get: (string, V) -> string)
    : map<string, string>
  {
    ReadBackOn(tags, container, get, tags.Keys)
  }

  lemma ReadBackOnStep<V>(tags: map<string, string>, table: seq<(string, string)>, i: nat,
                          container: map<string, V>, get: (string, V) -> string)
    requires TablesAgree(tags, table) && i < |table|
    ensures var tag, field := table[i].0, table[i].1;
      ReadBackOn(tags, container, get, FieldSet(table[..i + 1]))
      == if tag in container then ReadBackOn(tags, container, get, FieldSet(table[..i]))[field := get(field, container[tag])]
         else ReadBackOn(tags, container, get, FieldSet(table[..i]))
  {
    assert FieldSet(table[..i + 1]) == FieldSet(table[..i]) + {table[i].1} by {
      forall f | f in FieldSet(table[..i + 1]) ensures f in FieldSet(table[..i]) + {table[i].1} {
        var k :| 0 <= k < i + 1 && table[..i + 1][k].1 == f;
        if k < i { assert table[..i][k].1 == f; }
      }
      forall f | f in FieldSet(table[..i]) ensures f in FieldSet(table[..i + 1]) {
        var k :| 0 <= k < i && table[..i][k].1 == f;
        assert table[..i + 1][k].1 == f;
      }
      assert table[..i + 1][i].1 == table[i].1;
    }
  }

  lemma ReadBackOnAll<V>(tags: map<string, string>, table: seq<(string, string)>,
                         container: map<string, V>, get: (string, V) -> string)
    requires TablesAgree(tags, table)
    ensures ReadBackOn(tags, container, get, FieldSet(table[..|table|])) == ReadBack(tags, container, get)
    ensures ReadBackOn(tags, container, get, FieldSet(table[..0])) == map[]
  {
    assert table[..|table|] == table;
    assert FieldSet(table[..0]) == {};
  }

  /**
   * Applying leaves every tag it does not write as it was, sets the tag of
   * every recognised non-empty field to that field's encoded value, and adds
   * no other tag.
   */
  lemma ApplyEffect<V>(tags: map<string, string>, container: map<string, V>, metadata: Fields,
                       encode: (string, string) -> V)
    requires Injective(tags)
    ensures var after := container + Writes(tags, metadata, encode);
      && (forall f :: f in Recognised(tags, metadata) ==>
            tags[f] in after && after[tags[f]] == encode(f, metadata[f]))
      && (forall t :: t in after <==>
            t in container || exists f :: f in Recognised(tags, metadata) && tags[f] == t)
      && (forall t :: t in container && (forall f :: f in Recognised(tags, metadata) ==> tags[f] != t) ==>
            after[t] == container[t])
      && (forall t :: t in after && t !in container ==> t in tags.Values)
      && (forall t :: t in container && t !in tags.Values ==> t in after && after[t] == container[t])
  {
    var w := Writes(tags, metadata, encode);
    forall t | t in w ensures exists f :: f in Recognised(tags, metadata) && tags[f] == t {
      var f :| f in metadata && f in tags && metadata[f] != "" && tags[f] == t;
      assert f in Recognised(tags, metadata);
    }
    forall t | t in w ensures t in tags.Values {
      var f :| f in metadata && f in tags && metadata[f] != "" && tags[f] == t;
    }
  }

  /** When every encoded value is a non-empty list, applying keeps every tag's list non-empty. */
  lemma ApplyKeepsNonEmpty<T>(tags: map<string, string>, container: map<string, seq<T>>, metadata: Fields,
                              encode: (string, string) -> seq<T>)
    requires Injective(tags)
    requires forall f, v :: |encode(f, v)| >= 1
    requires forall t :: t in container ==> |container[t]| >= 1
    ensures var after := container + Writes(tags, metadata, encode);
      forall t :: t in after ==> |after[t]| >= 1
  {
    var w := Writes(tags, metadata, encode);
    forall t | t in w ensures |w[t]| >= 1 {
      var f :| f in metadata && f in tags && metadata[f] != "" && tags[f] == t;
    }
  }

  /** The tag of a known field is written exactly when the field is recognised and non-empty. */
  lemma WritesDomain<V>(tags: map<string, string>, metadata: Fields, encode: (string, string) -> V, f: string)
    requires Injective(tags) && f in tags
    ensures tags[f] in Writes(tags, metadata, encode) <==> f in Recognised(tags, metadata)
    ensures f in Recognised(tags, metadata) ==> Writes(tags, metadata, encode)[tags[f]] == encode(f, metadata[f])
  {
    var w := Writes(tags, metadata, encode);
    if tags[f] in w {
      var g :| g in metadata && g in tags && metadata[g] != "" && tags[g] == tags[f];
      assert g == f;
    }
    if f in Recognised(tags, metadata) {
      assert f in metadata && metadata[f] != "";
      assert tags[f] in w;
    }
  }

  /** What reading gives back for the recognised fields, through the format's encoding. */
  function Reread<V>(tags: map<string, string>, metadata: Fields, encode: (string, string) -> V,
                     get: (string, V) -> string): map<string, string>
  {
    map f | f in Recognised(tags, metadata) :: get(f, encode(f, metadata[f]))
  }

  /** When decoding undoes encoding, reading back gives exactly the recognised fields. */
  lemma RereadIdentity<V>(tags: map<string, string>, metadata: Fields, encode: (string, string) -> V,
                          get: (string, V) -> string)
    requires forall f, v :: get(f, encode(f, v)) == v
    ensures Reread(tags, metadata, encode, get) == Recognised(tags, metadata)
  {
  }

  /** Reading back in general: the recognised fields, each mapped through `decode . encode`. */
  lemma RereadAs<V>(tags: map<string, string>, metadata: Fields, encode: (string, string) -> V,
                    get: (string, V) -> string, reread: (string, string) -> string)
    requires forall f, v :: get(f, encode(f, v)) == reread(f, v)
    ensures Reread(tags, metadata, encode, get)
         == map f | f in Recognised(tags, metadata) :: reread(f, metadata[f])
  {
  }

  /**
   * Applying and then reading gives back the old reading overridden by the
   * recognised non-empty fields, each read back through its format's
   * encoding: `decode(encode(v))` for every field written.
   */
  lemma ReadAfterApply<V>(tags: map<string, string>, container: map<string, V>, metadata: Fields,
                          encode: (string, string) -> V, get: (string, V) -> string)
    requires Injective(tags)
    ensures ReadBack(tags, container + Writes(tags, metadata, encode), get)
         == ReadBack(tags, container, get) + Reread(tags, metadata, encode, get)
  {
    var lhs := ReadBack(tags, container + Writes(tags, metadata, encode), get);
    var rhs := ReadBack(tags, container, get) + Reread(tags, metadata, encode, get);
    forall f | f in tags
      ensures (f in lhs <==> f in rhs) && (f in lhs ==> lhs[f] == rhs[f])
    {
      ReadAfterApplyAt(tags, container, metadata, encode, get, f);
    }
    MapsAgreeOn(lhs, rhs, tags.Keys);
  }

  /** Two maps whose keys lie in `keys` and that agree on every key of `keys` are equal. */
  lemma MapsAgreeOn(a: map<string, string>, b: map<string, string>, keys: set<string>)
    requires a.Keys <= keys && b.Keys <= keys
    requires forall f :: f in keys ==> (f in a <==> f in b) && (f in a ==> a[f] == b[f])
    ensures a == b
  {
  }

  /** The round trip at one field of the write table. */
  lemma ReadAfterApplyAt<V>(tags: map<string, string>, container: map<string, V>, metadata: Fields,
                            encode: (string, string) -> V, get: (string, V) -> string, f: string)
    requires Injective(tags) && f in tags
    ensures var lhs := ReadBack(tags, container + Writes(tags, metadata, encode), get);
      var rhs := ReadBack(tags, container, get) + Reread(tags, metadata, encode, get);
      (f in lhs <==> f in rhs) && (f in lhs ==> lhs[f] == rhs[f])
  {
    var w := Writes(tags, metadata, encode);
    var after := container + w;
    var lhs := ReadBack(tags, after, get);
    var before := ReadBack(tags, container, get);
    var added := Reread(tags, metadata, encode, get);
    var rhs := before + added;
    WritesDomain(tags, metadata, encode, f);
    var t := tags[f];
    if f in Recognised(tags, metadata) {
      assert t in after && after[t] == w[t];
      assert f in lhs && lhs[f] == get(f, w[t]);
      assert f in added;
      assert added[f] == get(f, encode(f, metadata[f]));
      assert rhs[f] == added[f];
    } else {
      assert f !in added;
      assert t in after <==> t in container;
      if t in container {
        assert after[t] == container[t];
        assert f in lhs && f in before && lhs[f] == before[f];
      }
    }
  }

  /** Round trip through a format whose decoding turns each encoded value into `reread` of it. */
  lemma ReadAfterApplyAs<V>(tags: map<string, string>, container: map<string, V>, metadata: Fields,
                            encode: (string, string) -> V, get: (string, V) -> string,
                            reread: (string, string) -> string)
    requires Injective(tags)
    requires forall f, v :: get(f, encode(f, v)) == reread(f, v)
    ensures ReadBack(tags, container + Writes(tags, metadata, encode), get)
         == ReadBack(tags, container, get) + map f | f in Recognised(tags, metadata) :: reread(f, metadata[f])
  {
    ReadAfterApply(tags, container, metadata, encode, get);
    RereadAs(tags, metadata, encode, get, reread);
  }

  /** The six metadata fields every format knows. */
  const KnownFields: set<string> := {"title", "artist", "album", "date", "track number", "albumartist"}

  // ---------------------------------------------------------------------
  // Ogg Vorbis and Opus: Vorbis comments
  // ---------------------------------------------------------------------

  const VorbisTags: map<string, string> := map[
    "title" := "TITLE", "artist" := "ARTIST", "album" := "ALBUM", "date" := "DATE",
    "track number" := "TRACKNUMBER", "albumartist" := "ALBUMARTIST"]

  const VorbisFields: seq<(string, string)> := [
    ("TITLE", "title"), ("ARTIST", "artist"), ("ALBUM", "album"), ("DATE", "date"),
    ("TRACKNUMBER", "track number"), ("ALBUMARTIST", "albumartist")]

  lemma VorbisInjective()
    ensures Injective(VorbisTags)
  {
  }

  lemma VorbisTablesAgree()
    ensures TablesAgree(VorbisTags, VorbisFields) && VorbisTags.Keys == KnownFields
  {
    VorbisInjective();
    assert FieldSet(VorbisFields) == VorbisTags.Keys by {
      forall f | f in VorbisTags.Keys ensures f in FieldSet(VorbisFields) {
        if f == "title" { assert VorbisFields[0].1 == f; }
        else if f == "artist" { assert VorbisFields[1].1 == f; }
        else if f == "album" { assert VorbisFields[2].1 == f; }
        else if f == "date" { assert VorbisFields[3].1 == f; }
        else if f == "track number" { assert VorbisFields[4].1 == f; }
        else { assert VorbisFields[5].1 == f; }
      }
    }
  }

  /** A comment value is a list of strings; a written field becomes a one-element list. */
  function VorbisEncode(field: string, value: string): seq<string>
  {
    [value]
  }

  /** The first string of a comment's list. */
  function VorbisGet(field: string, values: seq<string>): string
  {
    if |values| > 0 then values[0] else ""
  }

  /** Every comment present holds at least one string. */
  ghost predicate VorbisValid(comments: map<string, seq<string>>)
  {
    forall t :: t in comments ==> |comments[t]| >= 1
  }

  /** An Ogg Vorbis or Ogg Opus file's comment block. */
  class VorbisFile {
    var comments: map<string, seq<string>>

    ghost predicate Valid()
      reads this
    {
      VorbisValid(comments)
    }

    constructor(comments: map<string, seq<string>>)
      ensures this.comments == comments
      ensures VorbisValid(comments) ==> Valid()
    {
      this.comments := comments;
    }
  }

  function VorbisWrites(metadata: Fields): map<string, seq<string>>
  {
    VorbisInjective();
    Writes(VorbisTags, metadata, VorbisEncode)
  }

  /** `_apply_ogg_metadata`: each recognised non-empty field sets its comment to `[value]`. */
  method ApplyOggMetadata(file: VorbisFile, metadata: Fields)
    modifies file
    ensures file.comments == old(file.comments) + VorbisWrites(metadata)
    ensures old(file.Valid()) ==> file.Valid()
  {
    VorbisInjective();
    var pending := metadata.Keys;
    ghost var done: set<string> := {};
    ApplyStart(VorbisTags, metadata, VorbisEncode, file.comments);
    while pending != {}
      invariant pending !! done && pending + done == metadata.Keys
      invariant file.comments == old(file.comments) + WritesOn(VorbisTags, metadata, done, VorbisEncode)
      decreases pending
    {
      var field :| field in pending;
      var value := metadata[field];
      ApplyStep(VorbisTags, metadata, done, field, VorbisEncode, old(file.comments));
      if field in VorbisTags && value != "" {
        assert VorbisEncode(field, value) == [value];
        file.comments := file.comments[VorbisTags[field] := [value]];
      }
      assert file.comments == old(file.comments) + WritesOn(VorbisTags, metadata, done + {field}, VorbisEncode);
      pending := pending - {field};
      done := done + {field};
    }
    if old(file.Valid()) {
      VorbisApplyKeepsValid(old(file.comments), metadata);
    }
  }

  /** `_apply_opus_metadata`: Opus files carry the same comments as Ogg Vorbis. */
  method ApplyOpusMetadata(file: VorbisFile, metadata: Fields)
    modifies file
    ensures file.comments == old(file.comments) + VorbisWrites(metadata)
    ensures old(file.Valid()) ==> file.Valid()
  {
    ApplyOggMetadata(file, metadata);
  }

  /** `_read_ogg_metadata`: each field whose comment is present, with the comment's first string. */
  method ReadOggMetadata(file: VorbisFile) returns (metadata: Fields)
    requires file.Valid()
    ensures metadata == ReadBack(VorbisTags, file.comments, VorbisGet)
  {
    VorbisTablesAgree();
    ReadBackOnAll(VorbisTags, VorbisFields, file.comments, VorbisGet);
    metadata := map[];
    for i := 0 to |VorbisFields|
      invariant metadata == ReadBackOn(VorbisTags, file.comments, VorbisGet, FieldSet(VorbisFields[..i]))
    {
      var tag, field := VorbisFields[i].0, VorbisFields[i].1;
      ReadBackOnStep(VorbisTags, VorbisFields, i, file.comments, VorbisGet);
      if tag in file.comments {
        metadata := metadata[field := file.comments[tag][0]];
      }
    }
  }

  /** `_read_opus_metadata`: the same as for Ogg Vorbis. */
  method ReadOpusMetadata(file: VorbisFile) returns (metadata: Fields)
    requires file.Valid()
    ensures metadata == ReadBack(VorbisTags, file.comments, VorbisGet)
  {
    metadata := ReadOggMetadata(file);
  }

  /** Applying keeps every comment holding at least one string. */
  lemma VorbisApplyKeepsValid(comments: map<string, seq<string>>, metadata: Fields)
    requires VorbisValid(comments)
    ensures VorbisValid(comments + VorbisWrites(metadata))
  {
    VorbisInjective();
    ApplyKeepsNonEmpty(VorbisTags, comments, metadata, VorbisEncode);
  }

  /**
   * Applying sets the comment of each recognised non-empty field to the
   * one-string list of its value, adds no comment outside the six, and
   * leaves every other comment as it was.
   */
  lemma VorbisApplyEffect(comments: map<string, seq<string>>, metadata: Fields)
    ensures var after := comments + VorbisWrites(metadata);
      && (forall f :: f in Recognised(VorbisTags, metadata) ==> after[VorbisTags[f]] == [metadata[f]])
      && (forall t :: t in after && t !in comments ==> t in VorbisTags.Values)
      && (forall t :: t in comments && t !in VorbisTags.Values ==> after[t] == comments[t])
  {
    VorbisInjective();
    ApplyEffect(VorbisTags, comments, metadata, VorbisEncode);
  }

  /**
   * Round trip: reading after applying gives the earlier reading with every
   * recognised non-empty field replaced by exactly the value applied.
   */
  lemma VorbisRoundTrip(comments: map<string, seq<string>>, metadata: Fields)
    ensures ReadBack(VorbisTags, comments + VorbisWrites(metadata), VorbisGet)
         == ReadBack(VorbisTags, comments, VorbisGet) + Recognised(VorbisTags, metadata)
  {
    VorbisInjective();
    ReadAfterApply(VorbisTags, comments, metadata, VorbisEncode, VorbisGet);
    RereadIdentity(VorbisTags, metadata, VorbisEncode, VorbisGet);
  }

  // ---------------------------------------------------------------------
  // MP3: ID3 frames
  // ---------------------------------------------------------------------

  const Mp3Frames: map<string, string> := map[
    "title" := "TIT2", "artist" := "TPE1", "album" := "TALB", "date" := "TDRC",
    "track number" := "TRCK", "albumartist" := "TPE2"]

  const Mp3Fields: seq<(string, string)> := [
    ("TIT2", "title"), ("TPE1", "artist"), ("TALB", "album"), ("TDRC", "date"),
    ("TRCK", "track number"), ("TPE2", "albumartist")]

  lemma Mp3Injective()
    ensures Injective(Mp3Frames)
  {
  }

  lemma Mp3TablesAgree()
    ensures TablesAgree(Mp3Frames, Mp3Fields) && Mp3Frames.Keys == KnownFields
  {
    Mp3Injective();
    assert FieldSet(Mp3Fields) == Mp3Frames.Keys by {
      forall f | f in Mp3Frames.Keys ensures f in FieldSet(Mp3Fields) {
        if f == "title" { assert Mp3Fields[0].1 == f; }
        else if f == "artist" { assert Mp3Fields[1].1 == f; }
        else if f == "album" { assert Mp3Fields[2].1 == f; }
        else if f == "date" { assert Mp3Fields[3].1 == f; }
        else if f == "track number" { assert Mp3Fields[4].1 == f; }
        else { assert Mp3Fields[5].1 == f; }
      }
    }
  }

  /** A text frame is modelled by its text. */
  function Mp3Encode(field: string, value: string): string
  {
    value
  }

  function Mp3Get(field: string, text: string): string
  {
    text
  }

  /** An MP3 file: `tags` is None when the file has no ID3 tag block. */
  class Mp3File {
    var tags: Option<map<string, string>>

    constructor(tags: Option<map<string, string>>)
      ensures this.tags == tags
    {
      this.tags := tags;
    }
  }

  function Mp3Writes(metadata: Fields): map<string, string>
  {
    Mp3Injective();
    Writes(Mp3Frames, metadata, Mp3Encode)
  }

  const NoTagsMessage := "'NoneType' object does not support item assignment"

  /**
   * `_apply_mp3_metadata`: each recognised non-empty field sets its frame.
   * Without a tag block the first such assignment raises TypeError; nothing
   * is written in that case.
   */
  method ApplyMp3Metadata(file: Mp3File, metadata: Fields) returns (r: Result<(), TagError>)
    modifies file
    ensures old(file.tags).Some? ==> r.Ok? && file.tags == Some(old(file.tags).value + Mp3Writes(metadata))
    ensures old(file.tags).None? ==>
              file.tags == None && (r.Ok? <==> Recognised(Mp3Frames, metadata) == map[])
    ensures r.Err? ==> r.error == TypeError(NoTagsMessage)
  {
    Mp3Injective();
    var pending := metadata.Keys;
    ghost var done: set<string> := {};
    if file.tags.Some? {
      ApplyStart(Mp3Frames, metadata, Mp3Encode, file.tags.value);
    }
    while pending != {}
      invariant pending !! done && pending + done == metadata.Keys
      invariant old(file.tags).Some? ==>
                  file.tags.Some? && file.tags.value == old(file.tags).value + WritesOn(Mp3Frames, metadata, done, Mp3Encode)
      invariant old(file.tags).None? ==>
                  file.tags == None && forall f :: f in done ==> f !in Recognised(Mp3Frames, metadata)
      decreases pending
    {
      var field :| field in pending;
      var value := metadata[field];
      if field in Mp3Frames && value != "" {
        if file.tags.None? {
          assert field in Recognised(Mp3Frames, metadata);
          return Err(TypeError(NoTagsMessage));
        }
        ApplyStep(Mp3Frames, metadata, done, field, Mp3Encode, old(file.tags).value);
        file.tags := Some(file.tags.value[Mp3Frames[field] := value]);
      } else if old(file.tags).Some? {
        ApplyStep(Mp3Frames, metadata, done, field, Mp3Encode, old(file.tags).value);
      }
      pending := pending - {field};
      done := done + {field};
    }
    if old(file.tags).None? {
      assert done == metadata.Keys;
      assert Recognised(Mp3Frames, metadata).Keys == {};
    }
    return Ok(());
  }

  /** `_read_mp3_metadata`: nothing without a tag block, else each field whose frame is present. */
  method ReadMp3Metadata(file: Mp3File) returns (metadata: Fields)
    ensures file.tags.None? ==> metadata == map[]
    ensures file.tags.Some? ==> metadata == ReadBack(Mp3Frames, file.tags.value, Mp3Get)
  {
    metadata := map[];
    if file.tags.Some? {
      var tags := file.tags.value;
      Mp3TablesAgree();
      ReadBackOnAll(Mp3Frames, Mp3Fields, tags, Mp3Get);
      for i := 0 to |Mp3Fields|
        invariant metadata == ReadBackOn(Mp3Frames, tags, Mp3Get, FieldSet(Mp3Fields[..i]))
      {
        var frameId, field := Mp3Fields[i].0, Mp3Fields[i].1;
        ReadBackOnStep(Mp3Frames, Mp3Fields, i, tags, Mp3Get);
        if frameId in tags {
          metadata := metadata[field := tags[frameId]];
        }
      }
    }
  }

  /** Round trip for a file with a tag block: the applied values are read back unchanged. */
  lemma Mp3RoundTrip(tags: map<string, string>, metadata: Fields)
    ensures ReadBack(Mp3Frames, tags + Mp3Writes(metadata), Mp3Get)
         == ReadBack(Mp3Frames, tags, Mp3Get) + Recognised(Mp3Frames, metadata)
  {
    Mp3Injective();
    ReadAfterApply(Mp3Frames, tags, metadata, Mp3Encode, Mp3Get);
    RereadIdentity(Mp3Frames, metadata, Mp3Encode, Mp3Get);
  }

  /** Frames other than the six keep their contents when metadata is applied. */
  lemma Mp3ApplyKeepsOtherFrames(tags: map<string, string>, metadata: Fields)
    ensures var after := tags + Mp3Writes(metadata);
      && (forall t :: t in tags && t !in Mp3Frames.Values ==> t in after && after[t] == tags[t])
      && (forall f :: f in Recognised(Mp3Frames, metadata) ==> after[Mp3Frames[f]] == metadata[f])
  {
    Mp3Injective();
    ApplyEffect(Mp3Frames, tags, metadata, Mp3Encode);
  }

  // ---------------------------------------------------------------------
  // MP4: iTunes-style atoms
  // ---------------------------------------------------------------------

  const TrackField := "track number"

  const Mp4Atoms: map<string, string> := map[
    "title" := "\U{00A9}nam", "artist" := "\U{00A9}ART", "album" := "\U{00A9}alb",
    "date" := "\U{00A9}day", "track number" := "trkn", "albumartist" := "aART"]

  const Mp4Fields: seq<(string, string)> := [
    ("\U{00A9}nam", "title"), ("\U{00A9}ART", "artist"), ("\U{00A9}alb", "album"),
    ("\U{00A9}day", "date"), ("trkn", "track number"), ("aART", "albumartist")]

  lemma Mp4Injective()
    ensures Injective(Mp4Atoms)
  {
  }

  lemma Mp4TablesAgree()
    ensures TablesAgree(Mp4Atoms, Mp4Fields) && Mp4Atoms.Keys == KnownFields
  {
    Mp4Injective();
    assert FieldSet(Mp4Fields) == Mp4Atoms.Keys by {
      forall f | f in Mp4Atoms.Keys ensures f in FieldSet(Mp4Fields) {
        if f == "title" { assert Mp4Fields[0].1 == f; }
        else if f == "artist" { assert Mp4Fields[1].1 == f; }
        else if f == "album" { assert Mp4Fields[2].1 == f; }
        else if f == "date" { assert Mp4Fields[3].1 == f; }
        else if f == "track number" { assert Mp4Fields[4].1 == f; }
        else { assert Mp4Fields[5].1 == f; }
      }
    }
  }

  /** An atom's value: a list of strings, or a list of (track, total) pairs for `trkn`. */
  datatype Mp4Value = Texts(texts: seq<string>) | TrackPairs(pairs: seq<(int, int)>)

  /**
   * The largest track number an MP4 `trkn` atom holds: mutagen packs it in
   * 16 bits and raises a ValueError for any number outside 0..65535 when it
   * is assigned.
   */
  const MaxTrackValue: nat := 65535

  /**
   * The track number `_apply_mp4_metadata` stores: `int(value)`, or 1 when
   * `int()` raises or the assignment rejects the number, both of which the
   * `except ValueError` catches.
   */
  function TrackNumber(value: string): int
  {
    match ParseInt(value)
    case Some(n) => if 0 <= n <= MaxTrackValue then n else 1
    case None => 1
  }

  function Mp4Encode(field: string, value: string): Mp4Value
  {
    if field == TrackField then TrackPairs([(TrackNumber(value), 0)]) else Texts([value])
  }

  /** `str(atom[0][0])` for the track number, `str(atom[0])` for the others. */
  function Mp4Get(field: string, v: Mp4Value): string
  {
    if field == TrackField then
      (if v.TrackPairs? && |v.pairs| > 0 then IntToString(v.pairs[0].0) else "")
    else
      (if v.Texts? && |v.texts| > 0 then v.texts[0] else "")
  }

  /** The shape an atom of the table holds: pairs for the track number, strings otherwise. */
  predicate Mp4Shaped(field: string, v: Mp4Value)
  {
    if field == TrackField then v.TrackPairs? && |v.pairs| >= 1 else v.Texts? && |v.texts| >= 1
  }

  ghost predicate Mp4Valid(atoms: map<string, Mp4Value>)
  {
    forall f :: f in Mp4Atoms && Mp4Atoms[f] in atoms ==> Mp4Shaped(f, atoms[Mp4Atoms[f]])
  }

  class Mp4File {
    var atoms: map<string, Mp4Value>

    ghost predicate Valid()
      reads this
    {
      Mp4Valid(atoms)
    }

    constructor(atoms: map<string, Mp4Value>)
      ensures this.atoms == atoms
      ensures Mp4Valid(atoms) ==> Valid()
    {
      this.atoms := atoms;
    }
  }

  function Mp4Writes(metadata: Fields): map<string, Mp4Value>
  {
    Mp4Injective();
    Writes(Mp4Atoms, metadata, Mp4Encode)
  }

  /**
   * `_apply_mp4_metadata`: each recognised non-empty field sets its atom to
   * `[value]`, except the track number, which becomes `[(n, 0)]` when the
   * value parses as the integer `n` and `[(1, 0)]` otherwise.
   */
  method ApplyMp4Metadata(file: Mp4File, metadata: Fields)
    modifies file
    ensures file.atoms == old(file.atoms) + Mp4Writes(metadata)
    ensures old(file.Valid()) ==> file.Valid()
  {
    Mp4Injective();
    var pending := metadata.Keys;
    ghost var done: set<string> := {};
    ApplyStart(Mp4Atoms, metadata, Mp4Encode, file.atoms);
    while pending != {}
      invariant pending !! done && pending + done == metadata.Keys
      invariant file.atoms == old(file.atoms) + WritesOn(Mp4Atoms, metadata, done, Mp4Encode)
      decreases pending
    {
      var field :| field in pending;
      var value := metadata[field];
      ApplyStep(Mp4Atoms, metadata, done, field, Mp4Encode, old(file.atoms));
      if field in Mp4Atoms && value != "" {
        var mp4Tag := Mp4Atoms[field];
        if field == TrackField {
          match ParseInt(value)
          case Some(trackNum) =>
            if 0 <= trackNum <= MaxTrackValue {
              file.atoms := file.atoms[mp4Tag := TrackPairs([(trackNum, 0)])];
            } else {
              // the assignment raises a ValueError, and the handler stores track 1
              file.atoms := file.atoms[mp4Tag := TrackPairs([(1, 0)])];
            }
          case None =>
            file.atoms := file.atoms[mp4Tag := TrackPairs([(1, 0)])];
        } else {
          file.atoms := file.atoms[mp4Tag := Texts([value])];
        }
      }
      pending := pending - {field};
      done := done + {field};
    }
    if old(file.Valid()) {
      Mp4ApplyKeepsShape(old(file.atoms), metadata);
    }
  }

  /** `_read_mp4_metadata`: each field whose atom is present, read through Mp4Get. */
  method ReadMp4Metadata(file: Mp4File) returns (metadata: Fields)
    requires file.Valid()
    ensures metadata == ReadBack(Mp4Atoms, file.atoms, Mp4Get)
  {
    Mp4TablesAgree();
    ReadBackOnAll(Mp4Atoms, Mp4Fields, file.atoms, Mp4Get);
    metadata := map[];
    for i := 0 to |Mp4Fields|
      invariant metadata == ReadBackOn(Mp4Atoms, file.atoms, Mp4Get, FieldSet(Mp4Fields[..i]))
    {
      var mp4Tag, field := Mp4Fields[i].0, Mp4Fields[i].1;
      ReadBackOnStep(Mp4Atoms, Mp4Fields, i, file.atoms, Mp4Get);
      if mp4Tag in file.atoms {
        assert Mp4Shaped(field, file.atoms[mp4Tag]);
        var value;
        if field == TrackField {
          value := IntToString(file.atoms[mp4Tag].pairs[0].0);
        } else {
          value := file.atoms[mp4Tag].texts[0];
        }
        metadata := metadata[field := value];
      }
    }
  }

  /**
   * Round trip for MP4: every recognised non-empty field reads back as
   * applied, except the track number, which reads back as the decimal form
   * of the integer stored for it.
   */
  lemma Mp4RoundTrip(atoms: map<string, Mp4Value>, metadata: Fields)
    ensures ReadBack(Mp4Atoms, atoms + Mp4Writes(metadata), Mp4Get)
         == ReadBack(Mp4Atoms, atoms, Mp4Get) + Reread(Mp4Atoms, metadata, Mp4Encode, Mp4Get)
  {
    Mp4Injective();
    ReadAfterApply(Mp4Atoms, atoms, metadata, Mp4Encode, Mp4Get);
  }

  /**
   * What reading gives back for a value applied to an MP4 field: the value
   * itself, except for the track number, read back as the decimal form of
   * the integer stored for it.
   */
  lemma Mp4GetEncode(field: string, value: string)
    ensures Mp4Get(field, Mp4Encode(field, value))
         == if field == TrackField then IntToString(TrackNumber(value)) else value
  {
  }

  /** Applying keeps every atom of the table in the shape reading expects. */
  lemma Mp4ApplyKeepsShape(atoms: map<string, Mp4Value>, metadata: Fields)
    requires Mp4Valid(atoms)
    ensures Mp4Valid(atoms + Mp4Writes(metadata))
  {
    Mp4Injective();
    var after := atoms + Mp4Writes(metadata);
    forall f | f in Mp4Atoms && Mp4Atoms[f] in after ensures Mp4Shaped(f, after[Mp4Atoms[f]]) {
      WritesDomain(Mp4Atoms, metadata, Mp4Encode, f);
    }
  }

  /**
   * A track number already in decimal form, such as `7` or `65535`, reads
   * back unchanged when it lies in the range an MP4 atom holds.
   */
  lemma TrackNumberCanonical(n: int)
    requires 0 <= n <= MaxTrackValue
    ensures Mp4Get(TrackField, Mp4Encode(TrackField, IntToString(n))) == IntToString(n)
  {
    NatToStringLength(n, 5);
    IntToStringRoundTrip(n);
  }

  /**
   * Every track number apply stores lies in 0..65535, so it prints in at
   * most five digits and `str()` can always format it.
   */
  lemma TrackNumberFits(value: string)
    ensures var n := TrackNumber(value);
      && 0 <= n <= MaxTrackValue
      && |NatToString(n)| <= 5 <= MaxStrDigits
  {
    NatToStringLength(TrackNumber(value), 5);
  }

  /**
   * An integer outside 0..65535, such as `-2` or `70000`, is rejected when
   * assigned, so it is stored, and read back, as track 1.
   */
  lemma TrackNumberOutOfRange(value: string, n: int)
    requires ParseInt(value) == Some(n) && !(0 <= n <= MaxTrackValue)
    ensures Mp4Encode(TrackField, value) == TrackPairs([(1, 0)])
    ensures Mp4Get(TrackField, Mp4Encode(TrackField, value)) == "1"
  {
    assert NatToString(1) == "1";
  }

  /** A track number of more than MaxStrDigits digits is stored, and read back, as track 1. */
  lemma TrackNumberOverLimit(d: string)
    requires |d| > MaxStrDigits && AllDigits(d)
    ensures Mp4Encode(TrackField, d) == TrackPairs([(1, 0)])
    ensures Mp4Get(TrackField, Mp4Encode(TrackField, d)) == "1"
  {
    ParseIntRejectsLongDigits(d);
    assert NatToString(1) == "1";
  }

  /** A negative track number, such as `-2`, reads back as `1`. */
  lemma NegativeTrackExample()
    ensures Mp4Get(TrackField, Mp4Encode(TrackField, "-2")) == "1"
  {
    assert DigitsValue("2") == 2 by { assert "2"[..0] == ""; }
    ParseIntOfNegativeDigits("2");
    TrackNumberOutOfRange("-2", -2);
  }

  /** Leading zeros are lost (`01` reads back as `1`) and a non-integer becomes track 1. */
  lemma TrackNumberExamples()
    ensures Mp4Get(TrackField, Mp4Encode(TrackField, "01")) == "1"
    ensures Mp4Get(TrackField, Mp4Encode(TrackField, "A1")) == "1"
  {
    assert AllDigits("01");
    assert DigitsValue("01") == 1 by {
      assert "01"[..1] == "0";
      assert DigitsValue("0") == 0 by { assert "0"[..0] == ""; }
    }
    ParseIntOfDigits("01");
    assert LTrimInt("A1") == "A1" && RTrimInt("A1") == "A1";
    NoSignNoDigit("A1");
  }
}
