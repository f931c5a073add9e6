/**
 * The per-album `metadata.txt` override file: its line-by-line parser and
 * the check that every file it names exists in the album directory.
 *
 * Grammar, one line at a time after stripping surrounding whitespace:
 *   - empty lines and lines starting with `#` are ignored;
 *   - `file:<name>:` opens the section of `<name>` (the name is stripped);
 *   - any other line starting with `file:` is a malformed header: it closes
 *     the current section and every following line is ignored until the
 *     next well-formed header;
 *   - any other line with a `:` is `key: value`, split at the first colon,
 *     both sides stripped, and goes to the open section if its name is
 *     non-empty, otherwise to the album fields;
 *   - everything else is ignored.
 */
module CliMetadata {
  import opened Wrappers
  import opened Strings

  /**
   * The parse result: album-wide fields and per-file fields. Python's dict
   * keeps its keys in insertion order; `fileOrder` is that order for `files`.
   */
  datatype Metadata = Metadata(album: Fields, files: map<string, Fields>, fileOrder: seq<string>)

  /** `fileOrder` lists every key of `files` exactly once. */
  ghost predicate WellFormed(m: Metadata)
  {
    && (forall i, j :: 0 <= i < j < |m.fileOrder| ==> m.fileOrder[i] != m.fileOrder[j])
    && (forall n :: n in m.files <==> n in m.fileOrder)
  }

  /** The parser's loop state: the result so far, `current_file` and `in_malformed_section`. */
  datatype ParserState = ParserState(result: Metadata, current: Option<string>, malformed: bool)

  ghost predicate Inv(st: ParserState)
  {
    st.current.Some? ==> st.current.value in st.result.files
  }

  const Initial := ParserState(Metadata(map[], map[], []), None, false)

  /** Python's `if current_file:` — neither None nor the empty string. */
  predicate InSection(current: Option<string>)
  {
    current.Some? && current.value != ""
  }

  // Classification of a stripped line.

  predicate IsIgnored(line: string)
  {
    line == "" || StartsWith(line, "#")
  }

  predicate IsHeader(line: string)
  {
    StartsWith(line, "file:") && EndsWith(line, ":")
  }

  predicate IsMalformedHeader(line: string)
  {
    StartsWith(line, "file:") && !EndsWith(line, ":")
  }

  predicate IsPair(line: string)
  {
    !IsIgnored(line) && !StartsWith(line, "file:") && ':' in line
  }

  /** A line starting with `file:` is never an ignored line. */
  lemma FileLineNotIgnored(line: string)
    requires StartsWith(line, "file:")
    ensures !IsIgnored(line)
  {
    assert line[0] == "file:"[0];
  }

  /** `line[5:-1].strip()`; for the bare line `file:` the slice is empty. */
  function HeaderName(line: string): string
    requires IsHeader(line)
  {
    if |line| <= 5 then "" else Strip(line[5..|line| - 1])
  }

  /**
   * `line.split(':', 1)` with both halves stripped: the key is what precedes
   * the first colon, so it never holds a colon; the value may.
   */
  function SplitPair(line: string): (kv: (string, string))
    requires ':' in line
  {
    var i := IndexOf(line, ':');
    (Strip(line[..i]), Strip(line[i + 1..]))
  }

  /**
   * A pair line is split at its first colon only: the key is the stripped
   * text before it (so it never holds a colon) and the value the stripped
   * text after it (which may).
   */
  lemma SplitPairAtFirstColon(line: string)
    requires ':' in line
    ensures var kv := SplitPair(line);
      && ':' !in kv.0
      && exists before, after :: line == before + ":" + after && ':' !in before
                                 && kv.0 == Strip(before) && kv.1 == Strip(after)
  {
    var i := IndexOf(line, ':');
    var before, after := line[..i], line[i + 1..];
    assert line == before + ":" + after;
    forall k | 0 <= k < |Strip(before)| ensures Strip(before)[k] != ':' {
      StripInside(before, k);
    }
  }

  /** Opening the section of `name`: an existing entry is kept as it is. */
  function OpenSection(st: ParserState, name: string): (r: ParserState)
    requires Inv(st)
    ensures Inv(r)
  {
    var m := st.result;
    var m' := if name in m.files then m
              else m.(files := m.files[name := map[]], fileOrder := m.fileOrder + [name]);
    ParserState(m', Some(name), false)
  }

  /** Storing one `key: value` pair in the open section, or in the album fields. */
  function Assign(st: ParserState, key: string, value: string): (r: ParserState)
    requires Inv(st)
    ensures Inv(r)
  {
    var m := st.result;
    if InSection(st.current) then
      var n := st.current.value;
      st.(result := m.(files := m.files[n := m.files[n][key := value]]))
    else
      st.(result := m.(album := m.album[key := value]))
  }

  /** One iteration of the parser's loop on one raw line. */
  function Step(st: ParserState, raw: string): (r: ParserState)
    requires Inv(st)
    ensures Inv(r)
  {
    var line := Strip(raw);
    if IsIgnored(line) then st
    else if IsHeader(line) then OpenSection(st, HeaderName(line))
    else if StartsWith(line, "file:") then st.(current := None, malformed := true)
    else if st.malformed || ':' !in line then st
    else
      var kv := SplitPair(line);
      Assign(st, kv.0, kv.1)
  }

  /** The loop over all lines, from the first to the last. */
  function Run(st: ParserState, lines: seq<string>): (r: ParserState)
    requires Inv(st)
    ensures Inv(r)
    decreases |lines|
  {
    if lines == [] then st
    else Step(Run(st, lines[..|lines| - 1]), lines[|lines| - 1])
  }

  /** `parse_metadata_file(content)` as a function of the text. */
  function Parse(content: string): Metadata
  {
    Run(Initial, Split(content, '\n')).result
  }

  /** `parse_metadata_file`: the loop over `content.split('\n')`. */
  method ParseMetadataFile(content: string) returns (metadata: Metadata)
    ensures metadata == Parse(content)
    ensures WellFormed(metadata)
  {
    var album: Fields := map[];
    var files: map<string, Fields> := map[];
    var fileOrder: seq<string> := [];
    var currentFile: Option<string> := None;
    var inMalformedSection := false;
    var lines := Split(content, '\n');
    ParseWellFormed(lines);
    for i := 0 to |lines|
      invariant Run(Initial, lines[..i])
             == ParserState(Metadata(album, files, fileOrder), currentFile, inMalformedSection)
    {
      assert lines[..i + 1][..i] == lines[..i];
      var line := Strip(lines[i]);
      if line == "" || StartsWith(line, "#") {
        continue;
      }
      if StartsWith(line, "file:") && EndsWith(line, ":") {
        var filename := HeaderName(line);
        currentFile := Some(filename);
        inMalformedSection := false;
        if filename !in files {
          files := files[filename := map[]];
          fileOrder := fileOrder + [filename];
        }
      } else if StartsWith(line, "file:") {
        currentFile := None;
        inMalformedSection := true;
        continue;
      } else {
        if inMalformedSection {
          continue;
        }
        if ':' in line {
          var kv := SplitPair(line);
          var key, value := kv.0, kv.1;
          if currentFile.Some? && currentFile.value != "" {
            files := files[currentFile.value := files[currentFile.value][key := value]];
          } else {
            album := album[key := value];
          }
        }
      }
    }
    assert lines[..|lines|] == lines;
    metadata := Metadata(album, files, fileOrder);
  }

  // ---------------------------------------------------------------------
  // Properties of the parser
  // ---------------------------------------------------------------------

  /** Each step keeps `fileOrder` listing the keys of `files` once each, in first-seen order. */
  lemma StepWellFormed(st: ParserState, raw: string)
    requires Inv(st) && WellFormed(st.result)
    ensures WellFormed(Step(st, raw).result)
  {
    var line := Strip(raw);
    if !IsIgnored(line) && IsHeader(line) {
      var name := HeaderName(line);
      var m := st.result;
      if name !in m.files {
        var order := m.fileOrder + [name];
        assert forall i :: 0 <= i < |m.fileOrder| ==> order[i] == m.fileOrder[i];
        assert name !in m.fileOrder;
      }
    }
  }

  lemma {:induction false} RunWellFormed(st: ParserState, lines: seq<string>)
    requires Inv(st) && WellFormed(st.result)
    ensures WellFormed(Run(st, lines).result)
    decreases |lines|
  {
    if lines != [] {
      RunWellFormed(st, lines[..|lines| - 1]);
      StepWellFormed(Run(st, lines[..|lines| - 1]), lines[|lines| - 1]);
    }
  }

  /** Every parse result lists each file name once, in the order first seen. */
  lemma ParseWellFormed(lines: seq<string>)
    ensures WellFormed(Run(Initial, lines).result)
  {
    RunWellFormed(Initial, lines);
  }

  /** Running over two blocks of lines is running over the first, then the second. */
  lemma {:induction false} RunAppend(st: ParserState, a: seq<string>, b: seq<string>)
    requires Inv(st)
    ensures Run(st, a + b) == Run(Run(st, a), b)
    decreases |b|
  {
    if b == [] {
      assert a + b == a;
    } else {
      var b', last := b[..|b| - 1], b[|b| - 1];
      RunAppend(st, a, b');
      assert b == b' + [last];
      assert a + b == (a + b') + [last];
      RunSnoc(st, a + b', last);
      RunSnoc(Run(st, a), b', last);
    }
  }

  /** Empty lines and comments never change the parse, wherever they appear. */
  lemma IgnoredLineIsNeutral(st: ParserState, before: seq<string>, line: string, after: seq<string>)
    requires Inv(st)
    requires IsIgnored(Strip(line))
    ensures Run(st, before + [line] + after) == Run(st, before + after)
  {
    RunAppend(st, before + [line], after);
    RunAppend(st, before, [line]);
    RunAppend(st, before, after);
    assert Run(Run(st, before), [line]) == Step(Run(Run(st, before), []), line);
  }

  /** No line of the block starts (after stripping) with `file:`. */
  predicate NoSectionLines(lines: seq<string>)
  {
    forall k :: 0 <= k < |lines| ==> !StartsWith(Strip(lines[k]), "file:")
  }

  /** No line of the block is a well-formed `file:<name>:` header. */
  predicate NoHeaders(lines: seq<string>)
  {
    forall k :: 0 <= k < |lines| ==> !IsHeader(Strip(lines[k]))
  }

  /** No line of the block is a `key: value` pair for `key`. */
  predicate NoPairFor(lines: seq<string>, key: string)
  {
    forall k :: 0 <= k < |lines| ==> IsPair(Strip(lines[k])) ==> SplitPair(Strip(lines[k])).0 != key
  }

  /**
   * `key` holds `value` in the scope chosen by `st`'s open section: that
   * section's fields when its name is non-empty, the album fields otherwise;
   * the other scope is as in `st`, and the section state is unchanged.
   */
  ghost predicate Landed(st: ParserState, fin: ParserState, key: string, value: string)
  {
    && fin.current == st.current && !fin.malformed
    && (InSection(st.current) ==>
          && st.current.value in fin.result.files
          && key in fin.result.files[st.current.value]
          && fin.result.files[st.current.value][key] == value
          && fin.result.album == st.result.album)
    && (!InSection(st.current) ==>
          && key in fin.result.album && fin.result.album[key] == value
          && fin.result.files == st.result.files)
  }

  /**
   * Scoping and last-write-wins: a `key: value` line, outside a malformed
   * section, lands in the open section when its name is non-empty and in
   * the album fields otherwise, and it is the value kept as long as no later
   * line reassigns that key or changes the section. Keys are compared as
   * exact strings, so `Title` and `title` are different keys.
   */
  lemma {:induction false} PairLandsInScope(st: ParserState, line: string, after: seq<string>)
    requires Inv(st) && !st.malformed
    requires IsPair(Strip(line))
    requires NoSectionLines(after) && NoPairFor(after, SplitPair(Strip(line)).0)
    ensures var kv := SplitPair(Strip(line));
      Landed(st, Run(st, [line] + after), kv.0, kv.1)
    decreases |after|
  {
    var kv := SplitPair(Strip(line));
    if after == [] {
      assert [line] + after == [line];
      assert Run(st, [line]) == Step(Run(st, []), line);
      PairLandsFirst(st, line);
    } else {
      var last := after[|after| - 1];
      var init := after[..|after| - 1];
      QuietBlockSplit(after, kv.0);
      PairLandsInScope(st, line, init);
      assert [line] + after == ([line] + init) + [last];
      LandedSnoc(st, [line] + init, last, kv.0, kv.1);
    }
  }

  /** The conditions on a block hold of all its lines but the last, and of the last. */
  lemma QuietBlockSplit(lines: seq<string>, key: string)
    requires lines != [] && NoSectionLines(lines) && NoPairFor(lines, key)
    ensures var init := lines[..|lines| - 1];
      NoSectionLines(init) && NoPairFor(init, key)
    ensures var last := lines[|lines| - 1];
      !StartsWith(Strip(last), "file:") && (IsPair(Strip(last)) ==> SplitPair(Strip(last)).0 != key)
  {
    var init := lines[..|lines| - 1];
    forall k | 0 <= k < |init| ensures init[k] == lines[k] { }
  }

  /** `Landed` survives one more line that is neither a `file:` line nor a pair for `key`. */
  lemma LandedSnoc(st: ParserState, lines: seq<string>, last: string, key: string, value: string)
    requires Inv(st) && Landed(st, Run(st, lines), key, value)
    requires !StartsWith(Strip(last), "file:")
    requires IsPair(Strip(last)) ==> SplitPair(Strip(last)).0 != key
    ensures Landed(st, Run(st, lines + [last]), key, value)
  {
    RunSnoc(st, lines, last);
    StepKeepsPair(st, Run(st, lines), last, key, value);
  }

  /** Running one more line is one more step. */
  lemma RunSnoc(st: ParserState, lines: seq<string>, last: string)
    requires Inv(st)
    ensures Run(st, lines + [last]) == Step(Run(st, lines), last)
  {
    assert (lines + [last])[..|lines|] == lines;
  }

  /** The pair line itself puts its value in the scope of the open section. */
  lemma PairLandsFirst(st: ParserState, line: string)
    requires Inv(st) && !st.malformed
    requires IsPair(Strip(line))
    ensures var kv := SplitPair(Strip(line));
      Landed(st, Step(st, line), kv.0, kv.1)
  {
  }

  /** One more line that is neither a `file:` line nor a pair for `key` keeps `Landed`. */
  lemma StepKeepsPair(st: ParserState, mid: ParserState, last: string, key: string, value: string)
    requires Inv(mid) && Landed(st, mid, key, value)
    requires !StartsWith(Strip(last), "file:")
    requires IsPair(Strip(last)) ==> SplitPair(Strip(last)).0 != key
    ensures Landed(st, Step(mid, last), key, value)
  {
  }

  /**
   * A header for a name that already has an entry keeps that entry's fields:
   * sections are never cleared, album fields are never removed, and the
   * first-seen order of file names only grows at the end.
   */
  lemma {:induction false} NothingIsCleared(st: ParserState, lines: seq<string>)
    requires Inv(st)
    ensures var fin := Run(st, lines).result;
      && st.result.album.Keys <= fin.album.Keys
      && (forall n :: n in st.result.files ==> n in fin.files && st.result.files[n].Keys <= fin.files[n].Keys)
      && st.result.fileOrder <= fin.fileOrder
    decreases |lines|
  {
    if lines != [] {
      var init := lines[..|lines| - 1];
      NothingIsCleared(st, init);
      StepClearsNothing(Run(st, init), lines[|lines| - 1]);
    }
  }

  lemma StepClearsNothing(st: ParserState, raw: string)
    requires Inv(st)
    ensures var fin := Step(st, raw).result;
      && st.result.album.Keys <= fin.album.Keys
      && (forall n :: n in st.result.files ==> n in fin.files && st.result.files[n].Keys <= fin.files[n].Keys)
      && st.result.fileOrder <= fin.fileOrder
  {
  }

  /** A well-formed header opens the named section, creating it only when absent. */
  lemma HeaderOpensSection(st: ParserState, raw: string)
    requires Inv(st)
    requires IsHeader(Strip(raw))
    ensures var name := HeaderName(Strip(raw));
            var fin := Step(st, raw);
      && fin.current == Some(name) && !fin.malformed
      && fin.result.album == st.result.album
      && fin.result.files == (if name in st.result.files then st.result.files
                              else st.result.files[name := map[]])
  {
    FileLineNotIgnored(Strip(raw));
  }

  /**
   * The bare header `file:` opens an entry named "" — and because "" is not
   * a section name for `if current_file:`, the pairs after it go to the album.
   */
  lemma EmptyHeaderSendsPairsToAlbum(st: ParserState, header: string, line: string)
    requires Inv(st)
    requires IsHeader(Strip(header)) && HeaderName(Strip(header)) == ""
    requires IsPair(Strip(line))
    ensures var kv := SplitPair(Strip(line));
            var fin := Run(st, [header, line]).result;
      && "" in fin.files
      && fin.album == st.result.album[kv.0 := kv.1]
  {
    assert [header, line][..1] == [header];
    assert Run(st, [header]) == Step(Run(st, []), header);
  }

  /**
   * Malformed-section isolation: after a `file:` line without its trailing
   * colon, no line adds anything to the album or to any file entry — and no
   * entry is created for the malformed name — until a well-formed header.
   */
  lemma MalformedSectionIsIgnored(st: ParserState, header: string, after: seq<string>)
    requires Inv(st)
    requires IsMalformedHeader(Strip(header))
    requires NoHeaders(after)
    ensures Run(st, [header] + after).result == st.result
    ensures Run(st, [header] + after).malformed
  {
    RunAppend(st, [header], after);
    FileLineNotIgnored(Strip(header));
    assert Run(st, [header]) == Step(Run(st, []), header);
    MalformedStaysInert(Step(st, header), after);
  }

  lemma {:induction false} MalformedStaysInert(st: ParserState, lines: seq<string>)
    requires Inv(st) && st.malformed
    requires NoHeaders(lines)
    ensures Run(st, lines).result == st.result && Run(st, lines).malformed
    decreases |lines|
  {
    if lines != [] {
      var init := lines[..|lines| - 1];
      assert NoHeaders(init) by {
        forall k | 0 <= k < |init| ensures init[k] == lines[k] { }
      }
      MalformedStaysInert(st, init);
      assert !IsHeader(Strip(lines[|lines| - 1]));
    }
  }

  /** Before the first `file:` line, nothing creates a file entry. */
  lemma {:induction false} NoSectionsNoFiles(lines: seq<string>)
    requires NoSectionLines(lines)
    ensures Run(Initial, lines).result.files == map[]
    ensures Run(Initial, lines).current == None && !Run(Initial, lines).malformed
    decreases |lines|
  {
    if lines != [] {
      var init := lines[..|lines| - 1];
      assert NoSectionLines(init) by {
        forall k | 0 <= k < |init| ensures init[k] == lines[k] { }
      }
      NoSectionsNoFiles(init);
      assert !StartsWith(Strip(lines[|lines| - 1]), "file:");
    }
  }

  // ---------------------------------------------------------------------
  // validate_metadata_files
  // ---------------------------------------------------------------------

  /** The ValueError `validate_metadata_files` raises, with its text. */
  datatype ValidationError = ValueError(message: string)

  /** The text of the ValueError raised for a missing file. */
  function MissingFileMessage(filename: string): string
  {
    "File '" + filename + "' referenced in metadata.txt does not exist"
  }

  /**
   * `validate_metadata_files`: returns normally exactly when every file name
   * of the metadata is one of the available names (exact string equality);
   * otherwise reports the first missing name in the order names were first seen.
   */
  method ValidateMetadataFiles(metadata: Metadata, availableFiles: seq<string>)
    returns (r: Result<(), ValidationError>)
    ensures r.Ok? <==> forall k :: 0 <= k < |metadata.fileOrder| ==> metadata.fileOrder[k] in availableFiles
    ensures r.Err? ==> exists k :: 0 <= k < |metadata.fileOrder|
                        && r.error == ValueError(MissingFileMessage(metadata.fileOrder[k]))
                        && metadata.fileOrder[k] !in availableFiles
                        && forall j :: 0 <= j < k ==> metadata.fileOrder[j] in availableFiles
    ensures WellFormed(metadata) ==>
              (r.Ok? <==> forall n :: n in metadata.files ==> n in availableFiles)
  {
    for k := 0 to |metadata.fileOrder|
      invariant forall j :: 0 <= j < k ==> metadata.fileOrder[j] in availableFiles
    {
      var filename := metadata.fileOrder[k];
      if filename !in availableFiles {
        return Err(ValueError(MissingFileMessage(filename)));
      }
    }
    return Ok(());
  }
}
