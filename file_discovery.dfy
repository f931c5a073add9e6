/**
 * Finding the lossless tracks below an album root. The recursive walk of the
 * directory tree is given as a listing: for each path below the root, its
 * parts below the root and whether it is a regular file, in walk order.
 */
module FileDiscovery {
  import opened Wrappers
  import opened Strings
  import opened Paths

  /** One path the walk yields: `root / parts`, and whether it is a regular file. */
  datatype WalkEntry = WalkEntry(parts: seq<string>, isFile: bool)

  /** What the filesystem says about the root before the walk. */
  datatype RootKind = Missing | NotADirectory | Directory

  datatype DiscoveryError =
    | FileNotFoundError(message: string)
    | NotADirectoryError(message: string)

  const AudioExtensions: set<string> := {".flac", ".wav"}

  /** The full path of a walked entry. */
  function EntryPath(root: PurePath, e: WalkEntry): PurePath
  {
    PurePath(root.absolute, root.parts + e.parts)
  }

  /** A regular file whose final suffix, lower-cased, is `.flac` or `.wav`. */
  predicate IsAudio(root: PurePath, e: WalkEntry)
  {
    e.isFile && Lower(Suffix(Name(EntryPath(root, e)))) in AudioExtensions
  }

  /** The entries of `walk` that `keep` accepts, as relative paths, in walk order. */
  function Kept(walk: seq<WalkEntry>, keep: WalkEntry -> bool): seq<PurePath>
  {
    if walk == [] then []
    else
      var last := walk[|walk| - 1];
      Kept(walk[..|walk| - 1], keep) + (if keep(last) then [PurePath(false, last.parts)] else [])
  }

  /** The audio entries of `walk`, relative to the root, in walk order. */
  function AudioFiles(root: PurePath, walk: seq<WalkEntry>): seq<PurePath>
  {
    Kept(walk, e => IsAudio(root, e))
  }

  /**
   * `find_audio_files`: a missing root and a root that is not a directory
   * are reported before anything is walked; otherwise each walked regular
   * file with an audio suffix is listed relative to the root.
   */
  method FindAudioFiles(root: PurePath, kind: RootKind, walk: seq<WalkEntry>)
    returns (r: Result<seq<PurePath>, DiscoveryError>)
    ensures kind == Missing ==> r == Err(FileNotFoundError("Directory does not exist: " + Render(root)))
    ensures kind == NotADirectory ==> r == Err(NotADirectoryError("Path is not a directory: " + Render(root)))
    ensures kind == Directory ==> r == Ok(AudioFiles(root, walk))
  {
    if kind == Missing {
      return Err(FileNotFoundError("Directory does not exist: " + Render(root)));
    }
    if kind == NotADirectory {
      return Err(NotADirectoryError("Path is not a directory: " + Render(root)));
    }
    var audioFiles: seq<PurePath> := [];
    for i := 0 to |walk|
      invariant audioFiles == AudioFiles(root, walk[..i])
    {
      var entry := walk[i];
      var filePath := EntryPath(root, entry);
      assert walk[..i + 1][..i] == walk[..i];
      if entry.isFile && Lower(Suffix(Name(filePath))) in AudioExtensions {
        var relativePath := RelativeTo(filePath, root).value;
        assert root.parts + entry.parts == filePath.parts;
        audioFiles := audioFiles + [relativePath];
      }
    }
    assert walk[..|walk|] == walk;
    return Ok(audioFiles);
  }

  lemma {:induction false} KeptAppend(a: seq<WalkEntry>, b: seq<WalkEntry>, keep: WalkEntry -> bool)
    ensures Kept(a + b, keep) == Kept(a, keep) + Kept(b, keep)
    decreases |b|
  {
    if b == [] {
      assert a + b == a;
    } else {
      var c := b[..|b| - 1];
      KeptAppend(a, c, keep);
      assert (a + b)[..|a + b| - 1] == a + c;
      assert (a + b)[|a + b| - 1] == b[|b| - 1];
    }
  }

  lemma {:induction false} KeptMembership(walk: seq<WalkEntry>, keep: WalkEntry -> bool, p: PurePath)
    ensures p in Kept(walk, keep) <==>
              exists k :: 0 <= k < |walk| && keep(walk[k]) && p == PurePath(false, walk[k].parts)
    decreases |walk|
  {
    if walk != [] {
      var init := walk[..|walk| - 1];
      KeptMembership(init, keep, p);
      if exists k :: 0 <= k < |walk| && keep(walk[k]) && p == PurePath(false, walk[k].parts) {
        var k :| 0 <= k < |walk| && keep(walk[k]) && p == PurePath(false, walk[k].parts);
        if k < |walk| - 1 {
          assert init[k] == walk[k];
        }
      }
      if exists k :: 0 <= k < |init| && keep(init[k]) && p == PurePath(false, init[k].parts) {
        var k :| 0 <= k < |init| && keep(init[k]) && p == PurePath(false, init[k].parts);
        assert walk[k] == init[k];
      }
    }
  }

  /** Listing a walk in two pieces lists the first piece's files, then the second's. */
  lemma AudioFilesAppend(root: PurePath, a: seq<WalkEntry>, b: seq<WalkEntry>)
    ensures AudioFiles(root, a + b) == AudioFiles(root, a) + AudioFiles(root, b)
  {
    KeptAppend(a, b, e => IsAudio(root, e));
  }

  /**
   * A path is listed exactly when some walked entry is an audio file below
   * the root at that relative path.
   */
  lemma AudioFilesMembership(root: PurePath, walk: seq<WalkEntry>, p: PurePath)
    ensures p in AudioFiles(root, walk) <==>
              exists k :: 0 <= k < |walk| && IsAudio(root, walk[k]) && p == PurePath(false, walk[k].parts)
  {
    KeptMembership(walk, e => IsAudio(root, e), p);
  }

  /** Every listed path is relative, and joining it onto the root gives a walked audio file's path. */
  lemma AudioFilesUnderRoot(root: PurePath, walk: seq<WalkEntry>)
    ensures forall p :: p in AudioFiles(root, walk) ==>
              !p.absolute && exists k :: 0 <= k < |walk| && IsAudio(root, walk[k])
                                         && JoinPath(root, p) == EntryPath(root, walk[k])
  {
    forall p | p in AudioFiles(root, walk)
      ensures !p.absolute && exists k :: 0 <= k < |walk| && IsAudio(root, walk[k])
                                         && JoinPath(root, p) == EntryPath(root, walk[k])
    {
      AudioFilesMembership(root, walk, p);
      var k :| 0 <= k < |walk| && IsAudio(root, walk[k]) && p == PurePath(false, walk[k].parts);
      assert JoinPath(root, p) == EntryPath(root, walk[k]);
    }
  }

  /** How many entries of the walk `keep` accepts. */
  function KeptCount(walk: seq<WalkEntry>, keep: WalkEntry -> bool): nat
  {
    if walk == [] then 0
    else KeptCount(walk[..|walk| - 1], keep) + (if keep(walk[|walk| - 1]) then 1 else 0)
  }

  /** There is exactly one listed path per audio entry of the walk. */
  lemma {:induction false} KeptCountIsLength(walk: seq<WalkEntry>, keep: WalkEntry -> bool)
    ensures |Kept(walk, keep)| == KeptCount(walk, keep) <= |walk|
    decreases |walk|
  {
    if walk != [] {
      KeptCountIsLength(walk[..|walk| - 1], keep);
    }
  }

  lemma AudioFilesCount(root: PurePath, walk: seq<WalkEntry>)
    ensures |AudioFiles(root, walk)| == KeptCount(walk, e => IsAudio(root, e)) <= |walk|
  {
    KeptCountIsLength(walk, e => IsAudio(root, e));
  }

  /** Nothing is listed exactly when no walked entry is an audio file. */
  lemma NoAudioNoFiles(root: PurePath, walk: seq<WalkEntry>)
    ensures AudioFiles(root, walk) == [] <==> forall k :: 0 <= k < |walk| ==> !IsAudio(root, walk[k])
  {
    if AudioFiles(root, walk) != [] {
      AudioFilesMembership(root, walk, AudioFiles(root, walk)[0]);
    } else {
      forall k | 0 <= k < |walk| ensures !IsAudio(root, walk[k]) {
        AudioFilesMembership(root, walk, PurePath(false, walk[k].parts));
      }
    }
  }

  /** The lower-cased suffix of a stem followed by a plain suffix is that suffix, lower-cased. */
  lemma LowerSuffixOf(stem: string, suffix: string)
    requires stem != "" && PlainSuffix(suffix)
    ensures Lower(Suffix(stem + suffix)) == Lower(suffix)
  {
    SuffixOfStemPlus(stem, suffix);
  }

  /** `.flac` and `.wav` are accepted whatever their case. */
  lemma AudioSuffixIgnoresCase(stem: string)
    requires stem != ""
    ensures Lower(Suffix(stem + ".FLAC")) in AudioExtensions
    ensures Lower(Suffix(stem + ".Wav")) in AudioExtensions
  {
    assert PlainSuffix(".FLAC") && PlainSuffix(".Wav");
    LowerSuffixOf(stem, ".FLAC");
    LowerSuffixOf(stem, ".Wav");
    assert Lower(".FLAC") == ".flac" && Lower(".Wav") == ".wav";
  }

  /** Only the final suffix counts: `x.wav.mp3` is not an audio file. */
  lemma AudioSuffixIsFinal(stem: string)
    requires stem != ""
    ensures Lower(Suffix(stem + ".wav" + ".mp3")) !in AudioExtensions
  {
    assert PlainSuffix(".mp3");
    LowerSuffixOf(stem + ".wav", ".mp3");
    assert Lower(".mp3") == ".mp3";
  }
}
