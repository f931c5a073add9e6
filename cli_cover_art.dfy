/**
 * Choosing an album's cover image among the names of its files. A name is a
 * cover for a prefix when, lower-cased, it starts with the prefix and ends
 * with one of the image extensions. Prefixes are tried in priority order and,
 * for each, the names in the order given; the first hit wins and is returned
 * with its original spelling.
 */
module CliCoverArt {
  import opened Wrappers
  import opened Strings

  /** Name prefixes, highest priority first. */
  const CoverPrefixes: seq<string> := ["cover", "folder", "front", "album"]

  /** Image extensions, compared against the lower-cased name. */
  const CoverExtensions: seq<string> := [".jpg", ".jpeg", ".png", ".gif", ".webp"]

  predicate HasCoverExtension(lower: string)
  {
    exists k :: 0 <= k < |CoverExtensions| && EndsWith(lower, CoverExtensions[k])
  }

  predicate IsCoverFor(name: string, prefix: string)
  {
    var lower := Lower(name);
    StartsWith(lower, prefix) && HasCoverExtension(lower)
  }

  /** The position of the first name that is a cover for `prefix`, if any. */
  function FirstCoverFor(files: seq<string>, prefix: string): (r: Option<nat>)
    ensures r.Some? ==> r.value < |files| && IsCoverFor(files[r.value], prefix)
                        && forall j :: 0 <= j < r.value ==> !IsCoverFor(files[j], prefix)
    ensures r.None? ==> forall j :: 0 <= j < |files| ==> !IsCoverFor(files[j], prefix)
  {
    if files == [] then None
    else if IsCoverFor(files[0], prefix) then Some(0)
    else match FirstCoverFor(files[1..], prefix)
      case None => None
      case Some(i) => Some(i + 1)
  }

  /** The cover chosen with the prefixes `prefixes`, tried in order. */
  function SelectCoverFrom(files: seq<string>, prefixes: seq<string>): Option<string>
    decreases |prefixes|
  {
    if prefixes == [] then None
    else match FirstCoverFor(files, prefixes[0])
      case Some(i) => Some(files[i])
      case None => SelectCoverFrom(files, prefixes[1..])
  }

  function SelectCover(files: seq<string>): Option<string>
  {
    SelectCoverFrom(files, CoverPrefixes)
  }

  /** `find_cover_art`: the nested loops over prefixes, names and extensions. */
  method FindCoverArt(availableFiles: seq<string>) returns (r: Option<string>)
    ensures r == SelectCover(availableFiles)
  {
    for pi := 0 to |CoverPrefixes|
      invariant SelectCover(availableFiles) == SelectCoverFrom(availableFiles, CoverPrefixes[pi..])
    {
      var prefix := CoverPrefixes[pi];
      assert CoverPrefixes[pi..][0] == prefix && CoverPrefixes[pi..][1..] == CoverPrefixes[pi + 1..];
      for fi := 0 to |availableFiles|
        invariant forall j :: 0 <= j < fi ==> !IsCoverFor(availableFiles[j], prefix)
      {
        var filename := availableFiles[fi];
        var filenameLower := Lower(filename);
        for ei := 0 to |CoverExtensions|
          invariant !StartsWith(filenameLower, prefix)
                    || forall k :: 0 <= k < ei ==> !EndsWith(filenameLower, CoverExtensions[k])
        {
          if StartsWith(filenameLower, prefix) && EndsWith(filenameLower, CoverExtensions[ei]) {
            assert IsCoverFor(filename, prefix);
            assert FirstCoverFor(availableFiles, prefix) == Some(fi);
            return Some(filename);
          }
        }
      }
    }
    return None;
  }

  /** No cover is chosen exactly when no name is a cover for any prefix. */
  lemma {:induction false} SelectCoverFromNone(files: seq<string>, prefixes: seq<string>)
    ensures SelectCoverFrom(files, prefixes).None? <==>
              forall q, j :: 0 <= q < |prefixes| && 0 <= j < |files| ==> !IsCoverFor(files[j], prefixes[q])
    decreases |prefixes|
  {
    if prefixes != [] {
      var rest := prefixes[1..];
      SelectCoverFromNone(files, rest);
      if FirstCoverFor(files, prefixes[0]).None? && SelectCoverFrom(files, rest).None? {
        forall q, j | 0 <= q < |prefixes| && 0 <= j < |files|
          ensures !IsCoverFor(files[j], prefixes[q])
        {
          if q > 0 { assert prefixes[q] == rest[q - 1]; }
        }
      } else if FirstCoverFor(files, prefixes[0]).None? {
        var q, j :| 0 <= q < |rest| && 0 <= j < |files| && IsCoverFor(files[j], rest[q]);
        assert prefixes[q + 1] == rest[q];
      }
    }
  }

  /** Both kinds of priority hold of the pair (prefix `q`, name `i`). */
  ghost predicate ChosenAt(files: seq<string>, prefixes: seq<string>, q: int, i: int)
  {
    && 0 <= q < |prefixes| && 0 <= i < |files|
    && IsCoverFor(files[i], prefixes[q])
    && (forall q', j :: 0 <= q' < q && 0 <= j < |files| ==> !IsCoverFor(files[j], prefixes[q']))
    && (forall j :: 0 <= j < i ==> !IsCoverFor(files[j], prefixes[q]))
  }

  /**
   * A chosen cover is one of the given names, a cover for some prefix, such
   * that no name is a cover for an earlier prefix and no earlier name is a
   * cover for the same prefix.
   */
  lemma {:induction false} SelectCoverFromPriority(files: seq<string>, prefixes: seq<string>)
    requires SelectCoverFrom(files, prefixes).Some?
    ensures exists q, i :: ChosenAt(files, prefixes, q, i) && SelectCoverFrom(files, prefixes).value == files[i]
    decreases |prefixes|
  {
    var rest := prefixes[1..];
    match FirstCoverFor(files, prefixes[0])
    case Some(i) =>
      assert ChosenAt(files, prefixes, 0, i);
    case None =>
      SelectCoverFromPriority(files, rest);
      var q, i :| ChosenAt(files, rest, q, i) && SelectCoverFrom(files, rest).value == files[i];
      assert prefixes[q + 1] == rest[q];
      forall q', j | 0 <= q' < q + 1 && 0 <= j < |files|
        ensures !IsCoverFor(files[j], prefixes[q'])
      {
        if q' > 0 { assert prefixes[q'] == rest[q' - 1]; }
      }
      assert ChosenAt(files, prefixes, q + 1, i);
  }

  /** The same characterisation for the four cover prefixes. */
  lemma SelectCoverPriority(files: seq<string>)
    ensures SelectCover(files).None? <==>
              forall q, j :: 0 <= q < |CoverPrefixes| && 0 <= j < |files| ==> !IsCoverFor(files[j], CoverPrefixes[q])
    ensures SelectCover(files).Some? ==>
              exists q, i :: ChosenAt(files, CoverPrefixes, q, i) && SelectCover(files).value == files[i]
  {
    SelectCoverFromNone(files, CoverPrefixes);
    if SelectCover(files).Some? {
      SelectCoverFromPriority(files, CoverPrefixes);
    }
  }

  /** Matching ignores case: a name and its lower-cased form are covers for the same prefixes. */
  lemma CoverMatchIgnoresCase(name: string, prefix: string)
    ensures IsCoverFor(name, prefix) <==> IsCoverFor(Lower(name), prefix)
  {
    LowerIdempotent(name);
  }

  /** A `cover` name wins over an earlier `front` name, and keeps its own spelling. */
  lemma CoverBeatsFront()
    ensures SelectCover(["front.png", "Cover.JPG"]) == Some("Cover.JPG")
  {
    assert Lower("Cover.JPG") == "cover.jpg";
    assert EndsWith("cover.jpg", CoverExtensions[0]);
    assert Lower("front.png") == "front.png";
    assert Lower("front.png")[0] != "cover"[0];
    assert FirstCoverFor(["front.png", "Cover.JPG"], "cover") == Some(1);
  }

  /** The prefix test accepts longer names; the extension must end the name. */
  lemma CoverNameExamples()
    ensures IsCoverFor("covers.jpg", "cover")
    ensures !IsCoverFor("cover.jpg.txt", "cover")
  {
    assert Lower("covers.jpg") == "covers.jpg";
    assert EndsWith("covers.jpg", CoverExtensions[0]);
    var t := Lower("cover.jpg.txt");
    assert t == "cover.jpg.txt";
    forall k | 0 <= k < |CoverExtensions| ensures !EndsWith(t, CoverExtensions[k]) {
      assert t[|t| - 1] == 't';
    }
  }

  /** Names that start with none of the prefixes give no cover. */
  lemma NoCoverExample()
    ensures SelectCover(["notes.txt", "back.jpg"]) == None
  {
    var a := ["notes.txt", "back.jpg"];
    assert Lower(a[0]) == "notes.txt" && Lower(a[1]) == "back.jpg";
    forall q, j | 0 <= q < |CoverPrefixes| && 0 <= j < |a| ensures !IsCoverFor(a[j], CoverPrefixes[q]) {
      assert Lower(a[j])[0] != CoverPrefixes[q][0];
    }
    SelectCoverPriority(a);
  }
}
