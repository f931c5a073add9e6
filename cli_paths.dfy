/**
 * The two path helpers of the command-line module: re-rooting an album
 * directory from the source collection into the destination collection,
 * and naming the `.opus` file a lossless track is transcoded to.
 */
module CliPaths {
  import opened Wrappers
  import opened Strings
  import opened Paths

  /**
   * `resolve_destination_path`: `dest_root / Path(source_dir).relative_to(source_root)`,
   * rendered as text. Fails exactly when `source_dir` is not `source_root` or below it.
   */
  function ResolveDestinationPath(sourceDir: string, sourceRoot: string, destRoot: string)
    : (r: Result<string, PathError>)
    ensures var src, root, dest := ParsePath(sourceDir), ParsePath(sourceRoot), ParsePath(destRoot);
      && (r.Ok? <==> src.absolute == root.absolute && root.parts <= src.parts)
      && (r.Ok? ==> ParsePath(r.value) == PurePath(dest.absolute, dest.parts + src.parts[|root.parts|..]))
      && (r.Ok? ==> r.value == Render(PurePath(dest.absolute, dest.parts + src.parts[|root.parts|..])))
  {
    var src, root, dest := ParsePath(sourceDir), ParsePath(sourceRoot), ParsePath(destRoot);
    match RelativeTo(src, root)
    case Err(e) => Err(e)
    case Ok(rel) =>
      var out := JoinPath(dest, rel);
      ParseRender(out);
      Ok(Render(out))
  }

  /** The source root itself maps to the destination root itself. */
  lemma RootMapsToDestRoot(sourceRoot: string, destRoot: string)
    ensures ResolveDestinationPath(sourceRoot, sourceRoot, destRoot) == Ok(Render(ParsePath(destRoot)))
  {
    var root, dest := ParsePath(sourceRoot), ParsePath(destRoot);
    assert RelativeTo(root, root) == Ok(PurePath(false, []));
    assert JoinPath(dest, PurePath(false, [])) == dest;
  }

  /** Trailing slashes on any of the three arguments make no difference. */
  lemma TrailingSlashesIgnored(sourceDir: string, sourceRoot: string, destRoot: string)
    requires sourceDir != "" && sourceRoot != "" && destRoot != ""
    ensures ResolveDestinationPath(sourceDir + "/", sourceRoot + "/", destRoot + "/")
         == ResolveDestinationPath(sourceDir, sourceRoot, destRoot)
  {
    TrailingSlashIgnored(sourceDir);
    TrailingSlashIgnored(sourceRoot);
    TrailingSlashIgnored(destRoot);
  }

  /**
   * Re-rooting is reversible: mapping the result back from the destination
   * root to the source root gives the (normalised) source directory.
   */
  lemma ResolveDestinationInverse(sourceDir: string, sourceRoot: string, destRoot: string)
    requires ResolveDestinationPath(sourceDir, sourceRoot, destRoot).Ok?
    ensures var out := ResolveDestinationPath(sourceDir, sourceRoot, destRoot).value;
      ResolveDestinationPath(out, destRoot, sourceRoot) == Ok(Render(ParsePath(sourceDir)))
  {
    var src, root, dest := ParsePath(sourceDir), ParsePath(sourceRoot), ParsePath(destRoot);
    var out := ResolveDestinationPath(sourceDir, sourceRoot, destRoot).value;
    var rest := src.parts[|root.parts|..];
    assert ParsePath(out).parts[|dest.parts|..] == rest;
    assert root.parts + rest == src.parts;
  }

  /**
   * `resolve_output_filename`: `str(Path(name).with_suffix(".opus"))`.
   * Only the final suffix of the last part is replaced; the directory part is kept.
   */
  function ResolveOutputFilename(inputFilename: string): (r: Result<string, PathError>)
    ensures r.Ok? <==> Name(ParsePath(inputFilename)) != ""
    ensures r.Ok? ==> SuffixReplaced(ParsePath(inputFilename), ParsePath(r.value), ".opus")
    ensures r.Ok? ==> r.value == Render(ParsePath(r.value))
  {
    var p := ParsePath(inputFilename);
    assert PlainSuffix(".opus");
    match WithSuffix(p, ".opus")
    case Err(e) => Err(e)
    case Ok(q) =>
      var out := Render(q);
      ParseRender(q);
      assert ParsePath(out) == q;
      Ok(out)
  }

  /**
   * The exact text for a track: `dirs/stem.ext` becomes `dirs/stem.opus`
   * (for example `nested/path/file.wav` becomes `nested/path/file.opus`).
   */
  lemma OutputNameOfTrack(absolute: bool, dirs: seq<string>, stem: string, suffix: string)
    requires WellFormed(PurePath(absolute, dirs + [stem + suffix]))
    requires stem != "" && PlainSuffix(suffix)
    ensures ResolveOutputFilename(Render(PurePath(absolute, dirs + [stem + suffix])))
         == Ok(Render(PurePath(absolute, dirs + [stem + ".opus"])))
  {
    var p := PurePath(absolute, dirs + [stem + suffix]);
    ParseRender(p);
    SuffixOfStemPlus(stem, suffix);
    assert Name(p) == stem + suffix;
    assert p.parts[..|p.parts| - 1] == dirs;
    assert PlainSuffix(".opus");
    assert |stem + ".opus"| >= 2;
  }
}
