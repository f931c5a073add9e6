/**
 * Per-file processing: the name a track gets in the destination tree, and
 * the choice between transcoding a lossless track and copying a lossy one,
 * with every exception turned into a `failed` result.
 *
 * The filesystem, the tag library and the encoder are not modelled; each
 * thing the two steps do is an `Effect`, and a `World` says for each effect
 * whether it completes or raises (and with what message).
 */
module AudioProcessor {
  import opened Wrappers
  import opened Strings
  import opened Paths
  import opened CliPaths

  /**
   * `get_output_filename`: a lossless track is renamed to `.opus`; any other
   * type keeps its name, as `str(Path(name))` spells it.
   */
  function GetOutputFilename(inputFilename: string, fileType: string): (r: Result<string, PathError>)
    ensures fileType != "lossless" ==> r.Ok? && ParsePath(r.value) == ParsePath(inputFilename)
    ensures fileType == "lossless" ==> (r.Ok? <==> Name(ParsePath(inputFilename)) != "")
    ensures fileType == "lossless" && r.Ok? ==>
              SuffixReplaced(ParsePath(inputFilename), ParsePath(r.value), ".opus")
    ensures r.Ok? ==> r.value == Render(ParsePath(r.value))
  {
    if fileType == "lossless" then
      ResolveOutputFilename(inputFilename)
    else
      var p := ParsePath(inputFilename);
      ParseRender(p);
      Ok(Render(p))
  }

  /** A name already in the form pathlib prints comes back unchanged for a non-lossless type. */
  lemma GetOutputFilenameKeepsNormalName(inputFilename: string, fileType: string)
    requires fileType != "lossless"
    requires Render(ParsePath(inputFilename)) == inputFilename
    ensures GetOutputFilename(inputFilename, fileType) == Ok(inputFilename)
  {
  }

  /** Two names of the same path get the same output name, whatever the type. */
  lemma GetOutputFilenameSamePath(a: string, b: string, fileType: string)
    requires ParsePath(a) == ParsePath(b)
    ensures GetOutputFilename(a, fileType) == GetOutputFilename(b, fileType)
  {
  }

  // ---------------------------------------------------------------------
  // os.path.dirname
  // ---------------------------------------------------------------------

  /** `s.rstrip(c)`: drops every trailing `c`. */
  function RStripChar(s: string, c: char): (r: string)
    ensures |r| <= |s| && r == s[..|r|]
    ensures r == [] || r[|r| - 1] != c
    ensures forall k :: |r| <= k < |s| ==> s[k] == c
  {
    if |s| > 0 && s[|s| - 1] == c then RStripChar(s[..|s| - 1], c) else s
  }

  predicate AllSlashes(s: string)
  {
    forall k :: 0 <= k < |s| ==> s[k] == '/'
  }

  /**
   * `os.path.dirname(path)`: everything up to the last `/`, without its
   * trailing slashes unless it is made of slashes only.
   *
   * The contract pins the result down: what follows it in `path` is a run of
   * slashes and then a name free of slashes; a result made of slashes only
   * (the root, or "" when there is no slash) keeps every slash but the name,
   * and any other result ends in a character that is not a slash.
   */
  function Dirname(path: string): (r: string)
    ensures r <= path
    ensures '/' !in path ==> r == ""
    ensures AllSlashes(r) ==> '/' !in path[|r|..]
    ensures !AllSlashes(r) ==> |r| < |path| && r[|r| - 1] != '/' && path[|r|] == '/'
    ensures forall j, k :: |r| <= j < k < |path| && path[j] != '/' ==> path[k] != '/'
  {
    var i := RFind(path, '/') + 1;
    var head := path[..i];
    if head != "" && !AllSlashes(head) then
      var r := RStripChar(head, '/');
      assert head[i - 1] == '/';
      assert r != [];
      assert !AllSlashes(r) by { assert r[|r| - 1] != '/'; }
      r
    else
      head
  }

  /** The directory of `dir/name`, for a name without slashes and a directory not ending in one. */
  lemma DirnameOfChild(dir: string, name: string)
    requires dir != "" && dir[|dir| - 1] != '/' && '/' !in name
    ensures Dirname(dir + "/" + name) == dir
  {
    var path := dir + "/" + name;
    var i := |dir|;
    assert path[i] == '/';
    forall k | i < k < |path| ensures path[k] != '/' {
      assert path[k] == name[k - i - 1];
    }
    assert RFind(path, '/') == i;
    var head := path[..i + 1];
    assert head == dir + "/";
    assert !AllSlashes(head) by { assert head[i - 1] == dir[i - 1]; }
    assert head[..|head| - 1] == dir;
  }

  // ---------------------------------------------------------------------
  // The steps and the world they run in
  // ---------------------------------------------------------------------

  /** One thing the copy or transcode step does to the outside world. */
  datatype Effect =
    | ImportEncoderCommand
    | MakeDirs(dir: string)
    | CopyFile(source: string, dest: string)
    | ApplyTags(path: string, tags: Fields)
    | RunEncoder(source: string, dest: string, quality: string, overrides: Option<Fields>)

  /** What each effect does: None when it completes, Some(m) when it raises with `str(e) == m`. */
  type World = Effect -> Option<string>

  /** The effects that were attempted, and the message of the one that raised, if any. */
  datatype Run = Run(performed: seq<Effect>, raised: Option<string>)

  /** The position of the first step that raises, or the number of steps when none does. */
  function FirstRaise(steps: seq<Effect>, world: World): (n: nat)
    ensures n <= |steps|
    ensures forall k :: 0 <= k < n ==> world(steps[k]).None?
    ensures n < |steps| ==> world(steps[n]).Some?
  {
    if steps == [] || world(steps[0]).Some? then 0
    else 1 + FirstRaise(steps[1..], world)
  }

  /**
   * Runs `steps` in order until one raises: every attempted step before the
   * last completed, and the run raises exactly when its last step did.
   */
  function RunSteps(steps: seq<Effect>, world: World): (r: Run)
    ensures r.performed <= steps
    ensures r.raised.None? ==> r.performed == steps
    ensures forall k :: 0 <= k < |r.performed| - 1 ==> world(r.performed[k]).None?
    ensures r.raised.None? <==> forall k :: 0 <= k < |r.performed| ==> world(r.performed[k]).None?
    ensures r.raised.Some? ==> |r.performed| >= 1 && world(r.performed[|r.performed| - 1]) == r.raised
  {
    var n := FirstRaise(steps, world);
    if n == |steps| then Run(steps, None)
    else Run(steps[..n + 1], world(steps[n]))
  }

  /** A run completes exactly when every step of it completes. */
  lemma RunStepsCompletes(steps: seq<Effect>, world: World)
    ensures RunSteps(steps, world).raised.None? <==> forall k :: 0 <= k < |steps| ==> world(steps[k]).None?
  {
    var r := RunSteps(steps, world);
    if r.raised.Some? {
      var n := |r.performed| - 1;
      assert steps[n] == r.performed[n];
    }
  }

  /** `if metadata:` — None and the empty dictionary are both false. */
  predicate Truthy(metadata: Option<Fields>)
  {
    metadata.Some? && metadata.value != map[]
  }

  /**
   * `copy_with_metadata`: create the destination directory, copy the file,
   * then apply the tags only when there is non-empty metadata.
   */
  function CopyPlan(sourcePath: string, destPath: string, metadata: Option<Fields>): (r: seq<Effect>)
    ensures |r| == if Truthy(metadata) then 3 else 2
    ensures r[0] == MakeDirs(Dirname(destPath)) && r[1] == CopyFile(sourcePath, destPath)
    ensures Truthy(metadata) ==> r[2] == ApplyTags(destPath, metadata.value)
  {
    [MakeDirs(Dirname(destPath)), CopyFile(sourcePath, destPath)]
      + (if Truthy(metadata) then [ApplyTags(destPath, metadata.value)] else [])
  }

  /**
   * `transcode_with_metadata`: import the encoder command builder, create the
   * destination directory, run the encoder (a non-zero exit raises).
   */
  function TranscodePlan(sourcePath: string, destPath: string, quality: string, metadata: Option<Fields>)
    : (r: seq<Effect>)
    ensures |r| == 3 && r[0] == ImportEncoderCommand && r[1] == MakeDirs(Dirname(destPath))
    ensures r[2] == RunEncoder(sourcePath, destPath, quality, metadata)
  {
    [ImportEncoderCommand, MakeDirs(Dirname(destPath)), RunEncoder(sourcePath, destPath, quality, metadata)]
  }

  function Plan(sourcePath: string, destPath: string, fileType: string, quality: string, metadata: Option<Fields>)
    : seq<Effect>
  {
    if fileType == "lossless" then TranscodePlan(sourcePath, destPath, quality, metadata)
    else CopyPlan(sourcePath, destPath, metadata)
  }

  /** The file an effect writes, if it writes one. */
  function WrittenPath(e: Effect): Option<string>
  {
    match e
    case CopyFile(_, dest) => Some(dest)
    case ApplyTags(path, _) => Some(path)
    case RunEncoder(_, dest, _, _) => Some(dest)
    case _ => None
  }

  /**
   * Both plans write only the destination file, and never before its
   * directory has been created; the source file is never written unless it
   * is the destination itself.
   */
  lemma PlanWritesOnlyDestination(sourcePath: string, destPath: string, fileType: string, quality: string,
                                  metadata: Option<Fields>)
    ensures var plan := Plan(sourcePath, destPath, fileType, quality, metadata);
      && (exists k :: 0 <= k < |plan| && WrittenPath(plan[k]) == Some(destPath))
      && (forall k :: 0 <= k < |plan| && WrittenPath(plan[k]).Some? ==>
            WrittenPath(plan[k]) == Some(destPath) && MakeDirs(Dirname(destPath)) in plan[..k])
  {
    var plan := Plan(sourcePath, destPath, fileType, quality, metadata);
    var w := if fileType == "lossless" then 2 else 1;
    assert WrittenPath(plan[w]) == Some(destPath);
    forall k | 0 <= k < |plan| && WrittenPath(plan[k]).Some?
      ensures WrittenPath(plan[k]) == Some(destPath) && MakeDirs(Dirname(destPath)) in plan[..k]
    {
      var d := if fileType == "lossless" then 1 else 0;
      assert plan[..k][d] == MakeDirs(Dirname(destPath));
    }
  }

  /** The dictionary `process_audio_file` returns, with the effects it attempted. */
  datatype Outcome = Outcome(action: string, error: Option<string>, performed: seq<Effect>)

  /**
   * `process_audio_file`: transcode a lossless file, copy any other; an
   * exception from either step becomes `failed` with its message and is
   * never raised further.
   */
  function ProcessAudioFile(sourcePath: string, destPath: string, fileType: string, quality: string,
                            metadata: Option<Fields>, world: World): (r: Outcome)
    ensures r.action == "transcoded" || r.action == "copied" || r.action == "failed"
    ensures r.action == "failed" <==> r.error.Some?
    ensures r.action == "transcoded" ==> fileType == "lossless"
    ensures r.action == "copied" ==> fileType != "lossless"
    ensures r.performed <= Plan(sourcePath, destPath, fileType, quality, metadata)
  {
    var run := RunSteps(Plan(sourcePath, destPath, fileType, quality, metadata), world);
    match run.raised
    case Some(message) => Outcome("failed", Some(message), run.performed)
    case None => Outcome(if fileType == "lossless" then "transcoded" else "copied", None, run.performed)
  }

  /** A lossless file only ever reaches the transcode step: nothing is copied or tagged. */
  lemma LosslessOnlyTranscodes(sourcePath: string, destPath: string, quality: string,
                               metadata: Option<Fields>, world: World)
    ensures var r := ProcessAudioFile(sourcePath, destPath, "lossless", quality, metadata, world);
      forall k :: 0 <= k < |r.performed| ==> !r.performed[k].CopyFile? && !r.performed[k].ApplyTags?
  {
    var r := ProcessAudioFile(sourcePath, destPath, "lossless", quality, metadata, world);
    var plan := TranscodePlan(sourcePath, destPath, quality, metadata);
    forall k | 0 <= k < |r.performed| ensures !r.performed[k].CopyFile? && !r.performed[k].ApplyTags? {
      assert r.performed[k] == plan[k];
    }
  }

  /** Any other type only ever reaches the copy step: the encoder is never involved. */
  lemma OtherTypesOnlyCopy(sourcePath: string, destPath: string, fileType: string, quality: string,
                           metadata: Option<Fields>, world: World)
    requires fileType != "lossless"
    ensures var r := ProcessAudioFile(sourcePath, destPath, fileType, quality, metadata, world);
      forall k :: 0 <= k < |r.performed| ==> !r.performed[k].RunEncoder? && !r.performed[k].ImportEncoderCommand?
  {
    var r := ProcessAudioFile(sourcePath, destPath, fileType, quality, metadata, world);
    var plan := CopyPlan(sourcePath, destPath, metadata);
    forall k | 0 <= k < |r.performed| ensures !r.performed[k].RunEncoder? && !r.performed[k].ImportEncoderCommand? {
      assert r.performed[k] == plan[k];
    }
  }

  /**
   * The result is `transcoded` or `copied` exactly when every step of the
   * chosen plan completes, and then the whole plan was carried out.
   */
  lemma ProcessSucceedsIff(sourcePath: string, destPath: string, fileType: string, quality: string,
                           metadata: Option<Fields>, world: World)
    ensures var r := ProcessAudioFile(sourcePath, destPath, fileType, quality, metadata, world);
      var plan := Plan(sourcePath, destPath, fileType, quality, metadata);
      && (r.action != "failed" <==> forall k :: 0 <= k < |plan| ==> world(plan[k]).None?)
      && (r.action != "failed" ==> r.performed == plan)
  {
    RunStepsCompletes(Plan(sourcePath, destPath, fileType, quality, metadata), world);
  }

  /**
   * A failure reports the message of the step that raised; every step
   * before it completed and nothing after it was attempted.
   */
  lemma FailureReportsRaisingStep(sourcePath: string, destPath: string, fileType: string, quality: string,
                                  metadata: Option<Fields>, world: World)
    ensures var r := ProcessAudioFile(sourcePath, destPath, fileType, quality, metadata, world);
      r.action == "failed" ==>
        && |r.performed| >= 1
        && r.error == world(r.performed[|r.performed| - 1])
        && forall k :: 0 <= k < |r.performed| - 1 ==> world(r.performed[k]).None?
  {
  }

  /**
   * A copied file is tagged exactly when the metadata is non-empty and the
   * directory and copy steps completed.
   */
  lemma CopyTagsOnlyWithMetadata(sourcePath: string, destPath: string, fileType: string, quality: string,
                                 metadata: Option<Fields>, world: World)
    requires fileType != "lossless"
    ensures var r := ProcessAudioFile(sourcePath, destPath, fileType, quality, metadata, world);
      (exists k :: 0 <= k < |r.performed| && r.performed[k].ApplyTags?) <==>
        Truthy(metadata) && world(MakeDirs(Dirname(destPath))).None? && world(CopyFile(sourcePath, destPath)).None?
  {
    var r := ProcessAudioFile(sourcePath, destPath, fileType, quality, metadata, world);
    var plan := CopyPlan(sourcePath, destPath, metadata);
    if exists k :: 0 <= k < |r.performed| && r.performed[k].ApplyTags? {
      var k :| 0 <= k < |r.performed| && r.performed[k].ApplyTags?;
      assert r.performed[k] == plan[k];
      assert k == 2;
      assert r.performed[0] == plan[0] && r.performed[1] == plan[1];
    } else if Truthy(metadata) && world(plan[0]).None? && world(plan[1]).None? {
      assert r.performed[2] == plan[2];
    }
  }

  /** Empty metadata behaves exactly like no metadata at all. */
  lemma EmptyMetadataLikeNone(sourcePath: string, destPath: string, fileType: string, quality: string,
                              world: World)
    requires fileType != "lossless"
    ensures ProcessAudioFile(sourcePath, destPath, fileType, quality, Some(map[]), world)
         == ProcessAudioFile(sourcePath, destPath, fileType, quality, None, world)
  {
    assert CopyPlan(sourcePath, destPath, Some(map[])) == CopyPlan(sourcePath, destPath, None);
  }

  /**
   * When the encoder command builder cannot be imported, every lossless file
   * fails with that message before its directory is created.
   */
  lemma ImportFailureFailsLossless(sourcePath: string, destPath: string, quality: string,
                                   metadata: Option<Fields>, world: World)
    requires world(ImportEncoderCommand).Some?
    ensures ProcessAudioFile(sourcePath, destPath, "lossless", quality, metadata, world)
         == Outcome("failed", world(ImportEncoderCommand), [ImportEncoderCommand])
  {
  }
}
