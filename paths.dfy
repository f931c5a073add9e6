/**
 * POSIX `pathlib.PurePath` as the music librarian uses it: a path is an
 * optional root plus a list of parts. Parsing drops empty and `.` parts,
 * which is why `a//b/./c/` and `a/b/c` are the same path.
 */
module Paths {
  import opened Wrappers
  import opened Strings

  datatype PurePath = PurePath(absolute: bool, parts: seq<string>)

  datatype PathError =
    | EmptyName(path: string)
    | InvalidSuffix(suffix: string)
    | InvalidName(name: string)
    | NotRelative(path: string, other: string)

  /** A part pathlib can hold: not empty, not `.`, no separator. */
  predicate IsPart(s: string)
  {
    s != "" && s != "." && '/' !in s
  }

  predicate WellFormed(p: PurePath)
  {
    forall k :: 0 <= k < |p.parts| ==> IsPart(p.parts[k])
  }

  /** The pieces between separators that survive parsing. */
  function KeepParts(pieces: seq<string>): (r: seq<string>)
    ensures |r| <= |pieces|
    ensures (forall k :: 0 <= k < |pieces| ==> '/' !in pieces[k]) ==>
              forall k :: 0 <= k < |r| ==> IsPart(r[k])
  {
    if pieces == [] then []
    else if pieces[0] == "" || pieces[0] == "." then KeepParts(pieces[1..])
    else [pieces[0]] + KeepParts(pieces[1..])
  }

  lemma {:induction false} KeepPartsAppend(a: seq<string>, b: seq<string>)
    ensures KeepParts(a + b) == KeepParts(a) + KeepParts(b)
  {
    if a != [] {
      KeepPartsAppend(a[1..], b);
      assert (a + b)[1..] == a[1..] + b;
    } else {
      assert a + b == b;
    }
  }

  lemma {:induction false} KeepPartsOfParts(parts: seq<string>)
    requires forall k :: 0 <= k < |parts| ==> IsPart(parts[k])
    ensures KeepParts(parts) == parts
  {
    if parts != [] {
      KeepPartsOfParts(parts[1..]);
    }
  }

  /** `PurePosixPath(s)`; the result always has well-formed parts. */
  function ParsePath(s: string): (p: PurePath)
    ensures WellFormed(p)
    ensures p.absolute <==> StartsWith(s, "/")
  {
    SplitSpec(s, '/');
    PurePath(|s| > 0 && s[0] == '/', KeepParts(Split(s, '/')))
  }

  /** `str(path)`. */
  function Render(p: PurePath): string
  {
    if p.absolute then "/" + Join(p.parts, '/')
    else if p.parts == [] then "."
    else Join(p.parts, '/')
  }

  /** Rendering a path and parsing the text again gives the same path. */
  lemma ParseRender(p: PurePath)
    requires WellFormed(p)
    ensures ParsePath(Render(p)) == p
  {
    var s := Render(p);
    if p.parts == [] {
      if p.absolute {
        assert Split("/", '/') == [""] + Split("", '/') by { assert "/"[1..] == ""; }
        assert Split("", '/') == [""];
        assert KeepParts(["", ""]) == [];
      } else {
        assert Split(".", '/') == [['.'] + Split("", '/')[0]] + Split("", '/')[1..] by { assert "."[1..] == ""; }
        assert Split("", '/') == [""];
        assert ['.'] + "" == ".";
        assert Split(".", '/') == ["."];
      }
    } else {
      var body := Join(p.parts, '/');
      SplitJoin(p.parts, '/');
      KeepPartsOfParts(p.parts);
      JoinStartsWithFirst(p.parts, '/');
      if p.absolute {
        assert s[0] == '/' && s[1..] == body;
        assert Split(s, '/') == [""] + p.parts;
      } else {
        assert s[0] == p.parts[0][0];
      }
    }
  }

  lemma {:induction false} JoinStartsWithFirst(parts: seq<string>, sep: char)
    requires |parts| >= 1 && |parts[0]| >= 1
    ensures |Join(parts, sep)| >= 1 && Join(parts, sep)[0] == parts[0][0]
  {
  }

  /** A trailing slash does not change the path. */
  lemma TrailingSlashIgnored(s: string)
    requires s != ""
    ensures ParsePath(s + "/") == ParsePath(s)
  {
    SplitTrailingSep(s, '/');
    KeepPartsAppend(Split(s, '/'), [""]);
    assert KeepParts([""]) == [];
    assert (s + "/")[0] == s[0];
  }

  /** Normalising is idempotent: rendering a parsed path loses nothing. */
  lemma ParseRenderParse(s: string)
    ensures ParsePath(Render(ParsePath(s))) == ParsePath(s)
  {
    ParseRender(ParsePath(s));
  }

  /** `path.name`: the last part, or "" for `/` and `.`. */
  function Name(p: PurePath): string
  {
    if p.parts == [] then "" else p.parts[|p.parts| - 1]
  }

  /**
   * `PurePath.suffix` of a name: from the last dot on, provided that dot is
   * neither the first nor the last character.
   */
  function Suffix(name: string): (r: string)
    ensures r == "" || (|r| >= 2 && r[0] == '.' && forall k :: 1 <= k < |r| ==> r[k] != '.')
    ensures r == "" || (|r| < |name| && r == name[|name| - |r|..])
  {
    var i := RFind(name, '.');
    if 0 < i < |name| - 1 then name[i..] else ""
  }

  /** `PurePath.stem` of a name: the name without its suffix. */
  function Stem(name: string): string
  {
    name[..|name| - |Suffix(name)|]
  }

  /** What `with_suffix` accepts as a new suffix. */
  predicate ValidSuffix(suffix: string)
  {
    '/' !in suffix && (suffix == "" || (suffix[0] == '.' && suffix != "."))
  }

  /** A suffix made of one leading dot and at least one more non-dot character. */
  predicate PlainSuffix(suffix: string)
  {
    |suffix| >= 2 && suffix[0] == '.' && '.' !in suffix[1..] && '/' !in suffix
  }

  /**
   * `q` is `p` with the final suffix of its last part replaced by `suffix`:
   * same root, same directory parts, same stem.
   */
  predicate SuffixReplaced(p: PurePath, q: PurePath, suffix: string)
  {
    && q.absolute == p.absolute && |q.parts| == |p.parts| >= 1
    && q.parts[..|p.parts| - 1] == p.parts[..|p.parts| - 1]
    && Stem(Name(q)) == Stem(Name(p)) && Suffix(Name(q)) == suffix
  }

  /** `path.with_suffix(suffix)`: replaces the final suffix of the last part. */
  function WithSuffix(p: PurePath, suffix: string): (r: Result<PurePath, PathError>)
    ensures r.Ok? ==> r.value.absolute == p.absolute && |r.value.parts| == |p.parts| >= 1
    ensures r.Ok? ==> r.value.parts[..|p.parts| - 1] == p.parts[..|p.parts| - 1]
    ensures PlainSuffix(suffix) ==> (r.Ok? <==> Name(p) != "")
    ensures PlainSuffix(suffix) && r.Ok? ==>
              Stem(Name(r.value)) == Stem(Name(p)) && Suffix(Name(r.value)) == suffix
    ensures PlainSuffix(suffix) && r.Ok? && WellFormed(p) ==> WellFormed(r.value)
  {
    if !ValidSuffix(suffix) then Err(InvalidSuffix(suffix))
    else
      var name := Name(p);
      if name == "" then Err(EmptyName(Render(p)))
      else
        var stem := Stem(name);
        var newName := stem + suffix;
        if newName == "." then Err(InvalidName(newName))
        else
          var r := PurePath(p.absolute, p.parts[..|p.parts| - 1] + [newName]);
          assert Name(r) == newName;
          assert PlainSuffix(suffix) ==> Suffix(newName) == suffix && Stem(newName) == stem by {
            if PlainSuffix(suffix) { SuffixOfStemPlus(stem, suffix); }
          }
          Ok(r)
  }

  lemma SuffixOfStemPlus(stem: string, suffix: string)
    requires stem != "" && PlainSuffix(suffix)
    ensures Suffix(stem + suffix) == suffix
    ensures Stem(stem + suffix) == stem
  {
    var n := stem + suffix;
    var i := RFind(n, '.');
    assert n[|stem|] == '.';
    forall k | |stem| < k < |n| ensures n[k] != '.' {
      assert n[k] == suffix[k - |stem|] == suffix[1..][k - |stem| - 1];
    }
    assert i == |stem|;
    assert n[i..] == suffix;
  }

  /** `path.relative_to(other)`: defined only when `other` is `path` or one of its parents. */
  function RelativeTo(p: PurePath, other: PurePath): (r: Result<PurePath, PathError>)
    ensures r.Ok? <==> p.absolute == other.absolute && other.parts <= p.parts
    ensures r.Ok? ==> !r.value.absolute && p.parts == other.parts + r.value.parts
  {
    if p.absolute == other.absolute && other.parts <= p.parts then
      Ok(PurePath(false, p.parts[|other.parts|..]))
    else
      Err(NotRelative(Render(p), Render(other)))
  }

  /** `p / q`: an absolute right-hand side replaces the left. */
  function JoinPath(p: PurePath, q: PurePath): PurePath
  {
    if q.absolute then q else PurePath(p.absolute, p.parts + q.parts)
  }

  /** Joining a base with a path taken relative to that base gives the path back. */
  lemma JoinRelativeTo(p: PurePath, other: PurePath)
    requires RelativeTo(p, other).Ok?
    ensures JoinPath(other, RelativeTo(p, other).value) == p
  {
  }
}
