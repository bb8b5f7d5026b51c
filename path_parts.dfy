/**
 * The path component extractors of StringUtils: GetDirectoryName,
 * GetFileName, GetFileNameWithoutExtension and GetPathWithoutExtension.
 * Each finds the last occurrence of some separator characters and keeps
 * the text before or after it.
 */
module PathParts {

  /** DirectorySeparatorChar. */
  const DirectorySeparator: char := '\\'
  /** AltDirectorySeparatorChar. */
  const AltDirectorySeparator: char := '/'
  /** VolumeSeparatorChar. */
  const VolumeSeparator: char := ':'

  /** The characters GetDirectoryName splits at. */
  predicate IsDirSep(c: char) {
    c == DirectorySeparator || c == AltDirectorySeparator
  }

  /** The characters GetFileName stops at. */
  predicate IsNameSep(c: char) {
    c == DirectorySeparator || c == AltDirectorySeparator || c == VolumeSeparator
  }

  /** String::FindLast: the index of the last `c` in `s`, or -1 (INVALID_INDEX). */
  function FindLast(s: string, c: char): (r: int)
    ensures -1 <= r < |s|
    ensures r >= 0 ==> s[r] == c
    ensures forall k | r < k < |s| :: s[k] != c
    decreases |s|
  {
    if s == [] then -1
    else if s[|s| - 1] == c then |s| - 1
    else FindLast(s[..|s| - 1], c)
  }

  /**
   * `r` is the part of `s` before the last character satisfying `sep`, or
   * `otherwise` when `s` has no such character.
   */
  ghost predicate BeforeLast(s: string, r: string, sep: char -> bool, otherwise: string) {
    if exists k | 0 <= k < |s| :: sep(s[k]) then
      |r| < |s| && r == s[..|r|] && sep(s[|r|]) && forall k | |r| < k < |s| :: !sep(s[k])
    else
      r == otherwise
  }

  /** Lines 206-212: the prefix before the last '\\' or '/', or the empty
      string when there is neither. */
  function GetDirectoryName(path: string): (r: string)
    ensures BeforeLast(path, r, IsDirSep, [])
  {
    var lastFrontSlash := FindLast(path, DirectorySeparator);
    var lastBackSlash := FindLast(path, AltDirectorySeparator);
    var splitIndex := if lastBackSlash > lastFrontSlash then lastBackSlash else lastFrontSlash;
    if splitIndex != -1 then path[..splitIndex] else []
  }

  /** Lines 242-250: the path up to its last '.', or the whole path. */
  function GetPathWithoutExtension(path: string): (r: string)
    ensures BeforeLast(path, r, c => c == '.', path)
  {
    var num := FindLast(path, '.');
    if num != -1 then path[..num] else path
  }

  /** The file name of `path`, read from its end: the characters after the
      last name separator. */
  function FileName(path: string): (r: string)
    ensures |r| <= |path|
    decreases |path|
  {
    if path == [] || IsNameSep(path[|path| - 1]) then []
    else FileName(path[..|path| - 1]) + [path[|path| - 1]]
  }

  /** The file name is a suffix without separators, and it is the whole path
      or is preceded by a separator. */
  lemma {:induction false} FileNameShape(path: string)
    ensures |FileName(path)| <= |path| && FileName(path) == path[|path| - |FileName(path)|..]
    ensures forall k | 0 <= k < |FileName(path)| :: !IsNameSep(FileName(path)[k])
    ensures |FileName(path)| < |path| ==> IsNameSep(path[|path| - |FileName(path)| - 1])
    decreases |path|
  {
    if path != [] && !IsNameSep(path[|path| - 1]) {
      var front := path[..|path| - 1];
      FileNameShape(front);
      assert path[|path| - |FileName(path)|..] == front[|front| - |FileName(front)|..] + [path[|path| - 1]];
    }
  }

  /** Those three facts determine the file name. */
  lemma {:induction false} FileNameUnique(path: string, r: string)
    requires |r| <= |path| && r == path[|path| - |r|..]
    requires forall k | 0 <= k < |r| :: !IsNameSep(r[k])
    requires |r| < |path| ==> IsNameSep(path[|path| - |r| - 1])
    ensures r == FileName(path)
    decreases |path|
  {
    if r != [] {
      var front := path[..|path| - 1];
      var rfront := r[..|r| - 1];
      assert r[|r| - 1] == path[|path| - 1];
      assert rfront == front[|front| - |rfront|..];
      if |rfront| < |front| {
        assert front[|front| - |rfront| - 1] == path[|path| - |r| - 1];
      }
      FileNameUnique(front, rfront);
      assert rfront + [r[|r| - 1]] == r;
    } else if path != [] {
      assert IsNameSep(path[|path| - 1]);
    }
  }

  /** A path with no '\\', '/' or ':' is its own file name. */
  lemma FileNameWithoutSeparators(path: string)
    requires forall k | 0 <= k < |path| :: !IsNameSep(path[k])
    ensures FileName(path) == path
  {
    FileNameUnique(path, path);
  }

  /**
   * Lines 214-229: the do/while loop steps `num` back from the end until it
   * meets '\\', '/' or ':', and the name is what follows; the whole path
   * when the scan runs off the front.
   */
  method GetFileName(path: string) returns (r: string)
    ensures r == FileName(path)
  {
    var length := |path|;
    var num: int := length;
    var chr: char;
    while true
      invariant 0 <= num <= length
      invariant forall k | num <= k < length :: !IsNameSep(path[k])
      decreases num
    {
      num := num - 1;
      if num < 0 {
        FileNameUnique(path, path);
        return path;
      }
      chr := path[num];
      if chr == DirectorySeparator || chr == AltDirectorySeparator || chr == VolumeSeparator {
        break;
      }
    }
    r := path[num + 1..];
    FileNameUnique(path, r);
  }

  /** Lines 231-240: the file name up to its last '.', or the whole name. */
  method GetFileNameWithoutExtension(path: string) returns (r: string)
    ensures BeforeLast(FileName(path), r, c => c == '.', FileName(path))
  {
    var filename := GetFileName(path);
    var num := FindLast(filename, '.');
    if num != -1 {
      return filename[..num];
    }
    return filename;
  }

  /** Where the path has no ':', it is its directory, the separator, and its
      file name. */
  lemma DirectoryAndFileName(path: string)
    requires forall k | 0 <= k < |path| :: path[k] != VolumeSeparator
    requires exists k | 0 <= k < |path| :: IsDirSep(path[k])
    ensures var dir := GetDirectoryName(path);
      |dir| < |path| && path == dir + [path[|dir|]] + FileName(path)
  {
    var dir := GetDirectoryName(path);
    var name := path[|dir| + 1..];
    assert path == dir + [path[|dir|]] + name;
    assert forall k | 0 <= k < |name| :: !IsNameSep(name[k]) by {
      forall k | 0 <= k < |name| ensures !IsNameSep(name[k]) {
        assert name[k] == path[|dir| + 1 + k];
      }
    }
    FileNameUnique(path, name);
  }
}
