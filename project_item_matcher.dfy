/** `ProjectItemMatcher`: a value that decides whether a project item's path
    matches, either by a case-insensitive suffix or by a regular expression
    applied to the path's file name. */
module ProjectItemMatching {
  import opened Runtime
  import opened Text

  /** A compiled regular expression, known here only by its pattern; its
      options, such as `RegexOptions.IgnoreCase`, belong to the engine. */
  datatype Regex = Regex(pattern: string)

  /** The regular-expression engine, `Regex.IsMatch(input)`; it is not part
      of this model and is a parameter of every member that needs it. */
  type RegexEngine = (Regex, string) -> bool

  /** The struct's one field `_match`: nothing (the struct's default value),
      a regular expression, or a suffix string. */
  datatype ProjectItemMatcher =
    | Default
    | ByRegex(regex: Regex)
    | BySuffix(suffix: string)

  /** The separators `Path.GetFileName` splits on under Windows, where the
      migrator runs: both `/` and `\`. The step's map-path rules
      (`PathRules` in `PackageUpdater`) are parameters because
      `Path.Combine` is given no fixed platform. */
  predicate IsDirectorySeparator(c: char) {
    c == '/' || c == '\\'
  }

  /** `Path.GetFileName`: the characters after the last directory separator. */
  function GetFileName(path: string): string {
    if path == [] then []
    else if IsDirectorySeparator(path[|path| - 1]) then []
    else GetFileName(path[..|path| - 1]) + [path[|path| - 1]]
  }

  /** The file name is the part of the path after its last separator: a
      suffix of the path with no separator in it, preceded by a separator
      unless it is the whole path. */
  lemma {:induction false} GetFileNameIsLastSegment(path: string)
    ensures var name := GetFileName(path);
            |name| <= |path| && name == path[|path| - |name|..]
            && (forall k :: 0 <= k < |name| ==> !IsDirectorySeparator(name[k]))
            && (|name| < |path| ==> IsDirectorySeparator(path[|path| - |name| - 1]))
    decreases |path|
  {
    if path != [] && !IsDirectorySeparator(path[|path| - 1]) {
      var init, c := path[..|path| - 1], path[|path| - 1];
      GetFileNameIsLastSegment(init);
      var name := GetFileName(init);
      assert GetFileName(path) == name + [c];
      assert path[|path| - |name| - 1..] == init[|init| - |name|..] + [c];
      forall k | 0 <= k < |name| + 1 ensures !IsDirectorySeparator((name + [c])[k]) {
        if k < |name| {
          assert (name + [c])[k] == name[k];
        }
      }
      if |name| + 1 < |path| {
        assert path[|path| - |name| - 2] == init[|init| - |name| - 1];
      }
    }
  }

  /** `new ProjectItemMatcher(Regex regex)`; a null argument leaves `_match` null. */
  function NewFromRegex(regex: Option<Regex>): (m: ProjectItemMatcher)
    ensures regex.Some? ==> m.ByRegex? && m.regex == regex.value
    ensures regex.None? ==> m.Default?
  {
    match regex
    case Some(r) => ByRegex(r)
    case None => Default
  }

  /** `new ProjectItemMatcher(string match)`; a null argument leaves `_match` null. */
  function NewFromString(str: Option<string>): (m: ProjectItemMatcher)
    ensures str.Some? ==> m.BySuffix? && m.suffix == str.value
    ensures str.None? ==> m.Default?
  {
    match str
    case Some(s) => BySuffix(s)
    case None => Default
  }

  /** The implicit conversion from `Regex`: the same matcher the constructor builds. */
  function ImplicitFromRegex(regex: Option<Regex>): (m: ProjectItemMatcher)
    ensures regex.Some? ==> m == ByRegex(regex.value)
    ensures regex.None? ==> m == Default
  {
    NewFromRegex(regex)
  }

  /** The implicit conversion from `string`: the same matcher the constructor builds. */
  function ImplicitFromString(str: Option<string>): (m: ProjectItemMatcher)
    ensures str.Some? ==> m == BySuffix(str.value)
    ensures str.None? ==> m == Default
  {
    NewFromString(str)
  }

  /** `Match(input)`: a null input is rejected first; then the variant decides. */
  function Match(m: ProjectItemMatcher, input: Option<string>, isMatch: RegexEngine): (r: Result<bool>)
    ensures input.None? <==> r == Err(ArgumentNull("input"))
    ensures m.ByRegex? && input.Some? ==> r == Ok(isMatch(m.regex, GetFileName(input.value)))
  {
    match input
    case None => Err(ArgumentNull("input"))
    case Some(path) =>
      match m
      case ByRegex(regex) => Ok(isMatch(regex, GetFileName(path)))
      case BySuffix(str) => Ok(EndsWithIgnoreCase(path, str))
      case Default => Err(NotImplemented)
  }

  /** Whatever the matcher, a null input throws `ArgumentNullException`, even
      for a default matcher that could not match anything. */
  lemma NullInputRejected(m: ProjectItemMatcher, isMatch: RegexEngine)
    ensures Match(m, None, isMatch) == Err(ArgumentNull("input"))
    ensures Match(m, None, isMatch) != Err(NotImplemented)
  {
  }

  /** A default matcher throws `NotImplementedException` for every non-null input. */
  lemma DefaultMatcherThrows(path: string, isMatch: RegexEngine)
    ensures Match(Default, Some(path), isMatch) == Err(NotImplemented)
    ensures Match(NewFromString(None), Some(path), isMatch) == Err(NotImplemented)
    ensures Match(NewFromRegex(None), Some(path), isMatch) == Err(NotImplemented)
  {
  }

  /** A suffix matcher answers whether the input's last |suffix| characters
      equal the suffix ignoring case. */
  lemma SuffixMatchIff(suffix: string, path: string, isMatch: RegexEngine)
    ensures Match(BySuffix(suffix), Some(path), isMatch)
            == Ok(|suffix| <= |path| && EqualsIgnoreCase(path[|path| - |suffix|..], suffix))
  {
    EndsWithIgnoreCaseIff(path, suffix);
  }

  /** Changing the letter case of the input or of the suffix does not change
      a suffix matcher's answer. */
  lemma SuffixMatchIgnoresCase(suffix: string, suffix': string, path: string, path': string, isMatch: RegexEngine)
    requires EqualsIgnoreCase(suffix, suffix') && EqualsIgnoreCase(path, path')
    ensures Match(BySuffix(suffix), Some(path), isMatch) == Match(BySuffix(suffix'), Some(path'), isMatch)
  {
    EndsWithIgnoreCaseRespectsCase(path, path', suffix, suffix');
  }

  /** In particular the upper-cased input matches exactly when the input does. */
  lemma SuffixMatchOfUpperCased(suffix: string, path: string, isMatch: RegexEngine)
    ensures Match(BySuffix(Upper(suffix)), Some(Upper(path)), isMatch) == Match(BySuffix(suffix), Some(path), isMatch)
  {
    UpperIdempotent(suffix);
    UpperIdempotent(path);
    SuffixMatchIgnoresCase(Upper(suffix), suffix, Upper(path), path, isMatch);
  }

  /** An empty suffix matches every non-null input. */
  lemma EmptySuffixMatchesAll(path: string, isMatch: RegexEngine)
    ensures Match(BySuffix(""), Some(path), isMatch) == Ok(true)
  {
  }

  /** A suffix longer than the input never matches. */
  lemma LongerSuffixNeverMatches(suffix: string, path: string, isMatch: RegexEngine)
    requires |suffix| > |path|
    ensures Match(BySuffix(suffix), Some(path), isMatch) == Ok(false)
  {
    SuffixMatchIff(suffix, path, isMatch);
  }

  /** A regex matcher sees only the file name: two paths with the same file
      name get the same answer. */
  lemma RegexMatchSeesFileNameOnly(regex: Regex, path: string, path': string, isMatch: RegexEngine)
    requires GetFileName(path) == GetFileName(path')
    ensures Match(ByRegex(regex), Some(path), isMatch) == Match(ByRegex(regex), Some(path'), isMatch)
  {
  }

  /** Putting a directory in front of a path does not change its file name. */
  lemma {:induction false} FileNameIgnoresDirectory(dir: string, sep: char, name: string)
    requires IsDirectorySeparator(sep)
    ensures GetFileName(dir + [sep] + name) == GetFileName(name)
    decreases |name|
  {
    var p := dir + [sep] + name;
    if name == [] {
      assert p[|p| - 1] == sep;
    } else {
      assert p[|p| - 1] == name[|name| - 1];
      assert p[..|p| - 1] == dir + [sep] + name[..|name| - 1];
      FileNameIgnoresDirectory(dir, sep, name[..|name| - 1]);
    }
  }

  /** Hence a regex matcher gives a path inside any directory the same answer
      as the bare relative path. */
  lemma RegexMatchIgnoresDirectory(regex: Regex, dir: string, sep: char, name: string, isMatch: RegexEngine)
    requires IsDirectorySeparator(sep)
    ensures Match(ByRegex(regex), Some(dir + [sep] + name), isMatch) == Match(ByRegex(regex), Some(name), isMatch)
  {
    FileNameIgnoresDirectory(dir, sep, name);
  }

  /** A name with no separator in it is its own file name. */
  lemma {:induction false} FileNameOfPlainName(name: string)
    requires forall k :: 0 <= k < |name| ==> !IsDirectorySeparator(name[k])
    ensures GetFileName(name) == name
    decreases |name|
  {
    if name != [] {
      var init := name[..|name| - 1];
      assert name == init + [name[|name| - 1]];
      FileNameOfPlainName(init);
    }
  }

  /** The matcher built from a regex asks the engine, for that same regex,
      about the last segment of the path: for a path in some directory, the
      name after the last separator. */
  lemma RegexMatchAsksEngine(regex: Regex, dir: string, sep: char, name: string, isMatch: RegexEngine)
    requires IsDirectorySeparator(sep)
    requires forall k :: 0 <= k < |name| ==> !IsDirectorySeparator(name[k])
    ensures Match(NewFromRegex(Some(regex)), Some(dir + [sep] + name), isMatch) == Ok(isMatch(regex, name))
    ensures Match(NewFromRegex(Some(regex)), Some(name), isMatch) == Ok(isMatch(regex, name))
  {
    FileNameIgnoresDirectory(dir, sep, name);
    FileNameOfPlainName(name);
  }
}
