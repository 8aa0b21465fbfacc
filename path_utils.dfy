/** Short display name of the file being transformed, for the `FileName::Custom` form
    the plugin always constructs. */
module PathUtils {
  import opened Wrappers
  import opened Strings

  function ParseUnixPath(path: string): (parts: seq<string>)
    ensures |parts| >= 1
    ensures Join(parts, '/') == path
    ensures forall i :: 0 <= i < |parts| ==> '/' !in parts[i]
  {
    JoinSplit(path, '/');
    Split(path, '/')
  }

  function ParseWindowsPath(path: string): (parts: seq<string>)
    ensures |parts| >= 1
    ensures Join(parts, '\\') == path
    ensures forall i :: 0 <= i < |parts| ==> '\\' !in parts[i]
  {
    JoinSplit(path, '\\');
    Split(path, '\\')
  }

  /** The separator a path is split on: a backslash as soon as one occurs. */
  function Separator(path: string): char {
    if '\\' in path then '\\' else '/'
  }

  /** `parse_path_with_detection`: the pieces between the detected separators. None of
      them holds a backslash or the detected separator. */
  function ParsePathWithDetection(path: string): (parts: seq<string>)
    ensures |parts| >= 1
    ensures Join(parts, Separator(path)) == path
    ensures forall i :: 0 <= i < |parts| ==> Separator(path) !in parts[i] && '\\' !in parts[i]
  {
    if '\\' in path then ParseWindowsPath(path)
    else
      SplitPiecesAvoid(path, '/', '\\');
      ParseUnixPath(path)
  }

  /** The last piece when there are several, the whole input otherwise. */
  function FilePart(custom: string): (f: string)
    ensures EndsWith(custom, f)
    ensures f == ParsePathWithDetection(custom)[|ParsePathWithDetection(custom)| - 1]
  {
    var parts := ParsePathWithDetection(custom);
    SplitLastIsSuffix(custom, Separator(custom));
    if |parts| > 1 then parts[|parts| - 1] else custom
  }

  /** The `FileName::Custom` branch of `extract_filename`. */
  function ExtractCustomFilename(custom: string): (r: Option<string>)
    ensures r.Some?
    ensures '\\' !in r.value
  {
    var parts := ParsePathWithDetection(custom);
    var filePart := FilePart(custom);
    if StartsWith(filePart, "index.") && |parts| >= 2 then
      Some(parts[|parts| - 2] + "/" + filePart)
    else
      Some(filePart)
  }

  /** An `index.*` file is prefixed with its parent directory and a forward slash. */
  lemma IndexFileGetsParent(custom: string)
    requires var parts := ParsePathWithDetection(custom);
      |parts| >= 2 && StartsWith(parts[|parts| - 1], "index.")
    ensures var parts := ParsePathWithDetection(custom);
      ExtractCustomFilename(custom) == Some(parts[|parts| - 2] + "/" + parts[|parts| - 1])
  {
  }

  /** Any other file, and a lone `index.*`, yields the last segment, which is a suffix
      of the input. */
  lemma OtherFileIsLastSegment(custom: string)
    requires var parts := ParsePathWithDetection(custom);
      |parts| < 2 || !StartsWith(parts[|parts| - 1], "index.")
    ensures var parts := ParsePathWithDetection(custom);
      ExtractCustomFilename(custom) == Some(parts[|parts| - 1])
    ensures EndsWith(custom, ExtractCustomFilename(custom).value)
  {
  }

  /** A path without any separator is its own display name. */
  lemma BareNameUnchanged(custom: string)
    requires '/' !in custom && '\\' !in custom
    ensures ExtractCustomFilename(custom) == Some(custom)
  {
    SplitWithoutSeparator(custom, '/');
  }

  /** The filename every fixture is transformed under. */
  lemma TestFileName()
    ensures ExtractCustomFilename("test.jsx") == Some("test.jsx")
  {
    BareNameUnchanged("test.jsx");
  }

  /** Pieces free of both separators, joined by either one, are split back into
      the same pieces. */
  lemma DetectedParts(parts: seq<string>, sep: char)
    requires |parts| >= 2 && (sep == '/' || sep == '\\')
    requires forall i :: 0 <= i < |parts| ==> '/' !in parts[i] && '\\' !in parts[i]
    ensures ParsePathWithDetection(Join(parts, sep)) == parts
  {
    var custom := Join(parts, sep);
    SplitJoin(parts, sep);
    if sep == '\\' {
      assert custom == parts[0] + [sep] + Join(parts[1..], sep);
      assert custom[|parts[0]|] == '\\';
    } else {
      JoinAvoids(parts, '/', '\\');
    }
  }

  /** Three separator-free pieces ending in an `index.*` file, joined by either
      separator, give the parent and the file joined by a forward slash. */
  lemma IndexPathOfThree(dir: string, parent: string, file: string, sep: char, custom: string)
    requires sep == '/' || sep == '\\'
    requires custom == Join([dir, parent, file], sep)
    requires '/' !in dir && '/' !in parent && '/' !in file
    requires '\\' !in dir && '\\' !in parent && '\\' !in file
    requires StartsWith(file, "index.")
    ensures ExtractCustomFilename(custom) == Some(parent + "/" + file)
  {
    var parts := [dir, parent, file];
    assert parts[0] == dir && parts[1] == parent && parts[2] == file;
    DetectedParts(parts, sep);
    IndexFileGetsParent(custom);
  }

  /** A lone `index.tsx` has no parent segment and is returned unchanged. */
  lemma LoneIndexExample()
    ensures ExtractCustomFilename("index.tsx") == Some("index.tsx")
  {
    BareNameUnchanged("index.tsx");
  }
}
