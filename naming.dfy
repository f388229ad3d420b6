/** The names and fixed texts the workflow derives from paths and descriptions. */
module Naming {
  import opened PyText

  const HeaderPrefix: string := "# Description: "
  const HeaderSuffix: string := "\n\n"
  const NoDescription: string := "No description available"

  /** The placeholder written into a freshly created file. */
  function PlaceholderHeader(description: string): (h: string)
    ensures |h| == |HeaderPrefix| + |description| + |HeaderSuffix|
  {
    HeaderPrefix + description + HeaderSuffix
  }

  /** Reads the description back out of a placeholder. */
  function HeaderDescription(h: string): string
    requires |h| >= |HeaderPrefix| + |HeaderSuffix|
  {
    h[|HeaderPrefix|..|h| - |HeaderSuffix|]
  }

  /** A placeholder records its description, between the fixed prefix and suffix. */
  lemma HeaderRoundTrip(description: string)
    ensures var h := PlaceholderHeader(description);
      h[..|HeaderPrefix|] == HeaderPrefix && EndsWith(h, HeaderSuffix) && HeaderDescription(h) == description
  {
    var h := PlaceholderHeader(description);
    assert h[|HeaderPrefix|..|h| - |HeaderSuffix|] == description;
  }

  /** The placeholder for `path`: its description, or the default text when it has none. */
  function PlaceholderFor(descs: map<string, string>, path: string): string {
    PlaceholderHeader(Get(descs, path, NoDescription))
  }

  predicate IsPy(path: string) {
    EndsWith(path, ".py")
  }

  /** `"test_" + os.path.basename(path)` */
  function TestFileName(path: string): (name: string)
    ensures |name| >= 5 && name[..5] == "test_" && '/' !in name[5..]
  {
    "test_" + Basename(path)
  }

  /** After the prefix comes the whole last component of `path`: all of `path`, or what
      follows its last `'/'`. */
  lemma TestFileNameIsBasename(path: string)
    ensures var b := TestFileName(path)[5..];
      && '/' !in b && EndsWith(path, b) && (b == path || path[|path| - |b| - 1] == '/')
  {
    assert TestFileName(path)[5..] == Basename(path);
  }

  /** The test for a Python file is itself a Python file, named after the source's basename:
      the whole last component of `path`, not some shorter tail of it. */
  lemma TestFileNameIsPy(path: string)
    requires IsPy(path)
    ensures IsPy(TestFileName(path))
    ensures var b := TestFileName(path)[5..];
      && EndsWith(path, b) && '/' !in b && (b == path || path[|path| - |b| - 1] == '/')
  {
    var n, b := |path|, Basename(path);
    assert path[n - 3..] == ".py";
    assert path[n - 3] == '.' && path[n - 2] == 'p' && path[n - 1] == 'y';
    assert b == path[n - |b|..];
    assert |b| >= 3;
    assert b[|b| - 3..] == path[n - 3..];
  }

  /** Where the test for `path` is written, relative to the project folder. */
  function TestPath(path: string): string {
    "tests/" + TestFileName(path)
  }

  /** `f"{folder}.zip"` */
  function ZipName(folder: string): (z: string)
    ensures |z| == |folder| + 4 && z[..|folder|] == folder && EndsWith(z, ".zip")
  {
    folder + ".zip"
  }
}
