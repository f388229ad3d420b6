/**
 * The dependency manifest written by `write_code_to_files`: every line of the
 * generated code that looks like an `import` or `from` statement names a top-level
 * module; the names that are not a planned path, not a described path and not `main`
 * are collected in a set and written to `requirements.txt`, sorted, one per line. The
 * comparison is verbatim, so with the plan `["utils.py"]` the name `utils` is collected.
 */
module Manifest {
  import opened Wrappers
  import opened Exceptions
  import opened PyText
  import opened StrOrder

  const ManifestPath: string := "requirements.txt"

  /** `token.split('.')[0]`: the top-level package of a dotted module path. */
  function ModuleName(token: string): (m: string)
    ensures '.' !in m
    ensures |m| <= |token| && m == token[..|m|]
    ensures |m| == |token| || token[|m|] == '.'
  {
    Split(token, '.')[0]
  }

  /**
   * What one scanned line contributes before filtering: nothing, a candidate name,
   * or the IndexError that `parts[0]` / `parts[1]` raises on a short token list.
   * Only lines containing `"import "` or `"from "` are looked at.
   */
  function Candidate(line: string): (r: Result<Option<string>, PyError>)
    ensures r.Err? ==> r.error == IndexError(line) && (Contains(line, "import ") || Contains(line, "from "))
    ensures r.Ok? && r.value.Some? ==> '.' !in r.value.value
  {
    if !(Contains(line, "import ") || Contains(line, "from ")) then Ok(None)
    else
      var parts := Tokens(line);
      if |parts| == 0 then Err(IndexError(line))
      else if parts[0] == "import" || parts[0] == "from" then
        if |parts| < 2 then Err(IndexError(line)) else Ok(Some(ModuleName(parts[1])))
      else Ok(None)
  }

  /** The filter at the `requirements.add` call: a non-empty name that is not a planned
      path, not `"main"` and not a described file. */
  predicate Admit(name: string, structure: seq<string>, descs: map<string, string>) {
    name != "" && name !in structure && name != "main" && name !in descs
  }

  /** `line` puts `name` into the requirement set. */
  predicate Admits(line: string, name: string, structure: seq<string>, descs: map<string, string>) {
    Candidate(line) == Ok(Some(name)) && Admit(name, structure, descs)
  }

  /** A line yields a candidate exactly when its first token is `import` or `from`, it has
      a second token, and it contains `"import "` or `"from "` somewhere; the candidate is
      the second token up to its first dot. A line containing one of those words raises
      IndexError exactly when it has no token, or when its only token is `import` or
      `from` (as `"import "` or `"from  "` have): `parts[0]` or `parts[1]` is missing. */
  lemma CandidateShape(line: string, name: string)
    ensures Candidate(line) == Ok(Some(name)) <==>
      && (Contains(line, "import ") || Contains(line, "from "))
      && |Tokens(line)| >= 2
      && (Tokens(line)[0] == "import" || Tokens(line)[0] == "from")
      && name == ModuleName(Tokens(line)[1])
    ensures Candidate(line).Err? <==>
      && (Contains(line, "import ") || Contains(line, "from "))
      && |Tokens(line)| < 2
      && (|Tokens(line)| == 0 || Tokens(line)[0] == "import" || Tokens(line)[0] == "from")
  {
  }

  /** The line `"import "` has the single token `import`, so `parts[1]` raises IndexError. */
  lemma BareImportRaises()
    ensures Candidate("import ") == Err(IndexError("import "))
  {
    var line := "import ";
    assert Contains(line, "import ") by {
      assert line[..7] == "import ";
    }
    assert Tokens(line) == ["import"] by {
      assert Spacing(["", " "], ["import"]) && Words(["import"]);
      TokensOfLayout(["", " "], ["import"]);
      assert Interleave(["", " "], ["import"]) == line;
    }
  }

  /** A line whose first token is neither `import` nor `from` yields nothing, wherever the
      words occur in it. */
  lemma OtherLinesYieldNothing(line: string)
    requires |Tokens(line)| > 0 && Tokens(line)[0] != "import" && Tokens(line)[0] != "from"
    ensures Candidate(line) == Ok(None)
  {
  }

  /** A relative import (`from . import x`, `from .m import x`) yields the empty name,
      which never enters the set. */
  lemma RelativeImportNotAdmitted(line: string, structure: seq<string>, descs: map<string, string>)
    requires Contains(line, "from ")
    requires |Tokens(line)| >= 2 && Tokens(line)[0] == "from" && Tokens(line)[1][0] == '.'
    ensures Candidate(line) == Ok(Some(""))
    ensures forall name :: !Admits(line, name, structure, descs)
  {
    var m := ModuleName(Tokens(line)[1]);
    assert |m| == 0;
  }

  /** A name that enters the set is a single word: no whitespace, no dot. */
  lemma CandidateIsWord(line: string, name: string)
    requires Candidate(line) == Ok(Some(name))
    ensures NoSpace(name) && '.' !in name && '\n' !in name
  {
    var t := Tokens(line)[1];
    assert NoSpace(t);
    assert forall i :: 0 <= i < |name| ==> name[i] == t[i];
    assert IsSpace('\n');
  }

  /** What `line` adds to the requirement set, or the error it raises. */
  function Contribution(line: string, structure: seq<string>, descs: map<string, string>)
    : Result<set<string>, PyError>
  {
    match Candidate(line)
    case Err(e) => Err(e)
    case Ok(None) => Ok({})
    case Ok(Some(name)) => Ok(if Admit(name, structure, descs) then {name} else {})
  }

  /** A line that does not raise adds exactly the name it admits, if any. */
  lemma ContributionMeaning(line: string, structure: seq<string>, descs: map<string, string>, name: string)
    ensures Admits(line, name, structure, descs) <==>
      Contribution(line, structure, descs).Ok? && name in Contribution(line, structure, descs).value
  {
  }

  /** The union of what `f` gives for each element, scanning from the first to the last,
      or the first error it meets. */
  function Gather<T>(xs: seq<T>, f: T -> Result<set<string>, PyError>): Result<set<string>, PyError>
    decreases |xs|
  {
    if |xs| == 0 then Ok({})
    else
      match Gather(xs[..|xs| - 1], f)
      case Err(e) => Err(e)
      case Ok(found) =>
        match f(xs[|xs| - 1])
        case Err(e) => Err(e)
        case Ok(more) => Ok(found + more)
  }

  /** A gather succeeds exactly when no element fails, and then it is the union of the parts. */
  lemma {:induction false} GatherMeaning<T>(xs: seq<T>, f: T -> Result<set<string>, PyError>)
    ensures Gather(xs, f).Ok? <==> forall k :: 0 <= k < |xs| ==> f(xs[k]).Ok?
    ensures Gather(xs, f).Ok? ==>
      forall y :: y in Gather(xs, f).value <==> exists k :: 0 <= k < |xs| && f(xs[k]).Ok? && y in f(xs[k]).value
    decreases |xs|
  {
    if |xs| > 0 {
      var init := xs[..|xs| - 1];
      GatherMeaning(init, f);
      assert forall k :: 0 <= k < |init| ==> init[k] == xs[k];
      if Gather(xs, f).Ok? {
        forall y
          ensures y in Gather(xs, f).value <==> exists k :: 0 <= k < |xs| && f(xs[k]).Ok? && y in f(xs[k]).value
        {
          if exists k :: 0 <= k < |xs| && f(xs[k]).Ok? && y in f(xs[k]).value {
            var k :| 0 <= k < |xs| && f(xs[k]).Ok? && y in f(xs[k]).value;
            if k < |init| {
              assert f(init[k]).Ok? && y in f(init[k]).value;
            }
          }
        }
      }
    }
  }

  /** Once a prefix fails, the whole gather fails with the same error. */
  lemma {:induction false} GatherErrorSticks<T>(xs: seq<T>, n: nat, f: T -> Result<set<string>, PyError>)
    requires n <= |xs| && Gather(xs[..n], f).Err?
    ensures Gather(xs, f) == Gather(xs[..n], f)
    decreases |xs| - n
  {
    if n < |xs| {
      assert xs[..|xs| - 1][..n] == xs[..n];
      GatherErrorSticks(xs[..|xs| - 1], n, f);
    } else {
      assert xs[..n] == xs;
    }
  }

  /** Whether a gather fails, and the union it builds, depend only on the set of elements,
      not on their order or repetition. */
  lemma GatherOrderFree<T>(a: seq<T>, b: seq<T>, f: T -> Result<set<string>, PyError>)
    requires forall x :: x in a <==> x in b
    ensures Gather(a, f).Ok? == Gather(b, f).Ok?
    ensures Gather(a, f).Ok? ==> Gather(a, f).value == Gather(b, f).value
  {
    GatherMeaning(a, f);
    GatherMeaning(b, f);
    forall i | 0 <= i < |a|
      ensures exists j :: 0 <= j < |b| && b[j] == a[i]
    {
      assert a[i] in b;
    }
    forall j | 0 <= j < |b|
      ensures exists i :: 0 <= i < |a| && a[i] == b[j]
    {
      assert b[j] in a;
    }
  }

  /** The requirement names found in the lines of one file, or the first IndexError raised. */
  function LinesReqs(lines: seq<string>, structure: seq<string>, descs: map<string, string>)
    : Result<set<string>, PyError>
  {
    Gather(lines, line => Contribution(line, structure, descs))
  }

  /** The scan of one file succeeds exactly when no line raises, and then a name is in the
      set exactly when some line admits it. */
  lemma LinesReqsMeaning(lines: seq<string>, structure: seq<string>, descs: map<string, string>)
    ensures LinesReqs(lines, structure, descs).Ok? <==>
      forall k :: 0 <= k < |lines| ==> Contribution(lines[k], structure, descs).Ok?
    ensures LinesReqs(lines, structure, descs).Ok? ==>
      forall name :: name in LinesReqs(lines, structure, descs).value <==>
        exists k :: 0 <= k < |lines| && Admits(lines[k], name, structure, descs)
  {
    var f := line => Contribution(line, structure, descs);
    GatherMeaning(lines, f);
    forall k, name | 0 <= k < |lines| {
      ContributionMeaning(lines[k], structure, descs, name);
    }
  }

  /** Scanning one more line adds what it contributes, unless it raises. */
  lemma LinesReqsStep(lines: seq<string>, i: nat, structure: seq<string>, descs: map<string, string>)
    requires i < |lines| && LinesReqs(lines[..i], structure, descs).Ok?
    ensures Contribution(lines[i], structure, descs).Err? ==>
      LinesReqs(lines, structure, descs) == Contribution(lines[i], structure, descs)
    ensures Contribution(lines[i], structure, descs).Ok? ==>
      LinesReqs(lines[..i + 1], structure, descs) ==
        Ok(LinesReqs(lines[..i], structure, descs).value + Contribution(lines[i], structure, descs).value)
  {
    assert lines[..i + 1][..i] == lines[..i];
    if Contribution(lines[i], structure, descs).Err? {
      GatherErrorSticks(lines, i + 1, line => Contribution(line, structure, descs));
    }
  }

  /**
   * The scan of one file's lines at `agentic.py` 149-159, adding to the set `acc` that
   * the earlier files built up.
   */
  method ScanLines(lines: seq<string>, structure: seq<string>, descs: map<string, string>, acc: set<string>)
    returns (r: Result<set<string>, PyError>)
    ensures LinesReqs(lines, structure, descs).Err? ==> r == Err(LinesReqs(lines, structure, descs).error)
    ensures LinesReqs(lines, structure, descs).Ok? ==> r == Ok(acc + LinesReqs(lines, structure, descs).value)
  {
    var requirements := acc;
    for i := 0 to |lines|
      invariant LinesReqs(lines[..i], structure, descs).Ok?
      invariant requirements == acc + LinesReqs(lines[..i], structure, descs).value
    {
      var line := lines[i];
      LinesReqsStep(lines, i, structure, descs);
      if Contains(line, "import ") || Contains(line, "from ") {
        var parts := Tokens(line);
        if |parts| == 0 || ((parts[0] == "import" || parts[0] == "from") && |parts| < 2) {
          return Err(IndexError(line));
        }
        var requirement: Option<string>;
        if parts[0] == "import" {
          requirement := Some(ModuleName(parts[1]));
        } else if parts[0] == "from" {
          requirement := Some(ModuleName(parts[1]));
        } else {
          requirement := None;
        }
        if requirement.Some? && Admit(requirement.value, structure, descs) {
          requirements := requirements + {requirement.value};
        }
      }
    }
    assert lines[..|lines|] == lines;
    r := Ok(requirements);
  }

  /** The requirement names found across the files' code, scanned file by file, each
      split into lines at `'\n'`, or the first IndexError raised. */
  function FilesReqs(codes: seq<string>, structure: seq<string>, descs: map<string, string>)
    : Result<set<string>, PyError>
  {
    Gather(codes, code => LinesReqs(Split(code, '\n'), structure, descs))
  }

  /** Scanning one more file adds its names to those found so far, unless it raises. */
  lemma FilesReqsStep(codes: seq<string>, i: nat, structure: seq<string>, descs: map<string, string>)
    requires i < |codes| && FilesReqs(codes[..i], structure, descs).Ok?
    ensures LinesReqs(Split(codes[i], '\n'), structure, descs).Err? ==>
      FilesReqs(codes, structure, descs) == LinesReqs(Split(codes[i], '\n'), structure, descs)
    ensures LinesReqs(Split(codes[i], '\n'), structure, descs).Ok? ==>
      FilesReqs(codes[..i + 1], structure, descs) ==
        Ok(FilesReqs(codes[..i], structure, descs).value + LinesReqs(Split(codes[i], '\n'), structure, descs).value)
  {
    assert codes[..i + 1][..i] == codes[..i];
    if LinesReqs(Split(codes[i], '\n'), structure, descs).Err? {
      GatherErrorSticks(codes, i + 1, code => LinesReqs(Split(code, '\n'), structure, descs));
    }
  }

  /** `code` has a line that admits `name`. */
  predicate FileAdmits(code: string, name: string, structure: seq<string>, descs: map<string, string>) {
    exists k :: 0 <= k < |Split(code, '\n')| && Admits(Split(code, '\n')[k], name, structure, descs)
  }

  /** Across files: the scan succeeds exactly when no file raises, and then the set holds
      exactly the names some line of some file admits. */
  lemma FilesReqsMeaning(codes: seq<string>, structure: seq<string>, descs: map<string, string>)
    ensures FilesReqs(codes, structure, descs).Ok? <==>
      forall i :: 0 <= i < |codes| ==> LinesReqs(Split(codes[i], '\n'), structure, descs).Ok?
    ensures FilesReqs(codes, structure, descs).Ok? ==>
      forall name :: name in FilesReqs(codes, structure, descs).value <==>
        exists i :: 0 <= i < |codes| && FileAdmits(codes[i], name, structure, descs)
  {
    var f := code => LinesReqs(Split(code, '\n'), structure, descs);
    GatherMeaning(codes, f);
    forall i | 0 <= i < |codes| {
      LinesReqsMeaning(Split(codes[i], '\n'), structure, descs);
    }
  }

  /** Whether the scan raises, and the set it builds, depend only on which code texts
      were scanned, not on their order or repetition. */
  lemma FilesReqsOrderFree(a: seq<string>, b: seq<string>, structure: seq<string>, descs: map<string, string>)
    requires forall code :: code in a <==> code in b
    ensures FilesReqs(a, structure, descs).Ok? == FilesReqs(b, structure, descs).Ok?
    ensures FilesReqs(a, structure, descs).Ok? ==>
      FilesReqs(a, structure, descs).value == FilesReqs(b, structure, descs).value
  {
    GatherOrderFree(a, b, code => LinesReqs(Split(code, '\n'), structure, descs));
  }

  /** Every name in a successful scan is a single word, so it fits on one manifest line. */
  lemma FilesReqsAreWords(codes: seq<string>, structure: seq<string>, descs: map<string, string>)
    requires FilesReqs(codes, structure, descs).Ok?
    ensures forall name :: name in FilesReqs(codes, structure, descs).value ==> NoSpace(name) && '\n' !in name
  {
    FilesReqsMeaning(codes, structure, descs);
    forall name | name in FilesReqs(codes, structure, descs).value
      ensures NoSpace(name) && '\n' !in name
    {
      var i :| 0 <= i < |codes| && FileAdmits(codes[i], name, structure, descs);
      var k :| 0 <= k < |Split(codes[i], '\n')| && Admits(Split(codes[i], '\n')[k], name, structure, descs);
      CandidateIsWord(Split(codes[i], '\n')[k], name);
    }
  }

  /** The text written to `requirements.txt`: each name followed by a newline. */
  function ManifestBody(names: seq<string>): (body: string)
    ensures body == [] <==> names == []
    ensures body != [] ==> body[|body| - 1] == '\n'
    decreases |names|
  {
    if |names| == 0 then "" else names[0] + "\n" + ManifestBody(names[1..])
  }

  lemma {:induction false} ManifestBodyAppend(names: seq<string>, name: string)
    ensures ManifestBody(names + [name]) == ManifestBody(names) + name + "\n"
    decreases |names|
  {
    if |names| > 0 {
      ManifestBodyAppend(names[1..], name);
      assert (names + [name])[1..] == names[1..] + [name];
    }
  }

  /** Reading a manifest back: its lines, without the empty piece after the final newline. */
  function ParseManifest(body: string): (names: seq<string>) {
    var lines := Split(body, '\n');
    lines[..|lines| - 1]
  }

  lemma {:induction false} ManifestBodyLines(names: seq<string>)
    requires forall k :: 0 <= k < |names| ==> '\n' !in names[k]
    ensures Split(ManifestBody(names), '\n') == names + [""]
    decreases |names|
  {
    if |names| > 0 {
      var rest := ManifestBody(names[1..]);
      ManifestBodyLines(names[1..]);
      assert ManifestBody(names) == names[0] + ['\n'] + rest;
      SplitAfter(names[0], '\n', rest);
      assert names == [names[0]] + names[1..];
    }
  }

  /** The manifest lists exactly the given names, one per line, in the given order. */
  lemma ManifestRoundTrip(names: seq<string>)
    requires forall k :: 0 <= k < |names| ==> '\n' !in names[k]
    ensures ParseManifest(ManifestBody(names)) == names
  {
    ManifestBodyLines(names);
  }

  /** `sorted(requirements)` written one name per line (`agentic.py` 161-164). */
  method RenderManifest(requirements: set<string>) returns (body: string)
    ensures body == ManifestBody(SortedOf(requirements))
  {
    var names := SortedNames(requirements);
    body := "";
    for i := 0 to |names|
      invariant body == ManifestBody(names[..i])
    {
      ManifestBodyAppend(names[..i], names[i]);
      assert names[..i + 1] == names[..i] + [names[i]];
      body := body + names[i] + "\n";
    }
    assert names[..|names|] == names;
  }

  /** The manifest of a successful scan reads back as the found names in ascending order,
      each once, whatever order the files were scanned in. */
  lemma ManifestOfScan(codes: seq<string>, structure: seq<string>, descs: map<string, string>)
    requires FilesReqs(codes, structure, descs).Ok?
    ensures var names := ParseManifest(ManifestBody(SortedOf(FilesReqs(codes, structure, descs).value)));
      StrictlySorted(names) && forall name :: name in names <==> name in FilesReqs(codes, structure, descs).value
  {
    var found := FilesReqs(codes, structure, descs).value;
    FilesReqsAreWords(codes, structure, descs);
    var sorted := SortedOf(found);
    assert forall k :: 0 <= k < |sorted| ==> sorted[k] in found;
    ManifestRoundTrip(sorted);
  }
}
