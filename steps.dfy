/**
 * What each workflow node does to the project folder, stated as functions of the
 * folder's contents (a map from path, relative to the project folder, to text) and of
 * the injected model answers. The node methods in `Workflow` are proved against these.
 */
module Steps {
  import opened Wrappers
  import opened Exceptions
  import opened PyText
  import opened Fences
  import opened Manifest
  import opened Naming

  /* ---------- create_files_tool ---------- */

  /** The folder entries written by `create_files_tool`: each planned path, in order,
      receives its placeholder (a later duplicate path overwrites an earlier one). */
  function Placeholders(paths: seq<string>, descs: map<string, string>): map<string, string>
    decreases |paths|
  {
    if |paths| == 0 then map[]
    else
      var p := paths[|paths| - 1];
      Placeholders(paths[..|paths| - 1], descs)[p := PlaceholderFor(descs, p)]
  }

  /** Exactly the planned paths are written, and each placeholder records the path's
      description, or the default text when the path has none. */
  lemma {:induction false} PlaceholdersMeaning(paths: seq<string>, descs: map<string, string>)
    ensures forall p :: p in Placeholders(paths, descs) <==> p in paths
    ensures forall p :: p in Placeholders(paths, descs) ==>
      Placeholders(paths, descs)[p] == PlaceholderFor(descs, p)
      && HeaderDescription(Placeholders(paths, descs)[p]) == Get(descs, p, NoDescription)
    decreases |paths|
  {
    if |paths| > 0 {
      var init := paths[..|paths| - 1];
      PlaceholdersMeaning(init, descs);
      assert paths == init + [paths[|paths| - 1]];
      forall p | p in Placeholders(paths, descs) {
        HeaderRoundTrip(Get(descs, p, NoDescription));
      }
    }
  }

  /** Writing the next placeholder extends the prefix already written. */
  lemma PlaceholdersStep(base: map<string, string>, paths: seq<string>, i: nat, descs: map<string, string>)
    requires i < |paths|
    ensures (base + Placeholders(paths[..i], descs))[paths[i] := PlaceholderFor(descs, paths[i])]
      == base + Placeholders(paths[..i + 1], descs)
  {
    assert paths[..i + 1][..i] == paths[..i];
    MergeThenUpdate(base, Placeholders(paths[..i], descs), paths[i], PlaceholderFor(descs, paths[i]));
  }

  /** Creating the files twice leaves the folder as creating them once. */
  lemma PlaceholdersIdempotent(files: map<string, string>, paths: seq<string>, descs: map<string, string>)
    ensures files + Placeholders(paths, descs) + Placeholders(paths, descs) == files + Placeholders(paths, descs)
  {
  }

  /* ---------- write_code_to_files ---------- */

  /** The stripped answer of the model for `path`, asked with the path's description
      (empty when it has none). */
  function GeneratedCode(gen: (string, string) -> string, descs: map<string, string>, path: string): string {
    Strip(gen(Get(descs, path, ""), path))
  }

  /** The generated code of every planned path, in plan order. */
  function Codes(paths: seq<string>, descs: map<string, string>, gen: (string, string) -> string): (codes: seq<string>)
    ensures |codes| == |paths|
    ensures forall k :: 0 <= k < |paths| ==> codes[k] == GeneratedCode(gen, descs, paths[k])
  {
    seq(|paths|, k requires 0 <= k < |paths| => GeneratedCode(gen, descs, paths[k]))
  }

  /** The source files written by `write_code_to_files`: each planned path, in order,
      receives its generated code with the fenced lines removed. */
  function Written(paths: seq<string>, descs: map<string, string>, gen: (string, string) -> string): map<string, string>
    decreases |paths|
  {
    if |paths| == 0 then map[]
    else
      var p := paths[|paths| - 1];
      Written(paths[..|paths| - 1], descs, gen)[p := StripFences(GeneratedCode(gen, descs, p))]
  }

  /** Writing the next planned file extends the prefix already written. */
  lemma WrittenStep(base: map<string, string>, paths: seq<string>, i: nat, descs: map<string, string>,
                    gen: (string, string) -> string)
    requires i < |paths|
    ensures (base + Written(paths[..i], descs, gen))[paths[i] := StripFences(GeneratedCode(gen, descs, paths[i]))]
      == base + Written(paths[..i + 1], descs, gen)
  {
    assert paths[..i + 1][..i] == paths[..i];
    MergeThenUpdate(base, Written(paths[..i], descs, gen), paths[i], StripFences(GeneratedCode(gen, descs, paths[i])));
  }

  /** One file of `write_code_to_files` in terms of the whole run: a file whose scan raises
      ends the run with that error; otherwise the requirements found so far grow by its own. */
  lemma CodeReqsStep(paths: seq<string>, i: nat, descs: map<string, string>, gen: (string, string) -> string)
    requires i < |paths| && FilesReqs(Codes(paths, descs, gen)[..i], paths, descs).Ok?
    ensures var lines := LinesReqs(Split(GeneratedCode(gen, descs, paths[i]), '\n'), paths, descs);
      && (lines.Err? ==> CodeReqs(paths, descs, gen) == lines)
      && (lines.Ok? ==>
            FilesReqs(Codes(paths, descs, gen)[..i + 1], paths, descs) ==
            Ok(FilesReqs(Codes(paths, descs, gen)[..i], paths, descs).value + lines.value))
  {
    FilesReqsStep(Codes(paths, descs, gen), i, paths, descs);
  }

  /** Updating a merge is merging the updated right operand. */
  lemma MergeThenUpdate<K, V>(m: map<K, V>, n: map<K, V>, k: K, v: V)
    ensures (m + n)[k := v] == m + n[k := v]
  {
    assert ((m + n)[k := v]).Keys == (m + n[k := v]).Keys;
  }

  /** Exactly the planned paths are written, each with its own generated code minus the
      fenced lines, so no written file has a fenced line. */
  lemma {:induction false} WrittenMeaning(paths: seq<string>, descs: map<string, string>, gen: (string, string) -> string)
    ensures forall p :: p in Written(paths, descs, gen) <==> p in paths
    ensures forall p :: p in Written(paths, descs, gen) ==>
      Written(paths, descs, gen)[p] == StripFences(GeneratedCode(gen, descs, p))
      && FenceFree(Written(paths, descs, gen)[p])
    decreases |paths|
  {
    if |paths| > 0 {
      var init := paths[..|paths| - 1];
      WrittenMeaning(init, descs, gen);
      assert paths == init + [paths[|paths| - 1]];
      forall p | p in Written(paths, descs, gen) {
        StripFencesFenceFree(GeneratedCode(gen, descs, p));
      }
    }
  }

  /** The requirement set of a `write_code_to_files` run over `paths`. */
  function CodeReqs(paths: seq<string>, descs: map<string, string>, gen: (string, string) -> string)
    : Result<set<string>, PyError>
  {
    FilesReqs(Codes(paths, descs, gen), paths, descs)
  }

  /** A name is written to the manifest exactly when some generated file has a line
      that imports it and it is not one of the project's own names. */
  lemma CodeReqsMeaning(paths: seq<string>, descs: map<string, string>, gen: (string, string) -> string, name: string)
    requires CodeReqs(paths, descs, gen).Ok?
    ensures name in CodeReqs(paths, descs, gen).value <==>
      exists k :: 0 <= k < |paths| && FileAdmits(GeneratedCode(gen, descs, paths[k]), name, paths, descs)
    ensures name in CodeReqs(paths, descs, gen).value ==> name !in paths && name !in descs && name != "main"
  {
    var codes := Codes(paths, descs, gen);
    FilesReqsMeaning(codes, paths, descs);
    if name in CodeReqs(paths, descs, gen).value {
      var i :| 0 <= i < |codes| && FileAdmits(codes[i], name, paths, descs);
      var lines := Split(codes[i], '\n');
      var k :| 0 <= k < |lines| && Admits(lines[k], name, paths, descs);
    }
  }

  /* ---------- reflect_on_code ---------- */

  /** The first of `paths` that is not in the folder, if any. */
  function FirstMissing(paths: seq<string>, files: map<string, string>): (m: Option<string>)
    ensures m.None? <==> forall k :: 0 <= k < |paths| ==> paths[k] in files
    ensures m.Some? ==> m.value in paths && m.value !in files
    decreases |paths|
  {
    if |paths| == 0 then None
    else if paths[0] !in files then Some(paths[0])
    else
      var m := FirstMissing(paths[1..], files);
      assert forall k :: 0 < k < |paths| ==> paths[k] == paths[1..][k - 1];
      m
  }

  /** A missing path reported is the first one: every planned path before it is present. */
  lemma {:induction false} FirstMissingIsFirst(paths: seq<string>, files: map<string, string>)
    requires FirstMissing(paths, files).Some?
    ensures exists k :: (0 <= k < |paths| && paths[k] == FirstMissing(paths, files).value
                         && forall j :: 0 <= j < k ==> paths[j] in files)
    decreases |paths|
  {
    if paths[0] in files {
      var rest := paths[1..];
      FirstMissingIsFirst(rest, files);
      var k :| 0 <= k < |rest| && rest[k] == FirstMissing(rest, files).value
        && forall j :: 0 <= j < k ==> rest[j] in files;
      assert forall j :: 0 < j <= k ==> paths[j] == rest[j - 1];
      assert paths[k + 1] == FirstMissing(paths, files).value;
    } else {
      assert paths[0] == FirstMissing(paths, files).value;
    }
  }

  /** The first missing path is the one at `i` when every path before it is present. */
  lemma {:induction false} FirstMissingAt(paths: seq<string>, files: map<string, string>, i: nat)
    requires i < |paths| && paths[i] !in files
    requires forall k :: 0 <= k < i ==> paths[k] in files
    ensures FirstMissing(paths, files) == Some(paths[i])
    decreases i
  {
    if i > 0 {
      assert paths[0] in files;
      assert forall k :: 0 <= k < i - 1 ==> paths[1..][k] == paths[k + 1];
      FirstMissingAt(paths[1..], files, i - 1);
    }
  }

  /** The review of every planned file: the model's stripped answer about its code, entered
      in plan order. */
  function Reviews(paths: seq<string>, files: map<string, string>, review: string -> string): map<string, string>
    requires forall k :: 0 <= k < |paths| ==> paths[k] in files
    decreases |paths|
  {
    if |paths| == 0 then map[]
    else
      var p := paths[|paths| - 1];
      Reviews(paths[..|paths| - 1], files, review)[p := Strip(review(files[p]))]
  }

  /** Reviewing the next planned file enters its review into the reviews so far. */
  lemma ReviewsStep(paths: seq<string>, i: nat, files: map<string, string>, review: string -> string)
    requires i < |paths| && forall k :: 0 <= k <= i ==> paths[k] in files
    ensures Reviews(paths[..i + 1], files, review) ==
      Reviews(paths[..i], files, review)[paths[i] := Strip(review(files[paths[i]]))]
  {
    assert paths[..i + 1][..i] == paths[..i];
  }

  /** Every planned file gets exactly one review, of its own code. */
  lemma {:induction false} ReviewsMeaning(paths: seq<string>, files: map<string, string>, review: string -> string)
    requires forall k :: 0 <= k < |paths| ==> paths[k] in files
    ensures forall p :: p in Reviews(paths, files, review) <==> p in paths
    ensures forall p :: p in Reviews(paths, files, review) ==> Reviews(paths, files, review)[p] == Strip(review(files[p]))
    decreases |paths|
  {
    if |paths| > 0 {
      var init := paths[..|paths| - 1];
      ReviewsMeaning(init, files, review);
      assert paths == init + [paths[|paths| - 1]];
    }
  }

  /* ---------- improve_code ---------- */

  /** `improve_code` goes on to the rewrite only when the human answers "yes", in any
      case and surrounded by any whitespace. */
  predicate Approved(answer: string) {
    Lower(Strip(answer)) == "yes"
  }

  /** The question is asked when the incremented counter is at least 0. */
  predicate Gate(count: int) {
    count >= 0
  }

  /** With the counter absent or never set below 0, the gate always holds, so the human
      is asked on every visit. */
  lemma GateAlwaysAsks(previous: Option<int>)
    requires previous.None? || previous.value >= -1
    ensures Gate(previous.GetOr(0) + 1)
  {
  }

  /** Only the letters y, e, s, in any case, with any surrounding whitespace approve. */
  lemma ApprovedMeaning(answer: string)
    ensures Approved(answer) <==>
      |Strip(answer)| == 3 && Strip(answer)[0] in "yY" && Strip(answer)[1] in "eE" && Strip(answer)[2] in "sS"
  {
    var s := Strip(answer);
    if |s| == 3 {
      assert Lower(s) == [LowerChar(s[0]), LowerChar(s[1]), LowerChar(s[2])];
    }
  }

  /** The rewritten text of one file: the model's stripped answer, with fenced lines removed. */
  function Rewrite(existing: string, feedback: string, path: string,
                   improve: (string, string, string) -> string): string
  {
    StripFences(Strip(improve(existing, feedback, path)))
  }

  /** The text of `q` once the paths `done` are processed: rewritten when `q` is one of
      them and has feedback, as it was otherwise. */
  function AfterRewrites(files: map<string, string>, fb: map<string, string>, done: set<string>,
                         improve: (string, string, string) -> string, q: string): string
    requires q in files
  {
    if q in done && q in fb then Rewrite(files[q], fb[q], q, improve) else files[q]
  }

  /** `files'` is the folder `files` once the paths `done` of the feedback are processed. */
  ghost predicate RewrittenFrom(files: map<string, string>, files': map<string, string>, fb: map<string, string>,
                          done: set<string>, improve: (string, string, string) -> string)
  {
    (forall q :: q in files' <==> q in files)
    && forall q :: q in files ==> files'[q] == AfterRewrites(files, fb, done, improve, q)
  }

  /** Rewriting one more path with feedback, from its text as it was, extends the processed set. */
  lemma RewriteStep(files: map<string, string>, cur: map<string, string>, fb: map<string, string>,
                    done: set<string>, improve: (string, string, string) -> string, path: string)
    requires RewrittenFrom(files, cur, fb, done, improve)
    requires path in fb && path !in done && path in cur
    ensures cur[path] == files[path]
    ensures RewrittenFrom(files, cur[path := Rewrite(cur[path], fb[path], path, improve)], fb, done + {path}, improve)
  {
    var next := cur[path := Rewrite(cur[path], fb[path], path, improve)];
    assert cur[path] == AfterRewrites(files, fb, done, improve, path);
    forall q | q in files
      ensures next[q] == AfterRewrites(files, fb, done + {path}, improve, q)
    {
      if q != path {
        assert next[q] == cur[q] == AfterRewrites(files, fb, done, improve, q);
      }
    }
  }

  /** Once every path with feedback is processed, no file was added, every file without
      feedback is as it was and no rewritten file has a fenced line. */
  lemma ImprovedEffect(files: map<string, string>, files': map<string, string>, fb: map<string, string>,
                       improve: (string, string, string) -> string)
    requires RewrittenFrom(files, files', fb, fb.Keys, improve)
    ensures files'.Keys == files.Keys
    ensures forall p :: p in files && p !in fb ==> files'[p] == files[p]
    ensures forall p :: p in files && p in fb ==> FenceFree(files'[p])
  {
    forall p | p in files && p in fb
      ensures FenceFree(files'[p])
    {
      StripFencesFenceFree(Strip(improve(files[p], fb[p], p)));
    }
  }

  /* ---------- generate_tests ---------- */

  /** The text of a generated test: the stripped answer, its `splitlines()` minus the
      fenced lines, joined with newlines. */
  function TestText(answer: string): string {
    StripFencesSplitLines(Strip(answer))
  }

  /** A `generate_tests` pass: the folder it leaves and the exception that stopped it, if any. */
  datatype Progress = Progress(files: map<string, string>, failure: Option<PyError>)

  /** The pass over `paths` from the folder `files`: a path not ending in `.py` is skipped,
      a missing Python file raises FileNotFoundError, any other gets its test written
      under `tests/`, read by later paths as the folder now holds it. */
  function TestsPass(paths: seq<string>, files: map<string, string>, writeTest: string -> string): Progress
    decreases |paths|
  {
    if |paths| == 0 then Progress(files, None)
    else
      var p := paths[0];
      if !IsPy(p) then TestsPass(paths[1..], files, writeTest)
      else if p !in files then Progress(files, Some(FileNotFoundError(p)))
      else TestsPass(paths[1..], files[TestPath(p) := TestText(writeTest(files[p]))], writeTest)
  }

  /** `files'[q]` differs from `files[q]`, or is new. */
  predicate Changed(files: map<string, string>, files': map<string, string>, q: string) {
    q in files' && (q !in files || files'[q] != files[q])
  }

  /** The pass removes no file, and every file it adds or changes is the test of a Python
      path of the plan and has no fenced line. */
  lemma {:induction false} TestsTouchOnlyTests(paths: seq<string>, files: map<string, string>, writeTest: string -> string)
    ensures files.Keys <= TestsPass(paths, files, writeTest).files.Keys
    ensures forall q :: Changed(files, TestsPass(paths, files, writeTest).files, q) ==>
      FenceFree(TestsPass(paths, files, writeTest).files[q])
      && exists k :: 0 <= k < |paths| && IsPy(paths[k]) && q == TestPath(paths[k])
    decreases |paths|
  {
    if |paths| > 0 {
      var p := paths[0];
      assert forall k :: 0 < k < |paths| ==> paths[k] == paths[1..][k - 1];
      if IsPy(p) && p in files {
        var next := files[TestPath(p) := TestText(writeTest(files[p]))];
        TestsTouchOnlyTests(paths[1..], next, writeTest);
        StripFencesSplitLinesFenceFree(Strip(writeTest(files[p])));
        var r := TestsPass(paths, files, writeTest).files;
        forall q | Changed(files, r, q)
          ensures FenceFree(r[q]) && exists k :: 0 <= k < |paths| && IsPy(paths[k]) && q == TestPath(paths[k])
        {
          if !Changed(next, r, q) {
            assert q == TestPath(paths[0]);
          }
        }
      } else if !IsPy(p) {
        TestsTouchOnlyTests(paths[1..], files, writeTest);
      }
    }
  }

  /** When the pass completes, every Python path of the plan has a test in the folder. */
  lemma {:induction false} TestsCoverPython(paths: seq<string>, files: map<string, string>, writeTest: string -> string)
    requires TestsPass(paths, files, writeTest).failure.None?
    ensures forall k :: 0 <= k < |paths| && IsPy(paths[k]) ==>
      TestPath(paths[k]) in TestsPass(paths, files, writeTest).files
    decreases |paths|
  {
    if |paths| > 0 {
      var p := paths[0];
      assert forall k :: 0 < k < |paths| ==> paths[k] == paths[1..][k - 1];
      if IsPy(p) {
        var next := files[TestPath(p) := TestText(writeTest(files[p]))];
        TestsCoverPython(paths[1..], next, writeTest);
        TestsTouchOnlyTests(paths[1..], next, writeTest);
      } else {
        TestsCoverPython(paths[1..], files, writeTest);
      }
    }
  }

  /** A folder holding every Python path of the plan never makes the pass fail. */
  lemma {:induction false} TestsSucceedOnCompleteFolder(paths: seq<string>, files: map<string, string>, writeTest: string -> string)
    requires forall k :: 0 <= k < |paths| && IsPy(paths[k]) ==> paths[k] in files
    ensures TestsPass(paths, files, writeTest).failure.None?
    decreases |paths|
  {
    if |paths| > 0 {
      assert forall k :: 0 < k < |paths| ==> paths[k] == paths[1..][k - 1];
      var p := paths[0];
      if IsPy(p) {
        TestsSucceedOnCompleteFolder(paths[1..], files[TestPath(p) := TestText(writeTest(files[p]))], writeTest);
      } else {
        TestsSucceedOnCompleteFolder(paths[1..], files, writeTest);
      }
    }
  }

  /** A path that is not the test of any Python path of the plan keeps its presence and its
      text through the pass. */
  lemma {:induction false} TestsKeepOthers(paths: seq<string>, files: map<string, string>, writeTest: string -> string, q: string)
    requires forall p :: p in paths && IsPy(p) ==> TestPath(p) != q
    ensures q in TestsPass(paths, files, writeTest).files <==> q in files
    ensures q in files ==> TestsPass(paths, files, writeTest).files[q] == files[q]
    decreases |paths|
  {
    if |paths| > 0 {
      var p := paths[0];
      assert forall r :: r in paths[1..] ==> r in paths;
      if IsPy(p) && p in files {
        TestsKeepOthers(paths[1..], files[TestPath(p) := TestText(writeTest(files[p]))], writeTest, q);
      } else if !IsPy(p) {
        TestsKeepOthers(paths[1..], files, writeTest, q);
      }
    }
  }

  /** One step of the pass from a folder where the first path, if Python, is present. */
  lemma TestsStep(paths: seq<string>, files: map<string, string>, writeTest: string -> string, next: map<string, string>)
    requires |paths| > 0 && (IsPy(paths[0]) ==> paths[0] in files)
    requires next == if IsPy(paths[0]) then files[TestPath(paths[0]) := TestText(writeTest(files[paths[0]]))] else files
    ensures TestsPass(paths, files, writeTest) == TestsPass(paths[1..], next, writeTest)
  {
  }

  /** Python path `paths[k]` is the last one of the plan whose test path is `TestPath(paths[k])`. */
  predicate LastWithTest(paths: seq<string>, k: nat) {
    && k < |paths| && IsPy(paths[k])
    && forall j :: k < j < |paths| && IsPy(paths[j]) ==> TestPath(paths[j]) != TestPath(paths[k])
  }

  /** The folder holds every Python path of the plan, and no planned path is the test of a
      Python path of the plan, so writing tests never replaces a source the pass reads. */
  predicate SourcesApart(paths: seq<string>, files: map<string, string>) {
    forall q :: q in paths && IsPy(q) ==> q in files && TestPath(q) !in paths
  }

  /** Both conditions survive the first step of the pass. */
  lemma SourcesApartStep(paths: seq<string>, files: map<string, string>, next: map<string, string>)
    requires |paths| > 0 && SourcesApart(paths, files) && files.Keys <= next.Keys
    ensures SourcesApart(paths[1..], next)
  {
    assert forall q :: q in paths[1..] ==> q in paths;
  }

  /** The last writer of a test path stays the last writer in the rest of the plan. */
  lemma LastWithTestStep(paths: seq<string>, k: nat)
    requires 0 < k && LastWithTest(paths, k)
    ensures LastWithTest(paths[1..], k - 1)
  {
    var rest := paths[1..];
    forall j | k - 1 < j < |rest| && IsPy(rest[j])
      ensures TestPath(rest[j]) != TestPath(rest[k - 1])
    {
      assert rest[j] == paths[j + 1];
    }
  }

  /** The last writer of a test path shares it with no later Python path. */
  lemma LastWithTestFirst(paths: seq<string>)
    requires LastWithTest(paths, 0)
    ensures forall r :: r in paths[1..] && IsPy(r) ==> TestPath(r) != TestPath(paths[0])
  {
    forall r | r in paths[1..] && IsPy(r)
      ensures TestPath(r) != TestPath(paths[0])
    {
      var j :| 0 <= j < |paths[1..]| && paths[1..][j] == r;
      assert paths[j + 1] == r;
    }
  }

  /** What a written test holds: when the sources stay apart from the tests, the test of
      `paths[k]` holds the generated test of that file's text, unless a later Python path
      shares its basename and overwrites it. */
  lemma {:induction false} TestContent(paths: seq<string>, files: map<string, string>, writeTest: string -> string, k: nat)
    requires SourcesApart(paths, files) && LastWithTest(paths, k)
    ensures TestPath(paths[k]) in TestsPass(paths, files, writeTest).files
    ensures TestsPass(paths, files, writeTest).files[TestPath(paths[k])] == TestText(writeTest(files[paths[k]]))
    decreases |paths|
  {
    var p, rest := paths[0], paths[1..];
    var next := if IsPy(p) then files[TestPath(p) := TestText(writeTest(files[p]))] else files;
    TestsStep(paths, files, writeTest, next);
    if k == 0 {
      LastWithTestFirst(paths);
      TestsKeepOthers(rest, next, writeTest, TestPath(p));
    } else {
      SourcesApartStep(paths, files, next);
      assert paths[k] == rest[k - 1] && paths[k] in files;
      assert next[paths[k]] == files[paths[k]] by {
        assert paths[k] != TestPath(p) || !IsPy(p);
      }
      LastWithTestStep(paths, k);
      TestContent(rest, next, writeTest, k - 1);
    }
  }
}
