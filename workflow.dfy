/**
 * The workflow state (`FileStructureState`) and the nodes of the pipeline that update
 * it and the generated project folder in place. Calls to the language model, the
 * process runner and the human reviewer are injected as functions.
 */
module Workflow {
  import opened Wrappers
  import opened Exceptions
  import opened PyText
  import opened StrOrder
  import opened Fences
  import opened Manifest
  import opened Naming
  import opened Execution
  import opened Steps

  /** The generated project folder: the text of each file, by path relative to the folder. */
  class Folder {
    var files: map<string, string>

    /** A folder that does not exist yet, or is empty. */
    constructor ()
      ensures files == map[]
    {
      files := map[];
    }
  }

  /** One pass of the loop of `write_code_to_files`: writes the generated code for `path`
      without its fenced lines, then adds the requirement names its lines admit to `acc`. */
  method WriteSource(folder: Folder, path: string, structure: seq<string>, descs: map<string, string>,
                     gen: (string, string) -> string, acc: set<string>)
    returns (scanned: Result<set<string>, PyError>)
    modifies folder
    ensures folder.files == old(folder.files)[path := StripFences(GeneratedCode(gen, descs, path))]
    ensures var lines := LinesReqs(Split(GeneratedCode(gen, descs, path), '\n'), structure, descs);
      scanned == (if lines.Ok? then Ok(acc + lines.value) else lines)
  {
    var code := Strip(gen(Get(descs, path, ""), path));
    var codeLines := Split(code, '\n');
    var filtered := Join(KeepUnfenced(codeLines), "\n");
    folder.files := folder.files[path := filtered];
    scanned := ScanLines(codeLines, structure, descs, acc);
  }

  /** What the architect's answer yields once its JSON payload is extracted. */
  datatype Plan = Plan(files: seq<string>, descriptions: map<string, string>)

  /** `FileStructureState`; keys that may be missing from the dictionary are `Option`s. */
  class State {
    var srsText: string
    var fileStructure: seq<string>
    var fileDescriptions: map<string, string>
    var folderPath: string
    var errorLog: Option<string>
    var retryCount: int
    var codeFeedback: Option<map<string, string>>
    var improvementCount: Option<int>
    var zipPath: Option<string>

    /** `initial_state`: the SRS text and the folder path, nothing planned yet. */
    constructor (srs: string, folder: string)
      ensures srsText == srs && folderPath == folder
      ensures fileStructure == [] && fileDescriptions == map[]
      ensures errorLog == None && retryCount == 0 && codeFeedback == None
      ensures improvementCount == None && zipPath == None
    {
      srsText := srs;
      fileStructure := [];
      fileDescriptions := map[];
      folderPath := folder;
      errorLog := None;
      retryCount := 0;
      codeFeedback := None;
      improvementCount := None;
      zipPath := None;
    }

    /** `srs_to_file_structure`, given what was extracted from the model's answer: a found
        plan replaces the paths and descriptions, no plan leaves them. */
    method PlanStructure(plan: Option<Plan>)
      modifies this`fileStructure, this`fileDescriptions
      ensures plan.Some? ==> fileStructure == plan.value.files && fileDescriptions == plan.value.descriptions
      ensures plan.None? ==> fileStructure == old(fileStructure) && fileDescriptions == old(fileDescriptions)
    {
      if plan.Some? {
        fileStructure := plan.value.files;
        fileDescriptions := plan.value.descriptions;
      }
    }

    /** `create_files_tool`: writes a placeholder header into every planned file. */
    method CreateFiles(folder: Folder)
      modifies folder
      ensures folder.files == old(folder.files) + Placeholders(fileStructure, fileDescriptions)
    {
      var structure, descs := fileStructure, fileDescriptions;
      ghost var base := folder.files;
      for i := 0 to |structure|
        invariant folder.files == base + Placeholders(structure[..i], descs)
      {
        PlaceholdersStep(base, structure, i, descs);
        folder.files := folder.files[structure[i] := PlaceholderFor(descs, structure[i])];
      }
      assert structure[..|structure|] == structure;
    }

    /**
     * The loop of `write_code_to_files`: asks the model for each planned file, writes the
     * answer without its fenced lines, and scans the answer's lines for imports. A short
     * `import`/`from` line stops it with the IndexError after the file in hand was written.
     */
    method WriteSources(folder: Folder, gen: (string, string) -> string) returns (found: Result<set<string>, PyError>)
      modifies folder
      ensures found == CodeReqs(fileStructure, fileDescriptions, gen)
      ensures found.Ok? ==> folder.files == old(folder.files) + Written(fileStructure, fileDescriptions, gen)
      ensures found.Err? ==>
        exists n :: (1 <= n <= |fileStructure|
                     && folder.files == old(folder.files) + Written(fileStructure[..n], fileDescriptions, gen)
                     && FilesReqs(Codes(fileStructure, fileDescriptions, gen)[..n - 1], fileStructure, fileDescriptions).Ok?
                     && LinesReqs(Split(GeneratedCode(gen, fileDescriptions, fileStructure[n - 1]), '\n'),
                                  fileStructure, fileDescriptions).Err?)
    {
      var structure, descs := fileStructure, fileDescriptions;
      ghost var base := folder.files;
      var requirements: set<string> := {};
      for i := 0 to |structure|
        invariant folder.files == base + Written(structure[..i], descs, gen)
        invariant FilesReqs(Codes(structure, descs, gen)[..i], structure, descs) == Ok(requirements)
      {
        WrittenStep(base, structure, i, descs, gen);
        CodeReqsStep(structure, i, descs, gen);
        var scanned := WriteSource(folder, structure[i], structure, descs, gen, requirements);
        if scanned.Err? {
          assert folder.files == base + Written(structure[..i + 1], descs, gen);
          assert i + 1 - 1 == i;
          return scanned;
        }
        requirements := scanned.value;
      }
      assert Codes(structure, descs, gen)[..|structure|] == Codes(structure, descs, gen);
      assert structure[..|structure|] == structure;
      found := Ok(requirements);
    }

    /**
     * `write_code_to_files`: writes the generated sources, then the sorted requirement
     * names to `requirements.txt`, replacing any planned file of that name.
     */
    method WriteCode(folder: Folder, gen: (string, string) -> string) returns (outcome: Outcome<PyError>)
      modifies folder
      ensures outcome.Pass? <==> CodeReqs(fileStructure, fileDescriptions, gen).Ok?
      ensures outcome.Pass? ==>
        folder.files == (old(folder.files) + Written(fileStructure, fileDescriptions, gen))
          [ManifestPath := ManifestBody(SortedOf(CodeReqs(fileStructure, fileDescriptions, gen).value))]
      ensures outcome.Fail? ==>
        outcome.error == CodeReqs(fileStructure, fileDescriptions, gen).error
        && exists n :: (1 <= n <= |fileStructure|
                        && folder.files == old(folder.files) + Written(fileStructure[..n], fileDescriptions, gen)
                        && FilesReqs(Codes(fileStructure, fileDescriptions, gen)[..n - 1], fileStructure, fileDescriptions).Ok?
                        && LinesReqs(Split(GeneratedCode(gen, fileDescriptions, fileStructure[n - 1]), '\n'),
                                     fileStructure, fileDescriptions).Err?)
    {
      var found := WriteSources(folder, gen);
      if found.Err? {
        return Fail(found.error);
      }
      var body := RenderManifest(found.value);
      folder.files := folder.files[ManifestPath := body];
      outcome := Pass;
    }

    /**
     * `reflect_on_code`: asks the model to review the code of every planned file. A
     * planned file missing from the folder stops the node with FileNotFoundError before
     * the feedback is stored.
     */
    method ReflectOnCode(folder: Folder, review: string -> string) returns (outcome: Outcome<PyError>)
      modifies this`codeFeedback
      ensures FirstMissing(fileStructure, folder.files).None? ==>
        outcome == Pass && codeFeedback == Some(Reviews(fileStructure, folder.files, review))
      ensures FirstMissing(fileStructure, folder.files).Some? ==>
        outcome == Fail(FileNotFoundError(FirstMissing(fileStructure, folder.files).value))
        && codeFeedback == old(codeFeedback)
    {
      var files, structure := folder.files, fileStructure;
      var feedback: map<string, string> := map[];
      for i := 0 to |structure|
        invariant forall k :: 0 <= k < i ==> structure[k] in files
        invariant feedback == Reviews(structure[..i], files, review)
        invariant codeFeedback == old(codeFeedback)
      {
        var path := structure[i];
        if path !in files {
          FirstMissingAt(structure, files, i);
          return Fail(FileNotFoundError(path));
        }
        ReviewsStep(structure, i, files, review);
        feedback := feedback[path := Strip(review(files[path]))];
      }
      assert structure[..|structure|] == structure;
      codeFeedback := Some(feedback);
      outcome := Pass;
    }

    /**
     * `improve_code`: counts the visit and, when the gate holds, asks the human; any
     * answer but "yes" returns at once. Otherwise every file with feedback is rewritten
     * by the model. Without stored feedback the node raises AttributeError; a file with
     * feedback missing from the folder raises FileNotFoundError, the files rewritten
     * before it staying rewritten.
     */
    method ImproveCode(folder: Folder, answer: string, improve: (string, string, string) -> string)
      returns (outcome: Outcome<PyError>)
      modifies this`improvementCount, folder
      ensures improvementCount == Some(old(improvementCount).GetOr(0) + 1)
      ensures Gate(improvementCount.value) && !Approved(answer) ==>
        outcome == Pass && folder.files == old(folder.files)
      ensures (!Gate(improvementCount.value) || Approved(answer)) && codeFeedback.None? ==>
        outcome == Fail(AttributeError) && folder.files == old(folder.files)
      ensures (!Gate(improvementCount.value) || Approved(answer)) && codeFeedback.Some? ==>
        (outcome.Pass? <==> codeFeedback.value.Keys <= old(folder.files).Keys)
      ensures (!Gate(improvementCount.value) || Approved(answer)) && codeFeedback.Some? && outcome.Pass? ==>
        RewrittenFrom(old(folder.files), folder.files, codeFeedback.value, codeFeedback.value.Keys, improve)
      ensures (!Gate(improvementCount.value) || Approved(answer)) && codeFeedback.Some? && outcome.Fail? ==>
        (exists p :: p in codeFeedback.value && p !in old(folder.files) && outcome.error == FileNotFoundError(p))
        && exists done :: (done <= codeFeedback.value.Keys
                           && RewrittenFrom(old(folder.files), folder.files, codeFeedback.value, done, improve))
    {
      improvementCount := Some(improvementCount.GetOr(0) + 1);
      if improvementCount.value >= 0 {
        var userInput := Lower(Strip(answer));
        if userInput != "yes" {
          return Pass;
        }
      }
      if codeFeedback.None? {
        return Fail(AttributeError);
      }
      var fb := codeFeedback.value;
      ghost var start := folder.files;
      var done: set<string> := {};
      while fb.Keys - done != {}
        modifies folder
        invariant done <= fb.Keys
        invariant forall p :: p in done ==> p in start
        invariant RewrittenFrom(start, folder.files, fb, done, improve)
        decreases fb.Keys - done
      {
        var path :| path in fb.Keys - done;
        if path !in folder.files {
          assert path !in start;
          return Fail(FileNotFoundError(path));
        }
        RewriteStep(start, folder.files, fb, done, improve, path);
        folder.files := folder.files[path := Rewrite(folder.files[path], fb[path], path, improve)];
        done := done + {path};
      }
      assert done == fb.Keys by {
        forall x | x in fb.Keys
          ensures x in done
        {
          assert x !in fb.Keys - done;
        }
      }
      outcome := Pass;
    }

    /**
     * `generate_tests`: for every planned Python file, asks the model for a test of its
     * code and writes it to `tests/test_<basename>`. A planned Python file missing from
     * the folder stops the node with FileNotFoundError.
     */
    method GenerateTests(folder: Folder, writeTest: string -> string) returns (outcome: Outcome<PyError>)
      modifies folder
      ensures folder.files == TestsPass(fileStructure, old(folder.files), writeTest).files
      ensures outcome == (match TestsPass(fileStructure, old(folder.files), writeTest).failure
                          case None => Pass
                          case Some(e) => Fail(e))
    {
      for i := 0 to |fileStructure|
        invariant TestsPass(fileStructure, old(folder.files), writeTest)
          == TestsPass(fileStructure[i..], folder.files, writeTest)
      {
        var path := fileStructure[i];
        assert fileStructure[i..][1..] == fileStructure[i + 1..];
        if !IsPy(path) {
          continue;
        }
        if path !in folder.files {
          return Fail(FileNotFoundError(path));
        }
        var code := folder.files[path];
        var testCode := TestText(writeTest(code));
        folder.files := folder.files[TestPath(path) := testCode];
      }
      outcome := Pass;
    }

    /**
     * `run_code`: runs every planned Python file, keeps the error text of the last one
     * that failed, and counts the pass. `retry` is the retry condition with the bound
     * read as an integer; the node returns the same state whichever way it goes.
     */
    method RunCode(run: string -> RunOutcome, maxRetries: int) returns (retry: bool)
      modifies this`errorLog, this`retryCount
      ensures errorLog == LastError(fileStructure, run)
      ensures retryCount == old(retryCount) + 1
      ensures retry == RetryGuard(errorLog, retryCount, maxRetries)
    {
      var log: Option<string> := None;
      for i := 0 to |fileStructure|
        invariant log == LastError(fileStructure[..i], run)
      {
        var path := fileStructure[i];
        assert fileStructure[..i + 1][..i] == fileStructure[..i];
        if !IsPy(path) {
          continue;
        }
        var result := run(path);
        if Failed(result) {
          log := Some(ErrorText(result));
        }
      }
      assert fileStructure[..|fileStructure|] == fileStructure;
      errorLog := log;
      retryCount := retryCount + 1;
      retry := RetryGuard(errorLog, retryCount, maxRetries);
    }

    /** `create_zip`: records the archive's name, the folder path with `.zip` appended. */
    method CreateZip()
      modifies this`zipPath
      ensures zipPath == Some(ZipName(folderPath))
    {
      zipPath := Some(folderPath + ".zip");
    }
  }
}
