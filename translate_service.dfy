/**
 * The translation service as an object: its language fields and its error
 * flag are updated in place while it goes through the files of a run, and
 * each of its operations is proved to do what the functions of the
 * Translation module say a run does.
 */
module TranslationService {
  import opened Wrappers
  import opened Text
  import opened Languages
  import opened Resuming
  import opened Claiming
  import opened Merging
  import opened Translation

  class TranslateFilesService {
    /** The API key of the settings file. */
    const apiKey: string
    /** The largest number of lines a task sends in one request. */
    const maxLengthOfRequests: int
    /** The translation API, as the reply it gives to the language name and
        the text of a request. */
    const translator: (string, string) -> ApiReply

    var languageCode: string
    var languageName: string
    var hasErrors: bool

    constructor (apiKey: string, maxLengthOfRequests: int, translator: (string, string) -> ApiReply)
      ensures this.apiKey == apiKey && this.maxLengthOfRequests == maxLengthOfRequests
      ensures this.translator == translator
      ensures languageCode == "" && languageName == "" && !hasErrors
    {
      this.apiKey := apiKey;
      this.maxLengthOfRequests := maxLengthOfRequests;
      this.translator := translator;
      languageCode := "";
      languageName := "";
      hasErrors := false;
    }

    /** The service's fields, with the output files, as the world a run
        changes. */
    function State(outputs: map<OutputPath, seq<string>>): World
      reads this
    {
      World(languageCode, languageName, hasErrors, outputs)
    }

    /** The code of the first line with its colons removed, and the name of
        that language; accepted exactly when the code is a listed one. */
    method SetLanguageCode(firstFileLine: string) returns (ok: bool)
      modifies this`languageCode, this`languageName
      ensures languageCode == HeaderCode(firstFileLine)
      ensures languageName == GetLanguageKey(languageCode)
      ensures ok <==> IsKnownCode(languageCode)
      ensures ok <==> languageName != ""
    {
      languageCode := HeaderCode(firstFileLine);
      languageName := GetLanguageKey(languageCode);
      ok := languageName != "";
    }

    /** One request: the translated text, or None when the request failed,
        which flags an error, or when the reply holds no text. */
    method GetTranslationFromApi(lines: seq<string>) returns (translation: Option<string>)
      modifies this`hasErrors
      ensures match Ask(translator, languageName, lines)
              case RequestFailed => translation == None && hasErrors
              case EmptyReply => translation == None && hasErrors == old(hasErrors)
              case Reply(text) => translation == Some(text) && hasErrors == old(hasErrors)
    {
      var reply := translator(languageName, Join(lines, "\n"));
      match reply
      case RequestFailed =>
        hasErrors := true;
        translation := None;
      case EmptyReply =>
        translation := None;
      case Reply(text) =>
        translation := Some(text);
    }

    /** Processing a reply: its lines merged with the lines sent, or, when
        the counts differ, written for review with the error flag raised. */
    method ProcessTranslation(originalLines: seq<string>, translation: string) returns (result: Processed)
      modifies this`hasErrors
      ensures result == Merge(originalLines, translation)
      ensures hasErrors == (old(hasErrors) || (result.Content? && result.mismatch))
    {
      var translatedLines := TranslatedLines(translation);
      if |originalLines| != |translatedLines| {
        hasErrors := true;
        result := Content([MismatchHeader] + Indented(translatedLines), true);
      } else {
        match MergeAll(originalLines, translatedLines)
        case None =>
          result := IndexOutOfRange;
        case Some(merged) =>
          result := Content(merged, false);
      }
    }

    /** One task: it claims its batch under the lock, sends it, and appends
        what it makes of the reply to the output file; `raised` is the
        exception of a reply line without `:`. */
    method ProcessTranslationGroup(fileLines: seq<string>, startIndex: nat, processed: set<nat>, output: seq<string>)
      returns (processedAfter: set<nat>, outputAfter: seq<string>, raised: bool)
      modifies this`hasErrors
      ensures var claim := Claim(|fileLines|, startIndex, processed, maxLengthOfRequests, []);
        && (forall j :: 0 <= j < |claim| ==> claim[j] < |fileLines|)
        && processedAfter == processed + Elements(claim)
        && var outcome := GroupOutcome(fileLines, claim, languageName, translator);
        (outputAfter, raised, hasErrors) == (output + outcome.written, outcome.raised, old(hasErrors) || outcome.flagged)
    {
      var batch, indices;
      batch, indices, processedAfter := ClaimBatch(fileLines, startIndex, processed, maxLengthOfRequests);
      outputAfter, raised := output, false;
      AppendNothing(output);
      if |batch| == 0 {
        return;
      }
      var translation := GetTranslationFromApi(batch);
      if translation.None? {
        return;
      }
      var outputContent := ProcessTranslation(batch, translation.value);
      match outputContent
      case IndexOutOfRange =>
        raised := true;
      case Content(lines, _) =>
        outputAfter := output + lines;
    }

    /** The tasks of a file, in the order `order` in which they take the
        lock, each appending to the output file. */
    method RunTasks(fileLines: seq<string>, order: seq<nat>, output: seq<string>)
      returns (outputAfter: seq<string>, raised: bool)
      modifies this`hasErrors
      ensures var claims := Claims(|fileLines|, order, maxLengthOfRequests);
        && Bounded(claims, |fileLines|)
        && var run := Tasks(fileLines, claims, languageName, translator);
        (outputAfter, raised, hasErrors) == (output + run.written, run.raised, old(hasErrors) || run.flagged)
    {
      var processed: set<nat> := {};
      outputAfter, raised := output, false;
      AppendNothing(output);
      var k := 0;
      while k < |order|
        invariant 0 <= k <= |order|
        invariant TasksSoFar(fileLines, order[..k], maxLengthOfRequests, languageName, translator,
                             output, old(hasErrors), processed, outputAfter, raised, hasErrors)
      {
        ghost var errors := hasErrors;
        var processedAfter, written, r := ProcessTranslationGroup(fileLines, order[k], processed, outputAfter);
        TasksSoFarStep(fileLines, order, k, maxLengthOfRequests, languageName, translator, output, old(hasErrors),
                       processed, outputAfter, raised, errors, processedAfter, written, r, hasErrors);
        processed, outputAfter, raised := processedAfter, written, raised || r;
        k := k + 1;
      }
      PrefixWhole(order);
    }

    /** One file of a run: None when the run goes on, the result otherwise. */
    method TranslateFile(file: SourceFile, folder: string, arrange: seq<nat> -> seq<nat>,
                         outputs: map<OutputPath, seq<string>>)
      returns (stop: Option<RunResult>, outputsAfter: map<OutputPath, seq<string>>)
      modifies this`languageCode, this`languageName, this`hasErrors
      ensures FileStepOf(old(State(outputs)), file, folder, ProcessFor(maxLengthOfRequests, arrange, translator)) ==
        if stop.Some? then Stop(stop.value, State(outputsAfter)) else Continue(State(outputsAfter))
    {
      ghost var w := State(outputs);
      outputsAfter := outputs;
      var content := FileContent(file);
      if content.None? {
        stop := Some(Returned(false, NullFile));
      } else if |content.value| == 0 {
        stop := Some(Threw);
      } else {
        var fileLines := content.value;
        var ok := SetLanguageCode(fileLines[0]);
        if !ok {
          stop := Some(Returned(false, InvalidLanguage));
        } else {
          outputsAfter := WriteOutput(file.name, fileLines, folder, arrange, outputs);
          FileStepWorld(w, file, folder, ProcessFor(maxLengthOfRequests, arrange, translator));
          stop := None;
        }
      }
    }

    /** The part of one file's work that follows a valid header: its output
        file is created when missing, the lines it does not hold yet are
        translated by the tasks, and the closing lines are appended. */
    method WriteOutput(fileName: string, fileLines: seq<string>, folder: string, arrange: seq<nat> -> seq<nat>,
                       outputs: map<OutputPath, seq<string>>)
      returns (outputsAfter: map<OutputPath, seq<string>>)
      requires fileLines != []
      modifies this`hasErrors
      ensures var path := OutputPath(folder, languageCode, OutputName(fileName));
        var existing := ExistingOutput(outputs, path, fileLines[0]);
        var run := ProcessFor(maxLengthOfRequests, arrange, translator)(fileLines, existing, languageCode, languageName);
        (outputsAfter, hasErrors) == (outputs[path := existing + FileAppend(run)], old(hasErrors) || run.raised || run.flagged)
    {
      var path := OutputPath(folder, languageCode, OutputName(fileName));
      outputsAfter := outputs;
      if path !in outputsAfter {
        outputsAfter := outputsAfter[path := [fileLines[0]]];
      }
      ghost var created := outputsAfter;
      var existing := outputsAfter[path];
      assert existing == ExistingOutput(outputs, path, fileLines[0]);
      var existingKeys := CollectExistingKeys(existing);
      var lines := Resume(fileLines, existingKeys);
      ghost var run := ProcessFor(maxLengthOfRequests, arrange, translator)(fileLines, existing, languageCode, languageName);
      ProcessForApplied(maxLengthOfRequests, arrange, translator, fileLines, existing, languageCode, languageName);
      var output, raised := RunTasks(lines, arrange(TaskStarts(lines, languageCode)), existing);
      ghost var written := output;
      if raised {
        hasErrors := true;
        output := output + [TasksErrorLine];
      }
      output := output + [FileFinishedLine];
      FileAppendAfter(existing, run, written, output);
      outputsAfter := outputsAfter[path := output];
      UpdateTwice(outputs, created, path, output);
    }

    /** A run over `files`, writing into the output files `outputs`. */
    method TranslateFiles(files: seq<SourceFile>, folder: string, arrange: seq<nat> -> seq<nat>,
                          outputs: map<OutputPath, seq<string>>)
      returns (result: RunResult, outputsAfter: map<OutputPath, seq<string>>)
      modifies this`languageCode, this`languageName, this`hasErrors
      ensures (result, State(outputsAfter)) ==
        Run(old(State(outputs)), apiKey, files, folder, maxLengthOfRequests, arrange, translator)
    {
      outputsAfter := outputs;
      if apiKey == PlaceholderApiKey {
        return Returned(false, ApiSettings), outputsAfter;
      }
      ghost var step := StepFor(folder, ProcessFor(maxLengthOfRequests, arrange, translator));
      var i := 0;
      while i < |files|
        invariant 0 <= i <= |files|
        invariant FilesFrom(State(outputsAfter), files, i, step) == FilesFrom(old(State(outputs)), files, 0, step)
      {
        var stop;
        stop, outputsAfter := TranslateFile(files[i], folder, arrange, outputsAfter);
        if stop.Some? {
          return stop.value, outputsAfter;
        }
        i := i + 1;
      }
      result := Verdict(hasErrors);
    }
  }

  /** What the tasks of a file that took the lock in the order `order` have
      done: the indices they processed, the output file after their lines,
      whether one raised, and the error flag. */
  ghost predicate TasksSoFar(lines: seq<string>, order: seq<nat>, max: int, languageName: string,
                             translator: (string, string) -> ApiReply, output: seq<string>, hadErrors: bool,
                             processed: set<nat>, written: seq<string>, raised: bool, errors: bool)
  {
    var claims := Claims(|lines|, order, max);
    && Bounded(claims, |lines|)
    && processed == Taken(claims)
    && var run := Tasks(lines, claims, languageName, translator);
    (written, raised, errors) == (output + run.written, run.raised, hadErrors || run.flagged)
  }

  /** The claims of one more task: those before, and its own. */
  lemma ClaimsSnoc(count: nat, order: seq<nat>, k: nat, max: int)
    requires k < |order|
    ensures var before := Claims(count, order[..k], max);
      Claims(count, order[..k + 1], max) == before + [Claim(count, order[k], Taken(before), max, [])]
  {
    assert order[..k + 1][..k] == order[..k];
  }

  /** What one more task has taken. */
  lemma TakenSnoc(claims: seq<seq<nat>>, claim: seq<nat>)
    ensures Taken(claims + [claim]) == Taken(claims) + Elements(claim)
  {
    var all := claims + [claim];
    assert all[..|all| - 1] == claims;
  }

  /** The outcome of one more task: what it writes comes after what the
      tasks before it wrote. */
  lemma TasksSnoc(lines: seq<string>, claims: seq<seq<nat>>, claim: seq<nat>, languageName: string,
                  translator: (string, string) -> ApiReply)
    requires Bounded(claims, |lines|) && Bounded(claims + [claim], |lines|)
    requires forall j :: 0 <= j < |claim| ==> claim[j] < |lines|
    ensures var run := Tasks(lines, claims, languageName, translator);
      var last := GroupOutcome(lines, claim, languageName, translator);
      Tasks(lines, claims + [claim], languageName, translator) ==
        TaskRun(run.written + last.written, run.raised || last.raised, run.flagged || last.flagged)
  {
    var all := claims + [claim];
    assert all[..|all| - 1] == claims;
  }

  /** One more task keeps the loop's account of the tasks of a file. */
  lemma TasksSoFarStep(lines: seq<string>, order: seq<nat>, k: nat, max: int, languageName: string,
                       translator: (string, string) -> ApiReply, output: seq<string>, hadErrors: bool,
                       processed: set<nat>, written: seq<string>, raised: bool, errors: bool,
                       processedAfter: set<nat>, writtenAfter: seq<string>, r: bool, errorsAfter: bool)
    requires k < |order|
    requires TasksSoFar(lines, order[..k], max, languageName, translator, output, hadErrors,
                        processed, written, raised, errors)
    requires var claim := Claim(|lines|, order[k], processed, max, []);
      && (forall j :: 0 <= j < |claim| ==> claim[j] < |lines|)
      && processedAfter == processed + Elements(claim)
      && var outcome := GroupOutcome(lines, claim, languageName, translator);
      (writtenAfter, r, errorsAfter) == (written + outcome.written, outcome.raised, errors || outcome.flagged)
    ensures TasksSoFar(lines, order[..k + 1], max, languageName, translator, output, hadErrors,
                       processedAfter, writtenAfter, raised || r, errorsAfter)
  {
    var before := Claims(|lines|, order[..k], max);
    var claim := Claim(|lines|, order[k], processed, max, []);
    ClaimsSnoc(|lines|, order, k, max);
    ClaimsBounded(|lines|, order[..k + 1], max);
    TakenSnoc(before, claim);
    TasksSnoc(lines, before, claim, languageName, translator);
    var done := Tasks(lines, before, languageName, translator).written;
    var last := GroupOutcome(lines, claim, languageName, translator).written;
    AppendAssociative(output, done, last);
  }

  /** What the tasks of a file append, as the function the run applies. */
  lemma ProcessForApplied(max: int, arrange: seq<nat> -> seq<nat>, translator: (string, string) -> ApiReply,
                          fileLines: seq<string>, existing: seq<string>, code: string, name: string)
    ensures var lines := ResumedLines(fileLines, existing);
      var claims := Claims(|lines|, arrange(TaskStarts(lines, code)), max);
      && Bounded(claims, |lines|)
      && ProcessFor(max, arrange, translator)(fileLines, existing, code, name) == Tasks(lines, claims, name, translator)
  {
    var lines := ResumedLines(fileLines, existing);
    ClaimsBounded(|lines|, arrange(TaskStarts(lines, code)), max);
  }

  /** The lines appended in the order the service appends them. */
  lemma FileAppendAfter(existing: seq<string>, run: TaskRun, written: seq<string>, output: seq<string>)
    requires written == existing + run.written
    requires output == written + (if run.raised then [TasksErrorLine] else []) + [FileFinishedLine]
    ensures output == existing + FileAppend(run)
  {
    AppendAssociative(existing, run.written, if run.raised then [TasksErrorLine] else []);
    AppendAssociative(existing, run.written + (if run.raised then [TasksErrorLine] else []), [FileFinishedLine]);
  }

  /** Writing an entry overrides whatever was written there before. */
  lemma UpdateTwice<K, V>(m: map<K, V>, updated: map<K, V>, k: K, v: V)
    requires forall x :: x in updated && x != k ==> x in m && updated[x] == m[x]
    requires forall x :: x in m ==> x in updated
    ensures updated[k := v] == m[k := v]
  {
  }

  /** Appending nothing leaves a sequence as it is. */
  lemma AppendNothing<T>(s: seq<T>)
    ensures s + [] == s
  {
  }

  /** The prefix as long as the sequence is the sequence. */
  lemma PrefixWhole<T>(s: seq<T>)
    ensures s[..|s|] == s
  {
  }

  /** Appending is associative. These three facts are stated apart, where
      the solver proves them without the definitions of the service in
      view. */
  lemma AppendAssociative<T>(a: seq<T>, b: seq<T>, c: seq<T>)
    ensures (a + b) + c == a + (b + c)
  {
  }
}
