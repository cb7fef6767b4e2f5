/**
 * What one run of the translation service does, stated as functions of its
 * inputs: the language header of each file, the output file it goes to, the
 * lines left after resuming, the task starts, the claims of the tasks and
 * what each task appends, and the result of the run.
 */
module Translation {
  import opened Wrappers
  import opened Text
  import opened Languages
  import opened Resuming
  import opened Claiming
  import opened Merging

  /** The key shipped in the settings file, which means "not configured". */
  const PlaceholderApiKey: string := "Put your API key here and edit Url and Model to match yours."
  const ApiSettingsMessage: string := "Go into the appsettings.json file and input your API settings."
  const NullFileMessage: string := "The file uploaded is null."
  const InvalidLanguageMessage: string := "The language value in the first line of the file is invalid."
  const FinishedMessage: string := "Translation finished."
  const ErrorsSuffix: string := "\nThere could be errors in the translation, please review the files."
  /** The line appended when a task raised; the message is that of the
      out-of-range index of a translated line without `:`. */
  const TasksErrorLine: string := "#Error in translation tasks: Index was outside the bounds of the array."
  const FileFinishedLine: string := "#File translation finished"
  const ToBeTranslatedMarker: string := "_ToBeTranslated"
  const TranslatedMarker: string := "_Translated"

  /** What the translation API gives for one request: the request failed
      (the service flags an error), the reply has no message content, or
      the translated text. */
  datatype ApiReply = RequestFailed | EmptyReply | Reply(text: string)

  /** A file to translate: its path, its file name, and its lines, or None
      when it cannot be read. */
  datatype SourceFile = SourceFile(path: string, name: string, lines: Option<seq<string>>)

  /** Where an output file goes: under the run's folder, in the folder of its
      language code, with its own name. */
  datatype OutputPath = OutputPath(folder: string, languageCode: string, name: string)

  /** The messages a run returns. */
  datatype Message = ApiSettings | NullFile | InvalidLanguage | Finished(withErrors: bool)

  /** The text of each message. */
  function MessageText(m: Message): string {
    match m
    case ApiSettings => ApiSettingsMessage
    case NullFile => NullFileMessage
    case InvalidLanguage => InvalidLanguageMessage
    case Finished(withErrors) => FinishedMessage + (if withErrors then ErrorsSuffix else "")
  }

  /** How a run ends: a returned verdict, or the exception of reading the
      first line of a file that has none. */
  datatype RunResult = Returned(isSuccess: bool, message: Message) | Threw

  /** The service's fields with the output files. */
  datatype World = World(languageCode: string, languageName: string, hasErrors: bool,
                         outputs: map<OutputPath, seq<string>>)

  /** What the tasks of a file leave: the lines they appended, whether one of
      them raised, and whether one of them flagged an error. */
  datatype TaskRun = TaskRun(written: seq<string>, raised: bool, flagged: bool)

  /** One file: the run stops with a result, or goes on with a new world. */
  datatype FileStep = Stop(result: RunResult, world: World) | Continue(world: World)

  // ---------------------------------------------------------------- headers

  /** The language code of a first line: every `:` removed. */
  function HeaderCode(firstLine: string): string {
    Replace(firstLine, ":", "")
  }

  /** Removing the colons of a text with a single `:` at its end gives the
      text before it. */
  lemma {:induction false} ReplaceDropsColon(code: string)
    requires ':' !in code
    ensures Replace(code + ":", ":", "") == code
  {
    if code != [] {
      assert (code + ":")[1..] == code[1..] + ":";
      ReplaceDropsColon(code[1..]);
    }
  }

  /** The first line `<code>:` of a file in any of the listed languages is
      accepted, and decodes to that code and that language's name. */
  lemma HeaderDecodes(i: nat)
    requires i < |LanguageRecords|
    ensures HeaderCode(LanguageRecords[i].1 + ":") == LanguageRecords[i].1
    ensures GetLanguageKey(HeaderCode(LanguageRecords[i].1 + ":")) == LanguageRecords[i].0
  {
    var code := LanguageRecords[i].1;
    assert ':' !in code by {
      assert code[0] == 'l' && code[1] == '_';
      assert forall c :: c in code ==> c == '_' || 'a' <= c <= 'z';
    }
    ReplaceDropsColon(code);
    LookupRoundTrip(i);
  }

  // ----------------------------------------------------------- output names

  /** The name of the output file of a source file. */
  function OutputName(fileName: string): string {
    Replace(fileName, ToBeTranslatedMarker, TranslatedMarker)
  }

  /** The output name of a name holding the marker once: the marker becomes
      `_Translated` and the rest of the name is kept. */
  lemma OutputNameOfMarked(front: string, back: string)
    requires forall j :: 0 <= j < |front| ==> !StartsWith((front + ToBeTranslatedMarker + back)[j..], ToBeTranslatedMarker)
    requires !Contains(back, ToBeTranslatedMarker)
    ensures OutputName(front + ToBeTranslatedMarker + back) == front + TranslatedMarker + back
  {
    var rest := ToBeTranslatedMarker + back;
    assert front + ToBeTranslatedMarker + back == front + rest;
    ReplaceSkips(front, rest, ToBeTranslatedMarker, TranslatedMarker);
    assert StartsWith(rest, ToBeTranslatedMarker);
    assert rest[|ToBeTranslatedMarker|..] == back;
  }

  /** A name without the marker is its own output name. */
  lemma OutputNameOfPlain(fileName: string)
    requires !Contains(fileName, ToBeTranslatedMarker)
    ensures OutputName(fileName) == fileName
  {
  }

  // ------------------------------------------------------------ file lines

  /** The lines `GetFileContent` keeps: the non-blank ones. */
  function KeepLine(line: string): bool {
    !IsBlank(line)
  }

  /** `GetFileContent`: None for an empty path or an unreadable file,
      otherwise the lines that are not blank, in order. */
  function FileContent(file: SourceFile): (content: Option<seq<string>>)
    ensures content.None? <==> file.path == [] || file.lines.None?
    ensures content.Some? ==> forall line :: line in content.value <==> line in file.lines.value && !IsBlank(line)
  {
    if file.path == [] || file.lines.None? then None
    else
      var kept := Filter(file.lines.value, KeepLine);
      assert forall line :: line in kept <==> line in file.lines.value && !IsBlank(line) by {
        forall line ensures line in kept <==> line in file.lines.value && !IsBlank(line) {
          FilterMembers(file.lines.value, KeepLine, line);
        }
      }
      Some(kept)
  }

  /** The indices of the lines that start a task: those whose trimmed text
      does not start with the language code, in ascending order. */
  function TaskStarts(lines: seq<string>, code: string): (starts: seq<nat>)
    ensures forall k :: 0 <= k < |starts| ==> starts[k] < |lines|
  {
    if lines == [] then []
    else
      var last := |lines| - 1;
      TaskStarts(lines[..last], code) + (if StartsWith(Trim(lines[last]), code) then [] else [last])
  }

  /** A line starts a task exactly when its trimmed text does not start with
      the code. */
  lemma {:induction false} TaskStartsMembers(lines: seq<string>, code: string, x: int)
    ensures x in TaskStarts(lines, code) <==> 0 <= x < |lines| && !StartsWith(Trim(lines[x]), code)
  {
    if lines != [] {
      var last := |lines| - 1;
      TaskStartsMembers(lines[..last], code, x);
      if 0 <= x < last {
        assert lines[..last][x] == lines[x];
      }
    }
  }

  /** Each element is below the ones after it. */
  predicate Ascending(xs: seq<nat>) {
    forall k, l :: 0 <= k < l < |xs| ==> xs[k] < xs[l]
  }

  /** The task starts are ascending. */
  lemma {:induction false} TaskStartsAscending(lines: seq<string>, code: string)
    ensures Ascending(TaskStarts(lines, code))
  {
    if lines != [] {
      var last := |lines| - 1;
      var front := TaskStarts(lines[..last], code);
      TaskStartsAscending(lines[..last], code);
      if !StartsWith(Trim(lines[last]), code) {
        var starts := front + [last];
        forall k, l | 0 <= k < l < |starts|
          ensures starts[k] < starts[l]
        {
          assert starts[k] == front[k];
          if l < |front| {
            assert starts[l] == front[l];
          }
        }
      }
    }
  }

  // ------------------------------------------------------------------ tasks

  /** The claims of a file hold line indices only. */
  predicate Bounded(claims: seq<seq<nat>>, count: nat) {
    forall k, j :: 0 <= k < |claims| && 0 <= j < |claims[k]| ==> claims[k][j] < count
  }

  lemma ClaimsBounded(count: nat, order: seq<nat>, max: int)
    ensures Bounded(Claims(count, order, max), count)
  {
    var claims := Claims(count, order, max);
    forall k, j | 0 <= k < |claims| && 0 <= j < |claims[k]|
      ensures claims[k][j] < count
    {
      ClaimSize(count, order, max, k);
      assert claims[k][j] in claims[k];
    }
  }

  /** What a task that sent `batch` makes of `reply`: a failed request flags
      an error and writes nothing, an empty reply writes nothing, and a reply
      is merged and written, flagged when its line count differs, or raises. */
  function TaskOutcome(batch: seq<string>, reply: ApiReply): TaskRun {
    match reply
    case RequestFailed => TaskRun([], false, true)
    case EmptyReply => TaskRun([], false, false)
    case Reply(text) =>
      match Merge(batch, text)
      case Content(lines, mismatch) => TaskRun(lines, false, mismatch)
      case IndexOutOfRange => TaskRun([], true, false)
  }

  /** The request of a batch: the lines joined by line feeds, sent with the
      name of the language to translate to. */
  function Ask(translator: (string, string) -> ApiReply, languageName: string, batch: seq<string>): ApiReply {
    translator(languageName, Join(batch, "\n"))
  }

  /** One task of a file with its claim: nothing at all when it claimed no
      line, otherwise the outcome of the translator's reply to its batch. */
  function GroupOutcome(lines: seq<string>, claim: seq<nat>, languageName: string,
                        translator: (string, string) -> ApiReply): TaskRun
    requires forall j :: 0 <= j < |claim| ==> claim[j] < |lines|
  {
    if claim == [] then TaskRun([], false, false)
    else TaskOutcome(LinesAt(lines, claim), Ask(translator, languageName, LinesAt(lines, claim)))
  }

  /** The tasks of a file, in the order they took the lock: what they wrote,
      one after the other, and whether any raised or flagged an error. */
  function Tasks(lines: seq<string>, claims: seq<seq<nat>>, languageName: string,
                 translator: (string, string) -> ApiReply): TaskRun
    requires Bounded(claims, |lines|)
  {
    if claims == [] then TaskRun([], false, false)
    else
      var before := Tasks(lines, claims[..|claims| - 1], languageName, translator);
      var last := GroupOutcome(lines, claims[|claims| - 1], languageName, translator);
      TaskRun(before.written + last.written, before.raised || last.raised, before.flagged || last.flagged)
  }

  /** An empty claim makes no request: the tasks of a file depend on the
      translator only through the batches of non-empty claims. */
  lemma {:induction false} TasksAskOnlyNonEmpty(lines: seq<string>, claims: seq<seq<nat>>, languageName: string,
                                               translator: (string, string) -> ApiReply,
                                               other: (string, string) -> ApiReply)
    requires Bounded(claims, |lines|)
    requires forall k :: 0 <= k < |claims| && claims[k] != [] ==>
      Ask(translator, languageName, LinesAt(lines, claims[k])) == Ask(other, languageName, LinesAt(lines, claims[k]))
    ensures Tasks(lines, claims, languageName, translator) == Tasks(lines, claims, languageName, other)
  {
    if claims != [] {
      var front := claims[..|claims| - 1];
      forall k | 0 <= k < |front| && front[k] != []
        ensures Ask(translator, languageName, LinesAt(lines, front[k])) == Ask(other, languageName, LinesAt(lines, front[k]))
      {
        assert front[k] == claims[k];
      }
      TasksAskOnlyNonEmpty(lines, front, languageName, translator, other);
    }
  }

  /** The tasks flag or raise only when some task's request failed, its reply
      had a different line count, or its reply raised. */
  lemma {:induction false} TasksErrors(lines: seq<string>, claims: seq<seq<nat>>, languageName: string,
                                      translator: (string, string) -> ApiReply)
    requires Bounded(claims, |lines|)
    ensures var run := Tasks(lines, claims, languageName, translator);
      (run.raised || run.flagged) <==>
        exists k :: 0 <= k < |claims| &&
          var one := GroupOutcome(lines, claims[k], languageName, translator); one.raised || one.flagged
  {
    if claims != [] {
      var front := claims[..|claims| - 1];
      TasksErrors(lines, front, languageName, translator);
      forall k | 0 <= k < |front|
        ensures front[k] == claims[k]
      {
      }
    }
  }

  /** What is appended to an output file after its tasks: their lines, the
      error line when one raised, and the closing line. */
  function FileAppend(run: TaskRun): (appended: seq<string>)
    ensures appended != [] && appended[|appended| - 1] == FileFinishedLine
    ensures |appended| == |run.written| + (if run.raised then 2 else 1)
    ensures appended[..|run.written|] == run.written
  {
    run.written + (if run.raised then [TasksErrorLine] else []) + [FileFinishedLine]
  }

  /** With the lock taken in any order of the task starts, each task start
      ends up in exactly one claim: every line of the file that does not
      start with the language code is sent exactly once. */
  lemma StartsClaimedOnce(lines: seq<string>, code: string, order: seq<nat>, max: int, x: nat)
    requires multiset(order) == multiset(TaskStarts(lines, code))
    requires x in TaskStarts(lines, code)
    ensures var claims := Claims(|lines|, order, max);
      && (exists k :: 0 <= k < |claims| && x in claims[k])
      && forall k, l :: 0 <= k < l < |claims| ==> !(x in claims[k] && x in claims[l])
  {
    assert x in multiset(order);
    var p :| 0 <= p < |order| && order[p] == x;
    TaskStartsMembers(lines, code, x);
    StartClaimedOnce(|lines|, order, max, p);
  }

  /** A first line that starts with the language code, as the header does,
      is claimed by no task. */
  lemma HeaderNeverClaimed(lines: seq<string>, code: string, order: seq<nat>, max: int)
    requires lines != [] && StartsWith(Trim(lines[0]), code)
    requires forall y :: y in order ==> y in TaskStarts(lines, code)
    ensures var claims := Claims(|lines|, order, max);
      forall k :: 0 <= k < |claims| ==> 0 !in claims[k]
  {
    var claims := Claims(|lines|, order, max);
    TaskStartsMembers(lines, code, 0);
    assert 0 !in TaskStarts(lines, code);
    forall k | 0 <= k < |claims|
      ensures 0 !in claims[k]
    {
      assert order[k] in order;
      assert order[k] != 0;
      ClaimSize(|lines|, order, max, k);
    }
  }

  // ------------------------------------------------------------- one file

  /** The lines of a file that are translated, against the output file as it
      is when the run reaches it. */
  function ResumedLines(fileLines: seq<string>, existing: seq<string>): seq<string> {
    Resume(fileLines, ExistingKeys(existing))
  }

  /** The output file as the run finds it: as it is, or created with the
      source file's first line. */
  function ExistingOutput(outputs: map<OutputPath, seq<string>>, path: OutputPath, firstLine: string): seq<string> {
    if path in outputs then outputs[path] else [firstLine]
  }

  /** The tasks of one file, with the lock taken in the order `arrange` gives
      to the task starts. */
  function FileTasks(lines: seq<string>, code: string, languageName: string, max: int,
                     arrange: seq<nat> -> seq<nat>, translator: (string, string) -> ApiReply): TaskRun
  {
    var claims := Claims(|lines|, arrange(TaskStarts(lines, code)), max);
    ClaimsBounded(|lines|, arrange(TaskStarts(lines, code)), max);
    Tasks(lines, claims, languageName, translator)
  }

  /** What the tasks of a file append, from the file's lines, its output
      file as the run finds it, its language code and its language name:
      the lines not yet translated are resumed, then translated by tasks
      that take the lock in the order `arrange` gives. */
  function ProcessFor(max: int, arrange: seq<nat> -> seq<nat>, translator: (string, string) -> ApiReply)
    : (seq<string>, seq<string>, string, string) -> TaskRun
  {
    (fileLines: seq<string>, existing: seq<string>, code: string, name: string) =>
      FileTasks(ResumedLines(fileLines, existing), code, name, max, arrange, translator)
  }

  /** The body of the loop over the files of a run, with `process` giving
      what the tasks of a file append. */
  function FileStepOf(w: World, file: SourceFile, folder: string,
                      process: (seq<string>, seq<string>, string, string) -> TaskRun): FileStep
  {
    match FileContent(file)
    case None => Stop(Returned(false, NullFile), w)
    case Some(fileLines) =>
      if fileLines == [] then Stop(Threw, w)
      else
        var code := HeaderCode(fileLines[0]);
        var name := GetLanguageKey(code);
        var named := w.(languageCode := code, languageName := name);
        if name == "" then Stop(Returned(false, InvalidLanguage), named)
        else
          var path := OutputPath(folder, code, OutputName(file.name));
          var existing := ExistingOutput(w.outputs, path, fileLines[0]);
          var run := process(fileLines, existing, code, name);
          Continue(named.(hasErrors := w.hasErrors || run.raised || run.flagged,
                          outputs := w.outputs[path := existing + FileAppend(run)]))
  }

  /** The loop body with the settings of a run fixed. */
  function StepFor(folder: string, process: (seq<string>, seq<string>, string, string) -> TaskRun)
    : (World, SourceFile) -> FileStep
  {
    (w: World, file: SourceFile) => FileStepOf(w, file, folder, process)
  }

  /** The files from `i` on, each handled by `step`, until one stops the run. */
  function FilesFrom(w: World, files: seq<SourceFile>, i: nat, step: (World, SourceFile) -> FileStep): FileStep
    decreases |files| - i
  {
    if i >= |files| then Continue(w)
    else
      match step(w, files[i])
      case Stop(result, after) => Stop(result, after)
      case Continue(after) => FilesFrom(after, files, i + 1, step)
  }

  /** The verdict of a run that went through every file. */
  function Verdict(hasErrors: bool): RunResult {
    Returned(!hasErrors, Finished(hasErrors))
  }

  /** A whole run: refused, with nothing changed, while the API key is the
      placeholder, otherwise the files in order and the verdict. It never
      undoes anything, and it succeeds only with the key set and no error
      flagged at its end, saying only that it finished. */
  function Run(w: World, apiKey: string, files: seq<SourceFile>, folder: string, max: int,
               arrange: seq<nat> -> seq<nat>, translator: (string, string) -> ApiReply): (r: (RunResult, World))
    ensures apiKey == PlaceholderApiKey ==> r == (Returned(false, ApiSettings), w)
    ensures Grows(w, r.1)
    ensures r.0.Returned? && r.0.isSuccess ==>
      apiKey != PlaceholderApiKey && !r.1.hasErrors && r.0.message == Finished(false)
  {
    if apiKey == PlaceholderApiKey then (Returned(false, ApiSettings), w)
    else
      var step := StepFor(folder, ProcessFor(max, arrange, translator));
      StepForBehaves(folder, ProcessFor(max, arrange, translator));
      FilesFromMeaning(w, files, 0, step, Rejection);
      match FilesFrom(w, files, 0, step)
      case Stop(result, after) => (result, after)
      case Continue(after) => (Verdict(after.hasErrors), after)
  }

  // ------------------------------------------------------------ the results

  /** A file the run goes through: readable, not empty, and naming a known
      language in its first line. */
  predicate Accepted(file: SourceFile) {
    match FileContent(file)
    case None => false
    case Some(lines) => lines != [] && GetLanguageKey(HeaderCode(lines[0])) != ""
  }

  /** How a file ends the run, if it does: exactly the files that are not
      accepted do, and never with a success. */
  function Rejection(file: SourceFile): (rejected: Option<RunResult>)
    ensures rejected.None? <==> Accepted(file)
    ensures rejected.Some? ==> !(rejected.value.Returned? && rejected.value.isSuccess)
  {
    match FileContent(file)
    case None => Some(Returned(false, NullFile))
    case Some(lines) =>
      if lines == [] then Some(Threw)
      else if GetLanguageKey(HeaderCode(lines[0])) == "" then Some(Returned(false, InvalidLanguage))
      else None
  }

  /** What a run never undoes: a flagged error stays flagged, and each output
      file is only appended to. */
  predicate Grows(before: World, after: World) {
    && (before.hasErrors ==> after.hasErrors)
    && forall path :: path in before.outputs ==> path in after.outputs && before.outputs[path] <= after.outputs[path]
  }

  lemma GrowsTransitive(a: World, b: World, c: World)
    requires Grows(a, b) && Grows(b, c)
    ensures Grows(a, c)
  {
  }

  /** One file stops the run exactly when it is not accepted, with its
      rejection. */
  lemma FileStepStops(w: World, file: SourceFile, folder: string,
                      process: (seq<string>, seq<string>, string, string) -> TaskRun)
    ensures var step := FileStepOf(w, file, folder, process);
      && (step.Stop? <==> !Accepted(file))
      && (step.Stop? ==> Rejection(file) == Some(step.result))
  {
  }

  /** The world after an accepted file: the language fields are those of
      its first line, the error flag is raised when its tasks raised or
      flagged one, and its output file gets the tasks' lines appended. */
  lemma FileStepWorld(w: World, file: SourceFile, folder: string,
                      process: (seq<string>, seq<string>, string, string) -> TaskRun)
    requires Accepted(file)
    ensures var fileLines := FileContent(file).value;
      var code := HeaderCode(fileLines[0]);
      var name := GetLanguageKey(code);
      var path := OutputPath(folder, code, OutputName(file.name));
      var existing := ExistingOutput(w.outputs, path, fileLines[0]);
      var run := process(fileLines, existing, code, name);
      FileStepOf(w, file, folder, process) ==
        Continue(World(code, name, w.hasErrors || run.raised || run.flagged, w.outputs[path := existing + FileAppend(run)]))
  {
  }

  /** A file never undoes anything. */
  lemma FileStepGrows(w: World, file: SourceFile, folder: string,
                      process: (seq<string>, seq<string>, string, string) -> TaskRun)
    ensures Grows(w, FileStepOf(w, file, folder, process).world)
  {
    if Accepted(file) {
      FileStepWorld(w, file, folder, process);
      var fileLines := FileContent(file).value;
      var code := HeaderCode(fileLines[0]);
      var path := OutputPath(folder, code, OutputName(file.name));
      var existing := ExistingOutput(w.outputs, path, fileLines[0]);
      var run := process(fileLines, existing, code, GetLanguageKey(code));
      AppendGrows(w, FileStepOf(w, file, folder, process).world, path, existing, FileAppend(run));
    } else {
      FileStepStops(w, file, folder, process);
    }
  }

  /** Appending to an output file as it is found, or to a new one, undoes
      nothing. */
  lemma AppendGrows(w: World, after: World, path: OutputPath, existing: seq<string>, appended: seq<string>)
    requires path in w.outputs ==> existing == w.outputs[path]
    requires w.hasErrors ==> after.hasErrors
    requires after.outputs == w.outputs[path := existing + appended]
    ensures Grows(w, after)
  {
  }

  /** An accepted file appends to its own output file, created with the
      file's first line when missing, which then ends with the closing line;
      every other output file is left as it was. */
  lemma FileStepAppends(w: World, file: SourceFile, folder: string,
                        process: (seq<string>, seq<string>, string, string) -> TaskRun)
    requires Accepted(file)
    ensures var step := FileStepOf(w, file, folder, process);
      var fileLines := FileContent(file).value;
      var path := OutputPath(folder, HeaderCode(fileLines[0]), OutputName(file.name));
      var written := step.world.outputs[path];
      && step.Continue?
      && step.world.outputs.Keys == w.outputs.Keys + {path}
      && (forall other :: other in w.outputs && other != path ==> step.world.outputs[other] == w.outputs[other])
      && (path !in w.outputs ==> written[0] == fileLines[0])
      && written[|written| - 1] == FileFinishedLine
  {
    FileStepWorld(w, file, folder, process);
    var fileLines := FileContent(file).value;
    var code := HeaderCode(fileLines[0]);
    var path := OutputPath(folder, code, OutputName(file.name));
    var existing := ExistingOutput(w.outputs, path, fileLines[0]);
    AppendShape(w.outputs, path, fileLines[0], process(fileLines, existing, code, GetLanguageKey(code)));
  }

  /** Appending the lines of a file's tasks to its output file. */
  lemma AppendShape(outputs: map<OutputPath, seq<string>>, path: OutputPath, firstLine: string, run: TaskRun)
    ensures var existing := ExistingOutput(outputs, path, firstLine);
      var after := outputs[path := existing + FileAppend(run)];
      var written := after[path];
      && after.Keys == outputs.Keys + {path}
      && (forall other :: other in outputs && other != path ==> after[other] == outputs[other])
      && (path !in outputs ==> written[0] == firstLine)
      && written[|written| - 1] == FileFinishedLine
  {
    var existing := ExistingOutput(outputs, path, firstLine);
    var appended := FileAppend(run);
    assert (existing + appended)[|existing| + |appended| - 1] == FileFinishedLine;
  }

  /** The loop body behaves as a file step must: it stops exactly on the
      files `rejection` rejects, with their rejection, and undoes nothing. */
  ghost predicate Behaves(step: (World, SourceFile) -> FileStep, rejection: SourceFile -> Option<RunResult>) {
    forall w, file ::
      && (step(w, file).Stop? <==> rejection(file).Some?)
      && (step(w, file).Stop? ==> rejection(file) == Some(step(w, file).result))
      && (step(w, file).Stop? ==> !(step(w, file).result.Returned? && step(w, file).result.isSuccess))
      && Grows(w, step(w, file).world)
  }

  lemma StepForBehaves(folder: string, process: (seq<string>, seq<string>, string, string) -> TaskRun)
    ensures Behaves(StepFor(folder, process), Rejection)
  {
    var step := StepFor(folder, process);
    forall w, file
      ensures && (step(w, file).Stop? <==> Rejection(file).Some?)
              && (step(w, file).Stop? ==> Rejection(file) == Some(step(w, file).result))
              && (step(w, file).Stop? ==> !(step(w, file).result.Returned? && step(w, file).result.isSuccess))
              && Grows(w, step(w, file).world)
    {
      FileStepStops(w, file, folder, process);
      FileStepGrows(w, file, folder, process);
    }
  }

  /** The files from `i` on: the run stops exactly when `rejection` rejects
      one of them, with the rejection of the first such file, and it never
      undoes what came before. */
  lemma {:induction false} FilesFromMeaning(w: World, files: seq<SourceFile>, i: nat,
                                           step: (World, SourceFile) -> FileStep,
                                           rejection: SourceFile -> Option<RunResult>)
    requires i <= |files| && Behaves(step, rejection)
    ensures var last := FilesFrom(w, files, i, step);
      && (last.Stop? <==> exists j :: i <= j < |files| && rejection(files[j]).Some?)
      && (forall j ::
            (i <= j < |files| && rejection(files[j]).Some? && forall m :: i <= m < j ==> rejection(files[m]).None?) ==>
            rejection(files[j]) == Some(last.result))
      && (last.Stop? ==> !(last.result.Returned? && last.result.isSuccess))
      && Grows(w, last.world)
    decreases |files| - i
  {
    if i < |files| {
      var first := step(w, files[i]);
      if first.Stop? {
        assert FilesFrom(w, files, i, step) == first;
        assert exists j :: i <= j < |files| && rejection(files[j]).Some?;
        forall j | i <= j < |files| && rejection(files[j]).Some? && forall m :: i <= m < j ==> rejection(files[m]).None?
          ensures rejection(files[j]) == Some(first.result)
        {
          assert j == i;
        }
      } else {
        var rest := FilesFrom(first.world, files, i + 1, step);
        assert FilesFrom(w, files, i, step) == rest;
        FilesFromMeaning(first.world, files, i + 1, step, rejection);
        GrowsTransitive(w, first.world, rest.world);
        if rest.Stop? {
          var j :| i + 1 <= j < |files| && rejection(files[j]).Some?;
          assert i <= j;
        }
        if exists j :: i <= j < |files| && rejection(files[j]).Some? {
          var j :| i <= j < |files| && rejection(files[j]).Some?;
          assert j != i;
          assert rest.Stop?;
        }
        forall j | i <= j < |files| && rejection(files[j]).Some? && forall m :: i <= m < j ==> rejection(files[m]).None?
          ensures rejection(files[j]) == Some(rest.result)
        {
          assert j != i;
          assert forall m :: i + 1 <= m < j ==> rejection(files[m]).None?;
        }
      }
    }
  }

  /** The result of a run: refused, with nothing changed, while the API key
      is the placeholder; otherwise the rejection of the first file that is
      not accepted, or, when every file is, the verdict on the error flag;
      and it never undoes anything. */
  lemma RunOutcome(w: World, apiKey: string, files: seq<SourceFile>, folder: string, max: int,
                   arrange: seq<nat> -> seq<nat>, translator: (string, string) -> ApiReply)
    ensures var (result, after) := Run(w, apiKey, files, folder, max, arrange, translator);
      && (apiKey == PlaceholderApiKey ==> result == Returned(false, ApiSettings) && after == w)
      && (apiKey != PlaceholderApiKey && (forall j :: 0 <= j < |files| ==> Accepted(files[j])) ==>
            result == Verdict(after.hasErrors))
      && (forall j ::
            (apiKey != PlaceholderApiKey && 0 <= j < |files| && !Accepted(files[j])
             && forall m :: 0 <= m < j ==> Accepted(files[m])) ==> Rejection(files[j]) == Some(result))
      && (apiKey != PlaceholderApiKey && (exists j :: 0 <= j < |files| && !Accepted(files[j])) ==>
            !(result.Returned? && result.isSuccess))
      && Grows(w, after)
  {
    if apiKey != PlaceholderApiKey {
      var step := StepFor(folder, ProcessFor(max, arrange, translator));
      StepForBehaves(folder, ProcessFor(max, arrange, translator));
      FilesFromMeaning(w, files, 0, step, Rejection);
      assert forall j :: 0 <= j < |files| ==> (Rejection(files[j]).Some? <==> !Accepted(files[j]));
    }
  }

  /** A run succeeds exactly when the key is set, every file is accepted and
      no error is flagged at its end; its message then says only that it
      finished, without the warning about errors. */
  lemma RunSucceedsIff(w: World, apiKey: string, files: seq<SourceFile>, folder: string, max: int,
                       arrange: seq<nat> -> seq<nat>, translator: (string, string) -> ApiReply)
    ensures var (result, after) := Run(w, apiKey, files, folder, max, arrange, translator);
      && ((result.Returned? && result.isSuccess) <==>
            apiKey != PlaceholderApiKey && (forall j :: 0 <= j < |files| ==> Accepted(files[j])) && !after.hasErrors)
      && (result.Returned? && result.isSuccess ==> result.message == Finished(false))
  {
    RunOutcome(w, apiKey, files, folder, max, arrange, translator);
  }

  /** The error flag is never cleared: once a run of the service flagged an
      error, every later run of the same service reports failure. */
  lemma ErrorsStick(w: World, apiKey: string, files: seq<SourceFile>, folder: string, max: int,
                    arrange: seq<nat> -> seq<nat>, translator: (string, string) -> ApiReply)
    requires w.hasErrors
    ensures var (result, after) := Run(w, apiKey, files, folder, max, arrange, translator);
      after.hasErrors && !(result.Returned? && result.isSuccess)
  {
    RunOutcome(w, apiKey, files, folder, max, arrange, translator);
    RunSucceedsIff(w, apiKey, files, folder, max, arrange, translator);
  }
}
