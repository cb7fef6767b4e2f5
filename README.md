# ModTranslator: a verified model of its three services

ModTranslator helps translate the localisation files of Paradox game mods.
Each file starts with a language header such as `l_english:`, followed by
lines of the form `key: 0 "value"`. The program has three services, and this
project models and proves properties of each:

- **The generator** (`GenerateFileToTranslateService`). For every file of the
  source language, it finds the entries that the target-language counterpart
  lacks. It writes those entries, sorted by key, into a YAML file to
  translate, and reports how many there are (`delta_generation.dfy`).
- **The translator** (`TranslateFilesService`). For every file, it reads the
  language header and resumes after the keys already in the output file. It
  then starts one task per line. Each task claims a batch of unclaimed lines,
  sends the batch to a translation API, pairs the reply with the batch, and
  appends the result to the output file (`claims.dfy`, `resume.dfy`,
  `merge.dfy`, `translation.dfy`, `translate_service.dfy`).
- **The validator** (`ValidateFilesService`). For every source file with a
  counterpart, it compares the placeholders `$key$`, the functions `[Name]`
  and the icons `£icon£` of each pair of values as sets. It also flags CJK
  text in a translation whose target is not Simplified Chinese. Every
  difference is logged to a report file (`validation.dfy`).

Shared pieces:

- The table of languages (`languages.dfy`).
- The line reader used by the generator and the validator (`line_parser.dfy`).
- File selection and pairing (`file_names.dfy`).
- The .NET string operations the services use (`text.dfy`).
- The Option type (`wrappers.dfy`).

What is modelled as what:

- State that the source changes in place stays imperative. The generator and
  the translator are classes, and their methods update the fields the source
  updates.
- The loops of the source are `while` loops. Each one is proved against a
  specification function of the inputs, for example `Validation.Differences`,
  `Translation.Run` or `DeltaGeneration.RunReport`.
- Files are sequences of lines. Output files are a map from path to lines.
- The translation API is a function parameter. It takes the language name and
  the newline-joined batch, and gives a request failure, an empty reply or a
  text.
- Concurrency is modelled through the order in which tasks take the lock.
  That order is a parameter (`arrange`), so every property proved holds for
  every order.

Four behaviours of the code that are easy to misread:

- **Claiming lines.** There is no static split of the remaining lines into
  batches of `MaxLengthOfRequests` lines. Every line whose trimmed text does
  not start with the language code starts a task. A task claims, under a
  lock, the unclaimed lines from its own start index upward
  (`Claiming.ClaimBatch`). So the number of batches depends on the lock
  order. The model proves that no line is claimed twice and that every start
  line is claimed (`Claiming.ClaimsDisjoint`, `Translation.StartsClaimedOnce`).
- **Comment lines.** Comment lines of the source are claimed and sent to the
  translator like any other line.
- **Failed requests.** A failed request only sets the error flag and drops
  its batch; nothing is appended for it. The appended error line comes only
  from an exception in a task: a reply line without `:` that is paired with a
  source line holding one.
- **Reading values.** The value regex drops a leading number even when the
  value is not quoted (`2024 edition` reads as `edition`,
  `LineParser.UnquotedOrdinalExample`).

## Model

| member | source | states |
|---|---|---|
| Languages.GetLanguageKey | ModTranslator.BO/Constants/LanguagesManager.cs:5-8 | the name is that of a record whose code is the one asked for, or "" exactly when no record has that code |
| Languages.FirstNameFor | ModTranslator.BO/Constants/LanguagesManager.cs:7 | `FirstOrDefault` over the records: a name is found exactly when some record has the code, and it is the name of such a record |
| Languages.CodesAreDistinct | ModTranslator.BO/Constants/LanguagesManager.cs:10-22 | no two records of the table share a code |
| Languages.LookupRoundTrip | ModTranslator.BO/Constants/LanguagesManager.cs:5-22 | looking up the code of any record gives back that record's name |
| Languages.LookupExamples | ModTranslator.BO/Constants/LanguagesManager.cs:5-22 | `l_english` gives `English` and `l_simp_chinese` gives `Simplified Chinese`; the lookup is case-sensitive, so `L_ENGLISH` gives "" |
| LineParser.AfterOrdinalShape | ModTranslator.BLL/Services/ValidateFiles/ValidateFilesService.cs:310 | what the optional leading number and its white space leave is a suffix of the value text |
| LineParser.UnquotedShape | ModTranslator.BLL/Services/ValidateFiles/ValidateFilesService.cs:220 | group 2 trimmed of spaces and quotes has neither at its ends and holds only characters of the text |
| LineParser.ParseValueShape | ModTranslator.BLL/Services/ValidateFiles/ValidateFilesService.cs:214-221 | a value read from a line has no space or quote at its ends and no line break |
| LineParser.OrdinalStripped | ModTranslator.BLL/Services/ValidateFiles/ValidateFilesService.cs:310 | a leading number and the white space after it are dropped, whether the value is quoted or not |
| LineParser.PlainValue | ModTranslator.BLL/Services/ValidateFiles/ValidateFilesService.cs:217-221 | a value with no number, no quotes and no spaces at its ends is kept as it is |
| LineParser.QuotedValue | ModTranslator.BLL/Services/ValidateFiles/ValidateFilesService.cs:217-221 | a value written between double quotes reads back as itself, whatever quotes it holds inside |
| LineParser.UnquotedOrdinalExample | ModTranslator.BLL/Services/ValidateFiles/ValidateFilesService.cs:310 | `2024 edition` has the value `edition`: the number goes even without quotes |
| LineParser.OrdinalAndQuotes | ModTranslator.BLL/Services/ValidateFiles/ValidateFilesService.cs:214-221 | the usual `<number> "<text>"` gives the text between the quotes |
| LineParser.ParseLine | ModTranslator.BLL/Services/GenerateFilesForTranslation/GenerateFileToTranslateService.cs:120-158 | a line gives an entry exactly when it is not blank, not a comment, not a header and holds a `:`; the key is the trimmed text before the first `:` and holds no `:` |
| LineParser.ParseLines | ModTranslator.BLL/Services/GenerateFilesForTranslation/GenerateFileToTranslateService.cs:116-160 | the lines are stored in order, a later line overwriting an earlier one: the entry of the last line, if it gives one, is in the dictionary with its value |
| LineParser.ParsedEntryWellFormed | ModTranslator.BLL/Services/ValidateFiles/ValidateFilesService.cs:208-221 | every entry read from a line without a line break has a key without `:` and a value with no space or quote at its ends |
| LineParser.LineEntries | ModTranslator.BLL/Services/ValidateFiles/ValidateFilesService.cs:196-224 | the entries of the lines, one per line that gives one, in order |
| LineParser.Collect | ModTranslator.BLL/Services/ValidateFiles/ValidateFilesService.cs:223 | storing entries in order: every stored key comes from an entry that gives it the stored value |
| LineParser.ParseLinesCollect | ModTranslator.BLL/Services/GenerateFilesForTranslation/GenerateFileToTranslateService.cs:120-158 | reading a file is storing the entries of its lines in order |
| LineParser.CollectLastWins | ModTranslator.BLL/Services/ValidateFiles/ValidateFilesService.cs:223 | the last entry with a key decides that key's value |
| LineParser.CollectKeys | ModTranslator.BLL/Services/ValidateFiles/ValidateFilesService.cs:223 | a key is stored exactly when some entry has it |
| LineParser.LastWins | ModTranslator.BLL/Services/GenerateFilesForTranslation/GenerateFileToTranslateService.cs:150-157 | the last line of a file giving a key decides its value |
| LineParser.KeysOfParse | ModTranslator.BLL/Services/ValidateFiles/ValidateFilesService.cs:193-226 | a key is in a file's dictionary exactly when some line gives it, and its value is the value one of those lines gives |
| LineParser.ParsedDictionaryWellFormed | ModTranslator.BLL/Services/ValidateFiles/ValidateFilesService.cs:193-226 | every entry of a file's dictionary is well formed |
| FileNames.WithCodeSelects | ModTranslator.BLL/Services/ValidateFiles/ValidateFilesService.cs:25-29 | the selection keeps exactly the files whose name without extension holds the code, and no more files than it is given |
| FileNames.PairKey | ModTranslator.BLL/Services/ValidateFiles/ValidateFilesService.cs:166-169 | the pairing name is the name without extension with the code and the two prefixes removed, so a name holding none of them pairs as itself |
| FileNames.TranslatedCounterpartPairs | ModTranslator.BLL/Services/ValidateFiles/ValidateFilesService.cs:164-175 | a source name `x` + source code and the tool's translated name `x` + `ModTranslator_Translated_` + target code both pair as `x` |
| FileNames.PairKeys | ModTranslator.BLL/Services/ValidateFiles/ValidateFilesService.cs:171-175 | the pairing name of each candidate, at its own position |
| FileNames.FirstFrom | ModTranslator.BLL/Services/ValidateFiles/ValidateFilesService.cs:171-176 | the first position from the start that holds the key, or None exactly when none does |
| FileNames.FindMatchFinds | ModTranslator.BLL/Services/ValidateFiles/ValidateFilesService.cs:160-177 | there is no counterpart exactly when no candidate pairs with the file; a counterpart pairs with it |
| FileNames.FindMatchIsFirst | ModTranslator.BLL/Services/ValidateFiles/ValidateFilesService.cs:171-176 | the counterpart is the first pairing candidate |
| DeltaGeneration.MissingKeysOnly | ModTranslator.BLL/Services/GenerateFilesForTranslation/GenerateFileToTranslateService.cs:167-176 | the missing keys are exactly the source's keys that the target lacks, each with the source's value |
| DeltaGeneration.MissingKeysPartition | ModTranslator.BLL/Services/GenerateFilesForTranslation/GenerateFileToTranslateService.cs:167-176 | the missing keys and the target's keys cover the source's keys, and no missing key is in the target |
| DeltaGeneration.NothingMissing | ModTranslator.BLL/Services/GenerateFilesForTranslation/GenerateFileToTranslateService.cs:167-176 | nothing is missing exactly when the target has every key of the source |
| DeltaGeneration.MissingIgnoresTranslatedValues | ModTranslator.BLL/Services/GenerateFilesForTranslation/GenerateFileToTranslateService.cs:169-172 | only the keys of the target matter, not its values |
| DeltaGeneration.MissingAfterTranslation | ModTranslator.BLL/Services/GenerateFilesForTranslation/GenerateFileToTranslateService.cs:167-176 | once the missing entries are added to the target, nothing is missing |
| DeltaGeneration.SortedListingShape | ModTranslator.BLL/Services/GenerateFilesForTranslation/GenerateFileToTranslateService.cs:84 | the listing is sorted by key and lists exactly the entries of the map |
| DeltaGeneration.ListingUnique | ModTranslator.BLL/Services/GenerateFilesForTranslation/GenerateFileToTranslateService.cs:84 | a map has one sorted listing, so the order written depends on the entries alone |
| DeltaGeneration.LeadIsLeast | ModTranslator.BLL/Services/GenerateFilesForTranslation/GenerateFileToTranslateService.cs:84 | the first entry of a sorted listing holds the least key |
| DeltaGeneration.InsertByKey | ModTranslator.BLL/Services/GenerateFilesForTranslation/GenerateFileToTranslateService.cs:84 | inserting an entry with a new key into a sorted listing keeps it sorted and adds exactly that entry |
| DeltaGeneration.OrderByKey | ModTranslator.BLL/Services/GenerateFilesForTranslation/GenerateFileToTranslateService.cs:84 | `OrderBy(x => x.Key)`: the result is the sorted listing of the dictionary, sorted by key and holding exactly its entries |
| DeltaGeneration.YamlLines | ModTranslator.BLL/Services/GenerateFilesForTranslation/GenerateFileToTranslateService.cs:183-198 | a generated file has the root line `<code>:`, then the line `  key: "value"` of entry `i` at line `i + 1` |
| DeltaGeneration.HeaderSkipped | ModTranslator.BLL/Services/GenerateFilesForTranslation/GenerateFileToTranslateService.cs:187 | the root line of a generated file gives no entry when read back |
| DeltaGeneration.EntryLineParses | ModTranslator.BLL/Services/GenerateFilesForTranslation/GenerateFileToTranslateService.cs:194 | every entry line of a well-formed entry reads back as that entry |
| DeltaGeneration.YamlLinesParse | ModTranslator.BLL/Services/GenerateFilesForTranslation/GenerateFileToTranslateService.cs:183-198 | the root line gives nothing and each entry line gives its entry |
| DeltaGeneration.CollectListing | ModTranslator.BLL/Services/GenerateFilesForTranslation/GenerateFileToTranslateService.cs:189-195 | storing the entries of a sorted listing of a map gives the map |
| DeltaGeneration.ReadBackListing | ModTranslator.BLL/Services/GenerateFilesForTranslation/GenerateFileToTranslateService.cs:189-195 | lines giving a sorted listing after one line without entry read back as the map |
| DeltaGeneration.YamlRoundTrip | ModTranslator.BLL/Services/GenerateFilesForTranslation/GenerateFileToTranslateService.cs:183-198 | reading a generated file back gives exactly the map it was written from |
| DeltaGeneration.WarnedPairs | ModTranslator.BLL/Services/GenerateFilesForTranslation/GenerateFileToTranslateService.cs:75-78 | a pair is warned about exactly when the counterpart has more entries than the source file |
| DeltaGeneration.Outcomes | ModTranslator.BLL/Services/GenerateFilesForTranslation/GenerateFileToTranslateService.cs:52-104 | one contribution per source file |
| DeltaGeneration.OutcomesAt | ModTranslator.BLL/Services/GenerateFilesForTranslation/GenerateFileToTranslateService.cs:52-104 | the `i`-th contribution is that of the `i`-th source file |
| DeltaGeneration.FoldDeltas | ModTranslator.BLL/Services/GenerateFilesForTranslation/GenerateFileToTranslateService.cs:87-103 | every file to write holds at least one entry and comes from a contribution folded so far |
| DeltaGeneration.FoldTotal | ModTranslator.BLL/Services/GenerateFilesForTranslation/GenerateFileToTranslateService.cs:102 | the total counted is the number of entries in the files to write |
| DeltaGeneration.FoldCovers | ModTranslator.BLL/Services/GenerateFilesForTranslation/GenerateFileToTranslateService.cs:87-103 | every contribution with missing entries gets a file to write |
| DeltaGeneration.Rendered | ModTranslator.BLL/Services/GenerateFilesForTranslation/GenerateFileToTranslateService.cs:89-100 | one written file per delta, in order |
| DeltaGeneration.RenderedAt | ModTranslator.BLL/Services/GenerateFilesForTranslation/GenerateFileToTranslateService.cs:89-100 | written file `i` has the name of delta `i` and its entries in ascending key order under the target code |
| DeltaGeneration.RunTotal | ModTranslator.BLL/Services/GenerateFilesForTranslation/GenerateFileToTranslateService.cs:102-106 | the number reported is the number of entries written |
| DeltaGeneration.RunDeltas | ModTranslator.BLL/Services/GenerateFilesForTranslation/GenerateFileToTranslateService.cs:52-104 | every file written holds at least one entry, exactly the entries of one source file that its counterpart lacks |
| DeltaGeneration.RunCoversEveryFile | ModTranslator.BLL/Services/GenerateFilesForTranslation/GenerateFileToTranslateService.cs:52-104 | a source file gets a file to translate whenever some of its entries are missing from its counterpart |
| DeltaGeneration.WrittenFilesReadBack | ModTranslator.BLL/Services/GenerateFilesForTranslation/GenerateFileToTranslateService.cs:81-100 | every written file reads back as exactly the entries missing from the counterpart of its source file |
| DeltaGeneration.OverlayPut | ModTranslator.BLL/Services/GenerateFilesForTranslation/GenerateFileToTranslateService.cs:150-157 | storing an entry over a dictionary laid on a base is storing it in the dictionary on top |
| DeltaGeneration.GenerateFileToTranslateService.constructor | ModTranslator.BLL/Services/GenerateFilesForTranslation/GenerateFileToTranslateService.cs:10-14 | the dictionaries start empty and the codes start as "" |
| DeltaGeneration.GenerateFileToTranslateService.FillDictionaries | ModTranslator.BLL/Services/GenerateFilesForTranslation/GenerateFileToTranslateService.cs:116-160 | the chosen dictionary becomes the old one with the file's entries stored over it; the other is unchanged |
| DeltaGeneration.GenerateFileToTranslateService.FormatDictionaryToYaml | ModTranslator.BLL/Services/GenerateFilesForTranslation/GenerateFileToTranslateService.cs:183-198 | the lines are the root line `<code>:` and one `  key: "value"` line per current sorted entry, which read back as those entries |
| DeltaGeneration.GenerateFileToTranslateService.ReadPair | ModTranslator.BLL/Services/GenerateFilesForTranslation/GenerateFileToTranslateService.cs:54-73 | the dictionaries hold exactly the source file's and its counterpart's entries, empty without a counterpart |
| DeltaGeneration.GenerateFileToTranslateService.GenerateForFile | ModTranslator.BLL/Services/GenerateFilesForTranslation/GenerateFileToTranslateService.cs:54-92 | one source file gives its contribution: its warning, its missing entries sorted, and the name of its file to write |
| DeltaGeneration.GenerateFileToTranslateService.Record | ModTranslator.BLL/Services/GenerateFilesForTranslation/GenerateFileToTranslateService.cs:75-103 | the warning joins the message; missing entries are written as a file and counted |
| DeltaGeneration.GenerateFileToTranslateService.GenerateFile | ModTranslator.BLL/Services/GenerateFilesForTranslation/GenerateFileToTranslateService.cs:22-107 | the message and the files written are those of the run report of the source and target files |
| Validation.CommentTestsAgree | ModTranslator.BLL/Services/ValidateFiles/ValidateFilesService.cs:198 | testing `TrimStart` or `Trim` for a leading `#` is the same test once blank lines are set aside |
| Validation.SameLineRule | ModTranslator.BLL/Services/ValidateFiles/ValidateFilesService.cs:196-224 | the validator reads a line exactly as the generator does |
| Validation.KeyOrderLists | ModTranslator.BLL/Services/ValidateFiles/ValidateFilesService.cs:223 | the enumeration order of the dictionary lists each of its keys once |
| Validation.LoadFileDictionary | ModTranslator.BLL/Services/ValidateFiles/ValidateFilesService.cs:188-227 | the dictionary is that of the file's lines, and its enumeration order lists its keys |
| Validation.WordEnd | ModTranslator.BLL/Services/ValidateFiles/ValidateFilesService.cs:298-305 | the end of the run of word characters from a position: all word characters before it, none at it |
| Validation.MatchAt | ModTranslator.BLL/Services/ValidateFiles/ValidateFilesService.cs:298-305 | a match that starts at a position ends at least two characters later, before the end of the text |
| Validation.MatchesAreTokens | ModTranslator.BLL/Services/ValidateFiles/ValidateFilesService.cs:298-305 | every match is a token of its pattern |
| Validation.NoOpenNoMatch | ModTranslator.BLL/Services/ValidateFiles/ValidateFilesService.cs:298-305 | a text without the opening delimiter has no match |
| Validation.TrimAllTokens | ModTranslator.BLL/Services/ValidateFiles/ValidateFilesService.cs:237 | trimming the matched tokens changes none of them |
| Validation.TokenTrimmed | ModTranslator.BLL/Services/ValidateFiles/ValidateFilesService.cs:237 | a token is its own trim, as its delimiters are not white space |
| Validation.TokensAreMatches | ModTranslator.BLL/Services/ValidateFiles/ValidateFilesService.cs:235-260 | the extracted tokens are distinct and are exactly the match texts, delimiters included |
| Validation.ExtractKeys | ModTranslator.BLL/Services/ValidateFiles/ValidateFilesService.cs:235-238 | the `$key$` tokens of a value: distinct, exactly the match texts of the pattern, each a well-formed token |
| Validation.ExtractFunctions | ModTranslator.BLL/Services/ValidateFiles/ValidateFilesService.cs:246-249 | the `[Function]` tokens of a value: distinct, exactly the match texts of the pattern, each a well-formed token |
| Validation.ExtractIcons | ModTranslator.BLL/Services/ValidateFiles/ValidateFilesService.cs:257-260 | the `£icon£` tokens of a value: distinct, exactly the match texts of the pattern, each a well-formed token |
| Validation.IsChinese | ModTranslator.BLL/Services/ValidateFiles/ValidateFilesService.cs:267-270 | a CJK ideograph is a word character and not white space, so it never ends a `$key$` name |
| Validation.LoneToken | ModTranslator.BLL/Services/ValidateFiles/ValidateFilesService.cs:298-305 | a lone `[Name]`, `£icon£` or `$key$` is found whole |
| Validation.DottedFunctionIgnored | ModTranslator.BLL/Services/ValidateFiles/ValidateFilesService.cs:301 | `[Root.GetName]` gives no function, as a dot is not a word character |
| Validation.DoubledDollarsIgnored | ModTranslator.BLL/Services/ValidateFiles/ValidateFilesService.cs:298 | `$$key$$` holds no placeholder |
| Validation.Compare | ModTranslator.BLL/Services/ValidateFiles/ValidateFilesService.cs:85-99 | each missing or extra list holds exactly the tokens of one value that the other lacks; CJK is flagged exactly when the translation holds some and the target is not Simplified Chinese |
| Validation.SameValueOnlyChinese | ModTranslator.BLL/Services/ValidateFiles/ValidateFilesService.cs:85-103 | a value compared with itself differs only by CJK text |
| Validation.NoTokensInEmpty | ModTranslator.BLL/Services/ValidateFiles/ValidateFilesService.cs:235-260 | the empty string holds no token of any pattern |
| Validation.AbsentKeyReported | ModTranslator.BLL/Services/ValidateFiles/ValidateFilesService.cs:83-103 | a key the translation lacks is logged exactly when its source value holds a placeholder, function or icon |
| Validation.FindingsListed | ModTranslator.BLL/Services/ValidateFiles/ValidateFilesService.cs:107-140 | each non-empty finding is listed with its own items and no empty one is; the CJK notice appears exactly when flagged |
| Validation.BlockShape | ModTranslator.BLL/Services/ValidateFiles/ValidateFilesService.cs:101-145 | a block is logged exactly when something differs; it opens with the key, lists the findings and closes with both values and an empty line |
| Validation.BlockHeader | ModTranslator.BLL/Services/ValidateFiles/ValidateFilesService.cs:105 | the only header line in a block names its own key |
| Validation.Checks | ModTranslator.BLL/Services/ValidateFiles/ValidateFilesService.cs:79-90 | one comparison per key of the enumeration order, with the counterpart's value or "" when the translation lacks the key |
| Validation.Blocks | ModTranslator.BLL/Services/ValidateFiles/ValidateFilesService.cs:79-146 | one block per comparison |
| Validation.NoDifferencesIff | ModTranslator.BLL/Services/ValidateFiles/ValidateFilesService.cs:72-149 | nothing is logged exactly when no source key differs from its counterpart |
| Validation.ReportedKeys | ModTranslator.BLL/Services/ValidateFiles/ValidateFilesService.cs:72-149 | a key is reported exactly when it is a source key whose comparison shows a difference |
| Validation.ExtraKeysIgnored | ModTranslator.BLL/Services/ValidateFiles/ValidateFilesService.cs:79-83 | keys only the translation has change nothing |
| Validation.CompareDictionaries | ModTranslator.BLL/Services/ValidateFiles/ValidateFilesService.cs:72-149 | the loop appends exactly the blocks of the source keys in enumeration order |
| Validation.CompareEntryAt | ModTranslator.BLL/Services/ValidateFiles/ValidateFilesService.cs:81-145 | the lines appended for entry `i` are the block of its comparison |
| Validation.CompareEntry | ModTranslator.BLL/Services/ValidateFiles/ValidateFilesService.cs:101-145 | the lines appended for one entry are its block |
| Validation.AppendFinding | ModTranslator.BLL/Services/ValidateFiles/ValidateFilesService.cs:107-135 | one finding line is appended exactly when its list is not empty |
| Validation.ValidationName | ModTranslator.BLL/Services/ValidateFiles/ValidateFilesService.cs:289-291 | the report name ends with `_ModTranslator_Validations.yml`, and is the name without extension plus that suffix when the name does not hold the code |
| Validation.Outputs | ModTranslator.BLL/Services/ValidateFiles/ValidateFilesService.cs:33-56 | one report or none per source file |
| Validation.ValidateFile | ModTranslator.BLL/Services/ValidateFiles/ValidateFilesService.cs:35-55 | file `i` yields its specified report, or none when it has no counterpart or no differences |
| Validation.ValidateFiles | ModTranslator.BLL/Services/ValidateFiles/ValidateFilesService.cs:33-56 | the loop appends exactly the reports of the source files that have one, in order |
| Validation.RunValidation | ModTranslator.BLL/Services/ValidateFiles/ValidateFilesService.cs:19-61 | the reports appended, and a success exactly when none was appended, with the two fixed messages |
| Validation.AppendsEmptyIff | ModTranslator.BLL/Services/ValidateFiles/ValidateFilesService.cs:46-58 | no report is appended exactly when every source file yields no lines |
| Validation.ReportOfShape | ModTranslator.BLL/Services/ValidateFiles/ValidateFilesService.cs:46-54 | a report is named after its file and holds its differences, which are not empty |
| Validation.AppendsAreReports | ModTranslator.BLL/Services/ValidateFiles/ValidateFilesService.cs:33-56 | every appended report is that of a source file, and every file with differences has its report appended |
| Validation.FileCleanIff | ModTranslator.BLL/Services/ValidateFiles/ValidateFilesService.cs:33-56 | a file yields no lines exactly when it has no counterpart or every source key agrees with its counterpart |
| Validation.RunSucceedsIff | ModTranslator.BLL/Services/ValidateFiles/ValidateFilesService.cs:19-61 | the run succeeds exactly when every selected source file yields no lines |
| Resuming.ResumeKey | ModTranslator.BLL/Services/TranslateFiles/TranslateFilesService.cs:65-76 | the key of a line holds no `:`; blank lines, comments and lines without a `:` after the first character hold none |
| Resuming.KeysInMeaning | ModTranslator.BLL/Services/TranslateFiles/TranslateFilesService.cs:61-77 | a key is collected exactly when some line holds it |
| Resuming.CollectExistingKeys | ModTranslator.BLL/Services/TranslateFiles/TranslateFilesService.cs:60-77 | the loop collects the keys of the output file's lines after its first |
| Resuming.FilterMembers | ModTranslator.BLL/Services/TranslateFiles/TranslateFilesService.cs:79-86 | `Where` keeps exactly the elements that pass, in order |
| Resuming.Resume | ModTranslator.BLL/Services/TranslateFiles/TranslateFilesService.cs:79-86 | a line survives exactly when it is a source line holding no key already translated, and no line is added |
| Resuming.ResumeAppend | ModTranslator.BLL/Services/TranslateFiles/TranslateFilesService.cs:79-86 | the filter keeps the order of the lines: filtering two parts gives the filtered whole |
| Resuming.ResumeNothing | ModTranslator.BLL/Services/TranslateFiles/TranslateFilesService.cs:79-86 | with no key translated yet, every line is kept |
| Resuming.FreshOutputKeepsAll | ModTranslator.BLL/Services/TranslateFiles/TranslateFilesService.cs:295-298 | a freshly created output file holds only its header, so no line is dropped |
| Merging.TranslatedLines | ModTranslator.BLL/Services/TranslateFiles/TranslateFilesService.cs:259 | the reply split at line feeds with empty pieces removed: no piece is empty |
| Merging.Indented | ModTranslator.BLL/Services/TranslateFiles/TranslateFilesService.cs:265 | one indented line per reply line |
| Merging.MergeLine | ModTranslator.BLL/Services/TranslateFiles/TranslateFilesService.cs:271-274 | a source line without `:` is kept as it is; the merge raises (None) exactly when the source line holds a `:` and the reply line does not |
| Merging.MergeAllMeaning | ModTranslator.BLL/Services/TranslateFiles/TranslateFilesService.cs:269-276 | the pairwise merge raises exactly when a pair does, and otherwise holds each pair's merge at its place |
| Merging.Merge | ModTranslator.BLL/Services/TranslateFiles/TranslateFilesService.cs:255-279 | with different counts the reply is written behind the mismatch header, line by line, and flagged; with equal counts it is not flagged and gives one line per source line, or raises exactly when a source line with `:` meets a reply line without one |
| Merging.TrimMerged | ModTranslator.BLL/Services/TranslateFiles/TranslateFilesService.cs:274 | trimming a merged line removes the padding, and the space after `:` when the value is empty |
| Merging.MergeLineKeepsKey | ModTranslator.BLL/Services/TranslateFiles/TranslateFilesService.cs:271-274 | a merged line holds, for the resume step, the same key as its source line |
| Merging.IndentKeepsKey | ModTranslator.BLL/Services/TranslateFiles/TranslateFilesService.cs:265 | a line behind two spaces holds the key it held |
| Merging.CommentHoldsNoKey | ModTranslator.BLL/Services/TranslateFiles/TranslateFilesService.cs:264 | the mismatch header, like any comment, holds no key |
| Merging.AgreedKeepsKeys | ModTranslator.BLL/Services/TranslateFiles/TranslateFilesService.cs:267-276 | with equal counts, each appended line holds the key of its source line |
| Merging.MismatchKeepsKeys | ModTranslator.BLL/Services/TranslateFiles/TranslateFilesService.cs:261-266 | with different counts, the header holds no key and each line after it holds the key of its reply line |
| Merging.ResumeSkipsMerged | ModTranslator.BLL/Services/TranslateFiles/TranslateFilesService.cs:79-86 | a source line whose merged line is in the output file is not translated again |
| Claiming.Claim | ModTranslator.BLL/Services/TranslateFiles/TranslateFilesService.cs:145-161 | a claim keeps the batch it started with and adds at most one line per line scanned |
| Claiming.ClaimBounds | ModTranslator.BLL/Services/TranslateFiles/TranslateFilesService.cs:145-161 | a claim takes only unprocessed lines from its start, keeps the processed set growing, and never more than `max` lines (one when `max` is not positive) |
| Claiming.ClaimCovers | ModTranslator.BLL/Services/TranslateFiles/TranslateFilesService.cs:147-159 | a free line from the start that a claim leaves out means the batch is full and every claimed line comes before it |
| Claiming.ClaimKeeps | ModTranslator.BLL/Services/TranslateFiles/TranslateFilesService.cs:147-159 | a claim keeps what the batch already holds |
| Claiming.LinesAt | ModTranslator.BLL/Services/TranslateFiles/TranslateFilesService.cs:151 | one trimmed line per claimed index, in order |
| Claiming.ClaimBatch | ModTranslator.BLL/Services/TranslateFiles/TranslateFilesService.cs:142-161 | the claim loop returns the trimmed lines, their indices and the processed set with them added, as the claim function gives |
| Claiming.Claims | ModTranslator.BLL/Services/TranslateFiles/TranslateFilesService.cs:93-96 | one claim per task, in the order the tasks take the lock |
| Claiming.ClaimsAt | ModTranslator.BLL/Services/TranslateFiles/TranslateFilesService.cs:145-161 | task `k` claims from its start with what the tasks before it took already processed |
| Claiming.ClaimsDisjoint | ModTranslator.BLL/Services/TranslateFiles/TranslateFilesService.cs:145-161 | no line is claimed by two tasks, whatever the lock order |
| Claiming.StartClaimedOnce | ModTranslator.BLL/Services/TranslateFiles/TranslateFilesService.cs:145-161 | each task's start line is claimed by that task or an earlier one, and by no two tasks |
| Claiming.ClaimSize | ModTranslator.BLL/Services/TranslateFiles/TranslateFilesService.cs:147-159 | each claim holds lines at or after its task's start, at most `max` of them |
| Translation.ReplaceDropsColon | ModTranslator.BLL/Services/TranslateFiles/TranslateFilesService.cs:310 | removing the colons of a text with a single `:` at its end gives the text before it |
| Translation.HeaderDecodes | ModTranslator.BLL/Services/TranslateFiles/TranslateFilesService.cs:308-313 | the first line `<code>:` of a file in a listed language is accepted and decodes to that code and that language's name |
| Translation.OutputNameOfMarked | ModTranslator.BLL/Services/TranslateFiles/TranslateFilesService.cs:293 | a name holding `_ToBeTranslated` once gets `_Translated` in its place, the rest kept |
| Translation.Run | ModTranslator.BLL/Services/TranslateFiles/TranslateFilesService.cs:35-118 | with the placeholder API key the run is refused with nothing changed; a run never undoes an output or clears the error flag; it succeeds only with the key set and no error flagged, and then says only that it finished |
| Translation.OutputNameOfPlain | ModTranslator.BLL/Services/TranslateFiles/TranslateFilesService.cs:293 | a name without the marker is its own output name |
| Translation.FileContent | ModTranslator.BLL/Services/TranslateFiles/TranslateFilesService.cs:321-337 | None exactly for an empty path or an unreadable file; otherwise a line is kept exactly when it is a line of the file that is not blank |
| Translation.TaskStarts | ModTranslator.BLL/Services/TranslateFiles/TranslateFilesService.cs:93-95 | the indices of the lines whose trimmed text does not start with the code, each inside the file |
| Translation.TaskStartsMembers | ModTranslator.BLL/Services/TranslateFiles/TranslateFilesService.cs:93-95 | a line starts a task exactly when its trimmed text does not start with the code |
| Translation.TaskStartsAscending | ModTranslator.BLL/Services/TranslateFiles/TranslateFilesService.cs:93-95 | the task starts are strictly ascending |
| Translation.TasksAskOnlyNonEmpty | ModTranslator.BLL/Services/TranslateFiles/TranslateFilesService.cs:163-168 | an empty claim makes no request: the tasks depend on the translator only through non-empty batches |
| Translation.TasksErrors | ModTranslator.BLL/Services/TranslateFiles/TranslateFilesService.cs:163-185 | the tasks flag or raise only when some request failed, some reply had a different line count, or some reply raised |
| Translation.FileAppend | ModTranslator.BLL/Services/TranslateFiles/TranslateFilesService.cs:98-108 | the tasks' lines come first, then one more line, the error line, exactly when a task raised, and the closing line last |
| Translation.StartsClaimedOnce | ModTranslator.BLL/Services/TranslateFiles/TranslateFilesService.cs:89-106 | every line whose trimmed text does not start with the code is sent exactly once |
| Translation.HeaderNeverClaimed | ModTranslator.BLL/Services/TranslateFiles/TranslateFilesService.cs:93-96 | a first line that starts with the code, as the header does, is claimed by no task |
| Translation.Rejection | ModTranslator.BLL/Services/TranslateFiles/TranslateFilesService.cs:44-53 | exactly the files that are not accepted end the run, and never with a success |
| Translation.FileStepStops | ModTranslator.BLL/Services/TranslateFiles/TranslateFilesService.cs:42-53 | one file stops the run exactly when it is not accepted, with its rejection |
| Translation.FileStepWorld | ModTranslator.BLL/Services/TranslateFiles/TranslateFilesService.cs:42-108 | an accepted file sets the code and the name from its header, raises the error flag when a task raised or flagged, and its output file gets the tasks' lines appended |
| Translation.FileStepGrows | ModTranslator.BLL/Services/TranslateFiles/TranslateFilesService.cs:42-108 | a file never clears the error flag and only appends to output files |
| Translation.AppendGrows | ModTranslator.BLL/Services/TranslateFiles/TranslateFilesService.cs:56-108 | appending to an output file as found, or to a new one, undoes nothing |
| Translation.FileStepAppends | ModTranslator.BLL/Services/TranslateFiles/TranslateFilesService.cs:55-108 | an accepted file changes only its own output file, which starts with the header when it was absent and ends with the closing line |
| Translation.AppendShape | ModTranslator.BLL/Services/TranslateFiles/TranslateFilesService.cs:98-108 | the output file after a file is the file as found followed by the tasks' lines, the error line and the closing line |
| Translation.FilesFromMeaning | ModTranslator.BLL/Services/TranslateFiles/TranslateFilesService.cs:42-109 | the run stops at the first file that is not accepted, with its rejection, after every earlier file was handled; it never undoes anything |
| Translation.RunOutcome | ModTranslator.BLL/Services/TranslateFiles/TranslateFilesService.cs:35-118 | a run is refused with the placeholder key, stops at the first rejected file, or ends with the verdict of the error flag; it never undoes anything |
| Translation.RunSucceedsIff | ModTranslator.BLL/Services/TranslateFiles/TranslateFilesService.cs:35-118 | a run succeeds exactly when the key is set, every file is accepted and no error was flagged; it then reports `Translation finished.` alone |
| Translation.ErrorsStick | ModTranslator.BLL/Services/TranslateFiles/TranslateFilesService.cs:18 | once a run flagged an error, every later run of the same service fails |
| TranslationService.TranslateFilesService.constructor | ModTranslator.BLL/Services/TranslateFiles/TranslateFilesService.cs:16-27 | the settings are kept, the code and name are "" and no error is flagged |
| TranslationService.TranslateFilesService.SetLanguageCode | ModTranslator.BLL/Services/TranslateFiles/TranslateFilesService.cs:308-313 | the code is the first line without colons and the name is its language; accepted exactly when the code is listed |
| TranslationService.TranslateFilesService.GetTranslationFromApi | ModTranslator.BLL/Services/TranslateFiles/TranslateFilesService.cs:199-231 | a failed request gives None and flags an error; an empty reply gives None; a reply gives its text; nothing else changes |
| TranslationService.TranslateFilesService.ProcessTranslation | ModTranslator.BLL/Services/TranslateFiles/TranslateFilesService.cs:255-279 | the result is the merge of the batch with the reply, and the flag is raised exactly when the counts differ |
| TranslationService.TranslateFilesService.ProcessTranslationGroup | ModTranslator.BLL/Services/TranslateFiles/TranslateFilesService.cs:131-191 | one task claims its batch and appends exactly what the task outcome of that claim gives, raising and flagging as it does |
| TranslationService.TranslateFilesService.RunTasks | ModTranslator.BLL/Services/TranslateFiles/TranslateFilesService.cs:93-106 | the tasks in lock order append exactly what the tasks of their claims give |
| TranslationService.TranslateFilesService.TranslateFile | ModTranslator.BLL/Services/TranslateFiles/TranslateFilesService.cs:42-109 | one pass of the file loop does exactly the file step of the run specification |
| TranslationService.TranslateFilesService.WriteOutput | ModTranslator.BLL/Services/TranslateFiles/TranslateFilesService.cs:55-108 | the output file becomes the file as found followed by what the tasks append, and the error flag rises with them |
| TranslationService.TranslateFilesService.TranslateFiles | ModTranslator.BLL/Services/TranslateFiles/TranslateFilesService.cs:35-118 | the result and the new state are exactly those of the run specification |

## Left out

- The Windows Forms front end, dependency injection and the settings file are not modelled. The settings enter as constructor arguments.
- Concurrency is not modelled. The semaphore that bounds concurrent requests, `Task.WhenAll` and the timeouts do not appear. A lock section is one atomic step, and tasks take the lock in the order given by the `arrange` parameter. A task's append is modelled as following its claim in that order, but the source may append in a different order than it claims.
- HTTP and JSON are not modelled. The request, the system prompt, the bearer token and the parsing of the reply become the function parameter `translator`. It receives the language name and the newline-joined batch, and gives a request failure, an empty reply or a text.
- File I/O is not modelled. Files are sequences of lines. The byte-order mark, line endings, directory creation and `Path.Combine` are left out, and file names and names without extension are given as inputs.
- The .NET regular-expression engine is not modelled. `\w` (`Validation.IsWordChar`) covers ASCII letters, digits and `_`; `ª`, `µ`, `º` and the Latin-1 and Latin Extended-A and -B letters (U+00C0 to U+024F without `×` and `÷`); Greek (U+0370 to U+03FF without its punctuation and signs); Cyrillic and Cyrillic Supplement (U+0400 to U+052F without U+0482, U+0488 and U+0489); Hangul Jamo (U+1100 to U+11FF); hiragana and katakana (U+3041 to U+30FF without U+309B, U+309C, U+30A0 and U+30FB); Hangul compatibility jamo (U+3131 to U+318E); CJK Extension A (U+3400 to U+4DBF); CJK Unified Ideographs (U+4E00 to U+9FFF) and Hangul syllables (U+AC00 to U+D7A3). Unassigned code points inside these ranges count as word characters. The letters, marks, digits and connector punctuation of every other script (Arabic, Thai, Devanagari, full-width forms, the other CJK extensions, and so on) are missed. `\d` is the ASCII digits. `\p{IsCJKUnifiedIdeographs}` is the block U+4E00 to U+9FFF.
- LineParser.ParseLine, Validation.LoadLine and Translation.TaskStarts: the header and task-start prefix tests are ordinal; .NET's `string.StartsWith(string)` is culture-sensitive, so it can match a prefix that differs in ignorable characters.
- DeltaGeneration.OrderByKey: `OrderBy` on string keys uses the current culture; the model sorts by ordinal character order.
- Dictionaries enumerate in insertion order, which .NET's `Dictionary` does when nothing is removed. The validator's comparison follows that order.
- Exception messages are not modelled. An exception in a task is the fixed line `#Error in translation tasks: Index was outside the bounds of the array.` Reading the first line of a file with no lines ends the run as `Threw`.
- Console logging of failed requests and unreadable files is left out.
- A reading failure of the generator or the validator (an exception out of `File.ReadAllLinesAsync`) is not modelled; their files are given as readable lines.
- The translator's result messages are modelled as a `Message` value with `MessageText` giving the source's text.
