/**
 * The validator: for every source-language file with a target-language
 * counterpart, each source entry is compared with the counterpart's entry of
 * the same key. The placeholders `$key$`, the functions `[Name]` and the
 * icons `£icon£` of the two values are compared as sets, CJK text in a
 * non-Chinese translation is flagged, and a block of lines is logged for
 * every key with a difference.
 */
module Validation {
  import opened Wrappers
  import opened Text
  import opened Languages
  import opened LineParser
  import opened FileNames

  /* ---------- Reading a file ---------- */

  /** The comment test of the validator: `line.TrimStart().StartsWith('#')`. */
  predicate IsCommentAtStart(line: string) {
    TrimStart(line) != [] && TrimStart(line)[0] == '#'
  }

  /** The entry one line contributes, following the validator's loop body. */
  function LoadLine(line: string, originalCode: string, newCode: string): Option<Entry> {
    if IsBlank(line) || IsCommentAtStart(line) then None
    else if StartsWith(line, originalCode) || StartsWith(line, newCode) then None
    else
      var separatorIndex := IndexOf(line, ':');
      if separatorIndex == -1 then None
      else Some((Trim(line[..separatorIndex]), ParseValue(Trim(line[separatorIndex + 1..]))))
  }

  /** Testing the start of `TrimStart` or of `Trim` for '#' is the same test
      once blank lines are set aside. */
  lemma CommentTestsAgree(line: string)
    ensures IsBlank(line) || IsCommentAtStart(line) <==> IsBlank(line) || IsComment(line)
  {
    var front := TrimStart(line);
    TrimStartByShape(line, IsWhiteSpace);
    if front == [] {
      assert IsBlank(line);
    } else {
      var whole := TrimEndBy(front, IsWhiteSpace);
      TrimEndByShape(front, IsWhiteSpace);
      assert !IsWhiteSpace(front[0]);
      assert whole[0] == front[0];
    }
  }

  /** The validator reads a line exactly as the generator does. */
  lemma SameLineRule(line: string, originalCode: string, newCode: string)
    ensures LoadLine(line, originalCode, newCode) == ParseLine(line, originalCode, newCode)
  {
    CommentTestsAgree(line);
  }

  /** Adds the key of an entry at the end of the enumeration order, unless it
      is already there: overwriting a `Dictionary` entry keeps its place. */
  function AddKey(order: seq<string>, entry: Option<Entry>): seq<string> {
    match entry
    case None => order
    case Some(e) => if e.0 in order then order else order + [e.0]
  }

  /** The enumeration order of the dictionary of a file: its keys in the order
      of their first line. */
  function KeyOrder(lines: seq<string>, originalCode: string, newCode: string): seq<string>
    decreases |lines|
  {
    if lines == [] then []
    else AddKey(KeyOrder(lines[..|lines| - 1], originalCode, newCode), ParseLine(lines[|lines| - 1], originalCode, newCode))
  }

  /** No key twice. */
  predicate NoRepeats(xs: seq<string>) {
    forall i, j :: 0 <= i < j < |xs| ==> xs[i] != xs[j]
  }

  /** The enumeration order lists every key of the dictionary once. */
  lemma {:induction false} KeyOrderLists(lines: seq<string>, originalCode: string, newCode: string)
    ensures NoRepeats(KeyOrder(lines, originalCode, newCode))
    ensures forall k :: k in KeyOrder(lines, originalCode, newCode) <==> k in ParseLines(lines, originalCode, newCode)
    decreases |lines|
  {
    if lines != [] {
      KeyOrderLists(lines[..|lines| - 1], originalCode, newCode);
    }
  }

  /** `LoadFileDictionary`, on the lines of the file: the dictionary and the
      order in which it enumerates its keys. */
  method LoadFileDictionary(lines: seq<string>, originalCode: string, newCode: string)
    returns (dictionary: map<string, string>, order: seq<string>)
    ensures dictionary == ParseLines(lines, originalCode, newCode)
    ensures order == KeyOrder(lines, originalCode, newCode)
    ensures NoRepeats(order) && forall k :: k in order <==> k in dictionary
  {
    dictionary := map[];
    order := [];
    var i := 0;
    while i < |lines|
      invariant 0 <= i <= |lines|
      invariant dictionary == ParseLines(lines[..i], originalCode, newCode)
      invariant order == KeyOrder(lines[..i], originalCode, newCode)
    {
      assert lines[..i + 1][..i] == lines[..i];
      var line := lines[i];
      SameLineRule(line, originalCode, newCode);
      var entry := LoadLine(line, originalCode, newCode);
      if entry.Some? {
        var (key, value) := entry.value;
        if key !in order {
          order := order + [key];
        }
        dictionary := dictionary[key := value];
      }
      i := i + 1;
    }
    assert lines[..|lines|] == lines;
    KeyOrderLists(lines, originalCode, newCode);
  }

  /* ---------- Token scanners ---------- */

  /** The regex class `\w` (letters, non-spacing marks, decimal digits and
      connector punctuation), over the scripts of the listed languages: ASCII
      letters, digits and '_', Latin-1 and Latin Extended-A and -B letters,
      Greek, Cyrillic and Cyrillic Supplement, Hangul Jamo, hiragana and
      katakana, Hangul compatibility jamo, CJK Extension A, CJK Unified
      Ideographs and Hangul syllables. */
  predicate IsWordChar(c: char) {
    ('a' <= c <= 'z') || ('A' <= c <= 'Z') || ('0' <= c <= '9') || c == '_'
    || c == '\U{00AA}' || c == '\U{00B5}' || c == '\U{00BA}'
    || ('\U{00C0}' <= c <= '\U{024F}' && c != '\U{00D7}' && c != '\U{00F7}')
    || ('\U{0370}' <= c <= '\U{03FF}' && c != '\U{0374}' && c != '\U{0375}' && c != '\U{037E}'
        && c != '\U{0384}' && c != '\U{0385}' && c != '\U{0387}' && c != '\U{03F6}')
    || ('\U{0400}' <= c <= '\U{052F}' && c != '\U{0482}' && c != '\U{0488}' && c != '\U{0489}')
    || ('\U{1100}' <= c <= '\U{11FF}')
    || ('\U{3041}' <= c <= '\U{309F}' && c != '\U{309B}' && c != '\U{309C}')
    || ('\U{30A1}' <= c <= '\U{30FF}' && c != '\U{30FB}')
    || ('\U{3131}' <= c <= '\U{318E}')
    || ('\U{3400}' <= c <= '\U{4DBF}')
    || ('\U{4E00}' <= c <= '\U{9FFF}')
    || ('\U{AC00}' <= c <= '\U{D7A3}')
  }

  /** The end of the run of word characters that starts at `j`. */
  function WordEnd(s: string, j: nat): (r: nat)
    requires j <= |s|
    ensures j <= r <= |s|
    ensures forall k :: j <= k < r ==> IsWordChar(s[k])
    ensures r == |s| || !IsWordChar(s[r])
    decreases |s| - j
  {
    if j < |s| && IsWordChar(s[j]) then WordEnd(s, j + 1) else j
  }

  /** A token pattern `<open>(\w+)<close>`; an isolated one also demands that
      no `open` precede the token and no `close` follow it. */
  datatype Pattern = Pattern(open: char, close: char, isolated: bool)

  /** `(?<!\$)\$(\w+)\$(?!\$)` */
  const KeysPattern := Pattern('$', '$', true)
  /** `\[(\w+)\]` */
  const FunctionsPattern := Pattern('[', ']', false)
  /** `£(\w+)£` */
  const IconsPattern := Pattern('£', '£', false)

  /** Where the closing delimiter is when a match of `p` starts at `i`. As
      delimiters are not word characters, the greedy `\w+` never needs to
      give a character back. */
  function MatchAt(s: string, i: nat, p: Pattern): (r: Option<nat>)
    requires i <= |s|
    ensures r.Some? ==> i + 1 < r.value < |s|
  {
    if i < |s| && s[i] == p.open && (!p.isolated || i == 0 || s[i - 1] != p.open) then
      var j := WordEnd(s, i + 1);
      if j > i + 1 && j < |s| && s[j] == p.close && (!p.isolated || j + 1 == |s| || s[j + 1] != p.close)
      then Some(j)
      else None
    else None
  }

  /** `Regex.Matches` from position `i`: the match texts, left to right, each
      search resuming after the previous match. */
  function Matches(s: string, p: Pattern, i: nat): seq<string>
    requires i <= |s|
    decreases |s| - i
  {
    if i == |s| then []
    else match MatchAt(s, i, p)
      case Some(j) => [s[i..j + 1]] + Matches(s, p, j + 1)
      case None => Matches(s, p, i + 1)
  }

  /** A token of `p`: its delimiters around a non-empty run of word characters. */
  predicate IsToken(t: string, p: Pattern) {
    |t| >= 3 && t[0] == p.open && t[|t| - 1] == p.close
    && forall k :: 1 <= k < |t| - 1 ==> IsWordChar(t[k])
  }

  /** Every match is a token of the pattern. */
  lemma {:induction false} MatchesAreTokens(s: string, p: Pattern, i: nat)
    requires i <= |s|
    ensures forall t :: t in Matches(s, p, i) ==> IsToken(t, p)
    decreases |s| - i
  {
    if i < |s| {
      match MatchAt(s, i, p)
      case Some(j) =>
        MatchesAreTokens(s, p, j + 1);
        var t := s[i..j + 1];
        assert forall k :: 1 <= k < |t| - 1 ==> t[k] == s[i + k];
      case None =>
        MatchesAreTokens(s, p, i + 1);
    }
  }

  /** A text without the opening delimiter has no match. */
  lemma {:induction false} NoOpenNoMatch(s: string, p: Pattern, i: nat)
    requires i <= |s| && p.open !in s
    ensures Matches(s, p, i) == []
    decreases |s| - i
  {
    if i < |s| {
      NoOpenNoMatch(s, p, i + 1);
    }
  }

  /** The order-keeping set of a sequence: a `HashSet` filled in order and
      enumerated in insertion order. */
  function Distinct(xs: seq<string>): seq<string>
    decreases |xs|
  {
    if xs == [] then []
    else
      var front := Distinct(xs[..|xs| - 1]);
      if xs[|xs| - 1] in front then front else front + [xs[|xs| - 1]]
  }

  lemma {:induction false} DistinctShape(xs: seq<string>)
    ensures NoRepeats(Distinct(xs))
    ensures forall x :: x in Distinct(xs) <==> x in xs
    decreases |xs|
  {
    if xs != [] {
      var front := xs[..|xs| - 1];
      DistinctShape(front);
      assert forall x :: x in xs <==> x in front || x == xs[|xs| - 1];
    }
  }

  /** Each match trimmed, as `m.Value.Trim()`. */
  function TrimAll(xs: seq<string>): (r: seq<string>)
    ensures |r| == |xs|
  {
    if xs == [] then [] else [Trim(xs[0])] + TrimAll(xs[1..])
  }

  /** Trimming tokens changes none of them. */
  lemma {:induction false} TrimAllTokens(xs: seq<string>, p: Pattern)
    requires !IsWhiteSpace(p.open) && !IsWhiteSpace(p.close)
    requires forall t :: t in xs ==> IsToken(t, p)
    ensures TrimAll(xs) == xs
  {
    if xs != [] {
      assert xs[0] in xs;
      TokenTrimmed(xs[0], p);
      assert forall t :: t in xs[1..] ==> t in xs;
      TrimAllTokens(xs[1..], p);
    }
  }

  /** The tokens of a value for one pattern, as a set in order of first occurrence. */
  function Tokens(value: string, p: Pattern): seq<string> {
    Distinct(TrimAll(Matches(value, p, 0)))
  }

  /** `ExtractKeys`: the distinct match texts of the pattern, delimiters
      included. */
  function ExtractKeys(value: string): (tokens: seq<string>)
    ensures NoRepeats(tokens)
    ensures forall t :: t in tokens <==> t in Matches(value, KeysPattern, 0)
    ensures forall t :: t in tokens ==> IsToken(t, KeysPattern)
  {
    TokensAreMatches(value, KeysPattern);
    Tokens(value, KeysPattern)
  }

  /** `ExtractFunctions`: the distinct match texts of the pattern, delimiters
      included. */
  function ExtractFunctions(value: string): (tokens: seq<string>)
    ensures NoRepeats(tokens)
    ensures forall t :: t in tokens <==> t in Matches(value, FunctionsPattern, 0)
    ensures forall t :: t in tokens ==> IsToken(t, FunctionsPattern)
  {
    TokensAreMatches(value, FunctionsPattern);
    Tokens(value, FunctionsPattern)
  }

  /** `ExtractIcons`: the distinct match texts of the pattern, delimiters
      included. */
  function ExtractIcons(value: string): (tokens: seq<string>)
    ensures NoRepeats(tokens)
    ensures forall t :: t in tokens <==> t in Matches(value, IconsPattern, 0)
    ensures forall t :: t in tokens ==> IsToken(t, IconsPattern)
  {
    TokensAreMatches(value, IconsPattern);
    Tokens(value, IconsPattern)
  }

  /** Trimming a token changes nothing: its delimiters are not white space. */
  lemma TokenTrimmed(t: string, p: Pattern)
    requires IsToken(t, p) && !IsWhiteSpace(p.open) && !IsWhiteSpace(p.close)
    ensures Trim(t) == t
  {
    assert TrimStart(t) == t;
    TrimEndByKept(t, IsWhiteSpace);
  }

  /** The extracted tokens are distinct, and are exactly the match texts,
      delimiters included. */
  lemma TokensAreMatches(value: string, p: Pattern)
    requires !IsWhiteSpace(p.open) && !IsWhiteSpace(p.close)
    ensures NoRepeats(Tokens(value, p))
    ensures forall t :: t in Tokens(value, p) <==> t in Matches(value, p, 0)
    ensures forall t :: t in Tokens(value, p) ==> IsToken(t, p)
  {
    var ms := Matches(value, p, 0);
    MatchesAreTokens(value, p, 0);
    TrimAllTokens(ms, p);
    DistinctShape(ms);
  }

  /** A lone token is found whole: `[Name]`, `£icon£`, or `$key$`. */
  lemma {:induction false} LoneToken(p: Pattern, word: string)
    requires word != [] && forall k :: 0 <= k < |word| ==> IsWordChar(word[k])
    requires !IsWordChar(p.close)
    ensures Matches([p.open] + word + [p.close], p, 0) == [[p.open] + word + [p.close]]
  {
    var s := [p.open] + word + [p.close];
    var j := WordEnd(s, 1);
    assert forall k :: 1 <= k < |s| - 1 ==> IsWordChar(s[k]) by {
      forall k | 1 <= k < |s| - 1 ensures IsWordChar(s[k]) { assert s[k] == word[k - 1]; }
    }
    assert s[0] == p.open && s[|s| - 1] == p.close;
    assert j == |s| - 1;
    assert MatchAt(s, 0, p) == Some(|s| - 1);
    assert s[0..|s|] == s;
  }

  /** `[Root.GetName]` yields no function: a dot is not a word character. */
  lemma DottedFunctionIgnored()
    ensures ExtractFunctions("[Root.GetName]") == []
  {
    var s := "[Root.GetName]";
    assert MatchAt(s, 0, FunctionsPattern).None? by {
      assert WordEnd(s, 1) == 5 by {
        assert forall k :: 1 <= k < 5 ==> IsWordChar(s[k]);
        assert !IsWordChar(s[5]);
      }
    }
    forall i | 1 <= i <= |s| ensures Matches(s, FunctionsPattern, i) == [] {
      NoOpenFrom(s, FunctionsPattern, i);
    }
  }

  /** No match starts where there is no opening delimiter. */
  lemma {:induction false} NoOpenFrom(s: string, p: Pattern, i: nat)
    requires i <= |s| && forall k :: i <= k < |s| ==> s[k] != p.open
    ensures Matches(s, p, i) == []
    decreases |s| - i
  {
    if i < |s| {
      NoOpenFrom(s, p, i + 1);
    }
  }

  /** `$$key$$` holds no placeholder: a `$` may not touch the token. */
  lemma DoubledDollarsIgnored()
    ensures ExtractKeys("$$a$$") == []
  {
    var s := "$$a$$";
    assert MatchAt(s, 0, KeysPattern).None? by { assert WordEnd(s, 1) == 1; }
    assert MatchAt(s, 1, KeysPattern).None?;
    assert MatchAt(s, 2, KeysPattern).None?;
    assert MatchAt(s, 3, KeysPattern).None? by { assert WordEnd(s, 4) == 4; }
    assert MatchAt(s, 4, KeysPattern).None? by { assert WordEnd(s, 5) == 5; }
  }

  /* ---------- Comparing two values ---------- */

  /** `a.Except(b)` on a sequence without repeats: the elements of `a` not in
      `b`, in their order. */
  function Except(a: seq<string>, b: seq<string>): seq<string>
    decreases |a|
  {
    if a == [] then []
    else (if a[0] in b then [] else [a[0]]) + Except(a[1..], b)
  }

  lemma {:induction false} ExceptMembers(a: seq<string>, b: seq<string>)
    ensures forall t :: t in Except(a, b) <==> t in a && t !in b
    decreases |a|
  {
    if a != [] {
      ExceptMembers(a[1..], b);
      assert forall t :: t in a <==> t == a[0] || t in a[1..];
    }
  }

  /** `IsChinese`: the block CJK Unified Ideographs, U+4E00 to U+9FFF. Such
      a character is a word character, so it never ends a `$key$` name early. */
  function IsChinese(c: char): (chinese: bool)
    ensures chinese ==> IsWordChar(c) && !IsWhiteSpace(c)
  {
    '\U{4E00}' <= c <= '\U{9FFF}'
  }

  /** `value.Any(IsChinese)` */
  predicate HasChinese(value: string) {
    exists i :: 0 <= i < |value| && IsChinese(value[i])
  }

  /** What the comparison of one source value with its translation finds. */
  datatype Comparison = Comparison(
    missingKeys: seq<string>, extraKeys: seq<string>,
    missingFunctions: seq<string>, extraFunctions: seq<string>,
    missingIcons: seq<string>, extraIcons: seq<string>,
    chineseFound: bool)

  /** The comparison `CompareDictionaries` makes for one key: each finding is
      the set difference of the token sets of its category, and the CJK flag
      is set exactly for CJK text in a translation that is not Simplified
      Chinese. */
  function Compare(originalValue: string, newValue: string, newLanguageCode: string): (c: Comparison)
    ensures forall t :: t in c.missingKeys <==> t in ExtractKeys(originalValue) && t !in ExtractKeys(newValue)
    ensures forall t :: t in c.extraKeys <==> t in ExtractKeys(newValue) && t !in ExtractKeys(originalValue)
    ensures forall t :: t in c.missingFunctions <==> t in ExtractFunctions(originalValue) && t !in ExtractFunctions(newValue)
    ensures forall t :: t in c.extraFunctions <==> t in ExtractFunctions(newValue) && t !in ExtractFunctions(originalValue)
    ensures forall t :: t in c.missingIcons <==> t in ExtractIcons(originalValue) && t !in ExtractIcons(newValue)
    ensures forall t :: t in c.extraIcons <==> t in ExtractIcons(newValue) && t !in ExtractIcons(originalValue)
    ensures c.chineseFound <==> HasChinese(newValue) && newLanguageCode != SimplifiedChineseCode
  {
    var originalKeys := ExtractKeys(originalValue);
    var newKeys := ExtractKeys(newValue);
    var originalFunctions := ExtractFunctions(originalValue);
    var newFunctions := ExtractFunctions(newValue);
    var originalIcons := ExtractIcons(originalValue);
    var newIcons := ExtractIcons(newValue);
    ExceptMembers(originalKeys, newKeys);
    ExceptMembers(newKeys, originalKeys);
    ExceptMembers(originalFunctions, newFunctions);
    ExceptMembers(newFunctions, originalFunctions);
    ExceptMembers(originalIcons, newIcons);
    ExceptMembers(newIcons, originalIcons);
    Comparison(
      Except(originalKeys, newKeys), Except(newKeys, originalKeys),
      Except(originalFunctions, newFunctions), Except(newFunctions, originalFunctions),
      Except(originalIcons, newIcons), Except(newIcons, originalIcons),
      HasChinese(newValue) && newLanguageCode != SimplifiedChineseCode)
  }

  /** Whether a block is logged for the key. */
  predicate HasDifference(c: Comparison) {
    c.missingKeys != [] || c.extraKeys != [] || c.missingFunctions != [] || c.extraFunctions != []
    || c.missingIcons != [] || c.extraIcons != [] || c.chineseFound
  }

  /** A value compared with itself differs only by CJK text. */
  lemma {:induction false} SameValueOnlyChinese(value: string, newLanguageCode: string)
    ensures HasDifference(Compare(value, value, newLanguageCode))
      <==> HasChinese(value) && newLanguageCode != SimplifiedChineseCode
  {
    var c := Compare(value, value, newLanguageCode);
    EmptyWhenNoMember(c.missingKeys);
    EmptyWhenNoMember(c.extraKeys);
    EmptyWhenNoMember(c.missingFunctions);
    EmptyWhenNoMember(c.extraFunctions);
    EmptyWhenNoMember(c.missingIcons);
    EmptyWhenNoMember(c.extraIcons);
  }

  lemma EmptyWhenNoMember<T>(xs: seq<T>)
    ensures (forall t :: t !in xs) ==> xs == []
  {
    if xs != [] { assert xs[0] in xs; }
  }

  /** The empty string holds no token of any pattern. */
  lemma NoTokensInEmpty(p: Pattern)
    ensures Tokens("", p) == []
  {
  }

  /** A key missing from the translation is compared with "": it is logged
      exactly when its source value holds some placeholder, function or icon. */
  lemma {:induction false} AbsentKeyReported(originalValue: string, newLanguageCode: string)
    ensures HasDifference(Compare(originalValue, "", newLanguageCode))
      <==> ExtractKeys(originalValue) != [] || ExtractFunctions(originalValue) != [] || ExtractIcons(originalValue) != []
  {
    NoTokensInEmpty(KeysPattern);
    NoTokensInEmpty(FunctionsPattern);
    NoTokensInEmpty(IconsPattern);
    ExceptNothing(ExtractKeys(originalValue));
    ExceptNothing(ExtractFunctions(originalValue));
    ExceptNothing(ExtractIcons(originalValue));
  }

  lemma {:induction false} ExceptNothing(a: seq<string>)
    ensures Except(a, []) == a
    decreases |a|
  {
    if a != [] {
      ExceptNothing(a[1..]);
    }
  }

  /* ---------- The report ---------- */

  /** The six token findings, in the order they are logged. */
  datatype FindingKind =
    MissingKeys | ExtraKeys | MissingFunctions | ExtraFunctions | MissingIcons | ExtraIcons

  /** One line appended to the report, before it is rendered as text. */
  datatype ReportLine =
    | Header(key: string)
    | Finding(kind: FindingKind, items: seq<string>)
    | ChineseNotice
    | OriginalValue(value: string)
    | NewValue(value: string)
    | Blank

  function Caption(kind: FindingKind): string {
    match kind
    case MissingKeys => " # Missing keys in new: "
    case ExtraKeys => " # Extra keys in new: "
    case MissingFunctions => " # Missing functions in new: "
    case ExtraFunctions => " # Extra functions in new: "
    case MissingIcons => " # Missing icons in new: "
    case ExtraIcons => " # Extra icons in new: "
  }

  /** The text of a report line, as `AppendLine` writes it (without the line break). */
  function Render(line: ReportLine): string {
    match line
    case Header(key) => "Difference found in key: " + key
    case Finding(kind, items) => Caption(kind) + Join(items, ", ")
    case ChineseNotice => " # Chinese characters found in the translation"
    case OriginalValue(value) => " # Original value: " + value
    case NewValue(value) => " # New value: " + value
    case Blank => ""
  }

  /** The text of a sequence of report lines. */
  function RenderAll(lines: seq<ReportLine>): (text: seq<string>)
    ensures |text| == |lines|
  {
    seq(|lines|, i requires 0 <= i < |lines| => Render(lines[i]))
  }

  lemma RenderAppend(a: seq<ReportLine>, b: seq<ReportLine>)
    ensures RenderAll(a + b) == RenderAll(a) + RenderAll(b)
  {
  }

  /** The items of one kind, logged only when there are some. */
  function FindingLine(kind: FindingKind, items: seq<string>): seq<ReportLine> {
    if items == [] then [] else [Finding(kind, items)]
  }

  /** The items of each kind of a comparison, as they are logged. */
  function ItemsOf(c: Comparison, kind: FindingKind): seq<string> {
    match kind
    case MissingKeys => c.missingKeys
    case ExtraKeys => c.extraKeys
    case MissingFunctions => c.missingFunctions
    case ExtraFunctions => c.extraFunctions
    case MissingIcons => c.missingIcons
    case ExtraIcons => c.extraIcons
  }

  /** The finding lines of a comparison, in the order they are logged. */
  function Findings(c: Comparison): seq<ReportLine> {
    FindingLine(MissingKeys, c.missingKeys)
    + FindingLine(ExtraKeys, c.extraKeys)
    + FindingLine(MissingFunctions, c.missingFunctions)
    + FindingLine(ExtraFunctions, c.extraFunctions)
    + FindingLine(MissingIcons, c.missingIcons)
    + FindingLine(ExtraIcons, c.extraIcons)
    + (if c.chineseFound then [ChineseNotice] else [])
  }

  lemma FindingLineHas(kind: FindingKind, items: seq<string>, line: ReportLine)
    ensures line in FindingLine(kind, items) <==> items != [] && line == Finding(kind, items)
  {
  }

  /** Whether `line` is one of the finding lines of `c`: a finding of some
      kind with that kind's items, none of them empty, or the CJK notice. */
  predicate Listed(c: Comparison, line: ReportLine) {
    match line
    case Finding(kind, items) => items != [] && items == ItemsOf(c, kind)
    case ChineseNotice => c.chineseFound
    case _ => false
  }

  lemma FindingsMember(c: Comparison, line: ReportLine)
    ensures line in Findings(c) <==> Listed(c, line)
  {
    var notice: seq<ReportLine> := if c.chineseFound then [ChineseNotice] else [];
    var parts := [FindingLine(MissingKeys, c.missingKeys), FindingLine(ExtraKeys, c.extraKeys),
                  FindingLine(MissingFunctions, c.missingFunctions), FindingLine(ExtraFunctions, c.extraFunctions),
                  FindingLine(MissingIcons, c.missingIcons), FindingLine(ExtraIcons, c.extraIcons)];
    assert Findings(c) == parts[0] + parts[1] + parts[2] + parts[3] + parts[4] + parts[5] + notice;
    match line
    case Finding(kind, items) =>
      FindingLineHas(MissingKeys, c.missingKeys, line);
      FindingLineHas(ExtraKeys, c.extraKeys, line);
      FindingLineHas(MissingFunctions, c.missingFunctions, line);
      FindingLineHas(ExtraFunctions, c.extraFunctions, line);
      FindingLineHas(MissingIcons, c.missingIcons, line);
      FindingLineHas(ExtraIcons, c.extraIcons, line);
    case _ =>
      forall j | 0 <= j < 6 ensures line !in parts[j] { }
  }

  lemma FindingsMembers(c: Comparison)
    ensures forall line :: line in Findings(c) <==> Listed(c, line)
  {
    forall line
      ensures line in Findings(c) <==> Listed(c, line)
    {
      FindingsMember(c, line);
    }
  }

  /** Only non-empty findings are listed, each with its own items, and every
      non-empty finding is listed; the CJK notice appears exactly when flagged. */
  lemma FindingsListed(c: Comparison)
    ensures forall line :: line in Findings(c) ==> line.Finding? || line.ChineseNotice?
    ensures forall kind, items :: Finding(kind, items) in Findings(c) <==> items != [] && items == ItemsOf(c, kind)
    ensures ChineseNotice in Findings(c) <==> c.chineseFound
    ensures Findings(c) == [] <==> !HasDifference(c)
  {
    FindingsMembers(c);
    EmptyWhenNoMember(Findings(c));
    if HasDifference(c) {
      if c.missingKeys != [] { assert Listed(c, Finding(MissingKeys, c.missingKeys)); }
      else if c.extraKeys != [] { assert Listed(c, Finding(ExtraKeys, c.extraKeys)); }
      else if c.missingFunctions != [] { assert Listed(c, Finding(MissingFunctions, c.missingFunctions)); }
      else if c.extraFunctions != [] { assert Listed(c, Finding(ExtraFunctions, c.extraFunctions)); }
      else if c.missingIcons != [] { assert Listed(c, Finding(MissingIcons, c.missingIcons)); }
      else if c.extraIcons != [] { assert Listed(c, Finding(ExtraIcons, c.extraIcons)); }
      else { assert Listed(c, ChineseNotice); }
    }
  }

  /** One key of the source dictionary with both of its values and how they compare. */
  datatype Check = Check(key: string, originalValue: string, newValue: string, comparison: Comparison)

  /** The lines logged for one key, or none when nothing differs. */
  function Block(check: Check): seq<ReportLine> {
    if !HasDifference(check.comparison) then []
    else
      [Header(check.key)] + Findings(check.comparison)
      + [OriginalValue(check.originalValue), NewValue(check.newValue), Blank]
  }

  /** A block is logged exactly when something differs. It opens with the key,
      lists the findings and closes with both values and an empty line. */
  lemma BlockShape(check: Check)
    ensures var b := Block(check);
      && (b == [] <==> !HasDifference(check.comparison))
      && (b != [] ==>
        && |b| >= 4 && b[0] == Header(check.key)
        && b[1..|b| - 3] == Findings(check.comparison)
        && b[|b| - 3..] == [OriginalValue(check.originalValue), NewValue(check.newValue), Blank])
  {
    if HasDifference(check.comparison) {
      var b := Block(check);
      assert b[1..|b| - 3] == Findings(check.comparison);
    }
  }

  /** The only header in a block names its own key. */
  lemma BlockHeader(check: Check, key: string)
    requires Header(key) in Block(check)
    ensures key == check.key && HasDifference(check.comparison)
  {
    FindingsListed(check.comparison);
  }

  /** `TryGetValue(key, out val) ? val : string.Empty` */
  function ValueOrEmpty(dict: map<string, string>, key: string): string {
    if key in dict then dict[key] else ""
  }

  /** The comparison made for each key of the source dictionary, in its
      enumeration order: key `i` is compared with its counterpart in the
      translation, or with the empty string when the translation lacks it. */
  function Checks(order: seq<string>, originalDict: map<string, string>, newDict: map<string, string>,
                  newLanguageCode: string): (checks: seq<Check>)
    ensures |checks| == |order|
  {
    seq(|order|, i requires 0 <= i < |order| =>
      Check(order[i], ValueOrEmpty(originalDict, order[i]), ValueOrEmpty(newDict, order[i]),
            Compare(ValueOrEmpty(originalDict, order[i]), ValueOrEmpty(newDict, order[i]), newLanguageCode)))
  }

  /** The blocks of the first `n` keys, one after the other. */
  function Concat(blocks: seq<seq<ReportLine>>, n: nat): seq<ReportLine>
    requires n <= |blocks|
  {
    if n == 0 then [] else Concat(blocks, n - 1) + blocks[n - 1]
  }

  lemma {:induction false} ConcatEmptyIff(blocks: seq<seq<ReportLine>>, n: nat)
    requires n <= |blocks|
    ensures Concat(blocks, n) == [] <==> forall i :: 0 <= i < n ==> blocks[i] == []
  {
    if n > 0 {
      ConcatEmptyIff(blocks, n - 1);
    }
  }

  lemma {:induction false} ConcatMember(blocks: seq<seq<ReportLine>>, n: nat, line: ReportLine)
    requires n <= |blocks|
    requires line in Concat(blocks, n)
    ensures exists i :: 0 <= i < n && line in blocks[i]
  {
    if n > 0 && line !in blocks[n - 1] {
      ConcatMember(blocks, n - 1, line);
    }
  }

  lemma {:induction false} ConcatCovers(blocks: seq<seq<ReportLine>>, n: nat, j: nat, line: ReportLine)
    requires j < n <= |blocks|
    requires line in blocks[j]
    ensures line in Concat(blocks, n)
  {
    if j < n - 1 {
      ConcatCovers(blocks, n - 1, j, line);
    }
  }

  /** The block of each check. */
  function Blocks(checks: seq<Check>): (blocks: seq<seq<ReportLine>>)
    ensures |blocks| == |checks|
  {
    if checks == [] then [] else Blocks(checks[..|checks| - 1]) + [Block(checks[|checks| - 1])]
  }

  lemma {:induction false} BlocksAt(checks: seq<Check>, i: nat)
    requires i < |checks|
    ensures Blocks(checks)[i] == Block(checks[i])
  {
    if i < |checks| - 1 {
      BlocksAt(checks[..|checks| - 1], i);
    }
  }

  /** The lines logged when comparing two dictionaries. */
  function Differences(order: seq<string>, originalDict: map<string, string>, newDict: map<string, string>,
                       newLanguageCode: string): seq<ReportLine>
  {
    Concat(Blocks(Checks(order, originalDict, newDict, newLanguageCode)), |order|)
  }

  /** Nothing is logged exactly when no key of the source dictionary differs
      from its counterpart (or from the empty string when it has none). */
  lemma NoDifferencesIff(order: seq<string>, originalDict: map<string, string>,
                         newDict: map<string, string>, newLanguageCode: string)
    requires forall i :: 0 <= i < |order| ==> order[i] in originalDict
    ensures Differences(order, originalDict, newDict, newLanguageCode) == []
      <==> forall i :: 0 <= i < |order| ==>
        !HasDifference(Compare(originalDict[order[i]], ValueOrEmpty(newDict, order[i]), newLanguageCode))
  {
    var checks := Checks(order, originalDict, newDict, newLanguageCode);
    var blocks := Blocks(checks);
    ConcatEmptyIff(blocks, |order|);
    forall i | 0 <= i < |order|
      ensures blocks[i] == []
        <==> !HasDifference(Compare(originalDict[order[i]], ValueOrEmpty(newDict, order[i]), newLanguageCode))
    {
      BlocksAt(checks, i);
      BlockShape(checks[i]);
    }
  }

  /** A key is reported exactly when it is a key of the source dictionary
      whose comparison shows a difference. */
  lemma ReportedKeys(order: seq<string>, originalDict: map<string, string>,
                     newDict: map<string, string>, newLanguageCode: string, key: string)
    requires forall i :: 0 <= i < |order| ==> order[i] in originalDict
    ensures Header(key) in Differences(order, originalDict, newDict, newLanguageCode)
      <==> (key in order
            && HasDifference(Compare(originalDict[key], ValueOrEmpty(newDict, key), newLanguageCode)))
  {
    var checks := Checks(order, originalDict, newDict, newLanguageCode);
    var blocks := Blocks(checks);
    if Header(key) in Concat(blocks, |order|) {
      ConcatMember(blocks, |order|, Header(key));
      var i :| 0 <= i < |order| && Header(key) in blocks[i];
      BlocksAt(checks, i);
      BlockHeader(checks[i], key);
    } else if key in order {
      var i :| 0 <= i < |order| && order[i] == key;
      BlocksAt(checks, i);
      BlockShape(checks[i]);
      if HasDifference(checks[i].comparison) {
        assert blocks[i][0] == Header(key);
        ConcatCovers(blocks, |order|, i, Header(key));
      }
    }
  }

  /** Keys only the translation has change nothing in the comparisons. */
  lemma ExtraKeysIgnored(order: seq<string>, originalDict: map<string, string>,
                         newDict: map<string, string>, extra: map<string, string>, newLanguageCode: string)
    requires forall i :: 0 <= i < |order| ==> order[i] in originalDict
    requires forall k :: k in extra ==> k !in originalDict
    ensures Checks(order, originalDict, newDict + extra, newLanguageCode)
      == Checks(order, originalDict, newDict, newLanguageCode)
  {
    forall i | 0 <= i < |order|
      ensures ValueOrEmpty(newDict + extra, order[i]) == ValueOrEmpty(newDict, order[i])
    {
    }
  }

  /* ---------- Comparing two dictionaries ---------- */

  /** `CompareDictionaries`: the lines appended to the report for every key of
      the source dictionary, enumerated in `order`. */
  method CompareDictionaries(order: seq<string>, originalDict: map<string, string>,
                             newDict: map<string, string>, newLanguageCode: string)
    returns (result: seq<ReportLine>)
    requires forall i :: 0 <= i < |order| ==> order[i] in originalDict
    ensures result == Differences(order, originalDict, newDict, newLanguageCode)
  {
    ghost var blocks := Blocks(Checks(order, originalDict, newDict, newLanguageCode));
    result := [];
    var i := 0;
    while i < |order|
      invariant 0 <= i <= |order|
      invariant result == Concat(blocks, i)
    {
      var lines := CompareEntryAt(order, originalDict, newDict, newLanguageCode, i);
      result := result + lines;
      i := i + 1;
    }
  }

  /** The comparison of entry `i` of the source dictionary with its
      counterpart, and the lines appended for it. */
  method CompareEntryAt(order: seq<string>, originalDict: map<string, string>,
                        newDict: map<string, string>, newLanguageCode: string, i: nat)
    returns (lines: seq<ReportLine>)
    requires forall i :: 0 <= i < |order| ==> order[i] in originalDict
    requires i < |order|
    ensures lines == Blocks(Checks(order, originalDict, newDict, newLanguageCode))[i]
  {
    var originalKey := order[i];
    var originalValue := originalDict[originalKey];
    var newValue := if originalKey in newDict then newDict[originalKey] else "";
    var c := Compare(originalValue, newValue, newLanguageCode);
    lines := CompareEntry(originalKey, originalValue, newValue, c);
    BlocksAt(Checks(order, originalDict, newDict, newLanguageCode), i);
  }

  /** The lines appended for one entry of the source dictionary, given what
      the comparison of its values found. */
  method CompareEntry(originalKey: string, originalValue: string, newValue: string, c: Comparison)
    returns (lines: seq<ReportLine>)
    ensures lines == Block(Check(originalKey, originalValue, newValue, c))
  {
    lines := [];
    if HasDifference(c) {
      var findings := AppendFinding([], MissingKeys, c.missingKeys);
      findings := AppendFinding(findings, ExtraKeys, c.extraKeys);
      findings := AppendFinding(findings, MissingFunctions, c.missingFunctions);
      findings := AppendFinding(findings, ExtraFunctions, c.extraFunctions);
      findings := AppendFinding(findings, MissingIcons, c.missingIcons);
      findings := AppendFinding(findings, ExtraIcons, c.extraIcons);
      if c.chineseFound {
        findings := findings + [ChineseNotice];
      }
      assert findings == Findings(c);
      lines := [Header(originalKey)] + findings + [OriginalValue(originalValue), NewValue(newValue), Blank];
    }
  }

  /** `if (items.Count != 0) result.AppendLine(...)` for one kind of finding. */
  method AppendFinding(lines: seq<ReportLine>, kind: FindingKind, items: seq<string>) returns (result: seq<ReportLine>)
    ensures result == lines + FindingLine(kind, items)
  {
    result := lines;
    if items != [] {
      result := result + [Finding(kind, items)];
    }
  }

  /* ---------- The run ---------- */

  const IssuesMessage: string :=
    "There could be some issues in the files, details were logged in a file inside the Validations folder."
  const NoIssuesMessage: string := "No issues found."
  const ValidationsSuffix: string := "_ModTranslator_Validations.yml"

  /** The name of the report of a source file: its name without extension and
      without the source code, then the suffix. */
  function ValidationName(stem: string, originalCode: string): (name: string)
    requires originalCode != []
    ensures !Contains(stem, originalCode) ==> name == stem + ValidationsSuffix
    ensures |name| >= |ValidationsSuffix| && name[|name| - |ValidationsSuffix|..] == ValidationsSuffix
  {
    Replace(stem, originalCode, "") + ValidationsSuffix
  }

  /** The report lines of a source file against its counterpart, none when it
      has no counterpart. */
  function FileDifferences(file: LocFile, newFiles: seq<LocFile>, originalCode: string, newCode: string): seq<ReportLine>
    requires originalCode != [] && newCode != []
  {
    match Counterpart(file, newFiles, originalCode, newCode)
    case None => []
    case Some(matchingFile) =>
      Differences(KeyOrder(file.lines, originalCode, newCode), ParseLines(file.lines, originalCode, newCode),
                  ParseLines(matchingFile.lines, originalCode, newCode), newCode)
  }

  /** What is appended for a source file: its report, when it has one. */
  function FileOutput(file: LocFile, newFiles: seq<LocFile>, originalCode: string, newCode: string): Option<OutputFile>
    requires originalCode != [] && newCode != []
  {
    var differences := FileDifferences(file, newFiles, originalCode, newCode);
    if differences == [] then None else Some(OutputFile(ValidationName(file.stem, originalCode), RenderAll(differences)))
  }

  /** What is appended for each source file, in their order. */
  function Outputs(originalFiles: seq<LocFile>, newFiles: seq<LocFile>, originalCode: string, newCode: string)
    : (outputs: seq<Option<OutputFile>>)
    requires originalCode != [] && newCode != []
    ensures |outputs| == |originalFiles|
  {
    if originalFiles == [] then []
    else
      var last := FileOutput(originalFiles[|originalFiles| - 1], newFiles, originalCode, newCode);
      Outputs(originalFiles[..|originalFiles| - 1], newFiles, originalCode, newCode) + [last]
  }

  lemma {:induction false} OutputsAt(originalFiles: seq<LocFile>, newFiles: seq<LocFile>,
                                     originalCode: string, newCode: string, i: nat)
    requires originalCode != [] && newCode != [] && i < |originalFiles|
    ensures Outputs(originalFiles, newFiles, originalCode, newCode)[i]
      == FileOutput(originalFiles[i], newFiles, originalCode, newCode)
  {
    var front := originalFiles[..|originalFiles| - 1];
    if i < |front| {
      OutputsAt(front, newFiles, originalCode, newCode, i);
    }
  }

  /** The values present among the first `n` options, in order. */
  function Somes(outputs: seq<Option<OutputFile>>, n: nat): seq<OutputFile>
    requires n <= |outputs|
  {
    if n == 0 then []
    else
      Somes(outputs, n - 1) + (if outputs[n - 1].Some? then [outputs[n - 1].value] else [])
  }

  lemma {:induction false} SomesEmptyIff(outputs: seq<Option<OutputFile>>, n: nat)
    requires n <= |outputs|
    ensures Somes(outputs, n) == [] <==> forall i :: 0 <= i < n ==> outputs[i].None?
  {
    if n > 0 {
      SomesEmptyIff(outputs, n - 1);
    }
  }

  lemma {:induction false} SomesFrom(outputs: seq<Option<OutputFile>>, n: nat, output: OutputFile)
    requires n <= |outputs| && output in Somes(outputs, n)
    ensures exists i :: 0 <= i < n && outputs[i] == Some(output)
  {
    if n > 0 && output !in Somes(outputs, n - 1) {
      assert outputs[n - 1] == Some(output);
    } else if n > 0 {
      SomesFrom(outputs, n - 1, output);
    }
  }

  lemma {:induction false} SomesCovers(outputs: seq<Option<OutputFile>>, n: nat, j: nat)
    requires j < n <= |outputs| && outputs[j].Some?
    ensures outputs[j].value in Somes(outputs, n)
  {
    if j < n - 1 {
      SomesCovers(outputs, n - 1, j);
    }
  }

  /** The reports appended for the source files, in their order. */
  function Appends(originalFiles: seq<LocFile>, newFiles: seq<LocFile>, originalCode: string, newCode: string)
    : seq<OutputFile>
    requires originalCode != [] && newCode != []
  {
    Somes(Outputs(originalFiles, newFiles, originalCode, newCode), |originalFiles|)
  }

  /** `outputs` holds, for each source file, what is appended for it. */
  ghost predicate AreOutputs(originalFiles: seq<LocFile>, newFiles: seq<LocFile>, originalCode: string,
                             newCode: string, outputs: seq<Option<OutputFile>>)
  {
    && originalCode != [] && newCode != [] && |outputs| == |originalFiles|
    && forall j {:trigger FileOutput(originalFiles[j], newFiles, originalCode, newCode)} :: 0 <= j < |outputs| ==>
         outputs[j] == FileOutput(originalFiles[j], newFiles, originalCode, newCode)
  }

  lemma OutputsAre(originalFiles: seq<LocFile>, newFiles: seq<LocFile>, originalCode: string, newCode: string)
    requires originalCode != [] && newCode != []
    ensures AreOutputs(originalFiles, newFiles, originalCode, newCode,
                       Outputs(originalFiles, newFiles, originalCode, newCode))
  {
    forall j | 0 <= j < |originalFiles| {
      OutputsAt(originalFiles, newFiles, originalCode, newCode, j);
    }
  }

  /** The report of one source file: the lines of every key that differs
      from its counterpart, nothing when there is no counterpart. */
  method ValidateFile(originalFiles: seq<LocFile>, i: nat, newFiles: seq<LocFile>,
                      originalLanguageCode: string, newLanguageCode: string,
                      ghost outputs: seq<Option<OutputFile>>)
    returns (output: Option<OutputFile>)
    requires AreOutputs(originalFiles, newFiles, originalLanguageCode, newLanguageCode, outputs)
    requires i < |originalFiles|
    ensures output == outputs[i]
  {
    var originalFile := originalFiles[i];
    assert outputs[i] == FileOutput(originalFile, newFiles, originalLanguageCode, newLanguageCode);
    output := None;
    var matchingFile := Counterpart(originalFile, newFiles, originalLanguageCode, newLanguageCode);
    if matchingFile.Some? {
      var originalDict, order := LoadFileDictionary(originalFile.lines, originalLanguageCode, newLanguageCode);
      var newDict, _ := LoadFileDictionary(matchingFile.value.lines, originalLanguageCode, newLanguageCode);
      var differences := CompareDictionaries(order, originalDict, newDict, newLanguageCode);
      if |differences| > 0 {
        output := Some(OutputFile(ValidationName(originalFile.stem, originalLanguageCode), RenderAll(differences)));
      }
    }
  }

  /** The loop of `RunValidation`: each source file in turn, its report
      appended when it has one. */
  method ValidateFiles(originalFiles: seq<LocFile>, newFiles: seq<LocFile>,
                       originalLanguageCode: string, newLanguageCode: string,
                       ghost outputs: seq<Option<OutputFile>>)
    returns (appended: seq<OutputFile>)
    requires AreOutputs(originalFiles, newFiles, originalLanguageCode, newLanguageCode, outputs)
    ensures appended == Somes(outputs, |outputs|)
  {
    appended := [];
    var i := 0;
    while i < |originalFiles|
      invariant 0 <= i <= |originalFiles|
      invariant appended == Somes(outputs, i)
    {
      var output := ValidateFile(originalFiles, i, newFiles, originalLanguageCode, newLanguageCode, outputs);
      if output.Some? {
        appended := appended + [output.value];
      }
      i := i + 1;
    }
  }

  /** `RunValidation`: the reports appended to the Validations folder, and the
      verdict, which is a success exactly when nothing was appended. */
  method RunValidation(files: seq<LocFile>, fromLanguage: string, toLanguage: string)
    returns (isSuccess: bool, message: string, appended: seq<OutputFile>)
    requires fromLanguage != [] && toLanguage != []
    ensures appended == Appends(WithCode(files, fromLanguage), WithCode(files, toLanguage), fromLanguage, toLanguage)
    ensures isSuccess <==> appended == []
    ensures message == if isSuccess then NoIssuesMessage else IssuesMessage
  {
    var originalFiles := WithCode(files, fromLanguage);
    var newFiles := WithCode(files, toLanguage);
    ghost var outputs := Outputs(originalFiles, newFiles, fromLanguage, toLanguage);
    OutputsAre(originalFiles, newFiles, fromLanguage, toLanguage);
    appended := ValidateFiles(originalFiles, newFiles, fromLanguage, toLanguage, outputs);
    if |appended| > 0 {
      isSuccess, message := false, IssuesMessage;
    } else {
      isSuccess, message := true, NoIssuesMessage;
    }
  }

  /** No report is appended exactly when every source file yields no lines. */
  lemma AppendsEmptyIff(originalFiles: seq<LocFile>, newFiles: seq<LocFile>, originalCode: string, newCode: string)
    requires originalCode != [] && newCode != []
    ensures Appends(originalFiles, newFiles, originalCode, newCode) == []
      <==> forall i :: 0 <= i < |originalFiles| ==> FileDifferences(originalFiles[i], newFiles, originalCode, newCode) == []
  {
    var outputs := Outputs(originalFiles, newFiles, originalCode, newCode);
    SomesEmptyIff(outputs, |originalFiles|);
    forall i | 0 <= i < |originalFiles|
      ensures outputs[i].None? <==> FileDifferences(originalFiles[i], newFiles, originalCode, newCode) == []
    {
      OutputsAt(originalFiles, newFiles, originalCode, newCode, i);
    }
  }

  /** Whether `output` is the report of `file`: named after it and holding
      the text of its non-empty differences. */
  predicate ReportOf(output: OutputFile, file: LocFile, newFiles: seq<LocFile>, originalCode: string, newCode: string)
    requires originalCode != [] && newCode != []
  {
    FileOutput(file, newFiles, originalCode, newCode) == Some(output)
  }

  /** The report of a file, when there is one, is named after it and holds
      the text of its differences, which are not empty. */
  lemma ReportOfShape(output: OutputFile, file: LocFile, newFiles: seq<LocFile>, originalCode: string, newCode: string)
    requires originalCode != [] && newCode != []
    ensures ReportOf(output, file, newFiles, originalCode, newCode)
      <==> (FileDifferences(file, newFiles, originalCode, newCode) != []
            && output == OutputFile(ValidationName(file.stem, originalCode),
                                    RenderAll(FileDifferences(file, newFiles, originalCode, newCode))))
  {
  }

  /** Every appended report is the report of one of the source files, and
      every source file with differences has its report appended. */
  lemma AppendsAreReports(originalFiles: seq<LocFile>, newFiles: seq<LocFile>, originalCode: string, newCode: string)
    requires originalCode != [] && newCode != []
    ensures forall output :: output in Appends(originalFiles, newFiles, originalCode, newCode) ==>
      exists i :: 0 <= i < |originalFiles| && ReportOf(output, originalFiles[i], newFiles, originalCode, newCode)
    ensures forall i :: 0 <= i < |originalFiles| && FileDifferences(originalFiles[i], newFiles, originalCode, newCode) != [] ==>
      exists output :: output in Appends(originalFiles, newFiles, originalCode, newCode)
        && ReportOf(output, originalFiles[i], newFiles, originalCode, newCode)
  {
    var outputs := Outputs(originalFiles, newFiles, originalCode, newCode);
    var n := |originalFiles|;
    forall output | output in Somes(outputs, n)
      ensures exists i :: 0 <= i < n && ReportOf(output, originalFiles[i], newFiles, originalCode, newCode)
    {
      SomesFrom(outputs, n, output);
      var i :| 0 <= i < n && outputs[i] == Some(output);
      OutputsAt(originalFiles, newFiles, originalCode, newCode, i);
    }
    forall i | 0 <= i < n && FileDifferences(originalFiles[i], newFiles, originalCode, newCode) != []
      ensures exists output :: output in Somes(outputs, n) && ReportOf(output, originalFiles[i], newFiles, originalCode, newCode)
    {
      OutputsAt(originalFiles, newFiles, originalCode, newCode, i);
      SomesCovers(outputs, n, i);
    }
  }

  /** A source file yields no lines exactly when it has no counterpart, or
      when none of its entries differs from its counterpart's entry of the same
      key (or from "" when the counterpart lacks the key). */
  lemma FileCleanIff(file: LocFile, newFiles: seq<LocFile>, originalCode: string, newCode: string)
    requires originalCode != [] && newCode != []
    ensures FileDifferences(file, newFiles, originalCode, newCode) == []
      <==> match Counterpart(file, newFiles, originalCode, newCode)
        case None => true
        case Some(matchingFile) => EntriesAgree(file, matchingFile, originalCode, newCode)
  {
    match Counterpart(file, newFiles, originalCode, newCode)
    case None =>
    case Some(matchingFile) =>
      var order := KeyOrder(file.lines, originalCode, newCode);
      var originalDict := ParseLines(file.lines, originalCode, newCode);
      var newDict := ParseLines(matchingFile.lines, originalCode, newCode);
      KeyOrderLists(file.lines, originalCode, newCode);
      NoDifferencesIff(order, originalDict, newDict, newCode);
      if forall i :: 0 <= i < |order| ==>
          !HasDifference(Compare(originalDict[order[i]], ValueOrEmpty(newDict, order[i]), newCode)) {
        forall k | k in originalDict
          ensures !HasDifference(Compare(originalDict[k], ValueOrEmpty(newDict, k), newCode))
        {
          var i :| 0 <= i < |order| && order[i] == k;
        }
      }
  }

  /** Every entry of the source file compares clean with the counterpart. */
  predicate EntriesAgree(file: LocFile, matchingFile: LocFile, originalCode: string, newCode: string) {
    var originalDict := ParseLines(file.lines, originalCode, newCode);
    var newDict := ParseLines(matchingFile.lines, originalCode, newCode);
    forall k :: k in originalDict ==> !HasDifference(Compare(originalDict[k], ValueOrEmpty(newDict, k), newCode))
  }

  /** The run succeeds exactly when every selected source file yields no lines. */
  lemma RunSucceedsIff(files: seq<LocFile>, fromLanguage: string, toLanguage: string)
    requires fromLanguage != [] && toLanguage != []
    ensures Appends(WithCode(files, fromLanguage), WithCode(files, toLanguage), fromLanguage, toLanguage) == []
      <==> forall f :: f in files && Contains(f.stem, fromLanguage) ==>
        FileDifferences(f, WithCode(files, toLanguage), fromLanguage, toLanguage) == []
  {
    var originals := WithCode(files, fromLanguage);
    WithCodeSelects(files, fromLanguage);
    AppendsEmptyIff(originals, WithCode(files, toLanguage), fromLanguage, toLanguage);
    forall f | f in files && Contains(f.stem, fromLanguage)
      ensures exists i :: 0 <= i < |originals| && originals[i] == f
    {
      assert f in originals;
    }
  }
}
