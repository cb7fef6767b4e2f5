/**
 * The line parser shared by delta generation and validation: it turns the
 * lines of a localisation file into a key -> value dictionary. Comment, blank
 * and language-header lines and lines without ':' are skipped; the key is the
 * trimmed text before the first ':'; the value drops an optional leading
 * ordinal and the surrounding quotes; a later line with the same key
 * overwrites an earlier one.
 */
module LineParser {
  import opened Wrappers
  import opened Text

  /** One dictionary entry: (key, value). */
  type Entry = (string, string)

  /** The regex class `\d`, for the ASCII digits. */
  predicate IsDigit(c: char) {
    '0' <= c <= '9'
  }

  /** The characters of `Trim(' ', '"')`. */
  predicate IsSpaceOrQuote(c: char) {
    c == ' ' || c == '"'
  }

  /** Neither end of `v` is a space or a double quote. */
  predicate NoEdgeSpaceOrQuote(v: string) {
    v == [] || (!IsSpaceOrQuote(v[0]) && !IsSpaceOrQuote(v[|v| - 1]))
  }

  /** What follows the optional `(\d+)\s*` group: the greedy match takes the
      whole leading digit run and all the whitespace after it. */
  function AfterOrdinal(remainder: string): string {
    if remainder != [] && IsDigit(remainder[0])
    then TrimStartBy(TrimStartBy(remainder, IsDigit), IsWhiteSpace)
    else remainder
  }

  /** What follows the ordinal is a suffix of the text. */
  lemma AfterOrdinalShape(remainder: string)
    ensures var rest := AfterOrdinal(remainder);
      |rest| <= |remainder| && rest == remainder[|remainder| - |rest|..]
  {
    if remainder != [] && IsDigit(remainder[0]) {
      TrimStartByShape(remainder, IsDigit);
      TrimStartByShape(TrimStartBy(remainder, IsDigit), IsWhiteSpace);
    }
  }

  /** Group 2 of the match, `"?(.*)"?` after the ordinal, trimmed of spaces and
      quotes: the optional opening quote goes, and the trim takes any closing one. */
  function Unquoted(rest: string): string {
    TrimBy(if rest != [] && rest[0] == '"' then rest[1..] else rest, IsSpaceOrQuote)
  }

  /** Group 2, trimmed, has no space or quote at its ends and only characters
      of the text it comes from. */
  lemma UnquotedShape(rest: string)
    ensures NoEdgeSpaceOrQuote(Unquoted(rest))
    ensures forall c :: c in Unquoted(rest) ==> c in rest
  {
    var body := if rest != [] && rest[0] == '"' then rest[1..] else rest;
    assert forall c :: c in body ==> c in rest;
    TrimByShape(body, IsSpaceOrQuote);
  }

  /**
   * The value of an entry, from the trimmed text after the first ':'. The
   * regex `^(?:(\d+)\s*)?"?(.*)"?$` is matched against it: when it matches,
   * the value is group 2 trimmed of spaces and quotes, otherwise the text is
   * kept as it is. `.` does not match '\n', so the match fails exactly when
   * the text after the ordinal holds a '\n'.
   */
  function ParseValue(remainder: string): string {
    var rest := AfterOrdinal(remainder);
    if '\n' in rest then remainder else Unquoted(rest)
  }

  /** A value read from a text without line break has no space or quote at
      its ends and no line break. */
  lemma ParseValueShape(remainder: string)
    requires '\n' !in remainder
    ensures NoEdgeSpaceOrQuote(ParseValue(remainder)) && '\n' !in ParseValue(remainder)
  {
    var rest := AfterOrdinal(remainder);
    AfterOrdinalShape(remainder);
    assert forall c :: c in rest ==> c in remainder;
    UnquotedShape(rest);
  }

  /** A leading ordinal and the whitespace after it are dropped, quoted or not:
      the value is that of the text after them. */
  lemma OrdinalStripped(ordinal: string, gap: string, text: string)
    requires ordinal != [] && forall i :: 0 <= i < |ordinal| ==> IsDigit(ordinal[i])
    requires forall i :: 0 <= i < |gap| ==> IsWhiteSpace(gap[i])
    requires text == [] || (!IsDigit(text[0]) && !IsWhiteSpace(text[0]))
    requires '\n' !in text
    ensures ParseValue(ordinal + gap + text) == ParseValue(text)
  {
    var s := ordinal + gap + text;
    AfterOrdinalPast(ordinal, gap, text);
    var rest := AfterOrdinal(s);
    assert rest == text;
  }

  lemma AfterOrdinalPast(ordinal: string, gap: string, text: string)
    requires ordinal != [] && forall i :: 0 <= i < |ordinal| ==> IsDigit(ordinal[i])
    requires forall i :: 0 <= i < |gap| ==> IsWhiteSpace(gap[i])
    requires text == [] || (!IsDigit(text[0]) && !IsWhiteSpace(text[0]))
    ensures AfterOrdinal(ordinal + gap + text) == text
  {
    var s := ordinal + gap + text;
    assert s == ordinal + (gap + text);
    assert s[0] == ordinal[0];
    assert gap + text == [] || !IsDigit((gap + text)[0]) by {
      if gap != [] { assert (gap + text)[0] == gap[0]; } else { assert gap + text == text; }
    }
    TrimStartByPast(ordinal, gap + text, IsDigit);
    TrimStartByPast(gap, text, IsWhiteSpace);
  }

  /** A value with no ordinal, no quotes and no spaces at its ends is kept as it is. */
  lemma PlainValue(text: string)
    requires text != [] && !IsDigit(text[0]) && NoEdgeSpaceOrQuote(text) && '\n' !in text
    ensures ParseValue(text) == text
  {
    TrimEndByKept(TrimStartBy(text, IsSpaceOrQuote), IsSpaceOrQuote);
  }

  /** A value written between double quotes reads back as itself, whatever
      quotes it holds inside. */
  lemma QuotedValue(value: string)
    requires NoEdgeSpaceOrQuote(value) && '\n' !in value
    ensures ParseValue("\"" + value + "\"") == value
  {
    var text := "\"" + value + "\"";
    assert text[1..] == value + "\"";
    assert '\n' !in text;
    assert AfterOrdinal(text) == text;
    if value == [] {
      assert TrimBy("\"", IsSpaceOrQuote) == [];
    } else {
      TrimStartByPast([], value + "\"", IsSpaceOrQuote);
      assert [] + (value + "\"") == value + "\"";
      TrimEndByPast(value, "\"", IsSpaceOrQuote);
    }
  }

  /** `2024 edition` has the value `edition`: the ordinal goes even without quotes. */
  lemma UnquotedOrdinalExample()
    ensures ParseValue("2024 edition") == "edition"
  {
    OrdinalDropped();
    EditionIsPlain();
  }

  lemma EditionIsPlain()
    ensures ParseValue("edition") == "edition"
  {
    PlainValue("edition");
  }

  lemma OrdinalDropped()
    ensures ParseValue("2024 edition") == ParseValue("edition")
  {
    assert "2024 edition" == "2024" + " " + "edition";
    OrdinalStripped("2024", " ", "edition");
  }

  /** The usual shape `<ordinal> "<text>"`: the value is the text between the quotes. */
  lemma OrdinalAndQuotes(ordinal: string, gap: string, value: string)
    requires ordinal != [] && forall i :: 0 <= i < |ordinal| ==> IsDigit(ordinal[i])
    requires forall i :: 0 <= i < |gap| ==> IsWhiteSpace(gap[i])
    requires NoEdgeSpaceOrQuote(value) && '\n' !in value
    ensures ParseValue(ordinal + gap + ("\"" + value + "\"")) == value
  {
    var quoted := "\"" + value + "\"";
    assert quoted[0] == '"' && '\n' !in quoted;
    OrdinalStripped(ordinal, gap, quoted);
    QuotedValue(value);
  }

  /** The comment test of the generator: `line.Trim().StartsWith('#')`. */
  predicate IsComment(line: string) {
    Trim(line) != [] && Trim(line)[0] == '#'
  }

  /** A line that adds no entry: a comment, a blank line, a language header
      (a line starting with either code) or a line without ':'. */
  predicate IsSkipped(line: string, originalCode: string, newCode: string) {
    IsComment(line) || IsBlank(line)
    || StartsWith(line, originalCode) || StartsWith(line, newCode)
    || ':' !in line
  }

  /** The entry one line contributes, following the generator's loop body: a
      line gives an entry exactly when it is not skipped, and the key is then
      the trimmed text before its first ':' and holds no ':' itself. */
  function ParseLine(line: string, originalCode: string, newCode: string): (r: Option<Entry>)
    ensures r.None? <==> IsSkipped(line, originalCode, newCode)
    ensures r.Some? ==>
      var separator := IndexOf(line, ':');
      && 0 <= separator
      && r.value.0 == Trim(line[..separator])
      && ':' !in r.value.0
  {
    if IsComment(line) || IsBlank(line) then None
    else if StartsWith(line, originalCode) then None
    else if StartsWith(line, newCode) then None
    else
      var separator := IndexOf(line, ':');
      if separator == -1 then None
      else
        TrimByShape(line[..separator], IsWhiteSpace);
        assert forall c :: c in Trim(line[..separator]) ==> c in line[..separator];
        Some((Trim(line[..separator]), ParseValue(Trim(line[separator + 1..]))))
  }

  /** The shape of every entry read from a line without '\n': the key holds
      no ':' and no '\n', has no whitespace at its ends and does not start
      with '#'; the value holds no '\n' and has no space or quote at its ends. */
  predicate WellFormedEntry(key: string, value: string) {
    && ':' !in key && '\n' !in key
    && (key == [] || (!IsWhiteSpace(key[0]) && !IsWhiteSpace(key[|key| - 1]) && key[0] != '#'))
    && NoEdgeSpaceOrQuote(value) && '\n' !in value
  }

  lemma ParsedEntryWellFormed(line: string, originalCode: string, newCode: string)
    requires '\n' !in line
    requires ParseLine(line, originalCode, newCode).Some?
    ensures WellFormedEntry(ParseLine(line, originalCode, newCode).value.0, ParseLine(line, originalCode, newCode).value.1)
  {
    var separator := IndexOf(line, ':');
    var key := Trim(line[..separator]);
    TrimByShape(line[..separator], IsWhiteSpace);
    assert forall c :: c in key ==> c in line[..separator];
    var text := Trim(line[separator + 1..]);
    TrimByShape(line[separator + 1..], IsWhiteSpace);
    assert forall c :: c in text ==> c in line[separator + 1..];
    ParseValueShape(text);
    if key != [] {
      TrimByFirstOfPrefix(line, separator, IsWhiteSpace);
    }
  }

  /** The entry of each line, in order. */
  function LineEntries(lines: seq<string>, originalCode: string, newCode: string): (entries: seq<Option<Entry>>)
    ensures |entries| == |lines|
    ensures forall i :: 0 <= i < |lines| ==> entries[i] == ParseLine(lines[i], originalCode, newCode)
  {
    seq(|lines|, i requires 0 <= i < |lines| => ParseLine(lines[i], originalCode, newCode))
  }

  /** The dictionary after storing one line's entry, if it has one. */
  function Put(dict: map<string, string>, entry: Option<Entry>): map<string, string> {
    match entry
    case None => dict
    case Some(e) => dict[e.0 := e.1]
  }

  /** Stores the entries in order into an empty dictionary: a later entry
      overwrites an earlier one with the same key. */
  function Collect(entries: seq<Option<Entry>>): (dict: map<string, string>)
    ensures forall k :: k in dict ==> exists i :: 0 <= i < |entries| && entries[i] == Some((k, dict[k]))
    decreases |entries|
  {
    if entries == [] then map[]
    else
      var front := entries[..|entries| - 1];
      assert forall i :: 0 <= i < |front| ==> front[i] == entries[i];
      Put(Collect(front), entries[|entries| - 1])
  }

  /** The dictionary of a file: each line's entry stored in turn, a later
      line overwriting an earlier one with the same key, so the last line's
      entry, if it gives one, is in the dictionary with its value. */
  function ParseLines(lines: seq<string>, originalCode: string, newCode: string): (dict: map<string, string>)
    ensures lines != [] && ParseLine(lines[|lines| - 1], originalCode, newCode).Some? ==>
      var e := ParseLine(lines[|lines| - 1], originalCode, newCode).value;
      e.0 in dict && dict[e.0] == e.1
    decreases |lines|
  {
    if lines == [] then map[]
    else Put(ParseLines(lines[..|lines| - 1], originalCode, newCode), ParseLine(lines[|lines| - 1], originalCode, newCode))
  }

  /** Reading a file is storing the entries of its lines in order. */
  lemma {:induction false} ParseLinesCollect(lines: seq<string>, originalCode: string, newCode: string)
    ensures ParseLines(lines, originalCode, newCode) == Collect(LineEntries(lines, originalCode, newCode))
    decreases |lines|
  {
    if lines != [] {
      var front := lines[..|lines| - 1];
      ParseLinesCollect(front, originalCode, newCode);
      var entries := LineEntries(lines, originalCode, newCode);
      assert entries[..|entries| - 1] == LineEntries(front, originalCode, newCode);
    }
  }

  /** The last entry with key `k` decides its value. */
  lemma {:induction false} CollectLastWins(entries: seq<Option<Entry>>, i: nat, k: string, v: string)
    requires i < |entries| && entries[i] == Some((k, v))
    requires forall j :: i < j < |entries| ==> entries[j].None? || entries[j].value.0 != k
    ensures k in Collect(entries) && Collect(entries)[k] == v
    decreases |entries|
  {
    var front := entries[..|entries| - 1];
    if i < |entries| - 1 {
      assert front[i] == entries[i];
      forall j | i < j < |front| ensures front[j].None? || front[j].value.0 != k {
        assert front[j] == entries[j];
      }
      CollectLastWins(front, i, k, v);
    }
  }

  /** A key is stored exactly when some entry has it. */
  lemma {:induction false} CollectKeys(entries: seq<Option<Entry>>, k: string)
    ensures k in Collect(entries) <==> exists i :: 0 <= i < |entries| && entries[i].Some? && entries[i].value.0 == k
    decreases |entries|
  {
    if entries != [] {
      var front := entries[..|entries| - 1];
      CollectKeys(front, k);
      if exists i :: 0 <= i < |front| && front[i].Some? && front[i].value.0 == k {
        var i :| 0 <= i < |front| && front[i].Some? && front[i].value.0 == k;
        assert entries[i] == front[i];
      }
      if exists i :: 0 <= i < |entries| && entries[i].Some? && entries[i].value.0 == k {
        var i :| 0 <= i < |entries| && entries[i].Some? && entries[i].value.0 == k;
        if i < |front| { assert front[i] == entries[i]; }
      }
    }
  }

  /** Last wins, for the lines of a file: the last line giving key `k` decides its value. */
  lemma LastWins(lines: seq<string>, originalCode: string, newCode: string, i: nat, k: string, v: string)
    requires i < |lines| && ParseLine(lines[i], originalCode, newCode) == Some((k, v))
    requires forall j :: i < j < |lines| ==>
      ParseLine(lines[j], originalCode, newCode).None? || ParseLine(lines[j], originalCode, newCode).value.0 != k
    ensures k in ParseLines(lines, originalCode, newCode)
    ensures ParseLines(lines, originalCode, newCode)[k] == v
  {
    ParseLinesCollect(lines, originalCode, newCode);
    CollectLastWins(LineEntries(lines, originalCode, newCode), i, k, v);
  }

  /** A key is in a file's dictionary exactly when some line of the file gives
      it, and its value is then the value given by one of those lines. */
  lemma KeysOfParse(lines: seq<string>, originalCode: string, newCode: string, k: string)
    ensures k in ParseLines(lines, originalCode, newCode) <==>
      exists i :: 0 <= i < |lines| && ParseLine(lines[i], originalCode, newCode).Some?
                  && ParseLine(lines[i], originalCode, newCode).value.0 == k
    ensures k in ParseLines(lines, originalCode, newCode) ==>
      exists i :: 0 <= i < |lines| && ParseLine(lines[i], originalCode, newCode) == Some((k, ParseLines(lines, originalCode, newCode)[k]))
  {
    ParseLinesCollect(lines, originalCode, newCode);
    CollectKeys(LineEntries(lines, originalCode, newCode), k);
  }

  /** Every entry of a file whose lines hold no '\n' is well formed. */
  lemma ParsedDictionaryWellFormed(lines: seq<string>, originalCode: string, newCode: string)
    requires forall i :: 0 <= i < |lines| ==> '\n' !in lines[i]
    ensures forall k :: k in ParseLines(lines, originalCode, newCode) ==>
      WellFormedEntry(k, ParseLines(lines, originalCode, newCode)[k])
  {
    var dict := ParseLines(lines, originalCode, newCode);
    ParseLinesCollect(lines, originalCode, newCode);
    forall k | k in dict ensures WellFormedEntry(k, dict[k]) {
      var i :| 0 <= i < |lines| && LineEntries(lines, originalCode, newCode)[i] == Some((k, dict[k]));
      ParsedEntryWellFormed(lines[i], originalCode, newCode);
    }
  }
}
