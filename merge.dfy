/**
 * Pairing the reply of the translation API with the lines that were sent:
 * each translated value is put back behind the key of its source line, and a
 * reply whose line count differs is written out for review instead.
 */
module Merging {
  import opened Wrappers
  import opened Text
  import opened Resuming

  /** The first line written when the reply has a different number of lines. */
  const MismatchHeader: string := "#" + "Error: Mismatch in translated lines count. Review the following:"

  /** The lines of a reply: split at line feeds, empty pieces removed. */
  function TranslatedLines(translation: string): (lines: seq<string>)
    ensures forall k :: 0 <= k < |lines| ==> lines[k] != []
  {
    NonEmpty(Split(translation, '\n'))
  }

  /** Each line behind two spaces, as a mismatched reply is written. */
  function Indented(lines: seq<string>): (indented: seq<string>)
    ensures |indented| == |lines|
  {
    seq(|lines|, k requires 0 <= k < |lines| => "  " + lines[k])
  }

  /** One source line and its translation. A line without `:` is kept as it
      is; otherwise the key before its first `:` is kept and the text after
      the first `:` of the translation becomes the value. When the
      translation has no `:`, `Split(':', 2)[1]` is out of range: None. */
  function MergeLine(original: string, translated: string): (merged: Option<string>)
    ensures merged.None? <==> ':' in original && ':' !in translated
    ensures ':' !in original ==> merged == Some(original)
  {
    var colon := IndexOf(original, ':');
    if colon == -1 then Some(original)
    else if ':' !in translated then None
    else
      var value := Trim(translated[IndexOf(translated, ':') + 1..]);
      Some("  " + Trim(original[..colon]) + ": " + value)
  }

  /** The pairwise merge (`Zip`); None when some pair raises. */
  function MergeAll(originals: seq<string>, translateds: seq<string>): (merged: Option<seq<string>>)
    requires |originals| == |translateds|
    ensures merged.Some? ==> |merged.value| == |originals|
  {
    if originals == [] then Some([])
    else
      match MergeLine(originals[0], translateds[0])
      case None => None
      case Some(line) =>
        match MergeAll(originals[1..], translateds[1..])
        case None => None
        case Some(rest) => Some([line] + rest)
  }

  /** The merge raises exactly when one of its pairs does, and otherwise
      holds the merge of each pair at its place. */
  lemma {:induction false} MergeAllMeaning(originals: seq<string>, translateds: seq<string>)
    requires |originals| == |translateds|
    ensures var merged := MergeAll(originals, translateds);
      && (merged.None? <==> exists k :: 0 <= k < |originals| && MergeLine(originals[k], translateds[k]).None?)
      && (merged.Some? ==> forall k :: 0 <= k < |originals| ==> MergeLine(originals[k], translateds[k]) == Some(merged.value[k]))
  {
    if originals != [] {
      var first := MergeLine(originals[0], translateds[0]);
      MergeAllMeaning(originals[1..], translateds[1..]);
      var rest := MergeAll(originals[1..], translateds[1..]);
      if first.Some? && rest.None? {
        var k :| 0 <= k < |originals| - 1 && MergeLine(originals[1..][k], translateds[1..][k]).None?;
        assert MergeLine(originals[k + 1], translateds[k + 1]).None?;
      }
      if first.Some? && rest.Some? {
        forall k | 0 <= k < |originals|
          ensures MergeLine(originals[k], translateds[k]).Some?
        {
          if k > 0 {
            assert originals[k] == originals[1..][k - 1] && translateds[k] == translateds[1..][k - 1];
          }
        }
        forall k | 0 <= k < |originals|
          ensures MergeLine(originals[k], translateds[k]) == Some(MergeAll(originals, translateds).value[k])
        {
          if k > 0 {
            assert originals[k] == originals[1..][k - 1] && translateds[k] == translateds[1..][k - 1];
          }
        }
      }
    }
  }

  /** What processing a reply gives: the lines to append, with whether the
      line counts differed, or the out-of-range exception of a pair. */
  datatype Processed = Content(lines: seq<string>, mismatch: bool) | IndexOutOfRange

  /** The output of processing the reply `translation` to `originalLines`. A
      reply with a different number of lines is flagged, never raises, and is
      written behind the header line by line; a reply of the same count is
      not flagged and gives one line per source line, or raises exactly when
      some source line with a `:` is paired with a reply line without one. */
  function Merge(originalLines: seq<string>, translation: string): (r: Processed)
    ensures var translated := TranslatedLines(translation);
      && ((r.Content? && r.mismatch) <==> |originalLines| != |translated|)
      && (r.Content? && r.mismatch ==>
            && |r.lines| == |translated| + 1 && r.lines[0] == MismatchHeader
            && forall k :: 0 <= k < |translated| ==> r.lines[k + 1] == "  " + translated[k])
      && (r.Content? && !r.mismatch ==> |r.lines| == |originalLines|)
      && (r.IndexOutOfRange? <==>
            && |originalLines| == |translated|
            && exists k :: 0 <= k < |originalLines| && ':' in originalLines[k] && ':' !in translated[k])
  {
    var translated := TranslatedLines(translation);
    if |originalLines| != |translated| then Content([MismatchHeader] + Indented(translated), true)
    else
      MergeAllMeaning(originalLines, translated);
      match MergeAll(originalLines, translated)
      case None => IndexOutOfRange
      case Some(lines) => Content(lines, false)
  }

  /** A trimmed text is empty or starts and ends with a character that is
      not white space. */
  lemma TrimmedEnds(s: string)
    requires Trim(s) == s
    ensures s == [] || (!IsWhiteSpace(s[0]) && !IsWhiteSpace(s[|s| - 1]))
  {
    TrimByShape(s, IsWhiteSpace);
  }

  /** Trimming a text that starts with a character that is not white space
      keeps that first character. */
  lemma TrimKeepsFirst(s: string)
    requires s != [] && !IsWhiteSpace(s[0])
    ensures Trim(s) != [] && Trim(s)[0] == s[0]
  {
    assert TrimStartBy(s, IsWhiteSpace) == s;
    TrimEndByShape(s, IsWhiteSpace);
  }

  /** How the resume step trims a merged line: the padding goes, and so does
      the space after the `:` when the value is empty. */
  lemma TrimMerged(key: string, value: string)
    requires Trim(key) == key && Trim(value) == value
    ensures Trim("  " + key + ": " + value) == key + ":" + (if value == [] then [] else " " + value)
  {
    TrimmedEnds(key);
    TrimmedEnds(value);
    var body := key + ": " + value;
    assert "  " + key + ": " + value == "  " + body;
    assert body[0] == (if key == [] then ':' else key[0]);
    TrimStartByPast("  ", body, IsWhiteSpace);
    if value == [] {
      assert body == (key + ":") + " ";
      TrimEndByPast(key + ":", " ", IsWhiteSpace);
    } else {
      assert body[|body| - 1] == value[|value| - 1];
      TrimEndByKept(body, IsWhiteSpace);
      assert body == key + ":" + " " + value;
    }
  }

  /** The key round trip: the line written for a trimmed source line that is
      not a comment holds, for the resume step, the same key as that line. */
  lemma MergeLineKeepsKey(original: string, translated: string)
    requires Trim(original) == original && (original == [] || original[0] != '#')
    requires MergeLine(original, translated).Some?
    ensures ResumeKey(MergeLine(original, translated).value) == ResumeKey(original)
  {
    var colon := IndexOf(original, ':');
    if colon != -1 {
      var key := Trim(original[..colon]);
      var value := Trim(translated[IndexOf(translated, ':') + 1..]);
      TrimTwice(original[..colon]);
      TrimTwice(translated[IndexOf(translated, ':') + 1..]);
      TrimMerged(key, value);
      var trimmed := key + ":" + (if value == [] then [] else " " + value);
      assert trimmed[..|key|] == key;
      TrimmedEnds(original);
      if colon == 0 {
        assert original[..colon] == [];
        assert key == [];
        IndexOfAt(trimmed, ':', 0);
      } else {
        TrimKeepsFirst(original[..colon]);
        TrimByShape(original[..colon], IsWhiteSpace);
        assert ':' !in key;
        IndexOfAt(trimmed, ':', |key|);
      }
    }
  }

  /** Writing a line behind two spaces leaves its key as it was. */
  lemma IndentKeepsKey(line: string)
    ensures ResumeKey("  " + line) == ResumeKey(line)
  {
    assert ("  " + line)[1..] == " " + line;
    assert (" " + line)[1..] == line;
    assert TrimStartBy("  " + line, IsWhiteSpace) == TrimStartBy(line, IsWhiteSpace);
  }

  /** A comment line, like the mismatch header, holds no key. */
  lemma CommentHoldsNoKey(line: string)
    requires line != [] && line[0] == '#'
    ensures ResumeKey(line) == None
  {
    TrimKeepsFirst(line);
  }

  /** When the counts agree, each line appended holds the key of its
      source line. */
  lemma AgreedKeepsKeys(originalLines: seq<string>, translation: string)
    requires forall k :: 0 <= k < |originalLines| ==>
      Trim(originalLines[k]) == originalLines[k] && (originalLines[k] == [] || originalLines[k][0] != '#')
    requires Merge(originalLines, translation).Content? && !Merge(originalLines, translation).mismatch
    ensures var lines := Merge(originalLines, translation).lines;
      forall k :: 0 <= k < |originalLines| ==> ResumeKey(lines[k]) == ResumeKey(originalLines[k])
  {
    var translated := TranslatedLines(translation);
    var lines := Merge(originalLines, translation).lines;
    MergeAllMeaning(originalLines, translated);
    forall k | 0 <= k < |originalLines|
      ensures ResumeKey(lines[k]) == ResumeKey(originalLines[k])
    {
      MergeLineKeepsKey(originalLines[k], translated[k]);
    }
  }

  /** When the counts differ, the header holds no key and each line after it
      holds the key of the reply's own line. */
  lemma MismatchKeepsKeys(originalLines: seq<string>, translation: string)
    requires Merge(originalLines, translation).Content? && Merge(originalLines, translation).mismatch
    ensures var lines := Merge(originalLines, translation).lines;
      var translated := TranslatedLines(translation);
      && ResumeKey(lines[0]) == None
      && forall k :: 0 <= k < |translated| ==> ResumeKey(lines[k + 1]) == ResumeKey(translated[k])
  {
    var lines := Merge(originalLines, translation).lines;
    var translated := TranslatedLines(translation);
    assert lines[0] == MismatchHeader;
    CommentHoldsNoKey(lines[0]);
    forall k | 0 <= k < |translated|
      ensures ResumeKey(lines[k + 1]) == ResumeKey(translated[k])
    {
      assert lines[k + 1] == "  " + translated[k];
      IndentKeepsKey(translated[k]);
    }
  }

  /** Resuming picks up where the last run stopped: a source line whose
      merged line is in the output file is not translated again. */
  lemma ResumeSkipsMerged(line: string, translated: string, existingLines: seq<string>)
    requires ResumeKey(line).Some?
    requires MergeLine(Trim(line), translated).Some?
    requires MergeLine(Trim(line), translated).value in AfterHeader(existingLines)
    ensures !Kept(line, ExistingKeys(existingLines))
  {
    var merged := MergeLine(Trim(line), translated).value;
    TrimTwice(line);
    assert ResumeKey(Trim(line)) == ResumeKey(line);
    MergeLineKeepsKey(Trim(line), translated);
    var after := AfterHeader(existingLines);
    var i :| 0 <= i < |after| && after[i] == merged;
    KeysInMeaning(after, ResumeKey(line).value);
  }
}
