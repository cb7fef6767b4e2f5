/**
 * The table of languages the mod tools know, each a display name and the
 * localisation code that heads a file of that language, and the reverse
 * lookup from code to name used to accept or refuse a file's first line.
 */
module Languages {

  /** The records in declaration order: (display name, localisation code). */
  const LanguageRecords: seq<(string, string)> := [
    ("Simplified Chinese", "l_simp_chinese"),
    ("English", "l_english"),
    ("Portuguese", "l_braz_por"),
    ("French", "l_french"),
    ("German", "l_german"),
    ("Japanese", "l_japanese"),
    ("Korean", "l_korean"),
    ("Polish", "l_polish"),
    ("Russian", "l_russian"),
    ("Spanish", "l_spanish")
  ]

  /** The code of Simplified Chinese, the one target in which CJK text is expected. */
  const SimplifiedChineseCode: string := "l_simp_chinese"

  /** `code` is the code of some record (exact, case-sensitive comparison). */
  predicate IsKnownCode(code: string) {
    exists i :: 0 <= i < |LanguageRecords| && LanguageRecords[i].1 == code
  }

  /** The name of the first record of `records` whose code is `code`, or "". */
  function FirstNameFor(records: seq<(string, string)>, code: string): (name: string)
    requires forall i :: 0 <= i < |records| ==> records[i].0 != ""
    ensures name != "" <==> exists i :: 0 <= i < |records| && records[i].1 == code
    ensures name != "" ==> exists i :: 0 <= i < |records| && records[i] == (name, code)
  {
    if records == [] then ""
    else if records[0].1 == code then records[0].0
    else
      var name := FirstNameFor(records[1..], code);
      assert forall i :: 1 <= i < |records| ==> records[i] == records[1..][i - 1];
      name
  }

  /** `GetLanguageKey`: the display name whose code is `code`, or "" when no
      record has that code. */
  function GetLanguageKey(code: string): (name: string)
    ensures name != "" <==> IsKnownCode(code)
    ensures name != "" ==> exists i :: 0 <= i < |LanguageRecords| && LanguageRecords[i] == (name, code)
  {
    FirstNameFor(LanguageRecords, code)
  }

  /** No two records share a code, so the lookup is unambiguous. */
  lemma CodesAreDistinct()
    ensures forall i, j :: 0 <= i < j < |LanguageRecords| ==> LanguageRecords[i].1 != LanguageRecords[j].1
  {
  }

  /** Looking up the code of any record gives back that record's name. */
  lemma LookupRoundTrip(i: nat)
    requires i < |LanguageRecords|
    ensures GetLanguageKey(LanguageRecords[i].1) == LanguageRecords[i].0
  {
    CodesAreDistinct();
    var name := GetLanguageKey(LanguageRecords[i].1);
    var j :| 0 <= j < |LanguageRecords| && LanguageRecords[j] == (name, LanguageRecords[i].1);
    assert i == j;
  }

  /** Two examples: an exact code is found, and the comparison is case-sensitive. */
  lemma LookupExamples()
    ensures GetLanguageKey("l_english") == "English"
    ensures GetLanguageKey("L_ENGLISH") == ""
    ensures GetLanguageKey("l_simp_chinese") == "Simplified Chinese"
  {
    LookupRoundTrip(1);
    LookupRoundTrip(0);
    assert !IsKnownCode("L_ENGLISH") by {
      forall i | 0 <= i < |LanguageRecords| ensures LanguageRecords[i].1 != "L_ENGLISH" {
        assert LanguageRecords[i].1[0] == 'l';
      }
    }
  }
}
