// File selection and pairing shared by the generator and the validator:
// which files belong to a language, and which file of the target language
// is the counterpart of a file of the source language.

module FileNames {
  import opened Wrappers
  import opened Text

  /** A localisation file as the services see it: its name with extension
      (what `Path.GetFileName` gives), its name without extension (what
      `Path.GetFileNameWithoutExtension` gives) and its lines (what
      `File.ReadAllLines` gives). */
  datatype LocFile = LocFile(name: string, stem: string, lines: seq<string>)

  /** A file the services write: its name and its lines. */
  datatype OutputFile = OutputFile(name: string, lines: seq<string>)

  const TranslatedMarker: string := "ModTranslator_Translated_"
  const ToolMarker: string := "ModTranslator_"

  /** The files whose name without extension contains `code`, in their order. */
  function WithCode(files: seq<LocFile>, code: string): seq<LocFile> {
    if files == [] then []
    else if Contains(files[0].stem, code) then [files[0]] + WithCode(files[1..], code)
    else WithCode(files[1..], code)
  }

  /** The selection keeps exactly the files whose name holds `code`. */
  lemma {:induction false} WithCodeSelects(files: seq<LocFile>, code: string)
    ensures |WithCode(files, code)| <= |files|
    ensures forall f :: f in WithCode(files, code) <==> f in files && Contains(f.stem, code)
  {
    if files != [] {
      WithCodeSelects(files[1..], code);
      assert forall f :: f in files <==> f == files[0] || f in files[1..];
    }
  }

  /** The name two counterpart files share: the name without extension with
      the language code, then the tool's translated marker, then the tool's
      own prefix removed. */
  function PairKey(stem: string, code: string): (key: string)
    requires code != []
    ensures !Contains(stem, code) && !Contains(stem, TranslatedMarker) && !Contains(stem, ToolMarker) ==> key == stem
  {
    Replace(Replace(Replace(stem, code, ""), TranslatedMarker, ""), ToolMarker, "")
  }

  /** A source name without extension, `x` followed by the source code, and
      the name the tool gives its translation, `x` followed by its translated
      marker and the target code, share the pairing name `x`, as long as no
      code or marker occurs earlier in either name. */
  lemma TranslatedCounterpartPairs(x: string, fromCode: string, toCode: string)
    requires fromCode != [] && toCode != []
    requires forall j :: 0 <= j < |x| ==> !StartsWith((x + fromCode)[j..], fromCode)
    requires forall j :: 0 <= j < |x + TranslatedMarker| ==> !StartsWith((x + TranslatedMarker + toCode)[j..], toCode)
    requires forall j :: 0 <= j < |x| ==> !StartsWith((x + TranslatedMarker)[j..], TranslatedMarker)
    requires !Contains(x, TranslatedMarker) && !Contains(x, ToolMarker)
    ensures PairKey(x + fromCode, fromCode) == x
    ensures PairKey(x + TranslatedMarker + toCode, toCode) == x
  {
    ReplaceItself(fromCode, "");
    ReplaceSkips(x, fromCode, fromCode, "");
    assert Replace(x + fromCode, fromCode, "") == x;
    ReplaceItself(toCode, "");
    ReplaceSkips(x + TranslatedMarker, toCode, toCode, "");
    assert Replace(x + TranslatedMarker + toCode, toCode, "") == x + TranslatedMarker;
    ReplaceItself(TranslatedMarker, "");
    ReplaceSkips(x, TranslatedMarker, TranslatedMarker, "");
    assert Replace(x + TranslatedMarker, TranslatedMarker, "") == x;
  }

  /** Whether a candidate's pairing name, with `code` removed, is `key`. */
  predicate Pairs(candidate: LocFile, key: string, code: string)
    requires code != []
  {
    PairKey(candidate.stem, code) == key
  }

  /** The pairing name of each candidate, in order. */
  function PairKeys(candidates: seq<LocFile>, code: string): (keys: seq<string>)
    requires code != []
    ensures |keys| == |candidates|
    ensures forall i :: 0 <= i < |candidates| ==> keys[i] == PairKey(candidates[i].stem, code)
  {
    seq(|candidates|, i requires 0 <= i < |candidates| => PairKey(candidates[i].stem, code))
  }

  /** The first position from `start` on that holds `key`; `None` when there
      is none. */
  function FirstFrom(keys: seq<string>, key: string, start: nat): (r: Option<nat>)
    requires start <= |keys|
    ensures r.None? <==> forall i :: start <= i < |keys| ==> keys[i] != key
    ensures r.Some? ==> (start <= r.value < |keys| && keys[r.value] == key
      && forall j :: start <= j < r.value ==> keys[j] != key)
    decreases |keys| - start
  {
    if start == |keys| then None
    else if keys[start] == key then Some(start)
    else FirstFrom(keys, key, start + 1)
  }

  /** `FirstOrDefault`: the first candidate that pairs with `key`, or `None`. */
  function FindMatch(candidates: seq<LocFile>, key: string, code: string): Option<LocFile>
    requires code != []
  {
    match FirstFrom(PairKeys(candidates, code), key, 0)
    case None => None
    case Some(i) => Some(candidates[i])
  }

  /** There is no match exactly when no candidate pairs with `key`; a match
      is a candidate that pairs with it. */
  lemma FindMatchFinds(candidates: seq<LocFile>, key: string, code: string)
    requires code != []
    ensures FindMatch(candidates, key, code).None? <==> forall i :: 0 <= i < |candidates| ==> !Pairs(candidates[i], key, code)
    ensures FindMatch(candidates, key, code).Some? ==>
      FindMatch(candidates, key, code).value in candidates && Pairs(FindMatch(candidates, key, code).value, key, code)
  {
  }

  /** The match is the first pairing candidate: every candidate before it pairs
      with a different name. */
  lemma FindMatchIsFirst(candidates: seq<LocFile>, key: string, code: string)
    requires code != []
    requires FindMatch(candidates, key, code).Some?
    ensures exists i :: (0 <= i < |candidates| && candidates[i] == FindMatch(candidates, key, code).value
      && forall j :: 0 <= j < i ==> !Pairs(candidates[j], key, code))
  {
    var i := FirstFrom(PairKeys(candidates, code), key, 0).value;
    assert candidates[i] == FindMatch(candidates, key, code).value;
  }

  /** The counterpart in the target language of a source-language file. */
  function Counterpart(file: LocFile, targets: seq<LocFile>, fromCode: string, toCode: string): Option<LocFile>
    requires fromCode != [] && toCode != []
  {
    FindMatch(targets, PairKey(file.stem, fromCode), toCode)
  }
}
