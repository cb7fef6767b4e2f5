// The generator: for every source-language file, the entries its
// target-language counterpart lacks, sorted by key and written out as a
// YAML file headed by the target language code.

module DeltaGeneration {
  import opened Wrappers
  import opened Text
  import opened LineParser
  import opened FileNames

  /* ---------- Missing keys ---------- */

  /** `GetMissingKeysOnly`: the source entries whose key the target lacks,
      each with the source's value. */
  function MissingKeysOnly(original: map<string, string>, translated: map<string, string>): (missing: map<string, string>)
    ensures missing.Keys == original.Keys - translated.Keys
    ensures forall k :: k in missing ==> missing[k] == original[k]
  {
    map k | k in original && k !in translated :: original[k]
  }

  /** The missing entries and the target together cover the source, and no
      missing key is already in the target. */
  lemma MissingKeysPartition(original: map<string, string>, translated: map<string, string>)
    ensures original.Keys <= MissingKeysOnly(original, translated).Keys + translated.Keys
    ensures MissingKeysOnly(original, translated).Keys !! translated.Keys
  {
  }

  /** Nothing is missing exactly when the target has every key of the source. */
  lemma NothingMissing(original: map<string, string>, translated: map<string, string>)
    ensures MissingKeysOnly(original, translated) == map[] <==> original.Keys <= translated.Keys
  {
    if MissingKeysOnly(original, translated) == map[] {
      forall k | k in original ensures k in translated {
        assert k !in MissingKeysOnly(original, translated);
      }
    }
  }

  /** Only the keys of the target matter, not its values. */
  lemma MissingIgnoresTranslatedValues(original: map<string, string>, a: map<string, string>, b: map<string, string>)
    requires a.Keys == b.Keys
    ensures MissingKeysOnly(original, a) == MissingKeysOnly(original, b)
  {
  }

  /** Once a translation of the missing entries is added to the target, a
      second run finds nothing missing. */
  lemma MissingAfterTranslation(original: map<string, string>, translated: map<string, string>, added: map<string, string>)
    requires MissingKeysOnly(original, translated).Keys <= added.Keys
    ensures MissingKeysOnly(original, translated + added) == map[]
  {
    NothingMissing(original, translated + added);
  }

  /* ---------- Ordering by key ---------- */

  /** Strictly ascending keys in ordinal order (so no key repeats). */
  predicate SortedByKey(es: seq<Entry>) {
    forall i, j :: 0 <= i < j < |es| ==> Below(es[i].0, es[j].0)
  }

  /** `es` lists exactly the entries of `m`. */
  predicate Lists(es: seq<Entry>, m: map<string, string>) {
    && (forall i :: 0 <= i < |es| ==> es[i].0 in m && m[es[i].0] == es[i].1)
    && (forall k :: k in m ==> exists i :: 0 <= i < |es| && es[i].0 == k)
  }

  predicate IsLeast(k: string, keys: set<string>) {
    k in keys && forall j :: j in keys && j != k ==> Below(k, j)
  }

  lemma {:induction false} LeastExists(keys: set<string>)
    requires keys != {}
    ensures exists k :: IsLeast(k, keys)
    decreases |keys|
  {
    var x :| x in keys;
    var rest := keys - {x};
    if rest == {} {
      assert keys == {x};
      assert IsLeast(x, keys);
    } else {
      LeastExists(rest);
      var y :| IsLeast(y, rest);
      BelowTotal(x, y);
      if Below(x, y) {
        forall j | j in keys && j != x ensures Below(x, j) {
          if j != y { BelowTransitive(x, y, j); }
        }
        assert IsLeast(x, keys);
      } else {
        forall j | j in keys && j != y ensures Below(y, j) {
          if j != x { assert j in rest; }
        }
        assert IsLeast(y, keys);
      }
    }
  }

  /** Putting the entry with the least key in front of a sorted listing of
      the others gives a sorted listing of the whole map. */
  lemma ConsListing(k: string, m: map<string, string>, tail: seq<Entry>)
    requires IsLeast(k, m.Keys)
    requires SortedByKey(tail) && Lists(tail, m - {k})
    ensures SortedByKey([(k, m[k])] + tail) && Lists([(k, m[k])] + tail, m)
  {
    var es := [(k, m[k])] + tail;
    assert forall i :: 1 <= i < |es| ==> es[i] == tail[i - 1];
    forall kk | kk in m ensures exists i :: 0 <= i < |es| && es[i].0 == kk {
      if kk == k {
        assert es[0].0 == kk;
      } else {
        assert kk in m - {k};
        var i :| 0 <= i < |tail| && tail[i].0 == kk;
        assert es[i + 1].0 == kk;
      }
    }
  }

  /** The entries of a map in ascending key order: what `OrderBy(x => x.Key)`
      yields. */
  ghost function SortedListing(m: map<string, string>): seq<Entry>
    decreases |m|
  {
    if m == map[] then []
    else
      LeastExists(m.Keys);
      var k :| IsLeast(k, m.Keys);
      [(k, m[k])] + SortedListing(m - {k})
  }

  /** The listing is sorted by key and lists exactly the entries of the map. */
  lemma {:induction false} SortedListingShape(m: map<string, string>)
    ensures SortedByKey(SortedListing(m)) && Lists(SortedListing(m), m) && |SortedListing(m)| == |m|
    decreases |m|
  {
    if m != map[] {
      var k := SortedListing(m)[0].0;
      assert IsLeast(k, m.Keys) && SortedListing(m) == [(k, m[k])] + SortedListing(m - {k});
      var rest := m - {k};
      assert rest.Keys == m.Keys - {k};
      SortedListingShape(rest);
      ConsListing(k, m, SortedListing(rest));
    }
  }

  /** The first entry of a sorted listing holds the least key. */
  lemma LeadIsLeast(es: seq<Entry>, m: map<string, string>)
    requires SortedByKey(es) && Lists(es, m) && es != []
    ensures IsLeast(es[0].0, m.Keys)
  {
    forall j | j in m && j != es[0].0 ensures Below(es[0].0, j) {
      var i :| 0 <= i < |es| && es[i].0 == j;
    }
  }

  lemma ListsTail(es: seq<Entry>, m: map<string, string>)
    requires SortedByKey(es) && Lists(es, m) && es != []
    ensures SortedByKey(es[1..]) && Lists(es[1..], m - {es[0].0})
  {
    var k := es[0].0;
    forall i | 1 <= i < |es| ensures es[i].0 != k {
      BelowIrreflexive(k);
    }
    forall kk | kk in m - {k} ensures exists i :: 0 <= i < |es[1..]| && es[1..][i].0 == kk {
      var i :| 0 <= i < |es| && es[i].0 == kk;
      assert es[1..][i - 1] == es[i];
    }
  }

  /** A map has one sorted listing: the order of the written entries depends
      on the map alone. */
  lemma {:induction false} ListingUnique(a: seq<Entry>, b: seq<Entry>, m: map<string, string>)
    requires SortedByKey(a) && Lists(a, m) && SortedByKey(b) && Lists(b, m)
    ensures a == b
    decreases |a|
  {
    if a != [] && b != [] {
      var x := a[0].0;
      assert a[0] == b[0] by {
        LeadIsLeast(a, m);
        LeadIsLeast(b, m);
        LeastUnique(x, b[0].0, m.Keys);
      }
      assert SortedByKey(a[1..]) && Lists(a[1..], m - {x}) by { ListsTail(a, m); }
      assert SortedByKey(b[1..]) && Lists(b[1..], m - {x}) by { ListsTail(b, m); }
      ListingUnique(a[1..], b[1..], m - {x});
      assert a == [a[0]] + a[1..] && b == [b[0]] + b[1..];
    } else {
      ListedEmpty(a, m);
      ListedEmpty(b, m);
    }
  }

  /** A set of keys has one least key. */
  lemma LeastUnique(x: string, y: string, keys: set<string>)
    requires IsLeast(x, keys) && IsLeast(y, keys)
    ensures x == y
  {
    if x != y {
      BelowTransitive(x, y, x);
      BelowIrreflexive(x);
    }
  }

  lemma ListedEmpty(es: seq<Entry>, m: map<string, string>)
    requires Lists(es, m)
    ensures es == [] <==> m == map[]
  {
    if es != [] {
      assert es[0].0 in m;
    }
    if m != map[] {
      var k :| k in m;
    }
  }

  /** Inserts an entry with a new key at its place in a sorted list. */
  function InsertByKey(es: seq<Entry>, e: Entry): (r: seq<Entry>)
    requires SortedByKey(es)
    requires forall i :: 0 <= i < |es| ==> es[i].0 != e.0
    ensures SortedByKey(r) && |r| == |es| + 1
    ensures forall x :: x in r <==> x in es || x == e
  {
    if es == [] || Below(e.0, es[0].0) then
      assert forall i :: 0 <= i < |es| ==> Below(e.0, es[i].0) by {
        forall i | 0 <= i < |es| ensures Below(e.0, es[i].0) {
          if i > 0 { BelowTransitive(e.0, es[0].0, es[i].0); }
        }
      }
      [e] + es
    else
      BelowTotal(e.0, es[0].0);
      var tail := InsertByKey(es[1..], e);
      assert es == [es[0]] + es[1..];
      assert forall i :: 0 <= i < |tail| ==> Below(es[0].0, tail[i].0) by {
        forall i | 0 <= i < |tail| ensures Below(es[0].0, tail[i].0) {
          assert tail[i] in tail;
          if tail[i] != e {
            var j :| 0 <= j < |es[1..]| && es[1..][j] == tail[i];
            assert es[j + 1] == tail[i];
          }
        }
      }
      var r := [es[0]] + tail;
      assert forall i :: 1 <= i < |r| ==> r[i] == tail[i - 1];
      r
  }

  /** `FinalDictionary.OrderBy(x => x.Key)`: the entries of the concurrent
      dictionary, taken in whatever order it enumerates them, placed in
      ascending key order. */
  method OrderByKey(m: map<string, string>) returns (es: seq<Entry>)
    ensures es == SortedListing(m)
  {
    es := [];
    var remaining := m.Keys;
    while remaining != {}
      invariant remaining <= m.Keys
      invariant SortedByKey(es)
      invariant forall i :: 0 <= i < |es| ==> es[i].0 in m && es[i].0 !in remaining && m[es[i].0] == es[i].1
      invariant forall k :: k in m && k !in remaining ==> exists i :: 0 <= i < |es| && es[i].0 == k
      decreases remaining
    {
      var k :| k in remaining;
      var next := InsertByKey(es, (k, m[k]));
      forall i | 0 <= i < |next|
        ensures next[i].0 in m && next[i].0 !in remaining - {k} && m[next[i].0] == next[i].1
      {
        assert next[i] in next;
        if next[i] != (k, m[k]) {
          var j :| 0 <= j < |es| && es[j] == next[i];
        }
      }
      forall kk | kk in m && kk !in remaining - {k} ensures exists i :: 0 <= i < |next| && next[i].0 == kk {
        if kk == k {
          assert (k, m[k]) in next;
        } else {
          var i :| 0 <= i < |es| && es[i].0 == kk;
          assert es[i] in next;
        }
      }
      es := next;
      remaining := remaining - {k};
    }
    SortedListingShape(m);
    ListingUnique(es, SortedListing(m), m);
  }

  /* ---------- The YAML writer ---------- */

  /** One entry as `FormatDictionaryToYaml` writes it: indented by two spaces,
      the value in double quotes. */
  function EntryLine(e: Entry): string {
    "  " + e.0 + ": \"" + e.1 + "\""
  }

  /** The lines of a generated file: the language code as root key, then one
      line per entry in order, entry `i` at line `i + 1`. */
  function YamlLines(code: string, es: seq<Entry>): (lines: seq<string>)
    ensures |lines| == |es| + 1 && lines[0] == code + ":"
    ensures forall i :: 0 <= i < |es| ==> lines[i + 1] == EntryLine(es[i])
  {
    [code + ":"] + seq(|es|, i requires 0 <= i < |es| => EntryLine(es[i]))
  }

  /** A language code as the language records give them: not empty and not
      starting with whitespace. */
  predicate PlainCode(code: string) {
    code != [] && !IsWhiteSpace(code[0])
  }

  /** The root line of a generated file adds no entry. */
  lemma HeaderSkipped(code: string, originalCode: string)
    ensures ParseLine(code + ":", originalCode, code) == None
  {
    assert StartsWith(code + ":", code) by { assert (code + ":")[..|code|] == code; }
  }

  lemma KeyPartTrimmed(key: string)
    requires ':' !in key && (key == [] || (!IsWhiteSpace(key[0]) && !IsWhiteSpace(key[|key| - 1])))
    ensures Trim("  " + key) == key
  {
    TrimStartByPast("  ", key, IsWhiteSpace);
    TrimEndByKept(key, IsWhiteSpace);
  }

  lemma ValuePartTrimmed(value: string)
    ensures Trim(" \"" + value + "\"") == "\"" + value + "\""
  {
    var quoted := "\"" + value + "\"";
    assert " \"" + value + "\"" == " " + quoted;
    TrimStartByPast(" ", quoted, IsWhiteSpace);
    TrimEndByKept(quoted, IsWhiteSpace);
  }

  lemma EntrySeparator(k: string, v: string)
    requires ':' !in k
    ensures IndexOf(EntryLine((k, v)), ':') == 2 + |k|
  {
    var line := EntryLine((k, v));
    assert line[..2 + |k|] == "  " + k;
    assert line[2 + |k|] == ':';
    IndexOfAt(line, ':', 2 + |k|);
  }

  lemma EntrySlices(k: string, v: string)
    ensures EntryLine((k, v))[..2 + |k|] == "  " + k
    ensures EntryLine((k, v))[2 + |k| + 1..] == " \"" + v + "\""
  {
  }

  lemma EntryTrimStart(k: string, v: string)
    requires k == [] || !IsWhiteSpace(k[0])
    ensures TrimStart(EntryLine((k, v))) == k + ": \"" + v + "\""
  {
    var rest := k + ": \"" + v + "\"";
    assert EntryLine((k, v)) == "  " + rest;
    TrimStartByPast("  ", rest, IsWhiteSpace);
  }

  lemma TrimStartFirst(s: string)
    requires TrimStart(s) != [] && !IsWhiteSpace(TrimStart(s)[|TrimStart(s)| - 1])
    ensures Trim(s) == TrimStart(s)
  {
    TrimEndByKept(TrimStart(s), IsWhiteSpace);
  }

  /** Every entry line reads back as its entry. */
  lemma EntryLineParses(e: Entry, originalCode: string, newCode: string)
    requires WellFormedEntry(e.0, e.1)
    requires PlainCode(originalCode) && PlainCode(newCode)
    ensures ParseLine(EntryLine(e), originalCode, newCode) == Some(e)
  {
    var line := EntryLine(e);
    EntrySeparator(e.0, e.1);
    EntrySlices(e.0, e.1);
    EntryTrimStart(e.0, e.1);
    TrimStartFirst(line);
    assert !IsComment(line);
    assert line[2 + |e.0|] == ':';
    assert !IsBlank(line);
    assert !StartsWith(line, originalCode) by { assert line[0] == ' '; }
    assert !StartsWith(line, newCode) by { assert line[0] == ' '; }
    KeyPartTrimmed(e.0);
    ValuePartTrimmed(e.1);
    QuotedValue(e.1);
  }

  /** The root line of a generated file adds nothing and each entry line adds
      its entry. */
  lemma YamlLinesParse(es: seq<Entry>, originalCode: string, newCode: string)
    requires forall i :: 0 <= i < |es| ==> WellFormedEntry(es[i].0, es[i].1)
    requires PlainCode(originalCode) && PlainCode(newCode)
    ensures ParseLine(YamlLines(newCode, es)[0], originalCode, newCode) == None
    ensures forall i :: 0 <= i < |es| ==> ParseLine(YamlLines(newCode, es)[i + 1], originalCode, newCode) == Some(es[i])
  {
    HeaderSkipped(newCode, originalCode);
    forall i | 0 <= i < |es| ensures ParseLine(YamlLines(newCode, es)[i + 1], originalCode, newCode) == Some(es[i]) {
      EntryLineParses(es[i], originalCode, newCode);
    }
  }

  /** Storing no entry and then the entries of a sorted listing of `m` gives `m`. */
  lemma {:induction false} CollectListing(entries: seq<Option<Entry>>, es: seq<Entry>, m: map<string, string>)
    requires SortedByKey(es) && Lists(es, m)
    requires |entries| == |es| + 1 && entries[0] == None
    requires forall i :: 0 <= i < |es| ==> entries[i + 1] == Some(es[i])
    ensures Collect(entries) == m
  {
    var parsed := Collect(entries);
    forall k | k in m ensures k in parsed && parsed[k] == m[k] {
      var i :| 0 <= i < |es| && es[i].0 == k;
      forall j | i + 1 < j < |entries| ensures entries[j].None? || entries[j].value.0 != k {
        BelowIrreflexive(k);
        assert entries[j] == Some(es[j - 1]);
        assert Below(es[i].0, es[j - 1].0);
      }
      CollectLastWins(entries, i + 1, k, m[k]);
    }
    forall k | k in parsed ensures k in m {
      CollectKeys(entries, k);
      var i :| 0 <= i < |entries| && entries[i].Some? && entries[i].value.0 == k;
      assert entries[i] == Some(es[i - 1]);
    }
  }

  /** Lines that give, after one line without an entry, the entries of a sorted
      listing of `m` read back as `m`. */
  lemma ReadBackListing(lines: seq<string>, es: seq<Entry>, m: map<string, string>, originalCode: string, newCode: string)
    requires SortedByKey(es) && Lists(es, m)
    requires |lines| == |es| + 1 && ParseLine(lines[0], originalCode, newCode) == None
    requires forall i :: 0 <= i < |es| ==> ParseLine(lines[i + 1], originalCode, newCode) == Some(es[i])
    ensures ParseLines(lines, originalCode, newCode) == m
  {
    ParseLinesCollect(lines, originalCode, newCode);
    CollectListing(LineEntries(lines, originalCode, newCode), es, m);
  }

  /** Round trip: reading a generated file back gives exactly the map it was
      written from. */
  lemma YamlRoundTrip(m: map<string, string>, originalCode: string, newCode: string)
    requires forall k :: k in m ==> WellFormedEntry(k, m[k])
    requires PlainCode(originalCode) && PlainCode(newCode)
    ensures ParseLines(YamlLines(newCode, SortedListing(m)), originalCode, newCode) == m
  {
    var es := SortedListing(m);
    SortedListingShape(m);
    YamlLinesParse(es, originalCode, newCode);
    ReadBackListing(YamlLines(newCode, es), es, m, originalCode, newCode);
  }

  /* ---------- One run of the generator ---------- */

  /** A file the generator writes, before rendering: its name and entries. */
  datatype Delta = Delta(name: string, entries: map<string, string>)

  /** What a run reports: the warnings, the files to write and the number of
      entries to translate. */
  datatype Report = Report(warnings: string, deltas: seq<Delta>, total: nat)

  /** The name of the file holding the entries to translate. */
  function DeltaName(stem: string, fromCode: string, toCode: string): string
    requires fromCode != []
  {
    Replace(stem, fromCode, "") + "ModTranslator_ToBeTranslated_" + toCode + ".yml"
  }

  function Warning(counterpartName: string, fileName: string): string {
    "Warning: file " + counterpartName + " has more lines than " + fileName + ".\n"
  }

  const AmountLabel: string := "Amount of lines to translate: "

  /** The dictionary of a file's counterpart, or an empty one without it. */
  function TargetDictionary(file: LocFile, targets: seq<LocFile>, fromCode: string, toCode: string): map<string, string>
    requires fromCode != [] && toCode != []
  {
    match Counterpart(file, targets, fromCode, toCode)
    case None => map[]
    case Some(t) => ParseLines(t.lines, fromCode, toCode)
  }

  /** The warning about one pair: present when the counterpart has more
      entries than the source file. */
  function PairWarning(file: LocFile, targets: seq<LocFile>, fromCode: string, toCode: string): string
    requires fromCode != [] && toCode != []
  {
    if |TargetDictionary(file, targets, fromCode, toCode)| > |ParseLines(file.lines, fromCode, toCode)| then
      var counterpartName := match Counterpart(file, targets, fromCode, toCode)
        case None => ""
        case Some(t) => t.name;
      Warning(counterpartName, file.name)
    else ""
  }

  /** A pair is warned about exactly when the counterpart has more entries
      than the source file. */
  lemma WarnedPairs(file: LocFile, targets: seq<LocFile>, fromCode: string, toCode: string)
    requires fromCode != [] && toCode != []
    ensures PairWarning(file, targets, fromCode, toCode) != ""
      <==> |TargetDictionary(file, targets, fromCode, toCode)| > |ParseLines(file.lines, fromCode, toCode)|
  {
  }

  /** The entries of one source file still to translate. */
  function PairMissing(file: LocFile, targets: seq<LocFile>, fromCode: string, toCode: string): map<string, string>
    requires fromCode != [] && toCode != []
  {
    MissingKeysOnly(ParseLines(file.lines, fromCode, toCode), TargetDictionary(file, targets, fromCode, toCode))
  }

  /** What one source file contributes to a run: the name of its file to
      translate, its warning and its missing entries. */
  datatype Outcome = Outcome(name: string, warning: string, missing: map<string, string>)

  function OutcomeOf(file: LocFile, targets: seq<LocFile>, fromCode: string, toCode: string): Outcome
    requires fromCode != [] && toCode != []
  {
    Outcome(DeltaName(file.stem, fromCode, toCode), PairWarning(file, targets, fromCode, toCode),
      PairMissing(file, targets, fromCode, toCode))
  }

  /** The contribution of every source file, in order. */
  function Outcomes(originals: seq<LocFile>, targets: seq<LocFile>, fromCode: string, toCode: string): (outs: seq<Outcome>)
    requires fromCode != [] && toCode != []
    ensures |outs| == |originals|
  {
    if originals == [] then []
    else
      var last := OutcomeOf(originals[|originals| - 1], targets, fromCode, toCode);
      Outcomes(originals[..|originals| - 1], targets, fromCode, toCode) + [last]
  }

  /** The `i`-th contribution is that of the `i`-th source file. */
  lemma {:induction false} OutcomesAt(originals: seq<LocFile>, targets: seq<LocFile>, fromCode: string, toCode: string, i: nat)
    requires fromCode != [] && toCode != [] && i < |originals|
    ensures Outcomes(originals, targets, fromCode, toCode)[i] == OutcomeOf(originals[i], targets, fromCode, toCode)
  {
    var front := originals[..|originals| - 1];
    if i < |front| {
      OutcomesAt(front, targets, fromCode, toCode, i);
    }
  }

  /** The report after one more file: its warning is appended, and a file to
      write is added only when some entries are missing. */
  function Advance(before: Report, o: Outcome): Report {
    if |o.missing| > 0 then
      Report(before.warnings + o.warning, before.deltas + [Delta(o.name, o.missing)], before.total + |o.missing|)
    else
      Report(before.warnings + o.warning, before.deltas, before.total)
  }

  /** The report after the first `n` contributions, in order. */
  function Fold(outs: seq<Outcome>, n: nat): Report
    requires n <= |outs|
  {
    if n == 0 then Report("", [], 0) else Advance(Fold(outs, n - 1), outs[n - 1])
  }

  /** A run's report: source files are those whose name holds the source code,
      candidates those whose name holds the target code. */
  function RunReport(files: seq<LocFile>, fromCode: string, toCode: string): Report
    requires fromCode != [] && toCode != []
  {
    var outs := Outcomes(WithCode(files, fromCode), WithCode(files, toCode), fromCode, toCode);
    Fold(outs, |outs|)
  }

  /** Every file to write holds at least one entry and comes from one of the
      contributions folded so far. */
  lemma {:induction false} FoldDeltas(outs: seq<Outcome>, n: nat)
    requires n <= |outs|
    ensures forall d :: d in Fold(outs, n).deltas ==>
      d.entries != map[] && exists i :: 0 <= i < n && d == Delta(outs[i].name, outs[i].missing)
  {
    if n > 0 {
      FoldDeltas(outs, n - 1);
      var o := outs[n - 1];
      forall d | d in Fold(outs, n).deltas
        ensures d.entries != map[] && exists i :: 0 <= i < n && d == Delta(outs[i].name, outs[i].missing)
      {
        if d !in Fold(outs, n - 1).deltas {
          assert d == Delta(o.name, o.missing) && |o.missing| > 0;
        }
      }
    }
  }

  /** The total reported is the number of entries in the files to write. */
  lemma {:induction false} FoldTotal(outs: seq<Outcome>, n: nat)
    requires n <= |outs|
    ensures Fold(outs, n).total == TotalEntries(Fold(outs, n).deltas)
  {
    if n > 0 {
      FoldTotal(outs, n - 1);
      var o := outs[n - 1];
      if |o.missing| > 0 {
        TotalEntriesSnoc(Fold(outs, n - 1).deltas, Delta(o.name, o.missing));
      }
    }
  }

  /** Every contribution with missing entries gets a file to write. */
  lemma {:induction false} FoldCovers(outs: seq<Outcome>, n: nat, j: nat)
    requires j < n <= |outs| && outs[j].missing != map[]
    ensures Delta(outs[j].name, outs[j].missing) in Fold(outs, n).deltas
  {
    if j < n - 1 {
      FoldCovers(outs, n - 1, j);
    }
  }

  /** The files as written: each delta's entries in ascending key order under
      the target code. */
  ghost function Rendered(deltas: seq<Delta>, toCode: string): (written: seq<OutputFile>)
    ensures |written| == |deltas|
    decreases |deltas|
  {
    if deltas == [] then []
    else
      var d := deltas[|deltas| - 1];
      Rendered(deltas[..|deltas| - 1], toCode) + [OutputFile(d.name, YamlLines(toCode, SortedListing(d.entries)))]
  }

  /** One written file per delta, in order: its name, and its entries in
      ascending key order under the target code. */
  lemma {:induction false} RenderedAt(deltas: seq<Delta>, toCode: string, i: nat)
    requires i < |deltas|
    ensures |Rendered(deltas, toCode)| == |deltas|
    ensures Rendered(deltas, toCode)[i] == OutputFile(deltas[i].name, YamlLines(toCode, SortedListing(deltas[i].entries)))
    decreases |deltas|
  {
    var front := deltas[..|deltas| - 1];
    if i < |front| {
      RenderedAt(front, toCode, i);
    } else if front != [] {
      RenderedAt(front, toCode, 0);
    }
  }

  lemma RenderedSnoc(deltas: seq<Delta>, d: Delta, toCode: string)
    ensures Rendered(deltas + [d], toCode)
      == Rendered(deltas, toCode) + [OutputFile(d.name, YamlLines(toCode, SortedListing(d.entries)))]
  {
    assert (deltas + [d])[..|deltas|] == deltas;
  }

  function TotalEntries(deltas: seq<Delta>): nat {
    if deltas == [] then 0 else TotalEntries(deltas[..|deltas| - 1]) + |deltas[|deltas| - 1].entries|
  }

  lemma TotalEntriesSnoc(deltas: seq<Delta>, d: Delta)
    ensures TotalEntries(deltas + [d]) == TotalEntries(deltas) + |d.entries|
  {
    assert (deltas + [d])[..|deltas|] == deltas;
  }

  /** The number reported is the number of entries written. */
  lemma RunTotal(files: seq<LocFile>, fromCode: string, toCode: string)
    requires fromCode != [] && toCode != []
    ensures RunReport(files, fromCode, toCode).total == TotalEntries(RunReport(files, fromCode, toCode).deltas)
  {
    var outs := Outcomes(WithCode(files, fromCode), WithCode(files, toCode), fromCode, toCode);
    FoldTotal(outs, |outs|);
  }

  /** `d` is what source file `f` contributes: its file's name, and its
      entries that its counterpart among `files` lacks. */
  predicate ContributedBy(d: Delta, f: LocFile, files: seq<LocFile>, fromCode: string, toCode: string)
    requires fromCode != [] && toCode != []
  {
    d == Delta(DeltaName(f.stem, fromCode, toCode), PairMissing(f, WithCode(files, toCode), fromCode, toCode))
  }

  /** Every file written holds at least one entry, and it holds exactly the
      entries of one source file that its counterpart lacks. */
  lemma RunDeltas(files: seq<LocFile>, fromCode: string, toCode: string)
    requires fromCode != [] && toCode != []
    ensures forall d :: d in RunReport(files, fromCode, toCode).deltas ==>
      d.entries != map[] && exists f :: f in files && Contains(f.stem, fromCode) && ContributedBy(d, f, files, fromCode, toCode)
  {
    var originals := WithCode(files, fromCode);
    var outs := Outcomes(originals, WithCode(files, toCode), fromCode, toCode);
    FoldDeltas(outs, |outs|);
    WithCodeSelects(files, fromCode);
    forall d | d in RunReport(files, fromCode, toCode).deltas
      ensures exists f :: f in files && Contains(f.stem, fromCode) && ContributedBy(d, f, files, fromCode, toCode)
    {
      var i :| 0 <= i < |outs| && d == Delta(outs[i].name, outs[i].missing);
      OutcomesAt(originals, WithCode(files, toCode), fromCode, toCode, i);
      assert originals[i] in originals;
    }
  }

  /** A source file gets a file to translate whenever some of its entries are
      missing from its counterpart. */
  lemma RunCoversEveryFile(files: seq<LocFile>, fromCode: string, toCode: string, f: LocFile)
    requires fromCode != [] && toCode != []
    requires f in files && Contains(f.stem, fromCode)
    requires PairMissing(f, WithCode(files, toCode), fromCode, toCode) != map[]
    ensures Delta(DeltaName(f.stem, fromCode, toCode), PairMissing(f, WithCode(files, toCode), fromCode, toCode))
      in RunReport(files, fromCode, toCode).deltas
  {
    var originals := WithCode(files, fromCode);
    var outs := Outcomes(originals, WithCode(files, toCode), fromCode, toCode);
    WithCodeSelects(files, fromCode);
    var j :| 0 <= j < |originals| && originals[j] == f;
    OutcomesAt(originals, WithCode(files, toCode), fromCode, toCode, j);
    FoldCovers(outs, |outs|, j);
  }

  /** Every written file, read back as the generator reads files, gives back
      the entries it was written from, as long as the input lines hold no
      line break (as `File.ReadAllLines` guarantees). */
  lemma WrittenFilesReadBack(files: seq<LocFile>, fromCode: string, toCode: string)
    requires PlainCode(fromCode) && PlainCode(toCode)
    requires forall f :: f in files ==> forall i :: 0 <= i < |f.lines| ==> '\n' !in f.lines[i]
    ensures var deltas := RunReport(files, fromCode, toCode).deltas;
      forall i :: 0 <= i < |deltas| ==>
        ParseLines(Rendered(deltas, toCode)[i].lines, fromCode, toCode) == deltas[i].entries
  {
    var deltas := RunReport(files, fromCode, toCode).deltas;
    RunDeltas(files, fromCode, toCode);
    forall i | 0 <= i < |deltas|
      ensures ParseLines(Rendered(deltas, toCode)[i].lines, fromCode, toCode) == deltas[i].entries
    {
      var d := deltas[i];
      RenderedAt(deltas, toCode, i);
      assert d in deltas;
      var f :| f in files && Contains(f.stem, fromCode) && ContributedBy(d, f, files, fromCode, toCode);
      ParsedDictionaryWellFormed(f.lines, fromCode, toCode);
      YamlRoundTrip(d.entries, fromCode, toCode);
    }
  }

  /** Storing an entry over a dictionary laid on a base is storing it in the
      dictionary on top. */
  lemma OverlayPut(base: map<string, string>, top: map<string, string>, entry: Option<Entry>)
    ensures Put(base + top, entry) == base + Put(top, entry)
  {
  }

  /** Storing line `i`'s entry over a dictionary that holds the first `i`
      lines on top of `base` gives the first `i + 1` lines on top of `base`. */
  lemma FillStep(base: map<string, string>, lines: seq<string>, i: nat, originalCode: string, newCode: string)
    requires i < |lines|
    ensures Put(base + ParseLines(lines[..i], originalCode, newCode), ParseLine(lines[i], originalCode, newCode))
      == base + ParseLines(lines[..i + 1], originalCode, newCode)
  {
    assert lines[..i + 1][..i] == lines[..i];
    OverlayPut(base, ParseLines(lines[..i], originalCode, newCode), ParseLine(lines[i], originalCode, newCode));
  }

  lemma EmptyOverlay(m: map<string, string>)
    ensures map[] + m == m
  {
  }

  /* ---------- The service ---------- */

  class GenerateFileToTranslateService {
    var originalLanguageDictionary: map<string, string>
    var newLanguageDictionary: map<string, string>
    var finalEntries: seq<Entry>
    var originalLanguageCode: string
    var newLanguageCode: string

    constructor ()
      ensures originalLanguageDictionary == map[] && newLanguageDictionary == map[]
      ensures finalEntries == [] && originalLanguageCode == "" && newLanguageCode == ""
    {
      originalLanguageDictionary := map[];
      newLanguageDictionary := map[];
      finalEntries := [];
      originalLanguageCode := "";
      newLanguageCode := "";
    }

    /** Reads the lines of one file into the source or the target dictionary:
        each entry is stored over whatever the dictionary held for its key. */
    method FillDictionaries(lines: seq<string>, isOriginalLanguage: bool)
      modifies this
      ensures isOriginalLanguage ==>
        originalLanguageDictionary == old(originalLanguageDictionary) + ParseLines(lines, originalLanguageCode, newLanguageCode)
        && newLanguageDictionary == old(newLanguageDictionary)
      ensures !isOriginalLanguage ==>
        newLanguageDictionary == old(newLanguageDictionary) + ParseLines(lines, originalLanguageCode, newLanguageCode)
        && originalLanguageDictionary == old(originalLanguageDictionary)
      ensures finalEntries == old(finalEntries)
      ensures originalLanguageCode == old(originalLanguageCode) && newLanguageCode == old(newLanguageCode)
    {
      var i := 0;
      while i < |lines|
        invariant 0 <= i <= |lines|
        invariant originalLanguageCode == old(originalLanguageCode) && newLanguageCode == old(newLanguageCode)
        invariant finalEntries == old(finalEntries)
        invariant isOriginalLanguage ==>
          originalLanguageDictionary == old(originalLanguageDictionary) + ParseLines(lines[..i], originalLanguageCode, newLanguageCode)
          && newLanguageDictionary == old(newLanguageDictionary)
        invariant !isOriginalLanguage ==>
          newLanguageDictionary == old(newLanguageDictionary) + ParseLines(lines[..i], originalLanguageCode, newLanguageCode)
          && originalLanguageDictionary == old(originalLanguageDictionary)
      {
        var entry := ParseLine(lines[i], originalLanguageCode, newLanguageCode);
        FillStep(if isOriginalLanguage then old(originalLanguageDictionary) else old(newLanguageDictionary),
                 lines, i, originalLanguageCode, newLanguageCode);
        if entry.Some? {
          var (key, value) := entry.value;
          if isOriginalLanguage {
            originalLanguageDictionary := originalLanguageDictionary[key := value];
          } else {
            newLanguageDictionary := newLanguageDictionary[key := value];
          }
        }
        i := i + 1;
      }
      assert lines[..|lines|] == lines;
    }

    /** The lines of the generated file for the current sorted entries. */
    method FormatDictionaryToYaml() returns (lines: seq<string>)
      ensures lines == YamlLines(newLanguageCode, finalEntries)
    {
      lines := [newLanguageCode + ":"];
      var i := 0;
      while i < |finalEntries|
        invariant 0 <= i <= |finalEntries|
        invariant lines == YamlLines(newLanguageCode, finalEntries[..i])
      {
        lines := lines + [EntryLine(finalEntries[i])];
        i := i + 1;
      }
      assert finalEntries[..i] == finalEntries;
    }

    /** Clears the dictionaries and reads a source file and its counterpart,
        if it has one, into them. */
    method ReadPair(file: LocFile, filesFromNewLanguage: seq<LocFile>) returns (matchingFile: Option<LocFile>)
      requires originalLanguageCode != [] && newLanguageCode != []
      modifies this
      ensures originalLanguageCode == old(originalLanguageCode) && newLanguageCode == old(newLanguageCode)
      ensures matchingFile == Counterpart(file, filesFromNewLanguage, originalLanguageCode, newLanguageCode)
      ensures originalLanguageDictionary == ParseLines(file.lines, originalLanguageCode, newLanguageCode)
      ensures newLanguageDictionary == TargetDictionary(file, filesFromNewLanguage, originalLanguageCode, newLanguageCode)
    {
      originalLanguageDictionary := map[];
      newLanguageDictionary := map[];
      finalEntries := [];
      matchingFile := Counterpart(file, filesFromNewLanguage, originalLanguageCode, newLanguageCode);
      FillDictionaries(file.lines, true);
      EmptyOverlay(ParseLines(file.lines, originalLanguageCode, newLanguageCode));
      if matchingFile.Some? {
        FillDictionaries(matchingFile.value.lines, false);
        EmptyOverlay(ParseLines(matchingFile.value.lines, originalLanguageCode, newLanguageCode));
      }
    }

    /** The body of the run for one source file: reads it and its
        counterpart, and gives the warning, the missing entries and the lines
        of the file to write for them. */
    method GenerateForFile(originals: seq<LocFile>, i: nat, filesFromNewLanguage: seq<LocFile>)
      returns (name: string, warning: string, missing: map<string, string>, content: seq<string>)
      requires originalLanguageCode != [] && newLanguageCode != [] && i < |originals|
      modifies this
      ensures originalLanguageCode == old(originalLanguageCode) && newLanguageCode == old(newLanguageCode)
      ensures Outcome(name, warning, missing) == Outcomes(originals, filesFromNewLanguage, originalLanguageCode, newLanguageCode)[i]
      ensures |missing| > 0 ==> content == YamlLines(newLanguageCode, SortedListing(missing))
    {
      var file := originals[i];
      OutcomesAt(originals, filesFromNewLanguage, originalLanguageCode, newLanguageCode, i);
      name := DeltaName(file.stem, originalLanguageCode, newLanguageCode);
      var matchingFile := ReadPair(file, filesFromNewLanguage);
      warning := "";
      if |newLanguageDictionary| > |originalLanguageDictionary| {
        var counterpartName := if matchingFile.Some? then matchingFile.value.name else "";
        warning := Warning(counterpartName, file.name);
      }
      missing := MissingKeysOnly(originalLanguageDictionary, newLanguageDictionary);
      finalEntries := OrderByKey(missing);
      content := [];
      if |finalEntries| > 0 {
        content := FormatDictionaryToYaml();
      }
    }

    /** Accounts for one source file: its warning joins the message, and when
        entries are missing their file is written and their number counted. */
    method Record(report: Report, written: seq<OutputFile>, name: string, warning: string,
                  missing: map<string, string>, content: seq<string>)
      returns (after: Report, writtenAfter: seq<OutputFile>)
      requires written == Rendered(report.deltas, newLanguageCode)
      requires |missing| > 0 ==> content == YamlLines(newLanguageCode, SortedListing(missing))
      ensures after == Advance(report, Outcome(name, warning, missing))
      ensures writtenAfter == Rendered(after.deltas, newLanguageCode)
    {
      var outputMessage := report.warnings + warning;
      var amountOfLinesToTranslate := report.total;
      writtenAfter := written;
      after := Report(outputMessage, report.deltas, amountOfLinesToTranslate);
      if |missing| > 0 {
        RenderedSnoc(report.deltas, Delta(name, missing), newLanguageCode);
        writtenAfter := written + [OutputFile(name, content)];
        amountOfLinesToTranslate := amountOfLinesToTranslate + |missing|;
        after := Report(outputMessage, report.deltas + [Delta(name, missing)], amountOfLinesToTranslate);
      }
    }

    /** One run over the selected files: for each source file, its entries
        missing from its counterpart are written, sorted, to a file of their
        own; the message gathers the warnings and the number of entries. */
    method GenerateFile(files: seq<LocFile>, fromLanguage: string, toLanguage: string)
      returns (message: string, written: seq<OutputFile>)
      requires fromLanguage != [] && toLanguage != []
      modifies this
      ensures originalLanguageCode == fromLanguage && newLanguageCode == toLanguage
      ensures message == RunReport(files, fromLanguage, toLanguage).warnings
        + AmountLabel + NatToString(RunReport(files, fromLanguage, toLanguage).total)
      ensures written == Rendered(RunReport(files, fromLanguage, toLanguage).deltas, toLanguage)
    {
      originalLanguageCode := fromLanguage;
      newLanguageCode := toLanguage;
      var filesFromOriginalLanguage := WithCode(files, fromLanguage);
      var filesFromNewLanguage := WithCode(files, toLanguage);
      ghost var outs := Outcomes(filesFromOriginalLanguage, filesFromNewLanguage, fromLanguage, toLanguage);
      var report := Report("", [], 0);
      written := [];
      var i := 0;
      while i < |filesFromOriginalLanguage|
        invariant 0 <= i <= |filesFromOriginalLanguage|
        invariant originalLanguageCode == fromLanguage && newLanguageCode == toLanguage
        invariant Fold(outs, i) == report
        invariant written == Rendered(report.deltas, toLanguage)
      {
        var name, warning, missing, content := GenerateForFile(filesFromOriginalLanguage, i, filesFromNewLanguage);
        report, written := Record(report, written, name, warning, missing, content);
        i := i + 1;
      }
      message := report.warnings + AmountLabel + NatToString(report.total);
    }
  }
}
