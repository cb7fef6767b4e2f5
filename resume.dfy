/**
 * Resuming a translation: the keys already present in an output file are
 * collected, and the lines of the source file whose key is among them are
 * not translated again.
 */
module Resuming {
  import opened Wrappers
  import opened Text

  /** The key a line holds as the resume step reads it: the trimmed text
      before the first `:` of the trimmed line. A blank line, a comment and a
      line whose trimmed form has no `:` after its first character hold none. */
  function ResumeKey(line: string): (key: Option<string>)
    ensures key.Some? ==> ':' !in key.value
  {
    var trimmed := Trim(line);
    if trimmed == [] || trimmed[0] == '#' then None
    else
      var colon := IndexOf(trimmed, ':');
      if colon <= 0 then None
      else
        TrimByShape(trimmed[..colon], IsWhiteSpace);
        Some(Trim(trimmed[..colon]))
  }

  /** The keys `keyOf` finds in the elements of `xs`. */
  function KeysOf<T>(xs: seq<T>, keyOf: T -> Option<string>): set<string> {
    if xs == [] then {}
    else
      var key := keyOf(xs[|xs| - 1]);
      KeysOf(xs[..|xs| - 1], keyOf) + (if key.Some? then {key.value} else {})
  }

  lemma {:induction false} KeysOfMeaning<T>(xs: seq<T>, keyOf: T -> Option<string>, key: string)
    ensures key in KeysOf(xs, keyOf) <==> exists i :: 0 <= i < |xs| && keyOf(xs[i]) == Some(key)
  {
    if xs != [] {
      var front := xs[..|xs| - 1];
      KeysOfMeaning(front, keyOf, key);
      if key in KeysOf(front, keyOf) {
        var i :| 0 <= i < |front| && keyOf(front[i]) == Some(key);
        assert xs[i] == front[i];
      }
      if exists i :: 0 <= i < |xs| && keyOf(xs[i]) == Some(key) {
        var i :| 0 <= i < |xs| && keyOf(xs[i]) == Some(key);
        if i < |front| {
          assert front[i] == xs[i];
        }
      }
    }
  }

  /** The keys held by the lines of `lines`. */
  function KeysIn(lines: seq<string>): set<string> {
    KeysOf(lines, ResumeKey)
  }

  /** A key is collected exactly when some line holds it. */
  lemma KeysInMeaning(lines: seq<string>, key: string)
    ensures key in KeysIn(lines) <==> exists i :: 0 <= i < |lines| && ResumeKey(lines[i]) == Some(key)
  {
    KeysOfMeaning(lines, ResumeKey, key);
  }

  /** The lines of an output file after its first one, which is its language
      header (`Skip(1)`). */
  function AfterHeader(existingLines: seq<string>): seq<string> {
    if existingLines == [] then [] else existingLines[1..]
  }

  /** The keys already translated into an output file. */
  function ExistingKeys(existingLines: seq<string>): set<string> {
    KeysIn(AfterHeader(existingLines))
  }

  /** The loop that reads the keys of an existing output file, skipping its
      header line. */
  method CollectExistingKeys(existingLines: seq<string>) returns (existingKeys: set<string>)
    ensures existingKeys == ExistingKeys(existingLines)
  {
    existingKeys := {};
    if existingLines == [] {
      return;
    }
    var i := 1;
    while i < |existingLines|
      invariant 1 <= i <= |existingLines|
      invariant existingKeys == KeysIn(existingLines[1..i])
    {
      var key := ResumeKey(existingLines[i]);
      assert existingLines[1..i + 1][..i - 1] == existingLines[1..i];
      if key.Some? {
        existingKeys := existingKeys + {key.value};
      }
      i := i + 1;
    }
    assert existingLines[1..i] == existingLines[1..];
  }

  /** A source line is translated unless it holds a key already translated. */
  predicate Kept(line: string, existingKeys: set<string>) {
    match ResumeKey(line)
    case None => true
    case Some(key) => key !in existingKeys
  }

  /** The elements of `xs` that satisfy `keep`, in their order (LINQ `Where`). */
  function Filter<T>(xs: seq<T>, keep: T -> bool): (kept: seq<T>)
    ensures |kept| <= |xs|
  {
    if xs == [] then []
    else Filter(xs[..|xs| - 1], keep) + (if keep(xs[|xs| - 1]) then [xs[|xs| - 1]] else [])
  }

  lemma {:induction false} FilterMembers<T>(xs: seq<T>, keep: T -> bool, x: T)
    ensures x in Filter(xs, keep) <==> x in xs && keep(x)
  {
    if xs != [] {
      var front := xs[..|xs| - 1];
      FilterMembers(front, keep, x);
      assert xs == front + [xs[|xs| - 1]];
    }
  }

  lemma {:induction false} FilterAppend<T>(first: seq<T>, second: seq<T>, keep: T -> bool)
    ensures Filter(first + second, keep) == Filter(first, keep) + Filter(second, keep)
    decreases |second|
  {
    if second == [] {
      assert first + second == first;
    } else {
      var front := second[..|second| - 1];
      FilterAppend(first, front, keep);
      assert (first + second)[..|first + second| - 1] == first + front;
    }
  }

  lemma {:induction false} FilterAll<T>(xs: seq<T>, keep: T -> bool)
    requires forall i :: 0 <= i < |xs| ==> keep(xs[i])
    ensures Filter(xs, keep) == xs
  {
    if xs != [] {
      FilterAll(xs[..|xs| - 1], keep);
    }
  }

  /** The test the resume filter applies, for a given set of translated keys. */
  function KeepFor(existingKeys: set<string>): string -> bool {
    line => Kept(line, existingKeys)
  }

  /** The resume filter: the source lines that are kept, in their order. A
      line survives exactly when it is a source line that holds no key already
      translated. */
  function Resume(lines: seq<string>, existingKeys: set<string>): (resumed: seq<string>)
    ensures |resumed| <= |lines|
    ensures forall line :: line in resumed <==> line in lines && Kept(line, existingKeys)
  {
    var keep := KeepFor(existingKeys);
    assert forall line :: line in Filter(lines, keep) <==> line in lines && Kept(line, existingKeys) by {
      forall line
        ensures line in Filter(lines, keep) <==> line in lines && Kept(line, existingKeys)
      {
        FilterMembers(lines, keep, line);
      }
    }
    Filter(lines, keep)
  }

  /** The filter keeps the order of the lines: filtering two parts one after
      the other gives the filtered whole. */
  lemma ResumeAppend(first: seq<string>, second: seq<string>, existingKeys: set<string>)
    ensures Resume(first + second, existingKeys) == Resume(first, existingKeys) + Resume(second, existingKeys)
  {
    FilterAppend(first, second, KeepFor(existingKeys));
  }

  /** With no key translated yet, every line is kept. */
  lemma ResumeNothing(lines: seq<string>)
    ensures Resume(lines, {}) == lines
  {
    FilterAll(lines, KeepFor({}));
  }

  /** A freshly created output file holds only its header, so it adds no key. */
  lemma FreshOutputKeepsAll(header: string, lines: seq<string>)
    ensures Resume(lines, ExistingKeys([header])) == lines
  {
    ResumeNothing(lines);
  }
}
