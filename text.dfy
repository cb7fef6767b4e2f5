/**
 * The .NET string operations the three services are built from, on strings
 * modelled as sequences of characters: trimming, prefix and substring tests,
 * `IndexOf`, `Replace`, `Split`, `string.Join`, decimal formatting and the
 * ordinal order used to sort keys.
 */
module Text {

  /** `char.IsWhiteSpace`: the separators of Unicode categories Zs, Zl and Zp,
      the controls U+0009 to U+000D and U+0085. The regex class `\s` is the
      same set. */
  predicate IsWhiteSpace(c: char) {
    c == ' ' || ('\t' <= c <= '\r') || c == '\U{0085}' || c == '\U{00A0}' || c == '\U{1680}'
    || ('\U{2000}' <= c <= '\U{200A}') || c == '\U{2028}' || c == '\U{2029}'
    || c == '\U{202F}' || c == '\U{205F}' || c == '\U{3000}'
  }

  /** `string.IsNullOrWhiteSpace` on a non-null string. */
  predicate IsBlank(s: string) {
    forall i :: 0 <= i < |s| ==> IsWhiteSpace(s[i])
  }

  /** Drops the longest prefix made of characters that satisfy `drop`. */
  function TrimStartBy(s: string, drop: char -> bool): string
  {
    if s == [] || !drop(s[0]) then s else TrimStartBy(s[1..], drop)
  }

  /** What is left is a suffix that starts with a kept character, and every
      character cut off is dropped. */
  lemma {:induction false} TrimStartByShape(s: string, drop: char -> bool)
    ensures var r := TrimStartBy(s, drop);
      && |r| <= |s| && r == s[|s| - |r|..]
      && (r == [] || !drop(r[0]))
      && forall i :: 0 <= i < |s| - |r| ==> drop(s[i])
    decreases |s|
  {
    if s != [] && drop(s[0]) {
      TrimStartByShape(s[1..], drop);
    }
  }

  /** Drops the longest suffix made of characters that satisfy `drop`. */
  function TrimEndBy(s: string, drop: char -> bool): string
  {
    if s == [] || !drop(s[|s| - 1]) then s else TrimEndBy(s[..|s| - 1], drop)
  }

  /** What is left is a prefix that ends with a kept character, and every
      character cut off is dropped. */
  lemma {:induction false} TrimEndByShape(s: string, drop: char -> bool)
    ensures var r := TrimEndBy(s, drop);
      && |r| <= |s| && r == s[..|r|]
      && (r == [] || !drop(r[|r| - 1]))
      && forall i :: |r| <= i < |s| ==> drop(s[i])
    decreases |s|
  {
    if s != [] && drop(s[|s| - 1]) {
      TrimEndByShape(s[..|s| - 1], drop);
    }
  }

  /** `s.Trim(chars)`: both ends at once. */
  function TrimBy(s: string, drop: char -> bool): string
  {
    TrimEndBy(TrimStartBy(s, drop), drop)
  }

  /** Trimming both ends leaves a piece of the text whose ends are kept. */
  lemma TrimByShape(s: string, drop: char -> bool)
    ensures var r := TrimBy(s, drop);
      && (r == [] || (!drop(r[0]) && !drop(r[|r| - 1])))
      && |r| <= |s|
      && forall c :: c in r ==> c in s
  {
    var front := TrimStartBy(s, drop);
    TrimStartByShape(s, drop);
    TrimEndByShape(front, drop);
    var r := TrimEndBy(front, drop);
    assert forall c :: c in r ==> c in front;
  }

  /** Trimming a prefix made only of dropped characters, up to a kept one, leaves the rest. */
  lemma {:induction false} TrimStartByPast(p: string, t: string, drop: char -> bool)
    requires forall i :: 0 <= i < |p| ==> drop(p[i])
    requires t == [] || !drop(t[0])
    ensures TrimStartBy(p + t, drop) == t
    decreases |p|
  {
    if p != [] {
      assert (p + t)[1..] == p[1..] + t;
      TrimStartByPast(p[1..], t, drop);
    }
  }

  /** Trimming a suffix made only of dropped characters, back to a kept one, leaves the rest. */
  lemma {:induction false} TrimEndByPast(t: string, p: string, drop: char -> bool)
    requires forall i :: 0 <= i < |p| ==> drop(p[i])
    requires t == [] || !drop(t[|t| - 1])
    ensures TrimEndBy(t + p, drop) == t
    decreases |p|
  {
    if p != [] {
      assert (t + p)[..|t + p| - 1] == t + p[..|p| - 1];
      TrimEndByPast(t, p[..|p| - 1], drop);
    }
  }

  /** When a prefix of `s` still has a kept character, trimming `s` starts at
      the same character as trimming that prefix. */
  lemma TrimByFirstOfPrefix(s: string, n: nat, drop: char -> bool)
    requires n <= |s| && TrimBy(s[..n], drop) != []
    ensures TrimBy(s, drop) != [] && TrimBy(s, drop)[0] == TrimBy(s[..n], drop)[0]
  {
    var front := TrimStartBy(s[..n], drop);
    TrimStartByShape(s[..n], drop);
    TrimEndByShape(front, drop);
    var p := n - |front|;
    assert front != [] && front == s[p..n] && !drop(s[p]);
    assert forall i :: 0 <= i < p ==> drop(s[..p][i]) by {
      forall i | 0 <= i < p ensures drop(s[..p][i]) { assert s[..p][i] == s[..n][i]; }
    }
    assert s == s[..p] + s[p..];
    TrimStartByPast(s[..p], s[p..], drop);
    var whole := TrimStartBy(s, drop);
    assert whole == s[p..];
    assert !drop(whole[0]);
    TrimEndByShape(whole, drop);
  }

  /** Trimming the end of a text that ends with a kept character changes nothing. */
  lemma TrimEndByKept(s: string, drop: char -> bool)
    requires s == [] || !drop(s[|s| - 1])
    ensures TrimEndBy(s, drop) == s
  {
  }

  /** `s.Trim()` */
  function Trim(s: string): string {
    TrimBy(s, IsWhiteSpace)
  }

  /** A trimmed text is left as it is by a second trim. */
  lemma TrimTwice(s: string)
    ensures Trim(Trim(s)) == Trim(s)
  {
    var r := Trim(s);
    TrimByShape(s, IsWhiteSpace);
    TrimStartByPast([], r, IsWhiteSpace);
    assert [] + r == r;
    TrimEndByKept(r, IsWhiteSpace);
  }

  /** `s.TrimStart()` */
  function TrimStart(s: string): string {
    TrimStartBy(s, IsWhiteSpace)
  }

  /** Ordinal `s.StartsWith(prefix)`; every string starts with "". */
  predicate StartsWith(s: string, prefix: string) {
    |prefix| <= |s| && s[..|prefix|] == prefix
  }

  /** Ordinal `s.Contains(sub)`. */
  predicate Contains(s: string, sub: string)
    decreases |s|
  {
    StartsWith(s, sub) || (s != [] && Contains(s[1..], sub))
  }

  /** `s.IndexOf(c)`: the first position of `c`, or -1. */
  function IndexOf(s: string, c: char): (r: int)
    ensures -1 <= r < |s|
    ensures r == -1 <==> c !in s
    ensures r >= 0 ==> s[r] == c && c !in s[..r]
  {
    if s == [] then -1
    else if s[0] == c then 0
    else
      var r := IndexOf(s[1..], c);
      assert s == [s[0]] + s[1..];
      if r == -1 then -1 else assert s[..r + 1] == [s[0]] + s[1..][..r]; r + 1
  }

  /** The first position holding `c` is the one `IndexOf` finds. */
  lemma {:induction false} IndexOfAt(s: string, c: char, n: nat)
    requires n < |s| && s[n] == c && c !in s[..n]
    ensures IndexOf(s, c) == n
    decreases n
  {
    if n > 0 {
      assert s[0] == s[..n][0];
      assert s[1..][..n - 1] == s[1..n];
      assert forall x :: x in s[1..n] ==> x in s[..n];
      IndexOfAt(s[1..], c, n - 1);
    }
  }

  /** `s.Replace(pattern, replacement)`: every occurrence found by a left-to-right
      scan, without overlaps. .NET throws when `pattern` is empty. */
  function Replace(s: string, pattern: string, replacement: string): (r: string)
    requires pattern != []
    ensures !Contains(s, pattern) ==> r == s
    decreases |s|
  {
    if |s| < |pattern| then s
    else if StartsWith(s, pattern) then replacement + Replace(s[|pattern|..], pattern, replacement)
    else [s[0]] + Replace(s[1..], pattern, replacement)
  }

  /** The pattern alone is replaced whole. */
  lemma ReplaceItself(pattern: string, replacement: string)
    requires pattern != []
    ensures Replace(pattern, pattern, replacement) == replacement
  {
    assert pattern[..|pattern|] == pattern;
    assert Replace(pattern[|pattern|..], pattern, replacement) == [];
  }

  /** Replacing skips a part in which no occurrence starts. */
  lemma {:induction false} ReplaceSkips(a: string, b: string, pattern: string, replacement: string)
    requires pattern != []
    requires forall j :: 0 <= j < |a| ==> !StartsWith((a + b)[j..], pattern)
    ensures Replace(a + b, pattern, replacement) == a + Replace(b, pattern, replacement)
    decreases |a|
  {
    if a == [] {
      assert a + b == b;
    } else {
      var ab := a + b;
      var tail := a[1..] + b;
      assert ab[1..] == tail;
      if |ab| < |pattern| {
        assert Replace(b, pattern, replacement) == b;
      } else {
        assert ab[0..] == ab;
        assert !StartsWith(ab, pattern);
        assert Replace(ab, pattern, replacement) == [a[0]] + Replace(tail, pattern, replacement);
        forall j | 0 <= j < |a| - 1
          ensures !StartsWith(tail[j..], pattern)
        {
          assert tail[j..] == ab[j + 1..];
        }
        ReplaceSkips(a[1..], b, pattern, replacement);
        var rest := Replace(b, pattern, replacement);
        calc {
          [a[0]] + (a[1..] + rest);
          ([a[0]] + a[1..]) + rest;
          { assert [a[0]] + a[1..] == a; }
          a + rest;
        }
      }
    }
  }

  /** `s.Split(sep)`: the pieces between separators, empty ones included. */
  function Split(s: string, sep: char): (pieces: seq<string>)
    ensures |pieces| >= 1
    ensures forall i :: 0 <= i < |pieces| ==> sep !in pieces[i]
    decreases |s|
  {
    var i := IndexOf(s, sep);
    if i < 0 then [s] else [s[..i]] + Split(s[i + 1..], sep)
  }

  /** `string.Join(sep, pieces)` */
  function Join(pieces: seq<string>, sep: string): string
    decreases |pieces|
  {
    if pieces == [] then ""
    else if |pieces| == 1 then pieces[0]
    else pieces[0] + sep + Join(pieces[1..], sep)
  }

  /** Splitting at a character and joining back with it gives the text again. */
  lemma {:induction false} SplitJoin(s: string, sep: char)
    ensures Join(Split(s, sep), [sep]) == s
    decreases |s|
  {
    var i := IndexOf(s, sep);
    if i >= 0 {
      var tail := s[i + 1..];
      var rest := Split(tail, sep);
      SplitJoin(tail, sep);
      var pieces := [s[..i]] + rest;
      assert |rest| >= 1 && pieces[1..] == rest;
      assert Join(pieces, [sep]) == s[..i] + [sep] + Join(rest, [sep]);
      assert s == s[..i] + [sep] + tail;
    }
  }

  /** The pieces that are not empty, in order (`StringSplitOptions.RemoveEmptyEntries`). */
  function NonEmpty(pieces: seq<string>): (r: seq<string>)
    ensures |r| <= |pieces|
    ensures forall i :: 0 <= i < |r| ==> r[i] != [] && r[i] in pieces
  {
    if pieces == [] then []
    else if pieces[0] == [] then NonEmpty(pieces[1..])
    else [pieces[0]] + NonEmpty(pieces[1..])
  }

  /** The decimal digit for 0 to 9. */
  function Digit(d: nat): (c: char)
    requires d < 10
    ensures '0' <= c <= '9'
  {
    ['0', '1', '2', '3', '4', '5', '6', '7', '8', '9'][d]
  }

  /** Decimal notation of a count, as string interpolation prints an `int`. */
  function NatToString(n: nat): (r: string)
    ensures r != [] && forall i :: 0 <= i < |r| ==> '0' <= r[i] <= '9'
  {
    if n < 10 then [Digit(n)] else NatToString(n / 10) + [Digit(n % 10)]
  }

  /** Ordinal order on strings: character by character, a proper prefix first. */
  predicate Below(a: string, b: string)
    decreases |a|
  {
    if a == [] then b != []
    else b != [] && (a[0] < b[0] || (a[0] == b[0] && Below(a[1..], b[1..])))
  }

  lemma {:induction false} BelowIrreflexive(a: string)
    ensures !Below(a, a)
    decreases |a|
  {
    if a != [] { BelowIrreflexive(a[1..]); }
  }

  lemma {:induction false} BelowTransitive(a: string, b: string, c: string)
    requires Below(a, b) && Below(b, c)
    ensures Below(a, c)
    decreases |a|
  {
    if a != [] && a[0] == b[0] && b[0] == c[0] {
      BelowTransitive(a[1..], b[1..], c[1..]);
    }
  }

  lemma {:induction false} BelowTotal(a: string, b: string)
    ensures a == b || Below(a, b) || Below(b, a)
    decreases |a|
  {
    if a != [] && b != [] && a[0] == b[0] {
      BelowTotal(a[1..], b[1..]);
      if a[1..] == b[1..] { assert a == [a[0]] + a[1..] && b == [b[0]] + b[1..]; }
    }
  }
}
