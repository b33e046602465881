/** The Python string operations the script relies on: str.strip() with no
    argument, str.lower() and str.split(sep). */
module Text {
  import opened Wrappers
  import opened Sequences

  /** Python's str.isspace(): the characters str.strip() removes. */
  predicate IsSpace(c: char)
  {
    ('\U{9}' <= c <= '\U{D}') || ('\U{1C}' <= c <= '\U{20}') ||
    c == '\U{85}' || c == '\U{A0}' || c == '\U{1680}' ||
    ('\U{2000}' <= c <= '\U{200A}') || c == '\U{2028}' || c == '\U{2029}' ||
    c == '\U{202F}' || c == '\U{205F}' || c == '\U{3000}'
  }

  predicate AllSpace(s: string)
  {
    forall k :: 0 <= k < |s| ==> IsSpace(s[k])
  }

  /** Neither starts nor ends with whitespace. */
  predicate IsStripped(s: string)
  {
    s == [] || (!IsSpace(s[0]) && !IsSpace(s[|s| - 1]))
  }

  /** `r` is `s` with a whitespace-only prefix and suffix cut off. */
  ghost predicate TrimmedFrom(s: string, r: string)
  {
    exists i :: 0 <= i <= |s| - |r| && IsTrimmedAt(s, r, i)
  }

  ghost predicate IsTrimmedAt(s: string, r: string, i: int)
    requires 0 <= i <= |s| - |r|
  {
    s[i..i + |r|] == r && AllSpace(s[..i]) && AllSpace(s[i + |r|..])
  }

  /** Length of the whitespace run that starts `s`. */
  function LeadingSpaces(s: string): (n: nat)
    ensures n <= |s| && AllSpace(s[..n])
    ensures n < |s| ==> !IsSpace(s[n])
  {
    if s == [] || !IsSpace(s[0]) then 0
    else
      var m := LeadingSpaces(s[1..]);
      assert s[..m + 1] == [s[0]] + s[1..][..m];
      m + 1
  }

  /** Length of the whitespace run that ends `s`. */
  function TrailingSpaces(s: string): (n: nat)
    ensures n <= |s| && AllSpace(s[|s| - n..])
    ensures n < |s| ==> !IsSpace(s[|s| - n - 1])
  {
    if s == [] || !IsSpace(s[|s| - 1]) then 0
    else
      var init := s[..|s| - 1];
      var m := TrailingSpaces(init);
      assert s[|s| - (m + 1)..] == init[|init| - m..] + [s[|s| - 1]];
      m + 1
  }

  /** The text between the leading and the trailing whitespace runs. */
  function Middle(s: string): string
  {
    var rest := s[LeadingSpaces(s)..];
    rest[..|rest| - TrailingSpaces(rest)]
  }

  /** The middle is what is left once both runs are cut off. */
  lemma MiddleIsTrimming(s: string)
    ensures |Middle(s)| <= |s| - LeadingSpaces(s)
    ensures IsTrimmedAt(s, Middle(s), LeadingSpaces(s))
  {
    var a := LeadingSpaces(s);
    var rest := s[a..];
    var n := TrailingSpaces(rest);
    var b := |rest| - n;
    var r := rest[..b];
    assert r == Middle(s);
    assert AllSpace(s[..a]);
    assert s[a..a + |r|] == r;
    assert AllSpace(rest[b..]);
    assert s[a + |r|..] == rest[b..];
    assert IsTrimmedAt(s, r, a);
  }

  /** The middle is empty exactly when the text is all whitespace, and
      otherwise starts and ends with a non-space character. */
  lemma MiddleIsStripped(s: string)
    ensures IsStripped(Middle(s))
    ensures Middle(s) == [] <==> AllSpace(s)
  {
    var a := LeadingSpaces(s);
    var rest := s[a..];
    var b := |rest| - TrailingSpaces(rest);
    var r := rest[..b];
    if r == [] {
      assert s == s[..a] + rest[b..];
    } else {
      assert s[a] == r[0] && !IsSpace(s[a]);
    }
  }

  /** Python's str.strip(): the text between the leading and the trailing
      whitespace runs. */
  function Strip(s: string): (r: string)
    ensures IsStripped(r) && TrimmedFrom(s, r)
    ensures r == [] <==> AllSpace(s)
  {
    MiddleIsTrimming(s);
    MiddleIsStripped(s);
    Middle(s)
  }

  /** Two whitespace runs that both start `s` and both stop at a
      non-space character (or the end) are the same run. */
  lemma SameLeadingRun(s: string, i: nat, j: nat)
    requires i <= |s| && j <= |s|
    requires AllSpace(s[..i]) && (i < |s| ==> !IsSpace(s[i]))
    requires AllSpace(s[..j]) && (j < |s| ==> !IsSpace(s[j]))
    ensures i == j
  {
    assert forall k :: 0 <= k < i ==> s[..i][k] == s[k];
    assert forall k :: 0 <= k < j ==> s[..j][k] == s[k];
  }

  /** The same for runs that end `s`, given by where they begin. */
  lemma SameTrailingRun(s: string, e: nat, f: nat)
    requires e <= |s| && f <= |s|
    requires AllSpace(s[e..]) && (0 < e ==> !IsSpace(s[e - 1]))
    requires AllSpace(s[f..]) && (0 < f ==> !IsSpace(s[f - 1]))
    ensures e == f
  {
    assert forall k :: e <= k < |s| ==> s[e..][k - e] == s[k];
    assert forall k :: f <= k < |s| ==> s[f..][k - f] == s[k];
  }

  /** Two non-empty stripped trimmings of the same text coincide. */
  lemma SameTrimming(s: string, t: string, i: nat, r: string, j: nat)
    requires t != [] && IsStripped(t) && i <= |s| - |t| && IsTrimmedAt(s, t, i)
    requires r != [] && IsStripped(r) && j <= |s| - |r| && IsTrimmedAt(s, r, j)
    ensures t == r
  {
    assert s[i..i + |t|][0] == s[i] && s[j..j + |r|][0] == s[j];
    SameLeadingRun(s, i, j);
    var ei, ej := i + |t|, j + |r|;
    assert s[i..ei][|t| - 1] == s[ei - 1] && s[j..ej][|r| - 1] == s[ej - 1];
    SameTrailingRun(s, ei, ej);
  }

  /** Strip is the only way to trim `s` to a stripped string: the two
      properties in its contract determine its result. */
  lemma StripUnique(s: string, t: string)
    requires IsStripped(t) && TrimmedFrom(s, t)
    ensures t == Strip(s)
  {
    var r := Strip(s);
    var i :| 0 <= i <= |s| - |t| && IsTrimmedAt(s, t, i);
    if t == [] {
      assert s == s[..i] + s[i..];
      assert AllSpace(s);
    } else {
      assert s[i..i + |t|][0] == s[i];
      assert !AllSpace(s);
      var j :| 0 <= j <= |s| - |r| && IsTrimmedAt(s, r, j);
      SameTrimming(s, t, i, r, j);
    }
  }

  /** Strip adds no character. */
  lemma StripAddsNothing(s: string, c: char)
    requires c !in s
    ensures c !in Strip(s)
  {
    var r := Strip(s);
    var i :| 0 <= i <= |s| - |r| && IsTrimmedAt(s, r, i);
    assert forall k :: 0 <= k < |r| ==> r[k] == s[i + k];
  }

  /** Text without surrounding whitespace is left as it is. */
  lemma StripKeepsStripped(s: string)
    requires IsStripped(s)
    ensures Strip(s) == s
  {
    assert IsTrimmedAt(s, s, 0);
    StripUnique(s, s);
  }

  /** Stripping twice is stripping once. */
  lemma StripIdempotent(s: string)
    ensures Strip(Strip(s)) == Strip(s)
  {
    StripKeepsStripped(Strip(s));
  }

  /** str.lower() on ASCII letters; every other character is kept. */
  function LowerChar(c: char): char
  {
    if 'A' <= c <= 'Z' then (c as int - 'A' as int + 'a' as int) as char else c
  }

  function Lower(s: string): (r: string)
    ensures |r| == |s|
    ensures forall k :: 0 <= k < |s| ==> !('A' <= r[k] <= 'Z')
    ensures forall k :: 0 <= k < |s| && 'A' <= s[k] <= 'Z' ==> r[k] as int == s[k] as int + ('a' as int - 'A' as int)
    ensures forall k :: 0 <= k < |s| && !('A' <= s[k] <= 'Z') ==> r[k] == s[k]
  {
    seq(|s|, k requires 0 <= k < |s| => LowerChar(s[k]))
  }

  /** Lowercasing twice is lowercasing once. */
  lemma LowerIdempotent(s: string)
    ensures Lower(Lower(s)) == Lower(s)
  {
  }

  /** Text without ASCII capitals is its own lowercase. */
  lemma LowerKeepsLowercase(s: string)
    requires forall k :: 0 <= k < |s| ==> !('A' <= s[k] <= 'Z')
    ensures Lower(s) == s
  {
  }

  /** Python's str.split(sep): the pieces between occurrences of `sep`;
      there is always at least one piece, possibly empty. */
  function Split(s: string, sep: char): (pieces: seq<string>)
    ensures |pieces| >= 1
    ensures forall k :: 0 <= k < |pieces| ==> sep !in pieces[k]
    decreases |s|
  {
    match IndexOf(s, sep)
    case None => [s]
    case Some(i) => [s[..i]] + Split(s[i + 1..], sep)
  }

  /** Python's sep.join(pieces): the inverse of Split. */
  function Join(pieces: seq<string>, sep: char): string
  {
    if |pieces| == 0 then []
    else if |pieces| == 1 then pieces[0]
    else pieces[0] + [sep] + Join(pieces[1..], sep)
  }

  /** Joining the pieces gives back the text that was split. */
  lemma {:induction false} JoinSplit(s: string, sep: char)
    ensures Join(Split(s, sep), sep) == s
    decreases |s|
  {
    match IndexOf(s, sep)
    case None =>
    case Some(i) =>
      var rest := Split(s[i + 1..], sep);
      JoinSplit(s[i + 1..], sep);
      assert ([s[..i]] + rest)[1..] == rest;
      assert s == s[..i] + [sep] + s[i + 1..];
  }

  /** Splitting a join of separator-free pieces gives back the pieces. */
  lemma {:induction false} SplitJoin(pieces: seq<string>, sep: char)
    requires |pieces| >= 1
    requires forall k :: 0 <= k < |pieces| ==> sep !in pieces[k]
    ensures Split(Join(pieces, sep), sep) == pieces
  {
    if |pieces| > 1 {
      var rest := Join(pieces[1..], sep);
      SplitJoin(pieces[1..], sep);
      var s := pieces[0] + [sep] + rest;
      var i := |pieces[0]|;
      assert s[i] == sep && s[..i] == pieces[0];
      assert IndexOf(s, sep) == Some(i);
      assert s[i + 1..] == rest;
      assert pieces == [pieces[0]] + pieces[1..];
    }
  }

  /** Text with one separator splits into the two sides. */
  lemma SplitPair(a: string, b: string, sep: char)
    requires sep !in a && sep !in b
    ensures Split(a + [sep] + b, sep) == [a, b]
  {
    SplitJoin([a, b], sep);
    assert Join([a, b], sep) == a + [sep] + b;
  }
}
