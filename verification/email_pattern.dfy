/** The address check of the recipient loader: Python's
    re.match(r'^[a-zA-Z0-9._%+-]+@[a-zA-Z0-9.-]+\.[a-zA-Z]{2,}$', s),
    restated as predicates over characters. */
module EmailPattern {
  import opened Wrappers
  import opened Sequences
  import opened Text

  predicate IsAsciiLetter(c: char)
  {
    'a' <= c <= 'z' || 'A' <= c <= 'Z'
  }

  predicate IsAsciiDigit(c: char)
  {
    '0' <= c <= '9'
  }

  /** [a-zA-Z0-9._%+-] */
  predicate IsLocalChar(c: char)
  {
    IsAsciiLetter(c) || IsAsciiDigit(c) || c == '.' || c == '_' || c == '%' || c == '+' || c == '-'
  }

  /** [a-zA-Z0-9.-] */
  predicate IsDomainChar(c: char)
  {
    IsAsciiLetter(c) || IsAsciiDigit(c) || c == '.' || c == '-'
  }

  predicate AllLocal(s: string)
  {
    forall k :: 0 <= k < |s| ==> IsLocalChar(s[k])
  }

  predicate AllDomain(s: string)
  {
    forall k :: 0 <= k < |s| ==> IsDomainChar(s[k])
  }

  predicate AllLetters(s: string)
  {
    forall k :: 0 <= k < |s| ==> IsAsciiLetter(s[k])
  }

  /** `s` reads as local-part, '@' at `at`, domain stem, '.' at `dot`, and a
      final label: the pattern's four pieces, each in its character class. */
  predicate MatchesAt(s: string, at: int, dot: int)
  {
    0 < at && at + 1 < dot && dot + 2 < |s| &&
    s[at] == '@' && s[dot] == '.' &&
    AllLocal(s[..at]) && AllDomain(s[at + 1..dot]) && AllLetters(s[dot + 1..])
  }

  /** The regular expression matches the whole of `s` for some choice of
      where the '@' and the final '.' fall (what backtracking searches for). */
  ghost predicate PatternMatches(s: string)
  {
    exists at, dot :: MatchesAt(s, at, dot)
  }

  /** The check without search: the '@' is the first one, the '.' the last one. */
  predicate IsEmail(s: string)
  {
    var at, dot := IndexOf(s, '@'), LastIndexOf(s, '.');
    at.Some? && dot.Some? && MatchesAt(s, at.value, dot.value)
  }

  /** The search-free check accepts exactly the strings the pattern matches. */
  lemma IsEmailIffPattern(s: string)
    ensures IsEmail(s) <==> PatternMatches(s)
  {
    if PatternMatches(s) {
      var at, dot :| MatchesAt(s, at, dot);
      // no '@' before `at`: those are local-part characters
      assert forall k :: 0 <= k < at ==> s[..at][k] == s[k];
      assert '@' !in s[..at];
      assert IndexOf(s, '@') == Some(at);
      // no '.' after `dot`: those are letters
      assert forall k :: dot < k < |s| ==> s[dot + 1..][k - dot - 1] == s[k];
      assert '.' !in s[dot + 1..];
      var last := LastIndexOf(s, '.');
      assert last.Some?;
      assert s[last.value] == '.';
      assert forall k :: last.value < k < |s| ==> s[last.value + 1..][k - last.value - 1] == s[k];
      assert last.value == dot;
    }
  }

  /** re.match with a final `$` also accepts one trailing newline. */
  predicate MatchesEmailPattern(s: string)
  {
    IsEmail(s) || (|s| > 0 && s[|s| - 1] == '\n' && IsEmail(s[..|s| - 1]))
  }

  /** On stripped text, which cannot end in a newline, that makes no difference. */
  lemma StrippedMatch(s: string)
    requires IsStripped(s)
    ensures MatchesEmailPattern(s) <==> IsEmail(s)
  {
  }

  /** `s` is local + "@" + stem + "." + tld. */
  ghost predicate SplitsAs(s: string, local: string, stem: string, tld: string)
  {
    s == local + "@" + stem + "." + tld
  }

  /** An accepted address has exactly one '@', a non-empty local part and
      domain stem, and after its last '.' two or more ASCII letters. */
  lemma AcceptedShape(s: string)
    requires IsEmail(s)
    ensures multiset(s)['@'] == 1
    ensures exists local, stem, tld :: (SplitsAs(s, local, stem, tld) &&
      |local| > 0 && |stem| > 0 && |tld| >= 2 && AllLetters(tld) && '.' !in tld && '@' !in local + stem)
  {
    var at, dot := IndexOf(s, '@').value, LastIndexOf(s, '.').value;
    var local, stem, tld := s[..at], s[at + 1..dot], s[dot + 1..];
    assert s == local + "@" + stem + "." + tld;
    assert SplitsAs(s, local, stem, tld);
    assert '@' !in local + stem by {
      assert forall k :: 0 <= k < |local| ==> IsLocalChar(local[k]);
      assert forall k :: 0 <= k < |stem| ==> IsDomainChar(stem[k]);
    }
    assert '@' !in tld by {
      assert forall k :: 0 <= k < |tld| ==> IsAsciiLetter(tld[k]);
    }
    calc {
      multiset(s)['@'];
      multiset(local + stem)['@'] + multiset("@")['@'] + multiset(".")['@'] + multiset(tld)['@'];
      { assert multiset(local + stem)['@'] == 0 && multiset(tld)['@'] == 0; }
      1;
    }
  }
}
