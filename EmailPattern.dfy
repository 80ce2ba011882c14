/**
  The shape check on Subscriber.Email: the regular expression
      ^[a-zA-Z0-9._%+-]+@[a-zA-Z0-9.-]+\.[a-zA-Z]{2,}$
  matched against the whole string (a local part, '@', a domain, '.', and a
  top-level domain of two or more ASCII letters).

  MatchesPattern reads the expression as a language (there is a split of the
  string into its parts); IsEmailShape is the recogniser the model uses, which
  finds the split directly: the '@' must be the first one, because no class
  before it admits '@', and the '.' must be the last one, because the
  top-level domain admits no '.'. EmailShapeIsPattern proves the two agree.
 */
module EmailPattern {
  import opened Wrappers
  import opened NullableStrings

  predicate IsAsciiLetter(c: char) {
    'a' <= c <= 'z' || 'A' <= c <= 'Z'
  }

  predicate IsAsciiDigit(c: char) {
    '0' <= c <= '9'
  }

  /** [a-zA-Z0-9._%+-] */
  predicate IsLocalChar(c: char) {
    IsAsciiLetter(c) || IsAsciiDigit(c) || c == '.' || c == '_' || c == '%' || c == '+' || c == '-'
  }

  /** [a-zA-Z0-9.-] */
  predicate IsDomainChar(c: char) {
    IsAsciiLetter(c) || IsAsciiDigit(c) || c == '.' || c == '-'
  }

  predicate All(s: string, p: char -> bool) {
    forall i :: 0 <= i < |s| ==> p(s[i])
  }

  /** s splits as local '@' domain '.' tld, with the '@' at index `at` and the '.' at index `dot`. */
  ghost predicate MatchesAt(s: string, at: int, dot: int) {
    && 0 < at && at + 1 < dot && dot + 2 < |s|
    && s[at] == '@' && s[dot] == '.'
    && All(s[..at], IsLocalChar)
    && All(s[at + 1..dot], IsDomainChar)
    && All(s[dot + 1..], IsAsciiLetter)
  }

  /** The whole string is in the language of the pattern. */
  ghost predicate MatchesPattern(s: string) {
    exists at, dot :: MatchesAt(s, at, dot)
  }

  /** The first index of c in s, if any. */
  function IndexOf(s: string, c: char): (r: Option<nat>)
    ensures r.Some? ==> r.value < |s| && s[r.value] == c
    ensures r.Some? ==> forall k :: 0 <= k < r.value ==> s[k] != c
    ensures r.None? ==> forall k :: 0 <= k < |s| ==> s[k] != c
  {
    if s == "" then None
    else if s[0] == c then Some(0)
    else
      match IndexOf(s[1..], c)
      case None => None
      case Some(k) => Some(k + 1)
  }

  /** The last index of c in s, if any. */
  function LastIndexOf(s: string, c: char): (r: Option<nat>)
    ensures r.Some? ==> r.value < |s| && s[r.value] == c
    ensures r.Some? ==> forall k :: r.value < k < |s| ==> s[k] != c
    ensures r.None? ==> forall k :: 0 <= k < |s| ==> s[k] != c
  {
    if s == "" then None
    else if s[|s| - 1] == c then Some(|s| - 1)
    else LastIndexOf(s[..|s| - 1], c)
  }

  /** The recogniser: split at the first '@' and at the last '.' after it. */
  predicate IsEmailShape(s: string) {
    match IndexOf(s, '@')
    case None => false
    case Some(at) =>
      var rest := s[at + 1..];
      match LastIndexOf(rest, '.')
      case None => false
      case Some(d) =>
        && 0 < at && 0 < d && d + 2 < |rest|
        && All(s[..at], IsLocalChar)
        && All(rest[..d], IsDomainChar)
        && All(rest[d + 1..], IsAsciiLetter)
  }

  /** The recogniser accepts exactly the language of the pattern. */
  lemma EmailShapeIsPattern(s: string)
    ensures IsEmailShape(s) <==> MatchesPattern(s)
  {
    if IsEmailShape(s) {
      var at := IndexOf(s, '@').value;
      var rest := s[at + 1..];
      var d := LastIndexOf(rest, '.').value;
      assert rest[..d] == s[at + 1..at + 1 + d];
      assert rest[d + 1..] == s[at + 1 + d + 1..];
      assert MatchesAt(s, at, at + 1 + d);
    }
    if MatchesPattern(s) {
      var at, dot :| MatchesAt(s, at, dot);
      SplitIsUnique(s, at, dot);
    }
  }

  /** Any split of an accepted string is the one the recogniser finds. */
  lemma SplitIsUnique(s: string, at: int, dot: int)
    requires MatchesAt(s, at, dot)
    ensures IndexOf(s, '@') == Some(at)
    ensures LastIndexOf(s[at + 1..], '.') == Some(dot - at - 1)
    ensures IsEmailShape(s)
  {
    forall k | 0 <= k < at
      ensures s[k] != '@'
    {
      assert s[k] == s[..at][k];
    }
    var rest := s[at + 1..];
    assert rest[dot - at - 1] == '.';
    forall k | dot - at - 1 < k < |rest|
      ensures rest[k] != '.'
    {
      assert rest[k] == s[dot + 1..][k - (dot - at)];
    }
    assert rest[..dot - at - 1] == s[at + 1..dot];
    assert rest[dot - at..] == s[dot + 1..];
  }

  /** An accepted email holds exactly one '@', neither first nor last. */
  lemma AcceptedHasOneAt(s: string)
    requires IsEmailShape(s)
    ensures multiset(s)['@'] == 1
    ensures s[0] != '@' && s[|s| - 1] != '@'
  {
    EmailShapeIsPattern(s);
    var at, dot :| MatchesAt(s, at, dot);
    assert s == s[..at] + [s[at]] + s[at + 1..];
    forall k | 0 <= k < at
      ensures s[..at][k] != '@'
    {
      assert IsLocalChar(s[..at][k]);
    }
    var tail := s[at + 1..];
    forall k | 0 <= k < |tail|
      ensures tail[k] != '@'
    {
      if at + 1 + k < dot {
        assert tail[k] == s[at + 1..dot][k];
      } else if at + 1 + k > dot {
        assert tail[k] == s[dot + 1..][at + k - dot];
      }
    }
    assert '@' !in s[..at];
    assert '@' !in tail;
    calc {
      multiset(s)['@'];
      multiset(s[..at])['@'] + multiset([s[at]])['@'] + multiset(s[at + 1..])['@'];
      1;
    }
    assert s[0] == s[..at][0];
    assert s[|s| - 1] == s[dot + 1..][|s| - dot - 2];
  }

  /**
    In an accepted email the text after the last '.' is two or more ASCII
    letters, and at least one character lies between the '@' and that '.'.
   */
  lemma AcceptedTopLevelDomain(s: string)
    requires IsEmailShape(s)
    ensures LastIndexOf(s, '.').Some?
    ensures var dot := LastIndexOf(s, '.').value;
      && |s| - dot - 1 >= 2
      && All(s[dot + 1..], IsAsciiLetter)
      && IndexOf(s, '@').Some? && IndexOf(s, '@').value + 1 < dot
  {
    EmailShapeIsPattern(s);
    var at, dot :| MatchesAt(s, at, dot);
    SplitIsUnique(s, at, dot);
    LastIndexIsTldDot(s, at, dot);
  }

  /** In a split string, the '.' before the top-level domain is the last '.' of the string. */
  lemma LastIndexIsTldDot(s: string, at: int, dot: int)
    requires MatchesAt(s, at, dot)
    ensures LastIndexOf(s, '.') == Some(dot)
  {
  }

  /**
    An accepted email uses only ASCII letters, digits, "._%+-" and '@'; in
    particular it holds no white space.
   */
  lemma AcceptedCharacters(s: string)
    requires IsEmailShape(s)
    ensures forall i :: 0 <= i < |s| ==> IsLocalChar(s[i]) || s[i] == '@'
    ensures forall i :: 0 <= i < |s| ==> !IsWhiteSpace(s[i])
  {
  }
}
