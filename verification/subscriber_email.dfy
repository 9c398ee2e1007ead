/**
  The subscriber-address check. The application accepts an address when the
  whole string matches

      \b[A-Za-z0-9._%+-]+@[A-Za-z0-9.-]+\.[A-Z|a-z]{2,7}\b

  `RegexMatches` states that language directly (some placement of the `@` and
  of the separating dot makes every part match); `ValidateSubscriberEmail`
  recognises it by locating the first `@` and the last `.`, and
  `RecognizerMatchesRegex` proves the two agree on every string.
 */
module SubscriberEmail {
  import opened Wrappers
  import opened Sequences

  predicate IsAsciiLetter(c: char) { 'A' <= c <= 'Z' || 'a' <= c <= 'z' }

  predicate IsAsciiDigit(c: char) { '0' <= c <= '9' }

  /** The local-part class `[A-Za-z0-9._%+-]`. */
  predicate IsLocalChar(c: char) {
    IsAsciiLetter(c) || IsAsciiDigit(c) || c == '.' || c == '_' || c == '%' || c == '+' || c == '-'
  }

  /** The domain class `[A-Za-z0-9.-]`. */
  predicate IsDomainChar(c: char) {
    IsAsciiLetter(c) || IsAsciiDigit(c) || c == '.' || c == '-'
  }

  /** The top-level-domain class `[A-Z|a-z]`: inside brackets `|` is a literal member. */
  predicate IsTldChar(c: char) {
    'A' <= c <= 'Z' || c == '|' || 'a' <= c <= 'z'
  }

  /**
    A word character as `\b` sees it. Both `\b` anchors sit next to a character
    the bracketed classes already admit, and those are all ASCII, so the ASCII
    word characters are the only ones that matter.
   */
  predicate IsWordChar(c: char) { IsAsciiLetter(c) || IsAsciiDigit(c) || c == '_' }

  /** The bounds of the `{2,7}` repetition. */
  const TldMinLength: int := 2
  const TldMaxLength: int := 7

  /**
    The pattern matches the whole of `s` with the `@` at index `at` and the
    escaped dot at index `dot`: a non-empty local part, a non-empty domain, a
    2 to 7 character top-level part, and a word character at each end (the
    leading and trailing `\b`, since nothing lies outside a full match).
   */
  predicate MatchesAt(s: string, at: int, dot: int) {
    && 0 < at && at + 1 < dot && dot < |s|
    && s[at] == '@' && s[dot] == '.'
    && AllOf(s[..at], IsLocalChar)
    && AllOf(s[at + 1..dot], IsDomainChar)
    && TldMinLength <= |s| - (dot + 1) <= TldMaxLength
    && AllOf(s[dot + 1..], IsTldChar)
    && IsWordChar(s[0])
    && IsWordChar(s[|s| - 1])
  }

  /** `re.fullmatch` succeeds: some placement of `@` and the dot makes the parts match. */
  ghost predicate RegexMatches(s: string) {
    exists at, dot :: MatchesAt(s, at, dot)
  }

  /**
    `validate_subscriber_email`. No class admits `@`, so the only candidate for
    the `@` is the first one; no top-level character is a dot, so the only
    candidate for the separating dot is the last one.
   */
  function ValidateSubscriberEmail(s: string): bool {
    match FirstIndexOf(s, '@')
    case None => false
    case Some(at) =>
      match LastIndexOf(s, '.')
      case None => false
      case Some(dot) => MatchesAt(s, at, dot)
  }

  /** In any match the `@` is the first `@` of the string. */
  lemma MatchUsesFirstAt(s: string, at: int, dot: int)
    requires MatchesAt(s, at, dot)
    ensures FirstIndexOf(s, '@') == Some(at)
  {
    var r := FirstIndexOf(s, '@');
    assert s[at] == '@';
    assert r.Some? && r.value <= at;
  }

  /** In any match the separating dot is the last dot of the string. */
  lemma MatchUsesLastDot(s: string, at: int, dot: int)
    ensures MatchesAt(s, at, dot) ==> LastIndexOf(s, '.') == Some(dot)
  {
    if MatchesAt(s, at, dot) {
      var r := LastIndexOf(s, '.');
      assert s[dot] == '.';
      assert r.Some? && r.value >= dot;
    }
  }

  /** The recogniser accepts exactly the strings the regular expression fully matches. */
  lemma RecognizerMatchesRegex(s: string)
    ensures ValidateSubscriberEmail(s) <==> RegexMatches(s)
  {
    if RegexMatches(s) {
      var at, dot :| MatchesAt(s, at, dot);
      MatchUsesFirstAt(s, at, dot);
      MatchUsesLastDot(s, at, dot);
    }
    if ValidateSubscriberEmail(s) {
      var at := FirstIndexOf(s, '@').value;
      var dot := LastIndexOf(s, '.').value;
      assert MatchesAt(s, at, dot);
    }
  }

  /** An accepted address holds exactly one `@`. */
  lemma AcceptedHasSingleAt(s: string)
    requires ValidateSubscriberEmail(s)
    ensures exists at :: 0 <= at < |s| && s[at] == '@' && '@' !in s[..at] && '@' !in s[at + 1..]
  {
    var at := FirstIndexOf(s, '@').value;
    var dot := LastIndexOf(s, '.').value;
    assert '@' !in s[at + 1..] by {
      forall j | at + 1 <= j < |s|
        ensures s[j] != '@'
      {
        if j < dot {
          assert s[at + 1..dot][j - (at + 1)] == s[j];
        } else if j > dot {
          assert s[dot + 1..][j - (dot + 1)] == s[j];
        }
      }
    }
  }

  /**
    The local part is everything before the `@`: non-empty, over the local
    class, and (leading `\b`) starting with a letter, digit or underscore.
   */
  lemma AcceptedLocalPart(s: string)
    requires ValidateSubscriberEmail(s)
    ensures var at := FirstIndexOf(s, '@').value;
      && at >= 1
      && AllOf(s[..at], IsLocalChar)
      && (IsAsciiLetter(s[0]) || IsAsciiDigit(s[0]) || s[0] == '_')
  {
  }

  /**
    The domain lies between the `@` and the last dot: non-empty, over the
    domain class, and free to contain further dots.
   */
  lemma AcceptedDomainPart(s: string)
    requires ValidateSubscriberEmail(s)
    ensures var at := FirstIndexOf(s, '@').value;
      var dot := LastIndexOf(s, '.').value;
      && at + 1 < dot
      && AllOf(s[at + 1..dot], IsDomainChar)
  {
  }

  /**
    The top-level part is the text after the last dot: 2 to 7 characters that
    are letters or `|`, the last of them a letter (trailing `\b`).
   */
  lemma AcceptedTopLevelPart(s: string)
    requires ValidateSubscriberEmail(s)
    ensures var dot := LastIndexOf(s, '.').value;
      && 2 <= |s[dot + 1..]| <= 7
      && AllOf(s[dot + 1..], IsTldChar)
      && IsAsciiLetter(s[|s| - 1])
  {
    var dot := LastIndexOf(s, '.').value;
    assert s[dot + 1..][|s| - dot - 2] == s[|s| - 1];
  }

  /** Conversely, a string of that shape is accepted. */
  lemma ShapeAccepted(local: string, domain: string, tld: string)
    requires |local| >= 1 && AllOf(local, IsLocalChar) && IsWordChar(local[0])
    requires |domain| >= 1 && AllOf(domain, IsDomainChar)
    requires 2 <= |tld| <= 7 && AllOf(tld, IsTldChar) && IsAsciiLetter(tld[|tld| - 1])
    ensures ValidateSubscriberEmail(local + "@" + domain + "." + tld)
  {
    var s := local + "@" + domain + "." + tld;
    var at := |local|;
    var dot := |local| + 1 + |domain|;
    assert s[..at] == local;
    assert s[at + 1..dot] == domain;
    assert s[dot + 1..] == tld;
    assert MatchesAt(s, at, dot);
    RecognizerMatchesRegex(s);
  }

  /** The literal `|` in the top-level class lets a pipe through, as long as it is not last. */
  lemma PipeAdmittedInTopLevelPart()
    ensures RegexMatches("bob@example.c|m")
  {
    assert MatchesAt("bob@example.c|m", 3, 11);
  }

  /** The trailing `\b` rejects a pipe in last position. */
  lemma TrailingPipeRejected()
    ensures !RegexMatches("bob@example.co|")
  {
    var s := "bob@example.co|";
    assert !IsWordChar(s[|s| - 1]);
  }

  /** The leading `\b` rejects a local part that starts with a dot. */
  lemma LeadingDotRejected()
    ensures !RegexMatches(".bob@example.com")
  {
    var s := ".bob@example.com";
    assert !IsWordChar(s[0]);
  }

  /** The domain may itself contain dots; the top-level part is what follows the last one. */
  lemma DottedDomainAccepted()
    ensures RegexMatches("bob@mail.example.com")
  {
    assert MatchesAt("bob@mail.example.com", 3, 16);
  }

  /** A top-level part of eight letters exceeds the `{2,7}` bound. */
  lemma LongTopLevelRejected()
    ensures !RegexMatches("bob@example.abcdefgh")
  {
    var s := "bob@example.abcdefgh";
    LastIndexOfUnique(s, '.', 11);
    forall at: int, dot: int
      ensures !MatchesAt(s, at, dot)
    {
      MatchUsesLastDot(s, at, dot);
    }
  }
}
