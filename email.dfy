/**
 * The e-mail check of the contact book: an empty address is accepted, any
 * other must match `^[a-zA-Z0-9._%+-]+@[a-zA-Z0-9.-]+\.[a-zA-Z]{2,}$` under
 * Python's `re.match`, whose `$` also matches just before one final newline.
 */
module Email {
  import opened Text

  /** The class `[a-zA-Z0-9._%+-]` of the local part. */
  predicate IsLocalChar(c: char)
  {
    IsLetter(c) || IsDigit(c) || c == '.' || c == '_' || c == '%' || c == '+' || c == '-'
  }

  /** The class `[a-zA-Z0-9.-]` of the domain before the final dot. */
  predicate IsDomainChar(c: char)
  {
    IsLetter(c) || IsDigit(c) || c == '.' || c == '-'
  }

  /** `s` matches the whole pattern with its `@` at `at` and its `\.` at `dot`:
      a non-empty local part, the `@`, a non-empty domain, the dot and at
      least two letters up to the end. */
  predicate SplitsAt(s: string, at: int, dot: int)
  {
    && 0 < at && at + 1 < dot && dot + 3 <= |s|
    && (forall i :: 0 <= i < at ==> IsLocalChar(s[i]))
    && s[at] == '@'
    && (forall i :: at < i < dot ==> IsDomainChar(s[i]))
    && s[dot] == '.'
    && (forall i :: dot < i < |s| ==> IsLetter(s[i]))
  }

  /** The pattern matches the whole of `s`. */
  predicate MatchesPattern(s: string)
  {
    exists at, dot | 0 < at < dot < |s| :: SplitsAt(s, at, dot)
  }

  /** `validate_email`: empty is valid; otherwise the anchored pattern must
      match, either the whole string or all of it but a final newline. */
  predicate ValidEmail(email: string)
  {
    || email == ""
    || MatchesPattern(email)
    || (email[|email| - 1] == '\n' && MatchesPattern(email[..|email| - 1]))
  }

  /** Neither character class contains `@`, so a match has exactly one `@`;
      letters are not dots, so its `\.` is the last dot of the string. The
      split of a matching string is therefore unique. */
  lemma SplitIsUnique(s: string, at: int, dot: int)
    requires SplitsAt(s, at, dot)
    ensures forall k :: 0 <= k < |s| && s[k] == '@' ==> k == at
    ensures forall k :: dot < k < |s| ==> s[k] != '.'
    ensures forall at', dot' :: SplitsAt(s, at', dot') ==> at' == at && dot' == dot
  {
  }

  /** What an accepted non-empty e-mail looks like: exactly one `@`, not in
      first position; a dot after it followed by at least two letters that
      run to the end, or to a single final newline. */
  lemma AcceptedShape(email: string) returns (at: nat, dot: nat, end: nat)
    requires ValidEmail(email) && email != ""
    ensures 0 < at < dot < end <= |email|
    ensures email[at] == '@'
    ensures forall k :: 0 <= k < |email| && k != at ==> email[k] != '@'
    ensures email[dot] == '.' && dot + 3 <= end
    ensures forall k :: dot < k < end ==> IsLetter(email[k])
    ensures end == |email| || (end + 1 == |email| && email[end] == '\n')
  {
    var body := if MatchesPattern(email) then email else email[..|email| - 1];
    assert MatchesPattern(body);
    at, dot :| 0 < at < dot < |body| && SplitsAt(body, at, dot);
    end := |body|;
    SplitIsUnique(body, at, dot);
    if body != email {
      assert email == body + ['\n'];
    }
  }

  /** A string without `@` never matches. */
  lemma NoAtRejected(s: string)
    requires forall k :: 0 <= k < |s| ==> s[k] != '@'
    ensures !MatchesPattern(s)
  {
  }
}
