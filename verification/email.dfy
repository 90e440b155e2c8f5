/** `EMAIL_REGEX = /^[^\s@]+@[^\s@]+\.[^\s@]+$/`, the shape check the server
    applies to chat and booking e-mail addresses. */
module Email {
  import opened Text

  /** The class `[^\s@]`. */
  predicate IsAddressChar(c: char) {
    !IsJsWhitespace(c) && c != '@'
  }

  predicate AllAddressChars(s: string) {
    forall i :: 0 <= i < |s| ==> IsAddressChar(s[i])
  }

  /** What the regular expression accepts: some `@` and some later `.` split
      the text into three non-empty runs of `[^\s@]`. */
  ghost predicate MatchesEmailPattern(s: string) {
    exists at, dot ::
      && 0 < at && at + 1 < dot && dot + 1 < |s|
      && s[at] == '@' && s[dot] == '.'
      && AllAddressChars(s[..at]) && AllAddressChars(s[at + 1..dot])
      && AllAddressChars(s[dot + 1..])
  }

  /** A `.` strictly inside the domain part. */
  predicate HasInnerDot(domain: string) {
    |domain| >= 3 && '.' in domain[1..|domain| - 1]
  }

  /** `EMAIL_REGEX.test(s)`, decided without backtracking: the first `@`
      must have a non-empty local part in front, and the rest must be free of
      whitespace and `@` with a dot that is neither its first nor its last
      character. */
  function IsEmailAddress(s: string): bool {
    var at := IndexOf(s, '@');
    && at > 0
    && AllAddressChars(s[..at])
    && AllAddressChars(s[at + 1..])
    && HasInnerDot(s[at + 1..])
  }

  lemma SliceOfAddressChars(s: string, i: nat, j: nat)
    requires i <= j <= |s| && AllAddressChars(s)
    ensures AllAddressChars(s[i..j])
  {
    assert forall k :: 0 <= k < j - i ==> s[i..j][k] == s[i + k];
  }

  /** The decision procedure accepts exactly the strings the pattern matches. */
  lemma IsEmailAddressMatchesPattern(s: string)
    ensures IsEmailAddress(s) <==> MatchesEmailPattern(s)
  {
    if IsEmailAddress(s) {
      AcceptedAddressMatches(s);
    }
    if MatchesEmailPattern(s) {
      var at, dot :|
        && 0 < at && at + 1 < dot && dot + 1 < |s|
        && s[at] == '@' && s[dot] == '.'
        && AllAddressChars(s[..at]) && AllAddressChars(s[at + 1..dot])
        && AllAddressChars(s[dot + 1..]);
      MatchedAddressAccepted(s, at, dot);
    }
  }

  lemma AcceptedAddressMatches(s: string)
    requires IsEmailAddress(s)
    ensures MatchesEmailPattern(s)
  {
    var at := IndexOf(s, '@');
    var domain := s[at + 1..];
    var inner := domain[1..|domain| - 1];
    var k := IndexOf(inner, '.');
    var dot := at + 2 + k;
    assert s[dot] == '.' by {
      assert inner[k] == domain[k + 1];
    }
    assert 0 <= k < |inner|;
    assert s[at + 1..dot] == domain[..k + 1] by {
      assert forall j :: 0 <= j < k + 1 ==> s[at + 1..dot][j] == domain[j];
    }
    SliceOfAddressChars(domain, 0, k + 1);
    assert s[dot + 1..] == domain[k + 2..];
    SliceOfAddressChars(domain, k + 2, |domain|);
  }

  lemma MatchedAddressAccepted(s: string, at: nat, dot: nat)
    requires 0 < at && at + 1 < dot && dot + 1 < |s|
    requires s[at] == '@' && s[dot] == '.'
    requires AllAddressChars(s[..at]) && AllAddressChars(s[at + 1..dot])
    requires AllAddressChars(s[dot + 1..])
    ensures IsEmailAddress(s)
  {
    FirstAt(s, at);
    var domain := s[at + 1..];
    var n := dot - at - 1;
    assert domain == s[at + 1..dot] + "." + s[dot + 1..];
    forall i | 0 <= i < |domain| ensures IsAddressChar(domain[i]) {
      if i < n {
        assert domain[i] == s[at + 1..dot][i];
      } else if i > n {
        assert domain[i] == s[dot + 1..][i - n - 1];
      }
    }
    assert domain[1..|domain| - 1][n - 1] == '.';
  }

  lemma FirstAt(s: string, at: nat)
    requires at < |s| && s[at] == '@' && AllAddressChars(s[..at])
    ensures IndexOf(s, '@') == at
  {
  }
}
