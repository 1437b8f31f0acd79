/**
 * The syntax check of DNS.py: Python's `re.match` with the anchored pattern
 * `^[a-zA-Z0-9_.+-]+@[a-zA-Z0-9-]+\.[a-zA-Z0-9-.]+$`, and the domain the
 * pipeline cuts out of an address with `email.split('@')[-1]`.
 */
module EmailSyntax {

  predicate IsAsciiAlnum(c: char) {
    'a' <= c <= 'z' || 'A' <= c <= 'Z' || '0' <= c <= '9'
  }

  /** The class `[a-zA-Z0-9_.+-]` of the local part. */
  predicate IsLocalChar(c: char) {
    IsAsciiAlnum(c) || c == '_' || c == '.' || c == '+' || c == '-'
  }

  /** The class `[a-zA-Z0-9-]` of the first domain label. */
  predicate IsLabelChar(c: char) {
    IsAsciiAlnum(c) || c == '-'
  }

  /** The class `[a-zA-Z0-9-.]` of the rest of the domain: dots may repeat or end it. */
  predicate IsTailChar(c: char) {
    IsLabelChar(c) || c == '.'
  }

  predicate IsLocalPart(s: string) {
    |s| > 0 && forall i :: 0 <= i < |s| ==> IsLocalChar(s[i])
  }

  predicate IsFirstLabel(s: string) {
    |s| > 0 && forall i :: 0 <= i < |s| ==> IsLabelChar(s[i])
  }

  predicate IsDomainTail(s: string) {
    |s| > 0 && forall i :: 0 <= i < |s| ==> IsTailChar(s[i])
  }

  /** `s` is L + "@" + D1 + "." + R with the '@' at index `at` and the '.' at index `dot`. */
  predicate SplitsAt(s: string, at: int, dot: int) {
    && 0 <= at < dot < |s|
    && s[at] == '@' && s[dot] == '.'
    && IsLocalPart(s[..at]) && IsFirstLabel(s[at + 1..dot]) && IsDomainTail(s[dot + 1..])
  }

  /** The grammar the pattern describes, over the whole string. */
  ghost predicate IsAddress(s: string) {
    exists at, dot :: SplitsAt(s, at, dot)
  }

  /**
   * What `re.match` accepts: without MULTILINE, `$` matches at the end of the
   * string and also just before a newline that ends it.
   */
  ghost predicate MatchesPattern(s: string) {
    IsAddress(s) || (|s| > 0 && s[|s| - 1] == '\n' && IsAddress(s[..|s| - 1]))
  }

  /** The index of the first `c` in `s`, or `|s|` when there is none. */
  function IndexOf(s: string, c: char): (i: nat)
    ensures i <= |s|
    ensures i < |s| ==> s[i] == c
    ensures forall k :: 0 <= k < i ==> s[k] != c
  {
    if s == [] then 0 else if s[0] == c then 0 else 1 + IndexOf(s[1..], c)
  }

  /**
   * The match without the newline allowance. No character class of the local
   * part holds '@' and none of the first label holds '.', so a match can only
   * split at the first '@' and at the first '.' after it.
   */
  function MatchesAnchored(s: string): bool {
    var at := IndexOf(s, '@');
    at < |s| && SplitsAt(s, at, at + 1 + IndexOf(s[at + 1..], '.'))
  }

  lemma MatchesAnchoredIsAddress(s: string)
    ensures MatchesAnchored(s) <==> IsAddress(s)
  {
    if IsAddress(s) {
      var at, dot :| SplitsAt(s, at, dot);
      SplitChars(s, at, dot);
      assert IndexOf(s, '@') == at;
      var rest := s[at + 1..];
      assert rest[dot - at - 1] == s[dot];
      forall k | 0 <= k < dot - at - 1 ensures rest[k] != '.' {
        assert rest[k] == s[at + 1 + k];
      }
      assert IndexOf(rest, '.') == dot - at - 1;
    }
  }

  /** `is_valid_email_syntax`: true exactly when the pattern matches. */
  function IsValidEmailSyntax(email: string): (ok: bool)
    ensures ok <==> MatchesPattern(email)
  {
    MatchesAnchoredIsAddress(email);
    var chomped := if |email| > 0 then email[..|email| - 1] else email;
    MatchesAnchoredIsAddress(chomped);
    MatchesAnchored(email) || (|email| > 0 && email[|email| - 1] == '\n' && MatchesAnchored(chomped))
  }

  /** `email.split('@')[-1]`: what follows the last '@', or the whole text when there is none. */
  function DomainOf(email: string): (d: string)
    ensures |d| <= |email| && d == email[|email| - |d|..]
    ensures forall k :: 0 <= k < |d| ==> d[k] != '@'
    ensures |d| < |email| ==> email[|email| - |d| - 1] == '@'
    decreases |email|
  {
    if email == [] || email[|email| - 1] == '@' then []
    else DomainOf(email[..|email| - 1]) + [email[|email| - 1]]
  }

  /**
   * In a split address no class admits a second '@' or a newline, and the
   * first label holds no '.'.
   */
  lemma SplitChars(s: string, at: int, dot: int)
    requires SplitsAt(s, at, dot)
    ensures forall k :: 0 <= k < |s| && k != at ==> s[k] != '@' && s[k] != '\n'
    ensures forall k :: at < k < dot ==> s[k] != '.'
  {
    forall k | 0 <= k < |s| && k != at ensures s[k] != '@' && s[k] != '\n' {
      if k < at {
        assert s[k] == s[..at][k];
      } else if k < dot {
        assert s[k] == s[at + 1..dot][k - at - 1];
      } else if k > dot {
        assert s[k] == s[dot + 1..][k - dot - 1];
      }
    }
    forall k | at < k < dot ensures s[k] != '.' {
      assert s[k] == s[at + 1..dot][k - at - 1];
    }
  }

  /** When `at` holds the only '@', the split keeps everything after it. */
  lemma DomainAfterOnlyAt(email: string, at: int)
    requires 0 <= at < |email| && email[at] == '@'
    requires forall k :: 0 <= k < |email| && k != at ==> email[k] != '@'
    ensures DomainOf(email) == email[at + 1..]
  {
    var d := DomainOf(email);
    var cut := |email| - |d|;
    forall k | cut <= k < |email| ensures email[k] != '@' {
      assert email[k] == d[k - cut];
    }
    assert at < cut;
    assert email[cut - 1] == '@';
    assert cut - 1 == at;
  }

  /** An accepted text is a split address, or one followed by a single newline. */
  lemma AcceptedSplit(email: string) returns (n: nat, at: nat, dot: nat)
    requires IsValidEmailSyntax(email)
    ensures n == |email| || (n == |email| - 1 && email[n] == '\n')
    ensures SplitsAt(email[..n], at, dot)
  {
    n := if IsAddress(email) then |email| else |email| - 1;
    assert email[..|email|] == email;
    assert IsAddress(email[..n]);
    at, dot :| SplitsAt(email[..n], at, dot);
  }

  /**
   * The positions of the '@' and of the first '.' after it in a split address,
   * seen in the whole text, that is with the newline after it if there is one.
   */
  lemma SplitPositions(email: string, n: nat, at: nat, dot: nat)
    requires n == |email| || (n == |email| - 1 && email[n] == '\n')
    requires SplitsAt(email[..n], at, dot)
    ensures at < dot < |email| && email[at] == '@' && email[dot] == '.'
    ensures email[at + 1] != '.'
    ensures forall k :: 0 <= k < |email| && k != at ==> email[k] != '@'
    ensures forall k :: at < k < dot ==> email[k] != '.'
  {
    var body := email[..n];
    SplitChars(body, at, dot);
    assert email[at] == body[at] && email[dot] == body[dot] && email[at + 1] == body[at + 1];
    forall k | 0 <= k < |email| && k != at ensures email[k] != '@' {
      if k < n {
        assert email[k] == body[k];
      }
    }
    forall k | at < k < dot ensures email[k] != '.' {
      assert email[k] == body[k];
    }
  }

  /** The '@' of a split address is its first, and the domain cut after it holds a '.' but does not start with one. */
  lemma SplitDomain(email: string, n: nat, at: nat, dot: nat)
    requires n == |email| || (n == |email| - 1 && email[n] == '\n')
    requires SplitsAt(email[..n], at, dot)
    ensures IndexOf(email, '@') == at && '@' in email
    ensures forall k :: 0 <= k < |email| && email[k] == '@' ==> k == at
    ensures DomainOf(email) == email[at + 1..]
    ensures '.' in DomainOf(email) && DomainOf(email)[0] != '.'
  {
    SplitPositions(email, n, at, dot);
    assert IndexOf(email, '@') == at;
    DomainAfterOnlyAt(email, at);
    var d := email[at + 1..];
    assert d[dot - at - 1] == email[dot];
    assert d[0] == email[at + 1];
  }

  /**
   * An accepted address holds exactly one '@' (the first one), and the domain
   * cut after it is D1 "." R, possibly followed by the newline `$` lets through:
   * it holds a '.', which is not its first character. So the empty string, and
   * any text without an '@' or without a '.' after it, is rejected.
   */
  lemma AcceptedAddressDomain(email: string)
    requires IsValidEmailSyntax(email)
    ensures '@' in email && IndexOf(email, '@') < |email|
    ensures forall k :: 0 <= k < |email| && email[k] == '@' ==> k == IndexOf(email, '@')
    ensures DomainOf(email) == email[IndexOf(email, '@') + 1..]
    ensures '.' in DomainOf(email) && DomainOf(email)[0] != '.'
  {
    var n, at, dot := AcceptedSplit(email);
    SplitDomain(email, n, at, dot);
  }

  /** Accepted text holds no newline except, possibly, as its last character. */
  lemma AcceptedNewlineOnlyLast(email: string)
    requires IsValidEmailSyntax(email)
    ensures forall k :: 0 <= k < |email| - 1 ==> email[k] != '\n'
  {
    var n, at, dot := AcceptedSplit(email);
    var body := email[..n];
    SplitChars(body, at, dot);
    forall k | 0 <= k < |email| - 1 ensures email[k] != '\n' {
      assert email[k] == body[k];
    }
  }

  lemma RejectsWithoutAt(email: string)
    requires '@' !in email
    ensures !IsValidEmailSyntax(email)
  {
    if IsValidEmailSyntax(email) {
      AcceptedAddressDomain(email);
      assert false;
    }
  }

  lemma RejectsTwoAts(email: string, i: int, j: int)
    requires 0 <= i < j < |email| && email[i] == '@' && email[j] == '@'
    ensures !IsValidEmailSyntax(email)
  {
    if IsValidEmailSyntax(email) {
      var n, at, dot := AcceptedSplit(email);
      SplitPositions(email, n, at, dot);
      assert false;
    }
  }

  /** The first domain label may not be empty. */
  lemma RejectsDotAfterAt(email: string, i: int)
    requires 0 <= i < |email| - 1 && email[i] == '@' && email[i + 1] == '.'
    ensures !IsValidEmailSyntax(email)
  {
    if IsValidEmailSyntax(email) {
      var n, at, dot := AcceptedSplit(email);
      SplitPositions(email, n, at, dot);
      assert false;
    }
  }

  lemma RejectsNoDotAfterAt(email: string, i: int)
    requires 0 <= i < |email| && email[i] == '@'
    requires forall k :: i < k < |email| ==> email[k] != '.'
    ensures !IsValidEmailSyntax(email)
  {
    if IsValidEmailSyntax(email) {
      var n, at, dot := AcceptedSplit(email);
      SplitPositions(email, n, at, dot);
      assert false;
    }
  }

  lemma RejectsNewlineBeforeEnd(email: string, k: int)
    requires 0 <= k < |email| - 1 && email[k] == '\n'
    ensures !IsValidEmailSyntax(email)
  {
    if IsValidEmailSyntax(email) {
      AcceptedNewlineOnlyLast(email);
      assert false;
    }
  }

  /** Every L "@" D1 "." R is accepted, and so is it with one newline after it. */
  lemma AcceptsAddress(email: string, at: int, dot: int)
    requires SplitsAt(email, at, dot)
    ensures IsValidEmailSyntax(email)
    ensures IsValidEmailSyntax(email + "\n")
  {
    var withNewline := email + "\n";
    assert withNewline[..|withNewline| - 1] == email;
  }

  /** The tail of the domain may hold repeated dots and end in one. */
  lemma AcceptsTrailingDots()
    ensures IsValidEmailSyntax("a@b..")
  {
    AcceptsAddress("a@b..", 1, 3);
  }

  lemma RejectsDoubledAt()
    ensures !IsValidEmailSyntax("bad@@domain")
  {
    RejectsTwoAts("bad@@domain", 3, 4);
  }
}
