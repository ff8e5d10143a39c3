/**
  The field validators of a client-creation request.

  Each field carries a declarative length or regular-expression constraint. On a
  non-empty string, a regular-expression constraint accepts only when one match
  spans the whole string, so `^...$` is read as a full-string match: a trailing
  line break is never accepted. The predicates below are those full-string
  matches; they reject the empty string, which the attribute itself lets through
  without matching.
 */
module ClientValidation {

  /** The body of a client-creation request. */
  datatype ClientAdd = ClientAdd(
    firstName: string,
    lastName: string,
    email: string,
    telephone: string,
    pesel: string)

  /** The character classes the patterns use: `\d` and `[0-9]` (ASCII digits), `[a-z]`,
      `[0-9a-z]` and `[0-9a-zA-Z]`. */
  datatype CharClass = Digit | Lower | LowerOrDigit | LetterOrDigit

  predicate InClass(c: char, k: CharClass) {
    match k
    case Digit => '0' <= c <= '9'
    case Lower => 'a' <= c <= 'z'
    case LowerOrDigit => '0' <= c <= '9' || 'a' <= c <= 'z'
    case LetterOrDigit => '0' <= c <= '9' || 'a' <= c <= 'z' || 'A' <= c <= 'Z'
  }

  /** The whole of `s` matches the quantified class `k{lo,hi}`. */
  predicate Repeats(s: string, k: CharClass, lo: nat, hi: nat) {
    lo <= |s| <= hi && forall i :: 0 <= i < |s| ==> InClass(s[i], k)
  }

  /** `[Length(1, 32)]` on FirstName and LastName. */
  predicate ValidName(s: string) {
    1 <= |s| <= 32
  }

  /** `^\+\d{7,15}$` on Telephone. */
  predicate ValidTelephone(s: string) {
    |s| >= 1 && s[0] == '+' && Repeats(s[1..], Digit, 7, 15)
  }

  /** `^\d{11}$` on Pesel. */
  predicate ValidPesel(s: string) {
    Repeats(s, Digit, 11, 11)
  }

  /** Splitting `s` at `at` and `dot` yields the parts of
      `^[0-9a-zA-Z]{1,16}@[0-9a-z]{2,16}\.[a-z]{2,8}$`, in order. */
  predicate EmailParts(s: string, at: nat, dot: nat) {
    && at < dot < |s|
    && s[at] == '@'
    && s[dot] == '.'
    && Repeats(s[..at], LetterOrDigit, 1, 16)
    && Repeats(s[at + 1..dot], LowerOrDigit, 2, 16)
    && Repeats(s[dot + 1..], Lower, 2, 8)
  }

  /** What the Email pattern accepts: some split of the whole string into its parts. */
  ghost predicate MatchesEmailPattern(s: string) {
    exists at: nat, dot: nat :: EmailParts(s, at, dot)
  }

  /** The first position at or after `from` holding `c`, or `|s|` when there is none. */
  function IndexFrom(s: string, c: char, from: nat): (k: nat)
    requires from <= |s|
    ensures from <= k <= |s|
    ensures k < |s| ==> s[k] == c
    ensures forall i :: from <= i < k ==> s[i] != c
    decreases |s| - from
  {
    if from == |s| || s[from] == c then from else IndexFrom(s, c, from + 1)
  }

  /** The Email check as a matcher: the '@' is the first one in `s`, the '.' the first one
      after it (neither part before them admits these characters). */
  predicate ValidEmail(s: string) {
    var at := IndexFrom(s, '@', 0);
    at < |s| && EmailParts(s, at, IndexFrom(s, '.', at + 1))
  }

  /** The request passes validation: all five field constraints hold. */
  predicate ValidInput(d: ClientAdd) {
    && ValidName(d.firstName)
    && ValidName(d.lastName)
    && ValidEmail(d.email)
    && ValidTelephone(d.telephone)
    && ValidPesel(d.pesel)
  }

  /** The matcher accepts exactly the strings the Email pattern accepts. */
  lemma ValidEmailIffPattern(s: string)
    ensures ValidEmail(s) <==> MatchesEmailPattern(s)
  {
    if ValidEmail(s) {
      var at := IndexFrom(s, '@', 0);
      assert EmailParts(s, at, IndexFrom(s, '.', at + 1));
    }
    if MatchesEmailPattern(s) {
      var at: nat, dot: nat :| EmailParts(s, at, dot);
      forall i | 0 <= i < dot
        ensures s[i] == '@' <==> i == at
        ensures at < i ==> s[i] != '.'
      {
        EmailCharAt(s, at, dot, i);
      }
      assert IndexFrom(s, '@', 0) == at;
      assert IndexFrom(s, '.', at + 1) == dot;
    }
  }

  /** Each character of a matched email lies in the class of its part, or is the separator. */
  lemma EmailCharAt(s: string, at: nat, dot: nat, i: nat)
    requires EmailParts(s, at, dot) && i < |s|
    ensures i < at ==> InClass(s[i], LetterOrDigit)
    ensures at < i < dot ==> InClass(s[i], LowerOrDigit)
    ensures dot < i ==> InClass(s[i], Lower)
  {
    if i < at {
      assert s[..at][i] == s[i];
    } else if at < i < dot {
      assert s[at + 1..dot][i - at - 1] == s[i];
    } else if dot < i {
      assert s[dot + 1..][i - dot - 1] == s[i];
    }
  }

  /** A matched email has exactly one '@' and exactly one '.', the '.' after the '@',
      no upper-case letter after the '@', no line break, and 7 to 43 characters. */
  lemma EmailShape(s: string, at: nat, dot: nat)
    requires EmailParts(s, at, dot)
    ensures at < dot
    ensures forall i :: 0 <= i < |s| ==> (s[i] == '@' <==> i == at)
    ensures forall i :: 0 <= i < |s| ==> (s[i] == '.' <==> i == dot)
    ensures forall i :: at < i < |s| ==> !('A' <= s[i] <= 'Z')
    ensures forall i :: 0 <= i < |s| ==> s[i] != '\n'
    ensures 7 <= |s| <= 43
  {
    forall i | 0 <= i < |s|
      ensures s[i] == '@' <==> i == at
      ensures s[i] == '.' <==> i == dot
      ensures at < i ==> !('A' <= s[i] <= 'Z')
      ensures s[i] != '\n'
    {
      EmailCharAt(s, at, dot, i);
    }
    assert |s[..at]| + 1 + |s[at + 1..dot]| + 1 + |s[dot + 1..]| == |s|;
  }

  /** An email holding an upper-case letter anywhere after an '@' is rejected. */
  lemma UpperCaseAfterAtRejected(s: string, i: nat, j: nat)
    requires i < j < |s| && s[i] == '@' && 'A' <= s[j] <= 'Z'
    ensures !ValidEmail(s)
  {
    if ValidEmail(s) {
      var at := IndexFrom(s, '@', 0);
      EmailShape(s, at, IndexFrom(s, '.', at + 1));
    }
  }

  /** A valid telephone is '+' and 7 to 15 ASCII digits: 8 to 16 characters, '+' only in front. */
  lemma TelephoneShape(s: string)
    requires ValidTelephone(s)
    ensures 8 <= |s| <= 16
    ensures forall i :: 1 <= i < |s| ==> '0' <= s[i] <= '9'
  {
    forall i | 1 <= i < |s| ensures '0' <= s[i] <= '9' {
      assert s[1..][i - 1] == s[i];
    }
  }

  /** A request that passes validation has every field within its length bounds and no line
      break in any pattern-checked field. */
  lemma ValidInputShape(d: ClientAdd)
    requires ValidInput(d)
    ensures 1 <= |d.firstName| <= 32 && 1 <= |d.lastName| <= 32
    ensures 7 <= |d.email| <= 43 && 8 <= |d.telephone| <= 16 && |d.pesel| == 11
    ensures '\n' !in d.email && '\n' !in d.telephone && '\n' !in d.pesel
  {
    var at := IndexFrom(d.email, '@', 0);
    EmailShape(d.email, at, IndexFrom(d.email, '.', at + 1));
    TelephoneShape(d.telephone);
  }
}
