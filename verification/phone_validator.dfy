/** The server-side check of Spanish phone numbers: blank is accepted, and
    otherwise the number with its whitespace removed must be nine digits
    starting with 6, 7, 8 or 9, optionally behind `+34` or `0034`. */
module PhoneValidator {
  import opened Wrappers
  import Seqs
  import Text

  /** Java's regular-expression class `\s`: space, tab, line feed, vertical
      tab, form feed, carriage return. */
  predicate IsRegexSpace(c: char) {
    c == ' ' || c == '\t' || c == '\n' || c == 11 as char || c == 12 as char || c == '\r'
  }

  /** `phone.replaceAll("\\s", "")`. */
  function StripSpaces(s: string): (r: string)
    ensures forall i :: 0 <= i < |r| ==> !IsRegexSpace(r[i])
    ensures forall c :: c in r <==> c in s && !IsRegexSpace(c)
  {
    Seqs.Filter(s, (c: char) => !IsRegexSpace(c))
  }

  predicate IsDigit(c: char) {
    '0' <= c <= '9'
  }

  /** `[6-9][0-9]{8}`: a Spanish mobile or landline number. */
  predicate IsSubscriberNumber(s: string) {
    |s| == 9 && '6' <= s[0] <= '9' && forall i :: 1 <= i < 9 ==> IsDigit(s[i])
  }

  /** `[\s]?[6-9][0-9]{8}`: what follows the optional prefix. */
  predicate AfterPrefix(s: string) {
    IsSubscriberNumber(s) || (|s| == 10 && IsRegexSpace(s[0]) && IsSubscriberNumber(s[1..]))
  }

  /** The whole-string match of `^(\+34|0034)?[\s]?[6-9][0-9]{8}$`. */
  predicate MatchesPattern(s: string) {
    || AfterPrefix(s)
    || (|s| >= 3 && s[..3] == "+34" && AfterPrefix(s[3..]))
    || (|s| >= 4 && s[..4] == "0034" && AfterPrefix(s[4..]))
  }

  /** The accepted numbers, stated as a prefix and a subscriber number. */
  ghost predicate WellFormed(s: string) {
    exists prefix :: IsCountryPrefix(prefix) && IsSplitAt(s, prefix)
  }

  predicate IsCountryPrefix(prefix: string) {
    prefix == "" || prefix == "+34" || prefix == "0034"
  }

  predicate IsSplitAt(s: string, prefix: string) {
    |prefix| <= |s| && s[..|prefix|] == prefix && IsSubscriberNumber(s[|prefix|..])
  }

  /** Once whitespace has been removed the optional `[\s]?` of the pattern
      never matches anything, and the pattern says exactly `WellFormed`. */
  lemma PatternOnStripped(s: string)
    requires forall i :: 0 <= i < |s| ==> !IsRegexSpace(s[i])
    ensures MatchesPattern(s) <==> WellFormed(s)
  {
    if MatchesPattern(s) {
      if IsSubscriberNumber(s) {
        assert IsSplitAt(s, "");
      } else if |s| >= 3 && s[..3] == "+34" && AfterPrefix(s[3..]) {
        assert IsSplitAt(s, "+34");
      } else {
        assert IsSplitAt(s, "0034");
      }
    }
    if WellFormed(s) {
      var prefix :| IsCountryPrefix(prefix) && IsSplitAt(s, prefix);
      if prefix == "" {
        assert s[0..] == s;
      }
    }
  }

  /** `isValid`: null or blank (after `trim()`) is accepted; anything else
      must match the pattern once its whitespace is removed. */
  function IsValid(phone: Option<string>): (r: bool)
    ensures phone.None? ==> r
    ensures phone.Some? && Text.IsBlank(phone.value) ==> r
    ensures phone.Some? && !Text.IsBlank(phone.value) ==> (r <==> WellFormed(StripSpaces(phone.value)))
    ensures r && phone.Some? && !Text.IsBlank(phone.value) ==> |StripSpaces(phone.value)| in {9, 12, 13}
  {
    match phone
    case None => true
    case Some(p) =>
      if Text.Trim(p) == [] then
        Text.TrimEmptyIffBlank(p);
        true
      else
        Text.TrimEmptyIffBlank(p);
        PatternOnStripped(StripSpaces(p));
        MatchesPattern(StripSpaces(p))
  }

  /** Inserting a whitespace character anywhere never changes the verdict. */
  lemma SpaceInsensitive(a: string, c: char, b: string)
    requires IsRegexSpace(c)
    ensures IsValid(Some(a + [c] + b)) == IsValid(Some(a + b))
  {
    StripInsert(a, c, b);
    BlankInsert(a, c, b);
  }

  /** Removing whitespace forgets an inserted whitespace character. */
  lemma StripInsert(a: string, c: char, b: string)
    requires IsRegexSpace(c)
    ensures StripSpaces(a + [c] + b) == StripSpaces(a + b)
  {
    StripAppend(a + [c], b);
    StripAppend(a, [c]);
    StripAppend(a, b);
    assert StripSpaces([c]) == [];
  }

  /** Removing whitespace works piece by piece. */
  lemma StripAppend(a: string, b: string)
    ensures StripSpaces(a + b) == StripSpaces(a) + StripSpaces(b)
  {
    Seqs.FilterAppend(a, b, (x: char) => !IsRegexSpace(x));
  }

  /** Inserting a character `trim()` would remove keeps blankness. */
  lemma BlankInsert(a: string, c: char, b: string)
    requires Text.IsTrimmable(c)
    ensures Text.IsBlank(a + [c] + b) <==> Text.IsBlank(a + b)
  {
    var s, t := a + [c] + b, a + b;
    if Text.IsBlank(t) {
      forall i | 0 <= i < |s| ensures Text.IsTrimmable(s[i]) {
        if i > |a| { assert s[i] == t[i - 1]; } else if i < |a| { assert s[i] == t[i]; }
      }
    }
    if Text.IsBlank(s) {
      forall i | 0 <= i < |t| ensures Text.IsTrimmable(t[i]) {
        if i >= |a| { assert t[i] == s[i + 1]; } else { assert t[i] == s[i]; }
      }
    }
  }

  /** A string without whitespace is its own stripped form. */
  lemma StripNoSpaces(s: string)
    requires forall i :: 0 <= i < |s| ==> !IsRegexSpace(s[i])
    ensures StripSpaces(s) == s
  {
    Seqs.FilterAll(s, (c: char) => !IsRegexSpace(c));
  }

  /** The verdict on a number written without whitespace whose first
      character is not blank. */
  lemma VerdictOfPlain(s: string)
    requires |s| > 0 && !Text.IsTrimmable(s[0])
    requires forall i :: 0 <= i < |s| ==> !IsRegexSpace(s[i])
    ensures IsValid(Some(s)) <==> WellFormed(s)
  {
    StripNoSpaces(s);
  }

  /** The example the class's documentation gives, `123456789`, is rejected:
      its first digit is not 6 to 9. */
  lemma DocumentedExampleRejected()
    ensures !IsValid(Some("123456789"))
  {
    var s := "123456789";
    VerdictOfPlain(s);
    forall prefix | IsCountryPrefix(prefix) ensures !IsSplitAt(s, prefix) {
      if prefix == "+34" {
        assert s[0] != prefix[0];
      } else if prefix == "0034" {
        assert s[0] != prefix[0];
      } else {
        assert s[|prefix|..] == s;
      }
    }
  }

  /** Every number of the documented shapes is accepted: a subscriber
      number, bare or behind `+34` or `0034`. */
  lemma AcceptedShapes(prefix: string, number: string)
    requires IsCountryPrefix(prefix) && IsSubscriberNumber(number)
    ensures IsValid(Some(prefix + number))
  {
    var s := prefix + number;
    assert s[..|prefix|] == prefix && s[|prefix|..] == number;
    forall i | 0 <= i < |s| ensures !IsRegexSpace(s[i]) {
      if i >= |prefix| {
        assert s[i] == number[i - |prefix|];
        assert i - |prefix| == 0 || IsDigit(number[i - |prefix|]);
      }
    }
    assert IsSplitAt(s, prefix);
    VerdictOfPlain(s);
  }
}
