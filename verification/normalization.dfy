/**
  The two input normalisations `EnumQuery` applies before running a query:
  of the telephone number (the search string) and of the domain suffix.
*/
module Normalization {
  import opened Wrappers
  import opened PhpStrings

  predicate IsAsciiDigit(c: char) {
    '0' <= c <= '9'
  }

  /** The canonical number form: `+` followed by one or more ASCII digits. */
  predicate IsPlusDigits(s: string) {
    |s| >= 2 && s[0] == '+' && forall i :: 1 <= i < |s| ==> IsAsciiDigit(s[i])
  }

  /** PHP `preg_match('/^\+\d+$/', $s)`. Without the D modifier, PCRE's `$` also
      matches just before a final line feed. */
  predicate MatchesNumberPattern(s: string) {
    IsPlusDigits(s) || (|s| >= 1 && s[|s| - 1] == '\n' && IsPlusDigits(s[..|s| - 1]))
  }

  /** The search string after trimming and removing every space: no space is
      left and no trimmable character is left at either end. */
  function CleanSearchString(s: string): (r: string)
    ensures IsTrimmed(r)
    ensures ' ' !in r
  {
    var t := Trim(s);
    RemoveSpacesKeepsEnds(t);
    RemoveSpaces(t)
  }

  /** `$s` with `+` prepended unless its first character already is `+`. */
  function WithPlus(s: string): (r: string)
    ensures |r| > 0 && r[0] == '+'
    ensures (|s| > 0 && s[0] == '+') <==> r == s
    ensures r != s ==> r == "+" + s
  {
    if |s| > 0 && s[0] == '+' then s else "+" + s
  }

  function InvalidSearchStringMessage(s: string): string {
    "Invalid search string '" + s + "'"
  }

  /** `_normalizeSearchString`: trim, remove spaces, prepend `+` if missing, and
      throw unless the result matches `^\+\d+$`. */
  function NormalizeSearchString(searchString: string): (r: Result<string, string>)
    ensures var candidate := WithPlus(CleanSearchString(searchString));
      && (r.Success? <==> IsPlusDigits(candidate))
      && (r.Success? ==> r.value == candidate)
      && (r.Failure? ==> r.error == InvalidSearchStringMessage(candidate))
  {
    var candidate := WithPlus(CleanSearchString(searchString));
    NoFinalLineFeed(searchString);
    if MatchesNumberPattern(candidate) then Success(candidate)
    else Failure(InvalidSearchStringMessage(candidate))
  }

  /** The line-feed allowance of `$` never matters here: the cleaned string is
      trimmed, so the candidate never ends in a line feed. */
  lemma NoFinalLineFeed(searchString: string)
    ensures var candidate := WithPlus(CleanSearchString(searchString));
      candidate[|candidate| - 1] != '\n'
      && (MatchesNumberPattern(candidate) <==> IsPlusDigits(candidate))
  {
    var c := CleanSearchString(searchString);
    var candidate := WithPlus(c);
    if c != [] {
      assert candidate[|candidate| - 1] == c[|c| - 1];
    }
  }

  /** Normalising a normalised number changes nothing. */
  lemma NormalizeSearchStringIdempotent(searchString: string)
    requires NormalizeSearchString(searchString).Success?
    ensures NormalizeSearchString(NormalizeSearchString(searchString).value)
         == NormalizeSearchString(searchString)
  {
    var n := NormalizeSearchString(searchString).value;
    assert IsPlusDigits(n);
    assert IsTrimmed(n) by {
      assert !IsTrimChar(n[|n| - 1]) by { assert IsAsciiDigit(n[|n| - 1]); }
    }
    TrimOfTrimmed(n);
    assert ' ' !in n by {
      forall k | 0 <= k < |n| ensures n[k] != ' ' {
        if k > 0 { assert IsAsciiDigit(n[k]); }
      }
    }
    RemoveSpacesNoSpace(n);
  }

  /** Surrounding whitespace is trimmed, inner spaces are dropped and `+` is
      added when missing. */
  lemma NormalizeSearchStringTrimsAndAddsPlus()
    ensures NormalizeSearchString("\t42 07\n") == Success("+4207")
  {
    CleanPaddedNumber();
    assert WithPlus("4207") == "+4207";
    assert IsPlusDigits("+4207");
  }

  /** The cleaning step of the example above. */
  lemma CleanPaddedNumber()
    ensures CleanSearchString("\t42 07\n") == "4207"
  {
    var s := "\t42 07\n";
    TrimUnique(s, 1, |s| - 1);
    assert Trim(s) == "42" + " 07";
    RemoveSpacesAppend("42", " 07");
    RemoveSpacesNoSpace("42");
    assert RemoveSpaces(" 07") == "07";
  }

  /** A leading `+` is kept rather than doubled. */
  lemma NormalizeSearchStringKeepsPlus()
    ensures NormalizeSearchString("+1 2") == Success("+12")
  {
    TrimOfTrimmed("+1 2");
    RemoveSpacesAppend("+1", " 2");
    RemoveSpacesNoSpace("+1");
    assert "+1" + " 2" == "+1 2";
    assert CleanSearchString("+1 2") == "+12";
  }

  /** The empty string and a doubled `+` are rejected, with the candidate string
      quoted in the message. */
  lemma NormalizeSearchStringRejects()
    ensures NormalizeSearchString("") == Failure("Invalid search string '+'")
    ensures NormalizeSearchString("++1") == Failure("Invalid search string '++1'")
  {
    TrimOfTrimmed("");
    assert CleanSearchString("") == "";
    assert WithPlus("") == "+";
    assert InvalidSearchStringMessage("+") == "Invalid search string '+'";
    TrimOfTrimmed("++1");
    RemoveSpacesNoSpace("++1");
    assert CleanSearchString("++1") == "++1";
    assert !IsPlusDigits("++1") by { assert !IsAsciiDigit("++1"[1]); }
    assert InvalidSearchStringMessage("++1") == "Invalid search string '++1'";
  }

  /** `_normalizeDomain`: trim, then prepend `.` unless the first character
      already is `.`. */
  function NormalizeDomain(domain: string): (r: string)
    ensures |r| > 0 && r[0] == '.'
    ensures var t := Trim(domain);
      if |t| > 0 && t[0] == '.' then r == t else r == "." + t
  {
    var t := Trim(domain);
    if |t| > 0 && t[0] == '.' then t else "." + t
  }

  /** Normalising a normalised domain changes nothing. */
  lemma NormalizeDomainIdempotent(domain: string)
    ensures NormalizeDomain(NormalizeDomain(domain)) == NormalizeDomain(domain)
  {
    var r := NormalizeDomain(domain);
    var t := Trim(domain);
    if r != t {
      assert r == "." + t;
      assert r[|r| - 1] == if t == [] then '.' else t[|t| - 1];
    }
    TrimOfTrimmed(r);
  }
}
