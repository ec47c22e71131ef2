// The two input checks of the phone book: the number pattern used by find,
// add and edit, and the name pattern used by add.
module Validation {
  import opened Text
  import opened LineFile

  predicate IsDigitOrSpace(c: char) {
    '0' <= c <= '9' || c == ' '
  }

  predicate DigitsOrSpaces(s: string) {
    forall i :: 0 <= i < |s| ==> IsDigitOrSpace(s[i])
  }

  /** The language of ^\+?[0-9 ]{3,25}$ written out: an optional sign,
      then 3 to 25 characters that are each a digit or a space. */
  ghost predicate InNumberLanguage(s: string) {
    exists sign: string, body: string ::
      s == sign + body && (sign == "" || sign == "+")
      && 3 <= |body| <= 25 && DigitsOrSpaces(body)
  }

  /** number.matches("^\\+?[0-9 ]{3,25}$"): a leading '+' is always taken by
      the optional sign, since the body class has no '+'. */
  predicate IsValidNumber(s: string) {
    var body := if s != [] && s[0] == '+' then s[1..] else s;
    3 <= |body| <= 25 && DigitsOrSpaces(body)
  }

  /** The deterministic check accepts exactly the pattern's language. */
  lemma ValidNumberIff(s: string)
    ensures IsValidNumber(s) <==> InNumberLanguage(s)
  {
    if s != [] && s[0] == '+' {
      assert s == "+" + s[1..];
      if InNumberLanguage(s) {
        var sign: string, body: string :| s == sign + body && (sign == "" || sign == "+")
          && 3 <= |body| <= 25 && DigitsOrSpaces(body);
        if sign == "+" {
          assert body == s[1..];
        }
      }
    } else {
      assert s == "" + s;
      if InNumberLanguage(s) {
        var sign: string, body: string :| s == sign + body && (sign == "" || sign == "+")
          && 3 <= |body| <= 25 && DigitsOrSpaces(body);
        assert sign == "";
        assert body == s;
      }
    }
  }

  /** name.matches("^.{2,50}$"): 2 to 50 characters, none a line terminator;
      commas and double quotes are allowed. */
  predicate IsValidName(s: string) {
    2 <= |s| <= 50 && forall i :: 0 <= i < |s| ==> !IsLineTerminator(s[i])
  }

  /** '.' matches no line terminator, so an accepted name is written to the
      file as part of a single line. */
  lemma ValidNameUnbroken(s: string)
    requires IsValidName(s)
    ensures HasNoBreak(s)
  {
    forall i | 0 <= i < |s|
      ensures !IsLineBreak(s[i])
    {
      assert !IsLineTerminator(s[i]);
    }
  }

  /** A number as add and edit store it: the trimmed input, accepted by the
      number check. */
  predicate IsStorableNumber(s: string) {
    IsValidNumber(s) && IsTrimmed(s)
  }

  /** A stored number is non-empty, has no ',', '"', '[' or ']', does not start
      with a space, and every character is a digit, a space or '+'. */
  lemma StorableNumberShape(s: string)
    requires IsStorableNumber(s)
    ensures s != [] && !IsRegexSpace(s[0])
    ensures forall i :: 0 <= i < |s| ==> IsDigitOrSpace(s[i]) || s[i] == '+'
  {
    var body := if s[0] == '+' then s[1..] else s;
    forall i | 0 <= i < |s|
      ensures IsDigitOrSpace(s[i]) || s[i] == '+'
    {
      if s[0] == '+' && i > 0 {
        assert s[i] == body[i - 1];
      }
    }
  }
}
