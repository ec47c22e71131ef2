// The java.lang.String behaviour the phone book depends on: String.trim, the
// character classes of its regular expressions, and String.compareTo, which
// orders the keys of the TreeMap that holds the contacts.
module Text {

  /** A character String.trim strips from either end: any code up to U+0020. */
  predicate IsTrimBlank(c: char) {
    c <= ' '
  }

  /** A line terminator of java.util.regex: '.' never matches one, and '$'
      also matches just before one that ends the input. */
  predicate IsLineTerminator(c: char) {
    c == '\n' || c == '\r' || c == '\U{85}' || c == '\U{2028}' || c == '\U{2029}'
  }

  /** The regex class \s, that is [ \t\n\x0B\f\r]. */
  predicate IsRegexSpace(c: char) {
    c == ' ' || c == '\t' || c == '\n' || c == '\U{B}' || c == '\U{C}' || c == '\r'
  }

  predicate AllBlank(s: string) {
    forall i :: 0 <= i < |s| ==> IsTrimBlank(s[i])
  }

  /** What String.trim leaves: empty, or starting and ending with a non-blank. */
  predicate IsTrimmed(s: string) {
    s == [] || (!IsTrimBlank(s[0]) && !IsTrimBlank(s[|s| - 1]))
  }

  /** Where the first non-blank character of s[from..] lies. */
  function TrimStart(s: string, from: nat): (a: nat)
    requires from <= |s|
    ensures from <= a <= |s|
    ensures forall i :: from <= i < a ==> IsTrimBlank(s[i])
    ensures a < |s| ==> !IsTrimBlank(s[a])
    decreases |s| - from
  {
    if from < |s| && IsTrimBlank(s[from]) then TrimStart(s, from + 1) else from
  }

  /** Where the trailing blanks of s[a..upto] begin. */
  function TrimEnd(s: string, a: nat, upto: nat): (b: nat)
    requires a <= upto <= |s|
    ensures a <= b <= upto
    ensures forall i :: b <= i < upto ==> IsTrimBlank(s[i])
    ensures a < b ==> !IsTrimBlank(s[b - 1])
    decreases upto
  {
    if a < upto && IsTrimBlank(s[upto - 1]) then TrimEnd(s, a, upto - 1) else upto
  }

  /** String.trim: the result is s without a blank prefix and a blank suffix,
      and it neither starts nor ends with a blank, so it is the longest such
      middle part. */
  function Trim(s: string): (r: string)
    ensures IsTrimmed(r)
    ensures exists a :: 0 <= a <= |s| - |r| && r == s[a..a + |r|]
                         && AllBlank(s[..a]) && AllBlank(s[a + |r|..])
  {
    var a := TrimStart(s, 0);
    var b := TrimEnd(s, a, |s|);
    assert AllBlank(s[..a]) && AllBlank(s[b..]);
    s[a..b]
  }

  /** String.compareTo(a, b) < 0, character by character, a proper prefix
      coming first. */
  predicate Less(a: string, b: string) {
    if a == [] then b != []
    else if b == [] then false
    else if a[0] != b[0] then a[0] < b[0]
    else Less(a[1..], b[1..])
  }

  lemma {:induction false} LessIrreflexive(a: string)
    ensures !Less(a, a)
  {
    if a != [] {
      LessIrreflexive(a[1..]);
    }
  }

  lemma {:induction false} LessTransitive(a: string, b: string, c: string)
    requires Less(a, b) && Less(b, c)
    ensures Less(a, c)
  {
    if a != [] && b != [] && c != [] && a[0] == b[0] && b[0] == c[0] {
      LessTransitive(a[1..], b[1..], c[1..]);
    }
  }

  lemma {:induction false} LessTotal(a: string, b: string)
    ensures a == b || Less(a, b) || Less(b, a)
  {
    if a != [] && b != [] && a[0] == b[0] {
      LessTotal(a[1..], b[1..]);
      assert a == [a[0]] + a[1..] && b == [b[0]] + b[1..];
    }
  }
}
