// The contacts file as text: PrintWriter.println ends every line with the
// platform's line separator, and BufferedReader.readLine cuts the text back
// into lines at '\n', '\r' or "\r\n".
module LineFile {
  /** The characters readLine ends a line at. */
  predicate IsLineBreak(c: char) {
    c == '\n' || c == '\r'
  }

  predicate HasNoBreak(s: string) {
    forall i :: 0 <= i < |s| ==> !IsLineBreak(s[i])
  }

  /** System.lineSeparator(): "\n" on Unix, "\r\n" on Windows. */
  predicate IsLineSeparator(sep: string) {
    sep == "\n" || sep == "\r\n"
  }

  /** The text println writes for the lines, one after another. */
  function WriteLines(lines: seq<string>, sep: string): string {
    if lines == [] then "" else lines[0] + sep + WriteLines(lines[1..], sep)
  }

  /** Where the first line break of s lies; |s| when there is none. */
  function BreakAt(s: string): (i: nat)
    ensures i <= |s|
    ensures i < |s| ==> IsLineBreak(s[i])
    ensures forall j :: 0 <= j < i ==> !IsLineBreak(s[j])
  {
    if s == [] || IsLineBreak(s[0]) then 0 else 1 + BreakAt(s[1..])
  }

  /** The text after the break at i, where "\r\n" is one break. */
  function AfterBreak(s: string, i: nat): (rest: string)
    requires i < |s|
    ensures |rest| < |s|
  {
    if s[i] == '\r' && i + 1 < |s| && s[i + 1] == '\n' then s[i + 2..] else s[i + 1..]
  }

  /** The lines readLine returns before it returns null: no line of them
      holds a break, and a final line without a break is returned too. */
  function ReadLines(s: string): (lines: seq<string>)
    ensures forall k :: 0 <= k < |lines| ==> HasNoBreak(lines[k])
    decreases |s|
  {
    if s == [] then []
    else
      var i := BreakAt(s);
      if i == |s| then [s] else [s[..i]] + ReadLines(AfterBreak(s, i))
  }

  lemma BreakAtFirst(s: string, k: nat)
    requires k < |s| && IsLineBreak(s[k])
    requires forall j :: 0 <= j < k ==> !IsLineBreak(s[j])
    ensures BreakAt(s) == k
  {
  }

  lemma {:induction false} BreakAtNone(s: string)
    requires HasNoBreak(s)
    ensures BreakAt(s) == |s|
  {
    if s != [] {
      assert !IsLineBreak(s[0]);
      assert HasNoBreak(s[1..]);
      BreakAtNone(s[1..]);
    }
  }

  lemma NoBreakAppend(a: string, b: string)
    ensures HasNoBreak(a + b) <==> HasNoBreak(a) && HasNoBreak(b)
  {
    forall i | 0 <= i < |b|
      ensures b[i] == (a + b)[|a| + i]
    {
    }
    forall i | 0 <= i < |a + b|
      ensures (a + b)[i] == if i < |a| then a[i] else b[i - |a|]
    {
    }
  }

  /** readLine returns a line without a break of its own, then goes on
      after the separator that println put behind it. */
  lemma ReadFirstLine(line: string, sep: string, rest: string)
    requires IsLineSeparator(sep) && HasNoBreak(line)
    ensures ReadLines(line + sep + rest) == [line] + ReadLines(rest)
  {
    var t := line + sep + rest;
    assert t[|line|] == sep[0];
    assert forall j :: 0 <= j < |line| ==> t[j] == line[j];
    BreakAtFirst(t, |line|);
    assert t[..|line|] == line;
    assert AfterBreak(t, |line|) == rest by {
      if sep == "\n" {
        assert t[|line| + 1..] == rest;
      } else {
        assert t[|line| + 1] == '\n';
        assert t[|line| + 2..] == rest;
      }
    }
  }

  /** readLine gives back every line println wrote, as long as no line holds
      a break of its own. */
  lemma {:induction false} ReadWrite(lines: seq<string>, sep: string)
    requires IsLineSeparator(sep)
    requires forall k :: 0 <= k < |lines| ==> HasNoBreak(lines[k])
    ensures ReadLines(WriteLines(lines, sep)) == lines
  {
    if lines != [] {
      ReadFirstLine(lines[0], sep, WriteLines(lines[1..], sep));
      ReadWrite(lines[1..], sep);
      assert lines == [lines[0]] + lines[1..];
    }
  }

  /** A last line that the file does not end with a separator, as in a file
      edited by hand, is read back as well. */
  lemma {:induction false} ReadWriteLast(lines: seq<string>, last: string, sep: string)
    requires IsLineSeparator(sep)
    requires forall k :: 0 <= k < |lines| ==> HasNoBreak(lines[k])
    requires last != [] && HasNoBreak(last)
    ensures ReadLines(WriteLines(lines, sep) + last) == lines + [last]
  {
    if lines == [] {
      assert WriteLines(lines, sep) + last == last;
      BreakAtNone(last);
      assert last[..|last|] == last;
    } else {
      var rest := WriteLines(lines[1..], sep);
      assert WriteLines(lines, sep) + last == lines[0] + sep + (rest + last);
      ReadFirstLine(lines[0], sep, rest + last);
      ReadWriteLast(lines[1..], last, sep);
      assert lines + [last] == [lines[0]] + (lines[1..] + [last]);
    }
  }

  /** A line holding a break of its own does not come back as written. */
  lemma BrokenLineNotReadBack(lines: seq<string>, sep: string, k: nat)
    requires k < |lines| && !HasNoBreak(lines[k])
    ensures ReadLines(WriteLines(lines, sep)) != lines
  {
    var back := ReadLines(WriteLines(lines, sep));
    assert k < |back| ==> HasNoBreak(back[k]);
  }
}
