// The contacts file: saveContacts writes one line NAME,"N1, N2, ..." per
// contact; loadContacts matches each line against
// ^([^,"]{2,50}),"([0-9+, ]+)"$ and splits the second group on ",\s*".
module Codec {
  import opened Wrappers
  import opened Seqs
  import opened Text
  import opened Validation

  /** The contents of the TreeMap: each name with its list of numbers. */
  type Contacts = map<string, seq<string>>

  // Encoding: saveContacts

  /** The elements of a list joined by ", ", as List.toString writes them
      between its brackets. */
  function JoinNumbers(ns: seq<string>): string {
    if ns == [] then ""
    else if |ns| == 1 then ns[0]
    else ns[0] + ", " + JoinNumbers(ns[1..])
  }

  /** List.toString(). */
  function ListToString(ns: seq<string>): string {
    "[" + JoinNumbers(ns) + "]"
  }

  /** replaceAll("\\[|]", ""): every '[' and every ']' removed. */
  function RemoveBrackets(s: string): string {
    if s == [] then ""
    else (if s[0] == '[' || s[0] == ']' then "" else [s[0]]) + RemoveBrackets(s[1..])
  }

  /** The line saveContacts writes for one entry. */
  function EncodeLine(name: string, numbers: seq<string>): string {
    name + ",\"" + RemoveBrackets(ListToString(numbers)) + "\""
  }

  /** The lines saveContacts writes, one per key, in the order of names. */
  function Encode(names: seq<string>, book: Contacts): seq<string>
    requires forall n :: n in names ==> n in book
  {
    seq(|names|, i requires 0 <= i < |names| => EncodeLine(names[i], book[names[i]]))
  }

  // Decoding: loadContacts

  /** The two capture groups of a line that matches. */
  datatype Record = Record(name: string, numbers: string)

  /** [^,"]{2,50} */
  predicate IsNameGroup(s: string) {
    2 <= |s| <= 50 && forall i :: 0 <= i < |s| ==> s[i] != ',' && s[i] != '"'
  }

  predicate IsNumberGroupChar(c: char) {
    '0' <= c <= '9' || c == '+' || c == ',' || c == ' '
  }

  /** [0-9+, ]+ */
  predicate IsNumberGroup(s: string) {
    |s| >= 1 && forall i :: 0 <= i < |s| ==> IsNumberGroupChar(s[i])
  }

  /** line reads NAME,"NUMBERS" with the groups of r, each within its class. */
  ghost predicate Spells(line: string, r: Record) {
    line == r.name + ",\"" + r.numbers + "\"" && IsNameGroup(r.name) && IsNumberGroup(r.numbers)
  }

  /** The pattern against the whole line. The name group holds no comma, so
      it ends at the first comma of the line; the number group holds no
      quote, so it ends at the final character. */
  function MatchWhole(line: string): Option<Record> {
    var i := IndexOf(line, ',');
    if i + 3 <= |line| && IsNameGroup(line[..i]) && line[i + 1] == '"'
       && line[|line| - 1] == '"' && IsNumberGroup(line[i + 2..|line| - 1])
    then Some(Record(line[..i], line[i + 2..|line| - 1]))
    else None
  }

  /** The line parser accepts exactly the lines of the pattern, and its
      groups are the ones the line spells. */
  lemma MatchWholeIff(line: string, r: Record)
    ensures MatchWhole(line) == Some(r) <==> Spells(line, r)
  {
    var i := IndexOf(line, ',');
    if MatchWhole(line) == Some(r) {
      assert line == line[..i] + ",\"" + line[i + 2..|line| - 1] + "\"";
    }
    if Spells(line, r) {
      var k := |r.name|;
      assert line[k] == ',';
      assert line[..k] == r.name;
      IndexOfIsFirst(line, ',', k);
      assert line[k + 2..|line| - 1] == r.numbers;
    }
  }

  /** matcher.find() for the anchored pattern: '$' matches at the end of the
      line, and also just before a line terminator that ends it. */
  function MatchLine(line: string): Option<Record> {
    match MatchWhole(line)
    case Some(r) => Some(r)
    case None =>
      if line != [] && IsLineTerminator(line[|line| - 1]) then MatchWhole(line[..|line| - 1])
      else None
  }

  lemma MatchLineIff(line: string, r: Record)
    ensures MatchLine(line) == Some(r) <==>
      Spells(line, r)
      || (line != [] && IsLineTerminator(line[|line| - 1]) && Spells(line[..|line| - 1], r))
  {
    MatchWholeIff(line, r);
    if line != [] {
      MatchWholeIff(line[..|line| - 1], r);
    }
    if MatchWhole(line).Some? {
      MatchWholeIff(line, MatchWhole(line).value);
    }
  }

  /** The \s* after a comma: leading regex spaces removed. */
  function SkipSpaces(s: string): (r: string)
    ensures |r| <= |s| && r == s[|s| - |r|..]
    ensures r == [] || !IsRegexSpace(r[0])
  {
    if s != [] && IsRegexSpace(s[0]) then SkipSpaces(s[1..]) else s
  }

  /** The pieces of s around the matches of ",\s*", before split drops any. */
  function Pieces(s: string): seq<string>
    decreases |s|
  {
    var i := IndexOf(s, ',');
    if i == |s| then [s] else [s[..i]] + Pieces(SkipSpaces(s[i + 1..]))
  }

  function DropTrailingEmpty(ps: seq<string>): seq<string> {
    if ps != [] && ps[|ps| - 1] == "" then DropTrailingEmpty(ps[..|ps| - 1]) else ps
  }

  /** String.split(",\\s*"): with no match the whole string; otherwise the
      pieces, a leading empty piece kept and trailing empty pieces dropped. */
  function Split(s: string): seq<string> {
    if ',' !in s then [s] else DropTrailingEmpty(Pieces(s))
  }

  /** One turn of the loadContacts loop: a matching line puts its name with
      the split numbers, overwriting; any other line is skipped. */
  function Absorb(book: Contacts, line: string): Contacts {
    match MatchLine(line)
    case Some(r) => book[r.name := Split(r.numbers)]
    case None => book
  }

  /** loadContacts on a map that already holds book. */
  function DecodeInto(book: Contacts, lines: seq<string>): Contacts
    decreases |lines|
  {
    if lines == [] then book else DecodeInto(Absorb(book, lines[0]), lines[1..])
  }

  /** loadContacts on the empty TreeMap that main creates. */
  function Decode(lines: seq<string>): Contacts {
    DecodeInto(map[], lines)
  }

  // Properties of the line format

  lemma {:induction false} RemoveBracketsAppend(a: string, b: string)
    ensures RemoveBrackets(a + b) == RemoveBrackets(a) + RemoveBrackets(b)
  {
    if a != [] {
      assert (a + b)[0] == a[0] && (a + b)[1..] == a[1..] + b;
      RemoveBracketsAppend(a[1..], b);
    } else {
      assert a + b == b;
    }
  }

  lemma {:induction false} RemoveBracketsNoBrackets(s: string)
    requires forall i :: 0 <= i < |s| ==> s[i] != '[' && s[i] != ']'
    ensures RemoveBrackets(s) == s
  {
    if s != [] {
      RemoveBracketsNoBrackets(s[1..]);
      assert s == [s[0]] + s[1..];
    }
  }

  /** The numbers' characters, commas and spaces are all that a join holds. */
  lemma {:induction false} JoinNumbersChars(ns: seq<string>)
    requires forall x :: x in ns ==> forall i :: 0 <= i < |x| ==> IsNumberGroupChar(x[i])
    ensures forall i :: 0 <= i < |JoinNumbers(ns)| ==> IsNumberGroupChar(JoinNumbers(ns)[i])
  {
    if |ns| > 1 {
      JoinNumbersChars(ns[1..]);
      var j := JoinNumbers(ns);
      var x := ns[0];
      assert j == x + ", " + JoinNumbers(ns[1..]);
      forall i | 0 <= i < |j|
        ensures IsNumberGroupChar(j[i])
      {
        if i < |x| {
          assert j[i] == x[i];
        } else if i >= |x| + 2 {
          assert j[i] == JoinNumbers(ns[1..])[i - |x| - 2];
        }
      }
    }
  }

  /** A join of non-empty numbers starts with the first of them. */
  lemma {:induction false} JoinNumbersStart(ns: seq<string>)
    requires ns != [] && ns[0] != []
    ensures JoinNumbers(ns) != [] && JoinNumbers(ns)[0] == ns[0][0]
  {
  }

  /** A list of numbers each non-empty, without a comma and not starting with
      a space: the join splits back into the list. */
  predicate Separable(ns: seq<string>) {
    forall x :: x in ns ==> x != [] && ',' !in x && !IsRegexSpace(x[0])
  }

  /** The first piece of x, ", ", rest is x, and the spaces after the comma
      are skipped. */
  lemma FirstPiece(x: string, rest: string)
    requires ',' !in x && rest != [] && !IsRegexSpace(rest[0])
    ensures Pieces(x + ", " + rest) == [x] + Pieces(rest)
  {
    var j := x + ", " + rest;
    assert j[|x|] == ',' && j[..|x|] == x;
    IndexOfIsFirst(j, ',', |x|);
    assert j[|x| + 1..] == " " + rest;
    assert SkipSpaces(" " + rest) == rest by {
      assert (" " + rest)[1..] == rest;
    }
  }

  lemma {:induction false} PiecesOfJoin(ns: seq<string>)
    requires ns != [] && Separable(ns)
    ensures Pieces(JoinNumbers(ns)) == ns
  {
    var x := ns[0];
    assert x in ns;
    if |ns| == 1 {
      assert JoinNumbers(ns) == x;
    } else {
      var tail := ns[1..];
      assert tail[0] in ns;
      assert Separable(tail) by {
        forall y | y in tail ensures y in ns { }
      }
      JoinNumbersStart(tail);
      assert JoinNumbers(ns) == x + ", " + JoinNumbers(tail);
      FirstPiece(x, JoinNumbers(tail));
      PiecesOfJoin(tail);
      assert ns == [x] + tail;
    }
  }

  /** split undoes the join for separable numbers. */
  lemma SplitJoin(ns: seq<string>)
    requires ns != [] && Separable(ns)
    ensures Split(JoinNumbers(ns)) == ns
  {
    PiecesOfJoin(ns);
    var j := JoinNumbers(ns);
    if |ns| == 1 {
      assert j == ns[0];
    } else {
      assert j == ns[0] + ", " + JoinNumbers(ns[1..]);
      assert j[|ns[0]|] == ',';
      assert ns[|ns| - 1] in ns;
    }
  }

  /** Where the groups of another reading of NAME,"TEXT" can lie: the same
      groups, a longer name that takes in the comma after NAME, or a shorter
      one that leaves the quote after that comma in the number group. */
  lemma SplitPoints(name: string, text: string, r: Record)
    requires name + ",\"" + text + "\"" == r.name + ",\"" + r.numbers + "\""
    ensures |r.name| == |name| ==> r == Record(name, text)
    ensures |r.name| > |name| ==> ',' in r.name
    ensures |r.name| < |name| ==> '"' in r.numbers
  {
    var line := name + ",\"" + text + "\"";
    var k, m := |r.name|, |name|;
    if k == m {
      assert r.name == line[..m] == name;
      assert r.numbers == line[m + 2..|line| - 1] == text;
    } else if k > m {
      assert r.name[m] == line[m];
    } else {
      assert r.numbers[m - k - 1] == line[m + 1];
    }
  }

  /** Whatever the name and the quoted text, the line NAME,"TEXT" is matched
      exactly when the name fits [^,"]{2,50} and the text fits [0-9+, ]+,
      and then with those two groups. */
  lemma QuotedLineMatch(name: string, text: string)
    ensures MatchLine(name + ",\"" + text + "\"") ==
      if IsNameGroup(name) && IsNumberGroup(text) then Some(Record(name, text)) else None
  {
    var line := name + ",\"" + text + "\"";
    var m := |name|;
    assert line[|line| - 1] == '"';
    if IsNameGroup(name) && IsNumberGroup(text) {
      MatchWholeIff(line, Record(name, text));
    } else if MatchWhole(line).Some? {
      var r := MatchWhole(line).value;
      MatchWholeIff(line, r);
      SplitPoints(name, text, r);
    }
  }

  /** Stored numbers are separable and hold only number-group characters. */
  lemma StoredNumbersShape(ns: seq<string>)
    requires forall x :: x in ns ==> IsStorableNumber(x)
    ensures Separable(ns)
    ensures forall x :: x in ns ==> forall i :: 0 <= i < |x| ==> IsNumberGroupChar(x[i])
  {
    forall x | x in ns
      ensures x != [] && !IsRegexSpace(x[0])
      ensures forall i :: 0 <= i < |x| ==> IsNumberGroupChar(x[i])
    {
      StorableNumberShape(x);
    }
  }

  /** A list is written by toString and the bracket removal as its join. */
  lemma UnbracketedJoin(ns: seq<string>)
    requires forall x :: x in ns ==> forall i :: 0 <= i < |x| ==> IsNumberGroupChar(x[i])
    ensures forall i :: 0 <= i < |JoinNumbers(ns)| ==> IsNumberGroupChar(JoinNumbers(ns)[i])
    ensures RemoveBrackets(ListToString(ns)) == JoinNumbers(ns)
  {
    var j := JoinNumbers(ns);
    JoinNumbersChars(ns);
    RemoveBracketsAppend("[" + j, "]");
    RemoveBracketsAppend("[", j);
    RemoveBracketsNoBrackets(j);
    assert RemoveBrackets("[") == "" by {
      assert "["[1..] == "";
    }
    assert RemoveBrackets("]") == "" by {
      assert "]"[1..] == "";
    }
  }

  /** A stored list of numbers is written as the join, unbracketed. */
  lemma EncodedNumbers(ns: seq<string>)
    requires forall x :: x in ns ==> IsStorableNumber(x)
    ensures RemoveBrackets(ListToString(ns)) == JoinNumbers(ns)
    ensures IsNumberGroup(JoinNumbers(ns)) <==> ns != []
    ensures ns != [] ==> Separable(ns)
  {
    StoredNumbersShape(ns);
    UnbracketedJoin(ns);
    if ns != [] {
      assert ns[0] in ns;
      JoinNumbersStart(ns);
    }
  }

  /** The line written for one contact, read back into any map: the contact
      comes back unchanged when its name fits the name group and it has a
      number; otherwise the line is skipped. */
  lemma LineRoundTrip(book: Contacts, name: string, ns: seq<string>)
    requires forall x :: x in ns ==> IsStorableNumber(x)
    ensures Absorb(book, EncodeLine(name, ns)) ==
      if IsNameGroup(name) && ns != [] then book[name := ns] else book
  {
    EncodedNumbers(ns);
    QuotedLineMatch(name, JoinNumbers(ns));
    if IsNameGroup(name) && ns != [] {
      SplitJoin(ns);
    }
  }

  // Properties of the loading loop

  lemma {:induction false} DecodeAppend(book: Contacts, a: seq<string>, b: seq<string>)
    ensures DecodeInto(book, a + b) == DecodeInto(DecodeInto(book, a), b)
    decreases |a|
  {
    if a != [] {
      assert (a + b)[1..] == a[1..] + b;
      DecodeAppend(Absorb(book, a[0]), a[1..], b);
    } else {
      assert a + b == b;
    }
  }

  /** A line that does not match leaves no trace. */
  lemma SkipsUnmatched(book: Contacts, a: seq<string>, line: string, b: seq<string>)
    requires MatchLine(line) == None
    ensures DecodeInto(book, a + [line] + b) == DecodeInto(book, a + b)
  {
    DecodeAppend(book, a + [line], b);
    DecodeAppend(book, a, [line]);
    DecodeAppend(book, a, b);
  }

  /** What the last line naming n gives it, read from the end; what book
      holds for n when no line names it. */
  ghost function Latest(book: Contacts, lines: seq<string>, n: string): Option<seq<string>> {
    if lines == [] then (if n in book then Some(book[n]) else None)
    else match MatchLine(lines[|lines| - 1])
      case Some(r) =>
        if r.name == n then Some(Split(r.numbers)) else Latest(book, lines[..|lines| - 1], n)
      case None => Latest(book, lines[..|lines| - 1], n)
  }

  /** Loading keeps, for each name, the numbers of the last line naming it. */
  lemma {:induction false} DecodeLatest(book: Contacts, lines: seq<string>, n: string)
    ensures n in DecodeInto(book, lines) <==> Latest(book, lines, n).Some?
    ensures n in DecodeInto(book, lines) ==> DecodeInto(book, lines)[n] == Latest(book, lines, n).value
  {
    if lines != [] {
      var init := lines[..|lines| - 1];
      var last := lines[|lines| - 1];
      assert lines == init + [last];
      DecodeAppend(book, init, [last]);
      DecodeLatest(book, init, n);
    }
  }

  /** split keeps a leading empty piece. */
  lemma SplitKeepsLeadingEmpty(t: string)
    requires t != [] && ',' !in t && !IsRegexSpace(t[0])
    ensures Split(", " + t) == ["", t]
  {
    FirstPiece("", t);
    assert "" + ", " + t == ", " + t;
    assert (", " + t)[0] == ',';
  }

  /** split drops trailing empty pieces: a number followed by a comma comes
      back alone, and a group that is only a comma gives no numbers. */
  lemma SplitDropsTrailingEmpty(t: string)
    requires ',' !in t
    ensures Split(t + ", ") == if t == "" then [] else [t]
  {
    PiecesTrailingComma(t);
    var ps := [t, ""];
    assert ps[..|ps| - 1] == [t];
    assert DropTrailingEmpty(ps) == DropTrailingEmpty([t]);
    if t == "" {
      assert [t][..0] == [];
      assert DropTrailingEmpty([t]) == DropTrailingEmpty([]);
    }
  }

  /** The pieces of a comma-free text followed by ", ". */
  lemma PiecesTrailingComma(t: string)
    requires ',' !in t
    ensures ',' in t + ", " && Pieces(t + ", ") == [t, ""]
  {
    var s := t + ", ";
    assert s[|t|] == ',' && s[..|t|] == t;
    IndexOfIsFirst(s, ',', |t|);
    assert s[|t| + 1..] == " ";
    assert SkipSpaces(" ") == "" by {
      assert " "[1..] == "";
    }
    assert Pieces("") == [""];
  }

  /** The loader does not check numbers: any comma-free text of the number
      group, such as "+++", which the number check rejects, is loaded as
      the one number it spells. */
  lemma LoadDoesNotValidate(name: string, text: string)
    requires IsNameGroup(name) && IsNumberGroup(text) && ',' !in text
    ensures Decode([name + ",\"" + text + "\""]) == map[name := [text]]
  {
    QuotedLineMatch(name, text);
    var line := name + ",\"" + text + "\"";
    assert Split(text) == [text];
    assert Absorb(map[], line) == map[name := [text]];
    assert [line][0] == line && [line][1..] == [];
    assert Decode([line]) == DecodeInto(Absorb(map[], line), []);
  }
}
