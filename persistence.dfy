// What survives saveContacts followed by loadContacts: the file written for
// a store, read back line by line into an empty map.
module Persistence {
  import opened Seqs
  import opened Validation
  import opened OrderedKeys
  import opened LineFile
  import opened Codec

  /** Every number in book is one that add and edit could have stored. */
  ghost predicate NumbersStorable(book: Contacts) {
    forall n, x :: n in book && x in book[n] ==> IsStorableNumber(x)
  }

  /** No name in book holds a character readLine would end a line at. */
  ghost predicate NoLineBreaks(book: Contacts) {
    forall n :: n in book ==> HasNoBreak(n)
  }

  /** Putting a list whose numbers are storable, or were already listed
      under that name, keeps every number of the store storable. */
  lemma PutKeepsStorable(book: Contacts, name: string, numbers: seq<string>)
    requires forall x :: x in numbers ==> IsStorableNumber(x) || (name in book && x in book[name])
    ensures NumbersStorable(book) ==> NumbersStorable(book[name := numbers])
  {
  }

  /** The contacts whose lines the loader accepts again: a name within
      [^,"]{2,50} and at least one number. */
  function Survivors(book: Contacts): Contacts {
    map n | n in book && IsNameGroup(n) && book[n] != [] :: book[n]
  }

  /** Survivors restricted to the contacts listed in names, the form the
      induction over the written lines needs. */
  ghost function Kept(names: seq<string>, book: Contacts): Contacts
    requires forall n :: n in names ==> n in book
  {
    map n | n in names && IsNameGroup(n) && book[n] != [] :: book[n]
  }

  /** Keeping the first listed contact, then the survivors among the rest,
      keeps the survivors among all of them. */
  lemma KeptStep(acc: Contacts, names: seq<string>, book: Contacts)
    requires names != [] && forall n :: n in names ==> n in book
    ensures var n := names[0];
      (if IsNameGroup(n) && book[n] != [] then acc[n := book[n]] else acc) + Kept(names[1..], book)
      == acc + Kept(names, book)
  {
    assert forall m :: m in names <==> m == names[0] || m in names[1..];
  }

  lemma {:induction false} DecodeEncoded(acc: Contacts, names: seq<string>, book: Contacts)
    requires forall n :: n in names ==> n in book
    requires NumbersStorable(book)
    ensures DecodeInto(acc, Encode(names, book)) == acc + Kept(names, book)
    decreases |names|
  {
    var lines := Encode(names, book);
    if names == [] {
      assert Kept(names, book) == map[];
      assert acc + map[] == acc;
    } else {
      var n := names[0];
      var tail := names[1..];
      assert n in names;
      assert lines[1..] == Encode(tail, book);
      LineRoundTrip(acc, n, book[n]);
      DecodeEncoded(Absorb(acc, lines[0]), tail, book);
      KeptStep(acc, names, book);
    }
  }

  /** The line written for a contact holds no break when its name holds
      none and its numbers are storable. */
  lemma EncodedLineUnbroken(name: string, ns: seq<string>)
    requires HasNoBreak(name) && forall x :: x in ns ==> IsStorableNumber(x)
    ensures HasNoBreak(EncodeLine(name, ns))
  {
    StoredNumbersShape(ns);
    UnbracketedJoin(ns);
    var j := JoinNumbers(ns);
    NoBreakAppend(name, ",\"");
    NoBreakAppend(name + ",\"", j);
    NoBreakAppend(name + ",\"" + j, "\"");
  }

  lemma EncodedLinesUnbroken(names: seq<string>, book: Contacts)
    requires forall n :: n in names ==> n in book
    requires NumbersStorable(book) && NoLineBreaks(book)
    ensures forall k :: 0 <= k < |names| ==> HasNoBreak(Encode(names, book)[k])
  {
    forall k | 0 <= k < |names|
      ensures HasNoBreak(Encode(names, book)[k])
    {
      assert names[k] in names;
      EncodedLineUnbroken(names[k], book[names[k]]);
    }
  }

  /** A matched name is a prefix of its line, so it holds no break when the
      line holds none. */
  lemma MatchedNameUnbroken(line: string)
    requires HasNoBreak(line) && MatchLine(line).Some?
    ensures HasNoBreak(MatchLine(line).value.name)
  {
    var name := MatchLine(line).value.name;
    var i := IndexOf(line, ',');
    if MatchWhole(line).Some? {
      assert name == line[..i];
    } else {
      var cut := line[..|line| - 1];
      assert name == cut[..IndexOf(cut, ',')];
      assert forall j :: 0 <= j < |cut| ==> cut[j] == line[j];
    }
  }

  /** The loader keeps every name free of breaks when the map and the lines
      are. */
  lemma {:induction false} DecodeKeepsUnbroken(book: Contacts, lines: seq<string>)
    requires NoLineBreaks(book)
    requires forall k :: 0 <= k < |lines| ==> HasNoBreak(lines[k])
    ensures NoLineBreaks(DecodeInto(book, lines))
    decreases |lines|
  {
    if lines != [] {
      if MatchLine(lines[0]).Some? {
        MatchedNameUnbroken(lines[0]);
      }
      DecodeKeepsUnbroken(Absorb(book, lines[0]), lines[1..]);
    }
  }

  /** The store read back from the text that saveContacts writes with the
      line separator sep. */
  ghost function Reloaded(names: seq<string>, book: Contacts, sep: string): Contacts
    requires forall n :: n in names ==> n in book
  {
    Decode(ReadLines(WriteLines(Encode(names, book), sep)))
  }

  /** Saving and then loading a store yields exactly its survivors, when
      every number is one the commands could have stored and no name holds
      a line break. */
  lemma Reload(names: seq<string>, book: Contacts, sep: string)
    requires Orders(names, book) && NumbersStorable(book) && NoLineBreaks(book)
    requires IsLineSeparator(sep)
    ensures Reloaded(names, book, sep) == Survivors(book)
  {
    EncodedLinesUnbroken(names, book);
    ReadWrite(Encode(names, book), sep);
    DecodeEncoded(map[], names, book);
    assert map[] + Kept(names, book) == Survivors(book);
  }

  /** A name holding a line break splits its line in the file, so the lines
      read back are not the lines written. */
  lemma LineBreakSplitsLine(names: seq<string>, book: Contacts, sep: string, k: nat)
    requires forall n :: n in names ==> n in book
    requires k < |names| && !HasNoBreak(names[k])
    ensures ReadLines(WriteLines(Encode(names, book), sep)) != Encode(names, book)
  {
    var n := names[k];
    assert n in names;
    var tail := ",\"" + RemoveBrackets(ListToString(book[n])) + "\"";
    assert EncodeLine(n, book[n]) == n + tail;
    NoBreakAppend(n, tail);
    BrokenLineNotReadBack(Encode(names, book), sep, k);
  }

  /** The round trip: a store whose names fit the name group and whose lists
      are non-empty is read back as it was written. */
  lemma RoundTrip(names: seq<string>, book: Contacts, sep: string)
    requires Orders(names, book) && NumbersStorable(book) && NoLineBreaks(book)
    requires IsLineSeparator(sep)
    requires forall n :: n in book ==> IsNameGroup(n) && book[n] != []
    ensures Reloaded(names, book, sep) == book
  {
    Reload(names, book, sep);
  }

  /** A contact is lost on reload exactly when its name holds a ',' or a '"'
      or is not 2 to 50 characters long, or its list of numbers is empty. */
  lemma LostOnReload(names: seq<string>, book: Contacts, sep: string, n: string)
    requires Orders(names, book) && NumbersStorable(book) && NoLineBreaks(book)
    requires IsLineSeparator(sep) && n in book
    ensures n in Reloaded(names, book, sep) <==> IsNameGroup(n) && book[n] != []
  {
    Reload(names, book, sep);
  }

  /** The add command's name check lets through a name that the loader
      rejects. */
  lemma AcceptedNameNotReloaded()
    ensures IsValidName("Doe, Jane") && !IsNameGroup("Doe, Jane")
  {
    assert "Doe, Jane"[3] == ',';
  }

  /** After one reload nothing more is lost: saving the reloaded store and
      loading it again, on any platform, gives the same contacts. */
  lemma ReloadIsStable(names: seq<string>, book: Contacts, sep: string, names': seq<string>, sep': string)
    requires Orders(names, book) && NumbersStorable(book) && NoLineBreaks(book)
    requires IsLineSeparator(sep) && IsLineSeparator(sep')
    requires Orders(names', Reloaded(names, book, sep))
    ensures Reloaded(names', Reloaded(names, book, sep), sep') == Reloaded(names, book, sep)
  {
    Reload(names, book, sep);
    RoundTrip(names', Survivors(book), sep');
  }
}
