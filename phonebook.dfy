// The contact store of PhoneBook.java: the TreeMap built in main, loaded from
// and saved to the contacts file, and the show, find, add, edit and delete
// commands that read and change it. Each command takes the lines the user
// typed once the prompt loops accepted them; the file is read as its text
// and written as the lines println prints.
module PhoneBook {
  import opened Wrappers
  import opened Seqs
  import opened Text
  import opened Validation
  import opened OrderedKeys
  import opened LineFile
  import opened Codec
  import opened Persistence

  datatype AddOutcome = Created | Appended | AlreadyListed

  /** The edit sub-command with the number line it goes on to read. */
  datatype EditChoice = AddNumber(rawNumber: string) | DeleteNumber(rawNumber: string) | Cancel

  datatype EditOutcome = NameNotFound | NumberAdded | NumberRemoved | NotModified

  /** The answer to "Are you sure? [Y/N]". */
  datatype Confirmation = Yes | No

  /** The edit sub-command as its prompt loop accepts it for a contact with
      these numbers: a valid number to add, a listed number to delete. */
  predicate AcceptsChoice(choice: EditChoice, numbers: seq<string>) {
    match choice
    case AddNumber(raw) => IsValidNumber(Trim(raw))
    case DeleteNumber(raw) => Trim(raw) in numbers
    case Cancel => true
  }

  /** The names among names whose list holds number, in the order of names:
      what the findContact loop prints. */
  function Holders(names: seq<string>, book: Contacts, number: string): seq<string>
    requires forall n :: n in names ==> n in book
  {
    if names == [] then []
    else
      var last := names[|names| - 1];
      Holders(names[..|names| - 1], book, number) + (if number in book[last] then [last] else [])
  }

  /** One more name scanned: the holders grow by that name when its list
      holds the number. */
  lemma HoldersStep(names: seq<string>, book: Contacts, number: string, i: nat)
    requires i < |names| && forall n :: n in names ==> n in book
    ensures forall n :: n in names[..i + 1] ==> n in book
    ensures Holders(names[..i + 1], book, number) ==
      Holders(names[..i], book, number) + (if number in book[names[i]] then [names[i]] else [])
  {
    assert names[..i + 1][..i] == names[..i];
  }

  /** Over the keys of a TreeMap in order, the holders of a number are
      ascending, and they are exactly the names whose list holds it. */
  lemma {:induction false} HoldersSpec(names: seq<string>, book: Contacts, number: string)
    requires Ascending(names) && forall n :: n in names ==> n in book
    ensures Ascending(Holders(names, book, number))
    ensures forall n :: n in Holders(names, book, number) <==> n in names && number in book[n]
  {
    if names != [] {
      var init := names[..|names| - 1];
      var last := names[|names| - 1];
      assert forall n :: n in names <==> n in init || n == last;
      HoldersSpec(init, book, number);
      forall n | n in init
        ensures Less(n, last)
      {
        var k :| 0 <= k < |init| && init[k] == n;
      }
    }
  }

  class Store {
    /** The entries of the TreeMap. */
    var book: Contacts
    /** Its keys in the order entrySet() visits them. */
    var names: seq<string>

    /** The keys are listed in order, and no name holds a line break: every
        name comes from a line of the file or passed the name check. */
    ghost predicate Valid()
      reads this
    {
      Orders(names, book) && NoLineBreaks(book)
    }

    /** main: a new TreeMap filled by loadContacts from the lines readLine
        cuts the file's text into; a file that cannot be opened (None)
        leaves it empty. */
    constructor Open(file: Option<string>)
      ensures Valid()
      ensures book == if file.Some? then Decode(ReadLines(file.value)) else map[]
    {
      book := map[];
      names := [];
      new;
      if file.Some? {
        Load(ReadLines(file.value));
      }
    }

    /** TreeMap.put. */
    method Put(name: string, numbers: seq<string>)
      requires Valid() && HasNoBreak(name)
      modifies this
      ensures Valid()
      ensures book == old(book)[name := numbers]
    {
      if name !in book {
        names := Insert(names, name);
      }
      book := book[name := numbers];
    }

    /** TreeMap.remove. */
    method Remove(name: string)
      requires Valid()
      modifies this
      ensures Valid()
      ensures book == old(book) - {name}
    {
      names := RemoveKey(names, name);
      book := book - {name};
    }

    /** loadContacts: every line that matches puts its contact, in file
        order. */
    method Load(lines: seq<string>)
      requires Valid()
      requires forall k :: 0 <= k < |lines| ==> HasNoBreak(lines[k])
      modifies this
      ensures Valid()
      ensures book == DecodeInto(old(book), lines)
    {
      var i := 0;
      while i < |lines|
        invariant 0 <= i <= |lines|
        invariant Valid()
        invariant DecodeInto(book, lines[i..]) == DecodeInto(old(book), lines)
      {
        assert lines[i..][1..] == lines[i + 1..];
        var m := MatchLine(lines[i]);
        if m.Some? {
          MatchedNameUnbroken(lines[i]);
          Put(m.value.name, Split(m.value.numbers));
        }
        i := i + 1;
      }
    }

    /** saveContacts: the lines written to the file, one per entry in key
        order. */
    method Save() returns (lines: seq<string>)
      requires Valid()
      ensures lines == Encode(names, book)
    {
      lines := [];
      var i := 0;
      while i < |names|
        invariant 0 <= i <= |names|
        invariant |lines| == i
        invariant forall k :: 0 <= k < i ==> lines[k] == EncodeLine(names[k], book[names[k]])
      {
        lines := lines + [EncodeLine(names[i], book[names[i]])];
        i := i + 1;
      }
    }

    /** showContact: the numbers stored under the trimmed name, if any. */
    function Show(rawName: string): (found: Option<seq<string>>)
      reads this
      ensures found.Some? <==> Trim(rawName) in book
      ensures found.Some? ==> found.value == book[Trim(rawName)]
    {
      var name := Trim(rawName);
      if name in book then Some(book[name]) else None
    }

    /** findContact: the names, in ascending order, whose list holds the
        trimmed number exactly as typed. */
    method Find(rawNumber: string) returns (owners: seq<string>)
      requires Valid()
      requires IsValidNumber(Trim(rawNumber))
      ensures Ascending(owners)
      ensures forall n :: n in owners <==> n in book && Trim(rawNumber) in book[n]
    {
      var number := Trim(rawNumber);
      var keys, entries := names, book;
      assert forall n :: n in keys ==> n in entries;
      owners := [];
      var i := 0;
      while i < |keys|
        invariant 0 <= i <= |keys|
        invariant owners == Holders(keys[..i], entries, number)
      {
        HoldersStep(keys, entries, number, i);
        if number in entries[keys[i]] {
          owners := owners + [keys[i]];
        }
        i := i + 1;
      }
      assert keys[..|keys|] == keys;
      HoldersSpec(keys, entries, number);
    }

    /** addContact: a new name gets a list holding just the number, a known
        name gets the number appended unless it lists it already. Every
        change is saved. */
    method Add(rawName: string, rawNumber: string) returns (outcome: AddOutcome, written: Option<seq<string>>)
      requires Valid()
      requires IsValidName(Trim(rawName)) && IsValidNumber(Trim(rawNumber))
      modifies this
      ensures Valid()
      ensures var name, number := Trim(rawName), Trim(rawNumber);
        && (outcome == Created <==> name !in old(book))
        && (outcome == AlreadyListed <==> name in old(book) && number in old(book)[name])
        && book == match outcome
             case Created => old(book)[name := [number]]
             case Appended => old(book)[name := old(book)[name] + [number]]
             case AlreadyListed => old(book)
      ensures written == if outcome == AlreadyListed then None else Some(Encode(names, book))
      ensures Show(rawName).Some? && Trim(rawNumber) in Show(rawName).value
      ensures NumbersStorable(old(book)) ==> NumbersStorable(book)
    {
      var name, number := Trim(rawName), Trim(rawNumber);
      ValidNameUnbroken(name);
      if name in book {
        if number in book[name] {
          outcome, written := AlreadyListed, None;
        } else {
          PutKeepsStorable(book, name, book[name] + [number]);
          Put(name, book[name] + [number]);
          var lines := Save();
          outcome, written := Appended, Some(lines);
        }
      } else {
        PutKeepsStorable(book, name, [number]);
        Put(name, [number]);
        var lines := Save();
        outcome, written := Created, Some(lines);
      }
    }

    /** editContact: an unknown name changes nothing; otherwise add appends
        the number with no duplicate check, delete removes its first
        occurrence (possibly leaving the list empty) and cancel changes
        nothing. Every change is saved. */
    method Edit(rawName: string, choice: EditChoice) returns (outcome: EditOutcome, written: Option<seq<string>>)
      requires Valid()
      requires Trim(rawName) in book ==> AcceptsChoice(choice, book[Trim(rawName)])
      modifies this
      ensures Valid()
      ensures var name := Trim(rawName);
        if name !in old(book) then
          outcome == NameNotFound && book == old(book)
        else match choice
          case AddNumber(raw) =>
            outcome == NumberAdded && book == old(book)[name := old(book)[name] + [Trim(raw)]]
          case DeleteNumber(raw) =>
            outcome == NumberRemoved && book == old(book)[name := RemoveFirst(old(book)[name], Trim(raw))]
          case Cancel =>
            outcome == NotModified && book == old(book)
      ensures written == if outcome in {NumberAdded, NumberRemoved} then Some(Encode(names, book)) else None
      ensures NumbersStorable(old(book)) ==> NumbersStorable(book)
    {
      var name := Trim(rawName);
      if name !in book {
        return NameNotFound, None;
      }
      var numbers := book[name];
      match choice
      case AddNumber(raw) =>
        PutKeepsStorable(book, name, book[name] + [Trim(raw)]);
        Put(name, book[name] + [Trim(raw)]);
        var lines := Save();
        outcome, written := NumberAdded, Some(lines);
      case DeleteNumber(raw) =>
        numbers := RemoveFirst(numbers, Trim(raw));
        PutKeepsStorable(book, name, numbers);
        Put(name, numbers);
        var lines := Save();
        outcome, written := NumberRemoved, Some(lines);
      case Cancel =>
        outcome, written := NotModified, None;
    }

    /** deleteContact: a confirmed delete of a known name removes that
        contact and saves; anything else changes nothing. */
    method Delete(rawName: string, answer: Confirmation) returns (deleted: bool, written: Option<seq<string>>)
      requires Valid()
      modifies this
      ensures Valid()
      ensures deleted <==> Trim(rawName) in old(book) && answer == Yes
      ensures book == if deleted then old(book) - {Trim(rawName)} else old(book)
      ensures written == if deleted then Some(Encode(names, book)) else None
      ensures deleted ==> Show(rawName) == None
    {
      var name := Trim(rawName);
      deleted, written := false, None;
      if name in book && answer == Yes {
        Remove(name);
        var lines := Save();
        deleted, written := true, Some(lines);
      }
    }
  }

  /** A session on a store without the name: add a contact, add the same
      number again, then delete that number in edit. The name stays with an
      empty list, and the file written last, with the line separator sep,
      does not bring it back. */
  method AddThenDeleteOnlyNumber(store: Store, rawName: string, rawNumber: string, sep: string) returns (reloaded: Contacts)
    requires store.Valid() && IsLineSeparator(sep)
    requires IsValidName(Trim(rawName)) && IsValidNumber(Trim(rawNumber))
    requires Trim(rawName) !in store.book
    requires NumbersStorable(store.book)
    modifies store
    ensures store.Valid()
    ensures Trim(rawName) in store.book && store.book[Trim(rawName)] == []
    ensures Trim(rawName) !in reloaded
  {
    var added, _ := store.Add(rawName, rawNumber);
    assert added == Created;
    var again, unsaved := store.Add(rawName, rawNumber);
    assert again == AlreadyListed && unsaved == None;
    var edited, written := store.Edit(rawName, DeleteNumber(rawNumber));
    assert edited == NumberRemoved;
    reloaded := Decode(ReadLines(WriteLines(written.value, sep)));
    LostOnReload(store.names, store.book, sep, Trim(rawName));
  }
}
