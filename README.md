# Phone book contact store — a Dafny model

This project models the contact store of the command-line phone book
(`phonebook/src/PhoneBook.java`). The store is a `TreeMap<String, List<String>>`
from a contact name to its ordered list of phone numbers. It is loaded from a
text file at start, saved in full after every change, and read and changed by
the `show`, `find`, `add`, `edit` and `delete` commands.

The model has these parts:

- `Text` (`text.dfy`): `String.trim`, the character classes of the two regular
  expressions, and `String.compareTo` as the order `Less`, which orders the
  TreeMap's keys.
- `Seqs` (`seqs.dfy`): `indexOf`, and `List.remove(Object)` as `RemoveFirst`.
- `Validation` (`validation.dfy`): the number check `^\+?[0-9 ]{3,25}$` and the
  name check `^.{2,50}$`.
- `OrderedKeys` (`ordered_keys.dfy`): the TreeMap's keys as a strictly
  ascending sequence, with insertion and removal.
- `LineFile` (`line_file.dfy`): the contacts file as text.
  - `WriteLines` is `println`, which ends each line with `"\n"` or
    `"\r\n"`.
  - `ReadLines` is the `readLine` loop, which cuts the text at `'\n'`,
    `'\r'` or `"\r\n"`.
- `Codec` (`codec.dfy`): the line format `NAME,"N1, N2, ..."`.
  - `EncodeLine` and `Encode` model the lines `saveContacts` prints.
  - `MatchLine`, `Split` and `DecodeInto` model `loadContacts`: the
    anchored regex match of each line, `split(",\\s*")`, and the fold that
    puts each matching line into the map.
- `Persistence` (`persistence.dfy`): what a save followed by a load gives
  back. `Reloaded` is the store read back from the text that the save
  writes.
- `PhoneBook` (`phonebook.dfy`): the class `Store`.
  - Its fields are the map `book` and its key order `names`.
  - Its invariant `Valid` says the keys are listed in order and no name
    holds a line break.
  - Its methods are the TreeMap operations and one method per command.
  - Each command takes the input lines the prompt loops accepted. The
    command trims them, as the Java does.
  - The re-prompt loops become `requires` clauses. The lower-cased
    sub-answers become the datatypes `EditChoice` and `Confirmation`.
  - Every command that saves returns, as `written`, the lines it prints to
    the file. It is `None` when the command does not save.

The main result is `Persistence.Reload`. It assumes two things:

- every stored number passed the number check after trimming;
- no name holds a line break.

Then saving a store and reading the file back gives exactly the contacts
whose name fits `[^,"]{2,50}` and whose list is non-empty. This holds with
either line separator.

The second assumption always holds for a `Store`, and the model proves it:

- an added name passed the name check, which refuses line terminators;
- a loaded name is part of a line that `readLine` returned.

`Persistence.LineBreakSplitsLine` shows the assumption is needed: with a
name that holds a break, the lines read back are not the lines written.

Three corollaries follow from `Reload`:

- `RoundTrip`: a store without such contacts comes back unchanged.
- `LostOnReload`: a contact is lost on reload exactly when its name or its
  list fails those conditions.
- `ReloadIsStable`: after one reload, nothing more is lost.

The model also brings out four places where the code is not consistent with
itself:

- Names. The add check at line 122 accepts a name with a comma or a double
  quote. The loader's name group at line 28 rejects it, so such a contact
  vanishes on the next start. `Persistence.AcceptedNameNotReloaded` gives
  such a name, and `Persistence.LostOnReload` shows that its contact is
  dropped.
- Number length. The messages at lines 98, 135 and 207 say "Min length 3,
  max length 25". The pattern at lines 97, 132 and 201 accepts an optional
  `+` followed by 3 to 25 digits or spaces, so a number with a `+` can be 26
  characters long.
- Duplicates. Add checks for a duplicate number at line 142. Edit-add
  appends at line 202 without that check.
- Empty lists. Edit-delete can leave a contact with no numbers (lines
  216-218). It is written as `name,""`, and the `+` of the number group at
  line 28 then rejects that line. `PhoneBook.AddThenDeleteOnlyNumber` shows
  the whole session. Edit-delete on such a contact cannot finish: no number
  passes `numbers.contains` at line 216, so the loop at lines 213-228 asks
  again forever. `PhoneBook.AcceptsChoice` holds for no deletion from an
  empty list, so `Store.Edit` cannot be called for that case.

## Model

| member | source | states |
|---|---|---|
| `Text.Trim` | phonebook/src/PhoneBook.java:121 | the trimmed input is the input without a prefix and a suffix of characters up to U+0020, and it neither starts nor ends with such a character |
| `Text.LessIrreflexive` | phonebook/src/PhoneBook.java:279 | no key sorts before itself in the TreeMap order |
| `Text.LessTransitive` | phonebook/src/PhoneBook.java:279 | the TreeMap key order is transitive |
| `Text.LessTotal` | phonebook/src/PhoneBook.java:279 | any two different keys are ordered one way or the other |
| `Seqs.RemoveFirst` | phonebook/src/PhoneBook.java:217 | removing a listed number drops exactly its first occurrence and keeps the others in order; an unlisted number leaves the list as it is |
| `Validation.ValidNumberIff` | phonebook/src/PhoneBook.java:97 | the number check accepts exactly an optional `+` followed by 3 to 25 characters that are each a digit or a space |
| `Validation.StorableNumberShape` | phonebook/src/PhoneBook.java:131-132 | a trimmed accepted number is non-empty, does not start with a space, and holds only digits, spaces and `+` |
| `OrderedKeys.Insert` | phonebook/src/PhoneBook.java:153 | putting a new key keeps the key sequence ascending and adds exactly that key |
| `OrderedKeys.RemoveKey` | phonebook/src/PhoneBook.java:250 | removing a key keeps the key sequence ascending and removes exactly that key |
| `OrderedKeys.OrderUnique` | phonebook/src/PhoneBook.java:279 | only one ascending sequence lists a given set of keys, so the TreeMap's visiting order depends on its keys alone |
| `Codec.MatchWholeIff` | phonebook/src/PhoneBook.java:28 | the line parser accepts a line exactly when it reads `NAME,"NUMBERS"`, with the name within `[^,"]{2,50}` and the numbers within `[0-9+, ]+`, and it returns those two groups |
| `Codec.MatchLineIff` | phonebook/src/PhoneBook.java:36-37 | `find()` succeeds exactly on such a line, or on such a line followed by one final line terminator |
| `Codec.SplitJoin` | phonebook/src/PhoneBook.java:38 | splitting on `,\s*` gives back any non-empty list of comma-free numbers that do not start with a space, once they are joined with `", "` |
| `Codec.SplitKeepsLeadingEmpty` | phonebook/src/PhoneBook.java:38 | a group that starts with a comma splits into a leading empty number and the rest |
| `Codec.SplitDropsTrailingEmpty` | phonebook/src/PhoneBook.java:38 | a trailing comma and space add no empty number, and a group that is only `, ` gives no numbers |
| `Codec.SplitPoints` | phonebook/src/PhoneBook.java:28 | another reading of `NAME,"TEXT"` has the same groups, or a name group holding a comma, or a number group holding a quote |
| `Codec.QuotedLineMatch` | phonebook/src/PhoneBook.java:14-15 | the written line `NAME,"TEXT"` matches exactly when the name fits the name group and the text fits the number group, and then it yields them |
| `Codec.EncodedNumbers` | phonebook/src/PhoneBook.java:15 | for stored numbers, the bracket-stripped `toString` of the list is their join with `", "`, and it fits the number group exactly when the list is non-empty |
| `Codec.LineRoundTrip` | phonebook/src/PhoneBook.java:14-39 | reading back the line written for a contact puts that contact unchanged when its name fits the name group and its list is non-empty, and otherwise changes nothing |
| `Codec.DecodeAppend` | phonebook/src/PhoneBook.java:30-41 | loading two runs of lines is loading the first and then the second |
| `Codec.SkipsUnmatched` | phonebook/src/PhoneBook.java:36-37 | a line that does not match leaves no trace in the loaded map |
| `Codec.DecodeLatest` | phonebook/src/PhoneBook.java:39 | each loaded name carries the numbers of the last line that names it; a name no line gives keeps what the map had |
| `Codec.LoadDoesNotValidate` | phonebook/src/PhoneBook.java:38-39 | any comma-free text of the number group is loaded as one number, valid or not |
| `Persistence.PutKeepsStorable` | phonebook/src/PhoneBook.java:145 | putting a list of numbers that were accepted, or were already listed under the name, keeps every stored number acceptable |
| `Persistence.Reload` | phonebook/src/PhoneBook.java:10-46 | saving a store with acceptable numbers and unbroken names, then reading the file back with either line separator, gives exactly its contacts whose name fits `[^,"]{2,50}` and whose list is non-empty |
| `Persistence.RoundTrip` | phonebook/src/PhoneBook.java:10-46 | a store with acceptable numbers, fitting names and non-empty lists is read back from its file as it was saved |
| `Persistence.LostOnReload` | phonebook/src/PhoneBook.java:28 | a contact survives a save and load exactly when its name fits the name group and its list is non-empty |
| `Persistence.AcceptedNameNotReloaded` | phonebook/src/PhoneBook.java:122 | the add command accepts a name with a comma that the loader's name group rejects |
| `Persistence.ReloadIsStable` | phonebook/src/PhoneBook.java:10-46 | after one save and load, saving and loading again changes nothing |
| `PhoneBook.HoldersSpec` | phonebook/src/PhoneBook.java:103-108 | over the keys in order, the names printed for a number are ascending and are exactly the names whose list holds it |
| `PhoneBook.Store.Open` | phonebook/src/PhoneBook.java:279-280 | the store starts as the lines `readLine` cuts the file's text into, loaded into an empty map, or empty when the file cannot be opened; no name holds a line break |
| `PhoneBook.Store.Put` | phonebook/src/PhoneBook.java:153 | `put` sets one key's list and changes no other key, keeping the key order |
| `PhoneBook.Store.Remove` | phonebook/src/PhoneBook.java:250 | `remove` drops one key and changes no other, keeping the key order |
| `PhoneBook.Store.Load` | phonebook/src/PhoneBook.java:25-46 | the map after the loop is the map before it with every line absorbed in file order, and no loaded name holds a line break |
| `PhoneBook.Store.Save` | phonebook/src/PhoneBook.java:10-23 | the lines written are one encoded line per entry, in ascending key order; an empty store writes none |
| `PhoneBook.Store.Show` | phonebook/src/PhoneBook.java:76-91 | show finds a contact exactly when the trimmed name is a key, and then gives that key's list |
| `PhoneBook.Store.Find` | phonebook/src/PhoneBook.java:93-112 | find gives, in ascending order, exactly the names whose list holds the trimmed number as an equal string |
| `PhoneBook.Store.Add` | phonebook/src/PhoneBook.java:114-160 | a new name gets exactly `[number]`; a known name gets the number appended unless it lists it already, in which case nothing changes or is saved; no other key changes; the contact then lists the number |
| `PhoneBook.Store.Edit` | phonebook/src/PhoneBook.java:162-237 | an unknown name or cancel changes nothing; add appends with no duplicate check; delete removes the first occurrence of a listed number; both save |
| `PhoneBook.Store.Delete` | phonebook/src/PhoneBook.java:239-269 | a yes for a known name removes exactly that key and saves; no or an unknown name changes nothing; afterwards show finds nothing |
| `PhoneBook.AddThenDeleteOnlyNumber` | phonebook/src/PhoneBook.java:212-219 | adding a contact and deleting its only number leaves the name with an empty list, which the saved file does not bring back |
| `Text.Less` | phonebook/src/PhoneBook.java:279 | defines the key order as the lexicographic order of `compareTo`, a proper prefix first |
| `Validation.IsValidNumber` | phonebook/src/PhoneBook.java:97 | defines the number check: after an optional `+`, 3 to 25 digits or spaces |
| `Validation.IsValidName` | phonebook/src/PhoneBook.java:122 | defines the name check: 2 to 50 characters, none a line terminator, commas and quotes allowed |
| `Validation.ValidNameUnbroken` | phonebook/src/PhoneBook.java:122 | a name that passes the name check holds no character at which `readLine` ends a line |
| `LineFile.WriteLines` | phonebook/src/PhoneBook.java:11-16 | defines the file text as each printed line followed by the line separator |
| `LineFile.ReadLines` | phonebook/src/PhoneBook.java:30-34 | the lines `readLine` returns hold no line break |
| `LineFile.ReadFirstLine` | phonebook/src/PhoneBook.java:11-34 | `readLine` returns a break-free line that `println` ended with either separator, then goes on after that separator |
| `LineFile.ReadWriteLast` | phonebook/src/PhoneBook.java:30-34 | a last line that the text does not end with a separator is returned too, after every line before it |
| `LineFile.ReadWrite` | phonebook/src/PhoneBook.java:11-34 | with `"\n"` or `"\r\n"` as separator, `readLine` gives back exactly the lines `println` wrote, when none holds a break |
| `LineFile.BrokenLineNotReadBack` | phonebook/src/PhoneBook.java:11-34 | a printed line that holds a break of its own does not come back as written |
| `Codec.EncodeLine` | phonebook/src/PhoneBook.java:14-15 | defines the line for one entry: the name, `,"`, the bracket-stripped list text, `"` |
| `Codec.Encode` | phonebook/src/PhoneBook.java:12-17 | defines the lines printed: one per key, in the order of the keys |
| `Codec.MatchWhole` | phonebook/src/PhoneBook.java:28 | defines the anchored pattern on a whole line: the name group ends at the first comma, the number group at the final quote |
| `Codec.MatchLine` | phonebook/src/PhoneBook.java:36 | defines `find()`: the pattern on the whole line, or on the line without one final line terminator |
| `Codec.Split` | phonebook/src/PhoneBook.java:38 | defines `split(",\\s*")`: the pieces around each comma and its following spaces, the leading empty piece kept, trailing empty pieces dropped |
| `Codec.DecodeInto` | phonebook/src/PhoneBook.java:30-41 | defines the load loop as a fold that puts each matching line into the map, in file order |
| `Persistence.EncodedLinesUnbroken` | phonebook/src/PhoneBook.java:12-17 | the lines saved for a store with acceptable numbers and unbroken names hold no line break |
| `Persistence.DecodeKeepsUnbroken` | phonebook/src/PhoneBook.java:30-41 | loading lines without breaks into a map whose names hold none leaves every name without a break |
| `Persistence.LineBreakSplitsLine` | phonebook/src/PhoneBook.java:10-34 | a name holding a line break makes the lines read back differ from the lines written |
| `PhoneBook.Holders` | phonebook/src/PhoneBook.java:103-108 | defines the names the find loop prints: the keys, in order, whose list holds the number |
| `Codec.JoinNumbers` | phonebook/src/PhoneBook.java:15 | defines the list text inside the brackets of `List.toString()`: the numbers joined with `", "` |
| `Codec.ListToString` | phonebook/src/PhoneBook.java:15 | defines `List.toString()`: `[`, the numbers joined with `", "`, `]` |
| `Codec.RemoveBrackets` | phonebook/src/PhoneBook.java:15 | defines `replaceAll("\\[\|]", "")`: every `[` and every `]` removed, all else kept in order |
| `Codec.IsNameGroup` | phonebook/src/PhoneBook.java:28 | defines the name group `[^,"]{2,50}`: 2 to 50 characters, none a comma or a double quote |
| `Codec.IsNumberGroup` | phonebook/src/PhoneBook.java:28 | defines the number group `[0-9+, ]+`: at least one character, each a digit, `+`, comma or space |
| `Codec.Absorb` | phonebook/src/PhoneBook.java:36-39 | defines one turn of the load loop: a matching line puts its name with the split numbers, any other line changes nothing |
| `Codec.Decode` | phonebook/src/PhoneBook.java:279-280 | defines `loadContacts` on the new, empty TreeMap of `main` |
| `PhoneBook.AcceptsChoice` | phonebook/src/PhoneBook.java:178-228 | defines what the edit prompt loops let through: a valid number to add, a listed number to delete, or cancel |
| `PhoneBook.Store.Valid` | phonebook/src/PhoneBook.java:279 | defines the store invariant: the keys listed in ascending order, exactly the map's keys, and no name holding a line break |

## Left out

- Console input and output are not modelled. This covers the prompts and
  messages, the help text, the `list` command's printing, and the command
  dispatch loop in `main`. The re-prompt loops become `requires` clauses.
  `toLowerCase` on sub-answers is left out: the answers are the datatypes
  `EditChoice` and `Confirmation`.
- File access itself is not modelled. The file is its text, which
  `ReadLines` cuts into lines, and a save is the lines printed into it.
  - An `IOException` while saving is not modelled. The Java prints it and
    keeps the map.
  - An `IOException` in the middle of reading, which leaves a partly loaded
    map, is not modelled.
  - A file that cannot be opened is `Store.Open(None)`.
  - The line separator is a parameter, `"\n"` or `"\r\n"`.
- `java.util.regex` itself is not modelled. The two patterns and the split
  are written out as deterministic functions.
  - The two-character terminator `"\r\n"` before `$` is not modelled.
    `readLine` never returns a line holding `'\r'` or `'\n'`.
- Store.Add, Store.Edit: these append to any contact's list. In the Java, a
  list loaded from the file is the fixed-size `Arrays.asList` view (line 39).
  Appending to it (lines 145, 202) throws `UnsupportedOperationException`.
  The model does not model that exception.
- The lists in the map are values here. The Java mutates the stored list
  objects in place (lines 145, 202), which gives the same contents.
- `Text.Less` compares Dafny characters (Unicode scalar values).
  `String.compareTo` compares UTF-16 code units, and the two orders differ
  for characters above U+FFFF. The regex quantifiers count code points, as
  the model does.
- The resume builder in the same repository is not part of this model.
