# csv2ldap reconciliation, modelled in Dafny

`csv2ldap.py` keeps the contact attributes of an LDAP directory in step with
a CSV export. Each line of the CSV file is split on `;` and six fields are
read by configured column: employee number, building, office, phone, mobile
and fax. Header lines and separator-only lines are skipped. A row failing a
check is rejected with a warning. An accepted row becomes a contact:

- the employee number is zero-padded to at least five characters;
- the phone, mobile and fax become `+352 ...` numbers;
- an empty mobile or fax takes the configured default.

The main loop then treats each contact in turn:

- it looks the contact up in the directory by its unique id and caches the
  dn of the first entry found;
- it compares the contact with the directory record;
- it collects the id and every differing attribute as a change.

It logs each change with the CSV line it came from. When `--update` is
given, it sends one `modify_s` per change, replacing the differing
attributes.

The model has five modules:

- `Wrappers` has `Option` and `Result`.
- `Strings` models `str.split` and `str.join` for a one-character separator,
  `re.match('\d{n}$', ...)`, `int()` on a string, and the `'{0:05d}'` format.
  The fields are byte strings, so `\d` matches an ASCII digit, and `$`
  matches at the end or before one final `\n`.
- `Contacts` is the row normaliser, `parse_csv_contacts`, as pure functions
  (`ParseLine`, `ParseFrom`).
- `Directory` is an in-memory directory: a sequence of entries whose
  attributes hold lists of values. `Search` is a subtree search by
  `uid=value`, and `ApplyRequests` is a batch of `modify_s` calls.
- `Reconcile` holds the lookup (`Lookup`), the comparison (`Diff`) and the
  main loop as specification functions (`Collect`, `RunSpec`).

The class `Reconcile.Reconciler` carries the two mutable caches of the script
(`dn_cache` and `line_nbr_cache`). Its methods are the imperative loops of
the source, each proved equal to the specification function of the same
lines. The headline property is `RunTwice`:

- a run succeeds and its update requests are applied;
- then a second run over the same CSV lines, on the updated directory,
  reports no change and raises nothing.

`RunTwice` assumes three things:

- no two entries share a dn;
- the id attribute is single-valued;
- no two different CSV contacts share an id.

It also rests on the model returning search results, and each attribute's
values, in one fixed order in both runs (see "Left out").

Where the program's documentation and its code disagree, the model follows
the code:

- **Empty lines.** An entirely empty line (just `"\n"`) is not skipped once
  a column other than 0 or -1 is configured. The six fields are read before
  the empty-line test, so the line then raises `IndexError`
  (`BareNewlineRaises`). With every column 0 or -1, the six fields are all
  `"\n"` and the line is skipped.
- **Trailing newlines in numbers.** "Exactly 8 (or 9) digits" accepts a
  trailing newline, because `$` matches before a final `\n`. That newline
  survives the reformatting (`EightForm`, `NineForm`).
- **Padding of the id.** The id is padded to at least five characters, not
  exactly five. Longer numbers keep their length. A negative number keeps its
  `-`, which counts toward the width (`PaddedShape`).
- **Id mismatch.** `compare_contact` raises only when the two records differ
  and the attribute list is not empty. It compares whole records first
  (`DiffReports`).
- **Duplicate ids.** For a duplicate id in the CSV file, the last line wins
  in the line number cache (`LineCacheLastWins`).

## Model

| member | source | states |
|---|---|---|
| Strings.Split | csv2ldap.py:27 | `line.split(sep)` for a one-character separator: at least one piece; `SplitJoin`, `SplitPiecesFree` and `JoinSplitRoundTrip` pin it down |
| Strings.Join | csv2ldap.py:43 | `sep.join(parts)`, used with the empty separator by the empty-line test; `SplitJoin`, `JoinSplitRoundTrip` and `JoinSplitRemoves` relate it to `Split` |
| Strings.SplitJoin | csv2ldap.py:27 | joining the pieces of `line.split(';')` with `;` gives back the line |
| Strings.SplitPiecesFree | csv2ldap.py:27 | no piece of a split contains the separator |
| Strings.JoinSplitRoundTrip | csv2ldap.py:27 | splitting a `;`-join of pieces that hold no `;` gives the pieces back, the converse of `SplitJoin` |
| Strings.JoinSplitRemoves | csv2ldap.py:43 | `''.join(line.split(sep))` is the line with every separator removed, so the empty-line test compares that with `"\n"` |
| Strings.MatchesDigits | csv2ldap.py:56-63 | `re.match('\d{n}$', s)`: exactly `n` ASCII digits, optionally followed by one `\n`; `FormatEightShape` and `FormatMobileShape` use it |
| Strings.ParseInt | csv2ldap.py:67 | `int(s)`: surrounding whitespace, an optional sign and at least one digit, `None` for the `ValueError`; `PaddedRoundTrip` relates it to the padding |
| Strings.FormatPadded | csv2ldap.py:67 | `'{0:05d}'.format(n)`, the sign counted in the width; `PaddedShape` states its shape and value |
| Strings.PaddedShape | csv2ldap.py:67 | `'{0:05d}'` gives at least five characters; for `n >= 0` it gives all digits, exactly `max(5, len(str(n)))` of them, denoting `n`; for `n < 0` it gives `-` followed by digits denoting `-n` |
| Strings.PaddedFiveDigits | csv2ldap.py:67 | a number in `0..99999` pads to exactly five digits |
| Strings.PaddedRoundTrip | csv2ldap.py:67 | `int()` of the padded form gives the number back |
| Contacts.Column | csv2ldap.py:31-36 | `records[col]` exists exactly when `-len <= col < len`; a negative index counts from the end |
| Contacts.ReadFields | csv2ldap.py:31-36 | the six fields are read exactly when every configured column is in range; otherwise the line raises `IndexError` |
| Contacts.Skips | csv2ldap.py:39-44 | the two skip tests: the employee number field is the header tag, or the pieces joined with nothing are exactly `"\n"`; `SkippedLine` states when a line is skipped |
| Contacts.SkippedLine | csv2ldap.py:39-44 | a line is skipped exactly when its fields can be read and either its id field is the header tag, or it is only separators and one newline |
| Contacts.FirstRejection | csv2ldap.py:47-64 | the first of the six checks that fails, in the source's order; `RejectionIsFirst` characterises it |
| Contacts.RejectionIsFirst | csv2ldap.py:47-64 | the reported rejection is a check that fails while every earlier check passes; there is none exactly when every check passes |
| Contacts.RejectedLine | csv2ldap.py:47-64 | a line is rejected for a reason exactly when its fields can be read, it is not skipped, that check fails and every check before it passes |
| Contacts.FormatEight | csv2ldap.py:68 | `'+352 {0} {1}'.format(p[:4], p[4:])`, used for the phone and the fax; `FormatEightShape` states its form |
| Contacts.FormatMobile | csv2ldap.py:69-72 | the mobile's three groups after `+352`, or the default for an empty field; `FormatMobileShape` states its form |
| Contacts.FormatFax | csv2ldap.py:73-76 | the fax in the phone's form, or the default for an empty field; `NumbersNeverEmpty` and `AcceptedLine` state what it gives |
| Contacts.MakeContact | csv2ldap.py:79-86 | the dictionary literal, a later duplicate key overwriting an earlier one; `ContactFields` states its keys and values |
| Contacts.Normalize | csv2ldap.py:66-86 | the transformations of an accepted row and the dictionary built from them; `AcceptedLine`, `ContactFields` and `NumbersNeverEmpty` state the contact it gives |
| Contacts.ParseLine | csv2ldap.py:27-86 | one line: raised (`IndexError`, `ValueError`), skipped, rejected with a reason, or accepted with its id and contact; `SkippedLine`, `RejectedLine` and `AcceptedLine` characterise each outcome |
| Contacts.FormatEightShape | csv2ldap.py:68 | an 8-digit phone or fax becomes `+352 DDDD DDDD`, and its digits come back out in order |
| Contacts.FormatMobileShape | csv2ldap.py:69-72 | a 9-digit mobile becomes `+352 DDD DDD DDD`, and its digits come back out in order |
| Contacts.NumbersNeverEmpty | csv2ldap.py:68-76 | the phone of an accepted row is never empty; its mobile or fax is empty only when the configured default is |
| Contacts.AcceptedLine | csv2ldap.py:66-86 | an accepted line passes every check; its id is the padded `int()` of the id field, at least five long, read back as the same integer; its phone, mobile and fax have the `+352` forms or the defaults; its contact is the dictionary built from these values |
| Contacts.ContactFields | csv2ldap.py:79-86 | the dictionary literal has exactly the six attribute names as keys and strings as values; with distinct names, each attribute holds its own field |
| Contacts.BareNewlineRaises | csv2ldap.py:31-44 | a line that is just `"\n"` raises `IndexError` once some column other than 0 or -1 is configured |
| Contacts.ExampleRow | csv2ldap.py:66-86 | the six fields of the row `42;B1;O3;87654321;;;` pass every check; they become id `00042`, phone `+352 8765 4321`, and the defaults for mobile and fax |
| Contacts.ExampleSplit | csv2ldap.py:27 | the line `42;B1;O3;87654321;;;\n` splits on `;` into seven pieces, the last one the newline |
| Contacts.ExampleLine | csv2ldap.py:27-86 | the line `42;B1;O3;87654321;;;\n`, read with the columns in order, is accepted: it is not a header and not empty; its id is `00042`, its phone `+352 8765 4321`, and its mobile and fax the default `N/A` |
| Contacts.ParseFrom | csv2ldap.py:26-91 | the loop over the lines: contacts in line order and the line number cache, or the first exception; `LineCacheKeeps`, `LineCacheLastWins` and `ParsedContactsShaped` state its properties |
| Contacts.ParseIgnoresCache | csv2ldap.py:88-89 | the contacts parsed do not depend on what the line number cache held before |
| Contacts.LineCacheKeeps | csv2ldap.py:26-89 | skipped and rejected lines leave no trace in the line number cache; an id no remaining line accepts keeps its old entry |
| Contacts.LineCacheLastWins | csv2ldap.py:88-89 | after a parse without exception, an id maps to the 1-based number of the last line that accepts it |
| Contacts.ParsedContactsShaped | csv2ldap.py:79-89 | every parsed contact has the six attribute names as keys and strings as values; its id has a line number in the cache |
| Directory.Search | csv2ldap.py:99 | the subtree search returns exactly the directory's entries whose id attribute holds the value |
| Directory.Matches | csv2ldap.py:98-99 | the filter `uid=value`: the entry has the id attribute and the value is among its values; `Search` returns exactly the entries it accepts |
| Directory.SearchFirst | csv2ldap.py:101-102 | the first result is the first entry, in directory order, that matches |
| Directory.SearchAtMostOne | csv2ldap.py:99 | when no two entries share an id, a search finds at most one entry |
| Directory.SearchOrderIrrelevant | csv2ldap.py:99-102 | when no two entries share an id, every ordering of the search results is the one the model returns, so the first result does not depend on the server's order |
| Directory.ApplyMods | csv2ldap.py:145 | the server applying a `MOD_REPLACE` list in order, each attribute set to its one new value; `ApplyModsAsMap` states the result |
| Directory.Modify | csv2ldap.py:145 | `modify_s` applies the modifications to the entry with the given dn and leaves every other entry untouched |
| Directory.ApplyModsAsMap | csv2ldap.py:138-145 | a list replacing each attribute of a change once, in any order, sets exactly those attributes to their one new value |
| Directory.ApplyRequests | csv2ldap.py:213-214 | the `modify_s` calls of the update loop, made in order; `ApplyRequestsAt` and `EntryAfterSame` state their effect |
| Directory.ApplyRequestsAt | csv2ldap.py:213-214 | a batch of `modify_s` calls keeps the directory's length; it acts on each entry on its own through the requests naming its dn |
| Directory.EntryAfterSame | csv2ldap.py:213-214 | when every request naming an entry replaces the same map, the entry ends with that map written over it; an entry no request names is unchanged |
| Directory.EntryAfterKeeps | csv2ldap.py:145 | an attribute that no modification names keeps its values |
| Directory.EntryAfterWellFormed | csv2ldap.py:145 | replacing values never leaves an attribute without any |
| Reconcile.Project | csv2ldap.py:105-109 | the record found has exactly the requested attributes; each holds its first value in the entry, or `False` when the entry lacks it |
| Reconcile.FirstValue | csv2ldap.py:106-109 | `attrs_found[key][0]` when the entry has the attribute, `False` otherwise; `Project` and `Lookup` state the record built from it |
| Reconcile.Lookup | csv2ldap.py:100-112 | no result gives the empty record; otherwise the record has exactly the requested attributes, each with its first value in the first result, or `False` |
| Reconcile.LookupCarriesId | csv2ldap.py:100-109 | with a single-valued id attribute, the record a successful search returns holds the id searched for |
| Reconcile.ProjectValueOrder | csv2ldap.py:105-109 | when each requested attribute the entry holds has one value, every reordering of the values a server returns gives the same record |
| Reconcile.ValueOrderMatters | csv2ldap.py:107 | with two values for an attribute, the order they come back in decides the value `attrs_found[key][0]` reads |
| Reconcile.Reconciler.GetLdapContact | csv2ldap.py:94-112 | returns the lookup of the search results; binds the id to the first result's dn in the dn cache when there is one; otherwise leaves the cache unchanged |
| Reconcile.Found | csv2ldap.py:195-196 | the record the directory holds under a CSV contact's id; `FoundComparable` and `CheckInSync` state what it is compared with |
| Reconcile.CacheAfter | csv2ldap.py:101-104 | the dn cache after one contact's search: its id bound to the first entry's dn when there is one, otherwise unchanged, as `GetLdapContact` ensures; `CheckKeyed` and `CollectKeyed` show every change is keyed |
| Reconcile.Diff | csv2ldap.py:115-127 | what `compare_contact` returns or raises; `DiffSame`, `DiffReports` and `DiffThenApply` characterise it |
| Reconcile.CompareContact | csv2ldap.py:115-127 | the loop returns what `Diff` specifies: nothing for equal records, the id-mismatch exception, or the id plus every attribute whose value differs |
| Reconcile.DiffSame | csv2ldap.py:118 | a contact compared with itself gives no change |
| Reconcile.DiffReports | csv2ldap.py:118-121 | with a non-empty attribute list, there is no change exactly when the records are equal, and an exception exactly when they differ in the id |
| Reconcile.DiffThenApply | csv2ldap.py:122-126 | every value in a change is the CSV value; every attribute in it other than the id differs in the directory record; writing the change over the directory record restores the CSV value of every attribute |
| Reconcile.UpdateLdapContact | csv2ldap.py:130-145 | the request goes to the dn cached for the change's id; it replaces exactly the change's other attributes, each once with its value, in any order |
| Reconcile.CheckContact | csv2ldap.py:195-204 | one iteration of the main loop: the change to keep, none, or the exception; `CheckInSync` and `CheckKeyed` characterise it |
| Reconcile.Collect | csv2ldap.py:190-204 | the main loop over the contacts: the changes in order or the first exception, and the dn cache; `CollectOrigins`, `CollectKeyed`, `CollectStops` and `CollectSettledIff` state its properties |
| Reconcile.LineNumbers | csv2ldap.py:208 | the line number the change log looks up for each change: one per change, in order |
| Reconcile.RunSpec | csv2ldap.py:190-214 | the whole run: parse, collect, the logged line numbers and whether the update binds; `RunTwice` states what a second run gives |
| Reconcile.FoundComparable | csv2ldap.py:193-200 | a record found has the CSV contact's keys, so the comparison reads no missing key; nothing is found exactly when the search is empty |
| Reconcile.CheckKeyed | csv2ldap.py:194-204 | a contact's change carries the contact's id, and its dn is cached by the contact's own search |
| Reconcile.CollectKeyed | csv2ldap.py:190-204 | after the loop, every collected change has string values and a cached dn: that of the first entry holding its id |
| Reconcile.CollectOrigins | csv2ldap.py:190-204 | when the loop raises nothing, no contact raised; each contact's change is in the list; each change in the list comes from some contact |
| Reconcile.CollectStops | csv2ldap.py:190-204 | once the loop has raised, the contacts after that point change neither the result nor the cache |
| Reconcile.CollectRaisedAt | csv2ldap.py:190-204 | the loop's outcome is that of the prefix that raised |
| Reconcile.ChangesHaveLines | csv2ldap.py:206-208 | every collected change has its id in the line number cache, so the log lookup succeeds |
| Reconcile.CheckInSync | csv2ldap.py:197-203 | a contact gives no change and no exception exactly when the directory holds nothing under its id, or holds exactly the contact |
| Reconcile.CollectSettledIff | csv2ldap.py:190-204 | the loop collects nothing and raises nothing exactly when every contact agrees with the directory |
| Reconcile.RequestsClean | csv2ldap.py:211-214 | the update requests carry only string values and never touch the id attribute |
| Reconcile.SettlesUnchanged | csv2ldap.py:211-214 | an entry whose contact already agreed is left as it was by the update |
| Reconcile.SettlesChanged | csv2ldap.py:211-214 | the entry a changed contact was compared with ends with the change written over it |
| Reconcile.ContactSettles | csv2ldap.py:190-214 | after the update, each CSV contact agrees with the directory |
| Reconcile.SecondRunSettled | csv2ldap.py:190-214 | after the update, every contact agrees with the new directory; the loop over it collects nothing, whatever dn cache it starts from |
| Reconcile.RunTwice | csv2ldap.py:190-214 | a second run over the same lines on the updated directory reports no change and raises nothing |
| Reconcile.Reconciler.constructor | csv2ldap.py:177-178 | both caches start empty |
| Reconcile.Reconciler.ParseCsvContacts | csv2ldap.py:13-91 | the loop gives the contacts, or the first exception, and the line number cache of the specification `ParseFrom` |
| Reconcile.Reconciler.CollectChanges | csv2ldap.py:190-204 | the loop gives the changes, or the first exception, and the dn cache of the specification `Collect` |
| Reconcile.Reconciler.ChangeLines | csv2ldap.py:206-208 | the line number logged for each change, in order |
| Reconcile.Reconciler.UpdateAll | csv2ldap.py:211-214 | one request per change, in order, each as `UpdateLdapContact` states; the directory is the old one with the requests applied in turn |
| Reconcile.Reconciler.Run | csv2ldap.py:190-214 | the whole run gives the report and caches of `RunSpec`; requests are sent only when `--update` is given and there are changes; the new directory is the old one with them applied |

## Left out

- Command line and configuration file (lines 150-174): the options are the `Config` value passed in. `csv_columns` is a list of integers, and `contact_attrs` is the split list of names.
- Logging (lines 29, 48, 51, 54, 57, 60, 63, 111, 142, 180-185, 194, 197, 199, 202, 206-208): logging has no effect on the outcome. This includes the `eval` of the logging level at line 181. `ChangeLines` keeps only the line numbers the change log looks up.
- Reading the file (lines 19-20): the model takes the lines of `readlines()`, each with its newline, as input.
- The LDAP connection:
  - `ldap.initialize`, `simple_bind_s` and the network (lines 188 and 212) are left out.
  - `search_s` (line 99) and `modify_s` (line 145) act on an in-memory sequence of entries.
  - The bind credentials play no part.
- Directory.Search: results come in directory order, while a real subtree search promises no order. This matters only when several entries hold the id searched for (see `Reconcile.RunTwice` below).
- Base dn and scope: the search walks the whole in-memory directory, as if every entry were under `base_dn` in the subtree.
- LDAP matching rules: attribute values and the filter match by exact string equality. Case-insensitive matching and filter escaping are not modelled.
- `modify_s` errors, such as a rejected value or a vanished entry: the fake directory always accepts the request.
- Search failures: the program has no handling for a failing search or a lost connection, and neither does the model.
- Reconcile.ValidConfig: the main loop is modelled only for the configuration shape that the configured attribute order defines:
  - exactly six distinct attribute names;
  - the unique id is the first of them, the name the padded employee number is stored under.

  Other shapes behave differently, and the model does not cover them:
  - an id that is not among the names raises `KeyError` at line 195;
  - more than six names make `compare_contact` raise `KeyError` on the CSV contact once the records differ;
  - an id among the other five names reads another field as the id, and raises `KeyError` at line 208 as soon as a change exists, because the line number cache is keyed by the padded employee number (line 89);
  - a name other than the id repeated among the six gives contacts with fewer keys, and the run goes on without raising;
  - the id name repeated among the six behaves like an id among the other five names: the later field overwrites the padded employee number, the search runs on that field, and a change raises `KeyError` at line 208.

  The row normaliser itself (`Contacts`) is modelled for any six or more names and columns.
- Directory.WellFormed: directory entries are assumed to hold at least one value per attribute, as an LDAP server returns them. A server never returns an attribute with an empty value list.
- Reconcile.UpdateLdapContact: requires the change's id to be in the dn cache. A miss would be a `KeyError`, and `CollectKeyed` proves the main loop never misses.
- Reconcile.RunTwice: proved under three assumptions:
  - distinct dns;
  - a single-valued id attribute;
  - no two different CSV contacts sharing an id.

  Without them, a later change can overwrite an entry that an earlier one updated.

  It also assumes that the search returns its results in the same order on both runs: the model returns the directory's order, and `modify_s` keeps every entry in place. A real server promises no order. When two entries hold the same id, the second run may compare with the other entry and report a change. When no two entries share an id (`Directory.IdsUnique`), the search finds at most one entry, and `SearchOrderIrrelevant` shows that every order the server may choose for the results gives the model's result.

  It also assumes that each attribute's values come back in the same order on both runs. The model keeps the values of an entry in one fixed order, while section 4.1.7 of RFC 4511 says clients must not rely on that order being repeatable. Lines 106-109 read the first value only, so for an attribute with several values a reordering changes the record read (`ValueOrderMatters`). This matters only for a configured attribute that holds several values in the directory and that the update did not replace: the update writes one value per attribute it replaces. When every configured attribute an entry holds has one value, `ProjectValueOrder` shows that any order gives the same record.
- Dictionary order: the order of `change.keys()` (line 135) is a nondeterministic choice. The contract holds for every order.
- Strings.ParseInt: does not accept whitespace between the sign and the digits, which Python 2's `int()` accepts (`int('- 5')` is -5). The result is an unbounded integer, so a numeral beyond `sys.maxint`, which `int()` turns into a `long` of the same value, is covered.
