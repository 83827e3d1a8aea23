/**
 * The CSV row normaliser of `parse_csv_contacts`: one line of the contacts
 * file is split on `;`, six fields are picked by column index, header and
 * separator-only lines are skipped, the first failing check rejects the row,
 * and an accepted row becomes a contact with a zero-padded employee number
 * and `+352 ...` telephone numbers.
 */
module Contacts {
  import opened Wrappers
  import opened Strings

  /** An attribute value: a string, or `False` for an attribute a directory entry lacks. */
  datatype Value = Str(s: string) | Absent

  /** A contact record: attribute name to value. */
  type Contact = map<string, Value>

  const Separator: char := ';'
  const Prefix: string := "+352 "

  /** The options of the configuration file that the reconciliation reads. */
  datatype Config = Config(
    attrs: seq<string>,     // names of the contact attributes, identifier first
    uniqueId: string,       // the attribute searched on
    columns: seq<int>,      // CSV column of each of the first six attributes
    headerTag: string,      // value of the id column on header lines
    defaultMobile: string,  // mobile number used when the row has none
    defaultFax: string)     // fax number used when the row has none

  /** The six fields read from a row, before any check. */
  datatype Fields = Fields(
    employeeNumber: string, building: string, office: string,
    phone: string, mobile: string, fax: string)

  /** Why a row is rejected. */
  datatype Reason = NoEmployeeNumber | NoBuilding | NoOffice | BadPhone | BadFax | BadMobile

  /** The exceptions that end a run. */
  datatype Failure =
    | FieldMissing(lineNbr: nat)   // IndexError: the row has too few fields
    | NotAnInteger(lineNbr: nat)   // ValueError: int() of the employee number
    | IdMismatch(id: Value)        // compare_contact: the unique ids differ

  /** What the loop body of `parse_csv_contacts` does with one line. */
  datatype LineResult =
    | Skipped
    | Rejected(reason: Reason)
    | Accepted(id: string, contact: Contact)
    | Raised(failure: Failure)

  /** `records[col]`, with Python's negative indices counting from the end. */
  function Column(records: seq<string>, col: int): (r: Option<string>)
    ensures r.Some? <==> -|records| <= col < |records|
    ensures 0 <= col < |records| ==> r == Some(records[col])
    ensures -|records| <= col < 0 ==> r == Some(records[|records| + col])
  {
    if 0 <= col < |records| then Some(records[col])
    else if -|records| <= col < 0 then Some(records[|records| + col])
    else None
  }

  /** Lines 31-36: the six fields, or `None` when an index is out of range. */
  function ReadFields(records: seq<string>, columns: seq<int>): (r: Option<Fields>)
    requires |columns| >= 6
    ensures r.Some? <==> forall j :: 0 <= j < 6 ==> Column(records, columns[j]).Some?
  {
    var f0, f1, f2 := Column(records, columns[0]), Column(records, columns[1]), Column(records, columns[2]);
    var f3, f4, f5 := Column(records, columns[3]), Column(records, columns[4]), Column(records, columns[5]);
    if f0.Some? && f1.Some? && f2.Some? && f3.Some? && f4.Some? && f5.Some? then
      Some(Fields(f0.value, f1.value, f2.value, f3.value, f4.value, f5.value))
    else None
  }

  /** Lines 39-44: a header line, or a line that is nothing but separators and a newline. */
  predicate Skips(records: seq<string>, f: Fields, headerTag: string) {
    f.employeeNumber == headerTag || Join(records, "") == "\n"
  }

  /** The position of each check in lines 47-64. */
  function Rank(r: Reason): nat {
    match r
    case NoEmployeeNumber => 0
    case NoBuilding => 1
    case NoOffice => 2
    case BadPhone => 3
    case BadFax => 4
    case BadMobile => 5
  }

  /** The condition under which each check fails, taken on its own. */
  predicate Fails(r: Reason, f: Fields) {
    match r
    case NoEmployeeNumber => f.employeeNumber == ""
    case NoBuilding => f.building == ""
    case NoOffice => f.office == ""
    case BadPhone => f.phone == "" || !MatchesDigits(f.phone, 8)
    case BadFax => f.fax != "" && !MatchesDigits(f.fax, 8)
    case BadMobile => f.mobile != "" && !MatchesDigits(f.mobile, 9)
  }

  /** Lines 47-64: the first check that fails, in the source's order. */
  function FirstRejection(f: Fields): Option<Reason> {
    if f.employeeNumber == "" then Some(NoEmployeeNumber)
    else if f.building == "" then Some(NoBuilding)
    else if f.office == "" then Some(NoOffice)
    else if f.phone == "" || !MatchesDigits(f.phone, 8) then Some(BadPhone)
    else if f.fax != "" && !MatchesDigits(f.fax, 8) then Some(BadFax)
    else if f.mobile != "" && !MatchesDigits(f.mobile, 9) then Some(BadMobile)
    else None
  }

  /**
   * The rejection is the check that fails first in the source's order, and
   * there is none exactly when every check passes.
   */
  lemma RejectionIsFirst(f: Fields)
    ensures FirstRejection(f).Some? ==>
              && Fails(FirstRejection(f).value, f)
              && forall q :: Rank(q) < Rank(FirstRejection(f).value) ==> !Fails(q, f)
    ensures FirstRejection(f).None? <==> forall q :: !Fails(q, f)
  {
    forall q: Reason
      ensures FirstRejection(f).None? || Rank(q) < Rank(FirstRejection(f).value) ==> !Fails(q, f)
    {
      match q
      case NoEmployeeNumber =>
      case NoBuilding =>
      case NoOffice =>
      case BadPhone =>
      case BadFax =>
      case BadMobile =>
    }
  }

  /** `'+352 {0} {1}'.format(p[:4], p[4:])`, used for the phone and the fax. */
  function FormatEight(p: string): string {
    Prefix + Take(p, 4) + " " + Drop(p, 4)
  }

  /** Lines 69-72. */
  function FormatMobile(m: string, default: string): string {
    if m != "" then Prefix + Take(m, 3) + " " + Take(Drop(m, 3), 3) + " " + Drop(m, 6) else default
  }

  /** Lines 73-76. */
  function FormatFax(f: string, default: string): string {
    if f != "" then FormatEight(f) else default
  }

  /** `+352 DDDD DDDD`, followed by the newline a `$` match let through, if any. */
  predicate EightForm(r: string) {
    && (|r| == 14 || (|r| == 15 && r[14] == '\n'))
    && r[..5] == Prefix && AllDigits(r[5..9]) && r[9] == ' ' && AllDigits(r[10..14])
  }

  /** `+352 DDD DDD DDD`, followed by the newline a `$` match let through, if any. */
  predicate NineForm(r: string) {
    && (|r| == 16 || (|r| == 17 && r[16] == '\n'))
    && r[..5] == Prefix && AllDigits(r[5..8]) && r[8] == ' '
    && AllDigits(r[9..12]) && r[12] == ' ' && AllDigits(r[13..16])
  }

  /** Lines 79-86: the dictionary literal; a later duplicate key overwrites an earlier one. */
  function MakeContact(attrs: seq<string>, id: string, building: string, office: string,
                       phone: string, mobile: string, fax: string): Contact
    requires |attrs| >= 6
  {
    map[][attrs[0] := Str(id)][attrs[1] := Str(building)][attrs[2] := Str(office)]
         [attrs[3] := Str(phone)][attrs[4] := Str(mobile)][attrs[5] := Str(fax)]
  }

  /** Lines 66-86: the transformations and the contact built from them. */
  function Normalize(cfg: Config, f: Fields, id: string): Contact
    requires |cfg.attrs| >= 6
  {
    MakeContact(cfg.attrs, id, f.building, f.office, FormatEight(f.phone),
                FormatMobile(f.mobile, cfg.defaultMobile), FormatFax(f.fax, cfg.defaultFax))
  }

  /** The configuration shape the normaliser indexes: six attribute names and six columns. */
  predicate Indexable(cfg: Config) {
    |cfg.attrs| >= 6 && |cfg.columns| >= 6
  }

  /** Lines 27-86: one line, numbered from 1. */
  function ParseLine(cfg: Config, line: string, lineNbr: nat): LineResult
    requires Indexable(cfg)
  {
    var records := Split(line, Separator);
    match ReadFields(records, cfg.columns)
    case None => Raised(FieldMissing(lineNbr))
    case Some(f) =>
      if Skips(records, f, cfg.headerTag) then Skipped
      else
        match FirstRejection(f)
        case Some(reason) => Rejected(reason)
        case None =>
          match ParseInt(f.employeeNumber)
          case None => Raised(NotAnInteger(lineNbr))
          case Some(n) =>
            var id := FormatPadded(n);
            Accepted(id, Normalize(cfg, f, id))
  }

  /**
   * Lines 26-91 from line index `i` on: the contacts so far and the line
   * number cache, up to the end or to the first exception.
   */
  function ParseFrom(cfg: Config, lines: seq<string>, i: nat, contacts: seq<Contact>,
                     cache: map<string, nat>): (Result<seq<Contact>, Failure>, map<string, nat>)
    requires Indexable(cfg)
    decreases |lines| - i
  {
    if i >= |lines| then (Success(contacts), cache)
    else
      match ParseLine(cfg, lines[i], i + 1)
      case Raised(e) => (Failure(e), cache)
      case Accepted(id, c) => ParseFrom(cfg, lines, i + 1, contacts + [c], cache[id := i + 1])
      case _ => ParseFrom(cfg, lines, i + 1, contacts, cache)
  }

  /** The contacts parsed do not depend on the line number cache the parse starts from. */
  lemma {:induction false} ParseIgnoresCache(cfg: Config, lines: seq<string>, i: nat, contacts: seq<Contact>,
                                             cache1: map<string, nat>, cache2: map<string, nat>)
    requires Indexable(cfg)
    ensures ParseFrom(cfg, lines, i, contacts, cache1).0 == ParseFrom(cfg, lines, i, contacts, cache2).0
    decreases |lines| - i
  {
    if i < |lines| {
      match ParseLine(cfg, lines[i], i + 1)
      case Raised(e) =>
      case Accepted(id, c) =>
        ParseIgnoresCache(cfg, lines, i + 1, contacts + [c], cache1[id := i + 1], cache2[id := i + 1]);
      case _ =>
        ParseIgnoresCache(cfg, lines, i + 1, contacts, cache1, cache2);
    }
  }

  // ---------------------------------------------------------------------
  // Properties of one line

  /**
   * A line is skipped exactly when its six fields can be read and either its
   * id field is the header tag or, once the separators are removed, nothing
   * but one newline is left.
   */
  lemma SkippedLine(cfg: Config, line: string, lineNbr: nat)
    requires Indexable(cfg)
    ensures ParseLine(cfg, line, lineNbr) == Skipped <==>
      var f := ReadFields(Split(line, Separator), cfg.columns);
      f.Some? && (f.value.employeeNumber == cfg.headerTag || Without(line, Separator) == "\n")
  {
    JoinSplitRemoves(line, Separator);
  }

  /**
   * A line is rejected for `reason` exactly when its fields can be read, it is
   * not skipped, the check for `reason` fails and every earlier check passes.
   */
  lemma RejectedLine(cfg: Config, line: string, lineNbr: nat, reason: Reason)
    requires Indexable(cfg)
    ensures ParseLine(cfg, line, lineNbr) == Rejected(reason) <==>
      var records := Split(line, Separator);
      var f := ReadFields(records, cfg.columns);
      && f.Some?
      && !Skips(records, f.value, cfg.headerTag)
      && Fails(reason, f.value)
      && forall q :: Rank(q) < Rank(reason) ==> !Fails(q, f.value)
  {
    var records := Split(line, Separator);
    var f := ReadFields(records, cfg.columns);
    if f.Some? {
      RejectionIsFirst(f.value);
    }
    if f.Some? && FirstRejection(f.value).Some? {
      var r := FirstRejection(f.value).value;
      assert Fails(reason, f.value) && (forall q :: Rank(q) < Rank(reason) ==> !Fails(q, f.value))
             ==> Rank(r) == Rank(reason);
    }
  }

  /** The phone and the fax become `+352 DDDD DDDD`, and their digits come back out in order. */
  lemma FormatEightShape(p: string)
    requires MatchesDigits(p, 8)
    ensures EightForm(FormatEight(p))
    ensures FormatEight(p)[5..9] + FormatEight(p)[10..] == p
  {
    var r := FormatEight(p);
    assert r[5..9] == p[..4];
    assert r[10..] == p[4..];
    assert AllDigits(r[10..14]) by {
      assert r[10..14] == p[4..8];
    }
  }

  /** A mobile becomes `+352 DDD DDD DDD`, and its digits come back out in order. */
  lemma FormatMobileShape(m: string, default: string)
    requires MatchesDigits(m, 9)
    ensures NineForm(FormatMobile(m, default))
    ensures FormatMobile(m, default)[5..8] + FormatMobile(m, default)[9..12]
            + FormatMobile(m, default)[13..] == m
  {
    var a, b, d := m[..3], m[3..6], m[6..];
    assert Take(m, 3) == a && Take(Drop(m, 3), 3) == b && Drop(m, 6) == d;
    var r := Prefix + a + " " + b + " " + d;
    assert FormatMobile(m, default) == r;
    NineLayout(a, b, d);
    assert a + b + d == m;
    assert AllDigits(b) && AllDigits(d[..3]) by {
      assert forall i :: 0 <= i < 3 ==> b[i] == m[..9][3 + i] && d[i] == m[..9][6 + i];
    }
    assert r[13..16] == d[..3];
  }

  /** Where the three groups of a formatted mobile sit. */
  lemma NineLayout(a: string, b: string, d: string)
    requires |a| == 3 && |b| == 3
    ensures var r := Prefix + a + " " + b + " " + d;
      && |r| == 13 + |d| && r[..5] == Prefix && r[8] == ' ' && r[12] == ' '
      && r[5..8] == a && r[9..12] == b && r[13..] == d
  {
    var r := Prefix + a + " " + b + " " + d;
    assert forall i :: 0 <= i < 3 ==> r[5 + i] == a[i] && r[9 + i] == b[i];
    assert forall i :: 0 <= i < |d| ==> r[13 + i] == d[i];
  }

  /**
   * The keys of a built contact are exactly the first six attribute names,
   * every value is a string, and with distinct names each attribute holds
   * its own field.
   */
  lemma ContactFields(attrs: seq<string>, id: string, building: string, office: string,
                      phone: string, mobile: string, fax: string)
    requires |attrs| >= 6
    ensures var c := MakeContact(attrs, id, building, office, phone, mobile, fax);
      && c.Keys == (set k | k in attrs[..6])
      && (forall k :: k in c ==> c[k].Str?)
      && ((forall j, j' :: 0 <= j < j' < 6 ==> attrs[j] != attrs[j']) ==>
            && c[attrs[0]] == Str(id) && c[attrs[1]] == Str(building)
            && c[attrs[2]] == Str(office) && c[attrs[3]] == Str(phone)
            && c[attrs[4]] == Str(mobile) && c[attrs[5]] == Str(fax))
  {
    ContactKeys(attrs, id, building, office, phone, mobile, fax);
    if forall j, j' :: 0 <= j < j' < 6 ==> attrs[j] != attrs[j'] {
      ContactValues(attrs, id, building, office, phone, mobile, fax);
    }
  }

  /** The literal has one key per name among the first six, each holding a string. */
  lemma ContactKeys(attrs: seq<string>, id: string, building: string, office: string,
                    phone: string, mobile: string, fax: string)
    requires |attrs| >= 6
    ensures var c := MakeContact(attrs, id, building, office, phone, mobile, fax);
      && c.Keys == (set k | k in attrs[..6])
      && (forall k :: k in c ==> c[k].Str?)
  {
    var c := MakeContact(attrs, id, building, office, phone, mobile, fax);
    var six := attrs[..6];
    var keys := {attrs[0], attrs[1], attrs[2], attrs[3], attrs[4], attrs[5]};
    assert c.Keys == keys;
    assert six == [attrs[0], attrs[1], attrs[2], attrs[3], attrs[4], attrs[5]];
    assert (set k | k in six) == keys;
  }

  /** With distinct names, no later key of the literal overwrites an earlier one. */
  lemma ContactValues(attrs: seq<string>, id: string, building: string, office: string,
                      phone: string, mobile: string, fax: string)
    requires |attrs| >= 6 && forall j, j' :: 0 <= j < j' < 6 ==> attrs[j] != attrs[j']
    ensures var c := MakeContact(attrs, id, building, office, phone, mobile, fax);
      && c[attrs[0]] == Str(id) && c[attrs[1]] == Str(building)
      && c[attrs[2]] == Str(office) && c[attrs[3]] == Str(phone)
      && c[attrs[4]] == Str(mobile) && c[attrs[5]] == Str(fax)
  {
    assert attrs[0] != attrs[1] && attrs[0] != attrs[2] && attrs[0] != attrs[3] && attrs[0] != attrs[4];
    assert attrs[0] != attrs[5] && attrs[1] != attrs[2] && attrs[1] != attrs[3] && attrs[1] != attrs[4];
    assert attrs[1] != attrs[5] && attrs[2] != attrs[3] && attrs[2] != attrs[4] && attrs[2] != attrs[5];
    assert attrs[3] != attrs[4] && attrs[3] != attrs[5] && attrs[4] != attrs[5];
  }

  /**
   * An accepted line: its fields pass every check; the id is the zero-padded
   * form of `int()` of the id field, at least five characters long, reads
   * back as the same integer and is all digits when that integer is not
   * negative; the phone is `+352 DDDD DDDD`; an empty mobile or fax becomes
   * the configured default and a given one is reformatted; and the contact
   * is the one built from these values.
   */
  lemma AcceptedLine(cfg: Config, line: string, lineNbr: nat)
    requires Indexable(cfg)
    requires ParseLine(cfg, line, lineNbr).Accepted?
    ensures var records := Split(line, Separator);
      var f := ReadFields(records, cfg.columns).value;
      var r := ParseLine(cfg, line, lineNbr);
      && !Skips(records, f, cfg.headerTag)
      && (forall q :: !Fails(q, f))
      && ParseInt(r.id) == ParseInt(f.employeeNumber)
      && |r.id| >= 5
      && (ParseInt(r.id).value >= 0 ==> AllDigits(r.id))
      && EightForm(FormatEight(f.phone))
      && (f.mobile == "" ==> FormatMobile(f.mobile, cfg.defaultMobile) == cfg.defaultMobile)
      && (f.mobile != "" ==> NineForm(FormatMobile(f.mobile, cfg.defaultMobile)))
      && (f.fax == "" ==> FormatFax(f.fax, cfg.defaultFax) == cfg.defaultFax)
      && (f.fax != "" ==> EightForm(FormatFax(f.fax, cfg.defaultFax)))
      && r.contact == MakeContact(cfg.attrs, r.id, f.building, f.office, FormatEight(f.phone),
                                  FormatMobile(f.mobile, cfg.defaultMobile),
                                  FormatFax(f.fax, cfg.defaultFax))
  {
    var records := Split(line, Separator);
    var f := ReadFields(records, cfg.columns).value;
    var n := ParseInt(f.employeeNumber).value;
    RejectionIsFirst(f);
    PaddedShape(n);
    PaddedRoundTrip(n);
    FormatEightShape(f.phone);
    if f.mobile != "" {
      FormatMobileShape(f.mobile, cfg.defaultMobile);
    }
    if f.fax != "" {
      FormatEightShape(f.fax);
    }
  }

  /** No number field of an accepted contact is empty unless its configured default is. */
  lemma NumbersNeverEmpty(cfg: Config, line: string, lineNbr: nat)
    requires Indexable(cfg)
    requires ParseLine(cfg, line, lineNbr).Accepted?
    ensures var f := ReadFields(Split(line, Separator), cfg.columns).value;
      && FormatEight(f.phone) != ""
      && (FormatMobile(f.mobile, cfg.defaultMobile) == "" ==> cfg.defaultMobile == "")
      && (FormatFax(f.fax, cfg.defaultFax) == "" ==> cfg.defaultFax == "")
  {
  }

  /**
   * The six fields are read before the empty-line test, so a bare newline
   * raises `IndexError` as soon as a column other than the first is configured.
   */
  lemma BareNewlineRaises(cfg: Config, lineNbr: nat)
    requires Indexable(cfg)
    requires exists j :: 0 <= j < 6 && cfg.columns[j] != 0 && cfg.columns[j] != -1
    ensures ParseLine(cfg, "\n", lineNbr) == Raised(FieldMissing(lineNbr))
  {
    assert "\n"[1..] == "";
  }

  /**
   * The fields of the example row `42;B1;O3;87654321;;;` with `N/A` as both
   * defaults: no check fails, and the contact has id `00042`, phone
   * `+352 8765 4321` and `N/A` as mobile and fax.
   */
  lemma ExampleRow(attrs: seq<string>)
    requires |attrs| >= 6
    ensures var cfg := Config(attrs, attrs[0], [0, 1, 2, 3, 4, 5], "ID", "N/A", "N/A");
      var f := Fields("42", "B1", "O3", "87654321", "", "");
      && FirstRejection(f) == None
      && ParseInt(f.employeeNumber) == Some(42)
      && FormatPadded(42) == "00042"
      && Normalize(cfg, f, "00042")
         == MakeContact(attrs, "00042", "B1", "O3", "+352 8765 4321", "N/A", "N/A")
  {
    assert MatchesDigits("87654321", 8);
    assert FormatEight("87654321") == "+352 8765 4321" by {
      assert Take("87654321", 4) == "8765" && Drop("87654321", 4) == "4321";
    }
    assert Strip("42") == "42";
    assert DigitsValue("42") == 42 by {
      assert "42"[..1] == "4";
    }
    assert Decimal(42) == "42";
    assert Zeros(3) == "000" by {
      assert Zeros(1) == "0";
      assert Zeros(2) == "00";
    }
  }

  /** The example line splits into its seven pieces, the last one the newline. */
  lemma ExampleSplit()
    ensures Split("42;B1;O3;87654321;;;\n", Separator) == ["42", "B1", "O3", "87654321", "", "", "\n"]
  {
    ExampleJoin();
    assert [Separator] == ";";
    JoinSplitRoundTrip(["42", "B1", "O3", "87654321", "", "", "\n"], Separator);
  }

  /** Joining the example's pieces with `;` gives the example line. */
  lemma ExampleJoin()
    ensures Join(["42", "B1", "O3", "87654321", "", "", "\n"], ";") == "42;B1;O3;87654321;;;\n"
  {
    JoinSeven("42", "B1", "O3", "87654321", "", "", "\n", ";");
    assert "42" + (";" + ("B1" + (";" + ("O3" + (";" + ("87654321" + (";" + ("" + (";" + ("" + (";" + "\n")))))))))))
           == "42;B1;O3;87654321;;;\n";
  }

  /** Seven pieces joined: each piece, then the separator, up to the last. */
  lemma JoinSeven(a: string, b: string, c: string, d: string, e: string, f: string, g: string, sep: string)
    ensures Join([a, b, c, d, e, f, g], sep)
            == a + (sep + (b + (sep + (c + (sep + (d + (sep + (e + (sep + (f + (sep + g)))))))))))
  {
    assert [f, g] == [f] + [g];
    JoinCons(f, [g], sep);
    assert [e, f, g] == [e] + [f, g];
    JoinCons(e, [f, g], sep);
    assert [d, e, f, g] == [d] + [e, f, g];
    JoinCons(d, [e, f, g], sep);
    assert [c, d, e, f, g] == [c] + [d, e, f, g];
    JoinCons(c, [d, e, f, g], sep);
    assert [b, c, d, e, f, g] == [b] + [c, d, e, f, g];
    JoinCons(b, [c, d, e, f, g], sep);
    assert [a, b, c, d, e, f, g] == [a] + [b, c, d, e, f, g];
    JoinCons(a, [b, c, d, e, f, g], sep);
  }

  /** The pieces of the example line give its six fields, and it is neither a header nor empty. */
  lemma ExampleFields(columns: seq<int>)
    requires columns == [0, 1, 2, 3, 4, 5]
    ensures var records := ["42", "B1", "O3", "87654321", "", "", "\n"];
      && ReadFields(records, columns) == Some(Fields("42", "B1", "O3", "87654321", "", ""))
      && !Skips(records, Fields("42", "B1", "O3", "87654321", "", ""), "ID")
  {
    var records := ["42", "B1", "O3", "87654321", "", "", "\n"];
    assert Join(records, "") == "42" + Join(records[1..], "");
  }

  /**
   * The example line `42;B1;O3;87654321;;;` as `readlines()` gives it, read
   * with the columns in order, `ID` as the header tag and `N/A` as both
   * defaults: it is accepted with id `00042`, phone `+352 8765 4321` and the
   * defaults as mobile and fax.
   */
  lemma ExampleLine(attrs: seq<string>)
    requires |attrs| >= 6
    ensures var cfg := Config(attrs, attrs[0], [0, 1, 2, 3, 4, 5], "ID", "N/A", "N/A");
      ParseLine(cfg, "42;B1;O3;87654321;;;\n", 1)
      == Accepted("00042", MakeContact(attrs, "00042", "B1", "O3", "+352 8765 4321", "N/A", "N/A"))
  {
    var cfg := Config(attrs, attrs[0], [0, 1, 2, 3, 4, 5], "ID", "N/A", "N/A");
    ExampleSplit();
    ExampleFields(cfg.columns);
    ExampleRow(attrs);
  }

  // ---------------------------------------------------------------------
  // Properties of the whole file

  /** Line `k` (0-based) is accepted with employee number `id`. */
  predicate AcceptsId(cfg: Config, lines: seq<string>, k: nat, id: string)
    requires Indexable(cfg)
  {
    k < |lines| && ParseLine(cfg, lines[k], k + 1).Accepted? && ParseLine(cfg, lines[k], k + 1).id == id
  }

  /**
   * After a parse that raised nothing, a key that no remaining line accepts
   * keeps its old entry or stays absent: skipped and rejected lines leave no
   * trace in the line number cache.
   */
  lemma {:induction false} LineCacheKeeps(cfg: Config, lines: seq<string>, i: nat,
                                          contacts: seq<Contact>, cache: map<string, nat>, id: string)
    requires Indexable(cfg)
    requires ParseFrom(cfg, lines, i, contacts, cache).0.Success?
    requires forall j :: i <= j < |lines| ==> !AcceptsId(cfg, lines, j, id)
    ensures var out := ParseFrom(cfg, lines, i, contacts, cache).1;
      (id in out <==> id in cache) && (id in cache ==> out[id] == cache[id])
    decreases |lines| - i
  {
    if i < |lines| {
      match ParseLine(cfg, lines[i], i + 1)
      case Raised(e) =>
      case Accepted(id', c) =>
        assert !AcceptsId(cfg, lines, i, id);
        LineCacheKeeps(cfg, lines, i + 1, contacts + [c], cache[id' := i + 1], id);
      case _ =>
        LineCacheKeeps(cfg, lines, i + 1, contacts, cache, id);
    }
  }

  /**
   * After a parse that raised nothing, an id is mapped to the 1-based number
   * of the LAST line that accepts it.
   */
  lemma {:induction false} LineCacheLastWins(cfg: Config, lines: seq<string>, i: nat,
                                             contacts: seq<Contact>, cache: map<string, nat>,
                                             id: string, j: nat)
    requires Indexable(cfg)
    requires ParseFrom(cfg, lines, i, contacts, cache).0.Success?
    requires i <= j && AcceptsId(cfg, lines, j, id)
    requires forall k :: j < k < |lines| ==> !AcceptsId(cfg, lines, k, id)
    ensures var out := ParseFrom(cfg, lines, i, contacts, cache).1;
      id in out && out[id] == j + 1
    decreases |lines| - i
  {
    match ParseLine(cfg, lines[i], i + 1)
    case Raised(e) =>
    case Accepted(id', c) =>
      if i == j {
        LineCacheKeeps(cfg, lines, i + 1, contacts + [c], cache[id' := i + 1], id);
      } else {
        LineCacheLastWins(cfg, lines, i + 1, contacts + [c], cache[id' := i + 1], id, j);
      }
    case _ =>
      LineCacheLastWins(cfg, lines, i + 1, contacts, cache, id, j);
  }

  /** The shape of every contact the parser emits: the six attribute names as keys, strings as values. */
  predicate CsvShape(cfg: Config, c: Contact)
    requires |cfg.attrs| >= 6
  {
    c.Keys == (set k | k in cfg.attrs[..6]) && forall k :: k in c ==> c[k].Str?
  }

  /** A parsed contact whose id, a string, has its place in the line number cache. */
  predicate IdRecorded(cfg: Config, c: Contact, cache: map<string, nat>)
    requires |cfg.attrs| >= 6
  {
    cfg.attrs[0] in c && c[cfg.attrs[0]].Str? && c[cfg.attrs[0]].s in cache
  }

  predicate DistinctAttrs(cfg: Config) {
    |cfg.attrs| == 6 && forall j, j' :: 0 <= j < j' < 6 ==> cfg.attrs[j] != cfg.attrs[j']
  }

  /**
   * Every parsed contact has the six attribute names as its keys and strings
   * as its values, and (with distinct names) its id has a line number.
   */
  lemma {:induction false} ParsedContactsShaped(cfg: Config, lines: seq<string>, i: nat,
                                                contacts: seq<Contact>, cache: map<string, nat>)
    requires Indexable(cfg) && DistinctAttrs(cfg)
    requires forall c :: c in contacts ==> CsvShape(cfg, c)
    requires forall c :: c in contacts ==> IdRecorded(cfg, c, cache)
    requires ParseFrom(cfg, lines, i, contacts, cache).0.Success?
    ensures var out := ParseFrom(cfg, lines, i, contacts, cache);
      && (forall c :: c in out.0.value ==> CsvShape(cfg, c))
      && (forall c :: c in out.0.value ==> IdRecorded(cfg, c, out.1))
    decreases |lines| - i
  {
    if i < |lines| {
      match ParseLine(cfg, lines[i], i + 1)
      case Raised(e) =>
      case Accepted(id, c) =>
        var f := ReadFields(Split(lines[i], Separator), cfg.columns).value;
        ContactFields(cfg.attrs, id, f.building, f.office, FormatEight(f.phone),
                      FormatMobile(f.mobile, cfg.defaultMobile), FormatFax(f.fax, cfg.defaultFax));
        var cache' := cache[id := i + 1];
        forall d | d in contacts + [c] ensures CsvShape(cfg, d) && IdRecorded(cfg, d, cache') {
          if d in contacts {
            assert CsvShape(cfg, d) && IdRecorded(cfg, d, cache);
          }
        }
        ParsedContactsShaped(cfg, lines, i + 1, contacts + [c], cache');
      case _ =>
        ParsedContactsShaped(cfg, lines, i + 1, contacts, cache);
    }
  }

}
