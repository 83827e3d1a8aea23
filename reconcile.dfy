/**
 * The reconciliation run of `csv2ldap.py`: each CSV contact is looked up in
 * the directory by its unique id, compared with what the directory holds,
 * and, when an update is asked for, every difference is written back with
 * `MOD_REPLACE` modifications.
 */
module Reconcile {
  import opened Wrappers
  import opened Strings
  import opened Contacts
  import opened Directory

  // ---------------------------------------------------------------------
  // get_ldap_contact

  /** One attribute of the first search result: its first value, or `False` when the entry lacks it. */
  function FirstValue(found: map<string, seq<string>>, k: string): Value
    requires k in found ==> |found[k]| > 0
  {
    if k in found then Str(found[k][0]) else Absent
  }

  /** The contact built from one entry's attributes: every configured attribute, present or not. */
  function Project(found: map<string, seq<string>>, attrs: seq<string>): (c: Contact)
    requires forall k :: k in found ==> |found[k]| > 0
    ensures c.Keys == set k | k in attrs
    ensures forall k :: k in c ==> c[k] == FirstValue(found, k)
  {
    map k | k in attrs :: FirstValue(found, k)
  }

  /** The contact `get_ldap_contact` returns for the search results: empty when nothing was found. */
  function Lookup(results: seq<Entry>, attrs: seq<string>): (c: Contact)
    requires results != [] ==> WellFormed(results[0])
    ensures results == [] ==> c == map[]
    ensures results != [] ==>
              && c.Keys == (set k | k in attrs)
              && forall k :: k in c ==> c[k] == FirstValue(results[0].attrs, k)
  {
    if results == [] then map[] else Project(results[0].attrs, attrs)
  }

  /**
   * A server may hand back an attribute's values in any order (section 4.1.7
   * of RFC 4511). When each configured attribute the entry holds has one
   * value, every such reordering gives the same record.
   */
  lemma ProjectValueOrder(found: map<string, seq<string>>, other: map<string, seq<string>>, attrs: seq<string>)
    requires forall k :: k in found ==> |found[k]| > 0
    requires other.Keys == found.Keys
    requires forall k :: k in found ==> multiset(other[k]) == multiset(found[k])
    requires forall k :: k in attrs && k in found ==> |found[k]| == 1
    ensures forall k :: k in other ==> |other[k]| > 0
    ensures Project(other, attrs) == Project(found, attrs)
  {
    forall k | k in other ensures |other[k]| > 0 {
      assert |other[k]| == |multiset(other[k])| == |multiset(found[k])| == |found[k]|;
    }
    forall k | k in attrs && k in found ensures other[k][0] == found[k][0] {
      assert |other[k]| == |multiset(other[k])| == |multiset(found[k])| == 1;
      assert found[k] == [found[k][0]];
      assert other[k] == [other[k][0]];
      assert found[k][0] in multiset(other[k]);
    }
  }

  /** With two values, the order the server returns them in decides the record. */
  lemma ValueOrderMatters()
    ensures Project(map["d" := ["x", "y"]], ["d"]) != Project(map["d" := ["y", "x"]], ["d"])
  {
    assert Project(map["d" := ["x", "y"]], ["d"])["d"] == Str("x");
    assert Project(map["d" := ["y", "x"]], ["d"])["d"] == Str("y");
  }

  /** Every entry of the directory is one a server could return. */
  predicate AllWellFormed(dir: seq<Entry>) {
    forall e :: e in dir ==> WellFormed(e)
  }

  // ---------------------------------------------------------------------
  // compare_contact

  /**
   * The lookups `compare_contact` makes succeed: when the records differ
   * and the loop runs, both hold the unique id, and once the ids agree both
   * hold every attribute.
   */
  predicate Comparable(c1: Contact, c2: Contact, uid: string, attrs: seq<string>) {
    c1 != c2 && |attrs| > 0 ==>
      && uid in c1 && uid in c2
      && (c1[uid] == c2[uid] ==> forall k :: k in attrs ==> k in c1 && k in c2)
  }

  /**
   * What `compare_contact(c1, c2, uid, attrs)` returns or raises: nothing for
   * equal records, the `IdMismatch` exception for records with different ids,
   * otherwise the id and the value in `c1` of every attribute that differs.
   */
  function Diff(c1: Contact, c2: Contact, uid: string, attrs: seq<string>): Result<Contact, Failure>
    requires Comparable(c1, c2, uid, attrs)
  {
    if c1 == c2 || |attrs| == 0 then Success(map[])
    else if c1[uid] != c2[uid] then Failure(IdMismatch(c1[uid]))
    else Success(map k | k in {uid} + (set k | k in attrs && c1[k] != c2[k]) :: c1[k])
  }

  /** Lines 115-127. */
  method CompareContact(c1: Contact, c2: Contact, uid: string, attrs: seq<string>)
    returns (r: Result<Contact, Failure>)
    requires Comparable(c1, c2, uid, attrs)
    ensures r == Diff(c1, c2, uid, attrs)
  {
    var changes: Contact := map[];
    if c1 != c2 {
      for i := 0 to |attrs|
        invariant i > 0 ==> c1[uid] == c2[uid]
        invariant changes.Keys == if i == 0 then {} else {uid} + set k | k in attrs[..i] && c1[k] != c2[k]
        invariant forall k :: k in changes ==> k in c1 && changes[k] == c1[k]
      {
        var key := attrs[i];
        if c1[uid] != c2[uid] {
          return Failure(IdMismatch(c1[uid]));
        }
        changes := changes[uid := c1[uid]];
        if c1[key] != c2[key] {
          changes := changes[key := c1[key]];
        }
      }
      assert attrs[..|attrs|] == attrs;
      if |attrs| > 0 {
        var m := Diff(c1, c2, uid, attrs).value;
        assert changes.Keys == m.Keys;
        assert forall k :: k in m ==> changes[k] == m[k];
        assert changes == m;
      }
    }
    return Success(changes);
  }

  /** Two records that are the same give no change. */
  lemma DiffSame(c: Contact, uid: string, attrs: seq<string>)
    ensures Diff(c, c, uid, attrs) == Success(map[])
  {
  }

  /**
   * With at least one attribute to compare, a change is reported exactly
   * when the records differ, and it is an exception exactly when their ids do.
   */
  lemma DiffReports(c1: Contact, c2: Contact, uid: string, attrs: seq<string>)
    requires Comparable(c1, c2, uid, attrs) && |attrs| > 0
    ensures Diff(c1, c2, uid, attrs) == Success(map[]) <==> c1 == c2
    ensures Diff(c1, c2, uid, attrs).Failure? <==> c1 != c2 && c1[uid] != c2[uid]
  {
    if c1 != c2 && c1[uid] == c2[uid] {
      assert uid in Diff(c1, c2, uid, attrs).value;
    }
  }

  /**
   * A change holds the id and only attributes whose values differ, all with
   * the CSV value; overriding the directory's record with it makes it agree
   * with the CSV record on every compared attribute.
   */
  lemma DiffThenApply(c1: Contact, c2: Contact, uid: string, attrs: seq<string>)
    requires Comparable(c1, c2, uid, attrs)
    requires Diff(c1, c2, uid, attrs).Success?
    requires uid in attrs
    ensures var m := Diff(c1, c2, uid, attrs).value;
      && (forall k :: k in m ==> k in c1 && m[k] == c1[k])
      && (forall k :: k in m && k != uid ==> k in attrs && k in c2 && c1[k] != c2[k])
      && (c1 != c2 ==> forall k :: k in attrs ==> k in c2 + m && (c2 + m)[k] == c1[k])
  {
  }

  // ---------------------------------------------------------------------
  // update_ldap_contact

  /**
   * Lines 130-145: the `modify_s` request for one change, sent to the dn the
   * search cached for its id. The keys of a dictionary come in no order the
   * program relies on, so the list is built in whatever order they are drawn.
   */
  method UpdateLdapContact(change: Contact, uid: string, cache: map<string, string>)
    returns (req: Request)
    requires uid in change && change[uid].Str? && change[uid].s in cache
    ensures req.dn == cache[change[uid].s]
    ensures ReplacesExactly(req.mods, change - {uid})
  {
    var mods: seq<Mod> := [];
    var keys := change.Keys;
    ghost var done: set<string> := {};
    while keys != {}
      invariant keys + done == change.Keys && keys !! done
      invariant forall j :: 0 <= j < |mods| ==>
                  && mods[j].op == Replace && mods[j].attr in done && mods[j].attr != uid
                  && mods[j].value == change[mods[j].attr]
      invariant forall j, j' :: 0 <= j < j' < |mods| ==> mods[j].attr != mods[j'].attr
      invariant forall k :: k in done && k != uid ==> exists j :: 0 <= j < |mods| && mods[j].attr == k
      decreases keys
    {
      var key :| key in keys;
      keys := keys - {key};
      done := done + {key};
      if key == uid {
        continue;
      }
      ghost var prev := mods;
      mods := mods + [Mod(Replace, key, change[key])];
      assert forall j :: 0 <= j < |prev| ==> mods[j] == prev[j];
      assert mods[|mods| - 1].attr == key;
    }
    req := Request(cache[change[uid].s], mods);
  }

  // ---------------------------------------------------------------------
  // The main loop, lines 190-214

  /**
   * The configuration the main script runs with, without a `KeyError`:
   * exactly six distinct attribute names (the CSV contacts have six keys and
   * `compare_contact` reads every attribute from them), the first of them the
   * unique id that is searched on.
   */
  predicate ValidConfig(cfg: Config) {
    DistinctAttrs(cfg) && |cfg.columns| >= 6 && cfg.uniqueId == cfg.attrs[0]
  }

  /** A CSV contact holds its id, as a string. */
  lemma ShapeHasId(cfg: Config, c: Contact)
    requires ValidConfig(cfg) && CsvShape(cfg, c)
    ensures Indexable(cfg) && cfg.attrs[..6] == cfg.attrs
    ensures cfg.uniqueId in c && c[cfg.uniqueId].Str?
  {
    assert cfg.attrs[..6][0] == cfg.attrs[0];
  }

  /** Lines 195-196: the contact the directory holds under a CSV contact's id. */
  function Found(cfg: Config, dir: seq<Entry>, c: Contact): Contact
    requires ValidConfig(cfg) && AllWellFormed(dir) && CsvShape(cfg, c)
  {
    ShapeHasId(cfg, c);
    Lookup(Search(dir, cfg.uniqueId, c[cfg.uniqueId].s), cfg.attrs)
  }

  /** The dn cache after the search for one CSV contact: its id is bound to the first entry found. */
  function CacheAfter(cfg: Config, dir: seq<Entry>, c: Contact, cache: map<string, string>): map<string, string>
    requires ValidConfig(cfg) && CsvShape(cfg, c)
  {
    ShapeHasId(cfg, c);
    var en := c[cfg.uniqueId].s;
    var results := Search(dir, cfg.uniqueId, en);
    if results == [] then cache else cache[en := results[0].dn]
  }

  /**
   * A directory record that was found has the CSV contact's keys, so
   * `compare_contact` finds every attribute it reads.
   */
  lemma FoundComparable(cfg: Config, dir: seq<Entry>, c: Contact)
    requires ValidConfig(cfg) && AllWellFormed(dir) && CsvShape(cfg, c)
    ensures var found := Found(cfg, dir, c);
      && (found != map[] ==> Comparable(c, found, cfg.uniqueId, cfg.attrs) && found.Keys == c.Keys)
      && (found == map[] <==> Search(dir, cfg.uniqueId, c[cfg.uniqueId].s) == [])
  {
    ShapeHasId(cfg, c);
    var results := Search(dir, cfg.uniqueId, c[cfg.uniqueId].s);
    if results != [] {
      assert cfg.attrs[0] in cfg.attrs;
      assert cfg.uniqueId in Found(cfg, dir, c);
    }
  }

  /** Lines 195-204 for one CSV contact: the change to keep, if any, or the exception. */
  function CheckContact(cfg: Config, dir: seq<Entry>, c: Contact): Result<Option<Contact>, Failure>
    requires ValidConfig(cfg) && AllWellFormed(dir) && CsvShape(cfg, c)
  {
    var found := Found(cfg, dir, c);
    if found == map[] then Success(None)
    else
      FoundComparable(cfg, dir, c);
      match Diff(c, found, cfg.uniqueId, cfg.attrs)
      case Failure(e) => Failure(e)
      case Success(m) => Success(if m != map[] then Some(m) else None)
  }

  /**
   * Lines 190-204 over a list of CSV contacts: the changes collected, or the
   * first exception, and the dn cache the searches left behind.
   */
  function Collect(cfg: Config, dir: seq<Entry>, contacts: seq<Contact>, cache: map<string, string>)
    : (Result<seq<Contact>, Failure>, map<string, string>)
    requires ValidConfig(cfg) && AllWellFormed(dir)
    requires forall c :: c in contacts ==> CsvShape(cfg, c)
    decreases |contacts|
  {
    if contacts == [] then (Success([]), cache)
    else
      var n := |contacts| - 1;
      var prev := Collect(cfg, dir, contacts[..n], cache);
      if prev.0.Failure? then prev
      else
        var c := contacts[n];
        var cache' := CacheAfter(cfg, dir, c, prev.1);
        var check := CheckContact(cfg, dir, c);
        if check.Failure? then (Failure(check.error), cache')
        else if check.value.Some? then (Success(prev.0.value + [check.value.value]), cache')
        else (Success(prev.0.value), cache')
  }

  /** What the run reports: the changes, the CSV line of each, and whether it bound to update. */
  datatype Report = Report(changes: seq<Contact>, lineNumbers: seq<nat>, bound: bool)

  /**
   * A change as the update uses it: its id and every value are strings, and
   * the dn cached for its id is that of the first entry the directory holds
   * under the id.
   */
  predicate KeyedChange(cfg: Config, dir: seq<Entry>, ch: Contact, dnCache: map<string, string>) {
    var uid := cfg.uniqueId;
    && uid in ch && ch[uid].Str? && (forall k :: k in ch ==> ch[k].Str?)
    && ch[uid].s in dnCache
    && Search(dir, uid, ch[uid].s) != [] && dnCache[ch[uid].s] == Search(dir, uid, ch[uid].s)[0].dn
  }

  /** Line 208: the CSV line number of each change, looked up by its id. */
  function LineNumbers(changes: seq<Contact>, uid: string, cache: map<string, nat>): (r: seq<nat>)
    requires forall ch: Contact :: ch in changes ==> uid in ch && ch[uid].Str? && ch[uid].s in cache
    ensures |r| == |changes|
    decreases |changes|
  {
    if changes == [] then []
    else
      var n := |changes| - 1;
      LineNumbers(changes[..n], uid, cache) + [cache[changes[n][uid].s]]
  }

  /**
   * Lines 190-214 as a whole, from the caches it starts with: the report or
   * the exception, and the caches it leaves.
   */
  function RunSpec(cfg: Config, lines: seq<string>, dir: seq<Entry>, update: bool,
                   dnCache: map<string, string>, lineCache: map<string, nat>)
    : (Result<Report, Failure>, map<string, string>, map<string, nat>)
    requires ValidConfig(cfg) && AllWellFormed(dir)
  {
    var parse := ParseFrom(cfg, lines, 0, [], lineCache);
    var lineCache' := parse.1;
    if parse.0.Failure? then (Failure(parse.0.error), dnCache, lineCache')
    else
      ParsedContactsShaped(cfg, lines, 0, [], lineCache);
      var collect := Collect(cfg, dir, parse.0.value, dnCache);
      var dnCache' := collect.1;
      if collect.0.Failure? then (Failure(collect.0.error), dnCache', lineCache')
      else
        ChangesHaveLines(cfg, dir, parse.0.value, dnCache, lineCache');
        var changes := collect.0.value;
        var report := Report(changes, LineNumbers(changes, cfg.uniqueId, lineCache'), update && |changes| > 0);
        (Success(report), dnCache', lineCache')
  }

  /**
   * The change one CSV contact gives, if any, carries the contact's id and
   * is keyed in the cache its search leaves behind.
   */
  lemma CheckKeyed(cfg: Config, dir: seq<Entry>, c: Contact, cache: map<string, string>)
    requires ValidConfig(cfg) && AllWellFormed(dir) && CsvShape(cfg, c)
    requires CheckContact(cfg, dir, c).Success? && CheckContact(cfg, dir, c).value.Some?
    ensures var ch := CheckContact(cfg, dir, c).value.value;
      && KeyedChange(cfg, dir, ch, CacheAfter(cfg, dir, c, cache))
      && ch[cfg.uniqueId] == c[cfg.uniqueId]
  {
    ShapeHasId(cfg, c);
    FoundComparable(cfg, dir, c);
    var found := Found(cfg, dir, c);
    DiffThenApply(c, found, cfg.uniqueId, cfg.attrs);
    DiffReports(c, found, cfg.uniqueId, cfg.attrs);
    assert cfg.uniqueId in CheckContact(cfg, dir, c).value.value;
  }

  /** The search for one contact keeps every change keyed that already was. */
  lemma CacheAfterKeyed(cfg: Config, dir: seq<Entry>, c: Contact, ch: Contact, cache: map<string, string>)
    requires ValidConfig(cfg) && CsvShape(cfg, c)
    requires KeyedChange(cfg, dir, ch, cache)
    ensures KeyedChange(cfg, dir, ch, CacheAfter(cfg, dir, c, cache))
  {
  }

  /** Every change the loop keeps is keyed: line 141 finds the dn of the entry it was compared with. */
  lemma {:induction false} CollectKeyed(cfg: Config, dir: seq<Entry>, contacts: seq<Contact>,
                                        cache: map<string, string>)
    requires ValidConfig(cfg) && AllWellFormed(dir)
    requires forall c :: c in contacts ==> CsvShape(cfg, c)
    requires Collect(cfg, dir, contacts, cache).0.Success?
    ensures var out := Collect(cfg, dir, contacts, cache);
      forall ch :: ch in out.0.value ==> KeyedChange(cfg, dir, ch, out.1)
    decreases |contacts|
  {
    if contacts != [] {
      var n := |contacts| - 1;
      assert forall c :: c in contacts[..n] ==> c in contacts;
      CollectKeyed(cfg, dir, contacts[..n], cache);
      var prev := Collect(cfg, dir, contacts[..n], cache);
      var c := contacts[n];
      var out := CacheAfter(cfg, dir, c, prev.1);
      forall ch | ch in prev.0.value ensures KeyedChange(cfg, dir, ch, out) {
        CacheAfterKeyed(cfg, dir, c, ch, prev.1);
      }
      var check := CheckContact(cfg, dir, c);
      if check.Success? && check.value.Some? {
        CheckKeyed(cfg, dir, c, prev.1);
      }
    }
  }

  /**
   * When the loop ends without an exception, no contact raised, every
   * contact with a change has it in the list, and every change in the list
   * is the change of some contact.
   */
  lemma {:induction false} CollectOrigins(cfg: Config, dir: seq<Entry>, contacts: seq<Contact>,
                                          cache: map<string, string>)
    requires ValidConfig(cfg) && AllWellFormed(dir)
    requires forall c :: c in contacts ==> CsvShape(cfg, c)
    requires Collect(cfg, dir, contacts, cache).0.Success?
    ensures var changes := Collect(cfg, dir, contacts, cache).0.value;
      && (forall c :: c in contacts ==> CheckContact(cfg, dir, c).Success?)
      && (forall c :: c in contacts && CheckContact(cfg, dir, c).value.Some? ==>
            CheckContact(cfg, dir, c).value.value in changes)
      && (forall ch :: ch in changes ==>
            exists c :: c in contacts && CheckContact(cfg, dir, c) == Success(Some(ch)))
    decreases |contacts|
  {
    if contacts != [] {
      var n := |contacts| - 1;
      var prefix := contacts[..n];
      assert forall c :: c in prefix ==> c in contacts;
      assert contacts == prefix + [contacts[n]];
      CollectSucceededStep(cfg, dir, contacts, cache);
      CollectOrigins(cfg, dir, prefix, cache);
      var changes := Collect(cfg, dir, contacts, cache).0.value;
      var before := Collect(cfg, dir, prefix, cache).0.value;
      assert forall ch :: ch in before ==> ch in changes;
    }
  }

  /** A step that does not raise follows a prefix that did not either, and adds the last contact's change. */
  lemma CollectSucceededStep(cfg: Config, dir: seq<Entry>, contacts: seq<Contact>, cache: map<string, string>)
    requires ValidConfig(cfg) && AllWellFormed(dir)
    requires forall c :: c in contacts ==> CsvShape(cfg, c)
    requires contacts != [] && Collect(cfg, dir, contacts, cache).0.Success?
    ensures var n := |contacts| - 1;
      var before := Collect(cfg, dir, contacts[..n], cache).0;
      var check := CheckContact(cfg, dir, contacts[n]);
      && before.Success? && check.Success?
      && Collect(cfg, dir, contacts, cache).0.value
         == before.value + (if check.value.Some? then [check.value.value] else [])
  {
  }

  /** Every change has a CSV line number: line 208 finds its id in the line cache. */
  lemma ChangesHaveLines(cfg: Config, dir: seq<Entry>, contacts: seq<Contact>,
                         cache: map<string, string>, lineCache: map<string, nat>)
    requires ValidConfig(cfg) && AllWellFormed(dir)
    requires forall c :: c in contacts ==> CsvShape(cfg, c)
    requires forall c :: c in contacts ==> IdRecorded(cfg, c, lineCache)
    requires Collect(cfg, dir, contacts, cache).0.Success?
    ensures forall ch: Contact :: ch in Collect(cfg, dir, contacts, cache).0.value ==>
              cfg.uniqueId in ch && ch[cfg.uniqueId].Str? && ch[cfg.uniqueId].s in lineCache
  {
    CollectOrigins(cfg, dir, contacts, cache);
    forall ch: Contact | ch in Collect(cfg, dir, contacts, cache).0.value
      ensures cfg.uniqueId in ch && ch[cfg.uniqueId].Str? && ch[cfg.uniqueId].s in lineCache
    {
      var c :| c in contacts && CheckContact(cfg, dir, c) == Success(Some(ch));
      CheckKeyed(cfg, dir, c, cache);
      assert IdRecorded(cfg, c, lineCache);
    }
  }

  /** Once the loop has raised, the later contacts change nothing. */
  lemma {:induction false} CollectStops(cfg: Config, dir: seq<Entry>, pre: seq<Contact>, post: seq<Contact>,
                                        cache: map<string, string>)
    requires ValidConfig(cfg) && AllWellFormed(dir)
    requires forall c :: c in pre + post ==> CsvShape(cfg, c)
    requires Collect(cfg, dir, pre, cache).0.Failure?
    ensures Collect(cfg, dir, pre + post, cache) == Collect(cfg, dir, pre, cache)
    decreases |post|
  {
    if post == [] {
      assert pre + post == pre;
    } else {
      var post' := post[..|post| - 1];
      var all := pre + post;
      assert all[..|all| - 1] == pre + post';
      CollectStops(cfg, dir, pre, post', cache);
      CollectFailedStep(cfg, dir, all, cache);
    }
  }

  /** The same for a prefix of the list: an exception at the `k`-th contact is the loop's outcome. */
  lemma CollectRaisedAt(cfg: Config, dir: seq<Entry>, contacts: seq<Contact>, k: nat, cache: map<string, string>)
    requires ValidConfig(cfg) && AllWellFormed(dir)
    requires forall c :: c in contacts ==> CsvShape(cfg, c)
    requires k <= |contacts| && Collect(cfg, dir, contacts[..k], cache).0.Failure?
    ensures Collect(cfg, dir, contacts, cache) == Collect(cfg, dir, contacts[..k], cache)
  {
    assert contacts == contacts[..k] + contacts[k..];
    CollectStops(cfg, dir, contacts[..k], contacts[k..], cache);
  }

  /** A step after an exception passes the exception on. */
  lemma CollectFailedStep(cfg: Config, dir: seq<Entry>, contacts: seq<Contact>, cache: map<string, string>)
    requires ValidConfig(cfg) && AllWellFormed(dir)
    requires forall c :: c in contacts ==> CsvShape(cfg, c)
    requires contacts != [] && Collect(cfg, dir, contacts[..|contacts| - 1], cache).0.Failure?
    ensures Collect(cfg, dir, contacts, cache) == Collect(cfg, dir, contacts[..|contacts| - 1], cache)
  {
  }

  /** The request sent for one change: to the dn cached for its id, replacing every other attribute. */
  predicate RequestFor(req: Request, ch: Contact, uid: string, dnCache: map<string, string>) {
    && uid in ch && ch[uid].Str? && ch[uid].s in dnCache
    && req.dn == dnCache[ch[uid].s]
    && ReplacesExactly(req.mods, ch - {uid})
  }

  /** The requests lines 213-214 send for a list of changes: one per change, in order. */
  predicate RequestsFor(requests: seq<Request>, changes: seq<Contact>, uid: string,
                        dnCache: map<string, string>)
  {
    |requests| == |changes|
    && forall j :: 0 <= j < |requests| ==> RequestFor(requests[j], changes[j], uid, dnCache)
  }

  // ---------------------------------------------------------------------
  // A second run finds nothing to change

  /** A CSV contact agrees with the directory: no entry holds its id, or the record found is the contact. */
  predicate InSync(cfg: Config, dir: seq<Entry>, c: Contact)
    requires ValidConfig(cfg) && AllWellFormed(dir) && CsvShape(cfg, c)
  {
    var found := Found(cfg, dir, c);
    found == map[] || found == c
  }

  /** A contact gives no change and no exception exactly when it agrees with the directory. */
  lemma CheckInSync(cfg: Config, dir: seq<Entry>, c: Contact)
    requires ValidConfig(cfg) && AllWellFormed(dir) && CsvShape(cfg, c)
    ensures CheckContact(cfg, dir, c) == Success(None) <==> InSync(cfg, dir, c)
  {
    var found := Found(cfg, dir, c);
    FoundComparable(cfg, dir, c);
    if found != map[] {
      DiffReports(c, found, cfg.uniqueId, cfg.attrs);
    }
  }

  /** The loop collects no change and raises nothing exactly when every contact agrees with the directory. */
  lemma {:induction false} CollectSettledIff(cfg: Config, dir: seq<Entry>, contacts: seq<Contact>,
                                             cache: map<string, string>)
    requires ValidConfig(cfg) && AllWellFormed(dir)
    requires forall c :: c in contacts ==> CsvShape(cfg, c)
    ensures Collect(cfg, dir, contacts, cache).0 == Success([]) <==>
              forall c :: c in contacts ==> InSync(cfg, dir, c)
    decreases |contacts|
  {
    if contacts != [] {
      var n := |contacts| - 1;
      var prefix := contacts[..n];
      assert forall c :: c in prefix ==> c in contacts;
      var last := contacts[n];
      CollectSettledIff(cfg, dir, prefix, cache);
      CheckInSync(cfg, dir, last);
      CollectSettledStep(cfg, dir, contacts, cache);
      AllInSyncStep(cfg, dir, contacts);
    }
  }

  /** One step of the loop collects nothing exactly when the ones before did not and this contact gives nothing. */
  lemma CollectSettledStep(cfg: Config, dir: seq<Entry>, contacts: seq<Contact>, cache: map<string, string>)
    requires ValidConfig(cfg) && AllWellFormed(dir)
    requires forall c :: c in contacts ==> CsvShape(cfg, c)
    requires contacts != []
    ensures Collect(cfg, dir, contacts, cache).0 == Success([]) <==>
              && Collect(cfg, dir, contacts[..|contacts| - 1], cache).0 == Success([])
              && CheckContact(cfg, dir, contacts[|contacts| - 1]) == Success(None)
  {
  }

  /** Every contact agrees exactly when the ones before the last do and the last does. */
  lemma AllInSyncStep(cfg: Config, dir: seq<Entry>, contacts: seq<Contact>)
    requires ValidConfig(cfg) && AllWellFormed(dir)
    requires forall c :: c in contacts ==> CsvShape(cfg, c)
    requires contacts != []
    ensures (forall c :: c in contacts ==> InSync(cfg, dir, c)) <==>
              && (forall c :: c in contacts[..|contacts| - 1] ==> InSync(cfg, dir, c))
              && InSync(cfg, dir, contacts[|contacts| - 1])
  {
    assert contacts == contacts[..|contacts| - 1] + [contacts[|contacts| - 1]];
  }

  /**
   * Writing a contact's change over the entry it was compared with makes the
   * entry's record the contact itself.
   */
  lemma RecordSettles(cfg: Config, c: Contact, attrs: map<string, seq<string>>, m: Contact)
    requires ValidConfig(cfg) && CsvShape(cfg, c) && WellFormed(Entry("", attrs))
    requires Comparable(c, Project(attrs, cfg.attrs), cfg.uniqueId, cfg.attrs)
    requires Diff(c, Project(attrs, cfg.attrs), cfg.uniqueId, cfg.attrs) == Success(m)
    requires forall k :: k in m ==> m[k].Str?
    ensures WellFormed(Entry("", attrs + NewValues(m - {cfg.uniqueId})))
    ensures Project(attrs + NewValues(m - {cfg.uniqueId}), cfg.attrs) == c
  {
    var uid := cfg.uniqueId;
    ShapeHasId(cfg, c);
    var found := Project(attrs, cfg.attrs);
    var attrs' := attrs + NewValues(m - {uid});
    if c == found {
      assert m - {uid} == map[];
      assert attrs' == attrs;
    } else {
      assert cfg.attrs[0] in cfg.attrs;
      assert c[uid] == found[uid];
      DiffThenApply(c, found, uid, cfg.attrs);
      RecordSettlesChanged(c, found, attrs, m - {uid}, cfg.attrs);
    }
  }

  /**
   * The case of `RecordSettles` where the records differ, stated per key:
   * every rewritten attribute takes the CSV value, every other one already
   * had it.
   */
  lemma RecordSettlesChanged(c: Contact, found: Contact, attrs: map<string, seq<string>>, m: Contact,
                             names: seq<string>)
    requires WellFormed(Entry("", attrs)) && forall k :: k in m ==> m[k].Str?
    requires found == Project(attrs, names) && c.Keys == found.Keys
    requires forall k :: k in m ==> k in c && m[k] == c[k]
    requires forall k :: k in c && k !in m ==> found[k] == c[k]
    ensures Project(attrs + NewValues(m), names) == c
  {
    var after := Project(attrs + NewValues(m), names);
    forall k | k in c ensures after[k] == c[k] {
      RecordKeySettles(c, found, attrs, m, k);
    }
  }

  /**
   * One attribute after the write: a rewritten one reads its new value, any
   * other the value it had, which already agreed with the CSV record.
   */
  lemma RecordKeySettles(c: Contact, found: Contact, attrs: map<string, seq<string>>, m: Contact, k: string)
    requires WellFormed(Entry("", attrs)) && forall j :: j in m ==> m[j].Str?
    requires k in c && k in found && found[k] == FirstValue(attrs, k)
    requires k in m ==> m[k] == c[k]
    requires k !in m ==> found[k] == c[k]
    ensures FirstValue(attrs + NewValues(m), k) == c[k]
  {
    var attrs' := attrs + NewValues(m);
    if k !in m {
      assert (k in attrs' <==> k in attrs) && (k in attrs ==> attrs'[k] == attrs[k]);
    }
  }

  /** A batch that never names the unique id keeps every entry's dn and id values in place. */
  lemma EntryKept(dir: seq<Entry>, requests: seq<Request>, uid: string, p: nat)
    requires AllRequestsStrings(requests) && p < |dir|
    requires forall j, i :: 0 <= j < |requests| && 0 <= i < |requests[j].mods| ==>
               requests[j].mods[i].attr != uid
    ensures |ApplyRequests(dir, requests)| == |dir|
    ensures var e := ApplyRequests(dir, requests)[p];
      && e == EntryAfter(dir[p], requests) && e.dn == dir[p].dn
      && (forall v :: Matches(e, uid, v) <==> Matches(dir[p], uid, v))
  {
    ApplyRequestsAt(dir, requests, p);
    EntryAfterDn(dir[p], requests);
    EntryAfterKeeps(dir[p], requests, uid);
  }

  /** The same batch rewrites each entry in place and keeps whether it holds a given id. */
  lemma MatchesKept(dir: seq<Entry>, requests: seq<Request>, uid: string, value: string)
    requires AllRequestsStrings(requests)
    requires forall j, i :: 0 <= j < |requests| && 0 <= i < |requests[j].mods| ==>
               requests[j].mods[i].attr != uid
    ensures |ApplyRequests(dir, requests)| == |dir|
    ensures forall p :: 0 <= p < |dir| ==>
              && ApplyRequests(dir, requests)[p] == EntryAfter(dir[p], requests)
              && (Matches(ApplyRequests(dir, requests)[p], uid, value) <==> Matches(dir[p], uid, value))
  {
    var newDir := ApplyRequests(dir, requests);
    forall p | 0 <= p < |dir|
      ensures newDir[p] == EntryAfter(dir[p], requests)
      ensures Matches(newDir[p], uid, value) <==> Matches(dir[p], uid, value)
    {
      EntryKept(dir, requests, uid, p);
    }
  }

  /** No two entries share a dn. */
  predicate DistinctDns(dir: seq<Entry>) {
    forall p, q :: 0 <= p < q < |dir| ==> dir[p].dn != dir[q].dn
  }

  /** The unique id attribute holds at most one value (`employeeNumber` is single-valued). */
  predicate SingleValued(dir: seq<Entry>, uid: string) {
    forall e :: e in dir && uid in e.attrs ==> |e.attrs[uid]| == 1
  }

  /** No two different CSV contacts share an id. */
  predicate IdsIdentify(cfg: Config, contacts: seq<Contact>) {
    forall c, d ::
      (c in contacts && d in contacts && cfg.uniqueId in c && cfg.uniqueId in d
       && c[cfg.uniqueId] == d[cfg.uniqueId]) ==> c == d
  }

  /** With a single-valued id attribute, the record a search finds carries the id searched for. */
  lemma LookupCarriesId(dir: seq<Entry>, uid: string, en: string, attrs: seq<string>)
    requires AllWellFormed(dir) && SingleValued(dir, uid) && uid in attrs
    requires Search(dir, uid, en) != []
    ensures Lookup(Search(dir, uid, en), attrs)[uid] == Str(en)
  {
    var r := Search(dir, uid, en);
    assert r[0] in r;
    var e := r[0];
    assert |e.attrs[uid]| == 1 && en in e.attrs[uid];
    assert e.attrs[uid] == [en];
  }

  /**
   * Under distinct dns and a single-valued id attribute, the entry an id's
   * search finds first belongs to that id alone.
   */
  lemma DnNamesId(dir: seq<Entry>, uid: string, en: string, en': string, p: nat)
    requires DistinctDns(dir) && SingleValued(dir, uid)
    requires p < |dir| && Matches(dir[p], uid, en)
    requires Search(dir, uid, en') != [] && Search(dir, uid, en')[0].dn == dir[p].dn
    ensures en' == en
  {
    var rs := Search(dir, uid, en');
    SearchFirst(dir, uid, en');
    var q :| 0 <= q < |dir| && rs[0] == dir[q] && Matches(dir[q], uid, en')
             && forall q' :: 0 <= q' < q ==> !Matches(dir[q'], uid, en');
    assert q == p by {
      assert dir[q].dn == dir[p].dn;
    }
    assert dir[p] in dir;
  }

  /**
   * A request that names the dn of the entry a contact's id finds first
   * carries the change of that contact: the contact `d` the change came
   * from is `c`.
   */
  lemma RequestTarget(cfg: Config, dir: seq<Entry>, contacts: seq<Contact>, changes: seq<Contact>,
                      dnCache: map<string, string>, requests: seq<Request>, c: Contact, d: Contact,
                      p: nat, j: nat)
    requires ValidConfig(cfg) && AllWellFormed(dir)
    requires DistinctDns(dir) && SingleValued(dir, cfg.uniqueId)
    requires IdsIdentify(cfg, contacts) && c in contacts && d in contacts
    requires CsvShape(cfg, c) && CsvShape(cfg, d)
    requires RequestsFor(requests, changes, cfg.uniqueId, dnCache)
    requires j < |requests| && KeyedChange(cfg, dir, changes[j], dnCache)
    requires CheckContact(cfg, dir, d) == Success(Some(changes[j]))
    requires cfg.uniqueId in c && c[cfg.uniqueId].Str?
    requires p < |dir| && Matches(dir[p], cfg.uniqueId, c[cfg.uniqueId].s)
    requires requests[j].dn == dir[p].dn
    ensures d == c
  {
    var uid := cfg.uniqueId;
    var ch := changes[j];
    DnNamesId(dir, uid, c[uid].s, ch[uid].s, p);
    CheckKeyed(cfg, dir, d, dnCache);
  }

  /** The requests for keyed changes only write strings and never touch the unique id. */
  lemma RequestsClean(cfg: Config, dir: seq<Entry>, changes: seq<Contact>, dnCache: map<string, string>,
                      requests: seq<Request>)
    requires RequestsFor(requests, changes, cfg.uniqueId, dnCache)
    requires forall ch :: ch in changes ==> KeyedChange(cfg, dir, ch, dnCache)
    ensures AllRequestsStrings(requests)
    ensures forall j, i :: 0 <= j < |requests| && 0 <= i < |requests[j].mods| ==>
              requests[j].mods[i].attr != cfg.uniqueId
  {
    forall j | 0 <= j < |requests| ensures AllStrings(requests[j].mods) {
      assert changes[j] in changes;
    }
  }

  /**
   * What the first run leaves behind, under the assumptions of `RunTwice`:
   * distinct dns, a single-valued id, CSV contacts identified by their id,
   * a main loop that raised nothing, and the requests the update loop sends
   * for the changes it collected.
   */
  predicate FirstRunDone(cfg: Config, dir: seq<Entry>, contacts: seq<Contact>, cache: map<string, string>,
                         requests: seq<Request>)
  {
    && ValidConfig(cfg) && AllWellFormed(dir)
    && DistinctDns(dir) && SingleValued(dir, cfg.uniqueId)
    && (forall d :: d in contacts ==> CsvShape(cfg, d))
    && IdsIdentify(cfg, contacts)
    && Collect(cfg, dir, contacts, cache).0.Success?
    && RequestsFor(requests, Collect(cfg, dir, contacts, cache).0.value, cfg.uniqueId,
                   Collect(cfg, dir, contacts, cache).1)
  }

  /**
   * A contact with no change: no request names the entry its id finds, so
   * the entry, and the record read from it, stay as they were.
   */
  lemma SettlesUnchanged(cfg: Config, dir: seq<Entry>, contacts: seq<Contact>, cache: map<string, string>,
                         requests: seq<Request>, c: Contact, p: nat)
    requires FirstRunDone(cfg, dir, contacts, cache, requests) && c in contacts
    requires AllRequestsStrings(requests)
    requires cfg.uniqueId in c && c[cfg.uniqueId].Str?
    requires p < |dir| && Matches(dir[p], cfg.uniqueId, c[cfg.uniqueId].s)
    requires CheckContact(cfg, dir, c) == Success(None)
    ensures EntryAfter(dir[p], requests) == dir[p]
  {
    var out := Collect(cfg, dir, contacts, cache);
    var changes := out.0.value;
    CollectKeyed(cfg, dir, contacts, cache);
    CollectOrigins(cfg, dir, contacts, cache);
    forall j | 0 <= j < |requests| ensures requests[j].dn != dir[p].dn {
      if requests[j].dn == dir[p].dn {
        assert changes[j] in changes;
        var d :| d in contacts && CheckContact(cfg, dir, d) == Success(Some(changes[j]));
        RequestTarget(cfg, dir, contacts, changes, out.1, requests, c, d, p, j);
        assert false;
      }
    }
    EntryAfterSame(dir[p], requests, map[]);
  }

  /**
   * A contact with change `m`: every request naming the entry its id finds
   * replaces that change, and at least one does.
   */
  lemma SettlesChanged(cfg: Config, dir: seq<Entry>, contacts: seq<Contact>, cache: map<string, string>,
                       requests: seq<Request>, c: Contact, p: nat, m: Contact)
    requires FirstRunDone(cfg, dir, contacts, cache, requests) && c in contacts
    requires AllRequestsStrings(requests)
    requires cfg.uniqueId in c && c[cfg.uniqueId].Str?
    requires p < |dir| && Matches(dir[p], cfg.uniqueId, c[cfg.uniqueId].s)
    requires Search(dir, cfg.uniqueId, c[cfg.uniqueId].s) != []
    requires Search(dir, cfg.uniqueId, c[cfg.uniqueId].s)[0] == dir[p]
    requires CheckContact(cfg, dir, c) == Success(Some(m))
    ensures forall k :: k in m ==> m[k].Str?
    ensures EntryAfter(dir[p], requests) == Entry(dir[p].dn, dir[p].attrs + NewValues(m - {cfg.uniqueId}))
  {
    var uid := cfg.uniqueId;
    var out := Collect(cfg, dir, contacts, cache);
    var changes := out.0.value;
    CollectKeyed(cfg, dir, contacts, cache);
    CollectOrigins(cfg, dir, contacts, cache);
    CheckKeyed(cfg, dir, c, cache);
    assert m in changes;
    var j :| 0 <= j < |changes| && changes[j] == m;
    assert KeyedChange(cfg, dir, m, out.1);
    assert requests[j].dn == dir[p].dn;
    forall j' | 0 <= j' < |requests| && requests[j'].dn == dir[p].dn
      ensures ReplacesExactly(requests[j'].mods, m - {uid})
    {
      assert changes[j'] in changes;
      var d :| d in contacts && CheckContact(cfg, dir, d) == Success(Some(changes[j']));
      RequestTarget(cfg, dir, contacts, changes, out.1, requests, c, d, p, j');
    }
    EntryAfterSame(dir[p], requests, m - {uid});
  }

  /** After the update, one CSV contact agrees with the directory. */
  lemma ContactSettles(cfg: Config, dir: seq<Entry>, contacts: seq<Contact>, cache: map<string, string>,
                       requests: seq<Request>, c: Contact)
    requires FirstRunDone(cfg, dir, contacts, cache, requests) && c in contacts
    requires AllRequestsStrings(requests) && AllWellFormed(ApplyRequests(dir, requests))
    requires forall j, i :: 0 <= j < |requests| && 0 <= i < |requests[j].mods| ==>
               requests[j].mods[i].attr != cfg.uniqueId
    ensures InSync(cfg, ApplyRequests(dir, requests), c)
  {
    var uid := cfg.uniqueId;
    var newDir := ApplyRequests(dir, requests);
    ShapeHasId(cfg, c);
    var en := c[uid].s;
    var rs := Search(dir, uid, en);
    if rs == [] {
      MatchesKept(dir, requests, uid, en);
      SearchEmptyKept(dir, newDir, uid, en);
    } else {
      SearchFirst(dir, uid, en);
      var p :| 0 <= p < |dir| && rs[0] == dir[p] && Matches(dir[p], uid, en)
               && forall q :: 0 <= q < p ==> !Matches(dir[q], uid, en);
      SettlesAt(cfg, dir, contacts, cache, requests, c, p);
    }
  }

  /** The case of `ContactSettles` where the contact's id finds entry `p` first. */
  lemma SettlesAt(cfg: Config, dir: seq<Entry>, contacts: seq<Contact>, cache: map<string, string>,
                  requests: seq<Request>, c: Contact, p: nat)
    requires FirstRunDone(cfg, dir, contacts, cache, requests) && c in contacts
    requires AllRequestsStrings(requests) && AllWellFormed(ApplyRequests(dir, requests))
    requires forall j, i :: 0 <= j < |requests| && 0 <= i < |requests[j].mods| ==>
               requests[j].mods[i].attr != cfg.uniqueId
    requires cfg.uniqueId in c && c[cfg.uniqueId].Str?
    requires p < |dir| && Matches(dir[p], cfg.uniqueId, c[cfg.uniqueId].s)
    requires forall q :: 0 <= q < p ==> !Matches(dir[q], cfg.uniqueId, c[cfg.uniqueId].s)
    ensures InSync(cfg, ApplyRequests(dir, requests), c)
  {
    var uid := cfg.uniqueId;
    var en := c[uid].s;
    var newDir := ApplyRequests(dir, requests);
    MatchesKept(dir, requests, uid, en);
    SearchHead(dir, uid, en, p);
    SearchHead(newDir, uid, en, p);
    CollectOrigins(cfg, dir, contacts, cache);
    SettlesFound(cfg, dir, contacts, cache, requests, c, p);
  }

  /** `SettlesAt` once both searches are known to return entry `p` first. */
  lemma SettlesFound(cfg: Config, dir: seq<Entry>, contacts: seq<Contact>, cache: map<string, string>,
                     requests: seq<Request>, c: Contact, p: nat)
    requires FirstRunDone(cfg, dir, contacts, cache, requests) && c in contacts
    requires AllRequestsStrings(requests) && AllWellFormed(ApplyRequests(dir, requests))
    requires cfg.uniqueId in c && c[cfg.uniqueId].Str?
    requires p < |dir| && Matches(dir[p], cfg.uniqueId, c[cfg.uniqueId].s)
    requires Search(dir, cfg.uniqueId, c[cfg.uniqueId].s) != []
    requires Search(dir, cfg.uniqueId, c[cfg.uniqueId].s)[0] == dir[p]
    requires Search(ApplyRequests(dir, requests), cfg.uniqueId, c[cfg.uniqueId].s) != []
    requires Search(ApplyRequests(dir, requests), cfg.uniqueId, c[cfg.uniqueId].s)[0]
             == EntryAfter(dir[p], requests)
    requires CheckContact(cfg, dir, c).Success?
    ensures InSync(cfg, ApplyRequests(dir, requests), c)
  {
    var uid := cfg.uniqueId;
    assert dir[p] in dir;
    FoundComparable(cfg, dir, c);
    var check := CheckContact(cfg, dir, c);
    if check.value.None? {
      SettlesUnchanged(cfg, dir, contacts, cache, requests, c, p);
      CheckInSync(cfg, dir, c);
    } else {
      var m := check.value.value;
      SettlesChanged(cfg, dir, contacts, cache, requests, c, p, m);
      RecordSettles(cfg, c, dir[p].attrs, m);
    }
  }

  /**
   * Running the reconciliation again right after an update finds every CSV
   * contact in agreement with the directory: nothing is collected and
   * nothing raised. This holds when no two entries share a dn, the id
   * attribute is single-valued, and no two different CSV contacts share an id.
   */
  lemma SecondRunSettled(cfg: Config, dir: seq<Entry>, contacts: seq<Contact>, cache: map<string, string>,
                         requests: seq<Request>)
    requires FirstRunDone(cfg, dir, contacts, cache, requests)
    ensures AllRequestsStrings(requests)
    ensures AllWellFormed(ApplyRequests(dir, requests))
    ensures forall c :: c in contacts ==> InSync(cfg, ApplyRequests(dir, requests), c)
    ensures forall cache' :: Collect(cfg, ApplyRequests(dir, requests), contacts, cache').0 == Success([])
  {
    var out := Collect(cfg, dir, contacts, cache);
    CollectKeyed(cfg, dir, contacts, cache);
    RequestsClean(cfg, dir, out.0.value, out.1, requests);
    var newDir := ApplyRequests(dir, requests);
    forall e | e in newDir ensures WellFormed(e) {
      var p :| 0 <= p < |newDir| && newDir[p] == e;
      ApplyRequestsAt(dir, requests, p);
      assert dir[p] in dir;
      EntryAfterWellFormed(dir[p], requests);
    }
    forall c | c in contacts ensures InSync(cfg, newDir, c) {
      ContactSettles(cfg, dir, contacts, cache, requests, c);
    }
    forall cache': map<string, string> ensures Collect(cfg, newDir, contacts, cache').0 == Success([]) {
      CollectSettledIff(cfg, newDir, contacts, cache');
    }
  }

  /**
   * Lines 190-214 run twice: when a run succeeds and its update requests are
   * sent, a second run on the updated directory reports no change and
   * raises nothing, whatever caches it starts from. The directory returns
   * search results and attribute values in the same order in both runs.
   */
  lemma RunTwice(cfg: Config, lines: seq<string>, dir: seq<Entry>, dnCache: map<string, string>,
                 lineCache: map<string, nat>, requests: seq<Request>, update: bool,
                 dnCache': map<string, string>, lineCache': map<string, nat>)
    requires ValidConfig(cfg) && AllWellFormed(dir)
    requires DistinctDns(dir) && SingleValued(dir, cfg.uniqueId)
    requires ParseFrom(cfg, lines, 0, [], lineCache).0.Success?
    requires IdsIdentify(cfg, ParseFrom(cfg, lines, 0, [], lineCache).0.value)
    requires RunSpec(cfg, lines, dir, true, dnCache, lineCache).0.Success?
    requires RequestsFor(requests, RunSpec(cfg, lines, dir, true, dnCache, lineCache).0.value.changes,
                         cfg.uniqueId, RunSpec(cfg, lines, dir, true, dnCache, lineCache).1)
    ensures AllRequestsStrings(requests) && AllWellFormed(ApplyRequests(dir, requests))
    ensures RunSpec(cfg, lines, ApplyRequests(dir, requests), update, dnCache', lineCache').0
            == Success(Report([], [], false))
  {
    ParsedContactsShaped(cfg, lines, 0, [], lineCache);
    var contacts := ParseFrom(cfg, lines, 0, [], lineCache).0.value;
    SecondRunSettled(cfg, dir, contacts, dnCache, requests);
    ParseIgnoresCache(cfg, lines, 0, [], lineCache, lineCache');
    ParsedContactsShaped(cfg, lines, 0, [], lineCache');
  }

  /** The script's state: the two caches the main loop and the functions it calls share. */
  class Reconciler {
    /** `dn_cache`: for each employee number searched for, the dn of the first entry found. */
    var dnCache: map<string, string>
    /** `line_nbr_cache`: for each accepted employee number, the CSV line it was read from. */
    var lineNbrCache: map<string, nat>

    /** Lines 177-178. */
    constructor ()
      ensures dnCache == map[] && lineNbrCache == map[]
    {
      dnCache := map[];
      lineNbrCache := map[];
    }

    /** Lines 13-91, from the lines of the file already read into memory. */
    method ParseCsvContacts(cfg: Config, lines: seq<string>) returns (r: Result<seq<Contact>, Failure>)
      requires Indexable(cfg)
      modifies this`lineNbrCache
      ensures (r, lineNbrCache) == ParseFrom(cfg, lines, 0, [], old(lineNbrCache))
    {
      var contacts: seq<Contact> := [];
      for index := 0 to |lines|
        invariant ParseFrom(cfg, lines, index, contacts, lineNbrCache)
                  == ParseFrom(cfg, lines, 0, [], old(lineNbrCache))
      {
        var records := Split(lines[index], Separator);
        var lineNbr := index + 1;
        var fields := ReadFields(records, cfg.columns);
        if fields.None? {
          return Failure(FieldMissing(lineNbr));
        }
        var f := fields.value;
        if f.employeeNumber == cfg.headerTag {
          continue;
        }
        if Join(records, "") == "\n" {
          continue;
        }
        var rejection := FirstRejection(f);
        if rejection.Some? {
          continue;
        }
        var n := ParseInt(f.employeeNumber);
        if n.None? {
          return Failure(NotAnInteger(lineNbr));
        }
        var employeeNumber := FormatPadded(n.value);
        contacts := contacts + [Normalize(cfg, f, employeeNumber)];
        lineNbrCache := lineNbrCache[employeeNumber := lineNbr];
      }
      return Success(contacts);
    }

    /** Lines 94-112: search by the unique id, cache the dn found, and read the attributes. */
    method GetLdapContact(dir: seq<Entry>, en: string, uid: string, attrs: seq<string>)
      returns (found: Contact)
      requires AllWellFormed(dir)
      modifies this`dnCache
      ensures found == Lookup(Search(dir, uid, en), attrs)
      ensures var results := Search(dir, uid, en);
        dnCache == if results == [] then old(dnCache) else old(dnCache)[en := results[0].dn]
    {
      var results := Search(dir, uid, en);
      found := map[];
      if results != [] {
        assert results[0] in results;
        var attrsFound := results[0].attrs;
        dnCache := dnCache[en := results[0].dn];
        for j := 0 to |attrs|
          invariant found.Keys == set k | k in attrs[..j]
          invariant forall k :: k in found ==> found[k] == FirstValue(attrsFound, k)
        {
          var key := attrs[j];
          assert attrs[..j + 1] == attrs[..j] + [key];
          if key in attrsFound {
            found := found[key := Str(attrsFound[key][0])];
          } else {
            found := found[key := Absent];
          }
        }
        assert attrs[..|attrs|] == attrs;
        assert found == Project(attrsFound, attrs);
      }
    }

    /** Lines 190-204: compare every CSV contact with its directory record and keep the changes. */
    method CollectChanges(cfg: Config, dir: seq<Entry>, contacts: seq<Contact>)
      returns (r: Result<seq<Contact>, Failure>)
      requires ValidConfig(cfg) && AllWellFormed(dir)
      requires forall c :: c in contacts ==> CsvShape(cfg, c)
      modifies this`dnCache
      ensures (r, dnCache) == Collect(cfg, dir, contacts, old(dnCache))
    {
      var uid := cfg.uniqueId;
      var changes: seq<Contact> := [];
      for i := 0 to |contacts|
        invariant (Success(changes), dnCache) == Collect(cfg, dir, contacts[..i], old(dnCache))
      {
        var c := contacts[i];
        assert contacts[..i + 1][..i] == contacts[..i];
        assert contacts[..i + 1][i] == c;
        ShapeHasId(cfg, c);
        var found := GetLdapContact(dir, c[uid].s, uid, cfg.attrs);
        if found != map[] {
          FoundComparable(cfg, dir, c);
          var change := CompareContact(c, found, uid, cfg.attrs);
          if change.Failure? {
            CollectRaisedAt(cfg, dir, contacts, i + 1, old(dnCache));
            return Failure(change.error);
          }
          if change.value != map[] {
            changes := changes + [change.value];
          }
        }
      }
      assert contacts[..|contacts|] == contacts;
      return Success(changes);
    }

    /** Lines 206-208: the CSV line number of every change. */
    method ChangeLines(changes: seq<Contact>, uid: string) returns (lineNumbers: seq<nat>)
      requires forall ch: Contact :: ch in changes ==> uid in ch && ch[uid].Str? && ch[uid].s in lineNbrCache
      ensures lineNumbers == LineNumbers(changes, uid, lineNbrCache)
    {
      lineNumbers := [];
      for j := 0 to |changes|
        invariant lineNumbers == LineNumbers(changes[..j], uid, lineNbrCache)
      {
        assert changes[..j + 1][..j] == changes[..j];
        lineNumbers := lineNumbers + [lineNbrCache[changes[j][uid].s]];
      }
      assert changes[..|changes|] == changes;
    }

    /** Lines 213-214: one `modify_s` per change, in the order the changes were found. */
    method UpdateAll(changes: seq<Contact>, uid: string, dir: seq<Entry>)
      returns (requests: seq<Request>, newDir: seq<Entry>)
      requires forall ch: Contact :: ch in changes ==> uid in ch && ch[uid].Str? && ch[uid].s in dnCache
      requires forall ch: Contact, k :: ch in changes && k in ch ==> ch[k].Str?
      ensures RequestsFor(requests, changes, uid, dnCache)
      ensures AllRequestsStrings(requests) && newDir == ApplyRequests(dir, requests)
    {
      requests, newDir := [], dir;
      for j := 0 to |changes|
        invariant |requests| == j
        invariant forall j' :: 0 <= j' < j ==> RequestFor(requests[j'], changes[j'], uid, dnCache)
        invariant AllRequestsStrings(requests) && newDir == ApplyRequests(dir, requests)
      {
        var req := UpdateLdapContact(changes[j], uid, dnCache);
        assert AllStrings(req.mods);
        assert (requests + [req])[..j] == requests;
        requests := requests + [req];
        newDir := Modify(newDir, req.dn, req.mods);
      }
    }

    /**
     * Lines 190-214 against the directory `dir`: the report or the exception,
     * the `modify_s` requests sent, and the directory after them.
     */
    method Run(cfg: Config, lines: seq<string>, dir: seq<Entry>, update: bool)
      returns (r: Result<Report, Failure>, requests: seq<Request>, newDir: seq<Entry>)
      requires ValidConfig(cfg) && AllWellFormed(dir)
      modifies this
      ensures (r, dnCache, lineNbrCache) == RunSpec(cfg, lines, dir, update, old(dnCache), old(lineNbrCache))
      ensures r.Success? && r.value.bound ==> RequestsFor(requests, r.value.changes, cfg.uniqueId, dnCache)
      ensures !(r.Success? && r.value.bound) ==> requests == []
      ensures AllRequestsStrings(requests) && newDir == ApplyRequests(dir, requests)
    {
      requests, newDir := [], dir;
      var parsed := ParseCsvContacts(cfg, lines);
      if parsed.Failure? {
        return Failure(parsed.error), requests, newDir;
      }
      ParsedContactsShaped(cfg, lines, 0, [], old(lineNbrCache));
      var collected := CollectChanges(cfg, dir, parsed.value);
      if collected.Failure? {
        return Failure(collected.error), requests, newDir;
      }
      var changes := collected.value;
      ChangesHaveLines(cfg, dir, parsed.value, old(dnCache), lineNbrCache);
      CollectKeyed(cfg, dir, parsed.value, old(dnCache));
      var lineNumbers := ChangeLines(changes, cfg.uniqueId);
      var bound := update && |changes| > 0;
      if bound {
        requests, newDir := UpdateAll(changes, cfg.uniqueId, dir);
      }
      r := Success(Report(changes, lineNumbers, bound));
    }
  }
}
