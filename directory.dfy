/**
 * An in-memory stand-in for the LDAP server: the entries a subtree search
 * walks, the search by `uid=value` filter, and `modify_s` with a list of
 * `MOD_REPLACE` modifications.
 */
module Directory {
  import opened Contacts

  /** A directory entry: its dn and, per attribute, its list of values. */
  datatype Entry = Entry(dn: string, attrs: map<string, seq<string>>)

  /** An LDAP server never hands back an attribute with no values. */
  predicate WellFormed(e: Entry) {
    forall k :: k in e.attrs ==> |e.attrs[k]| > 0
  }

  predicate Matches(e: Entry, uid: string, value: string) {
    uid in e.attrs && value in e.attrs[uid]
  }

  /** `search_s(base, SCOPE_SUBTREE, 'uid=value', attrs)`: the matching entries, in directory order. */
  function Search(dir: seq<Entry>, uid: string, value: string): (r: seq<Entry>)
    ensures forall e :: e in r ==> e in dir && Matches(e, uid, value)
    ensures forall e :: e in dir && Matches(e, uid, value) ==> e in r
  {
    if dir == [] then []
    else if Matches(dir[0], uid, value) then [dir[0]] + Search(dir[1..], uid, value)
    else Search(dir[1..], uid, value)
  }

  /** The first result is the first entry, in directory order, that holds the value. */
  lemma {:induction false} SearchFirst(dir: seq<Entry>, uid: string, value: string)
    ensures var r := Search(dir, uid, value);
      r != [] ==> exists p :: 0 <= p < |dir| && r[0] == dir[p] && Matches(dir[p], uid, value)
                    && forall q :: 0 <= q < p ==> !Matches(dir[q], uid, value)
  {
    if dir != [] && !Matches(dir[0], uid, value) {
      var r := Search(dir[1..], uid, value);
      SearchFirst(dir[1..], uid, value);
      if r != [] {
        var p :| 0 <= p < |dir[1..]| && r[0] == dir[1..][p] && Matches(dir[1..][p], uid, value)
                 && forall q :: 0 <= q < p ==> !Matches(dir[1..][q], uid, value);
        assert forall q :: 1 <= q < p + 1 ==> dir[q] == dir[1..][q - 1];
        assert Search(dir, uid, value) == r && r[0] == dir[p + 1];
        assert forall q :: 0 <= q < p + 1 ==> !Matches(dir[q], uid, value);
      }
    } else if dir != [] {
      assert Search(dir, uid, value)[0] == dir[0];
    }
  }

  /** No two entries hold the same value of the id attribute. */
  ghost predicate IdsUnique(dir: seq<Entry>, uid: string) {
    forall p, q, v :: 0 <= p < q < |dir| && Matches(dir[p], uid, v) ==> !Matches(dir[q], uid, v)
  }

  /** When no two entries share an id, a search finds at most one entry. */
  lemma {:induction false} SearchAtMostOne(dir: seq<Entry>, uid: string, value: string)
    requires IdsUnique(dir, uid)
    ensures |Search(dir, uid, value)| <= 1
  {
    if dir != [] {
      var rest := dir[1..];
      assert IdsUnique(rest, uid) by {
        forall p, q, v | 0 <= p < q < |rest| && Matches(rest[p], uid, v) ensures !Matches(rest[q], uid, v) {
          assert rest[p] == dir[p + 1] && rest[q] == dir[q + 1];
        }
      }
      SearchAtMostOne(rest, uid, value);
      if Matches(dir[0], uid, value) {
        SearchNone(rest, uid, value);
      }
    }
  }

  /** A search finds nothing in a directory where no entry holds the value. */
  lemma {:induction false} SearchNone(dir: seq<Entry>, uid: string, value: string)
    requires forall q :: 0 <= q < |dir| ==> !Matches(dir[q], uid, value)
    ensures Search(dir, uid, value) == []
  {
    if dir != [] {
      SearchNone(dir[1..], uid, value);
    }
  }

  /**
   * The subtree search promises no order. When no two entries share an id,
   * every ordering of the results is the one the model returns.
   */
  lemma SearchOrderIrrelevant(dir: seq<Entry>, uid: string, value: string, r: seq<Entry>)
    requires IdsUnique(dir, uid)
    requires multiset(r) == multiset(Search(dir, uid, value))
    ensures r == Search(dir, uid, value)
  {
    SearchAtMostOne(dir, uid, value);
    var s := Search(dir, uid, value);
    assert |r| == |multiset(r)| == |multiset(s)| == |s|;
    if |s| == 1 {
      assert r[0] in multiset(s);
      assert r == [r[0]] && s == [s[0]];
    }
  }

  /** `ldap.MOD_REPLACE`, the one modification the reconciliation sends. */
  datatype ModOp = Replace

  /** One `(op, attribute, value)` triple of a modification list. */
  datatype Mod = Mod(op: ModOp, attr: string, value: Value)

  /** A `modify_s` call: the dn it targets and its modification list. */
  datatype Request = Request(dn: string, mods: seq<Mod>)

  /**
   * `mods` replaces exactly the attributes of `m`, each once, with its value
   * in `m`, in some order.
   */
  predicate ReplacesExactly(mods: seq<Mod>, m: map<string, Value>) {
    && (forall j :: 0 <= j < |mods| ==> mods[j].op == Replace && mods[j].attr in m && mods[j].value == m[mods[j].attr])
    && (forall j, j' :: 0 <= j < j' < |mods| ==> mods[j].attr != mods[j'].attr)
    && (forall k :: k in m ==> exists j :: 0 <= j < |mods| && mods[j].attr == k)
  }

  predicate AllStrings(mods: seq<Mod>) {
    forall j :: 0 <= j < |mods| ==> mods[j].value.Str?
  }

  /** The attributes of an entry after the server applies `mods` in order. */
  function ApplyMods(attrs: map<string, seq<string>>, mods: seq<Mod>): map<string, seq<string>>
    requires AllStrings(mods)
    decreases |mods|
  {
    if mods == [] then attrs
    else ApplyMods(attrs[mods[0].attr := [mods[0].value.s]], mods[1..])
  }

  /** `modify_s(dn, mods)`: the entry named `dn` has `mods` applied, every other entry is untouched. */
  function Modify(dir: seq<Entry>, dn: string, mods: seq<Mod>): (r: seq<Entry>)
    requires AllStrings(mods)
    ensures |r| == |dir|
    ensures forall p :: 0 <= p < |dir| ==>
              r[p] == if dir[p].dn == dn then Entry(dn, ApplyMods(dir[p].attrs, mods)) else dir[p]
  {
    if dir == [] then []
    else [if dir[0].dn == dn then Entry(dn, ApplyMods(dir[0].attrs, mods)) else dir[0]]
         + Modify(dir[1..], dn, mods)
  }

  predicate AllRequestsStrings(reqs: seq<Request>) {
    forall j :: 0 <= j < |reqs| ==> AllStrings(reqs[j].mods)
  }

  /** The directory after a batch of `modify_s` calls, made in order. */
  function ApplyRequests(dir: seq<Entry>, reqs: seq<Request>): (r: seq<Entry>)
    requires AllRequestsStrings(reqs)
    ensures |r| == |dir|
    decreases |reqs|
  {
    if reqs == [] then dir
    else
      var last := reqs[|reqs| - 1];
      Modify(ApplyRequests(dir, reqs[..|reqs| - 1]), last.dn, last.mods)
  }

  /** The values a replacement map writes: each attribute gets its one value. */
  function NewValues(m: map<string, Value>): (r: map<string, seq<string>>)
    requires forall k :: k in m ==> m[k].Str?
    ensures r.Keys == m.Keys && forall k :: k in r ==> r[k] == [m[k].s]
  {
    map k | k in m :: [m[k].s]
  }

  /**
   * Replacing each attribute of `m` once, in any order, sets every attribute
   * of `m` to the one value `m` gives it and leaves every other attribute alone.
   */
  lemma {:induction false} ApplyModsAsMap(attrs: map<string, seq<string>>, mods: seq<Mod>, m: map<string, Value>)
    requires ReplacesExactly(mods, m)
    requires forall k :: k in m ==> m[k].Str?
    ensures AllStrings(mods)
    ensures ApplyMods(attrs, mods) == attrs + NewValues(m)
    decreases |mods|
  {
    if mods == [] {
      assert m.Keys == {};
      assert NewValues(m) == map[];
    } else {
      var a := mods[0].attr;
      var rest := m - {a};
      ReplacesTail(mods, m);
      var attrs' := attrs[a := [m[a].s]];
      ApplyModsAsMap(attrs', mods[1..], rest);
      assert ApplyMods(attrs, mods) == ApplyMods(attrs', mods[1..]);
      OverrideOne(attrs, m, a);
    }
  }

  /** Writing one attribute first, then the rest of the map, is writing the whole map. */
  lemma OverrideOne(attrs: map<string, seq<string>>, m: map<string, Value>, a: string)
    requires forall k :: k in m ==> m[k].Str?
    requires a in m
    ensures attrs[a := [m[a].s]] + NewValues(m - {a}) == attrs + NewValues(m)
  {
    var lhs := attrs[a := [m[a].s]] + NewValues(m - {a});
    var rhs := attrs + NewValues(m);
    assert lhs.Keys == rhs.Keys;
    assert forall k :: k in lhs ==> lhs[k] == rhs[k];
  }

  /** Dropping the first modification leaves a list that replaces the rest of the map. */
  lemma ReplacesTail(mods: seq<Mod>, m: map<string, Value>)
    requires mods != [] && ReplacesExactly(mods, m)
    ensures mods[0].attr in m && mods[0].value == m[mods[0].attr]
    ensures ReplacesExactly(mods[1..], m - {mods[0].attr})
  {
    var a := mods[0].attr;
    var rest := m - {a};
    forall k | k in rest ensures exists j :: 0 <= j < |mods[1..]| && mods[1..][j].attr == k {
      var j :| 0 <= j < |mods| && mods[j].attr == k;
      assert j != 0;
      assert mods[1..][j - 1].attr == k;
    }
    forall j | 0 <= j < |mods[1..]|
      ensures mods[1..][j].attr in rest && mods[1..][j].value == rest[mods[1..][j].attr]
    {
      assert mods[1..][j] == mods[j + 1];
      assert mods[0].attr != mods[j + 1].attr;
    }
    forall j, j' | 0 <= j < j' < |mods[1..]| ensures mods[1..][j].attr != mods[1..][j'].attr {
      assert mods[1..][j] == mods[j + 1] && mods[1..][j'] == mods[j' + 1];
    }
  }

  /** Modifications keep every entry's dn and leave an attribute no modification names as it was. */
  lemma {:induction false} ApplyModsKeeps(attrs: map<string, seq<string>>, mods: seq<Mod>, k: string)
    requires AllStrings(mods)
    requires forall j :: 0 <= j < |mods| ==> mods[j].attr != k
    ensures (k in ApplyMods(attrs, mods) <==> k in attrs)
    ensures k in attrs ==> ApplyMods(attrs, mods)[k] == attrs[k]
    decreases |mods|
  {
    if mods != [] {
      ApplyModsKeeps(attrs[mods[0].attr := [mods[0].value.s]], mods[1..], k);
    }
  }

  /** Replacing values never leaves an attribute without values. */
  lemma {:induction false} ApplyModsWellFormed(attrs: map<string, seq<string>>, mods: seq<Mod>)
    requires AllStrings(mods)
    requires WellFormed(Entry("", attrs))
    ensures WellFormed(Entry("", ApplyMods(attrs, mods)))
    decreases |mods|
  {
    if mods != [] {
      ApplyModsWellFormed(attrs[mods[0].attr := [mods[0].value.s]], mods[1..]);
    }
  }

  /** One entry after the batch: the requests naming its dn, applied in order. */
  function EntryAfter(e: Entry, reqs: seq<Request>): Entry
    requires AllRequestsStrings(reqs)
    decreases |reqs|
  {
    if reqs == [] then e
    else
      var prev := EntryAfter(e, reqs[..|reqs| - 1]);
      var last := reqs[|reqs| - 1];
      if prev.dn == last.dn then Entry(last.dn, ApplyMods(prev.attrs, last.mods)) else prev
  }

  /** A batch of modifications acts on each entry on its own, and keeps the directory's length. */
  lemma {:induction false} ApplyRequestsAt(dir: seq<Entry>, reqs: seq<Request>, p: nat)
    requires AllRequestsStrings(reqs)
    requires p < |dir|
    ensures |ApplyRequests(dir, reqs)| == |dir|
    ensures ApplyRequests(dir, reqs)[p] == EntryAfter(dir[p], reqs)
    decreases |reqs|
  {
    if reqs != [] {
      ApplyRequestsAt(dir, reqs[..|reqs| - 1], p);
    }
  }

  /** The dn of an entry is never changed by a modification. */
  lemma {:induction false} EntryAfterDn(e: Entry, reqs: seq<Request>)
    requires AllRequestsStrings(reqs)
    ensures EntryAfter(e, reqs).dn == e.dn
    decreases |reqs|
  {
    if reqs != [] {
      EntryAfterDn(e, reqs[..|reqs| - 1]);
    }
  }

  /**
   * When every request naming the entry's dn replaces exactly the attributes
   * of one map `m`, the entry ends up with `m` written over it if any request
   * names it, and unchanged otherwise.
   */
  lemma {:induction false} EntryAfterSame(e: Entry, reqs: seq<Request>, m: map<string, Value>)
    requires AllRequestsStrings(reqs)
    requires forall k :: k in m ==> m[k].Str?
    requires forall j :: 0 <= j < |reqs| && reqs[j].dn == e.dn ==> ReplacesExactly(reqs[j].mods, m)
    ensures (exists j :: 0 <= j < |reqs| && reqs[j].dn == e.dn) ==>
              EntryAfter(e, reqs) == Entry(e.dn, e.attrs + NewValues(m))
    ensures (forall j :: 0 <= j < |reqs| ==> reqs[j].dn != e.dn) ==> EntryAfter(e, reqs) == e
    decreases |reqs|
  {
    if reqs != [] {
      var n := |reqs| - 1;
      var prefix := reqs[..n];
      assert forall j :: 0 <= j < n ==> prefix[j] == reqs[j];
      EntryAfterSame(e, prefix, m);
      EntryAfterDn(e, prefix);
      var prev := EntryAfter(e, prefix);
      if reqs[n].dn == e.dn {
        ApplyModsAsMap(prev.attrs, reqs[n].mods, m);
        OverrideTwice(e.attrs, NewValues(m));
      } else if exists j :: 0 <= j < |reqs| && reqs[j].dn == e.dn {
        var j :| 0 <= j < |reqs| && reqs[j].dn == e.dn;
        assert prefix[j].dn == e.dn;
      }
    }
  }

  /** Writing the same values a second time changes nothing. */
  lemma OverrideTwice(a: map<string, seq<string>>, b: map<string, seq<string>>)
    ensures a + b + b == a + b
  {
    assert (a + b + b).Keys == (a + b).Keys;
  }

  /** An attribute that no modification of the batch names keeps its values. */
  lemma {:induction false} EntryAfterKeeps(e: Entry, reqs: seq<Request>, k: string)
    requires AllRequestsStrings(reqs)
    requires forall j, i :: 0 <= j < |reqs| && 0 <= i < |reqs[j].mods| ==> reqs[j].mods[i].attr != k
    ensures (k in EntryAfter(e, reqs).attrs <==> k in e.attrs)
    ensures k in e.attrs ==> EntryAfter(e, reqs).attrs[k] == e.attrs[k]
    decreases |reqs|
  {
    if reqs != [] {
      var n := |reqs| - 1;
      assert forall j :: 0 <= j < n ==> reqs[..n][j] == reqs[j];
      EntryAfterKeeps(e, reqs[..n], k);
      ApplyModsKeeps(EntryAfter(e, reqs[..n]).attrs, reqs[n].mods, k);
    }
  }

  /** A batch of modifications never leaves an attribute without values. */
  lemma {:induction false} EntryAfterWellFormed(e: Entry, reqs: seq<Request>)
    requires AllRequestsStrings(reqs) && WellFormed(e)
    ensures WellFormed(EntryAfter(e, reqs))
    decreases |reqs|
  {
    if reqs != [] {
      var n := |reqs| - 1;
      EntryAfterWellFormed(e, reqs[..n]);
      var prev := EntryAfter(e, reqs[..n]);
      assert WellFormed(Entry("", prev.attrs));
      ApplyModsWellFormed(prev.attrs, reqs[n].mods);
    }
  }

  /** The search returns first the first entry that matches. */
  lemma SearchHead(dir: seq<Entry>, uid: string, value: string, p: nat)
    requires p < |dir| && Matches(dir[p], uid, value)
    requires forall q :: 0 <= q < p ==> !Matches(dir[q], uid, value)
    ensures Search(dir, uid, value) != [] && Search(dir, uid, value)[0] == dir[p]
  {
    var r := Search(dir, uid, value);
    assert dir[p] in dir;
    SearchFirst(dir, uid, value);
    var p' :| 0 <= p' < |dir| && r[0] == dir[p'] && Matches(dir[p'], uid, value)
              && forall q :: 0 <= q < p' ==> !Matches(dir[q], uid, value);
    assert !(p' < p) && !(p < p');
  }

  /** When one directory's entries match exactly where another's do, a search that finds nothing in one finds nothing in the other. */
  lemma SearchEmptyKept(dir: seq<Entry>, dir': seq<Entry>, uid: string, value: string)
    requires |dir'| == |dir|
    requires forall p :: 0 <= p < |dir| ==> (Matches(dir'[p], uid, value) <==> Matches(dir[p], uid, value))
    requires Search(dir, uid, value) == []
    ensures Search(dir', uid, value) == []
  {
    forall p | 0 <= p < |dir'| ensures !Matches(dir'[p], uid, value) {
      assert dir[p] in dir;
    }
  }
}
