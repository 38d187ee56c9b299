/** How the entries of the record cache and the age list hang together: which sets are listed,
    and the back links from a set to its node. */
module CacheLinks {
  import opened Names
  import opened Wrappers
  import opened StableOrder
  import opened CacheEntry

  /** Entries are found by name up to ASCII case. */
  type Key = seq<seq<byte>>

  function KeyOf(name: seq<Label>): Key {
    seq(|name|, i requires 0 <= i < |name| => Fold(name[i]))
  }

  lemma KeySame(a: seq<Label>, b: seq<Label>)
    ensures KeyOf(a) == KeyOf(b) <==> Same(a, b)
  {
    if KeyOf(a) == KeyOf(b) {
      forall i | 0 <= i < |a| ensures Fold(a[i]) == Fold(b[i]) {
        assert KeyOf(a)[i] == KeyOf(b)[i];
      }
    }
  }

  type Ents = map<Key, Cent>

  /** Where a set is: the entry and the array index, -1 for a negative entry as a whole. */
  type Place = (Key, int)

  /** A node of the age list, numbered; ts is what get_rrlent_ts finds. */
  datatype Lent = Lent(id: nat, key: Key, idx: int, ts: int)

  function LentTs(le: Lent): int {
    le.ts
  }

  function PlaceOf(le: Lent): Place {
    (le.key, le.idx)
  }

  /** Everything is listed that is not local. */
  predicate Listable(c: Cent, i: int) {
    && DF_LOCAL !in c.flags
    && if i == -1 then Negative(c) else i >= 0 && At(c, i).Some? && CF_LOCAL !in At(c, i).value.flags
  }

  predicate Wants(e: Ents, p: Place) {
    p.0 in e && Listable(e[p.0], p.1)
  }

  /** Nothing of the entry is there but local data. */
  predicate OnlyLocal(c: Cent) {
    || DF_LOCAL in c.flags
    || (DF_NEGATIVE !in c.flags && forall i: nat :: i < |c.rr| && c.rr[i].Some? ==> CF_LOCAL in c.rr[i].value.flags)
  }

  /** The node stands for set i of the entry c and carries its time; for the denial of the name
      when i is -1. */
  predicate StandsFor(le: Lent, key: Key, c: Cent, i: int) {
    && le.key == key && le.idx == i && DF_LOCAL !in c.flags
    && if i == -1 then DF_NEGATIVE in c.flags && le.ts == c.negTs
       else 0 <= i < |c.rr| && c.rr[i].Some? && CF_LOCAL !in c.rr[i].value.flags && le.ts == c.rr[i].value.ts
  }

  function Stamp(e: Ents, p: Place): int
    requires Wants(e, p)
  {
    if p.1 == -1 then e[p.0].negTs else At(e[p.0], p.1).value.ts
  }

  ghost predicate InList(s: seq<Lent>, key: Key, i: int) {
    exists a :: 0 <= a < |s| && s[a].key == key && s[a].idx == i
  }

  /** Just that is listed which is not local, once, under its own time. */
  ghost predicate Listing(e: Ents, s: seq<Lent>) {
    && (forall a :: 0 <= a < |s| ==> s[a].key in e && StandsFor(s[a], s[a].key, e[s[a].key], s[a].idx))
    && (forall a, b :: 0 <= a < b < |s| ==> s[a].key != s[b].key || s[a].idx != s[b].idx)
    && (forall key, i: nat :: (key in e && DF_LOCAL !in e[key].flags && i < |e[key].rr| && e[key].rr[i].Some?
                               && CF_LOCAL !in e[key].rr[i].value.flags) ==> InList(s, key, i))
    && (forall key :: key in e && DF_LOCAL !in e[key].flags && DF_NEGATIVE in e[key].flags ==> InList(s, key, -1))
  }

  /** Nodes and back links name each other, one to one. */
  ghost predicate Paired(lents: map<Place, nat>, rrl: seq<Lent>) {
    && (forall a, b :: 0 <= a < b < |rrl| ==> rrl[a].id != rrl[b].id)
    && (forall a :: 0 <= a < |rrl| ==> PlaceOf(rrl[a]) in lents && lents[PlaceOf(rrl[a])] == rrl[a].id)
    && (forall p :: p in lents ==> exists a :: 0 <= a < |rrl| && PlaceOf(rrl[a]) == p)
  }

  /** Exactly the sets to be listed are, except those to be skipped, and nodes carry the right
      time. */
  ghost predicate Covers(e: Ents, lents: map<Place, nat>, rrl: seq<Lent>, skip: set<Place>) {
    && (forall p: Place :: p in lents <==> p !in skip && Wants(e, p))
    && (forall a :: 0 <= a < |rrl| ==> Wants(e, PlaceOf(rrl[a])) && rrl[a].ts == Stamp(e, PlaceOf(rrl[a])))
  }

  ghost predicate Mesh(e: Ents, lents: map<Place, nat>, rrl: seq<Lent>, skip: set<Place>) {
    Paired(lents, rrl) && Covers(e, lents, rrl, skip)
  }

  lemma NodesStand(e: Ents, lents: map<Place, nat>, rrl: seq<Lent>)
    requires Mesh(e, lents, rrl, {})
    ensures forall a :: 0 <= a < |rrl| ==> rrl[a].key in e && StandsFor(rrl[a], rrl[a].key, e[rrl[a].key], rrl[a].idx)
  {
    hide Paired;
    forall a | 0 <= a < |rrl| ensures rrl[a].key in e && StandsFor(rrl[a], rrl[a].key, e[rrl[a].key], rrl[a].idx) {
      assert Wants(e, PlaceOf(rrl[a])) && rrl[a].ts == Stamp(e, PlaceOf(rrl[a]));
    }
  }

  lemma PlaceListed(e: Ents, lents: map<Place, nat>, rrl: seq<Lent>, p: Place)
    requires Mesh(e, lents, rrl, {}) && Wants(e, p)
    ensures InList(rrl, p.0, p.1)
  {
    hide Wants;
    assert p in lents;
    var a :| 0 <= a < |rrl| && PlaceOf(rrl[a]) == p;
    assert rrl[a].key == p.0 && rrl[a].idx == p.1;
  }

  lemma WantedListed(e: Ents, lents: map<Place, nat>, rrl: seq<Lent>)
    requires Mesh(e, lents, rrl, {})
    ensures forall key, i: nat :: (key in e && DF_LOCAL !in e[key].flags && i < |e[key].rr| && e[key].rr[i].Some?
                                   && CF_LOCAL !in e[key].rr[i].value.flags) ==> InList(rrl, key, i)
    ensures forall key :: key in e && DF_LOCAL !in e[key].flags && DF_NEGATIVE in e[key].flags ==> InList(rrl, key, -1)
  {
    hide Mesh, InList;
    forall key, i: nat | key in e && DF_LOCAL !in e[key].flags && i < |e[key].rr| && e[key].rr[i].Some?
      && CF_LOCAL !in e[key].rr[i].value.flags ensures InList(rrl, key, i) {
      PlaceListed(e, lents, rrl, (key, i));
    }
    forall key | key in e && DF_LOCAL !in e[key].flags && DF_NEGATIVE in e[key].flags ensures InList(rrl, key, -1) {
      PlaceListed(e, lents, rrl, (key, -1));
    }
  }

  lemma MeshParts(e: Ents, lents: map<Place, nat>, rrl: seq<Lent>, skip: set<Place>)
    requires Mesh(e, lents, rrl, skip)
    ensures Paired(lents, rrl) && forall p: Place :: p in lents <==> p !in skip && Wants(e, p)
  {
  }

  lemma MeshListing(e: Ents, lents: map<Place, nat>, rrl: seq<Lent>)
    requires Mesh(e, lents, rrl, {})
    ensures Listing(e, rrl)
  {
    hide Mesh, Covers, InList, StandsFor;
    NodesStand(e, lents, rrl);
    WantedListed(e, lents, rrl);
    MeshParts(e, lents, rrl, {});
    PlacesApart(lents, rrl);
  }

  lemma PlacesApart(lents: map<Place, nat>, rrl: seq<Lent>)
    requires Paired(lents, rrl)
    ensures forall a, b :: 0 <= a < b < |rrl| ==> rrl[a].key != rrl[b].key || rrl[a].idx != rrl[b].idx
  {
    forall a, b | 0 <= a < b < |rrl| ensures rrl[a].key != rrl[b].key || rrl[a].idx != rrl[b].idx {
      assert rrl[a].id != rrl[b].id;
      assert lents[PlaceOf(rrl[a])] == rrl[a].id && lents[PlaceOf(rrl[b])] == rrl[b].id;
    }
  }

  lemma NoneListed(e: Ents, s: seq<Lent>)
    requires Listing(e, s) && s == []
    ensures forall key :: key in e ==> OnlyLocal(e[key])
  {
    forall key | key in e ensures OnlyLocal(e[key]) {
      assert !InList(s, key, -1);
      assert forall i: nat :: !InList(s, key, i);
    }
  }

  lemma InOrder(s: seq<Lent>)
    ensures Sorted(LentTs, s) <==> forall a, b :: 0 <= a < b < |s| ==> s[a].ts <= s[b].ts
  {
  }

  function RemoveAt(rrl: seq<Lent>, n: nat): seq<Lent>
    requires n < |rrl|
  {
    rrl[..n] + rrl[n + 1..]
  }

  function InsertAt(rrl: seq<Lent>, n: nat, le: Lent): seq<Lent>
    requires n <= |rrl|
  {
    rrl[..n] + [le] + rrl[n..]
  }

  /** The two pictures want the same places listed at the same times, `but` aside. */
  ghost predicate Alike(e: Ents, skip: set<Place>, e': Ents, skip': set<Place>, but: set<Place>) {
    forall p: Place :: p !in but ==>
      && ((p !in skip && Wants(e, p)) <==> (p !in skip' && Wants(e', p)))
      && (p !in skip && Wants(e, p) ==> Stamp(e, p) == Stamp(e', p))
  }

  lemma MeshSame(e: Ents, skip: set<Place>, e': Ents, skip': set<Place>, lents: map<Place, nat>, rrl: seq<Lent>)
    requires Mesh(e, lents, rrl, skip) && Alike(e, skip, e', skip', {})
    ensures Mesh(e', lents, rrl, skip')
  {
    forall a | 0 <= a < |rrl|
      ensures Wants(e', PlaceOf(rrl[a])) && rrl[a].ts == Stamp(e', PlaceOf(rrl[a]))
    {
      assert PlaceOf(rrl[a]) in lents;
    }
  }

  lemma PairedRemove(lents: map<Place, nat>, rrl: seq<Lent>, n: nat)
    requires Paired(lents, rrl) && n < |rrl|
    ensures Paired(lents - {PlaceOf(rrl[n])}, RemoveAt(rrl, n))
    ensures forall a :: 0 <= a < |rrl| && a != n ==> PlaceOf(rrl[a]) != PlaceOf(rrl[n])
  {
    var p := PlaceOf(rrl[n]);
    var l', r' := lents - {p}, RemoveAt(rrl, n);
    forall a | 0 <= a < |rrl| && a != n ensures PlaceOf(rrl[a]) != p {
      assert rrl[a].id != rrl[n].id;
    }
    forall a | 0 <= a < |r'| ensures PlaceOf(r'[a]) in l' && l'[PlaceOf(r'[a])] == r'[a].id {
      assert r'[a] == rrl[if a < n then a else a + 1];
    }
    hide PlaceOf;
    forall q | q in l' ensures exists a :: 0 <= a < |r'| && PlaceOf(r'[a]) == q {
      RemainingPlace(lents, rrl, n, q);
    }
  }

  lemma RemainingPlace(lents: map<Place, nat>, rrl: seq<Lent>, n: nat, q: Place)
    requires Paired(lents, rrl) && n < |rrl| && q in lents && q != PlaceOf(rrl[n])
    ensures var r' := RemoveAt(rrl, n); exists a :: 0 <= a < |r'| && PlaceOf(r'[a]) == q
  {
    hide PlaceOf;
    var r' := RemoveAt(rrl, n);
    var b :| 0 <= b < |rrl| && PlaceOf(rrl[b]) == q;
    assert r'[if b < n then b else b - 1] == rrl[b];
  }

  /** A set is taken off the list. */
  lemma MeshRemove(e: Ents, skip: set<Place>, e': Ents, skip': set<Place>, lents: map<Place, nat>, rrl: seq<Lent>,
      n: nat)
    requires Mesh(e, lents, rrl, skip) && n < |rrl|
    requires Alike(e, skip, e', skip', {PlaceOf(rrl[n])})
    requires PlaceOf(rrl[n]) in skip' || !Wants(e', PlaceOf(rrl[n]))
    ensures Mesh(e', lents - {PlaceOf(rrl[n])}, RemoveAt(rrl, n), skip')
  {
    PairedRemove(lents, rrl, n);
    var r' := RemoveAt(rrl, n);
    forall a | 0 <= a < |r'|
      ensures Wants(e', PlaceOf(r'[a])) && r'[a].ts == Stamp(e', PlaceOf(r'[a]))
    {
      var b := if a < n then a else a + 1;
      assert r'[a] == rrl[b] && PlaceOf(rrl[b]) in lents;
    }
  }

  lemma InsertedAt(rrl: seq<Lent>, n: nat, le: Lent)
    requires n <= |rrl|
    ensures |InsertAt(rrl, n, le)| == |rrl| + 1
    ensures forall a :: 0 <= a <= |rrl| ==>
      InsertAt(rrl, n, le)[a] == if a < n then rrl[a] else if a == n then le else rrl[a - 1]
  {
  }

  lemma PairedInsert(lents: map<Place, nat>, rrl: seq<Lent>, n: nat, le: Lent)
    requires Paired(lents, rrl) && n <= |rrl| && PlaceOf(le) !in lents
    requires forall a :: 0 <= a < |rrl| ==> rrl[a].id != le.id
    ensures Paired(lents[PlaceOf(le) := le.id], InsertAt(rrl, n, le))
  {
    hide PlaceOf;
    var l', r' := lents[PlaceOf(le) := le.id], InsertAt(rrl, n, le);
    InsertedAt(rrl, n, le);
    forall p | p in l' ensures exists a :: 0 <= a < |r'| && PlaceOf(r'[a]) == p {
      InsertedPlace(lents, rrl, n, le, p);
    }
  }

  lemma InsertedPlace(lents: map<Place, nat>, rrl: seq<Lent>, n: nat, le: Lent, p: Place)
    requires Paired(lents, rrl) && n <= |rrl| && (p == PlaceOf(le) || p in lents)
    ensures var r' := InsertAt(rrl, n, le); exists a :: 0 <= a < |r'| && PlaceOf(r'[a]) == p
  {
    hide PlaceOf;
    var r' := InsertAt(rrl, n, le);
    if p == PlaceOf(le) {
      assert r'[n] == le;
    } else {
      var b :| 0 <= b < |rrl| && PlaceOf(rrl[b]) == p;
      assert r'[if b < n then b else b + 1] == rrl[b];
    }
  }

  /** A skipped set is put on the list. */
  lemma MeshInsert(e: Ents, skip: set<Place>, lents: map<Place, nat>, rrl: seq<Lent>, n: nat, le: Lent)
    requires Mesh(e, lents, rrl, skip) && n <= |rrl|
    requires forall a :: 0 <= a < |rrl| ==> rrl[a].id != le.id
    requires PlaceOf(le) in skip && Wants(e, PlaceOf(le)) && le.ts == Stamp(e, PlaceOf(le))
    ensures Mesh(e, lents[PlaceOf(le) := le.id], InsertAt(rrl, n, le), skip - {PlaceOf(le)})
  {
    hide Paired, Wants, Stamp;
    assert PlaceOf(le) !in lents;
    PairedInsert(lents, rrl, n, le);
    var r' := InsertAt(rrl, n, le);
    forall a | 0 <= a < |r'| ensures Wants(e, PlaceOf(r'[a])) && r'[a].ts == Stamp(e, PlaceOf(r'[a])) {
      assert r'[a] == if a < n then rrl[a] else if a == n then le else rrl[a - 1];
    }
  }

  /** The list with a node inserted in order, or appended. */
  function Extended(rrl: seq<Lent>, le: Lent, sort: bool): seq<Lent> {
    if sort then Insert(LentTs, rrl, le) else rrl + [le]
  }

  lemma MeshExtended(e: Ents, skip: set<Place>, lents: map<Place, nat>, rrl: seq<Lent>, le: Lent, sort: bool)
    requires Mesh(e, lents, rrl, skip)
    requires forall a :: 0 <= a < |rrl| ==> rrl[a].id < le.id
    requires PlaceOf(le) in skip && Wants(e, PlaceOf(le)) && le.ts == Stamp(e, PlaceOf(le))
    ensures Mesh(e, lents[PlaceOf(le) := le.id], Extended(rrl, le, sort), skip - {PlaceOf(le)})
    ensures forall a :: 0 <= a < |Extended(rrl, le, sort)| ==> Extended(rrl, le, sort)[a].id < le.id + 1
    ensures sort && Sorted(LentTs, rrl) ==> Sorted(LentTs, Extended(rrl, le, sort))
  {
    var n: nat := if sort then InsertPos(LentTs, rrl, LentTs(le)) else |rrl|;
    assert Extended(rrl, le, sort) == InsertAt(rrl, n, le);
    if sort && Sorted(LentTs, rrl) {
      InsertKeeps(LentTs, rrl, le);
    }
    hide Mesh, Sorted, Insert, InsertPos, Extended, Wants, Stamp;
    MeshInsert(e, skip, lents, rrl, n, le);
  }

  lemma UniquePlace(rrl: seq<Lent>, lents: map<Place, nat>)
    requires Paired(lents, rrl)
    ensures forall a, b :: 0 <= a < |rrl| && 0 <= b < |rrl| && PlaceOf(rrl[a]) == PlaceOf(rrl[b]) ==> a == b
  {
  }

  lemma SortedRemove(rrl: seq<Lent>, n: nat)
    requires Sorted(LentTs, rrl) && n < |rrl|
    ensures Sorted(LentTs, RemoveAt(rrl, n))
  {
  }

  /** The list without the nodes of one entry. */
  function WithoutKey(rrl: seq<Lent>, key: Key): (r: seq<Lent>)
    ensures |r| <= |rrl|
  {
    if rrl == [] then []
    else (if rrl[0].key == key then [] else [rrl[0]]) + WithoutKey(rrl[1..], key)
  }

  lemma {:induction false} WithoutKeyNone(rrl: seq<Lent>, key: Key)
    requires forall a :: 0 <= a < |rrl| ==> rrl[a].key != key
    ensures WithoutKey(rrl, key) == rrl
  {
    if rrl != [] {
      forall a | 0 <= a < |rrl[1..]| ensures rrl[1..][a].key != key {
        assert rrl[1..][a] == rrl[a + 1];
      }
      WithoutKeyNone(rrl[1..], key);
      assert rrl == [rrl[0]] + rrl[1..];
    }
  }

  lemma {:induction false} WithoutKeyRemove(rrl: seq<Lent>, key: Key, n: nat)
    requires n < |rrl| && rrl[n].key == key
    ensures WithoutKey(RemoveAt(rrl, n), key) == WithoutKey(rrl, key)
  {
    if n == 0 {
      assert RemoveAt(rrl, 0) == rrl[1..];
    } else {
      assert RemoveAt(rrl, n)[1..] == RemoveAt(rrl[1..], n - 1);
      WithoutKeyRemove(rrl[1..], key, n - 1);
    }
  }

  /** A permutation of the list hangs together as well. */
  lemma MeshPermuted(e: Ents, skip: set<Place>, lents: map<Place, nat>, rrl: seq<Lent>, r: seq<Lent>)
    requires Mesh(e, lents, rrl, skip) && multiset(r) == multiset(rrl)
    ensures Mesh(e, lents, r, skip)
    ensures forall a :: 0 <= a < |r| ==> r[a] in rrl
  {
    forall a | 0 <= a < |r| ensures r[a] in rrl {
      assert r[a] in multiset(r);
    }
    forall p | p in lents ensures exists a :: 0 <= a < |r| && PlaceOf(r[a]) == p {
      var b :| 0 <= b < |rrl| && PlaceOf(rrl[b]) == p;
      assert rrl[b] in multiset(rrl);
      var a :| 0 <= a < |r| && r[a] == rrl[b];
    }
    forall a, b | 0 <= a < b < |r| ensures r[a].id != r[b].id {
      PermutedApart(rrl, r, a, b);
    }
  }

  lemma PermutedApart(rrl: seq<Lent>, r: seq<Lent>, a: nat, b: nat)
    requires multiset(r) == multiset(rrl) && a < b < |r|
    requires forall a, b :: 0 <= a < b < |rrl| ==> rrl[a].id != rrl[b].id
    ensures r[a].id != r[b].id
  {
    assert r[a] in multiset(r) && r[b] in multiset(r);
    var i :| 0 <= i < |rrl| && rrl[i] == r[a];
    var j :| 0 <= j < |rrl| && rrl[j] == r[b];
    OnceOnly(rrl, i);
    assert r == r[..b] + r[b..] && r[a] in r[..b] && r[b] in r[b..];
    assert multiset(r)[r[a]] == multiset(r[..b])[r[a]] + multiset(r[b..])[r[a]];
    assert multiset(r[..b])[r[a]] > 0 && multiset(r[b..])[r[b]] > 0;
  }

  lemma OnceOnly(rrl: seq<Lent>, i: nat)
    requires forall a, b :: 0 <= a < b < |rrl| ==> rrl[a].id != rrl[b].id
    requires i < |rrl|
    ensures multiset(rrl)[rrl[i]] == 1
  {
    assert rrl == rrl[..i] + [rrl[i]] + rrl[i + 1..];
    assert rrl[i] !in rrl[..i] && rrl[i] !in rrl[i + 1..];
    assert multiset(rrl[..i])[rrl[i]] == 0 && multiset(rrl[i + 1..])[rrl[i]] == 0;
  }

  // ---------- the sum of the entry sizes ----------

  ghost function Total(e: Ents): int {
    if e == map[] then 0 else var k :| k in e; e[k].cs + Total(e - {k})
  }

  lemma {:induction false} TotalRemove(e: Ents, k: Key)
    requires k in e
    ensures Total(e) == e[k].cs + Total(e - {k})
    decreases |e|
  {
    var j :| j in e && Total(e) == e[j].cs + Total(e - {j});
    if j != k {
      TotalRemove(e - {j}, k);
      TotalRemove(e - {k}, j);
      assert e - {j} - {k} == e - {k} - {j};
    }
  }

  lemma TotalUpdate(e: Ents, k: Key, c: Cent)
    ensures Total(e[k := c]) == Total(e) - (if k in e then e[k].cs else 0) + c.cs
  {
    TotalRemove(e[k := c], k);
    assert e[k := c] - {k} == e - {k};
    if k in e {
      TotalRemove(e, k);
    } else {
      assert e - {k} == e;
    }
  }
}
