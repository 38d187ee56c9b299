/** What purging does to the entries: expiry of sets that have timed out and eviction of the
    oldest, as functions on the entries, and what both leave alone. */
module CachePurge {
  import opened Names
  import opened Wrappers
  import opened StableOrder
  import opened CacheEntry
  import opened CachePolicy
  import opened CacheLinks

  /** The set at a place is deleted, and the entry with its last set; place -1 is the whole
      entry. */
  function Evict(z: Sizes, e: Ents, p: Place): Ents {
    if p.0 !in e then e
    else if p.1 < 0 then e - {p.0}
    else
      var c := DelSet(z, e[p.0], p.1);
      if c.numRrs == 0 then e - {p.0} else e[p.0 := c]
  }

  function EvictAll(z: Sizes, e: Ents, s: seq<Lent>): Ents {
    if s == [] then e else Evict(z, EvictAll(z, e, s[..|s| - 1]), PlaceOf(s[|s| - 1]))
  }

  /** Whether the first pass of purge_cache lets the set or negative entry at p go. */
  predicate Due(e: Ents, p: Place, now: int) {
    && p.0 in e
    && if p.1 < 0 then Negative(e[p.0]) && TimedOut(e[p.0].negTs, e[p.0].negTtl, now)
       else At(e[p.0], p.1).Some? && Gone(At(e[p.0], p.1).value, now)
  }

  function Expire(z: Sizes, e: Ents, p: Place, now: int): Ents {
    if Due(e, p, now) then Evict(z, e, p) else e
  }

  function ExpireAll(z: Sizes, e: Ents, s: seq<Lent>, now: int): Ents {
    if s == [] then e else Expire(z, ExpireAll(z, e, s[..|s| - 1], now), PlaceOf(s[|s| - 1]), now)
  }

  /** Of the nodes s, those that the first pass leaves. */
  function Survive(z: Sizes, e: Ents, s: seq<Lent>, now: int): (r: seq<Lent>)
    ensures |r| <= |s|
  {
    if s == [] then []
    else
      var t, le := s[..|s| - 1], s[|s| - 1];
      Survive(z, e, t, now) + if Due(ExpireAll(z, e, t, now), PlaceOf(le), now) then [] else [le]
  }

  /** purge_cache: the first pass visits m nodes of the list s, all of them unless it is lazy and
      has done enough; if the entries then still take more than sz bytes, the second evicts the
      k oldest of what is left, no more than it takes. */
  ghost predicate PurgedTo(z: Sizes, e: Ents, s: seq<Lent>, sorted: bool, sz: int, lazy: bool, now: int, m: nat, k: nat,
    e': Ents, s': seq<Lent>)
  {
    && m <= |s|
    && (m < |s| ==> lazy && Total(ExpireAll(z, e, s[..m], now)) <= sz)
    && (lazy ==> forall i :: 0 <= i < m ==> Total(ExpireAll(z, e, s[..i], now)) > sz)
    && var e1 := ExpireAll(z, e, s[..m], now);
       var s1 := Survive(z, e, s[..m], now) + s[m..];
       var s2 := if sorted then s1 else InsertAll(LentTs, s1);
       if Total(e1) <= sz then k == 0 && e' == e1 && s' == s1
       else
         && Sorted(LentTs, s2) && k <= |s2| && e' == EvictAll(z, e1, s2[..k]) && s' == s2[k..]
         && (forall i :: 0 <= i < k ==> Total(EvictAll(z, e1, s2[..i])) > sz)
         && (k < |s2| ==> Total(e') <= sz)
  }

  /** Wherever the first pass stops, just what it has visited and is past its time is gone. */
  ghost predicate EachPrefix(z: Sizes, e: Ents, s: seq<Lent>, now: int) {
    forall i: nat :: i <= |s| ==> Expired(e, Places(s[..i]), now, ExpireAll(z, e, s[..i], now))
  }

  lemma OfEach(z: Sizes, e: Ents, s: seq<Lent>, now: int, m: nat)
    requires EachPrefix(z, e, s, now) && m <= |s|
    ensures Expired(e, Places(s[..m]), now, ExpireAll(z, e, s[..m], now))
  {
  }

  /** A lazy purge that finds the cache small enough does nothing at all. */
  lemma SmallEnough(z: Sizes, e: Ents, s: seq<Lent>, sorted: bool, sz: int, now: int, m: nat, k: nat, e': Ents, s': seq<Lent>)
    requires PurgedTo(z, e, s, sorted, sz, true, now, m, k, e', s') && Total(e) <= sz
    ensures e' == e && s' == s
  {
    hide Total, Survive, Sorted, InsertAll, EvictAll;
    SurviveNone(z, e, now);
    assert s[..0] == [];
  }

  lemma SurviveNone(z: Sizes, e: Ents, now: int)
    ensures Survive(z, e, [], now) == [] && ExpireAll(z, e, [], now) == e
  {
  }

  /** The entries differ in their sets, in what is counted of them and in DF_AUTH only. */
  ghost predicate OnlySets(c: Cent, c': Cent) {
    && c' == c.(rr := c'.rr, cs := c'.cs, numRrs := c'.numRrs, flags := c'.flags)
    && c'.flags + {DF_AUTH} == c.flags + {DF_AUTH}
  }

  /** An entry of which nothing is on the age list. */
  ghost predicate Unlisted(c: Cent) {
    forall i: int :: !Listable(c, i)
  }

  /** e' came from e by deleting sets and negative entries that are not local, and entries with
      their last set; nothing else was changed. */
  ghost predicate Shrunk(e: Ents, e': Ents) {
    && (forall k :: k in e' ==> k in e && OnlySets(e[k], e'[k]))
    && (forall k, i: nat :: k in e' ==> At(e'[k], i) == None || At(e'[k], i) == At(e[k], i))
    && (forall k, i: nat :: k in e && At(e[k], i).Some? && !Listable(e[k], i) ==>
          k in e' && At(e'[k], i) == At(e[k], i))
    && (forall k :: k in e && Unlisted(e[k]) ==> k in e' && e'[k] == e[k])
    && (forall k :: k in e' && Hollow(e'[k]) ==> Hollow(e[k]))
  }

  lemma ShrunkSelf(e: Ents)
    ensures Shrunk(e, e)
  {
  }

  lemma ShrunkTwice(a: Ents, b: Ents, c: Ents)
    requires Shrunk(a, b) && Shrunk(b, c)
    ensures Shrunk(a, c)
  {
    forall k, i: nat | k in a && At(a[k], i).Some? && !Listable(a[k], i)
      ensures k in c && At(c[k], i) == At(a[k], i)
    {
      assert k in b && At(b[k], i) == At(a[k], i);
      assert DF_LOCAL in b[k].flags + {DF_AUTH} <==> DF_LOCAL in a[k].flags + {DF_AUTH};
      assert !Listable(b[k], i);
    }
  }

  /** The names with an entry that says nothing. */
  ghost function Hollows(e: Ents): set<Key> {
    set k | k in e && Hollow(e[k])
  }

  /** A positive entry without sets is on no list: no purge makes one, and none gets rid of one. */
  lemma HollowsStay(e: Ents, e': Ents)
    requires Shrunk(e, e')
    ensures Hollows(e') == Hollows(e)
  {
  }

  /** Without its set at i a positive entry is hollow if and only if it has no set left. */
  lemma LastSetGone(z: Sizes, c: Cent, i: nat)
    requires Exact(z, c) && At(c, i).Some?
    ensures var d := DelSet(z, c, i);
      && OnlySets(c, d) && d.flags == c.flags - {DF_AUTH} && !Negative(d)
      && (forall j: nat :: At(d, j) == if j == i then None else At(c, j))
      && (Hollow(d) <==> d.numRrs == 0)
  {
    DelSetExact(z, c, i);
    var d := DelSet(z, c, i);
    CountZero(d.rr);
    if Hollow(d) {
      forall j | 0 <= j < |d.rr| ensures d.rr[j] == None {
        assert d.rr[j] == At(d, j);
      }
    }
  }

  /** Evicting what is listed spares local data. */
  lemma EvictShrinks(z: Sizes, e: Ents, p: Place)
    requires Wants(e, p) && Exact(z, e[p.0])
    ensures Shrunk(e, Evict(z, e, p))
    ensures !Wants(Evict(z, e, p), p)
    ensures forall q: Place :: q != p ==> (Wants(Evict(z, e, p), q) <==> Wants(e, q))
    ensures forall q: Place :: q != p && Wants(e, q) ==> Stamp(Evict(z, e, p), q) == Stamp(e, q)
  {
    hide Exact, DelSet, Negative;
    assert !Unlisted(e[p.0]) by {
      assert Listable(e[p.0], p.1);
    }
    if p.1 >= 0 {
      LastSetGone(z, e[p.0], p.1);
      SetEvicted(z, e, p);
    } else {
      NegEvicted(z, e, p);
    }
  }

  lemma NegEvicted(z: Sizes, e: Ents, p: Place)
    requires Wants(e, p) && Exact(z, e[p.0]) && p.1 == -1
    ensures Shrunk(e, e - {p.0})
    ensures forall q: Place :: q != p ==> (Wants(e - {p.0}, q) <==> Wants(e, q))
  {
    assert !Unlisted(e[p.0]);
  }

  lemma SetEvicted(z: Sizes, e: Ents, p: Place)
    requires Wants(e, p) && Exact(z, e[p.0]) && p.1 >= 0
    ensures Shrunk(e, Evict(z, e, p)) && !Wants(Evict(z, e, p), p)
    ensures forall q: Place :: q != p ==> (Wants(Evict(z, e, p), q) <==> Wants(e, q))
    ensures forall q: Place :: q != p && Wants(e, q) ==> Stamp(Evict(z, e, p), q) == Stamp(e, q)
  {
    LastSetGone(z, e[p.0], p.1);
    assert !Unlisted(e[p.0]) by {
      assert Listable(e[p.0], p.1);
    }
    var d := DelSet(z, e[p.0], p.1);
    hide Exact, DelSet;
    assert forall i: int :: i != p.1 ==> Listable(d, i) == Listable(e[p.0], i);
    if d.numRrs == 0 {
      assert forall i: nat :: At(d, i) == None;
      assert Evict(z, e, p) == e - {p.0};
    } else {
      assert Evict(z, e, p) == e[p.0 := d];
    }
  }

  /** An entry without sets has no nodes, and a negative one just the one. */
  lemma NodesGone(e: Ents, lents: map<Place, nat>, rrl: seq<Lent>, key: Key)
    requires Mesh(e, lents, rrl, {}) && key in e && !Negative(e[key]) && Count(e[key].rr) == 0
    ensures WithoutKey(rrl, key) == rrl
  {
    CountZero(e[key].rr);
    WithoutKeyNone(rrl, key);
  }

  lemma OneNode(e: Ents, lents: map<Place, nat>, rrl: seq<Lent>, n: nat)
    requires Mesh(e, lents, rrl, {}) && n < |rrl| && rrl[n].idx == -1 && e[rrl[n].key].rr == []
    ensures WithoutKey(rrl, rrl[n].key) == RemoveAt(rrl, n)
  {
    var key, r := rrl[n].key, RemoveAt(rrl, n);
    UniquePlace(rrl, lents);
    forall a | 0 <= a < |r| ensures r[a].key != key {
      var b := if a < n then a else a + 1;
      assert r[a] == rrl[b] && Wants(e, PlaceOf(rrl[b]));
      assert PlaceOf(rrl[b]) != PlaceOf(rrl[n]);
    }
    WithoutKeyNone(r, key);
    WithoutKeyRemove(rrl, key, n);
  }

  lemma EmptyHasNoOther(z: Sizes, e: Ents, lents: map<Place, nat>, rrl: seq<Lent>, key: Key, n: nat, neg: bool)
    requires Mesh(e, lents, rrl, {}) && key in e && Exact(z, e[key]) && e[key].numRrs == 0
    requires Negative(e[key]) == neg && (neg ==> n < |rrl| && PlaceOf(rrl[n]) == (key, -1))
    ensures WithoutKey(rrl, key) == if neg then RemoveAt(rrl, n) else rrl
  {
    if neg {
      OneNode(e, lents, rrl, n);
    } else {
      NodesGone(e, lents, rrl, key);
    }
  }

  lemma ExpireShrinks(z: Sizes, was: Ents, e: Ents, p: Place, now: int)
    requires Shrunk(was, e) && Wants(e, p) && Exact(z, e[p.0])
    ensures Shrunk(was, Expire(z, e, p, now)) && Shrunk(was, Evict(z, e, p))
  {
    EvictShrinks(z, e, p);
    ShrunkTwice(was, e, Evict(z, e, p));
  }

  /** The first pass, one node further. */
  lemma OneMore(z: Sizes, e: Ents, s: seq<Lent>, m: nat, now: int)
    requires m < |s|
    ensures ExpireAll(z, e, s[..m + 1], now) == Expire(z, ExpireAll(z, e, s[..m], now), PlaceOf(s[m]), now)
    ensures EvictAll(z, e, s[..m + 1]) == Evict(z, EvictAll(z, e, s[..m]), PlaceOf(s[m]))
    ensures Survive(z, e, s[..m + 1], now) == Survive(z, e, s[..m], now)
      + if Due(ExpireAll(z, e, s[..m], now), PlaceOf(s[m]), now) then [] else [s[m]]
  {
    assert s[..m + 1][..m] == s[..m];
  }

  lemma NoneYet(z: Sizes, e: Ents, s: seq<Lent>, now: int)
    ensures s[..0] == [] && s[0..] == s
    ensures ExpireAll(z, e, s[..0], now) == e && EvictAll(z, e, s[..0]) == e && Survive(z, e, s[..0], now) == []
  {
  }

  lemma SortedList(e: Ents, lents: map<Place, nat>, rrl: seq<Lent>, nextId: nat)
    requires Mesh(e, lents, rrl, {}) && forall a :: 0 <= a < |rrl| ==> rrl[a].id < nextId
    ensures var r := InsertAll(LentTs, rrl);
      && Mesh(e, lents, r, {}) && Sorted(LentTs, r) && forall a :: 0 <= a < |r| ==> r[a].id < nextId
  {
    hide Mesh, InsertAll, Sorted, StableOf;
    InsertAllKeeps(LentTs, rrl);
    InsertAllPermutes(LentTs, rrl);
    MeshPermuted(e, {}, lents, rrl, InsertAll(LentTs, rrl));
  }

  // ---------- what the first pass removes ----------

  function Places(s: seq<Lent>): set<Place> {
    set a | 0 <= a < |s| :: PlaceOf(s[a])
  }

  /** The time of the set or negative entry at p is over. */
  predicate Past(e: Ents, p: Place, now: int) {
    && p.0 in e
    && if p.1 < 0 then !Within(e[p.0].negTs, e[p.0].negTtl, now)
       else At(e[p.0], p.1).Some? && !Stays(At(e[p.0], p.1).value, now)
  }

  lemma DueMeans(e: Ents, p: Place, now: int)
    requires Wants(e, p)
    ensures Due(e, p, now) <==> Past(e, p, now)
  {
    TimedOutMeans(e[p.0].negTs, e[p.0].negTtl, now);
    if p.1 >= 0 {
      GoneMeans(At(e[p.0], p.1).value, now);
    }
  }

  /** The name loses its entry: something of it was visited and past, and no set is left. */
  ghost predicate LosesAll(e: Ents, ps: set<Place>, k: Key, now: int) {
    && (exists p :: p in ps && p.0 == k && Past(e, p, now))
    && (forall j: nat :: k in e && At(e[k], j).Some? ==> (k, j) in ps && Past(e, (k, j), now))
  }

  /** e' is e without just those of the places ps that were past their time. */
  ghost predicate Expired(e: Ents, ps: set<Place>, now: int, e': Ents) {
    forall k :: ExpiredAt(e, ps, now, e', k)
  }

  ghost predicate ExpiredAt(e: Ents, ps: set<Place>, now: int, e': Ents, k: Key) {
    && (k in e' <==> k in e && !LosesAll(e, ps, k, now))
    && (k in e' ==> forall j: nat ::
          At(e'[k], j) == if (k, j) in ps && Past(e, (k, j), now) then None else At(e[k], j))
    && (k in e' && (forall p :: p in ps && p.0 == k ==> !Past(e, p, now)) ==> e'[k] == e[k])
  }

  /** The nodes visited stand for different places, all of which want a node. */
  ghost predicate Visitable(e: Ents, s: seq<Lent>) {
    && (forall a :: 0 <= a < |s| ==> Wants(e, PlaceOf(s[a])))
    && (forall a, b :: 0 <= a < b < |s| ==> PlaceOf(s[a]) != PlaceOf(s[b]))
  }

  /** The first pass removes just the sets and negative entries that are past their time, of those
      it visits, and an entry with its last set. */
  lemma {:induction false} ExpireAllMeans(z: Sizes, e: Ents, s: seq<Lent>, now: int)
    requires Visitable(e, s) && forall k :: k in e ==> Exact(z, e[k])
    ensures var e' := ExpireAll(z, e, s, now);
      && Expired(e, Places(s), now, e') && (forall k :: k in e' ==> Exact(z, e'[k]))
      && (forall p: Place :: p !in Places(s) ==>
            (Wants(e', p) <==> Wants(e, p)) && (Wants(e, p) ==> Past(e', p, now) == Past(e, p, now)))
  {
    hide Expired, Wants, Past, Exact, Due, Evict, PlaceOf, LosesAll;
    if s == [] {
      assert Places(s) == {};
      NothingExpired(e, now);
    } else {
      var t, p := s[..|s| - 1], PlaceOf(s[|s| - 1]);
      ExpireAllMeans(z, e, t, now);
      var m := ExpireAll(z, e, t, now);
      assert p !in Places(t) && Places(s) == Places(t) + {p};
      DueMeans(m, p, now);
      OneExpired(z, e, Places(t), m, p, now);
    }
  }

  /** A pass over everything on the list leaves nothing there that is past its time. */
  lemma NothingPast(z: Sizes, e: Ents, s: seq<Lent>, now: int)
    requires Visitable(e, s) && (forall k :: k in e ==> Exact(z, e[k]))
    requires forall p: Place :: Wants(e, p) ==> p in Places(s)
    ensures var e' := ExpireAll(z, e, s, now); forall p: Place :: Wants(e', p) ==> !Past(e', p, now)
  {
    hide ExpireAll, Expired, Places, Past, Wants, Exact;
    AllWanted(e, s);
    ExpireAllMeans(z, e, s, now);
    var e' := ExpireAll(z, e, s, now);
    forall p: Place | Wants(e', p) ensures !Past(e', p, now) {
      assert p in Places(s) || Wants(e, p);
      NotPastAfter(z, e, Places(s), now, e', p);
    }
  }

  lemma AllWanted(e: Ents, s: seq<Lent>)
    requires Visitable(e, s)
    ensures forall p :: p in Places(s) ==> Wants(e, p) && p.0 in e
  {
  }

  lemma NotPastAfter(z: Sizes, e: Ents, ps: set<Place>, now: int, e': Ents, p: Place)
    requires Expired(e, ps, now, e') && (forall q :: q in ps ==> Wants(e, q)) && p in ps
    requires p.0 in e && Exact(z, e[p.0]) && Wants(e', p)
    ensures !Past(e', p, now)
  {
    hide Stays, Within;
    assert ExpiredAt(e, ps, now, e', p.0);
    if p.1 >= 0 {
      assert At(e'[p.0], p.1).Some?;
    } else {
      assert forall q :: q in ps && q.0 == p.0 ==> q == p;
    }
  }

  lemma NothingExpired(e: Ents, now: int)
    ensures Expired(e, {}, now, e)
  {
  }

  lemma OneExpired(z: Sizes, e: Ents, ps: set<Place>, m: Ents, p: Place, now: int)
    requires Expired(e, ps, now, m) && (forall k :: k in m ==> Exact(z, m[k])) && p !in ps
    requires Wants(m, p) && Past(m, p, now) == Past(e, p, now)
    ensures var e' := if Past(m, p, now) then Evict(z, m, p) else m;
      && Expired(e, ps + {p}, now, e') && (forall k :: k in e' ==> Exact(z, e'[k]))
      && (forall q: Place :: q != p ==>
            (Wants(e', q) <==> Wants(m, q)) && (Wants(m, q) ==> Past(e', q, now) == Past(m, q, now)))
  {
    hide Exact, Past, Expired, Wants, Evict;
    WantsThere(m, p);
    if Past(m, p, now) {
      EvictedExact(z, m, p);
      EvictShrinks(z, m, p);
      PastExpired(z, e, ps, m, p, now);
      hide Shrunk;
      forall q: Place | q != p && Wants(m, q) ensures Past(Evict(z, m, p), q, now) == Past(m, q, now) {
        PastStays(z, m, p, q, now);
      }
    } else {
      NotPastExpired(e, ps, m, p, now);
    }
  }

  lemma WantsThere(e: Ents, p: Place)
    requires Wants(e, p)
    ensures p.0 in e
  {
  }

  lemma NotPastExpired(e: Ents, ps: set<Place>, m: Ents, p: Place, now: int)
    requires Expired(e, ps, now, m) && !Past(e, p, now)
    ensures Expired(e, ps + {p}, now, m)
  {
    hide Past, LosesAll, At;
    forall k ensures ExpiredAt(e, ps + {p}, now, m, k) {
      assert ExpiredAt(e, ps, now, m, k);
      SameLoss(e, ps, k, now, p);
    }
  }

  lemma PastExpired(z: Sizes, e: Ents, ps: set<Place>, m: Ents, p: Place, now: int)
    requires Expired(e, ps, now, m) && Wants(m, p) && Exact(z, m[p.0]) && p !in ps && Past(e, p, now)
    ensures Expired(e, ps + {p}, now, Evict(z, m, p))
  {
    hide LosesAll, Wants, Exact, Evict, ExpiredAt, Stays, Within;
    var e' := Evict(z, m, p);
    assert ExpiredAt(e, ps, now, m, p.0);
    OwnLoss(z, e, ps, m, p, now);
    OwnExpired(e, ps, p, now, e');
    forall k | k != p.0 ensures ExpiredAt(e, ps + {p}, now, e', k) {
      assert ExpiredAt(e, ps, now, m, k);
      OtherExpired(e, ps, m, e', p, now, k);
    }
  }

  lemma OwnExpired(e: Ents, ps: set<Place>, p: Place, now: int, e': Ents)
    requires p.0 in e && Past(e, p, now)
    requires p.0 in e' <==> !LosesAll(e, ps + {p}, p.0, now)
    requires p.0 in e' ==> forall j: nat ::
      At(e'[p.0], j) == if (p.0, j) in ps + {p} && Past(e, (p.0, j), now) then None else At(e[p.0], j)
    ensures ExpiredAt(e, ps + {p}, now, e', p.0)
  {
    hide Past, LosesAll, At;
    assert p in ps + {p} && p.0 == p.0;
  }

  lemma OtherExpired(e: Ents, ps: set<Place>, m: Ents, e': Ents, p: Place, now: int, k: Key)
    requires ExpiredAt(e, ps, now, m, k) && k != p.0 && (k in e' <==> k in m) && (k in e' ==> e'[k] == m[k])
    ensures ExpiredAt(e, ps + {p}, now, e', k)
  {
    SameLoss(e, ps, k, now, p);
    hide Past, LosesAll, At;
  }

  lemma SameLoss(e: Ents, ps: set<Place>, k: Key, now: int, p: Place)
    requires k != p.0 || !Past(e, p, now)
    ensures LosesAll(e, ps + {p}, k, now) == LosesAll(e, ps, k, now)
  {
    hide Past;
  }

  lemma EvictedExact(z: Sizes, m: Ents, p: Place)
    requires forall k :: k in m ==> Exact(z, m[k])
    ensures forall k :: k in Evict(z, m, p) ==> Exact(z, Evict(z, m, p)[k])
  {
    if p.0 in m && p.1 >= 0 {
      DelSetExact(z, m[p.0], p.1);
    }
  }

  lemma PastStays(z: Sizes, m: Ents, p: Place, q: Place, now: int)
    requires Wants(m, p) && Wants(m, q) && q != p && Exact(z, m[p.0]) && Wants(Evict(z, m, p), q)
    ensures Past(Evict(z, m, p), q, now) == Past(m, q, now)
  {
    hide Stays;
    if p.1 >= 0 {
      LastSetGone(z, m[p.0], p.1);
      hide DelSet, Exact;
    }
  }

  /** What evicting at p leaves under its own name. */
  lemma OwnLoss(z: Sizes, e: Ents, ps: set<Place>, m: Ents, p: Place, now: int)
    requires ExpiredAt(e, ps, now, m, p.0) && Wants(m, p) && Exact(z, m[p.0]) && p !in ps && Past(e, p, now)
    ensures var e', k := Evict(z, m, p), p.0;
      && (k in e' <==> !LosesAll(e, ps + {p}, k, now))
      && (k in e' ==> forall j: nat ::
            At(e'[k], j) == if (k, j) in ps + {p} && Past(e, (k, j), now) then None else At(e[k], j))
      && (forall x :: x != k ==> (x in e' <==> x in m) && (x in e' ==> e'[x] == m[x]))
  {
    hide Past, Stays;
    var k := p.0;
    if p.1 >= 0 {
      LastSetGone(z, m[k], p.1);
      hide DelSet, Exact;
      if LosesAll(e, ps + {p}, k, now) {
        assert forall j: nat :: At(DelSet(z, m[k], p.1), j) == None;
      } else {
        var j: nat :| At(e[k], j).Some? && !((k, j) in ps + {p} && Past(e, (k, j), now));
        assert At(DelSet(z, m[k], p.1), j).Some?;
      }
    } else {
      assert forall j: nat :: At(m[k], j) == None;
    }
  }
}
