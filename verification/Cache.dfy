/** The record cache of cache.c: the entries, the age list over their sets, and the byte and entry
    counts, kept consistent by every operation whatever allocations fail. */
module Cache {
  import opened Names
  import opened Wrappers
  import opened StableOrder
  import opened CacheEntry
  import opened CachePolicy
  import opened CacheLinks
  import opened CachePurge
  import opened CacheFresh
  import opened CacheMerge
  import opened CacheSafety

  ghost predicate AllExact(z: Sizes, e: Ents) {
    forall k :: k in e ==> Exact(z, e[k]) && KeyOf(e[k].qname) == k
  }

  lemma AllExactUpdate(z: Sizes, e: Ents, key: Key, i: nat)
    requires AllExact(z, e) && key in e
    ensures AllExact(z, e[key := DelSet(z, e[key], i)])
  {
    DelSetExact(z, e[key], i);
  }

  lemma StillAlike(e: Ents, e': Ents, skip: set<Place>, key: Key)
    requires Alike(e, {}, e', skip, {(key, -1)}) && !Wants(e, (key, -1)) && !Wants(e', (key, -1))
    ensures Alike(e, {}, e', skip, {})
  {
  }

  /** Deleting a set concerns the list at its place only. */
  lemma DelSetAlike(z: Sizes, e: Ents, key: Key, i: nat, skip: set<Place>)
    requires key in e && Exact(z, e[key])
    ensures var e' := e[key := DelSet(z, e[key], i)]; Alike(e, skip, e', skip, {(key, i)}) && !Wants(e', (key, i))
  {
    DelSetExact(z, e[key], i);
  }

  lemma AlikeAll(e: Ents, e': Ents, skip: set<Place>, p: Place)
    requires Alike(e, skip, e', skip, {p}) && !Wants(e', p) && (p in skip || !Wants(e, p))
    ensures Alike(e, skip, e', skip, {})
  {
  }

  lemma AlikeExempt(e: Ents, skip: set<Place>, p: Place)
    requires !Wants(e, p)
    ensures Alike(e, skip, e, skip - {p}, {})
  {
  }

  lemma ExtendedLength(rrl: seq<Lent>, le: Lent, sort: bool)
    ensures |Extended(rrl, le, sort)| == |rrl| + 1
  {
  }

  lemma AlikeSkip(e: Ents, skip: set<Place>, p: Place)
    ensures Alike(e, skip, e, skip + {p}, {p}) && (p in skip || !Wants(e, p) ==> Alike(e, skip, e, skip + {p}, {}))
  {
  }

  /** The places of an entry from index n on. */
  function PlacesFrom(key: Key, n: int): set<Place> {
    set i: int | n <= i < NRRTOT :: (key, i)
  }

  lemma AllUnlisted(e: Ents, done: set<Place>, lents: map<Place, nat>, rrl: seq<Lent>, key: Key)
    requires Mesh(e, lents, rrl, done) && key in e
    requires forall p :: p in done ==> p.0 == key
    requires forall j :: -1 <= j < |e[key].rr| ==> (key, j) in done
    ensures Mesh(e - {key}, lents, rrl, {}) && WithoutKey(rrl, key) == rrl
  {
    MeshSame(e, done, e - {key}, {}, lents, rrl);
    WithoutKeyNone(rrl, key);
  }

  /** The list must be shorter for sort_rrl to be able to sort it. */
  const LIST_LIMIT: nat := 0x1_0000_0000

  lemma PlaceAdded(e: Ents, e': Ents, key: Key, i: nat, skip: set<Place>)
    requires key in e && key in e' && e' == e[key := e'[key]] && !Negative(e'[key])
    requires e'[key].flags == e[key].flags - {DF_NEGATIVE}
    requires Negative(e[key]) ==> e[key].rr == []
    requires forall j: nat :: At(e'[key], j) == At(e[key], j) || (j == i && At(e[key], j) == None && skip == {(key, i)})
    requires skip == {} || (skip == {(key, i)} && At(e[key], i) == None)
    ensures Alike(e, {}, e', skip, {(key, -1)}) && !Wants(e', (key, -1))
  {
  }

  /** What another thread may do to the cache. */
  datatype Op = ADD(src: Cent, now: int) | DELETE(name: seq<Label>) | PURGE(name: seq<Label>, now: int)

  class Store {
    const z: Sizes
    const lim: Limits
    const permCache: nat

    /** The hash table, by folded name. */
    var ents: Ents
    /** The lent fields of the sets and of the negative entries. */
    var lents: map<Place, nat>
    /** The age list. */
    var rrl: seq<Lent>
    var cacheSize: int
    var entNum: int
    var insertSort: bool
    /** Number of the next node to be allocated. */
    var nextId: nat

    /** The age list is that of the entries e, the places in skip aside. */
    ghost predicate Linked(e: Ents, skip: set<Place>)
      reads `lents, `rrl, `insertSort, `nextId
    {
      && Mesh(e, lents, rrl, skip)
      && (forall a :: 0 <= a < |rrl| ==> rrl[a].id < nextId)
      && (insertSort ==> Sorted(LentTs, rrl))
    }

    ghost predicate Valid()
      reads this
    {
      Linked(ents, {}) && AllExact(z, ents) && cacheSize == Total(ents) && entNum == |ents|
    }

    /** What add_cache lets the cache grow to, in bytes. */
    function MaxSize(): int {
      permCache * 1024 + MCSZ
    }

    constructor (z: Sizes, lim: Limits, permCache: nat)
      ensures Valid() && ents == map[] && this.z == z && this.lim == lim && this.permCache == permCache
    {
      this.z, this.lim, this.permCache := z, lim, permCache;
      ents, lents, rrl, cacheSize, entNum, insertSort, nextId := map[], map[], [], 0, 0, true, 0;
    }

    // ---------- the age list ----------

    /** remove_rrl(rrset->lent). */
    method RemoveRrl(p: Place) returns (ghost n: nat)
      requires Paired(lents, rrl) && p in lents
      modifies `lents, `rrl
      ensures n < |old(rrl)| && PlaceOf(old(rrl)[n]) == p
      ensures rrl == RemoveAt(old(rrl), n) && lents == old(lents) - {p}
    {
      var m: nat :| m < |rrl| && PlaceOf(rrl[m]) == p;
      n := m;
      rrl := RemoveAt(rrl, m);
      lents := lents - {p};
    }

    /** insert_rrl for the set or negative entry at p; local data is exempt. */
    method InsertRrl(p: Place, c: Cent, ghost e: Ents, ghost skip: set<Place>) returns (ok: bool)
      requires Linked(e, skip) && p in skip && p.0 in e && e[p.0] == c
      requires (p.1 == -1 && Negative(c)) || (0 <= p.1 && At(c, p.1).Some?)
      modifies `lents, `rrl, `nextId
      ensures Linked(e, if ok then skip - {p} else skip) && |rrl| <= |old(rrl)| + 1
      ensures !ok ==> rrl == old(rrl) && lents == old(lents)
      ensures ok && !Listable(c, p.1) ==> rrl == old(rrl) && lents == old(lents)
      ensures ok && Listable(c, p.1) ==>
        var le := Lent(old(nextId), p.0, p.1, Stamp(e, p));
        && lents == old(lents)[p := le.id]
        && rrl == Extended(old(rrl), le, insertSort)
    {
      hide Mesh, Sorted, Extended, Alike;
      if DF_LOCAL in c.flags || (p.1 >= 0 && CF_LOCAL in At(c, p.1).value.flags) {
        AlikeExempt(e, skip, p);
        MeshSame(e, skip, e, skip - {p}, lents, rrl);
        return true;
      }
      ok := *;
      if !ok {
        return;
      }
      var ts := if p.1 == -1 then c.negTs else At(c, p.1).value.ts;
      var le := Lent(nextId, p.0, p.1, ts);
      MeshExtended(e, skip, lents, rrl, le, insertSort);
      ExtendedLength(rrl, le, insertSort);
      rrl, lents, nextId := Extended(rrl, le, insertSort), lents[p := le.id], nextId + 1;
    }

    // ---------- sets and entries ----------

    /** del_cent_rrset_by_index on the entry of e under key. */
    method DelCentRrset(key: Key, c: Cent, i: nat, ghost e: Ents, ghost skip: set<Place>)
      returns (c': Cent, rv: nat, ghost n: nat)
      requires Linked(e, skip) && key in e && e[key] == c && Exact(z, c)
      modifies `lents, `rrl
      ensures c' == DelSet(z, c, i) && rv == c.cs - c'.cs
      ensures Linked(e[key := c'], skip)
      ensures (key, i) !in old(lents) ==> rrl == old(rrl) && lents == old(lents)
      ensures (key, i) in old(lents) ==>
        && n < |old(rrl)| && PlaceOf(old(rrl)[n]) == (key, i)
        && rrl == RemoveAt(old(rrl), n) && lents == old(lents) - {(key, i)}
    {
      hide Mesh, Paired, Sorted, Exact, Alike, SetSize, Wants;
      c', rv, n := DelSet(z, c, i), 0, 0;
      DelSetAlike(z, e, key, i, skip);
      MeshParts(e, lents, rrl, skip);
      var p: Place := (key, i);
      if At(c, i).None? {
        assert e[key := c'] == e;
        return;
      }
      rv := SetSize(z, At(c, i).value);
      if p in lents {
        n := RemoveRrl(p);
        MeshRemove(e, skip, e[key := c'], skip, old(lents), old(rrl), n);
        if insertSort {
          SortedRemove(old(rrl), n);
        }
      } else {
        AlikeAll(e, e[key := c'], skip, p);
        MeshSame(e, skip, e[key := c'], skip, lents, rrl);
      }
    }

    /** The part of del_rrset that concerns the list: the node of p goes, if it has one. */
    method Unlist(p: Place, ghost e: Ents, ghost skip: set<Place>)
      requires Linked(e, skip)
      modifies `lents, `rrl
      ensures Linked(e, skip + {p}) && WithoutKey(rrl, p.0) == WithoutKey(old(rrl), p.0)
    {
      hide Mesh, Sorted, WithoutKey, Alike;
      MeshParts(e, lents, rrl, skip);
      AlikeSkip(e, skip, p);
      if p in lents {
        ghost var n := RemoveRrl(p);
        MeshRemove(e, skip, e, skip + {p}, old(lents), old(rrl), n);
        WithoutKeyRemove(old(rrl), p.0, n);
        if insertSort {
          SortedRemove(old(rrl), n);
        }
      } else {
        MeshSame(e, skip, e, skip + {p}, lents, rrl);
      }
    }

    /** free_cent on the entry of e under key: its nodes leave the list. */
    method FreeCent(key: Key, c: Cent, ghost e: Ents, ghost skip: set<Place>)
      requires Linked(e, skip) && key in e && e[key] == c && Exact(z, c)
      requires forall p :: p in skip ==> p.0 == key
      modifies `lents, `rrl
      ensures Linked(e - {key}, {}) && rrl == WithoutKey(old(rrl), key)
    {
      hide Mesh, Sorted, WithoutKey, Exact;
      Unlist((key, -1), e, skip);
      ghost var done := skip + {(key, -1)};
      var i: nat := 0;
      while i < |c.rr|
        invariant i <= |c.rr| && Linked(e, done) && WithoutKey(rrl, key) == WithoutKey(old(rrl), key)
        invariant forall p :: p in done ==> p.0 == key
        invariant forall j :: -1 <= j < i ==> (key, j) in done
      {
        Unlist((key, i), e, done);
        done := done + {(key, i)};
        i := i + 1;
      }
      AllUnlisted(e, done, lents, rrl, key);
    }

    /** del_cache_ent: the entry leaves the hash table, the list and the counts. */
    method DelCacheEnt(key: Key)
      requires Valid() && key in ents
      modifies `ents, `lents, `rrl, `cacheSize, `entNum
      ensures Valid() && ents == old(ents) - {key} && rrl == WithoutKey(old(rrl), key)
    {
      hide Mesh, Sorted, WithoutKey, Exact, Total;
      var c := ents[key];
      TotalRemove(ents, key);
      cacheSize := cacheSize - c.cs;
      FreeCent(key, c, ents, {});
      ents := ents - {key};
      entNum := entNum - 1;
    }

    /** del_cache. */
    method DelCache(name: seq<Label>)
      requires Valid()
      modifies `ents, `lents, `rrl, `cacheSize, `entNum
      ensures Valid() && ents == old(ents) - {KeyOf(name)}
    {
      if KeyOf(name) in ents {
        DelCacheEnt(KeyOf(name));
      }
    }

    /** cache_size -= del_cent_rrset_by_index(cent, i) on an entry in the hash table. */
    method DropSet(key: Key, i: nat) returns (ghost n: nat)
      requires Valid() && key in ents && At(ents[key], i).Some?
      modifies `ents, `lents, `rrl, `cacheSize
      ensures Valid() && ents == old(ents)[key := DelSet(z, old(ents)[key], i)]
      ensures Wants(old(ents), (key, i)) ==>
        n < |old(rrl)| && PlaceOf(old(rrl)[n]) == (key, i) && rrl == RemoveAt(old(rrl), n)
      ensures !Wants(old(ents), (key, i)) ==> rrl == old(rrl)
    {
      hide Mesh, Sorted, Exact, AllExact, Wants, DelSet, SetSize, RemoveAt;
      AllExactUpdate(z, ents, key, i);
      ListedThere((key, i));
      EntryExact(key);
      var c', rv;
      c', rv, n := DelCentRrset(key, ents[key], i, ents, {});
      TotalUpdate(ents, key, c');
      ents := ents[key := c'];
      cacheSize := cacheSize - rv;
    }

    lemma ListedThere(p: Place)
      requires Valid()
      ensures p in lents <==> Wants(ents, p)
    {
    }

    /** purge_rrset. */
    method PurgeRrset(key: Key, i: nat, now: int, test: bool) returns (rv: bool, ghost n: nat)
      requires Valid() && key in ents
      modifies `ents, `lents, `rrl, `cacheSize
      ensures Valid() && rv == (At(old(ents)[key], i).Some? && Gone(At(old(ents)[key], i).value, now))
      ensures ents == if rv && !test then old(ents)[key := DelSet(z, old(ents)[key], i)] else old(ents)
      ensures rv && !test && Wants(old(ents), (key, i)) ==>
        n < |old(rrl)| && PlaceOf(old(rrl)[n]) == (key, i) && rrl == RemoveAt(old(rrl), n)
      ensures !Wants(old(ents), (key, i)) ==> rrl == old(rrl)
      ensures |rrl| <= |old(rrl)|
      ensures !rv || test ==> rrl == old(rrl) && lents == old(lents) && cacheSize == old(cacheSize)
    {
      var rrs := At(ents[key], i);
      n := 0;
      if rrs.Some? && !(CF_NOPURGE in rrs.value.flags || CF_LOCAL in rrs.value.flags)
         && TimedOut(rrs.value.ts, rrs.value.ttl, now) {
        if !test {
          n := DropSet(key, i);
        }
        return true, n;
      }
      return false, n;
    }

    // ---------- purge_cache ----------

    /** What is known of the place a node stands for. */
    lemma NodeHere(n: nat)
      requires Valid() && n < |rrl|
      ensures rrl[n].key in ents
      ensures var le, c := rrl[n], ents[rrl[n].key];
        && DF_LOCAL !in c.flags && le.idx >= -1 && Negative(c) == (le.idx == -1) && Wants(ents, PlaceOf(le))
        && (le.idx >= 0 ==> At(c, le.idx).Some? && CF_LOCAL !in At(c, le.idx).value.flags)
        && (le.idx == -1 ==> c.numRrs == 0) && (le.idx >= 0 ==> c.numRrs > 0)
        && (le.idx >= 0 ==> DelSet(z, c, le.idx).flags == c.flags - {DF_AUTH})
      ensures forall a :: 0 <= a < |rrl| && PlaceOf(rrl[a]) == PlaceOf(rrl[n]) ==> a == n
    {
      assert Wants(ents, PlaceOf(rrl[n]));
      UniquePlace(rrl, lents);
      CountZero(ents[rrl[n].key].rr);
    }

    /** del_cache_ent for an entry without sets: at most its node as a negative entry, n, goes
        too. */
    method DropEmptyEnt(key: Key, ghost n: nat)
      requires Valid() && key in ents && ents[key].numRrs == 0
      requires Negative(ents[key]) ==> n < |rrl| && PlaceOf(rrl[n]) == (key, -1)
      modifies `ents, `lents, `rrl, `cacheSize, `entNum
      ensures Valid() && ents == old(ents) - {key}
      ensures rrl == if Negative(old(ents)[key]) then RemoveAt(old(rrl), n) else old(rrl)
    {
      EmptyHasNoOther(z, ents, lents, rrl, key, n, Negative(ents[key]));
      DelCacheEnt(key);
    }

    /** One turn of the second loop of purge_cache: of the nodes, just the one it stands on
        goes. The test for local data never holds for what is on the list. */
    method EvictNode(n: nat)
      requires Valid() && n < |rrl|
      modifies `ents, `lents, `rrl, `cacheSize, `entNum
      ensures Valid() && rrl == RemoveAt(old(rrl), n)
      ensures ents == Evict(z, old(ents), PlaceOf(old(rrl)[n]))
    {
      hide Valid, Wants, DelSet, RemoveAt, Exact, At;
      var le := rrl[n];
      NodeHere(n);
      if !((le.idx >= 0 && CF_LOCAL in At(ents[le.key], le.idx).value.flags) || DF_LOCAL in ents[le.key].flags) {
        if le.idx >= 0 {
          var _ := DropSet(le.key, le.idx);
        }
        if ents[le.key].numRrs == 0 {
          DropEmptyEnt(le.key, n);
        }
      }
    }

    /** One turn of the first loop: the node's set or negative entry goes if it is due. */
    method ExpireNode(n: nat, now: int)
      requires Valid() && n < |rrl|
      modifies `ents, `lents, `rrl, `cacheSize, `entNum
      ensures Valid()
      ensures ents == Expire(z, old(ents), PlaceOf(old(rrl)[n]), now)
      ensures rrl == if Due(old(ents), PlaceOf(old(rrl)[n]), now) then RemoveAt(old(rrl), n) else old(rrl)
    {
      hide Valid, Wants, DelSet, Gone, TimedOut, SetSize, RemoveAt, Exact, At;
      var le := rrl[n];
      NodeHere(n);
      var ce := ents[le.key];
      if !((le.idx >= 0 && CF_LOCAL in At(ce, le.idx).value.flags) || DF_LOCAL in ce.flags) {
        if le.idx >= 0 {
          var _, _ := PurgeRrset(le.key, le.idx, now, false);
          ce := ents[le.key];
        }
        if ce.numRrs == 0
           && (DF_NEGATIVE !in ce.flags || (DF_LOCAL !in ce.flags && TimedOut(ce.negTs, ce.negTtl, now))) {
          DropEmptyEnt(le.key, n);
        }
      }
    }

    /** sort_rrl, as far as it matters here: see AgeList. */
    method SortRrl()
      requires Valid() && |rrl| < LIST_LIMIT
      modifies `rrl, `insertSort
      ensures Valid() && insertSort && rrl == InsertAll(LentTs, old(rrl)) && Sorted(LentTs, rrl)
    {
      hide Mesh, InsertAll, Sorted, AllExact, Total, StableOf;
      SortedList(ents, lents, rrl, nextId);
      rrl := InsertAll(LentTs, rrl);
      insertSort := true;
    }

    lemma KeepShrinking(was: Ents, n: nat, now: int)
      requires Valid() && n < |rrl| && Shrunk(was, ents)
      ensures var p := PlaceOf(rrl[n]); Shrunk(was, Expire(z, ents, p, now)) && Shrunk(was, Evict(z, ents, p))
    {
      NodeHere(n);
      ExpireShrinks(z, was, ents, PlaceOf(rrl[n]), now);
    }

    lemma SizeIsTotal()
      requires Valid()
      ensures cacheSize == Total(ents) && (rrl == [] ==> forall p: Place :: !Wants(ents, p))
      ensures insertSort ==> Sorted(LentTs, rrl)
    {
      forall p: Place ensures rrl == [] ==> !Wants(ents, p) {
        assert p in lents <==> Wants(ents, p);
      }
    }

    /** In every valid cache just that is listed which is not local, from old to young unless the
        list is being filled unsorted. */
    lemma ListedMeans()
      requires Valid()
      ensures Listing(ents, rrl)
      ensures insertSort ==> forall a, b :: 0 <= a < b < |rrl| ==> rrl[a].ts <= rrl[b].ts
      ensures rrl == [] ==> forall key :: key in ents ==> OnlyLocal(ents[key])
    {
      hide Mesh, Sorted, Listing, OnlyLocal, AllExact, Total;
      MeshListing(ents, lents, rrl);
      InOrder(rrl);
      if rrl == [] {
        NoneListed(ents, rrl);
      }
    }

    /** The first loop of purge_cache: the nodes are visited from the oldest on, each once,
        until the list ends or, when lazy, the cache is small enough. */
    method FirstPass(sz: int, lazy: bool, now: int) returns (ghost m: nat)
      requires Valid()
      modifies `ents, `lents, `rrl, `cacheSize, `entNum
      ensures Valid() && m <= |old(rrl)| && ents == ExpireAll(z, old(ents), old(rrl)[..m], now)
      ensures rrl == Survive(z, old(ents), old(rrl)[..m], now) + old(rrl)[m..]
      ensures m < |old(rrl)| ==> lazy && cacheSize <= sz
      ensures lazy ==> forall i :: 0 <= i < m ==> Total(ExpireAll(z, old(ents), old(rrl)[..i], now)) > sz
      ensures Shrunk(old(ents), ents) && Expired(old(ents), Places(old(rrl)[..m]), now, ents)
      ensures !lazy ==> forall p: Place :: Wants(ents, p) ==> !Past(ents, p, now)
    {
      ghost var e, s := ents, rrl;
      hide Valid, Linked, Total, Survive, ExpireAll, Shrunk, Expired, EachPrefix, Places, Past, Wants;
      AllVisited(now);
      NoneYet(z, e, s, now);
      ShrunkSelf(e);
      m := 0;
      var j: nat := 0;
      while j < |rrl| && (!lazy || cacheSize > sz)
        invariant Valid() && m <= |s| && j == |Survive(z, e, s[..m], now)|
        invariant ents == ExpireAll(z, e, s[..m], now) && rrl == Survive(z, e, s[..m], now) + s[m..]
        invariant lazy ==> forall i :: 0 <= i < m ==> Total(ExpireAll(z, e, s[..i], now)) > sz
        invariant Shrunk(e, ents)
        decreases |s| - m
      {
        SizeIsTotal();
        j := FirstTurn(e, s, m, j, now);
        m := m + 1;
      }
      OfEach(z, e, s, now, m);
      assert m == |s| ==> s[..m] == s;
    }

    lemma AllVisited(now: int)
      requires Valid()
      ensures EachPrefix(z, ents, rrl, now)
      ensures var e' := ExpireAll(z, ents, rrl, now); forall p: Place :: Wants(e', p) ==> !Past(e', p, now)
    {
      hide Valid, Expired, Places, ExpireAll, Past, Wants;
      forall i: nat | i <= |rrl| ensures Expired(ents, Places(rrl[..i]), now, ExpireAll(z, ents, rrl[..i], now)) {
        VisitedMeans(i, now);
      }
      VisitedMeans(|rrl|, now);
    }

    /** What the first pass has done to this cache once it has visited m nodes. */
    lemma VisitedMeans(m: nat, now: int)
      requires Valid() && m <= |rrl|
      ensures Expired(ents, Places(rrl[..m]), now, ExpireAll(z, ents, rrl[..m], now))
      ensures m == |rrl| ==> var e' := ExpireAll(z, ents, rrl, now);
        forall p: Place :: Wants(e', p) ==> !Past(e', p, now)
    {
      hide Expired, Past, ExpireAll;
      var s := rrl[..m];
      UniquePlace(rrl, lents);
      assert Visitable(ents, s);
      ExpireAllMeans(z, ents, s, now);
      if m == |rrl| {
        assert s == rrl;
        forall p: Place | Wants(ents, p) ensures p in Places(rrl) {
          assert p in lents;
        }
        NothingPast(z, ents, rrl, now);
      }
    }

    method FirstTurn(ghost e: Ents, ghost s: seq<Lent>, ghost m: nat, j: nat, now: int) returns (j': nat)
      requires Valid() && m < |s| && j == |Survive(z, e, s[..m], now)|
      requires ents == ExpireAll(z, e, s[..m], now) && rrl == Survive(z, e, s[..m], now) + s[m..]
      requires Shrunk(e, ents)
      modifies `ents, `lents, `rrl, `cacheSize, `entNum
      ensures Valid() && j' == |Survive(z, e, s[..m + 1], now)|
      ensures ents == ExpireAll(z, e, s[..m + 1], now) && rrl == Survive(z, e, s[..m + 1], now) + s[m + 1..]
      ensures Shrunk(e, ents)
    {
      hide Valid, Linked, Survive, ExpireAll, Expire, Evict, Due, Shrunk, PlaceOf;
      assert rrl[j] == s[m];
      OneMore(z, e, s, m, now);
      KeepShrinking(e, j, now);
      var size := |rrl|;
      ExpireNode(j, now);
      j' := if |rrl| == size then j + 1 else j;
    }

    /** The second loop: nodes go from the oldest on, until the cache is small enough. */
    method SecondPass(sz: int) returns (ghost k: nat)
      requires Valid()
      modifies `ents, `lents, `rrl, `cacheSize, `entNum
      ensures Valid() && k <= |old(rrl)| && ents == EvictAll(z, old(ents), old(rrl)[..k])
      ensures rrl == old(rrl)[k..]
      ensures k < |old(rrl)| ==> cacheSize <= sz
      ensures forall i :: 0 <= i < k ==> Total(EvictAll(z, old(ents), old(rrl)[..i])) > sz
      ensures Shrunk(old(ents), ents)
    {
      ghost var e, s := ents, rrl;
      hide Valid, Linked, Total, EvictAll, Evict, Shrunk;
      NoneYet(z, e, s, 0);
      ShrunkSelf(e);
      k := 0;
      while 0 < |rrl| && cacheSize > sz
        invariant Valid() && k <= |s| && rrl == s[k..] && ents == EvictAll(z, e, s[..k])
        invariant forall i :: 0 <= i < k ==> Total(EvictAll(z, e, s[..i])) > sz
        invariant Shrunk(e, ents)
        decreases |rrl|
      {
        SizeIsTotal();
        OneMore(z, e, s, k, 0);
        KeepShrinking(e, 0, 0);
        EvictNode(0);
        k := k + 1;
      }
    }

    /** purge_cache: the list is sorted when eviction begins, if it was not. */
    method PurgeCache(sz: int, lazy: bool, now: int) returns (ghost m: nat, ghost k: nat)
      requires Valid() && |rrl| < LIST_LIMIT
      modifies `ents, `lents, `rrl, `cacheSize, `entNum, `insertSort
      ensures Valid() && Shrunk(old(ents), ents)
      ensures PurgedTo(z, old(ents), old(rrl), old(insertSort), sz, lazy, now, m, k, ents, rrl)
      ensures insertSort == (old(insertSort) || Total(ExpireAll(z, old(ents), old(rrl)[..m], now)) > sz)
      ensures cacheSize <= sz || forall key :: key in ents ==> OnlyLocal(ents[key])
    {
      hide Valid, Linked, Total, EvictAll, Survive, ExpireAll, Shrunk, InsertAll, Sorted, Wants;
      k := 0;
      m := FirstPass(sz, lazy, now);
      ghost var e1 := ents;
      SizeIsTotal();
      if cacheSize <= sz {
        return;
      }
      if !insertSort {
        SortRrl();
      }
      k := SecondPass(sz);
      SizeIsTotal();
      if cacheSize > sz {
        ListedMeans();
      }
      ShrunkTwice(old(ents), e1, ents);
    }

    lemma EntryExact(key: Key)
      requires Valid() && key in ents
      ensures Exact(z, ents[key]) && KeyOf(ents[key].qname) == key
    {
    }

    // ---------- purge_cent ----------

    /** An entry of the hash table is replaced by one with the same sets. */
    method Replace(key: Key, c: Cent)
      requires Valid() && key in ents && Exact(z, c) && c.qname == ents[key].qname
      requires forall i: nat :: At(c, i) == At(ents[key], i)
      requires c.flags == ents[key].flags && c.negTs == ents[key].negTs
      modifies `ents, `cacheSize
      ensures Valid() && ents == old(ents)[key := c]
    {
      hide Mesh, Exact, Total, Sorted;
      MeshSame(ents, {}, ents[key := c], {}, lents, rrl);
      TotalUpdate(ents, key, c);
      cacheSize := cacheSize - ents[key].cs + c.cs;
      ents := ents[key := c];
    }

    /** One turn of the loop of purge_all_rrsets: c is the entry as it was in e. */
    method PurgeNext(key: Key, i: nat, now: int, test: bool, ghost c: Cent, ghost e: Ents) returns (gone: bool)
      requires Valid() && key in ents && Exact(z, c) && i < |c.rr|
      requires ents == if test then e[key := c] else e[key := PurgeSets(z, c, now, i)]
      modifies `ents, `lents, `rrl, `cacheSize
      ensures Valid() && gone == GoneAt(c, i, now) && |rrl| <= |old(rrl)|
      ensures test ==> ents == old(ents) && rrl == old(rrl) && lents == old(lents) && cacheSize == old(cacheSize)
      ensures !test ==> ents == e[key := PurgeSets(z, c, now, i + 1)]
    {
      hide Valid, Gone, Exact, Wants, DelSet;
      PurgeSetsAt(z, c, now, i);
      ghost var n;
      gone, n := PurgeRrset(key, i, now, test);
    }

    /** purge_all_rrsets. */
    method PurgeAllRrsets(key: Key, test: bool, now: int) returns (rv: nat, rem: nat)
      requires Valid() && key in ents
      modifies `ents, `lents, `rrl, `cacheSize
      ensures Valid() && rv == PurgedItems(old(ents)[key], now)
      ensures rem == KeptCount(old(ents)[key], now, 0, |old(ents)[key].rr|)
      ensures test ==> ents == old(ents) && rrl == old(rrl) && lents == old(lents) && cacheSize == old(cacheSize)
      ensures !test ==> ents == old(ents)[key := Purged(z, old(ents)[key], now)]
      ensures |rrl| <= |old(rrl)|
    {
      hide Valid, Gone, Exact, Wants, RoomUnused, Purged;
      ghost var c := ents[key];
      assert ents[key := c] == ents;
      EntryExact(key);
      rv, rem := 0, 0;
      var ext: nat := 0;
      var i: nat := 0;
      while i < |ents[key].rr|
        invariant Valid() && key in ents && i <= |c.rr| && |ents[key].rr| == |c.rr|
        invariant |rrl| <= |old(rrl)|
        invariant rv == GoneCount(c, now, i) && rem == KeptCount(c, now, 0, i) && ext == KeptCount(c, now, NRRMU, i)
        invariant test ==> ents == old(ents) && rrl == old(rrl) && lents == old(lents) && cacheSize == old(cacheSize)
        invariant !test ==> ents == old(ents)[key := PurgeSets(z, c, now, i)]
        decreases |c.rr| - i
      {
        PurgeSetsAt(z, c, now, i);
        if ents[key].rr[i].Some? {
          var gone := PurgeNext(key, i, now, test, c, old(ents));
          if gone {
            rv := rv + 1;
          } else {
            rem := rem + 1;
            if i >= NRRMU {
              ext := ext + 1;
            }
          }
        }
        i := i + 1;
      }
      if |ents[key].rr| == NRRTOT && ext == 0 {
        RoomIsUnused(c, now);
        if !test {
          PurgeSetsAt(z, c, now, |c.rr|);
          FreeRoom(key, c, now);
        }
        rv := rv + 1;
      } else {
        RoomIsUsed(c, now);
      }
      ItemsCounted(c, now);
    }

    lemma ItemsCounted(c: Cent, now: int)
      ensures PurgedItems(c, now) == GoneCount(c, now, |c.rr|) + if RoomUnused(c, now) then 1 else 0
    {
    }

    lemma RoomIsUnused(c: Cent, now: int)
      requires |c.rr| == NRRTOT && KeptCount(c, now, NRRMU, NRRTOT) == 0
      ensures RoomUnused(c, now)
    {
    }

    lemma RoomIsUsed(c: Cent, now: int)
      requires |c.rr| != NRRTOT || KeptCount(c, now, NRRMU, NRRTOT) != 0
      ensures !RoomUnused(c, now) && Purged(z, c, now) == PurgeSets(z, c, now, |c.rr|)
    {
      hide KeptCount, PurgeSets;
    }

    /** The array of rarer types is freed; c is the entry before the purge. */
    method FreeRoom(key: Key, ghost c: Cent, now: int)
      requires Valid() && key in ents && Exact(z, c) && RoomUnused(c, now) && c.qname == ents[key].qname
      requires ents[key] == PurgeSets(z, c, now, |c.rr|) && |ents[key].rr| == |c.rr|
      modifies `ents, `cacheSize
      ensures Valid() && ents == old(ents)[key := Purged(z, c, now)]
    {
      hide Valid, Gone, PurgeSets, KeptCount;
      PurgeSetsAt(z, c, now, |c.rr|);
      KeptNone(c, now, NRRMU, NRRTOT);
      ghost var d := ents[key];
      assert forall j: nat :: j >= NRRMU ==> At(d, j) == None;
      RoomFreed(z, d);
      Replace(key, ents[key].(rr := ents[key].rr[..NRRMU], cs := ents[key].cs - z.ext));
    }

    /** purge_cent. A test changes nothing and returns what the purge itself would. */
    method PurgeCent(key: Key, delete: bool, test: bool, now: int) returns (rv: int)
      requires Valid() && key in ents
      modifies `ents, `lents, `rrl, `cacheSize, `entNum
      ensures Valid() && rv == PurgeResult(old(ents), key, delete, now)
      ensures test ==> ents == old(ents) && cacheSize == old(cacheSize) && entNum == old(entNum)
      ensures test ==> rrl == old(rrl) && lents == old(lents)
      ensures !test ==> ents == AfterPurge(z, old(ents), key, delete, now)
      ensures !test ==> PurgedEntry(old(ents), key, delete, now, ents)
      ensures rv == Purgeable(old(ents), key, delete, now)
      ensures |rrl| <= |old(rrl)|
    {
      hide Valid, Exact, Purged, PurgedItems, Stale, KeptCount, TimedOut, PurgedEntry, Purgeable;
      ghost var e, c := ents, ents[key];
      EntryExact(key);
      PurgeMeans(z, e, key, delete, now);
      PurgeResultMeans(e, key, delete, now);
      PurgedFace(z, c, now);
      SameStale(z, e, key, c.cns, RRMUINDEX_NS, now);
      SameStale(z, e, key, c.csoa, RRMUINDEX_SOA, now);
      var npurge, numrrs := PurgeAllRrsets(key, test, now);
      if delete && numrrs == 0
         && (DF_NEGATIVE !in ents[key].flags
             || (DF_LOCAL !in ents[key].flags && TimedOut(ents[key].negTs, ents[key].negTtl, now))) {
        if !test {
          DelCacheEnt(key);
        }
        return -1;
      }
      var stale := RefreshRefs(key, test, now);
      rv := npurge + stale;
    }

    /** The part of purge_cent that sets stale references back to undefined. */
    method RefreshRefs(key: Key, test: bool, now: int) returns (n: nat)
      requires Valid() && key in ents
      modifies `ents, `cacheSize
      ensures Valid() && n == StaleCount(old(ents), old(ents)[key], now)
      ensures test ==> ents == old(ents) && cacheSize == old(cacheSize)
      ensures !test ==> ents == old(ents)[key := Refreshed(old(ents), old(ents)[key], now)]
    {
      hide Valid, Exact, Stale;
      ghost var e, c := ents, ents[key];
      EntryExact(key);
      n := 0;
      if Stale(ents, ents[key], ents[key].cns, RRMUINDEX_NS, now) {
        if !test {
          SetRefs(key, CUNDEF, ents[key].csoa);
        }
        n := n + 1;
      }
      StaysFresh(e, key, c, ents[key], c.csoa, RRMUINDEX_SOA, now);
      assert e[key := c] == e;
      assert ents == e[key := ents[key]];
      if Stale(ents, ents[key], ents[key].csoa, RRMUINDEX_SOA, now) {
        if !test {
          SetRefs(key, ents[key].cns, CUNDEF);
        }
        n := n + 1;
      }
    }

    method SetRefs(key: Key, cns: nat, csoa: nat)
      requires Valid() && key in ents
      modifies `ents, `cacheSize
      ensures Valid() && ents == old(ents)[key := old(ents)[key].(cns := cns, csoa := csoa)]
    {
      EntryExact(key);
      Replace(key, ents[key].(cns := cns, csoa := csoa));
    }

    // ---------- lookup_cache ----------

    /** The search of lookup_cache. */
    method FindEnt(name: seq<Label>, wild: bool) returns (k: Option<Key>, w: Wild)
      ensures (k, w) == Find(ents, name, wild)
    {
      k, w := None, NO_WILD;
      if KeyOf(name) in ents {
        k := Some(KeyOf(name));
        return;
      }
      if !wild {
        return;
      }
      var nm := name;
      while |nm| > 1
        invariant FindWild(ents, nm) == FindWild(ents, name)
      {
        nm := nm[1..];
        if KeyOf(nm) in ents {
          var ce := ents[KeyOf(nm)];
          if DF_NEGATIVE in ce.flags {
            k, w := Some(KeyOf(nm)), W_NEG;
          } else if DF_WILD in ce.flags {
            if KeyOf([STAR] + nm) in ents {
              k, w := Some(KeyOf([STAR] + nm)), W_WILD;
            }
          } else if DF_LOCAL in ce.flags {
            k, w := Some(KeyOf(nm)), W_LOCNERR;
          }
          return;
        }
      }
    }

    /** copy_cent: the copy has no nodes on the list, and fails when an allocation does. */
    method CopyCent(c: Cent, mem: bool) returns (copy: Option<Cent>)
      ensures copy == if mem then Some(c) else None
    {
      return if mem then Some(c) else None;
    }

    /** The part of lookup_cache under the read lock: a copy if there is nothing to purge. */
    method ReadPath(name: seq<Label>, wild: bool, now: int, mem: bool)
        returns (purge: int, ret: Option<Cent>, w: Wild, ghost key: Option<Key>)
      requires Valid()
      modifies `ents, `lents, `rrl, `cacheSize, `entNum
      ensures Valid() && ents == old(ents) && rrl == old(rrl) && lents == old(lents)
      ensures cacheSize == old(cacheSize) && entNum == old(entNum)
      ensures (key, w) == Find(ents, name, wild) && (key.Some? ==> key.value in ents)
      ensures purge == if key.Some? then PurgeResult(ents, key.value, true, now) else 0
      ensures ret == if key.Some? && purge == 0 && mem then Some(ents[key.value]) else None
    {
      hide Valid, FindWild;
      var k;
      FoundThere(name, wild);
      k, w := FindEnt(name, wild);
      key, purge, ret := k, 0, None;
      if k.Some? {
        purge := PurgeCent(k.value, true, true, now);
        if purge == 0 {
          ret := CopyCent(ents[k.value], mem);
        }
      }
    }

    lemma FoundThere(name: seq<Label>, wild: bool)
      ensures Find(ents, name, wild).0.Some? ==> Find(ents, name, wild).0.value in ents
    {
      FindWildMeans(ents, name);
    }

    /** The part under the write lock: the entry is purged first. */
    method WritePath(name: seq<Label>, wild: bool, now: int, mem: bool)
        returns (ret: Option<Cent>, w: Wild, ghost key: Option<Key>)
      requires Valid()
      modifies `ents, `lents, `rrl, `cacheSize, `entNum
      ensures Valid() && (key, w) == Find(old(ents), name, wild) && (key.Some? ==> key.value in old(ents))
      ensures ents == if key.Some? then AfterPurge(z, old(ents), key.value, true, now) else old(ents)
      ensures ret == if key.Some? && key.value in ents && mem then Some(ents[key.value]) else None
    {
      hide Valid, FindWild;
      var k;
      FoundThere(name, wild);
      k, w := FindEnt(name, wild);
      key, ret := k, None;
      if k.Some? {
        var purge := PurgeCent(k.value, true, false, now);
        if purge >= 0 {
          ret := CopyCent(ents[k.value], mem);
        }
      }
    }

    // ---------- add_cache ----------

    /** The list is in order with c in place of the entry under key. */
    ghost predicate Holds(key: Key, c: Cent, skip: set<Place>)
      reads this
    {
      Linked(ents[key := c], skip) && Exact(z, c)
    }

    /** The first loop of cr_check_add and what follows from it. */
    method Verdict(c: Cent, i: nat, ttl: int, now: int) returns (ok: bool)
      ensures ok == MayAdd(c, i, ttl, {}, now)
    {
      if DF_LOCAL in c.flags {
        return false;
      }
      var ncf: nat := 0;
      var nttl: nat := 0;
      var j: nat := 0;
      while j < |c.rr|
        invariant j <= |c.rr| && ncf == ClashCount(c, i, j) && nttl == ClashTtl(c, i, now, j)
        invariant forall k: nat :: k < j && Clashes(c, i, k) ==> !IsLocalAt(c, k)
      {
        if Clashes(c, i, j) {
          if CF_LOCAL in c.rr[j].value.flags {
            assert IsLocalAt(c, j);
            return false;
          }
          ncf := ncf + 1;
          var rttl := c.rr[j].value.ttl + c.rr[j].value.ts - now;
          if rttl > 0 {
            nttl := nttl + rttl;
          }
        }
        j := j + 1;
      }
      if ncf == 0 {
        return true;
      }
      nttl := nttl / ncf;
      ok := ttl > nttl;
    }

    /** The second loop of cr_check_add. */
    method DropClashes(key: Key, c: Cent, i: nat) returns (c': Cent)
      requires Holds(key, c, {})
      modifies `lents, `rrl
      ensures Holds(key, c', {}) && c' == WithoutClashes(z, c, i, |c.rr|) && |rrl| <= |old(rrl)|
    {
      hide Linked, Exact, Clashes, DelSet;
      c' := c;
      var j: nat := 0;
      while j < |c.rr|
        invariant j <= |c.rr| && Holds(key, c', {}) && c' == WithoutClashes(z, c, i, j) && |rrl| <= |old(rrl)|
      {
        if Clashes(c', i, j) {
          ghost var e := ents[key := c'];
          DelSetExact(z, c', j);
          var d, _, _ := DelCentRrset(key, c', j, e, {});
          c' := d;
          assert e[key := c'] == ents[key := c'];
        }
        j := j + 1;
      }
    }

    /** cr_check_add. */
    method CrCheckAdd(key: Key, c: Cent, i: nat, ttl: int, flags: set<SetFlag>, now: int)
        returns (c': Cent, ok: bool)
      requires Holds(key, c, {})
      modifies `lents, `rrl
      ensures Holds(key, c', {}) && ok == MayAdd(c, i, ttl, flags, now)
      ensures c' == Checked(z, c, i, ttl, flags, now) && |rrl| <= |old(rrl)|
    {
      hide Holds, WithoutClashes;
      c', ok := c, true;
      if CF_NEGATIVE in flags {
        return;
      }
      if CF_LOCAL !in flags {
        ok := Verdict(c, i, ttl, now);
        if !ok {
          return;
        }
      }
      c' := DropClashes(key, c, i);
    }

    /** add_cent_rrset_by_index on an entry of the cache: the entry stops being negative, and if
        it was, loses its node. The new set is not on the list yet. */
    method AddCentRrset(key: Key, c: Cent, i: nat, ttl: int, ts: int, flags: set<SetFlag>)
        returns (c': Cent, ok: bool)
      requires Holds(key, c, {}) && i < NRRTOT && At(c, i) == None
      modifies `lents, `rrl
      ensures Holds(key, c', if ok then {(key, i)} else {}) && |rrl| <= |old(rrl)|
      ensures ok ==> c' == AddSet(z, c, i, RrSet(ttl, ts, flags, []))
      ensures !ok ==> forall j: nat :: At(c', j) == At(c, j)
      ensures !ok ==> c'.flags == c.flags - {DF_NEGATIVE}
      ensures c'.qname == c.qname && c'.cns == c.cns && c'.csoa == c.csoa
    {
      var m0, m1 := *, *;
      c', ok := AddEmptySet(z, c, i, ttl, ts, flags, (m0, m1));
      if ok {
        AddSetExact(z, c, i, RrSet(ttl, ts, flags, []));
      }
      PlaceAdded(ents[key := c], ents[key := c'], key, i, if ok then {(key, i)} else {});
      LosesNegNode(key, c, c', if ok then {(key, i)} else {});
    }

    /** remove_rrl(cent->neg.lent), if the entry was negative and on the list. */
    method LosesNegNode(key: Key, c: Cent, ghost c': Cent, ghost skip: set<Place>)
      requires Holds(key, c, {}) && Exact(z, c')
      requires Alike(ents[key := c], {}, ents[key := c'], skip, {(key, -1)}) && !Wants(ents[key := c'], (key, -1))
      modifies `lents, `rrl
      ensures Holds(key, c', skip) && |rrl| <= |old(rrl)|
    {
      ghost var e, e' := ents[key := c], ents[key := c'];
      hide Exact, Sorted, Alike;
      if (key, -1) in lents {
        ghost var n := RemoveRrl((key, -1));
        MeshRemove(e, {}, e', skip, old(lents), old(rrl), n);
        if insertSort {
          SortedRemove(old(rrl), n);
        }
      } else {
        StillAlike(e, e', skip, key);
        MeshSame(e, {}, e', skip, lents, rrl);
      }
    }

    /** The records of a new set, one allocation each. */
    method FillSet(c: Cent, i: nat, rrs: seq<seq<byte>>) returns (c': Cent, ok: bool)
      requires Exact(z, c) && At(c, i).Some? && At(c, i).value.rrs == []
      ensures Exact(z, c') && c' == c.(rr := c'.rr, cs := c'.cs) && |c'.rr| == |c.rr|
      ensures At(c', i).Some?
      ensures c'.rr == c.rr[i := Some(c.rr[i].value.(rrs := At(c', i).value.rrs))]
      ensures ok ==> At(c', i).value.rrs == rrs
    {
      c', ok := c, true;
      var k: nat := 0;
      hide Exact, SetSize;
      while k < |rrs|
        invariant k <= |rrs| && Exact(z, c') && c' == c.(rr := c'.rr, cs := c'.cs)
        invariant c'.rr == c.rr[i := Some(c.rr[i].value.(rrs := rrs[..k]))]
      {
        ok := *;
        if !ok {
          return;
        }
        AppendRrExact(z, c', i, rrs[k]);
        assert rrs[..k + 1] == rrs[..k] + [rrs[k]];
        c' := AppendRr(z, c', i, rrs[k]);
        k := k + 1;
      }
    }

    /** The place of c under key that is still to be listed is given up. */
    method DropNew(key: Key, c: Cent, i: nat) returns (c': Cent)
      requires Holds(key, c, {(key, i)})
      modifies `lents, `rrl
      ensures Holds(key, c', {}) && c' == DelSet(z, c, i) && |rrl| <= |old(rrl)|
    {
      DelSetExact(z, c, i);
      ghost var e := ents[key := c];
      var d, _, _ := DelCentRrset(key, c, i, e, {(key, i)});
      c' := d;
      assert e[key := c'] == ents[key := c'];
      hide Mesh, Sorted, DelSet, Exact;
      MeshSame(ents[key := c'], {(key, i)}, ents[key := c'], {}, lents, rrl);
    }

    /** Another entry with the sets of c in all that matters to the list. */
    lemma HoldsAlso(key: Key, c: Cent, c': Cent, skip: set<Place>)
      requires Holds(key, c, skip) && Exact(z, c') && c'.flags == c.flags && c'.negTs == c.negTs
      requires forall p: Place :: p.0 == key && p !in skip && Listable(c, p.1) && p.1 >= 0 ==>
        At(c', p.1).Some? && At(c', p.1).value.ts == At(c, p.1).value.ts
      requires forall p: Place :: p.0 == key && p !in skip ==> (Listable(c, p.1) <==> Listable(c', p.1))
      ensures Holds(key, c', skip)
    {
      MeshSame(ents[key := c], skip, ents[key := c'], skip, lents, rrl);
    }

    /** A new set, empty as yet, gets its records, its final ttl and its node; if that fails, it
        goes again. */
    method FinishSet(key: Key, c: Cent, i: nat, s: RrSet) returns (c': Cent, ok: bool)
      requires Holds(key, c, {(key, i)}) && At(c, i) == Some(s.(rrs := []))
      modifies `lents, `rrl, `nextId
      ensures Holds(key, c', {}) && |rrl| <= |old(rrl)| + 1
      ensures ok ==> Exact(z, c') && c' == c.(rr := c.rr[i := Some(AdjustTtl(lim, s))], cs := c'.cs)
      ensures !ok ==> c' == c.(rr := c.rr[i := None], cs := c'.cs, numRrs := c'.numRrs, flags := c.flags - {DF_AUTH})
    {
      hide Linked, Exact, DelSet, SetSize;
      var d, filled := FillSet(c, i, s.rrs);
      HoldsAlso(key, c, d, {(key, i)});
      if !filled {
        c' := DropNew(key, d, i);
        DeletedIs(z, d, i);
        return c', false;
      }
      RetimeExact(z, d, i, AdjustTtl(lim, s));
      var a := d.(rr := d.rr[i := Some(AdjustTtl(lim, s))]);
      HoldsAlso(key, d, a, {(key, i)});
      ok := InsertRrl((key, i), a, ents[key := a], {(key, i)});
      if ok {
        c' := a;
        assert {(key, i)} - {(key, i)} == {};
      } else {
        c' := DropNew(key, a, i);
        DeletedIs(z, a, i);
      }
    }

    /** The turn of the loop of add_cache for one set of the input. */
    method MergeSetInto(key: Key, c: Cent, i: nat, s: RrSet, now: int) returns (c': Cent, ok: bool)
      requires Holds(key, c, {}) && i < NRRTOT
      modifies `lents, `rrl, `nextId
      ensures Holds(key, c', {}) && |rrl| <= |old(rrl)| + 1
      ensures ok ==> c' == MergeSet(z, lim, c, i, s, now)
      ensures !ok ==> CutSet(z, c, i, s, now, c')
    {
      hide Linked, Exact, DelSet, MayAdd, Checked, AddSet, Clashes;
      if Outranked(At(c, i), s, now) {
        return c, true;
      }
      DelSetExact(z, c, i);
      ghost var e := ents[key := c];
      var d, _, _ := DelCentRrset(key, c, i, e, {});
      assert e[key := d] == ents[key := d];
      CheckedAt(z, d, i, s.ttl, s.flags, now);
      var k, may := CrCheckAdd(key, d, i, s.ttl, s.flags, now);
      if !may {
        Refused(z, d, i, s.ttl, s.flags, now);
        return k, true;
      }
      var f, room := AddCentRrset(key, k, i, s.ttl, s.ts, s.flags);
      if !room {
        FailedMerge(z, c, i, s, now, d, k, f);
        return f, false;
      }
      AddSetExact(z, k, i, s.(rrs := []));
      c', ok := FinishSet(key, f, i, s);
      if ok {
        FilledIsAdded(z, k, i, s.(rrs := []), c', AdjustTtl(lim, s));
      } else {
        assert forall j: nat :: j != i ==> At(c', j) == At(f, j);
        FailedMerge(z, c, i, s, now, d, k, c');
      }
    }

    /** While an entry is being merged into, the counts hold without it. */
    ghost predicate SetAside(key: Key)
      reads `ents, `cacheSize, `entNum
    {
      key in ents && AllExact(z, ents) && cacheSize == Total(ents) - ents[key].cs && entNum == |ents|
    }

    method TakeOut(key: Key)
      requires Valid() && key in ents
      modifies `cacheSize
      ensures SetAside(key) && Holds(key, ents[key], {}) && Exact(z, ents[key])
    {
      hide Mesh, Total, Sorted;
      assert ents[key := ents[key]] == ents;
      cacheSize := cacheSize - ents[key].cs;
    }

    method PutBack(key: Key, d: Cent)
      requires SetAside(key) && Holds(key, d, {}) && d.qname == ents[key].qname
      modifies `ents, `cacheSize
      ensures Valid() && ents == old(ents)[key := d]
    {
      hide Mesh, Total, Sorted, Exact;
      TotalUpdate(ents, key, d);
      ents := ents[key := d];
      cacheSize := cacheSize + d.cs;
    }

    /** The loop of add_cache over the sets of the input, for an entry that exists. */
    method MergeEnt(key: Key, src: Cent, now: int) returns (ok: bool, ghost at: nat)
      requires Valid() && key in ents && |src.rr| <= NRRTOT
      modifies `ents, `lents, `rrl, `cacheSize, `nextId
      ensures Valid() && |rrl| <= |old(rrl)| + |src.rr|
      ensures Exact(z, old(ents)[key]) && key in ents && ents == old(ents)[key := ents[key]]
      ensures ok ==> ents[key] == Merged(z, lim, old(ents)[key], src, now)
      ensures !ok ==> CutShort(z, lim, old(ents)[key], src, now, at, ents[key])
    {
      hide Valid, Holds, Exact, SetAside, MergeSet, CutSet;
      at := 0;
      ghost var c := ents[key];
      TakeOut(key);
      var ce := ents[key];
      var i: nat := 0;
      while i < |src.rr|
        invariant i <= |src.rr| && Holds(key, ce, {}) && ents == old(ents) && SetAside(key)
        invariant ce == MergeSets(z, lim, c, src, now, i) && |rrl| <= |old(rrl)| + i
      {
        MergeSetsKeep(z, lim, c, src, now, i);
        if src.rr[i].Some? {
          var d, done := MergeSetInto(key, ce, i, src.rr[i].value, now);
          if !done {
            SameName(z, ce, i, src.rr[i].value, now, d);
            PutBack(key, d);
            return false, i;
          }
          ce := d;
        }
        i := i + 1;
      }
      MergeIsSafe(z, lim, c, src, now);
      var d := Marked(ce, src);
      HoldsFlagged(key, ce, d);
      PutBack(key, d);
      ok := true;
    }

    lemma HoldsFlagged(key: Key, c: Cent, d: Cent)
      requires Holds(key, c, {}) && Exact(z, d) && d == c.(flags := d.flags, cns := d.cns, csoa := d.csoa)
      requires c.flags <= d.flags <= c.flags + {DF_AUTH, DF_WILD}
      ensures Holds(key, d, {})
    {
      hide Exact, Sorted, Mesh;
      var e, e' := ents[key := c], ents[key := d];
      assert DF_LOCAL in d.flags <==> DF_LOCAL in c.flags;
      assert DF_NEGATIVE in d.flags <==> DF_NEGATIVE in c.flags;
      MeshSame(e, {}, e', {}, lents, rrl);
    }

    /** The entry, not in the hash table yet, is freed again: its nodes leave the list. */
    method Discard(key: Key, c: Cent, ghost skip: set<Place>)
      requires key !in ents && Holds(key, c, skip) && forall p :: p in skip ==> p.0 == key
      modifies `lents, `rrl
      ensures Linked(ents, {})
    {
      hide Mesh, Sorted, Exact, WithoutKey;
      FreeCent(key, c, ents[key := c], skip);
      assert ents[key := c] - {key} == ents;
    }

    /** The first part of add_cache: a copy of the input becomes a new entry. Without memory
        nothing is kept. */
    method NewEnt(key: Key, src: Cent) returns (ok: bool)
      requires Valid() && key !in ents && Exact(z, src) && KeyOf(src.qname) == key
      modifies `ents, `lents, `rrl, `cacheSize, `entNum, `nextId
      ensures Valid() && ents == if ok then old(ents)[key := Adjusted(lim, src)] else old(ents)
      ensures ok ==> |rrl| <= |old(rrl)| + NRRTOT
    {
      hide Mesh, Sorted, Total, Exact, Adjusted, AdjustedTo;
      var copied := *;
      if !copied {
        return false;
      }
      var ce := src;
      if DF_NEGATIVE in src.flags {
        ce := AdjustDomTtl(lim, src);
        NegStart(key, src, ce);
        ok := InsertRrl((key, -1), ce, ents[key := ce], {(key, -1)});
        if !ok {
          Discard(key, ce, {(key, -1)});
          return;
        }
        assert {(key, -1)} - {(key, -1)} == {};
      } else {
        ce, ok := ListSets(key, src);
        if !ok {
          return;
        }
      }
      ok := *;
      if !ok {
        Discard(key, ce, {});
        return;
      }
      Install(key, ce);
    }

    /** add_dns_hash has succeeded. */
    method Install(key: Key, c: Cent)
      requires key !in ents && Holds(key, c, {}) && KeyOf(c.qname) == key
      requires AllExact(z, ents) && cacheSize == Total(ents) && entNum == |ents|
      modifies `ents, `cacheSize, `entNum
      ensures Valid() && ents == old(ents)[key := c]
    {
      hide Mesh, Sorted, Exact, Total;
      TotalUpdate(ents, key, c);
      ents := ents[key := c];
      entNum := entNum + 1;
      cacheSize := cacheSize + c.cs;
    }

    lemma NegStart(key: Key, src: Cent, ce: Cent)
      requires Valid() && key !in ents && Exact(z, src) && Negative(src) && ce == AdjustDomTtl(lim, src)
      ensures Holds(key, ce, {(key, -1)}) && Negative(ce) && ce == Adjusted(lim, src) && ce.qname == src.qname
    {
      hide Mesh, Sorted, AllExact, Total;
      MeshSame(ents, {}, ents[key := ce], {(key, -1)}, lents, rrl);
    }

    lemma SetsStart(key: Key, src: Cent)
      requires Valid() && key !in ents && Exact(z, src) && !Negative(src)
      ensures Holds(key, src, PlacesFrom(key, 0)) && AdjustedTo(z, lim, src, src, 0) && |src.rr| <= NRRTOT
    {
      hide Mesh, Sorted, AllExact, Total;
      MeshSame(ents, {}, ents[key := src], PlacesFrom(key, 0), lents, rrl);
    }

    lemma AdjustHolds(key: Key, c: Cent, d: Cent, i: nat, skip: set<Place>)
      requires Holds(key, c, skip) && Exact(z, d) && i < |c.rr|
      requires d == c.(rr := c.rr[i := AdjustSlot(lim, c.rr[i])])
      ensures Holds(key, d, skip)
    {
      hide Holds, Exact;
      HoldsAlso(key, c, d, skip);
    }

    /** Places where there is nothing to list need not be skipped. */
    lemma SkipLess(key: Key, c: Cent, skip: set<Place>, skip': set<Place>)
      requires Holds(key, c, skip) && skip' <= skip
      requires forall p :: p in skip && p !in skip' ==> p.0 == key && !Listable(c, p.1)
      ensures Holds(key, c, skip')
    {
      hide Mesh, Sorted, Exact;
      MeshSame(ents[key := c], skip, ents[key := c], skip', lents, rrl);
    }

    /** The sets of the copy: every ttl is adjusted, every set gets its node. */
    method ListSets(key: Key, src: Cent) returns (ce: Cent, ok: bool)
      requires Valid() && key !in ents && Exact(z, src) && !Negative(src)
      modifies `lents, `rrl, `nextId
      ensures ok ==> Holds(key, ce, {}) && ce == Adjusted(lim, src) && ce.qname == src.qname
      ensures ok ==> |rrl| <= |old(rrl)| + NRRTOT
      ensures !ok ==> Linked(ents, {})
    {
      hide Valid, Linked, Exact, Adjusted, AdjustedTo;
      SetsStart(key, src);
      ce := src;
      var i: nat := 0;
      while i < |src.rr|
        invariant i <= |src.rr| <= NRRTOT && |rrl| <= |old(rrl)| + i
        invariant Holds(key, ce, PlacesFrom(key, i)) && AdjustedTo(z, lim, src, ce, i)
      {
        AdjustedStep(z, lim, src, ce, i);
        var d := ce.(rr := ce.rr[i := AdjustSlot(lim, src.rr[i])]);
        AdjustHolds(key, ce, d, i, PlacesFrom(key, i));
        if d.rr[i].Some? {
          ok := InsertRrl((key, i), d, ents[key := d], PlacesFrom(key, i));
          if !ok {
            Discard(key, d, PlacesFrom(key, i));
            return;
          }
          assert PlacesFrom(key, i) - {(key, i)} == PlacesFrom(key, i + 1);
        } else {
          SkipLess(key, d, PlacesFrom(key, i), PlacesFrom(key, i + 1));
        }
        ce := d;
        i := i + 1;
      }
      AdjustedDone(z, lim, src, ce);
      SkipLess(key, ce, PlacesFrom(key, i), {});
      ok := true;
    }

    /** Whether an entry has local sets. */
    method HasLocals(c: Cent) returns (r: bool)
      ensures r == !NoLocals(c)
    {
      var i: nat := 0;
      while i < |c.rr|
        invariant i <= |c.rr| && forall j: nat :: j < i ==> !IsLocalAt(c, j)
      {
        if c.rr[i].Some? && CF_LOCAL in c.rr[i].value.flags {
          assert IsLocalAt(c, i);
          return true;
        }
        i := i + 1;
      }
      return false;
    }

    /** add_cache for a name that is not in the cache, or with negative input, which replaces the
        entry there is unless that has local sets. */
    method StoreNew(key: Key, src: Cent, now: int) returns (res: AddResult)
      requires Valid() && Exact(z, src) && key == KeyOf(src.qname) && (key in ents ==> Negative(src))
      requires |src.rr| <= NRRTOT && AllExact(z, ents)
      modifies `ents, `lents, `rrl, `cacheSize, `entNum, `nextId
      ensures Valid() && Safe(old(ents), src, ents) && (res != NO_MEMORY ==> |rrl| <= |old(rrl)| + NRRTOT)
      ensures Adds(z, lim, old(ents), src, now, res, 0, ents)
    {
      hide Valid, Exact, Safe, Adjusted, NoLocals;
      ghost var e := ents;
      SafeSelf(e, src);
      StoredNew(e, src, now);
      if key in ents {
        var local := HasLocals(ents[key]);
        if local {
          return BLOCKED;
        }
        DelCacheEnt(key);
        SafeRemove(e, src, key);
      } else if src.numRrs == 0 && DF_NEGATIVE !in src.flags {
        return USELESS;
      }
      NewIsSafe(e, src);
      var ok := NewEnt(key, src);
      assert e - {key} == ents || ents == e[key := Adjusted(lim, src)];
      res := if ok then STORED else NO_MEMORY;
    }

    lemma NewIsSafe(e: Ents, src: Cent)
      requires Exact(z, src)
      requires var key := KeyOf(src.qname); key in e ==> Negative(src) && NoLocals(e[key])
      ensures Safe(e, src, e[KeyOf(src.qname) := Adjusted(lim, src)])
    {
      AdjustedFree(lim, src);
      SafeUpdate(e, src, KeyOf(src.qname), Adjusted(lim, src));
    }

    /** add_cache for a name in the cache, unless the input is negative. */
    method StoreMerged(key: Key, src: Cent, now: int) returns (res: AddResult, ghost at: nat)
      requires Valid() && Exact(z, src) && key == KeyOf(src.qname) && key in ents && !Negative(src)
      requires |src.rr| <= NRRTOT && AllExact(z, ents)
      modifies `ents, `lents, `rrl, `cacheSize, `entNum, `nextId
      ensures Valid() && Safe(old(ents), src, ents) && |rrl| <= |old(rrl)| + NRRTOT
      ensures Adds(z, lim, old(ents), src, now, res, at, ents)
    {
      hide Valid, Exact, Safe, Purged, Stale, Spent, PurgedItems, CutShort, Merged, NoLocals;
      ghost var e := ents;
      StoredSafe(z, lim, e, src, now);
      AfterPurgeExact(z, e, key, now);
      var _ := PurgeCent(key, false, false, now);
      var ok;
      ok, at := MergeEnt(key, src, now);
      if ok {
        return STORED, at;
      }
      PartlySafe(z, lim, e, src, now, at, ents[key]);
      assert ents == e[key := ents[key]];
      res := NO_MEMORY;
    }

    lemma AllEntriesExact()
      requires Valid()
      ensures AllExact(z, ents)
    {
    }

    lemma RoomFor(src: Cent)
      requires Exact(z, src)
      ensures |src.rr| <= NRRTOT && (Negative(src) ==> src.rr == [])
    {
    }

    /** add_cache: mid and list are the entries and the list before the cache is brought back to
        size, which takes no more than purge_cache has to take. Without memory, an entry that is merged into is left
        as far as set `at` of the input, and one that was to be new or replaced is gone. */
    method AddCache(src: Cent, now: int) 
        returns (res: AddResult, ghost at: nat, ghost mid: Ents, ghost list: seq<Lent>)
      requires Valid() && Exact(z, src) && |rrl| + NRRTOT < LIST_LIMIT
      modifies `ents, `lents, `rrl, `cacheSize, `entNum, `insertSort, `nextId
      ensures Valid() && AllExact(z, old(ents)) && |src.rr| <= NRRTOT
      ensures Safe(old(ents), src, ents)
      ensures Adds(z, lim, old(ents), src, now, res, at, mid)
      ensures if res == STORED || res == USELESS then
          && Shrunk(mid, ents) && Listing(mid, list)
          && (exists m, k :: PurgedTo(z, mid, list, old(insertSort), MaxSize(), true, now, m, k, ents, rrl))
          && (Total(mid) <= permCache * 1024 + MCSZ ==> ents == mid)
          && (cacheSize <= permCache * 1024 + MCSZ || forall k :: k in ents ==> OnlyLocal(ents[k]))
        else ents == mid
      ensures var key := KeyOf(src.qname);
        res == STORED && !Negative(src) && (key in old(ents) ==> NoExclusion(old(ents)[key], src)) ==>
          key in mid
          && var loc := key in old(ents) && DF_LOCAL in old(ents)[key].flags;
             forall j: nat :: At(mid[key], j) == SlotAfter(lim, loc, OldSlot(old(ents), key, j, now), At(src, j), now)
      ensures var key := KeyOf(src.qname);
        forall j: nat :: key in old(ents) && !Negative(src) && Guarded(old(ents)[key], src, j, now) ==>
          key in mid && At(mid[key], j) == At(old(ents)[key], j)
      ensures res == STORED ==> FaceIs(lim, old(ents), src, now, mid)
      ensures var key := KeyOf(src.qname);
        res == BLOCKED <==> key in old(ents) && DF_NEGATIVE in src.flags && HasLocal(old(ents)[key].rr)
      ensures Hollows(ents) == (Hollows(old(ents)) - {KeyOf(src.qname)})
        + if Emptied(z, lim, old(ents), src, now, res, at) then {KeyOf(src.qname)} else {}
      ensures var key := KeyOf(src.qname);
        key in old(ents) && LocalNegative(old(ents)[key]) ==>
          (key in ents && LocalNegative(ents[key]) <==>
             Spares(src) || (Negative(src) && DF_LOCAL in src.flags && res == STORED))
    {
      hide Valid, Safe, Adds, Exact, Total, Shrunk, Wants, Hollow, Emptied, LocalNegative, Spares;
      hide Guarded, SlotAfter, NoExclusion, OldSlot, FaceIs, HasLocal, PurgedTo, Listing, OnlyLocal;
      AllEntriesExact();
      RoomFor(src);
      var key := KeyOf(src.qname);
      if key in ents && DF_NEGATIVE !in src.flags {
        res, at := StoreMerged(key, src, now);
      } else {
        at := 0;
        res := StoreNew(key, src, now);
      }
      mid, list := ents, rrl;
      SlotsOf(old(ents), src, now, res, at, mid);
      FaceOf(old(ents), src, now, res, at, mid);
      if res == STORED || res == USELESS {
        ListedMeans();
        var m, k := PurgeCache(MaxSize(), true, now);
        if Total(mid) <= MaxSize() {
          SmallEnough(z, mid, list, old(insertSort), MaxSize(), now, m, k, ents, rrl);
        }
        SafeThenShrunk(old(ents), src, mid, ents);
      } else {
        ShrunkSelf(ents);
      }
      HollowsAdded(z, lim, old(ents), src, now, res, at, mid, ents);
      if key in old(ents) && LocalNegative(old(ents)[key]) {
        LocalNegativeAdded(z, lim, old(ents), src, now, res, at, mid, ents);
      }
    }

    /** The rest of the cache then, and when the input is kept out. */
    lemma FaceOf(e: Ents, src: Cent, now: int, res: AddResult, at: nat, mid: Ents)
      requires AllExact(z, e) && |src.rr| <= NRRTOT && Adds(z, lim, e, src, now, res, at, mid)
      ensures res == STORED ==> FaceIs(lim, e, src, now, mid)
      ensures var key := KeyOf(src.qname);
        res == BLOCKED <==> key in e && DF_NEGATIVE in src.flags && HasLocal(e[key].rr)
    {
      hide Exact, FaceIs, HasLocal, NoLocals, Stored, CutStored;
      var key := KeyOf(src.qname);
      if key in e {
        HasLocalMeans(e[key]);
      }
      if res == STORED {
        FaceAdded(z, lim, e, src, now, at, mid);
      }
    }

    /** The sets of the entry once the input is stored. */
    lemma SlotsOf(e: Ents, src: Cent, now: int, res: AddResult, at: nat, mid: Ents)
      requires AllExact(z, e) && |src.rr| <= NRRTOT && Adds(z, lim, e, src, now, res, at, mid)
      ensures var key := KeyOf(src.qname);
        res == STORED && !Negative(src) && (key in e ==> NoExclusion(e[key], src)) ==>
          key in mid
          && var loc := key in e && DF_LOCAL in e[key].flags;
             forall j: nat :: At(mid[key], j) == SlotAfter(lim, loc, OldSlot(e, key, j, now), At(src, j), now)
      ensures var key := KeyOf(src.qname);
        forall j: nat :: key in e && !Negative(src) && Guarded(e[key], src, j, now) ==>
          key in mid && At(mid[key], j) == At(e[key], j)
    {
      hide Adds, Exact, Guarded, SlotAfter, NoExclusion, OldSlot;
      var key := KeyOf(src.qname);
      if res == STORED && !Negative(src) && (key in e ==> NoExclusion(e[key], src)) {
        SlotsAdded(z, lim, e, src, now, at, mid);
      }
      forall j: nat | key in e && !Negative(src) && Guarded(e[key], src, j, now)
        ensures key in mid && At(mid[key], j) == At(e[key], j)
      {
        AnswerKept(z, lim, e, src, now, res, at, mid, j);
      }
    }

    lemma StoredNew(e: Ents, src: Cent, now: int)
      requires AllExact(z, e) && |src.rr| <= NRRTOT && (KeyOf(src.qname) !in e || Negative(src))
      ensures Stored(z, lim, e, src, now) == e[KeyOf(src.qname) := Adjusted(lim, src)]
    {
    }

    // ---------- lookup_cache, among other threads ----------

    /** What other threads do to the cache while nobody holds the lock. */
    method OtherThreads(ops: seq<Op>)
      requires Valid() && forall k :: 0 <= k < |ops| && ops[k].ADD? ==> Exact(z, ops[k].src)
      modifies `ents, `lents, `rrl, `cacheSize, `entNum, `insertSort, `nextId
      ensures Valid() && (ops == [] ==> ents == old(ents))
    {
      hide Valid, Exact, Safe, Adds, Shrunk, Emptied, Hollow, AfterPurge, Find;
      var k: nat := 0;
      while k < |ops|
        invariant k <= |ops| && Valid() && (ops == [] ==> ents == old(ents))
      {
        match ops[k] {
          case ADD(src, now) =>
            if |rrl| + NRRTOT < LIST_LIMIT {
              var _, _, _, _ := AddCache(src, now);
            }
          case DELETE(name) =>
            DelCache(name);
          case PURGE(name, now) =>
            var _, _, _ := WritePath(name, true, now, true);
        }
        k := k + 1;
      }
    }

    /** lookup_cache. Between the read lock and the write lock other threads may change the cache,
        in whatever way `others` says; mid are the entries they leave. When there is nothing to
        purge the write lock is never taken. Either way the outcome is that of looking the name
        up in mid and purging it there, and what is returned is fresh at that time. */
    method LookupCache(name: seq<Label>, wild: bool, now: int, later: int, mem: bool, others: seq<Op>)
        returns (ret: Option<Cent>, w: Wild, ghost key: Option<Key>, ghost mid: Ents, ghost when: int)
      requires Valid() && forall k :: 0 <= k < |others| && others[k].ADD? ==> Exact(z, others[k].src)
      modifies `ents, `lents, `rrl, `cacheSize, `entNum, `insertSort, `nextId
      ensures Valid()
      ensures var k := Find(old(ents), name, wild).0;
        if k.Some? && k.value in old(ents) && PurgeResult(old(ents), k.value, true, now) != 0
        then when == later && (others == [] ==> mid == old(ents)) else when == now && mid == old(ents)
      ensures (key, w) == Find(mid, name, wild) && (key.Some? ==> key.value in mid)
      ensures ents == if key.Some? then AfterPurge(z, mid, key.value, true, when) else mid
      ensures ret == if key.Some? && key.value in ents && mem then Some(ents[key.value]) else None
      ensures mem ==> (ret.Some? <==> key.Some? && !Lapsed(mid[key.value], when))
      ensures ret.Some? ==> FreshCopy(mid[key.value], ret.value, when)
      ensures ret.Some? ==> !Spent(ret.value, when) && forall i: nat :: !GoneAt(ret.value, i, when)
    {
      hide Valid, Find, PurgeResult, AfterPurge, Exact, Lapsed, FreshCopy, Spent, GoneAt;
      mid, when := ents, now;
      AllEntriesExact();
      var purge;
      purge, ret, w, key := ReadPath(name, wild, now, mem);
      if purge != 0 {
        OtherThreads(others);
        mid, when := ents, later;
        AllEntriesExact();
        ret, w, key := WritePath(name, wild, later, mem);
      } else if key.Some? {
        NothingToPurge(z, mid, key.value, true, now);
      }
      if key.Some? {
        PurgeMeans(z, mid, key.value, true, when);
      }
      if ret.Some? {
        PurgedIsFresh(z, mid, key.value, when);
      }
    }

  }

  /** By this much the cache in memory may exceed the size of the permanent one. */
  const MCSZ: nat := 10240
}
