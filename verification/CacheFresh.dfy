/** Purging one entry (purge_all_rrsets, purge_cent): what goes, how much that is, and that
    counting it beforehand gives the same answer. */
module CacheFresh {
  import opened Names
  import opened Wrappers
  import opened CacheEntry
  import opened CachePolicy
  import opened CacheLinks

  predicate GoneAt(c: Cent, i: nat, now: int) {
    At(c, i).Some? && Gone(At(c, i).value, now)
  }

  /** The entry without those of its first n sets that have timed out. */
  function PurgeSets(z: Sizes, c: Cent, now: int, n: nat): Cent {
    if n == 0 then c
    else
      var d := PurgeSets(z, c, now, n - 1);
      if GoneAt(c, n - 1, now) then DelSet(z, d, n - 1) else d
  }

  function GoneCount(c: Cent, now: int, n: nat): nat {
    if n == 0 then 0 else GoneCount(c, now, n - 1) + if GoneAt(c, n - 1, now) then 1 else 0
  }

  /** How many of the sets from lo to n stay. */
  function KeptCount(c: Cent, now: int, lo: nat, n: nat): nat {
    if n <= lo then 0
    else KeptCount(c, now, lo, n - 1) + if At(c, n - 1).Some? && !GoneAt(c, n - 1, now) then 1 else 0
  }

  lemma {:induction false} PurgeSetsAt(z: Sizes, c: Cent, now: int, n: nat)
    requires Exact(z, c) && n <= |c.rr|
    ensures var d := PurgeSets(z, c, now, n);
      && Exact(z, d) && |d.rr| == |c.rr| && d.numRrs == c.numRrs - GoneCount(c, now, n)
      && d == c.(rr := d.rr, cs := d.cs, numRrs := d.numRrs, flags := d.flags)
      && d.flags == (if GoneCount(c, now, n) > 0 then c.flags - {DF_AUTH} else c.flags)
      && (forall j: nat :: At(d, j) == if j < n && GoneAt(c, j, now) then None else At(c, j))
      && (GoneCount(c, now, n) == 0 ==> d == c)
  {
    hide Exact, Gone;
    if n > 0 {
      PurgeSetsAt(z, c, now, n - 1);
      DelSetExact(z, PurgeSets(z, c, now, n - 1), n - 1);
    }
  }

  lemma {:induction false} KeptIsCount(c: Cent, now: int, n: nat)
    requires n <= |c.rr|
    ensures KeptCount(c, now, 0, n) + GoneCount(c, now, n) == Count(c.rr[..n])
  {
    if n == 0 {
      assert c.rr[..0] == [];
    } else {
      KeptIsCount(c, now, n - 1);
      assert c.rr[..n] == c.rr[..n - 1] + [c.rr[n - 1]];
      SetsConcat(Sizes(0, 0, 0, 0), c.rr[..n - 1], [c.rr[n - 1]]);
      OneSlot(Sizes(0, 0, 0, 0), c.rr[n - 1]);
    }
  }

  lemma {:induction false} KeptNone(c: Cent, now: int, lo: nat, n: nat)
    ensures KeptCount(c, now, lo, n) == 0 <==> forall j: nat :: lo <= j < n ==> At(c, j).None? || GoneAt(c, j, now)
  {
    if n > lo {
      KeptNone(c, now, lo, n - 1);
    }
  }

  /** The array of rarer types would be empty. */
  predicate RoomUnused(c: Cent, now: int) {
    |c.rr| == NRRTOT && KeptCount(c, now, NRRMU, NRRTOT) == 0
  }

  /** The entry after purge_all_rrsets. */
  function Purged(z: Sizes, c: Cent, now: int): Cent {
    var d := PurgeSets(z, c, now, |c.rr|);
    if |c.rr| == NRRTOT && |d.rr| == NRRTOT && RoomUnused(c, now)
    then d.(rr := d.rr[..NRRMU], cs := d.cs - z.ext) else d
  }

  /** What purge_all_rrsets returns. */
  function PurgedItems(c: Cent, now: int): nat {
    GoneCount(c, now, |c.rr|) + if RoomUnused(c, now) then 1 else 0
  }

  lemma PurgedAt(z: Sizes, c: Cent, now: int)
    requires Exact(z, c)
    ensures var d := Purged(z, c, now);
      && Exact(z, d) && d == c.(rr := d.rr, cs := d.cs, numRrs := d.numRrs, flags := d.flags)
      && d.flags + {DF_AUTH} == c.flags + {DF_AUTH} && d.flags <= c.flags
      && (forall j: nat :: At(d, j) == if GoneAt(c, j, now) then None else At(c, j))
      && d.numRrs == KeptCount(c, now, 0, |c.rr|)
      && (PurgedItems(c, now) == 0 ==> d == c)
  {
    hide Gone, PurgeSets, GoneCount, KeptCount;
    var n := |c.rr|;
    PurgeSetsAt(z, c, now, n);
    KeptIsCount(c, now, n);
    assert c.rr[..n] == c.rr;
    if RoomUnused(c, now) {
      KeptNone(c, now, NRRMU, NRRTOT);
      var d := PurgeSets(z, c, now, n);
      assert forall j: nat :: j >= NRRMU ==> At(d, j) == None;
      RoomFreed(z, d);
    }
  }

  /** The array of rarer types goes when it is empty. */
  lemma RoomFreed(z: Sizes, d: Cent)
    requires Exact(z, d) && |d.rr| == NRRTOT && forall j: nat :: j >= NRRMU ==> At(d, j) == None
    ensures var f := d.(rr := d.rr[..NRRMU], cs := d.cs - z.ext);
      Exact(z, f) && forall j: nat :: At(f, j) == At(d, j)
  {
    var a, b := d.rr[..NRRMU], d.rr[NRRMU..];
    assert d.rr == a + b;
    forall i | 0 <= i < |b| ensures b[i] == None {
      assert b[i] == At(d, NRRMU + i);
    }
    SetsConcat(z, a, b);
    SetsEmpty(z, b);
  }

  /** Nothing else of an entry is touched by purging its sets. */
  lemma PurgedFace(z: Sizes, c: Cent, now: int)
    requires Exact(z, c)
    ensures var d := Purged(z, c, now);
      && (DF_LOCAL in d.flags <==> DF_LOCAL in c.flags) && (DF_NEGATIVE in d.flags <==> DF_NEGATIVE in c.flags)
      && d.qname == c.qname && d.negTs == c.negTs && d.negTtl == c.negTtl && d.cns == c.cns && d.csoa == c.csoa
  {
    hide Purged, Exact, KeptCount;
    PurgedAt(z, c, now);
    var d := Purged(z, c, now);
    assert DF_LOCAL in d.flags + {DF_AUTH} <==> DF_LOCAL in c.flags + {DF_AUTH};
    assert DF_NEGATIVE in d.flags + {DF_AUTH} <==> DF_NEGATIVE in c.flags + {DF_AUTH};
  }

  // ---------- what purging comes to ----------

  /** The sets among the first n that may not stay. */
  ghost function Overdue(c: Cent, now: int, n: nat): set<nat> {
    set j: nat | j < n && At(c, j).Some? && !Stays(At(c, j).value, now)
  }

  /** Nothing of the entry may stay: no set, nor the entry itself as a negative answer. */
  ghost predicate Lapsed(c: Cent, now: int) {
    && (forall j: nat :: At(c, j).Some? ==> !Stays(At(c, j).value, now))
    && (Negative(c) ==> DF_LOCAL !in c.flags && !Within(c.negTs, c.negTtl, now))
  }

  /** d is what may be handed out of c. */
  ghost predicate FreshCopy(c: Cent, d: Cent, now: int) {
    && d.qname == c.qname && d.flags + {DF_AUTH} == c.flags + {DF_AUTH} && d.flags <= c.flags
    && d.negTtl == c.negTtl && d.negTs == c.negTs
    && forall j: nat :: At(d, j) == KeptSlot(At(c, j), now)
  }

  lemma {:induction false} GoneCountIs(c: Cent, now: int, n: nat)
    ensures GoneCount(c, now, n) == |Overdue(c, now, n)|
  {
    hide Gone, Stays;
    if n == 0 {
      assert Overdue(c, now, 0) == {};
    } else {
      GoneCountIs(c, now, n - 1);
      var a, b := Overdue(c, now, n), Overdue(c, now, n - 1);
      if At(c, n - 1).Some? {
        GoneMeans(At(c, n - 1).value, now);
      }
      assert a == if GoneAt(c, n - 1, now) then b + {n - 1} else b;
    }
  }

  lemma GoneAtMeans(c: Cent, now: int)
    ensures forall j: nat :: At(c, j).Some? ==> (GoneAt(c, j, now) <==> !Stays(At(c, j).value, now))
  {
    hide Gone, Stays;
    forall j: nat | At(c, j).Some? ensures GoneAt(c, j, now) <==> !Stays(At(c, j).value, now) {
      GoneMeans(At(c, j).value, now);
    }
  }

  lemma SpentMeans(c: Cent, now: int)
    ensures Spent(c, now) <==> Lapsed(c, now)
  {
    hide Gone, Stays, TimedOut;
    KeptNone(c, now, 0, |c.rr|);
    GoneAtMeans(c, now);
    TimedOutMeans(c.negTs, c.negTtl, now);
    if Spent(c, now) {
      forall j: nat | At(c, j).Some? ensures !Stays(At(c, j).value, now) {
        assert j < |c.rr|;
      }
    }
  }

  /** Purging again at the same time finds nothing to do. */
  lemma PurgedTwice(z: Sizes, c: Cent, now: int)
    requires Exact(z, c)
    ensures PurgedItems(Purged(z, c, now), now) == 0 && Purged(z, Purged(z, c, now), now) == Purged(z, c, now)
  {
    var d := Purged(z, c, now);
    PurgedAt(z, c, now);
    PurgedAt(z, d, now);
    NoneGone(d, now, |d.rr|);
    if |d.rr| == NRRTOT {
      assert |c.rr| == NRRTOT by {
        PurgeSetsAt(z, c, now, |c.rr|);
      }
      KeptNone(c, now, NRRMU, NRRTOT);
      KeptNone(d, now, NRRMU, NRRTOT);
    }
  }

  lemma {:induction false} NoneGone(c: Cent, now: int, n: nat)
    requires forall j: nat :: !GoneAt(c, j, now)
    ensures GoneCount(c, now, n) == 0
  {
    if n > 0 {
      NoneGone(c, now, n - 1);
    }
  }

  // ---------- purge_cent ----------

  /** The set that c_ns or c_soa refers to: that of the ancestor with n labels. */
  function Referred(e: Ents, c: Cent, n: nat, idx: nat): Option<RrSet> {
    if n == |c.qname| then At(c, idx)
    else if n < |c.qname| then
      var k := KeyOf(c.qname[|c.qname| - n..]);
      if k in e then At(e[k], idx) else None
    else None
  }

  /** The reference is defined but leads nowhere any more. */
  predicate Stale(e: Ents, c: Cent, n: nat, idx: nat, now: int) {
    && DF_LOCAL !in c.flags && n != CUNDEF
    && var o := Referred(e, c, n, idx);
       || o.None? || o.value.rrs == []
       || (CF_LOCAL !in o.value.flags && Old(o.value, now))
  }

  function Refreshed(e: Ents, c: Cent, now: int): Cent {
    c.(cns := if Stale(e, c, c.cns, RRMUINDEX_NS, now) then CUNDEF else c.cns,
       csoa := if Stale(e, c, c.csoa, RRMUINDEX_SOA, now) then CUNDEF else c.csoa)
  }

  function StaleCount(e: Ents, c: Cent, now: int): nat {
    (if Stale(e, c, c.cns, RRMUINDEX_NS, now) then 1 else 0)
    + if Stale(e, c, c.csoa, RRMUINDEX_SOA, now) then 1 else 0
  }

  /** The entry is to be deleted as a whole. */
  predicate Spent(c: Cent, now: int) {
    && KeptCount(c, now, 0, |c.rr|) == 0
    && (!Negative(c) || (DF_LOCAL !in c.flags && TimedOut(c.negTs, c.negTtl, now)))
  }

  /** What purge_cent returns. */
  function PurgeResult(e: Ents, key: Key, delete: bool, now: int): int
    requires key in e
  {
    if delete && Spent(e[key], now) then -1 else PurgedItems(e[key], now) + StaleCount(e, e[key], now)
  }

  /** The entries after purge_cent. */
  function AfterPurge(z: Sizes, e: Ents, key: Key, delete: bool, now: int): Ents
    requires key in e
  {
    if delete && Spent(e[key], now) then e - {key}
    else
      var d := Purged(z, e[key], now);
      e[key := Refreshed(e[key := d], d, now)]
  }

  /** A reference leads to a set: it is that of the entry itself or of an ancestor, with at least
      one record, and local or in time. */
  ghost predicate Leads(e: Ents, c: Cent, n: nat, idx: nat, now: int) {
    && n <= |c.qname|
    && var k := KeyOf(c.qname[|c.qname| - n..]);
       && k in e && At(e[k], idx).Some?
       && var s := At(e[k], idx).value;
          s.rrs != [] && (CF_LOCAL in s.flags || Within(s.ts, s.ttl, now))
  }

  lemma StaleMeans(e: Ents, c: Cent, n: nat, idx: nat, now: int)
    requires KeyOf(c.qname) in e && e[KeyOf(c.qname)] == c
    ensures Stale(e, c, n, idx, now) <==> DF_LOCAL !in c.flags && n != CUNDEF && !Leads(e, c, n, idx, now)
  {
    if n == |c.qname| {
      assert c.qname[0..] == c.qname;
    }
    var o := Referred(e, c, n, idx);
    if o.Some? {
      GoneMeans(o.value, now);
    }
  }

  /** The reference is one that purge_cent sets back. */
  ghost predicate Cleared(e: Ents, c: Cent, n: nat, idx: nat, now: int) {
    DF_LOCAL !in c.flags && n != CUNDEF && !Leads(e, c, n, idx, now)
  }

  /** e' is what purge_cent leaves of e: nothing of an entry that has lapsed, if it may go; else
      the sets that may stay, and the references that lead to a set, the others being set back;
      those of a local entry are not looked at. */
  ghost predicate PurgedEntry(e: Ents, key: Key, delete: bool, now: int, e': Ents)
    requires key in e
  {
    var c := e[key];
    && (key !in e' <==> delete && Lapsed(c, now)) && e' - {key} == e - {key}
    && (key in e' ==>
          var d := e'[key];
          && FreshCopy(c, d, now)
          && d.cns == (if Cleared(e, c, c.cns, 1, now) then CUNDEF else c.cns)
          && d.csoa == (if Cleared(e, c, c.csoa, 3, now) then CUNDEF else c.csoa)
          && (DF_LOCAL !in d.flags && d.cns != CUNDEF ==> Leads(e', d, d.cns, 1, now))
          && (DF_LOCAL !in d.flags && d.csoa != CUNDEF ==> Leads(e', d, d.csoa, 3, now)))
  }

  lemma PurgeMeans(z: Sizes, e: Ents, key: Key, delete: bool, now: int)
    requires key in e && Exact(z, e[key]) && KeyOf(e[key].qname) == key
    ensures PurgedEntry(e, key, delete, now, AfterPurge(z, e, key, delete, now))
  {
    hide Purged, Stale, Spent, Lapsed, Leads, Exact, KeptCount;
    var c, d := e[key], Purged(z, e[key], now);
    SpentMeans(c, now);
    PurgedFace(z, c, now);
    if !(delete && Spent(c, now)) {
      var m := e[key := d];
      var d' := Refreshed(m, d, now);
      CopyRefreshed(z, c, now, d');
      RefPurged(z, e, key, c.cns, 1, now);
      RefPurged(z, e, key, c.csoa, 3, now);
      LeadsStill(m, key, d', c.cns, 1, now);
      LeadsStill(m, key, d', c.csoa, 3, now);
      var e' := AfterPurge(z, e, key, delete, now);
      assert e' == m[key := d'];
      assert e' - {key} == e - {key};
    }
  }

  lemma CopyRefreshed(z: Sizes, c: Cent, now: int, d': Cent)
    requires Exact(z, c) && d' == Purged(z, c, now).(cns := d'.cns, csoa := d'.csoa)
    ensures FreshCopy(c, d', now)
  {
    PurgedIsCopy(z, c, now);
    hide Purged, Exact, KeptSlot;
    assert forall j: nat :: At(d', j) == At(Purged(z, c, now), j);
  }

  lemma PurgedIsCopy(z: Sizes, c: Cent, now: int)
    requires Exact(z, c)
    ensures FreshCopy(c, Purged(z, c, now), now)
  {
    hide Gone, Stays, Purged, Exact, KeptCount;
    PurgedAt(z, c, now);
    GoneAtMeans(c, now);
  }

  /** A reference is set back, in the purged entry, just if it leads nowhere before. */
  lemma RefPurged(z: Sizes, e: Ents, key: Key, n: nat, idx: nat, now: int)
    requires key in e && Exact(z, e[key]) && KeyOf(e[key].qname) == key
    ensures var d := Purged(z, e[key], now);
      && Stale(e[key := d], d, n, idx, now) == Cleared(e, e[key], n, idx, now)
      && (DF_LOCAL !in d.flags && n != CUNDEF && !Stale(e[key := d], d, n, idx, now) ==> Leads(e[key := d], d, n, idx, now))
  {
    hide Stale, Leads, Purged;
    var d := Purged(z, e[key], now);
    PurgedFace(z, e[key], now);
    SameStale(z, e, key, n, idx, now);
    StaleMeans(e, e[key], n, idx, now);
    StaleMeans(e[key := d], d, n, idx, now);
  }

  lemma LeadsStill(m: Ents, key: Key, d': Cent, n: nat, idx: nat, now: int)
    requires key in m && d' == m[key].(cns := d'.cns, csoa := d'.csoa)
    ensures Leads(m[key := d'], d', n, idx, now) == Leads(m, m[key], n, idx, now)
  {
    assert forall j: nat :: At(d', j) == At(m[key], j);
  }

  /** What purge_cent returns: -1 if the entry goes; otherwise how many sets go, one more if the
      array of rarer types goes, and one for each reference that is set back. */
  ghost function Purgeable(e: Ents, key: Key, delete: bool, now: int): int
    requires key in e
  {
    var c := e[key];
    if delete && Lapsed(c, now) then -1
    else
      |Overdue(c, now, |c.rr|)|
      + (if |c.rr| == 47 && (forall j: nat :: j >= 8 && At(c, j).Some? ==> !Stays(At(c, j).value, now)) then 1 else 0)
      + (if Cleared(e, c, c.cns, 1, now) then 1 else 0) + (if Cleared(e, c, c.csoa, 3, now) then 1 else 0)
  }

  lemma PurgeResultMeans(e: Ents, key: Key, delete: bool, now: int)
    requires key in e && KeyOf(e[key].qname) == key
    ensures PurgeResult(e, key, delete, now) == Purgeable(e, key, delete, now)
  {
    var c := e[key];
    SpentMeans(c, now);
    GoneCountIs(c, now, |c.rr|);
    GoneAtMeans(c, now);
    KeptNone(c, now, NRRMU, NRRTOT);
    StaleMeans(e, c, c.cns, 1, now);
    StaleMeans(e, c, c.csoa, 3, now);
    hide Gone, Stays, Stale, Leads, Spent, Lapsed, GoneCount, KeptCount, Overdue;
    if RoomUnused(c, now) {
      forall j: nat | j >= 8 && At(c, j).Some? ensures !Stays(At(c, j).value, now) {
        assert j < NRRTOT;
      }
    }
  }

  /** Purging the entry does not change which references are stale: the record referred to
      counts as stale when it is due to go and when it is gone. */
  lemma SameStale(z: Sizes, e: Ents, key: Key, n: nat, idx: nat, now: int)
    requires key in e && Exact(z, e[key]) && KeyOf(e[key].qname) == key
    ensures var d := Purged(z, e[key], now); Stale(e[key := d], d, n, idx, now) == Stale(e, e[key], n, idx, now)
  {
    hide Purged, KeptCount, Exact, TimedOut;
    var c := e[key];
    PurgedAt(z, c, now);
    var d := Purged(z, c, now);
    assert DF_LOCAL in d.flags + {DF_AUTH} <==> DF_LOCAL in c.flags + {DF_AUTH};
    assert At(d, idx) == if GoneAt(c, idx, now) then None else At(c, idx);
    if n < |c.qname| {
      assert |KeyOf(c.qname[|c.qname| - n..])| == n && |key| == |c.qname|;
    }
  }

  /** A purged entry, with its references refreshed, has nothing to purge. */
  lemma RefreshedClean(z: Sizes, c: Cent, now: int, d: Cent)
    requires Exact(z, c) && d == Purged(z, c, now).(cns := d.cns, csoa := d.csoa)
    ensures Exact(z, d) && PurgedItems(d, now) == 0 && Spent(d, now) == Spent(c, now)
  {
    PurgedAt(z, c, now);
    PurgedTwice(z, c, now);
    var p := Purged(z, c, now);
    assert forall j: nat :: At(d, j) == At(p, j);
    NoneGone(d, now, |d.rr|);
    if |d.rr| == NRRTOT {
      KeptNone(d, now, NRRMU, NRRTOT);
      KeptNone(p, now, NRRMU, NRRTOT);
    }
    KeptIsCount(d, now, |d.rr|);
    assert d.rr[..|d.rr|] == d.rr;
    assert DF_LOCAL in d.flags + {DF_AUTH} <==> DF_LOCAL in c.flags + {DF_AUTH};
    assert DF_NEGATIVE in d.flags + {DF_AUTH} <==> DF_NEGATIVE in c.flags + {DF_AUTH};
  }

  /** A purge is complete: a second one at the same time finds nothing. */
  lemma PurgeIdempotent(z: Sizes, e: Ents, key: Key, delete: bool, now: int)
    requires key in e && Exact(z, e[key]) && KeyOf(e[key].qname) == key
    requires key in AfterPurge(z, e, key, delete, now)
    ensures var e' := AfterPurge(z, e, key, delete, now);
      && PurgeResult(e', key, delete, now) == 0 && AfterPurge(z, e', key, delete, now) == e'
  {
    var c := e[key];
    var d := Purged(z, c, now);
    var d' := Refreshed(e[key := d], d, now);
    PurgedAt(z, c, now);
    RefreshedClean(z, c, now, d');
    StaysFresh(e, key, d, d', d.cns, RRMUINDEX_NS, now);
    StaysFresh(e, key, d, d', d.csoa, RRMUINDEX_SOA, now);
    hide Purged, Stale, PurgedItems, Spent;
    StaleNever(e[key := d'], d', RRMUINDEX_NS, now);
    StaleNever(e[key := d'], d', RRMUINDEX_SOA, now);
    NothingToPurge(z, e[key := d'], key, delete, now);
  }

  lemma StaleNever(e: Ents, c: Cent, idx: nat, now: int)
    ensures !Stale(e, c, CUNDEF, idx, now)
  {
  }

  lemma StaysFresh(e: Ents, key: Key, d: Cent, d': Cent, n: nat, idx: nat, now: int)
    requires KeyOf(d.qname) == key && d' == d.(cns := d'.cns, csoa := d'.csoa)
    ensures Stale(e[key := d'], d', n, idx, now) == Stale(e[key := d], d, n, idx, now)
  {
    if n < |d.qname| {
      assert |KeyOf(d.qname[|d.qname| - n..])| == n && |key| == |d.qname|;
    }
  }

  /** When purge_cent would find nothing to do, doing it changes nothing. */
  lemma NothingToPurge(z: Sizes, e: Ents, key: Key, delete: bool, now: int)
    requires key in e && Exact(z, e[key]) && KeyOf(e[key].qname) == key
    requires PurgeResult(e, key, delete, now) == 0
    ensures AfterPurge(z, e, key, delete, now) == e
  {
    PurgedAt(z, e[key], now);
  }

  /** What purge_cent leaves of an entry is fresh: no set that should have gone, and not itself
      an outdated negative answer. */
  lemma PurgedIsFresh(z: Sizes, e: Ents, key: Key, now: int)
    requires key in e && Exact(z, e[key]) && key in AfterPurge(z, e, key, true, now)
    ensures var c := AfterPurge(z, e, key, true, now)[key];
      && (forall i: nat :: !GoneAt(c, i, now)) && !Spent(c, now)
  {
    var d := Purged(z, e[key], now);
    var d' := Refreshed(e[key := d], d, now);
    PurgedAt(z, e[key], now);
    RefreshedClean(z, e[key], now, d');
    assert forall i: nat :: At(d', i) == At(d, i);
  }

  // ---------- finding an entry ----------

  datatype Wild = NO_WILD | W_WILD | W_NEG | W_LOCNERR

  /** The label "*". */
  const STAR: Label := [42]

  /** The nearest ancestor of a name in the cache decides whether a wildcard record, or the
      ancestor's own negative or local entry, may answer for it. */
  function FindWild(e: Ents, name: seq<Label>): (Option<Key>, Wild) {
    if |name| <= 1 then (None, NO_WILD)
    else
      var nm := name[1..];
      var k := KeyOf(nm);
      if k !in e then FindWild(e, nm)
      else if Negative(e[k]) then (Some(k), W_NEG)
      else if DF_WILD in e[k].flags then
        var star := KeyOf([STAR] + nm);
        if star in e then (Some(star), W_WILD) else (None, NO_WILD)
      else if DF_LOCAL in e[k].flags then (Some(k), W_LOCNERR)
      else (None, NO_WILD)
  }

  function Find(e: Ents, name: seq<Label>, wild: bool): (Option<Key>, Wild) {
    if KeyOf(name) in e then (Some(KeyOf(name)), NO_WILD)
    else if wild then FindWild(e, name)
    else (None, NO_WILD)
  }

  /** An entry of that very name is found before any wildcard, and nothing else unless wildcards
      are asked for. */
  lemma FindMeans(e: Ents, name: seq<Label>, wild: bool)
    ensures KeyOf(name) in e ==> Find(e, name, wild) == (Some(KeyOf(name)), NO_WILD)
    ensures KeyOf(name) !in e && (!wild || forall j :: 1 <= j < |name| ==> KeyOf(name[j..]) !in e) ==>
      Find(e, name, wild) == (None, NO_WILD)
    ensures KeyOf(name) !in e && wild ==> Find(e, name, wild) == FindWild(e, name)
  {
    hide FindWild;
    FindWildIs(e, name);
  }

  /** What is found is there, and under a wildcard stands for a proper ancestor of the name that
      no nearer one overrides. */
  lemma {:induction false} FindWildMeans(e: Ents, name: seq<Label>)
    ensures var (k, w) := FindWild(e, name);
      && (k.None? <==> w == NO_WILD)
      && (k.Some? ==> exists j: nat ::
            && 1 <= j < |name| && KeyOf(name[j..]) in e && k.value in e
            && k.value == KeyOf(if w == W_WILD then [STAR] + name[j..] else name[j..])
            && forall i :: 1 <= i < j ==> KeyOf(name[i..]) !in e)
  {
    if |name| > 1 {
      var nm := name[1..];
      if KeyOf(nm) !in e {
        FindWildMeans(e, nm);
        var (k, w) := FindWild(e, nm);
        if k.Some? {
          var j: nat :| 1 <= j < |nm| && KeyOf(nm[j..]) in e && k.value in e
            && k.value == KeyOf(if w == W_WILD then [STAR] + nm[j..] else nm[j..])
            && forall i :: 1 <= i < j ==> KeyOf(nm[i..]) !in e;
          assert nm[j..] == name[j + 1..];
          forall i | 1 <= i < j + 1 ensures KeyOf(name[i..]) !in e {
            if i > 1 {
              assert nm[i - 1..] == name[i..];
            }
          }
        }
      } else {
        assert nm == name[1..];
      }
    }
  }

  /** name[j..] is the nearest proper ancestor of the name that is in the cache. */
  ghost predicate Nearest(e: Ents, name: seq<Label>, j: nat) {
    1 <= j < |name| && KeyOf(name[j..]) in e && forall i :: 1 <= i < j ==> KeyOf(name[i..]) !in e
  }

  /** What the search answers, for the nearest ancestor: its own entry if that is negative; the
      wildcard under it, if it has one in the cache; its own entry if that is local without
      wildcards; and nothing otherwise. Without an ancestor nothing is found. */
  lemma {:induction false} FindWildIs(e: Ents, name: seq<Label>)
    ensures (forall j :: 1 <= j < |name| ==> KeyOf(name[j..]) !in e) ==> FindWild(e, name) == (None, NO_WILD)
    ensures forall j: nat :: Nearest(e, name, j) ==>
      var (k, w), own, star := FindWild(e, name), KeyOf(name[j..]), KeyOf([STAR] + name[j..]);
      var f := e[own].flags;
      && (w == W_NEG <==> DF_NEGATIVE in f)
      && (w == W_WILD <==> DF_NEGATIVE !in f && DF_WILD in f && star in e)
      && (w == W_LOCNERR <==> DF_NEGATIVE !in f && DF_WILD !in f && DF_LOCAL in f)
      && k == (if w == W_WILD then Some(star) else if w == NO_WILD then None else Some(own))
  {
    if |name| > 1 {
      var nm := name[1..];
      if KeyOf(nm) !in e {
        FindWildIs(e, nm);
        hide FindWild, KeyOf;
        assert FindWild(e, name) == FindWild(e, nm) by {
          OneUp(e, name);
        }
        forall j | 1 <= j < |nm| ensures nm[j..] == name[j + 1..] {
        }
        forall j: nat | Nearest(e, name, j) ensures j > 1 && Nearest(e, nm, j - 1) && nm[j - 1..] == name[j..] {
          forall i | 1 <= i < j - 1 ensures KeyOf(nm[i..]) !in e {
            assert nm[i..] == name[i + 1..];
          }
        }
      } else {
        assert forall j: nat :: Nearest(e, name, j) ==> j == 1;
      }
    }
  }

  lemma OneUp(e: Ents, name: seq<Label>)
    requires |name| > 1 && KeyOf(name[1..]) !in e
    ensures FindWild(e, name) == FindWild(e, name[1..])
  {
  }
}
