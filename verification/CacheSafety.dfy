/** What add_cache stores, over all the entries, and what it leaves alone. */
module CacheSafety {
  import opened Names
  import opened Wrappers
  import opened CacheEntry
  import opened CachePolicy
  import opened CacheLinks
  import opened CachePurge
  import opened CacheFresh
  import opened CacheMerge

  /** The entries once the input is stored, before the cache is brought back to size: merged into
      what is there, or in place of it when the input is negative. */
  ghost function Stored(z: Sizes, l: Limits, e: Ents, src: Cent, now: int): Ents
    requires forall k :: k in e ==> Exact(z, e[k])
    requires |src.rr| <= NRRTOT
  {
    var key := KeyOf(src.qname);
    if key in e && !Negative(src) then
      var e1 := AfterPurge(z, e, key, false, now);
      AfterPurgeExact(z, e, key, now);
      e1[key := Merged(z, l, e1[key], src, now)]
    else e[key := Adjusted(l, src)]
  }

  lemma AfterPurgeExact(z: Sizes, e: Ents, key: Key, now: int)
    requires key in e && Exact(z, e[key])
    ensures key in AfterPurge(z, e, key, false, now) && Exact(z, AfterPurge(z, e, key, false, now)[key])
  {
    PurgedAt(z, e[key], now);
  }

  ghost predicate AllLocalsKept(e: Ents, e': Ents) {
    forall k :: k in e && !NoLocals(e[k]) ==> k in e' && LocalsKept(e[k], e'[k])
  }

  ghost predicate AllConflictFree(e: Ents) {
    forall k :: k in e ==> ConflictFree(e[k])
  }

  /** Input without local sets touches none, and conflicts come into the cache only with a new
      entry that has them. */
  ghost predicate Safe(e: Ents, src: Cent, e': Ents) {
    && (NoLocals(src) ==> AllLocalsKept(e, e'))
    && (AllConflictFree(e) && ((KeyOf(src.qname) in e && !Negative(src)) || ConflictFree(src)) ==> AllConflictFree(e'))
  }

  lemma ShrunkSafe(e: Ents, e': Ents)
    requires Shrunk(e, e')
    ensures AllLocalsKept(e, e') && (AllConflictFree(e) ==> AllConflictFree(e'))
  {
    forall k | k in e && !NoLocals(e[k]) ensures k in e' && LocalsKept(e[k], e'[k]) {
      var i: nat :| IsLocalAt(e[k], i);
      assert !Listable(e[k], i);
      forall j: nat | IsLocalAt(e[k], j) ensures At(e'[k], j) == At(e[k], j) {
        assert !Listable(e[k], j);
      }
    }
    if AllConflictFree(e) {
      forall k | k in e' ensures ConflictFree(e'[k]) {
        StaysFree(e[k], e'[k], e'[k], 0, RrSet(0, 0, {}, []));
      }
    }
  }

  lemma SafeThenShrunk(e: Ents, src: Cent, m: Ents, e': Ents)
    requires Safe(e, src, m) && Shrunk(m, e')
    ensures Safe(e, src, e')
  {
    ShrunkSafe(m, e');
    if NoLocals(src) {
      forall k | k in e && !NoLocals(e[k]) ensures k in e' && LocalsKept(e[k], e'[k]) {
        var i: nat :| IsLocalAt(e[k], i);
        assert At(m[k], i) == At(e[k], i) && IsLocalAt(m[k], i);
      }
    }
  }

  lemma SafeSelf(e: Ents, src: Cent)
    ensures Safe(e, src, e)
  {
  }

  /** One entry changed safely. */
  lemma SafeUpdate(e: Ents, src: Cent, key: Key, d: Cent)
    requires key == KeyOf(src.qname)
    requires key in e && NoLocals(src) ==> NoLocals(e[key]) || LocalsKept(e[key], d)
    requires ConflictFree(d) || (key in e && !Negative(src) && !ConflictFree(e[key]))
      || ((key !in e || Negative(src)) && !ConflictFree(src))
    ensures Safe(e, src, e[key := d])
  {
  }

  lemma SafeRemove(e: Ents, src: Cent, key: Key)
    requires key in e ==> NoLocals(e[key])
    ensures Safe(e, src, e - {key})
  {
  }

  /** Purging an entry keeps what is local in it. */
  lemma PurgedSafe(z: Sizes, e: Ents, key: Key, now: int)
    requires key in e && Exact(z, e[key])
    ensures var c := AfterPurge(z, e, key, false, now)[key];
      LocalsKept(e[key], c) && (ConflictFree(e[key]) ==> ConflictFree(c)) && c.qname == e[key].qname
  {
    PurgedAt(z, e[key], now);
    var c := AfterPurge(z, e, key, false, now)[key];
    var d := Purged(z, e[key], now);
    assert forall j: nat :: At(c, j) == At(d, j);
    StaysFree(e[key], c, c, 0, RrSet(0, 0, {}, []));
  }

  lemma LocalsKeptTwice(a: Cent, b: Cent, c: Cent)
    requires LocalsKept(a, b) && LocalsKept(b, c)
    ensures LocalsKept(a, c)
  {
    forall i: nat | IsLocalAt(a, i) ensures At(c, i) == At(a, i) {
      assert IsLocalAt(b, i);
    }
  }

  lemma AdjustedFree(l: Limits, c: Cent)
    ensures ConflictFree(c) && !Negative(c) ==> ConflictFree(Adjusted(l, c))
    ensures Negative(c) && c.rr == [] ==> ConflictFree(Adjusted(l, c))
  {
    var d := Adjusted(l, c);
    if !Negative(c) {
      forall i: nat ensures At(d, i).Some? <==> At(c, i).Some?
        ensures At(d, i).Some? ==> (CF_NEGATIVE in At(d, i).value.flags <==> CF_NEGATIVE in At(c, i).value.flags)
      {
      }
      forall i: nat, j: nat ensures Clashes(d, i, j) == Clashes(c, i, j) {
      }
    }
  }

  /** Storing the input is safe. */
  lemma StoredSafe(z: Sizes, l: Limits, e: Ents, src: Cent, now: int)
    requires forall k :: k in e ==> Exact(z, e[k])
    requires |src.rr| <= NRRTOT && (Negative(src) ==> src.rr == [])
    requires var k := KeyOf(src.qname); k in e && Negative(src) ==> NoLocals(e[k])
    ensures Safe(e, src, Stored(z, l, e, src, now))
  {
    hide Merged, Purged, Refreshed, Adjusted, Exact, ConflictFree, LocalsKept;
    var key := KeyOf(src.qname);
    if key in e && !Negative(src) {
      AfterPurgeExact(z, e, key, now);
      var c := AfterPurge(z, e, key, false, now)[key];
      PurgedSafe(z, e, key, now);
      MergeIsSafe(z, l, c, src, now);
      var d := Merged(z, l, c, src, now);
      if NoLocals(src) {
        LocalsKeptTwice(e[key], c, d);
      }
      SafeUpdate(e, src, key, d);
      assert Stored(z, l, e, src, now) == e[key := d];
    } else {
      AdjustedFree(l, src);
      SafeUpdate(e, src, key, Adjusted(l, src));
    }
  }

  /** So is a merge that ran out of memory half way. */
  lemma PartlySafe(z: Sizes, l: Limits, e: Ents, src: Cent, now: int, at: nat, d: Cent)
    requires forall k :: k in e ==> Exact(z, e[k])
    requires |src.rr| <= NRRTOT && KeyOf(src.qname) in e && !Negative(src)
    requires var c := AfterPurge(z, e, KeyOf(src.qname), false, now)[KeyOf(src.qname)];
      Exact(z, c) && CutShort(z, l, c, src, now, at, d)
    ensures Safe(e, src, e[KeyOf(src.qname) := d])
  {
    var key := KeyOf(src.qname);
    var c := AfterPurge(z, e, key, false, now)[key];
    PurgedSafe(z, e, key, now);
    PartialMergeIsSafe(z, l, c, src, now, at, d);
    if NoLocals(src) {
      LocalsKeptTwice(e[key], c, d);
    }
    SafeUpdate(e, src, key, d);
  }

  // ---------- the outcome of add_cache ----------

  /** How add_cache ends: stored; kept out by local data; nothing in it to store; out of
      memory. */
  datatype AddResult = STORED | BLOCKED | USELESS | NO_MEMORY

  /** Memory ran out while the set `at` of the input was merged into the entry. */
  ghost predicate CutStored(z: Sizes, l: Limits, e: Ents, src: Cent, now: int, at: nat, mid: Ents)
    requires |src.rr| <= NRRTOT
  {
    var key := KeyOf(src.qname);
    && key in e && key in mid && mid == e[key := mid[key]]
    && Exact(z, AfterPurge(z, e, key, false, now)[key])
    && CutShort(z, l, AfterPurge(z, e, key, false, now)[key], src, now, at, mid[key])
  }

  /** The entries mid that add_cache makes of e before the cache is brought back to size. */
  ghost predicate Adds(z: Sizes, l: Limits, e: Ents, src: Cent, now: int, res: AddResult, at: nat, mid: Ents)
    requires forall k :: k in e ==> Exact(z, e[k])
    requires |src.rr| <= NRRTOT
  {
    var key := KeyOf(src.qname);
    && (res == BLOCKED <==> key in e && Negative(src) && !NoLocals(e[key]))
    && (res == USELESS <==> key !in e && src.numRrs == 0 && !Negative(src))
    && match res
       case STORED => mid == Stored(z, l, e, src, now)
       case NO_MEMORY =>
         if key in e && !Negative(src) then CutStored(z, l, e, src, now, at, mid) else mid == e - {key}
       case _ => mid == e
  }

  /** The entry after the purge that comes before a merge. */
  lemma PurgedFirst(z: Sizes, e: Ents, key: Key, now: int)
    requires key in e && Exact(z, e[key])
    ensures key in AfterPurge(z, e, key, false, now)
    ensures var c := AfterPurge(z, e, key, false, now)[key];
      && Exact(z, c) && c.flags + {DF_AUTH} == e[key].flags + {DF_AUTH}
      && (forall j: nat :: At(c, j) == if GoneAt(e[key], j, now) then None else At(e[key], j))
      && (LocalNegative(e[key]) ==> c == e[key])
  {
    PurgedAt(z, e[key], now);
    var c, d := AfterPurge(z, e, key, false, now)[key], Purged(z, e[key], now);
    assert forall j: nat :: At(c, j) == At(d, j);
  }

  /** What the merge does not get, and what it deletes, of an entry c of the cache: c is positive;
      the input has no sets, or c is local and the input has only sets it refuses; and every set
      of c goes, because it has timed out or because the input has one of its type. */
  ghost predicate Empties(c: Cent, src: Cent, now: int) {
    && !Negative(c)
    && (forall j: nat :: At(src, j).Some? ==> DF_LOCAL in c.flags && !Forced(At(src, j).value))
    && (forall j: nat :: At(c, j).Some? && !GoneAt(c, j, now) ==>
          At(src, j).Some? && !Outranked(At(c, j), At(src, j).value, now))
  }

  /** When add_cache leaves an entry without a set: merging empties it, or memory runs out while
      all its sets are out of the way for the new one. */
  ghost predicate Emptied(z: Sizes, l: Limits, e: Ents, src: Cent, now: int, res: AddResult, at: nat)
    requires forall k :: k in e ==> Exact(z, e[k])
    requires |src.rr| <= NRRTOT
  {
    var key := KeyOf(src.qname);
    && key in e && !Negative(src)
    && if res == STORED then Empties(e[key], src, now)
       else
         var c := AfterPurge(z, e, key, false, now)[key];
         AfterPurgeExact(z, e, key, now);
         && at < |src.rr| && src.rr[at].Some?
         && AllDisplaced(MergeSets(z, l, c, src, now, at), at, src.rr[at].value)
  }

  lemma StoredHollow(z: Sizes, l: Limits, e: Ents, src: Cent, now: int)
    requires forall k :: k in e ==> Exact(z, e[k])
    requires |src.rr| <= NRRTOT && KeyOf(src.qname) in e && !Negative(src)
    ensures var k := KeyOf(src.qname); Hollow(Stored(z, l, e, src, now)[k]) <==> Empties(e[k], src, now)
  {
    hide Merged, Empties, Exact;
    var key := KeyOf(src.qname);
    AfterPurgeExact(z, e, key, now);
    var c := AfterPurge(z, e, key, false, now)[key];
    EmptiedIff(z, l, c, src, now);
    EmptiesFirst(z, e, key, src, now);
  }

  /** A set that has timed out is out of the way already when the merge begins. */
  lemma EmptiesFirst(z: Sizes, e: Ents, key: Key, src: Cent, now: int)
    requires key in e && Exact(z, e[key]) && key in AfterPurge(z, e, key, false, now)
    ensures var c := AfterPurge(z, e, key, false, now)[key];
      Empties(e[key], src, now) <==> !Negative(c) && Emptying(c, src, now)
  {
    PurgedFirst(z, e, key, now);
    var c := AfterPurge(z, e, key, false, now)[key];
    hide AfterPurge, Exact, Outranked, Forced, Gone;
    assert DF_LOCAL in c.flags + {DF_AUTH} <==> DF_LOCAL in e[key].flags + {DF_AUTH};
    assert DF_NEGATIVE in c.flags + {DF_AUTH} <==> DF_NEGATIVE in e[key].flags + {DF_AUTH};
    if Emptying(c, src, now) && !Negative(c) {
      forall j: nat | At(e[key], j).Some? && !GoneAt(e[key], j, now)
        ensures At(src, j).Some? && !Outranked(At(e[key], j), At(src, j).value, now)
      {
        assert At(c, j).Some?;
      }
    }
  }

  lemma NewNotHollow(z: Sizes, l: Limits, src: Cent)
    requires Exact(z, src) && (src.numRrs != 0 || Negative(src))
    ensures !Hollow(Adjusted(l, src))
  {
    var d := Adjusted(l, src);
    if !Negative(src) {
      CountZero(src.rr);
      var i :| 0 <= i < |src.rr| && src.rr[i] != None;
      assert At(d, i).Some?;
    }
  }

  /** An entry under another name is hollow before if and only if it is after. */
  lemma HollowsUpdate(e: Ents, key: Key, m: Ents)
    requires forall k :: k != key ==> (k in m <==> k in e) && (k in m ==> m[k] == e[k])
    ensures Hollows(m) == (Hollows(e) - {key}) + if key in m && Hollow(m[key]) then {key} else {}
  {
  }

  lemma StoredOnly(z: Sizes, l: Limits, e: Ents, src: Cent, now: int, k: Key)
    requires forall k :: k in e ==> Exact(z, e[k])
    requires |src.rr| <= NRRTOT && k != KeyOf(src.qname)
    ensures var m := Stored(z, l, e, src, now); (k in m <==> k in e) && (k in m ==> m[k] == e[k])
  {
  }

  /** add_cache leaves a positive entry without sets if and only if Emptied says so. The purge at
      its end changes nothing about that. */
  lemma HollowsAdded(z: Sizes, l: Limits, e: Ents, src: Cent, now: int, res: AddResult, at: nat, mid: Ents, e': Ents)
    requires forall k :: k in e ==> Exact(z, e[k])
    requires Exact(z, src) && |src.rr| <= NRRTOT
    requires Adds(z, l, e, src, now, res, at, mid) && Shrunk(mid, e')
    ensures Hollows(e') == (Hollows(e) - {KeyOf(src.qname)})
      + if Emptied(z, l, e, src, now, res, at) then {KeyOf(src.qname)} else {}
  {
    hide Exact, Adjusted, Merged, AfterPurge, Shrunk, CutShort, AllDisplaced, Empties, Hollow;
    var key := KeyOf(src.qname);
    HollowsStay(mid, e');
    forall k | k != key ensures (k in mid <==> k in e) && (k in mid ==> mid[k] == e[k]) {
      StoredOnly(z, l, e, src, now, k);
    }
    HollowsUpdate(e, key, mid);
    if key in e && !Negative(src) {
      AfterPurgeExact(z, e, key, now);
      if res == STORED {
        StoredHollow(z, l, e, src, now);
      } else {
        ShortHollow(z, l, AfterPurge(z, e, key, false, now)[key], src, now, at, mid[key]);
      }
    } else if res == STORED {
      NewNotHollow(z, l, src);
    } else if res == BLOCKED {
      LocalNotHollow(e[key]);
    }
  }

  lemma ShortHollow(z: Sizes, l: Limits, c: Cent, src: Cent, now: int, at: nat, d: Cent)
    requires Exact(z, c) && |src.rr| <= NRRTOT && CutShort(z, l, c, src, now, at, d)
    ensures at < |src.rr| && src.rr[at].Some?
    ensures Hollow(d) <==> AllDisplaced(MergeSets(z, l, c, src, now, at), at, src.rr[at].value)
  {
    EmptiedShortIff(z, l, c, src, now, at, d);
  }

  lemma LocalNotHollow(c: Cent)
    requires !NoLocals(c)
    ensures !Hollow(c)
  {
    var i: nat :| IsLocalAt(c, i);
    assert At(c, i).Some?;
  }

  /** A local negative entry is still there, and still local and negative, after add_cache if and
      only if the input is positive without sets that are local or negative, when it stays as it
      was but for marks, or is itself local and negative and could be stored. */
  lemma LocalNegativeAdded(z: Sizes, l: Limits, e: Ents, src: Cent, now: int, res: AddResult, at: nat, mid: Ents,
                           e': Ents)
    requires forall k :: k in e ==> Exact(z, e[k])
    requires |src.rr| <= NRRTOT && Adds(z, l, e, src, now, res, at, mid) && Shrunk(mid, e')
    requires KeyOf(src.qname) in e && LocalNegative(e[KeyOf(src.qname)])
    ensures var key := KeyOf(src.qname);
      && (key in e' && LocalNegative(e'[key]) <==>
            Spares(src) || (Negative(src) && DF_LOCAL in src.flags && res == STORED))
      && (Spares(src) ==> res == STORED && key in e' && e'[key] == Marked(e[key], src))
  {
    hide Exact, Merged, AfterPurge, CutShort, Spares;
    var key := KeyOf(src.qname);
    NeverBlocks(z, e[key]);
    PurgedFirst(z, e, key, now);
    var c := e[key];
    if Negative(src) {
      assert !Spares(src) by {
        NotSpared(src);
      }
      LocalNegativeShrunk(mid, e', key);
    } else {
      LocalNegativeIff(z, l, c, src, now);
      if res == STORED {
        LocalNegativeShrunk(mid, e', key);
      } else {
        assert !Spares(src) by {
          if Spares(src) {
            SparedNeedsNone(z, l, c, src, now, at, mid[key]);
          }
        }
        PositiveAfterCut(z, l, c, src, now, at, mid[key]);
        LocalNegativeShrunk(mid, e', key);
      }
    }
  }

  lemma NotSpared(src: Cent)
    requires Negative(src)
    ensures !Spares(src)
  {
  }

  lemma NeverBlocks(z: Sizes, c: Cent)
    requires Exact(z, c) && LocalNegative(c)
    ensures NoLocals(c)
  {
  }

  lemma PositiveAfterCut(z: Sizes, l: Limits, c: Cent, src: Cent, now: int, at: nat, d: Cent)
    requires Exact(z, c) && |src.rr| <= NRRTOT && CutShort(z, l, c, src, now, at, d)
    ensures !Negative(d)
  {
  }

  lemma LocalNegativeShrunk(mid: Ents, e': Ents, key: Key)
    requires Shrunk(mid, e')
    ensures key in mid && LocalNegative(mid[key]) ==> key in e' && e'[key] == mid[key]
    ensures key in e' && LocalNegative(e'[key]) ==> key in mid && LocalNegative(mid[key])
  {
    if key in mid && DF_LOCAL in mid[key].flags {
      assert Unlisted(mid[key]);
    }
    if key in e' {
      assert DF_LOCAL in e'[key].flags + {DF_AUTH} <==> DF_LOCAL in mid[key].flags + {DF_AUTH};
      assert DF_NEGATIVE in e'[key].flags + {DF_AUTH} <==> DF_NEGATIVE in mid[key].flags + {DF_AUTH};
    }
  }

  // ---------- what is stored ----------

  /** The set of type j under the name of the input, unless it has timed out. */
  function OldSlot(e: Ents, key: Key, j: nat, now: int): Option<RrSet> {
    if key in e then KeptSlot(At(e[key], j), now) else None
  }

  lemma PurgedSlots(z: Sizes, e: Ents, key: Key, now: int)
    requires key in e && Exact(z, e[key])
    ensures key in AfterPurge(z, e, key, false, now)
    ensures forall j: nat :: At(AfterPurge(z, e, key, false, now)[key], j) == KeptSlot(At(e[key], j), now)
  {
    hide AfterPurge, Exact, Gone, Stays;
    PurgedFirst(z, e, key, now);
    forall j: nat ensures At(AfterPurge(z, e, key, false, now)[key], j) == KeptSlot(At(e[key], j), now) {
      if At(e[key], j).Some? {
        GoneMeans(At(e[key], j).value, now);
      }
    }
  }

  /** Positive input, where no types exclude each other: every set of the entry is as SlotAfter
      says, starting from what had not timed out. */
  lemma SlotsAdded(z: Sizes, l: Limits, e: Ents, src: Cent, now: int, at: nat, mid: Ents)
    requires forall k :: k in e ==> Exact(z, e[k])
    requires |src.rr| <= NRRTOT && !Negative(src) && Adds(z, l, e, src, now, STORED, at, mid)
    requires KeyOf(src.qname) in e ==> NoExclusion(e[KeyOf(src.qname)], src)
    ensures var key := KeyOf(src.qname);
      && key in mid
      && var loc := key in e && DF_LOCAL in e[key].flags;
         forall j: nat :: At(mid[key], j) == SlotAfter(l, loc, OldSlot(e, key, j, now), At(src, j), now)
  {
    hide Exact, AfterPurge, SlotAfter, Exclude, Stays;
    var key := KeyOf(src.qname);
    if key in e {
      PurgedSlots(z, e, key, now);
      PurgedFirst(z, e, key, now);
      var c := AfterPurge(z, e, key, false, now)[key];
      assert DF_LOCAL in c.flags + {DF_AUTH} <==> DF_LOCAL in e[key].flags + {DF_AUTH};
      FewerExclude(e[key], c, src);
      MergeSetsSlots(z, l, c, src, now, |src.rr|);
      PastTheEnd(l, DF_LOCAL in c.flags, c, src, now);
    } else {
      AdjustedSlots(l, src, now);
    }
  }

  /** The rest of the entry, and of the cache, once the input is stored: a new entry, or negative
      input, is taken over as it is; one that was merged into gets DF_AUTH and DF_WILD and the
      longer references of the two, those of the old one that led nowhere aside. */
  ghost predicate FaceIs(l: Limits, e: Ents, src: Cent, now: int, mid: Ents) {
    var key := KeyOf(src.qname);
    && key in mid && mid - {key} == e - {key}
    && var d := mid[key];
       if key !in e || Negative(src) then
         && d.qname == src.qname && d.cns == src.cns && d.csoa == src.csoa && d.negTs == src.negTs
         && d.flags == (if Negative(src) then src.flags - {DF_NOCACHE} else src.flags)
         && (Negative(src) ==> d == AdjustDomTtl(l, src))
       else
         var c := e[key];
         && d.qname == c.qname
         && d.flags - {DF_AUTH, DF_WILD, DF_NEGATIVE} == c.flags - {DF_AUTH, DF_WILD, DF_NEGATIVE}
         && (DF_WILD in d.flags <==> DF_WILD in c.flags || DF_WILD in src.flags)
         && (DF_AUTH in src.flags ==> DF_AUTH in d.flags) && (DF_AUTH in d.flags ==> DF_AUTH in c.flags + src.flags)
         && (DF_NEGATIVE in d.flags ==> DF_NEGATIVE in c.flags)
         && Longer(if Cleared(e, c, c.cns, 1, now) then CUNDEF else c.cns, src.cns, d.cns)
         && Longer(if Cleared(e, c, c.csoa, 3, now) then CUNDEF else c.csoa, src.csoa, d.csoa)
  }

  lemma FaceAdded(z: Sizes, l: Limits, e: Ents, src: Cent, now: int, at: nat, mid: Ents)
    requires forall k :: k in e ==> Exact(z, e[k]) && KeyOf(e[k].qname) == k
    requires |src.rr| <= NRRTOT && Adds(z, l, e, src, now, STORED, at, mid)
    ensures FaceIs(l, e, src, now, mid)
  {
    hide Exact, AfterPurge, Cleared, Longer;
    var key := KeyOf(src.qname);
    if key in e && !Negative(src) {
      PurgeMeans(z, e, key, false, now);
      AfterPurgeExact(z, e, key, now);
      var e1 := AfterPurge(z, e, key, false, now);
      FaceMerged(z, l, e1[key], src, now);
      assert mid - {key} == e1 - {key};
    } else {
      AdjustDomTtlMeans(l, src);
      assert mid - {key} == e - {key};
    }
  }

  lemma FaceMerged(z: Sizes, l: Limits, c: Cent, src: Cent, now: int)
    requires Exact(z, c) && |src.rr| <= NRRTOT && !Negative(src)
    ensures var d := Merged(z, l, c, src, now);
      && d.qname == c.qname
      && d.flags - {DF_AUTH, DF_WILD, DF_NEGATIVE} == c.flags - {DF_AUTH, DF_WILD, DF_NEGATIVE}
      && (DF_WILD in d.flags <==> DF_WILD in c.flags || DF_WILD in src.flags)
      && (DF_AUTH in src.flags ==> DF_AUTH in d.flags) && (DF_AUTH in d.flags ==> DF_AUTH in c.flags + src.flags)
      && (DF_NEGATIVE in d.flags ==> DF_NEGATIVE in c.flags)
      && Longer(c.cns, src.cns, d.cns) && Longer(c.csoa, src.csoa, d.csoa)
  {
    hide Exact, MergeSets, Longer, BetterRef;
    MergeSetsKeep(z, l, c, src, now, |src.rr|);
    BetterRefMeans(c.cns, src.cns);
    BetterRefMeans(c.csoa, src.csoa);
    var m := MergeSets(z, l, c, src, now, |src.rr|);
    OtherFlags(c.flags, m.flags, src.flags);
  }

  lemma OtherFlags(c: set<EntFlag>, m: set<EntFlag>, s: set<EntFlag>)
    requires m + {DF_AUTH, DF_NEGATIVE} == c + {DF_AUTH, DF_NEGATIVE} && m <= c
    ensures var d := m + (s * {DF_AUTH, DF_WILD});
      && d - {DF_AUTH, DF_WILD, DF_NEGATIVE} == c - {DF_AUTH, DF_WILD, DF_NEGATIVE}
      && (DF_WILD in d <==> DF_WILD in c || DF_WILD in s)
      && (DF_AUTH in s ==> DF_AUTH in d) && (DF_AUTH in d ==> DF_AUTH in c + s)
      && (DF_NEGATIVE in d ==> DF_NEGATIVE in c)
  {
    var d := m + (s * {DF_AUTH, DF_WILD});
    forall f: EntFlag | f !in {DF_AUTH, DF_WILD, DF_NEGATIVE} ensures f in d <==> f in c {
      assert f in m + {DF_AUTH, DF_NEGATIVE} <==> f in c + {DF_AUTH, DF_NEGATIVE};
    }
    assert DF_WILD in m + {DF_AUTH, DF_NEGATIVE} <==> DF_WILD in c + {DF_AUTH, DF_NEGATIVE};
  }

  lemma FewerExclude(c: Cent, d: Cent, src: Cent)
    requires NoExclusion(c, src) && forall j: nat :: At(d, j) == At(c, j) || At(d, j) == None
    ensures NoExclusion(d, src)
  {
    hide Exclude;
    forall i: nat, j: nat | At(src, i).Some? && CF_NEGATIVE !in At(src, i).value.flags ensures !Clashes(d, i, j) {
      assert !Clashes(c, i, j);
    }
  }

  lemma PastTheEnd(l: Limits, loc: bool, c: Cent, src: Cent, now: int)
    ensures forall j: nat :: j >= |src.rr| ==> SlotAfter(l, loc, At(c, j), At(src, j), now) == At(c, j)
  {
  }

  lemma AdjustedSlots(l: Limits, src: Cent, now: int)
    requires !Negative(src)
    ensures forall j: nat :: At(Adjusted(l, src), j) == SlotAfter(l, false, None, At(src, j), now)
  {
  }

  /** The set of type j may stay, and the input has nothing to put in its place but additional
      data, where it is an answer, and no set of a type that excludes it. */
  ghost predicate Guarded(c: Cent, src: Cent, j: nat, now: int) {
    && At(c, j).Some? && Stays(At(c, j).value, now)
    && (At(src, j).Some? ==> AnswerThere(At(c, j).value, At(src, j).value, now))
    && forall i: nat :: At(src, i).Some? && CF_NEGATIVE !in At(src, i).value.flags ==> !Exclude(i, j)
  }

  /** An answer in time stays what it is, whatever additional data come and even if memory runs
      out, unless the input has a set of a type that excludes it. */
  lemma AnswerKept(z: Sizes, l: Limits, e: Ents, src: Cent, now: int, res: AddResult, at: nat, mid: Ents, j: nat)
    requires forall k :: k in e ==> Exact(z, e[k])
    requires |src.rr| <= NRRTOT && !Negative(src) && Adds(z, l, e, src, now, res, at, mid)
    requires KeyOf(src.qname) in e && Guarded(e[KeyOf(src.qname)], src, j, now)
    ensures var key := KeyOf(src.qname); key in mid && At(mid[key], j) == At(e[key], j)
  {
    hide Exact, AfterPurge, Exclude, Stays, MayAdd, AnswerThere;
    var key := KeyOf(src.qname);
    PurgedSlots(z, e, key, now);
    AfterPurgeExact(z, e, key, now);
    var c := AfterPurge(z, e, key, false, now)[key];
    AnswerSurvives(z, l, c, src, now, |src.rr|, j);
    if res == NO_MEMORY {
      AnswerSurvives(z, l, c, src, now, at, j);
      OutrankedMeans(At(c, j), src.rr[at].value, now);
      assert At(src, at) == src.rr[at];
    }
  }

  // ---------- inputs ----------

  const HOST: seq<Label> := [[97]]
  const HOST_KEY: Key := KeyOf(HOST)

  /** An entry for HOST with one set of addresses, or none. */
  function Sample(z: Sizes, flags: set<EntFlag>, o: Option<RrSet>): (c: Cent)
    ensures Exact(z, c) && KeyOf(c.qname) == HOST_KEY && c.flags == flags && |c.rr| <= NRRTOT
    ensures forall j: nat :: At(c, j) == if j == 0 && DF_NEGATIVE !in flags then o else None
  {
    var rr := if DF_NEGATIVE in flags then [] else [o] + Nones(NRRMU - 1);
    SetsEmpty(z, Nones(NRRMU - 1));
    SetsConcat(z, [o], Nones(NRRMU - 1));
    OneSlot(z, o);
    Cent(HOST, z.cent + |Encode(HOST)| + SetsSize(z, rr), Count(rr), flags, rr, 0, 0, CUNDEF, CUNDEF)
  }

  const ORDINARY := RrSet(0, 0, {}, [[1, 2, 3, 4]])
  const DENIED := RrSet(0, 0, {CF_NEGATIVE}, [])
  const CONFIGURED := RrSet(0, 0, {CF_LOCAL}, [[1, 2, 3, 4]])

  /** Three ways to an entry without sets, from a cache without one: all its sets have timed out
      and the input has none; a local entry deletes its set and refuses the new one; a negative
      entry has become positive when memory runs out. */
  lemma ThreeEmptied(z: Sizes, l: Limits)
    ensures var e := map[HOST_KEY := Sample(z, {}, Some(ORDINARY))];
      Hollows(e) == {} && Hollows(Stored(z, l, e, Sample(z, {}, None), 200)) == {HOST_KEY}
    ensures var e := map[HOST_KEY := Sample(z, {DF_LOCAL}, Some(DENIED))];
      Hollows(e) == {} && Hollows(Stored(z, l, e, Sample(z, {}, Some(ORDINARY)), 0)) == {HOST_KEY}
    ensures var e := map[HOST_KEY := Sample(z, {DF_NEGATIVE}, None)];
      var src, mid := Sample(z, {}, Some(ORDINARY)), map[HOST_KEY := Positive(e[HOST_KEY])];
      Adds(z, l, e, src, 0, NO_MEMORY, 0, mid) && Hollows(e) == {} && Hollows(mid) == {HOST_KEY}
  {
    OutdatedEmptied(z, l);
    RefusalEmpties(z, l);
    CutAtFirst(z, l);
  }

  lemma OutdatedEmptied(z: Sizes, l: Limits)
    ensures var e := map[HOST_KEY := Sample(z, {}, Some(ORDINARY))];
      Hollows(e) == {} && Hollows(Stored(z, l, e, Sample(z, {}, None), 200)) == {HOST_KEY}
  {
    hide Stored, Exact, Sample;
    var c, src := Sample(z, {}, Some(ORDINARY)), Sample(z, {}, None);
    assert At(c, 0).Some?;
    StoredHollow(z, l, map[HOST_KEY := c], src, 200);
    StoredKeys(z, l, c, src, 200);
  }

  lemma RefusalEmpties(z: Sizes, l: Limits)
    ensures var e := map[HOST_KEY := Sample(z, {DF_LOCAL}, Some(DENIED))];
      Hollows(e) == {} && Hollows(Stored(z, l, e, Sample(z, {}, Some(ORDINARY)), 0)) == {HOST_KEY}
  {
    hide Stored, Exact, Sample;
    var c, src := Sample(z, {DF_LOCAL}, Some(DENIED)), Sample(z, {}, Some(ORDINARY));
    assert At(c, 0).Some?;
    StoredHollow(z, l, map[HOST_KEY := c], src, 0);
    StoredKeys(z, l, c, src, 0);
  }

  lemma StoredKeys(z: Sizes, l: Limits, c: Cent, src: Cent, now: int)
    requires Exact(z, c) && KeyOf(src.qname) == HOST_KEY && |src.rr| <= NRRTOT
    ensures Stored(z, l, map[HOST_KEY := c], src, now).Keys == {HOST_KEY}
  {
  }

  lemma CutAtFirst(z: Sizes, l: Limits)
    ensures var e := map[HOST_KEY := Sample(z, {DF_NEGATIVE}, None)];
      var src, mid := Sample(z, {}, Some(ORDINARY)), map[HOST_KEY := Positive(e[HOST_KEY])];
      Adds(z, l, e, src, 0, NO_MEMORY, 0, mid) && Hollows(e) == {} && Hollows(mid) == {HOST_KEY}
  {
    var c, src := Sample(z, {DF_NEGATIVE}, None), Sample(z, {}, Some(ORDINARY));
    var e := map[HOST_KEY := c];
    var mid := map[HOST_KEY := Positive(c)];
    PositiveExact(z, c);
    assert AfterPurge(z, e, HOST_KEY, false, 0)[HOST_KEY] == c by {
      PurgedAt(z, c, 0);
    }
    assert src.rr[0] == Some(ORDINARY) && DelSet(z, c, 0) == c;
    NoClash(c, 0, 0);
    assert CutShort(z, l, c, src, 0, 0, Positive(c));
    assert mid == e[HOST_KEY := mid[HOST_KEY]];
  }

  /** Three inputs that end a local negative entry: negative input, a set that is negative, a set
      that is local. */
  lemma ThreeEndDenial(z: Sizes, l: Limits)
    ensures var e := map[HOST_KEY := Sample(z, {DF_LOCAL, DF_NEGATIVE}, None)];
      && LocalNegative(e[HOST_KEY])
      && !LocalNegative(Stored(z, l, e, Sample(z, {DF_NEGATIVE}, None), 0)[HOST_KEY])
      && !LocalNegative(Stored(z, l, e, Sample(z, {}, Some(DENIED)), 0)[HOST_KEY])
      && !LocalNegative(Stored(z, l, e, Sample(z, {}, Some(CONFIGURED)), 0)[HOST_KEY])
  {
    var c := Sample(z, {DF_LOCAL, DF_NEGATIVE}, None);
    var e := map[HOST_KEY := c];
    PurgedFirst(z, e, HOST_KEY, 0);
    var a, b := Sample(z, {}, Some(DENIED)), Sample(z, {}, Some(CONFIGURED));
    assert At(a, 0).Some? && At(b, 0).Some?;
    LocalNegativeIff(z, l, c, a, 0);
    LocalNegativeIff(z, l, c, b, 0);
  }
}
