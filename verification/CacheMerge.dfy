/** Merging new data into an entry of the cache, as add_cache does set by set: what prevails, and
    what no input can do. */
module CacheMerge {
  import opened Names
  import opened Wrappers
  import opened CacheEntry
  import opened CachePolicy

  /** The set already there keeps the new one out: local data over other data, answers over
      additional data, root server answers over additional data from elsewhere. */
  predicate Outranked(o: Option<RrSet>, s: RrSet, now: int) {
    o.Some? &&
    ((CF_LOCAL !in s.flags && CF_LOCAL in o.value.flags)
     || (CF_ADDITIONAL in s.flags
         && (CF_ADDITIONAL !in o.value.flags || (CF_ROOTSERV !in s.flags && CF_ROOTSERV in o.value.flags))
         && !Old(o.value, now)))
  }

  /** The entry after one new set of type i. */
  ghost function MergeSet(z: Sizes, l: Limits, c: Cent, i: nat, s: RrSet, now: int): Cent
    requires Exact(z, c) && i < NRRTOT
  {
    if Outranked(At(c, i), s, now) then c
    else
      DelSetExact(z, c, i);
      var d := DelSet(z, c, i);
      CheckedAt(z, d, i, s.ttl, s.flags, now);
      if MayAdd(d, i, s.ttl, s.flags, now)
      then AddSet(z, Checked(z, d, i, s.ttl, s.flags, now), i, AdjustTtl(l, s))
      else d
  }

  ghost predicate IsLocalAt(c: Cent, i: nat) {
    At(c, i).Some? && CF_LOCAL in At(c, i).value.flags
  }

  /** The local sets of c are in c' as they were. */
  ghost predicate LocalsKept(c: Cent, c': Cent) {
    forall i: nat :: IsLocalAt(c, i) ==> At(c', i) == At(c, i)
  }

  /** Merging a set keeps the entry exact and free of conflicts, spares local sets unless the
      new one is local, and otherwise only drops sets. */
  lemma MergeSetKeeps(z: Sizes, l: Limits, c: Cent, i: nat, s: RrSet, now: int)
    requires Exact(z, c) && i < NRRTOT
    ensures var d := MergeSet(z, l, c, i, s, now);
      && Exact(z, d) && d.qname == c.qname && d.cns == c.cns && d.csoa == c.csoa
      && d.flags + {DF_AUTH, DF_NEGATIVE} == c.flags + {DF_AUTH, DF_NEGATIVE} && d.flags <= c.flags
      && (ConflictFree(c) ==> ConflictFree(d))
      && (CF_LOCAL !in s.flags ==> LocalsKept(c, d))
      && (forall j: nat :: j != i ==> At(d, j) == At(c, j) || At(d, j) == None)
      && (At(d, i) == At(c, i) || At(d, i) == None || At(d, i) == Some(AdjustTtl(l, s)))
  {
    hide MayAdd, Checked, AddSet, Exact, DelSet, ConflictFree, Old;
    if !Outranked(At(c, i), s, now) {
      DelSetExact(z, c, i);
      DelSetFlags(z, c, i);
      var d := DelSet(z, c, i);
      CheckedAt(z, d, i, s.ttl, s.flags, now);
      if MayAdd(d, i, s.ttl, s.flags, now) {
        var e := Checked(z, d, i, s.ttl, s.flags, now);
        AddSetExact(z, e, i, AdjustTtl(l, s));
        AddSetRest(z, e, i, AdjustTtl(l, s));
        StaysFree(c, e, AddSet(z, e, i, AdjustTtl(l, s)), i, AdjustTtl(l, s));
      } else {
        StaysFree(c, d, d, i, s);
      }
    }
  }

  lemma DelSetFlags(z: Sizes, c: Cent, i: nat)
    ensures var d := DelSet(z, c, i);
      && d.flags + {DF_AUTH} == c.flags + {DF_AUTH} && d.flags <= c.flags
      && d.qname == c.qname && d.cns == c.cns && d.csoa == c.csoa && |d.rr| == |c.rr|
  {
  }

  lemma AddSetRest(z: Sizes, c: Cent, i: nat, s: RrSet)
    requires Exact(z, c) && i < NRRTOT
    ensures AddSet(z, c, i, s).cns == c.cns && AddSet(z, c, i, s).csoa == c.csoa
  {
    PositiveExact(z, c);
    WithRoomExact(z, Positive(c), i);
  }

  /** Dropping sets, and adding one that clashes with none, keeps an entry free of conflicts. */
  lemma StaysFree(c: Cent, e: Cent, d: Cent, i: nat, s: RrSet)
    requires forall j: nat :: At(e, j) == At(c, j) || At(e, j) == None
    requires d == e || (forall j: nat :: At(d, j) == if j == i then Some(s) else At(e, j))
    requires d == e || CF_NEGATIVE in s.flags || forall j: nat :: !Clashes(e, i, j)
    ensures ConflictFree(c) ==> ConflictFree(d)
  {
    if ConflictFree(c) {
      forall a: nat, b: nat | At(d, a).Some? && CF_NEGATIVE !in At(d, a).value.flags ensures !Clashes(d, a, b) {
        assert !(At(c, a).Some? && CF_NEGATIVE !in At(c, a).value.flags) || !Clashes(c, a, b);
        ExcludeSymmetric(a, b);
        assert d == e || a != i || !Clashes(e, i, b) || CF_NEGATIVE in s.flags;
        assert d == e || b != i || !Clashes(e, i, a) || CF_NEGATIVE in s.flags;
      }
    }
  }

  /** An answer, as opposed to additional data, replaces what the entry has of its type, unless
      local data stands in the way or something excludes it. */
  lemma AnswerPrevails(z: Sizes, l: Limits, c: Cent, i: nat, s: RrSet, now: int)
    requires Exact(z, c) && i < NRRTOT && CF_ADDITIONAL !in s.flags && DF_LOCAL !in c.flags
    requires forall j: nat :: !IsLocalAt(c, j) && !Clashes(c, i, j)
    ensures At(MergeSet(z, l, c, i, s, now), i) == Some(AdjustTtl(l, s))
  {
    DelSetExact(z, c, i);
    var d := DelSet(z, c, i);
    assert !IsLocalAt(c, i);
    forall j: nat ensures !Clashes(d, i, j) {
      assert !Clashes(c, i, j);
    }
    NoClash(d, i, |d.rr|);
    CheckedAt(z, d, i, s.ttl, s.flags, now);
    AddSetExact(z, Checked(z, d, i, s.ttl, s.flags, now), i, AdjustTtl(l, s));
  }

  // ---------- what prevails ----------

  /** The set that is there is still in time, and s is additional data where it is an answer, or
      is not from a root server where it is. */
  predicate AnswerThere(o: RrSet, s: RrSet, now: int) {
    && CF_ADDITIONAL in s.flags && Within(o.ts, o.ttl, now)
    && (CF_ADDITIONAL !in o.flags || (CF_ROOTSERV in o.flags && CF_ROOTSERV !in s.flags))
  }

  predicate LocalThere(o: RrSet, s: RrSet) {
    CF_LOCAL in o.flags && CF_LOCAL !in s.flags
  }

  lemma OutrankedMeans(o: Option<RrSet>, s: RrSet, now: int)
    ensures Outranked(o, s, now) <==> o.Some? && (LocalThere(o.value, s) || AnswerThere(o.value, s, now))
  {
    if o.Some? {
      GoneMeans(o.value, now);
    }
  }

  /** Without its set of type i an entry takes a set of that type just as easily. */
  lemma {:induction false} OwnSetNoClash(z: Sizes, c: Cent, i: nat, now: int, n: nat)
    requires Exact(z, c)
    ensures ClashCount(DelSet(z, c, i), i, n) == ClashCount(c, i, n)
    ensures ClashTtl(DelSet(z, c, i), i, now, n) == ClashTtl(c, i, now, n)
  {
    DelSetExact(z, c, i);
    hide DelSet, Exact;
    if n > 0 {
      OwnSetNoClash(z, c, i, now, n - 1);
      assert At(DelSet(z, c, i), n - 1) == At(c, n - 1) || n - 1 == i;
    }
  }

  lemma MayAddOwn(z: Sizes, c: Cent, i: nat, ttl: int, flags: set<SetFlag>, now: int)
    requires Exact(z, c)
    ensures MayAdd(DelSet(z, c, i), i, ttl, flags, now) == MayAdd(c, i, ttl, flags, now)
  {
    DelSetExact(z, c, i);
    DelSetFlags(z, c, i);
    OwnSetNoClash(z, c, i, now, |c.rr|);
    var d := DelSet(z, c, i);
    hide DelSet, Exact;
    assert DF_LOCAL in d.flags + {DF_AUTH} <==> DF_LOCAL in c.flags + {DF_AUTH};
    assert forall j: nat :: Clashes(d, i, j) == Clashes(c, i, j) && (Clashes(c, i, j) ==> At(d, j) == At(c, j));
  }

  /** The outcome of merging one set. The entry stays as it is if and only if local data or an
      answer stands in the way; otherwise its set of that type goes, and the new one takes its
      place, if the check on excluding types lets it, and what it excludes goes too. */
  lemma MergeSetMeans(z: Sizes, l: Limits, c: Cent, i: nat, s: RrSet, now: int)
    requires Exact(z, c) && i < NRRTOT
    ensures var r, o := MergeSet(z, l, c, i, s, now), At(c, i);
      if o.Some? && (LocalThere(o.value, s) || AnswerThere(o.value, s, now)) then r == c
      else if MayAdd(c, i, s.ttl, s.flags, now) then
        forall j: nat :: At(r, j) ==
          if j == i then Some(AdjustTtl(l, s)) else if Displaced(c, i, s, j) then None else At(c, j)
      else forall j: nat :: At(r, j) == if j == i then None else At(c, j)
  {
    OutrankedMeans(At(c, i), s, now);
    if !Outranked(At(c, i), s, now) {
      MayAddOwn(z, c, i, s.ttl, s.flags, now);
      DelSetExact(z, c, i);
      var d := DelSet(z, c, i);
      CheckedAt(z, d, i, s.ttl, s.flags, now);
      hide MayAdd, DelSet, Exact, AddSet;
      if MayAdd(d, i, s.ttl, s.flags, now) {
        CheckedDisplaces(z, c, d, i, s, now);
        AddSetExact(z, Checked(z, d, i, s.ttl, s.flags, now), i, AdjustTtl(l, s));
      }
    }
  }

  lemma CheckedDisplaces(z: Sizes, c: Cent, d: Cent, i: nat, s: RrSet, now: int)
    requires Exact(z, d) && MayAdd(d, i, s.ttl, s.flags, now)
    requires forall j: nat :: At(d, j) == if j == i then None else At(c, j)
    ensures var k := Checked(z, d, i, s.ttl, s.flags, now);
      forall j: nat :: j != i ==> At(k, j) == if Displaced(c, i, s, j) then None else At(c, j)
  {
    WithoutClashesAt(z, d, i, |d.rr|);
    hide WithoutClashes, MayAdd, Exact;
    assert forall j: nat :: j != i ==> Clashes(d, i, j) == Clashes(c, i, j);
  }

  // ---------- all the sets of an entry ----------

  ghost function MergeSets(z: Sizes, l: Limits, c: Cent, src: Cent, now: int, n: nat): (d: Cent)
    requires Exact(z, c) && n <= |src.rr| <= NRRTOT
    ensures Exact(z, d)
  {
    if n == 0 then c
    else
      var d := MergeSets(z, l, c, src, now, n - 1);
      if src.rr[n - 1].None? then d
      else
        MergeSetKeeps(z, l, d, n - 1, src.rr[n - 1].value, now);
        MergeSet(z, l, d, n - 1, src.rr[n - 1].value, now)
  }

  /** The better of two references. */
  function BetterRef(old_: nat, new_: nat): nat {
    if new_ != CUNDEF && (old_ == CUNDEF || old_ < new_) then new_ else old_
  }

  /** r is the longer of two references; undefined just if both are. */
  ghost predicate Longer(a: nat, b: nat, r: nat) {
    && (r == a || r == b) && (r == CUNDEF <==> a == CUNDEF && b == CUNDEF)
    && (a != CUNDEF && b != CUNDEF ==> r >= a && r >= b)
  }

  /** Of two references the one with more labels, if any is defined. */
  lemma BetterRefMeans(a: nat, b: nat)
    ensures Longer(a, b, BetterRef(a, b))
  {
  }

  /** The flags and references that the input adds. */
  function Marked(d: Cent, src: Cent): Cent {
    d.(flags := d.flags + (src.flags * {DF_AUTH, DF_WILD}), cns := BetterRef(d.cns, src.cns),
       csoa := BetterRef(d.csoa, src.csoa))
  }

  ghost function Merged(z: Sizes, l: Limits, c: Cent, src: Cent, now: int): Cent
    requires Exact(z, c) && |src.rr| <= NRRTOT
  {
    Marked(MergeSets(z, l, c, src, now, |src.rr|), src)
  }

  ghost predicate NoLocals(c: Cent) {
    forall i: nat :: !IsLocalAt(c, i)
  }

  ghost predicate HasLocal(rr: seq<Option<RrSet>>) {
    exists i :: 0 <= i < |rr| && rr[i].Some? && CF_LOCAL in rr[i].value.flags
  }

  lemma HasLocalMeans(c: Cent)
    ensures HasLocal(c.rr) <==> !NoLocals(c)
  {
    forall i: nat | i < |c.rr| && c.rr[i].Some? && CF_LOCAL in c.rr[i].value.flags ensures IsLocalAt(c, i) {
    }
  }

  lemma {:induction false} MergeSetsKeep(z: Sizes, l: Limits, c: Cent, src: Cent, now: int, n: nat)
    requires Exact(z, c) && n <= |src.rr| <= NRRTOT
    ensures var d := MergeSets(z, l, c, src, now, n);
      && d.qname == c.qname && d.cns == c.cns && d.csoa == c.csoa
      && d.flags + {DF_AUTH, DF_NEGATIVE} == c.flags + {DF_AUTH, DF_NEGATIVE} && d.flags <= c.flags
      && (ConflictFree(c) ==> ConflictFree(d))
      && (NoLocals(src) ==> LocalsKept(c, d))
      && (forall j: nat :: j >= n ==> At(d, j) == At(c, j) || At(d, j) == None)
      && (forall j: nat :: j < n ==>
            (At(d, j) == At(c, j) || At(d, j) == None
             || (src.rr[j].Some? && At(d, j) == Some(AdjustTtl(l, src.rr[j].value)))))
  {
    hide MergeSet, ConflictFree, AdjustTtl, Exact;
    if n > 0 {
      MergeSetsKeep(z, l, c, src, now, n - 1);
      if src.rr[n - 1].Some? {
        assert NoLocals(src) ==> !IsLocalAt(src, n - 1);
        MergeSetKeeps(z, l, MergeSets(z, l, c, src, now, n - 1), n - 1, src.rr[n - 1].value, now);
      }
    }
  }

  /** Merging any input into an entry free of conflicts leaves it so, and input without local
      sets neither removes nor alters a local set. */
  lemma MergeIsSafe(z: Sizes, l: Limits, c: Cent, src: Cent, now: int)
    requires Exact(z, c) && |src.rr| <= NRRTOT
    ensures var d := Merged(z, l, c, src, now);
      && Exact(z, d) && d.qname == c.qname
      && (ConflictFree(c) ==> ConflictFree(d)) && (NoLocals(src) ==> LocalsKept(c, d))
      && (forall j: nat :: At(d, j) == At(c, j) || At(d, j) == None
            || (At(src, j).Some? && At(d, j) == Some(AdjustTtl(l, At(src, j).value))))
  {
    var n := |src.rr|;
    MergeSetsKeep(z, l, c, src, now, n);
    var d, e := Merged(z, l, c, src, now), MergeSets(z, l, c, src, now, n);
    assert forall j: nat :: At(d, j) == At(e, j);
    assert forall j: nat, k: nat :: Clashes(d, j, k) == Clashes(e, j, k);
  }

  // ---------- a new entry ----------

  function AdjustSlot(l: Limits, o: Option<RrSet>): Option<RrSet> {
    if o.Some? then Some(AdjustTtl(l, o.value)) else None
  }

  /** A copy of the input with every ttl adjusted. */
  function Adjusted(l: Limits, c: Cent): Cent {
    if Negative(c) then AdjustDomTtl(l, c)
    else c.(rr := seq(|c.rr|, i requires 0 <= i < |c.rr| => AdjustSlot(l, c.rr[i])))
  }

  // ---------- all sets, slot by slot ----------

  /** No set of the input excludes one of the entry or of the input. */
  ghost predicate NoExclusion(c: Cent, src: Cent) {
    forall i: nat, j: nat :: At(src, i).Some? && CF_NEGATIVE !in At(src, i).value.flags ==>
      !Clashes(c, i, j) && !Clashes(src, i, j)
  }

  /** What becomes of a set o of the entry for a set n of the input of its type: local data stay,
      an answer stays when n is additional data, a local entry keeps out what is not local and
      not negative, and otherwise n takes its place. */
  function SlotAfter(l: Limits, loc: bool, o: Option<RrSet>, n: Option<RrSet>, now: int): Option<RrSet> {
    if n.None? then o
    else if o.Some? && (LocalThere(o.value, n.value) || AnswerThere(o.value, n.value, now)) then o
    else if loc && CF_LOCAL !in n.value.flags && CF_NEGATIVE !in n.value.flags then None
    else Some(AdjustTtl(l, n.value))
  }

  /** Where no types exclude each other, every slot follows that rule. */
  lemma {:induction false} MergeSetsSlots(z: Sizes, l: Limits, c: Cent, src: Cent, now: int, n: nat)
    requires Exact(z, c) && n <= |src.rr| <= NRRTOT && NoExclusion(c, src)
    ensures var m := MergeSets(z, l, c, src, now, n);
      forall j: nat :: At(m, j) ==
        if j < n then SlotAfter(l, DF_LOCAL in c.flags, At(c, j), At(src, j), now) else At(c, j)
  {
    hide MergeSet, Exact, MayAdd, SlotAfter, Exclude;
    if n > 0 {
      MergeSetsSlots(z, l, c, src, now, n - 1);
      MergeSetsKeep(z, l, c, src, now, n - 1);
      var m, i := MergeSets(z, l, c, src, now, n - 1), n - 1;
      if src.rr[i].Some? {
        NothingClashes(l, c, src, now, m, i);
        OneSlotMerged(z, l, m, i, src.rr[i].value, now);
        assert DF_LOCAL in m.flags + {DF_AUTH, DF_NEGATIVE} <==> DF_LOCAL in c.flags + {DF_AUTH, DF_NEGATIVE};
      } else {
        NoInput(l, DF_LOCAL in c.flags, At(c, i), now);
      }
    }
  }

  lemma NoInput(l: Limits, loc: bool, o: Option<RrSet>, now: int)
    ensures SlotAfter(l, loc, o, None, now) == o
  {
  }

  lemma NothingClashes(l: Limits, c: Cent, src: Cent, now: int, m: Cent, i: nat)
    requires NoExclusion(c, src) && i < |src.rr| && src.rr[i].Some?
    requires forall j: nat ::
      At(m, j) == if j < i then SlotAfter(l, DF_LOCAL in c.flags, At(c, j), At(src, j), now) else At(c, j)
    ensures CF_NEGATIVE in src.rr[i].value.flags || forall j: nat :: !Clashes(m, i, j)
  {
    hide Exclude;
    assert At(src, i) == src.rr[i];
    if CF_NEGATIVE !in src.rr[i].value.flags {
      forall j: nat ensures !Clashes(m, i, j) {
        assert !Clashes(c, i, j) && !Clashes(src, i, j);
        if At(src, j).Some? {
          AdjustTtlMeans(l, At(src, j).value);
        }
      }
    }
  }

  lemma OneSlotMerged(z: Sizes, l: Limits, m: Cent, i: nat, s: RrSet, now: int)
    requires Exact(z, m) && i < NRRTOT
    requires CF_NEGATIVE in s.flags || forall j: nat :: !Clashes(m, i, j)
    ensures var r := MergeSet(z, l, m, i, s, now);
      forall j: nat :: At(r, j) ==
        if j == i then SlotAfter(l, DF_LOCAL in m.flags, At(m, i), Some(s), now) else At(m, j)
  {
    MergeSetMeans(z, l, m, i, s, now);
    NoClash(m, i, |m.rr|);
    hide MergeSet, Exact, Clashes, AdjustTtl;
  }

  /** An answer that is in time survives additional data of its type, on any input that has no set
      of a type that excludes it. */
  lemma {:induction false} AnswerSurvives(z: Sizes, l: Limits, c: Cent, src: Cent, now: int, n: nat, j: nat)
    requires Exact(z, c) && n <= |src.rr| <= NRRTOT
    requires At(c, j).Some? && (At(src, j).Some? ==> AnswerThere(At(c, j).value, At(src, j).value, now))
    requires forall i: nat :: At(src, i).Some? && CF_NEGATIVE !in At(src, i).value.flags ==> !Exclude(i, j)
    ensures At(MergeSets(z, l, c, src, now, n), j) == At(c, j)
  {
    hide MergeSet, Exact, MayAdd, AnswerThere, Exclude;
    if n > 0 {
      AnswerSurvives(z, l, c, src, now, n - 1, j);
      var m := MergeSets(z, l, c, src, now, n - 1);
      if src.rr[n - 1].Some? {
        assert At(src, n - 1) == src.rr[n - 1];
        MergeSetMeans(z, l, m, n - 1, src.rr[n - 1].value, now);
      }
    }
  }

  // ---------- a merge cut short ----------

  /** m as it is left when memory runs out while s is added at n: no longer negative, without its
      set of that type, and without the sets that s excludes. */
  ghost predicate CutSet(z: Sizes, m: Cent, n: nat, s: RrSet, now: int, d: Cent) {
    && !Outranked(At(m, n), s, now) && MayAdd(DelSet(z, m, n), n, s.ttl, s.flags, now)
    && !Negative(d) && d.qname == m.qname && d.cns == m.cns && d.csoa == m.csoa
    && d.flags + {DF_AUTH} == m.flags - {DF_NEGATIVE} + {DF_AUTH}
    && forall j: nat :: At(d, j) == if j == n || Displaced(m, n, s, j) then None else At(m, j)
  }

  /** The set at j has to go for s to be added at n. */
  predicate Displaced(m: Cent, n: nat, s: RrSet, j: nat) {
    CF_NEGATIVE !in s.flags && Clashes(m, n, j)
  }

  /** What a merge leaves that ran out of memory at the set n of the input. */
  ghost predicate CutShort(z: Sizes, l: Limits, c: Cent, src: Cent, now: int, n: nat, d: Cent)
    requires Exact(z, c) && |src.rr| <= NRRTOT
  {
    && n < |src.rr| && src.rr[n].Some?
    && CutSet(z, MergeSets(z, l, c, src, now, n), n, src.rr[n].value, now, d)
  }

  /** However far the addition of a set got before memory ran out, that is what it leaves. */
  lemma FailedMerge(z: Sizes, c: Cent, i: nat, s: RrSet, now: int, d: Cent, k: Cent, f: Cent)
    requires Exact(z, c) && !Outranked(At(c, i), s, now) && d == DelSet(z, c, i)
    requires MayAdd(d, i, s.ttl, s.flags, now) && k == Checked(z, d, i, s.ttl, s.flags, now)
    requires f.qname == k.qname && f.cns == k.cns && f.csoa == k.csoa && !Negative(f)
    requires f.flags + {DF_AUTH} == k.flags - {DF_NEGATIVE} + {DF_AUTH}
    requires forall j: nat :: At(f, j) == if j == i then None else At(k, j)
    ensures CutSet(z, c, i, s, now, f)
  {
    DelSetExact(z, c, i);
    CheckedAt(z, d, i, s.ttl, s.flags, now);
    assert (k.flags - {DF_NEGATIVE}) + {DF_AUTH} == (k.flags + {DF_AUTH}) - {DF_NEGATIVE};
    assert (c.flags - {DF_NEGATIVE}) + {DF_AUTH} == (c.flags + {DF_AUTH}) - {DF_NEGATIVE};
    assert d.flags + {DF_AUTH} == c.flags + {DF_AUTH};
    hide MayAdd, Exact, Checked, DelSet;
    forall j: nat ensures At(f, j) == if j == i || Displaced(c, i, s, j) then None else At(c, j) {
      if j != i {
        assert At(d, j) == At(c, j) && Clashes(d, i, j) == Clashes(c, i, j);
        assert CF_NEGATIVE !in s.flags ==> !Clashes(k, i, j);
      }
    }
  }

  /** c' has lost some sets, none of them local unless `loc`, and gained none. */
  ghost predicate Lessened(c: Cent, c': Cent, loc: bool) {
    && (forall j: nat :: At(c', j) == At(c, j) || At(c', j) == None)
    && (!loc ==> LocalsKept(c, c'))
  }

  lemma CutLessens(z: Sizes, m: Cent, n: nat, s: RrSet, now: int, d: Cent)
    requires Exact(z, m) && CutSet(z, m, n, s, now, d)
    ensures Lessened(m, d, CF_LOCAL in s.flags)
  {
    DelSetExact(z, m, n);
    var k := DelSet(z, m, n);
    if CF_LOCAL !in s.flags {
      forall j: nat | IsLocalAt(m, j) ensures At(d, j) == At(m, j) {
        if Displaced(m, n, s, j) {
          assert At(k, j) == At(m, j) && Clashes(k, n, j);
          assert LocalClash(k, n);
        }
      }
    }
  }

  /** A merge cut short is as safe as a complete one. */
  lemma PartialMergeIsSafe(z: Sizes, l: Limits, c: Cent, src: Cent, now: int, n: nat, d: Cent)
    requires Exact(z, c) && |src.rr| <= NRRTOT && CutShort(z, l, c, src, now, n, d)
    ensures ConflictFree(c) ==> ConflictFree(d)
    ensures NoLocals(src) ==> LocalsKept(c, d)
  {
    var m, s := MergeSets(z, l, c, src, now, n), src.rr[n].value;
    MergeSetsKeep(z, l, c, src, now, n);
    CutLessens(z, m, n, s, now, d);
    hide CutSet, Exact, MergeSets;
    assert CF_LOCAL in s.flags ==> IsLocalAt(src, n);
    if ConflictFree(c) {
      StaysFree(m, d, d, 0, RrSet(0, 0, {}, []));
    }
  }

  // ---------- entries left without a set ----------

  /** Nothing in the input is taken, and every set of c is deleted to make room for one that is
      then refused: the input has no sets at all, or c is local and the sets of the input are
      neither local nor negative. */
  ghost predicate Emptying(c: Cent, src: Cent, now: int) {
    && (forall j: nat :: At(src, j).Some? ==> DF_LOCAL in c.flags && !Forced(At(src, j).value))
    && (forall j: nat :: At(c, j).Some? ==> At(src, j).Some? && !Outranked(At(c, j), At(src, j).value, now))
  }

  /** A set that even a local entry takes. */
  predicate Forced(s: RrSet) {
    CF_LOCAL in s.flags || CF_NEGATIVE in s.flags
  }

  /** While the first n sets of the input have been merged: a set that no later one removes
      without taking its place. */
  ghost predicate Lasting(m: Cent, src: Cent, now: int, n: nat) {
    exists i: nat :: At(m, i).Some? && (i < n || At(src, i).None? || Outranked(At(m, i), At(src, i).value, now))
  }

  lemma LastingStep(z: Sizes, l: Limits, m: Cent, src: Cent, now: int, n: nat)
    requires Exact(z, m) && n < |src.rr| <= NRRTOT && src.rr[n].Some? && Lasting(m, src, now, n)
    ensures Lasting(MergeSet(z, l, m, n, src.rr[n].value, now), src, now, n + 1)
  {
    var i: nat :| At(m, i).Some? && (i < n || At(src, i).None? || Outranked(At(m, i), At(src, i).value, now));
    var s := src.rr[n].value;
    if !Outranked(At(m, n), s, now) {
      DelSetExact(z, m, n);
      var d := DelSet(z, m, n);
      CheckedAt(z, d, n, s.ttl, s.flags, now);
      if MayAdd(d, n, s.ttl, s.flags, now) {
        TakenLasts(z, l, m, src, now, n);
      } else {
        assert i != n && At(d, i) == At(m, i);
      }
    } else {
      assert At(m, i).Some?;
    }
  }

  lemma TakenLasts(z: Sizes, l: Limits, m: Cent, src: Cent, now: int, n: nat)
    requires Exact(z, m) && n < |src.rr| <= NRRTOT && src.rr[n].Some?
    requires var s := src.rr[n].value;
      !Outranked(At(m, n), s, now) && MayAdd(DelSet(z, m, n), n, s.ttl, s.flags, now)
    ensures var d := MergeSet(z, l, m, n, src.rr[n].value, now); Lasting(d, src, now, n + 1) && !Negative(d)
  {
    var s := src.rr[n].value;
    DelSetExact(z, m, n);
    var d := DelSet(z, m, n);
    CheckedAt(z, d, n, s.ttl, s.flags, now);
    AddSetExact(z, Checked(z, d, n, s.ttl, s.flags, now), n, AdjustTtl(l, s));
    assert At(MergeSet(z, l, m, n, s, now), n).Some?;
  }

  lemma {:induction false} LastingAll(z: Sizes, l: Limits, c: Cent, src: Cent, now: int, n: nat, to: nat)
    requires Exact(z, c) && n <= to <= |src.rr| <= NRRTOT
    requires Lasting(MergeSets(z, l, c, src, now, n), src, now, n)
    ensures Lasting(MergeSets(z, l, c, src, now, to), src, now, to)
  {
    hide MergeSet, Outranked, Exact;
    if n < to {
      LastingAll(z, l, c, src, now, n, to - 1);
      var m := MergeSets(z, l, c, src, now, to - 1);
      if src.rr[to - 1].Some? {
        LastingStep(z, l, m, src, now, to - 1);
      } else {
        var i: nat :| At(m, i).Some?
          && (i < to - 1 || At(src, i).None? || Outranked(At(m, i), At(src, i).value, now));
        assert At(MergeSets(z, l, c, src, now, to), i).Some?;
      }
    }
  }

  /** Once only sets are left that the input is going to replace, a set that a local entry would
      take, or the last of the input in an entry that is not local, is taken. */
  lemma TakenAtLast(z: Sizes, l: Limits, m: Cent, src: Cent, now: int, k: nat)
    requires Exact(z, m) && k < |src.rr| <= NRRTOT && src.rr[k].Some?
    requires Forced(src.rr[k].value)
      || (DF_LOCAL !in m.flags && forall j :: k < j < |src.rr| ==> src.rr[j].None?)
    ensures Lasting(MergeSet(z, l, m, k, src.rr[k].value, now), src, now, k + 1)
  {
    if Lasting(m, src, now, k) {
      LastingStep(z, l, m, src, now, k);
    } else {
      var s, d := src.rr[k].value, DelSet(z, m, k);
      DelSetExact(z, m, k);
      if Outranked(At(m, k), s, now) {
        assert Lasting(m, src, now, k);
      }
      assert forall j: nat :: At(m, j).Some? ==> j >= k && At(src, j).Some?;
      assert Forced(s) || forall j: nat :: !Clashes(d, k, j);
      NoClash(d, k, |d.rr|);
      TakenLasts(z, l, m, src, now, k);
    }
  }

  /** The last of the first n slots of the input that holds a set. */
  lemma {:induction false} LastSet(src: Cent, n: nat) returns (k: nat)
    requires n <= |src.rr| && exists j :: 0 <= j < n && src.rr[j].Some?
    ensures k < n && src.rr[k].Some? && forall j :: k < j < n ==> src.rr[j].None?
  {
    if src.rr[n - 1].Some? {
      k := n - 1;
    } else {
      k := LastSet(src, n - 1);
    }
  }

  /** A local entry deletes its set of that type and then refuses the new one. */
  lemma RefusedByLocal(z: Sizes, l: Limits, m: Cent, n: nat, s: RrSet, now: int)
    requires Exact(z, m) && n < NRRTOT && DF_LOCAL in m.flags && !Forced(s) && !Outranked(At(m, n), s, now)
    ensures MergeSet(z, l, m, n, s, now) == DelSet(z, m, n)
  {
  }

  lemma {:induction false} EmptyingAll(z: Sizes, l: Limits, c: Cent, src: Cent, now: int, n: nat)
    requires Exact(z, c) && n <= |src.rr| <= NRRTOT && Emptying(c, src, now)
    ensures var m := MergeSets(z, l, c, src, now, n);
      && m.flags + {DF_AUTH} == c.flags + {DF_AUTH}
      && forall j: nat :: At(m, j) == if j < n && src.rr[j].Some? then None else At(c, j)
  {
    hide MergeSet, Exact, Old;
    if n > 0 {
      EmptyingAll(z, l, c, src, now, n - 1);
      var m := MergeSets(z, l, c, src, now, n - 1);
      if src.rr[n - 1].Some? {
        assert At(src, n - 1) == src.rr[n - 1] && DF_LOCAL in m.flags + {DF_AUTH};
        assert At(m, n - 1) == At(c, n - 1);
        RefusedByLocal(z, l, m, n - 1, src.rr[n - 1].value, now);
        DelSetExact(z, m, n - 1);
      }
    }
  }

  /** Merging empties an entry if and only if it is positive to begin with, nothing in the input
      is taken, and nothing in the entry outranks the input that deletes it. */
  lemma EmptiedIff(z: Sizes, l: Limits, c: Cent, src: Cent, now: int)
    requires Exact(z, c) && |src.rr| <= NRRTOT
    ensures Hollow(Merged(z, l, c, src, now)) <==> !Negative(c) && Emptying(c, src, now)
  {
    var n := |src.rr|;
    var m := MergeSets(z, l, c, src, now, n);
    assert forall j: nat :: At(Merged(z, l, c, src, now), j) == At(m, j);
    if Emptying(c, src, now) {
      EmptyingAll(z, l, c, src, now, n);
      assert Negative(c) <==> DF_NEGATIVE in m.flags + {DF_AUTH};
    } else {
      NotEmptied(z, l, c, src, now);
      var i: nat :| At(m, i).Some?;
      assert At(Merged(z, l, c, src, now), i).Some?;
    }
  }

  lemma NotEmptied(z: Sizes, l: Limits, c: Cent, src: Cent, now: int)
    requires Exact(z, c) && |src.rr| <= NRRTOT && !Emptying(c, src, now)
    ensures exists i: nat :: At(MergeSets(z, l, c, src, now, |src.rr|), i).Some?
  {
    if j: nat :| At(c, j).Some? && (At(src, j).None? || Outranked(At(c, j), At(src, j).value, now)) {
      assert Lasting(c, src, now, 0);
      LastingAll(z, l, c, src, now, 0, |src.rr|);
    } else {
      var j: nat :| At(src, j).Some? && (DF_LOCAL !in c.flags || Forced(At(src, j).value));
      assert src.rr[j].Some?;
      var k := j;
      if DF_LOCAL !in c.flags {
        k := LastSet(src, |src.rr|);
      }
      TakenInTheEnd(z, l, c, src, now, k);
    }
  }

  lemma TakenInTheEnd(z: Sizes, l: Limits, c: Cent, src: Cent, now: int, k: nat)
    requires Exact(z, c) && k < |src.rr| <= NRRTOT && src.rr[k].Some?
    requires Forced(src.rr[k].value)
      || (DF_LOCAL !in c.flags && forall j :: k < j < |src.rr| ==> src.rr[j].None?)
    ensures exists i: nat :: At(MergeSets(z, l, c, src, now, |src.rr|), i).Some?
  {
    hide MergeSet, Outranked, Exact, Forced;
    MergeSetsKeep(z, l, c, src, now, k);
    var m := MergeSets(z, l, c, src, now, k);
    assert DF_LOCAL in m.flags + {DF_AUTH, DF_NEGATIVE} <==> DF_LOCAL in c.flags + {DF_AUTH, DF_NEGATIVE};
    TakenAtLast(z, l, m, src, now, k);
    assert Lasting(MergeSets(z, l, c, src, now, k + 1), src, now, k + 1);
    LastingAll(z, l, c, src, now, k + 1, |src.rr|);
  }

  /** Memory running out at the set n empties an entry if and only if it has no set then but
      those that have to go for the new one. */
  lemma EmptiedShortIff(z: Sizes, l: Limits, c: Cent, src: Cent, now: int, n: nat, d: Cent)
    requires Exact(z, c) && |src.rr| <= NRRTOT && CutShort(z, l, c, src, now, n, d)
    ensures Hollow(d) <==> AllDisplaced(MergeSets(z, l, c, src, now, n), n, src.rr[n].value)
  {
    hide MergeSets, MayAdd, Clashes, Exact;
  }

  ghost predicate AllDisplaced(m: Cent, n: nat, s: RrSet) {
    forall j: nat :: At(m, j).Some? ==> j == n || Displaced(m, n, s, j)
  }

  // ---------- local negative entries ----------

  /** An entry that denies the name by configuration. */
  predicate LocalNegative(c: Cent) {
    DF_LOCAL in c.flags && Negative(c)
  }

  /** Input that leaves a local negative entry alone. */
  ghost predicate Spares(src: Cent) {
    !Negative(src) && forall j: nat :: At(src, j).Some? ==> !Forced(At(src, j).value)
  }

  lemma LocalNegativeSet(z: Sizes, l: Limits, c: Cent, src: Cent, now: int, n: nat)
    requires Exact(z, c) && n < |src.rr| <= NRRTOT && src.rr[n].Some? && LocalNegative(c)
    ensures var m := MergeSet(z, l, c, n, src.rr[n].value, now);
      if Forced(src.rr[n].value) then !Negative(m) else m == c
  {
    assert At(c, n) == None && DelSet(z, c, n) == c;
    if Forced(src.rr[n].value) {
      TakenLasts(z, l, c, src, now, n);
    } else {
      RefusedByLocal(z, l, c, n, src.rr[n].value, now);
    }
  }

  /** Of a local negative entry nothing changes, and it needs no memory, until the first set that
      is local or negative; from then on it is positive. */
  lemma {:induction false} LocalNegativeSets(z: Sizes, l: Limits, c: Cent, src: Cent, now: int, n: nat)
    requires Exact(z, c) && n <= |src.rr| <= NRRTOT && LocalNegative(c)
    ensures var m := MergeSets(z, l, c, src, now, n);
      if exists j :: 0 <= j < n && src.rr[j].Some? && Forced(src.rr[j].value) then !Negative(m) else m == c
  {
    hide MergeSet, Forced, ConflictFree;
    if n > 0 {
      LocalNegativeSets(z, l, c, src, now, n - 1);
      var m := MergeSets(z, l, c, src, now, n - 1);
      if src.rr[n - 1].Some? {
        var s := src.rr[n - 1].value;
        MergeSetKeeps(z, l, m, n - 1, s, now);
        if m == c {
          LocalNegativeSet(z, l, c, src, now, n - 1);
        }
      }
    }
  }

  /** A merge leaves a local negative entry negative if and only if the input spares it; but for
      DF_AUTH, DF_WILD and the references the entry then is as it was. */
  lemma LocalNegativeIff(z: Sizes, l: Limits, c: Cent, src: Cent, now: int)
    requires Exact(z, c) && |src.rr| <= NRRTOT && LocalNegative(c) && !Negative(src)
    ensures LocalNegative(Merged(z, l, c, src, now)) <==> Spares(src)
    ensures Spares(src) ==> Merged(z, l, c, src, now) == Marked(c, src)
  {
    LocalNegativeSets(z, l, c, src, now, |src.rr|);
    if Spares(src) {
      forall j | 0 <= j < |src.rr| && src.rr[j].Some? ensures !Forced(src.rr[j].value) {
        assert At(src, j).Some?;
      }
    } else {
      var j: nat :| At(src, j).Some? && Forced(At(src, j).value);
      assert src.rr[j].Some?;
    }
  }

  /** Input that spares a local negative entry asks for no memory. */
  lemma SparedNeedsNone(z: Sizes, l: Limits, c: Cent, src: Cent, now: int, n: nat, d: Cent)
    requires Exact(z, c) && |src.rr| <= NRRTOT && LocalNegative(c) && Spares(src)
    ensures !CutShort(z, l, c, src, now, n, d)
  {
    if n < |src.rr| && src.rr[n].Some? {
      LocalNegativeSets(z, l, c, src, now, n);
      assert forall j :: 0 <= j < |src.rr| ==> src.rr[j] == At(src, j);
      assert At(c, n) == None && DelSet(z, c, n) == c;
    }
  }

  /** Entries are determined by what they hold, being exact. */
  lemma ExactSame(z: Sizes, c: Cent, d: Cent)
    requires Exact(z, c) && Exact(z, d) && d == c.(rr := d.rr, cs := d.cs, numRrs := d.numRrs) && d.rr == c.rr
    ensures d == c
  {
  }

  /** Adding an empty set, filling it and adjusting its ttl adds the whole set. */
  lemma FilledIsAdded(z: Sizes, c: Cent, i: nat, s: RrSet, d: Cent, a: RrSet)
    requires Exact(z, c) && i < NRRTOT && At(c, i) == None && s.rrs == []
    requires var b := AddSet(z, c, i, s);
      && Exact(z, d) && d == b.(rr := d.rr, cs := d.cs) && i < |b.rr| && d.rr == b.rr[i := Some(a)]
    ensures d == AddSet(z, c, i, a)
  {
    AddSetExact(z, c, i, s);
    AddSetExact(z, c, i, a);
    ExactSame(z, AddSet(z, c, i, a), d);
  }

  lemma DeletedIs(z: Sizes, c: Cent, i: nat)
    requires At(c, i).Some?
    ensures var d := DelSet(z, c, i);
      d == c.(rr := c.rr[i := None], cs := d.cs, numRrs := d.numRrs, flags := c.flags - {DF_AUTH})
  {
  }

  lemma SameName(z: Sizes, m: Cent, n: nat, s: RrSet, now: int, d: Cent)
    requires CutSet(z, m, n, s, now, d)
    ensures d.qname == m.qname
  {
  }

  lemma Refused(z: Sizes, c: Cent, i: nat, ttl: int, flags: set<SetFlag>, now: int)
    requires !MayAdd(c, i, ttl, flags, now)
    ensures Checked(z, c, i, ttl, flags, now) == c
  {
  }

  /** The copy in the making: the first n ttls are adjusted. */
  ghost predicate AdjustedTo(z: Sizes, l: Limits, src: Cent, c: Cent, n: nat) {
    && Exact(z, c) && c == src.(rr := c.rr) && |c.rr| == |src.rr|
    && forall j :: 0 <= j < |src.rr| ==> c.rr[j] == if j < n then AdjustSlot(l, src.rr[j]) else src.rr[j]
  }

  lemma AdjustedStep(z: Sizes, l: Limits, src: Cent, c: Cent, n: nat)
    requires AdjustedTo(z, l, src, c, n) && n < |src.rr|
    ensures AdjustedTo(z, l, src, c.(rr := c.rr[n := AdjustSlot(l, src.rr[n])]), n + 1)
    ensures n < |c.rr| && c.rr[n] == src.rr[n]
    ensures Exact(z, c.(rr := c.rr[n := AdjustSlot(l, src.rr[n])]))
  {
    if src.rr[n].Some? {
      RetimeExact(z, c, n, AdjustTtl(l, src.rr[n].value));
    } else {
      assert c.rr[n := None] == c.rr;
    }
  }

  lemma AdjustedDone(z: Sizes, l: Limits, src: Cent, c: Cent)
    requires AdjustedTo(z, l, src, c, |src.rr|) && !Negative(src)
    ensures c == Adjusted(l, src) && |c.rr| == |src.rr| && !Negative(c) && c.qname == src.qname
  {
    assert c.rr == Adjusted(l, src).rr;
  }
}
