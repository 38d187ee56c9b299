/** The entries of the record cache, cache.h and cache.c: one entry per domain name, holding RR
    sets in an array indexed by type, with the byte count and the set count that the rest of
    the cache relies on. Operations on a single entry. */
module CacheEntry {
  import opened Names
  import opened Wrappers

  datatype SetFlag = CF_NEGATIVE | CF_LOCAL | CF_AUTH | CF_NOCACHE | CF_ADDITIONAL | CF_NOPURGE | CF_ROOTSERV
  datatype EntFlag = DF_NEGATIVE | DF_LOCAL | DF_AUTH | DF_NOCACHE | DF_WILD

  /** An RR set. Its link to the age list is kept by the cache, not here. */
  datatype RrSet = RrSet(ttl: int, ts: int, flags: set<SetFlag>, rrs: seq<seq<byte>>)

  const NRRMU: nat := 8
  const NRREXT: nat := 39
  const NRRTOT: nat := 47
  const RRMUINDEX_NS: nat := 1
  const RRMUINDEX_SOA: nat := 3
  const CUNDEF: nat := 255
  const CACHE_LAT := 120

  /** A cache entry. The two arrays of RR sets form one sequence rr of length RRARR_LEN: empty
      for a negative entry, NRRMU long without the array of rarer types, NRRTOT long with it. */
  datatype Cent = Cent(qname: seq<Label>, cs: int, numRrs: int, flags: set<EntFlag>, rr: seq<Option<RrSet>>,
    negTtl: int, negTs: int, cns: nat, csoa: nat)

  /** The sizes of the C structures, whatever they are. */
  datatype Sizes = Sizes(cent: nat, rrset: nat, bucket: nat, ext: nat)

  function BucketsSize(z: Sizes, rrs: seq<seq<byte>>): nat {
    if rrs == [] then 0 else z.bucket + |rrs[0]| + BucketsSize(z, rrs[1..])
  }

  /** What del_rrset frees. */
  function SetSize(z: Sizes, s: RrSet): nat {
    z.rrset + BucketsSize(z, s.rrs)
  }

  function SlotSize(z: Sizes, o: Option<RrSet>): nat {
    if o.Some? then SetSize(z, o.value) else 0
  }

  function SetsSize(z: Sizes, rr: seq<Option<RrSet>>): nat {
    if rr == [] then 0 else SlotSize(z, rr[0]) + SetsSize(z, rr[1..])
  }

  function Count(rr: seq<Option<RrSet>>): nat {
    if rr == [] then 0 else (if rr[0].Some? then 1 else 0) + Count(rr[1..])
  }

  function Nones(n: nat): seq<Option<RrSet>> {
    seq(n, _ => None)
  }

  function Negative(c: Cent): bool {
    DF_NEGATIVE in c.flags
  }

  /** What the entry really occupies. */
  function TrueSize(z: Sizes, c: Cent): nat {
    z.cent + |Encode(c.qname)| + (if |c.rr| == NRRTOT then z.ext else 0) + SetsSize(z, c.rr)
  }

  /** cs and num_rrs say what the entry holds; the arrays exist just for positive entries. */
  ghost predicate Exact(z: Sizes, c: Cent) {
    && c.cs == TrueSize(z, c) && c.numRrs == Count(c.rr)
    && (if Negative(c) then c.rr == [] else |c.rr| == NRRMU || |c.rr| == NRRTOT)
  }

  // ---------- arithmetic of the counts ----------

  lemma {:induction false} SetsConcat(z: Sizes, a: seq<Option<RrSet>>, b: seq<Option<RrSet>>)
    ensures SetsSize(z, a + b) == SetsSize(z, a) + SetsSize(z, b)
    ensures Count(a + b) == Count(a) + Count(b)
  {
    if a == [] {
      assert a + b == b;
    } else {
      assert (a + b)[0] == a[0] && (a + b)[1..] == a[1..] + b;
      SetsConcat(z, a[1..], b);
    }
  }

  lemma {:induction false} SetsEmpty(z: Sizes, rr: seq<Option<RrSet>>)
    requires forall i :: 0 <= i < |rr| ==> rr[i] == None
    ensures SetsSize(z, rr) == 0 && Count(rr) == 0
  {
    if rr != [] {
      forall i | 0 <= i < |rr[1..]| ensures rr[1..][i] == None {
        assert rr[1..][i] == rr[i + 1];
      }
      SetsEmpty(z, rr[1..]);
    }
  }

  /** One slot changed. */
  lemma SetsUpdate(z: Sizes, rr: seq<Option<RrSet>>, i: nat, o: Option<RrSet>)
    requires i < |rr|
    ensures SetsSize(z, rr[i := o]) == SetsSize(z, rr) - SlotSize(z, rr[i]) + SlotSize(z, o)
    ensures Count(rr[i := o]) == Count(rr) - (if rr[i].Some? then 1 else 0) + (if o.Some? then 1 else 0)
  {
    var a, b := rr[..i], rr[i + 1..];
    assert rr == a + ([rr[i]] + b) && rr[i := o] == a + ([o] + b);
    SetsConcat(z, a, [rr[i]] + b);
    SetsConcat(z, [rr[i]], b);
    SetsConcat(z, a, [o] + b);
    SetsConcat(z, [o], b);
    OneSlot(z, rr[i]);
    OneSlot(z, o);
  }

  lemma OneSlot(z: Sizes, o: Option<RrSet>)
    ensures SetsSize(z, [o]) == SlotSize(z, o) && Count([o]) == if o.Some? then 1 else 0
  {
    assert [o][1..] == [];
  }

  lemma {:induction false} CountZero(rr: seq<Option<RrSet>>)
    ensures Count(rr) == 0 <==> forall i :: 0 <= i < |rr| ==> rr[i] == None
  {
    if rr != [] {
      CountZero(rr[1..]);
      assert forall i :: 0 <= i < |rr[1..]| ==> rr[1..][i] == rr[i + 1];
      assert forall i :: 1 <= i < |rr| ==> rr[i] == rr[1..][i - 1];
    }
  }

  // ---------- adding and deleting sets ----------

  /** RRARR_INDEX_TESTEXT. */
  function At(c: Cent, i: nat): Option<RrSet> {
    if i < |c.rr| then c.rr[i] else None
  }

  /** Neither negative nor with a set: such an entry says nothing. */
  ghost predicate Hollow(c: Cent) {
    !Negative(c) && forall i: nat :: At(c, i) == None
  }

  /** del_cent_rrset_by_index, apart from the age list. */
  function DelSet(z: Sizes, c: Cent, i: nat): Cent {
    if At(c, i).None? then c
    else c.(rr := c.rr[i := None], numRrs := c.numRrs - 1, cs := c.cs - SetSize(z, c.rr[i].value),
            flags := c.flags - {DF_AUTH})
  }

  lemma DelSetExact(z: Sizes, c: Cent, i: nat)
    requires Exact(z, c)
    ensures Exact(z, DelSet(z, c, i)) && At(DelSet(z, c, i), i) == None
    ensures forall j: nat :: j != i ==> At(DelSet(z, c, i), j) == At(c, j)
  {
    if At(c, i).Some? {
      SetsUpdate(z, c.rr, i, None);
    }
  }

  /** A negative entry that gets its first set is not negative any more. */
  function Positive(c: Cent): Cent {
    if Negative(c) then c.(flags := c.flags - {DF_NEGATIVE}, rr := Nones(NRRMU)) else c
  }

  /** Room for the type: the second array is allocated when first needed. */
  function WithRoom(z: Sizes, c: Cent, i: nat): Cent {
    if i < |c.rr| then c else c.(rr := c.rr + Nones(NRREXT), cs := c.cs + z.ext)
  }

  lemma PositiveExact(z: Sizes, c: Cent)
    requires Exact(z, c)
    ensures Exact(z, Positive(c)) && !Negative(Positive(c))
    ensures forall j: nat :: At(Positive(c), j) == At(c, j)
  {
    if Negative(c) {
      SetsEmpty(z, Nones(NRRMU));
    }
  }

  lemma WithRoomExact(z: Sizes, c: Cent, i: nat)
    requires Exact(z, c) && !Negative(c) && i < NRRTOT
    ensures Exact(z, WithRoom(z, c, i)) && i < |WithRoom(z, c, i).rr| && !Negative(WithRoom(z, c, i))
    ensures forall j: nat :: At(WithRoom(z, c, i), j) == At(c, j)
  {
    if i >= |c.rr| {
      SetsEmpty(z, Nones(NRREXT));
      SetsConcat(z, c.rr, Nones(NRREXT));
    }
  }

  /** A set put in an empty slot. */
  function PutSet(z: Sizes, c: Cent, i: nat, s: RrSet): Cent
    requires i < |c.rr|
  {
    c.(rr := c.rr[i := Some(s)], cs := c.cs + SetSize(z, s), numRrs := c.numRrs + 1)
  }

  lemma PutSetExact(z: Sizes, c: Cent, i: nat, s: RrSet)
    requires Exact(z, c) && !Negative(c) && i < |c.rr| && At(c, i) == None
    ensures Exact(z, PutSet(z, c, i, s))
    ensures forall j: nat :: At(PutSet(z, c, i, s), j) == if j == i then Some(s) else At(c, j)
  {
    SetsUpdate(z, c.rr, i, Some(s));
  }

  /** What adding a set comes to when every allocation succeeds. */
  function AddSet(z: Sizes, c: Cent, i: nat, s: RrSet): Cent
    requires Exact(z, c) && i < NRRTOT
  {
    PositiveExact(z, c);
    WithRoomExact(z, Positive(c), i);
    PutSet(z, WithRoom(z, Positive(c), i), i, s)
  }

  lemma AddSetExact(z: Sizes, c: Cent, i: nat, s: RrSet)
    requires Exact(z, c) && i < NRRTOT && At(c, i) == None
    ensures Exact(z, AddSet(z, c, i, s)) && !Negative(AddSet(z, c, i, s))
    ensures AddSet(z, c, i, s).flags == c.flags - {DF_NEGATIVE} && AddSet(z, c, i, s).qname == c.qname
    ensures forall j: nat :: At(AddSet(z, c, i, s), j) == if j == i then Some(s) else At(c, j)
  {
    PositiveExact(z, c);
    WithRoomExact(z, Positive(c), i);
    PutSetExact(z, WithRoom(z, Positive(c), i), i, s);
  }

  /** add_cent_rrset_by_index, apart from the age list: an empty set in an empty slot. The two
      allocations may fail. */
  method AddEmptySet(z: Sizes, c: Cent, i: nat, ttl: int, ts: int, flags: set<SetFlag>, mem: (bool, bool))
      returns (c': Cent, ok: bool)
    requires Exact(z, c) && i < NRRTOT && At(c, i) == None
    ensures Exact(z, c') && !Negative(c') && c'.flags == c.flags - {DF_NEGATIVE}
    ensures ok ==> c' == AddSet(z, c, i, RrSet(ttl, ts, flags, []))
    ensures !ok ==> (!mem.0 || !mem.1) && forall j: nat :: At(c', j) == At(c, j)
    ensures c'.qname == c.qname && c'.cns == c.cns && c'.csoa == c.csoa
  {
    PositiveExact(z, c);
    WithRoomExact(z, Positive(c), i);
    c', ok := c, false;
    if DF_NEGATIVE in c'.flags {
      c' := c'.(flags := c'.flags - {DF_NEGATIVE}, rr := Nones(NRRMU));
    }
    if i >= NRRMU && |c'.rr| == NRRMU {
      if !mem.0 {
        return;
      }
      c' := c'.(rr := c'.rr + Nones(NRREXT), cs := c'.cs + z.ext);
    }
    if !mem.1 {
      return;
    }
    var s := RrSet(ttl, ts, flags, []);
    PutSetExact(z, c', i, s);
    c' := c'.(rr := c'.rr[i := Some(s)], cs := c'.cs + z.rrset, numRrs := c'.numRrs + 1);
    ok := true;
  }

  /** One record appended to the set at i. */
  function AppendRr(z: Sizes, c: Cent, i: nat, data: seq<byte>): Cent
    requires At(c, i).Some?
  {
    var s := c.rr[i].value;
    c.(rr := c.rr[i := Some(s.(rrs := s.rrs + [data]))], cs := c.cs + z.bucket + |data|)
  }

  lemma {:induction false} BucketsAppend(z: Sizes, rrs: seq<seq<byte>>, data: seq<byte>)
    ensures BucketsSize(z, rrs + [data]) == BucketsSize(z, rrs) + z.bucket + |data|
  {
    if rrs == [] {
      assert [] + [data] == [data] && [data][1..] == [];
    } else {
      assert (rrs + [data])[1..] == rrs[1..] + [data];
      BucketsAppend(z, rrs[1..], data);
    }
  }

  lemma AppendRrExact(z: Sizes, c: Cent, i: nat, data: seq<byte>)
    requires Exact(z, c) && At(c, i).Some?
    ensures Exact(z, AppendRr(z, c, i, data))
    ensures forall j: nat :: j != i ==> At(AppendRr(z, c, i, data), j) == At(c, j)
  {
    var s := c.rr[i].value;
    SetsUpdate(z, c.rr, i, Some(s.(rrs := s.rrs + [data])));
    BucketsAppend(z, s.rrs, data);
  }

  /** A set of the same size in place of another. */
  lemma RetimeExact(z: Sizes, c: Cent, i: nat, s: RrSet)
    requires Exact(z, c) && At(c, i).Some? && s.rrs == c.rr[i].value.rrs
    ensures Exact(z, c.(rr := c.rr[i := Some(s)]))
  {
    SetsUpdate(z, c.rr, i, Some(s));
  }

  /** add_cent_rr drops a record that is there already. */
  function Distinct(rrs: seq<seq<byte>>): seq<seq<byte>> {
    if rrs == [] then []
    else
      var d := Distinct(rrs[..|rrs| - 1]);
      if rrs[|rrs| - 1] in d then d else d + [rrs[|rrs| - 1]]
  }

  /** Records that are all different come back as they were. */
  lemma {:induction false} DistinctSame(rrs: seq<seq<byte>>)
    requires forall i, j :: 0 <= i < j < |rrs| ==> rrs[i] != rrs[j]
    ensures Distinct(rrs) == rrs
  {
    if rrs != [] {
      var n := |rrs| - 1;
      DistinctSame(rrs[..n]);
      assert rrs == rrs[..n] + [rrs[n]] && rrs[n] !in rrs[..n];
    }
  }
}
