/** The image of the cache on disk, cache.c: what write_disk_cache writes and read_disk_cache
    makes of it. */
module DiskImage {
  import opened Names
  import opened Wrappers
  import opened CacheEntry

  /** sizeof(long) and sizeof(time_t). */
  datatype Widths = Widths(long: nat, time: nat)

  // ---------- numbers and flags ----------

  function Pow256(k: nat): (r: nat)
    ensures r > 0
  {
    if k == 0 then 1 else 256 * Pow256(k - 1)
  }

  /** An integer in memory, low byte first. */
  function Bytes(v: nat, k: nat): (r: seq<byte>)
    ensures |r| == k
  {
    if k == 0 then [] else [v % 256] + Bytes(v / 256, k - 1)
  }

  function Number(s: seq<byte>): nat {
    if s == [] then 0 else s[0] + 256 * Number(s[1..])
  }

  lemma {:induction false} NumberBytes(v: nat, k: nat)
    requires v < Pow256(k)
    ensures Number(Bytes(v, k)) == v
  {
    if k > 0 {
      NumberBytes(v / 256, k - 1);
      assert Bytes(v, k)[1..] == Bytes(v / 256, k - 1);
    }
  }

  /** An unsigned short. */
  function Short(v: nat): (r: seq<byte>)
    ensures |r| == 2
  {
    [v % 256, v / 256 % 256]
  }

  function ShortValue(s: seq<byte>): (v: nat)
    requires |s| == 2
    ensures v < 0x10000
  {
    s[0] as nat + 256 * s[1] as nat
  }

  /** Conversion to unsigned char. */
  function Char(v: nat): byte {
    v % 256
  }

  lemma ShortBack(v: nat)
    requires v < 0x10000
    ensures ShortValue(Short(v)) == v
  {
  }

  function Bit(b: bool, v: nat): nat {
    if b then v else 0
  }

  function SetBits(f: set<SetFlag>): nat {
    Bit(CF_NEGATIVE in f, 1) + Bit(CF_LOCAL in f, 2) + Bit(CF_AUTH in f, 4) + Bit(CF_NOCACHE in f, 8)
    + Bit(CF_ADDITIONAL in f, 16) + Bit(CF_NOPURGE in f, 32) + Bit(CF_ROOTSERV in f, 64)
  }

  /** n&v for a power of two. */
  predicate BitSet(n: nat, v: nat)
    requires v > 0
  {
    n / v % 2 == 1
  }

  function SetFlags(n: nat): set<SetFlag> {
    (if BitSet(n, 1) then {CF_NEGATIVE} else {}) + (if BitSet(n, 2) then {CF_LOCAL} else {})
    + (if BitSet(n, 4) then {CF_AUTH} else {}) + (if BitSet(n, 8) then {CF_NOCACHE} else {})
    + (if BitSet(n, 16) then {CF_ADDITIONAL} else {}) + (if BitSet(n, 32) then {CF_NOPURGE} else {})
    + (if BitSet(n, 64) then {CF_ROOTSERV} else {})
  }

  lemma NoBit()
    ensures Bit(false, 32) == 0 && Bit(false, 64) == 0
  {
  }

  lemma BitTimes(b: bool)
    ensures Bit(b, 1) == if b then 1 else 0
    ensures Bit(b, 2) == 2 * Bit(b, 1) && Bit(b, 4) == 4 * Bit(b, 1) && Bit(b, 8) == 8 * Bit(b, 1)
    ensures Bit(b, 16) == 16 * Bit(b, 1) && Bit(b, 32) == 32 * Bit(b, 1) && Bit(b, 64) == 64 * Bit(b, 1)
  {
  }

  lemma Quotient(n: nat, v: nat, q: nat, low: nat)
    requires n == v * q + low && low < v
    ensures n / v == q
  {
    var d := n / v;
    assert n == v * d + n % v;
    assert d < q ==> v * (d + 1) <= v * q;
    assert q < d ==> v * (q + 1) <= v * d;
  }

  /** A bit with lower ones below and higher ones above. */
  lemma ReadBit(n: nat, v: nat, low: nat, b: bool, high: nat)
    requires low < v && n == v * (Bit(b, 1) + 2 * high) + low
    ensures BitSet(n, v) == b
  {
    Quotient(n, v, Bit(b, 1) + 2 * high, low);
  }

  lemma BitsBack(a: bool, b: bool, c: bool, d: bool, e: bool, f: bool, g: bool)
    ensures var n := Bit(a, 1) + Bit(b, 2) + Bit(c, 4) + Bit(d, 8) + Bit(e, 16) + Bit(f, 32) + Bit(g, 64);
      && BitSet(n, 1) == a && BitSet(n, 2) == b && BitSet(n, 4) == c && BitSet(n, 8) == d
      && BitSet(n, 16) == e && BitSet(n, 32) == f && BitSet(n, 64) == g && n < 256
  {
    hide Bit, BitSet;
    BitTimes(a);
    BitTimes(b);
    BitTimes(c);
    BitTimes(d);
    BitTimes(e);
    BitTimes(f);
    BitTimes(g);
    var n := Bit(a, 1) + Bit(b, 2) + Bit(c, 4) + Bit(d, 8) + Bit(e, 16) + Bit(f, 32) + Bit(g, 64);
    var l2 := Bit(a, 1) + Bit(b, 2);
    var l3 := l2 + Bit(c, 4);
    var l4 := l3 + Bit(d, 8);
    var l5 := l4 + Bit(e, 16);
    var h2 := Bit(f, 1) + 2 * Bit(g, 1);
    var h3 := Bit(e, 1) + 2 * h2;
    var h4 := Bit(d, 1) + 2 * h3;
    var h5 := Bit(c, 1) + 2 * h4;
    ReadBit(n, 1, 0, a, Bit(b, 1) + 2 * h5);
    ReadBit(n, 2, Bit(a, 1), b, h5);
    ReadBit(n, 4, l2, c, h4);
    ReadBit(n, 8, l3, d, h3);
    ReadBit(n, 16, l4, e, h2);
    ReadBit(n, 32, l5, f, Bit(g, 1));
    ReadBit(n, 64, l5 + Bit(f, 32), g, 0);
  }

  lemma InSetFlags(n: nat)
    ensures var f := SetFlags(n);
      && (CF_NEGATIVE in f <==> BitSet(n, 1)) && (CF_LOCAL in f <==> BitSet(n, 2))
      && (CF_AUTH in f <==> BitSet(n, 4)) && (CF_NOCACHE in f <==> BitSet(n, 8))
      && (CF_ADDITIONAL in f <==> BitSet(n, 16)) && (CF_NOPURGE in f <==> BitSet(n, 32))
      && (CF_ROOTSERV in f <==> BitSet(n, 64))
  {
    hide BitSet;
  }

  lemma InEntFlags(n: nat)
    ensures var f := EntFlags(n);
      && (DF_NEGATIVE in f <==> BitSet(n, 1)) && (DF_LOCAL in f <==> BitSet(n, 2))
      && (DF_AUTH in f <==> BitSet(n, 4)) && (DF_NOCACHE in f <==> BitSet(n, 8))
      && (DF_WILD in f <==> BitSet(n, 16))
  {
    hide BitSet;
  }

  lemma SetFlagsBack(f: set<SetFlag>)
    ensures SetFlags(SetBits(f)) == f && SetBits(f) < 256
  {
    hide Bit, BitSet, SetFlags;
    InSetFlags(SetBits(f));
    BitsBack(CF_NEGATIVE in f, CF_LOCAL in f, CF_AUTH in f, CF_NOCACHE in f, CF_ADDITIONAL in f, CF_NOPURGE in f,
             CF_ROOTSERV in f);
    forall x ensures x in SetFlags(SetBits(f)) <==> x in f {
      match x {
        case CF_NEGATIVE =>
        case CF_LOCAL =>
        case CF_AUTH =>
        case CF_NOCACHE =>
        case CF_ADDITIONAL =>
        case CF_NOPURGE =>
        case CF_ROOTSERV =>
      }
    }
  }

  function EntBits(f: set<EntFlag>): nat {
    Bit(DF_NEGATIVE in f, 1) + Bit(DF_LOCAL in f, 2) + Bit(DF_AUTH in f, 4) + Bit(DF_NOCACHE in f, 8)
    + Bit(DF_WILD in f, 16)
  }

  function EntFlags(n: nat): set<EntFlag> {
    (if BitSet(n, 1) then {DF_NEGATIVE} else {}) + (if BitSet(n, 2) then {DF_LOCAL} else {})
    + (if BitSet(n, 4) then {DF_AUTH} else {}) + (if BitSet(n, 8) then {DF_NOCACHE} else {})
    + (if BitSet(n, 16) then {DF_WILD} else {})
  }

  lemma EntFlagsBack(f: set<EntFlag>)
    ensures EntFlags(EntBits(f)) == f && EntBits(f) < 256
  {
    hide Bit, BitSet, EntFlags;
    InEntFlags(EntBits(f));
    BitsBack(DF_NEGATIVE in f, DF_LOCAL in f, DF_AUTH in f, DF_NOCACHE in f, DF_WILD in f, false, false);
    NoBit();
    forall x ensures x in EntFlags(EntBits(f)) <==> x in f {
      match x {
        case DF_NEGATIVE =>
        case DF_LOCAL =>
        case DF_AUTH =>
        case DF_NOCACHE =>
        case DF_WILD =>
      }
    }
  }

  // ---------- types and array indices ----------

  const T_MAX: nat := 51

  /** rrlkuptab: the array index of a type; NRRTOT and above for types that are not cached. */
  function LkUp(tp: nat): nat
    requires 1 <= tp <= T_MAX
  {
    if tp <= 2 then tp - 1
    else if tp <= 4 then tp + 5
    else if tp <= 6 then tp - 3
    else if tp <= 11 then tp + 3
    else if tp == 12 then 4
    else if tp <= 14 then tp + 2
    else if tp <= 16 then tp - 10
    else if tp <= 27 then tp
    else if tp == 28 then 7
    else if tp <= 37 then tp - 1
    else if tp <= 41 then tp + 9
    else tp - 5
  }

  function TypeAt(i: nat): (tp: nat)
    requires i < NRRTOT
    ensures 1 <= tp <= T_MAX && LkUp(tp) == i
  {
    if i <= 1 then i + 1
    else if i <= 3 then i + 3
    else if i == 4 then 12
    else if i <= 6 then i + 10
    else if i == 7 then 28
    else if i <= 9 then i - 5
    else if i <= 14 then i - 3
    else if i <= 16 then i - 2
    else if i <= 27 then i
    else if i <= 36 then i + 1
    else i + 5
  }

  lemma LkUpInjective(t: nat, u: nat)
    requires 1 <= t <= T_MAX && 1 <= u <= T_MAX && LkUp(t) == LkUp(u)
    ensures t == u
  {
  }

  // ---------- writing ----------

  /** What fits into the fields of the file. */
  ghost predicate Storable(w: Widths, c: Cent) {
    && |Lits(c.qname)| < 256 && c.cns < 256 && c.csoa < 256
    && (Negative(c) ==> 0 <= c.negTtl < Pow256(w.time) && 0 <= c.negTs < Pow256(w.time))
    && forall i: nat :: At(c, i).Some? ==>
         var s := At(c, i).value;
         && 0 <= s.ttl < Pow256(w.time) && 0 <= s.ts < Pow256(w.time)
         && forall j :: 0 <= j < |s.rrs| ==> |s.rrs[j]| < 0x10000
  }

  function WriteRecords(rrs: seq<seq<byte>>): seq<byte> {
    if rrs == [] then [] else Short(|rrs[0]|) + rrs[0] + WriteRecords(rrs[1..])
  }

  /** At most 255 records of a set are written. */
  function Cut(rrs: seq<seq<byte>>): seq<seq<byte>> {
    if |rrs| <= 255 then rrs else rrs[..255]
  }

  /** write_rrset. */
  function WriteSet(w: Widths, tp: nat, s: RrSet): seq<byte>
    requires tp <= T_MAX && s.ttl >= 0 && s.ts >= 0
  {
    [Char(tp), Char(|Cut(s.rrs)|)] + Short(SetBits(s.flags)) + Bytes(s.ttl, w.time) + Bytes(s.ts, w.time)
    + WriteRecords(Cut(s.rrs))
  }

  /** The set of type tp, if it is one to be written. */
  predicate Written(c: Cent, tp: nat)
    requires 1 <= tp <= T_MAX
  {
    LkUp(tp) < |c.rr| && At(c, LkUp(tp)).Some? && CF_LOCAL !in At(c, LkUp(tp)).value.flags
  }

  /** The sets from type tp on, in ascending order of type. */
  function WriteSets(w: Widths, c: Cent, tp: nat): seq<byte>
    requires 1 <= tp <= T_MAX + 1 && Storable(w, c)
    decreases T_MAX + 1 - tp
  {
    if tp > T_MAX then []
    else
      (if Written(c, tp) then WriteSet(w, tp, At(c, LkUp(tp)).value) else []) + WriteSets(w, c, tp + 1)
  }

  /** How many sets that is. */
  function WrittenFrom(c: Cent, tp: nat): nat
    requires 1 <= tp <= T_MAX + 1
    decreases T_MAX + 1 - tp
  {
    if tp > T_MAX then 0 else (if Written(c, tp) then 1 else 0) + WrittenFrom(c, tp + 1)
  }

  /** The count in the header, which is taken by array index. */
  function NonLocals(rr: seq<Option<RrSet>>): nat {
    if rr == [] then 0
    else (if rr[0].Some? && CF_LOCAL !in rr[0].value.flags then 1 else 0) + NonLocals(rr[1..])
  }

  // ---------- the two ways of counting ----------

  ghost function TypesFrom(c: Cent, tp: nat): set<nat>
    requires 1 <= tp
  {
    set t: nat | tp <= t <= T_MAX && Written(c, t)
  }

  lemma {:induction false} WrittenIsCard(c: Cent, tp: nat)
    requires 1 <= tp <= T_MAX + 1
    ensures WrittenFrom(c, tp) == |TypesFrom(c, tp)|
    decreases T_MAX + 1 - tp
  {
    hide Written;
    if tp <= T_MAX {
      WrittenIsCard(c, tp + 1);
      var a, b := TypesFrom(c, tp), TypesFrom(c, tp + 1);
      assert a == if Written(c, tp) then b + {tp} else b;
    } else {
      assert TypesFrom(c, tp) == {};
    }
  }

  ghost function IndicesFrom(rr: seq<Option<RrSet>>, n: nat): set<nat> {
    set i: nat | n <= i < |rr| && rr[i].Some? && CF_LOCAL !in rr[i].value.flags
  }

  lemma {:induction false} NonLocalsIsCard(rr: seq<Option<RrSet>>, n: nat)
    requires n <= |rr|
    ensures NonLocals(rr[n..]) == |IndicesFrom(rr, n)|
    decreases |rr| - n
  {
    if n < |rr| {
      NonLocalsIsCard(rr, n + 1);
      assert rr[n..][1..] == rr[n + 1..];
      var a, b := IndicesFrom(rr, n), IndicesFrom(rr, n + 1);
      assert a == if rr[n].Some? && CF_LOCAL !in rr[n].value.flags then b + {n} else b;
    } else {
      assert IndicesFrom(rr, n) == {};
    }
  }

  lemma {:induction false} LkUpKeepsCard(s: set<nat>, r: set<nat>)
    requires forall t :: t in s ==> 1 <= t <= T_MAX
    requires r == set t | t in s :: LkUp(t)
    ensures |r| == |s|
  {
    if s == {} {
      assert r == {};
    } else {
      var t :| t in s;
      var s', r' := s - {t}, set u | u in s - {t} :: LkUp(u);
      LkUpKeepsCard(s', r');
      forall u | u in s' ensures LkUp(u) != LkUp(t) {
        if LkUp(u) == LkUp(t) {
          LkUpInjective(u, t);
        }
      }
      assert r == r' + {LkUp(t)} && LkUp(t) !in r';
    }
  }

  /** The number of sets announced is the number written. */
  lemma CountsAgree(c: Cent)
    requires |c.rr| <= NRRTOT
    ensures NonLocals(c.rr) == WrittenFrom(c, 1) <= NRRTOT
  {
    NonLocalsIsCard(c.rr, 0);
    assert c.rr[0..] == c.rr;
    WrittenIsCard(c, 1);
    var s, r := TypesFrom(c, 1), IndicesFrom(c.rr, 0);
    forall i: nat | i in r ensures i in (set t | t in s :: LkUp(t)) {
      assert TypeAt(i) in s && LkUp(TypeAt(i)) == i;
    }
    LkUpKeepsCard(s, r);
    AtMostAll(r, NRRTOT);
  }

  lemma {:induction false} AtMostAll(r: set<nat>, n: nat)
    requires forall i :: i in r ==> i < n
    ensures |r| <= n
  {
    if n == 0 {
      assert r == {};
    } else {
      AtMostAll(r - {n - 1}, n - 1);
      assert r <= (r - {n - 1}) + {n - 1};
    }
  }

  // ---------- entries and the file ----------

  /** The entries that are written: negative ones that are not local, and those with a set that
      is not. */
  predicate Kept(c: Cent) {
    if Negative(c) then DF_LOCAL !in c.flags else NonLocals(c.rr) > 0
  }

  function WriteEnt(w: Widths, c: Cent): seq<byte>
    requires Storable(w, c)
  {
    [Char(|Lits(c.qname)|), Char(NonLocals(c.rr))] + Short(EntBits(c.flags)) + [Char(c.cns), Char(c.csoa)]
    + EntTimes(w, c) + Lits(c.qname) + WriteSets(w, c, 1)
  }

  /** The times of a negative entry. */
  function EntTimes(w: Widths, c: Cent): seq<byte>
    requires Storable(w, c)
  {
    if Negative(c) then Bytes(c.negTtl, w.time) + Bytes(c.negTs, w.time) else []
  }

  function KeptOf(cents: seq<Cent>): seq<Cent> {
    if cents == [] then [] else (if Kept(cents[0]) then [cents[0]] else []) + KeptOf(cents[1..])
  }

  function WriteEnts(w: Widths, cents: seq<Cent>): seq<byte>
    requires forall c :: c in cents ==> Storable(w, c)
  {
    if cents == [] then [] else (if Kept(cents[0]) then WriteEnt(w, cents[0]) else []) + WriteEnts(w, cents[1..])
  }

  /** The whole file, for the entries in the order of the hash table. */
  function WriteFile(w: Widths, version: seq<byte>, cents: seq<Cent>): seq<byte>
    requires forall c :: c in cents ==> Storable(w, c)
  {
    version + Bytes(|KeptOf(cents)|, w.long) + WriteEnts(w, cents)
  }

  // ---------- reading ----------

  type Input = seq<byte>

  function ParseRecords(s: Input, n: nat): Option<(seq<seq<byte>>, Input)>
    decreases n
  {
    if n == 0 then Some(([], s))
    else if |s| < 2 then None
    else
      var len := ShortValue(s[..2]);
      if |s| < 2 + len then None
      else
        match ParseRecords(s[2 + len..], n - 1)
        case None => None
        case Some((rs, rest)) => Some(([s[2..2 + len]] + rs, rest))
  }

  /** The records that end up in a set read from the file: none when it is not a local set of a
      local entry. */
  function Admitted(c: Cent, flags: set<SetFlag>, rrs: seq<seq<byte>>): seq<seq<byte>> {
    if DF_LOCAL in c.flags && CF_LOCAL !in flags then [] else Distinct(rrs)
  }

  /** No set of a type above prev yet. */
  ghost predicate Below(c: Cent, prev: nat) {
    forall t :: prev < t <= T_MAX ==> At(c, LkUp(t)) == None
  }

  function ParseSets(z: Sizes, w: Widths, s: Input, n: nat, prev: nat, c: Cent): Option<(Cent, Input)>
    requires Exact(z, c) && Below(c, prev)
    decreases n
  {
    var h := 4 + 2 * w.time;
    if n == 0 then Some((c, s))
    else if |s| < h then None
    else if s[0] == 0 || s[0] > T_MAX || LkUp(s[0]) >= NRRTOT || s[0] <= prev then None
    else
      match ParseRecords(s[h..], s[1])
      case None => None
      case Some((rs, rest)) =>
        var flags := SetFlags(ShortValue(s[2..4]));
        var set_ := RrSet(Number(s[4..4 + w.time]), Number(s[4 + w.time..h]), flags, Admitted(c, flags, rs));
        NextType(z, c, prev, s[0], set_);
        ParseSets(z, w, rest, n - 1, s[0], AddSet(z, c, LkUp(s[0]), set_))
  }

  lemma NextType(z: Sizes, c: Cent, prev: nat, tp: nat, s: RrSet)
    requires Exact(z, c) && Below(c, prev) && prev < tp <= T_MAX && LkUp(tp) < NRRTOT
    ensures Exact(z, AddSet(z, c, LkUp(tp), s)) && Below(AddSet(z, c, LkUp(tp), s), tp)
  {
    AddSetExact(z, c, LkUp(tp), s);
    forall t | tp < t <= T_MAX ensures At(AddSet(z, c, LkUp(tp), s), LkUp(t)) == None {
      if LkUp(t) == LkUp(tp) {
        LkUpInjective(t, tp);
      }
    }
  }

  /** The labels of a name without its terminator. */
  function ParseName(s: Input): Option<seq<Label>> {
    if s == [] then Some([])
    else if s[0] == 0 || s[0] > 63 || |s| < 1 + s[0] then None
    else
      match ParseName(s[1 + s[0]..])
      case None => None
      case Some(ls) =>
        var l: Label := s[1..1 + s[0]];
        Some([l] + ls)
  }

  /** init_cent. */
  function InitCent(z: Sizes, name: seq<Label>, ttl: nat, ts: nat, flags: set<EntFlag>): Cent {
    Cent(name, z.cent + |Encode(name)|, 0, flags, if DF_NEGATIVE in flags then [] else Nones(NRRMU), ttl, ts,
         CUNDEF, CUNDEF)
  }

  lemma InitExact(z: Sizes, name: seq<Label>, ttl: nat, ts: nat, flags: set<EntFlag>, cns: nat, csoa: nat)
    ensures var c := InitCent(z, name, ttl, ts, flags).(cns := cns, csoa := csoa);
      Exact(z, c) && Below(c, 0) && forall j: nat :: At(c, j) == None
  {
    SetsEmpty(z, Nones(NRRMU));
  }

  function ParseEnt(z: Sizes, w: Widths, s: Input): Option<(Cent, Input)> {
    if |s| < 6 then None
    else
      var flags := EntFlags(ShortValue(s[2..4]));
      var n := 6 + if DF_NEGATIVE in flags then 2 * w.time else 0;
      if |s| < n + s[0] then None
      else
        match ParseName(s[n..n + s[0]])
        case None => None
        case Some(name) =>
          var ttl := if DF_NEGATIVE in flags then Number(s[6..6 + w.time]) else 0;
          var ts := if DF_NEGATIVE in flags then Number(s[6 + w.time..n]) else 0;
          InitExact(z, name, ttl, ts, flags, s[4], s[5]);
          ParseSets(z, w, s[n + s[0]..], s[1], 0,
                    InitCent(z, name, ttl, ts, flags).(cns := s[4], csoa := s[5]))
  }

  /** The entries up to the first that cannot be read: each is added to the cache in turn. */
  function ParseEnts(z: Sizes, w: Widths, s: Input, n: nat): seq<Cent>
    decreases n
  {
    if n == 0 then []
    else
      match ParseEnt(z, w, s)
      case None => []
      case Some((c, rest)) => [c] + ParseEnts(z, w, rest, n - 1)
  }

  function ParseFile(z: Sizes, w: Widths, version: seq<byte>, s: Input): seq<Cent> {
    if |s| < |version| + w.long || s[..|version|] != version then []
    else ParseEnts(z, w, s[|version| + w.long..], Number(s[|version|..|version| + w.long]))
  }

  // ---------- what comes back ----------

  lemma {:induction false} RecordsBack(rrs: seq<seq<byte>>, rest: Input)
    requires forall j :: 0 <= j < |rrs| ==> |rrs[j]| < 0x10000
    ensures ParseRecords(WriteRecords(rrs) + rest, |rrs|) == Some((rrs, rest))
  {
    hide Short, ShortValue, ParseRecords;
    if rrs == [] {
      assert WriteRecords(rrs) + rest == rest;
      NoRecords(rest);
    } else {
      var tail := WriteRecords(rrs[1..]) + rest;
      assert WriteRecords(rrs) + rest == Short(|rrs[0]|) + rrs[0] + tail;
      hide WriteRecords;
      RecordsBack(rrs[1..], rest);
      RecordBack(rrs[0], tail, |rrs| - 1, rrs[1..], rest);
      assert rrs == [rrs[0]] + rrs[1..];
    }
  }

  lemma NoRecords(s: Input)
    ensures ParseRecords(s, 0) == Some(([], s))
  {
  }

  lemma RecordBack(r: seq<byte>, tail: Input, n: nat, rs: seq<seq<byte>>, rest: Input)
    requires |r| < 0x10000 && ParseRecords(tail, n) == Some((rs, rest))
    ensures ParseRecords(Short(|r|) + r + tail, n + 1) == Some(([r] + rs, rest))
  {
    var s, len := Short(|r|) + r + tail, |r|;
    assert s[..2] == Short(len) && s[2..2 + len] == r && s[2 + len..] == tail;
    ShortBack(len);
    hide Short, ShortValue;
  }

  lemma {:induction false} NameBack(ls: seq<Label>)
    ensures ParseName(Lits(ls)) == Some(ls)
  {
    if ls != [] {
      var s := Lits(ls);
      assert s[1..1 + |ls[0]|] == ls[0] && s[1 + |ls[0]|..] == Lits(ls[1..]);
      NameBack(ls[1..]);
      assert ls == [ls[0]] + ls[1..];
    }
  }

  /** The set that comes back for one that was written. */
  function Restored(c: Cent, s: RrSet): RrSet {
    s.(rrs := Admitted(c, s.flags, Cut(s.rrs)))
  }

  lemma HeaderParts(tp: byte, n: byte, flags: seq<byte>, ttl: seq<byte>, ts: seq<byte>, rest: Input, k: nat)
    requires |flags| == 2 && |ttl| == |ts| == k
    ensures var f := [tp, n] + flags + ttl + ts + rest;
      && |f| >= 4 + 2 * k && f[0] == tp && f[1] == n && f[2..4] == flags
      && f[4..4 + k] == ttl && f[4 + k..4 + 2 * k] == ts && f[4 + 2 * k..] == rest
  {
  }

  /** The fields of a set's header, read back. */
  lemma SetHeaderBack(w: Widths, tp: nat, s: RrSet, rest: Input)
    requires tp <= T_MAX && 0 <= s.ttl < Pow256(w.time) && 0 <= s.ts < Pow256(w.time)
    ensures var f, h := WriteSet(w, tp, s) + rest, 4 + 2 * w.time;
      && |f| >= h && f[0] == tp && f[1] == |Cut(s.rrs)| && SetFlags(ShortValue(f[2..4])) == s.flags
      && Number(f[4..4 + w.time]) == s.ttl && Number(f[4 + w.time..h]) == s.ts
      && f[h..] == WriteRecords(Cut(s.rrs)) + rest
  {
    hide Bytes, Short, WriteRecords, SetBits, SetFlags, Cut, Number, Pow256;
    var flags, ttl, ts := Short(SetBits(s.flags)), Bytes(s.ttl, w.time), Bytes(s.ts, w.time);
    CutShort(s.rrs);
    assert WriteSet(w, tp, s) + rest
        == [Char(tp), Char(|Cut(s.rrs)|)] + flags + ttl + ts + (WriteRecords(Cut(s.rrs)) + rest);
    hide WriteSet;
    HeaderParts(Char(tp), Char(|Cut(s.rrs)|), flags, ttl, ts, WriteRecords(Cut(s.rrs)) + rest, w.time);
    SetFlagsBack(s.flags);
    ShortBack(SetBits(s.flags));
    NumberBytes(s.ttl, w.time);
    NumberBytes(s.ts, w.time);
  }

  lemma CutShort(rrs: seq<seq<byte>>)
    ensures |Cut(rrs)| <= 255
  {
  }

  /** d is to be completed by the sets of c of type tp and above. */
  ghost predicate Completed(c: Cent, tp: nat, d: Cent, d': Cent)
    requires tp >= 1
  {
    && d'.qname == d.qname && d'.flags == d.flags && d'.cns == d.cns && d'.csoa == d.csoa
    && d'.negTtl == d.negTtl && d'.negTs == d.negTs
    && forall t :: 1 <= t <= T_MAX && LkUp(t) < NRRTOT ==>
         At(d', LkUp(t)) == if tp <= t && Written(c, t) then Some(Restored(d, At(c, LkUp(t)).value))
                            else At(d, LkUp(t))
  }

  ghost predicate Ready(z: Sizes, c: Cent, d: Cent, prev: nat, tp: nat) {
    && Exact(z, d) && Below(d, prev) && prev < tp <= T_MAX + 1 && |c.rr| <= NRRTOT
    && (!Negative(d) || WrittenFrom(c, tp) == 0)
  }

  lemma {:induction false} SetsBack(z: Sizes, w: Widths, c: Cent, tp: nat, prev: nat, d: Cent, rest: Input)
    requires Storable(w, c) && Ready(z, c, d, prev, tp)
    ensures var r := ParseSets(z, w, WriteSets(w, c, tp) + rest, WrittenFrom(c, tp), prev, d);
      r.Some? && r.value.1 == rest && Exact(z, r.value.0) && Completed(c, tp, d, r.value.0)
    decreases T_MAX + 1 - tp
  {
    hide ParseSets, WriteSets, WriteSet, WrittenFrom, Exact, Restored, Storable, AddSet, LkUp, Below, Written;
    if tp > T_MAX {
      NoSetsBack(z, w, c, tp, prev, d, rest);
    } else if !Written(c, tp) {
      WriteSetsSkip(w, c, tp);
      SetsBack(z, w, c, tp + 1, prev, d, rest);
      var r := ParseSets(z, w, WriteSets(w, c, tp + 1) + rest, WrittenFrom(c, tp + 1), prev, d);
      CompletedSkip(c, tp, d, r.value.0);
    } else {
      WrittenHas(c, tp);
      var s := At(c, LkUp(tp)).value;
      var e := AddSet(z, d, LkUp(tp), Restored(d, s));
      SetAdded(z, c, tp, prev, d, s);
      SetsBack(z, w, c, tp + 1, tp, e, rest);
      var r := ParseSets(z, w, WriteSets(w, c, tp + 1) + rest, WrittenFrom(c, tp + 1), tp, e);
      WriteSetsNext(w, c, tp, rest);
      OneSetBack(z, w, c, tp, prev, d, s, WriteSets(w, c, tp + 1) + rest, WrittenFrom(c, tp + 1));
      CompletedStep(c, tp, d, e, r.value.0, s);
    }
  }

  lemma NoSetsBack(z: Sizes, w: Widths, c: Cent, tp: nat, prev: nat, d: Cent, rest: Input)
    requires Storable(w, c) && Exact(z, d) && Below(d, prev) && tp == T_MAX + 1
    ensures ParseSets(z, w, WriteSets(w, c, tp) + rest, WrittenFrom(c, tp), prev, d) == Some((d, rest))
    ensures Completed(c, tp, d, d)
  {
    assert WriteSets(w, c, tp) + rest == rest;
  }

  lemma WriteSetsSkip(w: Widths, c: Cent, tp: nat)
    requires Storable(w, c) && 1 <= tp <= T_MAX && !Written(c, tp)
    ensures WriteSets(w, c, tp) == WriteSets(w, c, tp + 1) && WrittenFrom(c, tp) == WrittenFrom(c, tp + 1)
  {
  }

  lemma CompletedSkip(c: Cent, tp: nat, d: Cent, d': Cent)
    requires 1 <= tp <= T_MAX && !Written(c, tp) && Completed(c, tp + 1, d, d')
    ensures Completed(c, tp, d, d')
  {
  }

  lemma WrittenHas(c: Cent, tp: nat)
    requires 1 <= tp <= T_MAX && Written(c, tp)
    ensures At(c, LkUp(tp)).Some? && WrittenFrom(c, tp) > 0
  {
  }

  lemma WriteSetsNext(w: Widths, c: Cent, tp: nat, rest: Input)
    requires Storable(w, c) && 1 <= tp <= T_MAX && Written(c, tp)
    ensures WriteSets(w, c, tp) + rest == WriteSet(w, tp, At(c, LkUp(tp)).value) + (WriteSets(w, c, tp + 1) + rest)
    ensures WrittenFrom(c, tp) == WrittenFrom(c, tp + 1) + 1
  {
    hide WriteSet, LkUp;
    var a, b := WriteSet(w, tp, At(c, LkUp(tp)).value), WriteSets(w, c, tp + 1);
    assert (a + b) + rest == a + (b + rest);
  }

  lemma SetAdded(z: Sizes, c: Cent, tp: nat, prev: nat, d: Cent, s: RrSet)
    requires Ready(z, c, d, prev, tp) && tp <= T_MAX && Written(c, tp) && At(c, LkUp(tp)) == Some(s)
    ensures LkUp(tp) < NRRTOT && !Negative(d)
    ensures var e := AddSet(z, d, LkUp(tp), Restored(d, s));
      && Ready(z, c, e, tp, tp + 1)
      && e.qname == d.qname && e.flags == d.flags && e.cns == d.cns && e.csoa == d.csoa
      && e.negTtl == d.negTtl && e.negTs == d.negTs
      && forall j: nat :: At(e, j) == if j == LkUp(tp) then Some(Restored(d, s)) else At(d, j)
  {
    hide Restored, AddSet;
    AddSetExact(z, d, LkUp(tp), Restored(d, s));
    AddSetRest(z, d, LkUp(tp), Restored(d, s));
    NextType(z, d, prev, tp, Restored(d, s));
  }

  lemma AddSetRest(z: Sizes, d: Cent, i: nat, s: RrSet)
    requires Exact(z, d) && i < NRRTOT && !Negative(d)
    ensures var e := AddSet(z, d, i, s);
      && e.flags == d.flags && e.cns == d.cns && e.csoa == d.csoa && e.negTtl == d.negTtl && e.negTs == d.negTs
  {
  }

  lemma CompletedStep(c: Cent, tp: nat, d: Cent, e: Cent, d': Cent, s: RrSet)
    requires 1 <= tp <= T_MAX && Written(c, tp) && LkUp(tp) < NRRTOT && At(c, LkUp(tp)) == Some(s)
    requires e.qname == d.qname && e.flags == d.flags && e.cns == d.cns && e.csoa == d.csoa
    requires e.negTtl == d.negTtl && e.negTs == d.negTs
    requires forall j: nat :: At(e, j) == if j == LkUp(tp) then Some(Restored(d, s)) else At(d, j)
    requires Completed(c, tp + 1, e, d')
    ensures Completed(c, tp, d, d')
  {
    forall t | 1 <= t <= T_MAX && LkUp(t) < NRRTOT
      ensures At(d', LkUp(t)) == if tp <= t && Written(c, t) then Some(Restored(d, At(c, LkUp(t)).value))
                                 else At(d, LkUp(t))
    {
      if LkUp(t) == LkUp(tp) {
        LkUpInjective(t, tp);
      }
    }
  }

  /** One set is read back and added. */
  lemma OneSetBack(z: Sizes, w: Widths, c: Cent, tp: nat, prev: nat, d: Cent, s: RrSet, tail: Input, n: nat)
    requires Storable(w, c) && Exact(z, d) && Below(d, prev) && prev < tp <= T_MAX
    requires LkUp(tp) < NRRTOT && At(c, LkUp(tp)) == Some(s)
    ensures (NextType(z, d, prev, tp, Restored(d, s));
      ParseSets(z, w, WriteSet(w, tp, s) + tail, n + 1, prev, d)
      == ParseSets(z, w, tail, n, tp, AddSet(z, d, LkUp(tp), Restored(d, s))))
  {
    hide ParseSets, WriteSet, Cut, ParseRecords, WriteRecords, SetFlags, Number, Exact, AddSet, LkUp;
    NextType(z, d, prev, tp, Restored(d, s));
    SetHeaderBack(w, tp, s, tail);
    CutFits(w, c, LkUp(tp));
    RecordsBack(Cut(s.rrs), tail);
    ParseSetsStep(z, w, WriteSet(w, tp, s) + tail, n, prev, d, tp, s, Cut(s.rrs), tail);
  }

  lemma CutFits(w: Widths, c: Cent, i: nat)
    requires Storable(w, c) && At(c, i).Some?
    ensures forall j :: 0 <= j < |Cut(At(c, i).value.rrs)| ==> |Cut(At(c, i).value.rrs)[j]| < 0x10000
  {
  }

  /** One turn of the loop over the sets. */
  lemma ParseSetsStep(z: Sizes, w: Widths, f: Input, n: nat, prev: nat, d: Cent, tp: nat, s: RrSet,
      rs: seq<seq<byte>>, tail: Input)
    requires Exact(z, d) && Below(d, prev) && prev < tp <= T_MAX && LkUp(tp) < NRRTOT
    requires var h := 4 + 2 * w.time;
      && |f| >= h && f[0] == tp && SetFlags(ShortValue(f[2..4])) == s.flags
      && Number(f[4..4 + w.time]) == s.ttl && Number(f[4 + w.time..h]) == s.ts
      && ParseRecords(f[h..], f[1]) == Some((rs, tail))
    ensures (NextType(z, d, prev, tp, s.(rrs := Admitted(d, s.flags, rs)));
      ParseSets(z, w, f, n + 1, prev, d)
      == ParseSets(z, w, tail, n, tp, AddSet(z, d, LkUp(tp), s.(rrs := Admitted(d, s.flags, rs)))))
  {
    hide ParseRecords, SetFlags, Number, Exact, AddSet, LkUp, Admitted, Below;
    NextType(z, d, prev, tp, s.(rrs := Admitted(d, s.flags, rs)));
    assert s.(rrs := Admitted(d, s.flags, rs)) == RrSet(s.ttl, s.ts, s.flags, Admitted(d, s.flags, rs));
  }

  /** What is made of an entry that was written: everything but its local sets, at most 255
      records a set, and none that is there twice. */
  ghost predicate IsSaved(z: Sizes, c: Cent, d: Cent) {
    && Exact(z, d) && d.qname == c.qname && d.flags == c.flags && d.cns == c.cns && d.csoa == c.csoa
    && (Negative(c) ==> d.negTtl == c.negTtl && d.negTs == c.negTs)
    && forall i: nat :: i < NRRTOT ==>
         At(d, i) == if At(c, i).Some? && CF_LOCAL !in At(c, i).value.flags then Some(Restored(c, At(c, i).value))
                     else None
  }

  /** The fields of an entry's header, read back. */
  lemma EntHeaderBack(w: Widths, c: Cent, rest: Input)
    requires Storable(w, c) && NonLocals(c.rr) < 256
    ensures var f, n := WriteEnt(w, c) + rest, 6 + if Negative(c) then 2 * w.time else 0;
      && |f| >= n + |Lits(c.qname)| && f[0] == |Lits(c.qname)| && f[1] == NonLocals(c.rr)
      && EntFlags(ShortValue(f[2..4])) == c.flags && f[4] == c.cns && f[5] == c.csoa
      && (Negative(c) ==> Number(f[6..6 + w.time]) == c.negTtl && Number(f[6 + w.time..n]) == c.negTs)
      && f[n..n + |Lits(c.qname)|] == Lits(c.qname)
      && f[n + |Lits(c.qname)|..] == WriteSets(w, c, 1) + rest
  {
    hide *;
    StoredNames(w, c);
    var flags, name, sets := Short(EntBits(c.flags)), Lits(c.qname), WriteSets(w, c, 1);
    var times := EntTimes(w, c);
    var head := [Char(|name|), Char(NonLocals(c.rr))];
    var refs := [Char(c.cns), Char(c.csoa)];
    EntParts(w, c);
    EntFlagsBack(c.flags);
    ShortBack(EntBits(c.flags));
    TimesBack(w, c);
    CharSame(|name|);
    CharSame(NonLocals(c.rr));
    CharSame(c.cns);
    CharSame(c.csoa);
    Slices(head, flags, refs, times, name, sets + rest);
    Regroup(head + flags + refs + times + name, sets, rest);
    if |times| > 0 {
      Halves(WriteEnt(w, c) + rest, times, w.time);
    }
  }

  lemma CharSame(v: nat)
    requires v < 256
    ensures Char(v) == v
  {
  }

  lemma Regroup<T>(a: seq<T>, b: seq<T>, c: seq<T>)
    ensures a + b + c == a + (b + c)
  {
  }

  lemma Halves(f: seq<byte>, times: seq<byte>, k: nat)
    requires |times| == 2 * k && |f| >= 6 + 2 * k && f[6..6 + |times|] == times
    ensures f[6..6 + k] == times[..k] && f[6 + k..6 + 2 * k] == times[k..]
  {
    assert f[6..6 + 2 * k][..k] == f[6..6 + k];
    assert f[6..6 + 2 * k][k..] == f[6 + k..6 + 2 * k];
  }

  lemma EntParts(w: Widths, c: Cent)
    requires Storable(w, c)
    ensures WriteEnt(w, c) == [Char(|Lits(c.qname)|), Char(NonLocals(c.rr))] + Short(EntBits(c.flags))
      + [Char(c.cns), Char(c.csoa)] + EntTimes(w, c) + Lits(c.qname) + WriteSets(w, c, 1)
  {
  }

  lemma TimesBack(w: Widths, c: Cent)
    requires Storable(w, c)
    ensures var times := EntTimes(w, c);
      && |times| == (if Negative(c) then 2 * w.time else 0)
      && (Negative(c) ==> Number(times[..w.time]) == c.negTtl && Number(times[w.time..]) == c.negTs)
  {
    var times := EntTimes(w, c);
    if Negative(c) {
      NumberBytes(c.negTtl, w.time);
      NumberBytes(c.negTs, w.time);
      hide Bytes, Number;
      assert times[..w.time] == Bytes(c.negTtl, w.time) && times[w.time..] == Bytes(c.negTs, w.time);
    }
  }

  /** The parts of a concatenation, two bytes each to begin with. */
  lemma Slices(a: seq<byte>, b: seq<byte>, c: seq<byte>, d: seq<byte>, e: seq<byte>, g: seq<byte>)
    requires |a| == 2 && |b| == 2 && |c| == 2
    ensures var f := a + b + c + d + e + g;
      && |f| >= 6 + |d| + |e| && f[0] == a[0] && f[1] == a[1] && f[2..4] == b && f[4] == c[0] && f[5] == c[1]
      && f[6..6 + |d|] == d && f[6 + |d|..6 + |d| + |e|] == e && f[6 + |d| + |e|..] == g
  {
  }

  lemma {:induction false} NothingWritten(c: Cent, tp: nat)
    requires c.rr == [] && 1 <= tp <= T_MAX + 1
    ensures WrittenFrom(c, tp) == 0
    decreases T_MAX + 1 - tp
  {
    if tp <= T_MAX {
      NothingWritten(c, tp + 1);
    }
  }

  lemma EntBack(z: Sizes, w: Widths, c: Cent, rest: Input)
    requires Exact(z, c) && Storable(w, c)
    ensures var r := ParseEnt(z, w, WriteEnt(w, c) + rest);
      r.Some? && r.value.1 == rest && IsSaved(z, c, r.value.0)
  {
    CountsAgree(c);
    if Negative(c) {
      NothingWritten(c, 1);
    }
    EntHeaderBack(w, c, rest);
    NameBack(c.qname);
    var ttl := if Negative(c) then c.negTtl else 0;
    var ts := if Negative(c) then c.negTs else 0;
    InitExact(z, c.qname, ttl, ts, c.flags, c.cns, c.csoa);
    var d := InitCent(z, c.qname, ttl, ts, c.flags).(cns := c.cns, csoa := c.csoa);
    StoredNames(w, c);
    hide Exact, Storable, WriteEnt, WriteSets, NonLocals, Number, EntFlags, ParseName, Lits, InitCent, ShortValue;
    SetsBack(z, w, c, 1, 0, d, rest);
    var r := ParseSets(z, w, WriteSets(w, c, 1) + rest, WrittenFrom(c, 1), 0, d);
    ParseEntStep(z, w, WriteEnt(w, c) + rest, c, ttl, ts, WriteSets(w, c, 1) + rest);
    Everywhere(z, c, d, r.value.0);
  }

  lemma StoredNames(w: Widths, c: Cent)
    requires Storable(w, c)
    ensures |Lits(c.qname)| < 256 && c.cns < 256 && c.csoa < 256
    ensures Negative(c) ==> c.negTtl >= 0 && c.negTs >= 0
  {
  }

  lemma ParseEntStep(z: Sizes, w: Widths, f: Input, c: Cent, ttl: nat, ts: nat, tail: Input)
    requires var n, q := 6 + if Negative(c) then 2 * w.time else 0, |Lits(c.qname)|;
      && |f| >= n + q && f[0] == q && EntFlags(ShortValue(f[2..4])) == c.flags && f[4] == c.cns && f[5] == c.csoa
      && (Negative(c) ==> Number(f[6..6 + w.time]) == ttl && Number(f[6 + w.time..n]) == ts)
      && (!Negative(c) ==> ttl == 0 && ts == 0)
      && ParseName(f[n..n + q]) == Some(c.qname) && f[n + q..] == tail
    ensures (InitExact(z, c.qname, ttl, ts, c.flags, c.cns, c.csoa);
      ParseEnt(z, w, f)
      == ParseSets(z, w, tail, f[1], 0, InitCent(z, c.qname, ttl, ts, c.flags).(cns := c.cns, csoa := c.csoa)))
  {
    hide ParseSets, ParseName, Number, EntFlags, Lits, ShortValue, InitCent, Exact, Below;
    InitExact(z, c.qname, ttl, ts, c.flags, c.cns, c.csoa);
  }

  lemma Everywhere(z: Sizes, c: Cent, d: Cent, d': Cent)
    requires |c.rr| <= NRRTOT && Exact(z, d') && Completed(c, 1, d, d') && forall j: nat :: At(d, j) == None
    requires d.qname == c.qname && d.flags == c.flags && d.cns == c.cns && d.csoa == c.csoa
    requires Negative(c) ==> d.negTtl == c.negTtl && d.negTs == c.negTs
    ensures IsSaved(z, c, d')
  {
    hide Exact, LkUp;
    forall i: nat | i < NRRTOT
      ensures At(d', i) == if At(c, i).Some? && CF_LOCAL !in At(c, i).value.flags
                           then Some(Restored(c, At(c, i).value)) else None
    {
      assert LkUp(TypeAt(i)) == i;
    }
  }

  ghost predicate AllSaved(z: Sizes, cs: seq<Cent>, ds: seq<Cent>) {
    |cs| == |ds| && forall i :: 0 <= i < |cs| ==> IsSaved(z, cs[i], ds[i])
  }

  lemma {:induction false} EntsBack(z: Sizes, w: Widths, cents: seq<Cent>)
    requires forall c :: c in cents ==> Exact(z, c) && Storable(w, c)
    ensures AllSaved(z, KeptOf(cents), ParseEnts(z, w, WriteEnts(w, cents), |KeptOf(cents)|))
  {
    hide Exact, Storable, WriteEnt, ParseEnt, IsSaved, Kept;
    if cents != [] {
      var tail := WriteEnts(w, cents[1..]);
      EntsBack(z, w, cents[1..]);
      if Kept(cents[0]) {
        EntBack(z, w, cents[0], tail);
        var r := ParseEnt(z, w, WriteEnt(w, cents[0]) + tail);
        ParseEntsStep(z, w, WriteEnt(w, cents[0]) + tail, |KeptOf(cents[1..])|, r.value.0, tail);
      } else {
        assert WriteEnts(w, cents) == tail;
      }
    }
  }

  lemma ParseEntsStep(z: Sizes, w: Widths, s: Input, n: nat, c: Cent, rest: Input)
    requires ParseEnt(z, w, s) == Some((c, rest))
    ensures ParseEnts(z, w, s, n + 1) == [c] + ParseEnts(z, w, rest, n)
  {
    hide ParseEnt;
  }

  /** Reading the file that was written brings back every entry that is not local: its name, flags
      and references, a negative entry's times, and the sets that are not local, each at its
      index, with its records in order. */
  lemma FileBack(z: Sizes, w: Widths, version: seq<byte>, cents: seq<Cent>)
    requires forall c :: c in cents ==> Exact(z, c) && Storable(w, c)
    requires |cents| < Pow256(w.long)
    ensures AllSaved(z, KeptOf(cents), ParseFile(z, w, version, WriteFile(w, version, cents)))
  {
    hide Exact, Storable, WriteEnts, ParseEnts, Bytes, Number, KeptOf, AllSaved, Pow256;
    var n := |KeptOf(cents)|;
    KeptShorter(cents);
    NumberBytes(n, w.long);
    EntsBack(z, w, cents);
    ThreeParts(version, Bytes(n, w.long), WriteEnts(w, cents));
  }

  /** No set of the entry has a record twice. */
  ghost predicate NoRepeats(c: Cent) {
    forall i: nat :: At(c, i).Some? ==> AllDifferent(At(c, i).value.rrs)
  }

  ghost predicate AllDifferent(rrs: seq<seq<byte>>) {
    forall j, k :: 0 <= j < k < |rrs| ==> rrs[j] != rrs[k]
  }

  /** What is read is the entry itself: of its sets those that are not local, each with its first
      255 records in order. */
  ghost predicate IsCopy(z: Sizes, c: Cent, d: Cent) {
    && Exact(z, d) && d.qname == c.qname && d.flags == c.flags && d.cns == c.cns && d.csoa == c.csoa
    && (Negative(c) ==> d.negTtl == c.negTtl && d.negTs == c.negTs)
    && forall i: nat :: i < NRRTOT ==>
         At(d, i) == if At(c, i).Some? && CF_LOCAL !in At(c, i).value.flags
                     then Some(At(c, i).value.(rrs := Cut(At(c, i).value.rrs)))
                     else None
  }

  lemma SavedIsCopy(z: Sizes, c: Cent, d: Cent)
    requires IsSaved(z, c, d) && DF_LOCAL !in c.flags && NoRepeats(c)
    ensures IsCopy(z, c, d)
  {
    hide Distinct, Exact;
    forall i: nat | i < NRRTOT && At(c, i).Some? && CF_LOCAL !in At(c, i).value.flags
      ensures At(d, i) == Some(At(c, i).value.(rrs := Cut(At(c, i).value.rrs)))
    {
      DistinctSame(Cut(At(c, i).value.rrs));
    }
  }

  lemma {:induction false} KeptFrom(cents: seq<Cent>)
    ensures forall c :: c in KeptOf(cents) ==> c in cents
  {
    if cents != [] {
      KeptFrom(cents[1..]);
    }
  }

  /** Entries without local ones among them and without repeated records come back as they were. */
  lemma FileBackInFull(z: Sizes, w: Widths, version: seq<byte>, cents: seq<Cent>)
    requires forall c :: c in cents ==> Exact(z, c) && Storable(w, c) && DF_LOCAL !in c.flags && NoRepeats(c)
    requires |cents| < Pow256(w.long)
    ensures var ks, ds := KeptOf(cents), ParseFile(z, w, version, WriteFile(w, version, cents));
      |ds| == |ks| && forall i :: 0 <= i < |ks| ==> IsCopy(z, ks[i], ds[i])
  {
    hide Exact, Storable, ParseFile, WriteFile, IsSaved, IsCopy, Pow256, NoRepeats;
    FileBack(z, w, version, cents);
    KeptFrom(cents);
    var ks, ds := KeptOf(cents), ParseFile(z, w, version, WriteFile(w, version, cents));
    forall i | 0 <= i < |ks| ensures IsCopy(z, ks[i], ds[i]) {
      assert ks[i] in cents;
      SavedIsCopy(z, ks[i], ds[i]);
    }
  }

  /** Something of the entry is worth saving: it denies the name, not by configuration, or has a
      set that is not local. */
  ghost predicate WorthSaving(c: Cent) {
    if DF_NEGATIVE in c.flags then DF_LOCAL !in c.flags
    else exists i: nat :: At(c, i).Some? && CF_LOCAL !in At(c, i).value.flags
  }

  lemma {:induction false} NonLocalsMeans(rr: seq<Option<RrSet>>)
    ensures NonLocals(rr) > 0 <==> exists i :: 0 <= i < |rr| && rr[i].Some? && CF_LOCAL !in rr[i].value.flags
  {
    if rr != [] {
      NonLocalsMeans(rr[1..]);
      if i :| 0 <= i < |rr[1..]| && rr[1..][i].Some? && CF_LOCAL !in rr[1..][i].value.flags {
        assert rr[i + 1] == rr[1..][i];
      }
      if i :| 0 <= i < |rr| && rr[i].Some? && CF_LOCAL !in rr[i].value.flags && i > 0 {
        assert rr[i] == rr[1..][i - 1];
      }
    }
  }

  lemma KeptMeans(c: Cent)
    ensures Kept(c) <==> WorthSaving(c)
  {
    NonLocalsMeans(c.rr);
    if !Negative(c) {
      if i :| 0 <= i < |c.rr| && c.rr[i].Some? && CF_LOCAL !in c.rr[i].value.flags {
        assert At(c, i) == c.rr[i];
      }
    }
  }

  /** The entries that are written are just those worth saving, each as often and in the order in
      which the hash table has them. */
  lemma {:induction false} KeptOfMeans(a: seq<Cent>, c: Cent, b: seq<Cent>)
    ensures KeptOf(a + [c] + b) == KeptOf(a) + One(c) + KeptOf(b)
    decreases |a|
  {
    hide Kept, WorthSaving, KeptOf;
    if a == [] {
      NoneKept();
      KeptOfFirst(c, b);
      assert a + [c] + b == [c] + b;
      assert [] + One(c) + KeptOf(b) == One(c) + KeptOf(b);
    } else {
      KeptOfMeans(a[1..], c, b);
      KeptOfFirst(a[0], a[1..]);
      KeptOfFirst(a[0], a[1..] + [c] + b);
      assert a == [a[0]] + a[1..] && a + [c] + b == [a[0]] + (a[1..] + [c] + b);
      var p, q, r, t := One(a[0]), KeptOf(a[1..]), One(c), KeptOf(b);
      assert p + (q + r + t) == (p + q) + r + t;
    }
  }

  ghost function One(c: Cent): seq<Cent> {
    if WorthSaving(c) then [c] else []
  }

  lemma NoneKept()
    ensures KeptOf([]) == []
  {
  }

  lemma KeptOfFirst(c: Cent, cents: seq<Cent>)
    ensures KeptOf([c] + cents) == One(c) + KeptOf(cents)
  {
    hide WorthSaving;
    KeptMeans(c);
    assert ([c] + cents)[1..] == cents;
  }

  lemma ThreeParts(a: seq<byte>, b: seq<byte>, c: seq<byte>)
    ensures var f := a + b + c; f[..|a|] == a && f[|a|..|a| + |b|] == b && f[|a| + |b|..] == c
  {
  }

  lemma {:induction false} KeptShorter(cents: seq<Cent>)
    ensures |KeptOf(cents)| <= |cents|
  {
    if cents != [] {
      KeptShorter(cents[1..]);
    }
  }

  // ---------- write_disk_cache ----------

  /** write_rrset. */
  method WriteRrset(w: Widths, tp: nat, s: RrSet) returns (out: seq<byte>)
    requires tp <= T_MAX && s.ttl >= 0 && s.ts >= 0
    ensures out == WriteSet(w, tp, s)
  {
    hide WriteRecords, Bytes, Short, SetBits;
    var n := 0;
    while n < |s.rrs| && n < 255
      invariant n <= |s.rrs| && n <= 255
    {
      n := n + 1;
    }
    assert s.rrs[..n] == Cut(s.rrs);
    out := [Char(tp), Char(n)] + Short(SetBits(s.flags)) + Bytes(s.ttl, w.time) + Bytes(s.ts, w.time);
    ghost var head := out;
    var j := 0;
    WriteRecordsStart(s.rrs);
    while j < n
      invariant j <= n && out == head + WriteRecords(s.rrs[..j])
    {
      WriteRecordsNext(s.rrs, j);
      out := out + (Short(|s.rrs[j]|) + s.rrs[j]);
      j := j + 1;
    }
  }

  lemma WriteRecordsStart(rrs: seq<seq<byte>>)
    ensures WriteRecords(rrs[..0]) == []
  {
  }

  lemma WriteRecordsNext(rrs: seq<seq<byte>>, j: nat)
    requires j < |rrs|
    ensures WriteRecords(rrs[..j + 1]) == WriteRecords(rrs[..j]) + (Short(|rrs[j]|) + rrs[j])
  {
    assert rrs[..j + 1] == rrs[..j] + [rrs[j]];
    WriteRecordsConcat(rrs[..j], [rrs[j]]);
    var one: seq<seq<byte>> := [rrs[j]];
    assert one[1..] == [] && WriteRecords(one[1..]) == [];
    hide Short;
    assert WriteRecords(one) == Short(|rrs[j]|) + rrs[j] + [];
  }

  lemma {:induction false} WriteRecordsConcat(a: seq<seq<byte>>, b: seq<seq<byte>>)
    ensures WriteRecords(a + b) == WriteRecords(a) + WriteRecords(b)
  {
    hide Short;
    if a == [] {
      assert a + b == b;
    } else {
      assert (a + b)[0] == a[0] && (a + b)[1..] == a[1..] + b;
      WriteRecordsConcat(a[1..], b);
      Regroup(Short(|a[0]|) + a[0], WriteRecords(a[1..]), WriteRecords(b));
    }
  }

  /** The test whether an entry is to be written. */
  method IsKept(c: Cent) returns (r: bool)
    ensures r == Kept(c)
  {
    if DF_NEGATIVE in c.flags {
      return DF_LOCAL !in c.flags;
    }
    var j := 0;
    while j < |c.rr|
      invariant j <= |c.rr| && NonLocals(c.rr) == NonLocals(c.rr[j..])
    {
      assert c.rr[j..][1..] == c.rr[j + 1..];
      if c.rr[j].Some? && CF_LOCAL !in c.rr[j].value.flags {
        return true;
      }
      j := j + 1;
    }
    return false;
  }

  /** The number of sets for the header, by array index. */
  method CountNonLocals(c: Cent) returns (n: nat)
    ensures n == NonLocals(c.rr)
  {
    n := 0;
    var j := 0;
    while j < |c.rr|
      invariant j <= |c.rr| && NonLocals(c.rr) == n + NonLocals(c.rr[j..])
    {
      assert c.rr[j..][1..] == c.rr[j + 1..];
      if c.rr[j].Some? && CF_LOCAL !in c.rr[j].value.flags {
        n := n + 1;
      }
      j := j + 1;
    }
  }

  /** The part of the loop of write_disk_cache for an entry to be written. */
  method WriteOne(w: Widths, c: Cent) returns (out: seq<byte>)
    requires Storable(w, c)
    ensures out == WriteEnt(w, c)
  {
    var n := CountNonLocals(c);
    StoredNames(w, c);
    hide Storable, Bytes, Short, EntBits, Lits, NonLocals, WriteSet;
    out := [Char(|Lits(c.qname)|), Char(n)] + Short(EntBits(c.flags)) + [Char(c.cns), Char(c.csoa)];
    if DF_NEGATIVE in c.flags {
      out := out + (Bytes(c.negTtl, w.time) + Bytes(c.negTs, w.time));
    }
    out := out + Lits(c.qname);
    var sets := WriteAllSets(w, c);
    out := out + sets;
  }

  /** The sets in the order of the type list. */
  method WriteAllSets(w: Widths, c: Cent) returns (out: seq<byte>)
    requires Storable(w, c)
    ensures out == WriteSets(w, c, 1)
  {
    hide Storable, WriteSet, WriteSets, LkUp;
    out := [];
    var tp := 1;
    assert [] + WriteSets(w, c, 1) == WriteSets(w, c, 1);
    while tp <= T_MAX
      invariant 1 <= tp <= T_MAX + 1 && WriteSets(w, c, 1) == out + WriteSets(w, c, tp)
    {
      if LkUp(tp) < |c.rr| && c.rr[LkUp(tp)].Some? && CF_LOCAL !in c.rr[LkUp(tp)].value.flags {
        StoredTimes(w, c, LkUp(tp));
        var s := WriteRrset(w, tp, c.rr[LkUp(tp)].value);
        WriteSetsStep(w, c, tp);
        Regroup(out, s, WriteSets(w, c, tp + 1));
        out := out + s;
      } else {
        WriteSetsSkip(w, c, tp);
      }
      tp := tp + 1;
    }
    WriteSetsEnd(w, c);
    assert out + [] == out;
  }

  lemma WriteSetsStep(w: Widths, c: Cent, tp: nat)
    requires Storable(w, c) && 1 <= tp <= T_MAX && Written(c, tp)
    ensures WriteSets(w, c, tp) == WriteSet(w, tp, At(c, LkUp(tp)).value) + WriteSets(w, c, tp + 1)
  {
  }

  lemma WriteSetsEnd(w: Widths, c: Cent)
    requires Storable(w, c)
    ensures WriteSets(w, c, T_MAX + 1) == []
  {
  }

  lemma StoredTimes(w: Widths, c: Cent, i: nat)
    requires Storable(w, c) && At(c, i).Some?
    ensures At(c, i).value.ttl >= 0 && At(c, i).value.ts >= 0
  {
  }

  /** write_disk_cache, once the cache has been purged to its permanent size: the entries are
      counted, then written. */
  method WriteDiskCache(w: Widths, version: seq<byte>, cents: seq<Cent>) returns (out: seq<byte>)
    requires forall c :: c in cents ==> Storable(w, c)
    ensures out == WriteFile(w, version, cents)
  {
    hide Storable, Kept, WriteEnt, Bytes;
    var en := 0;
    var i := 0;
    while i < |cents|
      invariant i <= |cents| && |KeptOf(cents)| == en + |KeptOf(cents[i..])|
    {
      assert cents[i..][1..] == cents[i + 1..];
      var k := IsKept(cents[i]);
      if k {
        en := en + 1;
      }
      i := i + 1;
    }
    out := version + Bytes(en, w.long);
    ghost var head := out;
    i := 0;
    assert cents[0..] == cents;
    while i < |cents|
      invariant i <= |cents| && head + WriteEnts(w, cents) == out + WriteEnts(w, cents[i..])
    {
      assert cents[i..][1..] == cents[i + 1..];
      var k := IsKept(cents[i]);
      if k {
        var e := WriteOne(w, cents[i]);
        Regroup(out, e, WriteEnts(w, cents[i + 1..]));
        out := out + e;
      }
      i := i + 1;
    }
    assert out + [] == out;
  }

  // ---------- read_disk_cache ----------

  /** add_cent_rr on a set that is there. */
  method AddCentRr(z: Sizes, c: Cent, i: nat, ttl: int, flags: set<SetFlag>, data: seq<byte>) returns (c': Cent)
    requires At(c, i).Some? && ttl == At(c, i).value.ttl
    ensures c' == if (DF_LOCAL in c.flags && CF_LOCAL !in flags) || data in At(c, i).value.rrs then c
                  else AppendRr(z, c, i, data)
  {
    c' := c;
    if DF_LOCAL in c.flags && CF_LOCAL !in flags {
      return;
    }
    var rrs := c.rr[i].value.rrs;
    var k := 0;
    while k < |rrs|
      invariant k <= |rrs| && data !in rrs[..k]
    {
      if rrs[k] == data {
        return;
      }
      k := k + 1;
    }
    assert rrs[..k] == rrs;
    c' := AppendRr(z, c, i, data);
  }

  /** Appending to a set just added is adding the longer set. */
  lemma AppendIsAdd(z: Sizes, c: Cent, i: nat, s: RrSet, data: seq<byte>)
    requires Exact(z, c) && i < NRRTOT
    ensures At(AddSet(z, c, i, s), i) == Some(s)
    ensures AppendRr(z, AddSet(z, c, i, s), i, data) == AddSet(z, c, i, s.(rrs := s.rrs + [data]))
  {
    PositiveExact(z, c);
    WithRoomExact(z, Positive(c), i);
    BucketsAppend(z, s.rrs, data);
  }

  lemma AdmittedNext(c: Cent, flags: set<SetFlag>, rs: seq<seq<byte>>, d: seq<byte>)
    ensures Admitted(c, flags, rs + [d]) ==
      if (DF_LOCAL in c.flags && CF_LOCAL !in flags) || d in Admitted(c, flags, rs) then Admitted(c, flags, rs)
      else Admitted(c, flags, rs) + [d]
  {
    assert (rs + [d])[..|rs|] == rs;
  }

  /** The records of one set: they are added as they are read. */
  method ReadRecords(z: Sizes, c: Cent, i: nat, s: RrSet, f: Input, num: nat) returns (r: Option<(Cent, Input)>)
    requires Exact(z, c) && i < NRRTOT && s.rrs == []
    ensures r.None? <==> ParseRecords(f, num).None?
    ensures r.Some? ==> r.value.1 == ParseRecords(f, num).value.1
    ensures r.Some? ==>
      r.value.0 == AddSet(z, c, i, s.(rrs := Admitted(c, s.flags, ParseRecords(f, num).value.0)))
  {
    hide Exact, AddSet, AppendRr, Admitted, ShortValue;
    ghost var rs: seq<seq<byte>> := [];
    var rest := f;
    var n: nat := num;
    var ce := AddSet(z, c, i, s);
    NoneAdmitted(c, s.flags);
    AfterNone(ParseRecords(f, num));
    assert s.(rrs := []) == s;
    while n > 0
      invariant n <= num && ce == AddSet(z, c, i, s.(rrs := Admitted(c, s.flags, rs)))
      invariant ParseRecords(f, num) == AfterRecords(rs, ParseRecords(rest, n))
    {
      if |rest| < 2 {
        return None;
      }
      var len := ShortValue(rest[..2]);
      if |rest| < 2 + len {
        return None;
      }
      var d := rest[2..2 + len];
      AppendIsAdd(z, c, i, s.(rrs := Admitted(c, s.flags, rs)), d);
      AdmittedNext(c, s.flags, rs, d);
      AddedFlags(z, c, i, s.(rrs := Admitted(c, s.flags, rs)));
      ce := AddCentRr(z, ce, i, s.ttl, s.flags, d);
      AfterOne(rs, d, ParseRecords(rest[2 + len..], n - 1));
      rs := rs + [d];
      rest := rest[2 + len..];
      n := n - 1;
    }
    assert rs + [] == rs;
    r := Some((ce, rest));
  }

  lemma NoneAdmitted(c: Cent, flags: set<SetFlag>)
    ensures Admitted(c, flags, []) == []
  {
  }

  lemma AddedFlags(z: Sizes, c: Cent, i: nat, s: RrSet)
    requires Exact(z, c) && i < NRRTOT
    ensures DF_LOCAL in AddSet(z, c, i, s).flags <==> DF_LOCAL in c.flags
  {
    PositiveExact(z, c);
    WithRoomExact(z, Positive(c), i);
  }

  /** Records read so far, before the rest. */
  function AfterRecords(rs: seq<seq<byte>>, o: Option<(seq<seq<byte>>, Input)>): Option<(seq<seq<byte>>, Input)> {
    match o
    case None => None
    case Some((ts, rest)) => Some((rs + ts, rest))
  }

  lemma AfterNone(o: Option<(seq<seq<byte>>, Input)>)
    ensures AfterRecords([], o) == o
  {
    if o.Some? {
      assert [] + o.value.0 == o.value.0;
    }
  }

  lemma AfterOne(rs: seq<seq<byte>>, d: seq<byte>, o: Option<(seq<seq<byte>>, Input)>)
    ensures AfterRecords(rs + [d], o) == AfterRecords(rs, AfterRecords([d], o))
  {
    if o.Some? {
      assert rs + [d] + o.value.0 == rs + ([d] + o.value.0);
    }
  }

  /** The sets of an entry. */
  method ReadSets(z: Sizes, w: Widths, f: Input, num: nat, c: Cent) returns (r: Option<(Cent, Input)>)
    requires Exact(z, c) && Below(c, 0)
    ensures r == ParseSets(z, w, f, num, 0, c)
  {
    hide Exact, Below, AddSet, ParseRecords, Number, SetFlags, ShortValue, Admitted, LkUp;
    var rest := f;
    var n: nat := num;
    var prev: nat := 0;
    var ce := c;
    while n > 0
      invariant n <= num && Exact(z, ce) && Below(ce, prev)
      invariant ParseSets(z, w, f, num, 0, c) == ParseSets(z, w, rest, n, prev, ce)
    {
      var h := 4 + 2 * w.time;
      if |rest| < h {
        return None;
      }
      var tp: nat := rest[0];
      if tp == 0 || tp > T_MAX || LkUp(tp) >= NRRTOT || tp <= prev {
        return None;
      }
      var flags := SetFlags(ShortValue(rest[2..4]));
      var s := RrSet(Number(rest[4..4 + w.time]), Number(rest[4 + w.time..h]), flags, []);
      var o := ReadRecords(z, ce, LkUp(tp), s, rest[h..], rest[1]);
      if o.None? {
        return None;
      }
      ghost var rs := ParseRecords(rest[h..], rest[1]).value.0;
      ParseSetsStep(z, w, rest, n - 1, prev, ce, tp, s, rs, o.value.1);
      NextType(z, ce, prev, tp, s.(rrs := Admitted(ce, flags, rs)));
      ce, rest := o.value.0, o.value.1;
      prev, n := tp, n - 1;
    }
    r := Some((ce, rest));
  }

  /** The check of a name and its labels. */
  method ReadName(s: Input) returns (r: Option<seq<Label>>)
    ensures r == ParseName(s)
  {
    var ls: seq<Label> := [];
    var i: nat := 0;
    assert s[0..] == s;
    PrependedNone(ParseName(s));
    while i < |s|
      invariant i <= |s| && ParseName(s) == Prepended(ls, ParseName(s[i..]))
    {
      var lb: nat := s[i];
      if lb == 0 || lb > 63 || i + lb + 1 > |s| {
        return None;
      }
      var l: Label := s[i + 1..i + 1 + lb];
      assert s[i..][0] == lb && s[i..][1..1 + lb] == l && s[i..][1 + lb..] == s[i + 1 + lb..];
      NameNext(s[i..], lb, l);
      PrependedOne(ls, l, ParseName(s[i + 1 + lb..]));
      ls := ls + [l];
      i := i + lb + 1;
    }
    assert s[i..] == [] && ls + [] == ls;
    r := Some(ls);
  }

  function Prepended(ls: seq<Label>, o: Option<seq<Label>>): Option<seq<Label>> {
    if o.None? then None else Some(ls + o.value)
  }

  lemma PrependedNone(o: Option<seq<Label>>)
    ensures Prepended([], o) == o
  {
    if o.Some? {
      assert [] + o.value == o.value;
    }
  }

  lemma PrependedOne(ls: seq<Label>, l: Label, o: Option<seq<Label>>)
    ensures Prepended(ls, Prepended([l], o)) == Prepended(ls + [l], o)
  {
    if o.Some? {
      assert ls + ([l] + o.value) == ls + [l] + o.value;
    }
  }

  lemma NameNext(s: Input, lb: nat, l: Label)
    requires s != [] && s[0] == lb && 1 <= lb <= 63 && |s| >= 1 + lb && l == s[1..1 + lb]
    ensures ParseName(s) == Prepended([l], ParseName(s[1 + lb..]))
  {
  }

  /** One entry. */
  method ReadEnt(z: Sizes, w: Widths, s: Input) returns (r: Option<(Cent, Input)>)
    ensures r == ParseEnt(z, w, s)
  {
    hide Exact, Below, ParseSets, ParseName, Number, EntFlags, ShortValue, InitCent;
    if |s| < 6 {
      return None;
    }
    var flags := EntFlags(ShortValue(s[2..4]));
    var n: nat := 6;
    var ttl: nat, ts: nat := 0, 0;
    if DF_NEGATIVE in flags {
      n := 6 + 2 * w.time;
      if |s| < n {
        return None;
      }
      ttl, ts := Number(s[6..6 + w.time]), Number(s[6 + w.time..n]);
    }
    if |s| < n + s[0] as nat {
      return None;
    }
    var name := ReadName(s[n..n + s[0] as nat]);
    if name.None? {
      return None;
    }
    InitExact(z, name.value, ttl, ts, flags, s[4], s[5]);
    r := ReadSets(z, w, s[n + s[0] as nat..], s[1], InitCent(z, name.value, ttl, ts, flags).(cns := s[4], csoa := s[5]));
  }

  /** read_disk_cache: the entries that are handed to add_cache, up to the first that cannot be
      read. */
  method ReadDiskCache(z: Sizes, w: Widths, version: seq<byte>, f: Input) returns (added: seq<Cent>)
    ensures added == ParseFile(z, w, version, f)
  {
    hide ParseEnt, Number;
    added := [];
    if |f| < |version| + w.long || f[..|version|] != version {
      return;
    }
    var cnt: nat := Number(f[|version|..|version| + w.long]);
    var rest := f[|version| + w.long..];
    while cnt > 0
      invariant ParseFile(z, w, version, f) == added + ParseEnts(z, w, rest, cnt)
    {
      var o := ReadEnt(z, w, rest);
      if o.None? {
        assert added + [] == added;
        return;
      }
      ParseEntsStep(z, w, rest, cnt - 1, o.value.0, o.value.1);
      Regroup(added, [o.value.0], ParseEnts(z, w, o.value.1, cnt - 1));
      added := added + [o.value.0];
      rest := o.value.1;
      cnt := cnt - 1;
    }
    assert added + [] == added;
  }
}
