/** The rules of cache.c on a single entry: which sets have timed out, which record types exclude
    each other, which of an old and a new set prevails. */
module CachePolicy {
  import opened Names
  import opened Wrappers
  import opened CacheEntry

  /** The ttl limits of the configuration. */
  datatype Limits = Limits(minTtl: int, maxTtl: int, negTtl: int)

  // ---------- time ----------

  function ClatAdj(ttl: int): int {
    if ttl < CACHE_LAT then CACHE_LAT else ttl
  }

  function TimedOut(ts: int, ttl: int, now: int): bool {
    ts + ClatAdj(ttl) < now
  }

  function Old(s: RrSet, now: int): bool {
    TimedOut(s.ts, s.ttl, now)
  }

  /** The time something may stay: until its ttl is over, and 120 seconds at least. */
  predicate Within(ts: int, ttl: int, now: int) {
    now <= ts + ttl || now <= ts + 120
  }

  lemma TimedOutMeans(ts: int, ttl: int, now: int)
    ensures TimedOut(ts, ttl, now) <==> !Within(ts, ttl, now)
  {
  }

  /** Whether a set of the cache may be handed out. */
  predicate Stays(s: RrSet, now: int) {
    CF_LOCAL in s.flags || CF_NOPURGE in s.flags || Within(s.ts, s.ttl, now)
  }

  lemma GoneMeans(s: RrSet, now: int)
    ensures Gone(s, now) <==> !Stays(s, now)
    ensures Old(s, now) <==> !Within(s.ts, s.ttl, now)
  {
  }

  function KeptSlot(o: Option<RrSet>, now: int): Option<RrSet> {
    if o.Some? && Stays(o.value, now) then o else None
  }

  /** A set that purging removes. */
  function Gone(s: RrSet, now: int): bool {
    !(CF_NOPURGE in s.flags || CF_LOCAL in s.flags) && Old(s, now)
  }

  /** adjust_ttl. */
  function AdjustTtl(l: Limits, s: RrSet): RrSet {
    if CF_NOCACHE in s.flags then s.(flags := s.flags - {CF_NOCACHE}, ttl := 0)
    else
      var low := if CF_NEGATIVE in s.flags && l.negTtl < l.minTtl then l.negTtl else l.minTtl;
      if s.ttl < low then s.(ttl := low)
      else if s.ttl > l.maxTtl then s.(ttl := l.maxTtl)
      else s
  }

  /** adjust_dom_ttl. */
  function AdjustDomTtl(l: Limits, c: Cent): Cent {
    if DF_NOCACHE in c.flags then c.(flags := c.flags - {DF_NOCACHE}, negTtl := 0)
    else
      var low := if l.negTtl < l.minTtl then l.negTtl else l.minTtl;
      if c.negTtl < low then c.(negTtl := low)
      else if c.negTtl > l.maxTtl then c.(negTtl := l.maxTtl)
      else c
  }

  /** r is ttl, brought between two limits. */
  predicate Limited(ttl: int, low: int, high: int, r: int) {
    && (low <= ttl <= high ==> r == ttl) && (ttl < low ==> r == low) && (ttl > high && ttl >= low ==> r == high)
  }

  function Smaller(a: int, b: int): (r: int)
    ensures r <= a && r <= b && (r == a || r == b)
  {
    if a < b then a else b
  }

  /** What is stored for the cache latency only gets the ttl 0, and a negative set may stay as
      short as negative entries. */
  lemma AdjustTtlMeans(l: Limits, s: RrSet)
    ensures var r := AdjustTtl(l, s);
      && r.rrs == s.rrs && r.ts == s.ts && r.flags == s.flags - {CF_NOCACHE}
      && (CF_NOCACHE in s.flags ==> r.ttl == 0)
      && (CF_NOCACHE !in s.flags ==>
            var low := if CF_NEGATIVE in s.flags then Smaller(l.minTtl, l.negTtl) else l.minTtl;
            Limited(s.ttl, low, l.maxTtl, r.ttl))
  {
  }

  lemma AdjustDomTtlMeans(l: Limits, c: Cent)
    ensures var r := AdjustDomTtl(l, c);
      && r == c.(negTtl := r.negTtl, flags := c.flags - {DF_NOCACHE})
      && (DF_NOCACHE in c.flags ==> r.negTtl == 0)
      && (DF_NOCACHE !in c.flags ==>
            Limited(c.negTtl, Smaller(l.minTtl, l.negTtl), l.maxTtl, r.negTtl))
  {
  }

  // ---------- conflicting types ----------

  datatype RrClass = ALIAS | RECORD | IDEM | PTR

  /** The class of each type, by array index (rr_info). */
  function ClassOf(i: nat): RrClass {
    if i == 2 then ALIAS
    else if i == 4 || i == 23 then PTR
    else if i == 0 || i == 7 || 14 <= i <= 15 || 17 <= i <= 22 || 27 <= i <= 28 || 30 <= i <= 36 then RECORD
    else IDEM
  }

  function Excludes(c: RrClass): set<RrClass> {
    match c
    case ALIAS => {RECORD, PTR}
    case RECORD => {ALIAS, PTR}
    case IDEM => {}
    case PTR => {ALIAS, RECORD}
  }

  function Exclude(i: nat, j: nat): bool {
    ClassOf(i) in Excludes(ClassOf(j)) || ClassOf(j) in Excludes(ClassOf(i))
  }

  lemma ExcludeSymmetric(i: nat, j: nat)
    ensures Exclude(i, j) == Exclude(j, i) && !Exclude(i, i)
    ensures ClassOf(i) in Excludes(ClassOf(j)) <==> ClassOf(j) in Excludes(ClassOf(i))
  {
  }

  /** Slot j holds records that exclude type i. */
  function Clashes(c: Cent, i: nat, j: nat): bool {
    At(c, j).Some? && CF_NEGATIVE !in At(c, j).value.flags && Exclude(i, j)
  }

  /** No two sets of records of an entry exclude each other. */
  ghost predicate ConflictFree(c: Cent) {
    forall i: nat, j: nat :: At(c, i).Some? && CF_NEGATIVE !in At(c, i).value.flags ==> !Clashes(c, i, j)
  }

  /** What is left of a set's life, if anything. */
  function Remaining(s: RrSet, now: int): nat {
    var t := s.ttl + s.ts - now;
    if t > 0 then t else 0
  }

  function ClashCount(c: Cent, i: nat, n: nat): nat {
    if n == 0 then 0 else ClashCount(c, i, n - 1) + if Clashes(c, i, n - 1) then 1 else 0
  }

  function ClashTtl(c: Cent, i: nat, now: int, n: nat): nat {
    if n == 0 then 0
    else ClashTtl(c, i, now, n - 1) + if Clashes(c, i, n - 1) then Remaining(At(c, n - 1).value, now) else 0
  }

  ghost predicate LocalClash(c: Cent, i: nat) {
    exists j: nat :: Clashes(c, i, j) && CF_LOCAL in At(c, j).value.flags
  }

  /** Whether a set of type i may be added to c: the answer of cr_check_add. */
  ghost predicate MayAdd(c: Cent, i: nat, ttl: int, flags: set<SetFlag>, now: int) {
    var n := ClashCount(c, i, |c.rr|);
    || CF_NEGATIVE in flags
    || CF_LOCAL in flags
    || (DF_LOCAL !in c.flags && !LocalClash(c, i) && (n == 0 || ttl > ClashTtl(c, i, now, |c.rr|) / n))
  }

  /** c without the sets among the first n that exclude type i. */
  function WithoutClashes(z: Sizes, c: Cent, i: nat, n: nat): Cent {
    if n == 0 then c
    else
      var d := WithoutClashes(z, c, i, n - 1);
      if Clashes(d, i, n - 1) then DelSet(z, d, n - 1) else d
  }

  lemma {:induction false} WithoutClashesAt(z: Sizes, c: Cent, i: nat, n: nat)
    requires Exact(z, c) && n <= |c.rr|
    ensures var d := WithoutClashes(z, c, i, n);
      && Exact(z, d) && |d.rr| == |c.rr| && d.flags + {DF_AUTH} == c.flags + {DF_AUTH} && d.flags <= c.flags
      && d.qname == c.qname && d.cns == c.cns && d.csoa == c.csoa
      && (forall j: nat :: At(d, j) == if j < n && Clashes(c, i, j) then None else At(c, j))
  {
    hide Exact, Exclude;
    if n > 0 {
      WithoutClashesAt(z, c, i, n - 1);
      var d := WithoutClashes(z, c, i, n - 1);
      DelSetExact(z, d, n - 1);
      assert Clashes(d, i, n - 1) == Clashes(c, i, n - 1);
    }
  }

  /** c after cr_check_add. */
  ghost function Checked(z: Sizes, c: Cent, i: nat, ttl: int, flags: set<SetFlag>, now: int): Cent {
    if CF_NEGATIVE in flags || !MayAdd(c, i, ttl, flags, now) then c else WithoutClashes(z, c, i, |c.rr|)
  }

  /** The types in which a name has an alias, the pointers, and the records of its own. */
  const ALIASES: set<nat> := {2}
  const POINTERS: set<nat> := {4, 23}
  const RECORDS: set<nat> := {0, 7, 14, 15, 17, 18, 19, 20, 21, 22, 27, 28, 30, 31, 32, 33, 34, 35, 36}

  /** Only types of two different ones of these kinds exclude each other. */
  lemma ExcludeMeans(i: nat, j: nat)
    ensures Exclude(i, j) <==> OtherKind(i, j)
  {
  }

  /** Two types of different kinds among aliases, pointers and records. */
  ghost predicate OtherKind(i: nat, j: nat) {
    || (i in ALIASES && j in POINTERS + RECORDS) || (i in POINTERS && j in ALIASES + RECORDS)
    || (i in RECORDS && j in ALIASES + POINTERS)
  }

  /** A set stands in the way of one of type i just if it is there, no denial, and of another kind. */
  lemma ClashesMeans(c: Cent, i: nat, j: nat)
    ensures Clashes(c, i, j) <==>
      j < |c.rr| && c.rr[j].Some? && CF_NEGATIVE !in c.rr[j].value.flags && OtherKind(i, j)
  {
    ExcludeMeans(i, j);
    hide Exclude;
  }

  lemma {:induction false} NoClash(c: Cent, i: nat, n: nat)
    ensures ClashCount(c, i, n) == 0 <==> forall j: nat :: j < n ==> !Clashes(c, i, j)
  {
    if n > 0 {
      NoClash(c, i, n - 1);
    }
  }

  /** A set that excludes the new one and lasts at least as long, or is outlived by it. */
  ghost predicate AllOutlive(c: Cent, i: nat, ttl: int, now: int, n: nat) {
    forall j: nat :: j < n && Clashes(c, i, j) ==>
      var s := At(c, j).value; ttl <= s.ts + s.ttl - now || ttl <= 0
  }

  ghost predicate AllOutlived(c: Cent, i: nat, ttl: int, now: int, n: nat) {
    forall j: nat :: j < n && Clashes(c, i, j) ==>
      var s := At(c, j).value; ttl > s.ts + s.ttl - now && ttl > 0
  }

  lemma {:induction false} SumOfLives(c: Cent, i: nat, ttl: int, now: int, n: nat)
    ensures AllOutlive(c, i, ttl, now, n) ==> ClashTtl(c, i, now, n) >= ClashCount(c, i, n) * ttl
    ensures AllOutlived(c, i, ttl, now, n) && ttl > 0 ==> ClashTtl(c, i, now, n) <= ClashCount(c, i, n) * (ttl - 1)
  {
    if n > 0 {
      SumOfLives(c, i, ttl, now, n - 1);
      assert (ClashCount(c, i, n - 1) + 1) * ttl == ClashCount(c, i, n - 1) * ttl + ttl;
      assert (ClashCount(c, i, n - 1) + 1) * (ttl - 1) == ClashCount(c, i, n - 1) * (ttl - 1) + ttl - 1;
    }
  }

  /** When a set may be added: local and negative ones always; others never to a local entry, nor
      where a local set excludes them; otherwise always if nothing excludes them, or if they last
      longer than all that does; and never if all that excludes them lasts at least as long. */
  lemma MayAddMeans(c: Cent, i: nat, ttl: int, flags: set<SetFlag>, now: int)
    ensures CF_LOCAL in flags || CF_NEGATIVE in flags ==> MayAdd(c, i, ttl, flags, now)
    ensures CF_LOCAL !in flags && CF_NEGATIVE !in flags ==>
      && (DF_LOCAL in c.flags ==> !MayAdd(c, i, ttl, flags, now))
      && (forall j: nat :: Clashes(c, i, j) && CF_LOCAL in At(c, j).value.flags ==> !MayAdd(c, i, ttl, flags, now))
      && (DF_LOCAL !in c.flags ==>
            (forall j: nat :: Clashes(c, i, j) ==> CF_LOCAL !in At(c, j).value.flags) ==>
            AllOutlived(c, i, ttl, now, |c.rr|) ==> MayAdd(c, i, ttl, flags, now))
      && ((exists j: nat :: Clashes(c, i, j)) ==>
            AllOutlive(c, i, ttl, now, |c.rr|) ==> !MayAdd(c, i, ttl, flags, now))
  {
    var n := ClashCount(c, i, |c.rr|);
    NoClash(c, i, |c.rr|);
    SumOfLives(c, i, ttl, now, |c.rr|);
    if n > 0 {
      Mean(ClashTtl(c, i, now, |c.rr|), n, ttl);
    }
    if j: nat :| Clashes(c, i, j) {
      assert j < |c.rr|;
    }
  }

  lemma Mean(sum: nat, n: nat, ttl: int)
    requires n > 0
    ensures sum >= n * ttl ==> sum / n >= ttl
    ensures sum <= n * (ttl - 1) ==> sum / n < ttl
  {
    var q := sum / n;
    assert sum == n * q + sum % n;
    assert q < ttl ==> n * (q + 1) <= n * ttl;
    assert ttl <= q ==> n * ttl <= n * q && n * (ttl - 1) == n * ttl - n;
  }

  /** What passes the check leaves nothing that excludes the new set; a refusal, or input that is
      not local, leaves every local set. */
  lemma CheckedAt(z: Sizes, c: Cent, i: nat, ttl: int, flags: set<SetFlag>, now: int)
    requires Exact(z, c)
    ensures var d := Checked(z, c, i, ttl, flags, now);
      && Exact(z, d) && |d.rr| == |c.rr| && d.flags + {DF_AUTH} == c.flags + {DF_AUTH} && d.flags <= c.flags
      && d.qname == c.qname && d.cns == c.cns && d.csoa == c.csoa
      && (forall j: nat :: At(d, j) == At(c, j) || (At(d, j) == None && Clashes(c, i, j)))
      && (MayAdd(c, i, ttl, flags, now) && CF_NEGATIVE !in flags ==> forall j: nat :: !Clashes(d, i, j))
      && (CF_LOCAL !in flags ==>
            forall j: nat :: At(c, j).Some? && CF_LOCAL in At(c, j).value.flags ==> At(d, j) == At(c, j))
  {
    WithoutClashesAt(z, c, i, |c.rr|);
  }
}
