/** The reader/writer lock of cache.c, with its two condition variables, pending counters and
    suspension of readers, as a state machine. A step is what one thread does between taking
    lock_mutex and giving it up, by unlocking it or by waiting on a condition variable. */
module CacheLock {
  type Tid = nat

  /** Where a thread stands. Asleep: waiting on a condition variable. Awake: woken, still to
      recheck its loop condition. `T` is for waiters of timedlock_cache_rw. Yielded: between
      the two halves of yield_lock_cache_rw. */
  datatype Pc = Idle | Reading | Writing | RAsleep | RAwake | WAsleep | WAwake | TAsleep | TAwake | Yielded

  datatype Lock = Lock(pcs: map<Tid, Pc>, wLock: bool, rLock: nat, rPend: nat, rwPend: nat, rSusp: bool)

  function At(pcs: map<Tid, Pc>, p: Pc): set<Tid> {
    set t | t in pcs && pcs[t] == p
  }

  /** SUSP_THRESH */
  function Thresh(rPend: nat): nat {
    rPend / 2 + 2
  }

  datatype Event =
    | EnterRead(t: Tid)
    | ResumeRead(t: Tid)
    | LeaveRead(t: Tid, woken: set<Tid>)
    | EnterWrite(t: Tid)
    | EnterTimed(t: Tid)
    | ResumeWrite(t: Tid)
    | LeaveWrite(t: Tid, woken: set<Tid>)
    | Yield(t: Tid, woken: set<Tid>)
    | Return(t: Tid)
    | Spurious(t: Tid)
    | Timeout(t: Tid)       // ETIMEDOUT without having been signalled
    | LateTimeout(t: Tid)   // ETIMEDOUT although a signal had been directed at the thread

  // ---------- the steps ----------

  function Set(s: Lock, t: Tid, p: Pc): Lock {
    s.(pcs := s.pcs[t := p])
  }

  /** The loop of lock_cache_r, the thread being counted in r_pend. */
  function CheckRead(s: Lock, t: Tid): Lock
    requires s.rPend > 0
  {
    var susp := s.rwPend > Thresh(s.rPend) || s.rSusp;
    if susp || s.wLock then Set(s, t, RAsleep).(rSusp := susp)
    else Set(s, t, Reading).(rLock := s.rLock + 1, rPend := s.rPend - 1)
  }

  /** The loop of lock_cache_rw and timedlock_cache_rw, the thread being counted in rw_pend. */
  function CheckWrite(s: Lock, t: Tid, asleep: Pc): Lock
    requires s.rwPend > 0
  {
    if s.wLock || s.rLock > 0 then Set(s, t, asleep)
    else Set(s, t, Writing).(wLock := true, rwPend := s.rwPend - 1)
  }

  function Sleepers(s: Lock): set<Tid> {
    At(s.pcs, WAsleep) + At(s.pcs, TAsleep)
  }

  /** pthread_cond_signal(&rw_cond) wakes one waiter if there is any. */
  predicate CanSignal(s: Lock, woken: set<Tid>) {
    if Sleepers(s) == {} then woken == {} else exists w :: w in Sleepers(s) && woken == {w}
  }

  function Woken(p: Pc): Pc {
    match p
    case RAsleep => RAwake
    case WAsleep => WAwake
    case TAsleep => TAwake
    case _ => p
  }

  function Wake(s: Lock, woken: set<Tid>): Lock {
    s.(pcs := map t | t in s.pcs :: if t in woken then Woken(s.pcs[t]) else s.pcs[t])
  }

  /** unlock_cache_r, before it wakes anybody. */
  function DropRead(s: Lock, t: Tid): Lock {
    Set(s, t, Idle).(rLock := if s.rLock > 0 then s.rLock - 1 else 0)
  }

  /** unlock_cache_rw and the first half of yield_lock_cache_rw, before they wake anybody. */
  function DropWrite(s: Lock, t: Tid, next: Pc): Lock {
    Set(s, t, next).(wLock := false, rSusp := false)
  }

  /** Whether unlocking for writing signals a writer rather than waking all readers. */
  predicate PrefersWriter(s: Lock) {
    s.rPend == 0 || s.rwPend > Thresh(s.rPend)
  }

  /** Whom unlocking for writing may wake. */
  predicate CanHandOver(s: Lock, woken: set<Tid>) {
    if PrefersWriter(s) then CanSignal(s, woken) else woken == At(s.pcs, RAsleep)
  }

  ghost predicate Enabled(s: Lock, e: Event) {
    e.t in s.pcs &&
    var p := s.pcs[e.t];
    match e
    case EnterRead(t) => p == Idle
    case ResumeRead(t) => p == RAwake && s.rPend > 0
    case LeaveRead(t, woken) =>
      p == Reading && (if DropRead(s, t).rLock == 0 then CanSignal(DropRead(s, t), woken) else woken == {})
    case EnterWrite(t) => p == Idle
    case EnterTimed(t) => p == Idle
    case ResumeWrite(t) => (p == WAwake || p == TAwake) && s.rwPend > 0
    case LeaveWrite(t, woken) => p == Writing && CanHandOver(DropWrite(s, t, Idle), woken)
    case Yield(t, woken) =>
      p == Writing && (s.rPend > 0 || s.rwPend > 0) && CanHandOver(DropWrite(s, t, Yielded), woken)
    case Return(t) => p == Yielded
    case Spurious(t) => p in {RAsleep, WAsleep, TAsleep}
    case Timeout(t) => p == TAsleep && s.rwPend > 0
    case LateTimeout(t) => p == TAwake && s.rwPend > 0
  }

  function Do(s: Lock, e: Event): Lock
    requires Enabled(s, e)
  {
    match e
    case EnterRead(t) => CheckRead(s.(rPend := s.rPend + 1), t)
    case ResumeRead(t) => CheckRead(s, t)
    case LeaveRead(t, woken) => Wake(DropRead(s, t), woken)
    case EnterWrite(t) => CheckWrite(s.(rwPend := s.rwPend + 1), t, WAsleep)
    case EnterTimed(t) => CheckWrite(s.(rwPend := s.rwPend + 1), t, TAsleep)
    case ResumeWrite(t) => CheckWrite(s, t, if s.pcs[t] == WAwake then WAsleep else TAsleep)
    case LeaveWrite(t, woken) => Wake(DropWrite(s, t, Idle), woken)
    case Yield(t, woken) => Wake(DropWrite(s, t, Yielded), woken)
    case Return(t) => CheckWrite(s.(rwPend := s.rwPend + 1), t, WAsleep)
    case Spurious(t) => Set(s, t, Woken(s.pcs[t]))
    case Timeout(t) => Set(s, t, Idle).(rwPend := s.rwPend - 1)
    case LateTimeout(t) => Set(s, t, Idle).(rwPend := s.rwPend - 1)
  }

  predicate Init(s: Lock) {
    && (forall t :: t in s.pcs ==> s.pcs[t] == Idle)
    && !s.wLock && s.rLock == 0 && s.rPend == 0 && s.rwPend == 0 && !s.rSusp
  }

  /** A run: every event is possible where it happens. */
  ghost predicate Runs(s: Lock, es: seq<Event>)
    decreases |es|
  {
    es == [] || (Enabled(s, es[0]) && Runs(Do(s, es[0]), es[1..]))
  }

  ghost function After(s: Lock, es: seq<Event>): Lock
    requires Runs(s, es)
    decreases |es|
  {
    if es == [] then s else After(Do(s, es[0]), es[1..])
  }

  // ---------- what readers and writers get ----------

  /** Writers waiting outnumber half of the readers waiting by at most two. */
  predicate FewWriters(s: Lock, readers: int) {
    2 * (s.rwPend - 2) <= readers
  }

  /** A reader gets in just if nobody writes, readers are not suspended and few writers wait;
      otherwise he sleeps, and many writers suspend all readers. */
  lemma ReaderMeans(s: Lock, e: Event)
    requires Enabled(s, e) && (e.EnterRead? || e.ResumeRead?)
    ensures var n := if e.EnterRead? then s.rPend + 1 else s.rPend;
            && (Do(s, e).pcs[e.t] == Reading <==> !s.wLock && !s.rSusp && FewWriters(s, n))
            && Do(s, e) == if Do(s, e).pcs[e.t] == Reading
                           then s.(pcs := s.pcs[e.t := Reading], rLock := s.rLock + 1, rPend := n - 1)
                           else s.(pcs := s.pcs[e.t := RAsleep], rPend := n, rSusp := s.rSusp || !FewWriters(s, n))
  {
  }

  /** A writer gets in just if nobody reads or writes. */
  lemma WriterMeans(s: Lock, e: Event)
    requires Enabled(s, e) && (e.EnterWrite? || e.EnterTimed? || e.ResumeWrite? || e.Return?)
    ensures var n := if e.ResumeWrite? then s.rwPend else s.rwPend + 1;
            var timed := e.EnterTimed? || (e.ResumeWrite? && s.pcs[e.t] == TAwake);
            && (Do(s, e).pcs[e.t] == Writing <==> !s.wLock && s.rLock == 0)
            && Do(s, e) == if Do(s, e).pcs[e.t] == Writing
                           then s.(pcs := s.pcs[e.t := Writing], wLock := true, rwPend := n - 1)
                           else s.(pcs := s.pcs[e.t := if timed then TAsleep else WAsleep], rwPend := n)
  {
  }

  /** Of the sleepers just those in woken are awake afterwards; t aside, nobody else moves. */
  ghost predicate Woke(s: Lock, s': Lock, t: Tid, woken: set<Tid>) {
    forall u :: u in s.pcs && u != t ==>
      && u in s'.pcs
      && s'.pcs[u] == if u !in woken then s.pcs[u]
                      else if s.pcs[u] == RAsleep then RAwake
                      else if s.pcs[u] == WAsleep then WAwake
                      else TAwake
  }

  ghost predicate SleepingWriter(s: Lock, t: Tid) {
    t in s.pcs && (s.pcs[t] == WAsleep || s.pcs[t] == TAsleep)
  }

  /** woken is one of the writers that sleep, or nobody if none does. */
  ghost predicate OneWriter(s: Lock, woken: set<Tid>) {
    if exists w: Tid :: SleepingWriter(s, w) then exists w: Tid :: SleepingWriter(s, w) && woken == {w}
    else woken == {}
  }

  /** All readers that sleep, if any waits and few writers do; otherwise one writer. */
  ghost predicate HandedTo(s: Lock, woken: set<Tid>) {
    if s.rPend > 0 && FewWriters(s, s.rPend) then forall u :: u in woken <==> u in s.pcs && s.pcs[u] == RAsleep
    else OneWriter(s, woken)
  }

  /** Who is woken when a lock is given up: after writing those above, after reading one writer if
      it was the last reader. The lock is yielded only to somebody. */
  lemma WakesWhom(s: Lock, t: Tid, woken: set<Tid>)
    requires t in s.pcs
    ensures Enabled(s, LeaveWrite(t, woken)) <==> s.pcs[t] == Writing && HandedTo(s, woken)
    ensures Enabled(s, Yield(t, woken)) <==> s.pcs[t] == Writing && s.rPend + s.rwPend > 0 && HandedTo(s, woken)
    ensures Enabled(s, LeaveRead(t, woken)) <==>
      s.pcs[t] == Reading && if s.rLock <= 1 then OneWriter(s, woken) else woken == {}
  {
    if s.pcs[t] == Writing {
      HandOverSame(s, t, Idle, woken);
      HandOverSame(s, t, Yielded, woken);
    }
    if s.pcs[t] == Reading {
      WritersAsleep(s, DropRead(s, t));
    }
  }

  lemma HandOverSame(s: Lock, t: Tid, next: Pc, woken: set<Tid>)
    requires t in s.pcs && s.pcs[t] == Writing && (next == Idle || next == Yielded)
    ensures CanHandOver(DropWrite(s, t, next), woken) <==> HandedTo(s, woken)
  {
    var d := DropWrite(s, t, next);
    WritersAsleep(s, d);
    assert forall u :: u in At(d.pcs, RAsleep) <==> u in s.pcs && s.pcs[u] == RAsleep;
  }

  /** Giving up the write lock ends any suspension of readers. */
  lemma HandOverMeans(s: Lock, e: Event)
    requires Enabled(s, e) && (e.LeaveWrite? || e.Yield?)
    ensures var s' := Do(s, e);
      && s' == s.(pcs := s'.pcs, wLock := false, rSusp := false)
      && s'.pcs[e.t] == if e.LeaveWrite? then Idle else Yielded
  {
    hide Wake;
    Waking(DropWrite(s, e.t, if e.LeaveWrite? then Idle else Yielded), e.woken, e.t);
  }

  /** Whoever does not sleep can take his next step, and whoever sleeps can be woken. */
  lemma NobodyBlocked(s: Lock, t: Tid)
    requires Consistent(s) && t in s.pcs
    ensures s.pcs[t] == Idle ==> Enabled(s, EnterRead(t)) && Enabled(s, EnterWrite(t)) && Enabled(s, EnterTimed(t))
    ensures s.pcs[t] == RAwake ==> Enabled(s, ResumeRead(t))
    ensures s.pcs[t] == WAwake || s.pcs[t] == TAwake ==> Enabled(s, ResumeWrite(t))
    ensures s.pcs[t] in {RAsleep, WAsleep, TAsleep} ==> Enabled(s, Spurious(t))
    ensures s.pcs[t] == TAsleep ==> Enabled(s, Timeout(t))
    ensures s.pcs[t] == TAwake ==> Enabled(s, LateTimeout(t))
    ensures s.pcs[t] == Yielded ==> Enabled(s, Return(t))
    ensures s.pcs[t] == Reading ==> exists woken :: Enabled(s, LeaveRead(t, woken))
    ensures s.pcs[t] == Writing ==> exists woken :: Enabled(s, LeaveWrite(t, woken))
  {
    hide Enabled, HandedTo, OneWriter;
    var one, all := SomeWriter(s), At(s.pcs, RAsleep);
    WakesWhom(s, t, if s.rLock <= 1 then one else {});
    WakesWhom(s, t, if s.rPend > 0 && FewWriters(s, s.rPend) then all else one);
    SomebodyHanded(s, one, all);
    Steps(s, t);
  }

  lemma SomebodyHanded(s: Lock, one: set<Tid>, all: set<Tid>)
    requires OneWriter(s, one) && all == At(s.pcs, RAsleep)
    ensures HandedTo(s, if s.rPend > 0 && FewWriters(s, s.rPend) then all else one)
  {
  }

  ghost function SomeWriter(s: Lock): (woken: set<Tid>)
    ensures OneWriter(s, woken)
  {
    if w: Tid :| SleepingWriter(s, w) then {w} else {}
  }

  lemma Steps(s: Lock, t: Tid)
    requires Consistent(s) && t in s.pcs
    ensures s.pcs[t] == Idle ==> Enabled(s, EnterRead(t)) && Enabled(s, EnterWrite(t)) && Enabled(s, EnterTimed(t))
    ensures s.pcs[t] == RAwake ==> Enabled(s, ResumeRead(t))
    ensures s.pcs[t] == WAwake || s.pcs[t] == TAwake ==> Enabled(s, ResumeWrite(t))
    ensures s.pcs[t] in {RAsleep, WAsleep, TAsleep} ==> Enabled(s, Spurious(t))
    ensures s.pcs[t] == TAsleep ==> Enabled(s, Timeout(t))
    ensures s.pcs[t] == TAwake ==> Enabled(s, LateTimeout(t))
    ensures s.pcs[t] == Yielded ==> Enabled(s, Return(t))
  {
    assert t in At(s.pcs, s.pcs[t]);
  }

  lemma Waking(d: Lock, woken: set<Tid>, t: Tid)
    requires t in d.pcs && d.pcs[t] in {Idle, Yielded}
    ensures var s' := Wake(d, woken); s' == d.(pcs := s'.pcs) && s'.pcs[t] == d.pcs[t]
  {
  }

  /** Whoever is woken when a lock is given up is awake afterwards, and nobody else moves. */
  lemma WokenMeans(s: Lock, e: Event)
    requires Enabled(s, e) && (e.LeaveRead? || e.LeaveWrite? || e.Yield?)
    ensures Woke(s, Do(s, e), e.t, e.woken)
  {
    hide Wake, CanSignal, Woke, Sleepers, At, Thresh, CheckRead, CheckWrite;
    var d := if e.LeaveRead? then DropRead(s, e.t) else DropWrite(s, e.t, if e.LeaveWrite? then Idle else Yielded);
    OnlySleepers(d, e.woken);
    WakeMeans(d, e.woken);
    WokeThere(s, d, e.woken, Do(s, e), e.t);
  }

  lemma WokeThere(s: Lock, d: Lock, woken: set<Tid>, s': Lock, t: Tid)
    requires t in s.pcs && t in d.pcs && d.pcs == s.pcs[t := d.pcs[t]] && Woke(d, s', t, woken)
    ensures Woke(s, s', t, woken)
  {
  }

  lemma WakeMeans(d: Lock, woken: set<Tid>)
    requires forall u :: u in woken ==> u in d.pcs && d.pcs[u] in {RAsleep, WAsleep, TAsleep}
    ensures forall t :: Woke(d, Wake(d, woken), t, woken)
  {
    hide At, Sleepers;
  }

  lemma OnlySleepers(d: Lock, woken: set<Tid>)
    requires CanSignal(d, woken) || woken == {} || woken == At(d.pcs, RAsleep)
    ensures forall u :: u in woken ==> u in d.pcs && d.pcs[u] in {RAsleep, WAsleep, TAsleep}
  {
  }

  /** A reader that leaves is no longer counted. */
  lemma LeaverMeans(s: Lock, e: Event)
    requires Enabled(s, e) && e.LeaveRead?
    ensures var s' := Do(s, e);
            && s'.rLock == (if s.rLock > 0 then s.rLock - 1 else 0)
            && s' == s.(pcs := s'.pcs, rLock := s'.rLock) && s'.pcs[e.t] == Idle
  {
    hide Wake;
    Waking(DropRead(s, e.t), e.woken, e.t);
  }

  lemma WritersAsleep(s: Lock, d: Lock)
    requires exists t :: t in s.pcs && s.pcs[t] in {Reading, Writing} && d.pcs.Keys == s.pcs.Keys
               && d.pcs[t] in {Idle, Yielded} && forall u :: u in s.pcs && u != t ==> d.pcs[u] == s.pcs[u]
    ensures forall w :: SleepingWriter(s, w) <==> w in Sleepers(d)
  {
  }

  // ---------- what holds in every reachable state ----------

  /** The lock words and counters say exactly what the threads are doing. */
  ghost predicate Consistent(s: Lock) {
    && |At(s.pcs, Writing)| == (if s.wLock then 1 else 0)
    && |At(s.pcs, Reading)| == s.rLock
    && (s.wLock ==> s.rLock == 0)
    && |At(s.pcs, RAsleep)| + |At(s.pcs, RAwake)| == s.rPend
    && |At(s.pcs, WAsleep)| + |At(s.pcs, WAwake)| + |At(s.pcs, TAsleep)| + |At(s.pcs, TAwake)| == s.rwPend
  }

  lemma AtSet(pcs: map<Tid, Pc>, t: Tid, q: Pc, p: Pc)
    requires t in pcs
    ensures At(pcs[t := q], p) == if p == q then At(pcs, p) + {t} else At(pcs, p) - {t}
  {
  }

  /** Moving one thread changes the two counts concerned by one. */
  lemma Moved(pcs: map<Tid, Pc>, t: Tid, q: Pc)
    requires t in pcs && pcs[t] != q
    ensures var pcs' := pcs[t := q];
            && |At(pcs', q)| == |At(pcs, q)| + 1
            && |At(pcs', pcs[t])| == |At(pcs, pcs[t])| - 1
            && forall p :: p != q && p != pcs[t] ==> At(pcs', p) == At(pcs, p)
  {
    AtSet(pcs, t, q, q);
    AtSet(pcs, t, q, pcs[t]);
    forall p | p != q && p != pcs[t] ensures At(pcs[t := q], p) == At(pcs, p) {
      AtSet(pcs, t, q, p);
    }
    assert t in At(pcs, pcs[t]) && t !in At(pcs, q);
  }

  /** Waking one sleeping writer moves it; waking all sleeping readers empties their queue. */
  lemma WakeMoves(s: Lock, woken: set<Tid>)
    requires CanSignal(s, woken) || woken == At(s.pcs, RAsleep)
    ensures var s' := Wake(s, woken);
            && At(s'.pcs, Idle) == At(s.pcs, Idle)
            && At(s'.pcs, Reading) == At(s.pcs, Reading)
            && At(s'.pcs, Writing) == At(s.pcs, Writing)
            && At(s'.pcs, RAsleep) == At(s.pcs, RAsleep) - woken
            && At(s'.pcs, RAwake) == At(s.pcs, RAwake) + (At(s.pcs, RAsleep) * woken)
            && At(s'.pcs, WAsleep) == At(s.pcs, WAsleep) - woken
            && At(s'.pcs, WAwake) == At(s.pcs, WAwake) + (At(s.pcs, WAsleep) * woken)
            && At(s'.pcs, TAsleep) == At(s.pcs, TAsleep) - woken
            && At(s'.pcs, TAwake) == At(s.pcs, TAwake) + (At(s.pcs, TAsleep) * woken)
  {
    OthersStay(s, woken);
    SleepersMove(s, woken, RAsleep, RAwake);
    SleepersMove(s, woken, WAsleep, WAwake);
    SleepersMove(s, woken, TAsleep, TAwake);
  }

  lemma OthersStay(s: Lock, woken: set<Tid>)
    ensures var s' := Wake(s, woken);
      forall p :: p == Idle || p == Reading || p == Writing ==> At(s'.pcs, p) == At(s.pcs, p)
  {
  }

  lemma SleepersMove(s: Lock, woken: set<Tid>, p: Pc, q: Pc)
    requires (p == RAsleep && q == RAwake) || (p == WAsleep && q == WAwake) || (p == TAsleep && q == TAwake)
    ensures var s' := Wake(s, woken);
      At(s'.pcs, p) == At(s.pcs, p) - woken && At(s'.pcs, q) == At(s.pcs, q) + (At(s.pcs, p) * woken)
  {
  }

  lemma SplitCount(a: set<Tid>, b: set<Tid>, w: set<Tid>)
    requires a * b == {}
    ensures |a - w| + |b + (a * w)| == |a| + |b|
  {
    assert a == (a - w) + (a * w);
    assert (b * (a * w)) == {};
  }

  lemma AtDisjoint(pcs: map<Tid, Pc>, p: Pc, q: Pc)
    requires p != q
    ensures At(pcs, p) * At(pcs, q) == {}
  {
  }

  lemma WakeKeeps(s: Lock, woken: set<Tid>)
    requires Consistent(s) && (CanSignal(s, woken) || woken == At(s.pcs, RAsleep))
    ensures Consistent(Wake(s, woken))
  {
    WakeMoves(s, woken);
    AtDisjoint(s.pcs, RAsleep, RAwake);
    AtDisjoint(s.pcs, WAsleep, WAwake);
    AtDisjoint(s.pcs, TAsleep, TAwake);
    SplitCount(At(s.pcs, RAsleep), At(s.pcs, RAwake), woken);
    SplitCount(At(s.pcs, WAsleep), At(s.pcs, WAwake), woken);
    SplitCount(At(s.pcs, TAsleep), At(s.pcs, TAwake), woken);
  }

  lemma ConsistentRead(s: Lock, e: Event)
    requires Consistent(s) && Enabled(s, e) && (e.EnterRead? || e.ResumeRead? || e.Spurious?)
    ensures Consistent(Do(s, e))
  {
    hide At;
    match e
    case Spurious(t) => ConsistentSpurious(s, t);
    case _ => Moved(s.pcs, e.t, RAsleep); Moved(s.pcs, e.t, Reading);
  }

  lemma ConsistentSpurious(s: Lock, t: Tid)
    requires Consistent(s) && Enabled(s, Spurious(t))
    ensures Consistent(Do(s, Spurious(t)))
  {
    hide At;
    Moved(s.pcs, t, Woken(s.pcs[t]));
  }

  lemma ConsistentWrite(s: Lock, e: Event)
    requires Consistent(s) && Enabled(s, e)
    requires e.EnterWrite? || e.EnterTimed? || e.ResumeWrite? || e.Return? || e.Timeout? || e.LateTimeout?
    ensures Consistent(Do(s, e))
  {
    hide At, Consistent;
    match e
    case EnterWrite(t) => CheckWriteKeeps(s, s.(rwPend := s.rwPend + 1), t, WAsleep);
    case Return(t) => CheckWriteKeeps(s, s.(rwPend := s.rwPend + 1), t, WAsleep);
    case EnterTimed(t) => CheckWriteKeeps(s, s.(rwPend := s.rwPend + 1), t, TAsleep);
    case ResumeWrite(t) => CheckWriteKeeps(s, s, t, if s.pcs[t] == WAwake then WAsleep else TAsleep);
    case Timeout(t) => GiveUpKeeps(s, t);
    case LateTimeout(t) => GiveUpKeeps(s, t);
  }

  lemma CheckWriteKeeps(s: Lock, s1: Lock, t: Tid, asleep: Pc)
    requires Consistent(s) && t in s.pcs && (asleep == WAsleep || asleep == TAsleep)
    requires if s.pcs[t] == WAwake || s.pcs[t] == TAwake then s1 == s && s.rwPend > 0
             else (s.pcs[t] == Idle || s.pcs[t] == Yielded) && s1 == s.(rwPend := s.rwPend + 1)
    ensures Consistent(CheckWrite(s1, t, asleep))
  {
    hide At;
    if s.wLock || s.rLock > 0 {
      Moved(s.pcs, t, asleep);
    } else {
      Moved(s.pcs, t, Writing);
    }
  }

  lemma GiveUpKeeps(s: Lock, t: Tid)
    requires Consistent(s) && t in s.pcs && (s.pcs[t] == TAsleep || s.pcs[t] == TAwake) && s.rwPend > 0
    ensures Consistent(Set(s, t, Idle).(rwPend := s.rwPend - 1))
  {
    hide At;
    Moved(s.pcs, t, Idle);
  }

  lemma ConsistentStep(s: Lock, e: Event)
    requires Consistent(s) && Enabled(s, e)
    ensures Consistent(Do(s, e))
  {
    hide At, CanHandOver, CanSignal;
    match e
    case LeaveRead(t, woken) =>
      Moved(s.pcs, t, Idle);
      LeaveReadKeeps(DropRead(s, t), woken);
    case LeaveWrite(t, woken) =>
      Moved(s.pcs, t, Idle);
      HandOverKeeps(DropWrite(s, t, Idle), woken);
    case Yield(t, woken) =>
      Moved(s.pcs, t, Yielded);
      HandOverKeeps(DropWrite(s, t, Yielded), woken);
    case _ =>
      hide Consistent, Enabled, Do;
      if e.EnterRead? || e.ResumeRead? || e.Spurious? {
        ConsistentRead(s, e);
      } else {
        ConsistentWrite(s, e);
      }
  }

  lemma LeaveReadKeeps(s: Lock, woken: set<Tid>)
    requires Consistent(s) && (if s.rLock == 0 then CanSignal(s, woken) else woken == {})
    ensures Consistent(Wake(s, woken))
  {
    if s.rLock == 0 {
      WakeKeeps(s, woken);
    } else {
      assert Wake(s, woken).pcs == s.pcs;
    }
  }

  lemma HandOverKeeps(s: Lock, woken: set<Tid>)
    requires Consistent(s) && CanHandOver(s, woken)
    ensures Consistent(Wake(s, woken))
  {
    WakeKeeps(s, woken);
  }

  /** A writer excludes readers and other writers. */
  lemma MutualExclusion(s: Lock, t: Tid, u: Tid)
    requires Consistent(s) && t in s.pcs && u in s.pcs && t != u
    ensures s.pcs[t] == Writing ==> s.pcs[u] != Writing && s.pcs[u] != Reading
  {
    if s.pcs[t] == Writing {
      assert t in At(s.pcs, Writing);
      assert At(s.pcs, Reading) == {} && |At(s.pcs, Writing)| == 1;
      assert u !in At(s.pcs, Reading);
      if s.pcs[u] == Writing {
        assert {t, u} <= At(s.pcs, Writing);
        Subset({t, u}, At(s.pcs, Writing));
      }
    }
  }

  lemma Subset(a: set<Tid>, b: set<Tid>)
    requires a <= b
    ensures |a| <= |b|
  {
    assert b == a + (b - a);
  }

  // ---------- no wakeup is lost ----------

  predicate Free(s: Lock) {
    !s.wLock && s.rLock == 0
  }

  /** Only these threads ever use timedlock_cache_rw. */
  ghost predicate TimedOnly(s: Lock, timed: set<Tid>) {
    At(s.pcs, TAsleep) + At(s.pcs, TAwake) <= timed
  }

  /** Untimed writers that are waiting: they leave the queue only by taking the lock. */
  function Patient(s: Lock): set<Tid> {
    At(s.pcs, WAsleep) + At(s.pcs, WAwake)
  }

  /** While no writer holds the lock, suspended or sleeping readers have a patient writer ahead
      of them. */
  ghost predicate ReadersCovered(s: Lock) {
    !s.wLock && (s.rSusp || At(s.pcs, RAsleep) != {}) ==> Patient(s) != {}
  }

  /** While the lock is free and writers sleep, a woken writer, or a woken reader that will not
      be suspended, is about to take it. */
  ghost predicate WritersCovered(s: Lock) {
    Free(s) && Sleepers(s) != {} ==>
      || At(s.pcs, WAwake) + At(s.pcs, TAwake) != {}
      || (At(s.pcs, RAwake) != {} && !s.rSusp && s.rwPend <= Thresh(s.rPend))
  }

  lemma PendingPatient(s: Lock, timed: set<Tid>)
    requires Consistent(s) && TimedOnly(s, timed) && |timed| <= 2 && s.rwPend > 2
    ensures Patient(s) != {}
  {
    AtDisjoint(s.pcs, TAsleep, TAwake);
    AtDisjoint(s.pcs, WAsleep, WAwake);
    Subset(At(s.pcs, TAsleep) + At(s.pcs, TAwake), timed);
    assert |Patient(s)| == |At(s.pcs, WAsleep)| + |At(s.pcs, WAwake)| > 0;
  }

  /** In a run, timed locks are taken only by the given threads, and no thread times out once a
      signal has been directed at it. */
  ghost predicate Fair(e: Event, timed: set<Tid>) {
    (e.EnterTimed? ==> e.t in timed) && !e.LateTimeout?
  }

  lemma TimedStep(s: Lock, e: Event, timed: set<Tid>)
    requires Enabled(s, e) && Fair(e, timed) && TimedOnly(s, timed)
    ensures TimedOnly(Do(s, e), timed)
  {
    var s' := Do(s, e);
    forall u | u in At(s'.pcs, TAsleep) + At(s'.pcs, TAwake) ensures u in timed {
      assert u in s.pcs;
      if s.pcs[u] == TAsleep {
        assert u in At(s.pcs, TAsleep);
      } else if s.pcs[u] == TAwake {
        assert u in At(s.pcs, TAwake);
      }
    }
  }

  /** Unlocking leaves patient waiters patient. */
  lemma WakePatient(s: Lock, woken: set<Tid>)
    requires CanSignal(s, woken) || woken == At(s.pcs, RAsleep)
    ensures Patient(Wake(s, woken)) == Patient(s)
  {
    hide At;
    WakeMoves(s, woken);
    assert At(s.pcs, WAsleep) == (At(s.pcs, WAsleep) - woken) + (At(s.pcs, WAsleep) * woken);
  }

  lemma HandOverCovers(s: Lock, woken: set<Tid>, timed: set<Tid>)
    requires Consistent(s) && TimedOnly(s, timed) && |timed| <= 2
    requires !s.wLock && !s.rSusp && CanHandOver(s, woken)
    ensures ReadersCovered(Wake(s, woken))
  {
    hide At, Patient;
    WakeMoves(s, woken);
    WakePatient(s, woken);
    if PrefersWriter(s) {
      if s.rPend > 0 {
        PendingPatient(s, timed);
      }
    }
  }

  lemma ReadersCoveredStep(s: Lock, e: Event, timed: set<Tid>)
    requires Consistent(s) && TimedOnly(s, timed) && |timed| <= 2
    requires Enabled(s, e) && Fair(e, timed) && ReadersCovered(s)
    ensures ReadersCovered(Do(s, e))
  {
    hide At, CanSignal, CanHandOver;
    match e
    case EnterRead(t) => CheckReadCovers(s, s.(rPend := s.rPend + 1), t, timed);
    case ResumeRead(t) => CheckReadCovers(s, s, t, timed);
    case LeaveRead(t, woken) => LeaveReadCovers(s, t, woken);
    case LeaveWrite(t, woken) =>
      Moved(s.pcs, t, Idle);
      ConsistentDrop(s, t, Idle);
      HandOverCovers(DropWrite(s, t, Idle), woken, timed);
    case Yield(t, woken) =>
      Moved(s.pcs, t, Yielded);
      ConsistentDrop(s, t, Yielded);
      HandOverCovers(DropWrite(s, t, Yielded), woken, timed);
    case _ => QueueCovers(s, e);
  }

  lemma LeaveReadCovers(s: Lock, t: Tid, woken: set<Tid>)
    requires Enabled(s, LeaveRead(t, woken)) && ReadersCovered(s)
    ensures ReadersCovered(Do(s, LeaveRead(t, woken)))
  {
    hide At;
    Moved(s.pcs, t, Idle);
    if DropRead(s, t).rLock == 0 {
      WakeMoves(DropRead(s, t), woken);
      WakePatient(DropRead(s, t), woken);
    } else {
      assert Wake(DropRead(s, t), woken).pcs == DropRead(s, t).pcs;
    }
  }

  lemma ConsistentDrop(s: Lock, t: Tid, next: Pc)
    requires Consistent(s) && t in s.pcs && s.pcs[t] == Writing && (next == Idle || next == Yielded)
    ensures Consistent(DropWrite(s, t, next))
  {
    hide At;
    Moved(s.pcs, t, next);
  }

  lemma CheckReadCovers(s: Lock, s1: Lock, t: Tid, timed: set<Tid>)
    requires Consistent(s) && TimedOnly(s, timed) && |timed| <= 2 && ReadersCovered(s)
    requires t in s.pcs && s.pcs[t] in {Idle, RAwake} && s1 == s.(rPend := s1.rPend) && s1.rPend > 0
    ensures ReadersCovered(CheckRead(s1, t))
  {
    hide At;
    Moved(s.pcs, t, RAsleep);
    Moved(s.pcs, t, Reading);
    if s1.rwPend > Thresh(s1.rPend) {
      PendingPatient(s, timed);
    }
  }

  /** Steps of writers that do not unlock, and spurious wakeups. */
  lemma QueueCovers(s: Lock, e: Event)
    requires Enabled(s, e) && ReadersCovered(s)
    requires e.EnterWrite? || e.EnterTimed? || e.ResumeWrite? || e.Return? || e.Spurious? || e.Timeout? || e.LateTimeout?
    ensures ReadersCovered(Do(s, e))
  {
    var s' := Do(s, e);
    if !s'.wLock && (s'.rSusp || At(s'.pcs, RAsleep) != {}) {
      if At(s'.pcs, RAsleep) != {} {
        var r :| r in At(s'.pcs, RAsleep);
        assert r in At(s.pcs, RAsleep);
      }
      var w :| w in Patient(s);
      assert w in Patient(s');
    }
  }

  // ---------- writers ----------

  lemma HandOverWakes(s: Lock, woken: set<Tid>)
    requires Consistent(s) && !s.wLock && !s.rSusp && CanHandOver(s, woken)
    ensures WritersCovered(Wake(s, woken))
  {
    hide At;
    WakeMoves(s, woken);
    if PrefersWriter(s) {
      if Sleepers(Wake(s, woken)) != {} {
        SignalWakes(s, woken);
      }
    } else {
      assert |At(s.pcs, RAwake)| + |At(s.pcs, RAsleep)| > 0;
      assert At(s.pcs, RAwake) + At(s.pcs, RAsleep) != {};
    }
  }

  lemma SignalWakes(s: Lock, woken: set<Tid>)
    requires CanSignal(s, woken) && Sleepers(Wake(s, woken)) != {}
    ensures At(Wake(s, woken).pcs, WAwake) + At(Wake(s, woken).pcs, TAwake) != {}
  {
    var u :| u in Sleepers(Wake(s, woken));
    assert u in Sleepers(s);
    var w :| w in Sleepers(s) && woken == {w};
    assert w in At(Wake(s, woken).pcs, WAwake) + At(Wake(s, woken).pcs, TAwake);
  }

  lemma WritersCoveredStep(s: Lock, e: Event)
    requires Consistent(s) && Enabled(s, e) && !e.LateTimeout? && WritersCovered(s)
    ensures WritersCovered(Do(s, e))
  {
    hide At, CanSignal, CanHandOver;
    match e
    case LeaveRead(t, woken) =>
      Moved(s.pcs, t, Idle);
      if DropRead(s, t).rLock == 0 && Sleepers(Do(s, e)) != {} {
        SignalWakes(DropRead(s, t), woken);
      }
    case LeaveWrite(t, woken) =>
      ConsistentDrop(s, t, Idle);
      HandOverWakes(DropWrite(s, t, Idle), woken);
    case Yield(t, woken) =>
      ConsistentDrop(s, t, Yielded);
      HandOverWakes(DropWrite(s, t, Yielded), woken);
    case Spurious(t) => SpuriousKeeps(s, t);
    case Timeout(t) => Moved(s.pcs, t, Idle);
    case _ => CheckKeeps(s, e);
  }

  lemma SpuriousKeeps(s: Lock, t: Tid)
    requires Enabled(s, Spurious(t)) && WritersCovered(s)
    ensures WritersCovered(Do(s, Spurious(t)))
  {
    hide At;
    Moved(s.pcs, t, Woken(s.pcs[t]));
    if s.pcs[t] != RAsleep {
      assert At(Do(s, Spurious(t)).pcs, Woken(s.pcs[t])) != {};
    }
  }

  /** A thread that checks its loop condition takes a free lock, unless it is a reader that is
      suspended for the writers. */
  lemma CheckKeeps(s: Lock, e: Event)
    requires Enabled(s, e) && WritersCovered(s)
    requires e.EnterRead? || e.ResumeRead? || e.EnterWrite? || e.EnterTimed? || e.ResumeWrite? || e.Return?
    ensures WritersCovered(Do(s, e))
  {
    hide At;
    if Free(Do(s, e)) {
      Moved(s.pcs, e.t, RAsleep);
    }
  }

  // ---------- main results ----------

  /** What every run keeps. */
  ghost predicate Good(s: Lock, timed: set<Tid>) {
    Consistent(s) && TimedOnly(s, timed) && ReadersCovered(s) && WritersCovered(s)
  }

  lemma InitGood(s: Lock, timed: set<Tid>)
    requires Init(s)
    ensures Good(s, timed)
  {
    forall p | p != Idle ensures At(s.pcs, p) == {} {
    }
  }

  /** Mutual exclusion and exact counters hold in every reachable state, whatever the threads,
      the signals, the spurious wakeups and the timeouts. */
  lemma {:induction false} AlwaysConsistent(s: Lock, es: seq<Event>)
    requires Consistent(s) && Runs(s, es)
    ensures Consistent(After(s, es))
    decreases |es|
  {
    if es != [] {
      ConsistentStep(s, es[0]);
      AlwaysConsistent(Do(s, es[0]), es[1..]);
    }
  }

  ghost predicate AllFair(es: seq<Event>, timed: set<Tid>) {
    forall i :: 0 <= i < |es| ==> Fair(es[i], timed)
  }

  lemma {:induction false} AlwaysGood(s: Lock, es: seq<Event>, timed: set<Tid>)
    requires Good(s, timed) && |timed| <= 2 && Runs(s, es) && AllFair(es, timed)
    ensures Good(After(s, es), timed)
    decreases |es|
  {
    hide Consistent, TimedOnly, ReadersCovered, WritersCovered, Enabled, Do;
    if es != [] {
      ConsistentStep(s, es[0]);
      TimedStep(s, es[0], timed);
      ReadersCoveredStep(s, es[0], timed);
      WritersCoveredStep(s, es[0]);
      AlwaysGood(Do(s, es[0]), es[1..], timed);
    }
  }

  /** Threads that wait for the lock. */
  function Waiting(s: Lock): set<Tid> {
    At(s.pcs, RAsleep) + At(s.pcs, RAwake) + At(s.pcs, WAsleep) + At(s.pcs, WAwake)
    + At(s.pcs, TAsleep) + At(s.pcs, TAwake)
  }

  /** The thread is awake and, run next, takes the lock. */
  ghost predicate Takes(s: Lock, t: Tid) {
    || (Enabled(s, ResumeRead(t)) && Do(s, ResumeRead(t)).pcs[t] == Reading)
    || (Enabled(s, ResumeWrite(t)) && Do(s, ResumeWrite(t)).pcs[t] == Writing)
  }

  /** No wakeup is lost: in every state of a run with at most two users of the timed lock, if
      the lock is free and somebody waits, somebody awake will take it. */
  lemma NoLostWakeup(s0: Lock, es: seq<Event>, timed: set<Tid>) returns (t: Tid)
    requires Init(s0) && Runs(s0, es) && AllFair(es, timed) && |timed| <= 2
    requires Free(After(s0, es)) && Waiting(After(s0, es)) != {}
    ensures Takes(After(s0, es), t)
  {
    InitGood(s0, timed);
    AlwaysGood(s0, es, timed);
    t := SomebodyTakes(After(s0, es), timed);
  }

  lemma SomebodyTakes(s: Lock, timed: set<Tid>) returns (t: Tid)
    requires Good(s, timed) && |timed| <= 2 && Free(s) && Waiting(s) != {}
    ensures Takes(s, t)
  {
    hide At;
    var awake := At(s.pcs, WAwake) + At(s.pcs, TAwake);
    if awake != {} {
      t :| t in awake;
      WriterTakes(s, t);
    } else {
      if Sleepers(s) == {} {
        assert At(s.pcs, WAsleep) == {} == At(s.pcs, TAsleep);
        assert Patient(s) == {} && s.rwPend == 0;
      }
      t :| t in At(s.pcs, RAwake);
      ReaderTakes(s, t);
    }
  }

  lemma WriterTakes(s: Lock, t: Tid)
    requires Consistent(s) && Free(s) && t in At(s.pcs, WAwake) + At(s.pcs, TAwake)
    ensures Takes(s, t)
  {
    assert |At(s.pcs, WAwake)| > 0 || |At(s.pcs, TAwake)| > 0;
  }

  lemma ReaderTakes(s: Lock, t: Tid)
    requires Consistent(s) && Free(s) && t in At(s.pcs, RAwake) && !s.rSusp && s.rwPend <= Thresh(s.rPend)
    ensures Takes(s, t)
  {
    assert |At(s.pcs, RAwake)| > 0;
  }

  /** Readers are suspended only while a writer holds the lock or a patient one waits. */
  lemma SuspensionHasWriter(s0: Lock, es: seq<Event>, timed: set<Tid>)
    requires Init(s0) && Runs(s0, es) && AllFair(es, timed) && |timed| <= 2
    ensures var s := After(s0, es); s.rSusp ==> s.wLock || Patient(s) != {}
  {
    InitGood(s0, timed);
    AlwaysGood(s0, es, timed);
  }

  // ---------- both hypotheses are needed ----------

  /** A state in which the lock is free, somebody waits, and nobody awake will take it. */
  ghost predicate Stuck(s: Lock) {
    Free(s) && Waiting(s) != {} && forall t :: !Takes(s, t)
  }

  /** The run es leads from s0 to s. */
  ghost predicate Path(s0: Lock, es: seq<Event>, s: Lock) {
    Runs(s0, es) && After(s0, es) == s
  }

  lemma {:induction false} PathStep(s0: Lock, es: seq<Event>, s: Lock, e: Event)
    requires Path(s0, es, s) && Enabled(s, e)
    ensures Path(s0, es + [e], Do(s, e))
    decreases |es|
  {
    hide Enabled, Do;
    if es == [] {
      assert es + [e] == [e] && [e][1..] == [];
      assert Runs(Do(s, e), []) && After(Do(s, e), []) == Do(s, e);
    } else {
      PathStep(Do(s0, es[0]), es[1..], s, e);
      assert (es + [e])[0] == es[0] && (es + [e])[1..] == es[1..] + [e];
    }
  }

  lemma NobodyAwake(s: Lock, t: Tid)
    requires Free(s) && t in s.pcs && s.pcs[t] in {RAsleep, WAsleep, TAsleep}
    requires forall u :: u in s.pcs ==> s.pcs[u] !in {RAwake, WAwake, TAwake}
    ensures Stuck(s)
  {
    assert t in Waiting(s);
  }

  lemma FirstReader(s: Lock, t: Tid)
    requires t in s.pcs && s.pcs[t] == Idle && !s.wLock && !s.rSusp && s.rwPend == 0
    ensures Enabled(s, EnterRead(t)) && Do(s, EnterRead(t)) == Set(s, t, Reading).(rLock := s.rLock + 1)
  {
  }

  /** While a reader holds the lock, writers queue up, and a reader behind three is suspended. */
  lemma Queues(s: Lock, t: Tid)
    requires t in s.pcs && s.pcs[t] == Idle && s.rLock > 0
    ensures Enabled(s, EnterWrite(t)) && Do(s, EnterWrite(t)) == Set(s, t, WAsleep).(rwPend := s.rwPend + 1)
    ensures Enabled(s, EnterTimed(t)) && Do(s, EnterTimed(t)) == Set(s, t, TAsleep).(rwPend := s.rwPend + 1)
    ensures s.rPend == 0 && s.rwPend == 3 ==>
              Enabled(s, EnterRead(t)) && Do(s, EnterRead(t)) == Set(s, t, RAsleep).(rPend := 1, rSusp := true)
  {
  }

  lemma GivesUp(s: Lock, t: Tid)
    requires t in s.pcs && s.pcs[t] == TAsleep && s.rwPend > 0
    ensures Enabled(s, Timeout(t)) && Do(s, Timeout(t)) == Set(s, t, Idle).(rwPend := s.rwPend - 1)
  {
  }

  lemma LateGivesUp(s: Lock, t: Tid)
    requires t in s.pcs && s.pcs[t] == TAwake && s.rwPend > 0
    ensures Enabled(s, LateTimeout(t)) && Do(s, LateTimeout(t)) == Set(s, t, Idle).(rwPend := s.rwPend - 1)
  {
  }

  /** pthread_cond_timedwait may report a timeout although it has consumed a signal. Then a
      wakeup is lost even with a single timed waiter: the reader r leaves and signals the timed
      waiter t, which gives up; the writer w sleeps on although the lock is free. */
  lemma LateTimeoutLosesWakeup(r: Tid, w: Tid, t: Tid) returns (s0: Lock, es: seq<Event>)
    requires r != w && r != t && w != t
    ensures Init(s0) && Runs(s0, es) && Stuck(After(s0, es))
    ensures es == [EnterRead(r), EnterWrite(w), EnterTimed(t), LeaveRead(r, {t}), LateTimeout(t)]
  {
    var s: Lock;
    s0, es, s := TwoQueueUp(r, w, t);
    es, s := SignalThenTimeout(s0, es, s, r, w, t);
    hide Stuck, Path;
    NobodyAwake(s, w);
    PathEnds(s0, es, s);
  }

  lemma TwoQueueUp(r: Tid, w: Tid, t: Tid) returns (s0: Lock, es: seq<Event>, s: Lock)
    requires r != w && r != t && w != t
    ensures Init(s0) && Path(s0, es, s) && es == [EnterRead(r), EnterWrite(w), EnterTimed(t)]
    ensures s == Lock(map[r := Reading, w := WAsleep, t := TAsleep], false, 1, 0, 2, false)
  {
    s0 := Lock(map[r := Idle, w := Idle, t := Idle], false, 0, 0, 0, false);
    es, s := [], s0;
    assert Path(s0, [], s0);
    hide Runs, After, Do, Enabled, Path;
    FirstReader(s, r);
    PathStep(s0, es, s, EnterRead(r));
    es, s := es + [EnterRead(r)], Set(s, r, Reading).(rLock := 1);
    Queues(s, w);
    PathStep(s0, es, s, EnterWrite(w));
    es, s := es + [EnterWrite(w)], Set(s, w, WAsleep).(rwPend := 1);
    Queues(s, t);
    PathStep(s0, es, s, EnterTimed(t));
    es, s := es + [EnterTimed(t)], Set(s, t, TAsleep).(rwPend := 2);
  }

  lemma SignalThenTimeout(s0: Lock, es0: seq<Event>, before: Lock, r: Tid, w: Tid, t: Tid)
      returns (es: seq<Event>, s: Lock)
    requires r != w && r != t && w != t
    requires Path(s0, es0, before)
    requires before == Lock(map[r := Reading, w := WAsleep, t := TAsleep], false, 1, 0, 2, false)
    ensures Path(s0, es, s) && es == es0 + [LeaveRead(r, {t}), LateTimeout(t)]
    ensures s == Lock(map[r := Idle, w := WAsleep, t := Idle], false, 0, 0, 1, false)
  {
    hide Runs, After, Do, Enabled, Path;
    s := SignalTimed(before, r, w, t);
    PathStep(s0, es0, before, LeaveRead(r, {t}));
    LateGivesUp(s, t);
    PathStep(s0, es0 + [LeaveRead(r, {t})], s, LateTimeout(t));
    es := es0 + [LeaveRead(r, {t}), LateTimeout(t)];
    assert es0 + [LeaveRead(r, {t})] + [LateTimeout(t)] == es;
    s := Set(s, t, Idle).(rwPend := 1);
  }

  lemma PathEnds(s0: Lock, es: seq<Event>, s: Lock)
    requires Path(s0, es, s)
    ensures Runs(s0, es) && After(s0, es) == s
  {
  }

  lemma SignalTimed(s: Lock, r: Tid, w: Tid, t: Tid) returns (s': Lock)
    requires r != w && r != t && w != t
    requires s == Lock(map[r := Reading, w := WAsleep, t := TAsleep], false, 1, 0, 2, false)
    ensures Enabled(s, LeaveRead(r, {t})) && s' == Do(s, LeaveRead(r, {t}))
    ensures s' == Lock(map[r := Idle, w := WAsleep, t := TAwake], false, 0, 0, 2, false)
  {
    hide Sleepers;
    var d := DropRead(s, r);
    assert d == Lock(map[r := Idle, w := WAsleep, t := TAsleep], false, 0, 0, 2, false);
    OneSleeper(d, t);
    s' := Do(s, LeaveRead(r, {t}));
    assert s'.pcs == map[r := Idle, w := WAsleep, t := TAwake];
  }

  lemma OneSleeper(d: Lock, t: Tid)
    requires t in d.pcs && d.pcs[t] == TAsleep
    ensures t in Sleepers(d) && CanSignal(d, {t})
  {
  }

  /** Five different threads. */
  predicate Apart(r: Tid, w: Tid, a: Tid, b: Tid, c: Tid) {
    r != w && r != a && r != b && r != c && w != a && w != b && w != c && a != b && a != c && b != c
  }

  /** Of the threads at the lock, none takes it in such a state: what one of them does leaves it
      free and wakes nobody. Only another thread, or a wakeup for no reason, can get it going. */
  lemma StuckUntilAnother(s: Lock, e: Event)
    requires Consistent(s) && Stuck(s) && Enabled(s, e)
    requires !e.Spurious? && s.pcs[e.t] != Idle && s.pcs[e.t] != Yielded
    ensures Free(Do(s, e)) && forall u :: u in s.pcs && u != e.t ==> Do(s, e).pcs[u] == s.pcs[u]
  {
    assert e.t in At(s.pcs, s.pcs[e.t]);
    assert !Takes(s, e.t);
  }

  /** With three timed waiters a reader can be left suspended before a free lock, without any late
      timeout: all three give up while the reader r still holds the lock, and its leaving wakes
      nobody. A writer that comes later would wake it when it is done. */
  lemma ThreeTimedLoseWakeup(r: Tid, w: Tid, a: Tid, b: Tid, c: Tid) returns (s0: Lock, es: seq<Event>)
    requires Apart(r, w, a, b, c)
    ensures Init(s0) && Runs(s0, es) && AllFair(es, {a, b, c}) && Stuck(After(s0, es))
  {
    hide Runs, After, Do, Enabled, Stuck, Path, AllFair, Init;
    var s: Lock;
    s0, es, s := ThreeQueueUp(r, w, a, b, c);
    es, s := ThreeGiveUp(s0, es, s, r, w, a, b, c);
    NobodyToSignal(s, r, w, a, b, c);
    PathStep(s0, es, s, LeaveRead(r, {}));
    FairSnoc(es, LeaveRead(r, {}), {a, b, c});
    es := es + [LeaveRead(r, {})];
    PathEnds(s0, es, Do(s, LeaveRead(r, {})));
  }

  lemma ThreeQueueUp(r: Tid, w: Tid, a: Tid, b: Tid, c: Tid) returns (s0: Lock, es: seq<Event>, s: Lock)
    requires Apart(r, w, a, b, c)
    ensures Init(s0) && Path(s0, es, s) && AllFair(es, {a, b, c})
    ensures s == Lock(map[r := Reading, w := RAsleep, a := TAsleep, b := TAsleep, c := TAsleep], false, 1, 1, 3, true)
  {
    hide Runs, After, Do, Enabled, Path;
    s0, es, s := OneQueuesUp(r, w, a, b, c);
    Queues(s, b);
    PathStep(s0, es, s, EnterTimed(b));
    es, s := es + [EnterTimed(b)], Set(s, b, TAsleep).(rwPend := 2);
    Queues(s, c);
    PathStep(s0, es, s, EnterTimed(c));
    es, s := es + [EnterTimed(c)], Set(s, c, TAsleep).(rwPend := 3);
    Queues(s, w);
    PathStep(s0, es, s, EnterRead(w));
    es, s := es + [EnterRead(w)], Set(s, w, RAsleep).(rPend := 1, rSusp := true);
  }

  lemma OneQueuesUp(r: Tid, w: Tid, a: Tid, b: Tid, c: Tid) returns (s0: Lock, es: seq<Event>, s: Lock)
    requires Apart(r, w, a, b, c)
    ensures Init(s0) && Path(s0, es, s) && AllFair(es, {a, b, c})
    ensures s == Lock(map[r := Reading, w := Idle, a := TAsleep, b := Idle, c := Idle], false, 1, 0, 1, false)
  {
    s0 := Lock(map[r := Idle, w := Idle, a := Idle, b := Idle, c := Idle], false, 0, 0, 0, false);
    es, s := [], s0;
    assert Path(s0, [], s0);
    hide Runs, After, Do, Enabled, Path;
    FirstReader(s, r);
    PathStep(s0, es, s, EnterRead(r));
    es, s := es + [EnterRead(r)], Set(s, r, Reading).(rLock := 1);
    Queues(s, a);
    PathStep(s0, es, s, EnterTimed(a));
    es, s := es + [EnterTimed(a)], Set(s, a, TAsleep).(rwPend := 1);
  }

  lemma ThreeGiveUp(s0: Lock, es0: seq<Event>, before: Lock, r: Tid, w: Tid, a: Tid, b: Tid, c: Tid)
      returns (es: seq<Event>, s: Lock)
    requires Apart(r, w, a, b, c) && Path(s0, es0, before) && AllFair(es0, {a, b, c})
    requires before ==
      Lock(map[r := Reading, w := RAsleep, a := TAsleep, b := TAsleep, c := TAsleep], false, 1, 1, 3, true)
    ensures Path(s0, es, s) && AllFair(es, {a, b, c})
    ensures s == Lock(map[r := Reading, w := RAsleep, a := Idle, b := Idle, c := Idle], false, 1, 1, 0, true)
  {
    hide Runs, After, Do, Enabled, Path;
    es, s := es0, before;
    GivesUp(s, a);
    PathStep(s0, es, s, Timeout(a));
    es, s := es + [Timeout(a)], Set(s, a, Idle).(rwPend := 2);
    GivesUp(s, b);
    PathStep(s0, es, s, Timeout(b));
    es, s := es + [Timeout(b)], Set(s, b, Idle).(rwPend := 1);
    GivesUp(s, c);
    PathStep(s0, es, s, Timeout(c));
    es, s := es + [Timeout(c)], Set(s, c, Idle).(rwPend := 0);
  }

  lemma NobodyToSignal(s: Lock, r: Tid, w: Tid, a: Tid, b: Tid, c: Tid)
    requires Apart(r, w, a, b, c)
    requires s == Lock(map[r := Reading, w := RAsleep, a := Idle, b := Idle, c := Idle], false, 1, 1, 0, true)
    ensures Enabled(s, LeaveRead(r, {})) && Stuck(Do(s, LeaveRead(r, {})))
  {
    assert Sleepers(DropRead(s, r)) == {};
    assert Wake(DropRead(s, r), {}).pcs == s.pcs[r := Idle];
    NobodyAwake(Do(s, LeaveRead(r, {})), w);
  }

  lemma FairSnoc(es: seq<Event>, e: Event, timed: set<Tid>)
    requires AllFair(es, timed) && Fair(e, timed)
    ensures AllFair(es + [e], timed)
  {
  }

  // ---------- when exactly no wakeup is lost ----------

  /** The same runs, but late timeouts may happen. */
  ghost predicate AllTimed(es: seq<Event>, timed: set<Tid>) {
    forall i :: 0 <= i < |es| ==> es[i].EnterTimed? ==> es[i].t in timed
  }

  /** No run in which these threads use the timed lock gets stuck. */
  ghost predicate NeverStuck(timed: set<Tid>) {
    forall s0: Lock, es: seq<Event> :: Init(s0) && Runs(s0, es) && AllFair(es, timed) ==> !Stuck(After(s0, es))
  }

  /** The same, whether timeouts are late or not. */
  ghost predicate NeverStuckLate(timed: set<Tid>) {
    forall s0: Lock, es: seq<Event> :: Init(s0) && Runs(s0, es) && AllTimed(es, timed) ==> !Stuck(After(s0, es))
  }

  /** Without late timeouts, wakeups are never lost just when at most two threads use the timed
      lock. */
  lemma NeverStuckIff(timed: set<Tid>)
    ensures NeverStuck(timed) <==> |timed| <= 2
  {
    if |timed| <= 2 {
      forall s0: Lock, es: seq<Event> | Init(s0) && Runs(s0, es) && AllFair(es, timed)
        ensures !Stuck(After(s0, es))
      {
        var s := After(s0, es);
        if Free(s) && Waiting(s) != {} {
          var t := NoLostWakeup(s0, es, timed);
        }
      }
    } else {
      var a, b, c := ThreeOf(timed);
      var m := Above(timed);
      var s0, es := ThreeTimedLoseWakeup(m, m + 1, a, b, c);
      assert AllFair(es, timed) && Stuck(After(s0, es));
    }
  }

  /** With late timeouts, just when nobody does. */
  lemma NeverStuckLateIff(timed: set<Tid>)
    ensures NeverStuckLate(timed) <==> timed == {}
  {
    hide Runs, After, Stuck;
    if timed == {} {
      forall s0: Lock, es: seq<Event> | Init(s0) && Runs(s0, es) && AllTimed(es, timed)
        ensures !Stuck(After(s0, es))
      {
        NobodyLate(s0, es);
        NeverStuckIff({});
      }
    } else {
      var t :| t in timed;
      var m := Above(timed);
      var s0, es := LateTimeoutLosesWakeup(m, m + 1, t);
      assert AllTimed(es, timed) && Stuck(After(s0, es));
    }
  }

  /** Where nobody uses the timed lock, nobody times out. */
  lemma {:induction false} NobodyLate(s: Lock, es: seq<Event>)
    requires TimedOnly(s, {}) && Runs(s, es) && AllTimed(es, {})
    ensures AllFair(es, {})
    decreases |es|
  {
    if es != [] {
      hide Runs, Do;
      RunsOn(s, es);
      NotLate(s, es[0]);
      assert Fair(es[0], {});
      TimedStep(s, es[0], {});
      assert forall i :: 0 <= i < |es[1..]| ==> es[1..][i] == es[i + 1];
      NobodyLate(Do(s, es[0]), es[1..]);
      assert forall i :: 0 < i < |es| ==> es[i] == es[1..][i - 1];
    }
  }

  lemma RunsOn(s: Lock, es: seq<Event>)
    requires es != [] && Runs(s, es)
    ensures Enabled(s, es[0]) && Runs(Do(s, es[0]), es[1..])
  {
  }

  lemma NotLate(s: Lock, e: Event)
    requires Enabled(s, e) && TimedOnly(s, {})
    ensures !e.LateTimeout?
  {
    assert e.LateTimeout? ==> e.t in At(s.pcs, TAwake);
  }

  lemma {:induction false} Above(s: set<Tid>) returns (m: Tid)
    ensures forall t :: t in s ==> t < m
    decreases |s|
  {
    if s == {} {
      m := 0;
    } else {
      var t :| t in s;
      var n := Above(s - {t});
      assert s == (s - {t}) + {t};
      m := if t < n then n else t + 1;
    }
  }

  lemma ThreeOf(s: set<Tid>) returns (a: Tid, b: Tid, c: Tid)
    requires |s| > 2
    ensures a in s && b in s && c in s && a != b && a != c && b != c
  {
    a :| a in s;
    assert |s - {a}| > 1;
    b :| b in s - {a};
    assert |s - {a} - {b}| > 0;
    c :| c in s - {a} - {b};
  }
}
