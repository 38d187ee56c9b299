/** Answers as compose_answer of dns_answer.c puts them together: records, perhaps an OPT record,
    and addresses that are taken back when they make an answer over UDP too long. */
module Answers {
  import opened Names
  import opened Wrappers
  import opened Decompress
  import opened Compress
  import opened Records

  /** A call of add_rr for a record of the answer or authority section, or for one of the
      additional section; or of add_opt_pseudo_rr. */
  datatype Step = Add(r: Record) | AddAddress(r: Record) | Opt(udpsize: nat, ttl: nat)

  const T_OPT := 41

  function OptRecord(udpsize: nat, ttl: nat): (b: seq<byte>)
    ensures |b| == 11
  {
    [0] + Put16(T_OPT) + Put16(udpsize) + Put32(ttl) + Put16(0)
  }

  /** add_rr takes the record back. */
  predicate TooLong(d: Draft, r: Record, udp: Option<nat>) {
    udp.Some? && |AddRecord(d, r).msg| > udp.value
  }

  function Done(d: Draft, s: Step, udp: Option<nat>): Draft {
    match s
    case Add(r) => AddRecord(d, r)
    case AddAddress(r) => if TooLong(d, r, udp) then TakenBack(d, r) else AddRecord(d, r)
    case Opt(udpsize, ttl) => Draft(d.msg + OptRecord(udpsize, ttl), d.table)
  }

  function Compose(d: Draft, ss: seq<Step>, udp: Option<nat>): Draft
    decreases |ss|
  {
    if ss == [] then d else Compose(Done(d, ss[0], udp), ss[1..], udp)
  }

  /** The records that are in the answer in the end. */
  function Kept(d: Draft, ss: seq<Step>, udp: Option<nat>): seq<Record>
    decreases |ss|
  {
    if ss == [] then []
    else
      (match ss[0]
       case Add(r) => [r]
       case AddAddress(r) => if TooLong(d, r, udp) then [] else [r]
       case Opt(_, _) => [])
      + Kept(Done(d, ss[0], udp), ss[1..], udp)
  }

  /** What the counts of the header add up to: OPT records count, what was taken back does not. */
  function Counted(d: Draft, ss: seq<Step>, udp: Option<nat>): nat
    decreases |ss|
  {
    if ss == [] then 0
    else
      (if ss[0].AddAddress? && TooLong(d, ss[0].r, udp) then 0 else 1) + Counted(Done(d, ss[0], udp), ss[1..], udp)
  }

  predicate StepStorable(s: Step) {
    s.Opt? || (Storable(s.r) && (s.AddAddress? ==> Layout(s.r.tp) == [Rest]))
  }

  /** The name is in the data of an earlier record, or among those given. */
  ghost predicate Mentioned(ss: seq<Step>, i: nat, name: seq<Label>, known: set<seq<Label>>)
    requires i <= |ss|
  {
    name in known || exists j :: 0 <= j < i && ss[j].Add? && Nam(name) in ss[j].r.data
  }

  /** compose_answer adds addresses only of names that stand in the data of records it has
      added before: name servers, mail exchangers and the like. */
  ghost predicate Anchored(ss: seq<Step>, known: set<seq<Label>>) {
    forall i :: 0 <= i < |ss| && ss[i].AddAddress? ==> Mentioned(ss, i, ss[i].r.owner, known)
  }

  // ---------- names once written are wholly in the list ----------

  /** Harmless, for a message of n bytes. */
  predicate Covered(n: nat, t: seq<Entry>, o: seq<Label>) {
    Scan(o, t).longest == |o| || n > MAX_OFFSET
  }

  lemma CoveredGrow(n: nat, t: seq<Entry>, name: seq<Label>, at: nat, o: seq<Label>)
    requires Covered(n, t, o)
    ensures Covered(n, Grow(name, at, t), o)
  {
    hide Emit, CommonSuffix, Off;
    var t' := Grow(name, at, t);
    if t' != t {
      assert t'[..|t'| - 1] == t;
    }
  }

  lemma ListedNow(t: seq<Entry>, name: seq<Label>, at: nat)
    requires at <= MAX_OFFSET
    ensures Scan(name, Grow(name, at, t)).longest == |name|
  {
    var t' := Grow(name, at, t);
    if t' != t {
      hide Scan, CommonSuffix;
      assert t'[|t|] == Entry(at, name);
      CommonSuffixIsLongest(name, name);
      assert Same(Tail(name, |name|), Tail(name, |name|));
      ScanAtLeast(name, t', |t|);
    }
  }

  /** A name stays wholly in the list while data are written, and a name in the data gets there. */
  lemma {:induction false} CoveredRdata(ps: seq<Piece>, at: nat, t: seq<Entry>, o: seq<Label>)
    requires Covered(at, t, o) || Nam(o) in ps
    ensures Covered(at + |Rdata(ps, at, t)|, RdataTable(ps, at, t), o)
    decreases |ps|
  {
    hide Grow, Scan, Emit;
    if ps != [] {
      var out, t' := PieceOut(ps[0], t), PieceTable(ps[0], at, t);
      if Covered(at, t, o) || ps[0] == Nam(o) {
        CoveredPiece(ps[0], at, t, o);
      } else {
        assert Nam(o) in ps[1..];
      }
      CoveredRdata(ps[1..], at + |out|, t', o);
    }
  }

  lemma CoveredPiece(p: Piece, at: nat, t: seq<Entry>, o: seq<Label>)
    requires Covered(at, t, o) || p == Nam(o)
    ensures Covered(at + |PieceOut(p, t)|, PieceTable(p, at, t), o)
  {
    hide Grow, Scan, Emit;
    match p
    case Bytes(_) =>
    case Nam(ls) =>
      if Covered(at, t, o) {
        CoveredGrow(at, t, ls, at, o);
      } else if at <= MAX_OFFSET {
        ListedNow(t, o, at);
      }
  }

  /** What was wholly in the list stays there when a record is added, and so do the names in the
      record. */
  lemma CoveredRecord(d: Draft, r: Record, o: seq<Label>)
    requires Harmless(d, o) || Nam(o) in r.data
    ensures Harmless(AddRecord(d, r), o)
  {
    hide Grow, Scan, Emit, Rdata, RdataTable;
    var at, t := DataStart(d, r.owner), Grow(r.owner, |d.msg|, d.table);
    if Harmless(d, o) {
      CoveredGrow(|d.msg|, d.table, r.owner, |d.msg|, o);
    }
    CoveredRdata(r.data, at, t, o);
    assert |AddRecord(d, r).msg| == at + |Rdata(r.data, at, t)|;
  }

  /** An address of a name that is wholly in the list changes nothing when it is taken back. */
  lemma TakenBackSound(d: Draft, r: Record, o: seq<Label>)
    requires Sound(d.msg, d.table) && Harmless(d, r.owner) && Storable(r) && Layout(r.tp) == [Rest]
    ensures Sound(TakenBack(d, r).msg, TakenBack(d, r).table)
    ensures Harmless(d, o) ==> Harmless(TakenBack(d, r), o)
  {
    hide Scan, Advancing, HoldsTable, Storable, Sound;
    StorableFits(r);
    OpaqueTable(d, r);
    var t' := Grow(r.owner, |d.msg|, d.table);
    if t' != d.table {
      InertIsSound(d.msg, d.table, Entry(|d.msg|, r.owner));
    }
    if Harmless(d, o) {
      CoveredGrow(|d.msg|, d.table, r.owner, |d.msg|, o);
    }
  }

  lemma StorableFits(r: Record)
    requires Storable(r)
    ensures Fits(r.data, Layout(r.tp))
  {
  }

  // ---------- every answer reads back ----------

  /** The draft before a step: its list is true, and the names mentioned so far are harmless. */
  ghost predicate Fine(d: Draft, known: set<seq<Label>>) {
    Sound(d.msg, d.table) && forall o :: o in known ==> Harmless(d, o)
  }

  /** The names mentioned after a step. */
  function NamesIn(s: Step): set<seq<Label>> {
    if s.Add? then set p | p in s.r.data && p.Nam? :: p.ls else {}
  }

  lemma StepKeeps(d: Draft, s: Step, udp: Option<nat>, known: set<seq<Label>>)
    requires Fine(d, known) && StepStorable(s) && (s.AddAddress? ==> s.r.owner in known)
    ensures Fine(Done(d, s, udp), known + NamesIn(s))
  {
    hide Sound, Harmless, AddRecord, Storable, TakenBack;
    var d' := Done(d, s, udp);
    match s
    case Opt(udpsize, ttl) =>
      SoundAppend(d.msg, d.table, OptRecord(udpsize, ttl));
      forall o | o in known ensures Harmless(d', o) {
        LongerHarmless(d, OptRecord(udpsize, ttl), o);
      }
    case Add(r) =>
      AddRecordSound(d, r);
      forall o | o in known + NamesIn(s) ensures Harmless(d', o) {
        CoveredRecord(d, r, o);
      }
    case AddAddress(r) =>
      if TooLong(d, r, udp) {
        TakenBackSound(d, r, r.owner);
        forall o | o in known ensures Harmless(d', o) {
          TakenBackSound(d, r, o);
        }
      } else {
        AddRecordSound(d, r);
        forall o | o in known ensures Harmless(d', o) {
          CoveredRecord(d, r, o);
        }
      }
  }

  lemma LongerHarmless(d: Draft, b: seq<byte>, o: seq<Label>)
    requires Harmless(d, o)
    ensures Harmless(Draft(d.msg + b, d.table), o)
  {
    hide Scan;
  }

  lemma AnchoredRest(ss: seq<Step>, known: set<seq<Label>>)
    requires ss != [] && Anchored(ss, known)
    ensures Anchored(ss[1..], known + NamesIn(ss[0])) && (ss[0].AddAddress? ==> ss[0].r.owner in known)
  {
    var rest, k := ss[1..], known + NamesIn(ss[0]);
    if ss[0].AddAddress? {
      assert Mentioned(ss, 0, ss[0].r.owner, known);
    }
    forall i | 0 <= i < |rest| && rest[i].AddAddress? ensures Mentioned(rest, i, rest[i].r.owner, k) {
      var o := rest[i].r.owner;
      assert Mentioned(ss, i + 1, ss[i + 1].r.owner, known);
      if o !in known {
        var j :| 0 <= j < i + 1 && ss[j].Add? && Nam(o) in ss[j].r.data;
        if j == 0 {
          assert Nam(o).ls in NamesIn(ss[0]);
        } else {
          assert rest[j - 1] == ss[j];
        }
      }
    }
  }

  lemma OptSkipped(m: seq<byte>, pos: nat, lcnt: nat, udpsize: nat, ttl: nat)
    requires 11 <= lcnt && pos + lcnt <= |m| && m[pos..pos + 11] == OptRecord(udpsize, ttl)
    ensures ParseRecord(m, pos, lcnt) == Skipped(11)
  {
    var b := OptRecord(udpsize, ttl);
    assert m[pos] == m[pos..pos + 11][0] == 0;
    assert m[pos + 1] == m[pos..pos + 11][1] == 0 && m[pos + 2] == m[pos..pos + 11][2] == 41;
    assert m[pos + 9] == m[pos..pos + 11][9] == 0 && m[pos + 10] == m[pos..pos + 11][10] == 0;
    assert Near(m, pos, lcnt, 0) == Name([], 1);
  }

  lemma DoneExtends(d: Draft, s: Step, udp: Option<nat>)
    ensures d.msg <= Done(d, s, udp).msg
  {
    hide AddRecord;
    if !s.Opt? {
      AddRecordExtends(d, s.r);
    }
  }

  lemma {:induction false} ComposeExtends(d: Draft, ss: seq<Step>, udp: Option<nat>)
    ensures d.msg <= Compose(d, ss, udp).msg
    decreases |ss|
  {
    hide Done;
    if ss != [] {
      DoneExtends(d, ss[0], udp);
      ComposeExtends(Done(d, ss[0], udp), ss[1..], udp);
    }
  }

  /** rrs2cent reads from the message, started where the steps began, exactly the records kept. */
  ghost predicate ComposedBack(d: Draft, ss: seq<Step>, udp: Option<nat>) {
    var m := Compose(d, ss, udp).msg;
    && |d.msg| <= |m|
    && var o := ParseAll(m, |d.msg|, |m| - |d.msg|, Counted(d, ss, udp));
       var rs := Kept(d, ss, udp);
       && o.Ok? && o.pos == |m| && o.lcnt == 0
       && |o.rs| == |rs| && forall i :: 0 <= i < |rs| ==> SameRecord(o.rs[i], rs[i])
  }

  /** Every answer that compose_answer puts together reads back, whatever the limit over UDP and
      whichever addresses it made add_rr take back: all records kept, in order, names up to ASCII
      case. */
  lemma {:induction false} AnswerReadsBack(d: Draft, ss: seq<Step>, udp: Option<nat>, known: set<seq<Label>>)
    requires Fine(d, known) && Anchored(ss, known) && forall i :: 0 <= i < |ss| ==> StepStorable(ss[i])
    ensures ComposedBack(d, ss, udp)
    decreases |ss|
  {
    hide Fine, Anchored, StepStorable, SameRecord, ParseRecord, Done, TooLong;
    if ss != [] {
      var s, d' := ss[0], Done(d, ss[0], udp);
      AnchoredRest(ss, known);
      StepKeeps(d, s, udp, known);
      AnswerReadsBack(d', ss[1..], udp, known + NamesIn(s));
      DoneExtends(d, s, udp);
      ComposeExtends(d', ss[1..], udp);
      OneStepBack(d, s, udp, known, Compose(d, ss, udp).msg);
      JoinStep(d, ss, udp);
    }
  }

  /** The question section: each name, compressed, with its type and class. */
  function Questions(d: Draft, qs: seq<(seq<Label>, nat, nat)>): Draft
    decreases |qs|
  {
    if qs == [] then d
    else
      var (name, qtype, qclass) := qs[0];
      Questions(Draft(d.msg + Emit(name, d.table) + (Put16(qtype) + Put16(qclass)), Grow(name, |d.msg|, d.table)), qs[1..])
  }

  lemma {:induction false} QuestionsFine(d: Draft, qs: seq<(seq<Label>, nat, nat)>)
    requires Fine(d, {})
    ensures Fine(Questions(d, qs), {})
    decreases |qs|
  {
    hide Sound, Emit, Grow;
    if qs != [] {
      var (name, qtype, qclass) := qs[0];
      SoundGrow(d.msg, d.table, name);
      SoundAppend(d.msg + Emit(name, d.table), Grow(name, |d.msg|, d.table), Put16(qtype) + Put16(qclass));
      QuestionsFine(Draft(d.msg + Emit(name, d.table) + (Put16(qtype) + Put16(qclass)), Grow(name, |d.msg|, d.table)),
                    qs[1..]);
    }
  }

  /** So does the whole answer, from its header on: compose_answer never gets a record into the
      trouble that add_rr leaves behind. */
  lemma WholeAnswerReadsBack(hdr: seq<byte>, qs: seq<(seq<Label>, nat, nat)>, ss: seq<Step>, udp: Option<nat>)
    requires Anchored(ss, {}) && forall i :: 0 <= i < |ss| ==> StepStorable(ss[i])
    ensures ComposedBack(Questions(Draft(hdr, []), qs), ss, udp)
  {
    hide ComposedBack, Questions, StepStorable, Anchored;
    QuestionsFine(Draft(hdr, []), qs);
    AnswerReadsBack(Questions(Draft(hdr, []), qs), ss, udp, {});
  }

  /** What the step wrote is parsed first. */
  ghost predicate StepBack(d: Draft, s: Step, udp: Option<nat>, m: seq<byte>) {
    var d' := Done(d, s, udp);
    && |d.msg| <= |d'.msg| <= |m|
    && if s.AddAddress? && TooLong(d, s.r, udp) then |d'.msg| == |d.msg|
       else
         var o := ParseRecord(m, |d.msg|, |m| - |d.msg|);
         if s.Opt? then o == Skipped(|d'.msg| - |d.msg|)
         else o.Got? && o.used == |d'.msg| - |d.msg| && SameRecord(o.r, s.r)
  }

  lemma OneStepBack(d: Draft, s: Step, udp: Option<nat>, known: set<seq<Label>>, m: seq<byte>)
    requires Fine(d, known) && StepStorable(s) && d.msg <= Done(d, s, udp).msg <= m
    ensures StepBack(d, s, udp, m)
  {
    hide SameRecord, ParseRecord, Sound, AddRecord, Storable, TooLong;
    var d' := Done(d, s, udp);
    match s
    case Opt(udpsize, ttl) =>
      assert m[|d.msg|..|d.msg| + 11] == d'.msg[|d.msg|..] == OptRecord(udpsize, ttl);
      OptSkipped(m, |d.msg|, |m| - |d.msg|, udpsize, ttl);
    case Add(r) =>
      var got := RecordReadsBack(m, d, r, |m| - |d.msg|);
    case AddAddress(r) =>
      if !TooLong(d, r, udp) {
        var got := RecordReadsBack(m, d, r, |m| - |d.msg|);
      }
  }

  lemma ParseGot(m: seq<byte>, pos: nat, lcnt: nat, n: nat)
    requires pos + lcnt <= |m| && !ParseRecord(m, pos, lcnt).Bad? && ParseRecord(m, pos, lcnt).used <= lcnt
    ensures var o, p := ParseRecord(m, pos, lcnt), ParseAll(m, pos + ParseRecord(m, pos, lcnt).used,
                                                            lcnt - ParseRecord(m, pos, lcnt).used, n);
            ParseAll(m, pos, lcnt, n + 1)
            == if p.Err? then p else Ok((if o.Got? then [o.r] else []) + p.rs, p.pos, p.lcnt)
  {
    hide ParseRecord;
  }

  lemma JoinStep(d: Draft, ss: seq<Step>, udp: Option<nat>)
    requires ss != [] && StepBack(d, ss[0], udp, Compose(d, ss, udp).msg)
    requires ComposedBack(Done(d, ss[0], udp), ss[1..], udp)
    ensures ComposedBack(d, ss, udp)
  {
    hide Done, TooLong, SameRecord, ParseRecord, ParseAll, Compose, Kept, Counted;
    ComposeNext(d, ss, udp);
    var s, d' := ss[0], Done(d, ss[0], udp);
    var m, n := Compose(d, ss, udp).msg, Counted(d', ss[1..], udp);
    if !(s.AddAddress? && TooLong(d, s.r, udp)) {
      ParseGot(m, |d.msg|, |m| - |d.msg|, n);
    }
  }

  lemma ComposeNext(d: Draft, ss: seq<Step>, udp: Option<nat>)
    requires ss != []
    ensures var s, d' := ss[0], Done(d, ss[0], udp);
            && Compose(d, ss, udp) == Compose(d', ss[1..], udp)
            && if s.AddAddress? && TooLong(d, s.r, udp) then
                 Kept(d, ss, udp) == Kept(d', ss[1..], udp) && Counted(d, ss, udp) == Counted(d', ss[1..], udp)
               else
                 && Kept(d, ss, udp) == (if s.Opt? then [] else [s.r]) + Kept(d', ss[1..], udp)
                 && Counted(d, ss, udp) == Counted(d', ss[1..], udp) + 1
  {
    hide Done, TooLong;
  }

  // ---------- add_rr alone ----------

  /** The promise is not one of add_rr alone. A message of 496 bytes with nothing in its list yet, a
      limit of 512, and two addresses of the host "a": the first does not fit and is taken back,
      the second fits, because its owner is written as a pointer, to itself. */
  lemma TakenBackFails()
    ensures var d, udp := Draft(seq(496, _ => 0), []), Some(512);
            var r, r' := Record([[97]], T_A, 0, [Bytes([10, 0, 0, 1])]), Record([[97]], T_A, 0, [Bytes([10, 0, 0, 2])]);
            var d' := Done(d, AddAddress(r), udp);
            var e := Done(d', AddAddress(r'), udp);
            && StepStorable(AddAddress(r)) && StepStorable(AddAddress(r')) && Fine(d, {})
            && TooLong(d, r, udp) && !TooLong(d', r', udp) && |e.msg| == 512
            && ParseRecord(e.msg, 496, 16) == Bad(RC_FORMAT)
  {
    var d := Draft(seq(496, _ => 0), []);
    var r, r' := Record([[97]], T_A, 0, [Bytes([10, 0, 0, 1])]), Record([[97]], T_A, 0, [Bytes([10, 0, 0, 2])]);
    HostStorable(r, 1);
    HostStorable(r', 2);
    FirstLength(d, r);
    var t := [Entry(496, [[97]])];
    OpaqueTable(d, r);
    assert TakenBack(d, r) == Draft(d.msg, t);
    SecondLength(Draft(d.msg, t), r');
    assert t == [] + t;
    FirstIsPointer(Draft(d.msg, t), r', []);
  }

  lemma HostStorable(r: Record, n: byte)
    requires r == Record([[97]], T_A, 0, [Bytes([10, 0, 0, n])])
    ensures Storable(r)
  {
    assert r.data[1..] == [] && r.owner[1..] == [];
    assert Flat(r.data) == [10, 0, 0, n] + [];
  }

  lemma FirstLength(d: Draft, r: Record)
    requires |d.msg| == 496 && d.table == [] && r == Record([[97]], T_A, 0, [Bytes([10, 0, 0, 1])])
    ensures |AddRecord(d, r).msg| == 513
    ensures Grow(r.owner, 496, []) == [Entry(496, [[97]])]
  {
    assert r.owner[1..] == [];
    assert |Emit(r.owner, [])| == 3;
    OpaqueBytes(r.data, DataStart(d, r.owner), Grow(r.owner, |d.msg|, d.table));
    assert r.data[1..] == [];
    assert Flat(r.data) == [10, 0, 0, 1] + [];
  }

  lemma SecondLength(d: Draft, r: Record)
    requires |d.msg| == 496 && d.table == [Entry(496, [[97]])] && r == Record([[97]], T_A, 0, [Bytes([10, 0, 0, 2])])
    ensures |AddRecord(d, r).msg| == 512
  {
    assert Scan([[97]], []).longest == 0 && [] + [Entry(496, [[97]])] == d.table;
    OwnPointer([[97]], 496, []);
    OpaqueBytes(r.data, DataStart(d, r.owner), Grow(r.owner, |d.msg|, d.table));
    assert r.data[1..] == [];
    assert Flat(r.data) == [10, 0, 0, 2] + [];
  }
}
