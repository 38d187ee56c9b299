/** Resource records in a message: add_rr of dns_answer.c writes them, rrs2cent of
    dns_query.c reads them back. */
module Records {
  import opened Names
  import opened Wrappers
  import opened Decompress
  import opened Compress

  // ---------- record data ----------

  /** The parts of record data that the two switch statements tell apart. */
  datatype Segment = Fixed(n: nat) | CharString | Dom | Rest

  const T_A := 1
  const T_SOA := 6
  const T_AAAA := 28
  const T_NXT := 30
  const T_IPSECKEY := 45
  const T_RRSIG := 46
  const T_NSEC := 47
  const C_IN := 1

  /** The layout of record data by type. Types that are not listed are copied as they are. */
  function Layout(tp: nat): (ls: seq<Segment>)
    ensures forall i :: 0 <= i < |ls| ==> ls[i] == Rest ==> i == |ls| - 1
  {
    if tp in {2, 3, 4, 5, 7, 8, 9, 12} then [Dom]        // NS MD MF CNAME MB MG MR PTR
    else if tp in {14, 17} then [Dom, Dom]               // MINFO RP
    else if tp in {15, 18, 21, 36} then [Fixed(2), Dom]  // MX AFSDB RT KX
    else if tp == T_SOA then [Dom, Dom, Fixed(20)]
    else if tp == 26 then [Fixed(2), Dom, Dom]           // PX
    else if tp == 33 then [Fixed(6), Dom]                // SRV
    else if tp == T_NXT then [Dom, Rest]
    else if tp == 35 then [Fixed(4), CharString, CharString, CharString, Dom]  // NAPTR
    else [Rest]
  }

  /** Types that are cached: all from 1 to 51 except A6, DNAME, SINK and OPT. */
  predicate Cached(tp: nat) {
    1 <= tp <= 51 && !(38 <= tp <= 41)
  }

  datatype Piece = Bytes(b: seq<byte>) | Nam(ls: seq<Label>)

  predicate PieceFits(p: Piece, s: Segment) {
    match s
    case Fixed(n) => p.Bytes? && |p.b| == n
    case CharString => p.Bytes? && |p.b| > 0 && |p.b| == 1 + p.b[0] as int
    case Dom => p.Nam? && |Encode(p.ls)| <= DNSNAMEBUFSIZE
    case Rest => p.Bytes?
  }

  predicate Fits(ps: seq<Piece>, segs: seq<Segment>) {
    |ps| == |segs| && forall i :: 0 <= i < |ps| ==> PieceFits(ps[i], segs[i])
  }

  /** Record data as stored in the cache: names written out in full. */
  function Flat(ps: seq<Piece>): seq<byte> {
    if ps == [] then [] else PieceFlat(ps[0]) + Flat(ps[1..])
  }

  function PieceFlat(p: Piece): seq<byte> {
    match p
    case Bytes(b) => b
    case Nam(ls) => Encode(ls)
  }

  datatype Record = Record(owner: seq<Label>, tp: nat, ttl: nat, data: seq<Piece>)

  /** A record the cache can hold: the data has the layout of its type, and a length that
      rrs2cent accepts for that type. */
  predicate Storable(r: Record) {
    && Cached(r.tp) && r.ttl < 0x1_0000_0000
    && |Encode(r.owner)| <= DNSNAMEBUFSIZE
    && Fits(r.data, Layout(r.tp)) && |Flat(r.data)| < 0x1_0000
    && Accepted(r.tp, Flat(r.data))
  }

  /** What rrs2cent asks of the data of some types, beyond its layout. */
  predicate Accepted(tp: nat, data: seq<byte>) {
    && (tp == T_A ==> |data| == 4)
    && (tp == T_AAAA ==> |data| == 16)
    && (tp == T_NXT ==> |data| <= 1040)
    && (tp in {T_IPSECKEY, T_RRSIG, T_NSEC} ==> KeptWhole(tp, data))
  }

  /** Data that contains a name which should not be compressed: where the name starts. */
  function NameStart(tp: nat): nat {
    if tp == T_IPSECKEY then 3 else if tp == T_RRSIG then 18 else 0
  }

  /** The checks that lead to the default case for these types. */
  predicate KeptWhole(tp: nat, data: seq<byte>) {
    var n := NameStart(tp);
    && |data| >= n
    && if tp == T_IPSECKEY && data[1] != 3 then
         data[1] == 0 || (data[1] == 1 && |data| - n >= 4) || (data[1] == 2 && |data| - n >= 16)
       else
         NormalFrom(data[n..], 0)
  }

  // ---------- big-endian fields ----------

  /** PUTINT16: the value is truncated to 16 bits. */
  function Put16(v: nat): seq<byte> {
    [v / 256 % 256, v % 256]
  }

  /** PUTINT32 */
  function Put32(v: nat): seq<byte> {
    Put16(v / 65536) + Put16(v)
  }

  /** GETINT16 */
  function Get16(m: seq<byte>, pos: nat): nat
    requires pos + 2 <= |m|
  {
    m[pos] as int * 256 + m[pos + 1] as int
  }

  /** GETINT32 */
  function Get32(m: seq<byte>, pos: nat): nat
    requires pos + 4 <= |m|
  {
    Get16(m, pos) * 65536 + Get16(m, pos + 2)
  }

  const RRHDRSIZE := 10

  /** The fixed part of a record: type, class, ttl, length of the data. */
  function Header(tp: nat, ttl: nat, rdlen: nat): (h: seq<byte>)
    ensures |h| == RRHDRSIZE
  {
    Put16(tp) + Put16(C_IN) + Put32(ttl) + Put16(rdlen)
  }

  lemma HoldsBytes(m: seq<byte>, pos: nat, h: seq<byte>)
    requires Holds(m, pos, h)
    ensures pos + |h| <= |m| && forall i :: 0 <= i < |h| ==> m[pos + i] == h[i]
  {
    forall i | 0 <= i < |h| ensures m[pos + i] == h[i] {
      assert m[pos..pos + |h|][i] == m[pos + i];
    }
  }

  lemma HeaderReadsBack(m: seq<byte>, pos: nat, tp: nat, ttl: nat, rdlen: nat)
    requires tp < 0x1_0000 && ttl < 0x1_0000_0000 && rdlen < 0x1_0000
    requires Holds(m, pos, Header(tp, ttl, rdlen))
    ensures pos + RRHDRSIZE <= |m|
    ensures Get16(m, pos) == tp && Get16(m, pos + 2) == C_IN
    ensures Get32(m, pos + 4) == ttl && Get16(m, pos + 8) == rdlen
  {
    hide Holds, Get16, Put16;
    HeaderHolds(m, pos, tp, ttl, rdlen);
    Get16Back(m, pos, tp);
    Get16Back(m, pos + 2, C_IN);
    Get16Back(m, pos + 4, ttl / 65536);
    Get16Back(m, pos + 6, ttl);
    Get16Back(m, pos + 8, rdlen);
  }

  lemma HeaderHolds(m: seq<byte>, pos: nat, tp: nat, ttl: nat, rdlen: nat)
    requires Holds(m, pos, Header(tp, ttl, rdlen))
    ensures Holds(m, pos, Put16(tp)) && Holds(m, pos + 2, Put16(C_IN))
    ensures Holds(m, pos + 4, Put16(ttl / 65536)) && Holds(m, pos + 6, Put16(ttl)) && Holds(m, pos + 8, Put16(rdlen))
  {
    hide Holds;
    HoldsSplit(m, pos, Put16(tp) + Put16(C_IN) + Put32(ttl), Put16(rdlen));
    HoldsSplit(m, pos, Put16(tp) + Put16(C_IN), Put32(ttl));
    HoldsSplit(m, pos, Put16(tp), Put16(C_IN));
    HoldsSplit(m, pos + 4, Put16(ttl / 65536), Put16(ttl));
  }

  lemma Get16Back(m: seq<byte>, pos: nat, v: nat)
    requires Holds(m, pos, Put16(v))
    ensures pos + 2 <= |m| && Get16(m, pos) == v % 65536
  {
    HoldsBytes(m, pos, Put16(v));
    assert m[pos + 0] == Put16(v)[0] && m[pos + 1] == Put16(v)[1];
  }

  // ---------- specification of writing ----------

  /** The bytes written for one piece, and the compression list after it. */
  function PieceOut(p: Piece, t: seq<Entry>): seq<byte> {
    match p
    case Bytes(b) => b
    case Nam(ls) => Emit(ls, t)
  }

  function PieceTable(p: Piece, at: nat, t: seq<Entry>): seq<Entry> {
    match p
    case Bytes(_) => t
    case Nam(ls) => Grow(ls, at, t)
  }

  /** The bytes written for record data placed at `at`, and the list after that. */
  function Rdata(ps: seq<Piece>, at: nat, t: seq<Entry>): seq<byte> {
    if ps == [] then []
    else PieceOut(ps[0], t) + Rdata(ps[1..], at + |PieceOut(ps[0], t)|, PieceTable(ps[0], at, t))
  }

  function RdataTable(ps: seq<Piece>, at: nat, t: seq<Entry>): seq<Entry> {
    if ps == [] then t
    else RdataTable(ps[1..], at + |PieceOut(ps[0], t)|, PieceTable(ps[0], at, t))
  }

  /** A message under construction together with its compression list. */
  datatype Draft = Draft(msg: seq<byte>, table: seq<Entry>)

  /** Where the data of a record begins. */
  function DataStart(d: Draft, owner: seq<Label>): nat {
    |d.msg| + |Emit(owner, d.table)| + RRHDRSIZE
  }

  function DataBytes(d: Draft, r: Record): seq<byte> {
    Rdata(r.data, DataStart(d, r.owner), Grow(r.owner, |d.msg|, d.table))
  }

  /** The message and list after a record has been committed. */
  function AddRecord(d: Draft, r: Record): Draft {
    var rd := DataBytes(d, r);
    Draft(d.msg + Emit(r.owner, d.table) + Header(r.tp, r.ttl, |rd|) + rd, TableAfter(d, r))
  }

  /** The list after the record has been written, whether or not it is then kept. */
  function TableAfter(d: Draft, r: Record): seq<Entry> {
    RdataTable(r.data, DataStart(d, r.owner), Grow(r.owner, |d.msg|, d.table))
  }

  lemma AddedIs(d: Draft, r: Record, m: seq<byte>, rd: seq<byte>, t: seq<Entry>)
    requires m == d.msg + Emit(r.owner, d.table)
    requires rd == Rdata(r.data, |m| + RRHDRSIZE, Grow(r.owner, |d.msg|, d.table))
    requires t == RdataTable(r.data, |m| + RRHDRSIZE, Grow(r.owner, |d.msg|, d.table))
    ensures AddRecord(d, r) == Draft(m + Header(r.tp, r.ttl, |rd|) + rd, t)
    ensures |AddRecord(d, r).msg| == |m| + RRHDRSIZE + |rd| && TableAfter(d, r) == t
  {
    hide Emit, Grow, Rdata, RdataTable, Header;
  }

  function AddAll(d: Draft, rs: seq<Record>): Draft
    decreases |rs|
  {
    if rs == [] then d else AddAll(AddRecord(d, rs[0]), rs[1..])
  }

  /** Compression never lengthens record data, so it fits in what was reserved for it. */
  lemma {:induction false} RdataNoLonger(ps: seq<Piece>, at: nat, t: seq<Entry>)
    ensures |Rdata(ps, at, t)| <= |Flat(ps)|
    decreases |ps|
  {
    hide PieceOut, PieceFlat, PieceTable;
    if ps != [] {
      PieceNoLonger(ps[0], t);
      RdataNoLonger(ps[1..], at + |PieceOut(ps[0], t)|, PieceTable(ps[0], at, t));
    }
  }

  lemma PieceNoLonger(p: Piece, t: seq<Entry>)
    ensures |PieceOut(p, t)| <= |PieceFlat(p)|
  {
    hide Emit, Encode;
    if p.Nam? {
      EmitNoLonger(p.ls, t);
    }
  }

  // ---------- the list stays true of the message ----------

  /** Every entry of the list stands in the message as it was emitted. */
  ghost predicate Sound(m: seq<byte>, t: seq<Entry>) {
    Advancing(t) && HoldsTable(m, t)
  }

  lemma SoundAppend(m: seq<byte>, t: seq<Entry>, b: seq<byte>)
    requires Sound(m, t)
    ensures Sound(m + b, t)
  {
    hide Emitted, Inert, Holds;
    forall i | 0 <= i < |t| && !Inert(t[i]) ensures Holds(m + b, t[i].index, Emitted(t, i)) {
      HoldsAppend(m, t[i].index, Emitted(t, i), b);
    }
  }

  lemma HoldsAppend(m: seq<byte>, offs: nat, out: seq<byte>, b: seq<byte>)
    requires Holds(m, offs, out)
    ensures Holds(m + b, offs, out)
  {
    assert (m + b)[offs..offs + |out|] == m[offs..offs + |out|];
  }

  lemma SoundSnoc(m: seq<byte>, t: seq<Entry>, e: Entry)
    requires Sound(m, t) && Holds(m, e.index, Emit(e.name, t))
    requires EndsBefore(t, e.index)
    ensures Sound(m, t + [e])
  {
    hide Emit, Holds, Advancing, HoldsTable, EndsBefore;
    TableSnoc(m, t, e);
  }

  lemma SoundEnds(m: seq<byte>, t: seq<Entry>)
    requires Sound(m, t)
    ensures EndsBefore(t, |m|)
  {
    hide Emitted;
  }

  lemma SoundGrow(m: seq<byte>, t: seq<Entry>, name: seq<Label>)
    requires Sound(m, t)
    ensures Sound(m + Emit(name, t), Grow(name, |m|, t))
  {
    hide Emit, Scan, Sound;
    var out := Emit(name, t);
    SoundAppend(m, t, out);
    SoundEnds(m, t);
    assert (m + out)[|m|..|m + out|] == out;
    if Grow(name, |m|, t) != t {
      SoundSnoc(m + out, t, Entry(|m|, name));
    }
  }

  lemma {:induction false} SoundRdata(m: seq<byte>, t: seq<Entry>, ps: seq<Piece>)
    requires Sound(m, t)
    ensures Sound(m + Rdata(ps, |m|, t), RdataTable(ps, |m|, t))
    decreases |ps|
  {
    hide Sound, PieceOut, PieceTable;
    if ps == [] {
      assert m + [] == m;
    } else {
      var out, t' := PieceOut(ps[0], t), PieceTable(ps[0], |m|, t);
      SoundPiece(m, t, ps[0]);
      SoundRdata(m + out, t', ps[1..]);
      assert m + (out + Rdata(ps[1..], |m| + |out|, t')) == m + out + Rdata(ps[1..], |m + out|, t');
    }
  }

  lemma SoundPiece(m: seq<byte>, t: seq<Entry>, p: Piece)
    requires Sound(m, t)
    ensures Sound(m + PieceOut(p, t), PieceTable(p, |m|, t))
  {
    hide Sound, Emit, Grow;
    match p
    case Bytes(b) => SoundAppend(m, t, b);
    case Nam(ls) => SoundGrow(m, t, ls);
  }

  /** Committing a record keeps the list true. */
  lemma AddRecordSound(d: Draft, r: Record)
    requires Sound(d.msg, d.table)
    ensures Sound(AddRecord(d, r).msg, AddRecord(d, r).table)
  {
    hide Sound, Emit, Grow;
    var rd := DataBytes(d, r);
    var m1 := d.msg + Emit(r.owner, d.table);
    var t1 := Grow(r.owner, |d.msg|, d.table);
    SoundGrow(d.msg, d.table, r.owner);
    SoundAppend(m1, t1, Header(r.tp, r.ttl, |rd|));
    SoundRdata(m1 + Header(r.tp, r.ttl, |rd|), t1, r.data);
  }

  // ---------- specification of reading ----------

  datatype Parsed = Got(r: Record, used: nat) | Skipped(used: nat) | Bad(rc: Rc)

  /** The switch of rrs2cent: the data of one record, or nothing for RC_FORMAT. */
  function ParsePieces(m: seq<byte>, segs: seq<Segment>, pos: nat, blcnt: nat): Option<seq<Piece>>
    requires pos + blcnt <= |m|
    decreases |segs|
  {
    if segs == [] then if blcnt == 0 then Some([]) else None
    else
      match segs[0]
      case Fixed(n) =>
        if blcnt < n then None
        else Put([Bytes(m[pos..pos + n])], ParsePieces(m, segs[1..], pos + n, blcnt - n))
      case CharString =>
        if blcnt == 0 || blcnt < 1 + m[pos] as int then None
        else
          var n := 1 + m[pos] as int;
          Put([Bytes(m[pos..pos + n])], ParsePieces(m, segs[1..], pos + n, blcnt - n))
      case Dom =>
        (match Near(m, pos, blcnt, 0)
         case Name(ls, used) =>
           NearUsed(m, pos, blcnt);
           Put([Nam(ls)], ParsePieces(m, segs[1..], pos + used, blcnt - used))
         case Truncated => None
         case Malformed => None)
      case Rest => Some([Bytes(m[pos..pos + blcnt])])
  }

  function Put(ps: seq<Piece>, o: Option<seq<Piece>>): Option<seq<Piece>> {
    if o.Some? then Some(ps + o.value) else None
  }

  lemma NearUsed(m: seq<byte>, pos: nat, sz: nat)
    ensures Near(m, pos, sz, 0).Name? ==> Near(m, pos, sz, 0).used <= sz
  {
    if Near(m, pos, sz, 0).Name? {
      var h := NearSound(m, pos, sz, 0);
    }
  }

  ghost function FlatOf(o: Option<seq<Piece>>): Option<seq<byte>> {
    if o.Some? then Some(Flat(o.value)) else None
  }

  function ParseData(m: seq<byte>, tp: nat, pos: nat, rdlen: nat): Option<seq<Piece>>
    requires pos + rdlen <= |m|
  {
    if (tp == T_A && rdlen != 4) || (tp == T_AAAA && rdlen != 16) then None
    else if tp in {T_IPSECKEY, T_RRSIG, T_NSEC} && !KeptWhole(tp, m[pos..pos + rdlen])
    then ParseCompressed(m, tp, pos, rdlen)
    else
      var o := ParsePieces(m, Layout(tp), pos, rdlen);
      if o.Some? && tp == T_NXT && |Flat(o.value)| > 1040 then None else o
  }

  /** Data of these types with a name that is compressed although it should not be. */
  function ParseCompressed(m: seq<byte>, tp: nat, pos: nat, rdlen: nat): Option<seq<Piece>>
    requires pos + rdlen <= |m| && tp in {T_IPSECKEY, T_RRSIG, T_NSEC}
  {
    var n := NameStart(tp);
    if rdlen < n || (tp == T_IPSECKEY && m[pos + 1] != 3) then None
    else
      NearUsed(m, pos + n, rdlen - n);
      match Near(m, pos + n, rdlen - n, 0)
      case Name(ls, used) => Some([Bytes(m[pos..pos + n]), Nam(ls), Bytes(m[pos + n + used..pos + rdlen])])
      case Truncated => None
      case Malformed => None
  }

  lemma ThreePieces(a: seq<byte>, ls: seq<Label>, b: seq<byte>)
    ensures Flat([Bytes(a), Nam(ls), Bytes(b)]) == a + Encode(ls) + b
  {
    hide Encode;
    var ps := [Bytes(a), Nam(ls), Bytes(b)];
    assert ps[1..] == [Nam(ls), Bytes(b)] && ps[1..][1..] == [Bytes(b)] && ps[1..][1..][1..] == [];
    assert Flat(ps[1..][1..]) == b + [];
  }

  /** One turn of the loop of rrs2cent, with lcnt bytes left at pos. */
  function ParseRecord(m: seq<byte>, pos: nat, lcnt: nat): Parsed
    requires pos + lcnt <= |m|
  {
    match Near(m, pos, lcnt, 0)
    case Truncated => Bad(RC_TRUNC)
    case Malformed => Bad(RC_FORMAT)
    case Name(owner, used) =>
      if lcnt - used < RRHDRSIZE then Bad(RC_TRUNC)
      else
        var p := pos + used;
        var tp, cl, ttl, rdlen := Get16(m, p), Get16(m, p + 2), Get32(m, p + 4), Get16(m, p + 8);
        if lcnt - used - RRHDRSIZE < rdlen then Bad(RC_TRUNC)
        else if !Cached(tp) || cl != C_IN then Skipped(used + RRHDRSIZE + rdlen)
        else
          match ParseData(m, tp, p + RRHDRSIZE, rdlen)
          case None => Bad(RC_FORMAT)
          case Some(ps) => Got(Record(owner, tp, ttl, ps), used + RRHDRSIZE + rdlen)
  }

  datatype Result = Ok(rs: seq<Record>, pos: nat, lcnt: nat) | Err(rc: Rc)

  function ParseAll(m: seq<byte>, pos: nat, lcnt: nat, recnum: nat): Result
    requires pos + lcnt <= |m|
    decreases recnum
  {
    if recnum == 0 then Ok([], pos, lcnt)
    else
      match ParseRecord(m, pos, lcnt)
      case Bad(rc) => Err(rc)
      case Skipped(used) =>
        ParseFits(m, pos, lcnt);
        ParseAll(m, pos + used, lcnt - used, recnum - 1)
      case Got(r, used) =>
        ParseFits(m, pos, lcnt);
        match ParseAll(m, pos + used, lcnt - used, recnum - 1)
        case Err(rc) => Err(rc)
        case Ok(rs, p, l) => Ok([r] + rs, p, l)
  }

  lemma ParseFits(m: seq<byte>, pos: nat, lcnt: nat)
    requires pos + lcnt <= |m|
    ensures var o := ParseRecord(m, pos, lcnt); !o.Bad? ==> o.used <= lcnt
  {
    NearUsed(m, pos, lcnt);
  }

  // ---------- the round trip ----------

  /** The same data: bytes equal, names equal up to ASCII case. */
  ghost predicate SamePieces(a: seq<Piece>, b: seq<Piece>) {
    |a| == |b| && forall i :: 0 <= i < |a| ==> SamePiece(a[i], b[i])
  }

  ghost predicate SamePiece(a: Piece, b: Piece) {
    match a
    case Bytes(x) => b == Bytes(x)
    case Nam(ls) => b.Nam? && Same(ls, b.ls)
  }

  ghost predicate SameRecord(a: Record, b: Record) {
    Same(a.owner, b.owner) && a.tp == b.tp && a.ttl == b.ttl && SamePieces(a.data, b.data)
  }

  lemma {:induction false} SamePiecesFlat(a: seq<Piece>, b: seq<Piece>)
    requires SamePieces(a, b)
    ensures |Flat(a)| == |Flat(b)|
  {
    if a != [] {
      assert SamePiece(a[0], b[0]);
      if a[0].Nam? {
        SameLits(a[0].ls, b[0].ls);
      }
      forall i | 0 <= i < |a[1..]| ensures SamePiece(a[1..][i], b[1..][i]) {
        assert SamePiece(a[i + 1], b[i + 1]);
      }
      SamePiecesFlat(a[1..], b[1..]);
    }
  }

  lemma NoPieces(m: seq<byte>, segs: seq<Segment>, pos: nat, t: seq<Entry>)
    requires Fits([], segs) && pos <= |m|
    ensures Rdata([], pos, t) == [] && ParsePieces(m, segs, pos, 0) == Some([])
  {
  }

  lemma NoRdata(ps: seq<Piece>, at: nat, t: seq<Entry>)
    ensures ps == [] ==> Rdata(ps, at, t) == []
  {
  }

  lemma FitsOn(ps: seq<Piece>, segs: seq<Segment>)
    requires Fits(ps, segs) && ps != [] && forall i :: 0 <= i < |segs| ==> segs[i] == Rest ==> i == |segs| - 1
    ensures segs != [] && Fits(ps[1..], segs[1..]) && PieceFits(ps[0], segs[0])
    ensures forall i :: 0 <= i < |segs[1..]| ==> segs[1..][i] == Rest ==> i == |segs[1..]| - 1
    ensures segs[0] == Rest ==> |segs| == 1 && ps[1..] == []
  {
    hide PieceFits;
  }

  lemma {:induction false} PiecesReadBack(m: seq<byte>, pre: seq<byte>, t: seq<Entry>, ps: seq<Piece>,
                                         segs: seq<Segment>)
    returns (got: seq<Piece>)
    requires Fits(ps, segs) && forall i :: 0 <= i < |segs| ==> segs[i] == Rest ==> i == |segs| - 1
    requires Sound(pre, t) && pre + Rdata(ps, |pre|, t) <= m
    ensures ParsePieces(m, segs, |pre|, |Rdata(ps, |pre|, t)|) == Some(got)
    ensures SamePieces(got, ps)
    decreases |ps|
  {
    hide Sound, PieceOut, PieceTable, Near, SamePiece, PieceFits, ParsePieces, Rdata, Fits;
    if ps == [] {
      NoPieces(m, segs, |pre|, t);
      got := [];
    } else {
      var out, t' := PieceOut(ps[0], t), PieceTable(ps[0], |pre|, t);
      FitsOn(ps, segs);
      var segs', ps' := segs[1..], ps[1..];
      var rd := Rdata(ps, |pre|, t);
      RdataFirst(ps, |pre|, t);
      NoRdata(ps', |pre + out|, t');
      assert pre + out + Rdata(ps', |pre + out|, t') == pre + rd;
      SoundPiece(pre, t, ps[0]);
      var rest := PiecesReadBack(m, pre + out, t', ps', segs');
      var p := PieceReadsBack(m, pre, t, ps[0], segs, |rd|);
      got := [p] + rest;
    }
  }

  lemma BytesReadBack(m: seq<byte>, pre: seq<byte>, b: seq<byte>, segs: seq<Segment>, blcnt: nat)
    requires segs != [] && PieceFits(Bytes(b), segs[0]) && pre + b <= m
    requires |b| <= blcnt && |pre| + blcnt <= |m|
    requires segs[0] == Rest ==> |segs| == 1 && |b| == blcnt
    ensures ParsePieces(m, segs, |pre|, blcnt)
            == Put([Bytes(b)], ParsePieces(m, segs[1..], |pre| + |b|, blcnt - |b|))
  {
    hide ParsePieces, Put, PieceFits;
    StandsBehind(m, pre, b);
    if segs[0] == Rest {
      ParseRest(m, segs, |pre|, b);
    } else {
      ParseCounted(m, segs, |pre|, blcnt, b);
    }
  }

  lemma StandsBehind(m: seq<byte>, pre: seq<byte>, b: seq<byte>)
    requires pre + b <= m
    ensures |pre| + |b| <= |m| && m[|pre|..|pre| + |b|] == b
    ensures b != [] ==> m[|pre|] == b[0]
  {
    assert forall i :: 0 <= i < |b| ==> m[|pre| + i] == (pre + b)[|pre| + i] == b[i];
  }

  lemma ParseRest(m: seq<byte>, segs: seq<Segment>, pos: nat, b: seq<byte>)
    requires pos + |b| <= |m| && |segs| == 1 && segs[0] == Rest && b == m[pos..pos + |b|]
    ensures ParsePieces(m, segs, pos, |b|) == Put([Bytes(b)], ParsePieces(m, segs[1..], pos + |b|, |b| - |b|))
  {
    var one := [Bytes(b)];
    assert segs[1..] == [] && one + [] == one;
  }

  lemma ParseCounted(m: seq<byte>, segs: seq<Segment>, pos: nat, blcnt: nat, b: seq<byte>)
    requires |b| <= blcnt && pos + blcnt <= |m| && segs != [] && segs[0] != Rest && PieceFits(Bytes(b), segs[0])
    requires b == m[pos..pos + |b|] && (b != [] ==> m[pos] == b[0])
    ensures ParsePieces(m, segs, pos, blcnt) == Put([Bytes(b)], ParsePieces(m, segs[1..], pos + |b|, blcnt - |b|))
  {
    hide Near, Put;
  }

  lemma RdataFirst(ps: seq<Piece>, at: nat, t: seq<Entry>)
    requires ps != []
    ensures var out, t' := PieceOut(ps[0], t), PieceTable(ps[0], at, t);
            Rdata(ps, at, t) == out + Rdata(ps[1..], at + |out|, t')
  {
  }

  /** One piece: the parse of the data starts with it and goes on behind it. */
  lemma PieceReadsBack(m: seq<byte>, pre: seq<byte>, t: seq<Entry>, p: Piece, segs: seq<Segment>, blcnt: nat)
    returns (got: Piece)
    requires segs != [] && PieceFits(p, segs[0]) && Sound(pre, t) && pre + PieceOut(p, t) <= m
    requires |PieceOut(p, t)| <= blcnt && |pre| + blcnt <= |m|
    requires segs[0] == Rest ==> |segs| == 1 && |PieceOut(p, t)| == blcnt
    ensures SamePiece(got, p)
    ensures var n := |PieceOut(p, t)|;
            ParsePieces(m, segs, |pre|, blcnt) == Put([got], ParsePieces(m, segs[1..], |pre| + n, blcnt - n))
  {
    hide Emit, Near, Encode, Sound, Same;
    match p
    case Bytes(b) =>
      got := p;
      BytesReadBack(m, pre, b, segs, blcnt);
    case Nam(ls) =>
      NameReadBack(m, pre, t, ls, blcnt);
      got := Nam(Near(m, |pre|, blcnt, 0).labels);
  }

  /** A name at the end of a true prefix of the message reads back. */
  lemma NameReadBack(m: seq<byte>, pre: seq<byte>, t: seq<Entry>, name: seq<Label>, sz: nat)
    requires Sound(pre, t) && pre + Emit(name, t) <= m
    requires |Encode(name)| <= DNSNAMEBUFSIZE && |Emit(name, t)| <= sz
    ensures var o := Near(m, |pre|, sz, 0);
            o.Name? && Same(o.labels, name) && o.used == |Emit(name, t)|
  {
    hide Emit, Near;
    SoundAppend(pre, t, m[|pre|..]);
    assert pre + m[|pre|..] == m;
    assert m[|pre|..|pre| + |Emit(name, t)|] == Emit(name, t);
    ExpandsAt(m, t, name, |pre|, sz);
  }

  lemma HeaderAt(m: seq<byte>, pre: seq<byte>, tp: nat, ttl: nat, rdlen: nat)
    requires tp < 0x1_0000 && ttl < 0x1_0000_0000 && rdlen < 0x1_0000
    requires pre + Header(tp, ttl, rdlen) <= m
    ensures |pre| + 10 <= |m|
    ensures Get16(m, |pre|) == tp && Get16(m, |pre| + 2) == C_IN
    ensures Get32(m, |pre| + 4) == ttl && Get16(m, |pre| + 8) == rdlen
  {
    var h := Header(tp, ttl, rdlen);
    hide Header, Get16, Get32;
    assert m[|pre|..|pre + h|] == (pre + h)[|pre|..] == h;
    HeaderReadsBack(m, |pre|, tp, ttl, rdlen);
  }

  /** A committed record reads back: same owner, type, ttl and data, names up to ASCII case. */
  lemma RecordReadsBack(m: seq<byte>, d: Draft, r: Record, lcnt: nat) returns (got: Record)
    requires Sound(d.msg, d.table) && Storable(r)
    requires AddRecord(d, r).msg <= m && |AddRecord(d, r).msg| <= |d.msg| + lcnt <= |m|
    ensures ParseRecord(m, |d.msg|, lcnt) == Got(got, |AddRecord(d, r).msg| - |d.msg|)
    ensures SameRecord(got, r)
  {
    hide Sound, Emit, Grow, Near, Same, Rdata, RdataTable, Encode, Header, Get16, Get32;
    hide ParsePieces, SamePieces, Fits, Layout;
    var own := Emit(r.owner, d.table);
    var rd := DataBytes(d, r);
    var h := Header(r.tp, r.ttl, |rd|);
    var m1 := d.msg + own;
    var t1 := Grow(r.owner, |d.msg|, d.table);
    assert AddRecord(d, r).msg == m1 + h + rd;
    assert m1 <= m && m1 + h <= m;
    RdataNoLonger(r.data, |m1 + h|, t1);
    NameReadBack(m, d.msg, d.table, r.owner, lcnt);
    HeaderAt(m, m1, r.tp, r.ttl, |rd|);
    SoundGrow(d.msg, d.table, r.owner);
    SoundAppend(m1, t1, h);
    var ps := DataReadsBack(m, m1 + h, t1, r);
    got := Record(Near(m, |d.msg|, lcnt, 0).labels, r.tp, r.ttl, ps);
  }

  lemma DataReadsBack(m: seq<byte>, pre: seq<byte>, t: seq<Entry>, r: Record) returns (ps: seq<Piece>)
    requires Storable(r) && Sound(pre, t) && pre + Rdata(r.data, |pre|, t) <= m
    ensures ParseData(m, r.tp, |pre|, |Rdata(r.data, |pre|, t)|) == Some(ps)
    ensures SamePieces(ps, r.data)
  {
    hide Sound, Near, Rdata, Encode, ParsePieces, KeptWhole, ParseCompressed;
    ps := PiecesReadBack(m, pre, t, r.data, Layout(r.tp));
    SamePiecesFlat(ps, r.data);
    if Layout(r.tp) == [Rest] {
      OpaqueBytes(r.data, |pre|, t);
      assert m[|pre|..|pre| + |Flat(r.data)|] == (pre + Flat(r.data))[|pre|..] == Flat(r.data);
    }
  }

  lemma OpaqueBytes(ps: seq<Piece>, at: nat, t: seq<Entry>)
    requires Fits(ps, [Rest])
    ensures Rdata(ps, at, t) == Flat(ps)
  {
    assert PieceFits(ps[0], [Rest][0]);
    assert ps == [ps[0]];
  }

  predicate AllStorable(rs: seq<Record>) {
    forall i :: 0 <= i < |rs| ==> Storable(rs[i])
  }

  /** rrs2cent, started where the first of these records was placed, reads them all back. */
  ghost predicate ReadsBack(d: Draft, rs: seq<Record>) {
    var m := AddAll(d, rs).msg;
    && |d.msg| <= |m|
    && var o := ParseAll(m, |d.msg|, |m| - |d.msg|, |rs|);
       && o.Ok? && o.pos == |m| && o.lcnt == 0
       && |o.rs| == |rs| && forall i :: 0 <= i < |rs| ==> SameRecord(o.rs[i], rs[i])
  }

  /** The main result: any storable records added to a message whose list is true of it are
      read back, all and in order. */
  lemma {:induction false} RecordsReadBack(d: Draft, rs: seq<Record>)
    requires Sound(d.msg, d.table) && AllStorable(rs)
    ensures ReadsBack(d, rs)
    decreases |rs|
  {
    hide Sound, AddRecord, Storable, SameRecord, ParseRecord;
    if rs != [] {
      var m := AddAll(d, rs).msg;
      var d' := AddRecord(d, rs[0]);
      AddAllExtends(d', rs[1..]);
      AddRecordExtends(d, rs[0]);
      AddRecordSound(d, rs[0]);
      var r := RecordReadsBack(m, d, rs[0], |m| - |d.msg|);
      assert AllStorable(rs[1..]);
      RecordsReadBack(d', rs[1..]);
      assert |rs[1..]| == |rs| - 1;
    }
  }

  lemma AddRecordExtends(d: Draft, r: Record)
    ensures d.msg <= AddRecord(d, r).msg
  {
    hide Emit, Rdata, Header;
  }

  lemma {:induction false} AddAllExtends(d: Draft, rs: seq<Record>)
    ensures d.msg <= AddAll(d, rs).msg
    decreases |rs|
  {
    if rs != [] {
      AddRecordExtends(d, rs[0]);
      AddAllExtends(AddRecord(d, rs[0]), rs[1..]);
    }
  }

  // ---------- records that are taken back ----------

  /** The draft after add_rr has written a record and then taken it back for want of room: the
      message is as before, but the compression list keeps what was added to it. */
  function TakenBack(d: Draft, r: Record): Draft {
    Draft(d.msg, TableAfter(d, r))
  }

  /** Whatever is added from here on reads back. */
  ghost predicate Safe(d: Draft) {
    forall rs :: AllStorable(rs) ==> ReadsBack(d, rs)
  }

  /** The guard: taking back a record with opaque data (an address, say) is harmless when its
      owner name was already wholly in the list, or could never be pointed to. */
  predicate Harmless(d: Draft, owner: seq<Label>) {
    Scan(owner, d.table).longest == |owner| || |d.msg| > MAX_OFFSET
  }

  lemma SoundIsSafe(d: Draft)
    requires Sound(d.msg, d.table)
    ensures Safe(d)
  {
    hide Sound, ReadsBack, AllStorable;
    forall rs | AllStorable(rs) ensures ReadsBack(d, rs) {
      RecordsReadBack(d, rs);
    }
  }

  /** add_rr forgets to take its compression entries back too. For the records of the
      additional section (addresses), later records still read back if and only if the guard
      holds; otherwise the next record of the same owner is a pointer to itself. */
  lemma TakenBackSafe(d: Draft, r: Record)
    requires Sound(d.msg, d.table) && Storable(r) && Layout(r.tp) == [Rest]
    ensures Safe(TakenBack(d, r)) <==> Harmless(d, r.owner)
  {
    OpaqueTable(d, r);
    var t' := Grow(r.owner, |d.msg|, d.table);
    var d' := TakenBack(d, r);
    if Harmless(d, r.owner) {
      if t' != d.table {
        InertIsSound(d.msg, d.table, Entry(|d.msg|, r.owner));
      }
      SoundIsSafe(d');
    } else {
      PointsToItself(d', r.owner, d.table);
    }
  }

  lemma OpaqueTable(d: Draft, r: Record)
    requires Fits(r.data, [Rest])
    ensures TableAfter(d, r) == Grow(r.owner, |d.msg|, d.table)
  {
    hide Emit, Grow;
    assert PieceFits(r.data[0], [Rest][0]);
    var at, t := DataStart(d, r.owner), Grow(r.owner, |d.msg|, d.table);
    assert RdataTable(r.data, at, t) == RdataTable(r.data[1..], at + |PieceOut(r.data[0], t)|, t);
    assert r.data[1..] == [];
  }

  lemma InertIsSound(m: seq<byte>, t: seq<Entry>, e: Entry)
    requires Sound(m, t) && Inert(e)
    ensures Sound(m, t + [e])
  {
    hide Advancing, HoldsTable;
    TableSnoc(m, t, e);
  }

  lemma PointsToItself(d: Draft, owner: seq<Label>, t: seq<Entry>)
    requires |d.msg| <= MAX_OFFSET && |Encode(owner)| <= DNSNAMEBUFSIZE
    requires Scan(owner, t).longest < |owner| && d.table == t + [Entry(|d.msg|, owner)]
    ensures !Safe(d)
  {
    var txt := Record(owner, 16, 0, [Bytes([])]);
    EmptyTextStorable(owner);
    FirstIsPointer(d, txt, t);
    hide Scan, Encode, AddRecord, ParseRecord, AllStorable;
    NotReadBack(d, txt);
  }

  lemma EmptyTextStorable(owner: seq<Label>)
    requires |Encode(owner)| <= DNSNAMEBUFSIZE
    ensures AllStorable([Record(owner, 16, 0, [Bytes([])])])
  {
    assert [Bytes([])][1..] == [];
  }

  lemma FirstIsPointer(d: Draft, r: Record, t: seq<Entry>)
    requires |d.msg| <= MAX_OFFSET && Scan(r.owner, t).longest < |r.owner|
    requires d.table == t + [Entry(|d.msg|, r.owner)]
    ensures |d.msg| <= |AddRecord(d, r).msg|
    ensures ParseRecord(AddRecord(d, r).msg, |d.msg|, |AddRecord(d, r).msg| - |d.msg|) == Bad(RC_FORMAT)
  {
    hide Scan, Rdata, ParseRecord, Emit, DataBytes, TableAfter;
    OwnPointer(r.owner, |d.msg|, t);
    var rest := Header(r.tp, r.ttl, |DataBytes(d, r)|) + DataBytes(d, r);
    var m := AddRecord(d, r).msg;
    assert m == d.msg + Pointer(|d.msg|) + rest;
    SelfPointerUnread(m, |d.msg|, rest, d.msg);
  }

  lemma NotReadBack(d: Draft, r: Record)
    requires |d.msg| <= |AddRecord(d, r).msg|
    requires ParseRecord(AddRecord(d, r).msg, |d.msg|, |AddRecord(d, r).msg| - |d.msg|).Bad?
    ensures !ReadsBack(d, [r])
  {
    hide AddRecord, ParseRecord;
    assert [r][1..] == [] && AddAll(AddRecord(d, r), []) == AddRecord(d, r);
  }

  lemma SelfPointerUnread(m: seq<byte>, pos: nat, rest: seq<byte>, pre: seq<byte>)
    requires |pre| == pos <= MAX_OFFSET && m == pre + Pointer(pos) + rest
    ensures ParseRecord(m, pos, |m| - pos) == Bad(RC_FORMAT)
  {
    assert m[pos] == Pointer(pos)[0] && m[pos + 1] == Pointer(pos)[1];
    SelfPointerMalformed(m, pos, |m| - pos);
  }

  lemma OwnPointer(owner: seq<Label>, pos: nat, t: seq<Entry>)
    requires pos <= MAX_OFFSET && Scan(owner, t).longest < |owner|
    ensures Emit(owner, t + [Entry(pos, owner)]) == Pointer(pos)
  {
    var e := Entry(pos, owner);
    assert (t + [e])[..|t|] == t;
    CommonSuffixIsLongest(owner, owner);
    assert Same(Tail(owner, |owner|), Tail(owner, |owner|));
  }

  lemma {:induction false} SelfPointerLoops(m: seq<byte>, pos: nat, hops: nat, t: nat)
    requires pos + 1 < |m| && m[pos] >= 192 && PointerAt(m, pos) == pos && hops <= 255 && t <= 255
    ensures Far(m, pos, hops, t) == None
    decreases 255 - hops
  {
    if hops < 255 {
      SelfPointerLoops(m, pos, hops + 1, t);
    }
  }

  lemma SelfPointerMalformed(m: seq<byte>, pos: nat, sz: nat)
    requires pos + 1 < |m| && m[pos] >= 192 && PointerAt(m, pos) == pos && sz >= 2
    ensures Near(m, pos, sz, 0) == Malformed
  {
    SelfPointerLoops(m, pos, 1, 0);
  }
}
