/** The in-place forms of add_rr (dns_answer.c) and rrs2cent (dns_query.c), proved against the
    functions of module Records. */
module RecordIO {
  import opened Names
  import opened Wrappers
  import opened Decompress
  import opened Compress
  import opened Records
  import opened RecordData

  /** Offset of the header in a dns_msg_t, after the length field used over TCP. */
  const DNSMSGHDROFFSET := 2

  const ALLOCCHUNKSIZE := 128

  datatype Section = Answer | Authority | Additional

  /** An answer being composed: the buffer behind *ans (from the header on), *sz, the three
      record counts of the header, and the compression list. */
  class DnsAnswer {
    var ans: array<byte>
    var sz: nat
    var ancount: nat
    var nscount: nat
    var arcount: nat
    const cb: CompressionList

    /** *allocsz: what has been allocated, the length field included. */
    function AllocSz(): nat
      reads this
    {
      ans.Length + DNSMSGHDROFFSET
    }

    ghost predicate Valid()
      reads this, ans, cb
    {
      && sz <= ans.Length && cb.Valid()
      && ancount < 0x1_0000 && nscount < 0x1_0000 && arcount < 0x1_0000  // 16-bit fields
    }

    ghost function Current(): Draft
      reads this, ans, cb
      requires Valid()
    {
      Draft(ans[..sz], cb.table)
    }

    /** memcpy into the buffer, which must have room for it. */
    method Store(at: nat, b: seq<byte>)
      requires at + |b| <= ans.Length
      modifies ans
      ensures ans[..at] == old(ans[..at]) && ans[at..at + |b|] == b
      ensures ans[at + |b|..] == old(ans[at + |b|..])
    {
      forall i | 0 <= i < |b| {
        ans[at + i] := b[i];
      }
    }

    /** Make room for newsz bytes, rounding up to a multiple of the chunk size. */
    method Reserve(newsz: nat, mem: bool) returns (ok: bool)
      requires sz <= ans.Length
      modifies this`ans
      ensures ok ==> newsz <= AllocSz() && (ans == old(ans) || fresh(ans))
      ensures ok ==> sz <= ans.Length && ans[..sz] == old(ans[..sz])
      ensures !ok ==> !mem && ans == old(ans)
    {
      ok := true;
      if newsz > AllocSz() {
        if !mem {
          return false;
        }
        var newallocsz := (newsz + ALLOCCHUNKSIZE - 1) / ALLOCCHUNKSIZE * ALLOCCHUNKSIZE;
        var newans := new byte[newallocsz - DNSMSGHDROFFSET];
        forall i | 0 <= i < sz {
          newans[i] := ans[i];
        }
        ans := newans;
      }
    }

    constructor (hdr: seq<byte>)
      requires |hdr| == 12
      ensures Valid() && fresh(ans) && fresh(cb)
      ensures Current() == Draft(hdr, []) && ancount == nscount == arcount == 0
    {
      cb := new CompressionList();
      ans := new byte[256 - DNSMSGHDROFFSET];
      sz, ancount, nscount, arcount := 12, 0, 0, 0;
      new;
      Store(0, hdr);
      assert ans[..12] == ans[0..12];
    }

    /** One step of a case of the switch: a fixed part is copied, a domain name compressed.
        Nothing gets longer. */
    method WritePiece(seg: Segment, data: seq<byte>, mem: bool, ghost p: Piece)
      returns (ok: bool, n: nat, blen: nat)
      requires Valid() && PieceFits(p, seg) && PieceFlat(p) <= data && (seg == Rest ==> PieceFlat(p) == data)
      requires sz + |PieceFlat(p)| <= ans.Length
      modifies this`sz, ans, cb
      ensures Valid() && old(sz) <= sz <= ans.Length && ans[..old(sz)] == old(ans[..sz])
      ensures !ok ==> !mem
      ensures ok ==> n == |PieceFlat(p)| && blen == sz - old(sz) <= n
      ensures ok ==> ans[old(sz)..sz] == PieceOut(p, old(cb.table))
      ensures ok ==> cb.table == PieceTable(p, old(sz), old(cb.table))
    {
      hide Emit, Grow;
      PieceNoLonger(p, cb.table);
      var out;
      if seg == Dom {
        n := RhnLen(data, p.ls);
        EmitNoLonger(p.ls, cb.table);
        out := cb.CompressName(data, sz, mem, p.ls);
        if |out| == 0 {
          return false, 0, 0;
        }
      } else {
        n := if seg.Fixed? then seg.n else if seg.CharString? then 1 + data[0] as int else |data|;
        out := data[..n];
      }
      PutOut(out);
      return true, n, |out|;
    }

    /** The switch of add_rr: the record data at *sz, which never takes more than |data|. */
    method WriteData(tp: nat, data: seq<byte>, mem: bool, ghost ps: seq<Piece>) returns (ok: bool, rdlen: nat)
      requires Valid() && Fits(ps, Layout(tp)) && Flat(ps) == data && sz + |data| <= ans.Length
      modifies this`sz, ans, cb
      ensures Valid() && old(sz) <= sz && ans[..old(sz)] == old(ans[..sz])
      ensures !ok ==> !mem
      ensures ok ==> ans[old(sz)..sz] == Rdata(ps, old(sz), old(cb.table)) && rdlen == sz - old(sz)
      ensures ok ==> GoesOut(tp, data, old(sz), old(cb.table), ans[old(sz)..sz])
      ensures ok ==> cb.table == RdataTable(ps, old(sz), old(cb.table))
    {
      hide PieceFits, PieceFlat, PieceOut, PieceTable, Layout, Rdata, RdataTable, Flat, Writing, GoesOut;
      GoesOutIs(tp, ps, sz, cb.table);
      var segs := Layout(tp);
      var i, ilen: nat := 0, 0;
      ghost var sz0, t0 := sz, cb.table;
      rdlen := 0;
      WritingStarts(ps, sz0, t0, data);
      assert ans[sz0..sz0] == [];
      while i < |segs|
        invariant i <= |segs| == |ps| && ilen <= |data| && rdlen <= ilen  // "got longer" cannot happen
        invariant Valid() && sz == sz0 + rdlen && ans == old(ans)
        invariant ans[..sz0] == old(ans[..sz]) && Writing(ps, i, sz0, t0, ans[sz0..sz], cb.table, data, ilen)
      {
        ghost var was := ans[..sz];
        WritingNext(ps, i, sz0, t0, ans[sz0..sz], cb.table, data, ilen);
        assert segs[i] == Rest ==> i + 1 == |ps|;
        var more := *;
        var done, n, blen := WritePiece(segs[i], data[ilen..], mem || more, ps[i]);
        OutLonger(ans[..], was, sz0, sz);
        if !done {
          return false, 0;
        }
        ilen, rdlen, i := ilen + n, rdlen + blen, i + 1;
      }
      WritingDone(ps, sz0, t0, ans[sz0..sz], cb.table, data, ilen);
      ok := true;
    }

    /** The first part of add_rr: the owner name, and room for everything that follows. */
    method WriteOwner(rrn: seq<byte>, dlen: nat, mem: bool, ghost owner: seq<Label>) returns (ok: bool)
      requires Valid() && Encode(owner) <= rrn && |Encode(owner)| <= DNSNAMEBUFSIZE
      modifies this`ans, this`sz, ans, cb
      ensures Valid() && (ans == old(ans) || fresh(ans))
      ensures !ok ==> !mem && sz == old(sz) && ans[..sz] == old(ans[..sz])
      ensures ok ==> ans[..sz] == old(ans[..sz]) + Emit(owner, old(cb.table)) && sz >= old(sz)
      ensures ok ==> sz + RRHDRSIZE + dlen <= ans.Length && cb.table == Grow(owner, old(sz), old(cb.table))
    {
      hide Emit, Grow, Encode;
      EmitNoLonger(owner, cb.table);
      var more := *;
      var nbuf := cb.CompressName(rrn, sz, mem || more, owner);
      if |nbuf| == 0 {
        return false;
      }
      more := *;
      ok := Reserve(DNSMSGHDROFFSET + sz + |nbuf| + RRHDRSIZE + dlen, mem || more);
      if !ok {
        return false;
      }
      PutOut(nbuf);
    }

    /** memcpy to the end of the message. */
    method PutOut(b: seq<byte>)
      requires Valid() && sz + |b| <= ans.Length
      modifies this`sz, ans
      ensures Valid() && sz == old(sz) + |b| && ans[..sz] == old(ans[..sz]) + b
      ensures ans[..old(sz)] == old(ans[..sz]) && ans[old(sz)..sz] == b
    {
      Store(sz, b);
      OutLonger(ans[..], ans[..sz], 0, sz + |b|);
      sz := sz + |b|;
    }

    /** add_rr up to the record data, with the record header still to be filled in at rrht. */
    method WriteRecord(rrn: seq<byte>, tp: nat, data: seq<byte>, mem: bool, ghost r: Record)
        returns (ok: bool, rrht: nat, rdlen: nat)
      requires Valid() && Encode(r.owner) <= rrn && |Encode(r.owner)| <= DNSNAMEBUFSIZE
      requires tp == r.tp && data == Flat(r.data) && Fits(r.data, Layout(tp))
      modifies this`ans, this`sz, ans, cb
      ensures Valid() && (ans == old(ans) || fresh(ans))
      ensures old(sz) <= sz && ans[..old(sz)] == old(ans[..sz])
      ensures !ok ==> !mem
      ensures ok ==> old(sz) <= rrht && rrht + RRHDRSIZE + rdlen == sz
      ensures ok ==> ans[..rrht] == old(ans[..sz]) + Emit(r.owner, old(cb.table))
      ensures ok ==> var t := Grow(r.owner, old(sz), old(cb.table));
        && ans[rrht + RRHDRSIZE..sz] == Rdata(r.data, rrht + RRHDRSIZE, t)
        && cb.table == RdataTable(r.data, rrht + RRHDRSIZE, t)
    {
      hide Emit, Grow, Encode, Layout, Rdata, RdataTable, Header, Flat, Fits;
      ghost var was := ans[..sz];
      var more := *;
      ok := WriteOwner(rrn, |data|, mem || more, r.owner);
      rrht, rdlen := sz, 0;
      if !ok {
        return;
      }
      ghost var owned := ans[..rrht];
      sz := sz + RRHDRSIZE;
      ghost var begun := ans[..sz];
      TakeTake(ans[..], sz, rrht);
      more := *;
      ok, rdlen := WriteData(tp, data, mem || more, r.data);
      TakeTake(ans[..], |begun|, rrht);
      TakeTake(ans[..], rrht, |was|);
      TakeTake(owned, |owned|, |was|);
    }

    /** add_rr. Each allocation may fail by itself; with `mem` none does. The record is then
        committed, or taken back when it is an additional one that would exceed the size allowed
        over UDP. On failure the message so far is still there, and no count has changed. */
    method AddRr(rrn: seq<byte>, tp: nat, ttl: nat, data: seq<byte>, section: Section, udp: Option<nat>, mem: bool,
                 ghost r: Record) returns (ok: bool)
      requires Valid() && Encode(r.owner) <= rrn && |Encode(r.owner)| <= DNSNAMEBUFSIZE
      requires tp == r.tp && ttl == r.ttl && data == Flat(r.data) && Fits(r.data, Layout(tp))
      modifies this, ans, cb
      ensures Valid() && (ans == old(ans) || fresh(ans))
      ensures !ok ==> !mem && old(sz) <= sz && ans[..old(sz)] == old(ans[..sz])
      ensures !ok ==> unchanged(`ancount) && unchanged(`nscount) && unchanged(`arcount)
      ensures ok ==>
                var d := old(Current());
                var kept := udp.None? || section != Additional || |AddRecord(d, r).msg| <= udp.value;
                && Current() == (if kept then AddRecord(d, r) else TakenBack(d, r))
                && ancount == (old(ancount) + if kept && section == Answer then 1 else 0) % 0x1_0000
                && nscount == (old(nscount) + if kept && section == Authority then 1 else 0) % 0x1_0000
                && arcount == (old(arcount) + if kept && section == Additional then 1 else 0) % 0x1_0000
    {
      hide Emit, Grow, Encode, Layout, Rdata, RdataTable, Header, Flat, Fits, AddRecord, TableAfter;
      var osz := sz;
      ghost var d := Current();
      var rrht, rdlen;
      ok, rrht, rdlen := WriteRecord(rrn, tp, data, mem, r);
      if !ok {
        return false;
      }
      AddedIs(d, r, ans[..rrht], ans[rrht + RRHDRSIZE..sz], cb.table);
      if udp.Some? && sz > udp.value && section == Additional {
        sz := osz;
      } else {
        Commit(rrht, tp, ttl, rdlen, section);
      }
    }

    /** The end of add_rr for a record that is kept: header fields and section count. */
    method Commit(rrht: nat, tp: nat, ttl: nat, rdlen: nat, section: Section)
      requires Valid() && rrht + RRHDRSIZE <= sz
      modifies this`ancount, this`nscount, this`arcount, ans
      ensures Valid()
      ensures ans[..sz] == old(ans[..rrht]) + Header(tp, ttl, rdlen) + old(ans[rrht + RRHDRSIZE..sz])
      ensures ancount == (old(ancount) + if section == Answer then 1 else 0) % 0x1_0000
      ensures nscount == (old(nscount) + if section == Authority then 1 else 0) % 0x1_0000
      ensures arcount == (old(arcount) + if section == Additional then 1 else 0) % 0x1_0000
    {
      hide Header;
      ghost var was := ans[..];
      HeaderSize(tp, ttl, rdlen);
      Store(rrht, Header(tp, ttl, rdlen));
      Filled(ans[..], was, rrht, Header(tp, ttl, rdlen), sz);
      CountUp(section);
    }

    method CountUp(section: Section)
      modifies this`ancount, this`nscount, this`arcount
      ensures ancount == if section == Answer then (old(ancount) + 1) % 0x1_0000 else old(ancount)
      ensures nscount == if section == Authority then (old(nscount) + 1) % 0x1_0000 else old(nscount)
      ensures arcount == if section == Additional then (old(arcount) + 1) % 0x1_0000 else old(arcount)
    {
      match section
      case Answer => ancount := (ancount + 1) % 0x1_0000;
      case Authority => nscount := (nscount + 1) % 0x1_0000;
      case Additional => arcount := (arcount + 1) % 0x1_0000;
    }
  }

  // ---------- reading ----------

  /** One decompress_name call of rrs2cent on record data: the expanded bytes. */
  method ReadName(msg: seq<byte>, pos: nat, sz: nat) returns (rc: Rc, pos': nat, sz': nat, name: seq<byte>)
    ensures rc == RcOf(Near(msg, pos, sz, 0))
    ensures rc == RC_OK ==>
              var o := Near(msg, pos, sz, 0);
              pos' == pos + o.used && sz' + o.used == sz && name == Encode(o.labels)
  {
    var db := new byte[DNSNAMEBUFSIZE];
    var len;
    rc, pos', sz', len := DecompressName(msg, pos, sz, db);
    name := [];
    if rc == RC_OK {
      name := db[..len];
    }
  }

  /** The first i pieces have been written: out and the list t are what has come of them, and
      ilen bytes of the stored data have been used. */
  ghost predicate Writing(ps: seq<Piece>, i: nat, at: nat, t0: seq<Entry>, out: seq<byte>, t: seq<Entry>,
      data: seq<byte>, ilen: nat)
  {
    && i <= |ps| && ilen <= |data| && Flat(ps[i..]) == data[ilen..]
    && Rdata(ps, at, t0) == out + Rdata(ps[i..], at + |out|, t)
    && RdataTable(ps, at, t0) == RdataTable(ps[i..], at + |out|, t)
  }

  lemma WritingStarts(ps: seq<Piece>, at: nat, t: seq<Entry>, data: seq<byte>)
    requires Flat(ps) == data
    ensures Writing(ps, 0, at, t, [], t, data, 0)
  {
    assert ps[0..] == ps && [] + Rdata(ps, at, t) == Rdata(ps, at, t);
  }

  lemma WritingNext(ps: seq<Piece>, i: nat, at: nat, t0: seq<Entry>, out: seq<byte>, t: seq<Entry>,
      data: seq<byte>, ilen: nat)
    requires Writing(ps, i, at, t0, out, t, data, ilen) && i < |ps|
    ensures PieceFlat(ps[i]) <= data[ilen..] && (i + 1 == |ps| ==> PieceFlat(ps[i]) == data[ilen..])
    ensures var at' := at + |out|;
      Writing(ps, i + 1, at, t0, out + PieceOut(ps[i], t), PieceTable(ps[i], at', t), data, ilen + |PieceFlat(ps[i])|)
  {
    hide PieceOut, PieceTable, PieceFlat;
    assert ps[i..][1..] == ps[i + 1..] && ps[i..][0] == ps[i];
    var flat, rest := PieceFlat(ps[i]), Flat(ps[i + 1..]);
    assert data[ilen..] == flat + rest;
    assert data[ilen + |flat|..] == data[ilen..][|flat|..] == rest;
    var p, at' := PieceOut(ps[i], t), at + |out|;
    var r := Rdata(ps[i + 1..], at' + |p|, PieceTable(ps[i], at', t));
    assert out + (p + r) == (out + p) + r;
  }

  lemma WritingDone(ps: seq<Piece>, at: nat, t0: seq<Entry>, out: seq<byte>, t: seq<Entry>, data: seq<byte>,
      ilen: nat)
    requires Writing(ps, |ps|, at, t0, out, t, data, ilen)
    ensures Rdata(ps, at, t0) == out && RdataTable(ps, at, t0) == t
  {
  }

  /** What has been put out from n on, with more behind it. */
  lemma OutLonger(s: seq<byte>, was: seq<byte>, n: nat, m: nat)
    requires n <= |was| <= m <= |s| && s[..|was|] == was
    ensures s[..n] == was[..n] && s[n..m] == was[n..] + s[|was|..m]
  {
  }

  /** b was written over what was at `at`. */
  lemma Filled(s: seq<byte>, was: seq<byte>, at: nat, b: seq<byte>, n: nat)
    requires |s| == |was| && at + |b| <= n <= |s| && s[..at] == was[..at] && s[at..at + |b|] == b
    requires s[at + |b|..] == was[at + |b|..]
    ensures s[..n] == was[..at] + b + was[at + |b|..n]
  {
    assert s[at + |b|..n] == s[at + |b|..][..n - at - |b|];
    assert was[at + |b|..n] == was[at + |b|..][..n - at - |b|];
    assert s[..n] == s[..at] + s[at..at + |b|] + s[at + |b|..n];
  }

  lemma TakeTake(s: seq<byte>, n: nat, m: nat)
    requires m <= n <= |s|
    ensures s[..n][..m] == s[..m]
  {
  }

  lemma HeaderSize(tp: nat, ttl: nat, rdlen: nat)
    ensures |Header(tp, ttl, rdlen)| == RRHDRSIZE
  {
  }

  lemma NoFlat()
    ensures Flat([]) == []
  {
  }

  lemma FlatCons(p: Piece, ps: seq<Piece>)
    ensures Flat([p] + ps) == PieceFlat(p) + Flat(ps)
  {
    assert ([p] + ps)[1..] == ps;
  }

  lemma {:induction false} FlatConcat(a: seq<Piece>, b: seq<Piece>)
    ensures Flat(a + b) == Flat(a) + Flat(b)
  {
    hide Flat, PieceFlat;
    if a == [] {
      NoFlat();
      assert a + b == b && [] + Flat(b) == Flat(b);
    } else {
      FlatConcat(a[1..], b);
      FlatCons(a[0], a[1..]);
      FlatCons(a[0], a[1..] + b);
      assert a == [a[0]] + a[1..] && a + b == [a[0]] + (a[1..] + b);
      var p, q, r := PieceFlat(a[0]), Flat(a[1..]), Flat(b);
      assert p + (q + r) == (p + q) + r;
    }
  }

  method ReadDom(msg: seq<byte>, segs: seq<Segment>, pos: nat, blcnt: nat)
    returns (ok: bool, n: nat, chunk: seq<byte>, ghost p: Piece)
    requires pos + blcnt <= |msg| && segs != [] && segs[0] == Dom
    ensures n <= blcnt && chunk == PieceFlat(p)
    ensures ParsePieces(msg, segs, pos, blcnt) ==
            if ok then Put([p], ParsePieces(msg, segs[1..], pos + n, blcnt - n)) else None
  {
    hide Near, Encode;
    ok, n, chunk, p := false, 0, [], Bytes([]);
    var rc, pos', left, name := ReadName(msg, pos, blcnt);
    if rc == RC_OK {
      ok, n, chunk, p := true, blcnt - left, name, Nam(Near(msg, pos, blcnt, 0).labels);
    }
  }

  /** One part of the record data: how much of it is consumed, and its stored form. */
  method ReadPiece(msg: seq<byte>, segs: seq<Segment>, pos: nat, blcnt: nat)
    returns (ok: bool, n: nat, chunk: seq<byte>, ghost p: Piece)
    requires pos + blcnt <= |msg| && segs != [] && (segs[0] == Rest ==> |segs| == 1)
    ensures n <= blcnt && chunk == PieceFlat(p)
    ensures ParsePieces(msg, segs, pos, blcnt) ==
            if ok then Put([p], ParsePieces(msg, segs[1..], pos + n, blcnt - n)) else None
  {
    hide Near, Encode;
    ok, n, chunk, p := false, 0, [], Bytes([]);
    match segs[0]
    case Dom =>
      ok, n, chunk, p := ReadDom(msg, segs, pos, blcnt);
    case Fixed(len) =>
      if blcnt >= len {
        ok, n, chunk := true, len, msg[pos..pos + len];
        p := Bytes(chunk);
      }
    case CharString =>
      if blcnt > 0 && blcnt >= 1 + msg[pos] as int {
        ok, n := true, 1 + msg[pos] as int;
        chunk := msg[pos..pos + n];
        p := Bytes(chunk);
      }
    case Rest =>
      ok, n, chunk := true, blcnt, msg[pos..pos + blcnt];
      p := Bytes(chunk);
      assert segs[1..] == [] && [p] + [] == [p];
  }

  /** The cases of the switch that follow the layout of the type. */
  method ReadPieces(msg: seq<byte>, segs: seq<Segment>, pos: nat, blcnt: nat) returns (data: Option<seq<byte>>)
    requires pos + blcnt <= |msg|
    requires forall i :: 0 <= i < |segs| ==> segs[i] == Rest ==> i == |segs| - 1
    ensures data == FlatOf(ParsePieces(msg, segs, pos, blcnt))
  {
    hide PieceFlat, ParsePieces;
    var db: seq<byte> := [];
    var bptr, left, i := pos, blcnt, 0;
    ghost var ps: seq<Piece> := [];
    ghost var goal := ParsePieces(msg, segs, pos, blcnt);
    PutNothing(goal);
    assert segs[0..] == segs;
    while i < |segs|
      invariant 0 <= i <= |segs| && bptr >= 0 && left >= 0 && bptr + left == pos + blcnt
      invariant db == Flat(ps) && goal == Put(ps, ParsePieces(msg, segs[i..], bptr, left))
      decreases |segs| - i
    {
      assert segs[i..][1..] == segs[i + 1..] && segs[i..][0] == segs[i];
      var ok, n, chunk, p := ReadPiece(msg, segs[i..], bptr, left);
      if !ok {
        return None;
      }
      FlatSnoc(ps, p);
      PutTwice(ps, p, ParsePieces(msg, segs[i + 1..], bptr + n, left - n));
      ps := ps + [p];
      db, bptr, left, i := db + chunk, bptr + n, left - n, i + 1;
    }
    PiecesEnd(msg, segs[i..], bptr, left);
    PutNothing(Some(ps));
    data := if left == 0 then Some(db) else None;
  }

  lemma PiecesEnd(msg: seq<byte>, segs: seq<Segment>, pos: nat, left: nat)
    requires pos + left <= |msg| && segs == []
    ensures ParsePieces(msg, segs, pos, left) == if left == 0 then Some([]) else None
  {
  }

  lemma FlatSnoc(ps: seq<Piece>, p: Piece)
    ensures Flat(ps + [p]) == Flat(ps) + PieceFlat(p)
  {
    FlatConcat(ps, [p]);
    assert Flat([p]) == PieceFlat(p) + [];
  }

  lemma PutNothing(o: Option<seq<Piece>>)
    ensures Put([], o) == o
    ensures o.Some? ==> Put(o.value, Some([])) == o
  {
    if o.Some? {
      assert [] + o.value == o.value == o.value + [];
    }
  }

  lemma PutTwice(ps: seq<Piece>, p: Piece, o: Option<seq<Piece>>)
    ensures Put(ps, Put([p], o)) == Put(ps + [p], o)
  {
    if o.Some? {
      assert ps + ([p] + o.value) == ps + [p] + o.value;
    }
  }

  /** The cases IPSECKEY, RRSIG and NSEC: a name that is expanded only if it is not plain. */
  method ReadSealed(msg: seq<byte>, tp: nat, pos: nat, rdlen: nat) returns (data: Option<seq<byte>>)
    requires pos + rdlen <= |msg| && tp in {T_IPSECKEY, T_RRSIG, T_NSEC}
    ensures data == if KeptWhole(tp, msg[pos..pos + rdlen]) then Some(msg[pos..pos + rdlen])
                    else FlatOf(ParseCompressed(msg, tp, pos, rdlen))
  {
    hide Near, Encode;
    var n := NameStart(tp);
    var whole := msg[pos..pos + rdlen];
    if rdlen < n {
      return None;
    }
    if tp == T_IPSECKEY {
      var gwtp := whole[1];
      assert whole[1] == msg[pos + 1];
      if gwtp != 3 {
        if gwtp == 0 || (gwtp == 1 && rdlen - n >= 4) || (gwtp == 2 && rdlen - n >= 16) {
          return Some(whole);
        }
        return None;
      }
    }
    var normal := IsNormalEncDomName(whole[n..]);
    if normal {
      return Some(whole);
    }
    var rc, pos', left, name := ReadName(msg, pos + n, rdlen - n);
    if rc != RC_OK {
      return None;
    }
    ghost var ls := Near(msg, pos + n, rdlen - n, 0).labels;
    ThreePieces(msg[pos..pos + n], ls, msg[pos'..pos + rdlen]);
    data := Some(msg[pos..pos + n] + name + msg[pos'..pos + rdlen]);
  }

  /** The whole switch of rrs2cent: the data as stored, or nothing for RC_FORMAT. */
  method ReadData(msg: seq<byte>, tp: nat, pos: nat, rdlen: nat) returns (data: Option<seq<byte>>)
    requires pos + rdlen <= |msg|
    ensures data == FlatOf(ParseData(msg, tp, pos, rdlen))
    ensures DataRead(msg, tp, pos, pos + rdlen, data)
  {
    hide Near, KeptWhole, ParseCompressed, DataRead;
    ReadIs(msg, tp, pos, pos + rdlen);
    if (tp == T_A && rdlen != 4) || (tp == T_AAAA && rdlen != 16) {
      return None;
    }
    if tp in {T_IPSECKEY, T_RRSIG, T_NSEC} {
      data := ReadSealed(msg, tp, pos, rdlen);
      var whole := msg[pos..pos + rdlen];
      assert Flat([Bytes(whole)]) == whole by {
        assert [Bytes(whole)][1..] == [] && whole + [] == whole;
      }
      return;
    }
    data := ReadPieces(msg, Layout(tp), pos, rdlen);
    if data.Some? && tp == T_NXT && |data.value| > 1040 {
      return None;
    }
  }

  /** The arguments of one rr_to_cache call. */
  datatype Stored = Stored(owner: seq<byte>, tp: nat, ttl: nat, data: seq<byte>)

  function StoredAll(rs: seq<Record>): seq<Stored> {
    if rs == [] then []
    else [Stored(Encode(rs[0].owner), rs[0].tp, rs[0].ttl, Flat(rs[0].data))] + StoredAll(rs[1..])
  }

  datatype Turn = Stop(rc: Rc) | Pass(used: nat) | Take(used: nat, stored: Stored)

  /** What a turn of the loop amounts to for a parse of one record. */
  ghost function TurnOf(o: Parsed): Turn {
    match o
    case Bad(rc) => Stop(rc)
    case Skipped(used) => Pass(used)
    case Got(r, used) => Take(used, Stored(Encode(r.owner), r.tp, r.ttl, Flat(r.data)))
  }

  /** One turn of the loop of rrs2cent. */
  method ReadRecord(msg: seq<byte>, pos: nat, lcnt: nat) returns (t: Turn)
    requires pos + lcnt <= |msg|
    ensures t == TurnOf(ParseRecord(msg, pos, lcnt))
  {
    hide Near, Encode, ParseData, Flat, Cached;
    var rc, p, left, oname := ReadName(msg, pos, lcnt);
    if rc != RC_OK {
      return Stop(rc);
    }
    if left < RRHDRSIZE {
      return Stop(RC_TRUNC);
    }
    var tp, cl, ttl, rdlen := Get16(msg, p), Get16(msg, p + 2), Get32(msg, p + 4), Get16(msg, p + 8);
    left := left - RRHDRSIZE;
    if left < rdlen {
      return Stop(RC_TRUNC);
    }
    var used := lcnt - left + rdlen;
    if !Cached(tp) || cl != C_IN {
      return Pass(used);
    }
    var data := ReadData(msg, tp, p + RRHDRSIZE, rdlen);
    if data.None? {
      return Stop(RC_FORMAT);
    }
    t := Take(used, Stored(oname, tp, ttl, data.value));
  }

  /** rrs2cent: decode recnum records; the code, where reading ended, and in order the records
      handed to rr_to_cache. */
  method Rrs2Cent(msg: seq<byte>, start: nat, size: nat, recnum: nat)
    returns (rc: Rc, ptr: nat, lcnt: nat, stored: seq<Stored>)
    requires start + size <= |msg|
    ensures match ParseAll(msg, start, size, recnum)
            case Ok(rs, p, l) => rc == RC_OK && ptr == p && lcnt == l && stored == StoredAll(rs)
            case Err(code) => rc == code
  {
    hide ParseRecord, Encode, Flat;
    ptr, lcnt, stored := start, size, [];
    ghost var done: seq<Record> := [];
    ghost var goal := ParseAll(msg, start, size, recnum);
    JoinNothing(goal);
    for i := 0 to recnum
      invariant ptr + lcnt <= |msg| && stored == StoredAll(done)
      invariant goal == Join(done, ParseAll(msg, ptr, lcnt, recnum - i))
    {
      ParseFits(msg, ptr, lcnt);
      ghost var o := ParseRecord(msg, ptr, lcnt);
      var t := ReadRecord(msg, ptr, lcnt);
      match t
      case Stop(code) =>
        return code, ptr, lcnt, stored;
      case Pass(used) =>
        ptr, lcnt := ptr + used, lcnt - used;
      case Take(used, s) =>
        ptr, lcnt := ptr + used, lcnt - used;
        StoredSnoc(done, o.r);
        JoinTwice(done, o.r, ParseAll(msg, ptr, lcnt, recnum - i - 1));
        done, stored := done + [o.r], stored + [s];
    }
    assert done + [] == done;
    rc := RC_OK;
  }

  ghost function Join(rs: seq<Record>, o: Result): Result {
    if o.Ok? then Ok(rs + o.rs, o.pos, o.lcnt) else o
  }

  lemma JoinNothing(o: Result)
    ensures Join([], o) == o
  {
    if o.Ok? {
      assert [] + o.rs == o.rs;
    }
  }

  lemma JoinTwice(rs: seq<Record>, r: Record, o: Result)
    ensures Join(rs, Join([r], o)) == Join(rs + [r], o)
  {
    if o.Ok? {
      assert rs + ([r] + o.rs) == rs + [r] + o.rs;
    }
  }

  lemma {:induction false} StoredSnoc(rs: seq<Record>, r: Record)
    ensures StoredAll(rs + [r]) == StoredAll(rs) + [Stored(Encode(r.owner), r.tp, r.ttl, Flat(r.data))]
  {
    hide Encode, Flat;
    if rs == [] {
      assert [] + [r] == [r] && [r][1..] == [];
    } else {
      StoredSnoc(rs[1..], r);
      assert (rs + [r])[0] == rs[0] && (rs + [r])[1..] == rs[1..] + [r];
    }
  }
}
