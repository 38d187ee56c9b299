/** decompress_name of dns.c: expanding a possibly compressed name found in a message.
    Section 4.1.4 of RFC 1035 gives the meaning of a compressed name. */
module Decompress {
  import opened Names
  import opened Wrappers

  datatype Rc = RC_OK | RC_FORMAT | RC_TRUNC

  // ---------- meaning ----------

  /** The offset stored in the two bytes of a compression pointer. */
  function PointerAt(msg: seq<byte>, pos: nat): nat
    requires pos + 1 < |msg|
  {
    (msg[pos] % 64) as int * 256 + msg[pos + 1] as int
  }

  /** Section 4.1.4 of RFC 1035 as a relation: the bytes at pos stand for the labels ls, and
      reading them follows exactly `hops` pointers. */
  ghost predicate Denotes(msg: seq<byte>, pos: nat, ls: seq<Label>, hops: nat)
    decreases hops, |ls|
  {
    && pos < |msg|
    && var lb := msg[pos] as int;
       if lb == 0 then
         ls == [] && hops == 0
       else if lb <= 63 then
         && |ls| > 0 && pos + 1 + lb <= |msg|
         && msg[pos + 1..pos + 1 + lb] == ls[0]
         && Denotes(msg, pos + 1 + lb, ls[1..], hops)
       else
         192 <= lb && hops > 0 && pos + 1 < |msg| && Denotes(msg, PointerAt(msg, pos), ls, hops - 1)
  }

  /** How many bytes a name occupies where it stands. */
  function InPlaceLen(msg: seq<byte>, pos: nat): nat
    decreases |msg| - pos
  {
    if pos >= |msg| then 0
    else if msg[pos] == 0 then 1
    else if msg[pos] > 63 then 2
    else 1 + msg[pos] as int + InPlaceLen(msg, pos + 1 + msg[pos] as int)
  }

  /** A message position means at most one name. */
  lemma {:induction false} DenotesUnique(msg: seq<byte>, pos: nat, a: seq<Label>, g: nat, b: seq<Label>, h: nat)
    requires Denotes(msg, pos, a, g) && Denotes(msg, pos, b, h)
    ensures a == b && g == h
    decreases g, |a|
  {
    var lb := msg[pos] as int;
    if lb == 0 {
    } else if lb <= 63 {
      DenotesUnique(msg, pos + 1 + lb, a[1..], g, b[1..], h);
      assert a == [a[0]] + a[1..] && b == [b[0]] + b[1..];
    } else {
      DenotesUnique(msg, PointerAt(msg, pos), a, g - 1, b, h - 1);
    }
  }

  // ---------- specification of the algorithm ----------

  datatype Outcome = Name(labels: seq<Label>, used: nat) | Truncated | Malformed

  function LabelAt(msg: seq<byte>, pos: nat): Label
    requires pos < |msg| && 1 <= msg[pos] <= 63 && pos + 1 + msg[pos] as int <= |msg|
  {
    msg[pos + 1..pos + 1 + msg[pos] as int]
  }

  function After(ls: seq<Label>, o: Option<seq<Label>>): Option<seq<Label>> {
    if o.Some? then Some(ls + o.value) else None
  }

  /** The second loop: reading on at pos after `hops` jumps, with t bytes already written. */
  function Far(msg: seq<byte>, pos: nat, hops: nat, t: nat): Option<seq<Label>>
    requires pos < |msg| && hops <= 255 && t <= 255
    decreases 255 - hops, 255 - t
  {
    var lb := msg[pos] as int;
    if lb > 63 then
      if lb < 192 || pos + 1 >= |msg| || hops + 1 > 255 || PointerAt(msg, pos) >= |msg| then None
      else Far(msg, PointerAt(msg, pos), hops + 1, t)
    else if lb == 0 then Some([])
    else if pos + 1 + lb >= |msg| || t + 1 + lb > DNSNAMEBUFSIZE - 1 then None
    else
      After([LabelAt(msg, pos)], Far(msg, pos + 1 + lb, hops, t + 1 + lb))
  }

  /** The first loop: reading at pos with sz bytes of the data field left. */
  function Near(msg: seq<byte>, pos: nat, sz: nat, t: nat): Outcome
    requires t <= 255
    decreases sz
  {
    if sz == 0 then Truncated
    else if pos >= |msg| then Malformed
    else
      var lb := msg[pos] as int;
      if lb > 63 then
        if lb < 192 then Malformed
        else if sz == 1 then Truncated
        else if pos + 1 >= |msg| || PointerAt(msg, pos) >= |msg| then Malformed
        else
          match Far(msg, PointerAt(msg, pos), 1, t)
          case None => Malformed
          case Some(ls) => Name(ls, 2)
      else if lb == 0 then Name([], 1)
      else if sz - 1 <= lb then Truncated
      else if pos + 1 + lb >= |msg| || t + 1 + lb > DNSNAMEBUFSIZE - 1 then Malformed
      else Prepend([LabelAt(msg, pos)], 1 + lb, Near(msg, pos + 1 + lb, sz - 1 - lb, t + 1 + lb))
  }

  function Prepend(ls: seq<Label>, n: nat, o: Outcome): Outcome {
    if o.Name? then Name(ls + o.labels, n + o.used) else o
  }

  // ---------- the algorithm computes the meaning ----------

  lemma LitsCons(l: Label, ls: seq<Label>)
    ensures |Lits([l] + ls)| == 1 + |l| + |Lits(ls)|
  {
    LitsConcat([l], ls);
    assert Lits([l]) == [|l|] + l;
  }

  lemma {:induction false} FarSound(msg: seq<byte>, pos: nat, hops: nat, t: nat) returns (h: nat)
    requires pos < |msg| && hops <= 255 && t <= 255
    requires Far(msg, pos, hops, t).Some?
    ensures hops + h <= 255 && Denotes(msg, pos, Far(msg, pos, hops, t).value, h)
    ensures t + |Lits(Far(msg, pos, hops, t).value)| <= 255
    decreases 255 - hops, 255 - t
  {
    var lb := msg[pos] as int;
    var ls := Far(msg, pos, hops, t).value;
    if lb > 63 {
      h := FarSound(msg, PointerAt(msg, pos), hops + 1, t);
      h := h + 1;
    } else if lb == 0 {
      h := 0;
    } else {
      h := FarSound(msg, pos + 1 + lb, hops, t + 1 + lb);
      var rest := Far(msg, pos + 1 + lb, hops, t + 1 + lb).value;
      LitsCons(LabelAt(msg, pos), rest);
      assert ls[1..] == rest;
    }
  }

  lemma {:induction false} FarComplete(msg: seq<byte>, pos: nat, hops: nat, t: nat, ls: seq<Label>, h: nat)
    requires Denotes(msg, pos, ls, h) && hops + h <= 255 && t + |Lits(ls)| <= 255
    ensures Far(msg, pos, hops, t) == Some(ls)
    decreases h, |ls|
  {
    var lb := msg[pos] as int;
    if lb > 63 {
      FarComplete(msg, PointerAt(msg, pos), hops + 1, t, ls, h - 1);
    } else if lb > 0 {
      assert ls == [ls[0]] + ls[1..];
      LitsCons(ls[0], ls[1..]);
      FarComplete(msg, pos + 1 + lb, hops, t + 1 + lb, ls[1..], h);
    }
  }

  lemma {:induction false} NearSound(msg: seq<byte>, pos: nat, sz: nat, t: nat) returns (h: nat)
    requires t <= 255 && Near(msg, pos, sz, t).Name?
    ensures h <= 255 && Denotes(msg, pos, Near(msg, pos, sz, t).labels, h)
    ensures t + |Lits(Near(msg, pos, sz, t).labels)| <= 255
    ensures Near(msg, pos, sz, t).used == InPlaceLen(msg, pos) <= sz
    decreases sz
  {
    var lb := msg[pos] as int;
    var ls := Near(msg, pos, sz, t).labels;
    if lb > 63 {
      h := FarSound(msg, PointerAt(msg, pos), 1, t);
      h := h + 1;
    } else if lb == 0 {
      h := 0;
    } else {
      h := NearSound(msg, pos + 1 + lb, sz - 1 - lb, t + 1 + lb);
      var rest := Near(msg, pos + 1 + lb, sz - 1 - lb, t + 1 + lb).labels;
      LitsCons(LabelAt(msg, pos), rest);
      assert ls[1..] == rest;
    }
  }

  lemma {:induction false} NearComplete(msg: seq<byte>, pos: nat, sz: nat, t: nat, ls: seq<Label>, h: nat)
    requires Denotes(msg, pos, ls, h) && h <= 255 && t + |Lits(ls)| <= 255
    requires InPlaceLen(msg, pos) <= sz
    ensures Near(msg, pos, sz, t) == Name(ls, InPlaceLen(msg, pos))
    decreases |ls|
  {
    var lb := msg[pos] as int;
    if lb > 63 {
      FarComplete(msg, PointerAt(msg, pos), 1, t, ls, h - 1);
    } else if lb > 0 {
      assert ls == [ls[0]] + ls[1..];
      LitsCons(ls[0], ls[1..]);
      NearComplete(msg, pos + 1 + lb, sz - 1 - lb, t + 1 + lb, ls[1..], h);
    }
  }

  /** The name at pos is accepted exactly when it means something there within 255 pointers,
      fits a name buffer, and ends inside the data field. */
  ghost predicate Acceptable(msg: seq<byte>, pos: nat, sz: nat, ls: seq<Label>) {
    && (exists h :: h <= 255 && Denotes(msg, pos, ls, h))
    && |Encode(ls)| <= DNSNAMEBUFSIZE
    && InPlaceLen(msg, pos) <= sz
  }

  lemma NearIsMeaning(msg: seq<byte>, pos: nat, sz: nat, ls: seq<Label>, used: nat)
    ensures Near(msg, pos, sz, 0) == Name(ls, used) <==>
            Acceptable(msg, pos, sz, ls) && used == InPlaceLen(msg, pos)
  {
    if Near(msg, pos, sz, 0) == Name(ls, used) {
      var h := NearSound(msg, pos, sz, 0);
    }
    if Acceptable(msg, pos, sz, ls) && used == InPlaceLen(msg, pos) {
      var h :| h <= 255 && Denotes(msg, pos, ls, h);
      NearComplete(msg, pos, sz, 0, ls, h);
    }
  }

  // ---------- the algorithm ----------

  /** The do-while loops that copy the bytes of the label whose length byte is at `at`. */
  method CopyLabel(msg: seq<byte>, at: nat, tgt: array<byte>, tpos: nat, ghost ls: seq<Label>)
    requires at < |msg| && 1 <= msg[at] <= 63 && at + 1 + msg[at] as int <= |msg|
    requires tpos + msg[at] as int <= tgt.Length
    requires tgt[..tpos] == Lits(ls) + [msg[at]]
    modifies tgt
    ensures tgt[..tpos + msg[at] as int] == Lits(ls + [LabelAt(msg, at)])
  {
    hide Lits;
    var n: nat := 0;
    var len := msg[at] as int;
    ghost var start := tgt[..tpos];
    while n < len
      invariant n <= len
      invariant forall x :: 0 <= x < tpos ==> tgt[x] == start[x]
      invariant forall x :: tpos <= x < tpos + n ==> tgt[x] == msg[at + 1 + (x - tpos)]
    {
      tgt[tpos + n] := msg[at + 1 + n];
      n := n + 1;
    }
    assert tgt[..tpos + len] == start + LabelAt(msg, at);
    AppendLabel(ls, LabelAt(msg, at));
  }

  /** The inner while loop after the label `jumped`: follow pointers until a label or the end. */
  method FollowPointers(msg: seq<byte>, start: nat, hops0: nat, ghost t: nat)
    returns (ok: bool, at: nat, hops: nat)
    requires start < |msg| && 1 <= hops0 <= 255 && t <= 255
    ensures !ok ==> Far(msg, start, hops0, t) == None
    ensures ok ==> at < |msg| && msg[at] <= 63 && 1 <= hops <= 255
    ensures ok ==> Far(msg, start, hops0, t) == Far(msg, at, hops, t)
    ensures ok ==> hops > hops0 || (hops == hops0 && at == start)
  {
    at, hops := start, hops0;
    while msg[at] > 63
      invariant at < |msg| && 1 <= hops <= 255
      invariant Far(msg, start, hops0, t) == Far(msg, at, hops, t)
      invariant hops > hops0 || (hops == hops0 && at == start)
      decreases 255 - hops
    {
      if msg[at] < 192 || at + 1 >= |msg| {
        return false, at, hops;
      }
      hops := hops + 1;
      if hops > 255 {
        return false, at, hops;
      }
      var offs := (msg[at] % 64) as int * 256 + msg[at + 1] as int;
      if offs >= |msg| {
        return false, at, hops;
      }
      at := offs;
    }
    ok := true;
  }

  /** The part of decompress_name after the label `jumped`. */
  method DecompressJumped(msg: seq<byte>, start: nat, tgt: array<byte>, tpos0: nat, ghost written: seq<Label>)
    returns (ok: bool, tpos: nat)
    requires start < |msg| && tpos0 <= 255 && tgt.Length >= DNSNAMEBUFSIZE
    requires tgt[..tpos0] == Lits(written)
    modifies tgt
    ensures ok <==> Far(msg, start, 1, tpos0).Some?
    ensures ok ==> tpos <= DNSNAMEBUFSIZE && tgt[..tpos] == Encode(written + Far(msg, start, 1, tpos0).value)
  {
    hide Lits;
    var hops: nat := 1;
    var lptr: nat := start;
    ghost var ls := written;
    ghost var goal := After(written, Far(msg, start, 1, tpos0));
    tpos := tpos0;
    while true
      invariant lptr < |msg| && 1 <= hops <= 255 && tpos <= 255
      invariant tgt[..tpos] == Lits(ls)
      invariant goal == After(ls, Far(msg, lptr, hops, tpos))
      decreases 255 - hops, 255 - tpos
    {
      var landed, at, h := FollowPointers(msg, lptr, hops, tpos);
      if !landed {
        return false, 0;
      }
      hops := h;
      var lb := msg[at];
      lptr := at + 1;
      tgt[tpos] := lb;
      assert tgt[..tpos + 1] == Lits(ls) + [lb];
      tpos := tpos + 1;
      if lb == 0 {
        assert ls + [] == ls;
        break;
      }
      if lptr + lb as int >= |msg| {
        return false, 0;
      }
      if tpos + lb as int > DNSNAMEBUFSIZE - 1 {
        return false, 0;
      }
      CopyLabel(msg, at, tgt, tpos, ls);
      AfterTwice(ls, LabelAt(msg, at), Far(msg, lptr + lb as int, hops, tpos + lb as int));
      ls := ls + [LabelAt(msg, at)];
      lptr := lptr + lb as int;
      tpos := tpos + lb as int;
    }
    ok := true;
  }

  lemma AfterTwice(ls: seq<Label>, l: Label, o: Option<seq<Label>>)
    ensures After(ls, After([l], o)) == After(ls + [l], o)
  {
    if o.Some? {
      assert ls + ([l] + o.value) == ls + [l] + o.value;
    }
  }

  lemma AppendLabel(ls: seq<Label>, l: Label)
    ensures Lits(ls + [l]) == Lits(ls) + [|l|] + l
  {
    LitsConcat(ls, [l]);
    assert Lits([l]) == [|l|] + l;
  }

  /** One label of the first loop: its length byte is written, then, if it passes the checks,
      the label itself. The rest of the name is still to come. */
  method DecompressLabel(msg: seq<byte>, at: nat, left: nat, tgt: array<byte>, tpos: nat, ghost ls: seq<Label>,
                         ghost goal: Outcome, ghost used: nat)
    returns (rc: Rc)
    requires at < |msg| && 1 <= msg[at] <= 63 && 0 < left && tpos <= 255 && tgt.Length >= DNSNAMEBUFSIZE
    requires tgt[..tpos] == Lits(ls) && goal == Prepend(ls, used, Near(msg, at, left, tpos))
    modifies tgt
    ensures rc != RC_OK ==> rc == RcOf(goal)
    ensures rc == RC_OK ==>
              var n := 1 + msg[at] as int;
              && n < left && at + n < |msg| && tpos + n <= 255
              && tgt[..tpos + n] == Lits(ls + [LabelAt(msg, at)])
              && goal == Prepend(ls + [LabelAt(msg, at)], used + n, Near(msg, at + n, left - n, tpos + n))
  {
    hide Lits, Far;
    var lb := msg[at] as int;
    tgt[tpos] := msg[at];
    assert tgt[..tpos + 1] == Lits(ls) + [msg[at]];
    if left - 1 <= lb {
      return RC_TRUNC;
    }
    if at + 1 + lb >= |msg| || tpos + 1 + lb > DNSNAMEBUFSIZE - 1 {
      return RC_FORMAT;
    }
    CopyLabel(msg, at, tgt, tpos + 1, ls);
    PrependTwice(ls, used, LabelAt(msg, at), 1 + lb, Near(msg, at + 1 + lb, left - 1 - lb, tpos + 1 + lb));
    rc := RC_OK;
  }

  lemma PrependNothing(o: Outcome)
    ensures Lits([]) == [] && Prepend([], 0, o) == o
  {}

  /** The turns of the first loop that copy a label: it stops at the terminator, at a pointer,
      or with an error. */
  method DecompressLabels(msg: seq<byte>, src: nat, sz: nat, tgt: array<byte>)
    returns (rc: Rc, at: nat, left: nat, tpos: nat, ghost ls: seq<Label>)
    requires 0 < sz && src < |msg| && tgt.Length >= DNSNAMEBUFSIZE
    modifies tgt
    ensures rc != RC_OK ==> rc == RcOf(Near(msg, src, sz, 0))
    ensures rc == RC_OK ==> at < |msg| && 0 < left <= sz && tpos <= 255 && tgt[..tpos] == Lits(ls)
    ensures rc == RC_OK ==> (msg[at] == 0 || msg[at] > 63)
    ensures rc == RC_OK ==> Near(msg, src, sz, 0) == Prepend(ls, sz - left, Near(msg, at, left, tpos))
  {
    hide Lits, Far, Near, LabelAt, Prepend, RcOf;
    rc, at, left, tpos, ls := RC_OK, src, sz, 0, [];
    ghost var goal := Near(msg, src, sz, 0);
    PrependNothing(goal);
    assert tgt[..0] == [];
    while 1 <= msg[at] <= 63
      invariant at < |msg| && 0 < left <= sz && tpos <= 255 && tgt[..tpos] == Lits(ls)
      invariant goal == Prepend(ls, sz - left, Near(msg, at, left, tpos))
      decreases left
    {
      rc := DecompressLabel(msg, at, left, tgt, tpos, ls, goal, sz - left);
      if rc != RC_OK {
        return;
      }
      ls := ls + [LabelAt(msg, at)];
      var n := 1 + msg[at] as int;
      left, at, tpos := left - n, at + n, tpos + n;
    }
    rc := RC_OK;
  }

  /** The loops of decompress_name: the code, the bytes left and the bytes written. */
  method DecompressHere(msg: seq<byte>, src: nat, sz: nat, tgt: array<byte>) returns (rc: Rc, newsz: nat, tpos: nat)
    requires 0 < sz && src < |msg| && tgt.Length >= DNSNAMEBUFSIZE
    modifies tgt
    ensures rc == RcOf(Near(msg, src, sz, 0))
    ensures rc == RC_OK ==> newsz + Near(msg, src, sz, 0).used == sz && tpos <= DNSNAMEBUFSIZE
    ensures rc == RC_OK ==> tgt[..tpos] == Encode(Near(msg, src, sz, 0).labels)
  {
    hide Near, Lits, Far;
    var at;
    ghost var ls;
    rc, at, newsz, tpos, ls := DecompressLabels(msg, src, sz, tgt);
    if rc == RC_OK {
      if msg[at] == 0 {
        tgt[tpos] := 0;
        assert tgt[..tpos + 1] == Lits(ls) + [0];
        NearEnd(msg, at, newsz, tpos, ls, sz - newsz);
        newsz, tpos := newsz - 1, tpos + 1;
      } else {
        rc, newsz, tpos := DecompressPointer(msg, at, newsz - 1, tgt, tpos, ls);
      }
    }
  }

  lemma NearEnd(msg: seq<byte>, pos: nat, sz: nat, t: nat, ls: seq<Label>, n: nat)
    requires sz > 0 && pos < |msg| && t <= 255 && msg[pos] == 0
    ensures Prepend(ls, n, Near(msg, pos, sz, t)) == Name(ls, n + 1)
  {
    assert ls + [] == ls;
  }

  function RcOf(o: Outcome): Rc {
    match o
    case Name(_, _) => RC_OK
    case Truncated => RC_TRUNC
    case Malformed => RC_FORMAT
  }

  /** The branch of the first loop taken on a pointer, whose first byte has been read. */
  method DecompressPointer(msg: seq<byte>, at: nat, left: nat, tgt: array<byte>, tpos0: nat, ghost ls: seq<Label>)
    returns (rc: Rc, newsz: nat, tpos: nat)
    requires at < |msg| && msg[at] > 63 && tpos0 <= 255 && tgt.Length >= DNSNAMEBUFSIZE
    requires tgt[..tpos0] == Lits(ls)
    modifies tgt
    ensures rc == RcOf(Near(msg, at, left + 1, tpos0))
    ensures rc == RC_OK ==> newsz + Near(msg, at, left + 1, tpos0).used == left + 1 && tpos <= DNSNAMEBUFSIZE
    ensures rc == RC_OK ==> tgt[..tpos] == Encode(ls + Near(msg, at, left + 1, tpos0).labels)
  {
    newsz, tpos := left, tpos0;
    var lb := msg[at];
    if lb < 192 {
      return RC_FORMAT, newsz, tpos;
    }
    if newsz == 0 {
      return RC_TRUNC, newsz, tpos;
    }
    if at + 1 >= |msg| {
      return RC_FORMAT, newsz, tpos;
    }
    newsz := newsz - 1;
    var offs := (lb % 64) as int * 256 + msg[at + 1] as int;
    if offs >= |msg| {
      return RC_FORMAT, newsz, tpos;
    }
    var ok, end := DecompressJumped(msg, offs, tgt, tpos, ls);
    rc, tpos := if ok then RC_OK else RC_FORMAT, end;
  }

  /** decompress_name. It returns RC_OK exactly for an acceptable name, whose expansion is then
      in tgt; *src and *sz move past the in-place encoding, and only on success. */
  method DecompressName(msg: seq<byte>, src: nat, sz: nat, tgt: array<byte>)
    returns (rc: Rc, src': nat, sz': nat, len: nat)
    requires tgt.Length >= DNSNAMEBUFSIZE
    modifies tgt
    ensures rc == RcOf(Near(msg, src, sz, 0))
    ensures rc == RC_OK ==>
              var o := Near(msg, src, sz, 0);
              && src' == src + o.used && sz' + o.used == sz
              && len <= DNSNAMEBUFSIZE && tgt[..len] == Encode(o.labels)
    ensures rc != RC_OK ==> src' == src && sz' == sz
  {
    src', sz', len := src, sz, 0;
    if sz == 0 {
      return RC_TRUNC, src, sz, 0;
    }
    if src >= |msg| {
      return RC_FORMAT, src, sz, 0;
    }
    var newsz, tpos;
    rc, newsz, tpos := DecompressHere(msg, src, sz, tgt);
    if rc == RC_OK {
      src', sz', len := src + (sz - newsz), newsz, tpos;
    }
  }

  lemma PrependTwice(ls: seq<Label>, n: nat, l: Label, m: nat, o: Outcome)
    ensures Prepend(ls, n, Prepend([l], m, o)) == Prepend(ls + [l], n + m, o)
  {
    if o.Name? {
      assert ls + ([l] + o.labels) == ls + [l] + o.labels;
    }
  }
}
