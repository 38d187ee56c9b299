/** Choosing the source port of a query, bind_socket in dns_query.c: random ports of the
    configured range, then a sweep over all of it. The random numbers and the answers of bind()
    are left open. */
module BindSocket {
  import opened Powers

  datatype Bound =
    | KERNEL_CHOICE
    | BOUND(port: int)
    | BAD_RANGE
    | BAD_RANDOM
    | BIND_FAILED
    | OUT_OF_PORTS

  datatype BindResult = SUCCESS | IN_USE | OTHER_ERROR

  /** A mask of at most 16 one bits, wide enough for the range and no wider than needed. */
  ghost predicate MaskFor(range: nat, m: nat) {
    (exists k: nat :: k <= 16 && m + 1 == Pow2(k)) && range <= m + 1 && (range > 1 ==> m + 1 < 2 * range)
  }

  /** The smallest mask that covers the range. */
  method Mask(range: nat) returns (m: nat)
    requires 0 < range <= 0x10000
    ensures MaskFor(range, m)
  {
    SixteenBits();
    ghost var k: nat := 16;
    m := 0xffff;
    if range > 0x8000 {
      assert m + 1 == Pow2(k);
      return;
    }
    m, k := 1, 0;
    while m < range
      invariant m == Pow2(k) && k <= 15 && (range > 1 ==> m < 2 * range) && m <= 0x8000
      decreases 0x10000 - m
    {
      assert k < 15;
      Pow2Grows(k + 1, 15);
      m, k := 2 * m, k + 1;
    }
    m := m - 1;
    assert m + 1 == Pow2(k);
  }

  lemma SixteenBits()
    ensures Pow2(15) == 0x8000 && Pow2(16) == 0x10000
  {
    assert Pow2(4) == 16;
    assert Pow2(8) == 256;
    assert Pow2(12) == 4096;
  }

  /** r & m, for a mask m. */
  function Masked(r: nat, m: nat): nat {
    r % (m + 1)
  }

  /** Every offset into the range can come up. */
  lemma EveryPortCanBeDrawn(range: nat, m: nat, p: nat)
    requires MaskFor(range, m) && p < range <= 0x10000
    ensures exists r: nat :: r < 0x10000 && Masked(r, m) == p
  {
    var k: nat :| k <= 16 && m + 1 == Pow2(k);
    SixteenBits();
    if k < 16 {
      Pow2Grows(k, 16);
    }
    SmallMod(p, m + 1);
    assert Masked(p, m) == p;
  }

  lemma SmallMod(p: nat, n: nat)
    requires p < n
    ensures p % n == p
  {
  }

  /** A random number below range, by rejecting others; -1 after 2^16 of them. */
  method Draw(range: nat, m: nat) returns (prt: int)
    requires range > 0
    ensures prt == -1 || 0 <= prt < range
  {
    var try1 := 0;
    while true
      invariant 0 <= try1 < 0x10000
      decreases 0x10000 - try1
    {
      var r: nat :| r < 0x10000;
      prt := Masked(r, m);
      if prt < range {
        return;
      }
      try1 := try1 + 1;
      if try1 >= 0x10000 {
        return -1;
      }
    }
  }

  predicate AmongLast(busy: seq<int>, n: nat, p: int)
    requires n <= |busy|
  {
    p in busy[|busy| - n..]
  }

  /** Those that were tried last were all ports of the range, each once. */
  ghost predicate FullSweep(busy: seq<int>, first: int, last: int)
    requires first <= last
  {
    var range := last - first + 1;
    && |busy| >= range
    && (forall p :: first <= p <= last ==> AmongLast(busy, range, p))
    && (forall i, j :: |busy| - range <= i < j < |busy| ==> busy[i] != busy[j])
  }

  /** bind_socket. busy are the ports that bind() found in use, in order. */
  method BindPort(first: int, last: int) returns (res: Bound, ghost busy: seq<int>)
    requires last < 0x10000
    ensures res == KERNEL_CHOICE <==> first < 0
    ensures res == BAD_RANGE <==> first >= 0 && (last < first || last - first >= 0x10000)
    ensures forall p :: p in busy ==> first <= p <= last
    ensures res.BOUND? ==> first <= res.port <= last
    ensures res == OUT_OF_PORTS ==> FullSweep(busy, first, last) && |busy| == 3 * (last - first + 1) - 1
    ensures res != OUT_OF_PORTS && first <= last ==> |busy| < 3 * (last - first + 1) - 1
  {
    busy := [];
    if first < 0 {
      return KERNEL_CHOICE, busy;
    }
    var range := last - first + 1;
    if range <= 0 || range > 0x10000 {
      return BAD_RANGE, busy;
    }
    var m := Mask(range);
    var try2, maxtry2 := 0, range * 2;
    while true
      invariant try2 == |busy| < maxtry2
      invariant forall p :: p in busy ==> first <= p <= last
      decreases maxtry2 - try2
    {
      var prt := Draw(range, m);
      if prt < 0 {
        return BAD_RANDOM, busy;
      }
      var pstart := prt + first;
      prt := pstart;
      ghost var n := |busy|;
      while true
        invariant first <= prt <= last && |busy| == try2 && n <= |busy|
        invariant |busy| == n || |busy| >= maxtry2
        invariant |busy| > n ==> n == maxtry2 - 1
        invariant forall p :: p in busy ==> first <= p <= last
        invariant Swept(busy, n, first, last, pstart, prt)
        decreases range - (|busy| - n)
      {
        var r: BindResult := *;
        if r == OTHER_ERROR {
          return BIND_FAILED, busy;
        }
        if r == SUCCESS {
          return BOUND(prt), busy;
        }
        busy := busy + [prt];
        try2 := try2 + 1;
        if try2 < maxtry2 {
          break;
        }
        prt := prt + 1;
        if prt > last {
          prt := first;
        }
        if prt == pstart {
          SweptAll(busy, n, first, last, pstart);
          return OUT_OF_PORTS, busy;
        }
      }
    }
  }

  /** From position n on, the ports tried are those from pstart up to the one before prt. */
  ghost predicate Swept(busy: seq<int>, n: nat, first: int, last: int, pstart: int, prt: int) {
    && n <= |busy| && first <= pstart <= last && |busy| - n < last - first + 1
    && prt == (if pstart + (|busy| - n) <= last then pstart + (|busy| - n)
               else pstart + (|busy| - n) - (last - first + 1))
    && forall i :: n <= i < |busy| ==>
         busy[i] == if pstart + (i - n) <= last then pstart + (i - n) else pstart + (i - n) - (last - first + 1)
  }

  lemma SweptAll(busy: seq<int>, n: nat, first: int, last: int, pstart: int)
    requires n <= |busy| && first <= pstart <= last && |busy| - n == last - first + 1
    requires forall i :: n <= i < |busy| ==>
      busy[i] == if pstart + (i - n) <= last then pstart + (i - n) else pstart + (i - n) - (last - first + 1)
    ensures FullSweep(busy, first, last)
  {
    var range := last - first + 1;
    forall p | first <= p <= last ensures AmongLast(busy, range, p) {
      var d := if p >= pstart then p - pstart else p - pstart + range;
      assert busy[n..][d] == busy[n + d] == p;
    }
  }
}
