/** Domain names in length-byte string notation, as handled by helpers.h and by
    domain_match in dns.c. A name is a sequence of labels; its wire form is each label
    preceded by its length, then a zero byte. */
module Names {
  type byte = x: int | 0 <= x < 256

  type Label = s: seq<byte> | 1 <= |s| <= 63 witness [0]

  /** Size of every buffer that holds a domain name, terminator included. */
  const DNSNAMEBUFSIZE := 256

  /** The labels of a name as they stand in a message, without the terminator. */
  function Lits(ls: seq<Label>): seq<byte> {
    if ls == [] then [] else [|ls[0]|] + ls[0] + Lits(ls[1..])
  }

  /** The wire form of a name. */
  function Encode(ls: seq<Label>): seq<byte> {
    Lits(ls) + [0]
  }

  /** Where label number j of a name starts in its wire form. */
  function Off(ls: seq<Label>, j: nat): nat
    requires j <= |ls|
  {
    |Lits(ls[..j])|
  }

  lemma {:induction false} LitsConcat(a: seq<Label>, b: seq<Label>)
    ensures Lits(a + b) == Lits(a) + Lits(b)
  {
    if a == [] {
      assert a + b == b;
    } else {
      var head := [|a[0]|] + a[0];
      assert (a + b)[0] == a[0] && (a + b)[1..] == a[1..] + b;
      LitsConcat(a[1..], b);
      assert Lits(a) == head + Lits(a[1..]);
      assert Lits(a + b) == head + (Lits(a[1..]) + Lits(b));
      assert head + (Lits(a[1..]) + Lits(b)) == (head + Lits(a[1..])) + Lits(b);
    }
  }

  /** Skipping j labels leaves the wire form of the rest. */
  lemma LitsSplit(ls: seq<Label>, j: nat)
    requires j <= |ls|
    ensures Lits(ls) == Lits(ls[..j]) + Lits(ls[j..])
    ensures Lits(ls)[Off(ls, j)..] == Lits(ls[j..])
    ensures Lits(ls)[..Off(ls, j)] == Lits(ls[..j])
    ensures Off(ls, j) + |Lits(ls[j..])| == |Lits(ls)|
  {
    assert ls[..j] + ls[j..] == ls;
    LitsConcat(ls[..j], ls[j..]);
  }

  lemma OffStep(ls: seq<Label>, j: nat)
    requires j < |ls|
    ensures Off(ls, j + 1) == Off(ls, j) + 1 + |ls[j]|
    ensures Off(ls, j + 1) <= |Lits(ls)|
    ensures Lits(ls)[Off(ls, j)] == |ls[j]|
    ensures Lits(ls)[Off(ls, j) + 1..Off(ls, j + 1)] == ls[j]
  {
    assert ls[..j + 1] == ls[..j] + [ls[j]];
    LitsConcat(ls[..j], [ls[j]]);
    assert Lits([ls[j]]) == [|ls[j]|] + ls[j];
    LitsSplit(ls, j + 1);
  }

  lemma {:induction false} OffMonotone(ls: seq<Label>, i: nat, j: nat)
    requires i <= j <= |ls|
    ensures Off(ls, i) + 2 * (j - i) <= Off(ls, j)
    decreases j
  {
    if i < j {
      OffMonotone(ls, i, j - 1);
      OffStep(ls, j - 1);
    }
  }

  lemma OffEnd(ls: seq<Label>)
    ensures Off(ls, |ls|) == |Lits(ls)|
    ensures 2 * |ls| <= |Lits(ls)|
  {
    assert ls[..|ls|] == ls;
    OffMonotone(ls, 0, |ls|);
  }

  /** A wire form determines its labels, so names are equal when their bytes are. */
  lemma {:induction false} EncodeInjective(a: seq<Label>, b: seq<Label>, x: seq<byte>, y: seq<byte>)
    requires Encode(a) + x == Encode(b) + y
    ensures a == b && x == y
  {
    var l, r := Encode(a) + x, Encode(b) + y;
    assert l[0] == Encode(a)[0] && r[0] == Encode(b)[0];
    if a == [] || b == [] {
      assert l[1..] == (Encode(a) + x)[1..] && r[1..] == (Encode(b) + y)[1..];
      assert Encode([]) == [0];
    } else {
      assert l[0] == |a[0]| && r[0] == |b[0]|;
      assert l[1..1 + |a[0]|] == a[0] && r[1..1 + |a[0]|] == b[0];
      assert l[1 + |a[0]|..] == Encode(a[1..]) + x;
      assert r[1 + |a[0]|..] == Encode(b[1..]) + y;
      EncodeInjective(a[1..], b[1..], x, y);
    }
  }

  // ---------- case folding ----------

  function Lower(c: byte): byte {
    if 65 <= c <= 90 then c + 32 else c
  }

  function Upper(c: byte): byte {
    if 97 <= c <= 122 then c - 32 else c
  }

  function Fold(s: seq<byte>): (r: seq<byte>)
    ensures |r| == |s|
  {
    seq(|s|, i requires 0 <= i < |s| => Lower(s[i]))
  }

  /** Two names are the same up to ASCII case. */
  /** Bytes count as the same just if they are, or are the two cases of one of the 26 letters. */
  lemma LowerMeans(c: byte, d: byte)
    ensures Lower(c) == Lower(d) <==>
      || c == d || ('A' as int <= c <= 'Z' as int && d == c + 32) || ('A' as int <= d <= 'Z' as int && c == d + 32)
  {
  }

  ghost predicate Same(a: seq<Label>, b: seq<Label>) {
    |a| == |b| && forall i :: 0 <= i < |a| ==> Fold(a[i]) == Fold(b[i])
  }

  lemma FoldConcat(s: seq<byte>, t: seq<byte>)
    ensures Fold(s + t) == Fold(s) + Fold(t)
  {
  }

  lemma {:induction false} SameLits(a: seq<Label>, b: seq<Label>)
    requires Same(a, b)
    ensures Fold(Lits(a)) == Fold(Lits(b))
    ensures |Lits(a)| == |Lits(b)|
  {
    if a != [] {
      assert |a[0]| == |Fold(a[0])| == |Fold(b[0])| == |b[0]|;
      forall i | 0 <= i < |a[1..]| ensures Fold(a[1..][i]) == Fold(b[1..][i]) {
        assert a[1..][i] == a[i + 1] && b[1..][i] == b[i + 1];
      }
      SameLits(a[1..], b[1..]);
      FoldConcat([|a[0]|] + a[0], Lits(a[1..]));
      FoldConcat([|b[0]|] + b[0], Lits(b[1..]));
      FoldConcat([|a[0]|], a[0]);
      FoldConcat([|b[0]|], b[0]);
    } else {
      assert b == [];
    }
  }

  /** Folding whole wire forms compares names: no length byte is a letter. */
  lemma SameIsFoldedBytes(a: seq<Label>, b: seq<Label>)
    ensures Same(a, b) <==> Fold(Encode(a)) == Fold(Encode(b))
  {
    if Same(a, b) {
      SameLits(a, b);
      FoldConcat(Lits(a), [0]);
      FoldConcat(Lits(b), [0]);
    }
    if Fold(Encode(a)) == Fold(Encode(b)) {
      FoldedBytesSame(a, b);
    }
  }

  lemma EncodeCons(a: seq<Label>)
    requires a != []
    ensures Encode(a) == [|a[0]|] + a[0] + Encode(a[1..])
    ensures Fold(Encode(a)) == [|a[0]|] + Fold(a[0]) + Fold(Encode(a[1..]))
  {
    FoldConcat([|a[0]|] + a[0], Encode(a[1..]));
    FoldConcat([|a[0]|], a[0]);
  }

  lemma {:induction false} FoldedBytesSame(a: seq<Label>, b: seq<Label>)
    requires Fold(Encode(a)) == Fold(Encode(b))
    ensures Same(a, b)
  {
    var l, r := Fold(Encode(a)), Fold(Encode(b));
    assert l[0] == Lower(Encode(a)[0]) && r[0] == Lower(Encode(b)[0]);
    if a != [] && b != [] {
      hide Encode, Fold;
      EncodeCons(a);
      EncodeCons(b);
      assert l[0] == |a[0]| && r[0] == |b[0]|;
      assert l[1..1 + |a[0]|] == Fold(a[0]) && r[1..1 + |a[0]|] == Fold(b[0]);
      assert l[1 + |a[0]|..] == Fold(Encode(a[1..]));
      assert r[1 + |a[0]|..] == Fold(Encode(b[1..]));
      FoldedBytesSame(a[1..], b[1..]);
      assert a == [a[0]] + a[1..] && b == [b[0]] + b[1..];
    }
  }

  // ---------- walking a name ----------

  /** rhnlen: the length of a name, terminator included. */
  method RhnLen(rhn: seq<byte>, ghost ls: seq<Label>) returns (i: nat)
    requires Encode(ls) <= rhn
    ensures i == |Encode(ls)|
  {
    i := 0;
    ghost var j := 0;
    OffEnd(ls);
    var lb: int := rhn[i];
    i := i + 1;
    assert Off(ls, 0) == 0;
    if ls != [] {
      OffStep(ls, 0);
    }
    while lb != 0
      invariant 0 <= j <= |ls|
      invariant i == Off(ls, j) + 1
      invariant lb == if j < |ls| then |ls[j]| else 0
      decreases |ls| - j
    {
      OffStep(ls, j);
      i := i + lb;
      j := j + 1;
      if j < |ls| {
        OffStep(ls, j);
      }
      lb := rhn[i];
      i := i + 1;
    }
  }

  /** rhnsegcnt: the number of labels of a name. */
  method RhnSegCnt(rhn: seq<byte>, ghost ls: seq<Label>) returns (res: nat)
    requires Encode(ls) <= rhn
    ensures res == |ls|
  {
    res := 0;
    var p := 0;
    OffEnd(ls);
    while rhn[p] != 0
      invariant res <= |ls|
      invariant p == Off(ls, res) <= |Lits(ls)|
      decreases |ls| - res
    {
      if res < |ls| {
        OffStep(ls, res);
      }
      p := p + rhn[p] as int + 1;
      res := res + 1;
    }
    if res < |ls| {
      OffStep(ls, res);
    }
  }

  /** The inner loop of rhnicmp. */
  method SameBytes(a: seq<byte>, b: seq<byte>, start: nat, len: nat) returns (same: bool)
    requires start + len <= |a| && start + len <= |b|
    ensures same <==> forall x :: start <= x < start + len ==> Lower(a[x]) == Lower(b[x])
  {
    var i, n := start, len;
    while n > 0
      invariant i + n == start + len
      invariant forall x :: start <= x < i ==> Lower(a[x]) == Lower(b[x])
    {
      if Lower(a[i]) != Lower(b[i]) {
        return false;
      }
      i := i + 1;
      n := n - 1;
    }
    return true;
  }

  /** rhnicmp: 1 exactly when the names are equal up to ASCII case. */
  method RhnICmp(a: seq<byte>, b: seq<byte>, ghost la: seq<Label>, ghost lb: seq<Label>) returns (same: bool)
    requires Encode(la) <= a && Encode(lb) <= b
    ensures same <==> Same(la, lb)
  {
    var i := 0;
    ghost var j := 0;
    StartTogether(la, lb);
    hide Lits, Off, Same, Fold, Encode, Lower;
    while true
      invariant j <= |la| && j <= |lb| && i == Off(la, j) == Off(lb, j)
      invariant Agree(la, lb, i)
      decreases |la| - j
    {
      WireByte(la, j);
      WireByte(lb, j);
      var n: int := a[i];
      if n != b[i] {
        LengthsDiffer(la, lb, i);
        return false;
      }
      if n == 0 {
        EndTogether(la, lb, i);
        return true;
      }
      var same := SameBytes(a, b, i + 1, n);
      AgreeMore(a, b, la, lb, i, n, same);
      if !same {
        return false;
      }
      i := i + 1 + n;
      j := j + 1;
    }
  }

  /** The first i bytes of two names agree up to case. */
  ghost predicate Agree(la: seq<Label>, lb: seq<Label>, i: nat) {
    && i <= |Encode(la)| && i <= |Encode(lb)|
    && forall x :: 0 <= x < i ==> Lower(Encode(la)[x]) == Lower(Encode(lb)[x])
  }

  lemma StartTogether(la: seq<Label>, lb: seq<Label>)
    ensures Off(la, 0) == 0 == Off(lb, 0) && Agree(la, lb, 0)
  {
  }

  lemma LengthsDiffer(la: seq<Label>, lb: seq<Label>, i: nat)
    requires i < |Encode(la)| && i < |Encode(lb)|
    requires Encode(la)[i] <= 63 && Encode(lb)[i] <= 63 && Encode(la)[i] != Encode(lb)[i]
    ensures !Same(la, lb)
  {
    SameIsFoldedBytes(la, lb);
    assert Fold(Encode(la))[i] != Fold(Encode(lb))[i];
  }

  lemma EndTogether(la: seq<Label>, lb: seq<Label>, i: nat)
    requires Agree(la, lb, i) && i + 1 == |Encode(la)| == |Encode(lb)|
    ensures Same(la, lb)
  {
    SameIsFoldedBytes(la, lb);
    assert Encode(la)[i] == 0 == Encode(lb)[i];
    assert Fold(Encode(la)) == Fold(Encode(lb));
  }

  lemma AgreeMore(a: seq<byte>, b: seq<byte>, la: seq<Label>, lb: seq<Label>, i: nat, n: nat, same: bool)
    requires Encode(la) <= a && Encode(lb) <= b && Agree(la, lb, i)
    requires i + 1 + n <= |Encode(la)| && i + 1 + n <= |Encode(lb)| && a[i] == b[i]
    requires same <==> forall x :: i + 1 <= x < i + 1 + n ==> Lower(a[x]) == Lower(b[x])
    ensures if same then Agree(la, lb, i + 1 + n) else !Same(la, lb)
  {
    hide Encode;
    if !same {
      SameIsFoldedBytes(la, lb);
      var x :| i + 1 <= x < i + 1 + n && Lower(a[x]) != Lower(b[x]);
      assert Fold(Encode(la))[x] != Fold(Encode(lb))[x];
    }
  }

  /** The byte found where label j of a name starts. */
  lemma WireByte(ls: seq<Label>, j: nat)
    requires j <= |ls|
    ensures Off(ls, j) < |Encode(ls)|
    ensures Encode(ls)[Off(ls, j)] == if j < |ls| then |ls[j]| else 0
    ensures j < |ls| ==> Off(ls, j + 1) == Off(ls, j) + 1 + |ls[j]| < |Encode(ls)|
    ensures j == |ls| ==> |Encode(ls)| == Off(ls, j) + 1
  {
    if j < |ls| {
      OffStep(ls, j);
    } else {
      OffEnd(ls);
    }
  }

  /** What isnormalencdomname accepts from position i on. */
  predicate NormalFrom(b: seq<byte>, i: nat)
    decreases |b| - i
  {
    && i < |b| && i < DNSNAMEBUFSIZE
    && (b[i] == 0 || (b[i] <= 63 && NormalFrom(b, i + 1 + b[i] as int)))
  }

  /** isnormalencdomname: an uncompressed name of at most 256 bytes starts here. */
  method IsNormalEncDomName(b: seq<byte>) returns (normal: bool)
    ensures normal <==> NormalFrom(b, 0)
  {
    var maxlen := if |b| > DNSNAMEBUFSIZE then DNSNAMEBUFSIZE else |b|;
    var i: nat := 0;
    while true
      invariant NormalFrom(b, 0) <==> NormalFrom(b, i)
      decreases maxlen - i
    {
      if i >= maxlen {
        return false;
      }
      var lb := b[i];
      i := i + 1;
      if lb == 0 {
        return true;
      }
      if lb > 63 {
        return false;
      }
      i := i + lb as int;
    }
  }

  /** It accepts exactly the bytes that begin with the wire form of a name that fits a buffer. */
  lemma NormalIsName(b: seq<byte>)
    ensures NormalFrom(b, 0) <==> exists ls :: Encode(ls) <= b && |Encode(ls)| <= DNSNAMEBUFSIZE
  {
    if NormalFrom(b, 0) {
      var ls := NormalLabels(b, 0);
      assert b[0..] == b;
      assert Encode(ls) <= b && |Encode(ls)| <= DNSNAMEBUFSIZE;
    }
    if ls :| Encode(ls) <= b && |Encode(ls)| <= DNSNAMEBUFSIZE {
      NameIsNormal(b, ls, 0);
    }
  }

  lemma {:induction false} NormalLabels(b: seq<byte>, i: nat) returns (ls: seq<Label>)
    requires NormalFrom(b, i)
    ensures i + |Encode(ls)| <= DNSNAMEBUFSIZE && Encode(ls) <= b[i..]
    decreases |b| - i
  {
    if b[i] == 0 {
      ls := [];
      assert b[i..] == [0] + b[i + 1..];
    } else {
      hide Encode, Lits;
      var j := i + 1 + b[i] as int;
      EndsInside(b, j);
      var rest := NormalLabels(b, j);
      ls := [b[i + 1..j]] + rest;
      assert ls[1..] == rest;
      EncodeCons(ls);
      PrefixCons(b, i, b[i..j], Encode(rest));
      assert b[i..j] == [|ls[0]|] + ls[0];
    }
  }

  lemma PrefixCons(b: seq<byte>, i: nat, x: seq<byte>, y: seq<byte>)
    requires i + |x| <= |b| && x == b[i..i + |x|] && y <= b[i + |x|..]
    ensures x + y <= b[i..]
  {
    assert b[i..] == b[i..i + |x|] + b[i + |x|..];
  }

  lemma EndsInside(b: seq<byte>, i: nat)
    requires NormalFrom(b, i)
    ensures i < |b|
  {
  }

  lemma {:induction false} NameIsNormal(b: seq<byte>, ls: seq<Label>, j: nat)
    requires j <= |ls| && Encode(ls) <= b && |Encode(ls)| <= DNSNAMEBUFSIZE
    ensures NormalFrom(b, Off(ls, j))
    decreases |ls| - j
  {
    WireByte(ls, j);
    assert b[Off(ls, j)] == Encode(ls)[Off(ls, j)];
    if j < |ls| {
      NameIsNormal(b, ls, j + 1);
    }
  }

  // ---------- domain_match ----------

  /** The number of labels two names have in common at their ends. */
  function CommonSuffix(s: seq<Label>, d: seq<Label>): (k: nat)
    ensures k <= |s| && k <= |d|
  {
    if s == [] || d == [] || Fold(s[|s| - 1]) != Fold(d[|d| - 1]) then 0
    else 1 + CommonSuffix(s[..|s| - 1], d[..|d| - 1])
  }

  /** The last k labels. */
  function Tail(s: seq<Label>, k: nat): seq<Label>
    requires k <= |s|
  {
    s[|s| - k..]
  }

  /** CommonSuffix is the length of the longest common suffix of labels. */
  lemma {:induction false} CommonSuffixIsLongest(s: seq<Label>, d: seq<Label>)
    ensures forall j :: 0 <= j <= |s| && j <= |d| ==>
              (Same(Tail(s, j), Tail(d, j)) <==> j <= CommonSuffix(s, d))
  {
    forall j | 0 <= j <= |s| && j <= |d|
      ensures Same(Tail(s, j), Tail(d, j)) <==> j <= CommonSuffix(s, d)
    {
      CommonSuffixAt(s, d, j);
    }
  }

  lemma SameSnoc(a: seq<Label>, b: seq<Label>, x: Label, y: Label)
    ensures Same(a + [x], b + [y]) <==> Same(a, b) && Fold(x) == Fold(y)
  {
    hide Fold;
    var l, r := a + [x], b + [y];
    if |a| == |b| {
      assert l[|a|] == x && r[|a|] == y;
      assert forall i :: 0 <= i < |a| ==> l[i] == a[i] && r[i] == b[i];
    }
  }

  lemma TailSnoc(s: seq<Label>, j: nat)
    requires 1 <= j <= |s|
    ensures Tail(s, j) == Tail(s[..|s| - 1], j - 1) + [s[|s| - 1]]
  {
  }

  lemma {:induction false} CommonSuffixAt(s: seq<Label>, d: seq<Label>, j: nat)
    requires j <= |s| && j <= |d|
    ensures Same(Tail(s, j), Tail(d, j)) <==> j <= CommonSuffix(s, d)
  {
    if j > 0 {
      hide Fold, Same, Tail;
      CommonSuffixAt(s[..|s| - 1], d[..|d| - 1], j - 1);
      TailSnoc(s, j);
      TailSnoc(d, j);
      SameSnoc(Tail(s[..|s| - 1], j - 1), Tail(d[..|d| - 1], j - 1), s[|s| - 1], d[|d| - 1]);
    }
  }

  /** domain_match: how many trailing labels agree, and where that common suffix starts in
      each name. Names of at most 256 bytes never overflow the 128-entry label tables. */
  method DomainMatch(ms: seq<byte>, md: seq<byte>, ghost s: seq<Label>, ghost d: seq<Label>)
    returns (matched: nat, os: nat, od: nat)
    requires Encode(s) <= ms && Encode(d) <= md
    requires |Encode(s)| <= DNSNAMEBUFSIZE && |Encode(d)| <= DNSNAMEBUFSIZE
    ensures matched == CommonSuffix(s, d)
    ensures os == Off(s, |s| - matched) && od == Off(d, |d| - matched)
  {
    hide CommonSuffix, Lits, Encode;
    var ls, i := CollectLengths(ms, s);
    var ld, j := CollectLengths(md, d);
    var ns, nd := |ls|, |ld|;
    var n := if ns > nd then nd else ns;
    var k := 1;
    os, od := i, j;
    ghost var a, b := ns, nd;  // labels not yet compared
    assert s[..ns] == s && d[..nd] == d;
    while k <= n
      invariant 1 <= k <= n + 1 && a == ns - k + 1 && b == nd - k + 1
      invariant os == Off(s, a) && od == Off(d, b)
      invariant CommonSuffix(s, d) == k - 1 + CommonSuffix(s[..a], d[..b])
    {
      a, b := a - 1, b - 1;
      CommonSuffixStep(s, d, a, b);
      LabelInWire(s, ms, a);
      LabelInWire(d, md, b);
      var lb := ls[ns - k];
      if lb != ld[nd - k] {
        assert CommonSuffix(s, d) == k - 1;
        break;
      }
      var same := MatchBackwards(ms, md, os, od, lb, s[a], d[b]);
      if !same {
        assert CommonSuffix(s, d) == k - 1;
        break;
      }
      os, od := os - lb - 1, od - lb - 1;
      k := k + 1;
    }
    matched := k - 1;
  }

  lemma CommonSuffixStep(s: seq<Label>, d: seq<Label>, a: nat, b: nat)
    requires a < |s| && b < |d|
    ensures CommonSuffix(s[..a + 1], d[..b + 1]) ==
            if Fold(s[a]) != Fold(d[b]) then 0 else 1 + CommonSuffix(s[..a], d[..b])
    ensures |s[a]| != |d[b]| ==> CommonSuffix(s[..a + 1], d[..b + 1]) == 0
  {
    assert |Fold(s[a])| == |s[a]| && |Fold(d[b])| == |d[b]|;
    assert s[..a + 1][..a] == s[..a] && d[..b + 1][..b] == d[..b];
  }

  lemma LabelInWire(ls: seq<Label>, m: seq<byte>, j: nat)
    requires j < |ls| && Encode(ls) <= m
    ensures Off(ls, j + 1) == Off(ls, j) + 1 + |ls[j]| <= |m|
    ensures m[Off(ls, j + 1) - |ls[j]|..Off(ls, j + 1)] == ls[j]
  {
    OffStep(ls, j);
    assert m[Off(ls, j) + 1..Off(ls, j + 1)] == Lits(ls)[Off(ls, j) + 1..Off(ls, j + 1)];
  }

  /** The innermost loop of domain_match: two labels compared from their last byte. */
  method MatchBackwards(ms: seq<byte>, md: seq<byte>, os: nat, od: nat, len: byte, ghost p: Label, ghost q: Label)
    returns (same: bool)
    requires len == |p| == |q| <= os <= |ms| && len <= od <= |md|
    requires ms[os - len..os] == p && md[od - len..od] == q
    ensures same <==> Fold(p) == Fold(q)
  {
    var i, j, lb := os, od, len as int;
    while lb != 0
      invariant 0 <= lb <= len && os - i == od - j == len - lb
      invariant forall x :: lb <= x < len ==> Fold(p)[x] == Fold(q)[x]
    {
      i := i - 1;
      j := j - 1;
      assert ms[os - len..os][lb - 1] == ms[i] && md[od - len..od][lb - 1] == md[j];
      if Lower(ms[i]) != Lower(md[j]) {
        assert Fold(p)[lb - 1] != Fold(q)[lb - 1];
        return false;
      }
      lb := lb - 1;
    }
    return true;
  }

  /** The first loops of domain_match: the length bytes of a name, and where it ends. */
  method CollectLengths(m: seq<byte>, ghost s: seq<Label>) returns (lens: seq<byte>, i: nat)
    requires Encode(s) <= m && |Encode(s)| <= DNSNAMEBUFSIZE
    ensures |lens| == |s| && i == Off(s, |s|)
    ensures forall x :: 0 <= x < |lens| ==> lens[x] == |s[x]|
  {
    var ls := new byte[128];
    var ns := 0;
    i := 0;
    OffEnd(s);
    while m[i] != 0
      invariant ns <= |s| && i == Off(s, ns) <= |Lits(s)|
      invariant forall x :: 0 <= x < ns ==> ls[x] == |s[x]|
      decreases |s| - ns
    {
      if ns < |s| {
        OffStep(s, ns);
      }
      ls[ns] := m[i];
      i := i + m[i] as int + 1;
      ns := ns + 1;
    }
    if ns < |s| {
      OffStep(s, ns);
    }
    lens := ls[..ns];
  }
}
