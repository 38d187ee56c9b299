/** The table of cache entries by name, hash.c: an array of chains ordered by a wide hash. */
module HashTable {
  import opened Names
  import opened Wrappers
  import opened Powers
  import opened CacheLinks

  const HASH_SZ: nat := 10
  const HASH_NUM_BUCKETS: nat := 1024

  // ---------- dns_hash ----------

  /** Each byte, in upper case, shifted left by its position modulo k. */
  function ShiftSum(w: seq<byte>, k: nat): nat
    requires k > 0
  {
    if w == [] then 0
    else
      var i := |w| - 1;
      ShiftSum(w[..i], k) + Upper(w[i]) * Pow2(i % k)
  }

  /** The second hash: as many bits as a machine word has. */
  function WideHash(name: seq<Label>, word: nat): nat
    requires word > 7
  {
    ShiftSum(Lits(name), word - 7) % Pow2(word)
  }

  /** (s&HASH_BITMASK)+((s&(~HASH_BITMASK))>>HASH_SZ): the high bits are added to the low ones. */
  function Halve(s: nat): nat {
    s % HASH_NUM_BUCKETS + s / HASH_NUM_BUCKETS
  }

  /** The number of the chain a name belongs to. */
  function Bucket(name: seq<Label>): (b: nat)
    ensures b < HASH_NUM_BUCKETS
  {
    Halve(Halve(ShiftSum(Lits(name), HASH_SZ - 5) % 0x1_0000_0000)) % HASH_NUM_BUCKETS
  }

  lemma {:induction false} SameShiftSum(v: seq<byte>, w: seq<byte>, k: nat)
    requires Fold(v) == Fold(w) && k > 0
    ensures ShiftSum(v, k) == ShiftSum(w, k)
  {
    if v != [] {
      var i := |v| - 1;
      assert |w| == |Fold(w)| == |v|;
      assert Fold(v)[i] == Fold(w)[i];
      assert Fold(v[..i]) == Fold(v)[..i] && Fold(w[..i]) == Fold(w)[..i];
      SameShiftSum(v[..i], w[..i], k);
    }
  }

  /** Names that are equal up to case have equal hashes. */
  lemma SameHash(a: seq<Label>, b: seq<Label>, word: nat)
    requires Same(a, b) && word > 7
    ensures Bucket(a) == Bucket(b) && WideHash(a, word) == WideHash(b, word)
  {
    SameLits(a, b);
    SameShiftSum(Lits(a), Lits(b), word - 7);
    SameShiftSum(Lits(a), Lits(b), HASH_SZ - 5);
  }

  lemma MulAtLeast(k: nat, m: nat)
    requires k > 0
    ensures k * m >= m
  {
    assert k * m == (k - 1) * m + m;
  }

  lemma Distribute(p: nat, d: nat, m: nat)
    ensures (p + d) * m == p * m + d * m
  {
  }

  lemma DivisionUnique(p: nat, r: nat, q: nat, t: nat, m: nat)
    requires p * m + r == q * m + t && r < m && t < m
    ensures p == q && r == t
  {
    if p < q {
      Distribute(p, q - p, m);
      MulAtLeast(q - p, m);
    } else if q < p {
      Distribute(q, p - q, m);
      MulAtLeast(p - q, m);
    }
  }

  lemma DivMod(x: nat, m: nat)
    requires m > 0
    ensures x == (x / m) * m + x % m && x % m < m
  {
  }

  lemma RemainderOfSum(x: nat, y: nat, m: nat, p: nat, r: nat, q: nat, t: nat, u: nat, v: nat)
    requires x == p * m + r && r + y == q * m + t && x + y == u * m + v && t < m && v < m
    ensures v == t
  {
    Distribute(p, q, m);
    DivisionUnique(p + q, t, u, v, m);
  }

  /** Wrapping a sum around at every step is wrapping it around at the end. */
  lemma ModAdd(x: nat, y: nat, m: nat)
    requires m > 0
    ensures (x % m + y) % m == (x + y) % m
  {
    DivMod(x, m);
    DivMod(x % m + y, m);
    DivMod(x + y, m);
    RemainderOfSum(x, y, m, x / m, x % m, (x % m + y) / m, (x % m + y) % m, (x + y) / m, (x + y) % m);
  }

  lemma ShiftLast(w: seq<byte>, i: nat, k: nat)
    requires i < |w| && k > 0
    ensures ShiftSum(w[..i + 1], k) == ShiftSum(w[..i], k) + Upper(w[i]) * Pow2(i % k)
  {
    var v := w[..i + 1];
    assert v[..i] == w[..i] && v[i] == w[i];
  }

  /** One byte more. */
  lemma ShiftStep(w: seq<byte>, i: nat, k: nat, m: nat)
    requires i < |w| && k > 0 && m > 0
    ensures ShiftSum(w[..i + 1], k) % m == (ShiftSum(w[..i], k) % m + Upper(w[i]) * Pow2(i % k)) % m
  {
    hide ShiftSum, Pow2, Upper;
    ShiftLast(w, i, k);
    ModAdd(ShiftSum(w[..i], k), Upper(w[i]) * Pow2(i % k), m);
  }

  /** s and r once the first i bytes have been added. */
  ghost predicate HashSoFar(w: seq<byte>, i: nat, word: nat, s: nat, r: nat)
    requires word > 7
  {
    i <= |w| && s == ShiftSum(w[..i], 5) % 0x1_0000_0000 && r == ShiftSum(w[..i], word - 7) % Pow2(word)
  }

  /** One turn of the outer loop of dns_hash: a length byte and its label. */
  method HashLabel(name: seq<Label>, word: nat, i0: nat, ghost j: nat, s0: nat, r0: nat)
      returns (s: nat, r: nat, i: nat)
    requires word > 7 && j < |name| && i0 == Off(name, j) < |Lits(name)|
    requires Lits(name)[i0] == |name[j]| && Upper(Lits(name)[i0]) == Lits(name)[i0]
    requires HashSoFar(Lits(name), i0, word, s0, r0)
    ensures i == Off(name, j + 1) <= |Lits(name)| && HashSoFar(Lits(name), i, word, s, r)
  {
    OffStep(name, j);
    hide Lits, ShiftSum, Upper, Pow2, Off, HashSoFar;
    var w := Lits(name);
    var lb: nat := w[i0];
    s, r := AddByte(w, i0, w[i0], word, s0, r0);
    i := i0 + 1;
    while lb > 0
      invariant i + lb == Off(name, j + 1) <= |w| && HashSoFar(w, i, word, s, r)
    {
      s, r := AddByte(w, i, Upper(w[i]), word, s, r);
      i := i + 1;
      lb := lb - 1;
    }
  }

  /** dns_hash, on a machine with words of that many bits. */
  method DnsHash(name: seq<Label>, word: nat) returns (s: nat, r: nat)
    requires word > 7
    ensures s == Bucket(name) && r == WideHash(name, word)
  {
    hide Lits, ShiftSum, Upper, Pow2, Halve, Off, HashSoFar;
    var str := Encode(name);
    ghost var w := Lits(name);
    s, r := 0, 0;
    var i: nat := 0;
    ghost var j: nat := 0;
    WireByte(name, 0);
    Nothing(w, word);
    NoOffset(name);
    while str[i] != 0
      invariant j <= |name| && i == Off(name, j) <= |w| && HashSoFar(w, i, word, s, r)
      decreases |w| - i
    {
      LengthByte(name, j, i);
      s, r, i := HashLabel(name, word, i, j, s, r);
      j := j + 1;
    }
    AtEnd(name, j, i, word, s, r);
    s := Halve(s);
    s := Halve(s);
    s := s % HASH_NUM_BUCKETS;
  }

  lemma NoOffset(name: seq<Label>)
    ensures Off(name, 0) == 0
  {
  }

  lemma Nothing(w: seq<byte>, word: nat)
    requires word > 7
    ensures HashSoFar(w, 0, word, 0, 0)
  {
    assert w[..0] == [];
    ZeroMod(Pow2(word));
  }

  lemma ZeroMod(m: nat)
    requires m > 0
    ensures 0 % m == 0
  {
  }

  /** A length byte is its own upper case. */
  lemma LengthByte(name: seq<Label>, j: nat, i: nat)
    requires j <= |name| && i == Off(name, j) < |Encode(name)| && Encode(name)[i] != 0
    ensures j < |name| && i < |Lits(name)| && Lits(name)[i] == Encode(name)[i] == |name[j]|
    ensures Upper(Lits(name)[i]) == Lits(name)[i] && Off(name, j) < Off(name, j + 1)
  {
    WireByte(name, j);
  }

  lemma AtEnd(name: seq<Label>, j: nat, i: nat, word: nat, s: nat, r: nat)
    requires word > 7 && j <= |name| && i == Off(name, j) < |Encode(name)| && Encode(name)[i] == 0
    requires HashSoFar(Lits(name), i, word, s, r)
    ensures Halve(Halve(s)) % HASH_NUM_BUCKETS == Bucket(name) && r == WideHash(name, word)
  {
    WireByte(name, j);
    OffEnd(name);
    assert Lits(name)[..i] == Lits(name);
  }

  /** s+=c<<(i%(HASH_SZ-5)) and the like for r. */
  method AddByte(ghost w: seq<byte>, i: nat, c: byte, word: nat, s: nat, r: nat) returns (s': nat, r': nat)
    requires i < |w| && Upper(w[i]) == c && word > 7
    requires HashSoFar(w, i, word, s, r)
    ensures HashSoFar(w, i + 1, word, s', r')
  {
    ShiftStep(w, i, 5, 0x1_0000_0000);
    ShiftStep(w, i, word - 7, Pow2(word));
    s' := (s + c * Pow2(i % (HASH_SZ - 5))) % 0x1_0000_0000;
    r' := (r + c * Pow2(i % (word - 7))) % Pow2(word);
  }

  // ---------- chains ----------

  datatype HashEnt<T> = HashEnt(rhash: nat, qname: seq<Label>, data: T)

  ghost predicate EntOk<T>(he: HashEnt<T>, b: nat, word: nat)
    requires word > 7
  {
    he.rhash == WideHash(he.qname, word) && Bucket(he.qname) == b && |Encode(he.qname)| <= DNSNAMEBUFSIZE
  }

  /** A chain: its entries belong there, are in ascending order of the wide hash, and have
      different names. */
  ghost predicate ChainOk<T>(chain: seq<HashEnt<T>>, b: nat, word: nat)
    requires word > 7
  {
    && (forall i :: 0 <= i < |chain| ==> EntOk(chain[i], b, word))
    && (forall i, j :: 0 <= i < j < |chain| ==> chain[i].rhash <= chain[j].rhash)
    && (forall i, j :: 0 <= i < j < |chain| ==> KeyOf(chain[i].qname) != KeyOf(chain[j].qname))
  }

  ghost predicate Holds<T>(chain: seq<HashEnt<T>>, k: Key) {
    exists i :: 0 <= i < |chain| && KeyOf(chain[i].qname) == k
  }

  /** The chains amount to the map from folded names to data. */
  ghost predicate TableOk<T>(bs: seq<seq<HashEnt<T>>>, word: nat, contents: map<Key, T>)
    requires word > 7
  {
    && |bs| == HASH_NUM_BUCKETS
    && (forall b :: 0 <= b < |bs| ==> ChainOk(bs[b], b, word))
    && (forall b, i :: 0 <= b < |bs| && 0 <= i < |bs[b]| ==>
          KeyOf(bs[b][i].qname) in contents && contents[KeyOf(bs[b][i].qname)] == bs[b][i].data)
    && (forall k :: k in contents ==> exists b :: 0 <= b < |bs| && Holds(bs[b], k))
  }

  /** A name is looked for in one chain only. */
  lemma OneBucket<T>(he: HashEnt<T>, b: nat, name: seq<Label>, word: nat)
    requires word > 7 && EntOk(he, b, word) && KeyOf(he.qname) == KeyOf(name)
    ensures b == Bucket(name) && he.rhash == WideHash(name, word)
  {
    KeySame(he.qname, name);
    SameHash(he.qname, name, word);
  }

  /** One chain changed, and the map with it. */
  lemma TableUpdate<T>(bs: seq<seq<HashEnt<T>>>, word: nat, contents: map<Key, T>, b: nat, chain: seq<HashEnt<T>>,
      contents': map<Key, T>)
    requires word > 7 && TableOk(bs, word, contents) && b < |bs| && ChainOk(chain, b, word)
    requires forall i :: 0 <= i < |chain| ==>
      KeyOf(chain[i].qname) in contents' && contents'[KeyOf(chain[i].qname)] == chain[i].data
    requires forall k :: k in contents' && Holds(bs[b], k) ==> Holds(chain, k)
    requires forall k :: k in contents' && !Holds(bs[b], k) && !Holds(chain, k) ==> k in contents
    requires forall k :: k in contents && !Holds(bs[b], k) && !Holds(chain, k) ==>
      k in contents' && contents'[k] == contents[k]
    ensures TableOk(bs[b := chain], word, contents')
  {
    var t: seq<seq<HashEnt<T>>> := bs[b := chain];
    hide ChainOk, Holds, KeyOf;
    forall c, i | 0 <= c < |t| && 0 <= i < |t[c]|
      ensures KeyOf(t[c][i].qname) in contents' && contents'[KeyOf(t[c][i].qname)] == t[c][i].data
    {
      if c != b {
        StillThere(bs, word, contents, b, chain, contents', c, i);
      }
    }
    forall k | k in contents' ensures exists c :: 0 <= c < |t| && Holds(t[c], k) {
      StillHeld(bs, word, contents, b, chain, k);
    }
  }

  lemma StillThere<T>(bs: seq<seq<HashEnt<T>>>, word: nat, contents: map<Key, T>, b: nat, chain: seq<HashEnt<T>>,
      contents': map<Key, T>, c: nat, i: nat)
    requires word > 7 && TableOk(bs, word, contents) && b < |bs| && ChainOk(chain, b, word)
    requires c < |bs| && c != b && i < |bs[c]|
    requires forall k :: k in contents && !Holds(bs[b], k) && !Holds(chain, k) ==>
      k in contents' && contents'[k] == contents[k]
    ensures KeyOf(bs[c][i].qname) in contents' && contents'[KeyOf(bs[c][i].qname)] == bs[c][i].data
  {
    hide ChainOk, Holds, KeyOf;
    Elsewhere(bs[c], c, i, bs[b], b, word);
    Elsewhere(bs[c], c, i, chain, b, word);
  }

  lemma StillHeld<T>(bs: seq<seq<HashEnt<T>>>, word: nat, contents: map<Key, T>, b: nat, chain: seq<HashEnt<T>>, k: Key)
    requires word > 7 && TableOk(bs, word, contents) && b < |bs|
    requires Holds(chain, k) || (!Holds(bs[b], k) && k in contents)
    ensures var t: seq<seq<HashEnt<T>>> := bs[b := chain]; exists c :: 0 <= c < |t| && Holds(t[c], k)
  {
    hide ChainOk, Holds, KeyOf;
    var t: seq<seq<HashEnt<T>>> := bs[b := chain];
    if Holds(chain, k) {
      assert Holds(t[b], k);
    } else {
      var c :| 0 <= c < |bs| && Holds(bs[c], k);
      assert Holds(t[c], k);
    }
  }

  /** What one chain holds no other chain does. */
  lemma Elsewhere<T>(chain: seq<HashEnt<T>>, c: nat, i: nat, other: seq<HashEnt<T>>, b: nat, word: nat)
    requires word > 7 && ChainOk(chain, c, word) && ChainOk(other, b, word) && c != b && i < |chain|
    ensures !Holds(other, KeyOf(chain[i].qname))
  {
    OneBucket(chain[i], c, chain[i].qname, word);
    if Holds(other, KeyOf(chain[i].qname)) {
      var j :| 0 <= j < |other| && KeyOf(other[j].qname) == KeyOf(chain[i].qname);
      OneBucket(other[j], b, chain[i].qname, word);
    }
  }

  /** Where an entry of that name is or would be put: dns_hash_loc_t, the pointer as an index. */
  datatype Loc = Loc(bucket: nat, pos: nat, rhash: nat)

  ghost predicate IsAt<T>(bs: seq<seq<HashEnt<T>>>, loc: Loc, name: seq<Label>) {
    loc.bucket < |bs| && loc.pos < |bs[loc.bucket]| && KeyOf(bs[loc.bucket][loc.pos].qname) == KeyOf(name)
  }

  ghost predicate IsFree<T>(bs: seq<seq<HashEnt<T>>>, loc: Loc, name: seq<Label>, word: nat)
    requires word > 7
  {
    && loc.bucket == Bucket(name) < |bs| && loc.pos <= |bs[loc.bucket]| && loc.rhash == WideHash(name, word)
    && (forall i :: 0 <= i < |bs[loc.bucket]| ==> KeyOf(bs[loc.bucket][i].qname) != KeyOf(name))
    && (forall i :: 0 <= i < loc.pos ==> bs[loc.bucket][i].rhash <= loc.rhash)
    && (forall i :: loc.pos <= i < |bs[loc.bucket]| ==> bs[loc.bucket][i].rhash > loc.rhash)
  }

  /** The early exit misses nothing. */
  lemma NotBeyond<T>(chain: seq<HashEnt<T>>, b: nat, word: nat, n: nat, name: seq<Label>)
    requires word > 7 && ChainOk(chain, b, word) && b == Bucket(name) && n <= |chain|
    requires n < |chain| ==> chain[n].rhash > WideHash(name, word)
    ensures forall i :: n <= i < |chain| ==>
      chain[i].rhash > WideHash(name, word) && KeyOf(chain[i].qname) != KeyOf(name)
  {
    forall i | n <= i < |chain|
      ensures chain[i].rhash > WideHash(name, word) && KeyOf(chain[i].qname) != KeyOf(name)
    {
      assert EntOk(chain[i], b, word);
      if KeyOf(chain[i].qname) == KeyOf(name) {
        OneBucket(chain[i], b, name, word);
      }
    }
  }

  lemma AbsentFromTable<T>(bs: seq<seq<HashEnt<T>>>, word: nat, contents: map<Key, T>, name: seq<Label>)
    requires word > 7 && TableOk(bs, word, contents) && !Holds(bs[Bucket(name)], KeyOf(name))
    ensures KeyOf(name) !in contents
  {
    if KeyOf(name) in contents {
      var b :| 0 <= b < |bs| && Holds(bs[b], KeyOf(name));
      var i :| 0 <= i < |bs[b]| && KeyOf(bs[b][i].qname) == KeyOf(name);
      OneBucket(bs[b][i], b, name, word);
    }
  }

  /** Putting an entry at a free location keeps the chain in order. */
  lemma ChainInsert<T>(bs: seq<seq<HashEnt<T>>>, word: nat, contents: map<Key, T>, loc: Loc, name: seq<Label>, data: T)
    requires word > 7 && TableOk(bs, word, contents) && IsFree(bs, loc, name, word)
    requires |Encode(name)| <= DNSNAMEBUFSIZE
    ensures var c := bs[loc.bucket];
      TableOk(bs[loc.bucket := c[..loc.pos] + [HashEnt(loc.rhash, name, data)] + c[loc.pos..]], word,
        contents[KeyOf(name) := data])
  {
    var b, n, c := loc.bucket, loc.pos, bs[loc.bucket];
    var he := HashEnt(loc.rhash, name, data);
    InsertedOk(c, b, word, n, he);
    InsertedHolds(c, n, he);
    hide ChainOk, Holds, KeyOf, TableOk;
    TableUpdate(bs, word, contents, b, c[..n] + [he] + c[n..], contents[KeyOf(name) := data]);
  }

  lemma InsertedOk<T>(c: seq<HashEnt<T>>, b: nat, word: nat, n: nat, he: HashEnt<T>)
    requires word > 7 && ChainOk(c, b, word) && EntOk(he, b, word) && n <= |c|
    requires forall i :: 0 <= i < |c| ==> KeyOf(c[i].qname) != KeyOf(he.qname)
    requires forall i :: 0 <= i < n ==> c[i].rhash <= he.rhash
    requires forall i :: n <= i < |c| ==> c[i].rhash > he.rhash
    ensures ChainOk(c[..n] + [he] + c[n..], b, word)
  {
    hide EntOk, KeyOf;
    var d := c[..n] + [he] + c[n..];
    assert forall i :: 0 <= i < |d| ==> d[i] == if i < n then c[i] else if i == n then he else c[i - 1];
  }

  lemma InsertedHolds<T>(c: seq<HashEnt<T>>, n: nat, he: HashEnt<T>)
    requires n <= |c|
    ensures var d := c[..n] + [he] + c[n..];
      forall k :: Holds(d, k) <==> Holds(c, k) || k == KeyOf(he.qname)
  {
    hide KeyOf;
    var d := c[..n] + [he] + c[n..];
    assert d[n] == he;
    forall k ensures Holds(d, k) <==> Holds(c, k) || k == KeyOf(he.qname) {
      if Holds(c, k) {
        var i :| 0 <= i < |c| && KeyOf(c[i].qname) == k;
        assert d[if i < n then i else i + 1] == c[i];
      }
    }
  }

  /** Taking an entry out. */
  lemma ChainDelete<T>(bs: seq<seq<HashEnt<T>>>, word: nat, contents: map<Key, T>, loc: Loc, name: seq<Label>)
    requires word > 7 && TableOk(bs, word, contents) && IsAt(bs, loc, name)
    ensures var c := bs[loc.bucket];
      TableOk(bs[loc.bucket := c[..loc.pos] + c[loc.pos + 1..]], word, contents - {KeyOf(name)})
    ensures KeyOf(name) in contents && contents[KeyOf(name)] == bs[loc.bucket][loc.pos].data
  {
    hide ChainOk, Holds, KeyOf;
    var b, n, c := loc.bucket, loc.pos, bs[loc.bucket];
    DeletedOk(c, b, word, n);
    DeletedHolds(c, b, word, n);
    var d := c[..n] + c[n + 1..];
    forall i | 0 <= i < |d|
      ensures KeyOf(d[i].qname) in contents - {KeyOf(name)} && contents[KeyOf(d[i].qname)] == d[i].data
    {
      assert d[i] == c[if i < n then i else i + 1];
    }
    TableUpdate(bs, word, contents, b, d, contents - {KeyOf(name)});
  }

  lemma DeletedOk<T>(c: seq<HashEnt<T>>, b: nat, word: nat, n: nat)
    requires word > 7 && ChainOk(c, b, word) && n < |c|
    ensures ChainOk(c[..n] + c[n + 1..], b, word)
  {
    hide EntOk, KeyOf;
    var d := c[..n] + c[n + 1..];
    assert forall i :: 0 <= i < |d| ==> d[i] == c[if i < n then i else i + 1];
  }

  lemma DeletedHolds<T>(c: seq<HashEnt<T>>, b: nat, word: nat, n: nat)
    requires word > 7 && ChainOk(c, b, word) && n < |c|
    ensures var d := c[..n] + c[n + 1..];
      && (forall k :: Holds(d, k) <==> Holds(c, k) && k != KeyOf(c[n].qname)) && Holds(c, KeyOf(c[n].qname))
      && (forall i :: 0 <= i < |d| ==> d[i] == c[if i < n then i else i + 1] && KeyOf(d[i].qname) != KeyOf(c[n].qname))
  {
    hide KeyOf, Holds, EntOk;
    var d := c[..n] + c[n + 1..];
    assert forall i :: 0 <= i < |d| ==> d[i] == c[if i < n then i else i + 1];
    HoldsItself(c, n);
    forall k ensures Holds(d, k) <==> Holds(c, k) && k != KeyOf(c[n].qname) {
      DeletedHoldsAt(c, n, k);
    }
  }

  lemma HoldsItself<T>(c: seq<HashEnt<T>>, n: nat)
    requires n < |c|
    ensures Holds(c, KeyOf(c[n].qname))
  {
  }

  lemma DeletedHoldsAt<T>(c: seq<HashEnt<T>>, n: nat, k: Key)
    requires n < |c| && forall i :: 0 <= i < |c| && i != n ==> KeyOf(c[i].qname) != KeyOf(c[n].qname)
    ensures Holds(c[..n] + c[n + 1..], k) <==> Holds(c, k) && k != KeyOf(c[n].qname)
  {
    hide KeyOf;
    var d := c[..n] + c[n + 1..];
    if Holds(d, k) {
      var i :| 0 <= i < |d| && KeyOf(d[i].qname) == k;
      assert c[if i < n then i else i + 1] == d[i];
    }
    if Holds(c, k) && k != KeyOf(c[n].qname) {
      var i :| 0 <= i < |c| && KeyOf(c[i].qname) == k;
      assert d[if i < n then i else i - 1] == c[i];
    }
  }

  // ---------- deleting by rule ----------

  /** An entry of an include/exclude list. */
  datatype Rule = Rule(domain: seq<Label>, exact: bool, included: bool)

  /** The rule's domain is the name itself or, unless an exact match is asked for, a domain the
      name is in. */
  predicate Matches(r: Rule, name: seq<Label>) {
    var n := CommonSuffix(name, r.domain);
    n == |r.domain| && (!r.exact || n == |name|)
  }

  /** The first rule that matches decides; by default nothing is deleted. */
  predicate Selected(rules: seq<Rule>, name: seq<Label>) {
    rules != [] && if Matches(rules[0], name) then rules[0].included else Selected(rules[1..], name)
  }

  function Unselected<T>(rules: seq<Rule>, chain: seq<HashEnt<T>>): seq<HashEnt<T>> {
    if chain == [] then []
    else (if Selected(rules, chain[0].qname) then [] else [chain[0]]) + Unselected(rules, chain[1..])
  }

  /** The domain of the rule is the end of the name, label by label up to case; all of it for an
      exact rule. */
  ghost predicate Fits(r: Rule, name: seq<Label>) {
    && |r.domain| <= |name| && Same(name[|name| - |r.domain|..], r.domain)
    && (r.exact ==> |r.domain| == |name|)
  }

  ghost predicate Decides(rules: seq<Rule>, i: nat, name: seq<Label>) {
    i < |rules| && Fits(rules[i], name) && forall j :: 0 <= j < i ==> !Fits(rules[j], name)
  }

  lemma MatchesMeans(r: Rule, name: seq<Label>)
    ensures Matches(r, name) <==> Fits(r, name)
  {
    var d := r.domain;
    if |d| <= |name| {
      CommonSuffixIsLongest(name, d);
      assert Tail(name, |d|) == name[|name| - |d|..] && Tail(d, |d|) == d;
    }
  }

  /** A name is selected just if the rule that decides about it is an include. */
  lemma {:induction false} SelectedMeans(rules: seq<Rule>, name: seq<Label>)
    ensures Selected(rules, name) <==> exists i: nat :: Decides(rules, i, name) && rules[i].included
  {
    hide Matches, Fits;
    if rules != [] {
      MatchesMeans(rules[0], name);
      SelectedMeans(rules[1..], name);
      if Fits(rules[0], name) {
        assert Decides(rules, 0, name);
      } else {
        forall i: nat ensures Decides(rules, i + 1, name) <==> Decides(rules[1..], i, name) {
          NotTheFirst(rules, i, name);
        }
        if i: nat :| Decides(rules[1..], i, name) && rules[1..][i].included {
          assert Decides(rules, i + 1, name);
        }
        if i: nat :| Decides(rules, i, name) && rules[i].included {
          assert Decides(rules, i - 1 + 1, name);
          assert Decides(rules[1..], i - 1, name);
        }
      }
    }
  }

  lemma NotTheFirst(rules: seq<Rule>, i: nat, name: seq<Label>)
    requires rules != [] && !Fits(rules[0], name)
    ensures Decides(rules, i + 1, name) <==> Decides(rules[1..], i, name)
  {
    hide Fits;
    var t := rules[1..];
    if Decides(t, i, name) {
      forall j | 0 <= j < i + 1 ensures !Fits(rules[j], name) {
        assert j > 0 ==> rules[j] == t[j - 1];
      }
    }
    if Decides(rules, i + 1, name) {
      forall j | 0 <= j < i ensures !Fits(t[j], name) {
        assert t[j] == rules[j + 1];
      }
    }
  }

  /** Whether an entry stays depends on itself alone: it goes just if an include decides. */
  lemma UnselectedMeans<T>(rules: seq<Rule>, x: HashEnt<T>)
    ensures Unselected(rules, [x]) ==
      if exists i: nat :: Decides(rules, i, x.qname) && rules[i].included then [] else [x]
  {
    hide Selected, Decides;
    SelectedMeans(rules, x.qname);
    var none: seq<HashEnt<T>> := [x][1..];
    assert none == [];
  }

  // ---------- walking the table ----------

  /** All entries from chain b on. */
  function AllFrom<T>(bs: seq<seq<HashEnt<T>>>, b: nat): seq<HashEnt<T>>
    requires b <= |bs|
    decreases |bs| - b
  {
    if b == |bs| then [] else bs[b] + AllFrom(bs, b + 1)
  }

  lemma AllFromNext<T>(bs: seq<seq<HashEnt<T>>>, b: nat)
    requires b < |bs|
    ensures bs[b] == [] ==> AllFrom(bs, b) == AllFrom(bs, b + 1)
    ensures bs[b] != [] ==> AllFrom(bs, b) == [bs[b][0]] + (bs[b][1..] + AllFrom(bs, b + 1))
  {
    if bs[b] != [] {
      assert bs[b] == [bs[b][0]] + bs[b][1..];
      assert ([bs[b][0]] + bs[b][1..]) + AllFrom(bs, b + 1) == [bs[b][0]] + (bs[b][1..] + AllFrom(bs, b + 1));
    }
  }

  lemma AllFromEnd<T>(bs: seq<seq<HashEnt<T>>>)
    ensures AllFrom(bs, |bs|) == []
  {
  }

  lemma {:induction false} AllFromSame<T>(bs: seq<seq<HashEnt<T>>>, cs: seq<seq<HashEnt<T>>>, b: nat)
    requires b <= |bs| == |cs| && forall c :: b <= c < |bs| ==> bs[c] == cs[c]
    ensures AllFrom(bs, b) == AllFrom(cs, b)
    decreases |bs| - b
  {
    if b < |bs| {
      AllFromSame(bs, cs, b + 1);
    }
  }

  /** dns_hash_pos_t: ent, a pointer into the chain, as the number of entries from it to the end
      of the chain, which deleting earlier ones does not change. */
  datatype Position = Position(bucket: nat, ent: nat)

  /** The entries that fetch_next has still to return. */
  function Ahead<T>(bs: seq<seq<HashEnt<T>>>, p: Position): seq<HashEnt<T>>
    requires p.bucket < |bs| && p.ent <= |bs[p.bucket]|
  {
    bs[p.bucket][|bs[p.bucket]| - p.ent..] + AllFrom(bs, p.bucket + 1)
  }

  lemma AheadStep<T>(bs: seq<seq<HashEnt<T>>>, p: Position)
    requires p.bucket < |bs| && 0 < p.ent <= |bs[p.bucket]|
    ensures var c := bs[p.bucket]; Ahead(bs, p) == [c[|c| - p.ent]] + Ahead(bs, p.(ent := p.ent - 1))
  {
    var c := bs[p.bucket];
    assert c[|c| - p.ent..] == [c[|c| - p.ent]] + c[|c| - p.ent + 1..];
    hide AllFrom;
    var rest := AllFrom(bs, p.bucket + 1);
    assert [c[|c| - p.ent]] + c[|c| - p.ent + 1..] + rest == [c[|c| - p.ent]] + (c[|c| - p.ent + 1..] + rest);
  }

  /** Nothing ahead of a position depends on what is before it in the chain. */
  lemma AheadSame<T>(bs: seq<seq<HashEnt<T>>>, cs: seq<seq<HashEnt<T>>>, p: Position, n: nat)
    requires p.bucket < |bs| == |cs| && n < |bs[p.bucket]| && p.ent == |bs[p.bucket]| - n - 1
    requires cs[p.bucket] == bs[p.bucket][..n] + bs[p.bucket][n + 1..]
    requires forall b :: 0 <= b < |bs| && b != p.bucket ==> cs[b] == bs[b]
    ensures Ahead(cs, p) == Ahead(bs, p)
  {
    AllFromSame(bs, cs, p.bucket + 1);
    var c, d := bs[p.bucket], cs[p.bucket];
    assert d[|d| - p.ent..] == c[|c| - p.ent..];
  }

  /** A name is in one place only. */
  lemma OnePlace<T>(bs: seq<seq<HashEnt<T>>>, word: nat, contents: map<Key, T>, loc: Loc, b: nat, n: nat)
    requires word > 7 && TableOk(bs, word, contents) && b < |bs| && n < |bs[b]| && IsAt(bs, loc, bs[b][n].qname)
    ensures loc.bucket == b && loc.pos == n
  {
    var name := bs[b][n].qname;
    OneBucket(bs[b][n], b, name, word);
    OneBucket(bs[loc.bucket][loc.pos], loc.bucket, name, word);
  }

  class Table<T> {
    /** The number of bits of an unsigned long. */
    const word: nat
    const buckets: array<seq<HashEnt<T>>>
    ghost var contents: map<Key, T>

    ghost predicate Valid()
      reads this, buckets
    {
      word > 7 && TableOk(buckets[..], word, contents)
    }

    constructor (word: nat)
      requires word > 7
      ensures Valid() && contents == map[] && fresh(buckets) && this.word == word
    {
      this.word := word;
      buckets := new seq<HashEnt<T>>[HASH_NUM_BUCKETS](_ => []);
      contents := map[];
    }

    /** The loop shared by dns_lookup and del_dns_hash. */
    method Search(name: seq<Label>) returns (found: bool, loc: Loc)
      requires Valid() && |Encode(name)| <= DNSNAMEBUFSIZE
      ensures found == (KeyOf(name) in contents)
      ensures found ==> IsAt(buckets[..], loc, name)
      ensures !found ==> IsFree(buckets[..], loc, name, word)
    {
      hide WideHash, Bucket, Holds, TableOk, KeyOf, Same, Encode;
      var idx, rh := DnsHash(name, word);
      ChainHere(idx);
      var i: nat := 0;
      ghost var c := buckets[idx];
      assert buckets[..][idx] == c;
      while i < |buckets[idx]| && buckets[idx][i].rhash <= rh
        invariant i <= |c| && c == buckets[idx]
        invariant forall j :: 0 <= j < i ==> c[j].rhash <= rh && KeyOf(c[j].qname) != KeyOf(name)
      {
        var he := buckets[idx][i];
        if he.rhash == rh {
          KeySame(name, he.qname);
          var same := RhnICmp(Encode(name), Encode(he.qname), name, he.qname);
          if same {
            EntryHere(idx, i);
            return true, Loc(idx, i, rh);
          }
        } else {
          DifferentHash(he, idx, name, word);
        }
        i := i + 1;
      }
      NotBeyond(c, idx, word, i, name);
      NotHeld(c, name);
      AbsentFromTable(buckets[..], word, contents, name);
      found, loc := false, Loc(idx, i, rh);
    }

    lemma ChainHere(b: nat)
      requires Valid() && b < HASH_NUM_BUCKETS
      ensures b < buckets.Length && ChainOk(buckets[b], b, word)
    {
      assert buckets[..][b] == buckets[b];
    }

    lemma EntryHere(b: nat, i: nat)
      requires Valid() && b < buckets.Length && i < |buckets[b]|
      ensures KeyOf(buckets[b][i].qname) in contents
      ensures contents[KeyOf(buckets[b][i].qname)] == buckets[b][i].data
    {
      assert buckets[..][b] == buckets[b];
    }

    /** dns_lookup. */
    method DnsLookup(name: seq<Label>) returns (ret: Option<T>, loc: Loc)
      requires Valid() && |Encode(name)| <= DNSNAMEBUFSIZE
      ensures ret == if KeyOf(name) in contents then Some(contents[KeyOf(name)]) else None
      ensures ret.Some? ==> IsAt(buckets[..], loc, name)
      ensures ret.None? ==> IsFree(buckets[..], loc, name, word)
    {
      var found;
      found, loc := Search(name);
      ret := None;
      if found {
        assert buckets[..][loc.bucket] == buckets[loc.bucket];
        EntryHere(loc.bucket, loc.pos);
        ret := Some(buckets[loc.bucket][loc.pos].data);
      }
    }

    /** add_dns_hash, at the location dns_lookup has found. */
    method AddDnsHash(name: seq<Label>, data: T, loc: Loc, mem: bool) returns (ok: bool)
      requires Valid() && |Encode(name)| <= DNSNAMEBUFSIZE && IsFree(buckets[..], loc, name, word)
      modifies buckets, `contents
      ensures Valid() && ok == mem
      ensures contents == if ok then old(contents)[KeyOf(name) := data] else old(contents)
      ensures !ok ==> buckets[..] == old(buckets[..])
    {
      ok := mem;
      if ok {
        ChainInsert(buckets[..], word, contents, loc, name, data);
        hide TableOk, IsFree;
        ghost var bs := buckets[..];
        var c := buckets[loc.bucket];
        buckets[loc.bucket] := c[..loc.pos] + [HashEnt(loc.rhash, name, data)] + c[loc.pos..];
        assert buckets[..] == bs[loc.bucket := buckets[loc.bucket]];
        contents := contents[KeyOf(name) := data];
      }
    }

    /** del_dns_hash_ent. */
    method DelDnsHashEnt(loc: Loc, ghost name: seq<Label>) returns (data: T)
      requires Valid() && IsAt(buckets[..], loc, name)
      modifies buckets, `contents
      ensures Valid() && KeyOf(name) in old(contents) && data == old(contents)[KeyOf(name)]
      ensures contents == old(contents) - {KeyOf(name)}
      ensures buckets.Length == HASH_NUM_BUCKETS && loc.pos < |old(buckets[loc.bucket])|
      ensures forall b :: 0 <= b < buckets.Length && b != loc.bucket ==> buckets[b] == old(buckets[b])
      ensures buckets[loc.bucket] == old(buckets[loc.bucket])[..loc.pos] + old(buckets[loc.bucket])[loc.pos + 1..]
    {
      LengthFixed();
      ChainDelete(buckets[..], word, contents, loc, name);
      hide TableOk;
      ghost var bs := buckets[..];
      var c := buckets[loc.bucket];
      data := c[loc.pos].data;
      buckets[loc.bucket] := c[..loc.pos] + c[loc.pos + 1..];
      assert buckets[..] == bs[loc.bucket := buckets[loc.bucket]];
      contents := contents - {KeyOf(name)};
    }

    /** del_dns_hash. */
    method DelDnsHash(name: seq<Label>) returns (ret: Option<T>, loc: Loc)
      requires Valid() && |Encode(name)| <= DNSNAMEBUFSIZE
      modifies buckets, `contents
      ensures Valid() && contents == old(contents) - {KeyOf(name)}
      ensures ret == if KeyOf(name) in old(contents) then Some(old(contents)[KeyOf(name)]) else None
      ensures ret.Some? ==> IsAt(old(buckets[..]), loc, name)
      ensures buckets.Length == HASH_NUM_BUCKETS
      ensures forall b :: 0 <= b < buckets.Length && (b != loc.bucket || ret.None?) ==> buckets[b] == old(buckets[b])
      ensures ret.Some? ==>
        buckets[loc.bucket] == old(buckets[loc.bucket])[..loc.pos] + old(buckets[loc.bucket])[loc.pos + 1..]
      ensures ret.None? ==> buckets[..] == old(buckets[..])
    {
      LengthFixed();
      var found;
      found, loc := Search(name);
      ret := None;
      if found {
        var data := DelDnsHashEnt(loc, name);
        ret := Some(data);
      }
    }

    /** The inner loop of free_dns_hash_selected. */
    method IsSelected(rules: seq<Rule>, name: seq<Label>) returns (r: bool)
      requires |Encode(name)| <= DNSNAMEBUFSIZE
      requires forall j :: 0 <= j < |rules| ==> |Encode(rules[j].domain)| <= DNSNAMEBUFSIZE
      ensures r == Selected(rules, name)
    {
      hide Encode, Lits;
      var j: nat := 0;
      while j < |rules|
        invariant j <= |rules| && Selected(rules, name) == Selected(rules[j..], name)
      {
        var sl := rules[j];
        var n, nrem, lrem := DomainMatch(Encode(name), Encode(sl.domain), name, sl.domain);
        NothingLeft(name, n);
        NothingLeft(sl.domain, n);
        assert rules[j..][0] == sl && rules[j..][1..] == rules[j + 1..];
        if lrem == 0 && (!sl.exact || nrem == 0) {
          return sl.included;
        }
        j := j + 1;
      }
      r := false;
    }

    /** One turn of the loop of free_dns_hash_selected: c is the chain as it was, m how many of
        its entries have been dealt with. */
    method FreeNext(b: nat, i: nat, rules: seq<Rule>, ghost c: seq<HashEnt<T>>, ghost m: nat, ghost e: map<Key, T>)
      returns (i': nat)
      requires Valid() && b < buckets.Length && m < |c| && i == |Unselected(rules, c[..m])|
      requires forall j :: 0 <= j < |rules| ==> |Encode(rules[j].domain)| <= DNSNAMEBUFSIZE
      requires buckets[b] == Unselected(rules, c[..m]) + c[m..] && contents == e - SelectedKeys(rules, c[..m])
      modifies buckets, `contents
      ensures Valid() && forall x :: 0 <= x < buckets.Length && x != b ==> buckets[x] == old(buckets[x])
      ensures buckets[b] == Unselected(rules, c[..m + 1]) + c[m + 1..] && i' == |Unselected(rules, c[..m + 1])|
      ensures contents == e - SelectedKeys(rules, c[..m + 1])
    {
      hide TableOk, Encode, Selected, Unselected, SelectedKeys, KeyOf;
      assert buckets[b][i] == c[m];
      NextSelected(rules, c, m);
      LengthFixed();
      var he := buckets[b][i];
      NameFits(b, i);
      var go := IsSelected(rules, he.qname);
      i' := i;
      if go {
        var _ := DelDnsHashEnt(Loc(b, i, he.rhash), he.qname);
        DroppedOne(Unselected(rules, c[..m]), c, m);
      } else {
        i' := i + 1;
      }
    }

    /** free_dns_hash_selected: of one chain, just the entries whose first matching rule is an
        include go, and the rest keep their order. */
    method FreeSelected(b: nat, rules: seq<Rule>)
      requires Valid() && b < HASH_NUM_BUCKETS
      requires forall j :: 0 <= j < |rules| ==> |Encode(rules[j].domain)| <= DNSNAMEBUFSIZE
      modifies buckets, `contents
      ensures Valid() && b < buckets.Length
      ensures forall x :: 0 <= x < buckets.Length && x != b ==> buckets[x] == old(buckets[x])
      ensures buckets[b] == Unselected(rules, old(buckets[b]))
      ensures contents == old(contents) - SelectedKeys(rules, old(buckets[b]))
    {
      hide TableOk, Encode, Selected, Unselected, SelectedKeys, KeyOf;
      ghost var e := contents;
      LengthFixed();
      ghost var c := buckets[b];
      var i: nat := 0;
      ghost var m: nat := 0;
      NoneSelected(rules, c);
      assert c[..0] + c[0..] == c;
      while i < |buckets[b]|
        invariant Valid() && m <= |c| && forall x :: 0 <= x < buckets.Length && x != b ==> buckets[x] == old(buckets[x])
        invariant buckets[b] == Unselected(rules, c[..m]) + c[m..] && i == |Unselected(rules, c[..m])|
        invariant contents == e - SelectedKeys(rules, c[..m])
        decreases |c| - m
      {
        i := FreeNext(b, i, rules, c, m, e);
        m := m + 1;
      }
      assert c[..m] == c && buckets[b] == Unselected(rules, c);
    }

    lemma NameFits(b: nat, i: nat)
      requires Valid() && b < buckets.Length && i < |buckets[b]|
      ensures |Encode(buckets[b][i].qname)| <= DNSNAMEBUFSIZE
    {
      assert buckets[..][b] == buckets[b];
      assert EntOk(buckets[b][i], b, word);
    }

    /** fetch_first. */
    method FetchFirst() returns (ret: Option<HashEnt<T>>, pos: Position)
      requires Valid()
      ensures buckets.Length == HASH_NUM_BUCKETS && pos.bucket < buckets.Length
      ensures ret.None? ==> AllFrom(buckets[..], 0) == []
      ensures ret.Some? ==> pos.ent < |buckets[pos.bucket]|
      ensures ret.Some? ==> AllFrom(buckets[..], 0) == [ret.value] + Ahead(buckets[..], pos)
      ensures ret.Some? ==> ret.value == buckets[pos.bucket][|buckets[pos.bucket]| - pos.ent - 1]
    {
      hide TableOk, AllFrom;
      LengthFixed();
      var i := FirstFrom(0);
      ret, pos := None, Position(0, 0);
      if i < buckets.Length {
        ret, pos := Some(buckets[i][0]), Position(i, |buckets[i]| - 1);
      }
    }

    /** The loops of fetch_first and fetch_next over the chains. */
    method FirstFrom(from: nat) returns (i: nat)
      requires Valid() && from <= buckets.Length
      ensures from <= i <= buckets.Length == HASH_NUM_BUCKETS
      ensures AllFrom(buckets[..], from) == AllFrom(buckets[..], i)
      ensures i < buckets.Length ==> buckets[i] != []
      ensures i < buckets.Length ==>
        AllFrom(buckets[..], i) == [buckets[i][0]] + (buckets[i][1..] + AllFrom(buckets[..], i + 1))
      ensures i == buckets.Length ==> AllFrom(buckets[..], i) == []
    {
      hide TableOk, AllFrom;
      LengthFixed();
      i := from;
      while i < HASH_NUM_BUCKETS
        invariant from <= i <= buckets.Length && AllFrom(buckets[..], from) == AllFrom(buckets[..], i)
      {
        AllFromNext(buckets[..], i);
        if buckets[i] != [] {
          return;
        }
        i := i + 1;
      }
      AllFromEnd(buckets[..]);
    }

    lemma LengthFixed()
      requires Valid()
      ensures buckets.Length == HASH_NUM_BUCKETS
    {
      assert |buckets[..]| == buckets.Length;
    }

    /** fetch_next. */
    method FetchNext(pos: Position) returns (ret: Option<HashEnt<T>>, pos': Position)
      requires Valid() && pos.bucket < buckets.Length && pos.ent <= |buckets[pos.bucket]|
      ensures buckets.Length == HASH_NUM_BUCKETS && pos'.bucket < buckets.Length
      ensures ret.None? ==> Ahead(buckets[..], pos) == []
      ensures ret.Some? ==> pos'.ent < |buckets[pos'.bucket]|
      ensures ret.Some? ==> Ahead(buckets[..], pos) == [ret.value] + Ahead(buckets[..], pos')
      ensures ret.Some? ==> ret.value == buckets[pos'.bucket][|buckets[pos'.bucket]| - pos'.ent - 1]
    {
      hide TableOk, AllFrom;
      LengthFixed();
      var c := buckets[pos.bucket];
      if pos.ent > 0 {
        AheadStep(buckets[..], pos);
        return Some(c[|c| - pos.ent]), pos.(ent := pos.ent - 1);
      }
      assert c[|c|..] == [];
      var i := FirstFrom(pos.bucket + 1);
      ret, pos' := None, pos;
      if i < buckets.Length {
        ret, pos' := Some(buckets[i][0]), Position(i, |buckets[i]| - 1);
      }
    }

    /** Walking the table while deleting, at will, what was returned last: every entry is
        returned exactly once. */
    method Walk() returns (visited: seq<HashEnt<T>>)
      requires Valid()
      modifies buckets, `contents
      ensures Valid() && visited == AllFrom(old(buckets[..]), 0)
      ensures forall k :: k in contents ==> k in old(contents) && contents[k] == old(contents)[k]
    {
      hide TableOk, AllFrom, Ahead;
      ghost var all := AllFrom(buckets[..], 0);
      var ret, pos := FetchFirst();
      visited := [];
      while ret.Some?
        invariant Valid() && pos.bucket < buckets.Length && (ret.None? ==> visited == all)
        invariant ret.Some? ==> pos.ent < |buckets[pos.bucket]|
        invariant ret.Some? ==> visited + [ret.value] + Ahead(buckets[..], pos) == all
        invariant ret.Some? ==> ret.value == buckets[pos.bucket][|buckets[pos.bucket]| - pos.ent - 1]
        invariant forall k :: k in contents ==> k in old(contents) && contents[k] == old(contents)[k]
        decreases |all| - |visited|, ret
      {
        visited := visited + [ret.value];
        if * {
          DeleteLast(pos, ret.value);
        }
        ret, pos := FetchNext(pos);
      }
    }

    /** Deleting the entry just before a position does not change what is ahead of it. */
    method DeleteLast(pos: Position, he: HashEnt<T>)
      requires Valid() && pos.bucket < buckets.Length && pos.ent < |buckets[pos.bucket]|
      requires he == buckets[pos.bucket][|buckets[pos.bucket]| - pos.ent - 1]
      modifies buckets, `contents
      ensures Valid() && contents == old(contents) - {KeyOf(he.qname)}
      ensures pos.ent <= |buckets[pos.bucket]|
      ensures Ahead(buckets[..], pos) == old(Ahead(buckets[..], pos))
    {
      hide TableOk, AllFrom, KeyOf, Encode;
      LengthFixed();
      ghost var b, n, c := pos.bucket, |buckets[pos.bucket]| - pos.ent - 1, buckets[pos.bucket];
      NameFits(b, n);
      EntryHere(b, n);
      ghost var bs, e := buckets[..], contents;
      var _, loc := DelDnsHash(he.qname);
      OnePlace(bs, word, e, loc, b, n);
      AheadSame(bs, buckets[..], pos, n);
    }
  }

  lemma NothingLeft(name: seq<Label>, n: nat)
    requires n <= |name|
    ensures Off(name, |name| - n) == 0 <==> n == |name|
  {
    OffMonotone(name, 0, |name| - n);
  }

  lemma DroppedOne<T>(kept: seq<HashEnt<T>>, c: seq<HashEnt<T>>, m: nat)
    requires m < |c|
    ensures var d, i := kept + c[m..], |kept|; d[..i] + d[i + 1..] == kept + c[m + 1..]
  {
  }

  /** The names of the entries that the rules select. */
  function SelectedKeys<T>(rules: seq<Rule>, chain: seq<HashEnt<T>>): set<Key> {
    set i | 0 <= i < |chain| && Selected(rules, chain[i].qname) :: KeyOf(chain[i].qname)
  }

  lemma NoneSelected<T>(rules: seq<Rule>, c: seq<HashEnt<T>>)
    ensures Unselected(rules, c[..0]) == [] && SelectedKeys(rules, c[..0]) == {}
  {
  }

  lemma NextSelected<T>(rules: seq<Rule>, c: seq<HashEnt<T>>, m: nat)
    requires m < |c|
    ensures Unselected(rules, c[..m + 1]) ==
      Unselected(rules, c[..m]) + if Selected(rules, c[m].qname) then [] else [c[m]]
    ensures SelectedKeys(rules, c[..m + 1]) ==
      SelectedKeys(rules, c[..m]) + if Selected(rules, c[m].qname) then {KeyOf(c[m].qname)} else {}
  {
    var d := c[..m + 1];
    assert d == c[..m] + [c[m]];
    UnselectedConcat(rules, c[..m], [c[m]]);
    var s, t := SelectedKeys(rules, d), SelectedKeys(rules, c[..m]);
    forall k | k in t ensures k in s {
      var i :| 0 <= i < m && Selected(rules, c[..m][i].qname) && KeyOf(c[..m][i].qname) == k;
      assert d[i] == c[..m][i];
    }
    if Selected(rules, c[m].qname) {
      assert d[m] == c[m];
    }
  }

  lemma {:induction false} UnselectedConcat<T>(rules: seq<Rule>, a: seq<HashEnt<T>>, b: seq<HashEnt<T>>)
    ensures Unselected(rules, a + b) == Unselected(rules, a) + Unselected(rules, b)
  {
    if a == [] {
      assert a + b == b;
    } else {
      assert (a + b)[0] == a[0] && (a + b)[1..] == a[1..] + b;
      UnselectedConcat(rules, a[1..], b);
    }
  }

  lemma DifferentHash<T>(he: HashEnt<T>, b: nat, name: seq<Label>, word: nat)
    requires word > 7 && EntOk(he, b, word) && he.rhash != WideHash(name, word)
    ensures KeyOf(he.qname) != KeyOf(name)
  {
    if KeyOf(he.qname) == KeyOf(name) {
      OneBucket(he, b, name, word);
    }
  }

  lemma NotHeld<T>(c: seq<HashEnt<T>>, name: seq<Label>)
    requires forall j :: 0 <= j < |c| ==> KeyOf(c[j].qname) != KeyOf(name)
    ensures !Holds(c, KeyOf(name))
  {
  }
}
