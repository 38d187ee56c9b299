/** What the data of each type of record are, in a message and in the cache (RFC 1035 section 3.3,
    RFC 1183, RFC 2163, RFC 2230, RFC 2535, RFC 2782, RFC 2915, RFC 4025, RFC 4034), said type by
    type; and that rrs2cent stores just these, and add_rr compresses just the names in them. */
module RecordData {
  import opened Names
  import opened Wrappers
  import opened Decompress
  import opened Compress
  import opened Records

  /** The name ls stands at pos, as decompress_name accepts it, and ends before next. */
  ghost predicate NameAt(m: seq<byte>, pos: nat, end: nat, ls: seq<Label>, next: nat) {
    && (exists h :: h <= 255 && Denotes(m, pos, ls, h))
    && |Encode(ls)| <= DNSNAMEBUFSIZE && next == pos + InPlaceLen(m, pos) && next <= end
  }

  // ---------- shapes of data ----------

  ghost predicate OneName(m: seq<byte>, pos: nat, end: nat, data: seq<byte>) {
    exists a :: NameAt(m, pos, end, a, end) && data == Encode(a)
  }

  ghost predicate TwoNames(m: seq<byte>, pos: nat, end: nat, data: seq<byte>) {
    exists a, i: nat, b :: NameAt(m, pos, end, a, i) && NameAt(m, i, end, b, end) && data == Encode(a) + Encode(b)
  }

  /** Two names and a fixed number of bytes, as in SOA data. */
  ghost predicate TwoNamesAnd(m: seq<byte>, pos: nat, end: nat, n: nat, data: seq<byte>) {
    end <= |m| && exists a, i: nat, b, j: nat ::
      NameAt(m, pos, end, a, i) && NameAt(m, i, end, b, j) && j + n == end
      && data == Encode(a) + Encode(b) + m[j..end]
  }

  ghost predicate NameAndRest(m: seq<byte>, pos: nat, end: nat, data: seq<byte>) {
    end <= |m| && exists a, i: nat :: NameAt(m, pos, end, a, i) && data == Encode(a) + m[i..end]
  }

  /** After a first part of n bytes. */
  ghost predicate After(m: seq<byte>, pos: nat, n: nat, end: nat, data: seq<byte>) {
    pos + n <= end <= |m| && n <= |data| && data[..n] == m[pos..pos + n]
  }

  /** The place behind a character string; out of the message if it begins there. */
  function StringEnd(m: seq<byte>, pos: nat): (r: nat)
    ensures r > pos && (pos >= |m| ==> r > |m|)
  {
    pos + 1 + if pos < |m| then m[pos] as nat else |m|
  }

  /** The three strings of NAPTR data, which begin at pos, are all there before end. */
  predicate ThreeStrings(m: seq<byte>, pos: nat, end: nat) {
    var i := StringEnd(m, pos);
    var j := StringEnd(m, i);
    pos < end && i < end && j < end && StringEnd(m, j) <= end
  }

  function StringsEnd(m: seq<byte>, pos: nat): nat {
    StringEnd(m, StringEnd(m, StringEnd(m, pos)))
  }

  /** A whole uncompressed name stands at pos. */
  ghost predicate PlainName(m: seq<byte>, pos: nat, end: nat) {
    pos <= end <= |m| && exists a :: Encode(a) <= m[pos..end] && |Encode(a)| <= DNSNAMEBUFSIZE
  }

  /** Data with a name from n on that should not be compressed: kept whole if it is not, and else
      with the name written out. */
  ghost predicate Sealed(m: seq<byte>, pos: nat, n: nat, end: nat, data: seq<byte>) {
    && pos + n <= end <= |m|
    && if PlainName(m, pos + n, end) then data == m[pos..end]
       else After(m, pos, n, end, data) && NameAndRest(m, pos + n, end, data[n..])
  }

  /** The data of an IPSECKEY record, by the type of its gateway: none, an IPv4 address, an IPv6
      address, or a name. */
  ghost predicate Gateway(m: seq<byte>, pos: nat, end: nat, data: seq<byte>) {
    && pos + 3 <= end <= |m|
    && if m[pos + 1] == 0 then data == m[pos..end]
       else if m[pos + 1] == 1 then end - pos >= 7 && data == m[pos..end]
       else if m[pos + 1] == 2 then end - pos >= 19 && data == m[pos..end]
       else m[pos + 1] == 3 && Sealed(m, pos, 3, end, data)
  }

  /** data is what a record of this type holds that has the bytes from pos to end for its data. */
  ghost predicate IsData(m: seq<byte>, tp: nat, pos: nat, end: nat, data: seq<byte>)
    requires pos <= end <= |m|
  {
    if tp == 1 then end - pos == 4 && data == m[pos..end]                                           // A
    else if tp == 28 then end - pos == 16 && data == m[pos..end]                                    // AAAA
    else if tp in {2, 3, 4, 5, 7, 8, 9, 12} then OneName(m, pos, end, data)          // NS MD MF CNAME MB MG MR PTR
    else if tp in {14, 17} then TwoNames(m, pos, end, data)                                         // MINFO RP
    else if tp in {15, 18, 21, 36} then                                                             // MX AFSDB RT KX
      After(m, pos, 2, end, data) && OneName(m, pos + 2, end, data[2..])
    else if tp == 6 then TwoNamesAnd(m, pos, end, 20, data)                                         // SOA
    else if tp == 26 then After(m, pos, 2, end, data) && TwoNames(m, pos + 2, end, data[2..])       // PX
    else if tp == 33 then After(m, pos, 6, end, data) && OneName(m, pos + 6, end, data[6..])        // SRV
    else if tp == 30 then NameAndRest(m, pos, end, data) && |data| <= 1040                          // NXT
    else if tp == 35 then                                                                           // NAPTR
      && pos + 4 <= end && ThreeStrings(m, pos + 4, end)
      && var n := StringsEnd(m, pos + 4) - pos;
         After(m, pos, n, end, data) && OneName(m, pos + n, end, data[n..])
    else if tp == 45 then Gateway(m, pos, end, data)                                                // IPSECKEY
    else if tp == 46 then Sealed(m, pos, 18, end, data)                                             // RRSIG
    else if tp == 47 then Sealed(m, pos, 0, end, data)                                              // NSEC
    else data == m[pos..end]
  }

  // ---------- parsing a part at a time ----------

  /** The parts from pos to end parse, and come to data. */
  ghost predicate Comes(m: seq<byte>, segs: seq<Segment>, pos: nat, end: nat, data: seq<byte>) {
    pos <= end <= |m| && FlatOf(ParsePieces(m, segs, pos, end - pos)) == Some(data)
  }

  lemma NearIsNameAt(m: seq<byte>, pos: nat, end: nat, ls: seq<Label>, next: nat)
    requires pos <= end <= |m|
    ensures (next >= pos && Near(m, pos, end - pos, 0) == Name(ls, next - pos)) <==> NameAt(m, pos, end, ls, next)
  {
    hide Near, Denotes, Encode;
    if next >= pos {
      NearIsMeaning(m, pos, end - pos, ls, next - pos);
    }
  }

  lemma FlatPut(p: Piece, o: Option<seq<Piece>>)
    ensures FlatOf(Put([p], o)) == if o.Some? then Some(PieceFlat(p) + FlatOf(o).value) else None
  {
    if o.Some? {
      assert ([p] + o.value)[1..] == o.value;
    }
  }

  lemma InFront(b: seq<byte>, o: Option<seq<byte>>, data: seq<byte>)
    ensures o.Some? && b + o.value == data <==> b <= data && o == Some(data[|b|..])
  {
    if b <= data {
      assert data == b + data[|b|..];
    }
    if o.Some? && b + o.value == data {
      assert data[|b|..] == o.value;
    }
  }

  lemma SplitSame(a: seq<byte>, b: seq<byte>, x: seq<byte>, y: seq<byte>)
    requires a + x == b + y && |a| == |b|
    ensures a == b && x == y
  {
    assert (a + x)[..|a|] == a && (b + y)[..|b|] == b && (a + x)[|a|..] == x && (b + y)[|b|..] == y;
  }

  lemma ComesEnd(m: seq<byte>, pos: nat, end: nat, data: seq<byte>)
    requires pos <= end <= |m|
    ensures Comes(m, [], pos, end, data) <==> pos == end && data == []
  {
  }

  lemma ComesRest(m: seq<byte>, pos: nat, end: nat, data: seq<byte>)
    requires pos <= end <= |m|
    ensures Comes(m, [Rest], pos, end, data) <==> data == m[pos..end]
  {
    var b := m[pos..end];
    FlatPut(Bytes(b), Some([]));
    assert [Bytes(b)] + [] == [Bytes(b)] && b + [] == b;
    assert ParsePieces(m, [Rest], pos, end - pos) == Some([Bytes(b)]);
  }

  lemma ComesFixed(m: seq<byte>, n: nat, segs: seq<Segment>, pos: nat, end: nat, data: seq<byte>)
    requires pos <= end <= |m|
    ensures Comes(m, [Fixed(n)] + segs, pos, end, data) <==>
      After(m, pos, n, end, data) && Comes(m, segs, pos + n, end, data[n..])
  {
    assert ([Fixed(n)] + segs)[1..] == segs;
    if pos + n <= end {
      var o := ParsePieces(m, segs, pos + n, end - pos - n);
      var b := m[pos..pos + n];
      assert ParsePieces(m, [Fixed(n)] + segs, pos, end - pos) == Put([Bytes(b)], o);
      FrontComes(m, [Fixed(n)] + segs, segs, pos, n, end, data, o);
    }
  }

  /** A part that is copied, in front of others. */
  lemma FrontComes(m: seq<byte>, all: seq<Segment>, segs: seq<Segment>, pos: nat, n: nat, end: nat, data: seq<byte>,
                   o: Option<seq<Piece>>)
    requires pos + n <= end <= |m| && o == ParsePieces(m, segs, pos + n, end - pos - n)
    requires ParsePieces(m, all, pos, end - pos) == Put([Bytes(m[pos..pos + n])], o)
    ensures Comes(m, all, pos, end, data) <==> After(m, pos, n, end, data) && Comes(m, segs, pos + n, end, data[n..])
  {
    hide ParsePieces, Flat, Put;
    FlatPut(Bytes(m[pos..pos + n]), o);
    InFront(m[pos..pos + n], FlatOf(o), data);
  }

  lemma ComesString(m: seq<byte>, segs: seq<Segment>, pos: nat, end: nat, data: seq<byte>)
    requires pos <= end <= |m|
    ensures Comes(m, [CharString] + segs, pos, end, data) <==>
      && pos < end && StringEnd(m, pos) <= end
      && var n := StringEnd(m, pos) - pos;
         After(m, pos, n, end, data) && Comes(m, segs, pos + n, end, data[n..])
  {
    assert ([CharString] + segs)[1..] == segs;
    if pos < end && StringEnd(m, pos) <= end {
      var n := StringEnd(m, pos) - pos;
      var o := ParsePieces(m, segs, pos + n, end - pos - n);
      var b := m[pos..pos + n];
      assert ParsePieces(m, [CharString] + segs, pos, end - pos) == Put([Bytes(b)], o);
      FrontComes(m, [CharString] + segs, segs, pos, n, end, data, o);
    }
  }

  /** A name, and what follows it. */
  ghost predicate NameThen(m: seq<byte>, segs: seq<Segment>, pos: nat, end: nat, data: seq<byte>, a: seq<Label>,
      i: nat)
  {
    NameAt(m, pos, end, a, i) && Encode(a) <= data && Comes(m, segs, i, end, data[|Encode(a)|..])
  }

  lemma ComesNameHere(m: seq<byte>, segs: seq<Segment>, pos: nat, end: nat, data: seq<byte>, ls: seq<Label>, used: nat)
    requires pos <= end <= |m| && Near(m, pos, end - pos, 0) == Name(ls, used)
    ensures Comes(m, [Dom] + segs, pos, end, data) <==>
      Encode(ls) <= data && Comes(m, segs, pos + used, end, data[|Encode(ls)|..])
  {
    hide Near, Encode;
    NearUsed(m, pos, end - pos);
    var i := pos + used;
    assert ([Dom] + segs)[1..] == segs;
    var o := ParsePieces(m, segs, i, end - i);
    assert ParsePieces(m, [Dom] + segs, pos, end - pos) == Put([Nam(ls)], o);
    FlatPut(Nam(ls), o);
    hide ParsePieces, Flat;
    assert Encode(ls) <= data ==> data == Encode(ls) + data[|Encode(ls)|..];
  }

  lemma NoNameHere(m: seq<byte>, segs: seq<Segment>, pos: nat, end: nat, data: seq<byte>)
    requires pos <= end <= |m| && !Near(m, pos, end - pos, 0).Name?
    ensures !Comes(m, [Dom] + segs, pos, end, data)
  {
    hide Near;
    assert ([Dom] + segs)[1..] == segs;
  }

  lemma ComesName(m: seq<byte>, segs: seq<Segment>, pos: nat, end: nat, data: seq<byte>)
    requires pos <= end <= |m|
    ensures Comes(m, [Dom] + segs, pos, end, data) <==>
      exists a, i: nat :: NameThen(m, segs, pos, end, data, a, i)
  {
    hide Near, NameAt, Encode, Comes;
    var o := Near(m, pos, end - pos, 0);
    if o.Name? {
      ComesNameHere(m, segs, pos, end, data, o.labels, o.used);
      NearIsNameAt(m, pos, end, o.labels, pos + o.used);
      assert Comes(m, [Dom] + segs, pos, end, data) ==> NameThen(m, segs, pos, end, data, o.labels, pos + o.used);
    } else {
      NoNameHere(m, segs, pos, end, data);
    }
    if a, i: nat :| NameThen(m, segs, pos, end, data, a, i) {
      NearIsNameAt(m, pos, end, a, i);
    }
  }

  // ---------- the shapes, parsed ----------

  lemma OneNameComes(m: seq<byte>, pos: nat, end: nat, data: seq<byte>)
    requires pos <= end <= |m|
    ensures Comes(m, [Dom], pos, end, data) <==> OneName(m, pos, end, data)
  {
    hide NameAt, Encode, Comes;
    assert [Dom] == [Dom] + [];
    ComesName(m, [], pos, end, data);
    if a, i: nat :| NameThen(m, [], pos, end, data, a, i) {
      NameEnds(m, pos, end, a, i);
      ComesEnd(m, i, end, data[|Encode(a)|..]);
      assert data == Encode(a) + data[|Encode(a)|..];
    }
    if a :| NameAt(m, pos, end, a, end) && data == Encode(a) {
      ComesEnd(m, end, end, []);
      assert data[|Encode(a)|..] == [];
      assert NameThen(m, [], pos, end, data, a, end);
    }
  }

  lemma NameEnds(m: seq<byte>, pos: nat, end: nat, a: seq<Label>, i: nat)
    requires NameAt(m, pos, end, a, i)
    ensures pos <= i <= end
  {
  }

  /** A name in front: what follows it has its own meaning. */
  lemma NameFirst(m: seq<byte>, segs: seq<Segment>, pos: nat, end: nat, a: seq<Label>, i: nat, rest: seq<byte>)
    requires NameAt(m, pos, end, a, i) && Comes(m, segs, i, end, rest)
    ensures NameThen(m, segs, pos, end, Encode(a) + rest, a, i)
  {
    hide NameAt, Encode, Comes;
    assert (Encode(a) + rest)[|Encode(a)|..] == rest;
  }

  lemma TwoNamesComes(m: seq<byte>, pos: nat, end: nat, data: seq<byte>)
    requires pos <= end <= |m|
    ensures Comes(m, [Dom, Dom], pos, end, data) <==> TwoNames(m, pos, end, data)
  {
    hide NameAt, Encode, Comes;
    assert [Dom, Dom] == [Dom] + [Dom];
    ComesName(m, [Dom], pos, end, data);
    if a, i: nat :| NameThen(m, [Dom], pos, end, data, a, i) {
      NameEnds(m, pos, end, a, i);
      var rest := data[|Encode(a)|..];
      OneNameComes(m, i, end, rest);
      assert data == Encode(a) + rest;
    }
    if a, i: nat, b :| NameAt(m, pos, end, a, i) && NameAt(m, i, end, b, end) && data == Encode(a) + Encode(b) {
      NameEnds(m, pos, end, a, i);
      OneNameComes(m, i, end, Encode(b));
      NameFirst(m, [Dom], pos, end, a, i, Encode(b));
    }
  }

  lemma NameAndRestComes(m: seq<byte>, pos: nat, end: nat, data: seq<byte>)
    requires pos <= end <= |m|
    ensures Comes(m, [Dom, Rest], pos, end, data) <==> NameAndRest(m, pos, end, data)
  {
    hide Denotes, Encode, Comes;
    assert [Dom, Rest] == [Dom] + [Rest];
    ComesName(m, [Rest], pos, end, data);
    if a, i: nat :| NameThen(m, [Rest], pos, end, data, a, i) {
      NameEnds(m, pos, end, a, i);
      ComesRest(m, i, end, data[|Encode(a)|..]);
      assert data == Encode(a) + data[|Encode(a)|..];
    }
    if a, i: nat :| NameAt(m, pos, end, a, i) && data == Encode(a) + m[i..end] {
      NameEnds(m, pos, end, a, i);
      ComesRest(m, i, end, m[i..end]);
      NameFirst(m, [Rest], pos, end, a, i, m[i..end]);
    }
  }

  /** A name and a fixed number of bytes. */
  lemma NameAndComes(m: seq<byte>, pos: nat, end: nat, n: nat, data: seq<byte>)
    requires pos <= end <= |m|
    ensures Comes(m, [Dom, Fixed(n)], pos, end, data) <==>
      exists b, j: nat :: NameAt(m, pos, end, b, j) && j + n == end && data == Encode(b) + m[j..end]
  {
    hide NameAt, Encode, Comes;
    assert [Dom, Fixed(n)] == [Dom] + [Fixed(n)];
    ComesName(m, [Fixed(n)], pos, end, data);
    if b, j: nat :| NameThen(m, [Fixed(n)], pos, end, data, b, j) {
      NameEnds(m, pos, end, b, j);
      LastBytes(m, j, end, n, data[|Encode(b)|..]);
      assert data == Encode(b) + data[|Encode(b)|..];
    }
    if b, j: nat :| NameAt(m, pos, end, b, j) && j + n == end && data == Encode(b) + m[j..end] {
      LastBytes(m, j, end, n, m[j..end]);
      NameFirst(m, [Fixed(n)], pos, end, b, j, m[j..end]);
    }
  }

  lemma LastBytes(m: seq<byte>, pos: nat, end: nat, n: nat, data: seq<byte>)
    requires pos <= end <= |m|
    ensures Comes(m, [Fixed(n)], pos, end, data) <==> pos + n == end && data == m[pos..end]
  {
    hide Comes;
    assert [Fixed(n)] == [Fixed(n)] + [];
    ComesFixed(m, n, [], pos, end, data);
    if pos + n <= end && n <= |data| {
      ComesEnd(m, pos + n, end, data[n..]);
    }
  }

  lemma TwoNamesAndComes(m: seq<byte>, pos: nat, end: nat, n: nat, data: seq<byte>)
    requires pos <= end <= |m|
    ensures Comes(m, [Dom, Dom, Fixed(n)], pos, end, data) <==> TwoNamesAnd(m, pos, end, n, data)
  {
    hide NameAt, Encode, Comes;
    assert [Dom, Dom, Fixed(n)] == [Dom] + [Dom, Fixed(n)];
    ComesName(m, [Dom, Fixed(n)], pos, end, data);
    if a, i: nat :| NameThen(m, [Dom, Fixed(n)], pos, end, data, a, i) {
      NameEnds(m, pos, end, a, i);
      var rest := data[|Encode(a)|..];
      NameAndComes(m, i, end, n, rest);
      var b, j: nat :| NameAt(m, i, end, b, j) && j + n == end && rest == Encode(b) + m[j..end];
      assert data == Encode(a) + Encode(b) + m[j..end];
    }
    if a, i: nat, b, j: nat :|
         NameAt(m, pos, end, a, i) && NameAt(m, i, end, b, j) && j + n == end
         && data == Encode(a) + Encode(b) + m[j..end] {
      NameEnds(m, pos, end, a, i);
      NameAndComes(m, i, end, n, Encode(b) + m[j..end]);
      assert data == Encode(a) + (Encode(b) + m[j..end]);
      NameFirst(m, [Dom, Fixed(n)], pos, end, a, i, Encode(b) + m[j..end]);
    }
  }

  /** Strings from pos up to k, then a name up to the end. */
  ghost predicate NameAfter(m: seq<byte>, pos: nat, k: nat, end: nat, data: seq<byte>) {
    pos <= k && After(m, pos, k - pos, end, data) && OneName(m, k, end, data[k - pos..])
  }

  lemma OneStringComes(m: seq<byte>, pos: nat, end: nat, data: seq<byte>)
    requires pos <= end <= |m|
    ensures Comes(m, [CharString, Dom], pos, end, data) <==>
      pos < end && StringEnd(m, pos) <= end && NameAfter(m, pos, StringEnd(m, pos), end, data)
  {
    hide Comes, OneName;
    assert [CharString, Dom] == [CharString] + [Dom];
    ComesString(m, [Dom], pos, end, data);
    var k := StringEnd(m, pos);
    if k <= end && k - pos <= |data| {
      OneNameComes(m, k, end, data[k - pos..]);
    }
  }

  lemma TwoStringsComes(m: seq<byte>, pos: nat, end: nat, data: seq<byte>)
    requires pos <= end <= |m|
    ensures var j := StringEnd(m, pos);
      Comes(m, [CharString, CharString, Dom], pos, end, data) <==>
        pos < end && j < end && StringEnd(m, j) <= end && NameAfter(m, pos, StringEnd(m, j), end, data)
  {
    hide Comes, NameAfter, After;
    assert [CharString, CharString, Dom] == [CharString] + [CharString, Dom];
    ComesString(m, [CharString, Dom], pos, end, data);
    StringFurther(m, pos, end, data, StringEnd(m, StringEnd(m, pos)));
    var j := StringEnd(m, pos);
    if After(m, pos, j - pos, end, data) {
      AfterFits(m, pos, j - pos, end, data);
    }
    if j <= end && j - pos <= |data| {
      OneStringComes(m, j, end, data[j - pos..]);
    }
  }

  /** The same from a string further ahead. */
  lemma StringFurther(m: seq<byte>, pos: nat, end: nat, data: seq<byte>, k: nat)
    ensures var j := StringEnd(m, pos);
      pos <= j && (j <= k ==>
        (NameAfter(m, pos, k, end, data) <==>
          After(m, pos, j - pos, end, data) && j - pos <= |data| && NameAfter(m, j, k, end, data[j - pos..])))
  {
    hide OneName;
    var j := StringEnd(m, pos);
    if j <= k {
      if After(m, pos, k - pos, end, data) {
        ShorterAfter(m, pos, j, k, k, end, data);
      }
      if After(m, pos, j - pos, end, data) {
        AfterTwice(m, pos, j, k, end, data);
      }
    }
  }

  lemma NaptrComes(m: seq<byte>, pos: nat, end: nat, data: seq<byte>)
    requires pos <= end <= |m|
    ensures Comes(m, [CharString, CharString, CharString, Dom], pos, end, data) <==>
      ThreeStrings(m, pos, end) && NameAfter(m, pos, StringsEnd(m, pos), end, data)
  {
    hide Comes, NameAfter, After;
    assert [CharString, CharString, CharString, Dom] == [CharString] + [CharString, CharString, Dom];
    ComesString(m, [CharString, CharString, Dom], pos, end, data);
    var j := StringEnd(m, pos);
    StringFurther(m, pos, end, data, StringEnd(m, StringEnd(m, j)));
    if After(m, pos, j - pos, end, data) {
      AfterFits(m, pos, j - pos, end, data);
    }
    if j <= end && j - pos <= |data| {
      TwoStringsComes(m, j, end, data[j - pos..]);
    }
  }

  lemma AfterFits(m: seq<byte>, pos: nat, n: nat, end: nat, data: seq<byte>)
    requires After(m, pos, n, end, data)
    ensures n <= |data| && pos + n <= end <= |m|
  {
  }

  /** Two parts, one behind the other. */
  lemma AfterTwice(m: seq<byte>, pos: nat, i: nat, j: nat, end: nat, data: seq<byte>)
    requires pos <= i <= j && After(m, pos, i - pos, end, data) && i - pos <= |data|
    ensures After(m, pos, j - pos, end, data) <==> After(m, i, j - i, end, data[i - pos..])
    ensures j - pos <= |data| ==> data[j - pos..] == data[i - pos..][j - i..]
  {
    if j - pos <= |data| && j <= end {
      assert data[..j - pos] == data[..i - pos] + data[i - pos..][..j - i];
      assert m[pos..j] == m[pos..i] + m[i..j];
    }
  }

  lemma ShorterAfter(m: seq<byte>, pos: nat, i: nat, j: nat, k: nat, end: nat, data: seq<byte>)
    requires pos <= i <= j <= k && After(m, pos, k - pos, end, data)
    ensures After(m, pos, i - pos, end, data) && After(m, pos, j - pos, end, data)
  {
    assert data[..i - pos] == data[..k - pos][..i - pos] && data[..j - pos] == data[..k - pos][..j - pos];
    assert m[pos..i] == m[pos..k][..i - pos] && m[pos..j] == m[pos..k][..j - pos];
  }

  // ---------- every type ----------

  lemma PlainIsNormal(m: seq<byte>, pos: nat, end: nat)
    requires pos <= end <= |m|
    ensures PlainName(m, pos, end) <==> NormalFrom(m[pos..end], 0)
  {
    hide Encode, NormalFrom;
    NormalIsName(m[pos..end]);
  }

  /** Data with a name that is compressed although it should not be. */
  lemma CompressedIs(m: seq<byte>, tp: nat, pos: nat, end: nat, data: seq<byte>)
    requires pos <= end <= |m| && tp in {45, 46, 47}
    ensures var n := NameStart(tp);
      FlatOf(ParseCompressed(m, tp, pos, end - pos)) == Some(data) <==>
        && pos + n <= end && (tp == 45 ==> m[pos + 1] == 3)
        && After(m, pos, n, end, data) && NameAndRest(m, pos + n, end, data[n..])
  {
    hide Near, NameAt, Encode, NameAndRest, Flat;
    var n := NameStart(tp);
    if pos + n <= end {
      var o := Near(m, pos + n, end - pos - n, 0);
      if o.Name? {
        NearUsed(m, pos + n, end - pos - n);
        var i := pos + n + o.used;
        NearIsNameAt(m, pos + n, end, o.labels, i);
        ThreePieces(m[pos..pos + n], o.labels, m[i..end]);
        assert m[pos..pos + n] + Encode(o.labels) + m[i..end] == m[pos..pos + n] + (Encode(o.labels) + m[i..end]);
        InFront(m[pos..pos + n], Some(Encode(o.labels) + m[i..end]), data);
      }
      if n <= |data| {
        OnlyName(m, pos + n, end, data[n..], o);
      }
    }
  }

  /** The name there is the one decompress_name finds. */
  lemma OnlyName(m: seq<byte>, pos: nat, end: nat, data: seq<byte>, o: Outcome)
    requires pos <= end <= |m| && o == Near(m, pos, end - pos, 0)
    ensures NameAndRest(m, pos, end, data) <==>
      o.Name? && pos + o.used <= end && data == Encode(o.labels) + m[pos + o.used..end]
  {
    hide Near, Encode, Denotes;
    if a, i: nat :| NameAt(m, pos, end, a, i) && data == Encode(a) + m[i..end] {
      NearIsNameAt(m, pos, end, a, i);
    }
    if o.Name? {
      NearUsed(m, pos, end - pos);
      NearIsNameAt(m, pos, end, o.labels, pos + o.used);
    }
  }

  lemma SealedIs(m: seq<byte>, tp: nat, pos: nat, end: nat, data: seq<byte>)
    requires pos <= end <= |m| && tp in {45, 46, 47}
    ensures FlatOf(ParseData(m, tp, pos, end - pos)) == Some(data) <==>
      if tp == 45 then Gateway(m, pos, end, data) else Sealed(m, pos, if tp == 46 then 18 else 0, end, data)
  {
    hide KeptWhole, NameAndRest, ParseCompressed, PlainName, ParsePieces, Flat, NameStart;
    var n := NameStart(tp);
    StartIs(tp);
    KeptMeans(m, tp, pos, end);
    CompressedIs(m, tp, pos, end, data);
    ComesRest(m, pos, end, data);
  }

  lemma StartIs(tp: nat)
    ensures NameStart(tp) == if tp == 45 then 3 else if tp == 46 then 18 else 0
  {
  }

  lemma KeptMeans(m: seq<byte>, tp: nat, pos: nat, end: nat)
    requires pos <= end <= |m|
    ensures var n := NameStart(tp);
      KeptWhole(tp, m[pos..end]) <==>
        && pos + n <= end
        && if tp == 45 && m[pos + 1] != 3 then
             m[pos + 1] == 0 || (m[pos + 1] == 1 && end - pos >= 7) || (m[pos + 1] == 2 && end - pos >= 19)
           else PlainName(m, pos + n, end)
  {
    hide NormalFrom, PlainName;
    var n, whole := NameStart(tp), m[pos..end];
    if pos + n <= end {
      PlainIsNormal(m, pos + n, end);
      assert whole[n..] == m[pos + n..end];
      assert tp == 45 ==> whole[1] == m[pos + 1];
    }
  }

  /** What the switch of rrs2cent stores of a record of any type. */
  lemma DataIs(m: seq<byte>, tp: nat, pos: nat, end: nat, data: seq<byte>)
    requires pos <= end <= |m|
    ensures FlatOf(ParseData(m, tp, pos, end - pos)) == Some(data) <==> IsData(m, tp, pos, end, data)
  {
    hide ParsePieces, ParseCompressed, Flat, Sealed, Gateway, OneName, TwoNames, TwoNamesAnd, NameAndRest, KeptWhole;
    hide ThreeStrings, StringsEnd;
    if tp in {45, 46, 47} {
      SealedIs(m, tp, pos, end, data);
    } else if tp in {2, 3, 4, 5, 7, 8, 9, 12} {
      OneNameComes(m, pos, end, data);
    } else if tp in {14, 17} {
      TwoNamesComes(m, pos, end, data);
    } else if tp in {15, 18, 21, 36} {
      BytesThenName(m, 2, pos, end, data);
    } else if tp == 6 {
      TwoNamesAndComes(m, pos, end, 20, data);
    } else if tp == 26 {
      BytesThenTwo(m, pos, end, data);
    } else if tp == 33 {
      BytesThenName(m, 6, pos, end, data);
    } else if tp == 30 {
      NameAndRestComes(m, pos, end, data);
    } else if tp == 35 {
      WholeNaptr(m, pos, end, data);
    } else {
      ComesRest(m, pos, end, data);
    }
  }

  /** data is what is stored of a record with these bytes for its data, or nothing is. */
  ghost predicate DataRead(m: seq<byte>, tp: nat, pos: nat, end: nat, data: Option<seq<byte>>)
    requires pos <= end <= |m|
  {
    if data.Some? then IsData(m, tp, pos, end, data.value) else forall d :: !IsData(m, tp, pos, end, d)
  }

  lemma ReadIs(m: seq<byte>, tp: nat, pos: nat, end: nat)
    requires pos <= end <= |m|
    ensures DataRead(m, tp, pos, end, FlatOf(ParseData(m, tp, pos, end - pos)))
  {
    hide IsData, ParseData, Flat;
    forall d ensures IsData(m, tp, pos, end, d) <==> FlatOf(ParseData(m, tp, pos, end - pos)) == Some(d) {
      DataIs(m, tp, pos, end, d);
    }
  }

  lemma BytesThenName(m: seq<byte>, n: nat, pos: nat, end: nat, data: seq<byte>)
    requires pos <= end <= |m|
    ensures Comes(m, [Fixed(n), Dom], pos, end, data) <==>
      After(m, pos, n, end, data) && OneName(m, pos + n, end, data[n..])
  {
    hide Comes, OneName;
    assert [Fixed(n), Dom] == [Fixed(n)] + [Dom];
    ComesFixed(m, n, [Dom], pos, end, data);
    if pos + n <= end && n <= |data| {
      OneNameComes(m, pos + n, end, data[n..]);
    }
  }

  lemma BytesThenTwo(m: seq<byte>, pos: nat, end: nat, data: seq<byte>)
    requires pos <= end <= |m|
    ensures Comes(m, [Fixed(2), Dom, Dom], pos, end, data) <==>
      After(m, pos, 2, end, data) && TwoNames(m, pos + 2, end, data[2..])
  {
    hide Comes, TwoNames;
    assert [Fixed(2), Dom, Dom] == [Fixed(2)] + [Dom, Dom];
    ComesFixed(m, 2, [Dom, Dom], pos, end, data);
    if pos + 2 <= end && 2 <= |data| {
      TwoNamesComes(m, pos + 2, end, data[2..]);
    }
  }

  lemma WholeNaptr(m: seq<byte>, pos: nat, end: nat, data: seq<byte>)
    requires pos <= end <= |m|
    ensures Comes(m, [Fixed(4), CharString, CharString, CharString, Dom], pos, end, data) <==>
      && pos + 4 <= end && ThreeStrings(m, pos + 4, end)
      && var n := StringsEnd(m, pos + 4) - pos;
         After(m, pos, n, end, data) && OneName(m, pos + n, end, data[n..])
  {
    hide Comes, OneName, ThreeStrings, After;
    var segs := [CharString, CharString, CharString, Dom];
    assert [Fixed(4), CharString, CharString, CharString, Dom] == [Fixed(4)] + segs;
    ComesFixed(m, 4, segs, pos, end, data);
    var k := StringsEnd(m, pos + 4);
    if After(m, pos, 4, end, data) {
      AfterFits(m, pos, 4, end, data);
      NaptrComes(m, pos + 4, end, data[4..]);
      AfterTwice(m, pos, pos + 4, k, end, data);
      if After(m, pos, k - pos, end, data) {
        AfterFits(m, pos, k - pos, end, data);
      }
      if After(m, pos + 4, k - pos - 4, end, data[4..]) {
        AfterFits(m, pos + 4, k - pos - 4, end, data[4..]);
      }
    } else if After(m, pos, k - pos, end, data) {
      ShorterAfter(m, pos, pos + 4, pos + 4, k, end, data);
    }
  }

  // ---------- a whole record ----------

  /** What is stored of the record with its owner up to p and its data from d to next: just the
      data it has by its type, with owner, type and ttl as they stand; and RC_FORMAT if its data
      make no sense. */
  ghost predicate StoredAs(m: seq<byte>, pos: nat, owner: seq<Label>, tp: nat, ttl: nat, d: nat, next: nat, o: Parsed)
    requires d <= next <= |m|
  {
    if o.Got? then
      && pos + o.used == next && o.r.owner == owner && o.r.tp == tp && o.r.ttl == ttl
      && IsData(m, tp, d, next, Flat(o.r.data))
    else o == Bad(RC_FORMAT) && forall data :: !IsData(m, tp, d, next, data)
  }

  /** What rrs2cent does with the record at pos whose owner ends at p: too little is there; it is
      passed over, being of another class or a type that is not cached (A6, DNAME, SINK, OPT, or
      none from 1 to 51); or it is stored. */
  lemma RecordIs(m: seq<byte>, pos: nat, end: nat, owner: seq<Label>, p: nat)
    requires pos <= end <= |m| && NameAt(m, pos, end, owner, p)
    ensures var o := ParseRecord(m, pos, end - pos);
      if p + 10 > end || p + 10 + Get16(m, p + 8) > end then o == Bad(RC_TRUNC)
      else
        var tp, next := Get16(m, p), p + 10 + Get16(m, p + 8);
        if tp == 0 || tp > 51 || tp in {38, 39, 40, 41} || Get16(m, p + 2) != 1 then o == Skipped(next - pos)
        else StoredAs(m, pos, owner, tp, Get32(m, p + 4), p + 10, next, o)
  {
    hide NameAt, Near, Get16, Get32, IsData, ParseData, Flat;
    NameEnds(m, pos, end, owner, p);
    NearIsNameAt(m, pos, end, owner, p);
    if p + 10 <= end && p + 10 + Get16(m, p + 8) <= end {
      var tp, d, next := Get16(m, p), p + 10, p + 10 + Get16(m, p + 8);
      forall data ensures IsData(m, tp, d, next, data) <==> FlatOf(ParseData(m, tp, d, next - d)) == Some(data) {
        DataIs(m, tp, d, next, data);
      }
    }
  }

  // ---------- what is compressed ----------

  /** Data of this type, put at `at`, go out with the names in them compressed one after the other,
      and nothing else changed. */
  ghost predicate GoesOut(tp: nat, data: seq<byte>, at: nat, t: seq<Entry>, out: seq<byte>) {
    if tp in {2, 3, 4, 5, 7, 8, 9, 12} then forall a :: data == Encode(a) ==> out == Emit(a, t)
    else if tp in {14, 17} then
      forall a, b :: data == Encode(a) + Encode(b) ==> out == Emit(a, t) + Emit(b, Grow(a, at, t))
    else if tp in {15, 18, 21, 36} then BytesName(2, data, t, out)
    else if tp == 33 then BytesName(6, data, t, out)
    else if tp == 6 then
      forall a, b, r :: |r| == 20 && data == Encode(a) + Encode(b) + r ==>
        out == Emit(a, t) + Emit(b, Grow(a, at, t)) + r
    else if tp == 26 then
      forall p, a, b :: |p| == 2 && data == p + (Encode(a) + Encode(b)) ==>
        out == p + (Emit(a, t) + Emit(b, Grow(a, at + 2, t)))
    else if tp == 30 then forall a, r :: data == Encode(a) + r ==> out == Emit(a, t) + r
    else if tp == 35 then BytesName(StringsEnd(data, 4), data, t, out)
    else out == data
  }

  ghost predicate BytesName(n: nat, data: seq<byte>, t: seq<Entry>, out: seq<byte>) {
    forall p, a :: |p| == n && data == p + Encode(a) ==> out == p + Emit(a, t)
  }

  lemma OnePart(p: Piece, at: nat, t: seq<Entry>)
    ensures Flat([p]) == PieceFlat(p) && Rdata([p], at, t) == PieceOut(p, t)
  {
    hide PieceOut, PieceTable, PieceFlat;
    assert [p][1..] == [] && PieceFlat(p) + [] == PieceFlat(p) && PieceOut(p, t) + [] == PieceOut(p, t);
  }

  lemma MoreParts(p: Piece, ps: seq<Piece>, at: nat, t: seq<Entry>)
    ensures Flat([p] + ps) == PieceFlat(p) + Flat(ps)
    ensures Rdata([p] + ps, at, t) == PieceOut(p, t) + Rdata(ps, at + |PieceOut(p, t)|, PieceTable(p, at, t))
  {
    hide PieceOut, PieceTable, PieceFlat;
    assert ([p] + ps)[1..] == ps;
  }

  lemma SameName(a: seq<Label>, b: seq<Label>)
    requires Encode(a) == Encode(b)
    ensures a == b
  {
    assert Encode(a) + [] == Encode(b) + [];
    EncodeInjective(a, b, [], []);
  }

  lemma TwoNamesOut(x: seq<Label>, y: seq<Label>, at: nat, t: seq<Entry>, r: seq<byte>)
    ensures var ps, data := [Nam(x), Nam(y)], Encode(x) + Encode(y);
      Flat(ps) == data && Rdata(ps, at, t) == Emit(x, t) + Emit(y, Grow(x, at, t))
    ensures var ps, data := [Nam(x), Nam(y), Bytes(r)], Encode(x) + Encode(y) + r;
      Flat(ps) == data && Rdata(ps, at, t) == Emit(x, t) + Emit(y, Grow(x, at, t)) + r
  {
    hide Emit, Grow, Encode;
    var at', t' := at + |Emit(x, t)|, Grow(x, at, t);
    assert [Nam(x), Nam(y)] == [Nam(x)] + [Nam(y)];
    MoreParts(Nam(x), [Nam(y)], at, t);
    OnePart(Nam(y), at', t');
    var yr := [Nam(y), Bytes(r)];
    assert [Nam(x), Nam(y), Bytes(r)] == [Nam(x)] + yr && yr == [Nam(y)] + [Bytes(r)];
    MoreParts(Nam(x), yr, at, t);
    MoreParts(Nam(y), [Bytes(r)], at', t');
    OnePart(Bytes(r), at' + |Emit(y, t')|, Grow(y, at', t'));
    hide Flat, Rdata;
    assert Encode(x) + (Encode(y) + r) == Encode(x) + Encode(y) + r;
    assert Emit(x, t) + (Emit(y, t') + r) == Emit(x, t) + Emit(y, t') + r;
  }

  lemma TwoNamesSame(a: seq<Label>, b: seq<Label>, x: seq<Label>, y: seq<Label>, r: seq<byte>, q: seq<byte>)
    requires Encode(a) + Encode(b) + r == Encode(x) + Encode(y) + q
    ensures a == x && b == y && r == q
  {
    hide Encode;
    assert Encode(a) + (Encode(b) + r) == Encode(x) + (Encode(y) + q) by {
      assert Encode(a) + (Encode(b) + r) == Encode(a) + Encode(b) + r;
      assert Encode(x) + (Encode(y) + q) == Encode(x) + Encode(y) + q;
    }
    EncodeInjective(a, x, Encode(b) + r, Encode(y) + q);
    EncodeInjective(b, y, r, q);
  }

  lemma BytesNameOut(w: seq<byte>, x: seq<Label>, at: nat, t: seq<Entry>)
    ensures var ps, data := [Bytes(w), Nam(x)], w + Encode(x);
      Flat(ps) == data && Rdata(ps, at, t) == w + Emit(x, t) && BytesName(|w|, data, t, w + Emit(x, t))
  {
    hide Emit, Grow, Encode;
    assert [Bytes(w), Nam(x)] == [Bytes(w)] + [Nam(x)];
    MoreParts(Bytes(w), [Nam(x)], at, t);
    OnePart(Nam(x), at + |w|, t);
    BytesNameIs(w, x, t);
  }

  lemma BytesNameIs(w: seq<byte>, x: seq<Label>, t: seq<Entry>)
    ensures BytesName(|w|, w + Encode(x), t, w + Emit(x, t))
  {
    hide Emit, Encode;
    forall p, a | |p| == |w| && w + Encode(x) == p + Encode(a) ensures w + Emit(x, t) == p + Emit(a, t) {
      SplitSame(w, p, Encode(x), Encode(a));
      SameName(x, a);
    }
  }

  lemma NaptrOut(w: seq<byte>, i: seq<byte>, j: seq<byte>, k: seq<byte>, x: seq<Label>, at: nat, t: seq<Entry>)
    requires |w| == 4 && |i| > 0 && |j| > 0 && |k| > 0
    requires |i| == 1 + i[0] as int && |j| == 1 + j[0] as int && |k| == 1 + k[0] as int
    ensures var ps, data := [Bytes(w), Bytes(i), Bytes(j), Bytes(k), Nam(x)], w + i + j + k + Encode(x);
      Flat(ps) == data && Rdata(ps, at, t) == w + i + j + k + Emit(x, t)
      && BytesName(StringsEnd(data, 4), data, t, w + i + j + k + Emit(x, t))
  {
    hide Emit, Grow, Encode, StringsEnd, BytesName;
    StringsOut(w, i, j, k, x, at, t);
    BytesNameIs(w + i + j + k, x, t);
    StringsMeasured(w, i, j, k, Encode(x));
  }

  lemma StringsMeasured(w: seq<byte>, i: seq<byte>, j: seq<byte>, k: seq<byte>, e: seq<byte>)
    requires |w| == 4 && |i| > 0 && |j| > 0 && |k| > 0
    requires |i| == 1 + i[0] as int && |j| == 1 + j[0] as int && |k| == 1 + k[0] as int
    ensures StringsEnd(w + i + j + k + e, 4) == |w + i + j + k|
  {
    var data := w + i + j + k + e;
    assert data[4] == i[0] && data[4 + |i|] == j[0] && data[4 + |i| + |j|] == k[0];
  }

  lemma StringsOut(w: seq<byte>, i: seq<byte>, j: seq<byte>, k: seq<byte>, x: seq<Label>, at: nat, t: seq<Entry>)
    ensures var ps, data := [Bytes(w), Bytes(i), Bytes(j), Bytes(k), Nam(x)], w + i + j + k + Encode(x);
      Flat(ps) == data && Rdata(ps, at, t) == w + i + j + k + Emit(x, t)
  {
    hide Emit, Grow, Encode, Flat, Rdata, BytesName;
    var p3, p2 := [Bytes(k), Nam(x)], [Bytes(j), Bytes(k), Nam(x)];
    var p1 := [Bytes(i), Bytes(j), Bytes(k), Nam(x)];
    assert [Bytes(w), Bytes(i), Bytes(j), Bytes(k), Nam(x)] == [Bytes(w)] + p1;
    assert p1 == [Bytes(i)] + p2 && p2 == [Bytes(j)] + p3;
    MoreParts(Bytes(w), p1, at, t);
    MoreParts(Bytes(i), p2, at + |w|, t);
    MoreParts(Bytes(j), p3, at + |w| + |i|, t);
    BytesNameOut(k, x, at + |w| + |i| + |j|, t);
    FourThen(w, i, j, k, Encode(x));
    FourThen(w, i, j, k, Emit(x, t));
  }

  lemma FourThen(w: seq<byte>, i: seq<byte>, j: seq<byte>, k: seq<byte>, e: seq<byte>)
    ensures w + (i + (j + (k + e))) == w + i + j + k + e
  {
  }

  /** The record data that add_rr writes. */
  lemma GoesOutIs(tp: nat, ps: seq<Piece>, at: nat, t: seq<Entry>)
    requires Fits(ps, Layout(tp))
    ensures GoesOut(tp, Flat(ps), at, t, Rdata(ps, at, t))
  {
    hide Emit, Grow, Encode, Flat, Rdata, StringsEnd, BytesName;
    if tp in {2, 3, 4, 5, 7, 8, 9, 12} {
      assert ps == [Nam(ps[0].ls)];
      OnePart(ps[0], at, t);
      forall a | Flat(ps) == Encode(a) ensures Rdata(ps, at, t) == Emit(a, t) {
        SameName(ps[0].ls, a);
      }
    } else if tp in {14, 17} {
      assert ps == [Nam(ps[0].ls), Nam(ps[1].ls)];
      TwoNamesOut(ps[0].ls, ps[1].ls, at, t, []);
      forall a, b | Flat(ps) == Encode(a) + Encode(b) ensures ps[0].ls == a && ps[1].ls == b {
        assert Encode(a) + Encode(b) + [] == Encode(ps[0].ls) + Encode(ps[1].ls) + [];
        TwoNamesSame(a, b, ps[0].ls, ps[1].ls, [], []);
      }
    } else if tp in {15, 18, 21, 36, 33} {
      assert ps == [Bytes(ps[0].b), Nam(ps[1].ls)];
      BytesNameOut(ps[0].b, ps[1].ls, at, t);
    } else if tp == 6 {
      assert ps == [Nam(ps[0].ls), Nam(ps[1].ls), Bytes(ps[2].b)];
      TwoNamesOut(ps[0].ls, ps[1].ls, at, t, ps[2].b);
      forall a, b, r | |r| == 20 && Flat(ps) == Encode(a) + Encode(b) + r
        ensures ps[0].ls == a && ps[1].ls == b && ps[2].b == r
      {
        TwoNamesSame(a, b, ps[0].ls, ps[1].ls, r, ps[2].b);
      }
    } else if tp == 26 {
      PxOut(ps, at, t);
    } else if tp == 30 {
      NxtOut(ps, at, t);
    } else if tp == 35 {
      assert ps == [Bytes(ps[0].b), Bytes(ps[1].b), Bytes(ps[2].b), Bytes(ps[3].b), Nam(ps[4].ls)];
      NaptrOut(ps[0].b, ps[1].b, ps[2].b, ps[3].b, ps[4].ls, at, t);
    } else {
      assert ps == [Bytes(ps[0].b)];
      OnePart(ps[0], at, t);
    }
  }

  lemma PxSame(w: seq<byte>, x: seq<Label>, y: seq<Label>, p: seq<byte>, a: seq<Label>, b: seq<Label>)
    requires |p| == |w| && w + (Encode(x) + Encode(y)) == p + (Encode(a) + Encode(b))
    ensures p == w && a == x && b == y
  {
    hide Encode;
    SplitSame(w, p, Encode(x) + Encode(y), Encode(a) + Encode(b));
    assert Encode(a) + Encode(b) + [] == Encode(x) + Encode(y) + [];
    TwoNamesSame(a, b, x, y, [], []);
  }

  lemma PxParts(w: seq<byte>, x: seq<Label>, y: seq<Label>, at: nat, t: seq<Entry>)
    ensures var ps := [Bytes(w), Nam(x), Nam(y)];
      && Flat(ps) == w + (Encode(x) + Encode(y))
      && Rdata(ps, at, t) == w + (Emit(x, t) + Emit(y, Grow(x, at + |w|, t)))
  {
    hide Emit, Grow, Encode, Flat, Rdata;
    assert [Bytes(w), Nam(x), Nam(y)] == [Bytes(w)] + [Nam(x), Nam(y)];
    MoreParts(Bytes(w), [Nam(x), Nam(y)], at, t);
    TwoNamesOut(x, y, at + |w|, t, []);
  }

  lemma PxOut(ps: seq<Piece>, at: nat, t: seq<Entry>)
    requires Fits(ps, Layout(26))
    ensures GoesOut(26, Flat(ps), at, t, Rdata(ps, at, t))
  {
    hide Emit, Grow, Encode, Flat, Rdata;
    var w, x, y := ps[0].b, ps[1].ls, ps[2].ls;
    assert ps == [Bytes(w), Nam(x), Nam(y)];
    PxParts(w, x, y, at, t);
    forall p, a, b | |p| == 2 && Flat(ps) == p + (Encode(a) + Encode(b)) ensures p == w && a == x && b == y {
      PxSame(w, x, y, p, a, b);
    }
  }

  lemma NxtOut(ps: seq<Piece>, at: nat, t: seq<Entry>)
    requires Fits(ps, Layout(T_NXT))
    ensures GoesOut(30, Flat(ps), at, t, Rdata(ps, at, t))
  {
    hide Emit, Grow, Encode, Flat, Rdata, StringsEnd, BytesName;
    var x, q := ps[0].ls, ps[1].b;
    assert ps == [Nam(x)] + [Bytes(q)];
    MoreParts(Nam(x), [Bytes(q)], at, t);
    OnePart(Bytes(q), at + |Emit(x, t)|, Grow(x, at, t));
    forall a, r | Flat(ps) == Encode(a) + r ensures a == x && r == q {
      EncodeInjective(a, x, r, q);
    }
  }
}
