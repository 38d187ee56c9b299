/** compress_name of dns.c: emitting names with pointers to earlier occurrences, and the proof
    that every run of calls leaves a message whose names expand to the originals. */
module Compress {
  import opened Names
  import opened Wrappers
  import opened Decompress

  /** The largest offset a pointer can hold. */
  const MAX_OFFSET := 0x3fff

  /** An element of the compression list: a name given earlier and where it was placed. */
  datatype Entry = Entry(index: nat, name: seq<Label>)

  // ---------- specification of one call ----------

  datatype Choice = Choice(longest: nat, lrem: nat, coffs: nat)

  /** Where the last k labels of an entry's name would stand were it written out in full. */
  function SuffixOffset(e: Entry, k: nat): nat
    requires k <= |e.name|
  {
    e.index + Off(e.name, |e.name| - k)
  }

  /** The scan of the list: the first entry of every new record length whose offset fits. */
  function Scan(name: seq<Label>, t: seq<Entry>): (c: Choice)
    ensures c.longest <= |name|
  {
    if t == [] then Choice(0, 0, 0)
    else
      var c := Scan(name, t[..|t| - 1]);
      var e := t[|t| - 1];
      var rv := CommonSuffix(name, e.name);
      if rv > c.longest && SuffixOffset(e, rv) <= MAX_OFFSET
      then Choice(rv, Off(name, |name| - rv), SuffixOffset(e, rv))
      else c
  }

  function Pointer(offs: nat): seq<byte>
    requires offs <= MAX_OFFSET
  {
    [192 + offs / 256, offs % 256]
  }

  /** What compress_name writes for a name. */
  function Emit(name: seq<Label>, t: seq<Entry>): (out: seq<byte>) {
    ScanFits(name, t);
    var c := Scan(name, t);
    if c.longest > 0 then Lits(name[..|name| - c.longest]) + Pointer(c.coffs) else Encode(name)
  }

  /** The list after the call: a name that was wholly a pointer is not added. */
  function Grow(name: seq<Label>, offs: nat, t: seq<Entry>): seq<Entry> {
    if Scan(name, t).longest == |name| > 0 then t else t + [Entry(offs, name)]
  }

  lemma {:induction false} ScanFits(name: seq<Label>, t: seq<Entry>)
    ensures Scan(name, t).coffs <= MAX_OFFSET
    ensures Scan(name, t).longest > 0 ==> Scan(name, t).lrem == Off(name, |name| - Scan(name, t).longest)
  {
    if t != [] {
      ScanFits(name, t[..|t| - 1]);
    }
  }

  /** The output is never longer than the input, and shorter whenever a pointer is used. */
  lemma EmitNoLonger(name: seq<Label>, t: seq<Entry>)
    ensures 1 <= |Emit(name, t)| <= |Encode(name)|
    ensures Scan(name, t).longest > 0 ==> |Emit(name, t)| < |Encode(name)|
  {
    var c := Scan(name, t);
    if c.longest > 0 {
      OffMonotone(name, |name| - c.longest, |name|);
      OffEnd(name);
    }
  }

  // ---------- the call itself ----------

  /** compel_t: the stored name is in wire form. */
  datatype Compel = Compel(index: nat, s: seq<byte>)

  /** The dlist *cb built up while one answer is composed. */
  class CompressionList {
    var els: seq<Compel>
    ghost var table: seq<Entry>

    ghost predicate Valid()
      reads this
    {
      && |els| == |table|
      && (forall i :: 0 <= i < |els| ==> els[i].index == table[i].index && els[i].s == Encode(table[i].name))
      && (forall i :: 0 <= i < |table| ==> |Encode(table[i].name)| <= DNSNAMEBUFSIZE)
    }

    constructor ()
      ensures Valid() && table == []
    {
      els := [];
      table := [];
    }

    /** The loop over the list. */
    method Longest(in_: seq<byte>, ghost name: seq<Label>) returns (longest: nat, lrem: nat, coffs: nat)
      requires Valid() && Encode(name) <= in_ && |Encode(name)| <= DNSNAMEBUFSIZE
      ensures Choice(longest, lrem, coffs) == Scan(name, table)
    {
      hide CommonSuffix, Encode, Off, Scan;
      longest, lrem, coffs := 0, 0, 0;
      var i := 0;
      ScanNone(name, table);
      while i < |els|
        invariant i <= |els|
        invariant Choice(longest, lrem, coffs) == Scan(name, table[..i])
      {
        var rv, rem, to := DomainMatch(in_, els[i].s, name, table[i].name);
        ScanNext(name, table, i);
        if rv > longest {
          var newoffs := els[i].index + to;
          if newoffs <= MAX_OFFSET {
            longest, lrem, coffs := rv, rem, newoffs;
          }
        }
        i := i + 1;
      }
      assert table[..|table|] == table;
    }

    /** compress_name. `mem` says whether the list could be grown; when it could not, the list
        is lost and nothing is returned. */
    method CompressName(in_: seq<byte>, offs: nat, mem: bool, ghost name: seq<Label>) returns (out: seq<byte>)
      requires Valid() && Encode(name) <= in_ && |Encode(name)| <= DNSNAMEBUFSIZE
      modifies this
      ensures Valid()
      ensures mem || Grow(name, offs, old(table)) == old(table) ==>
                out == Emit(name, old(table)) && table == Grow(name, offs, old(table))
      ensures !mem && Grow(name, offs, old(table)) != old(table) ==> out == [] && table == []
    {
      hide Lits, Off, Scan;
      var ilen := RhnLen(in_, name);
      var longest, lrem, coffs := Longest(in_, name);
      var add := true;
      ScanFits(name, table);
      if longest > 0 {
        LongestRoom(name, longest);
        assert lrem + 2 <= ilen;  // "compress_name: length increased" cannot happen
        out := in_[..lrem] + [192 + coffs / 256, coffs % 256];
        add := lrem != 0;
      } else {
        out := in_[..ilen];
      }
      if add {
        if !mem {
          els, table := [], [];
          return [];
        }
        els := els + [Compel(offs, in_[..ilen])];
        table := table + [Entry(offs, name)];
      }
    }
  }

  lemma ScanNone(name: seq<Label>, t: seq<Entry>)
    ensures Scan(name, t[..0]) == Choice(0, 0, 0)
  {
  }

  lemma ScanNext(name: seq<Label>, t: seq<Entry>, i: nat)
    requires i < |t|
    ensures var c, rv := Scan(name, t[..i]), CommonSuffix(name, t[i].name);
      Scan(name, t[..i + 1]) ==
        if rv > c.longest && SuffixOffset(t[i], rv) <= MAX_OFFSET
        then Choice(rv, Off(name, |name| - rv), SuffixOffset(t[i], rv)) else c
  {
    hide CommonSuffix, Off, SuffixOffset;
    assert t[..i + 1][..i] == t[..i];
  }

  lemma LongestRoom(name: seq<Label>, k: nat)
    requires 0 < k <= |name|
    ensures Off(name, |name| - k) + 2 <= |Encode(name)|
    ensures Encode(name)[..Off(name, |name| - k)] == Lits(name[..|name| - k])
    ensures Off(name, |name| - k) == 0 <==> k == |name|
  {
    OffMonotone(name, |name| - k, |name|);
    OffMonotone(name, 0, |name| - k);
    OffEnd(name);
    LitsSplit(name, |name| - k);
  }

  // ---------- the pointer always targets a literal label ----------

  /** How many labels of entry j were written literally when it was placed. */
  function Literal(t: seq<Entry>, j: nat): (n: nat)
    requires j < |t|
    ensures n <= |t[j].name|
  {
    |t[j].name| - Scan(t[j].name, t[..j]).longest
  }

  /** What was emitted for entry i when it was placed. */
  function Emitted(t: seq<Entry>, i: nat): seq<byte>
    requires i < |t|
  {
    Emit(t[i].name, t[..i])
  }

  /** An entry that no scan can ever take: the root, or one placed too far out. */
  predicate Inert(e: Entry) {
    e.name == [] || e.index > MAX_OFFSET
  }

  /** Names are placed one after the other: each entry starts at or after the end of what was
      emitted for every earlier one. */
  ghost predicate Advancing(t: seq<Entry>) {
    forall i, j {:trigger Emitted(t, i), Emitted(t, j)} :: 0 <= i < j < |t| && !Inert(t[i]) && !Inert(t[j]) ==>
      t[i].index + |Emitted(t, i)| <= t[j].index
  }

  lemma AdvancingAt(t: seq<Entry>, i: nat, j: nat)
    requires Advancing(t) && i < j < |t| && !Inert(t[i]) && !Inert(t[j])
    ensures t[i].index + |Emitted(t, i)| <= t[j].index
  {
    var _ := Emitted(t, j);
  }

  lemma EmittedPrefix(t: seq<Entry>, n: nat, i: nat)
    requires i < n <= |t|
    ensures t[..n][i] == t[i] && Emitted(t[..n], i) == Emitted(t, i)
  {
    hide Emit;
    assert t[..n][..i] == t[..i];
  }

  lemma AdvancingPrefix(t: seq<Entry>, n: nat)
    requires Advancing(t) && n <= |t|
    ensures Advancing(t[..n])
  {
    hide Emitted, Inert;
    forall i, j | 0 <= i < j < n && !Inert(t[..n][i]) && !Inert(t[..n][j])
      ensures t[..n][i].index + |Emitted(t[..n], i)| <= t[..n][j].index
    {
      EmittedPrefix(t, n, i);
      EmittedPrefix(t, n, j);
    }
  }

  lemma EmittedSnoc(t: seq<Entry>, e: Entry, i: nat)
    requires i <= |t|
    ensures var t' := t + [e];
            if i < |t| then t'[i] == t[i] && Emitted(t', i) == Emitted(t, i)
            else t'[i] == e && Emitted(t', i) == Emit(e.name, t)
  {
    hide Emit;
    assert i < |t| ==> (t + [e])[..i] == t[..i];
    assert (t + [e])[..|t|] == t;
  }

  /** A further entry, placed behind the others, or one that is never used. */
  lemma TableSnoc(m: seq<byte>, t: seq<Entry>, e: Entry)
    requires Advancing(t) && HoldsTable(m, t)
    requires !Inert(e) ==> Holds(m, e.index, Emit(e.name, t))
    requires !Inert(e) ==> EndsBefore(t, e.index)
    ensures Advancing(t + [e]) && HoldsTable(m, t + [e])
  {
    hide Emitted, Emit, Inert, Holds;
    var t' := t + [e];
    forall i, j | 0 <= i < j < |t'| && !Inert(t'[i]) && !Inert(t'[j])
      ensures t'[i].index + |Emitted(t', i)| <= t'[j].index
    {
      EmittedSnoc(t, e, i);
      EmittedSnoc(t, e, j);
    }
    forall i | 0 <= i < |t'| && !Inert(t'[i]) ensures Holds(m, t'[i].index, Emitted(t', i)) {
      EmittedSnoc(t, e, i);
    }
  }

  /** Everything emitted for the entries ends at or before this place. */
  ghost predicate EndsBefore(t: seq<Entry>, end: nat) {
    forall i {:trigger Emitted(t, i)} :: 0 <= i < |t| && !Inert(t[i]) ==> t[i].index + |Emitted(t, i)| <= end
  }

  /** The scan takes its result from some entry, and from the first that is long enough. */
  lemma {:induction false} ScanSource(name: seq<Label>, t: seq<Entry>) returns (j: nat)
    requires Scan(name, t).longest > 0
    ensures j < |t|
    ensures var k := Scan(name, t).longest;
            && CommonSuffix(name, t[j].name) == k
            && Scan(name, t).coffs == SuffixOffset(t[j], k)
            && Scan(name, t[..j]).longest < k
  {
    var n := |t| - 1;
    if Scan(name, t) == Scan(name, t[..n]) && Scan(name, t[..n]).longest > 0 {
      j := ScanSource(name, t[..n]);
      assert t[..n][..j] == t[..j];
    } else {
      j := n;
    }
  }

  /** An entry whose offset fits is never passed over for a shorter match. */
  lemma {:induction false} ScanAtLeast(name: seq<Label>, t: seq<Entry>, i: nat)
    requires i < |t|
    requires SuffixOffset(t[i], CommonSuffix(name, t[i].name)) <= MAX_OFFSET
    ensures Scan(name, t).longest >= CommonSuffix(name, t[i].name)
  {
    hide CommonSuffix, SuffixOffset;
    var n := |t| - 1;
    if i < n {
      ScanAtLeast(name, t[..n], i);
    }
  }

  lemma SuffixTransitive(a: seq<Label>, b: seq<Label>, c: seq<Label>, k: nat)
    requires k <= CommonSuffix(a, b) && k <= CommonSuffix(b, c)
    ensures k <= CommonSuffix(a, c)
  {
    CommonSuffixIsLongest(a, b);
    CommonSuffixIsLongest(b, c);
    CommonSuffixIsLongest(a, c);
    assert Same(Tail(a, k), Tail(b, k)) && Same(Tail(b, k), Tail(c, k));
  }

  /** If the last k labels of entry j are not literal there, an earlier entry has them
      literally. */
  lemma {:induction false} LiteralElsewhere(t: seq<Entry>, j: nat, k: nat) returns (i: nat)
    requires Advancing(t) && j < |t| && 1 <= k <= |t[j].name|
    requires |t[j].name| - k >= Literal(t, j)
    ensures i < j && !Inert(t[i]) && k <= CommonSuffix(t[j].name, t[i].name)
    ensures |t[i].name| - k < Literal(t, i)
    decreases j, 1
  {
    AdvancingPrefix(t, j);
    i := TargetIsLiteral(t[j].name, t[..j]);
    assert t[..j][..i] == t[..i];
    if |t[i].name| - k >= Literal(t, i) {
      var i' := LiteralElsewhere(t, i, k);
      SuffixTransitive(t[j].name, t[i].name, t[i'].name, k);
      i := i';
    }
  }

  /** The comment in compress_name says "the first occurrence can't be compressed". It holds,
      also under the cap on offsets: the label a new pointer targets is literal. */
  lemma {:induction false} TargetIsLiteral(name: seq<Label>, t: seq<Entry>) returns (j: nat)
    requires Advancing(t) && Scan(name, t).longest > 0
    ensures j < |t| && !Inert(t[j])
    ensures var k := Scan(name, t).longest;
            && CommonSuffix(name, t[j].name) == k
            && Scan(name, t).coffs == SuffixOffset(t[j], k)
            && |t[j].name| - k < Literal(t, j)
    decreases |t|, 0
  {
    j := ScanSource(name, t);
    var k := Scan(name, t).longest;
    ScanFits(name, t);
    assert SuffixOffset(t[j], k) <= MAX_OFFSET;
    if |t[j].name| - k >= Literal(t, j) {
      var i := LiteralElsewhere(t, j, k);
      SuffixTransitive(name, t[j].name, t[i].name, k);
      EarlierWouldWin(name, t, i, j, k);
      assert false;
    }
  }

  /** An entry with the last k labels literal, placed before an offset that fits, is accepted
      by the scan. */
  lemma EarlierWouldWin(name: seq<Label>, t: seq<Entry>, i: nat, j: nat, k: nat)
    requires Advancing(t) && i < j < |t| && 1 <= k <= |t[j].name| && !Inert(t[i])
    requires k <= CommonSuffix(name, t[i].name) && |t[i].name| - k < Literal(t, i)
    requires SuffixOffset(t[j], k) <= MAX_OFFSET
    ensures Scan(name, t[..j]).longest >= k
  {
    hide Lits, Off, Scan, CommonSuffix, Emit, Literal;
    var rv := CommonSuffix(name, t[i].name);
    SuffixBeforeEnd(t, i, k);
    OffMonotone(t[i].name, |t[i].name| - rv, |t[i].name| - k);
    assert t[..j][i] == t[i];
    AdvancingAt(t, i, j);
    ScanAtLeast(name, t[..j], i);
  }

  /** A literal label stands before the end of what was emitted. */
  lemma SuffixBeforeEnd(t: seq<Entry>, i: nat, k: nat)
    requires i < |t| && k <= |t[i].name| && |t[i].name| - k < Literal(t, i)
    ensures SuffixOffset(t[i], k) < t[i].index + |Emitted(t, i)|
  {
    var n := Literal(t, i);
    OffMonotone(t[i].name, |t[i].name| - k, n);
    OffEnd(t[i].name);
  }

  // ---------- every emitted name expands to the original ----------

  /** The message holds these bytes at this place. */
  ghost predicate Holds(m: seq<byte>, offs: nat, out: seq<byte>) {
    offs + |out| <= |m| && m[offs..offs + |out|] == out
  }

  ghost predicate HoldsTable(m: seq<byte>, t: seq<Entry>) {
    forall i {:trigger Emitted(t, i)} :: 0 <= i < |t| && !Inert(t[i]) ==> Holds(m, t[i].index, Emitted(t, i))
  }

  /** Literal labels in front of something that has a meaning. */
  lemma {:induction false} DenotesLiterals(m: seq<byte>, pos: nat, a: seq<Label>, ls: seq<Label>, h: nat)
    requires Holds(m, pos, Lits(a)) && Denotes(m, pos + |Lits(a)|, ls, h)
    ensures Denotes(m, pos, a + ls, h)
    decreases |a|
  {
    hide Lits, Holds, Denotes;
    if a == [] {
      assert a + ls == ls && |Lits(a)| == 0 by {
        NoLits();
      }
    } else {
      FirstLabel(m, pos, a);
      DenotesLiterals(m, pos + 1 + |a[0]|, a[1..], ls, h);
      DenotesLabel(m, pos, a[0], a[1..] + ls, h);
      assert a + ls == [a[0]] + (a[1..] + ls);
    }
  }

  lemma NoLits()
    ensures Lits([]) == []
  {
  }

  lemma DenotesLabel(m: seq<byte>, pos: nat, l: Label, ls: seq<Label>, h: nat)
    requires pos < |m| && m[pos] == |l| && Holds(m, pos + 1, l) && Denotes(m, pos + 1 + |l|, ls, h)
    ensures Denotes(m, pos, [l] + ls, h)
  {
    assert ([l] + ls)[1..] == ls;
  }

  lemma HoldsSplit(m: seq<byte>, offs: nat, x: seq<byte>, y: seq<byte>)
    requires Holds(m, offs, x + y)
    ensures Holds(m, offs, x) && Holds(m, offs + |x|, y)
  {
    var w := m[offs..offs + |x + y|];
    assert m[offs..offs + |x|] == w[..|x|] == x;
    assert m[offs + |x|..offs + |x| + |y|] == w[|x|..] == y;
  }

  lemma FirstLabel(m: seq<byte>, pos: nat, a: seq<Label>)
    requires a != [] && Holds(m, pos, Lits(a))
    ensures pos < |m| && m[pos] == |a[0]|
    ensures Holds(m, pos + 1, a[0]) && Holds(m, pos + 1 + |a[0]|, Lits(a[1..]))
    ensures |Lits(a)| == 1 + |a[0]| + |Lits(a[1..])|
  {
    var len: seq<byte> := [|a[0]|];
    assert Lits(a) == len + a[0] + Lits(a[1..]);
    hide Lits;
    HoldsSplit(m, pos, len + a[0], Lits(a[1..]));
    HoldsSplit(m, pos, len, a[0]);
    assert m[pos..pos + 1][0] == m[pos];
  }

  /** What ends an emitted name. */
  function End(name: seq<Label>, t: seq<Entry>): seq<byte>
    requires Scan(name, t).coffs <= MAX_OFFSET
  {
    if Scan(name, t).longest == 0 then [0] else Pointer(Scan(name, t).coffs)
  }

  /** The parts of an emitted name: literal labels, then a pointer or the terminator. */
  lemma EmitParts(name: seq<Label>, t: seq<Entry>, q: nat)
    requires q <= |name| - Scan(name, t).longest
    ensures Scan(name, t).coffs <= MAX_OFFSET
    ensures var p := |name| - Scan(name, t).longest;
            && Emit(name, t) == Lits(name[..q]) + (Lits(name[q..p]) + End(name, t))
            && Off(name, p) == Off(name, q) + |Lits(name[q..p])|
  {
    hide Scan;
    ScanFits(name, t);
    var p := |name| - Scan(name, t).longest;
    assert name[..q] + name[q..p] == name[..p];
    LitsConcat(name[..q], name[q..p]);
    if p == |name| {
      assert name[..p] == name;
    }
    hide Lits;
    assert Lits(name[..p]) + End(name, t) == Lits(name[..q]) + (Lits(name[q..p]) + End(name, t));
  }

  lemma SameConcat(a: seq<Label>, b: seq<Label>, c: seq<Label>)
    requires Same(b, c)
    ensures Same(a + b, a + c)
  {
    forall i | 0 <= i < |a + b| ensures Fold((a + b)[i]) == Fold((a + c)[i]) {
      if i >= |a| {
        assert (a + b)[i] == b[i - |a|] && (a + c)[i] == c[i - |a|];
      }
    }
  }

  /** What stands at literal label q of an emitted name expands to the labels from q on, by
      fewer pointers than there are labels. */
  lemma {:induction false} ExpandsFrom(m: seq<byte>, t: seq<Entry>, name: seq<Label>, offs: nat, q: nat)
    returns (ls: seq<Label>, h: nat)
    requires Advancing(t) && HoldsTable(m, t) && Holds(m, offs, Emit(name, t))
    requires q <= |name| - Scan(name, t).longest
    ensures Denotes(m, offs + Off(name, q), ls, h)
    ensures Same(ls, name[q..])
    ensures h <= Scan(name, t).longest
    decreases |t|
  {
    hide Lits, Scan, CommonSuffix, Emit, Same, Fold, Literal, Denotes, Holds, HoldsTable, Advancing, Pointer;
    var k := Scan(name, t).longest;
    var p := |name| - k;
    var lits := name[q..p];
    EmitParts(name, t, q);
    HoldsSplit(m, offs, Lits(name[..q]), Lits(lits) + End(name, t));
    HoldsSplit(m, offs + Off(name, q), Lits(lits), End(name, t));
    if k == 0 {
      DenotesEnd(m, offs + Off(name, p));
      DenotesLiterals(m, offs + Off(name, q), lits, [], 0);
      ls, h := lits + [], 0;
      assert lits + [] == name[q..];
      SameRefl(name[q..]);
    } else {
      var j := TargetIsLiteral(name, t);
      var e := t[j];
      AdvancingPrefix(t, j);
      HoldsTablePrefix(m, t, j);
      HoldsEntry(m, t, j);
      LiteralRoom(t, j, k);
      var rest, g := ExpandsFrom(m, t[..j], e.name, e.index, |e.name| - k);
      PointerDenotes(m, offs + Off(name, p), Scan(name, t).coffs, rest, g);
      DenotesLiterals(m, offs + Off(name, q), lits, rest, g + 1);
      ls, h := lits + rest, g + 1;
      CommonSuffixIsLongest(name, e.name);
      assert Same(Tail(name, k), Tail(e.name, k));
      SameTrans(rest, Tail(e.name, k), name[p..]);
      SameConcat(lits, rest, name[p..]);
      assert lits + name[p..] == name[q..];
    }
  }

  lemma SameRefl(a: seq<Label>)
    ensures Same(a, a)
  {
  }

  lemma SameTrans(a: seq<Label>, b: seq<Label>, c: seq<Label>)
    requires Same(a, b) && Same(c, b)
    ensures Same(a, c)
  {
  }

  lemma HoldsTablePrefix(m: seq<byte>, t: seq<Entry>, n: nat)
    requires HoldsTable(m, t) && n <= |t|
    ensures HoldsTable(m, t[..n])
  {
    hide Emitted, Inert, Holds;
    forall i | 0 <= i < n && !Inert(t[..n][i]) ensures Holds(m, t[..n][i].index, Emitted(t[..n], i)) {
      EmittedPrefix(t, n, i);
    }
  }

  lemma HoldsEntry(m: seq<byte>, t: seq<Entry>, j: nat)
    requires HoldsTable(m, t) && j < |t| && !Inert(t[j])
    ensures Holds(m, t[j].index, Emitted(t, j))
  {
  }

  /** A literal label of entry j lies before everything entry j took from elsewhere. */
  lemma LiteralRoom(t: seq<Entry>, j: nat, k: nat)
    requires j < |t| && k <= |t[j].name| && |t[j].name| - k < Literal(t, j)
    ensures Scan(t[j].name, t[..j]).longest < k
  {
  }

  lemma DenotesEnd(m: seq<byte>, pos: nat)
    requires Holds(m, pos, [0])
    ensures Denotes(m, pos, [], 0)
  {
    assert m[pos..pos + 1][0] == m[pos];
  }

  lemma PointerBytes(m: seq<byte>, pos: nat, target: nat)
    requires target <= MAX_OFFSET && Holds(m, pos, Pointer(target))
    ensures pos + 1 < |m| && 192 <= m[pos] && PointerAt(m, pos) == target
  {
    assert m[pos..pos + 2][0] == m[pos] && m[pos..pos + 2][1] == m[pos + 1];
  }

  lemma DenotesThrough(m: seq<byte>, pos: nat, rest: seq<Label>, g: nat)
    requires pos + 1 < |m| && 192 <= m[pos] && Denotes(m, PointerAt(m, pos), rest, g)
    ensures Denotes(m, pos, rest, g + 1)
  {
    hide PointerAt;
  }

  lemma PointerDenotes(m: seq<byte>, pos: nat, target: nat, rest: seq<Label>, g: nat)
    requires target <= MAX_OFFSET && Holds(m, pos, Pointer(target)) && Denotes(m, target, rest, g)
    ensures Denotes(m, pos, rest, g + 1)
  {
    hide Denotes, Holds, Pointer, PointerAt;
    PointerBytes(m, pos, target);
    DenotesThrough(m, pos, rest, g);
  }

  lemma {:induction false} LiteralsInPlace(m: seq<byte>, pos: nat, a: seq<Label>)
    requires Holds(m, pos, Lits(a))
    ensures InPlaceLen(m, pos) == |Lits(a)| + InPlaceLen(m, pos + |Lits(a)|)
    decreases |a|
  {
    hide Lits, Holds;
    if a == [] {
      NoLits();
    } else {
      FirstLabel(m, pos, a);
      LiteralsInPlace(m, pos + 1 + |a[0]|, a[1..]);
    }
  }

  lemma EndInPlace(m: seq<byte>, pos: nat, name: seq<Label>, t: seq<Entry>)
    requires Scan(name, t).coffs <= MAX_OFFSET && Holds(m, pos, End(name, t))
    ensures InPlaceLen(m, pos) == |End(name, t)|
  {
    hide Scan;
    var end := End(name, t);
    assert m[pos..pos + |end|][0] == m[pos];
  }

  /** What an emitted name occupies in the message is exactly what was emitted. */
  lemma EmittedInPlace(m: seq<byte>, t: seq<Entry>, name: seq<Label>, offs: nat)
    requires Holds(m, offs, Emit(name, t))
    ensures InPlaceLen(m, offs) == |Emit(name, t)|
  {
    hide Holds, Emit, Scan, End, InPlaceLen;
    var p := |name| - Scan(name, t).longest;
    EmitParts(name, t, p);
    HoldsSplit(m, offs, Lits(name[..p]), Lits(name[p..p]) + End(name, t));
    assert Lits(name[p..p]) + End(name, t) == End(name, t);
    LiteralsInPlace(m, offs, name[..p]);
    EndInPlace(m, offs + |Lits(name[..p])|, name, t);
  }

  /** decompress_name on what was emitted for a name, with any data field that contains it:
      the name comes back up to ASCII case and exactly the emitted bytes are consumed. */
  lemma ExpandsAt(m: seq<byte>, t: seq<Entry>, name: seq<Label>, offs: nat, sz: nat)
    requires Advancing(t) && HoldsTable(m, t) && Holds(m, offs, Emit(name, t))
    requires |Encode(name)| <= DNSNAMEBUFSIZE && |Emit(name, t)| <= sz
    ensures var o := Near(m, offs, sz, 0);
            o.Name? && Same(o.labels, name) && o.used == |Emit(name, t)|
  {
    hide Denotes, Emit, Lits, Scan, Holds, HoldsTable, Advancing, Near, InPlaceLen, Off;
    var ls, h := ExpandsFrom(m, t, name, offs, 0);
    OffStart(name);
    assert name[0..] == name;
    EncodedSame(ls, name);
    EmittedInPlace(m, t, name, offs);
    OffEnd(name);
    assert Acceptable(m, offs, sz, ls);
    NearIsMeaning(m, offs, sz, ls, |Emit(name, t)|);
  }

  lemma OffStart(name: seq<Label>)
    ensures Off(name, 0) == 0
  {
  }

  lemma EncodedSame(a: seq<Label>, b: seq<Label>)
    requires Same(a, b)
    ensures |Encode(a)| == |Encode(b)|
  {
    SameLits(a, b);
  }

  // ---------- runs ----------

  /** One call of compress_name and the place of its output in the message. */
  datatype Call = Call(name: seq<Label>, offs: nat)

  function Table(calls: seq<Call>): seq<Entry> {
    if calls == [] then []
    else
      var c := calls[|calls| - 1];
      Grow(c.name, c.offs, Table(calls[..|calls| - 1]))
  }

  function Output(calls: seq<Call>, i: nat): seq<byte>
    requires i < |calls|
  {
    Emit(calls[i].name, Table(calls[..i]))
  }

  /** A message built from the calls: outputs at advancing, non-overlapping places. */
  ghost predicate LaidOut(m: seq<byte>, calls: seq<Call>) {
    && (forall i :: 0 <= i < |calls| ==> |Encode(calls[i].name)| <= DNSNAMEBUFSIZE)
    && (forall i {:trigger Output(calls, i)} :: 0 <= i < |calls| ==> Holds(m, calls[i].offs, Output(calls, i)))
    && (forall i, j {:trigger Output(calls, i), Output(calls, j)} :: 0 <= i < j < |calls| ==>
          calls[i].offs + |Output(calls, i)| <= calls[j].offs)
  }

  lemma LaidOutPrefix(m: seq<byte>, calls: seq<Call>, n: nat)
    requires LaidOut(m, calls) && n <= |calls|
    ensures LaidOut(m, calls[..n])
  {
    hide Output, Holds, Encode;
    var pre := calls[..n];
    forall i | 0 <= i < n ensures Holds(m, pre[i].offs, Output(pre, i)) {
      OutputPrefix(calls, n, i);
    }
    forall i, j | 0 <= i < j < n ensures pre[i].offs + |Output(pre, i)| <= pre[j].offs {
      OutputPrefix(calls, n, i);
      OutputPrefix(calls, n, j);
    }
  }

  lemma OutputPrefix(calls: seq<Call>, n: nat, i: nat)
    requires i < n <= |calls|
    ensures calls[..n][i] == calls[i] && Output(calls[..n], i) == Output(calls, i)
  {
    hide Emit, Table;
    assert calls[..n][..i] == calls[..i];
  }

  lemma LaidOutAt(m: seq<byte>, calls: seq<Call>, i: nat, j: nat)
    requires LaidOut(m, calls) && i < |calls| && j < |calls|
    ensures Holds(m, calls[i].offs, Output(calls, i)) && |Encode(calls[i].name)| <= DNSNAMEBUFSIZE
    ensures i < j ==> calls[i].offs + |Output(calls, i)| <= calls[j].offs
  {
    hide Output, Holds, Encode;
    var _ := Output(calls, j);
  }

  /** What every run keeps: the list entries are placed in order, the message holds them, and
      everything listed ends before the next free place. */
  lemma {:induction false} RunKeeps(m: seq<byte>, calls: seq<Call>)
    requires LaidOut(m, calls)
    ensures Advancing(Table(calls)) && HoldsTable(m, Table(calls))
    ensures forall i :: 0 <= i < |Table(calls)| ==> FromCall(calls, Table(calls), i)
  {
    if calls != [] {
      hide LaidOut, Advancing, HoldsTable, FromCall, Emit;
      var n := |calls| - 1;
      var pre, c := calls[..n], calls[n];
      LaidOutPrefix(m, calls, n);
      RunKeeps(m, pre);
      forall i | 0 <= i < |Table(pre)| ensures FromCall(calls, Table(pre), i) {
        SourcePrefix(calls, pre, Table(pre), i);
      }
      assert pre == calls[..n];
      if Table(calls) != Table(pre) {
        GrowKeeps(m, calls, pre, Table(pre), c);
      }
    }
  }

  /** Entry i of a list stands for some call and for what that call emitted. */
  ghost predicate FromCall(calls: seq<Call>, t: seq<Entry>, i: nat)
    requires i < |t|
  {
    exists j {:trigger Output(calls, j)} ::
      0 <= j < |calls| && t[i].index == calls[j].offs && Emitted(t, i) == Output(calls, j)
  }

  lemma SourcePrefix(calls: seq<Call>, pre: seq<Call>, t: seq<Entry>, i: nat)
    requires calls != [] && pre == calls[..|calls| - 1] && i < |t| && FromCall(pre, t, i)
    ensures FromCall(calls, t, i)
  {
    hide Emit, Table, Emitted;
    var j :| 0 <= j < |pre| && t[i].index == pre[j].offs && Emitted(t, i) == Output(pre, j);
    assert pre[..j] == calls[..j];
    assert t[i].index == calls[j].offs && Emitted(t, i) == Output(calls, j);
  }

  lemma GrowKeeps(m: seq<byte>, calls: seq<Call>, pre: seq<Call>, t: seq<Entry>, c: Call)
    requires LaidOut(m, calls) && calls != [] && c == calls[|calls| - 1] && pre == calls[..|calls| - 1]
    requires t == Table(pre) && Advancing(t) && HoldsTable(m, t)
    requires forall i :: 0 <= i < |t| ==> FromCall(pre, t, i)
    ensures var t' := t + [Entry(c.offs, c.name)];
            && Advancing(t') && HoldsTable(m, t')
            && (forall i :: 0 <= i < |t'| ==> FromCall(calls, t', i))
  {
    hide Emit, Table, Emitted, Inert, Holds, Advancing, HoldsTable;
    var n, e := |calls| - 1, Entry(c.offs, c.name);
    var t' := t + [e];
    assert Emit(c.name, t) == Output(calls, n);
    forall i | 0 <= i < |t| && !Inert(t[i]) ensures t[i].index + |Emitted(t, i)| <= e.index {
      EndsEarlier(m, calls, pre, t, i);
    }
    TableSnoc(m, t, e);
    forall i | 0 <= i < |t'| ensures FromCall(calls, t', i) {
      EmittedSnoc(t, e, i);
      if i < |t| {
        SourcePrefix(calls, pre, t, i);
        var j :| 0 <= j < |calls| && t[i].index == calls[j].offs && Emitted(t, i) == Output(calls, j);
        assert t'[i].index == calls[j].offs && Emitted(t', i) == Output(calls, j);
      } else {
        assert t'[i].index == calls[n].offs && Emitted(t', i) == Output(calls, n);
      }
    }
  }

  lemma EndsEarlier(m: seq<byte>, calls: seq<Call>, pre: seq<Call>, t: seq<Entry>, i: nat)
    requires LaidOut(m, calls) && calls != [] && pre == calls[..|calls| - 1]
    requires i < |t| && FromCall(pre, t, i)
    ensures t[i].index + |Emitted(t, i)| <= calls[|calls| - 1].offs
  {
    hide Output, Emitted, Holds, LaidOut;
    var x :| 0 <= x < |pre| && t[i].index == pre[x].offs && Emitted(t, i) == Output(pre, x);
    OutputPrefix(calls, |calls| - 1, x);
    LaidOutAt(m, calls, x, |calls| - 1);
  }

  /** Every name emitted by any run of calls means the original name up to ASCII case, through
      at most as many pointers as it has labels (at most 127). */
  lemma RunExpands(m: seq<byte>, calls: seq<Call>, i: nat) returns (ls: seq<Label>, h: nat)
    requires LaidOut(m, calls) && i < |calls|
    ensures Denotes(m, calls[i].offs, ls, h) && Same(ls, calls[i].name)
    ensures h <= |ls| <= 127
  {
    hide Denotes, Advancing, HoldsTable, Emit, Table, Scan, LaidOut;
    LaidOutPrefix(m, calls, i);
    LaidOutAt(m, calls, i, i);
    RunKeeps(m, calls[..i]);
    ls, h := ExpandsFrom(m, Table(calls[..i]), calls[i].name, calls[i].offs, 0);
    assert Off(calls[i].name, 0) == 0 && calls[i].name[0..] == calls[i].name;
    OffEnd(calls[i].name);
  }

  /** The round trip over a run: at the place of any of its names decompress_name succeeds. */
  lemma RoundTrip(m: seq<byte>, calls: seq<Call>, i: nat, sz: nat)
    requires LaidOut(m, calls) && i < |calls| && |Output(calls, i)| <= sz
    ensures var o := Near(m, calls[i].offs, sz, 0);
            o.Name? && Same(o.labels, calls[i].name) && o.used == |Output(calls, i)|
  {
    LaidOutPrefix(m, calls, i);
    RunKeeps(m, calls[..i]);
    ExpandsAt(m, Table(calls[..i]), calls[i].name, calls[i].offs, sz);
  }
}
