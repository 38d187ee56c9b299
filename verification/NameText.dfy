/** Domain names as text, helpers.c: printing them in dotted notation and reading them back. */
module NameText {
  import opened Names
  import opened Wrappers

  const DOT: byte := 46
  const BACKSLASH: byte := 92
  const QUOTE: byte := 34

  /** A character string ends before its first zero byte. */
  function Upto(s: seq<byte>): (t: seq<byte>)
    ensures t <= s && 0 !in t && (|t| < |s| ==> s[|t|] == 0)
  {
    if s == [] || s[0] == 0 then [] else [s[0]] + Upto(s[1..])
  }

  /** Each label followed by a dot. */
  function Join(ls: seq<Label>): (t: seq<byte>)
    ensures |t| == |Lits(ls)|
  {
    if ls == [] then [] else ls[0] + [DOT] + Join(ls[1..])
  }

  /** The dotted notation of a name. */
  function Text(ls: seq<Label>): seq<byte> {
    if ls == [] then [DOT] else Join(ls)
  }

  function FirstDot(t: seq<byte>): (n: nat)
    ensures n <= |t| && DOT !in t[..n] && (n < |t| ==> t[n] == DOT)
  {
    if t == [] || t[0] == DOT then 0 else 1 + FirstDot(t[1..])
  }

  /** The labels between the dots of a text; the last dot may be missing. */
  function Labels(t: seq<byte>): Option<seq<Label>>
    decreases |t|
  {
    var n := FirstDot(t);
    if t == [] then Some([])
    else if n == 0 || n > 63 then None
    else
      var l: Label := t[..n];
      var rest := if n == |t| then Some([]) else Labels(t[n + 1..]);
      if rest.None? then None else Some([l] + rest.value)
  }

  /** A text the parsers can read: the root, or labels that make a name of at most
      DNSNAMEBUFSIZE bytes. */
  predicate Readable(t: seq<byte>) {
    t == [DOT] || (t != [] && Labels(t).Some? && |Encode(Labels(t).value)| <= DNSNAMEBUFSIZE)
  }

  function NameOf(t: seq<byte>): seq<Label>
    requires Readable(t)
  {
    if t == [DOT] then [] else Labels(t).value
  }

  // ---------- what that means ----------

  ghost predicate DotFree(ls: seq<Label>) {
    forall i :: 0 <= i < |ls| ==> DOT !in ls[i]
  }

  lemma {:induction false} FirstDotIs(l: seq<byte>, rest: seq<byte>)
    requires DOT !in l
    ensures FirstDot(l + [DOT] + rest) == |l| && FirstDot(l) == |l|
  {
    if l == [] {
      assert l + [DOT] + rest == [DOT] + rest;
    } else {
      assert (l + [DOT] + rest)[1..] == l[1..] + [DOT] + rest;
      assert forall x :: x in l[1..] ==> x in l;
      FirstDotIs(l[1..], rest);
    }
  }

  /** One label more. */
  lemma LabelsStep(l: Label, u: seq<byte>)
    requires DOT !in l
    ensures Labels(l + [DOT] + u) == (if Labels(u).None? then None else Some([l] + Labels(u).value))
    ensures Labels(l) == Some([l])
  {
    hide FirstDot, Labels;
    FirstDotIs(l, u);
    var t := l + [DOT] + u;
    assert t[..|l|] == l && t[|l| + 1..] == u && l[..|l|] == l;
    LabelsUnfold(t, |l|, l);
    LabelsUnfold(l, |l|, l);
  }

  lemma LabelsUnfold(t: seq<byte>, n: nat, l: Label)
    requires n == FirstDot(t) && 0 < n <= 63 && l == t[..n]
    ensures n == |t| ==> Labels(t) == Some([l])
    ensures n < |t| ==>
      Labels(t) == if Labels(t[n + 1..]).None? then None else Some([l] + Labels(t[n + 1..]).value)
  {
    hide FirstDot;
    assert [l] + [] == [l];
  }

  /** The labels of a text are the ones that, joined by dots, give the text, its last dot
      granted. */
  lemma {:induction false} LabelsMeans(t: seq<byte>, ls: seq<Label>)
    ensures Labels(t) == Some(ls) <==> DotFree(ls) && (t == Join(ls) || (ls != [] && t + [DOT] == Join(ls)))
    decreases |t|
  {
    if ls == [] {
      var n := FirstDot(t);
      assert t != [] && Labels(t).Some? ==> |Labels(t).value| > 0;
    } else {
      if Labels(t) == Some(ls) {
        LabelsSplit(t, ls);
      }
      if DotFree(ls) && (t == Join(ls) || t + [DOT] == Join(ls)) {
        LabelsJoined(t, ls);
      }
    }
  }

  lemma LabelsSplit(t: seq<byte>, ls: seq<Label>)
    requires Labels(t) == Some(ls) && ls != []
    ensures DotFree(ls) && (t == Join(ls) || t + [DOT] == Join(ls))
    decreases |t|, 0
  {
    var n := FirstDot(t);
    var rest := ls[1..];
    assert t != [] && 0 < n <= 63 && ls[0] == t[..n] && DOT !in ls[0];
    if n == |t| {
      assert rest == [];
    } else {
      assert Labels(t[n + 1..]) == Some(rest);
      LabelsMeans(t[n + 1..], rest);
    }
    SplitJoins(t, n, ls);
    DotFreeCons(ls);
  }

  lemma SplitJoins(t: seq<byte>, n: nat, ls: seq<Label>)
    requires ls != [] && n <= |t| && ls[0] == t[..n] && (n < |t| ==> t[n] == DOT)
    requires if n == |t| then ls[1..] == []
             else t[n + 1..] == Join(ls[1..]) || t[n + 1..] + [DOT] == Join(ls[1..])
    ensures t == Join(ls) || t + [DOT] == Join(ls)
  {
    if n == |t| {
      assert Join(ls[1..]) == [] && t[..n] == t;
      assert t + [DOT] + [] == t + [DOT];
    } else {
      var u := t[n + 1..];
      assert t == ls[0] + [DOT] + u;
      assert t + [DOT] == ls[0] + [DOT] + (u + [DOT]);
    }
  }

  lemma DotFreeCons(ls: seq<Label>)
    requires ls != []
    ensures DotFree(ls) <==> DOT !in ls[0] && DotFree(ls[1..])
  {
    assert forall i :: 0 <= i < |ls[1..]| ==> ls[1..][i] == ls[i + 1];
    assert forall i :: 1 <= i < |ls| ==> ls[i] == ls[1..][i - 1];
  }

  lemma LabelsJoined(t: seq<byte>, ls: seq<Label>)
    requires ls != [] && DotFree(ls) && (t == Join(ls) || t + [DOT] == Join(ls))
    ensures Labels(t) == Some(ls)
    decreases |t|, 0
  {
    var l, rest := ls[0], ls[1..];
    assert ls == [l] + rest;
    DotFreeCons(ls);
    hide Labels, FirstDot, DotFree;
    assert Join(ls) == l + [DOT] + Join(rest);
    if t == Join(ls) {
      LabelsStep(l, Join(rest));
      LabelsMeans(Join(rest), rest);
    } else if rest == [] {
      assert Join(rest) == [] && t + [DOT] == l + [DOT];
      assert t == (t + [DOT])[..|t|] == (l + [DOT])[..|l|] == l;
      LabelsStep(l, []);
    } else {
      var u := Join(rest)[..|Join(rest)| - 1];
      JoinEnds(rest);
      assert Join(rest) == u + [DOT];
      assert t + [DOT] == (l + [DOT] + u) + [DOT];
      assert t == (t + [DOT])[..|t|] == l + [DOT] + u;
      LabelsStep(l, u);
      LabelsMeans(u, rest);
    }
  }

  lemma {:induction false} JoinEnds(ls: seq<Label>)
    requires ls != []
    ensures |Join(ls)| > 0 && Join(ls)[|Join(ls)| - 1] == DOT
  {
    if |ls| > 1 {
      JoinEnds(ls[1..]);
    } else {
      assert Join(ls[1..]) == [];
    }
  }

  // ---------- rhn2str ----------

  /** isgraph, for ASCII. */
  predicate IsGraph(c: byte) {
    33 <= c <= 126
  }

  predicate Special(c: byte) {
    c == DOT || c == BACKSLASH || c == QUOTE
  }

  /** Names that are printed without escapes. */
  ghost predicate Plain(ls: seq<Label>) {
    forall i, k :: 0 <= i < |ls| && 0 <= k < |ls[i]| ==> IsGraph(ls[i][k]) && !Special(ls[i][k])
  }

  /** The octal digits of a byte. */
  function Octal(c: byte): seq<byte> {
    [BACKSLASH, 48 + c / 64, 48 + c / 8 % 8, 48 + c % 8]
  }

  /** A byte of a label as it is printed. */
  function Escaped(c: byte): (r: seq<byte>)
    ensures 1 <= |r| <= 4
  {
    if !IsGraph(c) then Octal(c) else if Special(c) then [BACKSLASH, c] else [c]
  }

  /** How a byte is printed: as it is if it can be seen on paper, after a backslash if it is a
      dot, a backslash or a quotation mark, and as three octal digits if it cannot be seen. */
  lemma EscapedMeans(c: byte)
    ensures 33 <= c <= 126 && c as char !in ".\\\"" ==> Escaped(c) == [c]
    ensures c as char in ".\\\"" ==> Escaped(c) == ['\\' as byte, c]
    ensures !(33 <= c <= 126) ==>
      && |Escaped(c)| == 4 && Escaped(c)[0] == '\\' as byte
      && (forall k :: 1 <= k < 4 ==> '0' as byte <= Escaped(c)[k] <= '7' as byte)
      && c as int == 64 * (Escaped(c)[1] as int - 48) + 8 * (Escaped(c)[2] as int - 48) + (Escaped(c)[3] as int - 48)
  {
    if !IsGraph(c) {
      OctalDigits(c);
    }
  }

  /** Whatever bytes a name holds, only characters that can be seen are printed. */
  lemma {:induction false} ShownVisible(ls: seq<Label>)
    ensures forall k :: 0 <= k < |ShownLabels(ls)| ==> 33 <= ShownLabels(ls)[k] <= 126
  {
    if ls != [] {
      LabelVisible(ls[0]);
      ShownVisible(ls[1..]);
    }
  }

  lemma {:induction false} LabelVisible(l: seq<byte>)
    ensures forall k :: 0 <= k < |EscapedAll(l)| ==> 33 <= EscapedAll(l)[k] <= 126
  {
    if l != [] {
      LabelVisible(l[1..]);
    }
  }

  function EscapedAll(l: seq<byte>): (r: seq<byte>)
    ensures |r| >= |l|
  {
    if l == [] then [] else Escaped(l[0]) + EscapedAll(l[1..])
  }

  /** Each label, escaped, followed by a dot. */
  function ShownLabels(ls: seq<Label>): seq<byte> {
    if ls == [] then [] else EscapedAll(ls[0]) + [DOT] + ShownLabels(ls[1..])
  }

  /** The printed form of a name. */
  function Shown(ls: seq<Label>): seq<byte> {
    if ls == [] then [DOT] else ShownLabels(ls)
  }

  lemma {:induction false} EscapedConcat(a: seq<byte>, b: seq<byte>)
    ensures EscapedAll(a + b) == EscapedAll(a) + EscapedAll(b)
  {
    if a == [] {
      assert a + b == b;
    } else {
      assert (a + b)[0] == a[0] && (a + b)[1..] == a[1..] + b;
      EscapedConcat(a[1..], b);
    }
  }

  lemma {:induction false} ShownConcat(a: seq<Label>, b: seq<Label>)
    ensures ShownLabels(a + b) == ShownLabels(a) + ShownLabels(b)
  {
    if a == [] {
      assert a + b == b;
    } else {
      assert (a + b)[0] == a[0] && (a + b)[1..] == a[1..] + b;
      ShownConcat(a[1..], b);
    }
  }

  lemma SplitAround(l: seq<byte>, n: nat)
    requires n < |l|
    ensures l[..n + 1] == l[..n] + [l[n]] && l == l[..n + 1] + l[n + 1..]
  {
  }

  /** One byte more of a label, within the whole. */
  lemma EscapedNext(l: seq<byte>, n: nat)
    requires n < |l|
    ensures EscapedAll(l[..n + 1]) == EscapedAll(l[..n]) + Escaped(l[n])
    ensures EscapedAll(l[..n + 1]) <= EscapedAll(l)
  {
    hide EscapedAll, Escaped;
    var a, b, rest := l[..n], l[..n + 1], l[n + 1..];
    SplitAround(l, n);
    EscapedConcat(a, [l[n]]);
    EscapedConcat(b, rest);
    EscapedOne(l[n]);
  }

  lemma EscapedOne(c: byte)
    ensures EscapedAll([c]) == Escaped(c)
  {
    assert [c][1..] == [];
    assert Escaped(c) + [] == Escaped(c);
  }

  /** One label more, within the whole. */
  lemma ShownNext(ls: seq<Label>, k: nat)
    requires k < |ls|
    ensures ShownLabels(ls[..k + 1]) == ShownLabels(ls[..k]) + EscapedAll(ls[k]) + [DOT]
    ensures ShownLabels(ls[..k + 1]) <= Shown(ls)
  {
    assert ls[..k + 1] == ls[..k] + [ls[k]] && ls == ls[..k + 1] + ls[k + 1..];
    ShownConcat(ls[..k], [ls[k]]);
    ShownConcat(ls[..k + 1], ls[k + 1..]);
    var one: seq<Label> := [ls[k]];
    assert one[1..] == [] && ShownLabels(one) == EscapedAll(ls[k]) + [DOT] + [];
  }

  lemma OctalApart(x: byte, y: byte)
    requires Octal(x) == Octal(y)
    ensures x == y
  {
    OctalDigits(x);
    OctalDigits(y);
  }

  /** Three octal digits make up the byte. */
  lemma OctalDigits(c: byte)
    ensures var o := Octal(c); c as int == 64 * (o[1] as int - 48) + 8 * (o[2] as int - 48) + (o[3] as int - 48)
  {
  }

  /** The first two bytes tell how long an escape is. */
  lemma EscapedLength(x: byte, s: seq<byte>)
    ensures var u := Escaped(x) + s;
      && u[0] == Escaped(x)[0] && (u[0] == BACKSLASH <==> |Escaped(x)| > 1)
      && (u[0] == BACKSLASH ==> u[1] == Escaped(x)[1] && (48 <= u[1] <= 51 <==> |Escaped(x)| == 4))
      && u[..|Escaped(x)|] == Escaped(x) && u[|Escaped(x)|..] == s && u[0] != DOT
  {
  }

  /** The escape of a byte tells where it ends and which byte it is. */
  lemma EscapedApart(x: byte, y: byte, s: seq<byte>, t: seq<byte>)
    requires Escaped(x) + s == Escaped(y) + t
    ensures x == y && s == t
  {
    EscapedLength(x, s);
    EscapedLength(y, t);
    assert |Escaped(x)| == |Escaped(y)| && Escaped(x) == Escaped(y);
    if !IsGraph(x) {
      OctalApart(x, y);
    } else if Special(x) {
      assert Escaped(x)[1] == x && Escaped(y)[1] == y;
    } else {
      assert Escaped(x)[0] == x && Escaped(y)[0] == y;
    }
  }

  lemma LabelStart(l: seq<byte>, s: seq<byte>)
    ensures var u := EscapedAll(l) + [DOT] + s;
      (u[0] == DOT <==> l == [])
      && if l == [] then u[1..] == s else u == Escaped(l[0]) + (EscapedAll(l[1..]) + [DOT] + s)
  {
    hide Escaped;
    var d := [DOT];
    if l == [] {
      assert EscapedAll(l) + d + s == d + s;
    } else {
      EscapedLength(l[0], EscapedAll(l[1..]) + d + s);
      Reassociate(Escaped(l[0]), EscapedAll(l[1..]), d, s);
    }
  }

  lemma Reassociate(a: seq<byte>, b: seq<byte>, c: seq<byte>, d: seq<byte>)
    ensures a + b + c + d == a + (b + c + d)
  {
  }

  lemma {:induction false} EscapedAllApart(l: seq<byte>, m: seq<byte>, s: seq<byte>, t: seq<byte>)
    requires EscapedAll(l) + [DOT] + s == EscapedAll(m) + [DOT] + t
    ensures l == m && s == t
  {
    hide Escaped, EscapedAll;
    LabelStart(l, s);
    LabelStart(m, t);
    if l != [] {
      EscapedApart(l[0], m[0], EscapedAll(l[1..]) + [DOT] + s, EscapedAll(m[1..]) + [DOT] + t);
      EscapedAllApart(l[1..], m[1..], s, t);
      assert l == [l[0]] + l[1..] && m == [m[0]] + m[1..];
    }
  }

  lemma ShownStart(ls: seq<Label>)
    ensures |Shown(ls)| > 0 && (Shown(ls)[0] == DOT <==> ls == [])
    ensures ls != [] ==> Shown(ls) == EscapedAll(ls[0]) + [DOT] + ShownLabels(ls[1..])
  {
    if ls != [] {
      LabelStart(ls[0], ShownLabels(ls[1..]));
    }
  }

  lemma ShownRest(ls: seq<Label>)
    ensures ShownLabels(ls) == if ls == [] then [] else Shown(ls)
  {
  }

  /** Different names are printed differently. */
  lemma {:induction false} ShownInjective(a: seq<Label>, b: seq<Label>)
    requires Shown(a) == Shown(b)
    ensures a == b
  {
    hide Shown, ShownLabels, EscapedAll;
    ShownStart(a);
    ShownStart(b);
    if a != [] {
      EscapedAllApart(a[0], b[0], ShownLabels(a[1..]), ShownLabels(b[1..]));
      ShownRest(a[1..]);
      ShownRest(b[1..]);
      ShownStart(a[1..]);
      ShownStart(b[1..]);
      if a[1..] != [] && b[1..] != [] {
        ShownInjective(a[1..], b[1..]);
      }
      assert a == [a[0]] + a[1..] && b == [b[0]] + b[1..];
    }
  }

  /** Names without special characters need no escapes. */
  lemma {:induction false} PlainShown(ls: seq<Label>)
    requires Plain(ls)
    ensures Shown(ls) == Text(ls) && ShownLabels(ls) == Join(ls)
  {
    if ls != [] {
      forall i, k | 0 <= i < |ls[1..]| && 0 <= k < |ls[1..][i]|
        ensures IsGraph(ls[1..][i][k]) && !Special(ls[1..][i][k])
      {
        assert ls[1..][i] == ls[i + 1];
      }
      PlainShown(ls[1..]);
      PlainEscaped(ls[0]);
    }
  }

  lemma {:induction false} PlainEscaped(l: seq<byte>)
    requires forall k :: 0 <= k < |l| ==> IsGraph(l[k]) && !Special(l[k])
    ensures EscapedAll(l) == l
  {
    if l != [] {
      PlainEscaped(l[1..]);
      assert l == [l[0]] + l[1..];
    }
  }

  /** What a buffer that is too small holds: the text up to p, and dots in place of the rest. */
  ghost predicate CutAt(b: seq<byte>, text: seq<byte>, p: nat) {
    && p < |b| <= p + 5 && b[..p] <= text && b[|b| - 1] == 0
    && forall k :: p <= k < |b| - 1 ==> b[k] == DOT
  }

  ghost predicate Truncated(b: seq<byte>, text: seq<byte>) {
    exists p: nat :: CutAt(b, text, p)
  }

  /** The end of rhn2str when the buffer is too small: the text is printed up to p. */
  method Overflow(str: array<byte>, ghost text: seq<byte>, ghost p: nat)
    requires p < str.Length <= p + 5 && str[..p] <= text && (str.Length == p + 5 ==> str[p] == DOT)
    modifies str
    ensures Truncated(str[..], text)
  {
    ghost var was := str[..p];
    var j := str.Length - 1;
    str[j] := 0;
    if j > 0 {
      j := j - 1;
      str[j] := DOT;
      if j > 0 {
        j := j - 1;
        str[j] := DOT;
        if j > 0 {
          str[j - 1] := DOT;
        }
      }
    }
    ghost var q: nat := if str.Length < 4 then 0 else if p + 4 < str.Length then p else str.Length - 4;
    assert q <= p && str[..][..q] == was[..q];
    assert CutAt(str[..], text, q);
  }

  /** One character of a label, with an escape where it needs one. There must be room for a dot
      and the end of the string behind it. */
  method PutChar(str: array<byte>, j: nat, c: byte) returns (j': nat, ok: bool)
    requires j < str.Length
    modifies str
    ensures str[..j] == old(str[..j])
    ensures ok <==> j + |Escaped(c)| + 1 < str.Length
    ensures ok ==> j' == j + |Escaped(c)| && str[..j'] == old(str[..j]) + Escaped(c)
    ensures !ok ==> str.Length <= j + 5 && (str.Length == j + 5 ==> str[j] == DOT)
  {
    j', ok := j, false;
    if j' + 2 >= str.Length {
      return;
    }
    if IsGraph(c) {
      if Special(c) {
        str[j'] := BACKSLASH;
        j' := j' + 1;
        if j' + 2 >= str.Length {
          return;
        }
      }
      str[j'] := c;
      j', ok := j' + 1, true;
    } else {
      var rem := str.Length - 1 - j';
      var n := 0;
      while n < 4 && n < rem - 1
        invariant 0 <= n <= 4 && n <= rem - 1 && str[..j] == old(str[..j])
        invariant str[j..j + n] == Octal(c)[..n]
      {
        str[j' + n] := Octal(c)[n];
        n := n + 1;
      }
      if 4 >= rem {
        str[j'] := DOT;
        return;
      }
      j', ok := j' + 4, true;
      assert str[..j'] == str[..j] + str[j..j'];
    }
  }

  /** One label and its dot. When it does not fit, p is how far the text got. */
  method PutLabel(rhn: seq<byte>, ghost l: Label, i0: nat, j0: nat, lb0: nat, str: array<byte>)
      returns (i: nat, j: nat, fits: bool, ghost p: nat)
    requires lb0 == |l| && i0 + lb0 <= |rhn| && rhn[i0..i0 + lb0] == l && j0 < str.Length
    modifies str
    ensures fits ==> i == i0 + lb0 && j < str.Length && str[..j] == old(str[..j0]) + EscapedAll(l) + [DOT]
    ensures fits ==> j == j0 + |EscapedAll(l)| + 1
    ensures !fits ==> str.Length <= j0 + |EscapedAll(l)| + 1
    ensures !fits ==> p < str.Length <= p + 5 && (str.Length == p + 5 ==> str[p] == DOT)
    ensures !fits ==> str[..p] <= old(str[..j0]) + EscapedAll(l)
  {
    hide Escaped, EscapedAll;
    i, j, fits, p := i0, j0, true, 0;
    ghost var head := str[..j0];
    NothingEscaped(head, l);
    var lb: nat := lb0;
    while lb > 0
      invariant lb <= lb0 && i + lb == i0 + lb0 && j < str.Length && (lb < lb0 ==> j + 1 < str.Length)
      invariant str[..j] == head + EscapedAll(l[..lb0 - lb])
    {
      var c := rhn[i];
      assert c == rhn[i0..i0 + lb0][lb0 - lb] == l[lb0 - lb];
      EscapedNext(l, lb0 - lb);
      p := j;
      var ok;
      j, ok := PutChar(str, j, c);
      if !ok {
        fits := false;
        return;
      }
      i := i + 1;
      lb := lb - 1;
    }
    assert l[..lb0] == l;
    str[j] := DOT;
    assert str[..j + 1] == str[..j] + [DOT];
    j := j + 1;
    fits := true;
  }

  lemma NothingEscaped(head: seq<byte>, l: seq<byte>)
    ensures head == head + EscapedAll(l[..0])
  {
  }

  lemma LabelBytes(ls: seq<Label>, k: nat, rhn: seq<byte>)
    requires k < |ls| && Encode(ls) <= rhn
    ensures var i := Off(ls, k) + 1; i + |ls[k]| < |rhn| && rhn[i..i + |ls[k]|] == ls[k]
  {
    OffStep(ls, k);
    WireByte(ls, k);
    assert Encode(ls)[Off(ls, k) + 1..Off(ls, k + 1)] == Lits(ls)[Off(ls, k) + 1..Off(ls, k + 1)];
    assert rhn[Off(ls, k) + 1..Off(ls, k + 1)] == Encode(ls)[Off(ls, k) + 1..Off(ls, k + 1)];
  }

  /** rhn2str: a name whose printed form fits the buffer, with the end of the string, is printed
      in full; otherwise dots stand for what is missing. */
  method Rhn2Str(rhn: seq<byte>, ghost ls: seq<Label>, str: array<byte>)
    requires Encode(ls) <= rhn && str.Length > 0
    modifies str
    ensures if |Shown(ls)| < str.Length then str[..|Shown(ls)| + 1] == Shown(ls) + [0]
            else Truncated(str[..], Shown(ls))
  {
    hide ShownLabels, EscapedAll, Lits, Off, Encode, CutAt, Truncated;
    var i: nat, j: nat := 0, 0;
    WireByte(ls, 0);
    NoText(ls);
    var lb: nat := rhn[i];
    i := i + 1;
    if lb == 0 {
      if str.Length >= 2 {
        str[j] := DOT;
        j := j + 1;
      }
    } else {
      ghost var k: nat := 0;
      while lb > 0
        invariant k <= |ls| && i == Off(ls, k) + 1 && j < str.Length && ls != []
        invariant lb == if k < |ls| then |ls[k]| else 0
        invariant str[..j] == ShownLabels(ls[..k])
        decreases |ls| - k
      {
        ShownNext(ls, k);
        LabelBytes(ls, k, rhn);
        var fits;
        ghost var p;
        i, j, fits, p := PutLabel(rhn, ls[k], i, j, lb, str);
        if !fits {
          Overflow(str, Shown(ls), p);
          return;
        }
        WireByte(ls, k);
        WireByte(ls, k + 1);
        lb := rhn[i];
        i := i + 1;
        k := k + 1;
      }
      assert ls[..k] == ls;
    }
    str[j] := 0;
    assert str[..j + 1] == str[..j] + [0];
    if str.Length == 1 {
      NoRoom(str[..], Shown(ls));
    }
  }

  lemma NoRoom(b: seq<byte>, text: seq<byte>)
    requires b == [0]
    ensures Truncated(b, text)
  {
    assert CutAt(b, text, 0);
  }

  lemma NoText(ls: seq<Label>)
    ensures ShownLabels(ls[..0]) == [] && Off(ls, 0) == 0
  {
  }

  // ---------- parsestr2rhn and str2rhn ----------

  /** What the parsers have built: the labels ls, whose text has been read up to i. */
  ghost predicate ReadSoFar(t: seq<byte>, i: nat, ls: seq<Label>) {
    && (i <= |t| ==> i == |Lits(ls)| && Labels(t) == Before(ls, Labels(t[i..])))
    && (i > |t| ==> i == |t| + 1 == |Lits(ls)| && Labels(t) == Some(ls))
  }

  function Before(ls: seq<Label>, o: Option<seq<Label>>): Option<seq<Label>> {
    if o.None? then None else Some(ls + o.value)
  }

  lemma NothingRead(t: seq<byte>)
    ensures ReadSoFar(t, 0, [])
  {
    assert t[0..] == t;
    if Labels(t).Some? {
      assert [] + Labels(t).value == Labels(t).value;
    }
  }

  /** One element of the text, from i to j, has been read. */
  lemma ElementRead(t: seq<byte>, i: nat, ls: seq<Label>, j: nat)
    requires ReadSoFar(t, i, ls) && i < j <= |t| && j - i <= 63 && DOT !in t[i..j] && (j < |t| ==> t[j] == DOT)
    ensures var l: Label := t[i..j]; ReadSoFar(t, j + 1, ls + [l])
    ensures var l: Label := t[i..j]; Lits(ls + [l]) == Lits(ls) + [j - i] + t[i..j]
  {
    hide Lits, Labels;
    var l: Label := t[i..j];
    var u := t[i..];
    LitsOne(ls, l);
    if j == |t| {
      assert u == l;
      LabelsStep(l, []);
    } else {
      assert u == l + [DOT] + t[j + 1..];
      LabelsStep(l, t[j + 1..]);
      BeforeOne(ls, l, Labels(t[j + 1..]));
    }
  }

  lemma LitsOne(ls: seq<Label>, l: Label)
    ensures Lits(ls + [l]) == Lits(ls) + [|l|] + l
  {
    var one: seq<Label> := [l];
    LitsConcat(ls, one);
    assert one[1..] == [] && Lits(one[1..]) == [];
    assert Lits(one) == [|l|] + l + [];
    assert Lits(ls) + ([|l|] + l) == Lits(ls) + [|l|] + l;
  }

  lemma BeforeOne(ls: seq<Label>, l: Label, o: Option<seq<Label>>)
    ensures Before(ls, if o.None? then None else Some([l] + o.value)) == Before(ls + [l], o)
  {
    if o.Some? {
      assert ls + ([l] + o.value) == ls + [l] + o.value;
    }
  }

  /** An element that is too long, or empty where it must not be, makes the text unreadable. */
  lemma ElementBad(t: seq<byte>, i: nat, ls: seq<Label>, j: nat)
    requires ReadSoFar(t, i, ls) && i <= j < |t| && DOT !in t[i..j] && t != [DOT]
    requires (t[j] != DOT && j >= (if i + 63 > DNSNAMEBUFSIZE - 2 then DNSNAMEBUFSIZE - 2 else i + 63))
      || (t[j] == DOT && j == i)
    ensures !Readable(t)
  {
    var u := t[i..];
    var n := FirstDot(u);
    assert u[j - i] == t[j];
    forall x | 0 <= x < j - i ensures u[x] != DOT {
      assert u[x] == t[i..j][x] && t[i..j][x] in t[i..j];
    }
    if Labels(u).Some? && n > j - i {
      LabelsLong(u, j - i + 1);
      LitsConcat(ls, Labels(u).value);
    }
  }

  /** A text whose first element is at least n bytes long makes a name longer than that. */
  lemma LabelsLong(u: seq<byte>, n: nat)
    requires Labels(u).Some? && 0 < n <= FirstDot(u)
    ensures |Lits(Labels(u).value)| > n && n <= 63
  {
  }

  function Limit(i: nat): nat {
    if i + 63 > DNSNAMEBUFSIZE - 2 then DNSNAMEBUFSIZE - 2 else i + 63
  }

  /** The inner loop of both parsers: one element is copied. */
  method CopyElement(str: seq<byte>, ghost t: seq<byte>, len: nat, rhn: array<byte>, i: nat)
      returns (j: nat, long: bool)
    requires rhn.Length >= DNSNAMEBUFSIZE && i < DNSNAMEBUFSIZE && i <= |t|
    requires len <= |str| && t == Upto(str[..len])
    modifies rhn
    ensures i <= j <= |t| && DOT !in t[i..j] && rhn[..i] == old(rhn[..i])
    ensures if long then j < |t| && t[j] != DOT && j >= Limit(i) else j < |t| ==> t[j] == DOT
    ensures !long ==> j < DNSNAMEBUFSIZE && j - i <= 63 && rhn[i + 1..j + 1] == t[i..j]
    ensures !long && j > i ==> j + 1 < DNSNAMEBUFSIZE
  {
    hide Upto, Limit;
    var jlim := if i + 63 > DNSNAMEBUFSIZE - 2 then DNSNAMEBUFSIZE - 2 else i + 63;
    TextAt(str, len, i);
    LimitIs(i);
    j := i;
    while j < len && str[j] != 0 && str[j] != DOT
      invariant i <= j <= |t| <= len && (j > i ==> j <= jlim)
      invariant forall k :: i <= k < j ==> t[k] != DOT
      invariant rhn[..i] == old(rhn[..i])
      invariant forall k :: i <= k < j ==> rhn[k + 1] == t[k]
      decreases len - j
    {
      TextAt(str, len, j);
      if j >= jlim {
        assert DOT !in t[i..j];
        return j, true;
      }
      rhn[j + 1] := str[j];
      j := j + 1;
    }
    TextAt(str, len, j);
    assert rhn[i + 1..j + 1] == t[i..j];
    long := false;
  }

  /** A string and its text have the same bytes up to the end of the text. */
  lemma TextAt(str: seq<byte>, len: nat, j: nat)
    requires len <= |str| && j <= |Upto(str[..len])|
    ensures var t := Upto(str[..len]);
      && |t| <= len && (j < |t| <==> j < len && str[j] != 0) && (j < |t| ==> t[j] == str[j])
  {
    assert j < len ==> str[..len][j] == str[j];
  }

  lemma LimitIs(i: nat)
    ensures Limit(i) == if i + 63 > DNSNAMEBUFSIZE - 2 then DNSNAMEBUFSIZE - 2 else i + 63
  {
  }

  /** The element read, with its length byte, extends the name built so far. */
  lemma ElementStored(t: seq<byte>, i: nat, ls: seq<Label>, j: nat, b: seq<byte>)
    requires ReadSoFar(t, i, ls) && i < j <= |t| && j - i <= 63 && DOT !in t[i..j] && (j < |t| ==> t[j] == DOT)
    requires |b| > j && i <= |b| && b[..i] == Lits(ls) && b[i] == j - i && b[i + 1..j + 1] == t[i..j]
    ensures var l: Label := t[i..j]; ReadSoFar(t, j + 1, ls + [l]) && b[..j + 1] == Lits(ls + [l])
  {
    hide Lits, ReadSoFar, Labels;
    ElementRead(t, i, ls, j);
    assert b[..j + 1] == b[..i] + [b[i]] + b[i + 1..j + 1];
  }

  /** All of the text has been read. */
  lemma AllRead(t: seq<byte>, i: nat, ls: seq<Label>)
    requires ReadSoFar(t, i, ls) && i >= |t|
    ensures Labels(t) == Some(ls) && i == |Lits(ls)| && (i == 0 <==> t == [])
  {
    if i == |t| {
      assert t[i..] == [];
      assert ls + [] == ls;
    }
  }

  /** The wire form so far is in the buffer. */
  ghost predicate Building(t: seq<byte>, i: nat, ls: seq<Label>, b: seq<byte>) {
    i <= |b| && i < DNSNAMEBUFSIZE && ReadSoFar(t, i, ls) && b[..i] == Lits(ls)
  }

  /** One turn of the loop of both parsers: an element and its length byte. */
  method Element(str: seq<byte>, ghost t: seq<byte>, len: nat, rhn: array<byte>, i: nat, ghost ls: seq<Label>)
      returns (j: nat, long: bool, ghost ls': seq<Label>)
    requires rhn.Length >= DNSNAMEBUFSIZE && i <= |t| && Building(t, i, ls, rhn[..]) && t != [DOT]
    requires len <= |str| && t == Upto(str[..len])
    modifies rhn
    ensures i <= j <= |t| && (j == |t| <==> !(j < len && str[j] != 0))
    ensures long || (j == i < |t|) ==> !Readable(t)
    ensures !long && j > i ==> Building(t, j + 1, ls', rhn[..]) && t[j - 1] != DOT && (j < |t| ==> t[j] == DOT)
    ensures !long && j == i ==> Building(t, i, ls', rhn[..])
  {
    hide Readable, Upto, Labels, Lits, ReadSoFar;
    ls' := ls;
    j, long := CopyElement(str, t, len, rhn, i);
    TextAt(str, len, j);
    assert rhn[..][..i] == rhn[..i];
    if !long && j > i {
      rhn[i] := j - i;
      assert rhn[..][..i] == rhn[..i] && rhn[..][i + 1..j + 1] == rhn[i + 1..j + 1];
      ElementStored(t, i, ls, j, rhn[..]);
      ls' := ls + [t[i..j]];
      assert t[i..j][j - i - 1] == t[j - 1];
    } else if j < |t| {
      ElementBad(t, i, ls, j);
    }
  }

  /** rhn[i]=0: the name is complete. */
  method Terminate(rhn: array<byte>, i: nat, ghost t: seq<byte>, ghost ls: seq<Label>)
    requires i < rhn.Length && Building(t, i, ls, rhn[..]) && i >= |t| && t != [DOT]
    modifies rhn
    ensures i != 0 <==> t != []
    ensures t != [] ==>
      Readable(t) && var w := Encode(NameOf(t)); |w| <= DNSNAMEBUFSIZE && |w| <= rhn.Length && rhn[..|w|] == w
  {
    AllRead(t, i, ls);
    hide Lits, Labels, ReadSoFar;
    assert rhn[..][..i] == rhn[..i];
    rhn[i] := 0;
    assert rhn[..i + 1] == rhn[..i] + [0];
  }

  lemma StartsBuilding(t: seq<byte>, b: seq<byte>)
    ensures Building(t, 0, [], b)
  {
    NothingRead(t);
  }

  /** The special case of the root domain. */
  method StoreRoot(rhn: array<byte>)
    requires rhn.Length >= DNSNAMEBUFSIZE
    modifies rhn
    ensures Readable([DOT]) && var w := Encode(NameOf([DOT])); |w| <= DNSNAMEBUFSIZE && rhn[..|w|] == w
  {
    rhn[0] := 0;
    assert rhn[..1] == Encode([]);
  }

  /** parsestr2rhn: it reads exactly the readable texts, and stores the name in wire form. */
  method ParseStr2Rhn(str: seq<byte>, len: nat, rhn: array<byte>) returns (ok: bool)
    requires len <= |str| && rhn.Length >= DNSNAMEBUFSIZE
    modifies rhn
    ensures ok == Readable(Upto(str[..len]))
    ensures ok ==>
      var w := Encode(NameOf(Upto(str[..len]))); |w| <= DNSNAMEBUFSIZE && rhn[..|w|] == w
  {
    hide Readable, Upto, Building, Encode, NameOf;
    ghost var t := Upto(str[..len]);
    RootText(str, len);
    if len > 0 && str[0] == DOT && (len == 1 || str[1] == 0) {
      StoreRoot(rhn);
      return true;
    }
    StartsBuilding(t, rhn[..]);
    var i: nat := 0;
    ghost var ls: seq<Label> := [];
    while true
      invariant i <= |t| && Building(t, i, ls, rhn[..])
      decreases |t| - i
    {
      var j, long;
      j, long, ls := Element(str, t, len, rhn, i, ls);
      if long {
        return false;
      }
      if j <= i {
        if j < len && str[j] != 0 {
          return false;
        }
        break;
      }
      i := j + 1;
      if !(j < len && str[j] != 0) {
        break;
      }
    }
    SmallEnough(t, i, ls, rhn[..]);
    Terminate(rhn, i, t, ls);
    NotEmpty(t);
    ok := i != 0;
  }

  lemma SmallEnough(t: seq<byte>, i: nat, ls: seq<Label>, b: seq<byte>)
    requires Building(t, i, ls, b)
    ensures i < DNSNAMEBUFSIZE
  {
  }

  lemma NotEmpty(t: seq<byte>)
    ensures Readable(t) ==> t != []
  {
  }

  lemma RootText(str: seq<byte>, len: nat)
    requires len <= |str|
    ensures Upto(str[..len]) == [DOT] <==> len > 0 && str[0] == DOT && (len == 1 || str[1] == 0)
  {
    var s := str[..len];
    var t := Upto(s);
    if len > 0 && str[0] == DOT {
      assert s[0] == DOT && t == [DOT] + Upto(s[1..]);
      assert len > 1 ==> s[1..][0] == str[1];
    }
  }

  /** str2rhn: the same, but the text must end in a dot. */
  method Str2Rhn(str: seq<byte>, rhn: array<byte>) returns (ok: bool)
    requires 0 in str && rhn.Length >= DNSNAMEBUFSIZE
    modifies rhn
    ensures var t := Upto(str); ok == (t != [] && t[|t| - 1] == DOT && Readable(t))
    ensures ok ==> var w := Encode(NameOf(Upto(str))); |w| <= DNSNAMEBUFSIZE && rhn[..|w|] == w
  {
    hide Readable, Upto, Building, Encode, NameOf;
    var len := |str|;
    assert str[..len] == str;
    ghost var t := Upto(str);
    RootText(str, len);
    ZeroInside(str);
    if str[0] == DOT && str[1] == 0 {
      StoreRoot(rhn);
      return true;
    }
    StartsBuilding(t, rhn[..]);
    var i: nat, j: nat := 0, 0;
    ghost var ls: seq<Label> := [];
    while true
      invariant i <= |t| && Building(t, i, ls, rhn[..])
      invariant i > 0 ==> t[i - 1] == DOT
      decreases |t| - i
    {
      SmallEnough(t, i, ls, rhn[..]);
      var long;
      ghost var ls';
      j, long, ls' := Element(str, t, len, rhn, i, ls);
      if long {
        return false;
      }
      if str[j] == 0 {
        if j == i {
          ls := ls';
        }
        break;
      }
      if j <= i {
        return false;
      }
      i, ls := j + 1, ls';
    }
    if j > i || i == 0 {
      rhn[i] := 0;
      return false;
    }
    Terminate(rhn, i, t, ls);
    ok := true;
  }

  lemma ZeroInside(str: seq<byte>)
    requires 0 in str
    ensures |Upto(str)| < |str| && (str[0] == DOT ==> |str| > 1)
  {
  }

  // ---------- round trip ----------

  /** A name without special characters that fits a name buffer is printed in full by rhn2str
      into a buffer of that size, and read back as it was. */
  lemma TextRoundTrip(ls: seq<Label>, rest: seq<byte>)
    requires Plain(ls) && |Encode(ls)| <= DNSNAMEBUFSIZE
    ensures Shown(ls) == Text(ls) && |Shown(ls)| < DNSNAMEBUFSIZE
    ensures var s := Shown(ls) + [0] + rest;
      Upto(s) == Text(ls) && Readable(Text(ls)) && NameOf(Text(ls)) == ls && Text(ls)[|Text(ls)| - 1] == DOT
  {
    var t := Text(ls);
    PlainShown(ls);
    NoZero(ls);
    UptoIs(t, rest);
    if ls != [] {
      JoinEnds(ls);
      forall i | 0 <= i < |ls| ensures DOT !in ls[i] {
        assert forall k :: 0 <= k < |ls[i]| ==> !Special(ls[i][k]);
      }
      LabelsMeans(t, ls);
      assert |t| == |Lits(ls)| >= 2;
    }
  }

  lemma {:induction false} NoZero(ls: seq<Label>)
    requires Plain(ls)
    ensures 0 !in Join(ls)
  {
    if ls != [] {
      assert forall i :: 0 <= i < |ls[1..]| ==> ls[1..][i] == ls[i + 1];
      NoZero(ls[1..]);
      assert forall k :: 0 <= k < |ls[0]| ==> IsGraph(ls[0][k]);
    }
  }

  lemma {:induction false} UptoIs(t: seq<byte>, rest: seq<byte>)
    requires 0 !in t
    ensures Upto(t + [0] + rest) == t
  {
    if t == [] {
      assert t + [0] + rest == [0] + rest;
    } else {
      assert (t + [0] + rest)[1..] == t[1..] + [0] + rest;
      assert forall x :: x in t[1..] ==> x in t;
      UptoIs(t[1..], rest);
    }
  }
}
