/** The age list of cache.c: a doubly linked list of all evictable items in ascending order of
    time stamp, built either by sorted insertion or by appending and a final merge sort. */
module AgeList {
  import opened Powers
  import opened StableOrder

  /** rr_lent_t. The time stamp stands for get_rrlent_ts, which no operation here changes. */
  class RrLent {
    const ts: int
    var next: RrLent?
    var prev: RrLent?

    constructor (ts: int)
      ensures this.ts == ts && next == null && prev == null
    {
      this.ts, next, prev := ts, null, null;
    }
  }

  function Ts(e: RrLent): int {
    e.ts
  }

  /** A list segment: from p along these nodes to `end`. */
  ghost predicate Seg(p: RrLent?, s: seq<RrLent>, end: RrLent?)
    reads s`next
  {
    if s == [] then p == end else p == s[0] && Seg(s[0].next, s[1..], end)
  }

  /** A null-terminated chain of these nodes. */
  ghost predicate Chain(p: RrLent?, s: seq<RrLent>)
    reads s`next
  {
    Seg(p, s, null)
  }

  /** No node occurs twice. */
  ghost predicate NoDup(m: multiset<RrLent>) {
    forall x :: x in m ==> m[x] == 1
  }

  lemma {:induction false} SegJoin(p: RrLent?, s: seq<RrLent>, mid: RrLent?, t: seq<RrLent>, end: RrLent?)
    requires Seg(p, s, mid) && Seg(mid, t, end)
    ensures Seg(p, s + t, end)
  {
    if s == [] {
      assert s + t == t;
    } else {
      SegJoin(s[0].next, s[1..], mid, t, end);
      assert (s + t)[1..] == s[1..] + t;
    }
  }

  lemma SegSnoc(p: RrLent?, s: seq<RrLent>, last: RrLent, end: RrLent?)
    requires Seg(p, s, last) && last.next == end
    ensures Seg(p, s + [last], end)
  {
    assert [last][1..] == [];
    SegJoin(p, s, last, [last], end);
  }

  /** What listmerge has built so far: all its nodes but the last are linked up. */
  ghost predicate Built(l: RrLent?, last: RrLent?, init: seq<RrLent>)
    reads init`next
  {
    if last == null then init == [] else Seg(l, init, last)
  }

  function Done(init: seq<RrLent>, last: RrLent?): seq<RrLent> {
    if last == null then init else init + [last]
  }

  /** *s= p, where s is &l or the address of the last node's next field. */
  method Attach(l: RrLent?, last: RrLent?, p: RrLent, ghost init: seq<RrLent>) returns (l': RrLent?)
    requires Built(l, last, init) && last !in init
    modifies (if last != null then {last} else {})`next
    ensures Seg(l', Done(init, last), p)
  {
    if last == null {
      l' := p;
    } else {
      l' := l;
      last.next := p;
      SegSnoc(l, init, last, p);
    }
  }

  /** Nodes of parts that together hold no node twice are apart. */
  lemma Apart(done: seq<RrLent>, r: seq<RrLent>, other: seq<RrLent>, all: multiset<RrLent>)
    requires NoDup(all) && multiset(done) + multiset(r) + multiset(other) == all && r != []
    ensures r[0] in all && r[0] !in done && r[0] !in other && r[0] !in r[1..]
    ensures multiset(done + [r[0]]) + multiset(r[1..]) + multiset(other) == all
    ensures forall x :: x in done ==> x in all && x !in r && x !in other
  {
    assert r == [r[0]] + r[1..];
    assert multiset(r) == multiset{r[0]} + multiset(r[1..]);
    assert all[r[0]] == 1;
  }

  lemma LastApart(init: seq<RrLent>, last: RrLent?, all: multiset<RrLent>)
    requires NoDup(all) && multiset(Done(init, last)) <= all && last != null
    ensures last !in init && last in all
  {
    assert multiset(init + [last])[last] == multiset(init)[last] + 1;
    assert all[last] <= 1;
  }

  lemma ChainNonempty(p: RrLent?, s: seq<RrLent>)
    requires Chain(p, s)
    ensures p == null <==> s == []
    ensures s != [] ==> p == s[0]
  {
  }

  lemma MergeStep(done: seq<RrLent>, a: seq<RrLent>, b: seq<RrLent>)
    requires b != []
    ensures a != [] && a[0].ts <= b[0].ts ==> done + Merge(Ts, a, b) == done + [a[0]] + Merge(Ts, a[1..], b)
    ensures a != [] && a[0].ts > b[0].ts ==> done + Merge(Ts, a, b) == done + [b[0]] + Merge(Ts, a, b[1..])
    ensures Merge(Ts, [], b) == b && Merge(Ts, a, []) == a
  {
  }

  /** Where listmerge stands: init and last are linked up, rp and rq are left, and all of them
      together are the nodes it started with. */
  ghost predicate Merging(l: RrLent?, last: RrLent?, init: seq<RrLent>, p: RrLent?, rp: seq<RrLent>,
      q: RrLent?, rq: seq<RrLent>, all: multiset<RrLent>)
    reads init`next, rp`next, rq`next
  {
    && NoDup(all) && multiset(Done(init, last)) + multiset(rp) + multiset(rq) == all
    && Built(l, last, init) && Chain(p, rp) && Chain(q, rq)
  }

  /** *s= q for the list that is left when the other is used up. */
  method Finish(l: RrLent?, last: RrLent, q: RrLent, ghost init: seq<RrLent>, ghost rest: seq<RrLent>)
    requires Built(l, last, init) && last !in init && last !in rest && Chain(q, rest)
    modifies last`next
    ensures Chain(l, init + [last] + rest)
  {
    last.next := q;
    SegSnoc(l, init, last, q);
    SegJoin(l, init + [last], q, rest, null);
  }

  /** One turn of the loop of listmerge, for whichever list gives up its first node. */
  method Turn(l: RrLent?, last: RrLent?, p: RrLent, q: RrLent,
      ghost init: seq<RrLent>, ghost rp: seq<RrLent>, ghost rq: seq<RrLent>, ghost all: multiset<RrLent>)
      returns (l': RrLent?, p': RrLent?)
    requires Merging(l, last, init, p, rp, q, rq, all) && rp != [] && rq != []
    modifies (set x | x in all)`next
    ensures p' == null <==> rp[1..] == []
    ensures p' == null ==> Chain(l', Done(init, last) + [p] + rq)
    ensures p' != null ==> Merging(l', p, Done(init, last), p', rp[1..], q, rq, all)
    ensures rp[0] == p
  {
    hide NoDup, Seg, Merging, Done;
    NextOut(l, last, init, p, rp, q, rq, all);
    l' := Attach(l, last, p, init);
    p' := p.next;
    assert Chain(p', rp[1..]) && Chain(q, rq);
    if p' == null {
      Finish(l', p, q, Done(init, last), rq);
    } else {
      MergingOn(l', p, Done(init, last), p', rp[1..], q, rq, all);
    }
  }

  /** The first node of rp is next in the merged list: it is none of the others, nor is the last
      one. */
  lemma NextOut(l: RrLent?, last: RrLent?, init: seq<RrLent>, p: RrLent?, rp: seq<RrLent>,
      q: RrLent?, rq: seq<RrLent>, all: multiset<RrLent>)
    requires Merging(l, last, init, p, rp, q, rq, all) && rp != [] && rq != []
    ensures Built(l, last, init) && Chain(q, rq) && NoDup(all)
    ensures last != null ==> last in all && last !in init && last !in rp && last !in rp[1..] && last !in rq
    ensures p == rp[0] && p in all && p !in Done(init, last) && p !in rq && p !in rp[1..]
    ensures multiset(Done(init, last) + [p]) + multiset(rp[1..]) + multiset(rq) == all
    ensures Chain(p.next, rp[1..]) && (p.next == null <==> rp[1..] == [])
  {
    Apart(Done(init, last), rp, rq, all);
    if last != null {
      LastApart(init, last, all);
      assert last in Done(init, last);
    }
    ChainNonempty(p.next, rp[1..]);
  }

  lemma MergingOn(l: RrLent?, last: RrLent, init: seq<RrLent>, p: RrLent?, rp: seq<RrLent>,
      q: RrLent?, rq: seq<RrLent>, all: multiset<RrLent>)
    requires NoDup(all) && multiset(init + [last]) + multiset(rp) + multiset(rq) == all
    requires Seg(l, init, last) && Chain(p, rp) && Chain(q, rq)
    ensures Merging(l, last, init, p, rp, q, rq, all)
  {
  }

  lemma MergeEmpty(a: seq<RrLent>, b: seq<RrLent>)
    ensures a == [] ==> Merge(Ts, a, b) == b
    ensures b == [] ==> Merge(Ts, a, b) == a
  {
  }

  lemma MergingSwap(l: RrLent?, last: RrLent?, init: seq<RrLent>, p: RrLent?, rp: seq<RrLent>,
      q: RrLent?, rq: seq<RrLent>, all: multiset<RrLent>)
    requires Merging(l, last, init, p, rp, q, rq, all)
    ensures Merging(l, last, init, q, rq, p, rp, all)
  {
  }

  lemma MergingStarts(p: RrLent?, rp: seq<RrLent>, q: RrLent?, rq: seq<RrLent>, all: multiset<RrLent>)
    requires NoDup(all) && multiset(rp) + multiset(rq) == all && Chain(p, rp) && Chain(q, rq)
    ensures Merging(null, null, [], p, rp, q, rq, all)
  {
  }

  /** listmerge: merge two chains by relinking their nodes. */
  method ListMerge(p0: RrLent?, q0: RrLent?, ghost sp: seq<RrLent>, ghost sq: seq<RrLent>) returns (l: RrLent?)
    requires Chain(p0, sp) && Chain(q0, sq) && NoDup(multiset(sp) + multiset(sq))
    modifies (set x | x in sp || x in sq)`next
    ensures Chain(l, Merge(Ts, sp, sq))
  {
    hide Merge, Seg, NoDup, Merging, Chain, Built;
    ChainNonempty(p0, sp);
    ChainNonempty(q0, sq);
    MergeEmpty(sp, sq);
    if p0 == null {
      return q0;
    }
    if q0 == null {
      return p0;
    }
    ghost var all := multiset(sp) + multiset(sq);
    assert [] + Merge(Ts, sp, sq) == Merge(Ts, sp, sq);
    MergingStarts(p0, sp, q0, sq, all);
    var p: RrLent, q: RrLent := p0, q0;
    var last: RrLent? := null;
    l := null;
    ghost var rp, rq := sp, sq;
    ghost var init: seq<RrLent> := [];
    while true
      invariant rp != [] && rq != [] && Merging(l, last, init, p, rp, q, rq, all)
      invariant Merge(Ts, sp, sq) == Done(init, last) + Merge(Ts, rp, rq)
      decreases |rp| + |rq|
    {
      ChainHeads(l, last, init, p, rp, q, rq, all);
      MergeStep(Done(init, last), rp, rq);
      if p.ts <= q.ts {
        var rest;
        l, rest := Turn(l, last, p, q, init, rp, rq, all);
        init, last, rp := Done(init, last), p, rp[1..];
        if rest == null {
          MergeStep(Done(init, last), [], rq);
          break;
        }
        p := rest;
      } else {
        MergingSwap(l, last, init, p, rp, q, rq, all);
        var rest;
        l, rest := Turn(l, last, q, p, init, rq, rp, all);
        init, last, rq := Done(init, last), q, rq[1..];
        if rest == null {
          break;
        }
        q := rest;
        MergingSwap(l, last, init, q, rq, p, rp, all);
      }
    }
  }
  lemma ChainHeads(l: RrLent?, last: RrLent?, init: seq<RrLent>, p: RrLent?, rp: seq<RrLent>,
      q: RrLent?, rq: seq<RrLent>, all: multiset<RrLent>)
    requires Merging(l, last, init, p, rp, q, rq, all) && rp != [] && rq != []
    ensures p == rp[0] && q == rq[0]
  {
  }

  // ---------- sort_rrl ----------

  const NTMPSORT := 32

  /** The nodes held by the slots: those of higher slots came first. */
  function Gather(runs: seq<seq<RrLent>>): seq<RrLent> {
    if runs == [] then [] else Gather(runs[1..]) + runs[0]
  }

  lemma {:induction false} InGather(runs: seq<seq<RrLent>>, j: nat)
    requires j < |runs|
    ensures multiset(runs[j]) <= multiset(Gather(runs))
  {
    if j > 0 {
      InGather(runs[1..], j - 1);
    }
  }

  /** Every slot is empty or holds a sorted run of exactly 2^i nodes; these are slots base and
      up. */
  ghost predicate PowerRuns(runs: seq<seq<RrLent>>, base: nat) {
    forall j :: 0 <= j < |runs| ==> Sorted(Ts, runs[j]) && (runs[j] == [] || |runs[j]| == Pow2(base + j))
  }

  function NodesOf(runs: seq<seq<RrLent>>): set<RrLent> {
    set j, x | 0 <= j < |runs| && x in runs[j] :: x
  }

  ghost predicate Slots(slots: seq<RrLent?>, runs: seq<seq<RrLent>>)
    reads NodesOf(runs)`next
  {
    |slots| == |runs| && forall j :: 0 <= j < |runs| ==>
      (assert forall x :: x in runs[j] ==> x in NodesOf(runs); Chain(slots[j], runs[j]))
  }

  /** The nodes in the slots, in carry and still unsorted in rem are all there are. */
  ghost predicate Parts(runs: seq<seq<RrLent>>, c: seq<RrLent>, rest: seq<RrLent>, all: multiset<RrLent>) {
    NoDup(all) && multiset(Gather(runs)) + multiset(c) + multiset(rest) == all
  }

  /** In the same order among equals as in the list at the start. */
  ghost predicate InOrder(runs: seq<seq<RrLent>>, c: seq<RrLent>, rest: seq<RrLent>, was: seq<RrLent>) {
    StableOf(Ts, was, Gather(runs) + c + rest)
  }

  ghost predicate Sorting(slots: seq<RrLent?>, runs: seq<seq<RrLent>>, carry: RrLent?, c: seq<RrLent>,
      rem: RrLent?, rest: seq<RrLent>, was: seq<RrLent>)
    reads NodesOf(runs)`next, c`next, rest`next
  {
    && Parts(runs, c, rest, multiset(was)) && InOrder(runs, c, rest, was)
    && Slots(slots, runs) && Chain(carry, c) && Chain(rem, rest)
  }

  lemma SlotsApart(runs: seq<seq<RrLent>>, c: seq<RrLent>, rest: seq<RrLent>, all: multiset<RrLent>, j: nat)
    requires Parts(runs, c, rest, all) && 1 <= j < |runs|
    ensures forall x :: x in runs[j] ==> x !in runs[0] && x !in c && x !in rest
  {
    InGather(runs[1..], j - 1);
    forall x | x in runs[j] ensures x !in runs[0] && x !in c && x !in rest {
      assert multiset(runs[j])[x] > 0;
      assert multiset(Gather(runs[1..]))[x] > 0;
      assert all[x] == multiset(Gather(runs[1..]))[x] + multiset(runs[0])[x] + multiset(c)[x] + multiset(rest)[x];
    }
  }

  lemma PartsMerged(runs: seq<seq<RrLent>>, c: seq<RrLent>, rest: seq<RrLent>, was: seq<RrLent>)
    requires Parts(runs, c, rest, multiset(was)) && InOrder(runs, c, rest, was)
    requires runs != [] && Sorted(Ts, runs[0])
    ensures Parts(runs[1..], Merge(Ts, runs[0], c), rest, multiset(was))
    ensures InOrder(runs[1..], Merge(Ts, runs[0], c), rest, was)
  {
    var m := Merge(Ts, runs[0], c);
    MergeIn(Ts, runs[0], c);
    var g := Gather(runs[1..]);
    assert Gather(runs) == g + runs[0];
    hide WithKey, Merge, Gather, Sorted, NoDup;
    forall k ensures WithKey(Ts, g + m + rest, k) == WithKey(Ts, was, k) {
      MergeStableWithin(Ts, g, runs[0], c, rest, k);
      assert WithKey(Ts, Gather(runs) + c + rest, k) == WithKey(Ts, was, k);
    }
  }

  /** carry=listmerge(*counter,carry), seen from the slots at and above counter. */
  method MergeSlot(slot: RrLent?, carry: RrLent?, rem: RrLent?, ghost slots: seq<RrLent?>,
      ghost runs: seq<seq<RrLent>>, ghost c: seq<RrLent>, ghost rest: seq<RrLent>, ghost was: seq<RrLent>)
      returns (l: RrLent?)
    requires Sorting(slots, runs, carry, c, rem, rest, was) && runs != [] && slot == slots[0]
    requires Sorted(Ts, runs[0])
    modifies (set x | x in was)`next
    ensures Sorting(slots[1..], runs[1..], l, Merge(Ts, runs[0], c), rem, rest, was)
  {
    HeadApart(runs, c, rest, was);
    PartsMerged(runs, c, rest, was);
    hide Merge, Sorted, Parts, InOrder, NoDup, Seg;
    l := ListMerge(slot, carry, runs[0], c);
    assert Chain(rem, rest);
    forall j | 1 <= j < |runs| ensures Chain(slots[j], runs[j]) {
      assert old(Chain(slots[j], runs[j]));
    }
  }

  lemma HeadApart(runs: seq<seq<RrLent>>, c: seq<RrLent>, rest: seq<RrLent>, was: seq<RrLent>)
    requires Parts(runs, c, rest, multiset(was)) && runs != []
    ensures NoDup(multiset(runs[0]) + multiset(c))
    ensures forall x :: x in runs[0] ==> x in was && x !in rest
    ensures forall x :: x in c ==> x in was && x !in rest
    ensures forall j, x :: 1 <= j < |runs| && x in runs[j] ==> x !in runs[0] && x !in c
  {
    var all := multiset(was);
    forall x | x in runs[0] || x in c
      ensures x in was && x !in rest && (multiset(runs[0]) + multiset(c))[x] == 1
    {
      assert (multiset(runs[0]) + multiset(c))[x] > 0;
      assert all[x] == multiset(Gather(runs[1..]))[x] + multiset(runs[0])[x] + multiset(c)[x] + multiset(rest)[x];
      assert x in all;
    }
    forall j | 1 <= j < |runs| ensures forall x :: x in runs[j] ==> x !in runs[0] && x !in c {
      SlotsApart(runs, c, rest, all, j);
    }
  }

  /** carry=rem; rem=rem->next; carry->next=NULL. */
  method Detach(rem: RrLent, ghost slots: seq<RrLent?>, ghost runs: seq<seq<RrLent>>, ghost rest: seq<RrLent>,
      ghost was: seq<RrLent>) returns (rem': RrLent?)
    requires Sorting(slots, runs, null, [], rem, rest, was)
    modifies (set x | x in was)`next
    ensures rest != []
    ensures Sorting(slots, runs, rem, [rest[0]], rem', rest[1..], was)
  {
    RestApart(runs, rest, was);
    rem' := rem.next;
    assert Chain(rem', rest[1..]);
    hide Seg, NoDup, Gather, Sorted;
    rem.next := null;
    assert Chain(rem', rest[1..]);
    SingleChain(rem);
    assert Gather(runs) + [] + rest == Gather(runs) + [rest[0]] + rest[1..];
    forall j | 0 <= j < |runs| ensures Chain(slots[j], runs[j]) {
      assert old(Chain(slots[j], runs[j]));
    }
  }

  lemma SingleChain(x: RrLent)
    requires x.next == null
    ensures Chain(x, [x])
  {
    assert [x][1..] == [];
  }

  lemma RestApart(runs: seq<seq<RrLent>>, rest: seq<RrLent>, was: seq<RrLent>)
    requires Parts(runs, [], rest, multiset(was)) && rest != []
    ensures rest[0] in was && rest[0] !in rest[1..]
    ensures forall j :: 0 <= j < |runs| ==> rest[0] !in runs[j]
    ensures multiset(Gather(runs)) + multiset([rest[0]]) + multiset(rest[1..]) == multiset(was)
  {
    hide Gather, NoDup;
    Apart(Gather(runs), rest, [], multiset(was));
    forall j | 0 <= j < |runs| ensures rest[0] !in runs[j] {
      InGather(runs, j);
      assert multiset(runs[j])[rest[0]] == 0;
    }
  }

  /** *counter=carry: the slot, empty or new, takes over the carry. */
  lemma Placed(slots: seq<RrLent?>, runs: seq<seq<RrLent>>, carry: RrLent, c: seq<RrLent>, rem: RrLent?,
      rest: seq<RrLent>, was: seq<RrLent>)
    requires Sorting(slots, runs, carry, c, rem, rest, was)
    requires runs != [] ==> slots[0] == null
    ensures var n := if runs == [] then 0 else 1;
            && (runs != [] ==> runs[0] == [])
            && Sorting([carry] + slots[n..], [c] + runs[n..], null, [], rem, rest, was)
  {
    hide Seg, NoDup, WithKey, Merge, Sorted, Gather, StableOf;
    var n := if runs == [] then 0 else 1;
    var runs' := [c] + runs[n..];
    NoChain();
    if runs != [] {
      assert Chain(slots[0], runs[0]);
      ChainNonempty(slots[0], runs[0]);
    }
    GatherPlaced(runs, c);
    assert Gather(runs') + [] + rest == Gather(runs) + c + rest;
    assert multiset(Gather(runs) + c) == multiset(Gather(runs)) + multiset(c);
    var slots' := [carry] + slots[n..];
    forall j | 0 <= j < |runs'| ensures Chain(slots'[j], runs'[j]) {
      if j > 0 {
        assert Chain(slots[n..][j - 1], runs[n..][j - 1]);
      }
    }
  }

  lemma NoChain()
    ensures Chain(null, [])
  {
  }

  lemma GatherPlaced(runs: seq<seq<RrLent>>, c: seq<RrLent>)
    requires runs != [] ==> runs[0] == []
    ensures Gather([c] + runs[if runs == [] then 0 else 1..]) == Gather(runs) + c
  {
    var n := if runs == [] then 0 else 1;
    assert ([c] + runs[n..])[1..] == runs[n..];
    if runs != [] {
      assert Gather(runs) == Gather(runs[1..]) + [] == Gather(runs[1..]);
    }
  }

  function Empties(n: nat): seq<seq<RrLent>> {
    seq(n, _ => [])
  }

  function Nulls(n: nat): seq<RrLent?> {
    seq(n, _ => null)
  }

  lemma {:induction false} GatherEmpties(n: nat, runs: seq<seq<RrLent>>)
    ensures Gather(Empties(n) + runs) == Gather(runs)
  {
    if n == 0 {
      assert Empties(0) + runs == runs;
    } else {
      assert (Empties(n) + runs)[1..] == Empties(n - 1) + runs;
      GatherEmpties(n - 1, runs);
    }
  }

  /** The slots below, all empty, belong to the picture too. */
  lemma WithEmpties(n: nat, slots: seq<RrLent?>, runs: seq<seq<RrLent>>, rem: RrLent?,
      rest: seq<RrLent>, was: seq<RrLent>)
    requires Sorting(slots, runs, null, [], rem, rest, was) && PowerRuns(runs, n)
    ensures Sorting(Nulls(n) + slots, Empties(n) + runs, null, [], rem, rest, was)
    ensures PowerRuns(Empties(n) + runs, 0)
  {
    GatherEmpties(n, runs);
    hide Gather, Seg, NoDup, WithKey, Merge, Pow2;
    forall j | 0 <= j < n + |runs| ensures Chain((Nulls(n) + slots)[j], (Empties(n) + runs)[j]) {
      if j >= n {
        assert Chain(slots[j - n], runs[j - n]);
      } else {
        EmptyChain();
      }
    }
    forall j | 0 <= j < n + |runs|
      ensures Sorted(Ts, (Empties(n) + runs)[j])
      ensures (Empties(n) + runs)[j] == [] || |(Empties(n) + runs)[j]| == Pow2(0 + j)
    {
      if j >= n {
        assert (Empties(n) + runs)[j] == runs[j - n];
      }
    }
  }

  lemma EmptyChain()
    ensures Chain(null, [])
  {
  }

  /** Two runs of 2^i nodes make one of 2^(i + 1). */
  lemma MergedRun(runs: seq<seq<RrLent>>, i: nat, c: seq<RrLent>)
    requires runs != [] && runs[0] != [] && PowerRuns(runs, i) && Sorted(Ts, c) && |c| == Pow2(i)
    ensures Sorted(Ts, Merge(Ts, runs[0], c)) && |Merge(Ts, runs[0], c)| == Pow2(i + 1)
    ensures PowerRuns(runs[1..], i + 1)
  {
    MergeSorted(Ts, runs[0], c);
    MergeIn(Ts, runs[0], c);
    assert |multiset(Merge(Ts, runs[0], c))| == |multiset(runs[0])| + |multiset(c)|;
    hide Merge, Sorted;
    forall j | 0 <= j < |runs[1..]|
      ensures Sorted(Ts, runs[1..][j])
      ensures runs[1..][j] == [] || |runs[1..][j]| == Pow2(i + 1 + j)
    {
      assert runs[1..][j] == runs[1 + j];
    }
  }

  lemma CarrySmall(runs: seq<seq<RrLent>>, c: seq<RrLent>, rest: seq<RrLent>, was: seq<RrLent>, i: nat)
    requires Parts(runs, c, rest, multiset(was)) && |c| == Pow2(i) && |was| < Pow2(NTMPSORT)
    ensures i < NTMPSORT
  {
    assert |multiset(was)| == |multiset(Gather(runs))| + |multiset(c)| + |multiset(rest)|;
    if NTMPSORT <= i {
      Pow2Grows(NTMPSORT, i);
    }
  }

  /** The inner loop of sort_rrl: carry is merged with the runs of the occupied slots from 0 up
      and ends in the first free one. */
  method Settle(tmp: array<RrLent?>, fill: nat, carry0: RrLent, rem: RrLent?, ghost runs: seq<seq<RrLent>>,
      ghost x: RrLent, ghost rest: seq<RrLent>, ghost was: seq<RrLent>)
      returns (fill': nat, ghost runs': seq<seq<RrLent>>)
    requires tmp.Length == NTMPSORT && fill <= NTMPSORT && |was| < Pow2(NTMPSORT) && PowerRuns(runs, 0)
    requires Sorting(tmp[..fill], runs, carry0, [x], rem, rest, was)
    modifies tmp, (set x | x in was)`next
    ensures 0 < fill' <= NTMPSORT && PowerRuns(runs', 0)
    ensures Sorting(tmp[..fill'], runs', null, [], rem, rest, was)
  {
    hide Gather, Seg, NoDup, WithKey, Merge, PowerRuns, Sorting, Sorted, Pow2;
    var carry: RrLent? := carry0;
    var counter: nat := 0;
    Pow2Zero(x);
    ghost var slots, up := tmp[..fill], runs;
    ghost var c := [x];
    while counter != fill && tmp[counter] != null
      invariant counter <= fill <= NTMPSORT && tmp[counter..fill] == slots && |c| == Pow2(counter)
      invariant Sorting(slots, up, carry, c, rem, rest, was) && PowerRuns(up, counter) && Sorted(Ts, c)
      invariant forall j :: 0 <= j < counter ==> tmp[j] == null
    {
      HeadRun(slots, up, carry, c, rem, rest, was, counter);
      MergedRun(up, counter, c);
      carry := MergeSlot(tmp[counter], carry, rem, slots, up, c, rest, was);
      tmp[counter] := null;
      c, slots, up := Merge(Ts, up[0], c), slots[1..], up[1..];
      counter := counter + 1;
    }
    CarryThere(slots, up, carry, c, rem, rest, was, counter);
    tmp[counter] := carry;
    ghost var n := if up == [] then 0 else 1;
    fill' := if counter == fill then fill + 1 else fill;
    Placed(slots, up, carry, c, rem, rest, was);
    PowersPlaced(up, counter, c);
    runs' := Empties(counter) + ([c] + up[n..]);
    WithEmpties(counter, [carry] + slots[n..], [c] + up[n..], rem, rest, was);
    assert tmp[..fill'] == Nulls(counter) + ([carry] + slots[n..]);
  }

  lemma Pow2Zero(x: RrLent)
    ensures Pow2(0) == 1 && Sorted(Ts, [x])
  {
  }

  lemma HeadRun(slots: seq<RrLent?>, runs: seq<seq<RrLent>>, carry: RrLent?, c: seq<RrLent>, rem: RrLent?,
      rest: seq<RrLent>, was: seq<RrLent>, i: nat)
    requires Sorting(slots, runs, carry, c, rem, rest, was) && slots != [] && slots[0] != null && PowerRuns(runs, i)
    ensures runs != [] && runs[0] != [] && Sorted(Ts, runs[0])
  {
    assert Chain(slots[0], runs[0]);
  }

  lemma CarryThere(slots: seq<RrLent?>, runs: seq<seq<RrLent>>, carry: RrLent?, c: seq<RrLent>, rem: RrLent?,
      rest: seq<RrLent>, was: seq<RrLent>, i: nat)
    requires Sorting(slots, runs, carry, c, rem, rest, was) && |c| == Pow2(i) && |was| < Pow2(NTMPSORT)
    ensures carry != null && i < NTMPSORT && |slots| == |runs|
  {
    CarrySmall(runs, c, rest, was, i);
    Pow2Grows(0, i);
  }

  lemma PowersPlaced(runs: seq<seq<RrLent>>, i: nat, c: seq<RrLent>)
    requires PowerRuns(runs, i) && Sorted(Ts, c) && |c| == Pow2(i)
    ensures PowerRuns([c] + runs[if runs == [] then 0 else 1..], i)
  {
  }

  /** carry= tmp[0]: the lowest slot's run becomes the carry. */
  lemma LowestRun(slots: seq<RrLent?>, runs: seq<seq<RrLent>>, was: seq<RrLent>)
    requires Sorting(slots, runs, null, [], null, [], was) && runs != []
    ensures Sorting(slots[1..], runs[1..], slots[0], runs[0], null, [], was)
  {
    assert Gather(runs) == Gather(runs[1..]) + runs[0];
    assert Gather(runs) + [] + [] == Gather(runs[1..]) + runs[0] + [];
    assert Chain(slots[0], runs[0]);
    forall j | 0 <= j < |runs[1..]| ensures Chain(slots[1..][j], runs[1..][j]) {
      assert Chain(slots[j + 1], runs[j + 1]);
    }
  }

  /** With every slot merged in, the carry is the list in stable order. */
  lemma AllMerged(slots: seq<RrLent?>, carry: RrLent?, c: seq<RrLent>, was: seq<RrLent>)
    requires Sorting(slots, [], carry, c, null, [], was) && Sorted(Ts, c)
    ensures c == InsertAll(Ts, was) && Chain(carry, c) && multiset(c) == multiset(was)
  {
    InsertAllKeeps(Ts, was);
    assert Gather([]) + c + [] == c;
    forall k ensures WithKey(Ts, InsertAll(Ts, was), k) == WithKey(Ts, c, k) {
      assert WithKey(Ts, Gather([]) + c + [], k) == WithKey(Ts, was, k);
    }
    StableUnique(Ts, c, InsertAll(Ts, was));
  }

  lemma SortedTail(runs: seq<seq<RrLent>>, base: nat)
    requires PowerRuns(runs, base) && runs != []
    ensures Sorted(Ts, runs[0]) && PowerRuns(runs[1..], base + 1)
  {
    forall j | 0 <= j < |runs[1..]|
      ensures Sorted(Ts, runs[1..][j])
      ensures runs[1..][j] == [] || |runs[1..][j]| == Pow2(base + 1 + j)
    {
      assert runs[1..][j] == runs[1 + j];
    }
  }

  /** The last loop of sort_rrl: all the slots are merged into one list. */
  method MergeAll(tmp: array<RrLent?>, fill: nat, ghost runs: seq<seq<RrLent>>, ghost was: seq<RrLent>)
      returns (carry: RrLent?)
    requires 0 < fill <= tmp.Length && PowerRuns(runs, 0)
    requires Sorting(tmp[..fill], runs, null, [], null, [], was)
    modifies (set x | x in was)`next
    ensures Chain(carry, InsertAll(Ts, was)) && multiset(InsertAll(Ts, was)) == multiset(was)
  {
    LowestRun(tmp[..fill], runs, was);
    SortedTail(runs, 0);
    hide Gather, Seg, NoDup, WithKey, Merge, PowerRuns, Sorted, InsertAll, Parts, InOrder;
    carry := tmp[0];
    var counter: nat := 1;
    ghost var c, slots, up := runs[0], tmp[..fill][1..], runs[1..];
    while counter != fill
      invariant 1 <= counter <= fill && tmp[counter..fill] == slots && |slots| == |up|
      invariant Sorting(slots, up, carry, c, null, [], was) && PowerRuns(up, counter) && Sorted(Ts, c)
    {
      SortedTail(up, counter);
      MergeSorted(Ts, up[0], c);
      carry := MergeSlot(tmp[counter], carry, null, slots, up, c, [], was);
      c, slots, up := Merge(Ts, up[0], c), slots[1..], up[1..];
      counter := counter + 1;
    }
    assert up == [];
    AllMerged(slots, carry, c, was);
  }

  function PrevAt(s: seq<RrLent>, i: nat): RrLent?
    requires i <= |s|
  {
    if i == 0 then null else s[i - 1]
  }

  /** The back links of a list. */
  ghost predicate Back(s: seq<RrLent>, n: nat)
    requires n <= |s|
    reads s`prev
  {
    forall i {:trigger PrevAt(s, i)} :: 0 <= i < n ==> s[i].prev == PrevAt(s, i)
  }

  function LastOf(s: seq<RrLent>): RrLent? {
    if s == [] then null else s[|s| - 1]
  }

  lemma DistinctAt(s: seq<RrLent>, i: nat, j: nat)
    requires NoDup(multiset(s)) && i < j < |s|
    ensures s[i] != s[j]
  {
    assert s == s[..j] + s[j..] && s[i] in s[..j] && s[j] in s[j..];
    assert multiset(s)[s[i]] == multiset(s[..j])[s[i]] + multiset(s[j..])[s[i]];
    assert multiset(s)[s[i]] == 1 && multiset(s[..j])[s[i]] > 0 && multiset(s[j..])[s[j]] > 0;
  }

  /** Restore the backward links; the last node is the new tail. */
  method RestoreBack(head: RrLent?, ghost s: seq<RrLent>) returns (tail: RrLent?)
    requires Chain(head, s) && NoDup(multiset(s))
    modifies (set x | x in s)`prev
    ensures Back(s, |s|) && tail == LastOf(s) && Chain(head, s)
  {
    var p: RrLent? := head;
    tail := null;
    ghost var i: nat := 0;
    hide NoDup, Seg;
    while p != null
      invariant i <= |s| && Chain(p, s[i..]) && Back(s, i) && tail == PrevAt(s, i)
      decreases |s| - i
    {
      BackStep(s, i, p);
      p.prev := tail;
      tail := p;
      p := p.next;
      assert forall k :: 0 <= k < i ==> s[k].prev == PrevAt(s, k);
      i := i + 1;
    }
    ChainNonempty(p, s[i..]);
  }

  lemma BackStep(s: seq<RrLent>, i: nat, p: RrLent)
    requires i <= |s| && Chain(p, s[i..]) && NoDup(multiset(s))
    ensures i < |s| && p == s[i] && Chain(p.next, s[i + 1..])
    ensures forall k :: 0 <= k < i ==> s[k] != p
  {
    assert p == s[i..][0] && s[i..][1..] == s[i + 1..];
    forall k | 0 <= k < i ensures s[k] != p {
      DistinctAt(s, k, i);
    }
  }

  lemma ShortIsSorted(head: RrLent?, s: seq<RrLent>)
    requires Chain(head, s) && (head == null || head.next == null)
    ensures InsertAll(Ts, s) == s
  {
    if s != [] {
      ChainNonempty(s[0].next, s[1..]);
      assert s == [s[0]] && s[..0] == [];
      assert InsertAll(Ts, s[..0]) == [];
    }
  }

  lemma SortStarts(head: RrLent?, s: seq<RrLent>)
    requires Chain(head, s) && NoDup(multiset(s))
    ensures Sorting([], [], null, [], head, s, s) && PowerRuns([], 0)
  {
    assert Gather([]) + [] + s == s;
  }

  lemma RemDone(slots: seq<RrLent?>, runs: seq<seq<RrLent>>, rest: seq<RrLent>, was: seq<RrLent>)
    requires Sorting(slots, runs, null, [], null, rest, was)
    ensures rest == []
  {
  }

  lemma SameNodes(s: seq<RrLent>, was: seq<RrLent>)
    requires multiset(s) == multiset(was)
    ensures forall x :: x in s <==> x in was
  {
    assert forall x :: x in s <==> x in multiset(s);
  }

  /** sort_rrl: the result is what inserting the nodes one by one would have given. The list must
      be shorter than 2^32, so that the slots suffice. */
  method SortChain(head: RrLent, ghost was: seq<RrLent>) returns (head': RrLent?)
    requires Chain(head, was) && NoDup(multiset(was)) && |was| < Pow2(NTMPSORT)
    modifies (set x | x in was)`next
    ensures Chain(head', InsertAll(Ts, was)) && multiset(InsertAll(Ts, was)) == multiset(was)
  {
    hide Gather, Seg, Chain, NoDup, WithKey, Merge, PowerRuns, Sorted, InsertAll, Parts, InOrder, Sorting, Pow2;
    var tmp := new RrLent?[NTMPSORT];
    var fill: nat := 0;
    var rem: RrLent? := head;
    ghost var rest, runs := was, [];
    SortStarts(head, was);
    ChainNonempty(head, was);
    while rem != null
      invariant fill <= NTMPSORT && PowerRuns(runs, 0)
      invariant Sorting(tmp[..fill], runs, null, [], rem, rest, was)
      invariant rem == null ==> fill > 0
      decreases |rest|
    {
      var carry := rem;
      rem := Detach(carry, tmp[..fill], runs, rest, was);
      fill, runs := Settle(tmp, fill, carry, rem, runs, rest[0], rest[1..], was);
      rest := rest[1..];
    }
    RemDone(tmp[..fill], runs, rest, was);
    head' := MergeAll(tmp, fill, runs, was);
  }

  // ---------- insert_rrl and remove_rrl ----------

  function NextAt(s: seq<RrLent>, i: nat): RrLent? {
    if i + 1 < |s| then s[i + 1] else null
  }

  /** The forward links, position by position. */
  ghost predicate Linked(head: RrLent?, s: seq<RrLent>)
    reads s`next
  {
    && head == (if s == [] then null else s[0])
    && forall i {:trigger NextAt(s, i)} :: 0 <= i < |s| ==> s[i].next == NextAt(s, i)
  }

  lemma {:induction false} LinkedIsChain(p: RrLent?, s: seq<RrLent>)
    ensures Linked(p, s) <==> Chain(p, s)
    decreases |s|
  {
    if s != [] {
      var t := s[1..];
      LinkedIsChain(s[0].next, t);
      assert forall i :: 0 <= i < |t| ==> t[i] == s[i + 1] && NextAt(t, i) == NextAt(s, i + 1);
      if Linked(s[0].next, t) && p == s[0] {
        forall i | 0 <= i < |s| ensures s[i].next == NextAt(s, i) {
          if i > 0 {
            assert t[i - 1].next == NextAt(t, i - 1);
          }
        }
      }
      if Linked(p, s) {
        assert s[0].next == NextAt(s, 0);
        forall i | 0 <= i < |t| ensures t[i].next == NextAt(t, i) {
          assert s[i + 1].next == NextAt(s, i + 1);
        }
      }
    }
  }

  /** No two positions hold the same node. */
  ghost predicate Distinct(s: seq<RrLent>) {
    forall i, j :: 0 <= i < j < |s| ==> s[i] != s[j]
  }

  lemma {:induction false} DistinctIsNoDup(s: seq<RrLent>)
    ensures Distinct(s) <==> NoDup(multiset(s))
  {
    if NoDup(multiset(s)) {
      forall i, j | 0 <= i < j < |s| ensures s[i] != s[j] {
        DistinctAt(s, i, j);
      }
    }
    if Distinct(s) && s != [] {
      var t := s[1..];
      assert Distinct(t) by {
        forall i, j | 0 <= i < j < |t| ensures t[i] != t[j] {
          assert s[i + 1] != s[j + 1];
        }
      }
      DistinctIsNoDup(t);
      assert s == [s[0]] + t && s[0] !in t;
      assert multiset(t)[s[0]] == 0;
    }
  }

  function InsertAt(s: seq<RrLent>, n: nat, e: RrLent): seq<RrLent>
    requires n <= |s|
  {
    s[..n] + [e] + s[n..]
  }

  function RemoveAt(s: seq<RrLent>, n: nat): seq<RrLent>
    requires n < |s|
  {
    s[..n] + s[n + 1..]
  }

  lemma {:induction false} InsertPosPrefix(s: seq<RrLent>, ts: int, n: nat)
    requires n <= |s| && forall i :: n <= i < |s| ==> ts < s[i].ts
    ensures InsertPos(Ts, s, ts) == InsertPos(Ts, s[..n], ts)
    decreases |s|
  {
    if n < |s| {
      InsertPosPrefix(s[..|s| - 1], ts, n);
      assert s[..|s| - 1][..n] == s[..n];
    } else {
      assert s[..n] == s;
    }
  }

  method SortLinks(head: RrLent, ghost was: seq<RrLent>) returns (head': RrLent?, tail': RrLent?)
    requires Linked(head, was) && Distinct(was) && |was| < Pow2(NTMPSORT)
    modifies set x | x in was
    ensures var s := InsertAll(Ts, was); Linked(head', s) && Distinct(s) && Back(s, |s|) && tail' == LastOf(s)
  {
    LinkedIsChain(head, was);
    DistinctIsNoDup(was);
    hide Seg, Chain, NoDup, InsertAll, Pow2, Linked, Back, Distinct;
    head' := SortChain(head, was);
    ghost var s := InsertAll(Ts, was);
    SameNodes(s, was);
    DistinctIsNoDup(s);
    tail' := RestoreBack(head', s);
    LinkedIsChain(head', s);
  }

  lemma DistinctInsert(s: seq<RrLent>, n: nat, e: RrLent)
    requires Distinct(s) && n <= |s| && e !in s
    ensures Distinct(InsertAt(s, n, e))
  {
  }

  lemma OnlyAt(s: seq<RrLent>, n: int)
    requires Distinct(s)
    ensures 0 <= n < |s| ==> forall k :: 0 <= k < |s| && k != n ==> s[k] != s[n]
  {
  }

  /** What putting e before position n leaves in the next link of position k. */
  function NextWith(s: seq<RrLent>, n: nat, e: RrLent, k: nat): RrLent?
    requires n <= |s| && k < |s|
  {
    if k + 1 == n then e else NextAt(s, k)
  }

  function PrevWith(s: seq<RrLent>, n: nat, e: RrLent, k: nat): RrLent?
    requires n <= |s| && k < |s|
  {
    if k == n then e else PrevAt(s, k)
  }

  lemma InsertedAt(s: seq<RrLent>, n: nat, e: RrLent, i: nat)
    requires n <= |s| && i <= |s|
    ensures var r, k := InsertAt(s, n, e), if i < n then i else i - 1;
      && |r| == |s| + 1
      && (i == n ==> r[i] == e && NextAt(r, i) == (if n < |s| then s[n] else null) && PrevAt(r, i) == PrevAt(s, n))
      && (i != n ==> r[i] == s[k] && NextAt(r, i) == NextWith(s, n, e, k) && PrevAt(r, i) == PrevWith(s, n, e, k))
  {
  }

  /** Those are the links of the list with e in it. */
  lemma LinkedIn(s: seq<RrLent>, n: nat, e: RrLent)
    requires n <= |s| && e.next == (if n < |s| then s[n] else null) && e.prev == PrevAt(s, n)
    requires forall k {:trigger NextWith(s, n, e, k)} :: 0 <= k < |s| ==> s[k].next == NextWith(s, n, e, k)
    requires forall k {:trigger PrevWith(s, n, e, k)} :: 0 <= k < |s| ==> s[k].prev == PrevWith(s, n, e, k)
    ensures var r := InsertAt(s, n, e);
      && |r| == |s| + 1 && Linked(if n == 0 then e else s[0], r) && Back(r, |r|)
      && LastOf(r) == if n == |s| then e else LastOf(s)
  {
    hide InsertAt, NextAt, PrevAt;
    InsertedAt(s, n, e, 0);
    InsertedAt(s, n, e, |s|);
    var r := InsertAt(s, n, e);
    forall i | 0 <= i < |r| ensures r[i].next == NextAt(r, i) && r[i].prev == PrevAt(r, i) {
      InsertedAt(s, n, e, i);
      if i != n {
        var k: nat := if i < n then i else i - 1;
        assert s[k].next == NextWith(s, n, e, k);
        assert s[k].prev == PrevWith(s, n, e, k);
      }
    }
  }

  /** What remove_rrl of position n leaves in the next link of position k. */
  function NextWithout(s: seq<RrLent>, n: nat, k: nat): RrLent?
    requires n < |s| && k < |s|
  {
    if k + 1 == n then NextAt(s, n) else NextAt(s, k)
  }

  function PrevWithout(s: seq<RrLent>, n: nat, k: nat): RrLent?
    requires n < |s| && k < |s|
  {
    if k == n + 1 then PrevAt(s, n) else PrevAt(s, k)
  }

  lemma Neighbours(s: seq<RrLent>, n: nat, i: nat)
    requires n < |s| && i < |s| - 1
    ensures var k := if i < n then i else i + 1;
      && k < |s| && RemoveAt(s, n)[i] == s[k]
      && NextAt(RemoveAt(s, n), i) == NextWithout(s, n, k)
      && PrevAt(RemoveAt(s, n), i) == PrevWithout(s, n, k)
  {
  }

  /** Those are the links of the list without position n. */
  lemma Unlinked(s: seq<RrLent>, n: nat)
    requires n < |s|
    requires forall k {:trigger NextWithout(s, n, k)} :: 0 <= k < |s| && k != n ==> s[k].next == NextWithout(s, n, k)
    requires forall k {:trigger PrevWithout(s, n, k)} :: 0 <= k < |s| && k != n ==> s[k].prev == PrevWithout(s, n, k)
    ensures var r := RemoveAt(s, n);
      && (forall i {:trigger NextAt(r, i)} :: 0 <= i < |r| ==> r[i].next == NextAt(r, i))
      && Back(r, |r|)
  {
    var r := RemoveAt(s, n);
    assert |r| == |s| - 1;
    hide RemoveAt;
    forall i | 0 <= i < |r| ensures r[i].next == NextAt(r, i) && r[i].prev == PrevAt(r, i) {
      Neighbours(s, n, i);
      var k: nat := if i < n then i else i + 1;
      assert s[k].next == NextWithout(s, n, k);
      assert s[k].prev == PrevWithout(s, n, k);
    }
  }

  lemma EndsWithout(s: seq<RrLent>, n: nat)
    requires n < |s|
    ensures var r := RemoveAt(s, n);
      && (if r == [] then null else r[0]) == (if n == 0 then NextAt(s, 0) else s[0])
      && LastOf(r) == (if n == |s| - 1 then PrevAt(s, n) else LastOf(s))
  {
  }

  lemma DistinctRemove(s: seq<RrLent>, n: nat)
    requires Distinct(s) && n < |s|
    ensures Distinct(RemoveAt(s, n)) && s[n] !in RemoveAt(s, n)
  {
  }

  /** The global list: rrset_l and rrset_l_tail. */
  class RrList {
    var head: RrLent?
    var tail: RrLent?
    ghost var nodes: seq<RrLent>

    ghost predicate Valid()
      reads this, nodes
    {
      && Linked(head, nodes) && Distinct(nodes)
      && Back(nodes, |nodes|) && tail == LastOf(nodes)
    }

    constructor ()
      ensures Valid() && nodes == []
    {
      head, tail, nodes := null, null, [];
    }

    /** The links of a new node between position n - 1 and position n. */
    method LinkAt(e: RrLent, le: RrLent?, ghost n: nat)
      requires Valid() && e !in nodes && n <= |nodes| && le == PrevAt(nodes, n)
      modifies this, nodes, e
      ensures Valid() && nodes == InsertAt(old(nodes), n, e)
    {
      hide Distinct, InsertAt;
      DistinctInsert(nodes, n, e);
      OnlyAt(nodes, n - 1);
      OnlyAt(nodes, n);
      ghost var s := nodes;
      assert n > 0 ==> nodes[n - 1].next == NextAt(nodes, n - 1);
      var after := if le == null then head else le.next;
      e.next, e.prev := after, le;
      if after != null {
        after.prev := e;
      } else {
        tail := e;
      }
      if le != null {
        le.next := e;
      } else {
        head := e;
      }
      nodes := InsertAt(s, n, e);
      forall k {:trigger NextWith(s, n, e, k)} | 0 <= k < |s| ensures s[k].next == NextWith(s, n, e, k) {
        assert old(s[k].next == NextAt(s, k)) && s[k] in s;
      }
      forall k {:trigger PrevWith(s, n, e, k)} | 0 <= k < |s| ensures s[k].prev == PrevWith(s, n, e, k) {
        assert old(s[k].prev == PrevAt(s, k)) && s[k] in s;
      }
      LinkedIn(s, n, e);
    }

    /** insert_rrl, without the exemption of local records: with insert_sort the node goes behind
        the last one that is not younger, otherwise to the end. The result is null when malloc
        fails. */
    method InsertRrl(ts: int, insertSort: bool, mem: bool) returns (ne: RrLent?)
      requires Valid()
      modifies this, nodes
      ensures Valid() && (ne == null <==> !mem)
      ensures ne == null ==> nodes == old(nodes)
      ensures ne != null ==> fresh(ne) && ne.ts == ts
      ensures ne != null && insertSort ==> nodes == Insert<RrLent>(Ts, old(nodes), ne)
      ensures ne != null && !insertSort ==> nodes == old(nodes) + [ne]
    {
      if !mem {
        return null;
      }
      var e := new RrLent(ts);
      var le := tail;
      ghost var n: nat := |nodes|;
      if insertSort {
        while le != null && ts < le.ts
          invariant n <= |nodes| && le == PrevAt(nodes, n)
          invariant forall i :: n <= i < |nodes| ==> ts < nodes[i].ts
          decreases n
        {
          assert le.prev == PrevAt(nodes, n - 1);
          le := le.prev;
          n := n - 1;
        }
        InsertPosPrefix(nodes, ts, n);
      }
      LinkAt(e, le, n);
      ne := e;
    }

    /** remove_rrl. */
    method RemoveRrl(le: RrLent, ghost n: nat)
      requires Valid() && n < |nodes| && nodes[n] == le
      modifies this, nodes
      ensures Valid() && nodes == RemoveAt(old(nodes), n) && le !in nodes
    {
      hide Distinct, RemoveAt;
      DistinctRemove(nodes, n);
      OnlyAt(nodes, n - 1);
      OnlyAt(nodes, n + 1);
      ghost var s := nodes;
      assert le.next == NextAt(nodes, n) && le.prev == PrevAt(nodes, n);
      var next, prev := le.next, le.prev;
      if next != null {
        next.prev := prev;
      } else {
        tail := prev;
      }
      if prev != null {
        prev.next := next;
      } else {
        head := next;
      }
      nodes := RemoveAt(s, n);
      forall k {:trigger NextWithout(s, n, k)} | 0 <= k < |s| && k != n
        ensures s[k].next == NextWithout(s, n, k)
      {
        assert old(s[k].next == NextAt(s, k));
      }
      forall k {:trigger PrevWithout(s, n, k)} | 0 <= k < |s| && k != n
        ensures s[k].prev == PrevWithout(s, n, k)
      {
        assert old(s[k].prev == PrevAt(s, k));
      }
      Unlinked(s, n);
      EndsWithout(s, n);
    }

    /** sort_rrl. */
    method SortRrl()
      requires Valid() && |nodes| < Pow2(NTMPSORT)
      modifies this, set x | x in nodes
      ensures Valid() && nodes == InsertAll(Ts, old(nodes))
    {
      hide Linked, Back, Distinct, InsertAll, Pow2, NTMPSORT;
      if head != null && head.next != null {
        head, tail := SortLinks(head, nodes);
        nodes := InsertAll(Ts, nodes);
      } else {
        LinkedIsChain(head, nodes);
        ShortIsSorted(head, nodes);
      }
    }
  }
}
