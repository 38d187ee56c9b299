/** The growable containers of list.c. Neither stores its capacity: it is worked out anew from
    what is in use, and must come out as what was allocated. */
module Containers {
  import opened Names

  // ---------- dynamic arrays ----------

  /** n rounded up to a multiple of k. */
  function RoundUp(n: nat, k: nat): (r: nat)
    requires k > 0
    ensures n <= r < n + k
  {
    n + k - 1 - (n + k - 1) % k
  }

  /** What still fits into the last chunk needs no new one. */
  lemma SameChunk(n: nat, m: nat)
    requires 0 < n <= m <= RoundUp(n, CHUNK)
    ensures RoundUp(m, CHUNK) == RoundUp(n, CHUNK)
  {
  }

  /** The number of elements there must be room for. */
  function AllocNel(n: nat): (r: nat)
    ensures n <= r && r >= 8 && r % 8 == 0 && (r > 8 ==> r - 8 < n)
  {
    if n == 0 then 8 else RoundUp(n, 8)
  }

  /** A dynamic array; null until it is first grown. */
  class DArray {
    var present: bool
    var nel: nat
    /** What was last asked of realloc, in elements. */
    ghost var room: nat

    ghost predicate Valid()
      reads this
    {
      if present then room == AllocNel(nel) else nel == 0
    }

    constructor ()
      ensures Valid() && !present
    {
      present, nel, room := false, 0, 0;
    }

    /** da_grow1: room is made only when a multiple of eight is full. */
    method Grow1(mem: bool) returns (ok: bool)
      requires Valid()
      modifies this
      ensures Valid() && present == ok && (mem ==> ok)
      ensures ok ==> nel == old(nel) + 1 <= room
    {
      var k := nel;
      if !present || (k != 0 && k % 8 == 0) {
        if !mem {
          present, nel := false, 0;
          return false;
        }
        present := true;
        room := k + 8;
      }
      nel := k + 1;
      ok := true;
    }

    /** da_resize. */
    method Resize(n: nat, mem: bool) returns (ok: bool)
      requires Valid()
      modifies this
      ensures Valid() && present == ok && (mem ==> ok)
      ensures ok ==> nel == n <= room
    {
      var ael := if present then AllocNel(nel) else 0;
      if AllocNel(n) != ael {
        if !mem {
          present, nel := false, 0;
          return false;
        }
        present := true;
        room := AllocNel(n);
      }
      nel := n;
      ok := true;
    }
  }

  // ---------- dynamic lists ----------

  const CHUNK: nat := 1024

  /** The word of item i leads to the next one, and its data are there. */
  ghost predicate LinkOk(links: map<nat, nat>, data: map<nat, seq<byte>>, word: nat, items: seq<seq<byte>>,
      offs: seq<nat>, i: nat)
    requires i < |items| == |offs|
  {
    && offs[i] in links && offs[i] + word in data && data[offs[i] + word] == items[i]
    && if i + 1 < |items| then links[offs[i]] > 0 && offs[i] + links[offs[i]] == offs[i + 1]
       else links[offs[i]] == 0
  }

  /** The first item is at the start, and last and lastsz stand for the last one. */
  ghost predicate FitsOk(sizes: seq<nat>, offs: seq<nat>, last: nat, lastsz: nat, room: nat)
    requires |sizes| == |offs|
  {
    offs != [] ==>
      && offs[0] == 0 && last == offs[|offs| - 1] && lastsz == sizes[|offs| - 1]
      && room == RoundUp(last + lastsz, CHUNK)
  }

  lemma FitsAppended(sizes: seq<nat>, offs: seq<nat>, last: nat, lastsz: nat, room: nat, sz: nat, szincr: nat,
      room': nat)
    requires |sizes| == |offs| && FitsOk(sizes, offs, last, lastsz, room)
    requires (offs == [] ==> sz == 0) && room' == RoundUp(sz + szincr, CHUNK)
    ensures FitsOk(sizes + [szincr], offs + [sz], sz, szincr, room')
  {
  }

  ghost predicate AllLinks(links: map<nat, nat>, data: map<nat, seq<byte>>, word: nat, items: seq<seq<byte>>,
      offs: seq<nat>)
    requires |items| == |offs|
  {
    forall i :: 0 <= i < |items| ==> LinkOk(links, data, word, items, offs, i)
  }

  /** The items follow one another without overlapping, each with room for its word and its
      data. */
  ghost predicate LaidOk(items: seq<seq<byte>>, sizes: seq<nat>, offs: seq<nat>, word: nat)
    requires word > 0 && |sizes| == |offs| == |items|
  {
    && (forall i :: 0 <= i < |items| ==> sizes[i] == RoundUp(|items[i]| + word, word))
    && (forall i, j :: 0 <= i < j < |items| ==> offs[i] + sizes[i] <= offs[j])
  }

  lemma NothingFits(last: nat, lastsz: nat, room: nat)
    ensures FitsOk([], [], last, lastsz, room)
  {
  }

  lemma NothingLaid(word: nat, links: map<nat, nat>, data: map<nat, seq<byte>>)
    requires word > 0
    ensures LaidOk([], [], [], word) && AllLinks(links, data, word, [], [])
  {
  }

  lemma LaidAppended(items: seq<seq<byte>>, sizes: seq<nat>, offs: seq<nat>, word: nat, item: seq<byte>, sz: nat)
    requires word > 0 && |sizes| == |offs| == |items| && LaidOk(items, sizes, offs, word)
    requires forall i :: 0 <= i < |items| ==> offs[i] + sizes[i] <= sz
    ensures LaidOk(items + [item], sizes + [RoundUp(|item| + word, word)], offs + [sz], word)
  {
    hide RoundUp;
  }

  /** A further item at sz, linked to by the last one. */
  lemma LinkAppended(links: map<nat, nat>, data: map<nat, seq<byte>>, word: nat, items: seq<seq<byte>>,
      offs: seq<nat>, item: seq<byte>, sz: nat, i: nat)
    requires |items| == |offs| && i <= |items|
    requires forall k :: 0 <= k < |items| ==> LinkOk(links, data, word, items, offs, k) && offs[k] < sz
    requires forall k :: 0 <= k < |items| - 1 ==> offs[k] != offs[|items| - 1]
    ensures var n := |items|;
      var links' := if n > 0 then links[offs[n - 1] := sz - offs[n - 1]] else links;
      LinkOk(links'[sz := 0], data[sz + word := item], word, items + [item], offs + [sz], i)
  {
    if i < |items| {
      assert LinkOk(links, data, word, items, offs, i);
    }
  }

  lemma AllAppended(links: map<nat, nat>, data: map<nat, seq<byte>>, word: nat, items: seq<seq<byte>>,
      offs: seq<nat>, item: seq<byte>, sz: nat, last: nat, lastsz: nat)
    requires |items| == |offs| && AllLinks(links, data, word, items, offs)
    requires forall k :: 0 <= k < |items| ==> offs[k] < sz
    requires forall k :: 0 <= k < |items| - 1 ==> offs[k] != offs[|items| - 1]
    requires items != [] ==> last == offs[|items| - 1] && sz == last + lastsz
    ensures var links' := if items != [] then links[last := lastsz] else links;
      AllLinks(links'[sz := 0], data[sz + word := item], word, items + [item], offs + [sz])
  {
    hide LinkOk;
    var n := |items|;
    var links' := if n > 0 then links[offs[n - 1] := sz - offs[n - 1]] else links;
    var links'', data' := links'[sz := 0], data[sz + word := item];
    forall i | 0 <= i < n + 1 ensures LinkOk(links'', data', word, items + [item], offs + [sz], i) {
      LinkAppended(links, data, word, items, offs, item, sz, i);
    }
  }

  /** A list of items of various sizes in one block: each item is preceded by a word with the
      distance to the next, the last one's word being zero. */
  class DList {
    /** sizeof(size_t). */
    const word: nat
    var present: bool
    var last: nat
    var lastsz: nat
    /** The link words, by offset. */
    var links: map<nat, nat>
    /** What has been stored in the items, by the offset of the item behind its word. */
    var data: map<nat, seq<byte>>
    ghost var room: nat
    /** The items, where each begins with its word, and how far it reaches. */
    ghost var items: seq<seq<byte>>
    ghost var offs: seq<nat>
    ghost var sizes: seq<nat>

    ghost predicate Valid()
      reads this
    {
      word > 0 && |sizes| == |offs| == |items| && (present <==> items != []) && Fits() && LaidOut() && Linked()
    }

    ghost predicate Fits()
      reads this
    {
      |sizes| == |offs| == |items| ==> FitsOk(sizes, offs, last, lastsz, room)
    }

    ghost predicate LaidOut()
      reads this
    {
      word > 0 && |sizes| == |offs| == |items| ==> LaidOk(items, sizes, offs, word)
    }

    ghost predicate Linked()
      reads this
    {
      |offs| == |items| ==> AllLinks(links, data, word, items, offs)
    }

    constructor (word: nat)
      requires word > 0
      ensures Valid() && items == [] && this.word == word
    {
      this.word, present, last, lastsz, links, data := word, false, 0, 0, map[], map[];
      room, items, sizes, offs := 0, [], [], [];
    }

    /** dlist_grow, and the item stored at dlist_last. */
    method Append(item: seq<byte>, mem: bool) returns (ok: bool)
      requires Valid()
      modifies this
      ensures Valid() && (mem ==> ok)
      ensures items == if ok then old(items) + [item] else []
    {
      hide RoundUp, AllLinks, LaidOk, FitsOk;
      var sz: nat, allocsz: nat := 0, 0;
      ghost var before := room;
      if present {
        LastIsLast();
        sz := last + lastsz;
        allocsz := RoundUp(sz, CHUNK);
      }
      LaidAppended(items, sizes, offs, word, item, sz);
      AllAppended(links, data, word, items, offs, item, sz, last, lastsz);
      if present {
        links := links[last := lastsz];
      }
      var szincr := RoundUp(|item| + word, word);
      ok := Enlarge(sz, sz + szincr, allocsz, mem);
      if !ok {
        Clear();
        return;
      }
      FitsAppended(sizes, offs, last, lastsz, before, sz, szincr, room);
      Fill(item, sz, szincr);
    }

    /** The list has been freed. */
    method Clear()
      requires word > 0
      modifies this
      ensures Valid() && items == []
    {
      hide AllLinks, LaidOk, FitsOk;
      present, links, data := false, map[], map[];
      items, sizes, offs := [], [], [];
      NothingLaid(word, links, data);
      NothingFits(last, lastsz, room);
    }

    /** The new item at sz, with szincr bytes for its word and its data. */
    method Fill(item: seq<byte>, sz: nat, szincr: nat)
      requires word > 0 && |sizes| == |offs| == |items|
      requires FitsOk(sizes + [szincr], offs + [sz], sz, szincr, room)
      requires LaidOk(items + [item], sizes + [szincr], offs + [sz], word)
      requires AllLinks(links[sz := 0], data[sz + word := item], word, items + [item], offs + [sz])
      modifies this
      ensures Valid() && items == old(items) + [item]
    {
      hide AllLinks, LaidOk, FitsOk;
      present, last, lastsz := true, sz, szincr;
      links := links[sz := 0];
      data := data[sz + word := item];
      items, sizes, offs := items + [item], sizes + [szincr], offs + [sz];
    }

    /** realloc, when what is needed exceeds what there is. */
    method Enlarge(sz: nat, newsz: nat, allocsz: nat, mem: bool) returns (ok: bool)
      requires sz < newsz && (allocsz == 0 || (0 < sz && allocsz == room == RoundUp(sz, CHUNK)))
      modifies `room
      ensures ok ==> room == RoundUp(newsz, CHUNK)
      ensures !ok ==> !mem
    {
      hide RoundUp;
      if newsz > allocsz {
        if !mem {
          return false;
        }
        room := RoundUp(newsz, CHUNK);
      } else {
        SameChunk(sz, newsz);
      }
      ok := true;
    }

    lemma LastIsLast()
      requires Valid() && items != []
      ensures forall i :: 0 <= i < |items| - 1 ==> offs[i] + sizes[i] <= last && offs[i] != last
      ensures forall i :: 0 <= i < |items| ==> offs[i] < last + lastsz && offs[i] + sizes[i] <= last + lastsz
      ensures lastsz > 0 && last == offs[|items| - 1] && room == RoundUp(last + lastsz, CHUNK)
    {
      hide RoundUp;
      assert forall i :: 0 <= i < |items| ==> sizes[i] >= word;
    }

    /** dlist_first and dlist_next: the places of the items, in order. */
    method Walk() returns (refs: seq<nat>)
      requires Valid()
      ensures |refs| == |items|
      ensures forall i :: 0 <= i < |refs| ==> refs[i] in data && data[refs[i]] == items[i]
    {
      hide RoundUp, LaidOut;
      refs := [];
      if !present {
        return;
      }
      ghost var i: nat := 0;
      var ref: nat := word;
      while true
        invariant i < |items| && |refs| == i && ref == offs[i] + word
        invariant forall k :: 0 <= k < i ==> refs[k] in data && data[refs[k]] == items[k]
        decreases |items| - i
      {
        refs := refs + [ref];
        assert LinkOk(links, data, word, items, offs, i);
        var incr := links[ref - word];
        if incr == 0 {
          break;
        }
        ref := ref + incr;
        i := i + 1;
      }
    }

    /** No item overlaps a link word, and all lie within what was allocated. */
    lemma Apart(i: nat, j: nat)
      requires Valid() && i < |items| && j < |items|
      ensures offs[i] + word + |items[i]| <= offs[i] + sizes[i] <= room
      ensures i != j ==> offs[i] + sizes[i] <= offs[j] || offs[j] + word <= offs[i]
    {
      hide RoundUp;
      LastIsLast();
      assert sizes[j] >= word;
    }
  }
}
