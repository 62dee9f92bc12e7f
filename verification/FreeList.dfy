/** The sub-heap's free list: block headers threaded through the arena's own bytes. */
module FreeList {
  import opened Arithmetic
  import opened ByteMemory

  const FREE_CANARY: nat := 0xfefe_fefe_fefe_fefe
  const ALLOCATED_CANARY: nat := 0xd1d1_d1d1_d1d1_d1d1
  /** sizeof(FreeBlock) and sizeof(AllocatedBlock). */
  const HEADER: nat := 32
  const TAG: nat := 16

  /** The four words of a FreeBlock; an AllocatedBlock is the first two. */
  datatype Header = Header(canary: nat, size: nat, prev: nat, next: nat)

  function HeaderAt(m: Memory, p: nat): Header {
    Header(Load(m, p, WORD), Load(m, p + 8, WORD), Load(m, p + 16, WORD), Load(m, p + 24, WORD))
  }

  function SetSize(m: Memory, p: nat, v: nat): Memory { Store(m, p + 8, WORD, v) }

  function SetPrev(m: Memory, p: nat, v: nat): Memory { Store(m, p + 16, WORD, v) }

  function SetNext(m: Memory, p: nat, v: nat): Memory { Store(m, p + 24, WORD, v) }

  /** Placement-new of a FreeBlock, with null links, and of an AllocatedBlock. */
  function NewFree(m: Memory, p: nat, size: nat): Memory {
    SetNext(SetPrev(NewTag(m, p, FREE_CANARY, size), p, 0), p, 0)
  }

  function NewTag(m: Memory, p: nat, canary: nat, size: nat): Memory {
    SetSize(Store(m, p, WORD, canary), p, size)
  }

  // ----- Frames: which bytes a step may change

  /** Only bytes of the 32-byte headers at `ps` may differ. */
  ghost predicate Untouched(m: Memory, after: Memory, ps: set<nat>) {
    && |after| == |m|
    && forall x :: 0 <= x < |m| && (forall p :: p in ps ==> x < p || p + HEADER <= x) ==> after[x] == m[x]
  }

  ghost predicate Clear(ps: set<nat>, q: nat) {
    forall p :: p in ps ==> q + HEADER <= p || p + HEADER <= q
  }

  lemma HeaderSame(m: Memory, after: Memory, ps: set<nat>, q: nat)
    requires Untouched(m, after, ps) && Clear(ps, q)
    ensures HeaderAt(after, q) == HeaderAt(m, q)
  {
    LoadKept(m, after, q);
    LoadKept(m, after, q + 8);
    LoadKept(m, after, q + 16);
    LoadKept(m, after, q + 24);
  }

  lemma UntouchedBoth(a: Memory, b: Memory, c: Memory, ps: set<nat>, qs: set<nat>)
    requires Untouched(a, b, ps) && Untouched(b, c, qs)
    ensures Untouched(a, c, ps + qs)
  {
  }

  lemma StoreField(m: Memory, p: nat, k: nat, v: nat)
    requires p + HEADER <= |m| && v < U64 && (k == 0 || k == 8 || k == 16 || k == 24)
    ensures var after := Store(m, p + k, WORD, v);
            var was := HeaderAt(m, p);
            && Untouched(m, after, {p})
            && HeaderAt(after, p) ==
               if k == 0 then was.(canary := v) else if k == 8 then was.(size := v)
               else if k == 16 then was.(prev := v) else was.(next := v)
  {
    var after := Store(m, p + k, WORD, v);
    Pow256Of8();
    LoadStored(m, p + k, WORD, v);
    StoreElsewhere(m, p + k, WORD, v);
    if k != 0 { LoadKept(m, after, p); }
    if k != 8 { LoadKept(m, after, p + 8); }
    if k != 16 { LoadKept(m, after, p + 16); }
    if k != 24 { LoadKept(m, after, p + 24); }
  }

  /** Writing one field of the header at `p`: that field changes, and no other header does. */
  lemma SetSizeEffect(m: Memory, p: nat, v: nat)
    requires p + HEADER <= |m| && v < U64
    ensures Untouched(m, SetSize(m, p, v), {p})
    ensures HeaderAt(SetSize(m, p, v), p) == HeaderAt(m, p).(size := v)
  {
    StoreField(m, p, 8, v);
  }

  lemma SetPrevEffect(m: Memory, p: nat, v: nat)
    requires p + HEADER <= |m| && v < U64
    ensures Untouched(m, SetPrev(m, p, v), {p})
    ensures HeaderAt(SetPrev(m, p, v), p) == HeaderAt(m, p).(prev := v)
  {
    StoreField(m, p, 16, v);
  }

  lemma SetNextEffect(m: Memory, p: nat, v: nat)
    requires p + HEADER <= |m| && v < U64
    ensures Untouched(m, SetNext(m, p, v), {p})
    ensures HeaderAt(SetNext(m, p, v), p) == HeaderAt(m, p).(next := v)
  {
    StoreField(m, p, 24, v);
  }

  lemma NewTagEffect(m: Memory, p: nat, canary: nat, size: nat)
    requires p + HEADER <= |m| && canary < U64 && size < U64
    ensures Untouched(m, NewTag(m, p, canary, size), {p})
    ensures HeaderAt(NewTag(m, p, canary, size), p) == HeaderAt(m, p).(canary := canary, size := size)
  {
    StoreField(m, p, 0, canary);
    SetSizeEffect(Store(m, p, WORD, canary), p, size);
    hide HeaderAt, Store, SetSize;
    UntouchedBoth(m, Store(m, p, WORD, canary), NewTag(m, p, canary, size), {p}, {p});
  }

  lemma NewFreeEffect(m: Memory, p: nat, size: nat)
    requires p + HEADER <= |m| && size < U64
    ensures Untouched(m, NewFree(m, p, size), {p})
    ensures HeaderAt(NewFree(m, p, size), p) == Header(FREE_CANARY, size, 0, 0)
  {
    NewTagEffect(m, p, FREE_CANARY, size);
    hide HeaderAt, NewTag, SetPrev, SetNext;
    var a := NewTag(m, p, FREE_CANARY, size);
    SetPrevEffect(a, p, 0);
    UntouchedBoth(m, a, SetPrev(a, p, 0), {p}, {p});
    SetNextEffect(SetPrev(a, p, 0), p, 0);
    UntouchedBoth(m, SetPrev(a, p, 0), NewFree(m, p, size), {p}, {p});
  }

  // ----- The operations on memory and the list head, as written and with the two missing back links repaired

  datatype Heap = Heap(mem: Memory, head: nat)

  function Allocatable(m: Memory, p: nat): int {
    HeaderAt(m, p).size - TAG
  }

  function SetPrevUnlessNull(m: Memory, p: nat, v: nat): Memory {
    if p == 0 then m else SetPrev(m, p, v)
  }

  function SetNextUnlessNull(m: Memory, p: nat, v: nat): Memory {
    if p == 0 then m else SetNext(m, p, v)
  }

  /** FreeBlock::split_if_required; `repair` adds the write of the old successor's m_previous. */
  function SplitIfRequired(m: Memory, p: nat, request: nat, repair: bool): Memory {
    var right := Allocatable(m, p) - request;
    if right < HEADER then m
    else
      var rhs := p + TAG + request;
      var next := HeaderAt(m, p).next;
      var a := NewFree(SetSize(m, p, request + HEADER), rhs, right);
      var b := SetNext(SetNext(SetPrev(a, rhs, p), rhs, next), p, rhs);
      if repair then SetPrevUnlessNull(b, next, rhs) else b
  }

  /** KmallocSubHeap::remove_from_free_list. */
  function Remove(h: Heap, p: nat): Heap {
    var f := HeaderAt(h.mem, p);
    Heap(SetNextUnlessNull(SetPrevUnlessNull(h.mem, f.next, f.prev), f.prev, f.next),
         if p == h.head then f.next else h.head)
  }

  /** KmallocSubHeap::insert_into_free_list once the predecessor is found (0 for the front of the list). */
  function Insert(h: Heap, before: nat, p: nat, repair: bool): Heap {
    if h.head == 0 then Heap(h.mem, p)
    else if before == 0 then Heap(SetPrev(SetNext(h.mem, p, h.head), h.head, p), p)
    else
      var next := HeaderAt(h.mem, before).next;
      var b := SetNext(SetPrev(SetNext(h.mem, p, next), p, before), before, p);
      Heap(if repair then SetPrevUnlessNull(b, next, p) else b, h.head)
  }

  function CanCoalesceNext(m: Memory, p: nat): bool {
    HeaderAt(m, p).next != 0 && HeaderAt(m, p).next == p + HeaderAt(m, p).size
  }

  /** FreeBlock::coalesce_with_next_block. */
  function CoalesceNext(m: Memory, p: nat): Memory {
    if !CanCoalesceNext(m, p) then m
    else
      var next := HeaderAt(m, p).next;
      var after := HeaderAt(m, next).next;
      SetPrevUnlessNull(SetNext(SetSize(m, p, HeaderAt(m, p).size + HeaderAt(m, next).size), p, after), after, p)
  }

  /** FreeBlock::coalesce_with_previous_block. */
  function CoalescePrevious(m: Memory, p: nat): Memory {
    var prev := HeaderAt(m, p).prev;
    if prev == 0 || prev + HeaderAt(m, prev).size != p then m else CoalesceNext(m, prev)
  }

  // ----- The list as a sequence of blocks

  datatype Block = Block(addr: nat, size: nat)

  /** The address of the i-th block; null off either end. */
  function AddrOf(bs: seq<Block>, i: int): nat {
    if 0 <= i < |bs| then bs[i].addr else 0
  }

  /** The blocks are in address order, far enough apart to hold their headers, and inside memory. */
  predicate Spaced(bs: seq<Block>, limit: nat) {
    && limit <= U64
    && (forall i :: 0 <= i < |bs| ==> 0 < bs[i].addr && bs[i].addr + HEADER <= limit && bs[i].size < U64)
    && forall i, j :: 0 <= i < j < |bs| ==> bs[i].addr + HEADER <= bs[j].addr
  }

  /** The headers of the blocks, in order. */
  function Headers(m: Memory, bs: seq<Block>): (hs: seq<Header>)
    ensures |hs| == |bs|
    ensures forall i {:trigger hs[i]} :: 0 <= i < |bs| ==> hs[i] == HeaderAt(m, bs[i].addr)
  {
    seq(|bs|, i requires 0 <= i < |bs| => HeaderAt(m, bs[i].addr))
  }

  /** The headers describe their blocks and each m_next names the next block. */
  predicate NextLinks(hs: seq<Header>, bs: seq<Block>)
    requires |hs| == |bs|
  {
    forall i {:trigger hs[i]} :: 0 <= i < |bs| ==>
        hs[i].canary == FREE_CANARY && hs[i].size == bs[i].size && hs[i].next == AddrOf(bs, i + 1)
  }

  /** The m_previous of the block at `addr`: what `w` says of it, or else `right`. */
  function Back(w: map<nat, nat>, addr: nat, right: nat): nat {
    if addr in w then w[addr] else right
  }

  /** Each m_previous names the block before, except as `w` says. */
  predicate PrevLinks(hs: seq<Header>, bs: seq<Block>, w: map<nat, nat>)
    requires |hs| == |bs|
  {
    forall i {:trigger hs[i]} :: 0 <= i < |bs| ==> hs[i].prev == Back(w, bs[i].addr, AddrOf(bs, i - 1))
  }

  /** Following m_next from the list head visits exactly the blocks, in order. */
  predicate Forward(h: Heap, bs: seq<Block>) {
    h.head == AddrOf(bs, 0) && NextLinks(Headers(h.mem, bs), bs)
  }

  predicate BackwardExcept(h: Heap, bs: seq<Block>, w: map<nat, nat>) {
    PrevLinks(Headers(h.mem, bs), bs, w)
  }

  /** Every m_previous is right. */
  predicate Backward(h: Heap, bs: seq<Block>) {
    BackwardExcept(h, bs, map[])
  }

  lemma AddrFits(bs: seq<Block>, limit: nat, i: int)
    requires Spaced(bs, limit)
    ensures AddrOf(bs, i) < U64 && (AddrOf(bs, i) == 0 <==> !(0 <= i < |bs|))
    ensures AddrOf(bs, i) == 0 || AddrOf(bs, i) + HEADER <= limit
    ensures limit <= U64
  {
  }

  // ----- Writes as updates of the header sequence

  function WithNext(hs: seq<Header>, i: int, v: nat): (after: seq<Header>)
    ensures |after| == |hs|
  {
    if 0 <= i < |hs| then hs[i := hs[i].(next := v)] else hs
  }

  function WithPrev(hs: seq<Header>, i: int, v: nat): (after: seq<Header>)
    ensures |after| == |hs|
  {
    if 0 <= i < |hs| then hs[i := hs[i].(prev := v)] else hs
  }

  function WithSize(hs: seq<Header>, i: int, v: nat): (after: seq<Header>)
    ensures |after| == |hs|
  {
    if 0 <= i < |hs| then hs[i := hs[i].(size := v)] else hs
  }

  function WithFree(hs: seq<Header>, i: int, size: nat): (after: seq<Header>)
    ensures |after| == |hs|
  {
    if 0 <= i < |hs| then hs[i := Header(FREE_CANARY, size, 0, 0)] else hs
  }

  lemma OneHeaderChanged(m: Memory, after: Memory, bs: seq<Block>, j: nat, f: Header)
    requires Spaced(bs, |m|) && j < |bs|
    requires Untouched(m, after, {bs[j].addr}) && HeaderAt(after, bs[j].addr) == f
    ensures Headers(after, bs) == Headers(m, bs)[j := f]
  {
    forall i | 0 <= i < |bs| && i != j ensures HeaderAt(after, bs[i].addr) == HeaderAt(m, bs[i].addr) {
      HeaderSame(m, after, {bs[j].addr}, bs[i].addr);
    }
  }

  lemma SetPrevIn(m: Memory, bs: seq<Block>, j: nat, v: nat)
    requires Spaced(bs, |m|) && j < |bs| && v < U64
    ensures Headers(SetPrev(m, bs[j].addr, v), bs) == WithPrev(Headers(m, bs), j, v)
    ensures Untouched(m, SetPrev(m, bs[j].addr, v), {bs[j].addr})
  {
    SetPrevEffect(m, bs[j].addr, v);
    OneHeaderChanged(m, SetPrev(m, bs[j].addr, v), bs, j, HeaderAt(m, bs[j].addr).(prev := v));
  }

  lemma SetNextIn(m: Memory, bs: seq<Block>, j: nat, v: nat)
    requires Spaced(bs, |m|) && j < |bs| && v < U64
    ensures Headers(SetNext(m, bs[j].addr, v), bs) == WithNext(Headers(m, bs), j, v)
    ensures Untouched(m, SetNext(m, bs[j].addr, v), {bs[j].addr})
  {
    SetNextEffect(m, bs[j].addr, v);
    OneHeaderChanged(m, SetNext(m, bs[j].addr, v), bs, j, HeaderAt(m, bs[j].addr).(next := v));
  }

  lemma SetSizeIn(m: Memory, bs: seq<Block>, j: nat, v: nat)
    requires Spaced(bs, |m|) && j < |bs| && v < U64
    ensures Headers(SetSize(m, bs[j].addr, v), bs) == WithSize(Headers(m, bs), j, v)
    ensures Untouched(m, SetSize(m, bs[j].addr, v), {bs[j].addr})
  {
    SetSizeEffect(m, bs[j].addr, v);
    OneHeaderChanged(m, SetSize(m, bs[j].addr, v), bs, j, HeaderAt(m, bs[j].addr).(size := v));
  }

  lemma NewFreeIn(m: Memory, bs: seq<Block>, j: nat, size: nat)
    requires Spaced(bs, |m|) && j < |bs| && size < U64
    ensures Headers(NewFree(m, bs[j].addr, size), bs) == WithFree(Headers(m, bs), j, size)
    ensures Untouched(m, NewFree(m, bs[j].addr, size), {bs[j].addr})
  {
    NewFreeEffect(m, bs[j].addr, size);
    OneHeaderChanged(m, NewFree(m, bs[j].addr, size), bs, j, Header(FREE_CANARY, size, 0, 0));
  }

  // ----- Unlinking

  function Without<T>(s: seq<T>, i: nat): (r: seq<T>)
    requires i < |s|
    ensures |r| == |s| - 1
    ensures forall k :: 0 <= k < |r| ==> r[k] == if k < i then s[k] else s[k + 1]
  {
    s[..i] + s[i + 1..]
  }

  /** The address of block `j`, if there is one. */
  function Beside(bs: seq<Block>, j: int): set<nat> {
    if 0 <= j < |bs| then {bs[j].addr} else {}
  }

  lemma PrevIfAnyIn(m: Memory, bs: seq<Block>, j: int, v: nat)
    requires Spaced(bs, |m|) && v < U64
    ensures Headers(SetPrevUnlessNull(m, AddrOf(bs, j), v), bs) == WithPrev(Headers(m, bs), j, v)
    ensures Untouched(m, SetPrevUnlessNull(m, AddrOf(bs, j), v), Beside(bs, j))
  {
    if 0 <= j < |bs| {
      SetPrevIn(m, bs, j, v);
    }
  }

  lemma NextIfAnyIn(m: Memory, bs: seq<Block>, j: int, v: nat)
    requires Spaced(bs, |m|) && v < U64
    ensures Headers(SetNextUnlessNull(m, AddrOf(bs, j), v), bs) == WithNext(Headers(m, bs), j, v)
    ensures Untouched(m, SetNextUnlessNull(m, AddrOf(bs, j), v), Beside(bs, j))
  {
    if 0 <= j < |bs| {
      SetNextIn(m, bs, j, v);
    }
  }

  /** A block's address is that of one place in the list only. */
  lemma BesideOnly(bs: seq<Block>, limit: nat, i: nat, j: int)
    requires Spaced(bs, limit) && i < |bs|
    ensures bs[i].addr in Beside(bs, j) <==> i == j
  {
  }

  /** The forward link of block `i`, and its place relative to the head, as facts about one index. */
  lemma NextAt(h: Heap, bs: seq<Block>, i: nat)
    requires i < |bs| && Spaced(bs, |h.mem|) && Forward(h, bs)
    ensures HeaderAt(h.mem, bs[i].addr).size == bs[i].size
    ensures HeaderAt(h.mem, bs[i].addr).next == AddrOf(bs, i + 1)
    ensures bs[i].addr == h.head <==> i == 0
    ensures AddrOf(bs, i) == bs[i].addr
  {
    assert HeaderAt(h.mem, bs[i].addr) == Headers(h.mem, bs)[i];
    assert i > 0 ==> bs[0].addr < bs[i].addr;
  }

  lemma PrevAt(h: Heap, bs: seq<Block>, i: nat, w: map<nat, nat>)
    requires i < |bs| && BackwardExcept(h, bs, w)
    ensures HeaderAt(h.mem, bs[i].addr).prev == Back(w, bs[i].addr, AddrOf(bs, i - 1))
  {
    assert HeaderAt(h.mem, bs[i].addr) == Headers(h.mem, bs)[i];
  }

  lemma RemoveIs(h: Heap, p: nat, prev: nat, next: nat)
    requires HeaderAt(h.mem, p).prev == prev && HeaderAt(h.mem, p).next == next
    ensures Remove(h, p) == Heap(SetNextUnlessNull(SetPrevUnlessNull(h.mem, next, prev), prev, next),
                                 if p == h.head then next else h.head)
  {
    hide HeaderAt, SetNextUnlessNull, SetPrevUnlessNull;
  }

  lemma RemoveHeaders(h: Heap, bs: seq<Block>, i: nat)
    requires i < |bs| && Spaced(bs, |h.mem|) && Forward(h, bs)
    requires HeaderAt(h.mem, bs[i].addr).prev == AddrOf(bs, i - 1)
    ensures var prev, next := AddrOf(bs, i - 1), AddrOf(bs, i + 1);
            var after := Remove(h, bs[i].addr);
            && Headers(after.mem, bs) == WithNext(WithPrev(Headers(h.mem, bs), i + 1, prev), i - 1, next)
            && after.head == (if i == 0 then next else h.head)
            && Untouched(h.mem, after.mem, Beside(bs, i + 1) + Beside(bs, i - 1))
  {
    hide HeaderAt, SetPrevUnlessNull, SetNextUnlessNull, Headers, WithPrev, WithNext, Beside, Untouched, Forward,
         BackwardExcept, AddrOf, Remove, Spaced;
    var prev, next := AddrOf(bs, i - 1), AddrOf(bs, i + 1);
    NextAt(h, bs, i);
    RemoveIs(h, bs[i].addr, prev, next);
    AddrFits(bs, |h.mem|, i - 1);
    AddrFits(bs, |h.mem|, i + 1);
    var a := SetPrevUnlessNull(h.mem, next, prev);
    PrevIfAnyIn(h.mem, bs, i + 1, prev);
    SameLength(h.mem, a, Beside(bs, i + 1));
    NextIfAnyIn(a, bs, i - 1, next);
    UntouchedBoth(h.mem, a, SetNextUnlessNull(a, prev, next), Beside(bs, i + 1), Beside(bs, i - 1));
  }

  lemma HeadersWithout(m: Memory, bs: seq<Block>, i: nat)
    requires i < |bs|
    ensures Headers(m, Without(bs, i)) == Without(Headers(m, bs), i)
  {
  }

  /** Unlinking a block whose own back link is right gives the list without it, and repairs its successor's link. */
  lemma RemoveLinks(h: Heap, bs: seq<Block>, i: nat, w: map<nat, nat>)
    requires i < |bs| && bs[i].addr !in w && Spaced(bs, |h.mem|) && Forward(h, bs) && BackwardExcept(h, bs, w)
    ensures var after := Remove(h, bs[i].addr);
            && Forward(after, Without(bs, i))
            && BackwardExcept(after, Without(bs, i), w - Beside(bs, i + 1))
            && Untouched(h.mem, after.mem, Beside(bs, i + 1) + Beside(bs, i - 1))
    ensures Spaced(Without(bs, i), |h.mem|)
  {
    var after := Remove(h, bs[i].addr);
    PrevAt(h, bs, i, w);
    RemoveHeaders(h, bs, i);
    HeadersWithout(after.mem, bs, i);
    SpacedWithout(bs, i, |h.mem|);
    WithoutLinks(Headers(h.mem, bs), bs, i, w, |h.mem|);
    assert AddrOf(Without(bs, i), 0) == if i == 0 then AddrOf(bs, 1) else AddrOf(bs, 0);
    hide HeaderAt, Remove, Headers, Spaced, Untouched, WithPrev, WithNext, NextLinks, PrevLinks, AddrOf, Without,
         Beside;
  }

  lemma SpacedWithout(bs: seq<Block>, i: nat, limit: nat)
    requires Spaced(bs, limit) && i < |bs|
    ensures Spaced(Without(bs, i), limit)
  {
  }

  lemma WithoutLinks(hs: seq<Header>, bs: seq<Block>, i: nat, w: map<nat, nat>, limit: nat)
    requires |hs| == |bs| && i < |bs| && NextLinks(hs, bs) && PrevLinks(hs, bs, w) && Spaced(bs, limit)
    ensures var after := Without(WithNext(WithPrev(hs, i + 1, AddrOf(bs, i - 1)), i - 1, AddrOf(bs, i + 1)), i);
            && NextLinks(after, Without(bs, i))
            && PrevLinks(after, Without(bs, i), w - Beside(bs, i + 1))
  {
    hide WithNext, WithPrev, AddrOf, NextLinks, PrevLinks, Without, Beside, Spaced;
    var relinked := WithNext(WithPrev(hs, i + 1, AddrOf(bs, i - 1)), i - 1, AddrOf(bs, i + 1));
    var after, left, w' := Without(relinked, i), Without(bs, i), w - Beside(bs, i + 1);
    forall j | 0 <= j < |left|
      ensures after[j].canary == FREE_CANARY && after[j].size == left[j].size && after[j].next == AddrOf(left, j + 1)
      ensures after[j].prev == Back(w', left[j].addr, AddrOf(left, j - 1))
    {
      var from := if j < i then j else j + 1;
      LinksOf(hs, bs, w, from);
      BesideOnly(bs, limit, from, i + 1);
      RelinkedIndex(hs, bs, i, w, from);
      WithoutAddr(bs, i, j);
      WithoutAt(relinked, i, j);
    }
    PointwiseLinks(after, left, w');
  }

  lemma LinksOf(hs: seq<Header>, bs: seq<Block>, w: map<nat, nat>, j: nat)
    requires |hs| == |bs| && j < |bs| && NextLinks(hs, bs) && PrevLinks(hs, bs, w)
    ensures hs[j].canary == FREE_CANARY && hs[j].size == bs[j].size && hs[j].next == AddrOf(bs, j + 1)
    ensures hs[j].prev == Back(w, bs[j].addr, AddrOf(bs, j - 1))
  {
  }

  lemma PointwiseLinks(hs: seq<Header>, bs: seq<Block>, w: map<nat, nat>)
    requires |hs| == |bs|
    requires forall j :: 0 <= j < |bs| ==>
               && hs[j].canary == FREE_CANARY && hs[j].size == bs[j].size && hs[j].next == AddrOf(bs, j + 1)
               && hs[j].prev == Back(w, bs[j].addr, AddrOf(bs, j - 1))
    ensures NextLinks(hs, bs) && PrevLinks(hs, bs, w)
  {
  }

  /** Block `j` once its neighbour `i` is unlinked. */
  lemma RelinkedIndex(hs: seq<Header>, bs: seq<Block>, i: nat, w: map<nat, nat>, j: nat)
    requires |hs| == |bs| && i < |bs| && j < |bs| && j != i
    requires hs[j].canary == FREE_CANARY && hs[j].size == bs[j].size && hs[j].next == AddrOf(bs, j + 1)
    requires hs[j].prev == Back(w, bs[j].addr, AddrOf(bs, j - 1))
    ensures var f := WithNext(WithPrev(hs, i + 1, AddrOf(bs, i - 1)), i - 1, AddrOf(bs, i + 1))[j];
            && f.canary == FREE_CANARY && f.size == bs[j].size
            && f.next == AddrOf(bs, if j + 1 == i then i + 1 else j + 1)
            && f.prev == if j == i + 1 then AddrOf(bs, i - 1) else Back(w, bs[j].addr, AddrOf(bs, j - 1))
  {
  }

  lemma WithoutAt<T>(s: seq<T>, i: nat, j: nat)
    requires i < |s| && j < |s| - 1
    ensures |Without(s, i)| == |s| - 1
    ensures Without(s, i)[j] == s[if j < i then j else j + 1]
  {
  }

  lemma WithoutAddr(bs: seq<Block>, i: nat, j: nat)
    requires i < |bs| && j < |bs| - 1
    ensures Without(bs, i)[j] == bs[if j < i then j else j + 1]
    ensures AddrOf(Without(bs, i), j + 1) == AddrOf(bs, if j + 1 < i then j + 1 else j + 2)
    ensures AddrOf(Without(bs, i), j - 1) == AddrOf(bs, if j - 1 < i then j - 1 else j)
  {
  }

  // ----- Linking in

  /** The headers after block `i` is linked between its neighbours. */
  function LinkedIn(hs: seq<Header>, bs: seq<Block>, i: nat, repair: bool): seq<Header>
    requires |hs| == |bs| && i < |bs|
  {
    var p := bs[i].addr;
    if |bs| == 1 then hs
    else if i == 0 then WithPrev(WithNext(hs, 0, bs[1].addr), 1, p)
    else
      var left := WithNext(WithPrev(WithNext(hs, i, AddrOf(bs, i + 1)), i, bs[i - 1].addr), i - 1, p);
      if repair then WithPrev(left, i + 1, p) else left
  }

  lemma InsertHeaders(h: Heap, bs: seq<Block>, i: nat, repair: bool)
    requires i < |bs| && Spaced(bs, |h.mem|)
    requires Forward(h, Without(bs, i))
    ensures var after := Insert(h, AddrOf(bs, i - 1), bs[i].addr, repair);
            && Headers(after.mem, bs) == LinkedIn(Headers(h.mem, bs), bs, i, repair)
            && after.head == AddrOf(bs, 0)
            && Untouched(h.mem, after.mem, Beside(bs, i - 1) + Beside(bs, i) + Beside(bs, i + 1))
  {
    hide HeaderAt, SetPrev, SetNext, Headers, WithPrev, WithNext, Untouched, NextLinks, PrevLinks;
    var p := bs[i].addr;
    var all := Beside(bs, i - 1) + Beside(bs, i) + Beside(bs, i + 1);
    UntouchedSelf(h.mem, all);
    SpacedWithout(bs, i, |h.mem|);
    if |bs| == 1 {
    } else if i == 0 {
      assert h.head == bs[1].addr;
      var a := SetNext(h.mem, p, h.head);
      SetNextIn(h.mem, bs, 0, h.head);
      UntouchedStep(h.mem, h.mem, a, all, {p});
      SameLength(h.mem, a, all);
      SetPrevIn(a, bs, 1, p);
      UntouchedStep(h.mem, a, SetPrev(a, h.head, p), all, {h.head});
    } else {
      NextAt(h, Without(bs, i), i - 1);
      InsertAfterHeaders(h, bs, i, repair, all);
    }
  }

  lemma InsertAfterIs(h: Heap, before: nat, p: nat, next: nat, repair: bool)
    requires h.head != 0 && before != 0 && HeaderAt(h.mem, before).next == next
    ensures var d := SetNext(SetPrev(SetNext(h.mem, p, next), p, before), before, p);
            Insert(h, before, p, repair) == Heap(if repair then SetPrevUnlessNull(d, next, p) else d, h.head)
  {
    hide HeaderAt, SetNext, SetPrev, SetPrevUnlessNull;
  }

  lemma InsertAfterHeaders(h: Heap, bs: seq<Block>, i: nat, repair: bool, all: set<nat>)
    requires 0 < i < |bs| && Spaced(bs, |h.mem|)
    requires h.head == bs[0].addr && HeaderAt(h.mem, bs[i - 1].addr).next == AddrOf(bs, i + 1)
    requires {bs[i].addr} <= all && {bs[i - 1].addr} <= all && Beside(bs, i + 1) <= all
    ensures var after := Insert(h, bs[i - 1].addr, bs[i].addr, repair);
            && Headers(after.mem, bs) == LinkedIn(Headers(h.mem, bs), bs, i, repair)
            && after.head == h.head
            && Untouched(h.mem, after.mem, all)
  {
    hide HeaderAt, SetNext, SetPrev, SetPrevUnlessNull, Untouched, Headers, Beside, WithPrev, WithNext, AddrOf, Insert;
    var p, before, next := bs[i].addr, bs[i - 1].addr, AddrOf(bs, i + 1);
    assert h.head != 0 && before != 0;
    InsertAfterIs(h, before, p, next, repair);
    AddrFits(bs, |h.mem|, i + 1);
    UntouchedSelf(h.mem, all);
    var a := SetNext(h.mem, p, next);
    SetNextIn(h.mem, bs, i, next);
    UntouchedStep(h.mem, h.mem, a, all, {p});
    SameLength(h.mem, a, all);
    var b := SetPrev(a, p, before);
    SetPrevIn(a, bs, i, before);
    UntouchedStep(h.mem, a, b, all, {p});
    SameLength(h.mem, b, all);
    var d := SetNext(b, before, p);
    SetNextIn(b, bs, i - 1, p);
    UntouchedStep(h.mem, b, d, all, {before});
    SameLength(h.mem, d, all);
    PrevIfAnyIn(d, bs, i + 1, p);
    UntouchedStep(h.mem, d, SetPrevUnlessNull(d, next, p), all, Beside(bs, i + 1));
  }

  /** One more step inside the same headers. */
  lemma UntouchedStep(m: Memory, before: Memory, after: Memory, all: set<nat>, ps: set<nat>)
    requires Untouched(m, before, all) && Untouched(before, after, ps) && ps <= all
    ensures Untouched(m, after, all)
  {
  }

  lemma UntouchedSelf(m: Memory, all: set<nat>)
    ensures Untouched(m, m, all)
  {
  }

  /** Block `j` keeps a back link that says `v`. */
  function Spoiled(w: map<nat, nat>, bs: seq<Block>, j: int, v: nat): map<nat, nat> {
    if 0 <= j < |bs| && bs[j].addr !in w then w[bs[j].addr := v] else w
  }

  /** The exceptions after an insertion: as written it leaves the successor of a block put behind another with a back
      link past that block; the new block's is right, and so is the old first block's after an insertion in front of
      it. */
  function WrongAfterInsert(bs: seq<Block>, i: nat, repair: bool, w: map<nat, nat>): map<nat, nat> {
    if i == 0 || repair then w - Beside(bs, i) - Beside(bs, i + 1)
    else Spoiled(w - Beside(bs, i), bs, i + 1, AddrOf(bs, i - 1))
  }

  lemma LinkedInLinks(hs: seq<Header>, bs: seq<Block>, i: nat, repair: bool, w: map<nat, nat>, limit: nat)
    requires |hs| == |bs| && i < |bs| && hs[i] == Header(FREE_CANARY, bs[i].size, 0, 0) && Spaced(bs, limit)
    requires NextLinks(Without(hs, i), Without(bs, i)) && PrevLinks(Without(hs, i), Without(bs, i), w)
    ensures var after := LinkedIn(hs, bs, i, repair);
            && |after| == |bs|
            && NextLinks(after, bs)
            && PrevLinks(after, bs, WrongAfterInsert(bs, i, repair, w))
            && (!repair && 0 < i < |bs| - 1 && bs[i + 1].addr !in w ==> after[i + 1].prev == bs[i - 1].addr)
  {
    var after, w' := LinkedIn(hs, bs, i, repair), WrongAfterInsert(bs, i, repair, w);
    forall j | 0 <= j < |bs|
      ensures after[j].canary == FREE_CANARY && after[j].size == bs[j].size && after[j].next == AddrOf(bs, j + 1)
      ensures after[j].prev == Back(w', bs[j].addr, AddrOf(bs, j - 1))
    {
      if j != i {
        SkipsIndex(hs, bs, i, j, w);
      }
      LinkedInIndex(hs, bs, i, repair, j, w, limit);
    }
    if !repair && 0 < i < |bs| - 1 {
      assert Without(hs, i)[i] == hs[i + 1] && Without(bs, i)[i] == bs[i + 1];
    }
  }

  predicate LinkedInAt(hs: seq<Header>, bs: seq<Block>, i: nat, repair: bool, j: nat, w: map<nat, nat>)
    requires |hs| == |bs| && i < |bs| && j < |bs|
  {
    var f := LinkedIn(hs, bs, i, repair)[j];
    && f.canary == FREE_CANARY && f.size == bs[j].size && f.next == AddrOf(bs, j + 1)
    && f.prev == Back(WrongAfterInsert(bs, i, repair, w), bs[j].addr, AddrOf(bs, j - 1))
  }

  /** The links of block `j` when the list skips block `i`. */
  predicate SkipsAt(hs: seq<Header>, bs: seq<Block>, i: nat, j: nat, w: map<nat, nat>)
    requires |hs| == |bs| && i < |bs| && j < |bs|
  {
    && hs[j].canary == FREE_CANARY && hs[j].size == bs[j].size
    && hs[j].next == AddrOf(bs, if j + 1 == i then i + 1 else j + 1)
    && hs[j].prev == Back(w, bs[j].addr, AddrOf(bs, if j == i + 1 then i - 1 else j - 1))
  }

  lemma SkipsIndex(hs: seq<Header>, bs: seq<Block>, i: nat, j: nat, w: map<nat, nat>)
    requires |hs| == |bs| && i < |bs| && j < |bs| && j != i
    requires NextLinks(Without(hs, i), Without(bs, i)) && PrevLinks(Without(hs, i), Without(bs, i), w)
    ensures SkipsAt(hs, bs, i, j, w)
  {
    hide AddrOf, Without;
    var at := if j < i then j else j - 1;
    WithoutAddr(bs, i, at);
    WithoutAt(hs, i, at);
    WithoutAt(bs, i, at);
  }

  lemma LinkedInIndex(hs: seq<Header>, bs: seq<Block>, i: nat, repair: bool, j: nat, w: map<nat, nat>, limit: nat)
    requires |hs| == |bs| && i < |bs| && j < |bs| && Spaced(bs, limit)
    requires if j == i then hs[i] == Header(FREE_CANARY, bs[i].size, 0, 0) else SkipsAt(hs, bs, i, j, w)
    ensures LinkedInAt(hs, bs, i, repair, j, w)
  {
    BesideOnly(bs, limit, j, i);
    BesideOnly(bs, limit, j, i + 1);
  }

  /** Inserting a fresh block after its predecessor puts it in the list; as written, a middle insertion leaves the
      successor's back link naming the block before. */
  lemma InsertLinks(h: Heap, bs: seq<Block>, i: nat, repair: bool, w: map<nat, nat>)
    requires i < |bs| && Spaced(bs, |h.mem|)
    requires Headers(h.mem, bs)[i] == Header(FREE_CANARY, bs[i].size, 0, 0)
    requires Forward(h, Without(bs, i)) && BackwardExcept(h, Without(bs, i), w)
    ensures var after := Insert(h, AddrOf(bs, i - 1), bs[i].addr, repair);
            && Forward(after, bs)
            && BackwardExcept(after, bs, WrongAfterInsert(bs, i, repair, w))
            && (!repair && 0 < i < |bs| - 1 && bs[i + 1].addr !in w ==>
                  Headers(after.mem, bs)[i + 1].prev == bs[i - 1].addr)
            && Untouched(h.mem, after.mem, Beside(bs, i - 1) + Beside(bs, i) + Beside(bs, i + 1))
  {
    hide HeaderAt, Insert, Untouched, LinkedIn, Headers, NextLinks, PrevLinks, Spaced, Without, WrongAfterInsert;
    HeadersWithout(h.mem, bs, i);
    InsertHeaders(h, bs, i, repair);
    LinkedInLinks(Headers(h.mem, bs), bs, i, repair, w, |h.mem|);
  }

  // ----- Splitting

  /** The block list while block `i` is cut: its size field is 16 too large until it is retyped. */
  function Cut(bs: seq<Block>, i: nat, request: nat): seq<Block>
    requires i < |bs|
  {
    bs[i := Block(bs[i].addr, request + HEADER)]
  }

  /** The exceptions after a split: as written it leaves the block behind the remainder with a back link that names the
      block split. */
  function WrongAfterSplit(bs: seq<Block>, i: nat, repair: bool, w: map<nat, nat>): map<nat, nat> {
    if repair then w - Beside(bs, i + 1) - Beside(bs, i + 2)
    else Spoiled(w - Beside(bs, i + 1), bs, i + 2, AddrOf(bs, i))
  }

  function SplitApart(hs: seq<Header>, bs: seq<Block>, i: nat, request: nat, repair: bool): seq<Header>
    requires |hs| == |bs| && i + 1 < |bs|
  {
    var cut := WithFree(WithSize(hs, i, request + HEADER), i + 1, bs[i + 1].size);
    var left := WithNext(WithNext(WithPrev(cut, i + 1, bs[i].addr), i + 1, AddrOf(bs, i + 2)), i, bs[i + 1].addr);
    if repair then WithPrev(left, i + 2, bs[i + 1].addr) else left
  }

  lemma SplitHeaders(m: Memory, bs: seq<Block>, i: nat, request: nat, repair: bool, all: set<nat>)
    requires i + 1 < |bs| && Spaced(bs, |m|) && request + HEADER < U64
    requires Headers(m, bs)[i].next == AddrOf(bs, i + 2)
    requires Headers(m, bs)[i].size == TAG + request + bs[i + 1].size && bs[i + 1].size >= HEADER
    requires bs[i + 1].addr == bs[i].addr + TAG + request
    requires {bs[i].addr} <= all && {bs[i + 1].addr} <= all && Beside(bs, i + 2) <= all
    ensures var after := SplitIfRequired(m, bs[i].addr, request, repair);
            && Headers(after, bs) == SplitApart(Headers(m, bs), bs, i, request, repair)
            && Untouched(m, after, all)
  {
    hide HeaderAt, SetNext, SetPrev, SetSize, NewFree, SetPrevUnlessNull, Untouched, Headers, Beside, WithPrev,
         WithNext, WithSize, WithFree, AddrOf, SplitIfRequired, Spaced;
    var p, rhs, right := bs[i].addr, bs[i + 1].addr, bs[i + 1].size;
    var a := SetSize(m, p, request + HEADER);
    var b := NewFree(a, rhs, right);
    SplitCut(m, bs, i, request, all);
    SplitTakes(m, p, request, repair, AddrOf(bs, i + 2), right);
    SplitRelink(m, b, bs, i, all);
  }

  /** The block shrinks and the new right-hand header is written. */
  lemma SplitCut(m: Memory, bs: seq<Block>, i: nat, request: nat, all: set<nat>)
    requires i + 1 < |bs| && Spaced(bs, |m|) && request + HEADER < U64
    requires {bs[i].addr} <= all && {bs[i + 1].addr} <= all
    ensures var a := SetSize(m, bs[i].addr, request + HEADER);
            var b := NewFree(a, bs[i + 1].addr, bs[i + 1].size);
            && |b| == |m|
            && Headers(b, bs) == WithFree(WithSize(Headers(m, bs), i, request + HEADER), i + 1, bs[i + 1].size)
            && Untouched(m, b, all)
  {
    hide HeaderAt, SetSize, NewFree, Untouched, Headers;
    var a := SetSize(m, bs[i].addr, request + HEADER);
    UntouchedSelf(m, all);
    SetSizeIn(m, bs, i, request + HEADER);
    UntouchedStep(m, m, a, all, {bs[i].addr});
    assert |a| == |m| by {
      SameLength(m, a, all);
    }
    NewFreeIn(a, bs, i + 1, bs[i + 1].size);
    UntouchedStep(m, a, NewFree(a, bs[i + 1].addr, bs[i + 1].size), all, {bs[i + 1].addr});
    SameLength(m, NewFree(a, bs[i + 1].addr, bs[i + 1].size), all);
  }

  lemma SameLength(m: Memory, after: Memory, all: set<nat>)
    requires Untouched(m, after, all)
    ensures |after| == |m|
  {
  }

  lemma SplitTakes(m: Memory, p: nat, request: nat, repair: bool, next: nat, right: nat)
    requires HeaderAt(m, p).next == next && HeaderAt(m, p).size == TAG + request + right && right >= HEADER
    ensures var rhs := p + TAG + request;
            var b := NewFree(SetSize(m, p, request + HEADER), rhs, right);
            var f := SetNext(SetNext(SetPrev(b, rhs, p), rhs, next), p, rhs);
            SplitIfRequired(m, p, request, repair) == if repair then SetPrevUnlessNull(f, next, rhs) else f
  {
    hide HeaderAt, SetNext, SetPrev, SetSize, NewFree, SetPrevUnlessNull;
  }

  /** The link writes of a split. */
  lemma SplitRelink(m: Memory, b: Memory, bs: seq<Block>, i: nat, all: set<nat>)
    requires i + 1 < |bs| && Spaced(bs, |m|) && Untouched(m, b, all)
    requires {bs[i].addr} <= all && {bs[i + 1].addr} <= all && Beside(bs, i + 2) <= all
    ensures var p, rhs, next := bs[i].addr, bs[i + 1].addr, AddrOf(bs, i + 2);
            var hf := WithNext(WithNext(WithPrev(Headers(b, bs), i + 1, p), i + 1, next), i, rhs);
            var f := SetNext(SetNext(SetPrev(b, rhs, p), rhs, next), p, rhs);
            && Headers(f, bs) == hf
            && Headers(SetPrevUnlessNull(f, next, rhs), bs) == WithPrev(hf, i + 2, rhs)
            && Untouched(m, f, all)
            && Untouched(m, SetPrevUnlessNull(f, next, rhs), all)
  {
    hide HeaderAt, SetNext, SetPrev, SetPrevUnlessNull, Untouched, Headers, Beside, WithPrev, AddrOf;
    var p, rhs, next := bs[i].addr, bs[i + 1].addr, AddrOf(bs, i + 2);
    SameLength(m, b, all);
    AddrFits(bs, |m|, i + 2);
    var d := SetPrev(b, rhs, p);
    SetPrevIn(b, bs, i + 1, p);
    UntouchedStep(m, b, d, all, {rhs});
    var e := SetNext(d, rhs, next);
    SetNextIn(d, bs, i + 1, next);
    UntouchedStep(m, d, e, all, {rhs});
    var f := SetNext(e, p, rhs);
    SetNextIn(e, bs, i, rhs);
    UntouchedStep(m, e, f, all, {p});
    PrevIfAnyIn(f, bs, i + 2, rhs);
    UntouchedStep(m, f, SetPrevUnlessNull(f, next, rhs), all, Beside(bs, i + 2));
  }

  lemma SplitApartLinks(hs: seq<Header>, bs: seq<Block>, i: nat, request: nat, repair: bool, w: map<nat, nat>,
                        limit: nat)
    requires |hs| == |bs| && i + 1 < |bs| && Spaced(bs, limit)
    requires NextLinks(Without(hs, i + 1), Uncut(bs, i, request))
    requires PrevLinks(Without(hs, i + 1), Uncut(bs, i, request), w)
    ensures var after := SplitApart(hs, bs, i, request, repair);
            && |after| == |bs|
            && NextLinks(after, Cut(bs, i, request))
            && PrevLinks(after, Cut(bs, i, request), WrongAfterSplit(bs, i, repair, w))
            && (!repair && i + 2 < |bs| && bs[i + 2].addr !in w ==> after[i + 2].prev == bs[i].addr)
  {
    var after, cut := SplitApart(hs, bs, i, request, repair), Cut(bs, i, request);
    var w' := WrongAfterSplit(bs, i, repair, w);
    forall j | 0 <= j < |bs|
      ensures after[j].canary == FREE_CANARY && after[j].size == cut[j].size && after[j].next == AddrOf(cut, j + 1)
      ensures after[j].prev == Back(w', cut[j].addr, AddrOf(cut, j - 1))
    {
      SplitSkips(hs, bs, i, request, j, w);
      SplitApartIndex(hs, bs, i, request, repair, j, w, limit);
    }
    if !repair && i + 2 < |bs| {
      assert Without(hs, i + 1)[i + 1] == hs[i + 2] && Uncut(bs, i, request)[i + 1] == bs[i + 2];
      assert Uncut(bs, i, request)[i].addr == bs[i].addr;
    }
  }

  predicate SplitApartAt(hs: seq<Header>, bs: seq<Block>, i: nat, request: nat, repair: bool, j: nat, w: map<nat, nat>)
    requires |hs| == |bs| && i + 1 < |bs| && j < |bs|
  {
    var f, cut := SplitApart(hs, bs, i, request, repair)[j], Cut(bs, i, request);
    && f.canary == FREE_CANARY && f.size == cut[j].size && f.next == AddrOf(cut, j + 1)
    && f.prev == Back(WrongAfterSplit(bs, i, repair, w), bs[j].addr, AddrOf(cut, j - 1))
  }

  lemma SplitApartIndex(hs: seq<Header>, bs: seq<Block>, i: nat, request: nat, repair: bool, j: nat, w: map<nat, nat>,
                        limit: nat)
    requires |hs| == |bs| && i + 1 < |bs| && j < |bs| && Spaced(bs, limit)
    requires j != i && j != i + 1 ==> SkipsAt(hs, bs, i + 1, j, w)
    requires j == i ==> hs[j].canary == FREE_CANARY && hs[j].prev == Back(w, bs[i].addr, AddrOf(bs, i - 1))
    ensures SplitApartAt(hs, bs, i, request, repair, j, w)
  {
    assert forall k: int :: AddrOf(Cut(bs, i, request), k) == AddrOf(bs, k);
    BesideOnly(bs, limit, j, i + 1);
    BesideOnly(bs, limit, j, i + 2);
  }

  lemma SplitSkips(hs: seq<Header>, bs: seq<Block>, i: nat, request: nat, j: nat, w: map<nat, nat>)
    requires |hs| == |bs| && i + 1 < |bs| && j < |bs|
    requires NextLinks(Without(hs, i + 1), Uncut(bs, i, request))
    requires PrevLinks(Without(hs, i + 1), Uncut(bs, i, request), w)
    ensures j != i && j != i + 1 ==> SkipsAt(hs, bs, i + 1, j, w)
    ensures j == i ==> hs[j].canary == FREE_CANARY && hs[j].prev == Back(w, bs[i].addr, AddrOf(bs, i - 1))
  {
    hide AddrOf, Without;
    var size := TAG + request + bs[i + 1].size;
    var without := Without(bs, i + 1);
    WithoutAt(bs, i + 1, i);
    if j != i + 1 {
      var at := if j < i + 1 then j else j - 1;
      WithoutAddr(bs, i + 1, at);
      WithoutAt(bs, i + 1, at);
      WithoutAt(hs, i + 1, at);
      ResizedAddr(without, i, size, at + 1);
      ResizedAddr(without, i, size, at - 1);
    }
  }

  /** Resizing a block moves no address. */
  lemma ResizedAddr(bs: seq<Block>, i: nat, size: nat, k: int)
    requires i < |bs|
    ensures AddrOf(bs[i := Block(bs[i].addr, size)], k) == AddrOf(bs, k)
  {
  }

  lemma ResizedHeaders(m: Memory, bs: seq<Block>, i: nat, size: nat)
    requires i < |bs|
    ensures Headers(m, bs[i := Block(bs[i].addr, size)]) == Headers(m, bs)
  {
    hide HeaderAt;
    var resized := bs[i := Block(bs[i].addr, size)];
    forall k | 0 <= k < |bs| ensures Headers(m, resized)[k] == Headers(m, bs)[k] {
      assert resized[k].addr == bs[k].addr;
    }
  }

  lemma ResizedSpaced(bs: seq<Block>, i: nat, size: nat, limit: nat)
    requires Spaced(bs, limit) && i < |bs| && size < U64
    ensures Spaced(bs[i := Block(bs[i].addr, size)], limit)
  {
    var resized := bs[i := Block(bs[i].addr, size)];
    assert forall k :: 0 <= k < |bs| ==> resized[k].addr == bs[k].addr;
  }

  /** The list in which block `i` takes the room of itself and the free block cut from it. */
  function Uncut(bs: seq<Block>, i: nat, request: nat): seq<Block>
    requires i + 1 < |bs|
  {
    Without(bs, i + 1)[i := Block(bs[i].addr, TAG + request + bs[i + 1].size)]
  }

  /** Splitting a block puts the remainder after it; as written, the old successor's back link still names the block. */
  lemma SplitLinks(h: Heap, bs: seq<Block>, i: nat, request: nat, repair: bool, w: map<nat, nat>)
    requires i + 1 < |bs| && Spaced(bs, |h.mem|) && request + HEADER < U64 && bs[i + 1].size >= HEADER
    requires bs[i + 1].addr == bs[i].addr + TAG + request
    requires Forward(h, Uncut(bs, i, request)) && BackwardExcept(h, Uncut(bs, i, request), w)
    ensures var after := Heap(SplitIfRequired(h.mem, bs[i].addr, request, repair), h.head);
            && Forward(after, Cut(bs, i, request))
            && BackwardExcept(after, Cut(bs, i, request), WrongAfterSplit(bs, i, repair, w))
            && (!repair && i + 2 < |bs| && bs[i + 2].addr !in w ==>
                  Headers(after.mem, bs)[i + 2].prev == bs[i].addr)
            && Untouched(h.mem, after.mem, Beside(bs, i) + Beside(bs, i + 1) + Beside(bs, i + 2))
    ensures Spaced(Cut(bs, i, request), |h.mem|)
  {
    hide HeaderAt, SplitIfRequired, Untouched, Headers, NextLinks, PrevLinks, AddrOf, SplitApart, Without,
         WrongAfterSplit;
    var all := Beside(bs, i) + Beside(bs, i + 1) + Beside(bs, i + 2);
    var size := TAG + request + bs[i + 1].size;
    var without := Without(bs, i + 1);
    WithoutAt(bs, i + 1, i);
    HeadersWithout(h.mem, bs, i + 1);
    ResizedHeaders(h.mem, without, i, size);
    UncutHead(h, bs, i, request);
    SplitHeaders(h.mem, bs, i, request, repair, all);
    SplitApartLinks(Headers(h.mem, bs), bs, i, request, repair, w, |h.mem|);
    var after := SplitIfRequired(h.mem, bs[i].addr, request, repair);
    ResizedHeaders(after, bs, i, request + HEADER);
    ResizedAddr(bs, i, request + HEADER, 0);
    ResizedSpaced(bs, i, request + HEADER, |h.mem|);
  }

  lemma UncutHead(h: Heap, bs: seq<Block>, i: nat, request: nat)
    requires i + 1 < |bs| && Forward(h, Uncut(bs, i, request))
    ensures h.head == AddrOf(bs, 0)
    ensures Headers(h.mem, bs)[i].next == AddrOf(bs, i + 2)
    ensures Headers(h.mem, bs)[i].size == TAG + request + bs[i + 1].size
  {
    var uncut := Uncut(bs, i, request);
    assert uncut[i].addr == bs[i].addr;
    assert uncut[0].addr == bs[0].addr;
    assert Headers(h.mem, uncut)[i] == Headers(h.mem, bs)[i];
    assert i + 1 < |uncut| ==> uncut[i + 1] == bs[i + 2];
  }

  // ----- Coalescing

  /** The list in which block `i` has swallowed the block after it. */
  function Merged(bs: seq<Block>, i: nat): seq<Block>
    requires i + 1 < |bs|
  {
    Without(bs, i + 1)[i := Block(bs[i].addr, bs[i].size + bs[i + 1].size)]
  }

  predicate Adjacent(bs: seq<Block>, i: int) {
    0 <= i && i + 1 < |bs| && bs[i].addr + bs[i].size == bs[i + 1].addr
  }

  lemma CoalesceIs(m: Memory, p: nat, size: nat, next: nat, nextSize: nat, after: nat)
    requires HeaderAt(m, p).size == size && HeaderAt(m, p).next == next && next != 0 && next == p + size
    requires HeaderAt(m, next).size == nextSize && HeaderAt(m, next).next == after
    ensures CoalesceNext(m, p) == SetPrevUnlessNull(SetNext(SetSize(m, p, size + nextSize), p, after), after, p)
  {
    hide HeaderAt, SetSize, SetNext, SetPrevUnlessNull;
  }

  lemma CoalesceHeaders(h: Heap, bs: seq<Block>, i: nat)
    requires Adjacent(bs, i) && Spaced(bs, |h.mem|) && Forward(h, bs)
    requires bs[i].size + bs[i + 1].size < U64
    ensures var after := CoalesceNext(h.mem, bs[i].addr);
            && Headers(after, bs) ==
               WithPrev(WithNext(WithSize(Headers(h.mem, bs), i, bs[i].size + bs[i + 1].size), i, AddrOf(bs, i + 2)),
                        i + 2, bs[i].addr)
            && Untouched(h.mem, after, Beside(bs, i) + Beside(bs, i + 2))
  {
    hide HeaderAt, SetSize, SetNext, SetPrevUnlessNull, Untouched, Headers, Forward, BackwardExcept, WithNext,
         WithPrev, WithSize, CoalesceNext, AddrOf;
    var all := Beside(bs, i) + Beside(bs, i + 2);
    var p, sum, after := bs[i].addr, bs[i].size + bs[i + 1].size, AddrOf(bs, i + 2);
    NextAt(h, bs, i);
    NextAt(h, bs, i + 1);
    CoalesceIs(h.mem, p, bs[i].size, bs[i + 1].addr, bs[i + 1].size, after);
    AddrFits(bs, |h.mem|, i + 2);
    UntouchedSelf(h.mem, all);
    var a := SetSize(h.mem, p, sum);
    SetSizeIn(h.mem, bs, i, sum);
    UntouchedStep(h.mem, h.mem, a, all, {p});
    SameLength(h.mem, a, all);
    var b := SetNext(a, p, after);
    SetNextIn(a, bs, i, after);
    UntouchedStep(h.mem, a, b, all, {p});
    SameLength(h.mem, b, all);
    PrevIfAnyIn(b, bs, i + 2, p);
    UntouchedStep(h.mem, b, SetPrevUnlessNull(b, after, p), all, Beside(bs, i + 2));
  }

  lemma MergedLinks(hs: seq<Header>, bs: seq<Block>, i: nat, w: map<nat, nat>, limit: nat)
    requires |hs| == |bs| && i + 1 < |bs| && NextLinks(hs, bs) && PrevLinks(hs, bs, w) && Spaced(bs, limit)
    ensures var sized := WithSize(hs, i, bs[i].size + bs[i + 1].size);
            var changed := WithPrev(WithNext(sized, i, AddrOf(bs, i + 2)), i + 2, bs[i].addr);
            && NextLinks(Without(changed, i + 1), Merged(bs, i))
            && PrevLinks(Without(changed, i + 1), Merged(bs, i), w - Beside(bs, i + 1) - Beside(bs, i + 2))
  {
    hide WithNext, WithPrev, WithSize, AddrOf, NextLinks, PrevLinks, Without, Spaced, Beside;
    var sum := bs[i].size + bs[i + 1].size;
    var changed := WithPrev(WithNext(WithSize(hs, i, sum), i, AddrOf(bs, i + 2)), i + 2, bs[i].addr);
    var after, without, merged := Without(changed, i + 1), Without(bs, i + 1), Merged(bs, i);
    var w' := w - Beside(bs, i + 1) - Beside(bs, i + 2);
    WithoutAt(bs, i + 1, i);
    WithoutAt(changed, i + 1, i);
    forall j | 0 <= j < |merged|
      ensures after[j].canary == FREE_CANARY && after[j].size == merged[j].size
      ensures after[j].next == AddrOf(merged, j + 1)
      ensures after[j].prev == Back(w', merged[j].addr, AddrOf(merged, j - 1))
    {
      var from := if j <= i then j else j + 1;
      LinksOf(hs, bs, w, from);
      BesideOnly(bs, limit, from, i + 1);
      BesideOnly(bs, limit, from, i + 2);
      MergedIndex(hs, bs, i, w, from);
      WithoutAddr(bs, i + 1, j);
      WithoutAt(changed, i + 1, j);
      WithoutAt(bs, i + 1, j);
      ResizedAddr(without, i, sum, j + 1);
      ResizedAddr(without, i, sum, j - 1);
    }
    PointwiseLinks(after, merged, w');
  }

  lemma MergedIndex(hs: seq<Header>, bs: seq<Block>, i: nat, w: map<nat, nat>, j: nat)
    requires |hs| == |bs| && i + 1 < |bs| && j < |bs| && j != i + 1
    requires hs[j].canary == FREE_CANARY && hs[j].size == bs[j].size && hs[j].next == AddrOf(bs, j + 1)
    requires hs[j].prev == Back(w, bs[j].addr, AddrOf(bs, j - 1))
    ensures var sized := WithSize(hs, i, bs[i].size + bs[i + 1].size);
            var f := WithPrev(WithNext(sized, i, AddrOf(bs, i + 2)), i + 2, bs[i].addr)[j];
            && f.canary == FREE_CANARY
            && f.size == (if j == i then bs[i].size + bs[i + 1].size else bs[j].size)
            && f.next == AddrOf(bs, if j == i then i + 2 else j + 1)
            && f.prev == if j == i + 2 then AddrOf(bs, i) else Back(w, bs[j].addr, AddrOf(bs, j - 1))
  {
  }

  /** Coalescing with an adjacent successor merges the two, and puts right the back link of the block after them. */
  lemma CoalesceLinks(h: Heap, bs: seq<Block>, i: nat, w: map<nat, nat>)
    requires Adjacent(bs, i) && Spaced(bs, |h.mem|) && Forward(h, bs) && BackwardExcept(h, bs, w)
    requires bs[i].size + bs[i + 1].size < U64
    ensures var after := Heap(CoalesceNext(h.mem, bs[i].addr), h.head);
            && Forward(after, Merged(bs, i))
            && BackwardExcept(after, Merged(bs, i), w - Beside(bs, i + 1) - Beside(bs, i + 2))
            && Untouched(h.mem, after.mem, Beside(bs, i) + Beside(bs, i + 2))
    ensures Spaced(Merged(bs, i), |h.mem|)
  {
    hide HeaderAt, Untouched, Headers, NextLinks, PrevLinks, CoalesceNext, WithNext, WithPrev, WithSize, Spaced,
         Without, AddrOf, Beside;
    var after := CoalesceNext(h.mem, bs[i].addr);
    var sum := bs[i].size + bs[i + 1].size;
    var without := Without(bs, i + 1);
    CoalesceHeaders(h, bs, i);
    MergedLinks(Headers(h.mem, bs), bs, i, w, |h.mem|);
    HeadersWithout(after, bs, i + 1);
    WithoutAt(bs, i + 1, i);
    ResizedHeaders(after, without, i, sum);
    SpacedWithout(bs, i + 1, |h.mem|);
    ResizedSpaced(without, i, sum, |h.mem|);
    MergedHead(bs, i);
  }

  lemma MergedHead(bs: seq<Block>, i: nat)
    requires i + 1 < |bs|
    ensures AddrOf(Merged(bs, i), 0) == AddrOf(bs, 0)
  {
  }

  /** A block whose successor does not touch it is left alone. */
  lemma NoCoalesce(h: Heap, bs: seq<Block>, i: nat)
    requires i < |bs| && !Adjacent(bs, i) && Spaced(bs, |h.mem|) && Forward(h, bs)
    ensures CoalesceNext(h.mem, bs[i].addr) == h.mem
  {
    hide HeaderAt, Headers, NextLinks, PrevLinks;
    NextAt(h, bs, i);
  }

  // ----- The two operations whole

  /** What allocate does to memory once it has found the block at `p`. */
  function Carve(h: Heap, p: nat, size: nat, repair: bool): Heap {
    var cut := Remove(Heap(SplitIfRequired(h.mem, p, size, repair), h.head), p);
    Heap(NewTag(cut.mem, p, ALLOCATED_CANARY, size), cut.head)
  }

  /** What free does to memory, given the block `before` after which the freed one belongs. */
  function GiveBack(h: Heap, p: nat, before: nat, repair: bool): Heap {
    var size := HeaderAt(h.mem, p).size + TAG;
    var linked := Insert(Heap(NewFree(h.mem, p, size), h.head), before, p, repair);
    Heap(CoalescePrevious(CoalesceNext(linked.mem, p), p), linked.head)
  }

  function Addrs(bs: seq<Block>): set<nat> {
    set i | 0 <= i < |bs| :: bs[i].addr
  }

  lemma BesideAddrs(bs: seq<Block>, j: int)
    ensures Beside(bs, j) <= Addrs(bs)
  {
  }

  lemma ResizedAddrs(bs: seq<Block>, i: nat, size: nat)
    requires i < |bs|
    ensures Addrs(bs[i := Block(bs[i].addr, size)]) == Addrs(bs)
  {
    var resized := bs[i := Block(bs[i].addr, size)];
    forall a ensures a in Addrs(resized) <==> a in Addrs(bs) {
      if k :| 0 <= k < |bs| && resized[k].addr == a {
        assert bs[k].addr == a;
      }
      if k :| 0 <= k < |bs| && bs[k].addr == a {
        assert resized[k].addr == a;
      }
    }
  }

  lemma MoreUntouched(m: Memory, after: Memory, ps: set<nat>, qs: set<nat>)
    requires Untouched(m, after, ps) && ps <= qs
    ensures Untouched(m, after, qs)
  {
  }

  /** A change confined to one block's header leaves the list without that block alone. */
  lemma OthersKept(m: Memory, after: Memory, bs: seq<Block>, i: nat)
    requires Spaced(bs, |m|) && i < |bs| && Untouched(m, after, {bs[i].addr})
    ensures Headers(after, Without(bs, i)) == Headers(m, Without(bs, i))
  {
    hide HeaderAt, Untouched;
    var rest := Without(bs, i);
    forall j | 0 <= j < |rest| ensures HeaderAt(after, rest[j].addr) == HeaderAt(m, rest[j].addr) {
      WithoutAt(bs, i, j);
      HeaderSame(m, after, {bs[i].addr}, rest[j].addr);
    }
  }

  /** Retyping an unlinked block as allocated. */
  lemma TagUnlinked(h: Heap, bs: seq<Block>, i: nat, size: nat, w: map<nat, nat>)
    requires Spaced(bs, |h.mem|) && i < |bs| && size < U64
    requires Forward(h, Without(bs, i)) && BackwardExcept(h, Without(bs, i), w)
    ensures var after := Heap(NewTag(h.mem, bs[i].addr, ALLOCATED_CANARY, size), h.head);
            && Forward(after, Without(bs, i)) && BackwardExcept(after, Without(bs, i), w)
            && Headers(after.mem, Without(bs, i)) == Headers(h.mem, Without(bs, i))
            && Untouched(h.mem, after.mem, {bs[i].addr})
            && HeaderAt(after.mem, bs[i].addr).canary == ALLOCATED_CANARY
            && HeaderAt(after.mem, bs[i].addr).size == size
  {
    hide HeaderAt, NewTag, Untouched, Headers, Without, NextLinks, PrevLinks, AddrOf;
    NewTagEffect(h.mem, bs[i].addr, ALLOCATED_CANARY, size);
    OthersKept(h.mem, NewTag(h.mem, bs[i].addr, ALLOCATED_CANARY, size), bs, i);
  }

  /** Taking a whole block whose own back link is right. */
  lemma CarveWhole(h: Heap, bs: seq<Block>, i: nat, size: nat, repair: bool, w: map<nat, nat>)
    requires i < |bs| && Spaced(bs, |h.mem|) && Forward(h, bs) && BackwardExcept(h, bs, w) && bs[i].addr !in w
    requires size + TAG <= bs[i].size < size + TAG + HEADER
    ensures var after := Carve(h, bs[i].addr, size, repair);
            && Forward(after, Without(bs, i)) && BackwardExcept(after, Without(bs, i), w - Beside(bs, i + 1))
            && Untouched(h.mem, after.mem, Addrs(bs))
            && HeaderAt(after.mem, bs[i].addr).canary == ALLOCATED_CANARY
            && HeaderAt(after.mem, bs[i].addr).size == size
  {
    hide HeaderAt, Remove, NewTag, Untouched, Headers, Without, NextLinks, PrevLinks, AddrOf, Beside, Addrs,
         SplitIfRequired;
    var p := bs[i].addr;
    NextAt(h, bs, i);
    SplitNothing(h.mem, p, size, repair);
    assert SplitIfRequired(h.mem, p, size, repair) == h.mem;
    var cut := Remove(h, p);
    RemoveLinks(h, bs, i, w);
    BesideAddrs(bs, i + 1);
    BesideAddrs(bs, i - 1);
    BesideAddrs(bs, i);
    BesideSelf(bs, i);
    MoreUntouched(h.mem, cut.mem, Beside(bs, i + 1) + Beside(bs, i - 1), Addrs(bs));
    SameLength(h.mem, cut.mem, Addrs(bs));
    TagUnlinked(cut, bs, i, size, w - Beside(bs, i + 1));
    UntouchedStep(h.mem, cut.mem, NewTag(cut.mem, p, ALLOCATED_CANARY, size), Addrs(bs), {p});
  }

  lemma BesideSelf(bs: seq<Block>, i: nat)
    requires i < |bs|
    ensures Beside(bs, i) == {bs[i].addr}
  {
  }

  lemma SplitNothing(m: Memory, p: nat, size: nat, repair: bool)
    requires HeaderAt(m, p).size < size + TAG + HEADER
    ensures SplitIfRequired(m, p, size, repair) == m
  {
    hide HeaderAt;
  }

  /** Taking the front of a block whose own back link is right: `bs` lists the block at its full address and the
      remainder after it. As written, the back link of the block after the remainder goes on naming the block that was
      taken. */
  lemma CarveFront(h: Heap, bs: seq<Block>, i: nat, size: nat, repair: bool, w: map<nat, nat>)
    requires i + 1 < |bs| && Spaced(bs, |h.mem|) && size + HEADER < U64 && bs[i + 1].size >= HEADER
    requires bs[i + 1].addr == bs[i].addr + TAG + size && bs[i].addr !in w
    requires Forward(h, Uncut(bs, i, size)) && BackwardExcept(h, Uncut(bs, i, size), w)
    ensures var after := Carve(h, bs[i].addr, size, repair);
            && Forward(after, Without(bs, i))
            && BackwardExcept(after, Without(bs, i), WrongAfterSplit(bs, i, repair, w))
            && (!repair && i + 2 < |bs| && bs[i + 2].addr !in w ==>
                  HeaderAt(after.mem, bs[i + 2].addr).prev == bs[i].addr)
            && Untouched(h.mem, after.mem, Addrs(bs))
            && HeaderAt(after.mem, bs[i].addr).canary == ALLOCATED_CANARY
            && HeaderAt(after.mem, bs[i].addr).size == size
  {
    hide HeaderAt, Remove, NewTag, Untouched, Headers, NextLinks, PrevLinks, AddrOf, Beside, Addrs, SplitIfRequired,
         Spaced, Without;
    var p := bs[i].addr;
    var all := Addrs(bs);
    var w' := WrongAfterSplit(bs, i, repair, w);
    var cutList := Cut(bs, i, size);
    var split := Heap(SplitIfRequired(h.mem, p, size, repair), h.head);
    SplitLinks(h, bs, i, size, repair, w);
    BesideAddrs(bs, i);
    BesideAddrs(bs, i + 1);
    BesideAddrs(bs, i + 2);
    MoreUntouched(h.mem, split.mem, Beside(bs, i) + Beside(bs, i + 1) + Beside(bs, i + 2), all);
    SameLength(h.mem, split.mem, all);
    var cut := Remove(split, p);
    SplitRight(bs, i, repair, w, |h.mem|);
    ResizedBeside(bs, i, size + HEADER, i + 1);
    RemoveLinks(split, cutList, i, w');
    ResizedAddrs(bs, i, size + HEADER);
    BesideAddrs(cutList, i + 1);
    BesideAddrs(cutList, i - 1);
    UntouchedStep(h.mem, split.mem, cut.mem, all, Beside(cutList, i + 1) + Beside(cutList, i - 1));
    SameLength(h.mem, cut.mem, all);
    WithoutResized(bs, i, size + HEADER);
    TagUnlinked(cut, bs, i, size, w');
    BesideSelf(bs, i);
    var after := NewTag(cut.mem, p, ALLOCATED_CANARY, size);
    UntouchedStep(h.mem, cut.mem, after, all, {p});
    if !repair && i + 2 < |bs| && bs[i + 2].addr !in w {
      PrevAt(split, cutList, i, w');
      StaleSurvives(split, cutList, bs, i, size);
    }
  }

  /** Neither the block split nor its remainder is among the exceptions. */
  lemma SplitRight(bs: seq<Block>, i: nat, repair: bool, w: map<nat, nat>, limit: nat)
    requires i + 1 < |bs| && Spaced(bs, limit) && bs[i].addr !in w
    ensures var w' := WrongAfterSplit(bs, i, repair, w); bs[i].addr !in w' && w' - Beside(bs, i + 1) == w'
  {
    BesideOnly(bs, limit, i, i + 2);
    BesideOnly(bs, limit, i + 1, i + 2);
  }

  lemma ResizedBeside(bs: seq<Block>, i: nat, size: nat, j: int)
    requires i < |bs|
    ensures Beside(bs[i := Block(bs[i].addr, size)], j) == Beside(bs, j)
  {
  }

  lemma WithoutResized(bs: seq<Block>, i: nat, size: nat)
    requires i < |bs|
    ensures Without(bs[i := Block(bs[i].addr, size)], i) == Without(bs, i)
  {
  }

  /** Unlinking block `i` and retyping it leaves the back link two blocks on as it was. */
  lemma StaleSurvives(h: Heap, cut: seq<Block>, bs: seq<Block>, i: nat, size: nat)
    requires i + 2 < |bs| && cut == bs[i := Block(bs[i].addr, size + HEADER)]
    requires Spaced(cut, |h.mem|) && Spaced(bs, |h.mem|) && Forward(h, cut)
    requires HeaderAt(h.mem, cut[i].addr).prev == AddrOf(cut, i - 1)
    requires Headers(h.mem, bs)[i + 2].prev == bs[i].addr && size < U64
    ensures HeaderAt(NewTag(Remove(h, bs[i].addr).mem, bs[i].addr, ALLOCATED_CANARY, size), bs[i + 2].addr).prev ==
              bs[i].addr
  {
    hide HeaderAt, Remove, NewTag, AddrOf, NextLinks, PrevLinks, Beside, Untouched;
    var removed := Remove(h, bs[i].addr);
    RemoveHeaders(h, cut, i);
    SameLength(h.mem, removed.mem, Beside(cut, i + 1) + Beside(cut, i - 1));
    assert Headers(h.mem, cut)[i + 2] == HeaderAt(h.mem, bs[i + 2].addr);
    assert Headers(removed.mem, cut)[i + 2] == Headers(h.mem, cut)[i + 2];
    assert cut[i + 2] == bs[i + 2];
    NewTagEffect(removed.mem, bs[i].addr, ALLOCATED_CANARY, size);
    HeaderSame(removed.mem, NewTag(removed.mem, bs[i].addr, ALLOCATED_CANARY, size), {bs[i].addr}, bs[i + 2].addr);
  }

  /** Removing a block whose back link names memory outside the list writes into that memory and leaves the block
      listed. */
  lemma RemoveStale(h: Heap, bs: seq<Block>, i: nat, q: nat)
    requires 0 < i < |bs| && Spaced(bs, |h.mem|) && Forward(h, bs)
    requires HeaderAt(h.mem, bs[i].addr).prev == q && 0 < q && q + HEADER <= |h.mem|
    requires forall j :: 0 <= j < |bs| ==> q + HEADER <= bs[j].addr || bs[j].addr + HEADER <= q
    ensures var after := Remove(h, bs[i].addr);
            && HeaderAt(after.mem, q).next == AddrOf(bs, i + 1)
            && HeaderAt(after.mem, bs[i - 1].addr).next == bs[i].addr
            && after.head == h.head
  {
    hide HeaderAt, SetNext, SetPrevUnlessNull, SetNextUnlessNull, Untouched, Beside, NextLinks, PrevLinks, Forward,
         BackwardExcept, Remove, Spaced, Headers, AddrOf, WithPrev;
    var p, next := bs[i].addr, AddrOf(bs, i + 1);
    NextAt(h, bs, i);
    NextAt(h, bs, i - 1);
    RemoveIs(h, p, q, next);
    AddrFits(bs, |h.mem|, i + 1);
    var a := SetPrevUnlessNull(h.mem, next, q);
    PrevIfAnyIn(h.mem, bs, i + 1, q);
    SameLength(h.mem, a, Beside(bs, i + 1));
    WithPrevElsewhere(Headers(h.mem, bs), i + 1, q, i - 1);
    NextBeyond(a, q, next, bs[i - 1].addr);
  }

  lemma WithPrevElsewhere(hs: seq<Header>, i: int, v: nat, j: nat)
    requires j < |hs| && j != i
    ensures WithPrev(hs, i, v)[j] == hs[j]
  {
  }

  lemma NextBeyond(m: Memory, q: nat, next: nat, r: nat)
    requires 0 < q && q + HEADER <= |m| && next < U64 && (q + HEADER <= r || r + HEADER <= q)
    ensures HeaderAt(SetNextUnlessNull(m, q, next), q).next == next
    ensures HeaderAt(SetNextUnlessNull(m, q, next), r) == HeaderAt(m, r)
  {
    hide HeaderAt, SetNext;
    SetNextEffect(m, q, next);
    HeaderSame(m, SetNext(m, q, next), {q}, r);
  }

  // ----- Wrong links that name memory below the block before

  /** A back link that is right, or names memory clear below the block before. */
  predicate Below(p: nat, before: nat) {
    p == before || (0 < p && p + HEADER <= before)
  }

  predicate AllBelow(w: map<nat, nat>, bs: seq<Block>) {
    forall i {:trigger bs[i]} :: 0 <= i < |bs| && bs[i].addr in w ==> Below(w[bs[i].addr], AddrOf(bs, i - 1))
  }

  /** Unlinking a block whose back link is such a wrong one writes below the block before, which goes on naming it. */
  lemma RemoveBelow(h: Heap, bs: seq<Block>, i: nat, q: nat)
    requires 0 < i < |bs| && Spaced(bs, |h.mem|) && Forward(h, bs)
    requires HeaderAt(h.mem, bs[i].addr).prev == q && 0 < q && q + HEADER <= bs[i - 1].addr
    ensures var after := Remove(h, bs[i].addr);
            && HeaderAt(after.mem, bs[i - 1].addr).next == bs[i].addr
            && |after.mem| == |h.mem|
  {
    hide HeaderAt, SetNext, SetPrevUnlessNull, SetNextUnlessNull, Untouched, Beside, NextLinks, PrevLinks, Forward,
         BackwardExcept, Remove, Headers, AddrOf, WithPrev;
    var p, next := bs[i].addr, AddrOf(bs, i + 1);
    NextAt(h, bs, i);
    NextAt(h, bs, i - 1);
    RemoveIs(h, p, q, next);
    AddrFits(bs, |h.mem|, i + 1);
    var a := SetPrevUnlessNull(h.mem, next, q);
    PrevIfAnyIn(h.mem, bs, i + 1, q);
    SameLength(h.mem, a, Beside(bs, i + 1));
    WithPrevElsewhere(Headers(h.mem, bs), i + 1, q, i - 1);
    assert HeaderAt(a, bs[i - 1].addr) == Headers(a, bs)[i - 1];
    NextBeyond(a, q, next, bs[i - 1].addr);
    NextSameLength(a, q, next);
  }

  lemma NextSameLength(m: Memory, q: nat, next: nat)
    ensures |SetNextUnlessNull(m, q, next)| == |m|
  {
  }

  /** allocate's work on such a block, taken whole or with a remainder behind it. */
  lemma CarveWholeBelow(h: Heap, bs: seq<Block>, i: nat, size: nat, repair: bool)
    requires 0 < i < |bs| && Spaced(bs, |h.mem|) && Forward(h, bs) && size < U64
    requires var q := HeaderAt(h.mem, bs[i].addr).prev; 0 < q && q + HEADER <= bs[i - 1].addr
    requires bs[i].size < size + TAG + HEADER
    ensures HeaderAt(Carve(h, bs[i].addr, size, repair).mem, bs[i - 1].addr).next == bs[i].addr
    ensures |Carve(h, bs[i].addr, size, repair).mem| == |h.mem|
  {
    hide HeaderAt, Remove, NewTag, Untouched, Headers, NextLinks, Forward, SplitIfRequired;
    NextAt(h, bs, i);
    SplitNothing(h.mem, bs[i].addr, size, repair);
    RemoveBelow(h, bs, i, HeaderAt(h.mem, bs[i].addr).prev);
    TagBehind(Remove(h, bs[i].addr).mem, bs, i, size);
  }

  lemma TagBehind(m: Memory, bs: seq<Block>, i: nat, size: nat)
    requires 0 < i < |bs| && Spaced(bs, |m|) && size < U64
    ensures var after := NewTag(m, bs[i].addr, ALLOCATED_CANARY, size);
            HeaderAt(after, bs[i - 1].addr) == HeaderAt(m, bs[i - 1].addr) && |after| == |m|
  {
    hide HeaderAt, NewTag;
    NewTagEffect(m, bs[i].addr, ALLOCATED_CANARY, size);
    HeaderSame(m, NewTag(m, bs[i].addr, ALLOCATED_CANARY, size), {bs[i].addr}, bs[i - 1].addr);
  }

  lemma CarveFrontBelow(h: Heap, bs: seq<Block>, i: nat, size: nat, repair: bool)
    requires 0 < i && i + 1 < |bs| && Spaced(bs, |h.mem|) && size + HEADER < U64 && bs[i + 1].size >= HEADER
    requires bs[i + 1].addr == bs[i].addr + TAG + size && Forward(h, Uncut(bs, i, size))
    requires var q := HeaderAt(h.mem, bs[i].addr).prev; 0 < q && q + HEADER <= bs[i - 1].addr
    ensures HeaderAt(Carve(h, bs[i].addr, size, repair).mem, bs[i - 1].addr).next == bs[i].addr
    ensures |Carve(h, bs[i].addr, size, repair).mem| == |h.mem|
  {
    hide HeaderAt, Remove, NewTag, Untouched, Headers, NextLinks, PrevLinks, Forward, SplitIfRequired, Spaced, Uncut,
         Beside, WrongAfterSplit;
    var p, q := bs[i].addr, HeaderAt(h.mem, bs[i].addr).prev;
    var split, cutList := Heap(SplitIfRequired(h.mem, p, size, repair), h.head), Cut(bs, i, size);
    SplitKeepsPrev(h, bs, i, size, repair);
    RemoveBelow(split, cutList, i, q);
    TagBehind(Remove(split, p).mem, cutList, i, size);
  }

  /** A split leaves the block's own back link as it was. */
  lemma SplitKeepsPrev(h: Heap, bs: seq<Block>, i: nat, size: nat, repair: bool)
    requires i + 1 < |bs| && Spaced(bs, |h.mem|) && size + HEADER < U64 && bs[i + 1].size >= HEADER
    requires bs[i + 1].addr == bs[i].addr + TAG + size && Forward(h, Uncut(bs, i, size))
    ensures var split := Heap(SplitIfRequired(h.mem, bs[i].addr, size, repair), h.head);
            && Forward(split, Cut(bs, i, size)) && Spaced(Cut(bs, i, size), |h.mem|) && |split.mem| == |h.mem|
            && HeaderAt(split.mem, bs[i].addr).prev == HeaderAt(h.mem, bs[i].addr).prev
  {
    hide HeaderAt, Untouched, Headers, NextLinks, PrevLinks, SplitIfRequired, Spaced, Beside, WrongAfterSplit;
    var uncut := Uncut(bs, i, size);
    var w := Stored(h.mem, uncut);
    AnyBackward(h, uncut);
    SplitLinks(h, bs, i, size, repair, w);
    var split := Heap(SplitIfRequired(h.mem, bs[i].addr, size, repair), h.head);
    SameLength(h.mem, split.mem, Beside(bs, i) + Beside(bs, i + 1) + Beside(bs, i + 2));
    PrevAt(split, Cut(bs, i, size), i, WrongAfterSplit(bs, i, repair, w));
    WithoutAt(bs, i + 1, i);
    assert uncut[i].addr == bs[i].addr && bs[i].addr in Addrs(uncut);
    SplitException(bs, i, repair, w, |h.mem|);
  }

  lemma SplitException(bs: seq<Block>, i: nat, repair: bool, w: map<nat, nat>, limit: nat)
    requires i + 1 < |bs| && Spaced(bs, limit) && bs[i].addr in w
    ensures var w' := WrongAfterSplit(bs, i, repair, w); bs[i].addr in w' && w'[bs[i].addr] == w[bs[i].addr]
  {
    BesideOnly(bs, limit, i, i + 1);
    BesideOnly(bs, limit, i, i + 2);
  }

  /** The back links as they stand. */
  function Stored(m: Memory, bs: seq<Block>): map<nat, nat> {
    map a | a in Addrs(bs) :: HeaderAt(m, a).prev
  }

  lemma AnyBackward(h: Heap, bs: seq<Block>)
    ensures BackwardExcept(h, bs, Stored(h.mem, bs))
  {
  }

  lemma BelowInsert(bs: seq<Block>, i: nat, repair: bool, w: map<nat, nat>, limit: nat)
    requires i < |bs| && Spaced(bs, limit) && AllBelow(w, Without(bs, i))
    ensures AllBelow(WrongAfterInsert(bs, i, repair, w), bs)
  {
    hide AddrOf, Without, Spaced;
    var w' := WrongAfterInsert(bs, i, repair, w);
    AddrInside(bs, i);
    if i > 0 {
      SpacedPair(bs, i - 1, limit);
      AddrInside(bs, i - 1);
    }
    forall j | 0 <= j < |bs| && bs[j].addr in w' ensures Below(w'[bs[j].addr], AddrOf(bs, j - 1)) {
      BesideOnly(bs, limit, j, i);
      BesideOnly(bs, limit, j, i + 1);
      if j != i {
        WithoutAddr(bs, i, if j < i then j else j - 1);
      }
    }
  }

  lemma BelowJoin(bs: seq<Block>, i: int, w: map<nat, nat>, limit: nat)
    requires Spaced(bs, limit) && AllBelow(w, bs)
    ensures AllBelow(WrongAfterJoin(bs, i, w), if Adjacent(bs, i) then Merged(bs, i) else bs)
  {
    if Adjacent(bs, i) {
      var merged, w' := Merged(bs, i), WrongAfterJoin(bs, i, w);
      forall j | 0 <= j < |merged| && merged[j].addr in w' ensures Below(w'[merged[j].addr], AddrOf(merged, j - 1)) {
        var from := if j <= i then j else j + 1;
        BesideOnly(bs, limit, from, i + 2);
        WithoutAddr(bs, i + 1, j);
        ResizedAddr(Without(bs, i + 1), i, bs[i].size + bs[i + 1].size, j - 1);
      }
    }
  }

  lemma BelowWithout(bs: seq<Block>, i: nat, w: map<nat, nat>, limit: nat)
    requires i < |bs| && Spaced(bs, limit) && AllBelow(w, bs)
    ensures AllBelow(w - Beside(bs, i + 1), Without(bs, i))
  {
    var left := Without(bs, i);
    forall j | 0 <= j < |left| && left[j].addr in w - Beside(bs, i + 1)
      ensures Below(w[left[j].addr], AddrOf(left, j - 1))
    {
      BesideOnly(bs, limit, if j < i then j else j + 1, i + 1);
      WithoutAddr(bs, i, j);
    }
  }

  lemma BelowSplit(bs: seq<Block>, i: nat, size: nat, repair: bool, w: map<nat, nat>, limit: nat)
    requires i + 1 < |bs| && Spaced(bs, limit) && AllBelow(w, Uncut(bs, i, size)) && bs[i].addr !in w
    ensures AllBelow(WrongAfterSplit(bs, i, repair, w), Without(bs, i))
  {
    hide AddrOf, Without, Uncut, Spaced;
    var left, w' := Without(bs, i), WrongAfterSplit(bs, i, repair, w);
    SpacedPair(bs, i, limit);
    forall j | 0 <= j < |left| && left[j].addr in w' ensures Below(w'[left[j].addr], AddrOf(left, j - 1)) {
      var from := if j < i then j else j + 1;
      BesideOnly(bs, limit, from, i + 1);
      BesideOnly(bs, limit, from, i + 2);
      WithoutAddr(bs, i, j);
      UncutAddr(bs, i, size, j);
      AddrInside(bs, i);
      AddrInside(bs, i + 1);
    }
  }

  lemma SpacedPair(bs: seq<Block>, i: nat, limit: nat)
    requires i + 1 < |bs| && Spaced(bs, limit)
    ensures 0 < bs[i].addr && bs[i].addr + HEADER <= bs[i + 1].addr
  {
  }

  lemma AddrInside(bs: seq<Block>, i: nat)
    requires i < |bs|
    ensures AddrOf(bs, i) == bs[i].addr
  {
  }

  lemma UncutAddr(bs: seq<Block>, i: nat, size: nat, j: nat)
    requires i + 1 < |bs| && j < |bs| - 1
    ensures |Uncut(bs, i, size)| == |bs| - 1
    ensures Uncut(bs, i, size)[j].addr == bs[if j <= i then j else j + 1].addr
    ensures AddrOf(Uncut(bs, i, size), j - 1) == AddrOf(bs, if j <= i + 1 then j - 1 else j)
  {
  }

  // ----- Giving a block back

  /** The list after block `i` is joined with the blocks it touches. */
  function Rejoined(bs: seq<Block>, i: nat): seq<Block>
    requires i < |bs|
  {
    var right := if Adjacent(bs, i) then Merged(bs, i) else bs;
    if Adjacent(right, i - 1) then Merged(right, i - 1) else right
  }

  /** As written, freeing leaves a wrong back link when the block goes between two blocks and touches neither. */
  predicate FreeLeavesStale(bs: seq<Block>, i: nat)
    requires i < |bs|
  {
    0 < i < |bs| - 1 && !Adjacent(bs, i) && !Adjacent(bs, i - 1)
  }

  lemma FreshHeader(h: Heap, bs: seq<Block>, i: nat, w: map<nat, nat>)
    requires i < |bs| && Spaced(bs, |h.mem|) && Forward(h, Without(bs, i)) && BackwardExcept(h, Without(bs, i), w)
    ensures var renewed := Heap(NewFree(h.mem, bs[i].addr, bs[i].size), h.head);
            && Forward(renewed, Without(bs, i)) && BackwardExcept(renewed, Without(bs, i), w)
            && Headers(renewed.mem, bs)[i] == Header(FREE_CANARY, bs[i].size, 0, 0)
            && Untouched(h.mem, renewed.mem, {bs[i].addr})
  {
    hide HeaderAt, NewFree, Untouched, Without, NextLinks, PrevLinks;
    BlockBounds(bs, i, |h.mem|);
    NewFreeEffect(h.mem, bs[i].addr, bs[i].size);
    OthersKept(h.mem, NewFree(h.mem, bs[i].addr, bs[i].size), bs, i);
  }

  lemma BlockBounds(bs: seq<Block>, i: nat, limit: nat)
    requires Spaced(bs, limit) && i < |bs|
    ensures 0 < bs[i].addr && bs[i].addr + HEADER <= limit <= U64 && bs[i].size < U64
  {
  }

  /** The exceptions after block `i` is joined with the next, if they touch. */
  function WrongAfterJoin(bs: seq<Block>, i: int, w: map<nat, nat>): map<nat, nat> {
    if Adjacent(bs, i) then w - Beside(bs, i + 1) - Beside(bs, i + 2) else w
  }

  lemma CoalesceNextStep(h: Heap, bs: seq<Block>, i: nat, w: map<nat, nat>)
    requires i < |bs| && Spaced(bs, |h.mem|) && Forward(h, bs) && BackwardExcept(h, bs, w)
    requires i + 1 < |bs| ==> bs[i].size + bs[i + 1].size < U64
    ensures var after := Heap(CoalesceNext(h.mem, bs[i].addr), h.head);
            var bs' := if Adjacent(bs, i) then Merged(bs, i) else bs;
            && Forward(after, bs') && BackwardExcept(after, bs', WrongAfterJoin(bs, i, w))
            && Spaced(bs', |after.mem|) && i < |bs'| && bs'[i].addr == bs[i].addr
            && Untouched(h.mem, after.mem, Addrs(bs))
            && (!Adjacent(bs, i) ==> after == h)
  {
    hide HeaderAt, Untouched, Headers, NextLinks, PrevLinks, CoalesceNext, Spaced, Addrs, Beside, AddrOf;
    if Adjacent(bs, i) {
      CoalesceLinks(h, bs, i, w);
      BesideAddrs(bs, i);
      BesideAddrs(bs, i + 2);
      MoreUntouched(h.mem, CoalesceNext(h.mem, bs[i].addr), Beside(bs, i) + Beside(bs, i + 2), Addrs(bs));
      SameLength(h.mem, CoalesceNext(h.mem, bs[i].addr), Addrs(bs));
    } else {
      NoCoalesce(h, bs, i);
      UntouchedSelf(h.mem, Addrs(bs));
    }
  }

  lemma CoalescePreviousIs(h: Heap, bs: seq<Block>, i: nat, w: map<nat, nat>)
    requires i < |bs| && Spaced(bs, |h.mem|) && Forward(h, bs) && BackwardExcept(h, bs, w) && bs[i].addr !in w
    ensures CoalescePrevious(h.mem, bs[i].addr) ==
            if i > 0 && Adjacent(bs, i - 1) then CoalesceNext(h.mem, bs[i - 1].addr) else h.mem
  {
    hide HeaderAt, Headers, NextLinks, PrevLinks, CoalesceNext, Forward, BackwardExcept;
    PrevAt(h, bs, i, w);
    if i > 0 {
      NextAt(h, bs, i - 1);
    }
  }

  lemma CoalescePreviousStep(h: Heap, bs: seq<Block>, i: nat, w: map<nat, nat>)
    requires i < |bs| && Spaced(bs, |h.mem|) && Forward(h, bs) && BackwardExcept(h, bs, w) && bs[i].addr !in w
    requires i > 0 ==> bs[i - 1].size + bs[i].size < U64
    ensures var after := Heap(CoalescePrevious(h.mem, bs[i].addr), h.head);
            var joined := i > 0 && Adjacent(bs, i - 1);
            var bs' := if joined then Merged(bs, i - 1) else bs;
            && Forward(after, bs') && BackwardExcept(after, bs', WrongAfterJoin(bs, i - 1, w))
            && Spaced(bs', |after.mem|)
            && Untouched(h.mem, after.mem, Addrs(bs))
            && (!joined ==> after == h)
  {
    hide HeaderAt, Untouched, Headers, NextLinks, PrevLinks, CoalesceNext, CoalescePrevious, Spaced, Addrs, Beside,
         AddrOf;
    CoalescePreviousIs(h, bs, i, w);
    if i > 0 && Adjacent(bs, i - 1) {
      CoalesceLinks(h, bs, i - 1, w);
      BesideAddrs(bs, i - 1);
      BesideAddrs(bs, i + 1);
      MoreUntouched(h.mem, CoalesceNext(h.mem, bs[i - 1].addr), Beside(bs, i - 1) + Beside(bs, i + 1), Addrs(bs));
      SameLength(h.mem, CoalesceNext(h.mem, bs[i - 1].addr), Addrs(bs));
    } else {
      UntouchedSelf(h.mem, Addrs(bs));
    }
  }

  /** The exceptions after block `i` is given back: the insertion may spoil its successor's back link,
      and each joining rights that of the block behind the joined ones. */
  function WrongAfterGiveBack(bs: seq<Block>, i: nat, repair: bool, w: map<nat, nat>): map<nat, nat>
    requires i < |bs|
  {
    var bs1 := if Adjacent(bs, i) then Merged(bs, i) else bs;
    WrongAfterJoin(bs1, i - 1, WrongAfterJoin(bs, i, WrongAfterInsert(bs, i, repair, w)))
  }

  /** Freeing block `i` of the list-to-be links it in and joins it with what it touches, whatever back links are wrong
      elsewhere. From right back links, as written, they are then all right exactly unless it went between two blocks
      and touches neither. */
  lemma GiveBackLinks(h: Heap, bs: seq<Block>, i: nat, repair: bool, w: map<nat, nat>)
    requires i < |bs| && Spaced(bs, |h.mem|) && Forward(h, Without(bs, i)) && BackwardExcept(h, Without(bs, i), w)
    requires HeaderAt(h.mem, bs[i].addr).size + TAG == bs[i].size
    requires i + 1 < |bs| ==> bs[i].size + bs[i + 1].size < U64
    requires i > 0 ==> bs[i - 1].size + bs[i].size + (if i + 1 < |bs| then bs[i + 1].size else 0) < U64
    ensures var after := GiveBack(h, bs[i].addr, AddrOf(bs, i - 1), repair);
            && Forward(after, Rejoined(bs, i))
            && BackwardExcept(after, Rejoined(bs, i), WrongAfterGiveBack(bs, i, repair, w))
            && (w == map[] ==> (Backward(after, Rejoined(bs, i)) <==> repair || !FreeLeavesStale(bs, i)))
            && Untouched(h.mem, after.mem, Addrs(bs))
  {
    hide HeaderAt, Untouched, Headers, NextLinks, PrevLinks, Spaced, Addrs, Beside, NewFree, Insert, CoalesceNext,
         CoalescePrevious, Without, WrongAfterJoin, WrongAfterInsert;
    var p, before := bs[i].addr, AddrOf(bs, i - 1);
    var all := Addrs(bs);
    BesideAddrs(bs, i - 1);
    BesideAddrs(bs, i);
    BesideAddrs(bs, i + 1);
    BesideSelf(bs, i);
    FreshHeader(h, bs, i, w);
    var a := Heap(NewFree(h.mem, p, bs[i].size), h.head);
    MoreUntouched(h.mem, a.mem, {p}, all);
    SameLength(h.mem, a.mem, all);
    InsertLinks(a, bs, i, repair, w);
    var b := Insert(a, before, p, repair);
    UntouchedStep(h.mem, a.mem, b.mem, all, Beside(bs, i - 1) + Beside(bs, i) + Beside(bs, i + 1));
    SameLength(h.mem, b.mem, all);
    InsertedRight(bs, i, repair, w, |h.mem|);
    JoinBoth(h.mem, b, bs, i, WrongAfterInsert(bs, i, repair, w));
    if w == map[] {
      SameLength(h.mem, GiveBack(h, p, before, repair).mem, all);
      GiveBackExactly(b, GiveBack(h, p, before, repair), bs, i, repair);
    }
  }

  lemma BelowGiveBack(bs: seq<Block>, i: nat, repair: bool, w: map<nat, nat>, limit: nat)
    requires i < |bs| && Spaced(bs, limit) && AllBelow(w, Without(bs, i))
    requires i + 1 < |bs| ==> bs[i].size + bs[i + 1].size < U64
    ensures AllBelow(WrongAfterGiveBack(bs, i, repair, w), Rejoined(bs, i))
  {
    hide AllBelow, WrongAfterInsert, WrongAfterJoin, Merged, Without;
    BelowInsert(bs, i, repair, w, limit);
    BelowJoin(bs, i, WrongAfterInsert(bs, i, repair, w), limit);
    var bs1 := if Adjacent(bs, i) then Merged(bs, i) else bs;
    if Adjacent(bs, i) {
      MergedSpaced(bs, i, limit);
    }
    BelowJoin(bs1, i - 1, WrongAfterJoin(bs, i, WrongAfterInsert(bs, i, repair, w)), limit);
  }

  lemma MergedSpaced(bs: seq<Block>, i: nat, limit: nat)
    requires Adjacent(bs, i) && Spaced(bs, limit) && bs[i].size + bs[i + 1].size < U64
    ensures Spaced(Merged(bs, i), limit)
  {
    SpacedWithout(bs, i + 1, limit);
    ResizedSpaced(Without(bs, i + 1), i, bs[i].size + bs[i + 1].size, limit);
  }

  lemma InsertedRight(bs: seq<Block>, i: nat, repair: bool, w: map<nat, nat>, limit: nat)
    requires i < |bs| && Spaced(bs, limit)
    ensures bs[i].addr !in WrongAfterInsert(bs, i, repair, w)
  {
    BesideOnly(bs, limit, i, i);
    BesideOnly(bs, limit, i, i + 1);
  }

  /** From right back links, the insertion's one wrong link is righted by a joining or stays. */
  lemma GiveBackExactly(b: Heap, after: Heap, bs: seq<Block>, i: nat, repair: bool)
    requires i < |bs| && Spaced(bs, |after.mem|)
    requires BackwardExcept(after, Rejoined(bs, i), WrongAfterGiveBack(bs, i, repair, map[]))
    requires !repair && FreeLeavesStale(bs, i) ==> after == b && Headers(b.mem, bs)[i + 1].prev == bs[i - 1].addr
    ensures Backward(after, Rejoined(bs, i)) <==> repair || !FreeLeavesStale(bs, i)
  {
    hide HeaderAt, Headers, PrevLinks, Without, Spaced;
    if !repair && FreeLeavesStale(bs, i) {
      StaleIsWrong(after, bs, i);
    } else {
      assert WrongAfterGiveBack(bs, i, repair, map[]) == map[] by {
        NoneWrong(bs, i, repair);
      }
    }
  }

  lemma NoneWrong(bs: seq<Block>, i: nat, repair: bool)
    requires i < |bs| && (repair || !FreeLeavesStale(bs, i))
    ensures WrongAfterGiveBack(bs, i, repair, map[]) == map[]
  {
    if !repair && 0 < i < |bs| - 1 && !Adjacent(bs, i) {
      assert Adjacent(bs, i - 1);
    }
  }

  /** The two coalescing steps after the insertion. */
  lemma JoinBoth(m: Memory, b: Heap, bs: seq<Block>, i: nat, w: map<nat, nat>)
    requires i < |bs| && |b.mem| == |m| && Spaced(bs, |m|) && Forward(b, bs) && BackwardExcept(b, bs, w)
    requires bs[i].addr !in w
    requires i + 1 < |bs| ==> bs[i].size + bs[i + 1].size < U64
    requires i > 0 ==> bs[i - 1].size + bs[i].size + (if i + 1 < |bs| then bs[i + 1].size else 0) < U64
    requires Untouched(m, b.mem, Addrs(bs))
    ensures var after := Heap(CoalescePrevious(CoalesceNext(b.mem, bs[i].addr), bs[i].addr), b.head);
            var bs1 := if Adjacent(bs, i) then Merged(bs, i) else bs;
            && Forward(after, Rejoined(bs, i))
            && BackwardExcept(after, Rejoined(bs, i), WrongAfterJoin(bs1, i - 1, WrongAfterJoin(bs, i, w)))
            && Untouched(m, after.mem, Addrs(bs))
            && (!Adjacent(bs, i) && !Adjacent(bs, i - 1) ==> after == b)
  {
    hide HeaderAt, Untouched, Headers, NextLinks, PrevLinks, Spaced, Addrs, Beside, CoalesceNext, CoalescePrevious,
         Without;
    var p := bs[i].addr;
    CoalesceNextStep(b, bs, i, w);
    var d := Heap(CoalesceNext(b.mem, p), b.head);
    var bs1 := if Adjacent(bs, i) then Merged(bs, i) else bs;
    UntouchedStep(m, b.mem, d.mem, Addrs(bs), Addrs(bs));
    SameLength(m, d.mem, Addrs(bs));
    MergedBefore(bs, i);
    CoalescePreviousStep(d, bs1, i, WrongAfterJoin(bs, i, w));
    var e := Heap(CoalescePrevious(d.mem, p), d.head);
    MergedAddrs(bs, i);
    UntouchedStep(m, d.mem, e.mem, Addrs(bs), Addrs(bs1));
  }

  /** The list before block `i` is not affected by joining it with its successor. */
  lemma MergedBefore(bs: seq<Block>, i: nat)
    requires i < |bs|
    ensures var bs1 := if Adjacent(bs, i) then Merged(bs, i) else bs;
            && i < |bs1| && bs1[i].addr == bs[i].addr
            && bs1[i].size == (if Adjacent(bs, i) then bs[i].size + bs[i + 1].size else bs[i].size)
            && (i > 0 ==> bs1[i - 1] == bs[i - 1])
            && (Adjacent(bs1, i - 1) <==> Adjacent(bs, i - 1))
  {
  }

  lemma MergedAddrs(bs: seq<Block>, i: nat)
    requires i < |bs|
    ensures Addrs(if Adjacent(bs, i) then Merged(bs, i) else bs) <= Addrs(bs)
  {
    if Adjacent(bs, i) {
      var merged := Merged(bs, i);
      forall a | a in Addrs(merged) ensures a in Addrs(bs) {
        var j :| 0 <= j < |merged| && merged[j].addr == a;
        assert a == bs[if j <= i then j else j + 1].addr;
      }
    }
  }

  lemma StaleIsWrong(h: Heap, bs: seq<Block>, i: nat)
    requires 0 < i < |bs| - 1 && Spaced(bs, |h.mem|) && Headers(h.mem, bs)[i + 1].prev == bs[i - 1].addr
    ensures !Backward(h, bs)
  {
    hide HeaderAt;
    assert bs[i - 1].addr < bs[i].addr;
  }

  /** A block given back between two blocks that it does not touch is on the list; unlinking the block behind it, whose
      back link names the block before, takes both off. */
  lemma MiddleInsert(h: Heap, bs: seq<Block>, i: nat)
    requires 0 < i < |bs| - 1 && Spaced(bs, |h.mem|) && Forward(h, Without(bs, i)) && Backward(h, Without(bs, i))
    requires HeaderAt(h.mem, bs[i].addr).size + TAG == bs[i].size && !Adjacent(bs, i) && !Adjacent(bs, i - 1)
    requires bs[i].size + bs[i + 1].size < U64 && bs[i - 1].size + bs[i].size + bs[i + 1].size < U64
    ensures var freed := GiveBack(h, bs[i].addr, AddrOf(bs, i - 1), false);
            && Forward(freed, bs)
            && Forward(Remove(freed, bs[i + 1].addr), Without(Without(bs, i), i))
  {
    hide HeaderAt, Untouched, Headers, NextLinks, PrevLinks, Spaced, Addrs, GiveBack, Remove, Forward, BackwardExcept,
         Without;
    var freed := GiveBack(h, bs[i].addr, AddrOf(bs, i - 1), false);
    GiveBackLinks(h, bs, i, false, map[]);
    SameLength(h.mem, freed.mem, Addrs(bs));
    assert Rejoined(bs, i) == bs;
    BesideOnly(bs, |h.mem|, i + 1, i);
    PrevAt(freed, bs, i + 1, WrongAfterGiveBack(bs, i, false, map[]));
    RemovePast(freed, bs, i);
  }

  /** Unlinking block `i + 1` when its back link names block `i - 1`. */
  lemma RemovePast(h: Heap, bs: seq<Block>, i: nat)
    requires 0 < i < |bs| - 1 && Spaced(bs, |h.mem|) && Forward(h, bs)
    requires HeaderAt(h.mem, bs[i + 1].addr).prev == bs[i - 1].addr
    ensures Forward(Remove(h, bs[i + 1].addr), Without(Without(bs, i), i))
  {
    hide HeaderAt, Untouched, Headers, NextLinks, PrevLinks, Spaced, Remove, SetPrevUnlessNull, SetNextUnlessNull,
         WithPrev, WithNext, AddrOf, Without, Beside;
    var p, q, next := bs[i + 1].addr, bs[i - 1].addr, AddrOf(bs, i + 2);
    NextAt(h, bs, i + 1);
    NextAt(h, bs, i - 1);
    RemoveIs(h, p, q, next);
    AddrFits(bs, |h.mem|, i + 2);
    AddrFits(bs, |h.mem|, i - 1);
    var a := SetPrevUnlessNull(h.mem, next, q);
    PrevIfAnyIn(h.mem, bs, i + 2, q);
    SameLength(h.mem, a, Beside(bs, i + 2));
    NextIfAnyIn(a, bs, i - 1, next);
    var after := Remove(h, p);
    HeadersWithout(after.mem, bs, i);
    HeadersWithout(after.mem, Without(bs, i), i);
    PastLinks(Headers(h.mem, bs), bs, i, q);
    HeadPast(bs, i);
  }

  lemma HeadPast(bs: seq<Block>, i: nat)
    requires 0 < i < |bs| - 1
    ensures AddrOf(Without(Without(bs, i), i), 0) == AddrOf(bs, 0)
  {
  }

  lemma PastLinks(hs: seq<Header>, bs: seq<Block>, i: nat, q: nat)
    requires |hs| == |bs| && 0 < i < |bs| - 1 && NextLinks(hs, bs)
    ensures NextLinks(Without(Without(WithNext(WithPrev(hs, i + 2, q), i - 1, AddrOf(bs, i + 2)), i), i),
                      Without(Without(bs, i), i))
  {
    hide AddrOf, Without;
    var relinked := WithNext(WithPrev(hs, i + 2, q), i - 1, AddrOf(bs, i + 2));
    var left, after := Without(Without(bs, i), i), Without(Without(relinked, i), i);
    forall j | 0 <= j < |left|
      ensures after[j].canary == FREE_CANARY && after[j].size == left[j].size && after[j].next == AddrOf(left, j + 1)
    {
      var mid := if j < i then j else j + 1;
      WithoutAddr(Without(bs, i), i, j);
      WithoutAddr(bs, i, mid);
      WithoutAt(Without(relinked, i), i, j);
      WithoutAt(relinked, i, mid);
      var from := if j < i then j else j + 2;
      assert hs[from].next == AddrOf(bs, from + 1);
      if j == i - 1 {
        WithoutAddr(bs, i, j + 1);
      }
    }
  }

  // ----- Giving a block back twice

  /** Coalescing backwards leaves the block's own header as it was, or drops the block without touching its canary. */
  lemma CoalescePreviousCanary(h: Heap, bs: seq<Block>, i: nat, w: map<nat, nat>)
    requires i < |bs| && Spaced(bs, |h.mem|) && Forward(h, bs) && BackwardExcept(h, bs, w) && bs[i].addr !in w
    requires i > 0 ==> bs[i - 1].size + bs[i].size < U64
    ensures HeaderAt(CoalescePrevious(h.mem, bs[i].addr), bs[i].addr).canary == FREE_CANARY
  {
    hide HeaderAt, Untouched, Headers, PrevLinks, CoalesceNext, CoalescePrevious;
    assert Headers(h.mem, bs)[i] == HeaderAt(h.mem, bs[i].addr);
    CoalescePreviousIs(h, bs, i, w);
    if i > 0 && Adjacent(bs, i - 1) {
      CoalesceLinks(h, bs, i - 1, w);
      var ps := Beside(bs, i - 1) + Beside(bs, i + 1);
      HeaderSame(h.mem, CoalesceNext(h.mem, bs[i - 1].addr), ps, bs[i].addr);
    }
  }

  /** Where a block has been given back its canary says so, also when it was joined with the block before. */
  lemma GivenBackCanary(h: Heap, bs: seq<Block>, i: nat, repair: bool, w: map<nat, nat>)
    requires i < |bs| && Spaced(bs, |h.mem|) && Forward(h, Without(bs, i)) && BackwardExcept(h, Without(bs, i), w)
    requires HeaderAt(h.mem, bs[i].addr).size + TAG == bs[i].size
    requires i + 1 < |bs| ==> bs[i].size + bs[i + 1].size < U64
    requires i > 0 ==> bs[i - 1].size + bs[i].size + (if i + 1 < |bs| then bs[i + 1].size else 0) < U64
    ensures HeaderAt(GiveBack(h, bs[i].addr, AddrOf(bs, i - 1), repair).mem, bs[i].addr).canary == FREE_CANARY
  {
    hide HeaderAt, Untouched, Headers, NextLinks, PrevLinks, Spaced, Addrs, Beside, NewFree, Insert, CoalesceNext,
         CoalescePrevious, Without, WrongAfterInsert;
    var p, before := bs[i].addr, AddrOf(bs, i - 1);
    FreshHeader(h, bs, i, w);
    var a := Heap(NewFree(h.mem, p, bs[i].size), h.head);
    SameLength(h.mem, a.mem, {p});
    InsertLinks(a, bs, i, repair, w);
    var b := Insert(a, before, p, repair);
    SameLength(a.mem, b.mem, Beside(bs, i - 1) + Beside(bs, i) + Beside(bs, i + 1));
    InsertedRight(bs, i, repair, w, |h.mem|);
    var w1 := WrongAfterInsert(bs, i, repair, w);
    CoalesceNextStep(b, bs, i, w1);
    MergedBefore(bs, i);
    var bs1 := if Adjacent(bs, i) then Merged(bs, i) else bs;
    CoalescePreviousCanary(Heap(CoalesceNext(b.mem, p), b.head), bs1, i, WrongAfterJoin(bs, i, w1));
  }
}
