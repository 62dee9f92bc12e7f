/** KmallocSubHeap as it runs: blocks threaded in place through an array of bytes. */
module Kmalloc {
  import opened Arithmetic
  import opened Wrappers
  import opened ByteMemory
  import opened FreeList
  import opened SubHeap
  import opened HeapRequests

  datatype HeapError = Code(code: nat)

  // ----- Finding list positions in the tiling

  /** The segment behind the j-th free block. */
  lemma {:induction false} SegmentOfBlock(segs: seq<Segment>, j: nat) returns (k: nat)
    requires j < |Frees(segs)|
    ensures k < |segs| && segs[k] == Free(Frees(segs)[j].addr, Frees(segs)[j].size)
    ensures |Frees(segs[..k])| == j
  {
    if segs[0].Free? && j == 0 {
      k := 0;
    } else {
      var rest := segs[1..];
      var k' := SegmentOfBlock(rest, if segs[0].Free? then j - 1 else j);
      k := k' + 1;
      assert segs[..k][1..] == rest[..k'];
    }
  }

  /** The free list meets the blocks in tiling order, so its first fit is the tiling's. */
  lemma FirstFitOnList(segs: seq<Segment>, size: nat, j: nat) returns (k: nat)
    requires j < |Frees(segs)| && size + TAG <= Frees(segs)[j].size
    requires forall i :: 0 <= i < j ==> Frees(segs)[i].size < size + TAG
    ensures FirstFit(segs, size, 0) == Some(k) && segs[k] == Free(Frees(segs)[j].addr, Frees(segs)[j].size)
  {
    k := SegmentOfBlock(segs, j);
    var found := FirstFit(segs, size, 0);
    assert Fits(segs[k], size);
    if found.value < k {
      var b := Block(segs[found.value].addr, segs[found.value].size);
      PrefixBlock(segs, found.value, k);
    }
  }

  lemma {:induction false} PrefixBlock(segs: seq<Segment>, f: nat, k: nat)
    requires f < k <= |segs| && segs[f].Free?
    ensures |Frees(segs[..f])| < |Frees(segs[..k])| <= |Frees(segs)|
    ensures Frees(segs)[|Frees(segs[..f])|] == Block(segs[f].addr, segs[f].size)
  {
    hide Frees;
    FreesAround(segs, f);
    assert segs[..k][..f] == segs[..f];
    FreesAround(segs[..k], f);
    assert segs == segs[..k] + segs[k..];
    FreesAppend(segs[..k], segs[k..]);
  }

  lemma {:induction false} NoFitOnList(segs: seq<Segment>, size: nat)
    requires forall i :: 0 <= i < |Frees(segs)| ==> Frees(segs)[i].size < size + TAG
    ensures FirstFit(segs, size, 0) == None
  {
    var found := FirstFit(segs, size, 0);
    if found.Some? {
      PrefixBlock(segs, found.value, |segs|);
    }
  }

  class KmallocSubHeap {
    const mem: array<Byte>
    const storage: nat
    const capacity: nat
    /** Whether the two back-link writes the code lacks are made. */
    const repair: bool
    var freeList: nat
    ghost var segs: seq<Segment>

    ghost function View(): Heap
      reads this, mem
    {
      Heap(mem[..], freeList)
    }

    /** The arena is well formed and its forward links are right. */
    ghost predicate Valid()
      reads this, mem
    {
      Arena(View(), segs, storage, capacity)
    }

    /** The back links are right as well. */
    ghost predicate Linked()
      reads this, mem
    {
      Consistent(View(), segs, storage, capacity)
    }

    /** initialise, on an arena that has been mapped at `storage`. */
    constructor (mem: array<Byte>, storage: nat, capacity: nat, repair: bool)
      requires 0 < storage && storage + capacity <= mem.Length <= U64 && HEADER <= capacity
      modifies mem
      ensures Valid() && Linked() && this.mem == mem && this.storage == storage
      ensures this.capacity == capacity && this.repair == repair
      ensures segs == [Segment.Free(storage, capacity)]
    {
      this.mem, this.storage, this.capacity, this.repair := mem, storage, capacity, repair;
      freeList := storage;
      segs := [Segment.Free(storage, capacity)];
      new;
      ghost var m := mem[..];
      InitialConsistent(m, storage, capacity);
      WriteNewFree(storage, capacity);
    }

    method WriteNewFree(p: nat, size: nat)
      modifies mem
      ensures mem[..] == NewFree(old(mem[..]), p, size)
    {
      WriteNumber(mem, p, WORD, FREE_CANARY);
      WriteNumber(mem, p + 8, WORD, size);
      WriteNumber(mem, p + 16, WORD, 0);
      WriteNumber(mem, p + 24, WORD, 0);
    }

    // ----- FreeBlock

    method ReadHeader(p: nat) returns (f: Header)
      ensures f == HeaderAt(mem[..], p)
    {
      var canary := ReadNumber(mem, p, WORD);
      var size := ReadNumber(mem, p + 8, WORD);
      var prev := ReadNumber(mem, p + 16, WORD);
      var next := ReadNumber(mem, p + 24, WORD);
      f := Header(canary, size, prev, next);
    }

    method SplitIfRequired(p: nat, request: nat)
      modifies mem
      ensures mem[..] == FreeList.SplitIfRequired(old(mem[..]), p, request, repair)
    {
      hide HeaderAt, Store, NewFree;
      var f := ReadHeader(p);
      if request == f.size - TAG {
        return;
      }
      var right := f.size - TAG - request;
      if right < HEADER {
        return;
      }
      WriteNumber(mem, p + 8, WORD, request + HEADER);
      var rhs := p + TAG + request;
      WriteNewFree(rhs, right);
      WriteNumber(mem, rhs + 16, WORD, p);
      WriteNumber(mem, rhs + 24, WORD, f.next);
      WriteNumber(mem, p + 24, WORD, rhs);
      if repair && f.next != 0 {
        WriteNumber(mem, f.next + 16, WORD, rhs);
      }
    }

    method CoalesceWithNextBlock(p: nat)
      modifies mem
      ensures mem[..] == CoalesceNext(old(mem[..]), p)
    {
      hide HeaderAt, Store;
      var f := ReadHeader(p);
      if f.next == 0 || f.next != p + f.size {
        return;
      }
      var next := ReadHeader(f.next);
      WriteNumber(mem, p + 8, WORD, f.size + next.size);
      WriteNumber(mem, p + 24, WORD, next.next);
      if next.next != 0 {
        WriteNumber(mem, next.next + 16, WORD, p);
      }
    }

    method CoalesceWithPreviousBlock(p: nat)
      modifies mem
      ensures mem[..] == CoalescePrevious(old(mem[..]), p)
    {
      hide HeaderAt, CoalesceNext;
      var f := ReadHeader(p);
      if f.prev == 0 {
        return;
      }
      var previous := ReadHeader(f.prev);
      if f.prev + previous.size != p {
        return;
      }
      CoalesceWithNextBlock(f.prev);
    }

    // ----- The list

    method RemoveFromFreeList(p: nat)
      modifies this`freeList, mem
      ensures View() == Remove(old(View()), p)
    {
      hide HeaderAt, Store;
      var f := ReadHeader(p);
      if f.next != 0 {
        WriteNumber(mem, f.next + 16, WORD, f.prev);
      }
      if f.prev != 0 {
        WriteNumber(mem, f.prev + 24, WORD, f.next);
      }
      if p == freeList {
        freeList := f.next;
      }
    }

    /** `bs` is the list with the new block in it, at index `i`. */
    method InsertIntoFreeList(p: nat, ghost bs: seq<Block>, ghost i: nat)
      requires i < |bs| && bs[i].addr == p && Spaced(bs, mem.Length)
      requires Headers(mem[..], bs)[i] == Header(FREE_CANARY, bs[i].size, 0, 0)
      requires Forward(View(), Without(bs, i))
      modifies this`freeList, mem
      ensures View() == Insert(old(View()), AddrOf(bs, i - 1), p, repair)
    {
      hide HeaderAt, Headers, Forward, BackwardExcept, Insert, Untouched, Spaced, Without, Store, AddrOf;
      ghost var start := View();
      ghost var goal := Insert(start, AddrOf(bs, i - 1), p, repair);
      InsertForward(start, bs, i, repair);
      InsertCases(start, bs, i, repair);
      if freeList == 0 {
        freeList := p;
        return;
      }
      if p < freeList {
        WriteNumber(mem, p + 24, WORD, freeList);
        WriteNumber(mem, freeList + 16, WORD, p);
        freeList := p;
        return;
      }
      var at := freeList;
      ghost var j := 0;
      ghost var done := false;
      while at != 0
        invariant 0 <= j <= |bs|
        invariant !done ==> View() == start && j < i && at == bs[j].addr
        invariant done ==> View() == goal && i <= j && at == AddrOf(bs, j)
        decreases |bs| - j
      {
        if done {
          AfterInsert(goal, bs, i, j);
        } else {
          BeforeInsert(start, bs, i, j);
        }
        if p > at {
          var next := ReadNumber(mem, at + 24, WORD);
          NextIsLoad(mem[..], at);
          if next == 0 || p < next {
            InsertAfterIs(start, at, p, next, repair);
            WriteNumber(mem, p + 24, WORD, next);
            WriteNumber(mem, p + 16, WORD, at);
            WriteNumber(mem, at + 24, WORD, p);
            if repair && next != 0 {
              WriteNumber(mem, next + 16, WORD, p);
            }
            done := true;
            AfterInsert(goal, bs, i, j);
          }
        }
        NextIsLoad(mem[..], at);
        at := ReadNumber(mem, at + 24, WORD);
        j := j + 1;
      }
      if !done {
        BeforeInsert(start, bs, i, j);
      }
    }

    // ----- Allocation and freeing

    method TakeBlock(p: nat, size: nat)
      modifies this`freeList, mem
      ensures View() == Carve(old(View()), p, size, repair)
    {
      hide HeaderAt, Store, Remove, FreeList.SplitIfRequired;
      SplitIfRequired(p, size);
      RemoveFromFreeList(p);
      WriteNumber(mem, p, WORD, ALLOCATED_CANARY);
      WriteNumber(mem, p + 8, WORD, size);
    }

    /** First fit. The block list forwards is the tiling's free blocks, so the block found is the tiling's first fit.
        The arena stays well formed if the block's own back link is right; links that were right both ways stay so
        exactly when the call is harmless or the code repairs them. */
    method Allocate(requested: nat) returns (r: Result<nat, HeapError>)
      requires Valid()
      modifies this`freeList, this`segs, mem
      ensures State(View(), segs) == Perform(State(old(View()), old(segs)), SubHeap.Allocate(requested), repair)
      ensures r == match Answer(State(old(View()), old(segs)), requested)
                   case Some(a) => Ok(a)
                   case None => Err(Code(1))
      ensures r.Ok? ==> Serves(segs, storage, capacity, r.value, requested)
      ensures r.Err? <==> forall i: nat :: i < |old(segs)| && old(segs)[i].Free? ==>
                            old(segs)[i].size < Granted(requested) + 16
      ensures TakesRight(State(old(View()), old(segs)), SubHeap.Allocate(requested)) ==> Valid()
      ensures old(Linked()) ==>
                Valid()
                && (Linked() <==> repair || Harmless(State(old(View()), old(segs)), SubHeap.Allocate(requested)))
    {
      hide HeaderAt, Carve, Consistent, Arena, AllocateAt, Frees, Forward, BackwardExcept, Spaced, AddrOf, Harmless,
           FirstFit, TakesRight;
      ghost var start := State(View(), segs);
      ghost var bs := Frees(segs);
      AfterCall(start, SubHeap.Allocate(requested), repair, storage, capacity);
      FailsExactly(start, requested);
      AllocationServed(start, requested, repair, storage, capacity);
      ArenaList(start.heap, segs, storage, capacity);
      var size := if requested < HEADER then HEADER else requested;
      var at := freeList;
      ghost var j := 0;
      while at != 0
        invariant View() == start.heap && segs == start.segs
        invariant 0 <= j <= |bs| && at == AddrOf(bs, j)
        invariant forall i :: 0 <= i < j ==> bs[i].size < size + TAG
        decreases |bs| - j
      {
        AddrFits(bs, mem.Length, j);
        NextAt(start.heap, bs, j);
        CanaryAt(start.heap, bs, j);
        var f := ReadHeader(at);
        if f.canary != FREE_CANARY {
          assert false;
        }
        if size <= f.size - TAG {
          ghost var k := FirstFitOnList(segs, size, j);
          TakeBlock(at, size);
          segs := AllocateAt(segs, k, size);
          return Ok(at + TAG);
        }
        at := f.next;
        j := j + 1;
      }
      AddrFits(bs, mem.Length, j);
      NoFitOnList(segs, size);
      return Err(Code(1));
    }

    /** Null is accepted; an address without an allocation's tag before it is refused; otherwise `k` is the
        allocation the client holds there. The arena stays well formed whatever back links are wrong. */
    method Free(address: nat, ghost k: nat) returns (r: Result<(), HeapError>)
      requires Valid()
      requires address != 0 ==> address >= TAG
      requires address != 0 && HeaderAt(mem[..], address - TAG).canary == ALLOCATED_CANARY ==>
                 k < |segs| && segs[k].Live? && address == segs[k].addr + TAG
      modifies this`freeList, this`segs, mem
      ensures Valid()
      ensures old(address == 0 || HeaderAt(mem[..], address - TAG).canary != ALLOCATED_CANARY) ==>
                View() == old(View()) && segs == old(segs) && r == if address == 0 then Ok(()) else Err(Code(1))
      ensures old(address != 0 && HeaderAt(mem[..], address - TAG).canary == ALLOCATED_CANARY) ==>
                && r == Ok(())
                && State(View(), segs) == Perform(State(old(View()), old(segs)), Release(k), repair)
                && (old(Linked()) ==>
                      (Linked() <==> repair || Harmless(State(old(View()), old(segs)), Release(k))))
    {
      hide HeaderAt, NewFree, Tiled, Total, Coalesced, FreeAt, Opened, Frees, Headers, NextLinks, PrevLinks, Without,
           Insert, CoalesceNext, CoalescePrevious, Spaced;
      if address == 0 {
        return Ok(());
      }
      var p := address - TAG;
      var tag := ReadHeader(p);
      if tag.canary != ALLOCATED_CANARY {
        return Err(Code(1));
      }
      ghost var start := State(View(), segs);
      AfterCall(start, Release(k), repair, storage, capacity);
      ghost var all, i := Frees(Opened(segs, k)), |Frees(segs[..k])|;
      OpenedTiles(segs, k, storage);
      FreesSpaced(Opened(segs, k), storage, mem.Length);
      WithoutFreed(segs, k);
      AdjacencyAgrees(segs, k, storage);
      BeforeIs(segs, k);
      FreshForward(start.heap, all, i);
      assert tag.size == segs[k].size;
      WriteNewFree(p, tag.size + TAG);
      InsertIntoFreeList(p, all, i);
      CoalesceWithNextBlock(p);
      CoalesceWithPreviousBlock(p);
      segs := FreeAt(segs, k);
      return Ok(());
    }
  }

  lemma AllocationServed(s: State, size: nat, repair: bool, lo: nat, capacity: nat)
    requires Arena(s.heap, s.segs, lo, capacity)
    ensures Answer(s, size).Some? ==>
              Serves(Perform(s, SubHeap.Allocate(size), repair).segs, lo, capacity, Answer(s, size).value, size)
  {
    hide Perform, Serves;
    if Answer(s, size).Some? {
      AnswerServes(s, size, repair, lo, capacity);
    }
  }

  /** What is known of the state after a call. */
  lemma AfterCall(s: State, call: Call, repair: bool, lo: nat, capacity: nat)
    requires Arena(s.heap, s.segs, lo, capacity) && Legal(s, call)
    ensures var t := Perform(s, call, repair);
            && (TakesRight(s, call) ==> Arena(t.heap, t.segs, lo, capacity))
            && (Consistent(s.heap, s.segs, lo, capacity) ==>
                  Arena(t.heap, t.segs, lo, capacity)
                  && (Consistent(t.heap, t.segs, lo, capacity) <==> repair || Harmless(s, call)))
  {
    hide Arena, Perform, TakesRight, Consistent, Harmless, WrongAfter;
    if TakesRight(s, call) {
      PerformLoose(s, call, repair, lo, capacity);
    }
    if Consistent(s.heap, s.segs, lo, capacity) {
      PerformKeeps(s, call, repair, lo, capacity);
    }
  }

  /** Forward links only: the same with every back link as it stands. */
  lemma InsertForward(h: Heap, bs: seq<Block>, i: nat, repair: bool)
    requires i < |bs| && Spaced(bs, |h.mem|) && Headers(h.mem, bs)[i] == Header(FREE_CANARY, bs[i].size, 0, 0)
    requires Forward(h, Without(bs, i))
    ensures Forward(Insert(h, AddrOf(bs, i - 1), bs[i].addr, repair), bs)
    ensures |Insert(h, AddrOf(bs, i - 1), bs[i].addr, repair).mem| == |h.mem|
  {
    hide HeaderAt, Insert, Headers, NextLinks, Spaced, Untouched;
    AnyBackward(h, Without(bs, i));
    InsertLinks(h, bs, i, repair, Stored(h.mem, Without(bs, i)));
    SameLength(h.mem, Insert(h, AddrOf(bs, i - 1), bs[i].addr, repair).mem,
               Beside(bs, i - 1) + Beside(bs, i) + Beside(bs, i + 1));
  }

  lemma FreshForward(h: Heap, bs: seq<Block>, i: nat)
    requires i < |bs| && Spaced(bs, |h.mem|) && Forward(h, Without(bs, i))
    ensures var renewed := Heap(NewFree(h.mem, bs[i].addr, bs[i].size), h.head);
            && Forward(renewed, Without(bs, i))
            && Headers(renewed.mem, bs)[i] == Header(FREE_CANARY, bs[i].size, 0, 0)
            && |renewed.mem| == |h.mem|
  {
    hide HeaderAt, NewFree, Headers, NextLinks, Spaced, Untouched;
    AnyBackward(h, Without(bs, i));
    FreshHeader(h, bs, i, Stored(h.mem, Without(bs, i)));
    SameLength(h.mem, NewFree(h.mem, bs[i].addr, bs[i].size), {bs[i].addr});
  }

  lemma {:induction false} ArenaList(h: Heap, segs: seq<Segment>, lo: nat, capacity: nat)
    requires Arena(h, segs, lo, capacity)
    ensures Spaced(Frees(segs), |h.mem|) && Forward(h, Frees(segs))
    ensures h.head == AddrOf(Frees(segs), 0)
  {
    hide Frees, Tiled, Total, NextLinks, PrevLinks;
    FreesSpaced(segs, lo, |h.mem|);
  }

  lemma CanaryAt(h: Heap, bs: seq<Block>, j: nat)
    requires j < |bs| && Forward(h, bs)
    ensures HeaderAt(h.mem, bs[j].addr).canary == FREE_CANARY
  {
    hide HeaderAt;
    assert Headers(h.mem, bs)[j].canary == FREE_CANARY;
  }

  /** How the three cases of insert_into_free_list match the index of the new block. */
  lemma InsertCases(h: Heap, bs: seq<Block>, i: nat, repair: bool)
    requires i < |bs| && Spaced(bs, |h.mem|) && Forward(h, Without(bs, i))
    ensures h.head == 0 <==> |bs| == 1
    ensures |bs| > 1 ==> (bs[i].addr < h.head <==> i == 0)
    ensures |bs| > 1 && i > 0 ==> h.head == bs[0].addr
    ensures |bs| == 1 ==> Insert(h, AddrOf(bs, i - 1), bs[i].addr, repair) == Heap(h.mem, bs[i].addr)
    ensures |bs| > 1 && i == 0 ==>
              Insert(h, AddrOf(bs, i - 1), bs[i].addr, repair) ==
              Heap(SetPrev(SetNext(h.mem, bs[i].addr, h.head), h.head, bs[i].addr), bs[i].addr)
  {
    hide HeaderAt, SetPrev, SetNext, Headers, NextLinks;
  }

  lemma BeforeInsert(h: Heap, bs: seq<Block>, i: nat, j: nat)
    requires j < i < |bs| && Spaced(bs, |h.mem|) && Forward(h, Without(bs, i))
    ensures bs[j].addr < bs[i].addr && bs[j].addr != 0 && h.head != 0
    ensures var next := HeaderAt(h.mem, bs[j].addr).next;
            if j == i - 1 then next == 0 || bs[i].addr < next
            else next == bs[j + 1].addr && next != 0 && next < bs[i].addr
    ensures AddrOf(bs, i - 1) == bs[i - 1].addr
  {
    hide HeaderAt, Headers, NextLinks, PrevLinks;
    SpacedWithout(bs, i, |h.mem|);
    NextAt(h, Without(bs, i), j);
    InsertCases(h, bs, i, false);
  }

  lemma AfterInsert(h: Heap, bs: seq<Block>, i: nat, j: nat)
    requires i < |bs| && Spaced(bs, |h.mem|) && Forward(h, bs)
    ensures j < |bs| ==> HeaderAt(h.mem, bs[j].addr).next == AddrOf(bs, j + 1) && AddrOf(bs, j) == bs[j].addr
    ensures i <= j < |bs| ==> bs[i].addr <= bs[j].addr
    ensures j >= |bs| ==> AddrOf(bs, j) == 0
  {
    hide HeaderAt;
    if j < |bs| {
      assert Headers(h.mem, bs)[j] == HeaderAt(h.mem, bs[j].addr);
    }
  }
}
