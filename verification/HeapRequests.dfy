/** What a caller of the sub-heap gets for the bytes it asks for, and keeps over any run. */
module HeapRequests {
  import opened Arithmetic
  import opened Wrappers
  import opened ByteMemory
  import opened FreeList
  import opened SubHeap

  /** An allocation is never smaller than a free block's header. */
  function Granted(size: nat): nat {
    if size < 32 then 32 else size
  }

  /** The bytes from `a` on, `size` of them, are none of the segment's: its own, and the 16 of an allocation's tag. */
  predicate ClearOf(s: Segment, a: nat, size: nat) {
    a + size <= s.addr || s.addr + s.size + (if s.Live? then 16 else 0) <= a
  }

  /** The address is that of an allocation of at least the size, behind its tag, inside the arena; its bytes meet no
      free block, no other allocation and no other tag. */
  ghost predicate Serves(segs: seq<Segment>, lo: nat, capacity: nat, a: nat, size: nat) {
    exists k: nat :: ServesAt(segs, lo, capacity, a, size, k)
  }

  ghost predicate ServesAt(segs: seq<Segment>, lo: nat, capacity: nat, a: nat, size: nat, k: nat) {
    && k < |segs| && segs[k].Live? && segs[k].addr + 16 == a && segs[k].size == Granted(size)
    && lo + 16 <= a && a + size <= lo + capacity
    && forall i: nat :: i < |segs| && i != k ==> ClearOf(segs[i], a, size)
  }

  lemma LiveServes(segs: seq<Segment>, lo: nat, capacity: nat, k: nat, size: nat)
    requires Shape(segs, lo, capacity) && k < |segs| && segs[k].Live? && segs[k].size == Granted(size)
    ensures ServesAt(segs, lo, capacity, segs[k].addr + 16, size, k)
  {
    hide Coalesced;
    TiledOrder(segs, lo, k, k);
    forall i: nat | i < |segs| && i != k ensures ClearOf(segs[i], segs[k].addr + 16, size) {
      TiledOrder(segs, lo, i, k);
      TiledOrder(segs, lo, k, i);
    }
  }

  /** A request fails exactly when no free block has room for the size, 32 at least, and a tag. */
  lemma FailsExactly(s: State, size: nat)
    ensures Answer(s, size).None? <==>
            forall i: nat :: i < |s.segs| && s.segs[i].Free? ==> s.segs[i].size < Granted(size) + 16
  {
    var k := FirstFit(s.segs, Rounded(size), 0);
    if k.None? {
      forall i: nat | i < |s.segs| && s.segs[i].Free? ensures s.segs[i].size < Granted(size) + 16 {
        assert !Fits(s.segs[i], Rounded(size));
      }
    } else {
      assert s.segs[k.value].size >= Granted(size) + 16;
    }
  }

  /** A request that succeeds is served. */
  lemma AnswerServes(s: State, size: nat, repair: bool, lo: nat, capacity: nat)
    requires Shape(s.segs, lo, capacity) && Answer(s, size).Some?
    ensures var t := Perform(s, Allocate(size), repair);
            Shape(t.segs, lo, capacity) && Serves(t.segs, lo, capacity, Answer(s, size).value, size)
  {
    hide Tiled, Total, WellSized, Coalesced, Carve;
    var k := FirstFit(s.segs, Rounded(size), 0).value;
    AllocateKeepsShape(s.segs, k, Rounded(size), lo, capacity);
    var segs := AllocateAt(s.segs, k, Rounded(size));
    assert segs[k] == Live(s.segs[k].addr, Rounded(size));
    LiveServes(segs, lo, capacity, k, size);
  }

  // ----- Runs

  /** An allocation of that size stands at the address. */
  predicate StandsAt(segs: seq<Segment>, addr: nat, size: nat, k: nat) {
    k < |segs| && segs[k] == Live(addr, size)
  }

  ghost predicate Stands(segs: seq<Segment>, addr: nat, size: nat) {
    exists k: nat :: StandsAt(segs, addr, size, k)
  }

  /** The call does not give back the allocation at the address. */
  predicate Spares(s: State, call: Call, addr: nat) {
    call.Release? && call.k < |s.segs| ==> s.segs[call.k].addr != addr
  }

  lemma FreeStands(segs: seq<Segment>, k: nat, addr: nat, size: nat)
    requires k < |segs| && segs[k].addr != addr && Stands(segs, addr, size)
    ensures Stands(FreeAt(segs, k), addr, size)
  {
    var i: nat :| StandsAt(segs, addr, size, i);
    var a, b, after := segs[..k], segs[k + 1..], FreeAt(segs, k);
    if i < k {
      assert StandsAt(after, addr, size, i);
    } else {
      var right := b != [] && b[0].Free?;
      var b' := if right then b[1..] else b;
      var j: nat := i - k - 1 - (if right then 1 else 0);
      assert b'[j] == Live(addr, size);
      assert StandsAt(after, addr, size, |after| - |b'| + j);
    }
  }

  lemma CallStands(s: State, call: Call, repair: bool, addr: nat, size: nat)
    requires Legal(s, call) && Spares(s, call, addr) && Stands(s.segs, addr, size)
    ensures Stands(Perform(s, call, repair).segs, addr, size)
  {
    hide Carve, GiveBack, FreeAt, Before;
    var i: nat :| StandsAt(s.segs, addr, size, i);
    match call
    case Allocate(n) =>
      var f := FirstFit(s.segs, Rounded(n), 0);
      if f.Some? {
        var k := f.value;
        var after := AllocateAt(s.segs, k, Rounded(n));
        assert StandsAt(after, addr, size, if i < k then i else |after| - |s.segs| + i);
      }
    case Release(k) => FreeStands(s.segs, k, addr, size);
    case ClientWrite(_, _, _) =>
  }

  lemma CallShape(s: State, call: Call, repair: bool, lo: nat, capacity: nat)
    requires Shape(s.segs, lo, capacity) && Legal(s, call)
    ensures Shape(Perform(s, call, repair).segs, lo, capacity)
  {
    hide Carve, GiveBack, FreeAt, Before, AllocateAt, Shape;
    match call
    case Allocate(n) =>
      var f := FirstFit(s.segs, Rounded(n), 0);
      if f.Some? {
        AllocateKeepsShape(s.segs, f.value, Rounded(n), lo, capacity);
      }
    case Release(k) => FreeKeepsShape(s.segs, k, lo, capacity);
    case ClientWrite(_, _, _) =>
  }

  lemma {:induction false} RunShape(states: seq<State>, calls: seq<Call>, repair: bool, lo: nat, capacity: nat, i: nat)
    requires Run(states, calls, repair) && i < |states| && Shape(states[0].segs, lo, capacity)
    ensures Shape(states[i].segs, lo, capacity)
  {
    hide Perform, Shape;
    if i > 0 {
      RunShape(states, calls, repair, lo, capacity, i - 1);
      CallShape(states[i - 1], calls[i - 1], repair, lo, capacity);
    }
  }

  /** No call from `i` on and before `j` gives the allocation at `addr` back. */
  ghost predicate Spared(states: seq<State>, calls: seq<Call>, i: nat, j: nat, addr: nat)
    requires j < |states| == |calls| + 1
  {
    forall m: nat :: i <= m < j ==> Spares(states[m], calls[m], addr)
  }

  lemma {:induction false} RunStands(states: seq<State>, calls: seq<Call>, repair: bool, i: nat, j: nat, addr: nat,
                                     size: nat)
    requires Run(states, calls, repair) && i <= j < |states| && Spared(states, calls, i, j, addr)
    requires Stands(states[i].segs, addr, size)
    ensures Stands(states[j].segs, addr, size)
  {
    hide Perform, Stands, Spares;
    if i < j {
      var last := j - 1;
      assert Legal(states[last], calls[last]) && states[last + 1] == Perform(states[last], calls[last], repair);
      RunStands(states, calls, repair, i, last, addr, size);
      CallStands(states[last], calls[last], repair, addr, size);
    }
  }

  /** In every run the answer to a request goes on being served until it is given back, whatever other calls come
      between. */
  lemma RunServes(states: seq<State>, calls: seq<Call>, repair: bool, lo: nat, capacity: nat, i: nat, j: nat)
    requires Run(states, calls, repair) && i < j < |states| && Shape(states[0].segs, lo, capacity)
    requires calls[i].Allocate? && Answer(states[i], calls[i].size).Some?
    requires Answer(states[i], calls[i].size).value >= 16
    requires Spared(states, calls, i + 1, j, Answer(states[i], calls[i].size).value - 16)
    ensures Serves(states[j].segs, lo, capacity, Answer(states[i], calls[i].size).value, calls[i].size)
  {
    hide Shape, Perform;
    var size := calls[i].size;
    var addr: nat := Answer(states[i], size).value - 16;
    RunShape(states, calls, repair, lo, capacity, i);
    RunShape(states, calls, repair, lo, capacity, j);
    assert states[i + 1] == Perform(states[i], calls[i], repair);
    AnswerServes(states[i], size, repair, lo, capacity);
    var k: nat :| ServesAt(states[i + 1].segs, lo, capacity, addr + 16, size, k);
    assert StandsAt(states[i + 1].segs, addr, Granted(size), k);
    RunStands(states, calls, repair, i + 1, j, addr, Granted(size));
    var n: nat :| StandsAt(states[j].segs, addr, Granted(size), n);
    LiveServes(states[j].segs, lo, capacity, n, size);
  }

  // ----- What is written stays

  /** The call does not write the byte. */
  predicate Misses(s: State, call: Call, x: nat) {
    call.ClientWrite? && call.k < |s.segs| ==> s.segs[call.k].addr + 16 + call.at != x
  }

  /** A call changes no byte of an allocation that it neither gives back nor writes, tag and data alike, if it takes no
      block with a wrong back link. */
  lemma CallKeepsByte(s: State, call: Call, repair: bool, lo: nat, capacity: nat, k: nat, x: nat)
    requires Arena(s.heap, s.segs, lo, capacity) && Legal(s, call) && TakesRight(s, call)
    requires k < |s.segs| && s.segs[k].Live? && s.segs[k].addr <= x < s.segs[k].addr + 16 + s.segs[k].size
    requires Spares(s, call, s.segs[k].addr) && Misses(s, call, x) && x < |s.heap.mem|
    ensures x < |Perform(s, call, repair).heap.mem| && Perform(s, call, repair).heap.mem[x] == s.heap.mem[x]
  {
    hide Carve, GiveBack, Arena, BackwardExcept, AllocateAt, FreeAt, Frees, Before, WrongAfterAllocate, WrongAfterFree,
         Wrong, HeaderAt;
    WrongIsExcept(s.heap, s.segs, lo, capacity);
    match call
    case Allocate(size) =>
      var f := FirstFit(s.segs, Rounded(size), 0);
      if f.Some? {
        TakenNotWrong(s.heap, s.segs, lo, capacity, f.value);
        AllocateLoose(s.heap, s.segs, lo, capacity, f.value, Rounded(size), repair, Wrong(s.heap, s.segs));
      }
    case Release(r) =>
      FreeLoose(s.heap, s.segs, lo, capacity, r, repair, Wrong(s.heap, s.segs));
      assert Opened(s.segs, r)[k] == s.segs[k];
    case ClientWrite(_, _, _) =>
  }

  /** In every run whose allocations take blocks with right back links, a byte of an allocation keeps its value until
      the allocation is given back or the byte is written. */
  lemma {:induction false} RunKeepsByte(states: seq<State>, calls: seq<Call>, repair: bool, lo: nat, capacity: nat,
                                        i: nat, j: nat, addr: nat, size: nat, x: nat)
    requires Run(states, calls, repair) && i <= j < |states|
    requires Arena(states[0].heap, states[0].segs, lo, capacity)
    requires forall m: nat :: m < j ==> Legal(states[m], calls[m]) && TakesRight(states[m], calls[m])
    requires Stands(states[i].segs, addr, size) && addr <= x < addr + 16 + size && Spared(states, calls, i, j, addr)
    requires forall m: nat :: i <= m < j ==> Misses(states[m], calls[m], x)
    requires x < |states[i].heap.mem|
    ensures x < |states[j].heap.mem| && states[j].heap.mem[x] == states[i].heap.mem[x]
  {
    hide Arena, Perform, TakesRight, Legal, WrongAfter, Stands, Spares, Misses;
    if i < j {
      var last := j - 1;
      assert Legal(states[last], calls[last]) && states[last + 1] == Perform(states[last], calls[last], repair);
      RunKeepsByte(states, calls, repair, lo, capacity, i, last, addr, size, x);
      RunForward(states, calls, repair, lo, capacity, last);
      RunStands(states, calls, repair, i, last, addr, size);
      var k := StandingAt(states[last].segs, addr, size);
      CallKeepsByte(states[last], calls[last], repair, lo, capacity, k, x);
    }
  }

  lemma StandingAt(segs: seq<Segment>, addr: nat, size: nat) returns (k: nat)
    requires Stands(segs, addr, size)
    ensures k < |segs| && segs[k] == Live(addr, size)
  {
    k :| StandsAt(segs, addr, size, k);
  }

  // ----- Giving back

  /** Giving an allocation back makes all its bytes, the tag's among them, part of one free block, and leaves every
      other allocation where it is. */
  lemma FreedBytes(segs: seq<Segment>, k: nat, lo: nat, capacity: nat, addr: nat, size: nat)
    requires Shape(segs, lo, capacity) && k < |segs| && segs[k].Live?
    ensures exists i: nat :: i < |FreeAt(segs, k)| && Covers(FreeAt(segs, k)[i], segs[k].addr, 16 + segs[k].size)
    ensures Stands(FreeAt(segs, k), addr, size) <==> Stands(segs, addr, size) && addr != segs[k].addr
  {
    hide Coalesced;
    var a, b, after := segs[..k], segs[k + 1..], FreeAt(segs, k);
    if a != [] {
      TiledOrder(segs, lo, k - 1, k);
      FrontTouches(segs, lo, k);
    }
    assert Covers(after[if a != [] && a[|a| - 1].Free? then k - 1 else k], segs[k].addr, 16 + segs[k].size);
    if Stands(segs, addr, size) && addr != segs[k].addr {
      FreeStands(segs, k, addr, size);
    }
    if i: nat :| StandsAt(after, addr, size, i) {
      LiveAfterFree(segs, k, lo, addr, size, i);
    }
  }

  /** A free segment that holds the bytes. */
  predicate Covers(s: Segment, a: nat, n: nat) {
    s.Free? && s.addr <= a && a + n <= s.addr + s.size
  }

  lemma {:induction false} FrontTouches(segs: seq<Segment>, lo: nat, k: nat)
    requires Tiled(segs, lo) && 0 < k < |segs|
    ensures segs[k - 1].addr + Extent(segs[k - 1]) == segs[k].addr
    decreases k
  {
    if k > 1 {
      FrontTouches(segs[1..], lo + Extent(segs[0]), k - 1);
    }
  }

  lemma {:induction false} LiveAfterFree(segs: seq<Segment>, k: nat, lo: nat, addr: nat, size: nat, i: nat)
    requires Tiled(segs, lo) && k < |segs| && segs[k].Live? && StandsAt(FreeAt(segs, k), addr, size, i)
    ensures Stands(segs, addr, size) && addr != segs[k].addr
  {
    var a, b, after := segs[..k], segs[k + 1..], FreeAt(segs, k);
    var right := b != [] && b[0].Free?;
    var j: nat := if i < k then i else |segs| - (|after| - i);
    assert segs[j] == Live(addr, size) && j != k;
    assert StandsAt(segs, addr, size, j);
    TiledOrder(segs, lo, j, k);
    TiledOrder(segs, lo, k, j);
  }

  /** An allocation given back is told by its canary, so that giving it back again is refused: what stands before the
      address is no longer an allocation's tag. */
  lemma FreedTwice(s: State, k: nat, repair: bool, lo: nat, capacity: nat)
    requires Arena(s.heap, s.segs, lo, capacity) && k < |s.segs| && s.segs[k].Live?
    ensures HeaderAt(s.heap.mem, s.segs[k].addr).canary == 0xd1d1_d1d1_d1d1_d1d1
    ensures HeaderAt(Perform(s, Release(k), repair).heap.mem, s.segs[k].addr).canary == 0xfefe_fefe_fefe_fefe
  {
    hide HeaderAt, GiveBack, Frees, Tiled, Total, Forward, BackwardExcept, Spaced, Without, Adjacent, Rejoined,
         WellSized, Coalesced, Join, FreeAt, Opened;
    var segs, h := s.segs, s.heap;
    var all, i := Frees(Opened(segs, k)), |Frees(segs[..k])|;
    OpenedTiles(segs, k, lo);
    FreesSpaced(Opened(segs, k), lo, |h.mem|);
    WithoutFreed(segs, k);
    AdjacencyAgrees(segs, k, lo);
    SizesFit(Opened(segs, k));
    BeforeIs(segs, k);
    AnyBackward(h, Without(all, i));
    GivenBackCanary(h, all, i, repair, Stored(h.mem, Without(all, i)));
  }
}
