/** The sub-heap's arena as a tiling by free blocks, live allocations and lost slack, and its two operations. */
module SubHeap {
  import opened Arithmetic
  import opened Wrappers
  import opened ByteMemory
  import opened FreeList

  /** A stretch of the arena: a free block, an allocation of `size` bytes behind its tag, or slack no list records. */
  datatype Segment = Free(addr: nat, size: nat) | Live(addr: nat, size: nat) | Lost(addr: nat, size: nat)

  function Extent(s: Segment): nat {
    if s.Live? then TAG + s.size else s.size
  }

  function Total(segs: seq<Segment>): nat {
    if segs == [] then 0 else Extent(segs[0]) + Total(segs[1..])
  }

  /** The segments follow one another without gap or overlap from `lo` on. */
  predicate Tiled(segs: seq<Segment>, lo: nat) {
    segs == [] || (segs[0].addr == lo && Tiled(segs[1..], lo + Extent(segs[0])))
  }

  predicate Sized(s: Segment) {
    if s.Lost? then 0 < s.size < HEADER else HEADER <= s.size
  }

  predicate WellSized(segs: seq<Segment>) {
    forall i :: 0 <= i < |segs| ==> Sized(segs[i])
  }

  /** No two free blocks touch. */
  predicate Coalesced(segs: seq<Segment>) {
    forall i :: 0 <= i < |segs| - 1 ==> !(segs[i].Free? && segs[i + 1].Free?)
  }

  /** The free blocks in address order: what the free list should hold. */
  function Frees(segs: seq<Segment>): seq<Block> {
    if segs == [] then []
    else if segs[0].Free? then [Block(segs[0].addr, segs[0].size)] + Frees(segs[1..])
    else Frees(segs[1..])
  }

  // ----- Tilings

  lemma {:induction false} TotalAppend(a: seq<Segment>, b: seq<Segment>)
    ensures Total(a + b) == Total(a) + Total(b)
  {
    if a == [] {
      assert a + b == b;
    } else {
      assert (a + b)[1..] == a[1..] + b;
      TotalAppend(a[1..], b);
    }
  }

  lemma {:induction false} TiledAppend(a: seq<Segment>, b: seq<Segment>, lo: nat)
    ensures Tiled(a + b, lo) <==> Tiled(a, lo) && Tiled(b, lo + Total(a))
  {
    if a == [] {
      assert a + b == b;
    } else {
      assert (a + b)[1..] == a[1..] + b;
      TiledAppend(a[1..], b, lo + Extent(a[0]));
    }
  }

  lemma {:induction false} FreesAppend(a: seq<Segment>, b: seq<Segment>)
    ensures Frees(a + b) == Frees(a) + Frees(b)
  {
    if a == [] {
      assert a + b == b;
    } else {
      assert (a + b)[1..] == a[1..] + b;
      FreesAppend(a[1..], b);
    }
  }

  /** In a tiling earlier segments end before later ones start, and all lie between its ends. */
  lemma {:induction false} TiledOrder(segs: seq<Segment>, lo: nat, i: nat, j: nat)
    requires Tiled(segs, lo) && i < |segs| && j < |segs|
    ensures lo <= segs[i].addr && segs[i].addr + Extent(segs[i]) <= lo + Total(segs)
    ensures i < j ==> segs[i].addr + Extent(segs[i]) <= segs[j].addr
    decreases |segs|
  {
    if i > 0 && j > 0 {
      TiledOrder(segs[1..], lo + Extent(segs[0]), i - 1, j - 1);
    } else if i > 0 {
      TiledOrder(segs[1..], lo + Extent(segs[0]), i - 1, i - 1);
    } else if j > 0 {
      TiledOrder(segs[1..], lo + Extent(segs[0]), j - 1, j - 1);
    }
  }

  /** The free list of a well-sized tiling has room for its headers. */
  lemma {:induction false} FreesSpaced(segs: seq<Segment>, lo: nat, limit: nat)
    requires Tiled(segs, lo) && WellSized(segs) && 0 < lo && lo + Total(segs) <= limit <= U64
    ensures Spaced(Frees(segs), limit)
    ensures forall i :: 0 <= i < |Frees(segs)| ==>
              lo <= Frees(segs)[i].addr && HEADER <= Frees(segs)[i].size
              && Frees(segs)[i].addr + Frees(segs)[i].size <= lo + Total(segs)
  {
    if segs != [] {
      var rest, next := segs[1..], lo + Extent(segs[0]);
      assert Sized(segs[0]);
      FreesSpaced(rest, next, limit);
      if segs[0].Free? {
        var f := Block(lo, segs[0].size);
        assert Frees(segs) == [f] + Frees(rest);
        forall i, j | 0 <= i < j < |Frees(segs)|
          ensures Frees(segs)[i].addr + HEADER <= Frees(segs)[j].addr
        {
          assert Frees(segs)[j] == Frees(rest)[j - 1];
        }
      }
    }
  }

  /** The first free block starts where the tiling does exactly when the first segment is free. */
  lemma {:induction false} FirstFree(segs: seq<Segment>, lo: nat)
    requires Tiled(segs, lo) && WellSized(segs) && 0 < lo && lo + Total(segs) <= U64
    ensures Frees(segs) != [] ==> (Frees(segs)[0].addr == lo <==> segs[0].Free?)
    ensures segs != [] && segs[0].Free? ==> Frees(segs) != [] && Frees(segs)[0] == Block(segs[0].addr, segs[0].size)
    ensures segs != [] && segs[0].Free? ==> Frees(segs) == [Frees(segs)[0]] + Frees(segs[1..])
  {
    if segs != [] {
      assert Sized(segs[0]);
      FreesSpaced(segs[1..], lo + Extent(segs[0]), U64);
    }
  }

  /** The last free block ends where the tiling does exactly when the last segment is free. */
  lemma {:induction false} LastFree(segs: seq<Segment>, lo: nat)
    requires Tiled(segs, lo) && WellSized(segs) && 0 < lo && lo + Total(segs) <= U64
    ensures var bs := Frees(segs);
            var last := |segs| - 1;
            && (bs != [] ==> (bs[|bs| - 1].addr + bs[|bs| - 1].size == lo + Total(segs) <==> segs[last].Free?))
            && (segs != [] && segs[last].Free? ==>
                  bs == Frees(segs[..last]) + [Block(segs[last].addr, segs[last].size)])
  {
    if segs != [] {
      var last := |segs| - 1;
      var a, b := segs[..last], [segs[last]];
      assert segs == a + b;
      FreesAppend(a, b);
      TotalAppend(a, b);
      TiledAppend(a, b, lo);
      assert Sized(segs[last]);
      assert Total(b) == Extent(segs[last]) by {
        assert b[1..] == [];
      }
      assert Frees(b) == if segs[last].Free? then [Block(segs[last].addr, segs[last].size)] else [] by {
        assert b[1..] == [];
        assert Frees(b[1..]) == [];
      }
      FreesSpaced(a, lo, U64);
    }
  }

  // ----- The operations on the tiling

  /** What a free block of `room` bytes becomes when `size` bytes are taken from it. A remainder too small for a
      header is not recorded anywhere. */
  function Taken(addr: nat, room: nat, size: nat): seq<Segment>
    requires size + TAG <= room
  {
    var right := room - TAG - size;
    var rest := addr + TAG + size;
    if right >= HEADER then [Live(addr, size), Free(rest, right)]
    else if right > 0 then [Live(addr, size), Lost(rest, right)]
    else [Live(addr, size)]
  }

  predicate Fits(s: Segment, size: nat) {
    s.Free? && size + TAG <= s.size
  }

  function AllocateAt(segs: seq<Segment>, k: nat, size: nat): seq<Segment>
    requires k < |segs| && Fits(segs[k], size)
  {
    segs[..k] + Taken(segs[k].addr, segs[k].size, size) + segs[k + 1..]
  }

  /** The first free segment, at or after `from`, that the request fits. */
  function FirstFit(segs: seq<Segment>, size: nat, from: nat): (r: Option<nat>)
    requires from <= |segs|
    ensures r.Some? ==> from <= r.value < |segs| && Fits(segs[r.value], size)
    ensures forall i :: from <= i < (if r.Some? then r.value else |segs|) ==> !Fits(segs[i], size)
    decreases |segs| - from
  {
    if from == |segs| then None else if Fits(segs[from], size) then Some(from) else FirstFit(segs, size, from + 1)
  }

  /** A free block put between two stretches, merged with the free block it touches on either side. */
  function Join(a: seq<Segment>, addr: nat, size: nat, b: seq<Segment>): seq<Segment> {
    var right := b != [] && b[0].Free?;
    var size' := if right then size + b[0].size else size;
    var b' := if right then b[1..] else b;
    if a != [] && a[|a| - 1].Free? then
      a[..|a| - 1] + [Free(a[|a| - 1].addr, a[|a| - 1].size + size')] + b'
    else a + [Free(addr, size')] + b'
  }

  function FreeAt(segs: seq<Segment>, k: nat): seq<Segment>
    requires k < |segs|
  {
    Join(segs[..k], segs[k].addr, TAG + segs[k].size, segs[k + 1..])
  }

  /** The shape every reachable arena has: a gapless tiling of [lo, lo + capacity) with free blocks fully coalesced. */
  predicate Shape(segs: seq<Segment>, lo: nat, capacity: nat) {
    Tiled(segs, lo) && Total(segs) == capacity && WellSized(segs) && Coalesced(segs)
  }

  /** A tiling, a total and the byte counts read off the first segment. */
  lemma {:induction false} Cons(s: Segment, rest: seq<Segment>, lo: nat)
    ensures Tiled([s] + rest, lo) <==> s.addr == lo && Tiled(rest, lo + Extent(s))
    ensures Total([s] + rest) == Extent(s) + Total(rest)
  {
    assert ([s] + rest)[1..] == rest;
  }

  lemma {:induction false} Single(s: Segment, lo: nat)
    ensures Tiled([s], lo) <==> s.addr == lo
    ensures Total([s]) == Extent(s)
    ensures Slack([s]) == if s.Lost? then s.size else 0
    ensures LiveBytes([s]) == if s.Live? then TAG + s.size else 0
    ensures Frees([s]) == if s.Free? then [Block(s.addr, s.size)] else []
  {
    assert [s][1..] == [];
  }

  /** Replacing a middle stretch by another of the same length keeps the tiling. */
  lemma {:induction false} Retile(a: seq<Segment>, mid: seq<Segment>, mid': seq<Segment>, b: seq<Segment>, lo: nat)
    requires Tiled(a + mid + b, lo) && Tiled(mid', lo + Total(a)) && Total(mid') == Total(mid)
    ensures Tiled(a + mid' + b, lo) && Total(a + mid' + b) == Total(a + mid + b)
  {
    hide Tiled, Total;
    TiledAppend(a + mid, b, lo);
    TiledAppend(a, mid, lo);
    TotalAppend(a + mid, b);
    TotalAppend(a, mid);
    TiledAppend(a + mid', b, lo);
    TiledAppend(a, mid', lo);
    TotalAppend(a + mid', b);
    TotalAppend(a, mid');
  }

  lemma {:induction false} TakenTiles(addr: nat, room: nat, size: nat)
    requires size + TAG <= room && HEADER <= size
    ensures var mid := Taken(addr, room, size);
            Tiled(mid, addr) && Total(mid) == room && WellSized(mid) && Coalesced(mid) && mid[0] == Live(addr, size)
  {
    hide Tiled, Total, Slack, LiveBytes, Frees;
    var mid := Taken(addr, room, size);
    Single(mid[0], addr);
    if |mid| == 2 {
      assert mid == [mid[0]] + [mid[1]];
      Single(mid[1], addr + TAG + size);
      Cons(mid[0], [mid[1]], addr);
    } else {
      assert mid == [mid[0]];
    }
  }

  lemma TakenBytes(addr: nat, room: nat, size: nat)
    requires size + TAG <= room
    ensures Slack(Taken(addr, room, size)) == if room - TAG - size < HEADER then room - TAG - size else 0
    ensures LiveBytes(Taken(addr, room, size)) == TAG + size
  {
    hide Slack, LiveBytes;
    var mid := Taken(addr, room, size);
    Single(mid[0], addr);
    if |mid| == 2 {
      assert mid == [mid[0]] + [mid[1]];
      Single(mid[1], addr);
      SlackAppend([mid[0]], [mid[1]]);
    } else {
      assert mid == [mid[0]];
    }
  }

  lemma Around(segs: seq<Segment>, k: nat)
    requires k < |segs|
    ensures segs == segs[..k] + [segs[k]] + segs[k + 1..]
  {
  }

  lemma AddrAt(segs: seq<Segment>, k: nat, lo: nat)
    requires k < |segs| && Tiled(segs, lo)
    ensures segs[k].addr == lo + Total(segs[..k])
    ensures Tiled(segs[..k], lo) && Tiled(segs[k + 1..], segs[k].addr + Extent(segs[k]))
    ensures Total(segs) == Total(segs[..k]) + Extent(segs[k]) + Total(segs[k + 1..])
  {
    hide Tiled, Total, Slack, LiveBytes, Frees;
    var a, s, b := segs[..k], segs[k], segs[k + 1..];
    assert segs == a + ([s] + b);
    TiledAppend(a, [s] + b, lo);
    TotalAppend(a, [s] + b);
    Cons(s, b, lo + Total(a));
  }

  /** Allocation keeps the shape. */
  lemma AllocateKeepsShape(segs: seq<Segment>, k: nat, size: nat, lo: nat, capacity: nat)
    requires Shape(segs, lo, capacity) && k < |segs| && Fits(segs[k], size) && HEADER <= size
    ensures Shape(AllocateAt(segs, k, size), lo, capacity)
  {
    hide Tiled, Total, Taken, Slack, LiveBytes, Frees;
    var a, mid, b := segs[..k], Taken(segs[k].addr, segs[k].size, size), segs[k + 1..];
    Around(segs, k);
    AddrAt(segs, k, lo);
    Single(segs[k], lo);
    TakenTiles(segs[k].addr, segs[k].size, size);
    Retile(a, [segs[k]], mid, b, lo);
    assert segs[k].Free?;
    assert b != [] ==> b[0] == segs[k + 1] && !b[0].Free?;
  }

  /** A free block laid between two coalesced stretches keeps the shape once it is joined to both. */
  lemma JoinKeepsShape(a: seq<Segment>, addr: nat, size: nat, b: seq<Segment>, lo: nat)
    requires Tiled(a, lo) && addr == lo + Total(a) && Tiled(b, addr + size) && HEADER <= size
    requires WellSized(a) && WellSized(b) && Coalesced(a) && Coalesced(b)
    ensures Shape(Join(a, addr, size, b), lo, Total(a) + size + Total(b))
  {
    hide Tiled, Total;
    var right := b != [] && b[0].Free?;
    var size' := if right then size + b[0].size else size;
    var b' := if right then b[1..] else b;
    Cons(Free(addr, size'), b', addr);
    if right {
      assert b == [b[0]] + b';
      Cons(b[0], b', addr + size);
      assert b' != [] ==> b'[0] == b[1];
    }
    JoinLeft(a, addr, size', b', lo);
  }

  lemma JoinLeft(a: seq<Segment>, addr: nat, size: nat, b: seq<Segment>, lo: nat)
    requires Tiled(a, lo) && addr == lo + Total(a) && Tiled(b, addr + size) && HEADER <= size
    requires WellSized(a) && Coalesced(a) && WellSized(b) && Coalesced(b) && (b != [] ==> !b[0].Free?)
    ensures var joined := if a != [] && a[|a| - 1].Free? then
                            a[..|a| - 1] + [Free(a[|a| - 1].addr, a[|a| - 1].size + size)] + b
                          else a + [Free(addr, size)] + b;
            Shape(joined, lo, Total(a) + size + Total(b))
  {
    hide Tiled, Total;
    if a != [] && a[|a| - 1].Free? {
      var last := |a| - 1;
      var f := a[last];
      AddrAt(a, last, lo);
      assert Sized(f);
      assert a[last + 1..] == [];
      assert Total(a[last + 1..]) == 0 by {
        TotalEmpty();
      }
      assert last > 0 ==> !a[last - 1].Free?;
      Laid(a[..last], Free(f.addr, f.size + size), b, lo);
    } else {
      Laid(a, Free(addr, size), b, lo);
    }
  }

  lemma TotalEmpty()
    ensures Total([]) == 0
  {
  }

  /** A free block between stretches that do not touch it with free blocks of their own. */
  lemma {:induction false} Laid(a: seq<Segment>, f: Segment, b: seq<Segment>, lo: nat)
    requires Tiled(a, lo) && f.addr == lo + Total(a) && Tiled(b, f.addr + Extent(f)) && f.Free? && Sized(f)
    requires WellSized(a) && Coalesced(a) && (a != [] ==> !a[|a| - 1].Free?)
    requires WellSized(b) && Coalesced(b) && (b != [] ==> !b[0].Free?)
    ensures Shape(a + [f] + b, lo, Total(a) + Extent(f) + Total(b))
  {
    hide Tiled, Total;
    assert a + [f] + b == a + ([f] + b);
    Cons(f, b, f.addr);
    TiledAppend(a, [f] + b, lo);
    TotalAppend(a, [f] + b);
  }

  /** Freeing keeps the shape: what was freed is joined with every free block it touches. */
  lemma FreeKeepsShape(segs: seq<Segment>, k: nat, lo: nat, capacity: nat)
    requires Shape(segs, lo, capacity) && k < |segs| && segs[k].Live?
    ensures Shape(FreeAt(segs, k), lo, capacity)
  {
    hide Tiled, Total, Join;
    var a, b := segs[..k], segs[k + 1..];
    AddrAt(segs, k, lo);
    JoinKeepsShape(a, segs[k].addr, TAG + segs[k].size, b, lo);
  }

  // ----- Conservation

  function FreeBytes(segs: seq<Segment>): nat {
    if segs == [] then 0 else (if segs[0].Free? then segs[0].size else 0) + FreeBytes(segs[1..])
  }

  /** Tags and data of the outstanding allocations. */
  function LiveBytes(segs: seq<Segment>): nat {
    if segs == [] then 0 else (if segs[0].Live? then TAG + segs[0].size else 0) + LiveBytes(segs[1..])
  }

  function Slack(segs: seq<Segment>): nat {
    if segs == [] then 0 else (if segs[0].Lost? then segs[0].size else 0) + Slack(segs[1..])
  }

  /** The capacity is free bytes, live bytes and slack. */
  lemma {:induction false} Conserved(segs: seq<Segment>)
    ensures Total(segs) == FreeBytes(segs) + LiveBytes(segs) + Slack(segs)
  {
    if segs != [] {
      Conserved(segs[1..]);
    }
  }

  lemma {:induction false} SlackAppend(a: seq<Segment>, b: seq<Segment>)
    ensures Slack(a + b) == Slack(a) + Slack(b)
    ensures LiveBytes(a + b) == LiveBytes(a) + LiveBytes(b)
  {
    if a == [] {
      assert a + b == b;
    } else {
      assert (a + b)[1..] == a[1..] + b;
      SlackAppend(a[1..], b);
    }
  }

  /** An allocation adds its tag and data to the live bytes, and to the slack exactly the remainder it could not
      record; so slack grows by less than 32, and only when there was no split. */
  lemma {:induction false} AllocateConserves(segs: seq<Segment>, k: nat, size: nat)
    requires k < |segs| && Fits(segs[k], size)
    ensures var right := segs[k].size - TAG - size;
            && LiveBytes(AllocateAt(segs, k, size)) == LiveBytes(segs) + TAG + size
            && Slack(AllocateAt(segs, k, size)) == Slack(segs) + (if right < HEADER then right else 0)
  {
    hide Slack, LiveBytes, Taken;
    var a, mid, b := segs[..k], Taken(segs[k].addr, segs[k].size, size), segs[k + 1..];
    Around(segs, k);
    SlackAppend(a + [segs[k]], b);
    SlackAppend(a, [segs[k]]);
    SlackAppend(a + mid, b);
    SlackAppend(a, mid);
    Single(segs[k], 0);
    TakenBytes(segs[k].addr, segs[k].size, size);
  }

  /** A free gives back exactly the tag and data, and recovers no slack. */
  lemma {:induction false} FreeConserves(segs: seq<Segment>, k: nat)
    requires k < |segs| && segs[k].Live?
    ensures LiveBytes(FreeAt(segs, k)) == LiveBytes(segs) - TAG - segs[k].size
    ensures Slack(FreeAt(segs, k)) == Slack(segs)
  {
    hide Slack, LiveBytes, Join;
    var a, b := segs[..k], segs[k + 1..];
    Around(segs, k);
    SlackAppend(a + [segs[k]], b);
    SlackAppend(a, [segs[k]]);
    Single(segs[k], 0);
    JoinConserves(a, segs[k].addr, TAG + segs[k].size, b);
  }

  lemma {:induction false} JoinConserves(a: seq<Segment>, addr: nat, size: nat, b: seq<Segment>)
    ensures LiveBytes(Join(a, addr, size, b)) == LiveBytes(a) + LiveBytes(b)
    ensures Slack(Join(a, addr, size, b)) == Slack(a) + Slack(b)
  {
    hide Slack, LiveBytes;
    var right := b != [] && b[0].Free?;
    var size' := if right then size + b[0].size else size;
    var b' := if right then b[1..] else b;
    if right {
      assert b == [b[0]] + b';
      SlackAppend([b[0]], b');
      Single(b[0], 0);
    }
    if a != [] && a[|a| - 1].Free? {
      var front, f := a[..|a| - 1], a[|a| - 1];
      var mid := Free(f.addr, f.size + size');
      assert a == front + [f];
      SlackAppend(front, [f]);
      SlackAppend(front, [mid]);
      SlackAppend(front + [mid], b');
      Single(f, 0);
      Single(mid, 0);
    } else {
      SlackAppend(a, [Free(addr, size')]);
      SlackAppend(a + [Free(addr, size')], b');
      Single(Free(addr, size'), 0);
    }
  }

  // ----- Memory and tiling together

  /** The tag an allocation carries. */
  predicate TagAt(m: Memory, addr: nat, size: nat) {
    HeaderAt(m, addr).canary == ALLOCATED_CANARY && HeaderAt(m, addr).size == size
  }

  predicate Tagged(m: Memory, segs: seq<Segment>) {
    forall i :: 0 <= i < |segs| && segs[i].Live? ==> TagAt(m, segs[i].addr, segs[i].size)
  }

  /** Memory holds the tiling: the forward chain is exactly its free blocks and every allocation has its tag. */
  predicate Arena(h: Heap, segs: seq<Segment>, lo: nat, capacity: nat) {
    && 0 < lo && lo + capacity <= |h.mem| <= U64
    && Shape(segs, lo, capacity)
    && Forward(h, Frees(segs))
    && Tagged(h.mem, segs)
  }

  /** The back links are right as well. */
  predicate Consistent(h: Heap, segs: seq<Segment>, lo: nat, capacity: nat) {
    Arena(h, segs, lo, capacity) && Backward(h, Frees(segs))
  }

  /** The back links are right but for those of the free blocks at `w`, which are what `w` says. */
  predicate ArenaExcept(h: Heap, segs: seq<Segment>, lo: nat, capacity: nat, w: map<nat, nat>) {
    Arena(h, segs, lo, capacity) && BackwardExcept(h, Frees(segs), w)
  }

  /** Every header in `ps` lies inside a free segment. */
  ghost predicate InFree(ps: set<nat>, segs: seq<Segment>) {
    forall p :: p in ps ==> exists i ::
        0 <= i < |segs| && segs[i].Free? && segs[i].addr <= p && p + HEADER <= segs[i].addr + segs[i].size
  }

  /** Bytes that no free segment holds are as they were: tags, client data, slack, and everything outside the arena. */
  ghost predicate Kept(m: Memory, after: Memory, segs: seq<Segment>, lo: nat, capacity: nat) {
    && |after| == |m|
    && (forall x :: 0 <= x < |m| && (x < lo || lo + capacity <= x) ==> after[x] == m[x])
    && (forall i, x ::
          0 <= i < |segs| && !segs[i].Free? && segs[i].addr <= x < segs[i].addr + Extent(segs[i]) && x < |m| ==>
          after[x] == m[x])
  }

  lemma {:induction false} UntouchedKept(m: Memory, after: Memory, ps: set<nat>, segs: seq<Segment>, lo: nat,
                                         capacity: nat)
    requires Untouched(m, after, ps) && InFree(ps, segs) && Tiled(segs, lo) && Total(segs) == capacity
    ensures Kept(m, after, segs, lo, capacity)
  {
    forall x | 0 <= x < |m| && (x < lo || lo + capacity <= x) ensures after[x] == m[x] {
      forall p | p in ps ensures x < p || p + HEADER <= x {
        var k :| 0 <= k < |segs| && segs[k].Free? && segs[k].addr <= p && p + HEADER <= segs[k].addr + segs[k].size;
        TiledOrder(segs, lo, k, k);
      }
    }
    forall i, x | 0 <= i < |segs| && !segs[i].Free? && segs[i].addr <= x < segs[i].addr + Extent(segs[i]) && x < |m|
      ensures after[x] == m[x]
    {
      forall p | p in ps ensures x < p || p + HEADER <= x {
        var k :| 0 <= k < |segs| && segs[k].Free? && segs[k].addr <= p && p + HEADER <= segs[k].addr + segs[k].size;
        TiledOrder(segs, lo, k, i);
        TiledOrder(segs, lo, i, k);
      }
    }
  }

  /** Tags outside free segments survive. */
  lemma TagKept(m: Memory, after: Memory, segs: seq<Segment>, lo: nat, capacity: nat, i: nat)
    requires Kept(m, after, segs, lo, capacity) && WellSized(segs) && i < |segs| && segs[i].Live?
    ensures HeaderAt(after, segs[i].addr) == HeaderAt(m, segs[i].addr)
  {
    var p := segs[i].addr;
    assert Sized(segs[i]);
    LoadKept(m, after, p);
    LoadKept(m, after, p + 8);
    LoadKept(m, after, p + 16);
    LoadKept(m, after, p + 24);
  }

  lemma {:induction false} FreeSegmentOf(segs: seq<Segment>, b: Block)
    requires b in Frees(segs)
    ensures exists i :: 0 <= i < |segs| && segs[i] == Free(b.addr, b.size)
  {
    if segs[0].Free? && b == Block(segs[0].addr, segs[0].size) {
      assert segs[0] == Free(b.addr, b.size);
    } else {
      assert b in Frees(segs[1..]);
      FreeSegmentOf(segs[1..], b);
      var i :| 0 <= i < |segs[1..]| && segs[1..][i] == Free(b.addr, b.size);
      assert segs[i + 1] == Free(b.addr, b.size);
    }
  }

  lemma {:induction false} ListInFree(bs: seq<Block>, segs: seq<Segment>)
    requires bs == Frees(segs) && WellSized(segs)
    ensures InFree(Addrs(bs), segs)
  {
    forall p | p in Addrs(bs)
      ensures exists i ::
                0 <= i < |segs| && segs[i].Free? && segs[i].addr <= p && p + HEADER <= segs[i].addr + segs[i].size
    {
      var j :| 0 <= j < |bs| && bs[j].addr == p;
      FreeSegmentOf(segs, bs[j]);
      var i :| 0 <= i < |segs| && segs[i] == Free(bs[j].addr, bs[j].size);
      assert Sized(segs[i]);
    }
  }

  /** The free list around segment `k`. */
  lemma {:induction false} FreesAround(segs: seq<Segment>, k: nat)
    requires k < |segs|
    ensures var own := if segs[k].Free? then [Block(segs[k].addr, segs[k].size)] else [];
            Frees(segs) == Frees(segs[..k]) + own + Frees(segs[k + 1..])
  {
    hide Frees;
    Around(segs, k);
    FreesAppend(segs[..k] + [segs[k]], segs[k + 1..]);
    FreesAppend(segs[..k], [segs[k]]);
    Single(segs[k], 0);
  }

  lemma FreesOfTaken(addr: nat, room: nat, size: nat)
    requires size + TAG <= room
    ensures Frees(Taken(addr, room, size)) ==
            if room - TAG - size >= HEADER then [Block(addr + TAG + size, room - TAG - size)] else []
  {
    hide Frees;
    var mid := Taken(addr, room, size);
    Single(mid[0], addr);
    if |mid| == 2 {
      assert mid == [mid[0]] + [mid[1]];
      Single(mid[1], addr);
      FreesAppend([mid[0]], [mid[1]]);
    } else {
      assert mid == [mid[0]];
    }
  }

  lemma FreesOfAllocateAt(segs: seq<Segment>, k: nat, size: nat)
    requires k < |segs| && Fits(segs[k], size)
    ensures var right := segs[k].size - TAG - size;
            Frees(AllocateAt(segs, k, size)) ==
            Frees(segs[..k])
            + (if right >= HEADER then [Block(segs[k].addr + TAG + size, right)] else [])
            + Frees(segs[k + 1..])
  {
    hide Frees, Taken;
    var mid := Taken(segs[k].addr, segs[k].size, size);
    FreesAppend(segs[..k] + mid, segs[k + 1..]);
    FreesAppend(segs[..k], mid);
    FreesOfTaken(segs[k].addr, segs[k].size, size);
  }

  /** The allocations and tags after segment `k` has been carved. */
  lemma TagsAfterAllocate(m: Memory, after: Memory, segs: seq<Segment>, k: nat, size: nat, lo: nat, capacity: nat)
    requires Shape(segs, lo, capacity) && k < |segs| && Fits(segs[k], size)
    requires Tagged(m, segs) && Kept(m, after, segs, lo, capacity) && TagAt(after, segs[k].addr, size)
    ensures Tagged(after, AllocateAt(segs, k, size))
  {
    hide HeaderAt, Kept, Tiled, Total;
    var mid := Taken(segs[k].addr, segs[k].size, size);
    var carved := AllocateAt(segs, k, size);
    forall i | 0 <= i < |carved| && carved[i].Live? ensures TagAt(after, carved[i].addr, carved[i].size) {
      if i < k {
        assert carved[i] == segs[i];
        TagKept(m, after, segs, lo, capacity, i);
      } else if i < k + |mid| {
        assert carved[i] == mid[i - k];
      } else {
        assert carved[i] == segs[i - |mid| + 1];
        TagKept(m, after, segs, lo, capacity, i - |mid| + 1);
      }
    }
  }

  // ----- Allocation refines the tiling

  lemma SpacedWithRest(l: seq<Block>, b: Block, rest: Block, r: seq<Block>, limit: nat)
    requires Spaced(l + [b] + r, limit) && Spaced(l + [rest] + r, limit) && b.addr + HEADER <= rest.addr
    ensures Spaced(l + [b, rest] + r, limit)
  {
    var all, x, y, i := l + [b, rest] + r, l + [b] + r, l + [rest] + r, |l|;
    forall j | 0 <= j < |all| ensures 0 < all[j].addr && all[j].addr + HEADER <= limit && all[j].size < U64 {
      assert all[j] == if j <= i then x[j] else y[j - 1];
    }
    forall j, k | 0 <= j < k < |all| ensures all[j].addr + HEADER <= all[k].addr {
      if k <= i {
        assert all[j] == x[j] && all[k] == x[k];
      } else if j > i {
        assert all[j] == y[j - 1] && all[k] == y[k - 1];
      } else if j < i {
        assert all[j] == y[j] && all[k] == y[k - 1];
      } else if k > i + 1 {
        assert all[j] == x[i] && all[k] == x[k - 1];
      }
    }
  }

  lemma MiddleOut(l: seq<Block>, b: Block, r: seq<Block>)
    ensures Without(l + [b] + r, |l|) == l + r
    ensures (l + [b] + r)[|l|] == b
  {
  }

  lemma MiddlePair(l: seq<Block>, b: Block, rest: Block, r: seq<Block>, size: nat)
    requires b.size == TAG + size + rest.size
    ensures var all := l + [b, rest] + r;
            && all[|l|] == b && all[|l| + 1] == rest && |all| == |l| + 2 + |r|
            && (r != [] ==> all[|l| + 2] == r[0])
            && Uncut(all, |l|, size) == l + [b] + r
            && Without(all, |l|) == l + [rest] + r
  {
    assert Without(l + [b, rest] + r, |l| + 1) == l + [b] + r;
  }

  lemma BesideRest(l: seq<Block>, b: Block, r: seq<Block>)
    ensures Beside(l + [b] + r, |l| + 1) == Beside(r, 0) && Beside(l + [b] + r, |l| + 2) == Beside(r, 1)
  {
  }

  /** The free block behind segment `k`. */
  function Following(segs: seq<Segment>, k: nat): set<nat>
    requires k < |segs|
  {
    Beside(Frees(segs[k + 1..]), 0)
  }

  /** Carving without a remainder worth keeping. */
  lemma CarveWholeSegment(h: Heap, segs: seq<Segment>, lo: nat, capacity: nat, k: nat, size: nat, repair: bool,
                          w: map<nat, nat>)
    requires ArenaExcept(h, segs, lo, capacity, w) && k < |segs| && Fits(segs[k], size) && HEADER <= size
    requires segs[k].size < size + TAG + HEADER && segs[k].addr !in w
    ensures var after := Carve(h, segs[k].addr, size, repair);
            && Forward(after, Frees(AllocateAt(segs, k, size)))
            && BackwardExcept(after, Frees(AllocateAt(segs, k, size)), w - Following(segs, k))
            && Kept(h.mem, after.mem, segs, lo, capacity) && TagAt(after.mem, segs[k].addr, size)
  {
    hide HeaderAt, Carve, Frees, Tiled, Total, Kept, Forward, BackwardExcept, Spaced, Addrs, Untouched, InFree,
         AllocateAt, Beside;
    var bs, l, r := Frees(segs), Frees(segs[..k]), Frees(segs[k + 1..]);
    var b := Block(segs[k].addr, segs[k].size);
    FreesAround(segs, k);
    MiddleOut(l, b, r);
    BesideRest(l, b, r);
    FreesOfAllocateAt(segs, k, size);
    FreesSpaced(segs, lo, |h.mem|);
    CarveWhole(h, bs, |l|, size, repair, w);
    ListInFree(bs, segs);
    UntouchedKept(h.mem, Carve(h, b.addr, size, repair).mem, Addrs(bs), segs, lo, capacity);
    assert l + [] + r == l + r;
  }

  lemma AddrsOf(l: seq<Block>, b: Block, rest: Block, r: seq<Block>)
    ensures Addrs(l + [b, rest] + r) == Addrs(l + [b] + r) + {rest.addr}
  {
    var all, x := l + [b, rest] + r, l + [b] + r;
    forall a ensures a in Addrs(all) <==> a in Addrs(x) + {rest.addr} {
      if j :| 0 <= j < |all| && all[j].addr == a {
        if j <= |l| {
          assert x[j].addr == a;
        } else if j > |l| + 1 {
          assert x[j - 1].addr == a;
        }
      }
      if j :| 0 <= j < |x| && x[j].addr == a {
        assert all[if j <= |l| then j else j + 1].addr == a;
      }
      if a == rest.addr {
        assert all[|l| + 1].addr == a;
      }
    }
  }

  lemma RestInFree(segs: seq<Segment>, k: nat, ps: set<nat>, size: nat)
    requires k < |segs| && Fits(segs[k], size) && segs[k].size >= size + TAG + HEADER && InFree(ps, segs)
    ensures InFree(ps + {segs[k].addr + TAG + size}, segs)
  {
  }

  /** The exceptions after an allocation: a split as written leaves the block behind the remainder with a back link that
      names the block taken, anything else rights the block behind. */
  function WrongAfterAllocate(segs: seq<Segment>, k: nat, size: nat, repair: bool, w: map<nat, nat>): map<nat, nat>
    requires k < |segs|
  {
    if segs[k].size < size + TAG + HEADER then w - Following(segs, k)
    else
      var others := w - {segs[k].addr + TAG + size};
      if repair then others - Following(segs, k) else Spoiled(others, Frees(segs[k + 1..]), 0, segs[k].addr)
  }

  /** Carving off the front. As written, the free block after the remainder, if any, keeps a wrong back link. */
  lemma CarveFrontSegment(h: Heap, segs: seq<Segment>, lo: nat, capacity: nat, k: nat, size: nat, repair: bool,
                          w: map<nat, nat>)
    requires ArenaExcept(h, segs, lo, capacity, w) && k < |segs| && Fits(segs[k], size) && HEADER <= size
    requires segs[k].size >= size + TAG + HEADER && segs[k].addr !in w
    ensures var after := Carve(h, segs[k].addr, size, repair);
            var bs', r := Frees(AllocateAt(segs, k, size)), Frees(segs[k + 1..]);
            && Forward(after, bs')
            && BackwardExcept(after, bs', WrongAfterAllocate(segs, k, size, repair, w))
            && (!repair && r != [] && r[0].addr !in w ==>
                  HeaderAt(after.mem, r[0].addr).prev == segs[k].addr && !Backward(after, bs'))
            && Kept(h.mem, after.mem, segs, lo, capacity) && TagAt(after.mem, segs[k].addr, size)
  {
    hide HeaderAt, Carve, Frees, Tiled, Total, Kept, Forward, BackwardExcept, Spaced, Addrs, Untouched, InFree,
         AllocateAt, Without, AddrOf, Beside;
    var bs, l, r := Frees(segs), Frees(segs[..k]), Frees(segs[k + 1..]);
    var right := segs[k].size - TAG - size;
    var b, rest := Block(segs[k].addr, segs[k].size), Block(segs[k].addr + TAG + size, right);
    var all := l + [b, rest] + r;
    FreesAround(segs, k);
    FreesOfAllocateAt(segs, k, size);
    AllocateKeepsShape(segs, k, size, lo, capacity);
    FreesSpaced(segs, lo, |h.mem|);
    FreesSpaced(AllocateAt(segs, k, size), lo, |h.mem|);
    SpacedWithRest(l, b, rest, r, |h.mem|);
    MiddlePair(l, b, rest, r, size);
    BesidePair(l, b, rest, r);
    TiledOrder(segs, lo, k, k);
    CarveFront(h, all, |l|, size, repair, w);
    var after := Carve(h, b.addr, size, repair);
    ListInFree(bs, segs);
    AddrsOf(l, b, rest, r);
    RestInFree(segs, k, Addrs(bs), size);
    UntouchedKept(h.mem, after.mem, Addrs(all), segs, lo, capacity);
    if !repair && r != [] && r[0].addr !in w {
      StaleCarve(after, l, b, rest, r, |h.mem|);
    }
  }

  lemma BesidePair(l: seq<Block>, b: Block, rest: Block, r: seq<Block>)
    ensures Beside(l + [b, rest] + r, |l| + 1) == {rest.addr}
    ensures Beside(l + [b, rest] + r, |l| + 2) == Beside(r, 0)
    ensures AddrOf(l + [b, rest] + r, |l|) == b.addr
    ensures forall w: map<nat, nat>, v: nat :: Spoiled(w, l + [b, rest] + r, |l| + 2, v) == Spoiled(w, r, 0, v)
  {
  }

  lemma StaleCarve(h: Heap, l: seq<Block>, b: Block, rest: Block, r: seq<Block>, limit: nat)
    requires r != [] && b.addr != rest.addr && HeaderAt(h.mem, r[0].addr).prev == b.addr
    ensures !Backward(h, l + [rest] + r)
  {
    hide HeaderAt;
    var bs := l + [rest] + r;
    assert bs[|l| + 1] == r[0] && AddrOf(bs, |l|) == rest.addr;
    assert Headers(h.mem, bs)[|l| + 1].prev == b.addr;
  }

  /** allocate of a block whose own back link is right keeps the arena, whatever back links are wrong elsewhere, and
      writes nothing outside free blocks. */
  lemma AllocateLoose(h: Heap, segs: seq<Segment>, lo: nat, capacity: nat, k: nat, size: nat, repair: bool,
                      w: map<nat, nat>)
    requires ArenaExcept(h, segs, lo, capacity, w) && k < |segs| && Fits(segs[k], size) && HEADER <= size
    requires segs[k].addr !in w
    ensures var after := Carve(h, segs[k].addr, size, repair);
            && ArenaExcept(after, AllocateAt(segs, k, size), lo, capacity, WrongAfterAllocate(segs, k, size, repair, w))
            && Kept(h.mem, after.mem, segs, lo, capacity)
  {
    hide HeaderAt, Carve, Frees, Tiled, Total, Forward, BackwardExcept, AllocateAt, Following;
    AllocateKeepsShape(segs, k, size, lo, capacity);
    if segs[k].size < size + TAG + HEADER {
      CarveWholeSegment(h, segs, lo, capacity, k, size, repair, w);
    } else {
      CarveFrontSegment(h, segs, lo, capacity, k, size, repair, w);
    }
    TagsAfterAllocate(h.mem, Carve(h, segs[k].addr, size, repair).mem, segs, k, size, lo, capacity);
  }

  /** From right back links, they stay right exactly when the code repairs them, did not split, or split the last free
      block. */
  lemma AllocateRefines(h: Heap, segs: seq<Segment>, lo: nat, capacity: nat, k: nat, size: nat, repair: bool)
    requires Consistent(h, segs, lo, capacity) && k < |segs| && Fits(segs[k], size) && HEADER <= size
    ensures var after := Carve(h, segs[k].addr, size, repair);
            var segs' := AllocateAt(segs, k, size);
            && Arena(after, segs', lo, capacity)
            && (Consistent(after, segs', lo, capacity) <==>
                  repair || segs[k].size < size + TAG + HEADER || Frees(segs[k + 1..]) == [])
            && Kept(h.mem, after.mem, segs, lo, capacity)
  {
    hide HeaderAt, Carve, Frees, Tiled, Total, Forward, BackwardExcept, AllocateAt, Kept, Tagged;
    AllocateLoose(h, segs, lo, capacity, k, size, repair, map[]);
    if segs[k].size >= size + TAG + HEADER && !repair && Frees(segs[k + 1..]) != [] {
      CarveFrontSegment(h, segs, lo, capacity, k, size, repair, map[]);
    } else {
      assert WrongAfterAllocate(segs, k, size, repair, map[]) == map[];
    }
  }

  // ----- Freeing refines the tiling

  /** The tiling with segment `k` turned into a free block, before it is joined. */
  function Opened(segs: seq<Segment>, k: nat): seq<Segment>
    requires k < |segs|
  {
    segs[k := Free(segs[k].addr, TAG + segs[k].size)]
  }

  lemma {:induction false} OpenedTiles(segs: seq<Segment>, k: nat, lo: nat)
    requires k < |segs| && Tiled(segs, lo) && WellSized(segs) && segs[k].Live?
    ensures Tiled(Opened(segs, k), lo) && Total(Opened(segs, k)) == Total(segs) && WellSized(Opened(segs, k))
  {
    hide Tiled, Total;
    var f := Free(segs[k].addr, TAG + segs[k].size);
    Around(segs, k);
    AddrAt(segs, k, lo);
    Single(segs[k], lo);
    Single(f, segs[k].addr);
    Retile(segs[..k], [segs[k]], [f], segs[k + 1..], lo);
    assert Opened(segs, k) == segs[..k] + [f] + segs[k + 1..];
    assert Sized(segs[k]);
  }

  lemma {:induction false} FreesOpened(segs: seq<Segment>, k: nat)
    requires k < |segs| && segs[k].Live?
    ensures Frees(Opened(segs, k)) ==
              Frees(segs[..k]) + [Block(segs[k].addr, TAG + segs[k].size)] + Frees(segs[k + 1..])
    ensures Frees(segs) == Frees(segs[..k]) + Frees(segs[k + 1..])
  {
    hide Frees;
    FreesAround(segs, k);
    FreesAround(Opened(segs, k), k);
    assert Opened(segs, k)[..k] == segs[..k] && Opened(segs, k)[k + 1..] == segs[k + 1..];
  }

  /** Block adjacency on the list is segment adjacency in the tiling. */
  lemma {:induction false} AdjacencyAgrees(segs: seq<Segment>, k: nat, lo: nat)
    requires k < |segs| && Tiled(segs, lo) && WellSized(segs) && segs[k].Live? && 0 < lo && lo + Total(segs) <= U64
    ensures var all, i := Frees(Opened(segs, k)), |Frees(segs[..k])|;
            && i < |all| && all[i] == Block(segs[k].addr, TAG + segs[k].size)
            && (Adjacent(all, i) <==> k + 1 < |segs| && segs[k + 1].Free?)
            && (Adjacent(all, i - 1) <==> k > 0 && segs[k - 1].Free?)
  {
    hide Frees, Tiled, Total;
    var a, b := segs[..k], segs[k + 1..];
    AddrAt(segs, k, lo);
    FreesOpened(segs, k);
    FirstFree(b, segs[k].addr + Extent(segs[k]));
    LastFree(a, lo);
    var all, l, r := Frees(Opened(segs, k)), Frees(a), Frees(b);
    NoFreeEnds(a);
    NoFreeEnds(b);
    AdjacentMiddle(l, Block(segs[k].addr, TAG + segs[k].size), r);
    assert b != [] ==> b[0] == segs[k + 1];
    assert a != [] ==> a[|a| - 1] == segs[k - 1];
  }

  lemma AdjacentMiddle(l: seq<Block>, b: Block, r: seq<Block>)
    ensures (l + [b] + r)[|l|] == b
    ensures Adjacent(l + [b] + r, |l|) <==> r != [] && b.addr + b.size == r[0].addr
    ensures Adjacent(l + [b] + r, |l| - 1) <==> l != [] && l[|l| - 1].addr + l[|l| - 1].size == b.addr
  {
  }

  /** A stretch with no free block has no free segment at either end. */
  lemma {:induction false} NoFreeEnds(segs: seq<Segment>)
    ensures segs == [] ==> Frees(segs) == []
    ensures Frees(segs) == [] ==> segs == [] || !segs[0].Free?
    ensures Frees(segs) == [] ==> segs == [] || !segs[|segs| - 1].Free?
  {
    if segs != [] && segs[|segs| - 1].Free? {
      var last := |segs| - 1;
      assert segs == segs[..last] + [segs[last]];
      FreesAppend(segs[..last], [segs[last]]);
      Single(segs[last], 0);
    }
  }

  /** The free list of the joined tiling is the joined free list. */
  lemma {:induction false} FreesOfFreeAt(segs: seq<Segment>, k: nat, lo: nat)
    requires k < |segs| && Tiled(segs, lo) && WellSized(segs) && segs[k].Live? && 0 < lo && lo + Total(segs) <= U64
    ensures |Frees(segs[..k])| < |Frees(Opened(segs, k))|
    ensures Frees(FreeAt(segs, k)) == Rejoined(Frees(Opened(segs, k)), |Frees(segs[..k])|)
  {
    hide Frees, Tiled, Total, Adjacent, Merged;
    var a, b := segs[..k], segs[k + 1..];
    var addr, size := segs[k].addr, TAG + segs[k].size;
    AddrAt(segs, k, lo);
    FreesOpened(segs, k);
    AdjacencyAgrees(segs, k, lo);
    var l := Frees(a);
    var all := Frees(Opened(segs, k));
    var right := b != [] && b[0].Free?;
    var size' := if right then size + b[0].size else size;
    var b' := if right then b[1..] else b;
    var mid := l + [Block(addr, size')] + Frees(b');
    assert b != [] ==> b[0] == segs[k + 1];
    assert a != [] ==> a[|a| - 1] == segs[k - 1];
    assert (if Adjacent(all, |l|) then Merged(all, |l|) else all) == mid by {
      if right {
        FirstFree(b, addr + size);
        MergedMiddle(l, Block(addr, size), Frees(b));
      }
    }
    assert Adjacent(mid, |l| - 1) == Adjacent(all, |l| - 1) by {
      AdjacentMiddle(l, Block(addr, size), Frees(b));
      AdjacentMiddle(l, Block(addr, size'), Frees(b'));
    }
    JoinedFrees(a, addr, size', b', lo);
  }

  lemma {:induction false} JoinedFrees(a: seq<Segment>, addr: nat, size: nat, b: seq<Segment>, lo: nat)
    requires Tiled(a, lo) && WellSized(a) && 0 < lo && lo + Total(a) <= U64
    ensures var mid := Frees(a) + [Block(addr, size)] + Frees(b);
            if a != [] && a[|a| - 1].Free? then
              Frees(a) != []
              && Frees(a[..|a| - 1] + [Free(a[|a| - 1].addr, a[|a| - 1].size + size)] + b) ==
                  Merged(mid, |Frees(a)| - 1)
            else Frees(a + [Free(addr, size)] + b) == mid
  {
    hide Frees, Tiled, Total, Merged;
    LastFree(a, lo);
    if a != [] && a[|a| - 1].Free? {
      var f, front := a[|a| - 1], a[..|a| - 1];
      var l' := Frees(front);
      var tail := [Block(addr, size)] + Frees(b);
      assert Frees(a) + [Block(addr, size)] + Frees(b) == l' + [Block(f.addr, f.size)] + tail;
      assert tail[1..] == Frees(b);
      MergedMiddle(l', Block(f.addr, f.size), tail);
      FreesLaid(front, Free(f.addr, f.size + size), b);
    } else {
      FreesLaid(a, Free(addr, size), b);
    }
  }

  lemma MergedMiddle(l: seq<Block>, b: Block, r: seq<Block>)
    requires r != []
    ensures Merged(l + [b] + r, |l|) == l + [Block(b.addr, b.size + r[0].size)] + r[1..]
  {
  }

  lemma {:induction false} FreesLaid(a: seq<Segment>, f: Segment, b: seq<Segment>)
    requires f.Free?
    ensures Frees(a + [f] + b) == Frees(a) + [Block(f.addr, f.size)] + Frees(b)
  {
    hide Frees;
    FreesAppend(a + [f], b);
    FreesAppend(a, [f]);
    Single(f, 0);
  }

  lemma JoinLive(a: seq<Segment>, addr: nat, size: nat, b: seq<Segment>, i: nat)
    requires i < |Join(a, addr, size, b)| && Join(a, addr, size, b)[i].Live?
    ensures Join(a, addr, size, b)[i] in a || Join(a, addr, size, b)[i] in b
  {
  }

  /** Tags after a free: every allocation left was there before, elsewhere. */
  lemma {:induction false} TagsAfterFree(m: Memory, after: Memory, segs: seq<Segment>, k: nat, lo: nat, capacity: nat)
    requires Tiled(segs, lo) && WellSized(segs) && k < |segs| && segs[k].Live?
    requires Tagged(m, segs) && Kept(m, after, Opened(segs, k), lo, capacity) && WellSized(Opened(segs, k))
    ensures Tagged(after, FreeAt(segs, k))
  {
    hide HeaderAt, Kept, Tiled, WellSized, Join;
    var joined, wide := FreeAt(segs, k), Opened(segs, k);
    forall i | 0 <= i < |joined| && joined[i].Live? ensures TagAt(after, joined[i].addr, joined[i].size) {
      JoinLive(segs[..k], segs[k].addr, TAG + segs[k].size, segs[k + 1..], i);
      var j: nat :| j < |segs| && j != k && segs[j] == joined[i];
      assert wide[j] == segs[j];
      TagKept(m, after, wide, lo, capacity, j);
    }
  }

  lemma {:induction false} WithoutFreed(segs: seq<Segment>, k: nat)
    requires k < |segs| && segs[k].Live?
    ensures |Frees(segs[..k])| < |Frees(Opened(segs, k))|
    ensures Without(Frees(Opened(segs, k)), |Frees(segs[..k])|) == Frees(segs)
  {
    hide Frees;
    FreesOpened(segs, k);
    MiddleOut(Frees(segs[..k]), Block(segs[k].addr, TAG + segs[k].size), Frees(segs[k + 1..]));
  }

  /** No joined block is longer than the arena. */
  lemma {:induction false} SizesFit(segs: seq<Segment>)
    ensures forall i, j :: 0 <= i < j < |Frees(segs)| ==> Frees(segs)[i].size + Frees(segs)[j].size <= Total(segs)
    ensures forall i, j, l :: 0 <= i < j < l < |Frees(segs)| ==>
              Frees(segs)[i].size + Frees(segs)[j].size + Frees(segs)[l].size <= Total(segs)
    ensures forall i :: 0 <= i < |Frees(segs)| ==> Frees(segs)[i].size <= Total(segs)
  {
    if segs != [] {
      SizesFit(segs[1..]);
    }
  }

  /** Which predecessor insert_into_free_list finds for the block freed from segment `k`: the last free block before
      it. */
  function Before(segs: seq<Segment>, k: nat): nat
    requires k < |segs|
  {
    var l := Frees(segs[..k]);
    if l == [] then 0 else l[|l| - 1].addr
  }

  /** As written, free leaves a wrong back link: the freed block has free blocks on both sides and touches neither. */
  predicate FreeGoesStale(segs: seq<Segment>, k: nat)
    requires k < |segs|
  {
    && Frees(segs[..k]) != [] && Frees(segs[k + 1..]) != []
    && !(k > 0 && segs[k - 1].Free?) && !(k + 1 < |segs| && segs[k + 1].Free?)
  }

  /** The exceptions after a free. */
  function WrongAfterFree(segs: seq<Segment>, k: nat, repair: bool, w: map<nat, nat>): map<nat, nat>
    requires k < |segs|
  {
    var all, i := Frees(Opened(segs, k)), |Frees(segs[..k])|;
    if i < |all| then WrongAfterGiveBack(all, i, repair, w) else w
  }

  /** free keeps the arena and joins what it touches, whatever back links are wrong. From right ones, they stay right
      exactly when the code repairs them or the freed block is at an end of the list or touches a free neighbour. Only
      free blocks and the freed one are written. */
  lemma FreeLoose(h: Heap, segs: seq<Segment>, lo: nat, capacity: nat, k: nat, repair: bool, w: map<nat, nat>)
    requires ArenaExcept(h, segs, lo, capacity, w) && k < |segs| && segs[k].Live?
    ensures var after := GiveBack(h, segs[k].addr, Before(segs, k), repair);
            var segs' := FreeAt(segs, k);
            && ArenaExcept(after, segs', lo, capacity, WrongAfterFree(segs, k, repair, w))
            && (w == map[] ==> (Backward(after, Frees(segs')) <==> repair || !FreeGoesStale(segs, k)))
            && Kept(h.mem, after.mem, Opened(segs, k), lo, capacity)
  {
    hide HeaderAt, GiveBack, Frees, Tiled, Total, Forward, BackwardExcept, Spaced, Addrs, Untouched, InFree, Kept,
         Without, Adjacent, Rejoined, WellSized, Coalesced, Join, FreeAt, Opened, WrongAfterGiveBack;
    var all, i := Frees(Opened(segs, k)), |Frees(segs[..k])|;
    var after := GiveBack(h, segs[k].addr, Before(segs, k), repair);
    FreeKeepsShape(segs, k, lo, capacity);
    OpenedTiles(segs, k, lo);
    FreesSpaced(Opened(segs, k), lo, |h.mem|);
    WithoutFreed(segs, k);
    AdjacencyAgrees(segs, k, lo);
    SizesFit(Opened(segs, k));
    BeforeIs(segs, k);
    GiveBackLinks(h, all, i, repair, w);
    FreesOfFreeAt(segs, k, lo);
    ListInFree(all, Opened(segs, k));
    UntouchedKept(h.mem, after.mem, Addrs(all), Opened(segs, k), lo, capacity);
    TagsAfterFree(h.mem, after.mem, segs, k, lo, capacity);
  }

  lemma FreeRefines(h: Heap, segs: seq<Segment>, lo: nat, capacity: nat, k: nat, repair: bool)
    requires Consistent(h, segs, lo, capacity) && k < |segs| && segs[k].Live?
    ensures var after := GiveBack(h, segs[k].addr, Before(segs, k), repair);
            var segs' := FreeAt(segs, k);
            && Arena(after, segs', lo, capacity)
            && (Consistent(after, segs', lo, capacity) <==> repair || !FreeGoesStale(segs, k))
            && Kept(h.mem, after.mem, Opened(segs, k), lo, capacity)
  {
    hide Arena, GiveBack, Frees, BackwardExcept, Kept, FreeAt, Opened, FreeGoesStale, WrongAfterFree;
    FreeLoose(h, segs, lo, capacity, k, repair, map[]);
  }

  lemma BeforeIs(segs: seq<Segment>, k: nat)
    requires k < |segs| && segs[k].Live?
    ensures var all, i := Frees(Opened(segs, k)), |Frees(segs[..k])|;
            && i < |all|
            && Before(segs, k) == AddrOf(all, i - 1)
            && |all| == i + 1 + |Frees(segs[k + 1..])|
  {
    hide Frees;
    FreesOpened(segs, k);
  }

  // ----- Runs

  /** A fresh sub-heap: one free block. */
  lemma InitialConsistent(m: Memory, lo: nat, capacity: nat)
    requires 0 < lo && lo + capacity <= |m| <= U64 && HEADER <= capacity
    ensures Consistent(Heap(NewFree(m, lo, capacity), lo), [Free(lo, capacity)], lo, capacity)
  {
    hide HeaderAt, NewFree, Untouched, Tiled, Total, Frees;
    NewFreeEffect(m, lo, capacity);
    SameLength(m, NewFree(m, lo, capacity), {lo});
    Single(Free(lo, capacity), lo);
  }

  /** The heap and its tiling. */
  datatype State = State(heap: Heap, segs: seq<Segment>)

  datatype Call = Allocate(size: nat) | Release(k: nat) | ClientWrite(k: nat, at: nat, byte: Byte)

  /** allocate rounds small requests up to the size of a free block's header. */
  function Rounded(size: nat): nat {
    if size < HEADER then HEADER else size
  }

  /** The address an allocation answers with: the first free block that has room, behind the tag. */
  function Answer(s: State, size: nat): Option<nat> {
    match FirstFit(s.segs, Rounded(size), 0)
    case None => None
    case Some(k) => Some(s.segs[k].addr + TAG)
  }

  /** Clients free what they hold and write inside it; `k` picks an outstanding allocation in address order of
      segments. */
  predicate Legal(s: State, call: Call) {
    match call
    case Allocate(_) => true
    case Release(k) => k < |s.segs| && s.segs[k].Live?
    case ClientWrite(k, at, _) =>
      && k < |s.segs| && s.segs[k].Live? && at < s.segs[k].size
      && s.segs[k].addr + TAG + at < |s.heap.mem|
  }

  function Perform(s: State, call: Call, repair: bool): State
    requires Legal(s, call)
  {
    match call
    case Allocate(size) =>
      (match FirstFit(s.segs, Rounded(size), 0)
       case None => s
       case Some(k) =>
         State(Carve(s.heap, s.segs[k].addr, Rounded(size), repair), AllocateAt(s.segs, k, Rounded(size))))
    case Release(k) => State(GiveBack(s.heap, s.segs[k].addr, Before(s.segs, k), repair), FreeAt(s.segs, k))
    case ClientWrite(k, at, byte) =>
      State(s.heap.(mem := s.heap.mem[s.segs[k].addr + TAG + at := byte]), s.segs)
  }

  /** The call leaves every back link right even without the two missing writes: an allocation that does not split or
      splits the last free block, and a free at an end of the list or next to a free block. */
  predicate Harmless(s: State, call: Call)
    requires Legal(s, call)
  {
    match call
    case Allocate(size) =>
      (match FirstFit(s.segs, Rounded(size), 0)
       case None => true
       case Some(k) => s.segs[k].size < Rounded(size) + TAG + HEADER || Frees(s.segs[k + 1..]) == [])
    case Release(k) => !FreeGoesStale(s.segs, k)
    case ClientWrite(_, _, _) => true
  }

  lemma ClientWriteKeeps(s: State, call: Call, lo: nat, capacity: nat, w: map<nat, nat>)
    requires ArenaExcept(s.heap, s.segs, lo, capacity, w) && Legal(s, call) && call.ClientWrite?
    ensures ArenaExcept(Perform(s, call, false).heap, s.segs, lo, capacity, w)
  {
    hide HeaderAt, NextLinks, PrevLinks, Frees, Shape;
    var x := s.segs[call.k].addr + TAG + call.at;
    var after := s.heap.mem[x := call.byte];
    var bs := Frees(s.segs);
    forall i | 0 <= i < |s.segs| && (s.segs[i].Free? || s.segs[i].Live?)
      ensures HeaderAt(after, s.segs[i].addr) == HeaderAt(s.heap.mem, s.segs[i].addr)
         || (s.segs[i].Live? && HeaderAt(after, s.segs[i].addr).canary == HeaderAt(s.heap.mem, s.segs[i].addr).canary
             && HeaderAt(after, s.segs[i].addr).size == HeaderAt(s.heap.mem, s.segs[i].addr).size)
    {
      WriteMisses(s, call, lo, capacity, i);
    }
    forall j | 0 <= j < |bs| ensures HeaderAt(after, bs[j].addr) == HeaderAt(s.heap.mem, bs[j].addr) {
      FreeSegmentOf(s.segs, bs[j]);
    }
    assert Headers(after, bs) == Headers(s.heap.mem, bs);
  }

  /** A byte of an allocation's data is part of no other segment's header and not of its own tag. */
  lemma WriteMisses(s: State, call: Call, lo: nat, capacity: nat, i: nat)
    requires Shape(s.segs, lo, capacity) && Legal(s, call) && call.ClientWrite? && i < |s.segs| && !s.segs[i].Lost?
    ensures var x := s.segs[call.k].addr + TAG + call.at;
            var after := s.heap.mem[x := call.byte];
            var was, now := HeaderAt(s.heap.mem, s.segs[i].addr), HeaderAt(after, s.segs[i].addr);
            if i == call.k then now.canary == was.canary && now.size == was.size else now == was
  {
    hide Frees, Coalesced, Tiled, Total, Load;
    var x := s.segs[call.k].addr + TAG + call.at;
    var after := s.heap.mem[x := call.byte];
    var p := s.segs[i].addr;
    assert Sized(s.segs[i]);
    TiledOrder(s.segs, lo, i, call.k);
    TiledOrder(s.segs, lo, call.k, i);
    LoadKept(s.heap.mem, after, p);
    LoadKept(s.heap.mem, after, p + 8);
    if i != call.k {
      LoadKept(s.heap.mem, after, p + 16);
      LoadKept(s.heap.mem, after, p + 24);
    }
  }

  /** One call from consistent links: the forward chain is always right, the back links exactly when the code repairs
      them or the call is harmless. */
  lemma PerformKeeps(s: State, call: Call, repair: bool, lo: nat, capacity: nat)
    requires Consistent(s.heap, s.segs, lo, capacity) && Legal(s, call)
    ensures var t := Perform(s, call, repair);
            && Arena(t.heap, t.segs, lo, capacity)
            && (Consistent(t.heap, t.segs, lo, capacity) <==> repair || Harmless(s, call))
  {
    hide Carve, GiveBack, Shape, Forward, BackwardExcept, Tagged, AllocateAt, FreeAt, Frees, Before, FreeGoesStale;
    match call
    case Allocate(size) =>
      var k := FirstFit(s.segs, Rounded(size), 0);
      if k.Some? {
        AllocateRefines(s.heap, s.segs, lo, capacity, k.value, Rounded(size), repair);
      }
    case Release(k) => FreeRefines(s.heap, s.segs, lo, capacity, k, repair);
    case ClientWrite(_, _, _) => ClientWriteKeeps(s, call, lo, capacity, map[]);
  }

  predicate Run(states: seq<State>, calls: seq<Call>, repair: bool) {
    && |states| == |calls| + 1
    && forall i :: 0 <= i < |calls| ==>
        Legal(states[i], calls[i]) && states[i + 1] == Perform(states[i], calls[i], repair)
  }

  /** With the two missing writes, every run keeps the list ordered, complete and linked both ways over a gapless,
      coalesced tiling; as written, so does every run of harmless calls. */
  lemma {:induction false} RunConsistent(states: seq<State>, calls: seq<Call>, repair: bool, lo: nat, capacity: nat,
                                         i: nat)
    requires Run(states, calls, repair) && i < |states|
    requires Consistent(states[0].heap, states[0].segs, lo, capacity)
    requires repair || forall j :: 0 <= j < |calls| ==> Legal(states[j], calls[j]) && Harmless(states[j], calls[j])
    ensures Consistent(states[i].heap, states[i].segs, lo, capacity)
  {
    hide Consistent, Perform, Harmless, Legal;
    if i > 0 {
      RunConsistent(states, calls, repair, lo, capacity, i - 1);
      PerformKeeps(states[i - 1], calls[i - 1], repair, lo, capacity);
    }
  }

  // ----- Runs of the code as written, past the first wrong link

  /** The block an allocation takes has the right back link: all that the code reads of it when it unlinks the block. */
  predicate TakesRight(s: State, call: Call)
    requires Legal(s, call)
  {
    match call
    case Allocate(size) =>
      (match FirstFit(s.segs, Rounded(size), 0)
       case None => true
       case Some(k) => HeaderAt(s.heap.mem, s.segs[k].addr).prev == Before(s.segs, k))
    case _ => true
  }

  /** The free blocks with wrong back links, and what these say. */
  function Wrong(h: Heap, segs: seq<Segment>): map<nat, nat> {
    var bs := Frees(segs);
    map a | a in set i | 0 <= i < |bs| && HeaderAt(h.mem, bs[i].addr).prev != AddrOf(bs, i - 1) :: bs[i].addr ::
      HeaderAt(h.mem, a).prev
  }

  /** Every exception of `w` is one of `v`, and says the same. */
  predicate Among(w: map<nat, nat>, v: map<nat, nat>) {
    forall a :: a in w ==> a in v && w[a] == v[a]
  }

  /** Those that may be wrong after a call: a split, or a free that lands behind another block, spoils the block behind;
      taking a block whole, freeing in front of the list and every joining right the block behind. */
  function WrongAfter(s: State, call: Call, repair: bool, w: map<nat, nat>): map<nat, nat>
    requires Legal(s, call)
  {
    match call
    case Allocate(size) =>
      (match FirstFit(s.segs, Rounded(size), 0)
       case None => w
       case Some(k) => WrongAfterAllocate(s.segs, k, Rounded(size), repair, w))
    case Release(k) => WrongAfterFree(s.segs, k, repair, w)
    case ClientWrite(_, _, _) => w
  }

  lemma WrongIsExcept(h: Heap, segs: seq<Segment>, lo: nat, capacity: nat)
    requires Arena(h, segs, lo, capacity)
    ensures ArenaExcept(h, segs, lo, capacity, Wrong(h, segs))
  {
    hide HeaderAt, Frees, NextLinks;
    var bs := Frees(segs);
    forall i | 0 <= i < |bs|
      ensures Headers(h.mem, bs)[i].prev == Back(Wrong(h, segs), bs[i].addr, AddrOf(bs, i - 1))
    {
      assert Headers(h.mem, bs)[i] == HeaderAt(h.mem, bs[i].addr);
    }
  }

  lemma ExceptIsWrong(h: Heap, segs: seq<Segment>, lo: nat, capacity: nat, w: map<nat, nat>)
    requires ArenaExcept(h, segs, lo, capacity, w)
    ensures Among(Wrong(h, segs), w)
  {
    hide HeaderAt, Frees, NextLinks;
    var bs := Frees(segs);
    forall i | 0 <= i < |bs|
      ensures HeaderAt(h.mem, bs[i].addr).prev == Back(w, bs[i].addr, AddrOf(bs, i - 1))
    {
      PrevAt(h, bs, i, w);
    }
  }

  lemma TakenNotWrong(h: Heap, segs: seq<Segment>, lo: nat, capacity: nat, k: nat)
    requires Arena(h, segs, lo, capacity) && k < |segs| && segs[k].Free?
    ensures segs[k].addr in Wrong(h, segs) <==> HeaderAt(h.mem, segs[k].addr).prev != Before(segs, k)
  {
    hide HeaderAt, Frees, NextLinks, Tiled, Total, WellSized, Coalesced;
    var bs, l := Frees(segs), Frees(segs[..k]);
    FreesAround(segs, k);
    FreesSpaced(segs, lo, |h.mem|);
    assert bs[|l|].addr == segs[k].addr && AddrOf(bs, |l| - 1) == Before(segs, k);
    forall i | 0 <= i < |bs| && bs[i].addr == segs[k].addr ensures i == |l| {
    }
  }

  /** A call that takes no block with a wrong back link keeps the arena, and leaves wrong at most what it spoils and
      does not right. */
  lemma PerformLoose(s: State, call: Call, repair: bool, lo: nat, capacity: nat)
    requires Arena(s.heap, s.segs, lo, capacity) && Legal(s, call) && TakesRight(s, call)
    ensures var t := Perform(s, call, repair);
            && Arena(t.heap, t.segs, lo, capacity)
            && Among(Wrong(t.heap, t.segs), WrongAfter(s, call, repair, Wrong(s.heap, s.segs)))
  {
    hide Carve, GiveBack, Arena, BackwardExcept, AllocateAt, FreeAt, Frees, Before, WrongAfterAllocate, WrongAfterFree,
         Wrong, HeaderAt;
    var t, w := Perform(s, call, repair), Wrong(s.heap, s.segs);
    WrongIsExcept(s.heap, s.segs, lo, capacity);
    match call
    case Allocate(size) =>
      var k := FirstFit(s.segs, Rounded(size), 0);
      if k.Some? {
        TakenNotWrong(s.heap, s.segs, lo, capacity, k.value);
        AllocateLoose(s.heap, s.segs, lo, capacity, k.value, Rounded(size), repair, w);
        ExceptIsWrong(t.heap, t.segs, lo, capacity, WrongAfterAllocate(s.segs, k.value, Rounded(size), repair, w));
      }
    case Release(k) =>
      FreeLoose(s.heap, s.segs, lo, capacity, k, repair, w);
      ExceptIsWrong(t.heap, t.segs, lo, capacity, WrongAfterFree(s.segs, k, repair, w));
    case ClientWrite(_, _, _) =>
      ClientWriteKeeps(s, call, lo, capacity, w);
      ExceptIsWrong(t.heap, t.segs, lo, capacity, w);
  }

  /** Which coalescings heal: a free that touches a free block on either side leaves the back link of the free block
      behind right, and one that touches the block behind also rights the link of the block after that. */
  lemma JoiningHeals(segs: seq<Segment>, k: nat, lo: nat, capacity: nat, repair: bool, w: map<nat, nat>)
    requires Shape(segs, lo, capacity) && 0 < lo && lo + capacity <= U64 && k < |segs| && segs[k].Live?
    ensures (k > 0 && segs[k - 1].Free?) || (k + 1 < |segs| && segs[k + 1].Free?) ==>
              Among(WrongAfterFree(segs, k, repair, w), w - Following(segs, k))
    ensures k + 1 < |segs| && segs[k + 1].Free? ==>
              Among(WrongAfterFree(segs, k, repair, w), w - Beside(Frees(segs[k + 1..]), 1))
    ensures Among(WrongAfterFree(segs, k, repair, w),
                  Spoiled(w, Frees(segs[k + 1..]), 0, Before(segs, k)))
  {
    hide Frees, Tiled, Total, Adjacent, Beside, Opened, WrongAfterGiveBack, Spoiled, Among, Spaced;
    var l, r := Frees(segs[..k]), Frees(segs[k + 1..]);
    var all := Frees(Opened(segs, k));
    AdjacencyAgrees(segs, k, lo);
    FreesOpened(segs, k);
    OpenedTiles(segs, k, lo);
    FreesSpaced(Opened(segs, k), lo, lo + capacity);
    BeforeIs(segs, k);
    BesideRest(l, Block(segs[k].addr, TAG + segs[k].size), r);
    SpoiledRest(w, l, Block(segs[k].addr, TAG + segs[k].size), r, Before(segs, k));
    GiveBackHeals(all, |l|, repair, w, lo + capacity);
  }

  lemma SpoiledRest(w: map<nat, nat>, l: seq<Block>, b: Block, r: seq<Block>, v: nat)
    ensures Spoiled(w, l + [b] + r, |l| + 1, v) == Spoiled(w, r, 0, v)
  {
  }

  /** The exceptions after a block is given back, as facts about its neighbours. */
  lemma GiveBackHeals(bs: seq<Block>, i: nat, repair: bool, w: map<nat, nat>, limit: nat)
    requires i < |bs| && Spaced(bs, limit)
    ensures var w' := WrongAfterGiveBack(bs, i, repair, w);
            && (Adjacent(bs, i) || Adjacent(bs, i - 1) ==> Among(w', w - Beside(bs, i + 1)))
            && (Adjacent(bs, i) ==> Among(w', w - Beside(bs, i + 2)))
            && Among(w', Spoiled(w, bs, i + 1, AddrOf(bs, i - 1)))
  {
    hide Merged, AddrOf;
    MergedBefore(bs, i);
    var inserted := WrongAfterInsert(bs, i, repair, w);
    assert Among(inserted, Spoiled(w, bs, i + 1, AddrOf(bs, i - 1)));
    assert Among(inserted - Beside(bs, i + 1), w - Beside(bs, i + 1));
    assert Adjacent(bs, i) ==> Among(WrongAfterJoin(bs, i, inserted), inserted - Beside(bs, i + 1) - Beside(bs, i + 2));
    var bs1 := if Adjacent(bs, i) then Merged(bs, i) else bs;
    var joined := WrongAfterJoin(bs, i, inserted);
    assert Among(WrongAfterJoin(bs1, i - 1, joined), joined);
    assert !Adjacent(bs, i) && Adjacent(bs, i - 1) ==>
        Among(WrongAfterJoin(bs1, i - 1, joined), inserted - Beside(bs, i + 1));
  }

  /** In every run, as written too, the forward list stays ordered and complete over a gapless, coalesced tiling up to
      the first allocation that takes a block with a wrong back link. */
  lemma {:induction false} RunForward(states: seq<State>, calls: seq<Call>, repair: bool, lo: nat, capacity: nat,
                                      i: nat)
    requires Run(states, calls, repair) && i < |states|
    requires Arena(states[0].heap, states[0].segs, lo, capacity)
    requires forall j :: 0 <= j < i ==> Legal(states[j], calls[j]) && TakesRight(states[j], calls[j])
    ensures Arena(states[i].heap, states[i].segs, lo, capacity)
  {
    hide Arena, Perform, TakesRight, Legal, WrongAfter;
    if i > 0 {
      RunForward(states, calls, repair, lo, capacity, i - 1);
      PerformLoose(states[i - 1], calls[i - 1], repair, lo, capacity);
    }
  }

  // ----- Exactly when such a run goes wrong

  lemma {:induction false} BelowAllocate(segs: seq<Segment>, lo: nat, capacity: nat, k: nat, size: nat, repair: bool,
                                         w: map<nat, nat>)
    requires Shape(segs, lo, capacity) && 0 < lo && lo + capacity <= U64
    requires k < |segs| && Fits(segs[k], size) && HEADER <= size && segs[k].addr !in w && AllBelow(w, Frees(segs))
    ensures AllBelow(WrongAfterAllocate(segs, k, size, repair, w), Frees(AllocateAt(segs, k, size)))
  {
    hide Frees, Tiled, Total, AllocateAt, Without, AllBelow, Uncut, Spaced, Beside, Spoiled, Coalesced, WellSized;
    var bs, l, r := Frees(segs), Frees(segs[..k]), Frees(segs[k + 1..]);
    var right := segs[k].size - TAG - size;
    var b, rest := Block(segs[k].addr, segs[k].size), Block(segs[k].addr + TAG + size, right);
    FreesAround(segs, k);
    FreesOfAllocateAt(segs, k, size);
    FreesSpaced(segs, lo, lo + capacity);
    if segs[k].size < size + TAG + HEADER {
      MiddleOut(l, b, r);
      BesideRest(l, b, r);
      BelowWithout(bs, |l|, w, lo + capacity);
      assert l + [] + r == l + r;
    } else {
      AllocateKeepsShape(segs, k, size, lo, capacity);
      FreesSpaced(AllocateAt(segs, k, size), lo, lo + capacity);
      SpacedWithRest(l, b, rest, r, lo + capacity);
      MiddlePair(l, b, rest, r, size);
      BesidePair(l, b, rest, r);
      BelowSplit(l + [b, rest] + r, |l|, size, repair, w, lo + capacity);
    }
  }

  lemma {:induction false} BelowFree(segs: seq<Segment>, lo: nat, capacity: nat, k: nat, repair: bool, w: map<nat, nat>)
    requires Shape(segs, lo, capacity) && 0 < lo && lo + capacity <= U64
    requires k < |segs| && segs[k].Live? && AllBelow(w, Frees(segs))
    ensures AllBelow(WrongAfterFree(segs, k, repair, w), Frees(FreeAt(segs, k)))
  {
    hide Frees, Tiled, Total, Without, AllBelow, Opened, FreeAt, Rejoined, Coalesced, WellSized, WrongAfterGiveBack;
    var all, i := Frees(Opened(segs, k)), |Frees(segs[..k])|;
    FreeKeepsShape(segs, k, lo, capacity);
    OpenedTiles(segs, k, lo);
    FreesSpaced(Opened(segs, k), lo, lo + capacity);
    WithoutFreed(segs, k);
    SizesFit(Opened(segs, k));
    BeforeIs(segs, k);
    FreesOfFreeAt(segs, k, lo);
    BelowGiveBack(all, i, repair, w, lo + capacity);
  }

  /** The arena is right forwards, and its wrong back links name memory below the block before. */
  predicate Loose(s: State, lo: nat, capacity: nat) {
    Arena(s.heap, s.segs, lo, capacity) && AllBelow(Wrong(s.heap, s.segs), Frees(s.segs))
  }

  lemma FewerBelow(w: map<nat, nat>, v: map<nat, nat>, bs: seq<Block>)
    requires Among(w, v) && AllBelow(v, bs)
    ensures AllBelow(w, bs)
  {
  }

  lemma FreshLoose(m: Memory, lo: nat, capacity: nat)
    requires 0 < lo && lo + capacity <= |m| <= U64 && HEADER <= capacity
    ensures Loose(State(Heap(NewFree(m, lo, capacity), lo), [Free(lo, capacity)]), lo, capacity)
  {
    hide NewFree, Arena, Wrong, Frees;
    InitialConsistent(m, lo, capacity);
    NoneWrongIsConsistent(Heap(NewFree(m, lo, capacity), lo), [Free(lo, capacity)], lo, capacity);
  }

  lemma PerformStaysLoose(s: State, call: Call, repair: bool, lo: nat, capacity: nat)
    requires Loose(s, lo, capacity) && Legal(s, call) && TakesRight(s, call)
    ensures Loose(Perform(s, call, repair), lo, capacity)
  {
    hide Carve, GiveBack, Arena, AllocateAt, FreeAt, Frees, Before, WrongAfterAllocate, WrongAfterFree, Wrong, HeaderAt,
         AllBelow, Among;
    var t, w := Perform(s, call, repair), Wrong(s.heap, s.segs);
    PerformLoose(s, call, repair, lo, capacity);
    ArenaBounds(s.heap, s.segs, lo, capacity);
    match call
    case Allocate(size) =>
      var k := FirstFit(s.segs, Rounded(size), 0);
      if k.Some? {
        TakenNotWrong(s.heap, s.segs, lo, capacity, k.value);
        BelowAllocate(s.segs, lo, capacity, k.value, Rounded(size), repair, w);
      }
      FewerBelow(Wrong(t.heap, t.segs), WrongAfter(s, call, repair, w), Frees(t.segs));
    case Release(k) =>
      BelowFree(s.segs, lo, capacity, k, repair, w);
      FewerBelow(Wrong(t.heap, t.segs), WrongAfter(s, call, repair, w), Frees(t.segs));
    case ClientWrite(_, _, _) =>
      FewerBelow(Wrong(t.heap, t.segs), w, Frees(t.segs));
  }

  /** Taking a block whose wrong back link names memory below the block before leaves the forward list wrong: the block
      before goes on naming the block taken. */
  lemma TakenStaysListed(h: Heap, segs: seq<Segment>, lo: nat, capacity: nat, k: nat, size: nat, repair: bool)
    requires Arena(h, segs, lo, capacity) && k < |segs| && Fits(segs[k], size) && HEADER <= size
    requires var q := HeaderAt(h.mem, segs[k].addr).prev; q != Before(segs, k) && Below(q, Before(segs, k))
    ensures HeaderAt(Carve(h, segs[k].addr, size, repair).mem, Before(segs, k)).next == segs[k].addr
    ensures !Arena(Carve(h, segs[k].addr, size, repair), AllocateAt(segs, k, size), lo, capacity)
  {
    hide HeaderAt, Carve, Frees, Tiled, Total, Forward, BackwardExcept, AllocateAt, Spaced, Tagged, Coalesced,
         WellSized;
    var bs, l, r := Frees(segs), Frees(segs[..k]), Frees(segs[k + 1..]);
    var b := Block(segs[k].addr, segs[k].size);
    FreesAround(segs, k);
    FreesSpaced(segs, lo, |h.mem|);
    assert bs[|l|] == b && bs[|l| - 1].addr == Before(segs, k);
    if segs[k].size < size + TAG + HEADER {
      CarveWholeBelow(h, bs, |l|, size, repair);
    } else {
      var rest := Block(segs[k].addr + TAG + size, segs[k].size - TAG - size);
      var all := l + [b, rest] + r;
      FreesOfAllocateAt(segs, k, size);
      AllocateKeepsShape(segs, k, size, lo, capacity);
      FreesSpaced(AllocateAt(segs, k, size), lo, |h.mem|);
      SpacedWithRest(l, b, rest, r, |h.mem|);
      MiddlePair(l, b, rest, r, size);
      assert all[|l| - 1] == l[|l| - 1];
      CarveFrontBelow(h, all, |l|, size, repair);
    }
    NamesTaken(Carve(h, b.addr, size, repair), segs, lo, capacity, k, size);
  }

  /** In the right list after an allocation no block names the one taken. */
  lemma NamesTaken(h: Heap, segs: seq<Segment>, lo: nat, capacity: nat, k: nat, size: nat)
    requires Shape(segs, lo, capacity) && 0 < lo && lo + capacity <= |h.mem| <= U64
    requires k < |segs| && Fits(segs[k], size) && HEADER <= size
    requires Frees(segs[..k]) != [] && HeaderAt(h.mem, Before(segs, k)).next == segs[k].addr
    ensures !Forward(h, Frees(AllocateAt(segs, k, size)))
  {
    hide HeaderAt, Frees, Tiled, Total, AllocateAt, Tagged, Coalesced, WellSized;
    var l, r := Frees(segs[..k]), Frees(segs[k + 1..]);
    var bs := Frees(AllocateAt(segs, k, size));
    FreesOfAllocateAt(segs, k, size);
    FreesAround(segs, k);
    FreesSpaced(segs, lo, |h.mem|);
    var all, i := Frees(segs), |l| - 1;
    assert all[|l|].addr == segs[k].addr && (r != [] ==> all[|l| + 1] == r[0]);
    assert bs[i] == l[i] && bs[i].addr == Before(segs, k);
    assert AddrOf(bs, i + 1) != segs[k].addr;
    assert Headers(h.mem, bs)[i].next != AddrOf(bs, i + 1);
  }

  /** From such a state, an allocation keeps the arena exactly when the block it takes has the right back link; every
      other call does. */
  lemma KeptExactly(s: State, call: Call, repair: bool, lo: nat, capacity: nat)
    requires Loose(s, lo, capacity) && Legal(s, call)
    ensures var t := Perform(s, call, repair);
            && (Arena(t.heap, t.segs, lo, capacity) <==> TakesRight(s, call))
            && (TakesRight(s, call) ==> Loose(t, lo, capacity))
  {
    hide Carve, Arena, AllocateAt, Frees, Before, Wrong, HeaderAt, AllBelow, GiveBack, FreeAt;
    if TakesRight(s, call) {
      PerformStaysLoose(s, call, repair, lo, capacity);
    } else {
      var k := FirstFit(s.segs, Rounded(call.size), 0).value;
      WrongIsBelow(s, lo, capacity, k);
      TakenStaysListed(s.heap, s.segs, lo, capacity, k, Rounded(call.size), repair);
    }
  }

  lemma WrongIsBelow(s: State, lo: nat, capacity: nat, k: nat)
    requires Loose(s, lo, capacity) && k < |s.segs| && s.segs[k].Free?
    requires HeaderAt(s.heap.mem, s.segs[k].addr).prev != Before(s.segs, k)
    ensures Below(HeaderAt(s.heap.mem, s.segs[k].addr).prev, Before(s.segs, k))
  {
    hide HeaderAt, Frees, NextLinks, Tiled, Total, WellSized, Coalesced;
    TakenNotWrong(s.heap, s.segs, lo, capacity, k);
    var bs, l := Frees(s.segs), Frees(s.segs[..k]);
    FreesAround(s.segs, k);
    assert bs[|l|].addr == s.segs[k].addr && AddrOf(bs, |l| - 1) == Before(s.segs, k);
  }

  /** In a run from a fresh sub-heap, as written too, the arena is right all the way exactly when each allocation on the
      way takes a block whose back link is right. */
  lemma {:induction false} RunForwardExactly(states: seq<State>, calls: seq<Call>, repair: bool, lo: nat, capacity: nat,
                                             i: nat)
    requires Run(states, calls, repair) && i < |states| && Loose(states[0], lo, capacity)
    ensures (forall j :: 0 <= j <= i ==> Arena(states[j].heap, states[j].segs, lo, capacity))
       <==> forall j :: 0 <= j < i ==> Legal(states[j], calls[j]) && TakesRight(states[j], calls[j])
    ensures (forall j :: 0 <= j < i ==> Legal(states[j], calls[j]) && TakesRight(states[j], calls[j])) ==>
              Loose(states[i], lo, capacity)
  {
    hide Arena, Perform, TakesRight, Wrong, AllBelow, Legal;
    if i > 0 {
      RunForwardExactly(states, calls, repair, lo, capacity, i - 1);
      var last := i - 1;
      assert Legal(states[last], calls[last]) && states[last + 1] == Perform(states[last], calls[last], repair);
      if forall j :: 0 <= j < last ==> Legal(states[j], calls[j]) && TakesRight(states[j], calls[j]) {
        KeptExactly(states[last], calls[last], repair, lo, capacity);
      }
    }
  }

  /** A free that goes between two free blocks and touches neither leaves the back link of the block behind naming the
      block before. When that block is taken, the list loses the freed one too. */
  lemma MiddleInsertionLoses(h: Heap, segs: seq<Segment>, lo: nat, capacity: nat, k: nat)
    requires Consistent(h, segs, lo, capacity) && k < |segs| && segs[k].Live? && FreeGoesStale(segs, k)
    ensures var l, r := Frees(segs[..k]), Frees(segs[k + 1..]);
            var freed := GiveBack(h, segs[k].addr, Before(segs, k), false);
            && Forward(freed, l + [Block(segs[k].addr, TAG + segs[k].size)] + r)
            && Forward(Remove(freed, r[0].addr), l + r[1..])
  {
    hide HeaderAt, GiveBack, Frees, Tiled, Total, Forward, BackwardExcept, Spaced, Untouched, Kept, Without, Adjacent,
         WellSized, Coalesced, FreeAt, Opened, Remove;
    var l, r := Frees(segs[..k]), Frees(segs[k + 1..]);
    var all, i := Frees(Opened(segs, k)), |l|;
    FreesOpened(segs, k);
    OpenedTiles(segs, k, lo);
    FreesSpaced(Opened(segs, k), lo, |h.mem|);
    WithoutFreed(segs, k);
    AdjacencyAgrees(segs, k, lo);
    SizesFit(Opened(segs, k));
    BeforeIs(segs, k);
    MiddleInsert(h, all, i);
    SkipsTwo(l, Block(segs[k].addr, TAG + segs[k].size), r);
  }

  lemma SkipsTwo(l: seq<Block>, b: Block, r: seq<Block>)
    requires r != []
    ensures Without(Without(l + [b] + r, |l|), |l|) == l + r[1..]
    ensures (l + [b] + r)[|l| + 1] == r[0]
  {
  }

  /** Nothing wrong is all right. */
  lemma NoneWrongIsConsistent(h: Heap, segs: seq<Segment>, lo: nat, capacity: nat)
    requires Arena(h, segs, lo, capacity)
    ensures Consistent(h, segs, lo, capacity) <==> Wrong(h, segs) == map[]
  {
    hide Arena, Frees, Wrong;
    WrongIsExcept(h, segs, lo, capacity);
    if Consistent(h, segs, lo, capacity) {
      ExceptIsWrong(h, segs, lo, capacity, map[]);
    }
  }

  /** Allocations never overlap each other or a free block, and lie inside the arena. */
  lemma Disjoint(h: Heap, segs: seq<Segment>, lo: nat, capacity: nat, i: nat, j: nat)
    requires Arena(h, segs, lo, capacity) && i < |segs| && j < |segs| && i != j
    ensures segs[i].addr + Extent(segs[i]) <= segs[j].addr || segs[j].addr + Extent(segs[j]) <= segs[i].addr
    ensures lo <= segs[i].addr && segs[i].addr + Extent(segs[i]) <= lo + capacity
  {
    TiledOrder(segs, lo, i, j);
    TiledOrder(segs, lo, j, i);
  }

  // ----- The code as written does go wrong

  /** Four calls from a fresh heap: allocate 200, allocate 32, free the first, allocate 32. The last one splits the
      first of two free blocks, and as written leaves the second one's back link naming the new allocation. */
  lemma FourCallsBreakLinks(m: Memory, lo: nat, capacity: nat)
    requires 0 < lo && lo + capacity <= |m| <= U64 && capacity >= 0x1000
    ensures var s0 := State(Heap(NewFree(m, lo, capacity), lo), [Free(lo, capacity)]);
            var s1 := Perform(s0, Allocate(200), false);
            var s2 := Perform(s1, Allocate(32), false);
            && Legal(s2, Release(0))
            && var s3 := Perform(s2, Release(0), false);
               var s4 := Perform(s3, Allocate(32), false);
               && Consistent(s3.heap, s3.segs, lo, capacity)
               && s3.segs == [Free(lo, 216), Live(lo + 216, 32), Free(lo + 264, capacity - 264)]
               && s4.segs == [Live(lo, 32), Free(lo + 48, 168), Live(lo + 216, 32), Free(lo + 264, capacity - 264)]
               && Arena(s4.heap, s4.segs, lo, capacity) && !Consistent(s4.heap, s4.segs, lo, capacity)
  {
    hide Carve, GiveBack, NewFree, Consistent, Arena, AllocateAt, FreeAt, FirstFit, Frees, Before;
    FourTilings(lo, capacity);
    InitialConsistent(m, lo, capacity);
    var s0 := State(Heap(NewFree(m, lo, capacity), lo), [Free(lo, capacity)]);
    PerformKeeps(s0, Allocate(200), false, lo, capacity);
    var s1 := Perform(s0, Allocate(200), false);
    PerformKeeps(s1, Allocate(32), false, lo, capacity);
    var s2 := Perform(s1, Allocate(32), false);
    PerformKeeps(s2, Release(0), false, lo, capacity);
    var s3 := Perform(s2, Release(0), false);
    PerformKeeps(s3, Allocate(32), false, lo, capacity);
  }

  /** A fifth call, freeing the allocation between the two free blocks, joins all three and the links are right
      again. */
  lemma FifthCallHeals(m: Memory, lo: nat, capacity: nat)
    requires 0 < lo && lo + capacity <= |m| <= U64 && capacity >= 0x1000
    ensures var s0 := State(Heap(NewFree(m, lo, capacity), lo), [Free(lo, capacity)]);
            var s1 := Perform(s0, Allocate(200), false);
            var s2 := Perform(s1, Allocate(32), false);
            && Legal(s2, Release(0))
            && var s3 := Perform(s2, Release(0), false);
               var s4 := Perform(s3, Allocate(32), false);
               && Legal(s4, Release(2)) && !Consistent(s4.heap, s4.segs, lo, capacity)
               && var s5 := Perform(s4, Release(2), false);
                  Consistent(s5.heap, s5.segs, lo, capacity)
  {
    hide Arena, Perform, Wrong, Consistent;
    FourCallsBreakLinks(m, lo, capacity);
    var s0 := State(Heap(NewFree(m, lo, capacity), lo), [Free(lo, capacity)]);
    var s2 := Perform(Perform(s0, Allocate(200), false), Allocate(32), false);
    var s3 := Perform(s2, Release(0), false);
    FourthSpoils(s3, lo, capacity);
    FifthRights(Perform(s3, Allocate(32), false), lo, capacity);
  }

  /** The fourth call spoils at most the link of the free block behind. */
  lemma FourthSpoils(s: State, lo: nat, capacity: nat)
    requires capacity >= 0x1000 && Consistent(s.heap, s.segs, lo, capacity)
    requires s.segs == [Free(lo, 216), Live(lo + 216, 32), Free(lo + 264, capacity - 264)]
    ensures var t := Perform(s, Allocate(32), false); Wrong(t.heap, t.segs).Keys <= {lo + 264}
  {
    hide Arena, Perform, Wrong, HeaderAt, Before;
    FourTilings(lo, capacity);
    NoneWrongIsConsistent(s.heap, s.segs, lo, capacity);
    TakenNotWrong(s.heap, s.segs, lo, capacity, 0);
    PerformLoose(s, Allocate(32), false, lo, capacity);
    assert s.segs[1..] == [Live(lo + 216, 32), Free(lo + 264, capacity - 264)];
    assert s.segs[1..][1..] == [Free(lo + 264, capacity - 264)];
    assert Frees(s.segs[1..])[0].addr == lo + 264;
  }

  lemma FifthRights(s: State, lo: nat, capacity: nat)
    requires capacity >= 0x1000 && Arena(s.heap, s.segs, lo, capacity) && Wrong(s.heap, s.segs).Keys <= {lo + 264}
    requires s.segs == [Live(lo, 32), Free(lo + 48, 168), Live(lo + 216, 32), Free(lo + 264, capacity - 264)]
    ensures Legal(s, Release(2))
    ensures var t := Perform(s, Release(2), false); Consistent(t.heap, t.segs, lo, capacity)
  {
    hide Arena, Perform, Wrong, WrongAfterFree;
    var t := Perform(s, Release(2), false);
    ArenaBounds(s.heap, s.segs, lo, capacity);
    JoiningHeals(s.segs, 2, lo, capacity, false, Wrong(s.heap, s.segs));
    assert s.segs[3..] == [Free(lo + 264, capacity - 264)];
    assert Frees(s.segs[3..])[0].addr == lo + 264;
    PerformLoose(s, Release(2), false, lo, capacity);
    NoneWrongIsConsistent(t.heap, t.segs, lo, capacity);
  }

  lemma ArenaBounds(h: Heap, segs: seq<Segment>, lo: nat, capacity: nat)
    requires Arena(h, segs, lo, capacity)
    ensures Shape(segs, lo, capacity) && 0 < lo && lo + capacity <= U64
  {
  }

  /** The tilings of those four calls. */
  lemma FourTilings(lo: nat, capacity: nat)
    requires capacity >= 0x1000
    ensures var t0 := [Free(lo, capacity)];
            var t1 := [Live(lo, 200), Free(lo + 216, capacity - 216)];
            var t2 := [Live(lo, 200), Live(lo + 216, 32), Free(lo + 264, capacity - 264)];
            var t3 := [Free(lo, 216), Live(lo + 216, 32), Free(lo + 264, capacity - 264)];
            && FirstFit(t0, 200, 0) == Some(0) && AllocateAt(t0, 0, 200) == t1 && Frees(t0[1..]) == []
            && FirstFit(t1, 32, 0) == Some(1) && AllocateAt(t1, 1, 32) == t2 && Frees(t1[2..]) == []
            && FreeAt(t2, 0) == t3 && Frees(t2[..0]) == []
            && FirstFit(t3, 32, 0) == Some(0) && Frees(t3[1..]) != []
            && AllocateAt(t3, 0, 32) ==
                [Live(lo, 32), Free(lo + 48, 168), Live(lo + 216, 32), Free(lo + 264, capacity - 264)]
  {
    var t0 := [Free(lo, capacity)];
    var t1 := [Live(lo, 200), Free(lo + 216, capacity - 216)];
    var t2 := [Live(lo, 200), Live(lo + 216, 32), Free(lo + 264, capacity - 264)];
    var t3 := [Free(lo, 216), Live(lo + 216, 32), Free(lo + 264, capacity - 264)];
    assert Fits(t0[0], 200) && !Fits(t1[0], 32) && Fits(t1[1], 32) && Fits(t3[0], 32);
    assert t0[1..] == [] && t1[2..] == [] && t2[..0] == [];
    assert t2[1..] == t3[1..] == [Live(lo + 216, 32), Free(lo + 264, capacity - 264)];
    FreesAround(t3[1..], 1);
  }

  /** What the wrong link does: when the next allocation removes that block from the list, it writes eight bytes
      inside the client's data, and the block it hands out stays on the list. */
  lemma StaleLinkCorrupts(h: Heap, segs: seq<Segment>, lo: nat, capacity: nat, k: nat, size: nat)
    requires Consistent(h, segs, lo, capacity) && k < |segs| && Fits(segs[k], size) && HEADER <= size
    requires segs[k].size >= size + TAG + HEADER && Frees(segs[k + 1..]) != []
    ensures var carved := Carve(h, segs[k].addr, size, false);
            var victim := Frees(segs[k + 1..])[0].addr;
            var after := Remove(carved, victim);
            var written, data, rest := segs[k].addr + 24, segs[k].addr + TAG, segs[k].addr + TAG + size;
            && data <= written && written + WORD <= data + size
            && Load(after.mem, written, WORD) == AddrOf(Frees(segs[k + 1..]), 1)
            && HeaderAt(after.mem, rest).next == victim
  {
    hide HeaderAt, Carve, Frees, Tiled, Total, Kept, Forward, BackwardExcept, Remove, AllocateAt, Spaced;
    var l, r := Frees(segs[..k]), Frees(segs[k + 1..]);
    var carved := Carve(h, segs[k].addr, size, false);
    var bs := Frees(AllocateAt(segs, k, size));
    CarveFrontSegment(h, segs, lo, capacity, k, size, false, map[]);
    AllocateKeepsShape(segs, k, size, lo, capacity);
    FreesOfAllocateAt(segs, k, size);
    FreesSpaced(AllocateAt(segs, k, size), lo, |h.mem|);
    var i := |l| + 1;
    assert bs[i] == r[0] && bs[i - 1].addr == segs[k].addr + TAG + size && AddrOf(bs, i + 1) == AddrOf(r, 1);
    TiledOrder(segs, lo, k, k);
    CarvedApart(segs, lo, capacity, k, size);
    KeptLength(h.mem, carved.mem, segs, lo, capacity);
    RemoveStale(carved, bs, i, segs[k].addr);
    NextIsLoad(Remove(carved, bs[i].addr).mem, segs[k].addr);
  }

  lemma KeptLength(m: Memory, after: Memory, segs: seq<Segment>, lo: nat, capacity: nat)
    requires Kept(m, after, segs, lo, capacity)
    ensures |after| == |m|
  {
  }

  lemma NextIsLoad(m: Memory, p: nat)
    ensures HeaderAt(m, p).next == Load(m, p + 24, WORD)
  {
  }

  /** The carved allocation's first 32 bytes meet no free block's header. */
  lemma CarvedApart(segs: seq<Segment>, lo: nat, capacity: nat, k: nat, size: nat)
    requires Shape(segs, lo, capacity) && k < |segs| && Fits(segs[k], size) && HEADER <= size
    ensures var bs := Frees(AllocateAt(segs, k, size));
            forall j :: 0 <= j < |bs| ==> segs[k].addr + HEADER <= bs[j].addr || bs[j].addr + HEADER <= segs[k].addr
  {
    hide Frees, Tiled, Total;
    var carved := AllocateAt(segs, k, size);
    var bs := Frees(carved);
    AllocateKeepsShape(segs, k, size, lo, capacity);
    assert carved[k] == Live(segs[k].addr, size);
    forall j | 0 <= j < |bs| ensures segs[k].addr + HEADER <= bs[j].addr || bs[j].addr + HEADER <= segs[k].addr {
      FreeSegmentOf(carved, bs[j]);
      var f: nat :| f < |carved| && carved[f] == Free(bs[j].addr, bs[j].size);
      assert Sized(carved[f]);
      TiledOrder(carved, lo, f, k);
      TiledOrder(carved, lo, k, f);
    }
  }
}
