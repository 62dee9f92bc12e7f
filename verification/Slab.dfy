/** Slab pages: equal objects whose free list is threaded through the objects themselves. */
module SlabPages {
  import opened Arithmetic
  import opened Wrappers
  import opened ByteMemory

  const PAGE: nat := 0x1000
  /** sizeof(SlabPage), stored at the start of the page. */
  const PAGE_HEADER: nat := 48

  /** The bytes of memory, m_free_objects and m_free_list. */
  datatype Page = Page(mem: Memory, free: nat, list: nat)

  /** Where the page lies and how it is cut up. */
  datatype Layout = Layout(base: nat, size: nat)

  function Total(g: Layout): nat
    requires g.size > 0
  {
    (PAGE - PAGE_HEADER) / g.size
  }

  /** get_object_address. */
  function Slot(g: Layout, i: nat): nat {
    g.base + PAGE_HEADER + g.size * i
  }

  /** The page lies in memory, past address zero, and an object can hold a link. */
  predicate Placed(g: Layout, m: Memory) {
    WORD <= g.size && g.base + PAGE <= |m| && |m| + g.size <= U64
  }

  // ----- Slots

  lemma SlotBounds(g: Layout, i: nat)
    requires WORD <= g.size && i < Total(g)
    ensures g.base + PAGE_HEADER <= Slot(g, i) && Slot(g, i) + g.size <= g.base + PAGE
    ensures Slot(g, i + 1) == Slot(g, i) + g.size
  {
    var t := Total(g);
    assert g.size * t <= PAGE - PAGE_HEADER;
    assert g.size * (i + 1) == g.size * i + g.size;
    Ordered(g.size, i + 1, t);
    Ordered(g.size, 0, i);
  }

  lemma Ordered(size: nat, i: nat, j: nat)
    requires i <= j
    ensures size * i <= size * j
  {
    assert size * j == size * i + size * (j - i);
  }

  /** The objects stand one behind the other after a header of 48 bytes, as many as the page of 4096 has room for. */
  lemma PageFull(g: Layout)
    requires g.size > 0
    ensures 48 + g.size * Total(g) <= 4096 || Total(g) == 0
    ensures 48 + g.size * (Total(g) + 1) > 4096
    ensures Slot(g, 0) == g.base + 48
    ensures forall i: nat :: Slot(g, i + 1) == Slot(g, i) + g.size
  {
    var n, r := (PAGE - PAGE_HEADER) / g.size, (PAGE - PAGE_HEADER) % g.size;
    assert PAGE - PAGE_HEADER == n * g.size + r;
    forall i: nat ensures Slot(g, i + 1) == Slot(g, i) + g.size {
      assert g.size * (i + 1) == g.size * i + g.size;
    }
  }


  /** Objects do not overlap: a later slot starts past the end of an earlier one. */
  lemma SlotsApart(g: Layout, i: nat, j: nat)
    requires i < j
    ensures Slot(g, i) + g.size <= Slot(g, j)
  {
    assert g.size * (i + 1) == g.size * i + g.size;
    Ordered(g.size, i + 1, j);
  }

  lemma SlotsDistinct(g: Layout, i: nat, j: nat)
    requires WORD <= g.size
    ensures Slot(g, i) == Slot(g, j) <==> i == j
  {
    if i < j {
      SlotsApart(g, i, j);
    } else if j < i {
      SlotsApart(g, j, i);
    }
  }

  // ----- The operations on memory

  /** The loop of initialise from object `i` on: each object links to the next, the last one past the end. */
  function LinkFrom(m: Memory, g: Layout, i: nat): Memory
    requires g.size > 0
    decreases Total(g) - i
  {
    if i >= Total(g) then m else LinkFrom(Store(m, Slot(g, i), WORD, Slot(g, i + 1)), g, i + 1)
  }

  function Initialise(m: Memory, g: Layout): Page
    requires g.size > 0
  {
    Page(LinkFrom(m, g, 0), Total(g), Slot(g, 0))
  }

  /** Slab::allocate on its one page: the object counter is asked before the list is. */
  function AllocateFrom(p: Page): (Page, Option<nat>) {
    if p.free == 0 || p.list == 0 then (p, None)
    else (Page(p.mem, p.free - 1, Load(p.mem, p.list, WORD)), Some(p.list))
  }

  /** SlabPage::free; its branch for a null list writes the same link, null, as the other would. */
  function FreeTo(p: Page, address: nat): Page {
    Page(Store(p.mem, address, WORD, p.list), p.free + 1, address)
  }

  // ----- The invariant

  /** The address the k-th link of the list leads to; past the list, one past the last object. */
  function Link(g: Layout, l: seq<nat>, k: nat): nat
    requires g.size > 0
  {
    Slot(g, if k < |l| then l[k] else Total(g))
  }

  predicate Distinct(l: seq<nat>) {
    forall i, j :: 0 <= i < j < |l| ==> l[i] != l[j]
  }

  /** The k-th node of the list holds the link to the next. */
  predicate LinksOn(m: Memory, g: Layout, l: seq<nat>, k: nat)
    requires g.size > 0 && k < |l|
  {
    Load(m, Slot(g, l[k]), WORD) == Link(g, l, k + 1)
  }

  /** The first m_free_objects nodes of the list are the slots `l`; what follows them is the pointer past the end. */
  predicate Listed(p: Page, g: Layout, l: seq<nat>) {
    && Placed(g, p.mem)
    && |l| == p.free
    && Distinct(l)
    && (forall k :: 0 <= k < |l| ==> l[k] < Total(g))
    && p.list == Link(g, l, 0)
    && forall k {:trigger LinksOn(p.mem, g, l, k)} :: 0 <= k < |l| ==> LinksOn(p.mem, g, l, k)
  }

  /** A slot is outstanding when it is an object and not on the list. */
  predicate Outstanding(g: Layout, l: seq<nat>, i: nat)
    requires g.size > 0
  {
    i < Total(g) && i !in l
  }

  /** A store into one slot leaves the links in the others. */
  lemma StoreInSlot(m: Memory, g: Layout, i: nat, v: nat)
    requires Placed(g, m) && i < Total(g) && v < U64
    ensures var after := Store(m, Slot(g, i), WORD, v);
            && |after| == |m|
            && Load(after, Slot(g, i), WORD) == v
            && (forall j: nat :: j < Total(g) && j != i ==> Load(after, Slot(g, j), WORD) == Load(m, Slot(g, j), WORD))
  {
    hide Slot, Load, Store;
    var a := Slot(g, i);
    var after := Store(m, a, WORD, v);
    SlotBounds(g, i);
    Pow256Of8();
    LoadStored(m, a, WORD, v);
    StoreElsewhere(m, a, WORD, v);
    forall j: nat | j < Total(g) && j != i ensures Load(after, Slot(g, j), WORD) == Load(m, Slot(g, j), WORD) {
      SlotsMiss(g, i, j);
      LoadKept(m, after, Slot(g, j));
    }
  }

  lemma SlotsMiss(g: Layout, i: nat, j: nat)
    requires WORD <= g.size && i != j
    ensures Slot(g, i) + g.size <= Slot(g, j) || Slot(g, j) + g.size <= Slot(g, i)
  {
    if i < j { SlotsApart(g, i, j); } else { SlotsApart(g, j, i); }
  }

  /** The links initialise lays. */
  lemma {:induction false} LinkFromLinks(m: Memory, g: Layout, i: nat)
    requires Placed(g, m) && i <= Total(g)
    requires forall k: nat :: k < i ==> Load(m, Slot(g, k), WORD) == Slot(g, k + 1)
    ensures var after := LinkFrom(m, g, i);
            |after| == |m| && forall k: nat :: k < Total(g) ==> Load(after, Slot(g, k), WORD) == Slot(g, k + 1)
    decreases Total(g) - i
  {
    hide Slot, Load, Store;
    if i < Total(g) {
      SlotBounds(g, i);
      StoreInSlot(m, g, i, Slot(g, i + 1));
      LinkFromLinks(Store(m, Slot(g, i), WORD, Slot(g, i + 1)), g, i + 1);
    }
  }

  /** A fresh page lists every object in order. */
  lemma InitialiseLists(m: Memory, g: Layout)
    requires Placed(g, m)
    ensures Listed(Initialise(m, g), g, seq(Total(g), i => i))
  {
    hide Slot, Load, Store;
    LinkFromLinks(m, g, 0);
  }

  /** allocate gives out the first listed slot, which was not outstanding and is never the one past the end; it
      fails exactly when every object is outstanding. */
  lemma AllocateLists(p: Page, g: Layout, l: seq<nat>)
    requires Listed(p, g, l)
    ensures var (q, r) := AllocateFrom(p);
            && (r.None? <==> l == [])
            && (r.None? ==> q == p)
            && (r.Some? ==> Listed(q, g, l[1..]) && r.value == Slot(g, l[0]) && r.value != Slot(g, Total(g)))
  {
    hide Load, Slot;
    ListFits(p, g, l);
    if l != [] {
      SlotsDistinct(g, l[0], Total(g));
      var tail := l[1..];
      assert LinksOn(p.mem, g, l, 0);
      forall k | 0 <= k < |tail| ensures LinksOn(p.mem, g, tail, k) {
        assert LinksOn(p.mem, g, l, k + 1) && tail[k] == l[k + 1];
      }
    }
  }

  /** free puts an outstanding object at the front of the list. */
  lemma FreeLists(p: Page, g: Layout, l: seq<nat>, i: nat)
    requires Listed(p, g, l) && Outstanding(g, l, i)
    ensures Listed(FreeTo(p, Slot(g, i)), g, [i] + l)
  {
    hide Load, Store, Slot;
    var q, longer := FreeTo(p, Slot(g, i)), [i] + l;
    ListFits(p, g, l);
    StoreInSlot(p.mem, g, i, p.list);
    forall k | 0 <= k < |longer| ensures LinksOn(q.mem, g, longer, k) {
      if k > 0 {
        assert LinksOn(p.mem, g, l, k - 1) && longer[k] == l[k - 1];
      }
    }
  }

  /** The list head is a real address: not null, and not past the end of the page by more than one slot. */
  lemma ListFits(p: Page, g: Layout, l: seq<nat>)
    requires Listed(p, g, l)
    ensures 0 < p.list < U64
  {
    if l != [] {
      SlotBounds(g, l[0]);
    } else if Total(g) > 0 {
      SlotBounds(g, Total(g) - 1);
    }
  }

  /** The list is empty exactly when every object is outstanding; its first slot becomes outstanding when taken. */
  lemma ListedOrOutstanding(p: Page, g: Layout, l: seq<nat>)
    requires g.size > 0 && Listed(p, g, l)
    ensures l == [] <==> forall i :: 0 <= i < Total(g) ==> Outstanding(g, l, i)
    ensures l != [] ==> l[0] < Total(g) && !Outstanding(g, l, l[0]) && Outstanding(g, l[1..], l[0])
  {
    hide Slot, Total, Load, Link;
    if l != [] {
      assert l[0] in l;
      assert l[0] < Total(g);
      assert !Outstanding(g, l, l[0]);
      assert l[0] !in l[1..];
    }
  }

  /** What clients write into their objects does not disturb the list. */
  lemma ClientWriteLists(p: Page, g: Layout, l: seq<nat>, i: nat, at: nat, byte: Byte)
    requires Listed(p, g, l) && Outstanding(g, l, i) && at < g.size
    ensures Slot(g, i) + at < |p.mem|
    ensures Listed(p.(mem := p.mem[Slot(g, i) + at := byte]), g, l)
  {
    hide Load, Slot;
    SlotBounds(g, i);
    var after := p.mem[Slot(g, i) + at := byte];
    forall k | 0 <= k < |l| ensures LinksOn(after, g, l, k) {
      assert LinksOn(p.mem, g, l, k);
      SlotsMiss(g, i, l[k]);
      LoadKept(p.mem, after, Slot(g, l[k]));
    }
  }

  // ----- Runs

  datatype Call = Take | Give(address: nat) | Write(address: nat, at: nat, byte: Byte)

  /** The page, and the addresses it has returned that have not been given back. */
  datatype State = State(page: Page, held: set<nat>)

  /** Clients give back, and write into, only objects they hold. */
  predicate Legal(s: State, g: Layout, call: Call) {
    match call
    case Take => true
    case Give(a) => a in s.held
    case Write(a, at, _) => a in s.held && at < g.size
  }

  function Perform(s: State, g: Layout, call: Call): State {
    match call
    case Take =>
      var (page, r) := AllocateFrom(s.page);
      State(page, if r.Some? then s.held + {r.value} else s.held)
    case Give(a) => State(FreeTo(s.page, a), s.held - {a})
    case Write(a, at, byte) =>
      if a + at < |s.page.mem| then s.(page := s.page.(mem := s.page.mem[a + at := byte])) else s
  }

  predicate Run(states: seq<State>, calls: seq<Call>, g: Layout) {
    && |states| == |calls| + 1
    && forall i :: 0 <= i < |calls| ==>
         Legal(states[i], g, calls[i]) && states[i + 1] == Perform(states[i], g, calls[i])
  }

  /** The addresses of the objects that are not on the list. */
  ghost function OffList(g: Layout, l: seq<nat>): set<nat>
    requires g.size > 0
  {
    set i: nat | i < Total(g) && i !in l :: Slot(g, i)
  }

  /** The first m_free_objects nodes of the list are exactly the objects that are not held. */
  ghost predicate ListsRest(s: State, g: Layout) {
    exists l :: Listed(s.page, g, l) && s.held == OffList(g, l)
  }

  lemma OffListTake(p: Page, g: Layout, l: seq<nat>)
    requires Listed(p, g, l) && l != []
    ensures Slot(g, l[0]) !in OffList(g, l) && OffList(g, l[1..]) == OffList(g, l) + {Slot(g, l[0])}
  {
    hide Slot, Load, Total, LinksOn, Link;
    var tail := l[1..];
    assert l == [l[0]] + tail && l[0] !in tail;
    forall i: nat ensures i in l <==> i == l[0] || i in tail {
    }
    forall i: nat | i != l[0] ensures Slot(g, i) != Slot(g, l[0]) {
      SlotsDistinct(g, i, l[0]);
    }
    assert l[0] < Total(g);
  }

  lemma OffListGive(g: Layout, l: seq<nat>, i: nat)
    requires WORD <= g.size && Outstanding(g, l, i)
    ensures OffList(g, [i] + l) == OffList(g, l) - {Slot(g, i)}
  {
    hide Slot, Total;
    forall j: nat | j != i ensures Slot(g, j) != Slot(g, i) {
      SlotsDistinct(g, j, i);
    }
  }

  lemma PerformLists(s: State, g: Layout, call: Call)
    requires ListsRest(s, g) && Legal(s, g, call)
    ensures ListsRest(Perform(s, g, call), g)
  {
    hide Slot, Load, Total, LinksOn, Link, AllocateFrom, FreeTo, Distinct;
    var l :| Listed(s.page, g, l) && s.held == OffList(g, l);
    var t := Perform(s, g, call);
    match call
    case Take =>
      AllocateLists(s.page, g, l);
      if l != [] {
        OffListTake(s.page, g, l);
        var (q, r) := AllocateFrom(s.page);
        assert t == State(q, s.held + {r.value});
        assert Listed(q, g, l[1..]);
      } else {
        assert Listed(t.page, g, l);
      }
    case Give(a) =>
      var i: nat :| i < Total(g) && i !in l && a == Slot(g, i);
      FreeLists(s.page, g, l, i);
      OffListGive(g, l, i);
      assert Listed(t.page, g, [i] + l);
    case Write(a, at, byte) =>
      var i: nat :| i < Total(g) && i !in l && a == Slot(g, i);
      ClientWriteLists(s.page, g, l, i, at, byte);
      assert Listed(t.page, g, l);
  }

  /** In every run the first m_free_objects nodes of the list are exactly the objects whose addresses were not returned,
      or were given back since. */
  lemma {:induction false} RunLists(states: seq<State>, calls: seq<Call>, g: Layout, i: nat)
    requires Run(states, calls, g) && i < |states| && ListsRest(states[0], g)
    ensures ListsRest(states[i], g)
  {
    hide ListsRest, Legal, Perform;
    if i > 0 {
      RunLists(states, calls, g, i - 1);
      PerformLists(states[i - 1], g, calls[i - 1]);
    }
  }

  /** Runs may start from a fresh page with nothing held. */
  lemma FreshListsRest(m: Memory, g: Layout)
    requires Placed(g, m)
    ensures ListsRest(State(Initialise(m, g), {}), g)
  {
    hide Slot, Load, LinksOn, Link, Initialise;
    InitialiseLists(m, g);
    var l := seq(Total(g), i => i);
    forall i: nat | i < Total(g) ensures i in l {
      assert l[i] == i;
    }
    assert OffList(g, l) == {};
  }

  /** An address is never returned while it is held, is always an object's, and none is returned exactly when all are
      held. */
  lemma TakeIsNew(s: State, g: Layout)
    requires ListsRest(s, g)
    ensures g.size > 0
    ensures var r := AllocateFrom(s.page).1;
            && (r.None? <==> forall i: nat :: i < Total(g) ==> Slot(g, i) in s.held)
            && (r.Some? ==> r.value !in s.held && exists i: nat :: i < Total(g) && r.value == Slot(g, i))
  {
    hide Slot, Load, Total, LinksOn, Link, AllocateFrom;
    var l :| Listed(s.page, g, l) && s.held == OffList(g, l);
    AllocateLists(s.page, g, l);
    if l != [] {
      OffListTake(s.page, g, l);
    }
  }

  /** Held addresses lie past the header inside the page, and their objects do not overlap. */
  lemma HeldDisjoint(s: State, g: Layout, a: nat, b: nat)
    requires ListsRest(s, g) && a in s.held && b in s.held && a != b
    ensures g.base + PAGE_HEADER <= a && a + g.size <= g.base + PAGE
    ensures a + g.size <= b || b + g.size <= a
  {
    hide Slot, Load, Total, LinksOn, Link, Distinct;
    var l :| Listed(s.page, g, l) && s.held == OffList(g, l);
    var i: nat :| i < Total(g) && i !in l && a == Slot(g, i);
    var j: nat :| j < Total(g) && j !in l && b == Slot(g, j);
    OutstandingDisjoint(g, l, i, j);
  }

  /** Outstanding objects lie inside the page past its header and do not overlap. */
  lemma OutstandingDisjoint(g: Layout, l: seq<nat>, i: nat, j: nat)
    requires WORD <= g.size && Outstanding(g, l, i) && Outstanding(g, l, j) && i != j
    ensures g.base + PAGE_HEADER <= Slot(g, i) && Slot(g, i) + g.size <= g.base + PAGE
    ensures Slot(g, i) + g.size <= Slot(g, j) || Slot(g, j) + g.size <= Slot(g, i)
  {
    SlotBounds(g, i);
    SlotsMiss(g, i, j);
  }

  class SlabPage {
    const mem: array<Byte>
    const layout: Layout
    var totalObjects: nat
    var freeObjects: nat
    var freeList: nat
    /** The slots on the list, in order. */
    ghost var listed: seq<nat>

    ghost function View(): Page
      reads this, mem
    {
      Page(mem[..], freeObjects, freeList)
    }

    ghost predicate Valid()
      reads this, mem
    {
      layout.size > 0 && totalObjects == Total(layout) && Listed(View(), layout, listed)
    }

    /** initialise. */
    constructor (mem: array<Byte>, base: nat, size: nat)
      requires WORD <= size && base + PAGE <= mem.Length && mem.Length + size <= U64
      modifies mem
      ensures Valid() && this.mem == mem && layout == Layout(base, size)
      ensures View() == Initialise(old(mem[..]), layout)
      ensures forall i :: 0 <= i < Total(layout) ==> !Outstanding(layout, listed, i)
    {
      hide Slot, Load, Total, Store, Listed;
      var g := Layout(base, size);
      this.mem, layout := mem, g;
      totalObjects, freeObjects, freeList := Total(g), Total(g), Slot(g, 0);
      listed := seq(Total(g), i => i);
      new;
      ghost var m := mem[..];
      InitialiseLists(m, g);
      for i := 0 to totalObjects
        invariant LinkFrom(mem[..], g, i) == LinkFrom(m, g, 0)
        invariant View() == Page(mem[..], Total(g), Slot(g, 0)) && totalObjects == Total(g)
        invariant listed == seq(Total(g), i => i)
        modifies mem
      {
        WriteNumber(mem, Slot(g, i), WORD, Slot(g, i + 1));
      }
      forall i | 0 <= i < Total(g) ensures i in listed {
        assert listed[i] == i;
      }
    }

    /** Slab::allocate on a slab of one page. */
    method Allocate() returns (r: Option<nat>)
      requires Valid()
      modifies this`freeObjects, this`freeList, this`listed
      ensures Valid() && (View(), r) == AllocateFrom(old(View()))
      ensures r.None? <==> forall i :: 0 <= i < Total(layout) ==> Outstanding(layout, old(listed), i)
      ensures r.Some? ==> exists i :: 0 <= i < Total(layout) && r.value == Slot(layout, i)
                            && !Outstanding(layout, old(listed), i) && Outstanding(layout, listed, i)
    {
      hide Slot, Load, Listed, Outstanding, Total, Distinct;
      AllocateLists(View(), layout, listed);
      ListedOrOutstanding(View(), layout, listed);
      if freeObjects == 0 || freeList == 0 {
        return None;
      }
      r := Some(freeList);
      freeList := ReadNumber(mem, freeList, WORD);
      freeObjects := freeObjects - 1;
      listed := listed[1..];
    }

    method Free(address: nat, ghost i: nat)
      requires Valid() && Outstanding(layout, listed, i) && address == Slot(layout, i)
      modifies this`freeObjects, this`freeList, this`listed, mem
      ensures Valid() && View() == FreeTo(old(View()), address) && listed == [i] + old(listed)
    {
      FreeLists(View(), layout, listed, i);
      if freeList == 0 {
        freeList := address;
        WriteNumber(mem, address, WORD, 0);
      } else {
        WriteNumber(mem, address, WORD, freeList);
        freeList := address;
      }
      freeObjects := freeObjects + 1;
      listed := [i] + listed;
    }
  }
}
