/** The kernel address space the bootloader builds: seven regions, an unmapped guard page behind each, and the page
    tables that map them. */
module BootLayout {

  const PAGE: nat := 0x1000

  const MIB: nat := 0x10_0000

  const GIB: nat := 0x4000_0000

  const KERNEL_BASE: nat := 0xFFFF_FFFF_8000_0000

  const ENTRIES: nat := 512

  /** The frame field of a page table entry. */
  const FRAME_FIELD: nat := 0x100_0000_0000

  const GUARD_PAGE: nat := 1

  datatype PageEntry = PageEntry(present: bool, writeable: bool, frame: nat, combining: bool)

  /** A region as the boot state records it, in bytes. */
  datatype VirtualMapping = VirtualMapping(base: nat, physical: nat, size: nat)

  function DivideRoundedUp(value: nat, divisor: nat): (q: nat)
    requires divisor > 0
  {
    (value + (divisor - 1)) / divisor
  }

  /** The least whole number of divisors that holds the value. */
  lemma RoundedUp(value: nat, divisor: nat)
    requires divisor > 0
    ensures var q := DivideRoundedUp(value, divisor);
            value <= q * divisor && (q > 0 ==> (q - 1) * divisor < value)
  {
    var q, r := (value + (divisor - 1)) / divisor, (value + (divisor - 1)) % divisor;
    assert value + (divisor - 1) == q * divisor + r;
    assert (q - 1) * divisor == q * divisor - divisor;
  }

  function NextVirtualMapping(last: VirtualMapping): nat {
    last.base + last.size + PAGE
  }

  /** Tables for 2 MiB, directories for 1 GiB, pointer tables for 512 GiB, one more pointer table and the top level. */
  function PageTableSize(pages: nat): nat {
    1 + (DivideRoundedUp(pages * PAGE, 512 * GIB) + 1) + DivideRoundedUp(pages * PAGE, GIB)
    + DivideRoundedUp(pages * PAGE, 2 * MIB)
  }

  /** The least number of groups of `d` that holds `n`. */
  predicate Groups(q: nat, n: nat, d: nat) {
    n <= q * d && (q > 0 ==> (q - 1) * d < n)
  }

  /** Room for a table to 512 pages, a directory to 512 tables, a pointer table to 512 directories, one more pointer
      table and the top level. */
  lemma StructuresFor(pages: nat)
    ensures exists tables: nat, directories: nat, pointers: nat ::
              && Groups(tables, pages, 512) && Groups(directories, pages, 0x4_0000)
              && Groups(pointers, pages, 0x800_0000)
              && PageTableSize(pages) == tables + directories + pointers + 2
  {
    var a, b, c := DivideRoundedUp(pages * PAGE, 2 * MIB), DivideRoundedUp(pages * PAGE, GIB),
                   DivideRoundedUp(pages * PAGE, 512 * GIB);
    RoundedUp(pages * PAGE, 2 * MIB);
    RoundedUp(pages * PAGE, GIB);
    RoundedUp(pages * PAGE, 512 * GIB);
    assert Groups(a, pages, 512) && Groups(b, pages, 0x4_0000) && Groups(c, pages, 0x800_0000);
  }

  // ----- Mapping a region into the flat array of entries

  function Filled(e: PageEntry, physical: nat, combining: bool): PageEntry {
    PageEntry(true, true, physical / PAGE % FRAME_FIELD, combining || e.combining)
  }

  /** Entries `first`, `first + 1`, … lead to consecutive frames; all others stay. */
  function MapRegion(t: seq<PageEntry>, first: nat, pages: nat, physical: nat, combining: bool): (after: seq<PageEntry>)
    ensures |after| == |t|
  {
    seq(|t|, x requires 0 <= x < |t| =>
      if first <= x < first + pages then Filled(t[x], physical + (x - first) * PAGE, combining) else t[x])
  }

  function EntryIndex(virtual: nat): nat
    requires virtual >= KERNEL_BASE
  {
    (virtual - KERNEL_BASE) / PAGE
  }

  method MapAddressSpace(tables: array<PageEntry>, m: VirtualMapping, writeCombining: bool)
    requires m.base >= KERNEL_BASE && EntryIndex(m.base) + m.size / PAGE <= tables.Length
    modifies tables
    ensures tables[..] == MapRegion(old(tables[..]), EntryIndex(m.base), m.size / PAGE, m.physical, writeCombining)
  {
    var pages := m.size / PAGE;
    ghost var was, first := tables[..], EntryIndex(m.base);
    for i := 0 to pages
      invariant tables[..] == MapRegion(was, first, i, m.physical, writeCombining)
    {
      var physical, index := m.physical + i * PAGE, EntryIndex(m.base + i * PAGE);
      assert index == first + i;
      assert tables[index] == was[index];
      tables[index] := tables[index].(present := true, writeable := true, frame := physical / PAGE % FRAME_FIELD);
      if writeCombining {
        tables[index] := tables[index].(combining := true);
      }
    }
  }

  // ----- The layout

  /** A region in pages from the start of the kernel address space. */
  datatype Region = Region(first: nat, pages: nat, physical: nat, combining: bool)

  predicate Within(r: Region, x: nat) {
    r.first <= x < r.first + r.pages
  }

  /** The regions follow one another from `at` on, one page apart. */
  predicate Placed(rs: seq<Region>, at: nat)
    decreases |rs|
  {
    rs == [] || (rs[0].first == at && Placed(rs[1..], at + rs[0].pages + GUARD_PAGE))
  }

  function MapAll(t: seq<PageEntry>, rs: seq<Region>): (after: seq<PageEntry>)
    ensures |after| == |t|
    decreases |rs|
  {
    if rs == [] then t
    else MapAll(MapRegion(t, rs[0].first, rs[0].pages, rs[0].physical, rs[0].combining), rs[1..])
  }

  lemma {:induction false} PlacedBehind(rs: seq<Region>, at: nat, k: nat)
    requires Placed(rs, at) && k < |rs|
    ensures rs[k].first >= at
    decreases |rs|
  {
    if k > 0 {
      PlacedBehind(rs[1..], at + rs[0].pages + GUARD_PAGE, k - 1);
    }
  }

  /** Each region ends at least a page before any later one starts. */
  lemma {:induction false} Apart(rs: seq<Region>, at: nat, i: nat, j: nat)
    requires Placed(rs, at) && i < j < |rs|
    ensures rs[i].first + rs[i].pages + GUARD_PAGE <= rs[j].first
    decreases |rs|
  {
    if i > 0 {
      Apart(rs[1..], at + rs[0].pages + GUARD_PAGE, i - 1, j - 1);
    } else {
      PlacedBehind(rs[1..], at + rs[0].pages + GUARD_PAGE, j - 1);
    }
  }

  /** Pages in no region are left alone. */
  lemma {:induction false} MapAllOutside(t: seq<PageEntry>, rs: seq<Region>, x: nat)
    requires x < |t| && forall k: nat :: k < |rs| ==> !Within(rs[k], x)
    ensures MapAll(t, rs)[x] == t[x]
    decreases |rs|
  {
    if rs != [] {
      assert !Within(rs[0], x);
      assert forall k: nat :: k < |rs| - 1 ==> rs[1..][k] == rs[k + 1];
      MapAllOutside(MapRegion(t, rs[0].first, rs[0].pages, rs[0].physical, rs[0].combining), rs[1..], x);
    }
  }

  /** No call overwrites what another wrote: each page of a region leads to its own frame. */
  lemma {:induction false} MapAllInside(t: seq<PageEntry>, rs: seq<Region>, at: nat, k: nat, x: nat)
    requires x < |t| && Placed(rs, at) && k < |rs| && Within(rs[k], x)
    ensures MapAll(t, rs)[x] == Filled(t[x], rs[k].physical + (x - rs[k].first) * PAGE, rs[k].combining)
    decreases |rs|
  {
    var mapped, rest := MapRegion(t, rs[0].first, rs[0].pages, rs[0].physical, rs[0].combining), rs[1..];
    if k == 0 {
      forall j: nat | j < |rest| ensures !Within(rest[j], x) {
        Apart(rs, at, 0, j + 1);
      }
      MapAllOutside(mapped, rest, x);
    } else {
      Apart(rs, at, 0, k);
      MapAllInside(mapped, rest, at + rs[0].pages + GUARD_PAGE, k - 1, x);
    }
  }

  /** What the hardware finds for a page of the kernel address space when the first `count` tables are linked into the
      page directory. */
  function Translate(t: seq<PageEntry>, count: nat, x: nat): int {
    if x / ENTRIES < count && x < |t| && t[x].present then t[x].frame else -1
  }

  ghost predicate Blank(t: seq<PageEntry>) {
    forall x: nat :: x < |t| ==> !t[x].present && !t[x].combining
  }

  /** After the calls, a page translates exactly when it lies in a region and in a linked table; and page i of a
      region then leads to the frame i after the region's first. */
  lemma {:induction false} TranslateExactly(t: seq<PageEntry>, rs: seq<Region>, at: nat, count: nat, x: nat)
    requires Blank(t) && Placed(rs, at) && x < |t|
    ensures Translate(MapAll(t, rs), count, x) >= 0
       <==> x < count * ENTRIES && exists k: nat :: k < |rs| && Within(rs[k], x)
    ensures |MapAll(t, rs)| == |t|
    ensures forall k: nat :: k < |rs| && Within(rs[k], x) && x < count * ENTRIES ==>
              Translate(MapAll(t, rs), count, x) == (rs[k].physical / PAGE + (x - rs[k].first)) % FRAME_FIELD
              && MapAll(t, rs)[x].combining == rs[k].combining
  {
    hide Placed;
    if forall k: nat :: k < |rs| ==> !Within(rs[k], x) {
      MapAllOutside(t, rs, x);
    } else {
      forall k: nat | k < |rs| && Within(rs[k], x)
        ensures MapAll(t, rs)[x].present && MapAll(t, rs)[x].combining == rs[k].combining
        ensures MapAll(t, rs)[x].frame == (rs[k].physical / PAGE + (x - rs[k].first)) % FRAME_FIELD
      {
        MapAllInside(t, rs, at, k, x);
        assert (rs[k].physical + (x - rs[k].first) * PAGE) / PAGE == rs[k].physical / PAGE + (x - rs[k].first);
      }
    }
  }

  /** The guard page behind each region translates to nothing. */
  lemma {:induction false} GuardsUnmapped(t: seq<PageEntry>, rs: seq<Region>, at: nat, count: nat, k: nat)
    requires Blank(t) && Placed(rs, at) && k < |rs| && rs[k].first + rs[k].pages < |t|
    ensures Translate(MapAll(t, rs), count, rs[k].first + rs[k].pages) == -1
  {
    hide Placed;
    var x := rs[k].first + rs[k].pages;
    forall j: nat | j < |rs| ensures !Within(rs[j], x) {
      if j < k {
        Apart(rs, at, j, k);
      } else if k < j {
        Apart(rs, at, k, j);
      }
    }
    MapAllOutside(t, rs, x);
  }

  // ----- The seven regions

  /** Page counts. The memory map is fetched twice: its size is `mapBefore` when pages are counted and `mapAfter` when
      its region is laid out. */
  datatype Sizes = Sizes(kernel: nat, bootState: nat, mapBefore: nat, mapAfter: nat, framebuffer: nat,
                         preserved: nat, stack: nat, bitmap: nat)

  /** Physical base addresses. */
  datatype Bases = Bases(kernel: nat, bootState: nat, memoryMap: nat, framebuffer: nat, stack: nat, bitmap: nat)

  function PagesBeforeTables(s: Sizes): nat {
    s.kernel + GUARD_PAGE + s.mapBefore + GUARD_PAGE + s.framebuffer + GUARD_PAGE + s.preserved + GUARD_PAGE
  }

  /** The pages the loader counts. */
  function Pages(s: Sizes): nat {
    PagesBeforeTables(s) + PageTableSize(PagesBeforeTables(s)) + GUARD_PAGE + s.bitmap + GUARD_PAGE
  }

  /** The tables it links into the page directory. */
  function LinkedTables(s: Sizes): nat {
    DivideRoundedUp(Pages(s), ENTRIES)
  }

  function Behind(r: Region): nat {
    r.first + r.pages + GUARD_PAGE
  }

  function Regions(s: Sizes, b: Bases): (rs: seq<Region>)
    ensures |rs| == 7
  {
    var tables := PageTableSize(PagesBeforeTables(s));
    var kernel := Region(0, s.kernel, b.kernel, false);
    var bootState := Region(Behind(kernel), s.bootState, b.bootState, false);
    var initialPages := Region(Behind(bootState), tables, b.kernel + s.kernel * PAGE, false);
    var memoryMap := Region(Behind(initialPages), s.mapAfter, b.memoryMap, false);
    var framebuffer := Region(Behind(memoryMap), s.framebuffer, b.framebuffer, true);
    var stack := Region(Behind(framebuffer), s.stack, b.stack, false);
    var allocator := Region(Behind(stack), s.bitmap, b.bitmap, false);
    [kernel, bootState, initialPages, memoryMap, framebuffer, stack, allocator]
  }

  /** Where the last region ends. */
  function Span(s: Sizes): nat {
    s.kernel + s.bootState + PageTableSize(PagesBeforeTables(s)) + s.mapAfter + s.framebuffer + s.stack + s.bitmap + 6
  }

  lemma RegionsPlaced(s: Sizes, b: Bases)
    ensures Placed(Regions(s, b), 0)
    ensures |Regions(s, b)| == 7 && Regions(s, b)[6].pages == s.bitmap
    ensures Regions(s, b)[6].first + s.bitmap == Span(s)
  {
    hide PageTableSize;
    var rs := Regions(s, b);
    assert Placed(rs[7..], Behind(rs[6]));
    PlacedOne(rs, 6);
    PlacedOne(rs, 5);
    PlacedOne(rs, 4);
    PlacedOne(rs, 3);
    PlacedOne(rs, 2);
    PlacedOne(rs, 1);
    PlacedOne(rs, 0);
    assert rs[0..] == rs;
  }

  lemma PlacedOne(rs: seq<Region>, k: nat)
    requires k < |rs| && Placed(rs[k + 1..], Behind(rs[k]))
    ensures Placed(rs[k..], rs[k].first)
  {
    assert rs[k..][0] == rs[k] && rs[k..][1..] == rs[k + 1..];
  }

  lemma CountedAndMapped(s: Sizes)
    ensures Span(s) - Pages(s) == s.bootState + s.stack + s.mapAfter - (s.preserved + s.mapBefore)
  {
  }

  /** Every page of every region is mapped. */
  ghost predicate AllMapped(t: seq<PageEntry>, s: Sizes, b: Bases) {
    forall k: nat, x: nat :: k < 7 && Within(Regions(s, b)[k], x) ==>
                               Translate(MapAll(t, Regions(s, b)), LinkedTables(s), x) >= 0
  }

  /** The loader counts the preserved firmware pages, which it never maps, but neither the boot state nor the stack,
      which it does. All it maps is reachable exactly when what it did not count is no more than what it counted
      without need, and the rest of the last table. */
  lemma AllMappedExactly(t: seq<PageEntry>, s: Sizes, b: Bases)
    requires Blank(t) && Span(s) <= |t| && s.bitmap > 0 && LinkedTables(s) <= ENTRIES
    ensures AllMapped(t, s, b)
       <==> s.bootState + s.stack + s.mapAfter
              <= s.preserved + s.mapBefore + (LinkedTables(s) * ENTRIES - Pages(s))
  {
    hide PageTableSize, Placed, MapAll, Regions, LinkedTables, Translate;
    RegionsPlaced(s, b);
    var rs, end := Regions(s, b), LinkedTables(s) * ENTRIES;
    CountedAndMapped(s);
    var last := Span(s) - 1;
    assert Within(rs[6], last);
    assert AllMapped(t, s, b) ==> Translate(MapAll(t, rs), LinkedTables(s), last) >= 0;
    forall k: nat, x: nat | k < 7 && Within(rs[k], x)
      ensures x <= last && (Translate(MapAll(t, rs), LinkedTables(s), x) >= 0 <==> x < end)
    {
      if k < 6 {
        Apart(rs, 0, k, 6);
      }
      TranslateExactly(t, rs, 0, LinkedTables(s), x);
    }
  }

  /** 512 pages counted fill one table; boot state and stack push the allocator's page past it. */
  lemma {:induction false} AllocatorUnreachable(t: seq<PageEntry>, b: Bases)
    requires Blank(t) && |t| >= 1024
    ensures var s := Sizes(397, 1, 1, 1, 99, 3, 10, 1);
            && Pages(s) == 512 && LinkedTables(s) == 1 && Span(s) == 520 && Within(Regions(s, b)[6], 519)
            && Translate(MapAll(t, Regions(s, b)), LinkedTables(s), 519) == -1
  {
    var s := Sizes(397, 1, 1, 1, 99, 3, 10, 1);
    OneDirectory(504);
    hide MapAll, Placed, PageTableSize;
  }

  /** Pages enough for one table when its region is sized, a second linked once the tables themselves are counted. */
  lemma SecondTableOutside()
    ensures var s := Sizes(397, 1, 1, 1, 100, 10, 10, 1);
            PageTableSize(PagesBeforeTables(s)) == 5 && LinkedTables(s) == 2
  {
    OneDirectory(512);
  }

  /** Four pages of structures stand in front of the tables. The tables linked lie inside the region set aside for
      them exactly when the pages counted after its size was fixed open no further table. */
  lemma TablesInsideExactly(s: Sizes)
    requires LinkedTables(s) <= ENTRIES
    ensures 4 + LinkedTables(s) <= PageTableSize(PagesBeforeTables(s))
       <==> Pages(s) <= ENTRIES * DivideRoundedUp(PagesBeforeTables(s), ENTRIES)
  {
    hide PageTableSize;
    OneDirectory(PagesBeforeTables(s));
  }

  lemma OneDirectory(pages: nat)
    requires 0 < pages <= ENTRIES * ENTRIES
    ensures PageTableSize(pages) == 4 + DivideRoundedUp(pages, ENTRIES)
  {
  }

  /** An address in a region leads to the same offset from the region's physical base exactly when that base is at
      the start of a page. */
  lemma OffsetKept(r: Region, off: nat)
    requires off < r.pages * PAGE && r.physical / PAGE + r.pages < FRAME_FIELD
    ensures (r.physical / PAGE + off / PAGE) % FRAME_FIELD * PAGE + off % PAGE == r.physical + off
       <==> r.physical % PAGE == 0
  {
    assert off / PAGE < r.pages;
  }

  /** A framebuffer based 256 bytes into a page is shown from the start of that page. */
  lemma BaseCutOff(r: Region)
    requires r.physical == 0xE000_0100 && r.pages > 0
    ensures r.physical / PAGE % FRAME_FIELD * PAGE == 0xE000_0000
  {
  }

  /** The region records, one behind the other, and the seven calls that map them. */
  method BuildTables(tables: array<PageEntry>, s: Sizes, b: Bases) returns (ms: seq<VirtualMapping>)
    requires Span(s) <= tables.Length
    modifies tables
    ensures tables[..] == MapAll(old(tables[..]), Regions(s, b))
    ensures |ms| == 7 && forall k: nat :: k < 7 ==> Records(ms[k], Regions(s, b)[k])
  {
    hide PageTableSize, MapAll, MapRegion;
    ghost var rs, was := Regions(s, b), tables[..];
    RegionsPlaced(s, b);
    var initialPages := PageTableSize(PagesBeforeTables(s));
    var m0 := VirtualMapping(KERNEL_BASE, b.kernel, s.kernel * PAGE);
    var m1 := VirtualMapping(NextVirtualMapping(m0), b.bootState, s.bootState * PAGE);
    var m2 := VirtualMapping(NextVirtualMapping(m1), b.kernel + s.kernel * PAGE, initialPages * PAGE);
    var m3 := VirtualMapping(NextVirtualMapping(m2), b.memoryMap, s.mapAfter * PAGE);
    var m4 := VirtualMapping(NextVirtualMapping(m3), b.framebuffer, s.framebuffer * PAGE);
    var m5 := VirtualMapping(NextVirtualMapping(m4), b.stack, s.stack * PAGE);
    var m6 := VirtualMapping(NextVirtualMapping(m5), b.bitmap, s.bitmap * PAGE);
    ms := [m0, m1, m2, m3, m4, m5, m6];
    assert rs[0..] == rs;
    MapNext(tables[..], rs, 0);
    MapAddressSpace(tables, m0, false);
    MapNext(tables[..], rs, 1);
    MapAddressSpace(tables, m1, false);
    MapNext(tables[..], rs, 2);
    MapAddressSpace(tables, m2, false);
    MapNext(tables[..], rs, 3);
    MapAddressSpace(tables, m3, false);
    MapNext(tables[..], rs, 4);
    MapAddressSpace(tables, m4, true);
    MapNext(tables[..], rs, 5);
    MapAddressSpace(tables, m5, false);
    MapNext(tables[..], rs, 6);
    MapAddressSpace(tables, m6, false);
    NothingLeft(tables[..], rs);
  }

  /** A record in bytes describes a region in pages. */
  predicate Records(m: VirtualMapping, r: Region) {
    m == VirtualMapping(KERNEL_BASE + r.first * PAGE, r.physical, r.pages * PAGE)
  }

  /** The pages of a recorded region, as the hardware maps them: each to its own page of the region, and write combining
      or not. */
  ghost predicate Shows(t: seq<PageEntry>, count: nat, m: VirtualMapping, physical: nat, pages: nat, combining: bool) {
    && m.physical == physical && m.size == pages * 4096 && m.base >= KERNEL_BASE
    && var first := EntryIndex(m.base);
       forall x: nat :: first <= x < first + pages && x < count * 512 ==>
         && x < |t| && Translate(t, count, x) == (physical / 4096 + (x - first)) % FRAME_FIELD
         && t[x].writeable && t[x].combining == combining
  }

  /** The seven records tell the kernel where it finds its image, the boot state, the paging structures behind the
      image, the memory map, the framebuffer, the stack and the frame allocator's bitmap; and there they are, each in
      as many pages as it has, writeable, and the framebuffer alone write combining. */
  lemma {:induction false} RecordsShow(t: seq<PageEntry>, s: Sizes, b: Bases, ms: seq<VirtualMapping>, count: nat)
    requires Blank(t) && Span(s) <= |t| && |ms| == 7
    requires forall k: nat :: k < 7 ==> Records(ms[k], Regions(s, b)[k])
    ensures var after := MapAll(t, Regions(s, b));
            && Shows(after, count, ms[0], b.kernel, s.kernel, false)
            && Shows(after, count, ms[1], b.bootState, s.bootState, false)
            && Shows(after, count, ms[2], b.kernel + s.kernel * 4096, PageTableSize(PagesBeforeTables(s)), false)
            && Shows(after, count, ms[3], b.memoryMap, s.mapAfter, false)
            && Shows(after, count, ms[4], b.framebuffer, s.framebuffer, true)
            && Shows(after, count, ms[5], b.stack, s.stack, false)
            && Shows(after, count, ms[6], b.bitmap, s.bitmap, false)
            && ms[0].base == KERNEL_BASE
            && forall k: nat :: k < 6 ==> ms[k + 1].base == ms[k].base + ms[k].size + 4096
  {
    hide PageTableSize, MapAll, Shows;
    RegionsPlaced(s, b);
    forall k: nat | k < 7
      ensures var r := Regions(s, b)[k];
              Shows(MapAll(t, Regions(s, b)), count, ms[k], r.physical, r.pages, r.combining)
    {
      RegionShows(t, s, b, ms[k], count, k);
    }
  }

  lemma {:induction false} RegionShows(t: seq<PageEntry>, s: Sizes, b: Bases, m: VirtualMapping, count: nat, k: nat)
    requires Blank(t) && Span(s) <= |t| && k < 7 && Records(m, Regions(s, b)[k])
    ensures var r := Regions(s, b)[k];
            Shows(MapAll(t, Regions(s, b)), count, m, r.physical, r.pages, r.combining)
  {
    hide PageTableSize, MapAll, Regions, Placed, Span;
    RegionsPlaced(s, b);
    var rs, r := Regions(s, b), Regions(s, b)[k];
    if k < 6 {
      Apart(rs, 0, k, 6);
    }
    assert EntryIndex(m.base) == r.first;
    var after := MapAll(t, rs);
    forall x: nat | r.first <= x < r.first + r.pages && x < count * 512
      ensures x < |after| && Translate(after, count, x) == (r.physical / 4096 + (x - r.first)) % FRAME_FIELD
      ensures after[x].writeable && after[x].combining == r.combining
    {
      TranslateExactly(t, rs, 0, count, x);
      MapAllInside(t, rs, 0, k, x);
    }
  }

  lemma {:induction false} MapNext(t: seq<PageEntry>, rs: seq<Region>, k: nat)
    requires k < |rs|
    ensures MapAll(t, rs[k..])
         == MapAll(MapRegion(t, rs[k].first, rs[k].pages, rs[k].physical, rs[k].combining), rs[k + 1..])
  {
    assert rs[k..][0] == rs[k] && rs[k..][1..] == rs[k + 1..];
  }

  lemma {:induction false} NothingLeft(t: seq<PageEntry>, rs: seq<Region>)
    ensures MapAll(t, rs[|rs|..]) == t
  {
  }
}
