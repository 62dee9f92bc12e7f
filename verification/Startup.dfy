/** The memory manager starts on the tables the boot loader leaves. */
module Startup {
  import opened Arithmetic
  import opened Wrappers
  import opened PageTables
  import opened BootMappings
  import BootLayout
  import FrameBitmap

  type Sizes = BootLayout.Sizes
  type Bases = BootLayout.Bases
  type PageEntry = BootLayout.PageEntry

  /** The first page of the kernel's address space. */
  const KERNEL_PAGE: nat := BootLayout.KERNEL_BASE / PAGE

  /** The frame of the first of the loader's paging structures: top level, two pointer tables, directory, tables. */
  function PagingFrame(s: Sizes, b: Bases): nat {
    (b.kernel + s.kernel * PAGE) / PAGE
  }

  function Directory(s: Sizes, b: Bases): nat {
    PagingFrame(s, b) + 3
  }

  function Table(s: Sizes, b: Bases, i: nat): nat {
    PagingFrame(s, b) + 4 + i
  }

  /** Memory holds the entries `t`, 512 to a table, and the directory links the tables that were counted. */
  predicate Loaded(mem: seq<Frame>, s: Sizes, b: Bases, t: seq<PageEntry>) {
    && BootLayout.LinkedTables(s) * ENTRIES <= |t|
    && (forall i: nat :: i < ENTRIES ==>
          Linked(mem, Directory(s, b), i) == if i < BootLayout.LinkedTables(s) then Some(Table(s, b, i)) else None)
    && (forall i: nat, j: nat :: i < BootLayout.LinkedTables(s) && j < ENTRIES ==>
          Linked(mem, Table(s, b, i), j) == ShownBy(t, i * ENTRIES + j))
  }

  function ShownBy(t: seq<PageEntry>, x: nat): Option<nat> {
    if x < |t| && t[x].present then Some(t[x].frame) else None
  }

  /** The loader's tables and the marks init makes on a clear bitmap, the block the loader took for the kernel among
      them. */
  ghost predicate Started(vm: Vm, s: Sizes, b: Bases, blank: seq<PageEntry>, clear: FrameBitmap.Frames, fs: seq<nat>) {
    && BootLayout.Blank(blank) && BootLayout.Span(s) <= |blank|
    && Loaded(vm.mem, s, b, BootLayout.MapAll(blank, BootLayout.Regions(s, b)))
    && BootLayout.LinkedTables(s) < ENTRIES && BootLayout.Span(s) < WINDOW
    && vm.kdir == Directory(s, b) && vm.next == KERNEL_PAGE + BootLayout.Span(s) + 1
    && |clear.marks| <= |vm.mem| <= PDE_FRAMES
    && clear.free < U64 && (forall f: nat :: f < |clear.marks| ==> !clear.marks[f])
    && vm.frames == FrameBitmap.MarkAll(clear, fs)
    && b.kernel / PAGE + BootLayout.Pages(s) <= |clear.marks|
    && forall f: nat :: b.kernel / PAGE <= f < b.kernel / PAGE + BootLayout.Pages(s) ==> f in fs
  }

  /** What is known then: the heap starts behind the last region's guard page. */
  function StartContext(vm: Vm, fs: seq<nat>): Context {
    Context(vm.next, KERNEL_PAGE, {}, set f | f in fs)
  }

  lemma WindowStart()
    ensures KERNEL_PAGE % WINDOW == 0
  {
  }

  lemma PageIndices(x: nat)
    requires x < WINDOW
    ensures PdIndex(KERNEL_PAGE + x) == x / ENTRIES && PtIndex(KERNEL_PAGE + x) == x % ENTRIES
  {
    WindowStart();
    SameEntry(KERNEL_PAGE + x, x);
  }

  /** The hardware finds for a page of the kernel's address space what the loader's entry says. */
  lemma StartLookup(vm: Vm, s: Sizes, b: Bases, t: seq<PageEntry>, x: nat)
    requires Loaded(vm.mem, s, b, t) && vm.kdir == Directory(s, b) && x < WINDOW
    ensures Lookup(vm, KERNEL_PAGE + x) == if x / ENTRIES < BootLayout.LinkedTables(s) then ShownBy(t, x) else None
  {
    hide PdIndex, PtIndex, BootLayout.LinkedTables, ShownBy, Linked;
    PageIndices(x);
    assert x == x / ENTRIES * ENTRIES + x % ENTRIES;
    assert Linked(vm.mem, Directory(s, b), x / ENTRIES) ==
           if x / ENTRIES < BootLayout.LinkedTables(s) then Some(Table(s, b, x / ENTRIES)) else None;
  }

  /** The frame behind page `x` of region `r`. */
  function RegionFrame(r: BootLayout.Region, x: nat): nat
    requires BootLayout.Within(r, x)
  {
    (r.physical / PAGE + (x - r.first)) % PTE_FRAMES
  }

  /** A page of the kernel's address space is mapped exactly if a region and a linked table hold it, and then to the
      region's frame. */
  lemma {:induction false} StartMaps(vm: Vm, s: Sizes, b: Bases, blank: seq<PageEntry>, x: nat)
    requires BootLayout.Blank(blank) && BootLayout.Span(s) <= |blank| && vm.kdir == Directory(s, b) && x < WINDOW
    requires Loaded(vm.mem, s, b, BootLayout.MapAll(blank, BootLayout.Regions(s, b)))
    ensures var rs := BootLayout.Regions(s, b);
            && (Lookup(vm, KERNEL_PAGE + x).Some? <==>
                  x < BootLayout.LinkedTables(s) * ENTRIES && exists k: nat :: k < 7 && BootLayout.Within(rs[k], x))
            && forall k: nat :: k < 7 && BootLayout.Within(rs[k], x) && x < BootLayout.LinkedTables(s) * ENTRIES ==>
                 Lookup(vm, KERNEL_PAGE + x) == Some(RegionFrame(rs[k], x))
  {
    hide BootLayout.LinkedTables, BootLayout.MapAll, BootLayout.Regions, BootLayout.Placed, Lookup, Loaded;
    var rs := BootLayout.Regions(s, b);
    BootLayout.RegionsPlaced(s, b);
    StartLookup(vm, s, b, BootLayout.MapAll(blank, rs), x);
    if x < |blank| {
      BootLayout.TranslateExactly(blank, rs, 0, BootLayout.LinkedTables(s), x);
    } else {
      PastSpan(s, b, x);
    }
  }

  /** No region reaches past the last. */
  lemma PastSpan(s: Sizes, b: Bases, x: nat)
    requires x >= BootLayout.Span(s)
    ensures forall k: nat :: k < 7 ==> !BootLayout.Within(BootLayout.Regions(s, b)[k], x)
  {
    hide BootLayout.Regions, BootLayout.Placed, BootLayout.Span;
    BootLayout.RegionsPlaced(s, b);
    forall k: nat | k < 7 ensures !BootLayout.Within(BootLayout.Regions(s, b)[k], x) {
      if k < 6 {
        BootLayout.Apart(BootLayout.Regions(s, b), 0, k, 6);
      }
    }
  }

  /** Directory and tables lie in the block the loader took for the kernel. */
  lemma TablesInBlock(s: Sizes, b: Bases)
    requires BootLayout.LinkedTables(s) <= ENTRIES
    ensures Directory(s, b) == b.kernel / PAGE + s.kernel + 3
    ensures s.kernel + 4 + BootLayout.LinkedTables(s) <= BootLayout.Pages(s)
  {
    assert (b.kernel + s.kernel * PAGE) / PAGE == b.kernel / PAGE + s.kernel;
    var before := BootLayout.PagesBeforeTables(s);
    BootLayout.OneDirectory(before);
    hide BootLayout.PageTableSize;
  }

  /** The directory and the tables are marked, apart, and map nothing behind the regions: runs may start, and nothing is
      in use but what the loader made. */
  lemma StartIsAtBoot(vm: Vm, s: Sizes, b: Bases, blank: seq<PageEntry>, clear: FrameBitmap.Frames, fs: seq<nat>)
    requires Started(vm, s, b, blank, clear, fs)
    ensures AtBoot(vm, StartContext(vm, fs))
  {
    hide BootLayout.Pages, BootLayout.LinkedTables, BootLayout.MapAll, BootLayout.Regions, Lookup, Linked,
         FrameBitmap.MarkAll;
    WindowStart();
    TablesInBlock(s, b);
    forall i: nat | Linked(vm.mem, vm.kdir, i).Some?
      ensures i < BootLayout.LinkedTables(s) && Linked(vm.mem, vm.kdir, i) == Some(Table(s, b, i))
    {
      LinkedInside(vm.mem, vm.kdir, i);
    }
    forall page: nat | vm.next <= page < KERNEL_PAGE + WINDOW ensures Lookup(vm, page) == None {
      var x := page - KERNEL_PAGE;
      StartMaps(vm, s, b, blank, x);
      PastSpan(s, b, x);
    }
    BootMarksSuffice(vm, clear, fs, vm.next, KERNEL_PAGE);
    FrameBitmap.MarkAllSizes(clear, fs);
    forall f: nat | Taken(vm, f) ensures f in fs {
      FrameBitmap.MarkAllMarks(clear, fs, f);
    }
  }

  lemma LinkedInside(mem: seq<Frame>, f: nat, i: nat)
    ensures Linked(mem, f, i).Some? ==> i < ENTRIES
  {
  }

  /** A boot mapping shows a frame exactly if it is that of a page of some region in a linked table. */
  lemma StartShows(vm: Vm, s: Sizes, b: Bases, blank: seq<PageEntry>, clear: FrameBitmap.Frames, fs: seq<nat>, f: nat)
    requires Started(vm, s, b, blank, clear, fs)
    ensures Shown(vm, StartContext(vm, fs), f) <==> RegionHas(s, b, f)
  {
    hide BootLayout.Pages, BootLayout.LinkedTables, BootLayout.MapAll, BootLayout.Regions, Lookup, BootLayout.Span,
         Loaded;
    var c, rs := StartContext(vm, fs), BootLayout.Regions(s, b);
    if Shown(vm, c, f) {
      var q: nat :| c.window <= q < c.heap && Lookup(vm, q) == Some(f);
      var x := q - KERNEL_PAGE;
      StartMaps(vm, s, b, blank, x);
      var k: nat :| k < 7 && BootLayout.Within(rs[k], x);
      assert PageHas(s, b, k, x, f);
    }
    if RegionHas(s, b, f) {
      var k: nat, x: nat :| PageHas(s, b, k, x, f);
      if x >= BootLayout.Span(s) {
        PastSpan(s, b, x);
      }
      StartMaps(vm, s, b, blank, x);
      assert Lookup(vm, KERNEL_PAGE + x) == Some(f);
    }
  }

  /** Page `x` of region `k` lies in a linked table and has the frame. */
  predicate PageHas(s: Sizes, b: Bases, k: nat, x: nat, f: nat) {
    && k < 7 && BootLayout.Within(BootLayout.Regions(s, b)[k], x)
    && x < BootLayout.LinkedTables(s) * ENTRIES && RegionFrame(BootLayout.Regions(s, b)[k], x) == f
  }

  ghost predicate RegionHas(s: Sizes, b: Bases, f: nat) {
    exists k: nat, x: nat :: PageHas(s, b, k, x, f)
  }

  /** From the loader's tables and init's marks on, some run hands out a frame of a region the loader mapped, such as
      the framebuffer, or makes a table of it, exactly when init left such a frame clear with fewer clear frames before
      it than are counted free. */
  lemma LoaderExposes(vm: Vm, s: Sizes, b: Bases, blank: seq<PageEntry>, clear: FrameBitmap.Frames, fs: seq<nat>)
    requires Started(vm, s, b, blank, clear, fs)
    ensures SomeRunExposes(vm, StartContext(vm, fs)) <==>
            exists f: nat :: RegionHas(s, b, f) && Clear(vm, f) && InReach(vm.frames, f)
  {
    StartIsAtBoot(vm, s, b, blank, clear, fs);
    var last := BootLayout.LinkedTables(s);
    assert Linked(vm.mem, vm.kdir, last) == None;
    hide BootLayout.LinkedTables, AtBoot, Linked, SomeRunExposes, Shown, RegionHas, InReach, Clear, Started;
    BootExposes(vm, StartContext(vm, fs));
    forall f: nat ensures Shown(vm, StartContext(vm, fs), f) <==> RegionHas(s, b, f) {
      StartShows(vm, s, b, blank, clear, fs, f);
    }
  }
}
