/** What the kernel may do with its own pages: the entries the hardware walks, and the flags each call leaves. */
module KernelAccess {
  import opened Wrappers
  import opened PageTables
  import FrameBitmap

  /** The directory's entry that names the page's table. */
  function TableEntry(vm: Vm, page: nat): Entry {
    EntryAt(vm.mem, vm.kdir, PdIndex(page))
  }

  /** The kernel may write a page that is present and writeable at both levels. */
  predicate MayWrite(vm: Vm, page: nat) {
    var d, e := TableEntry(vm, page), EntryOf(vm, page);
    d.present && d.writeable && e.present && e.writeable
  }

  /** No table is linked read-only. */
  ghost predicate TablesWriteable(vm: Vm) {
    forall page: nat :: TableEntry(vm, page).present ==> TableEntry(vm, page).writeable
  }

  /** Mapping makes the page present, writeable and the frame's; whether it may be executed, and whose it is, stay as
      they were. Pages of other entries keep theirs whole. */
  lemma MapKernelEntry(vm: Vm, frame: nat, page: nat, q: nat)
    requires TablesApart(vm) && frame < PTE_FRAMES && MapKernel(vm, frame, page).result.Some?
    ensures var e, was := EntryOf(MapKernel(vm, frame, page).vm, q), EntryOf(vm, q);
            if q % WINDOW == page % WINDOW then
              e.present && e.writeable && e.frame == frame && e.user == was.user && e.noExecute == was.noExecute
            else e == was
  {
    UpdateKernelEntry(vm, page, (e: Entry) => e.(present := true, writeable := true, frame := frame % PTE_FRAMES));
  }

  /** Unmapping clears presence, writeability and frame, and leaves the rest. */
  lemma UnmapKernelEntry(vm: Vm, page: nat, q: nat)
    requires TablesApart(vm) && UnmapKernel(vm, page).result.Some?
    ensures var e, was := EntryOf(UnmapKernel(vm, page).vm, q), EntryOf(vm, q);
            if q % WINDOW == page % WINDOW then
              !e.present && !e.writeable && e.frame == 0 && e.user == was.user && e.noExecute == was.noExecute
            else e == was
  {
    UpdateKernelEntry(vm, page, (e: Entry) => e.(present := false, writeable := false, frame := 0));
  }

  /** An update leaves every table linked as it was, or newly linked writeable. */
  lemma UpdateLinks(vm: Vm, page: nat, change: Entry -> Entry)
    requires TablesApart(vm) && TablesWriteable(vm)
    ensures var s := UpdateKernel(vm, page, change);
            TablesWriteable(s.vm) && (s.result.Some? ==> TableEntry(s.vm, page).present)
  {
    KernelTableForApart(vm, page);
    var w := KernelTableFor(vm, page);
    hide PtIndex;
    forall q: nat | TableEntry(w.vm, q).present ensures TableEntry(w.vm, q).writeable {
      if PdIndex(q) != PdIndex(page) {
        assert TableEntry(w.vm, q) == TableEntry(vm, q);
      }
    }
    if w.result.Some? {
      var after := UpdateKernel(vm, page, change).vm;
      assert forall q: nat :: TableEntry(after, q) == TableEntry(w.vm, q);
    }
  }

  lemma MapKernelWrites(vm: Vm, frame: nat, page: nat)
    requires TablesApart(vm) && TablesWriteable(vm) && frame < PTE_FRAMES
    ensures var s := MapKernel(vm, frame, page);
            && TablesApart(s.vm) && TablesWriteable(s.vm)
            && (s.result.Some? ==> MayWrite(s.vm, page))
            && (forall q: nat :: MayWrite(vm, q) ==> MayWrite(s.vm, q))
  {
    UpdateLinks(vm, page, (e: Entry) => e.(present := true, writeable := true, frame := frame % PTE_FRAMES));
    MapKernelLookup(vm, frame, page);
    hide TablesApart, MapKernel, EntryOf;
    var s := MapKernel(vm, frame, page);
    forall q: nat | s.result.Some? && (q == page || MayWrite(vm, q)) ensures MayWrite(s.vm, q) {
      MapKernelEntry(vm, frame, page, q);
      PresentHasTable(s.vm, q);
    }
  }

  lemma PresentHasTable(vm: Vm, q: nat)
    ensures EntryOf(vm, q).present ==> TableEntry(vm, q).present
  {
  }

  /** Taking a frame changes nothing the kernel's walk reads. */
  lemma AllocateLeaves(vm: Vm)
    requires TablesApart(vm)
    ensures var a := AllocatePage(vm);
            && TablesApart(a.vm)
            && (a.result.Some? ==> a.result.value < PTE_FRAMES)
            && (forall q: nat :: EntryOf(a.vm, q) == EntryOf(vm, q) && TableEntry(a.vm, q) == TableEntry(vm, q))
  {
    hide PdIndex, PtIndex;
    var a := AllocatePage(vm);
    assert forall i: nat :: Linked(a.vm.mem, vm.kdir, i) == Linked(vm.mem, vm.kdir, i);
  }

  lemma AllocateWrites(vm: Vm)
    requires TablesApart(vm) && TablesWriteable(vm)
    ensures var a := AllocatePage(vm);
            && TablesApart(a.vm) && TablesWriteable(a.vm)
            && (a.result.Some? ==> a.result.value < PTE_FRAMES)
            && (forall q: nat :: MayWrite(a.vm, q) <==> MayWrite(vm, q))
  {
    AllocateLeaves(vm);
    hide EntryOf, TablesApart, AllocatePage, TableEntry;
  }

  lemma EndLeaves(vm: Vm, n: nat)
    requires TablesApart(vm) && TablesWriteable(vm)
    ensures var t := TakePages(vm, n).vm;
            TablesApart(t) && TablesWriteable(t) && forall q: nat :: MayWrite(t, q) <==> MayWrite(vm, q)
  {
    var t := TakePages(vm, n).vm;
    assert forall q: nat :: TableEntry(t, q) == TableEntry(vm, q);
  }

  /** A heap page that is had may be written, and so may every page that might before. */
  lemma HeapPageWrites(vm: Vm)
    requires TablesApart(vm) && TablesWriteable(vm)
    ensures var s := AllocateHeapPage(vm);
            && TablesApart(s.vm) && TablesWriteable(s.vm)
            && (s.result.Some? ==> MayWrite(s.vm, s.result.value))
            && (forall q: nat :: MayWrite(vm, q) ==> MayWrite(s.vm, q))
  {
    hide TablesApart, TablesWriteable, MapKernel, AllocatePage, MayWrite, TakePages;
    AllocateWrites(vm);
    var a := AllocatePage(vm);
    if a.result.Some? {
      EndLeaves(a.vm, 1);
      var t := TakePages(a.vm, 1);
      if t.result.Some? {
        MapKernelWrites(t.vm, a.result.value, t.result.value);
      }
    }
  }

  lemma {:induction false} BackPagesWrite(vm: Vm, first: nat, i: nat, n: nat)
    requires TablesApart(vm) && TablesWriteable(vm)
    ensures var s := BackPages(vm, first, i, n);
            && TablesApart(s.vm) && TablesWriteable(s.vm)
            && (s.result.Some? ==> forall q: nat :: first + i <= q < first + n ==> MayWrite(s.vm, q))
            && (forall q: nat :: MayWrite(vm, q) ==> MayWrite(s.vm, q))
    decreases n - i
  {
    hide TablesApart, TablesWriteable, MapKernel, AllocatePage, MayWrite;
    if i < n {
      AllocateWrites(vm);
      var a := AllocatePage(vm);
      if a.result.Some? {
        MapKernelWrites(a.vm, a.result.value, first + i);
        var m := MapKernel(a.vm, a.result.value, first + i);
        if m.result.Some? {
          BackPagesWrite(m.vm, first, i + 1, n);
        }
      }
    }
  }

  /** All pages of a heap block that is had may be written. */
  lemma HeapPagesWrite(vm: Vm, n: nat)
    requires TablesApart(vm) && TablesWriteable(vm)
    ensures var s := AllocateHeapPages(vm, n);
            && TablesApart(s.vm) && TablesWriteable(s.vm)
            && (s.result.Some? ==> forall q: nat :: s.result.value <= q < s.result.value + n ==> MayWrite(s.vm, q))
            && (forall q: nat :: MayWrite(vm, q) ==> MayWrite(s.vm, q))
  {
    hide TablesApart, TablesWriteable, MayWrite, BackPages, TakePages;
    EndLeaves(vm, n);
    var t := TakePages(vm, n);
    if t.result.Some? {
      BackPagesWrite(t.vm, t.result.value, 0, n);
      BackPagesFirst(t.vm, t.result.value, 0, n);
    }
  }

  lemma {:induction false} BackPagesFirst(vm: Vm, first: nat, i: nat, n: nat)
    ensures BackPages(vm, first, i, n).result.Some? ==> BackPages(vm, first, i, n).result.value == first
    decreases n - i
  {
    hide AllocatePage, MapKernel;
    if i < n {
      var a := AllocatePage(vm);
      if a.result.Some? {
        BackPagesFirst(MapKernel(a.vm, a.result.value, first + i).vm, first, i + 1, n);
      }
    }
  }
}
