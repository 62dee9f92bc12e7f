/** The memory manager as the kernel runs it: entries rewritten in place in physical frames. */
module MemoryManagement {
  import opened Arithmetic
  import opened Words
  import opened Wrappers
  import opened FrameBitmap
  import opened PageTables

  const PHYSICAL_MAPPING_BASE: nat := 0xffff_ff00_0000_0000

  datatype MemoryManagerError = AllocatorError | GenericError

  lemma PageOfAddress(base: nat, i: nat)
    ensures (i * PAGE) / PAGE == i
    ensures (base + i * PAGE) / PAGE == base / PAGE + i
    ensures base % PAGE == 0 ==> base / PAGE * PAGE == base
  {
  }

  /** A supply of virtual pages that only moves up. */
  class VirtualAddressSpace {
    var baseAddress: nat
    var nextAddress: nat
    var size: nat
    var freePages: nat

    ghost predicate Valid()
      reads this
    {
      nextAddress % PAGE == 0 && nextAddress + freePages * PAGE < U64
    }

    constructor (base: nat, size: nat)
      requires base % PAGE == 0 && base + size < U64
      ensures Valid() && nextAddress == base && freePages == size / PAGE
    {
      baseAddress, nextAddress, this.size, freePages := base, base, size, size / PAGE;
    }

    method TakePage() returns (r: Result<nat, MemoryManagerError>)
      requires Valid()
      modifies this
      ensures Valid()
      ensures old(freePages) == 0 ==> r == Err(GenericError) && nextAddress == old(nextAddress) && freePages == 0
      ensures old(freePages) > 0 ==>
                r == Ok(old(nextAddress)) && nextAddress == old(nextAddress) + PAGE && freePages == old(freePages) - 1
    {
      if freePages == 0 {
        return Err(GenericError);
      }
      r := Ok(nextAddress);
      nextAddress := nextAddress + PAGE;
      freePages := freePages - 1;
    }

    /** Takes max(1, n) pages; when there are too few it takes them all and fails. */
    method TakePages(n: nat) returns (r: Result<nat, MemoryManagerError>)
      requires Valid()
      modifies this
      ensures Valid()
      ensures var wanted := if n == 0 then 1 else n;
              if old(freePages) >= wanted then
                r == Ok(old(nextAddress)) && nextAddress == old(nextAddress) + wanted * PAGE
                && freePages == old(freePages) - wanted
              else
                r == Err(GenericError) && nextAddress == old(nextAddress) + old(freePages) * PAGE && freePages == 0
    {
      r := TakePage();
      if r.Err? {
        return;
      }
      var i := 1;
      while i < n
        invariant Valid() && 1 <= i && (i <= n || n == 0) && (n == 0 ==> i == 1)
        invariant i <= old(freePages)
        invariant nextAddress == old(nextAddress) + i * PAGE && freePages == old(freePages) - i
      {
        var next := TakePage();
        if next.Err? {
          return Err(GenericError);
        }
        i := i + 1;
      }
    }
  }

  class MemoryManager {
    const memory: array<Frame>
    const bitmap: Bitmap
    const heap: VirtualAddressSpace
    const kernelDirectory: nat

    /** The objects the manager rewrites. */
    ghost function Parts(): set<object>
      reads bitmap
    {
      {memory, bitmap, bitmap.storage, heap}
    }

    ghost predicate Valid()
      reads this, bitmap, heap
    {
      && bitmap.Valid() && bitmap.pageSize == PAGE && bitmap.baseAddress == 0
      && heap.Valid()
      && memory as object != bitmap.storage as object
      && WORD_BITS * bitmap.blockCount <= memory.Length
    }

    /** The machine state the manager's methods are specified over. */
    ghost function View(): Vm
      requires Valid()
      reads this, memory, bitmap, bitmap.storage, heap
    {
      Vm(memory[..], bitmap.View(), kernelDirectory, heap.nextAddress / PAGE, heap.freePages)
    }

    constructor (memory: array<Frame>, bitmap: Bitmap, heap: VirtualAddressSpace, kernelDirectory: nat)
      requires bitmap.Valid() && bitmap.pageSize == PAGE && bitmap.baseAddress == 0
      requires heap.Valid() && memory as object != bitmap.storage as object
      requires WORD_BITS * bitmap.blockCount <= memory.Length
      ensures Valid() && this.memory == memory && this.bitmap == bitmap && this.heap == heap
      ensures View() == Vm(memory[..], bitmap.View(), kernelDirectory, heap.nextAddress / PAGE, heap.freePages)
    {
      this.memory, this.bitmap, this.heap, this.kernelDirectory := memory, bitmap, heap, kernelDirectory;
    }

    method ReadEntry(f: nat, i: nat) returns (e: Entry)
      ensures e == EntryAt(memory[..], f, i)
    {
      if f < memory.Length && i < ENTRIES {
        e := memory[f][i];
      } else {
        e := ZeroEntry();
      }
    }

    method StoreEntry(f: nat, i: nat, e: Entry)
      requires Valid()
      modifies memory
      ensures Valid() && View() == old(View()).(mem := WriteEntry(old(View()).mem, f, i, e))
    {
      if f < memory.Length && i < ENTRIES {
        memory[f] := memory[f][i := e];
      }
      assert memory[..] == WriteEntry(old(memory[..]), f, i, e);
    }

    method AllocatePhysicalPage() returns (r: Result<nat, MemoryManagerError>)
      requires Valid()
      modifies Parts()
      ensures Valid() && bitmap.storage == old(bitmap.storage)
      ensures View() == AllocatePage(old(View())).vm
      ensures r == match AllocatePage(old(View())).result case Some(f) => Ok(f * PAGE) case None => Err(AllocatorError)
    {
      var found := bitmap.Allocate();
      match found {
        case Err(_) =>
          r := Err(AllocatorError);
        case Ok(address) =>
          var f := address / PAGE;
          assert address == f * PAGE;
          memory[f] := ZeroFrame();
          assert memory[..] == ZeroAt(old(memory[..]), f);
          r := Ok(address);
      }
    }

    /** The table's frame and the entry's index: what the returned PageTableEntry pointer denotes. */
    method GetKernelPageTableEntry(address: nat) returns (r: Result<(nat, nat), MemoryManagerError>)
      requires Valid()
      modifies Parts()
      ensures Valid() && bitmap.storage == old(bitmap.storage)
      ensures View() == KernelTableFor(old(View()), address / PAGE).vm
      ensures r == match KernelTableFor(old(View()), address / PAGE).result
                   case Some(t) => Ok((t, PtIndex(address / PAGE)))
                   case None => Err(AllocatorError)
    {
      var i := PdIndex(address / PAGE);
      var pde := ReadEntry(kernelDirectory, i);
      if !pde.present {
        var page := AllocatePhysicalPage();
        match page {
          case Err(e) => return Err(e);
          case Ok(physical) =>
            pde := ReadEntry(kernelDirectory, i);
            pde := LinkEntry(pde, physical / PAGE);
            StoreEntry(kernelDirectory, i, pde);
        }
      }
      return Ok((pde.frame, PtIndex(address / PAGE)));
    }

    method MapKernelPageDirectory(physical: nat, address: nat) returns (r: Result<(), MemoryManagerError>)
      requires Valid()
      modifies Parts()
      ensures Valid() && bitmap.storage == old(bitmap.storage)
      ensures View() == MapKernel(old(View()), physical / PAGE, address / PAGE).vm
      ensures r == if MapKernel(old(View()), physical / PAGE, address / PAGE).result.Some? then Ok(())
                   else Err(AllocatorError)
    {
      var found := GetKernelPageTableEntry(address);
      match found {
        case Err(e) => return Err(e);
        case Ok((t, j)) =>
          var pte := ReadEntry(t, j);
          StoreEntry(t, j, pte.(present := true, writeable := true, frame := physical / PAGE % PTE_FRAMES));
      }
      return Ok(());
    }

    method UnmapKernelPageDirectory(address: nat) returns (r: Result<(), MemoryManagerError>)
      requires Valid()
      modifies Parts()
      ensures Valid() && bitmap.storage == old(bitmap.storage)
      ensures View() == UnmapKernel(old(View()), address / PAGE).vm
      ensures r == if UnmapKernel(old(View()), address / PAGE).result.Some? then Ok(()) else Err(AllocatorError)
    {
      var found := GetKernelPageTableEntry(address);
      match found {
        case Err(e) => return Err(e);
        case Ok((t, j)) =>
          var pte := ReadEntry(t, j);
          StoreEntry(t, j, pte.(present := false, writeable := false, frame := 0));
      }
      return Ok(());
    }

    method KernelVirtualToPhysicalAddress(address: nat) returns (walk: Walk)
      requires Valid()
      ensures walk == Translate(View(), address)
    {
      var page := address / PAGE;
      var pde := ReadEntry(kernelDirectory, PdIndex(page));
      if !pde.present {
        return Panicked;
      }
      var table := WalkTable(pde.frame);
      match table {
        case None => return Faulted;
        case Some(t) =>
          var first := ReadEntry(t, 0);
          if !first.present {
            return Panicked;
          }
          var pte := ReadEntry(t, PtIndex(page));
          if !pte.present {
            return Panicked;
          }
          return Returned(pte.frame * PAGE + address % PAGE);
      }
    }

    method AllocateKernelHeapPage() returns (r: Result<nat, MemoryManagerError>)
      requires Valid()
      modifies Parts()
      ensures Valid() && bitmap.storage == old(bitmap.storage)
      ensures View() == AllocateHeapPage(old(View())).vm
      ensures match AllocateHeapPage(old(View())).result case Some(page) => r == Ok(page * PAGE) case None => r.Err?
    {
      hide AllocatePage, MapKernel;
      var physical := AllocatePhysicalPage();
      if physical.Err? {
        return Err(physical.error);
      }
      PageOfAddress(0, physical.value / PAGE);
      var virtual := heap.TakePage();
      if virtual.Err? {
        return Err(virtual.error);
      }
      var mapped := MapKernelPageDirectory(physical.value, virtual.value);
      if mapped.Err? {
        return Err(mapped.error);
      }
      PageOfAddress(virtual.value, 0);
      return virtual;
    }

    method AllocateKernelHeapPages(n: nat) returns (r: Result<nat, MemoryManagerError>)
      requires Valid()
      modifies Parts()
      ensures Valid() && bitmap.storage == old(bitmap.storage)
      ensures View() == AllocateHeapPages(old(View()), n).vm
      ensures match AllocateHeapPages(old(View()), n).result case Some(page) => r == Ok(page * PAGE) case None => r.Err?
    {
      hide AllocatePage, MapKernel;
      ghost var start := View();
      var range := heap.TakePages(n);
      if range.Err? {
        return Err(range.error);
      }
      ghost var taken := View();
      assert taken == TakePages(start, n).vm;
      var i := 0;
      while i < n
        invariant Valid() && bitmap.storage == old(bitmap.storage) && i <= n
        invariant BackPages(View(), start.next, i, n) == BackPages(taken, start.next, 0, n)
      {
        var physical := AllocatePhysicalPage();
        if physical.Err? {
          return Err(physical.error);
        }
        var pageAddress := range.value + i * PAGE;
        PageOfAddress(range.value, i);
        var mapped := MapKernelPageDirectory(physical.value, pageAddress);
        if mapped.Err? {
          return Err(mapped.error);
        }
        i := i + 1;
      }
      return range;
    }

    /** None when the translation, a VERIFY or the bitmap lookup never comes back. */
    method FreeKernelHeapPage(address: nat) returns (r: Option<Result<(), MemoryManagerError>>)
      requires Valid()
      modifies Parts()
      ensures r.None? <==> FreeHeapPage(old(View()), address).Stopped?
      ensures r.Some? ==> Valid() && bitmap.storage == old(bitmap.storage)
      ensures r.Some? ==> View() == FreeHeapPage(old(View()), address).step.vm
      ensures r.Some? ==> r.value.Ok? == FreeHeapPage(old(View()), address).step.result.Some?
    {
      hide Translate, UnmapKernel, AddressToBlockAndOffset;
      var walk := KernelVirtualToPhysicalAddress(address);
      match walk {
        case Returned(physical) =>
          if physical / PAGE >= WORD_BITS * bitmap.blockCount {
            return None;
          }
          var freed := bitmap.Free(physical);
          var unmapped := UnmapKernelPageDirectory(address);
          return Some(unmapped);
        case _ =>
          return None;
      }
    }

    method CreateUserModeDirectory() returns (r: Result<nat, MemoryManagerError>)
      requires Valid()
      modifies Parts()
      ensures Valid() && bitmap.storage == old(bitmap.storage)
      ensures View() == CreateUserDirectory(old(View())).vm
      ensures r == match CreateUserDirectory(old(View())).result
                   case Some(f) => Ok(f * PAGE)
                   case None => Err(AllocatorError)
    {
      hide AllocatePage, LinkEntry, WriteEntry, EntryAt;
      var root := AllocatePhysicalPage();
      if root.Err? {
        return Err(root.error);
      }
      var directory := AllocatePhysicalPage();
      if directory.Err? {
        return Err(directory.error);
      }
      var pdpte := ReadEntry(root.value / PAGE, 0);
      StoreEntry(root.value / PAGE, 0, LinkEntry(pdpte, directory.value / PAGE).(user := true));
      return root;
    }

    /** None when the page is already mapped: the code then loops for ever. */
    method MapUserPage(root: nat, physical: nat, address: nat, write: bool, execute: bool)
        returns (r: Option<Result<(), MemoryManagerError>>)
      requires Valid()
      modifies Parts()
      ensures var frame, page := physical / PAGE, address / PAGE;
              r.None? <==> PageTables.MapUserPage(old(View()), root / PAGE, frame, page, write, execute).Stopped?
      ensures r.Some? ==> Valid() && bitmap.storage == old(bitmap.storage)
      ensures r.Some? ==>
                var frame, page := physical / PAGE, address / PAGE;
                var s := PageTables.MapUserPage(old(View()), root / PAGE, frame, page, write, execute).step;
                View() == s.vm && r.value == if s.result.Some? then Ok(()) else Err(AllocatorError)
    {
      hide AllocatePage, LinkEntry, WriteEntry, EntryAt, PdIndex, PtIndex;
      var page := address / PAGE;
      var pdpte := ReadEntry(root / PAGE, 0);
      var pde := ReadEntry(pdpte.frame, PdIndex(page));
      if !pde.present {
        var table := AllocatePhysicalPage();
        if table.Err? {
          return Some(Err(table.error));
        }
        pde := ReadEntry(pdpte.frame, PdIndex(page));
        pde := LinkEntry(pde, table.value / PAGE).(user := true);
        StoreEntry(pdpte.frame, PdIndex(page), pde);
      }
      var pte := ReadEntry(pde.frame, PtIndex(page));
      if pte.present {
        return None;
      }
      StoreEntry(pde.frame, PtIndex(page), Entry(true, write, true, !execute, physical / PAGE % PTE_FRAMES));
      return Some(Ok(()));
    }

    /** The address returned is the kernel's mapping of the first page's frame. */
    method AllocateUserPages(root: nat, base: nat, n: nat, write: bool, execute: bool)
        returns (r: Option<Result<nat, MemoryManagerError>>)
      requires Valid()
      modifies Parts()
      ensures var s := PageTables.AllocateUserPages(old(View()), root / PAGE, base / PAGE, n, write, execute);
              r.None? <==> s.Stopped?
      ensures r.Some? ==> Valid() && bitmap.storage == old(bitmap.storage)
      ensures r.Some? ==>
                var s := PageTables.AllocateUserPages(old(View()), root / PAGE, base / PAGE, n, write, execute).step;
                View() == s.vm && r.value.Ok? == s.result.Some?
      ensures r.Some? && r.value.Ok? ==>
                var first := AllocatePage(old(View())).result;
                var start := if n > 0 && first.Some? then first.value * PAGE else 0;
                r.value.value == (start + PHYSICAL_MAPPING_BASE) % U64
    {
      hide AllocatePage, PageTables.MapUserPage;
      ghost var start := View();
      var first := 0;
      var i := 0;
      while i < n
        invariant Valid() && bitmap.storage == old(bitmap.storage) && i <= n
        invariant PageTables.AllocateUserPages(View(), root / PAGE, base / PAGE + i, n - i, write, execute)
               == PageTables.AllocateUserPages(start, root / PAGE, base / PAGE, n, write, execute)
        invariant i == 0 ==> View() == start && first == 0
        invariant i > 0 ==> AllocatePage(start).result.Some? && first == AllocatePage(start).result.value * PAGE
      {
        var address := base + i * PAGE;
        PageOfAddress(base, i);
        var page := AllocatePhysicalPage();
        if page.Err? {
          return Some(Err(page.error));
        }
        if i == 0 {
          first := page.value;
        }
        var mapped := MapUserPage(root, page.value, address, write, execute);
        if mapped.None? {
          return None;
        }
        i := i + 1;
      }
      return Some(Ok((first + PHYSICAL_MAPPING_BASE) % U64));
    }

    method SetPageFlags(address: nat, n: nat, write: bool, execute: bool) returns (r: Result<(), MemoryManagerError>)
      requires Valid()
      modifies Parts()
      ensures Valid() && bitmap.storage == old(bitmap.storage)
      ensures View() == PageTables.SetPageFlags(old(View()), address / PAGE, n, write, execute).vm
      ensures r.Ok? == PageTables.SetPageFlags(old(View()), address / PAGE, n, write, execute).result.Some?
    {
      hide KernelTableFor, WriteEntry, EntryAt, PtIndex;
      ghost var start := View();
      var i := 0;
      while i < n
        invariant Valid() && bitmap.storage == old(bitmap.storage) && i <= n
        invariant PageTables.SetPageFlags(View(), address / PAGE + i, n - i, write, execute)
               == PageTables.SetPageFlags(start, address / PAGE, n, write, execute)
      {
        var pageAddress := address + i * PAGE;
        PageOfAddress(address, i);
        var found := GetKernelPageTableEntry(pageAddress);
        if found.Err? {
          return Err(found.error);
        }
        var pte := ReadEntry(found.value.0, found.value.1);
        StoreEntry(found.value.0, found.value.1, pte.(writeable := write, noExecute := !execute));
        i := i + 1;
      }
      return Ok(());
    }
  }
}
