/** Data buffers handed to the block device: the driver translates a buffer's first byte, the device takes the rest to
    lie behind it in physical memory. */
module BlockBuffers {
  import opened Wrappers
  import opened PageTables
  import opened BootMappings
  import Virtio
  import FrameBitmap

  /** Where a byte of kernel memory lies, as the hardware maps it. */
  function Physical(vm: Vm, address: nat): Option<nat> {
    match Lookup(vm, address / PAGE)
    case None => None
    case Some(f) => Some(f * PAGE + address % PAGE)
  }

  /** The j-th byte of the data the device reads or writes. */
  function DeviceByte(r: Virtio.Request, d2: nat, j: nat): nat
    requires r.data.Some?
  {
    Virtio.DataDesc(r, d2).addr + j
  }

  /** The device works on the caller's own bytes. */
  ghost predicate OwnBytes(vm: Vm, address: nat, r: Virtio.Request, d2: nat)
    requires r.data.Some?
  {
    forall j: nat :: j < r.bytes ==> Physical(vm, address + j) == Some(DeviceByte(r, d2, j))
  }

  /** The page of the buffer's last byte. */
  function LastPage(address: nat, bytes: nat): nat
    requires bytes > 0
  {
    (address + bytes - 1) / PAGE
  }

  /** The buffer's pages are mapped to frames that follow one another. */
  ghost predicate Consecutive(vm: Vm, address: nat, bytes: nat)
    requires bytes > 0
  {
    var p := address / PAGE;
    Lookup(vm, p).Some? && forall q: nat :: p <= q <= LastPage(address, bytes) ==>
                             Lookup(vm, q) == Some(Lookup(vm, p).value + (q - p))
  }

  lemma ByteOfPage(address: nat, bytes: nat, j: nat)
    requires j < bytes
    ensures address / PAGE <= (address + j) / PAGE <= LastPage(address, bytes)
    ensures (address + j) / PAGE * PAGE + (address + j) % PAGE == address + j
  {
  }

  /** A request is served in the caller's own bytes exactly when its data address is where the hardware has the buffer's
      first byte and the buffer's frames follow one another. */
  lemma ServedExactly(vm: Vm, address: nat, r: Virtio.Request, d2: nat)
    requires r.bytes > 0 && r.data.Some?
    ensures OwnBytes(vm, address, r, d2) <==> r.data == Physical(vm, address) && Consecutive(vm, address, r.bytes)
  {
    hide Lookup;
    var p, off := address / PAGE, address % PAGE;
    assert p * PAGE + off == address;
    if OwnBytes(vm, address, r, d2) {
      assert Physical(vm, address + 0) == Some(DeviceByte(r, d2, 0));
      var f := Lookup(vm, p).value;
      forall q: nat | p <= q <= LastPage(address, r.bytes) ensures Lookup(vm, q) == Some(f + (q - p)) {
        var j: nat := if q == p then 0 else q * PAGE - address;
        ByteOfPage(address, r.bytes, j);
        assert Physical(vm, address + j) == Some(DeviceByte(r, d2, j));
      }
    }
    if r.data == Physical(vm, address) && Consecutive(vm, address, r.bytes) {
      forall j: nat | j < r.bytes ensures Physical(vm, address + j) == Some(DeviceByte(r, d2, j)) {
        ByteOfPage(address, r.bytes, j);
      }
    }
  }

  /** The data address the driver gives is right when the table of the buffer's first page lies below 2 GiB: then all
      turns on the frames. */
  lemma ServedOwnBytes(vm: Vm, address: nat, r: Virtio.Request, d2: nat)
    requires r.bytes > 0 && Translate(vm, address).Returned? && r.data == Some(Translate(vm, address).address)
    ensures LowTable(vm, address / PAGE) ==> r.data == Physical(vm, address)
    ensures r.data == Physical(vm, address) ==>
              (OwnBytes(vm, address, r, d2) <==> Consecutive(vm, address, r.bytes))
    ensures r.data != Physical(vm, address) ==> !OwnBytes(vm, address, r, d2)
  {
    hide Lookup, Translate, LowTable, OwnBytes, Consecutive;
    var p, off := address / PAGE, address % PAGE;
    assert p * PAGE + off == address;
    ServedExactly(vm, address, r, d2);
    if LowTable(vm, p) {
      TranslateLow(vm, p, off);
    }
  }

  /** So a buffer that stays in one page is, if its data address is right. */
  lemma OnePageServed(vm: Vm, address: nat, r: Virtio.Request, d2: nat)
    requires r.bytes > 0 && address % PAGE + r.bytes <= PAGE && r.data.Some?
    ensures OwnBytes(vm, address, r, d2) <==> r.data == Physical(vm, address)
  {
    hide Lookup;
    assert LastPage(address, r.bytes) == address / PAGE;
    ServedExactly(vm, address, r, d2);
  }

  /** A call of rw: source and destination as the callers give them, and where header and status stand on its stack. */
  datatype Call = Call(write: bool, sector: Virtio.Sector, source: nat, destination: nat, bytes: nat, header: nat,
                       status: nat)

  function Translated(vm: Vm, address: nat): Option<nat> {
    match Translate(vm, address)
    case Returned(a) => Some(a)
    case _ => None
  }

  /** The request rw makes of it. */
  function Asked(vm: Vm, a: Call): Virtio.Request {
    Virtio.Request(a.write, a.sector, a.bytes, Translated(vm, a.header),
                   Translated(vm, if a.write then a.source else a.destination), Translated(vm, a.status))
  }

  predicate ByteLies(vm: Vm, address: nat, at: nat, j: nat) {
    Physical(vm, address + j) == Some(at + j)
  }

  /** The buffer's bytes lie in physical memory one behind the other, from `at` on. */
  ghost predicate LiesAt(vm: Vm, address: nat, bytes: nat, at: nat) {
    forall j: nat :: j < bytes ==> ByteLies(vm, address, at, j)
  }

  /** The data the device is given in a chain. */
  function DataOf(s: Virtio.System): Option<Virtio.Desc>
    requires Virtio.Shaped(s.q)
  {
    var chain := Virtio.Chain(s.q.desc, s.q.avail[s.seen % s.q.num], s.q.num);
    if |chain| == 3 then Some(chain[1]) else None
  }

  lemma DataIs(s: Virtio.System)
    requires Virtio.Inv(s) && Virtio.Enabled(s, Virtio.DeviceTake)
    ensures Virtio.Shaped(s.q) && s.phase.Waiting? && s.phase.request.data.Some? && DataOf(s).Some?
    ensures var d, r := DataOf(s).value, s.phase.request;
            d.addr == r.data.value && d.len == r.bytes && (Virtio.DeviceWrites(d) <==> !r.write)
  {
    Virtio.DeviceReadsRequest(s);
    hide Virtio.Chain;
  }

  lemma AskedLies(vm: Vm, address: nat, r: Virtio.Request)
    requires r.bytes > 0 && r.data.Some?
    ensures LiesAt(vm, address, r.bytes, r.data.value)
       <==> r.data == Physical(vm, address) && Consecutive(vm, address, r.bytes)
  {
    hide Physical, Consecutive;
    ServedExactly(vm, address, r, 0);
    if LiesAt(vm, address, r.bytes, r.data.value) {
      forall j: nat | j < r.bytes ensures Physical(vm, address + j) == Some(DeviceByte(r, 0, j)) {
        assert ByteLies(vm, address, r.data.value, j);
      }
    }
    if OwnBytes(vm, address, r, 0) {
      forall j: nat | j < r.bytes ensures ByteLies(vm, address, r.data.value, j) {
        assert Physical(vm, address + j) == Some(DeviceByte(r, 0, j));
      }
    }
  }

  /** While the device has a write, the data it reads are the source's bytes, one by one, exactly if the source's frames
      follow one another from where its first byte translates to; and it may not write there. */
  lemma WriteSendsSource(vm: Vm, a: Call, s: Virtio.System)
    requires Virtio.Inv(s) && Virtio.Enabled(s, Virtio.DeviceTake) && a.write && a.bytes > 0
    requires s.phase.Waiting? && s.phase.request == Asked(vm, a)
    ensures Virtio.Shaped(s.q) && DataOf(s).Some?
    ensures var d := DataOf(s).value;
            && d.len == a.bytes && !Virtio.DeviceWrites(d)
            && (LiesAt(vm, a.source, a.bytes, d.addr) <==>
                  Translated(vm, a.source) == Physical(vm, a.source) && Consecutive(vm, a.source, a.bytes))
  {
    hide Virtio.Inv, Virtio.Enabled, DataOf, Virtio.Shaped, LiesAt, Physical, Consecutive, Translated;
    DataIs(s);
    AskedLies(vm, a.source, s.phase.request);
  }

  /** While it has a read, the data it writes come into the destination's bytes on the same terms. */
  lemma ReadFillsDestination(vm: Vm, a: Call, s: Virtio.System)
    requires Virtio.Inv(s) && Virtio.Enabled(s, Virtio.DeviceTake) && !a.write && a.bytes > 0
    requires s.phase.Waiting? && s.phase.request == Asked(vm, a)
    ensures Virtio.Shaped(s.q) && DataOf(s).Some?
    ensures var d := DataOf(s).value;
            && d.len == a.bytes && Virtio.DeviceWrites(d)
            && (LiesAt(vm, a.destination, a.bytes, d.addr) <==>
                  Translated(vm, a.destination) == Physical(vm, a.destination)
                  && Consecutive(vm, a.destination, a.bytes))
  {
    hide Virtio.Inv, Virtio.Enabled, DataOf, Virtio.Shaped, LiesAt, Physical, Consecutive, Translated;
    DataIs(s);
    AskedLies(vm, a.destination, s.phase.request);
  }

  /** A heap page, a user directory, and the next heap page: the directory takes the frame behind the first page's, if
      it is clear. */
  lemma PagesApart(vm: Vm, c: Context, owner: map<nat, Slot>, one: Vm, two: Vm, three: Vm) returns (c': Context)
    requires Inv(vm, c, owner) && three.next <= c.window + WINDOW
    requires AllocateHeapPage(vm) == Step(one, Some(vm.next))
    requires CreateUserDirectory(one).vm == two && CreateUserDirectory(one).result.Some?
    requires AllocateHeapPage(two) == Step(three, Some(vm.next + 1)) && one.next == vm.next + 1 <= three.next
    ensures Sound(three, c') && c' == c.(roots := c'.roots) && three.next == vm.next + 2
    ensures Lookup(three, vm.next).Some? && Lookup(three, vm.next + 1).Some?
    ensures Lookup(three, vm.next + 1).value != Lookup(three, vm.next).value + 1
  {
    hide Inv, Lookup, AllocateHeapPage, CreateUserDirectory, Target, SameKernel, AlikeOutside, Shown, FreshlyBacked,
         Draws, GrowsTo, Taken;
    var p := vm.next;
    HeapPageShown(vm, c, owner);
    var o := AllocateHeapPageKeeps(vm, c, owner);
    DirectoryTakesLowest(one, c, o);
    var o';
    c', o' := CreateUserDirectoryKeeps(one, c, o);
    NextKept(one);
    HeapPageShown(two, c', o');
    var o'' := AllocateHeapPageKeeps(two, c', o');
    KernelKept(one, two, p);
    HeapInside(vm, c, owner);
    HeapBelow(vm, c, owner);
    AlikeAt(c', two, three, p, p + 1);
    HeapPageTaken(one, c, o, p);
    LowestBeyond(vm, one, two);
  }

  lemma HeapBelow(vm: Vm, c: Context, owner: map<nat, Slot>)
    requires Inv(vm, c, owner)
    ensures c.window <= c.heap
  {
  }

  lemma HeapPageTaken(vm: Vm, c: Context, owner: map<nat, Slot>, page: nat)
    requires Inv(vm, c, owner) && c.heap <= page < vm.next && Lookup(vm, page).Some?
    ensures Taken(vm, Lookup(vm, page).value)
  {
    hide Inv, Lookup;
    HeapTarget(vm, c, page);
    InvOwns(vm, c, owner, HeapPage(page));
  }

  lemma NextKept(vm: Vm)
    ensures CreateUserDirectory(vm).vm.next == vm.next
  {
  }

  lemma KernelKept(vm: Vm, after: Vm, page: nat)
    requires SameKernel(vm, after)
    ensures Lookup(after, page) == Lookup(vm, page)
  {
  }

  lemma AlikeAt(c: Context, vm: Vm, after: Vm, page: nat, next: nat)
    requires AlikeOutside(c, vm, after, next, next + 1) && page < next && InWindow(c, page)
    ensures Lookup(after, page) == Lookup(vm, page)
  {
  }

  /** A new directory takes the lowest clear frame. */
  lemma DirectoryTakesLowest(vm: Vm, c: Context, owner: map<nat, Slot>)
    requires Inv(vm, c, owner) && CreateUserDirectory(vm).result.Some?
    ensures var low := FrameBitmap.Lowest(vm.frames.marks, 0);
            low.Some? && Taken(CreateUserDirectory(vm).vm, low.value)
  {
    AllocatePageGrows(AllocatePage(vm).vm);
  }

  lemma LowestBeyond(vm: Vm, one: Vm, two: Vm)
    requires GrowsTo(vm, one) && GrowsTo(one, two)
    requires FrameBitmap.Lowest(vm.frames.marks, 0).Some? && FrameBitmap.Lowest(one.frames.marks, 0).Some?
    requires FrameBitmap.Lowest(two.frames.marks, 0).Some?
    requires Taken(one, FrameBitmap.Lowest(vm.frames.marks, 0).value)
    requires Taken(two, FrameBitmap.Lowest(one.frames.marks, 0).value)
    ensures FrameBitmap.Lowest(two.frames.marks, 0).value != FrameBitmap.Lowest(vm.frames.marks, 0).value + 1
  {
    var f, g, h := FrameBitmap.Lowest(vm.frames.marks, 0).value, FrameBitmap.Lowest(one.frames.marks, 0).value,
                   FrameBitmap.Lowest(two.frames.marks, 0).value;
    assert !Taken(two, h) && !Taken(one, h) && !Taken(one, g) && g != h;
    LowestLeast(one.frames.marks, h);
    LowestLeast(vm.frames.marks, g);
  }

  lemma {:induction false} LowestLeast(marks: seq<bool>, x: nat)
    requires x < |marks| && !marks[x]
    ensures FrameBitmap.Lowest(marks, 0).Some? && FrameBitmap.Lowest(marks, 0).value <= x
  {
  }

  /** Such a buffer, a sector across the two pages, is not served in the caller's bytes. */
  lemma AcrossNotServed(vm: Vm, p: nat, r: Virtio.Request, d2: nat, off: nat)
    requires Lookup(vm, p).Some? && Lookup(vm, p + 1).Some?
    requires Lookup(vm, p + 1).value != Lookup(vm, p).value + 1
    requires off < PAGE && off + r.bytes > PAGE && r.data.Some?
    ensures !OwnBytes(vm, p * PAGE + off, r, d2)
  {
    hide Lookup, OwnBytes;
    var address := p * PAGE + off;
    ServedExactly(vm, address, r, d2);
    InPages(p, off, r.bytes);
    var q := p + 1;
    assert Lookup(vm, q) != Some(Lookup(vm, p).value + (q - p));
  }

  lemma InPages(p: nat, off: nat, bytes: nat)
    requires off < PAGE && off + bytes > PAGE
    ensures (p * PAGE + off) / PAGE == p && p + 1 <= LastPage(p * PAGE + off, bytes)
  {
  }

  /** Eight frames, the kernel's directory and its one table in the first two, nothing mapped. */
  function EightFrames(): Vm {
    var blank := ZeroFrame();
    Vm([blank[0 := Entry(true, true, false, false, 1)], blank, blank, blank, blank, blank, blank, blank],
       FrameBitmap.Frames([true, true, false, false, false, false, false, false], 6, 8), 0, 0, 8)
  }

  lemma EightFramesSound()
    ensures Inv(EightFrames(), Context(0, 0, {}, {0, 1}), map[0 := KernelDir, 1 := KernelTable(0)])
    ensures var vm := EightFrames();
            && Linked(vm.mem, vm.kdir, PdIndex(0)).Some? && vm.next == 0 && vm.left == 8
            && vm.frames == FrameBitmap.Frames([true, true, false, false, false, false, false, false], 6, 8)
  {
    var vm := EightFrames();
    assert Linked(vm.mem, 0, 0) == Some(1);
    assert forall i :: i != 0 ==> Linked(vm.mem, 0, i) == None;
  }

  /** A heap page and then a user directory, of frames that are there. */
  lemma FirstTwoCalls(vm: Vm, c: Context, owner: map<nat, Slot>, one: Vm, two: Vm)
      returns (c': Context, o: map<nat, Slot>)
    requires Inv(vm, c, owner) && vm.next == 0 && vm.left == 8 && c == Context(0, 0, {}, {0, 1})
    requires vm.frames == FrameBitmap.Frames([true, true, false, false, false, false, false, false], 6, 8)
    requires Linked(vm.mem, vm.kdir, PdIndex(0)).Some?
    requires one == AllocateHeapPage(vm).vm && two == CreateUserDirectory(one).vm
    ensures AllocateHeapPage(vm).result == Some(0) && CreateUserDirectory(one).result.Some?
    ensures Inv(two, c', o) && two.next == 1 && one.next == 1 && c' == c.(roots := c'.roots)
    ensures Lookup(one, 0) == Some(2) && Lookup(two, 0) == Some(2)
    ensures AllocatePage(two).result.Some? && two.left == 7 && |two.frames.marks| == 8
  {
    assert FrameBitmap.Lowest(vm.frames.marks, 0) == Some(2);
    OneHeapPage(vm, c, owner);
    HeapPageShown(vm, c, owner);
    var o1 := AllocateHeapPageKeeps(vm, c, owner);
    DirectoryOf(one);
    c', o := CreateUserDirectoryKeeps(one, c, o1);
    KernelKept(one, two, 0);
  }

  lemma DirectoryOf(vm: Vm)
    requires vm.frames == FrameBitmap.Frames([true, true, true, false, false, false, false, false], 5, 8)
    ensures var s := CreateUserDirectory(vm);
            && s.result.Some? && s.vm.next == vm.next && s.vm.left == vm.left
            && s.vm.frames == FrameBitmap.Frames([true, true, true, true, true, false, false, false], 3, 8)
            && AllocatePage(s.vm).result.Some?
  {
    var a := AllocatePage(vm);
    LowestLeast(vm.frames.marks, 3);
    LowestLeast(a.vm.frames.marks, 4);
    LowestLeast([true, true, true, true, true, false, false, false], 5);
  }

  /** A mapped first page of a table below 2 GiB translates. */
  lemma FirstPageTranslates(vm: Vm, c: Context, owner: map<nat, Slot>, off: nat)
    requires Inv(vm, c, owner) && |vm.frames.marks| <= LOW_FRAMES && Lookup(vm, 0).Some? && off < PAGE
    ensures Translate(vm, off) == Returned(Lookup(vm, 0).value * PAGE + off)
  {
    AncestorsOwned(vm, c, owner, HeapPage(0));
    TranslateLow(vm, 0, off);
    FirstEntryIsLookup(vm, 0);
  }

  /** From there, a heap page, a user directory and the next heap page leave a sound state in which a sector across the
      two pages is sent to the device at a frame where the second page is not. */
  lemma SectorAcrossPages(d2: nat)
    ensures var vm := AllocateHeapPage(CreateUserDirectory(AllocateHeapPage(EightFrames()).vm).vm).vm;
            var r := Virtio.Request(false, 7, 512, Some(0), Some(2 * PAGE + 3840), Some(0));
            && (exists c :: Sound(vm, c) && c.heap == 0 && vm.next == 2)
            && Virtio.Translated(r) && !Virtio.BadLength(r) && Translate(vm, 3840) == Returned(r.data.value)
            && !OwnBytes(vm, 3840, r, d2)
  {
    EightFramesSound();
    hide Inv, AllocateHeapPage, CreateUserDirectory, Lookup, Linked, AllocatePage, Translate, OwnBytes, PdIndex,
         EightFrames, Sound;
    var c := Context(0, 0, {}, {0, 1});
    var three, c3 := ThreeCalls(EightFrames(), c, map[0 := KernelDir, 1 := KernelTable(0)]);
    var r := Virtio.Request(false, 7, 512, Some(0), Some(2 * PAGE + 3840), Some(0));
    AcrossNotServed(three, 0, r, d2, 3840);
  }

  lemma ThreeCalls(vm: Vm, c: Context, owner: map<nat, Slot>) returns (three: Vm, c3: Context)
    requires Inv(vm, c, owner) && vm.next == 0 && vm.left == 8 && c == Context(0, 0, {}, {0, 1})
    requires vm.frames == FrameBitmap.Frames([true, true, false, false, false, false, false, false], 6, 8)
    requires Linked(vm.mem, vm.kdir, PdIndex(0)).Some?
    ensures three == AllocateHeapPage(CreateUserDirectory(AllocateHeapPage(vm).vm).vm).vm
    ensures Sound(three, c3) && c3.heap == 0 && three.next == 2
    ensures Lookup(three, 0).Some? && Lookup(three, 1).Some? && Lookup(three, 1).value != Lookup(three, 0).value + 1
    ensures Translate(three, 3840) == Returned(2 * PAGE + 3840)
  {
    hide Inv, AllocateHeapPage, CreateUserDirectory, Lookup, Linked, AllocatePage, Translate, PdIndex, GrowsTo, Draws,
         FreshlyBacked, AlikeOutside;
    var one := AllocateHeapPage(vm).vm;
    var two := CreateUserDirectory(one).vm;
    var c1, o1 := FirstTwoCalls(vm, c, owner, one, two);
    SameTable(two);
    OneHeapPage(two, c1, o1);
    three := AllocateHeapPage(two).vm;
    var o2 := AllocateHeapPageKeeps(two, c1, o1);
    AlikeAt(c1, two, three, 0, 1);
    SizeKept(two, three);
    FirstPageTranslates(three, c1, o2, 3840);
    c3 := PagesApart(vm, c, owner, one, two, three);
  }

  lemma SizeKept(vm: Vm, after: Vm)
    requires GrowsTo(vm, after)
    ensures |after.frames.marks| == |vm.frames.marks|
  {
  }

  lemma SameTable(vm: Vm)
    requires Lookup(vm, 0).Some? && vm.next == 1
    ensures Linked(vm.mem, vm.kdir, PdIndex(vm.next)).Some?
  {
  }
}
