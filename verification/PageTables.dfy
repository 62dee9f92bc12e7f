/** Page tables held in physical frames, and the kernel operations on them as functions of the machine state. */
module PageTables {
  import opened Arithmetic
  import opened Wrappers
  import opened FrameBitmap

  const PAGE: nat := 0x1000
  const ENTRIES: nat := 512
  /** Pages that the directory and table indices (bits 12..29 of an address) can tell apart. */
  const WINDOW: nat := 0x4_0000
  /** Frame numbers a page directory entry (28 bits) and a page table entry (40 bits) can hold. */
  const PDE_FRAMES: nat := 0x1000_0000
  const PTE_FRAMES: nat := 0x100_0000_0000
  /** Frames below 2 GiB. */
  const LOW_FRAMES: nat := 0x8_0000

  /** The parts of a table entry the code reads or writes. */
  datatype Entry = Entry(present: bool, writeable: bool, user: bool, noExecute: bool, frame: nat)

  function ZeroEntry(): Entry {
    Entry(false, false, false, false, 0)
  }

  type Frame = f: seq<Entry> | |f| == ENTRIES witness seq(ENTRIES, _ => ZeroEntry())

  /** What memset leaves in a frame. */
  function ZeroFrame(): (f: Frame)
    ensures forall i :: 0 <= i < ENTRIES ==> f[i] == ZeroEntry()
  {
    seq(ENTRIES, _ => ZeroEntry())
  }

  /** Physical memory, the frame allocator, the frame of the kernel page directory and the kernel heap's
      supply of virtual pages: `next` is the page number of m_next_address, `left` is its m_free_pages. */
  datatype Vm = Vm(mem: seq<Frame>, frames: Frames, kdir: nat, next: nat, left: nat)

  /** The allocator tracks no frame that memory lacks, and every frame number fits a directory entry. Of the free count
      nothing is asked but that it is a machine word: it may have drifted from the marks. */
  predicate Sane(vm: Vm) {
    && |vm.frames.marks| <= |vm.mem| <= PDE_FRAMES
    && vm.kdir < |vm.mem|
    && vm.frames.free < U64
  }

  // ----- Entries. A table outside memory reads as absent and swallows writes; the invariant rules that out.

  function EntryAt(mem: seq<Frame>, f: nat, i: nat): Entry {
    if f < |mem| && i < ENTRIES then mem[f][i] else ZeroEntry()
  }

  function WriteEntry(mem: seq<Frame>, f: nat, i: nat, e: Entry): (after: seq<Frame>)
    ensures |after| == |mem|
  {
    if f < |mem| && i < ENTRIES then mem[f := mem[f][i := e]] else mem
  }

  function ZeroAt(mem: seq<Frame>, f: nat): (after: seq<Frame>)
    ensures |after| == |mem|
  {
    if f < |mem| then mem[f := ZeroFrame()] else mem
  }

  // ----- Following entries

  /** The frame entry `i` of frame `f` points at, if it is present. */
  function Linked(mem: seq<Frame>, f: nat, i: nat): Option<nat> {
    if EntryAt(mem, f, i).present then Some(EntryAt(mem, f, i).frame) else None
  }

  function Follow(mem: seq<Frame>, table: Option<nat>, i: nat): Option<nat> {
    match table
    case None => None
    case Some(f) => Linked(mem, f, i)
  }

  function PdIndex(page: nat): (i: nat)
    ensures i < ENTRIES
  {
    page / ENTRIES % ENTRIES
  }

  function PtIndex(page: nat): (j: nat)
    ensures j < ENTRIES
  {
    page % ENTRIES
  }

  /** The frame the hardware finds for a kernel page. */
  function Lookup(vm: Vm, page: nat): Option<nat> {
    Follow(vm.mem, Linked(vm.mem, vm.kdir, PdIndex(page)), PtIndex(page))
  }

  /** The frame the hardware finds for a user page under the directory rooted at `root`. */
  function LookupUser(vm: Vm, root: nat, page: nat): Option<nat> {
    Follow(vm.mem, Follow(vm.mem, Linked(vm.mem, root, 0), PdIndex(page)), PtIndex(page))
  }

  // ----- Allocation and the table walker

  datatype Step<T> = Step(vm: Vm, result: Option<T>)

  /** allocate_physical_page: the lowest free frame, zeroed. */
  function AllocatePage(vm: Vm): Step<nat> {
    var out := AllocateFrame(vm.frames);
    match out.result
    case Err(_) => Step(vm, None)
    case Ok(f) => Step(vm.(mem := ZeroAt(vm.mem, f), frames := out.state), Some(f))
  }

  /** The entry linking to a table: present and writeable, its frame cut to the field's 28 bits. */
  function LinkEntry(e: Entry, f: nat): Entry {
    e.(present := true, writeable := true, frame := f % PDE_FRAMES)
  }

  /** get_kernel_page_table_entry: the table holding the page's entry, made on demand. */
  function KernelTableFor(vm: Vm, page: nat): Step<nat> {
    var i := PdIndex(page);
    var pde := EntryAt(vm.mem, vm.kdir, i);
    if pde.present then Step(vm, Some(pde.frame))
    else
      var s := AllocatePage(vm);
      match s.result
      case None => s
      case Some(f) =>
        var link := LinkEntry(EntryAt(s.vm.mem, vm.kdir, i), f);
        Step(s.vm.(mem := WriteEntry(s.vm.mem, vm.kdir, i, link)), Some(link.frame))
  }

  /** Rewrites the page's own entry, making its table first if need be. */
  function UpdateKernel(vm: Vm, page: nat, change: Entry -> Entry): Step<()> {
    var s := KernelTableFor(vm, page);
    match s.result
    case None => Step(s.vm, None)
    case Some(t) =>
      var e := change(EntryAt(s.vm.mem, t, PtIndex(page)));
      Step(s.vm.(mem := WriteEntry(s.vm.mem, t, PtIndex(page), e)), Some(()))
  }

  /** map_kernel_page_directory. */
  function MapKernel(vm: Vm, frame: nat, page: nat): Step<()> {
    UpdateKernel(vm, page, (e: Entry) => e.(present := true, writeable := true, frame := frame % PTE_FRAMES))
  }

  /** unmap_kernel_page_directory. */
  function UnmapKernel(vm: Vm, page: nat): Step<()> {
    UpdateKernel(vm, page, (e: Entry) => e.(present := false, writeable := false, frame := 0))
  }

  /** VirtualAddressSpace::take_pages: asked for none it still takes one; short of pages it takes all and fails. */
  function TakePages(vm: Vm, n: nat): Step<nat> {
    var wanted := if n == 0 then 1 else n;
    if vm.left >= wanted then Step(vm.(next := vm.next + wanted, left := vm.left - wanted), Some(vm.next))
    else Step(vm.(next := vm.next + vm.left, left := 0), None)
  }

  /** allocate_kernel_heap_page. */
  function AllocateHeapPage(vm: Vm): Step<nat> {
    var a := AllocatePage(vm);
    match a.result
    case None => a
    case Some(f) =>
      var t := TakePages(a.vm, 1);
      match t.result
      case None => t
      case Some(page) =>
        var m := MapKernel(t.vm, f, page);
        Step(m.vm, if m.result.Some? then Some(page) else None)
  }

  /** The loop of allocate_kernel_heap_pages from page `i` on. */
  function BackPages(vm: Vm, first: nat, i: nat, n: nat): Step<nat>
    decreases n - i
  {
    if i >= n then Step(vm, Some(first))
    else
      var a := AllocatePage(vm);
      match a.result
      case None => a
      case Some(f) =>
        var m := MapKernel(a.vm, f, first + i);
        if m.result.None? then Step(m.vm, None) else BackPages(m.vm, first, i + 1, n)
  }

  /** allocate_kernel_heap_pages. */
  function AllocateHeapPages(vm: Vm, n: nat): Step<nat> {
    var t := TakePages(vm, n);
    match t.result
    case None => t
    case Some(first) => BackPages(t.vm, first, 0, n)
  }

  /** create_user_mode_directory. */
  function CreateUserDirectory(vm: Vm): Step<nat> {
    var a := AllocatePage(vm);
    match a.result
    case None => a
    case Some(root) =>
      var b := AllocatePage(a.vm);
      match b.result
      case None => b
      case Some(dir) =>
        var link := LinkEntry(EntryAt(b.vm.mem, root, 0), dir).(user := true);
        Step(b.vm.(mem := WriteEntry(b.vm.mem, root, 0, link)), Some(root))
  }

  /** A call either comes back or stops the kernel: a failed VERIFY, a fault, or the endless loop of map_user_page. */
  datatype Outcome<T> = Stopped | Done(step: Step<T>)

  /** map_user_page. */
  function MapUserPage(vm: Vm, root: nat, frame: nat, page: nat, write: bool, execute: bool): Outcome<()> {
    var s := UserTableFor(vm, root, page);
    match s.result
    case None => Done(Step(s.vm, None))
    case Some(t) =>
      if EntryAt(s.vm.mem, t, PtIndex(page)).present then Stopped
      else
        var e := Entry(true, write, true, !execute, frame % PTE_FRAMES);
        Done(Step(s.vm.(mem := WriteEntry(s.vm.mem, t, PtIndex(page), e)), Some(())))
  }

  /** The part of map_user_page that finds or makes the page's table. */
  function UserTableFor(vm: Vm, root: nat, page: nat): Step<nat> {
    var dir := EntryAt(vm.mem, root, 0).frame;
    var pde := EntryAt(vm.mem, dir, PdIndex(page));
    if pde.present then Step(vm, Some(pde.frame))
    else
      var s := AllocatePage(vm);
      match s.result
      case None => s
      case Some(f) =>
        var link := LinkEntry(EntryAt(s.vm.mem, dir, PdIndex(page)), f).(user := true);
        Step(s.vm.(mem := WriteEntry(s.vm.mem, dir, PdIndex(page), link)), Some(link.frame))
  }

  /** The loop of allocate_user_pages for the `n` pages from `page` on; map_user_page's result is dropped. */
  function AllocateUserPages(vm: Vm, root: nat, page: nat, n: nat, write: bool, execute: bool): Outcome<()>
    decreases n
  {
    if n == 0 then Done(Step(vm, Some(())))
    else
      var a := AllocatePage(vm);
      match a.result
      case None => Done(Step(a.vm, None))
      case Some(f) =>
        match MapUserPage(a.vm, root, f, page, write, execute)
        case Stopped => Stopped
        case Done(m) => AllocateUserPages(m.vm, root, page + 1, n - 1, write, execute)
  }

  /** set_page_flags for the `n` pages from `page` on. */
  function SetPageFlags(vm: Vm, page: nat, n: nat, write: bool, execute: bool): Step<()>
    decreases n
  {
    if n == 0 then Step(vm, Some(()))
    else
      var u := UpdateKernel(vm, page, (e: Entry) => e.(writeable := write, noExecute := !execute));
      if u.result.None? then u else SetPageFlags(u.vm, page + 1, n - 1, write, execute)
  }

  // ----- Translation

  /** A walk returns an address, stops in VERIFY, or touches memory that is not mapped. */
  datatype Walk = Returned(address: nat) | Panicked | Faulted

  /** The frame the translation reads as page table: the 28-bit field is shifted left by 12 as a signed 32-bit
      int, so bit 31 of the shifted value sends the pointer below the physical mapping. */
  function WalkTable(f: nat): Option<nat> {
    var low := f % (2 * LOW_FRAMES);
    if low < LOW_FRAMES then Some(low) else None
  }

  /** kernel_virtual_to_physical_address. */
  function Translate(vm: Vm, address: nat): Walk {
    var page := address / PAGE;
    var pde := EntryAt(vm.mem, vm.kdir, PdIndex(page));
    if !pde.present then Panicked
    else
      match WalkTable(pde.frame)
      case None => Faulted
      case Some(t) =>
        if !EntryAt(vm.mem, t, 0).present then Panicked
        else
          var pte := EntryAt(vm.mem, t, PtIndex(page));
          if !pte.present then Panicked
          else Returned(pte.frame * PAGE + address % PAGE)
  }

  /** free_kernel_heap_page: the bitmap's answer is dropped; an address outside the bitmap is not modelled further. */
  function FreeHeapPage(vm: Vm, address: nat): Outcome<()> {
    match Translate(vm, address)
    case Returned(physical) =>
      if physical / PAGE < |vm.frames.marks| then
        Done(UnmapKernel(vm.(frames := FreeFrame(vm.frames, physical / PAGE).state), address / PAGE))
      else Stopped
    case _ => Stopped
  }

  /** The translation reads the table the directory names exactly when that table lies below 2 GiB. */
  lemma WalkFindsTable(f: nat)
    requires f < PDE_FRAMES
    ensures WalkTable(f) == Some(f) <==> f < LOW_FRAMES
  {
  }

  // ----- What every slot of every table refers to

  /** A place that refers to a frame: a root the kernel holds, or an entry of a table. */
  datatype Slot =
    | KernelDir
    | KernelTable(i: nat)
    | HeapPage(page: nat)
    | UserRoot(root: nat)
    | UserDir(root: nat)
    | UserTable(root: nat, i: nat)
    | UserPage(root: nat, i: nat, j: nat)

  /** What is known beside the machine state: where the kernel heap starts, the 1 GiB window it lies in, the user
      directories handed out, and the frames the boot loader reserved. */
  datatype Context = Context(heap: nat, window: nat, roots: set<nat>, boot: set<nat>)

  ghost function Target(vm: Vm, c: Context, s: Slot): Option<nat> {
    match s
    case KernelDir => Some(vm.kdir)
    case KernelTable(i) => Linked(vm.mem, vm.kdir, i)
    case HeapPage(page) => if c.heap <= page < vm.next then Lookup(vm, page) else None
    case UserRoot(root) => if root in c.roots then Some(root) else None
    case UserDir(root) => if root in c.roots then Linked(vm.mem, root, 0) else None
    case UserTable(root, i) => if root in c.roots then Follow(vm.mem, Linked(vm.mem, root, 0), i) else None
    case UserPage(root, i, j) =>
      if root in c.roots then Follow(vm.mem, Follow(vm.mem, Linked(vm.mem, root, 0), i), j) else None
  }

  /** The heap's pages handed out so far share one window, so their indices are distinct. */
  predicate OneWindow(vm: Vm, c: Context) {
    c.window % WINDOW == 0 && c.window <= c.heap <= vm.next <= c.window + WINDOW
  }

  /** Every referenced frame is allocated, and `owner` names the one slot that refers to it. */
  ghost predicate Owned(vm: Vm, c: Context, owner: map<nat, Slot>) {
    && (forall s: Slot :: Target(vm, c, s).Some? ==>
          Target(vm, c, s).value in owner && owner[Target(vm, c, s).value] == s)
    && (forall f :: f in owner ==> f < |vm.frames.marks| && vm.frames.marks[f])
  }

  /** Kernel pages the heap has not reached are not mapped. */
  ghost predicate Unreached(vm: Vm, c: Context) {
    forall page :: vm.next <= page < c.window + WINDOW ==> Lookup(vm, page) == None
  }

  /** Boot frames stay allocated and hold no page handed out since. */
  ghost predicate BootKept(vm: Vm, c: Context, owner: map<nat, Slot>) {
    && (forall f :: f in c.boot && f < |vm.frames.marks| ==> vm.frames.marks[f])
    && (forall f :: f in c.boot && f in owner ==> owner[f].KernelDir? || owner[f].KernelTable?)
  }

  /** Every user directory root names its page directory. */
  ghost predicate RootsLinked(vm: Vm, c: Context) {
    forall root :: root in c.roots ==> Target(vm, c, UserDir(root)).Some?
  }

  ghost predicate Inv(vm: Vm, c: Context, owner: map<nat, Slot>) {
    && Sane(vm)
    && OneWindow(vm, c)
    && Owned(vm, c, owner)
    && Unreached(vm, c)
    && BootKept(vm, c, owner)
    && RootsLinked(vm, c)
  }

  // ----- One write or one allocation

  ghost predicate Sound(vm: Vm, c: Context) {
    exists owner :: Inv(vm, c, owner)
  }

  /** `s` is reached through entry `k` of the table in slot `p`. */
  predicate Below(p: Slot, k: nat, s: Slot) {
    match p
    case KernelDir => s == KernelTable(k) || (s.HeapPage? && PdIndex(s.page) == k)
    case KernelTable(i) => s.HeapPage? && PdIndex(s.page) == i && PtIndex(s.page) == k
    case UserRoot(r) => k == 0 && (s == UserDir(r) || (s.UserTable? && s.root == r) || (s.UserPage? && s.root == r))
    case UserDir(r) => s == UserTable(r, k) || (s.UserPage? && s.root == r && s.i == k)
    case UserTable(r, i) => s == UserPage(r, i, k)
    case _ => false
  }

  function Written(vm: Vm, t: nat, k: nat, e: Entry): Vm {
    vm.(mem := WriteEntry(vm.mem, t, k, e))
  }

  /** Every frame read on the way to a slot is owned by the slot that refers to it. */
  lemma AncestorsOwned(vm: Vm, c: Context, owner: map<nat, Slot>, s: Slot)
    requires Owned(vm, c, owner)
    ensures vm.kdir in owner && owner[vm.kdir] == KernelDir
    ensures s.HeapPage? ==> OwnedBy(owner, Linked(vm.mem, vm.kdir, PdIndex(s.page)), KernelTable(PdIndex(s.page)))
    ensures (s.UserDir? || s.UserTable? || s.UserPage?) && s.root in c.roots ==>
              && OwnedBy(owner, Some(s.root), UserRoot(s.root))
              && OwnedBy(owner, Linked(vm.mem, s.root, 0), UserDir(s.root))
              && (s.UserPage? ==>
                  OwnedBy(owner, Follow(vm.mem, Linked(vm.mem, s.root, 0), s.i), UserTable(s.root, s.i)))
  {
    assert Target(vm, c, KernelDir) == Some(vm.kdir);
    if s.HeapPage? {
      assert Target(vm, c, KernelTable(PdIndex(s.page))) == Linked(vm.mem, vm.kdir, PdIndex(s.page));
    }
    if (s.UserDir? || s.UserTable? || s.UserPage?) && s.root in c.roots {
      assert Target(vm, c, UserRoot(s.root)) == Some(s.root);
      assert Target(vm, c, UserDir(s.root)) == Linked(vm.mem, s.root, 0);
      if s.UserPage? {
        assert Target(vm, c, UserTable(s.root, s.i)) == Follow(vm.mem, Linked(vm.mem, s.root, 0), s.i);
      }
    }
  }

  predicate OwnedBy(owner: map<nat, Slot>, f: Option<nat>, s: Slot) {
    f.Some? ==> f.value in owner && owner[f.value] == s
  }

  /** A write to entry `k` of an owned frame leaves alone every slot not reached through that entry. */
  lemma WriteKeepsTarget(vm: Vm, c: Context, owner: map<nat, Slot>, t: nat, k: nat, e: Entry, s: Slot)
    requires Owned(vm, c, owner) && t in owner && t < |vm.mem| && k < ENTRIES
    requires !Below(owner[t], k, s)
    ensures Target(Written(vm, t, k, e), c, s) == Target(vm, c, s)
  {
    hide PdIndex, PtIndex;
    AncestorsOwned(vm, c, owner, s);
    assert forall f, i :: !(f == t && i == k) ==> Linked(Written(vm, t, k, e).mem, f, i) == Linked(vm.mem, f, i);
  }

  /** The same for the mapping of a kernel page, whether the heap has reached it or not. */
  lemma WriteKeepsLookup(vm: Vm, c: Context, owner: map<nat, Slot>, t: nat, k: nat, e: Entry, page: nat)
    requires Owned(vm, c, owner) && t in owner && t < |vm.mem| && k < ENTRIES
    requires !Below(owner[t], k, HeapPage(page))
    ensures Lookup(Written(vm, t, k, e), page) == Lookup(vm, page)
  {
    AncestorsOwned(vm, c, owner, HeapPage(page));
  }

  /** Zeroing a frame no slot refers to changes no slot. */
  lemma ZeroKeepsTarget(vm: Vm, c: Context, owner: map<nat, Slot>, f: nat, s: Slot)
    requires Owned(vm, c, owner) && f !in owner && f < |vm.mem|
    ensures Target(vm.(mem := ZeroAt(vm.mem, f)), c, s) == Target(vm, c, s)
  {
    AncestorsOwned(vm, c, owner, s);
  }

  lemma ZeroKeepsLookup(vm: Vm, c: Context, owner: map<nat, Slot>, f: nat, page: nat)
    requires Owned(vm, c, owner) && f !in owner && f < |vm.mem|
    ensures Lookup(vm.(mem := ZeroAt(vm.mem, f)), page) == Lookup(vm, page)
  {
    AncestorsOwned(vm, c, owner, HeapPage(page));
  }

  /** A frame that is allocated but that no slot refers to yet. */
  ghost predicate Spare(vm: Vm, c: Context, owner: map<nat, Slot>, f: nat) {
    f < |vm.frames.marks| && vm.frames.marks[f] && f !in owner && f !in c.boot
  }

  /** An allocated page was free, is zeroed, and nothing else has changed. */
  lemma AllocatePageKeeps(vm: Vm, c: Context, owner: map<nat, Slot>)
    requires Inv(vm, c, owner)
    ensures var s := AllocatePage(vm);
            && Inv(s.vm, c, owner)
            && (forall slot :: Target(s.vm, c, slot) == Target(vm, c, slot))
            && (forall page :: Lookup(s.vm, page) == Lookup(vm, page))
            && (s.result.None? ==> s.vm == vm)
            && (s.result.Some? ==> Spare(s.vm, c, owner, s.result.value)
                                   && !vm.frames.marks[s.result.value]
                                   && s.vm.mem[s.result.value] == ZeroFrame()
                                   && s.vm == vm.(mem := s.vm.mem, frames := s.vm.frames)
                                   && s.vm.frames.marks == vm.frames.marks[s.result.value := true])
  {
    var s := AllocatePage(vm);
    if s.result.Some? {
      var f := s.result.value;
      assert f !in owner;
      forall slot ensures Target(s.vm, c, slot) == Target(vm, c, slot) {
        ZeroKeepsTarget(vm, c, owner, f, slot);
      }
      forall page ensures Lookup(s.vm, page) == Lookup(vm, page) {
        ZeroKeepsLookup(vm, c, owner, f, page);
      }
    }
  }

  /** Each frame in use afterwards has the use it had before, or was free. */
  ghost predicate Draws(vm: Vm, owner: map<nat, Slot>, owner': map<nat, Slot>) {
    DrawsBut(vm, owner, owner', {})
  }

  /** The same but for the frames of `given`, allocated a moment ago. */
  ghost predicate DrawsBut(vm: Vm, owner: map<nat, Slot>, owner': map<nat, Slot>, given: set<nat>) {
    forall f :: f in owner' && f !in given && Taken(vm, f) ==> f in owner && owner'[f] == owner[f]
  }

  lemma DrawsTransitive(vm: Vm, b: Vm, owner: map<nat, Slot>, o: map<nat, Slot>, owner': map<nat, Slot>)
    requires GrowsTo(vm, b) && Draws(vm, owner, o) && Draws(b, o, owner')
    ensures Draws(vm, owner, owner')
  {
  }

  /** A page allocated in `vm`, then used. */
  lemma DrawsNew(vm: Vm, b: Vm, owner: map<nat, Slot>, owner': map<nat, Slot>, f: nat)
    requires GrowsTo(vm, b) && !Taken(vm, f) && DrawsBut(b, owner, owner', {f})
    ensures Draws(vm, owner, owner')
  {
  }

  // ----- Kernel tables

  /** Linking a fresh zeroed table into the kernel directory maps nothing. */
  lemma LinkKernelTable(vm: Vm, c: Context, owner: map<nat, Slot>, i: nat, f: nat, e: Entry)
    requires Inv(vm, c, owner) && i < ENTRIES && Linked(vm.mem, vm.kdir, i) == None
    requires Spare(vm, c, owner, f) && vm.mem[f] == ZeroFrame()
    requires e.present && e.frame == f
    ensures var after := Written(vm, vm.kdir, i, e);
            && Inv(after, c, owner[f := KernelTable(i)])
            && Linked(after.mem, vm.kdir, i) == Some(f)
            && (forall page :: Lookup(after, page) == Lookup(vm, page))
  {
    var after := Written(vm, vm.kdir, i, e);
    AncestorsOwned(vm, c, owner, KernelDir);
    assert f != vm.kdir;
    forall page ensures Lookup(after, page) == Lookup(vm, page) {
      if PdIndex(page) != i {
        WriteKeepsLookup(vm, c, owner, vm.kdir, i, e, page);
      } else {
        assert EntryAt(after.mem, f, PtIndex(page)) == ZeroEntry();
      }
    }
    forall s | s != KernelTable(i) ensures Target(after, c, s) == Target(vm, c, s) {
      if !s.HeapPage? {
        WriteKeepsTarget(vm, c, owner, vm.kdir, i, e, s);
      }
    }
  }

  /** The table walker keeps the invariant and every mapping, whether or not it had to make a table. */
  lemma KernelTableForKeeps(vm: Vm, c: Context, owner: map<nat, Slot>, page: nat) returns (owner': map<nat, Slot>)
    requires Inv(vm, c, owner)
    ensures var s := KernelTableFor(vm, page);
            && Inv(s.vm, c, owner')
            && (forall p :: Lookup(s.vm, p) == Lookup(vm, p))
            && (s.result.Some? ==> s.result.value in owner' && owner'[s.result.value] == KernelTable(PdIndex(page)))
            && (s.result.Some? ==> Linked(s.vm.mem, s.vm.kdir, PdIndex(page)) == s.result)
            && (s.result.None? ==> s.vm == vm)
            && s.vm == vm.(mem := s.vm.mem, frames := s.vm.frames)
            && (Linked(vm.mem, vm.kdir, PdIndex(page)).Some? ==> s.vm == vm)
    ensures forall f :: Spare(vm, c, owner, f) ==> Spare(KernelTableFor(vm, page).vm, c, owner', f)
    ensures Draws(vm, owner, owner')
  {
    var i := PdIndex(page);
    owner' := owner;
    AncestorsOwned(vm, c, owner, HeapPage(page));
    if Linked(vm.mem, vm.kdir, i) == None {
      AllocatePageKeeps(vm, c, owner);
      var s := AllocatePage(vm);
      if s.result.Some? {
        var f := s.result.value;
        assert Target(s.vm, c, KernelTable(i)) == Target(vm, c, KernelTable(i));
        LinkKernelTable(s.vm, c, owner, i, f, LinkEntry(EntryAt(s.vm.mem, vm.kdir, i), f));
        owner' := owner[f := KernelTable(i)];
      }
    }
  }

  lemma WindowRemainder(p: nat, a: nat, r: nat)
    requires p == a * WINDOW + r && r < WINDOW
    ensures p % WINDOW == r
  {
  }

  lemma SplitPage(p: nat, q: nat, i: nat, j: nat)
    requires j == p % ENTRIES && q == p / ENTRIES && i == q % ENTRIES
    ensures p == q / ENTRIES * WINDOW + (i * ENTRIES + j) && i * ENTRIES + j < WINDOW
  {
  }

  /** The low nine bits of a page number pick the entry of its table, the nine above the table. */
  lemma IndexWithinWindow(p: nat)
    ensures p % 0x4_0000 == PdIndex(p) * 512 + PtIndex(p)
  {
    var q := p / ENTRIES;
    SplitPage(p, q, q % ENTRIES, p % ENTRIES);
    WindowRemainder(p, q / ENTRIES, q % ENTRIES * ENTRIES + p % ENTRIES);
  }

  /** Two pages share an entry exactly when they are a whole number of windows apart. */
  lemma SameEntry(p: nat, q: nat)
    ensures PdIndex(p) == PdIndex(q) && PtIndex(p) == PtIndex(q) <==> p % WINDOW == q % WINDOW
  {
    IndexWithinWindow(p);
    IndexWithinWindow(q);
    hide PdIndex, PtIndex;
  }

  lemma SameWindow(base: nat, p: nat, q: nat)
    requires base % WINDOW == 0 && base <= p < base + WINDOW && base <= q < base + WINDOW
    ensures p % WINDOW == q % WINDOW <==> p == q
  {
  }

  // ----- Mapping and unmapping one kernel page

  /** The kernel's directory and tables are distinct allocated frames. */
  ghost predicate TablesApart(vm: Vm) {
    && Sane(vm)
    && Taken(vm, vm.kdir)
    && (forall i :: Linked(vm.mem, vm.kdir, i).Some? ==>
          Taken(vm, Linked(vm.mem, vm.kdir, i).value) && Linked(vm.mem, vm.kdir, i).value != vm.kdir)
    && (forall i, k :: i != k && Linked(vm.mem, vm.kdir, i).Some? ==>
          Linked(vm.mem, vm.kdir, i) != Linked(vm.mem, vm.kdir, k))
  }

  predicate Taken(vm: Vm, f: nat) {
    f < |vm.frames.marks| && vm.frames.marks[f]
  }

  lemma OwnedTablesApart(vm: Vm, c: Context, owner: map<nat, Slot>)
    requires Inv(vm, c, owner)
    ensures TablesApart(vm)
  {
    AncestorsOwned(vm, c, owner, KernelDir);
    forall i | Linked(vm.mem, vm.kdir, i).Some?
      ensures Linked(vm.mem, vm.kdir, i).value in owner && owner[Linked(vm.mem, vm.kdir, i).value] == KernelTable(i)
    {
      assert Target(vm, c, KernelTable(i)) == Linked(vm.mem, vm.kdir, i);
    }
  }

  lemma KernelTableForApart(vm: Vm, page: nat)
    requires TablesApart(vm)
    ensures var s := KernelTableFor(vm, page);
            && TablesApart(s.vm)
            && (forall q :: EntryOf(s.vm, q) == EntryOf(vm, q))
            && (s.result.Some? ==> Linked(s.vm.mem, s.vm.kdir, PdIndex(page)) == s.result)
            && (s.result.None? ==> s.vm == vm)
            && s.vm.kdir == vm.kdir
            && (Linked(vm.mem, vm.kdir, PdIndex(page)).Some? ==> s.vm == vm)
            && (forall k :: k != PdIndex(page) ==> Linked(s.vm.mem, vm.kdir, k) == Linked(vm.mem, vm.kdir, k))
  {
    var i := PdIndex(page);
    if Linked(vm.mem, vm.kdir, i) == None {
      var s := AllocatePage(vm);
      if s.result.Some? {
        var f := s.result.value;
        var after := KernelTableFor(vm, page).vm;
        assert forall k :: Linked(after.mem, vm.kdir, k) == if k == i then Some(f) else Linked(vm.mem, vm.kdir, k);
        forall q ensures EntryOf(after, q) == EntryOf(vm, q) {
          if PdIndex(q) == i {
            assert EntryAt(after.mem, f, PtIndex(q)) == ZeroEntry();
          }
        }
      }
    }
  }

  /** The mapping an entry gives. */
  function Mapping(e: Entry): Option<nat> {
    if e.present then Some(e.frame) else None
  }

  /** The entry the hardware comes to for a kernel page; zero where there is no table. */
  function EntryOf(vm: Vm, page: nat): Entry {
    match Linked(vm.mem, vm.kdir, PdIndex(page))
    case None => ZeroEntry()
    case Some(t) => EntryAt(vm.mem, t, PtIndex(page))
  }

  lemma LookupIsMapping(vm: Vm, page: nat)
    ensures Lookup(vm, page) == Mapping(EntryOf(vm, page))
  {
  }

  /** A successful update rewrites the entry shared by the pages a whole number of windows from `page`, and no other
      page's entry, even when the walker had to make a table; a failed one changes nothing. */
  lemma UpdateKernelEntry(vm: Vm, page: nat, change: Entry -> Entry)
    requires TablesApart(vm)
    ensures var s := UpdateKernel(vm, page, change);
            && TablesApart(s.vm)
            && (s.result.None? ==> s.vm == vm)
            && (s.result.Some? ==> forall q: nat ::
                  EntryOf(s.vm, q) ==
                    if q % WINDOW == page % WINDOW then change(EntryOf(vm, q)) else EntryOf(vm, q))
  {
    KernelTableForApart(vm, page);
    var w := KernelTableFor(vm, page);
    if w.result.Some? {
      var t, j := w.result.value, PtIndex(page);
      var after := UpdateKernel(vm, page, change).vm;
      assert forall k :: Linked(after.mem, vm.kdir, k) == Linked(w.vm.mem, vm.kdir, k);
      forall q: nat
        ensures EntryOf(after, q) == if q % WINDOW == page % WINDOW then change(EntryOf(vm, q)) else EntryOf(vm, q)
      {
        SameEntry(q, page);
        assert EntryOf(w.vm, q) == EntryOf(vm, q);
      }
    }
  }

  lemma UpdateKernelLookup(vm: Vm, page: nat, change: Entry -> Entry)
    requires TablesApart(vm)
    ensures var s := UpdateKernel(vm, page, change);
            && TablesApart(s.vm)
            && (s.result.None? ==> s.vm == vm)
            && (s.result.Some? ==> forall q: nat ::
                  Lookup(s.vm, q) ==
                    if q % WINDOW == page % WINDOW then Mapping(change(EntryOf(vm, q))) else Lookup(vm, q))
  {
    hide UpdateKernel, TablesApart, EntryOf, Lookup;
    UpdateKernelEntry(vm, page, change);
    var s := UpdateKernel(vm, page, change);
    forall q: nat ensures Lookup(s.vm, q) == Mapping(EntryOf(s.vm, q)) && Lookup(vm, q) == Mapping(EntryOf(vm, q)) {
      LookupIsMapping(s.vm, q);
      LookupIsMapping(vm, q);
    }
  }

  /** Mapping `page` gives its frame to exactly the pages that share its entry. */
  lemma MapKernelLookup(vm: Vm, frame: nat, page: nat)
    requires TablesApart(vm) && frame < PTE_FRAMES
    ensures var s := MapKernel(vm, frame, page);
            && TablesApart(s.vm)
            && (s.result.None? ==> s.vm == vm)
            && (s.result.Some? ==> forall q: nat ::
                  Lookup(s.vm, q) == if q % WINDOW == page % WINDOW then Some(frame) else Lookup(vm, q))
  {
    UpdateKernelLookup(vm, page, (e: Entry) => e.(present := true, writeable := true, frame := frame % PTE_FRAMES));
  }

  lemma UnmapKernelLookup(vm: Vm, page: nat)
    requires TablesApart(vm)
    ensures var s := UnmapKernel(vm, page);
            && TablesApart(s.vm)
            && (s.result.None? ==> s.vm == vm)
            && (s.result.Some? ==> forall q: nat ::
                  Lookup(s.vm, q) == if q % WINDOW == page % WINDOW then None else Lookup(vm, q))
  {
    UpdateKernelLookup(vm, page, (e: Entry) => e.(present := false, writeable := false, frame := 0));
  }

  /** Unmapping undoes a mapping of an unmapped page: every page is again mapped as it was before both calls. */
  lemma UnmapUndoesMap(vm: Vm, frame: nat, page: nat)
    requires TablesApart(vm) && frame < PTE_FRAMES && Lookup(vm, page) == None
    requires MapKernel(vm, frame, page).result.Some?
    ensures UnmapKernel(MapKernel(vm, frame, page).vm, page).result.Some?
    ensures forall q :: Lookup(UnmapKernel(MapKernel(vm, frame, page).vm, page).vm, q) == Lookup(vm, q)
  {
    MapKernelLookup(vm, frame, page);
    var mapped := MapKernel(vm, frame, page).vm;
    assert Lookup(mapped, page) == Some(frame);
    UnmapKernelLookup(mapped, page);
    forall q: nat | q % WINDOW == page % WINDOW ensures Lookup(vm, q) == None {
      SameEntry(q, page);
    }
  }

  // ----- Translation

  /** The page's table exists and lies below 2 GiB. */
  predicate LowTable(vm: Vm, page: nat) {
    var t := Linked(vm.mem, vm.kdir, PdIndex(page));
    t.Some? && t.value < LOW_FRAMES
  }

  /** Entry 0 of the page's table, which the translation insists on. */
  function FirstEntry(vm: Vm, page: nat): Option<nat> {
    Follow(vm.mem, Linked(vm.mem, vm.kdir, PdIndex(page)), 0)
  }

  /** Through a low table the translation gives what the hardware finds, but stops when entry 0 is absent. */
  lemma TranslateLow(vm: Vm, page: nat, offset: nat)
    requires LowTable(vm, page) && offset < PAGE
    ensures Translate(vm, page * PAGE + offset) ==
            if FirstEntry(vm, page).Some? && Lookup(vm, page).Some? then
              Returned(Lookup(vm, page).value * PAGE + offset)
            else Panicked
  {
    var a := page * PAGE + offset;
    assert a / PAGE == page && a % PAGE == offset;
    WalkFindsTable(Linked(vm.mem, vm.kdir, PdIndex(page)).value % PDE_FRAMES);
  }

  /** After a page is mapped, translating any byte of it gives the same byte of the frame, or stops: it returns
      exactly when entry 0 of the page's table is present. */
  lemma MapThenTranslate(vm: Vm, frame: nat, page: nat, offset: nat)
    requires TablesApart(vm) && frame < PTE_FRAMES && offset < PAGE
    requires MapKernel(vm, frame, page).result.Some? && LowTable(MapKernel(vm, frame, page).vm, page)
    ensures var after := MapKernel(vm, frame, page).vm;
            Translate(after, page * PAGE + offset) ==
            if FirstEntry(after, page).Some? then Returned(frame * PAGE + offset) else Panicked
  {
    MapKernelLookup(vm, frame, page);
    TranslateLow(MapKernel(vm, frame, page).vm, page, offset);
  }

  /** The first page that shares a table with `page`. */
  function FirstPage(page: nat): (q: nat)
    ensures PdIndex(q) == PdIndex(page) && PtIndex(q) == 0
  {
    page - PtIndex(page)
  }

  lemma FirstEntryIsLookup(vm: Vm, page: nat)
    ensures FirstEntry(vm, page) == Lookup(vm, FirstPage(page))
  {
  }

  /** Unmapping one page leaves the translation of another alone exactly unless it clears entry 0 of that other
      page's table while the other page still translates. */
  lemma UnmapTranslatesOthers(vm: Vm, page: nat, q: nat, offset: nat)
    requires TablesApart(vm) && UnmapKernel(vm, page).result.Some?
    requires q % WINDOW != page % WINDOW && LowTable(vm, q) && offset < PAGE
    ensures var a := q * PAGE + offset;
            Translate(UnmapKernel(vm, page).vm, a) == Translate(vm, a)
            <==> !(FirstPage(q) % WINDOW == page % WINDOW && Translate(vm, a).Returned?)
  {
    var after := UnmapKernel(vm, page).vm;
    UnmapKernelLookup(vm, page);
    UnmapKeepsTables(vm, page, q);
    TranslateLow(vm, q, offset);
    TranslateLow(after, q, offset);
    FirstEntryIsLookup(vm, q);
    FirstEntryIsLookup(after, q);
  }

  /** Mapping one page leaves the translation of another alone exactly unless it makes entry 0 of that other page's
      table present while the other page was mapped but did not translate. */
  lemma MapTranslatesOthers(vm: Vm, frame: nat, page: nat, q: nat, offset: nat)
    requires TablesApart(vm) && frame < PTE_FRAMES && MapKernel(vm, frame, page).result.Some?
    requires q % WINDOW != page % WINDOW && LowTable(vm, q) && offset < PAGE
    ensures var a := q * PAGE + offset;
            Translate(MapKernel(vm, frame, page).vm, a) == Translate(vm, a)
            <==> !(FirstPage(q) % WINDOW == page % WINDOW && Lookup(vm, q).Some? && Translate(vm, a) == Panicked)
  {
    var after := MapKernel(vm, frame, page).vm;
    MapKernelLookup(vm, frame, page);
    KernelTableForApart(vm, page);
    assert Linked(after.mem, after.kdir, PdIndex(q)) == Linked(vm.mem, vm.kdir, PdIndex(q));
    TranslateLow(vm, q, offset);
    TranslateLow(after, q, offset);
    FirstEntryIsLookup(vm, q);
    FirstEntryIsLookup(after, q);
  }

  lemma UnmapKeepsTables(vm: Vm, page: nat, q: nat)
    requires TablesApart(vm) && UnmapKernel(vm, page).result.Some?
    requires Linked(vm.mem, vm.kdir, PdIndex(q)).Some?
    ensures Linked(UnmapKernel(vm, page).vm.mem, vm.kdir, PdIndex(q)) == Linked(vm.mem, vm.kdir, PdIndex(q))
    ensures UnmapKernel(vm, page).vm.kdir == vm.kdir
  {
    KernelTableForApart(vm, page);
  }

  /** Unmapping the first page of a table stops the translation of its other pages, though the hardware still maps
      them. */
  lemma UnmapFirstPageStops(vm: Vm, q: nat)
    requires TablesApart(vm) && LowTable(vm, q) && PtIndex(q) != 0
    requires Lookup(vm, q).Some? && FirstEntry(vm, q).Some?
    ensures var s := UnmapKernel(vm, FirstPage(q));
            && s.result.Some?
            && Translate(vm, q * PAGE).Returned?
            && Translate(s.vm, q * PAGE) == Panicked
            && Lookup(s.vm, q) == Lookup(vm, q)
  {
    SameEntry(q, FirstPage(q));
    UnmapKernelLookup(vm, FirstPage(q));
    UnmapKeepsTables(vm, FirstPage(q), q);
    FirstEntryIsLookup(UnmapKernel(vm, FirstPage(q)).vm, q);
    TranslateLow(vm, q, 0);
    TranslateLow(UnmapKernel(vm, FirstPage(q)).vm, q, 0);
  }

  // ----- Runs: the kernel heap

  /** Pages of the kernel window: their indices differ whenever they do. */
  predicate InWindow(c: Context, page: nat) {
    c.window <= page < c.window + WINDOW
  }

  lemma DistinctEntries(c: Context, p: nat, q: nat)
    requires c.window % WINDOW == 0 && InWindow(c, p) && InWindow(c, q) && p != q
    ensures !(PdIndex(p) == PdIndex(q) && PtIndex(p) == PtIndex(q))
  {
    SameEntry(p, q);
    SameWindow(c.window, p, q);
  }

  /** Writing a heap page's entry moves just that page's slot. */
  lemma WriteHeapEntry(vm: Vm, c: Context, owner: map<nat, Slot>, t: nat, page: nat, e: Entry)
    requires Inv(vm, c, owner) && c.heap <= page < vm.next
    requires Linked(vm.mem, vm.kdir, PdIndex(page)) == Some(t)
    ensures t < |vm.mem| && t in owner
    ensures var after := Written(vm, t, PtIndex(page), e);
            && Lookup(after, page) == Mapping(e)
            && (forall s :: s != HeapPage(page) ==> Target(after, c, s) == Target(vm, c, s))
            && (forall q :: InWindow(c, q) && q != page ==> Lookup(after, q) == Lookup(vm, q))
  {
    var after := Written(vm, t, PtIndex(page), e);
    AncestorsOwned(vm, c, owner, HeapPage(page));
    assert Linked(after.mem, vm.kdir, PdIndex(page)) == Some(t);
    forall q | InWindow(c, q) && q != page ensures Lookup(after, q) == Lookup(vm, q) {
      DistinctEntries(c, page, q);
      WriteKeepsLookup(vm, c, owner, t, PtIndex(page), e, q);
    }
    forall s | s != HeapPage(page) ensures Target(after, c, s) == Target(vm, c, s) {
      if s.HeapPage? {
        assert Target(after, c, s) == Target(vm, c, s);
      } else {
        WriteKeepsTarget(vm, c, owner, t, PtIndex(page), e, s);
      }
    }
  }

  /** The entry of an unmapped heap page takes a spare frame. */
  lemma GiveHeapPage(vm: Vm, c: Context, owner: map<nat, Slot>, t: nat, page: nat, e: Entry)
    requires Inv(vm, c, owner) && c.heap <= page < vm.next && Lookup(vm, page) == None
    requires Linked(vm.mem, vm.kdir, PdIndex(page)) == Some(t)
    requires e.present && Spare(vm, c, owner, e.frame)
    ensures Inv(Written(vm, t, PtIndex(page), e), c, owner[e.frame := HeapPage(page)])
  {
    WriteHeapEntry(vm, c, owner, t, page, e);
    hide PdIndex, PtIndex, Linked, Lookup;
    var after := Written(vm, t, PtIndex(page), e);
    var owner' := owner[e.frame := HeapPage(page)];
    assert Target(vm, c, HeapPage(page)) == None;
    assert Target(after, c, HeapPage(page)) == Some(e.frame);
    assert Owned(after, c, owner');
    assert BootKept(after, c, owner');
    forall q | vm.next <= q < c.window + WINDOW ensures Lookup(after, q) == None {
      assert InWindow(c, q);
    }
    assert RootsLinked(after, c) by {
      forall root | root in c.roots ensures Target(after, c, UserDir(root)).Some? {
        assert Target(after, c, UserDir(root)) == Target(vm, c, UserDir(root));
      }
    }
  }

  /** Mapping a spare frame at a reached but unmapped heap page gives that page, and nothing else, the frame. */
  lemma MapHeapKeeps(vm: Vm, c: Context, owner: map<nat, Slot>, f: nat, page: nat) returns (owner': map<nat, Slot>)
    requires Inv(vm, c, owner) && Spare(vm, c, owner, f)
    requires c.heap <= page < vm.next && Lookup(vm, page) == None
    ensures var m := MapKernel(vm, f, page);
            && Inv(m.vm, c, owner')
            && m.vm == vm.(mem := m.vm.mem, frames := m.vm.frames)
            && (m.result.Some? ==> Lookup(m.vm, page) == Some(f))
            && (m.result.None? ==> m.vm == vm)
            && (forall q :: InWindow(c, q) && q != page ==> Lookup(m.vm, q) == Lookup(vm, q))
            && GrowsTo(vm, m.vm)
    ensures DrawsBut(vm, owner, owner', {f})
  {
    owner' := KernelTableForKeeps(vm, c, owner, page);
    var w := KernelTableFor(vm, page);
    KernelTableForGrows(vm, page);
    assert Lookup(w.vm, page) == None;
    assert Spare(w.vm, c, owner', f);
    assert f % PTE_FRAMES == f;
    hide Inv, KernelTableFor, GrowsTo, Lookup, Spare, PdIndex, PtIndex;
    if w.result.Some? {
      var t := w.result.value;
      var e := EntryAt(w.vm.mem, t, PtIndex(page)).(present := true, writeable := true, frame := f % PTE_FRAMES);
      WriteHeapEntry(w.vm, c, owner', t, page, e);
      GiveHeapPage(w.vm, c, owner', t, page, e);
      owner' := owner'[f := HeapPage(page)];
      assert MapKernel(vm, f, page).vm == Written(w.vm, t, PtIndex(page), e);
      WriteGrows(vm, w.vm, t, PtIndex(page), e);
    }
  }

  lemma WriteGrows(vm: Vm, after: Vm, t: nat, k: nat, e: Entry)
    requires GrowsTo(vm, after)
    ensures GrowsTo(vm, Written(after, t, k, e))
  {
  }

  /** Frames are only taken, never given back. */
  ghost predicate GrowsTo(vm: Vm, after: Vm) {
    && |after.frames.marks| == |vm.frames.marks|
    && after.frames.total == vm.frames.total
    && |after.mem| == |vm.mem|
    && forall f :: Taken(vm, f) ==> Taken(after, f)
  }

  lemma AllocatePageGrows(vm: Vm)
    ensures GrowsTo(vm, AllocatePage(vm).vm)
  {
  }

  lemma KernelTableForGrows(vm: Vm, page: nat)
    ensures GrowsTo(vm, KernelTableFor(vm, page).vm)
  {
    AllocatePageGrows(vm);
  }

  /** Taking pages inside the window only moves the heap's end. */
  lemma TakePagesKeeps(vm: Vm, c: Context, owner: map<nat, Slot>, n: nat)
    requires Inv(vm, c, owner) && TakePages(vm, n).vm.next <= c.window + WINDOW
    ensures var t := TakePages(vm, n);
            && Inv(t.vm, c, owner)
            && (forall page :: Lookup(t.vm, page) == Lookup(vm, page))
            && (forall page: nat :: vm.next <= page < t.vm.next ==> Lookup(t.vm, page) == None)
  {
    var t := TakePages(vm, n);
    assert forall page :: Lookup(t.vm, page) == Lookup(vm, page);
    forall s ensures Target(t.vm, c, s) == Target(vm, c, s) {
    }
  }

  /** Asked for n pages, or for none, which counts as one, the heap hands out the next n if it has them; and if it has
      fewer it uses them all up and fails. */
  lemma TakePagesIs(vm: Vm, n: nat)
    ensures var s, wanted := TakePages(vm, n), if n == 0 then 1 else n;
            && s.vm == vm.(next := s.vm.next, left := s.vm.left)
            && s.vm.next + s.vm.left == vm.next + vm.left
            && (vm.left >= wanted ==> s.result == Some(vm.next) && s.vm.next == vm.next + wanted)
            && (vm.left < wanted ==> s.result == None && s.vm.left == 0)
  {
  }

  /** What one heap page costs, had or not, in frames and pages: nothing without a frame; a frame without a page; both
      without a frame for a table that is missing; and else the page is had, for one frame, or two with its table. */
  lemma HeapPageCosts(vm: Vm)
    requires TablesApart(vm)
    ensures var s, free := AllocateHeapPage(vm), Available(vm.frames);
            var missing := Linked(vm.mem, vm.kdir, PdIndex(vm.next)) == None;
            if free == 0 then s.result == None && s.vm == vm
            else if vm.left == 0 then s.result == None && Costs(vm, s.vm, 1, 0)
            else if missing && free == 1 then s.result == None && Costs(vm, s.vm, 1, 1)
            else s.result == Some(vm.next) && Costs(vm, s.vm, if missing then 2 else 1, 1)
  {
    AllocateCounts(vm);
    var a := AllocatePage(vm);
    if a.result.Some? && vm.left > 0 {
      var t := TakePages(a.vm, 1).vm;
      assert Linked(t.mem, t.kdir, PdIndex(vm.next)) == Linked(vm.mem, vm.kdir, PdIndex(vm.next));
      MapCosts(t, a.result.value, vm.next);
    }
  }

  /** That many frames fewer to hand out, and that many pages. */
  predicate Costs(vm: Vm, after: Vm, frames: nat, pages: nat) {
    && Available(after.frames) == Available(vm.frames) - frames
    && after.next == vm.next + pages && after.left == vm.left - pages
  }

  lemma MapCosts(vm: Vm, f: nat, page: nat)
    requires Sane(vm)
    ensures var m, missing := MapKernel(vm, f, page), Linked(vm.mem, vm.kdir, PdIndex(page)) == None;
            && m.vm.next == vm.next && m.vm.left == vm.left
            && (missing && Available(vm.frames) == 0 ==> m.result == None && m.vm.frames == vm.frames)
            && (!(missing && Available(vm.frames) == 0) ==>
                  m.result.Some? && Available(m.vm.frames) == Available(vm.frames) - (if missing then 1 else 0))
  {
    hide PdIndex, PtIndex, WriteEntry, Available;
    AllocateCounts(vm);
  }

  /** The pages lo..hi are not mapped. */
  predicate Unmapped(vm: Vm, lo: nat, hi: nat) {
    forall q: nat :: lo <= q < hi ==> Lookup(vm, q) == None
  }

  /** The pages lo..hi are mapped to frames that were free in `before`. */
  predicate FreshlyBacked(before: Vm, vm: Vm, lo: nat, hi: nat) {
    forall q: nat :: lo <= q < hi ==> Lookup(vm, q).Some? && !Taken(before, Lookup(vm, q).value)
  }

  /** Pages of the window outside lo..hi are mapped alike. */
  ghost predicate AlikeOutside(c: Context, vm: Vm, after: Vm, lo: nat, hi: nat) {
    forall q: nat :: InWindow(c, q) && !(lo <= q < hi) ==> Lookup(after, q) == Lookup(vm, q)
  }

  /** One turn of the loop. */
  lemma BackOnePage(vm: Vm, c: Context, owner: map<nat, Slot>, page: nat) returns (owner': map<nat, Slot>)
    requires Inv(vm, c, owner) && c.heap <= page < vm.next && Lookup(vm, page) == None
    ensures InWindow(c, page)
    ensures var a := AllocatePage(vm);
            if a.result.None? then a.vm == vm && owner' == owner
            else
              var m := MapKernel(a.vm, a.result.value, page);
              && Inv(m.vm, c, owner')
              && GrowsTo(vm, m.vm) && Draws(vm, owner, owner')
              && m.vm.next == vm.next
              && AlikeOutside(c, vm, m.vm, page, page + 1)
              && (m.result.Some? ==> Lookup(m.vm, page).Some? && !Taken(vm, Lookup(m.vm, page).value))
  {
    AllocatePageKeeps(vm, c, owner);
    AllocatePageGrows(vm);
    owner' := owner;
    var a := AllocatePage(vm);
    if a.result.Some? {
      assert !Taken(vm, a.result.value);
      owner' := MapHeapKeeps(a.vm, c, owner, a.result.value, page);
      DrawsNew(vm, a.vm, owner, owner', a.result.value);
    }
  }

  lemma GrowsTransitive(a: Vm, b: Vm, d: Vm)
    requires GrowsTo(a, b) && GrowsTo(b, d)
    ensures GrowsTo(a, d)
  {
  }

  /** The loop that backs pages first..first+n: on success each has a frame that was free; no other page changes. */
  lemma {:induction false} BackPagesKeeps(vm: Vm, c: Context, owner: map<nat, Slot>, first: nat, i: nat, n: nat)
      returns (owner': map<nat, Slot>)
    requires Inv(vm, c, owner) && i <= n && c.heap <= first && first + n <= vm.next
    requires Unmapped(vm, first + i, first + n)
    ensures var s := BackPages(vm, first, i, n);
            && Inv(s.vm, c, owner')
            && GrowsTo(vm, s.vm) && Draws(vm, owner, owner')
            && s.vm.next == vm.next
            && AlikeOutside(c, vm, s.vm, first + i, first + n)
            && (s.result.Some? ==> s.result.value == first && FreshlyBacked(vm, s.vm, first + i, first + n))
    decreases n - i
  {
    hide Inv, AllocatePage, MapKernel, Lookup;
    owner' := owner;
    if i < n {
      var page := first + i;
      owner' := BackOnePage(vm, c, owner, page);
      var a := AllocatePage(vm);
      if a.result.Some? {
        var m := MapKernel(a.vm, a.result.value, page);
        if m.result.Some? {
          StillUnmapped(vm, c, owner, m.vm, page, first + n);
          var o := owner';
          owner' := BackPagesKeeps(m.vm, c, o, first, i + 1, n);
          var s := BackPages(m.vm, first, i + 1, n);
          BackOneMore(c, vm, m.vm, s, page, first + n);
          GrowsTransitive(vm, m.vm, s.vm);
          DrawsTransitive(vm, m.vm, owner, o, owner');
        }
      }
    }
  }

  lemma StillUnmapped(vm: Vm, c: Context, owner: map<nat, Slot>, after: Vm, page: nat, hi: nat)
    requires Inv(vm, c, owner) && c.heap <= page && hi <= vm.next
    requires Unmapped(vm, page, hi) && AlikeOutside(c, vm, after, page, page + 1)
    ensures Unmapped(after, page + 1, hi)
  {
  }

  lemma BackOneMore(c: Context, vm: Vm, mapped: Vm, s: Step<nat>, page: nat, hi: nat)
    requires InWindow(c, page) && page < hi
    requires GrowsTo(vm, mapped) && Lookup(mapped, page).Some? && !Taken(vm, Lookup(mapped, page).value)
    requires AlikeOutside(c, vm, mapped, page, page + 1) && AlikeOutside(c, mapped, s.vm, page + 1, hi)
    ensures AlikeOutside(c, vm, s.vm, page, hi)
    ensures FreshlyBacked(mapped, s.vm, page + 1, hi) ==> FreshlyBacked(vm, s.vm, page, hi)
  {
    assert Lookup(s.vm, page) == Lookup(mapped, page);
  }

  /** Distinct mapped heap pages have distinct frames. */
  predicate DistinctFrames(vm: Vm, lo: nat, hi: nat) {
    forall p: nat, q: nat :: lo <= p < q < hi ==> Lookup(vm, p) != Lookup(vm, q)
  }

  lemma HeapPagesDistinct(vm: Vm, c: Context, owner: map<nat, Slot>, lo: nat, hi: nat)
    requires Inv(vm, c, owner) && c.heap <= lo && hi <= vm.next
    requires forall q: nat :: lo <= q < hi ==> Lookup(vm, q).Some?
    ensures DistinctFrames(vm, lo, hi)
  {
    forall p: nat, q: nat | lo <= p < q < hi ensures Lookup(vm, p) != Lookup(vm, q) {
      assert Target(vm, c, HeapPage(p)) == Lookup(vm, p);
      assert Target(vm, c, HeapPage(q)) == Lookup(vm, q);
    }
  }

  /** One heap page: success maps the next virtual page to a frame that was free; every other page stays as it was. */
  lemma AllocateHeapPageKeeps(vm: Vm, c: Context, owner: map<nat, Slot>) returns (owner': map<nat, Slot>)
    requires Inv(vm, c, owner) && AllocateHeapPage(vm).vm.next <= c.window + WINDOW
    ensures var s := AllocateHeapPage(vm);
            && Inv(s.vm, c, owner')
            && GrowsTo(vm, s.vm) && Draws(vm, owner, owner')
            && AlikeOutside(c, vm, s.vm, vm.next, vm.next + 1)
            && (s.result.Some? ==> s.result.value == vm.next && s.vm.next == vm.next + 1
                                   && FreshlyBacked(vm, s.vm, vm.next, vm.next + 1))
  {
    AllocatePageKeeps(vm, c, owner);
    AllocatePageGrows(vm);
    owner' := owner;
    var a := AllocatePage(vm);
    if a.result.Some? && a.vm.left > 0 {
      TakePagesKeeps(a.vm, c, owner, 1);
      var t := TakePages(a.vm, 1).vm;
      assert Lookup(t, vm.next) == None;
      owner' := MapHeapKeeps(t, c, owner, a.result.value, vm.next);
      DrawsNew(vm, t, owner, owner', a.result.value);
    }
  }

  /** allocate_kernel_heap_pages(n) for n >= 1: success hands out n consecutive pages never handed out before, mapped
      to n pairwise distinct frames that were free; failure leaves every earlier mapping as it was. Asked for none it
      still uses up a page, and maps nothing. */
  lemma AllocateHeapPagesKeeps(vm: Vm, c: Context, owner: map<nat, Slot>, n: nat) returns (owner': map<nat, Slot>)
    requires Inv(vm, c, owner) && AllocateHeapPages(vm, n).vm.next <= c.window + WINDOW
    ensures var s := AllocateHeapPages(vm, n);
            && Inv(s.vm, c, owner')
            && GrowsTo(vm, s.vm) && Draws(vm, owner, owner')
            && AlikeOutside(c, vm, s.vm, vm.next, vm.next + n)
            && (s.result.Some? ==>
                  && s.result.value == vm.next
                  && s.vm.next == vm.next + (if n == 0 then 1 else n)
                  && FreshlyBacked(vm, s.vm, vm.next, vm.next + n)
                  && DistinctFrames(s.vm, vm.next, vm.next + n))
  {
    var t := TakePages(vm, n);
    if t.result.Some? {
      BackPagesKeepsNext(t.vm, vm.next, 0, n);
    }
    TakePagesKeeps(vm, c, owner, n);
    owner' := owner;
    if t.result.Some? {
      assert Unmapped(t.vm, vm.next, vm.next + n);
      owner' := BackPagesKeeps(t.vm, c, owner, vm.next, 0, n);
      var s := BackPages(t.vm, vm.next, 0, n);
      if s.result.Some? {
        HeapPagesDistinct(s.vm, c, owner', vm.next, vm.next + n);
      }
    }
  }

  lemma StepKeepsNext(vm: Vm, frame: nat, page: nat)
    ensures AllocatePage(vm).vm.next == vm.next && MapKernel(vm, frame, page).vm.next == vm.next
  {
    hide WriteEntry, EntryAt, PdIndex, PtIndex;
  }

  lemma {:induction false} BackPagesKeepsNext(vm: Vm, first: nat, i: nat, n: nat)
    ensures BackPages(vm, first, i, n).vm.next == vm.next
    decreases n - i
  {
    hide AllocatePage, MapKernel;
    StepKeepsNext(vm, 0, 0);
    if i < n {
      var a := AllocatePage(vm);
      if a.result.Some? {
        StepKeepsNext(a.vm, a.result.value, first + i);
        BackPagesKeepsNext(MapKernel(a.vm, a.result.value, first + i).vm, first, i + 1, n);
      }
    }
  }

  /** Through a low table, freeing returns the looked-up frame to the bitmap and clears the page's entry. */
  lemma FreeHeapPageIs(vm: Vm, address: nat)
    requires LowTable(vm, address / PAGE) && FreeHeapPage(vm, address).Done?
    ensures var page := address / PAGE;
            var t := Linked(vm.mem, vm.kdir, PdIndex(page)).value;
            var e := EntryAt(vm.mem, t, PtIndex(page)).(present := false, writeable := false, frame := 0);
            && Lookup(vm, page).Some? && Lookup(vm, page).value < |vm.frames.marks|
            && FreeHeapPage(vm, address) ==
               Done(Step(Written(vm, t, PtIndex(page), e)
                           .(frames := FreeFrame(vm.frames, Lookup(vm, page).value).state), Some(())))
  {
    var page := address / PAGE;
    SplitAddress(address, Lookup(vm, page));
    TranslateLow(vm, page, address % PAGE);
    hide Translate, FreeFrame, WriteEntry, PdIndex, PtIndex;
  }

  lemma SplitAddress(address: nat, f: Option<nat>)
    ensures address == address / PAGE * PAGE + address % PAGE
    ensures f.Some? ==> (f.value * PAGE + address % PAGE) / PAGE == f.value
  {
  }

  /** A frame no slot refers to any more can be given back. */
  lemma ReleaseFrame(vm: Vm, c: Context, owner: map<nat, Slot>, f: nat)
    requires Inv(vm, c, owner) && f !in owner && f !in c.boot && f < |vm.frames.marks| && vm.frames.marks[f]
    ensures Inv(vm.(frames := FreeFrame(vm.frames, f).state), c, owner)
    ensures forall q: nat :: Lookup(vm.(frames := FreeFrame(vm.frames, f).state), q) == Lookup(vm, q)
  {
    var after := vm.(frames := FreeFrame(vm.frames, f).state);
    assert forall q: nat :: Lookup(after, q) == Lookup(vm, q);
    forall s ensures Target(after, c, s) == Target(vm, c, s) {
    }
  }

  /** Clearing a mapped heap page's entry leaves its frame spare. */
  lemma TakeBackHeapPage(vm: Vm, c: Context, owner: map<nat, Slot>, t: nat, page: nat, e: Entry)
    requires Inv(vm, c, owner) && c.heap <= page < vm.next && Lookup(vm, page).Some?
    requires Linked(vm.mem, vm.kdir, PdIndex(page)) == Some(t) && !e.present
    ensures var f := Lookup(vm, page).value;
            var after := Written(vm, t, PtIndex(page), e);
            && f in owner && f !in c.boot && f < |vm.frames.marks| && vm.frames.marks[f]
            && Inv(after, c, map g | g in owner && g != f :: owner[g])
            && (forall q :: InWindow(c, q) ==> Lookup(after, q) == if q == page then None else Lookup(vm, q))
  {
    var f := Lookup(vm, page).value;
    var after := Written(vm, t, PtIndex(page), e);
    var owner' := map g | g in owner && g != f :: owner[g];
    WriteHeapEntry(vm, c, owner, t, page, e);
    assert Target(vm, c, HeapPage(page)) == Some(f);
    assert owner[f] == HeapPage(page);
    hide PdIndex, PtIndex, Linked, Lookup;
    forall s | Target(after, c, s).Some?
      ensures Target(after, c, s).value in owner' && owner'[Target(after, c, s).value] == s
    {
      assert Target(after, c, HeapPage(page)) == None;
      assert Target(vm, c, s) == Target(after, c, s);
    }
    forall q | vm.next <= q < c.window + WINDOW ensures Lookup(after, q) == None {
      assert InWindow(c, q);
    }
    assert RootsLinked(after, c) by {
      forall root | root in c.roots ensures Target(after, c, UserDir(root)).Some? {
        assert Target(after, c, UserDir(root)) == Target(vm, c, UserDir(root));
      }
    }
  }

  /** Freeing a heap page through a low table gives back its frame and unmaps that one page. */
  lemma FreeHeapPageKeeps(vm: Vm, c: Context, owner: map<nat, Slot>, address: nat) returns (owner': map<nat, Slot>)
    requires Inv(vm, c, owner) && c.heap <= address / PAGE < vm.next
    requires LowTable(vm, address / PAGE) && FreeHeapPage(vm, address).Done?
    ensures var s := FreeHeapPage(vm, address).step;
            && Inv(s.vm, c, owner')
            && s.result.Some?
            && Lookup(vm, address / PAGE).Some?
            && s.vm.frames == FreeFrame(vm.frames, Lookup(vm, address / PAGE).value).state
            && !Taken(s.vm, Lookup(vm, address / PAGE).value)
            && (forall q :: InWindow(c, q) ==> Lookup(s.vm, q) == if q == address / PAGE then None else Lookup(vm, q))
  {
    FreeHeapPageIs(vm, address);
    var page := address / PAGE;
    var f := Lookup(vm, page).value;
    var t := Linked(vm.mem, vm.kdir, PdIndex(page)).value;
    hide FreeHeapPage, Inv, Lookup, WriteEntry, EntryAt, PdIndex, PtIndex;
    var e := EntryAt(vm.mem, t, PtIndex(page)).(present := false, writeable := false, frame := 0);
    TakeBackHeapPage(vm, c, owner, t, page, e);
    owner' := map g | g in owner && g != f :: owner[g];
    ReleaseFrame(Written(vm, t, PtIndex(page), e), c, owner', f);
  }

  /** The frame a free gives back is the page's own, or one that nothing refers to: always so through a low table, but
      not above 2 GiB, where the translation reads another frame as the table. */
  ghost predicate FreesOwn(vm: Vm, c: Context, address: nat) {
    match Translate(vm, address)
    case Returned(physical) =>
      physical / PAGE !in c.boot
      && forall s :: s != HeapPage(address / PAGE) ==> Target(vm, c, s) != Some(physical / PAGE)
    case _ => true
  }

  lemma LowTableFreesOwn(vm: Vm, c: Context, owner: map<nat, Slot>, address: nat)
    requires Inv(vm, c, owner) && c.heap <= address / PAGE < vm.next && LowTable(vm, address / PAGE)
    ensures FreesOwn(vm, c, address)
  {
    var page := address / PAGE;
    SplitAddress(address, Lookup(vm, page));
    TranslateLow(vm, page, address % PAGE);
    if Translate(vm, address).Returned? {
      assert Target(vm, c, HeapPage(page)) == Lookup(vm, page);
    }
  }

  /** What a free that comes back does: the translated frame goes back, the page's own entry is cleared. */
  lemma FreeIs(vm: Vm, c: Context, owner: map<nat, Slot>, address: nat)
    requires Inv(vm, c, owner) && FreeHeapPage(vm, address).Done?
    ensures var page := address / PAGE;
            && Translate(vm, address).Returned?
            && Translate(vm, address).address / PAGE < |vm.frames.marks|
            && Linked(vm.mem, vm.kdir, PdIndex(page)).Some?
            && var t := Linked(vm.mem, vm.kdir, PdIndex(page)).value;
               var e := EntryAt(vm.mem, t, PtIndex(page)).(present := false, writeable := false, frame := 0);
               FreeHeapPage(vm, address) ==
                 Done(Step(Written(vm, t, PtIndex(page), e)
                             .(frames := FreeFrame(vm.frames, Translate(vm, address).address / PAGE).state), Some(())))
  {
    hide FreeFrame, Inv;
  }

  /** Clearing the entry of a heap page, mapped or not, keeps the invariant and every other slot. */
  lemma ClearHeapEntry(vm: Vm, c: Context, owner: map<nat, Slot>, t: nat, page: nat, e: Entry)
      returns (owner': map<nat, Slot>)
    requires Inv(vm, c, owner) && c.heap <= page < vm.next
    requires Linked(vm.mem, vm.kdir, PdIndex(page)) == Some(t) && !e.present
    ensures Inv(Written(vm, t, PtIndex(page), e), c, owner')
    ensures forall s :: s != HeapPage(page) ==> Target(Written(vm, t, PtIndex(page), e), c, s) == Target(vm, c, s)
    ensures Target(Written(vm, t, PtIndex(page), e), c, HeapPage(page)) == None
    ensures Draws(vm, owner, owner') && AlikeOutside(c, vm, Written(vm, t, PtIndex(page), e), page, page + 1)
  {
    WriteHeapEntry(vm, c, owner, t, page, e);
    if Lookup(vm, page).Some? {
      TakeBackHeapPage(vm, c, owner, t, page, e);
      owner' := map g | g in owner && g != Lookup(vm, page).value :: owner[g];
    } else {
      SameLinks(vm, c, owner, t, PtIndex(page), e);
      owner' := owner;
    }
  }

  /** An owner map needs no frame that nothing refers to. */
  lemma Disown(vm: Vm, c: Context, owner: map<nat, Slot>, f: nat) returns (owner': map<nat, Slot>)
    requires Inv(vm, c, owner) && forall s :: Target(vm, c, s) != Some(f)
    ensures Inv(vm, c, owner') && f !in owner' && forall g :: g in owner' ==> g in owner && owner'[g] == owner[g]
  {
    owner' := map g | g in owner && g != f :: owner[g];
  }

  /** A free of a heap page, wherever its table lies, keeps the invariant exactly when it gives back the page's own
      frame or one that nothing refers to. */
  lemma FreeKeepsExactly(vm: Vm, c: Context, owner: map<nat, Slot>, address: nat) returns (owner': map<nat, Slot>)
    requires Inv(vm, c, owner) && c.heap <= address / PAGE < vm.next && FreeHeapPage(vm, address).Done?
    ensures var freed := FreeHeapPage(vm, address).step.vm;
            && (Sound(freed, c) <==> FreesOwn(vm, c, address))
            && (FreesOwn(vm, c, address) ==> Inv(freed, c, owner'))
            && Draws(vm, owner, owner')
            && AlikeOutside(c, vm, freed, address / PAGE, address / PAGE + 1)
  {
    FreeIs(vm, c, owner, address);
    var page, g := address / PAGE, Translate(vm, address).address / PAGE;
    var t := Linked(vm.mem, vm.kdir, PdIndex(page)).value;
    var e := EntryAt(vm.mem, t, PtIndex(page)).(present := false, writeable := false, frame := 0);
    var cleared, freed := Written(vm, t, PtIndex(page), e), FreeHeapPage(vm, address).step.vm;
    owner' := ClearHeapEntry(vm, c, owner, t, page, e);
    assert forall q: nat :: Lookup(freed, q) == Lookup(cleared, q);
    if !Taken(vm, g) {
      NotTaken(cleared, g);
      assert Inv(freed, c, owner');
    } else if FreesOwn(vm, c, address) {
      owner' := Disown(cleared, c, owner', g);
      ReleaseFrame(cleared, c, owner', g);
      assert Inv(freed, c, owner');
    } else {
      FreedIsUnsound(vm, c, cleared, freed, page, g);
    }
  }

  /** Two kernels' worth of frames apart, a table and a free frame with stale entries: the free of the only heap page
      gives back the page directory. */
  lemma HighFreeTakesDirectory()
    ensures exists vm, c :: Sound(vm, c) && c.heap <= 0 < vm.next && !FreesOwn(vm, c, 0)
                            && FreeHeapPage(vm, 0).Done? && !Taken(FreeHeapPage(vm, 0).step.vm, vm.kdir)
  {
    var high := 2 * LOW_FRAMES + 1;
    var blank, stale := ZeroFrame(), seq(ENTRIES, _ => Entry(true, true, false, false, 0));
    var dir := blank[0 := Entry(true, true, false, false, high)];
    var table := blank[0 := Entry(true, true, false, false, 2)];
    var mem: seq<Frame> :=
      seq(high + 1, f => if f == 0 then dir else if f == 1 then stale else if f == high then table else blank);
    var marks := seq(high + 1, f => f == 0 || f == 2 || f == high);
    var vm := Vm(mem, Frames(marks, 1, high + 1), 0, 1, 0);
    var c := Context(0, 0, {}, {});
    var owner := map[0 := KernelDir, high := KernelTable(0), 2 := HeapPage(0)];
    assert Linked(vm.mem, 0, 0) == Some(high);
    assert forall i :: i != 0 ==> Linked(vm.mem, 0, i) == None;
    assert Lookup(vm, 0) == Some(2);
    forall page: nat | 1 <= page < WINDOW ensures Lookup(vm, page) == None {
      SameEntry(page, 0);
    }
    assert Inv(vm, c, owner);
    assert Translate(vm, 0) == Returned(0);
    assert Target(vm, c, KernelDir) == Some(0);
  }

  lemma NotTaken(vm: Vm, g: nat)
    requires g < |vm.frames.marks| && !Taken(vm, g)
    ensures FreeFrame(vm.frames, g).state == vm.frames
    ensures vm.(frames := FreeFrame(vm.frames, g).state) == vm
  {
  }

  /** A frame that something refers to, once given back, breaks the invariant. */
  lemma FreedIsUnsound(vm: Vm, c: Context, cleared: Vm, freed: Vm, page: nat, g: nat)
    requires g < |vm.frames.marks| && vm.frames.marks[g] && cleared.frames == vm.frames
    requires freed == cleared.(frames := FreeFrame(vm.frames, g).state)
    requires forall s :: s != HeapPage(page) ==> Target(cleared, c, s) == Target(vm, c, s)
    requires g in c.boot || exists s :: s != HeapPage(page) && Target(vm, c, s) == Some(g)
    ensures !Sound(freed, c)
  {
    assert !Taken(freed, g);
    if s :| s != HeapPage(page) && Target(vm, c, s) == Some(g) {
      SameTarget(cleared, freed, c, s);
      assert forall owner :: Inv(freed, c, owner) ==> Taken(freed, g);
    } else {
      assert forall owner :: Inv(freed, c, owner) ==> Taken(freed, g);
    }
  }

  lemma SameTarget(vm: Vm, after: Vm, c: Context, s: Slot)
    requires after == vm.(frames := after.frames)
    ensures Target(after, c, s) == Target(vm, c, s)
  {
  }

  // ----- Runs: user directories

  ghost predicate SameKernel(vm: Vm, after: Vm) {
    forall q: nat :: Lookup(after, q) == Lookup(vm, q)
  }

  /** Slots that referred to a frame still refer to it. */
  ghost predicate SlotsKept(c: Context, vm: Vm, after: Vm) {
    forall s :: Target(vm, c, s).Some? ==> Target(after, c, s) == Target(vm, c, s)
  }

  /** The invariant carries over when one slot gains a spare frame and every other slot and mapping stays. */
  lemma GainSlot(vm: Vm, c: Context, owner: map<nat, Slot>, after: Vm, slot: Slot, f: nat)
    requires Inv(vm, c, owner) && Spare(vm, c, owner, f) && SameKernel(vm, after)
    requires after == vm.(mem := after.mem) && |after.mem| == |vm.mem|
    requires Target(vm, c, slot) == None && Target(after, c, slot) == Some(f)
    requires forall s :: s != slot ==> Target(after, c, s) == Target(vm, c, s)
    requires !slot.KernelDir? && !slot.HeapPage?
    ensures Inv(after, c, owner[f := slot]) && SlotsKept(c, vm, after)
  {
    assert RootsLinked(after, c) by {
      forall root | root in c.roots ensures Target(after, c, UserDir(root)).Some? {
        assert Target(vm, c, UserDir(root)).Some?;
      }
    }
  }

  lemma LinkUserTable(vm: Vm, c: Context, owner: map<nat, Slot>, root: nat, i: nat, f: nat, e: Entry)
    requires Inv(vm, c, owner) && root in c.roots && i < ENTRIES
    requires Target(vm, c, UserTable(root, i)) == None
    requires Spare(vm, c, owner, f) && vm.mem[f] == ZeroFrame() && e.present && e.frame == f
    ensures Linked(vm.mem, root, 0).Some?
    ensures var after := Written(vm, Linked(vm.mem, root, 0).value, i, e);
            && Inv(after, c, owner[f := UserTable(root, i)])
            && Target(after, c, UserTable(root, i)) == Some(f)
            && SameKernel(vm, after)
            && SlotsKept(c, vm, after)
            && (forall s :: s != UserTable(root, i) ==> Target(after, c, s) == Target(vm, c, s))
  {
    assert Target(vm, c, UserDir(root)).Some?;
    AncestorsOwned(vm, c, owner, UserDir(root));
    var d := Linked(vm.mem, root, 0).value;
    var after := Written(vm, d, i, e);
    assert Linked(after.mem, root, 0) == Some(d);
    forall s | s != UserTable(root, i) ensures Target(after, c, s) == Target(vm, c, s) {
      if s.UserPage? && s.root == root && s.i == i {
        assert EntryAt(after.mem, f, s.j) == ZeroEntry();
      } else {
        WriteKeepsTarget(vm, c, owner, d, i, e, s);
      }
    }
    forall q: nat ensures Lookup(after, q) == Lookup(vm, q) {
      WriteKeepsLookup(vm, c, owner, d, i, e, q);
    }
    GainSlot(vm, c, owner, after, UserTable(root, i), f);
  }

  lemma SetUserPage(vm: Vm, c: Context, owner: map<nat, Slot>, root: nat, i: nat, j: nat, t: nat, e: Entry)
    requires Inv(vm, c, owner) && root in c.roots && i < ENTRIES && j < ENTRIES
    requires Target(vm, c, UserTable(root, i)) == Some(t) && Target(vm, c, UserPage(root, i, j)) == None
    requires e.present && Spare(vm, c, owner, e.frame)
    ensures var after := Written(vm, t, j, e);
            && Inv(after, c, owner[e.frame := UserPage(root, i, j)])
            && Target(after, c, UserPage(root, i, j)) == Some(e.frame)
            && SameKernel(vm, after)
            && SlotsKept(c, vm, after)
            && (forall s :: s != UserPage(root, i, j) ==> Target(after, c, s) == Target(vm, c, s))
  {
    AncestorsOwned(vm, c, owner, UserPage(root, i, j));
    var after := Written(vm, t, j, e);
    forall s | s != UserPage(root, i, j) ensures Target(after, c, s) == Target(vm, c, s) {
      WriteKeepsTarget(vm, c, owner, t, j, e, s);
    }
    assert Target(after, c, UserTable(root, i)) == Some(t);
    forall q: nat ensures Lookup(after, q) == Lookup(vm, q) {
      WriteKeepsLookup(vm, c, owner, t, j, e, q);
    }
    GainSlot(vm, c, owner, after, UserPage(root, i, j), e.frame);
  }

  /** The user table walker: it fails only when a table is missing and no frame is free. */
  lemma UserTableForKeeps(vm: Vm, c: Context, owner: map<nat, Slot>, root: nat, page: nat)
      returns (owner': map<nat, Slot>)
    requires Inv(vm, c, owner) && root in c.roots
    ensures var s := UserTableFor(vm, root, page);
            var slot := UserTable(root, PdIndex(page));
            && Inv(s.vm, c, owner')
            && SameKernel(vm, s.vm)
            && SlotsKept(c, vm, s.vm)
            && (forall t :: t != slot ==> Target(s.vm, c, t) == Target(vm, c, t))
            && s.vm.next == vm.next && GrowsTo(vm, s.vm)
            && (if Target(vm, c, slot).Some? then s.vm == vm && s.result == Target(vm, c, slot)
                else if Available(vm.frames) == 0 then s.vm == vm && s.result == None
                else s.result.Some? && Target(s.vm, c, slot) == s.result
                     && Available(s.vm.frames) == Available(vm.frames) - 1)
    ensures forall f :: Spare(vm, c, owner, f) ==> Spare(UserTableFor(vm, root, page).vm, c, owner', f)
    ensures Draws(vm, owner, owner')
  {
    var i := PdIndex(page);
    assert Target(vm, c, UserDir(root)).Some?;
    owner' := owner;
    AllocatePageGrows(vm);
    if Target(vm, c, UserTable(root, i)) == None {
      AllocatePageKeeps(vm, c, owner);
      AllocateCounts(vm);
      var a := AllocatePage(vm);
      if a.result.Some? {
        var f := a.result.value;
        assert Target(a.vm, c, UserTable(root, i)) == None;
        assert Target(a.vm, c, UserDir(root)) == Target(vm, c, UserDir(root));
        var d := Linked(vm.mem, root, 0).value;
        LinkUserTable(a.vm, c, owner, root, i, f, LinkEntry(EntryAt(a.vm.mem, d, i), f).(user := true));
        owner' := owner[f := UserTable(root, i)];
      }
    }
  }

  /** Allocation fails exactly when the allocator has no frame to give, and otherwise takes one. */
  lemma AllocateCounts(vm: Vm)
    requires Sane(vm)
    ensures AllocatePage(vm).result.None? <==> Available(vm.frames) == 0
    ensures AllocatePage(vm).result.Some? ==> Available(AllocatePage(vm).vm.frames) == Available(vm.frames) - 1
  {
    AvailableSteps(vm.frames);
  }

  /** map_user_page: unless it stops, the page gets the frame, or nothing happens because no table could be made. */
  lemma MapUserPageKeeps(vm: Vm, c: Context, owner: map<nat, Slot>, root: nat, f: nat, page: nat, w: bool, x: bool)
      returns (owner': map<nat, Slot>)
    requires Inv(vm, c, owner) && root in c.roots && Spare(vm, c, owner, f)
    requires MapUserPage(vm, root, f, page, w, x).Done?
    ensures var s := MapUserPage(vm, root, f, page, w, x).step;
            var missing := Target(vm, c, UserTable(root, PdIndex(page))).None?;
            && Inv(s.vm, c, owner')
            && SameKernel(vm, s.vm)
            && SlotsKept(c, vm, s.vm)
            && s.vm.next == vm.next && GrowsTo(vm, s.vm)
            && (if missing && Available(vm.frames) == 0 then s.vm == vm && s.result.None?
                else s.result.Some?
                     && Target(s.vm, c, UserPage(root, PdIndex(page), PtIndex(page))) == Some(f)
                     && Available(s.vm.frames) == Available(vm.frames) - (if missing then 1 else 0))
    ensures var s := MapUserPage(vm, root, f, page, w, x).step;
            s.result.Some? ==> forall k: nat :: Target(s.vm, c, UserTable(root, k)).Some?
                                 <==> Target(vm, c, UserTable(root, k)).Some? || k == PdIndex(page)
    ensures DrawsBut(vm, owner, owner', {f})
    ensures var s := MapUserPage(vm, root, f, page, w, x).step;
            && (forall t :: t != UserTable(root, PdIndex(page)) && t != UserPage(root, PdIndex(page), PtIndex(page)) ==>
                  Target(s.vm, c, t) == Target(vm, c, t))
            && (s.result.Some? ==>
                  Target(s.vm, c, UserTable(root, PdIndex(page))) == UserTableFor(vm, root, page).result)
  {
    owner' := UserTableForKeeps(vm, c, owner, root, page);
    var s := UserTableFor(vm, root, page);
    if s.result.Some? {
      var i, j, t := PdIndex(page), PtIndex(page), s.result.value;
      assert f % PTE_FRAMES == f;
      var e := Entry(true, w, true, !x, f % PTE_FRAMES);
      assert Target(s.vm, c, UserTable(root, i)) == Some(t);
      SetUserPage(s.vm, c, owner', root, i, j, t, e);
      owner' := owner'[f := UserPage(root, i, j)];
      WriteGrows(vm, s.vm, t, j, e);
    }
  }

  /** map_user_page never comes back exactly when the page is already mapped. */
  lemma MapUserPageStops(vm: Vm, c: Context, owner: map<nat, Slot>, root: nat, f: nat, page: nat, w: bool, x: bool)
    requires Inv(vm, c, owner) && root in c.roots
    ensures MapUserPage(vm, root, f, page, w, x).Stopped? <==> LookupUser(vm, root, page).Some?
  {
    var i, j := PdIndex(page), PtIndex(page);
    UserPageTarget(vm, c, root, page);
    var _ := UserTableForKeeps(vm, c, owner, root, page);
    var s := UserTableFor(vm, root, page);
    UserPageTarget(s.vm, c, root, page);
    hide Inv, UserTableFor, SameKernel, SlotsKept, GrowsTo, PdIndex, PtIndex;
    if s.result.Some? {
      assert Target(s.vm, c, UserTable(root, i)) == s.result;
      assert UserPage(root, i, j) != UserTable(root, i);
    }
  }

  lemma UserPageTarget(vm: Vm, c: Context, root: nat, page: nat)
    requires root in c.roots
    ensures Target(vm, c, UserPage(root, PdIndex(page), PtIndex(page))) == LookupUser(vm, root, page)
    ensures Target(vm, c, UserTable(root, PdIndex(page))) == None ==> LookupUser(vm, root, page) == None
  {
  }

  /** A new user directory: two fresh frames, one linked from the other. */
  lemma CreateUserDirectoryKeeps(vm: Vm, c: Context, owner: map<nat, Slot>)
      returns (c': Context, owner': map<nat, Slot>)
    requires Inv(vm, c, owner)
    ensures var s := CreateUserDirectory(vm);
            && Inv(s.vm, c', owner')
            && SameKernel(vm, s.vm)
            && GrowsTo(vm, s.vm)
            && Draws(vm, owner, owner')
            && (forall slot :: Target(vm, c, slot).Some? ==> Target(s.vm, c', slot) == Target(vm, c, slot))
            && c' == c.(roots := if s.result.Some? then c.roots + {s.result.value} else c.roots)
            && (s.result.Some? ==> s.result.value !in c.roots && !Taken(vm, s.result.value))
            && (s.result.Some? ==> forall page: nat :: LookupUser(s.vm, s.result.value, page) == None)
            && (forall i :: Target(s.vm, c', KernelTable(i)) == Target(vm, c, KernelTable(i)))
  {
    c', owner' := c, owner;
    AllocatePageKeeps(vm, c, owner);
    AllocatePageGrows(vm);
    var a := AllocatePage(vm);
    if a.result.Some? {
      AllocatePageKeeps(a.vm, c, owner);
      AllocatePageGrows(a.vm);
      var b := AllocatePage(a.vm);
      if b.result.Some? {
        var root, dir := a.result.value, b.result.value;
        assert b.vm.mem[root] == ZeroFrame();
        var link := LinkEntry(EntryAt(b.vm.mem, root, 0), dir).(user := true);
        AncestorsOwned(vm, c, owner, UserDir(root));
        NewRoot(b.vm, c, owner, root, dir, link);
        c' := c.(roots := c.roots + {root});
        owner' := owner[root := UserRoot(root)][dir := UserDir(root)];
      }
    }
  }

  lemma NewRoot(vm: Vm, c: Context, owner: map<nat, Slot>, root: nat, dir: nat, e: Entry)
    requires Inv(vm, c, owner) && root !in c.roots && root != dir
    requires Spare(vm, c, owner, root) && Spare(vm, c, owner, dir)
    requires vm.mem[root] == ZeroFrame() && vm.mem[dir] == ZeroFrame()
    requires e.present && e.frame == dir
    ensures var after := Written(vm, root, 0, e);
            var c' := c.(roots := c.roots + {root});
            && Inv(after, c', owner[root := UserRoot(root)][dir := UserDir(root)])
            && SameKernel(vm, after)
            && (forall slot :: Target(vm, c, slot).Some? ==> Target(after, c', slot) == Target(vm, c, slot))
            && (forall page: nat :: LookupUser(after, root, page) == None)
            && (forall i :: Target(after, c', KernelTable(i)) == Target(vm, c, KernelTable(i)))
  {
    var after := Written(vm, root, 0, e);
    var c' := c.(roots := c.roots + {root});
    forall q: nat ensures Lookup(after, q) == Lookup(vm, q) {
      AncestorsOwned(vm, c, owner, HeapPage(q));
    }
    assert Linked(after.mem, root, 0) == Some(dir);
    assert forall i :: EntryAt(after.mem, dir, i) == ZeroEntry();
    forall s
      ensures Target(after, c', s) == if s == UserRoot(root) then Some(root)
                                      else if s == UserDir(root) then Some(dir)
                                      else Target(vm, c, s)
    {
      AncestorsOwned(vm, c, owner, s);
    }
    assert RootsLinked(after, c') by {
      forall r | r in c'.roots ensures Target(after, c', UserDir(r)).Some? {
        assert r in c.roots ==> Target(vm, c, UserDir(r)).Some?;
      }
    }
  }

  // ----- allocate_user_pages drops map_user_page's result

  /** The tables the user directory already has. */
  ghost function Made(vm: Vm, c: Context, root: nat): set<nat> {
    set i | 0 <= i < ENTRIES && Target(vm, c, UserTable(root, i)).Some?
  }

  /** How many tables the pages page..page+n need beyond those `made`. */
  function Needed(page: nat, n: nat, made: set<nat>): nat
    decreases n
  {
    if n == 0 then 0
    else (if PdIndex(page) in made then 0 else 1) + Needed(page + 1, n - 1, made + {PdIndex(page)})
  }

  /** The last of the n pages is the first to need its table. */
  predicate LastNeeds(page: nat, n: nat, made: set<nat>)
    decreases n
  {
    if n == 0 then false
    else if n == 1 then PdIndex(page) !in made
    else LastNeeds(page + 1, n - 1, made + {PdIndex(page)})
  }

  lemma {:induction false} LastNeedsTable(page: nat, n: nat, made: set<nat>)
    requires LastNeeds(page, n, made)
    ensures Needed(page, n, made) >= 1
    decreases n
  {
    if n > 1 {
      LastNeedsTable(page + 1, n - 1, made + {PdIndex(page)});
    }
  }

  lemma {:induction false} NeededBounds(page: nat, n: nat, made: set<nat>)
    ensures LastNeeds(page, n, made) ==> Needed(page, n, made) >= 1
    ensures n > 1 && PdIndex(page) !in made && LastNeeds(page, n, made) ==> Needed(page, n, made) >= 2
  {
    if LastNeeds(page, n, made) {
      LastNeedsTable(page, n, made);
      if n > 1 {
        LastNeedsTable(page + 1, n - 1, made + {PdIndex(page)});
      }
    }
  }

  predicate UserMapped(vm: Vm, root: nat, page: nat, n: nat) {
    forall q: nat :: page <= q < page + n ==> LookupUser(vm, root, q).Some?
  }

  lemma UserLookupKept(c: Context, vm: Vm, after: Vm, root: nat, q: nat)
    requires SlotsKept(c, vm, after) && root in c.roots && LookupUser(vm, root, q).Some?
    ensures LookupUser(after, root, q) == LookupUser(vm, root, q)
  {
    assert Target(vm, c, UserPage(root, PdIndex(q), PtIndex(q))).Some?;
  }

  lemma UserMappedSplit(c: Context, vm: Vm, after: Vm, root: nat, page: nat, n: nat)
    requires SlotsKept(c, vm, after) && root in c.roots && n > 0
    requires LookupUser(vm, root, page).Some?
    ensures UserMapped(after, root, page, n) <==> UserMapped(after, root, page + 1, n - 1)
  {
    UserLookupKept(c, vm, after, root, page);
  }

  lemma KeptTransitive(c: Context, a: Vm, b: Vm, d: Vm)
    requires SlotsKept(c, a, b) && SlotsKept(c, b, d) && SameKernel(a, b) && SameKernel(b, d)
    requires GrowsTo(a, b) && GrowsTo(b, d)
    ensures SlotsKept(c, a, d) && SameKernel(a, d) && GrowsTo(a, d)
  {
  }

  /** One turn of the loop, counted in free frames and tables made. */
  lemma UserPageStep(vm: Vm, c: Context, owner: map<nat, Slot>, root: nat, page: nat, w: bool, x: bool)
      returns (owner': map<nat, Slot>)
    requires Inv(vm, c, owner) && root in c.roots && AllocatePage(vm).result.Some?
    requires MapUserPage(AllocatePage(vm).vm, root, AllocatePage(vm).result.value, page, w, x).Done?
    ensures var m := MapUserPage(AllocatePage(vm).vm, root, AllocatePage(vm).result.value, page, w, x).step;
            && Inv(m.vm, c, owner')
            && SameKernel(vm, m.vm) && SlotsKept(c, vm, m.vm) && GrowsTo(vm, m.vm) && Draws(vm, owner, owner')
            && m.vm.next == vm.next
            && var free, made, i := Available(vm.frames), Made(vm, c, root), PdIndex(page);
               if i in made then
                 m.result.Some? && Available(m.vm.frames) == free - 1
                 && Made(m.vm, c, root) == made + {i} && LookupUser(m.vm, root, page).Some?
               else if free > 1 then
                 m.result.Some? && Available(m.vm.frames) == free - 2
                 && Made(m.vm, c, root) == made + {i} && LookupUser(m.vm, root, page).Some?
               else
                 m.result.None? && Available(m.vm.frames) == 0
                 && Made(m.vm, c, root) == made && LookupUser(m.vm, root, page) == None
  {
    AllocatePageKeeps(vm, c, owner);
    AllocatePageGrows(vm);
    AllocateCounts(vm);
    var a := AllocatePage(vm);
    var i := PdIndex(page);
    assert Target(a.vm, c, UserTable(root, i)) == Target(vm, c, UserTable(root, i));
    owner' := MapUserPageKeeps(a.vm, c, owner, root, a.result.value, page, w, x);
    DrawsNew(vm, a.vm, owner, owner', a.result.value);
    var m := MapUserPage(a.vm, root, a.result.value, page, w, x).step;
    MadeOf(vm, a.vm, m.vm, c, root, i, m.result.Some?);
    if m.result.Some? {
      assert LookupUser(m.vm, root, page) == Target(m.vm, c, UserPage(root, i, PtIndex(page)));
    }
  }

  /** The loop of allocate_user_pages over the pages from `page` on finds page `q` mapped: it was, or the loop has come
      round to the entries it wrote itself. */
  predicate Present(vm: Vm, root: nat, page: nat, q: nat) {
    LookupUser(vm, root, q).Some? || q >= page + WINDOW
  }

  /** Page `q` is the first the loop finds mapped, and the frames last until then. */
  ghost predicate StopsAt(vm: Vm, c: Context, root: nat, page: nat, n: nat, q: nat) {
    && page <= q < page + n
    && Present(vm, root, page, q)
    && (forall r: nat :: page <= r < q ==> !Present(vm, root, page, r))
    && Available(vm.frames) > q - page + Needed(page, q - page, Made(vm, c, root))
  }

  /** Some page is found mapped before the frames run out. */
  ghost predicate Stops(vm: Vm, c: Context, root: nat, page: nat, n: nat) {
    exists q: nat :: StopsAt(vm, c, root, page, n, q)
  }

  /** The other user pages of the window from `page` on are mapped alike. */
  predicate AlikeUser(vm: Vm, after: Vm, root: nat, page: nat) {
    forall q: nat :: page < q < page + WINDOW ==> LookupUser(after, root, q) == LookupUser(vm, root, q)
  }

  lemma OtherUserPages(vm: Vm, c: Context, owner: map<nat, Slot>, root: nat, page: nat, w: bool, x: bool)
    requires Inv(vm, c, owner) && root in c.roots && AllocatePage(vm).result.Some?
    requires MapUserPage(AllocatePage(vm).vm, root, AllocatePage(vm).result.value, page, w, x).Done?
    ensures AlikeUser(vm, MapUserPage(AllocatePage(vm).vm, root, AllocatePage(vm).result.value, page, w, x).step.vm,
                      root, page)
  {
    hide Inv, AllocatePage, MapUserPage, LookupUser, GrowsTo, SlotsKept, SameKernel, PdIndex, PtIndex, Target, Draws,
         DrawsBut;
    AllocatePageKeeps(vm, c, owner);
    var a := AllocatePage(vm);
    var _ := MapUserPageKeeps(a.vm, c, owner, root, a.result.value, page, w, x);
    var m := MapUserPage(a.vm, root, a.result.value, page, w, x).step;
    forall q: nat | page < q < page + WINDOW ensures LookupUser(m.vm, root, q) == LookupUser(vm, root, q) {
      SameWindowFrom(page, q);
      SameEntry(q, page);
      UserPageTarget(vm, c, root, q);
      UserPageTarget(m.vm, c, root, q);
    }
  }

  lemma SameWindowFrom(page: nat, q: nat)
    requires page < q < page + WINDOW
    ensures q % WINDOW != page % WINDOW
  {
  }

  /** allocate_user_pages never comes back exactly when it finds a page mapped before its frames run out. */
  lemma {:induction false} AllocateUserPagesStops(vm: Vm, c: Context, owner: map<nat, Slot>, root: nat, page: nat,
                                                  n: nat, w: bool, x: bool)
    requires Inv(vm, c, owner) && root in c.roots
    ensures AllocateUserPages(vm, root, page, n, w, x).Stopped? <==> Stops(vm, c, root, page, n)
    decreases n
  {
    hide Inv, AllocatePage, MapUserPage, LookupUser, GrowsTo, SlotsKept, SameKernel, Made, PdIndex, Available, Draws;
    UserCounts(vm, c, owner);
    if n > 0 && AllocatePage(vm).result.Some? {
      var a := AllocatePage(vm);
      SameUserPage(vm, c, owner, root, page);
      MapUserPageStops(a.vm, c, owner, root, a.result.value, page, w, x);
      if LookupUser(vm, root, page).Some? {
        assert StopsAt(vm, c, root, page, n, page);
      } else {
        var o := UserPageStep(vm, c, owner, root, page, w, x);
        var m := MapUserPage(a.vm, root, a.result.value, page, w, x).step;
        OtherUserPages(vm, c, owner, root, page, w, x);
        if m.result.None? {
          UserCounts(m.vm, c, o);
          NoFrameFails(m.vm, root, page + 1, n - 1, w, x);
          NowhereStops(vm, c, root, page, n);
        } else {
          AllocateUserPagesStops(m.vm, c, o, root, page + 1, n - 1, w, x);
          StopsLater(vm, m.vm, c, root, page, n);
        }
      }
    }
  }

  lemma NowhereStops(vm: Vm, c: Context, root: nat, page: nat, n: nat)
    requires LookupUser(vm, root, page) == None && PdIndex(page) !in Made(vm, c, root) && Available(vm.frames) <= 1
    ensures forall q: nat :: !StopsAt(vm, c, root, page, n, q)
  {
  }

  lemma SameUserPage(vm: Vm, c: Context, owner: map<nat, Slot>, root: nat, page: nat)
    requires Inv(vm, c, owner) && root in c.roots
    ensures LookupUser(AllocatePage(vm).vm, root, page) == LookupUser(vm, root, page)
    ensures Inv(AllocatePage(vm).vm, c, owner)
  {
    AllocatePageKeeps(vm, c, owner);
    UserPageTarget(vm, c, root, page);
    UserPageTarget(AllocatePage(vm).vm, c, root, page);
  }

  lemma StopsLater(vm: Vm, m: Vm, c: Context, root: nat, page: nat, n: nat)
    requires n > 0 && LookupUser(vm, root, page) == None && LookupUser(m, root, page).Some?
    requires Made(m, c, root) == Made(vm, c, root) + {PdIndex(page)}
    requires Available(m.frames) == Available(vm.frames) - 1 - (if PdIndex(page) in Made(vm, c, root) then 0 else 1)
    requires AlikeUser(vm, m, root, page)
    ensures Stops(vm, c, root, page, n) <==> Stops(m, c, root, page + 1, n - 1)
  {
    hide PdIndex, Made, Available, Present, Needed;
    PresentLater(vm, m, root, page);
    var after, rest := page + 1, n - 1;
    if Stops(vm, c, root, page, n) {
      var q: nat :| StopsAt(vm, c, root, page, n, q);
      assert page < q <= page + WINDOW;
      NeededStep(page, q - page, Made(vm, c, root));
      forall r: nat | after <= r < q ensures !Present(m, root, after, r) {
        assert !Present(vm, root, page, r);
      }
      assert StopsAt(m, c, root, after, rest, q);
    }
    if Stops(m, c, root, after, rest) {
      var q: nat :| StopsAt(m, c, root, after, rest, q);
      assert q <= page + WINDOW;
      NeededStep(page, q - page, Made(vm, c, root));
      forall r: nat | page <= r < q ensures !Present(vm, root, page, r) {
        assert r > page ==> !Present(m, root, after, r);
      }
      assert StopsAt(vm, c, root, page, n, q);
    }
  }

  lemma PresentLater(vm: Vm, m: Vm, root: nat, page: nat)
    requires LookupUser(vm, root, page) == None && LookupUser(m, root, page).Some? && AlikeUser(vm, m, root, page)
    ensures forall q: nat :: page < q <= page + WINDOW ==>
              (Present(m, root, page + 1, q) <==> Present(vm, root, page, q))
    ensures !Present(vm, root, page, page) && Present(m, root, page + 1, page + WINDOW)
    ensures Present(vm, root, page, page + WINDOW)
  {
    hide LookupUser;
    ComesRound(m, root, page);
  }

  lemma NeededStep(page: nat, n: nat, made: set<nat>)
    requires n > 0
    ensures Needed(page, n, made)
         == (if PdIndex(page) in made then 0 else 1) + Needed(page + 1, n - 1, made + {PdIndex(page)})
  {
  }

  lemma ComesRound(vm: Vm, root: nat, page: nat)
    ensures LookupUser(vm, root, page + WINDOW) == LookupUser(vm, root, page)
  {
    hide PdIndex, PtIndex;
    OnceRound(page);
    SameEntry(page + WINDOW, page);
  }

  lemma OnceRound(page: nat)
    ensures (page + WINDOW) % WINDOW == page % WINDOW
  {
    DivModUnique(page + WINDOW, WINDOW, page / WINDOW + 1, page % WINDOW);
  }

  lemma MadeOf(vm: Vm, a: Vm, m: Vm, c: Context, root: nat, i: nat, grew: bool)
    requires i < ENTRIES
    requires forall slot :: Target(a, c, slot) == Target(vm, c, slot)
    requires if grew then forall k: nat ::
               Target(m, c, UserTable(root, k)).Some? <==> Target(a, c, UserTable(root, k)).Some? || k == i
             else m == a
    ensures Made(m, c, root) == if grew then Made(vm, c, root) + {i} else Made(vm, c, root)
  {
    forall k: nat ensures Target(a, c, UserTable(root, k)) == Target(vm, c, UserTable(root, k)) {
    }
  }

  lemma {:induction false} NoFrameFails(vm: Vm, root: nat, page: nat, n: nat, w: bool, x: bool)
    requires Sane(vm) && Available(vm.frames) == 0
    ensures AllocateUserPages(vm, root, page, n, w, x) == Done(Step(vm, if n == 0 then Some(()) else None))
  {
    AllocateCounts(vm);
  }

  /** When it comes back, allocate_user_pages has mapped every page exactly if there were frames for all pages and
      missing tables. It still reports success one frame short when the frame it lacks is the last page's table. */
  lemma {:induction false} AllocateUserPagesKeeps(vm: Vm, c: Context, owner: map<nat, Slot>, root: nat, page: nat,
                                                  n: nat, w: bool, x: bool)
      returns (owner': map<nat, Slot>)
    requires Inv(vm, c, owner) && root in c.roots
    requires AllocateUserPages(vm, root, page, n, w, x).Done?
    ensures var s := AllocateUserPages(vm, root, page, n, w, x).step;
            && Inv(s.vm, c, owner')
            && SameKernel(vm, s.vm)
            && SlotsKept(c, vm, s.vm)
            && s.vm.next == vm.next
            && GrowsTo(vm, s.vm) && Draws(vm, owner, owner')
    ensures var s := AllocateUserPages(vm, root, page, n, w, x).step;
            var free, made := Available(vm.frames), Made(vm, c, root);
            && (s.result.Some? && UserMapped(s.vm, root, page, n) <==> free >= n + Needed(page, n, made))
            && (s.result.Some? <==> free + (if LastNeeds(page, n, made) then 1 else 0) >= n + Needed(page, n, made))
    decreases n
  {
    hide Inv, AllocatePage, MapUserPage, LookupUser, GrowsTo, SlotsKept, SameKernel, Made, PdIndex, UserMapped,
         Available;
    owner' := owner;
    var made := Made(vm, c, root);
    if n == 0 {
      KeptReflexive(c, vm, root, page);
    } else {
      NeededBounds(page, n, made);
      UserCounts(vm, c, owner);
      KeptReflexive(c, vm, root, page);
      var a := AllocatePage(vm);
      if a.result.Some? {
        var o := UserPageStep(vm, c, owner, root, page, w, x);
        var m := MapUserPage(a.vm, root, a.result.value, page, w, x).step;
        UserCounts(m.vm, c, o);
        if m.result.Some? {
          owner' := AllocateUserPagesKeeps(m.vm, c, o, root, page + 1, n - 1, w, x);
          var s := AllocateUserPages(m.vm, root, page + 1, n - 1, w, x).step;
          KeptTransitive(c, vm, m.vm, s.vm);
          DrawsTransitive(vm, m.vm, owner, o, owner');
          UserMappedSplit(c, m.vm, s.vm, root, page, n);
        } else {
          owner' := o;
          NoFrameFails(m.vm, root, page + 1, n - 1, w, x);
          NotMapped(m.vm, root, page, n);
        }
      }
    }
  }

  lemma KeptReflexive(c: Context, vm: Vm, root: nat, page: nat)
    ensures SlotsKept(c, vm, vm) && SameKernel(vm, vm) && GrowsTo(vm, vm) && UserMapped(vm, root, page, 0)
  {
  }

  lemma UserCounts(vm: Vm, c: Context, owner: map<nat, Slot>)
    requires Inv(vm, c, owner)
    ensures Sane(vm)
    ensures AllocatePage(vm).result.None? <==> Available(vm.frames) == 0
    ensures AllocatePage(vm).result.None? ==> AllocatePage(vm).vm == vm
  {
    AllocateCounts(vm);
  }

  lemma NotMapped(vm: Vm, root: nat, page: nat, n: nat)
    requires n > 0 && LookupUser(vm, root, page) == None
    ensures !UserMapped(vm, root, page, n)
  {
  }

  /** One frame left and no table: the call reports success and the page is not mapped. */
  lemma {:induction false} SilentUserFailure(vm: Vm, c: Context, owner: map<nat, Slot>, root: nat, page: nat)
    requires Inv(vm, c, owner) && root in c.roots
    requires Available(vm.frames) == 1 && Target(vm, c, UserTable(root, PdIndex(page))) == None
    requires AllocateUserPages(vm, root, page, 1, true, false).Done?
    ensures var s := AllocateUserPages(vm, root, page, 1, true, false).step;
            s.result.Some? && LookupUser(s.vm, root, page) == None
  {
    var _ := AllocateUserPagesKeeps(vm, c, owner, root, page, 1, true, false);
    var s := AllocateUserPages(vm, root, page, 1, true, false).step;
    assert Needed(page, 1, Made(vm, c, root)) == 1 + Needed(page + 1, 0, Made(vm, c, root) + {PdIndex(page)});
    assert !UserMapped(s.vm, root, page, 1);
  }

  /** The first page of a user directory's fresh stretch gets the lowest clear frame, and its table the frame behind, if
      that is clear: a block of two pages or more, filled through the mapping of its first frame, runs over the
      table. */
  lemma {:induction false} TableBehindFirstPage(vm: Vm, c: Context, owner: map<nat, Slot>, root: nat, page: nat, n: nat,
                                                w: bool, x: bool)
    requires Inv(vm, c, owner) && root in c.roots && n > 0 && vm.frames.free > 1
    requires AllocateUserPages(vm, root, page, n, w, x).Done?
    requires Target(vm, c, UserTable(root, PdIndex(page))) == None
    requires var low := Lowest(vm.frames.marks, 0);
             low.Some? && low.value + 1 < |vm.frames.marks| && !vm.frames.marks[low.value + 1]
    ensures var after, f := AllocateUserPages(vm, root, page, n, w, x).step.vm, Lowest(vm.frames.marks, 0).value;
            && LookupUser(after, root, page) == Some(f)
            && Target(after, c, UserTable(root, PdIndex(page))) == Some(f + 1)
  {
    hide Inv, AllocatePage, MapUserPage, LookupUser, PdIndex, PtIndex, Target, Lowest, UserTableFor, GrowsTo, Available;
    var f := Lowest(vm.frames.marks, 0).value;
    LowestIsFirst(vm);
    var a, i := AllocatePage(vm), PdIndex(page);
    assert MapUserPage(a.vm, root, f, page, w, x).Done?;
    var o := FirstUserPage(vm, c, owner, root, page, w, x);
    var m := MapUserPage(a.vm, root, f, page, w, x).step;
    var after := AllocateUserPages(m.vm, root, page + 1, n - 1, w, x).step.vm;
    var _ := AllocateUserPagesKeeps(m.vm, c, o, root, page + 1, n - 1, w, x);
    UserLookupKept(c, m.vm, after, root, page);
    SlotKept(c, m.vm, after, UserTable(root, i));
  }

  lemma SlotKept(c: Context, vm: Vm, after: Vm, s: Slot)
    requires SlotsKept(c, vm, after) && Target(vm, c, s).Some?
    ensures Target(after, c, s) == Target(vm, c, s)
  {
  }

  lemma LowestIsFirst(vm: Vm)
    requires vm.frames.free > 0 && Lowest(vm.frames.marks, 0).Some?
    ensures AllocatePage(vm).result == Lowest(vm.frames.marks, 0)
  {
  }

  lemma FirstUserPage(vm: Vm, c: Context, owner: map<nat, Slot>, root: nat, page: nat, w: bool, x: bool)
      returns (o: map<nat, Slot>)
    requires Inv(vm, c, owner) && root in c.roots && vm.frames.free > 1
    requires Target(vm, c, UserTable(root, PdIndex(page))) == None
    requires var low := Lowest(vm.frames.marks, 0);
             && low.Some? && low.value + 1 < |vm.frames.marks| && !vm.frames.marks[low.value + 1]
             && MapUserPage(AllocatePage(vm).vm, root, low.value, page, w, x).Done?
    ensures var f := Lowest(vm.frames.marks, 0).value;
            var m := MapUserPage(AllocatePage(vm).vm, root, f, page, w, x).step;
            && Inv(m.vm, c, o) && LookupUser(m.vm, root, page) == Some(f)
            && Target(m.vm, c, UserTable(root, PdIndex(page))) == Some(f + 1)
  {
    var f := Lowest(vm.frames.marks, 0).value;
    AllocatePageKeeps(vm, c, owner);
    var a := AllocatePage(vm);
    LowestAfter(vm.frames.marks, f);
    assert a.vm.frames.free > 0;
    assert Target(a.vm, c, UserTable(root, PdIndex(page))) == None;
    UserTableIs(a.vm, c, owner, root, page, f + 1);
    AllocateCounts(a.vm);
    hide Inv, AllocatePage, MapUserPage, LookupUser, PdIndex, PtIndex, Target, UserTableFor, GrowsTo, Available;
    o := MapUserPageKeeps(a.vm, c, owner, root, f, page, w, x);
    UserPageTarget(MapUserPage(a.vm, root, f, page, w, x).step.vm, c, root, page);
  }

  lemma LowestAfter(marks: seq<bool>, f: nat)
    requires f + 1 < |marks| && !marks[f + 1] && Lowest(marks, 0) == Some(f)
    ensures Lowest(marks[f := true], 0) == Some(f + 1)
  {
    var after := marks[f := true];
    assert !after[f + 1];
    assert forall g: nat :: g <= f ==> after[g];
  }

  /** A table made on demand is the lowest clear frame, and mapping a page leaves it in place. */
  lemma UserTableIs(vm: Vm, c: Context, owner: map<nat, Slot>, root: nat, page: nat, f: nat)
    requires Inv(vm, c, owner) && root in c.roots && Target(vm, c, UserTable(root, PdIndex(page))) == None
    requires vm.frames.free > 0 && Lowest(vm.frames.marks, 0) == Some(f)
    ensures UserTableFor(vm, root, page).result == Some(f)
    ensures Target(UserTableFor(vm, root, page).vm, c, UserTable(root, PdIndex(page))) == Some(f)
  {
    var _ := UserTableForKeeps(vm, c, owner, root, page);
    assert AllocatePage(vm).result == Some(f);
    assert Target(vm, c, UserDir(root)).Some?;
    hide PdIndex;
  }

  /** The k-th page of the block lies k frames behind the first. */
  predicate Contiguous(vm: Vm, root: nat, page: nat, n: nat, f: nat) {
    forall q: nat :: page <= q < page + n ==> LookupUser(vm, root, q) == Some(f + (q - page))
  }

  predicate ClearAt(marks: seq<bool>, g: nat) {
    g < |marks| && !marks[g]
  }

  predicate ClearFrom(marks: seq<bool>, f: nat, n: nat) {
    forall g: nat :: f <= g < f + n ==> ClearAt(marks, g)
  }

  /** One turn of the loop that maps its page: the page gets the lowest clear frame, and a missing table the next. */
  lemma UserStepFrames(vm: Vm, c: Context, owner: map<nat, Slot>, root: nat, page: nat, w: bool, x: bool)
      returns (o: map<nat, Slot>, low: nat)
    requires Inv(vm, c, owner) && root in c.roots && AllocatePage(vm).result.Some?
    requires MapUserPage(AllocatePage(vm).vm, root, AllocatePage(vm).result.value, page, w, x).Done?
    ensures var m := MapUserPage(AllocatePage(vm).vm, root, AllocatePage(vm).result.value, page, w, x).step;
            && Inv(m.vm, c, o) && Lowest(vm.frames.marks, 0) == Some(low)
            && (m.result.None? ==> LookupUser(m.vm, root, page) == None && Available(m.vm.frames) == 0)
            && (m.result.Some? ==>
                  && LookupUser(m.vm, root, page) == Some(low)
                  && Made(m.vm, c, root) == Made(vm, c, root) + {PdIndex(page)}
                  && var left := vm.frames.marks[low := true];
                     if PdIndex(page) in Made(vm, c, root) then m.vm.frames.marks == left
                     else Lowest(left, 0).Some? && m.vm.frames.marks == left[Lowest(left, 0).value := true])
  {
    low := AllocatePage(vm).result.value;
    AllocatePageKeeps(vm, c, owner);
    var a := AllocatePage(vm);
    assert Target(a.vm, c, UserTable(root, PdIndex(page))) == Target(vm, c, UserTable(root, PdIndex(page)));
    UserTableFrames(a.vm, c, owner, root, page);
    o := UserPageStep(vm, c, owner, root, page, w, x);
    hide Inv, UserTableFor, LookupUser, Target, GrowsTo, PdIndex, PtIndex, SlotsKept, SameKernel;
    var o' := MapUserPageKeeps(a.vm, c, owner, root, low, page, w, x);
    UserPageTarget(MapUserPage(a.vm, root, low, page, w, x).step.vm, c, root, page);
  }

  lemma UserTableFrames(vm: Vm, c: Context, owner: map<nat, Slot>, root: nat, page: nat)
    requires Inv(vm, c, owner) && root in c.roots
    ensures var s := UserTableFor(vm, root, page);
            if Target(vm, c, UserTable(root, PdIndex(page))).Some? || s.result.None? then s.vm.frames == vm.frames
            else Lowest(vm.frames.marks, 0).Some?
                 && s.vm.frames.marks == vm.frames.marks[Lowest(vm.frames.marks, 0).value := true]
  {
    assert Target(vm, c, UserDir(root)).Some?;
    hide PdIndex;
  }

  lemma ContiguousSplit(vm: Vm, root: nat, page: nat, n: nat, f: nat, g: nat)
    requires n > 1 && LookupUser(vm, root, page) == Some(f) && LookupUser(vm, root, page + 1) == Some(g)
    ensures Contiguous(vm, root, page, n, f) <==> g == f + 1 && Contiguous(vm, root, page + 1, n - 1, g)
  {
    hide LookupUser;
    var next := page + 1;
    assert Contiguous(vm, root, page, n, f) ==> LookupUser(vm, root, next) == Some(f + (next - page));
  }

  /** The frames after the lowest clear one, once it is taken. */
  lemma ClearSplit(marks: seq<bool>, n: nat)
    requires n > 1 && Lowest(marks, 0).Some?
    ensures var f := Lowest(marks, 0).value;
            var left := Lowest(marks[f := true], 0);
            && (left.Some? ==> left.value > f)
            && (left.Some? ==> (ClearFrom(marks, f, n) <==>
                                  left.value == f + 1 && ClearFrom(marks[f := true], left.value, n - 1)))
  {
    var f := Lowest(marks, 0).value;
    var left := marks[f := true];
    assert forall g: nat :: g <= f ==> left[g];
    assert ClearFrom(marks, f, n) ==> ClearAt(marks, f + 1) && ClearAt(left, f + 1);
    if Lowest(left, 0) == Some(f + 1) {
      forall g: nat | g > f ensures ClearAt(left, g) <==> ClearAt(marks, g) {
      }
      assert ClearAt(marks, f);
    }
  }

  lemma TwoTaken(marks: seq<bool>)
    requires Lowest(marks, 0).Some?
    requires var left := marks[Lowest(marks, 0).value := true]; Lowest(left, 0).Some?
    ensures var f := Lowest(marks, 0).value;
            var left := marks[f := true];
            var last := Lowest(left[Lowest(left, 0).value := true], 0);
            last.Some? ==> last.value > f + 1
  {
    var left := marks[Lowest(marks, 0).value := true];
    ClearSplit(marks, 2);
    ClearSplit(left, 2);
  }

  /** A block that allocate_user_pages has mapped whole lies in frames that follow one another, the lowest clear one
      first, exactly when all those frames were clear and no page but the last was without its table. */
  lemma {:induction false} UserBlockContiguous(vm: Vm, c: Context, owner: map<nat, Slot>, root: nat, page: nat, n: nat,
                                               w: bool, x: bool)
    requires Inv(vm, c, owner) && root in c.roots && n > 0
    requires AllocateUserPages(vm, root, page, n, w, x).Done?
    requires var s := AllocateUserPages(vm, root, page, n, w, x).step;
             s.result.Some? && UserMapped(s.vm, root, page, n)
    ensures var after, low := AllocateUserPages(vm, root, page, n, w, x).step.vm, Lowest(vm.frames.marks, 0);
            && low.Some? && LookupUser(after, root, page) == low
            && (Contiguous(after, root, page, n, low.value) <==>
                  Needed(page, n - 1, Made(vm, c, root)) == 0 && ClearFrom(vm.frames.marks, low.value, n))
    decreases n
  {
    hide Inv, AllocatePage, MapUserPage, LookupUser, GrowsTo, SlotsKept, SameKernel, Made, PdIndex, Available, Draws,
         UserMapped, Contiguous, ClearFrom, Lowest;
    UserCounts(vm, c, owner);
    var a := AllocatePage(vm);
    var o, low := UserStepFrames(vm, c, owner, root, page, w, x);
    var m := MapUserPage(a.vm, root, a.result.value, page, w, x).step;
    UserCounts(m.vm, c, o);
    if m.result.None? {
      NoFrameFails(m.vm, root, page + 1, n - 1, w, x);
      NotMapped(m.vm, root, page, n);
      assert false;
    }
    var after := AllocateUserPages(m.vm, root, page + 1, n - 1, w, x).step.vm;
    var _ := AllocateUserPagesKeeps(m.vm, c, o, root, page + 1, n - 1, w, x);
    UserLookupKept(c, m.vm, after, root, page);
    if n == 1 {
      OnePageContiguous(vm, after, root, page, low);
    } else {
      UserMappedSplit(c, m.vm, after, root, page, n);
      UserBlockContiguous(m.vm, c, o, root, page + 1, n - 1, w, x);
      var next := Lowest(m.vm.frames.marks, 0).value;
      ContiguousSplit(after, root, page, n, low, next);
      NeededStep(page, n - 1, Made(vm, c, root));
      if PdIndex(page) in Made(vm, c, root) {
        ClearSplit(vm.frames.marks, n);
      } else {
        TwoTaken(vm.frames.marks);
      }
    }
  }

  lemma {:induction false} OnePageContiguous(vm: Vm, after: Vm, root: nat, page: nat, low: nat)
    requires LookupUser(after, root, page) == Some(low) && Lowest(vm.frames.marks, 0) == Some(low)
    ensures Contiguous(after, root, page, 1, low) && ClearFrom(vm.frames.marks, low, 1)
    ensures forall made: set<nat> :: Needed(page, 0, made) == 0
  {
    hide LookupUser;
  }

  // ----- Runs: flags, client writes, and the whole protocol

  /** A write that keeps an entry's presence and frame keeps every mapping. */
  lemma SameLinks(vm: Vm, c: Context, owner: map<nat, Slot>, t: nat, k: nat, e: Entry)
    requires Inv(vm, c, owner) && Mapping(e) == Mapping(EntryAt(vm.mem, t, k))
    ensures Inv(Written(vm, t, k, e), c, owner)
    ensures SameKernel(vm, Written(vm, t, k, e)) && SlotsKept(c, vm, Written(vm, t, k, e))
  {
    var after := Written(vm, t, k, e);
    assert forall f, i :: Linked(after.mem, f, i) == Linked(vm.mem, f, i);
    forall s ensures Target(after, c, s) == Target(vm, c, s) {
    }
    forall q: nat ensures Lookup(after, q) == Lookup(vm, q) {
    }
  }

  lemma UpdateFlagsKeeps(vm: Vm, c: Context, owner: map<nat, Slot>, page: nat, w: bool, x: bool)
      returns (owner': map<nat, Slot>)
    requires Inv(vm, c, owner)
    ensures var u := UpdateKernel(vm, page, (e: Entry) => e.(writeable := w, noExecute := !x));
            && Inv(u.vm, c, owner') && SameKernel(vm, u.vm) && u.vm.next == vm.next
            && GrowsTo(vm, u.vm) && Draws(vm, owner, owner')
  {
    owner' := KernelTableForKeeps(vm, c, owner, page);
    KernelTableForGrows(vm, page);
    var s := KernelTableFor(vm, page);
    if s.result.Some? {
      var t := s.result.value;
      var e := EntryAt(s.vm.mem, t, PtIndex(page)).(writeable := w, noExecute := !x);
      SameLinks(s.vm, c, owner', t, PtIndex(page), e);
      SameKernelTransitive(vm, s.vm, Written(s.vm, t, PtIndex(page), e));
    }
  }

  lemma SameKernelTransitive(a: Vm, b: Vm, d: Vm)
    requires (forall q: nat :: Lookup(b, q) == Lookup(a, q)) && SameKernel(b, d)
    ensures SameKernel(a, d)
  {
  }

  /** set_page_flags changes no mapping, though it may make tables on its way. */
  lemma {:induction false} SetPageFlagsKeeps(vm: Vm, c: Context, owner: map<nat, Slot>, page: nat, n: nat, w: bool,
                                             x: bool)
      returns (owner': map<nat, Slot>)
    requires Inv(vm, c, owner)
    ensures Inv(SetPageFlags(vm, page, n, w, x).vm, c, owner') && Draws(vm, owner, owner')
    ensures SameKernel(vm, SetPageFlags(vm, page, n, w, x).vm) && GrowsTo(vm, SetPageFlags(vm, page, n, w, x).vm)
    ensures SetPageFlags(vm, page, n, w, x).vm.next == vm.next
    decreases n
  {
    hide Inv, UpdateKernel, Lookup;
    owner' := owner;
    if n > 0 {
      owner' := UpdateFlagsKeeps(vm, c, owner, page, w, x);
      var u := UpdateKernel(vm, page, (e: Entry) => e.(writeable := w, noExecute := !x));
      if u.result.Some? {
        var o := owner';
        owner' := SetPageFlagsKeeps(u.vm, c, o, page + 1, n - 1, w, x);
        DrawsTransitive(vm, u.vm, owner, o, owner');
      }
    }
  }

  /** Some page of page..page+n shares its entry with `q`. */
  predicate Reaches(page: nat, n: nat, q: nat)
    decreases n
  {
    n > 0 && (q % WINDOW == page % WINDOW || Reaches(page + 1, n - 1, q))
  }

  /** How many pages set_page_flags gets through before it lacks a frame for a table. */
  function FlagsSet(vm: Vm, page: nat, n: nat, w: bool, x: bool): (k: nat)
    ensures k <= n && (k == n <==> SetPageFlags(vm, page, n, w, x).result.Some?)
    decreases n
  {
    if n == 0 then 0
    else
      var u := UpdateKernel(vm, page, (e: Entry) => e.(writeable := w, noExecute := !x));
      if u.result.None? then 0 else 1 + FlagsSet(u.vm, page + 1, n - 1, w, x)
  }

  /** The entry is writeable and executable as asked for, and else as it was. */
  predicate Flagged(e: Entry, was: Entry, w: bool, x: bool) {
    && (e.writeable <==> w) && (e.noExecute <==> !x)
    && e.present == was.present && e.user == was.user && e.frame == was.frame
  }

  /** The pages it gets through, all n exactly when it succeeds, have the flags asked for, and otherwise their entries
      as before; every other page keeps its whole entry. */
  lemma {:induction false} SetPageFlagsSets(vm: Vm, page: nat, n: nat, w: bool, x: bool)
    requires TablesApart(vm)
    ensures var s, k := SetPageFlags(vm, page, n, w, x), FlagsSet(vm, page, n, w, x);
            && TablesApart(s.vm)
            && (s.result.Some? <==> k == n)
            && forall q: nat ::
                 if Reaches(page, k, q) then Flagged(EntryOf(s.vm, q), EntryOf(vm, q), w, x)
                 else EntryOf(s.vm, q) == EntryOf(vm, q)
    decreases n
  {
    hide TablesApart, UpdateKernel, EntryOf;
    if n > 0 {
      UpdateKernelEntry(vm, page, (e: Entry) => e.(writeable := w, noExecute := !x));
      var u := UpdateKernel(vm, page, (e: Entry) => e.(writeable := w, noExecute := !x));
      if u.result.Some? {
        SetPageFlagsSets(u.vm, page + 1, n - 1, w, x);
      }
    }
  }

  /** What clients do with the memory manager, and to the pages they hold. */
  datatype Call =
    | GetHeapPage
    | GetHeapPages(n: nat)
    | FreeHeap(address: nat)
    | NewDirectory
    | GetUserPages(root: nat, page: nat, n: nat, write: bool, execute: bool)
    | SetFlags(page: nat, n: nat, write: bool, execute: bool)
    | ClientWrite(slot: Slot, k: nat, e: Entry)

  /** Frees name heap pages, user calls name a directory handed out before, and clients write only into pages they have
      been given. */
  ghost predicate Sensible(vm: Vm, c: Context, call: Call) {
    match call
    case FreeHeap(address) => c.heap <= address / PAGE < vm.next
    case GetUserPages(root, _, _, _, _) => root in c.roots
    case ClientWrite(slot, k, _) => (slot.HeapPage? || slot.UserPage?) && Target(vm, c, slot).Some? && k < ENTRIES
    case _ => true
  }

  /** The heap grows no further than its window. */
  ghost predicate StaysInside(vm: Vm, c: Context, call: Call) {
    match call
    case GetHeapPage => AllocateHeapPage(vm).vm.next <= c.window + WINDOW
    case GetHeapPages(n) => AllocateHeapPages(vm, n).vm.next <= c.window + WINDOW
    case _ => true
  }

  /** A sensible call that keeps the heap inside its window and gives back no frame in other use. */
  ghost predicate Legal(vm: Vm, c: Context, call: Call) {
    Sensible(vm, c, call) && StaysInside(vm, c, call) && (call.FreeHeap? ==> FreesOwn(vm, c, call.address))
  }

  /** The state after a call that comes back; None when the call stops the kernel. */
  ghost function Perform(vm: Vm, c: Context, call: Call): Option<(Vm, Context)>
    requires Sensible(vm, c, call)
  {
    match call
    case GetHeapPage => Some((AllocateHeapPage(vm).vm, c))
    case GetHeapPages(n) => Some((AllocateHeapPages(vm, n).vm, c))
    case FreeHeap(address) =>
      (match FreeHeapPage(vm, address)
       case Stopped => None
       case Done(s) => Some((s.vm, c)))
    case NewDirectory =>
      var s := CreateUserDirectory(vm);
      Some((s.vm, c.(roots := if s.result.Some? then c.roots + {s.result.value} else c.roots)))
    case GetUserPages(root, page, n, w, x) =>
      (match AllocateUserPages(vm, root, page, n, w, x)
       case Stopped => None
       case Done(s) => Some((s.vm, c)))
    case SetFlags(page, n, w, x) => Some((SetPageFlags(vm, page, n, w, x).vm, c))
    case ClientWrite(slot, k, e) => Some((Written(vm, Target(vm, c, slot).value, k, e), c))
  }

  lemma ClientWriteKeeps(vm: Vm, c: Context, owner: map<nat, Slot>, slot: Slot, k: nat, e: Entry)
    requires Inv(vm, c, owner) && Legal(vm, c, ClientWrite(slot, k, e))
    ensures Inv(Written(vm, Target(vm, c, slot).value, k, e), c, owner)
    ensures SameKernel(vm, Written(vm, Target(vm, c, slot).value, k, e))
  {
    var f := Target(vm, c, slot).value;
    var after := Written(vm, f, k, e);
    forall s ensures Target(after, c, s) == Target(vm, c, s) {
      WriteKeepsTarget(vm, c, owner, f, k, e, s);
    }
    forall q: nat ensures Lookup(after, q) == Lookup(vm, q) {
      WriteKeepsLookup(vm, c, owner, f, k, e, q);
    }
  }

  /** Pages mapped by the boot loader, in the window below the heap, are mapped alike. */
  ghost predicate SameBoot(c: Context, vm: Vm, after: Vm) {
    forall q: nat :: c.window <= q < c.heap ==> Lookup(after, q) == Lookup(vm, q)
  }

  lemma AlikeIsSameBoot(c: Context, vm: Vm, after: Vm, lo: nat, hi: nat)
    requires AlikeOutside(c, vm, after, lo, hi) && c.heap <= lo && c.heap <= c.window + WINDOW
    ensures SameBoot(c, vm, after)
  {
  }

  /** One call that comes back keeps the invariant and what the boot loader mapped, and gives out only frames that were
      free. */
  lemma PerformKeeps(vm: Vm, c: Context, owner: map<nat, Slot>, call: Call) returns (owner': map<nat, Slot>)
    requires Inv(vm, c, owner) && Legal(vm, c, call) && Perform(vm, c, call).Some?
    ensures var (after, c') := Perform(vm, c, call).value;
            && Inv(after, c', owner')
            && Draws(vm, owner, owner')
            && SameBoot(c, vm, after)
            && c' == c.(roots := c'.roots)
  {
    hide Inv, AllocateHeapPage, AllocateHeapPages, CreateUserDirectory, AllocateUserPages, SetPageFlags, AlikeOutside,
         Lookup, FreeHeapPage, Target;
    HeapInside(vm, c, owner);
    owner' := owner;
    match call
    case GetHeapPage =>
      owner' := AllocateHeapPageKeeps(vm, c, owner);
      AlikeIsSameBoot(c, vm, AllocateHeapPage(vm).vm, vm.next, vm.next + 1);
    case GetHeapPages(n) =>
      owner' := AllocateHeapPagesKeeps(vm, c, owner, n);
      AlikeIsSameBoot(c, vm, AllocateHeapPages(vm, n).vm, vm.next, vm.next + n);
    case FreeHeap(address) =>
      owner' := FreeKeepsExactly(vm, c, owner, address);
      AlikeIsSameBoot(c, vm, FreeHeapPage(vm, address).step.vm, address / PAGE, address / PAGE + 1);
    case NewDirectory =>
      var c';
      c', owner' := CreateUserDirectoryKeeps(vm, c, owner);
    case GetUserPages(root, page, n, w, x) => owner' := AllocateUserPagesKeeps(vm, c, owner, root, page, n, w, x);
    case SetFlags(page, n, w, x) => owner' := SetPageFlagsKeeps(vm, c, owner, page, n, w, x);
    case ClientWrite(slot, k, e) => ClientWriteKeeps(vm, c, owner, slot, k, e);
  }

  lemma HeapInside(vm: Vm, c: Context, owner: map<nat, Slot>)
    requires Inv(vm, c, owner)
    ensures c.heap <= vm.next && c.heap <= c.window + WINDOW
  {
  }

  /** No frame serves two purposes: every slot's frame is allocated, and two slots never share one. */
  ghost predicate NoAliasing(vm: Vm, c: Context) {
    && (forall s :: Target(vm, c, s).Some? ==> Taken(vm, Target(vm, c, s).value))
    && (forall s, t :: s != t && Target(vm, c, s).Some? ==> Target(vm, c, s) != Target(vm, c, t))
  }

  lemma InvNoAliasing(vm: Vm, c: Context, owner: map<nat, Slot>)
    requires Inv(vm, c, owner)
    ensures NoAliasing(vm, c)
  {
  }

  ghost predicate Run(states: seq<(Vm, Context)>, calls: seq<Call>) {
    && |states| == |calls| + 1
    && forall i :: 0 <= i < |calls| ==>
         && Legal(states[i].0, states[i].1, calls[i])
         && Perform(states[i].0, states[i].1, calls[i]) == Some(states[i + 1])
  }

  /** In every run, from whatever the boot loader left mapped, no frame serves two purposes. */
  lemma RunNeverAliases(states: seq<(Vm, Context)>, calls: seq<Call>, i: nat)
    requires Run(states, calls) && i < |states|
    requires Sound(states[0].0, states[0].1)
    ensures Sound(states[i].0, states[i].1) && NoAliasing(states[i].0, states[i].1)
  {
    RunIsSound(states, calls, i);
    var owner :| Inv(states[i].0, states[i].1, owner);
    InvNoAliasing(states[i].0, states[i].1, owner);
  }

  lemma {:induction false} RunIsSound(states: seq<(Vm, Context)>, calls: seq<Call>, i: nat)
    requires Run(states, calls) && i < |states|
    requires Sound(states[0].0, states[0].1)
    ensures Sound(states[i].0, states[i].1)
  {
    if i > 0 {
      RunIsSound(states, calls, i - 1);
      var (vm, c) := states[i - 1];
      var owner :| Inv(vm, c, owner);
      assert Perform(vm, c, calls[i - 1]) == Some(states[i]);
      hide Inv, Perform, Legal;
      var owner' := PerformKeeps(vm, c, owner, calls[i - 1]);
      assert Inv(states[i].0, states[i].1, owner');
    }
  }

  /** Where runs start: after boot, with no user directory and no heap page, the tables apart and reserved. */
  lemma BootIsSound(vm: Vm, heap: nat, window: nat, boot: set<nat>)
    requires TablesApart(vm) && vm.next == heap
    requires window % WINDOW == 0 && window <= heap <= window + WINDOW
    requires forall page: nat :: heap <= page < window + WINDOW ==> Lookup(vm, page) == None
    requires forall f :: f in boot && f < |vm.frames.marks| ==> Taken(vm, f)
    ensures Sound(vm, Context(heap, window, {}, boot))
  {
    var c := Context(heap, window, {}, boot);
    var tables := map i: nat | 0 <= i < ENTRIES && Linked(vm.mem, vm.kdir, i).Some? :: Linked(vm.mem, vm.kdir, i).value;
    var owner := map f: nat | f in tables.Values + {vm.kdir} ::
      if f == vm.kdir then KernelDir else var i :| i in tables && tables[i] == f; KernelTable(i);
    forall s | Target(vm, c, s).Some?
      ensures Target(vm, c, s).value in owner && owner[Target(vm, c, s).value] == s
    {
      if s.KernelTable? {
        assert s.i in tables;
        assert tables[s.i] == Target(vm, c, s).value;
      }
    }
    assert Inv(vm, c, owner);
  }

  /** From initialisation on: where every frame of the kernel's tables is among those init marks, runs may start,
      however many of them it marks twice and whatever the boot mappings show. */
  lemma {:induction false} BootMarksSuffice(vm: Vm, s: Frames, fs: seq<nat>, heap: nat, window: nat)
    requires s.free < U64 && vm.frames == MarkAll(s, fs)
    requires |s.marks| <= |vm.mem| <= PDE_FRAMES && vm.kdir < |s.marks| && vm.kdir in fs
    requires forall i :: Linked(vm.mem, vm.kdir, i).Some? ==>
               Linked(vm.mem, vm.kdir, i).value in fs && Linked(vm.mem, vm.kdir, i).value < |s.marks|
    requires forall i :: Linked(vm.mem, vm.kdir, i).Some? ==> Linked(vm.mem, vm.kdir, i).value != vm.kdir
    requires forall i, k :: i != k && Linked(vm.mem, vm.kdir, i).Some? ==>
               Linked(vm.mem, vm.kdir, i) != Linked(vm.mem, vm.kdir, k)
    requires vm.next == heap && window % WINDOW == 0 && window <= heap <= window + WINDOW
    requires forall page: nat :: heap <= page < window + WINDOW ==> Lookup(vm, page) == None
    ensures Sound(vm, Context(heap, window, {}, set f | f in fs))
  {
    hide Lookup, Linked, MarkAll;
    MarkAllSizes(s, fs);
    MarkAllWord(s, fs);
    forall f: nat | f in fs && f < |s.marks| ensures Taken(vm, f) {
      MarkAllMarks(s, fs, f);
    }
    BootIsSound(vm, heap, window, set f | f in fs);
  }

  lemma {:induction false} MarkAllWord(s: Frames, fs: seq<nat>)
    requires s.free < U64
    ensures MarkAll(s, fs).free < U64
  {
  }

  // ----- What calls do to the frame allocator

  /** Allocating a frame keeps `p`. */
  ghost predicate Closed(p: Frames -> bool) {
    forall s :: p(s) ==> p(AllocateFrame(s).state)
  }

  /** All calls but frees only allocate: they keep whatever an allocation keeps. */
  lemma PerformAllocates(vm: Vm, c: Context, call: Call, p: Frames -> bool)
    requires Sensible(vm, c, call) && Perform(vm, c, call).Some? && !call.FreeHeap?
    requires Closed(p) && p(vm.frames)
    ensures p(Perform(vm, c, call).value.0.frames)
  {
    hide AllocateFrame, MapKernel, AllocatePage, MapUserPage, UpdateKernel, Closed, WriteEntry;
    match call
    case GetHeapPage =>
      StepAllocates(vm, 0, 0, e => e, p);
      var a := AllocatePage(vm);
      if a.result.Some? {
        StepAllocates(TakePages(a.vm, 1).vm, a.result.value, vm.next, e => e, p);
        StepKeepsNext(vm, 0, 0);
      }
    case GetHeapPages(n) => BackPagesAllocates(TakePages(vm, n).vm, vm.next, 0, n, p);
    case NewDirectory =>
      StepAllocates(vm, 0, 0, e => e, p);
      StepAllocates(AllocatePage(vm).vm, 0, 0, e => e, p);
    case GetUserPages(root, page, n, w, x) => UserPagesAllocates(vm, root, page, n, w, x, p);
    case SetFlags(page, n, w, x) => FlagsAllocates(vm, page, n, w, x, p);
    case ClientWrite(_, _, _) =>
  }

  lemma StepAllocates(vm: Vm, frame: nat, page: nat, change: Entry -> Entry, p: Frames -> bool)
    requires Closed(p) && p(vm.frames)
    ensures p(AllocatePage(vm).vm.frames)
    ensures p(UpdateKernel(vm, page, change).vm.frames)
    ensures p(MapKernel(vm, frame, page).vm.frames)
  {
    hide WriteEntry, EntryAt, PdIndex, PtIndex, AllocateFrame;
    assert p(AllocateFrame(vm.frames).state);
  }

  lemma UserStepAllocates(vm: Vm, root: nat, frame: nat, page: nat, w: bool, x: bool, p: Frames -> bool)
    requires MapUserPage(vm, root, frame, page, w, x).Done? && Closed(p) && p(vm.frames)
    ensures p(MapUserPage(vm, root, frame, page, w, x).step.vm.frames)
  {
    hide WriteEntry, EntryAt, PdIndex, PtIndex, AllocateFrame;
    assert p(AllocateFrame(vm.frames).state);
  }

  lemma {:induction false} BackPagesAllocates(vm: Vm, first: nat, i: nat, n: nat, p: Frames -> bool)
    requires Closed(p) && p(vm.frames)
    ensures p(BackPages(vm, first, i, n).vm.frames)
    decreases n - i
  {
    hide AllocatePage, MapKernel, Closed;
    StepAllocates(vm, 0, 0, e => e, p);
    if i < n {
      var a := AllocatePage(vm);
      if a.result.Some? {
        StepAllocates(a.vm, a.result.value, first + i, e => e, p);
        BackPagesAllocates(MapKernel(a.vm, a.result.value, first + i).vm, first, i + 1, n, p);
      }
    }
  }

  lemma {:induction false} UserPagesAllocates(vm: Vm, root: nat, page: nat, n: nat, w: bool, x: bool,
                                              p: Frames -> bool)
    requires AllocateUserPages(vm, root, page, n, w, x).Done? && Closed(p) && p(vm.frames)
    ensures p(AllocateUserPages(vm, root, page, n, w, x).step.vm.frames)
    decreases n
  {
    hide AllocatePage, MapUserPage, Closed;
    StepAllocates(vm, 0, 0, e => e, p);
    if n > 0 && AllocatePage(vm).result.Some? {
      var a := AllocatePage(vm);
      UserStepAllocates(a.vm, root, a.result.value, page, w, x, p);
      UserPagesAllocates(MapUserPage(a.vm, root, a.result.value, page, w, x).step.vm, root, page + 1, n - 1, w, x, p);
    }
  }

  lemma {:induction false} FlagsAllocates(vm: Vm, page: nat, n: nat, w: bool, x: bool, p: Frames -> bool)
    requires Closed(p) && p(vm.frames)
    ensures p(SetPageFlags(vm, page, n, w, x).vm.frames)
    decreases n
  {
    hide UpdateKernel, Closed;
    if n > 0 {
      StepAllocates(vm, 0, page, (e: Entry) => e.(writeable := w, noExecute := !x), p);
      var u := UpdateKernel(vm, page, (e: Entry) => e.(writeable := w, noExecute := !x));
      if u.result.Some? {
        FlagsAllocates(u.vm, page + 1, n - 1, w, x, p);
      }
    }
  }

  // ----- Machines whose every frame lies below 2 GiB

  /** Every page table lies below 2 GiB, so a free of a heap page gives back that page's own frame. */
  lemma LowMachineFreesOwn(vm: Vm, c: Context, owner: map<nat, Slot>, address: nat)
    requires Inv(vm, c, owner) && |vm.frames.marks| <= LOW_FRAMES && c.heap <= address / PAGE < vm.next
    ensures FreesOwn(vm, c, address)
  {
    var page := address / PAGE;
    AncestorsOwned(vm, c, owner, HeapPage(page));
    if Linked(vm.mem, vm.kdir, PdIndex(page)).Some? {
      LowTableFreesOwn(vm, c, owner, address);
    }
  }

  /** Each step of the run is a sensible call that stays in the window; nothing is asked of frees. */
  ghost predicate SensibleRun(states: seq<(Vm, Context)>, calls: seq<Call>) {
    && |states| == |calls| + 1
    && forall i :: 0 <= i < |calls| ==>
         && Sensible(states[i].0, states[i].1, calls[i])
         && StaysInside(states[i].0, states[i].1, calls[i])
         && Perform(states[i].0, states[i].1, calls[i]) == Some(states[i + 1])
  }

  lemma PerformKeepsSize(vm: Vm, c: Context, call: Call)
    requires Sensible(vm, c, call) && Perform(vm, c, call).Some?
    ensures |Perform(vm, c, call).value.0.frames.marks| == |vm.frames.marks|
  {
    if !call.FreeHeap? {
      PerformAllocates(vm, c, call, (s: Frames) => |s.marks| == |vm.frames.marks|);
    }
  }

  /** On such a machine no run of sensible calls that keeps the heap inside its window ever aliases, whatever it
      frees. */
  lemma {:induction false} LowRunNeverAliases(states: seq<(Vm, Context)>, calls: seq<Call>, i: nat)
    requires SensibleRun(states, calls) && i < |states|
    requires Sound(states[0].0, states[0].1) && |states[0].0.frames.marks| <= LOW_FRAMES
    ensures Sound(states[i].0, states[i].1) && NoAliasing(states[i].0, states[i].1)
    ensures |states[i].0.frames.marks| == |states[0].0.frames.marks|
  {
    hide Inv, Perform, Sensible, StaysInside, NoAliasing, FreesOwn;
    if i > 0 {
      LowRunNeverAliases(states, calls, i - 1);
      var (vm, c) := states[i - 1];
      var call := calls[i - 1];
      var owner :| Inv(vm, c, owner);
      assert Sensible(vm, c, call) && StaysInside(vm, c, call) && Perform(vm, c, call) == Some(states[i]);
      PerformKeepsSize(vm, c, call);
      LowMachineLegal(vm, c, owner, call);
      var owner' := PerformKeeps(vm, c, owner, call);
    }
    var owner :| Inv(states[i].0, states[i].1, owner);
    InvNoAliasing(states[i].0, states[i].1, owner);
  }

  lemma LowMachineLegal(vm: Vm, c: Context, owner: map<nat, Slot>, call: Call)
    requires Inv(vm, c, owner) && |vm.frames.marks| <= LOW_FRAMES && Sensible(vm, c, call) && StaysInside(vm, c, call)
    ensures Legal(vm, c, call)
  {
    hide Inv, FreesOwn, StaysInside;
    if call.FreeHeap? {
      LowMachineFreesOwn(vm, c, owner, call.address);
    }
  }

  // ----- The end of the window

  /** One more heap page keeps every mapping of the window exactly while the window has room, or where the page a window
      below the new one, then the first of the window, is not mapped or shows the very frame that is handed out. */
  lemma HeapPageKeepsWindow(vm: Vm, c: Context, owner: map<nat, Slot>)
    requires Inv(vm, c, owner) && AllocateHeapPage(vm).result.Some?
    ensures (forall q: nat :: c.window <= q < vm.next && Lookup(vm, q).Some? ==>
               Lookup(AllocateHeapPage(vm).vm, q) == Lookup(vm, q))
       <==> || vm.next < c.window + WINDOW
            || Lookup(vm, c.window) == None
            || Lookup(vm, c.window) == AllocatePage(vm).result
    ensures vm.next == c.window + WINDOW ==>
              Lookup(AllocateHeapPage(vm).vm, c.window) == Lookup(AllocateHeapPage(vm).vm, vm.next)
              && Lookup(AllocateHeapPage(vm).vm, vm.next).Some?
  {
    AllocatePageKeeps(vm, c, owner);
    var a := AllocatePage(vm);
    var f, page := a.result.value, vm.next;
    OwnedTablesApart(a.vm, c, owner);
    var t := TakePages(a.vm, 1).vm;
    hide Inv, Lookup, AllocatePage, MapKernel;
    SameTables(a.vm, t);
    MapKernelLookup(t, f, page);
    forall q: nat | c.window <= q < vm.next
      ensures q % WINDOW == page % WINDOW <==> vm.next == c.window + WINDOW && q == c.window
    {
      WindowEnd(vm, c, owner, q);
    }
    if vm.next == c.window + WINDOW {
      WindowEnd(vm, c, owner, c.window);
    }
    WindowBound(vm, c, owner);
  }

  lemma SameTables(vm: Vm, t: Vm)
    requires TablesApart(vm) && t == vm.(next := t.next, left := t.left)
    ensures TablesApart(t) && forall q: nat :: Lookup(t, q) == Lookup(vm, q)
  {
  }

  lemma WindowBound(vm: Vm, c: Context, owner: map<nat, Slot>)
    requires Inv(vm, c, owner)
    ensures c.window <= vm.next <= c.window + WINDOW
  {
  }

  lemma WindowEnd(vm: Vm, c: Context, owner: map<nat, Slot>, q: nat)
    requires Inv(vm, c, owner) && c.window <= q < vm.next
    ensures q % WINDOW == vm.next % WINDOW <==> vm.next == c.window + WINDOW && q == c.window
  {
    if vm.next < c.window + WINDOW {
      SameWindow(c.window, q, vm.next);
    } else {
      SameWindow(c.window, q, c.window);
    }
  }
}
