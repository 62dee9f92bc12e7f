/** What the boot loader left mapped below the kernel heap, the framebuffer among it, and the frames the memory manager
    hands out. */
module BootMappings {
  import opened Arithmetic
  import opened Wrappers
  import opened PageTables
  import FrameBitmap

  type Frames = FrameBitmap.Frames

  /** A boot mapping shows the frame. */
  ghost predicate Shown(vm: Vm, c: Context, f: nat) {
    exists q: nat :: c.window <= q < c.heap && Lookup(vm, q) == Some(f)
  }

  predicate Clear(vm: Vm, f: nat) {
    f < |vm.frames.marks| && !vm.frames.marks[f]
  }

  /** A table the boot loader made. */
  predicate BootTable(c: Context, s: Slot, f: nat) {
    (s.KernelDir? || s.KernelTable?) && f in c.boot
  }

  /** A boot mapping shows a page handed out since boot, or a table made since. */
  ghost predicate Exposed(vm: Vm, c: Context) {
    exists s ::
      Target(vm, c, s).Some? && !BootTable(c, s, Target(vm, c, s).value) && Shown(vm, c, Target(vm, c, s).value)
  }

  /** The call takes into use a clear frame that a boot mapping shows. */
  ghost predicate TakesShown(vm: Vm, c: Context, call: Call) {
    && Sensible(vm, c, call) && Perform(vm, c, call).Some?
    && var (after, c') := Perform(vm, c, call).value;
       exists s ::
         Target(after, c', s).Some? && Clear(vm, Target(after, c', s).value)
         && Shown(vm, c, Target(after, c', s).value)
  }

  /** What boot mappings show is reserved or out of the allocator's sight. */
  ghost predicate ShowsReserved(vm: Vm, c: Context) {
    forall f: nat :: Shown(vm, c, f) ==> f in c.boot || f >= |vm.frames.marks|
  }

  // ----- One call

  /** An owner map with no frame that nothing refers to. */
  lemma Exactly(vm: Vm, c: Context, owner: map<nat, Slot>) returns (exact: map<nat, Slot>)
    requires Inv(vm, c, owner)
    ensures Inv(vm, c, exact) && forall f :: f in exact ==> Target(vm, c, exact[f]) == Some(f)
  {
    exact := map f | f in owner && Target(vm, c, owner[f]) == Some(f) :: owner[f];
  }

  /** After a call that comes back, each slot refers to the frame it referred to before, or to one that was free. */
  lemma PerformDraws(vm: Vm, c: Context, call: Call)
    requires Sound(vm, c) && Legal(vm, c, call) && Perform(vm, c, call).Some?
    ensures var (after, c') := Perform(vm, c, call).value;
            && Sound(after, c') && SameBoot(c, vm, after) && c' == c.(roots := c'.roots)
            && forall s :: Target(after, c', s).Some? ==>
                 Target(after, c', s) == Target(vm, c, s) || Clear(vm, Target(after, c', s).value)
  {
    hide Perform, FreesOwn, StaysInside, Target, Inv;
    var owner :| Inv(vm, c, owner);
    var exact := Exactly(vm, c, owner);
    var owner' := PerformKeeps(vm, c, exact, call);
    PerformKeepsSize(vm, c, call);
    var (after, c') := Perform(vm, c, call).value;
    forall s | Target(after, c', s).Some?
      ensures Target(after, c', s) == Target(vm, c, s) || Clear(vm, Target(after, c', s).value)
    {
      InvOwns(after, c', owner', s);
    }
  }

  lemma InvOwns(vm: Vm, c: Context, owner: map<nat, Slot>, s: Slot)
    requires Inv(vm, c, owner) && Target(vm, c, s).Some?
    ensures var f := Target(vm, c, s).value;
            f in owner && owner[f] == s && Taken(vm, f) && (f in c.boot ==> BootTable(c, s, f))
  {
  }

  lemma SameShown(vm: Vm, after: Vm, c: Context, c': Context)
    requires SameBoot(c, vm, after) && c' == c.(roots := c'.roots)
    ensures forall f: nat :: Shown(after, c', f) <==> Shown(vm, c, f)
  {
    forall f: nat ensures Shown(after, c', f) <==> Shown(vm, c, f) {
      if Shown(vm, c, f) {
        var q: nat :| c.window <= q < c.heap && Lookup(vm, q) == Some(f);
        assert Lookup(after, q) == Some(f);
      }
    }
  }

  lemma ClearNotBoot(vm: Vm, c: Context, f: nat)
    requires Sound(vm, c) && Clear(vm, f)
    ensures f !in c.boot && !Taken(vm, f)
  {
  }

  /** A call exposes a frame exactly when it takes into use a clear frame that a boot mapping shows. */
  lemma CallExposes(vm: Vm, c: Context, call: Call)
    requires Sound(vm, c) && Legal(vm, c, call) && Perform(vm, c, call).Some? && !Exposed(vm, c)
    ensures Exposed(Perform(vm, c, call).value.0, Perform(vm, c, call).value.1) <==> TakesShown(vm, c, call)
  {
    var (after, c') := Perform(vm, c, call).value;
    PerformDraws(vm, c, call);
    SameShown(vm, after, c, c');
    hide Perform, FreesOwn, StaysInside, Target, Inv, Shown;
    if TakesShown(vm, c, call) {
      var s :| Target(after, c', s).Some? && Clear(vm, Target(after, c', s).value)
               && Shown(vm, c, Target(after, c', s).value);
      ClearNotBoot(vm, c, Target(after, c', s).value);
    }
    if Exposed(after, c') {
      var s :| Target(after, c', s).Some? && !BootTable(c', s, Target(after, c', s).value)
               && Shown(after, c', Target(after, c', s).value);
      assert !Exposed(vm, c);
    }
  }

  /** Where boot mappings show reserved frames only, no call exposes any. */
  lemma ReservedStays(vm: Vm, c: Context, call: Call)
    requires Sound(vm, c) && Legal(vm, c, call) && Perform(vm, c, call).Some? && ShowsReserved(vm, c)
    ensures !Exposed(vm, c)
    ensures ShowsReserved(Perform(vm, c, call).value.0, Perform(vm, c, call).value.1) && !TakesShown(vm, c, call)
  {
    ReservedHidden(vm, c);
    var (after, c') := Perform(vm, c, call).value;
    PerformDraws(vm, c, call);
    PerformKeepsSize(vm, c, call);
    SameShown(vm, after, c, c');
    ReservedHidden(after, c');
    CallExposes(vm, c, call);
  }

  lemma ReservedHidden(vm: Vm, c: Context)
    requires Sound(vm, c) && ShowsReserved(vm, c)
    ensures !Exposed(vm, c)
  {
    hide Target, Shown, Inv;
    var owner :| Inv(vm, c, owner);
    forall s | Target(vm, c, s).Some? && Shown(vm, c, Target(vm, c, s).value)
      ensures BootTable(c, s, Target(vm, c, s).value)
    {
      InvOwns(vm, c, owner, s);
    }
  }

  /** One heap page: it gets the lowest clear frame, so it shares its frame with a boot mapping exactly when a boot
      mapping shows that frame. */
  lemma HeapPageShown(vm: Vm, c: Context, owner: map<nat, Slot>)
    requires Inv(vm, c, owner) && AllocateHeapPage(vm).vm.next <= c.window + WINDOW
    requires AllocateHeapPage(vm).result.Some?
    ensures var after, low := AllocateHeapPage(vm).vm, FrameBitmap.Lowest(vm.frames.marks, 0);
            && low.Some? && Lookup(after, vm.next) == low
            && ((exists q: nat :: c.window <= q < c.heap && Lookup(after, q) == Lookup(after, vm.next))
                <==> Shown(vm, c, low.value))
  {
    AllocatePageKeeps(vm, c, owner);
    var a := AllocatePage(vm);
    OwnedTablesApart(a.vm, c, owner);
    var t := TakePages(a.vm, 1).vm;
    HeapInside(vm, c, owner);
    var _ := AllocateHeapPageKeeps(vm, c, owner);
    var after := AllocateHeapPage(vm).vm;
    AlikeIsSameBoot(c, vm, after, vm.next, vm.next + 1);
    SameShown(vm, after, c, c);
    hide Inv, Lookup, MapKernel;
    SameTables(a.vm, t);
    MapKernelLookup(t, a.result.value, vm.next);
  }

  // ----- Runs

  lemma RunStep(states: seq<(Vm, Context)>, calls: seq<Call>, i: nat)
    requires Run(states, calls) && i < |calls|
    ensures Legal(states[i].0, states[i].1, calls[i])
    ensures Perform(states[i].0, states[i].1, calls[i]) == Some(states[i + 1])
  {
  }

  /** A run that starts with nothing exposed stays so exactly while no call takes into use a clear frame that a boot
      mapping shows. */
  lemma RunExposes(states: seq<(Vm, Context)>, calls: seq<Call>)
    requires Run(states, calls) && Sound(states[0].0, states[0].1) && !Exposed(states[0].0, states[0].1)
    ensures (forall i :: 0 <= i < |states| ==> !Exposed(states[i].0, states[i].1))
       <==> forall i :: 0 <= i < |calls| ==> !TakesShown(states[i].0, states[i].1, calls[i])
  {
    hide Perform, FreesOwn, StaysInside, Sensible, Exposed, TakesShown;
    forall i | 0 <= i < |calls| && !Exposed(states[i].0, states[i].1)
      ensures Exposed(states[i + 1].0, states[i + 1].1) <==> TakesShown(states[i].0, states[i].1, calls[i])
    {
      RunIsSound(states, calls, i);
      RunStep(states, calls, i);
      CallExposes(states[i].0, states[i].1, calls[i]);
    }
    if forall i :: 0 <= i < |calls| ==> !TakesShown(states[i].0, states[i].1, calls[i]) {
      forall i | 0 <= i < |states| ensures !Exposed(states[i].0, states[i].1) {
        StaysHidden(states, calls, i);
      }
    }
    if forall i :: 0 <= i < |states| ==> !Exposed(states[i].0, states[i].1) {
      forall i | 0 <= i < |calls| ensures !TakesShown(states[i].0, states[i].1, calls[i]) {
        assert !Exposed(states[i].0, states[i].1) && !Exposed(states[i + 1].0, states[i + 1].1);
      }
    }
  }

  lemma {:induction false} StaysHidden(states: seq<(Vm, Context)>, calls: seq<Call>, i: nat)
    requires Run(states, calls) && Sound(states[0].0, states[0].1) && !Exposed(states[0].0, states[0].1)
    requires i < |states| && forall j :: 0 <= j < |calls| ==> !TakesShown(states[j].0, states[j].1, calls[j])
    ensures !Exposed(states[i].0, states[i].1)
  {
    hide Perform, FreesOwn, StaysInside, Sensible, Exposed, TakesShown;
    if i > 0 {
      StaysHidden(states, calls, i - 1);
      RunIsSound(states, calls, i - 1);
      RunStep(states, calls, i - 1);
      CallExposes(states[i - 1].0, states[i - 1].1, calls[i - 1]);
    }
  }

  /** Where boot mappings show reserved frames only, no run exposes any. */
  lemma {:induction false} RunStaysReserved(states: seq<(Vm, Context)>, calls: seq<Call>, i: nat)
    requires Run(states, calls) && Sound(states[0].0, states[0].1) && ShowsReserved(states[0].0, states[0].1)
    requires i < |states|
    ensures Sound(states[i].0, states[i].1) && ShowsReserved(states[i].0, states[i].1)
    ensures !Exposed(states[i].0, states[i].1)
  {
    hide Perform, FreesOwn, StaysInside, Sensible, Exposed, TakesShown, ShowsReserved, Sound;
    if i > 0 {
      RunStaysReserved(states, calls, i - 1);
      RunStep(states, calls, i - 1);
      ReservedStays(states[i - 1].0, states[i - 1].1, calls[i - 1]);
      RunIsSound(states, calls, i);
    }
    ReservedHidden(states[i].0, states[i].1);
  }

  // ----- Which frames a run can come to

  /** Fewer frames were clear before the frame than were counted free. */
  predicate InReach(s: Frames, f: nat) {
    f < |s.marks| && FrameBitmap.CountClear(s.marks[..f]) < s.free
  }

  /** Where runs come to that give back no frame marked in `s0`: the count has fallen as the clear frames have, and the
      frames taken were in reach. */
  ghost predicate Reached(s0: Frames, s: Frames) {
    && s0.free < U64
    && |s.marks| == |s0.marks|
    && (forall f: nat :: f < |s.marks| && s0.marks[f] ==> s.marks[f])
    && s.free - FrameBitmap.CountClear(s.marks) == s0.free - FrameBitmap.CountClear(s0.marks)
    && (forall f: nat :: f < |s.marks| && s.marks[f] && !s0.marks[f] ==> InReach(s0, f))
  }

  lemma CountsLess(s0: Frames, s: Frames)
    requires Reached(s0, s)
    ensures FrameBitmap.CountClear(s.marks) <= FrameBitmap.CountClear(s0.marks) && s.free <= s0.free
  {
    FrameBitmap.CountMore(s0.marks, s.marks);
  }

  /** All clear frames of `s0` below the lowest clear one of `s` have been taken since. */
  lemma LowestInReach(s0: Frames, s: Frames, g: nat)
    requires Reached(s0, s) && g < |s.marks| && s.free > 0
    requires forall h: nat :: h < g ==> s.marks[h]
    ensures InReach(s0, g)
  {
    hide FrameBitmap.CountClear;
    var a0, b0, a, b := s0.marks[..g], s0.marks[g..], s.marks[..g], s.marks[g..];
    assert s0.marks == a0 + b0 && s.marks == a + b;
    FrameBitmap.CountSplit(a0, b0);
    FrameBitmap.CountSplit(a, b);
    FrameBitmap.CountZero(a);
    FrameBitmap.CountMore(b0, b);
  }

  lemma AllocateReaches(s0: Frames, s: Frames)
    requires Reached(s0, s)
    ensures Reached(s0, FrameBitmap.AllocateFrame(s).state)
  {
    hide FrameBitmap.CountClear, InReach;
    CountsLess(s0, s);
    var low := FrameBitmap.Lowest(s.marks, 0);
    if s.free > 0 && low.Some? {
      LowestInReach(s0, s, low.value);
      FrameBitmap.CountUpdate(s.marks, low.value, true);
    }
  }

  lemma FreeReaches(s0: Frames, s: Frames, f: nat)
    requires Reached(s0, s) && f < |s.marks| && !s0.marks[f]
    ensures Reached(s0, FrameBitmap.FreeFrame(s, f).state)
  {
    if s.marks[f] {
      FrameBitmap.CountUpdate(s.marks, f, false);
      var after := s.marks[f := false];
      FrameBitmap.CountMore(s0.marks, after);
    }
  }

  /** The allocator's marks are exactly the boot loader's frames, and nothing has been handed out. */
  ghost predicate AtBoot(vm: Vm, c: Context) {
    Sound(vm, c) && forall f: nat :: Taken(vm, f) ==> f in c.boot
  }

  lemma StepReaches(vm: Vm, c: Context, call: Call, s0: Frames)
    requires Sound(vm, c) && Legal(vm, c, call) && Perform(vm, c, call).Some?
    requires Reached(s0, vm.frames) && forall f: nat :: f < |s0.marks| && s0.marks[f] ==> f in c.boot
    ensures Reached(s0, Perform(vm, c, call).value.0.frames)
  {
    hide Reached, Inv;
    if call.FreeHeap? {
      var owner :| Inv(vm, c, owner);
      FreeIs(vm, c, owner, call.address);
      var f := Translate(vm, call.address).address / PAGE;
      FreeInside(s0, vm.frames, f);
      FreeReaches(s0, vm.frames, f);
    } else {
      forall s | Reached(s0, s) ensures Reached(s0, FrameBitmap.AllocateFrame(s).state) {
        AllocateReaches(s0, s);
      }
      PerformAllocates(vm, c, call, (s: Frames) => Reached(s0, s));
    }
  }

  lemma FreeInside(s0: Frames, s: Frames, f: nat)
    requires Reached(s0, s)
    ensures |s.marks| == |s0.marks|
  {
  }

  lemma {:induction false} RunReaches(states: seq<(Vm, Context)>, calls: seq<Call>, i: nat)
    requires Run(states, calls) && i < |states| && AtBoot(states[0].0, states[0].1)
    ensures var ((vm0, c0), (vm, c)) := (states[0], states[i]);
            && Sound(vm, c)
            && Reached(vm0.frames, vm.frames)
            && SameBoot(c0, vm0, vm)
            && c == c0.(roots := c.roots)
  {
    hide Perform, FreesOwn, StaysInside, Sensible, Reached, Inv;
    if i == 0 {
      StartReached(states[0].0, states[0].1);
    } else {
      RunReaches(states, calls, i - 1);
      RunStep(states, calls, i - 1);
      var (vm, c) := states[i - 1];
      PerformDraws(vm, c, calls[i - 1]);
      StepReaches(vm, c, calls[i - 1], states[0].0.frames);
    }
  }

  lemma StartReached(vm: Vm, c: Context)
    requires Sound(vm, c)
    ensures Reached(vm.frames, vm.frames)
  {
  }

  lemma ExposedSlot(vm: Vm, c: Context) returns (s: Slot)
    requires Exposed(vm, c)
    ensures Target(vm, c, s).Some? && !BootTable(c, s, Target(vm, c, s).value) && Shown(vm, c, Target(vm, c, s).value)
  {
    s :| Target(vm, c, s).Some? && !BootTable(c, s, Target(vm, c, s).value) && Shown(vm, c, Target(vm, c, s).value);
  }

  /** What a run exposes was clear at boot, and in reach. */
  lemma ExposedWasInReach(states: seq<(Vm, Context)>, calls: seq<Call>, i: nat) returns (f: nat)
    requires Run(states, calls) && i < |states| && AtBoot(states[0].0, states[0].1)
    requires Exposed(states[i].0, states[i].1)
    ensures var (vm, c) := states[0];
            Shown(vm, c, f) && Clear(vm, f) && InReach(vm.frames, f)
  {
    RunReaches(states, calls, i);
    var ((vm0, c0), (vm, c)) := (states[0], states[i]);
    SameShown(vm0, vm, c0, c);
    hide Target, Shown, Inv, Run, FrameBitmap.CountClear, Exposed;
    var s := ExposedSlot(vm, c);
    f := Target(vm, c, s).value;
    var owner :| Inv(vm, c, owner);
    InvOwns(vm, c, owner, s);
    assert !Taken(vm0, f);
  }

  /** Some run from here on exposes a frame. */
  ghost predicate SomeRunExposes(vm: Vm, c: Context) {
    exists states: seq<(Vm, Context)>, calls: seq<Call>, i: nat ::
      i < |states| && Run(states, calls) && states[0] == (vm, c) && Exposed(states[i].0, states[i].1)
  }

  lemma RunLonger(vm: Vm, c: Context, call: Call)
    requires Legal(vm, c, call) && Perform(vm, c, call).Some?
    requires var (after, c') := Perform(vm, c, call).value; SomeRunExposes(after, c')
    ensures SomeRunExposes(vm, c)
  {
    hide Perform, FreesOwn, StaysInside, Sensible, Exposed;
    var (after, c') := Perform(vm, c, call).value;
    var states: seq<(Vm, Context)>, calls: seq<Call>, i: nat :|
      i < |states| && Run(states, calls) && states[0] == (after, c') && Exposed(states[i].0, states[i].1);
    var longer, all := [(vm, c)] + states, [call] + calls;
    forall k | 0 <= k < |all|
      ensures Legal(longer[k].0, longer[k].1, all[k])
      ensures Perform(longer[k].0, longer[k].1, all[k]) == Some(longer[k + 1])
    {
      if k > 0 {
        RunStep(states, calls, k - 1);
      }
    }
    assert Run(longer, all) && longer[i + 1] == states[i];
  }

  lemma ExposedNow(vm: Vm, c: Context)
    requires Exposed(vm, c)
    ensures SomeRunExposes(vm, c)
  {
    assert Run([(vm, c)], []) && [(vm, c)][0] == (vm, c);
  }

  lemma {:induction false} OneFlag(vm: Vm, page: nat)
    ensures SetPageFlags(vm, page, 1, true, true).vm
         == UpdateKernel(vm, page, (e: Entry) => e.(writeable := true, noExecute := !true)).vm
  {
    var u := UpdateKernel(vm, page, (e: Entry) => e.(writeable := true, noExecute := !true));
    hide UpdateKernel;
    assert SetPageFlags(u.vm, page + 1, 0, true, true).vm == u.vm;
  }

  /** set_page_flags on a page that lacks a table makes one. */
  lemma {:induction false} FlagsMakeTable(vm: Vm, c: Context, owner: map<nat, Slot>, f: nat, page: nat)
    requires Inv(vm, c, owner) && AllocatePage(vm).result == Some(f)
    requires Linked(vm.mem, vm.kdir, PdIndex(page)) == None
    ensures var after := SetPageFlags(vm, page, 1, true, true).vm;
            Target(after, c, KernelTable(PdIndex(page))) == Some(f) && SameKernel(vm, after)
  {
    OneFlag(vm, page);
    var _ := UpdateFlagsKeeps(vm, c, owner, page, true, true);
    var w := KernelTableFor(vm, page);
    var o := KernelTableForKeeps(vm, c, owner, page);
    TableIs(vm, f, page);
    hide Inv, KernelTableFor, AllocatePage, Lookup, WriteEntry, PdIndex, PtIndex, SetPageFlags;
    var e := EntryAt(w.vm.mem, f, PtIndex(page)).(writeable := true, noExecute := !true);
    SameLinks(w.vm, c, o, f, PtIndex(page), e);
    assert Target(w.vm, c, KernelTable(PdIndex(page))) == Some(f);
  }

  lemma TableIs(vm: Vm, f: nat, page: nat)
    requires Sane(vm) && AllocatePage(vm).result == Some(f) && Linked(vm.mem, vm.kdir, PdIndex(page)) == None
    ensures KernelTableFor(vm, page).result == Some(f)
  {
    hide PdIndex;
  }

  /** With no frame below it clear, the frame becomes the table of a page that lacks one. */
  lemma NextTable(vm: Vm, c: Context, f: nat, i: nat)
    requires Sound(vm, c) && Shown(vm, c, f) && Clear(vm, f) && InReach(vm.frames, f)
    requires FrameBitmap.CountClear(vm.frames.marks[..f]) == 0
    requires i < ENTRIES && Linked(vm.mem, vm.kdir, i) == None
    ensures SomeRunExposes(vm, c)
  {
    var owner :| Inv(vm, c, owner);
    LowestIs(vm, f);
    var page := i * ENTRIES;
    assert PdIndex(page) == i;
    FlagsMakeTable(vm, c, owner, f, page);
    ClearNotBoot(vm, c, f);
    SetFlagsIs(vm, c, page);
    hide Inv, Shown, Target, SetPageFlags, SameKernel, Perform, Legal, Linked, Exposed, PdIndex;
    var after := SetPageFlags(vm, page, 1, true, true).vm;
    KernelIsBoot(vm, after, c);
    SameShown(vm, after, c, c);
    ExposedBy(after, c, KernelTable(i));
    ExposedNow(after, c);
    RunLonger(vm, c, SetFlags(page, 1, true, true));
  }

  lemma {:induction false} SetFlagsIs(vm: Vm, c: Context, page: nat)
    ensures Legal(vm, c, SetFlags(page, 1, true, true))
    ensures Perform(vm, c, SetFlags(page, 1, true, true)) == Some((SetPageFlags(vm, page, 1, true, true).vm, c))
  {
    hide SetPageFlags;
  }

  lemma ExposedBy(vm: Vm, c: Context, s: Slot)
    requires Target(vm, c, s).Some? && !BootTable(c, s, Target(vm, c, s).value) && Shown(vm, c, Target(vm, c, s).value)
    ensures Exposed(vm, c)
  {
  }

  lemma KernelIsBoot(vm: Vm, after: Vm, c: Context)
    requires SameKernel(vm, after)
    ensures SameBoot(c, vm, after)
  {
  }

  lemma LowestIs(vm: Vm, f: nat)
    requires Clear(vm, f) && vm.frames.free > 0 && FrameBitmap.CountClear(vm.frames.marks[..f]) == 0
    ensures AllocatePage(vm).result == Some(f)
    ensures AllocatePage(vm).vm.frames.marks == vm.frames.marks[f := true]
  {
    FrameBitmap.CountZero(vm.frames.marks[..f]);
    assert forall g: nat :: g < f ==> vm.frames.marks[..f][g] == vm.frames.marks[g];
  }

  lemma TakeLowest(vm: Vm, f: nat)
    requires Sane(vm) && Clear(vm, f) && InReach(vm.frames, f) && FrameBitmap.CountClear(vm.frames.marks[..f]) > 0
    ensures var a := AllocatePage(vm);
            && a.result.Some? && Sane(a.vm)
            && Clear(a.vm, f) && InReach(a.vm.frames, f)
            && FrameBitmap.CountClear(a.vm.frames.marks[..f]) == FrameBitmap.CountClear(vm.frames.marks[..f]) - 1
  {
    var below := vm.frames.marks[..f];
    FrameBitmap.CountZero(below);
    var low := FrameBitmap.Lowest(vm.frames.marks, 0).value;
    assert forall g: nat :: g < f ==> below[g] == vm.frames.marks[g];
    assert low < f;
    FrameBitmap.CountUpdate(below, low, true);
    assert vm.frames.marks[low := true][..f] == below[low := true];
  }

  /** A new user directory takes the two lowest clear frames. */
  lemma DirectoryTakes(vm: Vm, f: nat)
    requires Sane(vm) && Clear(vm, f) && InReach(vm.frames, f) && FrameBitmap.CountClear(vm.frames.marks[..f]) > 0
    ensures var s, n := CreateUserDirectory(vm), FrameBitmap.CountClear(vm.frames.marks[..f]);
            && s.result.Some?
            && (n == 1 ==> AllocatePage(AllocatePage(vm).vm).result == Some(f))
            && (n > 1 ==> Clear(s.vm, f) && InReach(s.vm.frames, f)
                          && FrameBitmap.CountClear(s.vm.frames.marks[..f]) == n - 2)
  {
    var a := AllocatePage(vm);
    TakeLowest(vm, f);
    if FrameBitmap.CountClear(vm.frames.marks[..f]) == 1 {
      LowestIs(a.vm, f);
    } else {
      TakeLowest(a.vm, f);
    }
    hide AllocatePage;
  }

  /** The second frame it takes is linked from the first. */
  lemma DirectoryIs(vm: Vm, c: Context, owner: map<nat, Slot>, f: nat)
    requires Inv(vm, c, owner) && CreateUserDirectory(vm).result.Some?
    requires AllocatePage(AllocatePage(vm).vm).result == Some(f)
    ensures var (s, root) := (CreateUserDirectory(vm), CreateUserDirectory(vm).result.value);
            Target(s.vm, c.(roots := c.roots + {root}), UserDir(root)) == Some(f)
  {
    AllocatePageKeeps(vm, c, owner);
    AllocatePageKeeps(AllocatePage(vm).vm, c, owner);
  }

  lemma NewDirectoryIs(vm: Vm, c: Context)
    ensures Legal(vm, c, NewDirectory)
    ensures var s := CreateUserDirectory(vm);
            Perform(vm, c, NewDirectory)
            == Some((s.vm, c.(roots := if s.result.Some? then c.roots + {s.result.value} else c.roots)))
  {
    hide CreateUserDirectory;
  }

  /** What a new directory leaves to be done. */
  lemma DirectoryStep(vm: Vm, c: Context, f: nat, i: nat) returns (after: Vm, c': Context)
    requires Sound(vm, c) && Shown(vm, c, f) && CreateUserDirectory(vm).result.Some?
    ensures Perform(vm, c, NewDirectory) == Some((after, c')) && Legal(vm, c, NewDirectory)
    ensures after == CreateUserDirectory(vm).vm && Sound(after, c') && Shown(after, c', f) && c'.boot == c.boot
    ensures Linked(after.mem, after.kdir, i) == Linked(vm.mem, vm.kdir, i)
    ensures AllocatePage(AllocatePage(vm).vm).result == Some(f) && f !in c.boot ==> Exposed(after, c')
  {
    var owner :| Inv(vm, c, owner);
    var last := AllocatePage(AllocatePage(vm).vm).result == Some(f);
    if last {
      DirectoryIs(vm, c, owner, f);
    }
    NewDirectoryIs(vm, c);
    hide Inv, Shown, CreateUserDirectory, AllocatePage, SameKernel, Exposed, Target, Perform, Legal, Linked;
    var o;
    c', o := CreateUserDirectoryKeeps(vm, c, owner);
    after := CreateUserDirectory(vm).vm;
    KernelIsBoot(vm, after, c);
    SameShown(vm, after, c, c');
    TableIsTarget(vm, c, i);
    TableIsTarget(after, c', i);
    if last && f !in c.boot {
      ExposedBy(after, c', UserDir(CreateUserDirectory(vm).result.value));
    }
  }

  /** A clear frame in reach that a boot mapping shows is handed out by directories enough, and one table at most. */
  lemma {:induction false} ShownIsExposed(vm: Vm, c: Context, f: nat, i: nat)
    requires Sound(vm, c) && Shown(vm, c, f) && Clear(vm, f) && InReach(vm.frames, f)
    requires i < ENTRIES && Linked(vm.mem, vm.kdir, i) == None
    ensures SomeRunExposes(vm, c)
    decreases FrameBitmap.CountClear(vm.frames.marks[..f])
  {
    hide Inv, Shown, CreateUserDirectory, AllocatePage, Linked, Exposed, Perform, Legal, Run;
    var n := FrameBitmap.CountClear(vm.frames.marks[..f]);
    SoundIsSane(vm, c);
    if n == 0 {
      NextTable(vm, c, f, i);
    } else {
      DirectoryTakes(vm, f);
      ClearNotBoot(vm, c, f);
      var after, c' := DirectoryStep(vm, c, f, i);
      if n == 1 {
        ExposedNow(after, c');
      } else {
        ShownIsExposed(after, c', f, i);
      }
      RunLonger(vm, c, NewDirectory);
    }
  }

  lemma SoundIsSane(vm: Vm, c: Context)
    requires Sound(vm, c)
    ensures Sane(vm)
  {
  }

  lemma TableIsTarget(vm: Vm, c: Context, i: nat)
    ensures Target(vm, c, KernelTable(i)) == Linked(vm.mem, vm.kdir, i)
  {
  }

  /** From boot, some run hands out a frame that a boot mapping shows, or makes a table of it, exactly when a boot
      mapping shows a clear frame with fewer clear frames before it than are counted free. */
  lemma BootExposes(vm: Vm, c: Context)
    requires AtBoot(vm, c) && exists i :: 0 <= i < ENTRIES && Linked(vm.mem, vm.kdir, i) == None
    ensures SomeRunExposes(vm, c) <==> exists f: nat :: Shown(vm, c, f) && Clear(vm, f) && InReach(vm.frames, f)
  {
    hide Inv, Shown, Target, Exposed, InReach, Clear, Run;
    if SomeRunExposes(vm, c) {
      var states: seq<(Vm, Context)>, calls: seq<Call>, i: nat :|
        i < |states| && Run(states, calls) && states[0] == (vm, c) && Exposed(states[i].0, states[i].1);
      var f := ExposedWasInReach(states, calls, i);
    }
    if f: nat :| Shown(vm, c, f) && Clear(vm, f) && InReach(vm.frames, f) {
      var i :| 0 <= i < ENTRIES && Linked(vm.mem, vm.kdir, i) == None;
      ShownIsExposed(vm, c, f, i);
    }
  }

  /** Four frames: directory, table, one used, and one clear that boot page 0 shows. */
  lemma FourFrames(vm: Vm, c: Context)
    requires vm == Vm([ZeroFrame()[0 := Entry(true, true, false, false, 1)],
                       ZeroFrame()[0 := Entry(true, true, false, false, 3)], ZeroFrame(), ZeroFrame()],
                      FrameBitmap.Frames([true, true, true, false], 1, 4), 0, 1, 8)
    requires c == Context(1, 0, {}, {0, 1, 2})
    ensures Inv(vm, c, map[0 := KernelDir, 1 := KernelTable(0)])
    ensures Lookup(vm, 0) == Some(3)
  {
    assert Linked(vm.mem, 0, 0) == Some(1);
    assert forall i :: i != 0 ==> Linked(vm.mem, 0, i) == None;
    assert Lookup(vm, 0) == Some(3);
    forall page: nat | 1 <= page < WINDOW ensures Lookup(vm, page) == None {
      SameEntry(page, 0);
    }
  }

  /** With a frame, a page and the page's table there, a heap page is had. */
  lemma OneHeapPage(vm: Vm, c: Context, owner: map<nat, Slot>)
    requires Inv(vm, c, owner) && AllocatePage(vm).result.Some? && vm.left > 0
    requires Linked(vm.mem, vm.kdir, PdIndex(vm.next)).Some?
    ensures AllocateHeapPage(vm).result == Some(vm.next) && AllocateHeapPage(vm).vm.next == vm.next + 1
    ensures AllocateHeapPage(vm).vm.frames == AllocatePage(vm).vm.frames
    ensures AllocateHeapPage(vm).vm.left == vm.left - 1
  {
    AllocatePageKeeps(vm, c, owner);
    TableIsTarget(vm, c, PdIndex(vm.next));
    TableIsTarget(AllocatePage(vm).vm, c, PdIndex(vm.next));
    hide Inv, AllocatePage, Target, PdIndex, PtIndex, EntryAt, WriteEntry;
    LinkedTableFound(TakePages(AllocatePage(vm).vm, 1).vm, vm.next);
  }

  lemma LinkedTableFound(vm: Vm, page: nat)
    requires Linked(vm.mem, vm.kdir, PdIndex(page)).Some?
    ensures forall f: nat :: MapKernel(vm, f, page).result.Some?
                             && MapKernel(vm, f, page).vm == vm.(mem := MapKernel(vm, f, page).vm.mem)
  {
  }

  /** Nothing is in use but what the boot loader made. */
  lemma NothingMade(vm: Vm, c: Context, owner: map<nat, Slot>)
    requires Inv(vm, c, owner) && forall f: nat :: Taken(vm, f) ==> f in c.boot
    ensures !Exposed(vm, c)
  {
    hide Inv, Target, Shown;
    forall s | Target(vm, c, s).Some? ensures BootTable(c, s, Target(vm, c, s).value) {
      InvOwns(vm, c, owner, s);
    }
  }

  lemma FourFramesStep(vm: Vm, c: Context)
    requires Inv(vm, c, map[0 := KernelDir, 1 := KernelTable(0)]) && Lookup(vm, 0) == Some(3)
    requires vm.frames == FrameBitmap.Frames([true, true, true, false], 1, 4) && vm.next == 1 && vm.left == 8
    requires Linked(vm.mem, vm.kdir, 0).Some? && c == Context(1, 0, {}, {0, 1, 2})
    ensures !Exposed(vm, c) && AllocateHeapPage(vm).result == Some(1) && AllocateHeapPage(vm).vm.next == 2
    ensures Lookup(AllocateHeapPage(vm).vm, 0) == Lookup(AllocateHeapPage(vm).vm, 1) == Some(3)
    ensures Exposed(AllocateHeapPage(vm).vm, c)
  {
    var owner := map[0 := KernelDir, 1 := KernelTable(0)];
    assert FrameBitmap.Lowest(vm.frames.marks, 0) == Some(3);
    assert AllocatePage(vm).result == Some(3);
    hide Inv, AllocateHeapPage, Lookup, Target, AllocatePage;
    OneHeapPage(vm, c, owner);
    NothingMade(vm, c, owner);
    HeapPageShown(vm, c, owner);
    var after := AllocateHeapPage(vm).vm;
    var _ := AllocateHeapPageKeeps(vm, c, owner);
    AlikeIsSameBoot(c, vm, after, 1, 2);
    HeapTarget(after, c, 1);
    ExposedBy(after, c, HeapPage(1));
  }

  lemma HeapTarget(vm: Vm, c: Context, page: nat)
    requires c.heap <= page < vm.next
    ensures Target(vm, c, HeapPage(page)) == Lookup(vm, page)
  {
  }

  /** The first heap page then gets the frame that the boot mapping shows. */
  lemma FramebufferHandedOut()
    ensures exists vm, c ::
              && Sound(vm, c) && !Exposed(vm, c) && Legal(vm, c, GetHeapPage)
              && c.window <= 0 < c.heap && vm.next == 1
              && AllocateHeapPage(vm).result == Some(1)
              && Lookup(AllocateHeapPage(vm).vm, 0) == Lookup(AllocateHeapPage(vm).vm, 1) == Some(3)
              && Exposed(AllocateHeapPage(vm).vm, c)
  {
    var blank := ZeroFrame();
    var dir := blank[0 := Entry(true, true, false, false, 1)];
    var table := blank[0 := Entry(true, true, false, false, 3)];
    var vm := Vm([dir, table, blank, blank], FrameBitmap.Frames([true, true, true, false], 1, 4), 0, 1, 8);
    var c := Context(1, 0, {}, {0, 1, 2});
    FourFrames(vm, c);
    hide Inv, AllocateHeapPage, Lookup, Exposed;
    FourFramesStep(vm, c);
    assert Legal(vm, c, GetHeapPage);
  }
}
